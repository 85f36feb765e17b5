# garmin-connect-scraper core in Dafny

This project models the logic at the heart of garmin-connect-scraper, a tool that
signs in to Garmin Connect and mirrors a user's activity list and activity details
into local JSON files. The model covers the following parts.

- **Paths** (`lib/core.js`, `compilePath`). A path such as `a.b`, `items[0]` or
  `[-1].length` is compiled into a list of segments:
  - brackets are rewritten to dots;
  - the text is split on dots;
  - each piece is trimmed;
  - only pieces holding a word character are kept.

  The resolver then walks a JSON-like value. It stops at the first `null`/`undefined`
  it meets, and counts negative array indices from the end.
- **Templates** (`compileTemplate`, `evaluateTemplate`). A text is cut at its `{path}`
  placeholders into literal pieces and compiled paths. Rendering weaves the pieces
  together with the text of each resolved value. The logging messages of
  `lib/main.js` are worked through as examples.
- **Projection** (`setDefault`, `pick` and `createPickPath` in `lib/core.js`;
  `pickAll`, `pickNotNull`, `normalizePathes` and `createPick` in `lib/main.js`).
  These are the record transforms used on activities and details. `path as alias`
  items are supported, and default paths are added to an explicit list.
- **The delayed request queue** (`createDelayedQueue`). It is a class with the
  queue, the timer flag and a ghost log of the callbacks it has invoked. Its
  methods are `Enqueue`, `TimerFired` (the timer expiring) and `Clear`.
- **Incremental paging** (`updateActivities`). The search service is asked for page
  after page until one of three things happens:
  - a page is empty;
  - the `finish` bound is reached;
  - the newest activity already stored turns up (the high-water mark).

  What follows is modelled as a plan of effects: which files are written and which
  detail requests are issued (`updateActivitiesAll`, `fetchActivityDetails`,
  `fetchActivityDetailsAll`, `fetchActivityDetailsAllHelper`). `toPosixSep` is also
  modelled.

JSON values are the datatype `Json.Value`, and objects are ordered lists of
properties. A JavaScript exception is a `Failure` carrying the exception's `message`,
without its class name (`Error`, `TypeError`). The search service, the page source and the timer are parameters, or
explicit method calls.

Modules, one per file:
- `Common`: `Option`, `Result`, and the first failure in a list of steps.
- `Text`: JavaScript character classes, trimming, splitting, `parseInt`, and the lazy
  `/open(.+?)close/g` scan.
- `Json`: values, property lookup and assignment, `Object.fromEntries`, spread merge,
  and string conversion.
- `Paths` and `PathExamples`.
- `Templates` and `TemplateExamples`.
- `Projection`.
- `Throttle`.
- `Sync`.

Where the repository's prose and its code differ, the model follows the code: an item
without ` as ` takes the whole item text as its alias, not the path's last segment
(`Projection.AliasDefaultsToWholeText`). There is one exception. An explicit pick list may
hold `[path, alias]` pairs, as the configuration schema allows, but `createPickPath`
throws on them (see Findings). The code as written is `Projection.CreatePickAsWritten`.
`Projection.CreatePick`, and every detail fetch built on it, uses the intended reading,
in which a pair names its path and its alias.

## Model

| member | source | states |
|---|---|---|
| Text.SplitJoin | lib/core.js:9 | Joining the pieces of `split('.')` with dots gives back the text. |
| Text.JoinSplit | lib/core.js:9 | Splitting a join of dot-free pieces gives back exactly those pieces. |
| Text.TrimKeepsWordChars | lib/core.js:9 | `trim` neither adds nor removes a word character. |
| Text.ScanRoundTrip | lib/core.js:62-67 | The literal pieces, with each captured group put back between its delimiters, rebuild the scanned text. |
| Text.ScanInners | lib/core.js:79 | Every group captured by `(.+?)` is non-empty and holds no line terminator. |
| Text.ParseIntOfIntToString | lib/core.js:42 | `parseInt` reads the decimal text of every integer, negative ones included, back as that integer. |
| Text.ParseIntOfName | lib/core.js:42-43 | A segment starting with a word character that is not a digit, such as `length`, is not a number. |
| Text.ToLowerAscii | lib/main.js:175 | The lower-cased policy keeps its length, holds no capital letter, and differs from the policy at most in letter case. |
| Text.ToLowerAsciiIdempotent | lib/main.js:175 | A lower-case text lower-cases to itself, so lower-casing twice is lower-casing once. |
| Text.ToLowerAsciiEqualIff | lib/main.js:175-176 | Two texts lower-case to the same text exactly when they differ at most in the case of their letters. |
| Json.SetField | lib/core.js:106 | After `obj[key] = v`, `key` holds `v` and every other key is unchanged. An existing key keeps its place and a new key is appended. Distinct keys stay distinct. |
| Json.FromEntries | lib/main.js:159 | `Object.fromEntries` has distinct keys, the same key set as the entries, and each key takes the value of its last entry. |
| Json.FromEntriesDistinct | lib/core.js:93 | Entries with distinct keys are stored exactly as given, in order. |
| Json.Prop | lib/core.js:46 | `obj[key]` is `undefined` exactly where the value has no such own property. On an object it is the property's value, and on an array an element. |
| Json.ToText | lib/core.js:72 | Concatenation renders a string as itself, and a number as decimal text that `parseInt` reads back as that number. |
| Json.Merge | lib/main.js:190 | In `{ ...a, ...b }` a key takes its (last) value in `b` when `b` has it, and its value in `a` otherwise. |
| Paths.CompilePath | lib/core.js:9-12 | A compiled path is the segment list, with every segment trimmed and holding a word character. It fails with `Invalid path: '<path>'` exactly when no segment survives. |
| Paths.InvalidPathIffNoWordChar | lib/core.js:9-12 | `compilePath` throws exactly when the path text holds no word character at all. |
| Paths.KeepWordyEmpty | lib/core.js:9 | The word-character filter leaves nothing exactly when no piece holds a word character. |
| Paths.RewriteBracket | lib/core.js:9 | `a[b]c` is rewritten to `a.b` followed by the rewrite of `c`. |
| Paths.BracketIsDot | lib/core.js:9 | The bracket form `a[b]c` and the dot form `a.bc` give the same segments. |
| Paths.SegmentsWithoutDot | lib/core.js:9 | No segment contains a dot. |
| Paths.Get | lib/core.js:40-47 | On anything but an array, a segment is a plain property lookup. |
| Paths.GetArrayIndex | lib/core.js:40-47 | On an array, integer `i` is `a[i]` for `i >= 0` and `a[length + i]` for `i < 0`; out of range it is `undefined`. |
| Paths.ResolvePath | lib/core.js:13-31 | Both resolvers (one segment, and the loop over several) return `Walk` of the segments. |
| Paths.WalkStopsAtNullish | lib/core.js:22-30 | The first `null`/`undefined` the walk reaches is the result, unchanged. |
| Paths.WalkAppend | lib/core.js:22-30 | Walking `a + b` is walking `a` and then `b` from there. |
| Paths.EvaluatePath | lib/core.js:52-54 | `evaluatePath` throws exactly when the path has no word character. |
| PathExamples.BlankPathsAreInvalid | lib/core.js:9-12 | `""`, `"."` and `"[ ]"` are invalid paths. |
| PathExamples.BracketThenName | lib/core.js:9 | `[b].n` gives segments `b` and `n`: the empty leading piece is dropped. |
| PathExamples.NameThenBracket | lib/core.js:9 | `a[i]` gives segments `a` and `i`. |
| PathExamples.IndexPathSegments | lib/core.js:9 | `items[0]` gives segments `items` and `0`. |
| PathExamples.SignInPathSegments | lib/main.js:152 | `[1].username` gives segments `1` and `username`. |
| PathExamples.UpdatePathSegments | lib/main.js:210 | `[-1].length` gives segments `-1` and `length`: the unanchored filter keeps `-1`. |
| PathExamples.MinusOneIsLast | lib/core.js:40-44 | Segment `-1` on a non-empty array is its last element. |
| PathExamples.LengthOfArray | lib/core.js:40-46 | Segment `length` on an array is its length. |
| Templates.TemplateOf | lib/core.js:57-67 | A compiled template keeps the literal pieces of the scan, one more than there are placeholders. Path `k` is the valid path compiled from placeholder `k`, left to right. |
| Templates.EvaluateTemplate | lib/core.js:86-88 | `evaluateTemplate` throws exactly when some placeholder holds no word character, whatever the data. |
| Templates.EvaluateTemplateWoven | lib/core.js:56-88 | When every placeholder holds a word character, `evaluateTemplate` gives `s0 + v1 + s1 + ... + vn + sn`: the literal pieces woven with the text of the value at each placeholder's path, left to right. |
| Templates.CompileTemplate | lib/core.js:57-67 | `compileTemplate` gives the template `TemplateOf` describes: the scan's pieces with each placeholder compiled, or the error of the first placeholder that fails. |
| Templates.CompilePieces | lib/core.js:58-67 | The push loop stores the literal pieces and compiled paths in order, and stops at the first path that throws. |
| Templates.ResolveTemplate | lib/core.js:69-74 | The `ret +=` loop returns `Render`: the literals woven with the text of each resolved value. |
| Templates.TemplateShape | lib/core.js:58-67 | A compiled template has one more literal than placeholders, and every path is valid. The literals with the placeholders restored rebuild the text. |
| Templates.TemplateFailsIff | lib/core.js:62-64 | Compiling throws exactly when some placeholder holds no word character. The message names the leftmost such placeholder. |
| Templates.FirstFailureIsFirstBlank | lib/core.js:62-64 | The first placeholder that fails to compile is the first one without a word character. |
| Templates.TemplateWithoutPlaceholder | lib/core.js:67-73 | A text without `{` evaluates to itself for every input. |
| Templates.OnePlaceholder | lib/core.js:69-74 | `a{g}c` evaluates to `a`, then the text of the value at `g`, then `c`. |
| Templates.NullishRendersAsWord | lib/core.js:81 | A placeholder that reaches `null` or `undefined` renders as the word `null` or `undefined`. |
| TemplateExamples.SignInMessage | lib/main.js:152 | `Signing in as {[1].username}...` names the user of the credentials argument. |
| TemplateExamples.UpdateMessage | lib/main.js:210 | The closing update message gives the length of the returned list. |
| TemplateExamples.WritingMessage | lib/main.js:215 | `Writing {0}...` names the first argument. |
| Projection.SetDefaultOf | lib/core.js:3-5 | An own property is returned and nothing changes. Otherwise the default is appended under the key and returned. No other key changes. |
| Projection.SetDefaultTwice | lib/core.js:3-5 | A second `setDefault` of the same key changes nothing and returns the first result, whatever its default. |
| Projection.Record.SetDefault | lib/core.js:3-5 | The in-place `setDefault` leaves the record's properties and result as `SetDefaultOf` says. |
| Projection.Picked | lib/core.js:102-108 | `pick` holds a key exactly when it is listed and an own property, and then holds that property's value. Keys are distinct. |
| Projection.Pick | lib/core.js:102-108 | The loop gives `Picked`. On `null`/`undefined` it throws once there is a key to test, and gives `{}` otherwise. |
| Projection.PickedInKeyOrder | lib/core.js:104-106 | With distinct keys, the picked properties come in key order. |
| Projection.CompileSpec | lib/core.js:91 | A string item fails exactly when the text before the first `\s+as\s+` has no word character. |
| Projection.CompileItem | lib/core.js:91 | A `[path, alias]` pair compiles exactly when the path has a word character, and then gives the path's segments and the alias. |
| Projection.SplitAs | lib/core.js:91 | `split(/\s+as\s+/)` gives at least one piece, the first a prefix of the item. The item stays whole exactly when the separator matches nowhere in it. |
| Projection.AliasDefaultsToWholeText | lib/core.js:91 | When `\s+as\s+` matches nowhere in the item, the alias is the whole item text and the path is the whole item. |
| Projection.SplitAsFirstMatch | lib/core.js:91 | With its first `\s+as\s+` match at `q`, the first piece of `split` is the text before `q`, and splitting goes on after the match, whatever white space it spans. |
| Projection.SplitAsAtMatch | lib/core.js:91 | The piece in progress closes at the first separator match, and the next piece starts after it. |
| Projection.AliasAtFirstMatch | lib/core.js:91 | An item whose first separator match starts at `q` compiles the text before `q` as its path. With no later match, the alias is all the text after the match, white space included (`x as total distance`, `a\tas b`). |
| Projection.AliasBeforeSecondMatch | lib/core.js:91 | With a second match, as in `a as b as c`, the alias is the text between the two matches and the rest is dropped. |
| Projection.AliasAfterAs | lib/core.js:91 | `path as alias` compiles `path` and stores it under `alias`. |
| Projection.SplitAsPair | lib/core.js:98 | `/\s+as\s+/` splits `a as b` into `a` and `b`. |
| Projection.CreatePickPathItems | lib/core.js:90-95 | A list that compiles gives one entry per item, in item order. A list that does not fails with the error of its first failing item. |
| Projection.PairRejectedAsWritten | lib/core.js:91 | As written, any pair item makes `createPickPath` throw `path.split is not a function`. The intended reading compiles that item. |
| Projection.SpecItemsAgree | lib/core.js:91 | On lists of strings, the code as written and the intended reading agree. |
| Projection.PickPath | lib/core.js:92-94 | `pickPath(obj)` has distinct keys, and holds a key exactly when some item is stored under it. |
| Projection.PickPathEntries | lib/core.js:92-94 | With distinct keys, the result is those entries. Otherwise each key takes the value of its last item. |
| Projection.PickAll | lib/main.js:154-156 | `{ ...obj }` has distinct keys. |
| Projection.PickAllCopies | lib/main.js:154-156 | `pickAll` copies an object exactly, and copying a copy changes nothing. |
| Projection.NonNullish | lib/main.js:159 | The filter keeps only entries of the input whose value is neither `null` nor `undefined`. |
| Projection.NonNullishLookup | lib/main.js:159 | A key survives the filter exactly when its value is neither `null` nor `undefined`. |
| Projection.PickNotNull | lib/main.js:158-160 | `pickNotNull` throws exactly on `null`/`undefined`. Otherwise its keys are distinct and none of its values is `null`/`undefined`. |
| Projection.PickNotNullFilters | lib/main.js:158-160 | `pickNotNull` of an object is its properties, in order, without the `null`/`undefined` ones. |
| Projection.PickNotNullKeeps | lib/main.js:158-160 | A property is kept exactly when its value is not `null`/`undefined`, so `0`, `false` and `""` stay. |
| Projection.NormalizePathes | lib/main.js:162-170 | The `unshift` loop computes `WithDefaults`. |
| Projection.WithDefaultsShape | lib/main.js:162-170 | The caller's items stay in order at the back. Only missing defaults are put in front. Every default is present and nothing else is added. |
| Projection.WithDefaultsPresent | lib/main.js:164-167 | When every default is present, nothing changes. |
| Projection.NormalizeIdempotent | lib/main.js:162-170 | Normalising twice is normalising once. |
| Projection.CreatePick | lib/main.js:172-182 | Without a list, the result is `pickNotNull` exactly when the policy is `notnull` in some letter case, and `pickAll` otherwise. With a list, it is one compiled entry per item of the list completed by the defaults, or the error of an item that fails. |
| Projection.ListPicker | lib/main.js:173-174 | An explicit list compiles to one entry per item, in order, or fails with the error of a failing item. |
| Projection.PolicyPicker | lib/main.js:175-181 | The policy selects `pickNotNull` exactly when it is `notnull` up to letter case, and `pickAll` otherwise. |
| Projection.NotNullPolicy | lib/main.js:175-176 | The lower-cased policy is `notnull` exactly when the policy is `notnull` up to letter case. |
| Projection.CreatePickAsWrittenDiffers | lib/main.js:172-174 | As written, `createPick` agrees with the intended reading when no item is a pair. A pair in the caller's list makes it throw `path.split is not a function`. |
| Projection.CreatePickChoice | lib/main.js:172-182 | An explicit list always gives a path pick, whatever the policy. Otherwise `notnull` in any letter case gives `pickNotNull`, and every other policy gives `pickAll`. |
| Projection.NotNullSpellings | lib/main.js:175-177 | `notNull`, `NOTNULL` and `notnull` all select `pickNotNull`. |
| Throttle.CancelsFromBack | lib/main.js:80-84 | `clear` invokes only cancel callbacks, at most one per entry. |
| Throttle.CancelsAreTheClearCallbacks | lib/main.js:80-84 | A cancel callback is invoked exactly when some queued entry carries it. |
| Throttle.DelayedQueue.constructor | lib/main.js:53-55 | A new queue is empty, the timer is off, and nothing has run. |
| Throttle.DelayedQueue.Enqueue | lib/main.js:70-74 | The entry goes to the front. Into an empty queue its callback runs and the timer starts; otherwise nothing runs and the timer is untouched. Callbacks keep running in enqueue order. |
| Throttle.DelayedQueue.ConsumeNext | lib/main.js:64-67 | The callback of the oldest entry runs, and the timer is armed. |
| Throttle.DelayedQueue.TimerFired | lib/main.js:57-62 | The oldest entry leaves. If others wait, the next oldest runs, its enqueue number is added to the run order, and the timer is armed again. Otherwise the timer is off and nothing runs. Outside calls the timer is armed exactly when requests wait. |
| Throttle.DelayedQueue.Clear | lib/main.js:75-85 | The timer stops and the queue empties. Every present cancel callback is invoked, oldest first, including the running head's. No request callback runs. |
| Sync.Merged | lib/main.js:190 | The merged parameters default `start` to 0 and `limit` to 20, and otherwise take the caller's values. |
| Sync.MergedCursorDefaults | lib/main.js:190-192 | Without a cursor of its own, the search starts at 0 in pages of 20. |
| Sync.Request | lib/main.js:195-196 | Each request carries the current `start` and `limit`, and the other parameters unchanged. |
| Sync.RequestAgain | lib/main.js:194-196 | Writing a new cursor over a previous one equals writing it once into the merged parameters. |
| Sync.WriteCursor | lib/main.js:195-196 | The two in-place assignments turn one request into the next. |
| Sync.Latest | lib/main.js:187 | The high-water mark is the first stored activity's `activityId` when both are present, and `-1` otherwise. It is never `null`/`undefined`. |
| Sync.ScanPage | lib/main.js:200-205 | A page scan picks at most one record per record of the page. Without the mark it picks them all. It throws only on a non-empty page. |
| Sync.ScanChunk | lib/main.js:200-205 | The `some` over a page pushes what `ScanPage` picks, reports whether the mark was met, and throws what it throws. |
| Sync.ScanPageMeaning | lib/main.js:200-205 | A page scan picks exactly the records before the first marked one, in order. It reports a hit exactly when the page holds the mark. |
| Sync.UpdateActivities | lib/main.js:186-210 | The result and the sequence of request cursors are those of `Paginate`, from the merged cursor with the stored activities' mark. |
| Sync.Paginate | lib/main.js:194-207 | The loop makes at most its budget of requests. It makes none exactly when the cursor already reached `finish` or there is no budget. |
| Sync.FetchPages | lib/main.js:194-207 | The `for` loop does what `Paginate` describes. |
| Sync.PaginateResult | lib/main.js:194-209 | On normal completion, the result is the pick of every record read before the first marked one, in page order. |
| Sync.PaginateStarts | lib/main.js:194-196 | Request `k` asks for `start + k*limit`, never at or past `finish`, and within the page budget. |
| Sync.PaginateStops | lib/main.js:194-207 | Every page but the last was read in full, non-empty and without the mark. A normal end after the last page means an empty page, the mark, or the next cursor at `finish`. A normal end with no request means the cursor started at `finish`. An exception comes from the last page. |
| Sync.EnoughPages | lib/main.js:194 | With `finish` given and a positive `limit`, a budget covering `finish` never runs out. |
| Sync.Hint | lib/main.js:222 | The progress hint is empty exactly when there is at most one new activity. |
| Sync.DetailFetches | lib/main.js:217-225 | A descriptor that compiles gives one detail request per new activity. |
| Sync.DetailFetchesMeaning | lib/main.js:217-224 | The descriptor fails exactly when a template or the pick fails to compile. Request `i` is for the URL template evaluated against activity `i` alone, with hint `(i+1 of n)`, and writes to the path template evaluated against `{ ...env, ...activity }`. |
| Sync.IssueError | lib/main.js:227-229 | The details stage throws exactly when some descriptor fails, and then with the error of the first failing one. |
| Sync.IssueWithoutError | lib/main.js:227-229 | Without an error, the requests of every descriptor are issued, descriptor by descriptor. |
| Sync.DetailsAllCount | lib/main.js:227-235 | With every descriptor compiling, there is exactly one request per (descriptor, activity) pair. |
| Sync.UpdateAllPlan | lib/main.js:271-277 | Nothing happens exactly when there is no new activity. Otherwise the write of the activity list comes first. Only the details stage can throw. |
| Sync.UpdateAllEffects | lib/main.js:271-277 | With no new activity, nothing is written or fetched. Otherwise `new ++ old` is written first. Without descriptors nothing else happens; with them, the detail requests follow. |
| Sync.ActivitiesFile | lib/main.js:266 | A path without `{` is used as it is. Resolving throws exactly when some placeholder holds no word character. |
| Sync.DefaultActivitiesFile | lib/main.js:262-266 | The default search path `activities.json` resolves to itself. |
| Sync.ToPosixSep | lib/main.js:305-307 | The length is kept and no backslash remains. |
| Sync.ToPosixSepMeaning | lib/main.js:305-307 | Only backslashes change, each into `/`, and converting twice is converting once. |

## Left out

- Browser automation, sign-in, network fetches and file I/O (`launchBrowser`, `signin`, `evaluateFetch`, `closeBrowser`, `lib/fs.js`, `lib/url.js`). These are foreign calls. The search service is the parameter `service`, and file writes and detail fetches are `Effect` values.
- Real time and promise scheduling. `setTimeout`/`clearTimeout` become the `timerArmed` flag and the `TimerFired` method. `Promise.all` interleaving is concurrency: the model fixes which operations are issued, not how they overlap.
- Re-entrant calls into the queue from inside a callback. Callbacks are identities logged in `log`, and what they do is not modelled.
- The `logged` wrapper, `createEnv` (clock, working directory, home directory), `parseOptions`, `main`, `lib/cli.js` and the Joi validators of `lib/schema.js`. These are console, CLI and library glue. The logging templates are used as examples only.
- Projection.CreatePick: an explicit list with a `[path, alias]` pair compiles under the intended reading, while the code as written throws `path.split is not a function` (Findings). For such a descriptor, `Sync.DetailFetches` and `Sync.UpdateAllPlan` issue requests that the program does not. `Projection.CreatePickAsWrittenDiffers` states where the two differ.
- Text.ToLowerAscii: only the letters A–Z are lowered, whereas `toLowerCase` covers all of Unicode. No character outside ASCII lowers to a letter of `notnull`, so the policy choice is the same.
- Json.Prop: only own properties are read. A path such as `a.constructor` or `a.toString` reaches an inherited function in JavaScript, which renders as its source text. The model gives `undefined`.
- Strings are sequences of characters. JavaScript counts `length` and string indices in UTF-16 code units, so `Prop` of a string differs on characters outside the Basic Multilingual Plane.
- JavaScript's enumeration of integer-like keys before other keys. Objects are kept in insertion order.
- The range and floating-point nature of JavaScript numbers. Numbers are unbounded integers.
- Sync.UpdateActivities: the source loops without bound when pages never end and the mark is never met. The model takes a page budget `pages`, and `OutOfPages` is an outcome of the model only. `Sync.EnoughPages` gives a budget that always suffices when `finish` is set.
- Sync.UpdateActivities: `start` and `limit` are required to be numbers, as the configuration schema requires integers for both (`lib/schema.js:44-45`).
- Sync.UpdateActivities: the pick is an abstract record transform. The scraper builds it with `Projection.CreatePick` and applies it with `Projection.ApplyPick`.
- Sync.UpdateAllPlan: the details stage is modelled up to which requests are issued. The content of the detail JSON, and the pick applied to it, are carried as the `picker` and not computed.
- Sync.UpdateAllPlan: reading the stored activities file is outside the model, so the stored activities are a parameter.
- Sync.ActivitiesFile: only the default path (no placeholder) is worked out as a concrete example. For other paths, `Templates.EvaluateTemplateWoven` gives the resolved file name.

## Findings

| source | as written | input that shows it | evidently intended | confidence | as-written member | corrected member |
|---|---|---|---|---|---|---|
| lib/core.js:91 | `createPickPath` calls `path.split(separator)` on every pick item, but the configuration schema (`lib/schema.js:21-24`) also admits two-element `[path, alias]` arrays as items | a fetch descriptor with `pick: [["summaryDTO.distance", "distance"]]` | a pair item names its path and its alias directly | not executed | Projection.PairRejectedAsWritten | Projection.CompileItem |
