/** Record projection: `setDefault` and `pick` of lib/core.js, `createPickPath` with
    its `path as alias` items, and the three pick policies of lib/main.js (`pickAll`,
    `pickNotNull` and an explicit path list completed by `normalizePathes`). */
module Projection {
  import opened Common
  import opened Text
  import opened Json
  import opened Paths

  /** What JavaScript throws when a property of `null` or `undefined` is asked for. */
  const NullishObjectError := "Cannot convert undefined or null to object"

  // ---------------------------------------------------------------- setDefault

  /** `setDefault(obj, key, d)` on the properties of `obj`: the new properties and the
      value returned. An own property is returned untouched; otherwise `d` is stored
      under `key` and returned. */
  function SetDefaultOf(f: Fields, key: string, d: Value): (r: (Fields, Value))
    ensures Lookup(r.0, key) == Some(r.1)
    ensures HasKey(f, key) ==> r.0 == f && Lookup(f, key) == Some(r.1)
    ensures !HasKey(f, key) ==> r.0 == f + [(key, d)] && r.1 == d
    ensures forall k :: k != key ==> Lookup(r.0, k) == Lookup(f, k)
  {
    match Lookup(f, key)
    case Some(v) => (f, v)
    case None => (SetField(f, key, d), d)
  }

  /** A second `setDefault` of the same key changes nothing and returns what the first
      one returned, whatever its default. */
  lemma SetDefaultTwice(f: Fields, key: string, d: Value, d2: Value)
    ensures SetDefaultOf(SetDefaultOf(f, key, d).0, key, d2) == SetDefaultOf(f, key, d)
  {
    var r := SetDefaultOf(f, key, d);
    assert HasKey(r.0, key);
  }

  /** An ordinary object whose properties are written in place. */
  class Record {
    var fields: Fields

    constructor (f: Fields)
      ensures fields == f
    {
      fields := f;
    }

    /** `setDefault(this, key, d)`. */
    method SetDefault(key: string, d: Value) returns (r: Value)
      modifies this
      ensures (fields, r) == SetDefaultOf(old(fields), key, d)
    {
      var found := Lookup(fields, key);
      if found.Some? {
        r := found.value;
      } else {
        fields := SetField(fields, key, d);
        r := d;
      }
    }
  }

  // ---------------------------------------------------------------- pick

  /** The properties `pick(obj, keys)` collects from a value that is neither `null` nor
      `undefined`: each listed key that is an own property, with its value. */
  function Picked(obj: Value, keys: seq<string>): (r: Fields)
    requires !IsNullish(obj)
    ensures DistinctKeys(r)
    ensures forall k :: Lookup(r, k) == if k in keys && Has(obj, k) then Some(Prop(obj, k)) else None
    decreases |keys|
  {
    if keys == [] then []
    else
      var init := keys[..|keys| - 1];
      var k := keys[|keys| - 1];
      assert forall x :: x in keys <==> x in init || x == k by {
        assert keys == init + [k];
      }
      var r := Picked(obj, init);
      if Has(obj, k) then SetField(r, k, Prop(obj, k)) else r
  }

  /** `pick(obj, keys)`: `hasOwnProperty` throws on `null` and `undefined`, but only
      once there is a key to test. */
  function PickOf(obj: Value, keys: seq<string>): Result<Fields> {
    if IsNullish(obj) then
      if keys == [] then Success([]) else Failure(NullishObjectError)
    else Success(Picked(obj, keys))
  }

  /** `pick(obj, keys)`: the loop copies each listed own property into a fresh object. */
  method Pick(obj: Value, keys: seq<string>) returns (r: Result<Fields>)
    ensures r == PickOf(obj, keys)
  {
    var ret: Fields := [];
    var i := 0;
    while i < |keys|
      invariant 0 <= i <= |keys|
      invariant IsNullish(obj) ==> i == 0 && ret == []
      invariant !IsNullish(obj) ==> ret == Picked(obj, keys[..i])
    {
      if IsNullish(obj) {
        return Failure(NullishObjectError);
      }
      assert keys[..i + 1][..i] == keys[..i];
      if Has(obj, keys[i]) {
        ret := SetField(ret, keys[i], Prop(obj, keys[i]));
      }
      i := i + 1;
    }
    assert keys[..i] == keys;
    r := Success(ret);
  }

  /** With distinct keys the picked properties come in the order of the keys. */
  lemma {:induction false} PickedInKeyOrder(obj: Value, keys: seq<string>)
    requires !IsNullish(obj)
    requires forall i, j :: 0 <= i < j < |keys| ==> keys[i] != keys[j]
    ensures Picked(obj, keys) == Listed(obj, keys)
    decreases |keys|
  {
    if keys != [] {
      var init := keys[..|keys| - 1];
      var k := keys[|keys| - 1];
      PickedInKeyOrder(obj, init);
      assert k !in init;
      assert !HasKey(Picked(obj, init), k);
    }
  }

  /** The own properties among `keys`, in key order. */
  function Listed(obj: Value, keys: seq<string>): seq<(string, Value)>
    requires !IsNullish(obj)
    decreases |keys|
  {
    if keys == [] then []
    else
      var k := keys[|keys| - 1];
      Listed(obj, keys[..|keys| - 1]) + (if Has(obj, k) then [(k, Prop(obj, k))] else [])
  }

  // ---------------------------------------------------------------- `as` aliases

  /** The end of the run of white space that starts at `i`. */
  function SpaceRunEnd(s: string, i: nat): (j: nat)
    requires i <= |s|
    ensures i <= j <= |s|
    ensures forall k :: i <= k < j ==> IsSpace(s[k])
    ensures j == |s| || !IsSpace(s[j])
    decreases |s| - i
  {
    if i == |s| || !IsSpace(s[i]) then i else SpaceRunEnd(s, i + 1)
  }

  /** Where a match of `/\s+as\s+/` that starts at `q` ends, if one does: white space,
      then `as`, then white space, each run taken whole. */
  function AsMatchAt(s: string, q: nat): (e: Option<nat>)
    requires q <= |s|
    ensures e.Some? ==> q + 4 <= e.value <= |s|
  {
    if q < |s| && IsSpace(s[q]) then
      var r := SpaceRunEnd(s, q);
      if r + 2 < |s| && s[r] == 'a' && s[r + 1] == 's' && IsSpace(s[r + 2])
      then Some(SpaceRunEnd(s, r + 2))
      else None
    else None
  }

  /** `s.split(/\s+as\s+/)` from position `q`, the piece in progress starting at `p`:
      each match closes a piece and the text after the last match is the final one. */
  function SplitAsFrom(s: string, p: nat, q: nat): (r: seq<string>)
    requires p <= q <= |s|
    ensures |r| >= 1
    decreases |s| - q
  {
    if q == |s| then [s[p..]]
    else match AsMatchAt(s, q)
      case Some(e) => [s[p..q]] + SplitAsFrom(s, e, e)
      case None => SplitAsFrom(s, p, q + 1)
  }

  /** The first piece starts where the scan does, and the rest of the text stays one
      piece exactly when no separator starts at or after `q`. */
  lemma {:induction false} SplitAsFromFirst(s: string, p: nat, q: nat)
    requires p <= q <= |s|
    ensures SplitAsFrom(s, p, q)[0] <= s[p..]
    ensures |SplitAsFrom(s, p, q)| == 1 <==> forall i :: q <= i < |s| ==> AsMatchAt(s, i).None?
    ensures |SplitAsFrom(s, p, q)| == 1 ==> SplitAsFrom(s, p, q)[0] == s[p..]
    decreases |s| - q
  {
    if q < |s| {
      match AsMatchAt(s, q)
      case Some(e) =>
        assert s[p..q] == s[p..][..q - p];
      case None =>
        SplitAsFromFirst(s, p, q + 1);
    }
  }

  /** `s.split(/\s+as\s+/)`: the first piece starts the text, and the text stays whole
      exactly when the separator occurs nowhere in it. */
  function SplitAs(s: string): (r: seq<string>)
    ensures |r| >= 1 && r[0] <= s
    ensures r == [s] <==> forall i :: 0 <= i < |s| ==> AsMatchAt(s, i).None?
  {
    assert s[0..] == s;
    SplitAsFromFirst(s, 0, 0);
    SplitAsFrom(s, 0, 0)
  }

  /** Text without white space holds no separator: scanning it leaves the piece open. */
  lemma {:induction false} SplitAsUnspaced(s: string, p: nat, q: nat)
    requires p <= q <= |s|
    requires forall i :: q <= i < |s| ==> !IsSpace(s[i])
    ensures SplitAsFrom(s, p, q) == [s[p..]]
    decreases |s| - q
  {
    if q < |s| {
      SplitAsUnspaced(s, p, q + 1);
    }
  }

  /** Scanning over text without white space moves on without closing a piece. */
  lemma {:induction false} SplitAsSkip(s: string, p: nat, q: nat, q': nat)
    requires p <= q <= q' <= |s|
    requires forall i :: q <= i < q' ==> !IsSpace(s[i])
    ensures SplitAsFrom(s, p, q) == SplitAsFrom(s, p, q')
    decreases q' - q
  {
    if q < q' {
      SplitAsSkip(s, p, q + 1, q');
    }
  }

  /** A text without white space is a single piece. */
  lemma SplitAsWhole(s: string)
    requires forall i :: 0 <= i < |s| ==> !IsSpace(s[i])
    ensures SplitAs(s) == [s]
  {
    SplitAsUnspaced(s, 0, 0);
  }

  lemma AsSeparatorText(a: string, sep: string, b: string)
    requires sep == " as "
    ensures var s := a + sep + b;
      && |s| == |a| + 4 + |b| && s[..|a|] == a && s[|a| + 4..] == b
      && s[|a|] == ' ' && s[|a| + 1] == 'a' && s[|a| + 2] == 's' && s[|a| + 3] == ' '
      && forall i :: 0 <= i < |a| ==> s[i] == a[i]
  {
  }

  /** Scanning over positions where no separator starts moves on without closing a
      piece. */
  lemma {:induction false} SplitAsSkipUnmatched(s: string, p: nat, q: nat, q': nat)
    requires p <= q <= q' <= |s|
    requires forall i :: q <= i < q' ==> AsMatchAt(s, i).None?
    ensures SplitAsFrom(s, p, q) == SplitAsFrom(s, p, q')
    decreases q' - q
  {
    if q < q' {
      SplitAsSkipUnmatched(s, p, q + 1, q');
    }
  }

  /** The piece in progress closes at the first separator match `f`, and the scan goes
      on after it. */
  lemma SplitAsAtMatch(s: string, p: nat, q: nat, f: nat)
    requires p <= q <= f <= |s| && AsMatchAt(s, f).Some?
    requires forall i :: q <= i < f ==> AsMatchAt(s, i).None?
    ensures SplitAsFrom(s, p, q) == [s[p..f]] + SplitAsFrom(s, AsMatchAt(s, f).value, AsMatchAt(s, f).value)
  {
    SplitAsSkipUnmatched(s, p, q, f);
  }

  /** `s.split(/\s+as\s+/)` with its first match at `q`: the first piece is the text
      before the match, whatever white space the match spans. */
  lemma SplitAsFirstMatch(s: string, q: nat)
    requires q <= |s| && AsMatchAt(s, q).Some?
    requires forall i :: 0 <= i < q ==> AsMatchAt(s, i).None?
    ensures SplitAs(s) == [s[..q]] + SplitAsFrom(s, AsMatchAt(s, q).value, AsMatchAt(s, q).value)
  {
    SplitAsAtMatch(s, 0, 0, q);
  }

  /** An item whose first separator match runs from `q` to `e` compiles the text before
      `q` as its path; with no further match its alias is all the text after `e`, white
      space included, as in `x as total distance`. */
  lemma AliasAtFirstMatch(s: string, q: nat)
    requires q <= |s| && AsMatchAt(s, q).Some?
    requires forall i :: 0 <= i < q ==> AsMatchAt(s, i).None?
    requires HasWordChar(s[..q])
    ensures CompileSpec(s).Success?
    ensures CompileSpec(s).value.0.keys == Segments(s[..q])
    ensures var e := AsMatchAt(s, q).value;
      (forall i :: e <= i < |s| ==> AsMatchAt(s, i).None?) ==> CompileSpec(s).value.1 == s[e..]
  {
    var e := AsMatchAt(s, q).value;
    SplitAsFirstMatch(s, q);
    SplitAsFromFirst(s, e, e);
  }

  /** With a second match at `f`, as in `a as b as c`, the alias is the text between the
      two matches and the rest is dropped. */
  lemma AliasBeforeSecondMatch(s: string, q: nat, f: nat)
    requires q <= |s| && AsMatchAt(s, q).Some?
    requires forall i :: 0 <= i < q ==> AsMatchAt(s, i).None?
    requires AsMatchAt(s, q).value <= f <= |s| && AsMatchAt(s, f).Some?
    requires forall i :: AsMatchAt(s, q).value <= i < f ==> AsMatchAt(s, i).None?
    requires HasWordChar(s[..q])
    ensures CompileSpec(s).Success?
    ensures CompileSpec(s).value.0.keys == Segments(s[..q])
    ensures CompileSpec(s).value.1 == s[AsMatchAt(s, q).value..f]
  {
    var e := AsMatchAt(s, q).value;
    SplitAsFirstMatch(s, q);
    SplitAsAtMatch(s, e, e, f);
  }

  /** `a as b` with `a` and `b` free of white space splits into `a` and `b`. */
  lemma SplitAsPair(a: string, sep: string, b: string)
    requires sep == " as "
    requires forall i :: 0 <= i < |a| ==> !IsSpace(a[i])
    requires forall i :: 0 <= i < |b| ==> !IsSpace(b[i])
    ensures SplitAs(a + sep + b) == [a, b]
  {
    var s := a + sep + b;
    var n := |a|;
    AsSeparatorText(a, sep, b);
    SplitAsSkip(s, 0, 0, n);
    AsMatchInPair(a, sep, b);
    SplitAsUnspaced(s, n + 4, n + 4);
  }

  lemma AsMatchInPair(a: string, sep: string, b: string)
    requires sep == " as "
    requires forall i :: 0 <= i < |b| ==> !IsSpace(b[i])
    ensures AsMatchAt(a + sep + b, |a|) == Some(|a| + 4)
  {
    var s := a + sep + b;
    var n := |a|;
    AsSeparatorText(a, sep, b);
    assert SpaceRunEnd(s, n + 1) == n + 1;
    assert forall i :: n + 4 <= i < |s| ==> s[i] == b[i - n - 4];
    assert SpaceRunEnd(s, n + 3) == n + 4;
  }

  // ---------------------------------------------------------------- pick items

  /** An item of a pick list as the configuration schema admits it: a string
      (`path` or `path as alias`) or a two-element array `[path, alias]`. */
  datatype PickItem = Spec(text: string) | Pair(path: string, alias: string)

  /** What `path.split` throws on an array. */
  const SplitNotAFunction := "path.split is not a function"

  /** One string item of `createPickPath`: `[key, alias] = path.split(/\s+as\s+/)`,
      then the compiled `key` and `alias ?? key`. */
  function CompileSpec(text: string): (r: Result<(Path, string)>)
    ensures r.Failure? <==> !HasWordChar(SplitAs(text)[0])
  {
    var pieces := SplitAs(text);
    var key := pieces[0];
    var alias := if |pieces| >= 2 then pieces[1] else key;
    InvalidPathIffNoWordChar(key);
    match CompilePath(key)
    case Failure(e) => Failure(e)
    case Success(p) => Success((p, alias))
  }

  /** One item as the configuration schema means it: a pair names its path and alias
      directly. */
  function CompileItem(item: PickItem): (r: Result<(Path, string)>)
    ensures item.Pair? ==> (r.Success? <==> HasWordChar(item.path))
    ensures item.Pair? && r.Success? ==> r.value.0.keys == Segments(item.path) && r.value.1 == item.alias
    ensures item.Spec? ==> r == CompileSpec(item.text)
  {
    match item
    case Spec(t) => CompileSpec(t)
    case Pair(path, alias) =>
      InvalidPathIffNoWordChar(path);
      match CompilePath(path)
      case Failure(e) => Failure(e)
      case Success(p) => Success((p, alias))
  }

  /** Without ` as ` the alias is the whole item text, not its last segment. */
  lemma AliasDefaultsToWholeText(text: string)
    requires forall i :: 0 <= i < |text| ==> AsMatchAt(text, i).None?
    requires HasWordChar(text)
    ensures CompileSpec(text).Success?
    ensures CompileSpec(text).value.1 == text
    ensures CompileSpec(text).value.0.keys == Segments(text)
  {
    assert SplitAs(text) == [text];
  }

  /** `path as alias` compiles `path` and names the entry `alias`. */
  lemma AliasAfterAs(path: string, sep: string, alias: string)
    requires sep == " as "
    requires forall i :: 0 <= i < |path| ==> !IsSpace(path[i])
    requires forall i :: 0 <= i < |alias| ==> !IsSpace(alias[i])
    requires HasWordChar(path)
    ensures CompileSpec(path + sep + alias).Success?
    ensures CompileSpec(path + sep + alias).value.1 == alias
    ensures CompileSpec(path + sep + alias).value.0.keys == Segments(path)
  {
    SplitAsPair(path, sep, alias);
  }

  // ---------------------------------------------------------------- createPickPath

  /** A compiled pick list: for each item, the path to resolve and the key to store
      its value under. */
  type Compiled = seq<(Path, string)>

  /** `createPickPath(items)` as the configuration schema means it: the items are
      compiled in order and the first one that throws ends it. */
  function CreatePickPath(items: seq<PickItem>): Result<Compiled> {
    var rs := seq(|items|, i requires 0 <= i < |items| => CompileItem(items[i]));
    match FirstFailure(rs, 0)
    case Some(k) => Failure(rs[k].error)
    case None => Success(SuccessValues(rs))
  }

  /** A list that compiles has one entry per item, in item order; a list that does not
      fails with the error of its first item that does not. */
  lemma CreatePickPathItems(items: seq<PickItem>)
    ensures CreatePickPath(items).Success? ==>
      && |CreatePickPath(items).value| == |items|
      && forall i :: 0 <= i < |items| ==>
           CompileItem(items[i]).Success? && CreatePickPath(items).value[i] == CompileItem(items[i]).value
    ensures CreatePickPath(items).Failure? ==>
      exists i :: 0 <= i < |items| && CompileItem(items[i]).Failure?
        && CreatePickPath(items).error == CompileItem(items[i]).error
        && (forall j :: 0 <= j < i ==> CompileItem(items[j]).Success?)
  {
    var rs := seq(|items|, i requires 0 <= i < |items| => CompileItem(items[i]));
    match FirstFailure(rs, 0)
    case Some(k) =>
      assert rs[k] == CompileItem(items[k]);
      assert CreatePickPath(items).error == CompileItem(items[k]).error;
      forall j | 0 <= j < k ensures CompileItem(items[j]).Success? {
        assert rs[j] == CompileItem(items[j]);
      }
    case None =>
      forall i | 0 <= i < |items|
        ensures CompileItem(items[i]).Success? && CreatePickPath(items).value[i] == CompileItem(items[i]).value
      {
        assert rs[i] == CompileItem(items[i]);
      }
  }

  /** `createPickPath(items)` as written: `path.split` runs on every item before any
      path is compiled, and throws on the first array item. */
  function CreatePickPathAsWritten(items: seq<PickItem>): Result<Compiled> {
    if exists i :: 0 <= i < |items| && items[i].Pair? then Failure(SplitNotAFunction)
    else CreatePickPath(items)
  }

  /** A `[path, alias]` item that the schema admits makes `createPickPath` as written
      throw, whatever the other items are, while the intended reading compiles it. */
  lemma PairRejectedAsWritten(items: seq<PickItem>, i: nat)
    requires i < |items| && items[i].Pair?
    ensures CreatePickPathAsWritten(items) == Failure(SplitNotAFunction)
    ensures HasWordChar(items[i].path) ==>
      && CompileItem(items[i]).Success?
      && CompileItem(items[i]).value.0.keys == Segments(items[i].path)
      && CompileItem(items[i]).value.1 == items[i].alias
  {
  }

  /** On lists of strings the two agree. */
  lemma SpecItemsAgree(items: seq<PickItem>)
    requires forall i :: 0 <= i < |items| ==> items[i].Spec?
    ensures CreatePickPathAsWritten(items) == CreatePickPath(items)
  {
  }

  /** The entries `pickPath(obj)` hands to `Object.fromEntries`: one per item, in item
      order, each the item's key with the value its path resolves to. */
  function PickEntries(c: Compiled, obj: Value): (r: Fields)
    ensures |r| == |c|
    ensures forall i :: 0 <= i < |c| ==> r[i] == (c[i].1, Walk(c[i].0.keys, obj))
  {
    seq(|c|, i requires 0 <= i < |c| => (c[i].1, Walk(c[i].0.keys, obj)))
  }

  /** `pickPath(obj)`: one property per distinct item key, and no other. */
  function PickPath(c: Compiled, obj: Value): (r: Fields)
    ensures DistinctKeys(r)
    ensures forall k :: HasKey(r, k) <==> exists i :: 0 <= i < |c| && c[i].1 == k
  {
    var es := PickEntries(c, obj);
    assert forall k :: HasKey(es, k) <==> exists i :: 0 <= i < |c| && c[i].1 == k by {
      forall k ensures HasKey(es, k) <==> exists i :: 0 <= i < |c| && c[i].1 == k {
        if HasKey(es, k) {
          assert c[FindKey(es, k).value].1 == k;
        }
      }
    }
    FromEntries(es)
  }

  /** With distinct keys the picked record holds one property per item, in item order,
      each the item's key with the value of its path; with repeated keys a key keeps
      its first place and the value of its last item. */
  lemma PickPathEntries(c: Compiled, obj: Value)
    ensures (forall i, j :: 0 <= i < j < |c| ==> c[i].1 != c[j].1) ==> PickPath(c, obj) == PickEntries(c, obj)
    ensures forall k :: Lookup(PickPath(c, obj), k) == LookupLast(PickEntries(c, obj), k)
  {
    var es := PickEntries(c, obj);
    if forall i, j :: 0 <= i < j < |c| ==> c[i].1 != c[j].1 {
      assert DistinctKeys(es);
      FromEntriesDistinct(es);
    }
  }

  // ---------------------------------------------------------------- policies

  /** `pickAll(obj)`, that is `{ ...obj }`. */
  function PickAll(obj: Value): (r: Fields)
    ensures DistinctKeys(r)
  {
    FromEntries(Entries(obj))
  }

  /** `pickAll` copies an object exactly, and copying a copy changes nothing. */
  lemma PickAllCopies(f: Fields, v: Value)
    ensures DistinctKeys(f) ==> PickAll(Obj(f)) == f
    ensures PickAll(Obj(PickAll(v))) == PickAll(v)
  {
    if DistinctKeys(f) {
      FromEntriesDistinct(f);
    }
    FromEntriesDistinct(PickAll(v));
  }

  /** The entries whose value is neither `null` nor `undefined`, in order. */
  function NonNullish(es: Fields): (r: Fields)
    ensures |r| <= |es|
    ensures forall i :: 0 <= i < |r| ==> !IsNullish(r[i].1)
    ensures forall e :: e in r ==> e in es
    decreases |es|
  {
    if es == [] then []
    else if IsNullish(es[0].1) then NonNullish(es[1..])
    else [es[0]] + NonNullish(es[1..])
  }

  /** `pickNotNull(obj)`: `Object.entries` throws on `null` and `undefined`; otherwise
      no property of the result is `null` or `undefined`. */
  function PickNotNull(obj: Value): (r: Result<Fields>)
    ensures r.Failure? <==> IsNullish(obj)
    ensures r.Failure? ==> r.error == NullishObjectError
    ensures r.Success? ==> DistinctKeys(r.value)
    ensures r.Success? ==> forall k :: Lookup(r.value, k).Some? ==> !IsNullish(Lookup(r.value, k).value)
  {
    if IsNullish(obj) then Failure(NullishObjectError)
    else
      var es := NonNullish(Entries(obj));
      LookupLastNotNullish(es);
      Success(FromEntries(es))
  }

  /** The last entry of a key, among entries none of which is `null` or `undefined`,
      is neither. */
  lemma {:induction false} LookupLastNotNullish(es: Fields)
    requires forall i :: 0 <= i < |es| ==> !IsNullish(es[i].1)
    ensures forall k :: LookupLast(es, k).Some? ==> !IsNullish(LookupLast(es, k).value)
    decreases |es|
  {
    if es != [] {
      LookupLastNotNullish(es[..|es| - 1]);
    }
  }

  /** Dropping entries keeps the keys distinct. */
  lemma {:induction false} NonNullishDistinct(es: Fields)
    requires DistinctKeys(es)
    ensures DistinctKeys(NonNullish(es))
    decreases |es|
  {
    if es != [] {
      var tail := es[1..];
      assert DistinctKeys(tail) by {
        forall i, j | 0 <= i < j < |tail| ensures tail[i].0 != tail[j].0 {
          assert tail[i] == es[i + 1] && tail[j] == es[j + 1];
        }
      }
      NonNullishDistinct(tail);
      if !IsNullish(es[0].1) {
        var r := NonNullish(es);
        forall i, j | 0 <= i < j < |r| ensures r[i].0 != r[j].0 {
          if i == 0 {
            assert r[j] in NonNullish(tail);
            assert r[j] in tail;
            var m :| 0 <= m < |tail| && tail[m] == r[j];
            assert es[m + 1] == r[j];
          } else {
            assert r[i] == NonNullish(tail)[i - 1] && r[j] == NonNullish(tail)[j - 1];
          }
        }
      }
    }
  }

  /** A property value unless it is `null` or `undefined`. */
  function Kept(o: Option<Value>): Option<Value> {
    if o.Some? && !IsNullish(o.value) then o else None
  }

  /** On distinct entries the filter keeps a key exactly when its value is neither
      `null` nor `undefined`. */
  lemma {:induction false} NonNullishLookup(es: Fields, k: string)
    requires DistinctKeys(es)
    ensures Lookup(NonNullish(es), k) == Kept(Lookup(es, k))
    decreases |es|
  {
    if es != [] {
      var tail := es[1..];
      assert DistinctKeys(tail) by {
        forall i, j | 0 <= i < j < |tail| ensures tail[i].0 != tail[j].0 {
          assert tail[i] == es[i + 1] && tail[j] == es[j + 1];
        }
      }
      NonNullishLookup(tail, k);
      if es[0].0 == k {
        assert forall m :: 0 <= m < |tail| ==> tail[m].0 != k by {
          forall m | 0 <= m < |tail| ensures tail[m].0 != k {
            assert tail[m] == es[m + 1];
          }
        }
      } else {
        assert Lookup(es, k) == Lookup(tail, k);
      }
    }
  }

  /** `pickNotNull` of an object is its properties without those whose value is
      `null` or `undefined`, in order. */
  lemma PickNotNullFilters(f: Fields)
    requires DistinctKeys(f)
    ensures PickNotNull(Obj(f)) == Success(NonNullish(f))
  {
    var n := NonNullish(f);
    NonNullishDistinct(f);
    FromEntriesDistinct(n);
    assert Entries(Obj(f)) == f;
    assert PickNotNull(Obj(f)) == Success(FromEntries(n));
  }

  /** `pickNotNull` keeps a property exactly when its value is neither `null` nor
      `undefined`: `0`, `false` and `""` stay. */
  lemma PickNotNullKeeps(f: Fields, k: string)
    requires DistinctKeys(f)
    ensures Lookup(PickNotNull(Obj(f)).value, k) == Kept(Lookup(f, k))
  {
    PickNotNullFilters(f);
    NonNullishLookup(f, k);
  }

  // ---------------------------------------------------------------- normalizePathes

  /** The defaults from `defaults` onwards added to `ret`: each one missing from the
      list so far goes to its front. */
  function WithDefaults(ret: seq<PickItem>, defaults: seq<PickItem>): seq<PickItem>
    decreases |defaults|
  {
    if defaults == [] then ret
    else WithDefaults(if defaults[0] in ret then ret else [defaults[0]] + ret, defaults[1..])
  }

  /** `normalizePathes(pathes, defaults)`: a copy of the caller's list with each missing
      default put in front of it. */
  method NormalizePathes(pathes: seq<PickItem>, defaults: seq<PickItem>) returns (r: seq<PickItem>)
    ensures r == WithDefaults(pathes, defaults)
  {
    r := pathes;
    var i := 0;
    while i < |defaults|
      invariant 0 <= i <= |defaults|
      invariant WithDefaults(r, defaults[i..]) == WithDefaults(pathes, defaults)
    {
      assert defaults[i..][1..] == defaults[i + 1..];
      if defaults[i] !in r {
        r := [defaults[i]] + r;
      }
      i := i + 1;
    }
  }

  /** The caller's items stay, in their order, behind the added defaults; every
      default is present; nothing else appears. */
  lemma {:induction false} WithDefaultsShape(ret: seq<PickItem>, defaults: seq<PickItem>)
    ensures exists pre :: (WithDefaults(ret, defaults) == pre + ret
      && forall x :: x in pre ==> x in defaults && x !in ret)
    ensures forall d :: d in defaults ==> d in WithDefaults(ret, defaults)
    ensures forall x :: x in WithDefaults(ret, defaults) ==> x in ret || x in defaults
    decreases |defaults|
  {
    if defaults == [] {
      assert WithDefaults(ret, defaults) == [] + ret;
    } else {
      var d := defaults[0];
      var next := if d in ret then ret else [d] + ret;
      WithDefaultsShape(next, defaults[1..]);
      var pre :| WithDefaults(next, defaults[1..]) == pre + next
        && forall x :: x in pre ==> x in defaults[1..] && x !in next;
      if d in ret {
        assert WithDefaults(ret, defaults) == pre + ret;
      } else {
        assert WithDefaults(ret, defaults) == (pre + [d]) + ret;
      }
    }
  }

  /** Once every default is present, adding them changes nothing. */
  lemma {:induction false} WithDefaultsPresent(ret: seq<PickItem>, defaults: seq<PickItem>)
    requires forall d :: d in defaults ==> d in ret
    ensures WithDefaults(ret, defaults) == ret
    decreases |defaults|
  {
    if defaults != [] {
      WithDefaultsPresent(ret, defaults[1..]);
    }
  }

  /** Normalising twice is normalising once. */
  lemma NormalizeIdempotent(pathes: seq<PickItem>, defaults: seq<PickItem>)
    ensures WithDefaults(WithDefaults(pathes, defaults), defaults) == WithDefaults(pathes, defaults)
  {
    WithDefaultsShape(pathes, defaults);
    WithDefaultsPresent(WithDefaults(pathes, defaults), defaults);
  }

  // ---------------------------------------------------------------- createPick

  /** The record transforms `createPick` chooses between. */
  datatype Picker = PickAllFields | PickNotNullFields | PickPaths(compiled: Compiled)

  /** `createPick(policy, pathes, defaults)`: an explicit list, completed with the
      defaults and compiled at once, wins; otherwise the policy decides, compared in
      lower case. */
  function CreatePick(policy: string, pathes: Option<seq<PickItem>>, defaults: seq<PickItem>): (r: Result<Picker>)
    ensures pathes.None? ==> r.Success? && !r.value.PickPaths?
    ensures pathes.None? ==> (r.value == PickNotNullFields <==> EqualIgnoringAsciiCase(policy, "notnull"))
    ensures pathes.Some? ==> CompiledFrom(WithDefaults(pathes.value, defaults), r)
  {
    match pathes
    case Some(ps) => ListPicker(WithDefaults(ps, defaults))
    case None => Success(PolicyPicker(policy))
  }

  /** A path pick with one compiled entry per item, in item order, or the error of an
      item that does not compile. */
  predicate CompiledFrom(items: seq<PickItem>, r: Result<Picker>) {
    && (r.Success? ==>
      && r.value.PickPaths? && |r.value.compiled| == |items|
      && forall i :: 0 <= i < |items| ==> CompileItem(items[i]).Success? && r.value.compiled[i] == CompileItem(items[i]).value)
    && (r.Failure? ==>
      exists i :: 0 <= i < |items| && CompileItem(items[i]).Failure? && CompileItem(items[i]).error == r.error)
  }

  /** An explicit list: the compiled items, or the first error. */
  function ListPicker(items: seq<PickItem>): (r: Result<Picker>)
    ensures CompiledFrom(items, r)
  {
    CreatePickPathItems(items);
    match CreatePickPath(items)
    case Success(c) => Success(PickPaths(c))
    case Failure(e) => Failure(e)
  }

  /** Without a list, the policy compared in lower case. */
  function PolicyPicker(policy: string): (r: Picker)
    ensures !r.PickPaths?
    ensures r == PickNotNullFields <==> EqualIgnoringAsciiCase(policy, "notnull")
  {
    NotNullPolicy(policy);
    if ToLowerAscii(policy) == "notnull" then PickNotNullFields else PickAllFields
  }

  /** The policy text lower-cases to `notnull` exactly when it is `notnull` in some
      mix of letter cases. */
  lemma NotNullPolicy(policy: string)
    ensures ToLowerAscii(policy) == "notnull" <==> EqualIgnoringAsciiCase(policy, "notnull")
  {
    ToLowerAsciiEqualIff(policy, "notnull");
    ToLowerAsciiIdempotent("notnull");
  }

  /** `createPick` with the explicit list compiled by `createPickPath` as written. */
  function CreatePickAsWritten(policy: string, pathes: Option<seq<PickItem>>, defaults: seq<PickItem>): Result<Picker> {
    match pathes
    case Some(ps) =>
      (match CreatePickPathAsWritten(WithDefaults(ps, defaults))
       case Success(c) => Success(PickPaths(c))
       case Failure(e) => Failure(e))
    case None => CreatePick(policy, None, defaults)
  }

  /** The code as written and the intended reading agree when no item is a pair; a
      pair in the caller's list makes the code as written throw. */
  lemma CreatePickAsWrittenDiffers(policy: string, pathes: Option<seq<PickItem>>, defaults: seq<PickItem>)
    ensures (pathes.None? || forall x :: x in pathes.value + defaults ==> x.Spec?) ==>
      CreatePickAsWritten(policy, pathes, defaults) == CreatePick(policy, pathes, defaults)
    ensures pathes.Some? && (exists x :: x in pathes.value && x.Pair?) ==>
      CreatePickAsWritten(policy, pathes, defaults) == Failure(SplitNotAFunction)
  {
    if pathes.Some? {
      var items := WithDefaults(pathes.value, defaults);
      WithDefaultsShape(pathes.value, defaults);
      if forall x :: x in pathes.value + defaults ==> x.Spec? {
        forall i | 0 <= i < |items| ensures items[i].Spec? {
          assert items[i] in pathes.value + defaults;
        }
        SpecItemsAgree(items);
      }
      if exists x :: x in pathes.value && x.Pair? {
        var x :| x in pathes.value && x.Pair?;
        var pre :| items == pre + pathes.value && forall y :: y in pre ==> y in defaults && y !in pathes.value;
        assert x in items;
        var i :| 0 <= i < |items| && items[i] == x;
        PairRejectedAsWritten(items, i);
      }
    }
  }

  /** The transform applied to one record. */
  function ApplyPick(p: Picker, obj: Value): Result<Value> {
    match p
    case PickAllFields => Success(Obj(PickAll(obj)))
    case PickNotNullFields => (match PickNotNull(obj) case Success(f) => Success(Obj(f)) case Failure(e) => Failure(e))
    case PickPaths(c) => Success(Obj(PickPath(c, obj)))
  }

  /** Without an explicit list, `notnull` in any letter case selects `pickNotNull` and
      every other policy selects `pickAll`; with one, the policy is not looked at. */
  lemma CreatePickChoice(policy: string, pathes: Option<seq<PickItem>>, defaults: seq<PickItem>)
    ensures pathes.None? ==> (CreatePick(policy, pathes, defaults) == Success(PickNotNullFields) <==> ToLowerAscii(policy) == "notnull")
    ensures pathes.None? ==> (CreatePick(policy, pathes, defaults) == Success(PickAllFields) <==> ToLowerAscii(policy) != "notnull")
    ensures pathes.Some? ==> CreatePick(policy, pathes, defaults) == CreatePick("", pathes, defaults)
    ensures pathes.Some? && CreatePick(policy, pathes, defaults).Success? ==> CreatePick(policy, pathes, defaults).value.PickPaths?
  {
  }

  lemma NotNullSpellings(policy: string)
    requires policy == "notNull" || policy == "NOTNULL" || policy == "notnull"
    ensures ToLowerAscii(policy) == "notnull"
  {
  }
}
