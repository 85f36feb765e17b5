/** The template mini-language of lib/core.js: `compileTemplate` cuts a text at its
    `{path}` placeholders into literal pieces and compiled paths, and the compiled
    resolver puts the literal pieces back with the text of each resolved value in
    between. */
module Templates {
  import opened Common
  import opened Text
  import opened Json
  import opened Paths

  /** A compiled template: `literals[0] {paths[0]} literals[1] ... {paths[n-1]} literals[n]`. */
  datatype Template = Template(literals: seq<string>, paths: seq<Path>)

  /** The placeholders of `/\{(.+?)\}/g` and the text around them. */
  function Placeholders(s: string): Pieces {
    Scan(s, '{', '}')
  }

  /** `compilePath` applied to each placeholder, in order. */
  function CompileEach(inners: seq<string>): (r: seq<Result<Path>>)
    ensures |r| == |inners|
  {
    seq(|inners|, k requires 0 <= k < |inners| => CompilePath(inners[k]))
  }

  /** The literal pieces with the compiled placeholders: the `Invalid path` error of
      the first placeholder that does not compile, or the template. */
  function Assemble(lits: seq<string>, inners: seq<string>): Result<Template>
    requires |lits| == |inners| + 1
  {
    var rs := CompileEach(inners);
    match FirstFailure(rs, 0)
    case Some(k) => Failure(rs[k].error)
    case None => Success(Template(lits, SuccessValues(rs)))
  }

  /** What `compileTemplate(s)` produces: the literal pieces around the placeholders,
      one more than there are placeholders, and a valid path for each of them. */
  function TemplateOf(s: string): (r: Result<Template>)
    ensures r.Success? ==>
      && r.value.literals == Placeholders(s).literals
      && |r.value.literals| == |r.value.paths| + 1
      && (forall k :: 0 <= k < |r.value.paths| ==> ValidPath(r.value.paths[k]))
      && |r.value.paths| == |Placeholders(s).inners|
      && forall k :: 0 <= k < |r.value.paths| ==> r.value.paths[k].keys == Segments(Placeholders(s).inners[k])
  {
    var p := Placeholders(s);
    if FirstFailure(CompileEach(p.inners), 0).None? then
      CompiledPathsValid(p.inners);
      Assemble(p.literals, p.inners)
    else Assemble(p.literals, p.inners)
  }

  /** `compileTemplate(s)`: the matches of the placeholder pattern, then the loop
      over them. */
  method CompileTemplate(s: string) returns (r: Result<Template>)
    ensures r == TemplateOf(s)
  {
    var p := Placeholders(s);
    r := CompilePieces(p.literals, p.inners);
  }

  /** The loop of `compileTemplate`: it pushes the text before each match and the
      compiled path of its group, stopping at the first path that throws; the text
      after the last match closes the list. */
  method CompilePieces(lits: seq<string>, inners: seq<string>) returns (r: Result<Template>)
    requires |lits| == |inners| + 1
    ensures r == Assemble(lits, inners)
  {
    ghost var rs := CompileEach(inners);
    var strings: seq<string> := [];
    var resolvers: seq<Path> := [];
    var i := 0;
    while i < |inners|
      invariant 0 <= i <= |inners|
      invariant forall k :: 0 <= k < i ==> rs[k].Success?
      invariant strings == lits[..i]
      invariant resolvers == SuccessValues(rs[..i])
    {
      strings := strings + [lits[i]];
      var c := CompilePath(inners[i]);
      if c.Failure? {
        FirstFailureAt(rs, 0, i);
        return Failure(c.error);
      }
      SuccessValuesSnoc(rs, i);
      resolvers := resolvers + [c.value];
      i := i + 1;
    }
    strings := strings + [lits[i]];
    assert strings == lits;
    assert rs[..i] == rs;
    r := Success(Template(strings, resolvers));
  }

  /** The text of each resolved value: `pass` is the identity, so the value is
      converted by the string concatenation that follows it. */
  function Values(paths: seq<Path>, data: Value): (r: seq<string>)
    ensures |r| == |paths|
  {
    seq(|paths|, k requires 0 <= k < |paths| => ToText(Walk(paths[k].keys, data)))
  }

  /** What the compiled template returns for `data`. */
  function Render(t: Template, data: Value): string
    requires |t.literals| == |t.paths| + 1
  {
    Weave(t.literals, Values(t.paths, data))
  }

  /** `resolveTemplate(data)`: starts from the first literal and appends each resolved
      value followed by the next literal. */
  method ResolveTemplate(t: Template, data: Value) returns (r: string)
    requires |t.literals| == |t.paths| + 1
    requires forall k :: 0 <= k < |t.paths| ==> t.paths[k].keys != []
    ensures r == Render(t, data)
  {
    var vals := Values(t.paths, data);
    r := t.literals[0];
    var i := 1;
    while i < |t.literals|
      invariant 1 <= i <= |t.literals|
      invariant r == Weave(t.literals[..i], vals[..i - 1])
    {
      var v := ResolvePath(t.paths[i - 1], data);
      WeaveSnoc(t.literals, vals, i);
      r := r + (ToText(v) + t.literals[i]);
      i := i + 1;
    }
    assert t.literals[..i] == t.literals && vals[..i - 1] == vals;
  }

  /** One more placeholder and literal extend the woven prefix. */
  lemma WeaveSnoc(lits: seq<string>, vals: seq<string>, i: nat)
    requires |lits| == |vals| + 1 && 1 <= i < |lits|
    ensures Weave(lits[..i + 1], vals[..i]) == Weave(lits[..i], vals[..i - 1]) + (vals[i - 1] + lits[i])
  {
    var l, v := lits[..i + 1], vals[..i];
    assert l[..|l| - 1] == lits[..i] && v[..|v| - 1] == vals[..i - 1];
    assert l[|l| - 1] == lits[i] && v[|v| - 1] == vals[i - 1];
  }

  /** `evaluateTemplate(template, data)`: throws exactly when a placeholder holds no
      word character, whatever the data. */
  function EvaluateTemplate(template: string, data: Value): (r: Result<string>)
    ensures r.Failure? <==>
      exists k :: 0 <= k < |Placeholders(template).inners| && !HasWordChar(Placeholders(template).inners[k])
  {
    TemplateFailsIff(template);
    match TemplateOf(template)
    case Success(t) => Success(Render(t, data))
    case Failure(e) => Failure(e)
  }

  // ---------------------------------------------------------------- properties

  /** Every path compiled from a placeholder is valid. */
  lemma CompiledPathsValid(inners: seq<string>)
    requires FirstFailure(CompileEach(inners), 0).None?
    ensures forall k :: 0 <= k < |inners| ==> ValidPath(SuccessValues(CompileEach(inners))[k])
  {
    var rs := CompileEach(inners);
    forall k | 0 <= k < |inners| ensures ValidPath(SuccessValues(rs)[k]) {
      assert rs[k] == CompilePath(inners[k]);
    }
  }

  /** A compiled template has one more literal piece than placeholders, every path is
      valid, and the pieces with the placeholders put back rebuild the template. */
  lemma TemplateShape(s: string)
    ensures TemplateOf(s).Success? ==>
      var t := TemplateOf(s).value;
      && |t.literals| == |t.paths| + 1
      && (forall k :: 0 <= k < |t.paths| ==> ValidPath(t.paths[k]))
      && Weave(t.literals, Wrap(Placeholders(s).inners, '{', '}')) == s
  {
    var p := Placeholders(s);
    ScanRoundTrip(s, '{', '}');
    if FirstFailure(CompileEach(p.inners), 0).None? {
      CompiledPathsValid(p.inners);
    }
  }

  /** The leftmost placeholder that fails to compile is the leftmost one without a
      word character, and its message names it. */
  lemma FirstFailureIsFirstBlank(inners: seq<string>)
    ensures FirstFailure(CompileEach(inners), 0).None? ==>
      forall k :: 0 <= k < |inners| ==> HasWordChar(inners[k])
    ensures FirstFailure(CompileEach(inners), 0).Some? ==>
      var k := FirstFailure(CompileEach(inners), 0).value;
      && k < |inners| && !HasWordChar(inners[k])
      && (forall j :: 0 <= j < k ==> HasWordChar(inners[j]))
      && CompileEach(inners)[k].error == "Invalid path: '" + inners[k] + "'"
  {
    var rs := CompileEach(inners);
    forall k | 0 <= k < |inners| ensures rs[k].Failure? <==> !HasWordChar(inners[k]) {
      InvalidPathIffNoWordChar(inners[k]);
    }
  }

  /** `compileTemplate` throws exactly when some placeholder holds no word character,
      and then with the `Invalid path` message of the leftmost such placeholder. */
  lemma TemplateFailsIff(s: string)
    ensures TemplateOf(s).Failure? <==>
      exists k :: 0 <= k < |Placeholders(s).inners| && !HasWordChar(Placeholders(s).inners[k])
    ensures TemplateOf(s).Failure? ==>
      exists k :: 0 <= k < |Placeholders(s).inners| && !HasWordChar(Placeholders(s).inners[k])
        && (forall j :: 0 <= j < k ==> HasWordChar(Placeholders(s).inners[j]))
        && TemplateOf(s).error == "Invalid path: '" + Placeholders(s).inners[k] + "'"
  {
    var inners := Placeholders(s).inners;
    FirstFailureIsFirstBlank(inners);
    match FirstFailure(CompileEach(inners), 0)
    case Some(k) =>
      assert !HasWordChar(inners[k]);
    case None =>
  }

  /** The text of the value each placeholder's path reaches in `data`, in order. */
  function PlaceholderTexts(inners: seq<string>, data: Value): (r: seq<string>)
    ensures |r| == |inners|
  {
    seq(|inners|, k requires 0 <= k < |inners| => ToText(Walk(Segments(inners[k]), data)))
  }

  /** When every placeholder holds a word character, evaluating the template gives the
      literal pieces woven with the text of the value at each placeholder, left to
      right: `s0 + v1 + s1 + ... + vn + sn`. */
  lemma EvaluateTemplateWoven(s: string, data: Value)
    requires forall k :: 0 <= k < |Placeholders(s).inners| ==> HasWordChar(Placeholders(s).inners[k])
    ensures EvaluateTemplate(s, data)
         == Success(Weave(Placeholders(s).literals, PlaceholderTexts(Placeholders(s).inners, data)))
  {
    var p := Placeholders(s);
    var rs := CompileEach(p.inners);
    FirstFailureIsFirstBlank(p.inners);
    assert FirstFailure(rs, 0).None?;
    var t := TemplateOf(s).value;
    assert t.paths == SuccessValues(rs);
    assert Values(t.paths, data) == PlaceholderTexts(p.inners, data);
  }

  /** A template without an opening brace has no placeholder and resolves to itself
      for every input. */
  lemma TemplateWithoutPlaceholder(s: string, data: Value)
    requires '{' !in s
    ensures EvaluateTemplate(s, data) == Success(s)
  {
    ScanWithoutOpen(s, '{', '}');
    assert FirstFailure(CompileEach([]), 0) == None;
    assert Values([], data) == [];
  }

  /** A template with one placeholder `{g}` between placeholder-free texts `a` and `c`
      is `a`, the text of the value at `g`, then `c`. */
  lemma OnePlaceholder(s: string, a: string, g: string, c: string, data: Value)
    requires s == a + "{" + g + "}" + c
    requires '{' !in a && '{' !in c
    requires g != [] && '}' !in g && HasWordChar(g)
    requires forall i :: 0 <= i < |g| ==> !IsLineTerminator(g[i])
    ensures EvaluateTemplate(s, data) == Success(a + ToText(Walk(Segments(g), data)) + c)
  {
    var p := Placeholders(s);
    ScanDelimited(a, g, c, '{', '}');
    DelimitedAssoc(a, '{', g, '}', c);
    ScanWithoutOpen(c, '{', '}');
    assert p.literals == [a, c] && p.inners == [g];
    InvalidPathIffNoWordChar(g);
    var rs := CompileEach(p.inners);
    assert rs == [CompilePath(g)];
    assert FirstFailure(rs, 1) == None;
    assert FirstFailure(rs, 0) == None;
    var t := Template([a, c], [CompilePath(g).value]);
    assert SuccessValues(rs) == t.paths;
    assert TemplateOf(s) == Success(t);
    var vals := Values(t.paths, data);
    assert vals == [ToText(Walk(Segments(g), data))];
    WeaveOne(a, vals[0], c);
  }

  lemma WeaveOne(a: string, v: string, c: string)
    ensures Weave([a, c], [v]) == a + v + c
  {
    var l, w := [a, c], [v];
    assert l[..1] == [a] && w[..0] == [];
  }

  /** A placeholder whose path reaches `null` or `undefined` renders as the words
      `null` and `undefined`. */
  lemma NullishRendersAsWord(a: string, g: string, c: string, data: Value)
    requires '{' !in a && '{' !in c
    requires g != [] && '}' !in g && HasWordChar(g)
    requires forall i :: 0 <= i < |g| ==> !IsLineTerminator(g[i])
    ensures Walk(Segments(g), data) == Null ==> EvaluateTemplate(a + "{" + g + "}" + c, data) == Success(a + "null" + c)
    ensures Walk(Segments(g), data) == Undef ==> EvaluateTemplate(a + "{" + g + "}" + c, data) == Success(a + "undefined" + c)
  {
    OnePlaceholder(a + "{" + g + "}" + c, a, g, c, data);
  }
}
