/** The path mini-language of lib/core.js: `compilePath` turns `a.b`, `items[0]` or
    `[-1].length` into a list of segments, and the compiled resolver walks nested
    objects and arrays, stopping at the first `null` or `undefined`. */
module Paths {
  import opened Common
  import opened Text
  import opened Json

  /** A compiled path: the segments it walks, in order. */
  datatype Path = Path(keys: seq<string>)

  /** What `compilePath` guarantees about the segments it keeps. */
  predicate ValidPath(p: Path) {
    && p.keys != []
    && forall k :: 0 <= k < |p.keys| ==> HasWordChar(p.keys[k]) && '.' !in p.keys[k]
  }

  // ---------------------------------------------------------------- compiling

  function Dotted(inners: seq<string>): (r: seq<string>)
    ensures |r| == |inners|
  {
    seq(|inners|, i requires 0 <= i < |inners| => "." + inners[i])
  }

  /** `path.replace(/\[(.+?)\]/g, '.$1')`: every bracketed group becomes a dot
      followed by the group. */
  function Rewrite(s: string): string {
    var p := Scan(s, '[', ']');
    Weave(p.literals, Dotted(p.inners))
  }

  function TrimAll(parts: seq<string>): (r: seq<string>)
    ensures |r| == |parts|
    ensures forall k :: 0 <= k < |parts| ==> r[k] == Trim(parts[k])
  {
    seq(|parts|, i requires 0 <= i < |parts| => Trim(parts[i]))
  }

  /** `.filter(key => /\w+/.test(key))`. */
  function KeepWordy(parts: seq<string>): (r: seq<string>)
    ensures |r| <= |parts|
    ensures forall k :: 0 <= k < |r| ==> HasWordChar(r[k])
    decreases |parts|
  {
    if parts == [] then []
    else if HasWordChar(parts[0]) then [parts[0]] + KeepWordy(parts[1..])
    else KeepWordy(parts[1..])
  }

  /** The filter only keeps pieces of its input. */
  lemma {:induction false} KeepWordyFrom(parts: seq<string>)
    ensures forall k :: 0 <= k < |KeepWordy(parts)| ==> KeepWordy(parts)[k] in parts
    decreases |parts|
  {
    if parts != [] {
      KeepWordyFrom(parts[1..]);
      var r := KeepWordy(parts);
      forall k | 0 <= k < |r| ensures r[k] in parts {
        if HasWordChar(parts[0]) && k == 0 {
        } else {
          var k' := if HasWordChar(parts[0]) then k - 1 else k;
          assert r[k] == KeepWordy(parts[1..])[k'];
          var j :| 0 <= j < |parts[1..]| && parts[1..][j] == r[k];
          assert parts[j + 1] == r[k];
        }
      }
    }
  }

  /** The filter leaves nothing exactly when no piece has a word character. */
  lemma {:induction false} KeepWordyEmpty(parts: seq<string>)
    ensures KeepWordy(parts) == [] <==> forall k :: 0 <= k < |parts| ==> !HasWordChar(parts[k])
    decreases |parts|
  {
    if parts != [] {
      KeepWordyEmpty(parts[1..]);
      assert forall k :: 1 <= k < |parts| ==> parts[k] == parts[1..][k - 1];
    }
  }

  /** Split on `.`, trim each piece, keep the pieces that contain a word character
      anywhere. */
  function DotSegments(r: string): seq<string> {
    KeepWordy(TrimAll(Split(r, '.')))
  }

  /** The segments `compilePath` keeps: brackets rewritten to dots, then the pieces. */
  function Segments(s: string): seq<string> {
    DotSegments(Rewrite(s))
  }

  /** Trimming pieces that are already trimmed changes nothing. */
  lemma TrimAllFixed(parts: seq<string>)
    requires forall k :: 0 <= k < |parts| ==> Trim(parts[k]) == parts[k]
    ensures TrimAll(parts) == parts
  {
  }

  /** The segments of a path are those of its rewritten text. */
  lemma SegmentsVia(s: string, r: string, keys: seq<string>)
    requires Rewrite(s) == r && DotSegments(r) == keys
    ensures Segments(s) == keys
  {
  }

  /** No kept segment contains a dot: the text was split on dots. */
  lemma SegmentsWithoutDot(s: string)
    ensures forall k :: 0 <= k < |Segments(s)| ==> '.' !in Segments(s)[k]
  {
    var parts := Split(Rewrite(s), '.');
    var trimmed := TrimAll(parts);
    var keys := KeepWordy(trimmed);
    assert keys == Segments(s);
    KeepWordyFrom(trimmed);
    forall k | 0 <= k < |keys| ensures '.' !in keys[k] {
      assert keys[k] in trimmed;
      var j :| 0 <= j < |trimmed| && trimmed[j] == keys[k];
      assert '.' !in parts[j];
      TrimChars(parts[j]);
    }
  }

  /** `compilePath(s)`: throws `Invalid path: '<s>'` when no segment is left. */
  function CompilePath(s: string): (r: Result<Path>)
    ensures r.Success? ==> ValidPath(r.value) && r.value.keys == Segments(s)
    ensures r.Failure? ==> r.error == "Invalid path: '" + s + "'"
    ensures r.Success? <==> Segments(s) != []
  {
    var keys := Segments(s);
    SegmentsWithoutDot(s);
    if |keys| == 0 then Failure("Invalid path: '" + s + "'")
    else Success(Path(keys))
  }

  // ---------------------------------------------------------------- resolving

  function ElementAt(a: seq<Value>, i: int): Value {
    if 0 <= i < |a| then a[i] else Undef
  }

  /** The default `get` of lib/core.js: on an array, a segment that `parseInt` reads as
      an integer indexes it, counting from the end when negative; anything else is a
      property lookup. */
  function Get(v: Value, key: string): (r: Value)
    requires !IsNullish(v)
    ensures !v.Arr? ==> r == Prop(v, key)
  {
    if v.Arr? && ParseInt(key).Some? then
      var i := ParseInt(key).value;
      ElementAt(v.items, if i < 0 then i + |v.items| else i)
    else Prop(v, key)
  }

  /** What a compiled resolver returns: each segment is applied in turn, and the first
      `null`/`undefined` reached is returned as it is. */
  function Walk(keys: seq<string>, v: Value): Value
    decreases |keys|
  {
    if keys == [] || IsNullish(v) then v else Walk(keys[1..], Get(v, keys[0]))
  }

  /** `resolvePath(obj)`: the single-segment resolver and the looping one. */
  method ResolvePath(p: Path, obj: Value) returns (r: Value)
    requires p.keys != []
    ensures r == Walk(p.keys, obj)
  {
    if |p.keys| == 1 {
      if IsNullish(obj) {
        return obj;
      }
      return Get(obj, p.keys[0]);
    }
    r := obj;
    var i := 0;
    while i < |p.keys|
      invariant 0 <= i <= |p.keys|
      invariant Walk(p.keys, obj) == Walk(p.keys[i..], r)
    {
      if IsNullish(r) {
        return;
      }
      assert p.keys[i..][1..] == p.keys[i + 1..];
      r := Get(r, p.keys[i]);
      i := i + 1;
    }
  }

  /** `evaluatePath(obj, path)`. */
  function EvaluatePath(obj: Value, path: string): (r: Result<Value>)
    ensures r.Failure? <==> !HasWordChar(path)
  {
    InvalidPathIffNoWordChar(path);
    match CompilePath(path)
    case Success(p) => Success(Walk(p.keys, obj))
    case Failure(e) => Failure(e)
  }

  // ---------------------------------------------------------------- properties

  /** The word characters of a woven text are those of its pieces. */
  lemma {:induction false} WeaveWordChars(lits: seq<string>, vs: seq<string>, ws: seq<string>)
    requires |lits| == |vs| + 1 && |vs| == |ws|
    requires forall k :: 0 <= k < |vs| ==> (HasWordChar(vs[k]) <==> HasWordChar(ws[k]))
    ensures HasWordChar(Weave(lits, vs)) <==> HasWordChar(Weave(lits, ws))
    decreases |vs|
  {
    if vs != [] {
      var n := |vs| - 1;
      WeaveWordChars(lits[..n + 1], vs[..n], ws[..n]);
      HasWordCharConcat(Weave(lits[..n + 1], vs[..n]) + vs[n], lits[n + 1]);
      HasWordCharConcat(Weave(lits[..n + 1], vs[..n]), vs[n]);
      HasWordCharConcat(Weave(lits[..n + 1], ws[..n]) + ws[n], lits[n + 1]);
      HasWordCharConcat(Weave(lits[..n + 1], ws[..n]), ws[n]);
    }
  }

  /** Rewriting brackets to dots neither adds nor removes a word character. */
  lemma RewriteKeepsWordChars(s: string)
    ensures HasWordChar(Rewrite(s)) <==> HasWordChar(s)
  {
    var p := Scan(s, '[', ']');
    var ws := Wrap(p.inners, '[', ']');
    forall k | 0 <= k < |p.inners|
      ensures HasWordChar(Dotted(p.inners)[k]) <==> HasWordChar(ws[k])
    {
      HasWordCharConcat(".", p.inners[k]);
      HasWordCharConcat("[" + p.inners[k], "]");
      HasWordCharConcat("[", p.inners[k]);
      assert !HasWordChar(".") && !HasWordChar("[") && !HasWordChar("]");
    }
    WeaveWordChars(p.literals, Dotted(p.inners), ws);
    ScanRoundTrip(s, '[', ']');
  }

  /** `compilePath` throws "Invalid path" exactly when the path text holds no word
      character at all: brackets, dots, trimming and the filter only ever drop text
      that has none. */
  lemma InvalidPathIffNoWordChar(s: string)
    ensures CompilePath(s).Failure? <==> !HasWordChar(s)
  {
    var parts := Split(Rewrite(s), '.');
    var trimmed := TrimAll(parts);
    RewriteKeepsWordChars(s);
    KeepWordyEmpty(trimmed);
    SplitJoin(Rewrite(s), '.');
    JoinHasWordChar(parts, '.');
    forall k | 0 <= k < |parts| ensures HasWordChar(trimmed[k]) <==> HasWordChar(parts[k]) {
      TrimKeepsWordChars(parts[k]);
    }
  }

  /** How the scan splits `a[b]c`: `a` is the first literal and `b` the first group. */
  lemma ScanBracket(a: string, b: string, c: string)
    requires '[' !in a && b != [] && '[' !in b && ']' !in b
    requires forall i :: 0 <= i < |b| ==> !IsLineTerminator(b[i])
    ensures Scan(a + "[" + b + "]" + c, '[', ']').literals == [a] + Scan(c, '[', ']').literals
    ensures Scan(a + "[" + b + "]" + c, '[', ']').inners == [b] + Scan(c, '[', ']').inners
  {
    ScanDelimited(a, b, c, '[', ']');
    DelimitedAssoc(a, '[', b, ']', c);
  }

  /** A bracketed group rewrites to a dot followed by the group: `a[b]c` becomes
      `a.b` followed by the rewrite of `c`, when `a` has no bracket and `b` is a
      non-empty group without brackets or line terminators. */
  lemma RewriteBracket(a: string, b: string, c: string)
    requires '[' !in a && b != [] && '[' !in b && ']' !in b
    requires forall i :: 0 <= i < |b| ==> !IsLineTerminator(b[i])
    ensures Rewrite(a + "[" + b + "]" + c) == a + "." + b + Rewrite(c)
  {
    var sc := Scan(c, '[', ']');
    var dotted := Dotted(sc.inners);
    ScanBracket(a, b, c);
    DottedCons(b, sc.inners);
    WeaveCons(a, sc.literals, "." + b, dotted);
    ConcatAssoc(a, ".", b, Weave(sc.literals, dotted));
  }

  lemma DottedCons(g: string, inners: seq<string>)
    ensures Dotted([g] + inners) == ["." + g] + Dotted(inners)
  {
    var l, r := Dotted([g] + inners), ["." + g] + Dotted(inners);
    assert |l| == |r|;
    forall k | 0 <= k < |l| ensures l[k] == r[k] {
      if k > 0 {
        assert ([g] + inners)[k] == inners[k - 1];
      }
    }
  }

  /** Text before the first bracket is kept as it is. */
  lemma RewritePlain(d: string, c: string)
    requires '[' !in d
    ensures Rewrite(d + c) == d + Rewrite(c)
  {
    var sc := Scan(c, '[', ']');
    ScanConcatPlain(d, c, '[', ']');
    WeavePrefixFirst(d, sc.literals, Dotted(sc.inners));
  }

  /** Bracket and dot forms rewrite to the same text, hence give the same segments. */
  lemma BracketIsDot(a: string, b: string, c: string)
    requires '[' !in a && b != [] && '[' !in b && ']' !in b
    requires forall i :: 0 <= i < |b| ==> !IsLineTerminator(b[i])
    ensures Segments(a + "[" + b + "]" + c) == Segments(a + "." + b + c)
  {
    RewriteBracket(a, b, c);
    RewritePlain(a + "." + b, c);
    assert a + "." + b + c == (a + "." + b) + c;
  }

  /** Text without a bracket is not rewritten. */
  lemma RewriteWithoutBracket(s: string)
    requires '[' !in s
    ensures Rewrite(s) == s
  {
    ScanWithoutOpen(s, '[', ']');
  }

  /** The resolver returns the first `null`/`undefined` it meets, unchanged. */
  lemma {:induction false} WalkStopsAtNullish(keys: seq<string>, v: Value, k: nat)
    requires k <= |keys| && IsNullish(Walk(keys[..k], v))
    ensures Walk(keys, v) == Walk(keys[..k], v)
    decreases k
  {
    var prefix := keys[..k];
    if k == 0 {
      assert prefix == [];
      WalkFromNullish(keys, v);
    } else if IsNullish(v) {
      WalkFromNullish(keys, v);
      WalkFromNullish(prefix, v);
    } else {
      var w := Get(v, keys[0]);
      assert prefix[0] == keys[0] && prefix[1..] == keys[1..][..k - 1];
      WalkStep(prefix, v);
      WalkStep(keys, v);
      WalkStopsAtNullish(keys[1..], w, k - 1);
    }
  }

  /** One step of the resolver on a value that is neither `null` nor `undefined`. */
  lemma WalkStep(keys: seq<string>, v: Value)
    requires keys != [] && !IsNullish(v)
    ensures Walk(keys, v) == Walk(keys[1..], Get(v, keys[0]))
  {
  }

  lemma WalkFromNullish(keys: seq<string>, v: Value)
    requires IsNullish(v)
    ensures Walk(keys, v) == v
  {
  }

  /** Walking a concatenation walks the first part, then the second from there. */
  lemma {:induction false} WalkAppend(a: seq<string>, b: seq<string>, v: Value)
    ensures Walk(a + b, v) == Walk(b, Walk(a, v))
    decreases |a|
  {
    if a == [] {
      assert a + b == b;
    } else if IsNullish(v) {
      WalkFromNullish(b, v);
    } else {
      assert (a + b)[1..] == a[1..] + b;
      WalkAppend(a[1..], b, Get(v, a[0]));
    }
  }

  /** On an array, the decimal text of an integer `i` is an index: `a[i]` when
      `i >= 0`, `a[length + i]` when `i < 0`, `undefined` out of range. */
  lemma GetArrayIndex(a: seq<Value>, i: int)
    ensures i >= 0 ==> Get(Arr(a), IntToString(i)) == if i < |a| then a[i] else Undef
    ensures i < 0 ==> Get(Arr(a), IntToString(i)) == if -i <= |a| then a[|a| + i] else Undef
  {
    ParseIntOfIntToString(i);
  }

}
