/** Worked consequences of the path language for the shapes that occur in the
    scraper: a leading index followed by a property, a property followed by an index,
    and the two logging placeholders `{[1].username}` and `{[-1].length}`. */
module PathExamples {
  import opened Common
  import opened Text
  import opened Json
  import opened Paths

  lemma NoWordCharIn(s: string)
    requires s == "" || s == "." || s == "[ ]"
    ensures !HasWordChar(s)
  {
    assert forall i :: 0 <= i < |s| ==> s[i] in {'.', '[', ' ', ']'};
  }

  /** Paths with no word character are rejected: the empty path, a lone dot and a
      bracket around a blank. */
  lemma BlankPathsAreInvalid(s: string)
    requires s == "" || s == "." || s == "[ ]"
    ensures CompilePath(s).Failure?
  {
    NoWordCharIn(s);
    InvalidPathIffNoWordChar(s);
  }

  lemma RewriteBracketThenName(b: string, n: string)
    requires b != [] && '[' !in b && ']' !in b
    requires forall i :: 0 <= i < |b| ==> !IsLineTerminator(b[i])
    requires '[' !in n
    ensures Rewrite("[" + b + "]." + n) == "." + b + "." + n
  {
    RewriteBracket([], b, "." + n);
    BracketThenNameText(b, n);
    RewritePlain(".", n);
    RewriteWithoutBracket(n);
    DotsText(b, n);
  }

  lemma BracketThenNameText(b: string, n: string)
    ensures [] + "[" + b + "]" + ("." + n) == "[" + b + "]." + n
  {
  }

  lemma DotsText(b: string, n: string)
    ensures [] + "." + b + ("." + n) == "." + b + "." + n
  {
  }

  lemma JoinTwo(x: string, y: string)
    ensures Join([x, y], '.') == x + "." + y
  {
    assert [x, y][1..] == [y];
  }

  lemma JoinThree(x: string, y: string, z: string)
    ensures Join([x, y, z], '.') == x + "." + y + "." + z
  {
    assert [x, y, z][1..] == [y, z];
    JoinTwo(y, z);
  }

  lemma KeepWordyTwo(x: string, y: string)
    requires HasWordChar(x) && HasWordChar(y)
    ensures KeepWordy([x, y]) == [x, y]
  {
    assert [x, y][1..] == [y] && [y][1..] == [];
    assert KeepWordy([y]) == [y] + KeepWordy([]);
    assert KeepWordy([x, y]) == [x] + KeepWordy([y]);
  }

  lemma KeepWordyDropsEmpty(x: string, y: string)
    requires HasWordChar(x) && HasWordChar(y)
    ensures KeepWordy([[], x, y]) == [x, y]
  {
    var parts := [[], x, y];
    assert !HasWordChar(parts[0]);
    assert parts[1..] == [x, y];
    assert KeepWordy(parts) == KeepWordy([x, y]);
    KeepWordyTwo(x, y);
  }

  lemma SplitDottedPair(b: string, n: string)
    requires '.' !in b && '.' !in n
    ensures Split("." + b + "." + n, '.') == [[], b, n]
  {
    JoinThree([], b, n);
    assert [] + "." + b + "." + n == "." + b + "." + n;
    JoinSplit([[], b, n], '.');
  }

  lemma SplitPair(a: string, i: string)
    requires '.' !in a && '.' !in i
    ensures Split(a + "." + i, '.') == [a, i]
  {
    JoinTwo(a, i);
    JoinSplit([a, i], '.');
  }

  lemma KeepTrimmedDropsEmpty(b: string, n: string)
    requires HasWordChar(b) && HasWordChar(n) && Trim(b) == b && Trim(n) == n
    ensures KeepWordy(TrimAll([[], b, n])) == [b, n]
  {
    var parts := [[], b, n];
    TrimUnspaced([]);
    TrimAllFixed(parts);
    KeepWordyDropsEmpty(b, n);
  }

  /** `.b.n` is the two pieces `b` and `n`: the empty piece before the first dot
      has no word character. */
  lemma DottedPairSegments(b: string, n: string)
    requires '.' !in b && '.' !in n
    requires HasWordChar(b) && HasWordChar(n) && Trim(b) == b && Trim(n) == n
    ensures DotSegments("." + b + "." + n) == [b, n]
  {
    SplitDottedPair(b, n);
    KeepTrimmedDropsEmpty(b, n);
  }

  /** A plain segment: word characters and minus signs only, such as `username`,
      `0` or `-1`. */
  predicate Plain(x: string) {
    forall i :: 0 <= i < |x| ==> IsWordChar(x[i]) || x[i] == '-'
  }

  lemma PlainFacts(x: string)
    requires Plain(x)
    ensures '[' !in x && ']' !in x && '.' !in x
    ensures forall i :: 0 <= i < |x| ==> !IsLineTerminator(x[i])
    ensures Trim(x) == x
  {
    if x != [] {
      assert IsWordChar(x[0]) || x[0] == '-';
      assert IsWordChar(x[|x| - 1]) || x[|x| - 1] == '-';
    }
    TrimUnspaced(x);
  }

  /** A leading bracket followed by one property, `[b].n`, is the two segments `b` and
      `n`: the empty piece in front of the first dot is dropped. */
  lemma BracketThenName(b: string, n: string)
    requires Plain(b) && Plain(n) && HasWordChar(b) && HasWordChar(n)
    ensures Segments("[" + b + "]." + n) == [b, n]
  {
    PlainFacts(b);
    PlainFacts(n);
    RewriteBracketThenName(b, n);
    DottedPairSegments(b, n);
    SegmentsVia("[" + b + "]." + n, "." + b + "." + n, [b, n]);
  }

  lemma RewriteNameThenBracket(a: string, i: string)
    requires i != [] && '[' !in i && ']' !in i
    requires forall k :: 0 <= k < |i| ==> !IsLineTerminator(i[k])
    requires '[' !in a
    ensures Rewrite(a + "[" + i + "]") == a + "." + i
  {
    RewriteBracket(a, i, []);
    assert a + "[" + i + "]" + [] == a + "[" + i + "]";
    RewriteWithoutBracket([]);
  }

  lemma DotPairSegments(a: string, i: string)
    requires '.' !in a && '.' !in i
    requires HasWordChar(a) && HasWordChar(i) && Trim(a) == a && Trim(i) == i
    ensures DotSegments(a + "." + i) == [a, i]
  {
    SplitPair(a, i);
    TrimAllFixed([a, i]);
    KeepWordyTwo(a, i);
  }

  /** `a[i]`, a property followed by one bracketed index, is the segments `a` and `i`,
      the same as `a.i`. */
  lemma NameThenBracket(a: string, i: string)
    requires Plain(a) && Plain(i) && HasWordChar(a) && HasWordChar(i)
    ensures Segments(a + "[" + i + "]") == [a, i]
  {
    PlainFacts(a);
    PlainFacts(i);
    RewriteNameThenBracket(a, i);
    DotPairSegments(a, i);
    SegmentsVia(a + "[" + i + "]", a + "." + i, [a, i]);
  }

  lemma SignInPieces(b: string, n: string)
    requires b == "1" && n == "username"
    ensures Plain(b) && Plain(n) && HasWordChar(b) && HasWordChar(n)
  {
    assert IsWordChar(b[0]) && IsWordChar(n[0]);
  }

  /** `{[1].username}` in the sign-in message reads segments `1` and `username`. */
  lemma SignInPathSegments(s: string)
    requires s == "[1].username"
    ensures Segments(s) == ["1", "username"]
  {
    var b, n := "1", "username";
    SignInPieces(b, n);
    assert "[" + b + "]." + n == s;
    BracketThenName(b, n);
  }

  lemma UpdatePieces(b: string, n: string)
    requires b == "-1" && n == "length"
    ensures Plain(b) && Plain(n) && HasWordChar(b) && HasWordChar(n)
  {
    assert IsWordChar(b[1]) && IsWordChar(n[0]);
  }

  /** `{[-1].length}` in the update message reads segments `-1` and `length`: the
      unanchored filter keeps `-1`. */
  lemma UpdatePathSegments(s: string)
    requires s == "[-1].length"
    ensures Segments(s) == ["-1", "length"]
  {
    var b, n := "-1", "length";
    UpdatePieces(b, n);
    assert "[" + b + "]." + n == s;
    BracketThenName(b, n);
  }

  lemma IndexPieces(a: string, i: string)
    requires a == "items" && i == "0"
    ensures Plain(a) && Plain(i) && HasWordChar(a) && HasWordChar(i)
  {
    assert IsWordChar(a[0]) && IsWordChar(i[0]);
  }

  /** `items[0]` is the segments `items` and `0`, as `items.0` is. */
  lemma IndexPathSegments(s: string)
    requires s == "items[0]"
    ensures Segments(s) == ["items", "0"]
  {
    var a, i := "items", "0";
    IndexPieces(a, i);
    assert a + "[" + i + "]" == s;
    NameThenBracket(a, i);
  }

  /** Two segments applied to a value whose first step is neither `null` nor
      `undefined`. */
  lemma WalkTwo(k1: string, k2: string, v: Value)
    requires !IsNullish(v) && !IsNullish(Get(v, k1))
    ensures Walk([k1, k2], v) == Get(Get(v, k1), k2)
  {
    var w := Get(v, k1);
    assert [k1, k2][1..] == [k2];
    assert Walk([k1, k2], v) == Walk([k2], w);
    assert [k2][1..] == [];
    assert Walk([k2], w) == Walk([], Get(w, k2));
  }

  /** Segment `-1` on an array is its last element. */
  lemma MinusOneIsLast(a: seq<Value>)
    requires a != []
    ensures Get(Arr(a), "-1") == a[|a| - 1]
  {
    GetArrayIndex(a, -1);
    assert IntToString(-1) == "-1";
  }

  /** Segment `length` on an array is its length: `parseInt` reads no index in it. */
  lemma LengthOfArray(a: seq<Value>)
    ensures Get(Arr(a), "length") == Num(|a|)
  {
    ParseIntOfName("length");
  }

  /** The update message's `{[-1].length}` reads the length of the last argument. */
  lemma LastLength(args: seq<Value>, last: seq<Value>)
    ensures Walk(["-1", "length"], Arr(args + [Arr(last)])) == Num(|last|)
  {
    var a := args + [Arr(last)];
    MinusOneIsLast(a);
    LengthOfArray(last);
    WalkTwo("-1", "length", Arr(a));
  }
}
