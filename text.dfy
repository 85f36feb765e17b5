/** The pieces of JavaScript's string handling that the path and template
    languages rely on: the character classes of `\s`, `\w` and `.`, `trim`,
    `split` on one character, `Number.parseInt`, the decimal text of an integer,
    and the global lazy patterns `/\[(.+?)\]/g` and `/\{(.+?)\}/g`. */
module Text {
  import opened Common

  // ---------------------------------------------------------------- characters

  /** ECMAScript `LineTerminator`: the characters the pattern `.` does not match. */
  predicate IsLineTerminator(c: char) {
    c == '\n' || c == '\r' || c as int == 0x2028 || c as int == 0x2029
  }

  /** ECMAScript `WhiteSpace` or `LineTerminator`: what `trim()` removes and `\s` matches. */
  predicate IsSpace(c: char) {
    || c == '\t' || c as int == 0x0B || c as int == 0x0C || c == ' '
    || c as int == 0xA0 || c as int == 0x1680
    || (0x2000 <= c as int <= 0x200A)
    || c as int == 0x202F || c as int == 0x205F || c as int == 0x3000 || c as int == 0xFEFF
    || IsLineTerminator(c)
  }

  /** `\w` (no `u` flag): ASCII letters, digits and the underscore. */
  predicate IsWordChar(c: char) {
    ('a' <= c <= 'z') || ('A' <= c <= 'Z') || ('0' <= c <= '9') || c == '_'
  }

  /** `/\w+/.test(s)`: the pattern is not anchored, so one word character anywhere passes. */
  predicate HasWordChar(s: string) {
    exists i :: 0 <= i < |s| && IsWordChar(s[i])
  }

  predicate IsDecimalDigit(c: char) {
    '0' <= c <= '9'
  }

  lemma HasWordCharConcat(a: string, b: string)
    ensures HasWordChar(a + b) <==> HasWordChar(a) || HasWordChar(b)
  {
    if HasWordChar(a + b) {
      var i :| 0 <= i < |a + b| && IsWordChar((a + b)[i]);
      if i >= |a| {
        assert b[i - |a|] == (a + b)[i];
      }
    }
    if HasWordChar(b) {
      var i :| 0 <= i < |b| && IsWordChar(b[i]);
      assert (a + b)[|a| + i] == b[i];
    }
    if HasWordChar(a) {
      var i :| 0 <= i < |a| && IsWordChar(a[i]);
      assert (a + b)[i] == a[i];
    }
  }

  // ---------------------------------------------------------------- trim

  /** `trimStart`: drops the leading white space; what is left starts with none. */
  function TrimStart(s: string): (r: string)
    ensures |r| <= |s|
    ensures r == [] || !IsSpace(r[0])
    decreases |s|
  {
    if s != [] && IsSpace(s[0]) then TrimStart(s[1..]) else s
  }

  /** `trimEnd`: drops the trailing white space; what is left ends with none. */
  function TrimEnd(s: string): (r: string)
    ensures |r| <= |s|
    ensures r == [] || !IsSpace(r[|r| - 1])
    decreases |s|
  {
    if s != [] && IsSpace(s[|s| - 1]) then TrimEnd(s[..|s| - 1]) else s
  }

  /** `trimStart` keeps a suffix of the text. */
  lemma {:induction false} TrimStartSuffix(s: string)
    ensures TrimStart(s) == s[|s| - |TrimStart(s)|..]
    decreases |s|
  {
    if s != [] && IsSpace(s[0]) {
      TrimStartSuffix(s[1..]);
      assert s[1..][|s| - 1 - |TrimStart(s)|..] == s[|s| - |TrimStart(s)|..];
    }
  }

  /** `trimEnd` keeps a prefix of the text. */
  lemma {:induction false} TrimEndPrefix(s: string)
    ensures TrimEnd(s) == s[..|TrimEnd(s)|]
    decreases |s|
  {
    if s != [] && IsSpace(s[|s| - 1]) {
      TrimEndPrefix(s[..|s| - 1]);
      assert s[..|s| - 1][..|TrimEnd(s)|] == s[..|TrimEnd(s)|];
    }
  }

  /** Everything `trimStart` drops is white space. */
  lemma {:induction false} TrimStartDropsSpaces(s: string)
    ensures forall i :: 0 <= i < |s| - |TrimStart(s)| ==> IsSpace(s[i])
    decreases |s|
  {
    if s != [] && IsSpace(s[0]) {
      TrimStartDropsSpaces(s[1..]);
      assert forall i :: 1 <= i < |s| ==> s[i] == s[1..][i - 1];
    }
  }

  /** Everything `trimEnd` drops is white space. */
  lemma {:induction false} TrimEndDropsSpaces(s: string)
    ensures forall i :: |TrimEnd(s)| <= i < |s| ==> IsSpace(s[i])
    decreases |s|
  {
    if s != [] && IsSpace(s[|s| - 1]) {
      TrimEndDropsSpaces(s[..|s| - 1]);
      assert forall i :: 0 <= i < |s| - 1 ==> s[i] == s[..|s| - 1][i];
    }
  }

  /** `String.prototype.trim`. */
  function Trim(s: string): string {
    TrimEnd(TrimStart(s))
  }

  /** Text that neither starts nor ends with white space is its own trim. */
  lemma TrimUnspaced(s: string)
    requires s == [] || (!IsSpace(s[0]) && !IsSpace(s[|s| - 1]))
    ensures Trim(s) == s
  {
  }

  /** Every character of the trimmed text comes from the original. */
  lemma TrimChars(s: string)
    ensures forall i :: 0 <= i < |Trim(s)| ==> Trim(s)[i] in s
  {
    var t := TrimStart(s);
    TrimStartSuffix(s);
    TrimEndPrefix(t);
    forall i | 0 <= i < |Trim(s)| ensures Trim(s)[i] in s {
      assert Trim(s)[i] == t[i] == s[|s| - |t| + i];
    }
  }

  lemma WordCharIsNotSpace(c: char)
    requires IsWordChar(c)
    ensures !IsSpace(c)
  {
  }

  lemma TrimStartKeepsWordChars(s: string)
    ensures HasWordChar(TrimStart(s)) <==> HasWordChar(s)
  {
    var t := TrimStart(s);
    var a := |s| - |t|;
    TrimStartSuffix(s);
    if HasWordChar(t) {
      var i :| 0 <= i < |t| && IsWordChar(t[i]);
      assert s[a + i] == t[i];
    }
    if HasWordChar(s) {
      var i :| 0 <= i < |s| && IsWordChar(s[i]);
      WordCharIsNotSpace(s[i]);
      TrimStartDropsSpaces(s);
      assert a <= i;
      assert t[i - a] == s[i];
    }
  }

  lemma TrimEndKeepsWordChars(s: string)
    ensures HasWordChar(TrimEnd(s)) <==> HasWordChar(s)
  {
    var t := TrimEnd(s);
    TrimEndPrefix(s);
    if HasWordChar(t) {
      var i :| 0 <= i < |t| && IsWordChar(t[i]);
      assert s[i] == t[i];
    }
    if HasWordChar(s) {
      var i :| 0 <= i < |s| && IsWordChar(s[i]);
      WordCharIsNotSpace(s[i]);
      TrimEndDropsSpaces(s);
      assert i < |t|;
      assert t[i] == s[i];
    }
  }

  /** Trimming removes only white space, so it never removes a word character. */
  lemma TrimKeepsWordChars(s: string)
    ensures HasWordChar(Trim(s)) <==> HasWordChar(s)
  {
    TrimStartKeepsWordChars(s);
    TrimEndKeepsWordChars(TrimStart(s));
  }

  // ---------------------------------------------------------------- split

  function IndexOf(s: string, c: char): (i: nat)
    requires c in s
    ensures i < |s| && s[i] == c && c !in s[..i]
  {
    if s[0] == c then 0
    else
      var j := IndexOf(s[1..], c);
      assert s[..j + 1] == [s[0]] + s[1..][..j];
      j + 1
  }

  /** `s.split(sep)` for a one-character separator: the maximal runs without `sep`. */
  function Split(s: string, sep: char): (parts: seq<string>)
    ensures |parts| >= 1
    ensures forall k :: 0 <= k < |parts| ==> sep !in parts[k]
    decreases |s|
  {
    if sep !in s then [s]
    else
      var i := IndexOf(s, sep);
      [s[..i]] + Split(s[i + 1..], sep)
  }

  /** `parts.join(sep)`. */
  function Join(parts: seq<string>, sep: char): string
    requires |parts| >= 1
    decreases |parts|
  {
    if |parts| == 1 then parts[0] else parts[0] + [sep] + Join(parts[1..], sep)
  }

  /** A non-empty list of parts is joined as its head, the separator and the join of the rest. */
  lemma JoinCons(p: string, rest: seq<string>, sep: char)
    requires |rest| >= 1
    ensures Join([p] + rest, sep) == p + [sep] + Join(rest, sep)
  {
    var parts := [p] + rest;
    assert parts[0] == p && parts[1..] == rest;
  }

  /** Splitting loses nothing: joining the parts back gives the original text. */
  lemma {:induction false} SplitJoin(s: string, sep: char)
    ensures Join(Split(s, sep), sep) == s
    decreases |s|
  {
    if sep in s {
      var i := IndexOf(s, sep);
      var head, tail := s[..i], s[i + 1..];
      var rest := Split(tail, sep);
      assert Split(s, sep) == [head] + rest;
      SplitJoin(tail, sep);
      JoinCons(head, rest, sep);
      assert s == head + [sep] + tail;
    }
  }

  /** The first separator in `p + [sep] + rest` is the one after `p`, when `p` has none. */
  lemma IndexOfAfter(p: string, sep: char, rest: string)
    requires sep !in p
    ensures sep in p + [sep] + rest
    ensures IndexOf(p + [sep] + rest, sep) == |p|
  {
    var s := p + [sep] + rest;
    assert s[|p|] == sep;
    assert s[..|p|] == p;
    var i := IndexOf(s, sep);
    assert i <= |p| ==> s[..i] == p[..i];
  }

  /** Splitting `p + [sep] + rest`, when `p` has no separator, gives `p` and the parts of `rest`. */
  lemma SplitCons(p: string, sep: char, rest: string)
    requires sep !in p
    ensures Split(p + [sep] + rest, sep) == [p] + Split(rest, sep)
  {
    var s := p + [sep] + rest;
    IndexOfAfter(p, sep, rest);
    assert s[..|p|] == p;
    assert s[|p| + 1..] == rest;
  }

  /** The converse: parts free of the separator are recovered from their join. */
  lemma {:induction false} JoinSplit(parts: seq<string>, sep: char)
    requires |parts| >= 1
    requires forall k :: 0 <= k < |parts| ==> sep !in parts[k]
    ensures Split(Join(parts, sep), sep) == parts
    decreases |parts|
  {
    if |parts| == 1 {
      assert sep !in parts[0];
    } else {
      var p, rest := parts[0], parts[1..];
      assert sep !in p;
      assert forall k :: 0 <= k < |rest| ==> sep !in rest[k] by {
        forall k | 0 <= k < |rest| ensures sep !in rest[k] {
          assert rest[k] == parts[k + 1];
        }
      }
      JoinSplit(rest, sep);
      assert [p] + rest == parts;
      JoinCons(p, rest, sep);
      SplitCons(p, sep, Join(rest, sep));
    }
  }

  /** A word character of a joined text sits in one of the parts. */
  lemma {:induction false} JoinHasWordChar(parts: seq<string>, sep: char)
    requires |parts| >= 1 && !IsWordChar(sep)
    ensures HasWordChar(Join(parts, sep)) <==> exists k :: 0 <= k < |parts| && HasWordChar(parts[k])
    decreases |parts|
  {
    if |parts| > 1 {
      JoinHasWordChar(parts[1..], sep);
      HasWordCharConcat(parts[0] + [sep], Join(parts[1..], sep));
      HasWordCharConcat(parts[0], [sep]);
      if exists k :: 0 <= k < |parts| - 1 && HasWordChar(parts[1..][k]) {
        var k :| 0 <= k < |parts| - 1 && HasWordChar(parts[1..][k]);
        assert HasWordChar(parts[k + 1]);
      }
      if exists k :: 0 <= k < |parts| && HasWordChar(parts[k]) {
        var k :| 0 <= k < |parts| && HasWordChar(parts[k]);
        if k > 0 {
          assert HasWordChar(parts[1..][k - 1]);
        }
      }
    }
  }

  // ---------------------------------------------------------------- case

  predicate IsAsciiUpper(c: char) {
    'A' <= c <= 'Z'
  }

  /** Two characters that are equal, or the same letter A-Z in the two cases. */
  predicate SameIgnoringAsciiCase(x: char, y: char) {
    || x == y
    || (IsAsciiUpper(x) && y as int == x as int + 32)
    || (IsAsciiUpper(y) && x as int == y as int + 32)
  }

  /** Two texts that differ at most in the case of ASCII letters. */
  predicate EqualIgnoringAsciiCase(a: string, b: string) {
    |a| == |b| && forall i :: 0 <= i < |a| ==> SameIgnoringAsciiCase(a[i], b[i])
  }

  function LowerChar(c: char): char {
    if IsAsciiUpper(c) then (c as int + 32) as char else c
  }

  /** `toLowerCase` on the letters A-Z: the result holds no capital letter and differs
      from the text at most in letter case. */
  function ToLowerAscii(s: string): (r: string)
    ensures |r| == |s|
    ensures forall i :: 0 <= i < |r| ==> !IsAsciiUpper(r[i])
    ensures EqualIgnoringAsciiCase(s, r)
  {
    seq(|s|, i requires 0 <= i < |s| => LowerChar(s[i]))
  }

  /** Lower-casing a lower-case text changes nothing, so lower-casing twice is
      lower-casing once. */
  lemma ToLowerAsciiIdempotent(s: string)
    ensures (forall i :: 0 <= i < |s| ==> !IsAsciiUpper(s[i])) ==> ToLowerAscii(s) == s
    ensures ToLowerAscii(ToLowerAscii(s)) == ToLowerAscii(s)
  {
  }

  /** Two texts lower-case to the same text exactly when they differ at most in the
      case of ASCII letters. */
  lemma ToLowerAsciiEqualIff(a: string, b: string)
    ensures ToLowerAscii(a) == ToLowerAscii(b) <==> EqualIgnoringAsciiCase(a, b)
  {
    if EqualIgnoringAsciiCase(a, b) {
      forall i | 0 <= i < |a| ensures ToLowerAscii(a)[i] == ToLowerAscii(b)[i] {
        assert LowerChar(a[i]) == LowerChar(b[i]);
      }
    }
    if ToLowerAscii(a) == ToLowerAscii(b) {
      forall i | 0 <= i < |a| ensures SameIgnoringAsciiCase(a[i], b[i]) {
        assert LowerChar(a[i]) == ToLowerAscii(a)[i] == ToLowerAscii(b)[i] == LowerChar(b[i]);
      }
    }
  }

  // ---------------------------------------------------------------- numbers

  function DigitChar(d: nat): (c: char)
    requires d < 10
    ensures IsDecimalDigit(c)
  {
    ('0' as int + d) as char
  }

  /** Decimal text of a natural number, without leading zeros. */
  function NatToString(n: nat): (s: string)
    ensures |s| >= 1
    ensures forall i :: 0 <= i < |s| ==> IsDecimalDigit(s[i])
    decreases n
  {
    if n < 10 then [DigitChar(n)] else NatToString(n / 10) + [DigitChar(n % 10)]
  }

  /** `String(n)` for an integer `n`. */
  function IntToString(n: int): string {
    if n < 0 then "-" + NatToString(-n) else NatToString(n)
  }

  /** The two bases `parseInt` reads without an explicit radix. */
  type Radix = r: nat | r == 10 || r == 16 witness 10

  /** The value of `c` as a digit in base `radix`. */
  function DigitValue(c: char, radix: Radix): Option<nat> {
    if '0' <= c <= '9' && (c as int - '0' as int) < radix then Some(c as int - '0' as int)
    else if radix == 16 && 'a' <= c <= 'f' then Some(c as int - 'a' as int + 10)
    else if radix == 16 && 'A' <= c <= 'F' then Some(c as int - 'A' as int + 10)
    else None
  }

  /** Length of the longest prefix of `s` made of digits of `radix`. */
  function DigitPrefixLength(s: string, radix: Radix): (n: nat)
    ensures n <= |s|
    ensures forall i :: 0 <= i < n ==> DigitValue(s[i], radix).Some?
    ensures n < |s| ==> DigitValue(s[n], radix).None?
    decreases |s|
  {
    if s != [] && DigitValue(s[0], radix).Some? then 1 + DigitPrefixLength(s[1..], radix) else 0
  }

  /** The number written by the digits `ds` in base `radix`. */
  function DigitsValue(ds: string, radix: Radix): nat
    requires forall i :: 0 <= i < |ds| ==> DigitValue(ds[i], radix).Some?
    decreases |ds|
  {
    if ds == [] then 0
    else
      var high := DigitsValue(ds[..|ds| - 1], radix);
      (if radix == 16 then 16 * high else 10 * high) + DigitValue(ds[|ds| - 1], radix).value
  }

  /** The value of the longest run of `radix` digits at the start of `s`, if any. */
  function DigitRun(s: string, radix: Radix): Option<nat> {
    var n := DigitPrefixLength(s, radix);
    if n == 0 then None else Some(DigitsValue(s[..n], radix))
  }

  /** The number after the sign: an `0x`/`0X` prefix selects base 16. */
  function Unsigned(u: string): Option<nat> {
    var hex := |u| >= 2 && u[0] == '0' && (u[1] == 'x' || u[1] == 'X');
    DigitRun(if hex then u[2..] else u, if hex then 16 else 10)
  }

  /** `Number.parseInt(s)` with no radix: leading white space, an optional sign, an
      optional `0x`/`0X` prefix that selects base 16, then the longest run of digits;
      `None` stands for `NaN` (no digit at all). Trailing text is ignored. */
  function ParseInt(s: string): Option<int> {
    var t := TrimStart(s);
    var negative := t != [] && t[0] == '-';
    var signed := t != [] && (t[0] == '-' || t[0] == '+');
    match Unsigned(if signed then t[1..] else t)
    case Some(m) => Some(if negative then -(m as int) else m)
    case None => None
  }

  lemma {:induction false} NatToStringValue(n: nat)
    ensures forall i :: 0 <= i < |NatToString(n)| ==> DigitValue(NatToString(n)[i], 10).Some?
    ensures DigitsValue(NatToString(n), 10) == n
    decreases n
  {
    if n >= 10 {
      NatToStringValue(n / 10);
      var s := NatToString(n);
      assert s[..|s| - 1] == NatToString(n / 10);
    }
  }

  /** Text starting with a letter or `_` reads as `NaN`. */
  lemma ParseIntOfName(s: string)
    requires s != [] && IsWordChar(s[0]) && !IsDecimalDigit(s[0])
    ensures ParseInt(s) == None
  {
    WordCharIsNotSpace(s[0]);
    assert TrimStart(s) == s;
  }

  lemma DecimalDigitsPrefix(s: string)
    requires forall i :: 0 <= i < |s| ==> DigitValue(s[i], 10).Some?
    ensures DigitPrefixLength(s, 10) == |s|
  {
  }

  /** Decimal digits are read in base 10 as a whole. */
  lemma UnsignedOfDigits(d: string)
    requires |d| >= 1 && forall i :: 0 <= i < |d| ==> DigitValue(d[i], 10).Some?
    ensures Unsigned(d) == Some(DigitsValue(d, 10))
  {
    assert !(|d| >= 2 && (d[1] == 'x' || d[1] == 'X'));
    DecimalDigitsPrefix(d);
    assert d[..|d|] == d;
  }

  /** The decimal text of `m` starts with a digit and is read back as `m`. */
  lemma UnsignedOfNatToString(m: nat)
    ensures NatToString(m) != [] && IsDecimalDigit(NatToString(m)[0])
    ensures Unsigned(NatToString(m)) == Some(m)
  {
    NatToStringValue(m);
    UnsignedOfDigits(NatToString(m));
  }

  lemma TrimStartUnspaced(s: string)
    requires s != [] && !IsSpace(s[0])
    ensures TrimStart(s) == s
  {
  }

  /** Text that starts with neither white space nor a sign is read as unsigned. */
  lemma ParseIntUnsigned(t: string, m: nat)
    requires t != [] && !IsSpace(t[0]) && t[0] != '-' && t[0] != '+'
    requires Unsigned(t) == Some(m)
    ensures ParseInt(t) == Some(m)
  {
    TrimStartUnspaced(t);
  }

  /** A minus sign negates what the rest reads as unsigned. */
  lemma ParseIntNegated(t: string, u: string, m: nat)
    requires t != [] && t[0] == '-' && t[1..] == u
    requires Unsigned(u) == Some(m)
    ensures ParseInt(t) == Some(-(m as int))
  {
    TrimStartUnspaced(t);
    assert Unsigned(t[1..]) == Some(m);
  }

  /** `parseInt` reads back the decimal text of every integer. */
  lemma ParseIntOfIntToString(n: int)
    ensures ParseInt(IntToString(n)) == Some(n)
  {
    var m: nat := if n < 0 then -n else n;
    var d := NatToString(m);
    UnsignedOfNatToString(m);
    if n < 0 {
      var s := "-" + d;
      assert s[1..] == d;
      ParseIntNegated(s, d, m);
    } else {
      ParseIntUnsigned(d, m);
    }
  }

  // ---------------------------------------------------------------- delimited placeholders

  /** Search from index `k` for the end of the lazy group `(.+?)` followed by `close`:
      the first `close`, provided no line terminator comes before it. */
  function LazyClose(s: string, k: nat, close: char): (r: Option<nat>)
    ensures r.Some? ==> k <= r.value < |s| && s[r.value] == close
    ensures r.Some? ==> forall i :: k <= i < r.value ==> s[i] != close && !IsLineTerminator(s[i])
    decreases |s| - k
  {
    if k >= |s| then None
    else if s[k] == close then Some(k)
    else if IsLineTerminator(s[k]) then None
    else LazyClose(s, k + 1, close)
  }

  /** When `s` starts with the opening delimiter: the index of the closing delimiter of
      `open(.+?)close` anchored at 0. The group takes at least one character, so the
      closing delimiter is looked for from index 2 on. */
  function MatchEnd(s: string, close: char): (r: Option<nat>)
    ensures r.Some? ==> 2 <= r.value < |s| && s[r.value] == close
    ensures r.Some? ==> !IsLineTerminator(s[1])
    ensures r.Some? ==> forall i :: 2 <= i < r.value ==> s[i] != close && !IsLineTerminator(s[i])
  {
    if |s| >= 2 && !IsLineTerminator(s[1]) then LazyClose(s, 2, close) else None
  }

  /** The literal text around the matches of a global pattern, and the captured groups. */
  datatype Pieces = Pieces(literals: seq<string>, inners: seq<string>)

  /** All non-overlapping matches of `/open(.+?)close/g` in `s`, left to right: the text
      before, between and after the matches, and the text each group captured. Where no
      match starts at a position the scan moves on by one character. */
  function Scan(s: string, open: char, close: char): (r: Pieces)
    ensures |r.literals| == |r.inners| + 1
    decreases |s|
  {
    if s == [] then Pieces([[]], [])
    else if s[0] == open && MatchEnd(s, close).Some? then
      var j := MatchEnd(s, close).value;
      var rest := Scan(s[j + 1..], open, close);
      Pieces([[]] + rest.literals, [s[1..j]] + rest.inners)
    else
      var rest := Scan(s[1..], open, close);
      Pieces([[s[0]] + rest.literals[0]] + rest.literals[1..], rest.inners)
  }

  /** `lits[0] + vals[0] + lits[1] + ... + vals[n-1] + lits[n]`. */
  function Weave(lits: seq<string>, vals: seq<string>): string
    requires |lits| == |vals| + 1
    decreases |vals|
  {
    if vals == [] then lits[0]
    else Weave(lits[..|lits| - 1], vals[..|vals| - 1]) + vals[|vals| - 1] + lits[|lits| - 1]
  }

  /** Each captured group put back between its delimiters. */
  function Wrap(inners: seq<string>, open: char, close: char): (r: seq<string>)
    ensures |r| == |inners|
  {
    seq(|inners|, i requires 0 <= i < |inners| => [open] + inners[i] + [close])
  }

  lemma SeqAssoc(p: string, q: string, x: string, y: string)
    ensures p + q + x + y == p + (q + x + y)
  {
  }

  lemma {:induction false} WeaveCons(a: string, lits: seq<string>, v: string, vals: seq<string>)
    requires |lits| == |vals| + 1
    ensures Weave([a] + lits, [v] + vals) == a + v + Weave(lits, vals)
    decreases |vals|
  {
    if vals != [] {
      var l := [a] + lits;
      var w := [v] + vals;
      var lits', vals' := lits[..|lits| - 1], vals[..|vals| - 1];
      var x, y := vals[|vals| - 1], lits[|lits| - 1];
      assert l[..|l| - 1] == [a] + lits';
      assert w[..|w| - 1] == [v] + vals';
      assert l[|l| - 1] == y && w[|w| - 1] == x;
      WeaveCons(a, lits', v, vals');
      assert Weave(l, w) == (a + v + Weave(lits', vals')) + x + y;
      assert Weave(lits, vals) == Weave(lits', vals') + x + y;
      SeqAssoc(a + v, Weave(lits', vals'), x, y);
    }
  }

  lemma {:induction false} WeavePrefixFirst(a: string, lits: seq<string>, vals: seq<string>)
    requires |lits| == |vals| + 1
    ensures Weave([a + lits[0]] + lits[1..], vals) == a + Weave(lits, vals)
    decreases |vals|
  {
    if vals != [] {
      var l := [a + lits[0]] + lits[1..];
      var lits', vals' := lits[..|lits| - 1], vals[..|vals| - 1];
      var x, y := vals[|vals| - 1], lits[|lits| - 1];
      assert l[..|l| - 1] == [a + lits'[0]] + lits'[1..];
      assert l[|l| - 1] == y;
      WeavePrefixFirst(a, lits', vals');
      assert Weave(l, vals) == (a + Weave(lits', vals')) + x + y;
      assert Weave(lits, vals) == Weave(lits', vals') + x + y;
      SeqAssoc(a, Weave(lits', vals'), x, y);
    }
  }

  /** Every captured group is non-empty and free of line terminators. */
  lemma {:induction false} ScanInners(s: string, open: char, close: char)
    ensures forall k :: 0 <= k < |Scan(s, open, close).inners| ==>
      Scan(s, open, close).inners[k] != [] &&
      forall i :: 0 <= i < |Scan(s, open, close).inners[k]| ==> !IsLineTerminator(Scan(s, open, close).inners[k][i])
    decreases |s|
  {
    if s != [] {
      if s[0] == open && MatchEnd(s, close).Some? {
        var j := MatchEnd(s, close).value;
        ScanInners(s[j + 1..], open, close);
      } else {
        ScanInners(s[1..], open, close);
      }
    }
  }

  /** Scanning loses nothing: the literals with every group put back between its
      delimiters give back the scanned text. */
  lemma {:induction false} ScanRoundTrip(s: string, open: char, close: char)
    ensures Weave(Scan(s, open, close).literals, Wrap(Scan(s, open, close).inners, open, close)) == s
    decreases |s|
  {
    if s != [] {
      if s[0] == open && MatchEnd(s, close).Some? {
        var j := MatchEnd(s, close).value;
        var tail := s[j + 1..];
        var rest := Scan(tail, open, close);
        ScanRoundTrip(tail, open, close);
        ScanMatchUnfold(s, open, close);
        SplitAtMatch(s, j, open, close);
        RoundTripMatchStep(s[1..j], tail, rest.literals, rest.inners, open, close);
      } else {
        var tail := s[1..];
        var rest := Scan(tail, open, close);
        ScanRoundTrip(tail, open, close);
        ScanPlainUnfold(s, open, close);
        RoundTripPlainStep(s, tail, rest.literals, rest.inners, open, close);
      }
    }
  }

  /** One match at the front: an empty literal, then the group, then the rest scanned. */
  lemma ScanMatchUnfold(s: string, open: char, close: char)
    requires s != [] && s[0] == open && MatchEnd(s, close).Some?
    ensures var j := MatchEnd(s, close).value; var rest := Scan(s[j + 1..], open, close);
      Scan(s, open, close) == Pieces([[]] + rest.literals, [s[1..j]] + rest.inners)
  {
  }

  /** No match at the front: the first character joins the first literal of the rest. */
  lemma ScanPlainUnfold(s: string, open: char, close: char)
    requires s != [] && !(s[0] == open && MatchEnd(s, close).Some?)
    ensures var rest := Scan(s[1..], open, close);
      Scan(s, open, close) == Pieces([[s[0]] + rest.literals[0]] + rest.literals[1..], rest.inners)
  {
  }

  /** A match in front of a text that the rest of the pieces rebuild. */
  lemma RoundTripMatchStep(g: string, tail: string, lits: seq<string>, inners: seq<string>,
                           open: char, close: char)
    requires |lits| == |inners| + 1
    requires Weave(lits, Wrap(inners, open, close)) == tail
    ensures Weave([[]] + lits, Wrap([g] + inners, open, close)) == [open] + g + [close] + tail
  {
    var m := [open] + g + [close];
    var wrapped := Wrap(inners, open, close);
    WrapCons(g, inners, open, close);
    WeaveCons([], lits, m, wrapped);
  }

  /** A character that starts no match, in front of a text that the pieces rebuild. */
  lemma RoundTripPlainStep(s: string, tail: string, lits: seq<string>, inners: seq<string>,
                           open: char, close: char)
    requires |lits| == |inners| + 1
    requires s != [] && tail == s[1..]
    requires Weave(lits, Wrap(inners, open, close)) == tail
    ensures Weave([[s[0]] + lits[0]] + lits[1..], Wrap(inners, open, close)) == s
  {
    WeavePrefixFirst([s[0]], lits, Wrap(inners, open, close));
    assert s == [s[0]] + tail;
  }

  lemma SplitAtMatch(s: string, j: nat, open: char, close: char)
    requires 1 <= j < |s| && s[0] == open && s[j] == close
    ensures s == [open] + s[1..j] + [close] + s[j + 1..]
  {
    assert s == [s[0]] + s[1..j] + [s[j]] + s[j + 1..];
  }

  lemma WrapCons(g: string, gs: seq<string>, open: char, close: char)
    ensures Wrap([g] + gs, open, close) == [[open] + g + [close]] + Wrap(gs, open, close)
  {
    var w := Wrap([g] + gs, open, close);
    var v := [[open] + g + [close]] + Wrap(gs, open, close);
    assert |w| == |v|;
    forall k | 0 <= k < |w| ensures w[k] == v[k] {
      if k > 0 {
        assert ([g] + gs)[k] == gs[k - 1];
      }
    }
  }

  /** Text without the opening delimiter has no match and is one literal. */
  lemma {:induction false} ScanWithoutOpen(s: string, open: char, close: char)
    requires open !in s
    ensures Scan(s, open, close) == Pieces([s], [])
    decreases |s|
  {
    if s != [] {
      ScanWithoutOpen(s[1..], open, close);
      assert [s[0]] + s[1..] == s;
    }
  }

  /** A prefix without the opening delimiter joins the first literal. */
  lemma {:induction false} ScanConcatPlain(a: string, b: string, open: char, close: char)
    requires open !in a
    ensures Scan(a + b, open, close) ==
      Pieces([a + Scan(b, open, close).literals[0]] + Scan(b, open, close).literals[1..],
             Scan(b, open, close).inners)
    decreases |a|
  {
    var sb := Scan(b, open, close);
    if a != [] {
      var s, tail := a + b, a[1..] + b;
      assert s[0] == a[0] && s[1..] == tail;
      ScanConcatPlain(a[1..], b, open, close);
      ScanPlainUnfold(s, open, close);
      PlainPrefixPieces(a, sb.literals);
    } else {
      assert a + b == b;
      assert a + sb.literals[0] == sb.literals[0];
      assert [sb.literals[0]] + sb.literals[1..] == sb.literals;
    }
  }

  lemma PlainPrefixPieces(a: string, lits: seq<string>)
    requires a != [] && lits != []
    ensures var first := [a[1..] + lits[0]] + lits[1..];
      [[a[0]] + first[0]] + first[1..] == [a + lits[0]] + lits[1..]
  {
    var first := [a[1..] + lits[0]] + lits[1..];
    assert first[1..] == lits[1..];
    assert [a[0]] + (a[1..] + lits[0]) == a + lits[0];
  }

  /** `open + g + close` with a group free of the closing delimiter and of line
      terminators is one match whose group is `g`. */
  lemma ScanConcatMatch(g: string, c: string, open: char, close: char)
    requires g != [] && close !in g
    requires forall i :: 0 <= i < |g| ==> !IsLineTerminator(g[i])
    ensures Scan([open] + g + [close] + c, open, close) ==
      Pieces([[]] + Scan(c, open, close).literals, [g] + Scan(c, open, close).inners)
  {
    var s := [open] + g + [close] + c;
    var j := |g| + 1;
    assert s[1] == g[0];
    assert s[j] == close;
    assert forall i :: 2 <= i < j ==> s[i] == g[i - 1];
    LazyCloseFinds(s, 2, j, close);
    assert s[1..j] == g;
    assert s[j + 1..] == c;
  }

  /** How the scan splits `a`, a group `g` between the delimiters, and `c`: `a` is
      the first literal and `g` the first group. */
  lemma ScanDelimited(a: string, g: string, c: string, open: char, close: char)
    requires open !in a && g != [] && close !in g
    requires forall i :: 0 <= i < |g| ==> !IsLineTerminator(g[i])
    ensures Scan(a + ([open] + g + [close] + c), open, close).literals == [a] + Scan(c, open, close).literals
    ensures Scan(a + ([open] + g + [close] + c), open, close).inners == [g] + Scan(c, open, close).inners
  {
    var sc := Scan(c, open, close);
    ScanConcatMatch(g, c, open, close);
    ScanConcatPlain(a, [open] + g + [close] + c, open, close);
    LiteralsAfterMatch(a, sc.literals);
  }

  lemma DelimitedAssoc(a: string, open: char, g: string, close: char, c: string)
    ensures a + [open] + g + [close] + c == a + ([open] + g + [close] + c)
  {
  }

  lemma ConcatAssoc(a: string, d: string, b: string, w: string)
    ensures a + (d + b) + w == a + d + b + w
  {
  }

  lemma LiteralsAfterMatch(a: string, lits: seq<string>)
    ensures var l := [[]] + lits; [a + l[0]] + l[1..] == [a] + lits
  {
    var l := [[]] + lits;
    assert l[0] == [] && l[1..] == lits;
    assert a + [] == a;
  }

  lemma {:induction false} LazyCloseFinds(s: string, k: nat, j: nat, close: char)
    requires k <= j < |s| && s[j] == close
    requires forall i :: k <= i < j ==> s[i] != close && !IsLineTerminator(s[i])
    ensures LazyClose(s, k, close) == Some(j)
    decreases j - k
  {
    if k < j {
      LazyCloseFinds(s, k + 1, j, close);
    }
  }
}
