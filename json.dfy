/** JSON-like JavaScript values as the scraper sees them: records parsed from the
    remote service, configuration objects and the arrays of call arguments that the
    logging templates read. An object is the ordered list of its own properties. */
module Json {
  import opened Common
  import opened Text

  datatype Value =
    | Undef
    | Null
    | Bool(b: bool)
    | Num(n: int)
    | Str(s: string)
    | Arr(items: seq<Value>)
    | Obj(fields: seq<(string, Value)>)

  type Fields = seq<(string, Value)>

  /** `v == null` (loose equality): `null` or `undefined`. */
  predicate IsNullish(v: Value) {
    v.Undef? || v.Null?
  }

  // ---------------------------------------------------------------- objects

  /** Position of the property named `key`, if there is one. */
  function FindKey(f: Fields, key: string): (r: Option<nat>)
    ensures r.Some? ==> r.value < |f| && f[r.value].0 == key
    ensures r.Some? ==> forall i :: 0 <= i < r.value ==> f[i].0 != key
    ensures r.None? ==> forall i :: 0 <= i < |f| ==> f[i].0 != key
    decreases |f|
  {
    if f == [] then None
    else if f[0].0 == key then Some(0)
    else match FindKey(f[1..], key)
      case Some(i) => Some(i + 1)
      case None => None
  }

  predicate HasKey(f: Fields, key: string) {
    FindKey(f, key).Some?
  }

  predicate DistinctKeys(f: Fields) {
    forall i, j :: 0 <= i < j < |f| ==> f[i].0 != f[j].0
  }

  function Lookup(f: Fields, key: string): Option<Value> {
    match FindKey(f, key)
    case Some(i) => Some(f[i].1)
    case None => None
  }

  /** `obj[key] = v` on an ordinary object: an existing property keeps its place and
      takes the new value, a new one goes last. */
  function SetField(f: Fields, key: string, v: Value): (r: Fields)
    ensures |r| == if HasKey(f, key) then |f| else |f| + 1
    ensures Lookup(r, key) == Some(v)
    ensures forall k :: k != key ==> Lookup(r, k) == Lookup(f, k)
    ensures forall k :: HasKey(r, k) <==> HasKey(f, k) || k == key
    ensures DistinctKeys(f) ==> DistinctKeys(r)
  {
    match FindKey(f, key)
    case Some(i) =>
      var r := f[i := (key, v)];
      assert forall k :: FindKey(r, k) == FindKey(f, k) by {
        forall k ensures FindKey(r, k) == FindKey(f, k) {
          FindKeySame(f, r, k);
        }
      }
      r
    case None =>
      var r := f + [(key, v)];
      assert forall k :: k != key ==> FindKey(r, k) == FindKey(f, k) by {
        forall k | k != key ensures FindKey(r, k) == FindKey(f, k) {
          FindKeySame(f, r, k);
        }
      }
      FindKeyAt(r, key, |f|);
      r
  }

  /** Two property lists that agree, up to the shorter one's length, on which
      positions carry `k`, and that have no `k` beyond it, find `k` at the same place. */
  lemma FindKeySame(f: Fields, g: Fields, k: string)
    requires forall i :: 0 <= i < |f| && i < |g| ==> (f[i].0 == k <==> g[i].0 == k)
    requires forall i :: |f| <= i < |g| ==> g[i].0 != k
    requires forall i :: |g| <= i < |f| ==> f[i].0 != k
    ensures FindKey(f, k) == FindKey(g, k)
  {
  }

  lemma FindKeyAt(f: Fields, k: string, j: nat)
    requires j < |f| && f[j].0 == k
    requires forall i :: 0 <= i < j ==> f[i].0 != k
    ensures FindKey(f, k) == Some(j)
  {
  }

  /** The value of the LAST entry named `key`. */
  function LookupLast(es: Fields, key: string): Option<Value>
    decreases |es|
  {
    if es == [] then None
    else if es[|es| - 1].0 == key then Some(es[|es| - 1].1)
    else LookupLast(es[..|es| - 1], key)
  }

  /** `Object.fromEntries(es)`: the entries are stored one after the other, so a
      repeated key keeps its first place and its last value. */
  function FromEntries(es: Fields): (r: Fields)
    ensures DistinctKeys(r)
    ensures forall k :: Lookup(r, k) == LookupLast(es, k)
    ensures forall k :: HasKey(r, k) <==> HasKey(es, k)
    decreases |es|
  {
    if es == [] then []
    else
      var init := es[..|es| - 1];
      var r := SetField(FromEntries(init), es[|es| - 1].0, es[|es| - 1].1);
      assert forall k :: HasKey(es, k) <==> HasKey(init, k) || k == es[|es| - 1].0 by {
        forall k ensures HasKey(es, k) <==> HasKey(init, k) || k == es[|es| - 1].0 {
          if HasKey(es, k) && k != es[|es| - 1].0 {
            var i := FindKey(es, k).value;
            assert init[i].0 == k;
          }
          if HasKey(init, k) {
            var i := FindKey(init, k).value;
            assert es[i].0 == k;
          }
          if k == es[|es| - 1].0 {
            assert es[|es| - 1].0 == k;
          }
        }
      }
      r
  }

  /** Entries with distinct keys are stored exactly as given, in order. */
  lemma {:induction false} FromEntriesDistinct(es: Fields)
    requires DistinctKeys(es)
    ensures FromEntries(es) == es
    decreases |es|
  {
    if es != [] {
      var init := es[..|es| - 1];
      FromEntriesDistinct(init);
      var last := es[|es| - 1];
      assert FindKey(init, last.0).None?;
      assert init + [last] == es;
    }
  }

  // ---------------------------------------------------------------- properties

  /** Canonical array index: decimal digits without a leading zero. */
  function CanonicalIndex(key: string): Option<nat> {
    if |key| >= 1 && (forall i :: 0 <= i < |key| ==> DigitValue(key[i], 10).Some?)
       && (|key| == 1 || key[0] != '0')
    then Some(DigitsValue(key, 10))
    else None
  }

  /** `v[key]` for a value that is neither `null` nor `undefined` (JavaScript throws a
      `TypeError` on those). Arrays and strings have `length` and their indices;
      numbers and booleans have no own data properties. Only own properties are
      read: a property is `undefined` exactly when `Has` says it is absent. */
  function Prop(v: Value, key: string): (r: Value)
    requires !IsNullish(v)
    ensures !Has(v, key) ==> r == Undef
    ensures v.Obj? && HasKey(v.fields, key) ==> Lookup(v.fields, key) == Some(r)
    ensures v.Arr? && Has(v, key) && key != "length" ==> r in v.items
  {
    match v
    case Obj(f) => (match Lookup(f, key) case Some(x) => x case None => Undef)
    case Arr(a) =>
      if key == "length" then Num(|a|)
      else (match CanonicalIndex(key) case Some(i) => if i < |a| then a[i] else Undef case None => Undef)
    case Str(s) =>
      if key == "length" then Num(|s|)
      else (match CanonicalIndex(key) case Some(i) => if i < |s| then Str([s[i]]) else Undef case None => Undef)
    case _ => Undef
  }

  /** `Object.prototype.hasOwnProperty.call(v, key)`. */
  predicate Has(v: Value, key: string)
    requires !IsNullish(v)
  {
    match v
    case Obj(f) => HasKey(f, key)
    case Arr(a) => key == "length" || (CanonicalIndex(key).Some? && CanonicalIndex(key).value < |a|)
    case Str(s) => key == "length" || (CanonicalIndex(key).Some? && CanonicalIndex(key).value < |s|)
    case _ => false
  }

  /** The own enumerable properties, in order: what `Object.entries` lists and what
      object spread copies. Spread of `null`/`undefined` copies nothing. */
  function Entries(v: Value): Fields {
    match v
    case Obj(f) => f
    case Arr(a) => seq(|a|, i requires 0 <= i < |a| => (NatToString(i), a[i]))
    case Str(s) => seq(|s|, i requires 0 <= i < |s| => (NatToString(i), Str([s[i]])))
    case _ => []
  }

  /** `{ ...a, ...b }` for two objects given by their properties. */
  function Merge(a: Fields, b: Fields): (r: Fields)
    ensures forall k :: Lookup(r, k) == if HasKey(b, k) then LookupLast(b, k) else LookupLast(a, k)
  {
    var r := FromEntries(a + b);
    assert forall k :: LookupLast(a + b, k) == if HasKey(b, k) then LookupLast(b, k) else LookupLast(a, k) by {
      forall k ensures LookupLast(a + b, k) == if HasKey(b, k) then LookupLast(b, k) else LookupLast(a, k) {
        LookupLastConcat(a, b, k);
      }
    }
    r
  }

  lemma {:induction false} LookupLastConcat(a: Fields, b: Fields, k: string)
    ensures LookupLast(a + b, k) == if HasKey(b, k) then LookupLast(b, k) else LookupLast(a, k)
    decreases |b|
  {
    if b == [] {
      assert a + b == a;
    } else {
      var b' := b[..|b| - 1];
      assert (a + b)[..|a + b| - 1] == a + b';
      LookupLastConcat(a, b', k);
      if b[|b| - 1].0 != k {
        assert HasKey(b, k) <==> HasKey(b', k) by {
          if HasKey(b, k) {
            assert b'[FindKey(b, k).value].0 == k;
          }
          if HasKey(b', k) {
            assert b[FindKey(b', k).value].0 == k;
          }
        }
      }
    }
  }

  /** `a === b`. Arrays and objects are compared by identity; every array or object
      in this model is a separate allocation, so they are never strictly equal. */
  predicate StrictEquals(a: Value, b: Value) {
    match (a, b)
    case (Undef, Undef) => true
    case (Null, Null) => true
    case (Bool(x), Bool(y)) => x == y
    case (Num(x), Num(y)) => x == y
    case (Str(x), Str(y)) => x == y
    case _ => false
  }

  // ---------------------------------------------------------------- to text

  /** The text a value becomes when it is concatenated to a string: `"undefined"`,
      `"null"`, the decimal number, the string itself, the elements of an array joined
      by commas (with `null` and `undefined` elements as empty text), or
      `"[object Object]"`. */
  function ToText(v: Value): (r: string)
    ensures v.Str? ==> r == v.s
    ensures v.Num? ==> ParseInt(r) == Some(v.n)
    decreases v
  {
    match v
    case Undef => "undefined"
    case Null => "null"
    case Bool(b) => if b then "true" else "false"
    case Num(n) => ParseIntOfIntToString(n); IntToString(n)
    case Str(s) => s
    case Arr(items) =>
      if items == [] then ""
      else Join(seq(|items|, i requires 0 <= i < |items| =>
                      if IsNullish(items[i]) then "" else ToText(items[i])), ',')
    case Obj(_) => "[object Object]"
  }
}
