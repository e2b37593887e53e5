/**
  JSON values as the importer manipulates them, and the handful of JavaScript
  property operations it relies on: reading `obj[key]`, writing `obj[key] = v`
  in sloppy mode, and `Object.entries`. Objects are insertion-ordered tables;
  numbers are integers.
*/
module Json {
  import opened Wrappers
  import opened Errors
  import Assoc

  datatype Json =
    | JNull
    | JBool(b: bool)
    | JNum(n: int)
    | JStr(s: string)
    | JArr(items: seq<Json>)
    | JObj(fields: Assoc.Assoc<Json>)

  /** One segment of a change key: an object property name or an array index. */
  datatype Seg = Field(name: string) | Index(i: nat)

  /** A measure that strictly decreases from a value to anything nested in it. */
  function Size(j: Json): nat
  {
    match j
    case JArr(a) => 1 + Sum(seq(|a|, i requires 0 <= i < |a| => Size(a[i])))
    case JObj(f) => 1 + Sum(seq(|f|, i requires 0 <= i < |f| => Size(f[i].1)))
    case _ => 1
  }

  function Sum(xs: seq<nat>): nat
  {
    if |xs| == 0 then 0 else xs[0] + Sum(xs[1..])
  }

  lemma {:induction false} SumBound(xs: seq<nat>, i: nat)
    requires i < |xs|
    ensures xs[i] <= Sum(xs)
  {
    if i > 0 {
      SumBound(xs[1..], i - 1);
    }
  }

  /** An array element is smaller than the array. */
  lemma ItemSmaller(a: seq<Json>, i: nat)
    requires i < |a|
    ensures Size(a[i]) < Size(JArr(a))
  {
    SumBound(seq(|a|, i requires 0 <= i < |a| => Size(a[i])), i);
  }

  /** A property value is smaller than the object holding it. */
  lemma FieldSmaller(f: Assoc.Assoc<Json>, k: string)
    requires Assoc.Get(f, k).Some?
    ensures Size(Assoc.Get(f, k).value) < Size(JObj(f))
  {
    var i := Assoc.IndexOfKey(f, k);
    SumBound(seq(|f|, i requires 0 <= i < |f| => Size(f[i].1)), i);
  }

  /** The decimal text of a natural number (JavaScript `String(n)`). */
  function NatToString(n: nat): (s: string)
    ensures |s| > 0
    ensures forall i :: 0 <= i < |s| ==> '0' <= s[i] <= '9'
  {
    var d := "0123456789"[n % 10];
    if n < 10 then [d] else NatToString(n / 10) + [d]
  }

  /** The property name a segment denotes on an object. */
  function SegKey(k: Seg): string
  {
    match k
    case Field(name) => name
    case Index(i) => NatToString(i)
  }

  predicate Digits(s: string)
  {
    forall i :: 0 <= i < |s| ==> '0' <= s[i] <= '9'
  }

  /** The number a string of decimal digits spells. */
  function DigitsValue(s: string): nat
    requires Digits(s)
  {
    if |s| == 0 then 0 else 10 * DigitsValue(s[..|s| - 1]) + (s[|s| - 1] as int - '0' as int)
  }

  /** The text `String(n)` gives for some `n`: digits without a leading zero. */
  predicate CanonicalDigits(s: string)
  {
    |s| > 0 && Digits(s) && (s[0] != '0' || |s| == 1)
  }

  /**
    The array index a property name denotes, if any. JavaScript property names
    are strings, and `a["2"]` is `a[2]` exactly because `"2"` is `String(2)`.
  */
  function IndexName(name: string): (r: Option<nat>)
    ensures r.Some? ==> NatToString(r.value) == name
  {
    if CanonicalDigits(name) then DigitsRoundTrip(name); Some(DigitsValue(name)) else None
  }

  /** The array index a key segment denotes: the index of its property name. */
  function SegIndex(k: Seg): Option<nat>
  {
    IndexName(SegKey(k))
  }

  /** A leading digit other than zero makes the value positive. */
  lemma {:induction false} LeadingDigitPositive(s: string)
    requires Digits(s) && |s| > 0 && s[0] != '0'
    ensures DigitsValue(s) >= 1
  {
    if |s| > 1 {
      LeadingDigitPositive(s[..|s| - 1]);
    }
  }

  /** Digits without a leading zero spell a number whose `String` is those digits. */
  lemma {:induction false} DigitsRoundTrip(s: string)
    requires CanonicalDigits(s)
    ensures NatToString(DigitsValue(s)) == s
  {
    if |s| > 1 {
      var p := s[..|s| - 1];
      var d := s[|s| - 1] as int - '0' as int;
      DigitsRoundTrip(p);
      LeadingDigitPositive(p);
      var q := DigitsValue(p);
      assert DigitsValue(s) == 10 * q + d;
      DivMod10(q, d);
      CharDigit(s[|s| - 1]);
      assert NatToString(10 * q + d) == NatToString(q) + ["0123456789"[d]];
      assert s == p + [s[|s| - 1]];
    } else {
      OneDigit(s);
    }
  }

  /** A single digit is the `String` of its value. */
  lemma OneDigit(s: string)
    requires |s| == 1 && Digits(s)
    ensures NatToString(DigitsValue(s)) == s
  {
    var d := s[0] as int - '0' as int;
    CharDigit(s[0]);
    assert s[..0] == [];
    assert DigitsValue(s) == d;
    DivMod10(0, d);
    assert NatToString(d) == ["0123456789"[d]];
    assert s == [s[0]];
  }

  /** The last decimal digit and the rest of `10 * q + d`. */
  lemma DivMod10(q: nat, d: int)
    requires 0 <= d < 10
    ensures (10 * q + d) / 10 == q && (10 * q + d) % 10 == d
  {
  }


  /** A digit character sits at its own value in the digit table. */
  lemma CharDigit(c: char)
    requires '0' <= c <= '9'
    ensures "0123456789"[c as int - '0' as int] == c
  {
  }

  /** `String(n)` names index `n`: every natural number is an array index of its own name. */
  lemma IndexNameOfNat(n: nat)
    ensures IndexName(NatToString(n)) == Some(n)
  {
    NatStringDigits(n);
  }

  /** `String(n)` is canonical digits whose value is `n`. */
  lemma {:induction false} NatStringDigits(n: nat)
    ensures CanonicalDigits(NatToString(n)) && DigitsValue(NatToString(n)) == n
  {
    var s := NatToString(n);
    DigitChar(n % 10);
    if n >= 10 {
      NatStringDigits(n / 10);
      var p := NatToString(n / 10);
      assert s == p + [s[|s| - 1]];
      assert s[..|s| - 1] == p;
      assert s[0] == p[0];
      assert DigitsValue(s) == 10 * DigitsValue(p) + (s[|s| - 1] as int - '0' as int);
    }
  }

  /** The digit character for `k` has value `k`. */
  lemma DigitChar(k: nat)
    requires k < 10
    ensures "0123456789"[k] as int - '0' as int == k
  {
  }

  /** `j[k]`: `Success(None)` is `undefined`; reading from `null` throws. */
  function Prop(j: Json, k: Seg): (r: Result<Option<Json>, Error>)
    ensures r.Failure? <==> j.JNull?
    ensures j.JObj? ==> r == Success(Assoc.Get(j.fields, SegKey(k)))
    ensures j.JNum? || j.JBool? ==> r == Success(None)
  {
    match j
    case JNull => Failure(TypeError)
    case JObj(f) => Success(Assoc.Get(f, SegKey(k)))
    case JArr(a) =>
      var ix := SegIndex(k);
      if SegKey(k) == "length" then Success(Some(JNum(|a|)))
      else if ix.Some? && ix.value < |a| then Success(Some(a[ix.value]))
      else Success(None)
    case JStr(s) =>
      var ix := SegIndex(k);
      if SegKey(k) == "length" then Success(Some(JNum(|s|)))
      else if ix.Some? && ix.value < |s| then Success(Some(JStr([s[ix.value]])))
      else Success(None)
    case _ => Success(None)
  }

  /** `j[k] = v` in sloppy mode: writes to primitives are silently lost, writes to `null` throw. */
  function Assign(j: Json, k: Seg, v: Json): (r: Result<Json, Error>)
    ensures r.Failure? <==> j.JNull?
    ensures j.JObj? ==> r.Success? && r.value.JObj?
                        && Assoc.Get(r.value.fields, SegKey(k)) == Some(v)
                        && forall n :: n != SegKey(k) ==> Assoc.Get(r.value.fields, n) == Assoc.Get(j.fields, n)
    ensures !j.JObj? && !j.JArr? && !j.JNull? ==> r == Success(j)
  {
    match j
    case JNull => Failure(TypeError)
    case JObj(f) => Success(JObj(Assoc.Put(f, SegKey(k), v)))
    case JArr(a) =>
      var ix := SegIndex(k);
      if ix.Some? then Success(JArr(SetIndex(a, ix.value, v))) else Success(j)
    case _ => Success(j)
  }

  /** `a[i] = v`; past the end the array grows, and the holes read back as `null` once serialised. */
  function SetIndex(a: seq<Json>, i: nat, v: Json): (r: seq<Json>)
    ensures |r| == if i < |a| then |a| else i + 1
    ensures r[i] == v
    ensures forall m :: 0 <= m < |a| && m != i ==> r[m] == a[m]
  {
    if i < |a| then a[i := v] else a + seq(i - |a|, _ => JNull) + [v]
  }

  /** The value reached by reading `ks` one segment after another, if every read is defined. */
  function GetPath(j: Json, ks: seq<Seg>): Option<Json>
    decreases |ks|
  {
    if |ks| == 0 then Some(j)
    else
      match Prop(j, ks[0])
      case Success(Some(c)) => GetPath(c, ks[1..])
      case _ => None
  }

  /** The own enumerable entries `Object.entries` and `Object.assign` see, in order. */
  function OwnEntries(j: Json): (r: Assoc.Assoc<Json>)
    ensures j.JObj? ==> r == j.fields
    ensures j.JArr? ==> |r| == |j.items| && forall i :: 0 <= i < |r| ==> r[i] == (NatToString(i), j.items[i])
    ensures j.JNull? || j.JNum? || j.JBool? ==> r == []
  {
    match j
    case JObj(f) => f
    case JArr(a) => seq(|a|, i requires 0 <= i < |a| => (NatToString(i), a[i]))
    case JStr(s) => seq(|s|, i requires 0 <= i < |s| => (NatToString(i), JStr([s[i]])))
    case _ => []
  }

  /** `Object.entries(j)`, which throws on `null`. */
  function Entries(j: Json): (r: Result<Assoc.Assoc<Json>, Error>)
    ensures r.Failure? <==> j.JNull?
    ensures r.Success? ==> r.value == OwnEntries(j)
  {
    if j.JNull? then Failure(TypeError) else Success(OwnEntries(j))
  }

  /** The elements a `for (i = 0; i < v.length; i++) v[i]` loop visits; reading `null.length` throws. */
  function Elements(j: Json): (r: Result<seq<Json>, Error>)
    ensures r.Failure? <==> j.JNull?
    ensures j.JArr? ==> r == Success(j.items)
    ensures j.JObj? || j.JNum? || j.JBool? ==> r == Success([])
  {
    match j
    case JNull => Failure(TypeError)
    case JArr(a) => Success(a)
    case JStr(s) => Success(seq(|s|, i requires 0 <= i < |s| => JStr([s[i]])))
    case _ => Success([])
  }

  /** The elements a loop over `length` visits are no larger than the value they come from. */
  lemma ElementsNoLarger(j: Json)
    requires !j.JNull?
    ensures forall k :: 0 <= k < |Elements(j).value| ==> Size(Elements(j).value[k]) <= Size(j)
  {
    var kids := Elements(j).value;
    forall k | 0 <= k < |kids|
      ensures Size(kids[k]) <= Size(j)
    {
      if j.JArr? { ItemSmaller(j.items, k); }
    }
  }

  /** JavaScript truthiness of a defined value. */
  predicate Truthy(j: Json)
  {
    match j
    case JNull => false
    case JBool(b) => b
    case JNum(n) => n != 0
    case JStr(s) => s != ""
    case _ => true
  }
}
