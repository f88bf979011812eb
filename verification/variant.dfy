/** Dynamically typed values as the wire maps carry them, restricted to the
    kinds the attachment decoder meets, with the conversions it applies. */
module Variants {

  /** A dynamically typed value; Null is the invalid value a missing key
      yields. */
  datatype Variant =
    | Null
    | Bool(b: bool)
    | Int(i: int)
    | Str(s: string)
    | List(items: seq<Variant>)
    | Map(entries: map<string, Variant>)

  type VariantMap = map<string, Variant>

  /** The value stored under `key`, or `def` when there is none. */
  function Value(m: VariantMap, key: string, def: Variant): (v: Variant)
    ensures key in m ==> v == m[key]
    ensures key !in m ==> v == def
  {
    if key in m then m[key] else def
  }

  /** The map a value holds; every other kind converts to the empty map. */
  function ToMap(v: Variant): (m: VariantMap)
    ensures v.Map? ==> m == v.entries
    ensures !v.Map? ==> m == map[]
  {
    if v.Map? then v.entries else map[]
  }

  /** The string form of a value: strings as they are, integers as a decimal
      numeral without leading zeros that reads back as the integer, booleans as "true" or "false",
      every other kind as the empty string. */
  function ToString(v: Variant): (r: string)
    ensures v.Str? ==> r == v.s
    ensures v.Int? ==> |r| > 0 && (r[0] == '-' <==> v.i < 0) && CanonicalNumeral(r) && NumeralOf(r) == v.i
    ensures v.Bool? ==> r == if v.b then "true" else "false"
    ensures !v.Str? && !v.Int? && !v.Bool? ==> r == ""
  {
    match v
    case Str(s) => s
    case Int(i) => Decimal(i)
    case Bool(b) => if b then "true" else "false"
    case _ => ""
  }

  /** The character of decimal digit `d`. */
  function Digit(d: nat): char
    requires d < 10
  {
    ('0' as int + d) as char
  }

  predicate IsDigit(c: char) {
    '0' <= c <= '9'
  }

  predicate AllDigits(s: string) {
    forall i :: 0 <= i < |s| ==> IsDigit(s[i])
  }

  /** Digits without a leading zero, except for "0" itself. */
  predicate CanonicalDigits(s: string) {
    |s| > 0 && AllDigits(s) && (s[0] == '0' ==> |s| == 1)
  }

  /** The form a decimal conversion produces: canonical digits, or a minus
      sign followed by the canonical digits of a non-zero number. */
  predicate CanonicalNumeral(s: string) {
    || CanonicalDigits(s)
    || (|s| > 1 && s[0] == '-' && s[1] != '0' && CanonicalDigits(s[1..]))
  }

  /** The value of a string of decimal digits, most significant first. */
  function DigitsValue(s: string): nat
    requires AllDigits(s)
    decreases |s|
  {
    if s == [] then 0
    else
      assert IsDigit(s[|s| - 1]);
      DigitsValue(s[..|s| - 1]) * 10 + (s[|s| - 1] as int - '0' as int)
  }

  /** The integer a decimal numeral denotes: an optional minus sign followed
      by digits; anything else reads as 0. */
  function NumeralOf(s: string): int {
    if |s| > 0 && s[0] == '-' && AllDigits(s[1..]) then -(DigitsValue(s[1..]) as int)
    else if AllDigits(s) then DigitsValue(s)
    else 0
  }

  /** The decimal digits of `n`, most significant first, without leading
      zeros; they read back as `n`. */
  function Digits(n: nat): (r: string)
    ensures CanonicalDigits(r)
    ensures r[0] == '0' ==> n == 0
    ensures DigitsValue(r) == n
    decreases n
  {
    if n < 10 then [Digit(n)]
    else
      var init := Digits(n / 10);
      var r := init + [Digit(n % 10)];
      assert r[..|r| - 1] == init;
      r
  }

  /** `n` in decimal, with a leading minus sign when negative; it reads back
      as `n`. */
  function Decimal(n: int): (r: string)
    ensures |r| > 0 && (r[0] == '-' <==> n < 0) && (r[0] == '-' || IsDigit(r[0]))
    ensures CanonicalNumeral(r)
    ensures NumeralOf(r) == n
  {
    if n < 0 then
      var d := Digits(-n);
      assert ("-" + d)[1..] == d;
      "-" + d
    else Digits(n)
  }

  /** Digits with a non-zero first digit are worth at least 1, and at least
      10 when there are two or more. */
  lemma {:induction false} LeadingDigitBound(s: string)
    requires |s| > 0 && AllDigits(s) && s[0] != '0'
    ensures DigitsValue(s) >= 1
    ensures |s| > 1 ==> DigitsValue(s) >= 10
    decreases |s|
  {
    if |s| > 1 {
      LeadingDigitBound(s[..|s| - 1]);
    }
  }

  /** Two canonical digit strings with the same value are the same string. */
  lemma {:induction false} CanonicalDigitsUnique(a: string, b: string)
    requires CanonicalDigits(a) && CanonicalDigits(b)
    requires DigitsValue(a) == DigitsValue(b)
    ensures a == b
    decreases |a|
  {
    if |a| == 1 && |b| == 1 {
    } else if |a| == 1 {
      LeadingDigitBound(b);
    } else if |b| == 1 {
      LeadingDigitBound(a);
    } else {
      var ia, ib := a[..|a| - 1], b[..|b| - 1];
      var da, db := a[|a| - 1] as int - '0' as int, b[|b| - 1] as int - '0' as int;
      assert DigitsValue(a) == DigitsValue(ia) * 10 + da;
      assert DigitsValue(b) == DigitsValue(ib) * 10 + db;
      assert DigitsValue(ia) == DigitsValue(ib) && da == db;
      CanonicalDigitsUnique(ia, ib);
      assert a == ia + [a[|a| - 1]];
      assert b == ib + [b[|b| - 1]];
    }
  }

  /** A canonical numeral is the only one for its value: the decimal form of
      an integer is determined by the integer. */
  lemma NumeralUnique(a: string, b: string)
    requires CanonicalNumeral(a) && CanonicalNumeral(b)
    requires NumeralOf(a) == NumeralOf(b)
    ensures a == b
  {
    if CanonicalDigits(a) && CanonicalDigits(b) {
      CanonicalDigitsUnique(a, b);
    } else if CanonicalDigits(a) {
      LeadingDigitBound(b[1..]);
    } else if CanonicalDigits(b) {
      LeadingDigitBound(a[1..]);
    } else {
      CanonicalDigitsUnique(a[1..], b[1..]);
      assert a == [a[0]] + a[1..];
      assert b == [b[0]] + b[1..];
    }
  }
}
