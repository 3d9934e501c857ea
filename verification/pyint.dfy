/**
 * Python's `int(x)` applied to a value decoded from the JSON response body:
 * the conversion the normaliser uses to read a record's timestamp.
 */
module PyInt {
  import opened Options

  /**
   * A JSON value as `r.json()` decodes it. JSON `null` is not a case here:
   * a field holding `null` reads as absent, as it does through `dict.get`.
   */
  datatype Json =
    | JBool(b: bool)
    | JInt(i: int)
    | JFloat(x: real)
    | JStr(s: string)
    | JList
    | JDict

  predicate IsDigit(c: char) {
    '0' <= c <= '9'
  }

  predicate AllDigits(s: string) {
    forall k :: 0 <= k < |s| ==> IsDigit(s[k])
  }

  /** A decimal numeral: an optional sign followed by at least one digit. */
  predicate IsNumeral(s: string) {
    if |s| > 0 && (s[0] == '+' || s[0] == '-') then |s| > 1 && AllDigits(s[1..])
    else |s| > 0 && AllDigits(s)
  }

  /** The value of a string of decimal digits, most significant first. */
  function DigitsValue(s: string): nat
    requires AllDigits(s)
  {
    if |s| == 0 then 0
    else DigitsValue(s[..|s| - 1]) * 10 + (s[|s| - 1] - '0') as int
  }

  /** `int(s)` for a string `s`; `None` where Python raises `ValueError`. */
  function ParseInt(s: string): (r: Option<int>)
    ensures r.Some? <==> IsNumeral(s)
  {
    if |s| > 0 && (s[0] == '+' || s[0] == '-') then
      if |s| > 1 && AllDigits(s[1..]) then
        Some(if s[0] == '-' then 0 - DigitsValue(s[1..]) else DigitsValue(s[1..]) as int)
      else None
    else if |s| > 0 && AllDigits(s) then Some(DigitsValue(s))
    else None
  }

  /** `int(x)` truncates a float toward zero. */
  function Truncate(x: real): (r: int)
    ensures -1.0 < x - r as real < 1.0
    ensures x >= 0.0 ==> 0 <= r && r as real <= x
    ensures x < 0.0 ==> r <= 0 && x <= r as real
  {
    if x >= 0.0 then x.Floor else -((-x).Floor)
  }

  /** `int(v)` for a decoded JSON value; `None` where Python raises. */
  function IntOf(v: Json): (r: Option<int>)
    ensures v.JBool? ==> r == Some(if v.b then 1 else 0)
    ensures v.JInt? ==> r == Some(v.i)
    ensures v.JFloat? ==> r == Some(Truncate(v.x))
    ensures v.JStr? ==> r == ParseInt(v.s) && (r.Some? <==> IsNumeral(v.s))
    ensures v.JList? || v.JDict? ==> r.None?
  {
    match v
    case JBool(b) => Some(if b then 1 else 0)
    case JInt(i) => Some(i)
    case JFloat(x) => Some(Truncate(x))
    case JStr(s) => ParseInt(s)
    case JList => None
    case JDict => None
  }

  // ---------------------------------------------------------------------------
  // The inverse: `str(i)`
  // ---------------------------------------------------------------------------

  function DigitChar(d: int): char
    requires 0 <= d < 10
  {
    ('0' as int + d) as char
  }

  /** The decimal digits of `n`, without leading zeros. */
  function NatDigits(n: nat): (s: string)
    ensures |s| > 0 && AllDigits(s)
    ensures |s| > 1 ==> s[0] != '0'
  {
    if n < 10 then [DigitChar(n)] else NatDigits(n / 10) + [DigitChar(n % 10)]
  }

  /** `str(i)` for an integer `i`. */
  function FormatInt(i: int): string {
    if i < 0 then "-" + NatDigits(-i) else NatDigits(i)
  }

  lemma {:induction false} NatDigitsValue(n: nat)
    ensures DigitsValue(NatDigits(n)) == n
  {
    if n >= 10 {
      var s := NatDigits(n);
      NatDigitsValue(n / 10);
      assert s[..|s| - 1] == NatDigits(n / 10);
    }
  }

  /** Reading back what `str` writes gives the integer: `int(str(i)) == i`. */
  lemma ParseFormatInt(i: int)
    ensures ParseInt(FormatInt(i)) == Some(i)
  {
    var s := FormatInt(i);
    if i < 0 {
      NatDigitsValue(-i);
      assert s[1..] == NatDigits(-i);
    } else {
      NatDigitsValue(i);
    }
  }

  /** A numeral of digits only is written back by `str` once leading zeros are dropped. */
  lemma {:induction false} DigitsValueLeadingZeros(s: string)
    requires AllDigits(s) && |s| > 0 && s[0] != '0'
    ensures NatDigits(DigitsValue(s)) == s
    decreases |s|
  {
    if |s| > 1 {
      var p := s[..|s| - 1];
      DigitsValueLeadingZeros(p);
      DigitsValuePositive(p);
      assert DigitsValue(s) / 10 == DigitsValue(p);
      assert DigitsValue(s) % 10 == (s[|s| - 1] - '0') as int;
    }
  }

  lemma {:induction false} DigitsValuePositive(s: string)
    requires AllDigits(s) && |s| > 0 && s[0] != '0'
    ensures DigitsValue(s) > 0
    decreases |s|
  {
    if |s| > 1 {
      DigitsValuePositive(s[..|s| - 1]);
    }
  }
}
