/**
 * Number parsing as the controllers use it: `Long.parseLong`,
 * `Integer.parseInt` and `Double.parseDouble` on trimmed text, and the
 * identifier rule shared by persons, stands, managers and narrators
 * (parses as a `long`, is not negative, and has at most 15 characters once
 * leading zeros are stripped).
 */
module Numbers {
  import opened Common

  const LONG_MIN: int := -0x8000_0000_0000_0000
  const LONG_MAX: int := 0x7FFF_FFFF_FFFF_FFFF
  const INT_MIN: int := -0x8000_0000
  const INT_MAX: int := 0x7FFF_FFFF

  /** Identifiers have at most this many significant characters. */
  const MAX_ID_LENGTH: nat := 15

  /** 10^15: every accepted identifier is below it. */
  const ID_LIMIT: nat := 1_000_000_000_000_000

  /** An ASCII decimal digit. */
  predicate IsDigit(c: char)
  {
    '0' <= c <= '9'
  }

  predicate AllDigits(s: string)
  {
    forall i :: 0 <= i < |s| ==> IsDigit(s[i])
  }

  function DigitValue(c: char): nat
    requires IsDigit(c)
  {
    c as int - '0' as int
  }

  function Pow10(n: nat): (r: nat)
    ensures r >= 1
  {
    if n == 0 then 1 else 10 * Pow10(n - 1)
  }

  /** The value of a string of decimal digits, most significant first. */
  function DigitsValue(s: string): nat
    requires AllDigits(s)
  {
    if s == [] then 0 else DigitsValue(s[..|s| - 1]) * 10 + DigitValue(s[|s| - 1])
  }

  /** A string of k digits denotes a number below 10^k. */
  lemma {:induction false} DigitsBound(s: string)
    requires AllDigits(s)
    ensures DigitsValue(s) < Pow10(|s|)
  {
    if s != [] {
      DigitsBound(s[..|s| - 1]);
    }
  }

  /**
   * Java's radix-10 integer parse: an optional '+' or '-' followed by at
   * least one ASCII digit, whose value lies in [lo, hi]; anything else fails.
   */
  function ParseInteger(s: string, lo: int, hi: int): (r: Option<int>)
    ensures r.Some? ==> lo <= r.value <= hi
  {
    if |s| > 0 && (s[0] == '+' || s[0] == '-') then
      if |s| > 1 && AllDigits(s[1..]) then
        var v: int := if s[0] == '-' then 0 - DigitsValue(s[1..]) else DigitsValue(s[1..]);
        if lo <= v <= hi then Some(v) else None
      else None
    else if |s| > 0 && AllDigits(s) then
      var v := DigitsValue(s);
      if lo <= v <= hi then Some(v) else None
    else None
  }

  /** `Long.parseLong`. */
  function ParseLong(s: string): Option<int>
  {
    ParseInteger(s, LONG_MIN, LONG_MAX)
  }

  /** `Integer.parseInt`. */
  function ParseInt(s: string): Option<int>
  {
    ParseInteger(s, INT_MIN, INT_MAX)
  }

  /**
   * `s.replaceFirst("^0+(?!$)", "")`: drops the leading zeros of `s` but
   * never its last character.
   */
  function StripLeadingZeros(s: string): (r: string)
    ensures |r| <= |s|
    ensures |s| > 0 ==> |r| > 0
    ensures |r| > 1 ==> r[0] != '0'
  {
    if |s| > 1 && s[0] == '0' then StripLeadingZeros(s[1..]) else s
  }

  /**
   * The identifier rule applied to trimmed text: parse as a `long`
   * (failure), reject a negative value, then reject more than 15 characters
   * after stripping leading zeros (a '+' sign counts as a character).
   */
  function ParseId(s: string): (r: Option<int>)
    ensures r.Some? ==> 0 <= r.value < ID_LIMIT
  {
    match ParseLong(s)
    case None => None
    case Some(v) =>
      if v < 0 then None
      else if |StripLeadingZeros(s)| > MAX_ID_LENGTH then None
      else
        IdBound(s);
        Some(v)
  }

  lemma PowMonotone(m: nat, n: nat)
    requires m <= n
    ensures Pow10(m) <= Pow10(n)
  {
    if m < n { PowMonotone(m, n - 1); }
  }

  /** Leading zeros do not change the value of a digit string. */
  lemma {:induction false} LeadingZerosValue(s: string)
    requires AllDigits(s)
    ensures AllDigits(StripLeadingZeros(s))
    ensures DigitsValue(StripLeadingZeros(s)) == DigitsValue(s)
  {
    if |s| > 1 && s[0] == '0' {
      LeadingZerosValue(s[1..]);
      ZeroPrefixValue(s[1..]);
      assert s == "0" + s[1..];
    }
  }

  lemma {:induction false} ZeroPrefixValue(s: string)
    requires AllDigits(s)
    ensures DigitsValue("0" + s) == DigitsValue(s)
  {
    if s != [] {
      var t := "0" + s;
      assert t[..|t| - 1] == "0" + s[..|s| - 1];
      ZeroPrefixValue(s[..|s| - 1]);
    }
  }

  /** Any text accepted by the identifier rule denotes a number below 10^15. */
  lemma IdBound(s: string)
    requires ParseLong(s).Some? && ParseLong(s).value >= 0
    requires |StripLeadingZeros(s)| <= MAX_ID_LENGTH
    ensures ParseLong(s).value < ID_LIMIT
  {
    IdLimit();
    var v := ParseLong(s).value;
    if s[0] == '-' {
      assert v == 0;
    } else if s[0] == '+' {
      assert StripLeadingZeros(s) == s;
      DigitsBound(s[1..]);
      PowMonotone(|s| - 1, MAX_ID_LENGTH);
    } else {
      LeadingZerosValue(s);
      DigitsBound(StripLeadingZeros(s));
      PowMonotone(|StripLeadingZeros(s)|, MAX_ID_LENGTH);
    }
  }

  /** The canonical decimal text of a natural number. */
  function Decimal(n: nat): (s: string)
    ensures |s| > 0 && AllDigits(s)
    ensures |s| > 1 ==> s[0] != '0'
    decreases n
  {
    if n < 10 then ['0' + n as char] else Decimal(n / 10) + ['0' + (n % 10) as char]
  }

  lemma {:induction false} DecimalValue(n: nat)
    ensures DigitsValue(Decimal(n)) == n
    decreases n
  {
    if n >= 10 {
      var s := Decimal(n);
      assert s[..|s| - 1] == Decimal(n / 10);
      DecimalValue(n / 10);
    }
  }

  lemma {:induction false} DecimalLength(n: nat, k: nat)
    requires n < Pow10(k)
    ensures |Decimal(n)| <= k || (n == 0 && k == 0)
    decreases n
  {
    if n >= 10 {
      assert k > 0;
      DecimalLength(n / 10, k - 1);
    }
  }

  /**
   * Every identifier the rule can produce is accepted when written in
   * plain decimal: for n in [0, 10^15), ParseId(Decimal(n)) == Some(n).
   */
  lemma ParseIdDecimal(n: nat)
    requires n < ID_LIMIT
    ensures ParseId(Decimal(n)) == Some(n)
  {
    var s := Decimal(n);
    IdLimit();
    DecimalValue(n);
    DecimalLength(n, MAX_ID_LENGTH);
    assert StripLeadingZeros(s) == s;
    assert ParseLong(s) == Some(n);
  }

  lemma IdLimit()
    ensures Pow10(MAX_ID_LENGTH) == ID_LIMIT
  {
    assert Pow10(3) == 1000;
    assert Pow10(6) == 1000_000;
    assert Pow10(9) == 1000_000_000;
    assert Pow10(12) == 1000_000_000_000;
  }

  /** A run of `z` zero characters. */
  function Zeros(z: nat): (r: string)
    ensures |r| == z && forall i :: 0 <= i < z ==> r[i] == '0'
  {
    if z == 0 then [] else "0" + Zeros(z - 1)
  }

  /** Any number of leading zeros in front of an accepted identifier is harmless. */
  lemma ParseIdLeadingZeros(z: nat, n: nat)
    requires n < ID_LIMIT
    ensures ParseId(Zeros(z) + Decimal(n)) == Some(n)
  {
    var d := Decimal(n);
    var s := Zeros(z) + d;
    ParseIdDecimal(n);
    DecimalValue(n);
    ZerosValue(z, d);
    StripZeros(z, d);
    assert ParseLong(s) == Some(n) by {
      assert IsDigit(s[0]);
      }
  }

  lemma {:induction false} ZerosValue(z: nat, d: string)
    requires AllDigits(d)
    ensures AllDigits(Zeros(z) + d)
    ensures DigitsValue(Zeros(z) + d) == DigitsValue(d)
  {
    if z > 0 {
      ZerosValue(z - 1, d);
      var rest := Zeros(z - 1) + d;
      assert Zeros(z) == "0" + Zeros(z - 1);
      assert Zeros(z) + d == "0" + rest;
      ZeroPrefixValue(rest);
    } else {
      assert Zeros(z) + d == d;
    }
  }

  lemma {:induction false} StripZeros(z: nat, d: string)
    requires |d| > 0 && (|d| > 1 ==> d[0] != '0')
    ensures StripLeadingZeros(Zeros(z) + d) == d
  {
    if z > 0 {
      var rest := Zeros(z - 1) + d;
      assert Zeros(z) == "0" + Zeros(z - 1);
      assert Zeros(z) + d == "0" + rest;
      assert ("0" + rest)[1..] == rest;
      StripZeros(z - 1, d);
    } else {
      assert Zeros(z) + d == d;
    }
  }

  /**
   * What `Double.parseDouble` yields: a finite decimal `unscaled * 10^exponent`,
   * NaN, or an infinity.
   */
  datatype Double = Finite(unscaled: int, exponent: int) | NaN | Infinite(negative: bool)

  /**
   * Java's `value <= 0` on a double: false for NaN, true for negative
   * infinity and for finite values not above zero.
   */
  predicate AtMostZero(d: Double)
  {
    match d
    case Finite(unscaled, _) => unscaled <= 0
    case NaN => false
    case Infinite(negative) => negative
  }

  /** Index of the first occurrence of `c` in `s`, or |s| when there is none. */
  function IndexOf(s: string, c: char): (i: nat)
    ensures i <= |s|
    ensures forall k :: 0 <= k < i ==> s[k] != c
    ensures i < |s| ==> s[i] == c
  {
    if s == [] then 0 else if s[0] == c then 0 else 1 + IndexOf(s[1..], c)
  }

  /**
   * Digits, optionally split by one '.', with at least one digit in all; the
   * result is the digits as one number and minus the count of fraction digits.
   */
  function ParseMantissa(m: string): Option<(nat, int)>
  {
    var p := IndexOf(m, '.');
    var whole := m[..p];
    var frac := if p < |m| then m[p + 1..] else [];
    if |whole| + |frac| > 0 && AllDigits(whole) && AllDigits(frac) then
      Some((DigitsValue(whole + frac), -|frac|))
    else None
  }

  /**
   * The exponent of a decimal: an optional '+' or '-' and at least one
   * digit. Java reads exponents of any size; one too large in magnitude
   * makes the value round to zero or to infinity.
   */
  function ParseExponent(s: string): Option<int>
  {
    var signed := |s| > 0 && (s[0] == '+' || s[0] == '-');
    var digits := if signed then s[1..] else s;
    if |digits| > 0 && AllDigits(digits) then
      var v: int := DigitsValue(digits);
      Some(if signed && s[0] == '-' then -v else v)
    else None
  }

  /** The exponent reader accepts what the integer reader accepts, as the same value, whatever the range. */
  lemma ParseExponentAgrees(s: string, lo: int, hi: int)
    ensures ParseInteger(s, lo, hi).Some? ==> ParseExponent(s) == ParseInteger(s, lo, hi)
    ensures ParseExponent(s).None? ==> ParseInteger(s, lo, hi).None?
  {
  }

  /** A mantissa with an optional exponent `e`/`E` followed by a signed integer. */
  function ParseUnsignedDecimal(b: string): Option<(nat, int)>
  {
    var e := if IndexOf(b, 'e') < IndexOf(b, 'E') then IndexOf(b, 'e') else IndexOf(b, 'E');
    match ParseMantissa(b[..e])
    case None => None
    case Some(m) =>
      if e == |b| then Some(m)
      else
        match ParseExponent(b[e + 1..])
        case None => None
        case Some(x) => Some((m.0, m.1 + x))
  }

  /** 2^1075: twice this is the reciprocal of the least positive double. */
  const TWO_TO_1075: nat := 404804506614621236704990693437834614099113299528284236713802716054860679135990693783920767402874248990374155728633623822779617474771586953734026799881477019843034848553132722728933815484186432682479535356945490137124014966849385397236206711298319112681620113024717539104666829230461005064372655017292012526615415482186989568

  /** 2^1024 - 2^970, halfway between the largest double and 2^1024. */
  const OVERFLOW_THRESHOLD: nat := 179769313486231580793728971405303415079934132710037826936173778980444968292764750946649017977587207096330286416692887910946555547851940402630657488671505820681908902000708383676273854845817711531764475730270069855571366959622842914819860834936475292719074168444365510704342711559699508093042880177904174497792

  /**
   * A nonzero `unscaled * 10^exponent` of at most 2^-1075, half the least
   * positive double: the nearest double, ties to even, is zero.
   */
  predicate Underflows(unscaled: nat, exponent: int)
  {
    0 < unscaled && exponent < 0 && unscaled * TWO_TO_1075 <= Pow10(-exponent)
  }

  /**
   * A nonzero `unscaled * 10^exponent` of at least `OVERFLOW_THRESHOLD`: the
   * nearest double, ties to even, is 2^1024, that is infinity.
   */
  predicate Overflows(unscaled: nat, exponent: int)
  {
    && 0 < unscaled
    && if exponent >= 0 then unscaled * Pow10(exponent) >= OVERFLOW_THRESHOLD
       else unscaled >= OVERFLOW_THRESHOLD * Pow10(-exponent)
  }

  /**
   * Rounding the exact decimal `±unscaled * 10^exponent` to a double, as far
   * as the controllers can tell: too large becomes an infinity, too small
   * becomes zero, and anything else keeps its exact value.
   */
  function Round(negative: bool, unscaled: nat, exponent: int): Double
  {
    if Overflows(unscaled, exponent) then Infinite(negative)
    else if Underflows(unscaled, exponent) then Finite(0, 0)
    else
      var u: int := unscaled;
      Finite(if negative then -u else u, exponent)
  }

  /**
   * A rounded decimal fails `value <= 0`, that is it counts as a positive
   * amount, exactly when it is positive and does not round to zero.
   */
  lemma RoundAtMostZero(negative: bool, unscaled: nat, exponent: int)
    ensures AtMostZero(Round(negative, unscaled, exponent)) <==>
              negative || unscaled == 0 || Underflows(unscaled, exponent)
  {
  }

  /**
   * `Double.parseDouble` on trimmed text, for the decimal forms: an optional
   * sign, then "NaN", "Infinity", or a decimal number with optional fraction,
   * exponent and type suffix (f, F, d, D). The value is rounded to zero or
   * to an infinity where Java's rounding does so; otherwise it is kept as
   * the exact decimal.
   */
  function ParseDouble(s: string): (r: Option<Double>)
    ensures r.Some? && !r.value.NaN? && |s| > 0 && s[0] == '-' ==> AtMostZero(r.value)
  {
    var negative := |s| > 0 && s[0] == '-';
    var body := if |s| > 0 && (s[0] == '+' || s[0] == '-') then s[1..] else s;
    if body == "NaN" then Some(NaN)
    else if body == "Infinity" then Some(Infinite(negative))
    else
      var digits := if |body| > 0 && body[|body| - 1] in "fFdD" then body[..|body| - 1] else body;
      match ParseUnsignedDecimal(digits)
      case None => None
      case Some(v) => Some(Round(negative, v.0, v.1))
  }

  lemma DigitsHaveNo(s: string, c: char)
    requires AllDigits(s) && !IsDigit(c)
    ensures IndexOf(s, c) == |s|
  {
  }

  /** A plain digit string is read as its value by the decimal reader. */
  lemma DigitsAsDecimal(s: string)
    requires |s| > 0 && AllDigits(s)
    ensures ParseUnsignedDecimal(s) == Some((DigitsValue(s), 0))
  {
    DigitsHaveNo(s, '.');
    DigitsHaveNo(s, 'e');
    DigitsHaveNo(s, 'E');
    assert s[..|s|] == s && s + [] == s;
  }

  /**
   * Plain digits are read as their value, and a nonzero value passes the
   * `> 0` check.
   */
  lemma ParseDoubleDigits(s: string)
    requires |s| > 0 && AllDigits(s)
    ensures ParseDouble(s) == Some(Round(false, DigitsValue(s), 0))
    ensures DigitsValue(s) < OVERFLOW_THRESHOLD ==> ParseDouble(s) == Some(Finite(DigitsValue(s), 0))
    ensures DigitsValue(s) > 0 <==> !AtMostZero(ParseDouble(s).value)
  {
    assert IsDigit(s[0]) && IsDigit(s[|s| - 1]);
    assert !(s[0] == '+' || s[0] == '-');
    assert s != "NaN" by { assert "NaN"[0] == 'N'; }
    assert s != "Infinity" by { assert "Infinity"[0] == 'I'; }
    assert s[|s| - 1] !in "fFdD";
    DigitsAsDecimal(s);
    RoundAtMostZero(false, DigitsValue(s), 0);
  }

  /** "NaN" passes the `value <= 0` check: Java accepts it as a positive amount. */
  lemma NaNIsNotAtMostZero()
    ensures ParseDouble("NaN") == Some(NaN)
    ensures !AtMostZero(ParseDouble("NaN").value)
  {
  }
}
