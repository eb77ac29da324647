/**
  The decimal numerals the reader converts with Python's `int()` and
  `float()`: an optional sign followed by ASCII digits, and for reals an
  optional fractional part after one point.
 */
module Numerals {
  import opened Wrappers

  predicate IsDigit(c: char) {
    '0' <= c <= '9'
  }

  predicate AllDigits(s: string) {
    forall i :: 0 <= i < |s| ==> IsDigit(s[i])
  }

  function DigitValue(c: char): nat
    requires IsDigit(c)
  {
    (c as int) - ('0' as int)
  }

  /** The value of a string of digits, most significant first (the empty string reads as 0). */
  function DigitsValue(s: string): nat
    requires AllDigits(s)
  {
    if |s| == 0 then 0 else DigitsValue(s[..|s| - 1]) * 10 + DigitValue(s[|s| - 1])
  }

  function Pow10(n: nat): (r: nat)
    ensures r >= 1
  {
    if n == 0 then 1 else 10 * Pow10(n - 1)
  }

  predicate IsSign(c: char) {
    c == '+' || c == '-'
  }

  /** Python's `int(s)` for a token: `None` where Python raises `ValueError`. */
  function ParseInt(s: string): (r: Option<int>)
    ensures r.Some? <==>
      (|s| > 0 && AllDigits(s)) || (|s| > 1 && IsSign(s[0]) && AllDigits(s[1..]))
    ensures r.Some? && |s| > 0 && s[0] == '-' ==> r.value <= 0
    ensures r.Some? && |s| > 0 && s[0] != '-' ==> r.value >= 0
  {
    if |s| > 0 && IsSign(s[0]) then
      var body := s[1..];
      if |body| > 0 && AllDigits(body) then
        var magnitude: int := DigitsValue(body);
        Some(if s[0] == '-' then -magnitude else magnitude)
      else None
    else if |s| > 0 && AllDigits(s) then Some(DigitsValue(s))
    else None
  }

  /** An unsigned decimal: digits, optionally a point and more digits, at least one digit in all. */
  function ParseUnsignedReal(s: string): (r: Option<real>)
    ensures r.Some? ==> |s| > 0 && r.value >= 0.0
  {
    var i := FirstPoint(s);
    if i < |s| then
      var whole, frac := s[..i], s[i + 1..];
      if AllDigits(whole) && AllDigits(frac) && |whole| + |frac| > 0 then
        Some(DigitsValue(whole) as real + FractionValue(frac))
      else None
    else if |s| > 0 && AllDigits(s) then Some(DigitsValue(s) as real)
    else None
  }

  /** The value of the digits after a point: the first one counts tenths, the next hundredths, and so on. */
  function FractionValue(f: string): (v: real)
    requires AllDigits(f)
    ensures 0.0 <= v < 1.0
  {
    if |f| == 0 then 0.0 else (DigitValue(f[0]) as real + FractionValue(f[1..])) / 10.0
  }

  /** The position of the first '.' of `s`, or `|s|` when there is none. */
  function FirstPoint(s: string): (i: nat)
    ensures i <= |s|
    ensures i < |s| ==> s[i] == '.'
    ensures forall j :: 0 <= j < i ==> s[j] != '.'
  {
    if |s| == 0 then 0
    else if s[0] == '.' then 0
    else 1 + FirstPoint(s[1..])
  }

  /** Python's `float(s)` for a token: `None` where Python raises `ValueError`. */
  function ParseReal(s: string): (r: Option<real>)
    ensures r.Some? ==> |s| > 0
    ensures r.Some? && |s| > 0 && s[0] == '-' ==> r.value <= 0.0
    ensures r.Some? && |s| > 0 && s[0] != '-' ==> r.value >= 0.0
  {
    if |s| > 0 && IsSign(s[0]) then
      match ParseUnsignedReal(s[1..])
      case Some(v) => Some(if s[0] == '-' then -v else v)
      case None => None
    else ParseUnsignedReal(s)
  }

  /** `float()` reads an integer numeral as the same number `int()` does. */
  lemma ParseRealOfInteger(s: string)
    requires ParseInt(s).Some?
    ensures ParseReal(s) == Some(ParseInt(s).value as real)
  {
    var body := if IsSign(s[0]) then s[1..] else s;
    assert AllDigits(body);
    assert forall i :: 0 <= i < |body| ==> body[i] != '.' by {
      forall i | 0 <= i < |body| ensures body[i] != '.' {
        assert IsDigit(body[i]);
      }
    }
  }

  /** The decimal numeral Python's `str()` writes for a non-negative integer. */
  function NaturalNumeral(n: nat): (s: string)
    ensures |s| > 0 && AllDigits(s)
  {
    var d := ['0' + ((n % 10) as char)];
    if n < 10 then d else NaturalNumeral(n / 10) + d
  }

  /** The decimal numeral Python's `str()` writes for an integer. */
  function IntNumeral(n: int): (s: string)
    ensures |s| > 0
    ensures AllDigits(s) || (s[0] == '-' && AllDigits(s[1..]))
  {
    if n < 0 then "-" + NaturalNumeral(-n) else NaturalNumeral(n)
  }

  lemma {:induction false} NaturalNumeralValue(n: nat)
    ensures DigitsValue(NaturalNumeral(n)) == n
  {
    var s := NaturalNumeral(n);
    if n >= 10 {
      NaturalNumeralValue(n / 10);
      assert s[..|s| - 1] == NaturalNumeral(n / 10);
    }
  }

  /** Every integer has a numeral that `int()` reads back as that integer. */
  lemma IntRoundTrip(n: int)
    ensures ParseInt(IntNumeral(n)) == Some(n)
  {
    if n < 0 {
      NaturalNumeralValue(-n);
      assert IntNumeral(n)[1..] == NaturalNumeral(-n);
    } else {
      NaturalNumeralValue(n);
    }
  }

  /**
    The unsigned numerals `float()` accepts here: digits, or digits, one point
    and digits with at least one digit in all.
   */
  predicate UnsignedDecimal(s: string) {
    || (|s| > 0 && AllDigits(s))
    || (exists i :: 0 <= i < |s| && s[i] == '.' && AllDigits(s[..i]) && AllDigits(s[i + 1..]) && |s| > 1)
  }

  /** `float()` accepts a token exactly when it is an unsigned decimal, optionally after one sign. */
  lemma ParseRealAccepts(s: string)
    ensures ParseReal(s).Some? <==>
      UnsignedDecimal(s) || (|s| > 0 && IsSign(s[0]) && UnsignedDecimal(s[1..]))
  {
    UnsignedAccepts(s);
    if |s| > 0 {
      UnsignedAccepts(s[1..]);
      if IsSign(s[0]) {
        assert !UnsignedDecimal(s) by {
          assert !IsDigit(s[0]);
        }
      }
    }
  }

  lemma UnsignedAccepts(s: string)
    ensures ParseUnsignedReal(s).Some? <==> UnsignedDecimal(s)
  {
    if exists i :: 0 <= i < |s| && s[i] == '.' {
      var p := FirstPoint(s);
      assert !AllDigits(s) by { assert !IsDigit(s[p]); }
      if UnsignedDecimal(s) {
        var i :| 0 <= i < |s| && s[i] == '.' && AllDigits(s[..i]) && AllDigits(s[i + 1..]) && |s| > 1;
        assert p == i;
      }
    }
  }

  /** In `n.f` with a digit string `n`, the first point follows `n`. */
  lemma PointAfterDigits(n: string, f: string)
    requires AllDigits(n)
    ensures var s := n + "." + f;
      FirstPoint(s) == |n| && s[..|n|] == n && s[|n| + 1..] == f
  {
    var s := n + "." + f;
    assert s[|n|] == '.';
    assert forall j :: 0 <= j < |n| ==> s[j] == n[j];
  }

  /** The value of the unsigned decimal `n.f`, where the digits `n` spell `w`. */
  lemma UnsignedDecimalValue(n: string, f: string, w: nat)
    requires AllDigits(n) && AllDigits(f) && |n| > 0 && DigitsValue(n) == w
    ensures ParseUnsignedReal(n + "." + f) == Some(w as real + FractionValue(f))
  {
    var s := n + "." + f;
    PointAfterDigits(n, f);
    var i := FirstPoint(s);
    var whole, frac := s[..i], s[i + 1..];
    assert whole == n && frac == f;
    assert AllDigits(whole) && AllDigits(frac) && |whole| + |frac| > 0;
  }

  /** A leading minus negates what `float()` reads from the rest. */
  lemma MinusReads(s: string, v: real)
    requires ParseUnsignedReal(s) == Some(v)
    ensures ParseReal("-" + s) == Some(-v)
  {
    assert ("-" + s)[1..] == s;
  }

  /** Without a sign `float()` reads the token as an unsigned decimal. */
  lemma UnsignedReads(s: string, v: real)
    requires ParseUnsignedReal(s) == Some(v) && !IsSign(s[0])
    ensures ParseReal(s) == Some(v)
  {
  }

  /** `float()` of `w.f` is `w` plus the fraction the digits `f` spell; a minus sign negates it. */
  lemma DecimalReads(w: nat, f: string)
    requires AllDigits(f)
    ensures ParseReal(NaturalNumeral(w) + "." + f) == Some(w as real + FractionValue(f))
    ensures ParseReal("-" + (NaturalNumeral(w) + "." + f)) == Some(-(w as real + FractionValue(f)))
  {
    var n := NaturalNumeral(w);
    NaturalNumeralValue(w);
    UnsignedDecimalValue(n, f, w);
    assert (n + "." + f)[0] == n[0];
    UnsignedReads(n + "." + f, w as real + FractionValue(f));
    MinusReads(n + "." + f, w as real + FractionValue(f));
  }

  /** The digits "060" after a point spell six hundredths. */
  lemma SixHundredths()
    ensures FractionValue("060") == 0.06
  {
    assert FractionValue("0") == 0.0;
    assert FractionValue("60") == 0.6;
  }

  /** A quality as MINDTCT writes it: "0.060" reads as 0.06. */
  lemma QualityExample()
    ensures ParseReal("0.060") == Some(0.06)
  {
    SixHundredths();
    assert "0.060" == "0" + "." + "060";
    UnsignedDecimalValue("0", "060", 0);
    UnsignedReads("0.060", 0.06);
  }

  /** A signed angle: "-12.5" reads as -12.5. */
  lemma SignedExample()
    ensures ParseReal("-12.5") == Some(-12.5)
  {
    assert FractionValue("5") == 0.5;
    assert DigitsValue("12") == 12;
    assert "12.5" == "12" + "." + "5";
    UnsignedDecimalValue("12", "5", 12);
    assert "-12.5" == "-" + "12.5";
    MinusReads("12.5", 12.5);
  }
}
