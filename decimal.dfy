/** Python's `float()` on the strings the parser hands it, computed exactly over `real`.
    Every string reaching `float()` is a slice of a token made of digits and at most one '.',
    possibly followed by a hemisphere letter; on that alphabet `float()` succeeds exactly when the
    string is digits with at most one '.' and at least one digit. */
module Decimal {
  import opened Text
  import opened Results

  function DigitValue(c: char): (d: nat)
    requires IsDigit(c)
    ensures d <= 9
  {
    c as int - '0' as int
  }

  /** The value of a string of decimal digits; the empty string is 0. */
  function DigitsValue(s: string): nat
    requires AllDigits(s)
    decreases |s|
  {
    if s == [] then 0 else DigitsValue(s[..|s| - 1]) * 10 + DigitValue(s[|s| - 1])
  }

  function Pow10(n: nat): (p: nat)
    ensures p >= 1
  {
    if n == 0 then 1 else 10 * Pow10(n - 1)
  }

  /** Position of the first '.', or |s| when there is none. */
  function DotIndex(s: string): (i: nat)
    ensures i <= |s|
    ensures forall j :: 0 <= j < i ==> s[j] != '.'
    ensures i < |s| ==> s[i] == '.'
    ensures '.' !in s ==> i == |s|
  {
    if s == [] || s[0] == '.' then 0 else 1 + DotIndex(s[1..])
  }

  /** The strings over digits and '.' that `float()` accepts. */
  predicate IsDecimal(s: string) {
    AllNumeralChars(s) && AtMostOneDot(s) && HasDigit(s)
  }

  /** The digits before the point (all of them when there is none). */
  function WholePart(s: string): (w: string)
    requires IsDecimal(s)
    ensures AllDigits(w)
  {
    s[..DotIndex(s)]
  }

  /** The digits after the point (none when there is no point). */
  function FractionPart(s: string): (f: string)
    requires IsDecimal(s)
    ensures AllDigits(f)
  {
    var i := DotIndex(s);
    if i == |s| then []
    else
      var frac := s[i + 1..];
      assert forall j :: 0 <= j < |frac| ==> frac[j] == s[i + 1 + j];
      assert forall j :: i < j < |s| ==> s[j] != '.';
      frac
  }

  /** Integer part plus fraction part: "12.5" is 12 + 5/10. */
  function DecimalValue(s: string): (v: real)
    requires IsDecimal(s)
    ensures v >= 0.0
  {
    var f := FractionPart(s);
    DigitsValue(WholePart(s)) as real + DigitsValue(f) as real / Pow10(|f|) as real
  }

  /** `float(s)`; the refused string is carried in the ValueError. */
  function ParseFloat(s: string): (r: Result<real>)
    ensures r.Ok? <==> IsDecimal(s)
    ensures r.Ok? ==> r.value >= 0.0
    ensures r.Err? ==> r.error == ValueError(s)
  {
    if IsDecimal(s) then Ok(DecimalValue(s)) else Err(ValueError(s))
  }

  /** What `float()` accepts, it reads as the numeral's value. */
  lemma ParseFloatValue(s: string)
    requires IsDecimal(s)
    ensures ParseFloat(s) == Ok(DecimalValue(s))
  {
  }

  /** A plain numeral means what it says. */
  lemma {:induction false} ParseFloatDigits(ds: string)
    requires AllDigits(ds) && ds != []
    ensures ParseFloat(ds) == Ok(DigitsValue(ds) as real)
  {
    assert IsDigit(ds[0]);
    assert IsDecimal(ds);
    forall j | 0 <= j < |ds| ensures ds[j] != '.' {
      assert IsDigit(ds[j]);
    }
    assert '.' !in ds;
    assert ds[..|ds|] == ds;
  }

  /** A numeral with a decimal point is its whole part plus its fraction scaled by its length. */
  lemma {:induction false} ParseFloatFraction(whole: string, frac: string)
    requires AllDigits(whole) && AllDigits(frac) && whole + frac != []
    ensures ParseFloat(whole + "." + frac)
         == Ok(DigitsValue(whole) as real + DigitsValue(frac) as real / Pow10(|frac|) as real)
  {
    var s := whole + "." + frac;
    var n := |whole|;
    ThreeParts(whole, ".", frac);
    assert s[n] == '.';
    assert forall j :: 0 <= j < |s| && j != n ==> IsDigit(s[j]) by {
      forall j | 0 <= j < |s| && j != n ensures IsDigit(s[j]) {
        if j < n {
          assert s[j] == whole[j];
        } else {
          assert s[j] == frac[j - n - 1];
        }
      }
    }
    assert AllNumeralChars(s);
    assert AtMostOneDot(s);
    assert HasDigit(s) by {
      if whole != [] {
        assert IsDigit(s[0]);
      } else {
        assert IsDigit(s[n + 1]);
      }
    }
    assert DotIndex(s) == n;
    assert WholePart(s) == whole && FractionPart(s) == frac;
    ValueOfParts(s, whole, frac);
  }

  /** `float()` of a numeral is read off its two parts. */
  lemma ValueOfParts(s: string, whole: string, frac: string)
    requires IsDecimal(s) && WholePart(s) == whole && FractionPart(s) == frac
    ensures ParseFloat(s) == Ok(DigitsValue(whole) as real + DigitsValue(frac) as real / Pow10(|frac|) as real)
  {
  }

  /** The empty slice and a lone point are refused. */
  lemma ParseFloatRefusals()
    ensures ParseFloat("") == Err(ValueError(""))
    ensures ParseFloat(".") == Err(ValueError("."))
  {
    assert !HasDigit(".") by {
      assert !IsDigit("."[0]);
    }
  }
}
