/** Python's `%d` rendering of an integer, and the reading that undoes it. */
module Decimal {
  import opened Outcomes
  import opened Characters

  function DigitChar(d: nat): (c: char)
    requires d < 10
    ensures IsDigit(c)
  {
    ['0', '1', '2', '3', '4', '5', '6', '7', '8', '9'][d]
  }

  function DigitValue(c: char): (d: nat)
    requires IsDigit(c)
    ensures d < 10 && DigitChar(d) == c
  {
    (c as int - '0' as int) as nat
  }

  /** Every character is a decimal digit. */
  predicate AllDigits(s: string) {
    forall i :: 0 <= i < |s| ==> IsDigit(s[i])
  }

  /** Decimal digits of `n`, most significant first, without leading zeros. */
  function FormatNat(n: nat): (s: string)
    ensures |s| >= 1
    ensures AllDigits(s)
    ensures s[0] == '0' <==> n == 0
    decreases n
  {
    if n < 10 then [DigitChar(n)]
    else FormatNat(n / 10) + [DigitChar(n % 10)]
  }

  /** `'%d' % n`: a minus sign before the digits of a negative number. */
  function FormatInt(n: int): (s: string)
    ensures |s| >= 1
    ensures n >= 0 ==> AllDigits(s)
    ensures n < 0 ==> s[0] == '-' && AllDigits(s[1..])
    ensures n >= 0 && |s| > 1 ==> s[0] != '0'
    ensures n < 0 ==> |s| >= 2 && s[1] != '0'
  {
    if n >= 0 then FormatNat(n) else "-" + FormatNat(-n)
  }

  /** The value of a string of decimal digits, most significant first. */
  function DigitsValue(s: string): nat
    requires AllDigits(s)
  {
    if |s| == 0 then 0
    else DigitsValue(s[..|s| - 1]) * 10 + DigitValue(s[|s| - 1])
  }

  /** Reads an optionally signed, non-empty string of decimal digits written
      the way `%d` writes them: no leading zero and no "-0". */
  function ParseInt(s: string): (r: Option<int>)
    ensures r.Some? ==> |s| >= 1
  {
    if |s| >= 2 && s[0] == '-' && s[1] != '0' && AllDigits(s[1..]) then Some(-(DigitsValue(s[1..]) as int))
    else if |s| >= 1 && (|s| == 1 || s[0] != '0') && AllDigits(s) then Some(DigitsValue(s))
    else None
  }

  lemma {:induction false} DigitsValueOfFormat(n: nat)
    ensures DigitsValue(FormatNat(n)) == n
    decreases n
  {
    var s := FormatNat(n);
    if n < 10 {
      assert s[..|s| - 1] == [];
    } else {
      DigitsValueOfFormat(n / 10);
      assert s[..|s| - 1] == FormatNat(n / 10);
      assert s[|s| - 1] == DigitChar(n % 10);
    }
  }

  /** Reading back what `%d` wrote yields the original integer. */
  lemma FormatIntRoundTrip(n: int)
    ensures ParseInt(FormatInt(n)) == Some(n)
  {
    var s := FormatInt(n);
    if n >= 0 {
      DigitsValueOfFormat(n);
      assert s[0] != '-';
    } else {
      DigitsValueOfFormat(-n);
      assert s[1..] == FormatNat(-n);
    }
  }

  lemma {:induction false} FormatOfDigitsValue(s: string)
    requires |s| >= 1 && AllDigits(s) && (|s| == 1 || s[0] != '0')
    ensures FormatNat(DigitsValue(s)) == s
    decreases |s|
  {
    var p := s[..|s| - 1];
    var c := s[|s| - 1];
    var d := DigitValue(c);
    if |p| == 0 {
      assert DigitsValue(p) == 0;
      assert s == [c];
    } else {
      assert AllDigits(p);
      assert p[0] == s[0];
      FormatOfDigitsValue(p);
      var v := DigitsValue(s);
      assert DigitsValue(p) != 0;
      assert v == DigitsValue(p) * 10 + d;
      assert v / 10 == DigitsValue(p) && v % 10 == d;
      assert s == p + [c];
    }
  }

  /** `ParseInt` accepts only what `%d` writes: any text it reads is the
      rendering of the integer it yields. */
  lemma ParseIntOnlyCanonical(s: string)
    ensures ParseInt(s).Some? ==> FormatInt(ParseInt(s).value) == s
  {
    if |s| >= 2 && s[0] == '-' && s[1] != '0' && AllDigits(s[1..]) {
      FormatOfDigitsValue(s[1..]);
      assert FormatNat(DigitsValue(s[1..])) != "0";
      assert s == "-" + s[1..];
    } else if |s| >= 1 && (|s| == 1 || s[0] != '0') && AllDigits(s) {
      FormatOfDigitsValue(s);
    }
  }

  /** Distinct integers are rendered differently. */
  lemma FormatIntInjective(m: int, n: int)
    ensures FormatInt(m) == FormatInt(n) ==> m == n
  {
    FormatIntRoundTrip(m);
    FormatIntRoundTrip(n);
  }
}
