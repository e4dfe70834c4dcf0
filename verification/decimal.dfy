/** Decimal notation of integers: printing digits and parsing an optionally signed
    digit string. */
module Decimal {
  import opened Strings

  predicate IsDigit(c: char) { '0' <= c <= '9' }

  predicate AllDigits(s: string) {
    forall i :: 0 <= i < |s| ==> IsDigit(s[i])
  }

  function DigitValue(c: char): (d: nat)
    requires IsDigit(c)
    ensures d < 10
  {
    c as int - '0' as int
  }

  function DigitChar(d: nat): (c: char)
    requires d < 10
    ensures IsDigit(c) && DigitValue(c) == d
  {
    (d + '0' as int) as char
  }

  /** The decimal digits of `n`, most significant first, with no leading zero. */
  function Digits(n: nat): (r: string)
    ensures 1 <= |r| && AllDigits(r)
    ensures r[0] == '0' ==> n == 0
    decreases n
  {
    if n < 10 then [DigitChar(n)] else Digits(n / 10) + [DigitChar(n % 10)]
  }

  /** The value of a digit string (the empty string reads as 0). */
  function DigitsValue(s: string): nat
    requires AllDigits(s)
  {
    if s == [] then 0 else 10 * DigitsValue(s[..|s| - 1]) + DigitValue(s[|s| - 1])
  }

  /** A non-empty digit string, optionally preceded by one sign, as an integer; None
      for anything else. */
  function ParseInt(s: string): (r: Option<int>)
    ensures r.Some? <==> (|s| > 0 && AllDigits(s))
                         || (|s| > 1 && (s[0] == '-' || s[0] == '+') && AllDigits(s[1..]))
    ensures r.Some? && s[0] != '-' ==> r.value >= 0
    ensures r.Some? && s[0] == '-' ==> r.value <= 0
  {
    if |s| > 0 && (s[0] == '-' || s[0] == '+') then
      var body := s[1..];
      if |body| > 0 && AllDigits(body) then
        Some(if s[0] == '-' then -(DigitsValue(body) as int) else DigitsValue(body))
      else None
    else if |s| > 0 && AllDigits(s) then Some(DigitsValue(s))
    else None
  }

  /** Reading back the printed digits of `n` gives `n`. */
  lemma {:induction false} DigitsValueOfDigits(n: nat)
    ensures DigitsValue(Digits(n)) == n
    decreases n
  {
    if n >= 10 {
      var d := Digits(n / 10);
      assert (d + [DigitChar(n % 10)])[..|d|] == d;
      DigitsValueOfDigits(n / 10);
    }
  }

  /** Printing an integer (a minus sign, then the digits of its magnitude) and parsing
      it back is the identity. */
  lemma ParseIntOfDigits(n: int)
    ensures n >= 0 ==> ParseInt(Digits(n)) == Some(n)
    ensures n < 0 ==> ParseInt("-" + Digits(-n)) == Some(n)
  {
    if n >= 0 {
      DigitsValueOfDigits(n);
    } else {
      var s := "-" + Digits(-n);
      assert s[1..] == Digits(-n);
      DigitsValueOfDigits(-n);
    }
  }

  /** `k` zero digits. */
  function Zeros(k: nat): (r: string)
    ensures |r| == k && AllDigits(r)
  {
    seq(k, _ => '0')
  }

  /** Leading zeros add nothing to the value of a digit string. */
  lemma {:induction false} DigitsValueLeadingZeros(k: nat, s: string)
    requires AllDigits(s)
    ensures DigitsValue(Zeros(k) + s) == DigitsValue(s)
    decreases |s|, k
  {
    if s != [] {
      var z := Zeros(k) + s;
      assert z[..|z| - 1] == Zeros(k) + s[..|s| - 1];
      DigitsValueLeadingZeros(k, s[..|s| - 1]);
    } else if k > 0 {
      assert Zeros(k) + s == Zeros(k);
      assert Zeros(k)[..k - 1] == Zeros(k - 1) + [];
      DigitsValueLeadingZeros(k - 1, []);
    } else {
      assert Zeros(k) + s == [];
    }
  }

  /** A digit string reads as its value, after a `+` as well, and after a `-` as its
      negation. */
  lemma ParseIntSigned(sign: string, body: string)
    requires sign == "" || sign == "+" || sign == "-"
    requires |body| > 0 && AllDigits(body)
    ensures ParseInt(sign + body) == Some(if sign == "-" then -(DigitsValue(body) as int) else DigitsValue(body) as int)
  {
    if sign == "" {
      assert sign + body == body;
    } else {
      assert (sign + body)[1..] == body;
    }
  }

  /** The value read is that of the digits alone: any number of leading zeros and a
      leading `+` leave it unchanged, and a leading `-` negates it. */
  lemma ParseIntPadded(sign: string, k: nat, n: nat)
    requires sign == "" || sign == "+" || sign == "-"
    ensures ParseInt(sign + (Zeros(k) + Digits(n))) == Some(if sign == "-" then -(n as int) else n as int)
  {
    DigitsValueLeadingZeros(k, Digits(n));
    DigitsValueOfDigits(n);
    ParseIntSigned(sign, Zeros(k) + Digits(n));
  }
}
