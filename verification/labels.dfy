/** The chart's data labels (app.py lines 103 and 115): thousands-grouped integers,
    `f"{x:,}"`, and the same with a leading dollar sign, `f"${x:,.0f}"`. */
module Labels {
  import opened Strings
  import opened Decimal
  import opened Frame
  import opened Loader

  /** Three digits of `k`, with leading zeros. */
  function Pad3(k: nat): (r: string)
    requires k < 1000
    ensures |r| == 3 && AllDigits(r)
  {
    [DigitChar(k / 100), DigitChar(k / 10 % 10), DigitChar(k % 10)]
  }

  /** The digits of `n` with a comma before every group of three, counted from the
      right. */
  function GroupDigits(n: nat): string
    decreases n
  {
    if n < 1000 then Digits(n) else GroupDigits(n / 1000) + "," + Pad3(n % 1000)
  }

  /** `f"{x:,}"` on an integer: a minus sign when negative, then the grouped digits of
      the magnitude. Stripping `$` and `,` gives the plain decimal form, which parses
      back to `x`. */
  function ThousandsLabel(x: int): (r: string)
    ensures x >= 0 ==> WellGrouped(r)
    ensures x < 0 ==> |r| > 1 && r[0] == '-' && WellGrouped(r[1..])
    ensures StripCurrency(r) == (if x < 0 then "-" + Digits(-x) else Digits(x))
    ensures ParseInt(StripCurrency(r)) == Some(x)
  {
    ParseIntOfDigits(x);
    if x < 0 then
      GroupDigitsShape(-x);
      GroupDigitsStrip(-x);
      StripCurrencyConcat("-", GroupDigits(-x));
      StripCurrencyUnmarked([]);
      assert StripCurrency("-") == "-" + StripCurrency([]);
      assert ("-" + GroupDigits(-x))[1..] == GroupDigits(-x);
      "-" + GroupDigits(-x)
    else
      GroupDigitsShape(x);
      GroupDigitsStrip(x);
      GroupDigits(x)
  }

  /** `f"${x:,.0f}"` on a whole number of dollars: a `$` before the thousands label.
      The `$` is stripped again by the cleanup, which then reads back `x`. */
  function DollarsLabel(x: int): (r: string)
    ensures |r| > 0 && r[0] == '$' && r[1..] == ThousandsLabel(x)
    ensures x >= 0 ==> WellGrouped(r[1..])
    ensures x < 0 ==> |r| > 2 && r[1] == '-' && WellGrouped(r[2..])
    ensures StripCurrency(r) == StripCurrency(ThousandsLabel(x))
    ensures ParseInt(StripCurrency(r)) == Some(x)
  {
    StripCurrencyConcat("$", ThousandsLabel(x));
    assert StripCurrency("$") == [] + StripCurrency([]);
    assert ("$" + ThousandsLabel(x))[1..] == ThousandsLabel(x);
    "$" + ThousandsLabel(x)
  }

  /** One to three digits, then groups of a comma and exactly three digits. */
  predicate WellGrouped(s: string)
    decreases |s|
  {
    if |s| <= 3 then 1 <= |s| && AllDigits(s)
    else |s| >= 5 && s[|s| - 4] == ',' && AllDigits(s[|s| - 3..]) && WellGrouped(s[..|s| - 4])
  }

  /** The last three digits of `n` are those of `n % 1000`. */
  lemma DigitsSplit(n: nat)
    requires n >= 1000
    ensures Digits(n) == Digits(n / 1000) + Pad3(n % 1000)
  {
    var q, r := n / 1000, n % 1000;
    assert n == 1000 * q + r;
    assert n / 10 == 100 * q + r / 10;
    assert n / 100 == 10 * q + r / 100;
    assert n / 10 / 10 == n / 100;
    assert n / 100 / 10 == q;
    assert n / 10 % 10 == r / 10 % 10;
    assert n / 100 % 10 == r / 100;
    assert n % 10 == r % 10;
    assert Digits(n) == Digits(n / 10) + [DigitChar(n % 10)];
    assert Digits(n / 10) == Digits(n / 100) + [DigitChar(n / 10 % 10)];
    assert Digits(n / 100) == Digits(q) + [DigitChar(n / 100 % 10)];
  }

  /** A number below 1000 has at most three digits. */
  lemma ShortDigits(n: nat)
    requires n < 1000
    ensures |Digits(n)| <= 3
  {
    if n >= 10 {
      assert |Digits(n / 10)| <= 2 by {
        if n / 10 >= 10 {
          assert n / 10 / 10 < 10;
        }
      }
    }
  }

  /** Removing the commas from the grouped label gives back the plain digits. */
  lemma {:induction false} GroupDigitsStrip(n: nat)
    ensures StripCurrency(GroupDigits(n)) == Digits(n)
    decreases n
  {
    if n < 1000 {
      StripCurrencyUnmarked(Digits(n));
    } else {
      var head := GroupDigits(n / 1000);
      GroupDigitsStrip(n / 1000);
      StripCurrencyConcat(head + ",", Pad3(n % 1000));
      StripCurrencyConcat(head, ",");
      StripCurrencyUnmarked(Pad3(n % 1000));
      DigitsSplit(n);
    }
  }

  /** The grouped label has the thousands-grouped shape. */
  lemma {:induction false} GroupDigitsShape(n: nat)
    ensures WellGrouped(GroupDigits(n))
    decreases n
  {
    if n < 1000 {
      ShortDigits(n);
    } else {
      var head := GroupDigits(n / 1000);
      var s := head + "," + Pad3(n % 1000);
      assert GroupDigits(n) == s;
      GroupDigitsShape(n / 1000);
      assert |head| >= 1 && |s| == |head| + 4;
      assert s[|s| - 4] == ',';
      assert s[..|s| - 4] == head;
      assert s[|s| - 3..] == Pad3(n % 1000);
    }
  }

  /** Stripping a grouped string keeps at least one digit, and at least four exactly
      when there is a comma. */
  lemma {:induction false} WellGroupedStrip(s: string)
    requires WellGrouped(s)
    ensures |s| <= 3 ==> StripCurrency(s) == s
    ensures |s| > 3 ==> StripCurrency(s) == StripCurrency(s[..|s| - 4]) + s[|s| - 3..]
    ensures 1 <= |StripCurrency(s)| && (|s| <= 3 <==> |StripCurrency(s)| <= 3)
    decreases |s|
  {
    if |s| <= 3 {
      StripCurrencyUnmarked(s);
    } else {
      var head, tail := s[..|s| - 4], s[|s| - 3..];
      assert s == head + "," + tail;
      WellGroupedStrip(head);
      StripCurrencyConcat(head + ",", tail);
      StripCurrencyConcat(head, ",");
      StripCurrencyUnmarked(tail);
      assert StripCurrency(s) == StripCurrency(head) + tail;
    }
  }

  /** Only one grouped string has a given digit sequence, so the label is THE
      thousands grouping of the digits. */
  lemma {:induction false} WellGroupedUnique(a: string, b: string)
    requires WellGrouped(a) && WellGrouped(b)
    requires StripCurrency(a) == StripCurrency(b)
    ensures a == b
    decreases |a|
  {
    WellGroupedStrip(a);
    WellGroupedStrip(b);
    if |a| > 3 && |b| > 3 {
      var sa, sb := StripCurrency(a[..|a| - 4]), StripCurrency(b[..|b| - 4]);
      assert sa + a[|a| - 3..] == sb + b[|b| - 3..];
      assert |sa| == |sb|;
      assert sa == (sa + a[|a| - 3..])[..|sa|];
      assert sb == (sb + b[|b| - 3..])[..|sb|];
      assert a[|a| - 3..] == (sa + a[|a| - 3..])[|sa|..];
      assert b[|b| - 3..] == (sb + b[|b| - 3..])[|sb|..];
      WellGroupedUnique(a[..|a| - 4], b[..|b| - 4]);
      assert a == a[..|a| - 4] + "," + a[|a| - 3..];
      assert b == b[..|b| - 4] + "," + b[|b| - 3..];
    }
  }

  /** The start-up cleanup reads a dollar label back as the amount it shows. */
  lemma DollarsLabelRoundTrip(x: int, column: string, row: nat)
    ensures CleanCell(Text(DollarsLabel(x)), column, row) == Ok(Num(x))
  {
  }

  /** A non-negative label is exactly the thousands grouping of the digits of `x`:
      the grouped shape, and the digits back when the commas are removed. */
  lemma ThousandsLabelGrouped(x: nat, s: string)
    requires WellGrouped(s) && StripCurrency(s) == Digits(x)
    ensures ThousandsLabel(x) == s
  {
    GroupDigitsShape(x);
    GroupDigitsStrip(x);
    WellGroupedUnique(GroupDigits(x), s);
  }
}
