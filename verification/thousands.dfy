/** Python's `f"{n:,}"` on the non-negative counts the KPI cards show: the
    decimal digits of `n` with a comma before every group of three digits
    counted from the right. */
module ThousandsFormat {

  predicate IsDigit(c: char)
  {
    '0' <= c <= '9'
  }

  predicate AllDigits(s: string)
  {
    forall i :: 0 <= i < |s| ==> IsDigit(s[i])
  }

  function DigitChar(d: nat): (c: char)
    requires d < 10
    ensures IsDigit(c) && (c - '0') as int == d
  {
    (d + '0' as int) as char
  }

  /** `str(n)`: the shortest decimal numeral of `n`. */
  function Decimal(n: nat): (s: string)
    ensures 1 <= |s| && AllDigits(s)
    ensures s[0] == '0' ==> n == 0 && s == "0"
  {
    if n < 10 then [DigitChar(n)] else Decimal(n / 10) + [DigitChar(n % 10)]
  }

  /** The number a string of digits denotes. */
  function Value(s: string): nat
    requires AllDigits(s)
  {
    if s == [] then 0 else Value(s[..|s| - 1]) * 10 + (s[|s| - 1] - '0') as int
  }

  /** Three digits with leading zeros: every group after the first. */
  function ThreeDigits(k: nat): (s: string)
    requires k < 1000
    ensures |s| == 3 && AllDigits(s)
  {
    [DigitChar(k / 100), DigitChar(k / 10 % 10), DigitChar(k % 10)]
  }

  /** `f"{n:,}"`: groups of exactly three digits from the right separated by
      commas, one to three digits in the leftmost group; a comma appears
      exactly when `n` reaches 1000, and removing the commas leaves `str(n)`. */
  function WithCommas(n: nat): (s: string)
    ensures GroupedByThousands(s)
    ensures ',' in s <==> n >= 1000
    ensures RemoveCommas(s) == Decimal(n)
  {
    if n < 1000 then
      SmallNumber(n);
      Decimal(n)
    else
      var head := WithCommas(n / 1000);
      AppendGroup(n, head);
      head + "," + ThreeDigits(n % 1000)
  }

  function RemoveCommas(s: string): (r: string)
    ensures ',' !in r
  {
    if s == [] then []
    else (if s[0] == ',' then [] else [s[0]]) + RemoveCommas(s[1..])
  }

  /** The shape of a grouped numeral: without a comma it is one group of
      one to three digits; otherwise it ends in a comma and exactly three
      digits, and what precedes that comma has the same shape. */
  predicate GroupedByThousands(s: string)
    decreases |s|
  {
    if ',' !in s then 1 <= |s| <= 3 && AllDigits(s)
    else |s| >= 5 && s[|s| - 4] == ',' && AllDigits(s[|s| - 3..]) && GroupedByThousands(s[..|s| - 4])
  }

  // ---------------------------------------------------------------------
  // Lemmas
  // ---------------------------------------------------------------------

  /** Reading the numeral back gives the number. */
  lemma {:induction false} DecimalRoundTrip(n: nat)
    ensures Value(Decimal(n)) == n
  {
    if n >= 10 {
      DecimalRoundTrip(n / 10);
      var s := Decimal(n);
      assert s[..|s| - 1] == Decimal(n / 10);
    }
  }

  lemma {:induction false} RemoveCommasConcat(a: string, b: string)
    ensures RemoveCommas(a + b) == RemoveCommas(a) + RemoveCommas(b)
  {
    if a != [] {
      var ab := a + b;
      assert ab[0] == a[0] && ab[1..] == a[1..] + b;
      RemoveCommasConcat(a[1..], b);
      assert RemoveCommas(ab) == (if a[0] == ',' then [] else [a[0]]) + RemoveCommas(a[1..] + b);
    } else {
      assert a + b == b;
    }
  }

  lemma {:induction false} RemoveCommasOfDigits(s: string)
    requires AllDigits(s)
    ensures RemoveCommas(s) == s
  {
    if s != [] {
      RemoveCommasOfDigits(s[1..]);
    }
  }

  /** Splitting off the last three digits of a number of four or more digits. */
  lemma DecimalSplit(n: nat)
    requires n >= 1000
    ensures Decimal(n) == Decimal(n / 1000) + ThreeDigits(n % 1000)
  {
    var q, r := n / 1000, n % 1000;
    assert n / 10 == 100 * q + r / 10;
    assert n / 100 == 10 * q + r / 100;
    assert n / 10 / 10 == n / 100;
    assert n / 100 / 10 == q;
    assert Decimal(n / 100) == Decimal(q) + [DigitChar(n / 100 % 10)];
    assert Decimal(n / 10) == Decimal(n / 100) + [DigitChar(n / 10 % 10)];
    assert n / 100 % 10 == r / 100;
    assert n / 10 % 10 == r / 10 % 10;
    assert n % 10 == r % 10;
  }

  /** Below 1000 the numeral is one group of one to three digits. */
  lemma SmallNumber(n: nat)
    requires n < 1000
    ensures GroupedByThousands(Decimal(n)) && ',' !in Decimal(n)
    ensures RemoveCommas(Decimal(n)) == Decimal(n)
  {
    var s := Decimal(n);
    assert forall i :: 0 <= i < |s| ==> s[i] != ',';
    if n >= 10 {
      assert |Decimal(n / 10)| <= 2 by {
        if n / 10 >= 10 { assert n / 10 / 10 < 10; }
      }
    }
    RemoveCommasOfDigits(s);
  }

  /** Appending a comma and the last three digits to the grouped numeral of
      `n / 1000` gives the grouped numeral of `n`. */
  lemma AppendGroup(n: nat, head: string)
    requires n >= 1000
    requires GroupedByThousands(head) && RemoveCommas(head) == Decimal(n / 1000)
    ensures var s := head + "," + ThreeDigits(n % 1000);
      GroupedByThousands(s) && ',' in s && RemoveCommas(s) == Decimal(n)
  {
    var tail := ThreeDigits(n % 1000);
    var s := head + "," + tail;
    assert s[|head|] == ',';
    assert s[..|s| - 4] == head;
    assert s[|s| - 3..] == tail;
    GroupedLength(head);
    RemoveCommasConcat(head + ",", tail);
    RemoveCommasConcat(head, ",");
    assert RemoveCommas(",") == [];
    RemoveCommasOfDigits(tail);
    DecimalSplit(n);
  }

  /** The displayed KPI reads back as the count it shows. */
  lemma CommasRemovedIsDecimal(n: nat)
    ensures Value(RemoveCommas(WithCommas(n))) == n
  {
    DecimalRoundTrip(n);
  }

  lemma {:induction false} GroupedLength(s: string)
    requires GroupedByThousands(s)
    ensures |s| >= 1
  {
  }
}
