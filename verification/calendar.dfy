/**
 Calendar values as the sales dashboard uses them: order timestamps, the
 calendar date of a timestamp (`.dt.date`), the month it falls in
 (`.dt.to_period("M")`), adding whole months to a month start
 (`pd.DateOffset(months=i)`), and the `"%Y-%m"` label of a month.
 */
module Calendar {
  import opened Options
  import Ordering

  type MonthNumber = m: int | 1 <= m <= 12 witness 1
  type DayNumber = d: int | 1 <= d <= 31 witness 1
  type SecondOfDay = s: int | 0 <= s < 86400 witness 0

  datatype Date = Date(year: nat, month: MonthNumber, day: DayNumber)

  /** A point in time at one-second resolution: a date and the seconds since its midnight. */
  datatype Timestamp = Timestamp(date: Date, second: SecondOfDay)

  /** A calendar month, standing for the timestamp of its first midnight. */
  datatype Month = Month(year: nat, month: MonthNumber)

  /** Chronological order of dates. */
  predicate DateLess(a: Date, b: Date) {
    || a.year < b.year
    || (a.year == b.year && a.month < b.month)
    || (a.year == b.year && a.month == b.month && a.day < b.day)
  }

  /** Chronological order of timestamps, non-strict (pandas `<=` on timestamps). */
  predicate TimestampLessEq(a: Timestamp, b: Timestamp) {
    DateLess(a.date, b.date) || (a.date == b.date && a.second <= b.second)
  }

  lemma TimestampLessEqTransitive(a: Timestamp, b: Timestamp, c: Timestamp)
    ensures TimestampLessEq(a, b) && TimestampLessEq(b, c) ==> TimestampLessEq(a, c)
  {
  }

  /** Chronological order of months. */
  predicate MonthLess(a: Month, b: Month) {
    a.year < b.year || (a.year == b.year && a.month < b.month)
  }

  /** `pd.Timestamp(d)` of a picked calendar date: its midnight. */
  function Midnight(d: Date): (t: Timestamp)
    ensures t.date == d
    ensures forall u: Timestamp :: u.date == d ==> TimestampLessEq(t, u)
  {
    Timestamp(d, 0)
  }

  /** `.dt.date`: the calendar day of a timestamp. */
  function DateOf(t: Timestamp): Date {
    t.date
  }

  /** `.dt.to_period("M").dt.to_timestamp()`: the month a timestamp falls in. */
  function MonthOf(t: Timestamp): (m: Month)
    ensures m.year == t.date.year && m.month == t.date.month
  {
    Month(t.date.year, t.date.month)
  }

  /** Months counted from January of year 0. */
  function MonthIndex(m: Month): nat {
    m.year * 12 + (m.month - 1)
  }

  function MonthAtIndex(n: nat): (m: Month)
    ensures MonthIndex(m) == n
  {
    Month(n / 12, n % 12 + 1)
  }

  /** `month + pd.DateOffset(months=i)` for a month start. */
  function AddMonths(m: Month, i: nat): (r: Month)
    ensures MonthIndex(r) == MonthIndex(m) + i
  {
    MonthAtIndex(MonthIndex(m) + i)
  }

  lemma MonthIndexInjective(a: Month, b: Month)
    requires MonthIndex(a) == MonthIndex(b)
    ensures a == b
  {
    assert a.month - 1 == MonthIndex(a) % 12;
    assert b.month - 1 == MonthIndex(b) % 12;
  }

  /** Month order is the order of month indices. */
  lemma MonthLessByIndex(a: Month, b: Month)
    ensures MonthLess(a, b) <==> MonthIndex(a) < MonthIndex(b)
  {
  }

  /** Adding months past December rolls over into the next year. */
  lemma AddMonthsRollsOver(m: Month, i: nat)
    ensures m.month + i <= 12 ==> AddMonths(m, i) == Month(m.year, m.month + i)
    ensures m.month + i > 12 && i <= 12 ==> AddMonths(m, i) == Month(m.year + 1, m.month + i - 12)
  {
    var r := AddMonths(m, i);
    if m.month + i <= 12 {
      MonthIndexInjective(r, Month(m.year, m.month + i));
    } else if i <= 12 {
      MonthIndexInjective(r, Month(m.year + 1, m.month + i - 12));
    }
  }

  /** Later offsets give later months. */
  lemma AddMonthsMonotone(m: Month, i: nat, j: nat)
    ensures MonthLess(AddMonths(m, i), AddMonths(m, j)) <==> i < j
  {
    MonthLessByIndex(AddMonths(m, i), AddMonths(m, j));
  }

  lemma DateLessIsStrictTotal()
    ensures Ordering.StrictTotalOrder(DateLess)
  {
  }

  lemma MonthLessIsStrictTotal()
    ensures Ordering.StrictTotalOrder(MonthLess)
  {
  }

  // ---------------------------------------------------------------------------
  // "%Y-%m" labels

  function DigitChar(d: nat): (c: char)
    requires d < 10
    ensures '0' <= c <= '9'
  {
    ('0' as int + d) as char
  }

  predicate IsDigit(c: char) {
    '0' <= c <= '9'
  }

  predicate AllDigits(s: string) {
    forall i :: 0 <= i < |s| ==> IsDigit(s[i])
  }

  /** The value of a string of decimal digits (most significant first). */
  function DigitsValue(s: string): nat
    requires AllDigits(s)
    decreases |s|
  {
    if |s| == 0 then 0
    else DigitsValue(s[..|s| - 1]) * 10 + (s[|s| - 1] as int - '0' as int)
  }

  /** The decimal spelling of `n`, without leading zeros. */
  function NatDigits(n: nat): (s: string)
    ensures |s| >= 1 && AllDigits(s)
    ensures n < 10 ==> |s| == 1
    ensures n < 100 ==> |s| <= 2
    ensures n < 1000 ==> |s| <= 3
    ensures n < 10000 ==> |s| <= 4
    decreases n
  {
    if n < 10 then [DigitChar(n)] else NatDigits(n / 10) + [DigitChar(n % 10)]
  }

  /** `s` preceded by as many `'0'` as make it `width` long. */
  function PadZeros(s: string, width: nat): (r: string)
    ensures |r| >= width && |r| >= |s|
    ensures |s| <= width ==> |r| == width
    ensures AllDigits(s) ==> AllDigits(r)
    decreases width - |s|
  {
    if |s| >= width then s else PadZeros(['0'] + s, width)
  }

  /** Seven characters: four digits, a dash, two digits. */
  predicate IsYearMonthShape(s: string) {
    |s| == 7 && AllDigits(s[..4]) && s[4] == '-' && AllDigits(s[5..])
  }

  /**
   `strftime("%Y-%m")` of a month: the year padded to four digits, a dash,
   the two-digit month. Every year a timestamp can carry is below 10000, and
   then the label is exactly "YYYY-MM".
   */
  function MonthLabel(m: Month): (s: string)
    ensures |s| >= 7 && s[|s| - 3] == '-'
    ensures m.year < 10000 ==> IsYearMonthShape(s)
  {
    PadZeros(NatDigits(m.year), 4) + "-" + [DigitChar(m.month / 10), DigitChar(m.month % 10)]
  }

  /** Reads a `"%Y-%m"` label back; `None` for anything that is not one. */
  function ParseMonthLabel(s: string): (r: Option<Month>)
    ensures r.Some? ==> |s| >= 7 && s[|s| - 3] == '-'
  {
    if |s| < 7 || s[|s| - 3] != '-' then None
    else
      var y := s[..|s| - 3];
      var mm := s[|s| - 2..];
      if !AllDigits(y) || !AllDigits(mm) then None
      else
        var mv := DigitsValue(mm);
        if 1 <= mv <= 12 then Some(Month(DigitsValue(y), mv)) else None
  }

  lemma {:induction false} DigitsValueOfNat(n: nat)
    ensures DigitsValue(NatDigits(n)) == n
    decreases n
  {
    if n >= 10 {
      DigitsValueOfNat(n / 10);
      var s := NatDigits(n);
      assert s[..|s| - 1] == NatDigits(n / 10);
    }
  }

  lemma {:induction false} LeadingZeroIgnored(s: string)
    requires AllDigits(s)
    ensures AllDigits(['0'] + s) && DigitsValue(['0'] + s) == DigitsValue(s)
    decreases |s|
  {
    var z := ['0'] + s;
    if |s| > 0 {
      assert z[..|z| - 1] == ['0'] + s[..|s| - 1];
      LeadingZeroIgnored(s[..|s| - 1]);
    }
  }

  lemma {:induction false} PadZerosValue(s: string, width: nat)
    requires AllDigits(s)
    ensures DigitsValue(PadZeros(s, width)) == DigitsValue(s)
    decreases width - |s|
  {
    if |s| < width {
      LeadingZeroIgnored(s);
      PadZerosValue(['0'] + s, width);
    }
  }

  /** Every label reads back as the month it was made from. */
  lemma MonthLabelRoundTrip(m: Month)
    ensures ParseMonthLabel(MonthLabel(m)) == Some(m)
  {
    var s := MonthLabel(m);
    var ys := PadZeros(NatDigits(m.year), 4);
    assert s[..|s| - 3] == ys;
    var mm := s[|s| - 2..];
    assert mm == [DigitChar(m.month / 10), DigitChar(m.month % 10)];
    assert mm[..1] == [DigitChar(m.month / 10)];
    assert mm[..1][..0] == [];
    assert DigitsValue(mm[..1]) == m.month / 10;
    assert DigitsValue(mm) == m.month;
    PadZerosValue(NatDigits(m.year), 4);
    DigitsValueOfNat(m.year);
  }

  /** Distinct months never share a label. */
  lemma MonthLabelInjective(a: Month, b: Month)
    requires MonthLabel(a) == MonthLabel(b)
    ensures a == b
  {
    MonthLabelRoundTrip(a);
    MonthLabelRoundTrip(b);
  }
}
