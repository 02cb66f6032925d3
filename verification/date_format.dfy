/** The `YYYY-MM-DD HH:mm:ss` text form in which a caller-supplied manual
    date is stored (the `DATE_FORMAT` constant of the data-access layer and
    dayjs's `format` of it), together with a reader for that form. */
module DateFormat {
  import opened Wrappers

  type Month = m: int | 1 <= m <= 12 witness 1
  type Day = d: int | 1 <= d <= 31 witness 1
  type Hour = h: int | 0 <= h <= 23
  type Minute = m: int | 0 <= m <= 59
  type Second = s: int | 0 <= s <= 59

  /** A point in (local) time already broken into its calendar fields, as
      dayjs sees a JavaScript `Date`. */
  datatype DateTime = DateTime(year: nat, month: Month, day: Day, hour: Hour, minute: Minute, second: Second)

  predicate IsDigit(c: char) {
    '0' <= c <= '9'
  }

  predicate AllDigits(s: string) {
    forall i :: 0 <= i < |s| ==> IsDigit(s[i])
  }

  function DigitChar(d: int): (c: char)
    requires 0 <= d <= 9
    ensures IsDigit(c)
  {
    ('0' as int + d) as char
  }

  function Pow10(n: nat): (p: nat)
    ensures p >= 1
  {
    if n == 0 then 1 else 10 * Pow10(n - 1)
  }

  /** The number a string of decimal digits denotes. */
  function ValueOf(s: string): nat
    requires AllDigits(s)
  {
    if |s| == 0 then 0 else ValueOf(s[..|s| - 1]) * 10 + (s[|s| - 1] as int - '0' as int)
  }

  /** The low `width` decimal digits of `n`, padded with leading zeros. */
  function Digits(n: nat, width: nat): (s: string)
    ensures |s| == width
    ensures AllDigits(s)
    ensures n < Pow10(width) ==> ValueOf(s) == n
  {
    if width == 0 then ""
    else
      var s := Digits(n / 10, width - 1) + [DigitChar(n % 10)];
      assert s[..|s| - 1] == Digits(n / 10, width - 1);
      s
  }

  /** How many decimal digits `n` is written with (at least one). */
  function DigitCount(n: nat): (k: nat)
    ensures k >= 1
    ensures n < Pow10(k)
  {
    if n < 10 then 1 else 1 + DigitCount(n / 10)
  }

  lemma {:induction false} DigitCountBound(n: nat, k: nat)
    requires k >= 1
    ensures DigitCount(n) <= k <==> n < Pow10(k)
    decreases k
  {
    if n >= 10 && k > 1 {
      DigitCountBound(n / 10, k - 1);
    }
  }

  /** The year as dayjs's `YYYY` token writes it: its decimal digits, padded
      on the left with zeros to at least four. */
  function YearText(year: nat): (s: string)
    ensures AllDigits(s)
    ensures |s| >= 4
    ensures |s| == 4 <==> year < 10000
    ensures |s| == if year < 10000 then 4 else DigitCount(year)
    ensures ValueOf(s) == year
  {
    DigitCountBound(year, 4);
    Digits(year, if DigitCount(year) < 4 then 4 else DigitCount(year))
  }

  /** The shape of a stored manual date: the year's digits (at least four),
      then `-MM-DD HH:mm:ss`, so the last fifteen characters are `-` at 0
      and 3, a space at 6, `:` at 9 and 12, and decimal digits elsewhere. */
  predicate IsDateTimeText(s: string) {
    && |s| >= 19
    && var n := |s| - 15;
    && s[n] == '-' && s[n + 3] == '-' && s[n + 6] == ' ' && s[n + 9] == ':' && s[n + 12] == ':'
    && AllDigits(s[..n]) && AllDigits(s[n + 1..n + 3]) && AllDigits(s[n + 4..n + 6])
    && AllDigits(s[n + 7..n + 9]) && AllDigits(s[n + 10..n + 12]) && AllDigits(s[n + 13..])
  }

  /** Reads back a `YYYY-MM-DD HH:mm:ss` text; absent when the text does not
      have that shape or a field is out of range. */
  function Parse(s: string): (r: Option<DateTime>)
    ensures r.Some? ==> IsDateTimeText(s)
  {
    if !IsDateTimeText(s) then None
    else
      var n := |s| - 15;
      var y := ValueOf(s[..n]);
      var mo := ValueOf(s[n + 1..n + 3]);
      var d := ValueOf(s[n + 4..n + 6]);
      var h := ValueOf(s[n + 7..n + 9]);
      var mi := ValueOf(s[n + 10..n + 12]);
      var se := ValueOf(s[n + 13..]);
      if 1 <= mo <= 12 && 1 <= d <= 31 && h <= 23 && mi <= 59 && se <= 59 then
        Some(DateTime(y, mo, d, h, mi, se))
      else None
  }

  /** `a`, then the separator `c`, then `b`. */
  function Glue(a: string, c: char, b: string): (s: string)
    ensures |s| == |a| + 1 + |b|
    ensures s[..|a|] == a && s[|a|] == c && s[|a| + 1..] == b
  {
    a + [c] + b
  }

  /** Where each field and separator of a `YYYY-MM-DD HH:mm:ss` text sits,
      for a year field of any width. */
  lemma Layout(y: string, mo: string, da: string, h: string, mi: string, se: string)
    requires |mo| == 2 && |da| == 2 && |h| == 2 && |mi| == 2 && |se| == 2
    ensures var s := Glue(y, '-', Glue(mo, '-', Glue(da, ' ', Glue(h, ':', Glue(mi, ':', se)))));
      var n := |y|;
      && |s| == n + 15
      && s[..n] == y && s[n + 1..n + 3] == mo && s[n + 4..n + 6] == da
      && s[n + 7..n + 9] == h && s[n + 10..n + 12] == mi && s[n + 13..] == se
      && s[n] == '-' && s[n + 3] == '-' && s[n + 6] == ' ' && s[n + 9] == ':' && s[n + 12] == ':'
  {
    var n := |y|;
    var r4 := Glue(mi, ':', se);
    var r3 := Glue(h, ':', r4);
    var r2 := Glue(da, ' ', r3);
    var r1 := Glue(mo, '-', r2);
    var s := Glue(y, '-', r1);
    assert s[n + 1..] == r1;
    assert s[n + 1..n + 3] == r1[..2];
    assert s[n + 3] == r1[2];
    assert s[n + 4..] == r2;
    assert s[n + 4..n + 6] == r2[..2];
    assert s[n + 6] == r2[2];
    assert s[n + 7..] == r3;
    assert s[n + 7..n + 9] == r3[..2];
    assert s[n + 9] == r3[2];
    assert s[n + 10..] == r4;
    assert s[n + 10..n + 12] == r4[..2];
    assert s[n + 12] == r4[2];
    assert s[n + 13..] == r4[3..];
  }

  /** `dayjs(date).format('YYYY-MM-DD HH:mm:ss')`. */
  function Format(d: DateTime): (s: string)
    ensures |s| == 19 <==> d.year < 10000
    ensures IsDateTimeText(s) && Parse(s) == Some(d)
    ensures s[..|s| - 15] == YearText(d.year)
  {
    var y := YearText(d.year);
    var mo := Digits(d.month, 2);
    var da := Digits(d.day, 2);
    var h := Digits(d.hour, 2);
    var mi := Digits(d.minute, 2);
    var se := Digits(d.second, 2);
    Layout(y, mo, da, h, mi, se);
    Glue(y, '-', Glue(mo, '-', Glue(da, ' ', Glue(h, ':', Glue(mi, ':', se)))))
  }

  /** A JavaScript `Date` as dayjs sees it: a valid point in time, or an
      invalid `Date` (one whose time value is `NaN`), which is still an
      object and therefore truthy. */
  datatype DateValue = At(time: DateTime) | InvalidDate

  /** What dayjs's `format` writes for an invalid date. */
  const InvalidDateText: string := "Invalid Date"

  /** The value stored in `manual_date`: a present manual date formatted as
      above (an invalid one as dayjs's invalid-date text), a missing one
      stored as NULL. */
  function NormalizeManualDate(manualDate: Option<DateValue>): (r: Option<string>)
    ensures r.None? <==> manualDate.None?
    ensures manualDate.Some? && manualDate.value.At? ==>
              && IsDateTimeText(r.value) && Parse(r.value) == Some(manualDate.value.time)
              && (|r.value| == 19 <==> manualDate.value.time.year < 10000)
              && r.value[..|r.value| - 15] == YearText(manualDate.value.time.year)
    ensures manualDate == Some(InvalidDate) ==> r == Some(InvalidDateText) && Parse(r.value).None?
  {
    match manualDate
    case None => None
    case Some(At(d)) => Some(Format(d))
    case Some(InvalidDate) => Some(InvalidDateText)
  }

  lemma YearDigits2024()
    ensures Digits(2024, 4) == "2024"
  {
    assert Digits(2, 1) == "2";
    assert Digits(20, 2) == "20";
    assert Digits(202, 3) == "202";
  }

  lemma PaddedDigits()
    ensures Digits(0, 2) == "00" && Digits(1, 2) == "01" && Digits(3, 2) == "03"
  {
    assert Digits(0, 1) == "0";
    assert Digits(1, 1) == "1";
    assert Digits(3, 1) == "3";
  }

  /** A date given as `2024-03-01` (midnight) is stored as `2024-03-01 00:00:00`. */
  lemma MidnightExample()
    ensures Format(DateTime(2024, 3, 1, 0, 0, 0))
         == Glue("2024", '-', Glue("03", '-', Glue("01", ' ', Glue("00", ':', Glue("00", ':', "00")))))
  {
    YearDigits2024();
    PaddedDigits();
    assert YearText(2024) == "2024";
  }
}
