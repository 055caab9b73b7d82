/**
 The calendar that toml.hpp's parse_date checks days against (lines 7925, 7939-7943), and which
 texts parse_date accepts, by the table of RFC 3339, section 5.7.
 */
module TomlCalendar {
  import opened Basics
  import opened Utf8
  import opened TomlText
  import opened TomlDateTimes

  // ---------------------------------------------------------------- the calendar

  const MONTH_DAYS := [31, 28, 31, 30, 31, 30, 31, 31, 30, 31, 30, 31]

  // The last day of a month, by the table: one more in February in leap years.
  function LastDay(year: nat, month: nat): nat
    requires 1 <= month <= 12
  {
    MONTH_DAYS[month - 1] + if month == 2 && LeapsBefore(year + 1) > LeapsBefore(year) then 1 else 0
  }

  // The leap years before a year: every fourth, without the centuries but with every fourth of those.
  function LeapsBefore(year: nat): int { (year + 3) / 4 - (year + 99) / 100 + (year + 399) / 400 }

  lemma LeapYearExactly(year: nat)
    ensures LeapsBefore(year + 1) == LeapsBefore(year) + if IsLeapYear(year) then 1 else 0
  {
    Counted(year, 4);
    Counted(year, 100);
    Counted(year, 400);
    assert year % 400 == 0 ==> year % 100 == 0 && year % 4 == 0 by { Multiples(year); }
    assert year % 100 == 0 ==> year % 4 == 0 by { Multiples(year); }
  }

  // The multiples of n below a number.
  lemma Counted(year: nat, n: nat)
    requires n > 0
    ensures (year + n) / n == (year + n - 1) / n + if year % n == 0 then 1 else 0
  {
    var q, r := year / n, year % n;
    assert year == q * n + r;
    QuotientIs(year + n, n, q + 1, r);
    if r == 0 {
      assert q > 0 || n > 0;
      QuotientIs(year + n - 1, n, q, n - 1);
    } else {
      QuotientIs(year + n - 1, n, q + 1, r - 1);
    }
  }

  lemma QuotientIs(v: nat, n: nat, q: nat, r: nat)
    requires r < n && v == q * n + r
    ensures v / n == q
  {
    var q' := v / n;
    assert (q' + 1) * n == q' * n + n && (q + 1) * n == q * n + n;
    if q' < q { MulMono(q' + 1, q, n); }
    if q' > q { MulMono(q + 1, q', n); }
  }

  lemma Multiples(year: nat)
    ensures year % 400 == 0 ==> year % 100 == 0
    ensures year % 100 == 0 ==> year % 4 == 0
  {
    if year % 400 == 0 { assert year == 100 * (4 * (year / 400)); }
    if year % 100 == 0 { assert year == 4 * (25 * (year / 100)); }
  }

  lemma DaysInExactly(year: nat, month: nat)
    requires 1 <= month <= 12
    ensures DaysIn(year, month) == LastDay(year, month)
  {
    LeapYearExactly(year);
  }

  // The days of the first months of a year, and of some years.
  function DaysBeforeMonth(year: nat, months: nat): nat {
    if months == 0 then 0 else DaysBeforeMonth(year, months - 1) + DaysIn(year, months)
  }

  function DaysOfYears(year: nat, years: nat): nat {
    if years == 0 then 0 else DaysOfYears(year, years - 1) + DaysBeforeMonth(year + years - 1, 12)
  }

  lemma YearDays(year: nat)
    ensures DaysBeforeMonth(year, 12) == 365 + if IsLeapYear(year) then 1 else 0
  {
    assert DaysBeforeMonth(year, 1) == 31;
    assert DaysBeforeMonth(year, 3) == DaysBeforeMonth(year, 2) + 31;
    assert DaysBeforeMonth(year, 5) == DaysBeforeMonth(year, 4) + 31;
    assert DaysBeforeMonth(year, 7) == DaysBeforeMonth(year, 6) + 31;
    assert DaysBeforeMonth(year, 9) == DaysBeforeMonth(year, 8) + 30;
    assert DaysBeforeMonth(year, 11) == DaysBeforeMonth(year, 10) + 30;
  }

  lemma OneYear(year: nat)
    ensures DaysBeforeMonth(year, 12) == 365 + LeapsBefore(year + 1) - LeapsBefore(year)
  {
    YearDays(year);
    LeapYearExactly(year);
  }

  lemma {:induction false} YearsDays(year: nat, years: nat)
    ensures DaysOfYears(year, years) == 365 * years + LeapsBefore(year + years) - LeapsBefore(year)
  {
    if years > 0 {
      YearsDays(year, years - 1);
      OneYear(year + years - 1);
    }
  }

  /** Any 400 years in a row have 146097 days. */
  lemma FourCenturies(year: nat)
    ensures DaysOfYears(year, 400) == 146097
  {
    YearsDays(year, 400);
    LeapCycle(year);
  }

  lemma LeapCycle(year: nat)
    ensures LeapsBefore(year + 400) == LeapsBefore(year) + 97
  {
    assert (year + 400 + 3) / 4 == (year + 3) / 4 + 100;
    assert (year + 400 + 99) / 100 == (year + 99) / 100 + 4;
    assert (year + 400 + 399) / 400 == (year + 399) / 400 + 1;
  }

  // ---------------------------------------------------------------- which texts are dates

  predicate DigitsAt(text: seq<CodePoint>, i: nat, n: nat) {
    i + n <= |text| && forall k :: i <= k < i + n ==> IsDecimalDigit(text[k].value)
  }

  // The number that these digits spell.
  function NumberAt(text: seq<CodePoint>, i: nat, n: nat): nat
    requires DigitsAt(text, i, n)
  {
    if n == 0 then 0 else NumberAt(text, i, n - 1) * 10 + (text[i + n - 1].value - 0x30)
  }

  lemma {:induction false} ReadNumberExactly(text: seq<CodePoint>, i: nat, k: nat, n: nat)
    requires i + k <= |text| && k <= n && DigitsAt(text, i, k)
    ensures ReadNumber(text[i + k..], n - k, NumberAt(text, i, k)).Ok? <==> DigitsAt(text, i, n)
    ensures DigitsAt(text, i, n) ==>
      ReadNumber(text[i + k..], n - k, NumberAt(text, i, k)) == Ok(NumberAt(text, i, n), text[i + n..])
    decreases n - k
  {
    if k < n && i + k < |text| && IsDecimalDigit(text[i + k].value) {
      assert text[i + k..][1..] == text[i + k + 1..];
      assert DigitsAt(text, i, k + 1);
      ReadNumberExactly(text, i, k + 1, n);
    }
  }

  lemma ReadFieldExactly(text: seq<CodePoint>, i: nat, n: nat, lo: nat, hi: nat)
    requires i <= |text|
    ensures ReadField(text[i..], n, lo, hi).Ok? <==> DigitsAt(text, i, n) && lo <= NumberAt(text, i, n) <= hi
    ensures ReadField(text[i..], n, lo, hi).Ok? ==>
      ReadField(text[i..], n, lo, hi) == Ok(NumberAt(text, i, n), text[i + n..])
  {
    ReadNumberExactly(text, i, 0, n);
  }

  lemma ReadNextExactly(text: seq<CodePoint>, i: nat, c: char, n: nat, lo: nat, hi: nat)
    requires i <= |text| && n > 0
    ensures ReadNext(text[i..], c, n, lo, hi).Ok? <==>
      i < |text| && text[i].value == Code(c) && DigitsAt(text, i + 1, n) && lo <= NumberAt(text, i + 1, n) <= hi
    ensures ReadNext(text[i..], c, n, lo, hi).Ok? ==>
      ReadNext(text[i..], c, n, lo, hi) == Ok(NumberAt(text, i + 1, n), text[i + 1 + n..])
  {
    if i < |text| {
      assert text[i..][1..] == text[i + 1..];
      ReadFieldExactly(text, i + 1, n, lo, hi);
    }
  }

  // "YYYY-MM-DD" with a month from 1 to 12 and a day of that month, by the table.
  predicate SpellsDate(text: seq<CodePoint>) {
    && DigitsAt(text, 0, 4) && DigitsAt(text, 5, 2) && DigitsAt(text, 8, 2)
    && text[4].value == Code('-') && text[7].value == Code('-')
    && 1 <= NumberAt(text, 5, 2) <= 12
    && 1 <= NumberAt(text, 8, 2) <= LastDay(NumberAt(text, 0, 4), NumberAt(text, 5, 2))
  }

  lemma OneMoreDigit(text: seq<CodePoint>, n: nat, limit: nat)
    requires n > 0 && DigitsAt(text, 0, n) && DigitsAt(text, 0, n - 1) && NumberAt(text, 0, n - 1) <= limit
    ensures NumberAt(text, 0, n) <= 10 * limit + 9
  {
  }

  lemma FourDigitsSmall(text: seq<CodePoint>)
    requires DigitsAt(text, 0, 4)
    ensures NumberAt(text, 0, 4) <= 9999
  {
    assert DigitsAt(text, 0, 1) && DigitsAt(text, 0, 2) && DigitsAt(text, 0, 3);
    OneMoreDigit(text, 1, 0);
    OneMoreDigit(text, 2, 9);
    OneMoreDigit(text, 3, 99);
    OneMoreDigit(text, 4, 999);
  }

  /** A text is accepted as a date exactly if it begins with one, alone or before a time, and is
      then the date it spells. */
  lemma DateAcceptedExactly(text: seq<CodePoint>, partOfDateTime: bool)
    ensures ParseDate(text, partOfDateTime).Ok? <==>
      SpellsDate(text) && (partOfDateTime || AtValueEnd(text[10..]))
    ensures ParseDate(text, partOfDateTime).Ok? ==>
      ParseDate(text, partOfDateTime)
        == Ok(Date(NumberAt(text, 0, 4), NumberAt(text, 5, 2), NumberAt(text, 8, 2)), text[10..])
  {
    assert text[0..] == text;
    ReadFieldExactly(text, 0, 4, 0, 9999);
    if DigitsAt(text, 0, 4) {
      FourDigitsSmall(text);
      ReadNextExactly(text, 4, '-', 2, 1, 12);
      if ReadNext(text[4..], '-', 2, 1, 12).Ok? {
        var year, month := NumberAt(text, 0, 4), NumberAt(text, 5, 2);
        DaysInExactly(year, month);
        ReadNextExactly(text, 7, '-', 2, 1, LastDay(year, month));
      }
    }
  }

  /** A space between date and time is as good as a T: the same date-time, or both are refused. */
  lemma SpaceForT(text: seq<CodePoint>)
    requires |text| > 10 && text[10] == Ascii('T')
    ensures var spaced := text[10 := Ascii(' ')];
      ParseDateTime(text).Ok? || ParseDateTime(spaced).Ok? ==> ParseDateTime(spaced) == ParseDateTime(text)
  {
    var spaced := text[10 := Ascii(' ')];
    DateAcceptedExactly(text, true);
    DateAcceptedExactly(spaced, true);
    SameDate(text, spaced);
    assert spaced[10..][1..] == text[10..][1..] == text[11..];
    if SpellsDate(text) {
      AfterDate(text, text[10..]);
      AfterDate(spaced, spaced[10..]);
    }
  }

  // A date-time, once its date has been read up to the separator.
  lemma AfterDate(text: seq<CodePoint>, rest: seq<CodePoint>)
    requires ParseDate(text, true).Ok? && ParseDate(text, true).rest == rest && |rest| > 0
    requires rest[0].value == Code(' ') || rest[0].value == Code('T')
    ensures ParseDateTime(text) == TimeAfter(ParseDate(text, true).value, rest[1..])
  {
  }

  function TimeAfter(date: Date, tail: seq<CodePoint>): Parsed<DateTime> {
    if tail == [] then Err(EndOfFile)
    else match ParseTime(tail, true)
      case Err(e) => Err(e)
      case Ok(time, t2) =>
        match ParseOffset(t2)
        case Err(e) => Err(e)
        case Ok(offset, t3) => Ok(DateTime(date, time, offset), t3)
  }

  lemma SameDate(text: seq<CodePoint>, text': seq<CodePoint>)
    requires |text| == |text'| >= 10 && forall i :: 0 <= i < 10 ==> text[i] == text'[i]
    ensures SpellsDate(text) <==> SpellsDate(text')
    ensures SpellsDate(text) ==>
      && NumberAt(text, 0, 4) == NumberAt(text', 0, 4) && NumberAt(text, 5, 2) == NumberAt(text', 5, 2)
      && NumberAt(text, 8, 2) == NumberAt(text', 8, 2)
  {
    SameNumber(text, text', 0, 4);
    SameNumber(text, text', 5, 2);
    SameNumber(text, text', 8, 2);
  }

  lemma {:induction false} SameNumber(text: seq<CodePoint>, text': seq<CodePoint>, i: nat, n: nat)
    requires |text| == |text'| && i + n <= |text| && forall k :: i <= k < i + n ==> text[k] == text'[k]
    ensures DigitsAt(text, i, n) <==> DigitsAt(text', i, n)
    ensures DigitsAt(text, i, n) ==> NumberAt(text, i, n) == NumberAt(text', i, n)
  {
    if n > 0 {
      SameNumber(text, text', i, n - 1);
      if DigitsAt(text, i, n) { assert DigitsAt(text, i, n - 1); }
    }
  }
}
