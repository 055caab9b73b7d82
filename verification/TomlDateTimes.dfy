/**
 Dates and times of toml.hpp: printing (lines 1417-1513) and parsing (lines 6963-7001,
 7910-8131), and that each printed value parses back to itself (RFC 3339, section 5.6).
 */
module TomlDateTimes {
  import opened Basics
  import opened Utf8
  import opened TomlText

  datatype Date = Date(year: nat, month: nat, day: nat)
  datatype Time = Time(hour: nat, minute: nat, second: nat, nanosecond: nat)
  datatype DateTime = DateTime(date: Date, time: Time, offset: Option<int>)

  predicate IsLeapYear(year: nat) { year % 4 == 0 && (year % 100 != 0 || year % 400 == 0) }

  function DaysIn(year: nat, month: nat): nat {
    if month == 2 then (if IsLeapYear(year) then 29 else 28)
    else if month == 4 || month == 6 || month == 9 || month == 11 then 30
    else 31
  }

  predicate ValidDate(d: Date) {
    d.year <= 9999 && 1 <= d.month <= 12 && 1 <= d.day <= DaysIn(d.year, d.month)
  }

  predicate ValidTime(t: Time) {
    t.hour <= 23 && t.minute <= 59 && t.second <= 59 && t.nanosecond <= 999999999
  }

  predicate ValidDateTime(v: DateTime) {
    ValidDate(v.date) && ValidTime(v.time) && (v.offset.Some? ==> -1439 <= v.offset.value <= 1439)
  }

  // ---------------------------------------------------------------- printing

  function Digit(d: nat): (cp: CodePoint)
    requires d < 10
    ensures Faithful(cp) && IsDecimalDigit(cp.value)
  {
    CodePoint(0x30 + d, [0x30 + d])
  }

  // std::to_chars
  function Decimal(v: nat): (s: seq<CodePoint>)
    ensures s != [] && AllFaithful(s)
  {
    if v < 10 then [Digit(v)] else Decimal(v / 10) + [Digit(v % 10)]
  }

  function Zeros(n: nat): (s: seq<CodePoint>)
    ensures |s| == n && AllFaithful(s)
  {
    if n == 0 then [] else Zeros(n - 1) + [Digit(0)]
  }

  // print_to_stream with zero padding.
  function Padded(v: nat, width: nat): (s: seq<CodePoint>)
    ensures AllFaithful(s)
  {
    (if |Decimal(v)| < width then Zeros(width - |Decimal(v)|) else []) + Decimal(v)
  }

  function PrintDate(d: Date): (s: seq<CodePoint>)
    ensures AllFaithful(s)
  {
    Padded(d.year, 4) + [Ascii('-')] + Padded(d.month, 2) + [Ascii('-')] + Padded(d.day, 2)
  }

  // The fraction after its trailing zeros are dropped.
  function PrintFraction(ns: nat, digits: nat): (s: seq<CodePoint>)
    requires ns > 0
    ensures AllFaithful(s)
  {
    if ns % 10 == 0 && digits > 0 then PrintFraction(ns / 10, digits - 1) else Padded(ns, digits)
  }

  /** The loop that drops trailing zeros, for the nanoseconds of a valid time. */
  method PrintFractionTo(nanosecond: nat, stream: seq<CodePoint>) returns (stream': seq<CodePoint>)
    requires 0 < nanosecond <= 999999999
    ensures stream' == stream + [Ascii('.')] + PrintFraction(nanosecond, 9)
  {
    var ns, digits := nanosecond, 9;
    Pow10Values();
    while ns % 10 == 0
      invariant 0 < ns < Pow(10, digits)
      invariant PrintFraction(nanosecond, 9) == PrintFraction(ns, digits)
      decreases ns
    {
      assert digits > 0 && Pow(10, digits) == 10 * Pow(10, digits - 1);
      ns := ns / 10;
      digits := digits - 1;
    }
    stream' := stream + [Ascii('.')] + Padded(ns, digits);
  }

  function PrintClock(t: Time): (s: seq<CodePoint>)
    ensures AllFaithful(s)
  {
    Padded(t.hour, 2) + [Ascii(':')] + Padded(t.minute, 2) + [Ascii(':')] + Padded(t.second, 2)
  }

  function PrintTime(t: Time): (s: seq<CodePoint>)
    ensures AllFaithful(s)
  {
    PrintClock(t) + (if 0 < t.nanosecond <= 999999999 then [Ascii('.')] + PrintFraction(t.nanosecond, 9) else [])
  }

  function PrintOffset(minutes: int): (s: seq<CodePoint>)
    ensures AllFaithful(s)
  {
    if minutes == 0 then [Ascii('Z')]
    else
      var m := if minutes < 0 then -minutes else minutes;
      [if minutes < 0 then Ascii('-') else Ascii('+')]
        + PrintOffsetMinutes(m)
  }

  function PrintOffsetMinutes(m: nat): (s: seq<CodePoint>)
    ensures AllFaithful(s)
  {
    (if m / 60 != 0 then Padded(m / 60, 2) else [Digit(0), Digit(0)]) + [Ascii(':')] + Padded(m % 60, 2)
  }

  function PrintDateTime(v: DateTime): (s: seq<CodePoint>)
    ensures AllFaithful(s)
  {
    PrintDate(v.date) + [Ascii('T')] + PrintTime(v.time)
      + (if v.offset.Some? then PrintOffset(v.offset.value) else [])
  }

  // ---------------------------------------------------------------- parsing

  // consume_digit_sequence, and the number its digits spell after those of v.
  function ReadNumber(text: seq<CodePoint>, n: nat, v: nat): Parsed<nat>
    decreases n
  {
    if n == 0 then Ok(v, text)
    else if text == [] then Err(EndOfFile)
    else if !IsDecimalDigit(text[0].value) then Err(ExpectedDigit)
    else ReadNumber(text[1..], n - 1, v * 10 + (text[0].value - 0x30))
  }

  // A required separator, with more text after it.
  function Skip(text: seq<CodePoint>, c: char): Parsed<()> {
    if text == [] then Err(EndOfFile)
    else if text[0].value != Code(c) then Err(ExpectedSeparator)
    else if |text| == 1 then Err(EndOfFile)
    else Ok((), text[1..])
  }

  // A number of n digits between lo and hi.
  function ReadField(text: seq<CodePoint>, n: nat, lo: nat, hi: nat): Parsed<nat> {
    match ReadNumber(text, n, 0)
    case Err(e) => Err(e)
    case Ok(v, rest) => if lo <= v <= hi then Ok(v, rest) else Err(FieldOutOfRange)
  }

  // A separator and then a field.
  function ReadNext(text: seq<CodePoint>, c: char, n: nat, lo: nat, hi: nat): Parsed<nat> {
    match Skip(text, c)
    case Err(e) => Err(e)
    case Ok(_, rest) => ReadField(rest, n, lo, hi)
  }

  function ParseDate(text: seq<CodePoint>, partOfDateTime: bool): Parsed<Date> {
    match ReadField(text, 4, 0, 9999)
    case Err(e) => Err(e)
    case Ok(year, t1) =>
      match ReadNext(t1, '-', 2, 1, 12)
      case Err(e) => Err(e)
      case Ok(month, t2) =>
        match ReadNext(t2, '-', 2, 1, DaysIn(year, month))
        case Err(e) => Err(e)
        case Ok(day, t3) =>
          if !partOfDateTime && !AtValueEnd(t3) then Err(ExpectedTerminator)
          else Ok(Date(year, month, day), t3)
  }

  predicate IsOffsetStart(v: nat) { v == Code('+') || v == Code('-') || v == Code('Z') }

  function DigitRun(text: seq<CodePoint>, max: nat): (n: nat)
    ensures n <= |text| && n <= max
    ensures forall i :: 0 <= i < n ==> IsDecimalDigit(text[i].value)
    ensures n < max && n < |text| ==> !IsDecimalDigit(text[n].value)
    decreases max
  {
    if max == 0 || text == [] || !IsDecimalDigit(text[0].value) then 0 else 1 + DigitRun(text[1..], max - 1)
  }

  // k implicit zeros.
  function Scaled(v: nat, k: nat): nat {
    if k == 0 then v else 10 * Scaled(v, k - 1)
  }

  // The fraction of a second, after the point: up to nine digits, scaled to nanoseconds.
  function ReadFraction(text: seq<CodePoint>, partOfDateTime: bool): Parsed<nat> {
    var n := DigitRun(text, 9);
    if n == 0 then (if text == [] then Err(EndOfFile) else Err(ExpectedDigit))
    else if n == 9 && n < |text| && IsDecimalDigit(text[n].value) then Err(TooPrecise)
    else if !partOfDateTime && !AtValueEnd(text[n..]) then Err(ExpectedTerminator)
    else match ReadNumber(text, n, 0)
      case Err(e) => Err(e)
      case Ok(v, rest) => Ok(Scaled(v, 9 - n), rest)
  }

  // "HH:MM:SS", as a time without fraction.
  function ReadClock(text: seq<CodePoint>): Parsed<Time> {
    match ReadField(text, 2, 0, 23)
    case Err(e) => Err(e)
    case Ok(hour, t1) =>
      match ReadNext(t1, ':', 2, 0, 59)
      case Err(e) => Err(e)
      case Ok(minute, t2) =>
        match ReadNext(t2, ':', 2, 0, 59)
        case Err(e) => Err(e)
        case Ok(second, t3) => Ok(Time(hour, minute, second, 0), t3)
  }

  // The text after a time inside a value: the value's end, or an offset if one may follow.
  predicate EndsTime(rest: seq<CodePoint>, partOfDateTime: bool) {
    AtValueEnd(rest) || (partOfDateTime && IsOffsetStart(rest[0].value))
  }

  function ParseTime(text: seq<CodePoint>, partOfDateTime: bool): Parsed<Time> {
    match ReadClock(text)
    case Err(e) => Err(e)
    case Ok(time, t3) =>
      if EndsTime(t3, partOfDateTime) then Ok(time, t3)
      else match Skip(t3, '.')
        case Err(e) => Err(e)
        case Ok(_, t4) =>
          match ReadFraction(t4, partOfDateTime)
          case Err(e) => Err(e)
          case Ok(ns, t5) => Ok(time.(nanosecond := ns), t5)
  }

  // "HH:MM" after the sign, in minutes.
  function ReadOffsetMinutes(text: seq<CodePoint>): Parsed<int> {
    match ReadField(text, 2, 0, 23)
    case Err(e) => Err(e)
    case Ok(hour, t1) =>
      match ReadNext(t1, ':', 2, 0, 59)
      case Err(e) => Err(e)
      case Ok(minute, t2) => Ok(hour * 60 + minute, t2)
  }

  // An offset, "Z" or "+HH:MM" or "-HH:MM", or nothing at the end of the value.
  function ParseOffset(text: seq<CodePoint>): Parsed<Option<int>> {
    if AtValueEnd(text) then Ok(None, text)
    else if text[0].value == Code('Z') then
      if AtValueEnd(text[1..]) then Ok(Some(0), text[1..]) else Err(ExpectedTerminator)
    else if text[0].value == Code('+') || text[0].value == Code('-') then
      if |text| == 1 then Err(EndOfFile)
      else match ReadOffsetMinutes(text[1..])
        case Err(e) => Err(e)
        case Ok(m, t2) =>
          if AtValueEnd(t2) then Ok(Some(if text[0].value == Code('-') then -m else m), t2)
          else Err(ExpectedTerminator)
    else Err(ExpectedTerminator)
  }

  function ParseDateTime(text: seq<CodePoint>): Parsed<DateTime> {
    match ParseDate(text, true)
    case Err(e) => Err(e)
    case Ok(date, t1) =>
      if t1 == [] then Err(EndOfFile)
      else if t1[0].value != Code(' ') && t1[0].value != Code('T') then Err(ExpectedSeparator)
      else if |t1| == 1 then Err(EndOfFile)
      else match ParseTime(t1[1..], true)
        case Err(e) => Err(e)
        case Ok(time, t2) =>
          match ParseOffset(t2)
          case Err(e) => Err(e)
          case Ok(offset, t3) => Ok(DateTime(date, time, offset), t3)
  }

  // ---------------------------------------------------------------- numbers

  // The low w digits of v.
  function Fixed(v: nat, w: nat): (s: seq<CodePoint>)
    ensures |s| == w && AllFaithful(s)
    ensures forall i :: 0 <= i < w ==> IsDecimalDigit(s[i].value)
  {
    if w == 0 then [] else Fixed(v / 10, w - 1) + [Digit(v % 10)]
  }

  lemma {:induction false} ZerosFixed(w: nat)
    ensures Zeros(w) == Fixed(0, w)
  {
    if w > 0 { ZerosFixed(w - 1); }
  }

  lemma DropDigit(v: nat, w: nat)
    requires w > 0 && v < Pow(10, w)
    ensures v / 10 < Pow(10, w - 1)
  {
    assert Pow(10, w) == 10 * Pow(10, w - 1);
  }

  lemma PaddedMore(v: nat, w: nat)
    requires v >= 10 && w > 0
    ensures Padded(v, w) == Padded(v / 10, w - 1) + [Digit(v % 10)] && |Decimal(v)| == |Decimal(v / 10)| + 1
  {
    var front, last := Decimal(v / 10), [Digit(v % 10)];
    assert Decimal(v) == front + last;
    if |Decimal(v)| < w { Regroup(Zeros(w - |Decimal(v)|), front, last); }
  }

  lemma {:induction false} PaddedFixed(v: nat, w: nat)
    requires w > 0 && v < Pow(10, w)
    ensures Padded(v, w) == Fixed(v, w) && |Decimal(v)| <= w
  {
    assert Pow(10, 1) == 10;
    if v < 10 {
      ZerosFixed(w - 1);
      if w == 1 { assert Padded(v, 1) == [] + [Digit(v)]; }
    } else {
      DropDigit(v, w);
      PaddedMore(v, w);
      PaddedFixed(v / 10, w - 1);
    }
  }

  lemma {:induction false} ReadMore(text: seq<CodePoint>, n: nat, cp: CodePoint, rest: seq<CodePoint>, u: nat, v: nat)
    requires ReadNumber(text + [cp] + rest, n, u) == Ok(v, [cp] + rest) && |text| == n && IsDecimalDigit(cp.value)
    ensures ReadNumber(text + [cp] + rest, n + 1, u) == Ok(v * 10 + (cp.value - 0x30), rest)
    decreases n
  {
    var all := text + [cp] + rest;
    if n == 0 {
      assert all == [cp] + rest && all[1..] == rest;
    } else {
      assert all[1..] == text[1..] + [cp] + rest;
      ReadMore(text[1..], n - 1, cp, rest, u * 10 + (all[0].value - 0x30), v);
    }
  }

  lemma {:induction false} ReadFixed(v: nat, w: nat, rest: seq<CodePoint>)
    requires v < Pow(10, w)
    ensures ReadNumber(Fixed(v, w) + rest, w, 0) == Ok(v, rest)
  {
    if w == 0 {
      assert Fixed(v, w) + rest == rest;
    } else {
      var front, d := Fixed(v / 10, w - 1), Digit(v % 10);
      DropDigit(v, w);
      ReadFixed(v / 10, w - 1, [d] + rest);
      Regroup(front, [d], rest);
      ReadMore(front, w - 1, d, rest, 0, v / 10);
    }
  }

  // A printed field reads back.
  lemma ReadPadded(v: nat, w: nat, lo: nat, hi: nat, rest: seq<CodePoint>)
    requires w > 0 && v < Pow(10, w) && lo <= v <= hi
    ensures |Padded(v, w)| == w && Padded(v, w)[0].value != 0x20
    ensures ReadField(Padded(v, w) + rest, w, lo, hi) == Ok(v, rest)
  {
    PaddedFixed(v, w);
    ReadFixed(v, w, rest);
  }

  lemma ReadSeparated(c: char, v: nat, w: nat, lo: nat, hi: nat, rest: seq<CodePoint>)
    requires c as int <= 0x7F && w > 0 && v < Pow(10, w) && lo <= v <= hi
    ensures ReadNext([Ascii(c)] + Padded(v, w) + rest, c, w, lo, hi) == Ok(v, rest)
  {
    ReadPadded(v, w, lo, hi, rest);
    var text := [Ascii(c)] + Padded(v, w) + rest;
    assert text[1..] == Padded(v, w) + rest;
  }

  lemma Pow10Values()
    ensures Pow(10, 2) == 100 && Pow(10, 4) == 10000 && Pow(10, 9) == 1000000000
  {
    assert Pow(10, 1) == 10 && Pow(10, 3) == 1000;
    assert Pow(10, 5) == 100000 && Pow(10, 6) == 1000000 && Pow(10, 7) == 10000000 && Pow(10, 8) == 100000000;
  }

  // ---------------------------------------------------------------- round trips

  lemma Regroup4(a: seq<CodePoint>, b: seq<CodePoint>, c: seq<CodePoint>, d: seq<CodePoint>)
    ensures (a + b + c) + d == a + (b + c + d)
  {
  }

  lemma Regroup5(a: seq<CodePoint>, b: seq<CodePoint>, c: seq<CodePoint>, d: seq<CodePoint>, e: seq<CodePoint>)
    ensures (a + b + c + d) + e == a + (b + (c + (d + e)))
  {
  }

  lemma Regroup6(a: seq<CodePoint>, b: seq<CodePoint>, c: seq<CodePoint>, d: seq<CodePoint>, e: seq<CodePoint>,
                 f: seq<CodePoint>)
    ensures (a + b + c + d + e) + f == a + (b + c + (d + e + f))
  {
  }

  lemma DateRoundTrip(d: Date, rest: seq<CodePoint>, partOfDateTime: bool)
    requires ValidDate(d) && (partOfDateTime || AtValueEnd(rest))
    ensures ParseDate(PrintDate(d) + rest, partOfDateTime) == Ok(d, rest)
  {
    Pow10Values();
    var t3 := rest;
    var t2 := [Ascii('-')] + Padded(d.day, 2) + t3;
    var t1 := [Ascii('-')] + Padded(d.month, 2) + t2;
    Regroup6(Padded(d.year, 4), [Ascii('-')], Padded(d.month, 2), [Ascii('-')], Padded(d.day, 2), rest);
    ReadPadded(d.year, 4, 0, 9999, t1);
    ReadSeparated('-', d.month, 2, 1, 12, t2);
    ReadSeparated('-', d.day, 2, 1, DaysIn(d.year, d.month), t3);
  }

  lemma FractionShape(ns: nat, digits: nat) returns (m: nat, k: nat)
    requires 0 < ns < Pow(10, digits)
    ensures 1 <= k <= digits && m < Pow(10, k) && Scaled(m, digits - k) == ns
    ensures PrintFraction(ns, digits) == Padded(m, k)
    decreases digits
  {
    if ns % 10 == 0 && digits > 0 {
      m, k := FractionShape(ns / 10, digits - 1);
    } else {
      m, k := ns, digits;
    }
  }

  lemma {:induction false} DigitRunAll(digits: seq<CodePoint>, rest: seq<CodePoint>, max: nat)
    requires forall i :: 0 <= i < |digits| ==> IsDecimalDigit(digits[i].value)
    requires |digits| <= max && (rest != [] ==> !IsDecimalDigit(rest[0].value))
    ensures DigitRun(digits + rest, max) == |digits|
    decreases max
  {
    if digits == [] {
      assert digits + rest == rest;
    } else {
      assert (digits + rest)[1..] == digits[1..] + rest;
      DigitRunAll(digits[1..], rest, max - 1);
    }
  }

  lemma FractionRoundTrip(ns: nat, rest: seq<CodePoint>, partOfDateTime: bool)
    requires 0 < ns <= 999999999 && EndsTime(rest, partOfDateTime)
    ensures PrintFraction(ns, 9) != []
    ensures ReadFraction(PrintFraction(ns, 9) + rest, partOfDateTime) == Ok(ns, rest)
  {
    Pow10Values();
    var m, k := FractionShape(ns, 9);
    PaddedFixed(m, k);
    DigitRunAll(Fixed(m, k), rest, 9);
    ReadFixed(m, k, rest);
    assert (Fixed(m, k) + rest)[k..] == rest;
  }

  lemma ClockRoundTrip(t: Time, rest: seq<CodePoint>)
    requires ValidTime(t)
    ensures PrintClock(t) != [] && ReadClock(PrintClock(t) + rest) == Ok(t.(nanosecond := 0), rest)
  {
    Pow10Values();
    var t2 := [Ascii(':')] + Padded(t.second, 2) + rest;
    var t1 := [Ascii(':')] + Padded(t.minute, 2) + t2;
    Regroup6(Padded(t.hour, 2), [Ascii(':')], Padded(t.minute, 2), [Ascii(':')], Padded(t.second, 2), rest);
    ReadPadded(t.hour, 2, 0, 23, t1);
    ReadSeparated(':', t.minute, 2, 0, 59, t2);
    ReadSeparated(':', t.second, 2, 0, 59, rest);
  }

  lemma SkipAscii(c: char, rest: seq<CodePoint>)
    requires c as int <= 0x7F && rest != []
    ensures Skip([Ascii(c)] + rest, c) == Ok((), rest)
  {
    assert ([Ascii(c)] + rest)[1..] == rest;
  }

  lemma FractionAfterClock(text: seq<CodePoint>, time: Time, tail: seq<CodePoint>, ns: nat, rest: seq<CodePoint>,
                           partOfDateTime: bool)
    requires tail != [] && ReadClock(text) == Ok(time, [Ascii('.')] + tail)
    requires ReadFraction(tail, partOfDateTime) == Ok(ns, rest)
    ensures ParseTime(text, partOfDateTime) == Ok(time.(nanosecond := ns), rest)
  {
    SkipAscii('.', tail);
    PointGoesOn(tail, partOfDateTime);
  }

  lemma PointGoesOn(tail: seq<CodePoint>, partOfDateTime: bool)
    ensures !EndsTime([Ascii('.')] + tail, partOfDateTime)
  {
    assert ([Ascii('.')] + tail)[0] == Ascii('.');
  }

  lemma ClockAlone(text: seq<CodePoint>, time: Time, rest: seq<CodePoint>, partOfDateTime: bool)
    requires ReadClock(text) == Ok(time, rest) && EndsTime(rest, partOfDateTime)
    ensures ParseTime(text, partOfDateTime) == Ok(time, rest)
  {
  }

  lemma FractionalTimeRoundTrip(t: Time, rest: seq<CodePoint>, partOfDateTime: bool)
    requires ValidTime(t) && t.nanosecond > 0 && EndsTime(rest, partOfDateTime)
    ensures ParseTime(PrintTime(t) + rest, partOfDateTime) == Ok(t, rest)
  {
    var fraction := PrintFraction(t.nanosecond, 9);
    var tail := fraction + rest;
    FractionRoundTrip(t.nanosecond, rest, partOfDateTime);
    assert tail != [];
    Regroup(PrintClock(t), [Ascii('.')] + fraction, rest);
    Regroup([Ascii('.')], fraction, rest);
    ClockRoundTrip(t, [Ascii('.')] + tail);
    FractionAfterClock(PrintTime(t) + rest, t.(nanosecond := 0), tail, t.nanosecond, rest, partOfDateTime);
  }

  lemma TimeRoundTrip(t: Time, rest: seq<CodePoint>, partOfDateTime: bool)
    requires ValidTime(t) && EndsTime(rest, partOfDateTime)
    ensures ParseTime(PrintTime(t) + rest, partOfDateTime) == Ok(t, rest)
  {
    if t.nanosecond > 0 {
      FractionalTimeRoundTrip(t, rest, partOfDateTime);
    } else {
      assert PrintTime(t) == PrintClock(t) + [] == PrintClock(t);
      ClockRoundTrip(t, rest);
      ClockAlone(PrintTime(t) + rest, t, rest, partOfDateTime);
    }
  }

  lemma OffsetMinutesRoundTrip(m: nat, rest: seq<CodePoint>)
    requires m <= 1439
    ensures ReadOffsetMinutes(PrintOffsetMinutes(m) + rest) == Ok(m, rest)
  {
    Pow10Values();
    var t1 := [Ascii(':')] + Padded(m % 60, 2) + rest;
    TwoZeros();
    Regroup4(Padded(m / 60, 2), [Ascii(':')], Padded(m % 60, 2), rest);
    ReadPadded(m / 60, 2, 0, 23, t1);
    ReadSeparated(':', m % 60, 2, 0, 59, rest);
  }

  lemma TwoZeros()
    ensures Padded(0, 2) == [Digit(0), Digit(0)]
  {
    assert Zeros(1) == Zeros(0) + [Digit(0)];
  }

  lemma SignedOffset(c: char, tail: seq<CodePoint>, m: int, rest: seq<CodePoint>)
    requires (c == '+' || c == '-') && tail != [] && ReadOffsetMinutes(tail) == Ok(m, rest) && AtValueEnd(rest)
    ensures ParseOffset([Ascii(c)] + tail) == Ok(Some(if c == '-' then -m else m), rest)
  {
    assert ([Ascii(c)] + tail)[1..] == tail;
  }

  lemma OffsetRoundTrip(minutes: int, rest: seq<CodePoint>)
    requires -1439 <= minutes <= 1439 && AtValueEnd(rest)
    ensures ParseOffset(PrintOffset(minutes) + rest) == Ok(Some(minutes), rest)
    ensures PrintOffset(minutes) != [] && IsOffsetStart(PrintOffset(minutes)[0].value)
  {
    if minutes == 0 {
      assert ([Ascii('Z')] + rest)[1..] == rest;
    } else {
      var m := if minutes < 0 then -minutes else minutes;
      var c := if minutes < 0 then '-' else '+';
      Regroup([Ascii(c)], PrintOffsetMinutes(m), rest);
      OffsetMinutesRoundTrip(m, rest);
      SignedOffset(c, PrintOffsetMinutes(m) + rest, m, rest);
    }
  }

  // What follows the date in a printed date-time.
  lemma TimeAndOffsetRoundTrip(v: DateTime, rest: seq<CodePoint>)
    requires ValidDateTime(v) && AtValueEnd(rest)
    ensures var t2 := (if v.offset.Some? then PrintOffset(v.offset.value) else []) + rest;
      ParseTime(PrintTime(v.time) + t2, true) == Ok(v.time, t2) && ParseOffset(t2) == Ok(v.offset, rest)
  {
    if v.offset.Some? {
      OffsetRoundTrip(v.offset.value, rest);
      TimeRoundTrip(v.time, PrintOffset(v.offset.value) + rest, true);
    } else {
      assert [] + rest == rest;
      TimeRoundTrip(v.time, rest, true);
    }
  }

  lemma AssembleDateTime(text: seq<CodePoint>, tail: seq<CodePoint>, v: DateTime, t2: seq<CodePoint>,
                         rest: seq<CodePoint>)
    requires tail != [] && ParseDate(text, true) == Ok(v.date, [Ascii('T')] + tail)
    requires ParseTime(tail, true) == Ok(v.time, t2) && ParseOffset(t2) == Ok(v.offset, rest)
    ensures ParseDateTime(text) == Ok(v, rest)
  {
    assert ([Ascii('T')] + tail)[1..] == tail;
  }

  /** Date-time round trip: the printed form of every valid date-time, followed by the end of
      the text or a value terminator, parses back to the same value and leaves what followed. */
  lemma DateTimeRoundTrip(v: DateTime, rest: seq<CodePoint>)
    requires ValidDateTime(v) && AtValueEnd(rest)
    ensures ParseDateTime(PrintDateTime(v) + rest) == Ok(v, rest)
  {
    var offset := if v.offset.Some? then PrintOffset(v.offset.value) else [];
    var tail := PrintTime(v.time) + (offset + rest);
    Regroup5(PrintDate(v.date), [Ascii('T')], PrintTime(v.time), offset, rest);
    DateRoundTrip(v.date, [Ascii('T')] + tail, true);
    TimeAndOffsetRoundTrip(v, rest);
    TimeNotEmpty(v.time);
    AssembleDateTime(PrintDateTime(v) + rest, tail, v, offset + rest, rest);
  }

  lemma TimeNotEmpty(t: Time)
    ensures PrintTime(t) != []
  {
    assert Padded(t.hour, 2) != [];
  }

  /** The same on bytes: the UTF-8 bytes of the printed form, decoded and parsed. */
  lemma DateTimeBytesRoundTrip(v: DateTime, tail: seq<byte>)
    requires ValidDateTime(v) && Decode(tail).Some? && AtValueEnd(Decode(tail).value)
    ensures Decode(Spelled(PrintDateTime(v)) + tail).Some?
    ensures ParseDateTime(Decode(Spelled(PrintDateTime(v)) + tail).value) == Ok(v, Decode(tail).value)
  {
    DecodeAppend(PrintDateTime(v), tail);
    DateTimeRoundTrip(v, Decode(tail).value);
  }

  lemma {:induction false} ReadNumberBound(text: seq<CodePoint>, n: nat, v: nat)
    requires ReadNumber(text, n, v).Ok?
    ensures ReadNumber(text, n, v).value < (v + 1) * Pow(10, n)
    decreases n
  {
    if n > 0 {
      var d := text[0].value - 0x30;
      ReadNumberBound(text[1..], n - 1, v * 10 + d);
      MulMono(v * 10 + d + 1, (v + 1) * 10, Pow(10, n - 1));
    }
  }

  lemma {:induction false} ScaledBound(v: nat, n: nat, k: nat)
    requires v < Pow(10, n)
    ensures Scaled(v, k) < Pow(10, n + k)
  {
    if k > 0 { ScaledBound(v, n, k - 1); }
  }

  lemma ScaledRead(text: seq<CodePoint>, n: nat, w: nat)
    requires n <= w && ReadNumber(text, n, 0).Ok?
    ensures Scaled(ReadNumber(text, n, 0).value, w - n) < Pow(10, w)
  {
    ReadNumberBound(text, n, 0);
    ScaledBound(ReadNumber(text, n, 0).value, n, w - n);
  }

  lemma FractionBound(text: seq<CodePoint>, partOfDateTime: bool)
    requires ReadFraction(text, partOfDateTime).Ok?
    ensures ReadFraction(text, partOfDateTime).value <= 999999999
  {
    ScaledRead(text, DigitRun(text, 9), 9);
    Pow10Values();
  }

  /** Nothing but valid values is accepted: so, with the round trip, the values that parsing can
      return are exactly the valid ones. */
  lemma DateTimeSound(text: seq<CodePoint>)
    ensures ParseDateTime(text).Ok? ==> ValidDateTime(ParseDateTime(text).value) && AtValueEnd(ParseDateTime(text).rest)
  {
    if ParseDateTime(text).Ok? {
      TimeSound(ParseDate(text, true).rest[1..], true);
      OffsetSound(ParseTime(ParseDate(text, true).rest[1..], true).rest);
    }
  }

  lemma OffsetSound(text: seq<CodePoint>)
    requires ParseOffset(text).Ok?
    ensures ParseOffset(text).value.Some? ==> -1439 <= ParseOffset(text).value.value <= 1439
    ensures AtValueEnd(ParseOffset(text).rest)
  {
  }

  lemma TimeSound(text: seq<CodePoint>, partOfDateTime: bool)
    requires ParseTime(text, partOfDateTime).Ok?
    ensures ValidTime(ParseTime(text, partOfDateTime).value)
  {
    if ParseTime(text, partOfDateTime).value.nanosecond != 0 {
      FractionBound(Skip(ReadClock(text).rest, '.').rest, partOfDateTime);
    }
  }
}
