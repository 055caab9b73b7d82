/**
 The parser's loops over its cursor (toml.hpp lines 6963-7001, 7003-7238, 7355-7399, 7791-8131),
 each proved to compute the corresponding specification function.
 */
module TomlParser {
  import opened Basics
  import opened Utf8
  import opened TomlText
  import S = TomlStrings
  import D = TomlDateTimes
  import I = TomlIntegers
  import V = TomlDecimals

  datatype Result<+T> = Value(value: T) | Failure(error: Error)

  // How one turn of the string loop ends.
  datatype Turn = Done(result: Result<seq<byte>>) | More(escaped: bool, str: seq<byte>)

  /** The parser, reduced to the text the buffered reader delivers and its cursor. */
  class Parser {
    const text: seq<CodePoint>
    var pos: nat

    constructor (text: seq<CodePoint>)
      ensures this.text == text && pos == 0
    {
      this.text := text;
      pos := 0;
    }

    ghost function Rest(): seq<CodePoint>
      reads this
    {
      if pos <= |text| then text[pos..] else []
    }

    // This result and the cursor are what the specification says.
    ghost predicate Returns<T>(r: Result<T>, spec: Parsed<T>)
      reads this
    {
      match spec
      case Ok(v, rest) => r == Value(v) && pos <= |text| && Rest() == rest
      case Err(e) => r == Failure(e)
    }

    // ------------------------------------------------------------ strings

    /** The hexadecimal digits of a unicode escape, from the place value of the first. */
    method ReadHex(firstPlace: nat, ghost digits: nat) returns (r: Result<nat>)
      requires pos <= |text| && firstPlace == Place(digits)
      modifies this
      ensures Returns(r, S.ReadHex(old(Rest()), digits, 0))
      ensures r.Value? ==> r.value < Pow(16, digits)   // so 32 bits hold the sum
    {
      ghost var spec := S.ReadHex(Rest(), digits, 0);
      var placeValue := firstPlace;
      var sequenceValue := 0;
      ghost var left: nat, read: nat := digits, 0;
      HexStart(Rest(), digits);
      while placeValue > 0
        invariant pos <= |text| && ReadingHex(spec, Rest(), digits, left, read, placeValue, sequenceValue)
        decreases left
      {
        HexStops(spec, Rest(), digits, left, read, placeValue, sequenceValue);
        if pos == |text| {
          return Failure(EndOfFile);
        }
        var v := text[pos].value;
        if !IsHexDigit(v) {
          return Failure(BadHexDigit);
        }
        var d := HexToDec(v);
        HexStep(spec, Rest(), digits, left, read, placeValue, sequenceValue);
        sequenceValue := sequenceValue + placeValue * d;
        placeValue := placeValue / 16;
        pos := pos + 1;
        read, left := read * 16 + d, left - 1;
      }
      HexStops(spec, Rest(), digits, left, read, placeValue, sequenceValue);
      return Value(sequenceValue);
    }

    /** What follows a backslash. */
    method ReadEscape() returns (r: Result<seq<byte>>)
      requires pos < |text|
      modifies this
      ensures Returns(r, S.Escape(old(Rest()))) && (r.Value? ==> pos > old(pos))
    {
      ghost var before := Rest();
      var escaped := text[pos].value;
      if S.SimpleEscape(escaped).Some? {
        pos := pos + 1;
        return if pos == |text| then Failure(EndOfFile) else Value([S.SimpleEscape(escaped).value]);
      }
      if escaped != Code('u') && escaped != Code('U') {
        return Failure(BadEscape);
      }
      pos := pos + 1;
      if pos == |text| {
        return Failure(EndOfFile);
      }
      assert Rest() == before[1..];
      S.ReadHexShortens(Rest(), if escaped == Code('u') then 4 else 8, 0);
      Pow16Values();
      var hex := ReadHex(if escaped == Code('U') then 0x1000_0000 else 0x1000, if escaped == Code('u') then 4 else 8);
      if hex.Failure? {
        return Failure(hex.error);
      }
      if IsSurrogate(hex.value) {
        return Failure(Surrogate);
      } else if hex.value > 0x10FFFF {
        return Failure(TooLarge);
      }
      return Value(EncodeEscape(hex.value));
    }

    /** parse_basic_string<false>. */
    method ParseBasicString() returns (r: Result<seq<byte>>)
      requires pos < |text| && text[pos].value == 0x22
      modifies this
      ensures Returns(r, S.Body(old(Rest())[1..], []))
    {
      ghost var spec := S.Body(Rest()[1..], []);
      pos := pos + 1;
      if pos == |text| {
        return Failure(EndOfFile);
      }
      var str: seq<byte> := [];
      var escaped := false;
      while true
        invariant pos < |text| && spec == Owed(escaped, Rest(), str)
        decreases |text| - pos
      {
        if escaped {
          escaped := false;
          var bytes := ReadEscape();
          if bytes.Failure? {
            return Failure(bytes.error);
          }
          str := str + bytes.value;
        } else {
          var next := ReadCharacter(str);
          if next.Done? {
            return next.result;
          }
          escaped, str := next.escaped, next.str;
        }
        if pos == |text| {
          return Failure(EndOfFile);
        }
      }
    }

    /** One character that no backslash precedes. */
    method ReadCharacter(str: seq<byte>) returns (next: Turn)
      requires pos < |text|
      modifies this
      ensures next.Done? ==> Returns(next.result, S.Body(old(Rest()), str))
      ensures next.More? ==> pos == old(pos) + 1 && S.Body(old(Rest()), str) == Owed(next.escaped, Rest(), next.str)
    {
      BodyStep(Rest(), str);
      var cp := text[pos];
      if cp.value == 0x22 {
        pos := pos + 1;
        return Done(Value(str));
      } else if cp.value == 0x5C {
        pos := pos + 1;
        return More(true, str);
      } else if IsNontabControl(cp.value) {
        return Done(Failure(ControlCharacter));
      } else if IsSurrogate(cp.value) {
        return Done(Failure(Surrogate));
      }
      pos := pos + 1;
      return More(false, str + cp.bytes);
    }

    /** parse_string at a double quote: looks at three characters, steps back over two, and
        reads a one-line basic string; None when it is a multi-line string. */
    method ParseString() returns (r: Option<Result<seq<byte>>>)
      requires pos < |text| && text[pos].value == 0x22
      modifies this
      ensures r.None? <==> S.Form(old(Rest())).MultiLineBasic?
      ensures r.Some? ==> Returns(r.value, S.ParseString(old(Rest())))
    {
      ghost var before := Rest();
      var first := text[pos].value;
      pos := pos + 1;
      if pos == |text| {
        return Some(Failure(EndOfFile));
      }
      var second := text[pos].value;
      assert before[1] == text[pos];
      pos := pos + 1;
      if pos == |text| {
        return Some(if second == first then Value([]) else Failure(EndOfFile));
      }
      var third := text[pos].value;
      assert before[2] == text[pos];
      if first == second && first == third {
        return None;
      }
      pos := pos - 2;
      var s := ParseBasicString();
      return Some(s);
    }

    // ------------------------------------------------------------ dates and times

    /** consume_digit_sequence: fills a buffer with exactly len digits. */
    method ConsumeDigitSequence(digits: array<nat>, len: nat) returns (r: Result<()>)
      requires pos <= |text| && len <= digits.Length
      modifies this, digits
      ensures match D.ReadNumber(old(Rest()), len, 0)
        case Ok(v, rest) => r.Value? && pos <= |text| && Rest() == rest && v == I.Value(10, digits[..len])
        case Err(e) => r == Failure(e)
      ensures r.Value? ==> forall i :: 0 <= i < len ==> digits[i] < 10
    {
      ghost var spec := D.ReadNumber(Rest(), len, 0);
      for i := 0 to len
        invariant pos <= |text|
        invariant forall j :: 0 <= j < i ==> digits[j] < 10
        invariant spec == D.ReadNumber(Rest(), len - i, I.Value(10, digits[..i]))
      {
        if pos == |text| {
          return Failure(EndOfFile);
        }
        if !IsDecimalDigit(text[pos].value) {
          return Failure(ExpectedDigit);
        }
        ghost var before := digits[..i];
        digits[i] := text[pos].value - 0x30;
        assert digits[..i + 1] == before + [digits[i]];
        ValueSnoc(before, digits[i]);
        pos := pos + 1;
      }
      return Value(());
    }

    /** A number of two or four digits, in range. */
    method ReadField(len: nat, lo: nat, hi: nat) returns (r: Result<nat>)
      requires pos <= |text| && (len == 2 || len == 4)
      modifies this
      ensures Returns(r, D.ReadField(old(Rest()), len, lo, hi))
    {
      var digits := new nat[len];
      var ok := ConsumeDigitSequence(digits, len);
      if ok.Failure? {
        return Failure(ok.error);
      }
      var v;
      if len == 2 {
        v := digits[1] + digits[0] * 10;
        TwoDigits(digits[..len]);
      } else {
        v := digits[3] + digits[2] * 10 + digits[1] * 100 + digits[0] * 1000;
        FourDigits(digits[..len]);
      }
      return if lo <= v <= hi then Value(v) else Failure(FieldOutOfRange);
    }

    /** A required separator that does not end the text. */
    method Skip(c: char) returns (r: Result<()>)
      requires pos <= |text|
      modifies this
      ensures Returns(r, D.Skip(old(Rest()), c))
    {
      if pos == |text| {
        return Failure(EndOfFile);
      }
      if text[pos].value != Code(c) {
        return Failure(ExpectedSeparator);
      }
      pos := pos + 1;
      return if pos == |text| then Failure(EndOfFile) else Value(());
    }

    method ReadNext(c: char, len: nat, lo: nat, hi: nat) returns (r: Result<nat>)
      requires pos <= |text| && (len == 2 || len == 4)
      modifies this
      ensures Returns(r, D.ReadNext(old(Rest()), c, len, lo, hi))
    {
      var ok := Skip(c);
      if ok.Failure? {
        return Failure(ok.error);
      }
      r := ReadField(len, lo, hi);
    }

    /** parse_date. */
    method ParseDate(partOfDateTime: bool) returns (r: Result<D.Date>)
      requires pos <= |text|
      modifies this
      ensures Returns(r, D.ParseDate(old(Rest()), partOfDateTime))
    {
      var year := ReadField(4, 0, 9999);
      if year.Failure? {
        return Failure(year.error);
      }
      var month := ReadNext('-', 2, 1, 12);
      if month.Failure? {
        return Failure(month.error);
      }
      var day := ReadNext('-', 2, 1, D.DaysIn(year.value, month.value));
      if day.Failure? {
        return Failure(day.error);
      }
      if !partOfDateTime && pos < |text| && !IsValueTerminator(text[pos].value) {
        return Failure(ExpectedTerminator);
      }
      return Value(D.Date(year.value, month.value, day.value));
    }

    /** The digits after the decimal point, scaled to nanoseconds in 32 bits. */
    method ReadFraction(partOfDateTime: bool) returns (r: Result<nat>)
      requires pos <= |text|
      modifies this
      ensures Returns(r, D.ReadFraction(old(Rest()), partOfDateTime))
    {
      ghost var before := Rest();
      var digits := new nat[9];
      var count := ConsumeVariableLengthDigitSequence(digits, 9);
      ghost var after, v := Rest(), I.Value(10, digits[..count]);
      FractionCases(before, partOfDateTime, count, v, after);
      r := FinishFraction(digits, count, partOfDateTime);
    }

    method FinishFraction(digits: array<nat>, count: nat, partOfDateTime: bool) returns (r: Result<nat>)
      requires pos <= |text| && digits.Length == 9 && count <= 9 && forall i :: 0 <= i < count ==> digits[i] < 10
      ensures Returns(r, FractionOutcome(Rest(), count, partOfDateTime, I.Value(10, digits[..count])))
    {
      if count == 0 {
        return if pos == |text| then Failure(EndOfFile) else Failure(ExpectedDigit);
      }
      if pos < |text| {
        if count == 9 && IsDecimalDigit(text[pos].value) {
          return Failure(TooPrecise);
        } else if !partOfDateTime && !IsValueTerminator(text[pos].value) {
          return Failure(ExpectedTerminator);
        }
      }
      var value := ScaleFraction(digits, count);
      return Value(value);
    }

    /** consume_variable_length_digit_sequence. */
    method ConsumeVariableLengthDigitSequence(digits: array<nat>, max: nat) returns (count: nat)
      requires pos <= |text| && max <= digits.Length
      modifies this, digits
      ensures count == D.DigitRun(old(Rest()), max) && pos == old(pos) + count <= |text|
      ensures forall i :: 0 <= i < count ==> digits[i] < 10
      ensures D.ReadNumber(old(Rest()), count, 0) == Ok(I.Value(10, digits[..count]), Rest())
    {
      ghost var before := Rest();
      count := 0;
      while count < max
        invariant count <= max && pos == old(pos) + count <= |text|
        invariant forall j :: 0 <= j < count ==>
          IsDecimalDigit(before[j].value) && digits[j] == before[j].value - 0x30
      {
        if pos == |text| || !IsDecimalDigit(text[pos].value) {
          break;
        }
        assert before[count] == text[pos];
        digits[count] := text[pos].value - 0x30;
        pos := pos + 1;
        count := count + 1;
      }
      RunIs(before, max, count);
      ReadDigits(before, digits[..count]);
    }

    /** parse_time. */
    method ParseTime(partOfDateTime: bool) returns (r: Result<D.Time>)
      requires pos <= |text|
      modifies this
      ensures Returns(r, D.ParseTime(old(Rest()), partOfDateTime))
    {
      ghost var before := Rest();
      var clock := ReadClock();
      if clock.Failure? {
        return Failure(clock.error);
      }
      if pos == |text| || IsValueTerminator(text[pos].value)
        || (partOfDateTime && D.IsOffsetStart(text[pos].value))
      {
        return clock;
      }
      var point := Skip('.');
      if point.Failure? {
        return Failure(point.error);
      }
      var nanosecond := ReadFraction(partOfDateTime);
      if nanosecond.Failure? {
        return Failure(nanosecond.error);
      }
      return Value(clock.value.(nanosecond := nanosecond.value));
    }

    method ReadClock() returns (r: Result<D.Time>)
      requires pos <= |text|
      modifies this
      ensures Returns(r, D.ReadClock(old(Rest())))
    {
      var hour := ReadField(2, 0, 23);
      if hour.Failure? {
        return Failure(hour.error);
      }
      var minute := ReadNext(':', 2, 0, 59);
      if minute.Failure? {
        return Failure(minute.error);
      }
      var second := ReadNext(':', 2, 0, 59);
      if second.Failure? {
        return Failure(second.error);
      }
      return Value(D.Time(hour.value, minute.value, second.value, 0));
    }

    method ReadOffsetMinutes() returns (r: Result<int>)
      requires pos <= |text|
      modifies this
      ensures Returns(r, D.ReadOffsetMinutes(old(Rest())))
    {
      var hour := ReadField(2, 0, 23);
      if hour.Failure? {
        return Failure(hour.error);
      }
      ghost var rest := Rest();
      var minute := ReadNext(':', 2, 0, 59);
      if minute.Failure? {
        return Failure(minute.error);
      }
      assert D.ReadNext(rest, ':', 2, 0, 59) == Ok(minute.value, Rest());
      return Value(hour.value * 60 + minute.value);
    }

    /** The offset at the end of parse_date_time. */
    method ParseOffset() returns (r: Result<Option<int>>)
      requires pos <= |text|
      modifies this
      ensures Returns(r, D.ParseOffset(old(Rest())))
    {
      ghost var before := Rest();
      if pos == |text| || IsValueTerminator(text[pos].value) {
        return Value(None);
      }
      var minutes: int := 0;
      var c := text[pos].value;
      if c == Code('Z') {
        pos := pos + 1;
        assert Rest() == before[1..];
      } else if c == Code('+') || c == Code('-') {
        var sign: int := if c == Code('-') then -1 else 1;
        pos := pos + 1;
        if pos == |text| {
          return Failure(EndOfFile);
        }
        assert Rest() == before[1..];
        var m := ReadOffsetMinutes();
        if m.Failure? {
          return Failure(m.error);
        }
        minutes := m.value * sign;
      }
      if pos < |text| && !IsValueTerminator(text[pos].value) {
        return Failure(ExpectedTerminator);
      }
      return Value(Some(minutes));
    }

    /** parse_date_time. */
    method ParseDateTime() returns (r: Result<D.DateTime>)
      requires pos <= |text|
      modifies this
      ensures Returns(r, D.ParseDateTime(old(Rest())))
    {
      var date := ParseDate(true);
      if date.Failure? {
        return Failure(date.error);
      }
      if pos == |text| {
        return Failure(EndOfFile);
      }
      if text[pos].value != Code(' ') && text[pos].value != Code('T') {
        return Failure(ExpectedSeparator);
      }
      ghost var before := Rest();
      pos := pos + 1;
      if pos == |text| {
        return Failure(EndOfFile);
      }
      assert Rest() == before[1..];
      var time := ParseTime(true);
      if time.Failure? {
        return Failure(time.error);
      }
      var offset := ParseOffset();
      if offset.Failure? {
        return Failure(offset.error);
      }
      return Value(D.DateTime(date.value, time.value, offset.value));
    }

    // ------------------------------------------------------------ integers

    /** The sign of a decimal, or the prefix of another base. */
    method ReadOpening(b: I.Base) returns (r: Result<int>)
      requires pos < |text|
      modifies this
      ensures Returns(r, I.Open(b, old(Rest())))
    {
      ghost var before := Rest();
      var sign: int := 1;
      if b.Decimal? {
        sign := if text[pos].value == Code('-') then -1 else 1;
        if I.IsSign(text[pos].value) {
          pos := pos + 1;
          if pos == |text| {
            return Failure(EndOfFile);
          }
          assert text[pos] == before[1] && Rest() == before[1..];
        }
        return if I.IsDigit(b, text[pos].value) then Value(sign) else Failure(ExpectedDigit);
      }
      if text[pos].value != 0x30 {
        return Failure(ExpectedPrefix);
      }
      pos := pos + 1;
      if pos == |text| {
        return Failure(EndOfFile);
      }
      if text[pos].value != I.Prefix(b) {
        return Failure(ExpectedPrefix);
      }
      pos := pos + 1;
      return if pos == |text| then Failure(EndOfFile) else Value(sign);
    }

    // One digit more in the buffer.
    static method KeepDigit(b: I.Base, chars: array<nat>, length: nat, v: nat, ghost digits: seq<nat>)
      returns (ghost digits': seq<nat>)
      requires Holds(b, chars[..], digits) && length == |digits| < chars.Length && I.IsDigit(b, v)
      modifies chars
      ensures digits' == digits + [I.DigitValue(b, v)] && Holds(b, chars[..], digits')
    {
      HoldsMore(b, chars[..], digits, v);
      chars[length] := v;
      digits' := digits + [I.DigitValue(b, v)];
    }

    /** The digits up to the end of the value, into a buffer that never overflows. */
    method CollectDigits(b: I.Base, chars: array<nat>) returns (r: Result<nat>)
      requires pos <= |text| && chars.Length == I.BufferLength(b)
      modifies this, chars
      ensures match I.Collect(b, old(Rest()), I.NoChar, [])
        case Ok(digits, rest) =>
          r == Value(|digits|) && pos <= |text| && Rest() == rest && Holds(b, chars[..], digits)
        case Err(e) => r == Failure(e)
    {
      ghost var spec := I.Collect(b, Rest(), I.NoChar, []);
      ghost var digits: seq<nat> := [];
      var length := 0;
      var prev := I.NoChar;
      while pos < |text| && !IsValueTerminator(text[pos].value)
        invariant pos <= |text| && length == |digits| && Holds(b, chars[..], digits)
        invariant spec == I.Collect(b, Rest(), prev, digits)
        decreases |text| - pos
      {
        var v := text[pos].value;
        if v == I.UNDERSCORE {
          if !prev.DigitChar? {
            return Failure(BadUnderscore);
          }
          prev := I.UnderscoreChar;
          pos := pos + 1;
          if pos == |text| {
            return Failure(EndOfFile);
          }
        } else if !I.IsDigit(b, v) {
          return if prev.UnderscoreChar? then Failure(BadUnderscore) else Failure(ExpectedDigit);
        } else if length == chars.Length {
          return Failure(TooLong);
        } else {
          digits := KeepDigit(b, chars, length, v, digits);
          length := length + 1;
          prev := I.DigitChar;
          pos := pos + 1;
        }
      }
      if prev.UnderscoreChar? {
        return if pos == |text| then Failure(EndOfFile) else Failure(BadUnderscore);
      }
      return Value(length);
    }

    /** parse_integer. */
    method ParseInteger(b: I.Base) returns (r: Result<int>)
      requires pos < |text|
      modifies this
      ensures Returns(r, I.ParseInteger(b, old(Rest())))
    {
      var sign := ReadOpening(b);
      if sign.Failure? {
        return Failure(sign.error);
      }
      var chars := new nat[I.BufferLength(b)];
      ghost var digits := I.Collect(b, Rest(), I.NoChar, []);
      I.CollectDigitsBelow(b, Rest(), I.NoChar, []);
      var length := CollectDigits(b, chars);
      if length.Failure? {
        return Failure(length.error);
      }
      if b.Decimal? && length.value > 0 && chars[0] == 0x30 {
        return Failure(LeadingZero);
      }
      if length.value == 1 {
        return Value(I.DigitValue(b, chars[0]));
      }
      var result := ComputeValue(b, chars, length.value, digits.value);
      if result > I.INT64_MAX + (if sign.value < 0 then 1 else 0) {
        return Failure(OutOfRange);
      }
      if b.Decimal? {
        return Value(I.Multiply64(I.ToInt64(result), sign.value));
      }
      return Value(I.ToInt64(result));
    }

    // Every character but an underscore goes into the buffer.
    static method KeepChar(chars: array<nat>, count: nat, c: nat, ghost whole: seq<CodePoint>, ghost advanced: nat,
                           ghost kept: seq<nat>)
      returns (count': nat, ghost kept': seq<nat>)
      requires advanced < |whole| && advanced < chars.Length == V.MAX_HISTORY_LENGTH
      requires c == whole[advanced].value && !IsValueTerminator(c)
      requires V.Scanning(whole, advanced, kept) && count == |kept| <= advanced && chars[..count] == kept
      modifies chars
      ensures V.Scanning(whole, advanced + 1, kept') && count' == |kept'| <= advanced + 1 && chars[..count'] == kept'
    {
      V.ScanningNext(whole, advanced, kept);
      count', kept' := count, kept;
      if c != I.UNDERSCORE {
        chars[count] := c;
        count', kept' := count + 1, kept + [c];
      }
    }

    /** The scan ahead of parse_value: how many characters it keeps.  The cursor is set back to
        where it was. */
    method Scan(chars: array<nat>) returns (count: nat)
      requires pos < |text| && chars.Length == V.MAX_HISTORY_LENGTH
      modifies this, chars
      ensures pos == old(pos) && count <= chars.Length && chars[..count] == V.Chars(Rest())
    {
      ghost var whole, kept: seq<nat> := Rest(), [];
      var advanced := 0;
      count := 0;
      V.ScanningStart(whole);
      assert chars[..0] == [];
      while advanced < V.MAX_HISTORY_LENGTH && pos < |text| && !IsValueTerminator(text[pos].value)
        invariant pos == old(pos) + advanced <= |text| && advanced <= V.MAX_HISTORY_LENGTH
        invariant count == |kept| <= advanced && chars[..count] == kept && V.Scanning(whole, advanced, kept)
        decreases |text| - pos
      {
        count, kept := KeepChar(chars, count, text[pos].value, whole, advanced, kept);
        pos := pos + 1;
        advanced := advanced + 1;
      }
      pos := pos - advanced;
      V.ScanningEnd(whole, advanced, kept);
    }

    /** parse_value on what looks like a decimal integer. */
    method ParseDecimal() returns (r: Result<int>)
      requires pos < |text| && V.LooksDecimal(Rest())
      modifies this
      ensures Returns(r, V.ParseDecimal(old(Rest())))
    {
      var chars := new nat[V.MAX_HISTORY_LENGTH];
      var count := Scan(chars);
      ghost var kept, whole := V.Chars(Rest()), Rest();
      if count == 1 {
        assert chars[0] == kept[0];
        if !IsDecimalDigit(chars[0]) { return Failure(UnknownType); }
        pos := pos + 1;
        assert Rest() == whole[1..];
        return Value(chars[0] - 0x30);
      }
      if count == 2 && I.IsSign(chars[0]) && pos + 1 < |text| {
        assert chars[0] == kept[0] && chars[1] == kept[1];
        pos := pos + 2;
        assert Rest() == whole[2..];
        return Value((chars[1] as int - 0x30) * (if chars[1] == Code('-') then -1 else 1));
      }
      assert count == 2 ==> chars[0] == kept[0];
      r := ParseInteger(I.Decimal);
    }
  }

  // The buffer begins with these digits.
  ghost predicate Holds(b: I.Base, chars: seq<nat>, digits: seq<nat>) {
    |digits| <= |chars| && forall i :: 0 <= i < |digits| ==>
      I.IsDigit(b, chars[i]) && I.DigitValue(b, chars[i]) == digits[i]
  }

  lemma HoldsMore(b: I.Base, chars: seq<nat>, digits: seq<nat>, c: nat)
    requires Holds(b, chars, digits) && |digits| < |chars| && I.IsDigit(b, c)
    ensures Holds(b, chars[|digits| := c], digits + [I.DigitValue(b, c)])
  {
  }

  /** The sum of digit times place value, from the last digit, in wrapping 64-bit arithmetic:
      for what fits the digit buffer, no sum or product that is used wraps. */
  method ComputeValue(b: I.Base, chars: array<nat>, length: nat, ghost digits: seq<nat>) returns (result: nat)
    requires length == |digits| <= I.BufferLength(b) && chars.Length == I.BufferLength(b)
    requires Holds(b, chars[..], digits) && I.DigitsBelow(I.Radix(b), digits)
    ensures result == I.Value(I.Radix(b), digits)
  {
    var msd := 0;
    while msd < length && chars[msd] == 0x30
      invariant msd <= length && forall i :: 0 <= i < msd ==> digits[i] == 0
    {
      msd := msd + 1;
    }
    LeadingZeros(I.Radix(b), digits, msd);
    result := 0;
    if msd == length {
      assert digits[msd..] == [];
      return;
    }
    var power := 1;
    var end := length;
    assert digits[length..] == [];
    while end > msd
      invariant msd <= end <= length
      invariant result == I.Value(I.Radix(b), digits[end..])
      invariant end > 0 ==> power == Pow(I.Radix(b), length - end)
    {
      end := end - 1;
      SumStep(b, digits, end, result, power);
      result := Add64(result, Mul64(power, I.DigitValue(b, chars[end])));
      power := Mul64(power, I.Radix(b));
    }
  }

  // uint64_t arithmetic.
  function Add64(a: nat, b: nat): nat { (a + b) % I.TWO_64 }

  function Mul64(a: nat, b: nat): nat { (a * b) % I.TWO_64 }

  // The value of a number from its first digit and the rest.
  lemma {:induction false} ValueSplit(radix: nat, digits: seq<nat>)
    requires digits != []
    ensures I.Value(radix, digits) == digits[0] * Pow(radix, |digits| - 1) + I.Value(radix, digits[1..])
  {
    var n := |digits| - 1;
    if n == 0 {
      assert digits[..0] == [] && digits[1..] == [];
    } else {
      var init := digits[..n];
      ValueSplit(radix, init);
      assert digits[1..][..n - 1] == init[1..];
      SplitStep(radix, init[0], Pow(radix, n - 1), I.Value(radix, init[1..]));
    }
  }

  lemma SplitStep(radix: nat, d: nat, p: nat, v: nat)
    ensures (d * p + v) * radix == d * (radix * p) + v * radix
  {
  }

  lemma {:induction false} LeadingZeros(radix: nat, digits: seq<nat>, n: nat)
    requires n <= |digits| && forall i :: 0 <= i < n ==> digits[i] == 0
    ensures I.Value(radix, digits) == I.Value(radix, digits[n..])
    decreases n
  {
    if n == 0 {
      assert digits[0..] == digits;
    } else {
      ValueSplit(radix, digits);
      LeadingZeros(radix, digits[1..], n - 1);
      assert digits[1..][n - 1..] == digits[n..];
    }
  }

  // One step of the sum: neither the sum, nor the product, nor a place value still needed wraps.
  lemma SumStep(b: I.Base, digits: seq<nat>, end: nat, result: nat, power: nat)
    requires end < |digits| <= I.BufferLength(b) && I.DigitsBelow(I.Radix(b), digits)
    requires result == I.Value(I.Radix(b), digits[end + 1..])
    requires power == Pow(I.Radix(b), |digits| - end - 1)
    ensures Add64(result, Mul64(power, digits[end])) == I.Value(I.Radix(b), digits[end..])
    ensures end > 0 ==> Mul64(power, I.Radix(b)) == Pow(I.Radix(b), |digits| - end)
  {
    var suffix := digits[end..];
    assert suffix[1..] == digits[end + 1..] && suffix[0] == digits[end];
    ValueSplit(I.Radix(b), suffix);
    I.BufferFits(b, suffix);
    SumFits(power, result, digits[end]);
    if end > 0 {
      PowFits(b, |digits| - end);
      ProductFits(power, I.Radix(b));
    }
  }

  lemma SumFits(p: nat, v: nat, d: nat)
    requires d * p + v < I.TWO_64
    ensures Add64(v, Mul64(p, d)) == d * p + v
  {
    ProductFits(p, d);
  }

  lemma ProductFits(a: nat, b: nat)
    requires b * a < I.TWO_64
    ensures Mul64(a, b) == b * a
  {
    assert a * b == b * a;
  }

  lemma PowFits(b: I.Base, n: nat)
    requires n < I.BufferLength(b)
    ensures Pow(I.Radix(b), n) < I.TWO_64
  {
    I.PowMonotone(I.Radix(b), n, I.BufferLength(b) - 1);
    I.PowMonotone(I.Radix(b), n + 1, I.BufferLength(b));
    I.Powers();
  }

  /** value += digits[i] * place from the last digit, then one zero for each missing one: never
      beyond 32 bits. */
  method ScaleFraction(digits: array<nat>, count: nat) returns (value: nat)
    requires 0 < count <= 9 <= digits.Length && forall i :: 0 <= i < count ==> digits[i] < 10
    ensures value == D.Scaled(I.Value(10, digits[..count]), 9 - count) < 0x1_0000_0000
  {
    value := SumDigits(digits, count);
    ghost var sum := value;
    var i := count;
    while i < 9
      invariant count <= i <= 9 && value == D.Scaled(sum, i - count)
    {
      value := value * 10;
      i := i + 1;
    }
    I.ValueBelow(10, digits[..count]);
    D.ScaledBound(sum, count, 9 - count);
    D.Pow10Values();
  }

  method SumDigits(digits: array<nat>, count: nat) returns (value: nat)
    requires count <= digits.Length
    ensures value == I.Value(10, digits[..count])
  {
    ghost var all := digits[..count];
    value := 0;
    var place := 1;
    var i := count;
    assert all[..count] == all;
    while i > 0
      invariant i <= count && Summing(all, i, place, value)
    {
      i := i - 1;
      SummingNext(all, i, place, value);
      value := value + digits[i] * place;
      place := place * 10;
    }
  }

  // The sum of the digits from this one on.
  ghost predicate Summing(digits: seq<nat>, i: nat, place: nat, value: nat) {
    && i <= |digits| && place == Pow(10, |digits| - i)
    && value + I.Value(10, digits[..i]) * place == I.Value(10, digits)
  }

  lemma SummingNext(digits: seq<nat>, i: nat, place: nat, value: nat)
    requires i < |digits| && Summing(digits, i + 1, place, value)
    ensures Summing(digits, i, place * 10, value + digits[i] * place)
  {
    assert digits[..i + 1][..i] == digits[..i];
    DigitPlace(I.Value(10, digits[..i]), digits[i], place);
  }

  lemma DigitPlace(v: nat, d: nat, place: nat)
    ensures (v * 10 + d) * place == d * place + v * (place * 10)
  {
  }

  lemma ValueSnoc(digits: seq<nat>, d: nat)
    ensures I.Value(10, digits + [d]) == I.Value(10, digits) * 10 + d
  {
    assert (digits + [d])[..|digits|] == digits;
  }

  lemma TwoDigits(ds: seq<nat>)
    requires |ds| == 2
    ensures I.Value(10, ds) == ds[1] + ds[0] * 10
  {
    assert ds[..1][..0] == [] && ds[..1][0] == ds[0];
    assert I.Value(10, ds[..1]) == ds[0];
  }

  lemma FourDigits(ds: seq<nat>)
    requires |ds| == 4
    ensures I.Value(10, ds) == ds[3] + ds[2] * 10 + ds[1] * 100 + ds[0] * 1000
  {
    TwoDigits(ds[..2]);
    assert ds[..3][..2] == ds[..2] && ds[..3][2] == ds[2];
    assert I.Value(10, ds[..3]) == I.Value(10, ds[..2]) * 10 + ds[2];
  }

  lemma {:induction false} RunIs(text: seq<CodePoint>, max: nat, n: nat)
    requires n <= max && n <= |text| && forall i :: 0 <= i < n ==> IsDecimalDigit(text[i].value)
    requires n == max || n == |text| || !IsDecimalDigit(text[n].value)
    ensures D.DigitRun(text, max) == n
    decreases n
  {
    if n > 0 { RunIs(text[1..], max - 1, n - 1); }
  }

  // The number spelled by digits that begin the text.
  lemma ReadDigits(text: seq<CodePoint>, digits: seq<nat>)
    requires |digits| <= |text|
    requires forall j :: 0 <= j < |digits| ==> IsDecimalDigit(text[j].value) && digits[j] == text[j].value - 0x30
    ensures D.ReadNumber(text, |digits|, 0) == Ok(I.Value(10, digits), text[|digits|..])
  {
    ReadDigitsFrom(text, 0, digits);
    assert digits[..0] == [] && text[0..] == text;
  }

  lemma {:induction false} ReadDigitsFrom(text: seq<CodePoint>, i: nat, digits: seq<nat>)
    requires i <= |digits| <= |text|
    requires forall j :: 0 <= j < |digits| ==> IsDecimalDigit(text[j].value) && digits[j] == text[j].value - 0x30
    ensures D.ReadNumber(text[i..], |digits| - i, I.Value(10, digits[..i])) == Ok(I.Value(10, digits), text[|digits|..])
    decreases |digits| - i
  {
    if i == |digits| {
      assert digits[..i] == digits;
    } else {
      assert digits[..i + 1] == digits[..i] + [digits[i]];
      ValueSnoc(digits[..i], digits[i]);
      ReadDigitsFrom(text, i + 1, digits);
    }
  }

  // What parse_basic_string owes in the middle of a string; escaped after a backslash.
  ghost function Owed(escaped: bool, text: seq<CodePoint>, str: seq<byte>): Parsed<seq<byte>> {
    if !escaped then S.Body(text, str) else if text == [] then Err(EndOfFile) else AfterBackslash(text, str)
  }

  ghost function AfterBackslash(text: seq<CodePoint>, str: seq<byte>): Parsed<seq<byte>>
    requires text != []
  {
    match S.Escape(text)
    case Err(e) => Err(e)
    case Ok(bytes, rest) => S.Body(rest, str + bytes)
  }

  // The outcomes of reading a fraction, given its digits.
  lemma FractionCases(text: seq<CodePoint>, partOfDateTime: bool, n: nat, v: nat, rest: seq<CodePoint>)
    requires n == D.DigitRun(text, 9) && rest == text[n..] && D.ReadNumber(text, n, 0) == Ok(v, rest)
    ensures D.ReadFraction(text, partOfDateTime) == FractionOutcome(rest, n, partOfDateTime, v)
  {
  }

  ghost function FractionOutcome(rest: seq<CodePoint>, n: nat, partOfDateTime: bool, v: nat): Parsed<nat>
    requires n <= 9
  {
    if n == 0 then (if rest == [] then Err(EndOfFile) else Err(ExpectedDigit))
    else if n == 9 && rest != [] && IsDecimalDigit(rest[0].value) then Err(TooPrecise)
    else if !partOfDateTime && !AtValueEnd(rest) then Err(ExpectedTerminator)
    else Ok(D.Scaled(v, 9 - n), rest)
  }

  // The loop over the digits of an escape, with so many left to read.
  ghost predicate ReadingHex(spec: Parsed<nat>, text: seq<CodePoint>, digits: nat, left: nat, read: nat, place: nat,
                             sum: nat) {
    && left <= digits && place == Place(left) && (place > 0 <==> left > 0)
    && sum == read * Pow(16, left) && read < Pow(16, digits - left)
    && spec == S.ReadHex(text, left, read)
  }

  lemma HexStart(text: seq<CodePoint>, digits: nat)
    ensures ReadingHex(S.ReadHex(text, digits, 0), text, digits, digits, 0, Place(digits), 0)
  {
    PlaceStep(0, 0, digits);
  }

  // What ends the loop, for good or ill.
  lemma HexStops(spec: Parsed<nat>, text: seq<CodePoint>, digits: nat, left: nat, read: nat, place: nat, sum: nat)
    requires ReadingHex(spec, text, digits, left, read, place, sum)
    ensures place == 0 ==> spec == Ok(sum, text) && sum < Pow(16, digits)
    ensures place > 0 && text == [] ==> spec == Err(EndOfFile)
    ensures place > 0 && text != [] && !IsHexDigit(text[0].value) ==> spec == Err(BadHexDigit)
  {
  }

  lemma HexStep(spec: Parsed<nat>, text: seq<CodePoint>, digits: nat, left: nat, read: nat, place: nat, sum: nat)
    requires ReadingHex(spec, text, digits, left, read, place, sum) && place > 0
    requires text != [] && IsHexDigit(text[0].value)
    ensures var d := HexToDec(text[0].value);
      ReadingHex(spec, text[1..], digits, left - 1, read * 16 + d, place / 16, sum + place * d)
  {
    var d := HexToDec(text[0].value);
    PlaceStep(read, d, left);
    PlaceStep(read, d, left - 1);
    PlaceBound(read, d, digits - left);
  }

  // One character of a string body.
  lemma BodyStep(text: seq<CodePoint>, str: seq<byte>)
    requires text != []
    ensures S.Body(text, str) ==
      if text[0].value == 0x22 then Ok(str, text[1..])
      else if text[0].value == 0x5C then Owed(true, text[1..], str)
      else if IsNontabControl(text[0].value) then Err(ControlCharacter)
      else if IsSurrogate(text[0].value) then Err(Surrogate)
      else S.Body(text[1..], str + text[0].bytes)
  {
  }

  lemma Pow16Values()
    ensures Pow(16, 3) == 0x1000 && Pow(16, 4) == 0x10000 && Pow(16, 7) == 0x1000_0000 && Pow(16, 8) == 0x1_0000_0000
  {
    assert Pow(16, 2) == 256;
    assert Pow(16, 5) == 0x10_0000 && Pow(16, 6) == 0x100_0000;
  }

  // The place value of the next digit when that many are left.
  function Place(left: nat): nat { if left == 0 then 0 else Pow(16, left - 1) }

  lemma PlaceStep(read: nat, d: nat, left: nat)
    ensures left > 0 ==> Place(left) > 0 && Place(left) / 16 == Place(left - 1)
    ensures left > 0 ==> read * Pow(16, left) + Place(left) * d == (read * 16 + d) * Pow(16, left - 1)
  {
    if left > 0 {
      var p := Pow(16, left - 1);
      assert read * (16 * p) == (read * 16) * p;
    }
  }

  lemma PlaceBound(read: nat, d: nat, n: nat)
    requires read < Pow(16, n) && d < 16
    ensures read * 16 + d < Pow(16, n + 1)
  {
  }
}
