/** Integers of toml.hpp: `parse_integer` for bases 2, 8, 10 and 16 (lines 6521-6555, 7791-7907). */
module TomlIntegers {
  import opened Basics
  import opened Utf8
  import opened TomlText

  datatype Base = Binary | Octal | Decimal | Hexadecimal

  const INT64_MAX := 0x7FFF_FFFF_FFFF_FFFF
  const TWO_64 := 0x1_0000_0000_0000_0000

  // parse_integer_traits
  function Radix(b: Base): (r: nat)
    ensures 2 <= r <= 16
  {
    match b
    case Binary => 2
    case Octal => 8
    case Decimal => 10
    case Hexadecimal => 16
  }

  function BufferLength(b: Base): nat {
    match b
    case Binary => 63
    case Octal => 21
    case Decimal => 19
    case Hexadecimal => 16
  }

  function Prefix(b: Base): nat {
    match b
    case Binary => Code('b')
    case Octal => Code('o')
    case Decimal => 0
    case Hexadecimal => Code('x')
  }

  predicate IsDigit(b: Base, v: nat) {
    match b
    case Binary => v == 0x30 || v == 0x31
    case Octal => 0x30 <= v <= 0x37
    case Decimal => IsDecimalDigit(v)
    case Hexadecimal => IsHexDigit(v)
  }

  function DigitValue(b: Base, v: nat): (d: nat)
    requires IsDigit(b, v)
    ensures d < Radix(b)
  {
    if b.Hexadecimal? then HexToDec(v) else v - 0x30
  }

  const UNDERSCORE := 0x5F

  // ---------------------------------------------------------------- parsing

  datatype Previous = NoChar | DigitChar | UnderscoreChar

  // The loop that collects the digits up to the end of the value.
  function Collect(b: Base, text: seq<CodePoint>, prev: Previous, digits: seq<nat>): Parsed<seq<nat>>
    decreases |text|
  {
    if AtValueEnd(text) then
      if !prev.UnderscoreChar? then Ok(digits, text)
      else if text == [] then Err(EndOfFile)
      else Err(BadUnderscore)
    else
      var v := text[0].value;
      if v == UNDERSCORE then
        if !prev.DigitChar? then Err(BadUnderscore)
        else if |text| == 1 then Err(EndOfFile)
        else Collect(b, text[1..], UnderscoreChar, digits)
      else if !IsDigit(b, v) then (if prev.UnderscoreChar? then Err(BadUnderscore) else Err(ExpectedDigit))
      else if |digits| == BufferLength(b) then Err(TooLong)
      else Collect(b, text[1..], DigitChar, digits + [DigitValue(b, v)])
  }

  // The number that digits spell, most significant first.
  function Value(radix: nat, digits: seq<nat>): nat {
    if digits == [] then 0 else Value(radix, digits[..|digits| - 1]) * radix + digits[|digits| - 1]
  }

  function ToInt64(v: nat): int { if v % TWO_64 <= INT64_MAX then v % TWO_64 else v % TWO_64 - TWO_64 }

  // A signed 64-bit product, as two's complement.
  function Multiply64(a: int, b: int): int { ToInt64(((a * b) % TWO_64) as nat) }

  // The end of parse_integer: from the digits to the result.
  function Finish(b: Base, sign: int, digits: seq<nat>, rest: seq<CodePoint>): Parsed<int>
    requires sign == 1 || sign == -1
  {
    if b.Decimal? && digits != [] && digits[0] == 0 then Err(LeadingZero)
    else if |digits| == 1 then Ok(digits[0], rest)   // the sign is not applied
    else
      var v := Value(Radix(b), digits);
      if v > INT64_MAX + (if sign < 0 then 1 else 0) then Err(OutOfRange)
      else if b.Decimal? then Ok(Multiply64(ToInt64(v), sign), rest)
      else Ok(ToInt64(v), rest)
  }

  predicate IsSign(v: nat) { v == Code('+') || v == Code('-') }

  // Everything before the digits: the sign and the position after it, or the prefix.
  function Open(b: Base, text: seq<CodePoint>): Parsed<int>
    requires text != []
  {
    var v := text[0].value;
    if b.Decimal? then
      var sign := if v == Code('-') then -1 else 1;
      if !IsSign(v) then (if IsDigit(b, v) then Ok(1, text) else Err(ExpectedDigit))
      else if |text| == 1 then Err(EndOfFile)
      else if IsDigit(b, text[1].value) then Ok(sign, text[1..])
      else Err(ExpectedDigit)
    else if v != 0x30 then Err(ExpectedPrefix)
    else if |text| == 1 then Err(EndOfFile)
    else if text[1].value != Prefix(b) then Err(ExpectedPrefix)
    else if |text| == 2 then Err(EndOfFile)
    else Ok(1, text[2..])
  }

  function ParseInteger(b: Base, text: seq<CodePoint>): Parsed<int>
    requires text != []
  {
    match Open(b, text)
    case Err(e) => Err(e)
    case Ok(sign, t1) =>
      match Collect(b, t1, NoChar, [])
      case Err(e) => Err(e)
      case Ok(digits, rest) =>
        assert Open(b, text).Ok? ==> sign == 1 || sign == -1;
        Finish(b, sign, digits, rest)
  }

  // ---------------------------------------------------------------- what is a legal integer

  // Digits with single underscores between them.
  predicate Legal(b: Base, body: seq<CodePoint>) {
    forall i: nat :: i < |body| ==> DigitOrSeparator(b, body, i)
  }

  predicate DigitOrSeparator(b: Base, body: seq<CodePoint>, i: nat)
    requires i < |body|
  {
    if body[i].value == UNDERSCORE then 0 < i < |body| - 1 && body[i - 1].value != UNDERSCORE
    else IsDigit(b, body[i].value)
  }

  // The digits of a legal body.
  function DigitsOf(b: Base, body: seq<CodePoint>): seq<nat> {
    if body == [] then []
    else if IsDigit(b, body[0].value) then [DigitValue(b, body[0].value)] + DigitsOf(b, body[1..])
    else DigitsOf(b, body[1..])
  }

  // Legal, continuing after a character of the given kind.
  predicate LegalAfter(b: Base, prev: Previous, body: seq<CodePoint>) {
    && (forall i: nat :: i < |body| ==> LegalAt(b, prev, body, i))
    && (prev.UnderscoreChar? ==> body != [])
  }

  lemma LegalIsLegalAfter(b: Base, body: seq<CodePoint>)
    ensures Legal(b, body) <==> LegalAfter(b, NoChar, body)
  {
    forall i: nat | i < |body| ensures LegalAt(b, NoChar, body, i) <==> DigitOrSeparator(b, body, i) { }
  }

  // No character of the body ends a value.
  predicate InsideValue(body: seq<CodePoint>) {
    forall i :: 0 <= i < |body| ==> !IsValueTerminator(body[i].value)
  }

  /** The collecting loop accepts exactly the legal bodies that fit its buffer. */
  lemma {:induction false} CollectExact(b: Base, body: seq<CodePoint>, rest: seq<CodePoint>, prev: Previous,
                                        digits: seq<nat>)
    requires InsideValue(body) && AtValueEnd(rest) && |digits| <= BufferLength(b)
    ensures Collect(b, body + rest, prev, digits).Ok?
      <==> LegalAfter(b, prev, body) && |digits| + |DigitsOf(b, body)| <= BufferLength(b)
    ensures Collect(b, body + rest, prev, digits).Ok? ==>
      Collect(b, body + rest, prev, digits) == Ok(digits + DigitsOf(b, body), rest)
    decreases |body|
  {
    var text := body + rest;
    if body == [] {
      assert text == rest && digits + [] == digits;
    } else {
      assert text[0] == body[0] && text[1..] == body[1..] + rest;
      var v := body[0].value;
      LegalStep(b, prev, body);
      if v == UNDERSCORE {
        CollectExact(b, body[1..], rest, UnderscoreChar, digits);
      } else if IsDigit(b, v) && |digits| < BufferLength(b) {
        var digits' := digits + [DigitValue(b, v)];
        CollectExact(b, body[1..], rest, DigitChar, digits');
        assert digits' + DigitsOf(b, body[1..]) == digits + DigitsOf(b, body);
      }
    }
  }

  // What LegalAfter asks of the character at i.
  predicate LegalAt(b: Base, prev: Previous, body: seq<CodePoint>, i: nat)
    requires i < |body|
  {
    if body[i].value == UNDERSCORE
    then i < |body| - 1 && (if i == 0 then prev.DigitChar? else body[i - 1].value != UNDERSCORE)
    else IsDigit(b, body[i].value)
  }

  lemma LegalStep(b: Base, prev: Previous, body: seq<CodePoint>)
    requires body != []
    ensures var v := body[0].value; LegalAfter(b, prev, body) <==>
      if v == UNDERSCORE then prev.DigitChar? && LegalAfter(b, UnderscoreChar, body[1..])
      else IsDigit(b, v) && LegalAfter(b, DigitChar, body[1..])
  {
    var tail := body[1..];
    var next := if body[0].value == UNDERSCORE then UnderscoreChar else DigitChar;
    forall i: nat | i < |tail| ensures LegalAt(b, next, tail, i) <==> LegalAt(b, prev, body, i + 1) {
      assert tail[i] == body[i + 1];
      if i > 0 { assert tail[i - 1] == body[i]; }
    }
    if LegalAfter(b, next, tail) && LegalAt(b, prev, body, 0) {
      forall i: nat | i < |body| ensures LegalAt(b, prev, body, i) {
        if i > 0 { assert LegalAt(b, next, tail, i - 1); }
      }
    }
    if LegalAfter(b, prev, body) {
      assert LegalAt(b, prev, body, 0);
      forall i: nat | i < |tail| ensures LegalAt(b, next, tail, i) {
        assert LegalAt(b, prev, body, i + 1);
      }
    }
  }

  // ---------------------------------------------------------------- 64 bits

  predicate DigitsBelow(radix: nat, digits: seq<nat>) {
    forall i :: 0 <= i < |digits| ==> digits[i] < radix
  }

  lemma {:induction false} DigitsOfBelow(b: Base, body: seq<CodePoint>)
    ensures DigitsBelow(Radix(b), DigitsOf(b, body))
  {
    if body != [] { DigitsOfBelow(b, body[1..]); }
  }

  lemma {:induction false} ValueBelow(radix: nat, digits: seq<nat>)
    requires DigitsBelow(radix, digits)
    ensures Value(radix, digits) < Pow(radix, |digits|)
  {
    if digits != [] {
      var n := |digits| - 1;
      ValueBelow(radix, digits[..n]);
      MulMono(Value(radix, digits[..n]) + 1, Pow(radix, n), radix);
    }
  }

  lemma {:induction false} PowMonotone(radix: nat, m: nat, n: nat)
    requires m <= n && radix > 0
    ensures 0 < Pow(radix, m) <= Pow(radix, n)
    decreases n
  {
    if m < n {
      PowMonotone(radix, m, n - 1);
      MulMono(1, radix, Pow(radix, n - 1));
    } else if n > 0 {
      PowMonotone(radix, n - 1, n - 1);
      MulMono(1, radix, Pow(radix, n - 1));
    }
  }

  // With a leading digit that is not zero, the value has at least that many digits.
  lemma {:induction false} ValueAtLeast(radix: nat, digits: seq<nat>)
    requires digits != [] && digits[0] > 0
    ensures Value(radix, digits) >= Pow(radix, |digits| - 1)
  {
    var n := |digits| - 1;
    if n > 0 {
      ValueAtLeast(radix, digits[..n]);
      MulMono(Pow(radix, n - 1), Value(radix, digits[..n]), radix);
    } else {
      assert Value(radix, digits[..0]) == 0;
    }
  }

  lemma {:induction false} PowAdd(radix: nat, m: nat, n: nat)
    ensures Pow(radix, m + n) == Pow(radix, m) * Pow(radix, n)
  {
    if m > 0 {
      PowAdd(radix, m - 1, n);
      MulAssoc(radix, Pow(radix, m - 1), Pow(radix, n));
    }
  }

  lemma MulAssoc(a: nat, b: nat, c: nat)
    ensures a * (b * c) == (a * b) * c
  {
  }

  lemma PowersOf2()
    ensures Pow(2, 63) == INT64_MAX + 1
  {
    assert Pow(2, 9) == 512 by {
      assert Pow(2, 3) == 8 by { assert Pow(2, 1) == 2 && Pow(2, 2) == 4; }
      PowAdd(2, 3, 3);
      PowAdd(2, 6, 3);
    }
    assert Pow(2, 27) == 134217728 by { PowAdd(2, 9, 9); PowAdd(2, 18, 9); }
    assert Pow(2, 54) == 18014398509481984 by { PowAdd(2, 27, 27); }
    PowAdd(2, 54, 9);
  }

  lemma PowersOf8()
    ensures Pow(8, 21) == INT64_MAX + 1
  {
    assert Pow(8, 3) == 512 by { assert Pow(8, 1) == 8 && Pow(8, 2) == 64; }
    PowAdd(8, 3, 3);
    PowAdd(8, 6, 3);
    PowAdd(8, 9, 9);
    PowAdd(8, 18, 3);
  }

  lemma PowersOf10()
    ensures Pow(10, 19) == 10_000_000_000_000_000_000
  {
    assert Pow(10, 3) == 1000 by { assert Pow(10, 1) == 10 && Pow(10, 2) == 100; }
    PowAdd(10, 3, 3);
    PowAdd(10, 6, 3);
    PowAdd(10, 9, 9);
    assert Pow(10, 19) == 10 * Pow(10, 18);
  }

  lemma PowersOf16()
    ensures Pow(16, 16) == TWO_64
  {
    assert Pow(16, 2) == 256 by { assert Pow(16, 1) == 16; }
    PowAdd(16, 2, 2);
    PowAdd(16, 4, 4);
    PowAdd(16, 8, 8);
  }

  lemma Powers()
    ensures Pow(2, 63) == INT64_MAX + 1 && Pow(8, 21) == INT64_MAX + 1
    ensures Pow(16, 16) == TWO_64 && Pow(10, 19) == 10_000_000_000_000_000_000
  {
    PowersOf2();
    PowersOf8();
    PowersOf10();
    PowersOf16();
  }

  /** Whatever fits the digit buffer fits 64 unsigned bits; in bases 2 and 8 it even fits the
      signed result, so there the range check never fires. */
  lemma BufferFits(b: Base, digits: seq<nat>)
    requires DigitsBelow(Radix(b), digits) && |digits| <= BufferLength(b)
    ensures Value(Radix(b), digits) < TWO_64
    ensures b.Binary? || b.Octal? ==> Value(Radix(b), digits) <= INT64_MAX
  {
    ValueBelow(Radix(b), digits);
    PowMonotone(Radix(b), |digits|, BufferLength(b));
    Powers();
  }

  // What the collecting loop puts in its buffer.
  lemma {:induction false} CollectDigitsBelow(b: Base, text: seq<CodePoint>, prev: Previous, digits: seq<nat>)
    requires DigitsBelow(Radix(b), digits) && |digits| <= BufferLength(b)
    ensures Collect(b, text, prev, digits).Ok? ==>
      DigitsBelow(Radix(b), Collect(b, text, prev, digits).value)
        && |Collect(b, text, prev, digits).value| <= BufferLength(b)
    decreases |text|
  {
    if !AtValueEnd(text) {
      var v := text[0].value;
      if v == UNDERSCORE {
        CollectDigitsBelow(b, text[1..], UnderscoreChar, digits);
      } else if IsDigit(b, v) && |digits| < BufferLength(b) {
        CollectDigitsBelow(b, text[1..], DigitChar, digits + [DigitValue(b, v)]);
      }
    }
  }

  // ---------------------------------------------------------------- exactness

  predicate InRange(v: int) { -INT64_MAX - 1 <= v <= INT64_MAX }

  // The text of a decimal integer: an optional sign and a body.
  function Signed(sign: Option<CodePoint>, body: seq<CodePoint>): seq<CodePoint> {
    (if sign.Some? then [sign.value] else []) + body
  }

  predicate GoodSign(sign: Option<CodePoint>) { sign.Some? ==> IsSign(sign.value.value) }

  function SignOf(sign: Option<CodePoint>): int {
    if sign.Some? && sign.value.value == Code('-') then -1 else 1
  }

  lemma OpenSigned(sign: Option<CodePoint>, tail: seq<CodePoint>)
    requires GoodSign(sign) && tail != []
    ensures Signed(sign, tail) != []
    ensures IsDigit(Decimal, tail[0].value) ==> Open(Decimal, Signed(sign, tail)) == Ok(SignOf(sign), tail)
    ensures !IsDigit(Decimal, tail[0].value) && (sign.None? ==> !IsSign(tail[0].value)) ==>
      Open(Decimal, Signed(sign, tail)).Err?
  {
    if sign.Some? {
      assert Signed(sign, tail)[1..] == tail && |Signed(sign, tail)| > 1;
    } else {
      assert Signed(sign, tail) == tail;
    }
  }

  // Digits too many for the buffer spell a value out of range.
  lemma TooLongOutOfRange(digits: seq<nat>)
    requires DigitsBelow(10, digits) && |digits| > 19 && digits[0] > 0
    ensures Value(10, digits) > INT64_MAX + 1
  {
    ValueAtLeast(10, digits);
    PowMonotone(10, 19, |digits| - 1);
    Powers();
  }

  // A signed product that fits is exact, the most negative value included.
  lemma MultiplyExact(v: nat, sign: int)
    requires sign == 1 || sign == -1
    requires v <= INT64_MAX + (if sign < 0 then 1 else 0)
    ensures Multiply64(ToInt64(v), sign) == sign * v
  {
    if v == INT64_MAX + 1 {
      assert ToInt64(v) + v == 0;
    } else {
      assert ToInt64(v) == v;
      if sign < 0 && v > 0 { assert (v * -1) % TWO_64 == TWO_64 - v; }
    }
  }

  lemma FinishDecimal(sign: int, digits: seq<nat>, rest: seq<CodePoint>)
    requires (sign == 1 || sign == -1) && |digits| >= 2 && digits[0] > 0
    ensures InRange(sign * Value(10, digits)) ==>
      Finish(Decimal, sign, digits, rest) == Ok(sign * Value(10, digits), rest)
    ensures !InRange(sign * Value(10, digits)) ==> Finish(Decimal, sign, digits, rest) == Err(OutOfRange)
  {
    FinishOfValue(sign, Value(10, digits));
  }

  lemma FinishOfValue(sign: int, v: nat)
    requires sign == 1 || sign == -1
    ensures InRange(sign * v) <==> v <= INT64_MAX + (if sign < 0 then 1 else 0)
    ensures InRange(sign * v) ==> Multiply64(ToInt64(v), sign) == sign * v
  {
    if v <= INT64_MAX + (if sign < 0 then 1 else 0) { MultiplyExact(v, sign); }
  }

  /** Decimal exactness: a legal body of two or more digits without a leading zero is accepted
      if and only if sign times its positional value fits int64, and then that is the result.
      In particular the 19-digit limit rejects nothing that fits. */
  lemma DecimalExact(sign: Option<CodePoint>, body: seq<CodePoint>, rest: seq<CodePoint>)
    requires GoodSign(sign) && AtValueEnd(rest) && body != []
    requires Legal(Decimal, body) && |DigitsOf(Decimal, body)| >= 2 && DigitsOf(Decimal, body)[0] > 0
    ensures var v := SignOf(sign) * Value(10, DigitsOf(Decimal, body));
      var text := Signed(sign, body + rest);
      if InRange(v) then ParseInteger(Decimal, text) == Ok(v, rest) else ParseInteger(Decimal, text).Err?
  {
    var digits := DigitsOf(Decimal, body);
    assert DigitOrSeparator(Decimal, body, 0);
    LegalIsLegalAfter(Decimal, body);
    OpenSigned(sign, body + rest);
    LegalInside(Decimal, body);
    CollectExact(Decimal, body, rest, NoChar, []);
    DigitsOfBelow(Decimal, body);
    assert [] + digits == digits;
    if |digits| <= 19 {
      FinishDecimal(SignOf(sign), digits, rest);
    } else {
      TooLongOutOfRange(digits);
    }
  }

  lemma LegalInside(b: Base, body: seq<CodePoint>)
    requires Legal(b, body)
    ensures InsideValue(body)
  {
    forall i | 0 <= i < |body| ensures !IsValueTerminator(body[i].value) {
      assert DigitOrSeparator(b, body, i);
    }
  }

  /** Every text that begins a decimal value and is not of the legal form, or has a leading
      zero, is rejected. */
  lemma DecimalRejectsIllegal(sign: Option<CodePoint>, body: seq<CodePoint>, rest: seq<CodePoint>)
    requires GoodSign(sign) && AtValueEnd(rest) && InsideValue(body) && body != []
    requires sign.None? ==> !IsSign(body[0].value)
    requires !Legal(Decimal, body) || DigitsOf(Decimal, body) == [] || DigitsOf(Decimal, body)[0] == 0
    ensures ParseInteger(Decimal, Signed(sign, body + rest)).Err?
  {
    OpenSigned(sign, body + rest);
    CollectExact(Decimal, body, rest, NoChar, []);
    LegalIsLegalAfter(Decimal, body);
    assert [] + DigitsOf(Decimal, body) == DigitsOf(Decimal, body);
  }

  /** One digit, which parse_value reads itself and never leaves to this function (TomlDecimals):
      the sign is read and then forgotten, so the result is sign times the value
      exactly when the sign is not '-'; zero is refused as a leading zero. */
  lemma SingleDigitExact(sign: Option<CodePoint>, digit: CodePoint, rest: seq<CodePoint>)
    requires GoodSign(sign) && AtValueEnd(rest) && IsDecimalDigit(digit.value)
    ensures var d := digit.value - 0x30;
      var r := ParseInteger(Decimal, Signed(sign, [digit] + rest));
      && (d == 0 ==> r == Err(LeadingZero))
      && (d > 0 ==> r == Ok(d, rest))
      && (r == Ok(SignOf(sign) * d, rest) <==> d > 0 && SignOf(sign) == 1)
  {
    OpenSigned(sign, [digit] + rest);
    CollectExact(Decimal, [digit], rest, NoChar, []);
    assert DigitsOf(Decimal, [digit]) == [DigitValue(Decimal, digit.value)] + DigitsOf(Decimal, []);
  }

  lemma FinishPrefixed(b: Base, digits: seq<nat>, rest: seq<CodePoint>)
    requires !b.Decimal? && DigitsBelow(Radix(b), digits)
    ensures var v := Value(Radix(b), digits);
      Finish(b, 1, digits, rest) == if v <= INT64_MAX then Ok(v, rest) else Err(OutOfRange)
  {
    if |digits| == 1 {
      assert digits[..0] == [] && Value(Radix(b), []) == 0;
    }
  }

  /** Bases 2, 8 and 16: accepted exactly when the body is legal (no digits at all included),
      has no more digits than the buffer, and fits int64; the result is its value. */
  lemma PrefixedExact(b: Base, zero: CodePoint, prefix: CodePoint, body: seq<CodePoint>, rest: seq<CodePoint>)
    requires !b.Decimal? && zero.value == 0x30 && prefix.value == Prefix(b)
    requires InsideValue(body) && AtValueEnd(rest) && body + rest != []
    ensures var digits := DigitsOf(b, body);
      var r := ParseInteger(b, [zero, prefix] + body + rest);
      && (r.Ok? <==> Legal(b, body) && |digits| <= BufferLength(b) && Value(Radix(b), digits) <= INT64_MAX)
      && (r.Ok? ==> r == Ok(Value(Radix(b), digits), rest))
  {
    var digits := DigitsOf(b, body);
    var text := [zero, prefix] + body + rest;
    assert text[2..] == body + rest;
    assert Open(b, text) == Ok(1, body + rest);
    CollectExact(b, body, rest, NoChar, []);
    LegalIsLegalAfter(b, body);
    assert [] + digits == digits;
    DigitsOfBelow(b, body);
    FinishPrefixed(b, digits, rest);
  }

  /** So a prefix with no digits, and more text after it, is read as zero. */
  lemma EmptyPrefixedIsZero(b: Base, zero: CodePoint, prefix: CodePoint, rest: seq<CodePoint>)
    requires !b.Decimal? && zero.value == 0x30 && prefix.value == Prefix(b) && AtValueEnd(rest) && rest != []
    ensures ParseInteger(b, [zero, prefix] + rest) == Ok(0, rest)
  {
    PrefixedExact(b, zero, prefix, [], rest);
    assert [zero, prefix] + [] + rest == [zero, prefix] + rest;
  }

  // ---------------------------------------------------------------- the bases by their numbers

  // A character is the digit d of a base exactly if it stands at d in one of the rows and d is
  // below the radix.
  lemma DigitExactly(b: Base, v: nat, d: nat)
    requires d < 16
    ensures IsDigit(b, v) && DigitValue(b, v) == d <==>
      && d < (match b case Binary => 2 case Octal => 8 case Decimal => 10 case Hexadecimal => 16)
      && (v == Code(LOWER_DIGITS[d]) || v == Code(UPPER_DIGITS[d]))
  {
    HexDigitExactly(v, d);
  }

  // The digit buffer holds exactly the digits of the largest int64.
  lemma BufferExactly(b: Base)
    ensures BufferLength(b) > 0
      && Pow(Radix(b), BufferLength(b) - 1) <= 0x7FFF_FFFF_FFFF_FFFF < Pow(Radix(b), BufferLength(b))
  {
    Powers();
    match b
    case Binary => assert Pow(2, 63) == 2 * Pow(2, 62);
    case Octal => assert Pow(8, 21) == 8 * Pow(8, 20);
    case Decimal => assert Pow(10, 19) == 10 * Pow(10, 18);
    case Hexadecimal => assert Pow(16, 16) == 16 * Pow(16, 15);
  }

  // What the source writes before the digits, and how many digits a base has.
  predicate IsBase(b: Base, prefix: string, radix: nat) {
    match b
    case Binary => prefix == "0b" && radix == 2
    case Octal => prefix == "0o" && radix == 8
    case Decimal => false
    case Hexadecimal => prefix == "0x" && radix == 16
  }

  // The characters are the digits, in either case.
  predicate Spells(radix: nat, chars: string, digits: seq<nat>) {
    && radix <= 16 && |chars| == |digits|
    && forall i :: 0 <= i < |digits| ==>
         digits[i] < radix && (chars[i] == LOWER_DIGITS[digits[i]] || chars[i] == UPPER_DIGITS[digits[i]])
  }

  lemma SpelledDigit(b: Base, prefix: string, radix: nat, c: char, d: nat)
    requires IsBase(b, prefix, radix) && d < radix <= 16 && (c == LOWER_DIGITS[d] || c == UPPER_DIGITS[d])
    ensures c as int <= 0x7F && IsDigit(b, Code(c)) && DigitValue(b, Code(c)) == d
    ensures Code(c) != UNDERSCORE && !IsValueTerminator(Code(c))
  {
    DigitExactly(b, Code(c), d);
  }

  lemma {:induction false} SpelledDigits(b: Base, prefix: string, radix: nat, chars: string, digits: seq<nat>)
    requires IsBase(b, prefix, radix) && Spells(radix, chars, digits)
    ensures forall i :: 0 <= i < |chars| ==> chars[i] as int <= 0x7F
    ensures InsideValue(AsciiText(chars)) && Legal(b, AsciiText(chars)) && DigitsOf(b, AsciiText(chars)) == digits
  {
    forall i | 0 <= i < |chars|
      ensures chars[i] as int <= 0x7F && IsDigit(b, Code(chars[i])) && !IsValueTerminator(Code(chars[i]))
      ensures Code(chars[i]) != UNDERSCORE
    {
      SpelledDigit(b, prefix, radix, chars[i], digits[i]);
    }
    if chars != [] {
      SpelledDigit(b, prefix, radix, chars[0], digits[0]);
      SpelledDigits(b, prefix, radix, chars[1..], digits[1..]);
      assert AsciiText(chars)[1..] == AsciiText(chars[1..]);
    }
  }

  lemma PrefixSpelled(prefix: string, chars: string)
    requires |prefix| == 2 && prefix[0] as int <= 0x7F && prefix[1] as int <= 0x7F
    requires forall i :: 0 <= i < |chars| ==> chars[i] as int <= 0x7F
    ensures forall i :: 0 <= i < |prefix + chars| ==> (prefix + chars)[i] as int <= 0x7F
    ensures [Ascii(prefix[0]), Ascii(prefix[1])] + AsciiText(chars) + [] == AsciiText(prefix + chars)
  {
  }

  /** `0b`, `0o` or `0x` and digits in either case, as text: the number with these digits. */
  lemma PrefixedSpelled(b: Base, prefix: string, radix: nat, chars: string, digits: seq<nat>)
    requires IsBase(b, prefix, radix) && Spells(radix, chars, digits)
    requires 0 < |digits| <= (if radix == 2 then 63 else if radix == 8 then 21 else 16)
    requires Value(radix, digits) <= 0x7FFF_FFFF_FFFF_FFFF
    ensures forall i :: 0 <= i < |prefix + chars| ==> (prefix + chars)[i] as int <= 0x7F
    ensures ParseInteger(b, AsciiText(prefix + chars)) == Ok(Value(radix, digits), [])
  {
    SpelledDigits(b, prefix, radix, chars, digits);
    PrefixSpelled(prefix, chars);
    PrefixedExact(b, Ascii(prefix[0]), Ascii(prefix[1]), AsciiText(chars), []);
  }

  /** 0xfF is 255. */
  lemma PrefixedExample()
    ensures ParseInteger(Hexadecimal, AsciiText("0xfF")) == Ok(255, [])
  {
    assert [15, 15][..1][..0] == [] && Value(16, [15, 15][..1]) == 15;
    PrefixedSpelled(Hexadecimal, "0x", 16, "fF", [15, 15]);
    assert "0x" + "fF" == "0xfF";
  }


  // ---------------------------------------------------------------- decimal numbers as text

  predicate IsDigitText(chars: string) { forall i :: 0 <= i < |chars| ==> '0' <= chars[i] <= '9' || chars[i] == '_' }

  // An underscore only between two digits.
  predicate IsNumberText(chars: string) {
    && IsDigitText(chars)
    && forall i :: 0 <= i < |chars| && chars[i] == '_' ==> 0 < i < |chars| - 1 && chars[i - 1] != '_'
  }

  function DigitsIn(chars: string): seq<nat>
    requires IsDigitText(chars)
  {
    if chars == [] then []
    else (if chars[0] == '_' then [] else [chars[0] as nat - '0' as nat]) + DigitsIn(chars[1..])
  }

  lemma {:induction false} DigitsSpelled(chars: string)
    requires IsDigitText(chars)
    ensures forall i :: 0 <= i < |chars| ==> chars[i] as int <= 0x7F
    ensures DigitsOf(Decimal, AsciiText(chars)) == DigitsIn(chars)
  {
    if chars != [] {
      DigitsSpelled(chars[1..]);
      assert AsciiText(chars)[1..] == AsciiText(chars[1..]);
    }
  }

  lemma NumberIsLegal(chars: string)
    requires IsNumberText(chars)
    ensures forall i :: 0 <= i < |chars| ==> chars[i] as int <= 0x7F
    ensures Legal(Decimal, AsciiText(chars))
  {
    var body := AsciiText(chars);
    forall i: nat | i < |body| ensures DigitOrSeparator(Decimal, body, i) {
      if chars[i] == '_' { assert body[i - 1] == Ascii(chars[i - 1]); }
    }
  }

  lemma SignedSpelled(sign: string, chars: string, mark: Option<CodePoint>)
    requires forall i :: 0 <= i < |chars| ==> chars[i] as int <= 0x7F
    requires sign == "" || sign == "+" || sign == "-"
    requires mark == if sign == "" then None else Some(Ascii(sign[0]))
    ensures GoodSign(mark) && SignOf(mark) == if sign == "-" then -1 else 1
    ensures forall i :: 0 <= i < |sign + chars| ==> (sign + chars)[i] as int <= 0x7F
    ensures Signed(mark, AsciiText(chars)) == AsciiText(sign + chars)
  {
    if sign == "" {
      assert sign + chars == chars;
    } else {
      assert sign == [sign[0]];
    }
  }

  /** A sign or none, and two or more digits without a leading zero, some with an underscore between
      them: the signed number with these digits if it is an int64, and otherwise an error. */
  lemma DecimalSpelled(sign: string, chars: string)
    requires sign == "" || sign == "+" || sign == "-"
    requires IsNumberText(chars) && |DigitsIn(chars)| >= 2 && chars[0] != '0'
    ensures forall i :: 0 <= i < |sign + chars| ==> (sign + chars)[i] as int <= 0x7F
    ensures var v := (if sign == "-" then -1 else 1) * Value(10, DigitsIn(chars));
      if -0x8000_0000_0000_0000 <= v < 0x8000_0000_0000_0000
      then ParseInteger(Decimal, AsciiText(sign + chars)) == Ok(v, [])
      else ParseInteger(Decimal, AsciiText(sign + chars)).Err?
  {
    DigitsSpelled(chars);
    NumberIsLegal(chars);
    var body := AsciiText(chars);
    var mark := if sign == "" then None else Some(Ascii(sign[0]));
    SignedSpelled(sign, chars, mark);
    assert chars[0] != '_';
    DecimalExact(mark, body, []);
    assert body + [] == body;
  }
}
