/**
 Decimal integers as `parse_value` reads them (toml.hpp lines 8242-8274, 8373-8426, 8459-8469): it
 scans ahead, reads one digit with or without a sign by itself, and leaves the rest to
 `parse_integer`.
 */
module TomlDecimals {
  import opened Basics
  import opened Utf8
  import opened TomlText
  import opened TomlIntegers

  const MAX_HISTORY_LENGTH := 64

  // How far the scan goes: to the end of the value, but no further than it can step back.
  function ScanLength(text: seq<CodePoint>, max: nat): (n: nat)
    ensures n <= max && n <= |text|
    decreases |text|
  {
    if max == 0 || text == [] || IsValueTerminator(text[0].value) then 0 else 1 + ScanLength(text[1..], max - 1)
  }

  // The characters it keeps.
  function Kept(scanned: seq<CodePoint>): seq<nat> {
    if scanned == [] then []
    else
      var last := scanned[|scanned| - 1].value;
      Kept(scanned[..|scanned| - 1]) + (if last == UNDERSCORE then [] else [last])
  }

  function Chars(text: seq<CodePoint>): seq<nat> { Kept(text[..ScanLength(text, MAX_HISTORY_LENGTH)]) }

  // The value begins with a digit or a sign and goes on with digits and underscores.
  ghost predicate LooksDecimal(text: seq<CodePoint>) {
    && text != [] && (IsDecimalDigit(text[0].value) || IsSign(text[0].value))
    && forall i :: 0 < i < ScanLength(text, MAX_HISTORY_LENGTH) ==>
      IsDecimalDigit(text[i].value) || text[i].value == UNDERSCORE
  }

  // parse_value on such a text.  The sign of a single digit is looked for in the digit's place.
  function ParseDecimal(text: seq<CodePoint>): Parsed<int>
    requires text != []
  {
    var chars := Chars(text);
    if |chars| == 1 then
      if IsDecimalDigit(chars[0]) then Ok(chars[0] - 0x30, text[1..]) else Err(UnknownType)
    else if |chars| == 2 && IsSign(chars[0]) && |text| >= 2 then
      Ok((chars[1] as int - 0x30) * (if chars[1] == Code('-') then -1 else 1), text[2..])
    else ParseInteger(Decimal, text)
  }

  // ---------------------------------------------------------------- what is scanned

  lemma {:induction false} ScanAll(inside: seq<CodePoint>, rest: seq<CodePoint>, max: nat)
    requires InsideValue(inside)
    ensures ScanLength(inside + rest, max) >= Min(|inside|, max)
    ensures AtValueEnd(rest) ==> ScanLength(inside + rest, max) == Min(|inside|, max)
    decreases max
  {
    if inside == [] {
      assert inside + rest == rest;
    } else if max > 0 {
      assert (inside + rest)[1..] == inside[1..] + rest;
      ScanAll(inside[1..], rest, max - 1);
    }
  }

  lemma {:induction false} KeptAppend(a: seq<CodePoint>, b: seq<CodePoint>)
    ensures Kept(a + b) == Kept(a) + Kept(b)
  {
    if b == [] {
      assert a + b == a && Kept(a) + [] == Kept(a);
    } else {
      var last := |b| - 1;
      KeptAppend(a, b[..last]);
      assert (a + b)[..|a + b| - 1] == a + b[..last];
    }
  }

  lemma {:induction false} KeptPrefix(scanned: seq<CodePoint>, n: nat)
    requires n <= |scanned|
    ensures Kept(scanned[..n]) <= Kept(scanned)
  {
    assert scanned == scanned[..n] + scanned[n..];
    KeptAppend(scanned[..n], scanned[n..]);
  }

  lemma FrontScanned(front: seq<CodePoint>, rest: seq<CodePoint>)
    requires InsideValue(front) && |front| <= MAX_HISTORY_LENGTH
    ensures var scanned := (front + rest)[..ScanLength(front + rest, MAX_HISTORY_LENGTH)];
      front <= scanned && (AtValueEnd(rest) ==> scanned == front)
  {
    ScanAll(front, rest, MAX_HISTORY_LENGTH);
  }

  // What stands at the front of the value is scanned first.
  lemma CharsFrom(front: seq<CodePoint>, rest: seq<CodePoint>)
    requires InsideValue(front) && |front| <= MAX_HISTORY_LENGTH
    ensures Kept(front) <= Chars(front + rest)
    ensures AtValueEnd(rest) ==> Chars(front + rest) == Kept(front)
  {
    var scanned := (front + rest)[..ScanLength(front + rest, MAX_HISTORY_LENGTH)];
    FrontScanned(front, rest);
    assert scanned[..|front|] == front;
    KeptPrefix(scanned, |front|);
  }

  lemma KeptFew(front: seq<CodePoint>)
    ensures |front| == 1 ==> Kept(front) == if front[0].value == UNDERSCORE then [] else [front[0].value]
    ensures |front| >= 1 ==> Kept(front) == Kept([front[0]]) + Kept(front[1..])
  {
    if |front| >= 1 {
      assert front == [front[0]] + front[1..];
      KeptAppend([front[0]], front[1..]);
    }
    assert |front| == 1 ==> front[..0] == [];
  }

  // The scanning loop after so many steps.
  ghost predicate Scanning(text: seq<CodePoint>, advanced: nat, kept: seq<nat>) {
    && advanced <= MAX_HISTORY_LENGTH && advanced <= |text|
    && kept == Kept(text[..advanced])
    && ScanLength(text, MAX_HISTORY_LENGTH) == advanced + ScanLength(text[advanced..], MAX_HISTORY_LENGTH - advanced)
  }

  lemma ScanningStart(text: seq<CodePoint>)
    ensures Scanning(text, 0, [])
  {
    assert text[..0] == [] && text[0..] == text;
  }

  lemma ScanningNext(text: seq<CodePoint>, advanced: nat, kept: seq<nat>)
    requires Scanning(text, advanced, kept) && advanced < MAX_HISTORY_LENGTH
    requires advanced < |text| && !IsValueTerminator(text[advanced].value)
    ensures var c := text[advanced].value;
      Scanning(text, advanced + 1, if c == UNDERSCORE then kept else kept + [c])
  {
    assert text[..advanced + 1][..advanced] == text[..advanced];
    assert text[advanced..][1..] == text[advanced + 1..];
    assert kept + [] == kept;
  }

  lemma ScanningEnd(text: seq<CodePoint>, advanced: nat, kept: seq<nat>)
    requires Scanning(text, advanced, kept)
    requires advanced == MAX_HISTORY_LENGTH || advanced == |text| || IsValueTerminator(text[advanced].value)
    ensures kept == Chars(text)
  {
  }

  // ---------------------------------------------------------------- one digit

  lemma OneDigitChars(sign: Option<CodePoint>, digit: CodePoint)
    requires GoodSign(sign) && IsDecimalDigit(digit.value)
    ensures InsideValue(Signed(sign, [digit]))
    ensures Kept(Signed(sign, [digit])) == (if sign.Some? then [sign.value.value] else []) + [digit.value]
  {
    var front := Signed(sign, [digit]);
    KeptFew(front);
    KeptFew([digit]);
    if sign.Some? {
      assert front[1..] == [digit];
      KeptFew([sign.value]);
    } else {
      assert front == [digit];
    }
  }

  lemma ShortRead(text: seq<CodePoint>, digit: nat)
    requires text != [] && IsDecimalDigit(digit)
    ensures Chars(text) == [digit] ==> ParseDecimal(text) == Ok(digit - 0x30, text[1..])
    ensures |Chars(text)| == 2 && IsSign(Chars(text)[0]) && Chars(text)[1] == digit && |text| >= 2 ==>
      ParseDecimal(text) == Ok(digit - 0x30, text[2..])
  {
  }

  lemma OneDigitRead(sign: Option<CodePoint>, digit: CodePoint, rest: seq<CodePoint>)
    requires GoodSign(sign) && IsDecimalDigit(digit.value) && AtValueEnd(rest)
    ensures ParseDecimal(Signed(sign, [digit] + rest)) == Ok(digit.value - 0x30, rest)
  {
    var front, text := Signed(sign, [digit]), Signed(sign, [digit] + rest);
    OneDigitChars(sign, digit);
    CharsFrom(front, rest);
    assert text == front + rest && text[|front|..] == rest;
    ShortRead(text, digit.value);
  }

  // ---------------------------------------------------------------- more digits

  // The first characters of a body of two or more digits, and the digits among them.
  lemma SecondDigit(body: seq<CodePoint>) returns (n: nat)
    requires Legal(Decimal, body) && |body| >= 2
    ensures 2 <= n <= 3 && n <= |body| && InsideValue(body[..n]) && |Kept(body[..n])| == 2
    ensures IsDecimalDigit(body[0].value) && Kept(body[..n])[0] == body[0].value
  {
    assert DigitOrSeparator(Decimal, body, 0) && DigitOrSeparator(Decimal, body, 1);
    n := if body[1].value == UNDERSCORE then 3 else 2;
    assert n == 3 ==> DigitOrSeparator(Decimal, body, 2);
    LegalInside(Decimal, body);
    var front := body[..n];
    assert forall i :: 0 <= i < n ==> front[i] == body[i];
    KeptFew(front);
    KeptFew([front[0]]);
    KeptFew(front[1..]);
    KeptFew([front[1]]);
    if n == 3 { KeptFew(front[1..][1..]); } else { assert front[1..][1..] == []; }
  }

  // A longer number is left to parse_integer.
  lemma LongNumberLeft(sign: Option<CodePoint>, body: seq<CodePoint>, rest: seq<CodePoint>)
    requires GoodSign(sign) && Legal(Decimal, body) && |body| >= 2
    ensures Signed(sign, body + rest) != []
    ensures ParseDecimal(Signed(sign, body + rest)) == ParseInteger(Decimal, Signed(sign, body + rest))
  {
    var n := SecondDigit(body);
    var front, text := Signed(sign, body[..n]), Signed(sign, body + rest);
    assert text == front + (body[n..] + rest);
    CharsFrom(front, body[n..] + rest);
    if sign.Some? {
      KeptFew(front);
      KeptFew([sign.value]);
      assert front[1..] == body[..n];
      assert |Chars(text)| >= 3;
    } else {
      assert front == body[..n];
      assert Chars(text)[0] == body[0].value;
    }
  }

  lemma DigitsFrom(body: seq<CodePoint>)
    requires body != [] && IsDecimalDigit(body[0].value)
    ensures DigitsOf(Decimal, body) == [body[0].value - 0x30] + DigitsOf(Decimal, body[1..])
  {
  }

  lemma DigitCount(body: seq<CodePoint>)
    requires Legal(Decimal, body) && body != []
    ensures IsDecimalDigit(body[0].value) && DigitsOf(Decimal, body) != []
      && DigitsOf(Decimal, body)[0] == body[0].value - 0x30
    ensures if |body| == 1 then DigitsOf(Decimal, body) == [body[0].value - 0x30] else |DigitsOf(Decimal, body)| >= 2
  {
    assert DigitOrSeparator(Decimal, body, 0);
    DigitsFrom(body);
    if |body| > 1 {
      var t := body[1..];
      assert DigitOrSeparator(Decimal, body, 1) && t[0] == body[1];
      if t[0].value == UNDERSCORE {
        assert DigitOrSeparator(Decimal, body, 2) && t[1..][0] == body[2];
        DigitsFrom(t[1..]);
        assert DigitsOf(Decimal, t) == DigitsOf(Decimal, t[1..]);
      } else {
        DigitsFrom(t);
      }
    }
  }

  lemma LegalLooksDecimal(sign: Option<CodePoint>, body: seq<CodePoint>, rest: seq<CodePoint>)
    requires GoodSign(sign) && AtValueEnd(rest) && body != [] && Legal(Decimal, body)
    ensures LooksDecimal(Signed(sign, body + rest))
  {
    LegalInside(Decimal, body);
    var front, text := Signed(sign, body), Signed(sign, body + rest);
    assert text == front + rest;
    assert DigitOrSeparator(Decimal, body, 0);
    ScanAll(front, rest, MAX_HISTORY_LENGTH);
    var skip := if sign.Some? then 1 else 0;
    forall i | 0 < i < ScanLength(text, MAX_HISTORY_LENGTH)
      ensures IsDecimalDigit(text[i].value) || text[i].value == UNDERSCORE
    {
      assert text[i] == body[i - skip] && DigitOrSeparator(Decimal, body, i - skip);
    }
  }

  /** Every decimal integer of the TOML grammar, whatever its length: it is read as sign times
      value exactly if that fits int64 and the number is not a single non-zero digit after '-'. */
  lemma DecimalValueExactly(sign: Option<CodePoint>, body: seq<CodePoint>, rest: seq<CodePoint>)
    requires GoodSign(sign) && AtValueEnd(rest) && body != [] && Legal(Decimal, body)
    requires |body| == 1 || body[0].value != 0x30
    ensures var digits := DigitsOf(Decimal, body);
      var v := SignOf(sign) * Value(10, digits);
      LooksDecimal(Signed(sign, body + rest))
      && (ParseDecimal(Signed(sign, body + rest)) == Ok(v, rest) <==> InRange(v) && (|digits| > 1 || v >= 0))
  {
    LegalLooksDecimal(sign, body, rest);
    DigitCount(body);
    if |body| == 1 {
      var d := body[0].value - 0x30;
      assert body == [body[0]];
      OneDigitRead(sign, body[0], rest);
      assert DigitsOf(Decimal, body)[..0] == [] && Value(10, []) == 0;
      assert Value(10, DigitsOf(Decimal, body)) == d <= 9;
    } else {
      LongNumberLeft(sign, body, rest);
      DecimalExact(sign, body, rest);
    }
  }

  // "-5" is read as 5.
  lemma SignLostExample()
    ensures ParseDecimal(AsciiText("-5")) == Ok(5, [])
  {
    OneDigitRead(Some(Ascii('-')), Ascii('5'), []);
    assert Signed(Some(Ascii('-')), [Ascii('5')] + []) == AsciiText("-5");
  }
}
