/**
 Strings of toml.hpp: printing with escapes (lines 745-779, 1519-1535, 4387-4398) and the
 one-line basic string of `parse_string` and `parse_basic_string` (lines 7003-7238, 7355-7399).
 */
module TomlStrings {
  import opened Basics
  import opened Utf8
  import opened TomlText

  // ---------------------------------------------------------------- printing

  function HexUpper(d: nat): byte
    requires d < 16
  {
    if d < 10 then 0x30 + d else 0x41 + d - 10
  }

  // low_character_escape_table.
  function LowEscape(c: byte): seq<byte>
    requires c <= 0x1F
  {
    if c == 0x08 then [0x5C, 0x62]        // \b
    else if c == 0x09 then [0x5C, 0x74]   // \t
    else if c == 0x0A then [0x5C, 0x6E]   // \n
    else if c == 0x0C then [0x5C, 0x66]   // \f
    else if c == 0x0D then [0x5C, 0x72]   // \r
    else [0x5C, 0x75, 0x30, 0x30, HexUpper(c / 16), HexUpper(c % 16)]
  }

  // What one byte is printed as.
  function EscapeByte(c: byte): seq<byte> {
    if c <= 0x1F then LowEscape(c)
    else if c == 0x7F then [0x5C, 0x75, 0x30, 0x30, 0x37, 0x46]
    else if c == 0x22 then [0x5C, 0x22]
    else if c == 0x5C then [0x5C, 0x5C]
    else [c]
  }

  function Escaped(s: seq<byte>): seq<byte> {
    if s == [] then [] else EscapeByte(s[0]) + Escaped(s[1..])
  }

  function Quoted(s: seq<byte>): seq<byte> { [0x22] + Escaped(s) + [0x22] }

  lemma {:induction false} EscapedAppend(a: seq<byte>, b: seq<byte>)
    ensures Escaped(a + b) == Escaped(a) + Escaped(b)
  {
    if a == [] {
      assert a + b == b;
    } else {
      assert (a + b)[1..] == a[1..] + b;
      EscapedAppend(a[1..], b);
    }
  }

  /** print_to_stream_with_escapes. */
  method PrintWithEscapes(s: seq<byte>, stream: seq<byte>) returns (stream': seq<byte>)
    ensures stream' == stream + Escaped(s)
  {
    stream' := stream;
    for i := 0 to |s|
      invariant stream' + Escaped(s[i..]) == stream + Escaped(s)
    {
      assert s[i..][1..] == s[i + 1..];
      var c := s[i];
      ghost var before := stream';
      if c <= 0x1F {
        stream' := stream' + LowEscape(c);
      } else if c == 0x7F {
        stream' := stream' + [0x5C, 0x75, 0x30, 0x30, 0x37, 0x46];
      } else if c == 0x22 {
        stream' := stream' + [0x5C, 0x22];
      } else if c == 0x5C {
        stream' := stream' + [0x5C, 0x5C];
      } else {
        stream' := stream' + [c];
      }
      assert stream' == before + EscapeByte(c);
      Regroup(before, EscapeByte(c), Escaped(s[i + 1..]));
    }
  }

  /** print_quoted_string. */
  method PrintQuotedString(s: seq<byte>, stream: seq<byte>) returns (stream': seq<byte>)
    ensures stream' == stream + Quoted(s)
  {
    if s == [] {
      return stream + [0x22, 0x22];
    }
    stream' := PrintWithEscapes(s, stream + [0x22]);
    stream' := stream' + [0x22];
  }

  // ---------------------------------------------------------------- parsing

  // n hexadecimal digits, most significant first, after a value read so far.
  function ReadHex(text: seq<CodePoint>, n: nat, v: nat): Parsed<nat>
    decreases n
  {
    if n == 0 then Ok(v, text)
    else if text == [] then Err(EndOfFile)
    else if !IsHexDigit(text[0].value) then Err(BadHexDigit)
    else ReadHex(text[1..], n - 1, v * 16 + HexToDec(text[0].value))
  }

  // The characters of the two-character escapes.
  function SimpleEscape(v: nat): Option<byte> {
    if v == 0x62 then Some(0x08)
    else if v == 0x66 then Some(0x0C)
    else if v == 0x6E then Some(0x0A)
    else if v == 0x72 then Some(0x0D)
    else if v == 0x74 then Some(0x09)
    else if v == 0x22 then Some(0x22)
    else if v == 0x5C then Some(0x5C)
    else None
  }

  // What follows a backslash: the bytes it stands for, and the text after it.
  function Escape(text: seq<CodePoint>): Parsed<seq<byte>>
    requires text != []
  {
    var c := text[0].value;
    if SimpleEscape(c).Some? then
      if |text| == 1 then Err(EndOfFile) else Ok([SimpleEscape(c).value], text[1..])
    else if c == 0x75 || c == 0x55 then
      if |text| == 1 then Err(EndOfFile)
      else match ReadHex(text[1..], if c == 0x75 then 4 else 8, 0)
        case Err(e) => Err(e)
        case Ok(v, rest) =>
          if IsSurrogate(v) then Err(Surrogate)
          else if v > 0x10FFFF then Err(TooLarge)
          else Ok(EncodeEscape(v), rest)
    else Err(BadEscape)
  }

  // The body of a one-line basic string after its opening quote.
  function Body(text: seq<CodePoint>, str: seq<byte>): Parsed<seq<byte>>
    decreases |text|
  {
    if text == [] then Err(EndOfFile)
    else
      var cp := text[0];
      if cp.value == 0x22 then Ok(str, text[1..])
      else if cp.value == 0x5C then
        if |text| == 1 then Err(EndOfFile)
        else
          EscapeShortens(text[1..]);
          match Escape(text[1..])
          case Err(e) => Err(e)
          case Ok(bytes, rest) => Body(rest, str + bytes)
      else if IsNontabControl(cp.value) then Err(ControlCharacter)
      else if IsSurrogate(cp.value) then Err(Surrogate)
      else Body(text[1..], str + cp.bytes)
  }

  lemma {:induction false} ReadHexShortens(text: seq<CodePoint>, n: nat, v: nat)
    ensures var r := ReadHex(text, n, v); r.Ok? ==> |r.rest| + n == |text| && r.rest == text[n..]
    decreases n
  {
    if n > 0 && text != [] && IsHexDigit(text[0].value) {
      ReadHexShortens(text[1..], n - 1, v * 16 + HexToDec(text[0].value));
    }
  }

  lemma EscapeShortens(text: seq<CodePoint>)
    requires text != []
    ensures Escape(text).Ok? ==> |Escape(text).rest| < |text|
  {
    ReadHexShortens(text[1..], if text[0].value == 0x75 then 4 else 8, 0);
  }

  // What parse_string finds at a string delimiter.
  datatype StringForm = OneLineBasic | OneLineLiteral | MultiLineBasic | MultiLineLiteral | EmptyAtEnd | Unterminated

  function Form(text: seq<CodePoint>): StringForm
    requires text != [] && (text[0].value == 0x22 || text[0].value == 0x27)
  {
    if |text| == 1 then Unterminated
    else if |text| == 2 then (if text[1].value == text[0].value then EmptyAtEnd else Unterminated)
    else if text[0].value == text[1].value == text[2].value then
      (if text[0].value == 0x27 then MultiLineLiteral else MultiLineBasic)
    else if text[0].value == 0x27 then OneLineLiteral
    else OneLineBasic
  }

  // The first two characters decide, or three: one quote opens a string, three a multi-line one,
  // and two are an empty string.
  lemma FormExactly(text: seq<CodePoint>)
    requires text != [] && (text[0].value == 0x22 || text[0].value == 0x27)
    ensures Form(text).MultiLineBasic? <==> |text| >= 3 && forall i :: 0 <= i < 3 ==> text[i].value == Code('"')
    ensures Form(text).MultiLineLiteral? <==> |text| >= 3 && forall i :: 0 <= i < 3 ==> text[i].value == Code('\'')
    ensures Form(text).OneLineBasic? <==> |text| >= 3 && text[0].value == Code('"') && !Form(text).MultiLineBasic?
    ensures Form(text).EmptyAtEnd? <==> |text| == 2 && text[0].value == text[1].value
  {
    if |text| >= 3 && text[0].value == text[1].value == text[2].value {
      assert forall i :: 0 <= i < 3 ==> text[i].value == text[0].value;
    }
  }

  // parse_string, as far as it ends in a one-line basic string.
  function ParseString(text: seq<CodePoint>): Parsed<seq<byte>>
    requires text != [] && text[0].value == 0x22 && !Form(text).MultiLineBasic?
  {
    match Form(text)
    case Unterminated => Err(EndOfFile)
    case EmptyAtEnd => Ok([], [])
    case _ => Body(text[1..], [])
  }

  // ---------------------------------------------------------------- round trip

  // A printed character as code points.
  function EscapedChar(cp: CodePoint): seq<CodePoint>
    requires Faithful(cp)
  {
    if |cp.bytes| > 1 then [cp] else SingleBytes(EscapeByte(cp.bytes[0]))
  }

  function SingleBytes(bs: seq<byte>): (cps: seq<CodePoint>)
    ensures |cps| == |bs|
    ensures forall i :: 0 <= i < |bs| ==> cps[i] == CodePoint(bs[i], [bs[i]])
  {
    seq(|bs|, i requires 0 <= i < |bs| => CodePoint(bs[i], [bs[i]]))
  }

  function EscapedText(cps: seq<CodePoint>): seq<CodePoint>
    requires AllFaithful(cps)
  {
    if cps == [] then [] else EscapedChar(cps[0]) + EscapedText(cps[1..])
  }

  lemma {:induction false} SpelledSingle(bs: seq<byte>)
    ensures Spelled(SingleBytes(bs)) == bs
  {
    if bs != [] {
      assert SingleBytes(bs)[1..] == SingleBytes(bs[1..]);
      SpelledSingle(bs[1..]);
      assert [bs[0]] + bs[1..] == bs;
    }
  }

  lemma {:induction false} HighBytesUnescaped(bs: seq<byte>)
    requires forall i :: 0 <= i < |bs| ==> bs[i] >= 0x80
    ensures Escaped(bs) == bs
  {
    if bs != [] {
      HighBytesUnescaped(bs[1..]);
      assert [bs[0]] + bs[1..] == bs;
    }
  }

  lemma EscapedCharSpelled(cp: CodePoint)
    requires Faithful(cp)
    ensures AllFaithful(EscapedChar(cp)) && Spelled(EscapedChar(cp)) == Escaped(cp.bytes)
  {
    if |cp.bytes| > 1 {
      HighBytesUnescaped(cp.bytes);
      assert Spelled([cp]) == cp.bytes + Spelled([]);
    } else {
      SpelledSingle(EscapeByte(cp.bytes[0]));
      assert cp.bytes[1..] == [] && Escaped([]) == [];
      EscapeByteAscii(cp.bytes[0]);
    }
  }

  lemma EscapeByteAscii(c: byte)
    requires c <= 0x7F
    ensures forall i :: 0 <= i < |EscapeByte(c)| ==> EscapeByte(c)[i] <= 0x7F
  {
  }

  // The printed bytes, decoded, are the printed characters.
  lemma {:induction false} EscapedTextSpelled(cps: seq<CodePoint>)
    requires AllFaithful(cps)
    ensures AllFaithful(EscapedText(cps)) && Spelled(EscapedText(cps)) == Escaped(Spelled(cps))
  {
    if cps != [] {
      EscapedCharSpelled(cps[0]);
      EscapedTextSpelled(cps[1..]);
      SpelledAppend(EscapedChar(cps[0]), EscapedText(cps[1..]));
      EscapedAppend(cps[0].bytes, Spelled(cps[1..]));
    }
  }

  lemma ReadHexFour(text: seq<CodePoint>, v: nat)
    requires |text| >= 4 && forall i :: 0 <= i < 4 ==> IsHexDigit(text[i].value)
    ensures ReadHex(text, 4, v) == Ok(
      (((v * 16 + HexToDec(text[0].value)) * 16 + HexToDec(text[1].value)) * 16 + HexToDec(text[2].value)) * 16
        + HexToDec(text[3].value), text[4..])
  {
    var v1 := v * 16 + HexToDec(text[0].value);
    var v2 := v1 * 16 + HexToDec(text[1].value);
    var v3 := v2 * 16 + HexToDec(text[2].value);
    var v4 := v3 * 16 + HexToDec(text[3].value);
    var t1, t2, t3 := text[1..], text[2..], text[3..];
    assert t1[1..] == t2 && t2[1..] == t3 && t3[1..] == text[4..];
    assert ReadHex(text[4..], 0, v4) == Ok(v4, text[4..]);
    assert ReadHex(t3, 1, v3) == Ok(v4, text[4..]);
    assert ReadHex(t2, 2, v2) == ReadHex(t3, 1, v3);
    assert ReadHex(t1, 3, v1) == ReadHex(t2, 2, v2);
  }

  // The number that hexadecimal digits spell.
  function HexValue(digits: seq<CodePoint>): nat {
    if digits == [] then 0
    else
      var last := digits[|digits| - 1].value;
      HexValue(digits[..|digits| - 1]) * 16 + if IsHexDigit(last) then HexToDec(last) else 0
  }

  lemma {:induction false} ReadHexFrom(digits: seq<CodePoint>, i: nat, rest: seq<CodePoint>)
    requires i <= |digits| && forall k :: 0 <= k < |digits| ==> IsHexDigit(digits[k].value)
    ensures ReadHex(digits[i..] + rest, |digits| - i, HexValue(digits[..i])) == Ok(HexValue(digits), rest)
    decreases |digits| - i
  {
    if i == |digits| {
      assert digits[..i] == digits && digits[i..] + rest == rest;
    } else {
      assert digits[..i + 1][..i] == digits[..i];
      assert (digits[i..] + rest)[1..] == digits[i + 1..] + rest;
      ReadHexFrom(digits, i + 1, rest);
    }
  }

  lemma EscapeOfHex(text: seq<CodePoint>, n: nat, v: nat, rest: seq<CodePoint>)
    requires |text| > 1 && ((text[0].value == 0x75 && n == 4) || (text[0].value == 0x55 && n == 8))
    requires ReadHex(text[1..], n, 0) == Ok(v, rest)
    ensures Escape(text) ==
      if IsScalar(v) then Ok(EncodeEscape(v), rest) else Err(if IsSurrogate(v) then Surrogate else TooLarge)
  {
    assert SimpleEscape(text[0].value).None?;
  }

  predicate AllHex(digits: seq<CodePoint>) { forall k :: 0 <= k < |digits| ==> IsHexDigit(digits[k].value) }

  lemma {:induction false} ReadHexNeeds(text: seq<CodePoint>, n: nat, v: nat)
    ensures ReadHex(text, n, v).Ok? ==> |text| >= n && AllHex(text[..n])
    decreases n
  {
    if n > 0 && ReadHex(text, n, v).Ok? {
      ReadHexNeeds(text[1..], n - 1, v * 16 + HexToDec(text[0].value));
      assert text[..n] == [text[0]] + text[1..][..n - 1];
    }
  }

  lemma EscapeNeedsHex(marker: CodePoint, after: seq<CodePoint>, n: nat)
    requires (marker.value == 0x75 && n == 4) || (marker.value == 0x55 && n == 8)
    ensures Escape([marker] + after).Ok? ==> |after| >= n && AllHex(after[..n])
  {
    assert ([marker] + after)[1..] == after;
    ReadHexNeeds(after, n, 0);
  }

  /** A unicode escape is accepted exactly if its four or eight characters are hexadecimal digits
      of a scalar value, and then stands for a text that decodes to that value exactly if the
      encoder does not lose a bit of it. */
  lemma UnicodeEscapeExact(marker: CodePoint, after: seq<CodePoint>, n: nat)
    requires (marker.value == 0x75 && n == 4) || (marker.value == 0x55 && n == 8)
    ensures Escape([marker] + after).Ok? <==> |after| >= n && AllHex(after[..n]) && IsScalar(HexValue(after[..n]))
    ensures Escape([marker] + after).Ok? ==>
      var v, r := HexValue(after[..n]), Escape([marker] + after);
      r == Ok(EncodeEscape(v), after[n..]) && (Decode(r.value) == Some([CodePoint(v, r.value)]) <==> !LosesBit(v))
  {
    EscapeNeedsHex(marker, after, n);
    if |after| >= n && AllHex(after[..n]) {
      var text, digits, rest := [marker] + after, after[..n], after[n..];
      var v := HexValue(digits);
      ReadHexFrom(digits, 0, rest);
      assert digits[0..] == digits && digits[..0] == [] && text[1..] == digits + rest;
      EscapeOfHex(text, n, v, rest);
      if IsScalar(v) { EncodeExact(v); }
    }
  }

  // The six-character form of a control character.
  lemma UnicodeEscapeRead(c: byte, rest: seq<CodePoint>)
    requires c <= 0x7F && |EscapeByte(c)| == 6
    ensures Escape(SingleBytes(EscapeByte(c))[1..] + rest) == Ok([c], rest)
  {
    var text := SingleBytes(EscapeByte(c))[1..] + rest;
    var digits := text[1..];
    assert digits[0].value == 0x30 && digits[1].value == 0x30;
    assert digits[2].value == HexUpper(c / 16) && digits[3].value == HexUpper(c % 16);
    ReadHexFour(digits, 0);
    assert digits[4..] == rest;
    assert HexToDec(digits[2].value) == c / 16 && HexToDec(digits[3].value) == c % 16;
  }

  lemma SimpleEscapeRead(c: byte, rest: seq<CodePoint>)
    requires c <= 0x7F && rest != [] && |EscapeByte(c)| == 2
    ensures Escape(SingleBytes(EscapeByte(c))[1..] + rest) == Ok([c], rest)
  {
    var text := SingleBytes(EscapeByte(c))[1..] + rest;
    assert text[0].value == EscapeByte(c)[1] && text[1..] == rest;
    assert SimpleEscape(text[0].value) == Some(c);
  }

  lemma BodyOfEscape(text: seq<CodePoint>, str: seq<byte>, bytes: seq<byte>, rest: seq<CodePoint>)
    requires |text| > 1 && text[0].value == 0x5C && Escape(text[1..]) == Ok(bytes, rest)
    ensures Body(text, str) == Body(rest, str + bytes)
  {
  }

  lemma BodyEscape(c: byte, rest: seq<CodePoint>, str: seq<byte>)
    requires c <= 0x7F && rest != [] && |EscapeByte(c)| > 1
    ensures Body(SingleBytes(EscapeByte(c)) + rest, str) == Body(rest, str + [c])
  {
    var escape := SingleBytes(EscapeByte(c));
    assert escape[0].value == 0x5C;
    assert (escape + rest)[1..] == escape[1..] + rest;
    if |EscapeByte(c)| == 6 {
      UnicodeEscapeRead(c, rest);
    } else {
      SimpleEscapeRead(c, rest);
    }
    BodyOfEscape(escape + rest, str, [c], rest);
  }

  lemma BodyChar(cp: CodePoint, rest: seq<CodePoint>, str: seq<byte>)
    requires Faithful(cp) && rest != []
    ensures Body(EscapedChar(cp) + rest, str) == Body(rest, str + cp.bytes)
  {
    var text := EscapedChar(cp) + rest;
    if |cp.bytes| > 1 {
      assert cp.value >= 0x80;
      assert text[1..] == rest;
    } else {
      assert cp.bytes == [cp.bytes[0]];
      if |EscapeByte(cp.bytes[0])| > 1 {
        BodyEscape(cp.bytes[0], rest, str);
      } else {
        assert text[1..] == rest;
      }
    }
  }

  lemma {:induction false} BodyText(cps: seq<CodePoint>, rest: seq<CodePoint>, str: seq<byte>)
    requires AllFaithful(cps) && rest != [] && rest[0].value == 0x22
    ensures Body(EscapedText(cps) + rest, str) == Ok(str + Spelled(cps), rest[1..])
  {
    if cps == [] {
      assert EscapedText(cps) + rest == rest && str + [] == str;
    } else {
      var after := EscapedText(cps[1..]) + rest;
      assert EscapedText(cps) + rest == EscapedChar(cps[0]) + after;
      BodyChar(cps[0], after, str);
      BodyText(cps[1..], rest, str + cps[0].bytes);
      assert str + cps[0].bytes + Spelled(cps[1..]) == str + Spelled(cps);
    }
  }

  const QUOTE := CodePoint(0x22, [0x22])

  // The characters of a printed string, given the string's own characters.
  function QuotedText(cps: seq<CodePoint>): seq<CodePoint>
    requires AllFaithful(cps)
  {
    [QUOTE] + EscapedText(cps) + [QUOTE]
  }

  lemma QuotedTextSpelled(cps: seq<CodePoint>)
    requires AllFaithful(cps)
    ensures AllFaithful(QuotedText(cps)) && Spelled(QuotedText(cps)) == Quoted(Spelled(cps))
  {
    EscapedTextSpelled(cps);
    assert Spelled([QUOTE]) == [0x22] + Spelled([]);
    SpelledAppend([QUOTE], EscapedText(cps));
    SpelledAppend([QUOTE] + EscapedText(cps), [QUOTE]);
  }

  // Printed text never looks like a multi-line string, except "" before another quote.
  lemma QuotedForm(cps: seq<CodePoint>, after: seq<CodePoint>)
    requires AllFaithful(cps)
    ensures var text := QuotedText(cps) + after;
      && text[0].value == 0x22
      && (Form(text).MultiLineBasic? <==> cps == [] && after != [] && after[0].value == 0x22)
      && (Form(text).EmptyAtEnd? <==> cps == [] && after == [])
      && (Form(text).MultiLineBasic? || Form(text).EmptyAtEnd? || Form(text).OneLineBasic?)
  {
    var text := QuotedText(cps) + after;
    if cps == [] {
      assert text == [QUOTE, QUOTE] + after;
    } else {
      assert text[1] == EscapedChar(cps[0])[0];
      assert text[1].value != 0x22 by {
        if |cps[0].bytes| == 1 { assert EscapeByte(cps[0].bytes[0])[0] != 0x22; }
      }
    }
  }

  // The round trip on code points.
  lemma QuotedTextParsed(cps: seq<CodePoint>, after: seq<CodePoint>)
    requires AllFaithful(cps) && !(cps == [] && after != [] && after[0].value == 0x22)
    ensures var text := QuotedText(cps) + after;
      text[0].value == 0x22 && !Form(text).MultiLineBasic? && ParseString(text) == Ok(Spelled(cps), after)
  {
    QuotedForm(cps, after);
    var text := QuotedText(cps) + after;
    if Form(text).OneLineBasic? { QuotedBody(cps, after); }
  }

  lemma QuotedBody(cps: seq<CodePoint>, after: seq<CodePoint>)
    requires AllFaithful(cps)
    ensures Body((QuotedText(cps) + after)[1..], []) == Ok(Spelled(cps), after)
  {
    var rest := [QUOTE] + after;
    assert (QuotedText(cps) + after)[1..] == EscapedText(cps) + rest && rest[1..] == after;
    BodyText(cps, rest, []);
    assert [] + Spelled(cps) == Spelled(cps);
  }

  lemma QuotedDecoded(s: seq<byte>, tail: seq<byte>)
    requires Decode(s).Some? && Decode(tail).Some?
    ensures AllFaithful(Decode(s).value) && Spelled(Decode(s).value) == s
    ensures Decode(Quoted(s) + tail) == Some(QuotedText(Decode(s).value) + Decode(tail).value)
  {
    DecodeExact(s);
    QuotedTextSpelled(Decode(s).value);
    DecodeAppend(QuotedText(Decode(s).value), tail);
  }

  /** Escape round trip: for every well-formed UTF-8 string s, printing s quoted with escapes
      and parsing the result, whatever well-formed text follows it, returns s byte for byte and
      leaves exactly what followed; the one exception is "" directly followed by a quote. */
  lemma QuotedRoundTrip(s: seq<byte>, tail: seq<byte>)
    requires Decode(s).Some? && Decode(tail).Some?
    ensures Decode(Quoted(s) + tail).Some?
    ensures var text, after := Decode(Quoted(s) + tail).value, Decode(tail).value;
      && text != [] && text[0].value == 0x22
      && (Form(text).MultiLineBasic? <==> s == [] && after != [] && after[0].value == 0x22)
      && (!Form(text).MultiLineBasic? ==> ParseString(text) == Ok(s, after))
  {
    QuotedDecoded(s, tail);
    var cps, after := Decode(s).value, Decode(tail).value;
    assert cps == [] <==> s == [] by {
      if cps != [] { assert |cps[0].bytes| > 0; }
    }
    QuotedForm(cps, after);
    if !(cps == [] && after != [] && after[0].value == 0x22) {
      QuotedTextParsed(cps, after);
    }
  }

  // ---------------------------------------------------------------- the printed form by its table

  const LOW_ESCAPES: seq<string> := [
    "\\u0000", "\\u0001", "\\u0002", "\\u0003", "\\u0004", "\\u0005", "\\u0006", "\\u0007",
    "\\b", "\\t", "\\n", "\\u000B", "\\f", "\\r", "\\u000E", "\\u000F",
    "\\u0010", "\\u0011", "\\u0012", "\\u0013", "\\u0014", "\\u0015", "\\u0016", "\\u0017",
    "\\u0018", "\\u0019", "\\u001A", "\\u001B", "\\u001C", "\\u001D", "\\u001E", "\\u001F"]

  // What a byte is printed as, looked up.
  function PrintedForm(c: byte): string {
    if c < 0x20 then LOW_ESCAPES[c]
    else if c == 0x7F then "\\u007F"
    else if c == '"' as int then "\\\""
    else if c == '\\' as int then "\\\\"
    else [c as char]
  }

  // The bytes of characters below U+0100.
  predicate IsBytes(bs: seq<byte>, s: string) {
    |bs| == |s| && forall i :: 0 <= i < |bs| ==> bs[i] == s[i] as int
  }

  lemma PrintedExactly(c: byte)
    ensures IsBytes(EscapeByte(c), PrintedForm(c))
  {
    if c < 0x20 { LowPrintedExactly(c); }
  }

  lemma LowPrintedExactly(c: byte)
    requires c < 0x20
    ensures IsBytes(LowEscape(c), LOW_ESCAPES[c])
  {
    if c < 0x10 {
      assert c / 16 == 0 && c % 16 == c;
    } else {
      assert c / 16 == 1 && c % 16 == c - 16;
    }
  }

  // The characters after a backslash that stand for one byte, and that byte.
  const SHORT_ESCAPES := "btnfr\"\\"
  const SHORT_BYTES := [0x08, 0x09, 0x0A, 0x0C, 0x0D, 0x22, 0x5C]

  lemma ShortEscapeExactly(v: nat)
    ensures SimpleEscape(v).Some? <==> exists i :: 0 <= i < 7 && Code(SHORT_ESCAPES[i]) == v
    ensures forall i :: 0 <= i < 7 && Code(SHORT_ESCAPES[i]) == v ==> SimpleEscape(v) == Some(SHORT_BYTES[i])
  {
    assert SimpleEscape(v).Some? ==>
      || Code(SHORT_ESCAPES[0]) == v || Code(SHORT_ESCAPES[1]) == v || Code(SHORT_ESCAPES[2]) == v
      || Code(SHORT_ESCAPES[3]) == v || Code(SHORT_ESCAPES[4]) == v || Code(SHORT_ESCAPES[5]) == v
      || Code(SHORT_ESCAPES[6]) == v;
  }

  // ---------------------------------------------------------------- what a string may not hold

  lemma {:induction false} BodyPrefix(cps: seq<CodePoint>, rest: seq<CodePoint>, str: seq<byte>)
    requires AllFaithful(cps) && rest != []
    ensures Body(EscapedText(cps) + rest, str) == Body(rest, str + Spelled(cps))
  {
    if cps == [] {
      assert EscapedText(cps) + rest == rest && str + [] == str;
    } else {
      var after := EscapedText(cps[1..]) + rest;
      assert EscapedText(cps) + rest == EscapedChar(cps[0]) + after;
      BodyChar(cps[0], after, str);
      BodyPrefix(cps[1..], rest, str + cps[0].bytes);
      assert str + cps[0].bytes + Spelled(cps[1..]) == str + Spelled(cps);
    }
  }

  /** An unescaped control character other than a tab is refused, wherever in a string it stands. */
  lemma RawControlRefused(cps: seq<CodePoint>, c: CodePoint, after: seq<CodePoint>)
    requires AllFaithful(cps) && c.value < 0x80 && CONTROLS[c.value] == '1' && (cps == [] ==> after != [])
    ensures var text := [QUOTE] + (EscapedText(cps) + [c] + after);
      !Form(text).MultiLineBasic? && ParseString(text) == Err(ControlCharacter)
  {
    ControlExactly(c.value);
    BodyPrefix(cps, [c] + after, []);
    Regroup(EscapedText(cps), [c], after);
    var text := [QUOTE] + (EscapedText(cps) + [c] + after);
    assert text[1..] == EscapedText(cps) + [c] + after;
    if cps != [] {
      FirstUnquoted(cps);
      assert text[1] == EscapedText(cps)[0];
    } else {
      assert text[1] == c;
    }
  }

  lemma FirstUnquoted(cps: seq<CodePoint>)
    requires AllFaithful(cps) && cps != []
    ensures EscapedText(cps) != [] && EscapedText(cps)[0].value != 0x22
  {
    assert EscapedText(cps)[0] == EscapedChar(cps[0])[0];
    if |cps[0].bytes| == 1 { assert EscapeByte(cps[0].bytes[0])[0] != 0x22; }
  }

  lemma RawTabKept(cps: seq<CodePoint>, after: seq<CodePoint>, str: seq<byte>)
    requires after != []
    ensures Body([CodePoint(0x09, [0x09])] + after, str) == Body(after, str + [0x09])
  {
    assert ([CodePoint(0x09, [0x09])] + after)[1..] == after;
  }
}
