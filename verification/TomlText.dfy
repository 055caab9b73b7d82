/** Code points and character classes of toml.hpp (lines 4063-4237). */
module TomlText {
  import opened Utf8

  datatype Error =
    | EndOfFile
    | BadEscape | BadHexDigit | Surrogate | TooLarge | ControlCharacter
    | ExpectedDigit | ExpectedPrefix | BadUnderscore | TooLong | LeadingZero | OutOfRange
    | ExpectedSeparator | FieldOutOfRange | ExpectedTerminator | TooPrecise | UnknownType

  // The result of a parse function: what it read and the text it left.
  datatype Parsed<+T> = Ok(value: T, rest: seq<CodePoint>) | Err(error: Error)

  function Code(c: char): (v: nat) { c as int }

  // An ASCII character as the decoder hands it out.
  function Ascii(c: char): (cp: CodePoint)
    requires c as int <= 0x7F
    ensures Faithful(cp) && cp.value == Code(c)
  {
    CodePoint(c as int, [c as int])
  }

  // ASCII text, given as a string.
  function AsciiText(s: string): (cps: seq<CodePoint>)
    requires forall i :: 0 <= i < |s| ==> s[i] as int <= 0x7F
    ensures |cps| == |s| && AllFaithful(cps)
    ensures forall i :: 0 <= i < |s| ==> cps[i] == Ascii(s[i])
  {
    seq(|s|, i requires 0 <= i < |s| => Ascii(s[i]))
  }

  predicate IsDecimalDigit(v: nat) { 0x30 <= v <= 0x39 }

  predicate IsHexDigit(v: nat) { 0x30 <= v <= 0x39 || 0x41 <= v <= 0x46 || 0x61 <= v <= 0x66 }

  // hex_to_dec: ORing 0x20 makes a letter lower case.
  function HexToDec(v: nat): (d: nat)
    requires IsHexDigit(v)
    ensures d < 16
  {
    if v >= 0x41 then 10 + (if v < 0x60 then v + 0x20 else v) - 0x61 else v - 0x30
  }

  predicate IsNontabControl(v: nat) { v <= 0x08 || 0x0A <= v <= 0x1F || v == 0x7F }

  predicate IsSurrogate(v: nat) { 0xD800 <= v <= 0xDFFF }

  predicate IsWhitespace(v: nat) {
    || v == 0x09 || v == 0x20
    || v == 0xA0 || v == 0x1680 || 0x2000 <= v <= 0x200A || v == 0x202F || v == 0x205F || v == 0x3000
  }

  predicate IsLineBreak(v: nat) { 0x0A <= v <= 0x0D || v == 0x85 || v == 0x2028 || v == 0x2029 }

  predicate IsValueTerminator(v: nat) {
    IsLineBreak(v) || IsWhitespace(v) || v == 0x5D || v == 0x7D || v == 0x2C || v == 0x23
  }

  // At the end of the text, or before a character that ends a value.
  predicate AtValueEnd(text: seq<CodePoint>) { text == [] || IsValueTerminator(text[0].value) }

  // ---------------------------------------------------------------- the classes by their characters

  const LOWER_DIGITS := "0123456789abcdef"
  const UPPER_DIGITS := "0123456789ABCDEF"

  // A character is the hexadecimal digit d exactly if it stands at d in one of the two rows.
  lemma HexDigitExactly(v: nat, d: nat)
    requires d < 16
    ensures IsHexDigit(v) && HexToDec(v) == d <==> v == Code(LOWER_DIGITS[d]) || v == Code(UPPER_DIGITS[d])
  {
  }

  lemma DecimalDigitExactly(v: nat, d: nat)
    requires d < 10
    ensures IsDecimalDigit(v) && v - 0x30 == d <==> v == Code("0123456789"[d])
  {
  }

  // The control characters that must be escaped, as a table of the first 128.
  const CONTROLS := "11111111" + "10111111" + "11111111" + "11111111" + Repeat('0', 95) + "1"

  function Repeat(c: char, n: nat): (s: string)
    ensures |s| == n && forall i :: 0 <= i < n ==> s[i] == c
  {
    if n == 0 then [] else Repeat(c, n - 1) + [c]
  }

  lemma ControlExactly(v: nat)
    ensures |CONTROLS| == 0x80
    ensures IsNontabControl(v) <==> v < 0x80 && CONTROLS[v] == '1'
  {
    assert "11111111" + "10111111" + "11111111" + "11111111" == "11111111101111111111111111111111";
    if v < 32 {
      assert CONTROLS[v] == "11111111101111111111111111111111"[v];
    } else if v < 127 {
      assert CONTROLS[v] == Repeat('0', 95)[v - 32];
    } else if v == 127 {
      assert CONTROLS[v] == '1';
    }
  }

  // What ends a value: white space and line breaks, Unicode's included, and ] } , #.
  const TERMINATORS: set<nat> := {
    0x09, 0x0A, 0x0B, 0x0C, 0x0D, 0x20, 0x23, 0x2C, 0x5D, 0x7D, 0x85, 0xA0, 0x1680, 0x2000, 0x2001, 0x2002,
    0x2003, 0x2004, 0x2005, 0x2006, 0x2007, 0x2008, 0x2009, 0x200A, 0x2028, 0x2029, 0x202F, 0x205F, 0x3000 }

  lemma TerminatorExactly(v: nat)
    ensures IsValueTerminator(v) <==> v in TERMINATORS
  {
  }
}
