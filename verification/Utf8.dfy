/**
 The UTF-8 decoder automaton of toml.hpp (`utf8_decoder`, `utf8_reader::read_next`) against the
 grammar of RFC 3629, section 4, and the UTF-8 encoder of the string escape handler.
 */
module Utf8 {
  import opened Basics

  type byte = b: int | 0 <= b < 256

  // ---------------------------------------------------------------- RFC 3629, section 4

  predicate Tail(b: byte) { 0x80 <= b <= 0xBF }

  // The second byte after each lead of UTF8-3 and of UTF8-4.
  predicate Second3(a: byte, b: byte) {
    || (a == 0xE0 && 0xA0 <= b <= 0xBF)
    || (0xE1 <= a <= 0xEC && Tail(b))
    || (a == 0xED && 0x80 <= b <= 0x9F)
    || (0xEE <= a <= 0xEF && Tail(b))
  }

  predicate Second4(a: byte, b: byte) {
    || (a == 0xF0 && 0x90 <= b <= 0xBF)
    || (0xF1 <= a <= 0xF3 && Tail(b))
    || (a == 0xF4 && 0x80 <= b <= 0x8F)
  }

  predicate WellFormed(bs: seq<byte>) {
    match |bs|
    case 1 => bs[0] <= 0x7F
    case 2 => 0xC2 <= bs[0] <= 0xDF && Tail(bs[1])
    case 3 => Second3(bs[0], bs[1]) && Tail(bs[2])
    case 4 => Second4(bs[0], bs[1]) && Tail(bs[2]) && Tail(bs[3])
    case _ => false
  }

  // The value of the bits RFC 3629, section 3, marks with x.
  function Scalar(bs: seq<byte>): (v: nat)
    requires WellFormed(bs)
    ensures v <= 0x10FFFF && !(0xD800 <= v <= 0xDFFF)
  {
    match |bs|
    case 1 => bs[0]
    case 2 => Bits(bs[0], 0xC0) * 64 + Bits(bs[1], 0x80)
    case 3 => Bits(bs[0], 0xE0) * 4096 + Bits(bs[1], 0x80) * 64 + Bits(bs[2], 0x80)
    case 4 => Bits(bs[0], 0xF0) * 262144 + Bits(bs[1], 0x80) * 4096 + Bits(bs[2], 0x80) * 64 + Bits(bs[3], 0x80)
  }

  // A byte without its marker bits.
  function Bits(b: byte, marker: int): int { b - marker }

  // ---------------------------------------------------------------- the automaton

  // The first 256 entries of state_table.
  function Class(b: byte): nat {
    if b < 0x80 then 0
    else if b < 0x90 then 1
    else if b < 0xA0 then 9
    else if b < 0xC0 then 7
    else if b < 0xC2 then 8
    else if b < 0xE0 then 2
    else if b == 0xE0 then 10
    else if b == 0xED then 4
    else if b < 0xF0 then 3
    else if b == 0xF0 then 11
    else if b < 0xF4 then 6
    else if b == 0xF4 then 5
    else 8
  }

  const ACCEPT := 0
  const REJECT := 12

  // The other 108 entries, nine rows of twelve.
  function Row(state: nat): (r: seq<nat>)
    ensures |r| == 12
  {
    match state
    case 0 =>  [ 0, 12, 24, 36, 60, 96, 84, 12, 12, 12, 48, 72]
    case 24 => [12,  0, 12, 12, 12, 12, 12,  0, 12,  0, 12, 12]
    case 36 => [12, 24, 12, 12, 12, 12, 12, 24, 12, 24, 12, 12]
    case 48 => [12, 12, 12, 12, 12, 12, 12, 24, 12, 12, 12, 12]
    case 60 => [12, 24, 12, 12, 12, 12, 12, 12, 12, 24, 12, 12]
    case 72 => [12, 12, 12, 12, 12, 12, 12, 36, 12, 36, 12, 12]
    case 84 => [12, 36, 12, 12, 12, 12, 12, 36, 12, 36, 12, 12]
    case 96 => [12, 36, 12, 12, 12, 12, 12, 12, 12, 12, 12, 12]
    case _ =>  [12, 12, 12, 12, 12, 12, 12, 12, 12, 12, 12, 12]
  }

  // (255 >> type) & byte, as a remainder.
  function Masked(b: byte): nat {
    match Class(b)
    case 0 => b
    case 2 => b % 64
    case 3 => b % 32
    case 4 => b % 16
    case 5 => b % 8
    case 6 => b % 4
    case 7 => b % 2
    case 1 => b % 128
    case _ => 0
  }

  datatype Decoder = Decoder(state: nat, codepoint: nat)

  const Start := Decoder(ACCEPT, 0)

  // utf8_decoder::operator() (lines 4280-4293); the shifts keep 32 bits.
  function Feed(d: Decoder, b: byte): Decoder {
    Decoder(
      Row(d.state)[Class(b)],
      if d.state == ACCEPT then Masked(b) else (b % 64 + d.codepoint * 64) % 0x1_0000_0000)
  }

  // What the reader hands out: a value and the bytes it came from.
  datatype CodePoint = CodePoint(value: nat, bytes: seq<byte>)

  // utf8_reader run to the end of its input: the code points, or nothing after an error.
  function DecodeFrom(d: Decoder, held: seq<byte>, bs: seq<byte>): Option<seq<CodePoint>>
    decreases |bs|
  {
    if bs == [] then (if d.state == ACCEPT then Some([]) else None)
    else
      var d' := Feed(d, bs[0]);
      var held' := held + [bs[0]];
      if d'.state == REJECT then None
      else if d'.state != ACCEPT then DecodeFrom(d', held', bs[1..])
      else
        match DecodeFrom(d', [], bs[1..])
        case None => None
        case Some(rest) => Some([CodePoint(d'.codepoint, held')] + rest)
  }

  function Decode(bs: seq<byte>): Option<seq<CodePoint>> { DecodeFrom(Start, [], bs) }

  // ---------------------------------------------------------------- the automaton and the grammar

  // What the held bytes look like in each state of the automaton.
  predicate Agrees(d: Decoder, held: seq<byte>) {
    match |held|
    case 0 => d.state == ACCEPT
    case 1 => AgreesOne(d, held[0])
    case 2 => AgreesTwo(d, held[0], held[1])
    case 3 =>
      && d.state == 24 && Second4(held[0], held[1]) && Tail(held[2])
      && d.codepoint == Bits(held[0], 0xF0) * 4096 + Bits(held[1], 0x80) * 64 + Bits(held[2], 0x80)
    case _ => false
  }

  predicate AgreesOne(d: Decoder, a: byte) {
    || (d.state == 24 && 0xC2 <= a <= 0xDF && d.codepoint == Bits(a, 0xC0))
    || (d.state == 36 && (0xE1 <= a <= 0xEC || 0xEE <= a <= 0xEF) && d.codepoint == Bits(a, 0xE0))
    || (d.state == 48 && a == 0xE0 && d.codepoint == 0)
    || (d.state == 60 && a == 0xED && d.codepoint == 0xD)
    || (d.state == 72 && a == 0xF0 && d.codepoint == 0)
    || (d.state == 84 && 0xF1 <= a <= 0xF3 && d.codepoint == Bits(a, 0xF0))
    || (d.state == 96 && a == 0xF4 && d.codepoint == 4)
  }

  predicate AgreesTwo(d: Decoder, a: byte, b: byte) {
    || (d.state == 24 && Second3(a, b) && d.codepoint == Bits(a, 0xE0) * 64 + Bits(b, 0x80))
    || (d.state == 36 && Second4(a, b) && d.codepoint == Bits(a, 0xF0) * 64 + Bits(b, 0x80))
  }

  // One byte either is rejected, exactly when no character begins with these bytes, or
  // completes a character and holds its value, or keeps a proper prefix of one.
  lemma FeedFirst(d: Decoder, a: byte)
    requires d.state == ACCEPT
    ensures var d' := Feed(d, a);
      || (d'.state == REJECT && (0x80 <= a <= 0xC1 || a >= 0xF5))
      || (d'.state == ACCEPT && WellFormed([a]) && Scalar([a]) == d'.codepoint)
      || (d'.state != ACCEPT && AgreesOne(d', a))
  {
  }

  lemma FeedSecondOf2(d: Decoder, a: byte, b: byte)
    requires d.state == 24 && AgreesOne(d, a)
    ensures var d' := Feed(d, b);
      || (d'.state == REJECT && !WellFormed([a, b]) && !Second3(a, b) && !Second4(a, b))
      || (d'.state == ACCEPT && WellFormed([a, b]) && Scalar([a, b]) == d'.codepoint)
  {
  }

  lemma FeedSecondOf3(d: Decoder, a: byte, b: byte)
    requires (d.state == 36 || d.state == 48 || d.state == 60) && AgreesOne(d, a)
    ensures var d' := Feed(d, b);
      || (d'.state == REJECT && !WellFormed([a, b]) && !Second3(a, b) && !Second4(a, b))
      || (d'.state == 24 && AgreesTwo(d', a, b))
  {
  }

  lemma FeedSecondOf4(d: Decoder, a: byte, b: byte)
    requires (d.state == 72 || d.state == 84 || d.state == 96) && AgreesOne(d, a)
    ensures var d' := Feed(d, b);
      || (d'.state == REJECT && !WellFormed([a, b]) && !Second3(a, b) && !Second4(a, b))
      || (d'.state == 36 && AgreesTwo(d', a, b))
  {
  }

  lemma FeedSecond(d: Decoder, a: byte, b: byte)
    requires AgreesOne(d, a)
    ensures var d' := Feed(d, b);
      || (d'.state == REJECT && !WellFormed([a, b]) && !Second3(a, b) && !Second4(a, b))
      || (d'.state == ACCEPT && WellFormed([a, b]) && Scalar([a, b]) == d'.codepoint)
      || (d'.state != ACCEPT && AgreesTwo(d', a, b))
  {
    if d.state == 24 {
      FeedSecondOf2(d, a, b);
    } else if d.state < 72 {
      FeedSecondOf3(d, a, b);
    } else {
      FeedSecondOf4(d, a, b);
    }
  }

  lemma FeedThird(d: Decoder, a: byte, b: byte, c: byte)
    requires AgreesTwo(d, a, b)
    ensures var d' := Feed(d, c);
      || (d'.state == REJECT && !Tail(c))
      || (d'.state == ACCEPT && WellFormed([a, b, c]) && Scalar([a, b, c]) == d'.codepoint)
      || (d'.state == 24 && Agrees(d', [a, b, c]))
  {
  }

  lemma FeedFourth(d: Decoder, a: byte, b: byte, c: byte, e: byte)
    requires Agrees(d, [a, b, c])
    ensures var d' := Feed(d, e);
      || (d'.state == REJECT && !Tail(e))
      || (d'.state == ACCEPT && WellFormed([a, b, c, e]) && Scalar([a, b, c, e]) == d'.codepoint)
  {
  }

  // The first bytes of some character.
  predicate Begins(bs: seq<byte>) {
    match |bs|
    case 1 => bs[0] <= 0x7F || 0xC2 <= bs[0] <= 0xF4
    case 2 => WellFormed(bs) || Second3(bs[0], bs[1]) || Second4(bs[0], bs[1])
    case 3 => WellFormed(bs) || (Second4(bs[0], bs[1]) && Tail(bs[2]))
    case _ => WellFormed(bs)
  }

  lemma FeedAgrees(d: Decoder, held: seq<byte>, b: byte)
    requires Agrees(d, held)
    ensures var d' := Feed(d, b);
      || (d'.state == REJECT && !Begins(held + [b]))
      || (d'.state == ACCEPT && WellFormed(held + [b]) && Scalar(held + [b]) == d'.codepoint)
      || (d'.state != ACCEPT && d'.state != REJECT && Agrees(d', held + [b]) && !WellFormed(held + [b]))
  {
    match |held|
    case 0 => assert held + [b] == [b]; FeedFirst(d, b);
    case 1 => assert held + [b] == [held[0], b]; FeedSecond(d, held[0], b);
    case 2 => assert held + [b] == [held[0], held[1], b]; FeedThird(d, held[0], held[1], b);
    case 3 =>
      assert held == [held[0], held[1], held[2]];
      assert held + [b] == [held[0], held[1], held[2], b];
      FeedFourth(d, held[0], held[1], held[2], b);
  }

  // ---------------------------------------------------------------- whole inputs

  predicate Faithful(cp: CodePoint) { WellFormed(cp.bytes) && cp.value == Scalar(cp.bytes) }

  predicate AllFaithful(cps: seq<CodePoint>) { forall i :: 0 <= i < |cps| ==> Faithful(cps[i]) }

  function Spelled(cps: seq<CodePoint>): seq<byte> {
    if cps == [] then [] else cps[0].bytes + Spelled(cps[1..])
  }

  function Prepend(cp: CodePoint, rest: Option<seq<CodePoint>>): Option<seq<CodePoint>> {
    match rest
    case None => None
    case Some(cps) => Some([cp] + cps)
  }

  lemma {:induction false} SpelledAppend(a: seq<CodePoint>, b: seq<CodePoint>)
    ensures Spelled(a + b) == Spelled(a) + Spelled(b)
  {
    if a == [] {
      assert a + b == b;
    } else {
      assert (a + b)[1..] == a[1..] + b;
      SpelledAppend(a[1..], b);
    }
  }

  lemma {:induction false} DecodeSound(d: Decoder, held: seq<byte>, bs: seq<byte>)
    requires Agrees(d, held) && DecodeFrom(d, held, bs).Some?
    ensures AllFaithful(DecodeFrom(d, held, bs).value)
    ensures Spelled(DecodeFrom(d, held, bs).value) == held + bs
    decreases |bs|
  {
    if bs != [] {
      var d' := Feed(d, bs[0]);
      FeedAgrees(d, held, bs[0]);
      assert held + bs == (held + [bs[0]]) + bs[1..];
      if d'.state == ACCEPT {
        DecodeSound(d', [], bs[1..]);
      } else {
        DecodeSound(d', held + [bs[0]], bs[1..]);
      }
    }
  }

  lemma BeginsPrefix(bs: seq<byte>, n: nat)
    requires WellFormed(bs) && 0 < n <= |bs|
    ensures Begins(bs[..n])
    ensures n < |bs| ==> !WellFormed(bs[..n])
  {
  }

  // An accepting decoder forgets what it held.
  lemma DecodeAccepting(d: Decoder, bs: seq<byte>)
    requires d.state == ACCEPT
    ensures DecodeFrom(d, [], bs) == Decode(bs)
  {
  }

  // One byte of a character, and the last one.
  lemma DecodeInside(d: Decoder, held: seq<byte>, b: byte, more: seq<byte>, rest: seq<byte>)
    requires Agrees(d, held) && more != [] && WellFormed(held + [b] + more)
    ensures Agrees(Feed(d, b), held + [b])
    ensures DecodeFrom(d, held, [b] + more + rest) == DecodeFrom(Feed(d, b), held + [b], more + rest)
  {
    FeedAgrees(d, held, b);
    assert (held + [b] + more)[..|held| + 1] == held + [b];
    BeginsPrefix(held + [b] + more, |held| + 1);
    assert ([b] + more + rest)[1..] == more + rest;
  }

  lemma DecodeLast(d: Decoder, held: seq<byte>, b: byte, rest: seq<byte>)
    requires Agrees(d, held) && WellFormed(held + [b])
    ensures DecodeFrom(d, held, [b] + rest)
         == Prepend(CodePoint(Scalar(held + [b]), held + [b]), Decode(rest))
  {
    FeedAgrees(d, held, b);
    BeginsPrefix(held + [b], |held| + 1);
    assert (held + [b])[..|held| + 1] == held + [b];
    assert ([b] + rest)[1..] == rest;
    DecodeAccepting(Feed(d, b), rest);
  }

  lemma {:induction false} DecodeChar(d: Decoder, held: seq<byte>, tail: seq<byte>, rest: seq<byte>)
    requires Agrees(d, held) && tail != [] && WellFormed(held + tail)
    ensures DecodeFrom(d, held, tail + rest)
         == Prepend(CodePoint(Scalar(held + tail), held + tail), Decode(rest))
    decreases |tail|
  {
    var b, more := tail[0], tail[1..];
    assert tail == [b] + more && held + tail == held + [b] + more;
    if more == [] {
      assert tail == [b];
      DecodeLast(d, held, b, rest);
    } else {
      DecodeInside(d, held, b, more, rest);
      DecodeChar(Feed(d, b), held + [b], more, rest);
    }
  }

  /** Decoding accepts every sequence of well-formed characters and returns exactly them. */
  lemma {:induction false} DecodeComplete(cps: seq<CodePoint>)
    requires AllFaithful(cps)
    ensures Decode(Spelled(cps)) == Some(cps)
  {
    if cps != [] {
      assert [] + cps[0].bytes == cps[0].bytes && [cps[0]] + cps[1..] == cps;
      assert CodePoint(Scalar(cps[0].bytes), cps[0].bytes) == cps[0];
      DecodeChar(Start, [], cps[0].bytes, Spelled(cps[1..]));
      DecodeComplete(cps[1..]);
    }
  }

  /** The automaton accepts exactly the concatenations of characters of RFC 3629, section 4,
      and what it returns is the one way to read the input as such a concatenation. */
  lemma DecodeExact(bs: seq<byte>)
    ensures Decode(bs).Some? <==> exists cps :: AllFaithful(cps) && Spelled(cps) == bs
    ensures forall cps :: AllFaithful(cps) && Spelled(cps) == bs ==> Decode(bs) == Some(cps)
    ensures Decode(bs).Some? ==> AllFaithful(Decode(bs).value) && Spelled(Decode(bs).value) == bs
  {
    if Decode(bs).Some? {
      DecodeSound(Start, [], bs);
      assert [] + bs == bs;
    }
    forall cps | AllFaithful(cps) && Spelled(cps) == bs ensures Decode(bs) == Some(cps) {
      DecodeComplete(cps);
    }
  }

  /** Well-formed texts decode independently of what follows them. */
  lemma DecodeAppend(cps: seq<CodePoint>, tail: seq<byte>)
    requires AllFaithful(cps) && Decode(tail).Some?
    ensures Decode(Spelled(cps) + tail) == Some(cps + Decode(tail).value)
  {
    DecodeExact(tail);
    SpelledAppend(cps, Decode(tail).value);
    DecodeComplete(cps + Decode(tail).value);
  }

  // One byte of the automaton, as it bears on the decoding of the whole input.
  lemma DecodeStep(d: Decoder, held: seq<byte>, b: byte, rest: seq<byte>)
    requires Agrees(d, held)
    ensures var d', bytes, all := Feed(d, b), held + [b], DecodeFrom(d, held, [b] + rest);
      && (d'.state == REJECT ==> all == None)
      && (d'.state == ACCEPT ==>
            && Faithful(CodePoint(d'.codepoint, bytes))
            && all == Prepend(CodePoint(d'.codepoint, bytes), Decode(rest)))
      && (d'.state != REJECT && d'.state != ACCEPT ==> Agrees(d', bytes) && all == DecodeFrom(d', bytes, rest))
  {
    FeedAgrees(d, held, b);
    assert ([b] + rest)[1..] == rest;
    if Feed(d, b).state == ACCEPT { DecodeAccepting(Feed(d, b), rest); }
  }

  // ---------------------------------------------------------------- the reader

  datatype Read = Eof | Error | Item(cp: CodePoint)

  /** utf8_reader over a byte string (lines 5335-5464), without source positions. */
  class Utf8Reader {
    const source: seq<byte>
    var pos: nat
    var decoder: Decoder

    constructor (source: seq<byte>)
      ensures this.source == source && Valid() && Rest() == source
    {
      this.source := source;
      this.pos := 0;
      this.decoder := Start;
    }

    // No error has been reported.
    ghost predicate Valid() reads this { pos <= |source| && decoder.state == ACCEPT }

    ghost function Rest(): seq<byte>
      reads this
      requires Valid()
    {
      source[pos..]
    }

    /** Hands out the next character and leaves the rest, fails exactly when no character stands
        at the front of the rest, and keeps returning Eof at the end. */
    method ReadNext() returns (r: Read)
      requires Valid()
      modifies this
      ensures pos <= |source|
      ensures r.Eof? <==> old(Rest()) == []
      ensures r.Eof? ==> Valid() && Rest() == []
      ensures r.Item? ==> Valid() && Faithful(r.cp) && old(Rest()) == r.cp.bytes + Rest()
      ensures r.Item? ==> Decode(old(Rest())) == Prepend(r.cp, Decode(Rest()))
      ensures r.Error? <==> old(Rest()) != [] && NoCharacter(old(Rest()))
      ensures r.Error? ==> Decode(old(Rest())) == None
    {
      if pos == |source| {
        return Eof;
      }
      ghost var whole := Rest();
      var bytes: seq<byte> := [];
      while true
        invariant pos <= |source| && InCharacter(decoder, bytes, source[pos..], whole)
        decreases |source| - pos
      {
        if pos == |source| {
          return Error;   // end of input inside a character
        }
        bytes := FeedNext(bytes, whole);
        if decoder.state == REJECT {
          return Error;
        }
        if decoder.state == ACCEPT {
          return Item(CodePoint(decoder.codepoint, bytes));
        }
      }
    }

    /** One turn of the loop: the next byte goes through utf8_decoder::operator(). */
    method FeedNext(held: seq<byte>, ghost whole: seq<byte>) returns (bytes: seq<byte>)
      requires pos < |source| && InCharacter(decoder, held, source[pos..], whole)
      modifies this
      ensures pos == old(pos) + 1 <= |source| && Fed(decoder, bytes, source[pos..], whole)
    {
      var b := source[pos];
      assert source[pos..] == [b] + source[pos + 1..];
      FeedInside(decoder, held, b, source[pos + 1..], whole);
      decoder := Feed(decoder, b);
      bytes := held + [b];
      pos := pos + 1;
    }
  }

  // No character stands at the front.
  ghost predicate NoCharacter(bs: seq<byte>) { forall n :: 0 < n <= |bs| ==> !WellFormed(bs[..n]) }

  // Part of a character has been read; whole is the input from its start.
  ghost predicate InCharacter(d: Decoder, bytes: seq<byte>, rest: seq<byte>, whole: seq<byte>) {
    && whole == bytes + rest && whole != []
    && Agrees(d, bytes) && (bytes != [] ==> d.state != ACCEPT)
    && DecodeFrom(d, bytes, rest) == Decode(whole)
    && NoCharacter(bytes)
  }

  lemma NoCharacterYet(bytes: seq<byte>, b: byte)
    requires NoCharacter(bytes) && !WellFormed(bytes + [b])
    ensures NoCharacter(bytes + [b])
  {
    forall n | 0 < n <= |bytes + [b]| ensures !WellFormed((bytes + [b])[..n]) {
      if n <= |bytes| { assert (bytes + [b])[..n] == bytes[..n]; } else { assert (bytes + [b])[..n] == bytes + [b]; }
    }
  }

  lemma NoCharacterAtAll(bytes: seq<byte>, b: byte, rest: seq<byte>)
    requires NoCharacter(bytes) && !Begins(bytes + [b])
    ensures NoCharacter(bytes + [b] + rest)
  {
    var whole := bytes + [b] + rest;
    forall n | 0 < n <= |whole| ensures !WellFormed(whole[..n]) {
      if n <= |bytes| {
        assert whole[..n] == bytes[..n];
      } else {
        assert whole[..n][..|bytes| + 1] == bytes + [b];
        if WellFormed(whole[..n]) { BeginsPrefix(whole[..n], |bytes| + 1); }
      }
    }
  }

  // After a byte: no character can come of the input, or one is complete, or it goes on.
  ghost predicate Fed(d: Decoder, bytes: seq<byte>, rest: seq<byte>, whole: seq<byte>) {
    if d.state == REJECT then Decode(whole) == None && NoCharacter(whole)
    else if d.state == ACCEPT then
      && Faithful(CodePoint(d.codepoint, bytes)) && whole == bytes + rest && !NoCharacter(whole)
      && Decode(whole) == Prepend(CodePoint(d.codepoint, bytes), Decode(rest))
    else InCharacter(d, bytes, rest, whole)
  }

  lemma FeedInside(d: Decoder, bytes: seq<byte>, b: byte, rest: seq<byte>, whole: seq<byte>)
    requires InCharacter(d, bytes, [b] + rest, whole)
    ensures Fed(Feed(d, b), bytes + [b], rest, whole)
  {
    var d' := Feed(d, b);
    assert whole == bytes + [b] + rest;
    DecodeStep(d, bytes, b, rest);
    FeedAgrees(d, bytes, b);
    if d'.state == REJECT {
      NoCharacterAtAll(bytes, b, rest);
    } else if d'.state == ACCEPT {
      assert whole[..|bytes + [b]|] == bytes + [b];
    } else {
      NoCharacterYet(bytes, b);
    }
  }

  // ---------------------------------------------------------------- the encoder

  // The escape handler's encoder (lines 7093-7112).  Note the second byte of the three-byte
  // form: it keeps five bits of the value where the format has six.
  function EncodeEscape(v: nat): seq<byte>
    requires v <= 0x10FFFF
  {
    if v <= 0x7F then [v % 0x80]
    else if v <= 0x7FF then [0xC0 + v / 64 % 32, 0x80 + v % 64]
    else if v <= 0xFFFF then [0xE0 + v / 4096 % 16, 0x80 + v / 64 % 32, 0x80 + v % 64]
    else [0xF0 + v / 262144 % 8, 0x80 + v / 4096 % 64, 0x80 + v / 64 % 64, 0x80 + v % 64]
  }

  predicate IsScalar(v: nat) { v <= 0x10FFFF && !(0xD800 <= v <= 0xDFFF) }

  // Values of the three-byte form with bit 11 set.
  predicate LosesBit(v: nat) { 0x800 <= v <= 0xFFFF && v / 0x800 % 2 == 1 }

  /** The encoder inverts the decoder exactly on the values that do not lose bit 11. */
  lemma EncodeExact(v: nat)
    requires IsScalar(v)
    ensures Decode(EncodeEscape(v)) == Some([CodePoint(v, EncodeEscape(v))]) <==> !LosesBit(v)
  {
    var bs := EncodeEscape(v);
    if LosesBit(v) {
      EncodeLossy(v);
    } else {
      EncodeFits(v);
      DecodeAlone(bs);
    }
  }

  lemma EncodeFits(v: nat)
    requires IsScalar(v) && !LosesBit(v)
    ensures WellFormed(EncodeEscape(v)) && Scalar(EncodeEscape(v)) == v
  {
    if 0x800 <= v <= 0xFFFF {
      EncodeFitsThree(v);
    } else if v > 0xFFFF {
      EncodeFitsFour(v);
    }
  }

  lemma EncodeFitsThree(v: nat)
    requires IsScalar(v) && 0x800 <= v <= 0xFFFF && !LosesBit(v)
    ensures WellFormed(EncodeEscape(v)) && Scalar(EncodeEscape(v)) == v
  {
    var q := v / 64;
    assert q / 32 == v / 0x800 && q / 64 == v / 4096;
    assert q % 32 == q % 64;
  }

  lemma EncodeFitsFour(v: nat)
    requires 0xFFFF < v <= 0x10FFFF
    ensures WellFormed(EncodeEscape(v)) && Scalar(EncodeEscape(v)) == v
  {
    var q := v / 64;
    var p := q / 64;
    assert p == v / 4096 && p / 64 == v / 262144;
    assert v == p / 64 * 262144 + p % 64 * 4096 + q % 64 * 64 + v % 64;
  }

  lemma DecodeAlone(bs: seq<byte>)
    requires WellFormed(bs)
    ensures Decode(bs) == Some([CodePoint(Scalar(bs), bs)])
  {
    assert [] + bs == bs && bs + [] == bs;
    DecodeChar(Start, [], bs, []);
    assert Decode([]) == Some([]);
    var cp := CodePoint(Scalar(bs), bs);
    assert [cp] + [] == [cp];
  }

  /** What becomes of the others: below U+1000 the bytes are malformed, above they spell the
      character 0x800 lower. */
  lemma EncodeLossy(v: nat)
    requires IsScalar(v) && LosesBit(v)
    ensures v < 0x1000 ==> Decode(EncodeEscape(v)) == None
    ensures v >= 0x1000 ==> Decode(EncodeEscape(v)) == Some([CodePoint(v - 0x800, EncodeEscape(v))])
  {
    if v < 0x1000 {
      OverlongRejected(EncodeEscape(v));
    } else {
      EncodeLossyValue(v);
      DecodeAlone(EncodeEscape(v));
    }
  }

  lemma OverlongRejected(bs: seq<byte>)
    requires |bs| == 3 && bs[0] == 0xE0 && 0x80 <= bs[1] < 0xA0
    ensures Decode(bs) == None
  {
    var d := Feed(Start, bs[0]);
    assert d.state == 48 && bs[1..][0] == bs[1] && Feed(d, bs[1]).state == REJECT;
    assert DecodeFrom(d, [] + [bs[0]], bs[1..]) == None;
  }

  lemma EncodeLossyValue(v: nat)
    requires IsScalar(v) && LosesBit(v) && v >= 0x1000
    ensures WellFormed(EncodeEscape(v)) && Scalar(EncodeEscape(v)) == v - 0x800
  {
    var q := v / 64;
    assert q / 32 == v / 0x800 && q / 64 == v / 4096;
    assert q % 64 == q % 32 + 32;
  }

  /** "\\u4E2D" is one such value. */
  lemma EncodeLossyExample()
    ensures EncodeEscape(0x4E2D) == [0xE4, 0x98, 0xAD]
    ensures Decode(EncodeEscape(0x4E2D)) == Some([CodePoint(0x462D, [0xE4, 0x98, 0xAD])])
  {
    EncodeLossy(0x4E2D);
  }
}
