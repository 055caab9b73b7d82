/**
 ConvertUTF32ToUTF16 and ConvertUTF16ToUTF32 of include/xloil/StringUtils.h (lines 26-147).
 Code points are char32_t values, code units char16_t values.
 */
module Utf16 {
  import opened Basics

  type CodePoint = c: nat | c < 0x1_0000_0000
  type CodeUnit = u: nat | u < 0x10000

  const LEAD_OFFSET: nat := 0xD800 - 0x40
  const HI_SURROGATE_START: nat := 0xD800

  // ---------------------------------------------------------------- encoding

  function Lead(c: CodePoint): CodeUnit { (LEAD_OFFSET + c / 0x400) % 0x10000 }

  function Trail(c: CodePoint): CodeUnit { 0xDC00 + c % 0x400 }

  // convertChar
  function EncodeChar(c: CodePoint): seq<CodeUnit> { if c < 0x10000 then [c] else [Lead(c), Trail(c)] }

  function Encode(s: seq<CodePoint>): seq<CodeUnit> {
    if s == [] then [] else Encode(s[..|s| - 1]) + EncodeChar(s[|s| - 1])
  }

  lemma {:induction false} EncodeGrows(s: seq<CodePoint>, k: nat)
    requires k <= |s|
    ensures Encode(s[..k]) <= Encode(s)
  {
    if k == |s| {
      assert s[..k] == s;
    } else {
      var before := s[..|s| - 1];
      EncodeGrows(before, k);
      assert before[..k] == s[..k];
    }
  }

  // What a target of that size gets: the encoding of the longest prefix that fits.
  ghost predicate LongestFit(s: seq<CodePoint>, size: nat, k: nat) {
    k <= |s| && |Encode(s[..k])| <= size && (k < |s| ==> |Encode(s[..k + 1])| > size)
  }

  // One round of the loop: a character that does not fit whole is only counted.
  method PutChar(target: array<CodeUnit>, targetSize: nat, p: nat, c: CodePoint) returns (p': nat)
    requires targetSize <= target.Length
    modifies target
    ensures p' == p + |EncodeChar(c)|
    ensures p' <= targetSize ==> target[..] == old(target[..])[..p] + EncodeChar(c) + old(target[..])[p'..]
    ensures p' > targetSize ==> target[..] == old(target[..])
  {
    p' := p;
    var lead, trail := if c < 0x10000 then c else Lead(c), if c < 0x10000 then 0 else Trail(c);
    if p' >= targetSize || (trail != 0 && p' + 1 >= targetSize) {
      if trail != 0 { p' := p' + 1; }
    } else {
      target[p'] := lead;
      if trail != 0 {
        p' := p' + 1;
        target[p'] := trail;
      }
    }
    p' := p' + 1;
  }

  // The state of the loop: where p stands, and what has been written.
  ghost predicate EncodeTrack(s: seq<CodePoint>, i: nat, p: nat, fits: nat, targetSize: nat, first: seq<CodeUnit>,
                              now: seq<CodeUnit>) {
    && fits <= i <= |s| && p == |Encode(s[..i])|
    && |Encode(s[..fits])| <= targetSize <= |first|
    && (fits < i ==> p > targetSize && |Encode(s[..fits + 1])| > targetSize)
    && now == Encode(s[..fits]) + first[|Encode(s[..fits])|..]
  }

  lemma EncodeTrackNext(s: seq<CodePoint>, i: nat, p: nat, fits: nat, targetSize: nat, first: seq<CodeUnit>,
                        before: seq<CodeUnit>, now: seq<CodeUnit>)
    requires i < |s| && EncodeTrack(s, i, p, fits, targetSize, first, before)
    requires var p' := p + |EncodeChar(s[i])|;
      if p' <= targetSize then p' <= |before| && now == before[..p] + EncodeChar(s[i]) + before[p'..] else now == before
    ensures var p' := p + |EncodeChar(s[i])|;
      EncodeTrack(s, i + 1, p', if p' <= targetSize then i + 1 else fits, targetSize, first, now)
  {
    assert s[..i + 1][..i] == s[..i];
    var written := Encode(s[..i]);
    if p + |EncodeChar(s[i])| <= targetSize {
      assert before[..p] == written;
      assert written + EncodeChar(s[i]) == Encode(s[..i + 1]);
    }
  }

  lemma EncodeTrackEnd(s: seq<CodePoint>, p: nat, fits: nat, targetSize: nat, first: seq<CodeUnit>, now: seq<CodeUnit>)
    requires EncodeTrack(s, |s|, p, fits, targetSize, first, now)
    ensures p == |Encode(s)| && LongestFit(s, targetSize, fits) && Encode(s[..fits]) <= Encode(s)
    ensures now == Encode(s[..fits]) + first[|Encode(s[..fits])|..]
  {
    assert s[..|s|] == s;
    EncodeGrows(s, fits);
  }

  method PutNext(target: array<CodeUnit>, targetSize: nat, s: seq<CodePoint>, i: nat, p: nat,
                 ghost fits: nat, ghost first: seq<CodeUnit>)
    returns (p': nat, ghost fits': nat)
    requires i < |s| && targetSize <= target.Length && EncodeTrack(s, i, p, fits, targetSize, first, target[..])
    modifies target
    ensures EncodeTrack(s, i + 1, p', fits', targetSize, first, target[..])
  {
    ghost var before := target[..];
    p' := PutChar(target, targetSize, p, s[i]);
    fits' := if p' <= targetSize then i + 1 else fits;
    EncodeTrackNext(s, i, p, fits, targetSize, first, before, target[..]);
  }

  // ConvertUTF32ToUTF16: the full length is returned, whatever the target's size, and the
  // target gets as much of the encoding as fits in whole characters.
  method EncodeInto(target: array<CodeUnit>, targetSize: nat, s: seq<CodePoint>) returns (length: nat, ghost fits: nat)
    requires targetSize <= target.Length
    modifies target
    ensures length == |Encode(s)|
    ensures LongestFit(s, targetSize, fits) && Encode(s[..fits]) <= Encode(s)
    ensures target[..] == Encode(s[..fits]) + old(target[..])[|Encode(s[..fits])|..]
  {
    length, fits := 0, 0;
    ghost var first := target[..];
    for i := 0 to |s|
      invariant EncodeTrack(s, i, length, fits, targetSize, first, target[..])
    {
      length, fits := PutNext(target, targetSize, s, i, length, fits, first);
    }
    EncodeTrackEnd(s, length, fits, targetSize, first, target[..]);
  }

  // ---------------------------------------------------------------- decoding

  // (lead << 10) + trail + SURROGATE_OFFSET, in 32 bits.
  function Combine(lead: CodeUnit, trail: CodeUnit): CodePoint
    requires lead >= HI_SURROGATE_START
  {
    (lead - HI_SURROGATE_START) * 0x400 + trail + 0x10000 - 0xDC00
  }

  // How many code points the units are read as.  Everything from U+D800 on counts as the
  // first of a pair.
  function Count(units: seq<CodeUnit>): nat {
    if units == [] then 0
    else if units[0] < HI_SURROGATE_START then 1 + Count(units[1..])
    else if |units| == 1 then 1
    else 1 + Count(units[2..])
  }

  // The code points, unless the units end in the middle of a pair.
  function Decode(units: seq<CodeUnit>): Option<seq<CodePoint>> {
    if units == [] then Some([])
    else if units[0] < HI_SURROGATE_START then Prepend(units[0], Decode(units[1..]))
    else if |units| == 1 then None
    else Prepend(Combine(units[0], units[1]), Decode(units[2..]))
  }

  function Prepend(c: CodePoint, rest: Option<seq<CodePoint>>): Option<seq<CodePoint>> {
    if rest.None? then None else Some([c] + rest.value)
  }

  // ---------------------------------------------------------------- round trip

  // What survives: one unit below the surrogates, or two whose first has not wrapped.  Of the
  // values up to U+10FFFF these are U+0000 to U+D7FF and U+10000 to U+10FFFF.
  predicate Survives(c: CodePoint) { c < 0xD800 || 0x10000 <= c <= 0xA0FFFF }

  lemma PairRoundTrip(c: CodePoint)
    requires 0x10000 <= c
    ensures Lead(c) >= HI_SURROGATE_START ==> (Combine(Lead(c), Trail(c)) == c <==> c <= 0xA0FFFF)
    ensures c <= 0xA0FFFF ==> Lead(c) >= HI_SURROGATE_START
  {
    var q, r := c / 0x400, c % 0x400;
    assert c == q * 0x400 + r;
    if c <= 0xA0FFFF {
      assert Lead(c) == LEAD_OFFSET + q;
    }
  }

  // The encoding taken from the front.
  lemma {:induction false} EncodeFront(s: seq<CodePoint>)
    requires s != []
    ensures Encode(s) == EncodeChar(s[0]) + Encode(s[1..])
  {
    var before := s[..|s| - 1];
    if |s| > 1 {
      EncodeFront(before);
      assert before[1..] == s[1..][..|s| - 2];
      assert Encode(s[1..]) == Encode(before[1..]) + EncodeChar(s[|s| - 1]);
    } else {
      assert before == [] && s[1..] == [];
    }
  }

  lemma DecodeSingle(u: CodeUnit, rest: seq<CodeUnit>)
    ensures u < HI_SURROGATE_START ==> Decode([u] + rest) == Prepend(u, Decode(rest))
  {
    assert ([u] + rest)[1..] == rest;
  }

  lemma DecodePair(u: CodeUnit, t: CodeUnit, rest: seq<CodeUnit>)
    ensures u >= HI_SURROGATE_START ==> Decode([u, t] + rest) == Prepend(Combine(u, t), Decode(rest))
    ensures [u, t] + rest == [u] + ([t] + rest)
  {
    assert ([u, t] + rest)[2..] == rest;
  }

  // A character that survives is read back, and reading goes on after it.
  lemma SurvivorFirst(c: CodePoint, rest: seq<CodeUnit>)
    requires Survives(c)
    ensures Decode(EncodeChar(c) + rest) == Prepend(c, Decode(rest))
  {
    if c < 0x10000 {
      DecodeSingle(c, rest);
    } else {
      PairRoundTrip(c);
      DecodePair(Lead(c), Trail(c), rest);
    }
  }

  ghost predicate NoLonger(decoded: Option<seq<CodePoint>>, n: nat) { decoded.Some? ==> |decoded.value| <= n }

  // Reading never makes more characters than were encoded, from a character's start or from
  // the second unit of a pair.
  lemma {:induction false} NeverMore(s: seq<CodePoint>)
    ensures NoLonger(Decode(Encode(s)), |s|)
    decreases |s|, 1
  {
    if s != [] {
      EncodeFront(s);
      var c, rest := s[0], Encode(s[1..]);
      if Survives(c) {
        SurvivorFirst(c, rest);
        NeverMore(s[1..]);
      } else if c < 0x10000 {
        FewerAfterSurrogate(s);
      } else if Lead(c) < HI_SURROGATE_START {
        DecodePair(Lead(c), Trail(c), rest);
        DecodeSingle(Lead(c), [Trail(c)] + rest);
        NeverMoreAfter(Trail(c), s[1..]);
      } else {
        DecodePair(Lead(c), Trail(c), rest);
        NeverMore(s[1..]);
      }
    }
  }

  lemma {:induction false} NeverMoreAfter(t: CodeUnit, s: seq<CodePoint>)
    requires t >= HI_SURROGATE_START
    ensures NoLonger(Decode([t] + Encode(s)), |s|)
    decreases |s|, 0
  {
    if s == [] {
      assert [t] + Encode(s) == [t];
    } else {
      EncodeFront(s);
      var c, rest := s[0], Encode(s[1..]);
      if c < 0x10000 {
        DecodePair(t, c, rest);
        NeverMore(s[1..]);
      } else {
        assert [t] + (EncodeChar(c) + rest) == [t, Lead(c)] + ([Trail(c)] + rest);
        DecodePair(t, Lead(c), [Trail(c)] + rest);
        NeverMoreAfter(Trail(c), s[1..]);
      }
    }
  }

  // A character from U+D800 to U+FFFF swallows the unit after it.
  lemma {:induction false} FewerAfterSurrogate(s: seq<CodePoint>)
    requires s != [] && 0xD800 <= s[0] <= 0xFFFF
    ensures NoLonger(Decode(Encode(s)), |s| - 1)
    decreases |s|, 0
  {
    EncodeFront(s);
    var c := s[0];
    if |s| == 1 {
      assert Encode(s) == [c];
    } else {
      EncodeFront(s[1..]);
      var d, rest := s[1], Encode(s[2..]);
      assert s[1..][1..] == s[2..];
      if d < 0x10000 {
        assert Encode(s) == [c, d] + rest;
        DecodePair(c, d, rest);
        NeverMore(s[2..]);
      } else {
        assert Encode(s) == [c, Lead(d)] + ([Trail(d)] + rest);
        DecodePair(c, Lead(d), [Trail(d)] + rest);
        NeverMoreAfter(Trail(d), s[2..]);
      }
    }
  }

  // A wrapped pair starts with another character.
  lemma WrappedFirst(c: CodePoint, rest: seq<CodeUnit>)
    requires c > 0xA0FFFF
    ensures Decode(EncodeChar(c) + rest).Some? ==> Decode(EncodeChar(c) + rest).value[0] != c
  {
    PairRoundTrip(c);
    DecodePair(Lead(c), Trail(c), rest);
    if Lead(c) < HI_SURROGATE_START {
      DecodeSingle(Lead(c), [Trail(c)] + rest);
    }
  }

  ghost predicate AllSurvive(s: seq<CodePoint>) { forall i :: 0 <= i < |s| ==> Survives(s[i]) }

  // UTF-32 to UTF-16 and back is the identity exactly on the strings of surviving characters.
  lemma {:induction false} RoundTripExactly(s: seq<CodePoint>)
    ensures Decode(Encode(s)) == Some(s) <==> AllSurvive(s)
  {
    if s != [] {
      EncodeFront(s);
      var c, rest := s[0], s[1..];
      assert s == [c] + rest;
      if Survives(c) {
        SurvivorFirst(c, Encode(rest));
        RoundTripExactly(rest);
        if Decode(Encode(rest)).Some? && Decode(Encode(s)) == Some(s) {
          assert ([c] + Decode(Encode(rest)).value)[1..] == Decode(Encode(rest)).value;
        }
        assert AllSurvive(s) <==> AllSurvive(rest) by {
          assert forall i :: 0 <= i < |rest| ==> rest[i] == s[i + 1];
          if AllSurvive(rest) {
            forall i | 0 <= i < |s| ensures Survives(s[i]) { if i > 0 { assert Survives(rest[i - 1]); } }
          }
        }
      } else if c < 0x10000 {
        FewerAfterSurrogate(s);
      } else {
        WrappedFirst(c, Encode(rest));
      }
    }
  }

  // ---------------------------------------------------------------- decoding into a target

  // ReadsPastEnd: the unit after the last one is read.  WritesPastEnd: a code point is written
  // beyond the target.
  datatype Result = Done(length: nat) | ReadsPastEnd | WritesPastEnd

  // The code points that whole units give, up to a unit that lacks its second half.
  function Prefix(units: seq<CodeUnit>): seq<CodePoint> {
    if units == [] then []
    else if units[0] < HI_SURROGATE_START then [units[0]] + Prefix(units[1..])
    else if |units| == 1 then []
    else [Combine(units[0], units[1])] + Prefix(units[2..])
  }

  lemma {:induction false} PrefixDecodes(units: seq<CodeUnit>)
    ensures Decode(units).Some? ==> Prefix(units) == Decode(units).value && |Prefix(units)| == Count(units)
    ensures Decode(units).None? ==> |Prefix(units)| == Count(units) - 1
  {
    if units != [] {
      if units[0] < HI_SURROGATE_START { PrefixDecodes(units[1..]); }
      else if |units| > 1 { PrefixDecodes(units[2..]); }
    }
  }

  // What the loop comes to, from the target position p on.
  function Outcome(units: seq<CodeUnit>, p: nat, targetSize: nat): Result {
    if p + Count(units) >= targetSize + 2 then WritesPastEnd
    else if Decode(units).None? && p + Count(units) <= targetSize then ReadsPastEnd
    else Done(p + Count(units))
  }

  // The code point at the front, and what comes after its units.
  function Front(units: seq<CodeUnit>): seq<CodePoint>
    requires units != []
  {
    if units[0] < HI_SURROGATE_START then [units[0]] else if |units| == 1 then [] else [Combine(units[0], units[1])]
  }

  function After(units: seq<CodeUnit>): seq<CodeUnit>
    requires units != []
  {
    if units[0] < HI_SURROGATE_START then units[1..] else if |units| == 1 then [] else units[2..]
  }

  // The units from begin on; the loop may step past the end.
  function From(units: seq<CodeUnit>, begin: nat): seq<CodeUnit> { if begin <= |units| then units[begin..] else [] }

  // One round of the loop.
  method TakeOne(target: array<CodePoint>, targetSize: nat, p: nat, units: seq<CodeUnit>, begin: nat)
    returns (stopped: Option<Result>, begin': nat)
    requires begin < |units| && targetSize <= target.Length
    modifies target
    ensures stopped ==
      if p > targetSize then Some(WritesPastEnd)
      else if p < targetSize && Front(From(units, begin)) == [] then Some(ReadsPastEnd)
      else None
    ensures begin < begin' && (stopped.None? ==> From(units, begin') == After(From(units, begin)))
    ensures stopped.None? && p < targetSize ==>
      p < target.Length && target[..] == old(target[..])[p := Front(From(units, begin))[0]]
    ensures stopped.None? && p == targetSize ==> target[..] == old(target[..])
  {
    var u := units[begin];
    begin' := begin + 1;
    if p == targetSize {
      if u >= HI_SURROGATE_START { begin' := begin' + 1; }
    } else {
      if p > targetSize { return Some(WritesPastEnd), begin'; }
      if u < HI_SURROGATE_START {
        target[p] := u;
      } else {
        if begin' == |units| { return Some(ReadsPastEnd), begin'; }
        target[p] := Combine(u, units[begin']);
        begin' := begin' + 1;
      }
    }
    stopped := None;
  }

  // The target once these code points have been written, as far as there is room.
  function Partly(first: seq<CodePoint>, taken: seq<CodePoint>, targetSize: nat): seq<CodePoint>
    requires targetSize <= |first|
  {
    taken[..Min(targetSize, |taken|)] + first[Min(targetSize, |taken|)..]
  }

  // The state of the loop: what is left to read, and what has been read and written.
  ghost predicate DecodeTrack(units: seq<CodeUnit>, rest: seq<CodeUnit>, taken: seq<CodePoint>, p: nat, targetSize: nat,
                              first: seq<CodePoint>, now: seq<CodePoint>)
  {
    && Outcome(units, 0, targetSize) == Outcome(rest, p, targetSize) && Prefix(units) == taken + Prefix(rest)
    && (p == |taken| <= targetSize + 1 || (p - 1 == |taken| == targetSize && rest == []))
    && targetSize <= |first| && now == Partly(first, taken, targetSize)
  }

  lemma DecodeTrackNext(units: seq<CodeUnit>, rest: seq<CodeUnit>, taken: seq<CodePoint>, p: nat, targetSize: nat,
                        first: seq<CodePoint>, before: seq<CodePoint>, now: seq<CodePoint>)
    requires DecodeTrack(units, rest, taken, p, targetSize, first, before) && rest != [] && p <= targetSize
    requires p < targetSize ==> Front(rest) != [] && p < |before| && now == before[p := Front(rest)[0]]
    requires p == targetSize ==> now == before
    ensures DecodeTrack(units, After(rest), taken + Front(rest), p + 1, targetSize, first, now)
  {
    RestStep(rest, p, targetSize);
    PartlyNext(first, taken, targetSize, Front(rest));
    assert taken + (Front(rest) + Prefix(After(rest))) == (taken + Front(rest)) + Prefix(After(rest));
  }

  lemma PartlyNext(first: seq<CodePoint>, taken: seq<CodePoint>, targetSize: nat, front: seq<CodePoint>)
    requires targetSize <= |first| && |front| <= 1
    ensures |taken| >= targetSize || front == [] ==>
      Partly(first, taken + front, targetSize) == Partly(first, taken, targetSize)
    ensures |taken| < targetSize && front != [] ==>
      Partly(first, taken + front, targetSize) == Partly(first, taken, targetSize)[|taken| := front[0]]
  {
  }

  lemma RestStep(rest: seq<CodeUnit>, p: nat, targetSize: nat)
    requires rest != [] && p <= targetSize + 1
    ensures Prefix(rest) == Front(rest) + Prefix(After(rest))
    ensures p > targetSize ==> Outcome(rest, p, targetSize) == WritesPastEnd
    ensures p < targetSize && Front(rest) == [] ==> Outcome(rest, p, targetSize) == ReadsPastEnd
    ensures p == targetSize || (p < targetSize && Front(rest) != []) ==>
      Outcome(rest, p, targetSize) == Outcome(After(rest), p + 1, targetSize)
  {
  }

  // One round, which keeps the state or stops with what the loop comes to.
  method TakeNext(target: array<CodePoint>, targetSize: nat, p: nat, units: seq<CodeUnit>, begin: nat,
                  ghost taken: seq<CodePoint>, ghost first: seq<CodePoint>)
    returns (stopped: Option<Result>, begin': nat, ghost taken': seq<CodePoint>)
    requires begin < |units| && targetSize <= target.Length
    requires DecodeTrack(units, From(units, begin), taken, p, targetSize, first, target[..])
    modifies target
    ensures begin < begin'
    ensures stopped.Some? ==> stopped.value == Outcome(units, 0, targetSize) && !stopped.value.Done?
    ensures stopped.None? ==> DecodeTrack(units, From(units, begin'), taken', p + 1, targetSize, first, target[..])
  {
    ghost var rest, before := From(units, begin), target[..];
    stopped, begin' := TakeOne(target, targetSize, p, units, begin);
    taken' := taken + Front(rest);
    RestStep(rest, p, targetSize);
    if stopped.None? {
      DecodeTrackNext(units, rest, taken, p, targetSize, first, before, target[..]);
    }
  }

  lemma DecodeTrackEnd(units: seq<CodeUnit>, taken: seq<CodePoint>, p: nat, targetSize: nat,
                       first: seq<CodePoint>, now: seq<CodePoint>)
    requires DecodeTrack(units, [], taken, p, targetSize, first, now)
    ensures Outcome(units, 0, targetSize) == Done(p) && now == Partly(first, Prefix(units), targetSize)
  {
    assert taken + [] == taken;
  }

  // ConvertUTF16ToUTF32.  The guard against a full target holds for one code point only: with
  // two or more too many, the second is written past the end.
  method DecodeInto(target: array<CodePoint>, targetSize: nat, units: seq<CodeUnit>) returns (r: Result)
    requires targetSize <= target.Length
    modifies target
    ensures r == Outcome(units, 0, targetSize)
    ensures r.Done? ==> target[..] == Partly(old(target[..]), Prefix(units), targetSize)
  {
    var p, begin := 0, 0;
    ghost var first, taken: seq<CodePoint> := target[..], [];
    while begin < |units|
      invariant DecodeTrack(units, From(units, begin), taken, p, targetSize, first, target[..])
      decreases |units| - begin
    {
      var stopped: Option<Result>;
      stopped, begin, taken := TakeNext(target, targetSize, p, units, begin, taken, first);
      if stopped.Some? { return stopped.value; }
      p := p + 1;
    }
    DecodeTrackEnd(units, taken, p, targetSize, first, target[..]);
    r := Done(p);
  }

  // Of units that end with a whole character, a target large enough gets the decoding.
  lemma WholeDecoded(units: seq<CodeUnit>, targetSize: nat, first: seq<CodePoint>)
    requires Decode(units).Some? && |Decode(units).value| <= targetSize <= |first|
    ensures Outcome(units, 0, targetSize) == Done(|Decode(units).value|)
    ensures Decode(units).value <= Partly(first, Prefix(units), targetSize)
  {
    PrefixDecodes(units);
  }

  // Of Unicode strings exactly those without U+D800 to U+FFFF come back: not only lone surrogates
  // but U+E000 to U+FFFF are lost too.
  lemma UnicodeRoundTripExactly(s: seq<CodePoint>)
    requires forall i :: 0 <= i < |s| ==> s[i] <= 0x10FFFF
    ensures Decode(Encode(s)) == Some(s) <==> forall i :: 0 <= i < |s| ==> !(0xD800 <= s[i] <= 0xFFFF)
  {
    RoundTripExactly(s);
    forall i | 0 <= i < |s| ensures Survives(s[i]) <==> !(0xD800 <= s[i] <= 0xFFFF) {}
    if AllSurvive(s) {
      forall i | 0 <= i < |s| ensures !(0xD800 <= s[i] <= 0xFFFF) { assert Survives(s[i]); }
    }
  }

  // Two lone surrogate values come back as one character.
  lemma LostCharacterExample()
    ensures Decode(Encode([0xD800, 0xB400])) == Some([0xD800])
  {
    var s: seq<CodePoint>, units: seq<CodeUnit>, none: seq<CodeUnit> := [0xD800, 0xB400], [0xD800, 0xB400], [];
    assert s[..1][..0] == [] && Encode(s[..1]) == [0xD800];
    assert s[..|s| - 1] == s[..1] && Encode(s) == units;
    DecodePair(0xD800, 0xB400, none);
    assert units + none == units && Decode(none) == Some([]);
    var c := Combine(0xD800, 0xB400);
    assert c == 0xD800 && Prepend(c, Some([])) == Some([c] + []) && [c] + [] == [c];
  }

  // With no room at all, one character is counted and the second written.
  lemma WritesPastEndExample()
    ensures Outcome([0x41], 0, 0) == Done(1) && Outcome([0x41, 0x42], 0, 0) == WritesPastEnd
  {
    assert Count([0x42]) == 1 && [0x41, 0x42][1..] == [0x42];
  }
}
