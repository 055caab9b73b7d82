/**
 PStringImpl::strtok (include/xloil/PString.h lines 506-552): a length-counted string is cut
 into tokens in its own buffer, each token's length overwriting the delimiter before it.
 Buffer cells hold characters and lengths alike, so both are numbers here.
 */
module Strtok {
  import opened Basics

  // ReadPastEnd: the search for the token's start reads beyond the string's last character.
  datatype Token = Null | Token(at: nat) | ReadPastEnd

  // ---------------------------------------------------------------- tokens of a string

  predicate IsDelim(c: nat, delims: seq<nat>) { c in delims }

  // s[i..j] is a maximal run without delimiters.
  ghost predicate IsToken(s: seq<nat>, delims: seq<nat>, i: nat, j: nat) {
    && i < j <= |s|
    && (forall k :: i <= k < j ==> !IsDelim(s[k], delims))
    && (i == 0 || IsDelim(s[i - 1], delims))
    && (j == |s| || IsDelim(s[j], delims))
  }

  ghost predicate AllDelims(s: seq<nat>, delims: seq<nat>) { forall k :: 0 <= k < |s| ==> IsDelim(s[k], delims) }

  // s[i..j] is the first of them.
  ghost predicate IsFirst(s: seq<nat>, delims: seq<nat>, i: nat, j: nat) {
    IsToken(s, delims, i, j) && AllDelims(s[..i], delims)
  }

  // The string after the delimiter that ends the first token, as it stands in the buffer.
  ghost predicate Splits(s: seq<nat>, delims: seq<nat>, i: nat, j: nat, rest: Option<seq<nat>>) {
    && IsFirst(s, delims, i, j)
    && rest == if j < |s| then Some(s[j + 1..]) else None
  }

  // What one call did to the buffer: it wrote the token's length before it, and, unless
  // nothing is left, the length of what is left over the delimiter after it.
  ghost predicate CutAt(before: seq<nat>, after: seq<nat>, slot: nat, length: nat, next: Option<nat>) {
    && |after| == |before| && slot < |after| && after[slot] == length
    && forall k :: 0 <= k < |before| && k != slot && next != Some(k) ==> after[k] == before[k]
  }

  // What one call of strtok did: buffer, string and place before and after.
  ghost predicate Called(before: seq<nat>, after: seq<nat>, left: Option<seq<nat>>, left': Option<seq<nat>>,
                         at: Option<nat>, at': Option<nat>, delims: seq<nat>, r: Token, i: nat, j: nat)
  {
    if r.Token? then
      && left.Some? && at.Some? && r.at == at.value + i
      && Splits(left.value, delims, i, j, left') && at' == (if left'.Some? then Some(at.value + 1 + j) else None)
      && CutAt(before, after, r.at, j - i, at')
    else
      && after == before && left' == left && at' == at
      && (left.Some? ==> AllDelims(left.value, delims)) && (r.ReadPastEnd? <==> left == Some([]))
  }

  // ---------------------------------------------------------------- the string in its buffer

  class PStringRef {
    const buf: array<nat>
    var data: Option<nat>   // where the length slot is, or null

    ghost predicate Valid()
      reads this, buf
    {
      data.Some? ==> data.value < buf.Length && data.value + 1 + buf[data.value] <= buf.Length
    }

    ghost function View(): seq<nat>
      requires Valid() && data.Some?
      reads this, buf
    {
      buf[data.value + 1..data.value + 1 + buf[data.value]]
    }

    // The string, or null.
    ghost function Left(): Option<seq<nat>>
      requires Valid()
      reads this, buf
    {
      if data.Some? then Some(View()) else None
    }

    constructor (buf: array<nat>)
      requires buf.Length > 0 && buf[0] < buf.Length
      ensures Valid() && this.buf == buf && data == Some(0)
    {
      this.buf, data := buf, Some(0);
    }

    // The two searches: the first character that is no delimiter, and the first that is one.
    method FindTokenStart(delims: seq<nat>) returns (p: nat)
      requires Valid() && data.Some? && View() != []
      ensures data.value + 1 <= p <= data.value + 1 + |View()|
      ensures AllDelims(View()[..p - data.value - 1], delims)
      ensures p < data.value + 1 + |View()| ==> !IsDelim(View()[p - data.value - 1], delims)
      ensures p == data.value + 1 + |View()| ==> AllDelims(View(), delims)
    {
      p := data.value + 1;
      var end := p + buf[data.value];
      while IsDelim(buf[p], delims)
        invariant data.value + 1 <= p < end
        invariant AllDelims(View()[..p - data.value - 1], delims)
        decreases end - p
      {
        assert View()[..p + 1 - data.value - 1] == View()[..p - data.value - 1] + [buf[p]];
        p := p + 1;
        if p == end {
          assert View()[..|View()|] == View();
          return;
        }
      }
    }

    method FindTokenEnd(delims: seq<nat>, token: nat) returns (p: nat)
      requires Valid() && data.Some?
      requires data.value < token < data.value + 1 + |View()| && !IsDelim(View()[token - data.value - 1], delims)
      ensures token < p <= data.value + 1 + |View()|
      ensures forall k :: token - data.value - 1 <= k < p - data.value - 1 ==> !IsDelim(View()[k], delims)
      ensures p < data.value + 1 + |View()| ==> IsDelim(View()[p - data.value - 1], delims)
    {
      p := token;
      var end := data.value + 1 + buf[data.value];
      while p < end && !IsDelim(buf[p], delims)
        invariant token <= p <= end
        invariant forall k :: token <= k < p ==> !IsDelim(buf[k], delims)
      {
        p := p + 1;
      }
    }

    // The first token, from token to p.
    method FindToken(delims: seq<nat>) returns (found: bool, token: nat, p: nat)
      requires Valid() && data.Some? && View() != []
      ensures found <==> !AllDelims(View(), delims)
      ensures found ==> data.value < token < p <= data.value + 1 + |View()|
      ensures found ==> IsFirst(View(), delims, token - data.value - 1, p - data.value - 1)
    {
      token := FindTokenStart(delims);
      found := token < data.value + 1 + buf[data.value];
      p := token;
      if found {
        p := FindTokenEnd(delims, token);
        TokenHere(View(), delims, token - data.value - 1, p - data.value - 1);
      }
    }

    // The overwriting of the two length slots, for a token from token to p.
    method Cut(token: nat, p: nat)
      requires Valid() && data.Some?
      requires data.value < token < p <= data.value + 1 + |View()|
      modifies this, buf
      ensures Valid()
      ensures data == if p < old(data.value + 1 + |View()|) then Some(p) else None
      ensures data.Some? ==> View() == old(View())[p - old(data).value..]
      ensures CutAt(old(buf[..]), buf[..], token - 1, p - token, data)
    {
      var end := data.value + 1 + buf[data.value];
      buf[token - 1] := p - token;
      if p < end {
        buf[p] := end - p - 1;
        data := Some(p);
      } else {
        data := None;
      }
    }

    // One call.  i and j are the token's place in the string, when there is one.  An empty
    // string has no first character to look at.
    method Next(delims: seq<nat>) returns (r: Token, ghost i: nat, ghost j: nat)
      requires Valid()
      modifies this, buf
      ensures Valid() && Called(old(buf[..]), buf[..], old(Left()), Left(), old(data), data, delims, r, i, j)
      ensures r.Token? <==> old(data.Some? && !AllDelims(View(), delims))
    {
      i, j := 0, 0;
      if data.None? { return Null, i, j; }
      if buf[data.value] == 0 { return ReadPastEnd, i, j; }
      var found, token, p := FindToken(delims);
      if !found { return Null, i, j; }
      i, j := token - data.value - 1, p - data.value - 1;
      Cut(token, p);
      r := Token(token - 1);
    }
  }

  lemma TokenHere(s: seq<nat>, delims: seq<nat>, i: nat, j: nat)
    requires i < j <= |s| && AllDelims(s[..i], delims)
    requires forall k :: i <= k < j ==> !IsDelim(s[k], delims)
    requires j < |s| ==> IsDelim(s[j], delims)
    ensures IsFirst(s, delims, i, j) && !AllDelims(s, delims)
  {
    assert !IsDelim(s[i], delims);
    if i > 0 { assert IsDelim(s[..i][i - 1], delims); }
  }

  // ---------------------------------------------------------------- repeated calls

  // The tokens found so far in s: the place of each, in order.
  datatype Place = Place(start: nat, end: nat)

  predicate Before(places: seq<Place>, o: nat) { forall t :: 0 <= t < |places| ==> places[t].end < o }

  predicate InOrder(places: seq<Place>) { forall t, u :: 0 <= t < u < |places| ==> places[t].end < places[u].start }

  // The places are exactly the tokens of s that start before o.
  ghost predicate TokensBefore(s: seq<nat>, delims: seq<nat>, places: seq<Place>, o: nat) {
    && InOrder(places)
    && forall i: nat, j: nat :: Place(i, j) in places <==> IsToken(s, delims, i, j) && i < o
  }

  // The places are exactly the tokens of s, in order.
  ghost predicate ExactTokens(s: seq<nat>, delims: seq<nat>, places: seq<Place>) {
    InOrder(places) && forall i: nat, j: nat :: Place(i, j) in places <==> IsToken(s, delims, i, j)
  }

  // The slots are those of the places.
  predicate SlotsOf(tokens: seq<nat>, base: nat, places: seq<Place>) {
    |tokens| == |places| && forall t :: 0 <= t < |tokens| ==> tokens[t] == base + places[t].start
  }

  // The string ends in one delimiter after something else, or is empty.
  predicate EndsBadly(s: seq<nat>, delims: seq<nat>) {
    s == [] || (|s| >= 2 && IsDelim(s[|s| - 1], delims) && !IsDelim(s[|s| - 2], delims))
  }

  // A suffix that starts the string or follows a delimiter has the string's own tokens.
  lemma SuffixTokens(s: seq<nat>, delims: seq<nat>, o: nat, i: nat, j: nat)
    requires o <= |s| && (o == 0 || IsDelim(s[o - 1], delims))
    ensures IsToken(s[o..], delims, i, j) <==> IsToken(s, delims, o + i, o + j)
  {
    if i < j <= |s| - o {
      assert forall k :: 0 <= k < |s| - o ==> s[o..][k] == s[o + k];
      if forall k :: i <= k < j ==> !IsDelim(s[o..][k], delims) {
        forall k | o + i <= k < o + j ensures !IsDelim(s[k], delims) { assert s[o..][k - o] == s[k]; }
      }
      if forall k :: o + i <= k < o + j ==> !IsDelim(s[k], delims) {
        forall k | i <= k < j ensures !IsDelim(s[o..][k], delims) { assert s[o..][k] == s[o + k]; }
      }
    }
  }

  // After the first token of the suffix at o, which ends at e, the tokens before e + 1 are known.
  lemma OneMore(s: seq<nat>, delims: seq<nat>, places: seq<Place>, o: nat, i: nat, j: nat)
    requires o <= |s| && (o == 0 || IsDelim(s[o - 1], delims))
    requires TokensBefore(s, delims, places, o) && Before(places, o) && IsFirst(s[o..], delims, i, j)
    ensures TokensBefore(s, delims, places + [Place(o + i, o + j)], o + j + 1)
    ensures Before(places + [Place(o + i, o + j)], o + j + 1)
  {
    SuffixTokens(s, delims, o, i, j);
    forall a: nat, b: nat | IsToken(s, delims, a, b) && o <= a < o + j + 1 ensures a == o + i && b == o + j {
      SameToken(s, delims, o, i, j, a, b);
    }
    assert forall p :: p in places + [Place(o + i, o + j)] <==> p in places || p == Place(o + i, o + j);
  }

  lemma SameToken(s: seq<nat>, delims: seq<nat>, o: nat, i: nat, j: nat, a: nat, b: nat)
    requires o <= |s| && IsFirst(s[o..], delims, i, j) && IsToken(s, delims, o + i, o + j)
    requires IsToken(s, delims, a, b) && o <= a < o + j + 1
    ensures a == o + i && b == o + j
  {
    forall k | o <= k < o + i ensures IsDelim(s[k], delims) { assert s[o..][..i][k - o] == s[k]; }
    assert !IsDelim(s[a], delims) && !IsDelim(s[b - 1], delims);
  }

  // With only delimiters left, or nothing, all tokens are known.
  lemma NoMore(s: seq<nat>, delims: seq<nat>, places: seq<Place>, o: nat)
    requires o <= |s| && AllDelims(s[o..], delims) && TokensBefore(s, delims, places, o)
    ensures TokensBefore(s, delims, places, |s|)
  {
    forall k | o <= k < |s| ensures IsDelim(s[k], delims) { assert s[o..][k - o] == s[k]; }
    forall i: nat, j: nat | IsToken(s, delims, i, j) ensures i < o { assert !IsDelim(s[i], delims); }
  }

  // ---------------------------------------------------------------- a whole string

  // Every token found has its length in the slot before it, and its characters as they were.
  ghost predicate Stored(buf: seq<nat>, base: nat, s: seq<nat>, places: seq<Place>) {
    base + 1 + |s| <= |buf| && forall p :: p in places ==>
      && p.start <= p.end <= |s|
      && buf[base + p.start] == p.end - p.start
      && buf[base + 1 + p.start..base + 1 + p.end] == s[p.start..p.end]
  }

  // A change at or after the end of every place found leaves what is stored there.
  lemma StoredKept(buf: seq<nat>, buf': seq<nat>, base: nat, s: seq<nat>, places: seq<Place>, o: nat)
    requires Stored(buf, base, s, places) && Before(places, o) && |buf'| == |buf|
    requires forall k :: 0 <= k < base + o && k < |buf| ==> buf'[k] == buf[k]
    ensures Stored(buf', base, s, places)
  {
    forall p | p in places
      ensures p.start <= p.end <= |s| && buf'[base + p.start] == p.end - p.start
        && buf'[base + 1 + p.start..base + 1 + p.end] == s[p.start..p.end]
    {
      var t :| 0 <= t < |places| && places[t] == p;
      assert p.end < o;
      assert buf'[base + 1 + p.start..base + 1 + p.end] == buf[base + 1 + p.start..base + 1 + p.end];
    }
  }

  // Where the string stands in the course of the calls: what is left of s starts at o, right
  // after the delimiter of the latest token, or nothing is left.
  ghost predicate AtSuffix(s: seq<nat>, delims: seq<nat>, left: Option<seq<nat>>, o: nat) {
    match left
    case Some(rest) => o <= |s| && rest == s[o..]
      && (o == 0 || (o >= 2 && IsDelim(s[o - 1], delims) && !IsDelim(s[o - 2], delims)))
    case None => o == |s| + 1 && s != [] && !IsDelim(s[|s| - 1], delims)
  }

  lemma SuffixMoves(s: seq<nat>, delims: seq<nat>, o: nat, i: nat, j: nat, rest: Option<seq<nat>>)
    requires o <= |s| && AtSuffix(s, delims, Some(s[o..]), o) && Splits(s[o..], delims, i, j, rest)
    ensures AtSuffix(s, delims, rest, o + j + 1)
  {
    SuffixTokens(s, delims, o, i, j);
    assert !IsDelim(s[o + j - 1], delims);
    if rest.Some? { assert s[o..][j + 1..] == s[o + j + 1..]; }
  }

  // The last call reads past the end, or finds nothing, according to how the string ends.
  lemma LastCall(s: seq<nat>, delims: seq<nat>, left: Option<seq<nat>>, o: nat)
    requires AtSuffix(s, delims, left, o)
    requires left.Some? ==> AllDelims(left.value, delims)
    ensures left == Some([]) <==> EndsBadly(s, delims)
  {
    if left.Some? && left.value != [] {
      forall k | o <= k < |s| ensures IsDelim(s[k], delims) { assert s[o..][k - o] == s[k]; }
    }
  }

  // Only slots were written: cells outside the string and characters that are no delimiters
  // are as they were.
  ghost predicate OnlySlots(buf: seq<nat>, buf': seq<nat>, base: nat, s: seq<nat>, delims: seq<nat>) {
    && |buf'| == |buf| && base + 1 + |s| <= |buf|
    && (forall k :: 0 <= k < |buf| && !(base <= k <= base + |s|) ==> buf'[k] == buf[k])
    && (forall k :: 0 <= k < |s| && !IsDelim(s[k], delims) ==> buf'[base + 1 + k] == s[k])
  }

  lemma NewStored(buf: seq<nat>, base: nat, s: seq<nat>, places: seq<Place>, p: Place)
    requires Stored(buf, base, s, places) && p.start <= p.end <= |s|
    requires buf[base + p.start] == p.end - p.start
    requires buf[base + 1 + p.start..base + 1 + p.end] == s[p.start..p.end]
    ensures Stored(buf, base, s, places + [p])
  {
    assert forall q :: q in places + [p] <==> q in places || q == p;
  }

  // How far the calls have come.
  ghost predicate Progress(first: seq<nat>, buf: seq<nat>, base: nat, s: seq<nat>, delims: seq<nat>, places: seq<Place>,
                           left: Option<seq<nat>>, o: nat)
  {
    && AtSuffix(s, delims, left, o)
    && TokensBefore(s, delims, places, o) && Before(places, o)
    && OnlySlots(first, buf, base, s, delims)
    && Stored(buf, base, s, places)
  }

  lemma CutOnlySlots(first: seq<nat>, before: seq<nat>, after: seq<nat>, base: nat, s: seq<nat>, delims: seq<nat>,
                     o: nat, i: nat, j: nat, rest: Option<seq<nat>>)
    requires OnlySlots(first, before, base, s, delims)
    requires o <= |s| && (o == 0 || IsDelim(s[o - 1], delims)) && Splits(s[o..], delims, i, j, rest)
    requires CutAt(before, after, base + o + i, j - i, if rest.Some? then Some(base + o + j + 1) else None)
    ensures OnlySlots(first, after, base, s, delims)
    ensures after[base + 1 + o + i..base + 1 + o + j] == s[o + i..o + j]
  {
    SuffixTokens(s, delims, o, i, j);
    assert forall k :: 0 <= k < |s| && !IsDelim(s[k], delims) ==> after[base + 1 + k] == s[k];
    forall k | o + i <= k < o + j ensures after[base + 1 + k] == s[k] { assert !IsDelim(s[k], delims); }
    SameRange(after, base + 1, s, o + i, o + j);
  }

  lemma SameRange(a: seq<nat>, from: nat, s: seq<nat>, i: nat, j: nat)
    requires i <= j <= |s| && from + j <= |a| && forall k :: i <= k < j ==> a[from + k] == s[k]
    ensures a[from + i..from + j] == s[i..j]
  {
    forall k | 0 <= k < j - i ensures a[from + i..from + j][k] == s[i..j][k] {
      assert a[from + (i + k)] == s[i + k];
    }
  }

  lemma OneCall(first: seq<nat>, before: seq<nat>, after: seq<nat>, base: nat, s: seq<nat>, delims: seq<nat>,
                places: seq<Place>, o: nat, i: nat, j: nat, rest: Option<seq<nat>>)
    requires o <= |s| && Progress(first, before, base, s, delims, places, Some(s[o..]), o)
    requires Splits(s[o..], delims, i, j, rest)
    requires CutAt(before, after, base + o + i, j - i, if rest.Some? then Some(base + o + j + 1) else None)
    ensures Progress(first, after, base, s, delims, places + [Place(o + i, o + j)], rest, o + j + 1)
  {
    OneMore(s, delims, places, o, i, j);
    SuffixMoves(s, delims, o, i, j, rest);
    CutOnlySlots(first, before, after, base, s, delims, o, i, j, rest);
    StoredKept(before, after, base, s, places, o);
    NewStored(after, base, s, places, Place(o + i, o + j));
  }

  // The call that finds nothing.
  lemma EndCall(first: seq<nat>, buf: seq<nat>, base: nat, s: seq<nat>, delims: seq<nat>, places: seq<Place>,
                left: Option<seq<nat>>, o: nat)
    requires Progress(first, buf, base, s, delims, places, left, o)
    requires left.Some? ==> AllDelims(left.value, delims)
    ensures ExactTokens(s, delims, places)
    ensures left == Some([]) <==> EndsBadly(s, delims)
  {
    LastCall(s, delims, left, o);
    if left.Some? { NoMore(s, delims, places, o); }
  }

  // Whether the string, if there is one left, is in the buffer after so many characters.
  predicate Here(at: Option<nat>, base: nat, o: nat) { at.Some? ==> at.value == base + o }

  // The call that finds a token.
  lemma TokenCall(first: seq<nat>, before: seq<nat>, after: seq<nat>, base: nat, s: seq<nat>, delims: seq<nat>,
                  places: seq<Place>, left: Option<seq<nat>>, left': Option<seq<nat>>, o: nat,
                  at: Option<nat>, at': Option<nat>, r: Token, i: nat, j: nat)
    requires Progress(first, before, base, s, delims, places, left, o) && Here(at, base, o)
    requires Called(before, after, left, left', at, at', delims, r, i, j) && r.Token?
    ensures Progress(first, after, base, s, delims, places + [Place(o + i, o + j)], left', o + j + 1)
    ensures Here(at', base, o + j + 1) && o + j + 1 <= |s| + 1
  {
    OneCall(first, before, after, base, s, delims, places, o, i, j, left');
  }

  // One call, and the token it adds to those found.
  method FindOne(str: PStringRef, delims: seq<nat>, ghost first: seq<nat>, ghost base: nat, ghost s: seq<nat>,
                 ghost places: seq<Place>, ghost o: nat)
    returns (r: Token, ghost place: Place)
    requires str.Valid() && Here(str.data, base, o)
    requires Progress(first, str.buf[..], base, s, delims, places, str.Left(), o)
    modifies str, str.buf
    ensures str.Valid() && Here(str.data, base, if r.Token? then place.end + 1 else o)
    ensures r.Token? ==>
      && Progress(first, str.buf[..], base, s, delims, places + [place], str.Left(), place.end + 1)
      && old(str.data).Some? && o < place.end + 1 <= |s| + 1 && r.at == base + place.start
    ensures !r.Token? ==>
      && str.buf[..] == old(str.buf[..]) && str.Left() == old(str.Left())
      && (str.data.Some? ==> AllDelims(str.View(), delims)) && (r.ReadPastEnd? <==> str.Left() == Some([]))
  {
    ghost var before, left, at := str.buf[..], str.Left(), str.data;
    ghost var i: nat, j: nat;
    r, i, j := str.Next(delims);
    place := Place(o + i, o + j);
    if r.Token? {
      TokenCall(first, before, str.buf[..], base, s, delims, places, left, str.Left(), o, at, str.data, r, i, j);
    }
  }

  // The same, or the news that all tokens have been found.
  method FindOneOrEnd(str: PStringRef, delims: seq<nat>, ghost first: seq<nat>, ghost base: nat, ghost s: seq<nat>,
                      ghost places: seq<Place>, ghost o: nat)
    returns (r: Token, ghost places': seq<Place>, ghost o': nat)
    requires str.Valid() && Here(str.data, base, o)
    requires Progress(first, str.buf[..], base, s, delims, places, str.Left(), o)
    modifies str, str.buf
    ensures str.Valid() && Here(str.data, base, o')
    ensures Progress(first, str.buf[..], base, s, delims, places', str.Left(), o')
    ensures r.Token? ==>
      |places'| == |places| + 1 && places'[..|places|] == places && r.at == base + places'[|places|].start
    ensures r.Token? ==> old(str.data).Some? && o < o' <= |s| + 1
    ensures !r.Token? ==>
      places' == places && ExactTokens(s, delims, places) && (r.ReadPastEnd? <==> EndsBadly(s, delims))
  {
    ghost var place: Place;
    r, place := FindOne(str, delims, first, base, s, places, o);
    if r.Token? {
      places', o' := places + [place], place.end + 1;
    } else {
      places', o' := places, o;
      EndCall(first, str.buf[..], base, s, delims, places, str.Left(), o);
    }
  }

  // strtok called until it returns null.  The tokens are exactly the maximal delimiter-free
  // runs, in order; and the calls end in a read past the end exactly if the string is empty or
  // ends in a single delimiter.
  method Tokenize(str: PStringRef, delims: seq<nat>) returns (tokens: seq<nat>, last: Token, ghost places: seq<Place>)
    requires str.Valid() && str.data.Some?
    modifies str, str.buf
    ensures !last.Token? && (last.ReadPastEnd? <==> EndsBadly(old(str.View()), delims))
    ensures ExactTokens(old(str.View()), delims, places)
    ensures SlotsOf(tokens, old(str.data.value), places)
    ensures Stored(str.buf[..], old(str.data.value), old(str.View()), places)
    ensures OnlySlots(old(str.buf[..]), str.buf[..], old(str.data.value), old(str.View()), delims)
  {
    ghost var s, base: nat, o: nat, first := str.View(), str.data.value, 0, str.buf[..];
    tokens, places := [], [];
    assert s == s[0..];
    while true
      invariant str.Valid() && Here(str.data, base, o)
      invariant Progress(first, str.buf[..], base, s, delims, places, str.Left(), o)
      invariant SlotsOf(tokens, base, places)
      decreases if str.data.Some? then |s| + 1 - o else 0
    {
      last, places, o := FindOneOrEnd(str, delims, first, base, s, places, o);
      if !last.Token? { break; }
      tokens := tokens + [last.at];
    }
  }

  // "a," with delimiter "," is one token and then a read past the end.
  lemma TrailingDelimiterExample()
    ensures IsToken([97, 44], [44], 0, 1) && EndsBadly([97, 44], [44])
    ensures !EndsBadly([97, 44, 44], [44]) && !EndsBadly([97, 44, 98], [44])
  {
  }
}
