/**
 The parser's buffered reader (`utf8_buffered_reader`, toml.hpp lines 5483-5575): a ring of 63
 past items that `step_back` replays.  It behaves as a cursor over the stream.
 */
module BufferedReader {
  import opened Basics

  const MAX_HISTORY_LENGTH := 64
  const HISTORY_BUFFER_SIZE := MAX_HISTORY_LENGTH - 1

  // The item a plain cursor sees; None at the end of the stream.
  function ItemAt<T>(stream: seq<T>, cursor: int): Option<T> {
    if 0 <= cursor < |stream| then Some(stream[cursor]) else None
  }

  // ---------------------------------------------------------------- a plain cursor

  datatype Move = Read | Back(k: nat)

  // A cursor over the stream, and the furthest it has been.
  datatype Plain = Plain(cursor: int, reach: int)

  function MoveTo(length: nat, p: Plain, m: Move): Plain {
    match m
    case Read =>
      var cursor := if p.cursor < length then p.cursor + 1 else p.cursor;
      Plain(cursor, Max(p.reach, cursor))
    case Back(k) => p.(cursor := p.cursor - k)
  }

  // The items before the furthest one that can still be replayed.
  function Held(p: Plain): nat {
    if p.reach < 0 then 0 else if p.reach < HISTORY_BUFFER_SIZE then p.reach else HISTORY_BUFFER_SIZE
  }

  // What the source asserts of step_back.
  predicate CanMove(p: Plain, m: Move) { m.Back? ==> Held(p) > 0 && p.reach - p.cursor + m.k <= Held(p) }

  // Back to an item of the stream, and no further than 63 before the furthest one read.
  lemma BackExactly(p: Plain, k: nat)
    ensures CanMove(p, Back(k)) <==> p.reach > 0 && 0 <= p.cursor - k && p.reach - 63 <= p.cursor - k
  {
    assert HISTORY_BUFFER_SIZE == 63;
    if p.reach >= 63 { assert Held(p) == 63; }
  }

  predicate CanFollow(length: nat, p: Plain, moves: seq<Move>)
    decreases |moves|
  {
    moves != [] ==> CanMove(p, moves[0]) && CanFollow(length, MoveTo(length, p, moves[0]), moves[1..])
  }

  // The items the cursor shows on its way.
  function Seen<T>(stream: seq<T>, p: Plain, moves: seq<Move>): seq<Option<T>>
    decreases |moves|
  {
    if moves == [] then []
    else
      var p' := MoveTo(|stream|, p, moves[0]);
      [ItemAt(stream, p'.cursor)] + Seen(stream, p', moves[1..])
  }

  // ---------------------------------------------------------------- the ring

  lemma SlotsDiffer(i: int, j: int)
    requires 0 < j - i < HISTORY_BUFFER_SIZE
    ensures i % HISTORY_BUFFER_SIZE != j % HISTORY_BUFFER_SIZE
  {
    var a, b := i / HISTORY_BUFFER_SIZE, j / HISTORY_BUFFER_SIZE;
    assert i % HISTORY_BUFFER_SIZE == j % HISTORY_BUFFER_SIZE ==> j - i == HISTORY_BUFFER_SIZE * (b - a);
  }

  // Where the item k places before head is kept.
  lemma SlotOf(headAt: int, count: nat, first: nat, k: nat)
    requires 0 < k <= count <= headAt
    requires first == headAt - count
    ensures (first + count - k) % HISTORY_BUFFER_SIZE == (headAt - k) % HISTORY_BUFFER_SIZE
  {
  }

  class Reader<T(0)> {
    const stream: seq<T>          // what the underlying reader will deliver
    var delivered: nat            // how much of it has been delivered
    const buffer: array<T>
    var count: nat
    var first: nat
    var head: Option<T>
    var negativeOffset: nat
    ghost var cursor: int         // -1 before the first read

    // The position of head; -1 before the first read.
    ghost var headAt: int

    ghost predicate Valid()
      reads this, buffer
    {
      && buffer.Length == HISTORY_BUFFER_SIZE
      && -1 <= headAt <= |stream|
      && head == ItemAt(stream, headAt)
      && delivered == (if headAt < |stream| then headAt + 1 else |stream|)
      && count == (if headAt < 0 then 0 else if headAt < HISTORY_BUFFER_SIZE then headAt else HISTORY_BUFFER_SIZE)
      && first == (if headAt < 0 then 0 else headAt - count)
      && (forall i :: headAt - count <= i < headAt ==> buffer[i % HISTORY_BUFFER_SIZE] == stream[i])
      && negativeOffset <= count
      && cursor == headAt - negativeOffset
    }

    constructor (stream: seq<T>)
      ensures Valid() && fresh(buffer) && this.stream == stream && cursor == -1
    {
      this.stream := stream;
      delivered, count, first, negativeOffset := 0, 0, 0, 0;
      head := None;
      buffer := new T[HISTORY_BUFFER_SIZE];
      cursor, headAt := -1, -1;
    }

    // The underlying reader's read_next.
    method Deliver() returns (r: Option<T>)
      modifies this`delivered
      requires delivered <= |stream|
      ensures r == ItemAt(stream, old(delivered))
      ensures delivered == (if old(delivered) < |stream| then old(delivered) + 1 else |stream|)
    {
      if delivered == |stream| {
        return None;
      }
      r := Some(stream[delivered]);
      delivered := delivered + 1;
    }

    /** Moves the cursor one item forward, stopping at the end of the stream. */
    method ReadNext() returns (r: Option<T>)
      requires Valid()
      modifies this, buffer
      ensures Valid()
      ensures cursor == if old(cursor) < |stream| then old(cursor) + 1 else old(cursor)
      ensures r == ItemAt(stream, cursor) && headAt == Max(old(headAt), cursor)
      ensures negativeOffset == if old(negativeOffset) > 0 then old(negativeOffset) - 1 else 0
    {
      if negativeOffset > 0 {
        negativeOffset := negativeOffset - 1;
        cursor := cursor + 1;
        if negativeOffset == 0 {
          return head;
        }
        SlotOf(headAt, count, first, negativeOffset);
        return Some(buffer[(first + count - negativeOffset) % HISTORY_BUFFER_SIZE]);
      }
      if count == 0 && head.None? {
        head := Deliver();
        headAt := if headAt < |stream| then headAt + 1 else headAt;
      } else if head.Some? {
        Remember();
        head := Deliver();
        headAt := headAt + 1;
      }
      cursor := headAt;
      return head;
    }

    // Puts head in the history, over the oldest item once 63 are held.
    method Remember()
      requires Valid() && head.Some? && negativeOffset == 0
      modifies this`count, this`first, buffer
      ensures count == (if headAt + 1 < HISTORY_BUFFER_SIZE then headAt + 1 else HISTORY_BUFFER_SIZE)
      ensures first == headAt + 1 - count
      ensures forall i :: headAt + 1 - count <= i <= headAt ==> buffer[i % HISTORY_BUFFER_SIZE] == stream[i]
    {
      forall i | headAt - HISTORY_BUFFER_SIZE < i < headAt
        ensures i % HISTORY_BUFFER_SIZE != headAt % HISTORY_BUFFER_SIZE
      {
        SlotsDiffer(i, headAt);
      }
      if count < HISTORY_BUFFER_SIZE {
        buffer[count] := head.value;
        count := count + 1;
      } else {
        assert (first + HISTORY_BUFFER_SIZE) % HISTORY_BUFFER_SIZE == headAt % HISTORY_BUFFER_SIZE;
        buffer[(first + HISTORY_BUFFER_SIZE) % HISTORY_BUFFER_SIZE] := head.value;
        first := first + 1;
      }
    }

    /** Moves the cursor back.  The source asserts the two preconditions. */
    method StepBack(k: nat) returns (r: Option<T>)
      requires Valid()
      requires count > 0 && negativeOffset + k <= count
      modifies this
      ensures Valid() && count == old(count) && headAt == old(headAt)
      ensures cursor == old(cursor) - k
      ensures r == ItemAt(stream, cursor)
    {
      negativeOffset := negativeOffset + k;
      cursor := cursor - k;
      if negativeOffset > 0 {
        SlotOf(headAt, count, first, negativeOffset);
        return Some(buffer[(first + count - negativeOffset) % HISTORY_BUFFER_SIZE]);
      }
      return head;
    }

    /** Look-ahead, as the parser uses it: reading k items ahead, the end of the stream included,
        and stepping back over them is allowed for k up to 63, whatever was replayed before, and
        leaves the cursor in place. */
    method Peek(k: nat) returns (seen: seq<Option<T>>)
      requires Valid() && 0 <= cursor && cursor + k <= |stream| && 0 < k < 64
      modifies this, buffer
      ensures Valid() && cursor == old(cursor)
      ensures |seen| == k && forall n :: 0 <= n < k ==> seen[n] == ItemAt(stream, cursor + 1 + n)
    {
      seen := [];
      for n := 0 to k
        invariant Valid() && cursor == old(cursor) + n && |seen| == n
        invariant forall m :: 0 <= m < n ==> seen[m] == ItemAt(stream, old(cursor) + 1 + m)
        invariant negativeOffset == (if old(negativeOffset) > n then old(negativeOffset) - n else 0)
      {
        var r := ReadNext();
        seen := seen + [r];
      }
      var _ := StepBack(k);
    }

    // Where the plain cursor is.
    ghost function Position(): Plain
      reads this
    {
      Plain(cursor, headAt)
    }

    method MakeMove(m: Move) returns (r: Option<T>)
      requires Valid() && CanMove(Position(), m)
      modifies this, buffer
      ensures Valid() && Position() == MoveTo(|stream|, old(Position()), m) && r == ItemAt(stream, cursor)
    {
      if m.Read? {
        r := ReadNext();
      } else {
        r := StepBack(m.k);
      }
    }

    /** Any mix of the two that the source's assertions allow shows what the plain cursor shows. */
    method Follow(moves: seq<Move>) returns (seen: seq<Option<T>>)
      requires Valid() && CanFollow(|stream|, Position(), moves)
      modifies this, buffer
      ensures Valid()
      ensures seen == Seen(stream, old(Position()), moves)
    {
      seen := [];
      ghost var rest := moves;
      for i := 0 to |moves|
        invariant Valid() && rest == moves[i..] && CanFollow(|stream|, Position(), rest)
        invariant seen + Seen(stream, Position(), rest) == Seen(stream, old(Position()), moves)
      {
        var r := MakeMove(moves[i]);
        Regroup(seen, [r], Seen(stream, Position(), rest[1..]));
        seen, rest := seen + [r], rest[1..];
      }
    }
  }

}
