/**
 The cache against the plain history of what was done to it: when the reference that an add
 returned still fetches what was added.
 */
module ObjectCacheHistory {
  import opened Basics
  import opened ObjectCache

  datatype Op = AddOp(cell: string, obj: nat) | CalculateOp | EraseOp(key: string) | CloseOp(book: string)

  function Apply(c: Cache, op: Op): Cache {
    match op
    case AddOp(cell, obj) => Add(c, cell, obj)
    case CalculateOp => AfterCalculate(c)
    case EraseOp(key) => Erase(c, key)
    case CloseOp(book) => CloseWorkbook(c, book)
  }

  function After(ops: seq<Op>): Cache {
    if ops == [] then Empty else Apply(After(ops[..|ops| - 1]), ops[|ops| - 1])
  }

  // The calculation cycles that have ended.
  function Cycles(ops: seq<Op>): nat {
    if ops == [] then 0 else Cycles(ops[..|ops| - 1]) + if ops[|ops| - 1].CalculateOp? then 1 else 0
  }

  predicate IsAdd(ops: seq<Op>, n: nat) { n < |ops| && ops[n].AddOp? }

  // The reference that the add returned, and the position it stands for.
  function Issued(ops: seq<Op>, n: nat): string
    requires IsAdd(ops, n)
  {
    Reference(ops[n].cell, Index(ops, n))
  }

  function Index(ops: seq<Op>, n: nat): nat
    requires IsAdd(ops, n)
  {
    NextIndex(After(ops[..n]), ops[n].cell)
  }

  // The cycle counter is a size_t, so cycles 2^64 apart look the same.
  predicate SameCycle(ops: seq<Op>, n: nat, m: nat)
    requires n <= |ops| && m <= |ops|
  {
    Cycles(ops[..n]) % WRAP == Cycles(ops[..m]) % WRAP
  }

  // Step m puts an end to the object of add n: it adds to the same cell in another cycle,
  // erases the cell, or closes a workbook that matches it.
  predicate Ends(ops: seq<Op>, n: nat, m: nat)
    requires IsAdd(ops, n) && m < |ops|
  {
    match ops[m]
    case AddOp(cell, _) => cell == ops[n].cell && !SameCycle(ops, n, m)
    case CalculateOp => false
    case EraseOp(key) => ErasedKey(key) == CacheKey(ops[n].cell)
    case CloseOp(book) => Matches(book, CacheKey(ops[n].cell))
  }

  ghost predicate Alive(ops: seq<Op>, n: nat)
    requires IsAdd(ops, n)
  {
    forall m :: n < m < |ops| ==> !Ends(ops, n, m)
  }

  // ---------------------------------------------------------------- the cycle counter

  lemma {:induction false} CalcIdCounts(ops: seq<Op>)
    ensures After(ops).calcId == (1 + Cycles(ops)) % 0x1_0000_0000_0000_0000
  {
    if ops != [] {
      CalcIdCounts(ops[..|ops| - 1]);
    }
  }

  lemma SameCycleIsSameId(ops: seq<Op>, n: nat, m: nat)
    requires n <= |ops| && m <= |ops|
    ensures SameCycle(ops, n, m) <==> After(ops[..n]).calcId == After(ops[..m]).calcId
  {
    CalcIdCounts(ops[..n]);
    CalcIdCounts(ops[..m]);
    SameAfterOne(Cycles(ops[..n]), Cycles(ops[..m]));
  }

  lemma SameAfterOne(a: nat, b: nat)
    ensures (1 + a) % WRAP == (1 + b) % WRAP <==> a % WRAP == b % WRAP
  {
  }

  // ---------------------------------------------------------------- shorter histories

  lemma EndsPrefix(ops: seq<Op>, k: nat, n: nat, m: nat)
    requires k <= |ops| && n < k && m < k && IsAdd(ops, n)
    ensures Ends(ops[..k], n, m) == Ends(ops, n, m)
  {
    assert ops[..k][..n] == ops[..n] && ops[..k][..m] == ops[..m];
  }

  lemma AlivePrefix(ops: seq<Op>, n: nat)
    requires IsAdd(ops, n) && n < |ops| - 1
    ensures Alive(ops, n) <==> Alive(ops[..|ops| - 1], n) && !Ends(ops, n, |ops| - 1)
  {
    var before := ops[..|ops| - 1];
    forall m: nat | n < m < |before| ensures Ends(before, n, m) == Ends(ops, n, m) { EndsPrefix(ops, |ops| - 1, n, m); }
    if Alive(before, n) && !Ends(ops, n, |ops| - 1) {
      forall m: nat | n < m < |ops| ensures !Ends(ops, n, m) {
        if m < |ops| - 1 { assert !Ends(before, n, m); }
      }
    }
    if Alive(ops, n) {
      forall m: nat | n < m < |before| ensures !Ends(before, n, m) { assert !Ends(ops, n, m); }
    }
  }

  // ---------------------------------------------------------------- what is held

  // The object of add n is held, at its position, by a cell of its cycle.
  ghost predicate HeldAt(c: Cache, cell: string, calcId: nat, index: nat, obj: nat) {
    && CacheKey(cell) in c.cells
    && c.cells[CacheKey(cell)].calcId == calcId
    && index < |c.cells[CacheKey(cell)].held|
    && c.cells[CacheKey(cell)].held[index] == obj
  }

  lemma {:induction false} AliveIsHeld(ops: seq<Op>, n: nat)
    requires IsAdd(ops, n) && Alive(ops, n)
    ensures HeldAt(After(ops), ops[n].cell, After(ops[..n]).calcId, Index(ops, n), ops[n].obj)
    decreases |ops|
  {
    var last := |ops| - 1;
    var before := ops[..last];
    if n == last {
      assert After(ops) == Add(After(before), ops[n].cell, ops[n].obj);
    } else {
      AlivePrefix(ops, n);
      assert before[..n] == ops[..n];
      AliveIsHeld(before, n);
      assert !Ends(ops, n, last);
      SameCycleIsSameId(ops, n, last);
      StillHeld(After(before), ops[last], ops[n].cell, After(ops[..n]).calcId, Index(ops, n), ops[n].obj);
    }
  }

  lemma StillHeld(c: Cache, op: Op, cell: string, calcId: nat, index: nat, obj: nat)
    requires HeldAt(c, cell, calcId, index, obj)
    requires op.AddOp? && op.cell == cell ==> c.calcId == calcId
    requires op.EraseOp? ==> ErasedKey(op.key) != CacheKey(cell)
    requires op.CloseOp? ==> !Matches(op.book, CacheKey(cell))
    ensures HeldAt(Apply(c, op), cell, calcId, index, obj)
  {
    assert op.AddOp? && op.cell != cell ==> CacheKey(op.cell) != CacheKey(cell) by {
      assert CacheKey(cell)[1..] == cell;
      assert op.AddOp? ==> CacheKey(op.cell)[1..] == op.cell;
    }
  }

  // The add that put obj into the cell is alive.
  ghost predicate FromAliveAdd(ops: seq<Op>, key: string, calcId: nat, obj: nat) {
    exists n: nat :: IsAdd(ops, n) && CacheKey(ops[n].cell) == key && ops[n].obj == obj && Alive(ops, n)
      && After(ops[..n]).calcId == calcId
  }

  // Whatever a cell holds was added to it, in the cycle that the cell is stamped with, and
  // not ended since.
  lemma {:induction false} HeldIsAlive(ops: seq<Op>, key: string, obj: nat)
    requires key in After(ops).cells && obj in After(ops).cells[key].held
    ensures FromAliveAdd(ops, key, After(ops).cells[key].calcId, obj)
    decreases |ops|
  {
    var last := |ops| - 1;
    var before := ops[..last];
    var c := After(before);
    var kept := ops[last].AddOp? && CacheKey(ops[last].cell) == key
      && (key !in c.cells || c.cells[key].calcId != c.calcId || obj !in c.cells[key].held);
    if kept {
      assert After(ops) == Add(c, ops[last].cell, ops[last].obj);
      assert obj == ops[last].obj;
      assert IsAdd(ops, last) && Alive(ops, last);
    } else {
      assert key in c.cells && obj in c.cells[key].held && After(ops).cells[key].calcId == c.cells[key].calcId;
      HeldIsAlive(before, key, obj);
      var n: nat :| IsAdd(before, n) && CacheKey(before[n].cell) == key && before[n].obj == obj && Alive(before, n)
        && After(before[..n]).calcId == c.cells[key].calcId;
      assert before[..n] == ops[..n];
      SameCycleIsSameId(ops, n, last);
      assert !Ends(ops, n, last);
      AlivePrefix(ops, n);
      assert IsAdd(ops, n);
    }
  }

  // ---------------------------------------------------------------- references

  lemma FetchIssued(c: Cache, cell: string, index: nat)
    ensures Fetch(c, Reference(cell, index)) ==
      if CacheKey(cell) in c.cells then FetchFromCell(c.cells[CacheKey(cell)], index % 256) else None
  {
    var key := Reference(cell, index);
    assert key[..|key| - PADDING] == CacheKey(cell);
    assert key[|key| - 1] == (65 + index % 256) as char;
  }

  // What a reference looks like: one character, the cell, a comma and a letter for the position.
  lemma IssuedSpelled(ops: seq<Op>, n: nat)
    requires IsAdd(ops, n)
    ensures var r, cell := Issued(ops, n), ops[n].cell;
      && |r| == |cell| + 3
      && r[0] == 0xC38 as char && r[1..|cell| + 1] == cell && r[|cell| + 1] == ','
      && r[|cell| + 2] as int == 'A' as int + Index(ops, n) % 256
  {
  }

  // Every add adds an object of its own.
  ghost predicate DistinctObjects(ops: seq<Op>) {
    forall n: nat, m: nat :: IsAdd(ops, n) && IsAdd(ops, m) && ops[n].obj == ops[m].obj ==> n == m
  }

  lemma HeldFetches(c: Cache, cell: string, calcId: nat, index: nat, obj: nat)
    requires HeldAt(c, cell, calcId, index, obj)
    ensures Fetch(c, Reference(cell, index)) == Some(c.cells[CacheKey(cell)].held[index % 256])
  {
    FetchIssued(c, cell, index);
    assert index % 256 <= index;
  }

  // The position read back is the right one only below 256.
  lemma WrappedPosition(ops: seq<Op>, key: string, index: nat)
    requires DistinctObjects(ops) && key in After(ops).cells && index < |After(ops).cells[key].held|
    ensures index % 256 <= index
    ensures After(ops).cells[key].held[index % 256] == After(ops).cells[key].held[index] <==> index < 256
  {
    if index >= 256 { HeldOnce(ops, key, index % 256, index); }
  }

  lemma AliveFetches(ops: seq<Op>, n: nat)
    requires IsAdd(ops, n) && DistinctObjects(ops) && Alive(ops, n)
    ensures Fetch(After(ops), Issued(ops, n)) == Some(ops[n].obj) <==> Index(ops, n) < 256
  {
    AliveIsHeld(ops, n);
    HeldFetches(After(ops), ops[n].cell, After(ops[..n]).calcId, Index(ops, n), ops[n].obj);
    WrappedPosition(ops, CacheKey(ops[n].cell), Index(ops, n));
  }

  lemma EndedNeverFetches(ops: seq<Op>, n: nat)
    requires IsAdd(ops, n) && DistinctObjects(ops) && !Alive(ops, n)
    ensures Fetch(After(ops), Issued(ops, n)) != Some(ops[n].obj)
  {
    FetchIssued(After(ops), ops[n].cell, Index(ops, n));
    var key := CacheKey(ops[n].cell);
    if key in After(ops).cells && ops[n].obj in After(ops).cells[key].held {
      HeldIsAlive(ops, key, ops[n].obj);
      assert false;
    }
  }

  // A reference fetches what it was issued for exactly as long as the add is alive, if it was
  // among the first 256 of its cell and cycle; a later one never does.
  lemma FetchedExactlyWhileAlive(ops: seq<Op>, n: nat)
    requires IsAdd(ops, n) && DistinctObjects(ops)
    ensures Fetch(After(ops), Issued(ops, n)) == Some(ops[n].obj) <==> Alive(ops, n) && Index(ops, n) < 256
  {
    if Alive(ops, n) { AliveFetches(ops, n); } else { EndedNeverFetches(ops, n); }
  }

  // No object is held twice.
  lemma {:induction false} HeldOnce(ops: seq<Op>, key: string, i: nat, j: nat)
    requires DistinctObjects(ops) && key in After(ops).cells && i < j < |After(ops).cells[key].held|
    ensures After(ops).cells[key].held[i] != After(ops).cells[key].held[j]
    decreases |ops|
  {
    var last := |ops| - 1;
    var before := ops[..last];
    var c := After(before);
    DistinctPrefix(ops);
    if ops[last].AddOp? && CacheKey(ops[last].cell) == key {
      assert key in c.cells && After(ops).cells[key] == Cell(c.calcId, c.cells[key].held + [ops[last].obj]);
      if j < |c.cells[key].held| {
        HeldOnce(before, key, i, j);
      } else {
        var obj := c.cells[key].held[i];
        HeldIsAlive(before, key, obj);
        assert exists n: nat :: IsAdd(before, n) && before[n].obj == obj;
      }
    } else {
      assert key in c.cells && After(ops).cells[key] == c.cells[key];
      HeldOnce(before, key, i, j);
    }
  }

  ghost predicate IsNew(ops: seq<Op>, obj: nat) { forall n: nat :: IsAdd(ops, n) ==> ops[n].obj != obj }

  lemma DistinctPrefix(ops: seq<Op>)
    requires ops != [] && DistinctObjects(ops)
    ensures DistinctObjects(ops[..|ops| - 1])
    ensures ops[|ops| - 1].AddOp? ==> IsNew(ops[..|ops| - 1], ops[|ops| - 1].obj)
  {
    var before := ops[..|ops| - 1];
    forall n: nat, m: nat | IsAdd(before, n) && IsAdd(before, m) && before[n].obj == before[m].obj ensures n == m {
      assert IsAdd(ops, n) && IsAdd(ops, m);
    }
    forall n: nat | IsAdd(before, n) && ops[|ops| - 1].AddOp? ensures before[n].obj != ops[|ops| - 1].obj {
      assert IsAdd(ops, n) && IsAdd(ops, |ops| - 1);
    }
  }

  // ---------------------------------------------------------------- distinct references

  // Two adds to a cell in one cycle, the first not ended in between, get different positions.
  lemma LaterIndexIsLarger(ops: seq<Op>, n: nat, m: nat)
    requires IsAdd(ops, n) && IsAdd(ops, m) && n < m && ops[n].cell == ops[m].cell
    requires Alive(ops[..m], n) && SameCycle(ops, n, m)
    ensures Index(ops, n) < Index(ops, m)
  {
    assert ops[..m][..n] == ops[..n];
    AliveIsHeld(ops[..m], n);
    SameCycleIsSameId(ops, n, m);
  }

  // Their references are the same exactly if the positions agree modulo 256; with at most 256
  // adds to a cell in a cycle they are all different.
  lemma ReferencesDistinctExactly(ops: seq<Op>, n: nat, m: nat)
    requires IsAdd(ops, n) && IsAdd(ops, m)
    ensures Issued(ops, n) == Issued(ops, m) <==>
      ops[n].cell == ops[m].cell && Index(ops, n) % 256 == Index(ops, m) % 256
  {
    var r, t := Issued(ops, n), Issued(ops, m);
    if r == t {
      assert |r| == |ops[n].cell| + 3 && |t| == |ops[m].cell| + 3;
      assert r[1..|r| - 2] == ops[n].cell && t[1..|t| - 2] == ops[m].cell;
      assert r[|r| - 1] == (65 + Index(ops, n) % 256) as char && t[|t| - 1] == (65 + Index(ops, m) % 256) as char;
    }
  }

  lemma ReferencesDistinct(ops: seq<Op>, n: nat, m: nat)
    requires IsAdd(ops, n) && IsAdd(ops, m) && n < m && ops[n].cell == ops[m].cell
    requires Alive(ops[..m], n) && SameCycle(ops, n, m) && AddsInCycle(ops, m, m + 1) <= 256
    ensures Issued(ops, n) != Issued(ops, m)
  {
    LaterIndexIsLarger(ops, n, m);
    IndexIsSmall(ops, m);
    SmallIndicesDiffer(ops, n, m);
  }

  lemma SmallIndicesDiffer(ops: seq<Op>, n: nat, m: nat)
    requires IsAdd(ops, n) && IsAdd(ops, m) && Index(ops, n) < Index(ops, m) < 256
    ensures Issued(ops, n) != Issued(ops, m)
  {
    ReferencesDistinctExactly(ops, n, m);
  }

  lemma IndexIsSmall(ops: seq<Op>, m: nat)
    requires IsAdd(ops, m)
    ensures Index(ops, m) < AddsInCycle(ops, m, m + 1)
  {
    IndexCounts(ops, m, m);
  }

  // The adds among the first k steps to the cell of add m and in its cycle.
  function AddsInCycle(ops: seq<Op>, m: nat, k: nat): nat
    requires IsAdd(ops, m) && k <= |ops|
  {
    if k == 0 then 0
    else
      var counts := ops[k - 1].AddOp? && ops[k - 1].cell == ops[m].cell && SameCycle(ops, k - 1, m);
      AddsInCycle(ops, m, k - 1) + if counts then 1 else 0
  }

  // A cell stamped with the cycle of add m holds no more than was added to it in that cycle.
  lemma {:induction false} IndexCounts(ops: seq<Op>, m: nat, k: nat)
    requires IsAdd(ops, m) && k <= |ops|
    ensures var c, key := After(ops[..k]), CacheKey(ops[m].cell);
      key in c.cells && c.cells[key].calcId == After(ops[..m]).calcId ==> |c.cells[key].held| <= AddsInCycle(ops, m, k)
  {
    if k > 0 {
      IndexCounts(ops, m, k - 1);
      SameCycleIsSameId(ops, k - 1, m);
      assert ops[..k][..k - 1] == ops[..k - 1];
      assert CacheKey(ops[m].cell)[1..] == ops[m].cell;
      assert ops[k - 1].AddOp? ==> CacheKey(ops[k - 1].cell)[1..] == ops[k - 1].cell;
    }
  }

  // ---------------------------------------------------------------- erasing by reference

  // Whatever position the reference stands for, it drops its cell and nothing else.
  lemma EraseReference(c: Cache, cell: string, index: nat)
    ensures Erase(c, Reference(cell, index))
      == Cache(map k | k in c.cells && k != CacheKey(cell) :: c.cells[k], c.calcId)
  {
    ErasedReference(cell, index);
    assert Erase(c, Reference(cell, index)).cells == map k | k in c.cells && k != CacheKey(cell) :: c.cells[k];
  }

  lemma ErasedReference(cell: string, index: nat)
    ensures ErasedKey(Reference(cell, index)) == CacheKey(cell)
  {
    assert Reference(cell, index)[..|CacheKey(cell)|] == CacheKey(cell);
  }

  // Of any text, the last two characters are left out, unless there are fewer.
  lemma EraseExactly(c: Cache, key: string, k: string)
    requires k in c.cells
    ensures k !in Erase(c, key).cells <==>
      if |key| < 2 then k == key else |k| == |key| - 2 && k <= key
  {
    if |key| >= 2 { assert k <= key && |k| == |key| - 2 ==> k == key[..|key| - 2]; }
  }

  // Erasing a reference of a cell ends exactly the adds to that cell.
  lemma EraseEndsExactly(ops: seq<Op>, n: nat, m: nat, cell: string, index: nat)
    requires IsAdd(ops, n) && m < |ops| && ops[m] == EraseOp(Reference(cell, index))
    ensures Ends(ops, n, m) <==> ops[n].cell == cell
  {
    ErasedReference(cell, index);
    assert CacheKey(cell)[1..] == cell && CacheKey(ops[n].cell)[1..] == ops[n].cell;
  }

  /** After any reference of a cell has been erased, no reference issued for that cell before
      fetches what it was issued for, whatever is done later. */
  lemma ErasedForGood(ops: seq<Op>, n: nat, m: nat, index: nat)
    requires IsAdd(ops, n) && DistinctObjects(ops) && n < m < |ops|
    requires ops[m] == EraseOp(Reference(ops[n].cell, index))
    ensures Fetch(After(ops), Issued(ops, n)) != Some(ops[n].obj)
  {
    EraseEndsExactly(ops, n, m, ops[n].cell, index);
    EndedNeverFetches(ops, n);
  }

  // ---------------------------------------------------------------- closing a workbook

  // It takes exactly the cells whose keys have the name from their third character on.
  lemma CloseExactly(c: Cache, book: string, k: string)
    requires k in c.cells
    ensures k !in CloseWorkbook(c, book).cells <==>
      |book| + 2 <= |k| && forall i :: 0 <= i < |book| ==> book[i] == k[2 + i]
  {
    if |book| + 2 <= |k| {
      assert forall i :: 0 <= i < |book| ==> k[2..][i] == k[2 + i];
      if forall i :: 0 <= i < |book| ==> book[i] == k[2 + i] { assert book == k[2..][..|book|]; }
    }
  }

  // A cell's address begins with its workbook's name in brackets.
  function AddressIn(name: string, rest: string): string { "[" + name + "]" + rest }

  // Closing takes the cells of every workbook whose name begins with the one closed.
  lemma CloseMatchesExactly(book: string, name: string, rest: string)
    requires ']' !in book
    ensures Matches(book, CacheKey(AddressIn(name, rest))) <==> book <= name
  {
    var tail := CacheKey(AddressIn(name, rest))[2..];
    assert tail == name + "]" + rest;
    assert tail[|name|] == ']';
    if book <= tail {
      forall i | 0 <= i < |book| ensures book[i] == tail[i] && book[i] != ']' { assert book[i] in book; }
      assert forall i :: 0 <= i < |book| ==> book[i] == tail[i] == name[i];
      assert book == name[..|book|];
    }
    if book <= name {
      assert tail[..|book|] == name[..|book|];
    }
  }

  lemma CloseTakesAnotherWorkbook()
    ensures Matches("Book1", CacheKey(AddressIn("Book10", "Sheet1!R1C1")))
  {
    CloseMatchesExactly("Book1", "Book10", "Sheet1!R1C1");
    assert "Book10"[..5] == "Book1";
  }

  // ---------------------------------------------------------------- too many adds

  // Objects 0, 1, ... added to one cell in one cycle.
  function Adds(n: nat): seq<Op> { seq(n, i requires 0 <= i < n => AddOp("[Book1]Sheet1!R1C1", i)) }

  function UpTo(n: nat): seq<nat> { seq(n, i requires 0 <= i < n => i) }

  lemma {:induction false} AfterAdds(n: nat)
    requires n > 0
    ensures After(Adds(n)) == Cache(map[CacheKey("[Book1]Sheet1!R1C1") := Cell(1, UpTo(n))], 1)
  {
    var before := Adds(n)[..n - 1];
    assert before == Adds(n - 1);
    if n == 1 {
      assert UpTo(1) == [0];
    } else {
      AfterAdds(n - 1);
      assert UpTo(n) == UpTo(n - 1) + [n - 1];
    }
  }

  // The 257th object gets the first one's reference, and the reference fetches the first.
  lemma ReferenceReused()
    ensures Issued(Adds(257), 256) == Issued(Adds(257), 0)
    ensures Fetch(After(Adds(257)), Issued(Adds(257), 256)) == Some(0)
  {
    assert Adds(257)[..256] == Adds(256) && Adds(257)[..0] == [];
    AfterAdds(256);
    AfterAdds(257);
    FetchIssued(After(Adds(257)), "[Book1]Sheet1!R1C1", 256);
  }
}
