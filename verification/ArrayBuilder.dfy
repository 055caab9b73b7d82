/**
 ExcelArrayBuilder and its allocator (include/xloil/ArrayBuilder.h).  One block holds the array's
 cells and, behind them, a store for the characters of its strings, handed out by moving a
 pointer.  Characters and length counts are both 16-bit units.
 */
module ArrayBuilder {
  import opened Basics

  const WRAP32: nat := 0x1_0000_0000   // row_t and col_t
  const WRAP16: nat := 0x10000         // wchar_t

  datatype Value = Missing | NotAvailable | Text(chars: seq<nat>)

  // What a caller sees: the size, how much of the string store is used, and the cells' values.
  datatype Builder = Builder(rows: nat, cols: nat, capacity: nat, used: nat, values: seq<Value>)

  // ---------------------------------------------------------------- sizes

  // The length counts and terminators are added in 32-bit arithmetic, for the size before padding.
  function Capacity(nRows: nat, nCols: nat, strLength: nat): nat {
    if strLength > 0 then strLength + nCols * nRows * 2 % WRAP32 else 0
  }

  function Padded(n: nat, pad: bool): nat { if pad && n == 1 then 2 else n }

  // The place of a cell in the block.
  function At(cols: nat, i: nat, j: nat): nat { i * cols + j }

  lemma AtInside(rows: nat, cols: nat, i: nat, j: nat)
    requires i < rows && j < cols
    ensures At(cols, i, j) < rows * cols
  {
    assert (i + 1) * cols <= rows * cols;
  }

  lemma AtUnique(cols: nat, i: nat, j: nat, i': nat, j': nat)
    requires j < cols && j' < cols && At(cols, i, j) == At(cols, i', j')
    ensures i == i' && j == j'
  {
    assert (i + 1) * cols == i * cols + cols && (i' + 1) * cols == i' * cols + cols;
    if i < i' { MulMono(i + 1, i', cols); }
    if i' < i { MulMono(i' + 1, i, cols); }
  }

  // ---------------------------------------------------------------- writing strings

  // copy_string, where the store has room: an empty string takes none, and a length count is
  // a wchar_t.
  function Write(b: Builder, k: nat, s: seq<nat>): Builder
    requires k < |b.values|
  {
    if s == [] then b.(values := b.values[k := Text([])])
    else b.(used := b.used + |s| + 1, values := b.values[k := Text(s[..|s| % WRAP16])])
  }

  // The cell gets as much of the string as its length modulo 2^16, the whole of it exactly if
  // the length is a wchar_t.
  lemma TextKeptExactly(b: Builder, k: nat, s: seq<nat>)
    requires k < |b.values|
    ensures Write(b, k, s).values[k] == Text(s[..|s| % 0x1_0000])
    ensures Write(b, k, s).values[k] == Text(s) <==> |s| < 0x1_0000
  {
    assert |s| < WRAP16 ==> s[..|s| % WRAP16] == s;
    assert |s| >= WRAP16 ==> |s[..|s| % WRAP16]| < |s|;
  }

  predicate Fits(b: Builder, s: seq<nat>) { s == [] || b.used + |s| + 1 <= b.capacity }

  // An element of the array: a string cell holds where its count and characters are.
  datatype Cell = Uninitialised | NACell | EmptyString | StringAt(p: nat)

  class ExcelArrayBuilder {
    const rows: nat
    const cols: nat
    const objects: array<Cell>
    const chars: array<nat>
    var stringData: nat

    predicate InStore(c: Cell)
      reads this, chars
    {
      c.StringAt? ==> c.p < chars.Length && c.p + 1 + chars[c.p] <= stringData
    }

    predicate Apart(c: Cell, d: Cell)
      requires InStore(c) && InStore(d)
      reads this, chars
    {
      c.StringAt? && d.StringAt? ==> c.p + 1 + chars[c.p] <= d.p || d.p + 1 + chars[d.p] <= c.p
    }

    // Every string lies in the used part of the store, and no two overlap.
    ghost predicate Valid()
      reads this, objects, chars
    {
      && stringData <= chars.Length && objects.Length == rows * cols
      && (forall k :: 0 <= k < objects.Length ==> InStore(objects[k]))
      && (forall j, k :: 0 <= j < k < objects.Length ==> Apart(objects[j], objects[k]))
    }

    function ValueOf(c: Cell): Value
      requires InStore(c) && stringData <= chars.Length
      reads this, chars
    {
      match c
      case Uninitialised => Missing
      case NACell => NotAvailable
      case EmptyString => Text([])
      case StringAt(p) => Text(chars[p + 1..p + 1 + chars[p]])
    }

    ghost function State(): Builder
      requires Valid()
      reads this, objects, chars
    {
      Builder(rows, cols, chars.Length, stringData,
        seq(objects.Length,
            k requires 0 <= k < objects.Length && Valid() reads this, objects, chars => ValueOf(objects[k])))
    }

    // The padding writes exactly the cells outside the requested rectangle.
    constructor (nRows: nat, nCols: nat, totalStrLength: nat, pad: bool)
      requires 0 < Padded(nRows, pad) * Padded(nCols, pad) < WRAP32
      ensures Valid() && fresh(objects) && fresh(chars)
      ensures rows == (if pad && nRows == 1 then 2 else nRows) && cols == (if pad && nCols == 1 then 2 else nCols)
      ensures State().used == 0
      ensures State().capacity ==
        if totalStrLength == 0 then 0 else totalStrLength + nCols * nRows * 2 % 0x1_0000_0000
      ensures forall i: nat, j: nat :: i < rows && j < cols ==>
        && At(cols, i, j) < |State().values|
        && State().values[At(cols, i, j)] == if i >= nRows || j >= nCols then NotAvailable else Missing
    {
      rows, cols := Padded(nRows, pad), Padded(nCols, pad);
      objects := new Cell[Padded(nRows, pad) * Padded(nCols, pad)](_ => Uninitialised);
      chars := new nat[Capacity(nRows, nCols, totalStrLength)];
      stringData := 0;
      new;
      if pad {
        PadCells(nRows, nCols);
      }
      forall i: nat, j: nat | i < rows && j < cols ensures At(cols, i, j) < rows * cols { AtInside(rows, cols, i, j); }
    }

    method PadCells(nRows: nat, nCols: nat)
      requires rows == Padded(nRows, true) && cols == Padded(nCols, true) && objects.Length == rows * cols
      requires forall k :: 0 <= k < objects.Length ==> objects[k] == Uninitialised
      modifies objects
      ensures forall k :: 0 <= k < objects.Length ==> objects[k] == Uninitialised || objects[k] == NACell
      ensures forall i: nat, j: nat :: i < rows && j < cols ==>
        && At(cols, i, j) < objects.Length
        && objects[At(cols, i, j)] == if i >= nRows || j >= nCols then NACell else Uninitialised
    {
      forall i: nat, j: nat | i < rows && j < cols
        ensures At(cols, i, j) < objects.Length
      {
        AtInside(rows, cols, i, j);
      }
      if nCols < cols {
        for i := 0 to nRows
          invariant forall k :: 0 <= k < objects.Length ==> objects[k] == Uninitialised || objects[k] == NACell
          invariant forall a: nat, b: nat :: a < rows && b < cols ==>
            objects[At(cols, a, b)] == if a < i && b >= nCols then NACell else Uninitialised
        {
          OnlyHere(i, nCols);
          objects[At(cols, i, nCols)] := NACell;
        }
      }
      if nRows < rows {
        for j := 0 to cols
          invariant forall k :: 0 <= k < objects.Length ==> objects[k] == Uninitialised || objects[k] == NACell
          invariant forall a: nat, b: nat :: a < rows && b < cols ==>
            objects[At(cols, a, b)] ==
              if (a < nRows && b >= nCols) || (a >= nRows && b < j) then NACell else Uninitialised
        {
          OnlyHere(nRows, j);
          objects[At(cols, nRows, j)] := NACell;
        }
      }
    }

    lemma OnlyHere(i: nat, j: nat)
      requires j < cols
      ensures forall a: nat, b: nat :: b < cols && At(cols, a, b) == At(cols, i, j) ==> a == i && b == j
    {
      forall a: nat, b: nat | b < cols && At(cols, a, b) == At(cols, i, j)
        ensures a == i && b == j
      {
        AtUnique(cols, a, b, i, j);
      }
    }

    // ArrayBuilderCharAllocator::allocate.  Without room a debug build throws; a release build
    // does not look.
    method Allocate(n: nat) returns (ok: bool, p: nat)
      modifies this`stringData
      ensures ok <==> old(stringData) + n <= chars.Length
      ensures p == old(stringData) && stringData == if ok then old(stringData) + n else old(stringData)
    {
      p := stringData;
      ok := stringData + n <= chars.Length;
      if ok { stringData := stringData + n; }
    }

    // The count and the characters, at p.
    method WriteChars(p: nat, s: seq<nat>)
      requires p + 1 + |s| <= chars.Length
      modifies chars
      ensures chars[p] == |s| % WRAP16 && chars[p + 1..p + 1 + |s|] == s
      ensures forall q :: 0 <= q < p ==> chars[q] == old(chars[q])
    {
      chars[p] := |s| % WRAP16;
      for i := 0 to |s|
        invariant chars[p] == |s| % WRAP16
        invariant forall q :: 0 <= q < p ==> chars[q] == old(chars[q])
        invariant forall q :: 0 <= q < i ==> chars[p + 1 + q] == s[q]
      {
        chars[p + 1 + i] := s[i];
      }
    }

    // Writing beyond what is used leaves the strings that are there.
    twostate lemma ValuesKept(c: Cell)
      requires old(stringData) <= chars.Length && old(InStore(c)) && stringData <= chars.Length
        && old(stringData) <= stringData
      requires forall q :: 0 <= q < old(stringData) ==> chars[q] == old(chars[q])
      ensures InStore(c) && ValueOf(c) == old(ValueOf(c))
    {
      if c.StringAt? { assert chars[c.p + 1..c.p + 1 + chars[c.p]] == old(chars[c.p + 1..c.p + 1 + chars[c.p]]); }
    }

    // Where a string has been put into the store it is the value of the cell that points to it.
    lemma ValueThere(p: nat, s: seq<nat>)
      requires p + 1 + |s| <= stringData <= chars.Length && chars[p] == |s| % WRAP16 && chars[p + 1..p + 1 + |s|] == s
      ensures |s| % WRAP16 <= |s| && InStore(StringAt(p)) && ValueOf(StringAt(p)) == Text(s[..|s| % WRAP16])
    {
      assert |s| % WRAP16 <= |s|;
      assert chars[p + 1..p + 1 + |s|][..|s| % WRAP16] == chars[p + 1..p + 1 + |s| % WRAP16];
    }

    // A cell that overlaps no other.
    method SetCell(k: nat, c: Cell)
      requires Valid() && k < objects.Length && InStore(c)
      requires forall j :: 0 <= j < objects.Length ==> Apart(objects[j], c)
      modifies objects
      ensures Valid() && State() == old(State().(values := State().values[k := ValueOf(c)]))
    {
      objects[k] := c;
    }

    // A string's room in the store, filled; the cells keep their values.
    method NewString(s: seq<nat>) returns (ok: bool, p: nat)
      requires Valid() && s != []
      modifies this`stringData, chars
      ensures Valid() && (ok <==> Fits(old(State()), s))
      ensures State() == if ok then old(State()).(used := old(State()).used + |s| + 1) else old(State())
      ensures ok ==> InStore(StringAt(p)) && ValueOf(StringAt(p)) == Text(s[..|s| % WRAP16])
      ensures ok ==> forall j :: 0 <= j < objects.Length ==> Apart(objects[j], StringAt(p))
    {
      ok, p := Allocate(|s| + 1);
      if ok {
        WriteChars(p, s);
        forall j | 0 <= j < objects.Length
          ensures InStore(objects[j]) && ValueOf(objects[j]) == old(ValueOf(objects[j]))
        {
          ValuesKept(objects[j]);
        }
        ValueThere(p, s);
      }
    }

    // copy_string
    method CopyString(k: nat, s: seq<nat>) returns (ok: bool)
      requires Valid() && k < objects.Length
      modifies this`stringData, objects, chars
      ensures Valid()
      ensures ok <==> Fits(old(State()), s)
      ensures State() == if ok then Write(old(State()), k, s)
        else old(State()).(values := old(State()).values[k := Missing])
    {
      if s == [] {
        SetCell(k, EmptyString);
        return true;
      }
      var p;
      ok, p := NewString(s);
      SetCell(k, if ok then StringAt(p) else Uninitialised);
    }
  }

  // ---------------------------------------------------------------- enough room

  datatype Put = Put(cell: nat, text: seq<nat>)

  predicate InArray(b: Builder, puts: seq<Put>) { forall n :: 0 <= n < |puts| ==> puts[n].cell < |b.values| }

  function WriteAll(b: Builder, puts: seq<Put>): (r: Builder)
    requires InArray(b, puts)
    ensures |r.values| == |b.values| && r.capacity == b.capacity
  {
    if puts == [] then b
    else Write(WriteAll(b, puts[..|puts| - 1]), puts[|puts| - 1].cell, puts[|puts| - 1].text)
  }

  function Filled(text: seq<nat>): nat { if text == [] then 0 else 1 }

  // The non-empty strings, and the characters in all of them.
  function Strings(puts: seq<Put>): nat {
    if puts == [] then 0 else Strings(puts[..|puts| - 1]) + Filled(puts[|puts| - 1].text)
  }

  function Chars(puts: seq<Put>): nat {
    if puts == [] then 0 else Chars(puts[..|puts| - 1]) + |puts[|puts| - 1].text|
  }

  lemma {:induction false} UsedCounts(b: Builder, puts: seq<Put>)
    requires InArray(b, puts)
    ensures WriteAll(b, puts).used == b.used + Chars(puts) + Strings(puts)
  {
    if puts != [] {
      UsedCounts(b, puts[..|puts| - 1]);
    }
  }

  lemma {:induction false} CountsGrow(puts: seq<Put>, n: nat)
    requires n <= |puts|
    ensures Chars(puts[..n]) <= Chars(puts) && Strings(puts[..n]) <= Strings(puts)
  {
    if n == |puts| {
      assert puts[..n] == puts;
    } else {
      CountsGrow(puts[..|puts| - 1], n);
      assert puts[..|puts| - 1][..n] == puts[..n];
    }
  }

  // The string that step n writes finds room.
  ghost predicate FitsAt(b: Builder, puts: seq<Put>, n: nat)
    requires n < |puts| && InArray(b, puts)
  {
    Fits(WriteAll(b, puts[..n]), puts[n].text)
  }

  lemma FitsIfAllDo(b: Builder, puts: seq<Put>, n: nat)
    requires n < |puts| && InArray(b, puts) && b.used + Chars(puts) + Strings(puts) <= b.capacity
    ensures FitsAt(b, puts, n)
  {
    UsedCounts(b, puts[..n]);
    CountsGrow(puts, n + 1);
    assert puts[..n + 1][..n] == puts[..n];
  }

  // Every string finds room exactly if they do together, counting one more unit for each.
  lemma AllFitExactly(b: Builder, puts: seq<Put>)
    requires InArray(b, puts) && b.used <= b.capacity
    ensures (forall n :: 0 <= n < |puts| ==> FitsAt(b, puts, n)) <==> b.used + Chars(puts) + Strings(puts) <= b.capacity
  {
    if b.used + Chars(puts) + Strings(puts) <= b.capacity {
      forall n | 0 <= n < |puts| ensures FitsAt(b, puts, n) { FitsIfAllDo(b, puts, n); }
    }
    if forall n :: 0 <= n < |puts| ==> FitsAt(b, puts, n) {
      UsedIfAllFit(b, puts);
    }
  }

  lemma {:induction false} UsedIfAllFit(b: Builder, puts: seq<Put>)
    requires InArray(b, puts) && b.used <= b.capacity && forall n :: 0 <= n < |puts| ==> FitsAt(b, puts, n)
    ensures b.used + Chars(puts) + Strings(puts) <= b.capacity
  {
    if puts != [] {
      var before := puts[..|puts| - 1];
      forall n | 0 <= n < |before| ensures FitsAt(b, before, n) {
        assert FitsAt(b, puts, n) && before[..n] == puts[..n];
      }
      UsedIfAllFit(b, before);
      UsedCounts(b, before);
      assert FitsAt(b, puts, |puts| - 1);
    }
  }

  // The room that step n's string takes: from its count to its last character.
  ghost predicate Takes(b: Builder, puts: seq<Put>, n: nat, from: nat, to: nat)
    requires n < |puts| && InArray(b, puts)
  {
    puts[n].text != [] && from == WriteAll(b, puts[..n]).used && to == from + |puts[n].text| + 1
  }

  // No two strings share room.
  lemma StringsApart(b: Builder, puts: seq<Put>, m: nat, n: nat, from: nat, to: nat, from': nat, to': nat)
    requires m < n < |puts| && InArray(b, puts) && Takes(b, puts, m, from, to) && Takes(b, puts, n, from', to')
    ensures to <= from'
  {
    UsedCounts(b, puts[..m + 1]);
    UsedCounts(b, puts[..m]);
    UsedCounts(b, puts[..n]);
    assert puts[..m + 1][..m] == puts[..m];
    CountsGrow(puts[..n], m + 1);
    assert puts[..n][..m + 1] == puts[..m + 1];
  }

  // ---------------------------------------------------------------- the builder's own limits

  // At most two non-empty strings for each requested cell, with no more characters than said.
  predicate WithinLimits(nRows: nat, nCols: nat, strLength: nat, puts: seq<Put>) {
    Strings(puts) <= 2 * (nCols * nRows) && Chars(puts) <= strLength
  }

  lemma {:induction false} StringsHaveChars(puts: seq<Put>)
    ensures Strings(puts) <= Chars(puts)
  {
    if puts != [] { StringsHaveChars(puts[..|puts| - 1]); }
  }

  // n strings with the given number of characters in all.
  function Spread(n: nat, chars: nat): (puts: seq<Put>)
    requires n <= chars && (n == 0 ==> chars == 0)
    ensures forall i :: 0 <= i < |puts| ==> puts[i].cell == 0
  {
    if n == 0 then []
    else if n == 1 then [Put(0, seq(chars, i => 65))]
    else Spread(n - 1, chars - 1) + [Put(0, [65])]
  }

  lemma CountsSnoc(puts: seq<Put>, put: Put)
    ensures Strings(puts + [put]) == Strings(puts) + Filled(put.text)
    ensures Chars(puts + [put]) == Chars(puts) + |put.text|
  {
    assert (puts + [put])[..|puts|] == puts;
  }

  lemma OneCounts(put: Put)
    ensures Strings([put]) == Filled(put.text) && Chars([put]) == |put.text|
  {
    CountsSnoc([], put);
    assert [] + [put] == [put];
  }

  lemma {:induction false} SpreadCounts(n: nat, chars: nat)
    requires n <= chars && (n == 0 ==> chars == 0)
    ensures Strings(Spread(n, chars)) == n && Chars(Spread(n, chars)) == chars
  {
    if n == 1 {
      OneCounts(Put(0, seq(chars, i => 65)));
    } else if n > 1 {
      var front := Spread(n - 1, chars - 1);
      SpreadCounts(n - 1, chars - 1);
      CountsSnoc(front, Put(0, [65]));
      assert Spread(n, chars) == front + [Put(0, [65])];
    }
  }

  // The store is large enough for whatever the limits allow exactly if the 32-bit product has
  // not lost what is needed: no more than one unit for each string there can be.
  lemma StoreSufficesExactly(nRows: nat, nCols: nat, strLength: nat)
    ensures (forall puts :: WithinLimits(nRows, nCols, strLength, puts) ==>
      Chars(puts) + Strings(puts) <= Capacity(nRows, nCols, strLength))
      <==> Min(2 * (nCols * nRows), strLength) <= nCols * nRows * 2 % WRAP32
  {
    var cells := nCols * nRows;
    var n := Min(2 * cells, strLength);
    if n <= cells * 2 % WRAP32 {
      forall puts | WithinLimits(nRows, nCols, strLength, puts)
        ensures Chars(puts) + Strings(puts) <= Capacity(nRows, nCols, strLength)
      {
        StringsHaveChars(puts);
      }
    } else {
      SpreadCounts(n, strLength);
      var puts := Spread(n, strLength);
      assert WithinLimits(nRows, nCols, strLength, puts);
      assert !(Chars(puts) + Strings(puts) <= Capacity(nRows, nCols, strLength));
    }
  }

  // For arrays of fewer than 2^31 cells it always is.
  lemma StoreSuffices(nRows: nat, nCols: nat, strLength: nat)
    requires 2 * (nCols * nRows) < WRAP32
    ensures Min(2 * (nCols * nRows), strLength) <= nCols * nRows * 2 % WRAP32
  {
  }

  // So a new builder for fewer than 2^31 cells takes every string its limits allow.
  lemma NewBuilderTakesAll(b: Builder, nRows: nat, nCols: nat, strLength: nat, puts: seq<Put>)
    requires b.used == 0 && b.capacity == Capacity(nRows, nCols, strLength) && InArray(b, puts)
    requires 2 * (nCols * nRows) < WRAP32 && WithinLimits(nRows, nCols, strLength, puts)
    ensures forall n :: 0 <= n < |puts| ==> FitsAt(b, puts, n)
  {
    StoreSuffices(nRows, nCols, strLength);
    StoreSufficesExactly(nRows, nCols, strLength);
    AllFitExactly(b, puts);
  }

  // With 2^31 cells the product is lost, and a string of one character does not fit.
  lemma StoreTooSmallExample()
    ensures Capacity(0x10_0000, 0x800, 1) == 1
    ensures WithinLimits(0x10_0000, 0x800, 1, [Put(0, [65])]) && Chars([Put(0, [65])]) + Strings([Put(0, [65])]) == 2
  {
    assert [Put(0, [65])][..0] == [];
  }
}
