/**
 The strided view of include/xloil/ExcelArray.h and its iterator.  Cells are named by their
 offset in the base array's data, which the view and its iterator hold pointers into.
 */
module ExcelArray {
  import opened Basics

  const WRAP32: nat := 0x1_0000_0000

  // A uint32_t value as an int.
  function ToInt(n: int): int { var r := n % WRAP32; if r >= 0x8000_0000 then r - WRAP32 else r }

  predicate IsInt(n: int) { -0x8000_0000 <= n < 0x8000_0000 }

  // ---------------------------------------------------------------- slices

  // The range that a slice picks: where it starts and how much it takes.
  datatype Range = Range(from: nat, size: nat)

  // sliceIndices, in the arithmetic of int and uint32_t.
  function SliceIndices(from: int, to: int, size: nat): (r: Option<Range>)
    requires IsInt(from) && IsInt(to) && size < WRAP32
  {
    var f := if from < 0 then ToInt(from + size) else from;
    var t := if to < 0 then ToInt(to + size) else to;
    if f < 0 || t < 0 || (to >= 0 && to > ToInt(size)) || t - f < 0 then None
    else Some(Range(f, t - f))
  }

  method SliceIndicesInPlace(from0: int, to0: int, size0: nat) returns (ok: bool, from: int, size: nat)
    requires IsInt(from0) && IsInt(to0) && size0 < WRAP32
    ensures ok <==> SliceIndices(from0, to0, size0).Some?
    ensures ok ==> from >= 0 && SliceIndices(from0, to0, size0) == Some(Range(from, size))
  {
    var to := to0;
    from, size := from0, size0;
    if from < 0 {
      from := ToInt(from + size);
      if from < 0 { return false, from, size; }
    }
    if to < 0 {
      to := ToInt(to + size);
      if to < 0 { return false, from, size; }
    } else if to > ToInt(size) {
      return false, from, size;
    }
    var sz := to - from;
    if sz < 0 { return false, from, size; }
    size := sz;
    return true, from, size;
  }

  // A negative bound counts from the end.
  function FromEnd(n: int, size: nat): int { if n < 0 then n + size else n }

  // Accepted exactly if the bounds, counted from the start, are in order and inside; the range
  // is then the one between them.
  lemma SliceExactly(from: int, to: int, size: nat)
    requires -0x8000_0000 <= from < 0x8000_0000 && -0x8000_0000 <= to < 0x8000_0000 && size < 0x8000_0000
    ensures SliceIndices(from, to, size) ==
      if 0 <= FromEnd(from, size) <= FromEnd(to, size) <= size
      then Some(Range(FromEnd(from, size), FromEnd(to, size) - FromEnd(from, size)))
      else None
  {
  }

  // Whatever the size, what is accepted lies inside.
  lemma SliceInside(from: int, to: int, size: nat)
    requires IsInt(from) && IsInt(to) && size < WRAP32 && SliceIndices(from, to, size).Some?
    ensures SliceIndices(from, to, size).value.from + SliceIndices(from, to, size).value.size <= size
  {
  }

  // ---------------------------------------------------------------- views

  datatype View = View(data: nat, rows: nat, cols: nat, baseCols: nat)

  function RowBegin(v: View, i: nat): nat { v.data + i * v.baseCols }

  // at(row, col)
  function At(v: View, i: nat, j: nat): nat { RowBegin(v, i) + j }

  // The whole of a base array.
  function Whole(rows: nat, cols: nat): View { View(0, rows, cols, cols) }

  datatype Bounds = Bounds(fromRow: int, fromCol: int, toRow: int, toCol: int)

  predicate AreInts(b: Bounds) { IsInt(b.fromRow) && IsInt(b.fromCol) && IsInt(b.toRow) && IsInt(b.toCol) }

  predicate Sized(v: View) { v.rows < WRAP32 && v.cols < WRAP32 && v.baseCols < WRAP32 }

  // The sub-array constructor: the start of the first row is computed in 32 bits.
  function SubArray(v: View, b: Bounds): Option<View>
    requires Sized(v) && AreInts(b)
  {
    match SliceIndices(b.fromRow, b.toRow, v.rows)
    case None => None
    case Some(rows) =>
      match SliceIndices(b.fromCol, b.toCol, v.cols)
      case None => None
      case Some(cols) =>
        Some(View(v.data + rows.from * v.baseCols % WRAP32 + cols.from, rows.size, cols.size, v.baseCols))
  }

  // The view lies in the rectangle of a base of so many rows that starts at (r, c), no further
  // on than it should.
  ghost predicate Within(v: View, baseRows: nat, r: nat, c: nat) {
    && r + v.rows <= baseRows && c + v.cols <= v.baseCols
    && v.data <= r * v.baseCols + c
  }

  lemma StartNoFurther(baseCols: nat, r: nat, from: nat)
    ensures r * baseCols + from * baseCols % WRAP32 <= (r + from) * baseCols
  {
    var n := from * baseCols;
    assert n % WRAP32 <= n;
    assert (r + from) * baseCols == r * baseCols + n;
  }

  lemma SubArrayWithin(v: View, b: Bounds, baseRows: nat, r: nat, c: nat)
    requires Sized(v) && AreInts(b) && Within(v, baseRows, r, c) && SubArray(v, b).Some?
    ensures var v' := SubArray(v, b).value;
      var fr, fc := SliceIndices(b.fromRow, b.toRow, v.rows).value.from,
        SliceIndices(b.fromCol, b.toCol, v.cols).value.from;
      Sized(v') && v'.baseCols == v.baseCols && Within(v', baseRows, r + fr, c + fc)
  {
    SliceInside(b.fromRow, b.toRow, v.rows);
    SliceInside(b.fromCol, b.toCol, v.cols);
    StartNoFurther(v.baseCols, r, SliceIndices(b.fromRow, b.toRow, v.rows).value.from);
  }

  // A chain of slices, each of the one before.
  function Chain(v: View, slices: seq<Bounds>): Option<View>
    requires Sized(v) && forall k :: 0 <= k < |slices| ==> AreInts(slices[k])
    decreases |slices|
  {
    if slices == [] then Some(v)
    else
      match SubArray(v, slices[0])
      case None => None
      case Some(v') => if Sized(v') then Chain(v', slices[1..]) else None
  }

  lemma {:induction false} ChainWithin(v: View, slices: seq<Bounds>, baseRows: nat, r: nat, c: nat)
    requires Sized(v) && forall k :: 0 <= k < |slices| ==> AreInts(slices[k])
    requires Within(v, baseRows, r, c) && Chain(v, slices).Some?
    ensures Chain(v, slices).value.baseCols == v.baseCols
      && exists r': nat, c': nat :: Within(Chain(v, slices).value, baseRows, r', c')
    decreases |slices|
  {
    if slices == [] {
      assert Within(Chain(v, slices).value, baseRows, r, c);
    } else {
      SubArrayWithin(v, slices[0], baseRows, r, c);
      var v' := SubArray(v, slices[0]).value;
      ChainWithin(v', slices[1..], baseRows,
        r + SliceIndices(slices[0].fromRow, slices[0].toRow, v.rows).value.from,
        c + SliceIndices(slices[0].fromCol, slices[0].toCol, v.cols).value.from);
      assert Chain(v, slices) == Chain(v', slices[1..]);
    }
  }

  // Any chain of accepted slices reads only cells of the base array.
  lemma ChainReadsInside(rows: nat, cols: nat, slices: seq<Bounds>, i: nat, j: nat)
    requires rows < WRAP32 && cols < WRAP32 && forall k :: 0 <= k < |slices| ==> AreInts(slices[k])
    requires Chain(Whole(rows, cols), slices).Some?
    requires i < Chain(Whole(rows, cols), slices).value.rows && j < Chain(Whole(rows, cols), slices).value.cols
    ensures At(Chain(Whole(rows, cols), slices).value, i, j) < rows * cols
  {
    assert Within(Whole(rows, cols), rows, 0, 0);
    ChainWithin(Whole(rows, cols), slices, rows, 0, 0);
    var v := Chain(Whole(rows, cols), slices).value;
    var r: nat, c: nat :| Within(v, rows, r, c);
    assert (r + i + 1) * cols == r * cols + i * cols + cols;
    MulMono(r + i + 1, rows, cols);
  }

  // An element of a slice is the parent's element, moved by where the slice starts, exactly if
  // the start of its first row fits 32 bits.
  lemma SliceShiftsExactly(v: View, b: Bounds, i: nat, j: nat)
    requires Sized(v) && AreInts(b) && SubArray(v, b).Some?
    ensures var fr, fc := SliceIndices(b.fromRow, b.toRow, v.rows).value.from,
      SliceIndices(b.fromCol, b.toCol, v.cols).value.from;
      At(SubArray(v, b).value, i, j) == At(v, fr + i, fc + j) <==> fr * v.baseCols < WRAP32
  {
    RowsWrap(v, SliceIndices(b.fromRow, b.toRow, v.rows).value.from, i);
  }

  lemma RowsWrap(v: View, from: nat, i: nat)
    ensures from * v.baseCols % WRAP32 + i * v.baseCols <= (from + i) * v.baseCols
    ensures from * v.baseCols % WRAP32 + i * v.baseCols == (from + i) * v.baseCols <==> from * v.baseCols < WRAP32
  {
    var n := from * v.baseCols;
    assert n % WRAP32 == n <==> n < WRAP32;
    assert (from + i) * v.baseCols == n + i * v.baseCols;
  }

  // The bounds of both dimensions, counted from the start, are in order and inside.
  predicate BoundsInside(rows: nat, cols: nat, b: Bounds) {
    && 0 <= FromEnd(b.fromRow, rows) <= FromEnd(b.toRow, rows) <= rows
    && 0 <= FromEnd(b.fromCol, cols) <= FromEnd(b.toCol, cols) <= cols
  }

  // The offset of the first row is computed without loss.
  predicate RowFits(v: View, b: Bounds) { FromEnd(b.fromRow, v.rows) * v.baseCols < WRAP32 }

  // Below 2^31 a slice is accepted exactly if its bounds are inside, and has exactly the rows
  // and columns between them.
  lemma SubArrayExactly(v: View, b: Bounds)
    requires Sized(v) && v.rows < 0x8000_0000 && v.cols < 0x8000_0000 && AreInts(b)
    ensures SubArray(v, b).Some? <==> BoundsInside(v.rows, v.cols, b)
    ensures SubArray(v, b).Some? ==>
      && SubArray(v, b).value.rows == FromEnd(b.toRow, v.rows) - FromEnd(b.fromRow, v.rows)
      && SubArray(v, b).value.cols == FromEnd(b.toCol, v.cols) - FromEnd(b.fromCol, v.cols)
      && SubArray(v, b).value.baseCols == v.baseCols
  {
    SliceExactly(b.fromRow, b.toRow, v.rows);
    SliceExactly(b.fromCol, b.toCol, v.cols);
  }

  // Its elements are the parent's between the bounds, one for one, exactly if the row offset
  // fits; otherwise they come too early.
  lemma SubArrayShifts(v: View, b: Bounds, i: nat, j: nat)
    requires Sized(v) && v.rows < 0x8000_0000 && v.cols < 0x8000_0000 && AreInts(b) && BoundsInside(v.rows, v.cols, b)
    ensures var v' := SubArray(v, b);
      var there := At(v, FromEnd(b.fromRow, v.rows) + i, FromEnd(b.fromCol, v.cols) + j);
      v'.Some? && At(v'.value, i, j) <= there && (At(v'.value, i, j) == there <==> RowFits(v, b))
  {
    SliceExactly(b.fromRow, b.toRow, v.rows);
    SliceExactly(b.fromCol, b.toCol, v.cols);
    RowsWrap(v, FromEnd(b.fromRow, v.rows), i);
  }

  // The cell is an element of the view in these rows and columns.
  ghost predicate HasCell(v: View, top: nat, bottom: nat, left: nat, right: nat, cell: nat) {
    exists i: nat, j: nat :: top <= i < bottom && left <= j < right && At(v, i, j) == cell
  }

  lemma SubArrayCells(v: View, b: Bounds, cell: nat)
    requires Sized(v) && v.rows < 0x8000_0000 && v.cols < 0x8000_0000 && AreInts(b)
    requires BoundsInside(v.rows, v.cols, b) && RowFits(v, b)
    ensures SubArray(v, b).Some?
    ensures HasCell(SubArray(v, b).value, 0, SubArray(v, b).value.rows, 0, SubArray(v, b).value.cols, cell) <==>
      HasCell(v, FromEnd(b.fromRow, v.rows), FromEnd(b.toRow, v.rows), FromEnd(b.fromCol, v.cols),
              FromEnd(b.toCol, v.cols), cell)
  {
    SubArrayExactly(v, b);
    var v' := SubArray(v, b).value;
    var fr, tr := FromEnd(b.fromRow, v.rows), FromEnd(b.toRow, v.rows);
    var fc, tc := FromEnd(b.fromCol, v.cols), FromEnd(b.toCol, v.cols);
    if HasCell(v', 0, v'.rows, 0, v'.cols, cell) {
      var i: nat, j: nat :| i < v'.rows && j < v'.cols && At(v', i, j) == cell;
      SubArrayShifts(v, b, i, j);
      assert At(v, fr + i, fc + j) == cell;
    }
    if HasCell(v, fr, tr, fc, tc, cell) {
      var i: nat, j: nat :| fr <= i < tr && fc <= j < tc && At(v, i, j) == cell;
      SubArrayShifts(v, b, i - fr, j - fc);
      assert At(v', i - fr, j - fc) == cell;
    }
  }

  // The rectangle that a chain of slices leaves of a view, by the bounds alone.
  datatype Rect = Rect(top: nat, left: nat, rows: nat, cols: nat)

  function ChainRect(rows: nat, cols: nat, slices: seq<Bounds>): Option<Rect> {
    if slices == [] then Some(Rect(0, 0, rows, cols))
    else if !BoundsInside(rows, cols, slices[0]) then None
    else
      var top, left := FromEnd(slices[0].fromRow, rows), FromEnd(slices[0].fromCol, cols);
      match ChainRect(FromEnd(slices[0].toRow, rows) - top, FromEnd(slices[0].toCol, cols) - left, slices[1..])
      case None => None
      case Some(r) => Some(Rect(top + r.top, left + r.left, r.rows, r.cols))
  }

  predicate ChainFits(v: View, slices: seq<Bounds>)
    requires Sized(v) && forall k :: 0 <= k < |slices| ==> AreInts(slices[k])
    decreases |slices|
  {
    slices == [] ||
    (RowFits(v, slices[0])
     && (SubArray(v, slices[0]).Some? && Sized(SubArray(v, slices[0]).value) ==>
           ChainFits(SubArray(v, slices[0]).value, slices[1..])))
  }

  // Every element of the second view is the one so much further on in the first, or all come earlier.
  ghost predicate Leads(v: View, v': View, top: nat, left: nat, fits: bool) {
    forall i: nat, j: nat ::
      At(v', i, j) <= At(v, top + i, left + j) && (At(v', i, j) == At(v, top + i, left + j) <==> fits)
  }

  lemma LeadsTrans(v: View, v1: View, v2: View, r: Rect, r': Rect, fits: bool, fits': bool)
    requires Leads(v, v1, r.top, r.left, fits) && Leads(v1, v2, r'.top, r'.left, fits')
    ensures Leads(v, v2, r.top + r'.top, r.left + r'.left, fits && fits')
  {
    forall i: nat, j: nat
      ensures At(v2, i, j) <= At(v, r.top + r'.top + i, r.left + r'.left + j)
      ensures At(v2, i, j) == At(v, r.top + r'.top + i, r.left + r'.left + j) <==> fits && fits'
    {
      assert r.top + (r'.top + i) == r.top + r'.top + i && r.left + (r'.left + j) == r.left + r'.left + j;
      assert At(v1, r'.top + i, r'.left + j) <= At(v, r.top + (r'.top + i), r.left + (r'.left + j));
    }
  }

  lemma SubArrayLeads(v: View, b: Bounds)
    requires Sized(v) && v.rows < 0x8000_0000 && v.cols < 0x8000_0000 && AreInts(b) && BoundsInside(v.rows, v.cols, b)
    ensures SubArray(v, b).Some?
    ensures Leads(v, SubArray(v, b).value, FromEnd(b.fromRow, v.rows), FromEnd(b.fromCol, v.cols), RowFits(v, b))
  {
    SubArrayExactly(v, b);
    forall i: nat, j: nat
      ensures var v', there := SubArray(v, b).value,
          At(v, FromEnd(b.fromRow, v.rows) + i, FromEnd(b.fromCol, v.cols) + j);
        At(v', i, j) <= there && (At(v', i, j) == there <==> RowFits(v, b))
    {
      SubArrayShifts(v, b, i, j);
    }
  }

  // How much a chain leaves.
  lemma {:induction false} ChainSize(v: View, slices: seq<Bounds>)
    requires Sized(v) && v.rows < 0x8000_0000 && v.cols < 0x8000_0000
    requires forall k :: 0 <= k < |slices| ==> AreInts(slices[k])
    ensures Chain(v, slices).Some? <==> ChainRect(v.rows, v.cols, slices).Some?
    ensures Chain(v, slices).Some? ==>
      var v', r := Chain(v, slices).value, ChainRect(v.rows, v.cols, slices).value;
      v'.rows == r.rows && v'.cols == r.cols && v'.baseCols == v.baseCols
    decreases |slices|
  {
    if slices != [] {
      SubArrayExactly(v, slices[0]);
      if BoundsInside(v.rows, v.cols, slices[0]) { ChainSize(SubArray(v, slices[0]).value, slices[1..]); }
    }
  }

  // And where it leads.
  lemma {:induction false} ChainLeads(v: View, slices: seq<Bounds>)
    requires Sized(v) && v.rows < 0x8000_0000 && v.cols < 0x8000_0000
    requires forall k :: 0 <= k < |slices| ==> AreInts(slices[k])
    requires Chain(v, slices).Some? && ChainRect(v.rows, v.cols, slices).Some?
    ensures var r := ChainRect(v.rows, v.cols, slices).value;
      Leads(v, Chain(v, slices).value, r.top, r.left, ChainFits(v, slices))
    decreases |slices|
  {
    if slices != [] {
      SubArrayExactly(v, slices[0]);
      var v' := SubArray(v, slices[0]).value;
      var first := Rect(FromEnd(slices[0].fromRow, v.rows), FromEnd(slices[0].fromCol, v.cols), v'.rows, v'.cols);
      var rest := ChainRect(v'.rows, v'.cols, slices[1..]).value;
      ChainLeads(v', slices[1..]);
      SubArrayLeads(v, slices[0]);
      LeadsTrans(v, v', Chain(v, slices).value, first, rest, RowFits(v, slices[0]), ChainFits(v', slices[1..]));
    }
  }

  // The same along chains: accepted exactly if every slice is inside the one before, with the
  // rectangle's rows and columns; and every element is the one of the rectangle exactly if every
  // row offset on the way fits 32 bits.
  lemma ChainExactly(v: View, slices: seq<Bounds>, i: nat, j: nat)
    requires Sized(v) && v.rows < 0x8000_0000 && v.cols < 0x8000_0000
    requires forall k :: 0 <= k < |slices| ==> AreInts(slices[k])
    ensures Chain(v, slices).Some? <==> ChainRect(v.rows, v.cols, slices).Some?
    ensures Chain(v, slices).Some? ==>
      var v', r := Chain(v, slices).value, ChainRect(v.rows, v.cols, slices).value;
      && v'.rows == r.rows && v'.cols == r.cols && v'.baseCols == v.baseCols
      && At(v', i, j) <= At(v, r.top + i, r.left + j)
      && (At(v', i, j) == At(v, r.top + i, r.left + j) <==> ChainFits(v, slices))
  {
    ChainSize(v, slices);
    if Chain(v, slices).Some? { ChainLeads(v, slices); }
  }

  // A base array of fewer than 2^32 cells never gets there.
  lemma SmallBaseShifts(v: View, b: Bounds, baseRows: nat, r: nat, c: nat)
    requires Sized(v) && AreInts(b) && SubArray(v, b).Some?
    requires Within(v, baseRows, r, c) && baseRows * v.baseCols < WRAP32
    ensures SliceIndices(b.fromRow, b.toRow, v.rows).value.from * v.baseCols < WRAP32
  {
    SliceInside(b.fromRow, b.toRow, v.rows);
    MulMono(SliceIndices(b.fromRow, b.toRow, v.rows).value.from, baseRows, v.baseCols);
  }

  // ---------------------------------------------------------------- the iterator

  // _pRowEnd is null for a contiguous view.
  datatype Position = Position(p: int, rowEnd: Option<int>)

  function Begin(v: View): Position { Position(v.data, if v.cols == v.baseCols then None else Some(v.data + v.cols)) }

  // end() as a pointer, which is all that is compared.
  function End(v: View): int { RowBegin(v, if v.cols > 0 then v.rows else 0) }

  function Increment(v: View, s: Position): Position {
    var p := s.p + 1;
    if s.rowEnd == Some(p) then Position(p + v.baseCols - v.cols, Some(p + v.baseCols)) else Position(p, s.rowEnd)
  }

  function Decrement(v: View, s: Position): Position {
    if s.rowEnd.Some? && s.rowEnd.value - s.p == v.cols
    then Position(s.rowEnd.value - v.baseCols - 1, Some(s.rowEnd.value - v.baseCols))
    else Position(s.p - 1, s.rowEnd)
  }

  // The iterator on the element (i, j); (rows, 0) is one past the last.
  function On(v: View, i: nat, j: nat): Position {
    Position(At(v, i, j), if v.cols == v.baseCols then None else Some(RowBegin(v, i) + v.cols))
  }

  // The next element row by row.
  function NextElement(v: View, i: nat, j: nat): (nat, nat) { if j + 1 < v.cols then (i, j + 1) else (i + 1, 0) }

  lemma IncrementMoves(v: View, i: nat, j: nat)
    requires j < v.cols <= v.baseCols
    ensures Increment(v, On(v, i, j)) == On(v, NextElement(v, i, j).0, NextElement(v, i, j).1)
  {
    assert (i + 1) * v.baseCols == i * v.baseCols + v.baseCols;
  }

  lemma DecrementUndoes(v: View, i: nat, j: nat)
    requires j < v.cols <= v.baseCols
    ensures Decrement(v, Increment(v, On(v, i, j))) == On(v, i, j)
  {
    IncrementMoves(v, i, j);
    assert (i + 1) * v.baseCols == i * v.baseCols + v.baseCols;
  }

  function Incremented(v: View, k: nat): Position {
    if k == 0 then Begin(v) else Increment(v, Incremented(v, k - 1))
  }

  // The element that comes k-th, row by row.
  function Element(v: View, k: nat): (nat, nat)
    requires v.cols > 0
  {
    if k == 0 then (0, 0) else NextElement(v, Element(v, k - 1).0, Element(v, k - 1).1)
  }

  lemma {:induction false} ElementCounts(v: View, k: nat)
    requires v.cols > 0
    ensures Element(v, k).1 < v.cols && k == Element(v, k).0 * v.cols + Element(v, k).1
  {
    if k > 0 {
      ElementCounts(v, k - 1);
      var (i, j) := Element(v, k - 1);
      assert (i + 1) * v.cols == i * v.cols + v.cols;
    }
  }

  // k increments from begin() land on element k; as many as there are elements land on end().
  lemma {:induction false} IncrementedIs(v: View, k: nat)
    requires 0 < v.cols <= v.baseCols
    ensures Incremented(v, k) == On(v, Element(v, k).0, Element(v, k).1)
  {
    if k == 0 {
      assert 0 * v.baseCols == 0;
    } else {
      IncrementedIs(v, k - 1);
      ElementCounts(v, k - 1);
      IncrementMoves(v, Element(v, k - 1).0, Element(v, k - 1).1);
    }
  }

  lemma IncrementedToEnd(v: View, k: nat)
    requires v.cols <= v.baseCols && k <= v.rows * v.cols
    ensures Incremented(v, k).p == End(v) <==> k == v.rows * v.cols
  {
    if v.cols > 0 {
      IncrementedIs(v, k);
      ElementCounts(v, k);
      var (i, j) := Element(v, k);
      RowOf(v.cols, i, j, v.rows);
      if i < v.rows {
        assert (i + 1) * v.baseCols == i * v.baseCols + v.baseCols;
        MulMono(i + 1, v.rows, v.baseCols);
      }
    } else {
      assert v.rows * v.cols == 0 && 0 * v.baseCols == 0;
    }
  }

  // Counting row by row, (i, j) comes before (rows, 0) exactly if its row does.
  lemma RowOf(cols: nat, i: nat, j: nat, rows: nat)
    requires j < cols
    ensures i < rows <==> i * cols + j < rows * cols
    ensures i * cols + j == rows * cols ==> i == rows && j == 0
  {
    assert (i + 1) * cols == i * cols + cols && (rows + 1) * cols == rows * cols + cols;
    if i < rows { MulMono(i + 1, rows, cols); }
    if i > rows { MulMono(rows + 1, i, cols); }
    if i == rows { assert i * cols == rows * cols; }
  }

  class ExcelArrayIterator {
    var p: int
    var pRowEnd: Option<int>
    const nCols: nat
    const baseNumCols: nat

    ghost function State(): Position
      reads this
    {
      Position(p, pRowEnd)
    }

    constructor (position: int, nCols: nat, baseNumCols: nat)
      ensures p == position && pRowEnd == (if nCols == baseNumCols then None else Some(position + nCols))
      ensures this.nCols == nCols && this.baseNumCols == baseNumCols
    {
      p := position;
      pRowEnd := if nCols == baseNumCols then None else Some(position + nCols);
      this.nCols, this.baseNumCols := nCols, baseNumCols;
    }

    method Next(ghost v: View)
      requires v.cols == nCols <= v.baseCols == baseNumCols
      modifies this
      ensures State() == Increment(v, old(State()))
    {
      p := p + 1;
      if pRowEnd == Some(p) {
        p := p + (baseNumCols - nCols);
        pRowEnd := Some(pRowEnd.value + baseNumCols);
      }
    }

    method Previous(ghost v: View)
      requires v.cols == nCols <= v.baseCols == baseNumCols
      modifies this
      ensures State() == Decrement(v, old(State()))
    {
      if pRowEnd.Some? && pRowEnd.value - p == nCols {
        pRowEnd := Some(pRowEnd.value - baseNumCols);
        p := pRowEnd.value - 1;
      } else {
        p := p - 1;
      }
    }
  }

  // A loop over the view, with so many elements behind it.
  ghost predicate Visiting(v: View, cells: seq<int>, at: Position) {
    && |cells| <= v.rows * v.cols && at == Incremented(v, |cells|)
    && (at.p == End(v) <==> |cells| == v.rows * v.cols)
    && forall k: nat :: k < |cells| ==> v.cols > 0 && cells[k] == At(v, Element(v, k).0, Element(v, k).1)
  }

  lemma VisitingNext(v: View, cells: seq<int>, at: Position)
    requires v.cols <= v.baseCols && Visiting(v, cells, at) && at.p != End(v)
    ensures Visiting(v, cells + [at.p], Increment(v, at))
  {
    assert v.cols == 0 ==> v.rows * v.cols == 0;
    IncrementedIs(v, |cells|);
    IncrementedToEnd(v, |cells| + 1);
  }

  // A loop from begin() until end() visits every element of the view once, row by row.
  method VisitAll(v: View) returns (cells: seq<int>)
    requires v.cols <= v.baseCols
    ensures |cells| == v.rows * v.cols
    ensures forall k: nat :: k < |cells| ==> v.cols > 0 && cells[k] == At(v, Element(v, k).0, Element(v, k).1)
  {
    cells := [];
    var it := new ExcelArrayIterator(v.data, v.cols, v.baseCols);
    var end := v.data + (if v.cols > 0 then v.rows else 0) * v.baseCols;
    IncrementedToEnd(v, 0);
    while it.p != end
      invariant it.nCols == v.cols && it.baseNumCols == v.baseCols && Visiting(v, cells, it.State())
      decreases v.rows * v.cols - |cells|
    {
      VisitingNext(v, cells, it.State());
      cells := cells + [it.p];
      it.Next(v);
    }
  }

  // On a whole worksheet of 2^20 by 2^14 cells, the slice from row 2^18 on starts at row 0.
  lemma WorksheetSliceExample()
    ensures var v := Whole(0x10_0000, 0x4000);
      var s := SubArray(v, Bounds(0x4_0000, 0, 0x10_0000, 0x4000));
      s.Some? && At(s.value, 0, 0) == At(v, 0, 0) && At(v, 0x4_0000, 0) == WRAP32
  {
  }
}
