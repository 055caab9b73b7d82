/**
 The cell-keyed cache of include/xloil/ObjectCache.h.  A cell holds the objects added to it in
 its latest calculation cycle; the reference string handed out ends in a character that says
 which of them is meant.  Objects are named by numbers.
 */
module ObjectCache {
  import opened Basics

  // held: _obj and then _objects.
  datatype Cell = Cell(calcId: nat, held: seq<nat>)

  datatype Cache = Cache(cells: map<string, Cell>, calcId: nat)

  const UNIQUIFIER: char := 0xC38 as char
  const PADDING := 2
  const WRAP: nat := 0x1_0000_0000_0000_0000   // size_t
  const Empty := Cache(map[], 1)

  // The cell's address and the optional name, behind the uniquifier.
  function CacheKey(cell: string): string { [UNIQUIFIER] + cell }

  // writeCount: the position goes through a uint8_t.
  function Reference(cell: string, index: nat): string { CacheKey(cell) + [',', (65 + index % 256) as char] }

  function AddToCell(c: Cell, obj: nat, calcId: nat): Cell {
    if c.calcId != calcId then Cell(calcId, [obj]) else Cell(calcId, c.held + [obj])
  }

  function FetchFromCell(c: Cell, i: int): Option<nat> { if 0 <= i < |c.held| then Some(c.held[i]) else None }

  // The position that the next object added to the cell gets.
  function NextIndex(c: Cache, cell: string): nat {
    var key := CacheKey(cell);
    if key in c.cells && c.cells[key].calcId == c.calcId then |c.cells[key].held| else 0
  }

  function Add(c: Cache, cell: string, obj: nat): Cache {
    var key := CacheKey(cell);
    c.(cells := c.cells[key :=
      if key in c.cells then AddToCell(c.cells[key], obj, c.calcId) else Cell(c.calcId, [obj])])
  }

  function Fetch(c: Cache, key: string): Option<nat> {
    if |key| < PADDING then None
    else
      var cacheKey := key[..|key| - PADDING];
      if cacheKey in c.cells then FetchFromCell(c.cells[cacheKey], key[|key| - 1] as int - 65) else None
  }

  // string_view::substr with a length that has wrapped takes the whole string.
  function ErasedKey(key: string): string { if |key| < PADDING then key else key[..|key| - PADDING] }

  function Erase(c: Cache, key: string): Cache { c.(cells := c.cells - {ErasedKey(key)}) }

  function AfterCalculate(c: Cache): Cache { c.(calcId := (c.calcId + 1) % WRAP) }

  // wcsncmp from the third character of the cache key on.
  predicate Matches(book: string, cacheKey: string) { |cacheKey| >= 2 && book <= cacheKey[2..] }

  function CloseWorkbook(c: Cache, book: string): Cache {
    c.(cells := map k | k in c.cells && !Matches(book, k) :: c.cells[k])
  }

  // ---------------------------------------------------------------- the objects themselves

  class CellCache {
    var calcId: nat
    var objects: seq<nat>
    var obj: nat

    ghost function State(): Cell
      reads this
    {
      Cell(calcId, [obj] + objects)
    }

    constructor (obj: nat, calcId: nat)
      ensures State() == Cell(calcId, [obj])
    {
      this.calcId, this.obj, this.objects := calcId, obj, [];
    }

    method Insert(o: nat, id: nat) returns (size: nat)
      modifies this
      ensures State() == AddToCell(old(State()), o, id)
      ensures size == if old(calcId) != id then 0 else |old(State()).held|
    {
      if calcId != id {
        obj := o;
        calcId := id;
        objects := [];
      } else {
        objects := objects + [o];
      }
      size := |objects|;
    }

    method At(i: int) returns (r: Option<nat>)
      ensures r == FetchFromCell(State(), i)
    {
      if i == 0 { return Some(obj); }
      if 0 < i <= |objects| { return Some(objects[i - 1]); }
      return None;
    }
  }

  class ObjectCache {
    var cache: map<string, CellCache>
    var calcId: nat

    ghost function Cells(): set<object>
      reads this
    {
      set k | k in cache :: cache[k]
    }

    // Every cell has an entry of its own.
    ghost predicate Valid()
      reads this
    {
      forall j, k :: j in cache && k in cache && cache[j] == cache[k] ==> j == k
    }

    ghost function State(): Cache
      reads this, Cells()
    {
      Cache(map k | k in cache :: cache[k].State(), calcId)
    }

    constructor ()
      ensures Valid() && State() == Empty
    {
      cache := map[];
      calcId := 1;
    }

    method FetchObject(key: string) returns (r: Option<nat>)
      requires Valid()
      ensures r == Fetch(State(), key)
    {
      if |key| < PADDING { return None; }
      var cacheKey := key[..|key| - PADDING];
      if cacheKey !in cache { return None; }
      r := cache[cacheKey].At(key[|key| - 1] as int - 65);
    }

    method AddObject(cell: string, obj: nat) returns (reference: string)
      requires Valid()
      modifies this, Cells()
      ensures Valid() && fresh(Cells() - old(Cells()))
      ensures State() == Add(old(State()), cell, obj)
      ensures reference == Reference(cell, NextIndex(old(State()), cell))
    {
      var key := CacheKey(cell);
      var index := 0;
      if key !in cache {
        var entry := new CellCache(obj, calcId);
        cache := cache[key := entry];
      } else {
        index := cache[key].Insert(obj, calcId);
      }
      reference := Reference(cell, index);
      assert State().cells.Keys == Add(old(State()), cell, obj).cells.Keys;
    }

    method EraseObject(key: string) returns (erased: bool)
      requires Valid()
      modifies this`cache
      ensures Valid() && Cells() <= old(Cells())
      ensures State() == Erase(old(State()), key)
      ensures erased <==> ErasedKey(key) in old(cache)
    {
      var cacheKey := ErasedKey(key);
      erased := cacheKey in cache;
      cache := cache - {cacheKey};
    }

    method OnAfterCalculate()
      requires Valid()
      modifies this`calcId
      ensures Valid() && State() == AfterCalculate(old(State()))
    {
      calcId := (calcId + 1) % WRAP;
    }

    method OnWorkbookClose(book: string)
      requires Valid()
      modifies this`cache
      ensures Valid() && Cells() <= old(Cells())
      ensures State() == CloseWorkbook(old(State()), book)
    {
      var rest := cache.Keys;
      while rest != {}
        invariant rest <= old(cache).Keys
        invariant cache.Keys == set k | k in old(cache) && (k in rest || !Matches(book, k))
        invariant forall k :: k in cache ==> cache[k] == old(cache)[k]
      {
        var k :| k in rest;
        if Matches(book, k) {
          cache := cache - {k};
        }
        rest := rest - {k};
      }
    }
  }
}
