/**
 Which tables a header or a key-value pair changes, exactly; and so how far inline tables, which
 TOML closes at their braces, stay closed.
 */
module TomlTreeChanges {
  import opened Basics
  import opened TomlTables
  import opened TomlTreeSafety
  import opened TomlTreeMeaning

  // ---------------------------------------------------------------- steps

  // Only the one table, and nodes that were not there before, differ.
  ghost predicate ChangesOnly(d: Doc, d': Doc, table: nat) {
    forall id :: id in d.nodes && id != table ==> id in d'.nodes && d'.nodes[id] == d.nodes[id]
  }

  ghost predicate Untouching(d: Doc, d': Doc) {
    forall id :: id in d.nodes ==> id in d'.nodes && d'.nodes[id] == d.nodes[id]
  }

  lemma HeaderStepChanges(d: Doc, parent: nat, segment: string)
    requires Good(d) && IsTable(d, parent) && Get(d, parent, segment).None?
    ensures var r := HeaderStep(d, parent, segment);
      r.Ok? && r.value.1 == d.next && ChangesOnly(d, r.value.0, parent) && Bare(r.value.0, d.next)
      && r.value.0.nodes[parent] != d.nodes[parent]
  {
    var d' := HeaderStep(d, parent, segment).value.0;
    assert segment in d'.nodes[parent].entries;
  }

  lemma DottedStepChanges(d: Doc, table: nat, segment: string)
    requires Good(d) && IsTable(d, table) && Get(d, table, segment).None?
    ensures var r := DottedStep(d, table, segment);
      r.Ok? && r.value.1 == d.next && ChangesOnly(d, r.value.0, table) && Bare(r.value.0, d.next)
      && r.value.0.nodes[table] != d.nodes[table]
  {
    var d' := DottedStep(d, table, segment).value.0;
    assert segment in d'.nodes[table].entries;
  }

  // Once the walk is in a new table it stays in new ones.
  lemma {:induction false} BareHeaderWalkChanges(d: Doc, table: nat, segments: seq<string>)
    requires Good(d) && Bare(d, table)
    ensures var r := HeaderWalk(d, table, segments);
      r.Ok? && ChangesOnly(d, r.value.0, table) && Bare(r.value.0, r.value.1)
        && (r.value.1 == table || r.value.1 !in d.nodes)
    decreases |segments|
  {
    if segments != [] {
      HeaderStepKept(d, table, segments[0]);
      HeaderStepChanges(d, table, segments[0]);
      var d1 := HeaderStep(d, table, segments[0]).value.0;
      BareHeaderWalkChanges(d1, d.next, segments[1..]);
    }
  }

  lemma {:induction false} BareDottedWalkChanges(d: Doc, table: nat, segments: seq<string>)
    requires Good(d) && Bare(d, table)
    ensures var r := DottedWalk(d, table, segments);
      r.Ok? && ChangesOnly(d, r.value.0, table) && Bare(r.value.0, r.value.1)
        && (r.value.1 == table || r.value.1 !in d.nodes)
    decreases |segments|
  {
    if segments != [] {
      DottedStepKept(d, table, segments[0]);
      DottedStepChanges(d, table, segments[0]);
      var d1 := DottedStep(d, table, segments[0]).value.0;
      BareDottedWalkChanges(d1, d.next, segments[1..]);
    }
  }

  // ---------------------------------------------------------------- headers

  // The path of the first n segments leads to the table, and the next segment is not in it.
  ghost predicate LeavesAt(d: Doc, table: nat, segments: seq<string>, n: int, t: nat) {
    0 <= n < |segments| && Resolve(d, table, segments[..n]) == Some(t) && Get(d, t, segments[n]).None?
  }

  ghost predicate Leaves(d: Doc, table: nat, segments: seq<string>, t: nat) {
    exists n :: LeavesAt(d, table, segments, n, t)
  }

  lemma LeavesFirst(d: Doc, table: nat, segments: seq<string>, t: nat)
    requires segments != [] && Get(d, table, segments[0]).None?
    ensures Leaves(d, table, segments, t) <==> t == table
  {
    assert segments[..0] == [];
    assert LeavesAt(d, table, segments, 0, table);
    forall n | 0 < n < |segments|
      ensures Resolve(d, table, segments[..n]).None?
    {
      assert segments[..n][0] == segments[0];
    }
    if n :| LeavesAt(d, table, segments, n, t) { assert n == 0; }
  }

  lemma LeavesLater(d: Doc, table: nat, segments: seq<string>, child: nat, next: nat, t: nat)
    requires segments != [] && Get(d, table, segments[0]) == Some(child) && Through(d, child) == Some(next)
    ensures Leaves(d, table, segments, t) <==> Leaves(d, next, segments[1..], t)
  {
    forall n | 0 < n < |segments| ensures Resolve(d, table, segments[..n]) == Resolve(d, next, segments[1..][..n - 1]) {
      assert segments[..n][0] == segments[0] && segments[..n][1..] == segments[1..][..n - 1];
    }
    if n :| LeavesAt(d, table, segments, n, t) {
      assert segments[..0] == [];
      assert LeavesAt(d, next, segments[1..], n - 1, t);
    }
    if n :| LeavesAt(d, next, segments[1..], n, t) { assert LeavesAt(d, table, segments, n + 1, t); }
  }

  lemma {:induction false} HeaderWalkChanges(d: Doc, table: nat, segments: seq<string>, t: nat)
    requires Good(d) && IsTable(d, table) && IsTable(d, t) && HeaderWalk(d, table, segments).Ok?
    ensures NodeAt(HeaderWalk(d, table, segments).value.0, t) != NodeAt(d, t) <==> Leaves(d, table, segments, t)
    ensures Resolve(d, table, segments).None? ==>
      HeaderWalk(d, table, segments).value.1 !in d.nodes
      && Bare(HeaderWalk(d, table, segments).value.0, HeaderWalk(d, table, segments).value.1)
    decreases |segments|
  {
    if segments != [] {
      match Get(d, table, segments[0])
      case None =>
        HeaderStepKept(d, table, segments[0]);
        HeaderStepChanges(d, table, segments[0]);
        var d1 := HeaderStep(d, table, segments[0]).value.0;
        BareHeaderWalkChanges(d1, d.next, segments[1..]);
        LeavesFirst(d, table, segments, t);
      case Some(child) =>
        HeaderStepThrough(d, table, segments[0], child);
        HeaderStepKept(d, table, segments[0]);
        var next := Through(d, child).value;
        LeavesLater(d, table, segments, child, next, t);
        HeaderWalkChanges(d, next, segments[1..], t);
    }
  }

  lemma HeaderEndChanges(d: Doc, parent: nat, key: string, isArray: bool, t: nat)
    requires Good(d) && IsTable(d, parent) && IsTable(d, t) && HeaderEnd(d, parent, key, isArray).Ok?
    ensures NodeAt(HeaderEnd(d, parent, key, isArray).value.0, t) != NodeAt(d, t) <==>
      t == parent && Get(d, parent, key).None?
  {
    var d' := HeaderEnd(d, parent, key, isArray).value.0;
    if Get(d, parent, key).None? { assert key in d'.nodes[parent].entries; }
  }

  lemma LeavesAtEnd(d: Doc, key: seq<string>, t: nat)
    requires key != []
    ensures Leaves(d, ROOT, key, t) <==>
      Leaves(d, ROOT, key[..|key| - 1], t) || LeavesAt(d, ROOT, key, |key| - 1, t)
  {
    var segments := key[..|key| - 1];
    forall n | 0 <= n < |segments| ensures LeavesAt(d, ROOT, key, n, t) <==> LeavesAt(d, ROOT, segments, n, t) {
      assert key[..n] == segments[..n];
    }
    if n :| LeavesAt(d, ROOT, key, n, t) { assert n < |segments| ==> LeavesAt(d, ROOT, segments, n, t); }
    if n :| LeavesAt(d, ROOT, segments, n, t) { assert LeavesAt(d, ROOT, key, n, t); }
  }

  // An accepted header changes a table exactly if its path comes to that table and goes on with
  // a segment that is not in it.
  lemma HeaderChangesExactly(d: Doc, key: seq<string>, isArray: bool, t: nat)
    requires Good(d) && key != [] && ParseHeader(d, key, isArray).Ok? && IsTable(d, t)
    ensures NodeAt(ParseHeader(d, key, isArray).value.0, t) != NodeAt(d, t) <==> Leaves(d, ROOT, key, t)
  {
    var segments := key[..|key| - 1];
    var last := key[|key| - 1];
    HeaderWalkKept(d, ROOT, segments);
    HeaderWalkChanges(d, ROOT, segments, t);
    HeaderWalkExact(d, ROOT, segments);
    LeavesAtEnd(d, key, t);
    var walk := HeaderWalk(d, ROOT, segments);
    HeaderEndChanges(walk.value.0, walk.value.1, last, isArray, t);
  }

  // So a header adds to an inline table exactly if it names something new through it.
  lemma HeaderExtendsInlineExactly(items: seq<Item>, key: seq<string>, isArray: bool, t: nat)
    requires key != [] && Run(items).Ok? && Run(items + [HeaderItem(key, isArray)]).Ok?
    requires t in Run(items).value.0.nodes && OriginOf(Run(items).value.0, t).Inline?
    ensures NodeAt(Run(items + [HeaderItem(key, isArray)]).value.0, t) != NodeAt(Run(items).value.0, t) <==>
      Leaves(Run(items).value.0, ROOT, key, t)
  {
    DocumentSafe(items);
    var d := Run(items).value.0;
    assert (items + [HeaderItem(key, isArray)])[..|items|] == items;
    HeaderChangesExactly(d, key, isArray, t);
  }

  // ---------------------------------------------------------------- pairs

  ghost predicate PartsAt(d: Doc, table: nat, key: seq<string>, n: int, t: nat) {
    0 <= n < |key| && Lookup(d, table, key[..n]) == Some(t) && Get(d, t, key[n]).None?
  }

  // The first part of the key leads to the table, and the next segment is not in it.
  ghost predicate Parts(d: Doc, table: nat, key: seq<string>, t: nat) { exists n :: PartsAt(d, table, key, n, t) }

  lemma PartsFirst(d: Doc, table: nat, key: seq<string>, t: nat)
    requires key != [] && Get(d, table, key[0]).None?
    ensures Parts(d, table, key, t) <==> t == table
  {
    assert key[..0] == [];
    assert PartsAt(d, table, key, 0, table);
    forall n | 0 < n < |key| ensures Lookup(d, table, key[..n]).None? { assert key[..n][0] == key[0]; }
    if n :| PartsAt(d, table, key, n, t) { assert n == 0; }
  }

  lemma PartsLater(d: Doc, table: nat, key: seq<string>, child: nat, t: nat)
    requires key != [] && Get(d, table, key[0]) == Some(child)
    ensures Parts(d, table, key, t) <==> Parts(d, child, key[1..], t)
  {
    forall n | 0 < n < |key| ensures Lookup(d, table, key[..n]) == Lookup(d, child, key[1..][..n - 1]) {
      assert key[..n][0] == key[0] && key[..n][1..] == key[1..][..n - 1];
    }
    if n :| PartsAt(d, table, key, n, t) {
      assert key[..0] == [];
      assert PartsAt(d, child, key[1..], n - 1, t);
    }
    if n :| PartsAt(d, child, key[1..], n, t) { assert PartsAt(d, table, key, n + 1, t); }
  }

  lemma {:induction false} DottedWalkChanges(d: Doc, table: nat, segments: seq<string>, t: nat)
    requires Good(d) && IsTable(d, table) && IsTable(d, t) && DottedWalk(d, table, segments).Ok?
    ensures NodeAt(DottedWalk(d, table, segments).value.0, t) != NodeAt(d, t) <==> Parts(d, table, segments, t)
    ensures Lookup(d, table, segments).None? ==> DottedWalk(d, table, segments).value.1 !in d.nodes
    decreases |segments|
  {
    if segments != [] {
      match Get(d, table, segments[0])
      case None =>
        DottedStepKept(d, table, segments[0]);
        DottedStepChanges(d, table, segments[0]);
        var d1 := DottedStep(d, table, segments[0]).value.0;
        BareDottedWalkChanges(d1, d.next, segments[1..]);
        PartsFirst(d, table, segments, t);
      case Some(child) =>
        DottedStepKept(d, table, segments[0]);
        PartsLater(d, table, segments, child, t);
        DottedWalkChanges(d, child, segments[1..], t);
    }
  }

  lemma PartsAtEnd(d: Doc, table: nat, key: seq<string>, t: nat)
    requires key != []
    ensures Parts(d, table, key, t) <==>
      Parts(d, table, key[..|key| - 1], t) || PartsAt(d, table, key, |key| - 1, t)
  {
    var segments := key[..|key| - 1];
    forall n | 0 <= n < |segments| ensures PartsAt(d, table, key, n, t) <==> PartsAt(d, table, segments, n, t) {
      assert key[..n] == segments[..n];
    }
    if n :| PartsAt(d, table, key, n, t) { assert n < |segments| ==> PartsAt(d, table, segments, n, t); }
    if n :| PartsAt(d, table, segments, n, t) { assert PartsAt(d, table, key, n, t); }
  }

  lemma EmplaceChanges(d: Doc, table: nat, key: string, child: nat, t: nat)
    requires IsTable(d, table) && Get(d, table, key).None? && IsTable(d, t)
    ensures NodeAt(Emplace(d, table, key, child), t) != NodeAt(d, t) <==> t == table
  {
    assert key in Emplace(d, table, key, child).nodes[table].entries;
  }

  lemma InsertValueChanges(d: Doc, table: nat, key: seq<string>, value: nat, t: nat)
    requires Good(d) && IsTable(d, table) && IsTable(d, t) && key != [] && InsertValue(d, table, key, value).Ok?
    ensures NodeAt(InsertValue(d, table, key, value).value, t) != NodeAt(d, t) <==> Parts(d, table, key, t)
  {
    var segments := key[..|key| - 1];
    DottedWalkKept(d, table, segments);
    DottedWalkChanges(d, table, segments, t);
    DottedWalkExact(d, table, segments);
    PartsAtEnd(d, table, key, t);
    var walk := DottedWalk(d, table, segments).value;
    EmplaceChanges(walk.0, walk.1, key[|key| - 1], value, t);
  }

  // Building a value moves no path.
  lemma {:induction false} LookupUntouched(d: Doc, d': Doc, table: nat, key: seq<string>)
    requires Closed(d) && Untouching(d, d') && table in d.nodes
    ensures Lookup(d', table, key) == Lookup(d, table, key)
    decreases |key|
  {
    if key != [] && Get(d, table, key[0]).Some? {
      LookupUntouched(d, d', Get(d, table, key[0]).value, key[1..]);
    }
  }

  lemma {:induction false} LookupClosed(d: Doc, table: nat, key: seq<string>)
    requires Closed(d) && table in d.nodes && Lookup(d, table, key).Some?
    ensures Lookup(d, table, key).value in d.nodes
    decreases |key|
  {
    if key != [] { LookupClosed(d, Get(d, table, key[0]).value, key[1..]); }
  }

  lemma PartsUntouched(d: Doc, d': Doc, table: nat, key: seq<string>, t: nat)
    requires Closed(d) && Untouching(d, d') && table in d.nodes && t in d.nodes
    ensures Parts(d', table, key, t) <==> Parts(d, table, key, t)
  {
    forall n | 0 <= n < |key| ensures PartsAt(d', table, key, n, t) <==> PartsAt(d, table, key, n, t) {
      LookupUntouched(d, d', table, key[..n]);
    }
    if n :| PartsAt(d, table, key, n, t) { assert PartsAt(d', table, key, n, t); }
    if n :| PartsAt(d', table, key, n, t) { assert PartsAt(d, table, key, n, t); }
  }

  lemma BuiltUntouching(d: Doc, value: Value)
    requires Good(d) && BuildValue(d, value).Ok?
    ensures Untouching(d, BuildValue(d, value).value.0)
  {
    ValueFrame(d, value, 0);
  }

  // An accepted pair changes a table exactly if its key leads to it and parts from it there.
  lemma PairChangesExactly(d: Doc, table: nat, pair: Pair, t: nat)
    requires Good(d) && IsTable(d, table) && IsTable(d, t) && InsertPair(d, table, pair).Ok?
    ensures NodeAt(InsertPair(d, table, pair).value, t) != NodeAt(d, t) <==> Parts(d, table, pair.key, t)
  {
    ValueKept(d, pair.value);
    BuiltUntouching(d, pair.value);
    var (d', value) := BuildValue(d, pair.value).value;
    InsertValueChanges(d', table, pair.key, value, t);
    PartsUntouched(d, d', table, pair.key, t);
  }

  // A pair is accepted exactly if its value is, its key names nothing, and every leading part of
  // the key names nothing or a table that dotted keys made.
  lemma PairItemAcceptedExactly(d: Doc, table: nat, pair: Pair)
    requires Good(d) && IsTable(d, table) && pair.key != []
    ensures InsertPair(d, table, pair).Ok? <==>
      && BuildValue(d, pair.value).Ok?
      && Lookup(d, table, pair.key).None?
      && forall n :: 0 < n < |pair.key| ==> Passable(d, table, pair.key[..n])
  {
    if BuildValue(d, pair.value).Ok? {
      var key := pair.key;
      ValueKept(d, pair.value);
      BuiltUntouching(d, pair.value);
      var (d', value) := BuildValue(d, pair.value).value;
      PairAcceptedExactly(d', table, key, value);
      LookupUntouched(d, d', table, key);
      forall n | 0 < n < |key| ensures Passable(d', table, key[..n]) <==> Passable(d, table, key[..n]) {
        LookupUntouched(d, d', table, key[..n]);
        if Lookup(d, table, key[..n]).Some? { LookupClosed(d, table, key[..n]); }
      }
    }
  }

  // ---------------------------------------------------------------- values are closed to pairs

  // The nodes of values: inline tables, everything dotted keys made inside them, arrays, scalars.
  predicate InValue(o: Origin) { IsInner(o) || o.Plain? }

  // From a table outside values a dotted path stays outside.
  lemma {:induction false} PathOutside(d: Doc, table: nat, key: seq<string>)
    requires Good(d) && IsTable(d, table) && !InValue(OriginOf(d, table)) && Lookup(d, table, key).Some?
    requires forall n :: 0 < n <= |key| ==> Passable(d, table, key[..n])
    ensures !InValue(OriginOf(d, Lookup(d, table, key).value))
    decreases |key|
  {
    if key != [] {
      var child := Get(d, table, key[0]).value;
      assert key[..1][1..] == [] && key[..1][0] == key[0];
      assert Lookup(d, table, key[..1]) == Some(child) && Passable(d, table, key[..1]);
      assert InZone(OriginOf(d, table), OriginOf(d, child));
      PassableRest(d, table, key, child);
      PathOutside(d, child, key[1..]);
    }
  }

  lemma CurrentOutside(d: Doc, returned: seq<nat>)
    requires Good(d) && Returned(d, returned)
    ensures !InValue(OriginOf(d, Current(returned)))
  {
    if returned != [] { assert returned[|returned| - 1] in returned; }
  }

  // No pair of a document changes a node of a value that stands there, however deep: inline
  // tables, and the tables inside them, are closed to pairs.
  lemma ValuesClosedToPairs(items: seq<Item>, pair: Pair, id: nat)
    requires Run(items).Ok? && Run(items + [PairItem(pair)]).Ok?
    requires id in Run(items).value.0.nodes && InValue(OriginOf(Run(items).value.0, id))
    ensures NodeAt(Run(items + [PairItem(pair)]).value.0, id) == NodeAt(Run(items).value.0, id)
  {
    DocumentSafe(items);
    var d, returned := Run(items).value.0, Run(items).value.1;
    var table := Current(returned);
    assert (items + [PairItem(pair)])[..|items|] == items;
    CurrentIsTable(d, returned);
    CurrentOutside(d, returned);
    if IsTable(d, id) {
      PairChangesExactly(d, table, pair, id);
      PairItemAcceptedExactly(d, table, pair);
      if n :| PartsAt(d, table, pair.key, n, id) {
        var path := pair.key[..n];
        forall m | 0 < m <= |path| ensures Passable(d, table, path[..m]) { assert path[..m] == pair.key[..m]; }
        PathOutside(d, table, path);
        assert false;
      }
    } else {
      PairKept(d, table, pair);
      PairFrame(d, table, pair, 0);
    }
  }
}
