/**
 What the steps that build the tree mean: exactly when a header or a key-value pair is
 accepted, where what it adds can be found afterwards, and which tables it can change.
 */
module TomlTreeMeaning {
  import opened Basics
  import opened TomlTables
  import opened TomlTreeSafety

  // ---------------------------------------------------------------- looking up a dotted key

  function Lookup(d: Doc, table: nat, key: seq<string>): Option<nat>
    decreases |key|
  {
    if key == [] then Some(table)
    else match Get(d, table, key[0])
      case None => None
      case Some(child) => Lookup(d, child, key[1..])
  }

  lemma LookupSnoc(d: Doc, table: nat, key: seq<string>)
    requires key != []
    ensures Lookup(d, table, key) ==
      match Lookup(d, table, key[..|key| - 1])
      case None => None
      case Some(t) => Get(d, t, key[|key| - 1])
    decreases |key|
  {
    if |key| > 1 {
      match Get(d, table, key[0])
      case None =>
      case Some(child) =>
        LookupSnoc(d, child, key[1..]);
        assert key[1..][..|key| - 2] == key[..|key| - 1][1..];
    }
  }

  lemma LookupGrows(d: Doc, d': Doc, table: nat, key: seq<string>)
    requires Grows(d, d') && Lookup(d, table, key).Some?
    ensures Lookup(d', table, key) == Lookup(d, table, key)
    decreases |key|
  {
    if key != [] {
      var node := NodeAt(d, table);
      assert node.Table? && key[0] in node.entries && NodeGrows(node, d'.nodes[table]);
      LookupGrows(d, d', Get(d, table, key[0]).value, key[1..]);
    }
  }

  // A table that nothing has been put into.
  predicate Bare(d: Doc, table: nat) { table in d.nodes && d.nodes[table] == Table(map[]) }

  // The path so far names nothing, or a table that a dotted key made.
  ghost predicate Passable(d: Doc, table: nat, key: seq<string>) {
    match Lookup(d, table, key)
    case None => true
    case Some(t) => t in d.nodes && OriginOf(d, t).Dotted?
  }

  lemma BareWalk(d: Doc, table: nat, segments: seq<string>)
    requires Good(d) && Bare(d, table)
    ensures DottedWalk(d, table, segments).Ok?
    ensures Bare(DottedWalk(d, table, segments).value.0, DottedWalk(d, table, segments).value.1)
    decreases |segments|
  {
    if segments != [] {
      DottedStepKept(d, table, segments[0]);
      var (d', table') := DottedStep(d, table, segments[0]).value;
      assert d'.nodes[d.next] == Table(map[]);
      BareWalk(d', table', segments[1..]);
    }
  }

  // A walk either follows tables that are there, or leaves the path and ends in a new one.
  lemma {:induction false} DottedWalkExact(d: Doc, table: nat, segments: seq<string>)
    requires Good(d) && IsTable(d, table)
    ensures DottedWalk(d, table, segments).Ok? <==>
      forall n :: 0 < n <= |segments| ==> Passable(d, table, segments[..n])
    ensures DottedWalk(d, table, segments).Ok? && Lookup(d, table, segments).Some? ==>
      DottedWalk(d, table, segments) == Ok((d, Lookup(d, table, segments).value))
    ensures DottedWalk(d, table, segments).Ok? && Lookup(d, table, segments).None? ==>
      Bare(DottedWalk(d, table, segments).value.0, DottedWalk(d, table, segments).value.1)
    decreases |segments|
  {
    if segments != [] {
      match Get(d, table, segments[0])
      case None =>
        DottedStepKept(d, table, segments[0]);
        var (d', table') := DottedStep(d, table, segments[0]).value;
        assert d'.nodes[d.next] == Table(map[]);
        BareWalk(d', table', segments[1..]);
        forall n | 0 < n <= |segments| ensures Passable(d, table, segments[..n]) {
          assert segments[..n][0] == segments[0];
        }
      case Some(child) =>
        PassableRest(d, table, segments, child);
        assert Lookup(d, table, segments[..1]) == Some(child) by {
          assert segments[..1][0] == segments[0] && segments[..1][1..] == [];
        }
        assert child in d.nodes;
        if OriginOf(d, child).Dotted? {
          assert DottedStep(d, table, segments[0]) == Ok((d, child));
          DottedWalkExact(d, child, segments[1..]);
        } else {
          assert DottedStep(d, table, segments[0]) == Redefinition;
        }
    }
  }

  lemma PassableRest(d: Doc, table: nat, segments: seq<string>, child: nat)
    requires segments != [] && Get(d, table, segments[0]) == Some(child)
    ensures (forall n :: 0 < n <= |segments| ==> Passable(d, table, segments[..n])) <==>
      && Passable(d, table, segments[..1])
      && forall n :: 0 < n <= |segments[1..]| ==> Passable(d, child, segments[1..][..n])
  {
    forall n | 0 < n <= |segments| ensures Lookup(d, table, segments[..n]) == Lookup(d, child, segments[1..][..n - 1]) {
      assert segments[..n][1..] == segments[1..][..n - 1];
    }
    if forall n :: 0 < n <= |segments| ==> Passable(d, table, segments[..n]) {
      forall n | 0 < n <= |segments[1..]| ensures Passable(d, child, segments[1..][..n]) {
        assert Passable(d, table, segments[..n + 1]);
      }
    }
    if && Passable(d, table, segments[..1])
       && forall n :: 0 < n <= |segments[1..]| ==> Passable(d, child, segments[1..][..n])
    {
      forall n | 0 < n <= |segments| ensures Passable(d, table, segments[..n]) {
        if n > 1 { assert Passable(d, child, segments[1..][..n - 1]); }
      }
    }
  }

  // A pair is accepted exactly if its key names nothing yet and every leading part of the key
  // names nothing or a table that dotted keys made.
  lemma PairAcceptedExactly(d: Doc, table: nat, key: seq<string>, value: nat)
    requires Good(d) && IsTable(d, table) && key != [] && value in d.nodes
    ensures InsertValue(d, table, key, value).Ok? <==>
      Lookup(d, table, key).None? && forall n :: 0 < n < |key| ==> Passable(d, table, key[..n])
  {
    var segments := key[..|key| - 1];
    DottedWalkExact(d, table, segments);
    LookupSnoc(d, table, key);
    assert forall n :: 0 < n < |key| ==> key[..n] == segments[..n];
    if forall n :: 0 < n < |key| ==> Passable(d, table, key[..n]) {
      forall n | 0 < n <= |segments| ensures Passable(d, table, segments[..n]) {
        assert Passable(d, table, key[..n]);
      }
    }
    if DottedWalk(d, table, segments).Ok? {
      forall n | 0 < n < |key| ensures Passable(d, table, key[..n]) {
        assert Passable(d, table, segments[..n]);
      }
    }
  }

  lemma GetGrows(d: Doc, d': Doc, table: nat, key: string)
    requires Grows(d, d') && Get(d, table, key).Some?
    ensures Get(d', table, key) == Get(d, table, key)
  {
    assert NodeGrows(NodeAt(d, table), d'.nodes[table]);
  }

  lemma DottedStepFinds(d: Doc, table: nat, segment: string)
    requires Good(d) && IsTable(d, table) && DottedStep(d, table, segment).Ok?
    ensures var (d', table') := DottedStep(d, table, segment).value; Get(d', table, segment) == Some(table')
  {
  }

  lemma {:induction false} DottedWalkFinds(d: Doc, table: nat, segments: seq<string>)
    requires Good(d) && IsTable(d, table) && DottedWalk(d, table, segments).Ok?
    ensures Lookup(DottedWalk(d, table, segments).value.0, table, segments)
      == Some(DottedWalk(d, table, segments).value.1)
    decreases |segments|
  {
    if segments != [] {
      DottedStepKept(d, table, segments[0]);
      DottedStepFinds(d, table, segments[0]);
      var first := DottedStep(d, table, segments[0]);
      var d1, table1 := first.value.0, first.value.1;
      DottedWalkKept(d1, table1, segments[1..]);
      DottedWalkFinds(d1, table1, segments[1..]);
      GetGrows(d1, DottedWalk(d1, table1, segments[1..]).value.0, table, segments[0]);
    }
  }

  // What a pair adds is found under its key, in every later document too.
  lemma PairFound(d: Doc, table: nat, key: seq<string>, value: nat, later: Doc)
    requires Good(d) && IsTable(d, table) && key != [] && IsValue(d, value)
    requires InsertValue(d, table, key, value).Ok? && Grows(InsertValue(d, table, key, value).value, later)
    ensures Lookup(later, table, key) == Some(value)
  {
    var segments := key[..|key| - 1];
    var (d', table') := DottedWalk(d, table, segments).value;
    DottedWalkKept(d, table, segments);
    DottedWalkFinds(d, table, segments);
    ValueStays(d, d', value);
    EmplaceKept(d', table', key[|key| - 1], value);
    var d'' := InsertValue(d, table, key, value).value;
    LookupGrows(d', d'', table, segments);
    LookupSnoc(d'', table, key);
    LookupGrows(d'', later, table, key);
  }

  // ---------------------------------------------------------------- what a pair can change

  // No edge leads from a node at or after base to one before it.
  ghost predicate Above(d: Doc, base: nat) {
    forall id, k :: id in d.nodes && id >= base && d.nodes[id].Table? && k in d.nodes[id].entries ==>
      d.nodes[id].entries[k] >= base
  }

  // Apart from table, the nodes of d that differ in d' are tables that dotted keys made, not
  // before base.
  ghost predicate OnlyDotted(d: Doc, d': Doc, table: nat, base: nat) {
    && Above(d', base)
    && forall id :: id in d.nodes ==>
         id in d'.nodes && (d'.nodes[id] == d.nodes[id] || id == table || (id >= base && OriginOf(d, id).Dotted?))
  }

  lemma OnlyDottedTrans(a: Doc, b: Doc, c: Doc, table: nat, table': nat, base: nat)
    requires Kept(a, b) && OnlyDotted(a, b, table, base) && OnlyDotted(b, c, table', base)
    requires table' == table || (base <= table' && OriginOf(b, table').Dotted?)
    requires a.nodes.Keys == a.origins.Keys
    ensures OnlyDotted(a, c, table, base)
  {
    forall id | id in a.nodes
      ensures c.nodes[id] == a.nodes[id] || id == table || (id >= base && OriginOf(a, id).Dotted?)
    {
      assert id in b.nodes;
    }
  }

  lemma DottedStepFrame(d: Doc, table: nat, segment: string, base: nat)
    requires Good(d) && IsTable(d, table) && Above(d, base) && base <= table && DottedStep(d, table, segment).Ok?
    ensures var (d', table') := DottedStep(d, table, segment).value;
      OnlyDotted(d, d', table, base) && base <= table' && OriginOf(d', table').Dotted?
  {
    if Get(d, table, segment).None? {
      var inner := IsInner(OriginOf(d, table));
      var d1 := Make(d, Table(map[]), Dotted(inner)).(dottedKeyTables := d.dottedKeyTables + [d.next]);
      MakeDotted(d, inner, d1);
      assert Above(d1, base) && base <= d.next;
      EmplaceFrame(d1, table, segment, d.next, base);
    }
  }

  lemma {:induction false} DottedWalkFrame(d: Doc, table: nat, segments: seq<string>, base: nat)
    requires Good(d) && IsTable(d, table) && Above(d, base) && base <= table && DottedWalk(d, table, segments).Ok?
    ensures var (d', table') := DottedWalk(d, table, segments).value;
      OnlyDotted(d, d', table, base) && base <= table' && (table' == table || OriginOf(d', table').Dotted?)
    decreases |segments|
  {
    if segments != [] {
      DottedStepKept(d, table, segments[0]);
      DottedStepFrame(d, table, segments[0], base);
      var first := DottedStep(d, table, segments[0]);
      var d1, table1 := first.value.0, first.value.1;
      DottedWalkKept(d1, table1, segments[1..]);
      DottedWalkFrame(d1, table1, segments[1..], base);
      OnlyDottedTrans(d, d1, DottedWalk(d1, table1, segments[1..]).value.0, table, table1, base);
      var d2 := DottedWalk(d1, table1, segments[1..]).value.0;
      assert OriginOf(d2, table1).Dotted?;
    }
  }

  lemma EmplaceFrame(d: Doc, table: nat, key: string, child: nat, base: nat)
    requires Good(d) && IsTable(d, table) && Above(d, base) && base <= child
    ensures OnlyDotted(d, Emplace(d, table, key, child), table, base)
  {
  }

  lemma InsertValueFrame(d: Doc, table: nat, key: seq<string>, value: nat, base: nat)
    requires Good(d) && IsTable(d, table) && value in d.nodes && key != []
    requires Above(d, base) && base <= table && base <= value && InsertValue(d, table, key, value).Ok?
    ensures OnlyDotted(d, InsertValue(d, table, key, value).value, table, base)
  {
    var segments := key[..|key| - 1];
    DottedWalkKept(d, table, segments);
    DottedWalkFrame(d, table, segments, base);
    var walk := DottedWalk(d, table, segments);
    var d', table' := walk.value.0, walk.value.1;
    EmplaceFrame(d', table', key[|key| - 1], value, base);
    OnlyDottedTrans(d, d', InsertValue(d, table, key, value).value, table, table', base);
  }

  // Building a value changes no node that was there.
  ghost predicate Untouched(d: Doc, d': Doc, base: nat) {
    Above(d', base) && forall id :: id in d.nodes ==> id in d'.nodes && d'.nodes[id] == d.nodes[id]
  }

  lemma InlineUntouched(d: Doc, d': Doc, d'': Doc, base: nat)
    requires Good(d) && Above(d, base) && base <= d.next
    requires d' == Make(d, Table(map[]), Inline) && Kept(d', d'') && OnlyDotted(d', d'', d.next, d.next)
    ensures Untouched(d, d'', base)
  {
    forall id | id in d.nodes ensures d''.nodes[id] == d.nodes[id] {
      assert id in d'.nodes;
    }
    forall id, k | id in d''.nodes && id >= base && d''.nodes[id].Table? && k in d''.nodes[id].entries
      ensures d''.nodes[id].entries[k] >= base
    {
      if id < d.next { assert id in d'.nodes && d''.nodes[id] == d.nodes[id]; }
    }
  }

  lemma {:induction false} PairFrame(d: Doc, table: nat, pair: Pair, base: nat)
    requires Good(d) && IsTable(d, table) && Above(d, base) && base <= table && InsertPair(d, table, pair).Ok?
    ensures OnlyDotted(d, InsertPair(d, table, pair).value, table, base)
    decreases pair, 1
  {
    ValueKept(d, pair.value);
    ValueFrame(d, pair.value, base);
    var (d', value) := BuildValue(d, pair.value).value;
    InsertValueFrame(d', table, pair.key, value, base);
  }

  lemma {:induction false} ValueFrame(d: Doc, value: Value, base: nat)
    requires Good(d) && Above(d, base) && base <= d.next && BuildValue(d, value).Ok?
    ensures Untouched(d, BuildValue(d, value).value.0, base) && d.next <= BuildValue(d, value).value.1
    decreases value, 2
  {
    match value
    case ScalarValue =>
    case ArrayValue(items) =>
      ItemsKept(d, items);
      ItemsFrame(d, items, base);
    case InlineTable(pairs) =>
      var d' := Make(d, Table(map[]), Inline);
      MakeKept(d, Table(map[]), Inline);
      PairsKept(d', d.next, pairs);
      PairsFrame(d', d.next, pairs, d.next);
      InlineUntouched(d, d', InsertPairs(d', d.next, pairs).value, base);
  }

  lemma {:induction false} ItemsFrame(d: Doc, items: seq<Value>, base: nat)
    requires Good(d) && Above(d, base) && base <= d.next && BuildItems(d, items).Ok?
    ensures Untouched(d, BuildItems(d, items).value.0, base)
    decreases items, 1
  {
    if items != [] {
      ItemsKept(d, items[..|items| - 1]);
      ItemsFrame(d, items[..|items| - 1], base);
      ValueFrame(BuildItems(d, items[..|items| - 1]).value.0, items[|items| - 1], base);
    }
  }

  lemma {:induction false} PairsFrame(d: Doc, table: nat, pairs: seq<Pair>, base: nat)
    requires Good(d) && IsTable(d, table) && Above(d, base) && base <= table && InsertPairs(d, table, pairs).Ok?
    ensures OnlyDotted(d, InsertPairs(d, table, pairs).value, table, base)
    decreases pairs, 1
  {
    if pairs != [] {
      var before := InsertPairs(d, table, pairs[..|pairs| - 1]).value;
      PairsKept(d, table, pairs[..|pairs| - 1]);
      PairsFrame(d, table, pairs[..|pairs| - 1], base);
      PairFrame(before, table, pairs[|pairs| - 1], base);
    }
  }

  // A key-value pair of a document adds to the table of the latest header and to tables that
  // dotted keys made; every other table and array is closed to it.
  lemma PairsOnlyExtendOpenTables(items: seq<Item>, pair: Pair, id: nat)
    requires Run(items).Ok? && Run(items + [PairItem(pair)]).Ok?
    requires id in Run(items).value.0.nodes
    ensures var (d, returned) := Run(items).value;
      NodeAt(Run(items + [PairItem(pair)]).value.0, id) == NodeAt(d, id)
      || id == Current(returned) || OriginOf(d, id).Dotted?
  {
    DocumentSafe(items);
    var (d, returned) := Run(items).value;
    assert (items + [PairItem(pair)])[..|items|] == items;
    CurrentIsTable(d, returned);
    PairFrame(d, Current(returned), pair, 0);
  }

  // ---------------------------------------------------------------- what a header names

  // The table a header's path goes through at a node: the node itself, or the last table of an
  // array of tables.
  function Through(d: Doc, node: nat): Option<nat> {
    match NodeAt(d, node)
    case Table(_) => Some(node)
    case Array(items) => if node in d.tableArrays && items != [] then Some(items[|items| - 1]) else None
    case Scalar => None
  }

  // The table that the segments lead to.
  function Resolve(d: Doc, table: nat, segments: seq<string>): Option<nat>
    decreases |segments|
  {
    if segments == [] then Some(table)
    else match Get(d, table, segments[0])
      case None => None
      case Some(child) =>
        match Through(d, child)
        case None => None
        case Some(t) => Resolve(d, t, segments[1..])
  }

  // The node that a key names.
  function Named(d: Doc, table: nat, key: seq<string>): Option<nat>
    requires key != []
  {
    match Resolve(d, table, key[..|key| - 1])
    case None => None
    case Some(t) => Get(d, t, key[|key| - 1])
  }

  // Every node the segments name on their way is a table or an array of tables.
  ghost predicate Clear(d: Doc, table: nat, segments: seq<string>) {
    forall n :: 0 < n <= |segments| ==> Open(d, Named(d, table, segments[..n]))
  }

  predicate Open(d: Doc, node: Option<nat>) { node.Some? ==> Through(d, node.value).Some? }

  lemma ClearRest(d: Doc, table: nat, segments: seq<string>, child: nat, next: nat)
    requires segments != [] && Get(d, table, segments[0]) == Some(child) && Through(d, child) == Some(next)
    ensures Clear(d, table, segments) <==> Clear(d, next, segments[1..])
  {
    assert segments[..1][..0] == [];
    forall n | 1 < n <= |segments| ensures Named(d, table, segments[..n]) == Named(d, next, segments[1..][..n - 1]) {
      var path := segments[..n];
      assert path[..n - 1][0] == segments[0];
      assert path[..n - 1][1..] == segments[1..][..n - 1][..n - 2];
      assert path[n - 1] == segments[1..][..n - 1][n - 2];
    }
    if Clear(d, table, segments) {
      forall n | 0 < n <= |segments[1..]| ensures Open(d, Named(d, next, segments[1..][..n])) {
        assert Open(d, Named(d, table, segments[..n + 1]));
      }
    }
    if Clear(d, next, segments[1..]) {
      forall n | 0 < n <= |segments| ensures Open(d, Named(d, table, segments[..n])) {
        if n > 1 { assert Open(d, Named(d, next, segments[1..][..n - 1])); }
        else { assert Resolve(d, table, segments[..1][..0]) == Some(table); }
      }
    }
  }

  lemma BareHeaderWalk(d: Doc, table: nat, segments: seq<string>)
    requires Good(d) && Bare(d, table)
    ensures HeaderWalk(d, table, segments).Ok?
    ensures Bare(HeaderWalk(d, table, segments).value.0, HeaderWalk(d, table, segments).value.1)
    decreases |segments|
  {
    if segments != [] {
      HeaderStepKept(d, table, segments[0]);
      var first := HeaderStep(d, table, segments[0]);
      assert first.value.0.nodes[d.next] == Table(map[]);
      BareHeaderWalk(first.value.0, first.value.1, segments[1..]);
    }
  }

  // At an absent segment the walk goes on through new tables.
  lemma AbsentWalk(d: Doc, table: nat, segments: seq<string>)
    requires Good(d) && IsTable(d, table) && segments != [] && Get(d, table, segments[0]).None?
    ensures HeaderWalk(d, table, segments).Ok?
    ensures Bare(HeaderWalk(d, table, segments).value.0, HeaderWalk(d, table, segments).value.1)
    ensures Clear(d, table, segments) && Resolve(d, table, segments).None?
  {
    HeaderStepKept(d, table, segments[0]);
    var first := HeaderStep(d, table, segments[0]);
    assert first.value.0.nodes[d.next] == Table(map[]);
    BareHeaderWalk(first.value.0, first.value.1, segments[1..]);
    forall n | 0 < n <= |segments| ensures Named(d, table, segments[..n]).None? {
      if n > 1 { assert segments[..n][..n - 1][0] == segments[0]; }
      else { assert segments[..n][..0] == []; }
    }
  }

  lemma {:induction false} HeaderWalkExact(d: Doc, table: nat, segments: seq<string>)
    requires Good(d) && IsTable(d, table)
    ensures HeaderWalk(d, table, segments).Ok? <==> Clear(d, table, segments)
    ensures HeaderWalk(d, table, segments).Ok? && Resolve(d, table, segments).Some? ==>
      HeaderWalk(d, table, segments) == Ok((d, Resolve(d, table, segments).value))
    ensures HeaderWalk(d, table, segments).Ok? && Resolve(d, table, segments).None? ==>
      Bare(HeaderWalk(d, table, segments).value.0, HeaderWalk(d, table, segments).value.1)
    decreases |segments|
  {
    if segments != [] {
      match Get(d, table, segments[0])
      case None => AbsentWalk(d, table, segments);
      case Some(child) =>
        HeaderStepKept(d, table, segments[0]);
        HeaderStepThrough(d, table, segments[0], child);
        if Through(d, child).Some? {
          ClearRest(d, table, segments, child, Through(d, child).value);
          HeaderWalkExact(d, Through(d, child).value, segments[1..]);
        } else {
          assert segments[..1][..0] == [];
          assert !Open(d, Named(d, table, segments[..1]));
        }
    }
  }

  lemma HeaderStepThrough(d: Doc, table: nat, segment: string, child: nat)
    requires Good(d) && Get(d, table, segment) == Some(child)
    ensures HeaderStep(d, table, segment) ==
      match Through(d, child) case None => Redefinition case Some(t) => Ok((d, t))
  {
  }

  // What the last segment may name: nothing, a table made only as the parent of another, or,
  // with double brackets, an array of tables.
  ghost predicate Declarable(d: Doc, node: Option<nat>, isArray: bool) {
    node.Some? ==> if isArray then OriginOf(d, node.value).TableArray? else OriginOf(d, node.value).Implicit?
  }

  lemma HeaderEndExact(d: Doc, parent: nat, key: string, isArray: bool)
    requires Good(d) && IsTable(d, parent)
    ensures HeaderEnd(d, parent, key, isArray).Ok? <==> Declarable(d, Get(d, parent, key), isArray)
  {
  }

  // A header is accepted exactly if its path is clear and its last segment may be declared.
  lemma HeaderAcceptedExactly(d: Doc, key: seq<string>, isArray: bool)
    requires Good(d) && key != []
    ensures ParseHeader(d, key, isArray).Ok? <==>
      Clear(d, ROOT, key[..|key| - 1]) && Declarable(d, Named(d, ROOT, key), isArray)
  {
    var segments := key[..|key| - 1];
    HeaderWalkExact(d, ROOT, segments);
    HeaderWalkKept(d, ROOT, segments);
    var walk := HeaderWalk(d, ROOT, segments);
    if walk.Ok? {
      HeaderEndExact(walk.value.0, walk.value.1, key[|key| - 1], isArray);
    }
  }

  // In the document of all the items the key names the i-th table returned in the first n.
  ghost predicate ReturnedAs(items: seq<Item>, n: nat, key: seq<string>, i: nat)
    requires n <= |items| && key != []
  {
    && Run(items).Ok? && Run(items[..n]).Ok? && i < |Run(items[..n]).value.1|
    && Named(Run(items).value.0, ROOT, key) == Some(Run(items[..n]).value.1[i])
  }

  // A table that a header returned is never declared again, whatever comes in between.
  lemma DeclaredOnce(items: seq<Item>, n: nat, key: seq<string>, i: nat)
    requires n <= |items| && key != []
    ensures ReturnedAs(items, n, key, i) ==>
      !ParseHeader(Run(items).value.0, key, false).Ok? && !ParseHeader(Run(items).value.0, key, true).Ok?
  {
    if ReturnedAs(items, n, key, i) {
      DocumentSafe(items);
      NothingReplaced(items, n);
      var (d, returned) := Run(items).value;
      assert returned[i] in returned;
      HeaderAcceptedExactly(d, key, false);
      HeaderAcceptedExactly(d, key, true);
    }
  }

  // [[key]] on an array of tables adds one new table at its end.
  lemma ArrayHeaderAppends(d: Doc, key: seq<string>)
    requires Good(d) && key != [] && ParseHeader(d, key, true).Ok? && Named(d, ROOT, key).Some?
    ensures var (d', table) := ParseHeader(d, key, true).value;
      var array_ := Named(d, ROOT, key).value;
      && table !in d.nodes && Bare(d', table)
      && NodeAt(d, array_).Array? && NodeAt(d', array_) == Array(NodeAt(d, array_).items + [table])
      && forall id :: id in d.nodes && id != array_ ==> NodeAt(d', id) == NodeAt(d, id)
  {
    HeaderAcceptedExactly(d, key, true);
    HeaderWalkExact(d, ROOT, key[..|key| - 1]);
  }

  // ---------------------------------------------------------------- inline tables

  const SETS_A := PairItem(Pair(["a"], InlineTable([])))
  const OPENS_A_B := HeaderItem(["a", "b"], false)

  // TOML v1.0.0-rc.1 closes an inline table at its braces.  Pairs respect that, headers do not:
  // `a = {}` followed by `[a.b]` is accepted and puts b inside a.
  lemma HeaderExtendsInlineTable()
    ensures Run([SETS_A]).Ok? && Run([SETS_A, OPENS_A_B]).Ok?
    ensures var (d, d') := (Run([SETS_A]).value.0, Run([SETS_A, OPENS_A_B]).value.0);
      var a := Get(d, ROOT, "a");
      && a.Some? && OriginOf(d, a.value).Inline? && NodeAt(d, a.value) == Table(map[])
      && Get(d', a.value, "b").Some?
  {
    var inline := Make(Empty, Table(map[]), Inline);
    assert BuildValue(Empty, InlineTable([])) == Ok((inline, 1));
    assert InsertPair(Empty, ROOT, SETS_A.pair) == Ok(Emplace(inline, ROOT, "a", 1));
    assert [SETS_A][..0] == [] && [SETS_A, OPENS_A_B][..1] == [SETS_A];
    var d := Emplace(inline, ROOT, "a", 1);
    assert Run([SETS_A]) == Ok((d, []));
    assert ["a", "b"][..1] == ["a"];
    assert HeaderStep(d, ROOT, "a") == Ok((d, 1));
    assert HeaderWalk(d, ROOT, ["a"]) == Ok((d, 1));
    assert Get(HeaderEnd(d, 1, "b", false).value.0, 1, "b") == Some(2);
  }
}
