/**
 What holds of the tree over whole documents: accepted steps only ever add, the assertions of
 the source never fail, and no table is returned by two headers.
 */
module TomlTreeSafety {
  import opened Basics
  import opened TomlTables

  // ---------------------------------------------------------------- invariant

  // Names are used up in order, and edges lead to nodes.
  ghost predicate Closed(d: Doc) {
    && d.nodes.Keys == d.origins.Keys
    && (forall id :: id in d.nodes ==> id < d.next)
    && (forall id, k :: id in d.nodes && d.nodes[id].Table? && k in d.nodes[id].entries ==>
          d.nodes[id].entries[k] in d.nodes)
    && (forall id, i :: id in d.nodes && d.nodes[id].Array? && 0 <= i < |d.nodes[id].items| ==>
          d.nodes[id].items[i] in d.nodes)
  }

  predicate MakesTable(o: Origin) { o.Root? || o.Header? || o.Implicit? || o.Dotted? || o.Inline? }

  // Each kind of node comes from the places that make it; an array of tables is never empty
  // and holds only tables.
  ghost predicate Typed(d: Doc) {
    && ROOT in d.nodes && OriginOf(d, ROOT).Root?
    && (forall id :: id in d.nodes ==> (d.nodes[id].Table? <==> MakesTable(OriginOf(d, id))))
    && (forall id :: id in d.nodes && OriginOf(d, id).TableArray? ==>
          d.nodes[id].Array? && d.nodes[id].items != [])
    && (forall id, i ::
          id in d.nodes && OriginOf(d, id).TableArray? && d.nodes[id].Array? && 0 <= i < |d.nodes[id].items| ==>
          NodeAt(d, d.nodes[id].items[i]).Table?)
  }

  // The side lists say which tables were made implicitly, by dotted keys, and which arrays
  // hold tables.
  ghost predicate Listed(d: Doc) {
    && (forall id :: id in d.implicitTables <==> id in d.origins && OriginOf(d, id).Implicit?)
    && (forall id :: id in d.dottedKeyTables <==> id in d.origins && OriginOf(d, id).Dotted?)
    && (forall id :: id in d.tableArrays <==> id in d.origins && OriginOf(d, id).TableArray?)
    && Distinct(d.implicitTables)
  }

  // A dotted table stands inside an inline table exactly if the table around it does.
  ghost predicate Zoned(d: Doc) {
    forall id, k :: id in d.nodes && d.nodes[id].Table? && k in d.nodes[id].entries ==>
      InZone(OriginOf(d, id), OriginOf(d, d.nodes[id].entries[k]))
  }

  predicate InZone(parent: Origin, child: Origin) { child.Dotted? ==> (child.inner <==> IsInner(parent)) }

  ghost predicate Good(d: Doc) { Closed(d) && Typed(d) && Listed(d) && Zoned(d) }

  // ---------------------------------------------------------------- growth

  // Nothing that was in the node is replaced or removed.
  predicate NodeGrows(n: Node, n': Node) {
    match n
    case Table(e) =>
      n'.Table? && e.Keys <= n'.entries.Keys && forall k :: k in e ==> k in n'.entries && n'.entries[k] == e[k]
    case Array(items) => n'.Array? && items <= n'.items
    case Scalar => n' == Scalar
  }

  // No node is replaced or removed, and the only change of standing is that a table made
  // implicitly is declared by a header.
  ghost predicate Grows(d: Doc, d': Doc) {
    && d.next <= d'.next
    && (forall id :: id in d'.nodes ==> id in d.nodes || id >= d.next)
    && (forall id :: id in d.nodes ==> id in d'.nodes && NodeGrows(d.nodes[id], d'.nodes[id]))
    && (forall id :: id in d.nodes ==>
          OriginOf(d', id) == OriginOf(d, id) || (OriginOf(d, id).Implicit? && OriginOf(d', id).Header?))
  }

  lemma GrowsTrans(a: Doc, b: Doc, c: Doc)
    requires Grows(a, b) && Grows(b, c)
    ensures Grows(a, c)
  {
    forall id | id in a.nodes ensures id in c.nodes && NodeGrows(a.nodes[id], c.nodes[id]) {
      NodeGrowsTrans(a.nodes[id], b.nodes[id], c.nodes[id]);
    }
  }

  lemma NodeGrowsTrans(a: Node, b: Node, c: Node)
    requires NodeGrows(a, b) && NodeGrows(b, c)
    ensures NodeGrows(a, c)
  {
  }

  // The tables that a header returned are the same in both.
  ghost predicate SameHeaders(d: Doc, d': Doc) {
    forall id :: (id in d.origins && OriginOf(d, id).Header?) <==> (id in d'.origins && OriginOf(d', id).Header?)
  }

  // What every step but the last of a header keeps.
  ghost predicate Kept(d: Doc, d': Doc) { Good(d') && Grows(d, d') && SameHeaders(d, d') }

  lemma KeptTrans(a: Doc, b: Doc, c: Doc)
    requires Kept(a, b) && Kept(b, c)
    ensures Kept(a, c)
  {
    GrowsTrans(a, b, c);
  }

  // After the header the table it returns, and no other, has become a header's table.
  ghost predicate Declares(d: Doc, d': Doc, table: nat) {
    && Good(d') && Grows(d, d')
    && IsTable(d', table) && OriginOf(d', table).Header?
    && (table in d.origins ==> !OriginOf(d, table).Header?)
    && forall id :: id != table ==>
      ((id in d.origins && OriginOf(d, id).Header?) <==> (id in d'.origins && OriginOf(d', id).Header?))
  }

  // ---------------------------------------------------------------- primitive steps

  lemma DistinctSnoc(xs: seq<nat>, x: nat)
    requires Distinct(xs) && x !in xs
    ensures Distinct(xs + [x])
  {
    assert forall i :: 0 <= i < |xs| ==> xs[i] in xs;
  }

  // d' is d with one more node, which nothing leads to yet.
  predicate Adds(d: Doc, node: Node, origin: Origin, d': Doc) {
    && d'.nodes == d.nodes[d.next := node]
    && d'.origins == d.origins[d.next := origin]
    && d'.next == d.next + 1
  }

  predicate IsTable(d: Doc, id: nat) { id in d.nodes && d.nodes[id].Table? }

  // A new node may be an empty table, or an array of nodes that are there.
  ghost predicate Fits(d: Doc, node: Node, origin: Origin) {
    && !origin.Root?
    && (node.Table? <==> MakesTable(origin))
    && (node.Table? ==> node.entries == map[])
    && (node.Array? ==> forall i :: 0 <= i < |node.items| ==> node.items[i] in d.nodes)
    && (origin.TableArray? ==> node.Array? && |node.items| == 1 && IsTable(d, node.items[0]))
  }

  lemma AddsClosed(d: Doc, node: Node, origin: Origin, d': Doc)
    requires Closed(d) && Fits(d, node, origin) && Adds(d, node, origin, d')
    ensures Closed(d') && Grows(d, d')
    ensures forall id :: id in d'.origins ==> OriginOf(d', id) == if id == d.next then origin else OriginOf(d, id)
  {
  }

  lemma AddsZoned(d: Doc, node: Node, origin: Origin, d': Doc)
    requires Closed(d) && Zoned(d) && Fits(d, node, origin) && Adds(d, node, origin, d')
    ensures Zoned(d')
  {
    forall id, k | id in d'.nodes && d'.nodes[id].Table? && k in d'.nodes[id].entries
      ensures InZone(OriginOf(d', id), OriginOf(d', d'.nodes[id].entries[k]))
    {
      assert id in d.nodes && InZone(OriginOf(d, id), OriginOf(d, d.nodes[id].entries[k]));
    }
  }

  lemma AddsTyped(d: Doc, node: Node, origin: Origin, d': Doc)
    requires Closed(d) && Typed(d) && Fits(d, node, origin) && Adds(d, node, origin, d')
    ensures Typed(d')
  {
  }

  lemma MakeKept(d: Doc, node: Node, origin: Origin)
    requires Good(d) && Fits(d, node, origin) && (origin.Plain? || origin.Inline?)
    ensures Kept(d, Make(d, node, origin))
  {
    var d' := Make(d, node, origin);
    AddsClosed(d, node, origin, d');
    AddsTyped(d, node, origin, d');
    AddsZoned(d, node, origin, d');
    assert Listed(d');
  }

  lemma MakeImplicit(d: Doc, d': Doc)
    requires Good(d)
    requires d' == Make(d, Table(map[]), Implicit).(implicitTables := d.implicitTables + [d.next])
    ensures Kept(d, d')
  {
    AddsClosed(d, Table(map[]), Implicit, d');
    AddsTyped(d, Table(map[]), Implicit, d');
    AddsZoned(d, Table(map[]), Implicit, d');
    DistinctSnoc(d.implicitTables, d.next);
    assert Listed(d');
  }

  lemma MakeDotted(d: Doc, inner: bool, d': Doc)
    requires Good(d)
    requires d' == Make(d, Table(map[]), Dotted(inner)).(dottedKeyTables := d.dottedKeyTables + [d.next])
    ensures Kept(d, d')
  {
    AddsClosed(d, Table(map[]), Dotted(inner), d');
    AddsTyped(d, Table(map[]), Dotted(inner), d');
    AddsZoned(d, Table(map[]), Dotted(inner), d');
    assert Listed(d');
  }

  lemma MakeHeader(d: Doc, d': Doc)
    requires Good(d) && d' == Make(d, Table(map[]), Header)
    ensures Good(d') && Grows(d, d')
    ensures Declares(d, d', d.next)
  {
    AddsClosed(d, Table(map[]), Header, d');
    AddsTyped(d, Table(map[]), Header, d');
    AddsZoned(d, Table(map[]), Header, d');
    assert Listed(d');
  }

  lemma MakeTableArray(d: Doc, child: nat, d': Doc)
    requires Good(d) && IsTable(d, child)
    requires d' == Make(d, Array([child]), TableArray).(tableArrays := d.tableArrays + [d.next])
    ensures Kept(d, d')
  {
    AddsClosed(d, Array([child]), TableArray, d');
    AddsTyped(d, Array([child]), TableArray, d');
    AddsZoned(d, Array([child]), TableArray, d');
    assert Listed(d');
  }

  // d' is d with another node at id, of the same kind and origin.
  predicate Replaces(d: Doc, id: nat, node: Node, d': Doc) { d' == d.(nodes := d.nodes[id := node]) }

  lemma EmplaceClosed(d: Doc, table: nat, key: string, child: nat, d': Doc)
    requires Closed(d) && IsTable(d, table) && child in d.nodes
    requires Replaces(d, table, Table(d.nodes[table].entries[key := child]), d')
    ensures Closed(d')
  {
  }

  lemma EmplaceZoned(d: Doc, table: nat, key: string, child: nat, d': Doc)
    requires Zoned(d) && IsTable(d, table) && InZone(OriginOf(d, table), OriginOf(d, child))
    requires Replaces(d, table, Table(d.nodes[table].entries[key := child]), d')
    ensures Zoned(d')
  {
    forall id, k | id in d'.nodes && d'.nodes[id].Table? && k in d'.nodes[id].entries
      ensures InZone(OriginOf(d', id), OriginOf(d', d'.nodes[id].entries[k]))
    {
      if id != table || k != key {
        assert k in d.nodes[id].entries && InZone(OriginOf(d, id), OriginOf(d, d.nodes[id].entries[k]));
      }
    }
  }

  lemma SameKindTyped(d: Doc, id: nat, node: Node, d': Doc)
    requires Typed(d) && id in d.nodes && Replaces(d, id, node, d')
    requires node.Table? <==> d.nodes[id].Table?
    requires OriginOf(d, id).TableArray? ==> node.Array? && node.items != []
    requires node.Array? && OriginOf(d, id).TableArray? ==>
      forall i :: 0 <= i < |node.items| ==> IsTable(d, node.items[i])
    ensures Typed(d')
  {
  }

  lemma EmplaceKept(d: Doc, table: nat, key: string, child: nat)
    requires Good(d) && IsTable(d, table) && Get(d, table, key).None? && child in d.nodes
    requires InZone(OriginOf(d, table), OriginOf(d, child))
    ensures Kept(d, Emplace(d, table, key, child))
    ensures Get(Emplace(d, table, key, child), table, key) == Some(child)
  {
    var node := Table(d.nodes[table].entries[key := child]);
    var d' := d.(nodes := d.nodes[table := node]);
    EmplaceClosed(d, table, key, child, d');
    EmplaceZoned(d, table, key, child, d');
    SameKindTyped(d, table, node, d');
    assert Listed(d') && Grows(d, d');
  }

  lemma PushBackKept(d: Doc, array_: nat, child: nat)
    requires Good(d) && array_ in d.nodes && d.nodes[array_].Array? && IsTable(d, child)
    ensures Kept(d, PushBack(d, array_, child))
  {
    var node := Array(d.nodes[array_].items + [child]);
    var d' := PushBack(d, array_, child);
    SameKindTyped(d, array_, node, d');
    assert Closed(d');
    assert Zoned(d') && Listed(d') && Grows(d, d');
  }

  lemma EraseOne(xs: seq<nat>, x: nat)
    requires Distinct(xs)
    ensures Distinct(Erase(xs, x))
    ensures forall y :: y in Erase(xs, x) <==> y in xs && y != x
  {
    if xs != [] {
      EraseOne(xs[1..], x);
      assert xs == [xs[0]] + xs[1..];
      if xs[0] != x {
        var rest := Erase(xs[1..], x);
        forall i, j | 0 <= i < j < |Erase(xs, x)| ensures Erase(xs, x)[i] != Erase(xs, x)[j] {
          assert Erase(xs, x)[j] == rest[j - 1] && rest[j - 1] in rest;
        }
      }
    }
  }

  lemma PromoteZoned(d: Doc, node: nat, d': Doc)
    requires Zoned(d) && OriginOf(d, node).Implicit? && d'.nodes == d.nodes && d'.origins == d.origins[node := Header]
    ensures Zoned(d')
  {
    forall id, k | id in d'.nodes && d'.nodes[id].Table? && k in d'.nodes[id].entries
      ensures InZone(OriginOf(d', id), OriginOf(d', d'.nodes[id].entries[k]))
    {
      assert InZone(OriginOf(d, id), OriginOf(d, d.nodes[id].entries[k]));
    }
  }

  lemma Promote(d: Doc, node: nat, d': Doc)
    requires Good(d) && node in d.nodes && OriginOf(d, node).Implicit?
    requires d' == d.(implicitTables := Erase(d.implicitTables, node), origins := d.origins[node := Header])
    ensures Good(d') && Grows(d, d')
  {
    EraseOne(d.implicitTables, node);
    PromoteZoned(d, node, d');
    assert forall id :: id in d.nodes && id != node ==> OriginOf(d', id) == OriginOf(d, id);
    assert Listed(d');
    assert Typed(d');
  }

  // ---------------------------------------------------------------- headers

  lemma HeaderStepKept(d: Doc, parent: nat, segment: string)
    requires Good(d) && IsTable(d, parent)
    ensures !HeaderStep(d, parent, segment).AssertFailed?
    ensures HeaderStep(d, parent, segment).Ok? ==>
      Kept(d, HeaderStep(d, parent, segment).value.0)
      && IsTable(HeaderStep(d, parent, segment).value.0, HeaderStep(d, parent, segment).value.1)
  {
    if Get(d, parent, segment).None? {
      var d1 := Make(d, Table(map[]), Implicit).(implicitTables := d.implicitTables + [d.next]);
      MakeImplicit(d, d1);
      EmplaceKept(d1, parent, segment, d.next);
      KeptTrans(d, d1, Emplace(d1, parent, segment, d.next));
      assert HeaderStep(d, parent, segment) == Ok((Emplace(d1, parent, segment, d.next), d.next));
    }
  }

  lemma HeaderWalkKept(d: Doc, parent: nat, segments: seq<string>)
    requires Good(d) && IsTable(d, parent)
    ensures !HeaderWalk(d, parent, segments).AssertFailed?
    ensures HeaderWalk(d, parent, segments).Ok? ==>
      Kept(d, HeaderWalk(d, parent, segments).value.0)
      && IsTable(HeaderWalk(d, parent, segments).value.0, HeaderWalk(d, parent, segments).value.1)
    decreases |segments|
  {
    if segments != [] {
      HeaderStepKept(d, parent, segments[0]);
      var first := HeaderStep(d, parent, segments[0]);
      if first.Ok? {
        HeaderWalkKept(first.value.0, first.value.1, segments[1..]);
        var rest := HeaderWalk(first.value.0, first.value.1, segments[1..]);
        if rest.Ok? {
          KeptTrans(d, first.value.0, rest.value.0);
        }
      }
    }
  }

  lemma DeclaresThenKept(a: Doc, b: Doc, c: Doc, table: nat)
    requires Declares(a, b, table) && Kept(b, c)
    ensures Declares(a, c, table)
  {
    GrowsTrans(a, b, c);
  }

  lemma KeptThenDeclares(a: Doc, b: Doc, c: Doc, table: nat)
    requires Good(a) && Kept(a, b) && Declares(b, c, table)
    ensures Declares(a, c, table)
  {
    GrowsTrans(a, b, c);
  }

  lemma DeclareTable(d: Doc, parent: nat, key: string)
    requires Good(d) && IsTable(d, parent) && Get(d, parent, key).None?
    ensures Declares(d, Emplace(Make(d, Table(map[]), Header), parent, key, d.next), d.next)
  {
    var d1 := Make(d, Table(map[]), Header);
    MakeHeader(d, d1);
    EmplaceKept(d1, parent, key, d.next);
    DeclaresThenKept(d, d1, Emplace(d1, parent, key, d.next), d.next);
  }

  lemma DeclareArray(d: Doc, parent: nat, key: string)
    requires Good(d) && IsTable(d, parent) && Get(d, parent, key).None?
    ensures HeaderEnd(d, parent, key, true).Ok? && HeaderEnd(d, parent, key, true).value.1 == d.next
    ensures Declares(d, HeaderEnd(d, parent, key, true).value.0, d.next)
  {
    var d1 := Make(d, Table(map[]), Header);
    MakeHeader(d, d1);
    var d2 := Make(d1, Array([d.next]), TableArray).(tableArrays := d.tableArrays + [d1.next]);
    MakeTableArray(d1, d.next, d2);
    EmplaceKept(d2, parent, key, d1.next);
    var d3 := Emplace(d2, parent, key, d1.next);
    DeclaresThenKept(d, d1, d2, d.next);
    DeclaresThenKept(d, d2, d3, d.next);
    assert HeaderEnd(d, parent, key, true) == Ok((d3, d.next));
  }

  lemma DeclareElement(d: Doc, array_: nat)
    requires Good(d) && array_ in d.nodes && d.nodes[array_].Array?
    ensures Declares(d, PushBack(Make(d, Table(map[]), Header), array_, d.next), d.next)
  {
    var d1 := Make(d, Table(map[]), Header);
    MakeHeader(d, d1);
    PushBackKept(d1, array_, d.next);
    DeclaresThenKept(d, d1, PushBack(d1, array_, d.next), d.next);
  }

  lemma HeaderEndDeclares(d: Doc, parent: nat, key: string, isArray: bool)
    requires Good(d) && IsTable(d, parent)
    ensures !HeaderEnd(d, parent, key, isArray).AssertFailed?
    ensures HeaderEnd(d, parent, key, isArray).Ok? ==>
      Declares(d, HeaderEnd(d, parent, key, isArray).value.0, HeaderEnd(d, parent, key, isArray).value.1)
  {
    match Get(d, parent, key)
    case None =>
      if isArray { DeclareArray(d, parent, key); } else { DeclareTable(d, parent, key); }
    case Some(node) =>
      if isArray && NodeAt(d, node).Array? && node in d.tableArrays {
        DeclareElement(d, node);
      } else if !isArray && NodeAt(d, node).Table? && node in d.implicitTables {
        Promote(d, node, HeaderEnd(d, parent, key, isArray).value.0);
      }
  }

  // A header never meets a failing assertion, never replaces a node, and returns a table that
  // no header returned before.
  lemma HeaderSafe(d: Doc, key: seq<string>, isArray: bool)
    requires Good(d) && key != []
    ensures !ParseHeader(d, key, isArray).AssertFailed?
    ensures ParseHeader(d, key, isArray).Ok? ==>
      Declares(d, ParseHeader(d, key, isArray).value.0, ParseHeader(d, key, isArray).value.1)
  {
    HeaderWalkKept(d, ROOT, key[..|key| - 1]);
    var walk := HeaderWalk(d, ROOT, key[..|key| - 1]);
    if walk.Ok? {
      var (d', parent) := walk.value;
      HeaderEndDeclares(d', parent, key[|key| - 1], isArray);
      var end := HeaderEnd(d', parent, key[|key| - 1], isArray);
      if end.Ok? {
        KeptThenDeclares(d, d', end.value.0, end.value.1);
      }
    }
  }

  // ---------------------------------------------------------------- pairs

  lemma DottedStepKept(d: Doc, table: nat, segment: string)
    requires Good(d) && IsTable(d, table)
    ensures !DottedStep(d, table, segment).AssertFailed?
    ensures DottedStep(d, table, segment).Ok? ==>
      Kept(d, DottedStep(d, table, segment).value.0)
      && IsTable(DottedStep(d, table, segment).value.0, DottedStep(d, table, segment).value.1)
  {
    if Get(d, table, segment).None? {
      var inner := IsInner(OriginOf(d, table));
      var d1 := Make(d, Table(map[]), Dotted(inner)).(dottedKeyTables := d.dottedKeyTables + [d.next]);
      MakeDotted(d, inner, d1);
      EmplaceKept(d1, table, segment, d.next);
      KeptTrans(d, d1, Emplace(d1, table, segment, d.next));
      assert DottedStep(d, table, segment) == Ok((Emplace(d1, table, segment, d.next), d.next));
    }
  }

  lemma DottedWalkKept(d: Doc, table: nat, segments: seq<string>)
    requires Good(d) && IsTable(d, table)
    ensures !DottedWalk(d, table, segments).AssertFailed?
    ensures DottedWalk(d, table, segments).Ok? ==>
      Kept(d, DottedWalk(d, table, segments).value.0)
      && IsTable(DottedWalk(d, table, segments).value.0, DottedWalk(d, table, segments).value.1)
    decreases |segments|
  {
    if segments != [] {
      DottedStepKept(d, table, segments[0]);
      var first := DottedStep(d, table, segments[0]);
      if first.Ok? {
        DottedWalkKept(first.value.0, first.value.1, segments[1..]);
        var rest := DottedWalk(first.value.0, first.value.1, segments[1..]);
        if rest.Ok? {
          KeptTrans(d, first.value.0, rest.value.0);
        }
      }
    }
  }

  // A node that a value was built as.
  predicate IsValue(d: Doc, id: nat) { id in d.nodes && (OriginOf(d, id).Plain? || OriginOf(d, id).Inline?) }

  lemma ValueStays(d: Doc, d': Doc, id: nat)
    requires Grows(d, d') && IsValue(d, id)
    ensures IsValue(d', id)
  {
  }

  lemma EmplaceAfter(d: Doc, d': Doc, table: nat, key: string, value: nat)
    requires Kept(d, d') && IsTable(d', table) && IsValue(d, value) && Get(d', table, key).None?
    ensures Kept(d, Emplace(d', table, key, value))
  {
    ValueStays(d, d', value);
    EmplaceKept(d', table, key, value);
    KeptTrans(d, d', Emplace(d', table, key, value));
  }

  lemma InsertValueKept(d: Doc, table: nat, key: seq<string>, value: nat)
    requires Good(d) && IsTable(d, table) && IsValue(d, value) && key != []
    ensures !InsertValue(d, table, key, value).AssertFailed?
    ensures InsertValue(d, table, key, value).Ok? ==> Kept(d, InsertValue(d, table, key, value).value)
  {
    DottedWalkKept(d, table, key[..|key| - 1]);
    var walk := DottedWalk(d, table, key[..|key| - 1]);
    if walk.Ok? {
      var (d', table') := walk.value;
      if Get(d', table', key[|key| - 1]).None? { EmplaceAfter(d, d', table', key[|key| - 1], value); }
    }
  }

  // Whatever value a pair has, however deeply nested, inserting it keeps the tree good.
  lemma {:induction false} PairKept(d: Doc, table: nat, pair: Pair)
    requires Good(d) && IsTable(d, table)
    ensures !InsertPair(d, table, pair).AssertFailed?
    ensures InsertPair(d, table, pair).Ok? ==> Kept(d, InsertPair(d, table, pair).value)
    decreases pair, 1
  {
    if pair.key != [] {
      ValueKept(d, pair.value);
      var built := BuildValue(d, pair.value);
      if built.Ok? {
        InsertValueKept(built.value.0, table, pair.key, built.value.1);
        var inserted := InsertValue(built.value.0, table, pair.key, built.value.1);
        if inserted.Ok? {
          KeptTrans(d, built.value.0, inserted.value);
        }
      }
    }
  }

  lemma {:induction false} ValueKept(d: Doc, value: Value)
    requires Good(d)
    ensures !BuildValue(d, value).AssertFailed?
    ensures BuildValue(d, value).Ok? ==>
      Kept(d, BuildValue(d, value).value.0) && IsValue(BuildValue(d, value).value.0, BuildValue(d, value).value.1)
    decreases value, 2
  {
    match value
    case ScalarValue => MakeKept(d, Scalar, Plain);
    case ArrayValue(items) =>
      ItemsKept(d, items);
      var built := BuildItems(d, items);
      if built.Ok? {
        var (d', ids) := built.value;
        MakeKept(d', Array(ids), Plain);
        KeptTrans(d, d', Make(d', Array(ids), Plain));
      }
    case InlineTable(pairs) =>
      var d' := Make(d, Table(map[]), Inline);
      MakeKept(d, Table(map[]), Inline);
      PairsKept(d', d.next, pairs);
      var inserted := InsertPairs(d', d.next, pairs);
      if inserted.Ok? {
        ValueStays(d', inserted.value, d.next);
        KeptTrans(d, d', inserted.value);
      }
  }

  lemma {:induction false} ItemsKept(d: Doc, items: seq<Value>)
    requires Good(d)
    ensures !BuildItems(d, items).AssertFailed?
    ensures BuildItems(d, items).Ok? ==>
      Kept(d, BuildItems(d, items).value.0)
      && forall i :: 0 <= i < |BuildItems(d, items).value.1| ==>
        BuildItems(d, items).value.1[i] in BuildItems(d, items).value.0.nodes
    decreases items, 1
  {
    if items != [] {
      ItemsKept(d, items[..|items| - 1]);
      var before := BuildItems(d, items[..|items| - 1]);
      if before.Ok? {
        ValueKept(before.value.0, items[|items| - 1]);
        var last := BuildValue(before.value.0, items[|items| - 1]);
        if last.Ok? {
          KeptTrans(d, before.value.0, last.value.0);
        }
      }
    }
  }

  lemma {:induction false} PairsKept(d: Doc, table: nat, pairs: seq<Pair>)
    requires Good(d) && IsTable(d, table)
    ensures !InsertPairs(d, table, pairs).AssertFailed?
    ensures InsertPairs(d, table, pairs).Ok? ==> Kept(d, InsertPairs(d, table, pairs).value)
    decreases pairs, 1
  {
    if pairs != [] {
      PairsKept(d, table, pairs[..|pairs| - 1]);
      var before := InsertPairs(d, table, pairs[..|pairs| - 1]);
      if before.Ok? {
        PairKept(before.value, table, pairs[|pairs| - 1]);
        var last := InsertPair(before.value, table, pairs[|pairs| - 1]);
        if last.Ok? {
          KeptTrans(d, before.value, last.value);
        }
      }
    }
  }

  // ---------------------------------------------------------------- whole documents

  // The returned tables are exactly those that a header declared, each returned once.
  ghost predicate Returned(d: Doc, returned: seq<nat>) {
    && Distinct(returned)
    && forall id :: id in returned <==> id in d.origins && OriginOf(d, id).Header?
  }

  lemma EmptyGood()
    ensures Good(Empty) && Returned(Empty, [])
  {
  }

  lemma CurrentIsTable(d: Doc, returned: seq<nat>)
    requires Good(d) && Returned(d, returned)
    ensures IsTable(d, Current(returned))
  {
    if returned != [] {
      assert returned[|returned| - 1] in returned;
    }
  }

  lemma ReturnedGrows(d: Doc, d': Doc, returned: seq<nat>, table: nat)
    requires Good(d) && Returned(d, returned) && Declares(d, d', table)
    ensures Returned(d', returned + [table])
  {
    DistinctSnoc(returned, table);
  }

  lemma ItemSafe(d: Doc, returned: seq<nat>, item: Item)
    requires Good(d) && Returned(d, returned)
    ensures !RunItem(d, returned, item).AssertFailed?
    ensures RunItem(d, returned, item).Ok? ==>
      var (d', returned') := RunItem(d, returned, item).value;
      Good(d') && Returned(d', returned') && Grows(d, d') && returned <= returned'
  {
    match item
    case HeaderItem(key, isArray) =>
      if key != [] {
        HeaderSafe(d, key, isArray);
        var header := ParseHeader(d, key, isArray);
        if header.Ok? {
          ReturnedGrows(d, header.value.0, returned, header.value.1);
        }
      }
    case PairItem(pair) =>
      CurrentIsTable(d, returned);
      PairKept(d, Current(returned), pair);
  }

  // Over any document the assertions of the source hold, and if it is accepted the tree is
  // good and every header returned a table of its own.
  lemma {:induction false} DocumentSafe(items: seq<Item>)
    ensures !Run(items).AssertFailed?
    ensures Run(items).Ok? ==> Good(Run(items).value.0) && Returned(Run(items).value.0, Run(items).value.1)
  {
    if items == [] {
      EmptyGood();
    } else {
      DocumentSafe(items[..|items| - 1]);
      var before := Run(items[..|items| - 1]);
      if before.Ok? {
        ItemSafe(before.value.0, before.value.1, items[|items| - 1]);
      }
    }
  }

  // Whatever stands in the tree after some of the items stands there after all of them.
  lemma {:induction false} NothingReplaced(items: seq<Item>, n: nat)
    requires n <= |items| && Run(items).Ok?
    ensures Run(items[..n]).Ok?
    ensures Grows(Run(items[..n]).value.0, Run(items).value.0)
    ensures Run(items[..n]).value.1 <= Run(items).value.1
  {
    if n == |items| {
      assert items[..n] == items;
      DocumentSafe(items);
    } else {
      var before := items[..|items| - 1];
      assert before[..n] == items[..n];
      NothingReplaced(before, n);
      DocumentSafe(before);
      ItemSafe(Run(before).value.0, Run(before).value.1, items[|items| - 1]);
      GrowsTrans(Run(items[..n]).value.0, Run(before).value.0, Run(items).value.0);
    }
  }

  // No table is returned by two headers.
  lemma HeadersReturnDistinctTables(items: seq<Item>, i: nat, j: nat)
    requires Run(items).Ok? && i < j < |Run(items).value.1|
    ensures Run(items).value.1[i] != Run(items).value.1[j]
  {
    DocumentSafe(items);
  }

  // Every array among the arrays of tables is non-empty and holds only tables.
  lemma TableArraysHoldTables(items: seq<Item>, id: nat)
    requires Run(items).Ok? && id in Run(items).value.0.tableArrays
    ensures NodeAt(Run(items).value.0, id).Array? && NodeAt(Run(items).value.0, id).items != []
    ensures forall i :: 0 <= i < |NodeAt(Run(items).value.0, id).items| ==>
      NodeAt(Run(items).value.0, NodeAt(Run(items).value.0, id).items[i]).Table?
  {
    DocumentSafe(items);
  }
}
