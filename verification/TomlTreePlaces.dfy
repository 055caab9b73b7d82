/**
 That the tree is a tree: whatever a document builds, each node stands in one place, under one key
 of one table or at one index of one array, and the root in none.
 */
module TomlTreePlaces {
  import opened Basics
  import opened TomlTables
  import opened TomlTreeSafety

  datatype Place = Under(table: nat, key: string) | At(array_: nat, index: nat)

  type Nodes = map<nat, Node>
  type Places = map<nat, Place>

  predicate StandsAt(nodes: Nodes, place: Place, child: nat) {
    match place
    case Under(t, k) => t in nodes && nodes[t].Table? && k in nodes[t].entries && nodes[t].entries[k] == child
    case At(a, i) => a in nodes && nodes[a].Array? && i < |nodes[a].items| && nodes[a].items[i] == child
  }

  // Every edge of the tree is the place of the node it leads to.
  ghost predicate Placed(nodes: Nodes, places: Places) {
    && (forall t, k :: t in nodes && nodes[t].Table? && k in nodes[t].entries ==>
          nodes[t].entries[k] in places && places[nodes[t].entries[k]] == Under(t, k))
    && (forall a, i :: a in nodes && nodes[a].Array? && 0 <= i < |nodes[a].items| ==>
          nodes[a].items[i] in places && places[nodes[a].items[i]] == At(a, i))
    && (forall c :: c in places ==> c in nodes && StandsAt(nodes, places[c], c))
    && ROOT !in places
  }

  // The places of the nodes below limit are as they were.
  predicate SamePlaces(limit: nat, places: Places, places': Places) {
    forall c :: 0 <= c < limit ==> (c in places <==> c in places') && (c in places ==> places'[c] == places[c])
  }

  lemma SamePlacesTrans(limit: nat, limit': nat, places: Places, places': Places, places'': Places)
    requires limit <= limit' && SamePlaces(limit, places, places') && SamePlaces(limit', places', places'')
    ensures SamePlaces(limit, places, places'')
  {
  }

  // A node that is in the tree's store and nowhere in the tree.
  predicate Loose(nodes: Nodes, places: Places, child: nat) { child in nodes && child !in places && child != ROOT }

  // ---------------------------------------------------------------- primitive steps

  lemma NewPlaced(nodes: Nodes, places: Places, id: nat, node: Node)
    requires Placed(nodes, places) && id !in nodes && (node.Table? ==> node.entries == map[])
      && (node.Array? ==> node.items == [])
    ensures Placed(nodes[id := node], places)
  {
    forall c | c in places ensures StandsAt(nodes[id := node], places[c], c) { assert StandsAt(nodes, places[c], c); }
  }

  lemma EmplacePlaced(nodes: Nodes, places: Places, table: nat, key: string, child: nat)
    requires Placed(nodes, places) && Loose(nodes, places, child)
    requires table in nodes && nodes[table].Table? && key !in nodes[table].entries
    ensures Placed(nodes[table := Table(nodes[table].entries[key := child])], places[child := Under(table, key)])
  {
    var nodes' := nodes[table := Table(nodes[table].entries[key := child])];
    forall c | c in places ensures StandsAt(nodes', places[c], c) { assert StandsAt(nodes, places[c], c); }
  }

  lemma PushPlaced(nodes: Nodes, places: Places, array_: nat, child: nat)
    requires Placed(nodes, places) && Loose(nodes, places, child) && array_ in nodes && nodes[array_].Array?
    ensures Placed(nodes[array_ := Array(nodes[array_].items + [child])],
      places[child := At(array_, |nodes[array_].items|)])
  {
    var nodes' := nodes[array_ := Array(nodes[array_].items + [child])];
    forall c | c in places ensures StandsAt(nodes', places[c], c) { assert StandsAt(nodes, places[c], c); }
  }

  // Nodes that are loose, each named once.
  ghost predicate AllLoose(nodes: Nodes, places: Places, ids: seq<nat>) {
    Distinct(ids) && forall i :: 0 <= i < |ids| ==> Loose(nodes, places, ids[i])
  }

  lemma {:induction false} ArrayPlaced(nodes: Nodes, places: Places, id: nat, ids: seq<nat>) returns (places': Places)
    requires Placed(nodes, places) && id !in nodes && AllLoose(nodes, places, ids)
    ensures Placed(nodes[id := Array(ids)], places')
    ensures forall c :: c in places' <==> c in places || c in ids
    ensures forall c :: c in places ==> places'[c] == places[c]
  {
    if ids == [] {
      NewPlaced(nodes, places, id, Array([]));
      places' := places;
    } else {
      var front, last := ids[..|ids| - 1], ids[|ids| - 1];
      assert ids == front + [last];
      var before := ArrayPlaced(nodes, places, id, front);
      assert forall i :: 0 <= i < |front| ==> front[i] == ids[i];
      assert last !in front;
      PushPlaced(nodes[id := Array(front)], before, id, last);
      assert nodes[id := Array(front)][id := Array(front + [last])] == nodes[id := Array(ids)];
      places' := before[last := At(id, |front|)];
    }
  }

  // ---------------------------------------------------------------- values and pairs

  lemma NewNamesFree(d: Doc, places: Places)
    requires Good(d) && Placed(d.nodes, places)
    ensures d.next !in d.nodes && d.next !in places && d.next != ROOT
  {
    assert d.next in d.nodes ==> d.next < d.next;
  }

  lemma DottedStepPlaced(d: Doc, places: Places, table: nat, segment: string) returns (places': Places)
    requires Good(d) && IsTable(d, table) && Placed(d.nodes, places) && DottedStep(d, table, segment).Ok?
    ensures Placed(DottedStep(d, table, segment).value.0.nodes, places') && SamePlaces(d.next, places, places')
  {
    places' := places;
    if Get(d, table, segment).None? {
      NewNamesFree(d, places);
      var nodes := d.nodes[d.next := Table(map[])];
      NewPlaced(d.nodes, places, d.next, Table(map[]));
      EmplacePlaced(nodes, places, table, segment, d.next);
      places' := places[d.next := Under(table, segment)];
    }
  }

  lemma {:induction false} DottedWalkPlaced(d: Doc, places: Places, table: nat, segments: seq<string>)
    returns (places': Places)
    requires Good(d) && IsTable(d, table) && Placed(d.nodes, places) && DottedWalk(d, table, segments).Ok?
    ensures Placed(DottedWalk(d, table, segments).value.0.nodes, places') && SamePlaces(d.next, places, places')
    decreases |segments|
  {
    places' := places;
    if segments != [] {
      DottedStepKept(d, table, segments[0]);
      var first := DottedStepPlaced(d, places, table, segments[0]);
      var (d1, table1) := DottedStep(d, table, segments[0]).value;
      places' := DottedWalkPlaced(d1, first, table1, segments[1..]);
    }
  }

  lemma InsertValuePlaced(d: Doc, places: Places, table: nat, key: seq<string>, value: nat) returns (places': Places)
    requires Good(d) && IsTable(d, table) && Placed(d.nodes, places) && key != [] && Loose(d.nodes, places, value)
    requires InsertValue(d, table, key, value).Ok?
    ensures Placed(InsertValue(d, table, key, value).value.nodes, places')
    ensures forall c :: 0 <= c < d.next && c != value ==>
      (c in places <==> c in places') && (c in places ==> places'[c] == places[c])
  {
    var segments, last := key[..|key| - 1], key[|key| - 1];
    DottedWalkKept(d, table, segments);
    var walked := DottedWalkPlaced(d, places, table, segments);
    var (d', table') := DottedWalk(d, table, segments).value;
    assert value < d.next && value in d'.nodes;
    EmplacePlaced(d'.nodes, walked, table', last, value);
    places' := walked[value := Under(table', last)];
  }

  lemma {:induction false} PairPlaced(d: Doc, places: Places, table: nat, pair: Pair) returns (places': Places)
    requires Good(d) && IsTable(d, table) && Placed(d.nodes, places) && InsertPair(d, table, pair).Ok?
    ensures Placed(InsertPair(d, table, pair).value.nodes, places') && SamePlaces(d.next, places, places')
    decreases pair, 1
  {
    ValueKept(d, pair.value);
    var built := ValuePlaced(d, places, pair.value);
    var (d', value) := BuildValue(d, pair.value).value;
    places' := InsertValuePlaced(d', built, table, pair.key, value);
  }

  lemma {:induction false} ValuePlaced(d: Doc, places: Places, value: Value) returns (places': Places)
    requires Good(d) && Placed(d.nodes, places) && BuildValue(d, value).Ok?
    ensures var (d', id) := BuildValue(d, value).value;
      Placed(d'.nodes, places') && SamePlaces(d.next, places, places') && Loose(d'.nodes, places', id) && d.next <= id
    decreases value, 2
  {
    NewNamesFree(d, places);
    match value
    case ScalarValue =>
      NewPlaced(d.nodes, places, d.next, Scalar);
      places' := places;
    case ArrayValue(items) =>
      ItemsKept(d, items);
      var built := ItemsPlaced(d, places, items);
      var (d', ids) := BuildItems(d, items).value;
      NewNamesFree(d', built);
      places' := ArrayPlaced(d'.nodes, built, d'.next, ids);
    case InlineTable(pairs) =>
      var d' := Make(d, Table(map[]), Inline);
      MakeKept(d, Table(map[]), Inline);
      NewPlaced(d.nodes, places, d.next, Table(map[]));
      PairsKept(d', d.next, pairs);
      places' := PairsPlaced(d', places, d.next, pairs);
  }

  lemma OneMoreLoose(d: Doc, nodes: Nodes, places: Places, places': Places, ids: seq<nat>, id: nat)
    requires Good(d) && AllLoose(d.nodes, places, ids) && d.nodes.Keys <= nodes.Keys
    requires SamePlaces(d.next, places, places') && Loose(nodes, places', id) && d.next <= id
    ensures AllLoose(nodes, places', ids + [id])
  {
    assert forall i :: 0 <= i < |ids| ==> ids[i] in d.nodes && ids[i] < d.next;
    DistinctSnoc(ids, id);
  }

  lemma {:induction false} ItemsPlaced(d: Doc, places: Places, items: seq<Value>) returns (places': Places)
    requires Good(d) && Placed(d.nodes, places) && BuildItems(d, items).Ok?
    ensures var (d', ids) := BuildItems(d, items).value;
      && Placed(d'.nodes, places') && SamePlaces(d.next, places, places')
      && AllLoose(d'.nodes, places', ids) && forall i :: 0 <= i < |ids| ==> d.next <= ids[i]
    decreases items, 1
  {
    places' := places;
    if items != [] {
      var front := items[..|items| - 1];
      ItemsKept(d, front);
      var before := ItemsPlaced(d, places, front);
      var (d1, ids) := BuildItems(d, front).value;
      ValueKept(d1, items[|items| - 1]);
      places' := ValuePlaced(d1, before, items[|items| - 1]);
      var (d2, id) := BuildValue(d1, items[|items| - 1]).value;
      OneMoreLoose(d1, d2.nodes, before, places', ids, id);
      SamePlacesTrans(d.next, d1.next, places, before, places');
    }
  }

  lemma {:induction false} PairsPlaced(d: Doc, places: Places, table: nat, pairs: seq<Pair>) returns (places': Places)
    requires Good(d) && IsTable(d, table) && Placed(d.nodes, places) && InsertPairs(d, table, pairs).Ok?
    ensures Placed(InsertPairs(d, table, pairs).value.nodes, places') && SamePlaces(d.next, places, places')
    decreases pairs, 1
  {
    places' := places;
    if pairs != [] {
      var front := pairs[..|pairs| - 1];
      PairsKept(d, table, front);
      var before := PairsPlaced(d, places, table, front);
      places' := PairPlaced(InsertPairs(d, table, front).value, before, table, pairs[|pairs| - 1]);
    }
  }

  // ---------------------------------------------------------------- headers and documents

  lemma HeaderStepPlaced(d: Doc, places: Places, parent: nat, segment: string) returns (places': Places)
    requires Good(d) && IsTable(d, parent) && Placed(d.nodes, places) && HeaderStep(d, parent, segment).Ok?
    ensures Placed(HeaderStep(d, parent, segment).value.0.nodes, places')
  {
    places' := places;
    if Get(d, parent, segment).None? {
      NewNamesFree(d, places);
      NewPlaced(d.nodes, places, d.next, Table(map[]));
      EmplacePlaced(d.nodes[d.next := Table(map[])], places, parent, segment, d.next);
      places' := places[d.next := Under(parent, segment)];
    }
  }

  lemma {:induction false} HeaderWalkPlaced(d: Doc, places: Places, parent: nat, segments: seq<string>)
    returns (places': Places)
    requires Good(d) && IsTable(d, parent) && Placed(d.nodes, places) && HeaderWalk(d, parent, segments).Ok?
    ensures Placed(HeaderWalk(d, parent, segments).value.0.nodes, places')
    decreases |segments|
  {
    places' := places;
    if segments != [] {
      HeaderStepKept(d, parent, segments[0]);
      var first := HeaderStepPlaced(d, places, parent, segments[0]);
      var (d1, parent1) := HeaderStep(d, parent, segments[0]).value;
      places' := HeaderWalkPlaced(d1, first, parent1, segments[1..]);
    }
  }

  lemma NewArrayPlaced(d: Doc, places: Places, parent: nat, key: string) returns (places': Places)
    requires Good(d) && IsTable(d, parent) && Placed(d.nodes, places) && Get(d, parent, key).None?
    ensures Placed(HeaderEnd(d, parent, key, true).value.0.nodes, places')
  {
    NewNamesFree(d, places);
    assert d.next + 1 in d.nodes ==> d.next + 1 < d.next;
    ElementPlaced(d.nodes, places, d.next, d.next + 1);
    var nodes := d.nodes[d.next := Table(map[])][d.next + 1 := Array([d.next])];
    places' := places[d.next := At(d.next + 1, 0)];
    EmplacePlaced(nodes, places', parent, key, d.next + 1);
    places' := places'[d.next + 1 := Under(parent, key)];
  }

  // A new array of one new table.
  lemma ElementPlaced(nodes: Nodes, places: Places, table: nat, array_: nat)
    requires Placed(nodes, places) && table !in nodes && array_ !in nodes && table != array_ && table != ROOT
    ensures Placed(nodes[table := Table(map[])][array_ := Array([table])], places[table := At(array_, 0)])
  {
    NewPlaced(nodes, places, table, Table(map[]));
    var withTable := nodes[table := Table(map[])];
    NewPlaced(withTable, places, array_, Array([]));
    var withArray := withTable[array_ := Array([])];
    PushPlaced(withArray, places, array_, table);
    assert [] + [table] == [table];
    assert withArray[array_ := Array([table])] == withTable[array_ := Array([table])];
  }

  lemma HeaderEndPlaced(d: Doc, places: Places, parent: nat, key: string, isArray: bool) returns (places': Places)
    requires Good(d) && IsTable(d, parent) && Placed(d.nodes, places) && HeaderEnd(d, parent, key, isArray).Ok?
    ensures Placed(HeaderEnd(d, parent, key, isArray).value.0.nodes, places')
  {
    places' := places;
    NewNamesFree(d, places);
    NewPlaced(d.nodes, places, d.next, Table(map[]));
    match Get(d, parent, key)
    case None =>
      if isArray {
        places' := NewArrayPlaced(d, places, parent, key);
      } else {
        EmplacePlaced(d.nodes[d.next := Table(map[])], places, parent, key, d.next);
        places' := places[d.next := Under(parent, key)];
      }
    case Some(node) =>
      if isArray {
        PushPlaced(d.nodes[d.next := Table(map[])], places, node, d.next);
        places' := places[d.next := At(node, |d.nodes[node].items|)];
      }
  }

  lemma HeaderPlaced(d: Doc, places: Places, key: seq<string>, isArray: bool) returns (places': Places)
    requires Good(d) && Placed(d.nodes, places) && key != [] && ParseHeader(d, key, isArray).Ok?
    ensures Placed(ParseHeader(d, key, isArray).value.0.nodes, places')
  {
    var segments := key[..|key| - 1];
    HeaderWalkKept(d, ROOT, segments);
    var walked := HeaderWalkPlaced(d, places, ROOT, segments);
    var (d', parent) := HeaderWalk(d, ROOT, segments).value;
    places' := HeaderEndPlaced(d', walked, parent, key[|key| - 1], isArray);
  }

  // Whatever a document builds is a tree.
  lemma {:induction false} DocumentPlaced(items: seq<Item>) returns (places: Places)
    requires Run(items).Ok?
    ensures Placed(Run(items).value.0.nodes, places)
  {
    places := map[];
    if items != [] {
      var before, item := items[..|items| - 1], items[|items| - 1];
      var first := DocumentPlaced(before);
      DocumentSafe(before);
      var (d, returned) := Run(before).value;
      match item
      case HeaderItem(key, isArray) => places := HeaderPlaced(d, first, key, isArray);
      case PairItem(pair) =>
        CurrentIsTable(d, returned);
        places := PairPlaced(d, first, Current(returned), pair);
    }
  }
}
