/**
 What stands under a header's key once the header has been accepted, and exactly how long that
 key goes on naming it.
 */
module TomlTreeHeaders {
  import opened Basics
  import opened TomlTables
  import opened TomlTreeSafety
  import opened TomlTreeMeaning
  import opened TomlTreePlaces

  // ---------------------------------------------------------------- paths

  // A path is its parts before the last, and then the node the last one names.
  lemma {:induction false} ResolveSnoc(d: Doc, table: nat, segments: seq<string>)
    requires segments != []
    ensures Resolve(d, table, segments) ==
      match Named(d, table, segments) case None => None case Some(node) => Through(d, node)
    decreases |segments|
  {
    if |segments| == 1 {
      assert segments[..0] == [] && segments[1..] == [];
    } else {
      match Get(d, table, segments[0])
      case None => assert segments[..|segments| - 1][0] == segments[0];
      case Some(child) =>
        assert segments[..|segments| - 1][0] == segments[0];
        assert segments[..|segments| - 1][1..] == segments[1..][..|segments| - 2];
        if Through(d, child).Some? { ResolveSnoc(d, Through(d, child).value, segments[1..]); }
    }
  }

  // A path that leads somewhere goes through named nodes only.
  lemma {:induction false} ResolvePrefix(d: Doc, segments: seq<string>, m: nat)
    requires 0 < m <= |segments| && Resolve(d, ROOT, segments).Some?
    ensures Named(d, ROOT, segments[..m]).Some? && Resolve(d, ROOT, segments[..m]).Some?
    decreases |segments|
  {
    ResolveSnoc(d, ROOT, segments);
    if m == |segments| {
      assert segments[..m] == segments;
    } else {
      var front := segments[..|segments| - 1];
      assert front[..m] == segments[..m];
      ResolvePrefix(d, front, m);
    }
  }

  lemma ResolvedIsClear(d: Doc, segments: seq<string>)
    requires Resolve(d, ROOT, segments).Some?
    ensures Clear(d, ROOT, segments)
  {
    forall m | 0 < m <= |segments| ensures Open(d, Named(d, ROOT, segments[..m])) {
      ResolvePrefix(d, segments, m);
      ResolveSnoc(d, ROOT, segments[..m]);
    }
  }

  // The node stands under the table, or is the last item of the array, that the path goes through.
  lemma ThroughPlace(d: Doc, places: Places, node: nat, table: nat)
    requires Placed(d.nodes, places) && Through(d, node) == Some(table) && node in places
    ensures table in places
    ensures NodeAt(d, node).Table? ==> table == node
    ensures NodeAt(d, node).Array? ==>
      NodeAt(d, node).items != [] && places[table] == At(node, |NodeAt(d, node).items| - 1)
  {
  }

  lemma NamedPlace(d: Doc, places: Places, segments: seq<string>)
    requires Placed(d.nodes, places) && segments != [] && Named(d, ROOT, segments).Some?
    ensures Named(d, ROOT, segments).value in places && Resolve(d, ROOT, segments[..|segments| - 1]).Some?
    ensures places[Named(d, ROOT, segments).value]
      == Under(Resolve(d, ROOT, segments[..|segments| - 1]).value, segments[|segments| - 1])
  {
  }

  // In a tree different paths lead to different tables, and different keys name different nodes.
  lemma {:induction false} ResolveUnique(d: Doc, places: Places, a: seq<string>, b: seq<string>)
    requires Placed(d.nodes, places) && Resolve(d, ROOT, a).Some? && Resolve(d, ROOT, a) == Resolve(d, ROOT, b)
    ensures a == b
    decreases |a|
  {
    if a != [] {
      ResolveSnoc(d, ROOT, a);
      NamedPlace(d, places, a);
      ThroughPlace(d, places, Named(d, ROOT, a).value, Resolve(d, ROOT, a).value);
    }
    if b != [] {
      ResolveSnoc(d, ROOT, b);
      NamedPlace(d, places, b);
      ThroughPlace(d, places, Named(d, ROOT, b).value, Resolve(d, ROOT, b).value);
    }
    if a != [] && b != [] {
      assert Named(d, ROOT, a) == Named(d, ROOT, b);
      ResolveUnique(d, places, a[..|a| - 1], b[..|b| - 1]);
      assert a == a[..|a| - 1] + [a[|a| - 1]] && b == b[..|b| - 1] + [b[|b| - 1]];
    }
  }

  lemma NamedUnique(d: Doc, places: Places, a: seq<string>, b: seq<string>)
    requires Placed(d.nodes, places) && a != [] && b != []
    requires Named(d, ROOT, a).Some? && Named(d, ROOT, a) == Named(d, ROOT, b)
    ensures a == b
  {
    NamedPlace(d, places, a);
    NamedPlace(d, places, b);
    ResolveUnique(d, places, a[..|a| - 1], b[..|b| - 1]);
    assert a == a[..|a| - 1] + [a[|a| - 1]] && b == b[..|b| - 1] + [b[|b| - 1]];
  }

  // ---------------------------------------------------------------- paths in later documents

  // The node, if an array, has not grown.
  predicate Unmoved(d: Doc, d': Doc, node: Option<nat>) {
    node.Some? && NodeAt(d, node.value).Array? ==> NodeAt(d', node.value) == NodeAt(d, node.value)
  }

  // No array of tables on the path has grown.
  ghost predicate Steady(d: Doc, d': Doc, segments: seq<string>) {
    forall m :: 0 < m <= |segments| ==> Unmoved(d, d', Named(d, ROOT, segments[..m]))
  }

  lemma ThroughGrows(d: Doc, d': Doc, node: nat)
    requires Good(d) && Good(d') && Grows(d, d') && Through(d, node).Some? && Unmoved(d, d', Some(node))
    ensures Through(d', node) == Through(d, node)
  {
    assert node in d.nodes && NodeGrows(d.nodes[node], d'.nodes[node]);
    if NodeAt(d, node).Array? { assert OriginOf(d, node).TableArray? && OriginOf(d', node).TableArray?; }
  }

  lemma SteadySnoc(d: Doc, d': Doc, segments: seq<string>)
    requires segments != []
    ensures Steady(d, d', segments) <==>
      Steady(d, d', segments[..|segments| - 1]) && Unmoved(d, d', Named(d, ROOT, segments))
  {
    var front := segments[..|segments| - 1];
    assert segments[..|segments|] == segments;
    assert forall m :: 0 < m <= |front| ==> front[..m] == segments[..m];
    if Steady(d, d', segments) {
      forall m | 0 < m <= |front| ensures Unmoved(d, d', Named(d, ROOT, front[..m])) {
        assert Unmoved(d, d', Named(d, ROOT, segments[..m]));
      }
    }
    if Steady(d, d', front) && Unmoved(d, d', Named(d, ROOT, segments)) {
      forall m | 0 < m <= |segments| ensures Unmoved(d, d', Named(d, ROOT, segments[..m])) {
        if m < |segments| { assert Unmoved(d, d', Named(d, ROOT, front[..m])); }
      }
    }
  }

  lemma {:induction false} SteadyResolves(d: Doc, d': Doc, segments: seq<string>)
    requires Good(d) && Good(d') && Grows(d, d') && Steady(d, d', segments) && Resolve(d, ROOT, segments).Some?
    ensures Resolve(d', ROOT, segments) == Resolve(d, ROOT, segments)
    decreases |segments|
  {
    if segments != [] {
      var front := segments[..|segments| - 1];
      ResolveSnoc(d, ROOT, segments);
      ResolveSnoc(d', ROOT, segments);
      SteadySnoc(d, d', segments);
      SteadyResolves(d, d', front);
      GetGrows(d, d', Resolve(d, ROOT, front).value, segments[|segments| - 1]);
      ThroughGrows(d, d', Named(d, ROOT, segments).value);
    }
  }

  lemma SteadyNames(d: Doc, d': Doc, key: seq<string>)
    requires Good(d) && Good(d') && Grows(d, d') && key != [] && Named(d, ROOT, key).Some?
    requires Steady(d, d', key[..|key| - 1])
    ensures Named(d', ROOT, key) == Named(d, ROOT, key)
  {
    SteadyResolves(d, d', key[..|key| - 1]);
    GetGrows(d, d', Resolve(d, ROOT, key[..|key| - 1]).value, key[|key| - 1]);
  }

  // What stands in a place stays in it.
  lemma PlaceStays(d: Doc, d': Doc, places': Places, place: Place, child: nat)
    requires Grows(d, d') && Placed(d'.nodes, places') && StandsAt(d.nodes, place, child)
    ensures child in places' && places'[child] == place
  {
    match place
    case Under(t, k) => assert NodeGrows(d.nodes[t], d'.nodes[t]);
    case At(a, i) => assert NodeGrows(d.nodes[a], d'.nodes[a]);
  }

  // A path that leads to the same table as before goes the same way, past arrays that have not grown.
  lemma {:induction false} SameResolvedIsSteady(d: Doc, d': Doc, places': Places, segments: seq<string>)
    requires Good(d) && Grows(d, d') && Placed(d'.nodes, places')
    requires Resolve(d, ROOT, segments).Some? && Resolve(d', ROOT, segments) == Resolve(d, ROOT, segments)
    ensures Steady(d, d', segments)
    decreases |segments|
  {
    if segments != [] {
      SameStep(d, d', places', segments);
      SameResolvedIsSteady(d, d', places', segments[..|segments| - 1]);
      SteadySnoc(d, d', segments);
    }
  }

  // The last part of such a path.
  lemma SameStep(d: Doc, d': Doc, places': Places, segments: seq<string>)
    requires Good(d) && Grows(d, d') && Placed(d'.nodes, places') && segments != []
    requires Resolve(d, ROOT, segments).Some? && Resolve(d', ROOT, segments) == Resolve(d, ROOT, segments)
    ensures Unmoved(d, d', Named(d, ROOT, segments))
    ensures Resolve(d, ROOT, segments[..|segments| - 1]).Some?
    ensures Resolve(d', ROOT, segments[..|segments| - 1]) == Resolve(d, ROOT, segments[..|segments| - 1])
  {
    ResolveSnoc(d, ROOT, segments);
    ResolveSnoc(d', ROOT, segments);
    var table := Resolve(d, ROOT, segments).value;
    var node, node' := Named(d, ROOT, segments).value, Named(d', ROOT, segments).value;
    var place := Under(Resolve(d, ROOT, segments[..|segments| - 1]).value, segments[|segments| - 1]);
    NamedPlace(d', places', segments);
    assert StandsAt(d.nodes, place, node) && node in d.nodes;
    PlaceStays(d, d', places', place, node);
    if NodeAt(d, node).Array? {
      SameArray(d, d', places', node, node', table);
    } else {
      SameTable(d, d', places', node, node', table, place);
    }
  }

  lemma SameArray(d: Doc, d': Doc, places': Places, node: nat, node': nat, table: nat)
    requires Grows(d, d') && Placed(d'.nodes, places') && node in d.nodes && d.nodes[node].Array?
    requires Through(d, node) == Some(table) && Through(d', node') == Some(table)
    requires node' in places' && places'[node'].Under?
    ensures node == node' && d'.nodes[node] == d.nodes[node]
  {
    var items := d.nodes[node].items;
    assert NodeGrows(d.nodes[node], d'.nodes[node]);
    assert StandsAt(d.nodes, At(node, |items| - 1), table);
    PlaceStays(d, d', places', At(node, |items| - 1), table);
    ThroughPlace(d', places', node', table);
    assert d'.nodes[node].items[..|items|] == items;
  }

  lemma SameTable(d: Doc, d': Doc, places': Places, node: nat, node': nat, table: nat, place: Place)
    requires Grows(d, d') && Placed(d'.nodes, places') && StandsAt(d.nodes, place, node) && place.Under?
    requires node in d.nodes && d.nodes[node].Table?
    requires Through(d, node) == Some(table) && Through(d', node') == Some(table) && node' in places'
    ensures node == node'
  {
    PlaceStays(d, d', places', place, node);
    ThroughPlace(d', places', node', table);
  }

  /** In a later document the key names the same node exactly if no array of tables on its path
      has grown. */
  lemma NamesSameExactly(d: Doc, d': Doc, places': Places, key: seq<string>)
    requires Good(d) && Good(d') && Grows(d, d') && Placed(d'.nodes, places') && key != [] && Named(d, ROOT, key).Some?
    ensures Named(d', ROOT, key) == Named(d, ROOT, key) <==> Steady(d, d', key[..|key| - 1])
  {
    var segments, last := key[..|key| - 1], key[|key| - 1];
    if Steady(d, d', segments) {
      SteadyNames(d, d', key);
    } else if Named(d', ROOT, key) == Named(d, ROOT, key) {
      var node := Named(d, ROOT, key).value;
      assert StandsAt(d.nodes, Under(Resolve(d, ROOT, segments).value, last), node);
      PlaceStays(d, d', places', Under(Resolve(d, ROOT, segments).value, last), node);
      NamedPlace(d', places', key);
      SameResolvedIsSteady(d, d', places', segments);
    }
  }

  // ---------------------------------------------------------------- what one header leaves

  // The walk over a header's parents extends no array.
  ghost predicate SameArrays(d: Doc, d': Doc) {
    && (forall id :: NodeAt(d, id).Array? ==> NodeAt(d', id) == NodeAt(d, id))
    && (forall id :: id in d.tableArrays ==> id in d'.tableArrays)
  }

  lemma {:induction false} WalkKeepsArrays(d: Doc, parent: nat, segments: seq<string>)
    requires Good(d) && IsTable(d, parent) && HeaderWalk(d, parent, segments).Ok?
    ensures SameArrays(d, HeaderWalk(d, parent, segments).value.0)
    decreases |segments|
  {
    if segments != [] {
      HeaderStepKept(d, parent, segments[0]);
      StepKeepsArrays(d, parent, segments[0]);
      var (d1, parent1) := HeaderStep(d, parent, segments[0]).value;
      WalkKeepsArrays(d1, parent1, segments[1..]);
    }
  }

  lemma StepKeepsArrays(d: Doc, parent: nat, segment: string)
    requires Good(d) && IsTable(d, parent) && HeaderStep(d, parent, segment).Ok?
    ensures SameArrays(d, HeaderStep(d, parent, segment).value.0)
  {
  }

  lemma StepLeads(d: Doc, parent: nat, segment: string)
    requires Good(d) && IsTable(d, parent) && HeaderStep(d, parent, segment).Ok?
    ensures var (d', parent') := HeaderStep(d, parent, segment).value;
      Get(d', parent, segment).Some? && Through(d', Get(d', parent, segment).value) == Some(parent')
  {
    HeaderStepKept(d, parent, segment);
    if Get(d, parent, segment).Some? { HeaderStepThrough(d, parent, segment, Get(d, parent, segment).value); }
  }

  // In the document after the walk the path leads to the table the walk ended in.
  lemma {:induction false} WalkLeads(d: Doc, parent: nat, segments: seq<string>)
    requires Good(d) && IsTable(d, parent) && HeaderWalk(d, parent, segments).Ok?
    ensures var (d', parent') := HeaderWalk(d, parent, segments).value; Resolve(d', parent, segments) == Some(parent')
    decreases |segments|
  {
    if segments != [] {
      StepLeads(d, parent, segments[0]);
      HeaderStepKept(d, parent, segments[0]);
      var (d1, parent1) := HeaderStep(d, parent, segments[0]).value;
      HeaderWalkKept(d1, parent1, segments[1..]);
      WalkKeepsArrays(d1, parent1, segments[1..]);
      WalkLeads(d1, parent1, segments[1..]);
      var d2 := HeaderWalk(d1, parent1, segments[1..]).value.0;
      GetGrows(d1, d2, parent, segments[0]);
      ThroughGrows(d1, d2, Get(d1, parent, segments[0]).value);
    }
  }

  // The end of a header extends no array but the one it names.
  lemma EndKeepsArrays(d: Doc, parent: nat, key: string, isArray: bool, id: nat)
    requires Good(d) && IsTable(d, parent) && HeaderEnd(d, parent, key, isArray).Ok?
    requires NodeAt(d, id).Array? && !(isArray && Get(d, parent, key) == Some(id))
    ensures NodeAt(HeaderEnd(d, parent, key, isArray).value.0, id) == NodeAt(d, id)
  {
  }

  // So the path to it stays what it was.
  lemma EndLeads(d: Doc, places: Places, segments: seq<string>, parent: nat, key: string, isArray: bool)
    requires Good(d) && Placed(d.nodes, places) && Resolve(d, ROOT, segments) == Some(parent) && IsTable(d, parent)
    requires HeaderEnd(d, parent, key, isArray).Ok?
    ensures Steady(d, HeaderEnd(d, parent, key, isArray).value.0, segments)
  {
    forall m | 0 < m <= |segments|
      ensures Unmoved(d, HeaderEnd(d, parent, key, isArray).value.0, Named(d, ROOT, segments[..m]))
    {
      ResolvePrefix(d, segments, m);
      if NodeAt(d, Named(d, ROOT, segments[..m]).value).Array? {
        NotOnItsPath(d, places, segments, parent, key, m);
        EndKeepsArrays(d, parent, key, isArray, Named(d, ROOT, segments[..m]).value);
      }
    }
  }

  lemma NotOnItsPath(d: Doc, places: Places, segments: seq<string>, parent: nat, key: string, m: nat)
    requires Placed(d.nodes, places) && Resolve(d, ROOT, segments) == Some(parent)
    requires 0 < m <= |segments| && Named(d, ROOT, segments[..m]).Some?
    ensures Named(d, ROOT, segments[..m]) != Get(d, parent, key)
  {
    var full := segments + [key];
    assert full[..|segments|] == segments;
    if Named(d, ROOT, segments[..m]) == Get(d, parent, key) { NamedUnique(d, places, full, segments[..m]); }
  }

  function ItemsOf(d: Doc, node: Option<nat>): seq<nat> {
    if node.Some? && NodeAt(d, node.value).Array? then NodeAt(d, node.value).items else []
  }

  // What stands under the key after the end of a header.
  lemma EndHeads(d: Doc, parent: nat, key: string, isArray: bool)
    requires Good(d) && IsTable(d, parent) && HeaderEnd(d, parent, key, isArray).Ok?
    ensures var (d', table) := HeaderEnd(d, parent, key, isArray).value;
      && Get(d', parent, key).Some?
      && var node := Get(d', parent, key).value;
      && (Get(d, parent, key).Some? ==> Get(d', parent, key) == Get(d, parent, key))
      && (if isArray then
            && node in d'.tableArrays && table !in d.nodes && Bare(d', table)
            && NodeAt(d', node) == Array(ItemsOf(d, Get(d, parent, key)) + [table])
          else
            && node == table
            && (if Get(d, parent, key).Some? then NodeAt(d', table) == NodeAt(d, table)
                else table !in d.nodes && Bare(d', table)))
  {
  }

  // What a header in double brackets leaves under its key: the array of tables, longer by one
  // new empty table, the one it returns.
  ghost predicate LeavesArray(d: Doc, d': Doc, key: seq<string>, table: nat)
    requires key != []
  {
    && Named(d', ROOT, key).Some? && Named(d', ROOT, key).value in d'.tableArrays
    && NodeAt(d', Named(d', ROOT, key).value) == Array(ItemsOf(d, Named(d, ROOT, key)) + [table])
    && table !in d.nodes && Bare(d', table)
  }

  // And in single brackets: the table it returns, empty unless it was there before.
  ghost predicate LeavesTable(d: Doc, d': Doc, key: seq<string>, table: nat)
    requires key != []
  {
    && Named(d', ROOT, key) == Some(table)
    && (if Named(d, ROOT, key).Some? then NodeAt(d', table) == NodeAt(d, table)
        else table !in d.nodes && Bare(d', table))
  }

  /** What an accepted header leaves under its key. */
  lemma HeaderLeaves(d: Doc, places: Places, key: seq<string>, isArray: bool)
    requires Good(d) && Placed(d.nodes, places) && key != [] && ParseHeader(d, key, isArray).Ok?
    ensures var (d', table) := ParseHeader(d, key, isArray).value;
      && (if isArray then LeavesArray(d, d', key, table) else LeavesTable(d, d', key, table))
      && (Named(d, ROOT, key).Some? ==> Named(d', ROOT, key) == Named(d, ROOT, key))
  {
    var segments, last := key[..|key| - 1], key[|key| - 1];
    HeaderWalkKept(d, ROOT, segments);
    HeaderWalkExact(d, ROOT, segments);
    WalkLeads(d, ROOT, segments);
    var walked := HeaderWalkPlaced(d, places, ROOT, segments);
    var (d1, parent) := HeaderWalk(d, ROOT, segments).value;
    HeaderEndDeclares(d1, parent, last, isArray);
    EndLeads(d1, walked, segments, parent, last, isArray);
    EndHeads(d1, parent, last, isArray);
    SteadyResolves(d1, HeaderEnd(d1, parent, last, isArray).value.0, segments);
  }

  // ---------------------------------------------------------------- what later items change

  // The item is a header in double brackets, for a proper part of the path.
  predicate ExtendsWay(item: Item, key: seq<string>) {
    item.HeaderItem? && item.isArray && |item.key| < |key| && item.key <= key
  }

  // The arrays that a header extends: the one it names, if it is in double brackets.
  lemma HeaderKeepsArrays(d: Doc, places: Places, key: seq<string>, isArray: bool, id: nat)
    requires Good(d) && Placed(d.nodes, places) && key != [] && ParseHeader(d, key, isArray).Ok? && NodeAt(d, id).Array?
    ensures NodeAt(ParseHeader(d, key, isArray).value.0, id) != NodeAt(d, id) <==>
      isArray && Named(d, ROOT, key) == Some(id)
  {
    var segments, last := key[..|key| - 1], key[|key| - 1];
    HeaderWalkKept(d, ROOT, segments);
    HeaderWalkExact(d, ROOT, segments);
    WalkKeepsArrays(d, ROOT, segments);
    var (d1, parent) := HeaderWalk(d, ROOT, segments).value;
    if isArray && Named(d, ROOT, key) == Some(id) {
      HeaderLeaves(d, places, key, isArray);
      assert |NodeAt(ParseHeader(d, key, isArray).value.0, id).items| > |NodeAt(d, id).items|;
    } else if !(isArray && Get(d1, parent, last) == Some(id)) {
      EndKeepsArrays(d1, parent, last, isArray, id);
    }
  }

  lemma ItemKeepsArrays(d: Doc, returned: seq<nat>, places: Places, item: Item, id: nat)
    requires Good(d) && Returned(d, returned) && Placed(d.nodes, places) && RunItem(d, returned, item).Ok?
    requires NodeAt(d, id).Array? && OriginOf(d, id).TableArray?
    ensures NodeAt(RunItem(d, returned, item).value.0, id) != NodeAt(d, id) <==>
      item.HeaderItem? && item.isArray && item.key != [] && Named(d, ROOT, item.key) == Some(id)
  {
    match item
    case HeaderItem(key, isArray) => HeaderKeepsArrays(d, places, key, isArray, id);
    case PairItem(pair) =>
      CurrentIsTable(d, returned);
      PairFrame(d, Current(returned), pair, 0);
  }

  // One more item at the end of a document in which the path still leads to the same table: it
  // stays steady exactly if the item does not extend an array on the way.
  lemma SteadyItem(d1: Doc, d: Doc, returned: seq<nat>, places: Places, item: Item, key: seq<string>)
    requires Good(d1) && Good(d) && Grows(d1, d) && Returned(d, returned) && Placed(d.nodes, places)
    requires key != [] && Resolve(d1, ROOT, key[..|key| - 1]).Some? && Steady(d1, d, key[..|key| - 1])
    requires RunItem(d, returned, item).Ok?
    ensures Steady(d1, RunItem(d, returned, item).value.0, key[..|key| - 1]) <==> !ExtendsWay(item, key)
  {
    var segments, d' := key[..|key| - 1], RunItem(d, returned, item).value.0;
    if item.HeaderItem? { assert item.key != []; }
    forall m | 0 < m <= |segments|
      ensures Unmoved(d1, d', Named(d1, ROOT, segments[..m])) <==>
        !(item.HeaderItem? && item.isArray && item.key == segments[..m])
    {
      SteadyPart(d1, d, segments, m);
      PartKept(d1, d, returned, places, item, segments, m);
    }
    WayExtended(item, key, segments);
  }

  lemma WayExtended(item: Item, key: seq<string>, segments: seq<string>)
    requires key != [] && segments == key[..|key| - 1] && (item.HeaderItem? ==> item.key != [])
    ensures ExtendsWay(item, key) <==>
      exists m :: 0 < m <= |segments| && item.HeaderItem? && item.isArray && item.key == segments[..m]
  {
    if ExtendsWay(item, key) { assert item.key == segments[..|item.key|]; }
  }

  lemma SteadyFront(d1: Doc, d: Doc, segments: seq<string>, m: nat)
    requires Steady(d1, d, segments) && m <= |segments|
    ensures Steady(d1, d, segments[..m])
  {
    var front := segments[..m];
    forall k | 0 < k <= |front| ensures Unmoved(d1, d, Named(d1, ROOT, front[..k])) {
      assert front[..k] == segments[..k];
    }
  }

  lemma PartThere(d: Doc, segments: seq<string>, m: nat)
    requires Good(d) && Resolve(d, ROOT, segments).Some? && 0 < m <= |segments|
    ensures Resolve(d, ROOT, segments[..m - 1]).Some? && Named(d, ROOT, segments[..m]).Some?
    ensures Through(d, Named(d, ROOT, segments[..m]).value).Some?
  {
    ResolvePrefix(d, segments, m);
    ResolveSnoc(d, ROOT, segments[..m]);
    assert segments[..m][..m - 1] == segments[..m - 1];
  }

  lemma SteadyBefore(d1: Doc, d: Doc, segments: seq<string>, m: nat)
    requires Steady(d1, d, segments) && 0 < m <= |segments|
    ensures |segments[..m]| == m && Steady(d1, d, segments[..m][..m - 1])
    ensures Unmoved(d1, d, Named(d1, ROOT, segments[..m]))
  {
    SteadyFront(d1, d, segments, m - 1);
    assert segments[..m][..m - 1] == segments[..m - 1];
  }

  // A part of the path is still named the same.
  lemma SteadyPart(d1: Doc, d: Doc, segments: seq<string>, m: nat)
    requires Good(d1) && Good(d) && Grows(d1, d) && Steady(d1, d, segments) && Resolve(d1, ROOT, segments).Some?
    requires 0 < m <= |segments|
    ensures Named(d1, ROOT, segments[..m]).Some? && Named(d, ROOT, segments[..m]) == Named(d1, ROOT, segments[..m])
    ensures Through(d1, Named(d1, ROOT, segments[..m]).value).Some?
    ensures Unmoved(d1, d, Named(d1, ROOT, segments[..m]))
  {
    PartThere(d1, segments, m);
    SteadyBefore(d1, d, segments, m);
    var part := segments[..m];
    SteadyNames(d1, d, part);
  }

  lemma PartKept(d1: Doc, d: Doc, returned: seq<nat>, places: Places, item: Item, segments: seq<string>, m: nat)
    requires Good(d1) && Good(d) && Grows(d1, d) && Returned(d, returned) && Placed(d.nodes, places)
    requires RunItem(d, returned, item).Ok? && 0 < m <= |segments|
    requires Named(d1, ROOT, segments[..m]).Some? && Named(d, ROOT, segments[..m]) == Named(d1, ROOT, segments[..m])
    requires Through(d1, Named(d1, ROOT, segments[..m]).value).Some? && Unmoved(d1, d, Named(d1, ROOT, segments[..m]))
    ensures Unmoved(d1, RunItem(d, returned, item).value.0, Named(d1, ROOT, segments[..m])) <==>
      !(item.HeaderItem? && item.isArray && item.key == segments[..m])
  {
    var node := Named(d1, ROOT, segments[..m]).value;
    assert node in d1.nodes && NodeGrows(d1.nodes[node], d.nodes[node]);
    if NodeAt(d1, node).Array? {
      assert OriginOf(d1, node).TableArray? && OriginOf(d, node).TableArray?;
      ItemKeepsArrays(d, returned, places, item, node);
      if item.HeaderItem? && item.key != [] && Named(d, ROOT, item.key) == Some(node) {
        NamedUnique(d, places, item.key, segments[..m]);
      }
    } else if item.HeaderItem? && item.isArray && item.key == segments[..m] {
      HeaderAcceptedExactly(d, item.key, true);
      assert false;
    }
  }

  lemma OneStepLater(d1: Doc, d: Doc, returned: seq<nat>, places: Places, item: Item, key: seq<string>)
    requires Good(d1) && Good(d) && Grows(d1, d) && Returned(d, returned) && Placed(d.nodes, places)
    requires key != [] && Resolve(d1, ROOT, key[..|key| - 1]).Some? && RunItem(d, returned, item).Ok?
    ensures var d', segments := RunItem(d, returned, item).value.0, key[..|key| - 1];
      Steady(d1, d', segments) <==> Steady(d1, d, segments) && !ExtendsWay(item, key)
  {
    var d', segments := RunItem(d, returned, item).value.0, key[..|key| - 1];
    ItemSafe(d, returned, item);
    if Steady(d1, d, segments) {
      SteadyItem(d1, d, returned, places, item, key);
    } else if Steady(d1, d', segments) {
      GrownStaysGrown(d1, d, d', segments);
    }
  }

  lemma GrownStaysGrown(d1: Doc, d: Doc, d': Doc, segments: seq<string>)
    requires Good(d1) && Grows(d1, d) && Grows(d, d') && Steady(d1, d', segments)
    ensures Steady(d1, d, segments)
  {
    forall m | 0 < m <= |segments| ensures Unmoved(d1, d, Named(d1, ROOT, segments[..m])) {
      var node := Named(d1, ROOT, segments[..m]);
      assert Unmoved(d1, d', node);
      if node.Some? && NodeAt(d1, node.value).Array? {
        assert NodeGrows(d1.nodes[node.value], d.nodes[node.value])
          && NodeGrows(d.nodes[node.value], d'.nodes[node.value]);
      }
    }
  }

  // ---------------------------------------------------------------- whole documents

  lemma RunOneMore(items: seq<Item>, item: Item)
    requires Run(items + [item]).Ok?
    ensures Run(items).Ok? && Run(items + [item]) == RunItem(Run(items).value.0, Run(items).value.1, item)
  {
    assert (items + [item])[..|items|] == items;
  }

  // What the items after the first ones add to what those have built.
  lemma RunGrows(start: seq<Item>, more: seq<Item>)
    requires Run(start + more).Ok?
    ensures Run(start).Ok? && Grows(Run(start).value.0, Run(start + more).value.0)
    ensures Good(Run(start).value.0) && Good(Run(start + more).value.0)
    ensures Returned(Run(start + more).value.0, Run(start + more).value.1)
  {
    NothingReplaced(start + more, |start|);
    assert (start + more)[..|start|] == start;
    DocumentSafe(start);
    DocumentSafe(start + more);
  }

  // None of the items extends an array on the key's way.
  ghost predicate WayLeft(more: seq<Item>, key: seq<string>) {
    forall m :: 0 <= m < |more| ==> !ExtendsWay(more[m], key)
  }

  lemma SteadyOneMore(start: seq<Item>, front: seq<Item>, item: Item, key: seq<string>)
    requires Run(start + front + [item]).Ok? && Run(start).Ok?
    requires key != [] && Resolve(Run(start).value.0, ROOT, key[..|key| - 1]).Some?
    ensures Run(start + front).Ok?
    ensures var d1, segments := Run(start).value.0, key[..|key| - 1];
      Steady(d1, Run(start + front + [item]).value.0, segments) <==>
        Steady(d1, Run(start + front).value.0, segments) && !ExtendsWay(item, key)
  {
    RunOneMore(start + front, item);
    RunGrows(start, front);
    var places := DocumentPlaced(start + front);
    OneStepLater(Run(start).value.0, Run(start + front).value.0, Run(start + front).value.1, places, item, key);
  }

  lemma {:induction false} SteadyWhileLeft(start: seq<Item>, more: seq<Item>, key: seq<string>)
    requires Run(start + more).Ok? && Run(start).Ok?
    requires key != [] && Resolve(Run(start).value.0, ROOT, key[..|key| - 1]).Some?
    ensures Steady(Run(start).value.0, Run(start + more).value.0, key[..|key| - 1]) <==> WayLeft(more, key)
    decreases |more|
  {
    if more == [] {
      assert start + more == start;
    } else {
      var front, item := more[..|more| - 1], more[|more| - 1];
      Regroup(start, front, [item]);
      assert more == front + [item];
      SteadyOneMore(start, front, item, key);
      SteadyWhileLeft(start, front, key);
      WayLeftSnoc(front, item, key);
    }
  }

  lemma WayLeftSnoc(front: seq<Item>, item: Item, key: seq<string>)
    ensures WayLeft(front + [item], key) <==> WayLeft(front, key) && !ExtendsWay(item, key)
  {
    if WayLeft(front + [item], key) {
      forall m | 0 <= m < |front| ensures !ExtendsWay(front[m], key) { assert (front + [item])[m] == front[m]; }
      assert (front + [item])[|front|] == item;
    }
  }

  // What a header in a document leaves under its key.
  lemma HeaderThere(first: seq<Item>, key: seq<string>, isArray: bool)
    requires key != [] && Run(first + [HeaderItem(key, isArray)]).Ok?
    ensures Run(first).Ok?
    ensures var d, d1 := Run(first).value.0, Run(first + [HeaderItem(key, isArray)]).value.0;
      var table := Current(Run(first + [HeaderItem(key, isArray)]).value.1);
      if isArray then LeavesArray(d, d1, key, table) else LeavesTable(d, d1, key, table)
  {
    RunOneMore(first, HeaderItem(key, isArray));
    DocumentSafe(first);
    var places := DocumentPlaced(first);
    HeaderLeaves(Run(first).value.0, places, key, isArray);
  }

  /** What a header left under its key is named by that key in a later document exactly if no
      header in double brackets for a proper part of the key has come since. */
  lemma HeaderFoundExactly(first: seq<Item>, key: seq<string>, isArray: bool, more: seq<Item>)
    requires key != [] && Run(first + [HeaderItem(key, isArray)] + more).Ok?
    ensures Run(first + [HeaderItem(key, isArray)]).Ok?
    ensures var d1, d := Run(first + [HeaderItem(key, isArray)]).value.0,
        Run(first + [HeaderItem(key, isArray)] + more).value.0;
      && Named(d1, ROOT, key).Some?
      && (Named(d, ROOT, key) == Named(d1, ROOT, key) <==> WayLeft(more, key))
  {
    var start := first + [HeaderItem(key, isArray)];
    RunGrows(start, more);
    HeaderThere(first, key, isArray);
    SteadyWhileLeft(start, more, key);
    var places := DocumentPlaced(start + more);
    NamesSameExactly(Run(start).value.0, Run(start + more).value.0, places, key);
  }

  // Whether it is named or not, it is still there: an array of tables with its tables where they
  // were put, or the table.
  lemma NodeStays(d: Doc, d1: Doc, d': Doc, key: seq<string>, isArray: bool, table: nat)
    requires Good(d1) && Good(d') && Grows(d1, d') && key != []
    requires if isArray then LeavesArray(d, d1, key, table) else LeavesTable(d, d1, key, table) && IsTable(d1, table)
    ensures Named(d1, ROOT, key).Some? && IsTable(d', table)
    ensures isArray ==>
      && Named(d1, ROOT, key).value in d'.tableArrays
      && ItemsOf(d1, Named(d1, ROOT, key)) <= ItemsOf(d', Named(d1, ROOT, key))
  {
    var node := Named(d1, ROOT, key).value;
    assert table in d1.nodes && NodeGrows(d1.nodes[table], d'.nodes[table]);
    if isArray {
      assert node in d1.nodes && NodeGrows(d1.nodes[node], d'.nodes[node]);
      assert OriginOf(d1, node).TableArray? && OriginOf(d', node).TableArray?;
    }
  }

  /** So [[key]] is accepted again after [[key]], at once and as long as its way is left alone. */
  lemma ArrayHeaderAgain(first: seq<Item>, key: seq<string>, more: seq<Item>)
    requires key != [] && Run(first + [HeaderItem(key, true)] + more).Ok? && WayLeft(more, key)
    ensures Run(first + [HeaderItem(key, true)] + more + [HeaderItem(key, true)]).Ok?
  {
    var start := first + [HeaderItem(key, true)];
    HeaderFoundExactly(first, key, true, more);
    HeaderThere(first, key, true);
    RunGrows(start, more);
    var d := Run(start + more).value.0;
    NodeStays(Run(first).value.0, Run(start).value.0, d, key, true, Current(Run(start).value.1));
    AcceptedAgain(d, key);
    assert (start + more + [HeaderItem(key, true)])[..|start + more|] == start + more;
  }

  lemma AcceptedAgain(d: Doc, key: seq<string>)
    requires Good(d) && key != [] && Named(d, ROOT, key).Some? && Named(d, ROOT, key).value in d.tableArrays
    ensures ParseHeader(d, key, true).Ok?
  {
    ResolvedIsClear(d, key[..|key| - 1]);
    HeaderAcceptedExactly(d, key, true);
  }
}
