/**
 That a value can be read back from the nodes it was built as: arrays with their items in order,
 inline tables with exactly the keys of their pairs, however deeply nested.
 */
module TomlTreeValues {
  import opened Basics
  import opened TomlTables
  import opened TomlTreeSafety
  import opened TomlTreeMeaning
  import opened TomlTreePlaces

  // ---------------------------------------------------------------- inside a table

  // The table that the segments lead to through tables made by dotted keys only.
  function Reach(d: Doc, table: nat, path: seq<string>): Option<nat>
    decreases |path|, 1
  {
    if path == [] then Some(table)
    else match Inside(d, table, path)
      case None => None
      case Some(child) => if OriginOf(d, child).Dotted? then Some(child) else None
  }

  // What a dotted key names inside a table.
  function Inside(d: Doc, table: nat, key: seq<string>): Option<nat>
    requires key != []
    decreases |key|, 0
  {
    match Reach(d, table, key[..|key| - 1])
    case None => None
    case Some(t) => Get(d, t, key[|key| - 1])
  }

  lemma {:induction false} ReachCons(d: Doc, table: nat, segment: string, child: nat, path: seq<string>)
    requires Get(d, table, segment) == Some(child) && OriginOf(d, child).Dotted?
    ensures Reach(d, table, [segment] + path) == Reach(d, child, path)
    ensures path != [] ==> Inside(d, table, [segment] + path) == Inside(d, child, path)
    decreases |path|
  {
    if path == [] {
      assert ([segment] + path)[..0] == [] && [segment] + path == [segment];
      assert Inside(d, table, [segment]) == Some(child);
    } else {
      ReachCons(d, table, segment, child, path[..|path| - 1]);
      assert ([segment] + path)[..|path|] == [segment] + path[..|path| - 1];
    }
  }

  lemma {:induction false} InsidePrefix(d: Doc, table: nat, key: seq<string>, n: nat)
    requires 0 < n <= |key| && Inside(d, table, key).Some?
    ensures Inside(d, table, key[..n]).Some?
    ensures n < |key| ==> Reach(d, table, key[..n]).Some?
    decreases |key|
  {
    if n == |key| {
      assert key[..n] == key;
    } else {
      var front := key[..|key| - 1];
      assert front[..n] == key[..n];
      InsidePrefix(d, table, front, n);
      if n == |front| { assert front[..n] == front; }
    }
  }

  // ---------------------------------------------------------------- reading a value back

  ghost predicate Reads(d: Doc, id: nat, value: Value)
    decreases value, 1
  {
    id in d.nodes &&
    match value
    case ScalarValue => d.nodes[id] == Scalar
    case ArrayValue(items) => d.nodes[id].Array? && ReadsAll(d, d.nodes[id].items, items)
    case InlineTable(pairs) =>
      && d.nodes[id].Table? && OriginOf(d, id).Inline? && KeysExactly(d, id, pairs)
      && forall i :: 0 <= i < |pairs| ==> ReadsPair(d, id, pairs[i])
  }

  // Item by item.
  ghost predicate ReadsAll(d: Doc, ids: seq<nat>, items: seq<Value>)
    decreases items, 0
  {
    |ids| == |items| && forall i :: 0 <= i < |items| ==> Reads(d, ids[i], items[i])
  }

  // The pair's key names a node that reads as its value.
  ghost predicate ReadsPair(d: Doc, id: nat, pair: Pair)
    decreases pair, 0
  {
    pair.key != [] && Inside(d, id, pair.key).Some? && Reads(d, Inside(d, id, pair.key).value, pair.value)
  }

  // The names inside the table are the keys of the pairs and their leading parts, and no others.
  ghost predicate KeysExactly(d: Doc, id: nat, pairs: seq<Pair>) {
    forall path :: path != [] ==> (Inside(d, id, path).Some? <==> PartOfSome(path, pairs))
  }

  predicate PartOfSome(path: seq<string>, pairs: seq<Pair>) { exists i :: 0 <= i < |pairs| && path <= pairs[i].key }

  // ---------------------------------------------------------------- frames

  // No edge leads out of the region.
  ghost predicate Region(d: Doc, region: set<nat>) {
    && region <= d.nodes.Keys
    && (forall t, k :: t in region && d.nodes[t].Table? && k in d.nodes[t].entries ==> d.nodes[t].entries[k] in region)
    && (forall a, i :: a in region && d.nodes[a].Array? && 0 <= i < |d.nodes[a].items| ==>
      d.nodes[a].items[i] in region)
  }

  ghost predicate Frozen(d: Doc, d': Doc, region: set<nat>) {
    forall n :: n in region ==>
      n in d.nodes && n in d'.nodes && d'.nodes[n] == d.nodes[n] && OriginOf(d', n) == OriginOf(d, n)
  }

  lemma {:induction false} ReachFrozen(d: Doc, d': Doc, region: set<nat>, table: nat, path: seq<string>)
    requires Region(d, region) && Frozen(d, d', region) && table in region
    ensures Reach(d', table, path) == Reach(d, table, path)
    ensures Reach(d, table, path).Some? ==> Reach(d, table, path).value in region
    ensures path != [] ==> Inside(d', table, path) == Inside(d, table, path)
    ensures path != [] && Inside(d, table, path).Some? ==> Inside(d, table, path).value in region
    decreases |path|
  {
    if path != [] { ReachFrozen(d, d', region, table, path[..|path| - 1]); }
  }

  lemma {:induction false} ReadsFrozen(d: Doc, d': Doc, region: set<nat>, id: nat, value: Value)
    requires Region(d, region) && Frozen(d, d', region) && id in region && Reads(d, id, value)
    ensures Reads(d', id, value)
    decreases value, 1
  {
    match value
    case ScalarValue =>
    case ArrayValue(items) =>
      forall i | 0 <= i < |items| ensures Reads(d', d.nodes[id].items[i], items[i]) {
        ReadsFrozen(d, d', region, d.nodes[id].items[i], items[i]);
      }
    case InlineTable(pairs) =>
      forall path | path != [] ensures Inside(d', id, path) == Inside(d, id, path) {
        ReachFrozen(d, d', region, id, path);
      }
      forall i | 0 <= i < |pairs| ensures ReadsPair(d', id, pairs[i]) {
        PairFrozen(d, d', region, id, pairs[i]);
      }
  }

  lemma {:induction false} PairFrozen(d: Doc, d': Doc, region: set<nat>, id: nat, pair: Pair)
    requires Region(d, region) && Frozen(d, d', region) && id in region && ReadsPair(d, id, pair)
    ensures ReadsPair(d', id, pair)
    decreases pair, 0
  {
    ReachFrozen(d, d', region, id, pair.key);
    ReadsFrozen(d, d', region, Inside(d, id, pair.key).value, pair.value);
  }

  // Building a value freezes everything that was there.
  lemma BuiltFreezes(d: Doc, value: Value)
    requires Good(d) && BuildValue(d, value).Ok?
    ensures Region(d, d.nodes.Keys) && Frozen(d, BuildValue(d, value).value.0, d.nodes.Keys)
  {
    ValueKept(d, value);
    ValueFrame(d, value, 0);
  }

  // ---------------------------------------------------------------- what an insertion adds

  // The edge that is new stands under the key.
  predicate NewEdge(d: Doc, table: nat, key: seq<string>, n: nat, t: nat, k: string) {
    n < |key| && Reach(d, table, key[..n]) == Some(t) && k == key[n]
  }

  lemma {:induction false} ReachGrows(d: Doc, d': Doc, table: nat, path: seq<string>)
    requires Good(d) && Kept(d, d') && Reach(d, table, path).Some?
    ensures Reach(d', table, path) == Reach(d, table, path)
    decreases |path|
  {
    if path != [] {
      InsideGrows(d, d', table, path);
      assert Inside(d, table, path).value in d.nodes;
    }
  }

  lemma {:induction false} InsideGrows(d: Doc, d': Doc, table: nat, key: seq<string>)
    requires Good(d) && Kept(d, d') && key != [] && Inside(d, table, key).Some?
    ensures Inside(d', table, key) == Inside(d, table, key)
    decreases |key|, 0
  {
    if |key| == 1 {
      assert key[..0] == [];
    } else {
      ReachGrows(d, d', table, key[..|key| - 1]);
    }
    GetGrows(d, d', Reach(d, table, key[..|key| - 1]).value, key[|key| - 1]);
  }

  // The first step of a walk, as it stands in the document after the walk.
  lemma WalkFirst(d: Doc, table: nat, segments: seq<string>) returns (d1: Doc, table1: nat)
    requires Good(d) && IsTable(d, table) && segments != [] && DottedWalk(d, table, segments).Ok?
    ensures DottedStep(d, table, segments[0]) == Ok((d1, table1)) && Good(d1) && IsTable(d1, table1)
    ensures DottedWalk(d1, table1, segments[1..]) == DottedWalk(d, table, segments)
    ensures var d2 := DottedWalk(d, table, segments).value.0;
      Get(d2, table, segments[0]) == Some(table1) && OriginOf(d2, table1).Dotted?
  {
    DottedStepKept(d, table, segments[0]);
    DottedStepFinds(d, table, segments[0]);
    DottedStepFrame(d, table, segments[0], 0);
    d1, table1 := DottedStep(d, table, segments[0]).value.0, DottedStep(d, table, segments[0]).value.1;
    DottedWalkKept(d1, table1, segments[1..]);
    GetGrows(d1, DottedWalk(d1, table1, segments[1..]).value.0, table, segments[0]);
  }

  lemma ReachFirst(d: Doc, table: nat, segments: seq<string>, table1: nat)
    requires segments != [] && Get(d, table, segments[0]) == Some(table1) && OriginOf(d, table1).Dotted?
    ensures Reach(d, table, segments) == Reach(d, table1, segments[1..])
  {
    ReachCons(d, table, segments[0], table1, segments[1..]);
    assert segments == [segments[0]] + segments[1..];
  }

  lemma {:induction false} WalkReaches(d: Doc, table: nat, segments: seq<string>)
    requires Good(d) && IsTable(d, table) && DottedWalk(d, table, segments).Ok?
    ensures Reach(DottedWalk(d, table, segments).value.0, table, segments)
      == Some(DottedWalk(d, table, segments).value.1)
    decreases |segments|
  {
    if segments != [] {
      var d1, table1 := WalkFirst(d, table, segments);
      WalkReaches(d1, table1, segments[1..]);
      ReachFirst(DottedWalk(d, table, segments).value.0, table, segments, table1);
    }
  }

  lemma StepAdds(d: Doc, table: nat, segment: string, t: nat, k: string)
    requires Good(d) && IsTable(d, table) && DottedStep(d, table, segment).Ok?
    requires Get(DottedStep(d, table, segment).value.0, t, k).Some? && Get(d, t, k).None?
    ensures t == table && k == segment
  {
  }

  lemma NewEdgeCons(d: Doc, table: nat, segments: seq<string>, table1: nat, m: nat, t: nat, k: string)
    requires segments != [] && Get(d, table, segments[0]) == Some(table1) && OriginOf(d, table1).Dotted?
    requires NewEdge(d, table1, segments[1..], m, t, k)
    ensures NewEdge(d, table, segments, m + 1, t, k)
  {
    ReachCons(d, table, segments[0], table1, segments[1..][..m]);
    assert segments[..m + 1] == [segments[0]] + segments[1..][..m];
  }

  lemma {:induction false} WalkAdds(d: Doc, table: nat, segments: seq<string>, t: nat, k: string) returns (n: nat)
    requires Good(d) && IsTable(d, table) && DottedWalk(d, table, segments).Ok?
    requires Get(DottedWalk(d, table, segments).value.0, t, k).Some? && Get(d, t, k).None?
    ensures NewEdge(DottedWalk(d, table, segments).value.0, table, segments, n, t, k)
    decreases |segments|
  {
    n := 0;
    if segments != [] {
      var d1, table1 := WalkFirst(d, table, segments);
      if Get(d1, t, k).Some? {
        StepAdds(d, table, segments[0], t, k);
        assert segments[..0] == [];
      } else {
        var m := WalkAdds(d1, table1, segments[1..], t, k);
        NewEdgeCons(DottedWalk(d, table, segments).value.0, table, segments, table1, m, t, k);
        n := m + 1;
      }
    }
  }

  // The two parts of an insertion: the walk, and the value put where it ended.
  lemma InsertParts(d: Doc, table: nat, key: seq<string>, value: nat) returns (d1: Doc, table1: nat)
    requires Good(d) && IsTable(d, table) && key != [] && IsValue(d, value) && InsertValue(d, table, key, value).Ok?
    ensures DottedWalk(d, table, key[..|key| - 1]) == Ok((d1, table1)) && Good(d1) && IsTable(d1, table1)
    ensures Get(d1, table1, key[|key| - 1]).None?
    ensures InsertValue(d, table, key, value) == Ok(Emplace(d1, table1, key[|key| - 1], value))
    ensures Kept(d1, InsertValue(d, table, key, value).value)
    ensures Reach(InsertValue(d, table, key, value).value, table, key[..|key| - 1]) == Some(table1)
  {
    var segments := key[..|key| - 1];
    DottedWalkKept(d, table, segments);
    WalkReaches(d, table, segments);
    d1, table1 := DottedWalk(d, table, segments).value.0, DottedWalk(d, table, segments).value.1;
    ValueStays(d, d1, value);
    EmplaceKept(d1, table1, key[|key| - 1], value);
    ReachGrows(d1, InsertValue(d, table, key, value).value, table, segments);
  }

  lemma NewEdgeGrows(d: Doc, d': Doc, table: nat, key: seq<string>, n: nat, t: nat, k: string)
    requires Good(d) && Kept(d, d') && key != [] && NewEdge(d, table, key[..|key| - 1], n, t, k)
    ensures NewEdge(d', table, key, n, t, k)
  {
    assert key[..|key| - 1][..n] == key[..n];
    ReachGrows(d, d', table, key[..n]);
  }

  // Whatever edge an insertion adds stands at one of the parts of its key.
  lemma InsertAdds(d: Doc, table: nat, key: seq<string>, value: nat, t: nat, k: string) returns (n: nat)
    requires Good(d) && IsTable(d, table) && key != [] && IsValue(d, value) && InsertValue(d, table, key, value).Ok?
    requires Get(InsertValue(d, table, key, value).value, t, k).Some? && Get(d, t, k).None?
    ensures NewEdge(InsertValue(d, table, key, value).value, table, key, n, t, k)
  {
    var d1, table1 := InsertParts(d, table, key, value);
    if Get(d1, t, k).Some? {
      n := WalkAdds(d, table, key[..|key| - 1], t, k);
      NewEdgeGrows(d1, InsertValue(d, table, key, value).value, table, key, n, t, k);
    } else {
      n := |key| - 1;
    }
  }

  lemma InsertFinds(d: Doc, table: nat, key: seq<string>, value: nat)
    requires Good(d) && IsTable(d, table) && key != [] && IsValue(d, value) && InsertValue(d, table, key, value).Ok?
    ensures Inside(InsertValue(d, table, key, value).value, table, key) == Some(value)
  {
    var _, _ := InsertParts(d, table, key, value);
  }

  // ---------------------------------------------------------------- paths in a tree

  function HolderOf(place: Place): nat {
    match place case Under(t, _) => t case At(a, _) => a
  }

  // Different dotted keys of a table outside the tree lead to different tables.
  lemma {:induction false} ReachUnique(d: Doc, places: Places, table: nat, a: seq<string>, b: seq<string>)
    requires Placed(d.nodes, places) && table !in places
    requires Reach(d, table, a).Some? && Reach(d, table, a) == Reach(d, table, b)
    ensures a == b
    decreases |a|
  {
    if a != [] && b != [] {
      var t := Reach(d, table, a).value;
      assert places[t] == Under(Reach(d, table, a[..|a| - 1]).value, a[|a| - 1]);
      assert places[t] == Under(Reach(d, table, b[..|b| - 1]).value, b[|b| - 1]);
      ReachUnique(d, places, table, a[..|a| - 1], b[..|b| - 1]);
      assert a == a[..|a| - 1] + [a[|a| - 1]] && b == b[..|b| - 1] + [b[|b| - 1]];
    }
  }

  // The nodes that were placed before are placed the same.
  predicate PlacesKept(limit: nat, value: nat, places: Places, places': Places) {
    forall c :: 0 <= c < limit && c != value ==>
      (c in places <==> c in places') && (c in places ==> places'[c] == places[c])
  }

  // A table that was there, reached by dotted keys, was there under the same key.
  lemma OldEdge(d: Doc, d': Doc, places: Places, places': Places, table: nat, value: nat, path: seq<string>)
    requires Closed(d) && Placed(d.nodes, places) && Placed(d'.nodes, places')
    requires PlacesKept(d.next, value, places, places') && !OriginOf(d', value).Dotted?
    requires path != [] && Reach(d', table, path).Some? && Reach(d', table, path).value in d.nodes
    ensures Reach(d', table, path[..|path| - 1]).Some?
    ensures Get(d, Reach(d', table, path[..|path| - 1]).value, path[|path| - 1]) == Reach(d', table, path)
  {
    var t := Reach(d', table, path).value;
    var place := Under(Reach(d', table, path[..|path| - 1]).value, path[|path| - 1]);
    assert places'[t] == place;
    assert t < d.next && t != value && t in places && places[t] == place;
    assert StandsAt(d.nodes, place, t);
  }

  // A path that ends in an edge that was there was there.
  lemma {:induction false} OldPath(d: Doc, d': Doc, places: Places, places': Places, table: nat, value: nat,
                                   path: seq<string>)
    requires Good(d) && Kept(d, d') && Placed(d.nodes, places) && Placed(d'.nodes, places')
    requires PlacesKept(d.next, value, places, places') && !OriginOf(d', value).Dotted?
    requires path != [] && Inside(d', table, path).Some?
    requires Get(d, Reach(d', table, path[..|path| - 1]).value, path[|path| - 1]).Some?
    ensures Inside(d, table, path).Some?
    decreases |path|
  {
    var front := path[..|path| - 1];
    if front != [] {
      OldEdge(d, d', places, places', table, value, front);
      OldPath(d, d', places, places', table, value, front);
      OldReach(d, d', table, front);
    }
  }

  lemma OldReach(d: Doc, d': Doc, table: nat, path: seq<string>)
    requires Good(d) && Kept(d, d') && path != [] && Inside(d, table, path).Some? && Reach(d', table, path).Some?
    ensures Reach(d, table, path) == Reach(d', table, path)
  {
    InsideGrows(d, d', table, path);
    assert Inside(d, table, path).value in d.nodes;
  }

  // A name that is new is a part of the key.
  lemma NewName(d: Doc, places': Places, table: nat, key: seq<string>, value: nat, path: seq<string>)
    requires Good(d) && IsTable(d, table) && key != [] && IsValue(d, value) && InsertValue(d, table, key, value).Ok?
    requires Placed(InsertValue(d, table, key, value).value.nodes, places') && table !in places'
    requires path != [] && Inside(InsertValue(d, table, key, value).value, table, path).Some?
    requires var t := Reach(InsertValue(d, table, key, value).value, table, path[..|path| - 1]).value;
      Get(d, t, path[|path| - 1]).None?
    ensures path <= key
  {
    var d' := InsertValue(d, table, key, value).value;
    var t, k := Reach(d', table, path[..|path| - 1]).value, path[|path| - 1];
    var n := InsertAdds(d, table, key, value, t, k);
    ReachUnique(d', places', table, path[..|path| - 1], key[..n]);
    PrefixByOne(path, key, n);
  }

  lemma PrefixByOne(path: seq<string>, key: seq<string>, n: nat)
    requires path != [] && n < |key| && path[..|path| - 1] == key[..n] && path[|path| - 1] == key[n]
    ensures path <= key
  {
    assert path == key[..n] + [key[n]] == key[..n + 1];
  }

  lemma KeyNames(d: Doc, table: nat, key: seq<string>, path: seq<string>)
    requires key != [] && path != [] && path <= key && Inside(d, table, key).Some?
    ensures Inside(d, table, path).Some?
  {
    InsidePrefix(d, table, key, |path|);
    assert key[..|path|] == path;
  }

  lemma NameComes(d: Doc, places: Places, places': Places, table: nat, key: seq<string>, value: nat, path: seq<string>)
    requires Good(d) && IsTable(d, table) && Placed(d.nodes, places) && table !in places && table != value
    requires key != [] && IsValue(d, value) && InsertValue(d, table, key, value).Ok? && path != []
    requires Placed(InsertValue(d, table, key, value).value.nodes, places')
      && PlacesKept(d.next, value, places, places')
    requires Inside(InsertValue(d, table, key, value).value, table, path).Some?
    ensures Inside(d, table, path).Some? || path <= key
  {
    var d' := InsertValue(d, table, key, value).value;
    InsertValueKept(d, table, key, value);
    ValueStays(d, d', value);
    assert table < d.next;
    if Get(d, Reach(d', table, path[..|path| - 1]).value, path[|path| - 1]).Some? {
      OldPath(d, d', places, places', table, value, path);
    } else {
      NewName(d, places', table, key, value, path);
    }
  }

  // After the insertion the names inside the table are those before and the parts of the key.
  lemma InsertNames(d: Doc, places: Places, places': Places, table: nat, key: seq<string>, value: nat,
                    path: seq<string>)
    requires Good(d) && IsTable(d, table) && Placed(d.nodes, places) && table !in places && table != value
    requires key != [] && IsValue(d, value) && InsertValue(d, table, key, value).Ok? && path != []
    requires Placed(InsertValue(d, table, key, value).value.nodes, places')
      && PlacesKept(d.next, value, places, places')
    ensures Inside(InsertValue(d, table, key, value).value, table, path).Some? <==>
      Inside(d, table, path).Some? || path <= key
  {
    var d' := InsertValue(d, table, key, value).value;
    InsertValueKept(d, table, key, value);
    InsertFinds(d, table, key, value);
    if Inside(d, table, path).Some? { InsideGrows(d, d', table, path); }
    if path <= key { KeyNames(d', table, key, path); }
    if Inside(d', table, path).Some? { NameComes(d, places, places', table, key, value, path); }
  }

  // ---------------------------------------------------------------- sealed values

  // Only the value's top node is held from outside the region.
  ghost predicate Held(places: Places, region: set<nat>, v: nat) {
    forall c :: c in places && c in region && c != v ==> HolderOf(places[c]) in region
  }

  // The region is all that can be reached from the value, and only through its top node, which no
  // dotted key goes through.
  ghost predicate Sealed(d: Doc, places: Places, region: set<nat>, v: nat) {
    v in region && Region(d, region) && Held(places, region, v) && !OriginOf(d, v).Dotted?
  }

  lemma {:induction false} ReachOutside(d: Doc, places: Places, region: set<nat>, v: nat, table: nat, path: seq<string>)
    requires Placed(d.nodes, places) && Held(places, region, v) && !OriginOf(d, v).Dotted? && table !in region
    requires Reach(d, table, path).Some?
    ensures Reach(d, table, path).value !in region
    decreases |path|
  {
    if path != [] {
      var front := path[..|path| - 1];
      ReachOutside(d, places, region, v, table, front);
      assert places[Reach(d, table, path).value] == Under(Reach(d, table, front).value, path[|path| - 1]);
    }
  }

  lemma TableDiffers(a: Node, b: Node) returns (k: string)
    requires a.Table? && NodeGrows(a, b) && a != b
    ensures k in b.entries && k !in a.entries
  {
    k := MapDiffers(a.entries, b.entries);
  }

  lemma MapDiffers(e: map<string, nat>, e': map<string, nat>) returns (k: string)
    requires e != e' && forall j :: j in e ==> j in e' && e'[j] == e[j]
    ensures k in e' && k !in e
  {
    assert (forall j :: j in e' ==> j in e) ==> e' == e;
    k :| k in e' && k !in e;
  }

  lemma HeldInserted(d: Doc, places: Places, places': Places, region: set<nat>, v: nat, value: nat)
    requires Closed(d) && region <= d.nodes.Keys && Held(places, region, v)
    requires PlacesKept(d.next, value, places, places') && (value == v || value !in region)
    ensures Held(places', region, v)
  {
  }

  // An insertion into a table outside leaves a sealed region as it is.
  lemma NodeFrozen(d: Doc, places': Places, region: set<nat>, v: nat, table: nat, key: seq<string>, value: nat, n: nat)
    requires Good(d) && IsTable(d, table) && key != [] && IsValue(d, value) && InsertValue(d, table, key, value).Ok?
    requires Placed(InsertValue(d, table, key, value).value.nodes, places') && Held(places', region, v)
    requires !OriginOf(InsertValue(d, table, key, value).value, v).Dotted? && table !in region
    requires n in region && n in d.nodes
    ensures NodeAt(InsertValue(d, table, key, value).value, n) == d.nodes[n]
    ensures n in InsertValue(d, table, key, value).value.nodes
  {
    var d' := InsertValue(d, table, key, value).value;
    InsertValueKept(d, table, key, value);
    InsertValueFrame(d, table, key, value, 0);
    if d'.nodes[n] != d.nodes[n] {
      assert OriginOf(d, n).Dotted? && d.nodes[n].Table?;
      var k := TableDiffers(d.nodes[n], d'.nodes[n]);
      var m := InsertAdds(d, table, key, value, n, k);
      ReachOutside(d', places', region, v, table, key[..m]);
    }
  }

  lemma InsertFreezes(d: Doc, places: Places, places': Places, region: set<nat>, v: nat,
                      table: nat, key: seq<string>, value: nat)
    requires Good(d) && IsTable(d, table) && key != [] && IsValue(d, value) && InsertValue(d, table, key, value).Ok?
    requires Placed(InsertValue(d, table, key, value).value.nodes, places')
      && PlacesKept(d.next, value, places, places')
    requires Sealed(d, places, region, v) && table !in region && (value == v || value !in region)
    ensures Frozen(d, InsertValue(d, table, key, value).value, region)
    ensures Sealed(InsertValue(d, table, key, value).value, places', region, v)
  {
    var d' := InsertValue(d, table, key, value).value;
    InsertValueKept(d, table, key, value);
    HeldInserted(d, places, places', region, v, value);
    forall n | n in region ensures n in d'.nodes && d'.nodes[n] == d.nodes[n] && OriginOf(d', n) == OriginOf(d, n) {
      NodeFrozen(d, places', region, v, table, key, value, n);
    }
    SealedFrozen(d, d', places', region, v);
  }

  lemma SealedFrozen(d: Doc, d': Doc, places': Places, region: set<nat>, v: nat)
    requires Region(d, region) && Frozen(d, d', region) && v in region && Held(places', region, v)
    requires !OriginOf(d, v).Dotted?
    ensures Sealed(d', places', region, v)
  {
  }

  // What a value has just been built as.
  function Built(d: Doc, d': Doc): set<nat> { set n | n in d'.nodes && d.next <= n }

  lemma BuiltRegion(d: Doc, d': Doc, places: Places, places': Places)
    requires Closed(d) && Placed(d.nodes, places) && Placed(d'.nodes, places') && SamePlaces(d.next, places, places')
    ensures Region(d', Built(d, d'))
  {
    forall c | c in places' && c < d.next ensures StandsAt(d.nodes, places'[c], c) { assert c in places; }
  }

  lemma BuiltHeld(d: Doc, d': Doc, places': Places, v: nat)
    requires Closed(d) && Grows(d, d') && Frozen(d, d', d.nodes.Keys) && Placed(d'.nodes, places')
    ensures Held(places', Built(d, d'), v)
  {
    forall c | c in places' && c in Built(d, d') ensures HolderOf(places'[c]) in Built(d, d') {
      assert StandsAt(d'.nodes, places'[c], c);
      var h := HolderOf(places'[c]);
      assert h < d.next ==> h in d.nodes;
    }
  }

  lemma ValueSealed(d: Doc, places: Places, places': Places, value: Value)
    requires Good(d) && Placed(d.nodes, places) && BuildValue(d, value).Ok?
    requires Placed(BuildValue(d, value).value.0.nodes, places') && SamePlaces(d.next, places, places')
    requires d.next <= BuildValue(d, value).value.1
    ensures var (d', id) := BuildValue(d, value).value; Sealed(d', places', Built(d, d'), id)
  {
    var (d', id) := BuildValue(d, value).value;
    ValueKept(d, value);
    BuiltFreezes(d, value);
    BuiltRegion(d, d', places, places');
    BuiltHeld(d, d', places', id);
  }

  // ---------------------------------------------------------------- the pairs of an inline table

  // The value reads back, and a pair of the table it is in cannot change it.
  ghost predicate Holding(d: Doc, places: Places, table: nat, v: nat, value: Value) {
    Reads(d, v, value) && exists region :: Sealed(d, places, region, v) && table !in region
  }

  ghost predicate PairHeld(d: Doc, places: Places, table: nat, pair: Pair) {
    && pair.key != [] && Inside(d, table, pair.key).Some?
    && Holding(d, places, table, Inside(d, table, pair.key).value, pair.value)
  }

  lemma HeldByBuilding(d: Doc, places: Places, places': Places, table: nat, pair: Pair, value: Value)
    requires Good(d) && table in d.nodes && PairHeld(d, places, table, pair) && BuildValue(d, value).Ok?
    requires SamePlaces(d.next, places, places')
    ensures PairHeld(BuildValue(d, value).value.0, places', table, pair)
  {
    var d', v := BuildValue(d, value).value.0, Inside(d, table, pair.key).value;
    BuiltFreezes(d, value);
    ReachFrozen(d, d', d.nodes.Keys, table, pair.key);
    ReadsFrozen(d, d', d.nodes.Keys, v, pair.value);
    var region :| Sealed(d, places, region, v) && table !in region;
    assert forall c :: c in region ==> c in d.nodes && c < d.next;
    SealedFrozen(d, d', places', region, v);
  }

  lemma HeldByInsertion(d: Doc, places: Places, places': Places, table: nat, v: nat, pairValue: Value,
                        key: seq<string>, value: nat, region: set<nat>)
    requires Good(d) && IsTable(d, table) && key != [] && IsValue(d, value) && InsertValue(d, table, key, value).Ok?
    requires Placed(InsertValue(d, table, key, value).value.nodes, places')
      && PlacesKept(d.next, value, places, places')
    requires Sealed(d, places, region, v) && table !in region && (value == v || value !in region)
    requires Reads(d, v, pairValue)
    ensures Holding(InsertValue(d, table, key, value).value, places', table, v, pairValue)
  {
    InsertFreezes(d, places, places', region, v, table, key, value);
    ReadsFrozen(d, InsertValue(d, table, key, value).value, region, v, pairValue);
  }

  // The new pair, its value just built.
  lemma NewPairHeld(d: Doc, d1: Doc, places: Places, places': Places, table: nat, pair: Pair, v: nat)
    requires Good(d1) && IsTable(d1, table) && table < d.next && pair.key != [] && IsValue(d1, v)
    requires InsertValue(d1, table, pair.key, v).Ok?
    requires Placed(InsertValue(d1, table, pair.key, v).value.nodes, places') && PlacesKept(d1.next, v, places, places')
    requires Sealed(d1, places, Built(d, d1), v) && Reads(d1, v, pair.value)
    ensures PairHeld(InsertValue(d1, table, pair.key, v).value, places', table, pair)
  {
    InsertFinds(d1, table, pair.key, v);
    HeldByInsertion(d1, places, places', table, v, pair.value, pair.key, v, Built(d, d1));
  }

  // A pair that was there, when another is inserted.
  lemma OldPairHeld(d: Doc, places: Places, places': Places, table: nat, pair: Pair, key: seq<string>, value: nat)
    requires Good(d) && IsTable(d, table) && key != [] && IsValue(d, value) && InsertValue(d, table, key, value).Ok?
    requires Placed(InsertValue(d, table, key, value).value.nodes, places')
      && PlacesKept(d.next, value, places, places')
    requires PairHeld(d, places, table, pair) && Away(d, places, table, pair, value)
    ensures PairHeld(InsertValue(d, table, key, value).value, places', table, pair)
  {
    var v := Inside(d, table, pair.key).value;
    InsertValueKept(d, table, key, value);
    InsideGrows(d, InsertValue(d, table, key, value).value, table, pair.key);
    var region :| Sealed(d, places, region, v) && table !in region && value !in region;
    HeldByInsertion(d, places, places', table, v, pair.value, key, value, region);
  }

  // The pair's value is sealed away from another value.
  ghost predicate Away(d: Doc, places: Places, table: nat, pair: Pair, value: nat)
    requires pair.key != []
  {
    Inside(d, table, pair.key).Some? &&
    exists region :: Sealed(d, places, region, Inside(d, table, pair.key).value) && table !in region && value !in region
  }

  lemma AwayFromNew(d: Doc, places: Places, places': Places, table: nat, pair: Pair, value: Value)
    requires Good(d) && table in d.nodes && PairHeld(d, places, table, pair) && BuildValue(d, value).Ok?
    requires SamePlaces(d.next, places, places') && d.next <= BuildValue(d, value).value.1
    ensures Away(BuildValue(d, value).value.0, places', table, pair, BuildValue(d, value).value.1)
  {
    var d', v := BuildValue(d, value).value.0, Inside(d, table, pair.key).value;
    BuiltFreezes(d, value);
    ReachFrozen(d, d', d.nodes.Keys, table, pair.key);
    var region :| Sealed(d, places, region, v) && table !in region;
    assert forall c :: c in region ==> c in d.nodes && c < d.next;
    SealedFrozen(d, d', places', region, v);
  }

  lemma KeysSnoc(d: Doc, d': Doc, table: nat, pairs: seq<Pair>, pair: Pair)
    requires KeysExactly(d, table, pairs)
    requires forall path :: path != [] ==>
      (Inside(d', table, path).Some? <==> Inside(d, table, path).Some? || path <= pair.key)
    ensures KeysExactly(d', table, pairs + [pair])
  {
    forall path: seq<string> | path != []
      ensures PartOfSome(path, pairs + [pair]) <==> PartOfSome(path, pairs) || path <= pair.key
    {
      assert (pairs + [pair])[|pairs|] == pair;
      if i :| 0 <= i < |pairs| && path <= pairs[i].key { assert (pairs + [pair])[i] == pairs[i]; }
    }
  }

  ghost predicate AllHeld(d: Doc, places: Places, table: nat, pairs: seq<Pair>) {
    forall i :: 0 <= i < |pairs| ==> PairHeld(d, places, table, pairs[i])
  }

  // What holds of an inline table while its pairs are inserted.
  ghost predicate Holds(d: Doc, places: Places, table: nat, pairs: seq<Pair>) {
    Placed(d.nodes, places) && table !in places && KeysExactly(d, table, pairs) && AllHeld(d, places, table, pairs)
  }

  lemma OldPairsHeld(d: Doc, places: Places, built: Places, places': Places, table: nat, pairs: seq<Pair>, pair: Pair)
    requires Good(d) && IsTable(d, table) && AllHeld(d, places, table, pairs) && InsertPair(d, table, pair).Ok?
    requires SamePlaces(d.next, places, built)
    requires PlacesKept(BuildValue(d, pair.value).value.0.next, BuildValue(d, pair.value).value.1, built, places')
    requires Placed(InsertPair(d, table, pair).value.nodes, places')
    ensures AllHeld(InsertPair(d, table, pair).value, places', table, pairs)
  {
    var (d1, v) := BuildValue(d, pair.value).value;
    ValueKept(d, pair.value);
    ValueFrame(d, pair.value, 0);
    forall i | 0 <= i < |pairs| ensures PairHeld(InsertPair(d, table, pair).value, places', table, pairs[i]) {
      HeldByBuilding(d, places, built, table, pairs[i], pair.value);
      AwayFromNew(d, places, built, table, pairs[i], pair.value);
      OldPairHeld(d1, built, places', table, pairs[i], pair.key, v);
    }
  }

  lemma PairNames(d: Doc, built: Places, places': Places, table: nat, pairs: seq<Pair>, pair: Pair)
    requires Good(d) && IsTable(d, table) && KeysExactly(d, table, pairs) && InsertPair(d, table, pair).Ok?
    requires Placed(BuildValue(d, pair.value).value.0.nodes, built) && table !in built
    requires PlacesKept(BuildValue(d, pair.value).value.0.next, BuildValue(d, pair.value).value.1, built, places')
    requires Placed(InsertPair(d, table, pair).value.nodes, places') && d.next <= BuildValue(d, pair.value).value.1
    ensures KeysExactly(InsertPair(d, table, pair).value, table, pairs + [pair])
  {
    var (d1, v) := BuildValue(d, pair.value).value;
    ValueKept(d, pair.value);
    BuiltFreezes(d, pair.value);
    forall path | path != []
      ensures Inside(InsertPair(d, table, pair).value, table, path).Some? <==>
        Inside(d, table, path).Some? || path <= pair.key
    {
      ReachFrozen(d, d1, d.nodes.Keys, table, path);
      InsertNames(d1, built, places', table, pair.key, v, path);
    }
    KeysSnoc(d, InsertPair(d, table, pair).value, table, pairs, pair);
  }

  lemma AllHeldSnoc(d: Doc, places: Places, table: nat, pairs: seq<Pair>, pair: Pair)
    requires AllHeld(d, places, table, pairs) && PairHeld(d, places, table, pair)
    ensures AllHeld(d, places, table, pairs + [pair])
  {
  }

  lemma HoldsAfter(d: Doc, places: Places, built: Places, places': Places, table: nat, pairs: seq<Pair>, pair: Pair)
    requires Good(d) && IsTable(d, table) && Holds(d, places, table, pairs) && InsertPair(d, table, pair).Ok?
    requires SamePlaces(d.next, places, built) && d.next <= BuildValue(d, pair.value).value.1
    requires Placed(BuildValue(d, pair.value).value.0.nodes, built)
    requires PlacesKept(BuildValue(d, pair.value).value.0.next, BuildValue(d, pair.value).value.1, built, places')
    requires Placed(InsertPair(d, table, pair).value.nodes, places')
    requires PairHeld(InsertPair(d, table, pair).value, places', table, pair)
    ensures Holds(InsertPair(d, table, pair).value, places', table, pairs + [pair])
  {
    ValueKept(d, pair.value);
    assert table < d.next;
    OldPairsHeld(d, places, built, places', table, pairs, pair);
    PairNames(d, built, places', table, pairs, pair);
    AllHeldSnoc(InsertPair(d, table, pair).value, places', table, pairs, pair);
  }

  // One more pair, its value built and known to read back.
  lemma PairRead(d: Doc, places: Places, table: nat, pairs: seq<Pair>, pair: Pair) returns (places': Places)
    requires Good(d) && IsTable(d, table) && Holds(d, places, table, pairs) && InsertPair(d, table, pair).Ok?
    requires Reads(BuildValue(d, pair.value).value.0, BuildValue(d, pair.value).value.1, pair.value)
    ensures Holds(InsertPair(d, table, pair).value, places', table, pairs + [pair])
  {
    var (d1, v) := BuildValue(d, pair.value).value;
    ValueKept(d, pair.value);
    var built := ValuePlaced(d, places, pair.value);
    ValueSealed(d, places, built, pair.value);
    places' := InsertValuePlaced(d1, built, table, pair.key, v);
    NewPairHeld(d, d1, built, places', table, pair, v);
    HoldsAfter(d, places, built, places', table, pairs, pair);
  }

  // ---------------------------------------------------------------- the main result

  lemma NoKeys(d: Doc, table: nat, path: seq<string>)
    requires Bare(d, table) && path != []
    ensures Inside(d, table, path).None?
    decreases |path|
  {
    if |path| == 1 { assert path[..0] == []; } else { NoKeys(d, table, path[..|path| - 1]); }
  }

  lemma {:induction false} PairsRead(d: Doc, places: Places, table: nat, pairs: seq<Pair>) returns (places': Places)
    requires Good(d) && Bare(d, table) && Placed(d.nodes, places) && table !in places
      && InsertPairs(d, table, pairs).Ok?
    ensures Holds(InsertPairs(d, table, pairs).value, places', table, pairs)
    decreases pairs, 1
  {
    places' := places;
    if pairs == [] {
      NoPairs(d, table);
    } else {
      var d1 := PairsBefore(d, table, pairs);
      var before := PairsRead(d, places, table, pairs[..|pairs| - 1]);
      ValueRead(d1, before, pairs[|pairs| - 1].value);
      places' := LastPairRead(d1, before, table, pairs);
    }
  }

  lemma LastPairRead(d: Doc, places: Places, table: nat, pairs: seq<Pair>) returns (places': Places)
    requires Good(d) && IsTable(d, table) && pairs != [] && Holds(d, places, table, pairs[..|pairs| - 1])
    requires InsertPair(d, table, pairs[|pairs| - 1]).Ok?
    requires var built := BuildValue(d, pairs[|pairs| - 1].value).value;
      Reads(built.0, built.1, pairs[|pairs| - 1].value)
    ensures Holds(InsertPair(d, table, pairs[|pairs| - 1]).value, places', table, pairs)
  {
    places' := PairRead(d, places, table, pairs[..|pairs| - 1], pairs[|pairs| - 1]);
    assert pairs[..|pairs| - 1] + [pairs[|pairs| - 1]] == pairs;
  }

  lemma PairsBefore(d: Doc, table: nat, pairs: seq<Pair>) returns (d1: Doc)
    requires Good(d) && IsTable(d, table) && pairs != [] && InsertPairs(d, table, pairs).Ok?
    ensures InsertPairs(d, table, pairs[..|pairs| - 1]) == Ok(d1) && Good(d1) && IsTable(d1, table)
    ensures InsertPairs(d, table, pairs) == InsertPair(d1, table, pairs[|pairs| - 1])
    ensures BuildValue(d1, pairs[|pairs| - 1].value).Ok?
  {
    PairsKept(d, table, pairs[..|pairs| - 1]);
    d1 := InsertPairs(d, table, pairs[..|pairs| - 1]).value;
  }

  lemma NoPairs(d: Doc, table: nat)
    requires Bare(d, table)
    ensures KeysExactly(d, table, [])
  {
    forall path: seq<string> | path != [] ensures Inside(d, table, path).None? { NoKeys(d, table, path); }
  }

  lemma {:induction false} ItemsRead(d: Doc, places: Places, items: seq<Value>)
    requires Good(d) && Placed(d.nodes, places) && BuildItems(d, items).Ok?
    ensures ReadsAll(BuildItems(d, items).value.0, BuildItems(d, items).value.1, items)
    decreases items, 1
  {
    if items != [] {
      var front, last := items[..|items| - 1], items[|items| - 1];
      var d1, ids := ItemsBefore(d, items);
      var before := ItemsPlaced(d, places, front);
      ItemsRead(d, places, front);
      ValueRead(d1, before, last);
      OneMoreRead(d1, ids, front, last);
      assert front + [last] == items;
    }
  }

  // All items but the last, and then the last.
  lemma ItemsBefore(d: Doc, items: seq<Value>) returns (d1: Doc, ids: seq<nat>)
    requires Good(d) && items != [] && BuildItems(d, items).Ok?
    ensures BuildItems(d, items[..|items| - 1]) == Ok((d1, ids)) && Good(d1) && BuildValue(d1, items[|items| - 1]).Ok?
    ensures var (d2, id) := BuildValue(d1, items[|items| - 1]).value; BuildItems(d, items) == Ok((d2, ids + [id]))
  {
    ItemsKept(d, items[..|items| - 1]);
    var before := BuildItems(d, items[..|items| - 1]).value;
    d1, ids := before.0, before.1;
  }

  lemma OneMoreRead(d: Doc, ids: seq<nat>, items: seq<Value>, item: Value)
    requires Good(d) && ReadsAll(d, ids, items) && BuildValue(d, item).Ok?
    requires Reads(BuildValue(d, item).value.0, BuildValue(d, item).value.1, item)
    ensures ReadsAll(BuildValue(d, item).value.0, ids + [BuildValue(d, item).value.1], items + [item])
  {
    BuiltFreezes(d, item);
    ReadsAllFrozen(d, BuildValue(d, item).value.0, ids, items);
    ReadsAllSnoc(BuildValue(d, item).value.0, ids, BuildValue(d, item).value.1, items, item);
  }

  lemma ReadsAllFrozen(d: Doc, d': Doc, ids: seq<nat>, items: seq<Value>)
    requires Region(d, d.nodes.Keys) && Frozen(d, d', d.nodes.Keys) && ReadsAll(d, ids, items)
    ensures ReadsAll(d', ids, items)
  {
    forall i | 0 <= i < |items| ensures Reads(d', ids[i], items[i]) {
      ReadsFrozen(d, d', d.nodes.Keys, ids[i], items[i]);
    }
  }

  lemma ReadsAllSnoc(d: Doc, ids: seq<nat>, id: nat, items: seq<Value>, item: Value)
    requires ReadsAll(d, ids, items) && Reads(d, id, item)
    ensures ReadsAll(d, ids + [id], items + [item])
  {
  }

  /** Whatever value is built, however deeply nested, reads back from its nodes. */
  lemma {:induction false} ValueRead(d: Doc, places: Places, value: Value)
    requires Good(d) && Placed(d.nodes, places) && BuildValue(d, value).Ok?
    ensures Reads(BuildValue(d, value).value.0, BuildValue(d, value).value.1, value)
    decreases value, 2
  {
    match value
    case ScalarValue =>
    case ArrayValue(items) =>
      ItemsKept(d, items);
      ItemsRead(d, places, items);
      var (d1, ids) := BuildItems(d, items).value;
      ArrayReads(d1, ids, items);
    case InlineTable(pairs) =>
      var d0 := Make(d, Table(map[]), Inline);
      NewNamesFree(d, places);
      MakeKept(d, Table(map[]), Inline);
      NewPlaced(d.nodes, places, d.next, Table(map[]));
      PairsKept(d0, d.next, pairs);
      var places' := PairsRead(d0, places, d.next, pairs);
      InlineReads(InsertPairs(d0, d.next, pairs).value, places', d.next, pairs);
  }

  lemma InlineReads(d: Doc, places: Places, table: nat, pairs: seq<Pair>)
    requires IsTable(d, table) && OriginOf(d, table).Inline? && Holds(d, places, table, pairs)
    ensures Reads(d, table, InlineTable(pairs))
  {
    forall i | 0 <= i < |pairs| ensures ReadsPair(d, table, pairs[i]) { assert PairHeld(d, places, table, pairs[i]); }
  }

  lemma ArrayReads(d: Doc, ids: seq<nat>, items: seq<Value>)
    requires Good(d) && ReadsAll(d, ids, items)
    ensures Reads(Make(d, Array(ids), Plain), d.next, ArrayValue(items))
  {
    ReadsAllFrozen(d, Make(d, Array(ids), Plain), ids, items);
  }


  // ---------------------------------------------------------------- the pairs under a header

  // One more pair in a table of a document.
  lemma OnePairMore(d: Doc, places: Places, table: nat, pairs: seq<Pair>, pair: Pair) returns (places': Places)
    requires Good(d) && IsTable(d, table) && Placed(d.nodes, places) && AllHeld(d, places, table, pairs)
    requires InsertPair(d, table, pair).Ok?
    ensures Placed(InsertPair(d, table, pair).value.nodes, places')
    ensures AllHeld(InsertPair(d, table, pair).value, places', table, pairs + [pair])
  {
    var (d1, v) := BuildValue(d, pair.value).value;
    ValueKept(d, pair.value);
    ValueRead(d, places, pair.value);
    var built := ValuePlaced(d, places, pair.value);
    ValueSealed(d, places, built, pair.value);
    places' := InsertValuePlaced(d1, built, table, pair.key, v);
    NewPairHeld(d, d1, built, places', table, pair, v);
    OldPairsHeld(d, places, built, places', table, pairs, pair);
    AllHeldSnoc(InsertPair(d, table, pair).value, places', table, pairs, pair);
  }

  function PairItems(pairs: seq<Pair>): seq<Item> {
    seq(|pairs|, i requires 0 <= i < |pairs| => PairItem(pairs[i]))
  }

  lemma {:induction false} SectionHeld(first: seq<Item>, pairs: seq<Pair>) returns (places: Places)
    requires Run(first + PairItems(pairs)).Ok?
    ensures Run(first).Ok? && Run(first + PairItems(pairs)).value.1 == Run(first).value.1
    ensures Placed(Run(first + PairItems(pairs)).value.0.nodes, places)
    ensures AllHeld(Run(first + PairItems(pairs)).value.0, places, Current(Run(first).value.1), pairs)
    decreases |pairs|
  {
    if pairs == [] {
      assert first + PairItems(pairs) == first;
      places := DocumentPlaced(first);
    } else {
      var front, pair := pairs[..|pairs| - 1], pairs[|pairs| - 1];
      assert (first + PairItems(pairs))[..|first| + |front|] == first + PairItems(front);
      assert front + [pair] == pairs;
      var before := SectionHeld(first, front);
      DocumentSafe(first + PairItems(front));
      var (d, returned) := Run(first + PairItems(front)).value;
      CurrentIsTable(d, returned);
      places := OnePairMore(d, before, Current(returned), front, pair);
    }
  }

  /** Whatever key-value pairs follow in a document, with no header between them, each is found under
      its key, dotted or not, in the table they stand in, and reads back as its value. */
  lemma SectionRead(first: seq<Item>, pairs: seq<Pair>, i: nat)
    requires Run(first + PairItems(pairs)).Ok? && i < |pairs|
    ensures Run(first).Ok?
    ensures ReadsPair(Run(first + PairItems(pairs)).value.0, Current(Run(first).value.1), pairs[i])
  {
    var places := SectionHeld(first, pairs);
    assert PairHeld(Run(first + PairItems(pairs)).value.0, places, Current(Run(first).value.1), pairs[i]);
  }
}
