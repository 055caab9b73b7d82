/**
 The parser's own way of building the tree: it changes its nodes and side lists in place, and
 walks a key with a loop.  Each method is proved to do what the functions of TomlTables say;
 after an error the document is thrown away, so nothing is said of it then.
 */
module TomlBuilder {
  import opened Basics
  import opened TomlTables

  class Builder {
    var nodes: map<nat, Node>
    var next: nat
    var implicitTables: seq<nat>
    var dottedKeyTables: seq<nat>
    var tableArrays: seq<nat>
    ghost var origins: map<nat, Origin>

    ghost function State(): Doc
      reads this
    {
      Doc(nodes, origins, next, implicitTables, dottedKeyTables, tableArrays)
    }

    constructor ()
      ensures State() == Empty
    {
      nodes := map[ROOT := Table(map[])];
      next := 1;
      implicitTables, dottedKeyTables, tableArrays := [], [], [];
      origins := map[ROOT := Root];
    }

    method New(node: Node, ghost origin: Origin) returns (id: nat)
      modifies this
      ensures State() == Make(old(State()), node, origin) && id == old(next)
    {
      id := next;
      nodes := nodes[id := node];
      next := next + 1;
      origins := origins[id := origin];
    }

    method Find(table: nat, key: string) returns (child: Option<nat>)
      ensures child == Get(State(), table, key)
    {
      child := None;
      if table in nodes && nodes[table].Table? && key in nodes[table].entries {
        child := Some(nodes[table].entries[key]);
      }
    }

    method EmplaceChild(table: nat, key: string, child: nat)
      modifies this
      ensures State() == Emplace(old(State()), table, key, child)
    {
      if table in nodes && nodes[table].Table? {
        nodes := nodes[table := Table(nodes[table].entries[key := child])];
      }
    }

    // One parent segment of a header, moving parent on.
    method EnterParent(parent: nat, segment: string) returns (r: Outcome<nat>)
      modifies this
      ensures match HeaderStep(old(State()), parent, segment)
        case Ok((d, t)) => r == Ok(t) && State() == d
        case Redefinition => r.Redefinition?
        case AssertFailed => r.AssertFailed?
    {
      var child := Find(parent, segment);
      if child.None? {
        var id := New(Table(map[]), Implicit);
        EmplaceChild(parent, segment, id);
        implicitTables := implicitTables + [id];
        return Ok(id);
      }
      var node := if child.value in nodes then nodes[child.value] else Scalar;
      if node.Table? {
        return Ok(child.value);
      } else if node.Array? && child.value in tableArrays {
        if node.items == [] { return AssertFailed; }
        var last := node.items[|node.items| - 1];
        if last !in nodes || !nodes[last].Table? { return AssertFailed; }
        return Ok(last);
      } else {
        return Redefinition;
      }
    }

    // implicit_tables.erase
    method EraseImplicit(table: nat) returns (found: bool)
      modifies this`implicitTables
      ensures found <==> table in old(implicitTables)
      ensures implicitTables == Erase(old(implicitTables), table)
    {
      var i := 0;
      while i < |implicitTables| && implicitTables[i] != table
        invariant 0 <= i <= |implicitTables|
        invariant table !in implicitTables[..i]
      {
        i := i + 1;
      }
      found := i < |implicitTables|;
      EraseAt(implicitTables, table, i);
      if found {
        implicitTables := implicitTables[..i] + implicitTables[i + 1..];
      }
    }

    method EndHeader(parent: nat, key: string, isArray: bool) returns (r: Outcome<nat>)
      modifies this
      ensures match HeaderEnd(old(State()), parent, key, isArray)
        case Ok((d, t)) => r == Ok(t) && State() == d
        case Redefinition => r.Redefinition?
        case AssertFailed => r.AssertFailed?
    {
      var matching := Find(parent, key);
      if matching.None? {
        var table := New(Table(map[]), Header);
        if isArray {
          var array_ := New(Array([table]), TableArray);
          EmplaceChild(parent, key, array_);
          tableArrays := tableArrays + [array_];
        } else {
          EmplaceChild(parent, key, table);
        }
        return Ok(table);
      }
      var node := matching.value;
      if isArray && node in nodes && nodes[node].Array? && node in tableArrays {
        r := AppendTable(node);
      } else if !isArray && node in nodes && nodes[node].Table? && implicitTables != [] {
        var found := EraseImplicit(node);
        if !found { return Redefinition; }
        origins := origins[node := Header];
        return Ok(node);
      } else {
        return Redefinition;
      }
    }

    method AppendTable(array_: nat) returns (r: Outcome<nat>)
      modifies this
      ensures r == Ok(old(next))
      ensures State() == PushBack(Make(old(State()), Table(map[]), Header), array_, old(next))
    {
      var table := New(Table(map[]), Header);
      if array_ in nodes && nodes[array_].Array? {
        nodes := nodes[array_ := Array(nodes[array_].items + [table])];
      }
      return Ok(table);
    }

    method ParseTableHeader(key: seq<string>, isArray: bool) returns (r: Outcome<nat>)
      requires key != []
      modifies this
      ensures match ParseHeader(old(State()), key, isArray)
        case Ok((d, t)) => r == Ok(t) && State() == d
        case Redefinition => r.Redefinition?
        case AssertFailed => r.AssertFailed?
    {
      var parent: nat := ROOT;
      ghost var segments := key[..|key| - 1];
      for i := 0 to |key| - 1
        invariant HeaderWalk(old(State()), ROOT, segments) == HeaderWalk(State(), parent, segments[i..])
      {
        assert segments[i] == key[i] && segments[i..][1..] == segments[i + 1..];
        var step := EnterParent(parent, key[i]);
        if !step.Ok? { return step; }
        parent := step.value;
      }
      r := EndHeader(parent, key[|key| - 1], isArray);
    }

    // One parent segment of a dotted key, moving the table on.
    method EnterDotted(table: nat, segment: string) returns (r: Outcome<nat>)
      modifies this
      ensures match DottedStep(old(State()), table, segment)
        case Ok((d, t)) => r == Ok(t) && State() == d
        case Redefinition => r.Redefinition?
        case AssertFailed => r.AssertFailed?
    {
      var child := Find(table, segment);
      if child.None? {
        var id := New(Table(map[]), Dotted(IsInner(OriginOf(State(), table))));
        EmplaceChild(table, segment, id);
        dottedKeyTables := dottedKeyTables + [id];
        return Ok(id);
      } else if child.value !in nodes || !nodes[child.value].Table? || child.value !in dottedKeyTables {
        return Redefinition;
      } else {
        return Ok(child.value);
      }
    }

    // parse_key_value_pair_and_insert, once the value has been built.
    method InsertKeyValue(table: nat, key: seq<string>, value: nat) returns (r: Outcome<nat>)
      requires key != []
      modifies this
      ensures match InsertValue(old(State()), table, key, value)
        case Ok(d) => r.Ok? && State() == d
        case Redefinition => r.Redefinition?
        case AssertFailed => r.AssertFailed?
    {
      var tab := table;
      ghost var segments := key[..|key| - 1];
      for i := 0 to |key| - 1
        invariant DottedWalk(old(State()), table, segments) == DottedWalk(State(), tab, segments[i..])
      {
        assert segments[i] == key[i] && segments[i..][1..] == segments[i + 1..];
        var step := EnterDotted(tab, key[i]);
        if !step.Ok? { return step; }
        tab := step.value;
      }
      var conflicting := Find(tab, key[|key| - 1]);
      if conflicting.Some? { return Redefinition; }
      EmplaceChild(tab, key[|key| - 1], value);
      return Ok(tab);
    }
  }

  // Erasing the first occurrence cuts the sequence at it.
  lemma EraseAt(xs: seq<nat>, x: nat, i: nat)
    requires i <= |xs| && x !in xs[..i] && (i < |xs| ==> xs[i] == x)
    ensures Erase(xs, x) == if i < |xs| then xs[..i] + xs[i + 1..] else xs
  {
    if xs != [] && i > 0 {
      assert xs[0] in xs[..i];
      assert xs[1..][..i - 1] == xs[..i][1..];
      EraseAt(xs[1..], x, i - 1);
      assert xs == [xs[0]] + xs[1..];
    }
  }
}
