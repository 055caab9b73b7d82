/**
 The tree a toml.hpp parser builds: `parse_table_header` (lines 8783-8890), `parse_key_value_pair_and_insert`
 (lines 8902-8945), and the inline tables and arrays of values (lines 9084-9230).  Nodes are
 named by numbers, as the source names them by address.
 */
module TomlTables {
  import opened Basics

  datatype Node = Table(entries: map<string, nat>) | Array(items: seq<nat>) | Scalar

  // How a node came to be.  Not stored by the parser: its three side lists stand for it.
  // inner: the dotted key stands inside an inline table.
  datatype Origin = Root | Header | Implicit | Dotted(inner: bool) | Inline | TableArray | Plain

  datatype Doc = Doc(
    nodes: map<nat, Node>,
    origins: map<nat, Origin>,
    next: nat,                     // the name of the next node to be made
    implicitTables: seq<nat>,
    dottedKeyTables: seq<nat>,
    tableArrays: seq<nat>)

  const ROOT := 0
  const Empty := Doc(map[ROOT := Table(map[])], map[ROOT := Root], 1, [], [], [])

  // AssertFailed: an assertion of the source would fail.
  datatype Outcome<+T> = Ok(value: T) | Redefinition | AssertFailed

  // ---------------------------------------------------------------- the tree

  function NodeAt(d: Doc, id: nat): Node { if id in d.nodes then d.nodes[id] else Scalar }

  function OriginOf(d: Doc, id: nat): Origin { if id in d.origins then d.origins[id] else Plain }

  function Get(d: Doc, table: nat, key: string): Option<nat> {
    var node := NodeAt(d, table);
    if node.Table? && key in node.entries then Some(node.entries[key]) else None
  }

  // A new node, not yet in the tree.
  function Make(d: Doc, node: Node, origin: Origin): Doc {
    d.(nodes := d.nodes[d.next := node], origins := d.origins[d.next := origin], next := d.next + 1)
  }

  // values.emplace on a table without that key.
  function Emplace(d: Doc, table: nat, key: string, child: nat): Doc {
    var node := NodeAt(d, table);
    if node.Table? then d.(nodes := d.nodes[table := Table(node.entries[key := child])]) else d
  }

  // values.push_back on an array.
  function PushBack(d: Doc, array_: nat, child: nat): Doc {
    var node := NodeAt(d, array_);
    if node.Array? then d.(nodes := d.nodes[array_ := Array(node.items + [child])]) else d
  }

  // ---------------------------------------------------------------- [headers]

  // One parent segment of a header: the document after it and the table it leads to.
  function HeaderStep(d: Doc, parent: nat, segment: string): Outcome<(Doc, nat)> {
    match Get(d, parent, segment)
    case None =>
      var d' := Emplace(Make(d, Table(map[]), Implicit), parent, segment, d.next);
      Ok((d'.(implicitTables := d'.implicitTables + [d.next]), d.next))
    case Some(child) =>
      match NodeAt(d, child)
      case Table(_) => Ok((d, child))
      case Array(items) =>
        if child !in d.tableArrays then Redefinition
        else if items == [] || !NodeAt(d, items[|items| - 1]).Table? then AssertFailed
        else Ok((d, items[|items| - 1]))
      case Scalar => Redefinition
  }

  function HeaderWalk(d: Doc, parent: nat, segments: seq<string>): Outcome<(Doc, nat)>
    decreases |segments|
  {
    if segments == [] then Ok((d, parent))
    else match HeaderStep(d, parent, segments[0])
      case Ok((d', parent')) => HeaderWalk(d', parent', segments[1..])
      case Redefinition => Redefinition
      case AssertFailed => AssertFailed
  }

  function Erase(xs: seq<nat>, x: nat): seq<nat> {
    if xs == [] then [] else if xs[0] == x then xs[1..] else [xs[0]] + Erase(xs[1..], x)
  }

  // The last segment of a header: the document after it and the table it returns.
  function HeaderEnd(d: Doc, parent: nat, key: string, isArray: bool): Outcome<(Doc, nat)> {
    match Get(d, parent, key)
    case None =>
      if isArray then
        var d1 := Make(d, Table(map[]), Header);
        var d2 := Make(d1, Array([d.next]), TableArray);
        var d3 := Emplace(d2, parent, key, d1.next);
        Ok((d3.(tableArrays := d3.tableArrays + [d1.next]), d.next))
      else
        Ok((Emplace(Make(d, Table(map[]), Header), parent, key, d.next), d.next))
    case Some(node) =>
      if isArray && NodeAt(d, node).Array? && node in d.tableArrays then
        Ok((PushBack(Make(d, Table(map[]), Header), node, d.next), d.next))
      else if !isArray && NodeAt(d, node).Table? && node in d.implicitTables then
        Ok((d.(implicitTables := Erase(d.implicitTables, node), origins := d.origins[node := Header]), node))
      else Redefinition
  }

  // parse_table_header, after its key has been read.
  function ParseHeader(d: Doc, key: seq<string>, isArray: bool): Outcome<(Doc, nat)>
    requires key != []
  {
    match HeaderWalk(d, ROOT, key[..|key| - 1])
    case Ok((d', parent)) => HeaderEnd(d', parent, key[|key| - 1], isArray)
    case Redefinition => Redefinition
    case AssertFailed => AssertFailed
  }

  // ---------------------------------------------------------------- values and pairs

  datatype Value =
    | ScalarValue
    | ArrayValue(items: seq<Value>)
    | InlineTable(pairs: seq<Pair>)

  datatype Pair = Pair(key: seq<string>, value: Value)

  // An inline table, or a table that a dotted key inside one made.
  predicate IsInner(o: Origin) { o.Inline? || (o.Dotted? && o.inner) }

  // One parent segment of a dotted key.
  function DottedStep(d: Doc, table: nat, segment: string): Outcome<(Doc, nat)> {
    match Get(d, table, segment)
    case None =>
      var d' := Emplace(Make(d, Table(map[]), Dotted(IsInner(OriginOf(d, table)))), table, segment, d.next);
      Ok((d'.(dottedKeyTables := d'.dottedKeyTables + [d.next]), d.next))
    case Some(child) =>
      if NodeAt(d, child).Table? && child in d.dottedKeyTables then Ok((d, child)) else Redefinition
  }

  function DottedWalk(d: Doc, table: nat, segments: seq<string>): Outcome<(Doc, nat)>
    decreases |segments|
  {
    if segments == [] then Ok((d, table))
    else match DottedStep(d, table, segments[0])
      case Ok((d', table')) => DottedWalk(d', table', segments[1..])
      case Redefinition => Redefinition
      case AssertFailed => AssertFailed
  }

  // parse_key_value_pair_and_insert, once the value has been built.
  function InsertValue(d: Doc, table: nat, key: seq<string>, value: nat): Outcome<Doc>
    requires key != []
  {
    match DottedWalk(d, table, key[..|key| - 1])
    case Redefinition => Redefinition
    case AssertFailed => AssertFailed
    case Ok((d', table')) =>
      var last := key[|key| - 1];
      if Get(d', table', last).Some? then Redefinition else Ok(Emplace(d', table', last, value))
  }

  // parse_key_value_pair_and_insert: the value first, then its place.
  function InsertPair(d: Doc, table: nat, pair: Pair): Outcome<Doc>
    decreases pair, 1
  {
    if pair.key == [] then Redefinition   // a key has at least one segment
    else match BuildValue(d, pair.value)
      case Redefinition => Redefinition
      case AssertFailed => AssertFailed
      case Ok((d', value)) => InsertValue(d', table, pair.key, value)
  }

  // parse_value: the document with the value's nodes, and its top node.
  function BuildValue(d: Doc, value: Value): Outcome<(Doc, nat)>
    decreases value, 2
  {
    match value
    case ScalarValue => Ok((Make(d, Scalar, Plain), d.next))
    case ArrayValue(items) =>
      (match BuildItems(d, items)
       case Redefinition => Redefinition
       case AssertFailed => AssertFailed
       case Ok((d', ids)) => Ok((Make(d', Array(ids), Plain), d'.next)))
    case InlineTable(pairs) =>
      (match InsertPairs(Make(d, Table(map[]), Inline), d.next, pairs)
       case Redefinition => Redefinition
       case AssertFailed => AssertFailed
       case Ok(d') => Ok((d', d.next)))
  }

  function BuildItems(d: Doc, items: seq<Value>): Outcome<(Doc, seq<nat>)>
    decreases items, 1
  {
    if items == [] then Ok((d, []))
    else match BuildItems(d, items[..|items| - 1])
      case Redefinition => Redefinition
      case AssertFailed => AssertFailed
      case Ok((d', ids)) =>
        match BuildValue(d', items[|items| - 1])
        case Redefinition => Redefinition
        case AssertFailed => AssertFailed
        case Ok((d'', id)) => Ok((d'', ids + [id]))
  }

  function InsertPairs(d: Doc, table: nat, pairs: seq<Pair>): Outcome<Doc>
    decreases pairs, 1
  {
    if pairs == [] then Ok(d)
    else match InsertPairs(d, table, pairs[..|pairs| - 1])
      case Redefinition => Redefinition
      case AssertFailed => AssertFailed
      case Ok(d') => InsertPair(d', table, pairs[|pairs| - 1])
  }

  // ---------------------------------------------------------------- documents

  datatype Item = HeaderItem(key: seq<string>, isArray: bool) | PairItem(pair: Pair)

  // parse_document: the final document and the tables its headers returned, in order.
  function Run(items: seq<Item>): Outcome<(Doc, seq<nat>)> {
    if items == [] then Ok((Empty, []))
    else match Run(items[..|items| - 1])
      case Redefinition => Redefinition
      case AssertFailed => AssertFailed
      case Ok((d, returned)) => RunItem(d, returned, items[|items| - 1])
  }

  // current_table
  function Current(returned: seq<nat>): nat { if returned == [] then ROOT else returned[|returned| - 1] }

  function RunItem(d: Doc, returned: seq<nat>, item: Item): Outcome<(Doc, seq<nat>)> {
    match item
    case HeaderItem(key, isArray) =>
      if key == [] then Redefinition   // a header has at least one segment
      else (match ParseHeader(d, key, isArray)
        case Redefinition => Redefinition
        case AssertFailed => AssertFailed
        case Ok((d', table)) => Ok((d', returned + [table])))
    case PairItem(pair) =>
      match InsertPair(d, Current(returned), pair)
      case Redefinition => Redefinition
      case AssertFailed => AssertFailed
      case Ok(d') => Ok((d', returned))
  }
}
