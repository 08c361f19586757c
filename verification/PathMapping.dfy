/**
 Result values on the wire, and the Path structure.

 Values whose conversion is one constructor (scalars, vectors, dates) are kept as the wire value they become.
 */
module PathMapping {
  import opened Wrappers
  import opened BigEndian
  import opened PackStream

  const NODE: byte := 0x4E
  const RELATIONSHIP: byte := 0x52
  const UNBOUND_RELATIONSHIP: byte := 0x72
  const PATH: byte := 0x50

  type NodeId = nat   // a UUID

  datatype Runtime =
    | Scalar(wire: Value)
    | ListOf(items: seq<Runtime>)
    | MapOf(entries: seq<Property>)
    | NodeOf(node: NodeValue)
    | RelOf(rel: RelValue)
    | PathOf(items: seq<Runtime>)

  datatype Property = Property(key: seq<byte>, value: Runtime)
  datatype NodeValue = NodeValue(id: NodeId, labels: seq<seq<byte>>, properties: seq<Property>)
  datatype RelValue = RelValue(src: NodeId, dst: NodeId, edgeType: seq<byte>, properties: seq<Property>)

  datatype Ids = Ids(legacy: int, element: seq<byte>)

  /** Whether element ids are sent, and how ids are made. */
  datatype Mode = Mode(withElementIds: bool, nodeIds: NodeId -> Ids, edgeIds: (NodeId, NodeId, seq<byte>) -> Ids)

  predicate IsGraph(v: Runtime) {
    v.NodeOf? || v.RelOf?
  }

  predicate AllGraph(items: seq<Runtime>) {
    forall i | 0 <= i < |items| :: IsGraph(items[i])
  }

  // ---- the specification: structural recursion ----

  function ToBolt(v: Runtime, m: Mode): Value
    decreases v, 1
  {
    match v
    case Scalar(wire) => wire
    case ListOf(items) => List(AllToBolt(items, m))
    case MapOf(entries) => Map(PropertiesToBolt(entries, m))
    case NodeOf(n) => NodeToBolt(n, m)
    case RelOf(r) => RelToBolt(r, m)
    case PathOf(items) => PathToBolt(items, m)
  }

  function AllToBolt(items: seq<Runtime>, m: Mode): (out: seq<Value>)
    ensures |out| == |items|
    decreases items, 0
  {
    seq(|items|, i requires 0 <= i < |items| => ToBolt(items[i], m))
  }

  function PropertiesToBolt(entries: seq<Property>, m: Mode): (out: seq<Entry>)
    ensures |out| == |entries|
    decreases entries, 0
  {
    seq(|entries|, i requires 0 <= i < |entries| => Entry(entries[i].key, ToBolt(entries[i].value, m)))
  }

  function Strings(names: seq<seq<byte>>): seq<Value> {
    seq(|names|, i requires 0 <= i < |names| => String(names[i]))
  }

  function Ints(ns: seq<int>): (out: seq<Value>)
    ensures |out| == |ns|
  {
    seq(|ns|, i requires 0 <= i < |ns| => Int(ns[i]))
  }

  function NodeToBolt(n: NodeValue, m: Mode): Value
    decreases n, 0
  {
    var ids := m.nodeIds(n.id);
    Struct(NODE, [Int(ids.legacy), List(Strings(n.labels)), Map(PropertiesToBolt(n.properties, m))]
                 + if m.withElementIds then [String(ids.element)] else [])
  }

  function RelToBolt(r: RelValue, m: Mode): Value
    decreases r, 0
  {
    var ids := m.edgeIds(r.src, r.dst, r.edgeType);
    var start := m.nodeIds(r.src);
    var end := m.nodeIds(r.dst);
    Struct(RELATIONSHIP,
           [Int(ids.legacy), Int(start.legacy), Int(end.legacy), String(r.edgeType), Map(PropertiesToBolt(r.properties, m))]
           + if m.withElementIds then [String(ids.element), String(start.element), String(end.element)] else [])
  }

  function UnboundRel(r: RelValue, m: Mode): Value
    decreases r, 0
  {
    var ids := m.edgeIds(r.src, r.dst, r.edgeType);
    Struct(UNBOUND_RELATIONSHIP, [Int(ids.legacy), String(r.edgeType), Map(PropertiesToBolt(r.properties, m))]
                                 + if m.withElementIds then [String(ids.element)] else [])
  }

  /** What is gathered along a path: nodes without repeats, relationships, and the index pairs. */
  datatype Trail = Trail(
    nodes: seq<NodeValue>, rels: seq<RelValue>, indices: seq<int>, prev: Option<NodeId>, pending: Option<RelValue>)

  /** The first position of an id, or the length. */
  function IndexOf(nodes: seq<NodeValue>, id: NodeId): (i: nat)
    ensures i <= |nodes|
    ensures i < |nodes| ==> nodes[i].id == id
    ensures forall j | 0 <= j < i :: nodes[j].id != id
  {
    if nodes == [] then 0 else if nodes[0].id == id then 0 else 1 + IndexOf(nodes[1..], id)
  }

  function Visit(t: Trail, v: Runtime): Trail
    requires IsGraph(v)
  {
    match v
    case RelOf(r) => t.(pending := Some(r))
    case NodeOf(n) =>
      var idx := IndexOf(t.nodes, n.id);
      var nodes := if idx == |t.nodes| then t.nodes + [n] else t.nodes;
      if t.pending.None? then t.(nodes := nodes, prev := Some(n.id))
      else
        var hop := |t.rels| + 1;
        var forward := t.prev == Some(t.pending.value.src);
        Trail(nodes, t.rels + [t.pending.value], t.indices + [if forward then hop else -hop, idx], Some(n.id), None)
  }

  function Follow(items: seq<Runtime>): (t: Trail)
    requires AllGraph(items)
    ensures forall n | n in t.nodes :: NodeOf(n) in items
    ensures forall r | r in t.rels :: RelOf(r) in items
    ensures t.pending.Some? ==> RelOf(t.pending.value) in items
  {
    if items == [] then Trail([], [], [], None, None)
    else Visit(Follow(items[..|items| - 1]), items[|items| - 1])
  }

  lemma NodeInside(items: seq<Runtime>, n: NodeValue)
    requires NodeOf(n) in items
    ensures items decreases to n
  {
    var k :| 0 <= k < |items| && items[k] == NodeOf(n);
    assert items decreases to items[k];
    assert items[k] decreases to items[k].node;
  }

  lemma RelInside(items: seq<Runtime>, r: RelValue)
    requires RelOf(r) in items
    ensures items decreases to r
  {
    var k :| 0 <= k < |items| && items[k] == RelOf(r);
    assert items decreases to items[k];
    assert items[k] decreases to items[k].rel;
  }

  function NodesToBolt(items: seq<Runtime>, nodes: seq<NodeValue>, m: Mode): (out: seq<Value>)
    requires forall n | n in nodes :: NodeOf(n) in items
    ensures |out| == |nodes|
    decreases items, 0
  {
    seq(|nodes|, i requires 0 <= i < |nodes| => NodeInside(items, nodes[i]); NodeToBolt(nodes[i], m))
  }

  function RelsToBolt(items: seq<Runtime>, rels: seq<RelValue>, m: Mode): (out: seq<Value>)
    requires forall r | r in rels :: RelOf(r) in items
    ensures |out| == |rels|
    decreases items, 0
  {
    seq(|rels|, i requires 0 <= i < |rels| => RelInside(items, rels[i]); UnboundRel(rels[i], m))
  }

  /** A path of nodes and relationships becomes a Path structure; anything else a plain list. */
  function PathToBolt(items: seq<Runtime>, m: Mode): Value
    decreases items, 1
  {
    if !AllGraph(items) then List(AllToBolt(items, m)) else
      var t := Follow(items);
      Struct(PATH, [List(NodesToBolt(items, t.nodes, m)), List(RelsToBolt(items, t.rels, m)), List(Ints(t.indices))])
  }

  // ---- what a driver finds in a structure, field by field ----

  /** The same keys in the same order, each with its value converted. */
  ghost predicate AreProperties(v: Value, properties: seq<Property>, m: Mode) {
    && v.Map? && |v.entries| == |properties|
    && forall i | 0 <= i < |properties| ::
         v.entries[i].key == properties[i].key && v.entries[i].value == ToBolt(properties[i].value, m)
  }

  ghost predicate AreLabels(v: Value, labels: seq<seq<byte>>) {
    v.List? && |v.items| == |labels| && forall i | 0 <= i < |labels| :: v.items[i] == String(labels[i])
  }

  /** A Node: id, labels, properties, and from Bolt 5 the element id. */
  lemma NodeFields(n: NodeValue, m: Mode)
    ensures var w := NodeToBolt(n, m);
            && w.Struct? && w.tag == 0x4E && |w.fields| == (if m.withElementIds then 4 else 3)
            && w.fields[0] == Int(m.nodeIds(n.id).legacy)
            && AreLabels(w.fields[1], n.labels)
            && AreProperties(w.fields[2], n.properties, m)
            && (m.withElementIds ==> w.fields[3] == String(m.nodeIds(n.id).element))
  {
  }

  /** A Relationship: id, start, end, type, properties, and from Bolt 5 the element ids of the three. */
  lemma RelFields(r: RelValue, m: Mode)
    ensures var w := RelToBolt(r, m);
            && w.Struct? && w.tag == 0x52 && |w.fields| == (if m.withElementIds then 8 else 5)
            && w.fields[0] == Int(m.edgeIds(r.src, r.dst, r.edgeType).legacy)
            && w.fields[1] == Int(m.nodeIds(r.src).legacy)
            && w.fields[2] == Int(m.nodeIds(r.dst).legacy)
            && w.fields[3] == String(r.edgeType)
            && AreProperties(w.fields[4], r.properties, m)
            && (m.withElementIds ==>
                  && w.fields[5] == String(m.edgeIds(r.src, r.dst, r.edgeType).element)
                  && w.fields[6] == String(m.nodeIds(r.src).element)
                  && w.fields[7] == String(m.nodeIds(r.dst).element))
  {
  }

  /** An UnboundRelationship, as a path holds it: id, type, properties, and from Bolt 5 the element id. */
  lemma UnboundFields(r: RelValue, m: Mode)
    ensures var w := UnboundRel(r, m);
            && w.Struct? && w.tag == 0x72 && |w.fields| == (if m.withElementIds then 4 else 3)
            && w.fields[0] == Int(m.edgeIds(r.src, r.dst, r.edgeType).legacy)
            && w.fields[1] == String(r.edgeType)
            && AreProperties(w.fields[2], r.properties, m)
            && (m.withElementIds ==> w.fields[3] == String(m.edgeIds(r.src, r.dst, r.edgeType).element))
  {
  }

  /** A path with anything but nodes and relationships in it is sent as the list of its elements. */
  lemma MixedPathIsList(items: seq<Runtime>, m: Mode, i: nat)
    requires i < |items| && !IsGraph(items[i])
    ensures var w := ToBolt(PathOf(items), m);
            w.List? && |w.items| == |items| && forall j | 0 <= j < |items| :: w.items[j] == ToBolt(items[j], m)
  {
    assert !AllGraph(items);
    assert ToBolt(PathOf(items), m) == List(AllToBolt(items, m));
  }

  // ---- the converters ----
  // The borrowed and the owned family differ in how they treat a path; `owned` says which family runs.

  method Convert(v: Runtime, m: Mode, owned: bool) returns (r: Value)
    ensures r == ToBolt(v, m)
    decreases v, 1
  {
    match v
    case Scalar(wire) => r := wire;
    case ListOf(items) =>
      var out := ConvertAll(items, m, owned);
      r := List(out);
    case MapOf(entries) =>
      var out := ConvertProperties(entries, m, owned);
      r := Map(out);
    case NodeOf(n) => r := ConvertNode(n, m, owned);
    case RelOf(rel) => r := ConvertRel(rel, m, owned);
    case PathOf(items) =>
      if owned {
        r := ConvertPathOwned(items, m);
      } else {
        r := ConvertPath(items, m);
      }
  }

  method ConvertAll(items: seq<Runtime>, m: Mode, owned: bool) returns (out: seq<Value>)
    ensures out == AllToBolt(items, m)
    decreases items, 0
  {
    out := [];
    for i := 0 to |items|
      invariant |out| == i && forall j | 0 <= j < i :: out[j] == ToBolt(items[j], m)
    {
      var r := Convert(items[i], m, owned);
      out := out + [r];
    }
  }

  method ConvertProperties(entries: seq<Property>, m: Mode, owned: bool) returns (out: seq<Entry>)
    ensures out == PropertiesToBolt(entries, m)
    decreases entries, 0
  {
    out := [];
    for i := 0 to |entries|
      invariant |out| == i && forall j | 0 <= j < i :: out[j] == Entry(entries[j].key, ToBolt(entries[j].value, m))
    {
      var r := Convert(entries[i].value, m, owned);
      out := out + [Entry(entries[i].key, r)];
    }
  }

  method ConvertNode(n: NodeValue, m: Mode, owned: bool) returns (r: Value)
    ensures r == NodeToBolt(n, m)
    decreases n, 0
  {
    var ids := m.nodeIds(n.id);
    var properties := ConvertProperties(n.properties, m, owned);
    var fields := [Int(ids.legacy), List(Strings(n.labels)), Map(properties)];
    if m.withElementIds {
      fields := fields + [String(ids.element)];
    }
    r := Struct(NODE, fields);
  }

  method ConvertRel(rel: RelValue, m: Mode, owned: bool) returns (r: Value)
    ensures r == RelToBolt(rel, m)
    decreases rel, 0
  {
    var ids := m.edgeIds(rel.src, rel.dst, rel.edgeType);
    var start, end := m.nodeIds(rel.src), m.nodeIds(rel.dst);
    var properties := ConvertProperties(rel.properties, m, owned);
    var fields := [Int(ids.legacy), Int(start.legacy), Int(end.legacy), String(rel.edgeType), Map(properties)];
    if m.withElementIds {
      fields := fields + [String(ids.element), String(start.element), String(end.element)];
    }
    r := Struct(RELATIONSHIP, fields);
  }

  method ConvertUnbound(rel: RelValue, m: Mode, owned: bool) returns (r: Value)
    ensures r == UnboundRel(rel, m)
    decreases rel, 0
  {
    var ids := m.edgeIds(rel.src, rel.dst, rel.edgeType);
    var properties := ConvertProperties(rel.properties, m, owned);
    var fields := [Int(ids.legacy), String(rel.edgeType), Map(properties)];
    if m.withElementIds {
      fields := fields + [String(ids.element)];
    }
    r := Struct(UNBOUND_RELATIONSHIP, fields);
  }

  method ConvertNodes(ghost items: seq<Runtime>, nodes: seq<NodeValue>, m: Mode, owned: bool) returns (out: seq<Value>)
    requires forall n | n in nodes :: NodeOf(n) in items
    ensures out == NodesToBolt(items, nodes, m)
    decreases items, 1
  {
    out := [];
    for i := 0 to |nodes|
      invariant |out| == i && forall j | 0 <= j < i :: out[j] == NodeToBolt(nodes[j], m)
    {
      NodeInside(items, nodes[i]);
      var n := ConvertNode(nodes[i], m, owned);
      out := out + [n];
    }
  }

  method ConvertRels(ghost items: seq<Runtime>, rels: seq<RelValue>, m: Mode, owned: bool) returns (out: seq<Value>)
    requires forall r | r in rels :: RelOf(r) in items
    ensures out == RelsToBolt(items, rels, m)
    decreases items, 1
  {
    out := [];
    for i := 0 to |rels|
      invariant |out| == i && forall j | 0 <= j < i :: out[j] == UnboundRel(rels[j], m)
    {
      RelInside(items, rels[i]);
      var r := ConvertUnbound(rels[i], m, owned);
      out := out + [r];
    }
  }

  /** The hash index finds every gathered node. */
  predicate Indexed(nodes: seq<NodeValue>, index: map<NodeId, nat>) {
    && (forall i | 0 <= i < |nodes| :: nodes[i].id in index)
    && (forall id | id in index :: index[id] == IndexOf(nodes, id) < |nodes|)
  }

  lemma {:induction false} IndexOfAppend(nodes: seq<NodeValue>, n: NodeValue, id: NodeId)
    ensures IndexOf(nodes + [n], id)
            == if IndexOf(nodes, id) < |nodes| then IndexOf(nodes, id) else if n.id == id then |nodes| else |nodes| + 1
  {
    var i, j := IndexOf(nodes, id), IndexOf(nodes + [n], id);
    assert forall k | 0 <= k < |nodes| :: (nodes + [n])[k] == nodes[k];
    assert (nodes + [n])[|nodes|] == n;
  }

  /** Record one element: look its node up in the hash index, and close the pending hop. */
  method VisitItem(t: Trail, index: map<NodeId, nat>, v: Runtime) returns (t': Trail, index': map<NodeId, nat>)
    requires Indexed(t.nodes, index) && IsGraph(v)
    ensures t' == Visit(t, v) && Indexed(t'.nodes, index')
  {
    t', index' := t, index;
    match v
    case RelOf(r) => t' := t.(pending := Some(r));
    case NodeOf(n) =>
      var idx;
      if n.id in index {
        idx := index[n.id];
      } else {
        idx := |t.nodes|;
        index' := index[n.id := idx];
        t' := t'.(nodes := t.nodes + [n]);
        assert IndexOf(t.nodes, n.id) == |t.nodes|;
        forall id | id in index' ensures index'[id] == IndexOf(t'.nodes, id) < |t'.nodes| {
          IndexOfAppend(t.nodes, n, id);
        }
      }
      if t'.pending.Some? {
        var rel := t'.pending.value;
        var hop := |t'.rels| + 1;
        var forward := t'.prev == Some(rel.src);
        t' := t'.(rels := t'.rels + [rel], indices := t'.indices + [if forward then hop else -hop, idx], pending := None);
      }
      t' := t'.(prev := Some(n.id));
  }

  lemma FollowStep(items: seq<Runtime>, i: nat)
    requires i < |items| && AllGraph(items[..i + 1])
    ensures AllGraph(items[..i]) && Follow(items[..i + 1]) == Visit(Follow(items[..i]), items[i])
  {
    assert items[..i + 1][..i] == items[..i];
    assert forall k | 0 <= k < i :: items[..i][k] == items[..i + 1][k];
  }

  lemma FollowNothing()
    ensures Follow([]) == Trail([], [], [], None, None) && Indexed([], map[])
  {
  }

  lemma GraphPrefix(items: seq<Runtime>, i: nat)
    requires i < |items| && AllGraph(items[..i]) && IsGraph(items[i])
    ensures AllGraph(items[..i + 1])
  {
  }

  /** The borrowed converter gives up on the struct when it meets something else. */
  method ConvertPath(items: seq<Runtime>, m: Mode) returns (r: Value)
    ensures r == PathToBolt(items, m)
    decreases items, 2
  {
    hide Follow, Visit, IndexOf, Indexed;
    FollowNothing();
    var t, index := Trail([], [], [], None, None), map[];
    for i := 0 to |items|
      invariant AllGraph(items[..i]) && t == Follow(items[..i]) && Indexed(t.nodes, index)
    {
      if !IsGraph(items[i]) {
        var out := ConvertAll(items, m, false);
        return List(out);
      }
      GraphPrefix(items, i);
      FollowStep(items, i);
      t, index := VisitItem(t, index, items[i]);
    }
    assert items[..|items|] == items;
    var nodes := ConvertNodes(items, t.nodes, m, false);
    var rels := ConvertRels(items, t.rels, m, false);
    r := Struct(PATH, [List(nodes), List(rels), List(Ints(t.indices))]);
  }

  /** The owned converter looks for something else first, so that nothing is taken apart too early. */
  method ConvertPathOwned(items: seq<Runtime>, m: Mode) returns (r: Value)
    ensures r == PathToBolt(items, m)
    decreases items, 2
  {
    if exists i | 0 <= i < |items| :: !IsGraph(items[i]) {
      var out := ConvertAll(items, m, true);
      return List(out);
    }
    var t, index := Trail([], [], [], None, None), map[];
    for i := 0 to |items|
      invariant t == Follow(items[..i]) && Indexed(t.nodes, index)
    {
      FollowStep(items, i);
      t, index := VisitItem(t, index, items[i]);
    }
    assert items[..|items|] == items;
    var nodes := ConvertNodes(items, t.nodes, m, true);
    var rels := ConvertRels(items, t.rels, m, true);
    r := Struct(PATH, [List(nodes), List(rels), List(Ints(t.indices))]);
  }

  // ---- reading a Path structure back ----

  datatype Hop = Hop(rel: Value, forward: bool)
  datatype Walked = Walked(nodes: seq<Value>, hops: seq<Hop>)

  predicate Walkable(nodes: seq<Value>, rels: seq<Value>, indices: seq<Value>) {
    && nodes != [] && |indices| % 2 == 0
    && forall j | 0 <= j < |indices| ::
         indices[j].Int? && if j % 2 == 0 then 1 <= Abs(indices[j].n) <= |rels| else 0 <= indices[j].n < |nodes|
  }

  function Abs(n: int): nat {
    if n < 0 then -n else n
  }

  /**
   The walk the Bolt specification describes: from the first node, each index pair names a relationship (1-based,
   negative when it is crossed against its direction) and the node it leads to.
   */
  function WalkLists(nodes: seq<Value>, rels: seq<Value>, indices: seq<Value>): (w: Walked)
    requires Walkable(nodes, rels, indices)
    ensures |w.hops| == |indices| / 2 && |w.nodes| == |w.hops| + 1
  {
    var hops := |indices| / 2;
    Walked([nodes[0]] + seq(hops, j requires 0 <= j < hops => nodes[indices[2 * j + 1].n]),
           seq(hops, j requires 0 <= j < hops => Hop(rels[Abs(indices[2 * j].n) - 1], indices[2 * j].n > 0)))
  }

  function Walk(v: Value): Option<Walked> {
    if v.Struct? && v.tag == PATH && |v.fields| == 3 && v.fields[0].List? && v.fields[1].List? && v.fields[2].List?
       && Walkable(v.fields[0].items, v.fields[1].items, v.fields[2].items)
    then Some(WalkLists(v.fields[0].items, v.fields[1].items, v.fields[2].items))
    else None
  }

  /** Node, relationship, node, ..., node. */
  predicate Alternating(items: seq<Runtime>) {
    && |items| % 2 == 1
    && forall i | 0 <= i < |items| :: if i % 2 == 0 then items[i].NodeOf? else items[i].RelOf?
  }

  function Stops(items: seq<Runtime>): (stops: seq<NodeValue>)
    requires Alternating(items)
    ensures |stops| == |items| / 2 + 1 && forall j | 0 <= j < |stops| :: stops[j] == items[2 * j].node
  {
    seq(|items| / 2 + 1, j requires 0 <= j <= |items| / 2 => items[2 * j].node)
  }

  function Links(items: seq<Runtime>): (links: seq<RelValue>)
    requires Alternating(items)
    ensures |links| == |items| / 2 && forall j | 0 <= j < |links| :: links[j] == items[2 * j + 1].rel
  {
    seq(|items| / 2, j requires 0 <= j < |items| / 2 => items[2 * j + 1].rel)
  }

  /** Both lists know the same node, or neither any, by this id. */
  ghost predicate Agree(a: seq<NodeValue>, b: seq<NodeValue>, id: NodeId) {
    var (i, j) := (IndexOf(a, id), IndexOf(b, id));
    (i < |a| <==> j < |b|) && (i < |a| ==> a[i] == b[j])
  }

  ghost predicate SameFirsts(stops: seq<NodeValue>, nodes: seq<NodeValue>) {
    && (if stops == [] then nodes == [] else nodes != [] && nodes[0] == stops[0])
    && forall id: NodeId :: Agree(stops, nodes, id)
  }

  /** A node is gathered exactly when its id is new. */
  lemma FirstsStep(stops: seq<NodeValue>, nodes: seq<NodeValue>, n: NodeValue)
    requires SameFirsts(stops, nodes)
    ensures SameFirsts(stops + [n], if IndexOf(nodes, n.id) == |nodes| then nodes + [n] else nodes)
  {
    assert Agree(stops, nodes, n.id);
    var nodes' := if IndexOf(nodes, n.id) == |nodes| then nodes + [n] else nodes;
    forall id: NodeId ensures Agree(stops + [n], nodes', id) {
      assert Agree(stops, nodes, id);
      IndexOfAppend(stops, n, id);
      IndexOfAppend(nodes, n, id);
    }
  }

  lemma IndexOfPrefix(stops: seq<NodeValue>, k: nat, id: NodeId)
    requires k <= |stops| && IndexOf(stops[..k], id) < k
    ensures IndexOf(stops, id) == IndexOf(stops[..k], id)
  {
  }

  /** The node a walker should find at stop `j`: the first one with its id. */
  function FirstLike(stops: seq<NodeValue>, j: nat): NodeValue
    requires j < |stops|
  {
    stops[IndexOf(stops, stops[j].id)]
  }

  /** The index pair of hop `j`. */
  ghost predicate HopTraced(stops: seq<NodeValue>, links: seq<RelValue>, j: nat, nodes: seq<NodeValue>, relIndex: int, nodeIndex: int)
    requires j < |links| && j + 1 < |stops|
  {
    && relIndex == (if links[j].src == stops[j].id then j + 1 else -(j + 1))
    && 0 <= nodeIndex < |nodes| && nodes[nodeIndex] == FirstLike(stops, j + 1)
  }

  ghost predicate Traced(stops: seq<NodeValue>, links: seq<RelValue>, k: nat, t: Trail)
    requires k < |stops| == |links| + 1
  {
    && t.pending.None? && t.prev == Some(stops[k].id)
    && SameFirsts(stops[..k + 1], t.nodes)
    && t.rels == links[..k] && |t.indices| == 2 * k
    && (forall j | 0 <= j < k :: HopTraced(stops, links, j, t.nodes, t.indices[2 * j], t.indices[2 * j + 1]))
  }

  lemma FirstFound(stops: seq<NodeValue>, nodes: seq<NodeValue>, k: nat)
    requires k < |stops| && SameFirsts(stops[..k + 1], nodes)
    ensures var i := IndexOf(nodes, stops[k].id); i < |nodes| && nodes[i] == FirstLike(stops, k)
  {
    var id := stops[k].id;
    assert stops[..k + 1][k].id == id;
    assert Agree(stops[..k + 1], nodes, id);
    IndexOfPrefix(stops, k + 1, id);
  }

  /** One hop of the fold. */
  lemma HopStep(stops: seq<NodeValue>, links: seq<RelValue>, k: nat, t: Trail)
    requires k + 1 < |stops| == |links| + 1 && Traced(stops, links, k, t)
    ensures Traced(stops, links, k + 1, Visit(Visit(t, RelOf(links[k])), NodeOf(stops[k + 1])))
  {
    hide SameFirsts, Visit, HopTraced, IndexOf;
    var n := stops[k + 1];
    var t' := Visit(Visit(t, RelOf(links[k])), NodeOf(n));
    HopVisited(t, links[k], n);
    FirstsStep(stops[..k + 1], t.nodes, n);
    assert stops[..k + 1] + [n] == stops[..k + 2];
    forall j | 0 <= j < k ensures HopTraced(stops, links, j, t'.nodes, t'.indices[2 * j], t'.indices[2 * j + 1]) {
      HopKept(stops, links, j, t.nodes, t'.nodes, t.indices[2 * j], t.indices[2 * j + 1]);
    }
    LastHopTraced(stops, links, k, t.nodes, t'.nodes);
  }

  lemma HopKept(stops: seq<NodeValue>, links: seq<RelValue>, j: nat, nodes: seq<NodeValue>, nodes': seq<NodeValue>,
                relIndex: int, nodeIndex: int)
    requires j < |links| && j + 1 < |stops| && HopTraced(stops, links, j, nodes, relIndex, nodeIndex) && nodes <= nodes'
    ensures HopTraced(stops, links, j, nodes', relIndex, nodeIndex)
  {
    hide FirstLike;
  }

  lemma LastHopTraced(stops: seq<NodeValue>, links: seq<RelValue>, k: nat, nodes: seq<NodeValue>, nodes': seq<NodeValue>)
    requires k + 1 < |stops| == |links| + 1
    requires nodes' == if IndexOf(nodes, stops[k + 1].id) == |nodes| then nodes + [stops[k + 1]] else nodes
    requires SameFirsts(stops[..k + 2], nodes')
    ensures HopTraced(stops, links, k, nodes', if Some(stops[k].id) == Some(links[k].src) then k + 1 else -(k + 1),
                      IndexOf(nodes, stops[k + 1].id))
  {
    hide SameFirsts, FirstLike, IndexOf;
    assert stops[..k + 2] == stops[..k + 1 + 1];
    FirstFound(stops, nodes', k + 1);
    IndexOfAppend(nodes, stops[k + 1], stops[k + 1].id);
  }

  lemma HopVisited(t: Trail, r: RelValue, n: NodeValue)
    requires t.pending.None?
    ensures var (i, hop) := (IndexOf(t.nodes, n.id), |t.rels| + 1);
            Visit(Visit(t, RelOf(r)), NodeOf(n))
            == Trail(if i == |t.nodes| then t.nodes + [n] else t.nodes, t.rels + [r],
                     t.indices + [if t.prev == Some(r.src) then hop else -hop, i], Some(n.id), None)
  {
    hide IndexOf;
  }

  lemma AlternatingAt(items: seq<Runtime>, k: nat)
    requires Alternating(items) && 0 < k && 2 * k < |items|
    ensures k < |Stops(items)| == |Links(items)| + 1
    ensures items[2 * k - 1] == RelOf(Links(items)[k - 1]) && items[2 * k] == NodeOf(Stops(items)[k])
  {
    assert 2 * k - 1 == 2 * (k - 1) + 1;
  }

  lemma AlternatingIsGraph(items: seq<Runtime>)
    requires Alternating(items)
    ensures AllGraph(items)
  {
  }

  lemma {:induction false} FollowTraced(items: seq<Runtime>, k: nat)
    requires Alternating(items) && 2 * k < |items|
    ensures AllGraph(items[..2 * k + 1]) && Traced(Stops(items), Links(items), k, Follow(items[..2 * k + 1]))
  {
    hide Follow, Visit, HopTraced, Traced, Alternating, Stops, Links;
    AlternatingIsGraph(items);
    if k == 0 {
      StartTraced(items);
    } else {
      FollowTraced(items, k - 1);
      AlternatingAt(items, k);
      FollowStep(items, 2 * k - 1);
      FollowStep(items, 2 * k);
      HopStep(Stops(items), Links(items), k - 1, Follow(items[..2 * k - 1]));
    }
  }

  lemma StartTraced(items: seq<Runtime>)
    requires Alternating(items)
    ensures Traced(Stops(items), Links(items), 0, Follow(items[..1]))
  {
  }

  /** Walking the structure of any alternating path visits first visits, and crosses every relationship in order. */
  lemma WalkFinds(items: seq<Runtime>, m: Mode)
    requires Alternating(items)
    ensures var (w, stops, links) := (Walk(PathToBolt(items, m)), Stops(items), Links(items));
            && w.Some? && |w.value.nodes| == |stops| && |w.value.hops| == |links|
            && (forall j | 0 <= j < |stops| :: w.value.nodes[j] == NodeToBolt(FirstLike(stops, j), m))
            && (forall j | 0 <= j < |links| ::
                  w.value.hops[j] == Hop(UnboundRel(links[j], m), links[j].src == stops[j].id))
  {
    hide Follow, NodeToBolt, UnboundRel, FirstLike, Traced, Walk, Ints;
    var (stops, links) := (Stops(items), Links(items));
    var k := |links|;
    FollowTraced(items, k);
    assert items[..2 * k + 1] == items;
    var t := Follow(items);
    var (nodes, rels) := (NodesToBolt(items, t.nodes, m), RelsToBolt(items, t.rels, m));
    WalkTraced(stops, links, t, nodes, rels, m);
  }

  lemma WalkTraced(stops: seq<NodeValue>, links: seq<RelValue>, t: Trail, nodes: seq<Value>, rels: seq<Value>, m: Mode)
    requires |stops| == |links| + 1 && Traced(stops, links, |links|, t)
    requires |nodes| == |t.nodes| && forall i | 0 <= i < |nodes| :: nodes[i] == NodeToBolt(t.nodes[i], m)
    requires |rels| == |t.rels| && forall i | 0 <= i < |rels| :: rels[i] == UnboundRel(t.rels[i], m)
    ensures var w := Walk(Struct(PATH, [List(nodes), List(rels), List(Ints(t.indices))]));
            && w.Some? && |w.value.nodes| == |stops| && |w.value.hops| == |links|
            && (forall j | 0 <= j < |stops| :: w.value.nodes[j] == NodeToBolt(FirstLike(stops, j), m))
            && (forall j | 0 <= j < |links| ::
                  w.value.hops[j] == Hop(UnboundRel(links[j], m), links[j].src == stops[j].id))
  {
    hide NodeToBolt, UnboundRel, FirstLike, SameFirsts, Walk, Ints;
    FirstIsFirst(stops, t.nodes, |links|);
    IndicesInRange(stops, links, t);
    var w := WalkOf(nodes, rels, t.indices);
    forall j | 0 <= j < |stops| ensures w.nodes[j] == NodeToBolt(FirstLike(stops, j), m) {
      if j > 0 {
        assert HopTraced(stops, links, j - 1, t.nodes, t.indices[2 * (j - 1)], t.indices[2 * (j - 1) + 1]);
        assert w.nodes[j - 1 + 1] == nodes[t.indices[2 * (j - 1) + 1]];
      }
    }
    forall j | 0 <= j < |links| ensures w.hops[j] == Hop(UnboundRel(links[j], m), links[j].src == stops[j].id) {
      assert HopTraced(stops, links, j, t.nodes, t.indices[2 * j], t.indices[2 * j + 1]);
    }
  }

  /** The walk, hop by hop. */
  lemma WalkOf(nodes: seq<Value>, rels: seq<Value>, indices: seq<int>) returns (w: Walked)
    requires nodes != [] && |indices| % 2 == 0
    requires forall j | 0 <= j < |indices| ::
               if j % 2 == 0 then 1 <= Abs(indices[j]) <= |rels| else 0 <= indices[j] < |nodes|
    ensures Walk(Struct(PATH, [List(nodes), List(rels), List(Ints(indices))])) == Some(w)
    ensures |w.nodes| == |w.hops| + 1 && |w.hops| == |indices| / 2 && w.nodes[0] == nodes[0]
    ensures forall j | 0 <= j < |w.hops| ::
              && w.nodes[j + 1] == nodes[indices[2 * j + 1]]
              && w.hops[j] == Hop(rels[Abs(indices[2 * j]) - 1], indices[2 * j] > 0)
  {
    hide Abs;
    var ints := Ints(indices);
    IntsAre(indices);
    hide Ints, WalkLists;
    w := WalkLists(nodes, rels, ints);
    WalkAt(nodes, rels, ints);
    forall j | 0 <= j < |w.hops|
      ensures w.nodes[j + 1] == nodes[indices[2 * j + 1]]
      ensures w.hops[j] == Hop(rels[Abs(indices[2 * j]) - 1], indices[2 * j] > 0) {
      assert ints[2 * j] == Int(indices[2 * j]) && ints[2 * j + 1] == Int(indices[2 * j + 1]);
    }
  }

  lemma IntsAre(ns: seq<int>)
    ensures forall j | 0 <= j < |ns| :: Ints(ns)[j] == Int(ns[j])
  {
  }

  lemma WalkAt(nodes: seq<Value>, rels: seq<Value>, indices: seq<Value>)
    requires Walkable(nodes, rels, indices)
    ensures var w := WalkLists(nodes, rels, indices);
            && w.nodes[0] == nodes[0]
            && forall j | 0 <= j < |indices| / 2 ::
                 && w.nodes[j + 1] == nodes[indices[2 * j + 1].n]
                 && w.hops[j] == Hop(rels[Abs(indices[2 * j].n) - 1], indices[2 * j].n > 0)
  {
    hide Abs;
  }

  lemma FirstIsFirst(stops: seq<NodeValue>, nodes: seq<NodeValue>, k: nat)
    requires k < |stops| && SameFirsts(stops[..k + 1], nodes)
    ensures nodes != [] && nodes[0] == FirstLike(stops, 0)
  {
  }

  lemma IndicesInRange(stops: seq<NodeValue>, links: seq<RelValue>, t: Trail)
    requires |stops| == |links| + 1 && Traced(stops, links, |links|, t)
    ensures forall j | 0 <= j < |t.indices| ::
              if j % 2 == 0 then 1 <= Abs(t.indices[j]) <= |t.rels| else 0 <= t.indices[j] < |t.nodes|
  {
    forall j | 0 <= j < |t.indices|
      ensures if j % 2 == 0 then 1 <= Abs(t.indices[j]) <= |t.rels| else 0 <= t.indices[j] < |t.nodes| {
      assert HopTraced(stops, links, j / 2, t.nodes, t.indices[2 * (j / 2)], t.indices[2 * (j / 2) + 1]);
    }
  }

  /** Each relationship joins the nodes around it, in either direction. */
  predicate Joined(items: seq<Runtime>)
    requires Alternating(items)
  {
    var (stops, links) := (Stops(items), Links(items));
    forall j | 0 <= j < |links| ::
      (links[j].src, links[j].dst) in {(stops[j].id, stops[j + 1].id), (stops[j + 1].id, stops[j].id)}
  }

  /** Stops with one id look the same on the wire. */
  predicate SameIdSameNode(items: seq<Runtime>, m: Mode)
    requires Alternating(items)
  {
    var stops := Stops(items);
    forall i, j | 0 <= i < |stops| && 0 <= j < |stops| ::
      stops[i].id == stops[j].id ==> NodeToBolt(stops[i], m) == NodeToBolt(stops[j], m)
  }

  /** The walk gives back every node in order, and every relationship with its true start and end. */
  ghost predicate Rebuilt(items: seq<Runtime>, w: Walked, m: Mode)
    requires Alternating(items)
  {
    var (stops, links) := (Stops(items), Links(items));
    && w.nodes == seq(|stops|, j requires 0 <= j < |stops| => NodeToBolt(stops[j], m))
    && |w.hops| == |links|
    && forall j | 0 <= j < |links| ::
         var (start, end) := if w.hops[j].forward then (stops[j], stops[j + 1]) else (stops[j + 1], stops[j]);
         w.hops[j].rel == UnboundRel(links[j], m) && start.id == links[j].src && end.id == links[j].dst
  }

  /** Showing first visits shows the stops exactly when ids identify nodes. */
  lemma NodesRebuiltExactlyWhen(stops: seq<NodeValue>, nodes: seq<Value>, m: Mode)
    requires |nodes| == |stops| && forall j | 0 <= j < |stops| :: nodes[j] == NodeToBolt(FirstLike(stops, j), m)
    ensures (forall j | 0 <= j < |stops| :: nodes[j] == NodeToBolt(stops[j], m))
            <==> (forall i, j | 0 <= i < |stops| && 0 <= j < |stops| ::
                    stops[i].id == stops[j].id ==> NodeToBolt(stops[i], m) == NodeToBolt(stops[j], m))
  {
    hide NodeToBolt, IndexOf;
    forall i, j | 0 <= i < |stops| && 0 <= j < |stops| && stops[i].id == stops[j].id ensures nodes[i] == nodes[j] {
      assert FirstLike(stops, i) == FirstLike(stops, j);
    }
    forall j | 0 <= j < |stops| ensures IndexOf(stops, stops[j].id) < |stops| && FirstLike(stops, j).id == stops[j].id {
      assert !(j < IndexOf(stops, stops[j].id));
    }
  }

  /** Crossing a relationship by its sign crosses it truly exactly when it joins the nodes around it. */
  lemma HopRebuiltExactlyWhen(before: NodeId, after: NodeId, r: RelValue)
    ensures var (start, end) := if r.src == before then (before, after) else (after, before);
            (start == r.src && end == r.dst) <==> (r.src, r.dst) in {(before, after), (after, before)}
  {
  }

  /** The emitted structure is the path, exactly when the relationships join their nodes and ids identify nodes. */
  lemma PathRebuiltExactlyWhen(items: seq<Runtime>, m: Mode)
    requires Alternating(items)
    ensures var w := Walk(PathToBolt(items, m));
            w.Some? && (Rebuilt(items, w.value, m) <==> Joined(items) && SameIdSameNode(items, m))
  {
    hide NodeToBolt, UnboundRel, Walk, PathToBolt, Alternating, FirstLike, Stops, Links;
    WalkFinds(items, m);
    var w := Walk(PathToBolt(items, m)).value;
    var (stops, links) := (Stops(items), Links(items));
    NodesRebuiltExactlyWhen(stops, w.nodes, m);
    forall j | 0 <= j < |links|
      ensures var (start, end) := if w.hops[j].forward then (stops[j], stops[j + 1]) else (stops[j + 1], stops[j]);
              (start.id == links[j].src && end.id == links[j].dst)
              <==> (links[j].src, links[j].dst) in {(stops[j].id, stops[j + 1].id), (stops[j + 1].id, stops[j].id)} {
      HopRebuiltExactlyWhen(stops[j].id, stops[j + 1].id, links[j]);
    }
  }

  /** Two visits of one id with different labels: the walk shows the first label twice. */
  lemma RelabelledPathIsNotRebuilt(m: Mode)
    ensures var items := [NodeOf(NodeValue(1, [[65]], [])), RelOf(RelValue(1, 1, [], [])), NodeOf(NodeValue(1, [[66]], []))];
            Alternating(items) && Joined(items)
            && var w := Walk(PathToBolt(items, m)); w.Some? && !Rebuilt(items, w.value, m)
  {
    hide Walk, PathToBolt, Rebuilt;
    var a, b := NodeValue(1, [[65]], []), NodeValue(1, [[66]], []);
    var items := [NodeOf(a), RelOf(RelValue(1, 1, [], [])), NodeOf(b)];
    PathRebuiltExactlyWhen(items, m);
    assert Stops(items)[0] == a && Stops(items)[1] == b;
    assert Strings(a.labels)[0] != Strings(b.labels)[0];
    assert NodeToBolt(a, m).fields[1] != NodeToBolt(b, m).fields[1];
  }
}
