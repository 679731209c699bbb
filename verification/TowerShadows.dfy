/** The shadow world: a private copy of the committed graph whose nodes are objects with addresses of their own. */
module TowerShadows {
  import opened Wrappers
  import opened Bytes
  import opened RelationSchema

  /** The relation fields of a node: what each one points at, in order. A to-one field is a list of one. */
  type Links = map<nat, seq<Node?>>

  /** The contents of a row: its plain fields by value, its relation fields as pointers. */
  datatype Row = Row(scalars: map<nat, Data>, links: Links)

  /** One entity object, live or shadow. Its address is its identity; a copy replaces the whole contents. */
  class Node {
    const key: NodeKey
    var row: Row

    constructor (key: NodeKey, row: Row)
      ensures this.key == key && this.row == row
    {
      this.key := key;
      this.row := row;
    }
  }

  function LinkId(target: Node?): Option<NodeKey> {
    if target == null then None else Some(target.key)
  }

  /** What a relation field points at, by identity of the row rather than by address. */
  function Ids(targets: seq<Node?>): (ids: seq<Option<NodeKey>>)
    ensures |ids| == |targets| && forall i :: 0 <= i < |ids| ==> ids[i] == LinkId(targets[i])
  {
    seq(|targets|, i requires 0 <= i < |targets| => LinkId(targets[i]))
  }

  predicate SameIds(a: Links, b: Links) {
    a.Keys == b.Keys && forall f :: f in a ==> Ids(a[f]) == Ids(b[f])
  }

  /** Scalars by value, relations by id. */
  predicate RowUnchanged(live: Row, shadow: Row) {
    live.scalars == shadow.scalars && SameIds(live.links, shadow.links)
  }

  /** Every key names a node of that identity. */
  ghost predicate Keyed(nodes: map<NodeKey, Node>) {
    forall k :: k in nodes ==> nodes[k].key == k
  }

  /** The pointer into the shadow world that replaces this one. */
  function Rewired(nodes: map<NodeKey, Node>, target: Node?): Node? {
    if target != null && target.key in nodes then nodes[target.key] else target
  }

  function RewiredAll(nodes: map<NodeKey, Node>, targets: seq<Node?>): (out: seq<Node?>)
    ensures |out| == |targets| && forall i :: 0 <= i < |out| ==> out[i] == Rewired(nodes, targets[i])
  {
    seq(|targets|, i requires 0 <= i < |targets| => Rewired(nodes, targets[i]))
  }

  function RewiredRow(nodes: map<NodeKey, Node>, row: Row): Row {
    row.(links := map f | f in row.links :: RewiredAll(nodes, row.links[f]))
  }

  lemma {:induction false} RewiringKeepsIds(nodes: map<NodeKey, Node>, row: Row)
    requires Keyed(nodes)
    ensures RowUnchanged(row, RewiredRow(nodes, row))
  {
    forall f | f in row.links ensures Ids(RewiredRow(nodes, row).links[f]) == Ids(row.links[f]) {
    }
  }

  /** The field points into the shadow world wherever it names a node of it. */
  ghost predicate PointsIn(nodes: map<NodeKey, Node>, targets: seq<Node?>) {
    forall i :: 0 <= i < |targets| ==> Rewired(nodes, targets[i]) == targets[i]
  }

  ghost predicate RowPointsIn(nodes: map<NodeKey, Node>, row: Row) {
    forall f :: f in row.links ==> PointsIn(nodes, row.links[f])
  }

  lemma {:induction false} RewiredPointsIn(nodes: map<NodeKey, Node>, row: Row)
    requires Keyed(nodes)
    ensures RowPointsIn(nodes, RewiredRow(nodes, row))
  {
  }

  /** Point every relation of the node at the shadows of its targets, one pointer at a time. */
  method WireNode(nodes: map<NodeKey, Node>, node: Node)
    modifies node
    ensures node.row == RewiredRow(nodes, old(node.row))
  {
    ghost var before := node.row;
    var rest := node.row.links.Keys;
    while rest != {}
      invariant rest <= before.links.Keys && node.row.links.Keys == before.links.Keys && node.row.scalars == before.scalars
      invariant forall f :: f in before.links ==>
                              node.row.links[f] == if f in rest then before.links[f] else RewiredAll(nodes, before.links[f])
      decreases |rest|
    {
      var f :| f in rest;
      var wired := WireField(nodes, node.row.links[f]);
      node.row := node.row.(links := node.row.links[f := wired]);
      rest := rest - {f};
    }
  }

  method WireField(nodes: map<NodeKey, Node>, targets: seq<Node?>) returns (wired: seq<Node?>)
    ensures wired == RewiredAll(nodes, targets)
  {
    wired := targets;
    var position := 0;
    while position < |targets|
      invariant 0 <= position <= |targets| && |wired| == |targets|
      invariant forall i :: 0 <= i < |targets| ==> wired[i] == if i < position then Rewired(nodes, targets[i]) else targets[i]
    {
      var target := targets[position];
      if target != null && target.key in nodes {
        wired := wired[position := nodes[target.key]];
      }
      position := position + 1;
    }
  }
}
