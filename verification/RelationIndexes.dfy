/** The committed relation index as it lives on the heap, and the in-place steps that maintain it. */
module RelationIndexes {
  import opened RelationSchema
  import opened OwnershipForest
  import opened RelationGraph
  import opened RelationContainers

  /** A live row: its address never changes, its contents are written through. */
  class LiveRow {
    const key: NodeKey
    var row: Row

    constructor (key: NodeKey, row: Row)
      ensures this.key == key && this.row == row
    {
      this.key, this.row := key, row;
    }
  }

  /** `nodes` holds the addresses of the rows of `g`. */
  ghost predicate AddressesOf(nodes: map<NodeKey, LiveRow>, rows: set<LiveRow>, g: Graph)
    reads rows
  {
    nodes.Keys == g.Keys && forall k :: k in nodes ==> nodes[k] in rows && nodes[k].key == k && nodes[k].row == g[k]
  }

  class CommittedIndex {
    const sc: Schema
    var nodes: map<NodeKey, LiveRow>
    var targets: TargetIndex
    var targetFields: TargetFields
    var fields: Fields
    var incoming: map<NodeKey, Bucket>
    var owners: Owners
    var outgoing: map<NodeKey, seq<NodeKey>>
    ghost var graph: Graph    // the rows behind `nodes`
    ghost var counts: Counts  // the bags behind `incoming`
    ghost var rows: set<LiveRow>

    ghost predicate Valid()
      reads this`nodes, this`graph, this`rows, rows, this`incoming, this`counts
    {
      RowsValid() && BucketsMatch(incoming, counts)
    }

    ghost predicate RowsValid()
      reads this`nodes, this`graph, this`rows, rows
    {
      AddressesOf(nodes, rows, graph)
    }

    /** Everything the index keeps, as values. */
    ghost function Contents(): Image
      reads this
    {
      Image(targetFields, targets, fields, counts, owners, outgoing)
    }

    /** An index over rows that are live already, with no relation recorded yet. */
    constructor (sc: Schema, nodes: map<NodeKey, LiveRow>, ghost rows: set<LiveRow>, ghost graph: Graph,
                 targets: TargetIndex, targetFields: TargetFields)
      requires AddressesOf(nodes, rows, graph)
      ensures Valid() && this.sc == sc && this.nodes == nodes && this.rows == rows && this.graph == graph
      ensures this.targets == targets && this.targetFields == targetFields
      ensures fields == map[] && incoming == map[] && counts == map[] && owners == map[] && outgoing == map[]
    {
      this.sc, this.nodes, this.rows, this.graph := sc, nodes, rows, graph;
      this.targets, this.targetFields := targets, targetFields;
      fields, incoming, owners, outgoing, counts := map[], map[], map[], map[], map[];
    }

    /** Write a row through the address its node already has. */
    method WriteRow(key: NodeKey, row: Row)
      requires RowsValid() && key in nodes
      modifies this`graph, rows
      ensures RowsValid() && graph == old(graph)[key := row]
    {
      nodes[key].row := row;
      graph := graph[key := row];
    }

    /** A new row gets a new address. */
    method AddRow(key: NodeKey, row: Row)
      requires RowsValid() && key !in nodes
      modifies this`nodes, this`graph, this`rows
      ensures RowsValid() && graph == old(graph)[key := row]
      ensures KeepsAddresses(old(nodes), nodes)
      ensures old(rows) <= rows && fresh(rows - old(rows))
    {
      var live := new LiveRow(key, row);
      nodes := nodes[key := live];
      graph := graph[key := row];
      rows := rows + {live};
    }

    /** Copy the bucket out, change the copy, store it back. */
    method IncrementIncoming(target: NodeKey, field: FieldKey)
      requires BucketsMatch(incoming, counts)
      modifies this`incoming, this`counts
      ensures BucketsMatch(incoming, counts) && counts == Incremented(old(counts), target, field)
    {
      hide BucketValid;
      EmptyBucketValid();
      var bucket := if target in incoming then incoming[target] else EMPTY_BUCKET;
      var working := new IncomingCounts(bucket, BagOf(counts, target));
      working.Increment(field);
      incoming := incoming[target := Bucket(working.entries, working.lookup)];
      counts := Incremented(counts, target, field);
    }

    method DecrementIncoming(target: NodeKey, field: FieldKey)
      requires BucketsMatch(incoming, counts)
      modifies this`incoming, this`counts
      ensures BucketsMatch(incoming, counts) && counts == Decremented(old(counts), target, field)
    {
      hide BucketValid;
      if target !in incoming {
        return;
      }
      var working := new IncomingCounts(incoming[target], BagOf(counts, target));
      working.Decrement(field);
      // The bucket is kept even when its last counter goes.
      incoming := incoming[target := Bucket(working.entries, working.lookup)];
      counts := Decremented(counts, target, field);
    }

    /** Replace the targets of one field and keep the transpose in step with it. */
    method ReplaceField(fk: FieldKey, replacement: seq<NodeKey>)
      requires BucketsMatch(incoming, counts) && Transposed(fields, counts)
      modifies this`incoming, this`counts, this`fields
      ensures BucketsMatch(incoming, counts)
      ensures fields == old(fields)[fk := replacement] && Transposed(fields, counts)
    {
      hide *;
      var before := if fk in fields then fields[fk] else [];
      ghost var fields0, counts0 := fields, counts;
      NothingDropped(counts, fk, before);
      var i := 0;
      while i < |before|
        invariant 0 <= i <= |before| && BucketsMatch(incoming, counts) && fields == fields0
        invariant Shifted(counts0, counts, fk, before[..i], [])
      {
        DropOne(fields0, counts0, counts, fk, before, i);
        DecrementIncoming(before[i], fk);
        i := i + 1;
      }
      assert before[..i] == before;
      fields := fields[fk := replacement];
      assert replacement[..0] == [];
      i := 0;
      while i < |replacement|
        invariant 0 <= i <= |replacement| && BucketsMatch(incoming, counts)
        invariant fields == old(fields)[fk := replacement]
        invariant Shifted(counts0, counts, fk, before, replacement[..i])
      {
        AddOne(counts0, counts, fk, before, replacement, i);
        IncrementIncoming(replacement[i], fk);
        i := i + 1;
      }
      assert replacement[..i] == replacement;
      ReplacedTransposed(fields0, counts0, counts, fk, before, replacement);
    }
  }

  /** Nodes present before are still there, at the same addresses. */
  ghost predicate KeepsAddresses(before: map<NodeKey, LiveRow>, after: map<NodeKey, LiveRow>) {
    forall k :: k in before ==> k in after && after[k] == before[k]
  }

  lemma {:induction false} AddressesTransitive(a: map<NodeKey, LiveRow>, b: map<NodeKey, LiveRow>, c: map<NodeKey, LiveRow>)
    requires KeepsAddresses(a, b) && KeepsAddresses(b, c)
    ensures KeepsAddresses(a, c)
  {
  }

  /** Every stored bucket holds exactly the bag it stands for. */
  ghost predicate BucketsMatch(incoming: map<NodeKey, Bucket>, counts: Counts) {
    incoming.Keys == counts.Keys && forall t :: t in incoming ==> BucketValid(incoming[t], counts[t])
  }

  function BagOf(counts: Counts, target: NodeKey): multiset<FieldKey> {
    if target in counts then counts[target] else multiset{}
  }

  function Incremented(counts: Counts, target: NodeKey, field: FieldKey): Counts {
    counts[target := (if target in counts then counts[target] else multiset{}) + multiset{field}]
  }

  function Decremented(counts: Counts, target: NodeKey, field: FieldKey): Counts {
    if target in counts then counts[target := counts[target] - multiset{field}] else counts
  }

  /** From `before` to `after`, field `fk` has lost the targets in `gone` and gained those in `come`. */
  ghost predicate Shifted(before: Counts, after: Counts, fk: FieldKey, gone: seq<NodeKey>, come: seq<NodeKey>) {
    forall t, f :: if f == fk then CountIn(after, t, f) + multiset(gone)[t] == CountIn(before, t, f) + multiset(come)[t]
                   else CountIn(after, t, f) == CountIn(before, t, f)
  }

  lemma {:induction false} NothingDropped(counts: Counts, fk: FieldKey, before: seq<NodeKey>)
    ensures Shifted(counts, counts, fk, before[..0], [])
  {
  }

  lemma {:induction false} DropOne(fields: Fields, counts0: Counts, counts: Counts, fk: FieldKey, before: seq<NodeKey>, i: nat)
    requires Transposed(fields, counts0) && before == (if fk in fields then fields[fk] else []) && i < |before|
    requires Shifted(counts0, counts, fk, before[..i], [])
    ensures Shifted(counts0, Decremented(counts, before[i], fk), fk, before[..i + 1], [])
  {
    var target := before[i];
    assert before[..i + 1] == before[..i] + [target];
    assert before == before[..i] + [target] + before[i + 1..];
    assert CountIn(counts0, target, fk) == Mult(fields, fk, target) == multiset(before)[target];
    assert multiset(before)[target] >= multiset(before[..i])[target] + 1;
    assert CountIn(counts, target, fk) > 0;
    var after := Decremented(counts, target, fk);
    forall t, f ensures CountIn(after, t, f) == CountIn(counts, t, f) - if t == target && f == fk then 1 else 0 {
    }
  }

  lemma {:induction false} AddOne(counts0: Counts, counts: Counts, fk: FieldKey, before: seq<NodeKey>, replacement: seq<NodeKey>, i: nat)
    requires i < |replacement| && Shifted(counts0, counts, fk, before, replacement[..i])
    ensures Shifted(counts0, Incremented(counts, replacement[i], fk), fk, before, replacement[..i + 1])
  {
    var target := replacement[i];
    assert replacement[..i + 1] == replacement[..i] + [target];
    var after := Incremented(counts, target, fk);
    forall t, f ensures CountIn(after, t, f) == CountIn(counts, t, f) + if t == target && f == fk then 1 else 0 {
    }
  }

  lemma {:induction false} ReplacedTransposed(fields: Fields, counts0: Counts, counts: Counts, fk: FieldKey,
                           before: seq<NodeKey>, replacement: seq<NodeKey>)
    requires Transposed(fields, counts0) && before == if fk in fields then fields[fk] else []
    requires Shifted(counts0, counts, fk, before, replacement)
    ensures Transposed(fields[fk := replacement], counts)
  {
    var after := fields[fk := replacement];
    forall t, f ensures CountIn(counts, t, f) == Mult(after, f, t) {
      assert CountIn(counts0, t, f) == Mult(fields, f, t);
    }
  }
}
