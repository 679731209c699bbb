/** Publishing an index delta in place: rows, lookup entries, fields with their transpose, owners and children,
    then the live pointers and the inverse views. */
module RelationPublishing {
  import opened RelationSchema
  import opened Wrappers
  import opened Ordering
  import opened OwnershipForest
  import opened OwnershipWalks
  import opened RelationGraph
  import opened RelationScan
  import opened RelationContainers
  import opened RelationFieldDeltas
  import opened RelationIndexes
  import opened RelationOverlays
  import opened RelationDeltas
  import opened RelationDeltaOwners
  import opened RelationIndexDeltas
  import opened RelationRewiring

  // ---------------------------------------------------------------- rows

  lemma {:induction false} UnionStep<K, V>(a: map<K, V>, b: map<K, V>, k: K, v: V)
    ensures (a + b)[k := v] == a + b[k := v]
  {
  }

  /** Every proposed row is written through the address its node already has. */
  method ApplyWrites(index: CommittedIndex, resources: seq<Override>)
    requires index.RowsValid() && forall i :: 0 <= i < |resources| ==> resources[i].key in index.nodes
    modifies index`graph, index.rows
    ensures index.RowsValid() && index.graph == old(index.graph) + WorksOf(resources)
  {
    hide *;
    WorksStart(resources);
    var i := 0;
    while i < |resources|
      invariant 0 <= i <= |resources| && index.RowsValid()
      invariant index.graph == old(index.graph) + WorksOf(resources[..i])
    {
      WorksStep(resources, i);
      UnionStep(old(index.graph), WorksOf(resources[..i]), resources[i].key, resources[i].row);
      index.WriteRow(resources[i].key, resources[i].row);
      i := i + 1;
    }
    assert resources[..i] == resources;
  }

  lemma {:induction false} WorksStart(resources: seq<Override>)
    ensures WorksOf(resources[..0]) == map[]
  {
  }

  lemma {:induction false} WorksStep(resources: seq<Override>, i: nat)
    requires i < |resources|
    ensures WorksOf(resources[..i + 1]) == WorksOf(resources[..i])[resources[i].key := resources[i].row]
  {
    assert resources[..i + 1][..i] == resources[..i];
  }

  /** New rows get new addresses; no old one moves. */
  method ApplyCreates(index: CommittedIndex, creates: Graph)
    requires index.RowsValid() && creates.Keys !! index.graph.Keys
    modifies index`nodes, index`graph, index`rows
    ensures index.RowsValid() && index.graph == old(index.graph) + creates
    ensures KeepsAddresses(old(index.nodes), index.nodes)
    ensures old(index.rows) <= index.rows && fresh(index.rows - old(index.rows))
  {
    hide *;
    var rest := creates.Keys;
    ghost var done: Graph := map[];
    assert index.graph + done == index.graph;
    AddressesKept(index.nodes);
    NoneAdded(creates);
    while rest != {}
      invariant rest <= creates.Keys && Partly(creates, rest, done)
      invariant index.RowsValid() && index.graph == old(index.graph) + done
      invariant KeepsAddresses(old(index.nodes), index.nodes)
      invariant old(index.rows) <= index.rows && fresh(index.rows - old(index.rows))
      decreases |rest|
    {
      var key :| key in rest;
      NotYetAdded(index, old(index.graph), creates, rest, done, key);
      ghost var before := index.nodes;
      UnionStep(old(index.graph), done, key, creates[key]);
      index.AddRow(key, creates[key]);
      AddressesTransitive(old(index.nodes), before, index.nodes);
      done := done[key := creates[key]];
      rest := rest - {key};
    }
    AllAdded(creates, done);
  }

  /** `done` holds the rows no longer in `rest`. */
  ghost predicate Partly(creates: Graph, rest: set<NodeKey>, done: Graph) {
    done.Keys == creates.Keys - rest && forall k :: k in done ==> done[k] == creates[k]
  }

  lemma {:induction false} NoneAdded(creates: Graph)
    ensures Partly(creates, creates.Keys, map[])
  {
  }

  lemma {:induction false} AddressesKept(nodes: map<NodeKey, LiveRow>)
    ensures KeepsAddresses(nodes, nodes)
  {
  }

  lemma {:induction false} NotYetAdded(index: CommittedIndex, g: Graph, creates: Graph, rest: set<NodeKey>, done: Graph, key: NodeKey)
    requires index.RowsValid() && index.graph == g + done && creates.Keys !! g.Keys
    requires Partly(creates, rest, done) && key in rest && rest <= creates.Keys
    ensures key !in index.nodes && Partly(creates, rest - {key}, done[key := creates[key]])
  {
  }

  lemma {:induction false} AllAdded(creates: Graph, done: Graph)
    requires Partly(creates, {}, done)
    ensures done == creates
  {
  }

  // ---------------------------------------------------------------- fields

  method PublishFields(index: CommittedIndex, values: seq<FieldDelta>)
    requires BucketsMatch(index.incoming, index.counts) && Transposed(index.fields, index.counts)
    modifies index`incoming, index`counts, index`fields
    ensures BucketsMatch(index.incoming, index.counts) && Transposed(index.fields, index.counts)
    ensures index.fields == old(index.fields) + AsFields(values)
  {
    hide *;
    ghost var fields0 := index.fields;
    FieldsStart(values);
    var i := 0;
    while i < |values|
      invariant 0 <= i <= |values| && BucketsMatch(index.incoming, index.counts) && Transposed(index.fields, index.counts)
      invariant index.fields == fields0 + AsFields(values[..i])
    {
      FieldsStep(values, i);
      UnionStep(fields0, AsFields(values[..i]), values[i].key, values[i].targets);
      index.ReplaceField(values[i].key, values[i].targets);
      i := i + 1;
    }
    assert values[..i] == values;
  }

  lemma {:induction false} FieldsStart(values: seq<FieldDelta>)
    ensures AsFields(values[..0]) == map[]
  {
  }

  lemma {:induction false} FieldsStep(values: seq<FieldDelta>, i: nat)
    requires i < |values|
    ensures AsFields(values[..i + 1]) == AsFields(values[..i])[values[i].key := values[i].targets]
  {
    assert values[..i + 1][..i] == values[..i];
  }

  // ---------------------------------------------------------------- owners and children

  method RemoveCommittedChild(children: seq<NodeKey>, child: NodeKey) returns (left: seq<NodeKey>)
    requires Distinct(children)
    ensures Distinct(left) && forall k :: k in left <==> k in children && k != child
  {
    var i := 0;
    while i < |children|
      invariant 0 <= i <= |children| && child !in children[..i]
    {
      if children[i] == child {
        left := children[..i] + children[i + 1..];
        assert children == children[..i] + [child] + children[i + 1..];
        return;
      }
      i := i + 1;
    }
    left := children;
  }

  method AddCommittedChild(children: seq<NodeKey>, child: NodeKey) returns (grown: seq<NodeKey>)
    requires Distinct(children)
    ensures Distinct(grown) && forall k :: k in grown <==> k in children || k == child
  {
    if child in children {
      return children;
    }
    DistinctAppend(children, child);
    grown := children + [child];
  }

  lemma {:induction false} ChildMoved(owners: Owners, outgoing: map<NodeKey, seq<NodeKey>>, child: NodeKey, owner: Option<NodeKey>,
                                      owners': Owners, outgoing': map<NodeKey, seq<NodeKey>>)
    requires OutgoingExact(owners, outgoing)
    requires OwnerOf(owners', child) == owner && forall c :: c != child ==> OwnerOf(owners', c) == OwnerOf(owners, c)
    requires forall o :: Distinct(ChildrenOf(outgoing', o))
    requires forall o, c :: c in ChildrenOf(outgoing', o) <==> (c != child && c in ChildrenOf(outgoing, o)) || (c == child && owner == Some(o))
    ensures OutgoingExact(owners', outgoing')
  {
    forall o, c ensures c in ChildrenOf(outgoing', o) <==> OwnerOf(owners', c) == Some(o) {
      assert c in ChildrenOf(outgoing, o) <==> OwnerOf(owners, c) == Some(o);
    }
    forall o | o in outgoing' ensures Distinct(outgoing'[o]) {
      assert Distinct(ChildrenOf(outgoing', o));
    }
  }

  /** One child leaves its old owner's list and joins its new owner's. */
  method MoveChild(index: CommittedIndex, child: NodeKey, change: OwnerChange)
    requires OutgoingExact(index.owners, index.outgoing) && change.before == OwnerOf(index.owners, child)
    modifies index`owners, index`outgoing
    ensures OutgoingExact(index.owners, index.outgoing) && OwnerOf(index.owners, child) == change.after
    ensures forall c :: c != child ==> OwnerOf(index.owners, c) == OwnerOf(old(index.owners), c)
  {
    ghost var owners0, outgoing0 := index.owners, index.outgoing;
    if change.before.Some? {
      var left := RemoveCommittedChild(ChildrenOf(index.outgoing, change.before.value), child);
      index.outgoing := index.outgoing[change.before.value := left];
      index.owners := index.owners - {child};
    }
    forall o, c ensures c in ChildrenOf(index.outgoing, o) <==> c != child && c in ChildrenOf(outgoing0, o) {
      assert child in ChildrenOf(outgoing0, o) <==> OwnerOf(owners0, child) == Some(o);
    }
    if change.after.Some? {
      index.owners := index.owners[child := change.after.value];
      var grown := AddCommittedChild(ChildrenOf(index.outgoing, change.after.value), child);
      index.outgoing := index.outgoing[change.after.value := grown];
    }
    ChildMoved(owners0, outgoing0, child, change.after, index.owners, index.outgoing);
  }

  method PublishOwners(index: CommittedIndex, changes: OwnerDelta)
    requires OutgoingExact(index.owners, index.outgoing) && ChangesFrom(index.owners, changes)
    modifies index`owners, index`outgoing
    ensures OutgoingExact(index.owners, index.outgoing) && index.owners == Overlay(old(index.owners), Afters(changes))
  {
    hide *;
    ghost var owners0 := index.owners;
    var rest := changes.Keys;
    NothingMoved(owners0, changes);
    while rest != {}
      invariant rest <= changes.Keys && OutgoingExact(index.owners, index.outgoing)
      invariant Moved(owners0, changes, rest, index.owners)
      decreases |rest|
    {
      var child :| child in rest;
      NextMoved(owners0, changes, rest, index.owners, child);
      ghost var before := index.owners;
      MoveChild(index, child, changes[child]);
      MovedStep(owners0, changes, rest, before, index.owners, child);
      rest := rest - {child};
    }
    AllMoved(owners0, changes, index.owners);
  }

  /** The changes outside `rest` have been applied. */
  ghost predicate Moved(owners0: Owners, changes: OwnerDelta, rest: set<NodeKey>, owners: Owners) {
    forall c :: OwnerOf(owners, c) == if c in changes && c !in rest then changes[c].after else OwnerOf(owners0, c)
  }

  lemma {:induction false} NothingMoved(owners0: Owners, changes: OwnerDelta)
    ensures Moved(owners0, changes, changes.Keys, owners0)
  {
  }

  lemma {:induction false} NextMoved(owners0: Owners, changes: OwnerDelta, rest: set<NodeKey>, owners: Owners, child: NodeKey)
    requires Moved(owners0, changes, rest, owners) && ChangesFrom(owners0, changes) && child in rest && child in changes
    ensures changes[child].before == OwnerOf(owners, child)
  {
  }

  lemma {:induction false} MovedStep(owners0: Owners, changes: OwnerDelta, rest: set<NodeKey>, before: Owners, after: Owners, child: NodeKey)
    requires Moved(owners0, changes, rest, before) && child in rest && child in changes
    requires OwnerOf(after, child) == changes[child].after && forall c :: c != child ==> OwnerOf(after, c) == OwnerOf(before, c)
    ensures Moved(owners0, changes, rest - {child}, after)
  {
  }

  lemma {:induction false} AllMoved(owners0: Owners, changes: OwnerDelta, owners: Owners)
    requires Moved(owners0, changes, {}, owners)
    ensures owners == Overlay(owners0, Afters(changes))
  {
    SameOwners(owners, Overlay(owners0, Afters(changes)));
  }

  lemma {:induction false} SameOwners(a: Owners, b: Owners)
    requires forall c :: OwnerOf(a, c) == OwnerOf(b, c)
    ensures a == b
  {
    forall c ensures (c in a <==> c in b) && (c in a ==> a[c] == b[c]) {
      assert OwnerOf(a, c) == OwnerOf(b, c);
    }
  }

  // ---------------------------------------------------------------- live pointers

  /** The pointers of one field, taken from the live targets. */
  method WirePointers(index: CommittedIndex, spec: Spec, targets: seq<NodeKey>) returns (wired: seq<Option<Value>>)
    requires index.RowsValid()
    ensures wired == Wire(index.graph, spec, targets)
  {
    if !spec.many {
      if targets == [] {
        return [];
      }
      return [LivePointer(index.nodes, index.graph, spec, targets[0])];
    }
    wired := [];
    var i := 0;
    while i < |targets|
      invariant 0 <= i <= |targets| && |wired| == i
      invariant forall j :: 0 <= j < i ==> wired[j] == PointerTo(index.graph, spec, targets[j])
    {
      wired := wired + [LivePointer(index.nodes, index.graph, spec, targets[i])];
      i := i + 1;
    }
  }

  function LivePointer(nodes: map<NodeKey, LiveRow>, ghost g: Graph, spec: Spec, target: NodeKey): (pointer: Option<Value>)
    requires nodes.Keys == g.Keys && forall k :: k in nodes ==> nodes[k].row == g[k]
    reads set k | k in nodes :: nodes[k]
    ensures pointer == PointerTo(g, spec, target)
  {
    if target in nodes && spec.LookupField() in nodes[target].row.scalars
    then Some(nodes[target].row.scalars[spec.LookupField()]) else None
  }

  /** The row with one relation field set. */
  function Relinked(row: Row, field: nat, wired: seq<Option<Value>>): Row {
    row.(links := row.links[field := wired])
  }

  lemma {:induction false} WiredStep(sc: Schema, h: Graph, values: seq<FieldDelta>, i: nat, before: Graph)
    requires i < |values| && HasField(sc, h, values[i].key) && Wired(sc, h, AsFields(values[..i]), before)
    ensures var fk := values[i].key;
            && fk.holder in before
            && Wire(before, SpecOf(sc, fk), values[i].targets) == Wire(h, SpecOf(sc, fk), values[i].targets)
            && Wired(sc, h, AsFields(values[..i + 1]),
                     before[fk.holder := Relinked(before[fk.holder], fk.field, Wire(h, SpecOf(sc, fk), values[i].targets))])
  {
    FieldsStep(values, i);
    var fk := values[i].key;
    WiredHolder(sc, h, AsFields(values[..i]), before, fk);
    SameWire(h, before, SpecOf(sc, fk), values[i].targets);
    WiredUpdate(sc, h, AsFields(values[..i]), before, fk, values[i].targets);
    hide *;
  }

  lemma {:induction false} WiredHolder(sc: Schema, h: Graph, patch: Fields, before: Graph, fk: FieldKey)
    requires HasField(sc, h, fk) && Wired(sc, h, patch, before)
    ensures fk.holder in before && SameScalars(h, before)
  {
  }

  lemma {:induction false} WiredUpdate(sc: Schema, h: Graph, patch: Fields, before: Graph, fk: FieldKey, targets: seq<NodeKey>)
    requires HasField(sc, h, fk) && Wired(sc, h, patch, before) && fk.holder in before
    ensures Wired(sc, h, patch[fk := targets],
                  before[fk.holder := Relinked(before[fk.holder], fk.field, Wire(h, SpecOf(sc, fk), targets))])
  {
    hide Wire, Declares;
    var after := before[fk.holder := Relinked(before[fk.holder], fk.field, Wire(h, SpecOf(sc, fk), targets))];
    forall f | HasField(sc, h, f) && f != fk ensures LinkAt(after[f.holder], f.field) == LinkAt(before[f.holder], f.field) {
      assert f.holder == fk.holder ==> f.field != fk.field;
    }
  }

  lemma {:induction false} SameWire(a: Graph, b: Graph, spec: Spec, targets: seq<NodeKey>)
    requires SameScalars(a, b)
    ensures Wire(a, spec, targets) == Wire(b, spec, targets)
  {
    forall t ensures PointerTo(a, spec, t) == PointerTo(b, spec, t) {
    }
  }

  lemma {:induction false} NothingWired(sc: Schema, h: Graph, values: seq<FieldDelta>)
    ensures Wired(sc, h, AsFields(values[..0]), h)
  {
  }

  method RewireLinks(index: CommittedIndex, values: seq<FieldDelta>)
    requires index.RowsValid() && forall i :: 0 <= i < |values| ==> HasField(index.sc, index.graph, values[i].key)
    modifies index`graph, index.rows
    ensures index.RowsValid() && Wired(index.sc, old(index.graph), AsFields(values), index.graph)
  {
    hide *;
    ghost var h := index.graph;
    NothingWired(index.sc, h, values);
    var i := 0;
    while i < |values|
      invariant 0 <= i <= |values| && index.RowsValid() && Wired(index.sc, h, AsFields(values[..i]), index.graph)
    {
      var fk := values[i].key;
      WiredStep(index.sc, h, values, i, index.graph);
      RowsAt(index, fk.holder);
      FieldDeclared(index.sc, h, fk);
      var wired := WirePointers(index, SpecOf(index.sc, fk), values[i].targets);
      index.WriteRow(fk.holder, Relinked(index.nodes[fk.holder].row, fk.field, wired));
      i := i + 1;
    }
    assert values[..i] == values;
  }

  lemma {:induction false} NodesLive(index: CommittedIndex)
    requires index.RowsValid()
    ensures index.nodes.Keys == index.graph.Keys
  {
  }

  lemma {:induction false} RowsAt(index: CommittedIndex, key: NodeKey)
    requires index.RowsValid() && key in index.graph
    ensures key in index.nodes && index.nodes[key].row == index.graph[key]
  {
  }

  lemma {:induction false} FieldDeclared(sc: Schema, g: Graph, fk: FieldKey)
    requires HasField(sc, g, fk)
    ensures Declares(sc, fk.holder.typ, fk.field)
  {
  }

  // ---------------------------------------------------------------- inverse views

  /** The first `n` bucket entries contribute these holders. */
  ghost predicate HoldersUpto(sc: Schema, fields: Fields, view: Spec, target: NodeKey, entries: seq<IncomingCount>, n: int, seen: set<NodeKey>) {
    forall h :: h in seen <==> exists i :: 0 <= i < n <= |entries| && entries[i].field.holder == h
                                           && HoldsThrough(sc, fields, view, target, entries[i].field)
  }

  lemma {:induction false} HoldersComplete(sc: Schema, fields: Fields, view: Spec, target: NodeKey, entries: seq<IncomingCount>,
                                           bag: multiset<FieldKey>, seen: set<NodeKey>)
    requires EntriesMatch(entries, bag) && forall fk :: bag[fk] == Mult(fields, fk, target)
    requires HoldersUpto(sc, fields, view, target, entries, |entries|, seen)
    ensures forall h :: h in seen <==> exists fk: FieldKey :: fk.holder == h && HoldsThrough(sc, fields, view, target, fk)
  {
    forall fk | HoldsThrough(sc, fields, view, target, fk) ensures fk.holder in seen {
      assert bag[fk] == Mult(fields, fk, target);
      assert fk in bag && Holds(entries, fk);
      var i :| 0 <= i < |entries| && entries[i].field == fk;
    }
  }

  lemma {:induction false} EntryCounts(fields: Fields, target: NodeKey, entries: seq<IncomingCount>, bag: multiset<FieldKey>, i: nat)
    requires EntriesMatch(entries, bag) && i < |entries| && forall fk :: bag[fk] == Mult(fields, fk, target)
    ensures entries[i].count > 0 && entries[i].field in fields && target in fields[entries[i].field]
  {
    assert bag[entries[i].field] == Mult(fields, entries[i].field, target);
  }

  /** The distinct holders behind one inverse view, in order. */
  method InverseHolders(sc: Schema, fields: Fields, entries: seq<IncomingCount>, ghost bag: multiset<FieldKey>, view: Spec, target: NodeKey)
    returns (holders: seq<NodeKey>)
    requires EntriesMatch(entries, bag) && forall fk :: bag[fk] == Mult(fields, fk, target)
    ensures Ascending(holders) && ViewExact(sc, fields, view, target, holders)
  {
    hide EntriesMatch, Ascending, SortKeys, Mult;
    var seen: set<NodeKey> := {};
    var i := 0;
    while i < |entries|
      invariant 0 <= i <= |entries| && HoldersUpto(sc, fields, view, target, entries, i, seen)
    {
      EntryCounts(fields, target, entries, bag, i);
      var fk := entries[i].field;
      if && entries[i].count > 0 && Declares(sc, fk.holder.typ, fk.field)
         && fk.holder.typ == view.target && SpecOf(sc, fk).name == view.matchField && SpecOf(sc, fk).kind in {Borrow, Optional}
      {
        seen := seen + {fk.holder};
      }
      i := i + 1;
    }
    HoldersComplete(sc, fields, view, target, entries, bag, seen);
    holders := ListKeys(seen);
    SortAscends(holders);
    holders := SortKeys(holders);
  }

  method ListKeys(keys: set<NodeKey>) returns (listed: seq<NodeKey>)
    ensures Distinct(listed) && forall k :: k in listed <==> k in keys
  {
    listed := [];
    var rest := keys;
    while rest != {}
      invariant rest <= keys && Distinct(listed) && forall k :: k in listed <==> k in keys - rest
      decreases |rest|
    {
      var k :| k in rest;
      DistinctAppend(listed, k);
      listed := listed + [k];
      rest := rest - {k};
    }
  }

  /** One node's inverse views, recomputed from its incoming counts. */
  method RewireNodeViews(index: CommittedIndex, target: NodeKey, ghost inverse: set<NodeKey>, ghost w: Graph)
    requires index.RowsValid() && BucketsMatch(index.incoming, index.counts) && Transposed(index.fields, index.counts)
    requires target in index.nodes && target !in inverse && Viewed(index.sc, index.fields, w, inverse, index.graph)
    modifies index`graph, index.rows
    ensures index.RowsValid() && Viewed(index.sc, index.fields, w, inverse + {target}, index.graph)
  {
    hide *;
    var rest := ViewsOfType(index.sc, target.typ);
    NodesLive(index);
    NoViewYet(index.sc, index.fields, w, inverse, index.graph, target, rest);
    while rest != {}
      invariant rest <= ViewsOfType(index.sc, target.typ) && index.RowsValid()
      invariant ViewedPartly(index.sc, index.fields, w, inverse, index.graph, target, rest)
      decreases |rest|
    {
      var field :| field in rest;
      BucketOf(index.fields, index.incoming, index.counts, target);
      ViewDeclared(index.sc, target.typ, field);
      var holders := InverseHolders(index.sc, index.fields, if target in index.incoming then index.incoming[target].entries else [],
                                    BagOf(index.counts, target), index.sc[target.typ][field], target);
      ViewStep(index.sc, index.fields, w, inverse, index.graph, target, rest, field, holders);
      RowsAt(index, target);
      index.WriteRow(target, Reviewed(index.nodes[target].row, field, holders));
      rest := rest - {field};
    }
    AllViewed(index.sc, index.fields, w, inverse, index.graph, target);
  }

  function ViewsOfType(sc: Schema, typ: string): set<nat> {
    if typ in sc then set f | f in sc[typ] && sc[typ][f].kind == Inverse else {}
  }

  function Reviewed(row: Row, field: nat, holders: seq<NodeKey>): Row {
    row.(views := row.views[field := holders])
  }

  /** Viewed, but `target` still waits for the views in `rest`. */
  ghost predicate ViewedPartly(sc: Schema, fields: Fields, w: Graph, inverse: set<NodeKey>, viewed: Graph, target: NodeKey, rest: set<nat>) {
    && target in w && viewed.Keys == w.Keys
    && (forall k :: k in w ==> viewed[k].scalars == w[k].scalars && viewed[k].links == w[k].links)
    && (forall k :: k in w && k !in inverse && k != target ==> viewed[k].views == w[k].views)
    && (forall k, f {:trigger ViewAt(viewed[k], f)} ::
          k in w && (k in inverse || (k == target && f !in rest)) && IsView(sc, k.typ, f) ==>
            SortedView(sc, fields, k, f, ViewAt(viewed[k], f)))
  }

  ghost predicate SortedView(sc: Schema, fields: Fields, k: NodeKey, f: nat, listed: seq<NodeKey>)
    requires IsView(sc, k.typ, f)
  {
    Ascending(listed) && ViewExact(sc, fields, sc[k.typ][f], k, listed)
  }

  lemma {:induction false} NoViewYet(sc: Schema, fields: Fields, w: Graph, inverse: set<NodeKey>, viewed: Graph, target: NodeKey, rest: set<nat>)
    requires Viewed(sc, fields, w, inverse, viewed) && rest == ViewsOfType(sc, target.typ) && target !in inverse
    requires target in w || target in viewed
    ensures ViewedPartly(sc, fields, w, inverse, viewed, target, rest)
  {
    hide Ascending, ViewExact;
  }

  lemma {:induction false} ViewStep(sc: Schema, fields: Fields, w: Graph, inverse: set<NodeKey>, viewed: Graph,
                                    target: NodeKey, rest: set<nat>, field: nat, holders: seq<NodeKey>)
    requires ViewedPartly(sc, fields, w, inverse, viewed, target, rest) && target !in inverse
    requires IsView(sc, target.typ, field) && Ascending(holders) && ViewExact(sc, fields, sc[target.typ][field], target, holders)
    ensures target in viewed
    ensures ViewedPartly(sc, fields, w, inverse, viewed[target := Reviewed(viewed[target], field, holders)], target, rest - {field})
  {
    assert SortedView(sc, fields, target, field, holders);
    hide SortedView, IsView;
    var viewed' := viewed[target := Reviewed(viewed[target], field, holders)];
    forall k, f | k in w && (k in inverse || (k == target && f !in rest - {field})) && IsView(sc, k.typ, f)
      ensures SortedView(sc, fields, k, f, ViewAt(viewed'[k], f))
    {
      if k == target && f == field {
        assert ViewAt(viewed'[k], f) == holders;
      } else {
        assert ViewAt(viewed'[k], f) == ViewAt(viewed[k], f);
      }
    }
  }

  lemma {:induction false} AllViewed(sc: Schema, fields: Fields, w: Graph, inverse: set<NodeKey>, viewed: Graph, target: NodeKey)
    requires ViewedPartly(sc, fields, w, inverse, viewed, target, {})
    ensures Viewed(sc, fields, w, inverse + {target}, viewed)
  {
    hide Ascending, ViewExact;
    forall k, f | k in w && k in inverse + {target} && IsView(sc, k.typ, f)
      ensures Ascending(ViewAt(viewed[k], f)) && ViewExact(sc, fields, sc[k.typ][f], k, ViewAt(viewed[k], f))
    {
      assert SortedView(sc, fields, k, f, ViewAt(viewed[k], f));
    }
  }

  lemma {:induction false} ViewDeclared(sc: Schema, typ: string, field: nat)
    requires field in ViewsOfType(sc, typ)
    ensures IsView(sc, typ, field) && typ in sc && field in sc[typ]
  {
  }

  lemma {:induction false} BucketOf(fields: Fields, incoming: map<NodeKey, Bucket>, counts: Counts, target: NodeKey)
    requires BucketsMatch(incoming, counts) && Transposed(fields, counts)
    ensures EntriesMatch(if target in incoming then incoming[target].entries else [], BagOf(counts, target))
    ensures forall fk :: BagOf(counts, target)[fk] == Mult(fields, fk, target)
  {
    forall fk ensures BagOf(counts, target)[fk] == Mult(fields, fk, target) {
      assert CountIn(counts, target, fk) == Mult(fields, fk, target);
    }
  }

  /** Every node the delta observes gets its views recomputed, if it is live. */
  method RewireViews(index: CommittedIndex, inverse: set<NodeKey>)
    requires index.RowsValid() && BucketsMatch(index.incoming, index.counts) && Transposed(index.fields, index.counts)
    modifies index`graph, index.rows
    ensures index.RowsValid() && Viewed(index.sc, index.fields, old(index.graph), inverse, index.graph)
  {
    hide *;
    ghost var w := index.graph;
    var rest := inverse;
    NothingViewed(index.sc, index.fields, w);
    assert inverse - rest == {};
    while rest != {}
      invariant rest <= inverse && index.RowsValid() && Viewed(index.sc, index.fields, w, inverse - rest, index.graph)
      decreases |rest|
    {
      var target :| target in rest;
      ghost var done := inverse - rest;
      if target in index.nodes {
        RewireNodeViews(index, target, done, w);
      } else {
        GoneViewed(index, w, done, target);
      }
      assert inverse - (rest - {target}) == done + {target};
      rest := rest - {target};
    }
    assert inverse - rest == inverse;
  }

  lemma {:induction false} NothingViewed(sc: Schema, fields: Fields, w: Graph)
    ensures Viewed(sc, fields, w, {}, w)
  {
  }

  lemma {:induction false} GoneViewed(index: CommittedIndex, w: Graph, done: set<NodeKey>, target: NodeKey)
    requires index.RowsValid() && Viewed(index.sc, index.fields, w, done, index.graph) && target !in index.nodes
    ensures Viewed(index.sc, index.fields, w, done + {target}, index.graph)
  {
    hide ViewExact, Ascending;
  }

  // ---------------------------------------------------------------- the whole publication

  /** Views nobody recomputed still list exactly their holders: no pointer that they follow moved. */
  lemma {:induction false} UnobservedView(sc: Schema, fields: Fields, values: seq<FieldDelta>, view: Spec, target: NodeKey, listed: seq<NodeKey>)
    requires ViewExact(sc, fields, view, target, listed) && !ObservedBy(sc, fields, values, target)
    ensures ViewExact(sc, fields + AsFields(values), view, target, listed)
  {
    var after := fields + AsFields(values);
    forall fk ensures HoldsThrough(sc, fields, view, target, fk) <==> HoldsThrough(sc, after, view, target, fk) {
      if ListsKey(values, fk) {
        var last := LastAt(values, fk);
        AsFieldsLast(values, fk);
        assert !Observes(sc, fields, values[last], target);
      }
    }
  }

  /** What a publication leaves of the rows: the wired graph `w`, then the same with views recomputed. */
  ghost predicate Rewired(sc: Schema, ix: Image, works: Graph, creates: Graph, g: Graph, delta: IndexDelta, w: Graph, after: Graph) {
    && Wired(sc, Overlaid(g, works, creates), AsFields(delta.fields), w)
    && Viewed(sc, ix.fields + AsFields(delta.fields), w, delta.inverseTargets, after)
  }

  /** And of the index. */
  ghost predicate Patched(ix: Image, delta: IndexDelta, ix': Image) {
    && ix'.targetFields == ix.targetFields && ix'.targets == ix.targets + delta.targets
    && ix'.fields == ix.fields + AsFields(delta.fields) && Transposed(ix'.fields, ix'.counts)
    && ix'.owners == Overlay(ix.owners, Afters(delta.owners)) && OutgoingExact(ix'.owners, ix'.outgoing)
  }

  lemma {:induction false} ViewsKept(sc: Schema, g: Graph, ix: Image, works: Graph, creates: Graph, delta: IndexDelta, w: Graph, after: Graph)
    requires ViewsExact(sc, g, ix.fields) && DeltaSound(sc, g, ix, works, creates, delta)
    requires Rewired(sc, ix, works, creates, g, delta, w, after)
    ensures ViewsExact(sc, after, ix.fields + AsFields(delta.fields))
  {
    hide ViewExact, Ascending, ForestLegal, Rescanned, CreatedTargets, FieldLegal, ObservedBy, DistinctKeys, AsFields, Proposal, Wire, LinkAt;
    var fields := ix.fields + AsFields(delta.fields);
    forall k, f | k in after && IsView(sc, k.typ, f) ensures ViewExact(sc, fields, sc[k.typ][f], k, ViewAt(after[k], f)) {
      if k !in delta.inverseTargets {
        assert HasViews(sc, k.typ);
        assert k !in works + creates && k in g;
        assert after[k].views == g[k].views;
        assert ViewExact(sc, ix.fields, sc[k.typ][f], k, ViewAt(g[k], f));
        UnobservedView(sc, ix.fields, delta.fields, sc[k.typ][f], k, ViewAt(g[k], f));
      }
    }
  }

  /** No untouched pointer dangles in the proposed graph if none did before. */
  lemma {:induction false} UntouchedSettled(sc: Schema, tf: TargetFields, g: Graph, works: Graph, creates: Graph, patch: Fields)
    requires Proposal(sc, tf, g, works, creates) && NothingDangles(sc, g) && Rescanned(sc, g, works, creates, patch)
    ensures forall fk, lk, i :: !DanglesUntouched(sc, Overlaid(g, works, creates), patch, fk, lk, i)
  {
    var h := Overlaid(g, works, creates);
    forall fk, lk, i | DanglesUntouched(sc, h, patch, fk, lk, i) ensures false {
      assert HasField(sc, g, fk) && fk.holder !in works && h[fk.holder] == g[fk.holder];
      assert RefsAt(sc, h, fk) == RefsAt(sc, g, fk);
      assert Searchable(tf, lk);
      StillMissing(tf, g, works, creates, lk);
      assert DanglesAt(sc, g, fk, lk, i);
    }
  }

  lemma {:induction false} StillMissing(tf: TargetFields, g: Graph, works: Graph, creates: Graph, lk: TargetKey)
    requires KeysKept(tf, g, works) && KeysFresh(tf, g, creates) && Searchable(tf, lk)
    requires Resolve(Overlaid(g, works, creates), lk) == Missing
    ensures Resolve(g, lk) == Missing
  {
    ResolveOverlaid(tf, g, works, creates, lk);
  }

  /** Publishing a sound delta over a steady state gives a steady state again: the in-place index is the rebuilt one. */
  lemma {:induction false} PublishedSteady(sc: Schema, g: Graph, ix: Image, works: Graph, creates: Graph, delta: IndexDelta,
                                           w: Graph, after: Graph, ix': Image)
    requires Steady(sc, g, ix) && DeltaSound(sc, g, ix, works, creates, delta)
    requires Rewired(sc, ix, works, creates, g, delta, w, after) && Patched(ix, delta, ix')
    ensures Steady(sc, after, ix') && FieldsExact(sc, Overlaid(g, works, creates), ix'.fields)
  {
    hide *;
    var h, patch, fields := Overlaid(g, works, creates), AsFields(delta.fields), ix.fields + AsFields(delta.fields);
    SteadyParts(sc, g, ix);
    CommittedParts(sc, g, ix);
    DeltaParts(sc, g, ix, works, creates, delta);
    SettledWaitsForNobody(sc, g, works, creates);
    AcceptedIsLegal(sc, g, ix, works, creates, delta);
    LegalParts(sc, h);
    RewiredParts(sc, ix, works, creates, g, delta, w, after);
    WiredMeans(sc, h, fields, patch, w);
    UntouchedSettled(sc, ix.targetFields, g, works, creates, patch);
    ViewedMeans(sc, fields, w, delta.inverseTargets, after);
    SettledAfter(sc, h, patch, w, after);
    ViewsKept(sc, g, ix, works, creates, delta, w, after);
    IndexAfter(sc, g, ix, works, creates, delta, w, after);
    PatchedParts(ix, delta, ix');
    SteadyFrom(sc, after, ix, delta, ix');
  }

  lemma {:induction false} PatchedParts(ix: Image, delta: IndexDelta, ix': Image)
    requires Patched(ix, delta, ix')
    ensures ix'.targetFields == ix.targetFields && ix'.targets == ix.targets + delta.targets
    ensures ix'.fields == ix.fields + AsFields(delta.fields) && ix'.owners == Overlay(ix.owners, Afters(delta.owners))
  {
  }

  lemma {:induction false} SteadyParts(sc: Schema, g: Graph, ix: Image)
    requires Steady(sc, g, ix)
    ensures Committed(sc, g, ix) && NothingDangles(sc, g) && ViewsExact(sc, g, ix.fields)
  {
  }

  lemma {:induction false} LegalParts(sc: Schema, g: Graph)
    requires Legal(sc, g)
    ensures LegalRefs(sc, g)
  {
  }

  lemma {:induction false} RewiredParts(sc: Schema, ix: Image, works: Graph, creates: Graph, g: Graph, delta: IndexDelta, w: Graph, after: Graph)
    requires Rewired(sc, ix, works, creates, g, delta, w, after)
    ensures Wired(sc, Overlaid(g, works, creates), AsFields(delta.fields), w)
    ensures Viewed(sc, ix.fields + AsFields(delta.fields), w, delta.inverseTargets, after)
    ensures SameScalars(Overlaid(g, works, creates), after)
    ensures forall fk :: fk in AsFields(delta.fields) ==>
              fk in ix.fields + AsFields(delta.fields) && (ix.fields + AsFields(delta.fields))[fk] == AsFields(delta.fields)[fk]
  {
    hide ViewExact, Ascending, AsFields, Wire;
  }

  lemma {:induction false} SettledAfter(sc: Schema, h: Graph, patch: Fields, w: Graph, after: Graph)
    requires forall fk, lk, i :: DanglesAt(sc, w, fk, lk, i) ==> DanglesUntouched(sc, h, patch, fk, lk, i)
    requires forall fk, lk, i :: !DanglesUntouched(sc, h, patch, fk, lk, i)
    requires forall fk, lk, i :: DanglesAt(sc, after, fk, lk, i) ==> DanglesAt(sc, w, fk, lk, i)
    ensures NothingDangles(sc, after)
  {
    hide DanglesAt, DanglesUntouched;
  }

  lemma {:induction false} IndexAfter(sc: Schema, g: Graph, ix: Image, works: Graph, creates: Graph, delta: IndexDelta, w: Graph, after: Graph)
    requires Committed(sc, g, ix) && DeltaSound(sc, g, ix, works, creates, delta)
    requires Rewired(sc, ix, works, creates, g, delta, w, after)
    ensures TargetIndexExact(after, ix.targetFields, ix.targets + delta.targets) && Covers(sc, after, ix.targetFields)
  {
    var h := Overlaid(g, works, creates);
    CommittedParts(sc, g, ix);
    RewiredParts(sc, ix, works, creates, g, delta, w, after);
    assert Proposal(sc, ix.targetFields, g, works, creates) && CreatedTargets(ix.targetFields, creates, delta.targets);
    TargetIndexOverlaid(ix.targetFields, g, works, creates, ix.targets, delta.targets);
    SameTargetIndex(h, after, ix.targetFields, ix.targets + delta.targets);
    hide TargetIndexExact, TargetFieldsExact, CreatedTargets, KeysKept, KeysFresh, Rescanned, ForestLegal, FieldLegal, Searchable;
    forall fk, v | HasField(sc, after, fk) ensures Searchable(ix.targetFields, Lookup(SpecOf(sc, fk), v)) {
      assert fk.holder in h;
      assert HasField(sc, g, fk) || HasField(sc, creates, fk);
    }
  }

  /** The lookup fields the index was built with stay the right ones. */
  lemma {:induction false} LookupFieldsKept(sc: Schema, g: Graph, works: Graph, creates: Graph, tf: TargetFields, after: Graph)
    requires Proposal(sc, tf, g, works, creates) && SameScalars(Overlaid(g, works, creates), after)
    ensures TargetFieldsExact(sc, g, tf) ==> TargetFieldsExact(sc, after, tf)
  {
    if TargetFieldsExact(sc, g, tf) {
      TargetFieldsOverlaid(sc, tf, g, works, creates);
      SameTargetFields(sc, Overlaid(g, works, creates), after, tf);
    }
  }

  lemma {:induction false} SteadyFrom(sc: Schema, after: Graph, ix: Image, delta: IndexDelta, ix': Image)
    requires WellFormed(sc) && Patched(ix, delta, ix') && LegalRefs(sc, after) && FieldsExact(sc, after, ix'.fields)
    requires ForestLegal(sc, ix'.fields, ix'.owners)
    requires TargetIndexExact(after, ix'.targetFields, ix'.targets) && Covers(sc, after, ix'.targetFields)
    requires NothingDangles(sc, after) && ViewsExact(sc, after, ix'.fields)
    ensures Steady(sc, after, ix')
  {
    hide LegalRefs, FieldsExact, TargetIndexExact, Covers, NothingDangles, ViewsExact, OwnersExact, OneOwner, Agree, Acyclic, WellFormed,
         Transposed, OutgoingExact;
  }

  // ---------------------------------------------------------------- committing a delta

  /** Publish a built delta over rows that hold the proposal already, then rewire pointers and views. */
  method PublishAndRewire(index: CommittedIndex, delta: IndexDelta, ghost g: Graph, ghost works: Graph) returns (ghost w: Graph)
    requires index.Valid() && Transposed(index.fields, index.counts) && OutgoingExact(index.owners, index.outgoing)
    requires index.graph == g + works && delta.created.Keys !! index.graph.Keys && ChangesFrom(index.owners, delta.owners)
    requires forall i :: 0 <= i < |delta.fields| ==> HasField(index.sc, Overlaid(g, works, delta.created), delta.fields[i].key)
    modifies index, index.rows
    ensures index.Valid() && Rewired(index.sc, old(index.Contents()), works, delta.created, g, delta, w, index.graph)
    ensures Patched(old(index.Contents()), delta, index.Contents())
    ensures KeepsAddresses(old(index.nodes), index.nodes) && fresh(index.rows - old(index.rows))
  {
    hide *;
    ghost var sc, ix := index.sc, index.Contents();
    IndexParts(index);
    ApplyCreates(index, delta.created);
    OverlaidIs(g, works, delta.created);
    index.targets := index.targets + delta.targets;
    PublishFields(index, delta.fields);
    PublishOwners(index, delta.owners);
    RewireLinks(index, delta.fields);
    w := index.graph;
    RewireViews(index, delta.inverseTargets);
    IndexWhole(index);
    RewiredFrom(sc, ix, works, delta.created, g, delta, w, index.graph);
    PatchedFrom(ix, delta, index.Contents());
  }

  /** Write the rows, then publish the delta: one commit on the fast path. */
  method CommitIndexDelta(index: CommittedIndex, resources: seq<Override>, delta: IndexDelta)
    requires index.Valid() && Steady(index.sc, index.graph, index.Contents()) && DistinctOverrides(resources)
    requires DeltaSound(index.sc, index.graph, index.Contents(), WorksOf(resources), delta.created, delta)
    modifies index, index.rows
    ensures index.Valid() && Steady(index.sc, index.graph, index.Contents())
    ensures SameScalars(Overlaid(old(index.graph), WorksOf(resources), delta.created), index.graph)
    ensures FieldsExact(index.sc, Overlaid(old(index.graph), WorksOf(resources), delta.created), index.fields)
    ensures Mirrors(index.sc, old(index.graph), old(index.Contents())) ==> Mirrors(index.sc, index.graph, index.Contents())
    ensures KeepsAddresses(old(index.nodes), index.nodes) && fresh(index.rows - old(index.rows))
  {
    hide *;
    ghost var sc, g, ix, works := index.sc, index.graph, index.Contents(), WorksOf(resources);
    StartingPoint(index);
    IndexWhole(index);
    SoundParts(sc, g, ix, works, delta.created, delta);
    ResourcesLive(index, resources, works);
    ApplyWrites(index, resources);
    NewRowsFresh(g, works, delta.created);
    RescannedLive(sc, g, works, delta.created, delta.fields);
    IndexWhole(index);
    ghost var w := PublishAndRewire(index, delta, g, works);
    CommitDone(sc, g, ix, works, delta, w, index.graph, index.Contents());
    IndexParts(index);
  }

  lemma {:induction false} StartingPoint(index: CommittedIndex)
    requires index.Valid() && Steady(index.sc, index.graph, index.Contents())
    ensures index.RowsValid() && BucketsMatch(index.incoming, index.counts)
    ensures Transposed(index.fields, index.counts) && OutgoingExact(index.owners, index.outgoing)
    ensures index.Contents().owners == index.owners
  {
    hide Legal, Covers, WellFormed, NothingDangles, ViewsExact, TargetIndexExact, FieldsExact, OwnersExact, Transposed, OutgoingExact;
  }

  /** What a commit leaves, by values alone. */
  lemma {:induction false} CommitDone(sc: Schema, g: Graph, ix: Image, works: Graph, delta: IndexDelta, w: Graph, after: Graph, ix': Image)
    requires Steady(sc, g, ix) && DeltaSound(sc, g, ix, works, delta.created, delta)
    requires Rewired(sc, ix, works, delta.created, g, delta, w, after) && Patched(ix, delta, ix')
    ensures Steady(sc, after, ix') && SameScalars(Overlaid(g, works, delta.created), after)
    ensures FieldsExact(sc, Overlaid(g, works, delta.created), ix'.fields)
    ensures Mirrors(sc, g, ix) ==> Mirrors(sc, after, ix')
  {
    hide *;
    PublishedSteady(sc, g, ix, works, delta.created, delta, w, after, ix');
    RewiredParts(sc, ix, works, delta.created, g, delta, w, after);
    DeltaParts(sc, g, ix, works, delta.created, delta);
    LookupFieldsKept(sc, g, works, delta.created, ix.targetFields, after);
    PatchedParts(ix, delta, ix');
    SteadyMirrors(sc, g, ix);
    SteadyMirrors(sc, after, ix');
  }

  lemma {:induction false} SteadyMirrors(sc: Schema, g: Graph, ix: Image)
    requires Steady(sc, g, ix)
    ensures Mirrors(sc, g, ix) <==> TargetFieldsExact(sc, g, ix.targetFields)
  {
  }

  lemma {:induction false} SoundParts(sc: Schema, g: Graph, ix: Image, works: Graph, creates: Graph, delta: IndexDelta)
    requires DeltaSound(sc, g, ix, works, creates, delta)
    ensures works.Keys <= g.Keys && creates.Keys !! g.Keys
    ensures Rescanned(sc, g, works, creates, AsFields(delta.fields)) && ChangesFrom(ix.owners, delta.owners)
  {
  }

  lemma {:induction false} ResourcesLive(index: CommittedIndex, resources: seq<Override>, works: Graph)
    requires index.RowsValid() && works == WorksOf(resources) && works.Keys <= index.graph.Keys
    ensures forall i :: 0 <= i < |resources| ==> resources[i].key in index.nodes
  {
    forall i | 0 <= i < |resources| ensures resources[i].key in index.nodes {
      assert resources[i].key in works;
    }
  }

  lemma {:induction false} NewRowsFresh(g: Graph, works: Graph, creates: Graph)
    requires works.Keys <= g.Keys && creates.Keys !! g.Keys
    ensures creates.Keys !! (g + works).Keys
  {
  }

  lemma {:induction false} OverlaidIs(g: Graph, works: Graph, creates: Graph)
    ensures Overlaid(g, works, creates) == g + works + creates
  {
  }

  lemma {:induction false} RescannedLive(sc: Schema, g: Graph, works: Graph, creates: Graph, values: seq<FieldDelta>)
    requires Rescanned(sc, g, works, creates, AsFields(values))
    ensures forall i :: 0 <= i < |values| ==> HasField(sc, Overlaid(g, works, creates), values[i].key)
  {
    forall i | 0 <= i < |values| ensures HasField(sc, Overlaid(g, works, creates), values[i].key) {
      assert ListsKey(values, values[i].key);
    }
  }

  lemma {:induction false} IndexWhole(index: CommittedIndex)
    requires index.RowsValid() && BucketsMatch(index.incoming, index.counts)
    ensures index.Valid()
    ensures index.Contents() == Image(index.targetFields, index.targets, index.fields, index.counts, index.owners, index.outgoing)
  {
  }

  lemma {:induction false} RewiredFrom(sc: Schema, ix: Image, works: Graph, creates: Graph, g: Graph, delta: IndexDelta, w: Graph, after: Graph)
    requires Wired(sc, Overlaid(g, works, creates), AsFields(delta.fields), w)
    requires Viewed(sc, ix.fields + AsFields(delta.fields), w, delta.inverseTargets, after)
    ensures Rewired(sc, ix, works, creates, g, delta, w, after)
  {
  }

  lemma {:induction false} PatchedFrom(ix: Image, delta: IndexDelta, ix': Image)
    requires ix'.targetFields == ix.targetFields && ix'.targets == ix.targets + delta.targets
    requires ix'.fields == ix.fields + AsFields(delta.fields) && Transposed(ix'.fields, ix'.counts)
    requires ix'.owners == Overlay(ix.owners, Afters(delta.owners)) && OutgoingExact(ix'.owners, ix'.outgoing)
    ensures Patched(ix, delta, ix')
  {
  }
}
