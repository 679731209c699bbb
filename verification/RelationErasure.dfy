/** Erasing a doomed set from every derived structure of the committed index, node by node. */
module RelationErasure {
  import opened RelationSchema
  import opened Wrappers
  import opened Ordering
  import opened OwnershipForest
  import opened OwnershipWalks
  import opened RelationGraph
  import opened RelationModels
  import opened RelationContainers
  import opened RelationIndexes
  import opened RelationRewiring
  import opened RelationIndexDeltas
  import opened RelationPublishing
  import opened RelationSurvivors

  // ---------------------------------------------------------------- fields and counts

  /** The counts transpose the fields, except that the buckets of `closure` are on their way out. */
  ghost predicate CountsOutside(closure: set<NodeKey>, fields: Fields, counts: Counts) {
    forall t, fk :: t !in closure ==> CountIn(counts, t, fk) == Mult(fields, fk, t)
  }

  /** Field `fk` has been taken back from its first `i` targets outside `closure`. */
  ghost predicate TakenBack(closure: set<NodeKey>, fields: Fields, fk: FieldKey, i: nat, counts: Counts) {
    && fk in fields && i <= |fields[fk]|
    && forall t, f :: t !in closure ==>
         CountIn(counts, t, f) == Mult(fields, f, t) - if f == fk then multiset(fields[fk][..i])[t] else 0
  }

  lemma {:induction false} TakeStart(closure: set<NodeKey>, fields: Fields, fk: FieldKey, counts: Counts)
    requires CountsOutside(closure, fields, counts) && fk in fields
    ensures TakenBack(closure, fields, fk, 0, counts)
  {
  }

  lemma {:induction false} TakeStep(closure: set<NodeKey>, fields: Fields, fk: FieldKey, i: nat, counts: Counts)
    requires TakenBack(closure, fields, fk, i, counts) && i < |fields[fk]|
    ensures TakenBack(closure, fields, fk, i + 1,
                      if fields[fk][i] in closure then counts else Decremented(counts, fields[fk][i], fk))
  {
    var targets := fields[fk];
    var target := targets[i];
    var counts' := if target in closure then counts else Decremented(counts, target, fk);
    assert targets[..i + 1] == targets[..i] + [target];
    assert targets == targets[..i] + [target] + targets[i + 1..];
    assert multiset(targets)[target] >= multiset(targets[..i])[target] + 1;
    forall t, f | t !in closure ensures CountIn(counts', t, f) == CountIn(counts, t, f) - if t == target && f == fk then 1 else 0 {
      assert CountIn(counts, target, fk) == Mult(fields, fk, target) - multiset(targets[..i])[target] || target in closure;
    }
  }

  lemma {:induction false} TakeEnd(closure: set<NodeKey>, fields: Fields, fk: FieldKey, counts: Counts)
    requires fk in fields && TakenBack(closure, fields, fk, |fields[fk]|, counts)
    ensures CountsOutside(closure, fields - {fk}, counts)
  {
    assert fields[fk][..|fields[fk]|] == fields[fk];
  }

  /** Who a doomed holder's view-feeding fields pointed at, outside the doomed set. */
  ghost predicate LosesHolder(sc: Schema, fields: Fields, gone: set<NodeKey>, closure: set<NodeKey>, target: NodeKey) {
    target !in closure && exists fk: FieldKey :: fk in fields && fk.holder in gone && Feeds(sc, fk) && target in fields[fk]
  }

  predicate Feeds(sc: Schema, fk: FieldKey) {
    Declares(sc, fk.holder.typ, fk.field) && SpecOf(sc, fk).kind in {Borrow, Optional}
  }

  /** Erase one field of a doomed holder: surviving targets lose one count each per pointer. */
  method EraseField(index: CommittedIndex, closure: set<NodeKey>, fk: FieldKey)
    requires BucketsMatch(index.incoming, index.counts) && CountsOutside(closure, index.fields, index.counts)
    modifies index`incoming, index`counts, index`fields
    ensures BucketsMatch(index.incoming, index.counts) && CountsOutside(closure, index.fields, index.counts)
    ensures index.fields == old(index.fields) - {fk} && index.counts.Keys == old(index.counts).Keys
  {
    hide *;
    if fk !in index.fields {
      NoSuchField(index.fields, fk);
      return;
    }
    ghost var fields0 := index.fields;
    var targets := index.fields[fk];
    TakeStart(closure, fields0, fk, index.counts);
    var i := 0;
    while i < |targets|
      invariant 0 <= i <= |targets| && BucketsMatch(index.incoming, index.counts) && index.fields == fields0
      invariant TakenBack(closure, fields0, fk, i, index.counts) && index.counts.Keys == old(index.counts).Keys
    {
      TakeStep(closure, fields0, fk, i, index.counts);
      if targets[i] !in closure {
        SameBuckets(index.counts, targets[i], fk);
        index.DecrementIncoming(targets[i], fk);
      }
      i := i + 1;
    }
    TakeEnd(closure, fields0, fk, index.counts);
    index.fields := index.fields - {fk};
  }

  lemma {:induction false} NoSuchField(fields: Fields, fk: FieldKey)
    requires fk !in fields
    ensures fields - {fk} == fields
  {
  }

  lemma {:induction false} SameBuckets(counts: Counts, target: NodeKey, fk: FieldKey)
    ensures Decremented(counts, target, fk).Keys == counts.Keys
  {
  }

  /** Every relation field of one doomed node. */
  method EraseFields(index: CommittedIndex, closure: set<NodeKey>, doomed: NodeKey)
    requires BucketsMatch(index.incoming, index.counts) && CountsOutside(closure, index.fields, index.counts)
    requires forall fk :: fk in index.fields ==> Declares(index.sc, fk.holder.typ, fk.field)
    modifies index`incoming, index`counts, index`fields
    ensures BucketsMatch(index.incoming, index.counts) && CountsOutside(closure, index.fields, index.counts)
    ensures index.fields == FieldsWithout(old(index.fields), {doomed}) && index.counts.Keys == old(index.counts).Keys
  {
    hide *;
    ghost var fields0 := index.fields;
    var rest := FieldsOfType(index.sc, doomed.typ);
    NoFieldErased(fields0, doomed);
    while rest != {}
      invariant rest <= FieldsOfType(index.sc, doomed.typ)
      invariant BucketsMatch(index.incoming, index.counts) && CountsOutside(closure, index.fields, index.counts)
      invariant FieldsErased(index.sc, fields0, doomed, rest, index.fields) && index.counts.Keys == old(index.counts).Keys
      decreases |rest|
    {
      var field :| field in rest;
      FieldErased(index.sc, fields0, doomed, rest, index.fields, field);
      EraseField(index, closure, FieldKey(doomed, field));
      rest := rest - {field};
    }
    AllErased(index.sc, fields0, doomed, index.fields);
  }

  /** The fields of `doomed` outside `rest` are gone. */
  ghost predicate FieldsErased(sc: Schema, fields0: Fields, doomed: NodeKey, rest: set<nat>, fields: Fields) {
    && (forall fk :: fk in fields <==>
          fk in fields0 && !(fk.holder == doomed && fk.field in FieldsOfType(sc, doomed.typ) && fk.field !in rest))
    && (forall fk :: fk in fields ==> fields[fk] == fields0[fk])
  }

  lemma {:induction false} NoFieldErased(fields0: Fields, doomed: NodeKey)
    ensures forall sc :: FieldsErased(sc, fields0, doomed, FieldsOfType(sc, doomed.typ), fields0)
  {
  }

  lemma {:induction false} FieldErased(sc: Schema, fields0: Fields, doomed: NodeKey, rest: set<nat>, fields: Fields, field: nat)
    requires FieldsErased(sc, fields0, doomed, rest, fields) && field in rest && rest <= FieldsOfType(sc, doomed.typ)
    ensures FieldsErased(sc, fields0, doomed, rest - {field}, fields - {FieldKey(doomed, field)})
  {
    hide FieldsOfType;
  }

  lemma {:induction false} AllErased(sc: Schema, fields0: Fields, doomed: NodeKey, fields: Fields)
    requires FieldsErased(sc, fields0, doomed, {}, fields) && forall fk :: fk in fields0 ==> Declares(sc, fk.holder.typ, fk.field)
    ensures fields == FieldsWithout(fields0, {doomed})
  {
    forall fk ensures fk in fields <==> fk in FieldsWithout(fields0, {doomed}) {
    }
  }

  // ---------------------------------------------------------------- lookup entries

  /** The lookup keys a row bears. */
  function LookupsOf(tf: TargetFields, key: NodeKey, row: Row): set<TargetKey> {
    if key.typ !in tf then {}
    else set field | field in tf[key.typ] && field in row.scalars :: TargetKey(key.typ, field, row.scalars[field])
  }

  /** Nobody shares a doomed node's lookup keys. */
  ghost predicate SoleBearers(tf: TargetFields, g: Graph, closure: set<NodeKey>) {
    forall k, lk :: k in closure && Searchable(tf, lk) && Bears(g, k, lk) ==> Sole(g, k, lk)
  }

  lemma {:induction false} LookupsErased(tf: TargetFields, g: Graph, targets: TargetIndex, doomed: NodeKey)
    requires TargetIndexExact(g, tf, targets) && SoleBearers(tf, g, {doomed}) && doomed in g
    ensures TargetIndexExact(g - {doomed}, tf, targets - LookupsOf(tf, doomed, g[doomed]))
  {
    var g', targets' := g - {doomed}, targets - LookupsOf(tf, doomed, g[doomed]);
    forall k, lk ensures Bears(g', k, lk) <==> Bears(g, k, lk) && k != doomed {
    }
    forall lk | Searchable(tf, lk) ensures lk in LookupsOf(tf, doomed, g[doomed]) <==> Bears(g, doomed, lk) {
    }
    forall lk | lk in LookupsOf(tf, doomed, g[doomed]) ensures Searchable(tf, lk) {
    }
    hide Bears, LookupsOf;
    forall lk ensures lk in targets' <==> Searchable(tf, lk) && exists k :: Bears(g', k, lk) {
      if lk in targets && !Bears(g, doomed, lk) {
        assert Bears(g', targets[lk].key, lk);
      }
      if Bears(g, doomed, lk) && Searchable(tf, lk) {
        assert Sole(g, doomed, lk);
      }
    }
    forall lk | lk in targets' ensures Bears(g', targets'[lk].key, lk) && (targets'[lk].duplicate <==> !Sole(g', targets'[lk].key, lk)) {
      assert !Bears(g, doomed, lk);
    }
  }

  method EraseLookups(targets0: TargetIndex, tf: TargetFields, key: NodeKey, row: Row) returns (targets: TargetIndex)
    ensures targets == targets0 - LookupsOf(tf, key, row)
  {
    targets := targets0;
    if key.typ !in tf {
      assert targets0 - LookupsOf(tf, key, row) == targets0;
      return;
    }
    var rest := tf[key.typ];
    ghost var gone: set<TargetKey> := {};
    while rest != {}
      invariant rest <= tf[key.typ] && targets == targets0 - gone
      invariant forall lk :: lk in gone <==> lk in LookupsOf(tf, key, row) && lk.field !in rest
      decreases |rest|
    {
      var field :| field in rest;
      if field in row.scalars {
        var lk := TargetKey(key.typ, field, row.scalars[field]);
        assert targets0 - gone - {lk} == targets0 - (gone + {lk});
        targets := targets - {lk};
        gone := gone + {lk};
      }
      rest := rest - {field};
    }
    assert gone == LookupsOf(tf, key, row);
  }

  // ---------------------------------------------------------------- owners and children

  /** Owners of survivors only, and child lists for every owner not yet erased. */
  ghost predicate OutgoingOutside(gone: set<NodeKey>, owners: Owners, outgoing: map<NodeKey, seq<NodeKey>>) {
    && (forall o, c :: c in ChildrenOf(outgoing, o) <==> OwnerOf(owners, c) == Some(o) && o !in gone)
    && (forall o :: o in outgoing ==> Distinct(outgoing[o]))
  }

  method EraseOwnership(owners0: Owners, outgoing0: map<NodeKey, seq<NodeKey>>, ghost gone: set<NodeKey>, doomed: NodeKey)
    returns (owners: Owners, outgoing: map<NodeKey, seq<NodeKey>>)
    requires OutgoingOutside(gone, owners0, outgoing0)
    ensures owners == owners0 - {doomed} && OutgoingOutside(gone + {doomed}, owners, outgoing)
  {
    owners, outgoing := owners0, outgoing0;
    if doomed in owners0 {
      var owner := owners0[doomed];
      if owner in outgoing {
        var left := RemoveCommittedChild(outgoing[owner], doomed);
        outgoing := outgoing[owner := left];
      }
      owners := owners - {doomed};
    }
    outgoing := outgoing - {doomed};
    forall o, c ensures c in ChildrenOf(outgoing, o) <==> OwnerOf(owners, c) == Some(o) && o !in gone + {doomed} {
      assert c in ChildrenOf(outgoing0, o) <==> OwnerOf(owners0, c) == Some(o) && o !in gone;
      assert doomed in ChildrenOf(outgoing0, o) <==> OwnerOf(owners0, doomed) == Some(o) && o !in gone;
    }
    assert owners == owners0 - {doomed};
  }

  // ---------------------------------------------------------------- node by node

  /** No survivor points at a doomed node. */
  ghost predicate NoneInto(fields: Fields, closure: set<NodeKey>) {
    forall fk, t :: fk in fields && fk.holder !in closure && t in fields[fk] ==> t !in closure
  }

  /** The index once the nodes in `done` are erased from every structure, while the rest of `closure` is still there. */
  ghost predicate ErasedTo(sc: Schema, g0: Graph, ix0: Image, closure: set<NodeKey>, done: set<NodeKey>,
                           g: Graph, ix: Image, inverse: set<NodeKey>)
  {
    && g == g0 - done && ix.targetFields == ix0.targetFields
    && ix.fields == FieldsWithout(ix0.fields, done) && CountsOutside(closure, ix.fields, ix.counts) && ix.counts.Keys !! done
    && TargetIndexExact(g, ix.targetFields, ix.targets)
    && ix.owners == ix0.owners - done && OutgoingOutside(done, ix.owners, ix.outgoing)
    && (forall t :: t in inverse <==> LosesHolder(sc, ix0.fields, done, closure, t))
  }

  /** What erasing may rely on throughout. */
  ghost predicate Erasable(sc: Schema, g0: Graph, ix0: Image, closure: set<NodeKey>) {
    && closure <= g0.Keys && SoleBearers(ix0.targetFields, g0, closure) && NoneInto(ix0.fields, closure)
    && (forall fk :: fk in ix0.fields ==> Declares(sc, fk.holder.typ, fk.field))
  }

  lemma {:induction false} NothingErased(sc: Schema, g0: Graph, ix0: Image, closure: set<NodeKey>)
    requires Transposed(ix0.fields, ix0.counts) && OutgoingExact(ix0.owners, ix0.outgoing)
    requires TargetIndexExact(g0, ix0.targetFields, ix0.targets)
    ensures ErasedTo(sc, g0, ix0, closure, {}, g0, ix0, {})
  {
    hide TargetIndexExact, Feeds;
    assert FieldsWithout(ix0.fields, {}) == ix0.fields;
    assert g0 - {} == g0 && ix0.owners - {} == ix0.owners;
  }

  function LostBy(sc: Schema, fields: Fields, doomed: NodeKey, closure: set<NodeKey>): (lost: set<NodeKey>)
    ensures forall t :: t in lost <==> LosesHolder(sc, fields, {doomed}, closure, t)
  {
    var keys := set f | f in FieldsOfType(sc, doomed.typ) && FieldKey(doomed, f) in fields && Feeds(sc, FieldKey(doomed, f)) :: FieldKey(doomed, f);
    var lost := set fk, t | fk in keys && t in fields[fk] && t !in closure :: t;
    assert forall fk: FieldKey :: fk in fields && fk.holder == doomed && Feeds(sc, fk) ==> fk in keys by {
      forall fk: FieldKey | fk in fields && fk.holder == doomed && Feeds(sc, fk) ensures fk in keys {
        assert fk == FieldKey(doomed, fk.field) && fk.field in FieldsOfType(sc, doomed.typ);
      }
    }
    lost
  }

  lemma {:induction false} LosesMore(sc: Schema, fields0: Fields, done: set<NodeKey>, doomed: NodeKey, closure: set<NodeKey>,
                                     inverse: set<NodeKey>)
    requires forall t :: t in inverse <==> LosesHolder(sc, fields0, done, closure, t)
    requires doomed !in done
    ensures forall t :: t in inverse + LostBy(sc, FieldsWithout(fields0, done), doomed, closure) <==>
                        LosesHolder(sc, fields0, done + {doomed}, closure, t)
  {
    hide Feeds, LostBy;
    var left := FieldsWithout(fields0, done);
    forall t ensures LosesHolder(sc, fields0, done + {doomed}, closure, t) <==>
                     LosesHolder(sc, fields0, done, closure, t) || LosesHolder(sc, left, {doomed}, closure, t)
    {
    }
  }

  lemma {:induction false} ErasedStep(sc: Schema, g0: Graph, ix0: Image, closure: set<NodeKey>, done: set<NodeKey>,
                                      g: Graph, ix: Image, inverse: set<NodeKey>, doomed: NodeKey, g': Graph, ix': Image)
    requires ErasedTo(sc, g0, ix0, closure, done, g, ix, inverse) && Erasable(sc, g0, ix0, closure)
    requires doomed in closure && doomed !in done && done <= closure
    requires g' == g - {doomed} && ix'.targetFields == ix.targetFields
    requires ix'.fields == FieldsWithout(ix.fields, {doomed}) && CountsOutside(closure, ix'.fields, ix'.counts)
    requires ix'.counts.Keys !! done + {doomed}
    requires TargetIndexExact(g', ix'.targetFields, ix'.targets)
    requires ix'.owners == ix.owners - {doomed} && OutgoingOutside(done + {doomed}, ix'.owners, ix'.outgoing)
    ensures ErasedTo(sc, g0, ix0, closure, done + {doomed}, g', ix', inverse + LostBy(sc, ix.fields, doomed, closure))
  {
    LosesMore(sc, ix0.fields, done, doomed, closure, inverse);
    hide TargetIndexExact, CountsOutside, OutgoingOutside, LostBy, LosesHolder, SoleBearers, NoneInto;
    assert g - {doomed} == g0 - (done + {doomed});
    assert ix.owners - {doomed} == ix0.owners - (done + {doomed});
    assert FieldsWithout(FieldsWithout(ix0.fields, done), {doomed}) == FieldsWithout(ix0.fields, done + {doomed});
  }

  /** A doomed node is still the only bearer of its keys among what is left. */
  lemma {:induction false} StillSole(sc: Schema, g0: Graph, ix0: Image, closure: set<NodeKey>, done: set<NodeKey>, doomed: NodeKey)
    requires Erasable(sc, g0, ix0, closure) && doomed in closure && doomed !in done
    ensures SoleBearers(ix0.targetFields, g0 - done, {doomed}) && doomed in g0 - done
  {
    var g := g0 - done;
    forall lk | Searchable(ix0.targetFields, lk) && Bears(g, doomed, lk) ensures Sole(g, doomed, lk) {
      assert Bears(g0, doomed, lk);
      assert Sole(g0, doomed, lk);
      forall j | Bears(g, j, lk) ensures j == doomed {
        assert Bears(g0, j, lk);
      }
    }
  }

  lemma {:induction false} FieldsStillDeclared(sc: Schema, g0: Graph, ix0: Image, closure: set<NodeKey>, fields: Fields, done: set<NodeKey>)
    requires Erasable(sc, g0, ix0, closure) && fields == FieldsWithout(ix0.fields, done)
    ensures forall fk :: fk in fields ==> Declares(sc, fk.holder.typ, fk.field)
  {
  }

  lemma {:induction false} BucketDropped(incoming: map<NodeKey, Bucket>, counts: Counts, closure: set<NodeKey>, fields: Fields, doomed: NodeKey, done: set<NodeKey>)
    requires BucketsMatch(incoming, counts) && CountsOutside(closure, fields, counts) && doomed in closure && counts.Keys !! done
    ensures BucketsMatch(incoming - {doomed}, counts - {doomed}) && CountsOutside(closure, fields, counts - {doomed})
    ensures (counts - {doomed}).Keys !! done + {doomed}
  {
  }

  lemma {:induction false} ErasedParts(sc: Schema, g0: Graph, ix0: Image, closure: set<NodeKey>, done: set<NodeKey>,
                                       g: Graph, ix: Image, inverse: set<NodeKey>)
    requires ErasedTo(sc, g0, ix0, closure, done, g, ix, inverse)
    ensures g == g0 - done && ix.targetFields == ix0.targetFields && ix.fields == FieldsWithout(ix0.fields, done)
    ensures CountsOutside(closure, ix.fields, ix.counts) && ix.counts.Keys !! done
    ensures TargetIndexExact(g, ix.targetFields, ix.targets) && OutgoingOutside(done, ix.owners, ix.outgoing)
    ensures ix.owners == ix0.owners - done && forall t :: t in inverse <==> LosesHolder(sc, ix0.fields, done, closure, t)
  {
  }

  /** Erase one doomed node from fields, lookups, owners, children, counts and nodes. */
  method EraseNode(index: CommittedIndex, closure: set<NodeKey>, ghost done: set<NodeKey>, inverse0: set<NodeKey>, doomed: NodeKey,
                   ghost g0: Graph, ghost ix0: Image)
    returns (inverse: set<NodeKey>)
    requires index.Valid() && ErasedTo(index.sc, g0, ix0, closure, done, index.graph, index.Contents(), inverse0)
    requires Erasable(index.sc, g0, ix0, closure) && doomed in closure && doomed !in done && done <= closure
    modifies index
    ensures index.Valid() && ErasedTo(index.sc, g0, ix0, closure, done + {doomed}, index.graph, index.Contents(), inverse)
    ensures index.rows == old(index.rows) && index.nodes == old(index.nodes) - {doomed}
  {
    hide *;
    ghost var sc, g, ix := index.sc, index.graph, index.Contents();
    IndexParts(index);
    ErasedParts(sc, g0, ix0, closure, done, g, ix, inverse0);
    StillSole(sc, g0, ix0, closure, done, doomed);
    FieldsStillDeclared(sc, g0, ix0, closure, index.fields, done);
    NodesLive(index);
    inverse := inverse0 + LostBy(index.sc, index.fields, doomed, closure);
    EraseFields(index, closure, doomed);
    LookupsErased(index.targetFields, g, index.targets, doomed);
    EraseKeysAndOwner(index, doomed, done);
    DropNode(index, closure, done, doomed);
    IndexWhole(index);
    ErasedStep(sc, g0, ix0, closure, done, g, ix, inverse0, doomed, index.graph, index.Contents());
  }

  /** Take one doomed node out of the lookup index and out of its owner's children. */
  method EraseKeysAndOwner(index: CommittedIndex, doomed: NodeKey, ghost done: set<NodeKey>)
    requires index.RowsValid() && doomed in index.nodes && OutgoingOutside(done, index.owners, index.outgoing)
    modifies index`targets, index`owners, index`outgoing
    ensures index.RowsValid() && index.targets == old(index.targets) - LookupsOf(index.targetFields, doomed, index.graph[doomed])
    ensures index.owners == old(index.owners) - {doomed} && OutgoingOutside(done + {doomed}, index.owners, index.outgoing)
  {
    hide *;
    NodesLive(index);
    RowsAt(index, doomed);
    index.targets := EraseLookups(index.targets, index.targetFields, doomed, index.nodes[doomed].row);
    index.owners, index.outgoing := EraseOwnership(index.owners, index.outgoing, done, doomed);
  }

  /** Drop the bucket and the address of one doomed node. */
  method DropNode(index: CommittedIndex, closure: set<NodeKey>, ghost done: set<NodeKey>, doomed: NodeKey)
    requires index.RowsValid() && BucketsMatch(index.incoming, index.counts) && CountsOutside(closure, index.fields, index.counts)
    requires doomed in closure && index.counts.Keys !! done
    modifies index`incoming, index`counts, index`nodes, index`graph
    ensures index.RowsValid() && BucketsMatch(index.incoming, index.counts) && CountsOutside(closure, index.fields, index.counts)
    ensures index.counts.Keys !! done + {doomed}
    ensures index.nodes == old(index.nodes) - {doomed} && index.graph == old(index.graph) - {doomed}
  {
    hide *;
    BucketDropped(index.incoming, index.counts, closure, index.fields, doomed, done);
    index.incoming, index.counts := index.incoming - {doomed}, index.counts - {doomed};
    RowsHold(index);
    NodeDropped(index.nodes, index.rows, index.graph, doomed);
    index.nodes, index.graph := index.nodes - {doomed}, index.graph - {doomed};
    RowsHold(index);
  }

  lemma {:induction false} NodeDropped(nodes: map<NodeKey, LiveRow>, rows: set<LiveRow>, g: Graph, doomed: NodeKey)
    requires AddressesOf(nodes, rows, g)
    ensures AddressesOf(nodes - {doomed}, rows, g - {doomed})
  {
  }

  lemma {:induction false} RowsHold(index: CommittedIndex)
    ensures index.RowsValid() <==> AddressesOf(index.nodes, index.rows, index.graph)
  {
  }

  lemma {:induction false} AllGone(sc: Schema, g0: Graph, ix0: Image, closure: set<NodeKey>, g: Graph, ix: Image, inverse: set<NodeKey>)
    requires ErasedTo(sc, g0, ix0, closure, closure, g, ix, inverse) && Erasable(sc, g0, ix0, closure)
    ensures Transposed(ix.fields, ix.counts)
  {
    forall t, fk ensures CountIn(ix.counts, t, fk) == Mult(ix.fields, fk, t) {
      if t in closure {
        assert fk in ix.fields ==> t !in ix.fields[fk];
      }
    }
  }

  /** Erase the doomed set, then recompute the views of everyone who lost a holder. */
  method RemoveDeletedFromCommittedIndex(index: CommittedIndex, closure: set<NodeKey>)
    returns (ghost left: Image, ghost inverse: set<NodeKey>)
    requires index.Valid() && Transposed(index.fields, index.counts) && OutgoingExact(index.owners, index.outgoing)
    requires TargetIndexExact(index.graph, index.targetFields, index.targets)
    requires Erasable(index.sc, index.graph, index.Contents(), closure)
    modifies index, index.rows
    ensures index.Valid() && index.Contents() == left && Transposed(left.fields, left.counts)
    ensures ErasedTo(index.sc, old(index.graph), old(index.Contents()), closure, closure, Survivors(old(index.graph), closure), left, inverse)
    ensures Viewed(index.sc, left.fields, Survivors(old(index.graph), closure), inverse, index.graph)
    ensures index.rows == old(index.rows) && index.nodes == old(index.nodes) - closure
  {
    hide *;
    ghost var sc, g0, ix0 := index.sc, index.graph, index.Contents();
    IndexParts(index);
    NothingErased(sc, g0, ix0, closure);
    var refresh: set<NodeKey> := {};
    var rest := closure;
    ghost var done: set<NodeKey> := {};
    assert index.nodes == index.nodes - {};
    while rest != {}
      invariant rest + done == closure && rest !! done && index.Valid()
      invariant ErasedTo(sc, g0, ix0, closure, done, index.graph, index.Contents(), refresh)
      invariant index.rows == old(index.rows) && index.nodes == old(index.nodes) - done
      decreases |rest|
    {
      var doomed :| doomed in rest;
      assert old(index.nodes) - done - {doomed} == old(index.nodes) - (done + {doomed});
      refresh := EraseNode(index, closure, done, refresh, doomed, g0, ix0);
      done := done + {doomed};
      rest := rest - {doomed};
    }
    assert done == closure;
    left, inverse := index.Contents(), refresh;
    IndexParts(index);
    ErasedParts(sc, g0, ix0, closure, closure, index.graph, left, refresh);
    assert index.graph == Survivors(g0, closure) by { SurvivorsAre(g0, closure); }
    AllGone(sc, g0, ix0, closure, index.graph, left, refresh);
    RewireViews(index, refresh);
    IndexWhole(index);
    ContentsAre(left, index);
  }

  lemma {:induction false} SurvivorsAre(g: Graph, deleted: set<NodeKey>)
    ensures Survivors(g, deleted) == g - deleted
  {
  }

  lemma {:induction false} ContentsAre(left: Image, index: CommittedIndex)
    requires left.targetFields == index.targetFields && left.targets == index.targets && left.fields == index.fields
    requires left.counts == index.counts && left.owners == index.owners && left.outgoing == index.outgoing
    ensures index.Contents() == left
  {
  }
}
