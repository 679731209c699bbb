/** Rebuilding the committed index from a model: the slow path every fast one is measured against. */
module RelationRebuilds {
  import opened RelationSchema
  import opened Wrappers
  import opened Ordering
  import opened OwnershipForest
  import opened OwnershipWalks
  import opened RelationGraph
  import opened RelationScan
  import opened RelationModels
  import opened TargetIndexes
  import opened RelationIndexes
  import opened RelationPublishing
  import opened RelationSurvivors

  /** Every relation field of every surviving node starts empty. */
  method IndexRelationFields(sc: Schema, nodes: Graph) returns (fields: Fields)
    ensures forall fk :: fk in fields <==> HasField(sc, nodes, fk)
    ensures forall fk :: fk in fields ==> fields[fk] == []
  {
    fields := map[];
    var rest := nodes.Keys;
    while rest != {}
      invariant rest <= nodes.Keys
      invariant forall fk :: fk in fields <==> HasField(sc, nodes, fk) && fk.holder !in rest
      invariant forall fk :: fk in fields ==> fields[fk] == []
      decreases |rest|
    {
      var key :| key in rest;
      ghost var before := fields;
      fields := fields + map f | f in FieldsOfType(sc, key.typ) :: FieldKey(key, f) := [];
      forall fk ensures fk in fields <==> HasField(sc, nodes, fk) && fk.holder !in rest - {key} {
        if HasField(sc, nodes, fk) && fk.holder == key {
          assert fk == FieldKey(key, fk.field) && fk.field in FieldsOfType(sc, key.typ);
        }
      }
      rest := rest - {key};
    }
  }

  /** The fields hold the surviving targets of the first `n` references. */
  ghost predicate FieldsLoaded(sc: Schema, nodes: Graph, refs: seq<ResolvedRelation>, n: nat, deleted: set<NodeKey>, fields: Fields) {
    && n <= |refs|
    && (forall fk :: fk in fields <==> HasField(sc, nodes, fk) && fk.holder !in deleted)
    && (forall fk :: fk in fields ==> fields[fk] == Kept(RefsOf(refs[..n], fk), deleted))
  }

  lemma {:induction false} LoadStep(sc: Schema, nodes: Graph, refs: seq<ResolvedRelation>, n: nat, deleted: set<NodeKey>, fields: Fields)
    requires FieldsLoaded(sc, nodes, refs, n, deleted, fields) && n < |refs| && HasField(sc, nodes, refs[n].field)
    ensures var r := refs[n];
            var dies := r.field.holder in deleted || r.target in deleted;
            && (!dies ==> r.field in fields)
            && FieldsLoaded(sc, nodes, refs, n + 1, deleted, if dies then fields else fields[r.field := fields[r.field] + [r.target]])
  {
    var r := refs[n];
    var dies := r.field.holder in deleted || r.target in deleted;
    var next := if dies then fields else fields[r.field := fields[r.field] + [r.target]];
    hide RefsOf, Kept, HasField;
    forall fk | fk in next ensures next[fk] == Kept(RefsOf(refs[..n + 1], fk), deleted) {
      assert fk in fields && fields[fk] == Kept(RefsOf(refs[..n], fk), deleted);
      LoadField(refs, n, deleted, fk);
    }
  }

  lemma {:induction false} LoadField(refs: seq<ResolvedRelation>, n: nat, deleted: set<NodeKey>, fk: FieldKey)
    requires n < |refs|
    ensures Kept(RefsOf(refs[..n + 1], fk), deleted) ==
            if refs[n].field == fk && refs[n].target !in deleted then Kept(RefsOf(refs[..n], fk), deleted) + [refs[n].target]
            else Kept(RefsOf(refs[..n], fk), deleted)
  {
    hide RefsOf, Kept;
    var before := RefsOf(refs[..n], fk);
    assert refs[..n + 1] == refs[..n] + [refs[n]];
    RefsOfAppend(refs[..n], refs[n], fk);
    KeptAppend(before, refs[n].target, deleted);
    assert before + [] == before && Kept(before, deleted) + [] == Kept(before, deleted);
  }

  lemma {:induction false} LoadStart(sc: Schema, nodes: Graph, refs: seq<ResolvedRelation>, deleted: set<NodeKey>, fields: Fields)
    requires forall fk :: fk in fields <==> HasField(sc, Survivors(nodes, deleted), fk)
    requires forall fk :: fk in fields ==> fields[fk] == []
    ensures FieldsLoaded(sc, nodes, refs, 0, deleted, fields) && Transposed(fields, map[])
  {
  }

  lemma {:induction false} LoadEnd(sc: Schema, nodes: Graph, fields: Fields, refs: seq<ResolvedRelation>, deleted: set<NodeKey>, left: Fields)
    requires FieldsLoaded(sc, nodes, refs, |refs|, deleted, left) && RefsMatch(fields, refs) && FieldsExact(sc, nodes, fields)
    ensures FieldsFiltered(sc, nodes, deleted, fields, left)
  {
    assert refs[..|refs|] == refs;
  }

  lemma {:induction false} AppendTransposed(fields: Fields, counts: Counts, fk: FieldKey, target: NodeKey)
    requires Transposed(fields, counts) && fk in fields
    ensures Transposed(fields[fk := fields[fk] + [target]], Incremented(counts, target, fk))
  {
    var fields', counts' := fields[fk := fields[fk] + [target]], Incremented(counts, target, fk);
    forall t, f ensures CountIn(counts', t, f) == Mult(fields', f, t) {
      assert CountIn(counts, t, f) == Mult(fields, f, t);
    }
  }

  /** Replay the model's references, skipping those with a dead end, counting as it goes. */
  method LoadReferences(index: CommittedIndex, model: RelationModel, deleted: set<NodeKey>)
    requires BucketsMatch(index.incoming, index.counts) && Transposed(index.fields, index.counts)
    requires FieldsLoaded(model.sc, model.nodes, model.refs, 0, deleted, index.fields)
    requires forall r :: r in model.refs ==> HasField(model.sc, model.nodes, r.field)
    modifies index`fields, index`incoming, index`counts
    ensures BucketsMatch(index.incoming, index.counts) && Transposed(index.fields, index.counts)
    ensures FieldsLoaded(model.sc, model.nodes, model.refs, |model.refs|, deleted, index.fields)
  {
    hide *;
    var refs := model.refs;
    var i := 0;
    while i < |refs|
      invariant 0 <= i <= |refs| && BucketsMatch(index.incoming, index.counts) && Transposed(index.fields, index.counts)
      invariant FieldsLoaded(model.sc, model.nodes, refs, i, deleted, index.fields)
    {
      var r := refs[i];
      assert r in refs;
      LoadStep(model.sc, model.nodes, refs, i, deleted, index.fields);
      if r.field.holder !in deleted && r.target !in deleted {
        AppendTransposed(index.fields, index.counts, r.field, r.target);
        index.fields := index.fields[r.field := index.fields[r.field] + [r.target]];
        index.IncrementIncoming(r.target, r.field);
      }
      i := i + 1;
    }
  }

  /** The owners and child lists between survivors. */
  method FilterOwnership(owners: Owners, outgoing: map<NodeKey, seq<NodeKey>>, deleted: set<NodeKey>)
    returns (owners': Owners, outgoing': map<NodeKey, seq<NodeKey>>)
    requires OutgoingExact(owners, outgoing)
    ensures OwnersFiltered(deleted, owners, owners') && OutgoingExact(owners', outgoing')
  {
    owners' := map c | c in owners && c !in deleted && owners[c] !in deleted :: owners[c];
    outgoing' := map o | o in outgoing && o !in deleted :: Kept(outgoing[o], deleted);
    forall o, c ensures c in ChildrenOf(outgoing', o) <==> OwnerOf(owners', c) == Some(o) {
      assert c in ChildrenOf(outgoing, o) <==> OwnerOf(owners, c) == Some(o);
    }
    forall o | o in outgoing' ensures Distinct(outgoing'[o]) {
      KeptDistinct(outgoing[o], deleted);
    }
  }

  lemma {:induction false} ModelParts(model: RelationModel)
    requires model.Sound()
    ensures WellFormed(model.sc) && TargetIndexExact(model.nodes, model.targetFields, model.targets)
    ensures FieldsExact(model.sc, model.nodes, model.fields) && RefsMatch(model.fields, model.refs)
    ensures ForestLegal(model.sc, model.fields, model.owners) && OutgoingExact(model.owners, model.outgoing)
    ensures forall fk, i :: !ClashesAt(model.sc, model.nodes, fk, i)
    ensures forall r :: r in model.refs ==> HasField(model.sc, model.nodes, r.field)
  {
    assert model.Grounded();
    hide ClashesAt, FieldsExact, ForestLegal, OutgoingExact, TargetIndexExact, RefsMatch, WellFormed;
    assert FieldsExact(model.sc, model.nodes, model.fields) && RefsMatch(model.fields, model.refs);
    forall fk, i ensures !ClashesAt(model.sc, model.nodes, fk, i) {
      assert !Unscannable(model.sc, model.nodes, fk);
      ClashHasField(model.sc, model.nodes, fk, i);
    }
    RefsHaveFields(model.sc, model.nodes, model.fields, model.refs);
  }

  lemma {:induction false} ClashHasField(sc: Schema, g: Graph, fk: FieldKey, i: int)
    ensures ClashesAt(sc, g, fk, i) ==> HasField(sc, g, fk)
  {
  }

  lemma {:induction false} RefsHaveFields(sc: Schema, g: Graph, fields: Fields, refs: seq<ResolvedRelation>)
    requires FieldsExact(sc, g, fields) && RefsMatch(fields, refs)
    ensures forall r :: r in refs ==> HasField(sc, g, r.field)
  {
  }

  /** The committed index of what survives, over the same addresses. */
  method BuildCommittedRelationIndex(model: RelationModel, values: map<NodeKey, LiveRow>, ghost rows: set<LiveRow>, deleted: set<NodeKey>)
    returns (index: CommittedIndex)
    requires model.Sound() && AddressesOf(values, rows, model.nodes)
    ensures fresh(index) && index.Valid() && index.sc == model.sc && index.rows == rows
    ensures index.graph == Survivors(model.nodes, deleted) && KeepsAddresses(index.nodes, values)
    ensures MirrorsWithin(model.sc, Survivors(model.nodes, deleted), index.Contents())
    ensures index.targetFields == model.targetFields
    ensures ForestLegal(model.sc, index.fields, index.owners)
  {
    hide *;
    ModelParts(model);
    var nodes, targets := model.nodes, model.targets;
    NothingDead(nodes, deleted);
    if deleted != {} {
      nodes := Survivors(nodes, deleted);
      targets := BuildRelationTargetIndexFromFields(nodes, model.targetFields);
    }
    SurvivingAddresses(values, rows, model.nodes, deleted);
    index := new CommittedIndex(model.sc, values - deleted, rows, nodes, targets, model.targetFields);
    index.fields := IndexRelationFields(model.sc, nodes);
    LoadStart(model.sc, model.nodes, model.refs, deleted, index.fields);
    EmptyBuckets();
    LoadReferences(index, model, deleted);
    index.owners, index.outgoing := FilterOwnership(model.owners, model.outgoing, deleted);
    IndexWhole(index);
    RebuildDone(model, deleted, index.Contents());
  }

  lemma {:induction false} RebuildDone(model: RelationModel, deleted: set<NodeKey>, ix: Image)
    requires model.Sound() && FieldsLoaded(model.sc, model.nodes, model.refs, |model.refs|, deleted, ix.fields)
    requires TargetIndexExact(Survivors(model.nodes, deleted), ix.targetFields, ix.targets) && Transposed(ix.fields, ix.counts)
    requires OwnersFiltered(deleted, model.owners, ix.owners) && OutgoingExact(ix.owners, ix.outgoing)
    ensures MirrorsWithin(model.sc, Survivors(model.nodes, deleted), ix) && ForestLegal(model.sc, ix.fields, ix.owners)
  {
    hide *;
    ModelParts(model);
    LoadEnd(model.sc, model.nodes, model.fields, model.refs, deleted, ix.fields);
    FieldsSurvive(model.sc, model.nodes, deleted, model.fields, ix.fields);
    OwnersSurvive(model.sc, model.nodes, deleted, model.fields, ix.fields, model.owners, ix.owners);
    WithinFrom(model.sc, Survivors(model.nodes, deleted), ix);
  }

  lemma {:induction false} NothingDead(g: Graph, deleted: set<NodeKey>)
    ensures deleted == {} ==> Survivors(g, deleted) == g
  {
  }

  lemma {:induction false} EmptyBuckets()
    ensures BucketsMatch(map[], map[])
  {
  }

  lemma {:induction false} SurvivingAddresses(values: map<NodeKey, LiveRow>, rows: set<LiveRow>, g: Graph, deleted: set<NodeKey>)
    requires AddressesOf(values, rows, g)
    ensures AddressesOf(values - deleted, rows, Survivors(g, deleted)) && KeepsAddresses(values - deleted, values)
  {
  }

  lemma {:induction false} WithinFrom(sc: Schema, g: Graph, ix: Image)
    requires TargetIndexExact(g, ix.targetFields, ix.targets) && FieldsExact(sc, g, ix.fields) && Transposed(ix.fields, ix.counts)
    requires ForestLegal(sc, ix.fields, ix.owners) && OutgoingExact(ix.owners, ix.outgoing)
    ensures MirrorsWithin(sc, g, ix)
  {
  }
}
