/** Runs that mix every way of changing the graph: delta commits, full commits, deletes, and flushes by either path. */
module RelationMixedRuns {
  import opened RelationSchema
  import opened Wrappers
  import opened OwnershipForest
  import opened OwnershipWalks
  import opened RelationGraph
  import opened RelationModels
  import opened TargetIndexes
  import opened RelationIndexes
  import opened RelationOverlays
  import opened RelationDeltas
  import opened RelationIndexDeltas
  import opened RelationRewiring
  import opened RelationPublishing
  import opened RelationDeletions
  import opened RelationSurvivors
  import opened RelationDeleteFlush
  import opened RelationListings
  import opened RelationRebuilds
  import opened RelationTransactions
  import opened RelationRuns
  import opened RelationFallbacks
  import opened RelationFlushes

  datatype Step =
    | Transaction(resources: seq<Override>, creates: Graph, deletes: set<NodeKey>)
    | Flush(explicit: set<NodeKey>)

  /** No difference between two indexes over the lookup fields both of them cover: a rebuild after deletes may cover fewer. */
  ghost predicate SameWithin(a: Image, b: Image) {
    && (forall lk :: Searchable(a.targetFields, lk) && Searchable(b.targetFields, lk) ==> LookupIn(a.targets, lk) == LookupIn(b.targets, lk))
    && a.fields == b.fields && a.owners == b.owners
    && (forall t, fk :: CountIn(a.counts, t, fk) == CountIn(b.counts, t, fk))
    && (forall o, c :: c in ChildrenOf(a.outgoing, o) <==> c in ChildrenOf(b.outgoing, o))
  }

  /** A graph has one index, whatever set of lookup fields it was built with. */
  lemma {:induction false} WithinUnique(sc: Schema, g: Graph, a: Image, b: Image)
    requires MirrorsWithin(sc, g, a) && MirrorsWithin(sc, g, b)
    ensures SameWithin(a, b)
  {
    FieldsUnique(sc, g, a.fields, b.fields);
    OwnersUnique(sc, a.fields, a.owners, b.owners);
    forall lk: TargetKey | Searchable(a.targetFields, lk) && Searchable(b.targetFields, lk) ensures LookupIn(a.targets, lk) == LookupIn(b.targets, lk) {
      LookupResolves(g, a.targetFields, a.targets, lk);
      LookupResolves(g, b.targetFields, b.targets, lk);
    }
    forall o, c ensures c in ChildrenOf(a.outgoing, o) <==> c in ChildrenOf(b.outgoing, o) {
      assert c in ChildrenOf(a.outgoing, o) <==> OwnerOf(a.owners, c) == Some(o);
    }
  }

  /** Rebuild from the live rows and compare. */
  method CompareWithRebuild(index: CommittedIndex) returns (rebuilt: CommittedIndex)
    requires index.Valid() && Committed(index.sc, index.graph, index.Contents())
    ensures fresh(rebuilt) && rebuilt.Valid() && rebuilt.graph == index.graph
    ensures MirrorsWithin(index.sc, index.graph, rebuilt.Contents()) && SameWithin(index.Contents(), rebuilt.Contents())
  {
    hide *;
    IndexParts(index);
    CommittedMirrors(index.sc, index.graph, index.Contents());
    CommittedLegal(index.sc, index.graph, index.Contents());
    LegalIsBuildable(index.sc, index.graph);
    var nodes := CollectRelationNodes(index);
    var model := BuildRelationModel(index.sc, nodes);
    RowsAreAddresses(index);
    NothingDead(nodes, {});
    ExactIs(model.value);
    rebuilt := BuildCommittedRelationIndex(model.value, index.nodes, index.rows, {});
    WithinUnique(index.sc, index.graph, index.Contents(), rebuilt.Contents());
  }

  lemma {:induction false} CommittedMirrors(sc: Schema, g: Graph, ix: Image)
    requires Committed(sc, g, ix)
    ensures MirrorsWithin(sc, g, ix) && WellFormed(sc)
  {
  }

  /** A transaction: the rows its deletes leave of the proposed ones, with their exact fields, if it is legal; nothing otherwise. */
  ghost predicate Transacted(sc: Schema, a: State, resources: seq<Override>, creates: Graph, deletes: set<NodeKey>, closure: set<NodeKey>, b: State) {
    var h := Overlaid(a.graph, WorksOf(resources), creates);
    && (if deletes == {} then closure == {}
        else RowsFit(a.graph, resources, creates) && Buildable(sc, h) && deletes <= h.Keys ==> CascadesTo(sc, h, a.image.owners, deletes, closure))
    && (if TransactionLegal(sc, a, resources, creates, deletes, closure)
        then SameScalars(Survivors(h, closure), b.graph) && FieldsExact(sc, Survivors(h, closure), b.image.fields) && Steady(sc, b.graph, b.image)
        else b == a)
  }

  ghost predicate TransactionLegal(sc: Schema, a: State, resources: seq<Override>, creates: Graph, deletes: set<NodeKey>, closure: set<NodeKey>) {
    var h := Overlaid(a.graph, WorksOf(resources), creates);
    && RowsFit(a.graph, resources, creates)
    && (if deletes == {} then Legal(sc, h) && !KeyClash(sc, a.graph, a.image, resources, creates)
        else Accepted(sc, h, a.image.owners, deletes, closure))
  }

  /** A flush of deletes: the survivors of the least cascade, rebuilt unless a field was lost, if they may go; nothing otherwise. */
  ghost predicate FlushTook(sc: Schema, a: State, explicit: set<NodeKey>, closure: set<NodeKey>, lost: set<FieldKey>, b: State) {
    && (explicit <= a.graph.Keys ==> LeastClosure(a.graph, a.image.owners, a.image.owners, explicit, closure))
    && (forall fk :: fk in lost ==> Exposed(sc, a.image.fields, closure, fk))
    && (if Accepted(sc, a.graph, a.image.owners, explicit, closure)
        then RebuiltOver(sc, a.graph, closure, b.graph, b.image) <==> lost == {}
        else lost == {} && b == a)
  }

  /** What one step makes of a steady state. */
  ghost predicate Took(sc: Schema, a: State, step: Step, closure: set<NodeKey>, lost: set<FieldKey>, b: State) {
    match step
    case Transaction(resources, creates, deletes) => lost == {} && Transacted(sc, a, resources, creates, deletes, closure, b)
    case Flush(explicit) => FlushTook(sc, a, explicit, closure, lost, b)
  }

  /** One step. A steady state stays steady unless a flush by delta has lost a field; no row that stays moves. */
  method Take(index: CommittedIndex, committed: RelationModel?, step: Step, ghost before: State)
    returns (next: CommittedIndex, kept: RelationModel?, lost: set<FieldKey>, ghost closure: set<NodeKey>, ghost after: State)
    requires index.Valid() && Steady(index.sc, index.graph, index.Contents()) && (step.Transaction? ==> DistinctOverrides(step.resources))
    requires before == State(index.graph, index.Contents()) && (committed != null ==> Usable(index.sc, committed, index.graph))
    modifies index, index.rows
    ensures next.Valid() && next.sc == index.sc && fresh(next.rows - old(index.rows)) && (next == index || fresh(next))
    ensures kept != null ==> Usable(index.sc, kept, next.graph)
    ensures after == State(next.graph, next.Contents()) && Took(index.sc, before, step, closure, lost, after)
    ensures lost == {} ==> Steady(index.sc, next.graph, next.Contents())
    ensures forall k :: k in old(index.nodes) && k in next.nodes ==> next.nodes[k] == old(index.nodes)[k]
  {
    hide *;
    IndexParts(index);
    ghost var sc := index.sc;
    match step
    case Transaction(resources, creates, deletes) =>
      var published;
      published, next, kept, closure := CommitTransaction(index, committed, resources, creates, deletes);
      lost := {};
      after := State(next.graph, next.Contents());
      IndexParts(next);
      if deletes == {} {
        closure := {};
      }
      TransactionTook(sc, before, resources, creates, deletes, closure, published, after);
    case Flush(explicit) =>
      var flushed;
      flushed, next, closure, lost := FlushDeletes(index, explicit);
      kept := if flushed then null else committed;
      after := State(next.graph, next.Contents());
      FlushTaken(sc, before, explicit, closure, lost, flushed, after);
  }

  lemma {:induction false} TransactionTook(sc: Schema, a: State, resources: seq<Override>, creates: Graph, deletes: set<NodeKey>,
                                           closure: set<NodeKey>, published: bool, b: State)
    requires deletes == {} ==> closure == {}
    requires var h := Overlaid(a.graph, WorksOf(resources), creates);
             && (deletes == {} ==> (published <==> RowsFit(a.graph, resources, creates) && Legal(sc, h) && !KeyClash(sc, a.graph, a.image, resources, creates)))
             && (deletes != {} ==> (published <==> RowsFit(a.graph, resources, creates) && Accepted(sc, h, a.image.owners, deletes, closure)))
             && (published ==> SameScalars(Survivors(h, closure), b.graph) && FieldsExact(sc, Survivors(h, closure), b.image.fields))
             && (deletes != {} && RowsFit(a.graph, resources, creates) && Buildable(sc, h) && deletes <= h.Keys ==>
                   CascadesTo(sc, h, a.image.owners, deletes, closure))
    requires Steady(sc, b.graph, b.image) && (!published ==> b == a)
    ensures Took(sc, a, Transaction(resources, creates, deletes), closure, {}, b)
  {
    hide SameScalars, FieldsExact, Steady, Buildable, RowsFit, CascadesTo, Legal, KeyClash, Accepted, Overlaid, Survivors, WorksOf;
  }

  lemma {:induction false} FlushTaken(sc: Schema, a: State, explicit: set<NodeKey>, closure: set<NodeKey>, lost: set<FieldKey>, flushed: bool, b: State)
    requires explicit <= a.graph.Keys ==> LeastClosure(a.graph, a.image.owners, a.image.owners, explicit, closure)
    requires flushed <==> Accepted(sc, a.graph, a.image.owners, explicit, closure)
    requires flushed ==> (RebuiltOver(sc, a.graph, closure, b.graph, b.image) <==> lost == {})
    requires (forall fk :: fk in lost ==> Exposed(sc, a.image.fields, closure, fk)) && (!flushed ==> lost == {} && b == a)
    requires Steady(sc, a.graph, a.image)
    ensures Took(sc, a, Flush(explicit), closure, lost, b) && (lost == {} ==> Steady(sc, b.graph, b.image))
  {
    hide Accepted, Steady, LeastClosure, Exposed, SameScalars, FieldsExact;
  }

  /** The step went through without losing anything. */
  ghost predicate TookWhole(sc: Schema, a: State, step: Step, b: State) {
    exists closure :: Took(sc, a, step, closure, {}, b)
  }

  ghost predicate TookPart(sc: Schema, a: State, step: Step, lost: set<FieldKey>, b: State) {
    exists closure :: Took(sc, a, step, closure, lost, b)
  }

  lemma {:induction false} TookIs(sc: Schema, a: State, step: Step, closure: set<NodeKey>, lost: set<FieldKey>, b: State)
    requires Took(sc, a, step, closure, lost, b)
    ensures (lost == {} ==> TookWhole(sc, a, step, b)) && TookPart(sc, a, step, lost, b) && (lost != {} ==> step.Flush?)
  {
    hide Transacted, FlushTook;
  }

  /** The rebuild is an index of the state's rows, and no different from the published one. */
  ghost predicate ConfirmedWithin(sc: Schema, s: State, rebuilt: Image) {
    MirrorsWithin(sc, s.graph, rebuilt) && SameWithin(s.image, rebuilt)
  }

  lemma {:induction false} ConfirmedWithinIs(sc: Schema, s: State, rebuilt: Image)
    ensures ConfirmedWithin(sc, s, rebuilt) <==> MirrorsWithin(sc, s.graph, rebuilt) && SameWithin(s.image, rebuilt)
  {
  }

  /** Any run: up to the first flush that loses a field, and to its end if none does, every step does exactly what it should and the index is
      after it what a rebuild from the live rows gives. */
  method DifferentialMix(index: CommittedIndex, committed: RelationModel?, steps: seq<Step>)
    returns (last: CommittedIndex, kept: RelationModel?, ghost states: seq<State>, ghost rebuilds: seq<Image>, lost: set<FieldKey>)
    requires index.Valid() && Steady(index.sc, index.graph, index.Contents())
    requires committed != null ==> Usable(index.sc, committed, index.graph)
    requires forall i :: 0 <= i < |steps| && steps[i].Transaction? ==> DistinctOverrides(steps[i].resources)
    modifies index, index.rows
    ensures |states| == |rebuilds| + 1 <= |steps| + 1 && states[0] == State(old(index.graph), old(index.Contents()))
    ensures forall i :: 0 <= i < |rebuilds| ==> TookWhole(index.sc, states[i], steps[i], states[i + 1])
    ensures forall i :: 0 <= i < |rebuilds| ==> ConfirmedWithin(index.sc, states[i + 1], rebuilds[i])
    ensures last.Valid()
    ensures if lost == {}
            then |rebuilds| == |steps| && states[|steps|] == State(last.graph, last.Contents()) && Steady(index.sc, last.graph, last.Contents())
                 && (kept != null ==> Usable(index.sc, kept, last.graph))
            else |rebuilds| < |steps| && steps[|rebuilds|].Flush?
                 && TookPart(index.sc, states[|rebuilds|], steps[|rebuilds|], lost, State(last.graph, last.Contents()))
  {
    hide *;
    ghost var now := State(index.graph, index.Contents());
    last, kept, states, rebuilds, lost := index, committed, [now], [], {};
    var i := 0;
    while i < |steps|
      invariant 0 <= i <= |steps| && |rebuilds| == i && |states| == i + 1 && states[0] == State(old(index.graph), old(index.Contents()))
      invariant last.Valid() && last.sc == index.sc && Steady(index.sc, last.graph, last.Contents())
      invariant fresh(last.rows - old(index.rows)) && (last == index || fresh(last)) && lost == {}
      invariant kept != null ==> Usable(index.sc, kept, last.graph)
      invariant now == states[i] == State(last.graph, last.Contents())
      invariant forall j :: 0 <= j < i ==> TookWhole(index.sc, states[j], steps[j], states[j + 1])
      invariant forall j :: 0 <= j < i ==> ConfirmedWithin(index.sc, states[j + 1], rebuilds[j])
    {
      ghost var closure, next;
      last, kept, lost, closure, next := Take(last, kept, steps[i], now);
      TookIs(index.sc, now, steps[i], closure, lost, next);
      if lost != {} {
        return;
      }
      SteadyParts(index.sc, last.graph, last.Contents());
      var rebuilt := CompareWithRebuild(last);
      ConfirmedWithinIs(index.sc, next, rebuilt.Contents());
      states, rebuilds, now := states + [next], rebuilds + [rebuilt.Contents()], next;
      i := i + 1;
    }
  }
}
