/** The full path of a commit: validate the whole proposed graph, write the rows, wire every relation and every view, and rebuild the
    index. It takes whatever the delta leaves to it and ends in the same kind of state. */
module RelationFallbacks {
  import opened RelationSchema
  import opened Ordering
  import opened OwnershipForest
  import opened OwnershipWalks
  import opened RelationGraph
  import opened RelationScan
  import opened RelationModels
  import opened RelationFieldDeltas
  import opened RelationIndexes
  import opened RelationOverlays
  import opened RelationDeltas
  import opened RelationIndexDeltas
  import opened RelationRewiring
  import opened RelationPublishing
  import opened RelationSurvivors
  import opened RelationDeletions
  import opened RelationDeleteDelta
  import opened RelationRebuilds
  import opened RelationRescans
  import opened RelationTransactions
  import opened RelationRuns

  // ---------------------------------------------------------------- publishing a validated model

  /** Every field with its targets. */
  method ListFields(fields: Fields) returns (values: seq<FieldDelta>)
    ensures AsFields(values) == fields && forall i :: 0 <= i < |values| ==> values[i].key in fields
  {
    values := [];
    var rest := fields.Keys;
    NoFieldsListed(fields);
    while rest != {}
      invariant rest <= fields.Keys && AsFields(values) == fields - rest
      invariant forall i :: 0 <= i < |values| ==> values[i].key in fields
      decreases |rest|
    {
      var fk :| fk in rest;
      ListedNext(fields, rest, values, fk);
      values := values + [FieldDelta(fk, fields[fk])];
      rest := rest - {fk};
    }
    assert fields - rest == fields;
  }

  lemma {:induction false} NoFieldsListed(fields: Fields)
    ensures AsFields([]) == map[] && fields - fields.Keys == map[]
  {
  }

  lemma {:induction false} ListedNext(fields: Fields, rest: set<FieldKey>, values: seq<FieldDelta>, fk: FieldKey)
    requires AsFields(values) == fields - rest && fk in rest && fk in fields
    ensures AsFields(values + [FieldDelta(fk, fields[fk])]) == fields - (rest - {fk})
  {
    var longer := values + [FieldDelta(fk, fields[fk])];
    assert longer[..|values|] == values;
    assert (fields - rest)[fk := fields[fk]] == fields - (rest - {fk});
  }

  /** Wiring every field and recomputing every view settles the surviving graph. */
  lemma {:induction false} RebuiltSteady(sc: Schema, s: Graph, ix: Image, w: Graph, after: Graph)
    requires WellFormed(sc) && LegalRefs(sc, s) && MirrorsWithin(sc, s, ix) && ForestLegal(sc, ix.fields, ix.owners)
    requires Covers(sc, s, ix.targetFields)
    requires Wired(sc, s, ix.fields, w) && Viewed(sc, ix.fields, w, w.Keys, after)
    ensures Steady(sc, after, ix) && SameScalars(s, after)
  {
    hide *;
    WithinParts(sc, s, ix);
    WiredMeans(sc, s, ix.fields, ix.fields, w);
    WiredKeeps(sc, s, ix.fields, w);
    ViewedMeans(sc, ix.fields, w, w.Keys, after);
    SameTargetIndex(s, w, ix.targetFields, ix.targets);
    SameTargetIndex(w, after, ix.targetFields, ix.targets);
    SameNodesCovered(sc, s, w, after, ix.targetFields);
    NothingLeftDangling(sc, s, ix.fields, w, after);
    AllViewsExact(sc, ix.fields, w, after);
    SteadyMade(sc, after, ix);
  }

  lemma {:induction false} WithinParts(sc: Schema, g: Graph, ix: Image)
    requires MirrorsWithin(sc, g, ix)
    ensures TargetIndexExact(g, ix.targetFields, ix.targets) && FieldsExact(sc, g, ix.fields)
    ensures Transposed(ix.fields, ix.counts) && OutgoingExact(ix.owners, ix.outgoing)
  {
  }

  lemma {:induction false} WiredKeeps(sc: Schema, s: Graph, patch: Fields, w: Graph)
    requires Wired(sc, s, patch, w)
    ensures SameScalars(s, w)
  {
  }

  lemma {:induction false} SameNodesCovered(sc: Schema, s: Graph, w: Graph, after: Graph, tf: TargetFields)
    requires SameScalars(s, w) && SameScalars(w, after) && Covers(sc, s, tf)
    ensures Covers(sc, after, tf) && SameScalars(s, after)
  {
    forall fk | HasField(sc, after, fk) ensures HasField(sc, s, fk) {
    }
    hide HasField, Searchable;
  }

  lemma {:induction false} NothingLeftDangling(sc: Schema, s: Graph, fields: Fields, w: Graph, after: Graph)
    requires FieldsExact(sc, s, fields)
    requires forall fk, lk, i :: DanglesAt(sc, w, fk, lk, i) ==> DanglesUntouched(sc, s, fields, fk, lk, i)
    requires forall fk, lk, i :: DanglesAt(sc, after, fk, lk, i) ==> DanglesAt(sc, w, fk, lk, i)
    ensures NothingDangles(sc, after)
  {
    hide TargetsAt, Resolve, Refs;
    forall fk, lk, i ensures !DanglesUntouched(sc, s, fields, fk, lk, i) {
    }
    hide DanglesAt, DanglesUntouched;
  }

  lemma {:induction false} AllViewsExact(sc: Schema, fields: Fields, w: Graph, after: Graph)
    requires Viewed(sc, fields, w, w.Keys, after)
    ensures ViewsExact(sc, after, fields)
  {
    hide ViewExact, Ascending;
  }

  /** Delete the closure, wire what survives and rebuild the index over it. The rows hold the validated graph already. */
  method PublishRebuild(index: CommittedIndex, model: RelationModel, closure: set<NodeKey>) returns (next: CommittedIndex)
    requires index.RowsValid() && model.Sound() && model.nodes == index.graph && Legal(model.sc, Survivors(index.graph, closure))
    modifies index.rows
    ensures fresh(next) && next.Valid() && next.sc == model.sc && next.rows == index.rows && next.nodes == index.nodes - closure
    ensures Steady(model.sc, next.graph, next.Contents()) && SameScalars(Survivors(index.graph, closure), next.graph)
    ensures FieldsExact(model.sc, Survivors(index.graph, closure), next.fields)
  {
    hide *;
    ghost var sc, s := model.sc, Survivors(index.graph, closure);
    ModelCovers(model, closure);
    LegalParts(sc, s);
    AddressesHold(index);
    next := BuildCommittedRelationIndex(model, index.nodes, index.rows, closure);
    ghost var ix := next.Contents();
    IndexParts(next);
    WithinParts(sc, s, ix);
    SurvivingNodes(index, model, closure, next);
    var values := ListFields(next.fields);
    FieldsHeld(sc, s, ix.fields, values);
    RewireLinks(next, values);
    ghost var w := next.graph;
    NodesLive(next);
    RewireViews(next, next.nodes.Keys);
    IndexWhole(next);
    RebuiltSteady(sc, s, ix, w, next.graph);
  }

  lemma {:induction false} AddressesHold(index: CommittedIndex)
    requires index.RowsValid()
    ensures AddressesOf(index.nodes, index.rows, index.graph)
  {
  }

  lemma {:induction false} ModelCovers(model: RelationModel, closure: set<NodeKey>)
    requires model.Sound()
    ensures WellFormed(model.sc) && Covers(model.sc, Survivors(model.nodes, closure), model.targetFields)
  {
    forall fk | HasField(model.sc, Survivors(model.nodes, closure), fk) ensures HasField(model.sc, model.nodes, fk) {
    }
    hide HasField, Searchable;
  }

  lemma {:induction false} SurvivingNodes(index: CommittedIndex, model: RelationModel, closure: set<NodeKey>, next: CommittedIndex)
    requires index.RowsValid() && next.RowsValid() && model.nodes == index.graph && next.graph == Survivors(index.graph, closure)
    requires KeepsAddresses(next.nodes, index.nodes)
    ensures next.nodes == index.nodes - closure
  {
  }

  lemma {:induction false} FieldsHeld(sc: Schema, s: Graph, fields: Fields, values: seq<FieldDelta>)
    requires FieldsExact(sc, s, fields) && forall i :: 0 <= i < |values| ==> values[i].key in fields
    ensures forall i :: 0 <= i < |values| ==> HasField(sc, s, values[i].key)
  {
  }

  // ---------------------------------------------------------------- the full path of a commit

  /** The rows a commit rewrites are live and the ones it creates are not. */
  predicate RowsFit(g: Graph, resources: seq<Override>, creates: Graph) {
    (forall i :: 0 <= i < |resources| ==> resources[i].key in g) && creates.Keys !! g.Keys
  }

  ghost predicate AcceptedWith(sc: Schema, h: Graph, committed: Owners, deletes: set<NodeKey>, closure: set<NodeKey>, fields: Fields, owners: Owners) {
    && FieldsExact(sc, h, fields) && ForestLegal(sc, fields, owners)
    && LeastClosure(h, owners, committed, deletes, closure) && !BorrowsDoomed(sc, fields, closure)
  }

  /** What the full validator takes: a graph that can be scanned and owned, known deletes, and after the least cascade a legal graph
      of survivors none of which borrows a doomed node. */
  ghost predicate Accepted(sc: Schema, h: Graph, committed: Owners, deletes: set<NodeKey>, closure: set<NodeKey>) {
    && (forall fk :: !Unscannable(sc, h, fk)) && deletes <= h.Keys && Legal(sc, Survivors(h, closure))
    && exists fields, owners :: AcceptedWith(sc, h, committed, deletes, closure, fields, owners)
  }

  /** `closure` is the least cascade of the deletes over the proposed owners and the committed ones. */
  ghost predicate CascadesTo(sc: Schema, h: Graph, committed: Owners, deletes: set<NodeKey>, closure: set<NodeKey>) {
    exists fields, owners :: CascadesWith(sc, h, committed, deletes, closure, fields, owners)
  }

  ghost predicate CascadesWith(sc: Schema, h: Graph, committed: Owners, deletes: set<NodeKey>, closure: set<NodeKey>, fields: Fields, owners: Owners) {
    FieldsExact(sc, h, fields) && ForestLegal(sc, fields, owners) && LeastClosure(h, owners, committed, deletes, closure)
  }

  lemma {:induction false} ModelCascades(model: RelationModel, committed: Owners, deletes: set<NodeKey>, closure: set<NodeKey>)
    requires model.Sound() && LeastClosure(model.nodes, model.owners, committed, deletes, closure)
    ensures CascadesTo(model.sc, model.nodes, committed, deletes, closure)
  {
    ModelIs(model);
    hide FieldsExact, ForestLegal, LeastClosure;
    assert CascadesWith(model.sc, model.nodes, committed, deletes, closure, model.fields, model.owners);
  }

  lemma {:induction false} AcceptedModel(model: RelationModel, committed: Owners, deletes: set<NodeKey>, closure: set<NodeKey>)
    requires model.Sound()
    requires deletes <= model.nodes.Keys ==> LeastClosure(model.nodes, model.owners, committed, deletes, closure)
    ensures Accepted(model.sc, model.nodes, committed, deletes, closure) <==>
            deletes <= model.nodes.Keys && !BorrowsDoomed(model.sc, model.fields, closure) && Legal(model.sc, Survivors(model.nodes, closure))
  {
    ModelIs(model);
    hide Unscannable, Legal, FieldsExact, ForestLegal, LeastClosure, BorrowsDoomed;
    if deletes <= model.nodes.Keys && !BorrowsDoomed(model.sc, model.fields, closure) {
      assert AcceptedWith(model.sc, model.nodes, committed, deletes, closure, model.fields, model.owners);
    }
    if fields, owners :| AcceptedWith(model.sc, model.nodes, committed, deletes, closure, fields, owners) {
      FieldsUnique(model.sc, model.nodes, fields, model.fields);
    }
  }

  lemma {:induction false} ModelIs(model: RelationModel)
    requires model.Sound()
    ensures FieldsExact(model.sc, model.nodes, model.fields) && ForestLegal(model.sc, model.fields, model.owners)
    ensures forall fk :: !Unscannable(model.sc, model.nodes, fk)
  {
  }

  lemma {:induction false} UnbuildableRefused(sc: Schema, h: Graph, committed: Owners, deletes: set<NodeKey>, closure: set<NodeKey>)
    requires !Buildable(sc, h)
    ensures !Accepted(sc, h, committed, deletes, closure)
  {
    hide Unscannable, Legal, FieldsExact, ForestLegal, LeastClosure, BorrowsDoomed;
  }

  /** The validated model stays, now over the live rows: its nodes are those rows, so it speaks of whatever the wiring made of them. */
  method KeepModel(model: RelationModel, index: CommittedIndex) returns (kept: RelationModel)
    requires index.RowsValid()
    ensures fresh(kept) && kept.sc == model.sc && kept.nodes == index.graph && kept.targets == model.targets
    ensures kept.targetFields == model.targetFields && kept.refs == model.refs && kept.unresolved == model.unresolved
    ensures kept.missing == model.missing && kept.owners == model.owners && kept.outgoing == model.outgoing && kept.fields == model.fields
  {
    hide *;
    var nodes := CollectRelationNodes(index);
    kept := new RelationModel(model.sc, nodes, model.targets, model.targetFields);
    kept.refs, kept.unresolved, kept.missing := model.refs, model.unresolved, model.missing;
    kept.owners, kept.outgoing, kept.fields := model.owners, model.outgoing, model.fields;
  }

  lemma {:induction false} SameLookups(sc: Schema, h: Graph, g: Graph, tf: TargetFields)
    requires SameScalars(h, g) && TargetFieldsExact(sc, h, tf)
    ensures TargetFieldsExact(sc, g, tf)
  {
    forall fk, lk ensures LooksUp(sc, g, fk, lk) <==> LooksUp(sc, h, fk, lk) {
    }
    hide LooksUp, Searchable;
  }

  /** After a publication without deletes the kept model can be used by the next transaction, stale leftovers and all. */
  lemma {:induction false} KeptUsable(sc: Schema, h: Graph, model: RelationModel, kept: RelationModel, g: Graph, ix: Image)
    requires model.Sound() && model.sc == sc && model.nodes == h && model.missing == [] && TargetFieldsExact(sc, h, model.targetFields)
    requires LeftoversNamed(model.fields, model.unresolved)
    requires Steady(sc, g, ix) && SameScalars(h, g) && FieldsExact(sc, h, ix.fields)
    requires kept.sc == sc && kept.nodes == g && kept.targets == model.targets && kept.targetFields == model.targetFields
    requires kept.refs == model.refs && kept.unresolved == model.unresolved && kept.missing == model.missing
    requires kept.owners == model.owners && kept.outgoing == model.outgoing && kept.fields == model.fields
    ensures Usable(sc, kept, g)
  {
    hide *;
    SoundAll(model);
    SteadyParts(sc, g, ix);
    CommittedParts(sc, g, ix);
    CommittedIsLegal(sc, g, ix);
    LegalLacksNothing(sc, g);
    FieldsUnique(sc, h, ix.fields, model.fields);
    SameTargetIndex(h, g, model.targetFields, model.targets);
    SameLookups(sc, h, g, model.targetFields);
    ExactCovers(sc, g, model.targetFields);
    UsableMade(sc, kept, g);
  }

  lemma {:induction false} SoundAll(model: RelationModel)
    requires model.Sound()
    ensures WellFormed(model.sc) && TargetIndexExact(model.nodes, model.targetFields, model.targets)
    ensures FieldsExact(model.sc, model.nodes, model.fields) && RefsMatch(model.fields, model.refs)
    ensures ForestLegal(model.sc, model.fields, model.owners) && OutgoingExact(model.owners, model.outgoing)
  {
    assert model.Grounded();
  }

  lemma {:induction false} UsableMade(sc: Schema, kept: RelationModel, g: Graph)
    requires kept.sc == sc && kept.nodes == g && kept.missing == [] && LeftoversNamed(kept.fields, kept.unresolved)
    requires WellFormed(sc) && Covers(sc, g, kept.targetFields) && TargetIndexExact(g, kept.targetFields, kept.targets)
    requires TargetFieldsExact(sc, g, kept.targetFields) && FieldsExact(sc, g, kept.fields) && RefsMatch(kept.fields, kept.refs)
    requires ForestLegal(sc, kept.fields, kept.owners) && OutgoingExact(kept.owners, kept.outgoing)
    requires forall fk :: !Unscannable(sc, g, fk) && !Lacks(sc, g, fk)
    ensures Usable(sc, kept, g)
  {
    hide WellFormed, Covers, TargetIndexExact, TargetFieldsExact, FieldsExact, RefsMatch, ForestLegal, OutgoingExact, Unscannable, Lacks, LeftoversNamed;
  }

  /** Validate everything, then write, delete, wire and rebuild. Without deletes the validated model is kept for the next transaction. */
  method CommitFull(index: CommittedIndex, committed: RelationModel?, resources: seq<Override>, creates: Graph, deletes: set<NodeKey>)
    returns (published: bool, next: CommittedIndex, kept: RelationModel?, ghost closure: set<NodeKey>)
    requires index.Valid() && WellFormed(index.sc) && OutgoingExact(index.owners, index.outgoing)
    requires committed != null ==> Usable(index.sc, committed, index.graph)
    requires RowsFit(index.graph, resources, creates) ==> MissesNobody(index.sc, committed, index.graph, WorksOf(resources), creates)
    modifies index, index.rows
    ensures var h := Overlaid(old(index.graph), WorksOf(resources), creates);
            && (published <==> RowsFit(old(index.graph), resources, creates) && Accepted(index.sc, h, old(index.owners), deletes, closure))
            && (published ==> Steady(index.sc, next.graph, next.Contents()) && SameScalars(Survivors(h, closure), next.graph)
                              && FieldsExact(index.sc, Survivors(h, closure), next.fields))
    ensures var h := Overlaid(old(index.graph), WorksOf(resources), creates);
            RowsFit(old(index.graph), resources, creates) && Buildable(index.sc, h) && deletes <= h.Keys ==>
              CascadesTo(index.sc, h, old(index.owners), deletes, closure)
    ensures published ==> fresh(next) && next.sc == index.sc
    ensures next.Valid() && fresh(next.rows - old(index.rows))
    ensures !published ==> next == index && index.graph == old(index.graph) && index.Contents() == old(index.Contents()) && index.nodes == old(index.nodes)
    ensures forall k :: k in old(index.nodes) && k in next.nodes ==> next.nodes[k] == old(index.nodes)[k]
    ensures if !published then kept == committed
            else if deletes != {} then kept == null
            else kept != null && Usable(index.sc, kept, next.graph)
                 && LeftoversOf(index.sc, committed, old(index.graph), WorksOf(resources), creates, kept.unresolved)
  {
    hide *;
    closure, kept := {}, committed;
    IndexParts(index);
    var g := CollectRelationNodes(index);
    var works := WorksOf(resources);
    ghost var sc, h, committedOwners := index.sc, Overlaid(g, works, creates), index.owners;
    if !RowsFit(g, resources, creates) {
      return false, index, kept, closure;
    }
    FitParts(g, resources, creates);
    var model: RelationModel?;
    var r;
    model, r, closure := ValidateTransactionGraph(index.sc, committed, index.outgoing, index.owners, g, works, creates, deletes);
    if model != null && deletes <= model.nodes.Keys {
      ModelCascades(model, index.owners, deletes, closure);
    }
    if r.Err? {
      if model != null {
        AcceptedModel(model, index.owners, deletes, closure);
      } else {
        UnbuildableRefused(sc, h, index.owners, deletes, closure);
      }
      return false, index, kept, closure;
    }
    AcceptedModel(model, index.owners, deletes, closure);
    if deletes == {} {
      NoDeletesNoClosure(h, model.owners, committedOwners, closure);
      NothingMissing(model);
    }
    published := true;
    next, kept := WriteAndPublish(index, model, resources, creates, deletes, r.value, g, h);
  }

  /** Write the rows, rebuild the index over what survives of them, and keep the model if nothing was deleted. */
  method WriteAndPublish(index: CommittedIndex, model: RelationModel, resources: seq<Override>, creates: Graph, deletes: set<NodeKey>,
                         closure: set<NodeKey>, ghost g: Graph, ghost h: Graph) returns (next: CommittedIndex, kept: RelationModel?)
    requires index.Valid() && index.graph == g && RowsFit(g, resources, creates) && h == Overlaid(g, WorksOf(resources), creates)
    requires model.Sound() && model.nodes == h && TargetFieldsExact(model.sc, h, model.targetFields) && LeftoversNamed(model.fields, model.unresolved)
    requires Legal(model.sc, Survivors(h, closure)) && (deletes == {} ==> closure == {} && model.missing == [])
    modifies index, index.rows
    ensures fresh(next) && next.Valid() && next.sc == model.sc && fresh(next.rows - old(index.rows))
    ensures Steady(model.sc, next.graph, next.Contents()) && SameScalars(Survivors(h, closure), next.graph)
    ensures FieldsExact(model.sc, Survivors(h, closure), next.fields)
    ensures forall k :: k in old(index.nodes) && k in next.nodes ==> next.nodes[k] == old(index.nodes)[k]
    ensures if deletes != {} then kept == null else kept != null && Usable(model.sc, kept, next.graph) && kept.unresolved == model.unresolved
  {
    hide *;
    ghost var nodes0 := index.nodes;
    WriteAll(index, resources, creates, g, WorksOf(resources), h);
    ghost var written := index.nodes;
    IndexParts(index);
    next := PublishRebuild(index, model, closure);
    StaysPut(nodes0, written, next.nodes);
    kept := null;
    if deletes == {} {
      NothingDead(h, {});
      IndexParts(next);
      kept := KeepModel(model, next);
      KeptUsable(model.sc, h, model, kept, next.graph, next.Contents());
    }
  }

  lemma {:induction false} NothingMissing(model: RelationModel)
    requires forall fk :: fk in model.missing ==> fk.holder in {}
    ensures model.missing == []
  {
    FirstListed(model.missing);
  }

  lemma {:induction false} FirstListed<T>(s: seq<T>)
    ensures s != [] ==> s[0] in s
  {
  }

  /** Write the proposed rows in place and give the new ones addresses. */
  method WriteAll(index: CommittedIndex, resources: seq<Override>, creates: Graph, ghost g: Graph, ghost works: Graph, ghost h: Graph)
    requires index.Valid() && index.graph == g && works == WorksOf(resources) && RowsFit(g, resources, creates) && h == Overlaid(g, works, creates)
    modifies index, index.rows
    ensures index.Valid() && index.graph == h && KeepsAddresses(old(index.nodes), index.nodes)
    ensures fresh(index.rows - old(index.rows))
  {
    hide *;
    IndexParts(index);
    FitParts(g, resources, creates);
    NodesLive(index);
    ResourcesKnown(index, resources);
    ApplyWrites(index, resources);
    NewRowsFresh(g, works, creates);
    ApplyCreates(index, creates);
    OverlaidIs(g, works, creates);
    IndexWhole(index);
  }

  lemma {:induction false} FitParts(g: Graph, resources: seq<Override>, creates: Graph)
    requires RowsFit(g, resources, creates)
    ensures WorksOf(resources).Keys <= g.Keys && creates.Keys !! g.Keys && forall i :: 0 <= i < |resources| ==> resources[i].key in g
  {
    forall k | k in WorksOf(resources) ensures k in g {
      WorksFrom(resources, k);
    }
  }

  lemma {:induction false} ResourcesKnown(index: CommittedIndex, resources: seq<Override>)
    requires index.RowsValid() && forall i :: 0 <= i < |resources| ==> resources[i].key in index.graph
    ensures forall i :: 0 <= i < |resources| ==> resources[i].key in index.nodes
  {
  }

  lemma {:induction false} StaysPut(a: map<NodeKey, LiveRow>, b: map<NodeKey, LiveRow>, c: map<NodeKey, LiveRow>)
    requires KeepsAddresses(a, b) && c.Keys <= b.Keys && forall k :: k in c ==> c[k] == b[k]
    ensures forall k :: k in a && k in c ==> c[k] == a[k]
  {
  }

  // ---------------------------------------------------------------- a whole commit

  lemma {:induction false} NothingDeleted(sc: Schema, h: Graph, committed: Owners, closure: set<NodeKey>)
    ensures Accepted(sc, h, committed, {}, closure) ==> closure == {} && Legal(sc, h)
    ensures Legal(sc, h) && CascadesTo(sc, h, committed, {}, closure) ==> Accepted(sc, h, committed, {}, closure)
  {
    assert Survivors(h, {}) == h;
    if fields, owners :| CascadesWith(sc, h, committed, {}, closure, fields, owners) {
      NoDeletesNoClosure(h, owners, committed, closure);
      if Legal(sc, h) {
        LegalIsBuildable(sc, h);
        assert !BorrowsDoomed(sc, fields, {});
        hide LeastClosure, Legal, Unscannable, FieldsExact, ForestLegal, Buildable, BorrowsDoomed;
        assert AcceptedWith(sc, h, committed, {}, closure, fields, owners);
      }
    }
    if fields, owners :| AcceptedWith(sc, h, committed, {}, closure, fields, owners) {
      NoDeletesNoClosure(h, owners, committed, closure);
    }
  }

  lemma {:induction false} NoDeletesNoClosure(h: Graph, owners: Owners, committed: Owners, closure: set<NodeKey>)
    requires LeastClosure(h, owners, committed, {}, closure)
    ensures closure == {}
  {
    assert CascadeClosed(h, owners, committed, {});
  }

  /** One commit, whichever way it goes: the delta where it is built, the full path where it is not supported, an error where the delta
      refuses. Deletes always take the full path. */
  method CommitTransaction(index: CommittedIndex, committed: RelationModel?, resources: seq<Override>, creates: Graph, deletes: set<NodeKey>)
    returns (published: bool, next: CommittedIndex, kept: RelationModel?, ghost closure: set<NodeKey>)
    requires index.Valid() && Steady(index.sc, index.graph, index.Contents()) && DistinctOverrides(resources)
    requires committed != null ==> Usable(index.sc, committed, index.graph)
    modifies index, index.rows
    ensures var h := Overlaid(old(index.graph), WorksOf(resources), creates);
            && (deletes == {} ==>
                  (published <==> && RowsFit(old(index.graph), resources, creates) && Legal(index.sc, h)
                                  && !KeyClash(index.sc, old(index.graph), old(index.Contents()), resources, creates)))
            && (deletes != {} ==>
                  (published <==> RowsFit(old(index.graph), resources, creates) && Accepted(index.sc, h, old(index.owners), deletes, closure)))
            && (published ==> SameScalars(Survivors(h, closure), next.graph) && FieldsExact(index.sc, Survivors(h, closure), next.fields))
            && (deletes == {} && published ==> closure == {})
            && (deletes != {} && RowsFit(old(index.graph), resources, creates) && Buildable(index.sc, h) && deletes <= h.Keys ==>
                  CascadesTo(index.sc, h, old(index.owners), deletes, closure))
    ensures next.Valid() && next.sc == index.sc && Steady(index.sc, next.graph, next.Contents()) && fresh(next.rows - old(index.rows))
    ensures next == index || fresh(next)
    ensures !published ==> next == index && index.graph == old(index.graph) && index.Contents() == old(index.Contents()) && index.nodes == old(index.nodes)
    ensures forall k :: k in old(index.nodes) && k in next.nodes ==> next.nodes[k] == old(index.nodes)[k]
    ensures !published ==> kept == committed
    ensures kept != null ==> Usable(index.sc, kept, next.graph)
    ensures published && kept != null ==> LeftoversOf(index.sc, committed, old(index.graph), WorksOf(resources), creates, kept.unresolved)
    ensures published && deletes == {} ==> (kept == null <==> CommitLegal(index.sc, old(index.graph), old(index.Contents()), resources, creates))
  {
    hide *;
    ghost var sc, g, ix, works := index.sc, index.graph, index.Contents(), WorksOf(resources);
    ghost var h := Overlaid(g, works, creates);
    closure, kept := {}, committed;
    SteadyParts(sc, g, ix);
    CommittedParts(sc, g, ix);
    IndexParts(index);
    NothingDead(h, {});
    if deletes == {} {
      var outcome: Outcome;
      ghost var overrides, scans;
      SameItself(g);
      CommitExact(sc, g, ix, resources, creates);
      outcome, overrides, scans := BuildRelationIndexDelta(index, resources, creates, g);
      if outcome.Built? {
        SoundAccepts(sc, g, ix, resources, creates, outcome.delta);
        ghost var nodes0 := index.nodes;
        DeltaCreates(sc, g, ix, works, creates, outcome.delta);
        SettledWaitsForNobody(sc, g, works, creates);
        AcceptedIsLegal(sc, g, ix, works, creates, outcome.delta);
        ProposalFits(sc, ix.targetFields, g, resources, creates);
        CommitIndexDelta(index, resources, outcome.delta);
        KeptAt(nodes0, index.nodes);
        return true, index, null, closure;
      }
      if outcome.Refused? {
        RefusalDeserved(sc, g, ix, resources, creates);
        return false, index, kept, closure;
      }
    }
    SteadyMissesNobody(sc, committed, g, works, creates);
    published, next, kept, closure := CommitFull(index, committed, resources, creates, deletes);
    if deletes == {} {
      NothingDeleted(sc, h, ix.owners, closure);
      LegalIsBuildable(sc, h);
    }
  }

  /** Nothing dangles in a steady state, so nobody waits. */
  lemma {:induction false} SteadyMissesNobody(sc: Schema, committed: RelationModel?, g: Graph, works: Graph, creates: Graph)
    requires NothingDangles(sc, g)
    ensures MissesNobody(sc, committed, g, works, creates)
  {
    hide DanglesAt, KeysKept, KeysFresh;
    if Reusable(committed, g, works, creates) {
      NothingWaits(sc, g, works, creates, RescansOf(committed, g, works, creates));
    }
  }

  lemma {:induction false} ProposalFits(sc: Schema, tf: TargetFields, g: Graph, resources: seq<Override>, creates: Graph)
    requires Proposal(sc, tf, g, WorksOf(resources), creates)
    ensures RowsFit(g, resources, creates)
  {
    forall i | 0 <= i < |resources| ensures resources[i].key in g {
      assert resources[i].key in WorksOf(resources);
    }
  }

  lemma {:induction false} KeptAt(a: map<NodeKey, LiveRow>, b: map<NodeKey, LiveRow>)
    requires KeepsAddresses(a, b)
    ensures forall k :: k in a && k in b ==> b[k] == a[k]
  {
  }
}
