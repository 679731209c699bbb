/** Validating a transaction's graph: reuse the committed model where that is exact, rebuild it where it is not. */
module RelationTransactions {
  import opened RelationSchema
  import opened Wrappers
  import opened OwnershipForest
  import opened OwnershipWalks
  import opened RelationGraph
  import opened RelationScan
  import opened RelationModels
  import opened TargetIndexes
  import opened RelationOverlays
  import opened RelationSurvivors
  import opened RelationDeletions
  import opened RelationRescans
  import opened RelationModelDelta

  predicate HasType(nodes: Graph, typ: string) {
    exists k :: k in nodes && k.typ == typ
  }

  /** Some rewritten row changes a field it is looked up by. */
  method RelationTargetKeysChanged(works: Graph, live: Graph, tf: TargetFields) returns (changed: bool)
    requires works.Keys <= live.Keys
    ensures changed <==> !KeysKept(tf, live, works)
  {
    var rest := works.Keys;
    while rest != {}
      invariant rest <= works.Keys
      invariant forall k, field :: k in works.Keys - rest && k.typ in tf && field in tf[k.typ] ==> SameScalar(live[k], works[k], field)
      decreases |rest|
    {
      var key :| key in rest;
      if key.typ in tf && exists field :: field in tf[key.typ] && !SameScalar(live[key], works[key], field) {
        return true;
      }
      rest := rest - {key};
    }
    changed := false;
  }

  /** The node's lookup keys that are taken already. */
  predicate NodeTargetsOverlap(targets: TargetIndex, tf: TargetFields, key: NodeKey, row: Row) {
    key.typ in tf && exists field :: field in tf[key.typ] && field in row.scalars && TargetKey(key.typ, field, row.scalars[field]) in targets
  }

  /** No new row in `done` shares a lookup key with a live row or another new one. */
  ghost predicate FreshSoFar(tf: TargetFields, live: Graph, creates: Graph, done: set<NodeKey>) {
    forall k, j, lk :: k in done && Searchable(tf, lk) && Bears(creates, k, lk) ==>
      !Bears(live, j, lk) && (j in done && Bears(creates, j, lk) ==> j == k)
  }

  ghost predicate Partial(tf: TargetFields, nodes: Graph, done: set<NodeKey>, targets: TargetIndex) {
    IndexPartly(nodes, tf, done, NodeKey("", 0), {}, targets)
  }

  lemma {:induction false} LiveIndexed(tf: TargetFields, live: Graph, works: Graph, creates: Graph, targets: TargetIndex)
    requires KeysKept(tf, live, works) && creates.Keys !! live.Keys && TargetIndexExact(live, tf, targets)
    ensures Partial(tf, Overlaid(live, works, creates), live.Keys, targets)
  {
    var h := Overlaid(live, works, creates);
    forall k, lk | Searchable(tf, lk)
      ensures Indexed(h, live.Keys, NodeKey("", 0), {}, k, lk) <==> Bears(live, k, lk)
    {
      if k in works && k.typ == lk.typ {
        assert SameScalar(live[k], works[k], lk.field);
      }
    }
    hide Bears, Indexed;
    forall lk | lk in targets
      ensures targets[lk].duplicate <==> exists j :: j != targets[lk].key && Indexed(h, live.Keys, NodeKey("", 0), {}, j, lk)
    {
    }
  }

  lemma {:induction false} AllIndexed(tf: TargetFields, nodes: Graph, targets: TargetIndex)
    requires Partial(tf, nodes, nodes.Keys, targets)
    ensures TargetIndexExact(nodes, tf, targets)
  {
    forall k, lk ensures Indexed(nodes, nodes.Keys, NodeKey("", 0), {}, k, lk) <==> Bears(nodes, k, lk) {
    }
    hide Bears, Indexed;
  }

  lemma {:induction false} FreshStep(tf: TargetFields, live: Graph, works: Graph, creates: Graph, done: set<NodeKey>, key: NodeKey, targets: TargetIndex)
    requires KeysKept(tf, live, works) && creates.Keys !! live.Keys && done <= creates.Keys
    requires Partial(tf, Overlaid(live, works, creates), live.Keys + done, targets) && FreshSoFar(tf, live, creates, done)
    requires key in creates && key !in done && !NodeTargetsOverlap(targets, tf, key, creates[key])
    ensures FreshSoFar(tf, live, creates, done + {key})
  {
    var h := Overlaid(live, works, creates);
    forall lk, j | Searchable(tf, lk) && Bears(creates, key, lk) && (j in live || j in done) ensures !Bears(h, j, lk) {
      assert lk !in targets;
      assert Indexed(h, live.Keys + done, NodeKey("", 0), {}, j, lk) <==> Bears(h, j, lk);
    }
    forall k, j, lk | k in done + {key} && Searchable(tf, lk) && Bears(creates, k, lk)
      ensures !Bears(live, j, lk) && (j in done + {key} && Bears(creates, j, lk) ==> j == k)
    {
      if Bears(live, j, lk) {
        BearsLive(tf, live, works, creates, j, lk);
      }
      assert Bears(creates, j, lk) ==> Bears(h, j, lk);
    }
  }

  /** A taken lookup key is borne by a live row or by a new one indexed before. */
  lemma {:induction false} OverlapClashes(tf: TargetFields, live: Graph, works: Graph, creates: Graph, done: set<NodeKey>, key: NodeKey, targets: TargetIndex)
    requires KeysKept(tf, live, works) && creates.Keys !! live.Keys && done <= creates.Keys
    requires Partial(tf, Overlaid(live, works, creates), live.Keys + done, targets)
    requires key in creates && key !in done && NodeTargetsOverlap(targets, tf, key, creates[key])
    ensures !KeysFresh(tf, live, creates)
  {
    var h := Overlaid(live, works, creates);
    var field :| field in tf[key.typ] && field in creates[key].scalars && TargetKey(key.typ, field, creates[key].scalars[field]) in targets;
    var lk := TargetKey(key.typ, field, creates[key].scalars[field]);
    var j := targets[lk].key;
    assert Indexed(h, live.Keys + done, NodeKey("", 0), {}, j, lk);
    assert Bears(creates, key, lk) && Searchable(tf, lk);
    if j in done {
      assert Bears(creates, j, lk) && j != key;
    } else {
      if j in works {
        assert SameScalar(live[j], works[j], lk.field);
      }
      assert Bears(live, j, lk);
    }
  }

  lemma {:induction false} BearsLive(tf: TargetFields, live: Graph, works: Graph, creates: Graph, k: NodeKey, lk: TargetKey)
    requires KeysKept(tf, live, works) && creates.Keys !! live.Keys && Searchable(tf, lk) && Bears(live, k, lk)
    ensures Bears(Overlaid(live, works, creates), k, lk)
  {
    if k in works {
      assert SameScalar(live[k], works[k], lk.field);
    }
  }

  lemma {:induction false} FreshMeans(tf: TargetFields, live: Graph, creates: Graph)
    requires FreshSoFar(tf, live, creates, creates.Keys) && creates.Keys !! live.Keys
    ensures KeysFresh(tf, live, creates)
  {
  }

  /** The live nodes and the new ones indexed so far. */
  ghost function Covered(live: Graph, done: set<NodeKey>): set<NodeKey> {
    live.Keys + done
  }

  lemma {:induction false} CoveredGrows(live: Graph, done: set<NodeKey>, key: NodeKey)
    ensures Covered(live, done + {key}) == Covered(live, done) + {key}
    ensures key in Covered(live, done) <==> key in live || key in done
    ensures Covered(live, done) == live.Keys + done
  {
  }

  /** One new row: note a clash with what is indexed already, then index it. */
  method ExtendByNode(tf: TargetFields, targets0: TargetIndex, rebuild0: bool, nodes: Graph, creates: Graph,
                      ghost live: Graph, ghost works: Graph, ghost done: set<NodeKey>, key: NodeKey)
    returns (targets: TargetIndex, rebuild: bool)
    requires KeysKept(tf, live, works) && creates.Keys !! live.Keys && nodes == Overlaid(live, works, creates)
    requires key in creates && key !in done && done <= creates.Keys
    requires Partial(tf, nodes, Covered(live, done), targets0) && (!rebuild0 ==> FreshSoFar(tf, live, creates, done))
    ensures Partial(tf, nodes, Covered(live, done + {key}), targets)
    ensures !rebuild ==> FreshSoFar(tf, live, creates, done + {key})
    ensures rebuild ==> rebuild0 || !KeysFresh(tf, live, creates)
  {
    hide *;
    rebuild := rebuild0;
    ghost var covered := Covered(live, done);
    CoveredGrows(live, done, key);
    NewNode(live, works, creates, nodes, key);
    if NodeTargetsOverlap(targets0, tf, key, nodes[key]) {
      OverlapClashes(tf, live, works, creates, done, key, targets0);
      rebuild := true;
    } else if !rebuild {
      FreshStep(tf, live, works, creates, done, key, targets0);
    }
    PartialIs(tf, nodes, covered, targets0);
    targets := IndexRelationNodeTargets(nodes, tf, covered, targets0, key);
    PartialIs(tf, nodes, covered + {key}, targets);
  }

  /** The committed lookup index extended by the new rows; any clash asks for a rebuild. */
  method ExtendTargets(tf: TargetFields, targets0: TargetIndex, nodes: Graph, creates: Graph, ghost live: Graph, ghost works: Graph)
    returns (targets: TargetIndex, rebuild: bool)
    requires KeysKept(tf, live, works) && creates.Keys !! live.Keys && TargetIndexExact(live, tf, targets0)
    requires nodes == Overlaid(live, works, creates)
    ensures TargetIndexExact(nodes, tf, targets) && (rebuild <==> !KeysFresh(tf, live, creates))
  {
    hide *;
    targets, rebuild := targets0, false;
    var rest := creates.Keys;
    ghost var done: set<NodeKey> := {};
    LiveIndexed(tf, live, works, creates, targets);
    NothingFresh(tf, live, creates, nodes, targets);
    while rest != {}
      invariant rest <= creates.Keys && done == creates.Keys - rest
      invariant Partial(tf, nodes, Covered(live, done), targets)
      invariant !rebuild ==> FreshSoFar(tf, live, creates, done)
      invariant rebuild ==> !KeysFresh(tf, live, creates)
      decreases |rest|
    {
      var key :| key in rest;
      targets, rebuild := ExtendByNode(tf, targets, rebuild, nodes, creates, live, works, done, key);
      done, rest := done + {key}, rest - {key};
    }
    NodesAre(live, works, creates, nodes, tf, done, targets);
    if !rebuild {
      FreshMeans(tf, live, creates);
    }
  }

  lemma {:induction false} NothingFresh(tf: TargetFields, live: Graph, creates: Graph, nodes: Graph, targets: TargetIndex)
    requires Partial(tf, nodes, live.Keys, targets)
    ensures FreshSoFar(tf, live, creates, {}) && Partial(tf, nodes, Covered(live, {}), targets)
  {
    assert Covered(live, {}) == live.Keys;
  }

  lemma {:induction false} NewNode(live: Graph, works: Graph, creates: Graph, nodes: Graph, key: NodeKey)
    requires nodes == Overlaid(live, works, creates) && key in creates && creates.Keys !! live.Keys
    ensures key in nodes && nodes[key] == creates[key] && key !in live
  {
  }

  lemma {:induction false} NodesAre(live: Graph, works: Graph, creates: Graph, nodes: Graph, tf: TargetFields, done: set<NodeKey>, targets: TargetIndex)
    requires nodes == Overlaid(live, works, creates) && KeysKept(tf, live, works) && done == creates.Keys - {}
    requires Partial(tf, nodes, Covered(live, done), targets)
    ensures TargetIndexExact(nodes, tf, targets) && done == creates.Keys
  {
    assert done == creates.Keys && nodes.Keys == live.Keys + done;
    AllIndexed(tf, nodes, targets);
  }

  lemma {:induction false} PartialIs(tf: TargetFields, nodes: Graph, done: set<NodeKey>, targets: TargetIndex)
    ensures Partial(tf, nodes, done, targets) <==> IndexPartly(nodes, tf, done, NodeKey("", 0), {}, targets)
  {
  }

  // ---------------------------------------------------------------- the lookup fields

  /** New rows of types that are live already add no lookup field. */
  lemma {:induction false} SameLookupFields(sc: Schema, tf: TargetFields, live: Graph, works: Graph, creates: Graph)
    requires TargetFieldsExact(sc, live, tf) && works.Keys <= live.Keys && forall k :: k in creates ==> HasType(live, k.typ)
    ensures TargetFieldsExact(sc, Overlaid(live, works, creates), tf)
    ensures Covers(sc, live, tf) && Covers(sc, creates, tf) && Covers(sc, Overlaid(live, works, creates), tf)
  {
    var h := Overlaid(live, works, creates);
    forall fk, lk ensures LooksUp(sc, h, fk, lk) ==> Searchable(tf, lk)
      ensures LooksUp(sc, creates, fk, lk) ==> Searchable(tf, lk)
      ensures LooksUp(sc, live, fk, lk) ==> LooksUp(sc, h, fk, lk)
    {
      if LooksUp(sc, h, fk, lk) || LooksUp(sc, creates, fk, lk) {
        assert HasType(live, fk.holder.typ);
        var k :| k in live && k.typ == fk.holder.typ;
        assert LooksUp(sc, live, FieldKey(k, fk.field), lk);
      }
    }
    CoversFrom(sc, live, tf);
    CoversFrom(sc, creates, tf);
    CoversFrom(sc, h, tf);
    hide LooksUp;
    forall lk: TargetKey ensures Searchable(tf, lk) <==> exists fk :: LooksUp(sc, h, fk, lk) {
      assert Searchable(tf, lk) ==> exists fk :: LooksUp(sc, live, fk, lk);
    }
  }

  lemma {:induction false} CoversFrom(sc: Schema, g: Graph, tf: TargetFields)
    requires forall fk, lk :: LooksUp(sc, g, fk, lk) ==> Searchable(tf, lk)
    ensures Covers(sc, g, tf)
  {
    forall fk, v | HasField(sc, g, fk) ensures Searchable(tf, Lookup(SpecOf(sc, fk), v)) {
      assert LooksUp(sc, g, fk, Lookup(SpecOf(sc, fk), v));
    }
  }

  // ---------------------------------------------------------------- preparing and validating

  /** What the committed model promises a transaction. Its leftovers may be stale or incomplete. */
  ghost predicate Usable(sc: Schema, committed: RelationModel, live: Graph)
    reads committed
  {
    && committed.Sound() && committed.sc == sc && committed.nodes == live && committed.missing == []
    && LeftoversNamed(committed.fields, committed.unresolved) && TargetFieldsExact(sc, live, committed.targetFields)
  }

  datatype RelationState = RelationState(nodes: Graph, targets: TargetIndex, targetFields: TargetFields, rebuild: bool)

  /** There is a committed model, no new row brings a type, no rewritten row moves a lookup key, no new row's key is taken. */
  ghost predicate Reusable(committed: RelationModel?, live: Graph, works: Graph, creates: Graph)
    reads committed
  {
    && committed != null && (forall k :: k in creates ==> HasType(live, k.typ))
    && KeysKept(committed.targetFields, live, works) && KeysFresh(committed.targetFields, live, creates)
  }

  /** The overlaid nodes and their lookup index, recomputed unless extending the committed one is exact. */
  method PrepareTransactionRelationState(sc: Schema, committed: RelationModel?, live: Graph, works: Graph, creates: Graph)
    returns (state: RelationState)
    requires committed != null ==> Usable(sc, committed, live)
    requires works.Keys <= live.Keys && creates.Keys !! live.Keys
    ensures state.nodes == Overlaid(live, works, creates)
    ensures TargetFieldsExact(sc, state.nodes, state.targetFields) && TargetIndexExact(state.nodes, state.targetFields, state.targets)
    ensures state.rebuild <==> !Reusable(committed, live, works, creates)
    ensures !state.rebuild ==> committed != null && state.targetFields == committed.targetFields
                               && Rebased(committed, works, creates, state.nodes, state.targets)
  {
    var nodes := Overlaid(live, works, creates);
    if committed == null || exists key :: key in creates && !HasType(live, key.typ) {
      var fields := RelationTargetFields(sc, nodes);
      var built := BuildRelationTargetIndexFromFields(nodes, fields);
      return RelationState(nodes, built, fields, true);
    }
    hide *;
    var tf := committed.targetFields;
    UsableParts(sc, committed, live);
    TypesLive(live, creates);
    SameLookupFields(sc, tf, live, works, creates);
    var changed := RelationTargetKeysChanged(works, live, tf);
    if changed {
      var built := BuildRelationTargetIndexFromFields(nodes, tf);
      return RelationState(nodes, built, tf, true);
    }
    var targets, rebuild := ExtendTargets(tf, committed.targets, nodes, creates, live, works);
    state := RelationState(nodes, targets, tf, rebuild);
    if !rebuild {
      RebasedMade(sc, committed, live, works, creates, targets);
    }
  }

  lemma {:induction false} UsableParts(sc: Schema, committed: RelationModel, live: Graph)
    requires Usable(sc, committed, live)
    ensures TargetFieldsExact(sc, live, committed.targetFields) && TargetIndexExact(live, committed.targetFields, committed.targets)
  {
    assert committed.Grounded();
  }

  lemma {:induction false} TypesLive(live: Graph, creates: Graph)
    requires !exists key :: key in creates && !HasType(live, key.typ)
    ensures forall k :: k in creates ==> HasType(live, k.typ)
  {
  }

  lemma {:induction false} RebasedMade(sc: Schema, committed: RelationModel, live: Graph, works: Graph, creates: Graph, targets: TargetIndex)
    requires Usable(sc, committed, live) && KeysKept(committed.targetFields, live, works) && KeysFresh(committed.targetFields, live, creates)
    requires Covers(sc, live, committed.targetFields) && Covers(sc, creates, committed.targetFields)
    requires Covers(sc, Overlaid(live, works, creates), committed.targetFields)
    requires TargetIndexExact(Overlaid(live, works, creates), committed.targetFields, targets)
    ensures Rebased(committed, works, creates, Overlaid(live, works, creates), targets)
  {
    hide KeysKept, KeysFresh, Covers, TargetIndexExact, TargetFieldsExact;
  }

  /** The rows a reused model is rescanned for. */
  ghost function RescansOf(committed: RelationModel, live: Graph, works: Graph, creates: Graph): set<NodeKey>
    reads committed
  {
    Rescans(committed.targetFields, Overlaid(live, works, creates), committed.unresolved, works.Keys + creates.Keys)
  }

  /** If the committed model is reused, every untouched holder that waits for a new row is rescanned. */
  ghost predicate MissesNobody(sc: Schema, committed: RelationModel?, live: Graph, works: Graph, creates: Graph)
    reads committed
  {
    Reusable(committed, live, works, creates) ==> NoneMissed(sc, live, works, creates, RescansOf(committed, live, works, creates))
  }

  /** The leftovers of a transaction's model: those of a full build, or the kept and the rescanned ones. */
  ghost predicate LeftoversOf(sc: Schema, committed: RelationModel?, live: Graph, works: Graph, creates: Graph, unresolved: seq<UnresolvedRelation>)
    reads committed
  {
    var h := Overlaid(live, works, creates);
    if Reusable(committed, live, works, creates)
    then LeftoversAre(sc, h, committed.unresolved, RescansOf(committed, live, works, creates), unresolved)
    else UnresolvedExact(sc, h, unresolved)
  }

  /** Validate a transaction: the model it would publish and the nodes it deletes, or the reason it is refused.
      Whether the committed model was reused makes no difference to the answer, unless the reuse misses a holder that waits. */
  method ValidateTransactionGraph(sc: Schema, committed: RelationModel?, committedOutgoing: map<NodeKey, seq<NodeKey>>, ghost committedOwners: Owners,
                                  live: Graph, works: Graph, creates: Graph, deletes: set<NodeKey>)
    returns (model: RelationModel?, r: Result<set<NodeKey>, RelationError>, ghost closure: set<NodeKey>)
    requires WellFormed(sc) && (committed != null ==> Usable(sc, committed, live))
    requires works.Keys <= live.Keys && creates.Keys !! live.Keys && OutgoingExact(committedOwners, committedOutgoing)
    ensures var h := Overlaid(live, works, creates);
            && (model != null ==> && fresh(model) && model.sc == sc && model.nodes == h && TargetFieldsExact(sc, h, model.targetFields)
                                  && LeftoversNamed(model.fields, model.unresolved) && LeftoversOf(sc, committed, live, works, creates, model.unresolved)
                                  && (FieldsExact(sc, h, model.fields) <==> MissesNobody(sc, committed, live, works, creates)))
            && (model != null && deletes <= h.Keys ==> LeastClosure(h, model.owners, committedOwners, deletes, closure))
            && (r.Ok? <==> && model != null && deletes <= h.Keys && !Vetoed(sc, model.fields, closure)
                           && forall fk :: fk in model.missing ==> fk.holder in closure)
            && (r.Ok? ==> r.value == closure)
    ensures Reusable(committed, live, works, creates) ==>
              var h, rescan := Overlaid(live, works, creates), RescansOf(committed, live, works, creates);
              && (model != null <==> DeltaAccepts(sc, h, committed.fields, rescan))
              && (model != null ==> SeenBy(sc, h, committed.fields, rescan, model.fields))
    ensures var h := Overlaid(live, works, creates);
            MissesNobody(sc, committed, live, works, creates) ==>
              && (model != null <==> Buildable(sc, h)) && (model != null ==> model.Sound())
              && (r.Ok? <==> && model != null && deletes <= h.Keys && !BorrowsDoomed(sc, model.fields, closure)
                             && Legal(sc, Survivors(h, closure)))
  {
    hide *;
    closure := {};
    var state := PrepareTransactionRelationState(sc, committed, live, works, creates);
    var built: Result<RelationModel, RelationError>;
    ghost var h := state.nodes;
    if state.rebuild {
      ExactCovers(sc, state.nodes, state.targetFields);
      built := BuildRelationModelFromTargets(sc, state.nodes, state.targets, state.targetFields);
      NotReused(sc, committed, live, works, creates);
      if built.Ok? {
        FullIs(sc, committed, live, works, creates, built.value);
      }
    } else {
      CommittedSchema(sc, committed, live);
      ghost var rescan;
      built, rescan := BuildRelationModelDelta(committed, state.nodes, state.targets, works.Keys + creates.Keys, works, creates);
      ReusedIs(sc, committed, live, works, creates, rescan);
      if built.Ok? {
        DeltaIs(sc, committed, live, works, creates, state.targets, rescan, built.value);
      }
    }
    if built.Err? {
      return null, Err(built.error), closure;
    }
    model := built.value;
    r, closure := ValidateDeletes(model, committedOutgoing, committedOwners, deletes);
  }

  lemma {:induction false} NotReused(sc: Schema, committed: RelationModel?, live: Graph, works: Graph, creates: Graph)
    requires !Reusable(committed, live, works, creates)
    ensures MissesNobody(sc, committed, live, works, creates)
  {
  }

  lemma {:induction false} NoModelMissesNobody(sc: Schema, live: Graph, works: Graph, creates: Graph)
    ensures MissesNobody(sc, null, live, works, creates)
  {
  }

  lemma {:induction false} FullIs(sc: Schema, committed: RelationModel?, live: Graph, works: Graph, creates: Graph, model: RelationModel)
    requires !Reusable(committed, live, works, creates)
    requires model.Exact() && model.sc == sc && model.nodes == Overlaid(live, works, creates)
    ensures model.Sound() && model.Readable() && FieldsExact(sc, model.nodes, model.fields) && LeftoversNamed(model.fields, model.unresolved)
    ensures LeftoversOf(sc, committed, live, works, creates, model.unresolved)
  {
    hide *;
    ExactIs(model);
    SoundIsReadable(model);
    SoundFields(model);
    ExactNamed(sc, model.nodes, model.fields, model.unresolved);
    LeftoversIs(sc, committed, live, works, creates, model.unresolved);
  }

  lemma {:induction false} SoundFields(model: RelationModel)
    requires model.Sound()
    ensures FieldsExact(model.sc, model.nodes, model.fields)
  {
  }

  lemma {:induction false} ExactNamed(sc: Schema, h: Graph, fields: Fields, unresolved: seq<UnresolvedRelation>)
    requires FieldsExact(sc, h, fields) && UnresolvedExact(sc, h, unresolved)
    ensures LeftoversNamed(fields, unresolved)
  {
    hide TargetsAt, Resolve, Refs;
    forall u | u in unresolved ensures u.field in fields {
      var i :| DanglesAt(sc, h, u.field, u.lookup, i);
    }
  }

  lemma {:induction false} LeftoversIs(sc: Schema, committed: RelationModel?, live: Graph, works: Graph, creates: Graph, unresolved: seq<UnresolvedRelation>)
    ensures !Reusable(committed, live, works, creates) ==>
              (LeftoversOf(sc, committed, live, works, creates, unresolved) <==> UnresolvedExact(sc, Overlaid(live, works, creates), unresolved))
    ensures Reusable(committed, live, works, creates) ==>
              (LeftoversOf(sc, committed, live, works, creates, unresolved) <==>
               LeftoversAre(sc, Overlaid(live, works, creates), committed.unresolved, RescansOf(committed, live, works, creates), unresolved))
  {
    hide Reusable, UnresolvedExact, LeftoversAre, RescansOf;
  }

  lemma {:induction false} ReusedIs(sc: Schema, committed: RelationModel, live: Graph, works: Graph, creates: Graph, rescan: set<NodeKey>)
    requires Reusable(committed, live, works, creates)
    requires rescan == Rescans(committed.targetFields, Overlaid(live, works, creates), committed.unresolved, works.Keys + creates.Keys)
    ensures RescansOf(committed, live, works, creates) == rescan
    ensures MissesNobody(sc, committed, live, works, creates) <==> NoneMissed(sc, live, works, creates, rescan)
  {
  }

  lemma {:induction false} DeltaIs(sc: Schema, committed: RelationModel, live: Graph, works: Graph, creates: Graph, targets: TargetIndex,
                                   rescan: set<NodeKey>, model: RelationModel)
    requires Reusable(committed, live, works, creates) && committed.sc == sc && committed.nodes == live
    requires Rebased(committed, works, creates, Overlaid(live, works, creates), targets) && rescan == RescansOf(committed, live, works, creates)
    requires DeltaMade(sc, Overlaid(live, works, creates), committed.fields, committed.unresolved, rescan, model)
    requires model.nodes == Overlaid(live, works, creates)
    ensures SeenBy(sc, model.nodes, committed.fields, rescan, model.fields)
    ensures model.Readable() && LeftoversOf(sc, committed, live, works, creates, model.unresolved)
  {
    hide *;
    RebasedParts(committed, works, creates, model.nodes, targets);
    LeftoversIs(sc, committed, live, works, creates, model.unresolved);
    DeltaParts(sc, model.nodes, committed.fields, committed.unresolved, rescan, model);
    forall c | c in model.owners ensures c in model.nodes {
      SeenOwned(sc, live, works, creates, committed.fields, rescan, model.fields, model.owners, c);
    }
    ReadableMade(model);
  }

  lemma {:induction false} ReadableMade(model: RelationModel)
    requires RefsMatch(model.fields, model.refs) && OutgoingExact(model.owners, model.outgoing) && forall c :: c in model.owners ==> c in model.nodes
    ensures model.Readable()
  {
  }

  lemma {:induction false} SeenOwned(sc: Schema, g: Graph, works: Graph, creates: Graph, before: Fields, rescan: set<NodeKey>, fields: Fields,
                                     owners: Owners, c: NodeKey)
    requires FieldsExact(sc, g, before) && SeenBy(sc, Overlaid(g, works, creates), before, rescan, fields)
    requires OwnersExact(sc, fields, owners) && c in owners
    ensures c in Overlaid(g, works, creates)
  {
    var h := Overlaid(g, works, creates);
    hide FieldsExact, SeenBy, Targets, Refs;
    assert OwnerOf(owners, c) == Some(owners[c]) && IsOwner(sc, fields, c, owners[c]);
    if fk: FieldKey :| OwnVia(sc, fields, fk, c) && fk.holder == owners[c] {
      SeenTarget(sc, g, works, creates, before, rescan, fields, fk, c);
    } else {
      var fk: FieldKey :| fk.holder == c && BackVia(sc, fields, fk, owners[c]);
      SeenTarget(sc, g, works, creates, before, rescan, fields, fk, owners[c]);
    }
  }

  lemma {:induction false} SeenTarget(sc: Schema, g: Graph, works: Graph, creates: Graph, before: Fields, rescan: set<NodeKey>, fields: Fields,
                                      fk: FieldKey, t: NodeKey)
    requires FieldsExact(sc, g, before) && SeenBy(sc, Overlaid(g, works, creates), before, rescan, fields) && fk in fields && t in fields[fk]
    ensures fk.holder in Overlaid(g, works, creates) && t in Overlaid(g, works, creates)
  {
    var h := Overlaid(g, works, creates);
    hide FieldsExact, SeenBy, Targets, Refs;
    SeenAt(sc, h, before, rescan, fields, fk);
    ExactAt(sc, g, before, fk);
    if fk.holder in rescan {
      TargetsMember(h, SpecOf(sc, fk), RefsAt(sc, h, fk), t);
    } else {
      TargetsMember(g, SpecOf(sc, fk), RefsAt(sc, g, fk), t);
    }
  }

  lemma {:induction false} CommittedSchema(sc: Schema, committed: RelationModel?, live: Graph)
    requires committed != null && Usable(sc, committed, live)
    ensures committed.sc == sc && committed.nodes == live
  {
  }
}
