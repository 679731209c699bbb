/** Any run of fast-path commits, and the differential check that it always agrees with a rebuild. */
module RelationRuns {
  import opened RelationSchema
  import opened OwnershipForest
  import opened RelationGraph
  import opened RelationModels
  import opened TargetIndexes
  import opened RelationIndexes
  import opened RelationOverlays
  import opened RelationDeltas
  import opened RelationDeltaOwners
  import opened RelationIndexDeltas
  import opened RelationRewiring
  import opened RelationPublishing
  import opened RelationRebuilds

  /** One commit's rewritten rows and new rows. */
  datatype Commit = Commit(resources: seq<Override>, creates: Graph)

  /** Try one commit on the fast path: publish it, or leave everything alone. */
  method TryCommit(index: CommittedIndex, commit: Commit) returns (published: bool)
    requires index.Valid() && Steady(index.sc, index.graph, index.Contents()) && DistinctOverrides(commit.resources)
    modifies index, index.rows
    ensures index.Valid() && Steady(index.sc, index.graph, index.Contents())
    ensures published ==> var h := Overlaid(old(index.graph), WorksOf(commit.resources), commit.creates);
                          Legal(index.sc, h) && SameScalars(h, index.graph) && FieldsExact(index.sc, h, index.fields)
    ensures Mirrors(index.sc, old(index.graph), old(index.Contents())) ==> Mirrors(index.sc, index.graph, index.Contents())
    ensures !published ==> index.graph == old(index.graph) && index.Contents() == old(index.Contents())
    ensures published <==> CommitLegal(index.sc, old(index.graph), old(index.Contents()), commit.resources, commit.creates)
    ensures KeepsAddresses(old(index.nodes), index.nodes) && fresh(index.rows - old(index.rows))
  {
    hide *;
    SteadyParts(index.sc, index.graph, index.Contents());
    AddressesKept(index.nodes);
    var outcome: Outcome;
    ghost var overrides, scans;
    SameItself(index.graph);
    outcome, overrides, scans := BuildRelationIndexDelta(index, commit.resources, commit.creates, index.graph);
    CommitExact(index.sc, index.graph, index.Contents(), commit.resources, commit.creates);
    if !outcome.Built? {
      return false;
    }
    SoundAccepts(index.sc, index.graph, index.Contents(), commit.resources, commit.creates, outcome.delta);
    DeltaCreates(index.sc, index.graph, index.Contents(), WorksOf(commit.resources), commit.creates, outcome.delta);
    SettledWaitsForNobody(index.sc, index.graph, WorksOf(commit.resources), commit.creates);
    AcceptedIsLegal(index.sc, index.graph, index.Contents(), WorksOf(commit.resources), commit.creates, outcome.delta);
    CommitIndexDelta(index, commit.resources, outcome.delta);
    published := true;
  }

  /** What publishes a commit: its rows are properly addressed, the proposed graph is legal, and every child that had an
      owner has one. */
  ghost predicate CommitLegal(sc: Schema, g: Graph, ix: Image, resources: seq<Override>, creates: Graph) {
    var h := Overlaid(g, WorksOf(resources), creates);
    Addressed(sc, g, ix.targetFields, resources, creates) && LegalRefs(sc, h) && OwnersStay(sc, h, ix.owners)
  }

  ghost predicate OwnersStay(sc: Schema, h: Graph, owners: Owners) {
    exists fields, owners' :: FieldsExact(sc, h, fields) && ForestLegal(sc, fields, owners') && owners.Keys <= owners'.Keys
  }

  lemma {:induction false} AddressedProposes(sc: Schema, g: Graph, ix: Image, resources: seq<Override>, creates: Graph)
    requires Committed(sc, g, ix) && Addressed(sc, g, ix.targetFields, resources, creates)
    ensures Proposal(sc, ix.targetFields, g, WorksOf(resources), creates)
  {
    CommittedParts(sc, g, ix);
    RewritesKeepKeys(ix.targetFields, g, resources);
    hide Committed, Rewrites, KeysKept, KeysFresh, Covers;
  }

  /** Over a steady state the delta's own conditions are the conditions on the proposed graph. */
  lemma {:induction false} CommitExact(sc: Schema, g: Graph, ix: Image, resources: seq<Override>, creates: Graph)
    requires Steady(sc, g, ix)
    ensures Acceptable(sc, g, ix, resources, creates) <==> CommitLegal(sc, g, ix, resources, creates)
  {
    hide *;
    SteadyParts(sc, g, ix);
    CommittedParts(sc, g, ix);
    SettledWaitsForNobody(sc, g, WorksOf(resources), creates);
    if Acceptable(sc, g, ix, resources, creates) {
      AcceptableAddressed(sc, g, ix, resources, creates);
      AddressedProposes(sc, g, ix, resources, creates);
      AcceptableIsLegal(sc, g, ix, resources, creates);
    }
    if CommitLegal(sc, g, ix, resources, creates) {
      LegalAddressed(sc, g, ix, resources, creates);
      AddressedProposes(sc, g, ix, resources, creates);
      LegalIsAcceptable(sc, g, ix, resources, creates);
    }
  }

  lemma {:induction false} AcceptableAddressed(sc: Schema, g: Graph, ix: Image, resources: seq<Override>, creates: Graph)
    requires Acceptable(sc, g, ix, resources, creates)
    ensures Addressed(sc, g, ix.targetFields, resources, creates)
  {
    hide Addressed;
  }

  lemma {:induction false} LegalAddressed(sc: Schema, g: Graph, ix: Image, resources: seq<Override>, creates: Graph)
    requires CommitLegal(sc, g, ix, resources, creates)
    ensures Addressed(sc, g, ix.targetFields, resources, creates)
  {
    hide Addressed;
  }

  lemma {:induction false} AcceptableIsLegal(sc: Schema, g: Graph, ix: Image, resources: seq<Override>, creates: Graph)
    requires Acceptable(sc, g, ix, resources, creates) && Proposal(sc, ix.targetFields, g, WorksOf(resources), creates)
    requires NoneWaiting(sc, g, WorksOf(resources), creates) && LegalRefs(sc, g) && FieldsExact(sc, g, ix.fields)
    ensures CommitLegal(sc, g, ix, resources, creates)
  {
    hide Proposal, NoneWaiting, LegalRefs, FieldsExact, Rescanned, ForestLegal, Addressed, FieldLegal, WorksOf, Overlaid;
    var patch, owners :| Accepts(sc, g, ix, resources, creates, patch, owners);
    FieldsOverlaid(sc, ix.targetFields, g, WorksOf(resources), creates, ix.fields, patch);
    PatchedLegal(sc, ix.targetFields, g, WorksOf(resources), creates, patch);
    assert OwnersStay(sc, Overlaid(g, WorksOf(resources), creates), ix.owners);
  }

  lemma {:induction false} LegalIsAcceptable(sc: Schema, g: Graph, ix: Image, resources: seq<Override>, creates: Graph)
    requires CommitLegal(sc, g, ix, resources, creates) && Proposal(sc, ix.targetFields, g, WorksOf(resources), creates)
    requires NoneWaiting(sc, g, WorksOf(resources), creates) && FieldsExact(sc, g, ix.fields)
    ensures Acceptable(sc, g, ix, resources, creates)
  {
    hide Proposal, NoneWaiting, ForestLegal, Addressed, FieldLegal, WorksOf, Overlaid;
    var works, h := WorksOf(resources), Overlaid(g, WorksOf(resources), creates);
    var fields, owners :| FieldsExact(sc, h, fields) && ForestLegal(sc, fields, owners) && ix.owners.Keys <= owners.Keys;
    var patch := map fk | fk in fields && HasField(sc, works + creates, fk) :: fields[fk];
    TouchedFields(sc, g, works, creates, fields);
    FieldsOverlaid(sc, ix.targetFields, g, works, creates, ix.fields, patch);
    FieldsUnique(sc, h, fields, ix.fields + patch);
    PatchLegal(sc, h, patch);
    assert Accepts(sc, g, ix, resources, creates, patch, owners);
  }

  lemma {:induction false} PatchLegal(sc: Schema, h: Graph, patch: Fields)
    requires LegalRefs(sc, h) && forall fk :: fk in patch ==> HasField(sc, h, fk)
    ensures forall fk :: fk in patch ==> FieldLegal(sc, h, fk)
  {
  }

  lemma {:induction false} TouchedFields(sc: Schema, g: Graph, works: Graph, creates: Graph, fields: Fields)
    requires FieldsExact(sc, Overlaid(g, works, creates), fields)
    ensures Rescanned(sc, g, works, creates, map fk | fk in fields && HasField(sc, works + creates, fk) :: fields[fk])
    ensures forall fk :: fk in fields ==> HasField(sc, Overlaid(g, works, creates), fk)
  {
    hide TargetsAt;
  }

  /** The delta reports an error only where the full validator would, or where a new row's lookup key is taken. */
  lemma {:induction false} RefusalDeserved(sc: Schema, g: Graph, ix: Image, resources: seq<Override>, creates: Graph)
    requires Steady(sc, g, ix) && Objectionable(sc, g, ix, resources, creates)
    ensures !Legal(sc, Overlaid(g, WorksOf(resources), creates)) || KeyClash(sc, g, ix, resources, creates)
  {
    hide *;
    var works := WorksOf(resources);
    SteadyParts(sc, g, ix);
    CommittedParts(sc, g, ix);
    SettledWaitsForNobody(sc, g, works, creates);
    ObjectionCases(sc, g, ix, resources, creates);
    if Proposal(sc, ix.targetFields, g, works, creates) && IllegalField(sc, g, works, creates) {
      IllegalFieldRefused(sc, g, works, creates);
    } else if Proposal(sc, ix.targetFields, g, works, creates) && IllegalForest(sc, g, ix.fields, works, creates) {
      IllegalForestRefused(sc, ix.targetFields, g, ix.fields, works, creates);
    }
  }

  lemma {:induction false} ObjectionCases(sc: Schema, g: Graph, ix: Image, resources: seq<Override>, creates: Graph)
    requires Objectionable(sc, g, ix, resources, creates)
    ensures || KeyClash(sc, g, ix, resources, creates)
            || (Proposal(sc, ix.targetFields, g, WorksOf(resources), creates)
                && (IllegalField(sc, g, WorksOf(resources), creates) || IllegalForest(sc, g, ix.fields, WorksOf(resources), creates)))
  {
    hide KeyClash, Proposal, IllegalField, IllegalForest, WorksOf;
  }

  lemma {:induction false} IllegalFieldRefused(sc: Schema, g: Graph, works: Graph, creates: Graph)
    requires IllegalField(sc, g, works, creates)
    ensures !Legal(sc, Overlaid(g, works, creates))
  {
    hide FieldLegal, ForestLegal, Overlaid;
  }

  lemma {:induction false} IllegalForestRefused(sc: Schema, tf: TargetFields, g: Graph, fields: Fields, works: Graph, creates: Graph)
    requires Proposal(sc, tf, g, works, creates) && IllegalForest(sc, g, fields, works, creates)
    requires NoneWaiting(sc, g, works, creates) && FieldsExact(sc, g, fields)
    ensures !Legal(sc, Overlaid(g, works, creates))
  {
    hide Proposal, NoneWaiting, LegalRefs, FieldsExact, Rescanned, ForestLegal, Overlaid;
    var patch :| Rescanned(sc, g, works, creates, patch) && !ForestPossible(sc, fields + patch);
    FieldsOverlaid(sc, tf, g, works, creates, fields, patch);
    forall fields', owners | FieldsExact(sc, Overlaid(g, works, creates), fields') && ForestLegal(sc, fields', owners) ensures false {
      FieldsUnique(sc, Overlaid(g, works, creates), fields', fields + patch);
    }
  }

  lemma {:induction false} SameItself(g: Graph)
    ensures SameScalars(g, g)
  {
  }

  lemma {:induction false} DeltaCreates(sc: Schema, g: Graph, ix: Image, works: Graph, creates: Graph, delta: IndexDelta)
    requires DeltaSound(sc, g, ix, works, creates, delta)
    ensures delta.created == creates
  {
  }

  /** The rows and their index at one moment. */
  datatype State = State(graph: Graph, image: Image)

  /** What one attempt makes of a state: the proposed rows with their exact fields if the commit is legal, nothing otherwise. */
  ghost predicate Attempted(sc: Schema, before: State, commit: Commit, after: State) {
    var h := Overlaid(before.graph, WorksOf(commit.resources), commit.creates);
    if CommitLegal(sc, before.graph, before.image, commit.resources, commit.creates)
    then Legal(sc, h) && SameScalars(h, after.graph) && FieldsExact(sc, h, after.image.fields) && Steady(sc, after.graph, after.image)
    else after == before
  }

  /** The states a run goes through, the first one included. */
  ghost predicate Trace(sc: Schema, commits: seq<Commit>, states: seq<State>) {
    |states| == |commits| + 1 && forall i :: 0 <= i < |commits| ==> Attempted(sc, states[i], commits[i], states[i + 1])
  }

  lemma {:induction false} TraceNext(sc: Schema, commits: seq<Commit>, i: nat, states: seq<State>, next: State)
    requires i < |commits| && Trace(sc, commits[..i], states) && Attempted(sc, states[i], commits[i], next)
    ensures Trace(sc, commits[..i + 1], states + [next])
  {
    hide Attempted;
    var run, longer := commits[..i + 1], states + [next];
    forall j | 0 <= j <= i ensures Attempted(sc, longer[j], run[j], longer[j + 1]) {
      assert j < i ==> commits[..i][j] == run[j] && Attempted(sc, states[j], commits[..i][j], states[j + 1]);
    }
  }

  lemma {:induction false} NothingTraced(sc: Schema, s: State)
    ensures Trace(sc, [], [s])
  {
  }

  /** One attempt, with the state it leaves. */
  method Attempt(index: CommittedIndex, commit: Commit, ghost before: State) returns (ghost after: State)
    requires index.Valid() && Steady(index.sc, index.graph, index.Contents()) && DistinctOverrides(commit.resources)
    requires before == State(index.graph, index.Contents())
    modifies index, index.rows
    ensures index.Valid() && Steady(index.sc, index.graph, index.Contents())
    ensures after == State(index.graph, index.Contents()) && Attempted(index.sc, before, commit, after)
    ensures Mirrors(index.sc, old(index.graph), old(index.Contents())) ==> Mirrors(index.sc, index.graph, index.Contents())
    ensures KeepsAddresses(old(index.nodes), index.nodes) && fresh(index.rows - old(index.rows))
  {
    hide *;
    var published := TryCommit(index, commit);
    after := State(index.graph, index.Contents());
    IndexParts(index);
    AttemptedIs(index.sc, before, commit, after, published);
  }

  lemma {:induction false} AttemptedIs(sc: Schema, before: State, commit: Commit, after: State, published: bool)
    requires published <==> CommitLegal(sc, before.graph, before.image, commit.resources, commit.creates)
    requires Steady(sc, after.graph, after.image)
    requires if published then var h := Overlaid(before.graph, WorksOf(commit.resources), commit.creates);
                               Legal(sc, h) && SameScalars(h, after.graph) && FieldsExact(sc, h, after.image.fields)
             else after == before
    ensures Attempted(sc, before, commit, after)
  {
  }

  /** However many commits run, in whatever order they are accepted, the index stays the index of the live rows. */
  method RunCommits(index: CommittedIndex, commits: seq<Commit>) returns (ghost states: seq<State>)
    requires index.Valid() && Steady(index.sc, index.graph, index.Contents())
    requires forall i :: 0 <= i < |commits| ==> DistinctOverrides(commits[i].resources)
    modifies index, index.rows
    ensures Trace(index.sc, commits, states)
    ensures states[0] == State(old(index.graph), old(index.Contents())) && states[|commits|] == State(index.graph, index.Contents())
    ensures index.Valid() && Steady(index.sc, index.graph, index.Contents())
    ensures Mirrors(index.sc, old(index.graph), old(index.Contents())) ==> Mirrors(index.sc, index.graph, index.Contents())
    ensures KeepsAddresses(old(index.nodes), index.nodes) && fresh(index.rows - old(index.rows))
  {
    hide *;
    AddressesKept(index.nodes);
    ghost var now := State(index.graph, index.Contents());
    states := [now];
    NothingTraced(index.sc, now);
    var i := 0;
    assert commits[..0] == [];
    while i < |commits|
      invariant 0 <= i <= |commits| && index.Valid() && Steady(index.sc, index.graph, index.Contents())
      invariant |states| == i + 1 && Trace(index.sc, commits[..i], states) && states[0] == State(old(index.graph), old(index.Contents()))
      invariant now == states[i] == State(index.graph, index.Contents())
      invariant Mirrors(index.sc, old(index.graph), old(index.Contents())) ==> Mirrors(index.sc, index.graph, index.Contents())
      invariant KeepsAddresses(old(index.nodes), index.nodes) && fresh(index.rows - old(index.rows))
    {
      ghost var before := index.nodes;
      ghost var next := Attempt(index, commits[i], now);
      TraceNext(index.sc, commits, i, states, next);
      states, now := states + [next], next;
      AddressesTransitive(old(index.nodes), before, index.nodes);
      i := i + 1;
    }
    assert commits[..i] == commits;
  }

  method CollectRelationNodes(index: CommittedIndex) returns (nodes: Graph)
    requires index.RowsValid()
    ensures nodes == index.graph
  {
    nodes := map k | k in index.nodes :: index.nodes[k].row;
  }

  /** Rebuild from the live rows and compare: there is never a difference to report. */
  method AssertCommittedIndexConsistent(index: CommittedIndex) returns (rebuilt: CommittedIndex)
    requires index.Valid() && Committed(index.sc, index.graph, index.Contents())
    requires Mirrors(index.sc, index.graph, index.Contents())
    ensures fresh(rebuilt) && rebuilt.Valid() && rebuilt.graph == index.graph
    ensures Mirrors(index.sc, index.graph, rebuilt.Contents()) && SameIndex(index.Contents(), rebuilt.Contents())
    ensures KeepsAddresses(rebuilt.nodes, index.nodes)
  {
    hide *;
    IndexParts(index);
    CommittedParts(index.sc, index.graph, index.Contents());
    CommittedLegal(index.sc, index.graph, index.Contents());
    LegalIsBuildable(index.sc, index.graph);
    var nodes := CollectRelationNodes(index);
    var model := BuildRelationModel(index.sc, nodes);
    RowsAreAddresses(index);
    NothingDead(nodes, {});
    ExactIs(model.value);
    rebuilt := BuildCommittedRelationIndex(model.value, index.nodes, index.rows, {});
    WithinMirrors(index.sc, index.graph, rebuilt.Contents(), model.value.targetFields, rebuilt);
    MirrorsUnique(index.sc, index.graph, index.Contents(), rebuilt.Contents());
  }

  lemma {:induction false} RowsAreAddresses(index: CommittedIndex)
    requires index.RowsValid()
    ensures AddressesOf(index.nodes, index.rows, index.graph)
  {
  }

  lemma {:induction false} CommittedLegal(sc: Schema, g: Graph, ix: Image)
    requires Committed(sc, g, ix)
    ensures Legal(sc, g)
  {
  }

  lemma {:induction false} WithinMirrors(sc: Schema, g: Graph, ix: Image, tf: TargetFields, index: CommittedIndex)
    requires index.Valid() && ix == index.Contents() && index.targetFields == tf
    requires TargetFieldsExact(sc, g, tf) && MirrorsWithin(sc, g, ix)
    ensures Mirrors(sc, g, ix)
  {
  }

  /** The first index over the live rows: there is one exactly when the rows are a legal graph, and it mirrors them. */
  method StartIndex(sc: Schema, nodes: Graph, values: map<NodeKey, LiveRow>, ghost rows: set<LiveRow>) returns (index: CommittedIndex?)
    requires WellFormed(sc) && AddressesOf(values, rows, nodes)
    ensures index != null <==> Legal(sc, nodes)
    ensures index != null ==> fresh(index) && index.Valid() && index.sc == sc && index.graph == nodes && index.rows == rows
    ensures index != null ==> Committed(sc, nodes, index.Contents()) && Mirrors(sc, nodes, index.Contents())
    ensures index != null && NothingDangles(sc, nodes) && ViewsExact(sc, nodes, index.fields) ==> Steady(sc, nodes, index.Contents())
  {
    hide *;
    LegalIsBuildable(sc, nodes);
    var model := BuildRelationModel(sc, nodes);
    if model.Err? {
      return null;
    }
    ExactIs(model.value);
    var ok := ValidateRequiredRelations(model.value, {});
    if !ok {
      return null;
    }
    NothingDead(nodes, {});
    ghost var tf := model.value.targetFields;
    var built := BuildCommittedRelationIndex(model.value, values, rows, {});
    WithinMirrors(sc, nodes, built.Contents(), tf, built);
    MirrorsCommitted(sc, nodes, built.Contents(), built);
    index := built;
  }

  lemma {:induction false} MirrorsCommitted(sc: Schema, g: Graph, ix: Image, index: CommittedIndex)
    requires WellFormed(sc) && Legal(sc, g) && Mirrors(sc, g, ix) && ix == index.Contents()
    ensures Committed(sc, g, ix)
    ensures NothingDangles(sc, g) && ViewsExact(sc, g, index.fields) ==> Steady(sc, g, ix)
  {
    ExactCovers(sc, g, ix.targetFields);
    hide Legal, WellFormed, NothingDangles, ViewsExact, Covers, MirrorsWithin;
  }

  /** The rebuild is an index of the state's rows, and no different from the published one. */
  ghost predicate Confirmed(sc: Schema, s: State, rebuilt: Image) {
    Mirrors(sc, s.graph, rebuilt) && SameIndex(s.image, rebuilt)
  }

  /** The differential test with any number of steps: after every commit the published index equals a fresh rebuild. */
  method DifferentialRun(index: CommittedIndex, commits: seq<Commit>) returns (ghost states: seq<State>, ghost rebuilds: seq<Image>)
    requires index.Valid() && Steady(index.sc, index.graph, index.Contents()) && Mirrors(index.sc, index.graph, index.Contents())
    requires forall i :: 0 <= i < |commits| ==> DistinctOverrides(commits[i].resources)
    modifies index, index.rows
    ensures Trace(index.sc, commits, states)
    ensures states[0] == State(old(index.graph), old(index.Contents())) && states[|commits|] == State(index.graph, index.Contents())
    ensures |rebuilds| == |commits| && forall i :: 0 <= i < |rebuilds| ==> Confirmed(index.sc, states[i + 1], rebuilds[i])
    ensures index.Valid() && Steady(index.sc, index.graph, index.Contents())
  {
    hide *;
    ghost var now := State(index.graph, index.Contents());
    states, rebuilds := [now], [];
    NothingTraced(index.sc, now);
    var i := 0;
    assert commits[..0] == [];
    while i < |commits|
      invariant 0 <= i <= |commits| && |rebuilds| == i && |states| == i + 1
      invariant index.Valid() && Steady(index.sc, index.graph, index.Contents()) && fresh(index.rows - old(index.rows))
      invariant Trace(index.sc, commits[..i], states) && states[0] == State(old(index.graph), old(index.Contents()))
      invariant now == states[i] == State(index.graph, index.Contents())
      invariant Mirrors(index.sc, index.graph, index.Contents())
      invariant forall j :: 0 <= j < i ==> Confirmed(index.sc, states[j + 1], rebuilds[j])
    {
      ghost var next := Attempt(index, commits[i], now);
      TraceNext(index.sc, commits, i, states, next);
      SteadyParts(index.sc, index.graph, index.Contents());
      var rebuilt := AssertCommittedIndexConsistent(index);
      ConfirmedIs(index.sc, next, rebuilt.Contents());
      states, rebuilds, now := states + [next], rebuilds + [rebuilt.Contents()], next;
      i := i + 1;
    }
    assert commits[..i] == commits;
  }

  lemma {:induction false} ConfirmedIs(sc: Schema, s: State, rebuilt: Image)
    ensures Confirmed(sc, s, rebuilt) <==> Mirrors(sc, s.graph, rebuilt) && SameIndex(s.image, rebuilt)
  {
  }
}
