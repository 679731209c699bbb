/** Two runs in which the committed model is not what a full build over the live rows would be: one in which its leftovers outlive the pointers
    they stand for, and one in which a live pointer is not among them. */
module RelationStaleModels {
  import opened RelationSchema
  import opened Wrappers
  import opened OwnershipForest
  import opened OwnershipWalks
  import opened RelationGraph
  import opened RelationScan
  import opened RelationModels
  import opened TargetIndexes
  import opened RelationFieldDeltas
  import opened RelationIndexes
  import opened RelationOverlays
  import opened RelationDeltas
  import opened RelationIndexDeltas
  import opened RelationRewiring
  import opened RelationPublishing
  import opened RelationDeleteDelta
  import opened RelationRebuilds
  import opened RelationOrphans
  import opened RelationRescans
  import opened RelationTransactions
  import opened RelationRuns
  import opened RelationFallbacks
  import opened RelationIds

  /** A holder with an option, and a box that owns lids. */
  const SCHEMA: Schema := map["Holder" := map[0 := Spec("Choice", "Item", Optional, "Id", false)],
                              "Box" := map[0 := Spec("Lids", "Lid", Own, "Id", true)]]

  const HOLDER := NodeKey("Holder", 1)
  const BOX := NodeKey("Box", 1)
  const LID := NodeKey("Lid", 1)
  const CHOICE := FieldKey(HOLDER, 0)
  const LIDS := FieldKey(BOX, 0)
  const STALE := Unresolved(CHOICE, TargetKey("Item", "Id", IntValue(7)))

  /** The option names an item nobody created; the box owns the lid. */
  const CREATED: Graph := map[HOLDER := IdRow(1, map[0 := [Some(IntValue(7))]]), BOX := IdRow(1, map[0 := [Some(IntValue(1))]]), LID := IdRow(1, map[])]

  const FIELDS: Fields := map[CHOICE := [], LIDS := [LID]]

  // ---------------------------------------------------------------- the first commit

  lemma {:induction false} TheFields(g: Graph, fk: FieldKey)
    requires g.Keys == {HOLDER, BOX, LID}
    ensures HasField(SCHEMA, g, fk) <==> fk == CHOICE || fk == LIDS
  {
  }

  lemma {:induction false} CreatedField(fk: FieldKey)
    requires HasField(SCHEMA, CREATED, fk)
    ensures fk in FIELDS && FIELDS[fk] == TargetsAt(SCHEMA, CREATED, fk) && FieldLegal(SCHEMA, CREATED, fk)
  {
    TheFields(CREATED, fk);
    var spec, refs := SpecOf(SCHEMA, fk), RefsAt(SCHEMA, CREATED, fk);
    var id := if fk == CHOICE then 7 else 1;
    IdResolves(CREATED, spec.target, id);
    assert refs == [Some(IntValue(id))] && refs[..0] == [] && refs[..1] == refs;
    TargetsStep(CREATED, spec, refs, 0);
    hide Resolve;
  }

  lemma {:induction false} CreatedExact()
    ensures FieldsExact(SCHEMA, CREATED, FIELDS) && LegalRefs(SCHEMA, CREATED)
  {
    hide TargetsAt, FieldLegal;
    forall fk | HasField(SCHEMA, CREATED, fk)
      ensures fk in FIELDS && FIELDS[fk] == TargetsAt(SCHEMA, CREATED, fk) && FieldLegal(SCHEMA, CREATED, fk)
    {
      CreatedField(fk);
    }
    assert HasField(SCHEMA, CREATED, CHOICE) && HasField(SCHEMA, CREATED, LIDS);
  }

  lemma {:induction false} ChoiceDangles()
    ensures Dangles(SCHEMA, CREATED, STALE)
  {
    TheFields(CREATED, CHOICE);
    IdResolves(CREATED, "Item", 7);
    hide Resolve;
    assert DanglesAt(SCHEMA, CREATED, CHOICE, STALE.lookup, 0);
  }

  /** Nothing else of the holder dangles. */
  lemma {:induction false} OnlyChoiceDangles(u: UnresolvedRelation)
    requires Dangles(SCHEMA, CREATED, u) && u.field.holder == HOLDER
    ensures u.lookup == STALE.lookup
  {
  }

  lemma {:induction false} OneOwnerRooted()
    ensures Acyclic(map[LID := BOX])
  {
    var owners := map[LID := BOX];
    forall k ensures Rooted(owners, k) {
      assert Ancestor(owners, k, 0) == Some(k);
      assert Ancestor(owners, k, 1) == OwnerOf(owners, k);
      assert Ancestor(owners, k, 2) == None;
    }
    AcyclicIsRooted(owners);
  }

  lemma {:induction false} LidOwned()
    ensures ForestLegal(SCHEMA, FIELDS, map[LID := BOX]) && WellFormed(SCHEMA)
  {
    var owners := map[LID := BOX];
    hide Acyclic;
    OneOwnerRooted();
    assert OwnVia(SCHEMA, FIELDS, LIDS, LID);
    forall c, o ensures OwnerOf(owners, c) == Some(o) <==> IsOwner(SCHEMA, FIELDS, c, o) {
    }
  }

  lemma {:induction false} CreatedLegal()
    ensures Legal(SCHEMA, CREATED) && WellFormed(SCHEMA)
  {
    hide *;
    CreatedExact();
    LidOwned();
    LegalBy(SCHEMA, CREATED, FIELDS, map[LID := BOX]);
  }

  lemma {:induction false} NothingYet()
    ensures WellFormed(SCHEMA) && Legal(SCHEMA, map[]) && AddressesOf(map[], {}, map[])
  {
    NoneCyclic();
    assert FieldsExact(SCHEMA, map[], map[]);
    assert ForestLegal(SCHEMA, map[], map[]);
  }

  lemma {:induction false} EmptySteady(ix: Image)
    requires Committed(SCHEMA, map[], ix) && Mirrors(SCHEMA, map[], ix)
    ensures Steady(SCHEMA, map[], ix) && OnlyCreates([], CREATED)
    ensures !Covers(SCHEMA, CREATED, ix.targetFields)
  {
    hide Committed;
    MirrorsLookups(ix);
    TheFields(CREATED, CHOICE);
    assert !Searchable(ix.targetFields, Lookup(SpecOf(SCHEMA, CHOICE), IntValue(7)));
  }

  lemma {:induction false} MirrorsLookups(ix: Image)
    requires Mirrors(SCHEMA, map[], ix)
    ensures TargetFieldsExact(SCHEMA, map[], ix.targetFields)
  {
  }

  ghost predicate OnlyCreates(resources: seq<Override>, creates: Graph) {
    WorksOf(resources) == map[] && DistinctOverrides(resources) && RowsFit(map[], resources, creates) && Overlaid(map[], map[], creates) == creates
  }

  /** The lookup fields of an empty store cover none of the new rows, so the delta does not take them and nobody calls that a clash. */
  lemma {:induction false} CreateIsFull(ix: Image)
    requires !Covers(SCHEMA, CREATED, ix.targetFields)
    ensures !CommitLegal(SCHEMA, map[], ix, [], CREATED) && !KeyClash(SCHEMA, map[], ix, [], CREATED)
  {
    hide Covers, LegalRefs, OwnersStay, KeysFresh;
  }

  lemma {:induction false} CreatedParts(g: Graph, ix: Image)
    requires Steady(SCHEMA, g, ix) && FieldsExact(SCHEMA, CREATED, ix.fields)
    ensures ix.fields == FIELDS && ix.owners == map[LID := BOX]
  {
    hide *;
    CreatedExact();
    LidOwned();
    FieldsUnique(SCHEMA, CREATED, ix.fields, FIELDS);
    SteadyParts(SCHEMA, g, ix);
    CommittedParts(SCHEMA, g, ix);
    OneForest(SCHEMA, FIELDS, ix.owners, map[LID := BOX]);
  }

  /** Create all three rows over an empty store: the whole graph is validated, and the model that is kept remembers the option. */
  method CommitCreated() returns (index: CommittedIndex, kept: RelationModel)
    ensures fresh(index) && fresh(index.rows) && index.Valid() && index.sc == SCHEMA
    ensures Steady(SCHEMA, index.graph, index.Contents()) && SameScalars(CREATED, index.graph)
    ensures index.fields == FIELDS && index.owners == map[LID := BOX]
    ensures Usable(SCHEMA, kept, index.graph) && UnresolvedExact(SCHEMA, CREATED, kept.unresolved)
  {
    hide *;
    NothingYet();
    var started := StartIndex(SCHEMA, map[], map[], {});
    var empty: CommittedIndex := started;
    ghost var ix := empty.Contents();
    EmptySteady(ix);
    NoWorks(CREATED);
    CreateIsFull(ix);
    CreatedLegal();
    var published, model;
    ghost var closure;
    published, index, model, closure := CommitTransaction(empty, null, [], CREATED, {});
    NothingDead(CREATED, {});
    IndexParts(index);
    CreatedParts(index.graph, index.Contents());
    kept := model;
    FirstLeftovers(kept.unresolved);
  }

  lemma {:induction false} NoWorks(creates: Graph)
    requires OnlyCreates([], creates)
    ensures WorksOf([]) == map[] && DistinctOverrides([]) && RowsFit(map[], [], creates) && Overlaid(map[], map[], creates) == creates
  {
  }

  lemma {:induction false} FirstLeftovers(unresolved: seq<UnresolvedRelation>)
    requires LeftoversOf(SCHEMA, null, map[], map[], CREATED, unresolved)
    ensures UnresolvedExact(SCHEMA, CREATED, unresolved)
  {
    hide UnresolvedExact;
    assert Overlaid(map[], map[], CREATED) == CREATED;
  }

  // ---------------------------------------------------------------- the second commit

  /** The box lets go of its lid, which nobody owns then. */
  const EMPTIED: seq<Override> := [Override(BOX, IdRow(1, map[0 := []]))]
  const WORKS: Graph := map[BOX := IdRow(1, map[0 := []])]
  const LEFT: Fields := map[CHOICE := [], LIDS := []]

  lemma {:induction false} EmptiedWorks(g: Graph)
    requires SameScalars(CREATED, g)
    ensures WorksOf(EMPTIED) == WORKS && DistinctOverrides(EMPTIED) && RowsFit(g, EMPTIED, map[])
  {
    assert EMPTIED[..0] == [] && WorksOf([]) == map[];
  }

  lemma {:induction false} EmptiedProposes(g: Graph, tf: TargetFields)
    requires SameScalars(CREATED, g) && Covers(SCHEMA, g, tf)
    ensures Proposal(SCHEMA, tf, g, WORKS, map[])
  {
    hide Covers;
    assert Covers(SCHEMA, map[], tf) by { EmptyCovered(tf); }
    assert forall k, lk :: !Bears(map[], k, lk);
  }

  lemma {:induction false} EmptyCovered(tf: TargetFields)
    ensures Covers(SCHEMA, map[], tf)
  {
  }

  lemma {:induction false} EmptiedPatch(g: Graph)
    requires SameScalars(CREATED, g)
    ensures Rescanned(SCHEMA, g, WORKS, map[], map[LIDS := []])
    ensures HasField(SCHEMA, Overlaid(g, WORKS, map[]), LIDS) && FieldLegal(SCHEMA, Overlaid(g, WORKS, map[]), LIDS)
  {
    assert WORKS + map[] == WORKS;
    forall fk ensures HasField(SCHEMA, WORKS, fk) <==> fk == LIDS {
    }
    assert RefsAt(SCHEMA, Overlaid(g, WORKS, map[]), LIDS) == [];
    hide Resolve;
  }

  lemma {:induction false} NobodyOwnsLid()
    ensures ForestLegal(SCHEMA, LEFT, map[])
  {
    NoneCyclic();
  }

  lemma {:induction false} EmptiedExact(g: Graph, ix: Image)
    requires Steady(SCHEMA, g, ix) && SameScalars(CREATED, g) && ix.fields == FIELDS
    ensures FieldsExact(SCHEMA, Overlaid(g, WORKS, map[]), LEFT) && Legal(SCHEMA, Overlaid(g, WORKS, map[]))
  {
    hide *;
    var h := Overlaid(g, WORKS, map[]);
    SteadyParts(SCHEMA, g, ix);
    CommittedParts(SCHEMA, g, ix);
    SettledWaitsForNobody(SCHEMA, g, WORKS, map[]);
    EmptiedProposes(g, ix.targetFields);
    EmptiedPatch(g);
    FieldsOverlaid(SCHEMA, ix.targetFields, g, WORKS, map[], FIELDS, map[LIDS := []]);
    PatchedLegal(SCHEMA, ix.targetFields, g, WORKS, map[], map[LIDS := []]);
    LeftIs();
    NobodyOwnsLid();
    LegalBy(SCHEMA, h, LEFT, map[]);
  }

  lemma {:induction false} LeftIs()
    ensures FIELDS + map[LIDS := []] == LEFT
  {
  }

  /** The lid loses its owner, so the delta leaves the commit to the full path. */
  lemma {:induction false} EmptyingIsFull(g: Graph, ix: Image)
    requires FieldsExact(SCHEMA, Overlaid(g, WorksOf(EMPTIED), map[]), LEFT) && ix.owners == map[LID := BOX]
    ensures !CommitLegal(SCHEMA, g, ix, EMPTIED, map[]) && !KeyClash(SCHEMA, g, ix, EMPTIED, map[])
  {
    hide FieldsExact, ForestLegal, LegalRefs, Addressed, Covers, Rewrites;
    var h := Overlaid(g, WorksOf(EMPTIED), map[]);
    NobodyOwnsLid();
    assert LID in ix.owners;
    forall fields, owners | FieldsExact(SCHEMA, h, fields) && ForestLegal(SCHEMA, fields, owners) ensures LID !in owners {
      FieldsUnique(SCHEMA, h, fields, LEFT);
      OneForest(SCHEMA, LEFT, owners, map[]);
    }
    assert forall k, lk :: !Bears(map[], k, lk);
  }

  /** The kept model is reused, and the holder, which nobody touched and whose key nobody bears, is not rescanned. */
  lemma {:induction false} HolderNotRescanned(g: Graph, kept: RelationModel)
    requires SameScalars(CREATED, g) && UnresolvedExact(SCHEMA, CREATED, kept.unresolved)
    ensures Reusable(kept, g, WORKS, map[]) && STALE in kept.unresolved && HOLDER !in RescansOf(kept, g, WORKS, map[])
  {
    hide *;
    UnresolvedIs(SCHEMA, CREATED, kept.unresolved);
    ChoiceDangles();
    EmptiedReuses(g, kept);
    var tf, h := kept.targetFields, Overlaid(g, WORKS, map[]);
    NoItem(g, tf);
    forall u | u in kept.unresolved && u.field.holder == HOLDER ensures !Findable(tf, h, u.lookup) {
      OnlyChoiceDangles(u);
    }
    NotFound(kept, g);
  }

  lemma {:induction false} EmptiedReuses(g: Graph, kept: RelationModel)
    requires SameScalars(CREATED, g)
    ensures Reusable(kept, g, WORKS, map[])
  {
    assert forall k, lk :: !Bears(map[], k, lk);
  }

  lemma {:induction false} NoItem(g: Graph, tf: TargetFields)
    requires SameScalars(CREATED, g)
    ensures !Findable(tf, Overlaid(g, WORKS, map[]), STALE.lookup)
  {
  }

  lemma {:induction false} NotFound(kept: RelationModel, g: Graph)
    requires forall u :: u in kept.unresolved && u.field.holder == HOLDER ==> !Findable(kept.targetFields, Overlaid(g, WORKS, map[]), u.lookup)
    ensures HOLDER !in RescansOf(kept, g, WORKS, map[])
  {
    hide Findable;
    var none: Graph := map[];
    RescansHas(kept.targetFields, Overlaid(g, WORKS, none), kept.unresolved, WORKS.Keys + none.Keys, HOLDER);
  }

  lemma {:induction false} StaleStays(kept: RelationModel, g: Graph, unresolved: seq<UnresolvedRelation>)
    requires Reusable(kept, g, WORKS, map[]) && STALE in kept.unresolved && HOLDER !in RescansOf(kept, g, WORKS, map[])
    requires LeftoversOf(SCHEMA, kept, g, WORKS, map[], unresolved)
    ensures STALE in unresolved
  {
    hide Reusable, RescansOf, LeftoversOf, LeftoversAre, UnresolvedExact;
    LeftoversIs(SCHEMA, kept, g, WORKS, map[], unresolved);
    LeftoverOutside(SCHEMA, Overlaid(g, WORKS, map[]), kept.unresolved, RescansOf(kept, g, WORKS, map[]), unresolved, STALE);
  }

  lemma {:induction false} LeftoverOutside(sc: Schema, h: Graph, before: seq<UnresolvedRelation>, rescan: set<NodeKey>,
                                           unresolved: seq<UnresolvedRelation>, u: UnresolvedRelation)
    requires LeftoversAre(sc, h, before, rescan, unresolved) && u in before && u.field.holder !in rescan
    ensures u in unresolved
  {
  }

  /** In the graph a model is built for next, the option's pointer is gone. */
  lemma {:induction false} StaleThen(g: Graph, unresolved: seq<UnresolvedRelation>)
    requires NothingDangles(SCHEMA, g) && STALE in unresolved
    ensures !UnresolvedExact(SCHEMA, g, unresolved)
  {
    hide *;
    Settled(g);
    StaleAfterPublication(SCHEMA, g, unresolved);
  }

  lemma {:induction false} UsableExact(kept: RelationModel, g: Graph)
    requires Usable(SCHEMA, kept, g) && !UnresolvedExact(SCHEMA, g, kept.unresolved)
    ensures !kept.Exact()
  {
    hide UnresolvedExact;
  }

  lemma {:induction false} Settled(g: Graph)
    requires NothingDangles(SCHEMA, g)
    ensures forall fk, lk, i :: !DanglesAt(SCHEMA, g, fk, lk, i)
  {
    hide DanglesAt;
  }

  /** Two commits by the full path, the second of which reuses the model of the first: its leftover for the option, whose pointer the first
      publication cleared, is carried over, and a full build over the rows has none. */
  method StaleLeftoverCarried() returns (index: CommittedIndex, kept: RelationModel)
    ensures index.Valid() && Steady(SCHEMA, index.graph, index.Contents()) && index.fields == LEFT
    ensures Usable(SCHEMA, kept, index.graph) && STALE in kept.unresolved
    ensures !UnresolvedExact(SCHEMA, index.graph, kept.unresolved) && !kept.Exact()
  {
    hide *;
    var first, model := CommitCreated();
    ghost var g, ix := first.graph, first.Contents();
    IndexParts(first);
    EmptiedWorks(g);
    EmptiedExact(g, ix);
    EmptyingIsFull(g, ix);
    HolderNotRescanned(g, model);
    var published, next, after;
    ghost var closure;
    published, next, after, closure := CommitTransaction(first, model, EMPTIED, map[], {});
    NothingDead(Overlaid(g, WORKS, map[]), {});
    index, kept := next, after;
    StaleStays(model, g, kept.unresolved);
    IndexParts(index);
    SteadyParts(SCHEMA, index.graph, index.Contents());
    FieldsUnique(SCHEMA, Overlaid(g, WORKS, map[]), index.fields, LEFT);
    StaleThen(index.graph, kept.unresolved);
    UsableExact(kept, index.graph);
  }

  // ---------------------------------------------------------------- a pointer nobody recorded

  const SPARE := NodeKey("Item", 1)
  const LATE := NodeKey("Item", 7)

  /** What the model was validated over: the option is empty. */
  const BARE: Graph := map[HOLDER := IdRow(1, map[0 := [None]]), SPARE := IdRow(1, map[])]

  /** The live rows since: the option names an item that is not there, and no model was built for it. */
  const POINTED: Graph := map[HOLDER := IdRow(1, map[0 := [Some(IntValue(7))]]), SPARE := IdRow(1, map[])]

  const ITEM: Graph := map[LATE := IdRow(7, map[])]

  lemma {:induction false} OnlyOption(g: Graph, fk: FieldKey)
    requires g.Keys <= {HOLDER, SPARE, LATE}
    ensures HasField(SCHEMA, g, fk) <==> fk == CHOICE && HOLDER in g
  {
  }

  /** Empty or dangling, the option reaches nothing and is legal. */
  lemma {:induction false} OptionAt(g: Graph)
    requires g == BARE || g == POINTED
    ensures HasField(SCHEMA, g, CHOICE) && TargetsAt(SCHEMA, g, CHOICE) == [] && FieldLegal(SCHEMA, g, CHOICE)
  {
    var refs := RefsAt(SCHEMA, g, CHOICE);
    IdResolves(g, "Item", 7);
    assert |refs| == 1 && refs[..0] == [] && refs[..1] == refs;
    TargetsStep(g, SpecOf(SCHEMA, CHOICE), refs, 0);
    hide Resolve;
  }

  lemma {:induction false} OptionEmpty(g: Graph)
    requires g == BARE || g == POINTED
    ensures FieldsExact(SCHEMA, g, map[CHOICE := []]) && LegalRefs(SCHEMA, g)
  {
    hide TargetsAt, FieldLegal;
    OptionAt(g);
    forall fk ensures HasField(SCHEMA, g, fk) <==> fk == CHOICE {
      OnlyOption(g, fk);
    }
  }

  lemma {:induction false} NobodyOwnsItems()
    ensures WellFormed(SCHEMA) && ForestLegal(SCHEMA, map[CHOICE := []], map[])
  {
    NoneCyclic();
  }

  lemma {:induction false} BareLegal()
    ensures WellFormed(SCHEMA) && Buildable(SCHEMA, BARE)
  {
    hide *;
    OptionEmpty(BARE);
    NobodyOwnsItems();
    LegalBy(SCHEMA, BARE, map[CHOICE := []], map[]);
    LegalIsBuildable(SCHEMA, BARE);
  }

  lemma {:induction false} PointedLacksNothing()
    ensures forall fk :: !Unscannable(SCHEMA, POINTED, fk) && !Lacks(SCHEMA, POINTED, fk)
  {
    hide *;
    OptionEmpty(POINTED);
    NobodyOwnsItems();
    LegalBy(SCHEMA, POINTED, map[CHOICE := []], map[]);
    LegalLacksNothing(SCHEMA, POINTED);
  }

  /** A model over the empty option. */
  lemma {:induction false} BareModel(model: RelationModel)
    requires model.Exact() && model.sc == SCHEMA && model.nodes == BARE
    ensures model.fields == map[CHOICE := []] && model.unresolved == [] && model.missing == []
  {
    hide FieldsExact, ForestLegal, RefsMatch, OutgoingExact;
    OptionEmpty(BARE);
    FieldsUnique(SCHEMA, BARE, model.fields, map[CHOICE := []]);
    FirstListed(model.unresolved);
    FirstListed(model.missing);
    forall fk, lk, i ensures !DanglesAt(SCHEMA, BARE, fk, lk, i) && !LacksAt(SCHEMA, BARE, fk, i) {
    }
  }

  /** The same model over the rows that have the pointer again: exact but for that pointer, which its leftovers do not name. */
  lemma {:induction false} BareUsable(model: RelationModel, kept: RelationModel)
    requires model.Exact() && model.sc == SCHEMA && model.nodes == BARE && TargetFieldsExact(SCHEMA, BARE, model.targetFields)
    requires kept.sc == SCHEMA && kept.nodes == POINTED && kept.targets == model.targets && kept.targetFields == model.targetFields
    requires kept.refs == model.refs && kept.unresolved == model.unresolved && kept.missing == model.missing
    requires kept.owners == model.owners && kept.outgoing == model.outgoing && kept.fields == model.fields
    ensures Usable(SCHEMA, kept, POINTED) && kept.unresolved == [] && kept.fields == map[CHOICE := []]
    ensures OutgoingExact(kept.owners, kept.outgoing)
  {
    hide *;
    BareModel(model);
    ExactIs(model);
    SoundAll(model);
    SameNodes();
    SameTargetIndex(BARE, POINTED, model.targetFields, model.targets);
    SameLookups(SCHEMA, BARE, POINTED, model.targetFields);
    ExactCovers(SCHEMA, POINTED, model.targetFields);
    OptionEmpty(POINTED);
    PointedLacksNothing();
    NoneNamed(kept.fields);
    UsableMade(SCHEMA, kept, POINTED);
  }

  lemma {:induction false} SameNodes()
    ensures SameScalars(BARE, POINTED)
  {
  }

  lemma {:induction false} NoneNamed(fields: Fields)
    ensures LeftoversNamed(fields, [])
  {
  }

  lemma {:induction false} ItemReuses(kept: RelationModel)
    requires kept.unresolved == []
    ensures Reusable(kept, POINTED, map[], ITEM) && RescansOf(kept, POINTED, map[], ITEM) == {LATE}
  {
    assert SPARE in POINTED && SPARE.typ == "Item";
    forall k, lk | Bears(ITEM, k, lk) ensures forall j :: !Bears(POINTED, j, lk) && (Bears(ITEM, j, lk) ==> j == k) {
    }
    hide Findable, Bears;
  }

  /** With the item created the option reaches it, and the holder is not rescanned. */
  lemma {:induction false} OptionMissed(kept: RelationModel)
    requires kept.unresolved == []
    ensures HasField(SCHEMA, Overlaid(POINTED, map[], ITEM), CHOICE) && TargetsAt(SCHEMA, Overlaid(POINTED, map[], ITEM), CHOICE) == [LATE]
    ensures !MissesNobody(SCHEMA, kept, POINTED, map[], ITEM)
  {
    hide Resolve, Targets, Reusable, RescansOf, DanglesAt, Bears, FieldLegal;
    ItemReuses(kept);
    ToOneReaches(SCHEMA, Overlaid(POINTED, map[], ITEM), CHOICE, 7);
    OptionWaits();
    assert Missed(SCHEMA, POINTED, map[], ITEM, {LATE}, CHOICE);
  }

  lemma {:induction false} OptionWaits()
    ensures Waiting(SCHEMA, POINTED, map[], ITEM, CHOICE)
  {
    IdResolves(POINTED, "Item", 7);
    hide Resolve;
    assert DanglesAt(SCHEMA, POINTED, CHOICE, STALE.lookup, 0) && Bears(ITEM, LATE, STALE.lookup);
  }

  lemma {:induction false} ItemAccepted()
    ensures DeltaAccepts(SCHEMA, Overlaid(POINTED, map[], ITEM), map[CHOICE := []], {LATE})
  {
    var h := Overlaid(POINTED, map[], ITEM);
    NobodyOwnsItems();
    forall fk: FieldKey | fk.holder in {LATE} ensures !HasField(SCHEMA, h, fk) {
      OnlyOption(h, fk);
    }
    hide ForestLegal;
    assert SeenForest(SCHEMA, h, map[CHOICE := []], {LATE}, map[CHOICE := []], map[]);
  }

  lemma {:induction false} SeenAsEmpty(fields: Fields)
    requires SeenBy(SCHEMA, Overlaid(POINTED, map[], ITEM), map[CHOICE := []], {LATE}, fields)
    ensures CHOICE in fields && fields[CHOICE] == []
  {
  }

  /** A model over rows whose option was empty, and a pointer it never saw: when the item the option names is created, the reused model is
      built and says the option reaches nobody. */
  method ForgottenPointer() returns (kept: RelationModel, model: RelationModel)
    ensures Usable(SCHEMA, kept, POINTED) && kept.unresolved == [] && Reusable(kept, POINTED, map[], ITEM)
    ensures model.nodes == Overlaid(POINTED, map[], ITEM) && CHOICE in model.fields && model.fields[CHOICE] == []
    ensures HasField(SCHEMA, model.nodes, CHOICE) && TargetsAt(SCHEMA, model.nodes, CHOICE) == [LATE]
    ensures !FieldsExact(SCHEMA, model.nodes, model.fields)
  {
    hide *;
    BareLegal();
    var built := BuildRelationModel(SCHEMA, BARE);
    var bare := built.value;
    kept := new RelationModel(SCHEMA, POINTED, bare.targets, bare.targetFields);
    kept.refs, kept.unresolved, kept.missing := bare.refs, bare.unresolved, bare.missing;
    kept.owners, kept.outgoing, kept.fields := bare.owners, bare.outgoing, bare.fields;
    BareUsable(bare, kept);
    ItemReuses(kept);
    OptionMissed(kept);
    ItemAccepted();
    ItemIsNew();
    var reused, r;
    ghost var closure;
    reused, r, closure := ValidateTransactionGraph(SCHEMA, kept, kept.outgoing, kept.owners, POINTED, map[], ITEM, {});
    model := reused;
    SeenAsEmpty(model.fields);
  }

  lemma {:induction false} ItemIsNew()
    ensures ITEM.Keys !! POINTED.Keys
  {
  }
}
