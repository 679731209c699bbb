/** Flushing deletes through a delta: dropping doomed pointers in place, publishing, erasing. The result is the rebuild over
    the survivors exactly when no field with surviving targets was listed twice at the head of the touched list. */
module RelationDeleteFlush {
  import opened RelationSchema
  import opened Wrappers
  import opened Ordering
  import opened OwnershipForest
  import opened OwnershipWalks
  import opened RelationGraph
  import opened RelationModels
  import opened RelationFieldDeltas
  import opened RelationIndexes
  import opened RelationOverlays
  import opened RelationDeltas
  import opened RelationDeltaOwners
  import opened RelationIndexDeltas
  import opened RelationRewiring
  import opened RelationPublishing
  import opened RelationSurvivors
  import opened RelationDeletions
  import opened RelationErasure
  import opened RelationDeleteDelta
  import opened RelationDrops
  import opened RelationScanOrder
  import opened RelationListings
  import opened RelationOrphans

  // ---------------------------------------------------------------- what the delta publishes

  lemma {:induction false} PublishedClean(fields: Fields, closure: set<NodeKey>, scans: seq<FieldDelta>)
    requires ScansSurvive(fields, closure, scans)
    ensures (fields + AsFields(Accumulate(scans))).Keys == fields.Keys
    ensures NoneInto(fields + AsFields(Accumulate(scans)), closure)
    ensures FieldsWithout(fields + AsFields(Accumulate(scans)), closure) == FilterFields(fields, closure) <==> forall fk :: !Lost(scans, fk)
  {
    hide Accumulate, Kept, Misplaced, AsFields, LastAt;
    var after := fields + AsFields(Accumulate(scans));
    AccumulateKeys(scans);
    forall fk ensures fk in after <==> fk in fields {
      if fk in AsFields(Accumulate(scans)) {
        SameKeysFound(Accumulate(scans), scans, fk);
        var j :| 0 <= j < |scans| && scans[j].key == fk;
        assert ScanSurvives(fields, closure, scans[j]);
      }
    }
    forall fk | fk in fields && fk.holder !in closure
      ensures (after[fk] == Kept(fields[fk], closure) <==> !Lost(scans, fk)) && forall t :: t in after[fk] ==> t !in closure
    {
      PublishedField(fields, closure, scans, fk);
    }
    forall fk | Lost(scans, fk) ensures fk in fields && fk.holder !in closure {
      var j :| 0 <= j < |scans| && scans[j].key == fk;
      assert ScanSurvives(fields, closure, scans[j]);
    }
    hide Lost;
    var without, filtered := FieldsWithout(after, closure), FilterFields(fields, closure);
    assert without.Keys == filtered.Keys;
    if without == filtered {
      forall fk ensures !Lost(scans, fk) {
        if fk in fields && fk.holder !in closure {
          assert fk in without && without[fk] == filtered[fk];
        }
      }
    }
  }

  // ---------------------------------------------------------------- the flush

  /** Owners after the publication still keep the doomed set closed: nobody left belongs to a doomed node. */
  lemma {:induction false} StillClosed(sc: Schema, g: Graph, g': Graph, fields: Fields, owners: Owners, fields': Fields, owners': Owners, closure: set<NodeKey>)
    requires OwnersExact(sc, fields, owners) && OwnersExact(sc, fields', owners')
    requires CascadeClosed(g, owners, owners, closure) && NoneInto(fields', closure)
    requires forall fk :: fk in fields' && fk.holder in closure ==> fk in fields && fields'[fk] == fields[fk]
    ensures CascadeClosed(g', owners', owners', closure)
  {
    forall o, c | o in closure && Cascades(g', owners', owners', o, c) ensures c in closure {
      assert OwnerOf(owners', c) == Some(o);
      assert IsOwner(sc, fields', c, o);
      if fk :| OwnVia(sc, fields', fk, c) && fk.holder == o {
        assert OwnVia(sc, fields, fk, c);
        assert IsOwner(sc, fields, c, o);
        assert Cascades(g, owners, owners, o, c);
      } else {
        var bk: FieldKey :| bk.holder == c && BackVia(sc, fields', bk, o);
        assert o in fields'[bk];
      }
    }
  }

  /** The state after the survivors' delta is published, whatever was listed twice. */
  ghost predicate Detached(sc: Schema, g: Graph, ix: Image, closure: set<NodeKey>, scans: seq<FieldDelta>, g': Graph, ix': Image) {
    && SameScalars(g, g') && ix'.targetFields == ix.targetFields && ix'.targets == ix.targets
    && ix'.fields == ix.fields + AsFields(Accumulate(scans)) && ScansSurvive(ix.fields, closure, scans)
    && Transposed(ix'.fields, ix'.counts) && OutgoingExact(ix'.owners, ix'.outgoing)
  }

  lemma {:induction false} DetachedErasable(sc: Schema, g: Graph, ix: Image, closure: set<NodeKey>, scans: seq<FieldDelta>, g': Graph, ix': Image)
    requires Detached(sc, g, ix, closure, scans, g', ix') && closure <= g.Keys
    requires FieldsExact(sc, g, ix.fields) && TargetIndexExact(g, ix.targetFields, ix.targets)
    requires forall k :: k in closure ==> KeysUnshared(ix.targetFields, ix.targets, g, k)
    ensures Erasable(sc, g', ix', closure) && TargetIndexExact(g', ix'.targetFields, ix'.targets)
  {
    PublishedClean(ix.fields, closure, scans);
    SameTargetIndex(g, g', ix.targetFields, ix.targets);
    UnsharedSole(ix.targetFields, ix.targets, g, closure);
    SoleAgain(ix.targetFields, g, g', closure);
    hide TargetIndexExact, SoleBearers, NoneInto, KeysUnshared, ScansSurvive, Transposed, OutgoingExact, AsFields, Accumulate;
  }

  lemma {:induction false} SoleAgain(tf: TargetFields, a: Graph, b: Graph, closure: set<NodeKey>)
    requires SameScalars(a, b) && SoleBearers(tf, a, closure)
    ensures SoleBearers(tf, b, closure)
  {
    hide Bears;
    forall k, lk | k in closure && Searchable(tf, lk) && Bears(b, k, lk) ensures Sole(b, k, lk) {
      SameResolve(a, b, lk);
      assert Sole(a, k, lk);
    }
  }

  lemma {:induction false} DetachedCut(sc: Schema, g: Graph, ix: Image, closure: set<NodeKey>, scans: seq<FieldDelta>, g': Graph, ix': Image)
    requires Detached(sc, g, ix, closure, scans, g', ix') && Steady(sc, g, ix) && Steady(sc, g', ix') && Erasable(sc, g', ix', closure)
    requires CascadeClosed(g, ix.owners, ix.owners, closure)
    ensures CleanCut(sc, g', ix', closure)
  {
    hide *;
    OwnersOf(sc, g, ix);
    OwnersOf(sc, g', ix');
    DetachedParts(sc, g, ix, closure, scans, g', ix');
    PublishedClean(ix.fields, closure, scans);
    DoomedFieldsKept(ix.fields, closure, scans);
    StillClosed(sc, g, g', ix.fields, ix.owners, ix'.fields, ix'.owners, closure);
    CutMade(sc, g', ix', closure);
  }

  lemma {:induction false} OwnersOf(sc: Schema, g: Graph, ix: Image)
    requires Steady(sc, g, ix)
    ensures OwnersExact(sc, ix.fields, ix.owners)
  {
  }

  lemma {:induction false} CutMade(sc: Schema, g: Graph, ix: Image, closure: set<NodeKey>)
    requires Erasable(sc, g, ix, closure) && CascadeClosed(g, ix.owners, ix.owners, closure)
    ensures CleanCut(sc, g, ix, closure)
  {
  }

  lemma {:induction false} DetachedParts(sc: Schema, g: Graph, ix: Image, closure: set<NodeKey>, scans: seq<FieldDelta>, g': Graph, ix': Image)
    requires Detached(sc, g, ix, closure, scans, g', ix')
    ensures ix'.fields == ix.fields + AsFields(Accumulate(scans)) && ScansSurvive(ix.fields, closure, scans) && SameScalars(g, g')
    ensures Transposed(ix'.fields, ix'.counts) && OutgoingExact(ix'.owners, ix'.outgoing)
  {
  }

  /** Doomed holders are not scanned, so their fields stay. */
  lemma {:induction false} DoomedFieldsKept(fields: Fields, closure: set<NodeKey>, scans: seq<FieldDelta>)
    requires ScansSurvive(fields, closure, scans)
    ensures var after := fields + AsFields(Accumulate(scans));
            forall fk :: fk in after && fk.holder in closure ==> fk in fields && after[fk] == fields[fk]
  {
    hide Accumulate, Kept, AsFields, Hits;
    var after := fields + AsFields(Accumulate(scans));
    AccumulateKeys(scans);
    forall fk | fk in after && fk.holder in closure ensures fk in fields && after[fk] == fields[fk] {
      SameKeysFound(Accumulate(scans), scans, fk);
      assert !ListsKey(scans, fk);
    }
  }

  /** Detach the survivors: drop their doomed pointers in place and publish what is left as an index delta. */
  method DetachSurvivors(index: CommittedIndex, closure: set<NodeKey>, survivors: seq<FieldKey>)
    returns (ok: bool, ghost scans: seq<FieldDelta>)
    requires index.Valid() && Steady(index.sc, index.graph, index.Contents()) && SurvivorsListed(index.sc, index.fields, closure, closure, survivors)
    requires survivors != [] && AllDroppable(index.sc, index.fields, closure, closure)
    modifies index, index.rows
    ensures ok <==> && OwnsSettled(index.sc, old(index.fields), closure)
                    && KeepsEdges(index.sc, old(index.fields), old(index.owners), closure, LostFields(index.sc, old(index.fields), closure, survivors))
    ensures !ok ==> index.Contents() == old(index.Contents())
                    && Dropped(index.sc, old(index.graph), old(index.targets), closure, survivors, index.graph)
    ensures index.Valid()
    ensures fresh(index.rows - old(index.rows))
    ensures ok ==> Detached(index.sc, old(index.graph), old(index.Contents()), closure, scans, index.graph, index.Contents())
    ensures ok ==> index.owners == old(index.owners)
    ensures ok ==> forall fk :: Lost(scans, fk) <==> LostIn(index.sc, old(index.fields), closure, survivors, fk)
    ensures ok && (forall fk :: !Lost(scans, fk)) ==> Steady(index.sc, index.graph, index.Contents())
    ensures index.nodes == old(index.nodes)
  {
    hide *;
    scans := [];
    ghost var sc, g, ix := index.sc, index.graph, index.Contents();
    StartingPoint(index);
    IndexParts(index);
    SteadyParts(sc, g, ix);
    CommittedParts(sc, g, ix);
    SurvivorsHaveFields(sc, g, ix.fields, closure, survivors);
    DropSurvivors(index, closure, survivors);
    ghost var h := index.graph;
    SurvivorsLive(sc, g, index.targets, closure, survivors, h);
    var resources := ListTouched(index, survivors);
    ghost var works := WorksOf(resources);
    TouchedIsLive(sc, g, index.targets, closure, survivors, h, resources);
    IndexWhole(index);
    ContentsAre(ix, index);
    var outcome: Outcome;
    ghost var overrides;
    outcome, overrides, scans := BuildRelationIndexDelta(index, resources, map[], g);
    DropAcceptable(sc, g, ix, closure, survivors, h, resources);
    if !outcome.Built? {
      return false, scans;
    }
    DropBuilt(sc, g, ix, closure, survivors, h, resources, outcome.delta);
    OwnersUnmoved(sc, g, ix, closure, survivors, h, resources, Overlay(index.owners, Afters(outcome.delta.owners)));
    ScannedLive(sc, g, ix.fields, h, closure, scans, outcome.delta.fields);
    NothingNew(h);
    ghost var nodes := index.nodes;
    NodesLive(index);
    ghost var w := PublishAndRewire(index, outcome.delta, g, works);
    IndexParts(index);
    PatchedOwners(ix, outcome.delta, index.Contents());
    NodesLive(index);
    RewiredKeeps(sc, ix, works, g, outcome.delta, w, index.graph, h);
    DropKeepsScalars(sc, g, ix.targets, closure, survivors, h);
    SameAddresses(nodes, index.nodes, h, index.graph);
    DetachedMade(sc, g, ix, closure, scans, h, index.graph, outcome.delta, index.Contents());
    if forall fk :: !Lost(scans, fk) {
      DropSound(sc, g, ix, closure, survivors, h, resources, outcome.delta);
      CommitDone(sc, g, ix, works, outcome.delta, w, index.graph, index.Contents());
    }
    ok := true;
  }

  lemma {:induction false} PatchedOwners(ix: Image, delta: IndexDelta, ix': Image)
    requires Patched(ix, delta, ix')
    ensures ix'.owners == Overlay(ix.owners, Afters(delta.owners))
  {
    hide *;
    PatchedParts(ix, delta, ix');
  }

  /** A delta that was built was acceptable, and its scans are those of the survivors. */
  lemma {:induction false} DropBuilt(sc: Schema, g: Graph, ix: Image, closure: set<NodeKey>, survivors: seq<FieldKey>, h: Graph,
                                     resources: seq<Override>, delta: IndexDelta)
    requires Committed(sc, g, ix) && Dropped(sc, g, ix.targets, closure, survivors, h) && h == Overlaid(g, WorksOf(resources), map[])
    requires SurvivorsListed(sc, ix.fields, closure, closure, survivors) && AllDroppable(sc, ix.fields, closure, closure)
    requires TouchedRows(survivors, h, resources) && delta.fields == Accumulate(ScanRows(sc, h, resources))
    requires forall c :: OwnMult(sc, delta.fields, c) <= 1
    requires OwnOnce(sc, delta.fields) ==> ForestLegal(sc, Effective(ix.fields, delta.fields), Overlay(ix.owners, Afters(delta.owners)))
    requires ChangesFrom(ix.owners, delta.owners) && NoneReleased(delta.owners)
    ensures ListAcceptable(sc, g, ix, resources) && OwnOnce(sc, delta.fields)
    ensures ScansSurvive(ix.fields, closure, ScanRows(sc, h, resources))
    ensures forall fk :: Lost(ScanRows(sc, h, resources), fk) <==> LostIn(sc, ix.fields, closure, survivors, fk)
  {
    hide *;
    CommittedParts(sc, g, ix);
    RowsSurvive(sc, ix.targetFields, g, ix.targets, ix.fields, closure, survivors, h, resources);
    LostSet(sc, g, ix.fields, closure, survivors, h, resources);
    OwnOnceScans(sc, ix.fields, closure, ScanRows(sc, h, resources));
    TouchedScannable(sc, ix.targetFields, g, ix.targets, ix.fields, closure, survivors, h, resources);
    DropKeepsScalars(sc, g, ix.targets, closure, survivors, h);
    TouchedAddressed(sc, g, ix.targetFields, h, survivors, resources);
    ListAccepted(sc, g, ix, resources, delta.fields, delta.owners);
  }

  lemma {:induction false} SameAddresses(before: map<NodeKey, LiveRow>, after: map<NodeKey, LiveRow>, h: Graph, g: Graph)
    requires before.Keys == h.Keys && after.Keys == g.Keys && SameScalars(h, g) && KeepsAddresses(before, after)
    ensures after == before
  {
  }

  lemma {:induction false} SurvivorsHaveFields(sc: Schema, g: Graph, fields: Fields, closure: set<NodeKey>, survivors: seq<FieldKey>)
    requires SurvivorsListed(sc, fields, closure, closure, survivors) && FieldsExact(sc, g, fields)
    ensures Distinct(survivors) && forall fk :: fk in survivors ==> HasField(sc, g, fk)
  {
    forall fk | fk in survivors ensures HasField(sc, g, fk) {
      assert Hits(fields, closure, closure, fk);
    }
  }

  lemma {:induction false} SurvivorsLive(sc: Schema, g: Graph, targets: TargetIndex, closure: set<NodeKey>, survivors: seq<FieldKey>, h: Graph)
    requires Dropped(sc, g, targets, closure, survivors, h) && forall fk :: fk in survivors ==> HasField(sc, g, fk)
    ensures forall fk :: fk in survivors ==> fk.holder in h
    ensures SameScalars(g, h)
  {
  }

  lemma {:induction false} ScannedLive(sc: Schema, g: Graph, fields: Fields, h: Graph, closure: set<NodeKey>, scans: seq<FieldDelta>, values: seq<FieldDelta>)
    requires ScansSurvive(fields, closure, scans) && values == Accumulate(scans) && FieldsExact(sc, g, fields) && SameScalars(g, h)
    ensures forall i :: 0 <= i < |values| ==> HasField(sc, h, values[i].key)
  {
    hide Accumulate, Kept, TargetsAt;
    AccumulateKeys(scans);
    forall i | 0 <= i < |values| ensures HasField(sc, h, values[i].key) {
      assert ScanSurvives(fields, closure, scans[i]);
    }
  }

  lemma {:induction false} NothingNew(h: Graph)
    ensures var none: Graph := map[]; none.Keys !! h.Keys
  {
  }

  lemma {:induction false} RewiredKeeps(sc: Schema, ix: Image, works: Graph, g: Graph, delta: IndexDelta, w: Graph, after: Graph, h: Graph)
    requires delta.created == map[] && Overlaid(g, works, map[]) == h && Rewired(sc, ix, works, delta.created, g, delta, w, after)
    ensures SameScalars(h, after)
  {
    hide ViewExact, Ascending, Wire, AsFields, LinkAt;
  }

  lemma {:induction false} DetachedMade(sc: Schema, g: Graph, ix: Image, closure: set<NodeKey>, scans: seq<FieldDelta>, h: Graph, g': Graph,
                                        delta: IndexDelta, ix': Image)
    requires SameScalars(g, h) && SameScalars(h, g') && Patched(ix, delta, ix') && delta.targets == map[]
    requires delta.fields == Accumulate(scans) && ScansSurvive(ix.fields, closure, scans)
    ensures Detached(sc, g, ix, closure, scans, g', ix')
  {
    hide ScansSurvive, Transposed, OutgoingExact, AsFields, Accumulate;
    assert ix.targets + map[] == ix.targets;
  }

  /** With nobody to detach the committed state is already cut clean. */
  lemma {:induction false} NothingToDetach(sc: Schema, g: Graph, ix: Image, closure: set<NodeKey>)
    requires Steady(sc, g, ix) && SurvivorsListed(sc, ix.fields, closure, closure, [])
    ensures Detached(sc, g, ix, closure, [], g, ix)
  {
    hide Legal, Covers, TargetIndexExact, FieldsExact, OwnersExact, NothingDangles, ViewsExact, Transposed, OutgoingExact, AsFields;
    NothingAccumulated();
    assert ix.fields + map[] == ix.fields;
    forall fk ensures !Hits(ix.fields, closure, closure, fk) {
    }
  }

  lemma {:induction false} NothingAccumulated()
    ensures AsFields(Accumulate([])) == map[]
  {
  }

  /** What the erased index holds, against the survivors of the graph the flush started from. */
  lemma {:induction false} FlushExact(sc: Schema, g: Graph, ix: Image, closure: set<NodeKey>, scans: seq<FieldDelta>,
                                      g1: Graph, ix1: Image, left: Image, inverse: set<NodeKey>, after: Graph)
    requires Steady(sc, g, ix) && Detached(sc, g, ix, closure, scans, g1, ix1)
    requires ErasedTo(sc, g1, ix1, closure, closure, Survivors(g1, closure), left, inverse)
    requires Viewed(sc, left.fields, Survivors(g1, closure), inverse, after)
    ensures SameScalars(Survivors(g, closure), after)
    ensures FieldsExact(sc, Survivors(g, closure), left.fields) <==> forall fk :: !Lost(scans, fk)
  {
    hide *;
    SteadyParts(sc, g, ix);
    CommittedParts(sc, g, ix);
    CommittedIsLegal(sc, g, ix);
    LegalLacksNothing(sc, g);
    DetachedParts(sc, g, ix, closure, scans, g1, ix1);
    PublishedClean(ix.fields, closure, scans);
    ErasedParts(sc, g1, ix1, closure, closure, Survivors(g1, closure), left, inverse);
    SurvivorForest(sc, g, ix.fields, ix.owners, closure);
    ExactIsUnique(sc, Survivors(g, closure), FilterFields(ix.fields, closure), left.fields);
    ScalarsLeft(sc, g, g1, closure, left.fields, inverse, after);
  }

  lemma {:induction false} ExactIsUnique(sc: Schema, g: Graph, a: Fields, b: Fields)
    requires FieldsExact(sc, g, a)
    ensures FieldsExact(sc, g, b) <==> b == a
  {
    if FieldsExact(sc, g, b) {
      FieldsUnique(sc, g, a, b);
    }
  }

  lemma {:induction false} ScalarsLeft(sc: Schema, g: Graph, g1: Graph, closure: set<NodeKey>, fields: Fields, inverse: set<NodeKey>, after: Graph)
    requires SameScalars(g, g1) && Viewed(sc, fields, Survivors(g1, closure), inverse, after)
    ensures SameScalars(Survivors(g, closure), after)
  {
    hide ViewExact, Ascending;
  }

  /** What the flush is meant to leave: exactly the state of a rebuild over the survivors of `g`. */
  ghost predicate RebuiltOver(sc: Schema, g: Graph, closure: set<NodeKey>, g': Graph, ix': Image) {
    Steady(sc, g', ix') && SameScalars(Survivors(g, closure), g') && FieldsExact(sc, Survivors(g, closure), ix'.fields)
  }

  /** The flush goes through: every hit field can let go, no doomed key is shared, no holder with two hits keeps an owned survivor,
      and every owned node keeps an edge to its owner that the list does not lose. */
  ghost predicate Flushable(sc: Schema, g: Graph, ix: Image, closure: set<NodeKey>, survivors: seq<FieldKey>) {
    && Detachable(sc, g, ix, closure) && OwnsSettled(sc, ix.fields, closure)
    && KeepsEdges(sc, ix.fields, ix.owners, closure, LostFields(sc, ix.fields, closure, survivors))
  }

  /** What the index lists afterwards: every surviving field's surviving targets, the lost ones' nothing. */
  ghost function Flushed(sc: Schema, fields: Fields, closure: set<NodeKey>, survivors: seq<FieldKey>): Fields {
    map fk | fk in fields && fk.holder !in closure :: if LostIn(sc, fields, closure, survivors, fk) then [] else Kept(fields[fk], closure)
  }

  /** The builder refused after the survivors had let go: their rows stay that way. */
  ghost predicate FellBack(sc: Schema, g: Graph, ix: Image, explicit: set<NodeKey>, closure: set<NodeKey>, survivors: seq<FieldKey>, after: Graph) {
    && explicit <= g.Keys && Detachable(sc, g, ix, closure) && SurvivorsListed(sc, ix.fields, closure, closure, survivors)
    && Dropped(sc, g, ix.targets, closure, survivors, after)
  }

  /** Flush pure deletes against the committed index. `false` leaves the flush to a full rebuild. `survivors` is the order in which
      the hit fields were listed: the iteration over the doomed set is left open, each bucket is read as it stands. */
  method FlushDeletesViaDelta(index: CommittedIndex, explicit: set<NodeKey>)
    returns (done: bool, closure: set<NodeKey>, survivors: seq<FieldKey>)
    requires index.Valid() && Steady(index.sc, index.graph, index.Contents())
    modifies index, index.rows
    ensures index.Valid() && (done ==> explicit <= old(index.graph).Keys)
    ensures !done ==> index.Contents() == old(index.Contents())
                      && (index.graph == old(index.graph)
                          || FellBack(index.sc, old(index.graph), old(index.Contents()), explicit, closure, survivors, index.graph))
    ensures explicit <= old(index.graph).Keys ==>
              && LeastClosure(old(index.graph), old(index.owners), old(index.owners), explicit, closure)
              && (Detachable(index.sc, old(index.graph), old(index.Contents()), closure) ==>
                    SurvivorsListed(index.sc, old(index.fields), closure, closure, survivors) && Producible(old(index.incoming), closure, survivors))
              && (done <==> Flushable(index.sc, old(index.graph), old(index.Contents()), closure, survivors))
    ensures done ==> SameScalars(Survivors(old(index.graph), closure), index.graph)
    ensures done ==> (RebuiltOver(index.sc, old(index.graph), closure, index.graph, index.Contents()) <==>
                      forall fk :: !LostIn(index.sc, old(index.fields), closure, survivors, fk))
    ensures done ==> index.fields == Flushed(index.sc, old(index.fields), closure, survivors) && index.owners == old(index.owners) - closure
    ensures done ==> Transposed(index.fields, index.Contents().counts) && OutgoingExact(index.owners, index.outgoing)
    ensures index.nodes == if done then old(index.nodes) - closure else old(index.nodes)
    ensures fresh(index.rows - old(index.rows))
  {
    hide *;
    closure, survivors := {}, [];
    ghost var sc, g, ix := index.sc, index.graph, index.Contents();
    StartingPoint(index);
    IndexParts(index);
    SteadyParts(sc, g, ix);
    CommittedParts(sc, g, ix);
    NodesLive(index);
    if !(explicit <= index.nodes.Keys) {
      return false, closure, survivors;
    }
    CommittedOwners(sc, g, ix);
    OwnersOf(sc, g, ix);
    closure := CommittedClosure(index.outgoing, g, index.owners, explicit);
    LeastIsClosed(g, index.owners, index.owners, explicit, closure);
    var ok: bool;
    ok, survivors := CollectSurvivors(index, closure);
    FlushableIs(sc, g, ix, closure, survivors);
    if !ok {
      return false, closure, survivors;
    }
    ghost var scans: seq<FieldDelta> := [];
    if survivors != [] {
      ok, scans := DetachSurvivors(index, closure, survivors);
      if !ok {
        FellBackIs(sc, g, ix, explicit, closure, survivors, index.graph);
        return false, closure, survivors;
      }
    } else {
      NothingToDetach(sc, g, ix, closure);
      NobodyHit(sc, ix, closure);
      NothingLostYet(sc, ix.fields, closure);
    }
    ghost var g1, ix1 := index.graph, index.Contents();
    DetachedErasable(sc, g, ix, closure, scans, g1, ix1);
    DetachedParts(sc, g, ix, closure, scans, g1, ix1);
    IndexParts(index);
    ghost var left, inverse;
    left, inverse := RemoveDeletedFromCommittedIndex(index, closure);
    FlushExact(sc, g, ix, closure, scans, g1, ix1, left, inverse, index.graph);
    FlushedNodes(index, left, closure);
    FlushedFields(sc, g1, ix, closure, survivors, scans, ix1, left, inverse);
    ErasedParts(sc, g1, ix1, closure, closure, Survivors(g1, closure), left, inverse);
    OwnersUncut(g, ix.owners, left.outgoing, left.owners, closure);
    if forall fk :: !Lost(scans, fk) {
      DetachedCut(sc, g, ix, closure, scans, g1, ix1);
      ErasedSteady(sc, g1, ix1, closure, left, inverse, index.graph);
    }
    RebuiltIs(sc, g, closure, index.graph, left);
    done := true;
  }

  lemma {:induction false} FlushableIs(sc: Schema, g: Graph, ix: Image, closure: set<NodeKey>, survivors: seq<FieldKey>)
    ensures Detachable(sc, g, ix, closure) <==> AllDroppable(sc, ix.fields, closure, closure)
                                                && forall k :: k in closure ==> KeysUnshared(ix.targetFields, ix.targets, g, k)
    ensures Flushable(sc, g, ix, closure, survivors) <==>
            && Detachable(sc, g, ix, closure) && OwnsSettled(sc, ix.fields, closure)
            && KeepsEdges(sc, ix.fields, ix.owners, closure, LostFields(sc, ix.fields, closure, survivors))
  {
  }

  lemma {:induction false} FellBackIs(sc: Schema, g: Graph, ix: Image, explicit: set<NodeKey>, closure: set<NodeKey>, survivors: seq<FieldKey>, after: Graph)
    requires explicit <= g.Keys && Detachable(sc, g, ix, closure) && SurvivorsListed(sc, ix.fields, closure, closure, survivors)
    requires Dropped(sc, g, ix.targets, closure, survivors, after)
    ensures FellBack(sc, g, ix, explicit, closure, survivors, after)
  {
    hide Detachable, SurvivorsListed, Dropped;
  }

  lemma {:induction false} RebuiltIs(sc: Schema, g: Graph, closure: set<NodeKey>, g': Graph, ix': Image)
    ensures RebuiltOver(sc, g, closure, g', ix') <==>
            Steady(sc, g', ix') && SameScalars(Survivors(g, closure), g') && FieldsExact(sc, Survivors(g, closure), ix'.fields)
  {
  }

  lemma {:induction false} NothingLostYet(sc: Schema, fields: Fields, closure: set<NodeKey>)
    ensures forall fk :: Lost([], fk) <==> LostIn(sc, fields, closure, [], fk)
  {
    hide Kept;
  }

  /** What the erased index lists, field by field. */
  lemma {:induction false} FlushedFields(sc: Schema, g1: Graph, ix: Image, closure: set<NodeKey>, survivors: seq<FieldKey>, scans: seq<FieldDelta>,
                                         ix1: Image, left: Image, inverse: set<NodeKey>)
    requires ix1.fields == ix.fields + AsFields(Accumulate(scans)) && ScansSurvive(ix.fields, closure, scans)
    requires ErasedTo(sc, g1, ix1, closure, closure, Survivors(g1, closure), left, inverse)
    requires forall fk :: Lost(scans, fk) <==> LostIn(sc, ix.fields, closure, survivors, fk)
    ensures left.fields == Flushed(sc, ix.fields, closure, survivors)
  {
    hide *;
    var flushed := Flushed(sc, ix.fields, closure, survivors);
    ErasedParts(sc, g1, ix1, closure, closure, Survivors(g1, closure), left, inverse);
    PublishedClean(ix.fields, closure, scans);
    forall fk ensures fk in left.fields <==> fk in flushed
      ensures fk in left.fields ==> left.fields[fk] == flushed[fk]
    {
      WithoutAt(ix1.fields, closure, fk);
      FlushedAt(sc, ix.fields, closure, survivors, fk);
      if fk in ix.fields && fk.holder !in closure {
        PublishedField(ix.fields, closure, scans, fk);
      }
    }
    SameMap(left.fields, flushed);
  }

  lemma {:induction false} FlushedAt(sc: Schema, fields: Fields, closure: set<NodeKey>, survivors: seq<FieldKey>, fk: FieldKey)
    ensures fk in Flushed(sc, fields, closure, survivors) <==> fk in fields && fk.holder !in closure
    ensures fk in fields && fk.holder !in closure ==>
              Flushed(sc, fields, closure, survivors)[fk] == if LostIn(sc, fields, closure, survivors, fk) then [] else Kept(fields[fk], closure)
  {
    hide Kept, LostIn;
  }

  lemma {:induction false} WithoutAt(fields: Fields, closure: set<NodeKey>, fk: FieldKey)
    ensures fk in FieldsWithout(fields, closure) <==> fk in fields && fk.holder !in closure
    ensures fk in FieldsWithout(fields, closure) ==> FieldsWithout(fields, closure)[fk] == fields[fk]
  {
  }

  lemma {:induction false} NobodyHit(sc: Schema, ix: Image, closure: set<NodeKey>)
    requires SurvivorsListed(sc, ix.fields, closure, closure, []) && OwnersExact(sc, ix.fields, ix.owners)
    ensures OwnsSettled(sc, ix.fields, closure) && KeepsEdges(sc, ix.fields, ix.owners, closure, LostFields(sc, ix.fields, closure, []))
  {
    forall fk ensures !Hits(ix.fields, closure, closure, fk) {
    }
    hide Hits, OwnersExact;
    NoHitsNothingLost(sc, ix.fields, ix.owners, closure);
  }

  lemma {:induction false} CommittedOwners(sc: Schema, g: Graph, ix: Image)
    requires Steady(sc, g, ix)
    ensures ix.owners.Keys <= g.Keys
  {
    OwnersAreNodes(sc, g, ix.fields, ix.owners, g.Keys + ix.owners.Keys);
  }

  lemma {:induction false} FlushedNodes(index: CommittedIndex, left: Image, closure: set<NodeKey>)
    requires index.Valid() && index.Contents() == left
    ensures index.fields == left.fields && index.owners == left.owners && index.outgoing == left.outgoing
  {
  }

  /** With no field exposed the order does not matter: nothing is lost, and the flush goes through exactly when the hit fields can
      let go, no doomed key is shared, no holder with two hits keeps an owned survivor and no doomed node loses a surviving owner. */
  lemma {:induction false} UnexposedFlush(sc: Schema, g: Graph, ix: Image, closure: set<NodeKey>, survivors: seq<FieldKey>)
    requires OwnersExact(sc, ix.fields, ix.owners) && SurvivorsListed(sc, ix.fields, closure, closure, survivors)
    requires forall fk :: !Exposed(sc, ix.fields, closure, fk)
    ensures forall fk :: !LostIn(sc, ix.fields, closure, survivors, fk)
    ensures Flushable(sc, g, ix, closure, survivors) <==>
            Detachable(sc, g, ix, closure) && OwnsSettled(sc, ix.fields, closure) && NoneOrphaned(sc, ix.fields, ix.owners, closure)
  {
    hide *;
    forall fk ensures !LostIn(sc, ix.fields, closure, survivors, fk) {
      if LostIn(sc, ix.fields, closure, survivors, fk) {
        LostIsExposed(sc, ix.fields, closure, survivors, fk);
        assert false;
      }
    }
    NothingLostSet(sc, ix.fields, closure, survivors);
    OrphansOnly(sc, ix.fields, ix.owners, closure);
    FlushableIs(sc, g, ix, closure, survivors);
  }

  lemma {:induction false} NothingLostSet(sc: Schema, fields: Fields, closure: set<NodeKey>, survivors: seq<FieldKey>)
    requires forall fk :: !LostIn(sc, fields, closure, survivors, fk)
    ensures LostFields(sc, fields, closure, survivors) == {}
  {
    hide LostIn;
  }
}
