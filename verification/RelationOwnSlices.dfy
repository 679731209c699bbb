/** A steady state in which the delete of an owned row hits nothing but the slice that owns it, which can let go, and the delta refuses. */
module RelationOwnSlices {
  import opened RelationSchema
  import opened OwnershipForest
  import opened RelationGraph
  import opened RelationIndexes
  import opened RelationOverlays
  import opened RelationIndexDeltas
  import opened RelationSurvivors
  import opened RelationDeletions
  import opened RelationDeleteDelta
  import opened RelationOrphans
  import opened RelationDeleteFlush
  import opened RelationStaleModels

  const DOOMED := {LID}
  const OWNERS: Owners := map[LID := BOX]

  lemma {:induction false} LidAlone(g: Graph, closure: set<NodeKey>)
    requires LeastClosure(g, OWNERS, OWNERS, DOOMED, closure)
    ensures closure == DOOMED
  {
    assert CascadeClosed(g, OWNERS, OWNERS, DOOMED);
  }

  /** Only the slice points at the lid. */
  lemma {:induction false} SliceIsHit()
    ensures AllDroppable(SCHEMA, FIELDS, DOOMED, DOOMED) && Hits(FIELDS, DOOMED, DOOMED, LIDS)
  {
    assert LID in FIELDS[LIDS];
    forall fk | Hits(FIELDS, DOOMED, DOOMED, fk) ensures Droppable(SCHEMA, fk) {
      assert fk == LIDS;
    }
  }

  lemma {:induction false} NoEdgeKept(g: Graph, ix: Image, survivors: seq<FieldKey>)
    requires ix.fields == FIELDS && ix.owners == OWNERS
    ensures !Flushable(SCHEMA, g, ix, DOOMED, survivors)
  {
    hide Detachable, OwnsSettled, Kept, LostFields;
    var lost := LostFields(SCHEMA, FIELDS, DOOMED, survivors);
    forall fk ensures !OwnVia(SCHEMA, LetGo(FIELDS, DOOMED), fk, LID) {
      OwnLetGo(SCHEMA, FIELDS, DOOMED, fk, LID);
    }
    assert LID in OWNERS && !KeepsEdge(SCHEMA, FIELDS, DOOMED, lost, LID, OWNERS[LID]);
  }

  /** Delete the lid and keep its box: nothing but the own slice is hit, and the flush does not go through on the delta path. */
  method OwnSliceRefused() returns (index: CommittedIndex, done: bool)
    ensures index.Valid() && index.fields == FIELDS && index.owners == OWNERS
    ensures AllDroppable(SCHEMA, FIELDS, DOOMED, DOOMED) && Hits(FIELDS, DOOMED, DOOMED, LIDS) && !done
  {
    hide *;
    var kept;
    index, kept := CommitCreated();
    ghost var g, ix := index.graph, index.Contents();
    IndexParts(index);
    LidIsLive(g);
    var closure, survivors;
    done, closure, survivors := FlushDeletesViaDelta(index, DOOMED);
    OwnersAre();
    LidAlone(g, closure);
    SliceIsHit();
    NoEdgeKept(g, ix, survivors);
    IndexParts(index);
  }

  lemma {:induction false} LidIsLive(g: Graph)
    ensures SameScalars(CREATED, g) ==> DOOMED <= g.Keys
  {
  }

  lemma {:induction false} OwnersAre()
    ensures OWNERS == map[LID := BOX]
  {
  }
}
