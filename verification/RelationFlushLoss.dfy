/** A steady state in which flushing two deletes empties a borrow of a survivor, whatever order the deletes are visited in. */
module RelationFlushLoss {
  import opened RelationSchema
  import opened Wrappers
  import opened Ordering
  import opened RelationGraph
  import opened RelationScan
  import opened RelationModels
  import opened RelationIndexes
  import opened RelationOverlays
  import opened RelationIndexDeltas
  import opened RelationRewiring
  import opened RelationSurvivors
  import opened RelationDeletions
  import opened RelationDeleteDelta
  import opened RelationScanOrder
  import opened RelationListings
  import opened RelationOrphans
  import opened RelationDeleteFlush
  import opened RelationRuns
  import opened RelationIds

  /** A holder with two options and a required borrow, all looked up by id. */
  const SCHEMA: Schema := map["Holder" := map[
                                0 := Spec("First", "Item", Optional, "Id", false),
                                1 := Spec("Second", "Item", Optional, "Id", false),
                                2 := Spec("Friend", "Person", Borrow, "Id", false)]]

  const HOLDER := NodeKey("Holder", 1)
  const FIRST := NodeKey("Item", 1)
  const SECOND := NodeKey("Item", 2)
  const FRIEND := NodeKey("Person", 1)

  const BORROW := FieldKey(HOLDER, 2)

  const ROWS: Graph := map[
    HOLDER := IdRow(1, map[0 := [Some(IntValue(1))], 1 := [Some(IntValue(2))], 2 := [Some(IntValue(1))]]),
    FIRST := IdRow(1, map[]),
    SECOND := IdRow(2, map[]),
    FRIEND := IdRow(1, map[])]

  const FIELDS: Fields := map[FieldKey(HOLDER, 0) := [FIRST], FieldKey(HOLDER, 1) := [SECOND], BORROW := [FRIEND]]

  // ---------------------------------------------------------------- the state

  lemma {:induction false} OnlyFields(g: Graph, fk: FieldKey)
    requires g.Keys <= ROWS.Keys && HasField(SCHEMA, g, fk)
    ensures fk.holder == HOLDER && fk.field in {0, 1, 2}
  {
  }

  lemma {:induction false} FieldOf(fk: FieldKey)
    requires HasField(SCHEMA, ROWS, fk)
    ensures fk in FIELDS && FIELDS[fk] == TargetsAt(SCHEMA, ROWS, fk) && FieldLegal(SCHEMA, ROWS, fk)
    ensures forall lk, i :: !DanglesAt(SCHEMA, ROWS, fk, lk, i)
  {
    OnlyFields(ROWS, fk);
    ToOneReaches(SCHEMA, ROWS, fk, if fk.field == 1 then 2 else 1);
  }

  lemma {:induction false} FieldsOfState()
    ensures FieldsExact(SCHEMA, ROWS, FIELDS) && LegalRefs(SCHEMA, ROWS) && NothingDangles(SCHEMA, ROWS)
  {
    hide TargetsAt, FieldLegal, DanglesAt;
    forall fk | HasField(SCHEMA, ROWS, fk)
      ensures fk in FIELDS && FIELDS[fk] == TargetsAt(SCHEMA, ROWS, fk) && FieldLegal(SCHEMA, ROWS, fk)
      ensures forall lk, i :: !DanglesAt(SCHEMA, ROWS, fk, lk, i)
    {
      FieldOf(fk);
    }
    forall fk, lk, i ensures !DanglesAt(SCHEMA, ROWS, fk, lk, i) {
      DanglesDeclared(fk, lk, i);
    }
  }

  lemma {:induction false} DanglesDeclared(fk: FieldKey, lk: TargetKey, i: int)
    ensures DanglesAt(SCHEMA, ROWS, fk, lk, i) ==> HasField(SCHEMA, ROWS, fk)
  {
  }

  lemma {:induction false} NobodyOwns(fields: Fields)
    requires forall fk :: fk in fields ==> HasField(SCHEMA, ROWS, fk)
    ensures ForestLegal(SCHEMA, fields, map[])
  {
    forall fk ensures !(fk in fields && IsOwn(SCHEMA, fk.holder.typ, fk.field)) && !(fk in fields && IsOwnedBy(SCHEMA, fk.holder.typ, fk.field)) {
      if fk in fields {
        OnlyFields(ROWS, fk);
      }
    }
    NoneCyclic();
  }

  lemma {:induction false} SchemaWellFormed()
    ensures WellFormed(SCHEMA)
  {
  }

  lemma {:induction false} NoViews(g: Graph, fields: Fields)
    requires g.Keys <= ROWS.Keys
    ensures ViewsExact(SCHEMA, g, fields)
  {
    hide ViewExact;
    assert forall k, f :: k in g ==> !IsView(SCHEMA, k.typ, f);
  }

  lemma {:induction false} FieldsDeclared()
    ensures forall fk :: fk in FIELDS ==> HasField(SCHEMA, ROWS, fk)
  {
  }

  lemma {:induction false} StateIsLegal()
    ensures WellFormed(SCHEMA) && Legal(SCHEMA, ROWS) && NothingDangles(SCHEMA, ROWS) && ViewsExact(SCHEMA, ROWS, FIELDS)
    ensures FieldsExact(SCHEMA, ROWS, FIELDS) && ForestLegal(SCHEMA, FIELDS, map[])
  {
    hide *;
    SchemaWellFormed();
    FieldsOfState();
    FieldsDeclared();
    NobodyOwns(FIELDS);
    NoViews(ROWS, FIELDS);
    LegalBy(SCHEMA, ROWS, FIELDS, map[]);
  }

  lemma {:induction false} AtTheirAddresses(holder: LiveRow, first: LiveRow, second: LiveRow, friend: LiveRow, values: map<NodeKey, LiveRow>)
    requires holder.key == HOLDER && first.key == FIRST && second.key == SECOND && friend.key == FRIEND
    requires holder.row == ROWS[HOLDER] && first.row == ROWS[FIRST] && second.row == ROWS[SECOND] && friend.row == ROWS[FRIEND]
    requires values == map[HOLDER := holder, FIRST := first, SECOND := second, FRIEND := friend]
    ensures AddressesOf(values, {holder, first, second, friend}, ROWS)
  {
    assert values.Keys == ROWS.Keys == {HOLDER, FIRST, SECOND, FRIEND};
  }

  lemma {:induction false} RowsOfState()
    ensures HOLDER in ROWS && FIRST in ROWS && SECOND in ROWS && FRIEND in ROWS
  {
  }

  /** The rows at addresses of their own, and the first index over them. */
  method StartState() returns (index: CommittedIndex)
    ensures fresh(index) && fresh(index.rows) && index.Valid() && index.sc == SCHEMA && index.graph == ROWS
    ensures Steady(SCHEMA, ROWS, index.Contents()) && index.fields == FIELDS && index.owners == map[]
  {
    hide *;
    RowsOfState();
    var holder := new LiveRow(HOLDER, ROWS[HOLDER]);
    var first := new LiveRow(FIRST, ROWS[FIRST]);
    var second := new LiveRow(SECOND, ROWS[SECOND]);
    var friend := new LiveRow(FRIEND, ROWS[FRIEND]);
    var values := map[HOLDER := holder, FIRST := first, SECOND := second, FRIEND := friend];
    AtTheirAddresses(holder, first, second, friend, values);
    StateIsLegal();
    var started := StartIndex(SCHEMA, ROWS, values, {holder, first, second, friend});
    StartedFields(started.Contents());
    index := started;
    IndexParts(index);
  }

  lemma {:induction false} StartedFields(ix: Image)
    requires Committed(SCHEMA, ROWS, ix)
    ensures ix.fields == FIELDS && ix.owners == map[]
  {
    StateIsLegal();
    CommittedParts(SCHEMA, ROWS, ix);
    hide FieldsExact, ForestLegal, Committed;
    FieldsUnique(SCHEMA, ROWS, ix.fields, FIELDS);
    OneForest(SCHEMA, FIELDS, ix.owners, map[]);
  }

  // ---------------------------------------------------------------- the flush

  const DOOMED := {FIRST, SECOND}

  lemma {:induction false} NothingCascades(closure: set<NodeKey>)
    requires LeastClosure(ROWS, map[], map[], DOOMED, closure)
    ensures closure == DOOMED
  {
    assert CascadeClosed(ROWS, map[], map[], DOOMED);
  }

  lemma {:induction false} TheHits(fk: FieldKey)
    ensures Hits(FIELDS, DOOMED, DOOMED, fk) <==> fk == FieldKey(HOLDER, 0) || fk == FieldKey(HOLDER, 1)
  {
    assert FIRST in FIELDS[FieldKey(HOLDER, 0)] && SECOND in FIELDS[FieldKey(HOLDER, 1)];
  }

  lemma {:induction false} IdIsSole(k: NodeKey, lk: TargetKey)
    requires Bears(ROWS, k, lk)
    ensures forall j :: Bears(ROWS, j, lk) ==> Sole(ROWS, j, lk)
  {
    assert lk.field == "Id";
  }

  lemma {:induction false} NoKeyShared(ix: Image, k: NodeKey)
    requires Committed(SCHEMA, ROWS, ix)
    ensures KeysUnshared(ix.targetFields, ix.targets, ROWS, k)
  {
    CommittedParts(SCHEMA, ROWS, ix);
    hide Committed, Bears, Sole, Covers, FieldsExact, Transposed, LegalRefs, ForestLegal;
    forall lk | Bears(ROWS, k, lk) && lk in ix.targets ensures !ix.targets[lk].duplicate {
      IdIsSole(k, lk);
      assert Bears(ROWS, ix.targets[lk].key, lk);
    }
  }

  lemma {:induction false} StateDetaches(ix: Image)
    requires Committed(SCHEMA, ROWS, ix) && ix.fields == FIELDS
    ensures Detachable(SCHEMA, ROWS, ix, DOOMED)
  {
    hide *;
    forall k | k in DOOMED ensures KeysUnshared(ix.targetFields, ix.targets, ROWS, k) {
      NoKeyShared(ix, k);
    }
    forall fk ensures Hits(FIELDS, DOOMED, DOOMED, fk) ==> Droppable(SCHEMA, fk) {
      TheHits(fk);
      OptionsDrop(fk);
    }
    AllDrop();
    FlushableIs(SCHEMA, ROWS, ix, DOOMED, []);
  }

  lemma {:induction false} OptionsDrop(fk: FieldKey)
    ensures fk == FieldKey(HOLDER, 0) || fk == FieldKey(HOLDER, 1) ==> Droppable(SCHEMA, fk)
  {
  }

  lemma {:induction false} AllDrop()
    requires forall fk :: Hits(FIELDS, DOOMED, DOOMED, fk) ==> Droppable(SCHEMA, fk)
    ensures AllDroppable(SCHEMA, FIELDS, DOOMED, DOOMED)
  {
    hide Hits, Droppable;
  }

  lemma {:induction false} StateFlushes(ix: Image, survivors: seq<FieldKey>)
    requires Committed(SCHEMA, ROWS, ix) && ix.fields == FIELDS && ix.owners == map[]
    ensures Detachable(SCHEMA, ROWS, ix, DOOMED) && Flushable(SCHEMA, ROWS, ix, DOOMED, survivors)
  {
    hide *;
    StateDetaches(ix);
    NobodyOwned(LostFields(SCHEMA, FIELDS, DOOMED, survivors));
    FlushableIs(SCHEMA, ROWS, ix, DOOMED, survivors);
  }

  lemma {:induction false} NobodyOwned(lost: set<FieldKey>)
    ensures OwnsSettled(SCHEMA, FIELDS, DOOMED) && KeepsEdges(SCHEMA, FIELDS, map[], DOOMED, lost)
  {
    hide Kept, HitsOf, KeepsEdge;
    assert forall fk :: fk in FIELDS ==> !IsOwn(SCHEMA, fk.holder.typ, fk.field);
  }

  lemma {:induction false} TwoListed(survivors: seq<FieldKey>)
    requires Distinct(survivors) && forall fk :: fk in survivors <==> fk == FieldKey(HOLDER, 0) || fk == FieldKey(HOLDER, 1)
    ensures |survivors| == 2 && survivors[0].holder == HOLDER && survivors[1].holder == HOLDER
  {
    forall i | 0 <= i < |survivors| ensures survivors[i].holder == HOLDER {
      assert survivors[i] in survivors;
    }
    OffsetExactly(SCHEMA, survivors, HOLDER);
    ListingsAre(survivors, HOLDER);
    assert ListedOf(survivors, HOLDER) == {FieldKey(HOLDER, 0), FieldKey(HOLDER, 1)};
  }

  lemma {:induction false} HolderWidth()
    ensures Width(SCHEMA, "Holder") == 3 && Rank(SCHEMA, BORROW) == 2
  {
    assert FieldsOfType(SCHEMA, "Holder") == {0, 1, 2};
    assert Earlier({0, 1, 2}, 2) == {0, 1};
  }

  /** The second listing of the holder starts at the fourth entry. */
  lemma {:induction false} HolderListings(survivors: seq<FieldKey>)
    requires |survivors| == 2 && survivors[0].holder == HOLDER && survivors[1].holder == HOLDER
    ensures Listings(survivors, HOLDER) == 2 && LastListing(survivors, HOLDER) == 1 && Offset(SCHEMA, survivors[..1]) == Width(SCHEMA, "Holder")
  {
    hide Width;
    var one := survivors[..1];
    assert one[..0] == [] && one[0] == survivors[0];
    assert Listings(one, HOLDER) == 1 && Offset(SCHEMA, one) == Width(SCHEMA, "Holder");
    assert survivors[..|survivors| - 1] == one;
  }

  /** Whichever option is listed first, the borrow's last scan is the sixth. */
  lemma {:induction false} BorrowIsLost(survivors: seq<FieldKey>)
    requires SurvivorsListed(SCHEMA, FIELDS, DOOMED, DOOMED, survivors)
    ensures LostIn(SCHEMA, FIELDS, DOOMED, survivors, BORROW) && Kept(FIELDS[BORROW], DOOMED) == [FRIEND]
  {
    forall fk ensures fk in survivors <==> fk == FieldKey(HOLDER, 0) || fk == FieldKey(HOLDER, 1) {
      TheHits(fk);
    }
    KeptAll([FRIEND], DOOMED);
    HolderWidth();
    hide Hits, Kept, Width, Rank, Offset, Listings, LastListing;
    TwoListed(survivors);
    HolderListings(survivors);
  }

  /** Delete both options' targets of a holder that also borrows a survivor: the flush goes through on the delta path and the
      borrow, which a rebuild over the survivors would keep, is gone. */
  method FlushLosesBorrow() returns (index: CommittedIndex, done: bool)
    ensures index.Valid() && index.sc == SCHEMA && done
    ensures FRIEND in index.graph && BORROW in index.fields && index.fields[BORROW] == []
    ensures HasField(SCHEMA, Survivors(ROWS, DOOMED), BORROW) && TargetsAt(SCHEMA, Survivors(ROWS, DOOMED), BORROW) == [FRIEND]
    ensures !RebuiltOver(SCHEMA, ROWS, DOOMED, index.graph, index.Contents())
  {
    hide *;
    index := StartState();
    ghost var ix := index.Contents();
    IndexParts(index);
    StateCommitted(ix);
    var closure, survivors;
    done, closure, survivors := FlushDeletesViaDelta(index, DOOMED);
    NothingCascades(closure);
    StateFlushes(ix, survivors);
    BorrowIsLost(survivors);
    FlushedAt(SCHEMA, FIELDS, DOOMED, survivors, BORROW);
    BorrowSurvives(index.graph);
  }

  lemma {:induction false} StateCommitted(ix: Image)
    requires Steady(SCHEMA, ROWS, ix)
    ensures Committed(SCHEMA, ROWS, ix) && DOOMED <= ROWS.Keys
  {
  }

  lemma {:induction false} BorrowSurvives(after: Graph)
    requires SameScalars(Survivors(ROWS, DOOMED), after)
    ensures FRIEND in after && BORROW in FIELDS && BORROW.holder !in DOOMED
    ensures HasField(SCHEMA, Survivors(ROWS, DOOMED), BORROW) && TargetsAt(SCHEMA, Survivors(ROWS, DOOMED), BORROW) == [FRIEND]
  {
    ToOneReaches(SCHEMA, Survivors(ROWS, DOOMED), BORROW, 1);
  }
}
