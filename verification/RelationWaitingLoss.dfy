/** A committed graph and a new row for which the index delta is built and its patched fields are not those of a rebuild. */
module RelationWaitingLoss {
  import opened RelationSchema
  import opened Wrappers
  import opened RelationGraph
  import opened RelationScan
  import opened RelationFieldDeltas
  import opened RelationIndexes
  import opened RelationOverlays
  import opened RelationDeltas
  import opened RelationIndexDeltas
  import opened RelationRuns
  import opened RelationIds

  /** A holder with one option, looked up by id. */
  const SCHEMA: Schema := map["Holder" := map[0 := Spec("Choice", "Item", Optional, "Id", false)]]

  const HOLDER := NodeKey("Holder", 1)
  const LATE := NodeKey("Item", 7)
  const CHOICE := FieldKey(HOLDER, 0)

  /** The option names an item that is not there. */
  const ROWS: Graph := map[HOLDER := IdRow(1, map[0 := [Some(IntValue(7))]])]

  const CREATES: Graph := map[LATE := IdRow(7, map[])]

  lemma {:induction false} OnlyField(g: Graph, fk: FieldKey)
    requires g.Keys <= {HOLDER, LATE}
    ensures HasField(SCHEMA, g, fk) <==> fk == CHOICE && HOLDER in g
  {
  }

  /** The option is legal and reaches nothing; a field that may be missing may dangle. */
  lemma {:induction false} ChoiceDangles()
    ensures HasField(SCHEMA, ROWS, CHOICE) && TargetsAt(SCHEMA, ROWS, CHOICE) == [] && FieldLegal(SCHEMA, ROWS, CHOICE)
    ensures DanglesAt(SCHEMA, ROWS, CHOICE, TargetKey("Item", "Id", IntValue(7)), 0)
  {
    OnlyField(ROWS, CHOICE);
    var refs := RefsAt(SCHEMA, ROWS, CHOICE);
    IdResolves(ROWS, "Item", 7);
    assert refs == [Some(IntValue(7))] && refs[..0] == [] && refs[..1] == refs;
    TargetsStep(ROWS, SpecOf(SCHEMA, CHOICE), refs, 0);
    hide Resolve;
  }

  lemma {:induction false} RowsExact()
    ensures FieldsExact(SCHEMA, ROWS, map[CHOICE := []]) && LegalRefs(SCHEMA, ROWS)
  {
    ChoiceDangles();
    hide TargetsAt, FieldLegal;
    forall fk ensures HasField(SCHEMA, ROWS, fk) <==> fk == CHOICE {
      OnlyField(ROWS, fk);
    }
  }

  lemma {:induction false} NobodyOwns()
    ensures ForestLegal(SCHEMA, map[CHOICE := []], map[]) && WellFormed(SCHEMA)
  {
    NoneCyclic();
  }

  lemma {:induction false} StateIsLegal()
    ensures WellFormed(SCHEMA) && Legal(SCHEMA, ROWS)
  {
    hide *;
    RowsExact();
    NobodyOwns();
    LegalBy(SCHEMA, ROWS, map[CHOICE := []], map[]);
  }

  lemma {:induction false} HolderAlone(holder: LiveRow, values: map<NodeKey, LiveRow>)
    requires holder.key == HOLDER && holder.row == IdRow(1, map[0 := [Some(IntValue(7))]]) && values == map[HOLDER := holder]
    ensures AddressesOf(values, {holder}, ROWS)
  {
  }

  /** Creating the item asks nothing of the holder, so the delta takes it. */
  lemma {:induction false} CreateAcceptable(ix: Image)
    requires Committed(SCHEMA, ROWS, ix)
    ensures Acceptable(SCHEMA, ROWS, ix, [], CREATES)
    ensures ix.fields == map[CHOICE := []]
  {
    RowsExact();
    NobodyOwns();
    CommittedParts(SCHEMA, ROWS, ix);
    CreateAddressed(ix.targetFields);
    CreateRescanned();
    hide Committed, FieldsExact, ForestLegal, Addressed, Rescanned, FieldLegal, LegalRefs, Covers;
    FieldsUnique(SCHEMA, ROWS, ix.fields, map[CHOICE := []]);
    assert ix.fields + map[] == ix.fields;
    assert Accepts(SCHEMA, ROWS, ix, [], CREATES, map[], ix.owners);
  }

  lemma {:induction false} CreateAddressed(tf: TargetFields)
    ensures Addressed(SCHEMA, ROWS, tf, [], CREATES)
  {
    forall fk ensures !HasField(SCHEMA, CREATES, fk) {
      OnlyField(CREATES, fk);
    }
    forall k, j, lk | Bears(CREATES, k, lk) ensures !Bears(ROWS, j, lk) && (Bears(CREATES, j, lk) ==> j == k) {
    }
    hide Bears;
  }

  lemma {:induction false} CreateRescanned()
    ensures Rescanned(SCHEMA, ROWS, WorksOf([]), CREATES, map[])
  {
    assert WorksOf([]) + CREATES == CREATES;
    forall fk ensures !HasField(SCHEMA, CREATES, fk) {
      OnlyField(CREATES, fk);
    }
  }

  lemma {:induction false} ChoiceReaches()
    ensures HasField(SCHEMA, Overlaid(ROWS, map[], CREATES), CHOICE)
    ensures TargetsAt(SCHEMA, Overlaid(ROWS, map[], CREATES), CHOICE) == [LATE]
    ensures Waiting(SCHEMA, ROWS, map[], CREATES, CHOICE)
  {
    var h := Overlaid(ROWS, map[], CREATES);
    assert h == map[HOLDER := ROWS[HOLDER], LATE := CREATES[LATE]];
    ToOneReaches(SCHEMA, h, CHOICE, 7);
    ChoiceDangles();
    assert Bears(CREATES, LATE, TargetKey("Item", "Id", IntValue(7)));
    hide TargetsAt, DanglesAt;
  }

  lemma {:induction false} NothingPatched(sc: Schema, ix: Image, delta: IndexDelta)
    requires DeltaSound(sc, ROWS, ix, WorksOf([]), CREATES, delta) && sc == SCHEMA
    ensures AsFields(delta.fields) == map[]
  {
    CreateRescanned();
    hide Rescanned, Proposal, ForestLegal, FieldLegal, ObservedBy, CreatedTargets, AsFields;
    PatchUnique(SCHEMA, ROWS, WorksOf([]), CREATES, AsFields(delta.fields), map[]);
  }

  /** Create the item the option was waiting for: the delta is built, sound, and says nothing about the option, which the proposed
      graph resolves. */
  method CreateMissesWaiting() returns (index: CommittedIndex, r: Outcome)
    ensures index.Valid() && index.graph == ROWS && Committed(SCHEMA, ROWS, index.Contents())
    ensures r.Built? && DeltaSound(SCHEMA, ROWS, index.Contents(), map[], CREATES, r.delta)
    ensures (index.fields + AsFields(r.delta.fields)).Keys == {CHOICE} && (index.fields + AsFields(r.delta.fields))[CHOICE] == []
    ensures HasField(SCHEMA, Overlaid(ROWS, map[], CREATES), CHOICE)
    ensures TargetsAt(SCHEMA, Overlaid(ROWS, map[], CREATES), CHOICE) == [LATE]
  {
    hide *;
    var holder := new LiveRow(HOLDER, IdRow(1, map[0 := [Some(IntValue(7))]]));
    var values := map[HOLDER := holder];
    HolderAlone(holder, values);
    StateIsLegal();
    var started := StartIndex(SCHEMA, ROWS, values, {holder});
    index := started;
    SameItself(ROWS);
    CreateAcceptable(index.Contents());
    NoWorks();
    ghost var overrides, scans;
    r, overrides, scans := BuildRelationIndexDelta(index, [], CREATES, ROWS);
    NothingPatched(SCHEMA, index.Contents(), r.delta);
    ChoiceReaches();
    IndexParts(index);
    assert index.fields + map[] == index.fields;
  }

  lemma {:induction false} NoWorks()
    ensures WorksOf([]) == map[] && DistinctOverrides([])
  {
  }
}
