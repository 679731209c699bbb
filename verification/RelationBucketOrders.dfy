/** An index whose bucket order protects a field that another order of the same hits would lose. */
module RelationBucketOrders {
  import opened RelationSchema
  import opened Wrappers
  import opened Ordering
  import opened RelationGraph
  import opened RelationContainers
  import opened RelationIndexes
  import opened RelationModels
  import opened RelationSurvivors
  import opened RelationDeleteDelta
  import opened RelationScanOrder
  import opened RelationListings
  import opened RelationListOrders

  /** A narrow holder with two options and a borrow, and a wide one. */
  const SCHEMA: Schema := map[
    "Holder" := map[
      0 := Spec("First", "Item", Optional, "Id", false),
      1 := Spec("Second", "Item", Optional, "Id", false),
      2 := Spec("Friend", "Person", Borrow, "Id", false)],
    "Wide" := map[
      0 := Spec("A", "Item", Optional, "Id", false),
      1 := Spec("B", "Item", Optional, "Id", false),
      2 := Spec("C", "Item", Optional, "Id", false)]]

  const DOOMED := NodeKey("Item", 1)
  const HOLDER := NodeKey("Holder", 1)
  const WIDE := NodeKey("Wide", 1)
  const FRIEND := NodeKey("Person", 1)

  /** Both options of the narrow holder point at the doomed item, and so does the wide one, which came first. */
  const FIELDS: Fields := map[
    FieldKey(HOLDER, 0) := [DOOMED], FieldKey(HOLDER, 1) := [DOOMED], FieldKey(HOLDER, 2) := [FRIEND],
    FieldKey(WIDE, 0) := [DOOMED], FieldKey(WIDE, 1) := [], FieldKey(WIDE, 2) := []]

  const BUCKETS: Buckets := map[
    DOOMED := Bucket(
      [IncomingCount(FieldKey(WIDE, 0), 1), IncomingCount(FieldKey(HOLDER, 0), 1), IncomingCount(FieldKey(HOLDER, 1), 1)], None),
    FRIEND := Bucket([IncomingCount(FieldKey(HOLDER, 2), 1)], None)]

  const COUNTS: Counts := map[DOOMED := multiset{FieldKey(WIDE, 0), FieldKey(HOLDER, 0), FieldKey(HOLDER, 1)},
                              FRIEND := multiset{FieldKey(HOLDER, 2)}]

  lemma {:induction false} TransposedAt(t: NodeKey, fk: FieldKey)
    ensures CountIn(COUNTS, t, fk) == Mult(FIELDS, fk, t)
  {
    if fk in FIELDS && FIELDS[fk] == [DOOMED] {
      assert multiset(FIELDS[fk]) == multiset{DOOMED};
    } else if fk in FIELDS && FIELDS[fk] == [FRIEND] {
      assert multiset(FIELDS[fk]) == multiset{FRIEND};
    }
  }

  lemma {:induction false} BucketsValid()
    ensures BucketValid(BUCKETS[DOOMED], COUNTS[DOOMED]) && BucketValid(BUCKETS[FRIEND], COUNTS[FRIEND])
  {
    var entries, single := BUCKETS[DOOMED].entries, BUCKETS[FRIEND].entries;
    assert entries[0].field == FieldKey(WIDE, 0) && entries[1].field == FieldKey(HOLDER, 0) && entries[2].field == FieldKey(HOLDER, 1);
    assert Holds(entries, FieldKey(WIDE, 0)) && Holds(entries, FieldKey(HOLDER, 0)) && Holds(entries, FieldKey(HOLDER, 1));
    assert single[0].field == FieldKey(HOLDER, 2) && Holds(single, FieldKey(HOLDER, 2));
  }

  lemma {:induction false} BucketsCount()
    ensures BucketsMatch(BUCKETS, COUNTS) && Transposed(FIELDS, COUNTS)
  {
    hide BucketValid, CountIn, Mult;
    BucketsValid();
    forall t, fk ensures CountIn(COUNTS, t, fk) == Mult(FIELDS, fk, t) {
      TransposedAt(t, fk);
    }
  }

  lemma {:induction false} Widths()
    ensures Width(SCHEMA, "Holder") == 3 && Width(SCHEMA, "Wide") == 3 && Rank(SCHEMA, FieldKey(HOLDER, 2)) == 2
  {
    assert FieldsOfType(SCHEMA, "Holder") == {0, 1, 2} && FieldsOfType(SCHEMA, "Wide") == {0, 1, 2};
    assert Earlier({0, 1, 2}, 2) == {0, 1};
  }

  lemma {:induction false} OnlyBucket()
    ensures GatherAll(BUCKETS, {DOOMED}, [DOOMED]) == [FieldKey(WIDE, 0), FieldKey(HOLDER, 0), FieldKey(HOLDER, 1)]
  {
    var entries := BUCKETS[DOOMED].entries;
    var w, a, b := FieldKey(WIDE, 0), FieldKey(HOLDER, 0), FieldKey(HOLDER, 1);
    GatherNothing({DOOMED}, entries, []);
    GatherStep({DOOMED}, entries, 0, []);
    GatherStep({DOOMED}, entries, 1, []);
    GatherStep({DOOMED}, entries, 2, []);
    assert entries[..3] == entries;
    GatherAllStep(BUCKETS, {DOOMED}, [], DOOMED);
    assert [] + [DOOMED] == [DOOMED];
  }

  lemma {:induction false} AllSame(first: seq<NodeKey>)
    requires forall k :: k in first ==> k == DOOMED
    ensures |first| <= 1 || (first[0] == first[1])
    ensures first != [] ==> first[0] == DOOMED
  {
    assert forall i :: 0 <= i < |first| ==> first[i] in first;
  }

  lemma {:induction false} FirstIsAll(first: seq<NodeKey>)
    requires Distinct(first) && first != [] && forall k :: k in first ==> k in {DOOMED}
    ensures first == [DOOMED]
  {
    AllSame(first);
  }

  /** The only list this index can produce starts with the wide holder. */
  lemma {:induction false} LateOffset(list: seq<FieldKey>)
    requires list == [FieldKey(WIDE, 0), FieldKey(HOLDER, 0), FieldKey(HOLDER, 1)]
    ensures LastListing(list, HOLDER) == 2 && Offset(SCHEMA, list[..2]) == 6
  {
    Widths();
    hide Width;
    assert list[..2][..1] == list[..1] && list[..1][..0] == [];
    assert Offset(SCHEMA, list[..1]) == 3;
  }

  lemma {:induction false} TwoHits()
    ensures HitsOf(FIELDS, {DOOMED}, HOLDER) == {FieldKey(HOLDER, 0), FieldKey(HOLDER, 1)}
  {
    assert DOOMED in FIELDS[FieldKey(HOLDER, 0)] && DOOMED in FIELDS[FieldKey(HOLDER, 1)];
  }

  lemma {:induction false} NotReached(first: seq<NodeKey>)
    ensures !Reached(SCHEMA, FIELDS, BUCKETS, {DOOMED}, FieldKey(HOLDER, 2), first)
  {
    hide HitsOf, Kept, Width, Rank, GatherAll, Offset, LastListing;
    Widths();
    TwoHits();
    NothingVisited(BUCKETS, {DOOMED});
    if first != [] && Distinct(first) && forall k :: k in first ==> k in {DOOMED} {
      FirstIsAll(first);
      OnlyBucket();
      LateOffset(GatherAll(BUCKETS, {DOOMED}, first));
    }
  }

  lemma {:induction false} BorrowExposed()
    ensures Exposed(SCHEMA, FIELDS, {DOOMED}, FieldKey(HOLDER, 2))
  {
    hide HitsOf, Kept, Width, Rank;
    Widths();
    TwoHits();
    assert FieldKey(HOLDER, 0) != FieldKey(HOLDER, 1);
    KeptAll(FIELDS[FieldKey(HOLDER, 2)], {DOOMED});
  }

  /** With the two options first the borrow would be lost; this index never lists them first. */
  lemma {:induction false} BucketProtects()
    ensures BucketsMatch(BUCKETS, COUNTS) && Transposed(FIELDS, COUNTS)
    ensures Exposed(SCHEMA, FIELDS, {DOOMED}, FieldKey(HOLDER, 2)) && !ExposedBy(SCHEMA, FIELDS, BUCKETS, {DOOMED}, FieldKey(HOLDER, 2))
  {
    hide BucketsMatch, Transposed, Reached, Exposed, Kept, HitsOf;
    BucketsCount();
    BorrowExposed();
    forall first ensures !Reached(SCHEMA, FIELDS, BUCKETS, {DOOMED}, FieldKey(HOLDER, 2), first) {
      NotReached(first);
    }
  }
}
