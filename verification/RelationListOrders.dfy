/** Which lists of hit fields an index can produce, and which fields publication loses for one of them. */
module RelationListOrders {
  import opened RelationSchema
  import opened Ordering
  import opened RelationGraph
  import opened RelationContainers
  import opened RelationIndexes
  import opened RelationPublishing
  import opened RelationModels
  import opened RelationSurvivors
  import opened RelationDeleteDelta
  import opened RelationScanOrder
  import opened RelationListings

  /** Visiting these doomed nodes first, eight at most, lists every hit of the holder, the last one so early that the last scan
      of the field stands among the first eight. */
  ghost predicate Reached(sc: Schema, fields: Fields, incoming: Buckets, closure: set<NodeKey>, fk: FieldKey, first: seq<NodeKey>) {
    var list := GatherAll(incoming, closure, first);
    var last := LastListing(list, fk.holder);
    && |first| <= 8 && Distinct(first) && (forall k :: k in first ==> k in closure)
    && (forall hit :: hit in HitsOf(fields, closure, fk.holder) ==> hit in list)
    && last >= 0 && Offset(sc, list[..last]) + Rank(sc, fk) < 8
  }

  /** What puts a field at risk in one index: it keeps a target, its holder points into the doomed set through two fields or more,
      and at most eight of the doomed nodes, visited first, leave its last scan among the first eight. */
  ghost predicate ExposedBy(sc: Schema, fields: Fields, incoming: Buckets, closure: set<NodeKey>, fk: FieldKey) {
    && fk in fields && Kept(fields[fk], closure) != [] && |HitsOf(fields, closure, fk.holder)| >= 2
    && exists first :: Reached(sc, fields, incoming, closure, fk, first)
  }

  // ---------------------------------------------------------------- lists grow at the end

  lemma {:induction false} GatherGrows(closure: set<NodeKey>, entries: seq<IncomingCount>, list: seq<FieldKey>)
    ensures list <= Gather(closure, entries, list)
  {
    if entries != [] {
      GatherGrows(closure, entries[..|entries| - 1], list);
    }
  }

  lemma {:induction false} GatherAllGrows(incoming: Buckets, closure: set<NodeKey>, order: seq<NodeKey>, i: nat)
    requires i <= |order|
    ensures GatherAll(incoming, closure, order[..i]) <= GatherAll(incoming, closure, order)
  {
    hide Gather;
    if i == |order| {
      assert order[..i] == order;
    } else {
      var n := |order| - 1;
      assert order[..n][..i] == order[..i];
      GatherAllGrows(incoming, closure, order[..n], i);
      GatherGrows(closure, EntriesOf(incoming, order[n]), GatherAll(incoming, closure, order[..n]));
    }
  }

  lemma {:induction false} LastStable(list: seq<FieldKey>, longer: seq<FieldKey>, holder: NodeKey)
    requires list <= longer && forall i :: |list| <= i < |longer| ==> longer[i].holder != holder
    ensures LastListing(longer, holder) == LastListing(list, holder)
  {
    if |list| < |longer| {
      LastStable(list, longer[..|longer| - 1], holder);
    } else {
      assert list == longer;
    }
  }

  // ---------------------------------------------------------------- what a list holds

  lemma {:induction false} GatherLists(sc: Schema, fields: Fields, closure: set<NodeKey>, done: set<NodeKey>, entries: seq<IncomingCount>,
                                       bag: multiset<FieldKey>, n: nat, list: seq<FieldKey>)
    requires SurvivorsListed(sc, fields, closure, done, list) && EntriesMatch(entries, bag) && n <= |entries|
    ensures EntriesListed(sc, fields, closure, done, entries, n, Gather(closure, entries[..n], list))
  {
    hide Gather, SurvivorsListed, EntriesListed;
    if n == 0 {
      EntriesStart(sc, fields, closure, done, entries, list);
      GatherNothing(closure, entries, list);
    } else {
      GatherLists(sc, fields, closure, done, entries, bag, n - 1, list);
      GatherStep(closure, entries, n - 1, list);
      EntriesStep(sc, fields, closure, done, entries, n - 1, Gather(closure, entries[..n - 1], list));
    }
  }

  /** The list of some visited nodes holds each surviving field that points at one of them, once. */
  lemma {:induction false} GatheredListed(sc: Schema, fields: Fields, incoming: Buckets, counts: Counts, closure: set<NodeKey>, order: seq<NodeKey>)
    requires BucketsMatch(incoming, counts) && Transposed(fields, counts)
    ensures SurvivorsListed(sc, fields, closure, (set k | k in order), GatherAll(incoming, closure, order))
  {
    hide BucketsMatch, Transposed, SurvivorsListed, EntriesListed, Gather, EntriesMatch;
    if order == [] {
      NoSurvivorYet(sc, fields, closure);
      assert (set k | k in order) == {};
    } else {
      var n := |order| - 1;
      var list, entries := GatherAll(incoming, closure, order[..n]), EntriesOf(incoming, order[n]);
      var done := set k | k in order[..n];
      GatheredListed(sc, fields, incoming, counts, closure, order[..n]);
      BucketOf(fields, incoming, counts, order[n]);
      GatherLists(sc, fields, closure, done, entries, BagOf(counts, order[n]), |entries|, list);
      assert entries[..|entries|] == entries;
      EntriesEnd(sc, fields, closure, done, order[n], entries, BagOf(counts, order[n]), Gather(closure, entries, list));
      assert order == order[..n] + [order[n]];
      assert (set k | k in order) == done + {order[n]};
    }
  }

  /** Every order the index can produce lists the hit fields, each once. */
  lemma {:induction false} ProducibleListed(sc: Schema, fields: Fields, incoming: Buckets, counts: Counts, closure: set<NodeKey>, survivors: seq<FieldKey>)
    requires BucketsMatch(incoming, counts) && Transposed(fields, counts) && Producible(incoming, closure, survivors)
    ensures SurvivorsListed(sc, fields, closure, closure, survivors)
  {
    hide BucketsMatch, Transposed, SurvivorsListed, GatherAll;
    var order :| Visits(order, closure) && survivors == GatherAll(incoming, closure, order);
    GatheredListed(sc, fields, incoming, counts, closure, order);
    assert (set k | k in order) == closure;
  }

  // ---------------------------------------------------------------- from an order to its first visits

  /** Visits that add nothing can be left out. */
  lemma {:induction false} UsefulVisits(incoming: Buckets, closure: set<NodeKey>, order: seq<NodeKey>) returns (useful: seq<NodeKey>)
    requires Distinct(order)
    ensures Distinct(useful) && (forall k :: k in useful ==> k in order)
    ensures GatherAll(incoming, closure, useful) == GatherAll(incoming, closure, order)
    ensures |useful| <= |GatherAll(incoming, closure, order)|
  {
    hide Gather;
    useful := [];
    if order != [] {
      var n := |order| - 1;
      var list := GatherAll(incoming, closure, order[..n]);
      useful := UsefulVisits(incoming, closure, order[..n]);
      GatherGrows(closure, EntriesOf(incoming, order[n]), list);
      if Gather(closure, EntriesOf(incoming, order[n]), list) != list {
        assert order[n] !in order[..n];
        DistinctAppend(useful, order[n]);
        GatherAllStep(incoming, closure, useful, order[n]);
        useful := useful + [order[n]];
      }
    }
  }

  /** The visit that brings an entry of the list. */
  lemma {:induction false} VisitOf(incoming: Buckets, closure: set<NodeKey>, order: seq<NodeKey>, at: nat) returns (i: nat)
    requires at < |GatherAll(incoming, closure, order)|
    ensures i < |order| && |GatherAll(incoming, closure, order[..i])| <= at < |GatherAll(incoming, closure, order[..i + 1])|
  {
    hide Gather;
    i := |order| - 1;
    assert order[..i + 1] == order;
    if at < |GatherAll(incoming, closure, order[..i])| {
      var before := order[..i];
      i := VisitOf(incoming, closure, before, at);
      assert before[..i] == order[..i] && before[..i + 1] == order[..i + 1];
    }
  }

  lemma {:induction false} AtLeastOneEach(sc: Schema, list: seq<FieldKey>)
    requires forall i :: 0 <= i < |list| ==> Width(sc, list[i].holder.typ) >= 1
    ensures Offset(sc, list) >= |list|
  {
    hide Width;
    if list != [] {
      AtLeastOneEach(sc, list[..|list| - 1]);
    }
  }

  lemma {:induction false} HitsAreWide(sc: Schema, g: Graph, fields: Fields, closure: set<NodeKey>, survivors: seq<FieldKey>, i: nat)
    requires FieldsExact(sc, g, fields) && SurvivorsListed(sc, fields, closure, closure, survivors) && i < |survivors|
    ensures Width(sc, survivors[i].holder.typ) >= 1
  {
    assert survivors[i] in survivors;
    HitIsField(fields, closure, survivors[i]);
    assert HasField(sc, g, survivors[i]);
    WidthOfField(sc, survivors[i]);
  }

  lemma {:induction false} WidthOfField(sc: Schema, fk: FieldKey)
    requires Declares(sc, fk.holder.typ, fk.field)
    ensures Width(sc, fk.holder.typ) >= 1
  {
    assert fk.field in FieldsOfType(sc, fk.holder.typ);
  }

  lemma {:induction false} AfterLast(list: seq<FieldKey>, holder: NodeKey, i: nat)
    requires LastListing(list, holder) < i < |list|
    ensures list[i].holder != holder
  {
    var n := |list| - 1;
    if i < n {
      AfterLast(list[..n], holder, i);
    }
  }

  /** A field that some produced list loses is at risk. */
  lemma {:induction false} LostIsExposedBy(sc: Schema, g: Graph, fields: Fields, incoming: Buckets, counts: Counts, closure: set<NodeKey>,
                                           survivors: seq<FieldKey>, fk: FieldKey)
    requires BucketsMatch(incoming, counts) && Transposed(fields, counts) && FieldsExact(sc, g, fields)
    requires Producible(incoming, closure, survivors) && LostIn(sc, fields, closure, survivors, fk)
    ensures ExposedBy(sc, fields, incoming, closure, fk)
  {
    hide BucketsMatch, Transposed, FieldsExact, Kept, Rank, Width, Offset, GatherAll, Listings, HitsOf;
    var last := LastListing(survivors, fk.holder);
    var order :| Visits(order, closure) && survivors == GatherAll(incoming, closure, order);
    ProducibleListed(sc, fields, incoming, counts, closure, survivors);
    HitListings(sc, fields, closure, survivors, fk.holder);
    var i := VisitOf(incoming, closure, order, last);
    GatherAllGrows(incoming, closure, order, i);
    GatherAllGrows(incoming, closure, order, i + 1);
    forall j | 0 <= j < last ensures Width(sc, survivors[..last][j].holder.typ) >= 1 {
      HitsAreWide(sc, g, fields, closure, survivors, j);
    }
    AtLeastOneEach(sc, survivors[..last]);
    var useful := UsefulVisits(incoming, closure, order[..i]);
    var first := useful + [order[i]];
    assert order[..i + 1] == order[..i] + [order[i]] && order[i] !in order[..i];
    DistinctAppend(useful, order[i]);
    GatherAllStep(incoming, closure, useful, order[i]);
    GatherAllStep(incoming, closure, order[..i], order[i]);
    ReachedFirst(sc, fields, incoming, closure, survivors, fk, first);
  }

  lemma {:induction false} ReachedFirst(sc: Schema, fields: Fields, incoming: Buckets, closure: set<NodeKey>, survivors: seq<FieldKey>,
                                        fk: FieldKey, first: seq<NodeKey>)
    requires SurvivorsListed(sc, fields, closure, closure, survivors) && LostIn(sc, fields, closure, survivors, fk)
    requires |first| <= 8 && Distinct(first) && (forall k :: k in first ==> k in closure)
    requires GatherAll(incoming, closure, first) <= survivors && LastListing(survivors, fk.holder) < |GatherAll(incoming, closure, first)|
    ensures Reached(sc, fields, incoming, closure, fk, first)
  {
    hide Kept, Rank, Offset, GatherAll, Listings, Hits;
    var list, last := GatherAll(incoming, closure, first), LastListing(survivors, fk.holder);
    forall i | last < i < |survivors| ensures survivors[i].holder != fk.holder {
      AfterLast(survivors, fk.holder, i);
    }
    LastStable(list, survivors, fk.holder);
    assert list[..last] == survivors[..last];
    forall hit | hit in HitsOf(fields, closure, fk.holder) ensures hit in list {
      assert hit in survivors;
      var i :| 0 <= i < |survivors| && survivors[i] == hit;
      assert list[i] == hit;
    }
  }

  // ---------------------------------------------------------------- from the first visits to an order

  lemma {:induction false} OrderFrom(first: seq<NodeKey>, closure: set<NodeKey>) returns (order: seq<NodeKey>)
    requires Distinct(first) && forall k :: k in first ==> k in closure
    ensures Visits(order, closure) && first <= order
    decreases closure - (set k | k in first)
  {
    var rest := closure - (set k | k in first);
    order := first;
    if rest != {} {
      var k :| k in rest;
      DistinctAppend(first, k);
      assert closure - (set x | x in first + [k]) == rest - {k};
      order := OrderFrom(first + [k], closure);
    } else {
      assert forall k :: k in closure ==> k !in rest;
    }
  }

  lemma {:induction false} OnceOnly(list: seq<FieldKey>, longer: seq<FieldKey>, i: nat)
    requires Distinct(longer) && list <= longer && |list| <= i < |longer|
    ensures longer[i] !in list
  {
    assert forall j :: 0 <= j < |list| ==> list[j] == longer[j];
  }

  /** And a field at risk is lost by a list the index can produce. */
  lemma {:induction false} ExposedByIsLost(sc: Schema, fields: Fields, incoming: Buckets, counts: Counts, closure: set<NodeKey>, fk: FieldKey)
    returns (survivors: seq<FieldKey>)
    requires BucketsMatch(incoming, counts) && Transposed(fields, counts) && ExposedBy(sc, fields, incoming, closure, fk)
    ensures Producible(incoming, closure, survivors) && LostIn(sc, fields, closure, survivors, fk)
  {
    hide BucketsMatch, Transposed, Kept, Rank, Width, Offset, GatherAll, Listings, Hits;
    var first :| Reached(sc, fields, incoming, closure, fk, first);
    var order := OrderFrom(first, closure);
    survivors := GatherAll(incoming, closure, order);
    ProducibleListed(sc, fields, incoming, counts, closure, survivors);
    HitListings(sc, fields, closure, survivors, fk.holder);
    assert order[..|first|] == first;
    GatherAllGrows(incoming, closure, order, |first|);
    var list := GatherAll(incoming, closure, first);
    forall i | |list| <= i < |survivors| ensures survivors[i].holder != fk.holder {
      var hit := survivors[i];
      OnceOnly(list, survivors, i);
      assert hit in survivors;
      HitIsField(fields, closure, hit);
      assert hit.holder == fk.holder <==> hit in HitsOf(fields, closure, fk.holder);
    }
    LastStable(list, survivors, fk.holder);
    var last := LastListing(list, fk.holder);
    assert list[..last] == survivors[..last];
  }

  /** Over the lists one index can produce: a field is lost by some of them if and only if it is at risk, no list loses
      anything if and only if no field is, and what is at risk here is exposed under any order at all. */
  lemma {:induction false} ProducedThatLose(sc: Schema, g: Graph, fields: Fields, incoming: Buckets, counts: Counts, closure: set<NodeKey>)
    requires BucketsMatch(incoming, counts) && Transposed(fields, counts) && FieldsExact(sc, g, fields)
    ensures forall fk :: (exists survivors :: Producible(incoming, closure, survivors) && LostIn(sc, fields, closure, survivors, fk))
                         <==> ExposedBy(sc, fields, incoming, closure, fk)
    ensures (forall survivors, fk :: Producible(incoming, closure, survivors) ==> !LostIn(sc, fields, closure, survivors, fk))
            <==> forall fk :: !ExposedBy(sc, fields, incoming, closure, fk)
    ensures forall fk :: ExposedBy(sc, fields, incoming, closure, fk) ==> Exposed(sc, fields, closure, fk)
  {
    hide *;
    forall fk
      ensures (exists survivors :: Producible(incoming, closure, survivors) && LostIn(sc, fields, closure, survivors, fk))
              <==> ExposedBy(sc, fields, incoming, closure, fk)
      ensures ExposedBy(sc, fields, incoming, closure, fk) ==> Exposed(sc, fields, closure, fk)
    {
      if survivors :| Producible(incoming, closure, survivors) && LostIn(sc, fields, closure, survivors, fk) {
        LostIsExposedBy(sc, g, fields, incoming, counts, closure, survivors, fk);
      }
      if ExposedBy(sc, fields, incoming, closure, fk) {
        var survivors := ExposedByIsLost(sc, fields, incoming, counts, closure, fk);
        ProducibleListed(sc, fields, incoming, counts, closure, survivors);
        LostIsExposed(sc, fields, closure, survivors, fk);
      }
    }
    forall survivors, fk | Producible(incoming, closure, survivors) && LostIn(sc, fields, closure, survivors, fk)
      ensures ExposedBy(sc, fields, incoming, closure, fk)
    {
      LostIsExposedBy(sc, g, fields, incoming, counts, closure, survivors, fk);
    }
  }
}
