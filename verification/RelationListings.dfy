/** The touched list of a flush: where the scans of a field stand in it, and which of them publication loses. */
module RelationListings {
  import opened RelationSchema
  import opened Ordering
  import opened RelationGraph
  import opened RelationModels
  import opened RelationFieldDeltas
  import opened RelationDeltas
  import opened RelationSurvivors
  import opened RelationDeleteDelta
  import opened RelationDrops
  import opened RelationScanOrder

  /** The scanned targets of `fk` went into an earlier entry than the one published last. */
  ghost predicate Lost(scans: seq<FieldDelta>, fk: FieldKey) {
    ListsKey(scans, fk) && Misplaced(scans, fk) && scans[LastAt(scans, fk)].targets != []
  }

  /** Every scan found exactly the surviving targets, and every hit field was scanned. */
  ghost predicate ScansSurvive(fields: Fields, closure: set<NodeKey>, scans: seq<FieldDelta>) {
    && (forall j :: 0 <= j < |scans| ==> ScanSurvives(fields, closure, scans[j]))
    && (forall fk :: Hits(fields, closure, closure, fk) ==> ListsKey(scans, fk))
  }

  ghost predicate ScanSurvives(fields: Fields, closure: set<NodeKey>, s: FieldDelta) {
    s.key in fields && s.key.holder !in closure && s.targets == Kept(fields[s.key], closure)
  }

  /** After publication a surviving field lists exactly its surviving targets, unless its scan was misplaced. */
  lemma {:induction false} PublishedField(fields: Fields, closure: set<NodeKey>, scans: seq<FieldDelta>, fk: FieldKey)
    requires ScansSurvive(fields, closure, scans) && fk in fields && fk.holder !in closure
    ensures var after := (fields + AsFields(Accumulate(scans)))[fk];
            && (after == Kept(fields[fk], closure) <==> !Lost(scans, fk)) && (Lost(scans, fk) ==> after == [])
            && forall t :: t in after ==> t !in closure
  {
    hide Accumulate, Kept, AsFields, Misplaced;
    AccumulateKeys(scans);
    SameKeysFound(Accumulate(scans), scans, fk);
    if ListsKey(scans, fk) {
      PublishedScan(scans, fk);
      assert ScanSurvives(fields, closure, scans[LastAt(scans, fk)]);
    } else {
      assert !Hits(fields, closure, closure, fk);
      KeptAll(fields[fk], closure);
    }
  }

  // ---------------------------------------------------------------- positions on the list

  /** How often a holder is listed. */
  function Listings(list: seq<FieldKey>, holder: NodeKey): nat {
    if list == [] then 0
    else Listings(list[..|list| - 1], holder) + if list[|list| - 1].holder == holder then 1 else 0
  }

  function LastListing(list: seq<FieldKey>, holder: NodeKey): (at: int)
    ensures -1 <= at < |list|
  {
    if list == [] then -1
    else if list[|list| - 1].holder == holder then |list| - 1
    else LastListing(list[..|list| - 1], holder)
  }

  /** How many entries the listed holders contribute. */
  function Offset(sc: Schema, list: seq<FieldKey>): nat {
    if list == [] then 0
    else Offset(sc, list[..|list| - 1]) + Width(sc, list[|list| - 1].holder.typ)
  }

  lemma {:induction false} ListingsLast(list: seq<FieldKey>, holder: NodeKey)
    ensures Listings(list, holder) == 0 <==> LastListing(list, holder) < 0
    ensures LastListing(list, holder) >= 0 ==>
              var m := LastListing(list, holder);
              list[m].holder == holder && Listings(list[..m], holder) + 1 == Listings(list, holder)
  {
    if list != [] {
      var n := |list| - 1;
      ListingsLast(list[..n], holder);
      if list[n].holder != holder && LastListing(list, holder) >= 0 {
        var m := LastListing(list, holder);
        assert list[..n][..m] == list[..m];
      }
    }
  }

  /** One row's scans hold each of its fields once, at its rank. */
  lemma {:induction false} RowFound(sc: Schema, h: Graph, o: Override, fk: FieldKey)
    requires Declares(sc, fk.holder.typ, fk.field)
    ensures FirstAt(ScanRow(sc, h, o), fk) == LastAt(ScanRow(sc, h, o), fk) == if fk.holder == o.key then Rank(sc, fk) else -1
    ensures |ScanRow(sc, h, o)| == Width(sc, o.key.typ)
  {
    var row, all := ScanRow(sc, h, o), FieldsOfType(sc, o.key.typ);
    hide Targets, Refs;
    if fk.holder == o.key {
      RowScanned(sc, h, o, fk.field);
      assert row[Rank(sc, fk)].key == fk;
      assert ListsKey(row, fk);
      forall i | 0 <= i < |row| && row[i].key == fk ensures i == Rank(sc, fk) {
        assert Declared(all)[i] == fk.field && Declared(all)[Rank(sc, fk)] == fk.field;
        DeclaredOnce(all, i, Rank(sc, fk));
      }
    } else {
      assert forall i :: 0 <= i < |row| ==> row[i].key.holder == o.key;
      assert !ListsKey(row, fk);
    }
  }

  lemma {:induction false} TouchedPrefix(survivors: seq<FieldKey>, h: Graph, resources: seq<Override>, n: nat)
    requires TouchedRows(survivors, h, resources) && n <= |survivors|
    ensures TouchedRows(survivors[..n], h, resources[..n])
  {
  }

  /** Where the first and the last scan of a field stand. */
  lemma {:induction false} RowsFound(sc: Schema, h: Graph, survivors: seq<FieldKey>, resources: seq<Override>, fk: FieldKey)
    requires TouchedRows(survivors, h, resources) && Declares(sc, fk.holder.typ, fk.field)
    ensures var scans, listed := ScanRows(sc, h, resources), Listings(survivors, fk.holder);
            && |scans| == Offset(sc, survivors)
            && (listed == 0 <==> FirstAt(scans, fk) < 0) && (listed == 0 <==> LastAt(scans, fk) < 0)
            && (listed == 1 ==> FirstAt(scans, fk) == LastAt(scans, fk)) && (listed >= 2 ==> FirstAt(scans, fk) < LastAt(scans, fk))
            && (listed >= 1 ==> LastListing(survivors, fk.holder) >= 0
                                && LastAt(scans, fk) == Offset(sc, survivors[..LastListing(survivors, fk.holder)]) + Rank(sc, fk))
  {
    hide Rank, Width, ScanRow;
    if survivors != [] {
      var n := |survivors| - 1;
      TouchedPrefix(survivors, h, resources, n);
      RowsFound(sc, h, survivors[..n], resources[..n], fk);
      RowFound(sc, h, resources[n], fk);
      FirstConcat(ScanRows(sc, h, resources[..n]), ScanRow(sc, h, resources[n]), fk);
      ListingsLast(survivors, fk.holder);
      if survivors[n].holder != fk.holder && LastListing(survivors, fk.holder) >= 0 {
        var m := LastListing(survivors, fk.holder);
        assert survivors[..n][..m] == survivors[..m];
      }
    }
  }

  // ---------------------------------------------------------------- what the scans find

  ghost predicate ScannedFrom(sc: Schema, h: Graph, resources: seq<Override>, i: int, f: nat, s: FieldDelta) {
    0 <= i < |resources| && f in FieldsOfType(sc, resources[i].key.typ) && s == ScanField(sc, h, resources[i], f)
  }

  lemma {:induction false} RowOrigin(sc: Schema, h: Graph, o: Override, j: nat) returns (f: nat)
    requires j < |ScanRow(sc, h, o)|
    ensures f in FieldsOfType(sc, o.key.typ) && ScanRow(sc, h, o)[j] == ScanField(sc, h, o, f)
  {
    hide ScanField;
    var fields := Declared(FieldsOfType(sc, o.key.typ));
    f := fields[j];
    assert f in fields;
  }

  lemma {:induction false} ScanOrigin(sc: Schema, h: Graph, resources: seq<Override>, j: nat)
    requires j < |ScanRows(sc, h, resources)|
    ensures exists i, f :: ScannedFrom(sc, h, resources, i, f, ScanRows(sc, h, resources)[j])
  {
    hide ScanField, ScanRow;
    var n := |resources| - 1;
    var before := ScanRows(sc, h, resources[..n]);
    if j < |before| {
      ScanOrigin(sc, h, resources[..n], j);
      var i, f :| ScannedFrom(sc, h, resources[..n], i, f, before[j]);
      assert ScannedFrom(sc, h, resources, i, f, ScanRows(sc, h, resources)[j]);
    } else {
      var f := RowOrigin(sc, h, resources[n], j - |before|);
      assert ScannedFrom(sc, h, resources, n, f, ScanRows(sc, h, resources)[j]);
    }
  }

  /** Every scan of a touched row finds exactly the surviving targets. */
  lemma {:induction false} RowsSurvive(sc: Schema, tf: TargetFields, g: Graph, targets: TargetIndex, fields: Fields, closure: set<NodeKey>,
                                       survivors: seq<FieldKey>, h: Graph, resources: seq<Override>)
    requires Dropped(sc, g, targets, closure, survivors, h) && SurvivorsListed(sc, fields, closure, closure, survivors)
    requires TargetIndexExact(g, tf, targets) && Covers(sc, g, tf) && FieldsExact(sc, g, fields) && TouchedRows(survivors, h, resources)
    ensures ScansSurvive(fields, closure, ScanRows(sc, h, resources))
  {
    hide *;
    var scans := ScanRows(sc, h, resources);
    forall j | 0 <= j < |scans| ensures ScanSurvives(fields, closure, scans[j]) {
      ScanOrigin(sc, h, resources, j);
      var i, f :| ScannedFrom(sc, h, resources, i, f, scans[j]);
      ScanFinds(sc, tf, g, targets, fields, closure, survivors, h, resources, i, f, scans[j]);
    }
    forall fk | Hits(fields, closure, closure, fk) ensures ListsKey(scans, fk) {
      HitScanned(sc, g, fields, closure, survivors, h, resources, fk);
    }
    ScansSurviveFrom(fields, closure, scans);
  }

  lemma {:induction false} ScansSurviveFrom(fields: Fields, closure: set<NodeKey>, scans: seq<FieldDelta>)
    requires forall j :: 0 <= j < |scans| ==> ScanSurvives(fields, closure, scans[j])
    requires forall fk :: Hits(fields, closure, closure, fk) ==> ListsKey(scans, fk)
    ensures ScansSurvive(fields, closure, scans)
  {
    hide ScanSurvives, Hits, ListsKey;
  }

  lemma {:induction false} ScanFinds(sc: Schema, tf: TargetFields, g: Graph, targets: TargetIndex, fields: Fields, closure: set<NodeKey>,
                                     survivors: seq<FieldKey>, h: Graph, resources: seq<Override>, i: int, f: nat, s: FieldDelta)
    requires Dropped(sc, g, targets, closure, survivors, h) && SurvivorsListed(sc, fields, closure, closure, survivors)
    requires TargetIndexExact(g, tf, targets) && Covers(sc, g, tf) && FieldsExact(sc, g, fields) && TouchedRows(survivors, h, resources)
    requires ScannedFrom(sc, h, resources, i, f, s)
    ensures ScanSurvives(fields, closure, s)
  {
    hide TargetIndexExact, Covers, DroppedLink, Targets, Kept, FieldsExact;
    var fk := FieldKey(resources[i].key, f);
    assert survivors[i] in survivors;
    assert Hits(fields, closure, closure, survivors[i]);
    ExactHas(sc, g, fields, survivors[i]);
    DroppedTargets(sc, tf, g, targets, fields, closure, survivors, h, fk);
    ExactHas(sc, g, fields, fk);
  }

  lemma {:induction false} ExactHas(sc: Schema, g: Graph, fields: Fields, fk: FieldKey)
    requires FieldsExact(sc, g, fields)
    ensures fk in fields <==> HasField(sc, g, fk)
  {
  }

  lemma {:induction false} HitScanned(sc: Schema, g: Graph, fields: Fields, closure: set<NodeKey>, survivors: seq<FieldKey>, h: Graph,
                                      resources: seq<Override>, fk: FieldKey)
    requires SurvivorsListed(sc, fields, closure, closure, survivors) && FieldsExact(sc, g, fields) && TouchedRows(survivors, h, resources)
    requires Hits(fields, closure, closure, fk)
    ensures ListsKey(ScanRows(sc, h, resources), fk)
  {
    hide ScanRows, FirstAt;
    assert fk in survivors;
    ExactHas(sc, g, fields, fk);
    RowsFound(sc, h, survivors, resources, fk);
    ListedCounts(survivors, fk);
  }

  lemma {:induction false} ListedCounts(list: seq<FieldKey>, fk: FieldKey)
    requires fk in list
    ensures Listings(list, fk.holder) >= 1
  {
    var n := |list| - 1;
    if list[n] != fk {
      assert fk in list[..n];
      ListedCounts(list[..n], fk);
    }
  }

  // ---------------------------------------------------------------- lost fields

  /** The field has surviving targets, its holder is listed more than once, and the last listing of the field stands among the
      first eight entries, where lookups still reach the first one. */
  predicate LostIn(sc: Schema, fields: Fields, closure: set<NodeKey>, survivors: seq<FieldKey>, fk: FieldKey) {
    && fk in fields && Kept(fields[fk], closure) != [] && Listings(survivors, fk.holder) >= 2
    && LastListing(survivors, fk.holder) >= 0
    && Offset(sc, survivors[..LastListing(survivors, fk.holder)]) + Rank(sc, fk) < 8
  }

  lemma {:induction false} LostMeans(sc: Schema, g: Graph, fields: Fields, closure: set<NodeKey>, survivors: seq<FieldKey>, h: Graph,
                                     resources: seq<Override>, fk: FieldKey)
    requires FieldsExact(sc, g, fields) && TouchedRows(survivors, h, resources)
    requires ScansSurvive(fields, closure, ScanRows(sc, h, resources))
    ensures Lost(ScanRows(sc, h, resources), fk) <==> LostIn(sc, fields, closure, survivors, fk)
  {
    var scans := ScanRows(sc, h, resources);
    hide ScanRows, FirstAt, LastAt, Kept, Offset, Rank;
    ExactHas(sc, g, fields, fk);
    if ListsKey(scans, fk) {
      assert ScanSurvives(fields, closure, scans[LastAt(scans, fk)]);
    }
    if fk in fields {
      RowsFound(sc, h, survivors, resources, fk);
      ListingsLast(survivors, fk.holder);
    }
  }

  // ---------------------------------------------------------------- over all orders of the list

  /** The fields of one holder that point into the doomed set. */
  ghost function HitsOf(fields: Fields, closure: set<NodeKey>, holder: NodeKey): set<FieldKey> {
    set fk | fk in fields && fk.holder == holder && Hits(fields, closure, closure, fk)
  }

  /** What puts a field at risk: its holder points into the doomed set through k fields, k at least 2, and even with all k
      listings in front the last scan of the field stands among the first eight. */
  ghost predicate Exposed(sc: Schema, fields: Fields, closure: set<NodeKey>, fk: FieldKey) {
    && fk in fields && Kept(fields[fk], closure) != []
    && var k := |HitsOf(fields, closure, fk.holder)|;
       k >= 2 && (k - 1) * Width(sc, fk.holder.typ) + Rank(sc, fk) < 8
  }

  /** The listed fields of one holder. */
  ghost function ListedOf(list: seq<FieldKey>, holder: NodeKey): set<FieldKey> {
    set fk | fk in list && fk.holder == holder
  }

  lemma {:induction false} ListedOfAppend(list: seq<FieldKey>, fk: FieldKey, holder: NodeKey)
    requires fk !in list
    ensures fk !in ListedOf(list, holder)
    ensures ListedOf(list + [fk], holder) == if fk.holder == holder then ListedOf(list, holder) + {fk} else ListedOf(list, holder)
  {
  }

  lemma {:induction false} ListingsAre(list: seq<FieldKey>, holder: NodeKey)
    requires Distinct(list)
    ensures Listings(list, holder) == |ListedOf(list, holder)|
  {
    hide ListedOf;
    if list != [] {
      var before, last := list[..|list| - 1], list[|list| - 1];
      ListingsAre(before, holder);
      ListedOfAppend(before, last, holder);
      assert before + [last] == list;
    } else {
      NoneListed(holder);
    }
  }

  lemma {:induction false} NoneListed(holder: NodeKey)
    ensures ListedOf([], holder) == {}
  {
  }

  lemma {:induction false} OneMore(k: nat, width: nat)
    ensures (k + 1) * width == k * width + width
  {
  }

  lemma {:induction false} OffsetAtLeast(sc: Schema, list: seq<FieldKey>, holder: NodeKey)
    ensures Offset(sc, list) >= Listings(list, holder) * Width(sc, holder.typ)
  {
    hide Width;
    if list != [] {
      var before := list[..|list| - 1];
      OffsetAtLeast(sc, before, holder);
      OneMore(Listings(before, holder), Width(sc, holder.typ));
    }
  }

  lemma {:induction false} OffsetExactly(sc: Schema, list: seq<FieldKey>, holder: NodeKey)
    requires forall i :: 0 <= i < |list| ==> list[i].holder == holder
    ensures Listings(list, holder) == |list| && Offset(sc, list) == |list| * Width(sc, holder.typ)
  {
    hide Width;
    if list != [] {
      var before := list[..|list| - 1];
      OffsetExactly(sc, before, holder);
      OneMore(|before|, Width(sc, holder.typ));
    }
  }

  lemma {:induction false} HitListings(sc: Schema, fields: Fields, closure: set<NodeKey>, survivors: seq<FieldKey>, holder: NodeKey)
    requires SurvivorsListed(sc, fields, closure, closure, survivors)
    ensures Listings(survivors, holder) == |HitsOf(fields, closure, holder)|
  {
    ListingsAre(survivors, holder);
    hide Hits;
    assert ListedOf(survivors, holder) == HitsOf(fields, closure, holder) by {
      forall fk ensures fk in survivors && fk.holder == holder <==> fk in HitsOf(fields, closure, holder) {
        HitIsField(fields, closure, fk);
      }
    }
  }

  lemma {:induction false} HitIsField(fields: Fields, closure: set<NodeKey>, fk: FieldKey)
    ensures Hits(fields, closure, closure, fk) ==> fk in fields
  {
  }

  /** Only exposed fields are ever lost. */
  lemma {:induction false} LostIsExposed(sc: Schema, fields: Fields, closure: set<NodeKey>, survivors: seq<FieldKey>, fk: FieldKey)
    requires SurvivorsListed(sc, fields, closure, closure, survivors) && LostIn(sc, fields, closure, survivors, fk)
    ensures Exposed(sc, fields, closure, fk)
  {
    HitListings(sc, fields, closure, survivors, fk.holder);
    ListingsLast(survivors, fk.holder);
    OffsetAtLeast(sc, survivors[..LastListing(survivors, fk.holder)], fk.holder);
    hide Kept, Rank, Width, Hits;
  }

  lemma {:induction false} SetListed(s: set<FieldKey>) returns (list: seq<FieldKey>)
    ensures Distinct(list) && |list| == |s| && forall fk :: fk in list <==> fk in s
  {
    if s == {} {
      list := [];
    } else {
      var fk :| fk in s;
      var rest := SetListed(s - {fk});
      list := rest + [fk];
      DistinctAppend(rest, fk);
    }
  }

  lemma {:induction false} LastOfFront(front: seq<FieldKey>, back: seq<FieldKey>, holder: NodeKey)
    requires front != [] && front[|front| - 1].holder == holder && forall fk :: fk in back ==> fk.holder != holder
    ensures LastListing(front + back, holder) == |front| - 1
  {
    if back == [] {
      assert front + back == front;
    } else {
      var n := |back| - 1;
      assert (front + back)[..|front| + n] == front + back[..n];
      assert back[n] in back && forall fk :: fk in back[..n] ==> fk in back;
      LastOfFront(front, back[..n], holder);
    }
  }

  /** An exposed field is lost in some order: its holder's hits first. */
  lemma {:induction false} ExposedIsLost(sc: Schema, fields: Fields, closure: set<NodeKey>, fk: FieldKey) returns (survivors: seq<FieldKey>)
    requires Exposed(sc, fields, closure, fk)
    ensures SurvivorsListed(sc, fields, closure, closure, survivors) && LostIn(sc, fields, closure, survivors, fk)
  {
    hide Kept, Rank, Width, Hits;
    var mine := HitsOf(fields, closure, fk.holder);
    var others := set f | f in fields && f.holder != fk.holder && Hits(fields, closure, closure, f);
    forall f ensures Hits(fields, closure, closure, f) ==> f in fields {
      HitIsField(fields, closure, f);
    }
    var front := SetListed(mine);
    var back := SetListed(others);
    survivors := front + back;
    FrontAndBack(fields, closure, mine, others, front, back, survivors);
    HitListings(sc, fields, closure, survivors, fk.holder);
    var m := |front| - 1;
    assert front[m] in front;
    LastOfFront(front, back, fk.holder);
    assert survivors[..m] == front[..m] && forall i :: 0 <= i < m ==> front[i] in front;
    OffsetExactly(sc, front[..m], fk.holder);
  }

  lemma {:induction false} FrontAndBack(fields: Fields, closure: set<NodeKey>, mine: set<FieldKey>, others: set<FieldKey>,
                                        front: seq<FieldKey>, back: seq<FieldKey>, survivors: seq<FieldKey>)
    requires Distinct(front) && Distinct(back) && survivors == front + back && mine !! others
    requires (forall f :: f in front <==> f in mine) && (forall f :: f in back <==> f in others)
    requires forall f :: Hits(fields, closure, closure, f) <==> f in mine || f in others
    ensures forall sc :: SurvivorsListed(sc, fields, closure, closure, survivors)
  {
    hide Hits;
    forall i, j | 0 <= i < j < |survivors| ensures survivors[i] != survivors[j] {
      if i < |front| <= j {
        assert survivors[i] in front && survivors[j] in back;
      }
    }
  }

  /** A field is lost in some order of the list if and only if it is exposed, and no order loses anything if and only if
      no field is. */
  lemma {:induction false} OrdersThatLose(sc: Schema, fields: Fields, closure: set<NodeKey>)
    ensures forall fk :: (exists survivors :: SurvivorsListed(sc, fields, closure, closure, survivors) && LostIn(sc, fields, closure, survivors, fk))
                         <==> Exposed(sc, fields, closure, fk)
    ensures (forall survivors, fk :: SurvivorsListed(sc, fields, closure, closure, survivors) ==> !LostIn(sc, fields, closure, survivors, fk))
            <==> forall fk :: !Exposed(sc, fields, closure, fk)
  {
    hide Exposed, LostIn, SurvivorsListed;
    forall fk
      ensures (exists survivors :: SurvivorsListed(sc, fields, closure, closure, survivors) && LostIn(sc, fields, closure, survivors, fk))
              <==> Exposed(sc, fields, closure, fk)
    {
      if survivors :| SurvivorsListed(sc, fields, closure, closure, survivors) && LostIn(sc, fields, closure, survivors, fk) {
        LostIsExposed(sc, fields, closure, survivors, fk);
      }
      if Exposed(sc, fields, closure, fk) {
        var survivors := ExposedIsLost(sc, fields, closure, fk);
      }
    }
    if forall fk :: !Exposed(sc, fields, closure, fk) {
      forall survivors, fk | SurvivorsListed(sc, fields, closure, closure, survivors) ensures !LostIn(sc, fields, closure, survivors, fk) {
        assert !Exposed(sc, fields, closure, fk);
      }
    }
  }
}
