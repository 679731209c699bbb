/** When the survivors' delta goes through: exactly when every owned node is still seen to have its owner. */
module RelationOrphans {
  import opened RelationSchema
  import opened Wrappers
  import opened Ordering
  import opened OwnershipForest
  import opened RelationGraph
  import opened RelationModels
  import opened RelationFieldDeltas
  import opened RelationOverlays
  import opened RelationDeltas
  import opened RelationDeltaOwners
  import opened RelationIndexDeltas
  import opened RelationRewiring
  import opened RelationSurvivors
  import opened RelationDeleteDelta
  import opened RelationDrops
  import opened RelationScanOrder
  import opened RelationListings

  /** Every doomed node with a surviving owner names that owner itself, through its ownedby field. */
  ghost predicate NoneOrphaned(sc: Schema, fields: Fields, owners: Owners, closure: set<NodeKey>) {
    forall c :: c in closure && c in owners && owners[c] !in closure ==> NamesOwner(sc, fields, c, owners[c])
  }

  ghost predicate NamesOwner(sc: Schema, fields: Fields, child: NodeKey, owner: NodeKey) {
    exists bk: FieldKey :: bk.holder == child && BackVia(sc, fields, bk, owner)
  }

  /** The fields once the survivors have let go. */
  function LetGo(fields: Fields, closure: set<NodeKey>): Fields {
    map fk | fk in fields :: if fk.holder in closure then fields[fk] else Kept(fields[fk], closure)
  }

  /** What the ownership pass sees: own fields that let go, ownedby fields as they were except the lost ones. */
  ghost predicate SeenAs(sc: Schema, fields: Fields, closure: set<NodeKey>, lost: set<FieldKey>, seen: Fields) {
    && (forall fk, c :: OwnVia(sc, seen, fk, c) <==> OwnVia(sc, LetGo(fields, closure), fk, c))
    && (forall bk, o :: BackVia(sc, seen, bk, o) <==> BackVia(sc, fields, bk, o) && bk !in lost)
  }

  /** The child still has an own edge, or names its owner through a field that is not lost. */
  ghost predicate KeepsEdge(sc: Schema, fields: Fields, closure: set<NodeKey>, lost: set<FieldKey>, child: NodeKey, owner: NodeKey) {
    || (exists fk :: OwnVia(sc, LetGo(fields, closure), fk, child))
    || (exists bk: FieldKey :: bk.holder == child && bk !in lost && BackVia(sc, fields, bk, owner))
  }

  ghost predicate KeepsEdges(sc: Schema, fields: Fields, owners: Owners, closure: set<NodeKey>, lost: set<FieldKey>) {
    forall c :: c in owners ==> KeepsEdge(sc, fields, closure, lost, c, owners[c])
  }

  /** No holder that points into the doomed set through two fields owns a survivor: the ownership pass would count it twice. */
  ghost predicate OwnsSettled(sc: Schema, fields: Fields, closure: set<NodeKey>) {
    forall fk :: fk in fields && IsOwn(sc, fk.holder.typ, fk.field) && |HitsOf(fields, closure, fk.holder)| >= 2 ==>
      Kept(fields[fk], closure) == []
  }

  /** The fields publication loses when the list is taken in this order. */
  function LostFields(sc: Schema, fields: Fields, closure: set<NodeKey>, survivors: seq<FieldKey>): set<FieldKey> {
    set fk | fk in fields && LostIn(sc, fields, closure, survivors, fk)
  }

  // ---------------------------------------------------------------- ownership after the drop

  lemma {:induction false} OwnLetGo(sc: Schema, fields: Fields, closure: set<NodeKey>, fk: FieldKey, c: NodeKey)
    ensures OwnVia(sc, LetGo(fields, closure), fk, c) <==> OwnVia(sc, fields, fk, c) && (fk.holder in closure || c !in closure)
  {
    hide Kept;
  }

  /** Nobody is seen with an owner they did not have. */
  lemma {:induction false} OwnersSeen(sc: Schema, fields: Fields, closure: set<NodeKey>, lost: set<FieldKey>, seen: Fields, c: NodeKey, o: NodeKey)
    requires SeenAs(sc, fields, closure, lost, seen) && Agree(sc, fields) && IsOwner(sc, seen, c, o)
    ensures IsOwner(sc, fields, c, o)
  {
    hide OwnVia, BackVia, LetGo;
    if fk :| OwnVia(sc, seen, fk, c) && fk.holder == o {
      OwnLetGo(sc, fields, closure, fk, c);
    } else {
      var bk: FieldKey :| bk.holder == c && BackVia(sc, seen, bk, o);
      if fk :| OwnVia(sc, fields, fk, c) {
        assert OwnVia(sc, fields, fk, bk.holder) && fk.holder == o;
      }
    }
  }

  /** A node that keeps an edge is seen with the owner it had. */
  lemma {:induction false} OwnerStays(sc: Schema, fields: Fields, closure: set<NodeKey>, lost: set<FieldKey>, seen: Fields, c: NodeKey, o: NodeKey)
    requires SeenAs(sc, fields, closure, lost, seen) && OneOwner(sc, fields) && IsOwner(sc, fields, c, o)
    requires KeepsEdge(sc, fields, closure, lost, c, o)
    ensures IsOwner(sc, seen, c, o)
  {
    hide OwnVia, BackVia, LetGo;
    if fk :| OwnVia(sc, LetGo(fields, closure), fk, c) {
      OwnLetGo(sc, fields, closure, fk, c);
      assert Owned(sc, fields, c);
      var fk' :| OwnVia(sc, fields, fk', c) && fk'.holder == o;
      assert fk == fk' && OwnVia(sc, seen, fk, c);
    } else {
      var bk: FieldKey :| bk.holder == c && bk !in lost && BackVia(sc, fields, bk, o);
      assert BackVia(sc, seen, bk, o);
    }
  }

  /** When every owned node keeps an edge, the forest that is seen is the one there was. */
  lemma {:induction false} ForestSeen(sc: Schema, fields: Fields, owners: Owners, closure: set<NodeKey>, lost: set<FieldKey>, seen: Fields)
    requires SeenAs(sc, fields, closure, lost, seen) && ForestLegal(sc, fields, owners) && KeepsEdges(sc, fields, owners, closure, lost)
    ensures ForestLegal(sc, seen, owners)
  {
    hide OwnVia, BackVia, LetGo, IsOwner, KeepsEdge, Acyclic;
    forall fk, c ensures OwnVia(sc, seen, fk, c) ==> OwnVia(sc, fields, fk, c) {
      OwnLetGo(sc, fields, closure, fk, c);
    }
    forall c, o ensures OwnerOf(owners, c) == Some(o) <==> IsOwner(sc, seen, c, o) {
      if IsOwner(sc, seen, c, o) {
        OwnersSeen(sc, fields, closure, lost, seen, c, o);
      }
      if OwnerOf(owners, c) == Some(o) {
        assert IsOwner(sc, fields, c, o);
        OwnerStays(sc, fields, closure, lost, seen, c, o);
      }
    }
  }

  /** And otherwise somebody is seen without the owner they had. */
  lemma {:induction false} OwnedKeepsEdge(sc: Schema, fields: Fields, owners: Owners, closure: set<NodeKey>, lost: set<FieldKey>, seen: Fields, owners': Owners)
    requires SeenAs(sc, fields, closure, lost, seen) && ForestLegal(sc, fields, owners)
    requires OwnersExact(sc, seen, owners') && owners.Keys <= owners'.Keys
    ensures KeepsEdges(sc, fields, owners, closure, lost)
  {
    hide OwnVia, BackVia, LetGo, Acyclic, OneOwner;
    forall c | c in owners ensures KeepsEdge(sc, fields, closure, lost, c, owners[c]) {
      var o := owners'[c];
      assert OwnerOf(owners', c) == Some(o) && IsOwner(sc, seen, c, o);
      OwnersSeen(sc, fields, closure, lost, seen, c, o);
      assert OwnerOf(owners, c) == Some(o);
    }
  }

  /** With nothing lost, what counts is whether a doomed node loses an owner that survives. */
  lemma {:induction false} OrphansOnly(sc: Schema, fields: Fields, owners: Owners, closure: set<NodeKey>)
    requires OwnersExact(sc, fields, owners)
    ensures KeepsEdges(sc, fields, owners, closure, {}) <==> NoneOrphaned(sc, fields, owners, closure)
  {
    hide OwnVia, BackVia, LetGo;
    forall fk, c ensures OwnVia(sc, LetGo(fields, closure), fk, c) <==> OwnVia(sc, fields, fk, c) && (fk.holder in closure || c !in closure) {
      OwnLetGo(sc, fields, closure, fk, c);
    }
    forall c | c in owners
      ensures KeepsEdge(sc, fields, closure, {}, c, owners[c]) <==>
              (c in closure && owners[c] !in closure ==> NamesOwner(sc, fields, c, owners[c]))
    {
      assert OwnerOf(owners, c) == Some(owners[c]) && IsOwner(sc, fields, c, owners[c]);
      if fk :| OwnVia(sc, LetGo(fields, closure), fk, c) {
        assert IsOwner(sc, fields, c, fk.holder);
        assert OwnerOf(owners, c) == Some(fk.holder);
      }
      if fk :| OwnVia(sc, fields, fk, c) && fk.holder == owners[c] {
        assert c !in closure || owners[c] in closure ==> OwnVia(sc, LetGo(fields, closure), fk, c);
      }
    }
    hide KeepsEdge, NamesOwner;
  }

  // ---------------------------------------------------------------- the touched rows are legal

  lemma {:induction false} DropPointersFrom(targets: TargetIndex, spec: Spec, closure: set<NodeKey>, refs: seq<Option<Value>>, ref: Option<Value>)
    ensures ref in DropPointers(targets, spec, closure, refs) ==> ref in refs
  {
    if refs != [] {
      DropPointersFrom(targets, spec, closure, refs[..|refs| - 1], ref);
    }
  }

  /** What a field holds after it let go it held before, or it is an option and holds nothing. */
  lemma {:induction false} DroppedRefs(sc: Schema, g: Graph, targets: TargetIndex, closure: set<NodeKey>, survivors: seq<FieldKey>,
                                       h: Graph, fk: FieldKey, ref: Option<Value>)
    requires Dropped(sc, g, targets, closure, survivors, h) && HasField(sc, g, fk) && (fk in survivors ==> Droppable(sc, fk))
    ensures HasField(sc, h, fk)
    ensures ref in RefsAt(sc, h, fk) ==> ref in RefsAt(sc, g, fk) || (ref == None && SpecOf(sc, fk).MayBeMissing())
  {
    var spec, link := SpecOf(sc, fk), LinkAt(g[fk.holder], fk.field);
    hide DropPointers;
    if fk in survivors && spec.many {
      DropPointersFrom(targets, spec, closure, link, ref);
    }
  }

  lemma {:induction false} DroppedLegal(sc: Schema, g: Graph, fields: Fields, targets: TargetIndex, closure: set<NodeKey>,
                                        survivors: seq<FieldKey>, h: Graph, fk: FieldKey)
    requires Dropped(sc, g, targets, closure, survivors, h) && HasField(sc, g, fk) && (fk in survivors ==> Droppable(sc, fk))
    requires FieldLegal(sc, g, fk) && fk in fields && fields[fk] == TargetsAt(sc, g, fk)
    requires HasField(sc, h, fk) && TargetsAt(sc, h, fk) == Kept(fields[fk], closure)
    ensures FieldLegal(sc, h, fk)
  {
    var spec, refs, refs' := SpecOf(sc, fk), RefsAt(sc, g, fk), RefsAt(sc, h, fk);
    assert SameScalars(g, h);
    KeptDistinctIf(fields[fk], closure);
    hide Dropped, Kept, Resolve, Targets, SameScalars;
    forall i | 0 <= i < |refs'| ensures RefLegal(h, spec, refs'[i]) {
      DroppedRefs(sc, g, targets, closure, survivors, h, fk, refs'[i]);
      SameRefLegal(g, h, spec, refs'[i]);
    }
  }

  lemma {:induction false} KeptDistinctIf(targets: seq<NodeKey>, closure: set<NodeKey>)
    ensures Distinct(targets) ==> Distinct(Kept(targets, closure))
  {
    if Distinct(targets) {
      KeptDistinct(targets, closure);
    }
  }

  lemma {:induction false} SameRefLegal(g: Graph, h: Graph, spec: Spec, ref: Option<Value>)
    requires SameScalars(g, h)
    ensures RefLegal(g, spec, ref) <==> RefLegal(h, spec, ref)
  {
    if ref.Some? {
      SameResolve(g, h, Lookup(spec, ref.value));
    }
  }

  // ---------------------------------------------------------------- what the builder says

  /** The scans the builder makes of the touched rows. */
  ghost function TouchedPatch(sc: Schema, fields: Fields, closure: set<NodeKey>, works: Graph): Fields {
    map fk | fk in fields && HasField(sc, works, fk) :: Kept(fields[fk], closure)
  }

  ghost predicate WorksSurvive(sc: Schema, g: Graph, h: Graph, closure: set<NodeKey>, fields: Fields, works: Graph) {
    && (forall k :: k in works ==> k in g && k !in closure && k in h && works[k] == h[k])
    && (forall fk :: Hits(fields, closure, closure, fk) ==> fk.holder in works)
  }

  lemma {:induction false} TouchedWorks(sc: Schema, g: Graph, fields: Fields, targets: TargetIndex, closure: set<NodeKey>,
                                        survivors: seq<FieldKey>, h: Graph, resources: seq<Override>)
    requires Dropped(sc, g, targets, closure, survivors, h) && TouchedRows(survivors, h, resources)
    requires SurvivorsListed(sc, fields, closure, closure, survivors)
    ensures WorksSurvive(sc, g, h, closure, fields, WorksOf(resources))
    ensures forall k :: k in WorksOf(resources) <==> ListsNode(resources, k)
  {
    hide LinkAt, DroppedLink, WorksOf;
    var works := WorksOf(resources);
    forall k | k in works ensures k in g && k !in closure && k in h && works[k] == h[k] && ListsNode(resources, k) {
      WorksFrom(resources, k);
      var i :| 0 <= i < |resources| && resources[i].key == k && resources[i].row == works[k];
      assert survivors[i] in survivors;
    }
    forall i | 0 <= i < |resources| ensures resources[i].key in works {
      WorksHold(resources, i);
    }
    forall fk | Hits(fields, closure, closure, fk) ensures fk.holder in works {
      assert fk in survivors;
      var i :| 0 <= i < |survivors| && survivors[i] == fk;
      assert resources[i].key == fk.holder;
    }
  }

  lemma {:induction false} WorksHold(resources: seq<Override>, i: nat)
    requires i < |resources|
    ensures resources[i].key in WorksOf(resources)
  {
    if i < |resources| - 1 {
      WorksHold(resources[..|resources| - 1], i);
    }
  }

  lemma {:induction false} TouchedField(sc: Schema, tf: TargetFields, g: Graph, targets: TargetIndex, fields: Fields, closure: set<NodeKey>,
                                        survivors: seq<FieldKey>, h: Graph, fk: FieldKey)
    requires Dropped(sc, g, targets, closure, survivors, h) && SurvivorsListed(sc, fields, closure, closure, survivors)
    requires TargetIndexExact(g, tf, targets) && Covers(sc, g, tf) && FieldsExact(sc, g, fields) && LegalRefs(sc, g)
    requires AllDroppable(sc, fields, closure, closure) && fk in fields && fk.holder !in closure
    ensures HasField(sc, h, fk) && FieldLegal(sc, h, fk) && TargetsAt(sc, h, fk) == Kept(fields[fk], closure)
  {
    assert HasField(sc, g, fk) && FieldLegal(sc, g, fk) && fields[fk] == TargetsAt(sc, g, fk);
    hide *;
    DroppedTargets(sc, tf, g, targets, fields, closure, survivors, h, fk);
    ListedDroppable(sc, fields, closure, survivors, fk);
    DroppedLegal(sc, g, fields, targets, closure, survivors, h, fk);
  }

  lemma {:induction false} ListedDroppable(sc: Schema, fields: Fields, closure: set<NodeKey>, survivors: seq<FieldKey>, fk: FieldKey)
    requires SurvivorsListed(sc, fields, closure, closure, survivors) && AllDroppable(sc, fields, closure, closure)
    ensures fk in survivors ==> Droppable(sc, fk)
  {
    hide Droppable, Hits;
  }

  lemma {:induction false} TouchedKeys(sc: Schema, g: Graph, fields: Fields, closure: set<NodeKey>, h: Graph, works: Graph)
    requires FieldsExact(sc, g, fields) && WorksSurvive(sc, g, h, closure, fields, works)
    ensures var patch := TouchedPatch(sc, fields, closure, works);
            && (forall fk :: fk in patch <==> HasField(sc, works + map[], fk))
            && forall fk :: fk in patch ==> fk in fields && fk.holder !in closure && patch[fk] == Kept(fields[fk], closure)
  {
    hide Kept, TargetsAt, Hits;
    assert works + map[] == works;
  }

  lemma {:induction false} TouchedRescanned(sc: Schema, tf: TargetFields, g: Graph, targets: TargetIndex, fields: Fields, closure: set<NodeKey>,
                                            survivors: seq<FieldKey>, h: Graph, works: Graph)
    requires Dropped(sc, g, targets, closure, survivors, h) && SurvivorsListed(sc, fields, closure, closure, survivors)
    requires TargetIndexExact(g, tf, targets) && Covers(sc, g, tf) && FieldsExact(sc, g, fields) && LegalRefs(sc, g)
    requires AllDroppable(sc, fields, closure, closure) && WorksSurvive(sc, g, h, closure, fields, works) && Overlaid(g, works, map[]) == h
    ensures var patch := TouchedPatch(sc, fields, closure, works);
            Rescanned(sc, g, works, map[], patch) && forall fk :: fk in patch ==> HasField(sc, h, fk) && FieldLegal(sc, h, fk)
  {
    hide *;
    var patch := TouchedPatch(sc, fields, closure, works);
    TouchedKeys(sc, g, fields, closure, h, works);
    forall fk | fk in patch ensures HasField(sc, h, fk) && patch[fk] == TargetsAt(sc, h, fk) && FieldLegal(sc, h, fk) {
      TouchedField(sc, tf, g, targets, fields, closure, survivors, h, fk);
    }
    RescannedIs(sc, g, works, map[], patch);
  }

  lemma {:induction false} TouchedAddressed(sc: Schema, g: Graph, tf: TargetFields, h: Graph, survivors: seq<FieldKey>, resources: seq<Override>)
    requires TouchedRows(survivors, h, resources) && SameScalars(g, h)
    ensures Addressed(sc, g, tf, resources, map[])
  {
    forall i | 0 <= i < |resources| ensures Rewrites(tf, g, resources[i]) {
      assert survivors[i].holder in h;
    }
  }

  lemma {:induction false} TouchedScannable(sc: Schema, tf: TargetFields, g: Graph, targets: TargetIndex, fields: Fields, closure: set<NodeKey>,
                                            survivors: seq<FieldKey>, h: Graph, resources: seq<Override>)
    requires Dropped(sc, g, targets, closure, survivors, h) && SurvivorsListed(sc, fields, closure, closure, survivors)
    requires TargetIndexExact(g, tf, targets) && Covers(sc, g, tf) && FieldsExact(sc, g, fields) && LegalRefs(sc, g)
    requires AllDroppable(sc, fields, closure, closure) && TouchedRows(survivors, h, resources)
    ensures !Unscanned(sc, h, resources)
  {
    hide *;
    forall i, f | 0 <= i < |resources| ensures !UnscannedField(sc, h, resources[i], f) {
      var fk := FieldKey(resources[i].key, f);
      ListedSurvivor(fields, closure, sc, survivors, h, resources, i);
      if f in FieldsOfType(sc, resources[i].key.typ) {
        TouchedHas(sc, g, fields, survivors[i], fk);
        TouchedField(sc, tf, g, targets, fields, closure, survivors, h, fk);
        LegalScan(sc, h, resources[i], f);
      } else {
        NotDeclared(sc, h, resources[i], f);
      }
    }
    AllScan(sc, h, resources);
  }

  lemma {:induction false} ListedSurvivor(fields: Fields, closure: set<NodeKey>, sc: Schema, survivors: seq<FieldKey>, h: Graph,
                                          resources: seq<Override>, i: nat)
    requires SurvivorsListed(sc, fields, closure, closure, survivors) && TouchedRows(survivors, h, resources) && i < |resources|
    ensures i < |survivors| && survivors[i] in fields && survivors[i].holder !in closure && resources[i].key == survivors[i].holder
    ensures resources[i].key in h && resources[i].row == h[resources[i].key]
  {
    assert survivors[i] in survivors;
    assert Hits(fields, closure, closure, survivors[i]);
  }

  lemma {:induction false} TouchedHas(sc: Schema, g: Graph, fields: Fields, listed: FieldKey, fk: FieldKey)
    requires FieldsExact(sc, g, fields) && listed in fields && fk.holder == listed.holder && fk.field in FieldsOfType(sc, fk.holder.typ)
    ensures fk in fields
  {
    assert HasField(sc, g, listed) && HasField(sc, g, fk);
  }

  lemma {:induction false} LegalScan(sc: Schema, h: Graph, o: Override, f: nat)
    requires o.key in h && o.row == h[o.key]
    requires HasField(sc, h, FieldKey(o.key, f)) && FieldLegal(sc, h, FieldKey(o.key, f))
    ensures !UnscannedField(sc, h, o, f)
  {
    hide RefLegal, Targets, Refs;
    var fk := FieldKey(o.key, f);
    assert RefsAt(sc, h, fk) == Refs(o.row, SpecOf(sc, fk), f) && TargetsAt(sc, h, fk) == Targets(h, SpecOf(sc, fk), RefsAt(sc, h, fk));
  }

  lemma {:induction false} NotDeclared(sc: Schema, h: Graph, o: Override, f: nat)
    requires f !in FieldsOfType(sc, o.key.typ)
    ensures !UnscannedField(sc, h, o, f)
  {
  }

  lemma {:induction false} AllScan(sc: Schema, h: Graph, resources: seq<Override>)
    requires forall i, f :: 0 <= i < |resources| ==> !UnscannedField(sc, h, resources[i], f)
    ensures !Unscanned(sc, h, resources)
  {
    hide UnscannedField;
  }

  // ---------------------------------------------------------------- what the ownership pass sees

  /** All scans of one field find the same. */
  lemma {:induction false} SameScans(fields: Fields, closure: set<NodeKey>, scans: seq<FieldDelta>, i: nat)
    requires ScansSurvive(fields, closure, scans) && i < |scans|
    ensures scans[i].key in fields && scans[i].key.holder !in closure && scans[i].targets == Kept(fields[scans[i].key], closure)
  {
    assert ScanSurvives(fields, closure, scans[i]);
  }

  /** The entry a lookup reaches holds the field's scan, unless the field is lost; then it is not even one target long. */
  lemma {:induction false} FoundEntry(fields: Fields, closure: set<NodeKey>, scans: seq<FieldDelta>, fk: FieldKey)
    requires ScansSurvive(fields, closure, scans) && ListsKey(scans, fk) && fk in fields
    ensures var found := EffectiveTargets(fields, Accumulate(scans), fk);
            && (!Lost(scans, fk) ==> found == Kept(fields[fk], closure))
            && (Lost(scans, fk) && |Kept(fields[fk], closure)| == 1 ==> |found| != 1)
  {
    hide ScansSurvive, Accumulate, Kept;
    var values, first, last := Accumulate(scans), FirstAt(scans, fk), LastAt(scans, fk);
    AccumulateKeys(scans);
    assert SameKeys(values, scans);
    SameKeysFound(values, scans, fk);
    AccumulatedLast(scans, fk);
    SameScans(fields, closure, scans, last);
    SameScans(fields, closure, scans, first);
    if |scans| < 9 && first != last {
      FirstIsFirst(scans, fk, last);
      ShortFirst(scans, fk);
      KeyLenTwice(scans, fk, first, last);
      if scans[last].targets == [] {
        EmptyScans(fields, closure, scans, fk);
      }
    }
  }

  lemma {:induction false} EmptyScans(fields: Fields, closure: set<NodeKey>, scans: seq<FieldDelta>, fk: FieldKey)
    requires ScansSurvive(fields, closure, scans) && fk in fields && Kept(fields[fk], closure) == []
    ensures KeyLen(scans, fk) == 0
  {
    forall i | 0 <= i < |scans| && scans[i].key == fk ensures scans[i].targets == [] {
      SameScans(fields, closure, scans, i);
    }
    KeyLenZero(scans, fk);
  }

  lemma {:induction false} UnlistedEntry(fields: Fields, closure: set<NodeKey>, scans: seq<FieldDelta>, fk: FieldKey)
    requires ScansSurvive(fields, closure, scans) && !ListsKey(scans, fk) && fk in fields
    ensures EffectiveTargets(fields, Accumulate(scans), fk) == fields[fk] == LetGo(fields, closure)[fk]
  {
    hide Accumulate, Kept;
    AccumulateKeys(scans);
    assert SameKeys(Accumulate(scans), scans);
    SameKeysFound(Accumulate(scans), scans, fk);
    if fk.holder !in closure {
      assert !Hits(fields, closure, closure, fk);
      KeptAll(fields[fk], closure);
    }
  }

  /** Counting own entries: listing twice shows exactly where something survives. */
  lemma {:induction false} OwnOnceScans(sc: Schema, fields: Fields, closure: set<NodeKey>, scans: seq<FieldDelta>)
    requires ScansSurvive(fields, closure, scans)
    ensures OwnOnce(sc, Accumulate(scans)) <==> OwnOnce(sc, scans)
    ensures (forall c :: OwnMult(sc, Accumulate(scans), c) <= 1) ==> OwnOnce(sc, scans)
  {
    var values := Accumulate(scans);
    AccumulateKeys(scans);
    hide Accumulate, Kept;
    if OwnOnce(sc, scans) {
      forall i | 0 <= i < |values| && values[i].targets != [] && IsOwn(sc, values[i].key.holder.typ, values[i].key.field)
        ensures scans[i].targets != []
      {
        AccumulateWithin(scans, i, values[i].targets[0]);
        SameScans(fields, closure, scans, i);
        var j :| 0 <= j < |scans| && scans[j].key == scans[i].key && values[i].targets[0] in scans[j].targets;
        SameScans(fields, closure, scans, j);
      }
    }
    if OwnOnce(sc, values) {
      forall i, j | 0 <= i < j < |scans| && scans[i].key == scans[j].key && IsOwn(sc, scans[i].key.holder.typ, scans[i].key.field)
        ensures scans[i].targets == [] && scans[j].targets == []
      {
        KeyLenZero(values, scans[i].key);
        AccumulateLen(scans, scans[i].key);
        KeyLenTwice(scans, scans[i].key, i, j);
      }
    }
    if forall c :: OwnMult(sc, values, c) <= 1 {
      forall i, j | 0 <= i < j < |scans| && scans[i].key == scans[j].key && IsOwn(sc, scans[i].key.holder.typ, scans[i].key.field)
        ensures scans[i].targets == [] && scans[j].targets == []
      {
        SameScans(fields, closure, scans, i);
        SameScans(fields, closure, scans, j);
        if scans[i].targets != [] {
          OwnMultTwice(sc, scans, i, j, scans[i].targets[0]);
          AccumulateMult(sc, scans, scans[i].targets[0]);
        }
      }
    }
  }

  /** In terms of the input: no holder with two hits keeps an owned survivor. */
  lemma {:induction false} OwnOnceMeans(sc: Schema, g: Graph, fields: Fields, closure: set<NodeKey>, survivors: seq<FieldKey>, h: Graph, resources: seq<Override>)
    requires FieldsExact(sc, g, fields) && SurvivorsListed(sc, fields, closure, closure, survivors) && TouchedRows(survivors, h, resources)
    requires ScansSurvive(fields, closure, ScanRows(sc, h, resources))
    ensures OwnOnce(sc, ScanRows(sc, h, resources)) <==> OwnsSettled(sc, fields, closure)
  {
    var scans := ScanRows(sc, h, resources);
    hide ScanRows, ScansSurvive, Kept, FirstAt, LastAt, Rank, Offset, HitsOf, TouchedRows, SurvivorsListed;
    if OwnsSettled(sc, fields, closure) {
      forall i, j | 0 <= i < j < |scans| && scans[i].key == scans[j].key && IsOwn(sc, scans[i].key.holder.typ, scans[i].key.field)
        ensures scans[i].targets == [] && scans[j].targets == []
      {
        var fk := scans[i].key;
        SameScans(fields, closure, scans, i);
        SameScans(fields, closure, scans, j);
        FirstIsFirst(scans, fk, i);
        FirstIsFirst(scans, fk, j);
        RowsFound(sc, h, survivors, resources, fk);
        HitListings(sc, fields, closure, survivors, fk.holder);
      }
    }
    if OwnOnce(sc, scans) {
      forall fk | fk in fields && IsOwn(sc, fk.holder.typ, fk.field) && |HitsOf(fields, closure, fk.holder)| >= 2
        ensures Kept(fields[fk], closure) == []
      {
        RowsFound(sc, h, survivors, resources, fk);
        HitListings(sc, fields, closure, survivors, fk.holder);
        SameScans(fields, closure, scans, FirstAt(scans, fk));
        assert scans[FirstAt(scans, fk)].key == scans[LastAt(scans, fk)].key;
      }
    }
  }

  /** An ownedby field that reaches into the doomed set cannot let go, so here none does. */
  lemma {:induction false} BackUncut(sc: Schema, fields: Fields, closure: set<NodeKey>, bk: FieldKey)
    requires AllDroppable(sc, fields, closure, closure) && bk in fields && IsOwnedBy(sc, bk.holder.typ, bk.field)
    ensures LetGo(fields, closure)[bk] == fields[bk]
    ensures bk.holder !in closure ==> Kept(fields[bk], closure) == fields[bk]
  {
    if bk.holder !in closure {
      assert !Hits(fields, closure, closure, bk);
      KeptAll(fields[bk], closure);
    }
  }

  lemma {:induction false} OwnSeen(sc: Schema, fields: Fields, closure: set<NodeKey>, scans: seq<FieldDelta>, fk: FieldKey)
    requires ScansSurvive(fields, closure, scans) && OwnOnce(sc, scans) && fk in fields && IsOwn(sc, fk.holder.typ, fk.field)
    ensures fk in LetGo(fields, closure) && EffectiveTargets(fields, Accumulate(scans), fk) == LetGo(fields, closure)[fk]
  {
    hide *;
    LetGoKeys(fields, closure);
    if ListsKey(scans, fk) {
      OwnNotLost(sc, fields, closure, scans, fk);
      FoundEntry(fields, closure, scans, fk);
      ListedLetGo(fields, closure, scans, fk);
    } else {
      UnlistedEntry(fields, closure, scans, fk);
    }
  }

  lemma {:induction false} BackSeen(sc: Schema, fields: Fields, closure: set<NodeKey>, scans: seq<FieldDelta>, bk: FieldKey)
    requires ScansSurvive(fields, closure, scans) && AllDroppable(sc, fields, closure, closure)
    requires bk in fields && IsOwnedBy(sc, bk.holder.typ, bk.field) && |fields[bk]| <= 1
    ensures var seen := EffectiveTargets(fields, Accumulate(scans), bk);
            (!Lost(scans, bk) ==> seen == fields[bk]) && (Lost(scans, bk) ==> |seen| != 1)
  {
    hide *;
    BackUncut(sc, fields, closure, bk);
    if ListsKey(scans, bk) {
      ListedLetGo(fields, closure, scans, bk);
      FoundEntry(fields, closure, scans, bk);
      LostListed(fields, closure, scans, bk);
    } else {
      UnlistedEntry(fields, closure, scans, bk);
      LostListed(fields, closure, scans, bk);
    }
  }

  lemma {:induction false} LostListed(fields: Fields, closure: set<NodeKey>, scans: seq<FieldDelta>, fk: FieldKey)
    requires ScansSurvive(fields, closure, scans) && fk in fields
    ensures Lost(scans, fk) ==> ListsKey(scans, fk) && Kept(fields[fk], closure) != []
  {
    hide Kept, Misplaced;
    if Lost(scans, fk) {
      SameScans(fields, closure, scans, LastAt(scans, fk));
    }
  }

  /** An ownedby field has at most one target. */
  ghost predicate BackShort(sc: Schema, fields: Fields) {
    forall bk :: bk in fields && IsOwnedBy(sc, bk.holder.typ, bk.field) ==> |fields[bk]| <= 1
  }

  lemma {:induction false} ExactBackShort(sc: Schema, g: Graph, fields: Fields)
    requires WellFormed(sc) && FieldsExact(sc, g, fields)
    ensures BackShort(sc, fields)
  {
    forall bk | bk in fields && IsOwnedBy(sc, bk.holder.typ, bk.field) ensures |fields[bk]| <= 1 {
      assert HasField(sc, g, bk);
      TargetsShort(g, SpecOf(sc, bk), RefsAt(sc, g, bk));
    }
  }

  lemma {:induction false} BackShortAt(sc: Schema, fields: Fields, bk: FieldKey)
    requires BackShort(sc, fields) && bk in fields && IsOwnedBy(sc, bk.holder.typ, bk.field)
    ensures |fields[bk]| <= 1
  {
  }

  /** The lookups of the ownership pass, field by field. */
  lemma {:induction false} EffectiveSeen(sc: Schema, fields: Fields, closure: set<NodeKey>, scans: seq<FieldDelta>, lost: set<FieldKey>)
    requires ScansSurvive(fields, closure, scans) && OwnOnce(sc, scans) && AllDroppable(sc, fields, closure, closure)
    requires BackShort(sc, fields) && forall fk :: fk in lost <==> Lost(scans, fk)
    ensures SeenAs(sc, fields, closure, lost, Effective(fields, Accumulate(scans)))
  {
    hide *;
    var values := Accumulate(scans);
    var seen := Effective(fields, values);
    EffectiveKeys(fields, closure, scans);
    LetGoKeys(fields, closure);
    forall fk | fk in fields ensures seen[fk] == EffectiveTargets(fields, values, fk) {
      EffectiveAt(fields, values, fk);
    }
    forall fk | fk in fields && IsOwn(sc, fk.holder.typ, fk.field) ensures seen[fk] == LetGo(fields, closure)[fk] {
      OwnSeen(sc, fields, closure, scans, fk);
    }
    forall bk | bk in fields && IsOwnedBy(sc, bk.holder.typ, bk.field)
      ensures (bk !in lost ==> seen[bk] == fields[bk]) && (bk in lost ==> |seen[bk]| != 1)
    {
      BackShortAt(sc, fields, bk);
      BackSeen(sc, fields, closure, scans, bk);
    }
    SeenMade(sc, fields, closure, lost, seen);
  }

  lemma {:induction false} EffectiveAt(fields: Fields, values: seq<FieldDelta>, fk: FieldKey)
    ensures fk in Effective(fields, values) ==> Effective(fields, values)[fk] == EffectiveTargets(fields, values, fk)
  {
    hide EffectiveTargets;
  }

  lemma {:induction false} SeenMade(sc: Schema, fields: Fields, closure: set<NodeKey>, lost: set<FieldKey>, seen: Fields)
    requires seen.Keys == fields.Keys && LetGo(fields, closure).Keys == fields.Keys
    requires forall fk :: fk in fields && IsOwn(sc, fk.holder.typ, fk.field) ==> seen[fk] == LetGo(fields, closure)[fk]
    requires forall bk :: bk in fields && IsOwnedBy(sc, bk.holder.typ, bk.field) ==>
               (bk !in lost ==> seen[bk] == fields[bk]) && (bk in lost ==> |seen[bk]| != 1)
    ensures SeenAs(sc, fields, closure, lost, seen)
  {
    hide LetGo, IsOwn, IsOwnedBy;
  }

  lemma {:induction false} LetGoKeys(fields: Fields, closure: set<NodeKey>)
    ensures forall fk :: fk in LetGo(fields, closure) <==> fk in fields
  {
  }

  lemma {:induction false} ListedLetGo(fields: Fields, closure: set<NodeKey>, scans: seq<FieldDelta>, fk: FieldKey)
    requires ScansSurvive(fields, closure, scans) && ListsKey(scans, fk)
    ensures fk in fields && fk.holder !in closure && LetGo(fields, closure)[fk] == Kept(fields[fk], closure)
  {
    hide Kept;
    var i :| 0 <= i < |scans| && scans[i].key == fk;
    SameScans(fields, closure, scans, i);
  }

  lemma {:induction false} EffectiveKeys(fields: Fields, closure: set<NodeKey>, scans: seq<FieldDelta>)
    requires ScansSurvive(fields, closure, scans)
    ensures forall fk :: fk in Effective(fields, Accumulate(scans)) <==> fk in fields
  {
    hide Accumulate, Kept;
    AccumulateKeys(scans);
    forall fk | ListsKey(Accumulate(scans), fk) ensures fk in fields {
      assert SameKeys(Accumulate(scans), scans);
      SameKeysFound(Accumulate(scans), scans, fk);
      var i :| 0 <= i < |scans| && scans[i].key == fk;
      SameScans(fields, closure, scans, i);
    }
  }

  lemma {:induction false} OwnNotLost(sc: Schema, fields: Fields, closure: set<NodeKey>, scans: seq<FieldDelta>, fk: FieldKey)
    requires ScansSurvive(fields, closure, scans) && OwnOnce(sc, scans) && ListsKey(scans, fk) && IsOwn(sc, fk.holder.typ, fk.field)
    ensures !Lost(scans, fk)
  {
    var first, last := FirstAt(scans, fk), LastAt(scans, fk);
    if first != last {
      FirstIsFirst(scans, fk, last);
      FirstIsFirst(scans, fk, first);
    }
  }

  // ---------------------------------------------------------------- what the builder says

  /** Over a committed state the touched rows are acceptable exactly when no holder with two hits keeps an owned survivor and
      every owned node keeps an edge to its owner. */
  lemma {:induction false} DropAcceptable(sc: Schema, g: Graph, ix: Image, closure: set<NodeKey>, survivors: seq<FieldKey>, h: Graph, resources: seq<Override>)
    requires Committed(sc, g, ix) && Dropped(sc, g, ix.targets, closure, survivors, h)
    requires SurvivorsListed(sc, ix.fields, closure, closure, survivors) && AllDroppable(sc, ix.fields, closure, closure)
    requires TouchedRows(survivors, h, resources)
    ensures ListAcceptable(sc, g, ix, resources) <==>
            OwnsSettled(sc, ix.fields, closure)
            && KeepsEdges(sc, ix.fields, ix.owners, closure, LostFields(sc, ix.fields, closure, survivors))
  {
    hide *;
    var scans, lost := ScanRows(sc, h, resources), LostFields(sc, ix.fields, closure, survivors);
    CommittedParts(sc, g, ix);
    TouchedIsLive(sc, g, ix.targets, closure, survivors, h, resources);
    RowsSurvive(sc, ix.targetFields, g, ix.targets, ix.fields, closure, survivors, h, resources);
    TouchedScannable(sc, ix.targetFields, g, ix.targets, ix.fields, closure, survivors, h, resources);
    DropKeepsScalars(sc, g, ix.targets, closure, survivors, h);
    TouchedAddressed(sc, g, ix.targetFields, h, survivors, resources);
    OwnOnceScans(sc, ix.fields, closure, scans);
    OwnOnceMeans(sc, g, ix.fields, closure, survivors, h, resources);
    LostSet(sc, g, ix.fields, closure, survivors, h, resources);
    ExactBackShort(sc, g, ix.fields);
    if OwnsSettled(sc, ix.fields, closure) {
      EffectiveSeen(sc, ix.fields, closure, scans, lost);
      if KeepsEdges(sc, ix.fields, ix.owners, closure, lost) {
        ForestSeen(sc, ix.fields, ix.owners, closure, lost, Effective(ix.fields, Accumulate(scans)));
        AcceptsMade(sc, g, ix, resources, h);
      }
    }
    if ListAcceptable(sc, g, ix, resources) {
      var owners := AcceptedOwners(sc, g, ix, resources, h);
      OwnedKeepsEdge(sc, ix.fields, ix.owners, closure, lost, Effective(ix.fields, Accumulate(scans)), owners);
    }
  }

  /** A delta that goes through changes no owner. */
  lemma {:induction false} OwnersUnmoved(sc: Schema, g: Graph, ix: Image, closure: set<NodeKey>, survivors: seq<FieldKey>, h: Graph,
                                         resources: seq<Override>, owners: Owners)
    requires Committed(sc, g, ix) && Dropped(sc, g, ix.targets, closure, survivors, h)
    requires SurvivorsListed(sc, ix.fields, closure, closure, survivors) && AllDroppable(sc, ix.fields, closure, closure)
    requires TouchedRows(survivors, h, resources) && OwnsSettled(sc, ix.fields, closure)
    requires KeepsEdges(sc, ix.fields, ix.owners, closure, LostFields(sc, ix.fields, closure, survivors))
    requires ForestLegal(sc, Effective(ix.fields, Accumulate(ScanRows(sc, h, resources))), owners)
    ensures owners == ix.owners
  {
    hide *;
    var scans, lost := ScanRows(sc, h, resources), LostFields(sc, ix.fields, closure, survivors);
    CommittedParts(sc, g, ix);
    RowsSurvive(sc, ix.targetFields, g, ix.targets, ix.fields, closure, survivors, h, resources);
    OwnOnceScans(sc, ix.fields, closure, scans);
    OwnOnceMeans(sc, g, ix.fields, closure, survivors, h, resources);
    LostSet(sc, g, ix.fields, closure, survivors, h, resources);
    ExactBackShort(sc, g, ix.fields);
    EffectiveSeen(sc, ix.fields, closure, scans, lost);
    ForestSeen(sc, ix.fields, ix.owners, closure, lost, Effective(ix.fields, Accumulate(scans)));
    OneForest(sc, Effective(ix.fields, Accumulate(scans)), owners, ix.owners);
  }

  lemma {:induction false} OneForest(sc: Schema, fields: Fields, a: Owners, b: Owners)
    requires ForestLegal(sc, fields, a) && ForestLegal(sc, fields, b)
    ensures a == b
  {
    OwnersUnique(sc, fields, a, b);
  }

  lemma {:induction false} LostSet(sc: Schema, g: Graph, fields: Fields, closure: set<NodeKey>, survivors: seq<FieldKey>, h: Graph, resources: seq<Override>)
    requires FieldsExact(sc, g, fields) && TouchedRows(survivors, h, resources) && ScansSurvive(fields, closure, ScanRows(sc, h, resources))
    ensures forall fk :: fk in LostFields(sc, fields, closure, survivors) <==> Lost(ScanRows(sc, h, resources), fk)
    ensures forall fk :: fk in LostFields(sc, fields, closure, survivors) <==> LostIn(sc, fields, closure, survivors, fk)
  {
    hide Lost, ScanRows, ScansSurvive, FieldsExact, TouchedRows, Offset, Rank, Kept;
    forall fk ensures LostIn(sc, fields, closure, survivors, fk) <==> Lost(ScanRows(sc, h, resources), fk) {
      LostMeans(sc, g, fields, closure, survivors, h, resources, fk);
    }
  }

  lemma {:induction false} AcceptsMade(sc: Schema, g: Graph, ix: Image, resources: seq<Override>, h: Graph)
    requires h == Overlaid(g, WorksOf(resources), map[])
    requires Addressed(sc, g, ix.targetFields, resources, map[]) && !Unscanned(sc, h, resources)
    requires OwnOnce(sc, Accumulate(ScanRows(sc, h, resources)))
    requires ForestLegal(sc, Effective(ix.fields, Accumulate(ScanRows(sc, h, resources))), ix.owners)
    ensures ListAcceptable(sc, g, ix, resources)
  {
    hide Addressed, Unscanned, OwnOnce, ForestLegal, WorksOf, Overlaid, Effective, Accumulate, ScanRows;
    assert AcceptsList(sc, g, ix, resources, ix.owners);
  }

  lemma {:induction false} AcceptedOwners(sc: Schema, g: Graph, ix: Image, resources: seq<Override>, h: Graph) returns (owners: Owners)
    requires ListAcceptable(sc, g, ix, resources) && h == Overlaid(g, WorksOf(resources), map[])
    ensures OwnOnce(sc, Accumulate(ScanRows(sc, h, resources)))
    ensures OwnersExact(sc, Effective(ix.fields, Accumulate(ScanRows(sc, h, resources))), owners) && ix.owners.Keys <= owners.Keys
  {
    hide Addressed, Unscanned, OwnOnce, WorksOf, Overlaid, OwnersExact, OneOwner, Agree, Acyclic, Effective, Accumulate, ScanRows;
    owners :| AcceptsList(sc, g, ix, resources, owners);
  }

  /** With no survivor pointing into the set nobody can lose an edge to it. */
  lemma {:induction false} NoHitsNothingLost(sc: Schema, fields: Fields, owners: Owners, closure: set<NodeKey>)
    requires OwnersExact(sc, fields, owners) && forall fk :: !Hits(fields, closure, closure, fk)
    ensures OwnsSettled(sc, fields, closure) && KeepsEdges(sc, fields, owners, closure, LostFields(sc, fields, closure, []))
  {
    hide Kept;
    assert LostFields(sc, fields, closure, []) == {};
    forall fk | fk in fields ensures HitsOf(fields, closure, fk.holder) == {} {
    }
    forall c | c in closure && c in owners && owners[c] !in closure ensures NamesOwner(sc, fields, c, owners[c]) {
      assert OwnerOf(owners, c) == Some(owners[c]) && IsOwner(sc, fields, c, owners[c]);
      forall fk: FieldKey | fk.holder == owners[c] ensures !OwnVia(sc, fields, fk, c) {
        assert OwnVia(sc, fields, fk, c) ==> Hits(fields, closure, closure, fk);
      }
    }
    OrphansOnly(sc, fields, owners, closure);
  }

  // ---------------------------------------------------------------- the delta of the touched rows

  lemma {:induction false} FieldAgrees(fields: Fields, closure: set<NodeKey>, scans: seq<FieldDelta>, fk: FieldKey)
    requires ScansSurvive(fields, closure, scans) && !Lost(scans, fk) && fk in fields
    ensures var values := Accumulate(scans);
            && fk in LetGo(fields, closure) && EffectiveTargets(fields, values, fk) == LetGo(fields, closure)[fk]
            && (fields + AsFields(values))[fk] == LetGo(fields, closure)[fk]
  {
    hide *;
    LetGoKeys(fields, closure);
    if ListsKey(scans, fk) {
      FoundEntry(fields, closure, scans, fk);
      ListedLetGo(fields, closure, scans, fk);
      PublishedField(fields, closure, scans, fk);
    } else {
      UnlistedEntry(fields, closure, scans, fk);
      UnlistedKept(fields, scans, fk);
    }
  }

  lemma {:induction false} UnlistedKept(fields: Fields, scans: seq<FieldDelta>, fk: FieldKey)
    requires !ListsKey(scans, fk) && fk in fields
    ensures (fields + AsFields(Accumulate(scans)))[fk] == fields[fk]
  {
    AccumulateKeys(scans);
    hide Accumulate, AsFields;
    assert SameKeys(Accumulate(scans), scans);
    SameKeysFound(Accumulate(scans), scans, fk);
  }

  lemma {:induction false} PatchKeys(fields: Fields, closure: set<NodeKey>, scans: seq<FieldDelta>)
    requires ScansSurvive(fields, closure, scans)
    ensures forall fk :: fk in AsFields(Accumulate(scans)) <==> ListsKey(scans, fk)
    ensures forall fk :: fk in AsFields(Accumulate(scans)) ==> fk in fields
  {
    AccumulateKeys(scans);
    hide Accumulate, AsFields, ScansSurvive;
    assert SameKeys(Accumulate(scans), scans);
    forall fk ensures fk in AsFields(Accumulate(scans)) <==> ListsKey(scans, fk)
      ensures ListsKey(scans, fk) ==> fk in fields
    {
      SameKeysFound(Accumulate(scans), scans, fk);
      if ListsKey(scans, fk) {
        ListedLetGo(fields, closure, scans, fk);
      }
    }
  }

  /** With nothing lost, the entries lookups reach are the ones publication installs, and both hold the surviving targets. */
  lemma {:induction false} NothingLostAgrees(fields: Fields, closure: set<NodeKey>, scans: seq<FieldDelta>)
    requires ScansSurvive(fields, closure, scans) && forall fk :: !Lost(scans, fk)
    ensures var values := Accumulate(scans);
            Effective(fields, values) == fields + AsFields(values) && fields + AsFields(values) == LetGo(fields, closure)
  {
    hide *;
    var values := Accumulate(scans);
    EffectiveKeys(fields, closure, scans);
    LetGoKeys(fields, closure);
    PatchKeys(fields, closure, scans);
    forall fk | fk in fields
      ensures EffectiveTargets(fields, values, fk) == LetGo(fields, closure)[fk]
      ensures (fields + AsFields(values))[fk] == LetGo(fields, closure)[fk]
    {
      FieldAgrees(fields, closure, scans, fk);
    }
    EffectiveIs(fields, values, LetGo(fields, closure));
    SameMap(fields + AsFields(values), LetGo(fields, closure));
  }

  lemma {:induction false} SameMap(a: Fields, b: Fields)
    requires a.Keys == b.Keys && forall fk :: fk in a ==> a[fk] == b[fk]
    ensures a == b
  {
  }

  lemma {:induction false} EffectiveIs(fields: Fields, values: seq<FieldDelta>, after: Fields)
    requires after.Keys == fields.Keys && forall fk :: fk in Effective(fields, values) <==> fk in fields
    requires forall fk :: fk in fields ==> EffectiveTargets(fields, values, fk) == after[fk]
    ensures Effective(fields, values) == after
  {
    hide EffectiveTargets;
  }

  /** When nothing is lost the delta is a sound one, rows listed twice or not. */
  lemma {:induction false} DropSound(sc: Schema, g: Graph, ix: Image, closure: set<NodeKey>, survivors: seq<FieldKey>, h: Graph,
                                     resources: seq<Override>, delta: IndexDelta)
    requires Committed(sc, g, ix) && Dropped(sc, g, ix.targets, closure, survivors, h)
    requires SurvivorsListed(sc, ix.fields, closure, closure, survivors) && AllDroppable(sc, ix.fields, closure, closure)
    requires TouchedRows(survivors, h, resources) && forall fk :: !Lost(ScanRows(sc, h, resources), fk)
    requires delta.fields == Accumulate(ScanRows(sc, h, resources)) && delta.created == map[] && delta.targets == map[]
    requires ForestLegal(sc, Effective(ix.fields, delta.fields), Overlay(ix.owners, Afters(delta.owners)))
    requires ChangesFrom(ix.owners, delta.owners) && NoneReleased(delta.owners)
    requires Proposal(sc, ix.targetFields, g, WorksOf(resources), map[])
    requires InverseCollected(sc, ix.fields, resources, delta.fields, delta.inverseTargets)
    ensures DeltaSound(sc, g, ix, WorksOf(resources), map[], delta)
  {
    hide *;
    var scans, works := ScanRows(sc, h, resources), WorksOf(resources);
    CommittedParts(sc, g, ix);
    TouchedIsLive(sc, g, ix.targets, closure, survivors, h, resources);
    RowsSurvive(sc, ix.targetFields, g, ix.targets, ix.fields, closure, survivors, h, resources);
    TouchedWorks(sc, g, ix.fields, ix.targets, closure, survivors, h, resources);
    TouchedRescanned(sc, ix.targetFields, g, ix.targets, ix.fields, closure, survivors, h, works);
    NothingLostAgrees(ix.fields, closure, scans);
    PatchKeys(ix.fields, closure, scans);
    PatchIsTouched(sc, g, ix.fields, closure, h, works, survivors, resources, scans);
    DropSoundMade(sc, g, ix, closure, works, resources, h, delta);
  }

  lemma {:induction false} PatchIsTouched(sc: Schema, g: Graph, fields: Fields, closure: set<NodeKey>, h: Graph, works: Graph,
                                          survivors: seq<FieldKey>, resources: seq<Override>, scans: seq<FieldDelta>)
    requires FieldsExact(sc, g, fields) && WorksSurvive(sc, g, h, closure, fields, works) && ScansSurvive(fields, closure, scans)
    requires scans == ScanRows(sc, h, resources) && TouchedRows(survivors, h, resources)
    requires forall k :: k in works <==> ListsNode(resources, k)
    requires fields + AsFields(Accumulate(scans)) == LetGo(fields, closure)
    requires forall fk :: fk in AsFields(Accumulate(scans)) <==> ListsKey(scans, fk)
    ensures AsFields(Accumulate(scans)) == TouchedPatch(sc, fields, closure, works)
  {
    hide *;
    var patch, touched := AsFields(Accumulate(scans)), TouchedPatch(sc, fields, closure, works);
    TouchedKeys(sc, g, fields, closure, h, works);
    forall fk ensures fk in patch <==> fk in touched
      ensures fk in patch ==> patch[fk] == touched[fk]
    {
      assert works + map[] == works;
      if ListsKey(scans, fk) {
        ListedLetGo(fields, closure, scans, fk);
        ListedInWorks(sc, h, resources, works, fk);
        assert (fields + patch)[fk] == patch[fk];
      }
      if fk in touched {
        FieldHolder(sc, works, fk);
        WorksListed(sc, h, survivors, resources, fk);
      }
    }
    SameMap(patch, touched);
  }

  lemma {:induction false} FieldHolder(sc: Schema, works: Graph, fk: FieldKey)
    requires HasField(sc, works, fk)
    ensures fk.holder in works && Declares(sc, fk.holder.typ, fk.field)
  {
  }

  lemma {:induction false} ListedInWorks(sc: Schema, h: Graph, resources: seq<Override>, works: Graph, fk: FieldKey)
    requires ListsKey(ScanRows(sc, h, resources), fk) && forall k :: k in works <==> ListsNode(resources, k)
    ensures HasField(sc, works, fk)
  {
    hide ScanRows, Targets, Refs;
    var scans := ScanRows(sc, h, resources);
    var j :| 0 <= j < |scans| && scans[j].key == fk;
    ScanOrigin(sc, h, resources, j);
    var i, f :| ScannedFrom(sc, h, resources, i, f, scans[j]);
    assert ListsNode(resources, resources[i].key);
  }

  lemma {:induction false} WorksListed(sc: Schema, h: Graph, survivors: seq<FieldKey>, resources: seq<Override>, fk: FieldKey)
    requires TouchedRows(survivors, h, resources) && ListsNode(resources, fk.holder) && Declares(sc, fk.holder.typ, fk.field)
    ensures ListsKey(ScanRows(sc, h, resources), fk)
  {
    hide ScanRows, FirstAt;
    var i :| 0 <= i < |resources| && resources[i].key == fk.holder;
    assert survivors[i] in survivors;
    ListedCounts(survivors, survivors[i]);
    RowsFound(sc, h, survivors, resources, fk);
  }

  lemma {:induction false} DropSoundMade(sc: Schema, g: Graph, ix: Image, closure: set<NodeKey>, works: Graph, resources: seq<Override>, h: Graph, delta: IndexDelta)
    requires works == WorksOf(resources) && h == Overlaid(g, works, map[]) && delta.created == map[] && delta.targets == map[]
    requires Proposal(sc, ix.targetFields, g, works, map[])
    requires AsFields(delta.fields) == TouchedPatch(sc, ix.fields, closure, works)
    requires var patch := TouchedPatch(sc, ix.fields, closure, works);
             Rescanned(sc, g, works, map[], patch) && forall fk :: fk in patch ==> HasField(sc, h, fk) && FieldLegal(sc, h, fk)
    requires Effective(ix.fields, delta.fields) == ix.fields + AsFields(delta.fields)
    requires ForestLegal(sc, Effective(ix.fields, delta.fields), Overlay(ix.owners, Afters(delta.owners)))
    requires ChangesFrom(ix.owners, delta.owners) && NoneReleased(delta.owners)
    requires InverseCollected(sc, ix.fields, resources, delta.fields, delta.inverseTargets)
    requires forall k :: k in works <==> ListsNode(resources, k)
    ensures DeltaSound(sc, g, ix, works, map[], delta)
  {
    NothingToCreate(ix.targetFields);
    assert works + map[] == works;
    hide Proposal, CreatedTargets, Rescanned, FieldLegal, ForestLegal, AsFields, ObservedBy, TouchedPatch, Effective, ListsNode, WorksOf, Overlaid;
  }

  lemma {:induction false} NothingToCreate(tf: TargetFields)
    ensures CreatedTargets(tf, map[], map[])
  {
  }
}
