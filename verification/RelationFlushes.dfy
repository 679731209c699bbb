/** A whole flush of deletes: the delta where it goes through, else the full path over whatever rows the delta has left behind. Whichever
    way it goes, the same deletes are accepted and, lost fields apart, the same state is left. */
module RelationFlushes {
  import opened RelationSchema
  import opened Wrappers
  import opened OwnershipForest
  import opened RelationGraph
  import opened RelationModels
  import opened RelationIndexes
  import opened RelationOverlays
  import opened RelationDeltas
  import opened RelationIndexDeltas
  import opened RelationRewiring
  import opened RelationPublishing
  import opened RelationSurvivors
  import opened RelationDeletions
  import opened RelationDeleteDelta
  import opened RelationDrops
  import opened RelationScanOrder
  import opened RelationListings
  import opened RelationListOrders
  import opened RelationOrphans
  import opened RelationDeleteFlush
  import opened RelationTransactions
  import opened RelationFallbacks

  // ---------------------------------------------------------------- what detachable deletes leave

  lemma {:induction false} DroppableVetoesNothing(sc: Schema, fields: Fields, closure: set<NodeKey>)
    requires AllDroppable(sc, fields, closure, closure)
    ensures !Vetoed(sc, fields, closure) && !BorrowsDoomed(sc, fields, closure)
  {
    BorrowVetoes(sc, fields, closure);
    forall fk ensures !Vetoes(sc, fields, closure, fk) {
      if Vetoes(sc, fields, closure, fk) {
        assert Hits(fields, closure, closure, fk);
      }
    }
  }

  /** Over a legal graph whose hit fields can let go, the survivors of a closed set are legal. */
  lemma {:induction false} SurvivorsAreLegal(sc: Schema, g: Graph, fields: Fields, owners: Owners, committed: Owners, closure: set<NodeKey>)
    requires WellFormed(sc) && LegalRefs(sc, g) && FieldsExact(sc, g, fields) && ForestLegal(sc, fields, owners)
    requires CascadeClosed(g, owners, committed, closure) && !Vetoed(sc, fields, closure)
    ensures Legal(sc, Survivors(g, closure)) && FieldsExact(sc, Survivors(g, closure), FilterFields(fields, closure))
    ensures forall fk :: !Unscannable(sc, g, fk)
  {
    hide *;
    LegalFrom(sc, g, fields, owners);
    LegalLacksNothing(sc, g);
    SurvivorForest(sc, g, fields, owners, closure);
    SurvivorsLegalRefs(sc, g, fields, owners, committed, closure);
    LegalFrom(sc, Survivors(g, closure), FilterFields(fields, closure), FilterOwners(owners, closure));
  }

  lemma {:induction false} LeastIsOne(g: Graph, owners: Owners, committed: Owners, explicit: set<NodeKey>, a: set<NodeKey>, b: set<NodeKey>)
    requires LeastClosure(g, owners, committed, explicit, a) && LeastClosure(g, owners, committed, explicit, b)
    ensures a == b
  {
  }

  /** The cascade does not depend on how it is found. */
  lemma {:induction false} CascadeIsOne(sc: Schema, g: Graph, fields: Fields, owners: Owners, committed: Owners, explicit: set<NodeKey>,
                                        closure: set<NodeKey>, other: set<NodeKey>)
    requires FieldsExact(sc, g, fields) && ForestLegal(sc, fields, owners) && LeastClosure(g, owners, committed, explicit, closure)
    requires CascadesTo(sc, g, committed, explicit, other)
    ensures other == closure
  {
    hide FieldsExact, ForestLegal, LeastClosure;
    var fields', owners' :| CascadesWith(sc, g, committed, explicit, other, fields', owners');
    FieldsUnique(sc, g, fields, fields');
    OneForest(sc, fields, owners, owners');
    LeastIsOne(g, owners, committed, explicit, closure, other);
  }

  lemma {:induction false} AcceptedMade(sc: Schema, g: Graph, fields: Fields, owners: Owners, committed: Owners, explicit: set<NodeKey>, closure: set<NodeKey>)
    requires FieldsExact(sc, g, fields) && ForestLegal(sc, fields, owners) && LeastClosure(g, owners, committed, explicit, closure)
    requires !BorrowsDoomed(sc, fields, closure) && explicit <= g.Keys && Legal(sc, Survivors(g, closure))
    requires forall fk :: !Unscannable(sc, g, fk)
    ensures Accepted(sc, g, committed, explicit, closure)
  {
    hide FieldsExact, ForestLegal, LeastClosure, BorrowsDoomed, Legal, Unscannable;
    assert AcceptedWith(sc, g, committed, explicit, closure, fields, owners);
  }

  /** Deletes whose hit fields can let go are ones the full validator accepts. */
  lemma {:induction false} DetachableAccepted(sc: Schema, g: Graph, ix: Image, explicit: set<NodeKey>, closure: set<NodeKey>)
    requires Committed(sc, g, ix) && explicit <= g.Keys && LeastClosure(g, ix.owners, ix.owners, explicit, closure)
    requires AllDroppable(sc, ix.fields, closure, closure)
    ensures Accepted(sc, g, ix.owners, explicit, closure)
    ensures FieldsExact(sc, Survivors(g, closure), FilterFields(ix.fields, closure))
  {
    hide *;
    CommittedParts(sc, g, ix);
    LeastIsClosed(g, ix.owners, ix.owners, explicit, closure);
    DroppableVetoesNothing(sc, ix.fields, closure);
    SurvivorsAreLegal(sc, g, ix.fields, ix.owners, ix.owners, closure);
    AcceptedMade(sc, g, ix.fields, ix.owners, ix.owners, explicit, closure);
  }

  // ---------------------------------------------------------------- the rows after the builder refused

  /** The owners that are left once the survivors have let go. */
  ghost function KeptOwners(sc: Schema, fields: Fields, owners: Owners, closure: set<NodeKey>): Owners {
    map c | c in owners && KeepsEdge(sc, fields, closure, {}, c, owners[c]) :: owners[c]
  }

  lemma {:induction false} LetGoSeen(sc: Schema, fields: Fields, closure: set<NodeKey>)
    requires AllDroppable(sc, fields, closure, closure)
    ensures SeenAs(sc, fields, closure, {}, LetGo(fields, closure))
  {
    LetGoKeys(fields, closure);
    hide LetGo, AllDroppable;
    forall bk, o ensures BackVia(sc, LetGo(fields, closure), bk, o) <==> BackVia(sc, fields, bk, o) {
      if bk in fields && IsOwnedBy(sc, bk.holder.typ, bk.field) {
        BackUncut(sc, fields, closure, bk);
      }
    }
  }

  lemma {:induction false} PartChain(owners: Owners, part: Owners, start: NodeKey, n: nat)
    requires part.Keys <= owners.Keys && forall c :: c in part ==> part[c] == owners[c]
    ensures Ancestor(part, start, n).Some? ==> Ancestor(part, start, n) == Ancestor(owners, start, n)
  {
    if n > 0 {
      PartChain(owners, part, start, n - 1);
    }
  }

  lemma {:induction false} PartAcyclic(owners: Owners, part: Owners)
    requires part.Keys <= owners.Keys && (forall c :: c in part ==> part[c] == owners[c]) && Acyclic(owners)
    ensures Acyclic(part)
  {
    forall k ensures !OnCycle(part, k) {
      if n: nat :| n > 0 && Ancestor(part, k, n) == Some(k) {
        PartChain(owners, part, k, n);
        assert OnCycle(owners, k);
      }
    }
  }

  /** What is left is a legal forest still. */
  lemma {:induction false} LetGoForest(sc: Schema, fields: Fields, owners: Owners, closure: set<NodeKey>)
    requires AllDroppable(sc, fields, closure, closure) && ForestLegal(sc, fields, owners)
    ensures ForestLegal(sc, LetGo(fields, closure), KeptOwners(sc, fields, owners, closure))
  {
    var seen, kept := LetGo(fields, closure), KeptOwners(sc, fields, owners, closure);
    LetGoSeen(sc, fields, closure);
    PartAcyclic(owners, kept);
    hide OwnVia, BackVia, LetGo, IsOwner, KeepsEdge, Acyclic, AllDroppable;
    forall fk, c ensures OwnVia(sc, seen, fk, c) ==> OwnVia(sc, fields, fk, c) {
      OwnLetGo(sc, fields, closure, fk, c);
    }
    forall c, o ensures OwnerOf(kept, c) == Some(o) <==> IsOwner(sc, seen, c, o) {
      if IsOwner(sc, seen, c, o) {
        OwnersSeen(sc, fields, closure, {}, seen, c, o);
        assert OwnerOf(owners, c) == Some(o);
        SeenKeepsEdge(sc, fields, closure, seen, c, o);
      }
      if OwnerOf(kept, c) == Some(o) {
        assert OwnerOf(owners, c) == Some(o) && IsOwner(sc, fields, c, o);
        OwnerStays(sc, fields, closure, {}, seen, c, o);
      }
    }
  }

  lemma {:induction false} SeenKeepsEdge(sc: Schema, fields: Fields, closure: set<NodeKey>, seen: Fields, c: NodeKey, o: NodeKey)
    requires SeenAs(sc, fields, closure, {}, seen) && IsOwner(sc, seen, c, o)
    ensures KeepsEdge(sc, fields, closure, {}, c, o)
  {
    hide OwnVia, BackVia, LetGo;
  }

  /** An orphan was a committed child, and a deleted owner takes committed children nobody adopted along: the cascade is the same. */
  lemma {:induction false} SameCascade(g: Graph, d: Graph, owners: Owners, kept: Owners, explicit: set<NodeKey>, closure: set<NodeKey>)
    requires LeastClosure(g, owners, owners, explicit, closure) && owners.Keys <= g.Keys && d.Keys == g.Keys
    requires kept.Keys <= owners.Keys && forall c :: c in kept ==> kept[c] == owners[c]
    ensures LeastClosure(d, kept, owners, explicit, closure)
  {
    forall o, c ensures Cascades(d, kept, owners, o, c) <==> Cascades(g, owners, owners, o, c) {
    }
    hide Cascades;
    forall t ensures CascadeClosed(d, kept, owners, t) <==> CascadeClosed(g, owners, owners, t) {
    }
  }

  lemma {:induction false} DoomedField(sc: Schema, g: Graph, fields: Fields, targets: TargetIndex, closure: set<NodeKey>,
                                       survivors: seq<FieldKey>, d: Graph, fk: FieldKey)
    requires Dropped(sc, g, targets, closure, survivors, d) && SurvivorsListed(sc, fields, closure, closure, survivors)
    requires FieldsExact(sc, g, fields) && LegalRefs(sc, g) && fk in fields && fk.holder in closure
    ensures HasField(sc, d, fk) && FieldLegal(sc, d, fk) && TargetsAt(sc, d, fk) == fields[fk]
  {
    assert HasField(sc, g, fk) && FieldLegal(sc, g, fk);
    forall f | f in survivors ensures f.holder != fk.holder {
      assert Hits(fields, closure, closure, f);
    }
    assert !HoldsSurvivor(survivors, fk.holder);
    hide DroppedLink, Targets, Hits, LinkAt, RefLegal, Resolve;
    UnwiredField(sc, g, d, fk);
  }

  /** The rows the refused delta leaves are a legal graph with the fields let go. */
  lemma {:induction false} DroppedGraph(sc: Schema, g: Graph, ix: Image, closure: set<NodeKey>, survivors: seq<FieldKey>, d: Graph)
    requires Committed(sc, g, ix) && Dropped(sc, g, ix.targets, closure, survivors, d)
    requires SurvivorsListed(sc, ix.fields, closure, closure, survivors) && AllDroppable(sc, ix.fields, closure, closure)
    ensures FieldsExact(sc, d, LetGo(ix.fields, closure)) && LegalRefs(sc, d) && SameScalars(g, d)
  {
    hide *;
    CommittedParts(sc, g, ix);
    DropKeepsScalars(sc, g, ix.targets, closure, survivors, d);
    LetGoKeys(ix.fields, closure);
    forall fk | fk in ix.fields
      ensures HasField(sc, d, fk) && FieldLegal(sc, d, fk) && TargetsAt(sc, d, fk) == LetGo(ix.fields, closure)[fk]
    {
      LetGoAt(ix.fields, closure, fk);
      if fk.holder in closure {
        DoomedField(sc, g, ix.fields, ix.targets, closure, survivors, d, fk);
      } else {
        TouchedField(sc, ix.targetFields, g, ix.targets, ix.fields, closure, survivors, d, fk);
      }
    }
    ExactFrom(sc, g, d, ix.fields, LetGo(ix.fields, closure));
  }

  lemma {:induction false} LetGoAt(fields: Fields, closure: set<NodeKey>, fk: FieldKey)
    requires fk in fields
    ensures fk in LetGo(fields, closure)
    ensures LetGo(fields, closure)[fk] == if fk.holder in closure then fields[fk] else Kept(fields[fk], closure)
  {
    hide Kept;
  }

  lemma {:induction false} ExactFrom(sc: Schema, g: Graph, d: Graph, fields: Fields, after: Fields)
    requires FieldsExact(sc, g, fields) && SameScalars(g, d) && after.Keys == fields.Keys
    requires forall fk :: fk in fields ==> HasField(sc, d, fk) && FieldLegal(sc, d, fk) && TargetsAt(sc, d, fk) == after[fk]
    ensures FieldsExact(sc, d, after) && LegalRefs(sc, d)
  {
    hide TargetsAt, FieldLegal;
    forall fk ensures HasField(sc, d, fk) <==> HasField(sc, g, fk) {
    }
  }

  lemma {:induction false} FilterTwice(fields: Fields, closure: set<NodeKey>)
    ensures FilterFields(LetGo(fields, closure), closure) == FilterFields(fields, closure)
  {
    LetGoKeys(fields, closure);
    forall fk | fk in fields && fk.holder !in closure ensures Kept(LetGo(fields, closure)[fk], closure) == Kept(fields[fk], closure) {
      KeptAll(Kept(fields[fk], closure), closure);
    }
    hide Kept, LetGo;
  }

  lemma {:induction false} LetGoClean(sc: Schema, fields: Fields, closure: set<NodeKey>)
    ensures !Vetoed(sc, LetGo(fields, closure), closure) && !BorrowsDoomed(sc, LetGo(fields, closure), closure)
  {
    hide Kept;
    forall fk ensures !Vetoes(sc, LetGo(fields, closure), closure, fk) {
    }
  }

  lemma {:induction false} KeptPart(sc: Schema, fields: Fields, owners: Owners, closure: set<NodeKey>)
    ensures KeptOwners(sc, fields, owners, closure).Keys <= owners.Keys
    ensures forall c :: c in KeptOwners(sc, fields, owners, closure) ==> KeptOwners(sc, fields, owners, closure)[c] == owners[c]
  {
    hide KeepsEdge;
  }

  /** The full path accepts the same deletes over the rows the delta has left behind, with the same cascade, and keeps the same fields. */
  lemma {:induction false} FallbackConverges(sc: Schema, g: Graph, ix: Image, explicit: set<NodeKey>, closure: set<NodeKey>,
                                             survivors: seq<FieldKey>, d: Graph)
    requires Committed(sc, g, ix) && explicit <= g.Keys && LeastClosure(g, ix.owners, ix.owners, explicit, closure) && ix.owners.Keys <= g.Keys
    requires Dropped(sc, g, ix.targets, closure, survivors, d)
    requires SurvivorsListed(sc, ix.fields, closure, closure, survivors) && AllDroppable(sc, ix.fields, closure, closure)
    ensures SameScalars(g, d) && Accepted(sc, d, ix.owners, explicit, closure) && Buildable(sc, d)
    ensures forall other :: CascadesTo(sc, d, ix.owners, explicit, other) ==> other == closure
    ensures FieldsExact(sc, Survivors(d, closure), FilterFields(ix.fields, closure))
  {
    hide *;
    var fields, kept := LetGo(ix.fields, closure), KeptOwners(sc, ix.fields, ix.owners, closure);
    CommittedParts(sc, g, ix);
    DroppedGraph(sc, g, ix, closure, survivors, d);
    LetGoForest(sc, ix.fields, ix.owners, closure);
    KeptPart(sc, ix.fields, ix.owners, closure);
    SameKeysOf(g, d);
    SameCascade(g, d, ix.owners, kept, explicit, closure);
    LeastIsClosed(d, kept, ix.owners, explicit, closure);
    LetGoClean(sc, ix.fields, closure);
    SurvivorsAreLegal(sc, d, fields, kept, ix.owners, closure);
    AcceptedMade(sc, d, fields, kept, ix.owners, explicit, closure);
    LegalFrom(sc, d, fields, kept);
    LegalIsBuildable(sc, d);
    FilterTwice(ix.fields, closure);
    forall other | CascadesTo(sc, d, ix.owners, explicit, other) ensures other == closure {
      CascadeIsOne(sc, d, fields, kept, ix.owners, explicit, closure, other);
    }
  }

  lemma {:induction false} SameKeysOf(g: Graph, d: Graph)
    requires SameScalars(g, d)
    ensures d.Keys == g.Keys
  {
  }

  // ---------------------------------------------------------------- the flush

  lemma {:induction false} RebuiltBy(sc: Schema, g: Graph, d: Graph, closure: set<NodeKey>, fields: Fields, next: Graph, ix: Image)
    requires Steady(sc, next, ix) && SameScalars(g, d) && SameScalars(Survivors(d, closure), next)
    requires FieldsExact(sc, Survivors(d, closure), ix.fields) && FieldsExact(sc, Survivors(d, closure), fields)
    requires FieldsExact(sc, Survivors(g, closure), fields)
    ensures RebuiltOver(sc, g, closure, next, ix)
  {
    FieldsUnique(sc, Survivors(d, closure), ix.fields, fields);
    hide FieldsExact, Steady;
  }

  lemma {:induction false} NothingProposed(g: Graph)
    ensures WorksOf([]) == map[] && Overlaid(g, map[], map[]) == g && RowsFit(g, [], map[])
  {
  }

  /** A listed holder survives. */
  lemma {:induction false} LostSurvives(sc: Schema, fields: Fields, closure: set<NodeKey>, survivors: seq<FieldKey>, fk: FieldKey)
    requires SurvivorsListed(sc, fields, closure, closure, survivors) && LostIn(sc, fields, closure, survivors, fk)
    ensures fk.holder !in closure && fk in fields
  {
    hide Kept, Offset, Rank;
    ListingsLast(survivors, fk.holder);
    var listed := survivors[LastListing(survivors, fk.holder)];
    assert listed in survivors;
    assert Hits(fields, closure, closure, listed);
  }

  lemma {:induction false} LostAtRisk(sc: Schema, g: Graph, fields: Fields, incoming: Buckets, counts: Counts, closure: set<NodeKey>,
                                      survivors: seq<FieldKey>, lost: set<FieldKey>)
    requires BucketsMatch(incoming, counts) && Transposed(fields, counts) && FieldsExact(sc, g, fields)
    requires Producible(incoming, closure, survivors) && lost == LostFields(sc, fields, closure, survivors)
    ensures forall fk :: fk in lost ==> ExposedBy(sc, fields, incoming, closure, fk)
  {
    hide *;
    LostAre(sc, fields, closure, survivors);
    forall fk | fk in lost ensures ExposedBy(sc, fields, incoming, closure, fk) {
      LostIsExposedBy(sc, g, fields, incoming, counts, closure, survivors, fk);
    }
  }

  lemma {:induction false} FlushedByDelta(sc: Schema, g: Graph, ix: Image, explicit: set<NodeKey>, closure: set<NodeKey>,
                                          survivors: seq<FieldKey>, lost: set<FieldKey>)
    requires Committed(sc, g, ix) && explicit <= g.Keys && LeastClosure(g, ix.owners, ix.owners, explicit, closure)
    requires Flushable(sc, g, ix, closure, survivors) && SurvivorsListed(sc, ix.fields, closure, closure, survivors)
    requires lost == LostFields(sc, ix.fields, closure, survivors)
    ensures Accepted(sc, g, ix.owners, explicit, closure)
    ensures lost == {} <==> forall fk :: !LostIn(sc, ix.fields, closure, survivors, fk)
    ensures forall fk :: fk in lost ==> Exposed(sc, ix.fields, closure, fk) && fk in Flushed(sc, ix.fields, closure, survivors)
                                        && Flushed(sc, ix.fields, closure, survivors)[fk] == []
  {
    hide *;
    FlushableIs(sc, g, ix, closure, survivors);
    DetachableAccepted(sc, g, ix, explicit, closure);
    LostAre(sc, ix.fields, closure, survivors);
    forall fk | fk in lost
      ensures Exposed(sc, ix.fields, closure, fk) && fk in Flushed(sc, ix.fields, closure, survivors)
      ensures Flushed(sc, ix.fields, closure, survivors)[fk] == []
    {
      LostIsExposed(sc, ix.fields, closure, survivors, fk);
      LostSurvives(sc, ix.fields, closure, survivors, fk);
      FlushedAt(sc, ix.fields, closure, survivors, fk);
    }
  }

  lemma {:induction false} LostAre(sc: Schema, fields: Fields, closure: set<NodeKey>, survivors: seq<FieldKey>)
    ensures forall fk :: fk in LostFields(sc, fields, closure, survivors) <==> LostIn(sc, fields, closure, survivors, fk)
  {
    hide Kept, Offset, Rank, Listings, LastListing;
  }

  lemma {:induction false} NodesLeft(a: map<NodeKey, LiveRow>, b: map<NodeKey, LiveRow>, closure: set<NodeKey>)
    requires b == a - closure
    ensures forall k :: k in a && k in b ==> b[k] == a[k]
  {
  }

  /** What the delta has left behind when it does not go through. */
  ghost predicate Leftover(sc: Schema, g: Graph, ix: Image, explicit: set<NodeKey>, closure: set<NodeKey>, survivors: seq<FieldKey>, d: Graph) {
    d == g || FellBack(sc, g, ix, explicit, closure, survivors, d)
  }

  /** Either way the full path finds the same closure and accepts the same deletes. */
  lemma {:induction false} Fallback(sc: Schema, g: Graph, ix: Image, explicit: set<NodeKey>, closure: set<NodeKey>,
                                    survivors: seq<FieldKey>, d: Graph, other: set<NodeKey>)
    requires Committed(sc, g, ix) && explicit <= g.Keys && LeastClosure(g, ix.owners, ix.owners, explicit, closure) && ix.owners.Keys <= g.Keys
    requires Leftover(sc, g, ix, explicit, closure, survivors, d)
    requires Buildable(sc, d) && explicit <= d.Keys ==> CascadesTo(sc, d, ix.owners, explicit, other)
    ensures other == closure && (Accepted(sc, d, ix.owners, explicit, other) <==> Accepted(sc, g, ix.owners, explicit, closure))
    ensures d != g ==> Accepted(sc, d, ix.owners, explicit, other)
  {
    hide *;
    LeftoverIs(sc, g, ix, explicit, closure, survivors, d);
    CommittedParts(sc, g, ix);
    CommittedIsLegal(sc, g, ix);
    LegalIsBuildable(sc, g);
    if d == g {
      CascadeIsOne(sc, g, ix.fields, ix.owners, ix.owners, explicit, closure, other);
    } else {
      FallbackConverges(sc, g, ix, explicit, closure, survivors, d);
      SameKeysOf(g, d);
      DetachableAccepted(sc, g, ix, explicit, closure);
    }
  }

  lemma {:induction false} LeftoverIs(sc: Schema, g: Graph, ix: Image, explicit: set<NodeKey>, closure: set<NodeKey>, survivors: seq<FieldKey>, d: Graph)
    requires Leftover(sc, g, ix, explicit, closure, survivors, d)
    ensures d != g ==> && explicit <= g.Keys && AllDroppable(sc, ix.fields, closure, closure)
                       && SurvivorsListed(sc, ix.fields, closure, closure, survivors) && Dropped(sc, g, ix.targets, closure, survivors, d)
  {
    hide AllDroppable, KeysUnshared, SurvivorsListed, Dropped;
  }

  lemma {:induction false} RebuiltEither(sc: Schema, g: Graph, ix: Image, explicit: set<NodeKey>, closure: set<NodeKey>,
                                         survivors: seq<FieldKey>, d: Graph, next: Graph, ix': Image)
    requires Committed(sc, g, ix) && explicit <= g.Keys && LeastClosure(g, ix.owners, ix.owners, explicit, closure) && ix.owners.Keys <= g.Keys
    requires Leftover(sc, g, ix, explicit, closure, survivors, d)
    requires Steady(sc, next, ix') && SameScalars(Survivors(d, closure), next) && FieldsExact(sc, Survivors(d, closure), ix'.fields)
    ensures RebuiltOver(sc, g, closure, next, ix')
  {
    hide *;
    LeftoverIs(sc, g, ix, explicit, closure, survivors, d);
    if d == g {
      RebuiltIs(sc, g, closure, next, ix');
    } else {
      FallbackConverges(sc, g, ix, explicit, closure, survivors, d);
      DetachableAccepted(sc, g, ix, explicit, closure);
      RebuiltBy(sc, g, d, closure, FilterFields(ix.fields, closure), next, ix');
    }
  }

  lemma {:induction false} UnknownRefused(sc: Schema, g: Graph, ix: Image, explicit: set<NodeKey>, closure: set<NodeKey>, survivors: seq<FieldKey>, d: Graph)
    requires !(explicit <= g.Keys) && Leftover(sc, g, ix, explicit, closure, survivors, d)
    ensures d == g && forall committed, other :: !Accepted(sc, g, committed, explicit, other)
  {
    hide Legal, Unscannable;
  }

  lemma {:induction false} LeftoverFrom(sc: Schema, g: Graph, ix: Image, explicit: set<NodeKey>, closure: set<NodeKey>, survivors: seq<FieldKey>, d: Graph)
    requires d == g || FellBack(sc, g, ix, explicit, closure, survivors, d)
    ensures Leftover(sc, g, ix, explicit, closure, survivors, d)
  {
    hide FellBack;
  }

  /** Flush deletes. The closure is the least cascade; the flush succeeds exactly when the full validator accepts the deletes, whichever
      path it takes; and it leaves a rebuild over the survivors exactly when no field was lost, which only the delta path can do and
      only to an exposed field. `lost` names those fields; the code does not look for them. */
  method FlushDeletes(index: CommittedIndex, explicit: set<NodeKey>)
    returns (flushed: bool, next: CommittedIndex, ghost closure: set<NodeKey>, lost: set<FieldKey>)
    requires index.Valid() && Steady(index.sc, index.graph, index.Contents())
    modifies index, index.rows
    ensures explicit <= old(index.graph).Keys ==>
              LeastClosure(old(index.graph), old(index.owners), old(index.owners), explicit, closure)
    ensures flushed <==> Accepted(index.sc, old(index.graph), old(index.owners), explicit, closure)
    ensures flushed ==> (RebuiltOver(index.sc, old(index.graph), closure, next.graph, next.Contents()) <==> lost == {})
    ensures forall fk :: fk in lost ==> Exposed(index.sc, old(index.fields), closure, fk) && fk in next.fields && next.fields[fk] == []
                                        && ExposedBy(index.sc, old(index.fields), old(index.incoming), closure, fk)
    ensures next.Valid() && next.sc == index.sc && fresh(next.rows - old(index.rows)) && (next == index || fresh(next))
    ensures !flushed ==> lost == {} && next == index && index.graph == old(index.graph) && index.Contents() == old(index.Contents())
                         && index.nodes == old(index.nodes)
    ensures forall k :: k in old(index.nodes) && k in next.nodes ==> next.nodes[k] == old(index.nodes)[k]
  {
    hide *;
    ghost var sc, g, ix, nodes0 := index.sc, index.graph, index.Contents(), index.nodes;
    ghost var incoming, counts := index.incoming, index.counts;
    var fields := index.fields;
    lost := {};
    SteadyParts(sc, g, ix);
    CommittedParts(sc, g, ix);
    CommittedOwners(sc, g, ix);
    IndexParts(index);
    var done, doomed, survivors := FlushDeletesViaDelta(index, explicit);
    closure := doomed;
    if done {
      lost := LostFields(index.sc, fields, doomed, survivors);
      FlushableIs(sc, g, ix, closure, survivors);
      FlushedByDelta(sc, g, ix, explicit, closure, survivors, lost);
      LostAtRisk(sc, g, ix.fields, incoming, counts, closure, survivors, lost);
      NodesLeft(nodes0, index.nodes, closure);
      return true, index, closure, lost;
    }
    ghost var d := index.graph;
    IndexParts(index);
    NothingProposed(d);
    ghost var other;
    var kept: RelationModel?;
    NoModelMissesNobody(index.sc, d, WorksOf([]), map[]);
    flushed, next, kept, other := CommitFull(index, null, [], map[], explicit);
    LeftoverFrom(sc, g, ix, explicit, closure, survivors, d);
    if explicit <= g.Keys {
      Fallback(sc, g, ix, explicit, closure, survivors, d, other);
      if flushed {
        IndexParts(next);
        RebuiltEither(sc, g, ix, explicit, closure, survivors, d, next.graph, next.Contents());
      }
    } else {
      UnknownRefused(sc, g, ix, explicit, closure, survivors, d);
    }
  }
}
