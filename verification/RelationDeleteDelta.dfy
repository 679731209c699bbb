/** The delete fast path: cascade over the committed forest, drop the survivors' doomed pointers, publish that as an
    index delta and erase the doomed set, against a rebuild over the survivors. */
module RelationDeleteDelta {
  import opened RelationSchema
  import opened Wrappers
  import opened Ordering
  import opened OwnershipForest
  import opened OwnershipWalks
  import opened RelationGraph
  import opened RelationScan
  import opened RelationModels
  import opened RelationContainers
  import opened RelationIndexes
  import opened RelationOverlays
  import opened RelationIndexDeltas
  import opened RelationRewiring
  import opened RelationPublishing
  import opened RelationSurvivors
  import opened RelationDeletions
  import opened RelationErasure

  // ---------------------------------------------------------------- erasing a closed set keeps a steady state

  /** Everything erasure needs to know is clean: nobody left behind points or belongs into the doomed set. */
  ghost predicate CleanCut(sc: Schema, g: Graph, ix: Image, closure: set<NodeKey>) {
    Erasable(sc, g, ix, closure) && CascadeClosed(g, ix.owners, ix.owners, closure)
  }

  lemma {:induction false} FieldsUncut(fields: Fields, closure: set<NodeKey>)
    requires NoneInto(fields, closure)
    ensures FilterFields(fields, closure) == FieldsWithout(fields, closure)
  {
    forall fk | fk in fields && fk.holder !in closure ensures Kept(fields[fk], closure) == fields[fk] {
      KeptAll(fields[fk], closure);
    }
  }

  lemma {:induction false} OwnersUncut(g: Graph, owners: Owners, outgoing: map<NodeKey, seq<NodeKey>>, left: Owners, closure: set<NodeKey>)
    requires CascadeClosed(g, owners, owners, closure) && left == owners - closure && OutgoingOutside(closure, left, outgoing)
    ensures FilterOwners(owners, closure) == left && OutgoingExact(left, outgoing)
  {
    forall c | c in owners && c !in closure ensures owners[c] !in closure {
      assert Cascades(g, owners, owners, owners[c], c);
    }
    hide Cascades, CascadeClosed;
    forall o, c ensures c in ChildrenOf(outgoing, o) <==> OwnerOf(left, c) == Some(o) {
      assert c in ChildrenOf(outgoing, o) <==> OwnerOf(left, c) == Some(o) && o !in closure;
    }
  }

  lemma {:induction false} NoVetoLeft(sc: Schema, fields: Fields, closure: set<NodeKey>)
    requires NoneInto(fields, closure)
    ensures !Vetoed(sc, fields, closure)
  {
  }

  lemma {:induction false} LegalLacksNothing(sc: Schema, g: Graph)
    requires Legal(sc, g)
    ensures (forall fk :: !Unscannable(sc, g, fk)) && (forall fk :: !Lacks(sc, g, fk)) && forall fk, i :: !ClashesAt(sc, g, fk, i)
  {
    LegalIsBuildable(sc, g);
    hide Legal, Lacks, ClashesAt;
    forall fk, i ensures !ClashesAt(sc, g, fk, i) {
      assert !Unscannable(sc, g, fk);
      ClashHas(sc, g, fk, i);
    }
  }

  lemma {:induction false} ClashHas(sc: Schema, g: Graph, fk: FieldKey, i: int)
    ensures ClashesAt(sc, g, fk, i) ==> HasField(sc, g, fk)
  {
  }

  lemma {:induction false} SurvivorsDangleNot(sc: Schema, g: Graph, fields: Fields, closure: set<NodeKey>)
    requires FieldsExact(sc, g, fields) && NoneInto(fields, closure) && NothingDangles(sc, g)
    requires forall fk, i :: !ClashesAt(sc, g, fk, i)
    ensures NothingDangles(sc, Survivors(g, closure))
  {
    var s := Survivors(g, closure);
    forall fk, lk, i | DanglesAt(sc, s, fk, lk, i) ensures false {
      var refs := RefsAt(sc, g, fk);
      assert !ClashesAt(sc, g, fk, i) && !DanglesAt(sc, g, fk, lk, i);
      ResolveSurvivors(g, closure, lk);
      var t := Resolve(g, lk).key;
      assert Target(g, SpecOf(sc, fk), refs[i]) == Some(t);
      TargetsMember(g, SpecOf(sc, fk), refs, t);
    }
  }

  lemma {:induction false} ViewsUncut(sc: Schema, fields: Fields, closure: set<NodeKey>, view: Spec, target: NodeKey, listed: seq<NodeKey>)
    requires ViewExact(sc, fields, view, target, listed) && target !in closure
    requires !LosesHolder(sc, fields, closure, closure, target)
    ensures ViewExact(sc, FieldsWithout(fields, closure), view, target, listed)
  {
    var left := FieldsWithout(fields, closure);
    forall fk ensures HoldsThrough(sc, fields, view, target, fk) <==> HoldsThrough(sc, left, view, target, fk) {
    }
  }

  lemma {:induction false} ViewsSurvive(sc: Schema, g: Graph, fields: Fields, closure: set<NodeKey>, inverse: set<NodeKey>, after: Graph)
    requires ViewsExact(sc, g, fields) && Viewed(sc, FieldsWithout(fields, closure), Survivors(g, closure), inverse, after)
    requires forall t :: t in inverse <==> LosesHolder(sc, fields, closure, closure, t)
    ensures ViewsExact(sc, after, FieldsWithout(fields, closure))
  {
    hide ViewExact, Ascending, LosesHolder, FieldsWithout;
    forall k, f | k in after && IsView(sc, k.typ, f)
      ensures ViewExact(sc, FieldsWithout(fields, closure), sc[k.typ][f], k, ViewAt(after[k], f))
    {
      if k !in inverse {
        assert k in g && k !in closure && after[k].views == g[k].views;
        assert ViewExact(sc, fields, sc[k.typ][f], k, ViewAt(g[k], f));
        ViewsUncut(sc, fields, closure, sc[k.typ][f], k, ViewAt(g[k], f));
      }
    }
  }

  lemma {:induction false} SurvivorsCovered(sc: Schema, g: Graph, tf: TargetFields, closure: set<NodeKey>, after: Graph)
    requires Covers(sc, g, tf) && after.Keys <= g.Keys
    ensures Covers(sc, after, tf)
  {
    forall fk | HasField(sc, after, fk) ensures HasField(sc, g, fk) {
    }
    hide HasField, Searchable;
  }

  /** Erasing a cleanly cut set from a steady state leaves a steady state. */
  lemma {:induction false} ErasedSteady(sc: Schema, g: Graph, ix: Image, closure: set<NodeKey>, left: Image, inverse: set<NodeKey>, after: Graph)
    requires Steady(sc, g, ix) && CleanCut(sc, g, ix, closure)
    requires ErasedTo(sc, g, ix, closure, closure, Survivors(g, closure), left, inverse) && Transposed(left.fields, left.counts)
    requires Viewed(sc, left.fields, Survivors(g, closure), inverse, after)
    ensures Steady(sc, after, left) && FieldsExact(sc, Survivors(g, closure), left.fields) && SameScalars(Survivors(g, closure), after)
  {
    hide *;
    var s := Survivors(g, closure);
    SteadyParts(sc, g, ix);
    CommittedParts(sc, g, ix);
    CommittedIsLegal(sc, g, ix);
    LegalLacksNothing(sc, g);
    CutParts(sc, g, ix, closure);
    ErasedParts(sc, g, ix, closure, closure, s, left, inverse);
    FieldsUncut(ix.fields, closure);
    OwnersUncut(g, ix.owners, left.outgoing, left.owners, closure);
    SurvivorForest(sc, g, ix.fields, ix.owners, closure);
    NoVetoLeft(sc, ix.fields, closure);
    SurvivorsLegalRefs(sc, g, ix.fields, ix.owners, ix.owners, closure);
    SurvivorsDangleNot(sc, g, ix.fields, closure);
    ViewedMeans(sc, left.fields, s, inverse, after);
    ViewsSurvive(sc, g, ix.fields, closure, inverse, after);
    SameTargetIndex(s, after, left.targetFields, left.targets);
    SameNodes(g, closure, after);
    SurvivorsCovered(sc, g, ix.targetFields, closure, after);
    DanglingViewed(sc, s, after);
    SteadyMade(sc, after, left);
  }

  lemma {:induction false} CommittedIsLegal(sc: Schema, g: Graph, ix: Image)
    requires Committed(sc, g, ix)
    ensures Legal(sc, g)
  {
  }

  lemma {:induction false} CutParts(sc: Schema, g: Graph, ix: Image, closure: set<NodeKey>)
    requires CleanCut(sc, g, ix, closure)
    ensures CascadeClosed(g, ix.owners, ix.owners, closure) && NoneInto(ix.fields, closure) && Erasable(sc, g, ix, closure)
  {
  }

  lemma {:induction false} SameNodes(g: Graph, closure: set<NodeKey>, after: Graph)
    requires SameScalars(Survivors(g, closure), after)
    ensures after.Keys <= g.Keys
  {
  }

  lemma {:induction false} DanglingViewed(sc: Schema, s: Graph, after: Graph)
    requires NothingDangles(sc, s) && forall fk, lk, i :: DanglesAt(sc, after, fk, lk, i) ==> DanglesAt(sc, s, fk, lk, i)
    ensures NothingDangles(sc, after)
  {
    hide DanglesAt;
  }

  lemma {:induction false} SteadyMade(sc: Schema, g: Graph, ix: Image)
    requires WellFormed(sc) && LegalRefs(sc, g) && FieldsExact(sc, g, ix.fields) && ForestLegal(sc, ix.fields, ix.owners)
    requires TargetIndexExact(g, ix.targetFields, ix.targets) && Covers(sc, g, ix.targetFields)
    requires Transposed(ix.fields, ix.counts) && OutgoingExact(ix.owners, ix.outgoing)
    requires NothingDangles(sc, g) && ViewsExact(sc, g, ix.fields)
    ensures Steady(sc, g, ix)
  {
    hide LegalRefs, FieldsExact, TargetIndexExact, Covers, NothingDangles, ViewsExact, OwnersExact, OneOwner, Agree, Acyclic, WellFormed,
         Transposed, OutgoingExact;
  }

  // ---------------------------------------------------------------- the doomed set and who holds on to it

  /** Cascade over the committed child lists. */
  method CommittedClosure(outgoing: map<NodeKey, seq<NodeKey>>, ghost g: Graph, ghost owners: Owners, explicit: set<NodeKey>)
    returns (closure: set<NodeKey>)
    requires OutgoingExact(owners, outgoing) && explicit <= g.Keys && owners.Keys <= g.Keys
    ensures LeastClosure(g, owners, owners, explicit, closure) && closure <= g.Keys
  {
    hide *;
    closure := explicit;
    var queue := KeysOf(explicit);
    CascadeStart(g, owners, owners, explicit, queue);
    while queue != []
      invariant Cascading(g, owners, owners, explicit, closure, queue)
      decreases g.Keys - closure, |queue|
    {
      var children := ChildrenOf(outgoing, queue[0]);
      ChildrenCascade(g, owners, outgoing, queue[0]);
      var news: seq<NodeKey> := [];
      ghost var before := closure;
      var i := 0;
      while i < |children|
        invariant 0 <= i <= |children| && closure == before + (set c | c in news)
        invariant forall c :: c in news <==> c in children[..i] && c !in before
      {
        assert children[..i + 1] == children[..i] + [children[i]];
        if children[i] !in closure {
          news := news + [children[i]];
          closure := closure + {children[i]};
        }
        i := i + 1;
      }
      assert children[..i] == children;
      CascadeStep(g, owners, owners, explicit, before, queue, children, news);
      Shrinks(g, owners, owners, explicit, before, closure, queue[1..] + news, news);
      queue := queue[1..] + news;
    }
    CascadeDone(g, owners, owners, explicit, closure);
    CascadeWithin(g, owners, owners, explicit, closure, queue);
  }

  lemma {:induction false} ChildrenCascade(g: Graph, owners: Owners, outgoing: map<NodeKey, seq<NodeKey>>, owner: NodeKey)
    requires OutgoingExact(owners, outgoing)
    ensures forall c :: c in ChildrenOf(outgoing, owner) <==> Cascades(g, owners, owners, owner, c)
  {
  }

  /** A surviving field that points at one of `doomed`. */
  ghost predicate Hits(fields: Fields, closure: set<NodeKey>, doomed: set<NodeKey>, fk: FieldKey) {
    fk in fields && fk.holder !in closure && exists t :: t in fields[fk] && t in doomed
  }

  /** Each surviving field that points into `doomed`, once. */
  ghost predicate SurvivorsListed(sc: Schema, fields: Fields, closure: set<NodeKey>, doomed: set<NodeKey>, survivors: seq<FieldKey>) {
    && Distinct(survivors)
    && (forall fk :: fk in survivors <==> Hits(fields, closure, doomed, fk))
  }

  /** The same, with the first `n` bucket entries of the next doomed node looked at. */
  ghost predicate EntriesListed(sc: Schema, fields: Fields, closure: set<NodeKey>, doomed: set<NodeKey>,
                                entries: seq<IncomingCount>, n: int, survivors: seq<FieldKey>)
  {
    && Distinct(survivors) && 0 <= n <= |entries|
    && (forall fk :: fk in survivors <==>
          Hits(fields, closure, doomed, fk) || (fk.holder !in closure && exists i :: 0 <= i < n && entries[i].field == fk))
  }

  lemma {:induction false} EntriesStep(sc: Schema, fields: Fields, closure: set<NodeKey>, doomed: set<NodeKey>,
                                       entries: seq<IncomingCount>, n: nat, survivors: seq<FieldKey>)
    requires EntriesListed(sc, fields, closure, doomed, entries, n, survivors) && n < |entries|
    ensures var fk := entries[n].field;
            EntriesListed(sc, fields, closure, doomed, entries, n + 1,
                          if fk.holder in closure || fk in survivors then survivors else survivors + [fk])
  {
    hide Hits;
    var fk := entries[n].field;
    if fk.holder !in closure && fk !in survivors {
      DistinctAppend(survivors, fk);
    }
  }

  lemma {:induction false} EntriesEnd(sc: Schema, fields: Fields, closure: set<NodeKey>, doomed: set<NodeKey>, target: NodeKey,
                                      entries: seq<IncomingCount>, bag: multiset<FieldKey>, survivors: seq<FieldKey>)
    requires EntriesMatch(entries, bag) && forall fk :: bag[fk] == Mult(fields, fk, target)
    requires EntriesListed(sc, fields, closure, doomed, entries, |entries|, survivors)
    ensures SurvivorsListed(sc, fields, closure, doomed + {target}, survivors)
  {
    forall fk ensures (exists i :: 0 <= i < |entries| && entries[i].field == fk) <==> fk in fields && target in fields[fk] {
      assert bag[fk] == Mult(fields, fk, target);
      if i :| 0 <= i < |entries| && entries[i].field == fk {
        EntryCounts(fields, target, entries, bag, i);
      }
      if fk in fields && target in fields[fk] {
        assert fk in bag && Holds(entries, fk);
      }
    }
    hide EntriesMatch, Mult;
    forall fk ensures Hits(fields, closure, doomed + {target}, fk) <==>
                      Hits(fields, closure, doomed, fk) || (fk in fields && fk.holder !in closure && target in fields[fk])
    {
    }
    hide Hits;
  }

  lemma {:induction false} EntriesStart(sc: Schema, fields: Fields, closure: set<NodeKey>, doomed: set<NodeKey>,
                                        entries: seq<IncomingCount>, survivors: seq<FieldKey>)
    requires SurvivorsListed(sc, fields, closure, doomed, survivors)
    ensures EntriesListed(sc, fields, closure, doomed, entries, 0, survivors)
  {
    hide Hits;
  }

  /** No lookup key of the row is shared with another node. */
  ghost predicate KeysUnshared(tf: TargetFields, targets: TargetIndex, g: Graph, k: NodeKey) {
    forall lk :: Searchable(tf, lk) && Bears(g, k, lk) ==> lk !in targets || !targets[lk].duplicate
  }

  lemma {:induction false} UnsharedSole(tf: TargetFields, targets: TargetIndex, g: Graph, closure: set<NodeKey>)
    requires TargetIndexExact(g, tf, targets) && forall k :: k in closure ==> KeysUnshared(tf, targets, g, k)
    ensures SoleBearers(tf, g, closure)
  {
    hide Bears;
    forall k, lk | k in closure && Searchable(tf, lk) && Bears(g, k, lk) ensures Sole(g, k, lk) {
      assert KeysUnshared(tf, targets, g, k);
      assert lk in targets && Sole(g, targets[lk].key, lk);
    }
  }

  type Buckets = map<NodeKey, Bucket>

  function EntriesOf(incoming: Buckets, target: NodeKey): seq<IncomingCount> {
    if target in incoming then incoming[target].entries else []
  }

  /** The list once a bucket has been read in its own order: each field of a survivor that is not yet there comes behind the others. */
  function Gather(closure: set<NodeKey>, entries: seq<IncomingCount>, list: seq<FieldKey>): seq<FieldKey> {
    if entries == [] then list
    else
      var n := |entries| - 1;
      var before := Gather(closure, entries[..n], list);
      var fk := entries[n].field;
      if entries[n].count <= 0 || fk.holder in closure || fk in before then before else before + [fk]
  }

  /** The list once the doomed nodes have been visited in this order. */
  function GatherAll(incoming: Buckets, closure: set<NodeKey>, order: seq<NodeKey>): seq<FieldKey> {
    if order == [] then []
    else
      var n := |order| - 1;
      Gather(closure, EntriesOf(incoming, order[n]), GatherAll(incoming, closure, order[..n]))
  }

  /** The order visits each node of the set once. */
  ghost predicate Visits(order: seq<NodeKey>, nodes: set<NodeKey>) {
    Distinct(order) && forall k :: k in order <==> k in nodes
  }

  /** The lists a flush can work from: those of some order of the doomed set, each bucket in the order it has. */
  ghost predicate Producible(incoming: Buckets, closure: set<NodeKey>, survivors: seq<FieldKey>) {
    exists order :: Visits(order, closure) && survivors == GatherAll(incoming, closure, order)
  }

  lemma {:induction false} GatherStep(closure: set<NodeKey>, entries: seq<IncomingCount>, n: nat, list: seq<FieldKey>)
    requires n < |entries|
    ensures var before, fk := Gather(closure, entries[..n], list), entries[n].field;
            Gather(closure, entries[..n + 1], list)
            == if entries[n].count <= 0 || fk.holder in closure || fk in before then before else before + [fk]
  {
    assert entries[..n + 1][..n] == entries[..n];
  }

  lemma {:induction false} GatherAllStep(incoming: Buckets, closure: set<NodeKey>, order: seq<NodeKey>, next: NodeKey)
    ensures GatherAll(incoming, closure, order + [next]) == Gather(closure, EntriesOf(incoming, next), GatherAll(incoming, closure, order))
  {
    assert (order + [next])[..|order|] == order;
  }

  lemma {:induction false} VisitNext(order: seq<NodeKey>, nodes: set<NodeKey>, next: NodeKey)
    requires Visits(order, nodes) && next !in nodes
    ensures Visits(order + [next], nodes + {next})
  {
    DistinctAppend(order, next);
  }

  /** The fields of one doomed node's bucket: veto, or add the droppable ones. */
  method CollectFromBucket(index: CommittedIndex, closure: set<NodeKey>, ghost done: set<NodeKey>, doomed: NodeKey, survivors0: seq<FieldKey>)
    returns (ok: bool, survivors: seq<FieldKey>)
    requires BucketsMatch(index.incoming, index.counts) && Transposed(index.fields, index.counts)
    requires SurvivorsListed(index.sc, index.fields, closure, done, survivors0)
    ensures ok ==> SurvivorsListed(index.sc, index.fields, closure, done + {doomed}, survivors)
                   && survivors == Gather(closure, EntriesOf(index.incoming, doomed), survivors0)
    ensures ok <==> AllDroppable(index.sc, index.fields, closure, {doomed})
  {
    hide *;
    survivors := survivors0;
    var entries := if doomed in index.incoming then index.incoming[doomed].entries else [];
    EntriesAre(index.incoming, doomed);
    BucketOf(index.fields, index.incoming, index.counts, doomed);
    GatherNothing(closure, entries, survivors);
    EntriesStart(index.sc, index.fields, closure, done, entries, survivors);
    var i := 0;
    while i < |entries|
      invariant 0 <= i <= |entries| && EntriesListed(index.sc, index.fields, closure, done, entries, i, survivors)
      invariant survivors == Gather(closure, entries[..i], survivors0)
      invariant forall j :: 0 <= j < i && entries[j].field.holder !in closure ==> Droppable(index.sc, entries[j].field)
    {
      EntryCounts(index.fields, doomed, entries, BagOf(index.counts, doomed), i);
      EntriesStep(index.sc, index.fields, closure, done, entries, i, survivors);
      GatherStep(closure, entries, i, survivors0);
      var fk := entries[i].field;
      if entries[i].count > 0 && fk.holder !in closure {
        if fk !in index.fields || !Droppable(index.sc, fk) {
          NotAllDroppable(index.sc, index.fields, closure, doomed, fk);
          return false, [];
        }
        if fk !in survivors {
          survivors := survivors + [fk];
        }
      }
      i := i + 1;
    }
    assert entries[..i] == entries;
    EntriesEnd(index.sc, index.fields, closure, done, doomed, entries, BagOf(index.counts, doomed), survivors);
    EntriesDroppable(index.sc, index.fields, closure, doomed, entries, BagOf(index.counts, doomed));
    ok := true;
  }

  lemma {:induction false} EntriesAre(incoming: Buckets, target: NodeKey)
    ensures EntriesOf(incoming, target) == if target in incoming then incoming[target].entries else []
  {
  }

  lemma {:induction false} GatherNothing(closure: set<NodeKey>, entries: seq<IncomingCount>, list: seq<FieldKey>)
    ensures Gather(closure, entries[..0], list) == list
  {
  }

  /** Every surviving field that points at one of `doomed` can let go of it. */
  ghost predicate AllDroppable(sc: Schema, fields: Fields, closure: set<NodeKey>, doomed: set<NodeKey>) {
    forall fk :: Hits(fields, closure, doomed, fk) ==> Droppable(sc, fk)
  }

  /** What lets a flush of deletes stay on the delta path. */
  ghost predicate Detachable(sc: Schema, g: Graph, ix: Image, closure: set<NodeKey>) {
    AllDroppable(sc, ix.fields, closure, closure) && forall k :: k in closure ==> KeysUnshared(ix.targetFields, ix.targets, g, k)
  }

  lemma {:induction false} NotAllDroppable(sc: Schema, fields: Fields, closure: set<NodeKey>, doomed: NodeKey, fk: FieldKey)
    requires fk in fields && doomed in fields[fk] && fk.holder !in closure && !Droppable(sc, fk)
    ensures !AllDroppable(sc, fields, closure, {doomed})
  {
    assert Hits(fields, closure, {doomed}, fk);
  }

  lemma {:induction false} EntriesDroppable(sc: Schema, fields: Fields, closure: set<NodeKey>, target: NodeKey,
                                            entries: seq<IncomingCount>, bag: multiset<FieldKey>)
    requires EntriesMatch(entries, bag) && forall fk :: bag[fk] == Mult(fields, fk, target)
    requires forall j :: 0 <= j < |entries| && entries[j].field.holder !in closure ==> Droppable(sc, entries[j].field)
    ensures AllDroppable(sc, fields, closure, {target})
  {
    hide Droppable;
    forall fk | Hits(fields, closure, {target}, fk) ensures Droppable(sc, fk) {
      assert bag[fk] == Mult(fields, fk, target) && fk in bag && Holds(entries, fk);
    }
  }

  lemma {:induction false} DroppableGrows(sc: Schema, fields: Fields, closure: set<NodeKey>, done: set<NodeKey>, doomed: NodeKey)
    ensures AllDroppable(sc, fields, closure, done + {doomed}) <==>
            AllDroppable(sc, fields, closure, done) && AllDroppable(sc, fields, closure, {doomed})
  {
    hide Droppable;
    forall fk ensures Hits(fields, closure, done + {doomed}, fk) <==> Hits(fields, closure, done, fk) || Hits(fields, closure, {doomed}, fk) {
    }
    hide Hits;
  }

  lemma {:induction false} DroppableShrinks(sc: Schema, fields: Fields, closure: set<NodeKey>, less: set<NodeKey>)
    requires less <= closure
    ensures AllDroppable(sc, fields, closure, closure) ==> AllDroppable(sc, fields, closure, less)
  {
    hide Droppable;
    forall fk ensures Hits(fields, closure, less, fk) ==> Hits(fields, closure, closure, fk) {
    }
    hide Hits;
  }

  /** Only own slices and options can let go of a doomed node in a delta. */
  predicate Droppable(sc: Schema, fk: FieldKey) {
    && Declares(sc, fk.holder.typ, fk.field)
    && (SpecOf(sc, fk).kind == Optional || (SpecOf(sc, fk).kind == Own && SpecOf(sc, fk).many))
  }

  method KeysAreUnshared(index: CommittedIndex, doomed: NodeKey) returns (ok: bool)
    requires index.RowsValid() && doomed in index.nodes
    ensures ok <==> KeysUnshared(index.targetFields, index.targets, index.graph, doomed)
  {
    var row := index.nodes[doomed].row;
    ok := !exists lk :: lk in LookupsOf(index.targetFields, doomed, row) && lk in index.targets && index.targets[lk].duplicate;
    if ok {
      forall lk | Searchable(index.targetFields, lk) && Bears(index.graph, doomed, lk)
        ensures lk !in index.targets || !index.targets[lk].duplicate
      {
        assert lk in LookupsOf(index.targetFields, doomed, row);
      }
    }
  }

  /** The veto scan: fall back, or list every surviving field that points into the doomed set. */
  method CollectSurvivors(index: CommittedIndex, closure: set<NodeKey>) returns (ok: bool, survivors: seq<FieldKey>)
    requires index.RowsValid() && BucketsMatch(index.incoming, index.counts) && Transposed(index.fields, index.counts)
    requires closure <= index.graph.Keys
    ensures ok ==> SurvivorsListed(index.sc, index.fields, closure, closure, survivors) && Producible(index.incoming, closure, survivors)
    ensures ok ==> forall k :: k in closure ==> KeysUnshared(index.targetFields, index.targets, index.graph, k)
    ensures ok <==> AllDroppable(index.sc, index.fields, closure, closure)
                    && forall k :: k in closure ==> KeysUnshared(index.targetFields, index.targets, index.graph, k)
  {
    hide *;
    NodesLive(index);
    survivors := [];
    NoSurvivorYet(index.sc, index.fields, closure);
    var rest := closure;
    ghost var done: set<NodeKey> := {};
    ghost var order: seq<NodeKey> := [];
    NothingVisited(index.incoming, closure);
    while rest != {}
      invariant Visits(order, done) && survivors == GatherAll(index.incoming, closure, order)
      invariant rest + done == closure && rest !! done
      invariant SurvivorsListed(index.sc, index.fields, closure, done, survivors)
      invariant forall k :: k in done ==> KeysUnshared(index.targetFields, index.targets, index.graph, k)
      invariant AllDroppable(index.sc, index.fields, closure, done)
      decreases |rest|
    {
      var doomed :| doomed in rest;
      DroppableGrows(index.sc, index.fields, closure, done, doomed);
      DroppableShrinks(index.sc, index.fields, closure, {doomed});
      ok, survivors := CollectFromBucket(index, closure, done, doomed, survivors);
      if !ok {
        return;
      }
      ok := KeysAreUnshared(index, doomed);
      if !ok {
        return;
      }
      VisitNext(order, done, doomed);
      GatherAllStep(index.incoming, closure, order, doomed);
      order, done := order + [doomed], done + {doomed};
      rest := rest - {doomed};
    }
    assert done == closure;
    ProducedBy(index.incoming, closure, order);
    ok := true;
  }

  lemma {:induction false} NothingVisited(incoming: Buckets, closure: set<NodeKey>)
    ensures Visits([], {}) && GatherAll(incoming, closure, []) == []
  {
  }

  lemma {:induction false} ProducedBy(incoming: Buckets, closure: set<NodeKey>, order: seq<NodeKey>)
    requires Visits(order, closure)
    ensures Producible(incoming, closure, GatherAll(incoming, closure, order))
  {
  }

  lemma {:induction false} NoSurvivorYet(sc: Schema, fields: Fields, closure: set<NodeKey>)
    ensures SurvivorsListed(sc, fields, closure, {}, []) && AllDroppable(sc, fields, closure, {})
  {
  }
}
