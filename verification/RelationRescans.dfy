/** What a model delta sees of the proposed graph: the rescanned holders as they are, everyone else as the committed model has them. The
    leftovers decide who is rescanned beyond the touched rows, and that decides whether the delta is exact. */
module RelationRescans {
  import opened RelationSchema
  import opened OwnershipForest
  import opened OwnershipWalks
  import opened RelationGraph
  import opened RelationScan
  import opened RelationModels
  import opened RelationOverlays

  /** The proposal against a committed model that lacked nothing. Its leftovers name fields of the model and are otherwise free: a
      publication may have cleared the pointers they stand for, and a row may have got an old pointer back that they do not name. */
  ghost predicate Rebased(committed: RelationModel, works: Graph, creates: Graph, nodes: Graph, targets: TargetIndex)
    reads committed
  {
    && committed.Sound() && committed.missing == [] && LeftoversNamed(committed.fields, committed.unresolved)
    && nodes == Overlaid(committed.nodes, works, creates)
    && Proposal(committed.sc, committed.targetFields, committed.nodes, works, creates)
    && Covers(committed.sc, nodes, committed.targetFields)
    && TargetIndexExact(nodes, committed.targetFields, targets)
  }

  ghost predicate LeftoversNamed(fields: Fields, unresolved: seq<UnresolvedRelation>) {
    forall u :: u in unresolved ==> u.field in fields
  }

  /** Every dangling pointer is among the leftovers. */
  ghost predicate LeftoversCover(sc: Schema, g: Graph, unresolved: seq<UnresolvedRelation>) {
    forall u :: Dangles(sc, g, u) ==> u in unresolved
  }

  /** The leftover still stands for a dangling pointer. */
  ghost predicate Dangles(sc: Schema, g: Graph, u: UnresolvedRelation) {
    exists i :: DanglesAt(sc, g, u.field, u.lookup, i)
  }

  /** Some row can be found under this key. */
  ghost predicate Findable(tf: TargetFields, h: Graph, lk: TargetKey) {
    Searchable(tf, lk) && exists k :: Bears(h, k, lk)
  }

  /** The touched rows, and the holders of leftovers whose key some row of the proposed graph bears. */
  ghost function Rescans(tf: TargetFields, h: Graph, unresolved: seq<UnresolvedRelation>, overrides: set<NodeKey>): set<NodeKey> {
    overrides + set u | u in unresolved && Findable(tf, h, u.lookup) :: u.field.holder
  }

  lemma {:induction false} RescansHas(tf: TargetFields, h: Graph, unresolved: seq<UnresolvedRelation>, overrides: set<NodeKey>, k: NodeKey)
    ensures k in Rescans(tf, h, unresolved, overrides) <==>
            k in overrides || exists u :: u in unresolved && Findable(tf, h, u.lookup) && u.field.holder == k
  {
  }

  /** An untouched holder waits for a new row and is not rescanned. */
  ghost predicate Missed(sc: Schema, g: Graph, works: Graph, creates: Graph, rescan: set<NodeKey>, fk: FieldKey) {
    Waiting(sc, g, works, creates, fk) && fk.holder !in rescan
  }

  ghost predicate NoneMissed(sc: Schema, g: Graph, works: Graph, creates: Graph, rescan: set<NodeKey>) {
    forall fk :: !Missed(sc, g, works, creates, rescan, fk)
  }

  /** The fields as the delta sees them. */
  ghost predicate SeenBy(sc: Schema, h: Graph, before: Fields, rescan: set<NodeKey>, fields: Fields) {
    && (forall fk: FieldKey :: fk.holder !in rescan ==> (fk in fields <==> fk in before) && (fk in before ==> fields[fk] == before[fk]))
    && (forall fk: FieldKey :: fk.holder in rescan ==> (fk in fields <==> HasField(sc, h, fk)) && (fk in fields ==> fields[fk] == TargetsAt(sc, h, fk)))
  }

  ghost predicate SeenForest(sc: Schema, h: Graph, before: Fields, rescan: set<NodeKey>, fields: Fields, owners: Owners) {
    SeenBy(sc, h, before, rescan, fields) && ForestLegal(sc, fields, owners)
  }

  /** What the delta takes: every rescanned field can be scanned, and what it sees is a legal forest. */
  ghost predicate DeltaAccepts(sc: Schema, h: Graph, before: Fields, rescan: set<NodeKey>) {
    && (forall fk: FieldKey :: fk.holder in rescan ==> !Unscannable(sc, h, fk))
    && exists fields, owners :: SeenForest(sc, h, before, rescan, fields, owners)
  }

  lemma {:induction false} SeenUnique(sc: Schema, h: Graph, before: Fields, rescan: set<NodeKey>, a: Fields, b: Fields)
    requires SeenBy(sc, h, before, rescan, a) && SeenBy(sc, h, before, rescan, b)
    ensures a == b
  {
    hide TargetsAt, HasField;
    forall fk ensures (fk in a <==> fk in b) && (fk in a ==> a[fk] == b[fk]) {
      if fk.holder in rescan {
        assert fk in a <==> HasField(sc, h, fk);
      } else {
        assert fk in a <==> fk in before;
      }
    }
    assert a.Keys == b.Keys;
  }

  // ---------------------------------------------------------------- what untouched holders keep

  /** What an untouched field meant in the committed graph it means in the proposed one, pointer by pointer. */
  ghost predicate FieldUnmoved(sc: Schema, g: Graph, h: Graph, fk: FieldKey) {
    && HasField(sc, g, fk) && HasField(sc, h, fk) && RefsAt(sc, h, fk) == RefsAt(sc, g, fk)
    && TargetsAt(sc, h, fk) == TargetsAt(sc, g, fk)
    && (forall i, lk :: DanglesAt(sc, h, fk, lk, i) <==> DanglesAt(sc, g, fk, lk, i))
    && (forall i :: !ClashesAt(sc, h, fk, i)) && (forall i :: !LacksAt(sc, h, fk, i))
  }

  lemma {:induction false} UntouchedRef(sc: Schema, tf: TargetFields, g: Graph, works: Graph, creates: Graph, fk: FieldKey, i: nat)
    requires Proposal(sc, tf, g, works, creates)
    requires HasField(sc, g, fk) && !Waiting(sc, g, works, creates, fk) && fk.holder !in works
    requires i < |RefsAt(sc, g, fk)| && RefsAt(sc, g, fk)[i].Some?
    ensures var lk := Lookup(SpecOf(sc, fk), RefsAt(sc, g, fk)[i].value);
            Resolve(Overlaid(g, works, creates), lk) == Resolve(g, lk)
  {
    var lk := Lookup(SpecOf(sc, fk), RefsAt(sc, g, fk)[i].value);
    ResolveOverlaid(tf, g, works, creates, lk);
    if c :| Bears(creates, c, lk) {
      assert DanglesAt(sc, g, fk, lk, i);
    }
  }

  lemma {:induction false} Unmoved(sc: Schema, tf: TargetFields, g: Graph, works: Graph, creates: Graph, fk: FieldKey)
    requires Proposal(sc, tf, g, works, creates)
    requires HasField(sc, g, fk) && fk.holder !in works && !Waiting(sc, g, works, creates, fk)
    requires !Unscannable(sc, g, fk) && !Lacks(sc, g, fk)
    ensures FieldUnmoved(sc, g, Overlaid(g, works, creates), fk)
  {
    var h, spec, refs := Overlaid(g, works, creates), SpecOf(sc, fk), RefsAt(sc, g, fk);
    UntouchedTargets(sc, tf, g, works, creates, fk);
    forall i | 0 <= i < |refs| && refs[i].Some?
      ensures Resolve(h, Lookup(spec, refs[i].value)) == Resolve(g, Lookup(spec, refs[i].value))
    {
      UntouchedRef(sc, tf, g, works, creates, fk, i);
    }
    hide Resolve, Refs, Targets, Waiting, Proposal;
    forall i ensures !ClashesAt(sc, h, fk, i) && !LacksAt(sc, h, fk, i) {
      assert !ClashesAt(sc, g, fk, i) && !LacksAt(sc, g, fk, i);
    }
  }

  /** If the leftovers cover the dangling pointers, a holder outside the rescan was waiting for nobody. */
  lemma {:induction false} RescanCatches(committed: RelationModel, works: Graph, creates: Graph, nodes: Graph, targets: TargetIndex,
                                         rescan: set<NodeKey>, fk: FieldKey)
    requires Rebased(committed, works, creates, nodes, targets)
    requires rescan == Rescans(committed.targetFields, nodes, committed.unresolved, works.Keys + creates.Keys)
    requires LeftoversCover(committed.sc, committed.nodes, committed.unresolved)
    ensures !Missed(committed.sc, committed.nodes, works, creates, rescan, fk)
  {
    var sc, g, tf := committed.sc, committed.nodes, committed.targetFields;
    hide TargetFieldsExact, FieldsExact, ForestLegal, MissingExact, RefsMatch, OutgoingExact;
    if Missed(sc, g, works, creates, rescan, fk) {
      var i, lk, c :| DanglesAt(sc, g, fk, lk, i) && Bears(creates, c, lk);
      var u := Unresolved(fk, lk);
      assert Dangles(sc, g, u);
      assert Searchable(tf, lk);
      BearsOverlaid(tf, g, works, creates, c, lk);
    }
  }

  lemma {:induction false} NothingWaits(sc: Schema, g: Graph, works: Graph, creates: Graph, rescan: set<NodeKey>)
    requires forall fk, lk, i :: !DanglesAt(sc, g, fk, lk, i)
    ensures NoneMissed(sc, g, works, creates, rescan)
  {
    hide DanglesAt, Bears;
  }

  lemma {:induction false} RebasedParts(committed: RelationModel, works: Graph, creates: Graph, nodes: Graph, targets: TargetIndex)
    requires Rebased(committed, works, creates, nodes, targets)
    ensures committed.Sound() && WellFormed(committed.sc) && nodes == Overlaid(committed.nodes, works, creates)
    ensures Proposal(committed.sc, committed.targetFields, committed.nodes, works, creates)
    ensures Covers(committed.sc, nodes, committed.targetFields) && TargetIndexExact(nodes, committed.targetFields, targets)
    ensures FieldsExact(committed.sc, committed.nodes, committed.fields) && RefsMatch(committed.fields, committed.refs)
    ensures ForestLegal(committed.sc, committed.fields, committed.owners) && LeftoversNamed(committed.fields, committed.unresolved)
    ensures forall fk :: !Unscannable(committed.sc, committed.nodes, fk) && !Lacks(committed.sc, committed.nodes, fk)
  {
    assert committed.Grounded();
    hide FieldsExact, ForestLegal, RefsMatch, OutgoingExact, Unscannable, Lacks, Proposal, Covers, TargetIndexExact, WellFormed;
    forall fk ensures !Unscannable(committed.sc, committed.nodes, fk) && !Lacks(committed.sc, committed.nodes, fk) {
      assert fk !in committed.missing;
    }
  }

  lemma {:induction false} ExactAt(sc: Schema, g: Graph, fields: Fields, fk: FieldKey)
    requires FieldsExact(sc, g, fields)
    ensures (fk in fields <==> HasField(sc, g, fk)) && (fk in fields ==> fields[fk] == TargetsAt(sc, g, fk))
  {
  }

  lemma {:induction false} OverlaidHas(sc: Schema, g: Graph, works: Graph, creates: Graph, fk: FieldKey)
    requires fk.holder !in works && fk.holder !in creates
    ensures HasField(sc, Overlaid(g, works, creates), fk) <==> HasField(sc, g, fk)
  {
  }

  /** An untouched field that did not wait is seen as it is. */
  lemma {:induction false} KeptAsIs(committed: RelationModel, works: Graph, creates: Graph, nodes: Graph, targets: TargetIndex,
                                    rescan: set<NodeKey>, fk: FieldKey)
    requires Rebased(committed, works, creates, nodes, targets) && works.Keys + creates.Keys <= rescan && fk.holder !in rescan
    requires !Missed(committed.sc, committed.nodes, works, creates, rescan, fk)
    ensures fk in committed.fields <==> HasField(committed.sc, nodes, fk)
    ensures fk in committed.fields ==> FieldUnmoved(committed.sc, committed.nodes, nodes, fk)
                                       && committed.fields[fk] == TargetsAt(committed.sc, nodes, fk)
  {
    var sc, g := committed.sc, committed.nodes;
    hide *;
    RebasedParts(committed, works, creates, nodes, targets);
    ExactAt(sc, g, committed.fields, fk);
    OverlaidHas(sc, g, works, creates, fk);
    NotMissed(sc, g, works, creates, rescan, fk);
    if fk in committed.fields {
      Unmoved(sc, committed.targetFields, g, works, creates, fk);
      UnmovedMeans(sc, g, nodes, fk);
    }
  }

  lemma {:induction false} NotMissed(sc: Schema, g: Graph, works: Graph, creates: Graph, rescan: set<NodeKey>, fk: FieldKey)
    requires fk.holder !in rescan
    ensures Missed(sc, g, works, creates, rescan, fk) <==> Waiting(sc, g, works, creates, fk)
  {
  }

  lemma {:induction false} UnmovedMeans(sc: Schema, g: Graph, h: Graph, fk: FieldKey)
    requires FieldUnmoved(sc, g, h, fk)
    ensures HasField(sc, g, fk) && HasField(sc, h, fk) && TargetsAt(sc, h, fk) == TargetsAt(sc, g, fk)
    ensures forall i :: !ClashesAt(sc, h, fk, i) && !LacksAt(sc, h, fk, i)
    ensures forall i, lk :: DanglesAt(sc, h, fk, lk, i) <==> DanglesAt(sc, g, fk, lk, i)
  {
  }

  /** A missed holder is seen without the new row it now reaches. */
  lemma {:induction false} MissedDiffers(committed: RelationModel, works: Graph, creates: Graph, nodes: Graph, targets: TargetIndex,
                                         rescan: set<NodeKey>, fk: FieldKey)
    requires Rebased(committed, works, creates, nodes, targets) && Missed(committed.sc, committed.nodes, works, creates, rescan, fk)
    ensures fk in committed.fields && HasField(committed.sc, nodes, fk) && committed.fields[fk] != TargetsAt(committed.sc, nodes, fk)
  {
    hide *;
    RebasedParts(committed, works, creates, nodes, targets);
    MissedWaits(committed.sc, committed.nodes, works, creates, rescan, fk);
    WaitingBreaks(committed.sc, committed.targetFields, committed.nodes, works, creates, committed.fields, fk);
  }

  lemma {:induction false} MissedWaits(sc: Schema, g: Graph, works: Graph, creates: Graph, rescan: set<NodeKey>, fk: FieldKey)
    requires Missed(sc, g, works, creates, rescan, fk)
    ensures Waiting(sc, g, works, creates, fk) && fk.holder !in rescan
  {
  }

  // ---------------------------------------------------------------- when the delta is exact

  lemma {:induction false} SeenAt(sc: Schema, h: Graph, before: Fields, rescan: set<NodeKey>, fields: Fields, fk: FieldKey)
    requires SeenBy(sc, h, before, rescan, fields)
    ensures fk.holder !in rescan ==> (fk in fields <==> fk in before) && (fk in before ==> fields[fk] == before[fk])
    ensures fk.holder in rescan ==> (fk in fields <==> HasField(sc, h, fk)) && (fk in fields ==> fields[fk] == TargetsAt(sc, h, fk))
  {
  }

  /** The delta sees the fields of the proposed graph if and only if it misses nobody who waits. */
  lemma {:induction false} SeenExact(committed: RelationModel, works: Graph, creates: Graph, nodes: Graph, targets: TargetIndex,
                                     rescan: set<NodeKey>, fields: Fields)
    requires Rebased(committed, works, creates, nodes, targets) && works.Keys + creates.Keys <= rescan
    requires SeenBy(committed.sc, nodes, committed.fields, rescan, fields)
    ensures FieldsExact(committed.sc, nodes, fields) <==> NoneMissed(committed.sc, committed.nodes, works, creates, rescan)
  {
    var sc, g := committed.sc, committed.nodes;
    hide *;
    forall fk
      ensures Missed(sc, g, works, creates, rescan, fk) ==>
                HasField(sc, nodes, fk) && !(fk in fields && fields[fk] == TargetsAt(sc, nodes, fk))
      ensures !Missed(sc, g, works, creates, rescan, fk) ==>
                (fk in fields <==> HasField(sc, nodes, fk)) && (fk in fields ==> fields[fk] == TargetsAt(sc, nodes, fk))
    {
      SeenAt(sc, nodes, committed.fields, rescan, fields, fk);
      if Missed(sc, g, works, creates, rescan, fk) {
        MissedWaits(sc, g, works, creates, rescan, fk);
        MissedDiffers(committed, works, creates, nodes, targets, rescan, fk);
      } else if fk.holder !in rescan {
        KeptAsIs(committed, works, creates, nodes, targets, rescan, fk);
      }
    }
    ExactIff(sc, g, works, creates, rescan, nodes, fields);
  }

  lemma {:induction false} ExactIff(sc: Schema, g: Graph, works: Graph, creates: Graph, rescan: set<NodeKey>, h: Graph, fields: Fields)
    requires forall fk :: Missed(sc, g, works, creates, rescan, fk) ==> HasField(sc, h, fk) && !(fk in fields && fields[fk] == TargetsAt(sc, h, fk))
    requires forall fk :: !Missed(sc, g, works, creates, rescan, fk) ==>
               (fk in fields <==> HasField(sc, h, fk)) && (fk in fields ==> fields[fk] == TargetsAt(sc, h, fk))
    ensures FieldsExact(sc, h, fields) <==> NoneMissed(sc, g, works, creates, rescan)
  {
    hide Missed, TargetsAt, HasField;
    if fk :| Missed(sc, g, works, creates, rescan, fk) {
      assert HasField(sc, h, fk);
    }
  }

  lemma {:induction false} ScannableOutside(committed: RelationModel, works: Graph, creates: Graph, nodes: Graph, targets: TargetIndex,
                                            rescan: set<NodeKey>, fk: FieldKey)
    requires Rebased(committed, works, creates, nodes, targets) && works.Keys + creates.Keys <= rescan && fk.holder !in rescan
    requires !Missed(committed.sc, committed.nodes, works, creates, rescan, fk)
    ensures !Unscannable(committed.sc, nodes, fk) && !Lacks(committed.sc, nodes, fk)
  {
    hide *;
    RebasedParts(committed, works, creates, nodes, targets);
    KeptAsIs(committed, works, creates, nodes, targets, rescan, fk);
    if fk in committed.fields {
      UnmovedMeans(committed.sc, committed.nodes, nodes, fk);
      UnmovedScans(committed.sc, committed.nodes, nodes, fk);
    } else {
      NoFieldScans(committed.sc, nodes, fk);
    }
  }

  lemma {:induction false} UnmovedScans(sc: Schema, g: Graph, h: Graph, fk: FieldKey)
    requires HasField(sc, g, fk) && HasField(sc, h, fk) && !Unscannable(sc, g, fk) && TargetsAt(sc, h, fk) == TargetsAt(sc, g, fk)
    requires forall i :: !ClashesAt(sc, h, fk, i) && !LacksAt(sc, h, fk, i)
    ensures !Unscannable(sc, h, fk) && !Lacks(sc, h, fk)
  {
    hide ClashesAt, LacksAt, Targets, Refs;
  }

  lemma {:induction false} NoFieldScans(sc: Schema, h: Graph, fk: FieldKey)
    requires !HasField(sc, h, fk)
    ensures !Unscannable(sc, h, fk) && !Lacks(sc, h, fk)
  {
  }

  /** Missing nobody, the delta accepts exactly what a full build accepts. */
  lemma {:induction false} AcceptsBuildable(committed: RelationModel, works: Graph, creates: Graph, nodes: Graph, targets: TargetIndex, rescan: set<NodeKey>)
    requires Rebased(committed, works, creates, nodes, targets) && works.Keys + creates.Keys <= rescan
    requires NoneMissed(committed.sc, committed.nodes, works, creates, rescan)
    ensures DeltaAccepts(committed.sc, nodes, committed.fields, rescan) <==> Buildable(committed.sc, nodes)
  {
    var sc := committed.sc;
    hide Rebased, SeenBy, ForestLegal, FieldsExact, Unscannable, Missed, Lacks, FieldUnmoved;
    forall fk: FieldKey | fk.holder !in rescan ensures !Unscannable(sc, nodes, fk) {
      ScannableOutside(committed, works, creates, nodes, targets, rescan, fk);
    }
    forall fields, owners | SeenForest(sc, nodes, committed.fields, rescan, fields, owners)
      ensures FieldsExact(sc, nodes, fields) && ForestLegal(sc, fields, owners)
    {
      SeenExact(committed, works, creates, nodes, targets, rescan, fields);
    }
    forall fields, owners | FieldsExact(sc, nodes, fields) && ForestLegal(sc, fields, owners)
      ensures SeenForest(sc, nodes, committed.fields, rescan, fields, owners)
    {
      ExactIsSeen(committed, works, creates, nodes, targets, rescan, fields);
    }
  }

  lemma {:induction false} ExactIsSeen(committed: RelationModel, works: Graph, creates: Graph, nodes: Graph, targets: TargetIndex,
                                       rescan: set<NodeKey>, fields: Fields)
    requires Rebased(committed, works, creates, nodes, targets) && works.Keys + creates.Keys <= rescan
    requires NoneMissed(committed.sc, committed.nodes, works, creates, rescan) && FieldsExact(committed.sc, nodes, fields)
    ensures SeenBy(committed.sc, nodes, committed.fields, rescan, fields)
  {
    var sc := committed.sc;
    hide Rebased, FieldsExact, Missed, FieldUnmoved, TargetsAt, HasField, Rescans;
    forall fk: FieldKey
      ensures fk.holder !in rescan ==> (fk in fields <==> fk in committed.fields) && (fk in committed.fields ==> fields[fk] == committed.fields[fk])
      ensures fk.holder in rescan ==> (fk in fields <==> HasField(sc, nodes, fk)) && (fk in fields ==> fields[fk] == TargetsAt(sc, nodes, fk))
    {
      ExactAt(sc, nodes, fields, fk);
      if fk.holder !in rescan {
        KeptAsIs(committed, works, creates, nodes, targets, rescan, fk);
      }
    }
  }

  // ---------------------------------------------------------------- leftovers

  /** The leftovers of untouched holders are kept, those of rescanned ones are found again. */
  ghost predicate LeftoversAre(sc: Schema, h: Graph, before: seq<UnresolvedRelation>, rescan: set<NodeKey>, unresolved: seq<UnresolvedRelation>) {
    forall u: UnresolvedRelation :: u in unresolved <==> if u.field.holder in rescan then Dangles(sc, h, u) else u in before
  }

  /** Outside the rescan the committed leftovers are exactly the dangling pointers. */
  ghost predicate LeftoversStand(sc: Schema, g: Graph, before: seq<UnresolvedRelation>, rescan: set<NodeKey>) {
    forall u: UnresolvedRelation :: u.field.holder !in rescan ==> (u in before <==> Dangles(sc, g, u))
  }

  lemma {:induction false} DanglesAsBefore(committed: RelationModel, works: Graph, creates: Graph, nodes: Graph, targets: TargetIndex,
                                           rescan: set<NodeKey>, u: UnresolvedRelation)
    requires Rebased(committed, works, creates, nodes, targets) && works.Keys + creates.Keys <= rescan && u.field.holder !in rescan
    requires !Missed(committed.sc, committed.nodes, works, creates, rescan, u.field)
    ensures Dangles(committed.sc, nodes, u) <==> Dangles(committed.sc, committed.nodes, u)
  {
    hide *;
    RebasedParts(committed, works, creates, nodes, targets);
    KeptAsIs(committed, works, creates, nodes, targets, rescan, u.field);
    ExactAt(committed.sc, committed.nodes, committed.fields, u.field);
    if u.field in committed.fields {
      UnmovedMeans(committed.sc, committed.nodes, nodes, u.field);
      SameDangling(committed.sc, committed.nodes, nodes, u);
    } else {
      DanglesNot(committed.sc, committed.nodes, u);
      DanglesNot(committed.sc, nodes, u);
    }
  }

  lemma {:induction false} SameDangling(sc: Schema, g: Graph, h: Graph, u: UnresolvedRelation)
    requires forall i, lk :: DanglesAt(sc, h, u.field, lk, i) <==> DanglesAt(sc, g, u.field, lk, i)
    ensures Dangles(sc, h, u) <==> Dangles(sc, g, u)
  {
    hide DanglesAt;
  }

  lemma {:induction false} DanglesNot(sc: Schema, g: Graph, u: UnresolvedRelation)
    requires !HasField(sc, g, u.field)
    ensures !Dangles(sc, g, u)
  {
  }

  /** Missing nobody, the new leftovers are those of a full build if and only if every kept one still stands for a dangling pointer
      and none was forgotten; leftovers that cover the dangling pointers keep doing so. */
  lemma {:induction false} LeftoversExact(committed: RelationModel, works: Graph, creates: Graph, nodes: Graph, targets: TargetIndex,
                                          rescan: set<NodeKey>, unresolved: seq<UnresolvedRelation>)
    requires Rebased(committed, works, creates, nodes, targets) && works.Keys + creates.Keys <= rescan
    requires NoneMissed(committed.sc, committed.nodes, works, creates, rescan)
    requires LeftoversAre(committed.sc, nodes, committed.unresolved, rescan, unresolved)
    ensures UnresolvedExact(committed.sc, nodes, unresolved) <==> LeftoversStand(committed.sc, committed.nodes, committed.unresolved, rescan)
    ensures LeftoversCover(committed.sc, committed.nodes, committed.unresolved) ==> LeftoversCover(committed.sc, nodes, unresolved)
  {
    var sc, g := committed.sc, committed.nodes;
    hide Rebased, Missed, DanglesAt;
    forall u: UnresolvedRelation | u.field.holder !in rescan ensures Dangles(sc, nodes, u) <==> Dangles(sc, g, u) {
      DanglesAsBefore(committed, works, creates, nodes, targets, rescan, u);
    }
    UnresolvedIs(sc, nodes, unresolved);
    hide Dangles;
  }

  lemma {:induction false} UnresolvedIs(sc: Schema, g: Graph, unresolved: seq<UnresolvedRelation>)
    ensures UnresolvedExact(sc, g, unresolved) <==> forall u :: u in unresolved <==> Dangles(sc, g, u)
  {
    hide DanglesAt;
    if UnresolvedExact(sc, g, unresolved) {
      forall u ensures u in unresolved <==> Dangles(sc, g, u) {
      }
    }
    if forall u :: u in unresolved <==> Dangles(sc, g, u) {
      forall u: UnresolvedRelation ensures u in unresolved <==> exists i :: DanglesAt(sc, g, u.field, u.lookup, i) {
        assert u in unresolved <==> Dangles(sc, g, u);
      }
    }
  }

  /** After a publication nothing dangles, so every leftover that is still there is stale. */
  lemma {:induction false} StaleAfterPublication(sc: Schema, g: Graph, unresolved: seq<UnresolvedRelation>)
    requires forall fk, lk, i :: !DanglesAt(sc, g, fk, lk, i)
    ensures UnresolvedExact(sc, g, unresolved) <==> unresolved == []
    ensures LeftoversCover(sc, g, unresolved)
  {
    hide DanglesAt;
    if unresolved != [] {
      assert unresolved[0] in unresolved;
    }
  }
}
