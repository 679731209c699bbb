/** The model delta: keep what untouched holders resolved to, rescan the rest, and redecide only the affected children. */
module RelationModelDelta {
  import opened RelationSchema
  import opened Wrappers
  import opened Ordering
  import opened OwnershipForest
  import opened OwnershipWalks
  import opened RelationGraph
  import opened RelationScan
  import opened RelationModels
  import opened RelationOverlays
  import opened RelationSurvivors
  import opened RelationDeltaOwners
  import opened RelationRescans

  // ---------------------------------------------------------------- splitting the committed lists

  /** The references of untouched holders, in their order. */
  function KeptRefs(refs: seq<ResolvedRelation>, rescan: set<NodeKey>): seq<ResolvedRelation> {
    if refs == [] then []
    else
      var last := refs[|refs| - 1];
      KeptRefs(refs[..|refs| - 1], rescan) + if last.field.holder in rescan then [] else [last]
  }

  lemma {:induction false} KeptRefsOf(refs: seq<ResolvedRelation>, rescan: set<NodeKey>, fk: FieldKey)
    ensures RefsOf(KeptRefs(refs, rescan), fk) == if fk.holder in rescan then [] else RefsOf(refs, fk)
  {
    if refs != [] {
      var before, last := refs[..|refs| - 1], refs[|refs| - 1];
      KeptRefsOf(before, rescan, fk);
      RefsOfAppend(KeptRefs(before, rescan), last, fk);
      assert RefsOf(refs, fk) == RefsOf(before, fk) + if last.field == fk then [last.target] else [];
      assert KeptRefs(refs, rescan) == KeptRefs(before, rescan) + if last.field.holder in rescan then [] else [last];
      assert KeptRefs(before, rescan) + [] == KeptRefs(before, rescan);
    }
  }

  lemma {:induction false} KeptRefsIn(refs: seq<ResolvedRelation>, rescan: set<NodeKey>, r: ResolvedRelation)
    ensures r in KeptRefs(refs, rescan) <==> r in refs && r.field.holder !in rescan
  {
    if refs != [] {
      var before, last := refs[..|refs| - 1], refs[|refs| - 1];
      KeptRefsIn(before, rescan, r);
      assert refs == before + [last];
      assert KeptRefs(refs, rescan) == KeptRefs(before, rescan) + if last.field.holder in rescan then [] else [last];
    }
  }

  /** The child whose ownership a reference bears on. */
  function Marks(sc: Schema, r: ResolvedRelation): Option<NodeKey> {
    if IsOwn(sc, r.field.holder.typ, r.field.field) then Some(r.target)
    else if IsOwnedBy(sc, r.field.holder.typ, r.field.field) then Some(r.field.holder)
    else None
  }

  ghost predicate MarkedBy(sc: Schema, refs: seq<ResolvedRelation>, rescan: set<NodeKey>, child: NodeKey) {
    exists i :: 0 <= i < |refs| && refs[i].field.holder in rescan && Marks(sc, refs[i]) == Some(child)
  }

  method SplitReferences(sc: Schema, refs: seq<ResolvedRelation>, rescan: set<NodeKey>)
    returns (kept: seq<ResolvedRelation>, affected: set<NodeKey>)
    ensures kept == KeptRefs(refs, rescan) && forall c :: c in affected <==> MarkedBy(sc, refs, rescan, c)
  {
    kept, affected := [], {};
    var i := 0;
    while i < |refs|
      invariant 0 <= i <= |refs| && kept == KeptRefs(refs[..i], rescan)
      invariant forall c :: c in affected <==> exists j :: 0 <= j < i && refs[j].field.holder in rescan && Marks(sc, refs[j]) == Some(c)
    {
      assert refs[..i + 1][..i] == refs[..i];
      if refs[i].field.holder in rescan {
        var mark := Marks(sc, refs[i]);
        if mark.Some? {
          affected := affected + {mark.value};
        }
      } else {
        kept := kept + [refs[i]];
      }
      i := i + 1;
    }
    assert refs[..i] == refs;
  }

  method SplitUnresolved(unresolved: seq<UnresolvedRelation>, rescan: set<NodeKey>) returns (kept: seq<UnresolvedRelation>)
    ensures forall u :: u in kept <==> u in unresolved && u.field.holder !in rescan
  {
    kept := [];
    var i := 0;
    while i < |unresolved|
      invariant 0 <= i <= |unresolved|
      invariant forall u :: u in kept <==> u in unresolved[..i] && u.field.holder !in rescan
    {
      assert unresolved[..i + 1] == unresolved[..i] + [unresolved[i]];
      if unresolved[i].field.holder !in rescan {
        kept := kept + [unresolved[i]];
      }
      i := i + 1;
    }
    assert unresolved[..i] == unresolved;
  }
  /** Every holder with a leftover that now resolves joins the rescan. */
  method ExtendRescan(unresolved: seq<UnresolvedRelation>, targets: TargetIndex, overrides: set<NodeKey>, ghost tf: TargetFields, ghost h: Graph)
    returns (rescan: set<NodeKey>)
    requires TargetIndexExact(h, tf, targets)
    ensures rescan == Rescans(tf, h, unresolved, overrides)
  {
    hide Findable, TargetIndexExact;
    rescan := overrides;
    var i := 0;
    while i < |unresolved|
      invariant 0 <= i <= |unresolved| && rescan == Rescans(tf, h, unresolved[..i], overrides)
    {
      assert unresolved[..i + 1] == unresolved[..i] + [unresolved[i]];
      FoundIsFindable(tf, h, targets, unresolved[i].lookup);
      if unresolved[i].lookup in targets {
        rescan := rescan + {unresolved[i].field.holder};
      }
      i := i + 1;
    }
    assert unresolved[..i] == unresolved;
  }

  lemma {:induction false} FoundIsFindable(tf: TargetFields, h: Graph, targets: TargetIndex, lk: TargetKey)
    requires TargetIndexExact(h, tf, targets)
    ensures lk in targets <==> Findable(tf, h, lk)
  {
  }

  lemma {:induction false} KeptRefsMatch(fields: Fields, refs: seq<ResolvedRelation>, rescan: set<NodeKey>)
    requires RefsMatch(fields, refs)
    ensures RefsMatch(FieldsWithout(fields, rescan), KeptRefs(refs, rescan))
  {
    var left, kept := FieldsWithout(fields, rescan), KeptRefs(refs, rescan);
    hide RefsOf, KeptRefs;
    forall r | r in kept ensures r.field in left {
      KeptRefsIn(refs, rescan, r);
    }
    forall fk | fk in left ensures RefsOf(kept, fk) == left[fk] {
      KeptRefsOf(refs, rescan, fk);
    }
  }
  // ---------------------------------------------------------------- rescanning

  method Rescan(model: RelationModel, rescan: set<NodeKey>) returns (ok: bool, incoming: Incoming, ownedBy: map<NodeKey, NodeKey>)
    requires model.Grounded() && model.Recorded() && rescan <= model.nodes.Keys
    requires model.upto == map[] && model.fields == map[] && model.tallied == map[] && forall fk :: fk in model.carried ==> fk.holder !in rescan
    modifies model`refs, model`unresolved, model`missing, model`upto, model`fields, model`tallied
    ensures ok ==> model.Recorded() && TalliesExact(model.sc, model.tallied, incoming, ownedBy)
    ensures ok ==> ScannedNodes(model.sc, model.nodes, rescan, model.upto, model.fields, model.tallied)
    ensures !ok ==> exists fk: FieldKey :: fk.holder in rescan && Unscannable(model.sc, model.nodes, fk)
  {
    hide *;
    ok, incoming, ownedBy := true, map[], map[];
    NothingTallied(model.sc);
    NothingScannedYet(model.sc, model.nodes);
    var rest := rescan;
    ghost var done: set<NodeKey> := {};
    while rest != {}
      invariant rest + done == rescan && rest !! done
      invariant model.Grounded() && model.Recorded() && TalliesExact(model.sc, model.tallied, incoming, ownedBy)
      invariant ScannedNodes(model.sc, model.nodes, done, model.upto, model.fields, model.tallied)
      decreases |rest|
    {
      var key :| key in rest;
      NotYetScanned(model.sc, model.nodes, done, key, model.upto, model.fields, model.tallied);
      ghost var upto0, fields0, tallied0 := model.upto, model.fields, model.tallied;
      ok, incoming, ownedBy := model.ScanNodeRelations(key, incoming, ownedBy);
      if !ok {
        return;
      }
      NodeScanned(model.sc, model.nodes, done, key, upto0, fields0, tallied0, model.upto, model.fields, model.tallied);
      done := done + {key};
      rest := rest - {key};
    }
    assert done == rescan;
  }

  lemma {:induction false} NothingScannedYet(sc: Schema, h: Graph)
    ensures ScannedNodes(sc, h, {}, map[], map[], map[])
  {
  }

  /** What the record says of the rescanned nodes. */
  lemma {:induction false} PartScanned(sc: Schema, h: Graph, done: set<NodeKey>, upto: Progress, fields: Fields, tallied: Fields,
                                       unresolved: seq<UnresolvedRelation>, missing: seq<FieldKey>)
    requires ScannedNodes(sc, h, done, upto, fields, tallied) && OwnSlicesDistinct(sc, fields)
    requires FieldsUpto(sc, h, upto, fields) && LeftoversScanned(sc, h, upto, unresolved, missing)
    ensures forall fk :: fk in fields <==> HasField(sc, h, fk) && fk.holder in done
    ensures forall fk :: fk in fields ==> fields[fk] == TargetsAt(sc, h, fk)
    ensures forall u :: u in unresolved <==> u.field.holder in done && Dangles(sc, h, u)
    ensures forall fk :: fk in missing <==> fk.holder in done && Lacks(sc, h, fk)
    ensures forall fk: FieldKey :: fk.holder in done ==> !Unscannable(sc, h, fk)
  {
    forall fk ensures (fk in fields <==> HasField(sc, h, fk) && fk.holder in done) && (fk in fields ==> fields[fk] == TargetsAt(sc, h, fk)) {
      assert fk in fields <==> fk in upto;
      if fk in fields {
        assert ScannedTo(sc, h, fk, upto[fk], fields[fk]);
        assert RefsAt(sc, h, fk)[..upto[fk]] == RefsAt(sc, h, fk);
      }
    }
    PartLeftovers(sc, h, done, upto, fields, tallied, unresolved, missing);
    hide ScannedTo, Lacks, Dangles, LeftoversScanned;
    forall fk: FieldKey | fk.holder in done ensures !Unscannable(sc, h, fk) {
      if HasField(sc, h, fk) {
        assert fk in upto && fk in fields;
      }
    }
  }

  lemma {:induction false} PartLeftovers(sc: Schema, h: Graph, done: set<NodeKey>, upto: Progress, fields: Fields, tallied: Fields,
                                         unresolved: seq<UnresolvedRelation>, missing: seq<FieldKey>)
    requires ScannedNodes(sc, h, done, upto, fields, tallied) && LeftoversScanned(sc, h, upto, unresolved, missing)
    ensures forall u :: u in unresolved <==> u.field.holder in done && Dangles(sc, h, u)
    ensures forall fk :: fk in missing <==> fk.holder in done && Lacks(sc, h, fk)
    ensures forall fk: FieldKey, i :: fk.holder in done ==> !ClashesAt(sc, h, fk, i)
  {
    forall u: UnresolvedRelation ensures u in unresolved <==> u.field.holder in done && Dangles(sc, h, u) {
      if u.field.holder in done && Dangles(sc, h, u) {
        var i :| DanglesAt(sc, h, u.field, u.lookup, i);
        assert u.field in upto && i < upto[u.field];
      }
    }
    forall fk ensures fk in missing <==> fk.holder in done && Lacks(sc, h, fk) {
      if fk.holder in done && Lacks(sc, h, fk) {
        var i :| LacksAt(sc, h, fk, i);
        assert fk in upto && i < upto[fk];
      }
    }
    forall fk: FieldKey, i | fk.holder in done ensures !ClashesAt(sc, h, fk, i) {
    }
  }

  lemma {:induction false} NothingTallied(sc: Schema)
    ensures TalliesExact(sc, map[], map[], map[])
  {
  }

  // ---------------------------------------------------------------- the affected tallies

  ghost function PrefixFields(fields: Fields, refs: seq<ResolvedRelation>, n: nat): Fields
    requires n <= |refs|
  {
    map fk | fk in fields :: RefsOf(refs[..n], fk)
  }

  lemma {:induction false} RefsPrefix(refs: seq<ResolvedRelation>, n: nat, fk: FieldKey)
    requires n <= |refs|
    ensures RefsOf(refs[..n], fk) <= RefsOf(refs, fk)
  {
    if n == |refs| {
      assert refs[..n] == refs;
    } else {
      RefsPrefix(refs[..|refs| - 1], n, fk);
      assert refs[..|refs| - 1][..n] == refs[..n];
    }
  }

  /** What tallying may rely on: own slices without repeats, ownedby fields with at most one target. */
  ghost predicate Tallyable(sc: Schema, fields: Fields, refs: seq<ResolvedRelation>) {
    && WellFormed(sc) && RefsMatch(fields, refs) && OwnSlicesDistinct(sc, fields)
    && (forall fk :: fk in fields ==> Declares(sc, fk.holder.typ, fk.field))
    && (forall fk :: fk in fields && IsOwnedBy(sc, fk.holder.typ, fk.field) ==> |fields[fk]| <= 1)
  }

  lemma {:induction false} PrefixGrows(fields: Fields, refs: seq<ResolvedRelation>, n: nat)
    requires n < |refs| && refs[n].field in fields
    ensures var r, before, after := refs[n], PrefixFields(fields, refs, n), PrefixFields(fields, refs, n + 1);
            r.field in before && after == before[r.field := before[r.field] + [r.target]]
  {
    hide RefsOf;
    var r, before, after := refs[n], PrefixFields(fields, refs, n), PrefixFields(fields, refs, n + 1);
    assert refs[..n + 1] == refs[..n] + [r];
    forall fk | fk in before ensures after[fk] == if fk == r.field then before[fk] + [r.target] else before[fk] {
      RefsOfAppend(refs[..n], r, fk);
      assert before[fk] + [] == before[fk];
    }
  }

  lemma {:induction false} PrefixStep(sc: Schema, fields: Fields, refs: seq<ResolvedRelation>, n: nat)
    requires Tallyable(sc, fields, refs) && n < |refs|
    ensures var r, before, after := refs[n], PrefixFields(fields, refs, n), PrefixFields(fields, refs, n + 1);
            && r.field in before && Declares(sc, r.field.holder.typ, r.field.field)
            && after == before[r.field := before[r.field] + [r.target]]
            && (IsOwn(sc, r.field.holder.typ, r.field.field) ==> r.target !in before[r.field])
            && (IsOwnedBy(sc, r.field.holder.typ, r.field.field) ==> before[r.field] == [])
  {
    hide RefsOf;
    var r := refs[n];
    assert r in refs;
    PrefixGrows(fields, refs, n);
    RefsPrefix(refs, n + 1, r.field);
    var before, grown := PrefixFields(fields, refs, n)[r.field], PrefixFields(fields, refs, n + 1)[r.field];
    assert RefsOf(refs, r.field) == fields[r.field];
    assert grown == before + [r.target] && grown <= fields[r.field] && grown[|before|] == r.target;
    if IsOwn(sc, r.field.holder.typ, r.field.field) {
      assert forall i :: 0 <= i < |before| ==> before[i] == fields[r.field][i];
    }
  }

  lemma {:induction false} PrefixStart(sc: Schema, fields: Fields, refs: seq<ResolvedRelation>)
    ensures TalliesExact(sc, PrefixFields(fields, refs, 0), map[], map[])
  {
  }

  lemma {:induction false} PrefixEnd(sc: Schema, fields: Fields, refs: seq<ResolvedRelation>)
    requires RefsMatch(fields, refs)
    ensures PrefixFields(fields, refs, |refs|) == fields
  {
    assert refs[..|refs|] == refs;
    forall fk | fk in fields ensures RefsOf(refs, fk) == fields[fk] {
    }
  }

  /** The tallies agree with the complete ones wherever they are kept. */
  ghost predicate TalliesAgree(affected: set<NodeKey>, incoming: Incoming, ownedBy: map<NodeKey, NodeKey>,
                               allIncoming: Incoming, allOwnedBy: map<NodeKey, NodeKey>)
  {
    forall c :: c in affected ==> && OwnsOf(incoming, c) == OwnsOf(allIncoming, c)
                                  && (c in ownedBy <==> c in allOwnedBy) && (c in ownedBy ==> ownedBy[c] == allOwnedBy[c])
  }

  /** Count owners again from the kept and rescanned references, but only for the affected children. */
  method TallyAffected(sc: Schema, refs: seq<ResolvedRelation>, affected: set<NodeKey>, ghost fields: Fields)
    returns (incoming: Incoming, ownedBy: map<NodeKey, NodeKey>)
    requires Tallyable(sc, fields, refs)
    ensures forall c :: c in affected ==> OwnTally(sc, fields, c, OwnsOf(incoming, c))
    ensures forall c :: c in affected ==> BackTally(sc, fields, c, if c in ownedBy then Some(ownedBy[c]) else None)
  {
    hide *;
    incoming, ownedBy := map[], map[];
    ghost var allIncoming: Incoming, allOwnedBy: map<NodeKey, NodeKey> := map[], map[];
    PrefixStart(sc, fields, refs);
    TallyableWell(sc, fields, refs);
    NothingAgrees(affected);
    var i := 0;
    while i < |refs|
      invariant 0 <= i <= |refs| && TalliesExact(sc, PrefixFields(fields, refs, i), allIncoming, allOwnedBy)
      invariant TalliesAgree(affected, incoming, ownedBy, allIncoming, allOwnedBy)
    {
      var r := refs[i];
      PrefixStep(sc, fields, refs, i);
      var kind := SpecOf(sc, r.field).kind;
      TallyStep(sc, PrefixFields(fields, refs, i), PrefixFields(fields, refs, i + 1), r.field, r.target, allIncoming, allOwnedBy);
      AgreeStep(affected, incoming, ownedBy, allIncoming, allOwnedBy, kind, r);
      if kind == Own && r.target in affected {
        incoming := incoming[r.target := OwnsOf(incoming, r.target).Add(r.field.holder)];
      }
      if kind == OwnedBy && r.field.holder in affected {
        ownedBy := ownedBy[r.field.holder := r.target];
      }
      allIncoming := if kind == Own then allIncoming[r.target := OwnsOf(allIncoming, r.target).Add(r.field.holder)] else allIncoming;
      allOwnedBy := if kind == OwnedBy then allOwnedBy[r.field.holder := r.target] else allOwnedBy;
      i := i + 1;
    }
    PrefixEnd(sc, fields, refs);
    forall c | c in affected
      ensures OwnTally(sc, fields, c, OwnsOf(incoming, c)) && BackTally(sc, fields, c, if c in ownedBy then Some(ownedBy[c]) else None)
    {
      TallyOf(sc, fields, allIncoming, allOwnedBy, c);
      AgreeAtChild(affected, incoming, ownedBy, allIncoming, allOwnedBy, c);
    }
  }

  lemma {:induction false} TallyableWell(sc: Schema, fields: Fields, refs: seq<ResolvedRelation>)
    requires Tallyable(sc, fields, refs)
    ensures WellFormed(sc) && RefsMatch(fields, refs)
  {
  }

  lemma {:induction false} NothingAgrees(affected: set<NodeKey>)
    ensures TalliesAgree(affected, map[], map[], map[], map[])
  {
  }

  lemma {:induction false} AgreeAtChild(affected: set<NodeKey>, incoming: Incoming, ownedBy: map<NodeKey, NodeKey>,
                                        allIncoming: Incoming, allOwnedBy: map<NodeKey, NodeKey>, c: NodeKey)
    requires TalliesAgree(affected, incoming, ownedBy, allIncoming, allOwnedBy) && c in affected
    ensures OwnsOf(incoming, c) == OwnsOf(allIncoming, c)
    ensures (if c in ownedBy then Some(ownedBy[c]) else None) == if c in allOwnedBy then Some(allOwnedBy[c]) else None
  {
  }

  lemma {:induction false} AgreeStep(affected: set<NodeKey>, incoming: Incoming, ownedBy: map<NodeKey, NodeKey>,
                                     allIncoming: Incoming, allOwnedBy: map<NodeKey, NodeKey>, kind: Kind, r: ResolvedRelation)
    requires TalliesAgree(affected, incoming, ownedBy, allIncoming, allOwnedBy)
    ensures TalliesAgree(affected,
              if kind == Own && r.target in affected then incoming[r.target := OwnsOf(incoming, r.target).Add(r.field.holder)] else incoming,
              if kind == OwnedBy && r.field.holder in affected then ownedBy[r.field.holder := r.target] else ownedBy,
              if kind == Own then allIncoming[r.target := OwnsOf(allIncoming, r.target).Add(r.field.holder)] else allIncoming,
              if kind == OwnedBy then allOwnedBy[r.field.holder := r.target] else allOwnedBy)
  {
  }

  // ---------------------------------------------------------------- redeciding owners

  /** The affected children in `done` are decided anew, everyone else has the owner they had. */
  ghost predicate Redeciding(sc: Schema, fields: Fields, owners0: Owners, done: set<NodeKey>, owners: Owners) {
    && (forall c :: c in done ==> Redecided(sc, fields, owners, c))
    && (forall c :: c !in done ==> OwnerOf(owners, c) == OwnerOf(owners0, c))
  }

  lemma {:induction false} RedecideStep(sc: Schema, fields: Fields, owners0: Owners, done: set<NodeKey>, before: Owners, after: Owners, child: NodeKey)
    requires Redeciding(sc, fields, owners0, done, before) && child !in done
    requires OneOwnerAt(sc, fields, child) && AgreeAt(sc, fields, child)
    requires forall o :: OwnerOf(after, child) == Some(o) <==> IsOwner(sc, fields, child, o)
    requires forall c :: c != child ==> OwnerOf(after, c) == OwnerOf(before - {child}, c)
    ensures Redeciding(sc, fields, owners0, done + {child}, after)
  {
    hide OneOwnerAt, AgreeAt, IsOwner;
    forall c | c in done ensures Redecided(sc, fields, after, c) {
      assert Redecided(sc, fields, before, c);
      assert OwnerOf(after, c) == OwnerOf(before, c);
    }
  }

  method RedecideOwners(model: RelationModel, affected: set<NodeKey>, incoming: Incoming, ownedBy: map<NodeKey, NodeKey>) returns (ok: bool)
    requires forall c :: c in affected ==> OwnTally(model.sc, model.fields, c, OwnsOf(incoming, c))
    requires forall c :: c in affected ==> BackTally(model.sc, model.fields, c, if c in ownedBy then Some(ownedBy[c]) else None)
    modifies model`owners, model`outgoing
    ensures ok ==> Redeciding(model.sc, model.fields, old(model.owners), affected, model.owners)
    ensures !ok ==> exists c :: c in affected && !(OneOwnerAt(model.sc, model.fields, c) && AgreeAt(model.sc, model.fields, c))
  {
    hide *;
    ok := true;
    ghost var owners0 := model.owners;
    NobodyRedecided(model.sc, model.fields, owners0);
    var rest := affected;
    ghost var done: set<NodeKey> := {};
    while rest != {}
      invariant rest + done == affected && rest !! done
      invariant Redeciding(model.sc, model.fields, owners0, done, model.owners)
      decreases |rest|
    {
      var child :| child in rest;
      ghost var before := model.owners;
      model.owners := model.owners - {child};
      ok := model.AttachNodeOwner(child, OwnsOf(incoming, child), if child in ownedBy then Some(ownedBy[child]) else None, model.fields);
      if !ok {
        return;
      }
      RedecideStep(model.sc, model.fields, owners0, done, before, model.owners, child);
      done := done + {child};
      rest := rest - {child};
    }
    assert done == affected;
  }

  lemma {:induction false} NobodyRedecided(sc: Schema, fields: Fields, owners: Owners)
    ensures Redeciding(sc, fields, owners, {}, owners)
  {
  }

  /** The child lists of an owners map, from nothing. */
  method ListChildrenOf(owners: Owners) returns (outgoing: map<NodeKey, seq<NodeKey>>)
    ensures OutgoingExact(owners, outgoing)
  {
    outgoing := map[];
    var rest := owners.Keys;
    ghost var done: Owners := map[];
    while rest != {}
      invariant rest <= owners.Keys && done.Keys == owners.Keys - rest && forall c :: c in done ==> done[c] == owners[c]
      invariant OutgoingExact(done, outgoing)
      decreases |rest|
    {
      var child :| child in rest;
      OutgoingAppend(done, outgoing, child, owners[child]);
      outgoing := outgoing[owners[child] := ChildrenOf(outgoing, owners[child]) + [child]];
      done := done[child := owners[child]];
      rest := rest - {child};
    }
    assert done == owners;
  }

  // ---------------------------------------------------------------- the delta

  /** Children whose edges may have moved: marked by a dropped reference or counted by the rescan. */
  ghost predicate AffectedCovers(sc: Schema, before: Fields, tallied: Fields, rescan: set<NodeKey>, affected: set<NodeKey>) {
    && (forall fk, c :: OwnVia(sc, before, fk, c) && fk.holder in rescan ==> c in affected)
    && (forall fk, o :: BackVia(sc, before, fk, o) && fk.holder in rescan ==> fk.holder in affected)
    && (forall fk, c :: OwnVia(sc, tallied, fk, c) ==> c in affected)
    && (forall fk, o :: BackVia(sc, tallied, fk, o) ==> fk.holder in affected)
  }

  lemma {:induction false} MarkedCovers(sc: Schema, fields: Fields, refs: seq<ResolvedRelation>, rescan: set<NodeKey>, affected: set<NodeKey>)
    requires RefsMatch(fields, refs) && forall c :: MarkedBy(sc, refs, rescan, c) ==> c in affected
    ensures forall fk, c :: OwnVia(sc, fields, fk, c) && fk.holder in rescan ==> c in affected
    ensures forall fk, o :: BackVia(sc, fields, fk, o) && fk.holder in rescan ==> fk.holder in affected
  {
    hide RefsOf;
    forall fk, t | fk in fields && t in fields[fk] && fk.holder in rescan && Marks(sc, Resolved(fk, t)).Some?
      ensures Marks(sc, Resolved(fk, t)).value in affected
    {
      RefIsListed(refs, fk, t);
      var i :| 0 <= i < |refs| && refs[i] == Resolved(fk, t);
      assert MarkedBy(sc, refs, rescan, Marks(sc, Resolved(fk, t)).value);
    }
    forall fk, c | OwnVia(sc, fields, fk, c) && fk.holder in rescan ensures c in affected {
      assert Marks(sc, Resolved(fk, c)) == Some(c);
    }
    forall fk, o | BackVia(sc, fields, fk, o) && fk.holder in rescan ensures fk.holder in affected {
      assert o in fields[fk] && Marks(sc, Resolved(fk, o)) == Some(fk.holder);
    }
  }

  lemma {:induction false} RefIsListed(refs: seq<ResolvedRelation>, fk: FieldKey, t: NodeKey)
    ensures t in RefsOf(refs, fk) ==> Resolved(fk, t) in refs
  {
    if refs != [] {
      RefIsListed(refs[..|refs| - 1], fk, t);
    }
  }

  lemma {:induction false} TalliedCovers(sc: Schema, tallied: Fields, incoming: Incoming, ownedBy: map<NodeKey, NodeKey>)
    requires TalliesExact(sc, tallied, incoming, ownedBy)
    ensures forall fk, c :: OwnVia(sc, tallied, fk, c) ==> c in incoming
    ensures forall fk, o :: BackVia(sc, tallied, fk, o) ==> fk.holder in ownedBy
  {
    forall fk, c | OwnVia(sc, tallied, fk, c) ensures c in incoming {
      assert OwnTally(sc, tallied, c, OwnsOf(incoming, c)) && Owned(sc, tallied, c);
    }
    forall fk, o | BackVia(sc, tallied, fk, o) ensures fk.holder in ownedBy {
      assert BackTo(sc, tallied, fk.holder, o);
    }
  }

  /** Fields outside the rescan are as committed; those inside are all tallied. */
  ghost predicate SplitAt(before: Fields, after: Fields, tallied: Fields, rescan: set<NodeKey>) {
    && (forall fk: FieldKey :: fk.holder !in rescan ==> (fk in before <==> fk in after) && (fk in before ==> before[fk] == after[fk]))
    && (forall fk: FieldKey :: fk.holder in rescan ==> (fk in after <==> fk in tallied) && (fk in after ==> after[fk] == tallied[fk]))
  }

  lemma {:induction false} UnaffectedEdges(sc: Schema, before: Fields, after: Fields, tallied: Fields, rescan: set<NodeKey>,
                                           affected: set<NodeKey>, child: NodeKey)
    requires SplitAt(before, after, tallied, rescan) && AffectedCovers(sc, before, tallied, rescan, affected) && child !in affected
    ensures SameEdges(sc, before, after, child)
  {
    forall fk ensures OwnVia(sc, before, fk, child) <==> OwnVia(sc, after, fk, child) {
      if fk.holder in rescan {
        assert OwnVia(sc, after, fk, child) ==> OwnVia(sc, tallied, fk, child);
      }
    }
    forall o ensures BackTo(sc, before, child, o) <==> BackTo(sc, after, child, o) {
      forall fk: FieldKey | fk.holder == child ensures BackVia(sc, before, fk, o) <==> BackVia(sc, after, fk, o) {
        if fk.holder in rescan {
          assert BackVia(sc, after, fk, o) ==> BackVia(sc, tallied, fk, o);
        }
      }
    }
  }

  /** Redeciding the affected children settles the forest; only their chains can close a new cycle. */
  lemma {:induction false} ForestSettled(sc: Schema, before: Fields, after: Fields, tallied: Fields, rescan: set<NodeKey>,
                                         affected: set<NodeKey>, owners0: Owners, owners: Owners)
    requires ForestLegal(sc, before, owners0) && Redeciding(sc, after, owners0, affected, owners)
    requires SplitAt(before, after, tallied, rescan) && AffectedCovers(sc, before, tallied, rescan, affected)
    ensures ForestLegal(sc, after, owners) <==> forall c :: c in affected ==> Rooted(owners, c)
    ensures ForestPossible(sc, after) <==> ForestLegal(sc, after, owners)
  {
    hide *;
    forall c
      ensures c !in affected ==> SameEdges(sc, before, after, c) && OwnerOf(owners, c) == OwnerOf(owners0, c)
      ensures c in affected ==> Redecided(sc, after, owners, c)
    {
      RedecidedAt(sc, after, owners0, affected, owners, c);
      if c !in affected {
        UnaffectedEdges(sc, before, after, tallied, rescan, affected, c);
      }
    }
    ForestPatched(sc, before, after, owners0, owners, affected);
    OnlyForest(sc, after, owners);
  }

  lemma {:induction false} OnlyForest(sc: Schema, fields: Fields, owners: Owners)
    requires OneOwner(sc, fields) && Agree(sc, fields) && OwnersExact(sc, fields, owners)
    ensures ForestPossible(sc, fields) <==> ForestLegal(sc, fields, owners)
  {
    hide OwnersExact, OneOwner, Agree, Acyclic;
    if other :| ForestLegal(sc, fields, other) {
      OwnersUnique(sc, fields, owners, other);
    }
  }

  lemma {:induction false} ChildForbids(sc: Schema, fields: Fields, child: NodeKey)
    requires !(OneOwnerAt(sc, fields, child) && AgreeAt(sc, fields, child))
    ensures !ForestPossible(sc, fields)
  {
    hide OneOwnerAt, AgreeAt, OneOwner, Agree;
    ForestByChild(sc, fields);
  }

  lemma {:induction false} RedecidedAt(sc: Schema, fields: Fields, owners0: Owners, done: set<NodeKey>, owners: Owners, c: NodeKey)
    requires Redeciding(sc, fields, owners0, done, owners)
    ensures c in done ==> Redecided(sc, fields, owners, c)
    ensures c !in done ==> OwnerOf(owners, c) == OwnerOf(owners0, c)
  {
  }

  lemma {:induction false} CoversMade(sc: Schema, before: Fields, tallied: Fields, rescan: set<NodeKey>, incoming: Incoming,
                                      ownedBy: map<NodeKey, NodeKey>, affected: set<NodeKey>)
    requires forall fk, c :: OwnVia(sc, before, fk, c) && fk.holder in rescan ==> c in affected
    requires forall fk, o :: BackVia(sc, before, fk, o) && fk.holder in rescan ==> fk.holder in affected
    requires forall fk, c :: OwnVia(sc, tallied, fk, c) ==> c in incoming
    requires forall fk, o :: BackVia(sc, tallied, fk, o) ==> fk.holder in ownedBy
    requires incoming.Keys + ownedBy.Keys <= affected
    ensures AffectedCovers(sc, before, tallied, rescan, affected)
  {
    hide OwnVia, BackVia;
  }

  /** What the delta leaves: the fields it saw with their references, their forest, and the leftovers and missing pointers of the
      rescanned holders beside the leftovers it kept. */
  ghost predicate DeltaMade(sc: Schema, h: Graph, before: Fields, leftovers: seq<UnresolvedRelation>, rescan: set<NodeKey>, model: RelationModel)
    reads model
  {
    && model.Grounded() && SeenBy(sc, h, before, rescan, model.fields) && RefsMatch(model.fields, model.refs)
    && ForestLegal(sc, model.fields, model.owners) && OutgoingExact(model.owners, model.outgoing)
    && LeftoversAre(sc, h, leftovers, rescan, model.unresolved)
    && (forall fk :: fk in model.missing <==> fk.holder in rescan && Lacks(sc, h, fk))
  }

  /** The model of the proposed graph, from the committed one. It is built exactly when what the delta sees can be a model, and what it
      sees is the proposed graph exactly when it misses nobody who waits for a new row. */
  method BuildRelationModelDelta(committed: RelationModel, nodes: Graph, targets: TargetIndex, overrides: set<NodeKey>,
                                 ghost works: Graph, ghost creates: Graph)
    returns (r: Result<RelationModel, RelationError>, ghost rescan: set<NodeKey>)
    requires Rebased(committed, works, creates, nodes, targets) && overrides == works.Keys + creates.Keys
    ensures rescan == Rescans(committed.targetFields, nodes, committed.unresolved, overrides)
    ensures r.Ok? <==> DeltaAccepts(committed.sc, nodes, committed.fields, rescan)
    ensures r.Ok? ==> fresh(r.value) && r.value.sc == committed.sc && r.value.nodes == nodes && r.value.targets == targets
                      && r.value.targetFields == committed.targetFields
    ensures r.Ok? ==> DeltaMade(committed.sc, nodes, committed.fields, committed.unresolved, rescan, r.value)
                      && LeftoversNamed(r.value.fields, r.value.unresolved)
    ensures r.Ok? ==> (FieldsExact(committed.sc, nodes, r.value.fields) <==> NoneMissed(committed.sc, committed.nodes, works, creates, rescan))
    ensures NoneMissed(committed.sc, committed.nodes, works, creates, rescan) ==>
              && (r.Ok? <==> Buildable(committed.sc, nodes))
              && (r.Ok? ==> && r.value.Sound()
                            && (r.value.Exact() <==> LeftoversStand(committed.sc, committed.nodes, committed.unresolved, rescan)))
    ensures LeftoversCover(committed.sc, committed.nodes, committed.unresolved) ==>
              && NoneMissed(committed.sc, committed.nodes, works, creates, rescan)
              && (r.Ok? ==> LeftoversCover(committed.sc, nodes, r.value.unresolved))
  {
    hide *;
    var sc := committed.sc;
    RebasedParts(committed, works, creates, nodes, targets);
    var again := ExtendRescan(committed.unresolved, targets, overrides, committed.targetFields, nodes);
    rescan := again;
    RescanLive(committed, works, creates, nodes, targets, overrides, rescan);
    var model, affected := CarryOver(committed, nodes, targets, again);
    var ok, incoming, ownedBy := Rescan(model, again);
    if !ok {
      ScanForbids(sc, nodes, committed.fields, rescan);
    } else {
      affected := affected + incoming.Keys + ownedBy.Keys;
      RescanDone(model, committed, works, creates, targets, rescan, incoming, ownedBy, affected);
      model.fields, model.carried := model.carried + model.fields, map[];
    }
    r := if ok then Ok(model) else Err(InvalidField);
    if ok {
      r := SettleOwnership(model, affected, rescan, committed.fields);
      PossibleIsAccepted(sc, nodes, committed.fields, rescan, model.fields);
    }
    if r.Ok? {
      Made(sc, nodes, committed.fields, committed.unresolved, rescan, model);
    }
    DeltaMeans(committed, works, creates, nodes, targets, rescan, model, r.Ok?);
  }

  /** The new model with everything untouched holders keep, and the children whose ownership the dropped references bore on. */
  method CarryOver(committed: RelationModel, nodes: Graph, targets: TargetIndex, rescan: set<NodeKey>)
    returns (model: RelationModel, affected: set<NodeKey>)
    requires WellFormed(committed.sc) && Covers(committed.sc, nodes, committed.targetFields)
    requires TargetIndexExact(nodes, committed.targetFields, targets) && RefsMatch(committed.fields, committed.refs)
    ensures fresh(model) && model.sc == committed.sc && model.nodes == nodes && model.targets == targets
    ensures model.targetFields == committed.targetFields && model.owners == committed.owners && model.Grounded() && model.Recorded()
    ensures model.upto == map[] && model.fields == map[] && model.tallied == map[] && model.carried == FieldsWithout(committed.fields, rescan)
    ensures forall fk :: fk in model.carried ==> fk.holder !in rescan
    ensures forall u :: u in model.taken <==> u in committed.unresolved && u.field.holder !in rescan
    ensures forall c :: c in affected <==> MarkedBy(committed.sc, committed.refs, rescan, c)
  {
    hide *;
    model := new RelationModel(committed.sc, nodes, targets, committed.targetFields);
    model.unresolved := SplitUnresolved(committed.unresolved, rescan);
    model.refs, affected := SplitReferences(committed.sc, committed.refs, rescan);
    model.owners := committed.owners;
    model.carried, model.taken := FieldsWithout(committed.fields, rescan), model.unresolved;
    KeptRefsMatch(committed.fields, committed.refs, rescan);
    CarriedOnly(model);
    GroundedNew(model);
    CarriedApart(committed.fields, rescan);
  }

  /** What the delta's answer is worth. */
  lemma {:induction false} DeltaMeans(committed: RelationModel, works: Graph, creates: Graph, nodes: Graph, targets: TargetIndex,
                                      rescan: set<NodeKey>, model: RelationModel, ok: bool)
    requires Rebased(committed, works, creates, nodes, targets)
    requires rescan == Rescans(committed.targetFields, nodes, committed.unresolved, works.Keys + creates.Keys)
    requires works.Keys + creates.Keys <= rescan && model.sc == committed.sc && model.nodes == nodes
    requires ok <==> DeltaAccepts(committed.sc, nodes, committed.fields, rescan)
    requires ok ==> DeltaMade(committed.sc, nodes, committed.fields, committed.unresolved, rescan, model)
    ensures ok ==> LeftoversNamed(model.fields, model.unresolved)
    ensures ok ==> (FieldsExact(committed.sc, nodes, model.fields) <==> NoneMissed(committed.sc, committed.nodes, works, creates, rescan))
    ensures NoneMissed(committed.sc, committed.nodes, works, creates, rescan) ==>
              && (ok <==> Buildable(committed.sc, nodes))
              && (ok ==> model.Sound() && (model.Exact() <==> LeftoversStand(committed.sc, committed.nodes, committed.unresolved, rescan)))
    ensures LeftoversCover(committed.sc, committed.nodes, committed.unresolved) ==>
              && NoneMissed(committed.sc, committed.nodes, works, creates, rescan)
              && (ok ==> LeftoversCover(committed.sc, nodes, model.unresolved))
  {
    hide *;
    var sc := committed.sc;
    CoverMissesNobody(committed, works, creates, nodes, targets, rescan);
    if NoneMissed(sc, committed.nodes, works, creates, rescan) {
      AcceptsBuildable(committed, works, creates, nodes, targets, rescan);
    }
    if ok {
      AcceptedScans(sc, nodes, committed.fields, rescan);
      DeltaParts(sc, nodes, committed.fields, committed.unresolved, rescan, model);
      MadeNamed(committed, works, creates, nodes, targets, rescan, model);
      SeenExact(committed, works, creates, nodes, targets, rescan, model.fields);
      if NoneMissed(sc, committed.nodes, works, creates, rescan) {
        LeftoversExact(committed, works, creates, nodes, targets, rescan, model.unresolved);
        MadeSound(committed, works, creates, nodes, targets, rescan, model);
        ExactIs(model);
      }
    }
  }

  lemma {:induction false} AcceptedScans(sc: Schema, h: Graph, before: Fields, rescan: set<NodeKey>)
    requires DeltaAccepts(sc, h, before, rescan)
    ensures forall fk: FieldKey :: fk.holder in rescan ==> !Unscannable(sc, h, fk)
  {
  }

  lemma {:induction false} DeltaParts(sc: Schema, h: Graph, before: Fields, leftovers: seq<UnresolvedRelation>, rescan: set<NodeKey>, model: RelationModel)
    requires DeltaMade(sc, h, before, leftovers, rescan, model)
    ensures SeenBy(sc, h, before, rescan, model.fields) && RefsMatch(model.fields, model.refs)
    ensures OwnersExact(sc, model.fields, model.owners) && OutgoingExact(model.owners, model.outgoing)
    ensures LeftoversAre(sc, h, leftovers, rescan, model.unresolved)
  {
    hide SeenBy, RefsMatch, OutgoingExact, LeftoversAre, Lacks;
  }

  /** Redecide the affected children's owners and look for cycles above them. */
  method SettleOwnership(model: RelationModel, affected: set<NodeKey>, ghost rescan: set<NodeKey>, ghost before: Fields)
    returns (r: Result<RelationModel, RelationError>)
    requires ForestLegal(model.sc, before, model.owners)
    requires SplitAt(before, model.fields, model.tallied, rescan)
    requires AffectedCovers(model.sc, before, model.tallied, rescan, affected)
    requires Tallyable(model.sc, model.fields, model.refs)
    modifies model`owners, model`outgoing
    ensures r.Ok? <==> ForestPossible(model.sc, model.fields)
    ensures r.Ok? ==> r.value == model && ForestLegal(model.sc, model.fields, model.owners) && OutgoingExact(model.owners, model.outgoing)
  {
    hide *;
    ghost var owners0 := model.owners;
    var incoming, ownedBy := TallyAffected(model.sc, model.refs, affected, model.fields);
    var ok := RedecideOwners(model, affected, incoming, ownedBy);
    if !ok {
      ghost var child :| child in affected && !(OneOwnerAt(model.sc, model.fields, child) && AgreeAt(model.sc, model.fields, child));
      ChildForbids(model.sc, model.fields, child);
      return Err(InvalidOwnership);
    }
    ForestSettled(model.sc, before, model.fields, model.tallied, rescan, affected, owners0, model.owners);
    model.outgoing := ListChildrenOf(model.owners);
    ok := ValidateChangedOwnershipCycles(model.owners, affected);
    if !ok {
      return Err(OwnershipCycle);
    }
    r := Ok(model);
  }

  lemma {:induction false} RescanLive(committed: RelationModel, works: Graph, creates: Graph, nodes: Graph, targets: TargetIndex,
                                      overrides: set<NodeKey>, rescan: set<NodeKey>)
    requires Rebased(committed, works, creates, nodes, targets) && overrides == works.Keys + creates.Keys
    requires rescan == Rescans(committed.targetFields, nodes, committed.unresolved, overrides)
    ensures overrides <= rescan <= nodes.Keys
  {
    hide Findable, ForestLegal, RefsMatch, OutgoingExact, MissingExact, TargetIndexExact, Covers, Unscannable;
    forall k | k in rescan ensures k in nodes {
      if k !in overrides {
        var u :| u in committed.unresolved && u.field.holder == k;
        ExactAt(committed.sc, committed.nodes, committed.fields, u.field);
      }
    }
  }

  lemma {:induction false} CoverMissesNobody(committed: RelationModel, works: Graph, creates: Graph, nodes: Graph, targets: TargetIndex, rescan: set<NodeKey>)
    requires Rebased(committed, works, creates, nodes, targets)
    requires rescan == Rescans(committed.targetFields, nodes, committed.unresolved, works.Keys + creates.Keys)
    ensures LeftoversCover(committed.sc, committed.nodes, committed.unresolved) ==> NoneMissed(committed.sc, committed.nodes, works, creates, rescan)
  {
    hide Rebased, Rescans, Missed, LeftoversCover;
    if LeftoversCover(committed.sc, committed.nodes, committed.unresolved) {
      forall fk ensures !Missed(committed.sc, committed.nodes, works, creates, rescan, fk) {
        RescanCatches(committed, works, creates, nodes, targets, rescan, fk);
      }
    }
  }

  lemma {:induction false} CarriedOnly(model: RelationModel)
    requires model.upto == map[] && model.fields == map[] && model.missing == [] && model.taken == model.unresolved
    requires RefsMatch(model.carried, model.refs)
    ensures model.Recorded()
  {
    assert model.carried + model.fields == model.carried;
    assert model.unresolved[|model.taken|..] == [];
  }

  lemma {:induction false} CarriedApart(fields: Fields, rescan: set<NodeKey>)
    ensures forall fk :: fk in FieldsWithout(fields, rescan) ==> fk.holder !in rescan
  {
  }

  lemma {:induction false} ScanForbids(sc: Schema, h: Graph, before: Fields, rescan: set<NodeKey>)
    requires exists fk: FieldKey :: fk.holder in rescan && Unscannable(sc, h, fk)
    ensures !DeltaAccepts(sc, h, before, rescan)
  {
    hide Unscannable;
  }

  /** Everything redeciding needs, once the rescan is through. */
  lemma {:induction false} RescanDone(model: RelationModel, committed: RelationModel, works: Graph, creates: Graph, targets: TargetIndex,
                                      rescan: set<NodeKey>, incoming: Incoming, ownedBy: map<NodeKey, NodeKey>, affected: set<NodeKey>)
    requires Rebased(committed, works, creates, model.nodes, targets) && model.sc == committed.sc
    requires model.Recorded() && TalliesExact(model.sc, model.tallied, incoming, ownedBy)
    requires ScannedNodes(model.sc, model.nodes, rescan, model.upto, model.fields, model.tallied)
    requires model.carried == FieldsWithout(committed.fields, rescan)
    requires forall u :: u in model.taken <==> u in committed.unresolved && u.field.holder !in rescan
    requires forall c :: MarkedBy(committed.sc, committed.refs, rescan, c) ==> c in affected
    requires incoming.Keys + ownedBy.Keys <= affected
    ensures var total := model.carried + model.fields;
            && SplitAt(committed.fields, total, model.tallied, rescan) && SeenBy(model.sc, model.nodes, committed.fields, rescan, total)
            && Tallyable(model.sc, total, model.refs) && RefsMatch(total, model.refs)
    ensures AffectedCovers(model.sc, committed.fields, model.tallied, rescan, affected)
    ensures LeftoversAre(model.sc, model.nodes, committed.unresolved, rescan, model.unresolved)
    ensures forall fk :: fk in model.missing <==> fk.holder in rescan && Lacks(model.sc, model.nodes, fk)
    ensures forall fk: FieldKey :: fk.holder in rescan ==> !Unscannable(model.sc, model.nodes, fk)
  {
    hide *;
    var sc, h, total := model.sc, model.nodes, model.carried + model.fields;
    RecordParts(model);
    var found := model.unresolved[|model.taken|..];
    RebasedParts(committed, works, creates, h, targets);
    TalliesSlices(sc, model.tallied, incoming, ownedBy);
    ScannedSame(sc, h, rescan, model.upto, model.fields, model.tallied);
    PartScanned(sc, h, rescan, model.upto, model.fields, model.tallied, found, model.missing);
    Totals(sc, h, committed.fields, rescan, model.fields, total);
    TotalTallyable(sc, committed.nodes, h, committed.fields, rescan, model.fields, total, model.refs);
    MarkedCovers(sc, committed.fields, committed.refs, rescan, affected);
    TalliedCovers(sc, model.tallied, incoming, ownedBy);
    CoversMade(sc, committed.fields, model.tallied, rescan, incoming, ownedBy, affected);
    LeftoversJoin(sc, h, committed.unresolved, rescan, model.taken, found, model.unresolved);
  }

  lemma {:induction false} RecordParts(model: RelationModel)
    requires model.Recorded()
    ensures FieldsUpto(model.sc, model.nodes, model.upto, model.fields) && RefsMatch(model.carried + model.fields, model.refs)
    ensures model.taken <= model.unresolved
    ensures LeftoversScanned(model.sc, model.nodes, model.upto, model.unresolved[|model.taken|..], model.missing)
  {
  }

  lemma {:induction false} TalliesSlices(sc: Schema, tallied: Fields, incoming: Incoming, ownedBy: map<NodeKey, NodeKey>)
    requires TalliesExact(sc, tallied, incoming, ownedBy)
    ensures OwnSlicesDistinct(sc, tallied)
  {
  }

  lemma {:induction false} ScannedSame(sc: Schema, h: Graph, done: set<NodeKey>, upto: Progress, fields: Fields, tallied: Fields)
    requires ScannedNodes(sc, h, done, upto, fields, tallied)
    ensures tallied == fields
  {
  }

  lemma {:induction false} Totals(sc: Schema, h: Graph, before: Fields, rescan: set<NodeKey>, scanned: Fields, total: Fields)
    requires total == FieldsWithout(before, rescan) + scanned
    requires forall fk :: fk in scanned <==> HasField(sc, h, fk) && fk.holder in rescan
    requires forall fk :: fk in scanned ==> scanned[fk] == TargetsAt(sc, h, fk)
    ensures SplitAt(before, total, scanned, rescan) && SeenBy(sc, h, before, rescan, total)
  {
    hide HasField, TargetsAt;
  }

  lemma {:induction false} TotalTallyable(sc: Schema, g: Graph, h: Graph, before: Fields, rescan: set<NodeKey>, scanned: Fields, total: Fields,
                                          refs: seq<ResolvedRelation>)
    requires WellFormed(sc) && FieldsExact(sc, g, before) && (forall fk :: !Unscannable(sc, g, fk)) && RefsMatch(total, refs)
    requires total == FieldsWithout(before, rescan) + scanned && OwnSlicesDistinct(sc, scanned)
    requires forall fk :: fk in scanned <==> HasField(sc, h, fk) && fk.holder in rescan
    requires forall fk :: fk in scanned ==> scanned[fk] == TargetsAt(sc, h, fk)
    ensures Tallyable(sc, total, refs)
  {
    hide RefsMatch, Targets;
    forall fk | fk in total
      ensures Declares(sc, fk.holder.typ, fk.field) && (IsOwn(sc, fk.holder.typ, fk.field) ==> Distinct(total[fk]))
      ensures IsOwnedBy(sc, fk.holder.typ, fk.field) ==> |total[fk]| <= 1
    {
      if fk in scanned {
        TargetsShort(h, SpecOf(sc, fk), RefsAt(sc, h, fk));
      } else {
        assert !Unscannable(sc, g, fk) && HasField(sc, g, fk);
        TargetsShort(g, SpecOf(sc, fk), RefsAt(sc, g, fk));
      }
    }
  }

  lemma {:induction false} LeftoversJoin(sc: Schema, h: Graph, before: seq<UnresolvedRelation>, rescan: set<NodeKey>,
                                         taken: seq<UnresolvedRelation>, found: seq<UnresolvedRelation>, unresolved: seq<UnresolvedRelation>)
    requires taken <= unresolved && found == unresolved[|taken|..]
    requires forall u :: u in taken <==> u in before && u.field.holder !in rescan
    requires forall u :: u in found <==> u.field.holder in rescan && Dangles(sc, h, u)
    ensures LeftoversAre(sc, h, before, rescan, unresolved)
  {
    hide Dangles;
    assert unresolved == taken + found;
  }

  lemma {:induction false} PossibleIsAccepted(sc: Schema, h: Graph, before: Fields, rescan: set<NodeKey>, fields: Fields)
    requires SeenBy(sc, h, before, rescan, fields) && forall fk: FieldKey :: fk.holder in rescan ==> !Unscannable(sc, h, fk)
    ensures DeltaAccepts(sc, h, before, rescan) <==> ForestPossible(sc, fields)
  {
    hide SeenBy, ForestLegal, Unscannable;
    if DeltaAccepts(sc, h, before, rescan) {
      var seen, owners :| SeenForest(sc, h, before, rescan, seen, owners);
      SeenUnique(sc, h, before, rescan, seen, fields);
    }
    if owners :| ForestLegal(sc, fields, owners) {
      assert SeenForest(sc, h, before, rescan, fields, owners);
    }
  }

  lemma {:induction false} Made(sc: Schema, h: Graph, before: Fields, leftovers: seq<UnresolvedRelation>, rescan: set<NodeKey>, model: RelationModel)
    requires model.Grounded() && SeenBy(sc, h, before, rescan, model.fields) && RefsMatch(model.fields, model.refs)
    requires ForestLegal(sc, model.fields, model.owners) && OutgoingExact(model.owners, model.outgoing)
    requires LeftoversAre(sc, h, leftovers, rescan, model.unresolved)
    requires forall fk :: fk in model.missing <==> fk.holder in rescan && Lacks(sc, h, fk)
    ensures DeltaMade(sc, h, before, leftovers, rescan, model)
  {
  }

  lemma {:induction false} MadeNamed(committed: RelationModel, works: Graph, creates: Graph, nodes: Graph, targets: TargetIndex,
                                     rescan: set<NodeKey>, model: RelationModel)
    requires Rebased(committed, works, creates, nodes, targets)
    requires DeltaMade(committed.sc, nodes, committed.fields, committed.unresolved, rescan, model)
    ensures LeftoversNamed(model.fields, model.unresolved)
  {
    hide Rebased, ForestLegal, OutgoingExact, RefsMatch, Lacks, TargetsAt;
    RebasedParts(committed, works, creates, nodes, targets);
    forall u | u in model.unresolved ensures u.field in model.fields {
      if u.field.holder in rescan {
        assert Dangles(committed.sc, nodes, u);
      }
    }
  }

  lemma {:induction false} MadeSound(committed: RelationModel, works: Graph, creates: Graph, nodes: Graph, targets: TargetIndex,
                                     rescan: set<NodeKey>, model: RelationModel)
    requires Rebased(committed, works, creates, nodes, targets) && works.Keys + creates.Keys <= rescan
    requires NoneMissed(committed.sc, committed.nodes, works, creates, rescan) && model.sc == committed.sc && model.nodes == nodes
    requires DeltaMade(committed.sc, nodes, committed.fields, committed.unresolved, rescan, model) && FieldsExact(committed.sc, nodes, model.fields)
    requires forall fk: FieldKey :: fk.holder in rescan ==> !Unscannable(committed.sc, nodes, fk)
    ensures model.Sound()
  {
    hide Rebased, Missed, SeenBy, ForestLegal, OutgoingExact, RefsMatch, FieldsExact, Lacks, Unscannable;
    forall fk ensures !Unscannable(committed.sc, nodes, fk) && (fk in model.missing <==> Lacks(committed.sc, nodes, fk)) {
      if fk.holder !in rescan {
        ScannableOutside(committed, works, creates, nodes, targets, rescan, fk);
      }
    }
  }
}
