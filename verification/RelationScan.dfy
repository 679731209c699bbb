/** Scanning relation fields into a list of resolved references, pointer by pointer. */
module RelationScan {
  import opened RelationSchema
  import opened Wrappers
  import opened RelationGraph

  datatype ResolvedRelation = Resolved(field: FieldKey, target: NodeKey)

  datatype UnresolvedRelation = Unresolved(field: FieldKey, lookup: TargetKey)

  /** The own edges seen so far into one node: the first owner and how many there are. */
  datatype IncomingOwns = IncomingOwns(first: NodeKey, count: nat)
  {
    function Add(owner: NodeKey): IncomingOwns {
      IncomingOwns(if count == 0 then owner else first, count + 1)
    }
  }

  type Incoming = map<NodeKey, IncomingOwns>

  function OwnsOf(incoming: Incoming, child: NodeKey): IncomingOwns {
    if child in incoming then incoming[child] else IncomingOwns(child, 0)
  }

  /** The targets a list of references records for one field, in order. */
  function RefsOf(refs: seq<ResolvedRelation>, fk: FieldKey): seq<NodeKey> {
    if refs == [] then []
    else
      var last := refs[|refs| - 1];
      RefsOf(refs[..|refs| - 1], fk) + if last.field == fk then [last.target] else []
  }

  lemma {:induction false} RefsOfAppend(refs: seq<ResolvedRelation>, r: ResolvedRelation, fk: FieldKey)
    ensures RefsOf(refs + [r], fk) == RefsOf(refs, fk) + if r.field == fk then [r.target] else []
  {
    assert (refs + [r])[..|refs|] == refs;
  }

  lemma {:induction false} RefsOfEmpty(refs: seq<ResolvedRelation>, fk: FieldKey)
    requires forall r :: r in refs ==> r.field != fk
    ensures RefsOf(refs, fk) == []
  {
    if refs != [] {
      RefsOfEmpty(refs[..|refs| - 1], fk);
    }
  }

  /** The targets recorded per field are what the reference list says. */
  ghost predicate RefsMatch(fields: Fields, refs: seq<ResolvedRelation>) {
    && (forall r :: r in refs ==> r.field in fields)
    && (forall fk :: fk in fields ==> RefsOf(refs, fk) == fields[fk])
  }

  lemma {:induction false} RefsStart(fields: Fields, refs: seq<ResolvedRelation>, fk: FieldKey)
    requires RefsMatch(fields, refs) && fk !in fields
    ensures RefsMatch(fields[fk := []], refs)
  {
    RefsOfEmpty(refs, fk);
  }

  lemma {:induction false} RefsStep(fields: Fields, refs: seq<ResolvedRelation>, fk: FieldKey, target: NodeKey)
    requires RefsMatch(fields, refs) && fk in fields
    ensures RefsMatch(fields[fk := fields[fk] + [target]], refs + [Resolved(fk, target)])
  {
    var next := fields[fk := fields[fk] + [target]];
    forall f | f in next ensures RefsOf(refs + [Resolved(fk, target)], f) == next[f] {
      RefsOfAppend(refs, Resolved(fk, target), f);
    }
  }

  /** How many pointers of each field have been scanned. */
  type Progress = map<FieldKey, nat>

  /** The first `n` pointers of field `fk` lead to `targets`. */
  ghost predicate ScannedTo(sc: Schema, g: Graph, fk: FieldKey, n: nat, targets: seq<NodeKey>) {
    && HasField(sc, g, fk) && n <= |RefsAt(sc, g, fk)|
    && targets == Targets(g, SpecOf(sc, fk), RefsAt(sc, g, fk)[..n])
  }

  ghost predicate FieldsUpto(sc: Schema, g: Graph, upto: Progress, fields: Fields) {
    && (forall fk :: fk in fields <==> fk in upto)
    && (forall fk :: fk in upto ==> ScannedTo(sc, g, fk, upto[fk], fields[fk]))
  }

  lemma {:induction false} ScanStep(sc: Schema, g: Graph, fk: FieldKey, n: nat, targets: seq<NodeKey>)
    requires ScannedTo(sc, g, fk, n, targets) && n < |RefsAt(sc, g, fk)|
    ensures var target := Target(g, SpecOf(sc, fk), RefsAt(sc, g, fk)[n]);
            ScannedTo(sc, g, fk, n + 1, targets + if target.Some? then [target.value] else [])
  {
    TargetsStep(g, SpecOf(sc, fk), RefsAt(sc, g, fk), n);
  }

  /** Pointer `i` of a field names a key that no live node bears. */
  ghost predicate DanglesAt(sc: Schema, g: Graph, fk: FieldKey, lk: TargetKey, i: int) {
    && HasField(sc, g, fk) && 0 <= i < |RefsAt(sc, g, fk)|
    && RefsAt(sc, g, fk)[i].Some? && lk == Lookup(SpecOf(sc, fk), RefsAt(sc, g, fk)[i].value)
    && Resolve(g, lk) == Missing
  }

  ghost predicate LacksAt(sc: Schema, g: Graph, fk: FieldKey, i: int) {
    && HasField(sc, g, fk) && 0 <= i < |RefsAt(sc, g, fk)|
    && !SpecOf(sc, fk).MayBeMissing() && Target(g, SpecOf(sc, fk), RefsAt(sc, g, fk)[i]) == None
  }

  ghost predicate ClashesAt(sc: Schema, g: Graph, fk: FieldKey, i: int) {
    && HasField(sc, g, fk) && 0 <= i < |RefsAt(sc, g, fk)| && RefsAt(sc, g, fk)[i].Some?
    && Resolve(g, Lookup(SpecOf(sc, fk), RefsAt(sc, g, fk)[i].value)) == Clash
  }

  ghost predicate LeftoversScanned(sc: Schema, g: Graph, upto: Progress, unresolved: seq<UnresolvedRelation>, missing: seq<FieldKey>)
  {
    && UnresolvedScanned(sc, g, upto, unresolved)
    && (forall fk :: fk in missing <==> fk in upto && exists i :: i < upto[fk] && LacksAt(sc, g, fk, i))
    && (forall fk, i :: fk in upto && i < upto[fk] ==> !ClashesAt(sc, g, fk, i))
  }

  ghost predicate UnresolvedScanned(sc: Schema, g: Graph, upto: Progress, unresolved: seq<UnresolvedRelation>) {
    forall u :: u in unresolved <==>
                u.field in upto && exists i :: i < upto[u.field] && DanglesAt(sc, g, u.field, u.lookup, i)
  }

  /** The two tallies that decide ownership, for the fields scanned so far. */
  ghost predicate TalliesExact(sc: Schema, fields: Fields, incoming: Incoming, ownedBy: map<NodeKey, NodeKey>) {
    && (forall c :: OwnTally(sc, fields, c, OwnsOf(incoming, c)))
    && (forall c, o :: (c in ownedBy && ownedBy[c] == o) <==> BackTo(sc, fields, c, o))
    && OwnSlicesDistinct(sc, fields)
  }

  ghost predicate BackTo(sc: Schema, fields: Fields, child: NodeKey, owner: NodeKey) {
    exists fk: FieldKey :: fk.holder == child && BackVia(sc, fields, fk, owner)
  }

  ghost predicate OwnTally(sc: Schema, fields: Fields, child: NodeKey, owns: IncomingOwns) {
    && (owns.count == 0 <==> !Owned(sc, fields, child))
    && (owns.count > 0 ==> exists fk: FieldKey :: fk.holder == owns.first && OwnVia(sc, fields, fk, child))
    && (owns.count == 1 ==> forall fk, fk' :: OwnVia(sc, fields, fk, child) && OwnVia(sc, fields, fk', child) ==> fk == fk')
    && (owns.count > 1 ==> exists fk, fk' :: fk != fk' && OwnVia(sc, fields, fk, child) && OwnVia(sc, fields, fk', child))
  }

  lemma {:induction false} OwnTallyStep(sc: Schema, before: Fields, after: Fields, fk: FieldKey, target: NodeKey, owns: IncomingOwns, c: NodeKey)
    requires Declares(sc, fk.holder.typ, fk.field) && OwnTally(sc, before, c, owns)
    requires fk in before && after == before[fk := before[fk] + [target]] && (IsOwn(sc, fk.holder.typ, fk.field) ==> target !in before[fk])
    ensures OwnTally(sc, after, c, if SpecOf(sc, fk).kind == Own && c == target then owns.Add(fk.holder) else owns)
  {
    var adds := SpecOf(sc, fk).kind == Own && c == target;
    forall f ensures OwnVia(sc, after, f, c) <==> OwnVia(sc, before, f, c) || (adds && f == fk) {
    }
    if adds {
      assert OwnVia(sc, after, fk, c) && !OwnVia(sc, before, fk, c);
      if owns.count > 0 {
        var f: FieldKey :| f.holder == owns.first && OwnVia(sc, before, f, c);
        assert OwnVia(sc, after, f, c) && f != fk;
      }
    } else {
      assert Owned(sc, after, c) <==> Owned(sc, before, c);
    }
  }

  lemma {:induction false} BackTallyStep(sc: Schema, before: Fields, after: Fields, fk: FieldKey, target: NodeKey, c: NodeKey, o: NodeKey)
    requires WellFormed(sc) && Declares(sc, fk.holder.typ, fk.field)
    requires fk in before && after == before[fk := before[fk] + [target]] && (IsOwnedBy(sc, fk.holder.typ, fk.field) ==> before[fk] == [])
    ensures BackTo(sc, after, c, o) <==> if SpecOf(sc, fk).kind == OwnedBy && c == fk.holder then o == target else BackTo(sc, before, c, o)
  {
    if SpecOf(sc, fk).kind == OwnedBy && c == fk.holder {
      assert BackVia(sc, after, fk, target) && fk.holder == c;
      if f: FieldKey :| f.holder == c && BackVia(sc, after, f, o) {
        assert f.field == fk.field;
      }
    } else {
      forall f: FieldKey | f.holder == c
        ensures BackVia(sc, after, f, o) <==> BackVia(sc, before, f, o)
      {
        assert IsOwnedBy(sc, f.holder.typ, f.field) ==> f != fk;
      }
    }
  }

  lemma {:induction false} SlicesStep(sc: Schema, before: Fields, after: Fields, fk: FieldKey, target: NodeKey)
    requires OwnSlicesDistinct(sc, before) && fk in before && after == before[fk := before[fk] + [target]]
    requires IsOwn(sc, fk.holder.typ, fk.field) ==> target !in before[fk]
    ensures OwnSlicesDistinct(sc, after)
  {
  }

  /** One more resolved target in field `fk`, as recordResolvedRelation tallies it. */
  lemma {:induction false} TallyStep(sc: Schema, before: Fields, after: Fields, fk: FieldKey, target: NodeKey,
                  incoming: Incoming, ownedBy: map<NodeKey, NodeKey>)
    requires WellFormed(sc) && Declares(sc, fk.holder.typ, fk.field)
    requires TalliesExact(sc, before, incoming, ownedBy)
    requires fk in before && after == before[fk := before[fk] + [target]]
    requires IsOwn(sc, fk.holder.typ, fk.field) ==> target !in before[fk]
    requires IsOwnedBy(sc, fk.holder.typ, fk.field) ==> before[fk] == []
    ensures var kind := SpecOf(sc, fk).kind;
            TalliesExact(sc, after,
                         if kind == Own then incoming[target := OwnsOf(incoming, target).Add(fk.holder)] else incoming,
                         if kind == OwnedBy then ownedBy[fk.holder := target] else ownedBy)
  {
    var kind := SpecOf(sc, fk).kind;
    var incoming' := if kind == Own then incoming[target := OwnsOf(incoming, target).Add(fk.holder)] else incoming;
    var ownedBy' := if kind == OwnedBy then ownedBy[fk.holder := target] else ownedBy;
    hide WellFormed, OwnTally, BackTo, OwnSlicesDistinct;
    SlicesStep(sc, before, after, fk, target);
    forall c ensures OwnTally(sc, after, c, OwnsOf(incoming', c)) {
      OwnTallyStep(sc, before, after, fk, target, OwnsOf(incoming, c), c);
    }
    forall c, o ensures (c in ownedBy' && ownedBy'[c] == o) <==> BackTo(sc, after, c, o) {
      BackTallyStep(sc, before, after, fk, target, c, o);
    }
  }

  /** Starting a field adds nothing to either tally. */
  lemma {:induction false} TallyStart(sc: Schema, before: Fields, fk: FieldKey, incoming: Incoming, ownedBy: map<NodeKey, NodeKey>)
    requires TalliesExact(sc, before, incoming, ownedBy) && fk !in before
    ensures TalliesExact(sc, before[fk := []], incoming, ownedBy)
  {
    var after := before[fk := []];
    forall f, c ensures OwnVia(sc, after, f, c) <==> OwnVia(sc, before, f, c) {
    }
    forall c ensures OwnTally(sc, after, c, OwnsOf(incoming, c)) {
      assert OwnTally(sc, before, c, OwnsOf(incoming, c));
      assert Owned(sc, after, c) <==> Owned(sc, before, c);
    }
    forall c, o ensures BackTo(sc, after, c, o) <==> BackTo(sc, before, c, o) {
      assert forall f :: BackVia(sc, after, f, o) <==> BackVia(sc, before, f, o);
    }
  }
}
