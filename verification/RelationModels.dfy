/** The relation model: what a full validation of the graph computes, node by node. */
module RelationModels {
  import opened RelationSchema
  import opened Wrappers
  import opened Ordering
  import opened OwnershipForest
  import opened OwnershipWalks
  import opened RelationGraph
  import opened RelationScan

  lemma {:induction false} ExactCovers(sc: Schema, g: Graph, tf: TargetFields)
    requires TargetFieldsExact(sc, g, tf)
    ensures Covers(sc, g, tf)
  {
    forall fk, v | HasField(sc, g, fk) ensures Searchable(tf, Lookup(SpecOf(sc, fk), v)) {
      assert LooksUp(sc, g, fk, Lookup(SpecOf(sc, fk), v));
    }
  }

  /** A field no scan gets through: an ambiguous pointer, or one child listed twice by an own slice. */
  ghost predicate Unscannable(sc: Schema, g: Graph, fk: FieldKey) {
    && HasField(sc, g, fk)
    && ((exists i :: ClashesAt(sc, g, fk, i)) || (SpecOf(sc, fk).kind == Own && !Distinct(TargetsAt(sc, g, fk))))
  }

  /** The graphs a model can be built for; required pointers are judged separately. */
  ghost predicate Buildable(sc: Schema, g: Graph) {
    && (forall fk :: !Unscannable(sc, g, fk))
    && exists fields, owners :: FieldsExact(sc, g, fields) && ForestLegal(sc, fields, owners)
  }

  ghost predicate Lacks(sc: Schema, g: Graph, fk: FieldKey) {
    exists i :: LacksAt(sc, g, fk, i)
  }

  /** Legal is buildable plus every required pointer live. */
  lemma {:induction false} LegalIsBuildable(sc: Schema, g: Graph)
    ensures Legal(sc, g) <==> Buildable(sc, g) && forall fk :: !Lacks(sc, g, fk)
  {
    forall fk | HasField(sc, g, fk)
      ensures FieldLegal(sc, g, fk) <==> !Unscannable(sc, g, fk) && !Lacks(sc, g, fk)
    {
      var spec, refs := SpecOf(sc, fk), RefsAt(sc, g, fk);
      forall i | 0 <= i < |refs|
        ensures RefLegal(g, spec, refs[i]) <==> !ClashesAt(sc, g, fk, i) && !LacksAt(sc, g, fk, i)
      {
      }
    }
  }

  ghost predicate SeenIs(seen: set<NodeKey>, targets: seq<NodeKey>) {
    forall t :: t in seen <==> t in targets
  }

  /** Only the entry of `fk` may differ. */
  ghost predicate SameBut<V>(before: map<FieldKey, V>, after: map<FieldKey, V>, fk: FieldKey) {
    fk in after && forall f :: f != fk ==> (f in before <==> f in after) && (f in before ==> before[f] == after[f])
  }

  lemma {:induction false} SameButChain<V>(a: map<FieldKey, V>, b: map<FieldKey, V>, fk: FieldKey)
    requires SameBut(a, b, fk)
    ensures forall c :: SameBut(b, c, fk) ==> SameBut(a, c, fk)
  {
  }

  lemma {:induction false} SameButItself<V>(m: map<FieldKey, V>, fk: FieldKey)
    requires fk in m
    ensures SameBut(m, m, fk)
  {
  }

  lemma {:induction false} SameButUpdate<V>(m: map<FieldKey, V>, fk: FieldKey, v: V)
    ensures SameBut(m, m[fk := v], fk)
  {
  }

  lemma {:induction false} SliceAppend<T>(s: seq<T>, taken: seq<T>, x: T)
    requires taken <= s
    ensures taken <= s + [x] && (s + [x])[|taken|..] == s[|taken|..] + [x]
  {
  }

  lemma {:induction false} CarriedStart(carried: Fields, fields: Fields, refs: seq<ResolvedRelation>, fk: FieldKey)
    requires RefsMatch(carried + fields, refs) && fk !in carried && fk !in fields
    ensures RefsMatch(carried + fields[fk := []], refs)
  {
    hide *;
    RefsStart(carried + fields, refs, fk);
    assert (carried + fields)[fk := []] == carried + fields[fk := []];
  }

  lemma {:induction false} CarriedStep(carried: Fields, fields: Fields, refs: seq<ResolvedRelation>, fk: FieldKey, target: NodeKey)
    requires RefsMatch(carried + fields, refs) && fk in fields
    ensures RefsMatch(carried + fields[fk := fields[fk] + [target]], refs + [Resolved(fk, target)])
  {
    hide *;
    RefsStep(carried + fields, refs, fk, target);
    assert (carried + fields)[fk := fields[fk] + [target]] == carried + fields[fk := fields[fk] + [target]];
  }

  class RelationModel {
    const sc: Schema
    const nodes: Graph
    const targets: TargetIndex
    const targetFields: TargetFields
    var refs: seq<ResolvedRelation>
    var unresolved: seq<UnresolvedRelation>
    var missing: seq<FieldKey>
    var owners: Owners
    var outgoing: map<NodeKey, seq<NodeKey>>
    ghost var upto: Progress
    ghost var carried: Fields  // what was taken over from another model without scanning it
    ghost var taken: seq<UnresolvedRelation>  // and the leftovers that came with it
    ghost var fields: Fields   // the targets scanned so far
    ghost var tallied: Fields  // those of them the two tallies count

    constructor (sc: Schema, nodes: Graph, targets: TargetIndex, targetFields: TargetFields)
      ensures this.sc == sc && this.nodes == nodes && this.targets == targets && this.targetFields == targetFields
      ensures refs == [] && unresolved == [] && missing == [] && owners == map[] && outgoing == map[]
      ensures carried == map[] && taken == [] && upto == map[] && fields == map[] && tallied == map[]
    {
      this.sc, this.nodes, this.targets, this.targetFields := sc, nodes, targets, targetFields;
      refs, unresolved, missing, owners, outgoing := [], [], [], map[], map[];
      carried, taken, upto, fields, tallied := map[], [], map[], map[], map[];
    }

    /** The inputs are consistent: the target index describes these nodes. */
    ghost predicate Grounded() {
      WellFormed(sc) && Covers(sc, nodes, targetFields) && TargetIndexExact(nodes, targetFields, targets)
    }

    /** What has been recorded is exactly what the scanned pointers say, on top of what was carried over. */
    ghost predicate Recorded()
      reads this
    {
      && upto.Keys == fields.Keys && FieldsUpto(sc, nodes, upto, fields) && RefsMatch(carried + fields, refs)
      && taken <= unresolved && LeftoversScanned(sc, nodes, upto, unresolved[|taken|..], missing)
    }

    /** One pointer of field `fk`: resolve it, then record a reference, a leftover or a missing relation. */
    method ScanRelationPointer(fk: FieldKey, pointer: Option<Value>, seen: set<NodeKey>,
                               incoming: Incoming, ownedBy: map<NodeKey, NodeKey>)
      returns (ok: bool, seen': set<NodeKey>, incoming': Incoming, ownedBy': map<NodeKey, NodeKey>)
      requires Grounded() && Recorded() && TalliesExact(sc, tallied, incoming, ownedBy)
      requires HasField(sc, nodes, fk) && fk in upto && upto[fk] < |RefsAt(sc, nodes, fk)|
      requires pointer == RefsAt(sc, nodes, fk)[upto[fk]]
      requires fk in tallied && tallied[fk] == fields[fk] && SeenIs(seen, fields[fk])
      modifies this`refs, this`unresolved, this`missing, this`upto, this`fields, this`tallied
      ensures ok ==> Recorded() && TalliesExact(sc, tallied, incoming', ownedBy')
      ensures ok ==> upto == old(upto)[fk := old(upto)[fk] + 1]
      ensures ok ==> SameBut(old(fields), fields, fk) && SameBut(old(tallied), tallied, fk)
      ensures ok ==> fk in fields && fk in tallied && tallied[fk] == fields[fk] && SeenIs(seen', fields[fk])
      ensures !ok ==> Unscannable(sc, nodes, fk)
    {
      hide FieldsUpto, LeftoversScanned, ScannedTo, RefsMatch, RefsOf, TalliesExact, RefsAt, Unscannable, TargetIndexExact,
           WellFormed, Covers, Resolve, Target, LookupIn, ClashesAt, SameBut;
      seen', incoming', ownedBy' := seen, incoming, ownedBy;
      var spec := SpecOf(sc, fk);
      ghost var i := upto[fk];
      var resolution := if pointer == None then Missing else LookupIn(targets, Lookup(spec, pointer.value));
      PointerResolves(sc, nodes, targetFields, targets, fk, i);
      if resolution == Clash {
        ClashIsUnscannable(sc, nodes, fk, i);
        return false, seen, incoming, ownedBy;
      }
      FieldStep(sc, nodes, upto, fields, fk);
      LeftoverStep(sc, nodes, upto, fk, unresolved[|taken|..], missing);
      if resolution == Missing {
        if pointer.Some? {
          SliceAppend(unresolved, taken, Unresolved(fk, Lookup(spec, pointer.value)));
          unresolved := unresolved + [Unresolved(fk, Lookup(spec, pointer.value))];
        }
        if !spec.MayBeMissing() {
          missing := missing + [fk];
        }
        SameButItself(fields, fk);
        SameButItself(tallied, fk);
        upto := upto[fk := i + 1];
        return true, seen, incoming, ownedBy;
      }
      var target := resolution.key;
      if spec.kind == Own && target in seen {
        RepeatedChild(sc, nodes, fk, i, fields[fk]);
        return false, seen, incoming, ownedBy;
      }
      BackFieldIsSingle(sc, nodes, fk, i, fields[fk]);
      CarriedStep(carried, fields, refs, fk, target);
      TallyStep(sc, tallied, tallied[fk := fields[fk] + [target]], fk, target, incoming, ownedBy);
      SameButUpdate(fields, fk, fields[fk] + [target]);
      SameButUpdate(tallied, fk, fields[fk] + [target]);
      refs := refs + [Resolved(fk, target)];
      seen' := seen + {target};
      if spec.kind == Own {
        incoming' := incoming[target := OwnsOf(incoming, target).Add(fk.holder)];
      }
      if spec.kind == OwnedBy {
        ownedBy' := ownedBy[fk.holder := target];
      }
      upto := upto[fk := i + 1];
      fields, tallied := fields[fk := fields[fk] + [target]], tallied[fk := fields[fk] + [target]];
      ok := true;
    }

    /** The empty record of a field about to be scanned. */
    ghost method StartField(fk: FieldKey, incoming: Incoming, ownedBy: map<NodeKey, NodeKey>)
      requires Recorded() && TalliesExact(sc, tallied, incoming, ownedBy)
      requires HasField(sc, nodes, fk) && fk !in upto && fk !in tallied && fk !in carried
      modifies this`upto, this`fields, this`tallied
      ensures Recorded() && TalliesExact(sc, tallied, incoming, ownedBy)
      ensures upto == old(upto)[fk := 0] && fk in fields && fk in tallied && fields[fk] == tallied[fk] == []
      ensures SameBut(old(fields), fields, fk) && SameBut(old(tallied), tallied, fk) && SeenIs({}, fields[fk])
    {
      hide FieldsUpto, LeftoversScanned, RefsMatch, TalliesExact, RefsAt;
      FieldStart(sc, nodes, upto, fields, fk);
      CarriedStart(carried, fields, refs, fk);
      TallyStart(sc, tallied, fk, incoming, ownedBy);
      LeftoverStart(sc, nodes, upto, fk, unresolved[|taken|..], missing);
      upto, fields, tallied := upto[fk := 0], fields[fk := []], tallied[fk := []];
    }

    /** One relation field, pointer by pointer. */
    method ScanRelationField(fk: FieldKey, incoming: Incoming, ownedBy: map<NodeKey, NodeKey>)
      returns (ok: bool, incoming': Incoming, ownedBy': map<NodeKey, NodeKey>)
      requires Grounded() && Recorded() && TalliesExact(sc, tallied, incoming, ownedBy)
      requires HasField(sc, nodes, fk) && fk !in upto && fk !in tallied && fk !in carried
      modifies this`refs, this`unresolved, this`missing, this`upto, this`fields, this`tallied
      ensures ok ==> Recorded() && TalliesExact(sc, tallied, incoming', ownedBy')
      ensures ok ==> upto == old(upto)[fk := |RefsAt(sc, nodes, fk)|] && SameBut(old(upto), upto, fk)
      ensures ok ==> SameBut(old(fields), fields, fk) && SameBut(old(tallied), tallied, fk) && tallied[fk] == fields[fk]
      ensures !ok ==> Unscannable(sc, nodes, fk)
    {
      hide *;
      StartField(fk, incoming, ownedBy);
      var pointers := RefsAt(sc, nodes, fk);
      ok, incoming', ownedBy' := true, incoming, ownedBy;
      var seen: set<NodeKey> := {};
      var position := 0;
      while position < |pointers|
        invariant 0 <= position <= |pointers|
        invariant Recorded() && TalliesExact(sc, tallied, incoming', ownedBy')
        invariant upto == old(upto)[fk := position]
        invariant SameBut(old(fields), fields, fk) && SameBut(old(tallied), tallied, fk)
        invariant fk in fields && fk in tallied && tallied[fk] == fields[fk] && SeenIs(seen, fields[fk])
      {
        SameButChain(old(fields), fields, fk);
        SameButChain(old(tallied), tallied, fk);
        ok, seen, incoming', ownedBy' := ScanRelationPointer(fk, pointers[position], seen, incoming', ownedBy');
        if !ok {
          return;
        }
        position := position + 1;
      }
      SameButUpdate<nat>(old(upto), fk, |pointers|);
      assert upto == old(upto)[fk := |pointers|];
    }

    /** Every declared field of one node. */
    method ScanNodeRelations(key: NodeKey, incoming: Incoming, ownedBy: map<NodeKey, NodeKey>)
      returns (ok: bool, incoming': Incoming, ownedBy': map<NodeKey, NodeKey>)
      requires Grounded() && Recorded() && TalliesExact(sc, tallied, incoming, ownedBy)
      requires key in nodes && forall fk :: fk in upto || fk in fields || fk in tallied || fk in carried ==> fk.holder != key
      modifies this`refs, this`unresolved, this`missing, this`upto, this`fields, this`tallied
      ensures ok ==> Recorded() && TalliesExact(sc, tallied, incoming', ownedBy')
      ensures ok ==> var all := FieldsOfType(sc, key.typ);
                     && GrownBy(sc, key, all, old(upto), upto) && GrownBy(sc, key, all, old(fields), fields)
                     && GrownBy(sc, key, all, old(tallied), tallied) && FullyScanned(sc, nodes, key, upto, fields, tallied)
      ensures !ok ==> exists fk: FieldKey :: fk.holder == key && Unscannable(sc, nodes, fk)
    {
      hide *;
      ok, incoming', ownedBy' := true, incoming, ownedBy;
      NothingGrown(sc, key, upto);
      NothingGrown(sc, key, fields);
      NothingGrown(sc, key, tallied);
      NothingScanned(sc, nodes, key, upto, fields, tallied);
      var rest := FieldsOfType(sc, key.typ);
      ghost var done: set<nat> := {};
      while rest != {}
        invariant FieldsOfType(sc, key.typ) == rest + done && rest !! done
        invariant Recorded() && TalliesExact(sc, tallied, incoming', ownedBy')
        invariant GrownBy(sc, key, done, old(upto), upto) && GrownBy(sc, key, done, old(fields), fields)
        invariant GrownBy(sc, key, done, old(tallied), tallied) && FullyScanned(sc, nodes, key, upto, fields, tallied)
        decreases |rest|
      {
        var field :| field in rest;
        var fk := FieldKey(key, field);
        FreshField(sc, nodes, key, done, old(upto), upto, field);
        FreshField(sc, nodes, key, done, old(tallied), tallied, field);
        ghost var upto1, fields1, tallied1 := upto, fields, tallied;
        ok, incoming', ownedBy' := ScanRelationField(fk, incoming', ownedBy');
        if !ok {
          assert fk.holder == key && Unscannable(sc, nodes, fk);
          return;
        }
        GrowStep(sc, key, done, old(upto), upto1, upto, field);
        GrowStep(sc, key, done, old(fields), fields1, fields, field);
        GrowStep(sc, key, done, old(tallied), tallied1, tallied, field);
        FullStep(sc, nodes, fk, upto1, fields1, tallied1, upto, fields, tallied);
        rest := rest - {field};
        done := done + {field};
      }
      assert done == FieldsOfType(sc, key.typ);
    }

    /** The references are those of the recorded fields, the child lists those of the owners, and every owned node is there. */
    ghost predicate Readable()
      reads this
    {
      RefsMatch(fields, refs) && OutgoingExact(owners, outgoing) && owners.Keys <= nodes.Keys
    }

    /** The finished model has the fields, owners and children of the graph; its leftovers may be anybody's. */
    ghost predicate Sound()
      reads this
    {
      Grounded() && ModelSound(sc, nodes, fields, refs, missing, owners, outgoing)
    }

    /** The finished model says exactly what the graph says. */
    ghost predicate Exact()
      reads this
    {
      Sound() && UnresolvedExact(sc, nodes, unresolved)
    }

    /** Decide one child's owner from its two tallies, or refuse. */
    method AttachNodeOwner(child: NodeKey, raw: IncomingOwns, back: Option<NodeKey>, ghost decided: Fields)
      returns (ok: bool)
      requires OwnTally(sc, decided, child, raw) && BackTally(sc, decided, child, back)
      requires child !in owners
      modifies this`owners, this`outgoing
      ensures ok <==> OneOwnerAt(sc, decided, child) && AgreeAt(sc, decided, child)
      ensures ok ==> forall o :: OwnerOf(owners, child) == Some(o) <==> IsOwner(sc, decided, child, o)
      ensures ok ==> forall c :: c != child ==> OwnerOf(owners, c) == OwnerOf(old(owners), c)
      ensures ok && OutgoingExact(old(owners), old(outgoing)) ==> OutgoingExact(owners, outgoing)
    {
      OwnerDecided(sc, decided, child, raw, back);
      if raw.count > 1 {
        return false;
      }
      if raw.count == 1 && back.Some? && raw.first != back.value {
        return false;
      }
      var owner := ResolvedOwner(raw, back);
      ok := true;
      if owner == None {
        return;
      }
      OutgoingAppend(owners, outgoing, child, owner.value);
      hide *;
      owners := owners[child := owner.value];
      outgoing := outgoing[owner.value := ChildrenOf(outgoing, owner.value) + [child]];
    }
  }

  function ResolvedOwner(raw: IncomingOwns, back: Option<NodeKey>): Option<NodeKey> {
    if raw.count == 1 then Some(raw.first) else back
  }

  ghost predicate BackTally(sc: Schema, fields: Fields, child: NodeKey, back: Option<NodeKey>) {
    forall o :: back == Some(o) <==> BackTo(sc, fields, child, o)
  }

  ghost predicate OneOwnerAt(sc: Schema, fields: Fields, child: NodeKey) {
    forall fk, fk' :: OwnVia(sc, fields, fk, child) && OwnVia(sc, fields, fk', child) ==> fk == fk'
  }

  ghost predicate AgreeAt(sc: Schema, fields: Fields, child: NodeKey) {
    forall fk, o :: BackTo(sc, fields, child, o) && OwnVia(sc, fields, fk, child) ==> fk.holder == o
  }

  lemma {:induction false} ForestByChild(sc: Schema, fields: Fields)
    ensures OneOwner(sc, fields) && Agree(sc, fields) <==> forall c :: OneOwnerAt(sc, fields, c) && AgreeAt(sc, fields, c)
  {
    if forall c :: OneOwnerAt(sc, fields, c) && AgreeAt(sc, fields, c) {
      forall fk, fk', c | OwnVia(sc, fields, fk, c) && OwnVia(sc, fields, fk', c) ensures fk == fk' {
        assert OneOwnerAt(sc, fields, c);
      }
      forall fk, bk, o | BackVia(sc, fields, bk, o) && OwnVia(sc, fields, fk, bk.holder) ensures fk.holder == o {
        assert BackTo(sc, fields, bk.holder, o) && AgreeAt(sc, fields, bk.holder);
      }
    }
    if OneOwner(sc, fields) && Agree(sc, fields) {
      forall c ensures OneOwnerAt(sc, fields, c) && AgreeAt(sc, fields, c) {
      }
    }
  }

  lemma {:induction false} OwnerDecided(sc: Schema, fields: Fields, child: NodeKey, raw: IncomingOwns, back: Option<NodeKey>)
    requires OwnTally(sc, fields, child, raw) && BackTally(sc, fields, child, back)
    ensures var refused := raw.count > 1 || (raw.count == 1 && back.Some? && raw.first != back.value);
            && (refused <==> !(OneOwnerAt(sc, fields, child) && AgreeAt(sc, fields, child)))
            && (!refused ==> forall o :: ResolvedOwner(raw, back) == Some(o) <==> IsOwner(sc, fields, child, o))
  {
    if raw.count == 1 {
      var fk: FieldKey :| fk.holder == raw.first && OwnVia(sc, fields, fk, child);
      assert forall f :: OwnVia(sc, fields, f, child) ==> f == fk;
      if back.Some? {
        assert BackTo(sc, fields, child, back.value);
      }
    }
    if raw.count == 0 {
      forall o ensures IsOwner(sc, fields, child, o) <==> BackTo(sc, fields, child, o) {
      }
    }
  }

  lemma {:induction false} OutgoingAppend(owners: Owners, outgoing: map<NodeKey, seq<NodeKey>>, child: NodeKey, owner: NodeKey)
    requires child !in owners
    ensures OutgoingExact(owners, outgoing) ==>
            OutgoingExact(owners[child := owner], outgoing[owner := ChildrenOf(outgoing, owner) + [child]])
    ensures OwnerOf(owners[child := owner], child) == Some(owner)
    ensures forall c :: c != child ==> OwnerOf(owners[child := owner], c) == OwnerOf(owners, c)
  {
    if OutgoingExact(owners, outgoing) {
      var owners', outgoing' := owners[child := owner], outgoing[owner := ChildrenOf(outgoing, owner) + [child]];
      forall o, c ensures c in ChildrenOf(outgoing', o) <==> OwnerOf(owners', c) == Some(o) {
        assert c in ChildrenOf(outgoing, o) <==> OwnerOf(owners, c) == Some(o);
      }
      assert child in ChildrenOf(outgoing, owner) <==> OwnerOf(owners, child) == Some(owner);
      assert Distinct(ChildrenOf(outgoing, owner));
      assert Distinct(ChildrenOf(outgoing, owner) + [child]);
    }
  }

  /** The authoritative relation fields of a type. */
  function FieldsOfType(sc: Schema, typ: string): set<nat> {
    if typ in sc then set f | f in sc[typ] && sc[typ][f].kind != Inverse else {}
  }

  /** The entries of `key` for the fields in `done` have been added, and no other entry touched. */
  ghost predicate GrownBy<V>(sc: Schema, key: NodeKey, done: set<nat>, before: map<FieldKey, V>, after: map<FieldKey, V>) {
    && (forall fk :: fk in after <==> fk in before || (fk.holder == key && fk.field in done))
    && (forall fk :: fk in before ==> fk in after && after[fk] == before[fk])
  }

  ghost predicate FullyScanned(sc: Schema, g: Graph, key: NodeKey, upto: Progress, fields: Fields, tallied: Fields) {
    forall fk: FieldKey :: fk.holder == key && fk in upto ==>
                   HasField(sc, g, fk) && fk in fields && fk in tallied
                   && tallied[fk] == fields[fk] && upto[fk] == |RefsAt(sc, g, fk)|
  }

  lemma {:induction false} NothingGrown<V>(sc: Schema, key: NodeKey, m: map<FieldKey, V>)
    ensures GrownBy(sc, key, {}, m, m)
  {
  }

  lemma {:induction false} NothingScanned(sc: Schema, g: Graph, key: NodeKey, upto: Progress, fields: Fields, tallied: Fields)
    requires forall fk :: fk in upto ==> fk.holder != key
    ensures FullyScanned(sc, g, key, upto, fields, tallied)
  {
  }

  lemma {:induction false} FreshField<V>(sc: Schema, g: Graph, key: NodeKey, done: set<nat>, before: map<FieldKey, V>, after: map<FieldKey, V>, field: nat)
    requires GrownBy(sc, key, done, before, after) && field !in done
    requires forall fk :: fk in before ==> fk.holder != key
    requires key in g && field in FieldsOfType(sc, key.typ)
    ensures FieldKey(key, field) !in after && HasField(sc, g, FieldKey(key, field))
  {
  }

  lemma {:induction false} GrowStep<V>(sc: Schema, key: NodeKey, done: set<nat>,
                    before: map<FieldKey, V>, middle: map<FieldKey, V>, after: map<FieldKey, V>, field: nat)
    requires GrownBy(sc, key, done, before, middle) && SameBut(middle, after, FieldKey(key, field))
    requires forall fk :: fk in before ==> fk.holder != key
    ensures GrownBy(sc, key, done + {field}, before, after)
  {
  }

  lemma {:induction false} FullStep(sc: Schema, g: Graph, fk: FieldKey, upto0: Progress, fields0: Fields, tallied0: Fields,
                 upto: Progress, fields: Fields, tallied: Fields)
    requires FullyScanned(sc, g, fk.holder, upto0, fields0, tallied0) && HasField(sc, g, fk)
    requires SameBut(upto0, upto, fk) && SameBut(fields0, fields, fk) && SameBut(tallied0, tallied, fk)
    requires tallied[fk] == fields[fk] && upto[fk] == |RefsAt(sc, g, fk)|
    ensures FullyScanned(sc, g, fk.holder, upto, fields, tallied)
  {
  }

  lemma {:induction false} BackFieldIsSingle(sc: Schema, g: Graph, fk: FieldKey, n: nat, targets: seq<NodeKey>)
    requires WellFormed(sc) && ScannedTo(sc, g, fk, n, targets) && n < |RefsAt(sc, g, fk)|
    ensures IsOwnedBy(sc, fk.holder.typ, fk.field) ==> targets == []
  {
  }

  lemma {:induction false} FieldStart(sc: Schema, g: Graph, upto: Progress, fields: Fields, fk: FieldKey)
    requires FieldsUpto(sc, g, upto, fields) && HasField(sc, g, fk) && fk !in upto
    ensures fk !in fields && FieldsUpto(sc, g, upto[fk := 0], fields[fk := []])
  {
    assert ScannedTo(sc, g, fk, 0, []);
    hide ScannedTo;
  }

  lemma {:induction false} FieldStep(sc: Schema, g: Graph, upto: Progress, fields: Fields, fk: FieldKey)
    requires FieldsUpto(sc, g, upto, fields) && HasField(sc, g, fk)
    requires fk in upto && upto[fk] < |RefsAt(sc, g, fk)|
    ensures fk in fields && ScannedTo(sc, g, fk, upto[fk], fields[fk])
    ensures var target := Target(g, SpecOf(sc, fk), RefsAt(sc, g, fk)[upto[fk]]);
            && (target == None ==> FieldsUpto(sc, g, upto[fk := upto[fk] + 1], fields))
            && (target.Some? ==> FieldsUpto(sc, g, upto[fk := upto[fk] + 1], fields[fk := fields[fk] + [target.value]]))
  {
    assert ScannedTo(sc, g, fk, upto[fk], fields[fk]);
    ScanStep(sc, g, fk, upto[fk], fields[fk]);
    assert fields[fk] + [] == fields[fk];
    hide ScannedTo, Target, RefsAt, Declares;
  }

  lemma {:induction false} LeftoverStart(sc: Schema, g: Graph, upto: Progress, fk: FieldKey,
                      unresolved: seq<UnresolvedRelation>, missing: seq<FieldKey>)
    requires fk !in upto && LeftoversScanned(sc, g, upto, unresolved, missing)
    ensures LeftoversScanned(sc, g, upto[fk := 0], unresolved, missing)
  {
    assert forall i, lk :: i < 0 ==> !DanglesAt(sc, g, fk, lk, i);
    assert forall i :: i < 0 ==> !LacksAt(sc, g, fk, i) && !ClashesAt(sc, g, fk, i);
  }

  /** What one more pointer adds to the unresolved list. */
  lemma {:induction false} UnresolvedStep(sc: Schema, g: Graph, upto: Progress, fk: FieldKey, unresolved: seq<UnresolvedRelation>)
    requires HasField(sc, g, fk) && fk in upto && upto[fk] < |RefsAt(sc, g, fk)|
    requires UnresolvedScanned(sc, g, upto, unresolved)
    ensures var spec, next, pointer := SpecOf(sc, fk), upto[fk := upto[fk] + 1], RefsAt(sc, g, fk)[upto[fk]];
            var dangles := pointer.Some? && Resolve(g, Lookup(spec, pointer.value)) == Missing;
            UnresolvedScanned(sc, g, next,
              if dangles then unresolved + [Unresolved(fk, Lookup(spec, pointer.value))] else unresolved)
  {
    var spec, i := SpecOf(sc, fk), upto[fk];
    var next, pointer := upto[fk := i + 1], RefsAt(sc, g, fk)[i];
    var dangles := pointer.Some? && Resolve(g, Lookup(spec, pointer.value)) == Missing;
    var unresolved' := if dangles then unresolved + [Unresolved(fk, Lookup(spec, pointer.value))] else unresolved;
    forall lk ensures DanglesAt(sc, g, fk, lk, i) <==> dangles && lk == Lookup(spec, pointer.value) {
    }
    hide DanglesAt, Resolve, RefsAt, Declares;
    forall u ensures u in unresolved' <==>
                     u.field in next && exists j :: j < next[u.field] && DanglesAt(sc, g, u.field, u.lookup, j)
    {
      if u.field == fk {
        assert (exists j :: j < i + 1 && DanglesAt(sc, g, fk, u.lookup, j)) <==>
               DanglesAt(sc, g, fk, u.lookup, i) || exists j :: j < i && DanglesAt(sc, g, fk, u.lookup, j);
      }
    }
  }

  /** What one more pointer adds to the missing list, and that it is not ambiguous. */
  lemma {:induction false} LeftoverStep(sc: Schema, g: Graph, upto: Progress, fk: FieldKey,
                     unresolved: seq<UnresolvedRelation>, missing: seq<FieldKey>)
    requires HasField(sc, g, fk) && fk in upto && upto[fk] < |RefsAt(sc, g, fk)|
    requires LeftoversScanned(sc, g, upto, unresolved, missing) && !ClashesAt(sc, g, fk, upto[fk])
    ensures var spec, next, pointer := SpecOf(sc, fk), upto[fk := upto[fk] + 1], RefsAt(sc, g, fk)[upto[fk]];
            var dangles := pointer.Some? && Resolve(g, Lookup(spec, pointer.value)) == Missing;
            var lacks := !spec.MayBeMissing() && Target(g, spec, pointer) == None;
            LeftoversScanned(sc, g, next,
              if dangles then unresolved + [Unresolved(fk, Lookup(spec, pointer.value))] else unresolved,
              if lacks then missing + [fk] else missing)
  {
    var spec, i := SpecOf(sc, fk), upto[fk];
    var next, pointer := upto[fk := i + 1], RefsAt(sc, g, fk)[i];
    UnresolvedStep(sc, g, upto, fk, unresolved);
    assert LacksAt(sc, g, fk, i) <==> !spec.MayBeMissing() && Target(g, spec, pointer) == None;
    hide UnresolvedScanned, LacksAt, ClashesAt, Resolve, Target, RefsAt, Declares;
    assert (exists j :: j < i + 1 && LacksAt(sc, g, fk, j)) <==>
           LacksAt(sc, g, fk, i) || exists j :: j < i && LacksAt(sc, g, fk, j);
  }

  /** What the target index says about a pointer is what the graph says. */
  lemma {:induction false} PointerResolves(sc: Schema, g: Graph, tf: TargetFields, targets: TargetIndex, fk: FieldKey, i: nat)
    requires Covers(sc, g, tf) && TargetIndexExact(g, tf, targets)
    requires HasField(sc, g, fk) && i < |RefsAt(sc, g, fk)|
    ensures var spec, pointer := SpecOf(sc, fk), RefsAt(sc, g, fk)[i];
            var resolution := if pointer == None then Missing else LookupIn(targets, Lookup(spec, pointer.value));
            && (pointer.Some? ==> resolution == Resolve(g, Lookup(spec, pointer.value)))
            && (resolution == Clash <==> ClashesAt(sc, g, fk, i))
            && Target(g, spec, pointer) == if resolution.Found? then Some(resolution.key) else None
  {
    var spec, pointer := SpecOf(sc, fk), RefsAt(sc, g, fk)[i];
    if pointer.Some? {
      LookupResolves(g, tf, targets, Lookup(spec, pointer.value));
    }
  }

  lemma {:induction false} ClashIsUnscannable(sc: Schema, g: Graph, fk: FieldKey, i: nat)
    requires ClashesAt(sc, g, fk, i)
    ensures Unscannable(sc, g, fk)
  {
  }

  lemma {:induction false} RepeatedChild(sc: Schema, g: Graph, fk: FieldKey, i: nat, prefix: seq<NodeKey>)
    requires ScannedTo(sc, g, fk, i, prefix) && i < |RefsAt(sc, g, fk)| && SpecOf(sc, fk).kind == Own
    requires Target(g, SpecOf(sc, fk), RefsAt(sc, g, fk)[i]).Some?
    requires Target(g, SpecOf(sc, fk), RefsAt(sc, g, fk)[i]).value in prefix
    ensures Unscannable(sc, g, fk)
  {
    var spec, refs := SpecOf(sc, fk), RefsAt(sc, g, fk);
    TargetsStep(g, spec, refs, i);
    TargetsPrefix(g, spec, refs, i + 1);
    var all := Targets(g, spec, refs);
    var p :| 0 <= p < |prefix| && prefix[p] == Target(g, spec, refs[i]).value;
    assert all[p] == all[|prefix|] && p < |prefix| < |all|;
  }

  lemma {:induction false} TargetsPrefix(g: Graph, spec: Spec, refs: seq<Option<Value>>, n: nat)
    requires n <= |refs|
    ensures Targets(g, spec, refs[..n]) <= Targets(g, spec, refs)
  {
    if n == |refs| {
      assert refs[..n] == refs;
    } else {
      TargetsPrefix(g, spec, refs[..|refs| - 1], n);
      assert refs[..|refs| - 1][..n] == refs[..n];
    }
  }

  // ---------------------------------------------------------------- the full build

  ghost predicate UnresolvedExact(sc: Schema, g: Graph, unresolved: seq<UnresolvedRelation>) {
    forall u :: u in unresolved <==> exists i :: DanglesAt(sc, g, u.field, u.lookup, i)
  }

  ghost predicate MissingExact(sc: Schema, g: Graph, missing: seq<FieldKey>) {
    forall fk :: fk in missing <==> Lacks(sc, g, fk)
  }

  ghost predicate ModelSound(sc: Schema, g: Graph, fields: Fields, refs: seq<ResolvedRelation>, missing: seq<FieldKey>,
                             owners: Owners, outgoing: map<NodeKey, seq<NodeKey>>)
  {
    && FieldsExact(sc, g, fields) && RefsMatch(fields, refs) && MissingExact(sc, g, missing)
    && (forall fk :: !Unscannable(sc, g, fk))
    && ForestLegal(sc, fields, owners) && OutgoingExact(owners, outgoing)
  }

  /** The nodes in `done` have been scanned, each completely. */
  ghost predicate ScannedNodes(sc: Schema, g: Graph, done: set<NodeKey>, upto: Progress, fields: Fields, tallied: Fields) {
    && (forall fk :: fk in upto <==> HasField(sc, g, fk) && fk.holder in done)
    && (forall fk :: fk in upto ==> upto[fk] == |RefsAt(sc, g, fk)|)
    && upto.Keys == fields.Keys && tallied == fields
  }

  lemma {:induction false} NodeScanned(sc: Schema, g: Graph, done: set<NodeKey>, key: NodeKey,
                    upto0: Progress, fields0: Fields, tallied0: Fields, upto: Progress, fields: Fields, tallied: Fields)
    requires ScannedNodes(sc, g, done, upto0, fields0, tallied0) && key in g && key !in done
    requires var all := FieldsOfType(sc, key.typ);
             && GrownBy(sc, key, all, upto0, upto) && GrownBy(sc, key, all, fields0, fields)
             && GrownBy(sc, key, all, tallied0, tallied) && FullyScanned(sc, g, key, upto, fields, tallied)
    ensures ScannedNodes(sc, g, done + {key}, upto, fields, tallied)
  {
    forall fk ensures fk in upto <==> HasField(sc, g, fk) && fk.holder in done + {key} {
    }
    assert upto.Keys == fields.Keys && tallied.Keys == fields.Keys;
    forall fk | fk in fields ensures tallied[fk] == fields[fk] && upto[fk] == |RefsAt(sc, g, fk)| {
      if fk in fields0 {
        assert fk in tallied0 && fk in upto0;
      }
    }
  }

  lemma {:induction false} AllScanned(sc: Schema, g: Graph, upto: Progress, fields: Fields, tallied: Fields, refs: seq<ResolvedRelation>,
                   unresolved: seq<UnresolvedRelation>, missing: seq<FieldKey>)
    requires ScannedNodes(sc, g, g.Keys, upto, fields, tallied) && OwnSlicesDistinct(sc, fields)
    requires FieldsUpto(sc, g, upto, fields) && LeftoversScanned(sc, g, upto, unresolved, missing)
    ensures FieldsExact(sc, g, fields)
    ensures UnresolvedExact(sc, g, unresolved) && MissingExact(sc, g, missing)
    ensures forall fk :: !Unscannable(sc, g, fk)
  {
    forall fk | fk in fields ensures HasField(sc, g, fk) && fields[fk] == TargetsAt(sc, g, fk) {
      assert ScannedTo(sc, g, fk, upto[fk], fields[fk]);
      assert RefsAt(sc, g, fk)[..upto[fk]] == RefsAt(sc, g, fk);
    }
    forall u ensures u in unresolved <==> exists i :: DanglesAt(sc, g, u.field, u.lookup, i) {
      if i :| DanglesAt(sc, g, u.field, u.lookup, i) {
        assert i < upto[u.field];
      }
    }
    forall fk ensures fk in missing <==> Lacks(sc, g, fk) {
      if i :| LacksAt(sc, g, fk, i) {
        assert i < upto[fk];
      }
    }
    forall fk ensures !Unscannable(sc, g, fk) {
      if HasField(sc, g, fk) {
        assert fk in upto;
        forall i ensures !ClashesAt(sc, g, fk, i) {
        }
      }
    }
  }

  datatype RelationError = InvalidField | InvalidOwnership | OwnershipCycle | RequiredMissing | DeleteRestricted | UnknownNode

  /** The model of a whole graph, or the reason there is none. */
  method BuildRelationModelFromTargets(sc: Schema, nodes: Graph, targets: TargetIndex, targetFields: TargetFields)
    returns (r: Result<RelationModel, RelationError>)
    requires WellFormed(sc) && Covers(sc, nodes, targetFields) && TargetIndexExact(nodes, targetFields, targets)
    ensures r.Ok? <==> Buildable(sc, nodes)
    ensures r.Ok? ==> fresh(r.value) && r.value.sc == sc && r.value.nodes == nodes && r.value.targets == targets
                      && r.value.targetFields == targetFields && r.value.Exact()
  {
    hide *;
    var model := new RelationModel(sc, nodes, targets, targetFields);
    var incoming: Incoming, ownedBy: map<NodeKey, NodeKey> := map[], map[];
    GroundedNew(model);
    NothingRecorded(model);
    var rest := nodes.Keys;
    ghost var done: set<NodeKey> := {};
    while rest != {}
      invariant fresh(model) && done == nodes.Keys - rest && rest <= nodes.Keys && model.owners == map[] && model.outgoing == map[]
      invariant model.Grounded() && model.Recorded() && TalliesExact(sc, model.tallied, incoming, ownedBy)
      invariant ScannedNodes(sc, nodes, done, model.upto, model.fields, model.tallied) && model.carried == map[] && model.taken == []
      decreases |rest|
    {
      var key :| key in rest;
      NotYetScanned(sc, nodes, done, key, model.upto, model.fields, model.tallied);
      ghost var upto0, fields0, tallied0 := model.upto, model.fields, model.tallied;
      var ok: bool;
      ok, incoming, ownedBy := model.ScanNodeRelations(key, incoming, ownedBy);
      if !ok {
        ghost var fk: FieldKey :| fk.holder == key && Unscannable(sc, nodes, fk);
        UnscannableUnbuildable(sc, nodes);
        return Err(InvalidField);
      }
      NodeScanned(sc, nodes, done, key, upto0, fields0, tallied0, model.upto, model.fields, model.tallied);
      done, rest := done + {key}, rest - {key};
    }
    assert done == nodes.Keys;
    ScanComplete(model, incoming, ownedBy);
    r := FinishModel(model, incoming, ownedBy);
  }

  lemma {:induction false} GroundedNew(model: RelationModel)
    requires WellFormed(model.sc) && Covers(model.sc, model.nodes, model.targetFields)
    requires TargetIndexExact(model.nodes, model.targetFields, model.targets)
    ensures model.Grounded()
  {
  }

  lemma {:induction false} NothingRecorded(model: RelationModel)
    requires model.Grounded() && model.refs == [] && model.unresolved == [] && model.missing == []
    requires model.upto == map[] && model.fields == map[] && model.tallied == map[] && model.carried == map[] && model.taken == []
    ensures model.Recorded() && TalliesExact(model.sc, model.tallied, map[], map[])
    ensures ScannedNodes(model.sc, model.nodes, {}, model.upto, model.fields, model.tallied)
  {
  }

  lemma {:induction false} NotYetScanned(sc: Schema, g: Graph, done: set<NodeKey>, key: NodeKey, upto: Progress, fields: Fields, tallied: Fields)
    requires ScannedNodes(sc, g, done, upto, fields, tallied) && key !in done
    ensures forall fk :: fk in upto || fk in fields || fk in tallied ==> fk.holder != key
  {
    forall fk | fk in upto || fk in fields || fk in tallied ensures fk.holder != key {
      assert fk in upto;
    }
  }

  lemma {:induction false} UnscannableUnbuildable(sc: Schema, g: Graph)
    requires exists fk :: Unscannable(sc, g, fk)
    ensures !Buildable(sc, g)
  {
  }

  lemma {:induction false} ScanComplete(model: RelationModel, incoming: Incoming, ownedBy: map<NodeKey, NodeKey>)
    requires model.Recorded() && TalliesExact(model.sc, model.tallied, incoming, ownedBy)
    requires ScannedNodes(model.sc, model.nodes, model.nodes.Keys, model.upto, model.fields, model.tallied)
    requires model.carried == map[] && model.taken == []
    ensures TalliesExact(model.sc, model.fields, incoming, ownedBy)
    ensures FieldsExact(model.sc, model.nodes, model.fields) && RefsMatch(model.fields, model.refs)
    ensures UnresolvedExact(model.sc, model.nodes, model.unresolved) && MissingExact(model.sc, model.nodes, model.missing)
    ensures forall fk :: !Unscannable(model.sc, model.nodes, fk)
  {
    assert model.carried + model.fields == model.fields && model.unresolved[0..] == model.unresolved;
    AllScanned(model.sc, model.nodes, model.upto, model.fields, model.tallied, model.refs, model.unresolved, model.missing);
  }

  /** Owners of the children in `done` are decided, nobody else has one yet. */
  ghost predicate OwnersDecided(sc: Schema, fields: Fields, done: set<NodeKey>, owners: Owners) {
    forall c, o :: OwnerOf(owners, c) == Some(o) <==> c in done && IsOwner(sc, fields, c, o)
  }

  lemma {:induction false} DecideOne(sc: Schema, fields: Fields, done: set<NodeKey>, before: Owners, after: Owners, child: NodeKey)
    requires OwnersDecided(sc, fields, done, before) && child !in done
    requires forall o :: OwnerOf(after, child) == Some(o) <==> IsOwner(sc, fields, child, o)
    requires forall c :: c != child ==> OwnerOf(after, c) == OwnerOf(before, c)
    ensures OwnersDecided(sc, fields, done + {child}, after)
  {
  }

  lemma {:induction false} Undecided(sc: Schema, fields: Fields, done: set<NodeKey>, owners: Owners, child: NodeKey)
    requires OwnersDecided(sc, fields, done, owners) && child !in done
    ensures child !in owners
  {
    assert forall o :: OwnerOf(owners, child) != Some(o);
  }

  lemma {:induction false} OutsiderUnowned(sc: Schema, g: Graph, fields: Fields, child: NodeKey, fk: FieldKey)
    requires FieldsExact(sc, g, fields) && child !in g
    ensures !OwnVia(sc, fields, fk, child)
  {
    if fk in fields {
      TargetsMember(g, SpecOf(sc, fk), RefsAt(sc, g, fk), child);
    }
  }

  lemma {:induction false} HolderIsNode(sc: Schema, g: Graph, fields: Fields, fk: FieldKey)
    requires FieldsExact(sc, g, fields) && fk in fields
    ensures fk.holder in g
  {
    assert HasField(sc, g, fk);
  }

  lemma {:induction false} OwnedIsNode(sc: Schema, g: Graph, fields: Fields, c: NodeKey, o: NodeKey)
    requires FieldsExact(sc, g, fields) && IsOwner(sc, fields, c, o)
    ensures c in g
  {
    hide FieldsExact;
    if c !in g {
      forall fk ensures !OwnVia(sc, fields, fk, c) {
        OutsiderUnowned(sc, g, fields, c, fk);
      }
      var fk: FieldKey :| fk.holder == c && BackVia(sc, fields, fk, o);
      HolderIsNode(sc, g, fields, fk);
    }
  }

  /** Only nodes of the graph can be owned or own. */
  lemma {:induction false} OwnersAreNodes(sc: Schema, g: Graph, fields: Fields, owners: Owners, done: set<NodeKey>)
    requires FieldsExact(sc, g, fields) && OwnersDecided(sc, fields, done, owners)
    ensures owners.Keys <= g.Keys
    ensures g.Keys <= done ==> OwnersExact(sc, fields, owners)
  {
    hide FieldsExact, IsOwner;
    forall c, o | IsOwner(sc, fields, c, o) ensures c in g {
      OwnedIsNode(sc, g, fields, c, o);
    }
    forall c | c in owners ensures c in g {
      assert OwnerOf(owners, c) == Some(owners[c]);
    }
  }

  lemma {:induction false} ForestDecides(sc: Schema, g: Graph, fields: Fields, owners: Owners)
    requires FieldsExact(sc, g, fields) && OwnersExact(sc, fields, owners)
    requires OneOwner(sc, fields) && Agree(sc, fields) && forall fk :: !Unscannable(sc, g, fk)
    ensures Buildable(sc, g) <==> Acyclic(owners)
  {
    forall fields', owners' | FieldsExact(sc, g, fields') && ForestLegal(sc, fields', owners')
      ensures fields' == fields && owners' == owners
    {
      FieldsUnique(sc, g, fields, fields');
      OwnersUnique(sc, fields, owners, owners');
    }
    assert Acyclic(owners) ==> ForestLegal(sc, fields, owners);
  }

  lemma {:induction false} ChildRefuses(sc: Schema, g: Graph, fields: Fields, child: NodeKey)
    requires FieldsExact(sc, g, fields) && !(OneOwnerAt(sc, fields, child) && AgreeAt(sc, fields, child))
    ensures !Buildable(sc, g)
  {
    forall fields', owners' | FieldsExact(sc, g, fields') && ForestLegal(sc, fields', owners') ensures false {
      FieldsUnique(sc, g, fields, fields');
      ForestByChild(sc, fields);
    }
  }

  /** Keys outside the graph cannot break the forest rules. */
  lemma {:induction false} OutsidersAgree(sc: Schema, g: Graph, fields: Fields)
    requires FieldsExact(sc, g, fields)
    requires forall c :: c in g ==> OneOwnerAt(sc, fields, c) && AgreeAt(sc, fields, c)
    ensures OneOwner(sc, fields) && Agree(sc, fields)
  {
    hide FieldsExact, BackTo;
    forall c ensures OneOwnerAt(sc, fields, c) && AgreeAt(sc, fields, c) {
      if c !in g {
        forall fk ensures !OwnVia(sc, fields, fk, c) {
          OutsiderUnowned(sc, g, fields, c, fk);
        }
      }
    }
    ForestByChild(sc, fields);
  }

  /** Attach every owner, then look for cycles. */
  method FinishModel(model: RelationModel, incoming: Incoming, ownedBy: map<NodeKey, NodeKey>)
    returns (r: Result<RelationModel, RelationError>)
    requires model.Grounded() && TalliesExact(model.sc, model.fields, incoming, ownedBy)
    requires FieldsExact(model.sc, model.nodes, model.fields) && RefsMatch(model.fields, model.refs)
    requires UnresolvedExact(model.sc, model.nodes, model.unresolved) && MissingExact(model.sc, model.nodes, model.missing)
    requires forall fk :: !Unscannable(model.sc, model.nodes, fk)
    requires model.owners == map[] && model.outgoing == map[]
    modifies model`owners, model`outgoing
    ensures r.Ok? <==> Buildable(model.sc, model.nodes)
    ensures r.Ok? ==> r.value == model && model.Exact()
  {
    hide *;
    var rest := model.nodes.Keys;
    NobodyDecided(model.sc, model.fields);
    assert model.nodes.Keys - rest == {};
    while rest != {}
      invariant rest <= model.nodes.Keys
      invariant OwnersDecided(model.sc, model.fields, model.nodes.Keys - rest, model.owners)
      invariant OutgoingExact(model.owners, model.outgoing)
      invariant forall c :: c in model.nodes.Keys - rest ==> OneOwnerAt(model.sc, model.fields, c) && AgreeAt(model.sc, model.fields, c)
      decreases |rest|
    {
      var child :| child in rest;
      ghost var done := model.nodes.Keys - rest;
      TallyOf(model.sc, model.fields, incoming, ownedBy, child);
      Undecided(model.sc, model.fields, done, model.owners, child);
      ghost var before := model.owners;
      var ok := model.AttachNodeOwner(child, OwnsOf(incoming, child),
                                      if child in ownedBy then Some(ownedBy[child]) else None, model.fields);
      if !ok {
        ChildRefuses(model.sc, model.nodes, model.fields, child);
        return Err(InvalidOwnership);
      }
      DecideOne(model.sc, model.fields, done, before, model.owners, child);
      assert model.nodes.Keys - (rest - {child}) == done + {child};
      rest := rest - {child};
    }
    assert model.nodes.Keys - rest == model.nodes.Keys;
    OwnersAreNodes(model.sc, model.nodes, model.fields, model.owners, model.nodes.Keys);
    OutsidersAgree(model.sc, model.nodes, model.fields);
    ForestDecides(model.sc, model.nodes, model.fields, model.owners);
    var ok := ValidateOwnershipCycles(model.owners, model.nodes.Keys);
    if !ok {
      return Err(OwnershipCycle);
    }
    ModelComplete(model);
    r := Ok(model);
  }

  lemma {:induction false} NobodyDecided(sc: Schema, fields: Fields)
    ensures OwnersDecided(sc, fields, {}, map[]) && OutgoingExact(map[], map[])
  {
  }

  lemma {:induction false} TallyOf(sc: Schema, fields: Fields, incoming: Incoming, ownedBy: map<NodeKey, NodeKey>, child: NodeKey)
    requires TalliesExact(sc, fields, incoming, ownedBy)
    ensures OwnTally(sc, fields, child, OwnsOf(incoming, child))
    ensures BackTally(sc, fields, child, if child in ownedBy then Some(ownedBy[child]) else None)
  {
  }

  lemma {:induction false} ModelComplete(model: RelationModel)
    requires model.Grounded() && FieldsExact(model.sc, model.nodes, model.fields) && RefsMatch(model.fields, model.refs)
    requires UnresolvedExact(model.sc, model.nodes, model.unresolved) && MissingExact(model.sc, model.nodes, model.missing)
    requires forall fk :: !Unscannable(model.sc, model.nodes, fk)
    requires OneOwner(model.sc, model.fields) && Agree(model.sc, model.fields)
    requires OwnersExact(model.sc, model.fields, model.owners) && Acyclic(model.owners)
    requires OutgoingExact(model.owners, model.outgoing)
    ensures model.Exact()
  {
  }

  lemma {:induction false} ExactIs(model: RelationModel)
    ensures model.Exact() <==> model.Sound() && UnresolvedExact(model.sc, model.nodes, model.unresolved)
  {
  }

  lemma {:induction false} SoundIsReadable(model: RelationModel)
    requires model.Sound()
    ensures model.Readable()
  {
    hide FieldsExact, RefsMatch, OutgoingExact, Acyclic, OneOwner, Agree, Unscannable, Lacks;
    OwnersAreNodes(model.sc, model.nodes, model.fields, model.owners, model.nodes.Keys + model.owners.Keys);
  }

  /** Required pointers of survivors must be live. */
  method ValidateRequiredRelations(model: RelationModel, deleted: set<NodeKey>) returns (ok: bool)
    ensures ok <==> forall fk :: fk in model.missing ==> fk.holder in deleted
    ensures model.Sound() ==> (ok <==> forall fk :: Lacks(model.sc, model.nodes, fk) ==> fk.holder in deleted)
  {
    hide *;
    if model.Sound() {
      MissingListed(model);
    }
    ok := true;
    var index := 0;
    while index < |model.missing|
      invariant 0 <= index <= |model.missing|
      invariant forall i :: 0 <= i < index ==> model.missing[i].holder in deleted
    {
      if model.missing[index].holder !in deleted {
        assert model.missing[index] in model.missing;
        return false;
      }
      index := index + 1;
    }
  }

  lemma {:induction false} MissingListed(model: RelationModel)
    requires model.Sound()
    ensures forall fk :: fk in model.missing <==> Lacks(model.sc, model.nodes, fk)
  {
  }
}
