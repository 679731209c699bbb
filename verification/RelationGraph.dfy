/** The live rows, what their relation fields mean, and which graphs a commit may publish. */
module RelationGraph {
  import opened RelationSchema
  import opened Wrappers
  import opened Ordering
  import opened OwnershipForest
  import opened OwnershipWalks

  /** A live row: non-zero scalars by name, the lookup value behind every relation pointer
      (`None` for nil or a zero key), and the computed inverse views. */
  datatype Row = Row(scalars: map<string, Value>, links: map<nat, seq<Option<Value>>>, views: map<nat, seq<NodeKey>>)

  type Graph = map<NodeKey, Row>

  function LinkAt(row: Row, field: nat): seq<Option<Value>> {
    if field in row.links then row.links[field] else []
  }

  /** The pointers of one relation field: a slice as it stands, a to-one field as one pointer. */
  function Refs(row: Row, spec: Spec, field: nat): seq<Option<Value>> {
    var held := LinkAt(row, field);
    if spec.many then held else if held == [] then [None] else held[..1]
  }

  function Lookup(spec: Spec, value: Value): TargetKey {
    TargetKey(spec.target, spec.LookupField(), value)
  }

  // ---------------------------------------------------------------- resolution

  predicate Bears(g: Graph, k: NodeKey, lk: TargetKey) {
    k in g && k.typ == lk.typ && lk.field in g[k].scalars && g[k].scalars[lk.field] == lk.value
  }

  ghost predicate Sole(g: Graph, k: NodeKey, lk: TargetKey) {
    Bears(g, k, lk) && forall j :: Bears(g, j, lk) ==> j == k
  }

  datatype Resolution = Missing | Found(key: NodeKey) | Clash

  ghost function Resolve(g: Graph, lk: TargetKey): Resolution {
    if k :| Sole(g, k, lk) then Found(k)
    else if k :| Bears(g, k, lk) then Clash
    else Missing
  }

  ghost function Target(g: Graph, spec: Spec, ref: Option<Value>): Option<NodeKey> {
    if ref.Some? && Resolve(g, Lookup(spec, ref.value)).Found?
    then Some(Resolve(g, Lookup(spec, ref.value)).key) else None
  }

  /** The live targets of a field, in order; pointers without one are skipped. */
  ghost function Targets(g: Graph, spec: Spec, refs: seq<Option<Value>>): seq<NodeKey> {
    if refs == [] then []
    else
      var last := |refs| - 1;
      Targets(g, spec, refs[..last]) + match Target(g, spec, refs[last]) case Some(k) => [k] case None => []
  }

  lemma {:induction false} TargetsStep(g: Graph, spec: Spec, refs: seq<Option<Value>>, i: nat)
    requires i < |refs|
    ensures Targets(g, spec, refs[..i + 1]) ==
            Targets(g, spec, refs[..i]) + match Target(g, spec, refs[i]) case Some(k) => [k] case None => []
  {
    assert refs[..i + 1][..i] == refs[..i];
  }

  lemma {:induction false} TargetsMember(g: Graph, spec: Spec, refs: seq<Option<Value>>, k: NodeKey)
    ensures k in Targets(g, spec, refs) <==> exists i :: 0 <= i < |refs| && Target(g, spec, refs[i]) == Some(k)
  {
    if refs != [] {
      var last := |refs| - 1;
      TargetsMember(g, spec, refs[..last], k);
      if i :| 0 <= i < |refs| && Target(g, spec, refs[i]) == Some(k) {
        if i < last {
          assert refs[..last][i] == refs[i];
        }
      }
    }
  }

  lemma {:induction false} TargetsSame(g: Graph, h: Graph, spec: Spec, refs: seq<Option<Value>>)
    requires forall i :: 0 <= i < |refs| ==> Target(g, spec, refs[i]) == Target(h, spec, refs[i])
    ensures Targets(g, spec, refs) == Targets(h, spec, refs)
  {
    if refs != [] {
      TargetsSame(g, h, spec, refs[..|refs| - 1]);
    }
  }

  lemma {:induction false} TargetsShort(g: Graph, spec: Spec, refs: seq<Option<Value>>)
    ensures |Targets(g, spec, refs)| <= |refs|
  {
    if refs != [] {
      TargetsShort(g, spec, refs[..|refs| - 1]);
    }
  }

  lemma {:induction false} TargetBears(g: Graph, spec: Spec, ref: Option<Value>)
    requires Target(g, spec, ref).Some?
    ensures Sole(g, Target(g, spec, ref).value, Lookup(spec, ref.value))
  {
  }

  // ---------------------------------------------------------------- relation fields

  type Fields = map<FieldKey, seq<NodeKey>>

  predicate HasField(sc: Schema, g: Graph, fk: FieldKey) {
    fk.holder in g && Declares(sc, fk.holder.typ, fk.field)
  }

  function SpecOf(sc: Schema, fk: FieldKey): Spec
    requires Declares(sc, fk.holder.typ, fk.field)
  {
    sc[fk.holder.typ][fk.field]
  }

  function RefsAt(sc: Schema, g: Graph, fk: FieldKey): seq<Option<Value>>
    requires HasField(sc, g, fk)
  {
    Refs(g[fk.holder], SpecOf(sc, fk), fk.field)
  }

  ghost function TargetsAt(sc: Schema, g: Graph, fk: FieldKey): seq<NodeKey>
    requires HasField(sc, g, fk)
  {
    Targets(g, SpecOf(sc, fk), RefsAt(sc, g, fk))
  }

  ghost predicate FieldsExact(sc: Schema, g: Graph, fields: Fields) {
    && (forall fk :: fk in fields <==> HasField(sc, g, fk))
    && (forall fk :: fk in fields ==> fields[fk] == TargetsAt(sc, g, fk))
  }

  /** One field passes validation: nothing ambiguous, required pointers live, no child owned twice. */
  ghost predicate FieldLegal(sc: Schema, g: Graph, fk: FieldKey)
    requires HasField(sc, g, fk)
  {
    var spec, refs := SpecOf(sc, fk), RefsAt(sc, g, fk);
    && (forall i :: 0 <= i < |refs| ==> RefLegal(g, spec, refs[i]))
    && (spec.kind == Own ==> Distinct(TargetsAt(sc, g, fk)))
  }

  ghost predicate RefLegal(g: Graph, spec: Spec, ref: Option<Value>) {
    && (ref.Some? ==> Resolve(g, Lookup(spec, ref.value)) != Clash)
    && (!spec.MayBeMissing() ==> Target(g, spec, ref).Some?)
  }

  ghost predicate LegalRefs(sc: Schema, g: Graph) {
    forall fk :: HasField(sc, g, fk) ==> FieldLegal(sc, g, fk)
  }

  // ---------------------------------------------------------------- ownership

  /** Field `fk` is an own field that lists `child`. */
  predicate OwnVia(sc: Schema, fields: Fields, fk: FieldKey, child: NodeKey) {
    fk in fields && IsOwn(sc, fk.holder.typ, fk.field) && child in fields[fk]
  }

  /** `child` names `owner` through its own ownedby field. */
  predicate BackVia(sc: Schema, fields: Fields, fk: FieldKey, owner: NodeKey) {
    fk in fields && IsOwnedBy(sc, fk.holder.typ, fk.field) && fields[fk] == [owner]
  }

  ghost predicate Owned(sc: Schema, fields: Fields, child: NodeKey) {
    exists fk :: OwnVia(sc, fields, fk, child)
  }

  /** The own side decides; the ownedby side speaks only when no own field lists the child. */
  ghost predicate IsOwner(sc: Schema, fields: Fields, child: NodeKey, owner: NodeKey) {
    || (exists fk :: OwnVia(sc, fields, fk, child) && fk.holder == owner)
    || (!Owned(sc, fields, child) && exists fk: FieldKey :: fk.holder == child && BackVia(sc, fields, fk, owner))
  }

  ghost predicate OwnersExact(sc: Schema, fields: Fields, owners: Owners) {
    forall c, o :: OwnerOf(owners, c) == Some(o) <==> IsOwner(sc, fields, c, o)
  }

  ghost predicate OneOwner(sc: Schema, fields: Fields) {
    forall fk, fk', c :: OwnVia(sc, fields, fk, c) && OwnVia(sc, fields, fk', c) ==> fk == fk'
  }

  ghost predicate Agree(sc: Schema, fields: Fields) {
    forall fk, bk, o :: BackVia(sc, fields, bk, o) && OwnVia(sc, fields, fk, bk.holder) ==> fk.holder == o
  }

  ghost predicate OwnSlicesDistinct(sc: Schema, fields: Fields) {
    forall fk :: fk in fields && IsOwn(sc, fk.holder.typ, fk.field) ==> Distinct(fields[fk])
  }

  /** At most one owner, both ends agree, no cycle. */
  ghost predicate ForestLegal(sc: Schema, fields: Fields, owners: Owners) {
    && OneOwner(sc, fields) && Agree(sc, fields)
    && OwnersExact(sc, fields, owners) && Acyclic(owners)
  }

  /** The final-state rules: exactly the graphs the full validator accepts. */
  ghost predicate Legal(sc: Schema, g: Graph) {
    LegalRefs(sc, g) && exists fields, owners :: FieldsExact(sc, g, fields) && ForestLegal(sc, fields, owners)
  }

  lemma {:induction false} FieldsUnique(sc: Schema, g: Graph, a: Fields, b: Fields)
    requires FieldsExact(sc, g, a) && FieldsExact(sc, g, b)
    ensures a == b
  {
    assert forall fk :: (fk in a <==> HasField(sc, g, fk)) && (fk in b <==> HasField(sc, g, fk));
    assert a.Keys == b.Keys;
  }

  lemma {:induction false} OwnersUnique(sc: Schema, fields: Fields, a: Owners, b: Owners)
    requires OwnersExact(sc, fields, a) && OwnersExact(sc, fields, b)
    ensures a == b
  {
    forall c ensures (c in a <==> c in b) && (c in a ==> a[c] == b[c]) {
      if c in a { assert OwnerOf(a, c) == Some(a[c]); assert OwnerOf(b, c) == Some(a[c]); }
      if c in b { assert OwnerOf(b, c) == Some(b[c]); assert OwnerOf(a, c) == Some(b[c]); }
    }
  }

  // ---------------------------------------------------------------- the committed index, as values

  datatype IndexedTarget = IndexedTarget(key: NodeKey, duplicate: bool)

  type TargetIndex = map<TargetKey, IndexedTarget>

  /** Which fields of which type some declared relation looks targets up by. */
  type TargetFields = map<string, set<string>>

  predicate Searchable(tf: TargetFields, lk: TargetKey) {
    lk.typ in tf && lk.field in tf[lk.typ]
  }

  ghost predicate TargetFieldsExact(sc: Schema, g: Graph, tf: TargetFields) {
    forall lk: TargetKey :: Searchable(tf, lk) <==> exists fk :: LooksUp(sc, g, fk, lk)
  }

  /** Every lookup a declared field performs is one the target index covers. */
  ghost predicate Covers(sc: Schema, g: Graph, tf: TargetFields) {
    forall fk, v :: HasField(sc, g, fk) ==> Searchable(tf, Lookup(SpecOf(sc, fk), v))
  }

  ghost predicate LooksUp(sc: Schema, g: Graph, fk: FieldKey, lk: TargetKey) {
    HasField(sc, g, fk) && SpecOf(sc, fk).target == lk.typ && SpecOf(sc, fk).LookupField() == lk.field
  }

  /** Every searchable key some node bears is present, marked duplicate exactly when two nodes bear it. */
  ghost predicate TargetIndexExact(g: Graph, tf: TargetFields, targets: TargetIndex) {
    && (forall lk :: lk in targets <==> Searchable(tf, lk) && exists k :: Bears(g, k, lk))
    && (forall lk :: lk in targets ==> Bears(g, targets[lk].key, lk)
                                       && (targets[lk].duplicate <==> !Sole(g, targets[lk].key, lk)))
  }

  function LookupIn(targets: TargetIndex, lk: TargetKey): Resolution {
    if lk !in targets then Missing
    else if targets[lk].duplicate then Clash
    else Found(targets[lk].key)
  }

  lemma {:induction false} LookupResolves(g: Graph, tf: TargetFields, targets: TargetIndex, lk: TargetKey)
    requires TargetIndexExact(g, tf, targets) && Searchable(tf, lk)
    ensures LookupIn(targets, lk) == Resolve(g, lk)
  {
    if lk in targets {
      assert Bears(g, targets[lk].key, lk);
    }
  }

  /** How often `target` stands in field `fk`. */
  function Mult(fields: Fields, fk: FieldKey, target: NodeKey): nat {
    if fk in fields then multiset(fields[fk])[target] else 0
  }

  /** The incoming buckets by target; the buckets a node never had count as empty. */
  type Counts = map<NodeKey, multiset<FieldKey>>

  function CountIn(counts: Counts, target: NodeKey, fk: FieldKey): nat {
    if target in counts then counts[target][fk] else 0
  }

  /** The incoming index is the multiset transpose of the field targets. */
  ghost predicate Transposed(fields: Fields, counts: Counts) {
    forall t, fk :: CountIn(counts, t, fk) == Mult(fields, fk, t)
  }

  /** Everything the committed index keeps, with its buckets and child lists read as values. */
  datatype Image = Image(
    targetFields: TargetFields,
    targets: TargetIndex,
    fields: Fields,
    counts: Counts,
    owners: Owners,
    outgoing: map<NodeKey, seq<NodeKey>>)

  /** The index is what a rebuild from `g` produces. */
  ghost predicate Mirrors(sc: Schema, g: Graph, ix: Image) {
    && TargetFieldsExact(sc, g, ix.targetFields)
    && MirrorsWithin(sc, g, ix)
  }

  /** The same, for whatever set of searchable fields the index was built with. */
  ghost predicate MirrorsWithin(sc: Schema, g: Graph, ix: Image) {
    && TargetIndexExact(g, ix.targetFields, ix.targets)
    && FieldsExact(sc, g, ix.fields)
    && Transposed(ix.fields, ix.counts)
    && OwnersExact(sc, ix.fields, ix.owners)
    && OutgoingExact(ix.owners, ix.outgoing)
  }

  /** A published state: the graph is legal and the index is its index, for the lookup fields it was built with. */
  ghost predicate Committed(sc: Schema, g: Graph, ix: Image) {
    WellFormed(sc) && Legal(sc, g) && Covers(sc, g, ix.targetFields) && MirrorsWithin(sc, g, ix)
  }

  /** No difference the differential test would report: empty buckets and child order do not count. */
  ghost predicate SameIndex(a: Image, b: Image) {
    && (forall lk :: lk in a.targets <==> lk in b.targets)
    && (forall lk :: LookupIn(a.targets, lk) == LookupIn(b.targets, lk))
    && a.fields == b.fields
    && a.owners == b.owners
    && (forall t, fk :: CountIn(a.counts, t, fk) == CountIn(b.counts, t, fk))
    && (forall o, c :: c in ChildrenOf(a.outgoing, o) <==> c in ChildrenOf(b.outgoing, o))
  }

  /** A graph has one index: any two that mirror it agree, whichever path maintained them. */
  lemma {:induction false} MirrorsUnique(sc: Schema, g: Graph, a: Image, b: Image)
    requires Mirrors(sc, g, a) && Mirrors(sc, g, b)
    ensures SameIndex(a, b)
  {
    FieldsUnique(sc, g, a.fields, b.fields);
    OwnersUnique(sc, a.fields, a.owners, b.owners);
    forall lk: TargetKey ensures Searchable(a.targetFields, lk) <==> Searchable(b.targetFields, lk) {
      if Searchable(a.targetFields, lk) { assert exists fk :: LooksUp(sc, g, fk, lk); }
      if Searchable(b.targetFields, lk) { assert exists fk :: LooksUp(sc, g, fk, lk); }
    }
    forall lk ensures (lk in a.targets <==> lk in b.targets) && LookupIn(a.targets, lk) == LookupIn(b.targets, lk) {
      if Searchable(a.targetFields, lk) {
        LookupResolves(g, a.targetFields, a.targets, lk);
        LookupResolves(g, b.targetFields, b.targets, lk);
      }
    }
    forall o, c ensures c in ChildrenOf(a.outgoing, o) <==> c in ChildrenOf(b.outgoing, o) {
      assert c in ChildrenOf(a.outgoing, o) <==> OwnerOf(a.owners, c) == Some(o);
    }
  }

  // ---------------------------------------------------------------- inverse views

  /** `holder` points at `target` through the borrow or option field the view names. */
  predicate HoldsThrough(sc: Schema, fields: Fields, view: Spec, target: NodeKey, fk: FieldKey) {
    && fk in fields && Declares(sc, fk.holder.typ, fk.field)
    && fk.holder.typ == view.target && SpecOf(sc, fk).name == view.matchField
    && SpecOf(sc, fk).kind in {Borrow, Optional}
    && target in fields[fk]
  }

  /** The view lists each such holder once. */
  ghost predicate ViewExact(sc: Schema, fields: Fields, view: Spec, target: NodeKey, listed: seq<NodeKey>) {
    && Distinct(listed)
    && (forall h :: h in listed <==> exists fk: FieldKey :: fk.holder == h && HoldsThrough(sc, fields, view, target, fk))
  }

  ghost predicate ViewsExact(sc: Schema, g: Graph, fields: Fields) {
    forall k, f :: k in g && IsView(sc, k.typ, f) ==>
                     ViewExact(sc, fields, sc[k.typ][f], k, ViewAt(g[k], f))
  }

  function ViewAt(row: Row, field: nat): seq<NodeKey> {
    if field in row.views then row.views[field] else []
  }
}
