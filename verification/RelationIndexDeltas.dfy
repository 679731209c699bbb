/** Building an index delta: scan every touched holder against the proposed graph, judge the affected children,
    and say which graphs such a delta is enough to accept. */
module RelationIndexDeltas {
  import opened RelationSchema
  import opened Wrappers
  import opened Ordering
  import opened OwnershipForest
  import opened OwnershipWalks
  import opened RelationGraph
  import opened RelationModels
  import opened RelationFieldDeltas
  import opened RelationIndexes
  import opened RelationOverlays
  import opened RelationDeltas
  import opened RelationDeltaOwners
  import opened RelationScanOrder

  datatype IndexDelta = IndexDelta(
    created: Graph,
    targets: TargetIndex,
    fields: seq<FieldDelta>,
    owners: OwnerDelta,
    inverseTargets: set<NodeKey>)

  /** `Unsupported` sends the commit to a full rebuild; `Refused` rejects it. */
  datatype Outcome = Unsupported | Refused(error: RelationError) | Built(delta: IndexDelta)

  // ---------------------------------------------------------------- the scans of all proposed rows

  /** `s` is the scan of one field of the proposed row `o`. */
  ghost predicate ScanAt(sc: Schema, h: Graph, o: Override, s: FieldDelta) {
    && s.key.holder == o.key && Declares(sc, o.key.typ, s.key.field)
    && var refs := Refs(o.row, SpecOf(sc, s.key), s.key.field);
       ScanLegal(h, SpecOf(sc, s.key), refs) && s.targets == Targets(h, SpecOf(sc, s.key), refs)
  }

  ghost predicate ScannedField(sc: Schema, h: Graph, o: Override, field: nat, scans: seq<FieldDelta>) {
    exists j :: 0 <= j < |scans| && scans[j].key.field == field && ScanAt(sc, h, o, scans[j])
  }

  ghost predicate ScanOfOne(sc: Schema, h: Graph, overrides: seq<Override>, n: nat, done: set<nat>, s: FieldDelta) {
    exists i :: 0 <= i < |overrides| && (i < n || (i == n && s.key.field in done)) && ScanAt(sc, h, overrides[i], s)
  }

  predicate FieldDue(sc: Schema, overrides: seq<Override>, n: nat, done: set<nat>, i: nat, field: nat)
    requires i < |overrides|
  {
    if i == n then field in done else i < n && field in FieldsOfType(sc, overrides[i].key.typ)
  }

  /** The first `n` rows are scanned completely, and the fields `done` of the next one. */
  ghost predicate ScansOf(sc: Schema, h: Graph, overrides: seq<Override>, n: nat, done: set<nat>, scans: seq<FieldDelta>) {
    && (forall j :: 0 <= j < |scans| ==> ScanOfOne(sc, h, overrides, n, done, scans[j]))
    && (forall i, f :: 0 <= i < |overrides| && FieldDue(sc, overrides, n, done, i, f) ==>
          ScannedField(sc, h, overrides[i], f, scans))
    && (DistinctOverrides(overrides) ==> DistinctKeys(scans))
  }

  lemma {:induction false} ScansStep(sc: Schema, h: Graph, overrides: seq<Override>, n: nat, done: set<nat>,
                                     scans: seq<FieldDelta>, s: FieldDelta)
    requires ScansOf(sc, h, overrides, n, done, scans) && n < |overrides|
    requires ScanAt(sc, h, overrides[n], s) && s.key.field !in done
    ensures ScansOf(sc, h, overrides, n, done + {s.key.field}, scans + [s])
  {
    var done', scans' := done + {s.key.field}, scans + [s];
    forall j | 0 <= j < |scans'| ensures ScanOfOne(sc, h, overrides, n, done', scans'[j]) {
      if j < |scans| {
        assert ScanOfOne(sc, h, overrides, n, done, scans[j]);
      }
    }
    forall i, f | 0 <= i < |overrides| && FieldDue(sc, overrides, n, done', i, f)
      ensures ScannedField(sc, h, overrides[i], f, scans')
    {
      if i == n && f == s.key.field {
        assert scans'[|scans|] == s;
      } else {
        assert ScannedField(sc, h, overrides[i], f, scans);
        var j :| 0 <= j < |scans| && scans[j].key.field == f && ScanAt(sc, h, overrides[i], scans[j]);
        assert scans'[j] == scans[j];
      }
    }
    if DistinctOverrides(overrides) {
      forall j | 0 <= j < |scans| ensures scans[j].key != s.key {
        assert ScanOfOne(sc, h, overrides, n, done, scans[j]);
      }
    }
  }

  lemma {:induction false} ScansNext(sc: Schema, h: Graph, overrides: seq<Override>, n: nat, scans: seq<FieldDelta>)
    requires n < |overrides|
    requires ScansOf(sc, h, overrides, n, FieldsOfType(sc, overrides[n].key.typ), scans)
    ensures ScansOf(sc, h, overrides, n + 1, {}, scans)
  {
    forall j | 0 <= j < |scans| ensures ScanOfOne(sc, h, overrides, n + 1, {}, scans[j]) {
      assert ScanOfOne(sc, h, overrides, n, FieldsOfType(sc, overrides[n].key.typ), scans[j]);
    }
  }

  /** List one field and append its scan where the lookup points. */
  method RecordScan(deltas: RelationFieldDeltas, fk: FieldKey, targets: seq<NodeKey>, ghost scans: seq<FieldDelta>)
    requires deltas.Valid() && deltas.values == Accumulate(scans)
    modifies deltas
    ensures deltas.Valid() && deltas.values == Accumulate(scans + [FieldDelta(fk, targets)])
  {
    ghost var values := deltas.values;
    deltas.Add(fk, []);
    assert deltas.values[|values|].key == fk;
    var at := deltas.Find(fk);
    deltas.Append(at, targets);
    assert (scans + [FieldDelta(fk, targets)])[..|scans|] == scans;
  }

  /** What scanning needs to know about the proposed graph. */
  ghost predicate ScanReady(sc: Schema, h: Graph, tf: TargetFields, targets: TargetIndex, news: TargetIndex, overrides: seq<Override>) {
    && TargetIndexExact(h, tf, targets + news)
    && forall i, f :: 0 <= i < |overrides| && f in FieldsOfType(sc, overrides[i].key.typ) ==> Named(tf, sc[overrides[i].key.typ][f])
  }

  /** Some field of some proposed row does not pass its scan. */
  ghost predicate Unscanned(sc: Schema, h: Graph, overrides: seq<Override>) {
    exists i, f :: 0 <= i < |overrides| && UnscannedField(sc, h, overrides[i], f)
  }

  ghost predicate UnscannedField(sc: Schema, h: Graph, o: Override, f: nat) {
    f in FieldsOfType(sc, o.key.typ) && !ScanLegal(h, sc[o.key.typ][f], Refs(o.row, sc[o.key.typ][f], f))
  }

  lemma {:induction false} UnscannedAt(sc: Schema, h: Graph, overrides: seq<Override>, n: nat, f: nat)
    requires n < |overrides| && f in FieldsOfType(sc, overrides[n].key.typ)
    requires !ScanLegal(h, sc[overrides[n].key.typ][f], Refs(overrides[n].row, sc[overrides[n].key.typ][f], f))
    ensures Unscanned(sc, h, overrides)
  {
    assert UnscannedField(sc, h, overrides[n], f);
  }

  /** Every relation field of one proposed row, as declared. */
  method ScanOverride(sc: Schema, ghost h: Graph, tf: TargetFields, targets: TargetIndex, news: TargetIndex,
                      overrides: seq<Override>, n: nat, deltas: RelationFieldDeltas, ghost scans0: seq<FieldDelta>)
    returns (error: Option<RelationError>, ghost scans: seq<FieldDelta>)
    requires n < |overrides| && ScanReady(sc, h, tf, targets, news, overrides)
    requires ScansOf(sc, h, overrides, n, {}, scans0) && deltas.Valid() && deltas.values == Accumulate(scans0)
    modifies deltas
    ensures deltas.Valid() && deltas.values == Accumulate(scans)
    ensures error == None ==> ScansOf(sc, h, overrides, n + 1, {}, scans) && scans == scans0 + ScanRow(sc, h, overrides[n])
    ensures error != None ==> Unscanned(sc, h, overrides)
  {
    hide ScansOf, ScanReady, ScanLegal, Accumulate, TargetIndexExact, Refs, Targets, ScansUpTo, ScanRow, ScanFields;
    scans, error := scans0, None;
    var override := overrides[n];
    var all := FieldsOfType(sc, override.key.typ);
    var rest := all;
    assert all - rest == {};
    ScansUpToEnds(sc, h, override, scans0, scans);
    while rest != {}
      invariant rest <= all && ScansOf(sc, h, overrides, n, all - rest, scans)
      invariant ScansUpTo(sc, h, override, rest, scans0, scans)
      invariant deltas.Valid() && deltas.values == Accumulate(scans)
      decreases |rest|
    {
      HasLeast(rest);
      var field :| field in rest && IsLeast(rest, field);
      var fk, spec := FieldKey(override.key, field), sc[override.key.typ][field];
      ReadyAt(sc, h, tf, targets, news, overrides, n, field);
      var r := ScanIndexedRelationField(h, tf, targets, news, spec, Refs(override.row, spec, field));
      if r.Err? {
        UnscannedAt(sc, h, overrides, n, field);
        return Some(r.error), scans;
      }
      ScansStep(sc, h, overrides, n, all - rest, scans, FieldDelta(fk, r.value));
      ScansUpToStep(sc, h, override, rest, scans0, scans, field);
      RecordScan(deltas, fk, r.value, scans);
      scans := scans + [FieldDelta(fk, r.value)];
      assert all - (rest - {field}) == (all - rest) + {field};
      rest := rest - {field};
    }
    assert all - rest == all;
    ScansNext(sc, h, overrides, n, scans);
    ScansUpToEnds(sc, h, override, scans0, scans);
  }

  lemma {:induction false} ReadyAt(sc: Schema, h: Graph, tf: TargetFields, targets: TargetIndex, news: TargetIndex,
                                   overrides: seq<Override>, n: nat, field: nat)
    requires ScanReady(sc, h, tf, targets, news, overrides) && n < |overrides| && field in FieldsOfType(sc, overrides[n].key.typ)
    ensures TargetIndexExact(h, tf, targets + news) && Named(tf, sc[overrides[n].key.typ][field])
  {
  }

  /** Every proposed row in turn; the list of replacements is what the scans accumulate to. */
  method ScanOverrides(sc: Schema, ghost h: Graph, tf: TargetFields, targets: TargetIndex, news: TargetIndex, overrides: seq<Override>)
    returns (error: Option<RelationError>, deltas: RelationFieldDeltas, ghost scans: seq<FieldDelta>)
    requires ScanReady(sc, h, tf, targets, news, overrides)
    ensures fresh(deltas) && deltas.Valid() && deltas.values == Accumulate(scans)
    ensures error == None ==> ScansOf(sc, h, overrides, |overrides|, {}, scans) && scans == ScanRows(sc, h, overrides)
    ensures error != None ==> Unscanned(sc, h, overrides)
  {
    hide *;
    deltas := new RelationFieldDeltas();
    scans, error := [], None;
    NothingScannedYet(sc, h, overrides);
    assert overrides[..0] == [];
    var n := 0;
    while n < |overrides|
      invariant 0 <= n <= |overrides| && ScansOf(sc, h, overrides, n, {}, scans) && scans == ScanRows(sc, h, overrides[..n])
      invariant fresh(deltas) && deltas.Valid() && deltas.values == Accumulate(scans) && error == None
    {
      error, scans := ScanOverride(sc, h, tf, targets, news, overrides, n, deltas, scans);
      if error != None {
        return;
      }
      ScanRowsStep(sc, h, overrides, n);
      n := n + 1;
    }
    assert overrides[..n] == overrides;
  }

  lemma {:induction false} NothingScannedYet(sc: Schema, h: Graph, overrides: seq<Override>)
    ensures ScansOf(sc, h, overrides, 0, {}, []) && Accumulate([]) == [] && ScanRows(sc, h, []) == []
  {
  }

  // ---------------------------------------------------------------- what an accepted delta promises

  /** The list holds every row of the graph under its key. */
  ghost predicate Lists(overrides: seq<Override>, rows: Graph) {
    && (forall i :: 0 <= i < |overrides| ==> overrides[i].key in rows && overrides[i].row == rows[overrides[i].key])
    && (forall k :: k in rows ==> ListsNode(overrides, k))
  }

  ghost predicate ListsNode(overrides: seq<Override>, k: NodeKey) {
    exists i :: 0 <= i < |overrides| && overrides[i].key == k
  }

  lemma {:induction false} ListsWorks(resources: seq<Override>)
    requires DistinctOverrides(resources)
    ensures Lists(resources, WorksOf(resources))
  {
    forall i | 0 <= i < |resources|
      ensures resources[i].key in WorksOf(resources) && resources[i].row == WorksOf(resources)[resources[i].key]
    {
      WorksAt(resources, i);
    }
  }

  lemma {:induction false} ListsBoth(resources: seq<Override>, created: seq<Override>, works: Graph, creates: Graph)
    requires Lists(resources, works) && Lists(created, creates) && works.Keys !! creates.Keys
    requires DistinctOverrides(resources) && DistinctOverrides(created)
    ensures Lists(resources + created, works + creates) && DistinctOverrides(resources + created)
  {
    var all := resources + created;
    forall k | k in works + creates ensures ListsNode(all, k) {
      if k in creates {
        var i :| 0 <= i < |created| && created[i].key == k;
        assert all[|resources| + i].key == k;
      } else {
        var i :| 0 <= i < |resources| && resources[i].key == k;
        assert all[i].key == k;
      }
    }
  }

  /** `target` is one of the nodes field `entry.key` points at, before or after, through a field a view can follow. */
  ghost predicate Observes(sc: Schema, fields: Fields, entry: FieldDelta, target: NodeKey) {
    && Declares(sc, entry.key.holder.typ, entry.key.field) && SpecOf(sc, entry.key).kind in {Borrow, Optional}
    && ((entry.key in fields && target in fields[entry.key]) || target in entry.targets)
  }

  predicate HasViews(sc: Schema, typ: string) {
    typ in sc && exists f :: f in sc[typ] && sc[typ][f].kind == Inverse
  }

  /** The nodes whose inverse views the delta recomputes. */
  ghost predicate InverseCollected(sc: Schema, fields: Fields, overrides: seq<Override>, values: seq<FieldDelta>, inverse: set<NodeKey>) {
    forall t :: t in inverse <==> (ListsNode(overrides, t) && HasViews(sc, t.typ)) || ObservedBy(sc, fields, values, t)
  }

  ghost predicate ObservedBy(sc: Schema, fields: Fields, values: seq<FieldDelta>, target: NodeKey) {
    exists i :: 0 <= i < |values| && Observes(sc, fields, values[i], target)
  }

  /** No child loses its owner: that needs its foreign key cleared, which only the rebuild does. */
  ghost predicate NoneReleased(changes: OwnerDelta) {
    forall c :: c in changes ==> changes[c].before == None || changes[c].after.Some?
  }

  /** Everything a built delta guarantees about the proposed graph. */
  ghost predicate DeltaSound(sc: Schema, g: Graph, ix: Image, works: Graph, creates: Graph, delta: IndexDelta) {
    var h, patch := Overlaid(g, works, creates), AsFields(delta.fields);
    && delta.created == creates && Proposal(sc, ix.targetFields, g, works, creates)
    && CreatedTargets(ix.targetFields, creates, delta.targets)
    && Rescanned(sc, g, works, creates, patch)
    && (forall fk :: fk in patch ==> FieldLegal(sc, h, fk))
    && ForestLegal(sc, ix.fields + patch, Overlay(ix.owners, Afters(delta.owners)))
    && ChangesFrom(ix.owners, delta.owners) && NoneReleased(delta.owners)
    && (forall t :: t in delta.inverseTargets <==>
          (t in works + creates && HasViews(sc, t.typ)) || ObservedBy(sc, ix.fields, delta.fields, t))
  }

  /** Whatever the delta accepts the full validator accepts too, unless an untouched pointer waits for a new row. */
  lemma {:induction false} AcceptedIsLegal(sc: Schema, g: Graph, ix: Image, works: Graph, creates: Graph, delta: IndexDelta)
    requires Committed(sc, g, ix) && DeltaSound(sc, g, ix, works, creates, delta)
    requires NoneWaiting(sc, g, works, creates)
    ensures Legal(sc, Overlaid(g, works, creates))
    ensures FieldsExact(sc, Overlaid(g, works, creates), ix.fields + AsFields(delta.fields))
  {
    hide *;
    var h, patch := Overlaid(g, works, creates), AsFields(delta.fields);
    assert Proposal(sc, ix.targetFields, g, works, creates) && Rescanned(sc, g, works, creates, patch)
           && ForestLegal(sc, ix.fields + patch, Overlay(ix.owners, Afters(delta.owners)))
           && (forall fk :: fk in patch ==> FieldLegal(sc, h, fk))
    by {
      DeltaParts(sc, g, ix, works, creates, delta);
    }
    CommittedParts(sc, g, ix);
    FieldsOverlaid(sc, ix.targetFields, g, works, creates, ix.fields, patch);
    PatchedLegal(sc, ix.targetFields, g, works, creates, patch);
    LegalFrom(sc, h, ix.fields + patch, Overlay(ix.owners, Afters(delta.owners)));
  }

  lemma {:induction false} DeltaParts(sc: Schema, g: Graph, ix: Image, works: Graph, creates: Graph, delta: IndexDelta)
    requires DeltaSound(sc, g, ix, works, creates, delta)
    ensures Proposal(sc, ix.targetFields, g, works, creates) && Rescanned(sc, g, works, creates, AsFields(delta.fields))
    ensures ForestLegal(sc, ix.fields + AsFields(delta.fields), Overlay(ix.owners, Afters(delta.owners)))
    ensures forall fk :: fk in AsFields(delta.fields) ==> FieldLegal(sc, Overlaid(g, works, creates), fk)
  {
  }

  lemma {:induction false} PatchedLegal(sc: Schema, tf: TargetFields, g: Graph, works: Graph, creates: Graph, patch: Fields)
    requires Proposal(sc, tf, g, works, creates) && Rescanned(sc, g, works, creates, patch)
    requires NoneWaiting(sc, g, works, creates) && LegalRefs(sc, g)
    requires forall fk :: fk in patch ==> FieldLegal(sc, Overlaid(g, works, creates), fk)
    ensures LegalRefs(sc, Overlaid(g, works, creates))
  {
    var h := Overlaid(g, works, creates);
    hide FieldLegal, Waiting, Proposal;
    forall fk | HasField(sc, h, fk) ensures FieldLegal(sc, h, fk) {
      if HasField(sc, works + creates, fk) {
        assert fk in patch;
      } else {
        assert HasField(sc, g, fk) && !Waiting(sc, g, works, creates, fk);
        UntouchedTargets(sc, tf, g, works, creates, fk);
      }
    }
  }

  lemma {:induction false} LegalFrom(sc: Schema, g: Graph, fields: Fields, owners: Owners)
    requires LegalRefs(sc, g) && FieldsExact(sc, g, fields) && ForestLegal(sc, fields, owners)
    ensures Legal(sc, g)
  {
  }

  /** What a committed index and its graph give the delta to start from. */
  lemma {:induction false} CommittedParts(sc: Schema, g: Graph, ix: Image)
    requires Committed(sc, g, ix)
    ensures WellFormed(sc) && Covers(sc, g, ix.targetFields)
    ensures TargetIndexExact(g, ix.targetFields, ix.targets) && FieldsExact(sc, g, ix.fields) && Transposed(ix.fields, ix.counts)
    ensures OutgoingExact(ix.owners, ix.outgoing)
    ensures LegalRefs(sc, g) && ForestLegal(sc, ix.fields, ix.owners) && OwnSlicesDistinct(sc, ix.fields)
  {
    LegalForest(sc, g, ix.fields, ix.owners);
    hide Covers, Transposed, ForestLegal;
    forall fk | fk in ix.fields && IsOwn(sc, fk.holder.typ, fk.field) ensures Distinct(ix.fields[fk]) {
      assert FieldLegal(sc, g, fk);
    }
  }

  lemma {:induction false} LegalForest(sc: Schema, g: Graph, fields: Fields, owners: Owners)
    requires Legal(sc, g) && FieldsExact(sc, g, fields) && OwnersExact(sc, fields, owners)
    ensures ForestLegal(sc, fields, owners)
  {
    var fields', owners' :| FieldsExact(sc, g, fields') && ForestLegal(sc, fields', owners');
    FieldsUnique(sc, g, fields, fields');
    OwnersUnique(sc, fields, owners, owners');
  }

  // ---------------------------------------------------------------- building the delta

  /** Row `o` rewrites a live node and keeps its lookup keys. */
  ghost predicate Rewrites(tf: TargetFields, g: Graph, o: Override) {
    o.key in g && !RelationIndexKeyChanged(tf, o.key, g[o.key], o.row)
  }

  method ResourcesSupported(index: CommittedIndex, resources: seq<Override>, ghost g: Graph) returns (ok: bool)
    requires index.RowsValid() && SameScalars(g, index.graph)
    ensures ok <==> forall i :: 0 <= i < |resources| ==> Rewrites(index.targetFields, g, resources[i])
  {
    var i := 0;
    while i < |resources|
      invariant 0 <= i <= |resources|
      invariant forall j :: 0 <= j < i ==> Rewrites(index.targetFields, g, resources[j])
    {
      var key := resources[i].key;
      if key !in index.nodes || RelationIndexKeyChanged(index.targetFields, key, index.nodes[key].row, resources[i].row) {
        return false;
      }
      i := i + 1;
    }
    ok := true;
  }

  method ListCreates(index: CommittedIndex, creates: Graph, ghost g: Graph) returns (ok: bool, created: seq<Override>)
    requires index.RowsValid() && SameScalars(g, index.graph)
    ensures ok <==> creates.Keys !! g.Keys
    ensures ok ==> (creates == map[] ==> created == []) && Lists(created, creates) && DistinctOverrides(created)
  {
    created := [];
    var rest := creates.Keys;
    while rest != {}
      invariant rest <= creates.Keys && (creates.Keys - rest) !! g.Keys && (creates == map[] ==> created == [])
      invariant Lists(created, map k | k in creates.Keys - rest :: creates[k]) && DistinctOverrides(created)
      decreases |rest|
    {
      var key :| key in rest;
      if key in index.nodes {
        return false, [];
      }
      ghost var before := created;
      created := created + [Override(key, creates[key])];
      forall k | k in creates.Keys - rest || k == key ensures ListsNode(created, k) {
        if k == key {
          assert created[|before|].key == k;
        } else {
          assert ListsNode(before, k);
          var i :| 0 <= i < |before| && before[i].key == k;
          assert created[i].key == k;
        }
      }
      rest := rest - {key};
    }
    assert creates == map k | k in creates.Keys - rest :: creates[k];
    ok := true;
  }

  lemma {:induction false} RewritesKeepKeys(tf: TargetFields, g: Graph, resources: seq<Override>)
    requires forall i :: 0 <= i < |resources| ==> Rewrites(tf, g, resources[i])
    ensures KeysKept(tf, g, WorksOf(resources))
  {
    var works := WorksOf(resources);
    forall k | k in works
      ensures k in g
      ensures forall field :: k.typ in tf && field in tf[k.typ] ==> SameScalar(g[k], works[k], field)
    {
      WorksFrom(resources, k);
      var i :| 0 <= i < |resources| && resources[i].key == k && resources[i].row == works[k];
      assert Rewrites(tf, g, resources[i]);
    }
  }

  lemma {:induction false} ProposalMade(sc: Schema, tf: TargetFields, g: Graph, resources: seq<Override>, creates: Graph,
                                        targets: TargetIndex, news: TargetIndex)
    requires forall i :: 0 <= i < |resources| ==> Rewrites(tf, g, resources[i])
    requires creates.Keys !! g.Keys && Covers(sc, g, tf) && Covers(sc, creates, tf)
    requires TargetIndexExact(g, tf, targets) && CreatedTargets(tf, creates, news) && Unclaimed(targets, news)
    requires forall j, k, lk :: Searchable(tf, lk) && Bears(creates, j, lk) && Bears(creates, k, lk) ==> j == k
    ensures Proposal(sc, tf, g, WorksOf(resources), creates)
  {
    RewritesKeepKeys(tf, g, resources);
    hide KeysKept, Rewrites;
    hide Bears, Covers, SameScalar, WorksOf;
    forall k, lk | Searchable(tf, lk) && Bears(creates, k, lk) ensures forall j :: !Bears(g, j, lk) {
      assert lk in news && lk !in targets;
    }
  }

  lemma {:induction false} ReadyToScan(sc: Schema, tf: TargetFields, g: Graph, works: Graph, creates: Graph,
                                       targets: TargetIndex, news: TargetIndex, overrides: seq<Override>)
    requires Proposal(sc, tf, g, works, creates) && TargetIndexExact(g, tf, targets) && CreatedTargets(tf, creates, news)
    requires forall i :: 0 <= i < |overrides| ==> overrides[i].key in g || overrides[i].key in creates
    ensures ScanReady(sc, Overlaid(g, works, creates), tf, targets, news, overrides)
  {
    TargetIndexOverlaid(tf, g, works, creates, targets, news);
    hide TargetIndexExact, KeysKept, KeysFresh, CreatedTargets, Overlaid;
    forall i, f | 0 <= i < |overrides| && f in FieldsOfType(sc, overrides[i].key.typ)
      ensures Named(tf, sc[overrides[i].key.typ][f])
    {
      var fk := FieldKey(overrides[i].key, f);
      assert HasField(sc, g, fk) || HasField(sc, creates, fk);
      assert Searchable(tf, Lookup(SpecOf(sc, fk), IntValue(0)));
    }
  }

  /** With every row listed once, the scans are exactly the touched fields of the proposed graph, and legal. */
  lemma {:induction false} ScansExact(sc: Schema, g: Graph, works: Graph, creates: Graph, overrides: seq<Override>, scans: seq<FieldDelta>)
    requires Lists(overrides, works + creates) && DistinctOverrides(overrides)
    requires ScansOf(sc, Overlaid(g, works, creates), overrides, |overrides|, {}, scans)
    ensures DistinctKeys(scans) && Rescanned(sc, g, works, creates, AsFields(scans)) && OwnEntriesDistinct(sc, scans)
    ensures forall fk :: fk in AsFields(scans) ==> FieldLegal(sc, Overlaid(g, works, creates), fk)
  {
    var h := Overlaid(g, works, creates);
    hide ScanLegal, AsFields, DistinctKeys;
    forall j | 0 <= j < |scans| ensures ScannedRow(sc, g, works, creates, scans[j]) {
      assert ScanOfOne(sc, h, overrides, |overrides|, {}, scans[j]);
      var i :| 0 <= i < |overrides| && ScanAt(sc, h, overrides[i], scans[j]);
      ScanIsField(sc, g, works, creates, overrides[i], scans[j]);
    }
    forall fk | HasField(sc, works + creates, fk) ensures ListsKey(scans, fk) {
      assert ListsNode(overrides, fk.holder);
      var i :| 0 <= i < |overrides| && overrides[i].key == fk.holder;
      assert FieldDue(sc, overrides, |overrides|, {}, i, fk.field);
      assert ScannedField(sc, h, overrides[i], fk.field, scans);
    }
    RescannedFrom(sc, g, works, creates, scans);
  }

  /** The scan is what the proposed graph says of a touched field. */
  ghost predicate ScannedRow(sc: Schema, g: Graph, works: Graph, creates: Graph, s: FieldDelta) {
    var h := Overlaid(g, works, creates);
    && HasField(sc, works + creates, s.key) && HasField(sc, h, s.key)
    && FieldLegal(sc, h, s.key) && s.targets == TargetsAt(sc, h, s.key)
  }

  lemma {:induction false} ScanIsField(sc: Schema, g: Graph, works: Graph, creates: Graph, o: Override, s: FieldDelta)
    requires o.key in works + creates && o.row == (works + creates)[o.key]
    requires ScanAt(sc, Overlaid(g, works, creates), o, s)
    ensures ScannedRow(sc, g, works, creates, s)
  {
    assert Overlaid(g, works, creates)[o.key] == o.row;
    hide RefLegal, Targets, Refs;
  }

  lemma {:induction false} RescannedFrom(sc: Schema, g: Graph, works: Graph, creates: Graph, scans: seq<FieldDelta>)
    requires forall j :: 0 <= j < |scans| ==> ScannedRow(sc, g, works, creates, scans[j])
    requires forall fk :: HasField(sc, works + creates, fk) ==> ListsKey(scans, fk)
    requires DistinctKeys(scans)
    ensures Rescanned(sc, g, works, creates, AsFields(scans)) && OwnEntriesDistinct(sc, scans)
    ensures forall fk :: fk in AsFields(scans) ==> FieldLegal(sc, Overlaid(g, works, creates), fk)
  {
    hide *;
    var patch := AsFields(scans);
    forall fk | fk in patch ensures ScannedRow(sc, g, works, creates, FieldDelta(fk, patch[fk])) {
      ListedAt(scans, fk);
    }
    forall i | 0 <= i < |scans| && IsOwn(sc, scans[i].key.holder.typ, scans[i].key.field) ensures Distinct(scans[i].targets) {
      RowParts(sc, g, works, creates, scans[i]);
    }
    assert OwnEntriesDistinct(sc, scans) by {
      EntriesDistinct(sc, scans);
    }
    forall fk ensures fk in patch <==> HasField(sc, works + creates, fk)
      ensures fk in patch ==> && HasField(sc, Overlaid(g, works, creates), fk) && FieldLegal(sc, Overlaid(g, works, creates), fk)
                              && patch[fk] == TargetsAt(sc, Overlaid(g, works, creates), fk)
    {
      if fk in patch {
        RowParts(sc, g, works, creates, FieldDelta(fk, patch[fk]));
      }
    }
    RescannedIs(sc, g, works, creates, patch);
  }

  lemma {:induction false} ListedAt(scans: seq<FieldDelta>, fk: FieldKey)
    requires DistinctKeys(scans) && fk in AsFields(scans)
    ensures exists j :: 0 <= j < |scans| && scans[j] == FieldDelta(fk, AsFields(scans)[fk])
  {
    var j :| 0 <= j < |scans| && scans[j].key == fk;
    AsFieldsAt(scans, j);
  }

  lemma {:induction false} RowParts(sc: Schema, g: Graph, works: Graph, creates: Graph, s: FieldDelta)
    requires ScannedRow(sc, g, works, creates, s)
    ensures HasField(sc, works + creates, s.key) && HasField(sc, Overlaid(g, works, creates), s.key)
    ensures FieldLegal(sc, Overlaid(g, works, creates), s.key) && s.targets == TargetsAt(sc, Overlaid(g, works, creates), s.key)
    ensures IsOwn(sc, s.key.holder.typ, s.key.field) ==> Distinct(s.targets)
  {
  }

  lemma {:induction false} EntriesDistinct(sc: Schema, scans: seq<FieldDelta>)
    requires forall i :: 0 <= i < |scans| && IsOwn(sc, scans[i].key.holder.typ, scans[i].key.field) ==> Distinct(scans[i].targets)
    ensures OwnEntriesDistinct(sc, scans)
  {
  }

  lemma {:induction false} RescannedIs(sc: Schema, g: Graph, works: Graph, creates: Graph, patch: Fields)
    requires forall fk :: fk in patch <==> HasField(sc, works + creates, fk)
    requires forall fk :: fk in patch ==> HasField(sc, Overlaid(g, works, creates), fk)
                                          && patch[fk] == TargetsAt(sc, Overlaid(g, works, creates), fk)
    ensures Rescanned(sc, g, works, creates, patch)
  {
  }

  method SupportsOwnershipChanges(changes: OwnerDelta) returns (ok: bool)
    ensures ok <==> NoneReleased(changes)
  {
    var rest := changes.Keys;
    while rest != {}
      invariant rest <= changes.Keys
      invariant forall c :: c in changes.Keys - rest ==> changes[c].before == None || changes[c].after.Some?
      decreases |rest|
    {
      var c :| c in rest;
      if changes[c].before.Some? && changes[c].after == None {
        return false;
      }
      rest := rest - {c};
    }
    ok := true;
  }

  /** Touched nodes with views, then every node a rescanned borrow or option field pointed or points at. */
  method CollectInverseTargets(sc: Schema, fields: Fields, overrides: seq<Override>, values: seq<FieldDelta>) returns (inverse: set<NodeKey>)
    ensures InverseCollected(sc, fields, overrides, values, inverse)
  {
    inverse := {};
    var i := 0;
    while i < |overrides|
      invariant 0 <= i <= |overrides|
      invariant forall t :: t in inverse <==> HasViews(sc, t.typ) && exists j :: 0 <= j < i && overrides[j].key == t
    {
      if HasViews(sc, overrides[i].key.typ) {
        inverse := inverse + {overrides[i].key};
      }
      i := i + 1;
    }
    ghost var touched := inverse;
    i := 0;
    while i < |values|
      invariant 0 <= i <= |values|
      invariant forall t :: t in inverse <==> t in touched || exists j :: 0 <= j < i && Observes(sc, fields, values[j], t)
    {
      var fk := values[i].key;
      if Declares(sc, fk.holder.typ, fk.field) && SpecOf(sc, fk).kind in {Borrow, Optional} {
        var before := if fk in fields then fields[fk] else [];
        inverse := inverse + (set t | t in before) + (set t | t in values[i].targets);
      }
      i := i + 1;
    }
  }

  /** What the fast path takes: rewrites of live rows that keep their lookup keys, new rows with indexed lookups and fresh
      keys, legal fields, a legal forest in which nobody lost their owner. */
  ghost predicate Accepts(sc: Schema, g: Graph, ix: Image, resources: seq<Override>, creates: Graph, patch: Fields, owners: Owners) {
    && Addressed(sc, g, ix.targetFields, resources, creates)
    && Rescanned(sc, g, WorksOf(resources), creates, patch)
    && (forall fk :: fk in patch ==> FieldLegal(sc, Overlaid(g, WorksOf(resources), creates), fk))
    && ForestLegal(sc, ix.fields + patch, owners) && ix.owners.Keys <= owners.Keys
  }

  /** Rewrites are of live rows and keep their lookup keys; new rows are new, looked up by nobody yet, and look up what is indexed. */
  ghost predicate Addressed(sc: Schema, g: Graph, tf: TargetFields, resources: seq<Override>, creates: Graph) {
    && (forall i :: 0 <= i < |resources| ==> Rewrites(tf, g, resources[i]))
    && Covers(sc, creates, tf) && KeysFresh(tf, g, creates)
  }

  ghost predicate Acceptable(sc: Schema, g: Graph, ix: Image, resources: seq<Override>, creates: Graph) {
    exists patch, owners :: Accepts(sc, g, ix, resources, creates, patch, owners)
  }

  /** What it takes of a list of rewrites in which rows may come twice. */
  ghost predicate AcceptsList(sc: Schema, g: Graph, ix: Image, resources: seq<Override>, owners: Owners) {
    var h := Overlaid(g, WorksOf(resources), map[]);
    var values := Accumulate(ScanRows(sc, h, resources));
    && Addressed(sc, g, ix.targetFields, resources, map[]) && !Unscanned(sc, h, resources)
    && OwnOnce(sc, values) && ForestLegal(sc, Effective(ix.fields, values), owners) && ix.owners.Keys <= owners.Keys
  }

  ghost predicate ListAcceptable(sc: Schema, g: Graph, ix: Image, resources: seq<Override>) {
    exists owners :: AcceptsList(sc, g, ix, resources, owners)
  }

  lemma {:induction false} ListUnaddressed(sc: Schema, g: Graph, ix: Image, resources: seq<Override>, creates: Graph)
    requires creates == map[] ==> !Addressed(sc, g, ix.targetFields, resources, creates) || Unscanned(sc, Overlaid(g, WorksOf(resources), map[]), resources)
    ensures creates == map[] ==> !ListAcceptable(sc, g, ix, resources)
  {
    hide Addressed, Unscanned, Overlaid, WorksOf, OwnOnce, ForestLegal, Accumulate, Effective;
  }

  lemma {:induction false} ListForestRefused(sc: Schema, g: Graph, ix: Image, resources: seq<Override>, values: seq<FieldDelta>)
    requires values == Accumulate(ScanRows(sc, Overlaid(g, WorksOf(resources), map[]), resources))
    requires OwnOnce(sc, values) ==> !ForestPossible(sc, Effective(ix.fields, values))
    ensures !ListAcceptable(sc, g, ix, resources)
  {
    hide Addressed, Unscanned, Overlaid, WorksOf, OwnOnce, ForestLegal, Accumulate, Effective, ScanRows;
  }

  lemma {:induction false} ListReleaseRefused(sc: Schema, g: Graph, ix: Image, resources: seq<Override>, values: seq<FieldDelta>, changes: OwnerDelta)
    requires values == Accumulate(ScanRows(sc, Overlaid(g, WorksOf(resources), map[]), resources))
    requires ChangesFrom(ix.owners, changes) && !NoneReleased(changes)
    requires OwnOnce(sc, values) ==> ForestLegal(sc, Effective(ix.fields, values), Overlay(ix.owners, Afters(changes)))
    ensures !ListAcceptable(sc, g, ix, resources)
  {
    var owners := Overlay(ix.owners, Afters(changes));
    var c :| c in changes && changes[c].before.Some? && changes[c].after == None;
    assert c in ix.owners && c !in owners;
    hide Addressed, Unscanned, WorksOf, OwnOnce, OwnersExact, OneOwner, Agree, Acyclic, Accumulate, Effective, ScanRows;
    forall owners' ensures !AcceptsList(sc, g, ix, resources, owners') {
      if AcceptsList(sc, g, ix, resources, owners') {
        OwnersUnique(sc, Effective(ix.fields, values), owners, owners');
      }
    }
  }

  lemma {:induction false} ListAccepted(sc: Schema, g: Graph, ix: Image, resources: seq<Override>, values: seq<FieldDelta>, changes: OwnerDelta)
    requires values == Accumulate(ScanRows(sc, Overlaid(g, WorksOf(resources), map[]), resources)) && OwnOnce(sc, values)
    requires Addressed(sc, g, ix.targetFields, resources, map[]) && !Unscanned(sc, Overlaid(g, WorksOf(resources), map[]), resources)
    requires ForestLegal(sc, Effective(ix.fields, values), Overlay(ix.owners, Afters(changes)))
    requires ChangesFrom(ix.owners, changes) && NoneReleased(changes)
    ensures ListAcceptable(sc, g, ix, resources)
  {
    hide Addressed, Unscanned, WorksOf, OwnOnce, ForestLegal, Accumulate, Effective, ScanRows;
    assert ix.owners.Keys <= Overlay(ix.owners, Afters(changes)).Keys;
    assert AcceptsList(sc, g, ix, resources, Overlay(ix.owners, Afters(changes)));
  }

  lemma {:induction false} Unaddressed(sc: Schema, g: Graph, ix: Image, resources: seq<Override>, creates: Graph)
    requires !Addressed(sc, g, ix.targetFields, resources, creates)
    ensures !Acceptable(sc, g, ix, resources, creates)
  {
    hide Addressed, Rescanned, ForestLegal, FieldLegal;
  }

  lemma {:induction false} NotAddressed(sc: Schema, g: Graph, tf: TargetFields, resources: seq<Override>, creates: Graph)
    requires || (exists i :: 0 <= i < |resources| && !Rewrites(tf, g, resources[i]))
             || !Covers(sc, creates, tf) || !(creates.Keys !! g.Keys)
    ensures !Addressed(sc, g, tf, resources, creates)
  {
    hide Rewrites, Covers;
  }

  lemma {:induction false} TakenRefused(sc: Schema, g: Graph, tf: TargetFields, resources: seq<Override>, creates: Graph, targets: TargetIndex)
    requires TargetIndexExact(g, tf, targets) && exists k, lk :: Taken(tf, targets, creates, k, lk)
    ensures !Addressed(sc, g, tf, resources, creates)
  {
    hide Bears, Covers, Rewrites;
    var k, lk :| Taken(tf, targets, creates, k, lk);
    if lk in targets {
      assert Bears(g, targets[lk].key, lk);
    }
  }

  lemma {:induction false} ScanRefused(sc: Schema, g: Graph, ix: Image, resources: seq<Override>, creates: Graph, overrides: seq<Override>)
    requires Lists(overrides, WorksOf(resources) + creates) && DistinctOverrides(overrides)
    requires Unscanned(sc, Overlaid(g, WorksOf(resources), creates), overrides)
    ensures !Acceptable(sc, g, ix, resources, creates)
  {
    hide WorksOf, Overlaid, ForestLegal, Addressed, FieldLegal, ScanLegal, TargetsAt;
    var works := WorksOf(resources);
    var i, f :| 0 <= i < |overrides| && UnscannedField(sc, Overlaid(g, works, creates), overrides[i], f);
    UnscannedIllegal(sc, g, works, creates, overrides[i], f);
    forall patch | Rescanned(sc, g, works, creates, patch) ensures FieldKey(overrides[i].key, f) in patch {
    }
  }

  lemma {:induction false} UnscannedIllegal(sc: Schema, g: Graph, works: Graph, creates: Graph, o: Override, f: nat)
    requires o.key in works + creates && o.row == (works + creates)[o.key]
    requires UnscannedField(sc, Overlaid(g, works, creates), o, f)
    ensures HasField(sc, works + creates, FieldKey(o.key, f)) && HasField(sc, Overlaid(g, works, creates), FieldKey(o.key, f))
    ensures !FieldLegal(sc, Overlaid(g, works, creates), FieldKey(o.key, f))
  {
    hide RefLegal, Targets, Refs;
    var h, fk := Overlaid(g, works, creates), FieldKey(o.key, f);
    assert fk.holder in h && h[fk.holder] == o.row && SpecOf(sc, fk) == sc[o.key.typ][f];
    assert RefsAt(sc, h, fk) == Refs(o.row, sc[o.key.typ][f], f);
    assert TargetsAt(sc, h, fk) == Targets(h, SpecOf(sc, fk), RefsAt(sc, h, fk));
  }

  lemma {:induction false} PatchUnique(sc: Schema, g: Graph, works: Graph, creates: Graph, a: Fields, b: Fields)
    requires Rescanned(sc, g, works, creates, a) && Rescanned(sc, g, works, creates, b)
    ensures a == b
  {
    hide TargetsAt, Overlaid;
  }

  lemma {:induction false} ForestRefused(sc: Schema, g: Graph, ix: Image, resources: seq<Override>, creates: Graph, patch: Fields)
    requires Rescanned(sc, g, WorksOf(resources), creates, patch) && !ForestPossible(sc, ix.fields + patch)
    ensures !Acceptable(sc, g, ix, resources, creates)
  {
    hide Rescanned, ForestLegal, Addressed, FieldLegal, WorksOf;
    forall patch', owners ensures !Accepts(sc, g, ix, resources, creates, patch', owners) {
      if Accepts(sc, g, ix, resources, creates, patch', owners) {
        PatchUnique(sc, g, WorksOf(resources), creates, patch, patch');
      }
    }
  }

  lemma {:induction false} ReleaseRefused(sc: Schema, g: Graph, ix: Image, resources: seq<Override>, creates: Graph, patch: Fields, changes: OwnerDelta)
    requires Rescanned(sc, g, WorksOf(resources), creates, patch) && ChangesFrom(ix.owners, changes) && !NoneReleased(changes)
    requires ForestLegal(sc, ix.fields + patch, Overlay(ix.owners, Afters(changes)))
    ensures !Acceptable(sc, g, ix, resources, creates)
  {
    var owners := Overlay(ix.owners, Afters(changes));
    var c :| c in changes && changes[c].before.Some? && changes[c].after == None;
    assert c in ix.owners && c !in owners;
    hide Rescanned, Addressed, FieldLegal, WorksOf, OwnersExact, OneOwner, Agree, Acyclic;
    forall patch', owners' ensures !Accepts(sc, g, ix, resources, creates, patch', owners') {
      if Accepts(sc, g, ix, resources, creates, patch', owners') {
        PatchUnique(sc, g, WorksOf(resources), creates, patch, patch');
        OwnersUnique(sc, ix.fields + patch, owners, owners');
      }
    }
  }

  /** Rewrites and lookups are in order, but a new row bears a key that a live row or another new row bears. */
  ghost predicate KeyClash(sc: Schema, g: Graph, ix: Image, resources: seq<Override>, creates: Graph) {
    && (forall i :: 0 <= i < |resources| ==> Rewrites(ix.targetFields, g, resources[i])) && Covers(sc, creates, ix.targetFields)
    && exists k, lk :: Taken(ix.targetFields, ix.targets, creates, k, lk)
  }

  /** What the delta holds against a proposal when it refuses it: a new key that is taken, an illegal touched field, or
      touched fields no forest can be made of. */
  ghost predicate Objectionable(sc: Schema, g: Graph, ix: Image, resources: seq<Override>, creates: Graph) {
    || KeyClash(sc, g, ix, resources, creates)
    || (Proposal(sc, ix.targetFields, g, WorksOf(resources), creates)
        && (IllegalField(sc, g, WorksOf(resources), creates) || IllegalForest(sc, g, ix.fields, WorksOf(resources), creates)))
  }

  ghost predicate IllegalField(sc: Schema, g: Graph, works: Graph, creates: Graph) {
    exists fk :: HasField(sc, works + creates, fk) && HasField(sc, Overlaid(g, works, creates), fk) && !FieldLegal(sc, Overlaid(g, works, creates), fk)
  }

  ghost predicate IllegalForest(sc: Schema, g: Graph, fields: Fields, works: Graph, creates: Graph) {
    exists patch :: Rescanned(sc, g, works, creates, patch) && !ForestPossible(sc, fields + patch)
  }

  lemma {:induction false} UnscannedObjection(sc: Schema, g: Graph, ix: Image, resources: seq<Override>, creates: Graph, overrides: seq<Override>)
    requires Lists(overrides, WorksOf(resources) + creates) && Unscanned(sc, Overlaid(g, WorksOf(resources), creates), overrides)
    requires Proposal(sc, ix.targetFields, g, WorksOf(resources), creates)
    ensures Objectionable(sc, g, ix, resources, creates)
  {
    hide Overlaid, FieldLegal, ScanLegal, Proposal, KeyClash, WorksOf;
    var works := WorksOf(resources);
    var i, f :| 0 <= i < |overrides| && UnscannedField(sc, Overlaid(g, works, creates), overrides[i], f);
    UnscannedIllegal(sc, g, works, creates, overrides[i], f);
    assert IllegalField(sc, g, works, creates);
  }

  lemma {:induction false} ForestObjection(sc: Schema, g: Graph, ix: Image, resources: seq<Override>, creates: Graph, patch: Fields)
    requires Rescanned(sc, g, WorksOf(resources), creates, patch) && !ForestPossible(sc, ix.fields + patch)
    requires Proposal(sc, ix.targetFields, g, WorksOf(resources), creates)
    ensures Objectionable(sc, g, ix, resources, creates)
  {
    hide Rescanned, ForestPossible, Proposal, KeyClash, WorksOf;
    assert IllegalForest(sc, g, ix.fields, WorksOf(resources), creates);
  }

  lemma {:induction false} ClashIs(sc: Schema, g: Graph, ix: Image, resources: seq<Override>, creates: Graph)
    ensures KeyClash(sc, g, ix, resources, creates) <==>
            && (forall i :: 0 <= i < |resources| ==> Rewrites(ix.targetFields, g, resources[i])) && Covers(sc, creates, ix.targetFields)
            && exists k, lk :: Taken(ix.targetFields, ix.targets, creates, k, lk)
    ensures KeyClash(sc, g, ix, resources, creates) ==> Objectionable(sc, g, ix, resources, creates)
  {
    hide Rewrites, Covers, Taken, Proposal;
  }

  /** Build the delta of a proposal over the committed graph `g`, or say why there is none. The live rows may already
      hold the proposal, so only their lookup keys are those of `g`. */
  method BuildRelationIndexDelta(index: CommittedIndex, resources: seq<Override>, creates: Graph, ghost g: Graph)
    returns (r: Outcome, ghost overrides: seq<Override>, ghost scans: seq<FieldDelta>)
    requires index.Valid() && Committed(index.sc, g, index.Contents()) && SameScalars(g, index.graph)
    ensures r.Built? && DistinctOverrides(resources) ==>
              DeltaSound(index.sc, g, index.Contents(), WorksOf(resources), creates, r.delta)
    ensures r.Built? ==> Proposal(index.sc, index.targetFields, g, WorksOf(resources), creates)
    ensures r.Built? ==> r.delta.created == creates && ChangesFrom(index.owners, r.delta.owners)
    ensures r.Built? && creates == map[] ==> r.delta.targets == map[]
    ensures r.Built? ==> resources <= overrides && (creates == map[] ==> overrides == resources) && r.delta.fields == Accumulate(scans)
    ensures r.Built? ==> ScansOf(index.sc, Overlaid(g, WorksOf(resources), creates), overrides, |overrides|, {}, scans)
                         && scans == ScanRows(index.sc, Overlaid(g, WorksOf(resources), creates), overrides)
    ensures r.Built? ==> NoneReleased(r.delta.owners) && (forall c :: OwnMult(index.sc, r.delta.fields, c) <= 1)
                         && InverseCollected(index.sc, index.fields, overrides, r.delta.fields, r.delta.inverseTargets)
    ensures r.Built? && OwnOnce(index.sc, r.delta.fields) ==>
              ForestLegal(index.sc, Effective(index.fields, r.delta.fields), Overlay(index.owners, Afters(r.delta.owners)))
    ensures creates == map[] && ListAcceptable(index.sc, g, index.Contents(), resources) ==> r.Built?
    ensures DistinctOverrides(resources) && Acceptable(index.sc, g, index.Contents(), resources, creates) ==> r.Built?
    ensures r.Refused? && DistinctOverrides(resources) ==> Objectionable(index.sc, g, index.Contents(), resources, creates)
    ensures KeyClash(index.sc, g, index.Contents(), resources, creates) ==> r.Refused?
  {
    hide *;
    r, overrides, scans := Unsupported, [], [];
    var sc, tf := index.sc, index.targetFields;
    ghost var ix, works := index.Contents(), WorksOf(resources);
    IndexParts(index);
    CommittedParts(sc, g, ix);
    ClashIs(sc, g, ix, resources, creates);
    var supported := ResourcesSupported(index, resources, g);
    if !supported {
      NotAddressed(sc, g, tf, resources, creates);
      Unaddressed(sc, g, ix, resources, creates);
      ListUnaddressed(sc, g, ix, resources, creates);
      return;
    }
    supported := CreatesSupported(sc, tf, creates);
    if !supported {
      NotAddressed(sc, g, tf, resources, creates);
      Unaddressed(sc, g, ix, resources, creates);
      ListUnaddressed(sc, g, ix, resources, creates);
      return;
    }
    var news := IndexCreatedTargets(tf, index.targets, creates);
    if news.Err? {
      TakenRefused(sc, g, tf, resources, creates, index.targets);
      Unaddressed(sc, g, ix, resources, creates);
      ListUnaddressed(sc, g, ix, resources, creates);
      r := Refused(news.error);
      return;
    }
    var created: seq<Override>;
    supported, created := ListCreates(index, creates, g);
    if !supported {
      NotAddressed(sc, g, tf, resources, creates);
      Unaddressed(sc, g, ix, resources, creates);
      ListUnaddressed(sc, g, ix, resources, creates);
      return;
    }
    NothingCreated(tf, creates, news.value);
    ProposalMade(sc, tf, g, resources, creates, index.targets, news.value);
    overrides := resources + created;
    OverridesLive(tf, g, resources, created, creates);
    ReadyToScan(sc, tf, g, works, creates, index.targets, news.value, overrides);
    var error, deltas;
    error, deltas, scans := ScanOverrides(sc, Overlaid(g, works, creates), tf, index.targets, news.value, resources + created);
    if DistinctOverrides(resources) {
      ListsWorks(resources);
      WorksLive(tf, g, resources, creates);
      ListsBoth(resources, created, works, creates);
    }
    if error.Some? {
      if DistinctOverrides(resources) {
        ScanRefused(sc, g, ix, resources, creates, overrides);
        UnscannedObjection(sc, g, ix, resources, creates, overrides);
      }
      SameList(resources, created, creates);
      ListUnaddressed(sc, g, ix, resources, creates);
      r := Refused(error.value);
      return;
    }
    if DistinctOverrides(resources) {
      ScansExact(sc, g, works, creates, overrides, scans);
      AccumulateDistinct(scans);
    }
    ScansDistinct(sc, Overlaid(g, works, creates), overrides, scans);
    var owners := ValidateOwnership(index, deltas);
    SameList(resources, created, creates);
    if DistinctOverrides(resources) {
      EffectiveDistinct(sc, index.fields, deltas.values);
    }
    if owners.Err? {
      if creates == map[] {
        ListForestRefused(sc, g, ix, resources, deltas.values);
      }
      if DistinctOverrides(resources) {
        ForestRefused(sc, g, ix, resources, creates, AsFields(deltas.values));
        ForestObjection(sc, g, ix, resources, creates, AsFields(deltas.values));
      }
      r := Refused(owners.error);
      return;
    }
    supported := SupportsOwnershipChanges(owners.value);
    if !supported {
      if creates == map[] {
        ListReleaseRefused(sc, g, ix, resources, deltas.values, owners.value);
      }
      if DistinctOverrides(resources) {
        ReleaseRefused(sc, g, ix, resources, creates, AsFields(deltas.values), owners.value);
      }
      return;
    }
    var inverse := CollectInverseTargets(sc, index.fields, resources + created, deltas.values);
    r := Built(IndexDelta(creates, news.value, deltas.values, owners.value, inverse));
    if DistinctOverrides(resources) {
      DeltaMade(sc, g, ix, works, creates, overrides, r.delta);
    }
  }

  lemma {:induction false} SameList(resources: seq<Override>, created: seq<Override>, creates: Graph)
    requires creates == map[] ==> created == []
    ensures creates == map[] ==> resources + created == resources
  {
  }

  lemma {:induction false} NothingCreated(tf: TargetFields, creates: Graph, news: TargetIndex)
    requires CreatedTargets(tf, creates, news)
    ensures creates == map[] ==> news == map[]
  {
  }

  lemma {:induction false} IndexParts(index: CommittedIndex)
    requires index.Valid()
    ensures index.RowsValid() && BucketsMatch(index.incoming, index.counts)
    ensures var ix := index.Contents();
            && ix.fields == index.fields && ix.counts == index.counts && ix.owners == index.owners
            && ix.targets == index.targets && ix.targetFields == index.targetFields && ix.outgoing == index.outgoing
  {
  }

  lemma {:induction false} OverridesLive(tf: TargetFields, g: Graph, resources: seq<Override>, created: seq<Override>, creates: Graph)
    requires forall i :: 0 <= i < |resources| ==> Rewrites(tf, g, resources[i])
    requires Lists(created, creates)
    ensures forall i :: 0 <= i < |resources + created| ==> (resources + created)[i].key in g || (resources + created)[i].key in creates
  {
  }

  lemma {:induction false} WorksLive(tf: TargetFields, g: Graph, resources: seq<Override>, creates: Graph)
    requires forall i :: 0 <= i < |resources| ==> Rewrites(tf, g, resources[i])
    requires creates.Keys !! g.Keys
    ensures WorksOf(resources).Keys !! creates.Keys
  {
    forall k | k in WorksOf(resources) ensures k in g {
      var i :| 0 <= i < |resources| && resources[i].key == k;
    }
  }

  /** Where own fields are not listed twice with anything in them, each own entry is one scan. */
  lemma {:induction false} ScansDistinct(sc: Schema, h: Graph, overrides: seq<Override>, scans: seq<FieldDelta>)
    requires ScansOf(sc, h, overrides, |overrides|, {}, scans)
    ensures OwnOnce(sc, Accumulate(scans)) ==> OwnEntriesDistinct(sc, Accumulate(scans))
  {
    var values := Accumulate(scans);
    AccumulateKeys(scans);
    hide Accumulate, RefLegal, Targets;
    if OwnOnce(sc, values) {
      forall j | 0 <= j < |values| && IsOwn(sc, values[j].key.holder.typ, values[j].key.field) ensures Distinct(values[j].targets) {
        if values[j].targets != [] {
          assert ScanOfOne(sc, h, overrides, |overrides|, {}, scans[j]);
          OwnEntryScan(sc, scans, values, j);
        }
      }
    }
  }

  lemma {:induction false} OwnEntryScan(sc: Schema, scans: seq<FieldDelta>, values: seq<FieldDelta>, j: nat)
    requires values == Accumulate(scans) && OwnOnce(sc, values) && j < |values| && values[j].targets != []
    requires IsOwn(sc, values[j].key.holder.typ, values[j].key.field)
    ensures |scans| == |values| && values[j].targets == scans[j].targets
  {
    AccumulateKeys(scans);
    hide Accumulate;
    var key := scans[j].key;
    assert ListsKey(scans, key);
    assert FirstAt(scans, key) == j && LastAt(scans, key) == j;
    AccumulatedLast(scans, key);
  }

  lemma {:induction false} DeltaMade(sc: Schema, g: Graph, ix: Image, works: Graph, creates: Graph, overrides: seq<Override>, delta: IndexDelta)
    requires delta.created == creates && Proposal(sc, ix.targetFields, g, works, creates)
    requires CreatedTargets(ix.targetFields, creates, delta.targets)
    requires Rescanned(sc, g, works, creates, AsFields(delta.fields))
    requires forall fk :: fk in AsFields(delta.fields) ==> FieldLegal(sc, Overlaid(g, works, creates), fk)
    requires ForestLegal(sc, ix.fields + AsFields(delta.fields), Overlay(ix.owners, Afters(delta.owners)))
    requires ChangesFrom(ix.owners, delta.owners) && NoneReleased(delta.owners)
    requires Lists(overrides, works + creates) && InverseCollected(sc, ix.fields, overrides, delta.fields, delta.inverseTargets)
    ensures DeltaSound(sc, g, ix, works, creates, delta)
  {
    hide Proposal, CreatedTargets, Rescanned, FieldLegal, ForestLegal, AsFields, ObservedBy;
    forall t ensures ListsNode(overrides, t) <==> t in works + creates {
    }
  }

  /** A sound delta is one the conditions allow. */
  lemma {:induction false} SoundAccepts(sc: Schema, g: Graph, ix: Image, resources: seq<Override>, creates: Graph, delta: IndexDelta)
    requires DistinctOverrides(resources) && DeltaSound(sc, g, ix, WorksOf(resources), creates, delta)
    ensures Acceptable(sc, g, ix, resources, creates)
  {
    var owners := Overlay(ix.owners, Afters(delta.owners));
    forall i | 0 <= i < |resources| ensures Rewrites(ix.targetFields, g, resources[i]) {
      WorksAt(resources, i);
    }
    hide Rescanned, ForestLegal, FieldLegal, Rewrites, WorksOf, CreatedTargets, ObservedBy;
    assert ix.owners.Keys <= owners.Keys;
    assert Accepts(sc, g, ix, resources, creates, AsFields(delta.fields), owners);
  }
}
