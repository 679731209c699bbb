/** Building an index delta: rescan only the touched holders and judge only the affected children. */
module RelationDeltas {
  import opened RelationSchema
  import opened Wrappers
  import opened Ordering
  import opened RelationGraph
  import opened RelationModels
  import opened TargetIndexes
  import opened RelationOverlays

  /** A row the commit proposes for a node. */
  datatype Override = Override(key: NodeKey, row: Row)

  ghost predicate DistinctOverrides(overrides: seq<Override>) {
    forall i, j :: 0 <= i < j < |overrides| ==> overrides[i].key != overrides[j].key
  }

  /** The rewritten rows by node; a node listed twice keeps its last row. */
  function WorksOf(resources: seq<Override>): (works: Graph)
    ensures forall k :: k in works <==> exists i :: 0 <= i < |resources| && resources[i].key == k
  {
    if resources == [] then map[]
    else
      var last := |resources| - 1;
      var before := WorksOf(resources[..last]);
      assert forall i :: 0 <= i < last ==> resources[..last][i].key == resources[i].key;
      before[resources[last].key := resources[last].row]
  }

  lemma {:induction false} WorksAt(resources: seq<Override>, i: nat)
    requires DistinctOverrides(resources) && i < |resources|
    ensures resources[i].key in WorksOf(resources) && WorksOf(resources)[resources[i].key] == resources[i].row
  {
    var last := |resources| - 1;
    if i < last {
      WorksAt(resources[..last], i);
    }
  }

  lemma {:induction false} WorksFrom(resources: seq<Override>, k: NodeKey)
    requires k in WorksOf(resources)
    ensures exists i :: 0 <= i < |resources| && resources[i].key == k && resources[i].row == WorksOf(resources)[k]
  {
    var last := |resources| - 1;
    if resources[last].key != k {
      WorksFrom(resources[..last], k);
      var i :| 0 <= i < last && resources[..last][i].key == k && resources[..last][i].row == WorksOf(resources[..last])[k];
      assert resources[i].key == k;
    }
  }

  function RelationIndexKeyChanged(tf: TargetFields, key: NodeKey, before: Row, after: Row): bool {
    key.typ in tf && exists field :: field in tf[key.typ] && !SameScalar(before, after, field)
  }

  // ---------------------------------------------------------------- lookup entries of created nodes

  /** Every lookup of a created node goes through a field that is indexed already. */
  method CreatesSupported(sc: Schema, tf: TargetFields, creates: Graph) returns (supported: bool)
    ensures supported <==> Covers(sc, creates, tf)
  {
    var rest := creates.Keys;
    while rest != {}
      invariant rest <= creates.Keys
      invariant forall fk, v :: HasField(sc, creates, fk) && fk.holder !in rest ==> Searchable(tf, Lookup(SpecOf(sc, fk), v))
      decreases |rest|
    {
      var key :| key in rest;
      if exists field :: field in FieldsOfType(sc, key.typ) && !Named(tf, sc[key.typ][field]) {
        ghost var field :| field in FieldsOfType(sc, key.typ) && !Named(tf, sc[key.typ][field]);
        Uncovered(sc, tf, creates, key, field);
        return false;
      }
      forall fk, v | HasField(sc, creates, fk) && fk.holder == key ensures Searchable(tf, Lookup(SpecOf(sc, fk), v)) {
        assert fk.field in FieldsOfType(sc, key.typ);
      }
      rest := rest - {key};
    }
    supported := true;
  }

  lemma {:induction false} Uncovered(sc: Schema, tf: TargetFields, creates: Graph, key: NodeKey, field: nat)
    requires key in creates && field in FieldsOfType(sc, key.typ) && !Named(tf, sc[key.typ][field])
    ensures !Covers(sc, creates, tf)
  {
    var fk := FieldKey(key, field);
    assert HasField(sc, creates, fk) && !Searchable(tf, Lookup(SpecOf(sc, fk), IntValue(0)));
  }

  predicate Named(tf: TargetFields, spec: Spec) {
    spec.target in tf && spec.LookupField() in tf[spec.target]
  }

  ghost predicate Unclaimed(targets: TargetIndex, news: TargetIndex) {
    forall lk :: lk in news ==> lk !in targets && !news[lk].duplicate
  }

  /** Created node `k` bears a lookup key that is indexed already or that another created node bears. */
  ghost predicate Taken(tf: TargetFields, targets: TargetIndex, creates: Graph, k: NodeKey, lk: TargetKey) {
    Searchable(tf, lk) && Bears(creates, k, lk) && (lk in targets || exists j :: j != k && Bears(creates, j, lk))
  }

  /** The lookup entries the created nodes add, refused exactly when any of their keys is taken. */
  method IndexCreatedTargets(tf: TargetFields, targets: TargetIndex, creates: Graph)
    returns (r: Result<TargetIndex, RelationError>)
    ensures r.Ok? ==> CreatedTargets(tf, creates, r.value) && Unclaimed(targets, r.value)
    ensures r.Err? <==> exists k, lk :: Taken(tf, targets, creates, k, lk)
    ensures r.Ok? ==> forall j, k, lk :: Searchable(tf, lk) && Bears(creates, j, lk) && Bears(creates, k, lk) ==> j == k
  {
    hide IndexPartly, Bears, Taken;
    var news: TargetIndex := map[];
    var rest := creates.Keys;
    ghost var any := NodeKey("", 0);
    NothingIndexed(tf, creates, any);
    assert creates.Keys - rest == {};
    while rest != {}
      invariant rest <= creates.Keys && IndexPartly(creates, tf, creates.Keys - rest, any, {}, news)
      invariant Unclaimed(targets, news)
      decreases |rest|
    {
      var key :| key in rest;
      ghost var done := creates.Keys - rest;
      var ok: bool;
      ok, news := IndexCreatedNode(tf, targets, creates, done, news, key);
      if !ok {
        return Err(InvalidField);
      }
      assert creates.Keys - (rest - {key}) == done + {key};
      rest := rest - {key};
    }
    assert creates.Keys - rest == creates.Keys;
    CreatedIndexed(tf, creates, any, news);
    NoneTaken(tf, targets, creates, news);
    r := Ok(news);
  }

  lemma {:induction false} NoneTaken(tf: TargetFields, targets: TargetIndex, creates: Graph, news: TargetIndex)
    requires CreatedTargets(tf, creates, news) && Unclaimed(targets, news)
    requires forall j, k, lk :: Searchable(tf, lk) && Bears(creates, j, lk) && Bears(creates, k, lk) ==> j == k
    ensures forall k, lk :: !Taken(tf, targets, creates, k, lk)
  {
    hide Bears;
    forall k, lk ensures !Taken(tf, targets, creates, k, lk) {
      assert Searchable(tf, lk) && Bears(creates, k, lk) ==> lk in news;
    }
  }

  lemma {:induction false} NothingIndexed(tf: TargetFields, g: Graph, any: NodeKey)
    ensures IndexPartly(g, tf, {}, any, {}, map[])
  {
  }

  lemma {:induction false} CreatedIndexed(tf: TargetFields, creates: Graph, any: NodeKey, news: TargetIndex)
    requires IndexPartly(creates, tf, creates.Keys, any, {}, news) && Unclaimed(map[], news)
    ensures CreatedTargets(tf, creates, news)
    ensures forall j, k, lk :: Searchable(tf, lk) && Bears(creates, j, lk) && Bears(creates, k, lk) ==> j == k
  {
    forall k, lk ensures Indexed(creates, creates.Keys, any, {}, k, lk) <==> Bears(creates, k, lk) {
    }
    hide Bears;
    forall j, k, lk | Searchable(tf, lk) && Bears(creates, j, lk) && Bears(creates, k, lk) ensures j == k {
      assert Indexed(creates, creates.Keys, any, {}, j, lk) && Indexed(creates, creates.Keys, any, {}, k, lk);
      assert lk in news;
    }
  }

  lemma {:induction false} KeyTaken(tf: TargetFields, targets: TargetIndex, creates: Graph, done: set<NodeKey>, key: NodeKey,
                                    doneFields: set<string>, news: TargetIndex, lk: TargetKey)
    requires IndexPartly(creates, tf, done, key, doneFields, news) && key !in done && lk.field !in doneFields
    requires Searchable(tf, lk) && Bears(creates, key, lk) && (lk in targets || lk in news)
    ensures Taken(tf, targets, creates, key, lk)
  {
    if lk in news {
      var j := news[lk].key;
      assert Indexed(creates, done, key, doneFields, j, lk);
      assert j != key && Bears(creates, j, lk);
    }
  }

  method IndexCreatedNode(tf: TargetFields, targets: TargetIndex, creates: Graph, ghost done: set<NodeKey>, news0: TargetIndex, key: NodeKey)
    returns (ok: bool, news: TargetIndex)
    requires key in creates && key !in done && IndexPartly(creates, tf, done, NodeKey("", 0), {}, news0)
    requires Unclaimed(targets, news0)
    ensures ok ==> IndexPartly(creates, tf, done + {key}, NodeKey("", 0), {}, news) && Unclaimed(targets, news)
    ensures !ok ==> exists lk :: Taken(tf, targets, creates, key, lk)
  {
    hide IndexPartly, Indexed, Taken;
    news := news0;
    var all := if key.typ in tf then tf[key.typ] else {};
    var rest := all;
    RenameKey(creates, tf, done, key, news);
    assert all - rest == {};
    while rest != {}
      invariant rest <= all && IndexPartly(creates, tf, done, key, all - rest, news) && Unclaimed(targets, news)
      decreases |rest|
    {
      var field :| field in rest;
      ghost var before, doneFields := news, all - rest;
      if field in creates[key].scalars {
        var lk := TargetKey(key.typ, field, creates[key].scalars[field]);
        if lk in targets || lk in news {
          KeyTaken(tf, targets, creates, done, key, doneFields, news, lk);
          return false, news;
        }
        news := news[lk := IndexedTarget(key, false)];
      }
      KeyIndexed(creates, tf, done, key, doneFields, field, before, news);
      assert all - (rest - {field}) == doneFields + {field};
      rest := rest - {field};
    }
    assert all - rest == all;
    NodeIndexed(creates, tf, done, key, all, news);
    ok := true;
  }

  // ---------------------------------------------------------------- scanning a proposed row

  /** What the delta demands of one proposed field. */
  ghost predicate ScanLegal(h: Graph, spec: Spec, refs: seq<Option<Value>>) {
    && (forall i :: 0 <= i < |refs| ==> RefLegal(h, spec, refs[i]))
    && (spec.kind == Own ==> Distinct(Targets(h, spec, refs)))
  }

  /** One proposed field: its targets in the proposed graph, or a refusal exactly when the field is illegal. */
  method ScanIndexedRelationField(ghost h: Graph, tf: TargetFields, targets: TargetIndex, news: TargetIndex,
                                  spec: Spec, refs: seq<Option<Value>>)
    returns (r: Result<seq<NodeKey>, RelationError>)
    requires TargetIndexExact(h, tf, targets + news) && Named(tf, spec)
    ensures r.Ok? <==> ScanLegal(h, spec, refs)
    ensures r.Ok? ==> r.value == Targets(h, spec, refs)
  {
    hide TargetIndexExact, Resolve;
    var scanned: seq<NodeKey> := [];
    var seen: set<NodeKey> := {};
    var position := 0;
    while position < |refs|
      invariant 0 <= position <= |refs| && scanned == Targets(h, spec, refs[..position])
      invariant forall i :: 0 <= i < position ==> RefLegal(h, spec, refs[i])
      invariant spec.kind == Own ==> Distinct(scanned) && SeenIs(seen, scanned)
    {
      var pointer := refs[position];
      TargetsStep(h, spec, refs, position);
      var resolution := if pointer == None then Missing
                        else if Lookup(spec, pointer.value) in news then LookupIn(news, Lookup(spec, pointer.value))
                        else LookupIn(targets, Lookup(spec, pointer.value));
      if pointer.Some? {
        UnionResolves(h, tf, targets, news, Lookup(spec, pointer.value));
      }
      if resolution == Clash {
        assert !RefLegal(h, spec, pointer);
        return Err(InvalidField);
      }
      if resolution == Missing {
        if !spec.MayBeMissing() {
          assert !RefLegal(h, spec, pointer);
          return Err(RequiredMissing);
        }
      } else {
        var target := resolution.key;
        if spec.kind == Own && target in seen {
          RepeatedScan(h, spec, refs, position, target);
          return Err(InvalidField);
        }
        scanned := scanned + [target];
        seen := seen + {target};
      }
      assert RefLegal(h, spec, pointer);
      position := position + 1;
    }
    assert refs[..position] == refs;
    r := Ok(scanned);
  }

  lemma {:induction false} UnionResolves(h: Graph, tf: TargetFields, targets: TargetIndex, news: TargetIndex, lk: TargetKey)
    requires TargetIndexExact(h, tf, targets + news) && Searchable(tf, lk)
    ensures (if lk in news then LookupIn(news, lk) else LookupIn(targets, lk)) == Resolve(h, lk)
  {
    LookupResolves(h, tf, targets + news, lk);
  }

  lemma {:induction false} RepeatedScan(h: Graph, spec: Spec, refs: seq<Option<Value>>, i: nat, target: NodeKey)
    requires i < |refs| && Target(h, spec, refs[i]) == Some(target) && target in Targets(h, spec, refs[..i])
    ensures !Distinct(Targets(h, spec, refs))
  {
    var prefix, all := Targets(h, spec, refs[..i]), Targets(h, spec, refs);
    TargetsStep(h, spec, refs, i);
    TargetsPrefix(h, spec, refs, i + 1);
    var p :| 0 <= p < |prefix| && prefix[p] == target;
    assert all[p] == all[|prefix|] && p < |prefix| < |all|;
  }
}
