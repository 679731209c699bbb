/** Which commits the index delta leaves alone and which it refuses, said of the values relations look rows up by. */
module RelationAddresses {
  import opened RelationSchema
  import opened RelationGraph
  import opened RelationOverlays
  import opened RelationDeltas
  import opened RelationIndexDeltas
  import opened RelationModels
  import opened RelationTransactions
  import opened RelationLaws

  /** Some live row has a relation that looks rows of this type up by this field. */
  ghost predicate LookedUp(sc: Schema, g: Graph, typ: string, field: string) {
    exists h, f :: LooksUpBy(sc, g, h, f, typ, field)
  }

  ghost predicate LooksUpBy(sc: Schema, g: Graph, h: NodeKey, f: nat, typ: string, field: string) {
    && h in g && h.typ in sc && f in sc[h.typ] && !sc[h.typ][f].kind.Inverse?
    && sc[h.typ][f].target == typ && LeadsBy(sc[h.typ][f]) == field
  }

  lemma {:induction false} SearchableMeans(sc: Schema, g: Graph, tf: TargetFields, lk: TargetKey)
    requires TargetFieldsExact(sc, g, tf)
    ensures Searchable(tf, lk) <==> LookedUp(sc, g, lk.typ, lk.field)
  {
    hide Searchable;
    if fk :| LooksUp(sc, g, fk, lk) {
      assert LooksUpBy(sc, g, fk.holder, fk.field, lk.typ, lk.field);
    }
    if h, f :| LooksUpBy(sc, g, h, f, lk.typ, lk.field) {
      assert LooksUp(sc, g, FieldKey(h, f), lk);
    }
  }

  /** Rewritten rows are live and keep every value somebody looks rows of their type up by. */
  ghost predicate KeepsLookups(sc: Schema, g: Graph, o: Override) {
    o.key in g && forall field :: LookedUp(sc, g, o.key.typ, field) ==>
                                    (field in g[o.key].scalars <==> field in o.row.scalars)
                                    && (field in g[o.key].scalars && field in o.row.scalars ==> g[o.key].scalars[field] == o.row.scalars[field])
  }

  /** The relations of new rows look up only what live rows look up already. */
  ghost predicate LooksUpKnown(sc: Schema, g: Graph, creates: Graph) {
    forall h, f, typ, field :: LooksUpBy(sc, creates, h, f, typ, field) ==> LookedUp(sc, g, typ, field)
  }

  /** A new row has a value, in a field somebody looks its type up by, that another row has too, live or new. */
  ghost predicate SharesKey(sc: Schema, g: Graph, creates: Graph, k: NodeKey, field: string, v: Value) {
    && LookedUp(sc, g, k.typ, field) && Carries(creates, k, k.typ, field, v)
    && ((exists j :: Carries(g, j, k.typ, field, v)) || exists j :: j != k && Carries(creates, j, k.typ, field, v))
  }

  lemma {:induction false} RewritesMean(sc: Schema, g: Graph, tf: TargetFields, o: Override)
    requires TargetFieldsExact(sc, g, tf)
    ensures Rewrites(tf, g, o) <==> KeepsLookups(sc, g, o)
  {
    hide LookedUp, TargetFieldsExact;
    forall field ensures (o.key.typ in tf && field in tf[o.key.typ]) <==> LookedUp(sc, g, o.key.typ, field) {
      SearchableMeans(sc, g, tf, TargetKey(o.key.typ, field, IntValue(0)));
    }
  }

  lemma {:induction false} CoversMeans(sc: Schema, g: Graph, tf: TargetFields, creates: Graph)
    requires TargetFieldsExact(sc, g, tf)
    ensures Covers(sc, creates, tf) <==> LooksUpKnown(sc, g, creates)
  {
    hide LookedUp, TargetFieldsExact, Searchable;
    forall lk ensures Searchable(tf, lk) <==> LookedUp(sc, g, lk.typ, lk.field) {
      SearchableMeans(sc, g, tf, lk);
    }
    if Covers(sc, creates, tf) {
      forall h, f, typ, field | LooksUpBy(sc, creates, h, f, typ, field) ensures LookedUp(sc, g, typ, field) {
        var fk := FieldKey(h, f);
        assert HasField(sc, creates, fk) && Searchable(tf, Lookup(SpecOf(sc, fk), IntValue(0)));
      }
    }
    if LooksUpKnown(sc, g, creates) {
      forall fk, v | HasField(sc, creates, fk) ensures Searchable(tf, Lookup(SpecOf(sc, fk), v)) {
        assert LooksUpBy(sc, creates, fk.holder, fk.field, SpecOf(sc, fk).target, LeadsBy(SpecOf(sc, fk)));
      }
    }
  }

  /** The index delta reports a taken key if and only if it could have gone on otherwise and some new row shares one. */
  lemma {:induction false} KeyClashMeans(sc: Schema, g: Graph, ix: Image, resources: seq<Override>, creates: Graph)
    requires Mirrors(sc, g, ix)
    ensures KeyClash(sc, g, ix, resources, creates) <==>
            && (forall i :: 0 <= i < |resources| ==> KeepsLookups(sc, g, resources[i])) && LooksUpKnown(sc, g, creates)
            && exists k, field, v :: SharesKey(sc, g, creates, k, field, v)
  {
    hide *;
    MirrorsTargets(sc, g, ix);
    forall i | 0 <= i < |resources| ensures Rewrites(ix.targetFields, g, resources[i]) <==> KeepsLookups(sc, g, resources[i]) {
      RewritesMean(sc, g, ix.targetFields, resources[i]);
    }
    CoversMeans(sc, g, ix.targetFields, creates);
    TakenSomewhere(sc, g, ix, creates);
    KeyClashIs(sc, g, ix, resources, creates);
  }

  lemma {:induction false} MirrorsTargets(sc: Schema, g: Graph, ix: Image)
    requires Mirrors(sc, g, ix)
    ensures TargetFieldsExact(sc, g, ix.targetFields) && TargetIndexExact(g, ix.targetFields, ix.targets)
  {
  }

  lemma {:induction false} KeyClashIs(sc: Schema, g: Graph, ix: Image, resources: seq<Override>, creates: Graph)
    ensures KeyClash(sc, g, ix, resources, creates) <==>
            && (forall i :: 0 <= i < |resources| ==> Rewrites(ix.targetFields, g, resources[i])) && Covers(sc, creates, ix.targetFields)
            && exists k, lk :: Taken(ix.targetFields, ix.targets, creates, k, lk)
  {
  }

  lemma {:induction false} TakenMeans(sc: Schema, g: Graph, ix: Image, creates: Graph, k: NodeKey, lk: TargetKey)
    requires TargetFieldsExact(sc, g, ix.targetFields) && TargetIndexExact(g, ix.targetFields, ix.targets)
    ensures Taken(ix.targetFields, ix.targets, creates, k, lk) <==> lk.typ == k.typ && SharesKey(sc, g, creates, k, lk.field, lk.value)
  {
    hide LookedUp, TargetFieldsExact, Searchable, Bears, Carries;
    SearchableMeans(sc, g, ix.targetFields, lk);
    forall j ensures (Bears(g, j, lk) <==> Carries(g, j, lk.typ, lk.field, lk.value)) && (Bears(creates, j, lk) <==> Carries(creates, j, lk.typ, lk.field, lk.value)) {
      CarriesIs(g, j, lk);
      CarriesIs(creates, j, lk);
    }
    BearsTyped(creates, k, lk);
  }

  lemma {:induction false} BearsTyped(g: Graph, k: NodeKey, lk: TargetKey)
    ensures Bears(g, k, lk) ==> k.typ == lk.typ
  {
  }

  lemma {:induction false} TakenSomewhere(sc: Schema, g: Graph, ix: Image, creates: Graph)
    requires TargetFieldsExact(sc, g, ix.targetFields) && TargetIndexExact(g, ix.targetFields, ix.targets)
    ensures (exists k, lk :: Taken(ix.targetFields, ix.targets, creates, k, lk)) <==> exists k, field, v :: SharesKey(sc, g, creates, k, field, v)
  {
    hide Taken, SharesKey, TargetFieldsExact, TargetIndexExact;
    if k, lk :| Taken(ix.targetFields, ix.targets, creates, k, lk) {
      TakenMeans(sc, g, ix, creates, k, lk);
    }
    if k, field, v :| SharesKey(sc, g, creates, k, field, v) {
      TakenMeans(sc, g, ix, creates, k, TargetKey(k.typ, field, v));
    }
  }

  /** The delta is tried for commits that keep their lookups, look up what is known, and bring rows whose keys nobody has. */
  lemma {:induction false} AddressedMeans(sc: Schema, g: Graph, ix: Image, resources: seq<Override>, creates: Graph)
    requires Mirrors(sc, g, ix)
    ensures Addressed(sc, g, ix.targetFields, resources, creates) <==>
            && (forall i :: 0 <= i < |resources| ==> KeepsLookups(sc, g, resources[i])) && LooksUpKnown(sc, g, creates)
            && creates.Keys !! g.Keys && forall k, field, v :: !SharesKey(sc, g, creates, k, field, v)
  {
    hide *;
    MirrorsTargets(sc, g, ix);
    forall i | 0 <= i < |resources| ensures Rewrites(ix.targetFields, g, resources[i]) <==> KeepsLookups(sc, g, resources[i]) {
      RewritesMean(sc, g, ix.targetFields, resources[i]);
    }
    CoversMeans(sc, g, ix.targetFields, creates);
    SharedMeans(sc, g, ix.targetFields, creates);
    AddressedIs(sc, g, ix, resources, creates);
  }

  lemma {:induction false} AddressedIs(sc: Schema, g: Graph, ix: Image, resources: seq<Override>, creates: Graph)
    ensures Addressed(sc, g, ix.targetFields, resources, creates) <==>
            && (forall i :: 0 <= i < |resources| ==> Rewrites(ix.targetFields, g, resources[i]))
            && Covers(sc, creates, ix.targetFields) && KeysFresh(ix.targetFields, g, creates)
  {
  }

  /** A committed model is reused for transactions that bring no new type, keep their lookups and bring rows whose keys nobody has. */
  lemma {:induction false} ReusableMeans(sc: Schema, committed: RelationModel, live: Graph, works: Graph, creates: Graph)
    requires TargetFieldsExact(sc, live, committed.targetFields)
    ensures Reusable(committed, live, works, creates) <==>
            && (forall k :: k in creates ==> exists j :: j in live && j.typ == k.typ)
            && (forall k :: k in works ==> KeepsLookups(sc, live, Override(k, works[k])))
            && creates.Keys !! live.Keys && forall k, field, v :: !SharesKey(sc, live, creates, k, field, v)
  {
    hide TargetFieldsExact, LookedUp, Searchable, Bears, Carries;
    var tf := committed.targetFields;
    KeysKeptMeans(sc, live, tf, works);
    SharedMeans(sc, live, tf, creates);
  }

  lemma {:induction false} KeysKeptMeans(sc: Schema, g: Graph, tf: TargetFields, works: Graph)
    requires TargetFieldsExact(sc, g, tf)
    ensures KeysKept(tf, g, works) <==> forall k :: k in works ==> KeepsLookups(sc, g, Override(k, works[k]))
  {
    hide TargetFieldsExact, LookedUp;
    forall k, field ensures (k in works && k.typ in tf && field in tf[k.typ]) <==> (k in works && LookedUp(sc, g, k.typ, field)) {
      if k in works {
        SearchableMeans(sc, g, tf, TargetKey(k.typ, field, IntValue(0)));
      }
    }
    if KeysKept(tf, g, works) {
      forall k | k in works ensures KeepsLookups(sc, g, Override(k, works[k])) {
      }
    }
    if forall k :: k in works ==> KeepsLookups(sc, g, Override(k, works[k])) {
      forall k, field | k in works && k.typ in tf && field in tf[k.typ] ensures SameScalar(g[k], works[k], field) {
        assert KeepsLookups(sc, g, Override(k, works[k])) && LookedUp(sc, g, k.typ, field);
      }
      forall k | k in works ensures k in g {
        assert KeepsLookups(sc, g, Override(k, works[k]));
      }
    }
  }

  lemma {:induction false} SharedMeans(sc: Schema, g: Graph, tf: TargetFields, creates: Graph)
    requires TargetFieldsExact(sc, g, tf)
    ensures KeysFresh(tf, g, creates) <==> creates.Keys !! g.Keys && forall k, field, v :: !SharesKey(sc, g, creates, k, field, v)
  {
    hide LookedUp, TargetFieldsExact, Searchable, Bears, Carries;
    forall j, lk
      ensures (Bears(g, j, lk) <==> Carries(g, j, lk.typ, lk.field, lk.value)) && (Bears(creates, j, lk) <==> Carries(creates, j, lk.typ, lk.field, lk.value))
      ensures Searchable(tf, lk) <==> LookedUp(sc, g, lk.typ, lk.field)
    {
      CarriesIs(g, j, lk);
      CarriesIs(creates, j, lk);
      SearchableMeans(sc, g, tf, lk);
    }
    if KeysFresh(tf, g, creates) {
      forall k, field, v ensures !SharesKey(sc, g, creates, k, field, v) {
        var lk := TargetKey(k.typ, field, v);
        assert Bears(creates, k, lk) <==> Carries(creates, k, k.typ, field, v);
      }
    }
    if creates.Keys !! g.Keys && forall k, field, v :: !SharesKey(sc, g, creates, k, field, v) {
      forall k, lk | Searchable(tf, lk) && Bears(creates, k, lk)
        ensures (forall j :: !Bears(g, j, lk)) && forall j :: Bears(creates, j, lk) ==> j == k
      {
        BearsTyped(creates, k, lk);
        assert !SharesKey(sc, g, creates, k, lk.field, lk.value);
      }
    }
  }
}
