/** Rewiring live pointers to the published targets leaves every resolution as it was and no pointer dangling. */
module RelationRewiring {
  import opened RelationSchema
  import opened Wrappers
  import opened Ordering
  import opened RelationGraph
  import opened RelationScan
  import opened RelationOverlays

  /** The key a pointer to `target` is looked up by. */
  function PointerTo(g: Graph, spec: Spec, target: NodeKey): Option<Value> {
    if target in g && spec.LookupField() in g[target].scalars then Some(g[target].scalars[spec.LookupField()]) else None
  }

  /** A field set to point at `targets`: a slice in order, a to-one field at the first. */
  function Wire(g: Graph, spec: Spec, targets: seq<NodeKey>): seq<Option<Value>> {
    seq(if spec.many || targets == [] then |targets| else 1, i requires 0 <= i < |targets| => PointerTo(g, spec, targets[i]))
  }

  /** The fields in `patch` point at their targets, nothing else moved. */
  ghost predicate Wired(sc: Schema, h: Graph, patch: Fields, wired: Graph) {
    && SameScalars(h, wired)
    && (forall k :: k in h ==> wired[k].views == h[k].views)
    && (forall fk :: HasField(sc, h, fk) ==>
          LinkAt(wired[fk.holder], fk.field) == if fk in patch then Wire(h, SpecOf(sc, fk), patch[fk]) else LinkAt(h[fk.holder], fk.field))
  }

  /** No live pointer names a key that nothing bears. */
  ghost predicate NothingDangles(sc: Schema, g: Graph) {
    forall fk, lk, i :: !DanglesAt(sc, g, fk, lk, i)
  }

  /** What every publication leaves behind: a legal graph, its index, no dangling pointer, exact inverse views. */
  ghost predicate Steady(sc: Schema, g: Graph, ix: Image) {
    Committed(sc, g, ix) && NothingDangles(sc, g) && ViewsExact(sc, g, ix.fields)
  }

  lemma {:induction false} SettledWaitsForNobody(sc: Schema, g: Graph, works: Graph, creates: Graph)
    requires NothingDangles(sc, g)
    ensures NoneWaiting(sc, g, works, creates)
  {
    hide DanglesAt, Bears;
  }

  lemma {:induction false} SameResolve(a: Graph, b: Graph, lk: TargetKey)
    requires SameScalars(a, b)
    ensures forall k :: Bears(a, k, lk) <==> Bears(b, k, lk)
    ensures forall k :: Sole(a, k, lk) <==> Sole(b, k, lk)
    ensures Resolve(a, lk) == Resolve(b, lk)
  {
    forall k ensures Bears(a, k, lk) <==> Bears(b, k, lk) {
    }
    hide Bears;
    assert forall k :: Sole(a, k, lk) <==> Sole(b, k, lk);
  }

  lemma {:induction false} SameTarget(a: Graph, b: Graph, spec: Spec, ref: Option<Value>)
    requires SameScalars(a, b)
    ensures Target(a, spec, ref) == Target(b, spec, ref)
    ensures RefLegal(a, spec, ref) <==> RefLegal(b, spec, ref)
  {
    if ref.Some? {
      SameResolve(a, b, Lookup(spec, ref.value));
    }
  }

  lemma {:induction false} SameTargets(a: Graph, b: Graph, spec: Spec, refs: seq<Option<Value>>)
    requires SameScalars(a, b)
    ensures Targets(a, spec, refs) == Targets(b, spec, refs)
  {
    forall i | 0 <= i < |refs| ensures Target(a, spec, refs[i]) == Target(b, spec, refs[i]) {
      SameTarget(a, b, spec, refs[i]);
    }
    TargetsSame(a, b, spec, refs);
  }

  /** A pointer rewired to the target it resolved to resolves to it again. */
  lemma {:induction false} PointerReturns(g: Graph, spec: Spec, ref: Option<Value>)
    requires Target(g, spec, ref).Some?
    ensures PointerTo(g, spec, Target(g, spec, ref).value) == ref
  {
    TargetBears(g, spec, ref);
  }

  lemma {:induction false} TargetsPoint(g: Graph, spec: Spec, refs: seq<Option<Value>>, i: nat)
    requires i < |Targets(g, spec, refs)|
    ensures Target(g, spec, PointerTo(g, spec, Targets(g, spec, refs)[i])) == Some(Targets(g, spec, refs)[i])
  {
    var target := Targets(g, spec, refs)[i];
    TargetsMember(g, spec, refs, target);
    var j :| 0 <= j < |refs| && Target(g, spec, refs[j]) == Some(target);
    PointerReturns(g, spec, refs[j]);
  }

  lemma {:induction false} TargetsAll(g: Graph, spec: Spec, pointers: seq<Option<Value>>, targets: seq<NodeKey>)
    requires |pointers| == |targets|
    requires forall i :: 0 <= i < |targets| ==> Target(g, spec, pointers[i]) == Some(targets[i])
    ensures Targets(g, spec, pointers) == targets
  {
    if pointers != [] {
      var last := |pointers| - 1;
      TargetsAll(g, spec, pointers[..last], targets[..last]);
      assert targets == targets[..last] + [targets[last]];
    }
  }

  /** The pointers a field reads back once it is wired to its own targets. */
  lemma {:induction false} WiredReads(h: Graph, spec: Spec, refs: seq<Option<Value>>, row: Row, field: nat)
    requires LinkAt(row, field) == Wire(h, spec, Targets(h, spec, refs)) && (!spec.many ==> |refs| == 1)
    requires forall i :: 0 <= i < |refs| ==> RefLegal(h, spec, refs[i])
    ensures var read := Refs(row, spec, field);
            && Targets(h, spec, read) == Targets(h, spec, refs)
            && (forall i :: 0 <= i < |read| ==> RefLegal(h, spec, read[i]))
            && (forall i :: 0 <= i < |read| && read[i].Some? ==> Target(h, spec, read[i]).Some?)
  {
    var targets, read := Targets(h, spec, refs), Refs(row, spec, field);
    TargetsShort(h, spec, refs);
    forall i | 0 <= i < |targets| ensures Target(h, spec, PointerTo(h, spec, targets[i])) == Some(targets[i]) {
      TargetsPoint(h, spec, refs, i);
    }
    hide RefLegal, PointerTo, Target;
    if spec.many || targets != [] {
      assert |read| == |targets| && forall i :: 0 <= i < |targets| ==> read[i] == PointerTo(h, spec, targets[i]);
      TargetsAll(h, spec, read, targets);
      forall i | 0 <= i < |read| ensures RefLegal(h, spec, read[i]) && Target(h, spec, read[i]).Some? {
        FoundIsLegal(h, spec, read[i]);
      }
    } else {
      assert read == [None];
      NilIsLegal(h, spec, refs);
    }
  }

  lemma {:induction false} FoundIsLegal(g: Graph, spec: Spec, ref: Option<Value>)
    requires Target(g, spec, ref).Some?
    ensures RefLegal(g, spec, ref)
  {
  }

  lemma {:induction false} NilIsLegal(g: Graph, spec: Spec, refs: seq<Option<Value>>)
    requires |refs| == 1 && RefLegal(g, spec, refs[0]) && Targets(g, spec, refs) == []
    ensures RefLegal(g, spec, None) && Targets(g, spec, [None]) == []
  {
    var nil: seq<Option<Value>> := [None];
    assert nil[..0] == [];
    assert refs[..0] == [];
    TargetsStep(g, spec, refs, 0);
    assert refs[..1] == refs;
  }

  // ---------------------------------------------------------------- the whole graph

  /** What field `fk` means before and after: the same targets, still legal, and nothing newly dangling. */
  ghost predicate MeansSame(sc: Schema, a: Graph, b: Graph, fk: FieldKey)
    requires HasField(sc, a, fk) && HasField(sc, b, fk)
  {
    && TargetsAt(sc, b, fk) == TargetsAt(sc, a, fk)
    && (FieldLegal(sc, a, fk) ==> FieldLegal(sc, b, fk))
  }

  lemma {:induction false} WiredField(sc: Schema, h: Graph, patch: Fields, wired: Graph, fk: FieldKey)
    requires Wired(sc, h, patch, wired) && HasField(sc, h, fk) && fk in patch
    requires patch[fk] == TargetsAt(sc, h, fk) && FieldLegal(sc, h, fk)
    ensures HasField(sc, wired, fk) && MeansSame(sc, h, wired, fk)
    ensures forall lk, i :: !DanglesAt(sc, wired, fk, lk, i)
  {
    var spec, refs := SpecOf(sc, fk), RefsAt(sc, h, fk);
    WiredReads(h, spec, refs, wired[fk.holder], fk.field);
    var read := RefsAt(sc, wired, fk);
    SameTargets(h, wired, spec, read);
    hide Refs, Wire, Wired, Resolve, Targets;
    forall i | 0 <= i < |read| ensures RefLegal(wired, spec, read[i]) && (read[i].Some? ==> Target(wired, spec, read[i]).Some?) {
      SameTarget(h, wired, spec, read[i]);
    }
  }

  lemma {:induction false} UnwiredField(sc: Schema, h: Graph, wired: Graph, fk: FieldKey)
    requires SameScalars(h, wired) && HasField(sc, h, fk) && RefsAt(sc, wired, fk) == RefsAt(sc, h, fk)
    ensures MeansSame(sc, h, wired, fk)
    ensures forall lk, i :: DanglesAt(sc, wired, fk, lk, i) <==> DanglesAt(sc, h, fk, lk, i)
  {
    var spec, refs := SpecOf(sc, fk), RefsAt(sc, h, fk);
    SameTargets(h, wired, spec, refs);
    hide Refs, Resolve, Targets, RefLegal;
    forall i | 0 <= i < |refs| ensures RefLegal(h, spec, refs[i]) <==> RefLegal(wired, spec, refs[i]) {
      SameTarget(h, wired, spec, refs[i]);
    }
    forall lk, i ensures DanglesAt(sc, wired, fk, lk, i) <==> DanglesAt(sc, h, fk, lk, i) {
      SameResolve(h, wired, lk);
    }
  }

  /** Where a pointer may dangle once the touched fields are wired: only where an untouched one did. */
  ghost predicate DanglesUntouched(sc: Schema, h: Graph, patch: Fields, fk: FieldKey, lk: TargetKey, i: int) {
    fk !in patch && DanglesAt(sc, h, fk, lk, i)
  }

  /** The wired graph means what the proposed one meant. */
  lemma {:induction false} WiredMeans(sc: Schema, h: Graph, fields: Fields, patch: Fields, wired: Graph)
    requires Wired(sc, h, patch, wired) && FieldsExact(sc, h, fields) && LegalRefs(sc, h)
    requires forall fk :: fk in patch ==> fk in fields && patch[fk] == fields[fk]
    ensures FieldsExact(sc, wired, fields) && LegalRefs(sc, wired)
    ensures forall fk, lk, i :: DanglesAt(sc, wired, fk, lk, i) ==> DanglesUntouched(sc, h, patch, fk, lk, i)
  {
    hide FieldLegal, TargetsAt, DanglesAt, Wire, MeansSame;
    forall fk ensures HasField(sc, wired, fk) <==> HasField(sc, h, fk) {
    }
    forall fk | HasField(sc, h, fk)
      ensures MeansSame(sc, h, wired, fk)
      ensures forall lk, i :: DanglesAt(sc, wired, fk, lk, i) ==> DanglesUntouched(sc, h, patch, fk, lk, i)
    {
      if fk in patch {
        assert FieldLegal(sc, h, fk);
        WiredField(sc, h, patch, wired, fk);
      } else {
        UnwiredField(sc, h, wired, fk);
      }
    }
    MeansExact(sc, h, wired, fields);
    forall fk, lk, i | DanglesAt(sc, wired, fk, lk, i) ensures DanglesUntouched(sc, h, patch, fk, lk, i) {
      DanglingField(sc, wired, fk, lk, i);
    }
  }

  lemma {:induction false} DanglingField(sc: Schema, g: Graph, fk: FieldKey, lk: TargetKey, i: int)
    requires DanglesAt(sc, g, fk, lk, i)
    ensures HasField(sc, g, fk)
  {
  }

  lemma {:induction false} MeansExact(sc: Schema, a: Graph, b: Graph, fields: Fields)
    requires forall fk :: HasField(sc, b, fk) <==> HasField(sc, a, fk)
    requires forall fk :: HasField(sc, a, fk) ==> HasField(sc, b, fk) && MeansSame(sc, a, b, fk)
    requires FieldsExact(sc, a, fields) && LegalRefs(sc, a)
    ensures FieldsExact(sc, b, fields) && LegalRefs(sc, b)
  {
    hide FieldLegal, TargetsAt;
  }

  // ---------------------------------------------------------------- inverse views

  /** The views of `inverse` are recomputed, in ascending order; everything else is as it was. */
  ghost predicate Viewed(sc: Schema, fields: Fields, w: Graph, inverse: set<NodeKey>, viewed: Graph) {
    && viewed.Keys == w.Keys
    && (forall k :: k in w ==> viewed[k].scalars == w[k].scalars && viewed[k].links == w[k].links)
    && (forall k :: k in w && k !in inverse ==> viewed[k].views == w[k].views)
    && (forall k, f :: k in w && k in inverse && IsView(sc, k.typ, f) ==>
          Ascending(ViewAt(viewed[k], f)) && ViewExact(sc, fields, sc[k.typ][f], k, ViewAt(viewed[k], f)))
  }

  /** Views play no part in what relation fields mean. */
  lemma {:induction false} ViewedMeans(sc: Schema, fields: Fields, w: Graph, inverse: set<NodeKey>, viewed: Graph)
    requires Viewed(sc, fields, w, inverse, viewed) && FieldsExact(sc, w, fields) && LegalRefs(sc, w)
    ensures FieldsExact(sc, viewed, fields) && LegalRefs(sc, viewed)
    ensures forall fk, lk, i :: DanglesAt(sc, viewed, fk, lk, i) ==> DanglesAt(sc, w, fk, lk, i)
    ensures SameScalars(w, viewed)
  {
    hide FieldLegal, TargetsAt, DanglesAt, MeansSame, ViewExact, Ascending;
    forall fk ensures HasField(sc, viewed, fk) <==> HasField(sc, w, fk) {
    }
    forall fk | HasField(sc, w, fk)
      ensures MeansSame(sc, w, viewed, fk) && forall lk, i :: DanglesAt(sc, viewed, fk, lk, i) ==> DanglesAt(sc, w, fk, lk, i)
    {
      UnwiredField(sc, w, viewed, fk);
    }
    MeansExact(sc, w, viewed, fields);
    forall fk, lk, i | DanglesAt(sc, viewed, fk, lk, i) ensures DanglesAt(sc, w, fk, lk, i) {
      DanglingField(sc, viewed, fk, lk, i);
    }
  }

  /** A target index describes every graph with the same scalars. */
  lemma {:induction false} SameTargetIndex(a: Graph, b: Graph, tf: TargetFields, targets: TargetIndex)
    requires SameScalars(a, b) && TargetIndexExact(a, tf, targets)
    ensures TargetIndexExact(b, tf, targets)
  {
    forall lk, k ensures (Bears(a, k, lk) <==> Bears(b, k, lk)) && (Sole(a, k, lk) <==> Sole(b, k, lk)) {
      SameResolve(a, b, lk);
    }
    hide Bears, Sole, SameScalars;
  }

  /** The lookup fields depend only on which nodes there are. */
  lemma {:induction false} SameTargetFields(sc: Schema, a: Graph, b: Graph, tf: TargetFields)
    requires a.Keys == b.Keys && TargetFieldsExact(sc, a, tf)
    ensures TargetFieldsExact(sc, b, tf)
  {
    forall lk, fk ensures LooksUp(sc, a, fk, lk) <==> LooksUp(sc, b, fk, lk) {
    }
    hide LooksUp;
    forall lk: TargetKey ensures Searchable(tf, lk) <==> exists fk :: LooksUp(sc, b, fk, lk) {
      assert Searchable(tf, lk) <==> exists fk :: LooksUp(sc, a, fk, lk);
    }
  }
}
