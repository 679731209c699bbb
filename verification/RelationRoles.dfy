/** Which relations a row may go without: slices and options may be empty, nil or dangling, to-one owns, ownedbys and borrows may not. */
module RelationRoles {
  import opened RelationSchema
  import opened Wrappers
  import opened Ordering
  import opened RelationGraph
  import opened RelationScan
  import opened RelationOverlays
  import opened RelationLaws

  /** Nobody has the value the pointer leads by, or it leads by none. */
  ghost predicate Unresolved(g: Graph, spec: Spec, ref: Option<Value>) {
    ref.Some? ==> forall k :: !Carries(g, k, spec.target, LeadsBy(spec), ref.value)
  }

  ghost predicate Lenient(spec: Spec) {
    spec.many || spec.kind.Optional?
  }

  /** A slice or an option whose pointers are all nil or dangling is legal. */
  lemma {:induction false} NothingThereIsLegal(sc: Schema, g: Graph, fk: FieldKey)
    requires WellFormed(sc) && HasField(sc, g, fk) && Lenient(sc[fk.holder.typ][fk.field])
    requires forall i, k :: !Matches(sc, g, fk.holder, fk.field, i, k)
    ensures FieldLegal(sc, g, fk) && TargetsAt(sc, g, fk) == []
  {
    hide Matches, FieldLegal, TargetsAt;
    FieldRules(sc, g, fk);
    forall i, k ensures !Reaches(sc, g, fk.holder, fk.field, i, k) {
    }
    forall k ensures k !in TargetsAt(sc, g, fk) {
      TargetsReached(sc, g, fk, k);
    }
    NoMember(TargetsAt(sc, g, fk));
  }

  lemma {:induction false} NoMember(s: seq<NodeKey>)
    ensures (forall k :: k !in s) ==> s == []
  {
    assert s != [] ==> s[0] in s;
  }

  /** A to-one own, ownedby or borrow without a live target is never legal. */
  lemma {:induction false} MissingIsIllegal(sc: Schema, g: Graph, h: NodeKey, f: nat)
    requires WellFormed(sc) && h in g && h.typ in sc && f in sc[h.typ] && !sc[h.typ][f].many
    requires sc[h.typ][f].kind.Own? || sc[h.typ][f].kind.OwnedBy? || sc[h.typ][f].kind.Borrow?
    requires forall k :: !Reaches(sc, g, h, f, 0, k)
    ensures !Legal(sc, g)
  {
    hide Legal, Unambiguous, OwnedOnce, BothSidesAgree, NoOwnershipCycle, Reaches, WellFormed;
    RulesDecide(sc, g);
    assert Requires(sc, g, h, f);
  }

  // ---------------------------------------------------------------- dropping what leads nowhere

  /** `b` is `a` without some of its unresolved pointers. */
  ghost predicate Thins(g: Graph, spec: Spec, a: seq<Option<Value>>, b: seq<Option<Value>>) {
    if a == [] then b == []
    else
      var n := |a| - 1;
      || (b != [] && b[|b| - 1] == a[n] && Thins(g, spec, a[..n], b[..|b| - 1]))
      || (Unresolved(g, spec, a[n]) && Thins(g, spec, a[..n], b))
  }

  lemma {:induction false} NobodyMeans(g: Graph, spec: Spec, v: Value)
    ensures (forall k :: !Carries(g, k, spec.target, LeadsBy(spec), v)) <==> Resolve(g, Lookup(spec, v)) == Missing
  {
    hide Carries, Resolve;
    var lk := Lookup(spec, v);
    assert lk == TargetKey(spec.target, LeadsBy(spec), v);
    ResolveMeans(g, lk);
  }

  lemma {:induction false} UnresolvedIs(g: Graph, spec: Spec, ref: Option<Value>)
    ensures Unresolved(g, spec, ref) <==> ref == None || Resolve(g, Lookup(spec, ref.value)) == Missing
    ensures Unresolved(g, spec, ref) ==> Target(g, spec, ref) == None
  {
    hide Carries, Resolve, Lookup;
    if ref.Some? {
      NobodyMeans(g, spec, ref.value);
    }
  }

  lemma {:induction false} ThinMeansSame(g: Graph, spec: Spec, a: seq<Option<Value>>, b: seq<Option<Value>>)
    requires Thins(g, spec, a, b)
    ensures Targets(g, spec, a) == Targets(g, spec, b)
    ensures forall r :: r in b ==> r in a
    ensures forall r :: r in a ==> r in b || Unresolved(g, spec, r)
  {
    hide Unresolved, Target;
    if a != [] {
      var n := |a| - 1;
      assert a == a[..n] + [a[n]];
      if b != [] && b[|b| - 1] == a[n] && Thins(g, spec, a[..n], b[..|b| - 1]) {
        ThinMeansSame(g, spec, a[..n], b[..|b| - 1]);
        assert b == b[..|b| - 1] + [b[|b| - 1]];
      } else {
        ThinMeansSame(g, spec, a[..n], b);
        UnresolvedIs(g, spec, a[n]);
        assert Targets(g, spec, a[..n]) + [] == Targets(g, spec, a[..n]);
      }
    }
  }

  /** The same rows, with one relation field of one row thinned. */
  ghost predicate ThinnedAt(sc: Schema, g: Graph, h: Graph, fk: FieldKey) {
    && HasField(sc, g, fk) && Lenient(sc[fk.holder.typ][fk.field]) && SameScalars(g, h)
    && (forall k, f :: k in g && (k != fk.holder || f != fk.field) ==> LinkAt(h[k], f) == LinkAt(g[k], f))
    && Thins(g, sc[fk.holder.typ][fk.field], LinkAt(g[fk.holder], fk.field), LinkAt(h[fk.holder], fk.field))
    && (!sc[fk.holder.typ][fk.field].many ==> |LinkAt(g[fk.holder], fk.field)| <= 1)
  }

  lemma {:induction false} SameResolve(g: Graph, h: Graph, lk: TargetKey)
    requires SameScalars(g, h)
    ensures Resolve(h, lk) == Resolve(g, lk)
  {
    forall k ensures Bears(h, k, lk) <==> Bears(g, k, lk) {
    }
    hide Bears;
    forall k ensures Sole(h, k, lk) <==> Sole(g, k, lk) {
    }
  }

  lemma {:induction false} SameTargetsOf(g: Graph, h: Graph, spec: Spec, refs: seq<Option<Value>>)
    requires SameScalars(g, h)
    ensures Targets(h, spec, refs) == Targets(g, spec, refs) && forall r :: RefLegal(h, spec, r) <==> RefLegal(g, spec, r)
  {
    hide Resolve;
    forall lk ensures Resolve(h, lk) == Resolve(g, lk) {
      SameResolve(g, h, lk);
    }
    TargetsSame(h, g, spec, refs);
  }

  /** A legal pointer of a field that may go without needs only not to be ambiguous. */
  lemma {:induction false} LenientRefs(sc: Schema, g: Graph, fk: FieldKey, a: seq<Option<Value>>, b: seq<Option<Value>>)
    requires WellFormed(sc) && HasField(sc, g, fk) && Lenient(SpecOf(sc, fk)) && Thins(g, SpecOf(sc, fk), a, b)
    ensures (forall i :: 0 <= i < |a| ==> RefLegal(g, SpecOf(sc, fk), a[i])) <==> forall i :: 0 <= i < |b| ==> RefLegal(g, SpecOf(sc, fk), b[i])
  {
    hide Resolve, Unresolved, Thins;
    var spec := SpecOf(sc, fk);
    assert spec.kind == OwnedBy ==> IsOwnedBy(sc, fk.holder.typ, fk.field);
    ThinMeansSame(g, spec, a, b);
    forall r | r in a ensures r in b || RefLegal(g, spec, r) {
      UnresolvedIs(g, spec, r);
    }
    if forall i :: 0 <= i < |a| ==> RefLegal(g, spec, a[i]) {
      forall i | 0 <= i < |b| ensures RefLegal(g, spec, b[i]) {
        assert b[i] in a;
      }
    }
    if forall i :: 0 <= i < |b| ==> RefLegal(g, spec, b[i]) {
      forall i | 0 <= i < |a| ensures RefLegal(g, spec, a[i]) {
        assert a[i] in a;
      }
    }
  }

  lemma {:induction false} SameRefsLegal(g: Graph, spec: Spec, refs: seq<Option<Value>>, h: Graph)
    requires SameScalars(g, h)
    ensures (forall i :: 0 <= i < |refs| ==> RefLegal(h, spec, refs[i])) <==> forall i :: 0 <= i < |refs| ==> RefLegal(g, spec, refs[i])
    ensures Targets(h, spec, refs) == Targets(g, spec, refs)
  {
    hide RefLegal;
    SameTargetsOf(g, h, spec, refs);
  }

  lemma {:induction false} ThinnedField(sc: Schema, g: Graph, h: Graph, thin: FieldKey, fk: FieldKey)
    requires WellFormed(sc) && ThinnedAt(sc, g, h, thin)
    ensures HasField(sc, h, fk) <==> HasField(sc, g, fk)
    ensures HasField(sc, g, fk) ==> TargetsAt(sc, h, fk) == TargetsAt(sc, g, fk) && (FieldLegal(sc, h, fk) <==> FieldLegal(sc, g, fk))
  {
    hide Targets, RefLegal, Thins, Distinct, Unresolved;
    if HasField(sc, g, fk) {
      var spec := SpecOf(sc, fk);
      SameRefsLegal(g, spec, RefsAt(sc, h, fk), h);
      if fk == thin {
        var a, b := RefsAt(sc, g, fk), RefsAt(sc, h, fk);
        RefsThin(g, spec, LinkAt(g[fk.holder], fk.field), LinkAt(h[fk.holder], fk.field));
        if Thins(g, spec, a, b) {
          ThinMeansSame(g, spec, a, b);
          LenientRefs(sc, g, fk, a, b);
        } else {
          assert a == [a[0]] && b == [None];
          OptionEmptied(g, spec, a[0]);
        }
      } else {
        assert LinkAt(h[fk.holder], fk.field) == LinkAt(g[fk.holder], fk.field);
      }
    }
  }

  /** A to-one field without a link has one nil pointer. */
  lemma {:induction false} RefsThin(g: Graph, spec: Spec, a: seq<Option<Value>>, b: seq<Option<Value>>)
    requires Thins(g, spec, a, b) && (!spec.many ==> |a| <= 1)
    ensures var x, y := if spec.many then a else if a == [] then [None] else a[..1], if spec.many then b else if b == [] then [None] else b[..1];
            Thins(g, spec, x, y) || (!spec.many && |x| == 1 && y == [None] && Unresolved(g, spec, x[0]))
  {
    hide Unresolved;
    if !spec.many {
      if a == [] {
        NoneStays(g, spec, None);
      } else {
        assert a == [a[0]] && a[..0] == [] && a[..1] == a;
        NoneStays(g, spec, a[0]);
        if b != [] && b[|b| - 1] == a[0] && Thins(g, spec, a[..0], b[..|b| - 1]) {
          assert b == [a[0]] && b[..1] == b;
        }
      }
    }
  }

  lemma {:induction false} NoneStays(g: Graph, spec: Spec, r: Option<Value>)
    ensures Thins(g, spec, [r], [r])
  {
    assert [r][..0] == [] && Thins(g, spec, [], []);
  }

  lemma {:induction false} OptionEmptied(g: Graph, spec: Spec, r: Option<Value>)
    requires spec.kind.Optional? && Unresolved(g, spec, r)
    ensures Targets(g, spec, [r]) == [] == Targets(g, spec, [None]) && RefLegal(g, spec, r) && RefLegal(g, spec, None)
  {
    hide Resolve, Unresolved;
    UnresolvedIs(g, spec, r);
    var none: Option<Value> := None;
    assert [r][..0] == [] && [none][..0] == [];
  }

  /** Dropping pointers that lead nowhere from a slice or an option never changes whether a graph is legal. */
  lemma {:induction false} DroppingKeepsLegal(sc: Schema, g: Graph, h: Graph, thin: FieldKey)
    requires WellFormed(sc) && ThinnedAt(sc, g, h, thin)
    ensures Legal(sc, h) <==> Legal(sc, g)
  {
    hide ThinnedAt, FieldLegal, TargetsAt, HasField, ForestLegal, WellFormed;
    forall fk
      ensures HasField(sc, h, fk) <==> HasField(sc, g, fk)
      ensures HasField(sc, g, fk) ==> TargetsAt(sc, h, fk) == TargetsAt(sc, g, fk) && (FieldLegal(sc, h, fk) <==> FieldLegal(sc, g, fk))
    {
      ThinnedField(sc, g, h, thin, fk);
    }
    forall fields ensures FieldsExact(sc, h, fields) <==> FieldsExact(sc, g, fields) {
    }
  }
}
