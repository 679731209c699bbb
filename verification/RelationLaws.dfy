/** The relation rules read off the rows: what a pointer reaches, which graphs are legal, and what an inverse view lists, said in terms of
    roles, cardinalities and field values alone. */
module RelationLaws {
  import opened RelationSchema
  import opened Wrappers
  import opened Ordering
  import opened OwnershipForest
  import opened RelationGraph
  import opened RelationScan
  // ---------------------------------------------------------------- what a pointer reaches

  /** Pointer `i` of a relation field: any element of a slice, or the one pointer of a to-one field. */
  ghost predicate Holds(sc: Schema, g: Graph, h: NodeKey, f: nat, i: int, v: Value) {
    && h in g && h.typ in sc && f in sc[h.typ] && f in g[h].links && 0 <= i < |g[h].links[f]|
    && (!sc[h.typ][f].many ==> i == 0) && g[h].links[f][i] == Some(v)
  }

  ghost predicate Carries(g: Graph, k: NodeKey, typ: string, field: string, v: Value) {
    k in g && k.typ == typ && field in g[k].scalars && g[k].scalars[field] == v
  }

  /** What a pointer leads by: the id behind an own slice, the named field behind any other relation. */
  ghost function LeadsBy(spec: Spec): string {
    match spec.kind
    case Own => if spec.many then "Id" else spec.matchField
    case _ => spec.matchField
  }

  ghost predicate Matches(sc: Schema, g: Graph, h: NodeKey, f: nat, i: int, k: NodeKey) {
    exists v :: Holds(sc, g, h, f, i, v) && Carries(g, k, sc[h.typ][f].target, LeadsBy(sc[h.typ][f]), v)
  }

  /** This row is matched and no other. */
  ghost predicate Reaches(sc: Schema, g: Graph, h: NodeKey, f: nat, i: int, k: NodeKey) {
    Matches(sc, g, h, f, i, k) && forall j :: Matches(sc, g, h, f, i, j) ==> j == k
  }

  lemma {:induction false} CarriesIs(g: Graph, k: NodeKey, lk: TargetKey)
    ensures Bears(g, k, lk) <==> Carries(g, k, lk.typ, lk.field, lk.value)
  {
  }

  /** A lookup finds the one row with the value, nobody, or a clash. */
  lemma {:induction false} ResolveMeans(g: Graph, lk: TargetKey)
    ensures forall k :: Resolve(g, lk) == Found(k) <==>
                        Carries(g, k, lk.typ, lk.field, lk.value) && forall j :: Carries(g, j, lk.typ, lk.field, lk.value) ==> j == k
    ensures Resolve(g, lk) == Missing <==> forall k :: !Carries(g, k, lk.typ, lk.field, lk.value)
    ensures Resolve(g, lk) == Clash <==>
            exists j, k :: j != k && Carries(g, j, lk.typ, lk.field, lk.value) && Carries(g, k, lk.typ, lk.field, lk.value)
  {
    hide Carries;
    forall k ensures Bears(g, k, lk) <==> Carries(g, k, lk.typ, lk.field, lk.value) {
      CarriesIs(g, k, lk);
    }
    hide Bears;
    if Resolve(g, lk) == Clash {
      var k :| Bears(g, k, lk);
      assert !Sole(g, k, lk);
    }
  }

  /** The pointers the model scans are those of the row. */
  lemma {:induction false} RefsMean(sc: Schema, g: Graph, fk: FieldKey, i: int, v: Value)
    requires HasField(sc, g, fk)
    ensures Holds(sc, g, fk.holder, fk.field, i, v) <==> 0 <= i < |RefsAt(sc, g, fk)| && RefsAt(sc, g, fk)[i] == Some(v)
  {
  }

  lemma {:induction false} MatchesMeans(sc: Schema, g: Graph, fk: FieldKey, i: int, k: NodeKey)
    requires HasField(sc, g, fk)
    ensures Matches(sc, g, fk.holder, fk.field, i, k) <==>
            && 0 <= i < |RefsAt(sc, g, fk)| && RefsAt(sc, g, fk)[i].Some?
            && Bears(g, k, Lookup(SpecOf(sc, fk), RefsAt(sc, g, fk)[i].value))
  {
    hide Holds, Carries, Refs;
    forall v ensures Holds(sc, g, fk.holder, fk.field, i, v) <==> 0 <= i < |RefsAt(sc, g, fk)| && RefsAt(sc, g, fk)[i] == Some(v) {
      RefsMean(sc, g, fk, i, v);
    }
    if 0 <= i < |RefsAt(sc, g, fk)| && RefsAt(sc, g, fk)[i].Some? {
      CarriesIs(g, k, Lookup(SpecOf(sc, fk), RefsAt(sc, g, fk)[i].value));
    }
    hide Bears;
  }

  lemma {:induction false} ReachesMeans(sc: Schema, g: Graph, fk: FieldKey, i: int, k: NodeKey)
    requires HasField(sc, g, fk)
    ensures Reaches(sc, g, fk.holder, fk.field, i, k) <==>
            0 <= i < |RefsAt(sc, g, fk)| && Target(g, SpecOf(sc, fk), RefsAt(sc, g, fk)[i]) == Some(k)
  {
    hide Matches, Bears, Refs;
    forall j ensures Matches(sc, g, fk.holder, fk.field, i, j) <==>
                     && 0 <= i < |RefsAt(sc, g, fk)| && RefsAt(sc, g, fk)[i].Some?
                     && Bears(g, j, Lookup(SpecOf(sc, fk), RefsAt(sc, g, fk)[i].value))
    {
      MatchesMeans(sc, g, fk, i, j);
    }
    if 0 <= i < |RefsAt(sc, g, fk)| && RefsAt(sc, g, fk)[i].Some? {
      FoundIsSole(g, Lookup(SpecOf(sc, fk), RefsAt(sc, g, fk)[i].value), k);
    }
  }

  lemma {:induction false} FoundIsSole(g: Graph, lk: TargetKey, k: NodeKey)
    ensures Resolve(g, lk) == Found(k) <==> Bears(g, k, lk) && forall j :: Bears(g, j, lk) ==> j == k
  {
    hide Bears;
    if Resolve(g, lk) == Found(k) {
      assert Sole(g, k, lk);
    }
    if Bears(g, k, lk) && forall j :: Bears(g, j, lk) ==> j == k {
      assert Sole(g, k, lk);
    }
  }

  /** A field's targets are what its pointers reach. */
  lemma {:induction false} TargetsReached(sc: Schema, g: Graph, fk: FieldKey, k: NodeKey)
    requires HasField(sc, g, fk)
    ensures k in TargetsAt(sc, g, fk) <==> exists i :: Reaches(sc, g, fk.holder, fk.field, i, k)
  {
    hide Reaches, Target;
    var refs := RefsAt(sc, g, fk);
    TargetsMember(g, SpecOf(sc, fk), refs, k);
    forall i ensures Reaches(sc, g, fk.holder, fk.field, i, k) <==> 0 <= i < |refs| && Target(g, SpecOf(sc, fk), refs[i]) == Some(k) {
      ReachesMeans(sc, g, fk, i, k);
    }
    hide Targets;
  }

  /** A pointer dangles when it leads by a value no row of the target type has. */
  lemma {:induction false} DanglesMeans(sc: Schema, g: Graph, fk: FieldKey, lk: TargetKey, i: int)
    requires HasField(sc, g, fk)
    ensures DanglesAt(sc, g, fk, lk, i) <==>
            && Holds(sc, g, fk.holder, fk.field, i, lk.value) && (forall k :: !Carries(g, k, lk.typ, lk.field, lk.value))
            && lk.typ == sc[fk.holder.typ][fk.field].target && lk.field == LeadsBy(sc[fk.holder.typ][fk.field])
  {
    hide Resolve, Holds, Carries, Refs;
    RefsMean(sc, g, fk, i, lk.value);
    ResolveMeans(g, lk);
    assert Lookup(SpecOf(sc, fk), lk.value) == TargetKey(sc[fk.holder.typ][fk.field].target, LeadsBy(sc[fk.holder.typ][fk.field]), lk.value);
  }

  // ---------------------------------------------------------------- which graphs are legal

  ghost predicate OwnPointer(sc: Schema, g: Graph, h: NodeKey, f: nat, i: int, c: NodeKey) {
    h.typ in sc && f in sc[h.typ] && sc[h.typ][f].kind.Own? && Reaches(sc, g, h, f, i, c)
  }

  ghost predicate BackPointer(sc: Schema, g: Graph, c: NodeKey, f: nat, o: NodeKey) {
    c.typ in sc && f in sc[c.typ] && sc[c.typ][f].kind.OwnedBy? && Reaches(sc, g, c, f, 0, o)
  }

  ghost predicate OwnsRow(sc: Schema, g: Graph, o: NodeKey, c: NodeKey) {
    (exists f, i :: OwnPointer(sc, g, o, f, i, c)) || (exists f :: BackPointer(sc, g, c, f, o))
  }

  /** No pointer of a relation could mean two rows. Inverse views are computed and not looked at. */
  ghost predicate Unambiguous(sc: Schema, g: Graph) {
    forall h, f, i, j, k :: Matches(sc, g, h, f, i, j) && Matches(sc, g, h, f, i, k) && (h.typ in sc && f in sc[h.typ] && !sc[h.typ][f].kind.Inverse?) ==> j == k
  }

  /** A to-one own, ownedby or borrow has a live target. Options and slices need none. */
  ghost predicate RequiredLive(sc: Schema, g: Graph) {
    forall h, f :: Requires(sc, g, h, f) ==> exists k :: Reaches(sc, g, h, f, 0, k)
  }

  predicate Requires(sc: Schema, g: Graph, h: NodeKey, f: nat) {
    && h in g && h.typ in sc && f in sc[h.typ] && !sc[h.typ][f].many
    && (sc[h.typ][f].kind.Own? || sc[h.typ][f].kind.OwnedBy? || sc[h.typ][f].kind.Borrow?)
  }

  /** One own pointer per child, over all rows, fields and positions. */
  ghost predicate OwnedOnce(sc: Schema, g: Graph) {
    forall h, f, i, h', f', i', c :: OwnPointer(sc, g, h, f, i, c) && OwnPointer(sc, g, h', f', i', c) ==> h == h' && f == f' && i == i'
  }

  /** A child that is owned and names an owner names that one. */
  ghost predicate BothSidesAgree(sc: Schema, g: Graph) {
    forall h, f, i, c, f', o :: OwnPointer(sc, g, h, f, i, c) && BackPointer(sc, g, c, f', o) ==> h == o
  }

  ghost predicate Climb(sc: Schema, g: Graph, path: seq<NodeKey>) {
    |path| >= 2 && forall i :: 0 <= i < |path| - 1 ==> OwnsRow(sc, g, path[i + 1], path[i])
  }

  /** Nobody is among their own owners. */
  ghost predicate NoOwnershipCycle(sc: Schema, g: Graph) {
    forall path :: Climb(sc, g, path) ==> path[0] != path[|path| - 1]
  }

  // ---- fields

  lemma {:induction false} UnambiguousAt(sc: Schema, g: Graph, fk: FieldKey, i: int)
    requires HasField(sc, g, fk)
    ensures ClashesAt(sc, g, fk, i) <==> exists j, k :: j != k && Matches(sc, g, fk.holder, fk.field, i, j) && Matches(sc, g, fk.holder, fk.field, i, k)
  {
    hide Matches, Refs, Bears, Carries;
    forall j ensures Matches(sc, g, fk.holder, fk.field, i, j) <==>
                     && 0 <= i < |RefsAt(sc, g, fk)| && RefsAt(sc, g, fk)[i].Some?
                     && Bears(g, j, Lookup(SpecOf(sc, fk), RefsAt(sc, g, fk)[i].value))
    {
      MatchesMeans(sc, g, fk, i, j);
    }
    if 0 <= i < |RefsAt(sc, g, fk)| && RefsAt(sc, g, fk)[i].Some? {
      var lk := Lookup(SpecOf(sc, fk), RefsAt(sc, g, fk)[i].value);
      ResolveMeans(g, lk);
      forall j ensures Bears(g, j, lk) <==> Carries(g, j, lk.typ, lk.field, lk.value) {
        CarriesIs(g, j, lk);
      }
    }
    hide Resolve;
  }

  /** The rule of roles and cardinalities, pointer by pointer. */
  lemma {:induction false} LacksMeans(sc: Schema, g: Graph, fk: FieldKey)
    requires HasField(sc, g, fk) && WellFormed(sc)
    ensures (exists i :: LacksAt(sc, g, fk, i)) <==>
            Requires(sc, g, fk.holder, fk.field) && forall k :: !Reaches(sc, g, fk.holder, fk.field, 0, k)
  {
    hide Reaches, Target;
    var refs, spec := RefsAt(sc, g, fk), SpecOf(sc, fk);
    assert spec.kind == OwnedBy ==> IsOwnedBy(sc, fk.holder.typ, fk.field);
    forall i, k ensures Reaches(sc, g, fk.holder, fk.field, i, k) <==> 0 <= i < |refs| && Target(g, spec, refs[i]) == Some(k) {
      ReachesMeans(sc, g, fk, i, k);
    }
    if Requires(sc, g, fk.holder, fk.field) && forall k :: !Reaches(sc, g, fk.holder, fk.field, 0, k) {
      NotSome(Target(g, spec, refs[0]));
      assert LacksAt(sc, g, fk, 0);
    }
    if i :| LacksAt(sc, g, fk, i) {
      assert i == 0;
    }
  }

  lemma {:induction false} DistinctTargets(g: Graph, spec: Spec, refs: seq<Option<Value>>)
    ensures Distinct(Targets(g, spec, refs)) <==>
            forall i, j, k :: 0 <= i < |refs| && 0 <= j < |refs| && Target(g, spec, refs[i]) == Some(k) && Target(g, spec, refs[j]) == Some(k) ==> i == j
  {
    hide Target;
    if refs != [] {
      var n := |refs| - 1;
      var before, last := refs[..n], Target(g, spec, refs[n]);
      DistinctTargets(g, spec, before);
      forall k ensures k in Targets(g, spec, before) <==> exists i :: 0 <= i < n && Target(g, spec, before[i]) == Some(k) {
        TargetsMember(g, spec, before, k);
      }
      DistinctAppend(Targets(g, spec, before), last);
      assert forall i :: 0 <= i < n ==> before[i] == refs[i];
    }
  }

  lemma {:induction false} DistinctAppend(s: seq<NodeKey>, last: Option<NodeKey>)
    ensures Distinct(s + match last case Some(k) => [k] case None => []) <==> Distinct(s) && (last.Some? ==> last.value !in s)
  {
    if last.Some? {
      var t := s + [last.value];
      assert forall i :: 0 <= i < |s| ==> t[i] == s[i];
      assert t[|s|] == last.value;
    } else {
      assert s + [] == s;
    }
  }

  /** An own slice lists no child twice. */
  lemma {:induction false} SliceDistinct(sc: Schema, g: Graph, fk: FieldKey)
    requires HasField(sc, g, fk)
    ensures Distinct(TargetsAt(sc, g, fk)) <==>
            forall i, j, c :: Reaches(sc, g, fk.holder, fk.field, i, c) && Reaches(sc, g, fk.holder, fk.field, j, c) ==> i == j
  {
    hide Reaches, Target, Targets, Distinct;
    var refs, spec := RefsAt(sc, g, fk), SpecOf(sc, fk);
    forall i, k ensures Reaches(sc, g, fk.holder, fk.field, i, k) <==> 0 <= i < |refs| && Target(g, spec, refs[i]) == Some(k) {
      ReachesMeans(sc, g, fk, i, k);
    }
    DistinctTargets(g, spec, refs);
  }

  lemma {:induction false} NotSome(t: Option<NodeKey>)
    ensures t == None <==> forall k :: t != Some(k)
  {
    assert t.Some? ==> t == Some(t.value);
  }

  /** One field: nothing ambiguous, what it requires is live, no child twice. */
  lemma {:induction false} FieldLegalMeans(sc: Schema, g: Graph, fk: FieldKey)
    requires HasField(sc, g, fk)
    ensures FieldLegal(sc, g, fk) <==>
            && (forall i :: !ClashesAt(sc, g, fk, i)) && (forall i :: !LacksAt(sc, g, fk, i))
            && (SpecOf(sc, fk).kind == Own ==> Distinct(TargetsAt(sc, g, fk)))
  {
    hide Resolve, Refs, Targets, Distinct;
    var refs, spec := RefsAt(sc, g, fk), SpecOf(sc, fk);
    forall i | 0 <= i < |refs| ensures RefLegal(g, spec, refs[i]) <==> !ClashesAt(sc, g, fk, i) && !LacksAt(sc, g, fk, i) {
    }
  }

  lemma {:induction false} FieldRules(sc: Schema, g: Graph, fk: FieldKey)
    requires HasField(sc, g, fk) && WellFormed(sc)
    ensures FieldLegal(sc, g, fk) <==>
            && (forall i, j, k :: Matches(sc, g, fk.holder, fk.field, i, j) && Matches(sc, g, fk.holder, fk.field, i, k) ==> j == k)
            && (Requires(sc, g, fk.holder, fk.field) ==> exists k :: Reaches(sc, g, fk.holder, fk.field, 0, k))
            && (SpecOf(sc, fk).kind.Own? ==>
                  forall i, j, c :: Reaches(sc, g, fk.holder, fk.field, i, c) && Reaches(sc, g, fk.holder, fk.field, j, c) ==> i == j)
  {
    hide Matches, Reaches, ClashesAt, LacksAt, Requires, FieldLegal, Distinct, TargetsAt;
    FieldLegalMeans(sc, g, fk);
    LacksMeans(sc, g, fk);
    SliceDistinct(sc, g, fk);
    NoClashMeans(sc, g, fk);
  }

  lemma {:induction false} NoClashMeans(sc: Schema, g: Graph, fk: FieldKey)
    requires HasField(sc, g, fk)
    ensures (forall i :: !ClashesAt(sc, g, fk, i)) <==>
            forall i, j, k :: Matches(sc, g, fk.holder, fk.field, i, j) && Matches(sc, g, fk.holder, fk.field, i, k) ==> j == k
  {
    hide Matches, ClashesAt;
    forall i ensures ClashesAt(sc, g, fk, i) <==> exists j, k :: j != k && Matches(sc, g, fk.holder, fk.field, i, j) && Matches(sc, g, fk.holder, fk.field, i, k) {
      UnambiguousAt(sc, g, fk, i);
    }
    if forall i :: !ClashesAt(sc, g, fk, i) {
      forall i, j, k | Matches(sc, g, fk.holder, fk.field, i, j) && Matches(sc, g, fk.holder, fk.field, i, k) ensures j == k {
        assert !ClashesAt(sc, g, fk, i);
      }
    }
  }

  /** No own slice names a child twice. */
  ghost predicate SlicesDistinct(sc: Schema, g: Graph) {
    forall h, f, i, j, c :: OwnPointer(sc, g, h, f, i, c) && OwnPointer(sc, g, h, f, j, c) ==> i == j
  }

  lemma {:induction false} ReachesFrom(sc: Schema, g: Graph, h: NodeKey, f: nat, i: int, k: NodeKey)
    requires Reaches(sc, g, h, f, i, k)
    ensures h in g && h.typ in sc && f in sc[h.typ] && k in g && Matches(sc, g, h, f, i, k)
  {
  }

  lemma {:induction false} MatchesFrom(sc: Schema, g: Graph, h: NodeKey, f: nat, i: int, k: NodeKey)
    requires Matches(sc, g, h, f, i, k)
    ensures h in g && h.typ in sc && f in sc[h.typ] && k in g
  {
  }

  lemma {:induction false} RefsRules(sc: Schema, g: Graph)
    requires WellFormed(sc)
    ensures LegalRefs(sc, g) <==> Unambiguous(sc, g) && RequiredLive(sc, g) && SlicesDistinct(sc, g)
  {
    hide Matches, Reaches, FieldLegal;
    forall fk | HasField(sc, g, fk)
      ensures FieldLegal(sc, g, fk) <==>
              && (forall i, j, k :: Matches(sc, g, fk.holder, fk.field, i, j) && Matches(sc, g, fk.holder, fk.field, i, k) ==> j == k)
              && (Requires(sc, g, fk.holder, fk.field) ==> exists k :: Reaches(sc, g, fk.holder, fk.field, 0, k))
              && (SpecOf(sc, fk).kind.Own? ==>
                    forall i, j, c :: Reaches(sc, g, fk.holder, fk.field, i, c) && Reaches(sc, g, fk.holder, fk.field, j, c) ==> i == j)
    {
      FieldRules(sc, g, fk);
    }
    if LegalRefs(sc, g) {
      forall h, f, i, j, k | Matches(sc, g, h, f, i, j) && Matches(sc, g, h, f, i, k) && (h.typ in sc && f in sc[h.typ] && !sc[h.typ][f].kind.Inverse?)
        ensures j == k
      {
        MatchesFrom(sc, g, h, f, i, j);
        assert HasField(sc, g, FieldKey(h, f));
      }
      forall h, f | Requires(sc, g, h, f) ensures exists k :: Reaches(sc, g, h, f, 0, k) {
        assert HasField(sc, g, FieldKey(h, f));
      }
      forall h, f, i, j, c | OwnPointer(sc, g, h, f, i, c) && OwnPointer(sc, g, h, f, j, c) ensures i == j {
        ReachesFrom(sc, g, h, f, i, c);
        assert HasField(sc, g, FieldKey(h, f));
      }
    }
    if Unambiguous(sc, g) && RequiredLive(sc, g) && SlicesDistinct(sc, g) {
      forall fk | HasField(sc, g, fk) ensures FieldLegal(sc, g, fk) {
        assert SpecOf(sc, fk).kind.Own? ==> forall i, c :: Reaches(sc, g, fk.holder, fk.field, i, c) ==> OwnPointer(sc, g, fk.holder, fk.field, i, c);
      }
    }
  }

  // ---- owners

  lemma {:induction false} PointerOfField(sc: Schema, g: Graph, fk: FieldKey, i: int, k: NodeKey)
    ensures OwnPointer(sc, g, fk.holder, fk.field, i, k) ==> HasField(sc, g, fk)
    ensures i == 0 && BackPointer(sc, g, fk.holder, fk.field, k) ==> HasField(sc, g, fk) && IsOwnedBy(sc, fk.holder.typ, fk.field)
  {
  }

  lemma {:induction false} OwnViaMeans(sc: Schema, g: Graph, fields: Fields, fk: FieldKey, c: NodeKey)
    requires FieldsExact(sc, g, fields)
    ensures OwnVia(sc, fields, fk, c) <==> exists i :: OwnPointer(sc, g, fk.holder, fk.field, i, c)
  {
    hide Reaches, TargetsAt;
    if fk in fields {
      TargetsReached(sc, g, fk, c);
      assert IsOwn(sc, fk.holder.typ, fk.field) ==>
               forall i :: OwnPointer(sc, g, fk.holder, fk.field, i, c) <==> Reaches(sc, g, fk.holder, fk.field, i, c);
    } else {
      forall i ensures !OwnPointer(sc, g, fk.holder, fk.field, i, c) {
        PointerOfField(sc, g, fk, i, c);
      }
    }
  }

  lemma {:induction false} BackViaMeans(sc: Schema, g: Graph, fields: Fields, fk: FieldKey, o: NodeKey)
    requires FieldsExact(sc, g, fields) && WellFormed(sc)
    ensures BackVia(sc, fields, fk, o) <==> BackPointer(sc, g, fk.holder, fk.field, o)
  {
    hide Reaches, Target;
    if fk in fields && IsOwnedBy(sc, fk.holder.typ, fk.field) {
      var refs, spec := RefsAt(sc, g, fk), SpecOf(sc, fk);
      assert !spec.many && |refs| == 1;
      ReachesMeans(sc, g, fk, 0, o);
      TargetsStep(g, spec, refs, 0);
      assert refs[..1] == refs && refs[..0] == [];
      assert fields[fk] == match Target(g, spec, refs[0]) case Some(k) => [k] case None => [];
    }
    PointerOfField(sc, g, fk, 0, o);
  }

  lemma {:induction false} OneOwnerRules(sc: Schema, g: Graph, fields: Fields)
    requires FieldsExact(sc, g, fields) && WellFormed(sc)
    ensures OneOwner(sc, fields) && SlicesDistinct(sc, g) <==> OwnedOnce(sc, g)
    ensures Agree(sc, fields) <==> BothSidesAgree(sc, g)
  {
    hide FieldsExact, OwnPointer, BackPointer, OwnVia, BackVia, WellFormed;
    forall fk, c ensures OwnVia(sc, fields, fk, c) <==> exists i :: OwnPointer(sc, g, fk.holder, fk.field, i, c) {
      OwnViaMeans(sc, g, fields, fk, c);
    }
    forall fk, o ensures BackVia(sc, fields, fk, o) <==> BackPointer(sc, g, fk.holder, fk.field, o) {
      BackViaMeans(sc, g, fields, fk, o);
    }
    if OneOwner(sc, fields) && SlicesDistinct(sc, g) {
      forall h, f, i, h', f', i', c | OwnPointer(sc, g, h, f, i, c) && OwnPointer(sc, g, h', f', i', c) ensures h == h' && f == f' && i == i' {
        assert OwnVia(sc, fields, FieldKey(h, f), c) && OwnVia(sc, fields, FieldKey(h', f'), c);
      }
    }
    if OwnedOnce(sc, g) {
      forall fk, fk', c | OwnVia(sc, fields, fk, c) && OwnVia(sc, fields, fk', c) ensures fk == fk' {
        var i :| OwnPointer(sc, g, fk.holder, fk.field, i, c);
        var i' :| OwnPointer(sc, g, fk'.holder, fk'.field, i', c);
      }
    }
    if Agree(sc, fields) {
      forall h, f, i, c, f', o | OwnPointer(sc, g, h, f, i, c) && BackPointer(sc, g, c, f', o) ensures h == o {
        assert OwnVia(sc, fields, FieldKey(h, f), c) && BackVia(sc, fields, FieldKey(c, f'), o);
      }
    }
    if BothSidesAgree(sc, g) {
      forall fk, bk, o | BackVia(sc, fields, bk, o) && OwnVia(sc, fields, fk, bk.holder) ensures fk.holder == o {
        var i :| OwnPointer(sc, g, fk.holder, fk.field, i, bk.holder);
      }
    }
  }

  lemma {:induction false} OwnerRules(sc: Schema, g: Graph, fields: Fields, c: NodeKey, o: NodeKey)
    requires FieldsExact(sc, g, fields) && WellFormed(sc) && OneOwner(sc, fields) && Agree(sc, fields)
    ensures IsOwner(sc, fields, c, o) <==> OwnsRow(sc, g, o, c)
  {
    hide FieldsExact, OwnPointer, BackPointer, OwnVia, BackVia, WellFormed;
    forall fk, c ensures OwnVia(sc, fields, fk, c) <==> exists i :: OwnPointer(sc, g, fk.holder, fk.field, i, c) {
      OwnViaMeans(sc, g, fields, fk, c);
    }
    forall fk, o ensures BackVia(sc, fields, fk, o) <==> BackPointer(sc, g, fk.holder, fk.field, o) {
      BackViaMeans(sc, g, fields, fk, o);
    }
    if OwnsRow(sc, g, o, c) {
      if f, i :| OwnPointer(sc, g, o, f, i, c) {
        assert OwnVia(sc, fields, FieldKey(o, f), c);
      } else {
        var f :| BackPointer(sc, g, c, f, o);
        var bk := FieldKey(c, f);
        assert BackVia(sc, fields, bk, o);
      }
    }
  }

  /** The owners of a legal forest are read off the rows. */
  lemma {:induction false} OwnersMean(sc: Schema, g: Graph, fields: Fields, owners: Owners)
    requires FieldsExact(sc, g, fields) && WellFormed(sc) && ForestLegal(sc, fields, owners)
    ensures forall c, o :: OwnerOf(owners, c) == Some(o) <==> OwnsRow(sc, g, o, c)
  {
    hide FieldsExact, WellFormed, OneOwner, Agree, Acyclic, OwnsRow, IsOwner;
    forall c, o ensures OwnerOf(owners, c) == Some(o) <==> OwnsRow(sc, g, o, c) {
      OwnerRules(sc, g, fields, c, o);
    }
  }

  // ---- cycles

  lemma {:induction false} ClimbSteps(sc: Schema, g: Graph, owners: Owners, path: seq<NodeKey>, n: nat)
    requires (forall c, o :: OwnerOf(owners, c) == Some(o) <==> OwnsRow(sc, g, o, c)) && Climb(sc, g, path) && n < |path|
    ensures Ancestor(owners, path[0], n) == Some(path[n])
  {
    hide OwnsRow;
    if n > 0 {
      ClimbSteps(sc, g, owners, path, n - 1);
      assert OwnsRow(sc, g, path[n - 1 + 1], path[n - 1]);
    }
  }

  lemma {:induction false} ChainOf(sc: Schema, g: Graph, owners: Owners, k: NodeKey, n: nat) returns (path: seq<NodeKey>)
    requires (forall c, o :: OwnerOf(owners, c) == Some(o) <==> OwnsRow(sc, g, o, c)) && Ancestor(owners, k, n).Some?
    ensures |path| == n + 1 && path[0] == k && Some(path[n]) == Ancestor(owners, k, n)
    ensures forall i :: 0 <= i < n ==> OwnsRow(sc, g, path[i + 1], path[i])
  {
    hide OwnsRow;
    if n == 0 {
      path := [k];
    } else {
      var before := ChainOf(sc, g, owners, k, n - 1);
      path := before + [Ancestor(owners, k, n).value];
      assert OwnerOf(owners, before[n - 1]) == Some(path[n]);
    }
  }

  lemma {:induction false} CycleRules(sc: Schema, g: Graph, owners: Owners)
    requires forall c, o :: OwnerOf(owners, c) == Some(o) <==> OwnsRow(sc, g, o, c)
    ensures Acyclic(owners) <==> NoOwnershipCycle(sc, g)
  {
    hide OwnsRow, Ancestor;
    if Acyclic(owners) {
      forall path | Climb(sc, g, path) ensures path[0] != path[|path| - 1] {
        ClimbSteps(sc, g, owners, path, |path| - 1);
        assert !OnCycle(owners, path[0]);
      }
    } else {
      var k :| OnCycle(owners, k);
      var n: nat :| n > 0 && Ancestor(owners, k, n) == Some(k);
      var path := ChainOf(sc, g, owners, k, n);
      assert Climb(sc, g, path);
    }
  }

  // ---- the theorem

  ghost function TheFields(sc: Schema, g: Graph): (fields: Fields)
    ensures FieldsExact(sc, g, fields)
  {
    var fields: Fields := map k, f | k in g && k.typ in sc && f in sc[k.typ] && HasField(sc, g, FieldKey(k, f)) :: FieldKey(k, f) := TargetsAt(sc, g, FieldKey(k, f));
    assert forall fk :: HasField(sc, g, fk) ==> fk == FieldKey(fk.holder, fk.field);
    fields
  }

  lemma {:induction false} OwnersOfRows(sc: Schema, g: Graph, fields: Fields) returns (owners: Owners)
    requires FieldsExact(sc, g, fields) && WellFormed(sc) && OneOwner(sc, fields) && Agree(sc, fields)
    ensures OwnersExact(sc, fields, owners)
  {
    hide FieldsExact, WellFormed, OneOwner, Agree, OwnsRow;
    forall c, o ensures (IsOwner(sc, fields, c, o) <==> OwnsRow(sc, g, o, c)) && (OwnsRow(sc, g, o, c) ==> c in g && o in g) {
      OwnerRules(sc, g, fields, c, o);
      if OwnsRow(sc, g, o, c) {
        OwnsLive(sc, g, o, c);
      }
    }
    owners := map c | c in g && exists o :: o in g && OwnsRow(sc, g, o, c) :: OwnerFrom(sc, g, c);
    forall c, o ensures OwnerOf(owners, c) == Some(o) <==> IsOwner(sc, fields, c, o) {
      if OwnsRow(sc, g, o, c) {
        OneOwnerOnly(sc, g, fields, c, o, owners[c]);
      }
    }
  }

  ghost function OwnerFrom(sc: Schema, g: Graph, c: NodeKey): (o: NodeKey)
    requires exists o :: o in g && OwnsRow(sc, g, o, c)
    ensures OwnsRow(sc, g, o, c)
  {
    var o :| o in g && OwnsRow(sc, g, o, c);
    o
  }

  lemma {:induction false} OwnsLive(sc: Schema, g: Graph, o: NodeKey, c: NodeKey)
    requires OwnsRow(sc, g, o, c)
    ensures o in g && c in g
  {
    hide Reaches;
    if f, i :| OwnPointer(sc, g, o, f, i, c) {
      ReachesFrom(sc, g, o, f, i, c);
    } else {
      var f :| BackPointer(sc, g, c, f, o);
      ReachesFrom(sc, g, c, f, 0, o);
    }
  }

  lemma {:induction false} OneOwnerOnly(sc: Schema, g: Graph, fields: Fields, c: NodeKey, a: NodeKey, b: NodeKey)
    requires FieldsExact(sc, g, fields) && WellFormed(sc) && OneOwner(sc, fields) && Agree(sc, fields)
    requires OwnsRow(sc, g, a, c) && OwnsRow(sc, g, b, c)
    ensures a == b
  {
    OwnerRules(sc, g, fields, c, a);
    OwnerRules(sc, g, fields, c, b);
    hide FieldsExact, OwnVia, Declares;
    if fk, fk' :| BackVia(sc, fields, fk, a) && BackVia(sc, fields, fk', b) && fk.holder == c == fk'.holder {
      assert IsOwnedBy(sc, c.typ, fk.field) && IsOwnedBy(sc, c.typ, fk'.field);
      assert fk.field == fk'.field;
    }
  }

  /** The ownership rules: one own pointer per child, agreement of both sides, no cycle. */
  lemma {:induction false} ForestRules(sc: Schema, g: Graph)
    requires WellFormed(sc)
    ensures SlicesDistinct(sc, g) && (exists fields, owners :: FieldsExact(sc, g, fields) && ForestLegal(sc, fields, owners)) <==>
            OwnedOnce(sc, g) && BothSidesAgree(sc, g) && NoOwnershipCycle(sc, g)
  {
    hide WellFormed, FieldsExact, OwnedOnce, BothSidesAgree, NoOwnershipCycle, SlicesDistinct, OneOwner, Agree, OwnersExact, Acyclic, TheFields, OwnsRow;
    var the := TheFields(sc, g);
    OneOwnerRules(sc, g, the);
    if fields, owners :| FieldsExact(sc, g, fields) && ForestLegal(sc, fields, owners) {
      FieldsUnique(sc, g, fields, the);
      OwnersMean(sc, g, the, owners);
      CycleRules(sc, g, owners);
    }
    if OwnedOnce(sc, g) && BothSidesAgree(sc, g) && NoOwnershipCycle(sc, g) {
      OwnedOnceSlices(sc, g);
      var owners := OwnersOfRows(sc, g, the);
      OwnersAre(sc, g, the, owners);
      CycleRules(sc, g, owners);
      assert ForestLegal(sc, the, owners);
    }
  }

  /** A graph is legal if and only if every pointer names at most one row, every to-one own, ownedby and borrow has a live target, every child
      has at most one own pointer to it, agrees with it where it names an owner itself, and nobody is among their own owners. */
  lemma {:induction false} RulesDecide(sc: Schema, g: Graph)
    requires WellFormed(sc)
    ensures Legal(sc, g) <==> Unambiguous(sc, g) && RequiredLive(sc, g) && OwnedOnce(sc, g) && BothSidesAgree(sc, g) && NoOwnershipCycle(sc, g)
  {
    hide WellFormed, LegalRefs, FieldsExact, ForestLegal, Unambiguous, RequiredLive, OwnedOnce, BothSidesAgree, NoOwnershipCycle, SlicesDistinct;
    RefsRules(sc, g);
    ForestRules(sc, g);
    if OwnedOnce(sc, g) {
      OwnedOnceSlices(sc, g);
    }
  }

  lemma {:induction false} OwnedOnceSlices(sc: Schema, g: Graph)
    requires OwnedOnce(sc, g)
    ensures SlicesDistinct(sc, g)
  {
    hide OwnPointer;
  }

  lemma {:induction false} OwnersAre(sc: Schema, g: Graph, fields: Fields, owners: Owners)
    requires FieldsExact(sc, g, fields) && WellFormed(sc) && OneOwner(sc, fields) && Agree(sc, fields) && OwnersExact(sc, fields, owners)
    ensures forall c, o :: OwnerOf(owners, c) == Some(o) <==> OwnsRow(sc, g, o, c)
  {
    hide FieldsExact, WellFormed, OneOwner, Agree, OwnsRow, IsOwner;
    forall c, o ensures OwnerOf(owners, c) == Some(o) <==> OwnsRow(sc, g, o, c) {
      OwnerRules(sc, g, fields, c, o);
    }
  }
}
