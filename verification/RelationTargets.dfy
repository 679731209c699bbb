/** What a model and an index record of the pointers of a graph: which graphs they can be built for, the order of a field's targets, and the
    incoming multiplicities. */
module RelationTargets {
  import opened RelationSchema
  import opened Wrappers
  import opened Ordering
  import opened RelationGraph
  import opened RelationScan
  import opened RelationModels
  import opened RelationLaws

  // ---------------------------------------------------------------- which graphs a model can be built for

  lemma {:induction false} ScannableRules(sc: Schema, g: Graph)
    ensures (forall fk :: !Unscannable(sc, g, fk)) <==> Unambiguous(sc, g) && SlicesDistinct(sc, g)
  {
    hide Matches, Reaches, ClashesAt, Distinct, TargetsAt;
    forall fk | HasField(sc, g, fk)
      ensures (forall i :: !ClashesAt(sc, g, fk, i)) <==>
              forall i, j, k :: Matches(sc, g, fk.holder, fk.field, i, j) && Matches(sc, g, fk.holder, fk.field, i, k) ==> j == k
      ensures Distinct(TargetsAt(sc, g, fk)) <==>
              forall i, j, c :: Reaches(sc, g, fk.holder, fk.field, i, c) && Reaches(sc, g, fk.holder, fk.field, j, c) ==> i == j
    {
      NoClashMeans(sc, g, fk);
      SliceDistinct(sc, g, fk);
    }
    if forall fk :: !Unscannable(sc, g, fk) {
      forall h, f, i, j, k | Matches(sc, g, h, f, i, j) && Matches(sc, g, h, f, i, k) && (h.typ in sc && f in sc[h.typ] && !sc[h.typ][f].kind.Inverse?)
        ensures j == k
      {
        MatchesFrom(sc, g, h, f, i, j);
        assert HasField(sc, g, FieldKey(h, f)) && !Unscannable(sc, g, FieldKey(h, f));
      }
      forall h, f, i, j, c | OwnPointer(sc, g, h, f, i, c) && OwnPointer(sc, g, h, f, j, c) ensures i == j {
        ReachesFrom(sc, g, h, f, i, c);
        assert HasField(sc, g, FieldKey(h, f)) && !Unscannable(sc, g, FieldKey(h, f));
      }
    }
    if Unambiguous(sc, g) && SlicesDistinct(sc, g) {
      forall fk ensures !Unscannable(sc, g, fk) {
        assert HasField(sc, g, fk) && SpecOf(sc, fk).kind.Own? ==>
                 forall i, c :: Reaches(sc, g, fk.holder, fk.field, i, c) ==> OwnPointer(sc, g, fk.holder, fk.field, i, c);
      }
    }
  }

  /** A model can be built exactly when all rules hold but the one about required targets, which is judged on its own. */
  lemma {:induction false} BuildableMeans(sc: Schema, g: Graph)
    requires WellFormed(sc)
    ensures Buildable(sc, g) <==> Unambiguous(sc, g) && OwnedOnce(sc, g) && BothSidesAgree(sc, g) && NoOwnershipCycle(sc, g)
  {
    hide WellFormed, FieldsExact, ForestLegal, Unambiguous, OwnedOnce, BothSidesAgree, NoOwnershipCycle, SlicesDistinct, Unscannable;
    ScannableRules(sc, g);
    ForestRules(sc, g);
    if OwnedOnce(sc, g) {
      OwnedOnceSlices(sc, g);
    }
  }

  // ---------------------------------------------------------------- order and multiplicity

  ghost predicate Ascends(at: seq<nat>) {
    forall m, n :: 0 <= m < n < |at| ==> at[m] < at[n]
  }

  /** Where the resolving pointers of a list stand. */
  lemma {:induction false} TargetsStand(g: Graph, spec: Spec, refs: seq<Option<Value>>) returns (at: seq<nat>)
    ensures |at| == |Targets(g, spec, refs)| && Ascends(at)
    ensures forall n :: 0 <= n < |at| ==> at[n] < |refs| && Target(g, spec, refs[at[n]]) == Some(Targets(g, spec, refs)[n])
    ensures forall i :: 0 <= i < |refs| && Target(g, spec, refs[i]).Some? ==> i in at
  {
    hide Target;
    at := [];
    if refs != [] {
      var last := |refs| - 1;
      var before := TargetsStand(g, spec, refs[..last]);
      at := before + match Target(g, spec, refs[last]) case Some(_) => [last] case None => [];
      forall i | 0 <= i < |refs| && Target(g, spec, refs[i]).Some? ensures i in at {
        if i < last {
          assert refs[..last][i] == refs[i] && i in before;
        } else {
          assert at[|before|] == last;
        }
      }
    }
  }

  /** The targets of a field are the rows its pointers reach, in the order of the pointers. */
  lemma {:induction false} TargetsInOrder(sc: Schema, g: Graph, fk: FieldKey) returns (at: seq<nat>)
    requires HasField(sc, g, fk)
    ensures |at| == |TargetsAt(sc, g, fk)| && Ascends(at)
    ensures forall n :: 0 <= n < |at| ==> Reaches(sc, g, fk.holder, fk.field, at[n], TargetsAt(sc, g, fk)[n])
    ensures forall i: nat, k :: Reaches(sc, g, fk.holder, fk.field, i, k) ==> i in at
  {
    hide Reaches, Target, Targets;
    var refs, spec := RefsAt(sc, g, fk), SpecOf(sc, fk);
    at := TargetsStand(g, spec, refs);
    forall i, k ensures Reaches(sc, g, fk.holder, fk.field, i, k) <==> 0 <= i < |refs| && Target(g, spec, refs[i]) == Some(k) {
      ReachesMeans(sc, g, fk, i, k);
    }
  }

  /** How many of the first `n` pointers reach `k`. */
  ghost function Pointers(sc: Schema, g: Graph, fk: FieldKey, k: NodeKey, n: nat): nat {
    if n == 0 then 0
    else Pointers(sc, g, fk, k, n - 1) + if Reaches(sc, g, fk.holder, fk.field, n - 1, k) then 1 else 0
  }

  lemma {:induction false} TargetsCounted(sc: Schema, g: Graph, fk: FieldKey, k: NodeKey, n: nat)
    requires HasField(sc, g, fk) && n <= |RefsAt(sc, g, fk)|
    ensures multiset(Targets(g, SpecOf(sc, fk), RefsAt(sc, g, fk)[..n]))[k] == Pointers(sc, g, fk, k, n)
  {
    hide Reaches, Target, Refs;
    var refs, spec := RefsAt(sc, g, fk), SpecOf(sc, fk);
    if n > 0 {
      TargetsCounted(sc, g, fk, k, n - 1);
      ReachesMeans(sc, g, fk, n - 1, k);
      assert refs[..n][..n - 1] == refs[..n - 1];
      CountAppend(Targets(g, spec, refs[..n - 1]), Target(g, spec, refs[n - 1]), k);
    }
  }

  lemma {:induction false} CountAppend(s: seq<NodeKey>, last: Option<NodeKey>, k: NodeKey)
    ensures multiset(s + match last case Some(t) => [t] case None => [])[k] == multiset(s)[k] + if last == Some(k) then 1 else 0
  {
    if last == None {
      assert s + [] == s;
    }
  }

  lemma {:induction false} PointersEnd(sc: Schema, g: Graph, fk: FieldKey, k: NodeKey, m: nat, n: nat)
    requires m <= n && forall i :: m <= i < n ==> !Reaches(sc, g, fk.holder, fk.field, i, k)
    ensures Pointers(sc, g, fk, k, n) == Pointers(sc, g, fk, k, m)
  {
    hide Reaches;
    if m < n {
      PointersEnd(sc, g, fk, k, m, n - 1);
    }
  }

  /** An index over the rows counts, for a row and a field, the pointers of the field that reach the row. */
  lemma {:induction false} CountsMean(sc: Schema, g: Graph, ix: Image, fk: FieldKey, k: NodeKey, n: nat)
    requires MirrorsWithin(sc, g, ix)
    requires forall i :: n <= i ==> !Reaches(sc, g, fk.holder, fk.field, i, k)
    requires fk.holder.typ in sc && fk.field in sc[fk.holder.typ] && !sc[fk.holder.typ][fk.field].kind.Inverse?
    ensures CountIn(ix.counts, k, fk) == Pointers(sc, g, fk, k, n)
  {
    hide Reaches, Targets, Refs, TargetIndexExact, OwnersExact, Pointers;
    assert CountIn(ix.counts, k, fk) == Mult(ix.fields, fk, k);
    if HasField(sc, g, fk) {
      var refs := RefsAt(sc, g, fk);
      TargetsCounted(sc, g, fk, k, |refs|);
      assert refs[..|refs|] == refs;
      forall i | |refs| <= i ensures !Reaches(sc, g, fk.holder, fk.field, i, k) {
        ReachesMeans(sc, g, fk, i, k);
      }
      if n <= |refs| {
        PointersEnd(sc, g, fk, k, n, |refs|);
      } else {
        PointersEnd(sc, g, fk, k, |refs|, n);
      }
    } else {
      NoPointers(sc, g, fk, k, n);
    }
  }

  lemma {:induction false} NoPointers(sc: Schema, g: Graph, fk: FieldKey, k: NodeKey, n: nat)
    requires fk.holder !in g
    ensures Pointers(sc, g, fk, k, n) == 0
  {
    if n > 0 {
      NoPointers(sc, g, fk, k, n - 1);
    }
  }
}
