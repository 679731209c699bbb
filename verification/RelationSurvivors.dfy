/** What deleting nodes leaves: the surviving rows, what their pointers still reach, and the ownership between them. */
module RelationSurvivors {
  import opened RelationSchema
  import opened Wrappers
  import opened Ordering
  import opened OwnershipForest
  import opened RelationGraph
  import opened RelationScan

  function Survivors(g: Graph, deleted: set<NodeKey>): Graph {
    g - deleted
  }

  /** The targets that survive, in order. */
  function Kept(targets: seq<NodeKey>, deleted: set<NodeKey>): (kept: seq<NodeKey>)
    ensures forall t :: t in kept <==> t in targets && t !in deleted
  {
    if targets == [] then []
    else
      var last := targets[|targets| - 1];
      assert targets == targets[..|targets| - 1] + [last];
      Kept(targets[..|targets| - 1], deleted) + if last in deleted then [] else [last]
  }

  lemma {:induction false} KeptAppend(targets: seq<NodeKey>, t: NodeKey, deleted: set<NodeKey>)
    ensures Kept(targets + [t], deleted) == Kept(targets, deleted) + if t in deleted then [] else [t]
  {
    assert (targets + [t])[..|targets|] == targets;
  }

  lemma {:induction false} KeptAll(targets: seq<NodeKey>, deleted: set<NodeKey>)
    requires forall t :: t in targets ==> t !in deleted
    ensures Kept(targets, deleted) == targets
  {
    if targets != [] {
      var before, last := targets[..|targets| - 1], targets[|targets| - 1];
      assert targets == before + [last];
      KeptAll(before, deleted);
      KeptAppend(before, last, deleted);
    }
  }

  lemma {:induction false} KeptDistinct(targets: seq<NodeKey>, deleted: set<NodeKey>)
    requires Distinct(targets)
    ensures Distinct(Kept(targets, deleted))
  {
    if targets != [] {
      KeptDistinct(targets[..|targets| - 1], deleted);
    }
  }

  /** A key with one bearer loses it when the bearer dies; a key nobody bears stays unborne. */
  lemma {:induction false} ResolveSurvivors(g: Graph, deleted: set<NodeKey>, lk: TargetKey)
    requires Resolve(g, lk) != Clash
    ensures Resolve(Survivors(g, deleted), lk) ==
            if Resolve(g, lk).Found? && Resolve(g, lk).key !in deleted then Resolve(g, lk) else Missing
  {
    var s := Survivors(g, deleted);
    forall k ensures Bears(s, k, lk) <==> Bears(g, k, lk) && k !in deleted {
    }
    hide Bears;
    assert forall k :: Sole(g, k, lk) && k !in deleted ==> Sole(s, k, lk);
  }

  lemma {:induction false} TargetSurvivors(g: Graph, deleted: set<NodeKey>, spec: Spec, ref: Option<Value>)
    requires ref.Some? ==> Resolve(g, Lookup(spec, ref.value)) != Clash
    ensures Target(Survivors(g, deleted), spec, ref) ==
            var t := Target(g, spec, ref); if t.Some? && t.value !in deleted then t else None
  {
    if ref.Some? {
      ResolveSurvivors(g, deleted, Lookup(spec, ref.value));
    }
  }

  /** A surviving field reaches exactly its surviving targets. */
  lemma {:induction false} TargetsSurvivors(g: Graph, deleted: set<NodeKey>, spec: Spec, refs: seq<Option<Value>>)
    requires forall i :: 0 <= i < |refs| && refs[i].Some? ==> Resolve(g, Lookup(spec, refs[i].value)) != Clash
    ensures Targets(Survivors(g, deleted), spec, refs) == Kept(Targets(g, spec, refs), deleted)
  {
    hide Resolve, Target, Kept;
    if refs == [] {
      KeptAll([], deleted);
    } else {
      var last := |refs| - 1;
      var before := Targets(g, spec, refs[..last]);
      TargetsSurvivors(g, deleted, spec, refs[..last]);
      TargetSurvivors(g, deleted, spec, refs[last]);
      var t := Target(g, spec, refs[last]);
      if t.Some? {
        KeptAppend(before, t.value, deleted);
        assert Targets(g, spec, refs) == before + [t.value];
      } else {
        assert Targets(g, spec, refs) == before;
      }
    }
  }

  /** The fields of every holder outside `gone`. */
  function FieldsWithout(fields: Fields, gone: set<NodeKey>): Fields {
    map fk | fk in fields && fk.holder !in gone :: fields[fk]
  }

  /** The fields of survivors, each filtered. */
  ghost predicate FieldsFiltered(sc: Schema, g: Graph, deleted: set<NodeKey>, fields: Fields, left: Fields) {
    && (forall fk :: fk in left <==> fk in fields && fk.holder !in deleted)
    && (forall fk :: fk in left ==> left[fk] == Kept(fields[fk], deleted))
  }

  lemma {:induction false} FieldsSurvive(sc: Schema, g: Graph, deleted: set<NodeKey>, fields: Fields, left: Fields)
    requires FieldsExact(sc, g, fields) && FieldsFiltered(sc, g, deleted, fields, left)
    requires forall fk, i :: !ClashesAt(sc, g, fk, i)
    ensures FieldsExact(sc, Survivors(g, deleted), left)
  {
    var s := Survivors(g, deleted);
    hide Targets, Refs, Resolve;
    forall fk ensures fk in left <==> HasField(sc, s, fk) {
    }
    forall fk | fk in left ensures left[fk] == TargetsAt(sc, s, fk) {
      var refs := RefsAt(sc, g, fk);
      forall i | 0 <= i < |refs| && refs[i].Some? ensures Resolve(g, Lookup(SpecOf(sc, fk), refs[i].value)) != Clash {
        assert !ClashesAt(sc, g, fk, i);
      }
      TargetsSurvivors(g, deleted, SpecOf(sc, fk), refs);
    }
  }

  // ---------------------------------------------------------------- ownership between survivors

  ghost predicate OwnersFiltered(deleted: set<NodeKey>, owners: Owners, left: Owners) {
    forall c, o :: OwnerOf(left, c) == Some(o) <==> OwnerOf(owners, c) == Some(o) && c !in deleted && o !in deleted
  }

  lemma {:induction false} OwnViaSurvives(sc: Schema, g: Graph, deleted: set<NodeKey>, fields: Fields, left: Fields, fk: FieldKey, child: NodeKey)
    requires FieldsFiltered(sc, g, deleted, fields, left)
    ensures OwnVia(sc, left, fk, child) <==> OwnVia(sc, fields, fk, child) && fk.holder !in deleted && child !in deleted
  {
  }

  /** An ownedby pointer has one target; it survives whole or not at all. */
  lemma {:induction false} BackSurvives(sc: Schema, g: Graph, deleted: set<NodeKey>, fields: Fields, left: Fields, fk: FieldKey, owner: NodeKey)
    requires FieldsExact(sc, g, fields) && FieldsFiltered(sc, g, deleted, fields, left) && WellFormed(sc)
    ensures BackVia(sc, left, fk, owner) <==> BackVia(sc, fields, fk, owner) && fk.holder !in deleted && owner !in deleted
  {
    if fk in fields && IsOwnedBy(sc, fk.holder.typ, fk.field) {
      TargetsShort(g, SpecOf(sc, fk), RefsAt(sc, g, fk));
      if fields[fk] != [] {
        assert fields[fk] == [fields[fk][0]];
        KeptAppend([], fields[fk][0], deleted);
        assert [] + [fields[fk][0]] == fields[fk];
      }
    }
  }

  lemma {:induction false} OwnersSurvive(sc: Schema, g: Graph, deleted: set<NodeKey>, fields: Fields, left: Fields, owners: Owners, owners': Owners)
    requires FieldsExact(sc, g, fields) && FieldsFiltered(sc, g, deleted, fields, left) && WellFormed(sc)
    requires ForestLegal(sc, fields, owners) && OwnersFiltered(deleted, owners, owners')
    ensures ForestLegal(sc, left, owners')
  {
    forall fk, c ensures OwnVia(sc, left, fk, c) <==> OwnVia(sc, fields, fk, c) && fk.holder !in deleted && c !in deleted {
      OwnViaSurvives(sc, g, deleted, fields, left, fk, c);
    }
    forall fk, o ensures BackVia(sc, left, fk, o) <==> BackVia(sc, fields, fk, o) && fk.holder !in deleted && o !in deleted {
      BackSurvives(sc, g, deleted, fields, left, fk, o);
    }
    hide OwnVia, BackVia, FieldsExact, FieldsFiltered, Acyclic;
    forall c, o ensures IsOwner(sc, left, c, o) <==> IsOwner(sc, fields, c, o) && c !in deleted && o !in deleted {
      IsOwnerSurvives(sc, fields, left, deleted, c, o);
    }
    assert OwnersExact(sc, left, owners') by {
      hide IsOwner;
    }
    SubmapAcyclic(owners, owners', deleted);
  }

  lemma {:induction false} IsOwnerSurvives(sc: Schema, fields: Fields, left: Fields, deleted: set<NodeKey>, c: NodeKey, o: NodeKey)
    requires OneOwner(sc, fields) && Agree(sc, fields)
    requires forall fk, c :: OwnVia(sc, left, fk, c) <==> OwnVia(sc, fields, fk, c) && fk.holder !in deleted && c !in deleted
    requires forall fk, o :: BackVia(sc, left, fk, o) <==> BackVia(sc, fields, fk, o) && fk.holder !in deleted && o !in deleted
    ensures IsOwner(sc, left, c, o) <==> IsOwner(sc, fields, c, o) && c !in deleted && o !in deleted
  {
    hide OwnVia, BackVia;
    if IsOwner(sc, left, c, o) && !Owned(sc, left, c) {
      var bk: FieldKey :| bk.holder == c && BackVia(sc, left, bk, o);
      assert BackVia(sc, fields, bk, o);
      assert !Owned(sc, fields, c);
    }
    if IsOwner(sc, fields, c, o) && c !in deleted && o !in deleted {
      if fk :| OwnVia(sc, fields, fk, c) && fk.holder == o {
        assert OwnVia(sc, left, fk, c);
      } else {
        assert !Owned(sc, fields, c);
        assert !Owned(sc, left, c);
      }
    }
  }

  lemma {:induction false} SubmapChain(owners: Owners, owners': Owners, deleted: set<NodeKey>, start: NodeKey, n: nat)
    requires OwnersFiltered(deleted, owners, owners')
    ensures Ancestor(owners', start, n).Some? ==> Ancestor(owners', start, n) == Ancestor(owners, start, n)
  {
    if n > 0 {
      SubmapChain(owners, owners', deleted, start, n - 1);
    }
  }

  lemma {:induction false} SubmapAcyclic(owners: Owners, owners': Owners, deleted: set<NodeKey>)
    requires OwnersFiltered(deleted, owners, owners') && Acyclic(owners)
    ensures Acyclic(owners')
  {
    forall k ensures !OnCycle(owners', k) {
      if n: nat :| n > 0 && Ancestor(owners', k, n) == Some(k) {
        SubmapChain(owners, owners', deleted, k, n);
        assert OnCycle(owners, k);
      }
    }
  }
}
