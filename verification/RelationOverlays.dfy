/** What a commit's proposed rows do to resolution, relation fields and ownership. */
module RelationOverlays {
  import opened RelationSchema
  import opened Wrappers
  import opened OwnershipForest
  import opened RelationGraph
  import opened RelationScan
  import opened RelationModels

  /** The proposed final state: rewritten rows and new rows over the live graph. */
  function Overlaid(g: Graph, works: Graph, creates: Graph): Graph {
    g + works + creates
  }

  /** Same nodes, same scalars. */
  ghost predicate SameScalars(a: Graph, b: Graph) {
    a.Keys == b.Keys && forall k :: k in a ==> a[k].scalars == b[k].scalars
  }

  predicate SameScalar(a: Row, b: Row, field: string) {
    (field in a.scalars) == (field in b.scalars) && (field in a.scalars ==> a.scalars[field] == b.scalars[field])
  }

  /** Rewritten rows exist and keep every scalar some relation looks them up by. */
  ghost predicate KeysKept(tf: TargetFields, g: Graph, works: Graph) {
    && works.Keys <= g.Keys
    && (forall k, field :: k in works && k.typ in tf && field in tf[k.typ] ==> SameScalar(g[k], works[k], field))
  }

  /** New rows are new, and no lookup key of theirs is taken, by a live row or by another new one. */
  ghost predicate KeysFresh(tf: TargetFields, g: Graph, creates: Graph) {
    && creates.Keys !! g.Keys
    && (forall k, lk :: Searchable(tf, lk) && Bears(creates, k, lk) ==>
          (forall j :: !Bears(g, j, lk)) && (forall j :: Bears(creates, j, lk) ==> j == k))
  }

  ghost predicate Proposal(sc: Schema, tf: TargetFields, g: Graph, works: Graph, creates: Graph) {
    KeysKept(tf, g, works) && KeysFresh(tf, g, creates) && Covers(sc, g, tf) && Covers(sc, creates, tf)
  }

  lemma {:induction false} BearsOverlaid(tf: TargetFields, g: Graph, works: Graph, creates: Graph, k: NodeKey, lk: TargetKey)
    requires KeysKept(tf, g, works) && KeysFresh(tf, g, creates) && Searchable(tf, lk)
    ensures Bears(Overlaid(g, works, creates), k, lk) <==> Bears(g, k, lk) || Bears(creates, k, lk)
  {
    if k in works && k.typ == lk.typ {
      assert SameScalar(g[k], works[k], lk.field);
    }
  }

  lemma {:induction false} ResolveOverlaid(tf: TargetFields, g: Graph, works: Graph, creates: Graph, lk: TargetKey)
    requires KeysKept(tf, g, works) && KeysFresh(tf, g, creates) && Searchable(tf, lk)
    ensures (forall c :: !Bears(creates, c, lk)) ==> Resolve(Overlaid(g, works, creates), lk) == Resolve(g, lk)
    ensures forall c :: Bears(creates, c, lk) ==> Resolve(Overlaid(g, works, creates), lk) == Found(c) && Resolve(g, lk) == Missing
  {
    var h := Overlaid(g, works, creates);
    forall k ensures Bears(h, k, lk) <==> Bears(g, k, lk) || Bears(creates, k, lk) {
      BearsOverlaid(tf, g, works, creates, k, lk);
    }
    hide Bears;
    if c :| Bears(creates, c, lk) {
      assert Sole(h, c, lk);
    } else {
      assert forall k :: Sole(h, k, lk) <==> Sole(g, k, lk);
    }
  }

  /** The lookup entries of the new rows. */
  ghost predicate CreatedTargets(tf: TargetFields, creates: Graph, news: TargetIndex) {
    && (forall lk :: lk in news <==> Searchable(tf, lk) && exists k :: Bears(creates, k, lk))
    && (forall lk :: lk in news ==> Bears(creates, news[lk].key, lk) && !news[lk].duplicate)
  }

  lemma {:induction false} TargetIndexOverlaid(tf: TargetFields, g: Graph, works: Graph, creates: Graph, targets: TargetIndex, news: TargetIndex)
    requires KeysKept(tf, g, works) && KeysFresh(tf, g, creates)
    requires TargetIndexExact(g, tf, targets) && CreatedTargets(tf, creates, news)
    ensures TargetIndexExact(Overlaid(g, works, creates), tf, targets + news)
  {
    var h := Overlaid(g, works, creates);
    forall k, lk | Searchable(tf, lk) ensures Bears(h, k, lk) <==> Bears(g, k, lk) || Bears(creates, k, lk) {
      BearsOverlaid(tf, g, works, creates, k, lk);
    }
    hide Bears;
    forall lk | lk in targets + news
      ensures var t := (targets + news)[lk];
              Bears(h, t.key, lk) && (t.duplicate <==> !Sole(h, t.key, lk))
    {
    }
  }

  lemma {:induction false} TargetFieldsOverlaid(sc: Schema, tf: TargetFields, g: Graph, works: Graph, creates: Graph)
    requires Proposal(sc, tf, g, works, creates) && TargetFieldsExact(sc, g, tf)
    ensures TargetFieldsExact(sc, Overlaid(g, works, creates), tf)
  {
    var h := Overlaid(g, works, creates);
    forall fk ensures HasField(sc, h, fk) <==> HasField(sc, g, fk) || HasField(sc, creates, fk) {
    }
    forall lk: TargetKey ensures Searchable(tf, lk) <==> exists fk :: LooksUp(sc, h, fk, lk) {
      if fk :| LooksUp(sc, g, fk, lk) {
        assert LooksUp(sc, h, fk, lk);
      }
      if fk :| LooksUp(sc, h, fk, lk) {
        assert Searchable(tf, Lookup(SpecOf(sc, fk), lk.value));
      }
    }
  }

  /** Some untouched holder has a pointer whose missing target the new rows supply. */
  ghost predicate Waiting(sc: Schema, g: Graph, works: Graph, creates: Graph, fk: FieldKey) {
    fk.holder !in works && exists i, lk, c :: DanglesAt(sc, g, fk, lk, i) && Bears(creates, c, lk)
  }

  ghost predicate NoneWaiting(sc: Schema, g: Graph, works: Graph, creates: Graph) {
    forall fk :: !Waiting(sc, g, works, creates, fk)
  }

  /** The rescanned fields: exactly those of touched holders, with their targets in the proposed graph. */
  ghost predicate Rescanned(sc: Schema, g: Graph, works: Graph, creates: Graph, delta: Fields) {
    && (forall fk :: fk in delta <==> HasField(sc, works + creates, fk))
    && (forall fk :: fk in delta ==> HasField(sc, Overlaid(g, works, creates), fk)
                                     && delta[fk] == TargetsAt(sc, Overlaid(g, works, creates), fk))
  }

  lemma {:induction false} UntouchedTargets(sc: Schema, tf: TargetFields, g: Graph, works: Graph, creates: Graph, fk: FieldKey)
    requires Proposal(sc, tf, g, works, creates)
    requires HasField(sc, g, fk) && fk.holder !in works && !Waiting(sc, g, works, creates, fk)
    ensures var h := Overlaid(g, works, creates);
            && HasField(sc, h, fk) && RefsAt(sc, h, fk) == RefsAt(sc, g, fk) && TargetsAt(sc, h, fk) == TargetsAt(sc, g, fk)
            && (FieldLegal(sc, g, fk) ==> FieldLegal(sc, h, fk))
  {
    var h, spec, refs := Overlaid(g, works, creates), SpecOf(sc, fk), RefsAt(sc, g, fk);
    assert fk.holder !in creates;
    forall i | 0 <= i < |refs|
      ensures refs[i].Some? ==> Resolve(h, Lookup(spec, refs[i].value)) == Resolve(g, Lookup(spec, refs[i].value))
      ensures Target(h, spec, refs[i]) == Target(g, spec, refs[i])
    {
      if refs[i].Some? {
        var lk := Lookup(spec, refs[i].value);
        ResolveOverlaid(tf, g, works, creates, lk);
        if c :| Bears(creates, c, lk) {
          assert DanglesAt(sc, g, fk, lk, i);
        }
      }
    }
    TargetsSame(g, h, spec, refs);
  }

  /** Patching the rescanned fields in is a rebuild exactly when no untouched pointer was waiting for a new row. */
  lemma {:induction false} FieldsOverlaid(sc: Schema, tf: TargetFields, g: Graph, works: Graph, creates: Graph, fields: Fields, delta: Fields)
    requires Proposal(sc, tf, g, works, creates)
    requires FieldsExact(sc, g, fields) && Rescanned(sc, g, works, creates, delta)
    ensures FieldsExact(sc, Overlaid(g, works, creates), fields + delta) <==> NoneWaiting(sc, g, works, creates)
  {
    var h, patched := Overlaid(g, works, creates), fields + delta;
    forall fk ensures fk in patched <==> HasField(sc, h, fk) {
    }
    forall fk ensures (fk in patched ==> HasField(sc, h, fk) && patched[fk] == TargetsAt(sc, h, fk)) <==> !Waiting(sc, g, works, creates, fk) {
      if Waiting(sc, g, works, creates, fk) {
        WaitingBreaks(sc, tf, g, works, creates, fields, fk);
      } else if HasField(sc, g, fk) && fk.holder !in works {
        UntouchedTargets(sc, tf, g, works, creates, fk);
      }
    }
  }

  /** A waiting holder gains a target that the patched index does not list. */
  lemma {:induction false} WaitingBreaks(sc: Schema, tf: TargetFields, g: Graph, works: Graph, creates: Graph, fields: Fields, fk: FieldKey)
    requires Proposal(sc, tf, g, works, creates)
    requires FieldsExact(sc, g, fields) && Waiting(sc, g, works, creates, fk)
    ensures var h := Overlaid(g, works, creates);
            fk in fields && fk.holder !in works && fk.holder !in creates
            && HasField(sc, h, fk) && fields[fk] != TargetsAt(sc, h, fk)
  {
    var h := Overlaid(g, works, creates);
    var i, lk, c :| DanglesAt(sc, g, fk, lk, i) && Bears(creates, c, lk);
    var spec, refs := SpecOf(sc, fk), RefsAt(sc, g, fk);
    ResolveOverlaid(tf, g, works, creates, lk);
    assert RefsAt(sc, h, fk) == refs && Target(h, spec, refs[i]) == Some(c);
    TargetsMember(h, spec, refs, c);
    TargetsMember(g, spec, refs, c);
  }

  // ---------------------------------------------------------------- ownership

  /** `child` is listed and named by the same fields before and after. */
  ghost predicate SameEdges(sc: Schema, before: Fields, after: Fields, child: NodeKey) {
    && (forall fk :: OwnVia(sc, before, fk, child) <==> OwnVia(sc, after, fk, child))
    && (forall o :: BackTo(sc, before, child, o) <==> BackTo(sc, after, child, o))
  }

  /** The decision the delta records for one affected child is the right one. */
  ghost predicate Redecided(sc: Schema, after: Fields, owners: Owners, child: NodeKey) {
    && OneOwnerAt(sc, after, child) && AgreeAt(sc, after, child)
    && (forall o :: OwnerOf(owners, child) == Some(o) <==> IsOwner(sc, after, child, o))
  }

  lemma {:induction false} SameEdgesSameOwner(sc: Schema, before: Fields, after: Fields, child: NodeKey)
    requires SameEdges(sc, before, after, child)
    ensures forall o :: IsOwner(sc, before, child, o) <==> IsOwner(sc, after, child, o)
    ensures OneOwnerAt(sc, before, child) <==> OneOwnerAt(sc, after, child)
    ensures AgreeAt(sc, before, child) <==> AgreeAt(sc, after, child)
  {
    forall o ensures IsOwner(sc, before, child, o) <==> IsOwner(sc, after, child, o) {
      OwnerByEdges(sc, before, child, o);
      OwnerByEdges(sc, after, child, o);
    }
  }

  lemma {:induction false} OwnerByEdges(sc: Schema, fields: Fields, child: NodeKey, owner: NodeKey)
    ensures IsOwner(sc, fields, child, owner) <==>
            (exists fk :: OwnVia(sc, fields, fk, child) && fk.holder == owner)
            || ((forall fk :: !OwnVia(sc, fields, fk, child)) && BackTo(sc, fields, child, owner))
  {
  }

  /** Redeciding only the affected children, and looking for cycles only from them, settles the whole forest. */
  lemma {:induction false} ForestPatched(sc: Schema, before: Fields, after: Fields, owners: Owners, owners': Owners, affected: set<NodeKey>)
    requires ForestLegal(sc, before, owners)
    requires forall c :: c !in affected ==> SameEdges(sc, before, after, c) && OwnerOf(owners', c) == OwnerOf(owners, c)
    requires forall c :: c in affected ==> Redecided(sc, after, owners', c)
    ensures OneOwner(sc, after) && Agree(sc, after) && OwnersExact(sc, after, owners')
    ensures ForestLegal(sc, after, owners') <==> forall c :: c in affected ==> Rooted(owners', c)
  {
    ForestByChild(sc, before);
    forall c ensures OneOwnerAt(sc, after, c) && AgreeAt(sc, after, c)
      ensures forall o :: OwnerOf(owners', c) == Some(o) <==> IsOwner(sc, after, c, o)
    {
      if c !in affected {
        SameEdgesSameOwner(sc, before, after, c);
        assert forall o :: OwnerOf(owners, c) == Some(o) <==> IsOwner(sc, before, c, o);
      } else {
        assert Redecided(sc, after, owners', c);
      }
    }
    ForestByChild(sc, after);
    CycleThroughChange(owners, owners', affected);
  }
}
