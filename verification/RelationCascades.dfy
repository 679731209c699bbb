/** What an accepted delete does, read off rows and owners: whom it takes along, whom it may not touch, and what the survivors still
    point at. */
module RelationCascades {
  import opened RelationSchema
  import opened Wrappers
  import opened OwnershipForest
  import opened RelationGraph
  import opened RelationScan
  import opened RelationModels
  import opened RelationSurvivors
  import opened RelationDeletions
  import opened RelationDeleteDelta
  import opened RelationFallbacks
  import opened RelationLaws

  // ---------------------------------------------------------------- what the survivors point at

  lemma {:induction false} AcceptedParts(sc: Schema, g: Graph, committed: Owners, deletes: set<NodeKey>, closure: set<NodeKey>)
    requires Accepted(sc, g, committed, deletes, closure)
    ensures (forall fk :: !Unscannable(sc, g, fk)) && Legal(sc, Survivors(g, closure)) && deletes <= g.Keys
    ensures forall fields :: FieldsExact(sc, g, fields) ==> !BorrowsDoomed(sc, fields, closure)
  {
    hide Unscannable, Legal, FieldsExact, ForestLegal, LeastClosure, BorrowsDoomed;
    var fields, owners :| AcceptedWith(sc, g, committed, deletes, closure, fields, owners);
    forall other | FieldsExact(sc, g, other) ensures other == fields {
      FieldsUnique(sc, g, other, fields);
    }
  }

  lemma {:induction false} ScannedSurvives(sc: Schema, g: Graph, closure: set<NodeKey>, fk: FieldKey)
    requires !Unscannable(sc, g, fk) && HasField(sc, g, fk) && fk.holder !in closure
    ensures HasField(sc, Survivors(g, closure), fk) && TargetsAt(sc, Survivors(g, closure), fk) == Kept(TargetsAt(sc, g, fk), closure)
  {
    var refs := RefsAt(sc, g, fk);
    forall i | 0 <= i < |refs| && refs[i].Some? ensures Resolve(g, Lookup(SpecOf(sc, fk), refs[i].value)) != Clash {
      assert !ClashesAt(sc, g, fk, i);
    }
    TargetsSurvivors(g, closure, SpecOf(sc, fk), refs);
    hide Targets, Resolve, Kept;
  }

  /** After an accepted delete every borrow of a survivor, slice or not, reaches exactly the rows it reached before. */
  lemma {:induction false} BorrowsSurvive(sc: Schema, g: Graph, committed: Owners, deletes: set<NodeKey>, closure: set<NodeKey>, fk: FieldKey)
    requires Accepted(sc, g, committed, deletes, closure) && HasField(sc, g, fk) && fk.holder !in closure
    requires sc[fk.holder.typ][fk.field].kind.Borrow?
    ensures HasField(sc, Survivors(g, closure), fk) && TargetsAt(sc, Survivors(g, closure), fk) == TargetsAt(sc, g, fk)
  {
    hide Accepted, Unscannable, TargetsAt, FieldsExact, Legal;
    AcceptedParts(sc, g, committed, deletes, closure);
    ScannedSurvives(sc, g, closure, fk);
    var fields := TheFields(sc, g);
    TheFieldsAt(sc, g, fk);
    forall t | t in TargetsAt(sc, g, fk) ensures t !in closure {
    }
    KeptAll(TargetsAt(sc, g, fk), closure);
    hide Kept;
  }

  lemma {:induction false} TheFieldsAt(sc: Schema, g: Graph, fk: FieldKey)
    requires HasField(sc, g, fk)
    ensures fk in TheFields(sc, g) && TheFields(sc, g)[fk] == TargetsAt(sc, g, fk) && FieldsExact(sc, g, TheFields(sc, g))
  {
    hide TargetsAt;
  }

  /** An option or a slice of a survivor loses the doomed rows and keeps the others in order. */
  lemma {:induction false} OthersLetGo(sc: Schema, g: Graph, committed: Owners, deletes: set<NodeKey>, closure: set<NodeKey>, fk: FieldKey, k: NodeKey)
    requires Accepted(sc, g, committed, deletes, closure) && HasField(sc, g, fk) && fk.holder !in closure
    ensures HasField(sc, Survivors(g, closure), fk)
    ensures k in TargetsAt(sc, Survivors(g, closure), fk) <==> k in TargetsAt(sc, g, fk) && k !in closure
  {
    hide Accepted, Unscannable, TargetsAt, Legal;
    AcceptedParts(sc, g, committed, deletes, closure);
    ScannedSurvives(sc, g, closure, fk);
  }

  // ---------------------------------------------------------------- whether it may go

  /** A row outside the doomed set has a borrow pointer, or a to-one own pointer, to a row inside it. */
  ghost predicate HeldBack(sc: Schema, g: Graph, doomed: set<NodeKey>) {
    exists h, f, i, k :: HoldsBack(sc, g, doomed, h, f, i, k)
  }

  ghost predicate HoldsBack(sc: Schema, g: Graph, doomed: set<NodeKey>, h: NodeKey, f: nat, i: int, k: NodeKey) {
    && h !in doomed && k in doomed && Reaches(sc, g, h, f, i, k) && h.typ in sc && f in sc[h.typ]
    && (sc[h.typ][f].kind.Borrow? || (sc[h.typ][f].kind.Own? && !sc[h.typ][f].many))
  }

  /** A row outside the doomed set lacks a relation it requires. */
  ghost predicate LeftLacking(sc: Schema, g: Graph, doomed: set<NodeKey>) {
    exists h, f :: h !in doomed && Requires(sc, g, h, f) && forall k :: !Reaches(sc, g, h, f, 0, k)
  }

  lemma {:induction false} ClingsMeans(sc: Schema, g: Graph, fields: Fields, doomed: set<NodeKey>)
    requires FieldsExact(sc, g, fields)
    ensures Vetoed(sc, fields, doomed) <==> HeldBack(sc, g, doomed)
  {
    hide Reaches, TargetsAt, Vetoed;
    VetoedIs(sc, fields, doomed);
    if fk, t :| Clings(sc, fields, doomed, fk, t) {
      TargetsReached(sc, g, fk, t);
      var i :| Reaches(sc, g, fk.holder, fk.field, i, t);
      assert HoldsBack(sc, g, doomed, fk.holder, fk.field, i, t);
    }
    if h, f, i, k :| HoldsBack(sc, g, doomed, h, f, i, k) {
      ReachesFrom(sc, g, h, f, i, k);
      TargetsReached(sc, g, FieldKey(h, f), k);
      assert Clings(sc, fields, doomed, FieldKey(h, f), k);
    }
  }

  lemma {:induction false} LacksOutside(sc: Schema, g: Graph, doomed: set<NodeKey>)
    requires WellFormed(sc)
    ensures (forall fk :: Lacks(sc, g, fk) ==> fk.holder in doomed) <==> !LeftLacking(sc, g, doomed)
  {
    hide Reaches, LacksAt, WellFormed;
    forall fk | HasField(sc, g, fk)
      ensures Lacks(sc, g, fk) <==> Requires(sc, g, fk.holder, fk.field) && forall k :: !Reaches(sc, g, fk.holder, fk.field, 0, k)
    {
      LacksMeans(sc, g, fk);
    }
    forall fk ensures Lacks(sc, g, fk) ==> HasField(sc, g, fk) {
      LacksHas(sc, g, fk);
    }
    hide Lacks;
    if h, f :| h !in doomed && Requires(sc, g, h, f) && forall k :: !Reaches(sc, g, h, f, 0, k) {
      assert HasField(sc, g, FieldKey(h, f));
    }
  }

  lemma {:induction false} LacksHas(sc: Schema, g: Graph, fk: FieldKey)
    ensures Lacks(sc, g, fk) ==> HasField(sc, g, fk)
  {
  }

  /** Over a graph a model can be built for, known deletes go through if and only if no survivor of their cascade has a borrow or a to-one own
      pointer to a doomed row and none lacks a required relation. */
  lemma {:induction false} DeletesMayGo(sc: Schema, g: Graph, committed: Owners, deletes: set<NodeKey>, closure: set<NodeKey>)
    requires WellFormed(sc) && Buildable(sc, g) && deletes <= g.Keys && CascadesTo(sc, g, committed, deletes, closure)
    ensures Accepted(sc, g, committed, deletes, closure) <==> !HeldBack(sc, g, closure) && !LeftLacking(sc, g, closure)
  {
    hide *;
    var fields, owners := CascadeParts(sc, g, committed, deletes, closure);
    ClingsMeans(sc, g, fields, closure);
    LacksOutside(sc, g, closure);
    BorrowVetoes(sc, fields, closure);
    BuildableScans(sc, g);
    LeastIsClosed(g, owners, committed, deletes, closure);
    SurvivorForest(sc, g, fields, owners, closure);
    LegalByRefs(sc, Survivors(g, closure), FilterFields(fields, closure), FilterOwners(owners, closure));
    if !Vetoed(sc, fields, closure) && forall fk :: Lacks(sc, g, fk) ==> fk.holder in closure {
      SurvivorsLegalRefs(sc, g, fields, owners, committed, closure);
      AcceptedHere(sc, g, committed, deletes, closure, fields, owners);
    }
    if Accepted(sc, g, committed, deletes, closure) {
      AcceptedParts(sc, g, committed, deletes, closure);
      LegalSurvivorsPass(sc, g, fields, closure);
    }
  }

  lemma {:induction false} CascadeParts(sc: Schema, g: Graph, committed: Owners, deletes: set<NodeKey>, closure: set<NodeKey>)
    returns (fields: Fields, owners: Owners)
    requires CascadesTo(sc, g, committed, deletes, closure)
    ensures FieldsExact(sc, g, fields) && ForestLegal(sc, fields, owners) && LeastClosure(g, owners, committed, deletes, closure)
  {
    hide FieldsExact, ForestLegal, LeastClosure;
    fields, owners :| CascadesWith(sc, g, committed, deletes, closure, fields, owners);
  }

  lemma {:induction false} BuildableScans(sc: Schema, g: Graph)
    requires Buildable(sc, g)
    ensures (forall fk :: !Unscannable(sc, g, fk)) && forall fk, i :: !ClashesAt(sc, g, fk, i)
  {
    hide FieldsExact, ForestLegal;
    forall fk, i ensures !ClashesAt(sc, g, fk, i) {
      assert !Unscannable(sc, g, fk);
      ClashHas(sc, g, fk, i);
    }
  }

  lemma {:induction false} AcceptedHere(sc: Schema, g: Graph, committed: Owners, deletes: set<NodeKey>, closure: set<NodeKey>, fields: Fields, owners: Owners)
    requires (forall fk :: !Unscannable(sc, g, fk)) && deletes <= g.Keys && Legal(sc, Survivors(g, closure)) && !BorrowsDoomed(sc, fields, closure)
    requires FieldsExact(sc, g, fields) && ForestLegal(sc, fields, owners) && LeastClosure(g, owners, committed, deletes, closure)
    ensures Accepted(sc, g, committed, deletes, closure)
  {
    hide Unscannable, Legal, FieldsExact, ForestLegal, LeastClosure, BorrowsDoomed;
    assert AcceptedWith(sc, g, committed, deletes, closure, fields, owners);
  }

  // ---------------------------------------------------------------- whom it takes along

  /** The row is one of these, or one of its owners is. */
  ghost predicate Under(owners: Owners, deletes: set<NodeKey>, k: NodeKey) {
    exists n: nat, d :: d in deletes && Ancestor(owners, k, n) == Some(d)
  }

  lemma {:induction false} ChildUnder(g: Graph, owners: Owners, deletes: set<NodeKey>, o: NodeKey, c: NodeKey)
    requires Under(owners, deletes, o) && Cascades(g, owners, owners, o, c)
    ensures Under(owners, deletes, c)
  {
    var n: nat, d :| d in deletes && Ancestor(owners, o, n) == Some(d);
    assert Ancestor(owners, c, 0) == Some(c);
    assert Ancestor(owners, c, 1) == Some(o);
    AncestorSplit(owners, c, 1, n);
  }

  lemma {:induction false} DeletesUnder(owners: Owners, deletes: set<NodeKey>, d: NodeKey)
    requires d in deletes
    ensures Under(owners, deletes, d)
  {
    assert Ancestor(owners, d, 0) == Some(d);
  }

  /** Deletes that change no owner take exactly the branches below them along. */
  lemma {:induction false} BranchesGo(g: Graph, owners: Owners, deletes: set<NodeKey>, closure: set<NodeKey>, k: NodeKey)
    requires LeastClosure(g, owners, owners, deletes, closure)
    ensures k in closure <==> Under(owners, deletes, k)
  {
    hide Under, Cascades;
    UnderGoes(g, owners, deletes, closure, k);
    var below := set j | j in closure && Under(owners, deletes, j);
    forall d | d in deletes ensures d in below {
      DeletesUnder(owners, deletes, d);
    }
    forall o, c | o in below && Cascades(g, owners, owners, o, c) ensures c in below {
      ChildUnder(g, owners, deletes, o, c);
    }
    assert CascadeClosed(g, owners, owners, below);
  }

  lemma {:induction false} UnderGoes(g: Graph, owners: Owners, deletes: set<NodeKey>, closure: set<NodeKey>, k: NodeKey)
    requires LeastClosure(g, owners, owners, deletes, closure)
    ensures Under(owners, deletes, k) ==> k in closure
  {
    hide LeastClosure, Ancestor;
    if n: nat, d :| d in deletes && Ancestor(owners, k, n) == Some(d) {
      DescendantGoes(g, owners, deletes, closure, k, n);
    }
  }

  lemma {:induction false} DescendantGoes(g: Graph, owners: Owners, deletes: set<NodeKey>, closure: set<NodeKey>, k: NodeKey, n: nat)
    requires LeastClosure(g, owners, owners, deletes, closure) && Ancestor(owners, k, n).Some? && Ancestor(owners, k, n).value in deletes
    ensures k in closure
  {
    hide Ancestor;
    DescendantDown(g, owners, deletes, closure, k, n);
  }

  lemma {:induction false} DescendantDown(g: Graph, owners: Owners, deletes: set<NodeKey>, closure: set<NodeKey>, k: NodeKey, n: nat)
    requires LeastClosure(g, owners, owners, deletes, closure) && Ancestor(owners, k, n).Some? && Ancestor(owners, k, n).value in closure
    ensures k in closure
  {
    if n > 0 {
      AncestorPrefix(owners, k, n - 1, n);
      assert Cascades(g, owners, owners, Ancestor(owners, k, n).value, Ancestor(owners, k, n - 1).value);
      DescendantDown(g, owners, deletes, closure, k, n - 1);
    }
  }

  /** In a transaction that also changes owners a child goes with its new owner, and with its old one only if nobody owns it now. */
  lemma {:induction false} ChildGoes(g: Graph, owners: Owners, committed: Owners, deletes: set<NodeKey>, closure: set<NodeKey>, c: NodeKey)
    requires LeastClosure(g, owners, committed, deletes, closure)
    ensures c in owners ==> (c in closure <==> c in deletes || owners[c] in closure)
    ensures c !in owners && c in committed && c in g ==> (c in closure <==> c in deletes || committed[c] in closure)
    ensures c !in owners && (c !in committed || c !in g) ==> (c in closure <==> c in deletes)
  {
    if c in owners && owners[c] in closure {
      assert Cascades(g, owners, committed, owners[c], c);
    }
    if c !in owners && c in committed && c in g && committed[c] in closure {
      assert Cascades(g, owners, committed, committed[c], c);
    }
    if c in closure && c !in deletes && forall o :: o in closure && o != c ==> !Cascades(g, owners, committed, o, c) {
      var rest := closure - {c};
      assert CascadeClosed(g, owners, committed, rest);
    }
  }
}
