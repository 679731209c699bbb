/** The delete cascade: the least closed set, the vetoes, and exactly when the survivors are a legal graph. */
module RelationDeletions {
  import opened RelationSchema
  import opened Wrappers
  import opened Ordering
  import opened OwnershipForest
  import opened OwnershipWalks
  import opened RelationGraph
  import opened RelationScan
  import opened RelationModels
  import opened RelationSurvivors
  import opened RelationRebuilds

  /** Deleting `owner` takes `child` along: it is owned in the proposed graph, or it was owned in the committed one
      and nobody else owns it now. */
  predicate Cascades(nodes: Graph, owners: Owners, committed: Owners, owner: NodeKey, child: NodeKey) {
    || OwnerOf(owners, child) == Some(owner)
    || (OwnerOf(committed, child) == Some(owner) && child in nodes && child !in owners)
  }

  ghost predicate CascadeClosed(nodes: Graph, owners: Owners, committed: Owners, s: set<NodeKey>) {
    forall o, c :: o in s && Cascades(nodes, owners, committed, o, c) ==> c in s
  }

  ghost predicate LeastClosure(nodes: Graph, owners: Owners, committed: Owners, explicit: set<NodeKey>, s: set<NodeKey>) {
    && explicit <= s && CascadeClosed(nodes, owners, committed, s)
    && (forall t :: explicit <= t && CascadeClosed(nodes, owners, committed, t) ==> s <= t)
  }

  /** A surviving holder borrows a doomed node, or owns one through a to-one field. */
  ghost predicate Vetoes(sc: Schema, fields: Fields, deleted: set<NodeKey>, fk: FieldKey) {
    && fk in fields && fk.holder !in deleted && Declares(sc, fk.holder.typ, fk.field)
    && (SpecOf(sc, fk).kind == Borrow || (SpecOf(sc, fk).kind == Own && !SpecOf(sc, fk).many))
    && exists t :: t in fields[fk] && t in deleted
  }

  ghost predicate Vetoed(sc: Schema, fields: Fields, deleted: set<NodeKey>) {
    exists fk :: Vetoes(sc, fields, deleted, fk)
  }

  /** A surviving row points at a doomed one through a relation that may not let go: any borrow, or a to-one own. */
  ghost predicate Clings(sc: Schema, fields: Fields, doomed: set<NodeKey>, fk: FieldKey, t: NodeKey) {
    && fk in fields && t in fields[fk] && t in doomed && fk.holder !in doomed && Declares(sc, fk.holder.typ, fk.field)
    && match sc[fk.holder.typ][fk.field].kind case Borrow => true case Own => !sc[fk.holder.typ][fk.field].many case _ => false
  }

  lemma {:induction false} VetoedIs(sc: Schema, fields: Fields, doomed: set<NodeKey>)
    ensures Vetoed(sc, fields, doomed) <==> exists fk, t :: Clings(sc, fields, doomed, fk, t)
  {
    if fk :| Vetoes(sc, fields, doomed, fk) {
      var t :| t in fields[fk] && t in doomed;
      assert Clings(sc, fields, doomed, fk, t);
    }
    if fk, t :| Clings(sc, fields, doomed, fk, t) {
      assert Vetoes(sc, fields, doomed, fk);
    }
  }

  /** The children a deleted owner takes along: proposed ones, then committed ones nobody adopted. */
  method DeletionChildren(model: RelationModel, committedOutgoing: map<NodeKey, seq<NodeKey>>, ghost committed: Owners, owner: NodeKey)
    returns (children: seq<NodeKey>)
    requires OutgoingExact(model.owners, model.outgoing) && OutgoingExact(committed, committedOutgoing)
    ensures forall c :: c in children <==> Cascades(model.nodes, model.owners, committed, owner, c)
  {
    children := ChildrenOf(model.outgoing, owner);
    var seen := set c | c in children;
    var more := ChildrenOf(committedOutgoing, owner);
    var i := 0;
    while i < |more|
      invariant 0 <= i <= |more|
      invariant forall c :: c in seen <==> c in children
      invariant forall c :: c in children <==> c in ChildrenOf(model.outgoing, owner)
                                               || (c in more[..i] && c in model.nodes && c !in model.owners)
    {
      var child := more[i];
      assert more[..i + 1] == more[..i] + [child];
      assert child in ChildrenOf(model.outgoing, owner) <==> OwnerOf(model.owners, child) == Some(owner);
      if child in model.nodes && (child !in model.owners || model.owners[child] == owner) && child !in seen {
        seen := seen + {child};
        children := children + [child];
      }
      i := i + 1;
    }
    assert more[..i] == more;
    forall c ensures c in children <==> Cascades(model.nodes, model.owners, committed, owner, c) {
      assert c in ChildrenOf(model.outgoing, owner) <==> OwnerOf(model.owners, c) == Some(owner);
      assert c in more <==> OwnerOf(committed, c) == Some(owner);
    }
  }

  /** Everything outside the queue has its children in the set already, and nothing is in it without cause. */
  ghost predicate Cascading(nodes: Graph, owners: Owners, committed: Owners, explicit: set<NodeKey>, deleted: set<NodeKey>, queue: seq<NodeKey>) {
    && explicit <= deleted <= nodes.Keys && (forall k :: k in queue ==> k in deleted)
    && (forall o, c :: o in deleted && o !in queue && Cascades(nodes, owners, committed, o, c) ==> c in deleted)
    && (forall t :: explicit <= t && CascadeClosed(nodes, owners, committed, t) ==> deleted <= t)
  }

  lemma {:induction false} CascadeStep(nodes: Graph, owners: Owners, committed: Owners, explicit: set<NodeKey>,
                                       deleted: set<NodeKey>, queue: seq<NodeKey>, children: seq<NodeKey>, news: seq<NodeKey>)
    requires queue != [] && Cascading(nodes, owners, committed, explicit, deleted, queue) && owners.Keys <= nodes.Keys
    requires forall c :: c in children <==> Cascades(nodes, owners, committed, queue[0], c)
    requires forall c :: c in news <==> c in children && c !in deleted
    ensures Cascading(nodes, owners, committed, explicit, deleted + (set c | c in news), queue[1..] + news)
  {
    var deleted', queue' := deleted + (set c | c in news), queue[1..] + news;
    assert queue == [queue[0]] + queue[1..];
    hide Cascades;
    assert deleted' <= nodes.Keys by {
      forall c | c in news ensures c in nodes {
        CascadesToNode(nodes, owners, committed, queue[0], c);
      }
    }
    forall t | explicit <= t && CascadeClosed(nodes, owners, committed, t) ensures deleted' <= t {
      assert queue[0] in t;
    }
  }

  lemma {:induction false} CascadesToNode(nodes: Graph, owners: Owners, committed: Owners, owner: NodeKey, child: NodeKey)
    requires Cascades(nodes, owners, committed, owner, child) && owners.Keys <= nodes.Keys
    ensures child in nodes
  {
  }

  lemma {:induction false} CascadeDone(nodes: Graph, owners: Owners, committed: Owners, explicit: set<NodeKey>, deleted: set<NodeKey>)
    requires Cascading(nodes, owners, committed, explicit, deleted, [])
    ensures LeastClosure(nodes, owners, committed, explicit, deleted)
  {
    hide Cascades;
  }

  /** Grow the set breadth first until nothing new is reached. */
  method CascadeFrom(model: RelationModel, committedOutgoing: map<NodeKey, seq<NodeKey>>, ghost committed: Owners, explicit: set<NodeKey>)
    returns (deleted: set<NodeKey>)
    requires OutgoingExact(model.owners, model.outgoing) && OutgoingExact(committed, committedOutgoing)
    requires explicit <= model.nodes.Keys && model.owners.Keys <= model.nodes.Keys
    ensures LeastClosure(model.nodes, model.owners, committed, explicit, deleted) && deleted <= model.nodes.Keys
  {
    hide *;
    deleted := explicit;
    var queue := KeysOf(explicit);
    CascadeStart(model.nodes, model.owners, committed, explicit, queue);
    while queue != []
      invariant Cascading(model.nodes, model.owners, committed, explicit, deleted, queue)
      decreases model.nodes.Keys - deleted, |queue|
    {
      var children := DeletionChildren(model, committedOutgoing, committed, queue[0]);
      var news: seq<NodeKey> := [];
      ghost var before := deleted;
      var i := 0;
      while i < |children|
        invariant 0 <= i <= |children| && deleted == before + (set c | c in news)
        invariant forall c :: c in news <==> c in children[..i] && c !in before
      {
        assert children[..i + 1] == children[..i] + [children[i]];
        if children[i] !in deleted {
          news := news + [children[i]];
          deleted := deleted + {children[i]};
        }
        i := i + 1;
      }
      assert children[..i] == children;
      CascadeStep(model.nodes, model.owners, committed, explicit, before, queue, children, news);
      Shrinks(model.nodes, model.owners, committed, explicit, before, deleted, queue[1..] + news, news);
      queue := queue[1..] + news;
    }
    CascadeDone(model.nodes, model.owners, committed, explicit, deleted);
    CascadeWithin(model.nodes, model.owners, committed, explicit, deleted, queue);
  }

  lemma {:induction false} CascadeStart(nodes: Graph, owners: Owners, committed: Owners, explicit: set<NodeKey>, queue: seq<NodeKey>)
    requires explicit <= nodes.Keys && forall k :: k in queue <==> k in explicit
    ensures Cascading(nodes, owners, committed, explicit, explicit, queue)
  {
    hide Cascades;
  }

  lemma {:induction false} CascadeWithin(nodes: Graph, owners: Owners, committed: Owners, explicit: set<NodeKey>, deleted: set<NodeKey>, queue: seq<NodeKey>)
    requires Cascading(nodes, owners, committed, explicit, deleted, queue)
    ensures deleted <= nodes.Keys
  {
  }

  lemma {:induction false} Shrinks(nodes: Graph, owners: Owners, committed: Owners, explicit: set<NodeKey>,
                                   before: set<NodeKey>, deleted: set<NodeKey>, queue: seq<NodeKey>, news: seq<NodeKey>)
    requires deleted == before + (set c | c in news) && (forall c :: c in news ==> c !in before)
    requires Cascading(nodes, owners, committed, explicit, deleted, queue)
    ensures news == [] ==> deleted == before
    ensures news != [] ==> nodes.Keys - deleted < nodes.Keys - before
  {
    if news != [] {
      assert news[0] in deleted && news[0] in nodes.Keys - before && news[0] !in nodes.Keys - deleted;
    }
  }

  method KeysOf(keys: set<NodeKey>) returns (listed: seq<NodeKey>)
    ensures forall k :: k in listed <==> k in keys
  {
    listed := [];
    var rest := keys;
    while rest != {}
      invariant rest <= keys && forall k :: k in listed <==> k in keys - rest
      decreases |rest|
    {
      var k :| k in rest;
      listed := listed + [k];
      rest := rest - {k};
    }
  }

  /** The closure of the explicit deletes, unless a survivor holds on to something doomed. */
  method DeletionClosure(model: RelationModel, committedOutgoing: map<NodeKey, seq<NodeKey>>, ghost committed: Owners, explicit: set<NodeKey>)
    returns (r: Result<set<NodeKey>, RelationError>, ghost closure: set<NodeKey>)
    requires model.Readable() && OutgoingExact(committed, committedOutgoing)
    ensures r == Err(UnknownNode) <==> !(explicit <= model.nodes.Keys)
    ensures explicit <= model.nodes.Keys ==> LeastClosure(model.nodes, model.owners, committed, explicit, closure)
    ensures explicit <= model.nodes.Keys ==>
              r == if exists fk, t :: Clings(model.sc, model.fields, closure, fk, t) then Err(DeleteRestricted) else Ok(closure)
  {
    hide *;
    closure := {};
    if !(explicit <= model.nodes.Keys) {
      return Err(UnknownNode), closure;
    }
    ReadableParts(model);
    var deleted := CascadeFrom(model, committedOutgoing, committed, explicit);
    closure := deleted;
    VetoedIs(model.sc, model.fields, deleted);
    var i := 0;
    while i < |model.refs|
      invariant 0 <= i <= |model.refs|
      invariant forall j :: 0 <= j < i ==> !RefVetoes(model.sc, model.refs[j], deleted)
    {
      assert model.refs[i] in model.refs;
      FieldOfRef(model, i);
      if RefVetoes(model.sc, model.refs[i], deleted) {
        RefsVeto(model, deleted, i);
        return Err(DeleteRestricted), closure;
      }
      i := i + 1;
    }
    NoRefVetoes(model, deleted);
    r := Ok(deleted);
  }

  predicate RefVetoes(sc: Schema, ref: ResolvedRelation, deleted: set<NodeKey>) {
    && Declares(sc, ref.field.holder.typ, ref.field.field) && ref.field.holder !in deleted && ref.target in deleted
    && (SpecOf(sc, ref.field).kind == Borrow || (SpecOf(sc, ref.field).kind == Own && !SpecOf(sc, ref.field).many))
  }

  lemma {:induction false} ReadableParts(model: RelationModel)
    requires model.Readable()
    ensures OutgoingExact(model.owners, model.outgoing) && model.owners.Keys <= model.nodes.Keys
  {
  }

  lemma {:induction false} FieldOfRef(model: RelationModel, i: nat)
    requires model.Readable() && i < |model.refs|
    ensures model.refs[i].field in model.fields
  {
    assert model.refs[i] in model.refs;
    hide FieldsExact, ForestLegal, UnresolvedExact, MissingExact, Unscannable, RefsOf;
  }

  lemma {:induction false} RefListed(refs: seq<ResolvedRelation>, fk: FieldKey, t: NodeKey)
    ensures t in RefsOf(refs, fk) <==> Resolved(fk, t) in refs
  {
    if refs != [] {
      var last := |refs| - 1;
      assert refs == refs[..last] + [refs[last]];
      RefListed(refs[..last], fk, t);
    }
  }

  lemma {:induction false} RefsVeto(model: RelationModel, deleted: set<NodeKey>, i: nat)
    requires model.Readable() && i < |model.refs| && RefVetoes(model.sc, model.refs[i], deleted)
    ensures Vetoed(model.sc, model.fields, deleted)
  {
    var ref := model.refs[i];
    FieldOfRef(model, i);
    RefListed(model.refs, ref.field, ref.target);
    hide FieldsExact, ForestLegal, UnresolvedExact, MissingExact, Unscannable, RefsOf;
    assert ref in model.refs && ref == Resolved(ref.field, ref.target);
    assert Vetoes(model.sc, model.fields, deleted, ref.field);
  }

  lemma {:induction false} NoRefVetoes(model: RelationModel, deleted: set<NodeKey>)
    requires model.Readable() && forall j :: 0 <= j < |model.refs| ==> !RefVetoes(model.sc, model.refs[j], deleted)
    ensures !Vetoed(model.sc, model.fields, deleted)
  {
    hide FieldsExact, ForestLegal, UnresolvedExact, MissingExact, Unscannable, RefsOf;
    if fk :| Vetoes(model.sc, model.fields, deleted, fk) {
      var t :| t in model.fields[fk] && t in deleted;
      RefListed(model.refs, fk, t);
    }
  }

  // ---------------------------------------------------------------- what the survivors form

  /** A surviving borrow field, slice or not, still names something doomed. */
  ghost predicate BorrowsDoomed(sc: Schema, fields: Fields, deleted: set<NodeKey>) {
    exists fk, t :: fk in fields && t in fields[fk] && t in deleted && fk.holder !in deleted
                    && Declares(sc, fk.holder.typ, fk.field) && sc[fk.holder.typ][fk.field].kind.Borrow?
  }

  /** A required pointer of a survivor either kept its target or was vetoed; an ownedby child died with its owner. */
  lemma {:induction false} RequiredSurvives(sc: Schema, g: Graph, fields: Fields, owners: Owners, committed: Owners,
                                            deleted: set<NodeKey>, fk: FieldKey, i: nat)
    requires FieldsExact(sc, g, fields) && ForestLegal(sc, fields, owners) && WellFormed(sc)
    requires CascadeClosed(g, owners, committed, deleted) && !Vetoes(sc, fields, deleted, fk)
    requires HasField(sc, g, fk) && fk.holder !in deleted && i < |RefsAt(sc, g, fk)| && !SpecOf(sc, fk).MayBeMissing()
    requires Target(g, SpecOf(sc, fk), RefsAt(sc, g, fk)[i]).Some?
    ensures Target(g, SpecOf(sc, fk), RefsAt(sc, g, fk)[i]).value !in deleted
  {
    var spec, refs := SpecOf(sc, fk), RefsAt(sc, g, fk);
    var t := Target(g, spec, refs[i]).value;
    TargetsMember(g, spec, refs, t);
    assert t in fields[fk];
    if t in deleted && spec.kind == OwnedBy {
      OwnedByIsOwner(sc, g, fields, owners, fk, t);
    }
  }

  lemma {:induction false} OwnedByIsOwner(sc: Schema, g: Graph, fields: Fields, owners: Owners, fk: FieldKey, owner: NodeKey)
    requires FieldsExact(sc, g, fields) && ForestLegal(sc, fields, owners) && WellFormed(sc)
    requires fk in fields && IsOwnedBy(sc, fk.holder.typ, fk.field) && owner in fields[fk]
    ensures OwnerOf(owners, fk.holder) == Some(owner)
  {
    TargetsShort(g, SpecOf(sc, fk), RefsAt(sc, g, fk));
    assert fields[fk] == [owner];
    assert BackVia(sc, fields, fk, owner);
    hide FieldsExact, BackVia, OwnVia, Acyclic;
    if own :| OwnVia(sc, fields, own, fk.holder) {
      assert own.holder == owner;
      assert IsOwner(sc, fields, fk.holder, owner);
    } else {
      assert IsOwner(sc, fields, fk.holder, owner);
    }
  }

  lemma {:induction false} SurvivorRef(sc: Schema, g: Graph, deleted: set<NodeKey>, fk: FieldKey, i: nat)
    requires HasField(sc, g, fk) && fk.holder !in deleted && i < |RefsAt(sc, g, fk)| && !ClashesAt(sc, g, fk, i)
    ensures var s, spec, ref := Survivors(g, deleted), SpecOf(sc, fk), RefsAt(sc, g, fk)[i];
            && HasField(sc, s, fk) && RefsAt(sc, s, fk) == RefsAt(sc, g, fk)
            && (RefLegal(s, spec, ref) <==>
                  (spec.MayBeMissing() || (Target(g, spec, ref).Some? && Target(g, spec, ref).value !in deleted)))
  {
    var s, spec, ref := Survivors(g, deleted), SpecOf(sc, fk), RefsAt(sc, g, fk)[i];
    TargetSurvivors(g, deleted, spec, ref);
    if ref.Some? {
      ResolveSurvivors(g, deleted, Lookup(spec, ref.value));
    }
  }

  /** Nothing is vetoed and no survivor lacks a required relation: then every surviving field is legal. */
  lemma {:induction false} SurvivorsLegalRefs(sc: Schema, g: Graph, fields: Fields, owners: Owners, committed: Owners, deleted: set<NodeKey>)
    requires FieldsExact(sc, g, fields) && ForestLegal(sc, fields, owners) && WellFormed(sc)
    requires CascadeClosed(g, owners, committed, deleted) && !Vetoed(sc, fields, deleted)
    requires forall fk :: !Unscannable(sc, g, fk)
    requires forall fk :: Lacks(sc, g, fk) ==> fk.holder in deleted
    ensures LegalRefs(sc, Survivors(g, deleted))
  {
    var s := Survivors(g, deleted);
    hide Refs, Targets, Resolve, ForestLegal, CascadeClosed, WellFormed, FieldsExact;
    forall fk | HasField(sc, s, fk) ensures FieldLegal(sc, s, fk) {
      var spec, refs := SpecOf(sc, fk), RefsAt(sc, g, fk);
      assert !Unscannable(sc, g, fk) && !Vetoes(sc, fields, deleted, fk);
      forall i | 0 <= i < |refs| ensures RefLegal(s, spec, refs[i]) {
        assert !ClashesAt(sc, g, fk, i);
        SurvivorRef(sc, g, deleted, fk, i);
        if !spec.MayBeMissing() {
          assert !LacksAt(sc, g, fk, i);
          RequiredSurvives(sc, g, fields, owners, committed, deleted, fk, i);
        }
      }
      if spec.kind == Own {
        SurvivorOwn(sc, g, deleted, fk);
      }
    }
  }

  lemma {:induction false} SurvivorOwn(sc: Schema, g: Graph, deleted: set<NodeKey>, fk: FieldKey)
    requires HasField(sc, g, fk) && fk.holder !in deleted && !Unscannable(sc, g, fk) && SpecOf(sc, fk).kind == Own
    ensures HasField(sc, Survivors(g, deleted), fk) && Distinct(TargetsAt(sc, Survivors(g, deleted), fk))
  {
    var refs := RefsAt(sc, g, fk);
    forall i | 0 <= i < |refs| && refs[i].Some? ensures Resolve(g, Lookup(SpecOf(sc, fk), refs[i].value)) != Clash {
      assert !ClashesAt(sc, g, fk, i);
    }
    TargetsSurvivors(g, deleted, SpecOf(sc, fk), refs);
    KeptDistinct(TargetsAt(sc, g, fk), deleted);
  }

  /** The filtered fields and owners of the survivors. */
  function FilterFields(fields: Fields, deleted: set<NodeKey>): Fields {
    map fk | fk in fields && fk.holder !in deleted :: Kept(fields[fk], deleted)
  }

  function FilterOwners(owners: Owners, deleted: set<NodeKey>): Owners {
    map c | c in owners && c !in deleted && owners[c] !in deleted :: owners[c]
  }

  lemma {:induction false} SurvivorForest(sc: Schema, g: Graph, fields: Fields, owners: Owners, deleted: set<NodeKey>)
    requires FieldsExact(sc, g, fields) && ForestLegal(sc, fields, owners) && WellFormed(sc)
    requires forall fk, i :: !ClashesAt(sc, g, fk, i)
    ensures FieldsExact(sc, Survivors(g, deleted), FilterFields(fields, deleted))
    ensures ForestLegal(sc, FilterFields(fields, deleted), FilterOwners(owners, deleted))
  {
    var left, owners' := FilterFields(fields, deleted), FilterOwners(owners, deleted);
    assert FieldsFiltered(sc, g, deleted, fields, left);
    assert OwnersFiltered(deleted, owners, owners');
    FieldsSurvive(sc, g, deleted, fields, left);
    OwnersSurvive(sc, g, deleted, fields, left, owners, owners');
    hide *;
  }

  /** Conversely a legal survivor graph leaves nothing for the checks to find, borrows apart. */
  lemma {:induction false} LegalSurvivorsPass(sc: Schema, g: Graph, fields: Fields, deleted: set<NodeKey>)
    requires FieldsExact(sc, g, fields) && LegalRefs(sc, Survivors(g, deleted))
    requires forall fk :: !Unscannable(sc, g, fk)
    ensures forall fk :: Lacks(sc, g, fk) ==> fk.holder in deleted
    ensures Vetoed(sc, fields, deleted) ==> BorrowsDoomed(sc, fields, deleted)
  {
    var s := Survivors(g, deleted);
    hide Refs, Targets, Resolve, FieldsExact;
    forall fk | Lacks(sc, g, fk) ensures fk.holder in deleted {
      var i :| LacksAt(sc, g, fk, i);
      assert !Unscannable(sc, g, fk) && !ClashesAt(sc, g, fk, i);
      if fk.holder !in deleted {
        SurvivorRef(sc, g, deleted, fk, i);
      }
    }
    if fk :| Vetoes(sc, fields, deleted, fk) {
      if SpecOf(sc, fk).kind == Own {
        DoomedOwnIllegal(sc, g, fields, deleted, fk);
      }
    }
  }

  lemma {:induction false} DoomedOwnIllegal(sc: Schema, g: Graph, fields: Fields, deleted: set<NodeKey>, fk: FieldKey)
    requires FieldsExact(sc, g, fields) && Vetoes(sc, fields, deleted, fk) && SpecOf(sc, fk).kind == Own
    requires !Unscannable(sc, g, fk)
    ensures HasField(sc, Survivors(g, deleted), fk) && !FieldLegal(sc, Survivors(g, deleted), fk)
  {
    var t :| t in fields[fk] && t in deleted;
    var spec, refs := SpecOf(sc, fk), RefsAt(sc, g, fk);
    TargetsMember(g, spec, refs, t);
    var i :| 0 <= i < |refs| && Target(g, spec, refs[i]) == Some(t);
    assert !ClashesAt(sc, g, fk, i);
    SurvivorRef(sc, g, deleted, fk, i);
    hide Refs, Targets, Resolve;
  }

  /** The whole check passes exactly when the survivors are a legal graph and none of them borrows a doomed node. */
  lemma {:induction false} DeletionAccepted(model: RelationModel, committed: Owners, deleted: set<NodeKey>)
    requires model.Sound() && CascadeClosed(model.nodes, model.owners, committed, deleted)
    ensures var sc, g := model.sc, model.nodes;
            !Vetoed(sc, model.fields, deleted) && (forall fk :: Lacks(sc, g, fk) ==> fk.holder in deleted) <==>
            !BorrowsDoomed(sc, model.fields, deleted) && Legal(sc, Survivors(g, deleted))
  {
    hide *;
    var sc, g, fields, owners := model.sc, model.nodes, model.fields, model.owners;
    ModelParts(model);
    ModelScannable(model);
    SurvivorForest(sc, g, fields, owners, deleted);
    BorrowVetoes(sc, fields, deleted);
    if !Vetoed(sc, fields, deleted) && forall fk :: Lacks(sc, g, fk) ==> fk.holder in deleted {
      SurvivorsLegalRefs(sc, g, fields, owners, committed, deleted);
    }
    if LegalRefs(sc, Survivors(g, deleted)) {
      LegalSurvivorsPass(sc, g, fields, deleted);
    }
    LegalByRefs(sc, Survivors(g, deleted), FilterFields(fields, deleted), FilterOwners(owners, deleted));
  }

  lemma {:induction false} ModelScannable(model: RelationModel)
    requires model.Sound()
    ensures forall fk :: !Unscannable(model.sc, model.nodes, fk)
  {
  }

  lemma {:induction false} BorrowVetoes(sc: Schema, fields: Fields, deleted: set<NodeKey>)
    ensures BorrowsDoomed(sc, fields, deleted) ==> Vetoed(sc, fields, deleted)
  {
    if BorrowsDoomed(sc, fields, deleted) {
      var fk, t :| fk in fields && t in fields[fk] && t in deleted && fk.holder !in deleted
                   && Declares(sc, fk.holder.typ, fk.field) && sc[fk.holder.typ][fk.field].kind.Borrow?;
      assert Vetoes(sc, fields, deleted, fk);
    }
  }

  lemma {:induction false} LegalByRefs(sc: Schema, g: Graph, fields: Fields, owners: Owners)
    requires FieldsExact(sc, g, fields) && ForestLegal(sc, fields, owners)
    ensures Legal(sc, g) <==> LegalRefs(sc, g)
  {
  }

  /** Validate a transaction's deletes against its model. */
  method ValidateDeletes(model: RelationModel, committedOutgoing: map<NodeKey, seq<NodeKey>>, ghost committed: Owners, explicit: set<NodeKey>)
    returns (r: Result<set<NodeKey>, RelationError>, ghost closure: set<NodeKey>)
    requires model.Readable() && OutgoingExact(committed, committedOutgoing)
    ensures explicit <= model.nodes.Keys ==> LeastClosure(model.nodes, model.owners, committed, explicit, closure)
    ensures r.Ok? <==> explicit <= model.nodes.Keys && !Vetoed(model.sc, model.fields, closure)
                       && forall fk :: fk in model.missing ==> fk.holder in closure
    ensures model.Sound() ==> (r.Ok? <==> explicit <= model.nodes.Keys && !BorrowsDoomed(model.sc, model.fields, closure)
                                          && Legal(model.sc, Survivors(model.nodes, closure)))
    ensures r.Ok? ==> r.value == closure
  {
    hide *;
    r, closure := DeletionClosure(model, committedOutgoing, committed, explicit);
    VetoedIs(model.sc, model.fields, closure);
    if model.Sound() && explicit <= model.nodes.Keys {
      LeastIsClosed(model.nodes, model.owners, committed, explicit, closure);
      DeletionAccepted(model, committed, closure);
    }
    if r.Ok? {
      var ok := ValidateRequiredRelations(model, r.value);
      if !ok {
        r := Err(RequiredMissing);
      }
    }
  }

  lemma {:induction false} LeastIsClosed(nodes: Graph, owners: Owners, committed: Owners, explicit: set<NodeKey>, s: set<NodeKey>)
    requires LeastClosure(nodes, owners, committed, explicit, s)
    ensures CascadeClosed(nodes, owners, committed, s)
  {
  }
}
