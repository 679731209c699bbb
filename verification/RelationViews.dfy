/** What an inverse view lists in a steady state: the rows that point at its own row through the field it names, whatever role that field
    has, so that the view is the transpose of the field. */
module RelationViews {
  import opened RelationSchema
  import opened Ordering
  import opened RelationGraph
  import opened RelationScan
  import opened RelationIndexes
  import opened RelationIndexDeltas
  import opened RelationRewiring
  import opened RelationPublishing
  import opened RelationLaws

  /** What registration asks of a view: the field it names is a borrow or an option and leads back to the view's type. */
  ghost predicate ViewsRegistered(sc: Schema) {
    forall t, f, fd :: Names(sc, t, f, fd) ==>
      (sc[sc[t][f].target][fd].kind.Borrow? || sc[sc[t][f].target][fd].kind.Optional?) && sc[sc[t][f].target][fd].target == t
  }

  /** View `f` of type `t` names field `fd` of the type it lists. */
  predicate Names(sc: Schema, t: string, f: nat, fd: nat) {
    && t in sc && f in sc[t] && sc[t][f].kind.Inverse?
    && sc[t][f].target in sc && fd in sc[sc[t][f].target] && sc[sc[t][f].target][fd].name == sc[t][f].matchField
  }

  ghost predicate NamesOnce(sc: Schema) {
    forall t, f, f' :: t in sc && f in sc[t] && f' in sc[t] && sc[t][f].name == sc[t][f'].name ==> f == f'
  }

  lemma {:induction false} HolderThrough(sc: Schema, g: Graph, fields: Fields, k: NodeKey, f: nat, fk: FieldKey)
    requires ViewsRegistered(sc) && FieldsExact(sc, g, fields) && IsView(sc, k.typ, f) && fk.holder.typ == sc[k.typ][f].target
    ensures HoldsThrough(sc, fields, sc[k.typ][f], k, fk) <==>
            Names(sc, k.typ, f, fk.field) && exists i :: Reaches(sc, g, fk.holder, fk.field, i, k)
  {
    hide Reaches, TargetsAt;
    if fk in fields {
      TargetsReached(sc, g, fk, k);
    }
    forall i | Reaches(sc, g, fk.holder, fk.field, i, k) && Names(sc, k.typ, f, fk.field) ensures HasField(sc, g, fk) {
      ReachesFrom(sc, g, fk.holder, fk.field, i, k);
    }
  }

  /** A row is listed, once, if and only if a pointer of the field the view names reaches the view's row. */
  lemma {:induction false} ViewTransposes(sc: Schema, g: Graph, ix: Image, k: NodeKey, f: nat, h: NodeKey)
    requires Steady(sc, g, ix) && ViewsRegistered(sc) && k in g && IsView(sc, k.typ, f)
    ensures Distinct(ViewAt(g[k], f))
    ensures h in ViewAt(g[k], f) <==>
            h.typ == sc[k.typ][f].target && exists fd, i :: Names(sc, k.typ, f, fd) && Reaches(sc, g, h, fd, i, k)
  {
    hide Reaches, HoldsThrough, Names, ViewsRegistered, Committed, NothingDangles, FieldsExact;
    SteadyParts(sc, g, ix);
    CommittedParts(sc, g, ix);
    assert ViewExact(sc, ix.fields, sc[k.typ][f], k, ViewAt(g[k], f));
    forall fk: FieldKey | fk.holder == h && h.typ == sc[k.typ][f].target
      ensures HoldsThrough(sc, ix.fields, sc[k.typ][f], k, fk) <==>
              Names(sc, k.typ, f, fk.field) && exists i :: Reaches(sc, g, h, fk.field, i, k)
    {
      HolderThrough(sc, g, ix.fields, k, f, fk);
    }
    forall fk ensures HoldsThrough(sc, ix.fields, sc[k.typ][f], k, fk) ==> fk.holder.typ == sc[k.typ][f].target {
      ThroughTyped(sc, ix.fields, sc[k.typ][f], k, fk);
    }
    if fd, i :| Names(sc, k.typ, f, fd) && Reaches(sc, g, h, fd, i, k) {
      assert FieldKey(h, fd).holder == h;
    }
  }

  lemma {:induction false} ThroughTyped(sc: Schema, fields: Fields, view: Spec, target: NodeKey, fk: FieldKey)
    ensures HoldsThrough(sc, fields, view, target, fk) ==> fk.holder.typ == view.target
  {
  }

  /** The view and the field it names say the same of every pair of rows. */
  lemma {:induction false} ViewOf(sc: Schema, g: Graph, ix: Image, k: NodeKey, f: nat, fk: FieldKey)
    requires Steady(sc, g, ix) && ViewsRegistered(sc) && NamesOnce(sc) && k in g && IsView(sc, k.typ, f)
    requires HasField(sc, g, fk) && fk.holder.typ == sc[k.typ][f].target && Names(sc, k.typ, f, fk.field)
    ensures fk.holder in ViewAt(g[k], f) <==> k in TargetsAt(sc, g, fk)
  {
    hide Reaches, Steady, ViewsRegistered, TargetsAt;
    ViewTransposes(sc, g, ix, k, f, fk.holder);
    TargetsReached(sc, g, fk, k);
    forall fd | Names(sc, k.typ, f, fd) ensures fd == fk.field {
    }
  }

  /** A borrow is viewed from the row it borrows. */
  lemma {:induction false} BorrowViewed(sc: Schema, g: Graph, ix: Image, k: NodeKey, f: nat, fk: FieldKey)
    requires Steady(sc, g, ix) && ViewsRegistered(sc) && NamesOnce(sc) && k in g && k.typ in sc && f in sc[k.typ] && sc[k.typ][f].kind.Inverse?
    requires fk.holder in g && fk.holder.typ in sc && fk.field in sc[fk.holder.typ] && sc[fk.holder.typ][fk.field].kind.Borrow?
    requires fk.holder.typ == sc[k.typ][f].target && sc[fk.holder.typ][fk.field].name == sc[k.typ][f].matchField
    ensures HasField(sc, g, fk) && (fk.holder in ViewAt(g[k], f) <==> k in TargetsAt(sc, g, fk))
  {
    hide Steady, ViewsRegistered, TargetsAt;
    ViewOf(sc, g, ix, k, f, fk);
  }

  /** An option is viewed from the row it has chosen. */
  lemma {:induction false} OptionViewed(sc: Schema, g: Graph, ix: Image, k: NodeKey, f: nat, fk: FieldKey)
    requires Steady(sc, g, ix) && ViewsRegistered(sc) && NamesOnce(sc) && k in g && k.typ in sc && f in sc[k.typ] && sc[k.typ][f].kind.Inverse?
    requires fk.holder in g && fk.holder.typ in sc && fk.field in sc[fk.holder.typ] && sc[fk.holder.typ][fk.field].kind.Optional?
    requires fk.holder.typ == sc[k.typ][f].target && sc[fk.holder.typ][fk.field].name == sc[k.typ][f].matchField
    ensures HasField(sc, g, fk) && (fk.holder in ViewAt(g[k], f) <==> k in TargetsAt(sc, g, fk))
  {
    hide Steady, ViewsRegistered, TargetsAt;
    ViewOf(sc, g, ix, k, f, fk);
  }

  /** In a steady state every pointer of a relation reaches one live row. */
  lemma {:induction false} EveryPointerReaches(sc: Schema, g: Graph, ix: Image, fk: FieldKey, i: int, v: Value)
    requires Steady(sc, g, ix) && HasField(sc, g, fk) && Holds(sc, g, fk.holder, fk.field, i, v)
    ensures exists k :: Reaches(sc, g, fk.holder, fk.field, i, k)
  {
    hide Legal, Refs, Resolve, Holds, Reaches, ViewsExact, WellFormed, MirrorsWithin, Covers;
    RefsMean(sc, g, fk, i, v);
    var lk := Lookup(SpecOf(sc, fk), v);
    assert !DanglesAt(sc, g, fk, lk, i);
    NoClash(sc, g, fk, i);
    ReachesMeans(sc, g, fk, i, Resolve(g, lk).key);
  }

  lemma {:induction false} NoClash(sc: Schema, g: Graph, fk: FieldKey, i: int)
    requires Legal(sc, g) && HasField(sc, g, fk) && 0 <= i < |RefsAt(sc, g, fk)| && RefsAt(sc, g, fk)[i].Some?
    ensures Resolve(g, Lookup(SpecOf(sc, fk), RefsAt(sc, g, fk)[i].value)) != Clash
  {
    hide Resolve, Refs, Targets;
    assert FieldLegal(sc, g, fk) && RefLegal(g, SpecOf(sc, fk), RefsAt(sc, g, fk)[i]);
  }
}
