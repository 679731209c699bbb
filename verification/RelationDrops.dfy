/** Surviving holders let go of doomed nodes: their live fields are compacted or cleared in place, and every touched row
    goes on the list handed to the index delta. */
module RelationDrops {
  import opened RelationSchema
  import opened Wrappers
  import opened Ordering
  import opened RelationGraph
  import opened RelationScan
  import opened RelationIndexes
  import opened RelationOverlays
  import opened RelationDeltas
  import opened RelationIndexDeltas
  import opened RelationRewiring
  import opened RelationPublishing
  import opened RelationSurvivors
  import opened RelationDeleteDelta

  // ---------------------------------------------------------------- dropping doomed pointers

  /** The pointer leads to a doomed node. */
  predicate PointsInto(targets: TargetIndex, spec: Spec, closure: set<NodeKey>, ref: Option<Value>) {
    ref.Some? && LookupIn(targets, Lookup(spec, ref.value)).Found? && LookupIn(targets, Lookup(spec, ref.value)).key in closure
  }

  function DropPointers(targets: TargetIndex, spec: Spec, closure: set<NodeKey>, refs: seq<Option<Value>>): seq<Option<Value>> {
    if refs == [] then []
    else
      var last := refs[|refs| - 1];
      DropPointers(targets, spec, closure, refs[..|refs| - 1]) + if PointsInto(targets, spec, closure, last) then [] else [last]
  }

  /** What is left of a stored field: a slice compacted, a to-one pointer cleared. */
  function DroppedLink(targets: TargetIndex, spec: Spec, closure: set<NodeKey>, link: seq<Option<Value>>): seq<Option<Value>> {
    if spec.many then DropPointers(targets, spec, closure, link)
    else if link != [] && PointsInto(targets, spec, closure, link[0]) then [] else link
  }

  /** Compact a live slice, keeping every entry whose target survives. */
  method DropDoomedPointers(targets: TargetIndex, spec: Spec, closure: set<NodeKey>, refs: seq<Option<Value>>) returns (kept: seq<Option<Value>>)
    ensures kept == DropPointers(targets, spec, closure, refs)
  {
    kept := [];
    var position := 0;
    while position < |refs|
      invariant 0 <= position <= |refs| && kept == DropPointers(targets, spec, closure, refs[..position])
    {
      assert refs[..position + 1][..position] == refs[..position];
      if !PointsInto(targets, spec, closure, refs[position]) {
        kept := kept + [refs[position]];
      }
      position := position + 1;
    }
    assert refs[..position] == refs;
  }

  /** On a steady state every pointer has exactly one row it can lead to, the only one that bears its key, and the key decides as that
      row's identity does. */
  lemma {:induction false} DoomedByIdentity(sc: Schema, g: Graph, ix: Image, closure: set<NodeKey>, fk: FieldKey, i: nat) returns (k: NodeKey)
    requires Steady(sc, g, ix) && HasField(sc, g, fk) && i < |RefsAt(sc, g, fk)| && RefsAt(sc, g, fk)[i].Some?
    ensures k in g && Sole(g, k, Lookup(SpecOf(sc, fk), RefsAt(sc, g, fk)[i].value))
    ensures PointsInto(ix.targets, SpecOf(sc, fk), closure, RefsAt(sc, g, fk)[i]) <==> k in closure
  {
    hide Steady, Committed, NothingDangles, Covers, Legal, Lookup;
    var lk := Lookup(SpecOf(sc, fk), RefsAt(sc, g, fk)[i].value);
    SteadyParts(sc, g, ix);
    CommittedParts(sc, g, ix);
    CommittedIsLegal(sc, g, ix);
    LegalLacksNothing(sc, g);
    assert !ClashesAt(sc, g, fk, i);
    KeyIsSearchable(sc, g, ix.targetFields, fk, RefsAt(sc, g, fk)[i].value);
    DanglesNowhere(sc, g, fk, lk, i);
    LookupResolves(g, ix.targetFields, ix.targets, lk);
    k := Resolve(g, lk).key;
  }

  lemma {:induction false} KeyIsSearchable(sc: Schema, g: Graph, tf: TargetFields, fk: FieldKey, value: Value)
    requires Covers(sc, g, tf) && HasField(sc, g, fk)
    ensures Searchable(tf, Lookup(SpecOf(sc, fk), value))
  {
  }

  lemma {:induction false} DanglesNowhere(sc: Schema, g: Graph, fk: FieldKey, lk: TargetKey, i: int)
    requires NothingDangles(sc, g)
    ensures !DanglesAt(sc, g, fk, lk, i)
  {
  }

  /** Pointers into the doomed set are the ones whose targets go. */
  lemma {:induction false} DropKeeps(g: Graph, tf: TargetFields, targets: TargetIndex, spec: Spec, closure: set<NodeKey>, refs: seq<Option<Value>>)
    requires TargetIndexExact(g, tf, targets) && Named(tf, spec)
    ensures Targets(g, spec, DropPointers(targets, spec, closure, refs)) == Kept(Targets(g, spec, refs), closure)
    decreases |refs|, 1
  {
    if refs == [] {
      KeptAll([], closure);
    } else {
      DropKeepsLast(g, tf, targets, spec, closure, refs[..|refs| - 1], refs[|refs| - 1]);
      assert refs == refs[..|refs| - 1] + [refs[|refs| - 1]];
      hide *;
    }
  }

  lemma {:induction false} DropKeepsLast(g: Graph, tf: TargetFields, targets: TargetIndex, spec: Spec, closure: set<NodeKey>,
                                         before: seq<Option<Value>>, ref: Option<Value>)
    requires TargetIndexExact(g, tf, targets) && Named(tf, spec)
    ensures Targets(g, spec, DropPointers(targets, spec, closure, before + [ref])) == Kept(Targets(g, spec, before + [ref]), closure)
    decreases |before| + 1, 0
  {
    hide *;
    DropKeeps(g, tf, targets, spec, closure, before);
    PointsIntoMeans(g, tf, targets, spec, closure, ref);
    DropAppend(targets, spec, closure, before, ref);
    TargetsAppend(g, spec, before, ref);
    var kept, t := DropPointers(targets, spec, closure, before), Target(g, spec, ref);
    TargetsAppend(g, spec, kept, ref);
    assert Targets(g, spec, kept) + [] == Targets(g, spec, kept) && kept + [] == kept;
    assert Targets(g, spec, before) + [] == Targets(g, spec, before);
    if t.Some? {
      KeptAppend(Targets(g, spec, before), t.value, closure);
    }
  }

  lemma {:induction false} DropAppend(targets: TargetIndex, spec: Spec, closure: set<NodeKey>, refs: seq<Option<Value>>, ref: Option<Value>)
    ensures DropPointers(targets, spec, closure, refs + [ref]) ==
            DropPointers(targets, spec, closure, refs) + if PointsInto(targets, spec, closure, ref) then [] else [ref]
  {
    assert (refs + [ref])[..|refs|] == refs;
  }

  lemma {:induction false} TargetsAppend(g: Graph, spec: Spec, refs: seq<Option<Value>>, ref: Option<Value>)
    ensures Targets(g, spec, refs + [ref]) == Targets(g, spec, refs) + match Target(g, spec, ref) case Some(k) => [k] case None => []
  {
    assert (refs + [ref])[..|refs|] == refs;
  }

  lemma {:induction false} PointsIntoMeans(g: Graph, tf: TargetFields, targets: TargetIndex, spec: Spec, closure: set<NodeKey>, ref: Option<Value>)
    requires TargetIndexExact(g, tf, targets) && Named(tf, spec)
    ensures PointsInto(targets, spec, closure, ref) <==> Target(g, spec, ref).Some? && Target(g, spec, ref).value in closure
  {
    if ref.Some? {
      LookupResolves(g, tf, targets, Lookup(spec, ref.value));
    }
  }

  /** A field read back after its doomed pointers were dropped reaches its surviving targets. */
  lemma {:induction false} DroppedReads(g: Graph, tf: TargetFields, targets: TargetIndex, spec: Spec, closure: set<NodeKey>, field: nat, before: Row, after: Row)
    requires TargetIndexExact(g, tf, targets) && Named(tf, spec)
    requires LinkAt(after, field) == DroppedLink(targets, spec, closure, LinkAt(before, field))
    ensures Targets(g, spec, Refs(after, spec, field)) == Kept(Targets(g, spec, Refs(before, spec, field)), closure)
  {
    var link := LinkAt(before, field);
    if spec.many {
      DropKeeps(g, tf, targets, spec, closure, link);
    } else if link == [] {
      KeptNone(g, spec, closure);
    } else {
      hide TargetIndexExact, Kept;
      PointsIntoMeans(g, tf, targets, spec, closure, link[0]);
      KeptOne(g, spec, closure, link[0]);
      KeptNone(g, spec, closure);
      assert link[..1] == [link[0]];
    }
  }

  lemma {:induction false} KeptNone(g: Graph, spec: Spec, closure: set<NodeKey>)
    ensures var nil: seq<Option<Value>> := [None]; Targets(g, spec, nil) == [] && Kept([], closure) == []
  {
    var nil: seq<Option<Value>> := [None];
    assert nil[..0] == [] && nil[..1] == nil;
    TargetsStep(g, spec, nil, 0);
  }

  lemma {:induction false} KeptOne(g: Graph, spec: Spec, closure: set<NodeKey>, ref: Option<Value>)
    ensures var t := Target(g, spec, ref);
            && Targets(g, spec, [ref]) == (if t.Some? then [t.value] else [])
            && Kept(Targets(g, spec, [ref]), closure) == if t.Some? && t.value !in closure then [t.value] else []
  {
    assert [ref][..0] == [] && [ref][..1] == [ref];
    TargetsStep(g, spec, [ref], 0);
    if Target(g, spec, ref).Some? {
      KeptAppend([], Target(g, spec, ref).value, closure);
      assert [] + [Target(g, spec, ref).value] == [Target(g, spec, ref).value];
    }
  }

  // ---------------------------------------------------------------- the live rows after the drop

  /** The listed fields have let go, in place; no other row was written. */
  ghost predicate Dropped(sc: Schema, g: Graph, targets: TargetIndex, closure: set<NodeKey>, survivors: seq<FieldKey>, h: Graph) {
    && SameScalars(g, h) && (forall k :: k in g ==> h[k].views == g[k].views)
    && (forall fk :: HasField(sc, g, fk) ==>
          LinkAt(h[fk.holder], fk.field) ==
          if fk in survivors then DroppedLink(targets, SpecOf(sc, fk), closure, LinkAt(g[fk.holder], fk.field)) else LinkAt(g[fk.holder], fk.field))
    && (forall k :: k in g && !HoldsSurvivor(survivors, k) ==> h[k] == g[k])
  }

  ghost predicate HoldsSurvivor(survivors: seq<FieldKey>, k: NodeKey) {
    exists fk :: fk in survivors && fk.holder == k
  }

  lemma {:induction false} DropStep(sc: Schema, g: Graph, targets: TargetIndex, closure: set<NodeKey>, survivors: seq<FieldKey>, i: nat, h: Graph)
    requires i < |survivors| && Distinct(survivors) && Dropped(sc, g, targets, closure, survivors[..i], h)
    requires HasField(sc, g, survivors[i])
    ensures var fk := survivors[i];
            && fk.holder in h && LinkAt(h[fk.holder], fk.field) == LinkAt(g[fk.holder], fk.field)
            && Dropped(sc, g, targets, closure, survivors[..i + 1],
                       h[fk.holder := Relinked(h[fk.holder], fk.field, DroppedLink(targets, SpecOf(sc, fk), closure, LinkAt(h[fk.holder], fk.field)))])
  {
    hide DroppedLink, Declares, HoldsSurvivor;
    var fk := survivors[i];
    assert survivors[..i + 1] == survivors[..i] + [fk];
    assert fk !in survivors[..i];
    var h' := h[fk.holder := Relinked(h[fk.holder], fk.field, DroppedLink(targets, SpecOf(sc, fk), closure, LinkAt(h[fk.holder], fk.field)))];
    forall f | HasField(sc, g, f) && f != fk ensures LinkAt(h'[f.holder], f.field) == LinkAt(h[f.holder], f.field) {
      assert f.holder == fk.holder ==> f.field != fk.field;
    }
    hide LinkAt;
    forall k | k in g && !HoldsSurvivor(survivors[..i + 1], k) ensures h'[k] == g[k] {
      HoldsMore(survivors[..i], fk, k);
    }
  }

  lemma {:induction false} HoldsMore(survivors: seq<FieldKey>, fk: FieldKey, k: NodeKey)
    ensures HoldsSurvivor(survivors + [fk], k) <==> HoldsSurvivor(survivors, k) || k == fk.holder
  {
    assert fk in survivors + [fk];
    if f :| f in survivors && f.holder == k {
      assert f in survivors + [fk];
    }
  }

  method DropSurvivors(index: CommittedIndex, closure: set<NodeKey>, survivors: seq<FieldKey>)
    requires index.RowsValid() && Distinct(survivors) && forall fk :: fk in survivors ==> HasField(index.sc, index.graph, fk)
    modifies index`graph, index.rows
    ensures index.RowsValid() && Dropped(index.sc, old(index.graph), index.targets, closure, survivors, index.graph)
  {
    hide *;
    ghost var g := index.graph;
    NothingDropped(index.sc, g, index.targets, closure);
    assert survivors[..0] == [];
    var i := 0;
    while i < |survivors|
      invariant 0 <= i <= |survivors| && index.RowsValid()
      invariant Dropped(index.sc, g, index.targets, closure, survivors[..i], index.graph)
    {
      var fk := survivors[i];
      assert fk in survivors;
      DropStep(index.sc, g, index.targets, closure, survivors, i, index.graph);
      NodesLive(index);
      RowsAt(index, fk.holder);
      FieldDeclared(index.sc, g, fk);
      var spec, row := SpecOf(index.sc, fk), index.nodes[fk.holder].row;
      var link := LinkAt(row, fk.field);
      LinkCases(index.targets, spec, closure, link);
      if spec.many {
        link := DropDoomedPointers(index.targets, spec, closure, link);
      } else if link != [] && PointsInto(index.targets, spec, closure, link[0]) {
        link := [];
      }
      index.WriteRow(fk.holder, Relinked(row, fk.field, link));
      i := i + 1;
    }
    assert survivors[..i] == survivors;
  }

  lemma {:induction false} LinkCases(targets: TargetIndex, spec: Spec, closure: set<NodeKey>, link: seq<Option<Value>>)
    ensures DroppedLink(targets, spec, closure, link) ==
            if spec.many then DropPointers(targets, spec, closure, link)
            else if link != [] && PointsInto(targets, spec, closure, link[0]) then [] else link
  {
  }

  lemma {:induction false} NothingDropped(sc: Schema, g: Graph, targets: TargetIndex, closure: set<NodeKey>)
    ensures Dropped(sc, g, targets, closure, [], g)
  {
  }

  /** After the drop every surviving field reaches exactly its surviving targets. */
  lemma {:induction false} DroppedTargets(sc: Schema, tf: TargetFields, g: Graph, targets: TargetIndex, fields: Fields, closure: set<NodeKey>,
                                          survivors: seq<FieldKey>, h: Graph, fk: FieldKey)
    requires Dropped(sc, g, targets, closure, survivors, h) && SurvivorsListed(sc, fields, closure, closure, survivors)
    requires TargetIndexExact(g, tf, targets) && Covers(sc, g, tf) && FieldsExact(sc, g, fields)
    requires HasField(sc, g, fk) && fk.holder !in closure
    ensures HasField(sc, h, fk) && TargetsAt(sc, h, fk) == Kept(fields[fk], closure)
  {
    var spec := SpecOf(sc, fk);
    assert Searchable(tf, Lookup(spec, IntValue(0)));
    SameTargets(g, h, spec, RefsAt(sc, h, fk));
    hide TargetIndexExact, Covers, DroppedLink, Targets, Kept;
    if fk in survivors {
      DroppedReads(g, tf, targets, spec, closure, fk.field, g[fk.holder], h[fk.holder]);
    } else {
      assert !Hits(fields, closure, closure, fk);
      KeptAll(fields[fk], closure);
    }
  }

  // ---------------------------------------------------------------- the touched list

  /** One entry per dropped field, each carrying its holder's live row. */
  ghost predicate TouchedRows(survivors: seq<FieldKey>, h: Graph, resources: seq<Override>) {
    && |resources| == |survivors|
    && (forall i :: 0 <= i < |survivors| ==>
          survivors[i].holder in h && resources[i].key == survivors[i].holder && resources[i].row == h[survivors[i].holder])
  }

  method ListTouched(index: CommittedIndex, survivors: seq<FieldKey>) returns (resources: seq<Override>)
    requires index.RowsValid() && forall fk :: fk in survivors ==> fk.holder in index.graph
    ensures TouchedRows(survivors, index.graph, resources)
  {
    resources := [];
    var i := 0;
    while i < |survivors|
      invariant 0 <= i <= |survivors| && TouchedRows(survivors[..i], index.graph, resources)
    {
      assert survivors[i] in survivors;
      resources := resources + [Override(survivors[i].holder, index.nodes[survivors[i].holder].row)];
      i := i + 1;
    }
    assert survivors[..i] == survivors;
  }

  /** Writing the touched rows over the committed graph gives the live one. */
  lemma {:induction false} TouchedIsLive(sc: Schema, g: Graph, targets: TargetIndex, closure: set<NodeKey>, survivors: seq<FieldKey>,
                                         h: Graph, resources: seq<Override>)
    requires Dropped(sc, g, targets, closure, survivors, h) && TouchedRows(survivors, h, resources)
    ensures g + WorksOf(resources) == h && Overlaid(g, WorksOf(resources), map[]) == h
  {
    var works := WorksOf(resources);
    hide DroppedLink, LinkAt, WorksOf;
    forall k | k in works ensures k in h && works[k] == h[k] {
      WorksFrom(resources, k);
      var i :| 0 <= i < |resources| && resources[i].key == k && resources[i].row == works[k];
      assert survivors[i] in survivors;
    }
    forall k | k in h && k !in works ensures g[k] == h[k] {
      assert !HoldsSurvivor(survivors, k);
    }
    assert g + works == h;
  }

  lemma {:induction false} DropKeepsScalars(sc: Schema, g: Graph, targets: TargetIndex, closure: set<NodeKey>, survivors: seq<FieldKey>, h: Graph)
    requires Dropped(sc, g, targets, closure, survivors, h)
    ensures SameScalars(g, h)
  {
  }
}
