/** Writing through the shadow graph: after a callback the branch is diffed field by field, and the differences become
    transaction resources that carry the live row with the changed fields taken from the shadow. */
module TowerPatches {
  import opened RelationSchema
  import opened Ordering
  import opened TowerShadows
  import opened TowerRefresh

  /** The fields of one table: which are relations, which of those are lists, and which plain fields others look rows up by. */
  datatype Plan = Plan(fields: seq<nat>, relational: set<nat>, many: set<nat>, keys: set<nat>)

  ghost predicate Fits(plan: Plan, row: Row) {
    && Distinct(plan.fields) && plan.many <= plan.relational && plan.keys !! plan.relational
    && (forall f :: f in plan.fields <==> f in row.scalars || f in row.links)
    && (forall f :: f in plan.fields ==> (f in plan.relational <==> f in row.links) && (f in plan.relational <==> f !in row.scalars))
  }

  /** A to-one relation compares by id, a list by the very pointers it was recorded with. */
  predicate RelationEqual(plan: Plan, f: nat, targets: seq<Node?>, baseline: seq<Node?>) {
    if f in plan.many then targets == baseline else Ids(targets) == Ids(baseline)
  }

  /** The field differs from the live row, or, for a relation, from its baseline. */
  predicate Moved(plan: Plan, live: Row, shadow: Row, baseline: Links, f: nat) {
    if f in plan.relational
    then f in shadow.links && f in baseline && !RelationEqual(plan, f, shadow.links[f], baseline[f])
    else f in live.scalars && f in shadow.scalars && live.scalars[f] != shadow.scalars[f]
  }

  /** The moved fields, in the order of the table. */
  function Changed(plan: Plan, live: Row, shadow: Row, baseline: Links, fields: seq<nat>): (changed: seq<nat>)
    ensures forall f :: f in changed <==> f in fields && Moved(plan, live, shadow, baseline, f)
  {
    if fields == [] then []
    else
      var n := |fields| - 1;
      assert fields == fields[..n] + [fields[n]];
      Changed(plan, live, shadow, baseline, fields[..n]) + if Moved(plan, live, shadow, baseline, fields[n]) then [fields[n]] else []
  }

  method DiffFields(plan: Plan, live: Row, shadow: Row, baseline: Links) returns (changed: seq<nat>)
    ensures changed == Changed(plan, live, shadow, baseline, plan.fields)
  {
    hide Moved;
    changed := [];
    var i := 0;
    while i < |plan.fields|
      invariant 0 <= i <= |plan.fields| && changed == Changed(plan, live, shadow, baseline, plan.fields[..i])
    {
      assert plan.fields[..i + 1][..i] == plan.fields[..i];
      if Moved(plan, live, shadow, baseline, plan.fields[i]) {
        changed := changed + [plan.fields[i]];
      }
      i := i + 1;
    }
    assert plan.fields[..i] == plan.fields;
  }

  /** The live row with the changed fields taken from the shadow. */
  function Patched(live: Row, shadow: Row, changed: seq<nat>): Row {
    Row(map f | f in live.scalars :: if f in changed && f in shadow.scalars then shadow.scalars[f] else live.scalars[f],
        map f | f in live.links :: if f in changed && f in shadow.links then shadow.links[f] else live.links[f])
  }

  function Overwrite(work: Row, shadow: Row, f: nat): Row {
    Row(if f in work.scalars && f in shadow.scalars then work.scalars[f := shadow.scalars[f]] else work.scalars,
        if f in work.links && f in shadow.links then work.links[f := shadow.links[f]] else work.links)
  }

  lemma {:induction false} PatchScalar(live: Row, shadow: Row, changed: seq<nat>, next: nat)
    ensures Patched(live, shadow, changed + [next]).scalars == Overwrite(Patched(live, shadow, changed), shadow, next).scalars
  {
  }

  lemma {:induction false} PatchLink(live: Row, shadow: Row, changed: seq<nat>, next: nat)
    ensures Patched(live, shadow, changed + [next]).links == Overwrite(Patched(live, shadow, changed), shadow, next).links
  {
  }

  lemma {:induction false} PatchStep(live: Row, shadow: Row, changed: seq<nat>, i: nat)
    requires i < |changed|
    ensures Patched(live, shadow, changed[..i + 1]) == Overwrite(Patched(live, shadow, changed[..i]), shadow, changed[i])
  {
    hide Patched, Overwrite;
    assert changed[..i + 1] == changed[..i] + [changed[i]];
    PatchScalar(live, shadow, changed[..i], changed[i]);
    PatchLink(live, shadow, changed[..i], changed[i]);
  }

  lemma {:induction false} PatchNothing(live: Row, shadow: Row)
    ensures Patched(live, shadow, []) == live
  {
    assert Patched(live, shadow, []).scalars == live.scalars && Patched(live, shadow, []).links == live.links;
  }

  /** Copy the changed fields over a copy of the live row, one by one. */
  method PatchRow(live: Row, shadow: Row, changed: seq<nat>) returns (work: Row)
    ensures work == Patched(live, shadow, changed)
  {
    hide Patched, Overwrite;
    work := live;
    var i := 0;
    PatchNothing(live, shadow);
    assert changed[..0] == [];
    while i < |changed|
      invariant 0 <= i <= |changed| && work == Patched(live, shadow, changed[..i])
    {
      PatchStep(live, shadow, changed, i);
      work := Overwrite(work, shadow, changed[i]);
      i := i + 1;
    }
    assert changed[..i] == changed;
  }

  /** The live row and the shadow agree wherever the baseline says nothing moved. */
  ghost predicate InStep(live: Row, baseline: Links) {
    SameIds(live.links, baseline)
  }

  /** Patching makes the row what the shadow is: equal scalars, equal relation ids. */
  lemma {:induction false} PatchedIsShadow(plan: Plan, live: Row, shadow: Row, baseline: Links, changed: seq<nat>)
    requires Fits(plan, live) && Fits(plan, shadow) && InStep(live, baseline)
    requires forall f :: f in changed <==> f in plan.fields && Moved(plan, live, shadow, baseline, f)
    ensures RowUnchanged(shadow, Patched(live, shadow, changed))
    ensures changed == [] <==> live.scalars == shadow.scalars && forall f :: f in shadow.links ==> RelationEqual(plan, f, shadow.links[f], baseline[f])
  {
    var work := Patched(live, shadow, changed);
    forall f | f in shadow.links ensures f in live.links && f in baseline && Ids(shadow.links[f]) == Ids(work.links[f]) {
      assert f in plan.fields && f in plan.relational;
      assert Ids(live.links[f]) == Ids(baseline[f]);
      assert f !in changed ==> RelationEqual(plan, f, shadow.links[f], baseline[f]);
    }
    forall f | f in shadow.scalars ensures f in live.scalars && shadow.scalars[f] == work.scalars[f] {
      assert f in plan.fields && f !in plan.relational;
    }
    assert work.scalars == shadow.scalars;
    if changed == [] {
      assert forall f :: f in live.scalars ==> f in plan.fields && f !in plan.relational && !Moved(plan, live, shadow, baseline, f);
      assert live.scalars == shadow.scalars;
    } else {
      assert changed[0] in changed;
    }
  }

  /** A plain-field commit of someone else: no relation names other nodes afterwards, no lookup field has another value. */
  ghost predicate PlainStep(plan: Plan, before: Row, after: Row) {
    && before.scalars.Keys == after.scalars.Keys && SameIds(before.links, after.links)
    && forall f :: f in plan.keys && f in before.scalars ==> before.scalars[f] == after.scalars[f]
  }

  /** Field by field the shadow where it had moved away from the row it was compared with, and the live row where it had not;
      relations name what the shadow's name. */
  ghost predicate Merged(compared: Row, live: Row, shadow: Row, after: Row) {
    && SameIds(shadow.links, after.links) && after.scalars.Keys == shadow.scalars.Keys
    && forall f :: f in shadow.scalars && f in compared.scalars && f in live.scalars ==>
         after.scalars[f] == if shadow.scalars[f] != compared.scalars[f] then shadow.scalars[f] else live.scalars[f]
  }

  lemma {:induction false} PatchedLink(plan: Plan, compared: Row, live: Row, shadow: Row, baseline: Links, changed: seq<nat>, f: nat)
    requires Fits(plan, compared) && Fits(plan, shadow) && InStep(compared, baseline) && SameIds(compared.links, live.links)
    requires (f in changed <==> f in plan.fields && Moved(plan, compared, shadow, baseline, f)) && f in shadow.links
    ensures f in live.links && Ids(shadow.links[f]) == Ids(Patched(live, shadow, changed).links[f])
  {
    assert f in plan.fields && f in plan.relational;
    assert Ids(live.links[f]) == Ids(compared.links[f]) == Ids(baseline[f]);
  }

  lemma {:induction false} PatchedScalar(plan: Plan, compared: Row, live: Row, shadow: Row, baseline: Links, changed: seq<nat>, f: nat)
    requires Fits(plan, compared) && Fits(plan, shadow) && compared.scalars.Keys == live.scalars.Keys
    requires (f in changed <==> f in plan.fields && Moved(plan, compared, shadow, baseline, f)) && f in shadow.scalars
    ensures f in compared.scalars && f in live.scalars
    ensures Patched(live, shadow, changed).scalars[f] == if shadow.scalars[f] != compared.scalars[f] then shadow.scalars[f] else live.scalars[f]
  {
    assert f in plan.fields && f !in plan.relational;
  }

  /** The fields are compared with one state of the row and copied over a later one. */
  lemma {:induction false} PatchedMerges(plan: Plan, compared: Row, live: Row, shadow: Row, baseline: Links, changed: seq<nat>)
    requires Fits(plan, compared) && Fits(plan, shadow) && InStep(compared, baseline) && PlainStep(plan, compared, live)
    requires forall f :: f in changed <==> f in plan.fields && Moved(plan, compared, shadow, baseline, f)
    ensures Merged(compared, live, shadow, Patched(live, shadow, changed))
  {
    hide Moved, Fits;
    var work := Patched(live, shadow, changed);
    FittedAlike(plan, compared, shadow);
    assert work.scalars.Keys == live.scalars.Keys && work.links.Keys == live.links.Keys;
    forall f | f in shadow.links ensures f in live.links && Ids(shadow.links[f]) == Ids(work.links[f]) {
      PatchedLink(plan, compared, live, shadow, baseline, changed, f);
    }
    forall f | f in shadow.scalars
      ensures f in compared.scalars && f in live.scalars
      ensures work.scalars[f] == if shadow.scalars[f] != compared.scalars[f] then shadow.scalars[f] else live.scalars[f]
    {
      PatchedScalar(plan, compared, live, shadow, baseline, changed, f);
    }
    hide Patched;
  }

  lemma {:induction false} FittedAlike(plan: Plan, a: Row, b: Row)
    requires Fits(plan, a) && Fits(plan, b)
    ensures a.scalars.Keys == b.scalars.Keys && a.links.Keys == b.links.Keys
  {
    assert forall f :: f in a.scalars <==> f in b.scalars;
    assert forall f :: f in a.links <==> f in b.links;
  }

  /** With nobody else's commit in between, the merge is the shadow. */
  lemma {:induction false} MergedAlone(row: Row, shadow: Row, after: Row)
    requires Merged(row, row, shadow, after) && row.scalars.Keys == shadow.scalars.Keys
    ensures RowUnchanged(shadow, after)
  {
    assert shadow.scalars == after.scalars;
  }

  /** The plain-field path writes the whole patched row, relation lists included. With all relation ids unchanged it leaves
      the live pointers alone exactly when every list still is its baseline or holds the live pointers themselves; a list
      rebuilt from any other objects of the same ids goes to the live row with its foreign pointers. */
  lemma {:induction false} PatchKeepsPointers(plan: Plan, live: Row, shadow: Row, baseline: Links, changed: seq<nat>)
    requires Fits(plan, live) && Fits(plan, shadow) && InStep(live, baseline) && SameIds(live.links, shadow.links)
    requires forall f :: f in changed <==> f in plan.fields && Moved(plan, live, shadow, baseline, f)
    ensures Patched(live, shadow, changed).links == live.links
            <==> forall f :: f in plan.many && f in live.links ==> shadow.links[f] == baseline[f] || shadow.links[f] == live.links[f]
  {
    hide Fits, Moved;
    var work := Patched(live, shadow, changed);
    assert work.links.Keys == live.links.Keys;
    forall f | f in live.links ensures work.links[f] == live.links[f] <==> (f in plan.many ==> shadow.links[f] == baseline[f] || shadow.links[f] == live.links[f]) {
      FieldPointers(plan, live, shadow, baseline, changed, f);
    }
  }

  lemma {:induction false} FieldPointers(plan: Plan, live: Row, shadow: Row, baseline: Links, changed: seq<nat>, f: nat)
    requires Fits(plan, live) && Fits(plan, shadow) && InStep(live, baseline) && SameIds(live.links, shadow.links) && f in live.links
    requires f in changed <==> f in plan.fields && Moved(plan, live, shadow, baseline, f)
    ensures Patched(live, shadow, changed).links[f] == live.links[f] <==>
            (f in plan.many ==> shadow.links[f] == baseline[f] || shadow.links[f] == live.links[f])
  {
    assert f in plan.fields && f in plan.relational;
    assert Ids(live.links[f]) == Ids(shadow.links[f]) == Ids(baseline[f]);
    assert Patched(live, shadow, changed).links[f] == if f in changed then shadow.links[f] else live.links[f];
    hide Patched, Fits;
  }

  /** A list rebuilt from another object of the same id changes no id, yet its pointer is what the live row ends up with. */
  lemma {:induction false} RebuiltListEscapes(live: Node, shadow: Node, rebuilt: Node)
    requires live.key == shadow.key == rebuilt.key && shadow != rebuilt && live != rebuilt
    ensures var plan := Plan([0], {0}, {0}, {});
            var before, after := Row(map[], map[0 := [live]]), Row(map[], map[0 := [rebuilt]]);
            && SameIds(before.links, after.links)
            && Patched(before, after, Changed(plan, before, after, map[0 := [shadow]], plan.fields)).links[0] == [rebuilt]
  {
    var plan := Plan([0], {0}, {0}, {});
    var before, after := Row(map[], map[0 := [live]]), Row(map[], map[0 := [rebuilt]]);
    assert [rebuilt][0] != [shadow][0];
    assert Moved(plan, before, after, map[0 := [shadow]], 0);
    assert 0 in Changed(plan, before, after, map[0 := [shadow]], plan.fields);
  }

  // ---------------------------------------------------------------- a branch

  datatype Resource = Resource(key: NodeKey, version: nat, original: Row, work: Row)

  type Plans = map<string, Plan>

  /** Everything a diff of one node needs is there. */
  ghost predicate Diffable(plans: Plans, live: Picture, shown: Picture, relations: Baselines, k: NodeKey) {
    && k.typ in plans && k in live && k in shown && k in relations
    && Fits(plans[k.typ], live[k]) && Fits(plans[k.typ], shown[k]) && InStep(live[k], relations[k])
  }

  ghost function ChangedAt(plans: Plans, live: Picture, shown: Picture, relations: Baselines, k: NodeKey): seq<nat>
    requires k.typ in plans && k in live && k in shown && k in relations
  {
    Changed(plans[k.typ], live[k], shown[k], relations[k], plans[k.typ].fields)
  }

  /** A node of the branch and its moved fields. */
  datatype Change = Change(key: NodeKey, fields: seq<nat>)

  /** One change per node of the branch that has moved. */
  ghost predicate Diffed(plans: Plans, live: Picture, shown: Picture, relations: Baselines, branch: set<NodeKey>, changes: seq<Change>) {
    && (forall k :: k in branch ==> Diffable(plans, live, shown, relations, k))
    && (forall i, j :: 0 <= i < j < |changes| ==> changes[i].key != changes[j].key)
    && (forall i :: 0 <= i < |changes| ==> IsChange(plans, live, shown, relations, branch, changes[i]))
    && (forall k :: k in branch && ChangedAt(plans, live, shown, relations, k) != [] ==> HasChange(changes, k))
  }

  ghost predicate HasChange(changes: seq<Change>, k: NodeKey) {
    exists i :: 0 <= i < |changes| && changes[i].key == k
  }

  ghost predicate IsChange(plans: Plans, live: Picture, shown: Picture, relations: Baselines, branch: set<NodeKey>, c: Change) {
    && c.key in branch && Diffable(plans, live, shown, relations, c.key)
    && c.fields == ChangedAt(plans, live, shown, relations, c.key) && c.fields != []
  }

  /** Compare every node of the branch with its live row, as it is now. */
  method DiffBranch(plans: Plans, rows: World, shadows: World, relations: Baselines, branch: seq<NodeKey>,
                    ghost live: Picture, ghost shown: Picture) returns (changes: seq<Change>)
    requires Shows(rows, live) && Shows(shadows, shown) && Distinct(branch)
    requires forall k :: k in branch ==> Diffable(plans, live, shown, relations, k)
    ensures Diffed(plans, live, shown, relations, Members(branch), changes)
    ensures Shows(rows, live) && Shows(shadows, shown)
  {
    hide Diffable, Shows, Diffed, Changed, Members;
    changes := [];
    var i := 0;
    NothingDiffers(plans, live, shown, relations);
    assert branch[..0] == [];
    while i < |branch|
      invariant 0 <= i <= |branch| && Diffed(plans, live, shown, relations, Members(branch[..i]), changes)
      invariant Shows(rows, live) && Shows(shadows, shown)
    {
      var key := branch[i];
      TakeMember(branch, i);
      DiffableParts(plans, live, shown, relations, key);
      ShowsKeys(rows, live);
      ShowsKeys(shadows, shown);
      var changed := DiffNode(plans[key.typ], rows, shadows, relations[key], key, live, shown);
      DiffersNext(plans, live, shown, relations, Members(branch[..i]), changes, Change(key, changed));
      if changed != [] {
        changes := changes + [Change(key, changed)];
      }
      i := i + 1;
    }
    assert branch[..i] == branch;
  }

  lemma {:induction false} NothingDiffers(plans: Plans, live: Picture, shown: Picture, relations: Baselines)
    ensures Diffed(plans, live, shown, relations, Members([]), [])
  {
  }

  lemma {:induction false} DiffableParts(plans: Plans, live: Picture, shown: Picture, relations: Baselines, k: NodeKey)
    requires Diffable(plans, live, shown, relations, k)
    ensures k.typ in plans && k in live && k in shown && k in relations
    ensures Fits(plans[k.typ], live[k]) && Fits(plans[k.typ], shown[k]) && InStep(live[k], relations[k])
  {
  }

  /** Compare one node with its shadow. */
  method DiffNode(plan: Plan, rows: World, shadows: World, baseline: Links, key: NodeKey, ghost live: Picture, ghost shown: Picture)
    returns (changed: seq<nat>)
    requires Shows(rows, live) && Shows(shadows, shown) && key in rows && key in shadows
    ensures Shows(rows, live) && Shows(shadows, shown)
    ensures changed == Changed(plan, live[key], shown[key], baseline, plan.fields)
  {
    hide Changed;
    changed := DiffFields(plan, rows[key].row, shadows[key].row, baseline);
  }

  lemma {:induction false} DiffersNext(plans: Plans, live: Picture, shown: Picture, relations: Baselines, branch: set<NodeKey>,
                                       changes: seq<Change>, c: Change)
    requires Diffed(plans, live, shown, relations, branch, changes) && c.key !in branch
    requires Diffable(plans, live, shown, relations, c.key) && c.fields == ChangedAt(plans, live, shown, relations, c.key)
    ensures Diffed(plans, live, shown, relations, branch + {c.key}, if c.fields == [] then changes else changes + [c])
  {
    hide Diffable, Changed;
    DiffableParts(plans, live, shown, relations, c.key);
    var grown := changes + [c];
    forall k | HasChange(changes, k) ensures HasChange(grown, k) {
      var i :| 0 <= i < |changes| && changes[i].key == k;
      assert grown[i].key == k;
    }
    assert grown[|changes|].key == c.key && HasChange(grown, c.key);
    forall i | 0 <= i < |changes| ensures IsChange(plans, live, shown, relations, branch + {c.key}, changes[i]) {
      assert IsChange(plans, live, shown, relations, branch, changes[i]);
    }
  }

  // ---------------------------------------------------------------- the resources of a branch

  /** One resource per changed node: its version and its row as they are read now, and that row with the fields that had moved
      when the branch was compared. */
  ghost predicate Differences(plans: Plans, compared: Picture, live: Picture, shown: Picture, relations: Baselines, versions: map<NodeKey, nat>,
                              branch: set<NodeKey>, resources: seq<Resource>)
  {
    && (forall k :: k in branch ==> Diffable(plans, compared, shown, relations, k) && k in live && k in versions)
    && (forall i, j :: 0 <= i < j < |resources| ==> resources[i].key != resources[j].key)
    && (forall i :: 0 <= i < |resources| ==> IsPatch(plans, compared, live, shown, relations, versions, branch, resources[i]))
    && (forall k :: k in branch && ChangedAt(plans, compared, shown, relations, k) != [] ==> HasKey(resources, k))
  }

  ghost predicate HasKey(resources: seq<Resource>, k: NodeKey) {
    exists i :: 0 <= i < |resources| && resources[i].key == k
  }

  ghost predicate IsPatch(plans: Plans, compared: Picture, live: Picture, shown: Picture, relations: Baselines, versions: map<NodeKey, nat>,
                          branch: set<NodeKey>, r: Resource)
  {
    && r.key in branch && Diffable(plans, compared, shown, relations, r.key) && r.key in live && r.key in versions
    && r.version == versions[r.key] && r.original == live[r.key] && ChangedAt(plans, compared, shown, relations, r.key) != []
    && r.work == Patched(live[r.key], shown[r.key], ChangedAt(plans, compared, shown, relations, r.key))
  }

  ghost predicate ResourceOf(c: Change, live: Picture, shown: Picture, versions: map<NodeKey, nat>, r: Resource) {
    && c.key in live && c.key in shown && c.key in versions
    && r == Resource(c.key, versions[c.key], live[c.key], Patched(live[c.key], shown[c.key], c.fields))
  }

  /** Read the version and the row of every changed node, and copy the changed fields over. */
  method MaterializeChanges(changes: seq<Change>, rows: World, versions: map<NodeKey, nat>, shadows: World, ghost live: Picture, ghost shown: Picture)
    returns (resources: seq<Resource>)
    requires Shows(rows, live) && Shows(shadows, shown) && versions.Keys == rows.Keys
    requires forall i :: 0 <= i < |changes| ==> changes[i].key in rows && changes[i].key in shadows
    ensures Shows(rows, live) && Shows(shadows, shown) && |resources| == |changes|
    ensures forall i :: 0 <= i < |changes| ==> ResourceOf(changes[i], live, shown, versions, resources[i])
  {
    hide Patched;
    resources := [];
    var i := 0;
    while i < |changes|
      invariant 0 <= i <= |changes| && |resources| == i && Shows(rows, live) && Shows(shadows, shown)
      invariant forall j :: 0 <= j < i ==> ResourceOf(changes[j], live, shown, versions, resources[j])
    {
      var key, row := changes[i].key, rows[changes[i].key].row;
      var work := PatchRow(row, shadows[key].row, changes[i].fields);
      resources := resources + [Resource(key, versions[key], row, work)];
      i := i + 1;
    }
  }

  lemma {:induction false} DifferencesMade(plans: Plans, compared: Picture, live: Picture, shown: Picture, relations: Baselines,
                                           versions: map<NodeKey, nat>, branch: set<NodeKey>, changes: seq<Change>, resources: seq<Resource>)
    requires Diffed(plans, compared, shown, relations, branch, changes) && live.Keys == compared.Keys == versions.Keys
    requires |resources| == |changes| && forall i :: 0 <= i < |changes| ==> ResourceOf(changes[i], live, shown, versions, resources[i])
    ensures Differences(plans, compared, live, shown, relations, versions, branch, resources)
  {
    hide Patched, Changed, Fits, InStep;
    forall i | 0 <= i < |resources| ensures IsPatch(plans, compared, live, shown, relations, versions, branch, resources[i]) {
      assert IsChange(plans, compared, shown, relations, branch, changes[i]) && ResourceOf(changes[i], live, shown, versions, resources[i]);
    }
    forall k | HasChange(changes, k) ensures HasKey(resources, k) {
      var i :| 0 <= i < |changes| && changes[i].key == k;
      assert ResourceOf(changes[i], live, shown, versions, resources[i]) && resources[i].key == k;
    }
    forall i, j | 0 <= i < j < |resources| ensures resources[i].key != resources[j].key {
      assert ResourceOf(changes[i], live, shown, versions, resources[i]) && ResourceOf(changes[j], live, shown, versions, resources[j]);
    }
  }
}
