/** Committing what a callback left in the shadow graph: the versions are checked, the rows are written where they stand, and a
    change that reaches the relation graph has its pointers turned back to live rows. Afterwards the live rows say what
    the shadows say. */
module TowerCommits {
  import opened RelationSchema
  import opened Ordering
  import opened TowerShadows
  import opened TowerRefresh
  import opened TowerPatches

  /** Between the two rows a relation names other nodes, or a lookup field has another value. */
  predicate Relinked(plan: Plan, before: Row, after: Row) {
    || (exists f :: f in after.links && f in before.links && Ids(before.links[f]) != Ids(after.links[f]))
    || (exists f :: f in plan.keys && f in after.scalars && f in before.scalars && before.scalars[f] != after.scalars[f])
  }

  predicate ChangesGraph(plans: Plans, r: Resource) {
    r.key.typ in plans && Relinked(plans[r.key.typ], r.original, r.work)
  }

  method RelationChanged(plans: Plans, resources: seq<Resource>, ghost rows: World, ghost shadows: World, ghost live: Picture, ghost shown: Picture)
    returns (changed: bool)
    requires Shows(rows, live) && Shows(shadows, shown)
    ensures Shows(rows, live) && Shows(shadows, shown)
    ensures changed <==> exists i :: 0 <= i < |resources| && ChangesGraph(plans, resources[i])
  {
    var i := 0;
    while i < |resources|
      invariant 0 <= i <= |resources| && forall j :: 0 <= j < i ==> !ChangesGraph(plans, resources[j])
    {
      if ChangesGraph(plans, resources[i]) {
        return true;
      }
      i := i + 1;
    }
    changed := false;
  }

  // ---------------------------------------------------------------- the live rows

  /** How an attempt ends: everything written, a version moved in between, or a validator said no. */
  datatype Outcome = Settled | Conflicted | Refused

  function KeysOf(resources: seq<Resource>): (keys: seq<NodeKey>)
    ensures |keys| == |resources| && forall i :: 0 <= i < |keys| ==> keys[i] == resources[i].key
  {
    seq(|resources|, i requires 0 <= i < |resources| => resources[i].key)
  }

  /** Every resource is about another of the rows. */
  ghost predicate Listed(resources: seq<Resource>, rows: World) {
    && (forall i :: 0 <= i < |resources| ==> resources[i].key in rows)
    && (forall i, j :: 0 <= i < j < |resources| ==> resources[i].key != resources[j].key)
  }

  ghost predicate Current(resources: seq<Resource>, versions: map<NodeKey, nat>) {
    forall i :: 0 <= i < |resources| ==> resources[i].key in versions && resources[i].version == versions[resources[i].key]
  }

  /** The rows and versions once the first `n` resources are applied. */
  ghost predicate Applied(resources: seq<Resource>, n: nat, before: Picture, after: Picture, versions0: map<NodeKey, nat>, versions: map<NodeKey, nat>) {
    && n <= |resources| && after.Keys == before.Keys && versions.Keys == versions0.Keys
    && (forall i :: 0 <= i < n ==> IsApplied(resources[i], after, versions0, versions))
    && (forall k :: k in before && !HasKey(resources[..n], k) ==> after[k] == before[k])
    && (forall k :: k in versions && !HasKey(resources[..n], k) ==> versions[k] == versions0[k])
  }

  ghost predicate IsApplied(r: Resource, after: Picture, versions0: map<NodeKey, nat>, versions: map<NodeKey, nat>) {
    r.key in after && r.key in versions && r.key in versions0 && after[r.key] == r.work && versions[r.key] == versions0[r.key] + 1
  }

  /** Each written row has the scalars and the relation ids of its resource, and no other row moved. */
  ghost predicate Lands(resources: seq<Resource>, before: Picture, after: Picture, versions0: map<NodeKey, nat>, versions: map<NodeKey, nat>) {
    && after.Keys == before.Keys && versions.Keys == versions0.Keys
    && (forall i :: 0 <= i < |resources| ==> HasLanded(resources[i], after, versions0, versions))
    && (forall k :: k in before && !HasKey(resources, k) ==> after[k] == before[k])
    && (forall k :: k in versions && !HasKey(resources, k) ==> versions[k] == versions0[k])
  }

  ghost predicate HasLanded(r: Resource, after: Picture, versions0: map<NodeKey, nat>, versions: map<NodeKey, nat>) {
    && r.key in after && r.key in versions && r.key in versions0
    && RowUnchanged(r.work, after[r.key]) && versions[r.key] == versions0[r.key] + 1
  }

  /** The relations of the written rows point at live rows. */
  ghost predicate PointHome(resources: seq<Resource>, rows: World, after: Picture) {
    forall i :: 0 <= i < |resources| ==> resources[i].key in after && RowPointsIn(rows, after[resources[i].key])
  }

  /** The live rows of all tables, with their versions. */
  class LiveRows {
    var rows: World
    var versions: map<NodeKey, nat>

    constructor ()
      ensures Valid() && rows == map[]
    {
      rows, versions := map[], map[];
    }

    ghost predicate Valid()
      reads this
    {
      Keyed(rows) && versions.Keys == rows.Keys
    }

    lemma {:induction false} VersionedRows()
      requires Valid()
      ensures versions.Keys == rows.Keys
    {
    }

    /** The row changes where it stands; its version goes up by one. */
    method ApplyWrite(key: NodeKey, work: Row, ghost shadows: World, ghost live: Picture, ghost shown: Picture)
      requires Valid() && Apart(shadows, rows) && Shows(rows, live) && Shows(shadows, shown) && key in rows
      modifies this`versions, rows[key]
      ensures Valid() && rows == old(rows) && versions == old(versions)[key := old(versions)[key] + 1]
      ensures Shows(rows, live[key := work]) && Shows(shadows, shown)
    {
      hide Shows, Keyed, Apart;
      WriteShadow(rows, shadows, key, work, live, shown);
      Bump(key, shadows, live[key := work], shown);
    }

    method Bump(key: NodeKey, ghost shadows: World, ghost live: Picture, ghost shown: Picture)
      requires key in versions && Shows(rows, live) && Shows(shadows, shown)
      modifies this`versions
      ensures versions == old(versions)[key := old(versions)[key] + 1] && Shows(rows, live) && Shows(shadows, shown)
    {
      versions := versions[key := versions[key] + 1];
    }

    /** Write every row in place and bump its version. */
    method ApplyWrites(resources: seq<Resource>, ghost shadows: World, ghost live: Picture, ghost shown: Picture) returns (ghost after: Picture)
      requires Valid() && Apart(shadows, rows) && Shows(rows, live) && Shows(shadows, shown) && Listed(resources, rows)
      modifies this`versions, Objects(rows)
      ensures Valid() && rows == old(rows) && Shows(rows, after) && Shows(shadows, shown)
      ensures Applied(resources, |resources|, live, after, old(versions), versions)
    {
      hide Shows, Applied, Keyed, Apart;
      after := live;
      ghost var versions0 := versions;
      ShowsKeys(rows, live);
      NothingApplied(resources, live, versions);
      var i := 0;
      while i < |resources|
        invariant 0 <= i <= |resources| && rows == old(rows) && versions.Keys == versions0.Keys
        invariant Shows(rows, after) && Shows(shadows, shown) && Applied(resources, i, live, after, versions0, versions)
      {
        var key := resources[i].key;
        AppliedNext(resources, i, live, after, versions0, versions);
        ApplyWrite(key, resources[i].work, shadows, after, shown);
        after := after[key := resources[i].work];
        i := i + 1;
      }
    }

    /** Another transaction, or several. */
    method OthersWrite(resources: seq<Resource>, ghost shadows: World, ghost live: Picture, ghost shown: Picture) returns (ghost after: Picture)
      requires Valid() && Apart(shadows, rows) && Shows(rows, live) && Shows(shadows, shown) && Listed(resources, rows)
      modifies this`versions, Objects(rows)
      ensures Valid() && rows == old(rows) && Shows(rows, after) && Shows(shadows, shown)
      ensures after == Written(resources, live)
    {
      hide *;
      ghost var versions0 := versions;
      after := ApplyWrites(resources, shadows, live, shown);
      ListedOnce(resources, rows);
      AppliedIsWritten(resources, live, after, versions0, versions);
    }

    /** The plain-field commit: check every version, hear the index validators, then write. */
    method CommitScalars(resources: seq<Resource>, admitted: bool, ghost shadows: World, ghost live: Picture, ghost shown: Picture)
      returns (outcome: Outcome, ghost after: Picture)
      requires Valid() && Apart(shadows, rows) && Shows(rows, live) && Shows(shadows, shown) && Listed(resources, rows)
      modifies this`versions, Objects(rows)
      ensures Valid() && rows == old(rows) && Shows(rows, after) && Shows(shadows, shown)
      ensures outcome == Conflicted <==> !Current(resources, old(versions))
      ensures outcome == Refused <==> Current(resources, old(versions)) && !admitted
      ensures if outcome == Settled then Applied(resources, |resources|, live, after, old(versions), versions)
              else after == live && versions == old(versions)
    {
      hide Shows, Applied, Keyed, Apart;
      var current := VersionsMatch(resources, versions, rows, shadows, live, shown);
      if !current {
        return Conflicted, live;
      }
      if !admitted {
        return Refused, live;
      }
      after := ApplyWrites(resources, shadows, live, shown);
      outcome := Settled;
    }

    /** The graph commit: hear the graph validators, check every version, hear the index validators, then write the rows and
        turn every pointer they hold to the live row of its key. */
    method CommitRelations(resources: seq<Resource>, legal: bool, admitted: bool, ghost shadows: World, ghost live: Picture, ghost shown: Picture)
      returns (outcome: Outcome, ghost after: Picture)
      requires Valid() && Apart(shadows, rows) && Shows(rows, live) && Shows(shadows, shown) && Listed(resources, rows)
      modifies this`versions, Objects(rows)
      ensures Valid() && rows == old(rows) && Shows(rows, after) && Shows(shadows, shown)
      ensures outcome == Conflicted <==> legal && !Current(resources, old(versions))
      ensures outcome == Settled <==> legal && Current(resources, old(versions)) && admitted
      ensures if outcome == Settled then Lands(resources, live, after, old(versions), versions) && PointHome(resources, rows, after)
              else after == live && versions == old(versions)
    {
      hide Shows, Applied, Keyed, Apart, Lands, PointHome, Members, Wires;
      if !legal {
        return Refused, live;
      }
      var current := VersionsMatch(resources, versions, rows, shadows, live, shown);
      if !current {
        return Conflicted, live;
      }
      if !admitted {
        return Refused, live;
      }
      ghost var versions0 := versions;
      ghost var written := ApplyWrites(resources, shadows, live, shown);
      KeysListed(resources, rows);
      after := Rewire(KeysOf(resources), shadows, written, shown);
      RewiredLands(resources, rows, live, written, after, versions0, versions);
      outcome := Settled;
    }

    method Rewire(keys: seq<NodeKey>, ghost shadows: World, ghost live: Picture, ghost shown: Picture) returns (ghost after: Picture)
      requires Valid() && Apart(shadows, rows) && Shows(rows, live) && Shows(shadows, shown)
      requires Distinct(keys) && Members(keys) <= rows.Keys
      modifies Objects(rows) - {this}
      ensures Valid() && rows == old(rows) && versions == old(versions)
      ensures Shows(rows, after) && Shows(shadows, shown) && Wires(rows, live, after, Members(keys))
    {
      hide Shows, Keyed, Apart, Members, Wires;
      after := WireMoved(rows, shadows, keys, live, shown);
    }
  }

  method VersionsMatch(resources: seq<Resource>, versions: map<NodeKey, nat>, ghost rows: World, ghost shadows: World,
                       ghost live: Picture, ghost shown: Picture) returns (ok: bool)
    requires Shows(rows, live) && Shows(shadows, shown) && forall i :: 0 <= i < |resources| ==> resources[i].key in versions
    ensures ok <==> Current(resources, versions)
    ensures Shows(rows, live) && Shows(shadows, shown)
  {
    var i := 0;
    while i < |resources|
      invariant 0 <= i <= |resources| && forall j :: 0 <= j < i ==> resources[j].version == versions[resources[j].key]
    {
      if resources[i].version != versions[resources[i].key] {
        return false;
      }
      i := i + 1;
    }
    ok := true;
  }

  lemma {:induction false} ListedOnce(resources: seq<Resource>, rows: World)
    requires Listed(resources, rows)
    ensures forall i, j :: 0 <= i < j < |resources| ==> resources[i].key != resources[j].key
  {
  }

  lemma {:induction false} NothingApplied(resources: seq<Resource>, live: Picture, versions: map<NodeKey, nat>)
    ensures Applied(resources, 0, live, live, versions, versions)
  {
  }

  lemma {:induction false} AppliedNext(resources: seq<Resource>, i: nat, before: Picture, after: Picture, versions0: map<NodeKey, nat>, versions: map<NodeKey, nat>)
    requires i < |resources| && Applied(resources, i, before, after, versions0, versions)
    requires resources[i].key in before && resources[i].key in versions0
    requires forall a, b :: 0 <= a < b < |resources| ==> resources[a].key != resources[b].key
    ensures resources[i].key in versions && resources[i].key in after
    ensures Applied(resources, i + 1, before, after[resources[i].key := resources[i].work], versions0,
                    versions[resources[i].key := versions[resources[i].key] + 1])
  {
    hide HasKey;
    var key := resources[i].key;
    KeysNext(resources, i);
    forall j | 0 <= j < i ensures resources[j].key != key {
      assert IsApplied(resources[j], after, versions0, versions);
    }
  }

  lemma {:induction false} KeysNext(resources: seq<Resource>, i: nat)
    requires i < |resources|
    ensures forall k :: HasKey(resources[..i + 1], k) <==> HasKey(resources[..i], k) || k == resources[i].key
    ensures (forall a, b :: 0 <= a < b < |resources| ==> resources[a].key != resources[b].key) ==> !HasKey(resources[..i], resources[i].key)
  {
    var first, next := resources[..i], resources[..i + 1];
    assert next == first + [resources[i]];
    forall k ensures HasKey(next, k) <==> HasKey(first, k) || k == resources[i].key {
      if HasKey(first, k) {
        var j :| 0 <= j < i && first[j].key == k;
        assert next[j].key == k;
      }
      assert next[i].key == resources[i].key;
    }
  }

  lemma {:induction false} KeysListed(resources: seq<Resource>, rows: World)
    requires Listed(resources, rows)
    ensures Distinct(KeysOf(resources)) && Members(KeysOf(resources)) <= rows.Keys
  {
  }

  lemma {:induction false} MembersHave(resources: seq<Resource>, k: NodeKey)
    ensures k in Members(KeysOf(resources)) <==> HasKey(resources, k)
  {
    var keys := KeysOf(resources);
    if k in Members(keys) {
      var i :| 0 <= i < |keys| && keys[i] == k;
      assert resources[i].key == k;
    }
    if HasKey(resources, k) {
      var i :| 0 <= i < |resources| && resources[i].key == k;
      assert keys[i] == k;
    }
  }

  lemma {:induction false} AppliedLands(resources: seq<Resource>, before: Picture, after: Picture, versions0: map<NodeKey, nat>, versions: map<NodeKey, nat>)
    requires Applied(resources, |resources|, before, after, versions0, versions)
    ensures Lands(resources, before, after, versions0, versions)
  {
    assert resources[..|resources|] == resources;
    forall i | 0 <= i < |resources| ensures HasLanded(resources[i], after, versions0, versions) {
      assert IsApplied(resources[i], after, versions0, versions);
      SameIdsSelf(resources[i].work.links);
    }
  }

  lemma {:induction false} RewiredLands(resources: seq<Resource>, rows: World, before: Picture, written: Picture, after: Picture,
                                        versions0: map<NodeKey, nat>, versions: map<NodeKey, nat>)
    requires Keyed(rows) && Applied(resources, |resources|, before, written, versions0, versions)
    requires Wires(rows, written, after, Members(KeysOf(resources)))
    ensures Lands(resources, before, after, versions0, versions) && PointHome(resources, rows, after)
  {
    hide RewiredRow, RowUnchanged, RowPointsIn, Members;
    assert resources[..|resources|] == resources;
    forall k ensures k in Members(KeysOf(resources)) <==> HasKey(resources, k) {
      MembersHave(resources, k);
    }
    forall i | 0 <= i < |resources|
      ensures HasLanded(resources[i], after, versions0, versions) && RowPointsIn(rows, after[resources[i].key])
    {
      assert IsApplied(resources[i], written, versions0, versions) && HasKey(resources, resources[i].key);
      RewiringKeepsIds(rows, resources[i].work);
      RewiredPointsIn(rows, resources[i].work);
    }
  }

  // ---------------------------------------------------------------- other transactions

  /** The rows with these writes on top. */
  ghost function Written(resources: seq<Resource>, live: Picture): Picture {
    if resources == [] then live
    else
      var n := |resources| - 1;
      Written(resources[..n], live)[resources[n].key := resources[n].work]
  }

  lemma {:induction false} WrittenAt(resources: seq<Resource>, live: Picture)
    requires forall i, j :: 0 <= i < j < |resources| ==> resources[i].key != resources[j].key
    requires forall i :: 0 <= i < |resources| ==> resources[i].key in live
    ensures Written(resources, live).Keys == live.Keys
    ensures forall i :: 0 <= i < |resources| ==> Written(resources, live)[resources[i].key] == resources[i].work
    ensures forall k :: k in live && !HasKey(resources, k) ==> Written(resources, live)[k] == live[k]
  {
    hide HasKey;
    if resources != [] {
      var n := |resources| - 1;
      WrittenAt(resources[..n], live);
      KeysNext(resources, n);
      assert resources[..n + 1] == resources;
      forall i | 0 <= i < n ensures Written(resources, live)[resources[i].key] == resources[i].work {
        assert resources[..n][i] == resources[i];
      }
    }
  }

  lemma {:induction false} AppliedIsWritten(resources: seq<Resource>, live: Picture, mid: Picture, versions0: map<NodeKey, nat>, seen: map<NodeKey, nat>)
    requires Applied(resources, |resources|, live, mid, versions0, seen)
    requires forall i, j :: 0 <= i < j < |resources| ==> resources[i].key != resources[j].key
    ensures mid == Written(resources, live)
  {
    hide HasKey;
    assert resources[..|resources|] == resources;
    forall i | 0 <= i < |resources| ensures resources[i].key in live && mid[resources[i].key] == resources[i].work {
      assert IsApplied(resources[i], mid, versions0, seen);
    }
    WrittenAt(resources, live);
    forall k | k in live ensures mid[k] == Written(resources, live)[k] {
      if HasKey(resources, k) {
        var i := PositionOf(resources, k);
      }
    }
  }

  /** Plain-field commits of others: they share the graph lock with the write, so nothing stops them. */
  ghost predicate PlainWrites(plans: Plans, resources: seq<Resource>, live: Picture) {
    forall i :: 0 <= i < |resources| ==> IsPlain(plans, resources[i], live)
  }

  ghost predicate IsPlain(plans: Plans, r: Resource, live: Picture) {
    r.key in live && r.key.typ in plans && Fits(plans[r.key.typ], live[r.key]) && Fits(plans[r.key.typ], r.work)
    && !Relinked(plans[r.key.typ], live[r.key], r.work)
  }

  /** No row has changed but in plain fields. */
  ghost predicate PlainlyMoved(plans: Plans, before: Picture, after: Picture) {
    after.Keys == before.Keys && forall k :: k in before && k.typ in plans ==> PlainStep(plans[k.typ], before[k], after[k])
  }

  lemma {:induction false} NotRelinked(plan: Plan, before: Row, after: Row)
    requires Fits(plan, before) && Fits(plan, after) && !Relinked(plan, before, after)
    ensures PlainStep(plan, before, after)
  {
    assert forall f :: f in before.scalars <==> f in plan.fields && f !in plan.relational;
    assert forall f :: f in after.scalars <==> f in plan.fields && f !in plan.relational;
    assert forall f :: f in before.links <==> f in plan.fields && f in plan.relational;
    assert forall f :: f in after.links <==> f in plan.fields && f in plan.relational;
  }

  lemma {:induction false} WrittenPlainly(plans: Plans, resources: seq<Resource>, live: Picture)
    requires PlainWrites(plans, resources, live) && forall i, j :: 0 <= i < j < |resources| ==> resources[i].key != resources[j].key
    ensures PlainlyMoved(plans, live, Written(resources, live))
  {
    hide Fits, HasKey, Relinked, PlainStep;
    assert forall i :: 0 <= i < |resources| ==> IsPlain(plans, resources[i], live);
    WrittenAt(resources, live);
    forall k | k in live && k.typ in plans ensures PlainStep(plans[k.typ], live[k], Written(resources, live)[k]) {
      if HasKey(resources, k) {
        var i := PositionOf(resources, k);
        NotRelinked(plans[k.typ], live[k], resources[i].work);
      } else {
        PlainItself(plans[k.typ], live[k]);
      }
    }
  }

  lemma {:induction false} PlainItself(plan: Plan, row: Row)
    ensures PlainStep(plan, row, row)
  {
  }

  // ---------------------------------------------------------------- a write through the Tower

  /** No field of the node has moved. */
  ghost predicate Still(plans: Plans, live: Picture, shown: Picture, relations: Baselines, k: NodeKey) {
    k.typ in plans && k in live && k in shown && k in relations && ChangedAt(plans, live, shown, relations, k) == []
  }

  /** The shadow of some node of the branch names other nodes than its live row, or carries another lookup value. */
  ghost predicate Relinks(plans: Plans, live: Picture, shown: Picture, branch: set<NodeKey>) {
    exists k :: k in branch && k.typ in plans && k in live && k in shown && Relinked(plans[k.typ], live[k], shown[k])
  }

  /** Someone else wrote a node of the branch that the callback had changed too. */
  ghost predicate Overtaken(plans: Plans, live: Picture, shown: Picture, relations: Baselines, branch: set<NodeKey>, others: set<NodeKey>) {
    exists k :: k in branch && k in others && !Still(plans, live, shown, relations, k)
  }

  ghost predicate NothingMoved(plans: Plans, live: Picture, shown: Picture, relations: Baselines, branch: set<NodeKey>) {
    forall k :: k in branch ==> Still(plans, live, shown, relations, k)
  }

  /** The row is the shadow merged over what was read. */
  ghost predicate MergedAt(compared: Picture, read: Picture, shown: Picture, after: Picture, k: NodeKey) {
    k in compared && k in read && k in shown && k in after && Merged(compared[k], read[k], shown[k], after[k])
  }

  /** Each node of the branch that nobody wrote after its version was read is the merge of its shadow; the changed ones, and only
      those, are one version further than the others left them. */
  ghost predicate CaughtUp(plans: Plans, compared: Picture, read: Picture, mid: Picture, after: Picture, shown: Picture, relations: Baselines,
                           seen: map<NodeKey, nat>, versions: map<NodeKey, nat>, branch: set<NodeKey>, others: set<NodeKey>)
  {
    && after.Keys == compared.Keys && mid.Keys == compared.Keys && versions.Keys == seen.Keys
    && (forall k :: k in branch && k !in others ==> MergedAt(compared, read, shown, after, k))
    && (forall k :: k in versions && k in branch && !Still(plans, compared, shown, relations, k) ==> versions[k] == seen[k] + 1)
    && (forall k :: k in versions && !(k in branch && !Still(plans, compared, shown, relations, k)) ==>
          versions[k] == seen[k] && (k in compared ==> after[k] == mid[k]))
  }

  /** After a change of the graph, no changed row of the branch is left with a pointer into the shadow world. */
  ghost predicate BranchPointsHome(plans: Plans, live: Picture, shown: Picture, relations: Baselines, rows: World, after: Picture, branch: set<NodeKey>) {
    forall k :: k in branch && !Still(plans, live, shown, relations, k) ==> k in after && RowPointsIn(rows, after[k])
  }

  lemma {:induction false} PatchMerges(plans: Plans, compared: Picture, read: Picture, shown: Picture, relations: Baselines, k: NodeKey)
    requires Diffable(plans, compared, shown, relations, k) && PlainlyMoved(plans, compared, read)
    ensures Merged(compared[k], read[k], shown[k], Patched(read[k], shown[k], ChangedAt(plans, compared, shown, relations, k)))
  {
    PatchedMerges(plans[k.typ], compared[k], read[k], shown[k], relations[k], ChangedAt(plans, compared, shown, relations, k));
  }

  /** A node has a resource exactly when one of its fields moved. */
  lemma {:induction false} MovedHasResource(plans: Plans, compared: Picture, read: Picture, shown: Picture, relations: Baselines,
                                            versions0: map<NodeKey, nat>, branch: set<NodeKey>, resources: seq<Resource>, k: NodeKey)
    requires Differences(plans, compared, read, shown, relations, versions0, branch, resources)
    ensures HasKey(resources, k) <==> k in branch && !Still(plans, compared, shown, relations, k)
  {
    hide Patched, Changed, Fits, InStep;
    if HasKey(resources, k) {
      var i :| 0 <= i < |resources| && resources[i].key == k;
      assert IsPatch(plans, compared, read, shown, relations, versions0, branch, resources[i]);
    }
  }

  /** Others' plain-field commits make no difference to whether a row is relinked. */
  lemma {:induction false} RelinkedThrough(plan: Plan, compared: Row, read: Row, shadow: Row, work: Row)
    requires Fits(plan, compared) && Fits(plan, shadow) && PlainStep(plan, compared, read) && Merged(compared, read, shadow, work)
    ensures Relinked(plan, read, work) <==> Relinked(plan, compared, shadow)
  {
    hide Fits;
    FittedAlike(plan, compared, shadow);
    forall f | f in plan.keys && f in shadow.scalars && f in compared.scalars
      ensures read.scalars[f] != work.scalars[f] <==> compared.scalars[f] != shadow.scalars[f]
    {
    }
  }

  /** A node that did not move is not relinked, and its merge is what was read. */
  lemma {:induction false} StillKeepsLinks(plans: Plans, compared: Picture, read: Picture, shown: Picture, relations: Baselines, k: NodeKey)
    requires Diffable(plans, compared, shown, relations, k) && Still(plans, compared, shown, relations, k) && PlainlyMoved(plans, compared, read)
    ensures !Relinked(plans[k.typ], compared[k], shown[k]) && Merged(compared[k], read[k], shown[k], read[k])
  {
    hide Patched, Changed, Fits, InStep;
    PatchMerges(plans, compared, read, shown, relations, k);
    PatchNothing(read[k], shown[k]);
    RelinkedThrough(plans[k.typ], compared[k], read[k], shown[k], read[k]);
  }

  /** The resources reach the relation graph exactly when the shadows of the branch do. */
  lemma {:induction false} ResourcesRelink(plans: Plans, compared: Picture, read: Picture, shown: Picture, relations: Baselines,
                                           versions0: map<NodeKey, nat>, branch: set<NodeKey>, resources: seq<Resource>)
    requires Differences(plans, compared, read, shown, relations, versions0, branch, resources) && PlainlyMoved(plans, compared, read)
    ensures (exists i :: 0 <= i < |resources| && ChangesGraph(plans, resources[i])) <==> Relinks(plans, compared, shown, branch)
  {
    hide Patched, Changed, Fits, InStep, Relinked, Merged, Still, HasKey, PlainStep;
    forall i | 0 <= i < |resources|
      ensures resources[i].key in branch && Diffable(plans, compared, shown, relations, resources[i].key)
      ensures ChangesGraph(plans, resources[i]) <==> Relinked(plans[resources[i].key.typ], compared[resources[i].key], shown[resources[i].key])
    {
      var k := resources[i].key;
      assert IsPatch(plans, compared, read, shown, relations, versions0, branch, resources[i]);
      PatchMerges(plans, compared, read, shown, relations, k);
      RelinkedThrough(plans[k.typ], compared[k], read[k], shown[k], resources[i].work);
    }
    if Relinks(plans, compared, shown, branch) {
      var k :| k in branch && k.typ in plans && k in compared && k in shown && Relinked(plans[k.typ], compared[k], shown[k]);
      MovedHasResource(plans, compared, read, shown, relations, versions0, branch, resources, k);
      if Still(plans, compared, shown, relations, k) {
        StillKeepsLinks(plans, compared, read, shown, relations, k);
      } else {
        var i := PositionOf(resources, k);
        assert ChangesGraph(plans, resources[i]);
      }
    }
  }

  lemma {:induction false} PositionOf(resources: seq<Resource>, k: NodeKey) returns (i: nat)
    requires HasKey(resources, k)
    ensures i < |resources| && resources[i].key == k
  {
    i :| 0 <= i < |resources| && resources[i].key == k;
  }

  /** The resources are out of date exactly when someone else wrote a changed node after its version was read. */
  lemma {:induction false} OvertakenIsStale(plans: Plans, compared: Picture, read: Picture, mid: Picture, shown: Picture, relations: Baselines,
                                            versions0: map<NodeKey, nat>, seen: map<NodeKey, nat>, branch: set<NodeKey>,
                                            resources: seq<Resource>, between: seq<Resource>)
    requires Differences(plans, compared, read, shown, relations, versions0, branch, resources) && read.Keys == versions0.Keys
    requires Applied(between, |between|, read, mid, versions0, seen)
    ensures Current(resources, seen) <==> !Overtaken(plans, compared, shown, relations, branch, Members(KeysOf(between)))
  {
    hide Patched, Changed, Fits, InStep, Still, HasKey, Members, ChangedAt;
    assert between[..|between|] == between;
    forall k ensures (k in Members(KeysOf(between)) <==> HasKey(between, k)) && (HasKey(resources, k) <==> k in branch && !Still(plans, compared, shown, relations, k)) {
      MembersHave(between, k);
      MovedHasResource(plans, compared, read, shown, relations, versions0, branch, resources, k);
    }
    forall i | 0 <= i < |resources|
      ensures HasKey(resources, resources[i].key) && resources[i].key in seen
      ensures resources[i].version == seen[resources[i].key] <==> !HasKey(between, resources[i].key)
    {
      var k := resources[i].key;
      assert IsPatch(plans, compared, read, shown, relations, versions0, branch, resources[i]);
      HasOwnKey(resources, i);
      if HasKey(between, k) {
        var j := PositionOf(between, k);
        assert IsApplied(between[j], mid, versions0, seen);
      }
    }
    if Overtaken(plans, compared, shown, relations, branch, Members(KeysOf(between))) {
      var k :| k in branch && k in Members(KeysOf(between)) && !Still(plans, compared, shown, relations, k);
      var i := PositionOf(resources, k);
      assert resources[i].version != seen[resources[i].key];
    }
  }

  lemma {:induction false} HasOwnKey(resources: seq<Resource>, i: nat)
    requires i < |resources|
    ensures HasKey(resources, resources[i].key)
  {
  }

  /** Wiring changes addresses, so the landed row is still the merge. */
  lemma {:induction false} MergedOnwards(compared: Row, read: Row, shadow: Row, work: Row, after: Row)
    requires Merged(compared, read, shadow, work) && RowUnchanged(work, after)
    ensures Merged(compared, read, shadow, after)
  {
  }

  lemma {:induction false} LandedMerges(plans: Plans, compared: Picture, read: Picture, mid: Picture, after: Picture, shown: Picture, relations: Baselines,
                                        versions0: map<NodeKey, nat>, seen: map<NodeKey, nat>, versions: map<NodeKey, nat>,
                                        branch: set<NodeKey>, resources: seq<Resource>, k: NodeKey)
    requires Differences(plans, compared, read, shown, relations, versions0, branch, resources) && k in branch
    requires PlainlyMoved(plans, compared, read) && Lands(resources, mid, after, seen, versions)
    ensures HasKey(resources, k) ==> MergedAt(compared, read, shown, after, k) && k in seen && k in versions && versions[k] == seen[k] + 1
    ensures !HasKey(resources, k) && k in mid && mid[k] == read[k] ==> MergedAt(compared, read, shown, after, k)
  {
    hide Patched, Changed, RowUnchanged, Fits, InStep, Still, Merged, PlainStep;
    assert Diffable(plans, compared, shown, relations, k);
    if HasKey(resources, k) {
      var i := PositionOf(resources, k);
      assert IsPatch(plans, compared, read, shown, relations, versions0, branch, resources[i]) && HasLanded(resources[i], after, seen, versions);
      PatchMerges(plans, compared, read, shown, relations, k);
      MergedOnwards(compared[k], read[k], shown[k], resources[i].work, after[k]);
    } else {
      MovedHasResource(plans, compared, read, shown, relations, versions0, branch, resources, k);
      StillKeepsLinks(plans, compared, read, shown, relations, k);
    }
  }

  lemma {:induction false} LandedCatchesUp(plans: Plans, compared: Picture, read: Picture, mid: Picture, after: Picture, shown: Picture, relations: Baselines,
                                           versions0: map<NodeKey, nat>, seen: map<NodeKey, nat>, versions: map<NodeKey, nat>,
                                           branch: set<NodeKey>, resources: seq<Resource>, between: seq<Resource>)
    requires Differences(plans, compared, read, shown, relations, versions0, branch, resources) && PlainlyMoved(plans, compared, read)
    requires read.Keys == versions0.Keys && Applied(between, |between|, read, mid, versions0, seen) && Lands(resources, mid, after, seen, versions)
    ensures CaughtUp(plans, compared, read, mid, after, shown, relations, seen, versions, branch, Members(KeysOf(between)))
  {
    hide Differences, Still, MergedAt, HasKey, IsApplied, HasLanded, Members, PlainStep;
    assert between[..|between|] == between;
    forall k ensures HasKey(resources, k) <==> k in branch && !Still(plans, compared, shown, relations, k) {
      MovedHasResource(plans, compared, read, shown, relations, versions0, branch, resources, k);
    }
    forall k ensures k in Members(KeysOf(between)) <==> HasKey(between, k) {
      MembersHave(between, k);
    }
    forall k | k in branch
      ensures HasKey(resources, k) ==> MergedAt(compared, read, shown, after, k) && k in versions && versions[k] == seen[k] + 1
      ensures k !in Members(KeysOf(between)) ==> MergedAt(compared, read, shown, after, k)
    {
      LandedMerges(plans, compared, read, mid, after, shown, relations, versions0, seen, versions, branch, resources, k);
      InBranch(plans, compared, read, shown, relations, versions0, branch, resources, k);
    }
  }

  lemma {:induction false} InBranch(plans: Plans, compared: Picture, read: Picture, shown: Picture, relations: Baselines, versions: map<NodeKey, nat>,
                                    branch: set<NodeKey>, resources: seq<Resource>, k: NodeKey)
    requires Differences(plans, compared, read, shown, relations, versions, branch, resources) && k in branch
    ensures k in compared && k in read && k in shown
  {
    assert Diffable(plans, compared, shown, relations, k);
  }

  lemma {:induction false} HomeAll(plans: Plans, compared: Picture, read: Picture, shown: Picture, relations: Baselines, versions0: map<NodeKey, nat>,
                                   branch: set<NodeKey>, resources: seq<Resource>, rows: World, after: Picture)
    requires Differences(plans, compared, read, shown, relations, versions0, branch, resources) && PointHome(resources, rows, after)
    ensures BranchPointsHome(plans, compared, shown, relations, rows, after, branch)
  {
    hide Differences, Still, HasKey, RowPointsIn;
    forall k | k in branch && !Still(plans, compared, shown, relations, k) ensures k in after && RowPointsIn(rows, after[k]) {
      MovedHasResource(plans, compared, read, shown, relations, versions0, branch, resources, k);
      var i := PositionOf(resources, k);
    }
  }

  lemma {:induction false} MovedSomewhere(plans: Plans, compared: Picture, read: Picture, shown: Picture, relations: Baselines,
                                          versions0: map<NodeKey, nat>, branch: set<NodeKey>, resources: seq<Resource>)
    requires Differences(plans, compared, read, shown, relations, versions0, branch, resources)
    ensures resources == [] <==> NothingMoved(plans, compared, shown, relations, branch)
  {
    hide Differences, Still, HasKey;
    forall k ensures HasKey(resources, k) <==> k in branch && !Still(plans, compared, shown, relations, k) {
      MovedHasResource(plans, compared, read, shown, relations, versions0, branch, resources, k);
    }
    if resources != [] {
      HasOwnKey(resources, 0);
    } else {
      forall k ensures !HasKey(resources, k) {
        if HasKey(resources, k) {
          var i := PositionOf(resources, k);
        }
      }
    }
  }

  /** What others commit while an attempt runs: before the branch is compared, then before the versions are read, then before the
      commit. Up to the version reads the attempt holds the graph lock shared, which lets only plain-field commits through. */
  datatype Traffic = Traffic(before: seq<Resource>, early: seq<Resource>, between: seq<Resource>)

  /** The rows the branch is compared with. */
  ghost function Compared(t: Traffic, live: Picture): Picture {
    Written(t.before, live)
  }

  /** The rows as the versions are read. */
  ghost function Read(t: Traffic, live: Picture): Picture {
    Written(t.early, Compared(t, live))
  }

  /** The rows the commit meets. */
  ghost function Met(t: Traffic, live: Picture): Picture {
    Written(t.between, Read(t, live))
  }

  ghost predicate Passable(plans: Plans, rows: World, t: Traffic, live: Picture) {
    && Listed(t.before, rows) && Listed(t.early, rows) && Listed(t.between, rows)
    && PlainWrites(plans, t.before, live) && PlainWrites(plans, t.early, Compared(t, live))
  }

  /** One attempt to bring what a callback left in the shadows of one branch to the live rows, from the check that the replica is in
      step. The validators' answers are `legal` for the graph and `admitted` for the indexes. */
  method UpdateWithin(plans: Plans, store: LiveRows, shadows: World, relations: Baselines, branch: seq<NodeKey>,
                      t: Traffic, legal: bool, admitted: bool, ghost live: Picture, ghost shown: Picture)
    returns (outcome: Outcome, graph: bool, ghost seen: map<NodeKey, nat>, ghost after: Picture)
    requires store.Valid() && Apart(shadows, store.rows) && Shows(store.rows, live) && Shows(shadows, shown) && Distinct(branch)
    requires forall k :: k in branch ==> Diffable(plans, live, shown, relations, k)
    requires Passable(plans, store.rows, t, live)
    modifies store`versions, Objects(store.rows)
    ensures store.Valid() && store.rows == old(store.rows) && Shows(store.rows, after) && Shows(shadows, shown)
    ensures graph <==> Relinks(plans, Compared(t, live), shown, Members(branch))
    ensures outcome == Settled <==> NothingMoved(plans, Compared(t, live), shown, relations, Members(branch))
                                    || (!Overtaken(plans, Compared(t, live), shown, relations, Members(branch), Members(KeysOf(t.between)))
                                        && (graph ==> legal) && admitted)
    ensures outcome == Conflicted <==> Overtaken(plans, Compared(t, live), shown, relations, Members(branch), Members(KeysOf(t.between)))
                                       && (graph ==> legal)
    ensures if outcome == Settled
            then CaughtUp(plans, Compared(t, live), Read(t, live), Met(t, live), after, shown, relations, seen, store.versions,
                          Members(branch), Members(KeysOf(t.between)))
            else after == Met(t, live) && store.versions == seen
    ensures outcome == Settled && graph ==> BranchPointsHome(plans, Compared(t, live), shown, relations, store.rows, after, Members(branch))
  {
    hide *;
    PassableParts(plans, store.rows, t, live);
    ghost var compared := store.OthersWrite(t.before, shadows, live, shown);
    StaysDiffable(plans, t.before, live, shown, relations, branch);
    var changes := DiffBranch(plans, store.rows, shadows, relations, branch, compared, shown);
    ghost var read := store.OthersWrite(t.early, shadows, compared, shown);
    WrittenPlainly(plans, t.early, compared);
    ChangesKnown(plans, compared, shown, relations, branch, changes, store.rows, shadows, read);
    store.VersionedRows();
    var resources := MaterializeChanges(changes, store.rows, store.versions, shadows, read, shown);
    ghost var versions0 := store.versions;
    DifferencesMade(plans, compared, read, shown, relations, versions0, Members(branch), changes, resources);
    DifferenceKeys(plans, compared, read, shown, relations, versions0, Members(branch), resources, store.rows);
    graph := RelationChanged(plans, resources, store.rows, shadows, read, shown);
    ghost var mid := store.ApplyWrites(t.between, shadows, read, shown);
    seen := store.versions;
    AppliedIsWritten(t.between, read, mid, versions0, seen);
    ResourcesRelink(plans, compared, read, shown, relations, versions0, Members(branch), resources);
    OvertakenIsStale(plans, compared, read, mid, shown, relations, versions0, seen, Members(branch), resources, t.between);
    MovedSomewhere(plans, compared, read, shown, relations, versions0, Members(branch), resources);
    after := mid;
    outcome := Settled;
    if resources == [] {
      NothingLands(mid, seen);
    } else if graph {
      outcome, after := store.CommitRelations(resources, legal, admitted, shadows, mid, shown);
    } else {
      outcome, after := store.CommitScalars(resources, admitted, shadows, mid, shown);
      if outcome == Settled {
        AppliedLands(resources, mid, after, seen, store.versions);
      }
    }
    if outcome == Settled {
      LandedCatchesUp(plans, compared, read, mid, after, shown, relations, versions0, seen, store.versions, Members(branch), resources, t.between);
      if graph {
        HomeAll(plans, compared, read, shown, relations, versions0, Members(branch), resources, store.rows, after);
      }
    }
  }

  lemma {:induction false} PassableParts(plans: Plans, rows: World, t: Traffic, live: Picture)
    requires Passable(plans, rows, t, live)
    ensures Listed(t.before, rows) && Listed(t.early, rows) && Listed(t.between, rows)
    ensures (forall i, j :: 0 <= i < j < |t.before| ==> t.before[i].key != t.before[j].key)
            && (forall i, j :: 0 <= i < j < |t.early| ==> t.early[i].key != t.early[j].key)
            && (forall i, j :: 0 <= i < j < |t.between| ==> t.between[i].key != t.between[j].key)
    ensures PlainWrites(plans, t.before, live) && PlainWrites(plans, t.early, Written(t.before, live))
    ensures Compared(t, live) == Written(t.before, live) && Read(t, live) == Written(t.early, Written(t.before, live))
    ensures Met(t, live) == Written(t.between, Read(t, live))
  {
    hide IsPlain, PlainWrites, Written;
  }

  lemma {:induction false} StaysDiffable(plans: Plans, before: seq<Resource>, live: Picture, shown: Picture, relations: Baselines, branch: seq<NodeKey>)
    requires PlainWrites(plans, before, live) && forall i, j :: 0 <= i < j < |before| ==> before[i].key != before[j].key
    requires forall k :: k in branch ==> Diffable(plans, live, shown, relations, k)
    ensures forall k :: k in branch ==> Diffable(plans, Written(before, live), shown, relations, k)
  {
    hide PlainWrites, Written, Fits, PlainStep, InStep;
    WrittenPlainly(plans, before, live);
    forall k | k in branch ensures Diffable(plans, Written(before, live), shown, relations, k) {
      assert Diffable(plans, live, shown, relations, k);
      PlainFits(plans[k.typ], live[k], Written(before, live)[k], relations[k]);
    }
  }

  lemma {:induction false} PlainFits(plan: Plan, before: Row, after: Row, baseline: Links)
    requires Fits(plan, before) && InStep(before, baseline) && PlainStep(plan, before, after)
    ensures Fits(plan, after) && InStep(after, baseline)
  {
    assert forall f :: (f in before.scalars <==> f in after.scalars) && (f in before.links <==> f in after.links);
  }

  lemma {:induction false} ChangesKnown(plans: Plans, compared: Picture, shown: Picture, relations: Baselines, branch: seq<NodeKey>,
                                        changes: seq<Change>, rows: World, shadows: World, read: Picture)
    requires Diffed(plans, compared, shown, relations, Members(branch), changes) && PlainlyMoved(plans, compared, read)
    requires Shows(rows, read) && Shows(shadows, shown)
    ensures read.Keys == compared.Keys == rows.Keys
    ensures forall i :: 0 <= i < |changes| ==> changes[i].key in rows && changes[i].key in shadows
  {
    hide Changed, Fits, InStep, PlainStep;
    forall i | 0 <= i < |changes| ensures changes[i].key in rows && changes[i].key in shadows {
      assert IsChange(plans, compared, shown, relations, Members(branch), changes[i]);
    }
  }

  lemma {:induction false} NothingLands(mid: Picture, seen: map<NodeKey, nat>)
    ensures Lands([], mid, mid, seen, seen) && Current([], seen)
  {
  }

  lemma {:induction false} DifferenceKeys(plans: Plans, compared: Picture, read: Picture, shown: Picture, relations: Baselines, versions: map<NodeKey, nat>,
                                          branch: set<NodeKey>, resources: seq<Resource>, rows: World)
    requires Differences(plans, compared, read, shown, relations, versions, branch, resources) && versions.Keys == rows.Keys
    ensures Listed(resources, rows)
  {
    forall i | 0 <= i < |resources| ensures resources[i].key in rows {
      assert IsPatch(plans, compared, read, shown, relations, versions, branch, resources[i]);
    }
  }
}
