/** The loop around a write through the Tower: every attempt copies the live rows anew, runs the callback on the copies and tries to
    commit; only a change of the graph that was overtaken is tried again. */
module TowerRetries {
  import opened RelationSchema
  import opened Ordering
  import opened TowerShadows
  import opened TowerRefresh
  import opened TowerWorlds
  import opened TowerPatches
  import opened TowerCommits

  /** What the callback wants a row of the branch to be, given all the shadows it can look at. */
  type Callback = (Picture, NodeKey) -> Row

  /** What one attempt meets: the branch as it is then, what others commit before it does, and the validators' answers. */
  datatype Weather = Weather(branch: seq<NodeKey>, traffic: Traffic, legal: bool, admitted: bool)

  /** A struct keeps its fields whatever is assigned to them. */
  function Edited(row: Row, wish: Row): Row {
    Row(map f | f in row.scalars :: if f in wish.scalars then wish.scalars[f] else row.scalars[f],
        map f | f in row.links :: if f in wish.links then wish.links[f] else row.links[f])
  }

  /** The shadows after the callback. */
  ghost function Wanted(edit: Callback, copy: Picture, branch: set<NodeKey>): Picture {
    map k | k in copy :: if k in branch then Edited(copy[k], edit(copy, k)) else copy[k]
  }

  ghost function LinksOf(copy: Picture): Baselines {
    map k | k in copy :: copy[k].links
  }

  /** Every row has the fields of its table. */
  ghost predicate Typed(plans: Plans, live: Picture) {
    forall k :: k in live ==> k.typ in plans && Fits(plans[k.typ], live[k])
  }

  ghost predicate Fair(plans: Plans, rows: World, w: Weather, live: Picture) {
    && Distinct(w.branch) && (forall k :: k in w.branch ==> k in rows) && Passable(plans, rows, w.traffic, live)
    && FitWrites(plans, w.traffic.between)
  }

  ghost predicate FitWrites(plans: Plans, resources: seq<Resource>) {
    forall i :: 0 <= i < |resources| ==> resources[i].key.typ in plans && Fits(plans[resources[i].key.typ], resources[i].work)
  }

  /** The rows that the first `n` attempts leave behind if none of them wrote anything itself. */
  ghost function Base(weathers: seq<Weather>, n: nat, live: Picture): Picture
    requires n <= |weathers|
  {
    if n == 0 then live else Met(weathers[n - 1].traffic, Base(weathers, n - 1, live))
  }

  // ---------------------------------------------------------------- one attempt

  /** How an attempt that started from `base` with shadows `copy` ends. */
  ghost predicate Concluded(plans: Plans, edit: Callback, base: Picture, copy: Picture, w: Weather, outcome: Outcome) {
    var branch, others := Members(w.branch), Members(KeysOf(w.traffic.between));
    var shown, compared := Wanted(edit, copy, branch), Compared(w.traffic, base);
    var relinks, overtaken := Relinks(plans, compared, shown, branch), Overtaken(plans, compared, shown, LinksOf(copy), branch, others);
    && (outcome == Settled <==> NothingMoved(plans, compared, shown, LinksOf(copy), branch) || (!overtaken && (relinks ==> w.legal) && w.admitted))
    && (outcome == Conflicted <==> overtaken && (relinks ==> w.legal))
  }

  /** The callback made a row of the branch name other rows than the one it was compared with, or changed a value others look it up by. */
  ghost predicate Regraphs(plans: Plans, edit: Callback, base: Picture, copy: Picture, w: Weather) {
    exists k :: k in w.branch && k in copy && k in Compared(w.traffic, base) && k.typ in plans
                && Relinked(plans[k.typ], Compared(w.traffic, base)[k], Edited(copy[k], edit(copy, k)))
  }

  lemma {:induction false} LostRaceRegraphs(plans: Plans, edit: Callback, base: Picture, copy: Picture, w: Weather)
    requires LostRace(plans, edit, base, copy, w)
    ensures Regraphs(plans, edit, base, copy, w)
  {
    hide Relinked, Edited, Compared, Overtaken;
  }

  /** The attempt changed the graph and was overtaken: the one ending that is tried again. */
  ghost predicate LostRace(plans: Plans, edit: Callback, base: Picture, copy: Picture, w: Weather) {
    var branch, others := Members(w.branch), Members(KeysOf(w.traffic.between));
    var shown, compared := Wanted(edit, copy, branch), Compared(w.traffic, base);
    Relinks(plans, compared, shown, branch) && Overtaken(plans, compared, shown, LinksOf(copy), branch, others) && w.legal
  }

  /** What it leaves: the others' writes, and on top of them, if it settled, what the callback made of the copies. */
  ghost predicate Left(plans: Plans, edit: Callback, base: Picture, copy: Picture, w: Weather, outcome: Outcome, rows: World,
                       seen: map<NodeKey, nat>, versions: map<NodeKey, nat>, after: Picture)
  {
    var branch, others := Members(w.branch), Members(KeysOf(w.traffic.between));
    var shown, compared := Wanted(edit, copy, branch), Compared(w.traffic, base);
    if outcome == Settled
    then CaughtUp(plans, compared, Read(w.traffic, base), Met(w.traffic, base), after, shown, LinksOf(copy), seen, versions, branch, others)
         && (Relinks(plans, compared, shown, branch) ==> BranchPointsHome(plans, compared, shown, LinksOf(copy), rows, after, branch))
    else after == Met(w.traffic, base) && versions == seen
  }

  lemma {:induction false} WrittenTyped(plans: Plans, resources: seq<Resource>, rows: World, live: Picture)
    requires Typed(plans, live) && Listed(resources, rows) && FitWrites(plans, resources) && live.Keys == rows.Keys
    ensures Typed(plans, Written(resources, live)) && Written(resources, live).Keys == live.Keys
  {
    hide Fits, HasKey;
    WrittenAt(resources, live);
    forall k | k in live ensures k.typ in plans && Fits(plans[k.typ], Written(resources, live)[k]) {
      if HasKey(resources, k) {
        var i := PositionOf(resources, k);
      }
    }
  }

  lemma {:induction false} PlainFit(plans: Plans, resources: seq<Resource>, live: Picture)
    requires PlainWrites(plans, resources, live)
    ensures FitWrites(plans, resources)
  {
    hide Fits, Relinked;
    assert forall i :: 0 <= i < |resources| ==> IsPlain(plans, resources[i], live);
  }

  lemma {:induction false} MetTyped(plans: Plans, rows: World, w: Weather, live: Picture)
    requires Typed(plans, live) && Fair(plans, rows, w, live) && live.Keys == rows.Keys
    ensures Typed(plans, Met(w.traffic, live)) && Met(w.traffic, live).Keys == live.Keys
  {
    hide *;
    FairParts(plans, rows, w, live);
    PassableParts(plans, rows, w.traffic, live);
    var t := w.traffic;
    PlainFit(plans, t.before, live);
    WrittenTyped(plans, t.before, rows, live);
    PlainFit(plans, t.early, Written(t.before, live));
    WrittenTyped(plans, t.early, rows, Written(t.before, live));
    WrittenTyped(plans, t.between, rows, Read(t, live));
  }

  /** A replica of the present rows, from nothing. */
  method CopyRows(rows: World, ghost live: Picture) returns (replica: Replica, ghost copy: Picture)
    requires Keyed(rows) && Shows(rows, live)
    ensures fresh(replica) && replica.Valid() && fresh(Objects(replica.nodes)) && replica.nodes.Keys == rows.Keys
    ensures Apart(replica.nodes, rows) && Shows(rows, live) && Shows(replica.nodes, copy)
    ensures Isomorphic(live, copy) && replica.relations == LinksOf(copy)
  {
    hide Shows, Refreshed, Recorded, Rewalked, Isomorphic, Keyed, WalkCovers, SameLive, Stale, LinksOf;
    replica := EmptyReplica(rows, live);
    var ok: bool;
    ok, copy := replica.Refresh(rows, map[], live);
    ShowsKeys(replica.nodes, copy);
    ReplicaParts(replica);
    RefreshIsomorphic(live, map[], copy, replica.nodes);
    AllRecorded(replica.relations, Stale(live, map[]), copy);
  }

  method EmptyReplica(ghost rows: World, ghost live: Picture) returns (replica: Replica)
    requires Shows(rows, live)
    ensures fresh(replica) && replica.Valid() && replica.nodes == map[] && replica.walk == []
    ensures replica.relations == map[] && Shows(rows, live)
    ensures Shows(replica.nodes, map[]) && Apart(rows, replica.nodes) && SameLive(replica.walk, rows)
  {
    replica := new Replica();
  }

  lemma {:induction false} AllRecorded(relations: Baselines, stale: set<NodeKey>, copy: Picture)
    requires Recorded(map[], relations, stale, copy)
    ensures relations == LinksOf(copy)
  {
  }

  /** Run the callback on the shadows of the branch. It sees all of them as they were. */
  method RunCallback(edit: Callback, shadows: World, branch: seq<NodeKey>, ghost rows: World, ghost copy: Picture, ghost live: Picture)
    requires Keyed(shadows) && Apart(rows, shadows) && Shows(shadows, copy) && Shows(rows, live) && Distinct(branch)
    requires forall k :: k in branch ==> k in shadows
    modifies Objects(shadows)
    ensures Shows(shadows, Wanted(edit, copy, Members(branch))) && Shows(rows, live)
  {
    hide Keyed, Apart, Wanted, Members, Edited, Shows;
    var seen := Look(shadows, copy, rows, live);
    ghost var now := copy;
    NothingWanted(edit, copy, branch);
    ShowsKeys(shadows, copy);
    var i := 0;
    while i < |branch|
      invariant 0 <= i <= |branch| && Shows(shadows, now) && Shows(rows, live) && now == Wanted(edit, copy, Members(branch[..i]))
    {
      WantedNext(edit, copy, branch, i);
      var row := Edited(seen[branch[i]], edit(seen, branch[i]));
      WriteShadow(shadows, rows, branch[i], row, now, live);
      now := now[branch[i] := row];
      i := i + 1;
    }
    assert branch[..i] == branch;
  }

  /** All the shadows at this moment. */
  method Look(shadows: World, ghost copy: Picture, ghost rows: World, ghost live: Picture) returns (seen: Picture)
    requires Shows(shadows, copy) && Shows(rows, live)
    ensures seen == copy && Shows(shadows, copy) && Shows(rows, live)
  {
    seen := map k | k in shadows :: shadows[k].row;
  }

  lemma {:induction false} NothingWanted(edit: Callback, copy: Picture, branch: seq<NodeKey>)
    ensures Wanted(edit, copy, Members(branch[..0])) == copy
  {
  }

  lemma {:induction false} WantedNext(edit: Callback, copy: Picture, branch: seq<NodeKey>, i: nat)
    requires i < |branch| && branch[i] in copy
    ensures Wanted(edit, copy, Members(branch[..i + 1]))
            == Wanted(edit, copy, Members(branch[..i]))[branch[i] := Edited(copy[branch[i]], edit(copy, branch[i]))]
  {
    hide Edited;
    assert branch[..i + 1] == branch[..i] + [branch[i]];
  }

  lemma {:induction false} EditedFits(plan: Plan, live: Row, copy: Row, wish: Row)
    requires Fits(plan, live) && RowUnchanged(live, copy)
    ensures Fits(plan, copy) && Fits(plan, Edited(copy, wish)) && InStep(live, copy.links)
  {
    assert copy.scalars.Keys == live.scalars.Keys && copy.links.Keys == live.links.Keys;
    assert Edited(copy, wish).scalars.Keys == live.scalars.Keys && Edited(copy, wish).links.Keys == live.links.Keys;
  }

  /** Whatever the callback did, the branch can be diffed. */
  lemma {:induction false} WantedDiffable(plans: Plans, edit: Callback, live: Picture, copy: Picture, branch: set<NodeKey>)
    requires Typed(plans, live) && Isomorphic(live, copy) && branch <= live.Keys
    ensures forall k :: k in branch ==> Diffable(plans, live, Wanted(edit, copy, branch), LinksOf(copy), k)
  {
    hide Fits, RowUnchanged, InStep, Edited;
    forall k | k in branch ensures Diffable(plans, live, Wanted(edit, copy, branch), LinksOf(copy), k) {
      EditedFits(plans[k.typ], live[k], copy[k], edit(copy, k));
    }
  }

  /** One attempt from a fresh copy. */
  method Attempt(plans: Plans, store: LiveRows, edit: Callback, w: Weather, ghost live: Picture)
    returns (outcome: Outcome, graph: bool, ghost copy: Picture, ghost seen: map<NodeKey, nat>, ghost after: Picture)
    requires store.Valid() && Shows(store.rows, live) && Typed(plans, live) && Fair(plans, store.rows, w, live)
    modifies store`versions, Objects(store.rows)
    ensures store.Valid() && store.rows == old(store.rows) && Shows(store.rows, after)
    ensures Isomorphic(live, copy) && Concluded(plans, edit, live, copy, w, outcome)
    ensures graph && outcome == Conflicted <==> LostRace(plans, edit, live, copy, w)
    ensures Left(plans, edit, live, copy, w, outcome, store.rows, seen, store.versions, after)
  {
    hide *;
    StoreParts(store);
    ShowsKeys(store.rows, live);
    FairParts(plans, store.rows, w, live);
    var replica: Replica;
    replica, copy := CopyRows(store.rows, live);
    ReplicaParts(replica);
    ApartAgain(replica.nodes, store.rows);
    RunCallback(edit, replica.nodes, w.branch, store.rows, copy, live);
    ghost var shown := Wanted(edit, copy, Members(w.branch));
    MembersAre(w.branch);
    WantedDiffable(plans, edit, live, copy, Members(w.branch));
    outcome, graph, seen, after :=
      UpdateWithin(plans, store, replica.nodes, replica.relations, w.branch, w.traffic, w.legal, w.admitted, live, shown);
    AttemptEnds(plans, edit, live, copy, w, outcome, graph);
    AttemptLeft(plans, edit, live, copy, w, outcome, store.rows, seen, store.versions, after);
  }

  lemma {:induction false} StoreParts(store: LiveRows)
    requires store.Valid()
    ensures Keyed(store.rows) && store.versions.Keys == store.rows.Keys
  {
  }

  lemma {:induction false} FairParts(plans: Plans, rows: World, w: Weather, live: Picture)
    requires Fair(plans, rows, w, live)
    ensures Distinct(w.branch) && (forall k :: k in w.branch ==> k in rows) && Passable(plans, rows, w.traffic, live)
    ensures FitWrites(plans, w.traffic.between)
  {
    hide Passable, FitWrites;
  }

  lemma {:induction false} ApartAgain(a: World, b: World)
    requires Apart(a, b)
    ensures Apart(b, a)
  {
  }

  lemma {:induction false} MembersAre(keys: seq<NodeKey>)
    ensures forall k :: k in Members(keys) <==> k in keys
  {
  }

  lemma {:induction false} AttemptEnds(plans: Plans, edit: Callback, live: Picture, copy: Picture, w: Weather, outcome: Outcome, graph: bool)
    requires var branch, others := Members(w.branch), Members(KeysOf(w.traffic.between));
             var shown, compared := Wanted(edit, copy, branch), Compared(w.traffic, live);
             && (graph <==> Relinks(plans, compared, shown, branch))
             && (outcome == Settled <==> NothingMoved(plans, compared, shown, LinksOf(copy), branch)
                                         || (!Overtaken(plans, compared, shown, LinksOf(copy), branch, others) && (graph ==> w.legal) && w.admitted))
             && (outcome == Conflicted <==> Overtaken(plans, compared, shown, LinksOf(copy), branch, others) && (graph ==> w.legal))
    ensures Concluded(plans, edit, live, copy, w, outcome) && (graph && outcome == Conflicted <==> LostRace(plans, edit, live, copy, w))
  {
    hide NothingMoved, Overtaken, Relinks, Wanted, LinksOf, Members, Compared;
  }

  lemma {:induction false} AttemptLeft(plans: Plans, edit: Callback, live: Picture, copy: Picture, w: Weather, outcome: Outcome, rows: World,
                                       seen: map<NodeKey, nat>, versions: map<NodeKey, nat>, after: Picture)
    requires var branch, others := Members(w.branch), Members(KeysOf(w.traffic.between));
             var shown, compared := Wanted(edit, copy, branch), Compared(w.traffic, live);
             && (if outcome == Settled
                 then CaughtUp(plans, compared, Read(w.traffic, live), Met(w.traffic, live), after, shown, LinksOf(copy), seen, versions, branch, others)
                 else after == Met(w.traffic, live) && versions == seen)
             && (outcome == Settled && Relinks(plans, compared, shown, branch) ==>
                   BranchPointsHome(plans, compared, shown, LinksOf(copy), rows, after, branch))
    ensures Left(plans, edit, live, copy, w, outcome, rows, seen, versions, after)
  {
    hide CaughtUp, BranchPointsHome, Relinks, Wanted, LinksOf, Members, Compared, Read, Met;
  }

  // ---------------------------------------------------------------- the loop

  /** Try until an attempt ends otherwise than overtaken with a changed graph, or the weather runs out. No overtaken attempt leaves
      a trace, so the last one worked from exactly what the others had written by then. */
  method UpdateRetrying(plans: Plans, store: LiveRows, edit: Callback, weathers: seq<Weather>, ghost live: Picture)
    returns (outcome: Outcome, ghost copies: seq<Picture>, ghost seen: map<NodeKey, nat>, ghost after: Picture)
    requires store.Valid() && Shows(store.rows, live) && Typed(plans, live)
    requires forall i :: 0 <= i < |weathers| ==> Fair(plans, store.rows, weathers[i], Base(weathers, i, live))
    modifies store`versions, Objects(store.rows)
    ensures store.Valid() && store.rows == old(store.rows) && Shows(store.rows, after) && |copies| <= |weathers|
    ensures forall i :: 0 <= i < |copies| ==> Isomorphic(Base(weathers, i, live), copies[i])
    ensures forall i :: 0 <= i < |copies| - 1 ==> LostRace(plans, edit, Base(weathers, i, live), copies[i], weathers[i])
    ensures forall i :: 0 <= i < |copies| - 1 ==> Regraphs(plans, edit, Base(weathers, i, live), copies[i], weathers[i])
    ensures copies == [] ==> weathers == [] && outcome == Conflicted && after == live
    ensures copies != [] ==>
              var n := |copies| - 1;
              && Concluded(plans, edit, Base(weathers, n, live), copies[n], weathers[n], outcome)
              && Left(plans, edit, Base(weathers, n, live), copies[n], weathers[n], outcome, store.rows, seen, store.versions, after)
              && (LostRace(plans, edit, Base(weathers, n, live), copies[n], weathers[n]) ==> |copies| == |weathers| && outcome == Conflicted)
  {
    hide *;
    outcome, copies, seen, after := Conflicted, [], store.versions, live;
    ghost var base := live;
    BaseStart(weathers, live);
    var i := 0;
    while i < |weathers|
      invariant 0 <= i <= |weathers| && |copies| == i && (i == 0 ==> outcome == Conflicted && after == live)
      invariant store.Valid() && store.rows == old(store.rows) && Shows(store.rows, after)
      invariant after == base == Base(weathers, i, live) && Typed(plans, base)
      invariant forall j :: 0 <= j < i ==> Isomorphic(Base(weathers, j, live), copies[j])
      invariant forall j :: 0 <= j < i ==> LostRace(plans, edit, Base(weathers, j, live), copies[j], weathers[j])
      invariant forall j :: 0 <= j < i ==> Regraphs(plans, edit, Base(weathers, j, live), copies[j], weathers[j])
      invariant i > 0 ==> outcome == Conflicted
                          && Concluded(plans, edit, Base(weathers, i - 1, live), copies[i - 1], weathers[i - 1], outcome)
                          && Left(plans, edit, Base(weathers, i - 1, live), copies[i - 1], weathers[i - 1], outcome, store.rows, seen, store.versions, after)
    {
      var graph: bool;
      ghost var copy;
      ShowsKeys(store.rows, base);
      outcome, graph, copy, seen, after := Attempt(plans, store, edit, weathers[i], base);
      copies := copies + [copy];
      if !(graph && outcome == Conflicted) {
        return;
      }
      LostRaceRegraphs(plans, edit, base, copy, weathers[i]);
      NothingLeft(plans, edit, base, copy, weathers[i], outcome, store.rows, seen, store.versions, after);
      MetTyped(plans, store.rows, weathers[i], base);
      BaseNext(weathers, i, live);
      base := after;
      i := i + 1;
    }
  }

  lemma {:induction false} BaseStart(weathers: seq<Weather>, live: Picture)
    ensures Base(weathers, 0, live) == live
  {
  }

  lemma {:induction false} BaseNext(weathers: seq<Weather>, i: nat, live: Picture)
    requires i < |weathers|
    ensures Base(weathers, i + 1, live) == Met(weathers[i].traffic, Base(weathers, i, live))
  {
  }

  lemma {:induction false} NothingLeft(plans: Plans, edit: Callback, base: Picture, copy: Picture, w: Weather, outcome: Outcome, rows: World,
                                       seen: map<NodeKey, nat>, versions: map<NodeKey, nat>, after: Picture)
    requires Left(plans, edit, base, copy, w, outcome, rows, seen, versions, after) && outcome != Settled
    ensures after == Met(w.traffic, base)
  {
  }

  /** A settled write is the callback's work merged over the rows as everyone else had left them when the versions of its last attempt were
      read; what others wrote later, and what lies outside the branch, stays theirs. A row nobody wrote meanwhile is what the
      callback made of it. */
  lemma {:induction false} SettledFromLatest(plans: Plans, edit: Callback, base: Picture, copy: Picture, w: Weather, rows: World,
                                             seen: map<NodeKey, nat>, versions: map<NodeKey, nat>, after: Picture, k: NodeKey)
    requires Left(plans, edit, base, copy, w, Settled, rows, seen, versions, after) && Concluded(plans, edit, base, copy, w, Settled)
    requires Typed(plans, base) && Fair(plans, rows, w, base) && base.Keys == rows.Keys
    requires Isomorphic(base, copy) && k in base && k in versions
    ensures RowUnchanged(base[k], copy[k]) && k in after && k in Met(w.traffic, base) && k in Read(w.traffic, base) && k in Compared(w.traffic, base)
    ensures k in w.branch && k !in KeysOf(w.traffic.between) ==>
              Merged(Compared(w.traffic, base)[k], Read(w.traffic, base)[k], Edited(copy[k], edit(copy, k)), after[k])
    ensures k in w.branch && k !in KeysOf(w.traffic.before) && k !in KeysOf(w.traffic.early) && k !in KeysOf(w.traffic.between) ==>
              RowUnchanged(Edited(copy[k], edit(copy, k)), after[k])
    ensures k !in w.branch || k in KeysOf(w.traffic.between) ==> after[k] == Met(w.traffic, base)[k]
  {
    hide RowUnchanged, Still, Edited, Relinks, BranchPointsHome, Compared, Read, Met, Merged, Typed, Fair, Fits;
    MembersAre(w.branch);
    MembersAre(KeysOf(w.traffic.between));
    Unwritten(plans, rows, w, base, k);
    if k in w.branch && k !in KeysOf(w.traffic.between) {
      assert MergedAt(Compared(w.traffic, base), Read(w.traffic, base), Wanted(edit, copy, Members(w.branch)), after, k);
      TypedAt(plans, base, k);
      EditedFits(plans[k.typ], base[k], copy[k], edit(copy, k));
      EditedFields(plans[k.typ], base[k], Edited(copy[k], edit(copy, k)));
      if k !in KeysOf(w.traffic.before) && k !in KeysOf(w.traffic.early) {
        MergedAlone(base[k], Edited(copy[k], edit(copy, k)), after[k]);
      }
    }
  }

  lemma {:induction false} TypedAt(plans: Plans, live: Picture, k: NodeKey)
    requires Typed(plans, live) && k in live
    ensures k.typ in plans && Fits(plans[k.typ], live[k])
  {
  }

  lemma {:induction false} EditedFields(plan: Plan, a: Row, b: Row)
    requires Fits(plan, a) && Fits(plan, b)
    ensures a.scalars.Keys == b.scalars.Keys
  {
    FittedAlike(plan, a, b);
  }

  /** A row nobody wrote is read as it was. */
  lemma {:induction false} Unwritten(plans: Plans, rows: World, w: Weather, base: Picture, k: NodeKey)
    requires Fair(plans, rows, w, base) && base.Keys == rows.Keys && k in base
    ensures k in Compared(w.traffic, base) && k in Read(w.traffic, base) && k in Met(w.traffic, base)
    ensures k !in KeysOf(w.traffic.before) ==> Compared(w.traffic, base)[k] == base[k]
    ensures k !in KeysOf(w.traffic.early) ==> Read(w.traffic, base)[k] == Compared(w.traffic, base)[k]
  {
    hide *;
    var t := w.traffic;
    FairParts(plans, rows, w, base);
    PassableParts(plans, rows, t, base);
    WrittenElse(t.before, rows, base, k);
    WrittenElse(t.early, rows, Written(t.before, base), k);
    WrittenElse(t.between, rows, Read(t, base), k);
  }

  lemma {:induction false} WrittenElse(resources: seq<Resource>, rows: World, live: Picture, k: NodeKey)
    requires Listed(resources, rows) && live.Keys == rows.Keys && k in live
    ensures Written(resources, live).Keys == live.Keys && (k !in KeysOf(resources) ==> Written(resources, live)[k] == live[k])
  {
    WrittenAt(resources, live);
    if HasKey(resources, k) {
      var i := PositionOf(resources, k);
      assert KeysOf(resources)[i] == k;
    }
  }
}
