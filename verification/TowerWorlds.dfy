/** What a refreshed shadow graph is worth: isomorphic to the committed graph, wired into its own world exactly when no
    untouched shadow was waiting for a new node, and then the very graph a rebuild would have made. */
module TowerWorlds {
  import opened RelationSchema
  import opened TowerShadows
  import opened TowerRefresh

  /** Every relation that names a node of the shadow world points at its shadow. */
  ghost predicate Wired(nodes: World, p: Picture) {
    forall k :: k in p ==> RowPointsIn(nodes, p[k])
  }

  /** Same node set, same scalars, same relation ids. */
  ghost predicate Isomorphic(live: Picture, shown: Picture) {
    shown.Keys == live.Keys && forall k :: k in live ==> RowUnchanged(live[k], shown[k])
  }

  /** This reference names a node that is committed but had no shadow. */
  predicate NewTarget(known: set<NodeKey>, live: Picture, target: Node?) {
    target != null && target.key in live && target.key !in known
  }

  ghost predicate FieldAwaits(known: set<NodeKey>, live: Picture, targets: seq<Node?>) {
    exists i :: 0 <= i < |targets| && NewTarget(known, live, targets[i])
  }

  ghost predicate RowAwaits(known: set<NodeKey>, live: Picture, row: Row) {
    exists f :: f in row.links && FieldAwaits(known, live, row.links[f])
  }

  /** A shadow that no copy will touch points, by id, at a node that is only now getting its shadow. */
  ghost predicate Awaits(live: Picture, before: Picture) {
    exists k :: k in before && k in live && k !in Stale(live, before) && RowAwaits(before.Keys, live, before[k])
  }

  /** No old pointer happens to be one of the new shadows. */
  ghost predicate Unseen(before: Picture, nodes0: World, nodes: World) {
    forall k, t :: k in before && t in nodes && t !in nodes0 ==> RowMisses(before[k], nodes[t])
  }

  ghost predicate RowMisses(row: Row, node: Node) {
    forall f, i :: f in row.links && 0 <= i < |row.links[f]| ==> row.links[f][i] != node
  }

  /** Live relations only name committed nodes. */
  ghost predicate NothingDangles(live: Picture) {
    forall k, f, i {:trigger live[k].links[f][i]} :: k in live && f in live[k].links && 0 <= i < |live[k].links[f]| ==> var target := live[k].links[f][i];
      target == null || target.key in live
  }

  lemma {:induction false} RefreshIsomorphic(live: Picture, before: Picture, after: Picture, nodes: World)
    requires Refreshed(live, before, after, nodes) && Keyed(nodes)
    ensures Isomorphic(live, after)
  {
    hide RewiredRow, RowUnchanged;
    forall k | k in live ensures RowUnchanged(live[k], after[k]) {
      if k !in before || k in Stale(live, before) {
        RewiringKeepsIds(nodes, live[k]);
      }
    }
  }

  /** An untouched field stays wired in the grown world exactly when it was not waiting for a new node. */
  lemma {:induction false} UntouchedField(nodes0: World, nodes: World, live: Picture, before: Picture, row: Row, f: nat)
    requires Keyed(nodes) && Stays(nodes0, nodes) && nodes.Keys == live.Keys && before.Keys == nodes0.Keys && f in row.links
    requires PointsIn(nodes0, row.links[f]) && forall t :: t in nodes && t !in nodes0 ==> RowMisses(row, nodes[t])
    ensures PointsIn(nodes, row.links[f]) <==> !FieldAwaits(before.Keys, live, row.links[f])
  {
    var targets := row.links[f];
    forall i | 0 <= i < |targets| ensures Rewired(nodes, targets[i]) == targets[i] <==> !NewTarget(before.Keys, live, targets[i]) {
      assert Rewired(nodes0, targets[i]) == targets[i];
      if targets[i] != null && targets[i].key in nodes && targets[i].key !in nodes0 {
        assert RowMisses(row, nodes[targets[i].key]);
      }
    }
  }

  lemma {:induction false} UntouchedRow(nodes0: World, nodes: World, live: Picture, before: Picture, row: Row)
    requires Keyed(nodes) && Stays(nodes0, nodes) && nodes.Keys == live.Keys && before.Keys == nodes0.Keys
    requires RowPointsIn(nodes0, row) && forall t :: t in nodes && t !in nodes0 ==> RowMisses(row, nodes[t])
    ensures RowPointsIn(nodes, row) <==> !RowAwaits(before.Keys, live, row)
  {
    hide PointsIn, FieldAwaits, RowMisses;
    forall f | f in row.links ensures PointsIn(nodes, row.links[f]) <==> !FieldAwaits(before.Keys, live, row.links[f]) {
      UntouchedField(nodes0, nodes, live, before, row, f);
    }
  }

  /** After a refresh the shadow graph is closed exactly when no untouched shadow was waiting for a new node. */
  lemma {:induction false} RefreshWired(nodes0: World, nodes: World, live: Picture, before: Picture, after: Picture)
    requires Refreshed(live, before, after, nodes) && Keyed(nodes) && Stays(nodes0, nodes)
    requires nodes.Keys == live.Keys && before.Keys == nodes0.Keys && Wired(nodes0, before) && Unseen(before, nodes0, nodes)
    requires before.Keys <= live.Keys
    ensures Wired(nodes, after) <==> !Awaits(live, before)
  {
    hide RewiredRow, RowPointsIn, RowAwaits, RowMisses, Stale;
    forall k | k in live ensures RowPointsIn(nodes, after[k]) <==>
                                 !(k in before && k !in Stale(live, before) && RowAwaits(before.Keys, live, before[k])) {
      if k in before && k !in Stale(live, before) {
        UntouchedRow(nodes0, nodes, live, before, before[k]);
      } else {
        RewiredPointsIn(nodes, live[k]);
      }
    }
  }

  /** In a closed world, with no dangling relation, the ids of a row determine its pointers. */
  lemma {:induction false} WiredRowDetermined(nodes: World, live: Row, shown: Row)
    requires Keyed(nodes) && RowUnchanged(live, shown) && RowPointsIn(nodes, shown)
    requires forall f, i :: f in live.links && 0 <= i < |live.links[f]| ==> live.links[f][i] == null || live.links[f][i].key in nodes
    ensures shown == RewiredRow(nodes, live)
  {
    forall f | f in live.links ensures shown.links[f] == RewiredAll(nodes, live.links[f]) {
      forall i | 0 <= i < |live.links[f]| ensures shown.links[f][i] == Rewired(nodes, live.links[f][i]) {
        assert Ids(live.links[f])[i] == Ids(shown.links[f])[i];
        assert Rewired(nodes, shown.links[f][i]) == shown.links[f][i];
      }
    }
    assert shown.links == RewiredRow(nodes, live).links;
  }

  /** Then the refresh, though it copied only what differed, has made exactly the graph a rebuild over these shadows makes. */
  lemma {:induction false} RefreshIsRebuild(nodes: World, live: Picture, before: Picture, after: Picture, k: NodeKey)
    requires Refreshed(live, before, after, nodes) && Keyed(nodes) && nodes.Keys == live.Keys
    requires Wired(nodes, after) && NothingDangles(live) && k in live
    ensures after[k] == RewiredRow(nodes, live[k])
  {
    RefreshIsomorphic(live, before, after, nodes);
    WiredRowDetermined(nodes, live[k], after[k]);
    hide Refreshed, RewiredRow;
  }

  /** The baseline of every shadow is what the shadow holds. */
  ghost predicate Baselined(relations: Baselines, p: Picture) {
    relations.Keys == p.Keys && forall k :: k in p ==> relations[k] == p[k].links
  }

  /** Baselines re-recorded for the moved nodes only are right for all of them. */
  lemma {:induction false} RefreshBaselined(live: Picture, before: Picture, after: Picture, nodes: World, was: Baselines, now: Baselines)
    requires Refreshed(live, before, after, nodes) && Recorded(was, now, Stale(live, before), after) && Baselined(was, before)
    ensures Baselined(now, after)
  {
    hide Stale, RewiredRow;
  }

  /** Every walk entry has recorded pointers with the ids the row shows. */
  ghost predicate WalkShows(walk: seq<WalkEntry>, p: Picture) {
    forall i :: 0 <= i < |walk| ==> walk[i].key in p && SameIds(walk[i].words, p[walk[i].key].links)
  }

  lemma {:induction false} SameIdsChain(a: Links, b: Links, c: Links)
    requires SameIds(a, b) && SameIds(c, b)
    ensures SameIds(a, c)
  {
  }

  /** Re-recording moved and new nodes only leaves every entry of the walk with the ids its live row holds, and its shadow too. */
  lemma {:induction false} RefreshWalked(live: World, live0: Picture, before: Picture, after: Picture, nodes: World,
                                         was: seq<WalkEntry>, now: seq<WalkEntry>)
    requires Refreshed(live0, before, after, nodes) && Keyed(nodes) && Rewalked(was, now, Stale(live0, before), live, live0)
    requires WalkShows(was, before)
    ensures WalkShows(now, live0) && WalkShows(now, after)
  {
    RefreshIsomorphic(live0, before, after, nodes);
    hide Refreshed, SameIds, Stale, RewiredRow;
    forall i | 0 <= i < |now| ensures now[i].key in live0 && SameIds(now[i].words, live0[now[i].key].links)
      ensures now[i].key in after && SameIds(now[i].words, after[now[i].key].links)
    {
      var k := now[i].key;
      if i < |was| && k !in Stale(live0, before) {
        UnchangedWords(live0, before, k);
        SameIdsChain(now[i].words, before[k].links, live0[k].links);
      } else {
        SameIdsSelf(live0[k].links);
      }
      SameIdsSelf(after[k].links);
      SameIdsChain(after[k].links, after[k].links, live0[k].links);
      SameIdsChain(now[i].words, live0[k].links, after[k].links);
    }
  }

  lemma {:induction false} UnchangedWords(live: Picture, before: Picture, k: NodeKey)
    requires k in live && k in before && k !in Stale(live, before)
    ensures SameIds(live[k].links, before[k].links)
  {
  }

  /** Forgetting nodes keeps the rest of the world closed. */
  lemma {:induction false} ForgettingKeepsWired(nodes: World, p: Picture, closure: set<NodeKey>)
    requires Wired(nodes, p)
    ensures Wired(nodes - closure, p - closure)
  {
    forall k, f | k in p - closure && f in p[k].links ensures PointsIn(nodes - closure, p[k].links[f]) {
      assert RowPointsIn(nodes, p[k]) && PointsIn(nodes, p[k].links[f]);
    }
  }

  /** Refresh a wired replica and say how its world comes out. */
  method RefreshClosed(replica: Replica, live: World, ghost before: Picture, ghost live0: Picture) returns (ok: bool, ghost after: Picture)
    requires replica.Valid() && Apart(live, replica.nodes) && Shows(replica.nodes, before) && Shows(live, live0)
    requires Wired(replica.nodes, before)
    modifies replica, Objects(replica.nodes)
    ensures ok <==> |live| >= |old(replica.nodes)| && SameLive(old(replica.walk), live)
    ensures Shows(live, live0) && Shows(replica.nodes, after)
    ensures ok ==> replica.Valid() && Apart(live, replica.nodes) && Stays(old(replica.nodes), replica.nodes)
    ensures ok ==> Isomorphic(live0, after) && (Wired(replica.nodes, after) <==> !Awaits(live0, before))
    ensures ok && WalkShows(old(replica.walk), before) ==> WalkShows(replica.walk, live0) && WalkShows(replica.walk, after)
  {
    hide Apart, Shows, Stays, Wired, Isomorphic, Awaits, Refreshed, Rewalked, SameLive, Unseen, Stale, WalkShows;
    ghost var nodes0, walk0 := replica.nodes, replica.walk;
    KnownCommitted(replica, live);
    ShowsKeys(replica.nodes, before);
    ShowsKeys(live, live0);
    ok, after := RefreshUnseen(replica, live, before, live0);
    if ok {
      RefreshIsomorphic(live0, before, after, replica.nodes);
      RefreshWired(nodes0, replica.nodes, live0, before, after);
      if WalkShows(walk0, before) {
        RefreshWalked(live, live0, before, after, replica.nodes, walk0, replica.walk);
      }
    }
  }

  /** A new shadow is a new object, so nothing recorded earlier points at it. */
  method RefreshUnseen(replica: Replica, live: World, ghost before: Picture, ghost live0: Picture) returns (ok: bool, ghost after: Picture)
    requires replica.Valid() && Apart(live, replica.nodes) && Shows(replica.nodes, before) && Shows(live, live0)
    modifies replica, Objects(replica.nodes)
    ensures ok <==> |live| >= |old(replica.nodes)| && SameLive(old(replica.walk), live)
    ensures Shows(live, live0) && Shows(replica.nodes, after)
    ensures ok ==> replica.Valid() && Apart(live, replica.nodes) && replica.nodes.Keys == live.Keys && Stays(old(replica.nodes), replica.nodes)
    ensures ok ==> Refreshed(live0, before, after, replica.nodes) && Unseen(before, old(replica.nodes), replica.nodes)
    ensures ok ==> Rewalked(old(replica.walk), replica.walk, Stale(live0, before), live, live0)
  {
    hide Apart, Shows, Stays, Refreshed, Recorded, Rewalked, SameLive, Keyed, WalkCovers, Stale;
    ok, after := replica.Refresh(live, before, live0);
  }

  lemma {:induction false} KnownCommitted(replica: Replica, live: World)
    requires replica.Valid()
    ensures SameLive(replica.walk, live) ==> replica.nodes.Keys <= live.Keys
  {
    if SameLive(replica.walk, live) {
      WalkedIn(replica.walk, replica.nodes, live);
    }
  }

  // ---------------------------------------------------------------- a late target

  /** A shadow that already names, by id, a node that is committed only now is equal by id, so it is not copied, so it is not wired. */
  lemma {:induction false} LateTargetAwaits(target: Node, holder: NodeKey)
    requires holder != target.key
    ensures var row := Row(map[], map[0 := [target]]);
            Awaits(map[holder := row, target.key := Row(map[], map[])], map[holder := row])
  {
    var row := Row(map[], map[0 := [target]]);
    var live, before := map[holder := row, target.key := Row(map[], map[])], map[holder := row];
    SameIdsSelf(row.links);
    assert holder !in Stale(live, before);
    assert row.links[0][0] == target && NewTarget(before.Keys, live, row.links[0][0]);
    assert FieldAwaits(before.Keys, live, row.links[0]) && RowAwaits(before.Keys, live, row);
  }

  lemma {:induction false} FirstPicture(nodes: World, target: Node, holder: NodeKey, after: Picture)
    requires holder != target.key && nodes.Keys == {holder}
    requires Refreshed(map[holder := Row(map[], map[0 := [target]])], map[], after, nodes)
    ensures after == map[holder := Row(map[], map[0 := [target]])] && Wired(nodes, after)
  {
    var row := Row(map[], map[0 := [target]]);
    assert RewiredRow(nodes, row).links[0] == [target];
    assert RewiredRow(nodes, row).links == row.links;
    assert RewiredRow(nodes, row) == row;
    assert after.Keys == {holder} && after[holder] == row;
  }

  lemma {:induction false} StillMissed(nodes: World, target: Node, holder: NodeKey, after: Picture)
    requires holder != target.key
    requires var row := Row(map[], map[0 := [target]]);
             Refreshed(map[holder := row, target.key := Row(map[], map[])], map[holder := row], after, nodes)
    ensures holder in after && after[holder] == Row(map[], map[0 := [target]])
  {
    SameIdsSelf(map[0 := [target]]);
  }

  lemma {:induction false} LiveGrows(walk: seq<WalkEntry>, early: World, late: World)
    requires SameLive(walk, early) && Stays(early, late)
    ensures SameLive(walk, late)
  {
  }

  /** The live world before and after the target is committed. */
  lemma {:induction false} LiveWorlds(holder: Node, target: Node, row: Row)
    requires holder.key != target.key && holder.row == row && target.row == Row(map[], map[])
    ensures var early, late := map[holder.key := holder], map[holder.key := holder, target.key := target];
            && Shows(early, map[holder.key := row]) && Shows(late, map[holder.key := row, target.key := target.row])
            && Stays(early, late) && early.Keys == {holder.key} && late.Keys == {holder.key, target.key} && |early| == 1 && |late| == 2
  {
    assert |{holder.key}| == 1 && |{holder.key, target.key}| == 2;
  }

  lemma {:induction false} NoWorld(live: World)
    ensures Apart(live, map[]) && Shows(map[], map[]) && SameLive([], live) && Objects(map[]) == {}
  {
  }

  lemma {:induction false} Missed(nodes: World, late: World, target: Node, holderKey: NodeKey, second: Picture)
    requires Keyed(nodes) && Apart(late, nodes) && nodes.Keys == {holderKey, target.key} && holderKey != target.key
    requires late.Keys == nodes.Keys && late[target.key] == target
    requires Shows(nodes, second) && second[holderKey] == Row(map[], map[0 := [target]]) && !Wired(nodes, second)
    ensures nodes[target.key] != target && nodes[holderKey].row.links == map[0 := [target]]
    ensures !Wired(nodes, map[holderKey := nodes[holderKey].row, target.key := nodes[target.key].row])
  {
    hide Wired;
    assert second == map[holderKey := nodes[holderKey].row, target.key := nodes[target.key].row];
  }

  /** The holder alone is live; its pointer names a node that is not. */
  method RefreshHolder(holder: Node, ghost target: Node, ghost row: Row) returns (replica: Replica)
    requires holder.key != target.key && holder.row == row == Row(map[], map[0 := [target]]) && target.row == Row(map[], map[])
    ensures fresh(replica) && replica.Valid() && replica.index == map[holder.key := holder]
    ensures replica.nodes.Keys == {holder.key} && fresh(Objects(replica.nodes))
    ensures Shows(replica.nodes, map[holder.key := row]) && Wired(replica.nodes, map[holder.key := row])
    ensures holder.row == row && target.row == Row(map[], map[])
  {
    hide *;
    replica := new Replica();
    ghost var late: World := map[holder.key := holder, target.key := target];
    var early: World := map[holder.key := holder];
    LiveWorlds(holder, target, row);
    NoWorld(early);
    var ok: bool;
    ghost var first;
    ok, first := replica.Refresh(early, map[], map[holder.key := row]);
    FirstPicture(replica.nodes, target, holder.key, first);
    AllFresh(replica);
  }

  twostate lemma {:induction false} AllFresh(new replica: Replica)
    requires forall k :: k in replica.nodes ==> fresh(replica.nodes[k])
    ensures fresh(Objects(replica.nodes))
  {
  }

  /** Two refreshes, the target committed between them: the replica is refreshed, the target has a shadow, and the holder's shadow
      still points at the live target. */
  method LateTargetIsMissed(holderKey: NodeKey, targetKey: NodeKey) returns (replica: Replica, target: Node)
    requires holderKey != targetKey
    ensures replica.Valid() && target.key == targetKey
    ensures replica.nodes.Keys == {holderKey, targetKey} && replica.nodes[targetKey] != target
    ensures replica.nodes[holderKey].row.links == map[0 := [target]]
    ensures !Wired(replica.nodes, map[holderKey := replica.nodes[holderKey].row, targetKey := replica.nodes[targetKey].row])
  {
    hide *;
    target := new Node(targetKey, Row(map[], map[]));
    var holder := new Node(holderKey, Row(map[], map[0 := [target]]));
    ghost var row := holder.row;
    replica := RefreshHolder(holder, target, row);
    RefreshAgain(replica, holder, target, row);
  }

  /** Now the target is live too. */
  method RefreshAgain(replica: Replica, holder: Node, target: Node, ghost row: Row)
    requires holder.key != target.key && holder.row == row == Row(map[], map[0 := [target]]) && target.row == Row(map[], map[])
    requires replica.Valid() && replica.index == map[holder.key := holder] && replica.nodes.Keys == {holder.key}
    requires holder !in Objects(replica.nodes) && target !in Objects(replica.nodes)
    requires Shows(replica.nodes, map[holder.key := row]) && Wired(replica.nodes, map[holder.key := row])
    modifies replica, Objects(replica.nodes)
    ensures replica.Valid() && replica.nodes.Keys == {holder.key, target.key} && replica.nodes[target.key] != target
    ensures replica.nodes[holder.key].row.links == map[0 := [target]]
    ensures !Wired(replica.nodes, map[holder.key := replica.nodes[holder.key].row, target.key := replica.nodes[target.key].row])
  {
    hide *;
    var late: World := map[holder.key := holder, target.key := target];
    ghost var nodes0, early: World := replica.nodes, map[holder.key := holder];
    ghost var first, none := map[holder.key := row], Row(map[], map[]);
    LiveWorlds(holder, target, row);
    WalksOn(replica, late);
    LateApart(replica, holder, target, late);
    var again: bool;
    ghost var second;
    again, second := RefreshUnseen(replica, late, first, map[holder.key := row, target.key := none]);
    ReplicaParts(replica);
    LateTargetAwaits(target, holder.key);
    RefreshWired(nodes0, replica.nodes, map[holder.key := row, target.key := none], first, second);
    StillMissed(replica.nodes, target, holder.key, second);
    Missed(replica.nodes, late, target, holder.key, second);
  }

  lemma {:induction false} WalksOn(replica: Replica, late: World)
    requires replica.Valid() && Stays(replica.index, late)
    ensures SameLive(replica.walk, late)
  {
    LiveGrows(replica.walk, replica.index, late);
  }

  lemma {:induction false} LateApart(replica: Replica, holder: Node, target: Node, late: World)
    requires late == map[holder.key := holder, target.key := target]
    requires holder !in Objects(replica.nodes) && target !in Objects(replica.nodes)
    ensures Apart(late, replica.nodes)
  {
  }

  lemma {:induction false} ReplicaParts(replica: Replica)
    requires replica.Valid()
    ensures Keyed(replica.nodes)
  {
  }
}
