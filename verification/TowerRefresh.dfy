/** Refreshing the shadow graph in place: only differing nodes are copied, and no shadow already handed out ever moves. */
module TowerRefresh {
  import opened RelationSchema
  import opened Ordering
  import OwnershipForest
  import opened TowerShadows

  type World = map<NodeKey, Node>

  /** What the walk remembers of one node: the live address, and the live pointers its relations held. */
  datatype WalkEntry = WalkEntry(key: NodeKey, live: Node, words: Links)

  /** The two worlds share no object. */
  ghost predicate Apart(live: World, shadows: World) {
    forall j, k :: j in live && k in shadows ==> live[j] != shadows[k]
  }

  ghost function Objects(nodes: World): set<Node> {
    set k | k in nodes :: nodes[k]
  }

  function Members(keys: seq<NodeKey>): set<NodeKey> {
    set k | k in keys
  }

  /** What a world of nodes shows at one moment. */
  type Picture = map<NodeKey, Row>

  /** Relation baselines, node by node. */
  type Baselines = map<NodeKey, Links>

  ghost predicate Shows(nodes: World, p: Picture)
    reads Objects(nodes)
  {
    p.Keys == nodes.Keys && forall k :: k in nodes ==> nodes[k].row == p[k]
  }

  /** The shadows that differ from the live rows, in a scalar or in the ids of a relation. */
  ghost function Stale(live: Picture, shown: Picture): set<NodeKey> {
    set k | k in shown && k in live && !RowUnchanged(live[k], shown[k])
  }

  /** Every shadow is still where it was. */
  ghost predicate Stays(before: World, after: World) {
    forall k :: k in before ==> k in after && after[k] == before[k]
  }

  /** What a refresh makes of the shadows: new and stale ones are copied and wired, the others are left as they were. */
  ghost predicate Refreshed(live: Picture, before: Picture, after: Picture, nodes: World) {
    && after.Keys == live.Keys
    && forall k :: k in live ==> after[k] == if k in before && k !in Stale(live, before) then before[k] else RewiredRow(nodes, live[k])
  }

  // ---------------------------------------------------------------- one node at a time

  /** Give one new live node a shadow of its own, copied from it. No existing shadow is touched. */
  method AddShadow(nodes: World, live: World, key: NodeKey, ghost p: Picture, ghost live0: Picture) returns (grown: World)
    requires Keyed(nodes) && Shows(nodes, p) && Shows(live, live0) && key in live && key !in nodes
    ensures Keyed(grown) && grown.Keys == nodes.Keys + {key} && fresh(grown[key]) && Stays(nodes, grown)
    ensures Shows(live, live0) && Shows(grown, p[key := live0[key]])
  {
    var shadow := new Node(key, live[key].row);
    grown := nodes[key := shadow];
  }

  method WriteShadow(nodes: World, ghost live: World, key: NodeKey, row: Row, ghost p: Picture, ghost live0: Picture)
    requires Keyed(nodes) && Apart(live, nodes) && Shows(nodes, p) && Shows(live, live0) && key in nodes
    modifies nodes[key]
    ensures Shows(live, live0) && Shows(nodes, p[key := row])
  {
    nodes[key].row := row;
    OthersElsewhere(nodes, key);
  }

  lemma {:induction false} OthersElsewhere(nodes: World, key: NodeKey)
    requires Keyed(nodes) && key in nodes
    ensures forall k :: k in nodes && k != key ==> nodes[k] != nodes[key]
  {
    forall k | k in nodes && k != key ensures nodes[k] != nodes[key] {
      assert nodes[k].key == k && nodes[key].key == key;
    }
  }

  method WireShadow(nodes: World, ghost live: World, key: NodeKey, ghost p: Picture, ghost live0: Picture)
    requires Keyed(nodes) && Apart(live, nodes) && Shows(nodes, p) && Shows(live, live0) && key in nodes
    modifies nodes[key]
    ensures Shows(live, live0) && Shows(nodes, p[key := RewiredRow(nodes, p[key])])
  {
    hide RewiredRow;
    OthersElsewhere(nodes, key);
    WireNode(nodes, nodes[key]);
  }

  // ---------------------------------------------------------------- all new nodes, all stale nodes, all moved nodes

  lemma {:induction false} ShowsKeys(nodes: World, p: Picture)
    requires Shows(nodes, p)
    ensures p.Keys == nodes.Keys
  {
  }

  /** The new nodes `added` show what their live rows show, the others what they showed before. */
  ghost predicate Grows(live: Picture, before: Picture, after: Picture, added: set<NodeKey>) {
    && after.Keys == before.Keys + added
    && (forall k :: k in before ==> after[k] == before[k])
    && (forall k :: k in added && k in live ==> after[k] == live[k])
  }

  method AddShadows(nodes: World, live: World, added: seq<NodeKey>, ghost before: Picture, ghost live0: Picture)
    returns (grown: World, ghost after: Picture)
    requires Keyed(nodes) && Shows(nodes, before) && Shows(live, live0) && Distinct(added) && forall k :: k in added ==> k in live && k !in nodes
    ensures Keyed(grown) && grown.Keys == nodes.Keys + Members(added)
    ensures Stays(nodes, grown) && forall k :: k in grown && k !in nodes ==> fresh(grown[k])
    ensures Shows(live, live0) && Shows(grown, after) && Grows(live0, before, after, Members(added))
  {
    hide Shows, Keyed, Stays, Members, Grows;
    ShowsKeys(live, live0);
    ShowsKeys(nodes, before);
    grown, after := nodes, before;
    var i := 0;
    NothingGrown(nodes, live0, before);
    assert added[..0] == [];
    while i < |added|
      invariant 0 <= i <= |added| && Keyed(grown) && grown.Keys == nodes.Keys + Members(added[..i])
      invariant Stays(nodes, grown) && forall k :: k in grown && k !in nodes ==> fresh(grown[k])
      invariant Shows(live, live0) && Shows(grown, after) && Grows(live0, before, after, Members(added[..i]))
    {
      TakeMember(added, i);
      ghost var last := grown;
      grown := AddShadow(grown, live, added[i], after, live0);
      StaysOn(nodes, last, grown);
      GrowStep(live0, before, after, Members(added[..i]), added[i]);
      after := after[added[i] := live0[added[i]]];
      i := i + 1;
    }
    assert added[..i] == added;
  }

  lemma {:induction false} NothingGrown(nodes: World, live: Picture, before: Picture)
    ensures Grows(live, before, before, {}) && Members([]) == {} && Stays(nodes, nodes)
  {
  }

  lemma {:induction false} StaysOn(a: World, b: World, c: World)
    requires Stays(a, b) && Stays(b, c)
    ensures Stays(a, c)
  {
  }

  lemma {:induction false} TakeMember(keys: seq<NodeKey>, i: nat)
    requires i < |keys| && Distinct(keys)
    ensures keys[i] in keys && keys[i] !in Members(keys[..i]) && Members(keys[..i + 1]) == Members(keys[..i]) + {keys[i]}
  {
    assert keys[..i + 1] == keys[..i] + [keys[i]];
  }

  lemma {:induction false} GrowStep(live: Picture, before: Picture, after: Picture, added: set<NodeKey>, key: NodeKey)
    requires Grows(live, before, after, added) && key in live && key !in before && key !in added
    ensures Grows(live, before, after[key := live[key]], added + {key})
  {
  }

  /** A new node matches its live row from the start, so it is never stale. */
  lemma {:induction false} GrownMatches(live: Picture, before: Picture, after: Picture, added: set<NodeKey>)
    requires Grows(live, before, after, added) && added !! before.Keys
    ensures Stale(live, after) == Stale(live, before)
  {
    forall k | k in added && k in live ensures RowUnchanged(live[k], after[k]) {
      SameIdsSelf(live[k].links);
    }
    hide SameIds;
  }

  lemma {:induction false} SameIdsSelf(a: Links)
    ensures SameIds(a, a)
  {
  }

  /** Copies made for the nodes in `done`. */
  ghost predicate Copies(live: Picture, before: Picture, after: Picture, done: set<NodeKey>) {
    after.Keys == before.Keys && forall k :: k in before ==> after[k] == if k in done && k in live then live[k] else before[k]
  }

  /** Copy the live row over every shadow that differs from it, and list those nodes. */
  method CopyMoved(nodes: World, live: World, ghost before: Picture, ghost live0: Picture) returns (moved: seq<NodeKey>, ghost after: Picture)
    requires Keyed(nodes) && Apart(live, nodes) && nodes.Keys == live.Keys && Shows(nodes, before) && Shows(live, live0)
    modifies Objects(nodes)
    ensures Distinct(moved) && Members(moved) == Stale(live0, before)
    ensures Shows(live, live0) && Shows(nodes, after) && Copies(live0, before, after, Members(moved))
  {
    hide Keyed, Apart, Shows, Stale, Copies, Members, Distinct;
    moved, after := [], before;
    var rest := live.Keys;
    ShowsKeys(live, live0);
    ShowsKeys(nodes, before);
    NothingCopied(live0, before);
    while rest != {}
      invariant rest <= live.Keys && Distinct(moved) && Members(moved) == Stale(live0, before) - rest
      invariant Shows(live, live0) && Shows(nodes, after) && Copies(live0, before, after, Members(moved))
      decreases |rest|
    {
      var key :| key in rest;
      var row, same := CompareNode(nodes, live, key, before, after, live0, Members(moved));
      SettledNext(Stale(live0, before), rest, key);
      if !same {
        WriteShadow(nodes, live, key, row, after, live0);
        CopyStep(live0, before, after, Members(moved), key);
        after := after[key := live0[key]];
        MembersAppend(moved, key);
        moved := moved + [key];
      }
      rest := rest - {key};
    }
    assert Stale(live0, before) - rest == Stale(live0, before);
  }

  lemma {:induction false} NothingCopied(live: Picture, before: Picture)
    ensures Copies(live, before, before, Members([])) && Distinct<NodeKey>([])
    ensures Members([]) == Stale(live, before) - live.Keys
  {
    hide RowUnchanged;
  }

  lemma {:induction false} SettledNext(stale: set<NodeKey>, rest: set<NodeKey>, key: NodeKey)
    requires key in rest
    ensures stale - (rest - {key}) == if key in stale then stale - rest + {key} else stale - rest
    ensures key !in stale - rest
  {
  }

  /** Read one live row and compare it with its shadow, which nothing has touched yet. */
  method CompareNode(nodes: World, live: World, key: NodeKey, ghost before: Picture, ghost after: Picture, ghost live0: Picture,
                     ghost done: set<NodeKey>) returns (row: Row, same: bool)
    requires Shows(live, live0) && Shows(nodes, after) && Copies(live0, before, after, done) && key !in done
    requires key in live && key in nodes
    ensures row == live0[key] && (same <==> key !in Stale(live0, before))
    ensures Shows(live, live0) && Shows(nodes, after)
  {
    hide RowUnchanged;
    row := live[key].row;
    same := RowUnchanged(row, nodes[key].row);
  }

  lemma {:induction false} CopyStep(live: Picture, before: Picture, after: Picture, done: set<NodeKey>, key: NodeKey)
    requires Copies(live, before, after, done) && key in live && key in before
    ensures Copies(live, before, after[key := live[key]], done + {key})
  {
  }

  lemma {:induction false} MembersAppend(keys: seq<NodeKey>, key: NodeKey)
    requires Distinct(keys) && key !in Members(keys)
    ensures Distinct(keys + [key]) && Members(keys + [key]) == Members(keys) + {key}
  {
    DistinctAppend(keys, key);
  }

  /** The nodes in `done` are wired, the others are as they were. */
  ghost predicate Wires(nodes: World, before: Picture, after: Picture, done: set<NodeKey>) {
    after.Keys == before.Keys && forall k :: k in before ==> after[k] == if k in done then RewiredRow(nodes, before[k]) else before[k]
  }

  /** Wire the listed nodes into the shadow world. */
  method WireMoved(nodes: World, ghost live: World, moved: seq<NodeKey>, ghost before: Picture, ghost live0: Picture) returns (ghost after: Picture)
    requires Keyed(nodes) && Apart(live, nodes) && Distinct(moved) && Members(moved) <= nodes.Keys
    requires Shows(nodes, before) && Shows(live, live0)
    modifies Objects(nodes)
    ensures Shows(live, live0) && Shows(nodes, after) && Wires(nodes, before, after, Members(moved))
  {
    hide Keyed, Apart, Shows, Wires, Members;
    after := before;
    NothingWired(nodes, before, moved);
    var i := 0;
    while i < |moved|
      invariant 0 <= i <= |moved| && Shows(live, live0) && Shows(nodes, after) && Wires(nodes, before, after, Members(moved[..i]))
    {
      TakeMember(moved, i);
      MemberOf(moved, i);
      ShowsKeys(nodes, after);
      WireStep(nodes, before, after, Members(moved[..i]), moved[i]);
      WireShadow(nodes, live, moved[i], after, live0);
      after := after[moved[i] := RewiredRow(nodes, after[moved[i]])];
      i := i + 1;
    }
    assert moved[..i] == moved;
  }

  lemma {:induction false} MemberOf(keys: seq<NodeKey>, i: nat)
    requires i < |keys|
    ensures keys[i] in Members(keys)
  {
  }

  lemma {:induction false} NothingWired(nodes: World, p: Picture, keys: seq<NodeKey>)
    ensures Wires(nodes, p, p, Members(keys[..0]))
  {
  }

  lemma {:induction false} WireStep(nodes: World, before: Picture, after: Picture, done: set<NodeKey>, key: NodeKey)
    requires Wires(nodes, before, after, done) && key !in done && key in after
    ensures Wires(nodes, before, after[key := RewiredRow(nodes, after[key])], done + {key})
  {
    hide RewiredRow;
  }

  // ---------------------------------------------------------------- the walk

  ghost predicate WalkCovers(walk: seq<WalkEntry>, nodes: World) {
    && (forall i :: 0 <= i < |walk| ==> walk[i].key in nodes)
    && (forall i, j :: 0 <= i < j < |walk| ==> walk[i].key != walk[j].key)
    && (forall k :: k in nodes ==> InWalk(walk, k))
  }

  ghost predicate InWalk(walk: seq<WalkEntry>, k: NodeKey) {
    exists i :: 0 <= i < |walk| && walk[i].key == k
  }

  /** Every node the walk knows is still committed, at the same live address. */
  ghost predicate SameLive(walk: seq<WalkEntry>, index: World) {
    forall i :: 0 <= i < |walk| ==> walk[i].key in index && index[walk[i].key] == walk[i].live
  }

  /** The walk after a refresh: outdated entries have the live pointers of now, every new node has an entry at its live address,
      all other entries are as they were. */
  ghost predicate Rewalked(before: seq<WalkEntry>, after: seq<WalkEntry>, outdated: set<NodeKey>, live: World, live0: Picture) {
    && |before| <= |after|
    && (forall i :: 0 <= i < |before| ==>
          before[i].key in live0 && after[i] == if before[i].key in outdated then before[i].(words := live0[before[i].key].links) else before[i])
    && (forall i :: |before| <= i < |after| ==>
          && after[i].key in live && after[i].key in live0
          && after[i].live == live[after[i].key] && after[i].words == live0[after[i].key].links)
  }

  method CheckLive(walk: seq<WalkEntry>, index: World, ghost nodes: World, ghost before: Picture, ghost live0: Picture) returns (same: bool)
    requires Shows(nodes, before) && Shows(index, live0)
    ensures same <==> SameLive(walk, index)
    ensures Shows(nodes, before) && Shows(index, live0)
  {
    var i := 0;
    while i < |walk|
      invariant 0 <= i <= |walk| && forall j :: 0 <= j < i ==> walk[j].key in index && index[walk[j].key] == walk[j].live
    {
      if walk[i].key !in index || index[walk[i].key] != walk[i].live {
        return false;
      }
      i := i + 1;
    }
    same := true;
  }

  /** The committed nodes the shadow world has never seen. */
  method FindAdded(nodes: World, index: World, ghost before: Picture, ghost live0: Picture) returns (added: seq<NodeKey>)
    requires nodes.Keys <= index.Keys && Shows(nodes, before) && Shows(index, live0)
    ensures Distinct(added) && forall k :: k in added <==> k in index && k !in nodes
    ensures Shows(nodes, before) && Shows(index, live0)
  {
    added := [];
    if |index| == |nodes| {
      SubsetOfSameSize(nodes.Keys, index.Keys);
      return;
    }
    var rest := index.Keys;
    while rest != {}
      invariant rest <= index.Keys && Distinct(added)
      invariant forall k :: k in added <==> k in index && k !in rest && k !in nodes
      decreases |rest|
    {
      var key :| key in rest;
      if key !in nodes {
        DistinctAppend(added, key);
        added := added + [key];
      }
      rest := rest - {key};
    }
  }

  lemma {:induction false} SubsetOfSameSize<T>(a: set<T>, b: set<T>)
    requires a <= b && |a| == |b|
    ensures a == b
  {
    if a != b {
      var x :| x in b && x !in a;
      OwnershipForest.CardinalityOfSubset(a, b - {x});
    }
  }

  /** Re-record the live pointers of moved nodes, in place. */
  method RerecordWalk(walk: seq<WalkEntry>, index: World, moved: seq<NodeKey>, ghost grown: World, ghost shown: Picture, ghost live0: Picture)
    returns (out: seq<WalkEntry>)
    requires (forall i :: 0 <= i < |walk| ==> walk[i].key in index) && Shows(grown, shown) && Shows(index, live0)
    ensures |out| == |walk| && Shows(grown, shown) && Shows(index, live0)
    ensures forall i :: 0 <= i < |walk| ==>
                          walk[i].key in live0 && out[i] == if walk[i].key in moved then walk[i].(words := live0[walk[i].key].links) else walk[i]
  {
    out := walk;
    var i := 0;
    while i < |walk|
      invariant 0 <= i <= |walk| && |out| == |walk|
      invariant forall j :: 0 <= j < |walk| ==>
                              out[j] == if j < i && walk[j].key in moved then walk[j].(words := index[walk[j].key].row.links) else walk[j]
    {
      if walk[i].key in moved {
        out := out[i := walk[i].(words := index[walk[i].key].row.links)];
      }
      i := i + 1;
    }
  }

  method AppendWalk(walk: seq<WalkEntry>, index: World, added: seq<NodeKey>, ghost grown: World, ghost shown: Picture, ghost live0: Picture)
    returns (out: seq<WalkEntry>)
    requires (forall k :: k in added ==> k in index) && Shows(grown, shown) && Shows(index, live0)
    ensures |out| == |walk| + |added| && out[..|walk|] == walk && Shows(grown, shown) && Shows(index, live0)
    ensures forall i :: 0 <= i < |added| ==>
                          added[i] in index && added[i] in live0 && out[|walk| + i] == WalkEntry(added[i], index[added[i]], live0[added[i]].links)
  {
    out := walk;
    var i := 0;
    while i < |added|
      invariant 0 <= i <= |added| && |out| == |walk| + i && out[..|walk|] == walk
      invariant forall j :: 0 <= j < i ==> out[|walk| + j] == WalkEntry(added[j], index[added[j]], index[added[j]].row.links)
    {
      assert added[i] in added;
      out := out + [WalkEntry(added[i], index[added[i]], index[added[i]].row.links)];
      i := i + 1;
    }
  }

  lemma {:induction false} WalkGrows(walk: seq<WalkEntry>, out: seq<WalkEntry>, nodes: World, grown: World, index: World, added: seq<NodeKey>)
    requires WalkCovers(walk, nodes) && Distinct(added) && (forall k :: k in added ==> k !in nodes) && grown.Keys == nodes.Keys + Members(added)
    requires |out| == |walk| + |added| && (forall i :: 0 <= i < |walk| ==> out[i].key == walk[i].key)
    requires forall i :: 0 <= i < |added| ==> out[|walk| + i].key == added[i]
    ensures WalkCovers(out, grown)
  {
    forall k | k in grown ensures InWalk(out, k) {
      if k in nodes {
        assert InWalk(walk, k);
        var i :| 0 <= i < |walk| && walk[i].key == k;
        assert out[i].key == k;
      } else {
        var i :| 0 <= i < |added| && added[i] == k;
        assert out[|walk| + i].key == k;
      }
    }
    forall i | 0 <= i < |out| ensures out[i].key in grown {
      if i >= |walk| {
        assert out[|walk| + (i - |walk|)].key == added[i - |walk|] && added[i - |walk|] in added;
      }
    }
    forall i, j | 0 <= i < j < |out| ensures out[i].key != out[j].key {
      if i < |walk| <= j {
        assert out[|walk| + (j - |walk|)].key == added[j - |walk|] && added[j - |walk|] in added;
      } else if |walk| <= i {
        assert out[|walk| + (j - |walk|)].key == added[j - |walk|] && out[|walk| + (i - |walk|)].key == added[i - |walk|];
      }
    }
  }

  lemma {:induction false} WalkedInKeys(walk: seq<WalkEntry>, nodes: World, index: World)
    requires WalkCovers(walk, nodes) && nodes.Keys <= index.Keys
    ensures forall i :: 0 <= i < |walk| ==> walk[i].key in index
  {
  }

  lemma {:induction false} WalkedIn(walk: seq<WalkEntry>, nodes: World, index: World)
    requires WalkCovers(walk, nodes) && SameLive(walk, index)
    ensures nodes.Keys <= index.Keys
  {
    forall k | k in nodes ensures k in index {
      assert InWalk(walk, k);
    }
  }

  lemma {:induction false} AddedApart(nodes: World, grown: World, index: World, added: seq<NodeKey>)
    requires nodes.Keys <= index.Keys && Apart(index, nodes) && grown.Keys == nodes.Keys + Members(added)
    requires Stays(nodes, grown) && forall k :: k in added <==> k in index && k !in nodes
    requires forall j, k :: j in index && k in grown && k !in nodes ==> index[j] != grown[k]
    ensures Apart(index, grown) && grown.Keys == index.Keys
  {
  }

  lemma {:induction false} DistinctJoin(a: seq<NodeKey>, b: seq<NodeKey>)
    requires Distinct(a) && Distinct(b) && forall k :: k in b ==> k !in a
    ensures Distinct(a + b)
  {
    forall i, j | 0 <= i < j < |a + b| ensures (a + b)[i] != (a + b)[j] {
      assert i < |a| <= j ==> (a + b)[j] in b && (a + b)[i] in a;
    }
  }

  // ---------------------------------------------------------------- the refresh

  /** Grow, copy, wire: the three passes together are one refresh. */
  lemma {:induction false} PassesRefresh(live: Picture, before: Picture, grown: Picture, copied: Picture, after: Picture, nodes: World,
                                         added: set<NodeKey>, stale: set<NodeKey>)
    requires live.Keys == before.Keys + added && before.Keys !! added && stale == Stale(live, before)
    requires Grows(live, before, grown, added) && Copies(live, grown, copied, stale) && Wires(nodes, copied, after, stale + added)
    requires stale <= before.Keys
    ensures Refreshed(live, before, after, nodes)
  {
    hide RewiredRow, Stale;
  }

  /** Shadows for the new nodes, copies for the differing ones, and both wired into the shadow world. */
  method RefreshWorld(nodes: World, live: World, added: seq<NodeKey>, ghost before: Picture, ghost live0: Picture)
    returns (grown: World, moved: seq<NodeKey>, ghost after: Picture)
    requires Keyed(nodes) && Apart(live, nodes) && nodes.Keys <= live.Keys && Shows(nodes, before) && Shows(live, live0)
    requires Distinct(added) && forall k :: k in added <==> k in live && k !in nodes
    modifies Objects(nodes)
    ensures Keyed(grown) && Apart(live, grown) && grown.Keys == live.Keys
    ensures Stays(nodes, grown) && forall k :: k in grown && k !in nodes ==> fresh(grown[k])
    ensures Members(moved) == Stale(live0, before) + Members(added) && Stale(live0, before) <= nodes.Keys
    ensures Shows(live, live0) && Shows(grown, after) && Refreshed(live0, before, after, grown)
  {
    hide Keyed, Apart, Shows, Stale, Refreshed, Copies, Wires, Grows, Members, Distinct;
    ShowsKeys(live, live0);
    ShowsKeys(nodes, before);
    AddedKeys(nodes, live, added);
    ghost var shown, copied;
    grown, shown := AddShadows(nodes, live, added, before, live0);
    AddedApart(nodes, grown, live, added);
    GrownMatches(live0, before, shown, Members(added));
    StaleWithin(live0, before);
    moved, copied := CopyMoved(grown, live, shown, live0);
    MembersJoin(moved, added);
    moved := moved + added;
    after := WireMoved(grown, live, moved, copied, live0);
    PassesRefresh(live0, before, shown, copied, after, grown, Members(added), Stale(live0, before));
  }

  lemma {:induction false} AddedKeys(nodes: World, live: World, added: seq<NodeKey>)
    requires nodes.Keys <= live.Keys && forall k :: k in added <==> k in live && k !in nodes
    ensures Members(added) == live.Keys - nodes.Keys && nodes.Keys !! Members(added) && nodes.Keys + Members(added) == live.Keys
  {
    assert forall k :: k in added <==> k in Members(added);
  }

  lemma {:induction false} StaleWithin(live: Picture, before: Picture)
    ensures Stale(live, before) <= before.Keys && Stale(live, before) <= live.Keys
  {
  }

  lemma {:induction false} MembersJoin(a: seq<NodeKey>, b: seq<NodeKey>)
    requires Distinct(a) && Distinct(b) && Members(a) !! Members(b)
    ensures Distinct(a + b) && Members(a + b) == Members(a) + Members(b)
  {
    forall k | k in b ensures k !in a {
      assert k in Members(b) && k !in Members(a);
    }
    DistinctJoin(a, b);
  }

  /** Record what the relations of the listed shadows hold now. */
  method RecordRelations(before: Baselines, nodes: World, keys: seq<NodeKey>, ghost stale: set<NodeKey>,
                         ghost live: World, ghost shown: Picture, ghost live0: Picture) returns (relations: Baselines)
    requires Shows(nodes, shown) && Shows(live, live0) && (forall k :: k in keys ==> k in nodes)
    requires before.Keys <= nodes.Keys && stale <= before.Keys && Members(keys) == stale + (nodes.Keys - before.Keys)
    ensures Recorded(before, relations, stale, shown) && relations.Keys == nodes.Keys
    ensures Shows(nodes, shown) && Shows(live, live0)
  {
    relations := before;
    var i := 0;
    while i < |keys|
      invariant 0 <= i <= |keys| && relations.Keys == before.Keys + Members(keys[..i])
      invariant forall k :: k in relations ==> relations[k] == if k in keys[..i] then shown[k].links else before[k]
    {
      assert keys[..i + 1] == keys[..i] + [keys[i]] && keys[i] in keys;
      relations := relations[keys[i] := nodes[keys[i]].row.links];
      i := i + 1;
    }
    assert keys[..i] == keys;
    assert forall k :: k in keys <==> k in Members(keys);
  }

  lemma {:induction false} RewalkMade(walk: seq<WalkEntry>, middle: seq<WalkEntry>, out: seq<WalkEntry>, nodes: World, live: World,
                                      moved: seq<NodeKey>, added: seq<NodeKey>, stale: set<NodeKey>, live0: Picture)
    requires WalkCovers(walk, nodes) && nodes.Keys <= live.Keys && live0.Keys == live.Keys && SameLive(walk, live)
    requires |middle| == |walk| && forall i :: 0 <= i < |walk| ==>
               walk[i].key in live0 && middle[i] == if walk[i].key in moved then walk[i].(words := live0[walk[i].key].links) else walk[i]
    requires |out| == |walk| + |added| && out[..|walk|] == middle && forall k :: k in added ==> k in live && k !in nodes
    requires forall i :: 0 <= i < |added| ==>
               added[i] in live && added[i] in live0 && out[|walk| + i] == WalkEntry(added[i], live[added[i]], live0[added[i]].links)
    requires Members(moved) == stale + Members(added) && stale <= nodes.Keys
    ensures Rewalked(walk, out, stale, live, live0) && SameLive(out, live)
  {
    forall k | k in nodes ensures k in moved <==> k in stale {
      assert k in moved <==> k in Members(moved);
      assert k !in added;
    }
    forall i | 0 <= i < |walk| ensures out[i] == middle[i] {
      assert out[i] == out[..|walk|][i];
    }
    forall i | |walk| <= i < |out| ensures out[i] == WalkEntry(added[i - |walk|], live[added[i - |walk|]], live0[added[i - |walk|]].links) {
      assert out[|walk| + (i - |walk|)] == out[i];
    }
  }

  /** Bring the walk in line: new live pointers for the moved nodes, entries of their own for the added ones. */
  method RecordWalk(walk: seq<WalkEntry>, ghost nodes: World, live: World, moved: seq<NodeKey>, added: seq<NodeKey>, ghost stale: set<NodeKey>,
                    ghost grown: World, ghost shown: Picture, ghost live0: Picture) returns (out: seq<WalkEntry>)
    requires Shows(grown, shown) && Shows(live, live0) && SameLive(walk, live)
    requires Members(moved) == stale + Members(added) && stale <= nodes.Keys
    requires WalkCovers(walk, nodes) && nodes.Keys <= live.Keys && Distinct(added) && (forall k :: k in added <==> k in live && k !in nodes)
    ensures WalkCovers(out, live) && SameLive(out, live) && Rewalked(walk, out, stale, live, live0)
    ensures Shows(grown, shown) && Shows(live, live0)
  {
    hide Shows, WalkCovers, SameLive, Rewalked;
    WalkedInKeys(walk, nodes, live);
    ShowsKeys(live, live0);
    var middle := RerecordWalk(walk, live, moved, grown, shown, live0);
    out := AppendWalk(middle, live, added, grown, shown, live0);
    RewalkMade(walk, middle, out, nodes, live, moved, added, stale, live0);
    assert live.Keys == nodes.Keys + Members(added);
    WalkGrows(walk, out, nodes, live, live, added);
  }

  // ---------------------------------------------------------------- the replica

  class Replica {
    var nodes: World
    var relations: Baselines   // what each shadow's relations held when it was last recorded
    var walk: seq<WalkEntry>
    var index: World

    constructor ()
      ensures Valid() && nodes == map[] && relations == map[] && walk == []
    {
      nodes, relations, walk, index := map[], map[], [], map[];
    }

    ghost predicate Valid()
      reads this
    {
      Keyed(nodes) && relations.Keys == nodes.Keys && WalkCovers(walk, nodes) && SameLive(walk, index)
    }

    method Install(grown: World, recorded: Baselines, walked: seq<WalkEntry>, live: World, ghost after: Picture, ghost live0: Picture)
      requires Keyed(grown) && recorded.Keys == grown.Keys && WalkCovers(walked, grown) && SameLive(walked, live)
      requires Shows(grown, after) && Shows(live, live0)
      modifies `nodes, `relations, `walk, `index
      ensures nodes == grown && relations == recorded && walk == walked && index == live && Valid()
      ensures Shows(nodes, after) && Shows(live, live0)
    {
      hide WalkCovers, SameLive, Keyed;
      nodes, relations, walk, index := grown, recorded, walked, live;
    }

    /** Drop deleted nodes, so that the next refresh finds matching node sets. No surviving shadow moves. */
    method ForgetNodes(closure: set<NodeKey>)
      requires Valid()
      modifies `nodes, `relations, `walk
      ensures Valid() && nodes == old(nodes) - closure && relations == old(relations) - closure
      ensures walk == Kept(old(walk), closure)
    {
      hide WalkCovers, SameLive;
      var kept := KeepEntries(walk, closure);
      KeptCovers(walk, nodes, closure);
      KeptLive(walk, closure, index);
      nodes, relations, walk := nodes - closure, relations - closure, kept;
    }

    /** Bring the shadows in line with the committed graph, or report that the node set was replaced and a rebuild is due. */
    method Refresh(live: World, ghost before: Picture, ghost live0: Picture) returns (ok: bool, ghost after: Picture)
      requires Valid() && Apart(live, nodes) && Shows(nodes, before) && Shows(live, live0)
      modifies this, Objects(nodes)
      ensures ok <==> |live| >= |old(nodes)| && SameLive(old(walk), live)
      ensures Shows(live, live0) && Shows(nodes, after)
      ensures !ok ==> nodes == old(nodes) && relations == old(relations) && walk == old(walk) && after == before
      ensures ok ==> Valid() && Apart(live, nodes) && nodes.Keys == live.Keys && index == live
      ensures ok ==> Stays(old(nodes), nodes) && forall k :: k in nodes && k !in old(nodes) ==> fresh(nodes[k])
      ensures ok ==> Refreshed(live0, before, after, nodes) && Recorded(old(relations), relations, Stale(live0, before), after)
      ensures ok ==> SameLive(walk, live) && Rewalked(old(walk), walk, Stale(live0, before), live, live0)
    {
      hide Keyed, WalkCovers, SameLive, Apart, Stale, Shows, Refreshed, Recorded, Rewalked, Stays;
      after := before;
      if |live| < |nodes| {
        return false, before;
      }
      var same := CheckLive(walk, live, nodes, before, live0);
      if !same {
        return false, before;
      }
      after := Renew(live, before, live0);
      ok := true;
    }

    /** The refresh proper, once every known node is seen to be committed at the address it had. */
    method Renew(live: World, ghost before: Picture, ghost live0: Picture) returns (ghost after: Picture)
      requires Valid() && Apart(live, nodes) && Shows(nodes, before) && Shows(live, live0) && SameLive(walk, live)
      modifies this, Objects(nodes)
      ensures Shows(live, live0) && Shows(nodes, after)
      ensures Valid() && Apart(live, nodes) && nodes.Keys == live.Keys && index == live
      ensures Stays(old(nodes), nodes) && forall k :: k in nodes && k !in old(nodes) ==> fresh(nodes[k])
      ensures Refreshed(live0, before, after, nodes) && Recorded(old(relations), relations, Stale(live0, before), after)
      ensures SameLive(walk, live) && Rewalked(old(walk), walk, Stale(live0, before), live, live0)
    {
      hide Keyed, WalkCovers, SameLive, Apart, Stale, Shows, Refreshed, Recorded, Rewalked, Stays, Members;
      WalkedIn(walk, nodes, live);
      var added := FindAdded(nodes, live, before, live0);
      ShowsKeys(nodes, before);
      var grown, moved;
      grown, moved, after := RefreshWorld(nodes, live, added, before, live0);
      MovedKeys(nodes, live, added, moved, Stale(live0, before));
      var recorded := RecordRelations(relations, grown, moved, Stale(live0, before), live, after, live0);
      var walked := RecordWalk(walk, nodes, live, moved, added, Stale(live0, before), grown, after, live0);
      SameCover(walked, live, grown);
      Install(grown, recorded, walked, live, after, live0);
    }
  }

  lemma {:induction false} MovedKeys(nodes: World, live: World, added: seq<NodeKey>, moved: seq<NodeKey>, stale: set<NodeKey>)
    requires nodes.Keys <= live.Keys && (forall k :: k in added <==> k in live && k !in nodes) && Members(moved) == stale + Members(added)
    requires stale <= nodes.Keys
    ensures Members(moved) == stale + (live.Keys - nodes.Keys) && Members(added) == live.Keys - nodes.Keys && forall k :: k in moved ==> k in live
  {
    assert forall k :: k in moved ==> k in Members(moved);
    assert forall k :: k in added <==> k in Members(added);
  }

  /** The relation baselines: same for shadows that were left alone, what the shadow now shows for the others. */
  ghost predicate Recorded(before: Baselines, after: Baselines, outdated: set<NodeKey>, shown: Picture) {
    && after.Keys == shown.Keys
    && forall k :: k in after ==> after[k] == if k in before && k !in outdated then before[k] else shown[k].links
  }

  lemma {:induction false} SameCover(walk: seq<WalkEntry>, a: World, b: World)
    requires WalkCovers(walk, a) && a.Keys == b.Keys
    ensures WalkCovers(walk, b)
  {
  }

  function Kept(walk: seq<WalkEntry>, closure: set<NodeKey>): seq<WalkEntry> {
    if walk == [] then []
    else
      var last := walk[|walk| - 1];
      Kept(walk[..|walk| - 1], closure) + if last.key in closure then [] else [last]
  }

  lemma {:induction false} KeptLive(walk: seq<WalkEntry>, closure: set<NodeKey>, index: World)
    requires SameLive(walk, index)
    ensures SameLive(Kept(walk, closure), index)
  {
    if walk != [] {
      KeptLive(walk[..|walk| - 1], closure, index);
    }
  }

  ghost predicate DistinctKeys(walk: seq<WalkEntry>) {
    forall i, j :: 0 <= i < j < |walk| ==> walk[i].key != walk[j].key
  }

  method KeepEntries(walk: seq<WalkEntry>, closure: set<NodeKey>) returns (kept: seq<WalkEntry>)
    ensures kept == Kept(walk, closure)
  {
    kept := [];
    var i := 0;
    while i < |walk|
      invariant 0 <= i <= |walk| && kept == Kept(walk[..i], closure)
    {
      KeptStep(walk, i, closure);
      if walk[i].key !in closure {
        kept := kept + [walk[i]];
      }
      i := i + 1;
    }
    assert walk[..i] == walk;
  }

  lemma {:induction false} KeptExact(walk: seq<WalkEntry>, closure: set<NodeKey>)
    requires DistinctKeys(walk)
    ensures DistinctKeys(Kept(walk, closure)) && forall k :: InWalk(Kept(walk, closure), k) <==> InWalk(walk, k) && k !in closure
  {
    if walk != [] {
      var n := |walk| - 1;
      var kept, out := Kept(walk[..n], closure), Kept(walk, closure);
      KeptExact(walk[..n], closure);
      forall i | 0 <= i < |kept| ensures kept[i].key != walk[n].key {
        assert InWalk(kept, kept[i].key) && InWalk(walk[..n], kept[i].key);
      }
      forall k ensures InWalk(out, k) <==> InWalk(walk, k) && k !in closure {
        assert InWalk(walk, k) <==> InWalk(walk[..n], k) || k == walk[n].key by {
          WalkAppend(walk[..n], walk[n], k);
          assert walk == walk[..n] + [walk[n]];
        }
        if walk[n].key in closure {
          assert kept + [] == kept;
        } else {
          WalkAppend(kept, walk[n], k);
        }
      }
    }
  }

  lemma {:induction false} WalkAppend(walk: seq<WalkEntry>, e: WalkEntry, k: NodeKey)
    ensures InWalk(walk + [e], k) <==> InWalk(walk, k) || k == e.key
  {
    if InWalk(walk, k) {
      var i :| 0 <= i < |walk| && walk[i].key == k;
      assert (walk + [e])[i].key == k;
    }
    assert (walk + [e])[|walk|] == e;
  }

  lemma {:induction false} KeptStep(walk: seq<WalkEntry>, i: nat, closure: set<NodeKey>)
    requires i < |walk|
    ensures Kept(walk[..i + 1], closure) == Kept(walk[..i], closure) + if walk[i].key in closure then [] else [walk[i]]
    ensures Kept(walk[..i], closure) + [] == Kept(walk[..i], closure)
  {
    assert walk[..i + 1][..i] == walk[..i];
  }

  lemma {:induction false} KeptCovers(walk: seq<WalkEntry>, nodes: World, closure: set<NodeKey>)
    requires WalkCovers(walk, nodes)
    ensures WalkCovers(Kept(walk, closure), nodes - closure)
  {
    KeptExact(walk, closure);
    var kept := Kept(walk, closure);
    forall i | 0 <= i < |kept| ensures kept[i].key in nodes - closure {
      assert InWalk(kept, kept[i].key) && InWalk(walk, kept[i].key);
    }
    forall k | k in nodes - closure ensures InWalk(kept, k) {
      assert InWalk(walk, k);
    }
  }
}
