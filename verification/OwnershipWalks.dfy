/** Cycle detection over a whole owners map, root lookup and branch listing. */
module OwnershipWalks {
  import opened RelationSchema
  import opened Wrappers
  import opened OwnershipForest
  import opened Ordering

  datatype Colour = OnPath | Settled

  ghost predicate SettledRooted(owners: Owners, state: map<NodeKey, Colour>) {
    forall k :: k in state && state[k] == Settled ==> Rooted(owners, k)
  }

  /** `path` lists the chain of owners from `start`, and `at` is the next one up. */
  ghost predicate Climbs(owners: Owners, start: NodeKey, path: seq<NodeKey>, at: NodeKey) {
    && (forall i :: 0 <= i < |path| ==> Ancestor(owners, start, i) == Some(path[i]))
    && Ancestor(owners, start, |path|) == Some(at)
  }

  lemma {:induction false} Climb(owners: Owners, start: NodeKey, path: seq<NodeKey>, at: NodeKey)
    requires Climbs(owners, start, path, at)
    ensures at in owners ==> Climbs(owners, start, path + [at], owners[at])
    ensures at !in owners ==> Rooted(owners, start)
    ensures at in path ==> !Rooted(owners, start)
    ensures Rooted(owners, at) ==> Rooted(owners, start)
    ensures Rooted(owners, start) ==> forall k :: k in path + [at] ==> Rooted(owners, k)
  {
    assert Ancestor(owners, start, |path| + 1) == OwnerOf(owners, at);
    if i :| 0 <= i < |path| && path[i] == at {
      EndlessFromRepeat(owners, start, i, |path|);
    }
    if Rooted(owners, at) {
      RootedBelow(owners, start, |path|);
    }
    if Rooted(owners, start) {
      forall i | 0 <= i <= |path| ensures Rooted(owners, (path + [at])[i]) {
        RootedAbove(owners, start, i);
      }
    }
  }

  /** The colour walk from one uncoloured node: grey along the path, black once the chain is known to end. */
  method ColourWalk(owners: Owners, before: map<NodeKey, Colour>, start: NodeKey)
    returns (ok: bool, state: map<NodeKey, Colour>)
    requires start !in before && SettledRooted(owners, before)
    requires forall k :: k in before ==> before[k] == Settled
    ensures ok <==> Rooted(owners, start)
    ensures ok ==> SettledRooted(owners, state) && before.Keys + {start} <= state.Keys
    ensures ok ==> forall k :: k in state ==> state[k] == Settled
  {
    state := before;
    var path: seq<NodeKey> := [];
    var at := start;
    while true
      invariant Climbs(owners, start, path, at)
      invariant forall k :: k in state && state[k] == OnPath ==> k in path
      invariant before.Keys <= state.Keys && SettledRooted(owners, state)
      invariant if path == [] then at == start && state == before else start in state
      decreases owners.Keys - state.Keys
    {
      Climb(owners, start, path, at);
      if at in state && state[at] == OnPath {
        return false, state;
      }
      if at in state {
        break;
      }
      ghost var open := owners.Keys - state.Keys;
      state := state[at := OnPath];
      path := path + [at];
      if at !in owners {
        break;
      }
      assert at in open && at !in owners.Keys - state.Keys;
      at := owners[at];
    }
    state := SettlePath(owners, state, path);
    ok := true;
  }

  /** Everything on a path that turned out to end becomes black. */
  method SettlePath(owners: Owners, before: map<NodeKey, Colour>, path: seq<NodeKey>)
    returns (state: map<NodeKey, Colour>)
    requires SettledRooted(owners, before)
    requires forall i :: 0 <= i < |path| ==> Rooted(owners, path[i])
    requires forall k :: k in before && before[k] == OnPath ==> k in path
    ensures before.Keys <= state.Keys && SettledRooted(owners, state)
    ensures forall k :: k in state ==> state[k] == Settled
  {
    state := before;
    var index := 0;
    while index < |path|
      invariant 0 <= index <= |path|
      invariant before.Keys <= state.Keys && SettledRooted(owners, state)
      invariant forall k :: k in state && state[k] == OnPath ==> k in path[index..]
    {
      state := state[path[index] := Settled];
      index := index + 1;
    }
  }

  lemma {:induction false} EndlessFromRepeat(owners: Owners, start: NodeKey, i: nat, j: nat)
    requires i < j && Ancestor(owners, start, i).Some?
    requires Ancestor(owners, start, i) == Ancestor(owners, start, j)
    ensures !Rooted(owners, start)
  {
    forall m: nat ensures Ancestor(owners, start, m).Some? {
      if m < i {
        AncestorPrefix(owners, start, m, i);
      } else {
        Periodic(owners, start, i, j, m);
      }
    }
  }

  lemma {:induction false} RootedBelow(owners: Owners, start: NodeKey, n: nat)
    requires Ancestor(owners, start, n).Some? && Rooted(owners, Ancestor(owners, start, n).value)
    ensures Rooted(owners, start)
  {
    var m: nat :| Ancestor(owners, Ancestor(owners, start, n).value, m) == None;
    AncestorSplit(owners, start, n, m);
    assert Ancestor(owners, start, n + m) == None;
  }

  lemma {:induction false} RootedAbove(owners: Owners, start: NodeKey, n: nat)
    requires Rooted(owners, start) && Ancestor(owners, start, n).Some?
    ensures Rooted(owners, Ancestor(owners, start, n).value)
  {
    var m: nat :| Ancestor(owners, start, m) == None;
    if m <= n {
      AncestorPrefix(owners, start, m, n);
    }
    AncestorSplit(owners, start, n, m - n);
    assert Ancestor(owners, Ancestor(owners, start, n).value, m - n) == None;
  }

  /** The full validator's walk: refuses exactly the owner maps with a cycle. */
  method ValidateOwnershipCycles(owners: Owners, nodes: set<NodeKey>) returns (ok: bool)
    requires owners.Keys <= nodes
    ensures ok <==> Acyclic(owners)
  {
    var state: map<NodeKey, Colour> := map[];
    var rest := nodes;
    while rest != {}
      invariant rest <= nodes && SettledRooted(owners, state)
      invariant forall k :: k in state ==> state[k] == Settled
      invariant nodes - rest <= state.Keys
      decreases |rest|
    {
      var start :| start in rest;
      rest := rest - {start};
      if start !in state {
        ok, state := ColourWalk(owners, state, start);
        if !ok {
          AcyclicIsRooted(owners);
          return;
        }
      }
    }
    forall k ensures Rooted(owners, k) {
      if k in nodes {
        assert k in state;
      } else {
        assert Ancestor(owners, k, 1) == None;
      }
    }
    AcyclicIsRooted(owners);
    ok := true;
  }

  /** The model delta's walk: a fresh seen set for every changed child. */
  method ValidateChangedOwnershipCycles(owners: Owners, changed: set<NodeKey>) returns (ok: bool)
    ensures ok <==> forall k :: k in changed ==> Rooted(owners, k)
  {
    var rest := changed;
    while rest != {}
      invariant rest <= changed
      invariant forall k :: k in changed - rest ==> Rooted(owners, k)
      decreases |rest|
    {
      var start :| start in rest;
      rest := rest - {start};
      var seen: set<NodeKey> := {};
      var at := start;
      ghost var steps: nat := 0;
      while true
        invariant Ancestor(owners, start, steps) == Some(at)
        invariant forall k :: k in seen ==> exists n: nat :: n < steps && Ancestor(owners, start, n) == Some(k)
        invariant seen <= owners.Keys
        decreases owners.Keys - seen
      {
        if at in seen {
          ghost var n: nat :| n < steps && Ancestor(owners, start, n) == Some(at);
          EndlessFromRepeat(owners, start, n, steps);
          return false;
        }
        if at !in owners {
          assert Ancestor(owners, start, steps + 1) == None;
          break;
        }
        seen := seen + {at};
        at := owners[at];
        steps := steps + 1;
      }
      assert Rooted(owners, start);
    }
    ok := true;
  }

  // ---------------------------------------------------------------- roots and branches

  ghost predicate IsRootOf(owners: Owners, root: NodeKey, node: NodeKey) {
    root !in owners && InBranch(owners, root, node)
  }

  /** `node` is `root` or somewhere below it. */
  ghost predicate InBranch(owners: Owners, root: NodeKey, node: NodeKey) {
    exists n: nat :: Ancestor(owners, node, n) == Some(root)
  }

  /** The bounded walk to the top owner always arrives, because ownership is a forest. */
  method CommittedOwnershipRoot(owners: Owners, node: NodeKey) returns (root: NodeKey)
    requires Acyclic(owners)
    ensures IsRootOf(owners, root, node)
  {
    root := node;
    var step := 0;
    while step < |owners| + 1
      invariant 0 <= step <= |owners| + 1
      invariant Ancestor(owners, node, step) == Some(root)
    {
      if root !in owners {
        break;
      }
      root := owners[root];
      step := step + 1;
    }
    if root in owners {
      var i, j := Revisits(owners, node);
      EndlessFromRepeat(owners, node, i, j);
      AcyclicIsRooted(owners);
      assert false;
    }
  }

  lemma {:induction false} RootUnique(owners: Owners, r: NodeKey, s: NodeKey, node: NodeKey)
    requires IsRootOf(owners, r, node) && IsRootOf(owners, s, node)
    ensures r == s
  {
    var n: nat :| Ancestor(owners, node, n) == Some(r);
    var m: nat :| Ancestor(owners, node, m) == Some(s);
    if n < m {
      AncestorPrefix(owners, node, n + 1, m);
    } else if m < n {
      AncestorPrefix(owners, node, m + 1, n);
    }
  }

  /** Branches of nodes with different top owners share nothing, and a whole branch has one top owner. */
  lemma {:induction false} RootsPartition(owners: Owners, r: NodeKey, s: NodeKey, a: NodeKey, b: NodeKey, node: NodeKey)
    requires IsRootOf(owners, r, a) && IsRootOf(owners, s, b)
    requires InBranch(owners, a, node)
    ensures IsRootOf(owners, r, node)
    ensures InBranch(owners, b, node) ==> r == s
  {
    BranchTransitive(owners, r, a, node);
    if InBranch(owners, b, node) {
      BranchTransitive(owners, s, b, node);
      RootUnique(owners, r, s, node);
    }
  }

  lemma {:induction false} BranchTransitive(owners: Owners, top: NodeKey, middle: NodeKey, node: NodeKey)
    requires InBranch(owners, top, middle) && InBranch(owners, middle, node)
    ensures InBranch(owners, top, node)
  {
    var n: nat :| Ancestor(owners, middle, n) == Some(top);
    var m: nat :| Ancestor(owners, node, m) == Some(middle);
    AncestorSplit(owners, node, m, n);
    assert Ancestor(owners, node, m + n) == Some(top);
  }

  /** The children lists are exactly the inverse of the owners map, each child once. */
  ghost predicate OutgoingExact(owners: Owners, outgoing: map<NodeKey, seq<NodeKey>>) {
    && (forall o, c :: c in ChildrenOf(outgoing, o) <==> OwnerOf(owners, c) == Some(o))
    && (forall o :: o in outgoing ==> Distinct(outgoing[o]))
  }

  function ChildrenOf(outgoing: map<NodeKey, seq<NodeKey>>, owner: NodeKey): seq<NodeKey> {
    if owner in outgoing then outgoing[owner] else []
  }

  /** What the worklist holds once the children of its first `position` entries are listed. */
  ghost predicate Listed(owners: Owners, root: NodeKey, out: seq<NodeKey>, position: nat) {
    && position <= |out| && out != [] && out[0] == root && Distinct(out)
    && (forall k :: k in out ==> InBranch(owners, root, k))
    && (forall i {:trigger OwnerListed(owners, out, position, i)} :: 0 < i < |out| ==> OwnerListed(owners, out, position, i))
    && (forall k :: k in owners && owners[k] in out[..position] ==> k in out)
  }

  ghost predicate OwnerListed(owners: Owners, out: seq<NodeKey>, position: nat, i: int)
    requires 0 <= i < |out| && position <= |out|
  {
    out[i] in owners && owners[out[i]] in out[..position]
  }

  /** A child of the next listed node is new: its owner is listed once, and the root is nobody's child here. */
  lemma {:induction false} FreshChild(owners: Owners, root: NodeKey, out: seq<NodeKey>, position: nat, child: NodeKey)
    requires Acyclic(owners) && Listed(owners, root, out, position) && position < |out|
    requires OwnerOf(owners, child) == Some(out[position])
    ensures child !in out && InBranch(owners, root, child)
  {
    var owner := out[position];
    assert owner in out;
    ChildInBranch(owners, root, owner, child);
    if child in out {
      var i :| 0 <= i < |out| && out[i] == child && (i == 0 || OwnerListed(owners, out, position, i));
      if i == 0 {
        OwnedRootCycles(owners, root, owner);
      }
    }
  }

  lemma {:induction false} ListChildren(owners: Owners, root: NodeKey, out: seq<NodeKey>, position: nat, children: seq<NodeKey>)
    requires Acyclic(owners) && Listed(owners, root, out, position) && position < |out|
    requires Distinct(children)
    requires forall c :: c in children <==> OwnerOf(owners, c) == Some(out[position])
    ensures Listed(owners, root, out + children, position + 1)
  {
    var grown, next := out + children, position + 1;
    assert grown[..next] == out[..position] + [out[position]];
    forall c | c in children ensures c !in out && InBranch(owners, root, c) && c in owners {
      FreshChild(owners, root, out, position, c);
    }
    hide InBranch, Acyclic;
    forall i | 0 < i < |grown| ensures OwnerListed(owners, grown, next, i) {
      if i >= |out| {
        assert grown[i] in children;
      } else {
        assert OwnerListed(owners, out, position, i);
      }
    }
    forall k | k in owners && owners[k] in grown[..position + 1] ensures k in grown {
      if owners[k] in out[..position] {
        assert k in out;
      } else {
        assert k in children;
      }
    }
    forall i, j | 0 <= i < j < |grown| ensures grown[i] != grown[j] {
      if i < |out| <= j {
        assert grown[j] in children;
      }
    }
  }

  /** The ownership branch of a node: a worklist over the children lists, then sorted. */
  method CommittedOwnershipKeys(owners: Owners, outgoing: map<NodeKey, seq<NodeKey>>, root: NodeKey)
    returns (keys: seq<NodeKey>)
    requires Acyclic(owners) && OutgoingExact(owners, outgoing)
    ensures forall k :: k in keys <==> InBranch(owners, root, k)
    ensures Ascending(keys)
  {
    var out := [root];
    var position := 0;
    assert Ancestor(owners, root, 0) == Some(root);
    while position < |out|
      invariant 0 <= position && Listed(owners, root, out, position)
      decreases |owners| + 1 - position
    {
      forall i | 0 < i < |out| ensures out[i] in owners {
        assert OwnerListed(owners, out, position, i);
      }
      ListedFitsForest(owners, out);
      var children := ChildrenOf(outgoing, out[position]);
      ListChildren(owners, root, out, position, children);
      out := out + children;
      position := position + 1;
    }
    assert out[..position] == out;
    forall k | InBranch(owners, root, k) ensures k in out {
      ghost var n: nat :| Ancestor(owners, k, n) == Some(root);
      ListedBelow(owners, out, root, k, n);
    }
    SortAscends(out);
    keys := SortKeys(out);
  }

  lemma {:induction false} ChildInBranch(owners: Owners, root: NodeKey, owner: NodeKey, child: NodeKey)
    requires InBranch(owners, root, owner) && OwnerOf(owners, child) == Some(owner)
    ensures InBranch(owners, root, child)
  {
    assert Ancestor(owners, child, 1) == Some(owner) by { assert Ancestor(owners, child, 0) == Some(child); }
    BranchTransitive(owners, root, owner, child);
  }

  lemma {:induction false} OwnedRootCycles(owners: Owners, root: NodeKey, owner: NodeKey)
    requires InBranch(owners, root, owner) && OwnerOf(owners, root) == Some(owner)
    ensures !Acyclic(owners)
  {
    var n: nat :| Ancestor(owners, owner, n) == Some(root);
    assert Ancestor(owners, root, 1) == Some(owner) by { assert Ancestor(owners, root, 0) == Some(root); }
    AncestorSplit(owners, root, 1, n);
    assert OnCycle(owners, root);
  }

  lemma {:induction false} ListedBelow(owners: Owners, out: seq<NodeKey>, root: NodeKey, node: NodeKey, n: nat)
    requires root in out
    requires forall k :: k in owners && owners[k] in out ==> k in out
    requires Ancestor(owners, node, n) == Some(root)
    ensures node in out
    decreases n
  {
    if n > 0 {
      AncestorPrefix(owners, node, 1, n);
      assert Ancestor(owners, node, 0) == Some(node);
      AncestorSplit(owners, node, 1, n - 1);
      ListedBelow(owners, out, root, owners[node], n - 1);
    }
  }

  lemma {:induction false} ListedFitsForest(owners: Owners, out: seq<NodeKey>)
    requires Distinct(out) && out != []
    requires forall i :: 0 < i < |out| ==> out[i] in owners
    ensures |out| <= |owners| + 1
  {
    var rest := set i | 0 < i < |out| :: out[i];
    DistinctCount(out[1..]);
    assert rest == set k | k in out[1..];
    CardinalityOfSubset(rest, owners.Keys);
  }

  lemma {:induction false} DistinctCount<T>(s: seq<T>)
    requires Distinct(s)
    ensures |set k | k in s| == |s|
  {
    if s != [] {
      DistinctCount(s[1..]);
      assert s == [s[0]] + s[1..];
      assert (set k | k in s) == {s[0]} + set k | k in s[1..];
    }
  }
}
