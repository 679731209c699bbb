/** The lock lists of a commit: which locks, in which order, and why taking them in that order can never form a cycle. */
module CommitLocks {
  import opened Wrappers
  import opened RelationSchema
  import opened Ordering
  import opened OwnershipForest
  import opened OwnershipWalks

  datatype Mode = Read | Write

  /** The graph lock, then table structure locks, then branch locks, then row locks. */
  datatype Lock = Lock(level: nat, key: NodeKey)

  datatype Claim = Claim(lock: Lock, mode: Mode)

  const GRAPH := Lock(0, NodeKey("", 0))

  function Branch(root: NodeKey): Lock { Lock(2, root) }

  function Row(key: NodeKey): Lock { Lock(3, key) }

  predicate LockLess(a: Lock, b: Lock) {
    a.level < b.level || (a.level == b.level && KeyLess(a.key, b.key))
  }

  lemma {:induction false} LockTotal(a: Lock, b: Lock)
    ensures a == b || LockLess(a, b) || LockLess(b, a)
    ensures !(LockLess(a, b) && LockLess(b, a)) && !LockLess(a, a)
  {
    KeyTotal(a.key, b.key);
    KeyTotal(a.key, a.key);
  }

  lemma {:induction false} LockTransitive(a: Lock, b: Lock, c: Lock)
    requires LockLess(a, b) && LockLess(b, c)
    ensures LockLess(a, c)
  {
    if a.level == b.level == c.level {
      KeyTransitive(a.key, b.key, c.key);
    }
  }

  /** Every claim is strictly after the one before it. */
  ghost predicate Climbing(claims: seq<Claim>) {
    forall i, j :: 0 <= i < j < |claims| ==> LockLess(claims[i].lock, claims[j].lock)
  }

  function Claims(level: nat, mode: Mode, keys: seq<NodeKey>): (claims: seq<Claim>)
    ensures |claims| == |keys| && forall i :: 0 <= i < |keys| ==> claims[i] == Claim(Lock(level, keys[i]), mode)
  {
    seq(|keys|, i requires 0 <= i < |keys| => Claim(Lock(level, keys[i]), mode))
  }

  lemma {:induction false} ClaimsClimb(level: nat, mode: Mode, keys: seq<NodeKey>)
    requires Ascending(keys)
    ensures Climbing(Claims(level, mode, keys))
  {
  }

  lemma {:induction false} ClimbingJoin(low: seq<Claim>, high: seq<Claim>, level: nat)
    requires Climbing(low) && Climbing(high)
    requires (forall c :: c in low ==> c.lock.level < level) && forall c :: c in high ==> c.lock.level >= level
    ensures Climbing(low + high)
  {
    var all := low + high;
    forall i, j | 0 <= i < j < |all| ensures LockLess(all[i].lock, all[j].lock) {
      if i < |low| <= j {
        assert all[i] in low && all[j] in high;
      }
    }
  }

  // ---------------------------------------------------------------- which locks

  /** Keep the first occurrence of everything. */
  function Dedupe(keys: seq<NodeKey>): seq<NodeKey> {
    if keys == [] then []
    else
      var before, last := Dedupe(keys[..|keys| - 1]), keys[|keys| - 1];
      if last in before then before else before + [last]
  }

  lemma {:induction false} DedupeKeeps(keys: seq<NodeKey>)
    ensures Distinct(Dedupe(keys)) && forall k :: k in Dedupe(keys) <==> k in keys
  {
    if keys != [] {
      var n := |keys| - 1;
      DedupeKeeps(keys[..n]);
      assert keys == keys[..n] + [keys[n]];
      if keys[n] !in Dedupe(keys[..n]) {
        DistinctAppend(Dedupe(keys[..n]), keys[n]);
      }
    }
  }

  lemma {:induction false} DedupeStep(keys: seq<NodeKey>, i: nat)
    requires i < |keys|
    ensures Dedupe(keys[..i + 1]) == if keys[i] in Dedupe(keys[..i]) then Dedupe(keys[..i]) else Dedupe(keys[..i]) + [keys[i]]
  {
    assert keys[..i + 1][..i] == keys[..i];
  }

  ghost function RootOf(owners: Owners, node: NodeKey): (root: NodeKey)
    requires Acyclic(owners)
    ensures IsRootOf(owners, root, node)
  {
    RootExists(owners, node);
    var root :| IsRootOf(owners, root, node);
    root
  }

  lemma {:induction false} RootExists(owners: Owners, node: NodeKey)
    requires Acyclic(owners)
    ensures exists root :: IsRootOf(owners, root, node)
  {
    AcyclicIsRooted(owners);
    assert Rooted(owners, node);
    var n: nat :| Ancestor(owners, node, n) == None;
    TopBelow(owners, node, n);
  }

  lemma {:induction false} TopBelow(owners: Owners, node: NodeKey, n: nat)
    requires Ancestor(owners, node, n) == None
    ensures exists root :: IsRootOf(owners, root, node)
  {
    if n > 0 {
      var below := Ancestor(owners, node, n - 1);
      if below == None {
        TopBelow(owners, node, n - 1);
      } else {
        assert InBranch(owners, below.value, node);
        assert IsRootOf(owners, below.value, node);
      }
    }
  }

  /** A node nothing owns is its own root. */
  lemma {:induction false} UnownedIsRoot(owners: Owners, node: NodeKey)
    requires Acyclic(owners) && node !in owners
    ensures RootOf(owners, node) == node
  {
    assert Ancestor(owners, node, 0) == Some(node);
    RootUnique(owners, RootOf(owners, node), node, node);
  }

  ghost function Roots(owners: Owners, keys: seq<NodeKey>): (roots: seq<NodeKey>)
    requires Acyclic(owners)
    ensures |roots| == |keys| && forall i :: 0 <= i < |keys| ==> roots[i] == RootOf(owners, keys[i])
  {
    seq(|keys|, i requires 0 <= i < |keys| => RootOf(owners, keys[i]))
  }

  /** The branch locks of a write set: the top owners of everything it touches, each once, in ascending order. */
  ghost function TouchedBranches(owners: Owners, keys: seq<NodeKey>): seq<NodeKey>
    requires Acyclic(owners)
  {
    SortKeys(Dedupe(Roots(owners, keys)))
  }

  lemma {:induction false} BranchesExact(owners: Owners, keys: seq<NodeKey>)
    requires Acyclic(owners)
    ensures Ascending(TouchedBranches(owners, keys))
    ensures forall r :: r in TouchedBranches(owners, keys) <==> r in Roots(owners, keys)
    ensures forall k :: k in keys ==> RootOf(owners, k) in TouchedBranches(owners, keys)
  {
    DedupeKeeps(Roots(owners, keys));
    SortAscends(Dedupe(Roots(owners, keys)));
    forall k | k in keys ensures RootOf(owners, k) in Roots(owners, keys) {
      var i :| 0 <= i < |keys| && keys[i] == k;
      assert Roots(owners, keys)[i] == RootOf(owners, k);
    }
  }

  method LockTouchedBranches(owners: Owners, resources: seq<NodeKey>) returns (roots: seq<NodeKey>)
    requires Acyclic(owners)
    ensures roots == TouchedBranches(owners, resources)
    ensures Ascending(roots) && forall r :: r in roots <==> exists k :: k in resources && IsRootOf(owners, r, k)
  {
    hide Acyclic, IsRootOf, Ascending, Distinct;
    ghost var all := Roots(owners, resources);
    roots := [];
    var i := 0;
    while i < |resources|
      invariant 0 <= i <= |resources| && roots == Dedupe(all[..i])
    {
      var root := CommittedOwnershipRoot(owners, resources[i]);
      RootUnique(owners, root, all[i], resources[i]);
      DedupeStep(all, i);
      if root !in roots {
        roots := roots + [root];
      }
      i := i + 1;
    }
    assert all[..i] == all;
    BranchesExact(owners, resources);
    RootsAre(owners, resources);
    roots := SortKeys(roots);
  }

  lemma {:induction false} RootsAre(owners: Owners, keys: seq<NodeKey>)
    requires Acyclic(owners)
    ensures forall r :: r in Roots(owners, keys) <==> exists k :: k in keys && IsRootOf(owners, r, k)
  {
    hide Acyclic;
    forall r ensures r in Roots(owners, keys) <==> exists k :: k in keys && IsRootOf(owners, r, k) {
      if r in Roots(owners, keys) {
        var i :| 0 <= i < |keys| && Roots(owners, keys)[i] == r;
        assert keys[i] in keys && IsRootOf(owners, r, keys[i]);
      }
      if k :| k in keys && IsRootOf(owners, r, k) {
        var i :| 0 <= i < |keys| && keys[i] == k;
        RootUnique(owners, r, RootOf(owners, k), k);
        assert Roots(owners, keys)[i] == r;
      }
    }
  }

  /** The row locks of a commit: every written row, then every deleted row it did not itself create, each once, ascending. */
  method TransactionResourceLocks(touched: seq<NodeKey>, creates: set<NodeKey>, deletes: seq<NodeKey>) returns (locks: seq<NodeKey>)
    requires Distinct(touched)
    ensures Ascending(locks) && forall k :: k in locks <==> k in touched || (k in deletes && k !in creates)
    ensures deletes == [] ==> locks == SortKeys(touched)
  {
    var listed := touched;
    var i := 0;
    while i < |deletes|
      invariant 0 <= i <= |deletes| && Distinct(listed) && (deletes == [] ==> listed == touched)
      invariant forall k :: k in listed <==> k in touched || (k in deletes[..i] && k !in creates)
    {
      assert deletes[..i + 1] == deletes[..i] + [deletes[i]];
      if deletes[i] !in creates && deletes[i] !in listed {
        DistinctAppend(listed, deletes[i]);
        listed := listed + [deletes[i]];
      }
      i := i + 1;
    }
    assert deletes[..i] == deletes;
    SortAscends(listed);
    locks := SortKeys(listed);
  }

  function TableKeys(indexed: set<string>, touched: seq<NodeKey>): seq<NodeKey> {
    if touched == [] then []
    else
      var last := touched[|touched| - 1];
      TableKeys(indexed, touched[..|touched| - 1]) + if last.typ in indexed then [NodeKey(last.typ, 0)] else []
  }

  /** The structure locks of a write set: its tables that carry secondary indexes, each once, ascending by name. */
  function TouchedTables(indexed: set<string>, touched: seq<NodeKey>): seq<NodeKey> {
    SortKeys(Dedupe(TableKeys(indexed, touched)))
  }

  lemma {:induction false} TablesAscend(indexed: set<string>, touched: seq<NodeKey>)
    ensures Ascending(TouchedTables(indexed, touched))
  {
    DedupeKeeps(TableKeys(indexed, touched));
    SortAscends(Dedupe(TableKeys(indexed, touched)));
  }
}
