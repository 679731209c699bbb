/** Ownership as a partial map from child to owner, and the three walks that look for cycles in it. */
module OwnershipForest {
  import opened RelationSchema
  import opened Wrappers

  type Owners = map<NodeKey, NodeKey>

  function OwnerOf(owners: Owners, child: NodeKey): Option<NodeKey> {
    if child in owners then Some(owners[child]) else None
  }

  /** The node `n` ownership steps above `start`, if the chain is that long. */
  function Ancestor(owners: Owners, start: NodeKey, n: nat): Option<NodeKey> {
    if n == 0 then Some(start)
    else
      var below := Ancestor(owners, start, n - 1);
      if below.Some? then OwnerOf(owners, below.value) else None
  }

  /** The chain of owners above `start` ends at a node nothing owns. */
  ghost predicate Rooted(owners: Owners, start: NodeKey) {
    exists n: nat :: Ancestor(owners, start, n) == None
  }

  ghost predicate OnCycle(owners: Owners, node: NodeKey) {
    exists n: nat :: n > 0 && Ancestor(owners, node, n) == Some(node)
  }

  ghost predicate Acyclic(owners: Owners) {
    forall k :: !OnCycle(owners, k)
  }

  lemma {:induction false} AncestorSplit(owners: Owners, start: NodeKey, a: nat, b: nat)
    requires Ancestor(owners, start, a).Some?
    ensures Ancestor(owners, start, a + b) == Ancestor(owners, Ancestor(owners, start, a).value, b)
  {
    if b > 0 {
      AncestorSplit(owners, start, a, b - 1);
      assert a + b - 1 == a + (b - 1);
    }
  }

  lemma {:induction false} AncestorPrefix(owners: Owners, start: NodeKey, n: nat, m: nat)
    requires n <= m && Ancestor(owners, start, m).Some?
    ensures Ancestor(owners, start, n).Some?
  {
    if n < m {
      AncestorPrefix(owners, start, n, m - 1);
    }
  }

  /** A chain longer than the number of owned nodes must revisit one: the pigeonhole step. */
  lemma {:induction false} Revisits(owners: Owners, start: NodeKey) returns (i: nat, j: nat)
    requires Ancestor(owners, start, |owners| + 1).Some?
    ensures i < j <= |owners|
    ensures Ancestor(owners, start, i).Some? && Ancestor(owners, start, i) == Ancestor(owners, start, j)
  {
    var seen: set<NodeKey> := {};
    var m: nat := 0;
    while m <= |owners|
      invariant m <= |owners| + 1
      invariant seen <= owners.Keys && |seen| == m
      invariant forall k :: k in seen ==> exists n: nat :: n < m && Ancestor(owners, start, n) == Some(k)
    {
      AncestorPrefix(owners, start, m, |owners| + 1);
      AncestorPrefix(owners, start, m + 1, |owners| + 1);
      var at := Ancestor(owners, start, m).value;
      if at in seen {
        i :| i < m && Ancestor(owners, start, i) == Some(at);
        j := m;
        return;
      }
      seen := seen + {at};
      m := m + 1;
    }
    CardinalityOfSubset(seen, owners.Keys);
    assert false;
  }

  lemma {:induction false} CardinalityOfSubset<T>(a: set<T>, b: set<T>)
    requires a <= b
    ensures |a| <= |b|
  {
    if a != {} {
      var x :| x in a;
      CardinalityOfSubset(a - {x}, b - {x});
    }
  }

  /** Once a position repeats, the chain repeats with that period for ever. */
  lemma {:induction false} Periodic(owners: Owners, start: NodeKey, i: nat, j: nat, n: nat)
    requires i < j && Ancestor(owners, start, i).Some?
    requires Ancestor(owners, start, i) == Ancestor(owners, start, j)
    requires i <= n
    ensures Ancestor(owners, start, n).Some?
    ensures Ancestor(owners, start, n) == Ancestor(owners, start, n + (j - i))
  {
    if n > i {
      Periodic(owners, start, i, j, n - 1);
      assert n - 1 + (j - i) == n + (j - i) - 1;
      if n < j {
        AncestorPrefix(owners, start, n, j);
      } else {
        Periodic(owners, start, i, j, n - (j - i));
      }
    }
  }

  lemma {:induction false} PeriodicMany(owners: Owners, start: NodeKey, i: nat, j: nat, n: nat, times: nat)
    requires i < j && Ancestor(owners, start, i).Some?
    requires Ancestor(owners, start, i) == Ancestor(owners, start, j)
    requires i <= n
    ensures n + times * (j - i) >= n
    ensures Ancestor(owners, start, n) == Ancestor(owners, start, n + times * (j - i))
  {
    if times > 0 {
      PeriodicMany(owners, start, i, j, n, times - 1);
      assert n + times * (j - i) == n + (times - 1) * (j - i) + (j - i);
      Periodic(owners, start, i, j, n + (times - 1) * (j - i));
    }
  }

  /** A chain that never ends runs into a cycle, and a node on a cycle has an endless chain. */
  lemma {:induction false} UnrootedReachesCycle(owners: Owners, start: NodeKey)
    ensures !Rooted(owners, start) <==>
            exists n: nat :: Ancestor(owners, start, n).Some? && OnCycle(owners, Ancestor(owners, start, n).value)
  {
    if !Rooted(owners, start) {
      var i, j := Revisits(owners, start);
      AncestorSplit(owners, start, i, j - i);
      assert OnCycle(owners, Ancestor(owners, start, i).value);
    }
    if n: nat :| Ancestor(owners, start, n).Some? && OnCycle(owners, Ancestor(owners, start, n).value) {
      var at := Ancestor(owners, start, n).value;
      var p: nat :| p > 0 && Ancestor(owners, at, p) == Some(at);
      forall m: nat ensures Ancestor(owners, start, m).Some? {
        AncestorSplit(owners, start, n, p);
        if m <= n {
          AncestorPrefix(owners, start, m, n);
        } else {
          Periodic(owners, start, n, n + p, m);
        }
      }
    }
  }

  /** Acyclic is the same as: every chain of owners ends. */
  lemma {:induction false} AcyclicIsRooted(owners: Owners)
    ensures Acyclic(owners) <==> forall k :: Rooted(owners, k)
  {
    if Acyclic(owners) {
      forall k ensures Rooted(owners, k) {
        UnrootedReachesCycle(owners, k);
      }
    } else {
      var k :| OnCycle(owners, k);
      assert exists n: nat :: Ancestor(owners, k, n).Some? && OnCycle(owners, Ancestor(owners, k, n).value) by {
        assert Ancestor(owners, k, 0) == Some(k);
      }
      UnrootedReachesCycle(owners, k);
    }
  }

  /** Why it is enough to walk from the changed children: a new cycle has to pass through one. */
  lemma {:induction false} CycleThroughChange(before: Owners, after: Owners, changed: set<NodeKey>)
    requires Acyclic(before)
    requires forall k :: k !in changed ==> OwnerOf(before, k) == OwnerOf(after, k)
    ensures Acyclic(after) <==> forall k :: k in changed ==> Rooted(after, k)
  {
    AcyclicIsRooted(before);
    AcyclicIsRooted(after);
    if forall k :: k in changed ==> Rooted(after, k) {
      forall start ensures Rooted(after, start) {
        if n: nat :| Ancestor(after, start, n).Some? && Ancestor(after, start, n).value in changed {
          var at := Ancestor(after, start, n).value;
          var m: nat :| Ancestor(after, at, m) == None;
          AncestorSplit(after, start, n, m);
          assert Ancestor(after, start, n + m) == None;
        } else {
          assert Rooted(before, start);
          var m: nat :| Ancestor(before, start, m) == None;
          SameChain(before, after, changed, start, m);
        }
      }
    }
  }

  lemma {:induction false} SameChain(before: Owners, after: Owners, changed: set<NodeKey>, start: NodeKey, n: nat)
    requires forall k :: k !in changed ==> OwnerOf(before, k) == OwnerOf(after, k)
    requires forall m: nat :: Ancestor(after, start, m).Some? ==> Ancestor(after, start, m).value !in changed
    ensures Ancestor(before, start, n) == Ancestor(after, start, n)
  {
    if n > 0 {
      SameChain(before, after, changed, start, n - 1);
    }
  }

  // ---------------------------------------------------------------- the Floyd walk

  /** A pending change of owner, as the index delta records it. `None` means no owner. */
  type OwnerChanges = map<NodeKey, Option<NodeKey>>

  function EffectiveOwner(owners: Owners, changes: OwnerChanges, child: NodeKey): Option<NodeKey> {
    if child in changes then changes[child] else OwnerOf(owners, child)
  }

  /** The owners map once every pending change is applied. */
  function Overlay(owners: Owners, changes: OwnerChanges): (after: Owners)
    ensures forall k :: OwnerOf(after, k) == EffectiveOwner(owners, changes, k)
  {
    map k | k in owners.Keys + changes.Keys && EffectiveOwner(owners, changes, k).Some?
      :: EffectiveOwner(owners, changes, k).value
  }

  /** When an endless chain lets slow and fast meet: a multiple of the period, past the chain's tail. */
  ghost function MeetingPoint(i: nat, j: nat): (k: nat)
    requires i < j
    ensures k > 0 && k >= i
  {
    assert (j - i - 1) * (i + 1) >= 0;
    assert (j - i) * (i + 1) == (j - i - 1) * (i + 1) + i + 1;
    (j - i) * (i + 1)
  }

  lemma {:induction false} SlowMeetsFast(owners: Owners, start: NodeKey, i: nat, j: nat)
    requires i < j && Ancestor(owners, start, i).Some?
    requires Ancestor(owners, start, i) == Ancestor(owners, start, j)
    ensures var k := MeetingPoint(i, j); Ancestor(owners, start, k) == Ancestor(owners, start, 2 * k)
  {
    var k := MeetingPoint(i, j);
    PeriodicMany(owners, start, i, j, k, i + 1);
    assert (i + 1) * (j - i) == k;
  }

  /** Two pointers at one and two steps: refuses exactly the starts whose chain never ends. */
  method ValidateOwnerChain(owners: Owners, changes: OwnerChanges, start: NodeKey) returns (ok: bool)
    ensures ok <==> Rooted(Overlay(owners, changes), start)
  {
    ghost var after := Overlay(owners, changes);
    ghost var bound: nat := 0;
    if Rooted(after, start) {
      bound :| Ancestor(after, start, bound) == None;
    } else {
      var i, j := Revisits(after, start);
      SlowMeetsFast(after, start, i, j);
      bound := MeetingPoint(i, j);
    }
    var slow, fast := start, start;
    ghost var k: nat := 0;
    while true
      invariant Ancestor(after, start, k) == Some(slow)
      invariant Ancestor(after, start, 2 * k) == Some(fast)
      invariant k <= bound
      invariant k > 0 ==> slow != fast
      invariant Rooted(after, start) ==> Ancestor(after, start, bound) == None
      invariant !Rooted(after, start) ==> bound > 0 && Ancestor(after, start, bound) == Ancestor(after, start, 2 * bound)
      decreases bound - k
    {
      if k == bound {
        assert false;
      }
      var up := EffectiveOwner(owners, changes, slow);
      if up == None {
        assert Ancestor(after, start, k + 1) == None;
        return true;
      }
      slow := up.value;
      up := EffectiveOwner(owners, changes, fast);
      if up == None {
        assert Ancestor(after, start, 2 * k + 1) == None;
        return true;
      }
      fast := up.value;
      up := EffectiveOwner(owners, changes, fast);
      if up == None {
        assert Ancestor(after, start, 2 * k + 2) == None;
        return true;
      }
      fast := up.value;
      k := k + 1;
      assert Ancestor(after, start, 2 * k - 1).Some?;
      assert Ancestor(after, start, 2 * k) == Some(fast);
      if slow == fast {
        MeetingIsCycle(after, start, k);
        return false;
      }
    }
  }

  lemma {:induction false} MeetingIsCycle(owners: Owners, start: NodeKey, k: nat)
    requires k > 0 && Ancestor(owners, start, k).Some?
    requires Ancestor(owners, start, k) == Ancestor(owners, start, 2 * k)
    ensures !Rooted(owners, start)
  {
    forall m: nat ensures Ancestor(owners, start, m).Some? {
      if m < k {
        AncestorPrefix(owners, start, m, k);
      } else {
        Periodic(owners, start, k, 2 * k, m);
      }
    }
  }
}
