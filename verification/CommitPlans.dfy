/** Which locks a session holds once it has them all, read off its goal: by table, by row, and by the top of each branch. */
module CommitPlans {
  import opened Wrappers
  import opened RelationSchema
  import opened Ordering
  import opened OwnershipForest
  import opened OwnershipWalks
  import opened CommitLocks
  import opened CommitProtocol
  import opened CommitSafety
  import opened CommitReaders

  /** The table has secondary indexes and the commit writes one of its rows. */
  ghost predicate WritesTable(s: State, touched: seq<NodeKey>, typ: string) {
    typ in s.indexed && exists k :: k in touched && k.typ == typ
  }

  ghost predicate WritesParticipant(s: State, touched: seq<NodeKey>) {
    exists k :: k in touched && k.typ in s.participants
  }

  /** The top of a chain of owners: following them from `k` leads to `top`, which nobody owns. */
  ghost predicate TopOf(s: State, top: NodeKey, k: NodeKey) {
    top !in s.owners && exists n: nat :: Ancestor(s.owners, k, n) == Some(top)
  }

  /** What an update holds: the graph, to write if its relations change and to read if only a participant's row does; its indexed tables, its
      branches and its rows, all to write. */
  ghost predicate UpdateHolds(s: State, touched: seq<NodeKey>, regraph: bool, c: Claim) {
    match c.lock.level
    case 0 => c.lock.key == NodeKey("", 0) && (if regraph then c.mode.Write? else c.mode.Read? && WritesParticipant(s, touched))
    case 1 => c.mode.Write? && c.lock.key.id == 0 && WritesTable(s, touched, c.lock.key.typ)
    case 2 => c.mode.Write? && exists k :: k in touched && TopOf(s, c.lock.key, k)
    case 3 => c.mode.Write? && c.lock.key in touched
    case _ => false
  }

  lemma {:induction false} ClaimsHave(level: nat, mode: Mode, keys: seq<NodeKey>, c: Claim)
    ensures c in Claims(level, mode, keys) <==> c.lock.level == level && c.mode == mode && c.lock.key in keys
  {
    var claims := Claims(level, mode, keys);
    if c in claims {
      var i :| 0 <= i < |claims| && claims[i] == c;
      assert keys[i] in keys;
    }
    if c.lock.level == level && c.mode == mode && c.lock.key in keys {
      var i :| 0 <= i < |keys| && keys[i] == c.lock.key;
      assert claims[i] == c;
    }
  }

  lemma {:induction false} SortedSame(keys: seq<NodeKey>, k: NodeKey)
    ensures k in SortKeys(keys) <==> k in keys
  {
    SameElements(SortKeys(keys), keys);
  }

  lemma {:induction false} TableKeysHave(indexed: set<string>, touched: seq<NodeKey>, t: NodeKey)
    ensures t in TableKeys(indexed, touched) <==> t.id == 0 && t.typ in indexed && exists k :: k in touched && k.typ == t.typ
  {
    if touched != [] {
      var n := |touched| - 1;
      TableKeysHave(indexed, touched[..n], t);
      assert touched == touched[..n] + [touched[n]];
    }
  }

  lemma {:induction false} TablesHave(s: State, touched: seq<NodeKey>, t: NodeKey)
    ensures t in TouchedTables(s.indexed, touched) <==> t.id == 0 && WritesTable(s, touched, t.typ)
  {
    hide TableKeys, Dedupe, SortKeys;
    TableKeysHave(s.indexed, touched, t);
    DedupeKeeps(TableKeys(s.indexed, touched));
    SortedSame(Dedupe(TableKeys(s.indexed, touched)), t);
  }

  lemma {:induction false} BranchesHave(s: State, touched: seq<NodeKey>, root: NodeKey)
    requires Acyclic(s.owners)
    ensures root in TouchedBranches(s.owners, touched) <==> exists k :: k in touched && TopOf(s, root, k)
  {
    hide Acyclic, Dedupe, SortKeys, Ancestor;
    RootsAre(s.owners, touched);
    DedupeKeeps(Roots(s.owners, touched));
    SortedSame(Dedupe(Roots(s.owners, touched)), root);
    forall k ensures IsRootOf(s.owners, root, k) <==> TopOf(s, root, k) {
    }
  }

  lemma {:induction false} GraphHas(s: State, touched: seq<NodeKey>, regraph: bool, c: Claim)
    ensures c in GraphClaims(s, Update(touched, regraph)) <==>
            && c.lock.level == 0 && c.lock.key == NodeKey("", 0)
            && (if regraph then c.mode.Write? else c.mode.Read? && WritesParticipant(s, touched))
  {
    if k :| k in touched && k.typ in s.participants {
      var i :| 0 <= i < |touched| && touched[i] == k;
    }
    if exists i :: 0 <= i < |touched| && touched[i].typ in s.participants {
      var i :| 0 <= i < |touched| && touched[i].typ in s.participants;
      assert touched[i] in touched;
    }
    assert c.lock == GRAPH <==> c.lock.level == 0 && c.lock.key == NodeKey("", 0);
  }

  lemma {:induction false} PlanHas(s: State, touched: seq<NodeKey>, regraph: bool, c: Claim)
    requires Acyclic(s.owners)
    ensures c in Plan(s, Update(touched, regraph)) <==>
            || (c.lock.level == 1 && c.mode.Write? && c.lock.key.id == 0 && WritesTable(s, touched, c.lock.key.typ))
            || (c.lock.level == 2 && c.mode.Write? && exists k :: k in touched && TopOf(s, c.lock.key, k))
            || (c.lock.level == 3 && c.mode.Write? && c.lock.key in touched)
  {
    hide Acyclic, TouchedTables, TouchedBranches, SortKeys, Claims, TopOf, WritesTable;
    ClaimsHave(1, Write, TouchedTables(s.indexed, touched), c);
    ClaimsHave(2, Write, TouchedBranches(s.owners, touched), c);
    ClaimsHave(3, Write, SortKeys(touched), c);
    TablesHave(s, touched, c.lock.key);
    BranchesHave(s, touched, c.lock.key);
    SortedSame(touched, c.lock.key);
  }

  /** An update past acquiring holds exactly those locks. */
  lemma {:induction false} UpdateLocks(s: State, p: int, c: Claim)
    requires Locked(s) && p in s.procs && InSession(s.procs[p].stage) && !s.procs[p].stage.Acquiring? && s.procs[p].goal.Update?
    ensures c in s.procs[p].held <==> UpdateHolds(s, s.procs[p].goal.touched, s.procs[p].goal.regraph, c)
  {
    hide Acyclic, Climbing, GoalFits, GraphClaims, Plan, TopOf, WritesTable, WritesParticipant, Exclusive;
    var proc := s.procs[p];
    assert Session(s, proc) && proc.held + [] == proc.held;
    GraphHas(s, proc.goal.touched, proc.goal.regraph, c);
    PlanHas(s, proc.goal.touched, proc.goal.regraph, c);
  }

  /** What a session that only looks holds: its rows to write while they are copied, the one branch or row it views, or its table and the rows it
      lists, to read; and the graph, to read, where relations are in play. */
  ghost predicate LookHolds(s: State, g: Goal, c: Claim) {
    match g
    case Update(_, _) => false
    case Fetch(keys) => (c.mode.Read? && c.lock == Lock(0, NodeKey("", 0))) || (c.mode.Write? && c.lock.level == 3 && c.lock.key in keys)
    case ViewBranch(node) =>
      c.mode.Read? && if node.typ in s.participants then c.lock == Lock(0, NodeKey("", 0)) || (c.lock.level == 2 && TopOf(s, c.lock.key, node))
                      else c.lock == Lock(3, node)
    case ViewRows(typ, keys) =>
      c.mode.Read? && ((typ in s.participants && c.lock == Lock(0, NodeKey("", 0))) || c.lock == Lock(1, NodeKey(typ, 0)) || (c.lock.level == 3 && c.lock.key in keys))
  }

  lemma {:induction false} LookLocks(s: State, p: int, c: Claim)
    requires Locked(s) && p in s.procs && s.procs[p].stage.Looking?
    ensures c in s.procs[p].held <==> LookHolds(s, s.procs[p].goal, c)
  {
    hide Acyclic, Climbing, GoalFits, Exclusive, SortKeys, Claims, Ancestor;
    var proc := s.procs[p];
    assert Session(s, proc) && proc.held + [] == proc.held;
    match proc.goal {
      case Fetch(keys) =>
        ClaimsHave(3, Write, SortKeys(keys), c);
        SortedSame(keys, c.lock.key);
      case ViewBranch(node) =>
        if node.typ in s.participants {
          ClaimsHave(2, Read, [RootOf(s.owners, node)], c);
          if TopOf(s, c.lock.key, node) {
            RootUnique(s.owners, c.lock.key, RootOf(s.owners, node), node);
          }
        } else {
          ClaimsHave(3, Read, [node], c);
        }
      case ViewRows(typ, keys) =>
        ClaimsHave(1, Read, [NodeKey(typ, 0)], c);
        ClaimsHave(3, Read, SortKeys(keys), c);
        SortedSame(keys, c.lock.key);
      case Update(_, _) =>
    }
  }

  /** Locks are taken by level, then by type name, then by id. */
  lemma {:induction false} HeldInOrder(s: State, p: int, i: nat, j: nat)
    requires Locked(s) && p in s.procs && i < j < |s.procs[p].held|
    ensures var a, b := s.procs[p].held[i].lock, s.procs[p].held[j].lock;
            a.level < b.level || (a.level == b.level && (TextLess(a.key.typ, b.key.typ) || (a.key.typ == b.key.typ && a.key.id < b.key.id)))
  {
    hide Acyclic, GoalFits, Exclusive, Planned;
    var proc := s.procs[p];
    assert Session(s, proc);
    assert (proc.held + proc.todo)[i] == proc.held[i] && (proc.held + proc.todo)[j] == proc.held[j];
  }

  /** Readers share a lock, and a writer has it alone. */
  lemma {:induction false} LockShared(s: State, p: int, c: Claim)
    ensures Free(s, p, c) <==>
            forall q, other :: q in s.procs && q != p && other in s.procs[q].held && other.lock == c.lock ==> c.mode.Read? && other.mode.Read?
  {
    if Free(s, p, c) {
      forall q, other | q in s.procs && q != p && other in s.procs[q].held && other.lock == c.lock ensures c.mode.Read? && other.mode.Read? {
        assert !Conflict(c, other);
      }
    }
    if forall q, other :: q in s.procs && q != p && other in s.procs[q].held && other.lock == c.lock ==> c.mode.Read? && other.mode.Read? {
      forall q, other | q in s.procs && q != p && other in s.procs[q].held ensures !Conflict(c, other) {
      }
    }
  }

  /** Whoever views a branch relies on every row with the same top; whoever lists or copies rows on those. */
  lemma {:induction false} WatchesMeans(s: State, proc: Proc, k: NodeKey)
    requires Acyclic(s.owners) && proc.stage.Looking?
    ensures proc.goal.ViewBranch? ==> (Watches(s, proc, k) <==> exists top :: TopOf(s, top, k) && TopOf(s, top, proc.goal.node))
    ensures proc.goal.ViewRows? ==> (Watches(s, proc, k) <==> k in proc.goal.keys)
    ensures proc.goal.Fetch? ==> (Watches(s, proc, k) <==> k in proc.goal.keys)
  {
    hide Acyclic, Ancestor;
    if proc.goal.ViewBranch? {
      var a, b := RootOf(s.owners, k), RootOf(s.owners, proc.goal.node);
      assert TopOf(s, a, k) && TopOf(s, b, proc.goal.node);
      forall top | TopOf(s, top, k) ensures top == a {
        RootUnique(s.owners, top, a, k);
      }
      forall top | TopOf(s, top, proc.goal.node) ensures top == b {
        RootUnique(s.owners, top, b, proc.goal.node);
      }
    }
  }
}
