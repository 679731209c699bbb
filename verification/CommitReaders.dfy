/** Readers against writers: what a reader holds keeps still, and nobody waits in a circle. */
module CommitReaders {
  import opened Wrappers
  import opened RelationSchema
  import opened Ordering
  import opened OwnershipForest
  import opened CommitLocks
  import opened CommitProtocol
  import opened CommitSafety
  import opened CommitHistory
  import opened CommitLog

  /** The rows a session under its read (or fetch) locks relies on: the whole ownership branch, or the listed rows. */
  ghost predicate Watches(s: State, proc: Proc, k: NodeKey)
    requires Acyclic(s.owners)
  {
    && proc.stage.Looking?
    && match proc.goal
       case ViewBranch(node) => RootOf(s.owners, k) == RootOf(s.owners, node)
       case ViewRows(_, keys) => k in keys
       case Fetch(keys) => k in keys
       case Update(_, _) => false
  }

  /** The lock a watched row is protected by. */
  ghost function Guard(s: State, g: Goal, k: NodeKey): Claim
    requires Acyclic(s.owners) && !g.Update?
  {
    match g
    case ViewBranch(node) => if node.typ in s.participants then Claim(Branch(RootOf(s.owners, node)), Read) else Claim(Row(node), Read)
    case ViewRows(_, _) => Claim(Row(k), Read)
    case Fetch(_) => Claim(Row(k), Write)
  }

  lemma {:induction false} GuardPlanned(s: State, proc: Proc, k: NodeKey)
    requires Acyclic(s.owners) && !proc.goal.Update? && Watches(s, proc, k)
    ensures Guard(s, proc.goal, k) in Plan(s, proc.goal)
  {
    hide Acyclic, SortKeys;
    match proc.goal {
      case ViewBranch(node) =>
        assert Plan(s, proc.goal)[0] == Guard(s, proc.goal, k);
      case ViewRows(typ, keys) =>
        SameElements(SortKeys(keys), keys);
        var i :| 0 <= i < |SortKeys(keys)| && SortKeys(keys)[i] == k;
        assert Claims(3, Read, SortKeys(keys))[i] == Guard(s, proc.goal, k);
      case Fetch(keys) =>
        RowPlanned(s, proc.goal, k);
    }
  }

  lemma {:induction false} BranchPlanned(s: State, g: Goal, k: NodeKey)
    requires Acyclic(s.owners) && g.Update? && k in g.touched
    ensures Claim(Branch(RootOf(s.owners, k)), Write) in Plan(s, g)
  {
    hide Acyclic, SortKeys, TouchedTables, TouchedBranches;
    BranchesExact(s.owners, g.touched);
    var roots := TouchedBranches(s.owners, g.touched);
    var i :| 0 <= i < |roots| && roots[i] == RootOf(s.owners, k);
    assert Claims(2, Write, roots)[i] == Claim(Branch(RootOf(s.owners, k)), Write);
  }

  /** A node outside the relation graph is a branch of its own. */
  lemma {:induction false} LoneBranch(s: State, node: NodeKey, k: NodeKey)
    requires Forest(s) && node.typ !in s.participants && RootOf(s.owners, k) == RootOf(s.owners, node)
    ensures k == node
  {
    hide Acyclic;
    UnownedIsRoot(s.owners, node);
    var n: nat :| Ancestor(s.owners, k, n) == Some(node);
    assert n > 0 ==> Ancestor(s.owners, k, n - 1).Some?;
  }

  /** What a writer of row `k` holds against this reader. */
  ghost function Against(s: State, g: Goal, k: NodeKey): Claim
    requires Acyclic(s.owners)
  {
    if g.ViewBranch? && g.node.typ in s.participants then Claim(Branch(RootOf(s.owners, k)), Write) else Claim(Row(k), Write)
  }

  lemma {:induction false} GuardConflicts(s: State, proc: Proc, k: NodeKey)
    requires Forest(s) && !proc.goal.Update? && Watches(s, proc, k)
    ensures Conflict(Against(s, proc.goal, k), Guard(s, proc.goal, k))
  {
    if proc.goal.ViewBranch? && proc.goal.node.typ !in s.participants {
      LoneBranch(s, proc.goal.node, k);
    }
    hide Acyclic;
  }

  lemma {:induction false} Apart(s: State, p: int, v: int, c: Claim, d: Claim)
    requires Exclusive(s) && p in s.procs && v in s.procs && p != v && c in s.procs[p].held && d in s.procs[v].held
    ensures !Conflict(c, d)
  {
  }

  /** Nobody is writing what a reader watches. */
  lemma {:induction false} WatchersExclude(s: State, v: int, p: int, k: NodeKey)
    requires Locked(s) && v in s.procs && p in s.procs && v != p && Watches(s, s.procs[v], k)
    requires Committing(s.procs[p].stage) && s.procs[p].goal.Update?
    ensures k !in s.procs[p].goal.touched
  {
    hide Acyclic, Session, Plan, GraphClaims, Guard, Exclusive, Conflict;
    if k in s.procs[p].goal.touched {
      var reader, writer := s.procs[v], s.procs[p];
      HoldsPlan(s, reader);
      HoldsPlan(s, writer);
      GuardPlanned(s, reader, k);
      GuardConflicts(s, reader, k);
      BranchPlanned(s, writer.goal, k);
      RowPlanned(s, writer.goal, k);
      Apart(s, p, v, Against(s, reader.goal, k), Guard(s, reader.goal, k));
    }
  }

  /** While a reader looks, no step of anybody changes a row it watches, none of them is half written, and the branch
      it watches is not regrouped under it. */
  lemma {:induction false} ReadersSeeStill(states: seq<State>, actions: seq<Action>, i: nat, v: int, k: NodeKey)
    requires Run(states, actions) && i < |actions| && Acyclic(states[i].owners)
    requires v in states[i].procs && Watches(states[i], states[i].procs[v], k) && k in states[i].rows
    ensures !states[i].rows[k].torn
    ensures k in states[i + 1].rows && states[i + 1].rows[k] == states[i].rows[k]
    ensures var g := states[i].procs[v].goal;
            g.ViewBranch? && g.node.typ in states[i].participants ==> states[i + 1].owners == states[i].owners
  {
    RunSafe(states, actions, i);
    hide Acyclic, Enabled, Step, Session, Exclusive, Consistent, Watches;
    var s, a := states[i], actions[i];
    StillNow(s, v, k);
    StillNext(s, a, v, k);
    OwnersStill(s, a, v, k);
  }

  lemma {:induction false} StillNow(s: State, v: int, k: NodeKey)
    requires Locked(s) && Consistent(s) && v in s.procs && Watches(s, s.procs[v], k) && k in s.rows
    ensures !s.rows[k].torn
  {
    hide Acyclic, Session, Exclusive;
    if s.rows[k].torn {
      var q :| TornBy(s, q, k);
      WatchersExclude(s, v, q, k);
    }
  }

  lemma {:induction false} StillNext(s: State, a: Action, v: int, k: NodeKey)
    requires Locked(s) && Consistent(s) && Enabled(s, a) && v in s.procs && Watches(s, s.procs[v], k) && k in s.rows
    ensures k in Step(s, a).rows && Step(s, a).rows[k] == s.rows[k]
  {
    hide Acyclic, Enabled, Step, Session, Exclusive, Consistent;
    StepFrame(s, a);
    if a.Store? || a.Bump? {
      WriteEffect(s, a);
      WriterFits(s, a);
      WatchersExclude(s, v, a.p, k);
    } else {
      QuietEffect(s, a);
    }
  }

  lemma {:induction false} OwnersStill(s: State, a: Action, v: int, k: NodeKey)
    requires Locked(s) && Enabled(s, a) && v in s.procs && Watches(s, s.procs[v], k)
    ensures var g := s.procs[v].goal;
            g.ViewBranch? && g.node.typ in s.participants ==> Step(s, a).owners == s.owners
  {
    var g := s.procs[v].goal;
    StepFrame(s, a);
    if a.Publish? && g.ViewBranch? && g.node.typ in s.participants {
      PublishAlone(s, a, v);
    }
    hide Acyclic, Session, Exclusive, Step, Moved, GraphClaims;
  }

  lemma {:induction false} PublishAlone(s: State, a: Action, v: int)
    requires Locked(s) && Enabled(s, a) && a.Publish? && v in s.procs && v != a.p && InSession(s.procs[v].stage)
    ensures GraphClaims(s, s.procs[v].goal) == []
  {
    hide Acyclic, Climbing, Plan, Exclusive;
    HoldsPlan(s, s.procs[a.p]);
    assert s.procs[a.p].held[0] == Claim(GRAPH, Write);
    GraphFree(s, s.procs[v], a.p, v);
  }

  // ---------------------------------------------------------------- waiting

  /** The lock a blocked process stands in front of. */
  ghost function Wanted(s: State, proc: Proc): Option<Claim> {
    if proc.stage.Entering? && GraphClaims(s, proc.goal) != [] then Some(GraphClaims(s, proc.goal)[0])
    else if proc.stage.Acquiring? && proc.todo != [] then Some(proc.todo[0])
    else None
  }

  /** `p` waits for a holder in its way, for a writer queued ahead of it on the same lock, or for the log. */
  ghost predicate WaitsFor(s: State, p: int, q: int) {
    Blocks(s, p, q) || (p in s.procs && q in s.procs && p != q && QueuesBehind(s, s.procs[p], s.procs[q]))
  }

  /** `p` cannot step because of `q`. */
  ghost predicate Blocks(s: State, p: int, q: int) {
    && p in s.procs && q in s.procs && p != q
    && (HeldUp(s, s.procs[p], s.procs[q]) || (s.procs[p].stage.Deciding? && s.writer == Some(q)))
  }

  ghost predicate HeldUp(s: State, proc: Proc, other: Proc) {
    Wanted(s, proc).Some? && exists c :: c in other.held && Conflict(Wanted(s, proc).value, c)
  }

  ghost predicate QueuesBehind(s: State, proc: Proc, other: Proc) {
    var mine, theirs := Wanted(s, proc), Wanted(s, other);
    mine.Some? && theirs.Some? && mine.value.lock == theirs.value.lock && mine.value.mode == Read && theirs.value.mode == Write
  }

  /** Locks in ascending order, and readers of a lock before its writers. */
  predicate Below(a: Claim, b: Claim) {
    LockLess(a.lock, b.lock) || (a.lock == b.lock && a.mode == Read && b.mode == Write)
  }

  lemma {:induction false} BelowOrder(a: Claim, b: Claim, c: Claim)
    ensures !Below(a, a)
    ensures Below(a, b) && Below(b, c) ==> Below(a, c)
  {
    LockTotal(a.lock, a.lock);
    if LockLess(a.lock, b.lock) && LockLess(b.lock, c.lock) {
      LockTransitive(a.lock, b.lock, c.lock);
    }
  }

  /** Whoever holds one lock and waits for another waits further up. */
  lemma {:induction false} WaitClimbs(s: State, p: int, q: int)
    requires Locked(s) && LogFits(s) && WaitsFor(s, p, q) && (Wanted(s, s.procs[q]).Some? || s.procs[q].stage.Deciding?)
    ensures Wanted(s, s.procs[p]).Some?
    ensures Wanted(s, s.procs[q]).Some? ==> Below(Wanted(s, s.procs[p]).value, Wanted(s, s.procs[q]).value)
  {
    hide Acyclic, Exclusive, Planned, GoalFits, GraphClaims, LockLess;
    var proc, other := s.procs[p], s.procs[q];
    assert Session(s, other);
    if HeldUp(s, proc, other) && Wanted(s, other).Some? {
      var c :| c in other.held && Conflict(Wanted(s, proc).value, c);
      var i :| 0 <= i < |other.held| && other.held[i] == c;
      assert (other.held + other.todo)[i] == c && (other.held + other.todo)[|other.held|] == other.todo[0];
    }
  }

  /** A circle of processes each waiting for the next. */
  ghost predicate WaitCycle(s: State, circle: seq<int>) {
    |circle| > 1 && circle[0] == circle[|circle| - 1] && forall i :: 0 <= i < |circle| - 1 ==> WaitsFor(s, circle[i], circle[i + 1])
  }

  lemma {:induction false} ChainClimbs(s: State, chain: seq<int>, n: nat)
    requires Locked(s) && LogFits(s) && 0 < n < |chain| - 1
    requires forall i :: 0 <= i < |chain| - 1 ==> WaitsFor(s, chain[i], chain[i + 1])
    ensures chain[0] in s.procs && chain[n] in s.procs
    ensures Wanted(s, s.procs[chain[0]]).Some?
    ensures Wanted(s, s.procs[chain[n]]).Some? ==> Below(Wanted(s, s.procs[chain[0]]).value, Wanted(s, s.procs[chain[n]]).value)
  {
    hide Locked, LogFits, Wanted, HeldUp, QueuesBehind, Below;
    assert WaitsFor(s, chain[0], chain[1]) && WaitsFor(s, chain[n], chain[n + 1]) && WaitsFor(s, chain[n - 1], chain[n]);
    WaiterWants(s, chain[n], chain[n + 1]);
    WaitClimbs(s, chain[n - 1], chain[n]);
    if n > 1 {
      ChainClimbs(s, chain, n - 1);
      if Wanted(s, s.procs[chain[n]]).Some? {
        BelowOrder(Wanted(s, s.procs[chain[0]]).value, Wanted(s, s.procs[chain[n - 1]]).value, Wanted(s, s.procs[chain[n]]).value);
      }
    }
  }

  lemma {:induction false} WaiterWants(s: State, p: int, q: int)
    requires WaitsFor(s, p, q)
    ensures Wanted(s, s.procs[p]).Some? || s.procs[p].stage.Deciding?
  {
    hide GraphClaims;
  }

  /** At no moment of any run do processes wait for each other in a circle. */
  lemma {:induction false} NoWaitCycle(states: seq<State>, actions: seq<Action>, i: nat, circle: seq<int>)
    requires Run(states, actions) && i < |states|
    ensures !WaitCycle(states[i], circle)
  {
    RunSafe(states, actions, i);
    RunDurable(states, actions, i);
    hide Run, Locked, Consistent, LogFits, Overlaid, WaitsFor, Wanted, Below;
    var s, m := states[i], |circle| - 1;
    if WaitCycle(s, circle) {
      assert WaitsFor(s, circle[0], circle[1]) && WaitsFor(s, circle[m - 1], circle[m]);
      NotSelf(s, circle[0], circle[1]);
      ChainClimbs(s, circle, m - 1);
      WaitClimbs(s, circle[m - 1], circle[0]);
      BelowOrder(Wanted(s, s.procs[circle[0]]).value, Wanted(s, s.procs[circle[m - 1]]).value, Wanted(s, s.procs[circle[0]]).value);
    }
  }

  lemma {:induction false} NotSelf(s: State, p: int, q: int)
    requires WaitsFor(s, p, q)
    ensures p != q && p in s.procs && q in s.procs
  {
    hide HeldUp, QueuesBehind;
  }

  // ---------------------------------------------------------------- progress

  /** The process can take a step of its own session; giving up for want of unique keys does not count. */
  ghost predicate CanMove(s: State, p: int) {
    exists a: Action :: a.p == p && Enabled(s, a) && !a.Start? && !a.Edit? && !(a.Decide? && !a.accepted)
  }

  lemma {:induction false} Moving(s: State, a: Action)
    requires Enabled(s, a) && !a.Start? && !a.Edit? && !(a.Decide? && !a.accepted)
    ensures CanMove(s, a.p)
  {
    hide Enabled;
  }

  /** Past the locks only the log can hold a process up. */
  lemma {:induction false} CommitterMoves(s: State, p: int)
    requires Locked(s) && Consistent(s) && LogFits(s) && p in s.procs && Committing(s.procs[p].stage)
    requires s.procs[p].stage.Deciding? ==> s.writer == None
    ensures CanMove(s, p)
  {
    hide Locked, Consistent, LogFits, CanMove;
    var stage := s.procs[p].stage;
    if stage.Logging? || stage.Applying? || stage.Publishing? {
      PublisherMoves(s, p);
    } else {
      CheckerMoves(s, p);
    }
  }

  lemma {:induction false} CheckerMoves(s: State, p: int)
    requires Locked(s) && Consistent(s) && p in s.procs
    requires s.procs[p].stage.Checking? || s.procs[p].stage.Refreshing? || (s.procs[p].stage.Deciding? && s.writer == None)
    ensures CanMove(s, p)
  {
    hide Acyclic, Exclusive, Planned, Climbing, CanMove, RowFits, Torn, Reads, MatchesFrom, GoalFits;
    var proc := s.procs[p];
    assert Session(s, proc) && Progress(s, proc);
    match proc.stage {
      case Checking(_) => Moving(s, Check(p));
      case Refreshing(key, _, read) =>
        Moving(s, if key == None then GiveUp(p) else if read == 1 then RefreshBase(p) else RefreshOriginal(p));
      case Deciding => Moving(s, Decide(p, true));
    }
  }

  lemma {:induction false} PublisherMoves(s: State, p: int)
    requires Locked(s) && Consistent(s) && LogFits(s) && p in s.procs
    requires s.procs[p].stage.Logging? || s.procs[p].stage.Applying? || s.procs[p].stage.Publishing?
    ensures CanMove(s, p)
  {
    hide Acyclic, Exclusive, Planned, Climbing, CanMove, RowFits, Torn, Reads, MatchesFrom;
    var proc := s.procs[p];
    assert Session(s, proc) && GoalFits(s, proc) && Progress(s, proc);
    SessionsHaveWork(s);
    match proc.stage {
      case Logging(n) =>
        assert s.writer == Some(p);
        Moving(s, if n < |proc.goal.touched| then LogRowOut(p) else CloseFrame(p));
      case Applying(n, stored) =>
        WriteReady(s, proc);
        ApplierMoves(s, p);
      case Publishing => Moving(s, Publish(p, s.owners));
    }
  }

  lemma {:induction false} ApplierMoves(s: State, p: int)
    requires p in s.procs && s.procs[p].stage.Applying? && GoalFits(s, s.procs[p]) && Progress(s, s.procs[p])
    requires s.procs[p].stage.n < |s.procs[p].goal.touched| ==> AtWrite(s, s.procs[p])
    ensures CanMove(s, p)
  {
    hide Acyclic, Exclusive, Planned, Climbing, CanMove, RowFits, Torn, Reads, MatchesFrom;
    var proc := s.procs[p];
    Moving(s, if proc.stage.n == |proc.goal.touched| then Applied(p) else if proc.stage.stored then Bump(p) else Store(p));
  }

  lemma {:induction false} WriteReady(s: State, proc: Proc)
    requires proc.stage.Applying? && proc.goal.Update? && GoalFits(s, proc) && s.rows.Keys == s.history.Keys
    ensures proc.stage.n < |proc.goal.touched| ==> AtWrite(s, proc)
  {
  }

  lemma {:induction false} WaiterMoves(s: State, p: int)
    requires Locked(s) && p in s.procs && (s.procs[p].stage.Entering? || s.procs[p].stage.Acquiring?)
    ensures CanMove(s, p) || (Wanted(s, s.procs[p]).Some? && exists q :: Blocks(s, p, q))
  {
    hide Acyclic, Exclusive, Session, CanMove, QueuesBehind;
    var proc := s.procs[p];
    if Wanted(s, proc) == None {
      Moving(s, if proc.stage.Entering? then Enter(p) else Proceed(p));
    } else {
      OneGraphClaim(s, proc.goal);
      var c := Wanted(s, proc).value;
      if Free(s, p, c) {
        Moving(s, if proc.stage.Entering? then Enter(p) else Acquire(p));
      } else {
        NotFree(s, p, c);
      }
    }
  }

  lemma {:induction false} OneGraphClaim(s: State, g: Goal)
    ensures |GraphClaims(s, g)| <= 1
  {
  }

  lemma {:induction false} NotFree(s: State, p: int, c: Claim)
    requires p in s.procs && Wanted(s, s.procs[p]) == Some(c) && !Free(s, p, c)
    ensures exists q :: Blocks(s, p, q)
  {
    var q, d :| q in s.procs && q != p && d in s.procs[q].held && Conflict(c, d);
    assert HeldUp(s, s.procs[p], s.procs[q]) && Blocks(s, p, q);
  }

  /** The waiters further up than `p`; everybody who waits, when `p` does not. */
  ghost function Higher(s: State, p: int): set<int>
    requires p in s.procs
  {
    set q | q in s.procs && Wanted(s, s.procs[q]).Some?
            && (Wanted(s, s.procs[p]) == None || Below(Wanted(s, s.procs[p]).value, Wanted(s, s.procs[q]).value))
  }

  lemma {:induction false} HigherShrinks(s: State, p: int, q: int)
    requires p in s.procs && q in s.procs && Wanted(s, s.procs[p]).Some? && Wanted(s, s.procs[q]).Some?
    requires Below(Wanted(s, s.procs[p]).value, Wanted(s, s.procs[q]).value)
    ensures |Higher(s, q)| < |Higher(s, p)|
  {
    hide Wanted, Below;
    var mine, theirs := Wanted(s, s.procs[p]).value, Wanted(s, s.procs[q]).value;
    BelowOrder(theirs, theirs, theirs);
    forall r | r in Higher(s, q) ensures r in Higher(s, p) {
      BelowOrder(mine, theirs, Wanted(s, s.procs[r]).value);
    }
    assert q in Higher(s, p) && q !in Higher(s, q);
    CardinalityOfSubset(Higher(s, q), Higher(s, p) - {q});
  }

  ghost predicate Safe(s: State) {
    Locked(s) && Consistent(s) && LogFits(s)
  }

  lemma {:induction false} ReaderMoves(s: State, p: int)
    requires p in s.procs && (s.procs[p].stage.Looking? || s.procs[p].stage.Releasing?)
    ensures CanMove(s, p)
  {
    hide CanMove;
    Moving(s, if s.procs[p].stage.Looking? then Leave(p) else Release(p));
  }

  /** Follow whoever is in the way upwards: the search ends at a process that can take a step. */
  lemma {:induction false} SomeoneMovesFrom(s: State, p: int) returns (q: int)
    requires Safe(s) && p in s.procs && !s.procs[p].stage.Resting?
    ensures q in s.procs && CanMove(s, q)
    decreases |Higher(s, p)|
  {
    hide Locked, Consistent, LogFits, Higher, CanMove, Wanted, HeldUp, Below;
    var stage := s.procs[p].stage;
    if stage.Entering? || stage.Acquiring? {
      WaiterMoves(s, p);
      if CanMove(s, p) {
        return p;
      }
      var r :| Blocks(s, p, r);
      BlockerActive(s, p, r);
      if Wanted(s, s.procs[r]).Some? {
        WaitClimbs(s, p, r);
        HigherShrinks(s, p, r);
        q := SomeoneMovesFrom(s, r);
      } else {
        q := UnwaitingMoves(s, r);
      }
    } else {
      q := UnwaitingMoves(s, p);
    }
  }

  lemma {:induction false} BlockerActive(s: State, p: int, r: int)
    requires Locked(s) && Blocks(s, p, r) && (s.procs[p].stage.Entering? || s.procs[p].stage.Acquiring?)
    ensures r in s.procs && !s.procs[r].stage.Resting?
  {
    hide Acyclic, Exclusive, Planned, GoalFits, Climbing, Wanted;
    assert Session(s, s.procs[r]);
  }

  /** A process that waits for no lock can step itself, or stands before the log, whose writer can. */
  lemma {:induction false} UnwaitingMoves(s: State, p: int) returns (q: int)
    requires Safe(s) && p in s.procs && !s.procs[p].stage.Resting?
    requires s.procs[p].stage.Entering? || s.procs[p].stage.Acquiring? ==> Wanted(s, s.procs[p]) == None
    ensures q in s.procs && CanMove(s, q)
  {
    hide Locked, Consistent, CanMove, Wanted;
    var stage := s.procs[p].stage;
    q := p;
    if stage.Entering? || stage.Acquiring? {
      WaiterMoves(s, p);
    } else if stage.Looking? || stage.Releasing? {
      ReaderMoves(s, p);
    } else {
      if stage.Deciding? && s.writer.Some? {
        q := s.writer.value;
      }
      CommitterMoves(s, q);
    }
  }

  /** In every reachable state, if anybody is in the middle of something, somebody can go on with it. */
  lemma {:induction false} NoDeadlock(states: seq<State>, actions: seq<Action>, i: nat, p: int)
    requires Run(states, actions) && i < |states| && p in states[i].procs && !states[i].procs[p].stage.Resting?
    ensures exists q :: q in states[i].procs && CanMove(states[i], q)
  {
    RunSafe(states, actions, i);
    RunDurable(states, actions, i);
    hide Run, Locked, Consistent, LogFits, Overlaid, CanMove;
    var q := SomeoneMovesFrom(states[i], p);
  }

  lemma {:induction false} StuckBehind(s: State, p: int)
    requires Safe(s) && p in s.procs && !s.procs[p].stage.Resting?
    ensures CanMove(s, p) || exists q :: Blocks(s, p, q)
  {
    hide Locked, Consistent, CanMove, Wanted, HeldUp;
    var stage := s.procs[p].stage;
    if stage.Entering? || stage.Acquiring? {
      WaiterMoves(s, p);
    } else if stage.Looking? || stage.Releasing? {
      ReaderMoves(s, p);
    } else if stage.Deciding? && s.writer.Some? {
      assert Blocks(s, p, s.writer.value);
    } else {
      CommitterMoves(s, p);
    }
  }

  /** In every reachable state whoever is in the middle of something and cannot go on waits for somebody. */
  lemma {:induction false} StuckWaits(states: seq<State>, actions: seq<Action>, i: nat, p: int)
    requires Run(states, actions) && i < |states| && p in states[i].procs && !states[i].procs[p].stage.Resting?
    ensures CanMove(states[i], p) || exists q :: WaitsFor(states[i], p, q)
  {
    RunSafe(states, actions, i);
    RunDurable(states, actions, i);
    hide Run, Locked, Consistent, LogFits, Overlaid, CanMove, Blocks, QueuesBehind;
    StuckBehind(states[i], p);
    if q :| Blocks(states[i], p, q) {
      assert WaitsFor(states[i], p, q);
    }
  }
}
