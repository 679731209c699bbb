/** What every step of the commit protocol keeps. */
module CommitSafety {
  import opened RelationSchema
  import opened Ordering
  import opened OwnershipForest
  import opened CommitLocks
  import opened CommitProtocol

  // ---------------------------------------------------------------- sessions and their locks

  ghost predicate Exclusive(s: State) {
    forall p, q, a, b {:trigger a in s.procs[p].held, b in s.procs[q].held} ::
      p in s.procs && q in s.procs && p != q && a in s.procs[p].held && b in s.procs[q].held ==> !Conflict(a, b)
  }

  ghost predicate Forest(s: State) {
    Acyclic(s.owners) && Participating(s.participants, s.owners)
  }

  predicate InSession(stage: Stage) {
    !stage.Resting? && !stage.Entering? && !stage.Releasing?
  }

  predicate Committing(stage: Stage) {
    stage.Checking? || stage.Refreshing? || stage.Deciding? || stage.Logging? || stage.Applying? || stage.Publishing?
  }

  /** The goal names distinct live rows; an update has a copy of each row it writes. */
  ghost predicate GoalFits(s: State, proc: Proc) {
    match proc.goal
    case Fetch(keys) => Distinct(keys) && forall k :: k in keys ==> k in s.rows
    case Update(touched, _) =>
      Distinct(touched) && (forall k :: k in touched ==> k in s.rows) && forall k :: k in touched ==> k in proc.snaps && k in proc.work
    case ViewBranch(node) => node in s.rows
    case ViewRows(typ, keys) => Distinct(keys) && forall k :: k in keys ==> k in s.rows && k.typ == typ
  }

  /** The graph lock comes first, then the plan, one claim at a time. */
  ghost predicate Planned(s: State, proc: Proc)
    requires Acyclic(s.owners)
  {
    proc.held + proc.todo == GraphClaims(s, proc.goal) + Plan(s, proc.goal) && |GraphClaims(s, proc.goal)| <= |proc.held|
  }

  ghost predicate Session(s: State, proc: Proc)
    requires Acyclic(s.owners)
  {
    && Climbing(proc.held + proc.todo)
    && (proc.stage.Resting? || proc.stage.Entering? ==> proc.held == [])
    && (!proc.stage.Acquiring? ==> proc.todo == [])
    && (InSession(proc.stage) ==> Planned(s, proc))
    && (proc.stage.Entering? || InSession(proc.stage) ==> GoalFits(s, proc))
    && (Committing(proc.stage) ==> proc.goal.Update?)
    && (proc.stage.Looking? ==> !proc.goal.Update?)
    && (proc.stage.Publishing? ==> proc.goal.regraph)
  }

  ghost predicate Sessions(s: State)
    requires Acyclic(s.owners)
  {
    forall p :: p in s.procs ==> Session(s, s.procs[p])
  }

  ghost predicate Locked(s: State) {
    Forest(s) && Exclusive(s) && Sessions(s)
  }

  lemma {:induction false} PlanClimbs(s: State, proc: Proc)
    requires Acyclic(s.owners) && GoalFits(s, proc)
    ensures Climbing(GraphClaims(s, proc.goal) + Plan(s, proc.goal))
  {
    hide Acyclic, Climbing, SortKeys, TouchedTables, TouchedBranches;
    GraphFirst(s, proc.goal);
    match proc.goal {
      case Fetch(keys) =>
        RowsClimb(Write, keys);
      case Update(touched, _) =>
        UpdateClimbs(s, touched);
      case ViewBranch(node) =>
        OneClimbs(if node.typ in s.participants then 2 else 3, if node.typ in s.participants then RootOf(s.owners, node) else node);
      case ViewRows(typ, keys) =>
        OneClimbs(1, NodeKey(typ, 0));
        RowsClimb(Read, keys);
        ClimbingJoin(Claims(1, Read, [NodeKey(typ, 0)]), Claims(3, Read, SortKeys(keys)), 2);
    }
    ClimbingJoin(GraphClaims(s, proc.goal), Plan(s, proc.goal), 1);
  }

  lemma {:induction false} GraphFirst(s: State, g: Goal)
    ensures Climbing(GraphClaims(s, g)) && forall c :: c in GraphClaims(s, g) ==> c.lock.level == 0
  {
  }

  lemma {:induction false} OneClimbs(level: nat, key: NodeKey)
    ensures Climbing(Claims(level, Read, [key]))
  {
  }

  lemma {:induction false} RowsClimb(mode: Mode, keys: seq<NodeKey>)
    requires Distinct(keys)
    ensures Climbing(Claims(3, mode, SortKeys(keys)))
  {
    SortAscends(keys);
    ClaimsClimb(3, mode, SortKeys(keys));
  }

  lemma {:induction false} UpdateClimbs(s: State, touched: seq<NodeKey>)
    requires Acyclic(s.owners) && Distinct(touched)
    ensures Climbing(Claims(1, Write, TouchedTables(s.indexed, touched)) + Claims(2, Write, TouchedBranches(s.owners, touched))
                     + Claims(3, Write, SortKeys(touched)))
  {
    hide Acyclic, Ascending, Climbing, TouchedTables, TouchedBranches;
    var tables, branches, rows := TouchedTables(s.indexed, touched), TouchedBranches(s.owners, touched), SortKeys(touched);
    TablesAscend(s.indexed, touched);
    BranchesExact(s.owners, touched);
    RowsClimb(Write, touched);
    ClaimsClimb(1, Write, tables);
    ClaimsClimb(2, Write, branches);
    ClimbingJoin(Claims(1, Write, tables), Claims(2, Write, branches), 2);
    ClimbingJoin(Claims(1, Write, tables) + Claims(2, Write, branches), Claims(3, Write, rows), 3);
  }

  /** The plan of a session that took no graph lock does not depend on who owns what. */
  lemma {:induction false} PlanWithoutGraph(s: State, s': State, proc: Proc)
    requires Forest(s) && Forest(s') && s'.participants == s.participants && s'.indexed == s.indexed
    requires GraphClaims(s, proc.goal) == []
    ensures Plan(s', proc.goal) == Plan(s, proc.goal)
  {
    hide Acyclic;
    if proc.goal.Update? {
      var touched := proc.goal.touched;
      forall i | 0 <= i < |touched| ensures RootOf(s.owners, touched[i]) == RootOf(s'.owners, touched[i]) {
        UnownedIsRoot(s.owners, touched[i]);
        UnownedIsRoot(s'.owners, touched[i]);
      }
      assert Roots(s.owners, touched) == Roots(s'.owners, touched);
    }
  }

  lemma {:induction false} PlanSame(s: State, s': State, g: Goal)
    requires Acyclic(s.owners) && s'.owners == s.owners && s'.participants == s.participants && s'.indexed == s.indexed
    ensures GraphClaims(s', g) == GraphClaims(s, g) && Plan(s', g) == Plan(s, g)
  {
    hide Acyclic, SortKeys, TouchedTables, TouchedBranches, Claims;
  }

  /** A process that is not moved keeps its session, whatever happens to the rows and the log. */
  lemma {:induction false} SessionElsewhere(s: State, s': State, proc: Proc)
    requires Acyclic(s.owners) && s'.owners == s.owners && s'.participants == s.participants && s'.indexed == s.indexed
    requires s'.rows.Keys == s.rows.Keys && Session(s, proc)
    ensures Session(s', proc)
  {
    hide Acyclic, Climbing, Plan, GraphClaims;
    PlanSame(s, s', proc.goal);
  }

  predicate Covers(g: Goal, k: NodeKey) {
    (g.Update? && k in g.touched) || (g.Fetch? && k in g.keys)
  }

  lemma {:induction false} RowPlanned(s: State, g: Goal, k: NodeKey)
    requires Acyclic(s.owners) && Covers(g, k)
    ensures Claim(Row(k), Write) in Plan(s, g)
  {
    hide Acyclic, SortKeys, TouchedTables, TouchedBranches;
    var keys := if g.Update? then g.touched else g.keys;
    SameElements(SortKeys(keys), keys);
    var i :| 0 <= i < |SortKeys(keys)| && SortKeys(keys)[i] == k;
    assert Claims(3, Write, SortKeys(keys))[i] == Claim(Row(k), Write);
  }

  /** Past the locks, everything planned is held. */
  lemma {:induction false} HoldsPlan(s: State, proc: Proc)
    requires Acyclic(s.owners) && Session(s, proc) && InSession(proc.stage) && !proc.stage.Acquiring?
    ensures proc.held == GraphClaims(s, proc.goal) + Plan(s, proc.goal)
  {
    hide Acyclic, Climbing, Plan, GraphClaims, GoalFits;
    assert proc.held + [] == proc.held;
  }

  lemma {:induction false} HeldAlone(s: State, p: int, q: int, claim: Claim)
    requires Exclusive(s) && p in s.procs && q in s.procs && p != q && claim.mode == Write && claim in s.procs[p].held
    ensures claim !in s.procs[q].held
  {
    assert Conflict(claim, claim);
  }

  /** No two processes are past the locks with the same row to write. */
  lemma {:induction false} RowApart(s: State, p: int, q: int, k: NodeKey)
    requires Locked(s) && p in s.procs && q in s.procs && p != q
    requires var a, b := s.procs[p], s.procs[q];
             Committing(a.stage) && Covers(a.goal, k) && InSession(b.stage) && !b.stage.Acquiring?
    ensures !Covers(s.procs[q].goal, k)
  {
    hide Acyclic, Climbing, Session, Plan, GraphClaims, Covers;
    var claim := Claim(Row(k), Write);
    HoldsPlan(s, s.procs[p]);
    HoldsPlan(s, s.procs[q]);
    RowPlanned(s, s.procs[p].goal, k);
    assert Covers(s.procs[q].goal, k) ==> claim in Plan(s, s.procs[q].goal) by {
      if Covers(s.procs[q].goal, k) {
        RowPlanned(s, s.procs[q].goal, k);
      }
    }
    HeldAlone(s, p, q, claim);
  }

  // ---------------------------------------------------------------- every step keeps the locks

  lemma {:induction false} EffectFrame(s: State, a: Action)
    requires a.p in s.procs && (a.Store? || a.Bump? ==> AtWrite(s, s.procs[a.p])) && (a.CloseFrame? ==> Works(s.procs[a.p]))
    requires a.LogRowOut? ==> var proc := s.procs[a.p];
                              && proc.stage.Logging? && proc.goal.Update? && proc.stage.n < |proc.goal.touched|
                              && RowAt(proc, proc.stage.n) in proc.work
    ensures var s' := Effect(s, a);
            && s'.procs == s.procs && s'.participants == s.participants && s'.indexed == s.indexed && s'.snapshot == s.snapshot
            && s'.owners == (if a.Publish? then a.owners else s.owners)
            && (!a.Store? && !a.Bump? ==> s'.rows == s.rows && s'.history == s.history)
  {
    hide Frame, AtWrite;
  }

  lemma {:induction false} EffectKeys(s: State, a: Action)
    requires a.p in s.procs && (a.Store? || a.Bump?) && AtWrite(s, s.procs[a.p])
    ensures Effect(s, a).rows.Keys == s.rows.Keys && Effect(s, a).history.Keys == s.history.Keys
  {
    var proc := s.procs[a.p];
    var k := RowAt(proc, proc.stage.n);
    assert k in s.rows && k in s.history;
    hide AtWrite;
  }

  /** A step moves one process and leaves the schema, the set of rows and everybody else alone. */
  lemma {:induction false} StepFrame(s: State, a: Action)
    requires Enabled(s, a)
    ensures var s' := Step(s, a);
            && a.p in s.procs && s'.procs.Keys == s.procs.Keys && s'.procs[a.p] == Moved(s, a)
            && (forall q :: q in s.procs && q != a.p ==> s'.procs[q] == s.procs[q])
            && s'.participants == s.participants && s'.indexed == s.indexed && s'.snapshot == s.snapshot
            && s'.rows.Keys == s.rows.Keys && s'.history.Keys == s.history.Keys
            && s'.owners == (if a.Publish? then a.owners else s.owners)
  {
    hide Moved, Effect, Free, GraphClaims, Startable, Acyclic;
    EffectFrame(s, a);
    if a.Store? || a.Bump? {
      EffectKeys(s, a);
    }
  }

  /** What a step may do to the locks of the process it moves: nothing, take free ones, or drop some. */
  lemma {:induction false} MovedHeld(s: State, a: Action)
    requires Enabled(s, a) && (a.Enter? ==> s.procs[a.p].held == [])
    ensures forall c :: c in Moved(s, a).held ==> c in s.procs[a.p].held || Free(s, a.p, c)
  {
    hide Acyclic, Plan, GraphClaims, CheckNext, Begun, Free, Startable, Works, AtWrite, CopyRow;
    var held := s.procs[a.p].held;
    if a.Copy? {
      CopyKeepsHeld(s.procs[a.p], a.key, s.rows[a.key]);
    }
    if a.Release? && held != [] {
      assert held == held[..|held| - 1] + [held[|held| - 1]];
    }
  }

  lemma {:induction false} CopyKeepsHeld(proc: Proc, key: NodeKey, row: LiveRow)
    ensures CopyRow(proc, key, row).held == proc.held && CopyRow(proc, key, row).todo == proc.todo
    ensures CopyRow(proc, key, row).stage == proc.stage && CopyRow(proc, key, row).goal == proc.goal
  {
  }

  /** Locks are only taken when free and released one by one. */
  lemma {:induction false} StepKeepsExclusive(s: State, a: Action)
    requires Exclusive(s) && Acyclic(s.owners) && Sessions(s) && Enabled(s, a)
    ensures Exclusive(Step(s, a))
  {
    hide *;
    EnteringHoldsNothing(s, a);
    StepFrame(s, a);
    MovedHeld(s, a);
    HeldKeepsExclusive(s, Step(s, a), a.p);
  }

  lemma {:induction false} EnteringHoldsNothing(s: State, a: Action)
    requires Acyclic(s.owners) && Sessions(s) && Enabled(s, a)
    ensures a.p in s.procs && Session(s, s.procs[a.p]) && (a.Enter? ==> s.procs[a.p].held == [])
  {
    hide Acyclic, Plan, GraphClaims, Planned, Climbing, GoalFits, Startable, Free, Works, AtWrite;
  }

  lemma {:induction false} HeldKeepsExclusive(s: State, s': State, p: int)
    requires Exclusive(s) && p in s.procs && s'.procs.Keys == s.procs.Keys
    requires forall q :: q in s.procs && q != p ==> s'.procs[q] == s.procs[q]
    requires forall c :: c in s'.procs[p].held ==> c in s.procs[p].held || Free(s, p, c)
    ensures Exclusive(s')
  {
    forall c, q, b | c in s'.procs[p].held && q in s.procs && q != p && b in s.procs[q].held
      ensures !Conflict(c, b) && !Conflict(b, c)
    {
      if c !in s.procs[p].held {
        assert Free(s, p, c);
      }
    }
  }

  /** Keeping the goal and the locks, and no fewer copies, a process may change stage within its session. */
  lemma {:induction false} SessionRestaged(s: State, s': State, proc: Proc, proc': Proc)
    requires Acyclic(s.owners) && s'.owners == s.owners && s'.participants == s.participants && s'.indexed == s.indexed
    requires s'.rows.Keys == s.rows.Keys && Session(s, proc) && proc.todo == []
    requires proc'.goal == proc.goal && proc'.held == proc.held && proc'.todo == proc.todo
    requires proc'.stage.Releasing? || (proc.snaps.Keys <= proc'.snaps.Keys && proc.work.Keys <= proc'.work.Keys)
    requires InSession(proc.stage) && (InSession(proc'.stage) || proc'.stage.Releasing?) && !proc'.stage.Acquiring?
    requires (Committing(proc'.stage) ==> proc.goal.Update?) && (proc'.stage.Looking? ==> !proc.goal.Update?)
    requires proc'.stage.Publishing? ==> proc.goal.Update? && proc.goal.regraph
    ensures Session(s', proc')
  {
    hide Acyclic, Climbing, Plan, GraphClaims;
    PlanSame(s, s', proc.goal);
  }

  lemma {:induction false} GoalFitsSame(s: State, proc: Proc, proc': Proc)
    requires GoalFits(s, proc) && proc'.goal == proc.goal && proc'.snaps == proc.snaps && proc'.work == proc.work
    ensures GoalFits(s, proc')
  {
  }

  lemma {:induction false} SessionEntered(s: State, proc: Proc, proc': Proc)
    requires Acyclic(s.owners) && Session(s, proc) && proc.stage.Entering?
    requires proc' == proc.(stage := Acquiring, held := GraphClaims(s, proc.goal), todo := Plan(s, proc.goal))
    ensures Session(s, proc')
  {
    hide Acyclic, Climbing, Plan, GraphClaims, GoalFits;
    PlanClimbs(s, proc);
    GoalFitsSame(s, proc, proc');
  }

  lemma {:induction false} SessionAcquired(s: State, proc: Proc, proc': Proc)
    requires Acyclic(s.owners) && Session(s, proc) && proc.stage.Acquiring? && proc.todo != []
    requires proc' == proc.(held := proc.held + [proc.todo[0]], todo := proc.todo[1..])
    ensures Session(s, proc')
  {
    hide Acyclic, Climbing, Plan, GraphClaims;
    assert proc'.held + proc'.todo == proc.held + proc.todo;
  }

  lemma {:induction false} SessionReleased(s: State, proc: Proc, proc': Proc)
    requires Acyclic(s.owners) && Session(s, proc) && proc.stage.Releasing?
    requires if proc.held == [] then proc' == proc.(stage := Resting, todo := [])
             else proc' == proc.(held := proc.held[..|proc.held| - 1])
    ensures Session(s, proc')
  {
    hide Acyclic, Plan, GraphClaims;
    assert proc.held + [] == proc.held && proc'.held + [] == proc'.held;
  }

  /** Steps inside a session. */
  predicate Inside(a: Action) {
    !a.Edit? && !a.Start? && !a.Enter? && !a.Acquire? && !a.Release?
  }

  lemma {:induction false} InsideRestages(s: State, a: Action)
    requires Enabled(s, a) && Inside(a) && Acyclic(s.owners) && Session(s, s.procs[a.p])
    ensures var proc, proc' := s.procs[a.p], Moved(s, a);
            && proc'.goal == proc.goal && proc'.held == proc.held && proc'.todo == proc.todo && proc.todo == []
            && (proc'.stage.Releasing? || (proc.snaps.Keys <= proc'.snaps.Keys && proc.work.Keys <= proc'.work.Keys))
            && InSession(proc.stage) && (InSession(proc'.stage) || proc'.stage.Releasing?) && !proc'.stage.Acquiring?
            && (Committing(proc'.stage) ==> proc.goal.Update?) && (proc'.stage.Looking? ==> !proc.goal.Update?)
            && (proc'.stage.Publishing? ==> proc.goal.Update? && proc.goal.regraph)
  {
    hide Acyclic, Climbing, Plan, GraphClaims, Planned, Free, GoalFits, Startable, Works;
  }

  lemma {:induction false} OutsideSession(s: State, a: Action)
    requires Acyclic(s.owners) && Enabled(s, a) && Session(s, s.procs[a.p]) && !Inside(a)
    ensures Session(s, Moved(s, a))
  {
    hide Acyclic, Climbing, Plan, GraphClaims, Planned, Free;
    var proc, proc' := s.procs[a.p], Moved(s, a);
    if a.Enter? {
      SessionEntered(s, proc, proc');
    } else if a.Acquire? {
      SessionAcquired(s, proc, proc');
    } else if a.Release? {
      SessionReleased(s, proc, proc');
    } else {
      assert proc'.held == proc.held && proc'.todo == proc.todo;
    }
  }

  lemma {:induction false} MovedSession(s: State, a: Action)
    requires Acyclic(s.owners) && Enabled(s, a) && Session(s, s.procs[a.p]) && !a.Publish?
    ensures a.p in Step(s, a).procs && Session(Step(s, a), Step(s, a).procs[a.p])
  {
    hide Acyclic, Session, Moved, Enabled, Step;
    StepFrame(s, a);
    if Inside(a) {
      InsideRestages(s, a);
      SessionRestaged(s, Step(s, a), s.procs[a.p], Moved(s, a));
    } else {
      OutsideSession(s, a);
      SessionElsewhere(s, Step(s, a), Moved(s, a));
    }
  }

  lemma {:induction false} GraphHeld(s: State, proc: Proc)
    requires Acyclic(s.owners) && Session(s, proc) && InSession(proc.stage)
    ensures forall c :: c in GraphClaims(s, proc.goal) ==> c in proc.held && c.lock == GRAPH
  {
    hide Acyclic, Climbing, Plan, GoalFits;
    var graph := GraphClaims(s, proc.goal);
    assert forall i :: 0 <= i < |graph| ==> (proc.held + proc.todo)[i] == proc.held[i] == graph[i];
  }

  lemma {:induction false} FirstIn<T>(s: seq<T>)
    ensures s == [] || s[0] in s
  {
  }

  lemma {:induction false} GraphFree(s: State, proc: Proc, p: int, q: int)
    requires Exclusive(s) && Acyclic(s.owners) && p in s.procs && q in s.procs && p != q && s.procs[q] == proc
    requires Session(s, proc) && InSession(proc.stage) && Claim(GRAPH, Write) in s.procs[p].held
    ensures GraphClaims(s, proc.goal) == []
  {
    hide Acyclic, Session, GraphClaims;
    GraphHeld(s, proc);
    var graph := GraphClaims(s, proc.goal);
    assert forall c :: c in graph ==> Conflict(Claim(GRAPH, Write), c);
    FirstIn(graph);
  }

  /** Only the holder of the graph write lock changes who owns what, so nobody else has a plan that depends on it. */
  lemma {:induction false} PublishKeepsOthers(s: State, a: Action, q: int)
    requires Locked(s) && Enabled(s, a) && a.Publish? && q in s.procs && q != a.p
    ensures Forest(Step(s, a)) && Session(Step(s, a), s.procs[q])
  {
    hide Acyclic, Climbing, Plan, Moved;
    var s', proc := Step(s, a), s.procs[q];
    if InSession(proc.stage) {
      HoldsPlan(s, s.procs[a.p]);
      assert s.procs[a.p].held[0] == Claim(GRAPH, Write);
      GraphFree(s, proc, a.p, q);
      PlanWithoutGraph(s, s', proc);
    }
  }

  lemma {:induction false} PublishEnds(s: State, a: Action)
    requires Locked(s) && Enabled(s, a) && a.Publish?
    ensures Forest(Step(s, a)) && Session(Step(s, a), Moved(s, a))
  {
    hide Acyclic, Plan, GraphClaims, Exclusive;
    assert s.procs[a.p].held + [] == s.procs[a.p].held;
  }

  lemma {:induction false} StepKeepsLocked(s: State, a: Action)
    requires Locked(s) && Enabled(s, a)
    ensures Locked(Step(s, a))
  {
    hide Acyclic, Session, Exclusive, Moved, Enabled, Step;
    StepFrame(s, a);
    StepKeepsExclusive(s, a);
    var s' := Step(s, a);
    forall q | q in s.procs ensures Forest(s') && Session(s', s'.procs[q]) {
      if a.Publish? {
        PublishEnds(s, a);
        if q != a.p {
          PublishKeepsOthers(s, a, q);
        }
      } else if q == a.p {
        MovedSession(s, a);
      } else {
        SessionElsewhere(s, s', s.procs[q]);
      }
    }
    assert a.p in s.procs && Forest(s');
  }
}
