/** Row histories: over every interleaving each version of a row records the version just before it as the one its writer had read. */
module CommitHistory {
  import opened Bytes
  import opened RelationSchema
  import opened OwnershipForest
  import opened CommitLocks
  import opened CommitProtocol
  import opened CommitSafety

  function Last(h: seq<Written>): Written
    requires h != []
  {
    h[|h| - 1]
  }

  /** Version `v` was written by a process that had read version `v - 1`, and based its copy on exactly that value. */
  ghost predicate Replaces(h: seq<Written>, v: int) {
    0 < v < |h| ==> h[v].version == v - 1 && h[v].base == h[v - 1].value && h[v].original == h[v - 1].value
  }

  ghost predicate Chained(h: seq<Written>) {
    forall v :: Replaces(h, v)
  }

  /** The live row is the newest version, unless a write to it is half done. */
  ghost predicate RowFits(row: LiveRow, h: seq<Written>) {
    |h| == row.version + 1 && Chained(h) && (!row.torn ==> row.value == Last(h).value)
  }

  ghost predicate HistoryFits(s: State) {
    s.rows.Keys == s.history.Keys && forall k :: k in s.rows ==> RowFits(s.rows[k], s.history[k])
  }

  /** A snapshot may be stale or be overtaken by a write in progress; otherwise it is the live value. */
  ghost predicate Current(row: LiveRow, version: nat, value: Data) {
    version <= row.version && (version == row.version && !row.torn ==> value == row.value)
  }

  ghost predicate SnapFits(row: LiveRow, snap: Snap) {
    Current(row, snap.version, snap.base) && Current(row, snap.version, snap.original)
  }

  /** What a version check established and the row lock keeps. */
  ghost predicate Matches(s: State, proc: Proc, k: NodeKey) {
    && k in s.rows && k in proc.snaps && SnapFits(s.rows[k], proc.snaps[k])
    && s.rows[k].version == proc.snaps[k].version && !s.rows[k].torn
  }

  ghost predicate MatchesFrom(s: State, proc: Proc, low: nat, high: nat) {
    proc.goal.Update? && high <= |proc.goal.touched| && forall i :: low <= i < high ==> Matches(s, proc, proc.goal.touched[i])
  }

  /** Half way through a write: the value is stored, its version is not bumped yet. */
  ghost predicate Storing(s: State, proc: Proc, k: NodeKey) {
    && k in s.rows && k in s.history && s.history[k] != [] && k in proc.snaps && k in proc.work
    && s.rows[k].torn && s.rows[k].value == proc.work[k] && s.rows[k].version == proc.snaps[k].version
    && proc.snaps[k].base == proc.snaps[k].original == Last(s.history[k]).value
  }

  ghost predicate Reads(s: State, proc: Proc) {
    && proc.snaps.Keys <= proc.work.Keys
    && forall k :: k in proc.snaps ==> k in s.rows && SnapFits(s.rows[k], proc.snaps[k])
  }

  /** How far the version check and the writes have come. */
  ghost predicate Progress(s: State, proc: Proc) {
    match proc.stage
    case Checking(n) => MatchesFrom(s, proc, 0, n)
    case Refreshing(key, draft, read) =>
      key.Some? ==>
        && key.value in s.rows && key.value in proc.snaps && draft.version <= s.rows[key.value].version
        && (read == 1 || read == 2) && (read == 2 ==> Current(s.rows[key.value], draft.version, draft.base))
    case Deciding => proc.goal.Update? && MatchesFrom(s, proc, 0, |proc.goal.touched|)
    case Logging(n) => proc.goal.Update? && n <= |proc.goal.touched| && MatchesFrom(s, proc, 0, |proc.goal.touched|)
    case Applying(n, stored) =>
      && proc.goal.Update? && n <= |proc.goal.touched|
      && MatchesFrom(s, proc, if stored then n + 1 else n, |proc.goal.touched|)
      && (stored ==> n < |proc.goal.touched| && Storing(s, proc, proc.goal.touched[n]))
    case _ => true
  }

  /** Only a process between store and bump leaves a row torn. */
  ghost predicate TornBy(s: State, p: int, k: NodeKey) {
    p in s.procs
    && var proc := s.procs[p];
    proc.stage.Applying? && proc.stage.stored && proc.goal.Update? && proc.stage.n < |proc.goal.touched| && proc.goal.touched[proc.stage.n] == k
  }

  ghost predicate Torn(s: State) {
    forall k :: k in s.rows && s.rows[k].torn ==> exists p :: TornBy(s, p, k)
  }

  ghost predicate Consistent(s: State) {
    HistoryFits(s) && Torn(s) && forall p :: p in s.procs ==> Reads(s, s.procs[p]) && Progress(s, s.procs[p])
  }

  // ---------------------------------------------------------------- one row written

  /** Storing and bumping touch one row; the checks other processes hold are about other rows. */
  lemma {:induction false} ProgressElsewhere(s: State, s': State, proc: Proc, k: NodeKey)
    requires k in s.rows && s'.rows.Keys == s.rows.Keys && s'.history.Keys == s.history.Keys
    requires forall j :: j in s.rows && j != k ==> s'.rows[j] == s.rows[j]
    requires forall j :: j in s.history && j != k ==> s'.history[j] == s.history[j]
    requires Moves(s.rows[k], s'.rows[k])
    requires Reads(s, proc) && Progress(s, proc)
    requires Committing(proc.stage) ==> proc.goal.Update? && k !in proc.goal.touched
    ensures Reads(s', proc) && Progress(s', proc)
  {
  }

  /** A store tears a row; a bump moves to the next version. Either way nothing read before can be mistaken for current. */
  ghost predicate Moves(before: LiveRow, after: LiveRow) {
    (after.version == before.version && after.torn) || after.version == before.version + 1
  }

  lemma {:induction false} ProgressSame(s: State, s': State, proc: Proc)
    requires s'.rows == s.rows && s'.history == s.history && Reads(s, proc) && Progress(s, proc)
    ensures Reads(s', proc) && Progress(s', proc)
  {
  }

  /** A row under our own write lock is never torn by somebody else. */
  lemma {:induction false} NotTorn(s: State, p: int, k: NodeKey)
    requires Locked(s) && Torn(s) && p in s.procs && k in s.rows
    requires var proc := s.procs[p]; InSession(proc.stage) && !proc.stage.Acquiring? && !proc.stage.Applying? && Covers(proc.goal, k)
    ensures !s.rows[k].torn
  {
    hide Acyclic, Session, Exclusive;
    if s.rows[k].torn {
      var q :| TornBy(s, q, k);
      RowApart(s, q, p, k);
    }
  }

  /** Everything but a store and a bump leaves rows alone and keeps the process's reads and checks in order. */
  lemma {:induction false} QuietMoved(s: State, a: Action)
    requires Enabled(s, a) && !a.Store? && !a.Bump? && Reads(s, s.procs[a.p]) && Progress(s, s.procs[a.p])
    requires Locked(s) && Torn(s)
    ensures Reads(s, Moved(s, a)) && Progress(s, Moved(s, a))
  {
    hide Acyclic, Session, Exclusive, Free, Plan, GraphClaims, Startable, Current;
    match a {
      case Copy(p, key) => CopyFits(s, p, key);
      case Check(p) => CheckFits(s, p);
      case RefreshVersion(p, key) => RefreshFits(s, a);
      case RefreshBase(p) => RefreshFits(s, a);
      case RefreshOriginal(p) => RefreshFits(s, a);
      case _ =>
    }
  }

  lemma {:induction false} CopyFits(s: State, p: int, key: NodeKey)
    requires Enabled(s, Copy(p, key)) && Reads(s, s.procs[p]) && Progress(s, s.procs[p]) && Locked(s) && Torn(s)
    ensures Reads(s, Moved(s, Copy(p, key))) && Progress(s, Moved(s, Copy(p, key)))
  {
    hide Acyclic, Session, Exclusive;
    NotTorn(s, p, key);
  }

  lemma {:induction false} CheckFits(s: State, p: int)
    requires Enabled(s, Check(p)) && Reads(s, s.procs[p]) && Progress(s, s.procs[p]) && Locked(s) && Torn(s)
    ensures Reads(s, Moved(s, Check(p))) && Progress(s, Moved(s, Check(p)))
  {
    hide Acyclic, Session, Exclusive, SnapFits;
    var proc := s.procs[p];
    var n := proc.stage.n;
    if n < |proc.goal.touched| && proc.goal.touched[n] in s.rows {
      NotTorn(s, p, proc.goal.touched[n]);
    }
  }

  /** A refresh leaves snapshots that are stale or the live value, and working copies that are what was read. */
  lemma {:induction false} RefreshFits(s: State, a: Action)
    requires Enabled(s, a) && (a.RefreshVersion? || a.RefreshBase? || a.RefreshOriginal?)
    requires Reads(s, s.procs[a.p]) && Progress(s, s.procs[a.p])
    ensures Reads(s, Moved(s, a)) && Progress(s, Moved(s, a))
    ensures a.RefreshOriginal? ==>
              var k, proc := s.procs[a.p].stage.key.value, Moved(s, a);
              && k in proc.work && k in proc.snaps && proc.work[k] == proc.snaps[k].base
              && (s.rows[k].version == proc.snaps[k].version && !s.rows[k].torn ==> proc.work[k] == s.rows[k].value)
  {
  }

  lemma {:induction false} QuietEffect(s: State, a: Action)
    requires Enabled(s, a) && !a.Store? && !a.Bump?
    ensures Step(s, a).rows == s.rows && Step(s, a).history == s.history
  {
    hide Acyclic, Moved, Startable, Free, Works, Frame, GraphClaims;
  }

  lemma {:induction false} TornStays(s: State, a: Action, k: NodeKey, q: int)
    requires Enabled(s, a) && TornBy(s, q, k) && !(a.Bump? && a.p == q)
    ensures TornBy(Step(s, a), q, k)
  {
    hide Enabled, Moved, Step;
    StepFrame(s, a);
    if a.p == q {
      TornWaits(s, a, k, q);
    }
  }

  lemma {:induction false} TornWaits(s: State, a: Action, k: NodeKey, q: int)
    requires Enabled(s, a) && TornBy(s, q, k) && a.p == q
    ensures a.Bump?
  {
    hide Acyclic, Startable, Free, Works, GraphClaims;
  }

  lemma {:induction false} QuietKeeps(s: State, a: Action)
    requires Enabled(s, a) && !a.Store? && !a.Bump? && Locked(s) && Consistent(s)
    ensures Consistent(Step(s, a))
  {
    hide Acyclic, Enabled, Moved, Step, Locked, Reads, Progress, RowFits, TornBy;
    var s' := Step(s, a);
    StepFrame(s, a);
    QuietEffect(s, a);
    QuietMoved(s, a);
    forall q | q in s'.procs ensures Reads(s', s'.procs[q]) && Progress(s', s'.procs[q]) {
      ProgressSame(s, s', s'.procs[q]);
    }
    forall k | k in s'.rows && s'.rows[k].torn ensures exists q :: TornBy(s', q, k) {
      var q :| TornBy(s, q, k);
      TornStays(s, a, k, q);
    }
  }

  // ---------------------------------------------------------------- the two halves of a write

  /** The effect of a store or a bump on the shared rows. */
  lemma {:induction false} WriteEffect(s: State, a: Action)
    requires Enabled(s, a) && (a.Store? || a.Bump?) && Consistent(s)
    ensures AtWrite(s, s.procs[a.p])
    ensures var proc, s' := s.procs[a.p], Step(s, a);
            var k := RowAt(proc, proc.stage.n);
            && k in s.rows && s'.rows.Keys == s.rows.Keys && s'.history.Keys == s.history.Keys
            && (forall j :: j in s.rows && j != k ==> s'.rows[j] == s.rows[j])
            && (forall j :: j in s.history && j != k ==> s'.history[j] == s.history[j])
            && Moves(s.rows[k], s'.rows[k]) && RowFits(s'.rows[k], s'.history[k])
            && s'.rows[k].torn == a.Store?
  {
    hide Acyclic, Moved, Torn, Reads;
    var proc := s.procs[a.p];
    var k := RowAt(proc, proc.stage.n);
    assert RowFits(s.rows[k], s.history[k]);
    if a.Bump? {
      assert Storing(s, proc, k);
      BumpFits(s, proc, k);
    } else {
      assert Matches(s, proc, k);
    }
  }

  lemma {:induction false} BumpFits(s: State, proc: Proc, k: NodeKey)
    requires Storing(s, proc, k) && RowFits(s.rows[k], s.history[k])
    ensures var snap := proc.snaps[k];
            RowFits(LiveRow(s.rows[k].version + 1, s.rows[k].value, false),
                    s.history[k] + [Written(s.rows[k].value, snap.version, snap.base, snap.original)])
  {
    var snap, h := proc.snaps[k], s.history[k];
    var h' := h + [Written(s.rows[k].value, snap.version, snap.base, snap.original)];
    forall v ensures Replaces(h', v) {
      assert Replaces(h, v);
    }
  }

  lemma {:induction false} WriterStage(s: State, a: Action)
    requires Enabled(s, a) && (a.Store? || a.Bump?)
    ensures a.p in s.procs
    ensures var proc := s.procs[a.p];
            && AtWrite(s, proc) && proc.stage.stored == a.Bump?
            && Moved(s, a) == proc.(stage := if a.Store? then Applying(proc.stage.n, true) else Applying(proc.stage.n + 1, false))
            && (a.Store? ==> Step(s, a).rows[RowAt(proc, proc.stage.n)] == LiveRow(s.rows[RowAt(proc, proc.stage.n)].version,
                                                                                   proc.work[RowAt(proc, proc.stage.n)], true))
            && (a.Store? ==> Step(s, a).history == s.history)
  {
    hide Acyclic;
  }

  /** The writer itself: what is still to be written keeps matching, and the row at its position is half or fully done. */
  lemma {:induction false} WriterMoved(s: State, a: Action)
    requires Enabled(s, a) && (a.Store? || a.Bump?) && Consistent(s) && GoalFits(s, s.procs[a.p])
    ensures Reads(Step(s, a), Moved(s, a)) && Progress(Step(s, a), Moved(s, a))
  {
    hide Enabled, Moved, Step, Torn, Chained;
    var s' := Step(s, a);
    WriteEffect(s, a);
    WriterStage(s, a);
    var proc := s.procs[a.p];
    var n := proc.stage.n;
    var k := RowAt(proc, n);
    forall i | n < i < |proc.goal.touched| ensures Matches(s', proc, proc.goal.touched[i]) {
      assert Matches(s, proc, proc.goal.touched[i]) && proc.goal.touched[i] != k;
    }
    assert RowFits(s.rows[k], s.history[k]);
  }

  lemma {:induction false} WriteKeeps(s: State, a: Action)
    requires Enabled(s, a) && (a.Store? || a.Bump?) && Locked(s) && Consistent(s)
    ensures Consistent(Step(s, a))
  {
    hide Acyclic, Enabled, Moved, Step, Session, Exclusive, Reads, Progress, RowFits, TornBy, Moves;
    var s' := Step(s, a);
    StepFrame(s, a);
    WriteEffect(s, a);
    var proc := s.procs[a.p];
    WriterFits(s, a);
    var k := RowAt(proc, proc.stage.n);
    WriterMoved(s, a);
    forall q | q in s.procs && q != a.p ensures Reads(s', s'.procs[q]) && Progress(s', s'.procs[q]) {
      OthersApart(s, a.p, q, k);
      ProgressElsewhere(s, s', s.procs[q], k);
    }
    forall j | j in s'.rows && s'.rows[j].torn ensures exists q :: TornBy(s', q, j) {
      if j == k {
        StoreTears(s, a);
        assert TornBy(s', a.p, j);
      } else {
        var q :| TornBy(s, q, j);
        TornOther(s, q, j, a.p, k);
        TornStays(s, a, j, q);
      }
    }
  }

  lemma {:induction false} WriterFits(s: State, a: Action)
    requires Enabled(s, a) && (a.Store? || a.Bump?) && Locked(s)
    ensures AtWrite(s, s.procs[a.p]) && GoalFits(s, s.procs[a.p]) && Committing(s.procs[a.p].stage)
  {
    hide Acyclic, Exclusive, GoalFits, Planned, Climbing;
  }

  lemma {:induction false} OthersApart(s: State, p: int, q: int, k: NodeKey)
    requires Locked(s) && p in s.procs && q in s.procs && p != q && AtWrite(s, s.procs[p])
    requires k == RowAt(s.procs[p], s.procs[p].stage.n)
    ensures Committing(s.procs[q].stage) ==> s.procs[q].goal.Update? && k !in s.procs[q].goal.touched
  {
    hide Acyclic, Exclusive, GoalFits, Planned, Climbing;
    if Committing(s.procs[q].stage) {
      assert Session(s, s.procs[q]);
      RowApart(s, p, q, k);
    }
  }

  lemma {:induction false} StoreTears(s: State, a: Action)
    requires Enabled(s, a) && a.Store?
    ensures TornBy(Step(s, a), a.p, RowAt(s.procs[a.p], s.procs[a.p].stage.n))
  {
    StepFrame(s, a);
    hide Effect, Acyclic;
  }

  lemma {:induction false} TornOther(s: State, q: int, j: NodeKey, p: int, k: NodeKey)
    requires TornBy(s, q, j) && j != k && p in s.procs && AtWrite(s, s.procs[p]) && k == RowAt(s.procs[p], s.procs[p].stage.n)
    ensures q != p
  {
  }

  lemma {:induction false} StepKeepsConsistent(s: State, a: Action)
    requires Enabled(s, a) && Locked(s) && Consistent(s)
    ensures Consistent(Step(s, a))
  {
    hide *;
    if a.Store? || a.Bump? {
      WriteKeeps(s, a);
    } else {
      QuietKeeps(s, a);
    }
  }

  // ---------------------------------------------------------------- whole runs

  lemma {:induction false} InitialSafe(s: State)
    requires Initial(s)
    ensures Locked(s) && Consistent(s)
  {
    hide Acyclic;
  }

  lemma {:induction false} RunSafe(states: seq<State>, actions: seq<Action>, i: nat)
    requires Run(states, actions) && i < |states|
    ensures Locked(states[i]) && Consistent(states[i])
  {
    hide Initial, Enabled, Step, Locked, Consistent;
    if i == 0 {
      InitialSafe(states[0]);
    } else {
      RunSafe(states, actions, i - 1);
      StepKeepsLocked(states[i - 1], actions[i - 1]);
      StepKeepsConsistent(states[i - 1], actions[i - 1]);
    }
  }

  /** Over every run of any number of processes, each version of each row records that its writer had read the version just before it. */
  lemma {:induction false} ReadsPrevious(states: seq<State>, actions: seq<Action>, i: nat, k: NodeKey, v: nat)
    requires Run(states, actions) && i < |states| && k in states[i].history && 0 < v < |states[i].history[k]|
    ensures var h := states[i].history[k]; h[v].version == v - 1 && h[v].base == h[v].original == h[v - 1].value
  {
    RunSafe(states, actions, i);
    assert RowFits(states[i].rows[k], states[i].history[k]);
    assert Replaces(states[i].history[k], v);
    hide Run, Locked;
  }
}
