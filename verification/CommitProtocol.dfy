/** Update commits and readers as a state machine: any number of processes, one step at a time, in any order.

    A process fetches rows under their locks, edits its copies, and commits: graph lock, structure locks, branch locks
    and row locks in ascending order, a version check per row, one log frame, then the writes, each as a store and a
    version bump. A failed check refreshes the copies without locking the rows. Readers hold one branch, or a list of rows. */
module CommitProtocol {
  import opened Wrappers
  import opened Bytes
  import opened RelationSchema
  import opened Ordering
  import opened OwnershipForest
  import opened CommitLocks

  /** A live row. It is `torn` between the store and the version bump of a write. */
  datatype LiveRow = LiveRow(version: nat, value: Data, torn: bool)

  /** One version of a row, and what the writer of it had read: the version, the base of its working copy, its original. */
  datatype Written = Written(value: Data, version: int, base: Data, original: Data)

  /** A recorded resource: the version read, then what the working copy and the original were copied from. */
  datatype Snap = Snap(version: nat, base: Data, original: Data)

  datatype Goal =
    | Fetch(keys: seq<NodeKey>)
    | Update(touched: seq<NodeKey>, regraph: bool)
    | ViewBranch(node: NodeKey)
    | ViewRows(typ: string, keys: seq<NodeKey>)

  datatype Stage =
    | Resting
    | Entering
    | Acquiring
    | Looking
    | Checking(n: nat)
    | Refreshing(key: Option<NodeKey>, draft: Snap, read: nat)
    | Deciding
    | Logging(n: nat)
    | Applying(n: nat, stored: bool)
    | Publishing
    | Releasing

  datatype Proc = Proc(goal: Goal, stage: Stage, held: seq<Claim>, todo: seq<Claim>, snaps: map<NodeKey, Snap>, work: map<NodeKey, Data>)

  datatype FrameRow = FrameRow(key: NodeKey, value: Data)

  datatype State = State(
    participants: set<string>,
    indexed: set<string>,
    snapshot: map<NodeKey, Data>,
    rows: map<NodeKey, LiveRow>,
    history: map<NodeKey, seq<Written>>,
    owners: Owners,
    disk: seq<FrameRow>,
    frames: seq<seq<FrameRow>>,
    writer: Option<int>,
    procs: map<int, Proc>)

  datatype Action =
    | Edit(p: int, key: NodeKey, value: Data)
    | Start(p: int, goal: Goal)
    | Enter(p: int)
    | Acquire(p: int)
    | Proceed(p: int)
    | Copy(p: int, key: NodeKey)
    | Leave(p: int)
    | Check(p: int)
    | RefreshVersion(p: int, key: NodeKey)
    | RefreshBase(p: int)
    | RefreshOriginal(p: int)
    | GiveUp(p: int)
    | Decide(p: int, accepted: bool)
    | LogRowOut(p: int)
    | CloseFrame(p: int)
    | Store(p: int)
    | Bump(p: int)
    | Applied(p: int)
    | Publish(p: int, owners: Owners)
    | Release(p: int)

  // ---------------------------------------------------------------- locks

  /** Graph access of a session: writing the graph, reading it, or not involved with it. */
  function GraphClaims(s: State, g: Goal): seq<Claim> {
    match g
    case Fetch(_) => [Claim(GRAPH, Read)]
    case Update(touched, regraph) =>
      if regraph then [Claim(GRAPH, Write)]
      else if exists i :: 0 <= i < |touched| && touched[i].typ in s.participants then [Claim(GRAPH, Read)]
      else []
    case ViewBranch(node) => if node.typ in s.participants then [Claim(GRAPH, Read)] else []
    case ViewRows(typ, _) => if typ in s.participants then [Claim(GRAPH, Read)] else []
  }

  /** The locks taken once the graph lock is held. */
  ghost function Plan(s: State, g: Goal): seq<Claim>
    requires Acyclic(s.owners)
  {
    match g
    case Fetch(keys) => Claims(3, Write, SortKeys(keys))
    case Update(touched, _) =>
      Claims(1, Write, TouchedTables(s.indexed, touched)) + Claims(2, Write, TouchedBranches(s.owners, touched))
      + Claims(3, Write, SortKeys(touched))
    case ViewBranch(node) =>
      if node.typ in s.participants then Claims(2, Read, [RootOf(s.owners, node)]) else Claims(3, Read, [node])
    case ViewRows(typ, keys) => Claims(1, Read, [NodeKey(typ, 0)]) + Claims(3, Read, SortKeys(keys))
  }

  predicate Conflict(a: Claim, b: Claim) {
    a.lock == b.lock && (a.mode == Write || b.mode == Write)
  }

  /** Nobody else holds the lock in a way that excludes the claim. */
  ghost predicate Free(s: State, p: int, claim: Claim) {
    forall q, c :: q in s.procs && q != p && c in s.procs[q].held ==> !Conflict(claim, c)
  }

  // ---------------------------------------------------------------- steps

  /** What a session may be started for: distinct live rows, and copies to write for an update. */
  ghost predicate Startable(s: State, proc: Proc, g: Goal) {
    match g
    case Fetch(keys) => Distinct(keys) && forall k :: k in keys ==> k in s.rows
    case Update(touched, _) =>
      touched != [] && Distinct(touched) && forall k :: k in touched ==> k in s.rows && k in proc.snaps && k in proc.work
    case ViewBranch(node) => node in s.rows
    case ViewRows(typ, keys) => Distinct(keys) && forall k :: k in keys ==> k in s.rows && k.typ == typ
  }

  ghost predicate Enabled(s: State, a: Action) {
    && a.p in s.procs
    && var proc := s.procs[a.p];
    match a
    case Edit(_, key, _) => proc.stage.Resting? && key in proc.snaps
    case Start(_, goal) => proc.stage.Resting? && Startable(s, proc, goal)
    case Enter(_) => proc.stage.Entering? && Acyclic(s.owners) && forall c :: c in GraphClaims(s, proc.goal) ==> Free(s, a.p, c)
    case Acquire(_) => proc.stage.Acquiring? && proc.todo != [] && Free(s, a.p, proc.todo[0])
    case Proceed(_) => proc.stage.Acquiring? && proc.todo == []
    case Copy(_, key) => proc.stage.Looking? && proc.goal.Fetch? && key in proc.goal.keys && key in s.rows
    case Leave(_) => proc.stage.Looking?
    case Check(_) => proc.stage.Checking? && proc.goal.Update?
    case RefreshVersion(_, key) => proc.stage.Refreshing? && proc.stage.key == None && key in proc.snaps && key in s.rows
    case RefreshBase(_) => proc.stage.Refreshing? && proc.stage.key.Some? && proc.stage.read == 1 && proc.stage.key.value in s.rows
    case RefreshOriginal(_) => proc.stage.Refreshing? && proc.stage.key.Some? && proc.stage.read == 2 && proc.stage.key.value in s.rows
    case GiveUp(_) => proc.stage.Refreshing? && proc.stage.key == None
    case Decide(_, accepted) =>
      proc.stage.Deciding? && proc.goal.Update? && (accepted ==> s.writer == None)
    case LogRowOut(_) =>
      proc.stage.Logging? && proc.goal.Update? && proc.stage.n < |proc.goal.touched| && proc.goal.touched[proc.stage.n] in proc.work
    case CloseFrame(_) => proc.stage.Logging? && proc.goal.Update? && proc.stage.n == |proc.goal.touched| && Works(proc)
    case Store(_) => AtWrite(s, proc) && !proc.stage.stored
    case Bump(_) => AtWrite(s, proc) && proc.stage.stored
    case Applied(_) => proc.stage.Applying? && proc.goal.Update? && proc.stage.n == |proc.goal.touched|
    case Publish(_, owners) =>
      proc.stage.Publishing? && proc.goal.Update? && proc.goal.regraph && Acyclic(owners) && Participating(s.participants, owners)
    case Release(_) => proc.stage.Releasing?
  }

  /** Only tables with relations own and are owned. */
  predicate Participating(participants: set<string>, owners: Owners) {
    forall k :: k in owners ==> k.typ in participants && owners[k].typ in participants
  }

  /** The process is about to write the row at its position, and has a copy of it. */
  predicate AtWrite(s: State, proc: Proc) {
    && proc.stage.Applying? && proc.goal.Update? && proc.stage.n < |proc.goal.touched|
    && var k := proc.goal.touched[proc.stage.n]; k in s.rows && k in s.history && k in proc.work && k in proc.snaps
  }

  predicate Works(proc: Proc) {
    proc.goal.Update? && forall i :: 0 <= i < |proc.goal.touched| ==> proc.goal.touched[i] in proc.work
  }

  /** The frame a commit logs. */
  function Frame(proc: Proc): seq<FrameRow>
    requires Works(proc)
  {
    seq(|proc.goal.touched|, i requires 0 <= i < |proc.goal.touched| => FrameRow(proc.goal.touched[i], proc.work[proc.goal.touched[i]]))
  }

  function Begun(g: Goal): Stage {
    if g.Update? then Checking(0) else Looking
  }

  /** The row an update is working on. */
  function RowAt(proc: Proc, n: nat): NodeKey
    requires proc.goal.Update? && n < |proc.goal.touched|
  {
    proc.goal.touched[n]
  }

  /** The process after its step. */
  ghost function Moved(s: State, a: Action): Proc
    requires Enabled(s, a)
  {
    var proc := s.procs[a.p];
    match a
    case Edit(_, key, value) => proc.(work := proc.work[key := value])
    case Start(_, goal) => proc.(goal := goal, stage := Entering)
    case Enter(_) => proc.(stage := Acquiring, held := GraphClaims(s, proc.goal), todo := Plan(s, proc.goal))
    case Acquire(_) => proc.(held := proc.held + [proc.todo[0]], todo := proc.todo[1..])
    case Proceed(_) => proc.(stage := Begun(proc.goal))
    case Copy(_, key) => CopyRow(proc, key, s.rows[key])
    case Leave(_) => proc.(stage := Releasing)
    case Check(_) => proc.(stage := CheckNext(s, proc))
    case RefreshVersion(_, key) => proc.(stage := Refreshing(Some(key), Snap(s.rows[key].version, [], []), 1))
    case RefreshBase(_) =>
      proc.(stage := Refreshing(proc.stage.key, proc.stage.draft.(base := s.rows[proc.stage.key.value].value), 2))
    case RefreshOriginal(_) =>
      var key := proc.stage.key.value;
      var snap := proc.stage.draft.(original := s.rows[key].value);
      proc.(stage := Refreshing(None, snap, 0), snaps := proc.snaps[key := snap], work := proc.work[key := snap.base])
    case GiveUp(_) => proc.(stage := Releasing)
    case Decide(_, accepted) => proc.(stage := if accepted then Logging(0) else Releasing)
    case LogRowOut(_) => proc.(stage := Logging(proc.stage.n + 1))
    case CloseFrame(_) => proc.(stage := Applying(0, false))
    case Store(_) => proc.(stage := Applying(proc.stage.n, true))
    case Bump(_) => proc.(stage := Applying(proc.stage.n + 1, false))
    case Applied(_) => if proc.goal.regraph then proc.(stage := Publishing) else Evicted(proc)
    case Publish(_, _) => Evicted(proc)
    case Release(_) =>
      if proc.held == [] then proc.(stage := Resting, todo := []) else proc.(held := proc.held[..|proc.held| - 1])
  }

  /** A committed transaction expires: its copies are gone. */
  function Evicted(proc: Proc): Proc {
    proc.(stage := Releasing, snaps := map[], work := map[])
  }

  /** What a step does to the shared state. */
  function Effect(s: State, a: Action): State
    requires a.p in s.procs && (a.Store? || a.Bump? ==> AtWrite(s, s.procs[a.p]))
    requires a.LogRowOut? ==> var proc := s.procs[a.p];
                              && proc.stage.Logging? && proc.goal.Update? && proc.stage.n < |proc.goal.touched|
                              && RowAt(proc, proc.stage.n) in proc.work
    requires a.CloseFrame? ==> Works(s.procs[a.p])
  {
    var proc := s.procs[a.p];
    match a
    case Decide(_, accepted) => if accepted then s.(writer := Some(a.p)) else s
    case LogRowOut(_) =>
      var k := RowAt(proc, proc.stage.n);
      s.(disk := s.disk + [FrameRow(k, proc.work[k])])
    case CloseFrame(_) => s.(writer := None, frames := s.frames + [Frame(proc)])
    case Store(_) =>
      var k := RowAt(proc, proc.stage.n);
      s.(rows := s.rows[k := LiveRow(s.rows[k].version, proc.work[k], true)])
    case Bump(_) =>
      var k := RowAt(proc, proc.stage.n);
      var snap := proc.snaps[k];
      s.(rows := s.rows[k := LiveRow(s.rows[k].version + 1, s.rows[k].value, false)],
         history := s.history[k := s.history[k] + [Written(s.rows[k].value, snap.version, snap.base, snap.original)]])
    case Publish(_, owners) => s.(owners := owners)
    case _ => s
  }

  ghost function Step(s: State, a: Action): State
    requires Enabled(s, a)
  {
    Effect(s, a).(procs := s.procs[a.p := Moved(s, a)])
  }

  /** Copies are taken under the row lock; a resource that is already recorded is left alone. */
  function CopyRow(proc: Proc, key: NodeKey, row: LiveRow): Proc {
    if key in proc.snaps then proc
    else proc.(snaps := proc.snaps[key := Snap(row.version, row.value, row.value)], work := proc.work[key := row.value])
  }

  /** Compare one recorded version with the live one; the first difference turns the commit into a refresh. */
  function CheckNext(s: State, proc: Proc): Stage
    requires proc.stage.Checking? && proc.goal.Update?
  {
    var n, touched := proc.stage.n, proc.goal.touched;
    if n >= |touched| then Deciding
    else if touched[n] !in s.rows || touched[n] !in proc.snaps || s.rows[touched[n]].version != proc.snaps[touched[n]].version
    then Refreshing(None, Snap(0, [], []), 0)
    else Checking(n + 1)
  }

  /** Nothing has happened yet: the durable snapshot is loaded, and every process rests. */
  ghost predicate Initial(s: State) {
    && s.rows.Keys == s.history.Keys == s.snapshot.Keys
    && (forall k :: k in s.rows ==> s.rows[k] == LiveRow(0, s.snapshot[k], false) && s.history[k] == [Written(s.snapshot[k], -1, [], [])])
    && Acyclic(s.owners) && Participating(s.participants, s.owners)
    && s.disk == [] && s.frames == [] && s.writer == None
    && forall p :: p in s.procs ==> s.procs[p].stage.Resting? && s.procs[p].held == [] && s.procs[p].todo == []
                                    && s.procs[p].snaps == map[] && s.procs[p].work == map[]
  }

  /** A run: every step is enabled where it is taken, and leads to the next state. */
  ghost predicate Run(states: seq<State>, actions: seq<Action>) {
    && |states| == |actions| + 1 && Initial(states[0])
    && forall i :: 0 <= i < |actions| ==> Enabled(states[i], actions[i]) && states[i + 1] == Step(states[i], actions[i])
  }
}
