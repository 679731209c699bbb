/** Log before publish: the durable frames always recover the live rows as they will be once the logged writes are applied. */
module CommitLog {
  import opened Wrappers
  import opened Bytes
  import opened RelationSchema
  import opened Ordering
  import opened OwnershipForest
  import opened CommitLocks
  import opened CommitProtocol
  import opened CommitSafety
  import opened CommitHistory

  /** Replay one frame over the rows. */
  function Absorb(rows: map<NodeKey, Data>, frame: seq<FrameRow>): map<NodeKey, Data> {
    if frame == [] then rows
    else
      var last := frame[|frame| - 1];
      Absorb(rows, frame[..|frame| - 1])[last.key := last.value]
  }

  /** Replay all frames over the durable snapshot. */
  function Recovered(snapshot: map<NodeKey, Data>, frames: seq<seq<FrameRow>>): map<NodeKey, Data> {
    if frames == [] then snapshot
    else Absorb(Recovered(snapshot, frames[..|frames| - 1]), frames[|frames| - 1])
  }

  function AllRows(frames: seq<seq<FrameRow>>): seq<FrameRow> {
    if frames == [] then [] else AllRows(frames[..|frames| - 1]) + frames[|frames| - 1]
  }

  lemma {:induction false} NextFrame(snapshot: map<NodeKey, Data>, frames: seq<seq<FrameRow>>, frame: seq<FrameRow>)
    ensures AllRows(frames + [frame]) == AllRows(frames) + frame
    ensures Recovered(snapshot, frames + [frame]) == Absorb(Recovered(snapshot, frames), frame)
  {
    assert (frames + [frame])[..|frames|] == frames;
  }

  lemma {:induction false} AbsorbElsewhere(rows: map<NodeKey, Data>, frame: seq<FrameRow>, k: NodeKey)
    requires forall i :: 0 <= i < |frame| ==> frame[i].key != k
    ensures (k in Absorb(rows, frame) <==> k in rows) && (k in rows ==> Absorb(rows, frame)[k] == rows[k])
  {
    if frame != [] {
      AbsorbElsewhere(rows, frame[..|frame| - 1], k);
    }
  }

  lemma {:induction false} AbsorbAt(rows: map<NodeKey, Data>, frame: seq<FrameRow>, i: nat)
    requires i < |frame| && forall j, l :: 0 <= j < l < |frame| ==> frame[j].key != frame[l].key
    ensures frame[i].key in Absorb(rows, frame) && Absorb(rows, frame)[frame[i].key] == frame[i].value
  {
    if i < |frame| - 1 {
      AbsorbAt(rows, frame[..|frame| - 1], i);
    }
  }

  // ---------------------------------------------------------------- invariants

  /** Whole frames, then what the one process inside the log mutex has written of its own. */
  ghost predicate LogFits(s: State) {
    && (forall p :: p in s.procs && s.procs[p].stage.Logging? ==> s.writer == Some(p))
    && (s.writer.Some? ==> s.writer.value in s.procs && WritesFrame(s.procs[s.writer.value]))
    && s.disk == AllRows(s.frames) + OpenFrame(s)
  }

  ghost predicate WritesFrame(proc: Proc) {
    proc.stage.Logging? && Works(proc) && proc.stage.n <= |proc.goal.touched|
  }

  ghost function OpenFrame(s: State): seq<FrameRow> {
    if s.writer.Some? && s.writer.value in s.procs && WritesFrame(s.procs[s.writer.value])
    then Frame(s.procs[s.writer.value])[..s.procs[s.writer.value].stage.n] else []
  }

  /** Logged by `proc` but not fully applied. */
  predicate Owes(proc: Proc, k: NodeKey) {
    proc.stage.Applying? && proc.goal.Update? && proc.stage.n <= |proc.goal.touched| && k in proc.goal.touched[proc.stage.n..]
  }

  ghost predicate Overlaid(s: State) {
    && Recovered(s.snapshot, s.frames).Keys == s.rows.Keys
    && (forall p, k :: p in s.procs && Owes(s.procs[p], k) ==> Ahead(s, s.procs[p], k))
    && (forall k :: k in s.rows && !Owed(s, k) ==> Settled(s, k))
  }

  ghost predicate Owed(s: State, k: NodeKey) {
    exists p :: p in s.procs && Owes(s.procs[p], k)
  }

  /** The durable value is the one the process is about to apply. */
  ghost predicate Ahead(s: State, proc: Proc, k: NodeKey) {
    && k in proc.work && k in Recovered(s.snapshot, s.frames)
    && Recovered(s.snapshot, s.frames)[k] == proc.work[k]
  }

  /** The durable value is the live one. */
  ghost predicate Settled(s: State, k: NodeKey) {
    k in s.rows && k in Recovered(s.snapshot, s.frames) && Recovered(s.snapshot, s.frames)[k] == s.rows[k].value
  }

  ghost predicate Durable(s: State) {
    LogFits(s) && Overlaid(s)
  }

  // ---------------------------------------------------------------- the log file

  /** What a step does to the log. */
  lemma {:induction false} LogEffect(s: State, a: Action)
    requires Enabled(s, a)
    ensures a.p in s.procs
    ensures var s', proc := Step(s, a), s.procs[a.p];
            && (a.Decide? && a.accepted ==> proc.stage.Deciding? && s.writer == None && s' == s.(writer := Some(a.p), procs := s'.procs) && Moved(s, a) == proc.(stage := Logging(0)))
            && (a.LogRowOut? ==> proc.stage.Logging? && WorksAt(proc, proc.stage.n) && s'.writer == s.writer && s'.frames == s.frames
                                 && s'.disk == s.disk + [FrameRow(RowAt(proc, proc.stage.n), proc.work[RowAt(proc, proc.stage.n)])]
                                 && Moved(s, a) == proc.(stage := Logging(proc.stage.n + 1)))
            && (a.CloseFrame? ==> proc.stage.Logging? && Works(proc) && proc.stage.n == |proc.goal.touched| && s'.writer == None
                                  && s'.frames == s.frames + [Frame(proc)] && s'.disk == s.disk && Moved(s, a) == proc.(stage := Applying(0, false)))
            && (!(a.Decide? && a.accepted) && !a.LogRowOut? && !a.CloseFrame? ==>
                  s'.writer == s.writer && s'.disk == s.disk && s'.frames == s.frames)
  {
    hide Acyclic, GraphClaims, Plan, Free, Startable, Works, Frame, AtWrite;
  }

  lemma {:induction false} LogUntouched(s: State, a: Action)
    requires Enabled(s, a) && !(a.Decide? && a.accepted) && !a.LogRowOut? && !a.CloseFrame?
    ensures a.p in s.procs && !s.procs[a.p].stage.Logging? && !Moved(s, a).stage.Logging?
  {
    hide Acyclic, GraphClaims, Plan, Free, Startable, Works, Frame;
  }

  predicate WorksAt(proc: Proc, n: nat) {
    proc.goal.Update? && n < |proc.goal.touched| && RowAt(proc, n) in proc.work
  }

  lemma {:induction false} LogStep(s: State, a: Action)
    requires Enabled(s, a) && LogFits(s) && HaveWork(s)
    ensures LogFits(Step(s, a))
  {
    hide Enabled, Moved, Step, Frame, AllRows, Works, Recovered;
    StepFrame(s, a);
    LogEffect(s, a);
    var s', proc := Step(s, a), s.procs[a.p];
    if a.Decide? && a.accepted {
      NothingYet(s', a.p, proc);
    } else if a.LogRowOut? {
      RowOut(s, s', a.p);
    } else if a.CloseFrame? {
      FrameOut(s, s', a.p);
    } else {
      LogUntouched(s, a);
      if s.writer.Some? {
        assert s.writer.value != a.p;
      }
    }
  }

  /** Every update in progress has a copy of each row it writes. */
  ghost predicate HaveWork(s: State) {
    forall p :: p in s.procs && Committing(s.procs[p].stage) ==> Works(s.procs[p])
  }

  lemma {:induction false} NothingYet(s: State, p: int, proc: Proc)
    requires p in s.procs && s.procs[p] == proc.(stage := Logging(0)) && Works(proc) && s.writer == Some(p)
    ensures WritesFrame(s.procs[p]) && OpenFrame(s) == []
  {
  }

  lemma {:induction false} RowOut(s: State, s': State, p: int)
    requires LogFits(s) && p in s.procs && p in s'.procs && s.procs[p].stage.Logging? && s'.writer == s.writer && s'.frames == s.frames
    requires var proc := s.procs[p];
             && WorksAt(proc, proc.stage.n) && s'.procs[p] == proc.(stage := Logging(proc.stage.n + 1))
             && s'.disk == s.disk + [FrameRow(RowAt(proc, proc.stage.n), proc.work[RowAt(proc, proc.stage.n)])]
    ensures WritesFrame(s'.procs[p]) && s'.disk == AllRows(s'.frames) + OpenFrame(s') && s'.writer == Some(p)
  {
    hide AllRows;
    var proc, proc' := s.procs[p], s'.procs[p];
    var n := proc.stage.n;
    assert s.writer == Some(p) && WritesFrame(proc) && Works(proc');
    assert Frame(proc') == Frame(proc);
    assert Frame(proc)[..n + 1] == Frame(proc)[..n] + [Frame(proc)[n]];
    assert s'.disk == AllRows(s.frames) + (Frame(proc)[..n] + [Frame(proc)[n]]);
  }

  lemma {:induction false} FrameOut(s: State, s': State, p: int)
    requires LogFits(s) && p in s.procs && p in s'.procs && s.procs[p].stage.Logging? && s'.writer == None && s'.disk == s.disk
    requires var proc := s.procs[p];
             && Works(proc) && proc.stage.n == |proc.goal.touched| && s'.frames == s.frames + [Frame(proc)]
    ensures s'.disk == AllRows(s'.frames) + OpenFrame(s')
  {
    var proc := s.procs[p];
    NextFrame(s.snapshot, s.frames, Frame(proc));
    assert s.writer == Some(p) && WritesFrame(proc);
    assert Frame(proc)[..proc.stage.n] == Frame(proc);
    assert OpenFrame(s') == [] && s'.disk + [] == s'.disk;
  }

  lemma {:induction false} SessionsHaveWork(s: State)
    requires Locked(s)
    ensures HaveWork(s)
  {
    hide Acyclic, Exclusive, Planned, Climbing;
    forall p | p in s.procs && Committing(s.procs[p].stage) ensures Works(s.procs[p]) {
      assert Session(s, s.procs[p]);
    }
  }

  // ---------------------------------------------------------------- the overlay

  /** Closing a frame: the durable rows jump ahead of the live ones by exactly this frame. */
  lemma {:induction false} FrameAhead(s: State, s': State, p: int)
    requires Locked(s) && Durable(s) && p in s.procs && s'.procs == s.procs[p := s.procs[p].(stage := Applying(0, false))]
    requires s.procs[p].stage.Logging? && Works(s.procs[p]) && GoalFits(s, s.procs[p])
    requires s'.rows == s.rows && s'.snapshot == s.snapshot && s'.frames == s.frames + [Frame(s.procs[p])]
    ensures Overlaid(s')
  {
    hide Locked, LogFits, Recovered, Absorb, Frame, Works, GoalFits, Owes, Ahead, Settled;
    var proc := s.procs[p];
    FrameRows(s, s', proc);
    FrameOwes(proc);
    forall q, k | q in s'.procs && Owes(s'.procs[q], k) ensures Ahead(s', s'.procs[q], k) {
      if q != p {
        assert Ahead(s, s.procs[q], k);
        OwesApart(s, p, q, k);
      }
    }
    forall k ensures (k in proc.goal.touched ==> Owed(s', k)) && (Owed(s, k) ==> Owed(s', k)) {
      assert k in proc.goal.touched ==> Owes(s'.procs[p], k);
      if Owed(s, k) {
        var q :| q in s.procs && Owes(s.procs[q], k);
        assert q in s'.procs && Owes(s'.procs[q], k);
      }
    }
    forall k | k in s'.rows && !Owed(s', k) ensures Settled(s', k) {
      assert Settled(s, k);
    }
  }

  /** The rows of the new frame are ahead for its writer; every other row is where it was. */
  lemma {:induction false} FrameRows(s: State, s': State, proc: Proc)
    requires Recovered(s.snapshot, s.frames).Keys == s.rows.Keys && Works(proc) && GoalFits(s, proc)
    requires s'.rows == s.rows && s'.snapshot == s.snapshot && s'.frames == s.frames + [Frame(proc)]
    ensures Recovered(s'.snapshot, s'.frames).Keys == s'.rows.Keys
    ensures forall k :: k in proc.goal.touched ==> Ahead(s', proc.(stage := Applying(0, false)), k)
    ensures forall q, k :: k !in proc.goal.touched && Ahead(s, q, k) ==> Ahead(s', q, k)
    ensures forall k :: k !in proc.goal.touched && Settled(s, k) ==> Settled(s', k)
  {
    hide Absorb, Recovered;
    var before, after := Recovered(s.snapshot, s.frames), Recovered(s'.snapshot, s'.frames);
    NextFrame(s.snapshot, s.frames, Frame(proc));
    FrameKeys(s, proc);
    forall k ensures (k in after <==> k in s.rows) && (k in proc.goal.touched ==> k in proc.work && k in after && after[k] == proc.work[k])
                     && (k in before && k !in proc.goal.touched ==> k in after && after[k] == before[k])
    {
      FrameEntry(before, proc, k);
    }
    hide Frame, Works, GoalFits;
  }

  lemma {:induction false} FrameOwes(proc: Proc)
    requires Works(proc) && proc.stage.Logging?
    ensures proc.goal.Update?
    ensures forall k :: !Owes(proc, k) && (Owes(proc.(stage := Applying(0, false)), k) <==> k in proc.goal.touched)
  {
    assert proc.goal.touched[0..] == proc.goal.touched;
  }

  lemma {:induction false} FrameKeys(s: State, proc: Proc)
    requires Works(proc) && GoalFits(s, proc)
    ensures forall j, l :: 0 <= j < l < |Frame(proc)| ==> Frame(proc)[j].key != Frame(proc)[l].key
    ensures forall k :: k in proc.goal.touched ==> k in s.rows && k in proc.work
  {
    assert Distinct(proc.goal.touched);
  }

  lemma {:induction false} FrameEntry(rows: map<NodeKey, Data>, proc: Proc, k: NodeKey)
    requires Works(proc) && forall j, l :: 0 <= j < l < |Frame(proc)| ==> Frame(proc)[j].key != Frame(proc)[l].key
    ensures var after := Absorb(rows, Frame(proc));
            if k in proc.goal.touched then k in after && k in proc.work && after[k] == proc.work[k]
            else (k in after <==> k in rows) && (k in rows ==> after[k] == rows[k])
  {
    hide Absorb;
    if k in proc.goal.touched {
      var i :| 0 <= i < |proc.goal.touched| && proc.goal.touched[i] == k;
      AbsorbAt(rows, Frame(proc), i);
    } else {
      AbsorbElsewhere(rows, Frame(proc), k);
    }
  }

  lemma {:induction false} OwesApart(s: State, p: int, q: int, k: NodeKey)
    requires Locked(s) && p in s.procs && q in s.procs && p != q && Committing(s.procs[p].stage) && s.procs[p].goal.Update?
    requires Owes(s.procs[q], k)
    ensures k !in s.procs[p].goal.touched
  {
    hide Acyclic, Session, Exclusive;
    if k in s.procs[p].goal.touched {
      RowApart(s, p, q, k);
    }
  }

  /** Nothing owed, nothing changed: an unrelated step keeps the overlay. */
  lemma {:induction false} OverlaidQuiet(s: State, a: Action)
    requires Enabled(s, a) && Overlaid(s) && !a.CloseFrame? && !a.Store? && !a.Bump? && Locked(s)
    ensures Overlaid(Step(s, a))
  {
    hide Acyclic, Enabled, Moved, Step, Recovered, Session, Exclusive;
    var s' := Step(s, a);
    StepFrame(s, a);
    QuietEffect(s, a);
    QuietOwes(s, a);
    assert s'.frames == s.frames;
    forall q, k | q in s'.procs && Owes(s'.procs[q], k) ensures Ahead(s', s'.procs[q], k) {
      assert q != a.p ==> Ahead(s, s.procs[q], k);
    }
    forall k ensures Owed(s, k) ==> Owed(s', k) {
      if Owed(s, k) {
        var q :| q in s.procs && Owes(s.procs[q], k);
        assert q in s'.procs && Owes(s'.procs[q], k);
      }
    }
    forall k | k in s'.rows && !Owed(s', k) ensures Settled(s', k) {
      assert Settled(s, k);
    }
  }

  lemma {:induction false} QuietOwes(s: State, a: Action)
    requires Enabled(s, a) && !a.CloseFrame? && !a.Store? && !a.Bump?
    ensures a.p in s.procs && Step(s, a).frames == s.frames
    ensures forall k :: !Owes(Moved(s, a), k) && !Owes(s.procs[a.p], k)
  {
    hide Acyclic, GraphClaims, Plan, Free, Startable, Works, Frame;
  }

  /** A store pays nothing off yet; a bump pays off the row at the writer's position, whose durable value is now live. */
  lemma {:induction false} OverlaidWrite(s: State, a: Action)
    requires Enabled(s, a) && Overlaid(s) && (a.Store? || a.Bump?) && Locked(s) && Consistent(s)
    ensures Overlaid(Step(s, a))
  {
    hide Acyclic, Enabled, Moved, Step, Recovered, Session, Exclusive, HistoryFits, Torn, Reads, Progress, RowFits, Moves, Owes;
    var s' := Step(s, a);
    StepFrame(s, a);
    WriteEffect(s, a);
    WriterFits(s, a);
    WriterOwes(s, a);
    var proc := s.procs[a.p];
    var k := RowAt(proc, proc.stage.n);
    assert Ahead(s, proc, k);
    forall q, j | q in s'.procs && Owes(s'.procs[q], j) ensures Ahead(s', s'.procs[q], j) {
      assert Ahead(s, s.procs[q], j);
    }
    forall j ensures Owed(s, j) && j != k ==> Owed(s', j) {
      if Owed(s, j) && j != k {
        var q :| q in s.procs && Owes(s.procs[q], j);
        assert q in s'.procs && Owes(s'.procs[q], j);
      }
    }
    forall j | j in s'.rows && !Owed(s', j) ensures Settled(s', j) {
      if j == k {
        assert a.p in s'.procs && !Owes(s'.procs[a.p], k);
      } else {
        assert Settled(s, j);
      }
    }
  }

  lemma {:induction false} WriterOwes(s: State, a: Action)
    requires Enabled(s, a) && (a.Store? || a.Bump?) && Consistent(s) && GoalFits(s, s.procs[a.p])
    ensures a.p in s.procs && AtWrite(s, s.procs[a.p])
    ensures var proc, s' := s.procs[a.p], Step(s, a);
            var k := RowAt(proc, proc.stage.n);
            && s'.frames == s.frames && Moved(s, a).work == proc.work && Owes(proc, k)
            && (forall j :: Owes(Moved(s, a), j) <==> Owes(proc, j) && (a.Bump? ==> j != k))
            && (a.Bump? ==> k in proc.work && s'.rows[k].value == proc.work[k])
  {
    hide Acyclic, HistoryFits, Torn, Reads;
    var proc := s.procs[a.p];
    var n := proc.stage.n;
    var k := RowAt(proc, n);
    assert Progress(s, proc) && (a.Bump? ==> Storing(s, proc, k));
    assert proc.goal.touched[n..] == [k] + proc.goal.touched[n + 1..];
    assert forall i :: n < i < |proc.goal.touched| ==> proc.goal.touched[i] != k;
  }

  lemma {:induction false} StepKeepsDurable(s: State, a: Action)
    requires Enabled(s, a) && Locked(s) && Consistent(s) && Durable(s)
    ensures Durable(Step(s, a))
  {
    hide Acyclic, Enabled, Moved, Step, Session, Exclusive, Consistent, LogFits, Overlaid, Recovered;
    SessionsHaveWork(s);
    LogStep(s, a);
    if a.CloseFrame? {
      CloseKeeps(s, a);
    } else if a.Store? || a.Bump? {
      OverlaidWrite(s, a);
    } else {
      OverlaidQuiet(s, a);
    }
  }

  lemma {:induction false} CloseKeeps(s: State, a: Action)
    requires Enabled(s, a) && a.CloseFrame? && Locked(s) && Durable(s)
    ensures Overlaid(Step(s, a))
  {
    LogEffect(s, a);
    assert Session(s, s.procs[a.p]);
    hide Acyclic, Exclusive, LogFits, Overlaid, Recovered, Moved;
    FrameAhead(s, Step(s, a), a.p);
  }

  // ---------------------------------------------------------------- whole runs

  lemma {:induction false} InitialDurable(s: State)
    requires Initial(s)
    ensures Durable(s)
  {
    hide Acyclic;
    assert s.disk == AllRows(s.frames) + OpenFrame(s);
    forall k | k in s.rows ensures Settled(s, k) {
    }
  }

  lemma {:induction false} RunDurable(states: seq<State>, actions: seq<Action>, i: nat)
    requires Run(states, actions) && i < |states|
    ensures Durable(states[i])
  {
    hide Initial, Enabled, Step, Locked, Consistent, Durable;
    if i == 0 {
      InitialDurable(states[0]);
    } else {
      RunDurable(states, actions, i - 1);
      RunSafe(states, actions, i - 1);
      StepKeepsDurable(states[i - 1], actions[i - 1]);
    }
  }

  /** At every moment of every run, replaying the whole frames over the snapshot gives the live rows, overlaid with
      the writes that are logged but not fully applied; and each such row is owed by one process only. */
  lemma {:induction false} DurableIsLiveOverlaid(states: seq<State>, actions: seq<Action>, i: nat, k: NodeKey)
    requires Run(states, actions) && i < |states|
    ensures var s := states[i];
            var recovered := Recovered(s.snapshot, s.frames);
            && (k in recovered <==> k in s.rows)
            && (forall p :: p in s.procs && Owes(s.procs[p], k) ==>
                  k in recovered && k in s.procs[p].work && recovered[k] == s.procs[p].work[k])
            && (k in s.rows && (forall p :: p in s.procs ==> !Owes(s.procs[p], k)) ==> recovered[k] == s.rows[k].value)
            && (forall p, q :: p in s.procs && q in s.procs && Owes(s.procs[p], k) && Owes(s.procs[q], k) ==> p == q)
  {
    RunSafe(states, actions, i);
    RunDurable(states, actions, i);
    var s := states[i];
    hide Run, Consistent, LogFits, Recovered, Session, Exclusive, Acyclic;
    assert (forall p :: p in s.procs ==> !Owes(s.procs[p], k)) ==> !Owed(s, k);
    forall p | p in s.procs && Owes(s.procs[p], k) ensures Ahead(s, s.procs[p], k) {
    }
    forall p, q | p in s.procs && q in s.procs && Owes(s.procs[p], k) && Owes(s.procs[q], k) ensures p == q {
      if p != q {
        OwesApart(s, p, q, k);
      }
    }
    assert k in s.rows && !Owed(s, k) ==> Settled(s, k);
  }

  /** The log file is whole frames, then at most the beginning of one more: rows of two commits never mix. */
  lemma {:induction false} FramesUnsplit(states: seq<State>, actions: seq<Action>, i: nat)
    requires Run(states, actions) && i < |states|
    ensures var s := states[i];
            && AllRows(s.frames) <= s.disk
            && var open := s.disk[|AllRows(s.frames)|..];
            (open == [] || (s.writer.Some? && s.writer.value in s.procs && Works(s.procs[s.writer.value])
                            && open <= Frame(s.procs[s.writer.value])))
  {
    RunDurable(states, actions, i);
    var s := states[i];
    hide Run, Overlaid, AllRows;
    assert s.disk == AllRows(s.frames) + OpenFrame(s);
    assert s.disk[|AllRows(s.frames)|..] == OpenFrame(s);
  }
}
