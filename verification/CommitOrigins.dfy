/** Where a written value came from: over every interleaving a version is the writer's own edits on top of the version just before it. */
module CommitOrigins {
  import opened Wrappers
  import opened Bytes
  import opened RelationSchema
  import opened OwnershipForest
  import opened CommitProtocol
  import opened CommitSafety
  import opened CommitHistory

  /** A working copy: the row value it was taken from, and what it has become. */
  datatype Draft = Draft(origin: Data, value: Data)

  /** The row a process has last turned to in a refresh. */
  ghost function Turned(actions: seq<Action>, i: nat, p: int): Option<NodeKey>
    requires i <= |actions|
  {
    if i == 0 then None
    else
      match actions[i - 1]
      case RefreshVersion(q, key) => if q == p then Some(key) else Turned(actions, i - 1, p)
      case _ => Turned(actions, i - 1, p)
  }

  /** What that row held when the process read it to copy it. */
  ghost function ReadBack(states: seq<State>, actions: seq<Action>, i: nat, p: int): Data
    requires i <= |actions| < |states|
  {
    if i == 0 then []
    else
      match actions[i - 1]
      case RefreshBase(q) =>
        if q == p && Turned(actions, i - 1, p).Some? && Turned(actions, i - 1, p).value in states[i - 1].rows
        then states[i - 1].rows[Turned(actions, i - 1, p).value].value
        else ReadBack(states, actions, i - 1, p)
      case _ => ReadBack(states, actions, i - 1, p)
  }

  /** The working copy of a row after the first `i` steps: taken by a first fetch or by a refresh, changed by edits, gone once committed. */
  ghost function DraftAt(states: seq<State>, actions: seq<Action>, i: nat, p: int, k: NodeKey): Option<Draft>
    requires i <= |actions| < |states|
  {
    if i == 0 then None
    else
      var draft, a := DraftAt(states, actions, i - 1, p, k), actions[i - 1];
      if a.p != p then draft
      else
        match a
        case Edit(_, key, value) => if key == k && draft.Some? then Some(Draft(draft.value.origin, value)) else draft
        case Copy(_, key) =>
          if key == k && draft == None && k in states[i - 1].rows
          then Some(Draft(states[i - 1].rows[k].value, states[i - 1].rows[k].value)) else draft
        case RefreshOriginal(_) =>
          if Turned(actions, i - 1, p) == Some(k)
          then Some(Draft(ReadBack(states, actions, i - 1, p), ReadBack(states, actions, i - 1, p))) else draft
        case Applied(_) => if p in states[i - 1].procs && states[i - 1].procs[p].goal.Update? && states[i - 1].procs[p].goal.regraph then draft else None
        case Publish(_, _) => None
        case _ => draft
  }

  // ---------------------------------------------------------------- copies are what was read and edited

  /** The copy is the draft, and what it was recorded from is the draft's origin. */
  ghost predicate CopyIs(proc: Proc, k: NodeKey, draft: Option<Draft>) {
    && (k in proc.work <==> draft.Some?) && (k in proc.snaps <==> draft.Some?)
    && (draft.Some? && k in proc.work && k in proc.snaps ==> proc.work[k] == draft.value.value && proc.snaps[k].base == draft.value.origin)
  }

  ghost predicate RefreshIs(proc: Proc, turned: Option<NodeKey>, read: Data) {
    match proc.stage
    case Refreshing(key, draft, n) => key.Some? ==> key == turned && (n == 2 ==> draft.base == read)
    case _ => true
  }

  ghost predicate Tracked(states: seq<State>, actions: seq<Action>, i: nat, p: int)
    requires i <= |actions| < |states|
  {
    p in states[i].procs ==>
      && (forall k :: CopyIs(states[i].procs[p], k, DraftAt(states, actions, i, p, k)))
      && RefreshIs(states[i].procs[p], Turned(actions, i, p), ReadBack(states, actions, i, p))
  }

  lemma {:induction false} TrackStart(states: seq<State>, actions: seq<Action>, p: int)
    requires Run(states, actions)
    ensures Tracked(states, actions, 0, p)
  {
  }

  lemma {:induction false} RunStep(states: seq<State>, actions: seq<Action>, i: nat)
    requires Run(states, actions) && i < |actions|
    ensures |states| == |actions| + 1 && Enabled(states[i], actions[i]) && states[i + 1] == Step(states[i], actions[i])
  {
    hide Initial, Enabled, Step;
  }

  /** A step of another process changes nothing of this one. */
  lemma {:induction false} OthersStep(states: seq<State>, actions: seq<Action>, i: nat, p: int)
    requires i < |actions| < |states| && Enabled(states[i], actions[i]) && states[i + 1] == Step(states[i], actions[i])
    requires actions[i].p != p && Tracked(states, actions, i, p)
    ensures Tracked(states, actions, i + 1, p)
  {
    hide CopyIs, RefreshIs, Enabled, Moved, Step;
    StepFrame(states[i], actions[i]);
    var j := i + 1;
    assert Turned(actions, j, p) == Turned(actions, i, p);
    assert ReadBack(states, actions, j, p) == ReadBack(states, actions, i, p);
    if p in states[i].procs {
      forall k ensures CopyIs(states[j].procs[p], k, DraftAt(states, actions, j, p, k)) {
        assert CopyIs(states[i].procs[p], k, DraftAt(states, actions, i, p, k));
      }
    }
  }

  lemma {:induction false} OwnCopy(states: seq<State>, actions: seq<Action>, i: nat, p: int, k: NodeKey)
    requires i < |actions| < |states| && actions[i].p == p && Tracked(states, actions, i, p) && Enabled(states[i], actions[i])
    ensures CopyIs(Moved(states[i], actions[i]), k, DraftAt(states, actions, i + 1, p, k))
  {
    hide Acyclic, Free, Plan, GraphClaims, Startable, Turned, ReadBack;
    assert CopyIs(states[i].procs[p], k, DraftAt(states, actions, i, p, k));
  }

  lemma {:induction false} OwnRefresh(states: seq<State>, actions: seq<Action>, i: nat, p: int)
    requires i < |actions| < |states| && actions[i].p == p && Tracked(states, actions, i, p) && Enabled(states[i], actions[i])
    ensures RefreshIs(Moved(states[i], actions[i]), Turned(actions, i + 1, p), ReadBack(states, actions, i + 1, p))
  {
    hide Acyclic, Free, Plan, GraphClaims, Startable, CopyIs, DraftAt;
  }

  lemma {:induction false} OwnStep(states: seq<State>, actions: seq<Action>, i: nat, p: int)
    requires i < |actions| < |states| && Enabled(states[i], actions[i]) && states[i + 1] == Step(states[i], actions[i])
    requires actions[i].p == p && Tracked(states, actions, i, p)
    ensures Tracked(states, actions, i + 1, p)
  {
    hide CopyIs, RefreshIs, Enabled, Moved, Step, DraftAt, Turned, ReadBack;
    StepFrame(states[i], actions[i]);
    OwnRefresh(states, actions, i, p);
    var j, proc := i + 1, states[i + 1].procs[p];
    forall k ensures CopyIs(proc, k, DraftAt(states, actions, j, p, k)) {
      OwnCopy(states, actions, i, p, k);
    }
  }

  lemma {:induction false} CopiesTracked(states: seq<State>, actions: seq<Action>, i: nat, p: int)
    requires Run(states, actions) && i < |states|
    ensures |states| == |actions| + 1 && Tracked(states, actions, i, p)
  {
    hide Tracked, Enabled, Step;
    if i == 0 {
      TrackStart(states, actions, p);
    } else {
      CopiesTracked(states, actions, i - 1, p);
      RunStep(states, actions, i - 1);
      if actions[i - 1].p == p {
        OwnStep(states, actions, i - 1, p);
      } else {
        OthersStep(states, actions, i - 1, p);
      }
    }
    hide Initial;
  }

  /** Over every run, what a process has of a row is what it took from the row, with its own edits since. */
  lemma {:induction false} CopyIsDraft(states: seq<State>, actions: seq<Action>, i: nat, p: int, k: NodeKey)
    requires Run(states, actions) && i < |states| && p in states[i].procs
    ensures k in states[i].procs[p].work <==> DraftAt(states, actions, i, p, k).Some?
    ensures k in states[i].procs[p].work ==> states[i].procs[p].work[k] == DraftAt(states, actions, i, p, k).value.value
  {
    hide Run, Turned, ReadBack, DraftAt, RefreshIs;
    CopiesTracked(states, actions, i, p);
    assert CopyIs(states[i].procs[p], k, DraftAt(states, actions, i, p, k));
  }

  /** Without an edit since it was taken, a copy is still the value it was taken from. */
  lemma {:induction false} UneditedIsOrigin(states: seq<State>, actions: seq<Action>, m: nat, j: nat, p: int, k: NodeKey)
    requires m <= j <= |actions| < |states|
    requires DraftAt(states, actions, m, p, k).Some? ==> DraftAt(states, actions, m, p, k).value.value == DraftAt(states, actions, m, p, k).value.origin
    requires forall i :: m <= i < j ==> !(actions[i].Edit? && actions[i].p == p && actions[i].key == k)
    ensures DraftAt(states, actions, j, p, k).Some? ==> DraftAt(states, actions, j, p, k).value.value == DraftAt(states, actions, j, p, k).value.origin
  {
    hide Turned, ReadBack;
    if m < j {
      UneditedIsOrigin(states, actions, m, j - 1, p, k);
      assert !(actions[j - 1].Edit? && actions[j - 1].p == p && actions[j - 1].key == k);
    }
  }

  // ---------------------------------------------------------------- versions are copies of the version before

  /** Step `j` stores a copy of the row that was taken from `prior` and had become `value`. */
  ghost predicate Stores(states: seq<State>, actions: seq<Action>, j: nat, k: NodeKey, prior: Data, value: Data)
    requires |actions| < |states|
  {
    && j < |actions| && actions[j].Store? && actions[j].p in states[j].procs && AtWrite(states[j], states[j].procs[actions[j].p])
    && RowAt(states[j].procs[actions[j].p], states[j].procs[actions[j].p].stage.n) == k
    && DraftAt(states, actions, j, actions[j].p, k) == Some(Draft(prior, value))
  }

  ghost predicate StoredBy(states: seq<State>, actions: seq<Action>, i: nat, k: NodeKey, prior: Data, value: Data)
    requires |actions| < |states|
  {
    exists j: nat :: j < i && Stores(states, actions, j, k, prior, value)
  }

  lemma {:induction false} StoredStays(states: seq<State>, actions: seq<Action>, i: nat, k: NodeKey)
    requires |actions| < |states|
    ensures forall prior, value :: StoredBy(states, actions, i, k, prior, value) ==> StoredBy(states, actions, i + 1, k, prior, value)
  {
    hide Stores;
  }

  /** Every version but the first was stored from a copy of the one before; so will be the one that is half written. */
  ghost predicate Sourced(states: seq<State>, actions: seq<Action>, i: nat, k: NodeKey)
    requires i <= |actions| < |states|
  {
    k in states[i].rows && k in states[i].history ==>
      var h := states[i].history[k];
      && (forall v :: 0 < v < |h| ==> StoredBy(states, actions, i, k, h[v - 1].value, h[v].value))
      && (states[i].rows[k].torn && h != [] ==> StoredBy(states, actions, i, k, Last(h).value, states[i].rows[k].value))
  }

  lemma {:induction false} QuietSourced(states: seq<State>, actions: seq<Action>, i: nat, k: NodeKey)
    requires i < |actions| < |states| && Sourced(states, actions, i, k)
    requires k in states[i].rows && k in states[i].history ==>
               && k in states[i + 1].rows && k in states[i + 1].history
               && states[i + 1].rows[k] == states[i].rows[k] && states[i + 1].history[k] == states[i].history[k]
    requires k in states[i + 1].rows && k in states[i + 1].history ==> k in states[i].rows && k in states[i].history
    ensures Sourced(states, actions, i + 1, k)
  {
    hide StoredBy;
    StoredStays(states, actions, i, k);
  }

  /** What is stored is the writer's copy, and it was taken from the newest version. */
  lemma {:induction false} StoreSource(states: seq<State>, actions: seq<Action>, i: nat)
    requires i < |actions| < |states| && Enabled(states[i], actions[i]) && actions[i].Store?
    requires Consistent(states[i]) && Tracked(states, actions, i, actions[i].p)
    ensures AtWrite(states[i], states[i].procs[actions[i].p])
    ensures var proc := states[i].procs[actions[i].p];
            var k := RowAt(proc, proc.stage.n);
            states[i].history[k] != [] && k in proc.work && Stores(states, actions, i, k, Last(states[i].history[k]).value, proc.work[k])
  {
    hide DraftAt, Turned, ReadBack, Acyclic, Torn, Chained;
    var proc := states[i].procs[actions[i].p];
    var k := RowAt(proc, proc.stage.n);
    assert Matches(states[i], proc, k);
    assert RowFits(states[i].rows[k], states[i].history[k]);
    assert CopyIs(proc, k, DraftAt(states, actions, i, actions[i].p, k));
  }

  lemma {:induction false} StoreSourced(states: seq<State>, actions: seq<Action>, i: nat, k: NodeKey)
    requires i < |actions| < |states| && Enabled(states[i], actions[i]) && states[i + 1] == Step(states[i], actions[i]) && actions[i].Store?
    requires Consistent(states[i]) && Tracked(states, actions, i, actions[i].p) && Sourced(states, actions, i, k)
    requires AtWrite(states[i], states[i].procs[actions[i].p])
    requires k == RowAt(states[i].procs[actions[i].p], states[i].procs[actions[i].p].stage.n)
    ensures Sourced(states, actions, i + 1, k)
  {
    hide Enabled, Moved, Step, Stores, Tracked, Consistent;
    WriterStage(states[i], actions[i]);
    StoreSource(states, actions, i);
    StoredStays(states, actions, i, k);
  }

  lemma {:induction false} BumpSourced(states: seq<State>, actions: seq<Action>, i: nat, k: NodeKey)
    requires i < |actions| < |states| && Enabled(states[i], actions[i]) && states[i + 1] == Step(states[i], actions[i]) && actions[i].Bump?
    requires Consistent(states[i]) && Sourced(states, actions, i, k)
    requires AtWrite(states[i], states[i].procs[actions[i].p])
    requires k == RowAt(states[i].procs[actions[i].p], states[i].procs[actions[i].p].stage.n)
    ensures Sourced(states, actions, i + 1, k)
  {
    hide Moved, StoredBy, Acyclic, Torn, Chained;
    StoredStays(states, actions, i, k);
    var s, proc := states[i], states[i].procs[actions[i].p];
    assert Storing(s, proc, k);
    var h, h' := s.history[k], states[i + 1].history[k];
    var snap := proc.snaps[k];
    assert h' == h + [Written(s.rows[k].value, snap.version, snap.base, snap.original)] && !states[i + 1].rows[k].torn;
    forall v | 0 < v < |h'| ensures StoredBy(states, actions, i + 1, k, h'[v - 1].value, h'[v].value) {
      if v < |h| {
        assert h'[v - 1] == h[v - 1] && h'[v] == h[v];
      } else {
        assert h'[v - 1] == Last(h);
      }
    }
  }

  lemma {:induction false} StepSourced(states: seq<State>, actions: seq<Action>, i: nat, k: NodeKey)
    requires i < |actions| < |states| && Enabled(states[i], actions[i]) && states[i + 1] == Step(states[i], actions[i])
    requires Consistent(states[i]) && Tracked(states, actions, i, actions[i].p) && Sourced(states, actions, i, k)
    ensures Sourced(states, actions, i + 1, k)
  {
    hide Enabled, Moved, Step, Consistent, Tracked, Sourced, Moves, RowFits;
    var s, a := states[i], actions[i];
    StepFrame(s, a);
    if a.Store? || a.Bump? {
      WriteEffect(s, a);
      if k == RowAt(s.procs[a.p], s.procs[a.p].stage.n) {
        if a.Store? {
          StoreSourced(states, actions, i, k);
        } else {
          BumpSourced(states, actions, i, k);
        }
      } else {
        QuietSourced(states, actions, i, k);
      }
    } else {
      QuietEffect(s, a);
      QuietSourced(states, actions, i, k);
    }
  }

  lemma {:induction false} SourcedStart(states: seq<State>, actions: seq<Action>, k: NodeKey)
    requires Run(states, actions)
    ensures |states| == |actions| + 1 && Sourced(states, actions, 0, k)
  {
  }

  lemma {:induction false} RunSourced(states: seq<State>, actions: seq<Action>, i: nat, k: NodeKey)
    requires Run(states, actions) && i < |states|
    ensures |states| == |actions| + 1 && Sourced(states, actions, i, k)
  {
    hide Enabled, Step, StoredBy, Tracked, Locked, Consistent, Sourced, Initial;
    if i == 0 {
      SourcedStart(states, actions, k);
    } else {
      RunSourced(states, actions, i - 1, k);
      RunStep(states, actions, i - 1);
      RunSafe(states, actions, i - 1);
      CopiesTracked(states, actions, i - 1, actions[i - 1].p);
      StepSourced(states, actions, i - 1, k);
    }
  }

  /** No lost update. Over every run of any number of processes, each version of each row was stored from a copy taken from the version just
      before it, at the version number just before it, and is that copy with the writer's own edits since. */
  lemma {:induction false} NoLostUpdate(states: seq<State>, actions: seq<Action>, i: nat, k: NodeKey, v: nat)
    requires Run(states, actions) && i < |states| && k in states[i].history && 0 < v < |states[i].history[k]|
    ensures |states| == |actions| + 1
    ensures var h := states[i].history[k];
            && h[v].version == v - 1 && h[v].base == h[v].original == h[v - 1].value
            && StoredBy(states, actions, i, k, h[v - 1].value, h[v].value)
  {
    hide Run, StoredBy;
    RunSourced(states, actions, i, k);
    ReadsPrevious(states, actions, i, k, v);
    RunKeys(states, actions, i, k);
  }

  lemma {:induction false} RunKeys(states: seq<State>, actions: seq<Action>, i: nat, k: NodeKey)
    requires Run(states, actions) && i < |states|
    ensures k in states[i].history <==> k in states[i].rows
  {
    RunSafe(states, actions, i);
    hide Run, Locked;
  }

  /** A process that stores a row without having edited it since it took its copy stores the version that is there. */
  lemma {:induction false} UneditedStoreChangesNothing(states: seq<State>, actions: seq<Action>, m: nat, j: nat, k: NodeKey, prior: Data, value: Data)
    requires m <= j < |actions| < |states| && Stores(states, actions, j, k, prior, value)
    requires var taken := DraftAt(states, actions, m, actions[j].p, k); taken.Some? ==> taken.value.value == taken.value.origin
    requires forall i :: m <= i < j ==> !(actions[i].Edit? && actions[i].p == actions[j].p && actions[i].key == k)
    ensures value == prior
  {
    UneditedIsOrigin(states, actions, m, j, actions[j].p, k);
    hide DraftAt;
  }
}
