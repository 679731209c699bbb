/** The schema-time search for unsatisfiable cycles: a depth-first walk over the required edges of the type graph. */
module RequiredCycles {
  import opened RelationSchema

  /** An edge every instance must have: any of the kind, except own slices, which may be empty. */
  predicate IsRequiredTypeEdge(spec: Spec, kind: Kind) {
    spec.kind == kind && (kind != Own || !spec.many)
  }

  predicate RequiredEdge(sc: Schema, kind: Kind, a: string, b: string) {
    a in sc && exists f :: f in sc[a] && IsRequiredTypeEdge(sc[a][f], kind) && sc[a][f].target == b
  }

  /** `b` is `n` required edges away from `a`. */
  ghost predicate Steps(sc: Schema, kind: Kind, a: string, n: nat, b: string)
    decreases n
  {
    if n == 0 then a == b else exists m :: RequiredEdge(sc, kind, a, m) && Steps(sc, kind, m, n - 1, b)
  }

  ghost predicate LeadsTo(sc: Schema, kind: Kind, a: string, b: string) {
    exists n: nat :: n > 0 && Steps(sc, kind, a, n, b)
  }

  ghost predicate Cyclic(sc: Schema, kind: Kind) {
    exists t :: LeadsTo(sc, kind, t, t)
  }

  lemma {:induction false} StepsOn(sc: Schema, kind: Kind, a: string, n: nat, b: string, c: string)
    requires Steps(sc, kind, a, n, b) && RequiredEdge(sc, kind, b, c)
    ensures Steps(sc, kind, a, n + 1, c)
    decreases n
  {
    if n == 0 {
      assert Steps(sc, kind, c, 0, c);
    } else {
      var m :| RequiredEdge(sc, kind, a, m) && Steps(sc, kind, m, n - 1, b);
      StepsOn(sc, kind, m, n - 1, b, c);
    }
  }

  /** Grey while on the current path, black once everything below is known to be free of cycles. */
  datatype Mark = Visiting | Visited

  type Marks = map<string, Mark>

  predicate IsVisited(state: Marks, t: string) {
    t in state && state[t] == Visited
  }

  /** Black types lead only to black types and lie on no cycle. */
  ghost predicate BlackSound(sc: Schema, kind: Kind, state: Marks) {
    && (forall a, b :: IsVisited(state, a) && RequiredEdge(sc, kind, a, b) ==> IsVisited(state, b))
    && (forall a :: IsVisited(state, a) ==> !LeadsTo(sc, kind, a, a))
  }

  /** Every type on the current path leads to `t`. */
  ghost predicate PathTo(sc: Schema, kind: Kind, state: Marks, t: string) {
    forall a :: a in state && state[a] == Visiting ==> LeadsTo(sc, kind, a, t)
  }

  lemma {:induction false} BlackStays(sc: Schema, kind: Kind, state: Marks, a: string, n: nat, b: string)
    requires BlackSound(sc, kind, state) && IsVisited(state, a) && Steps(sc, kind, a, n, b)
    ensures IsVisited(state, b)
    decreases n
  {
    if n > 0 {
      var m :| RequiredEdge(sc, kind, a, m) && Steps(sc, kind, m, n - 1, b);
      BlackStays(sc, kind, state, m, n - 1, b);
    }
  }

  /** A type whose every required edge leads to a black type is on no cycle itself. */
  lemma {:induction false} Blacken(sc: Schema, kind: Kind, state: Marks, t: string)
    requires BlackSound(sc, kind, state) && !IsVisited(state, t)
    requires forall b :: RequiredEdge(sc, kind, t, b) ==> IsVisited(state, b)
    ensures BlackSound(sc, kind, state[t := Visited])
  {
    if n: nat :| n > 0 && Steps(sc, kind, t, n, t) {
      var m :| RequiredEdge(sc, kind, t, m) && Steps(sc, kind, m, n - 1, t);
      BlackStays(sc, kind, state, m, n - 1, t);
    }
    hide RequiredEdge, LeadsTo;
  }

  function AllTypes(sc: Schema): set<string> {
    sc.Keys + set t, f | t in sc && f in sc[t] :: sc[t][f].target
  }

  lemma {:induction false} PathGrows(sc: Schema, kind: Kind, state: Marks, t: string, b: string)
    requires PathTo(sc, kind, state, t) && RequiredEdge(sc, kind, t, b)
    ensures PathTo(sc, kind, state[t := Visiting], b)
  {
    hide RequiredEdge;
    forall a | a in state && state[a] == Visiting ensures LeadsTo(sc, kind, a, b) {
      var n: nat :| n > 0 && Steps(sc, kind, a, n, t);
      StepsOn(sc, kind, a, n, t, b);
    }
    assert Steps(sc, kind, t, 0, t);
    StepsOn(sc, kind, t, 0, t, b);
  }

  /** The black types grew, the path did not. */
  ghost predicate Deeper(before: Marks, after: Marks) {
    && (forall a :: a in before && before[a] == Visiting ==> a in after && after[a] == Visiting)
    && (forall a :: IsVisited(before, a) ==> IsVisited(after, a))
    && (forall a :: a in after && after[a] == Visiting ==> a in before && before[a] == Visiting)
  }

  /** Visit one type: refuse exactly when a cycle can be reached through it. */
  method VisitRequiredType(sc: Schema, kind: Kind, t: string, before: Marks) returns (ok: bool, state: Marks)
    requires t in AllTypes(sc) && before.Keys <= AllTypes(sc)
    requires BlackSound(sc, kind, before) && PathTo(sc, kind, before, t)
    ensures !ok ==> Cyclic(sc, kind)
    ensures ok ==> state.Keys <= AllTypes(sc) && BlackSound(sc, kind, state) && Deeper(before, state) && IsVisited(state, t)
    decreases AllTypes(sc) - before.Keys
  {
    hide BlackSound, PathTo, RequiredEdge, AllTypes, LeadsTo;
    state := before;
    if t in before && before[t] == Visiting {
      OnPathIsCycle(sc, kind, before, t);
      return false, state;
    }
    if t in before {
      return true, state;
    }
    state := before[t := Visiting];
    GreyKeeps(sc, kind, before, t);
    var rest := if t in sc then sc[t].Keys else {};
    while rest != {}
      invariant rest <= if t in sc then sc[t].Keys else {}
      invariant state.Keys <= AllTypes(sc) && BlackSound(sc, kind, state) && Deeper(before[t := Visiting], state)
      invariant forall f :: t in sc && f in sc[t] && f !in rest && IsRequiredTypeEdge(sc[t][f], kind) ==> IsVisited(state, sc[t][f].target)
      decreases |rest|
    {
      var f :| f in rest;
      rest := rest - {f};
      if IsRequiredTypeEdge(sc[t][f], kind) {
        EdgeIs(sc, kind, t, f);
        PathGrows(sc, kind, before, t, sc[t][f].target);
        SamePath(sc, kind, before[t := Visiting], state, sc[t][f].target);
        Fewer(before, state, t, AllTypes(sc));
        ghost var middle := state;
        ok, state := VisitRequiredType(sc, kind, sc[t][f].target, state);
        if !ok {
          return;
        }
        DeeperChain(before[t := Visiting], middle, state);
      }
    }
    EdgesVisited(sc, kind, t, state);
    Blacken(sc, kind, state, t);
    Closed(before, state, t);
    state := state[t := Visited];
    ok := true;
  }

  lemma {:induction false} Closed(before: Marks, state: Marks, t: string)
    requires t !in before && Deeper(before[t := Visiting], state)
    ensures Deeper(before, state[t := Visited]) && t in state && !IsVisited(state, t)
  {
    var grey := before[t := Visiting];
    assert t in grey && grey[t] == Visiting;
    forall a | a in before ensures a in grey && grey[a] == before[a] {
    }
    forall a | IsVisited(before, a) ensures IsVisited(state, a) {
      assert IsVisited(grey, a);
    }
  }

  lemma {:induction false} OnPathIsCycle(sc: Schema, kind: Kind, state: Marks, t: string)
    requires PathTo(sc, kind, state, t) && t in state && state[t] == Visiting
    ensures Cyclic(sc, kind)
  {
  }

  lemma {:induction false} GreyKeeps(sc: Schema, kind: Kind, state: Marks, t: string)
    requires BlackSound(sc, kind, state) && t !in state
    ensures BlackSound(sc, kind, state[t := Visiting])
  {
    hide RequiredEdge, LeadsTo;
  }

  lemma {:induction false} EdgeIs(sc: Schema, kind: Kind, t: string, f: nat)
    requires t in sc && f in sc[t] && IsRequiredTypeEdge(sc[t][f], kind)
    ensures RequiredEdge(sc, kind, t, sc[t][f].target) && sc[t][f].target in AllTypes(sc)
  {
  }

  lemma {:induction false} SamePath(sc: Schema, kind: Kind, before: Marks, after: Marks, t: string)
    requires PathTo(sc, kind, before, t) && Deeper(before, after)
    ensures PathTo(sc, kind, after, t)
  {
    hide LeadsTo;
  }

  lemma {:induction false} Fewer(before: Marks, state: Marks, t: string, all: set<string>)
    requires Deeper(before[t := Visiting], state) && t !in before && t in all
    ensures all - state.Keys < all - before.Keys
  {
    var grey := before[t := Visiting];
    forall a | a in grey ensures a in state {
      if grey[a] == Visited {
        assert IsVisited(grey, a);
      }
    }
    assert t in grey;
    assert forall a :: a in before ==> a in grey;
    assert t in all - before.Keys && t !in all - state.Keys;
  }

  lemma {:induction false} DeeperChain(a: Marks, b: Marks, c: Marks)
    requires Deeper(a, b) && Deeper(b, c)
    ensures Deeper(a, c)
  {
  }

  lemma {:induction false} EdgesVisited(sc: Schema, kind: Kind, t: string, state: Marks)
    requires forall f :: t in sc && f in sc[t] && IsRequiredTypeEdge(sc[t][f], kind) ==> IsVisited(state, sc[t][f].target)
    ensures forall b :: RequiredEdge(sc, kind, t, b) ==> IsVisited(state, b)
  {
  }

  /** Refuse exactly the schemas whose required edges of one kind close a cycle. */
  method ValidateRequiredCycles(sc: Schema, kind: Kind) returns (ok: bool)
    ensures ok <==> !Cyclic(sc, kind)
    ensures ok <==> forall path :: !WayRound(sc, kind, path)
  {
    hide BlackSound, PathTo, RequiredEdge, AllTypes, WayRound;
    CyclicMeans(sc, kind);
    var state: Marks := map[];
    NothingMarked(sc, kind);
    var rest := sc.Keys;
    while rest != {}
      invariant rest <= sc.Keys && state.Keys <= AllTypes(sc) && BlackSound(sc, kind, state)
      invariant forall a :: a in state ==> state[a] == Visited
      invariant forall t :: t in sc && t !in rest ==> IsVisited(state, t)
      decreases |rest|
    {
      var t :| t in rest;
      rest := rest - {t};
      TypeKnown(sc, t);
      NothingOpen(sc, kind, state, t);
      ghost var before := state;
      ok, state := VisitRequiredType(sc, kind, t, state);
      if !ok {
        return;
      }
      assert forall a :: a in state && state[a] == Visiting ==> a in before;
    }
    AllBlack(sc, kind, state);
    ok := true;
  }

  lemma {:induction false} NothingMarked(sc: Schema, kind: Kind)
    ensures BlackSound(sc, kind, map[])
  {
  }

  lemma {:induction false} TypeKnown(sc: Schema, t: string)
    requires t in sc
    ensures t in AllTypes(sc)
  {
  }

  lemma {:induction false} NothingOpen(sc: Schema, kind: Kind, state: Marks, t: string)
    requires forall a :: a in state ==> state[a] == Visited
    ensures PathTo(sc, kind, state, t)
  {
  }

  lemma {:induction false} AllBlack(sc: Schema, kind: Kind, state: Marks)
    requires BlackSound(sc, kind, state) && forall t :: t in sc ==> IsVisited(state, t)
    ensures !Cyclic(sc, kind)
  {
    forall t ensures !LeadsTo(sc, kind, t, t) {
      if t !in sc {
        NoWayOut(sc, kind, t);
      }
    }
  }

  lemma {:induction false} NoWayOut(sc: Schema, kind: Kind, t: string)
    requires t !in sc
    ensures forall b :: !LeadsTo(sc, kind, t, b)
  {
    assert forall b :: !RequiredEdge(sc, kind, t, b);
  }

  // ---------------------------------------------------------------- cycles, type by type

  /** Every row of type `a` needs a row of type `b` through a field of the kind; an own slice needs none. */
  predicate Needs(sc: Schema, kind: Kind, a: string, b: string) {
    a in sc && exists f :: f in sc[a] && sc[a][f].kind == kind && sc[a][f].target == b && !(kind.Own? && sc[a][f].many)
  }

  /** A way round from a type back to itself, each needing the next. */
  ghost predicate WayRound(sc: Schema, kind: Kind, path: seq<string>) {
    |path| >= 2 && path[0] == path[|path| - 1] && forall i :: 0 <= i < |path| - 1 ==> Needs(sc, kind, path[i], path[i + 1])
  }

  lemma {:induction false} NeedIs(sc: Schema, kind: Kind, a: string, b: string)
    ensures RequiredEdge(sc, kind, a, b) <==> Needs(sc, kind, a, b)
  {
  }

  lemma {:induction false} PathSteps(sc: Schema, kind: Kind, path: seq<string>, n: nat)
    requires n < |path| && forall i :: 0 <= i < |path| - 1 ==> Needs(sc, kind, path[i], path[i + 1])
    ensures Steps(sc, kind, path[0], n, path[n])
  {
    hide Needs, RequiredEdge;
    if n > 0 {
      PathSteps(sc, kind, path, n - 1);
      NeedIs(sc, kind, path[n - 1], path[n]);
      assert Needs(sc, kind, path[n - 1], path[n - 1 + 1]);
      StepsOn(sc, kind, path[0], n - 1, path[n - 1], path[n]);
    }
  }

  lemma {:induction false} StepsPath(sc: Schema, kind: Kind, a: string, n: nat, b: string) returns (path: seq<string>)
    requires Steps(sc, kind, a, n, b)
    ensures |path| == n + 1 && path[0] == a && path[n] == b && forall i :: 0 <= i < n ==> Needs(sc, kind, path[i], path[i + 1])
    decreases n
  {
    hide Needs, RequiredEdge;
    if n == 0 {
      path := [a];
    } else {
      var m :| RequiredEdge(sc, kind, a, m) && Steps(sc, kind, m, n - 1, b);
      NeedIs(sc, kind, a, m);
      var rest := StepsPath(sc, kind, m, n - 1, b);
      path := [a] + rest;
      forall i | 0 <= i < n ensures Needs(sc, kind, path[i], path[i + 1]) {
        assert i > 0 ==> path[i] == rest[i - 1] && path[i + 1] == rest[i - 1 + 1];
      }
    }
  }

  /** The schema is cyclic if and only if there is a way round; own slices are on none. */
  lemma {:induction false} CyclicMeans(sc: Schema, kind: Kind)
    ensures Cyclic(sc, kind) <==> exists path :: WayRound(sc, kind, path)
  {
    hide Needs, Steps;
    if path :| WayRound(sc, kind, path) {
      PathSteps(sc, kind, path, |path| - 1);
      assert LeadsTo(sc, kind, path[0], path[0]);
    }
    if t :| LeadsTo(sc, kind, t, t) {
      var n: nat :| n > 0 && Steps(sc, kind, t, n, t);
      var path := StepsPath(sc, kind, t, n, t);
      assert WayRound(sc, kind, path);
    }
  }
}
