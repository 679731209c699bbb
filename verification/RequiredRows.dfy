/** Why schemas with a cycle of required own or ownedby edges are refused: no legal graph has a row of any type on it. */
module RequiredRows {
  import opened RelationSchema
  import opened RelationGraph
  import opened RequiredCycles
  import opened RelationLaws

  /** The row one step along the edge: the child a to-one own needs, or the owner an ownedby needs. */
  ghost predicate NextRow(sc: Schema, g: Graph, kind: Kind, a: NodeKey, b: NodeKey) {
    if kind.Own? then OwnsRow(sc, g, a, b) else OwnsRow(sc, g, b, a)
  }

  /** In a legal graph every row of a type that needs another one has a row of that type next to it. */
  lemma {:induction false} HasNext(sc: Schema, g: Graph, kind: Kind, a: NodeKey, typ: string) returns (b: NodeKey)
    requires WellFormed(sc) && RequiredLive(sc, g) && (kind.Own? || kind.OwnedBy?) && a in g && Needs(sc, kind, a.typ, typ)
    ensures b in g && b.typ == typ && NextRow(sc, g, kind, a, b)
  {
    hide OwnsRow, Reaches;
    var f :| f in sc[a.typ] && sc[a.typ][f].kind == kind && sc[a.typ][f].target == typ && !(kind.Own? && sc[a.typ][f].many);
    assert kind.OwnedBy? ==> IsOwnedBy(sc, a.typ, f);
    assert Requires(sc, g, a, f);
    b :| Reaches(sc, g, a, f, 0, b);
    ReachesTarget(sc, g, a, f, 0, b);
    NextThrough(sc, g, kind, a, f, b);
  }

  lemma {:induction false} ReachesTarget(sc: Schema, g: Graph, h: NodeKey, f: nat, i: int, k: NodeKey)
    requires Reaches(sc, g, h, f, i, k)
    ensures h.typ in sc && f in sc[h.typ] && k in g && k.typ == sc[h.typ][f].target
  {
  }

  lemma {:induction false} NextThrough(sc: Schema, g: Graph, kind: Kind, a: NodeKey, f: nat, b: NodeKey)
    requires a.typ in sc && f in sc[a.typ] && sc[a.typ][f].kind == kind && (kind.Own? || kind.OwnedBy?) && Reaches(sc, g, a, f, 0, b)
    ensures NextRow(sc, g, kind, a, b)
  {
    hide Reaches;
    if kind.Own? {
      assert OwnPointer(sc, g, a, f, 0, b);
    } else {
      assert BackPointer(sc, g, a, f, b);
    }
  }

  /** Rows along the way round, as many as wanted. */
  lemma {:induction false} LongChain(sc: Schema, g: Graph, kind: Kind, path: seq<string>, start: NodeKey, n: nat) returns (chain: seq<NodeKey>, at: nat)
    requires WellFormed(sc) && RequiredLive(sc, g) && (kind.Own? || kind.OwnedBy?) && WayRound(sc, kind, path)
    requires start in g && start.typ == path[0]
    ensures |chain| == n + 1 && chain[0] == start && forall i :: 0 <= i <= n ==> chain[i] in g
    ensures forall i :: 0 <= i < n ==> NextRow(sc, g, kind, chain[i], chain[i + 1])
    ensures at < |path| - 1 && chain[n].typ == path[at]
  {
    hide NextRow, RequiredLive, Needs, WellFormed;
    if n == 0 {
      chain, at := [start], 0;
    } else {
      var before, here := LongChain(sc, g, kind, path, start, n - 1);
      var b := HasNext(sc, g, kind, before[n - 1], path[here + 1]);
      chain := before + [b];
      at := if here + 1 == |path| - 1 then 0 else here + 1;
      forall i | 0 <= i < n ensures NextRow(sc, g, kind, chain[i], chain[i + 1]) {
        if i < n - 1 {
          assert chain[i] == before[i] && chain[i + 1] == before[i + 1];
        }
      }
    }
  }

  /** More places than rows: some row comes twice. */
  lemma {:induction false} Twice(keys: set<NodeKey>, chain: seq<NodeKey>) returns (i: nat, j: nat)
    requires |chain| > |keys| && forall i :: 0 <= i < |chain| ==> chain[i] in keys
    ensures i < j < |chain| && chain[i] == chain[j]
  {
    var seen: set<NodeKey> := {};
    var n := 0;
    while n < |chain|
      invariant 0 <= n <= |chain| && seen <= keys && |seen| == n && forall k :: k in seen ==> k in chain[..n]
    {
      if chain[n] in seen {
        i :| 0 <= i < n && chain[..n][i] == chain[n];
        j := n;
        return;
      }
      assert chain[..n + 1] == chain[..n] + [chain[n]];
      seen := seen + {chain[n]};
      n := n + 1;
    }
    Within(seen, keys);
    assert false;
  }

  lemma {:induction false} Within(a: set<NodeKey>, b: set<NodeKey>)
    requires a <= b
    ensures |a| <= |b|
  {
    if a != {} {
      var x :| x in a;
      Within(a - {x}, b - {x});
    }
  }

  lemma {:induction false} LoopClimbs(sc: Schema, g: Graph, kind: Kind, loop: seq<NodeKey>)
    requires |loop| >= 2 && loop[0] == loop[|loop| - 1] && forall i :: 0 <= i < |loop| - 1 ==> NextRow(sc, g, kind, loop[i], loop[i + 1])
    ensures !NoOwnershipCycle(sc, g)
  {
    hide OwnsRow;
    if kind.Own? {
      var back := seq(|loop|, i requires 0 <= i < |loop| => loop[|loop| - 1 - i]);
      forall i | 0 <= i < |back| - 1 ensures OwnsRow(sc, g, back[i + 1], back[i]) {
        var j := |loop| - 2 - i;
        assert NextRow(sc, g, kind, loop[j], loop[j + 1]);
      }
      assert Climb(sc, g, back);
    } else {
      forall i | 0 <= i < |loop| - 1 ensures OwnsRow(sc, g, loop[i + 1], loop[i]) {
        assert NextRow(sc, g, kind, loop[i], loop[i + 1]);
      }
      assert Climb(sc, g, loop);
    }
  }

  /** No legal graph has a row of a type that lies on a cycle of required edges. */
  lemma {:induction false} CycleUnsatisfiable(sc: Schema, g: Graph, kind: Kind, path: seq<string>, k: NodeKey)
    requires WellFormed(sc) && Legal(sc, g) && (kind.Own? || kind.OwnedBy?) && WayRound(sc, kind, path) && k.typ == path[0]
    ensures k !in g
  {
    hide Legal, Unambiguous, RequiredLive, OwnedOnce, BothSidesAgree, NoOwnershipCycle, WellFormed, NextRow, WayRound;
    RulesDecide(sc, g);
    if k in g {
      var chain, at := LongChain(sc, g, kind, path, k, |g.Keys|);
      var i, j := Twice(g.Keys, chain);
      var loop := chain[i..j + 1];
      forall m | 0 <= m < |loop| - 1 ensures NextRow(sc, g, kind, loop[m], loop[m + 1]) {
        assert NextRow(sc, g, kind, chain[i + m], chain[i + m + 1]);
      }
      LoopClimbs(sc, g, kind, loop);
    }
  }
}
