/** What it means for a shadow to mirror a row, for a shadow world to be closed, for a field to have moved and for a write to reach the relation
    graph, said of values, keys and pointers. */
module TowerLaws {
  import opened RelationSchema
  import opened TowerShadows
  import opened TowerRefresh
  import opened TowerWorlds
  import opened TowerPatches
  import opened TowerCommits
  import opened TowerRetries

  /** Two pointers name the same row, or none. */
  predicate NameSame(x: Node?, y: Node?) {
    if x == null then y == null else y != null && x.key == y.key
  }

  ghost predicate ListsNameSame(a: seq<Node?>, b: seq<Node?>) {
    |a| == |b| && forall i :: 0 <= i < |a| ==> NameSame(a[i], b[i])
  }

  lemma {:induction false} IdsMean(a: seq<Node?>, b: seq<Node?>)
    ensures Ids(a) == Ids(b) <==> ListsNameSame(a, b)
  {
    if Ids(a) == Ids(b) {
      assert |Ids(a)| == |a| && |Ids(b)| == |b|;
      forall i | 0 <= i < |a| ensures NameSame(a[i], b[i]) {
        assert Ids(a)[i] == Ids(b)[i];
      }
    }
    if ListsNameSame(a, b) {
      forall i | 0 <= i < |a| ensures Ids(a)[i] == Ids(b)[i] {
        assert NameSame(a[i], b[i]);
      }
    }
  }

  /** A shadow world mirrors the live rows: the same rows, equal plain values, and relations that name the same rows in the same places. */
  lemma {:induction false} MirrorMeans(live: Picture, shown: Picture)
    ensures Isomorphic(live, shown) <==>
            && shown.Keys == live.Keys
            && forall k :: k in live ==> && live[k].scalars == shown[k].scalars && live[k].links.Keys == shown[k].links.Keys
                                         && forall f :: f in live[k].links ==> ListsNameSame(live[k].links[f], shown[k].links[f])
  {
    hide Ids, ListsNameSame;
    forall a: seq<Node?>, b: seq<Node?> ensures Ids(a) == Ids(b) <==> ListsNameSame(a, b) {
      IdsMean(a, b);
    }
    if shown.Keys == live.Keys {
      forall k | k in live
        ensures RowUnchanged(live[k], shown[k]) <==>
                && live[k].scalars == shown[k].scalars && live[k].links.Keys == shown[k].links.Keys
                && forall f :: f in live[k].links ==> ListsNameSame(live[k].links[f], shown[k].links[f])
      {
      }
    }
  }

  /** It is closed: a pointer that names a shadowed row is the pointer to its shadow. */
  lemma {:induction false} ClosedMeans(nodes: World, p: Picture)
    ensures Wired(nodes, p) <==>
            forall k, f, i {:trigger p[k].links[f][i]} :: k in p && f in p[k].links && 0 <= i < |p[k].links[f]| ==>
              var t := p[k].links[f][i]; t != null && t.key in nodes ==> t == nodes[t.key]
  {
  }

  /** A plain field has moved when its value is another. */
  lemma {:induction false} PlainMoved(plan: Plan, live: Row, shadow: Row, baseline: Links, f: nat)
    requires f !in plan.relational && f in live.scalars && f in shadow.scalars
    ensures Moved(plan, live, shadow, baseline, f) <==> live.scalars[f] != shadow.scalars[f]
  {
  }

  /** A to-one relation has moved when it names another row, whatever object it points at. */
  lemma {:induction false} ToOneMoved(plan: Plan, live: Row, shadow: Row, baseline: Links, f: nat)
    requires f in plan.relational && f !in plan.many && f in shadow.links && f in baseline && |shadow.links[f]| == |baseline[f]| == 1
    ensures Moved(plan, live, shadow, baseline, f) <==> !NameSame(shadow.links[f][0], baseline[f][0])
  {
    IdsMean(shadow.links[f], baseline[f]);
    assert ListsNameSame(shadow.links[f], baseline[f]) <==> NameSame(shadow.links[f][0], baseline[f][0]);
  }

  /** A list has moved when its pointers are others, or stand elsewhere. */
  lemma {:induction false} ListMoved(plan: Plan, live: Row, shadow: Row, baseline: Links, f: nat)
    requires f in plan.relational && f in plan.many && f in shadow.links && f in baseline
    ensures Moved(plan, live, shadow, baseline, f) <==>
            |shadow.links[f]| != |baseline[f]| || exists i :: 0 <= i < |baseline[f]| && i < |shadow.links[f]| && shadow.links[f][i] != baseline[f][i]
  {
    if |shadow.links[f]| == |baseline[f]| && forall i :: 0 <= i < |baseline[f]| ==> shadow.links[f][i] == baseline[f][i] {
      assert shadow.links[f] == baseline[f];
    }
  }

  /** A write of a row reaches the relation graph when a relation names other rows afterwards, or a field others look the row up by has
      another value; nothing else does. */
  lemma {:induction false} RelinkMeans(plan: Plan, before: Row, after: Row)
    ensures Relinked(plan, before, after) <==>
            || (exists f :: f in before.links && f in after.links && !ListsNameSame(before.links[f], after.links[f]))
            || (exists f :: f in plan.keys && f in before.scalars && f in after.scalars && before.scalars[f] != after.scalars[f])
  {
    hide Ids, ListsNameSame;
    forall a: seq<Node?>, b: seq<Node?> ensures Ids(a) == Ids(b) <==> ListsNameSame(a, b) {
      IdsMean(a, b);
    }
  }

  /** The callback assigns the fields it names, and those only; it cannot add one. */
  lemma {:induction false} EditMeans(row: Row, wish: Row)
    ensures Edited(row, wish).scalars.Keys == row.scalars.Keys && Edited(row, wish).links.Keys == row.links.Keys
    ensures forall f :: f in row.scalars ==> Edited(row, wish).scalars[f] == if f in wish.scalars then wish.scalars[f] else row.scalars[f]
    ensures forall f :: f in row.links ==> Edited(row, wish).links[f] == if f in wish.links then wish.links[f] else row.links[f]
  {
  }

  /** Of two writes that read a row at the same version only one lands: after the one, the other is out of date. */
  lemma {:induction false} OverlapConflicts(mine: seq<Resource>, theirs: seq<Resource>, before: Picture, after: Picture,
                                            versions0: map<NodeKey, nat>, versions: map<NodeKey, nat>, i: nat, j: nat)
    requires Current(mine, versions0) && Lands(mine, before, after, versions0, versions)
    requires i < |mine| && j < |theirs| && mine[i].key == theirs[j].key && mine[i].version == theirs[j].version
    ensures !Current(theirs, versions)
  {
    hide RowUnchanged;
    assert HasLanded(mine[i], after, versions0, versions);
  }

  /** And a write of other rows does not put it out of date. */
  lemma {:induction false} DisjointStands(mine: seq<Resource>, theirs: seq<Resource>, before: Picture, after: Picture,
                                          versions0: map<NodeKey, nat>, versions: map<NodeKey, nat>)
    requires Lands(mine, before, after, versions0, versions) && forall i, j :: 0 <= i < |mine| && 0 <= j < |theirs| ==> mine[i].key != theirs[j].key
    ensures Current(theirs, versions) <==> Current(theirs, versions0)
  {
    hide RowUnchanged;
    forall j | 0 <= j < |theirs| ensures !HasKey(mine, theirs[j].key) {
    }
  }
}
