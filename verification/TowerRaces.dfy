/** What a write through the Tower can do to plain-field commits that land while it runs: when they survive it, and a run in which one
    does not. */
module TowerRaces {
  import opened RelationSchema
  import opened TowerShadows
  import opened TowerRefresh
  import opened TowerWorlds
  import opened TowerPatches
  import opened TowerCommits
  import opened TowerRetries

  /** Others changed the field before the versions were read, and the shadow agrees neither with what it was compared with nor with
      what was read. */
  ghost predicate Overwrites(base: Picture, t: Traffic, shown: Picture, k: NodeKey, f: nat) {
    && k in base && k in Compared(t, base) && k in Read(t, base) && k in shown
    && f in base[k].scalars && f in Compared(t, base)[k].scalars && f in Read(t, base)[k].scalars && f in shown[k].scalars
    && Read(t, base)[k].scalars[f] != base[k].scalars[f]
    && shown[k].scalars[f] != Compared(t, base)[k].scalars[f] && shown[k].scalars[f] != Read(t, base)[k].scalars[f]
  }

  /** The field still has what others gave it before the versions were read. */
  ghost predicate TheirsStays(base: Picture, t: Traffic, after: Picture, k: NodeKey, f: nat) {
    k in base && k in Read(t, base) && k in after && f in base[k].scalars && f in Read(t, base)[k].scalars && f in after[k].scalars
    && (Read(t, base)[k].scalars[f] != base[k].scalars[f] ==> after[k].scalars[f] == Read(t, base)[k].scalars[f])
  }

  /** A settled write silently overwrites a field others committed exactly where they did so between the check that the replica is in step
      and the reading of the version, to a value the shadow neither has nor was compared with. */
  lemma {:induction false} WindowExact(plans: Plans, edit: Callback, base: Picture, copy: Picture, w: Weather, rows: World,
                                       seen: map<NodeKey, nat>, versions: map<NodeKey, nat>, after: Picture, k: NodeKey, f: nat)
    requires Left(plans, edit, base, copy, w, Settled, rows, seen, versions, after) && Concluded(plans, edit, base, copy, w, Settled)
    requires Typed(plans, base) && Fair(plans, rows, w, base) && base.Keys == rows.Keys && versions.Keys == rows.Keys && Isomorphic(base, copy)
    requires k in w.branch && k !in KeysOf(w.traffic.between) && f in base[k].scalars
    ensures TheirsStays(base, w.traffic, after, k, f) <==> !Overwrites(base, w.traffic, Wanted(edit, copy, Members(w.branch)), k, f)
  {
    hide *;
    FairParts(plans, rows, w, base);
    SettledFromLatest(plans, edit, base, copy, w, rows, seen, versions, after, k);
    PlainAll(plans, rows, w, base, copy, edit, k);
    var compared, read, shown := Compared(w.traffic, base), Read(w.traffic, base), Wanted(edit, copy, Members(w.branch));
    MergedField(compared[k], read[k], shown[k], after[k], f);
    OverwritesIs(base, w.traffic, shown, k, f);
    TheirsStaysIs(base, w.traffic, after, k, f);
  }

  lemma {:induction false} PlainAll(plans: Plans, rows: World, w: Weather, base: Picture, copy: Picture, edit: Callback, k: NodeKey)
    requires Typed(plans, base) && Fair(plans, rows, w, base) && base.Keys == rows.Keys && Isomorphic(base, copy) && k in w.branch && k in base
    ensures k in copy && k in Wanted(edit, copy, Members(w.branch)) && Wanted(edit, copy, Members(w.branch))[k] == Edited(copy[k], edit(copy, k))
    ensures k in Compared(w.traffic, base) && k in Read(w.traffic, base)
    ensures base[k].scalars.Keys == Compared(w.traffic, base)[k].scalars.Keys == Read(w.traffic, base)[k].scalars.Keys
            == Edited(copy[k], edit(copy, k)).scalars.Keys
  {
    hide Typed, Fair, Fits, Edited, Compared, Read, PlainWrites, PlainlyMoved, Written;
    var t := w.traffic;
    FairParts(plans, rows, w, base);
    PassableParts(plans, rows, t, base);
    TypedAt(plans, base, k);
    WrittenPlainly(plans, t.before, base);
    WrittenPlainly(plans, t.early, Written(t.before, base));
    PlainFields(plans, base, Written(t.before, base), k);
    PlainFields(plans, Written(t.before, base), Read(t, base), k);
    EditedFits(plans[k.typ], base[k], copy[k], edit(copy, k));
    EditedFields(plans[k.typ], base[k], Edited(copy[k], edit(copy, k)));
  }

  lemma {:induction false} PlainFields(plans: Plans, before: Picture, after: Picture, k: NodeKey)
    requires PlainlyMoved(plans, before, after) && k in before && k.typ in plans
    ensures k in after && before[k].scalars.Keys == after[k].scalars.Keys
  {
  }

  lemma {:induction false} MergedField(compared: Row, read: Row, shadow: Row, after: Row, f: nat)
    requires Merged(compared, read, shadow, after) && f in compared.scalars && f in read.scalars && f in shadow.scalars
    ensures f in after.scalars && after.scalars[f] == if shadow.scalars[f] != compared.scalars[f] then shadow.scalars[f] else read.scalars[f]
  {
  }

  lemma {:induction false} OverwritesIs(base: Picture, t: Traffic, shown: Picture, k: NodeKey, f: nat)
    requires k in base && k in Compared(t, base) && k in Read(t, base) && k in shown
    requires f in base[k].scalars && f in Compared(t, base)[k].scalars && f in Read(t, base)[k].scalars && f in shown[k].scalars
    ensures Overwrites(base, t, shown, k, f) <==>
            && Read(t, base)[k].scalars[f] != base[k].scalars[f] && shown[k].scalars[f] != Compared(t, base)[k].scalars[f]
            && shown[k].scalars[f] != Read(t, base)[k].scalars[f]
  {
  }

  lemma {:induction false} TheirsStaysIs(base: Picture, t: Traffic, after: Picture, k: NodeKey, f: nat)
    requires k in base && k in Read(t, base) && k in after && f in base[k].scalars && f in Read(t, base)[k].scalars && f in after[k].scalars
    ensures TheirsStays(base, t, after, k, f) <==>
            (Read(t, base)[k].scalars[f] != base[k].scalars[f] ==> after[k].scalars[f] == Read(t, base)[k].scalars[f])
  {
  }

  // ---------------------------------------------------------------- a lost commit

  const BOX := NodeKey("Box", 1)

  /** Two plain fields. */
  const PLANS: Plans := map["Box" := Plan([0, 1], {}, {}, {})]

  const START := Row(map[0 := [], 1 := []], map[])
  const THEIRS := Row(map[0 := [7], 1 := []], map[])
  const MINE := Row(map[0 := [], 1 := [7]], map[])

  /** The callback sets the second field. */
  function SetSecond(p: Picture, k: NodeKey): Row {
    Row(map[1 := [7]], map[])
  }

  /** Someone else sets the first field before the branch is compared. */
  const RACE := Weather([BOX], Traffic([Resource(BOX, 0, START, THEIRS)], [], []), true, true)

  lemma {:induction false} RaceIsFair(rows: World)
    requires rows.Keys == {BOX}
    ensures Typed(PLANS, map[BOX := START]) && Fair(PLANS, rows, RACE, map[BOX := START])
    ensures Compared(RACE.traffic, map[BOX := START]) == map[BOX := THEIRS] && Met(RACE.traffic, map[BOX := START]) == map[BOX := THEIRS]
    ensures Read(RACE.traffic, map[BOX := START]) == map[BOX := THEIRS] && KeysOf(RACE.traffic.between) == []
  {
    assert RACE.traffic.before[..0] == [];
    assert Written(RACE.traffic.before, map[BOX := START]) == map[BOX := THEIRS];
  }

  lemma {:induction false} CopiedShadow(copy: Picture)
    requires Isomorphic(map[BOX := START], copy)
    ensures Wanted(SetSecond, copy, {BOX}) == map[BOX := MINE]
  {
    assert copy.Keys == {BOX} && RowUnchanged(START, copy[BOX]);
    assert Edited(copy[BOX], SetSecond(copy, BOX)) == MINE;
  }

  /** Nobody commits after the version is read, so the attempt settles. */
  lemma {:induction false} RaceSettles(copy: Picture, outcome: Outcome)
    requires Concluded(PLANS, SetSecond, map[BOX := START], copy, RACE, outcome) && Isomorphic(map[BOX := START], copy)
    requires KeysOf(RACE.traffic.between) == []
    ensures outcome == Settled
  {
    hide NothingMoved, Relinks, Still, Wanted, Compared, Isomorphic;
    MembersAre(KeysOf(RACE.traffic.between));
  }

  lemma {:induction false} RaceMerges(copy: Picture, after: Row)
    requires Isomorphic(map[BOX := START], copy) && Merged(THEIRS, THEIRS, Edited(copy[BOX], SetSecond(copy, BOX)), after)
    ensures after == MINE
  {
    CopiedShadow(copy);
    MembersAre(RACE.branch);
    assert Wanted(SetSecond, copy, {BOX})[BOX] == Edited(copy[BOX], SetSecond(copy, BOX));
    assert after.scalars == MINE.scalars && after.links == map[];
  }

  lemma {:induction false} RaceOverwrites(copy: Picture)
    requires Isomorphic(map[BOX := START], copy)
    requires Compared(RACE.traffic, map[BOX := START]) == map[BOX := THEIRS] && Read(RACE.traffic, map[BOX := START]) == map[BOX := THEIRS]
    ensures Overwrites(map[BOX := START], RACE.traffic, Wanted(SetSecond, copy, {BOX}), BOX, 0)
  {
    CopiedShadow(copy);
    hide Compared, Read, Wanted;
    assert START.scalars[0] != THEIRS.scalars[0];
  }

  /** The callback never touches the first field; the other commit to it is gone all the same, and nobody is told. */
  method LostCommit() returns (store: LiveRows, outcome: Outcome, ghost copy: Picture)
    ensures store.Valid() && outcome == Settled && BOX in store.rows && store.rows[BOX].row == MINE
    ensures Isomorphic(map[BOX := START], copy) && Overwrites(map[BOX := START], RACE.traffic, Wanted(SetSecond, copy, {BOX}), BOX, 0)
  {
    hide *;
    var live: Picture;
    store, live := StoreOne();
    RaceIsFair(store.rows);
    ghost var seen, after;
    var graph;
    outcome, graph, copy, seen, after := Attempt(PLANS, store, SetSecond, RACE, live);
    RaceSettles(copy, outcome);
    StoreParts(store);
    SettledFromLatest(PLANS, SetSecond, live, copy, RACE, store.rows, seen, store.versions, after, BOX);
    RaceListed();
    RaceMerges(copy, after[BOX]);
    RaceOverwrites(copy);
    ShowsAt(store.rows, after, BOX);
  }

  lemma {:induction false} RaceListed()
    ensures BOX in RACE.branch
  {
  }

  lemma {:induction false} ShowsAt(rows: World, p: Picture, k: NodeKey)
    requires Shows(rows, p) && k in rows
    ensures k in p && rows[k].row == p[k]
  {
  }

  method StoreOne() returns (store: LiveRows, live: Picture)
    ensures fresh(store) && store.Valid() && store.rows.Keys == {BOX} && fresh(Objects(store.rows))
    ensures live == map[BOX := START] && Shows(store.rows, live)
  {
    var node := new Node(BOX, START);
    store := new LiveRows();
    store.rows, store.versions := map[BOX := node], map[BOX := 0];
    live := map[BOX := START];
  }
}
