/** Ownership under a pending index delta: effective edges of the affected children, then Floyd from each. */
module RelationDeltaOwners {
  import opened RelationSchema
  import opened Wrappers
  import opened Ordering
  import opened OwnershipForest
  import opened RelationGraph
  import opened RelationScan
  import opened RelationModels
  import opened RelationContainers
  import opened RelationFieldDeltas
  import opened RelationIndexes
  import opened RelationOverlays

  /** Everything the tallies may rely on: the committed fields with their bucket for one child, and the replacements. */
  ghost predicate TallyInputs(sc: Schema, fields: Fields, entries: seq<IncomingCount>, bag: multiset<FieldKey>,
                              values: seq<FieldDelta>, child: NodeKey)
  {
    && EntriesMatch(entries, bag)
    && (forall fk :: bag[fk] == Mult(fields, fk, child))
    && OwnSlicesDistinct(sc, fields) && (OwnOnce(sc, values) ==> OwnEntriesDistinct(sc, values))
  }

  /** An own field listed more than once has nothing in any of its entries. */
  ghost predicate OwnOnce(sc: Schema, values: seq<FieldDelta>) {
    forall i, j :: 0 <= i < j < |values| && values[i].key == values[j].key && IsOwn(sc, values[i].key.holder.typ, values[i].key.field) ==>
      values[i].targets == [] && values[j].targets == []
  }

  /** The targets of one field once the replacements apply, as the delta looks them up. */
  function EffectiveTargets(fields: Fields, values: seq<FieldDelta>, fk: FieldKey): seq<NodeKey> {
    var at := FoundAt(values, fk);
    if at >= 0 then values[at].targets else if fk in fields then fields[fk] else []
  }

  /** All fields as the delta looks them up. */
  function Effective(fields: Fields, values: seq<FieldDelta>): (after: Fields)
    ensures forall fk :: fk in after <==> fk in fields || ListsKey(values, fk)
  {
    map fk | fk in fields.Keys + (set i | 0 <= i < |values| :: values[i].key) :: EffectiveTargets(fields, values, fk)
  }

  /** With every field listed once, lookups agree with what publication installs. */
  lemma {:induction false} EffectiveDistinct(sc: Schema, fields: Fields, values: seq<FieldDelta>)
    requires DistinctKeys(values)
    ensures OwnOnce(sc, values) && Effective(fields, values) == fields + AsFields(values)
  {
    hide AsFields, FoundAt, ListsKey, IsOwn;
    var after := fields + AsFields(values);
    forall fk | fk in after ensures Effective(fields, values)[fk] == after[fk] {
      var at := FoundAt(values, fk);
      if at >= 0 {
        AsFieldsAt(values, at);
      }
    }
  }

  /** How many own edges into the child the replacements hold between them. */
  function OwnMult(sc: Schema, values: seq<FieldDelta>, child: NodeKey): nat {
    if values == [] then 0
    else
      var last := values[|values| - 1];
      OwnMult(sc, values[..|values| - 1], child)
      + if IsOwn(sc, last.key.holder.typ, last.key.field) then multiset(last.targets)[child] else 0
  }

  lemma {:induction false} OwnMultStep(sc: Schema, values: seq<FieldDelta>, n: nat, child: NodeKey)
    requires n < |values|
    ensures OwnMult(sc, values[..n + 1], child) == OwnMult(sc, values[..n], child)
            + if IsOwn(sc, values[n].key.holder.typ, values[n].key.field) then multiset(values[n].targets)[child] else 0
  {
    assert values[..n + 1][..n] == values[..n];
  }

  lemma {:induction false} OwnMultGrows(sc: Schema, values: seq<FieldDelta>, at: nat, targets: seq<NodeKey>, child: NodeKey)
    requires at < |values|
    ensures var key := values[at].key;
            OwnMult(sc, values[at := FieldDelta(key, values[at].targets + targets)], child) == OwnMult(sc, values, child)
            + if IsOwn(sc, key.holder.typ, key.field) then multiset(targets)[child] else 0
  {
    var n := |values| - 1;
    var after := values[at := FieldDelta(values[at].key, values[at].targets + targets)];
    if at < n {
      OwnMultGrows(sc, values[..n], at, targets, child);
      assert after[..n] == values[..n][at := FieldDelta(values[at].key, values[at].targets + targets)];
    } else {
      assert after[..n] == values[..n];
    }
  }

  /** Recording moves own edges between entries but neither adds nor drops any. */
  lemma {:induction false} AccumulateMult(sc: Schema, scans: seq<FieldDelta>, child: NodeKey)
    ensures OwnMult(sc, Accumulate(scans), child) == OwnMult(sc, scans, child)
  {
    if scans != [] {
      var n := |scans| - 1;
      var values, s := Accumulate(scans[..n]), scans[n];
      AccumulateMult(sc, scans[..n], child);
      var listed := values + [FieldDelta(s.key, [])];
      assert listed[|values|].key == s.key;
      var at := FoundAt(listed, s.key);
      assert listed[..|values|] == values;
      OwnMultGrows(sc, listed, at, s.targets, child);
    }
  }

  lemma {:induction false} OwnMultAtLeast(sc: Schema, values: seq<FieldDelta>, i: nat, child: NodeKey)
    requires i < |values| && IsOwn(sc, values[i].key.holder.typ, values[i].key.field)
    ensures OwnMult(sc, values, child) >= multiset(values[i].targets)[child]
  {
    if i < |values| - 1 {
      OwnMultAtLeast(sc, values[..|values| - 1], i, child);
    }
  }

  lemma {:induction false} OwnMultTwice(sc: Schema, values: seq<FieldDelta>, i: nat, j: nat, child: NodeKey)
    requires i < j < |values| && child in values[i].targets && child in values[j].targets
    requires IsOwn(sc, values[i].key.holder.typ, values[i].key.field) && IsOwn(sc, values[j].key.holder.typ, values[j].key.field)
    ensures OwnMult(sc, values, child) >= 2
  {
    if j < |values| - 1 {
      OwnMultTwice(sc, values[..|values| - 1], i, j, child);
    } else {
      OwnMultAtLeast(sc, values[..j], i, child);
    }
  }

  ghost predicate OwnEntriesDistinct(sc: Schema, values: seq<FieldDelta>) {
    forall i :: 0 <= i < |values| && IsOwn(sc, values[i].key.holder.typ, values[i].key.field) ==> Distinct(values[i].targets)
  }

  lemma {:induction false} DistinctOnce<T>(s: seq<T>, x: T)
    requires Distinct(s)
    ensures multiset(s)[x] == if x in s then 1 else 0
  {
    if s != [] {
      DistinctOnce(s[1..], x);
      assert s == [s[0]] + s[1..];
    }
  }

  /** The own fields among the first `n` bucket entries that no replacement overrides. */
  ghost predicate KeptOwners(sc: Schema, entries: seq<IncomingCount>, values: seq<FieldDelta>, n: int, found: set<FieldKey>) {
    forall fk :: fk in found <==>
      !ListsKey(values, fk) && IsOwn(sc, fk.holder.typ, fk.field) && exists i :: 0 <= i < n <= |entries| && entries[i].field == fk
  }

  /** The own fields among the first `n` replacements that list the child. */
  ghost predicate NewOwners(sc: Schema, values: seq<FieldDelta>, child: NodeKey, n: int, found: set<FieldKey>) {
    forall fk :: fk in found <==> exists i :: 0 <= i < n <= |values| && NewOwnerAt(sc, values, child, i, fk)
  }

  ghost predicate NewOwnerAt(sc: Schema, values: seq<FieldDelta>, child: NodeKey, i: int, fk: FieldKey)
    requires 0 <= i < |values|
  {
    values[i].key == fk && IsOwn(sc, fk.holder.typ, fk.field) && child in values[i].targets
  }

  /** `found` owns the child, `owns` is its size and one of its holders. */
  ghost predicate Tallies(found: set<FieldKey>, owns: IncomingOwns) {
    && owns.count == |found|
    && (owns.count > 0 ==> exists fk: FieldKey :: fk in found && fk.holder == owns.first)
  }

  lemma {:induction false} TallyAdd(found: set<FieldKey>, owns: IncomingOwns, fk: FieldKey)
    requires Tallies(found, owns) && fk !in found
    ensures Tallies(found + {fk}, owns.Add(fk.holder))
  {
    if owns.count > 0 {
      var f: FieldKey :| f in found && f.holder == owns.first;
      assert f in found + {fk};
    } else {
      assert fk in found + {fk};
    }
  }

  lemma {:induction false} TallyDecides(sc: Schema, fields: Fields, child: NodeKey, found: set<FieldKey>, owns: IncomingOwns)
    requires Tallies(found, owns) && forall fk :: fk in found <==> OwnVia(sc, fields, fk, child)
    ensures OwnTally(sc, fields, child, owns)
  {
    if owns.count == 0 {
      assert found == {};
    } else {
      var f: FieldKey :| f in found && f.holder == owns.first;
      if owns.count == 1 {
        forall fk | fk in found ensures fk == f {
          assert |found - {f}| == 0;
          assert fk !in found - {f};
        }
      } else {
        assert |found - {f}| > 0;
        var f' :| f' in found - {f};
        assert OwnVia(sc, fields, f, child) && OwnVia(sc, fields, f', child) && f != f';
      }
    }
  }

  lemma {:induction false} KeptStep(sc: Schema, fields: Fields, entries: seq<IncomingCount>, bag: multiset<FieldKey>,
                 values: seq<FieldDelta>, child: NodeKey, n: nat, found: set<FieldKey>)
    requires TallyInputs(sc, fields, entries, bag, values, child) && n < |entries|
    requires KeptOwners(sc, entries, values, n, found)
    ensures var fk := entries[n].field;
            var counts := !ListsKey(values, fk) && IsOwn(sc, fk.holder.typ, fk.field);
            && KeptOwners(sc, entries, values, n + 1, if counts then found + {fk} else found)
            && (counts ==> fk !in found && entries[n].count == 1)
  {
    var fk := entries[n].field;
    if !ListsKey(values, fk) && IsOwn(sc, fk.holder.typ, fk.field) {
      assert Mult(fields, fk, child) == bag[fk] == entries[n].count;
      DistinctOnce(fields[fk], child);
    }
  }

  /** With every field listed once, a replacement adds at most one own edge into the child. */
  lemma {:induction false} CountedOnce(sc: Schema, values: seq<FieldDelta>, child: NodeKey, n: nat, found: set<FieldKey>,
                                       kept: set<FieldKey>, before: IncomingOwns, after: IncomingOwns)
    requires OwnOnce(sc, values) && OwnEntriesDistinct(sc, values) && n < |values|
    requires NewOwners(sc, values, child, n, found) && values[n].key !in kept
    requires IsOwn(sc, values[n].key.holder.typ, values[n].key.field)
    requires Tallies(kept + found, before)
    requires after.count == before.count + multiset(values[n].targets)[child]
    requires after.first == if before.count == 0 && child in values[n].targets then values[n].key.holder else before.first
    ensures Tallies(kept + if child in values[n].targets then found + {values[n].key} else found, after)
  {
    hide OwnOnce, NewOwners, OwnEntriesDistinct;
    var fk := values[n].key;
    OwnTargetsDistinct(sc, values, n);
    DistinctOnce(values[n].targets, child);
    if child in values[n].targets {
      NotFoundYet(sc, values, child, n, found);
      TallyAdd(kept + found, before, fk);
      assert kept + (found + {fk}) == (kept + found) + {fk};
      assert after == before.Add(fk.holder);
    } else {
      assert after == before;
    }
  }

  lemma {:induction false} OwnTargetsDistinct(sc: Schema, values: seq<FieldDelta>, n: nat)
    requires OwnEntriesDistinct(sc, values) && n < |values| && IsOwn(sc, values[n].key.holder.typ, values[n].key.field)
    ensures Distinct(values[n].targets)
  {
  }

  lemma {:induction false} NotFoundYet(sc: Schema, values: seq<FieldDelta>, child: NodeKey, n: nat, found: set<FieldKey>)
    requires OwnOnce(sc, values) && NewOwners(sc, values, child, n, found) && n < |values| && child in values[n].targets
    ensures values[n].key !in found
  {
    forall i | 0 <= i < n ensures !NewOwnerAt(sc, values, child, i, values[n].key) {
    }
  }

  /** A replaced field owns the child exactly when its replacement lists it. */
  lemma {:induction false} ReplacedOwner(sc: Schema, fields: Fields, values: seq<FieldDelta>, child: NodeKey,
                                         news: set<FieldKey>, fk: FieldKey)
    requires OwnOnce(sc, values) && ListsKey(values, fk) && NewOwners(sc, values, child, |values|, news)
    ensures fk in news <==> OwnVia(sc, Effective(fields, values), fk, child)
  {
    var at := FoundAt(values, fk);
    assert Effective(fields, values)[fk] == values[at].targets;
    if OwnVia(sc, Effective(fields, values), fk, child) {
      assert NewOwnerAt(sc, values, child, at, fk);
    }
    if fk in news {
      var i :| 0 <= i < |values| && NewOwnerAt(sc, values, child, i, fk);
      assert i == at;
    }
  }

  /** Any other field owns the child exactly when its bucket entry says so. */
  lemma {:induction false} KeptOwner(sc: Schema, fields: Fields, entries: seq<IncomingCount>, bag: multiset<FieldKey>,
                                     values: seq<FieldDelta>, child: NodeKey, kept: set<FieldKey>, fk: FieldKey)
    requires TallyInputs(sc, fields, entries, bag, values, child) && !ListsKey(values, fk)
    requires KeptOwners(sc, entries, values, |entries|, kept)
    ensures fk in kept <==> OwnVia(sc, fields, fk, child)
  {
    assert bag[fk] == Mult(fields, fk, child);
    if OwnVia(sc, fields, fk, child) {
      assert fk in bag && Holds(entries, fk);
    }
    if fk in kept {
      assert fk in bag;
    }
  }

  lemma {:induction false} AllOwners(sc: Schema, fields: Fields, entries: seq<IncomingCount>, bag: multiset<FieldKey>,
                  values: seq<FieldDelta>, child: NodeKey, kept: set<FieldKey>, news: set<FieldKey>)
    requires TallyInputs(sc, fields, entries, bag, values, child) && OwnOnce(sc, values)
    requires KeptOwners(sc, entries, values, |entries|, kept) && NewOwners(sc, values, child, |values|, news)
    ensures forall fk :: fk in kept + news <==> OwnVia(sc, Effective(fields, values), fk, child)
  {
    hide TallyInputs, OwnVia, Effective;
    forall fk ensures fk in kept + news <==> OwnVia(sc, Effective(fields, values), fk, child) {
      if ListsKey(values, fk) {
        ReplacedOwner(sc, fields, values, child, news, fk);
      } else {
        KeptOwner(sc, fields, entries, bag, values, child, kept, fk);
        UnlistedSame(sc, fields, values, child, fk);
      }
    }
  }

  lemma {:induction false} UnlistedSame(sc: Schema, fields: Fields, values: seq<FieldDelta>, child: NodeKey, fk: FieldKey)
    requires !ListsKey(values, fk)
    ensures OwnVia(sc, Effective(fields, values), fk, child) <==> OwnVia(sc, fields, fk, child)
  {
  }

  lemma {:induction false} OwnEntriesOf(sc: Schema, fields: Fields, entries: seq<IncomingCount>, bag: multiset<FieldKey>,
                                        values: seq<FieldDelta>, child: NodeKey)
    requires TallyInputs(sc, fields, entries, bag, values, child)
    ensures OwnOnce(sc, values) ==> OwnEntriesDistinct(sc, values)
  {
  }

  /** The own edges into one child once the delta applies: kept bucket entries, then the replacements. */
  method EffectiveIncomingOwn(sc: Schema, ghost fields: Fields, entries: seq<IncomingCount>, ghost bag: multiset<FieldKey>,
                              deltas: RelationFieldDeltas, child: NodeKey)
    returns (owns: IncomingOwns)
    requires deltas.Valid() && TallyInputs(sc, fields, entries, bag, deltas.values, child)
    ensures OwnOnce(sc, deltas.values) ==> OwnTally(sc, Effective(fields, deltas.values), child, owns)
    ensures owns.count >= OwnMult(sc, deltas.values, child)
  {
    hide *;
    var values := deltas.values;
    ghost var once := OwnOnce(sc, values);
    owns := IncomingOwns(child, 0);
    ghost var kept: set<FieldKey> := {};
    NoneKept(sc, entries, values, child);
    OwnEntriesOf(sc, fields, entries, bag, values, child);
    var index := 0;
    while index < |entries|
      invariant 0 <= index <= |entries| && KeptOwners(sc, entries, values, index, kept)
      invariant Tallies(kept, owns)
    {
      var fk := entries[index].field;
      KeptStep(sc, fields, entries, bag, values, child, index, kept);
      var replaced := deltas.Find(fk);
      if replaced < 0 && IsOwn(sc, fk.holder.typ, fk.field) && entries[index].count > 0 {
        TallyAdd(kept, owns, fk);
        AddOnce(owns, fk.holder, entries[index].count);
        owns := IncomingOwns(if owns.count == 0 then fk.holder else owns.first, owns.count + entries[index].count);
        kept := kept + {fk};
      }
      index := index + 1;
    }
    ghost var news: set<FieldKey> := {};
    index := 0;
    NoOwnEdges(sc, values, child);
    while index < |values|
      invariant 0 <= index <= |values| && NewOwners(sc, values, child, index, news)
      invariant owns.count >= OwnMult(sc, values[..index], child)
      invariant once ==> Tallies(kept + news, owns)
      invariant KeptOwners(sc, entries, values, |entries|, kept)
    {
      var fk := values[index].key;
      NewOwnersGrow(sc, values, child, index, news);
      OwnMultStep(sc, values, index, child);
      if IsOwn(sc, fk.holder.typ, fk.field) {
        ghost var before := owns;
        owns := CountTargets(owns, fk.holder, values[index].targets, child);
        if once {
          NotKept(sc, entries, values, index, kept);
          CountedOnce(sc, values, child, index, news, kept, before, owns);
        }
        if child in values[index].targets {
          news := news + {fk};
        }
      }
      index := index + 1;
    }
    assert values[..index] == values;
    if once {
      AllOwners(sc, fields, entries, bag, values, child, kept, news);
      TallyDecides(sc, Effective(fields, values), child, kept + news, owns);
    }
  }

  lemma {:induction false} NoOwnEdges(sc: Schema, values: seq<FieldDelta>, child: NodeKey)
    ensures OwnMult(sc, values[..0], child) == 0
  {
  }

  /** Count one own field's occurrences of the child, remembering the first owner. */
  method CountTargets(owns0: IncomingOwns, holder: NodeKey, targets: seq<NodeKey>, child: NodeKey) returns (owns: IncomingOwns)
    ensures owns.count == owns0.count + multiset(targets)[child]
    ensures owns.first == if owns0.count == 0 && child in targets then holder else owns0.first
  {
    owns := owns0;
    var index := 0;
    while index < |targets|
      invariant 0 <= index <= |targets|
      invariant owns.count == owns0.count + multiset(targets[..index])[child]
      invariant owns.first == if owns0.count == 0 && child in targets[..index] then holder else owns0.first
    {
      assert targets[..index + 1] == targets[..index] + [targets[index]];
      assert child in targets[..index] <==> child in multiset(targets[..index]);
      if targets[index] == child {
        owns := owns.Add(holder);
      }
      index := index + 1;
    }
    assert targets[..index] == targets;
  }

  lemma {:induction false} AddOnce(owns: IncomingOwns, holder: NodeKey, count: int)
    requires count == 1
    ensures IncomingOwns(if owns.count == 0 then holder else owns.first, owns.count + count) == owns.Add(holder)
  {
  }

  lemma {:induction false} NoneKept(sc: Schema, entries: seq<IncomingCount>, values: seq<FieldDelta>, child: NodeKey)
    ensures KeptOwners(sc, entries, values, 0, {}) && NewOwners(sc, values, child, 0, {})
    ensures Tallies({}, IncomingOwns(child, 0))
  {
  }

  lemma {:induction false} NotKept(sc: Schema, entries: seq<IncomingCount>, values: seq<FieldDelta>, n: nat, kept: set<FieldKey>)
    requires KeptOwners(sc, entries, values, |entries|, kept) && n < |values|
    ensures values[n].key !in kept
  {
    assert ListsKey(values, values[n].key);
  }

  lemma {:induction false} NewOwnersGrow(sc: Schema, values: seq<FieldDelta>, child: NodeKey, n: nat, found: set<FieldKey>)
    requires NewOwners(sc, values, child, n, found) && n < |values|
    ensures var fk := values[n].key;
            NewOwners(sc, values, child, n + 1,
                      if IsOwn(sc, fk.holder.typ, fk.field) && child in values[n].targets then found + {fk} else found)
  {
    var fk := values[n].key;
    var next := if IsOwn(sc, fk.holder.typ, fk.field) && child in values[n].targets then found + {fk} else found;
    forall f ensures f in next <==> exists i :: 0 <= i < n + 1 <= |values| && NewOwnerAt(sc, values, child, i, f) {
      if i :| 0 <= i < n && NewOwnerAt(sc, values, child, i, f) {
      }
      if f in next && f !in found {
        assert NewOwnerAt(sc, values, child, n, f);
      }
    }
  }

  // ---------------------------------------------------------------- the ownedby side

  lemma {:induction false} EffectiveAgrees(sc: Schema, fields: Fields, values: seq<FieldDelta>, fk: FieldKey, owner: NodeKey)
    ensures IsOwnedBy(sc, fk.holder.typ, fk.field) && EffectiveTargets(fields, values, fk) == [owner] <==>
            BackVia(sc, Effective(fields, values), fk, owner)
  {
  }

  /** The owner a child names through its own ownedby field. */
  method EffectiveOwnedBy(sc: Schema, fields: Fields, deltas: RelationFieldDeltas, child: NodeKey)
    returns (back: Option<NodeKey>)
    requires WellFormed(sc) && deltas.Valid()
    ensures BackTally(sc, Effective(fields, deltas.values), child, back)
  {
    hide EffectiveTargets, Effective, BackVia, WellFormed, FoundAt, PositionsLast;
    var values := deltas.values;
    ghost var after := Effective(fields, values);
    var rest := FieldsOfType(sc, child.typ);
    while rest != {}
      invariant rest <= FieldsOfType(sc, child.typ)
      invariant forall f: nat, o :: f in FieldsOfType(sc, child.typ) - rest ==> !BackVia(sc, after, FieldKey(child, f), o)
      decreases |rest|
    {
      var field :| field in rest;
      rest := rest - {field};
      var fk := FieldKey(child, field);
      if sc[child.typ][field].kind == OwnedBy {
        var at := deltas.Find(fk);
        var targets := EffectiveTargets(fields, values, fk);
        if |targets| == 1 {
          OnlyBack(sc, fields, values, child, field, targets[0]);
          return Some(targets[0]);
        }
      }
      NotBack(sc, fields, values, fk);
    }
    NoBack(sc, after, child);
    back := None;
  }

  lemma {:induction false} OnlyBack(sc: Schema, fields: Fields, values: seq<FieldDelta>, child: NodeKey, field: nat, owner: NodeKey)
    requires WellFormed(sc) && IsOwnedBy(sc, child.typ, field)
    requires EffectiveTargets(fields, values, FieldKey(child, field)) == [owner]
    ensures BackTally(sc, Effective(fields, values), child, Some(owner))
  {
    var after := Effective(fields, values);
    EffectiveAgrees(sc, fields, values, FieldKey(child, field), owner);
    forall fk: FieldKey, o | fk.holder == child && BackVia(sc, after, fk, o) ensures o == owner {
      assert fk.field == field;
    }
  }

  lemma {:induction false} NotBack(sc: Schema, fields: Fields, values: seq<FieldDelta>, fk: FieldKey)
    requires IsOwnedBy(sc, fk.holder.typ, fk.field) ==> |EffectiveTargets(fields, values, fk)| != 1
    ensures forall o :: !BackVia(sc, Effective(fields, values), fk, o)
  {
    forall o ensures !BackVia(sc, Effective(fields, values), fk, o) {
      EffectiveAgrees(sc, fields, values, fk, o);
    }
  }

  lemma {:induction false} NoBack(sc: Schema, fields: Fields, child: NodeKey)
    requires forall f: nat, o :: f in FieldsOfType(sc, child.typ) ==> !BackVia(sc, fields, FieldKey(child, f), o)
    ensures BackTally(sc, fields, child, None)
  {
    forall fk: FieldKey, o | fk.holder == child ensures !BackVia(sc, fields, fk, o) {
      assert fk == FieldKey(child, fk.field);
    }
  }

  // ---------------------------------------------------------------- the affected children

  /** Replacing field `key` can change who owns `child`. */
  ghost predicate Affects(sc: Schema, fields: Fields, entry: FieldDelta, child: NodeKey) {
    || (IsOwn(sc, entry.key.holder.typ, entry.key.field)
        && ((entry.key in fields && child in fields[entry.key]) || child in entry.targets))
    || (IsOwnedBy(sc, entry.key.holder.typ, entry.key.field) && child == entry.key.holder)
  }

  ghost predicate AffectedBy(sc: Schema, fields: Fields, values: seq<FieldDelta>, keys: seq<NodeKey>) {
    forall c :: c in keys <==> exists i :: 0 <= i < |values| && Affects(sc, fields, values[i], c)
  }

  /** Nobody else's edges move. */
  lemma {:induction false} UnaffectedSame(sc: Schema, fields: Fields, values: seq<FieldDelta>, keys: seq<NodeKey>, child: NodeKey)
    requires AffectedBy(sc, fields, values, keys) && child !in keys
    ensures SameEdges(sc, fields, Effective(fields, values), child)
  {
    var after := Effective(fields, values);
    forall fk | FoundAt(values, fk) >= 0 ensures !Affects(sc, fields, values[FoundAt(values, fk)], child) {
    }
    forall fk ensures OwnVia(sc, fields, fk, child) <==> OwnVia(sc, after, fk, child) {
      assert FoundAt(values, fk) >= 0 ==> !Affects(sc, fields, values[FoundAt(values, fk)], child);
    }
    forall o ensures BackTo(sc, fields, child, o) <==> BackTo(sc, after, child, o) {
      forall fk: FieldKey | fk.holder == child
        ensures BackVia(sc, fields, fk, o) <==> BackVia(sc, after, fk, o)
      {
        assert FoundAt(values, fk) >= 0 ==> !Affects(sc, fields, values[FoundAt(values, fk)], child);
      }
    }
  }

  method AddAll(affected: NodeKeySet, keys: seq<NodeKey>)
    requires affected.Valid()
    modifies affected, affected.inline
    ensures affected.Valid() && forall c :: c in affected.Keys() <==> c in old(affected.Keys()) || c in keys
  {
    var index := 0;
    while index < |keys|
      invariant 0 <= index <= |keys| && affected.Valid()
      invariant forall c :: c in affected.Keys() <==> c in old(affected.Keys()) || c in keys[..index]
    {
      assert keys[..index + 1] == keys[..index] + [keys[index]];
      var _ := affected.Add(keys[index]);
      index := index + 1;
    }
    assert keys[..index] == keys;
  }

  method CollectAffected(sc: Schema, fields: Fields, values: seq<FieldDelta>) returns (affected: NodeKeySet)
    ensures fresh(affected) && fresh(affected.inline) && affected.Valid() && AffectedBy(sc, fields, values, affected.Keys())
  {
    affected := new NodeKeySet();
    var index := 0;
    while index < |values|
      invariant fresh(affected) && fresh(affected.inline) && affected.Valid()
      invariant 0 <= index <= |values| && AffectedBy(sc, fields, values[..index], affected.Keys())
    {
      var fk := values[index].key;
      ghost var before := affected.Keys();
      if IsOwn(sc, fk.holder.typ, fk.field) {
        AddAll(affected, if fk in fields then fields[fk] else []);
        AddAll(affected, values[index].targets);
      }
      if IsOwnedBy(sc, fk.holder.typ, fk.field) {
        var _ := affected.Add(fk.holder);
      }
      AffectedGrow(sc, fields, values, index, before, affected.Keys());
      index := index + 1;
    }
    assert values[..index] == values;
  }

  lemma {:induction false} AffectedGrow(sc: Schema, fields: Fields, values: seq<FieldDelta>, n: nat, before: seq<NodeKey>, after: seq<NodeKey>)
    requires n < |values| && AffectedBy(sc, fields, values[..n], before)
    requires forall c :: c in after <==> c in before || Affects(sc, fields, values[n], c)
    ensures AffectedBy(sc, fields, values[..n + 1], after)
  {
    var longer := values[..n + 1];
    assert longer == values[..n] + [values[n]];
    hide Affects;
    forall c ensures c in after <==> exists i :: 0 <= i < |longer| && Affects(sc, fields, longer[i], c) {
      if c in before {
        var i :| 0 <= i < n && Affects(sc, fields, values[..n][i], c);
        assert Affects(sc, fields, longer[i], c);
      }
      if c in after && c !in before {
        assert Affects(sc, fields, longer[n], c);
      }
      if i :| 0 <= i < |longer| && Affects(sc, fields, longer[i], c) {
        assert i < n ==> Affects(sc, fields, values[..n][i], c);
      }
    }
  }

  // ---------------------------------------------------------------- judging the affected children

  /** An affected child's owner before the delta and after it. */
  datatype OwnerChange = OwnerChange(before: Option<NodeKey>, after: Option<NodeKey>)

  type OwnerDelta = map<NodeKey, OwnerChange>

  function Afters(changes: OwnerDelta): OwnerChanges {
    map c | c in changes :: changes[c].after
  }

  /** Changes start from the committed owners and really change something. */
  ghost predicate ChangesFrom(owners: Owners, changes: OwnerDelta) {
    forall c :: c in changes ==> changes[c].before == OwnerOf(owners, c) && changes[c].after != changes[c].before
  }

  /** Some owners map makes these fields a legal forest. */
  ghost predicate ForestPossible(sc: Schema, fields: Fields) {
    exists owners :: ForestLegal(sc, fields, owners)
  }

  /** The first `n` affected children are judged, nobody else's owner is touched. */
  ghost predicate Judged(sc: Schema, after: Fields, owners: Owners, changes: OwnerDelta, keys: seq<NodeKey>, n: int) {
    && 0 <= n <= |keys|
    && (forall c :: c in changes ==> c in keys[..n])
    && (forall i :: 0 <= i < n ==> Redecided(sc, after, Overlay(owners, Afters(changes)), keys[i]))
  }

  /** Recording one child's decision, when it differs from the committed owner. */
  function Recorded(owners: Owners, changes: OwnerDelta, child: NodeKey, owner: Option<NodeKey>): OwnerDelta {
    if OwnerOf(owners, child) == owner then changes else changes[child := OwnerChange(OwnerOf(owners, child), owner)]
  }

  lemma {:induction false} RecordedOwner(owners: Owners, changes: OwnerDelta, child: NodeKey, owner: Option<NodeKey>)
    requires child !in changes
    ensures var next := Overlay(owners, Afters(Recorded(owners, changes, child, owner)));
            OwnerOf(next, child) == owner && forall c :: c != child ==> OwnerOf(next, c) == OwnerOf(Overlay(owners, Afters(changes)), c)
  {
  }

  lemma {:induction false} RefusedForest(sc: Schema, after: Fields, child: NodeKey)
    requires !(OneOwnerAt(sc, after, child) && AgreeAt(sc, after, child))
    ensures !ForestPossible(sc, after)
  {
    ForestByChild(sc, after);
  }

  lemma {:induction false} JudgeOne(sc: Schema, after: Fields, owners: Owners, changes: OwnerDelta, keys: seq<NodeKey>, n: nat,
                                    raw: IncomingOwns, back: Option<NodeKey>)
    requires Judged(sc, after, owners, changes, keys, n) && n < |keys| && Distinct(keys)
    requires OwnTally(sc, after, keys[n], raw) && BackTally(sc, after, keys[n], back)
    ensures var refused := raw.count > 1 || (raw.count == 1 && back.Some? && raw.first != back.value);
            && (refused ==> !ForestPossible(sc, after))
            && (!refused ==> Judged(sc, after, owners, Recorded(owners, changes, keys[n], ResolvedOwner(raw, back)), keys, n + 1))
  {
    OwnerDecided(sc, after, keys[n], raw, back);
    hide OwnTally, BackTally, ForestPossible, OneOwnerAt, AgreeAt, IsOwner, ResolvedOwner, Recorded, Overlay, Afters;
    if raw.count > 1 || (raw.count == 1 && back.Some? && raw.first != back.value) {
      RefusedForest(sc, after, keys[n]);
    } else {
      JudgeAccepted(sc, after, owners, changes, keys, n, ResolvedOwner(raw, back));
    }
  }

  lemma {:induction false} JudgeAccepted(sc: Schema, after: Fields, owners: Owners, changes: OwnerDelta, keys: seq<NodeKey>, n: nat,
                                         owner: Option<NodeKey>)
    requires Judged(sc, after, owners, changes, keys, n) && n < |keys| && Distinct(keys)
    requires OneOwnerAt(sc, after, keys[n]) && AgreeAt(sc, after, keys[n])
    requires forall o :: owner == Some(o) <==> IsOwner(sc, after, keys[n], o)
    ensures Judged(sc, after, owners, Recorded(owners, changes, keys[n], owner), keys, n + 1)
  {
    hide OneOwnerAt, AgreeAt, IsOwner, Overlay, Afters;
    var next := Recorded(owners, changes, keys[n], owner);
    assert keys[..n + 1] == keys[..n] + [keys[n]];
    RecordedOwner(owners, changes, keys[n], owner);
    forall i | 0 <= i < n + 1 ensures Redecided(sc, after, Overlay(owners, Afters(next)), keys[i]) {
      if i < n {
        assert Redecided(sc, after, Overlay(owners, Afters(changes)), keys[i]);
      }
    }
  }

  /** Every affected child is judged: the forest is legal exactly when the chains above them all end. */
  lemma {:induction false} AllJudged(sc: Schema, fields: Fields, values: seq<FieldDelta>, owners: Owners, changes: OwnerDelta, keys: seq<NodeKey>)
    requires AffectedBy(sc, fields, values, keys) && ForestLegal(sc, fields, owners)
    requires Judged(sc, Effective(fields, values), owners, changes, keys, |keys|)
    ensures var after, owners' := Effective(fields, values), Overlay(owners, Afters(changes));
            && (ForestLegal(sc, after, owners') <==> forall c :: c in keys ==> Rooted(owners', c))
            && (ForestPossible(sc, after) <==> ForestLegal(sc, after, owners'))
  {
    hide *;
    var after, owners' := Effective(fields, values), Overlay(owners, Afters(changes));
    var affected := set c | c in keys;
    forall c ensures c !in affected ==> SameEdges(sc, fields, after, c) && OwnerOf(owners', c) == OwnerOf(owners, c)
      ensures c in affected ==> Redecided(sc, after, owners', c)
    {
      if c !in affected {
        UnaffectedSame(sc, fields, values, keys, c);
        UnjudgedSame(sc, after, owners, changes, keys, c);
      } else {
        var i :| 0 <= i < |keys| && keys[i] == c;
        JudgedAt(sc, after, owners, changes, keys, i);
      }
    }
    ForestPatched(sc, fields, after, owners, owners', affected);
    OnlyForest(sc, after, owners');
  }

  lemma {:induction false} UnjudgedSame(sc: Schema, after: Fields, owners: Owners, changes: OwnerDelta, keys: seq<NodeKey>, child: NodeKey)
    requires Judged(sc, after, owners, changes, keys, |keys|) && child !in keys
    ensures OwnerOf(Overlay(owners, Afters(changes)), child) == OwnerOf(owners, child)
  {
  }

  lemma {:induction false} JudgedAt(sc: Schema, after: Fields, owners: Owners, changes: OwnerDelta, keys: seq<NodeKey>, i: nat)
    requires Judged(sc, after, owners, changes, keys, |keys|) && i < |keys|
    ensures Redecided(sc, after, Overlay(owners, Afters(changes)), keys[i])
  {
  }

  /** Exact owners leave no choice: if any owners map makes the forest legal, this one does. */
  lemma {:induction false} OnlyForest(sc: Schema, fields: Fields, owners: Owners)
    requires OwnersExact(sc, fields, owners)
    ensures ForestPossible(sc, fields) <==> ForestLegal(sc, fields, owners)
  {
    forall other | ForestLegal(sc, fields, other) ensures other == owners {
      OwnersUnique(sc, fields, other, owners);
    }
  }

  lemma {:induction false} InputsOf(sc: Schema, fields: Fields, incoming: map<NodeKey, Bucket>, counts: Counts,
                                    values: seq<FieldDelta>, child: NodeKey)
    requires BucketsMatch(incoming, counts) && Transposed(fields, counts)
    requires OwnSlicesDistinct(sc, fields) && (OwnOnce(sc, values) ==> OwnEntriesDistinct(sc, values))
    ensures TallyInputs(sc, fields, if child in incoming then incoming[child].entries else [], BagOf(counts, child), values, child)
  {
    assert forall fk :: CountIn(counts, child, fk) == Mult(fields, fk, child);
  }

  /** Only the children whose edges the delta moves are judged, and cycles are sought only from them. */
  method ValidateOwnership(index: CommittedIndex, deltas: RelationFieldDeltas) returns (r: Result<OwnerDelta, RelationError>)
    requires WellFormed(index.sc) && BucketsMatch(index.incoming, index.counts) && Transposed(index.fields, index.counts)
    requires OwnSlicesDistinct(index.sc, index.fields) && ForestLegal(index.sc, index.fields, index.owners)
    requires deltas.Valid() && (OwnOnce(index.sc, deltas.values) ==> OwnEntriesDistinct(index.sc, deltas.values))
    ensures OwnOnce(index.sc, deltas.values) ==> (r.Ok? <==> ForestPossible(index.sc, Effective(index.fields, deltas.values)))
    ensures r.Ok? && OwnOnce(index.sc, deltas.values) ==>
              ForestLegal(index.sc, Effective(index.fields, deltas.values), Overlay(index.owners, Afters(r.value)))
    ensures r.Ok? ==> forall c :: OwnMult(index.sc, deltas.values, c) <= 1
    ensures r.Ok? ==> ChangesFrom(index.owners, r.value)
  {
    hide *;
    var sc, fields, owners, values := index.sc, index.fields, index.owners, deltas.values;
    ghost var after := Effective(fields, values);
    ghost var once := OwnOnce(sc, values);
    var affected := CollectAffected(sc, fields, values);
    ghost var keys := affected.Keys();
    KeysDistinct(affected);
    var changes: OwnerDelta := map[];
    NothingJudged(sc, after, owners, keys);
    var position := 0;
    while position < affected.count
      invariant affected.Valid() && affected.Keys() == keys && affected.count == |keys|
      invariant 0 <= position <= |keys| && ChangesFrom(owners, changes)
      invariant once ==> Judged(sc, after, owners, changes, keys, position)
      invariant forall i :: 0 <= i < position ==> OwnMult(sc, values, keys[i]) <= 1
    {
      var child := affected.At(position);
      InputsOf(sc, fields, index.incoming, index.counts, values, child);
      var raw := EffectiveIncomingOwn(sc, fields, if child in index.incoming then index.incoming[child].entries else [],
                                      BagOf(index.counts, child), deltas, child);
      var back := EffectiveOwnedBy(sc, fields, deltas, child);
      if once {
        JudgeOne(sc, after, owners, changes, keys, position, raw, back);
      }
      if raw.count > 1 || (raw.count == 1 && back.Some? && raw.first != back.value) {
        return Err(InvalidOwnership);
      }
      var owner := ResolvedOwner(raw, back);
      ChangeFrom(owners, changes, child, owner);
      changes := Recorded(owners, changes, child, owner);
      position := position + 1;
    }
    if once {
      AllJudged(sc, fields, values, owners, changes, keys);
    }
    NoOwnRepeated(sc, fields, values, keys);
    position := 0;
    while position < affected.count
      invariant affected.Valid() && affected.Keys() == keys && affected.count == |keys|
      invariant 0 <= position <= |keys|
      invariant forall i :: 0 <= i < position ==> Rooted(Overlay(owners, Afters(changes)), keys[i])
    {
      var start := affected.At(position);
      var ok := ValidateOwnerChain(owners, Afters(changes), start);
      if !ok {
        return Err(OwnershipCycle);
      }
      position := position + 1;
    }
    r := Ok(changes);
  }

  /** Only affected children have own edges among the replacements. */
  lemma {:induction false} NoOwnRepeated(sc: Schema, fields: Fields, values: seq<FieldDelta>, keys: seq<NodeKey>)
    requires AffectedBy(sc, fields, values, keys) && forall i :: 0 <= i < |keys| ==> OwnMult(sc, values, keys[i]) <= 1
    ensures forall c :: OwnMult(sc, values, c) <= 1
  {
    forall c ensures OwnMult(sc, values, c) <= 1 {
      if c !in keys {
        NoOwnEdgesTo(sc, fields, values, keys, c, |values|);
        assert values[..|values|] == values;
      }
    }
  }

  lemma {:induction false} NoOwnEdgesTo(sc: Schema, fields: Fields, values: seq<FieldDelta>, keys: seq<NodeKey>, child: NodeKey, n: nat)
    requires AffectedBy(sc, fields, values, keys) && child !in keys && n <= |values|
    ensures OwnMult(sc, values[..n], child) == 0
  {
    if n > 0 {
      NoOwnEdgesTo(sc, fields, values, keys, child, n - 1);
      OwnMultStep(sc, values, n - 1, child);
      assert !Affects(sc, fields, values[n - 1], child);
    }
  }

  lemma {:induction false} KeysDistinct(keys: NodeKeySet)
    requires keys.Valid()
    ensures Distinct(keys.Keys()) && keys.count == |keys.Keys()|
  {
  }

  lemma {:induction false} NothingJudged(sc: Schema, after: Fields, owners: Owners, keys: seq<NodeKey>)
    ensures Judged(sc, after, owners, map[], keys, 0) && ChangesFrom(owners, map[])
  {
  }

  lemma {:induction false} ChangeFrom(owners: Owners, changes: OwnerDelta, child: NodeKey, owner: Option<NodeKey>)
    requires ChangesFrom(owners, changes)
    ensures ChangesFrom(owners, Recorded(owners, changes, child, owner))
  {
  }
}
