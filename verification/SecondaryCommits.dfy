/** A secondary index across commits: exact uniqueness checks, and three ways of updating that end in the same place. */
module SecondaryCommits {
  import opened Wrappers
  import opened Bytes
  import opened IndexOrder
  import opened SecondaryIndexes

  function IdOf(w: PendingWrite): int {
    match w case Save(id, _) => id case Delete(id) => id
  }

  function IdsOf(items: seq<PendingWrite>): set<int> {
    set i | 0 <= i < |items| :: IdOf(items[i])
  }

  ghost predicate DistinctItems(items: seq<PendingWrite>) {
    forall i, j :: 0 <= i < j < |items| ==> IdOf(items[i]) != IdOf(items[j])
  }

  /** The rows once every change is applied. */
  function Post(rows: Rows, items: seq<PendingWrite>): Rows {
    if items == [] then rows
    else
      var before := Post(rows, items[..|items| - 1]);
      match items[|items| - 1]
      case Save(id, fields) => before[id := fields]
      case Delete(id) => before - {id}
  }

  lemma {:induction false} PostStep(rows: Rows, items: seq<PendingWrite>, i: nat)
    requires i < |items|
    ensures Post(rows, items[..i + 1]) == match items[i]
                                          case Save(id, fields) => Post(rows, items[..i])[id := fields]
                                          case Delete(id) => Post(rows, items[..i]) - {id}
  {
    assert items[..i + 1][..i] == items[..i];
  }

  lemma {:induction false} PostElsewhere(rows: Rows, items: seq<PendingWrite>, id: int)
    requires id !in IdsOf(items)
    ensures (id in Post(rows, items) <==> id in rows) && (id in rows ==> Post(rows, items)[id] == rows[id])
  {
    if items != [] {
      var last := |items| - 1;
      forall k | k in IdsOf(items[..last]) ensures k in IdsOf(items) {
        var i :| 0 <= i < last && IdOf(items[..last][i]) == k;
        assert IdOf(items[i]) == k;
      }
      assert IdOf(items[last]) in IdsOf(items);
      PostElsewhere(rows, items[..last], id);
    }
  }

  lemma {:induction false} PostAt(rows: Rows, items: seq<PendingWrite>, i: nat)
    requires DistinctItems(items) && i < |items|
    ensures match items[i]
            case Save(id, fields) => id in Post(rows, items) && Post(rows, items)[id] == fields
            case Delete(id) => id !in Post(rows, items)
  {
    var last := |items| - 1;
    if i < last {
      PostAt(rows, items[..last], i);
      assert items[..last][i] == items[i];
    }
  }

  /** Rows nobody writes are shared between before and after. */
  lemma {:induction false} PostShares(rows: Rows, items: seq<PendingWrite>)
    ensures SameOn(rows, Post(rows, items), rows.Keys - IdsOf(items))
    ensures rows.Keys - IdsOf(items) == Post(rows, items).Keys - IdsOf(items)
  {
    forall id | id !in IdsOf(items) ensures (id in Post(rows, items) <==> id in rows) && (id in rows ==> Post(rows, items)[id] == rows[id]) {
      PostElsewhere(rows, items, id);
    }
  }

  class SecondaryIndex {
    const unique: bool
    var rows: Rows             // the live rows' indexed fields, by id
    var entries: seq<int>
    var keys: map<Data, int>

    /** The index holds exactly the rows `ids`. */
    ghost predicate Holds(ids: set<int>)
      reads this
    {
      Typed(rows) && Ordered(rows, ids, entries) && (unique ==> Keyed(rows, ids, keys) && UniqueAmong(rows, ids))
    }

    ghost predicate Valid()
      reads this
    {
      Holds(rows.Keys)
    }

    constructor (unique: bool)
      ensures Valid() && this.unique == unique && rows == map[]
    {
      this.unique := unique;
      rows, entries, keys := map[], [], map[];
    }

    // -------------------------------------------------------------- uniqueness

    /** Refuse exactly the write sets after which two rows would share a unique key. */
    method ValidateIndexes(items: seq<PendingWrite>) returns (ok: bool)
      requires Valid() && DistinctItems(items) && Typed(Post(rows, items))
      ensures ok <==> !unique || UniqueAmong(Post(rows, items), Post(rows, items).Keys)
    {
      if !unique {
        return true;
      }
      var changed := IdsOf(items);
      var pending: map<Data, int> := map[];
      var i := 0;
      while i < |items|
        invariant 0 <= i <= |items| && Pending(items, i, pending)
        invariant forall j :: 0 <= j < i && items[j].Save? ==> Clear(rows, keys, changed, items[j])
      {
        if items[i].Save? {
          PostAt(rows, items, i);
          var key := UniqueKey(items[i].fields);
          if key in keys && keys[key] != items[i].id && keys[key] !in changed {
            TakenCollides(rows, items, keys, i);
            return false;
          }
          if key in pending && pending[key] != items[i].id {
            PendingCollides(rows, items, pending, i);
            return false;
          }
          PendingStep(items, i, pending);
          pending := pending[key := items[i].id];
        }
        i := i + 1;
      }
      NoCollision(rows, items, keys, pending);
      ok := true;
    }

    // -------------------------------------------------------------- one at a time

    method RemoveEntry(ghost ids: set<int>, id: int)
      requires Holds(ids) && id in ids
      modifies this`entries, this`keys
      ensures Holds(ids - {id})
    {
      hide *;
      HeldRow(this, ids, id);
      if unique {
        KeyRemoved(rows, ids, keys, id);
        FewerUnique(rows, ids, id);
        keys := keys - {UniqueKey(rows[id])};
      }
      var position := LowerBound(rows, entries, id);
      RemovedAt(rows, ids, entries, id, position);
      if position < |entries| && entries[position] == id {
        entries := entries[..position] + entries[position + 1..];
      }
      HeldFrom(this, ids - {id});
    }

    method AddEntry(ghost ids: set<int>, id: int)
      requires Holds(ids) && id in rows && id !in ids && (unique ==> UniqueAmong(rows, ids + {id}))
      modifies this`entries, this`keys
      ensures Holds(ids + {id})
    {
      hide *;
      HeldParts(this, ids);
      if unique {
        KeyAdded(rows, ids, keys, id);
        TypedKey(rows, id);
        keys := keys[UniqueKey(rows[id]) := id];
      }
      var position := LowerBound(rows, entries, id);
      InsertedAt(rows, ids, entries, id, position);
      entries := entries[..position] + [id] + entries[position..];
      HeldFrom(this, ids + {id});
    }

    // -------------------------------------------------------------- before and after the in-place writes

    /** Take every written row out of the index, under the fields it still has. */
    method PrepareIndexes(items: seq<PendingWrite>)
      requires Valid() && DistinctItems(items)
      modifies this`entries, this`keys
      ensures Holds(rows.Keys - IdsOf(items))
    {
      if |items| >= BATCH_THRESHOLD {
        PrepareBatch(items);
        return;
      }
      hide *;
      var i := 0;
      NoIds(items);
      assert rows.Keys - {} == rows.Keys;
      HeldIs(this);
      while i < |items|
        invariant 0 <= i <= |items| && Holds(rows.Keys - IdsOf(items[..i]))
      {
        NextId(items, i);
        ghost var left := rows.Keys - IdsOf(items[..i]);
        assert rows.Keys - IdsOf(items[..i + 1]) == left - {IdOf(items[i])};
        if IdOf(items[i]) in rows {
          RemoveEntry(left, IdOf(items[i]));
        } else {
          assert left - {IdOf(items[i])} == left;
        }
        i := i + 1;
      }
      assert items[..i] == items;
    }

    /** The same in one sweep: lookups first, then one filter over the entries. */
    method PrepareBatch(items: seq<PendingWrite>)
      requires Valid() && DistinctItems(items)
      modifies this`entries, this`keys
      ensures Holds(rows.Keys - IdsOf(items))
    {
      hide *;
      HeldIs(this);
      HeldParts(this, rows.Keys);
      var changed := set id | id in IdsOf(items) && id in rows;
      if unique {
        RemoveLookups(changed);
      }
      assert rows.Keys - IdsOf(items) == rows.Keys - changed;
      WithoutOrdered(rows, rows.Keys, entries, changed);
      entries := DeleteIds(entries, changed);
      if unique {
        SubsetUnique(rows, rows.Keys, rows.Keys - changed);
      }
      HeldFrom(this, rows.Keys - IdsOf(items));
    }

    method RemoveLookups(changed: set<int>)
      requires Typed(rows) && Keyed(rows, rows.Keys, keys) && changed <= rows.Keys
      modifies this`keys
      ensures Keyed(rows, rows.Keys - changed, keys)
    {
      hide Keyed, KeyOf, UniqueKey, Typed;
      var rest := changed;
      assert rows.Keys - (changed - rest) == rows.Keys;
      while rest != {}
        invariant rest <= changed && Keyed(rows, rows.Keys - (changed - rest), keys)
        decreases |rest|
      {
        HasMember(rest);
        var id :| id in rest;
        KeyRemoved(rows, rows.Keys - (changed - rest), keys, id);
        TypedKey(rows, id);
        keys := keys - {UniqueKey(rows[id])};
        assert rows.Keys - (changed - rest) - {id} == rows.Keys - (changed - (rest - {id}));
        rest := rest - {id};
      }
      assert changed - rest == changed;
    }

    /** The in-place writes, creates and deletes themselves. */
    method ApplyWrites(items: seq<PendingWrite>)
      requires Holds(rows.Keys - IdsOf(items)) && Typed(Post(rows, items))
      modifies this`rows
      ensures rows == Post(old(rows), items) && Holds(rows.Keys - IdsOf(items))
    {
      ghost var rows0 := rows;
      var i := 0;
      while i < |items|
        invariant 0 <= i <= |items| && rows == Post(rows0, items[..i])
      {
        PostStep(rows0, items, i);
        match items[i] {
          case Save(id, fields) =>
            rows := rows[id := fields];
          case Delete(id) =>
            rows := rows - {id};
        }
        i := i + 1;
      }
      assert items[..i] == items;
      HeldAcross(this, rows0, items);
    }

    /** Put every written row that is still there back, under the fields it has now. */
    method FinishIndexes(items: seq<PendingWrite>)
      requires Holds(rows.Keys - IdsOf(items)) && DistinctItems(items) && (unique ==> UniqueAmong(rows, rows.Keys))
      requires forall i :: 0 <= i < |items| && items[i].Delete? ==> IdOf(items[i]) !in rows
      modifies this`entries, this`keys
      ensures Valid()
    {
      if |items| >= BATCH_THRESHOLD {
        FinishBatch(items);
        return;
      }
      hide *;
      ghost var held := rows.Keys - IdsOf(items);
      var i := 0;
      NothingBack(rows, items);
      while i < |items|
        invariant 0 <= i <= |items| && Holds(held) && Returned(rows, items, i, held)
      {
        ReturnedNext(rows, items, i, held);
        if items[i].Save? && IdOf(items[i]) in rows {
          SubsetUniqueIf(unique, rows, held + {IdOf(items[i])});
          AddEntry(held, IdOf(items[i]));
          held := held + {IdOf(items[i])};
        }
        i := i + 1;
      }
      ReturnedAll(rows, items, held);
      HeldIs(this);
    }

    /** The same in one merge of the sorted additions. */
    method FinishBatch(items: seq<PendingWrite>)
      requires Holds(rows.Keys - IdsOf(items)) && DistinctItems(items) && (unique ==> UniqueAmong(rows, rows.Keys))
      requires forall i :: 0 <= i < |items| && items[i].Delete? ==> IdOf(items[i]) !in rows
      modifies this`entries, this`keys
      ensures Valid()
    {
      hide *;
      ghost var held := rows.Keys - IdsOf(items);
      HeldParts(this, held);
      var additions := CollectAdditions(rows, items);
      SortedIds(rows, additions, held);
      var ordered := SortIds(rows, additions);
      AddedApart(rows, held, additions);
      var merged := MergeEntries(rows, entries, ordered, held, Members(additions));
      if unique {
        AddLookups(additions, held);
      }
      entries := merged;
      HeldFrom(this, rows.Keys);
      HeldIs(this);
    }

    method AddLookups(additions: seq<int>, ghost held: set<int>)
      requires Typed(rows) && Keyed(rows, held, keys) && held <= rows.Keys && Additions(rows, held, additions)
      requires UniqueAmong(rows, rows.Keys)
      modifies this`keys
      ensures Keyed(rows, held + Members(additions), keys)
    {
      hide Keyed, KeyOf, UniqueKey, Typed, UniqueAmong;
      var i := 0;
      assert held + Members(additions[..0]) == held;
      while i < |additions|
        invariant 0 <= i <= |additions| && Keyed(rows, held + Members(additions[..i]), keys)
      {
        var id := additions[i];
        assert additions[..i + 1] == additions[..i] + [id];
        assert Members(additions[..i + 1]) == Members(additions[..i]) + {id};
        assert held + Members(additions[..i + 1]) == held + Members(additions[..i]) + {id};
        NotYetAdded(rows, held, additions, i);
        SubsetUnique(rows, rows.Keys, held + Members(additions[..i]) + {id});
        KeyAdded(rows, held + Members(additions[..i]), keys, id);
        TypedKey(rows, id);
        keys := keys[UniqueKey(rows[id]) := id];
        i := i + 1;
      }
      assert additions[..i] == additions;
    }

    /** Validate, take out, write, put back: the commit either leaves everything alone or ends in a valid index. */
    method Commit(items: seq<PendingWrite>) returns (ok: bool)
      requires Valid() && DistinctItems(items) && Typed(Post(rows, items))
      modifies this
      ensures ok <==> !unique || UniqueAmong(Post(old(rows), items), Post(old(rows), items).Keys)
      ensures Valid() && rows == if ok then Post(old(rows), items) else old(rows)
    {
      hide *;
      ok := ValidateIndexes(items);
      if ok {
        PrepareIndexes(items);
        ghost var rows0 := rows;
        ApplyWrites(items);
        DeletedGone(rows0, items);
        FinishIndexes(items);
      }
    }

    /** Start again from the rows alone; a duplicate key leaves the old index in place. */
    method Rebuild() returns (ok: bool)
      requires Typed(rows)
      modifies this`entries, this`keys
      ensures ok <==> !unique || UniqueAmong(rows, rows.Keys)
      ensures if ok then Valid() else entries == old(entries) && keys == old(keys)
    {
      hide *;
      var listed := ListIds(rows.Keys);
      AddsAll(rows, listed);
      SortedIds(rows, listed, {});
      var ordered := SortIds(rows, listed);
      ok := true;
      var rebuilt: map<Data, int> := map[];
      if unique {
        ok, rebuilt := RebuildKeys(rows, ordered);
      }
      if ok {
        entries, keys := ordered, rebuilt;
        HeldFrom(this, rows.Keys);
        HeldIs(this);
      }
    }
  }

  method RebuildKeys(rows: Rows, entries: seq<int>) returns (ok: bool, keys: map<Data, int>)
    requires Typed(rows) && Ordered(rows, rows.Keys, entries)
    ensures ok <==> UniqueAmong(rows, rows.Keys)
    ensures ok ==> Keyed(rows, rows.Keys, keys)
  {
    hide *;
    keys := map[];
    NothingKeyed(rows);
    var i := 0;
    assert entries[..0] == [];
    while i < |entries|
      invariant 0 <= i <= |entries| && Keyed(rows, Members(entries[..i]), keys) && UniqueAmong(rows, Members(entries[..i]))
    {
      var id := entries[i];
      EntryFresh(rows, rows.Keys, entries, i);
      MembersGrow(entries, i);
      TypedKey(rows, id);
      KeyClash(rows, Members(entries[..i]), keys, id);
      if UniqueKey(rows[id]) in keys && keys[UniqueKey(rows[id])] != id {
        return false, keys;
      }
      KeyAdded(rows, Members(entries[..i]), keys, id);
      keys := keys[UniqueKey(rows[id]) := id];
      i := i + 1;
    }
    assert entries[..i] == entries;
    EntriesMembers(rows, rows.Keys, entries);
    ok := true;
  }

  // ---------------------------------------------------------------- uniqueness of a write set

  function ItemKey(w: PendingWrite): Option<Data> {
    match w case Save(_, fields) => (if Encodable(fields) then Some(UniqueKey(fields)) else None) case Delete(_) => None
  }

  /** The keys of the first `n` writes, each with its writer. */
  ghost predicate Pending(items: seq<PendingWrite>, n: int, pending: map<Data, int>) {
    && 0 <= n <= |items|
    && (forall k :: k in pending ==> WritesKey(items, n, pending[k], k))
    && (forall j :: 0 <= j < n && ItemKey(items[j]).Some? ==>
          ItemKey(items[j]).value in pending && pending[ItemKey(items[j]).value] == IdOf(items[j]))
  }

  ghost predicate WritesKey(items: seq<PendingWrite>, n: int, id: int, key: Data)
    requires 0 <= n <= |items|
  {
    exists j :: 0 <= j < n && IdOf(items[j]) == id && ItemKey(items[j]) == Some(key)
  }

  /** The write takes no key from a row that stays as it is. */
  ghost predicate Clear(rows: Rows, keys: map<Data, int>, changed: set<int>, w: PendingWrite) {
    ItemKey(w).Some? ==> ItemKey(w).value !in keys || keys[ItemKey(w).value] == IdOf(w) || keys[ItemKey(w).value] in changed
  }

  lemma {:induction false} PendingStep(items: seq<PendingWrite>, i: nat, pending: map<Data, int>)
    requires i < |items| && items[i].Save? && Pending(items, i, pending) && Encodable(items[i].fields)
    requires UniqueKey(items[i].fields) !in pending || pending[UniqueKey(items[i].fields)] == items[i].id
    ensures Pending(items, i + 1, pending[UniqueKey(items[i].fields) := items[i].id])
  {
    hide UniqueKey;
    var key := UniqueKey(items[i].fields);
    var next := pending[key := items[i].id];
    forall k | k in next ensures WritesKey(items, i + 1, next[k], k) {
      if k != key {
        assert WritesKey(items, i, pending[k], k);
      } else {
        assert IdOf(items[i]) == next[k] && ItemKey(items[i]) == Some(key);
      }
    }
  }

  lemma {:induction false} TakenCollides(rows: Rows, items: seq<PendingWrite>, keys: map<Data, int>, i: nat)
    requires DistinctItems(items) && Typed(rows) && Typed(Post(rows, items)) && Keyed(rows, rows.Keys, keys)
    requires i < |items| && items[i].Save? && Encodable(items[i].fields) && UniqueKey(items[i].fields) in keys
    requires keys[UniqueKey(items[i].fields)] != items[i].id && keys[UniqueKey(items[i].fields)] !in IdsOf(items)
    ensures !UniqueAmong(Post(rows, items), Post(rows, items).Keys)
  {
    var post, key := Post(rows, items), UniqueKey(items[i].fields);
    var holder := keys[key];
    PostAt(rows, items, i);
    PostElsewhere(rows, items, holder);
    assert KeyOf(rows, holder) == Some(key);
    SameKeySame(post, holder, items[i].id);
    hide UniqueKey, Post, Typed, Keyed, IdsOf;
  }

  lemma {:induction false} PendingCollides(rows: Rows, items: seq<PendingWrite>, pending: map<Data, int>, i: nat)
    requires DistinctItems(items) && Typed(Post(rows, items)) && Pending(items, i, pending)
    requires i < |items| && items[i].Save? && Encodable(items[i].fields) && UniqueKey(items[i].fields) in pending
    requires pending[UniqueKey(items[i].fields)] != items[i].id
    ensures !UniqueAmong(Post(rows, items), Post(rows, items).Keys)
  {
    var post, key := Post(rows, items), UniqueKey(items[i].fields);
    assert WritesKey(items, i, pending[key], key);
    var j :| 0 <= j < i && IdOf(items[j]) == pending[key] && ItemKey(items[j]) == Some(key);
    PostAt(rows, items, i);
    PostAt(rows, items, j);
    SameKeySame(post, items[j].id, items[i].id);
    hide UniqueKey, Post, Typed;
  }

  /** Every written row that is still there carries the fields of its write. */
  lemma {:induction false} WrittenAs(rows: Rows, items: seq<PendingWrite>, id: int)
    requires DistinctItems(items) && id in IdsOf(items) && id in Post(rows, items) && Encodable(Post(rows, items)[id])
    ensures exists i :: 0 <= i < |items| && IdOf(items[i]) == id && ItemKey(items[i]) == KeyOf(Post(rows, items), id)
  {
    hide UniqueKey;
    var i :| 0 <= i < |items| && IdOf(items[i]) == id;
    PostAt(rows, items, i);
  }

  lemma {:induction false} NoCollision(rows: Rows, items: seq<PendingWrite>, keys: map<Data, int>, pending: map<Data, int>)
    requires DistinctItems(items) && Typed(rows) && Typed(Post(rows, items))
    requires Keyed(rows, rows.Keys, keys) && UniqueAmong(rows, rows.Keys) && Pending(items, |items|, pending)
    requires forall j :: 0 <= j < |items| && items[j].Save? ==> Clear(rows, keys, IdsOf(items), items[j])
    ensures UniqueAmong(Post(rows, items), Post(rows, items).Keys)
  {
    var post := Post(rows, items);
    forall a, b | a in post && b in post && post[a] == post[b] ensures a == b {
      SameKeySame(post, a, b);
      if a in IdsOf(items) && b in IdsOf(items) {
        BothWritten(rows, items, pending, a, b);
      } else if a in IdsOf(items) {
        OneWritten(rows, items, keys, a, b);
      } else if b in IdsOf(items) {
        OneWritten(rows, items, keys, b, a);
      } else {
        PostElsewhere(rows, items, a);
        PostElsewhere(rows, items, b);
      }
    }
  }

  lemma {:induction false} BothWritten(rows: Rows, items: seq<PendingWrite>, pending: map<Data, int>, a: int, b: int)
    requires DistinctItems(items) && Typed(Post(rows, items)) && Pending(items, |items|, pending)
    requires a in IdsOf(items) && b in IdsOf(items) && a in Post(rows, items) && b in Post(rows, items)
    requires KeyOf(Post(rows, items), a) == KeyOf(Post(rows, items), b)
    ensures a == b
  {
    hide UniqueKey, Post, IdsOf;
    WrittenAs(rows, items, a);
    WrittenAs(rows, items, b);
    assert KeyOf(Post(rows, items), a).Some?;
  }

  lemma {:induction false} OneWritten(rows: Rows, items: seq<PendingWrite>, keys: map<Data, int>, a: int, b: int)
    requires DistinctItems(items) && Typed(Post(rows, items)) && Typed(rows) && Keyed(rows, rows.Keys, keys)
    requires forall j :: 0 <= j < |items| && items[j].Save? ==> Clear(rows, keys, IdsOf(items), items[j])
    requires a in IdsOf(items) && b !in IdsOf(items) && a in Post(rows, items) && b in Post(rows, items)
    ensures KeyOf(Post(rows, items), a) != KeyOf(Post(rows, items), b)
  {
    hide UniqueKey, Post, IdsOf;
    WrittenAs(rows, items, a);
    PostElsewhere(rows, items, b);
    assert KeyOf(Post(rows, items), b) == KeyOf(rows, b) && KeyOf(rows, b).Some?;
    var i :| 0 <= i < |items| && IdOf(items[i]) == a && ItemKey(items[i]) == KeyOf(Post(rows, items), a);
    assert keys[KeyOf(rows, b).value] == b;
    assert KeyOf(Post(rows, items), a).Some? ==> items[i].Save?;
  }

  // ---------------------------------------------------------------- what an index holds

  lemma {:induction false} HeldParts(index: SecondaryIndex, ids: set<int>)
    requires index.Holds(ids)
    ensures Typed(index.rows) && Ordered(index.rows, ids, index.entries)
    ensures ids <= index.rows.Keys && AllIn(index.rows, index.entries) && Sorted(index.rows, index.entries)
    ensures index.unique ==> Keyed(index.rows, ids, index.keys) && UniqueAmong(index.rows, ids)
  {
  }

  lemma {:induction false} HeldFrom(index: SecondaryIndex, ids: set<int>)
    requires Typed(index.rows) && Ordered(index.rows, ids, index.entries)
    requires index.unique ==> Keyed(index.rows, ids, index.keys) && UniqueAmong(index.rows, ids)
    ensures index.Holds(ids)
  {
  }

  lemma {:induction false} HeldIs(index: SecondaryIndex)
    ensures index.Valid() <==> index.Holds(index.rows.Keys)
  {
  }

  lemma {:induction false} HeldRow(index: SecondaryIndex, ids: set<int>, id: int)
    requires index.Holds(ids) && id in ids
    ensures id in index.rows && Encodable(index.rows[id]) && Typed(index.rows) && Ordered(index.rows, ids, index.entries)
    ensures AllIn(index.rows, index.entries) && Sorted(index.rows, index.entries)
    ensures index.unique ==> Keyed(index.rows, ids, index.keys) && UniqueAmong(index.rows, ids)
  {
  }

  lemma {:induction false} TypedKey(rows: Rows, id: int)
    requires Typed(rows) && id in rows
    ensures Encodable(rows[id])
  {
  }

  lemma {:induction false} FewerUnique(rows: Rows, ids: set<int>, id: int)
    requires UniqueAmong(rows, ids)
    ensures UniqueAmong(rows, ids - {id})
  {
  }

  lemma {:induction false} SubsetUnique(rows: Rows, ids: set<int>, fewer: set<int>)
    requires UniqueAmong(rows, ids) && fewer <= ids
    ensures UniqueAmong(rows, fewer)
  {
  }

  lemma {:induction false} SubsetUniqueIf(unique: bool, rows: Rows, fewer: set<int>)
    requires unique ==> UniqueAmong(rows, rows.Keys)
    requires fewer <= rows.Keys
    ensures unique ==> UniqueAmong(rows, fewer)
  {
  }

  lemma {:induction false} NoIds(items: seq<PendingWrite>)
    ensures IdsOf(items[..0]) == {}
  {
  }

  lemma {:induction false} NextId(items: seq<PendingWrite>, i: nat)
    requires i < |items|
    ensures IdsOf(items[..i + 1]) == IdsOf(items[..i]) + {IdOf(items[i])}
    ensures DistinctItems(items) ==> IdOf(items[i]) !in IdsOf(items[..i])
  {
    var longer := items[..i + 1];
    forall id ensures id in IdsOf(longer) <==> id in IdsOf(items[..i]) || id == IdOf(items[i]) {
      if id in IdsOf(items[..i]) {
        var j :| 0 <= j < i && IdOf(items[..i][j]) == id;
        assert IdOf(longer[j]) == id;
      }
      if id in IdsOf(longer) {
        var j :| 0 <= j < |longer| && IdOf(longer[j]) == id;
        assert j < i ==> IdOf(items[..i][j]) == id;
      }
      assert IdOf(longer[i]) == IdOf(items[i]);
    }
  }

  lemma {:induction false} HeldAcross(index: SecondaryIndex, rows0: Rows, items: seq<PendingWrite>)
    requires index.rows == Post(rows0, items) && Typed(index.rows)
    requires var ids := rows0.Keys - IdsOf(items);
             && Ordered(rows0, ids, index.entries)
             && (index.unique ==> Keyed(rows0, ids, index.keys) && UniqueAmong(rows0, ids))
    ensures index.Holds(index.rows.Keys - IdsOf(items))
  {
    PostShares(rows0, items);
    var ids := rows0.Keys - IdsOf(items);
    OrderedOn(rows0, index.rows, ids, index.entries);
    if index.unique {
      KeyedOn(rows0, index.rows, ids, index.keys);
    }
    hide Ordered, Keyed, Post, IdsOf;
  }

  /** Deleted rows are gone from the final rows. */
  lemma {:induction false} DeletedGone(rows: Rows, items: seq<PendingWrite>)
    requires DistinctItems(items)
    ensures forall i :: 0 <= i < |items| && items[i].Delete? ==> IdOf(items[i]) !in Post(rows, items)
  {
    forall i | 0 <= i < |items| && items[i].Delete? ensures IdOf(items[i]) !in Post(rows, items) {
      PostAt(rows, items, i);
    }
  }

  // ---------------------------------------------------------------- the filter of the batch path

  function Without(entries: seq<int>, gone: set<int>): seq<int> {
    if entries == [] then []
    else
      var last := entries[|entries| - 1];
      Without(entries[..|entries| - 1], gone) + if last in gone then [] else [last]
  }

  method DeleteIds(entries: seq<int>, gone: set<int>) returns (kept: seq<int>)
    ensures kept == Without(entries, gone)
  {
    kept := [];
    var i := 0;
    while i < |entries|
      invariant 0 <= i <= |entries| && kept == Without(entries[..i], gone)
    {
      WithoutStep(entries, i, gone);
      if entries[i] !in gone {
        kept := kept + [entries[i]];
      }
      i := i + 1;
    }
    assert entries[..i] == entries;
  }

  lemma {:induction false} WithoutStep(entries: seq<int>, i: nat, gone: set<int>)
    requires i < |entries|
    ensures Without(entries[..i + 1], gone) == Without(entries[..i], gone) + if entries[i] in gone then [] else [entries[i]]
    ensures Without(entries[..i], gone) + [] == Without(entries[..i], gone)
  {
    assert entries[..i + 1][..i] == entries[..i];
  }

  lemma {:induction false} WithoutOrdered(rows: Rows, ids: set<int>, entries: seq<int>, gone: set<int>)
    requires Ordered(rows, ids, entries)
    ensures Ordered(rows, ids - gone, Without(entries, gone))
  {
    if entries == [] {
      assert ids == {} by {
        if ids != {} {
          HasMember(ids);
        }
      }
      assert ids - gone == {};
    } else {
      var n := |entries| - 1;
      var last, before := entries[n], entries[..n];
      FrontOrdered(rows, ids, entries);
      WithoutOrdered(rows, ids - {last}, before, gone);
      var kept := Without(before, gone);
      if last in gone {
        assert ids - {last} - gone == ids - gone && kept + [] == kept;
      } else {
        LastAppended(rows, (ids - {last}) - gone, kept, before, last, entries);
        assert (ids - {last}) - gone + {last} == ids - gone;
      }
    }
  }

  lemma {:induction false} FrontOrdered(rows: Rows, ids: set<int>, entries: seq<int>)
    requires Ordered(rows, ids, entries) && entries != []
    ensures var n := |entries| - 1;
            entries[n] in ids && Ordered(rows, ids - {entries[n]}, entries[..n]) && forall i :: 0 <= i < n ==> Before(rows, entries[i], entries[n])
  {
    hide Before;
    var n := |entries| - 1;
    var front := entries[..n];
    assert entries == front + [entries[n]];
    assert entries[n] in entries && entries[n] in ids;
    forall i | 0 <= i < n ensures Before(rows, front[i], entries[n]) && front[i] != entries[n] {
      assert Before(rows, entries[i], entries[n]);
      BeforeTotal(rows, entries[n], entries[n]);
    }
    forall id ensures id in front <==> id in ids - {entries[n]} {
      assert id in entries <==> id in front || id == entries[n];
    }
    forall i, j | 0 <= i < j < n ensures Before(rows, front[i], front[j]) {
      assert Before(rows, entries[i], entries[j]);
    }
    assert AllIn(rows, front) && Sorted(rows, front);
    assert Ordered(rows, ids - {entries[n]}, front);
  }

  lemma {:induction false} LastAppended(rows: Rows, ids: set<int>, kept: seq<int>, before: seq<int>, last: int, entries: seq<int>)
    requires Ordered(rows, ids, kept) && last in rows && last !in ids
    requires forall i :: 0 <= i < |before| ==> before[i] in rows && Before(rows, before[i], last)
    requires forall id :: id in ids ==> id in before
    ensures Ordered(rows, ids + {last}, kept + [last])
  {
    hide Before;
    var grown := kept + [last];
    forall i | 0 <= i < |kept| ensures Before(rows, kept[i], last) {
      assert kept[i] in kept;
      var j :| 0 <= j < |before| && before[j] == kept[i];
    }
    forall i, j | 0 <= i < j < |grown| ensures grown[i] in rows && grown[j] in rows && Before(rows, grown[i], grown[j]) {
    }
  }

  // ---------------------------------------------------------------- rows going back in

  function Members(ids: seq<int>): set<int> {
    set id | id in ids
  }

  /** Everything but the rows of the writes from `i` on is back. */
  ghost predicate Returned(rows: Rows, items: seq<PendingWrite>, i: int, held: set<int>) {
    0 <= i <= |items| && held == rows.Keys - IdsOf(items[i..])
  }

  lemma {:induction false} NothingBack(rows: Rows, items: seq<PendingWrite>)
    ensures Returned(rows, items, 0, rows.Keys - IdsOf(items))
  {
    assert items[0..] == items;
  }

  lemma {:induction false} RestIds(items: seq<PendingWrite>, i: nat)
    requires i < |items| && DistinctItems(items)
    ensures IdsOf(items[i..]) == {IdOf(items[i])} + IdsOf(items[i + 1..]) && IdOf(items[i]) !in IdsOf(items[i + 1..])
  {
    var longer, shorter := items[i..], items[i + 1..];
    forall id ensures id in IdsOf(longer) <==> id == IdOf(items[i]) || id in IdsOf(shorter) {
      if id in IdsOf(shorter) {
        var j :| 0 <= j < |shorter| && IdOf(shorter[j]) == id;
        assert longer[j + 1] == shorter[j];
      }
      if id in IdsOf(longer) {
        var j :| 0 <= j < |longer| && IdOf(longer[j]) == id;
        assert j > 0 ==> shorter[j - 1] == longer[j];
      }
      assert longer[0] == items[i];
    }
    assert forall j :: 0 <= j < |shorter| ==> shorter[j] == items[i + 1 + j];
  }

  lemma {:induction false} ReturnedNext(rows: Rows, items: seq<PendingWrite>, i: nat, held: set<int>)
    requires DistinctItems(items) && i < |items| && Returned(rows, items, i, held)
    requires forall j :: 0 <= j < |items| && items[j].Delete? ==> IdOf(items[j]) !in rows
    ensures var id := IdOf(items[i]);
            if items[i].Save? && id in rows then id !in held && held + {id} <= rows.Keys && Returned(rows, items, i + 1, held + {id})
            else Returned(rows, items, i + 1, held)
  {
    RestIds(items, i);
    hide IdsOf;
  }

  lemma {:induction false} ReturnedAll(rows: Rows, items: seq<PendingWrite>, held: set<int>)
    requires Returned(rows, items, |items|, held)
    ensures held == rows.Keys
  {
    assert items[|items|..] == [];
  }

  method CollectAdditions(rows: Rows, items: seq<PendingWrite>) returns (additions: seq<int>)
    requires DistinctItems(items) && forall i :: 0 <= i < |items| && items[i].Delete? ==> IdOf(items[i]) !in rows
    ensures Additions(rows, rows.Keys - IdsOf(items), additions) && rows.Keys - IdsOf(items) + Members(additions) == rows.Keys
  {
    hide *;
    additions := [];
    ghost var held := rows.Keys - IdsOf(items);
    var i := 0;
    NothingBack(rows, items);
    AddsNothing(held);
    while i < |items|
      invariant 0 <= i <= |items| && Returned(rows, items, i, held + Members(additions)) && Additions(rows, held, additions)
    {
      ReturnedNext(rows, items, i, held + Members(additions));
      if items[i].Save? && IdOf(items[i]) in rows {
        AddsOne(rows, held, additions, IdOf(items[i]));
        additions := additions + [IdOf(items[i])];
      }
      i := i + 1;
    }
    ReturnedAll(rows, items, held + Members(additions));
  }

  lemma {:induction false} AddedApart(rows: Rows, held: set<int>, ids: seq<int>)
    requires Additions(rows, held, ids)
    ensures held !! Members(ids)
  {
  }

  ghost predicate Additions(rows: Rows, held: set<int>, ids: seq<int>) {
    && NoRepeats(ids)
    && (forall i :: 0 <= i < |ids| ==> ids[i] in rows && ids[i] !in held)
  }

  lemma {:induction false} AddsNothing(held: set<int>)
    ensures held + Members([]) == held && forall rows :: Additions(rows, held, [])
  {
  }

  lemma {:induction false} AddsOne(rows: Rows, held: set<int>, ids: seq<int>, id: int)
    requires Additions(rows, held, ids) && id in rows && id !in held + Members(ids)
    ensures Additions(rows, held, ids + [id]) && held + Members(ids + [id]) == held + Members(ids) + {id}
  {
    var grown := ids + [id];
    forall k ensures k in Members(grown) <==> k in Members(ids) || k == id {
      if k in Members(ids) {
        var j :| 0 <= j < |ids| && ids[j] == k;
        assert grown[j] == k;
      }
      assert grown[|ids|] == id;
    }
    forall i | 0 <= i < |ids| ensures ids[i] != id {
      assert ids[i] in Members(ids);
    }
  }

  lemma {:induction false} NotYetAdded(rows: Rows, held: set<int>, ids: seq<int>, i: nat)
    requires Additions(rows, held, ids) && i < |ids| && held <= rows.Keys
    ensures ids[i] in rows && ids[i] !in held + Members(ids[..i]) && held + Members(ids[..i]) <= rows.Keys
    ensures held + Members(ids[..i]) + {ids[i]} <= rows.Keys
  {
  }

  // ---------------------------------------------------------------- sorting and merging

  function InsertId(rows: Rows, sorted: seq<int>, id: int): (out: seq<int>)
    requires id in rows && forall i :: 0 <= i < |sorted| ==> sorted[i] in rows
    ensures forall i :: 0 <= i < |out| ==> out[i] in rows
  {
    if sorted == [] || Before(rows, id, sorted[0]) then [id] + sorted else [sorted[0]] + InsertId(rows, sorted[1..], id)
  }

  /** The sort that stands for slices.SortFunc under the index order. */
  function SortIds(rows: Rows, ids: seq<int>): (out: seq<int>)
    requires forall i :: 0 <= i < |ids| ==> ids[i] in rows
    ensures forall i :: 0 <= i < |out| ==> out[i] in rows
  {
    if ids == [] then [] else InsertId(rows, SortIds(rows, ids[1..]), ids[0])
  }

  lemma {:induction false} InsertedOrdered(rows: Rows, ids: set<int>, sorted: seq<int>, id: int)
    requires Ordered(rows, ids, sorted) && id in rows && id !in ids
    ensures Ordered(rows, ids + {id}, InsertId(rows, sorted, id))
    decreases |sorted|
  {
    hide Before;
    if sorted == [] {
      if ids != {} {
        HasMember(ids);
      }
    } else if Before(rows, id, sorted[0]) {
      forall i | 0 < i < |sorted| ensures Before(rows, id, sorted[i]) {
        BeforeTransitive(rows, id, sorted[0], sorted[i]);
      }
      FrontInserted(rows, ids, sorted, id);
    } else {
      var first := sorted[0];
      assert first in sorted;
      BeforeTotal(rows, id, first);
      TailOrdered(rows, ids, sorted);
      InsertedOrdered(rows, ids - {first}, sorted[1..], id);
      var rest := InsertId(rows, sorted[1..], id);
      forall i | 0 <= i < |rest| ensures Before(rows, first, rest[i]) {
        assert rest[i] in rest;
        if rest[i] != id {
          assert rest[i] in sorted[1..];
          var j :| 0 <= j < |sorted[1..]| && sorted[1..][j] == rest[i];
          assert Before(rows, sorted[0], sorted[j + 1]);
        }
      }
      FrontInserted(rows, ids - {first} + {id}, rest, first);
      assert ids - {first} + {id} + {first} == ids + {id};
    }
  }

  lemma {:induction false} FrontInserted(rows: Rows, ids: set<int>, sorted: seq<int>, id: int)
    requires Ordered(rows, ids, sorted) && id in rows && id !in ids
    requires forall i :: 0 <= i < |sorted| ==> Before(rows, id, sorted[i])
    ensures Ordered(rows, ids + {id}, [id] + sorted)
  {
    hide Before;
    var grown := [id] + sorted;
    forall i, j | 0 <= i < j < |grown| ensures grown[i] in rows && grown[j] in rows && Before(rows, grown[i], grown[j]) {
    }
  }

  lemma {:induction false} SortedIds(rows: Rows, ids: seq<int>, held: set<int>)
    requires Additions(rows, held, ids)
    ensures (forall i :: 0 <= i < |ids| ==> ids[i] in rows) && Ordered(rows, Members(ids), SortIds(rows, ids))
  {
    if ids == [] {
    } else {
      var rest := ids[1..];
      SortedIds(rows, rest, held);
      forall k ensures k in Members(ids) <==> k in Members(rest) || k == ids[0] {
        if k in Members(rest) {
          var j :| 0 <= j < |rest| && rest[j] == k;
          assert ids[j + 1] == k;
        }
        if k in Members(ids) {
          var j :| 0 <= j < |ids| && ids[j] == k;
          assert j > 0 ==> rest[j - 1] == k;
        }
      }
      assert ids[0] !in Members(rest);
      InsertedOrdered(rows, Members(rest), SortIds(rows, rest), ids[0]);
      assert Members(ids) == Members(rest) + {ids[0]};
    }
  }

  /** What has been merged: the first `i` and `j` of the two lists, all before what is left of either. */
  ghost predicate Merging(rows: Rows, a: seq<int>, i: int, b: seq<int>, j: int, merged: seq<int>) {
    && 0 <= i <= |a| && 0 <= j <= |b| && AllIn(rows, a) && AllIn(rows, b)
    && Ordered(rows, Members(a[..i]) + Members(b[..j]), merged)
    && (forall m, k :: 0 <= m < |merged| && i <= k < |a| ==> Before(rows, merged[m], a[k]))
    && (forall m, k :: 0 <= m < |merged| && j <= k < |b| ==> Before(rows, merged[m], b[k]))
  }

  lemma {:induction false} MergeTake(rows: Rows, a: seq<int>, i: nat, b: seq<int>, j: int, merged: seq<int>)
    requires Merging(rows, a, i, b, j, merged) && i < |a|
    requires Sorted(rows, a) && forall k :: j <= k < |b| ==> Before(rows, a[i], b[k])
    ensures Merging(rows, a, i + 1, b, j, merged + [a[i]])
  {
    hide Before;
    var ids, taken, grown := Members(a[..i]) + Members(b[..j]), a[i], merged + [a[i]];
    MembersGrow(a, i);
    if taken in merged {
      var m :| 0 <= m < |merged| && merged[m] == taken;
      assert Before(rows, merged[m], a[i]);
      BeforeTotal(rows, taken, taken);
    }
    assert Members(a[..i + 1]) + Members(b[..j]) == ids + {taken};
    forall x, y | 0 <= x < y < |grown| ensures grown[x] in rows && grown[y] in rows && Before(rows, grown[x], grown[y]) {
    }
    forall id ensures id in grown <==> id in ids + {taken} {
    }
    assert Ordered(rows, ids + {taken}, grown);
  }

  lemma {:induction false} MembersGrow(a: seq<int>, i: nat)
    requires i < |a|
    ensures Members(a[..i + 1]) == Members(a[..i]) + {a[i]}
  {
    assert a[..i + 1] == a[..i] + [a[i]];
    forall k ensures k in Members(a[..i + 1]) <==> k in Members(a[..i]) || k == a[i] {
      if k in Members(a[..i]) {
        var j :| 0 <= j < i && a[..i][j] == k;
        assert a[..i + 1][j] == k;
      }
      assert a[..i + 1][i] == a[i];
    }
  }

  lemma {:induction false} MergeSwap(rows: Rows, a: seq<int>, i: int, b: seq<int>, j: int, merged: seq<int>)
    requires Merging(rows, a, i, b, j, merged)
    ensures Merging(rows, b, j, a, i, merged)
  {
    hide Before;
    assert Members(a[..i]) + Members(b[..j]) == Members(b[..j]) + Members(a[..i]);
  }

  /** Take from whichever list comes first, the old entries on a tie. */
  method MergeEntries(rows: Rows, entries: seq<int>, additions: seq<int>, ghost held: set<int>, ghost more: set<int>) returns (merged: seq<int>)
    requires Ordered(rows, held, entries) && Ordered(rows, more, additions) && held !! more
    ensures Ordered(rows, held + more, merged)
  {
    hide Before, Members;
    EntriesMembers(rows, held, entries);
    EntriesMembers(rows, more, additions);
    if additions == [] {
      assert held + more == held;
      return entries;
    }
    if entries == [] {
      assert held + more == more;
      return additions;
    }
    merged := [];
    var i, j := 0, 0;
    NothingMerged(rows, entries, additions);
    while i < |entries| && j < |additions|
      invariant Merging(rows, entries, i, additions, j, merged)
    {
      TieBroken(rows, held, entries, i, more, additions, j);
      if !Before(rows, additions[j], entries[i]) {
        AllAfter(rows, entries[i], additions, j);
        MergeTake(rows, entries, i, additions, j, merged);
        merged := merged + [entries[i]];
        i := i + 1;
      } else {
        AllAfter(rows, additions[j], entries, i);
        MergeSwap(rows, entries, i, additions, j, merged);
        MergeTake(rows, additions, j, entries, i, merged);
        merged := merged + [additions[j]];
        j := j + 1;
        MergeSwap(rows, additions, j, entries, i, merged);
      }
    }
    merged := AppendRest(rows, entries, i, additions, j, merged);
    MergeSwap(rows, entries, |entries|, additions, j, merged);
    merged := AppendRest(rows, additions, j, entries, |entries|, merged);
    assert entries[..|entries|] == entries && additions[..|additions|] == additions;
    assert held + more == more + held;
  }

  lemma {:induction false} EntriesMembers(rows: Rows, ids: set<int>, entries: seq<int>)
    requires Ordered(rows, ids, entries)
    ensures Members(entries) == ids && (entries == [] ==> ids == {})
  {
    forall k ensures k in Members(entries) <==> k in ids {
      if k in ids {
        assert k in entries;
        var j :| 0 <= j < |entries| && entries[j] == k;
      }
      if k in Members(entries) {
        assert k in entries;
      }
    }
  }

  lemma {:induction false} NothingMerged(rows: Rows, a: seq<int>, b: seq<int>)
    requires AllIn(rows, a) && AllIn(rows, b)
    ensures Merging(rows, a, 0, b, 0, [])
  {
    assert Members(a[..0]) + Members(b[..0]) == {};
  }

  lemma {:induction false} TieBroken(rows: Rows, held: set<int>, a: seq<int>, i: nat, more: set<int>, b: seq<int>, j: nat)
    requires Ordered(rows, held, a) && Ordered(rows, more, b) && held !! more && i < |a| && j < |b|
    ensures Before(rows, a[i], b[j]) || Before(rows, b[j], a[i])
  {
    assert a[i] in a && b[j] in b;
    BeforeTotal(rows, a[i], b[j]);
  }

  lemma {:induction false} AllAfter(rows: Rows, x: int, b: seq<int>, j: nat)
    requires x in rows && AllIn(rows, b) && Sorted(rows, b) && j < |b| && Before(rows, x, b[j])
    ensures forall k :: j <= k < |b| ==> Before(rows, x, b[k])
  {
    hide Before;
    forall k | j < k < |b| ensures Before(rows, x, b[k]) {
      BeforeTransitive(rows, x, b[j], b[k]);
    }
  }

  method AppendRest(rows: Rows, a: seq<int>, from: nat, b: seq<int>, j: nat, merged0: seq<int>) returns (merged: seq<int>)
    requires Merging(rows, a, from, b, j, merged0) && Sorted(rows, a) && (from < |a| ==> j == |b|)
    ensures Merging(rows, a, |a|, b, j, merged)
  {
    hide Before, Members;
    merged := merged0;
    var i := from;
    while i < |a|
      invariant from <= i <= |a| && Merging(rows, a, i, b, j, merged)
    {
      MergeTake(rows, a, i, b, j, merged);
      merged := merged + [a[i]];
      i := i + 1;
    }
  }

  // ---------------------------------------------------------------- rebuilding

  ghost predicate NoRepeats(ids: seq<int>) {
    forall i, j :: 0 <= i < j < |ids| ==> ids[i] != ids[j]
  }

  method ListIds(ids: set<int>) returns (listed: seq<int>)
    ensures NoRepeats(listed) && Members(listed) == ids
  {
    hide *;
    listed := [];
    var rest := ids;
    NothingListed(ids);
    while rest != {}
      invariant rest <= ids && Members(listed) == ids - rest && NoRepeats(listed)
      decreases |rest|
    {
      HasMember(rest);
      var id :| id in rest;
      ListsOne(listed, id);
      assert ids - (rest - {id}) == ids - rest + {id};
      listed := listed + [id];
      rest := rest - {id};
    }
    assert ids - rest == ids;
  }

  lemma {:induction false} NothingListed(ids: set<int>)
    ensures NoRepeats([]) && Members([]) == ids - ids
  {
  }

  lemma {:induction false} ListsOne(listed: seq<int>, id: int)
    requires NoRepeats(listed) && id !in Members(listed)
    ensures NoRepeats(listed + [id]) && Members(listed + [id]) == Members(listed) + {id}
  {
  }

  lemma {:induction false} AddsAll(rows: Rows, listed: seq<int>)
    requires NoRepeats(listed) && Members(listed) == rows.Keys
    ensures Additions(rows, {}, listed)
  {
    forall i | 0 <= i < |listed| ensures listed[i] in rows {
      assert listed[i] in Members(listed);
    }
  }

  lemma {:induction false} NothingKeyed(rows: Rows)
    ensures Keyed(rows, Members([]), map[]) && UniqueAmong(rows, Members([]))
  {
  }

  lemma {:induction false} EntryFresh(rows: Rows, ids: set<int>, entries: seq<int>, i: nat)
    requires Ordered(rows, ids, entries) && i < |entries|
    ensures entries[i] in rows && entries[i] !in Members(entries[..i]) && Members(entries[..i]) <= rows.Keys
  {
    hide Before;
    if entries[i] in Members(entries[..i]) {
      var j :| 0 <= j < i && entries[..i][j] == entries[i];
      assert Before(rows, entries[j], entries[i]);
      BeforeTotal(rows, entries[i], entries[i]);
    }
  }

  /** A key that is taken by another row is a collision; otherwise the row joins the unique ones. */
  lemma {:induction false} KeyClash(rows: Rows, ids: set<int>, keys: map<Data, int>, id: int)
    requires Typed(rows) && Keyed(rows, ids, keys) && UniqueAmong(rows, ids) && ids <= rows.Keys && id in rows && id !in ids
    requires Encodable(rows[id])
    ensures if UniqueKey(rows[id]) in keys && keys[UniqueKey(rows[id])] != id then !UniqueAmong(rows, rows.Keys)
            else UniqueAmong(rows, ids + {id})
  {
    var key := UniqueKey(rows[id]);
    assert KeyOf(rows, id) == Some(key);
    if key in keys {
      assert KeyOf(rows, keys[key]) == Some(key);
      SameKeySame(rows, keys[key], id);
    } else {
      forall other | other in ids ensures rows[other] != rows[id] {
        SameKeySame(rows, other, id);
      }
    }
    hide UniqueKey, KeyOf, Typed;
  }

  // ---------------------------------------------------------------- one result whatever the path

  /** Whether rows came in one at a time, in a batch, or by a rebuild: the same rows give the same index. */
  lemma {:induction false} SamePathsSameIndex(a: SecondaryIndex, b: SecondaryIndex)
    requires a.Valid() && b.Valid() && a.rows == b.rows && a.unique == b.unique
    ensures a.entries == b.entries && (a.unique ==> a.keys == b.keys)
  {
    OrderedUnique(a.rows, a.rows.Keys, a.entries, b.entries);
    if a.unique {
      KeyedUnique(a.rows, a.rows.Keys, a.keys, b.keys);
    }
  }
}
