/** Applying replayed rows to a loaded store: one pass that puts deletions off to the end. */
module Recovery {
  import opened LogReplay

  /** The rows by id after each recovered row in turn. */
  function Applied<V>(rows: map<int, V>, log: seq<Recovered<V>>): map<int, V> {
    if log == [] then rows
    else
      var before := Applied(rows, log[..|log| - 1]);
      match log[|log| - 1]
      case Written(id, v) => before[id := v]
      case Removed(id) => before - {id}
  }

  lemma {:induction false} AppliedStep<V>(rows: map<int, V>, log: seq<Recovered<V>>, i: nat)
    requires i < |log|
    ensures Applied(rows, log[..i + 1]) == match log[i]
                                           case Written(id, v) => Applied(rows, log[..i])[id := v]
                                           case Removed(id) => Applied(rows, log[..i]) - {id}
  {
    assert log[..i + 1][..i] == log[..i];
  }

  /** A live row: its address is what pointers hold, its contents are overwritten. */
  class Slot<V> {
    var item: V

    constructor (item: V)
      ensures this.item == item
    {
      this.item := item;
    }
  }

  /** The slots in the order they were appended, with a tombstone for each. */
  class RowStore<V> {
    const idOf: V -> int
    var slots: seq<Slot<V>>
    var tomb: seq<bool>
    ghost var contents: map<int, V>    // the live rows by id
    ghost var places: map<int, nat>    // and where each one stands

    ghost predicate Valid()
      reads this, slots
    {
      && |tomb| == |slots| && (forall i, j :: 0 <= i < j < |slots| ==> slots[i] != slots[j])
      && places.Keys == contents.Keys
      && (forall i :: 0 <= i < |slots| && !tomb[i] ==> idOf(slots[i].item) in places && places[idOf(slots[i].item)] == i)
      && (forall id :: id in places ==>
            && places[id] < |slots| && !tomb[places[id]]
            && contents[id] == slots[places[id]].item && idOf(contents[id]) == id)
    }

    constructor (idOf: V -> int)
      ensures Valid() && contents == map[] && slots == [] && this.idOf == idOf
    {
      this.idOf, slots, tomb, contents, places := idOf, [], [], map[], map[];
    }

    /** Every live slot under its row's id. */
    method RangeResources() returns (byID: map<int, Slot<V>>)
      requires Valid()
      ensures byID.Keys == contents.Keys && forall id :: id in byID ==> places[id] < |slots| && byID[id] == slots[places[id]]
    {
      byID := map[];
      var o := 0;
      while o < |slots|
        invariant 0 <= o <= |slots|
        invariant forall id :: id in byID <==> id in places && places[id] < o
        invariant forall id :: id in byID ==> byID[id] == slots[places[id]]
      {
        if !tomb[o] {
          byID := byID[idOf(slots[o].item) := slots[o]];
        }
        o := o + 1;
      }
      assert forall id :: id in byID <==> id in places;
    }

    /** A new slot behind the others. */
    method Append(value: V) returns (slot: Slot<V>)
      requires Valid() && idOf(value) !in contents
      modifies this
      ensures Valid() && fresh(slot) && slots == old(slots) + [slot] && slot.item == value
      ensures contents == old(contents)[idOf(value) := value] && places == old(places)[idOf(value) := |old(slots)|]
    {
      slot := new Slot(value);
      places := places[idOf(value) := |slots|];
      contents := contents[idOf(value) := value];
      slots, tomb := slots + [slot], tomb + [false];
    }

    /** Write a row over the one its slot holds. */
    method Overwrite(slot: Slot<V>, value: V)
      requires Valid() && idOf(value) in places && places[idOf(value)] < |slots| && slots[places[idOf(value)]] == slot
      modifies this`contents, slot
      ensures Valid() && contents == old(contents)[idOf(value) := value] && slot.item == value
    {
      ghost var place := places[idOf(value)];
      assert forall i :: 0 <= i < |slots| && i != place ==> slots[i] != slot;
      assert forall id :: id in places && id != idOf(value) ==> places[id] != place;
      slot.item := value;
      contents := contents[idOf(value) := value];
    }

    lemma {:induction false} LiveAt(o: nat)
      requires Valid() && o < |slots| && !tomb[o]
      ensures var id := idOf(slots[o].item);
              id in places && places[id] == o && id in contents && contents[id] == slots[o].item
    {
      var id := idOf(slots[o].item);
      var place := places[id];
      assert place == o;
      assert contents[id] == slots[place].item;
    }

    /** Put a tombstone on one live slot. */
    method Bury(o: nat) returns (item: V)
      requires Valid() && o < |slots| && !tomb[o]
      modifies this`tomb, this`contents, this`places
      ensures Valid() && tomb == old(tomb)[o := true]
      ensures item == slots[o].item && idOf(item) in old(places) && old(places)[idOf(item)] == o
      ensures idOf(item) in old(contents) && old(contents)[idOf(item)] == item
      ensures contents == old(contents) - {idOf(item)} && places == old(places) - {idOf(item)}
    {
      item := slots[o].item;
      LiveAt(o);
      tomb, contents, places := tomb[o := true], contents - {idOf(item)}, places - {idOf(item)};
    }

    ghost predicate Handed(removed: seq<V>, id: int) {
      exists i :: 0 <= i < |removed| && idOf(removed[i]) == id
    }

    /** The first `o` slots have been swept: `gone` are the listed ids found there, `removed` their rows. */
    ghost predicate Swept(ids: set<int>, contents0: map<int, V>, places0: map<int, nat>, o: int, gone: set<int>, removed: seq<V>)
      reads this
    {
      && contents == contents0 - gone && places == places0 - gone
      && (forall id :: id in gone <==> id in ids && id in places0 && places0[id] < o)
      && (forall id :: id in gone <==> Handed(removed, id))
      && (forall i :: 0 <= i < |removed| ==> idOf(removed[i]) in contents0 && removed[i] == contents0[idOf(removed[i])])
    }

    lemma {:induction false} SweepSkips(ids: set<int>, contents0: map<int, V>, places0: map<int, nat>, o: nat, gone: set<int>, removed: seq<V>)
      requires Valid() && Swept(ids, contents0, places0, o, gone, removed) && o < |slots| && (tomb[o] || idOf(slots[o].item) !in ids)
      ensures Swept(ids, contents0, places0, o + 1, gone, removed)
    {
      forall id ensures id in places && places[id] == o ==> id !in ids {
        if id in places && places[id] == o {
          assert contents[id] == slots[o].item;
        }
      }
      forall id ensures id in gone <==> id in ids && id in places0 && places0[id] < o + 1 {
        assert id in places0 && id !in gone ==> id in places && places[id] == places0[id];
      }
    }

    /** Sweep all slots, bury every live row whose id is listed, and hand those rows back. No slot moves. */
    method DeleteListed(ids: set<int>) returns (removed: seq<V>)
      requires Valid()
      modifies this`tomb, this`contents, this`places
      ensures Valid() && contents == old(contents) - ids && places == old(places) - ids
      ensures forall id :: id in old(contents) && id in ids <==> Handed(removed, id)
      ensures forall i :: 0 <= i < |removed| ==> idOf(removed[i]) in old(contents) && removed[i] == old(contents)[idOf(removed[i])]
    {
      removed := [];
      ghost var contents0, places0, gone: set<int> := contents, places, {};
      var o := 0;
      while o < |slots|
        invariant 0 <= o <= |slots| && Valid() && Swept(ids, contents0, places0, o, gone, removed)
      {
        if !tomb[o] && idOf(slots[o].item) in ids {
          var item := Bury(o);
          Found(removed, item);
          removed, gone := removed + [item], gone + {idOf(item)};
        } else {
          SweepSkips(ids, contents0, places0, o, gone, removed);
        }
        o := o + 1;
      }
      SweepEnds(ids, contents0, places0, gone, removed);
    }

    lemma {:induction false} Found(removed: seq<V>, item: V)
      ensures forall id :: Handed(removed + [item], id) <==> Handed(removed, id) || id == idOf(item)
    {
      var longer := removed + [item];
      assert longer[|removed|] == item;
      forall id ensures Handed(longer, id) <==> Handed(removed, id) || id == idOf(item) {
        if i :| 0 <= i < |removed| && idOf(removed[i]) == id {
          assert idOf(longer[i]) == id;
        }
      }
    }

    lemma {:induction false} SweepEnds(ids: set<int>, contents0: map<int, V>, places0: map<int, nat>, gone: set<int>, removed: seq<V>)
      requires Valid() && Swept(ids, contents0, places0, |slots|, gone, removed) && contents0.Keys == places0.Keys
      requires forall id :: id in places0 ==> places0[id] < |slots|
      ensures contents == contents0 - ids && places == places0 - ids
      ensures forall id :: id in contents0 && id in ids <==> id in gone
    {
      assert forall id :: id in contents0 ==> (id in gone <==> id in ids);
    }
  }

  ghost predicate IdsMatch<V>(log: seq<Recovered<V>>, idOf: V -> int) {
    forall i :: 0 <= i < |log| && log[i].Written? ==> idOf(log[i].value) == log[i].id
  }

  /** Pending deletions removed, the store holds what applying the log so far gives. */
  ghost predicate Deferred<V>(rows: map<int, V>, log: seq<Recovered<V>>, contents: map<int, V>, deleted: set<int>) {
    contents - deleted == Applied(rows, log)
  }

  lemma {:induction false} DeferWrite<V>(rows: map<int, V>, log: seq<Recovered<V>>, i: nat, contents: map<int, V>, deleted: set<int>)
    requires i < |log| && Deferred(rows, log[..i], contents, deleted)
    ensures log[i].Written? ==> Deferred(rows, log[..i + 1], contents[log[i].id := log[i].value], deleted - {log[i].id})
    ensures log[i].Removed? ==> Deferred(rows, log[..i + 1], contents, deleted + {log[i].id})
  {
    AppliedStep(rows, log, i);
    hide Applied;
    var before := Applied(rows, log[..i]);
    match log[i]
    case Written(id, v) => assert contents[id := v] - (deleted - {id}) == before[id := v];
    case Removed(id) => assert contents - (deleted + {id}) == before - {id};
  }

  /** The slots found first and the ones appended since, by id. */
  ghost predicate Located<V>(store: RowStore<V>, byID: map<int, Slot<V>>)
    reads store
  {
    byID.Keys == store.places.Keys && forall id :: id in byID ==> store.places[id] < |store.slots| && byID[id] == store.slots[store.places[id]]
  }

  /** The single pass with a tombstone set equals applying every write and delete in order, row by row in place. */
  method ApplyRecoveredRows<V>(store: RowStore<V>, log: seq<Recovered<V>>) returns (ok: bool)
    requires store.Valid()
    modifies store, store.slots
    ensures ok <==> IdsMatch(log, store.idOf)
    ensures ok ==> store.Valid() && store.contents == Applied(old(store.contents), log)
    ensures ok ==> forall id :: id in store.contents && id in old(store.contents) ==>
                     store.places[id] == old(store.places)[id] && store.slots[store.places[id]] == old(store.slots)[store.places[id]]
  {
    hide Applied, Deferred;
    ghost var rows, slots0, places0 := store.contents, store.slots, store.places;
    var byID := store.RangeResources();
    var deleted: set<int> := {};
    NothingDeferred(rows, log);
    var i := 0;
    while i < |log|
      invariant 0 <= i <= |log| && store.Valid() && Deferred(rows, log[..i], store.contents, deleted)
      invariant slots0 <= store.slots && fresh(set slot | slot in store.slots[|slots0|..])
      invariant Located(store, byID)
      invariant forall j :: 0 <= j < i && log[j].Written? ==> store.idOf(log[j].value) == log[j].id
      invariant forall id :: id in places0 ==> id in store.places && store.places[id] == places0[id]
    {
      DeferWrite(rows, log, i, store.contents, deleted);
      match log[i] {
        case Removed(id) =>
          deleted := deleted + {id};
        case Written(id, v) =>
          if store.idOf(v) != id {
            return false;
          }
          deleted := deleted - {id};
          if id in byID {
            store.Overwrite(byID[id], v);
          } else {
            var slot := store.Append(v);
            byID := byID[id := slot];
          }
      }
      i := i + 1;
    }
    assert log[..i] == log;
    if deleted != {} {
      var _ := store.DeleteListed(deleted);
    } else {
      assert store.contents - deleted == store.contents;
    }
    DeferredIs(rows, log, store.contents, deleted);
    ok := true;
  }

  lemma {:induction false} NothingDeferred<V>(rows: map<int, V>, log: seq<Recovered<V>>)
    ensures Deferred(rows, log[..0], rows, {})
  {
    assert rows - {} == rows;
  }

  lemma {:induction false} DeferredIs<V>(rows: map<int, V>, log: seq<Recovered<V>>, left: map<int, V>, deleted: set<int>)
    ensures forall contents :: Deferred(rows, log, contents, deleted) && left == contents - deleted ==> left == Applied(rows, log)
  {
  }

  // ---------------------------------------------------------------- replaying over what is already there

  function About<V>(r: Recovered<V>): int {
    match r case Written(id, _) => id case Removed(id) => id
  }

  /** The last entry about an id decides: written, the row is there with that value; removed, it is not. Without one it is as it was. */
  lemma {:induction false} AppliedMeans<V>(rows: map<int, V>, log: seq<Recovered<V>>, id: int, i: int)
    requires -1 <= i < |log| && (forall j :: i < j < |log| ==> About(log[j]) != id) && (i >= 0 ==> About(log[i]) == id)
    ensures i >= 0 && log[i].Written? ==> id in Applied(rows, log) && Applied(rows, log)[id] == log[i].value
    ensures i >= 0 && log[i].Removed? ==> id !in Applied(rows, log)
    ensures i < 0 ==> (id in Applied(rows, log) <==> id in rows) && (id in rows ==> Applied(rows, log)[id] == rows[id])
  {
    if log != [] && i < |log| - 1 {
      var n := |log| - 1;
      assert forall j :: 0 <= j < n ==> log[..n][j] == log[j];
      AppliedMeans(rows, log[..n], id, i);
      assert About(log[n]) != id;
    }
  }

  /** A row is what the last log entry about it says, or what it was. */
  lemma {:induction false} LastEntryDecides<V>(a: map<int, V>, b: map<int, V>, log: seq<Recovered<V>>, id: int)
    requires (exists i :: 0 <= i < |log| && About(log[i]) == id) || ((id in a <==> id in b) && (id in a ==> a[id] == b[id]))
    ensures var x, y := Applied(a, log), Applied(b, log); (id in x <==> id in y) && (id in x ==> x[id] == y[id])
  {
    if log != [] {
      var last := |log| - 1;
      if About(log[last]) != id {
        if i :| 0 <= i < |log| && About(log[i]) == id {
          assert About(log[..last][i]) == id;
        }
        LastEntryDecides(a, b, log[..last], id);
      }
    }
  }

  lemma {:induction false} Unmentioned<V>(rows: map<int, V>, log: seq<Recovered<V>>, id: int)
    requires forall i :: 0 <= i < |log| ==> About(log[i]) != id
    ensures var after := Applied(rows, log); (id in after <==> id in rows) && (id in rows ==> after[id] == rows[id])
  {
    if log != [] {
      Unmentioned(rows, log[..|log| - 1], id);
    }
  }

  /** Replaying the whole log over a snapshot that already absorbed any part of its head changes nothing. */
  lemma {:induction false} ReplayIsIdempotent<V>(rows: map<int, V>, log: seq<Recovered<V>>, k: nat)
    requires k <= |log|
    ensures Applied(Applied(rows, log[..k]), log) == Applied(rows, log)
  {
    hide Applied;
    var snapshot := Applied(rows, log[..k]);
    forall id ensures (id in Applied(snapshot, log) <==> id in Applied(rows, log))
                      && (id in Applied(rows, log) ==> Applied(snapshot, log)[id] == Applied(rows, log)[id])
    {
      if forall i :: 0 <= i < |log| ==> About(log[i]) != id {
        Unmentioned(rows, log[..k], id);
      }
      LastEntryDecides(snapshot, rows, log, id);
    }
  }
}
