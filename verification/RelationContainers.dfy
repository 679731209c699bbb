/** The small containers behind the relation index: each is a list that grows a lookup once it is long. */
module RelationContainers {
  import opened RelationSchema
  import opened Wrappers
  import opened Ordering

  datatype IncomingCount = IncomingCount(field: FieldKey, count: int)

  const INCOMING_LOOKUP_THRESHOLD := 8

  /** A node's incoming counts as the index stores them. */
  datatype Bucket = Bucket(entries: seq<IncomingCount>, lookup: Option<map<FieldKey, nat>>)

  const EMPTY_BUCKET := Bucket([], None)

  ghost predicate BucketValid(bucket: Bucket, bag: multiset<FieldKey>) {
    && EntriesMatch(bucket.entries, bag)
    && (bucket.lookup.Some? ==> Positions(bucket.entries, bucket.lookup.value))
    && (bucket.lookup.None? ==> |bucket.entries| <= INCOMING_LOOKUP_THRESHOLD)
  }

  lemma {:induction false} EmptyBucketValid()
    ensures BucketValid(EMPTY_BUCKET, multiset{})
  {
  }

  /** The working copy of a bucket: the relation fields pointing at one node, each with its multiplicity. */
  class IncomingCounts {
    var entries: seq<IncomingCount>
    var lookup: Option<map<FieldKey, nat>>
    ghost var bag: multiset<FieldKey>

    ghost predicate Valid()
      reads this
    {
      BucketValid(Bucket(entries, lookup), bag)
    }

    constructor (bucket: Bucket, ghost bag: multiset<FieldKey>)
      requires BucketValid(bucket, bag)
      ensures Valid() && this.bag == bag
    {
      entries, lookup, this.bag := bucket.entries, bucket.lookup, bag;
    }

    /** Where `field` stands in `entries`, or -1. */
    method Position(field: FieldKey) returns (position: int)
      requires Valid()
      ensures -1 <= position < |entries|
      ensures position >= 0 ==> entries[position].field == field && entries[position].count > 0
      ensures position < 0 ==> field !in bag
    {
      if lookup.Some? {
        return if field in lookup.value then lookup.value[field] else -1;
      }
      position := 0;
      while position < |entries|
        invariant 0 <= position <= |entries|
        invariant forall i :: 0 <= i < position ==> entries[i].field != field
      {
        if entries[position].field == field {
          return;
        }
        position := position + 1;
      }
      position := -1;
    }

    method Increment(field: FieldKey)
      requires Valid()
      modifies this
      ensures Valid() && bag == old(bag) + multiset{field}
    {
      hide EntriesMatch, Positions;
      var position := Position(field);
      if position >= 0 {
        SameFieldsSamePositions(entries, position, entries[position].count + 1);
        IncrementEntry(entries, bag, position);
        entries := entries[position := entries[position].(count := entries[position].count + 1)];
        bag := bag + multiset{field};
        return;
      }
      AppendEntry(entries, bag, field);
      entries := entries + [IncomingCount(field, 1)];
      assert entries[..|entries| - 1] == old(entries);
      bag := bag + multiset{field};
      EntriesDistinct(entries, bag);
      if lookup.Some? {
        PositionsAppend(entries, lookup.value);
        lookup := Some(lookup.value[field := |entries| - 1]);
      } else if |entries| > INCOMING_LOOKUP_THRESHOLD {
        PositionsBuilt(entries);
        lookup := Some(PositionsOf(entries));
      }
    }

    /** The last entry fills the slot of an exhausted one, so the list never has holes. */
    method Decrement(field: FieldKey)
      requires Valid()
      modifies this
      ensures Valid() && bag == old(bag) - multiset{field}
    {
      hide EntriesMatch, Positions;
      var position := Position(field);
      if position < 0 {
        return;
      }
      var last := |entries| - 1;
      var left := entries[position].count - 1;
      DecrementEntry(entries, bag, position);
      EntriesDistinct(entries, bag);
      bag := bag - multiset{field};
      if left > 0 {
        SameFieldsSamePositions(entries, position, left);
        entries := entries[position := entries[position].(count := left)];
        return;
      }
      if lookup.Some? {
        PositionsSwapDelete(entries, lookup.value, position);
      }
      var moved := entries[last];
      entries := entries[position := moved][..last];
      if lookup.Some? {
        lookup := Some(lookup.value - {field});
        if position != last {
          lookup := Some(lookup.value[moved.field := position]);
        }
      }
    }
  }

  /** Each field once, with its exact positive multiplicity. */
  ghost predicate EntriesMatch(entries: seq<IncomingCount>, bag: multiset<FieldKey>) {
    && (forall i :: 0 <= i < |entries| ==> entries[i].count > 0 && bag[entries[i].field] == entries[i].count)
    && (forall i, j :: 0 <= i < j < |entries| ==> entries[i].field != entries[j].field)
    && (forall f :: f in bag ==> Holds(entries, f))
  }

  ghost predicate Positions(entries: seq<IncomingCount>, lookup: map<FieldKey, nat>) {
    && (forall f :: f in lookup ==> lookup[f] < |entries| && entries[lookup[f]].field == f)
    && (forall i :: 0 <= i < |entries| ==> entries[i].field in lookup && lookup[entries[i].field] == i)
  }

  ghost predicate Holds(entries: seq<IncomingCount>, f: FieldKey) {
    exists i :: 0 <= i < |entries| && entries[i].field == f
  }

  lemma {:induction false} EntriesDistinct(entries: seq<IncomingCount>, bag: multiset<FieldKey>)
    requires EntriesMatch(entries, bag)
    ensures forall i, j :: 0 <= i < j < |entries| ==> entries[i].field != entries[j].field
    ensures forall i :: 0 <= i < |entries| ==> entries[i].count > 0
  {
  }

  lemma {:induction false} SameFieldsSamePositions(entries: seq<IncomingCount>, position: nat, count: int)
    requires position < |entries|
    ensures forall lookup :: Positions(entries, lookup) ==> Positions(entries[position := entries[position].(count := count)], lookup)
  {
  }

  lemma {:induction false} PositionsAppend(entries: seq<IncomingCount>, lookup: map<FieldKey, nat>)
    requires entries != [] && Positions(entries[..|entries| - 1], lookup)
    requires forall i, j :: 0 <= i < j < |entries| ==> entries[i].field != entries[j].field
    ensures Positions(entries, lookup[entries[|entries| - 1].field := |entries| - 1])
  {
    var before := entries[..|entries| - 1];
    forall i | 0 <= i < |before| ensures entries[i].field in lookup && lookup[entries[i].field] == i {
      assert before[i] == entries[i];
    }
  }

  function PositionsOf(entries: seq<IncomingCount>): map<FieldKey, nat>
    requires forall i, j :: 0 <= i < j < |entries| ==> entries[i].field != entries[j].field
  {
    map i | 0 <= i < |entries| :: entries[i].field := i
  }

  lemma {:induction false} PositionsBuilt(entries: seq<IncomingCount>)
    requires forall i, j :: 0 <= i < j < |entries| ==> entries[i].field != entries[j].field
    ensures Positions(entries, PositionsOf(entries))
  {
  }

  lemma {:induction false} PositionsSwapDelete(entries: seq<IncomingCount>, lookup: map<FieldKey, nat>, position: nat)
    requires position < |entries| && Positions(entries, lookup)
    requires forall i, j :: 0 <= i < j < |entries| ==> entries[i].field != entries[j].field
    ensures var last := |entries| - 1;
            var kept := lookup - {entries[position].field};
            Positions(entries[position := entries[last]][..last],
                      if position != last then kept[entries[last].field := position] else kept)
  {
  }

  lemma {:induction false} IncrementEntry(entries: seq<IncomingCount>, bag: multiset<FieldKey>, position: nat)
    requires EntriesMatch(entries, bag) && position < |entries|
    ensures EntriesMatch(entries[position := entries[position].(count := entries[position].count + 1)],
                         bag + multiset{entries[position].field})
  {
    var after := entries[position := entries[position].(count := entries[position].count + 1)];
    SameHolds(entries, position, entries[position].count + 1);
  }

  lemma {:induction false} SameHolds(entries: seq<IncomingCount>, position: nat, count: int)
    requires position < |entries|
    ensures forall f :: Holds(entries, f) ==> Holds(entries[position := entries[position].(count := count)], f)
  {
    var after := entries[position := entries[position].(count := count)];
    forall f | Holds(entries, f) ensures Holds(after, f) {
      var i :| 0 <= i < |entries| && entries[i].field == f;
      assert after[i].field == f;
    }
  }

  lemma {:induction false} AppendEntry(entries: seq<IncomingCount>, bag: multiset<FieldKey>, field: FieldKey)
    requires EntriesMatch(entries, bag) && field !in bag
    ensures EntriesMatch(entries + [IncomingCount(field, 1)], bag + multiset{field})
  {
    var after := entries + [IncomingCount(field, 1)];
    forall f | f in bag + multiset{field} ensures Holds(after, f) {
      if f == field {
        assert after[|entries|].field == f;
      } else {
        assert Holds(entries, f);
        var i :| 0 <= i < |entries| && entries[i].field == f;
        assert after[i].field == f;
      }
    }
  }

  lemma {:induction false} DecrementEntry(entries: seq<IncomingCount>, bag: multiset<FieldKey>, position: nat)
    requires EntriesMatch(entries, bag) && position < |entries|
    ensures var left, last := entries[position].count - 1, |entries| - 1;
            EntriesMatch(if left > 0 then entries[position := entries[position].(count := left)]
                         else entries[position := entries[last]][..last],
                         bag - multiset{entries[position].field})
  {
    if entries[position].count > 1 {
      SameHolds(entries, position, entries[position].count - 1);
    } else {
      SwapDeleteEntry(entries, bag, position);
    }
  }

  lemma {:induction false} SwapDeleteEntry(entries: seq<IncomingCount>, bag: multiset<FieldKey>, position: nat)
    requires EntriesMatch(entries, bag) && position < |entries| && entries[position].count == 1
    ensures EntriesMatch(entries[position := entries[|entries| - 1]][..|entries| - 1], bag - multiset{entries[position].field})
  {
    var last := |entries| - 1;
    var after := entries[position := entries[last]][..last];
    var rest := bag - multiset{entries[position].field};
    forall f | f in rest ensures Holds(after, f) {
      assert f in bag && Holds(entries, f);
      var i :| 0 <= i < |entries| && entries[i].field == f;
      assert after[if i == last then position else i].field == f;
    }
    forall i | 0 <= i < |after| ensures after[i].count > 0 && rest[after[i].field] == after[i].count {
      assert after[i] == entries[if i == position then last else i];
    }
  }

  // ---------------------------------------------------------------- a set that keeps insertion order

  /** The first eight keys inline, the rest in an overflow list behind an index. */
  class NodeKeySet {
    const inline: array<NodeKey>
    var overflow: seq<NodeKey>
    var index: Option<set<NodeKey>>
    var count: nat

    ghost predicate Valid()
      reads this, inline
    {
      && inline.Length == 8
      && (index.None? ==> count <= 8 && overflow == [])
      && (index.Some? ==> count == 8 + |overflow| && forall k :: k in index.value <==> k in Keys())
      && Distinct(Keys())
    }

    ghost function Keys(): seq<NodeKey>
      reads this, inline
      requires inline.Length == 8
    {
      inline[..if count < 8 then count else 8] + overflow
    }

    constructor ()
      ensures Valid() && Keys() == [] && fresh(inline)
    {
      inline := new NodeKey[8](i => NodeKey("", 0));
      overflow, index, count := [], None, 0;
    }

    method Add(key: NodeKey) returns (added: bool)
      requires Valid()
      modifies this, inline
      ensures Valid() && added == (key !in old(Keys()))
      ensures Keys() == old(Keys()) + if added then [key] else []
    {
      if index.Some? {
        if key in index.value {
          return false;
        }
        DistinctAppend(Keys(), key);
        index := Some(index.value + {key});
        overflow := overflow + [key];
        count := count + 1;
        assert Keys() == old(Keys()) + [key];
        return true;
      }
      var position := 0;
      while position < count
        invariant 0 <= position <= count
        invariant forall i :: 0 <= i < position ==> inline[i] != key
      {
        if inline[position] == key {
          assert Keys()[position] == key;
          return false;
        }
        position := position + 1;
      }
      assert Keys() == inline[..count];
      ghost var before := Keys();
      DistinctAppend(before, key);
      if count < 8 {
        inline[count] := key;
        count := count + 1;
        assert Keys() == before + [key];
        return true;
      }
      assert Keys() == inline[..];
      index := Some((set i | 0 <= i < 8 :: inline[i]) + {key});
      overflow := overflow + [key];
      count := count + 1;
      assert Keys() == before + [key];
      added := true;
    }

    method At(position: nat) returns (key: NodeKey)
      requires Valid() && position < |Keys()|
      ensures key == Keys()[position]
    {
      if position < 8 {
        return inline[position];
      }
      key := overflow[position - 8];
    }
  }
}
