/** The pending replacements of an index delta: a list that answers lookups by scanning until it is nine long. */
module RelationFieldDeltas {
  import opened RelationSchema
  import opened Wrappers
  import opened RelationGraph

  datatype FieldDelta = FieldDelta(key: FieldKey, targets: seq<NodeKey>)

  ghost predicate DistinctKeys(values: seq<FieldDelta>) {
    forall i, j :: 0 <= i < j < |values| ==> values[i].key != values[j].key
  }

  ghost predicate ListsKey(values: seq<FieldDelta>, key: FieldKey) {
    exists i :: 0 <= i < |values| && values[i].key == key
  }

  function FirstAt(values: seq<FieldDelta>, key: FieldKey): (at: int)
    ensures -1 <= at < |values|
    ensures at >= 0 ==> values[at].key == key
    ensures at < 0 <==> !ListsKey(values, key)
  {
    if values == [] then -1
    else
      var last := |values| - 1;
      var at := FirstAt(values[..last], key);
      assert at < 0 ==> forall i :: 0 <= i < last ==> values[..last][i].key != key;
      if at >= 0 then at else if values[last].key == key then last else -1
  }

  function LastAt(values: seq<FieldDelta>, key: FieldKey): (at: int)
    ensures -1 <= at < |values|
    ensures at >= 0 ==> values[at].key == key && forall i :: at < i < |values| ==> values[i].key != key
    ensures at < 0 <==> !ListsKey(values, key)
  {
    if values == [] then -1
    else
      var last := |values| - 1;
      if values[last].key == key then last
      else
        var at := LastAt(values[..last], key);
        assert at < 0 ==> forall i :: 0 <= i < last ==> values[..last][i].key != key;
        at
  }

  /** Which entry a lookup reaches: the first while the list is short, the last once it is indexed. */
  function FoundAt(values: seq<FieldDelta>, key: FieldKey): (at: int)
    ensures -1 <= at < |values|
    ensures at >= 0 ==> values[at].key == key
    ensures at < 0 <==> !ListsKey(values, key)
  {
    if |values| < 9 then FirstAt(values, key) else LastAt(values, key)
  }

  lemma {:induction false} FoundUnique(values: seq<FieldDelta>, i: nat)
    requires DistinctKeys(values) && i < |values|
    ensures FoundAt(values, values[i].key) == i
  {
    assert ListsKey(values, values[i].key);
  }

  ghost predicate PositionsLast(values: seq<FieldDelta>, positions: map<FieldKey, nat>) {
    && (forall k :: k in positions <==> ListsKey(values, k))
    && (forall k :: k in positions ==> positions[k] == LastAt(values, k))
  }

  class RelationFieldDeltas {
    var values: seq<FieldDelta>
    var positions: Option<map<FieldKey, nat>>

    ghost predicate Valid()
      reads this
    {
      && (positions.None? <==> |values| < 9)
      && (positions.Some? ==> PositionsLast(values, positions.value))
    }

    constructor ()
      ensures Valid() && values == []
    {
      values, positions := [], None;
    }

    method Add(key: FieldKey, targets: seq<NodeKey>)
      requires Valid()
      modifies this
      ensures Valid() && values == old(values) + [FieldDelta(key, targets)]
    {
      ghost var before := values;
      values := values + [FieldDelta(key, targets)];
      if |values| == 9 {
        var built: map<FieldKey, nat> := map[];
        var index := 0;
        while index < |values|
          invariant values == before + [FieldDelta(key, targets)]
          invariant 0 <= index <= |values| && PositionsLast(values[..index], built)
        {
          PositionsExtend(values[..index], built, values[index]);
          assert values[..index + 1] == values[..index] + [values[index]];
          built := built[values[index].key := index];
          index := index + 1;
        }
        assert values[..index] == values;
        positions := Some(built);
        return;
      }
      if positions.Some? {
        PositionsExtend(before, positions.value, FieldDelta(key, targets));
        positions := Some(positions.value[key := |values| - 1]);
      }
    }

    method Find(key: FieldKey) returns (at: int)
      requires Valid()
      ensures at == FoundAt(values, key)
    {
      if positions.Some? {
        return if key in positions.value then positions.value[key] else -1;
      }
      at := 0;
      while at < |values|
        invariant 0 <= at <= |values| && !ListsKey(values[..at], key)
      {
        FirstStep(values, at, key);
        if values[at].key == key {
          return;
        }
        at := at + 1;
      }
      assert values[..at] == values;
      at := -1;
    }

    /** A scan appends its targets to the entry the lookup reached. */
    method Append(at: nat, targets: seq<NodeKey>)
      requires Valid() && at < |values|
      modifies this
      ensures Valid() && values == old(values)[at := FieldDelta(old(values)[at].key, old(values)[at].targets + targets)]
    {
      SameKeysSameLast(values, at, values[at].targets + targets);
      values := values[at := FieldDelta(values[at].key, values[at].targets + targets)];
    }
  }

  lemma {:induction false} PositionsExtend(values: seq<FieldDelta>, positions: map<FieldKey, nat>, entry: FieldDelta)
    requires PositionsLast(values, positions)
    ensures PositionsLast(values + [entry], positions[entry.key := |values|])
  {
    var longer := values + [entry];
    assert longer[..|values|] == values;
    forall k ensures ListsKey(longer, k) <==> k == entry.key || ListsKey(values, k) {
      assert longer[|values|].key == entry.key;
      if i :| 0 <= i < |values| && values[i].key == k {
        assert longer[i].key == k;
      }
    }
  }

  lemma {:induction false} FirstStep(values: seq<FieldDelta>, at: nat, key: FieldKey)
    requires at < |values| && !ListsKey(values[..at], key)
    ensures values[at].key == key ==> FirstAt(values, key) == at
    ensures values[at].key != key ==> !ListsKey(values[..at + 1], key)
    decreases |values|
  {
    var last := |values| - 1;
    if values[at].key != key {
      var shown := values[..at + 1];
      forall i | 0 <= i < |shown| ensures shown[i].key != key {
        if i < at {
          assert values[..at][i].key == values[i].key;
        }
      }
    } else if at < last {
      assert values[..last][..at] == values[..at];
      FirstStep(values[..last], at, key);
    }
  }

  lemma {:induction false} SameKeysSameLast(values: seq<FieldDelta>, at: nat, targets: seq<NodeKey>)
    requires at < |values|
    ensures var after := values[at := FieldDelta(values[at].key, targets)];
            forall k :: LastAt(after, k) == LastAt(values, k) && (ListsKey(after, k) <==> ListsKey(values, k))
  {
    var after := values[at := FieldDelta(values[at].key, targets)];
    assert forall i :: 0 <= i < |values| ==> after[i].key == values[i].key;
    forall k ensures LastAt(after, k) == LastAt(values, k) && (ListsKey(after, k) <==> ListsKey(values, k)) {
      var a, b := LastAt(after, k), LastAt(values, k);
      if a >= 0 {
        assert values[a].key == k;
      }
      if b >= 0 {
        assert after[b].key == k;
      }
    }
  }

  // ---------------------------------------------------------------- what a list of scans accumulates

  /** Listing a field and appending its scanned targets to whichever entry the lookup reaches. */
  function Record(values: seq<FieldDelta>, scan: FieldDelta): seq<FieldDelta> {
    var listed := values + [FieldDelta(scan.key, [])];
    assert listed[|values|].key == scan.key;
    var at := FoundAt(listed, scan.key);
    listed[at := FieldDelta(scan.key, listed[at].targets + scan.targets)]
  }

  function Accumulate(scans: seq<FieldDelta>): seq<FieldDelta> {
    if scans == [] then []
    else Record(Accumulate(scans[..|scans| - 1]), scans[|scans| - 1])
  }

  lemma {:induction false} AccumulateKeys(scans: seq<FieldDelta>)
    ensures |Accumulate(scans)| == |scans|
    ensures forall i :: 0 <= i < |scans| ==> Accumulate(scans)[i].key == scans[i].key
  {
    if scans != [] {
      AccumulateKeys(scans[..|scans| - 1]);
      RecordKeys(Accumulate(scans[..|scans| - 1]), scans[|scans| - 1]);
    }
  }

  lemma {:induction false} RecordKeys(values: seq<FieldDelta>, scan: FieldDelta)
    ensures var r := Record(values, scan);
            |r| == |values| + 1 && r[|values|].key == scan.key && forall i :: 0 <= i < |values| ==> r[i].key == values[i].key
  {
  }

  /** With every field listed once, the list is simply the scans. */
  lemma {:induction false} AccumulateDistinct(scans: seq<FieldDelta>)
    requires DistinctKeys(scans)
    ensures Accumulate(scans) == scans
  {
    if scans != [] {
      var last := |scans| - 1;
      AccumulateDistinct(scans[..last]);
      RecordDistinct(scans[..last], scans[last]);
      assert scans == scans[..last] + [scans[last]];
    }
  }

  lemma {:induction false} RecordDistinct(values: seq<FieldDelta>, scan: FieldDelta)
    requires DistinctKeys(values + [scan])
    ensures Record(values, scan) == values + [scan]
  {
    var listed := values + [FieldDelta(scan.key, [])];
    assert forall i :: 0 <= i < |listed| ==> listed[i].key == (values + [scan])[i].key;
    FoundUnique(listed, |values|);
    assert [] + scan.targets == scan.targets;
  }

  /** The replacements as a map, when each field is listed once. */
  function AsFields(values: seq<FieldDelta>): (fields: Fields)
    ensures forall fk :: fk in fields <==> ListsKey(values, fk)
  {
    if values == [] then map[]
    else
      var last := |values| - 1;
      var before := AsFields(values[..last]);
      assert forall fk :: ListsKey(values, fk) <==> ListsKey(values[..last], fk) || fk == values[last].key by {
        forall fk ensures ListsKey(values, fk) <==> ListsKey(values[..last], fk) || fk == values[last].key {
          if i :| 0 <= i < |values| && values[i].key == fk {
            assert i < last ==> values[..last][i].key == fk;
          }
          if i :| 0 <= i < last && values[..last][i].key == fk {
            assert values[i].key == fk;
          }
        }
      }
      before[values[last].key := values[last].targets]
  }

  /** Publishing entry by entry: the last entry of a field decides. */
  lemma {:induction false} AsFieldsLast(values: seq<FieldDelta>, key: FieldKey)
    requires ListsKey(values, key)
    ensures AsFields(values)[key] == values[LastAt(values, key)].targets
  {
    var last := |values| - 1;
    if values[last].key != key {
      var i :| 0 <= i < |values| && values[i].key == key;
      assert values[..last][i].key == key;
      AsFieldsLast(values[..last], key);
    }
  }

  lemma {:induction false} AsFieldsAt(values: seq<FieldDelta>, i: nat)
    requires DistinctKeys(values) && i < |values|
    ensures values[i].key in AsFields(values) && AsFields(values)[values[i].key] == values[i].targets
  {
    assert ListsKey(values, values[i].key);
    AsFieldsLast(values, values[i].key);
  }

  // ---------------------------------------------------------------- a field listed twice

  ghost predicate SameKeys(a: seq<FieldDelta>, b: seq<FieldDelta>) {
    |a| == |b| && forall i :: 0 <= i < |a| ==> a[i].key == b[i].key
  }

  lemma {:induction false} SameKeysFound(a: seq<FieldDelta>, b: seq<FieldDelta>, key: FieldKey)
    requires SameKeys(a, b)
    ensures FirstAt(a, key) == FirstAt(b, key) && LastAt(a, key) == LastAt(b, key)
    ensures ListsKey(a, key) <==> ListsKey(b, key)
  {
    if a != [] {
      SameKeysFound(a[..|a| - 1], b[..|b| - 1], key);
    }
    if i :| 0 <= i < |a| && a[i].key == key { assert b[i].key == key; }
    if i :| 0 <= i < |b| && b[i].key == key { assert a[i].key == key; }
  }

  lemma {:induction false} FirstAppend(values: seq<FieldDelta>, x: FieldDelta, key: FieldKey)
    ensures FirstAt(values + [x], key) == if FirstAt(values, key) >= 0 then FirstAt(values, key) else if x.key == key then |values| else -1
    ensures LastAt(values + [x], key) == if x.key == key then |values| else LastAt(values, key)
  {
    assert (values + [x])[..|values|] == values;
  }

  /** The last listing of `key` comes while lookups still find the first one, so its own scan lands there. */
  predicate Misplaced(scans: seq<FieldDelta>, key: FieldKey) {
    FirstAt(scans, key) != LastAt(scans, key) && LastAt(scans, key) < 8
  }

  /** What the last entry of a key ends up with. */
  lemma {:induction false} AccumulatedLast(scans: seq<FieldDelta>, key: FieldKey)
    requires ListsKey(scans, key)
    ensures var last := LastAt(scans, key);
            |Accumulate(scans)| == |scans| && Accumulate(scans)[last].targets == if Misplaced(scans, key) then [] else scans[last].targets
  {
    var n := |scans| - 1;
    var before, s := scans[..n], scans[n];
    var values := Accumulate(before);
    assert scans == before + [s];
    AccumulateKeys(before);
    AccumulateKeys(scans);
    assert SameKeys(values, before);
    SameKeysFound(values, before, key);
    FirstAppend(before, s, key);
    FirstAppend(values, FieldDelta(s.key, []), s.key);
    if s.key != key {
      assert ListsKey(before, key);
      AccumulatedLast(before, key);
    }
  }

  /** Publishing the list installs the scanned targets of a field exactly when its last listing was not misplaced
      or there was nothing to misplace. */
  lemma {:induction false} PublishedScan(scans: seq<FieldDelta>, key: FieldKey)
    requires ListsKey(scans, key)
    ensures key in AsFields(Accumulate(scans))
    ensures AsFields(Accumulate(scans))[key] == scans[LastAt(scans, key)].targets <==>
            !Misplaced(scans, key) || scans[LastAt(scans, key)].targets == []
    ensures AsFields(Accumulate(scans))[key] == [] || AsFields(Accumulate(scans))[key] == scans[LastAt(scans, key)].targets
  {
    AccumulateKeys(scans);
    SameKeysFound(Accumulate(scans), scans, key);
    AccumulatedLast(scans, key);
    AsFieldsLast(Accumulate(scans), key);
  }

  /** Nothing comes into an entry but what some scan of its field found. */
  lemma {:induction false} AccumulateWithin(scans: seq<FieldDelta>, i: nat, x: NodeKey)
    requires i < |scans| && |Accumulate(scans)| == |scans| && x in Accumulate(scans)[i].targets
    ensures exists j :: 0 <= j < |scans| && scans[j].key == scans[i].key && x in scans[j].targets
  {
    var n := |scans| - 1;
    var before, s := scans[..n], scans[n];
    AccumulateKeys(before);
    AccumulateKeys(scans);
    var values := Accumulate(before);
    var listed := values + [FieldDelta(s.key, [])];
    assert listed[n].key == s.key;
    var at := FoundAt(listed, s.key);
    if i == at && x in s.targets {
      assert scans[n].key == scans[i].key;
    } else {
      assert x in values[i].targets;
      AccumulateWithin(before, i, x);
      var j :| 0 <= j < n && before[j].key == before[i].key && x in before[j].targets;
      assert scans[j].key == scans[i].key && x in scans[j].targets;
    }
  }

  /** How many targets all scans of one field found together. */
  function KeyLen(scans: seq<FieldDelta>, key: FieldKey): nat {
    if scans == [] then 0
    else KeyLen(scans[..|scans| - 1], key) + if scans[|scans| - 1].key == key then |scans[|scans| - 1].targets| else 0
  }

  lemma {:induction false} KeyLenAtLeast(scans: seq<FieldDelta>, key: FieldKey, i: nat)
    requires i < |scans| && scans[i].key == key
    ensures KeyLen(scans, key) >= |scans[i].targets|
  {
    if i < |scans| - 1 {
      KeyLenAtLeast(scans[..|scans| - 1], key, i);
    }
  }

  lemma {:induction false} KeyLenTwice(scans: seq<FieldDelta>, key: FieldKey, i: nat, j: nat)
    requires i < j < |scans| && scans[i].key == key && scans[j].key == key
    ensures KeyLen(scans, key) >= |scans[i].targets| + |scans[j].targets|
  {
    if j < |scans| - 1 {
      KeyLenTwice(scans[..|scans| - 1], key, i, j);
    } else {
      KeyLenAtLeast(scans[..j], key, i);
    }
  }

  lemma {:induction false} KeyLenNone(scans: seq<FieldDelta>, key: FieldKey)
    requires !ListsKey(scans, key)
    ensures KeyLen(scans, key) == 0
  {
    if scans != [] {
      var before := scans[..|scans| - 1];
      forall i | 0 <= i < |before| ensures before[i].key != key {
        assert scans[i].key != key;
      }
      KeyLenNone(before, key);
    }
  }

  lemma {:induction false} KeyLenGrows(values: seq<FieldDelta>, at: nat, targets: seq<NodeKey>, key: FieldKey)
    requires at < |values|
    ensures KeyLen(values[at := FieldDelta(values[at].key, values[at].targets + targets)], key)
            == KeyLen(values, key) + if values[at].key == key then |targets| else 0
  {
    var n := |values| - 1;
    var after := values[at := FieldDelta(values[at].key, values[at].targets + targets)];
    if at < n {
      KeyLenGrows(values[..n], at, targets, key);
      assert after[..n] == values[..n][at := FieldDelta(values[at].key, values[at].targets + targets)];
    } else {
      assert after[..n] == values[..n];
    }
  }

  /** Recording moves targets between the entries of a field but neither adds nor drops any. */
  lemma {:induction false} AccumulateLen(scans: seq<FieldDelta>, key: FieldKey)
    ensures KeyLen(Accumulate(scans), key) == KeyLen(scans, key)
  {
    if scans != [] {
      var n := |scans| - 1;
      var values, s := Accumulate(scans[..n]), scans[n];
      AccumulateLen(scans[..n], key);
      var listed := values + [FieldDelta(s.key, [])];
      assert listed[|values|].key == s.key;
      var at := FoundAt(listed, s.key);
      assert listed[..|values|] == values;
      KeyLenGrows(listed, at, s.targets, key);
    }
  }

  lemma {:induction false} KeyLenZero(values: seq<FieldDelta>, key: FieldKey)
    requires forall i :: 0 <= i < |values| && values[i].key == key ==> values[i].targets == []
    ensures KeyLen(values, key) == 0
  {
    if values != [] {
      KeyLenZero(values[..|values| - 1], key);
    }
  }

  lemma {:induction false} FirstIsFirst(values: seq<FieldDelta>, key: FieldKey, i: nat)
    requires i < |values| && values[i].key == key
    ensures 0 <= FirstAt(values, key) <= i <= LastAt(values, key)
  {
    assert ListsKey(values, key);
    if i < |values| - 1 {
      FirstIsFirst(values[..|values| - 1], key, i);
    } else if FirstAt(values[..i], key) < 0 {
      assert values[i].key == key;
    }
  }

  /** A field scanned twice or more keeps its last scan if that is the ninth scan or a later one, and nothing if it is an earlier one. */
  lemma {:induction false} ScannedTwice(scans: seq<FieldDelta>, key: FieldKey, i: nat, j: nat)
    requires i < j < |scans| && scans[i].key == key == scans[j].key && scans[j].targets != []
    requires forall m :: 0 <= m < i || j < m < |scans| ==> scans[m].key != key
    ensures key in AsFields(Accumulate(scans))
    ensures AsFields(Accumulate(scans))[key] == if j < 8 then [] else scans[j].targets
  {
    assert ListsKey(scans, key);
    PublishedScan(scans, key);
    FirstIsFirst(scans, key, i);
    hide AsFields, Accumulate;
  }

  /** While the list is short all scans of a field pile up in its first entry. */
  lemma {:induction false} ShortFirst(scans: seq<FieldDelta>, key: FieldKey)
    requires |scans| < 9 && ListsKey(scans, key)
    ensures |Accumulate(scans)| == |scans| && |Accumulate(scans)[FirstAt(scans, key)].targets| == KeyLen(scans, key)
  {
    var n := |scans| - 1;
    var before, s := scans[..n], scans[n];
    assert scans == before + [s];
    AccumulateKeys(before);
    AccumulateKeys(scans);
    var values := Accumulate(before);
    assert SameKeys(values, before);
    SameKeysFound(values, before, key);
    SameKeysFound(values, before, s.key);
    FirstAppend(before, s, key);
    FirstAppend(values, FieldDelta(s.key, []), s.key);
    if ListsKey(before, key) {
      ShortFirst(before, key);
    } else {
      KeyLenNone(before, key);
    }
  }

  lemma {:induction false} FirstConcat(a: seq<FieldDelta>, b: seq<FieldDelta>, key: FieldKey)
    ensures FirstAt(a + b, key) == if FirstAt(a, key) >= 0 then FirstAt(a, key) else if FirstAt(b, key) >= 0 then |a| + FirstAt(b, key) else -1
    ensures LastAt(a + b, key) == if LastAt(b, key) >= 0 then |a| + LastAt(b, key) else LastAt(a, key)
  {
    if b == [] {
      assert a + b == a;
    } else {
      var n := |b| - 1;
      assert a + b == (a + b[..n]) + [b[n]] && b == b[..n] + [b[n]];
      FirstConcat(a, b[..n], key);
      FirstAppend(a + b[..n], b[n], key);
      FirstAppend(b[..n], b[n], key);
    }
  }
}
