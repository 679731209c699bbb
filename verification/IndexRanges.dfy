/** Range queries over a sorted index: two binary searches cut out exactly the rows that match a prefix, and a third one
    the rows after a cursor. */
module IndexRanges {
  import opened Wrappers
  import opened IndexOrder
  import opened SecondaryIndexes

  /** A query value: absent, or of some field kind. */
  type RawKey = Option<Key>

  /** Every entry is a live row with one value of the right kind per index field. */
  ghost predicate Shaped(kinds: seq<nat>, rows: Rows, entries: seq<int>) {
    AllIn(rows, entries) && forall i :: 0 <= i < |entries| ==> HasKinds(kinds, rows[entries[i]])
  }

  ghost predicate HasKinds(kinds: seq<nat>, t: Tuple) {
    |t| == |kinds| && forall i :: 0 <= i < |t| ==> Rank(t[i]) == kinds[i]
  }

  /** The value can stand at this position of the index. */
  predicate Usable(kinds: seq<nat>, raw: RawKey, position: nat) {
    raw.Some? && position < |kinds| && Rank(raw.value) == kinds[position]
  }

  ghost predicate UsablePrefix(kinds: seq<nat>, prefix: seq<RawKey>) {
    |prefix| <= |kinds| && forall i :: 0 <= i < |prefix| ==> Usable(kinds, prefix[i], i)
  }

  function Values(prefix: seq<RawKey>): (values: Tuple)
    requires forall i :: 0 <= i < |prefix| ==> prefix[i].Some?
    ensures |values| == |prefix| && forall i :: 0 <= i < |values| ==> prefix[i] == Some(values[i])
  {
    seq(|prefix|, i requires 0 <= i < |prefix| => prefix[i].value)
  }

  /** The row's leading fields are exactly these values. */
  predicate Starts(t: Tuple, values: Tuple) {
    |values| <= |t| && t[..|values|] == values
  }

  /** Field by field, up to the first difference. */
  function ComparePrefix(t: Tuple, values: Tuple): int
    requires |values| <= |t|
  {
    if values == [] then 0
    else if KeyLess(t[0], values[0]) then -1
    else if KeyLess(values[0], t[0]) then 1
    else ComparePrefix(t[1..], values[1..])
  }

  lemma {:induction false} ComparesLeading(t: Tuple, values: Tuple)
    requires |values| <= |t|
    ensures ComparePrefix(t, values) < 0 <==> TupleLess(t[..|values|], values)
    ensures ComparePrefix(t, values) > 0 <==> TupleLess(values, t[..|values|])
    ensures ComparePrefix(t, values) == 0 <==> Starts(t, values)
  {
    var front := t[..|values|];
    if values != [] {
      KeyTotal(t[0], values[0]);
      KeyTotal(t[0], t[0]);
      ComparesLeading(t[1..], values[1..]);
      assert front[1..] == t[1..][..|values[1..]|];
      assert front == [t[0]] + front[1..] && values == [values[0]] + values[1..];
    }
  }

  /** Along the index the comparison with a prefix never goes down. */
  lemma {:induction false} CompareMonotone(rows: Rows, entries: seq<int>, values: Tuple, i: nat, j: nat)
    requires AllIn(rows, entries) && Sorted(rows, entries) && i <= j < |entries|
    requires |values| <= |rows[entries[i]]| && |values| <= |rows[entries[j]]|
    ensures ComparePrefix(rows[entries[i]], values) >= 0 ==> ComparePrefix(rows[entries[j]], values) >= 0
    ensures ComparePrefix(rows[entries[i]], values) > 0 ==> ComparePrefix(rows[entries[j]], values) > 0
  {
    hide ComparePrefix, TupleLess;
    var a, b, n := rows[entries[i]], rows[entries[j]], |values|;
    assert i < j ==> Before(rows, entries[i], entries[j]);
    PrefixMonotone(a, b, n);
    ComparesLeading(a, values);
    ComparesLeading(b, values);
    TupleTotal(a[..n], values);
    TupleTotal(b[..n], values);
    if a[..n] != b[..n] && TupleLess(values, a[..n]) {
      TupleTransitive(values, a[..n], b[..n]);
    }
  }

  predicate NotBelow(rows: Rows, entries: seq<int>, values: Tuple, i: int) {
    0 <= i < |entries| && entries[i] in rows && |values| <= |rows[entries[i]]| && ComparePrefix(rows[entries[i]], values) >= 0
  }

  predicate Above(rows: Rows, entries: seq<int>, values: Tuple, i: int) {
    0 <= i < |entries| && entries[i] in rows && |values| <= |rows[entries[i]]| && ComparePrefix(rows[entries[i]], values) > 0
  }

  lemma {:induction false} BoundsMonotone(kinds: seq<nat>, rows: Rows, entries: seq<int>, values: Tuple)
    requires Shaped(kinds, rows, entries) && Sorted(rows, entries) && |values| <= |kinds|
    ensures forall i, j :: 0 <= i <= j < |entries| && NotBelow(rows, entries, values, i) ==> NotBelow(rows, entries, values, j)
    ensures forall i, j :: 0 <= i <= j < |entries| && Above(rows, entries, values, i) ==> Above(rows, entries, values, j)
  {
    hide ComparePrefix;
    forall i, j | 0 <= i <= j < |entries|
      ensures NotBelow(rows, entries, values, i) ==> NotBelow(rows, entries, values, j)
      ensures Above(rows, entries, values, i) ==> Above(rows, entries, values, j)
    {
      CompareMonotone(rows, entries, values, i, j);
    }
  }

  lemma {:induction false} BetweenBounds(kinds: seq<nat>, rows: Rows, entries: seq<int>, values: Tuple, i: nat)
    requires Shaped(kinds, rows, entries) && |values| <= |kinds| && i < |entries|
    ensures Starts(rows[entries[i]], values) <==> NotBelow(rows, entries, values, i) && !Above(rows, entries, values, i)
    ensures Above(rows, entries, values, i) ==> NotBelow(rows, entries, values, i)
  {
    ComparesLeading(rows[entries[i]], values);
  }

  /** Check a prefix against the index fields; the first unusable value is an error. */
  method CheckPrefix(kinds: seq<nat>, prefix: seq<RawKey>) returns (ok: bool)
    ensures ok <==> UsablePrefix(kinds, prefix)
  {
    if |prefix| > |kinds| {
      return false;
    }
    var i := 0;
    while i < |prefix|
      invariant 0 <= i <= |prefix| && forall j :: 0 <= j < i ==> Usable(kinds, prefix[j], j)
    {
      if !Usable(kinds, prefix[i], i) {
        return false;
      }
      i := i + 1;
    }
    ok := true;
  }

  /** The contiguous stretch of rows whose leading fields equal the prefix. */
  method PrefixBounds(kinds: seq<nat>, rows: Rows, entries: seq<int>, prefix: seq<RawKey>) returns (bounds: Option<(nat, nat)>)
    requires Shaped(kinds, rows, entries) && Sorted(rows, entries)
    ensures bounds.Some? <==> UsablePrefix(kinds, prefix)
    ensures bounds.Some? ==> bounds.value.0 <= bounds.value.1 <= |entries|
    ensures bounds.Some? ==> forall i :: 0 <= i < |entries| ==>
                                           (bounds.value.0 <= i < bounds.value.1 <==> Starts(rows[entries[i]], Values(prefix)))
  {
    hide ComparePrefix, Starts, NotBelow, Above;
    var ok := CheckPrefix(kinds, prefix);
    if !ok {
      return None;
    }
    var values := Values(prefix);
    BoundsMonotone(kinds, rows, entries, values);
    var notBelow, above := i => NotBelow(rows, entries, values, i), i => Above(rows, entries, values, i);
    var start := Search(|entries|, notBelow);
    var end := Search(|entries|, above);
    forall i | 0 <= i < |entries|
      ensures start <= i < end <==> Starts(rows[entries[i]], values)
    {
      BetweenBounds(kinds, rows, entries, values, i);
      assert (start <= i <==> notBelow(i)) && (end <= i <==> above(i));
    }
    if end < |entries| {
      BetweenBounds(kinds, rows, entries, values, end);
      assert above(end) && notBelow(end);
    }
    bounds := Some((start, end));
  }

  /** The slice of rows that start with the prefix, in index order. */
  method RangePrefix(kinds: seq<nat>, rows: Rows, entries: seq<int>, prefix: seq<RawKey>) returns (found: Option<seq<int>>)
    requires Shaped(kinds, rows, entries) && Sorted(rows, entries)
    ensures found.Some? <==> UsablePrefix(kinds, prefix)
    ensures found.Some? ==> Stretch(entries, found.value, id => id in rows && Starts(rows[id], Values(prefix)))
  {
    var bounds := PrefixBounds(kinds, rows, entries, prefix);
    if bounds == None {
      return None;
    }
    var start, end := bounds.value.0, bounds.value.1;
    found := Some(entries[start..end]);
    CutExactly(entries, start, end, id => id in rows && Starts(rows[id], Values(prefix)));
  }

  /** `found` is a contiguous part of the index holding every row with the property and no other. */
  ghost predicate Stretch(entries: seq<int>, found: seq<int>, has: int -> bool) {
    && IsSlice(entries, found)
    && (forall id :: id in found <==> id in entries && has(id))
  }

  ghost predicate IsSlice(entries: seq<int>, found: seq<int>) {
    exists start, end | 0 <= start <= end <= |entries| :: found == entries[start..end]
  }

  lemma {:induction false} CutExactly(entries: seq<int>, start: nat, end: nat, has: int -> bool)
    requires start <= end <= |entries|
    requires forall i :: 0 <= i < |entries| ==> (start <= i < end <==> has(entries[i]))
    ensures Stretch(entries, entries[start..end], has)
  {
    var found := entries[start..end];
    forall id ensures id in found <==> id in entries && has(id) {
      if id in found {
        var k :| 0 <= k < |found| && found[k] == id;
        assert entries[start + k] == id;
      }
      if id in entries && has(id) {
        var i :| 0 <= i < |entries| && entries[i] == id;
        assert found[i - start] == id;
      }
    }
  }

  predicate Beyond(rows: Rows, entries: seq<int>, start: nat, n: nat, cursor: Key, i: int) {
    0 <= start + i < |entries| && entries[start + i] in rows && n < |rows[entries[start + i]]|
    && KeyLess(cursor, rows[entries[start + i]][n])
  }

  /** Among the rows of one prefix the next field never goes down. */
  lemma {:induction false} BeyondMonotone(kinds: seq<nat>, rows: Rows, entries: seq<int>, values: Tuple, start: nat, end: nat, cursor: Key)
    requires Shaped(kinds, rows, entries) && Sorted(rows, entries) && |values| < |kinds| && start <= end <= |entries|
    requires forall i :: start <= i < end ==> Starts(rows[entries[i]], values)
    ensures forall i, j :: 0 <= i <= j < end - start && Beyond(rows, entries, start, |values|, cursor, i) ==>
                             Beyond(rows, entries, start, |values|, cursor, j)
  {
    forall i, j | 0 <= i < j < end - start && Beyond(rows, entries, start, |values|, cursor, i)
      ensures Beyond(rows, entries, start, |values|, cursor, j)
    {
      var a, b, n := rows[entries[start + i]], rows[entries[start + j]], |values|;
      assert Before(rows, entries[start + i], entries[start + j]);
      assert a[..n] == values == b[..n];
      NextMonotone(a, b, n);
      if a[n] != b[n] {
        KeyTransitive(cursor, a[n], b[n]);
      }
    }
  }

  /** A page of rows: those that start with the prefix and whose next field is strictly past the cursor. */
  method RangeAfter(kinds: seq<nat>, rows: Rows, entries: seq<int>, prefix: seq<RawKey>, after: RawKey) returns (found: Option<seq<int>>)
    requires Shaped(kinds, rows, entries) && Sorted(rows, entries)
    ensures found.Some? <==> |prefix| < |kinds| && Usable(kinds, after, |prefix|) && UsablePrefix(kinds, prefix)
    ensures found.Some? ==> Stretch(entries, found.value, id => id in rows && Past(rows[id], Values(prefix), after.value))
    ensures found.Some? ==> PageOf(rows, entries, found.value, Values(prefix), after.value)
  {
    if |prefix| >= |kinds| || !Usable(kinds, after, |prefix|) {
      return None;
    }
    var bounds := PrefixBounds(kinds, rows, entries, prefix);
    if bounds == None {
      return None;
    }
    var values, start, end := Values(prefix), bounds.value.0, bounds.value.1;
    BeyondMonotone(kinds, rows, entries, values, start, end, after.value);
    var beyond := i => Beyond(rows, entries, start, |values|, after.value, i);
    var offset := Search(end - start, beyond);
    found := Some(entries[start + offset..end]);
    var has := id => id in rows && Past(rows[id], values, after.value);
    forall i | 0 <= i < |entries| ensures start + offset <= i < end <==> has(entries[i]) {
      if start <= i < end {
        assert beyond(i - start) <==> offset <= i - start;
      }
    }
    CutExactly(entries, start + offset, end, has);
    assert forall id :: has(id) == (id in rows && Past(rows[id], Values(prefix), after.value));
    PageMade(kinds, rows, entries, start + offset, end, values, after.value);
  }

  predicate Past(t: Tuple, values: Tuple, cursor: Key) {
    Starts(t, values) && |values| < |t| && KeyLess(cursor, t[|values|])
  }

  /** The page lists exactly the rows whose leading fields are these values and whose next field is larger than the cursor, smallest first. */
  ghost predicate PageOf(rows: Rows, entries: seq<int>, found: seq<int>, values: Tuple, cursor: Key) {
    && (forall id :: id in found <==> id in entries && id in rows && |values| < |rows[id]| && rows[id][..|values|] == values
                                      && Exceeds(rows[id][|values|], cursor))
    && (forall i, j :: 0 <= i < j < |found| && found[i] in rows && found[j] in rows && |values| < |rows[found[i]]| && |values| < |rows[found[j]]| ==>
          rows[found[i]][|values|] == rows[found[j]][|values|] || Exceeds(rows[found[j]][|values|], rows[found[i]][|values|]))
  }

  lemma {:induction false} SameKindOrder(kinds: seq<nat>, a: Tuple, b: Tuple, n: nat)
    requires HasKinds(kinds, a) && HasKinds(kinds, b) && n < |kinds|
    ensures KeyLess(a[n], b[n]) <==> Exceeds(b[n], a[n])
  {
    assert Rank(a[n]) == kinds[n] == Rank(b[n]);
    KeyOrder(a[n], b[n]);
  }

  lemma {:induction false} CursorOrder(kinds: seq<nat>, t: Tuple, n: nat, cursor: Key)
    requires HasKinds(kinds, t) && n < |kinds| && Rank(cursor) == kinds[n]
    ensures KeyLess(cursor, t[n]) <==> Exceeds(t[n], cursor)
  {
    assert Rank(t[n]) == kinds[n];
    KeyOrder(cursor, t[n]);
  }

  lemma {:induction false} PageMade(kinds: seq<nat>, rows: Rows, entries: seq<int>, start: nat, end: nat, values: Tuple, cursor: Key)
    requires Shaped(kinds, rows, entries) && Sorted(rows, entries) && |values| < |kinds| && Rank(cursor) == kinds[|values|]
    requires start <= end <= |entries|
    requires forall i :: 0 <= i < |entries| ==> (start <= i < end <==> Past(rows[entries[i]], values, cursor))
    ensures PageOf(rows, entries, entries[start..end], values, cursor)
  {
    hide KeyLess, Exceeds, Shaped, Sorted;
    var found, n := entries[start..end], |values|;
    forall i | 0 <= i < |entries|
      ensures entries[i] in rows && |rows[entries[i]]| == |kinds|
      ensures start <= i < end <==> rows[entries[i]][..n] == values && Exceeds(rows[entries[i]][n], cursor)
    {
      ShapedAt(kinds, rows, entries, i);
      CursorOrder(kinds, rows[entries[i]], n, cursor);
    }
    hide Past;
    forall id ensures id in found <==> id in entries && id in rows && n < |rows[id]| && rows[id][..n] == values && Exceeds(rows[id][n], cursor) {
      SliceHas(entries, start, end, id);
    }
    forall i, j | 0 <= i < j < |found| ensures rows[found[i]][n] == rows[found[j]][n] || Exceeds(rows[found[j]][n], rows[found[i]][n]) {
      Ascending(kinds, rows, entries, start + i, start + j, n);
    }
  }

  lemma {:induction false} SliceHas(entries: seq<int>, start: nat, end: nat, id: int)
    requires start <= end <= |entries|
    ensures id in entries[start..end] <==> exists i :: start <= i < end && entries[i] == id
  {
    if id in entries[start..end] {
      var k :| 0 <= k < end - start && entries[start..end][k] == id;
      assert entries[start + k] == id;
    }
    if i :| start <= i < end && entries[i] == id {
      assert entries[start..end][i - start] == id;
    }
  }

  /** Rows that agree up to a field stand in the order of that field. */
  lemma {:induction false} Ascending(kinds: seq<nat>, rows: Rows, entries: seq<int>, x: nat, y: nat, n: nat)
    requires Shaped(kinds, rows, entries) && Sorted(rows, entries) && x < y < |entries| && n < |kinds|
    ensures entries[x] in rows && entries[y] in rows && |rows[entries[x]]| == |kinds| == |rows[entries[y]]|
    ensures rows[entries[x]][..n] == rows[entries[y]][..n] ==>
              rows[entries[x]][n] == rows[entries[y]][n] || Exceeds(rows[entries[y]][n], rows[entries[x]][n])
  {
    hide KeyLess, Exceeds, HasKinds, TupleLess;
    assert Before(rows, entries[x], entries[y]);
    ShapedAt(kinds, rows, entries, x);
    ShapedAt(kinds, rows, entries, y);
    if rows[entries[x]][..n] == rows[entries[y]][..n] {
      NextMonotone(rows[entries[x]], rows[entries[y]], n);
      SameKindOrder(kinds, rows[entries[x]], rows[entries[y]], n);
    }
  }

  lemma {:induction false} ShapedAt(kinds: seq<nat>, rows: Rows, entries: seq<int>, i: nat)
    requires Shaped(kinds, rows, entries) && i < |entries|
    ensures entries[i] in rows && HasKinds(kinds, rows[entries[i]]) && |rows[entries[i]]| == |kinds|
  {
  }
}
