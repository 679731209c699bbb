/** One secondary index over a table: a sorted list of row identities and, when unique, a map from key to row, taken
    apart and put back around the in-place writes of a commit. */
module SecondaryIndexes {
  import opened Wrappers
  import opened Bytes
  import opened IndexOrder

  const BATCH_THRESHOLD := 64

  /** One pending change of a row, with its new index fields. */
  datatype PendingWrite = Save(id: int, fields: Tuple) | Delete(id: int)

  type Rows = map<int, Tuple>

  /** Index order: the indexed fields, then the id. */
  predicate Before(rows: Rows, a: int, b: int)
    requires a in rows && b in rows
  {
    TupleLess(rows[a], rows[b]) || (rows[a] == rows[b] && a < b)
  }

  lemma {:induction false} BeforeTotal(rows: Rows, a: int, b: int)
    requires a in rows && b in rows
    ensures a == b || Before(rows, a, b) || Before(rows, b, a)
    ensures !(Before(rows, a, b) && Before(rows, b, a)) && !Before(rows, a, a)
  {
    TupleTotal(rows[a], rows[b]);
    TupleTotal(rows[a], rows[a]);
  }

  lemma {:induction false} BeforeTransitive(rows: Rows, a: int, b: int, c: int)
    requires a in rows && b in rows && c in rows && Before(rows, a, b) && Before(rows, b, c)
    ensures Before(rows, a, c)
  {
    if rows[a] != rows[b] && rows[b] != rows[c] {
      TupleTransitive(rows[a], rows[b], rows[c]);
    }
  }

  lemma {:induction false} HasMember(ids: set<int>)
    requires ids != {}
    ensures exists id :: id in ids
  {
    if forall id :: id !in ids {
      assert false;
    }
  }

  ghost predicate AllIn(rows: Rows, entries: seq<int>) {
    forall i :: 0 <= i < |entries| ==> entries[i] in rows
  }

  ghost predicate Sorted(rows: Rows, entries: seq<int>)
    requires AllIn(rows, entries)
  {
    forall i, j :: 0 <= i < j < |entries| ==> Before(rows, entries[i], entries[j])
  }

  /** The entries are exactly the rows `ids`, in strict index order. */
  ghost predicate Ordered(rows: Rows, ids: set<int>, entries: seq<int>) {
    && ids <= rows.Keys && (forall id :: id in entries <==> id in ids)
    && AllIn(rows, entries) && Sorted(rows, entries)
  }

  /** Every row has the table's field kinds, and machine-sized values. */
  ghost predicate Typed(rows: Rows) {
    && (forall a :: a in rows ==> Encodable(rows[a]))
    && (forall a, b :: a in rows && b in rows ==> SameKinds(rows[a], rows[b]))
  }

  ghost predicate UniqueAmong(rows: Rows, ids: set<int>) {
    forall a, b :: a in ids && b in ids && a in rows && b in rows && rows[a] == rows[b] ==> a == b
  }

  /** The key of a live row. */
  function KeyOf(rows: Rows, id: int): Option<Data> {
    if id in rows && Encodable(rows[id]) then Some(UniqueKey(rows[id])) else None
  }

  /** The map is in bijection with the rows `ids`. */
  ghost predicate Keyed(rows: Rows, ids: set<int>, keys: map<Data, int>) {
    && (forall k :: k in keys ==> keys[k] in ids && KeyOf(rows, keys[k]) == Some(k))
    && (forall id {:trigger KeyOf(rows, id)} :: id in ids && KeyOf(rows, id).Some? ==>
          KeyOf(rows, id).value in keys && keys[KeyOf(rows, id).value] == id)
  }

  /** An index has one possible content per set of rows, whichever path built it. */
  lemma {:induction false} OrderedUnique(rows: Rows, ids: set<int>, a: seq<int>, b: seq<int>)
    requires Ordered(rows, ids, a) && Ordered(rows, ids, b)
    ensures a == b
    decreases |a|
  {
    forall i | 0 <= i < |a| ensures a[i] in b {
      assert a[i] in a;
    }
    forall i | 0 <= i < |b| ensures b[i] in a {
      assert b[i] in b;
    }
    assert (b != [] ==> b[0] in a) && (a != [] ==> a[0] in b);
    if a != [] && b != [] {
      var i, j :| 0 <= i < |a| && a[i] == b[0] && 0 <= j < |b| && b[j] == a[0];
      BeforeTotal(rows, a[0], b[0]);
      assert a[0] == b[0];
      TailOrdered(rows, ids, a);
      TailOrdered(rows, ids, b);
      OrderedUnique(rows, ids - {a[0]}, a[1..], b[1..]);
      assert a == [a[0]] + a[1..] && b == [b[0]] + b[1..];
    }
  }

  lemma {:induction false} TailOrdered(rows: Rows, ids: set<int>, a: seq<int>)
    requires Ordered(rows, ids, a) && a != []
    ensures Ordered(rows, ids - {a[0]}, a[1..])
  {
    assert a == [a[0]] + a[1..];
    forall id ensures id in a[1..] <==> id in ids - {a[0]} {
      if id in a[1..] {
        var j :| 0 <= j < |a[1..]| && a[1..][j] == id;
        assert a[j + 1] == id && Before(rows, a[0], a[j + 1]);
        BeforeTotal(rows, a[0], a[0]);
      }
    }
  }

  lemma {:induction false} KeyedUnique(rows: Rows, ids: set<int>, a: map<Data, int>, b: map<Data, int>)
    requires Keyed(rows, ids, a) && Keyed(rows, ids, b)
    ensures a == b
  {
    hide KeyOf;
    forall k ensures (k in a <==> k in b) && (k in a ==> a[k] == b[k]) {
      if k in a {
        assert KeyOf(rows, a[k]) == Some(k);
      }
      if k in b {
        assert KeyOf(rows, b[k]) == Some(k);
      }
    }
  }

  /** Of two entries the earlier has the smaller value in the first field where their rows differ, or the smaller id if they do not. */
  lemma {:induction false} EntriesOrder(rows: Rows, ids: set<int>, entries: seq<int>, i: nat, j: nat)
    requires Typed(rows) && Ordered(rows, ids, entries) && i < j < |entries|
    ensures entries[i] in rows && entries[j] in rows && |rows[entries[i]]| == |rows[entries[j]]|
    ensures || (rows[entries[i]] == rows[entries[j]] && entries[i] < entries[j])
            || exists n :: 0 <= n < |rows[entries[i]]| && rows[entries[i]][..n] == rows[entries[j]][..n]
                           && Exceeds(rows[entries[j]][n], rows[entries[i]][n])
  {
    hide Exceeds, TupleLess;
    assert Before(rows, entries[i], entries[j]);
    TupleOrder(rows[entries[i]], rows[entries[j]]);
  }

  // ---------------------------------------------------------------- searching

  /** Binary search for the first position where a monotone condition holds. */
  method Search(n: nat, holds: int -> bool) returns (position: nat)
    requires forall i, j :: 0 <= i <= j < n && holds(i) ==> holds(j)
    ensures position <= n && (forall i :: 0 <= i < position ==> !holds(i)) && forall i :: position <= i < n ==> holds(i)
  {
    var low, high := 0, n;
    while low < high
      invariant 0 <= low <= high <= n
      invariant (forall i :: 0 <= i < low ==> !holds(i)) && forall i :: high <= i < n ==> holds(i)
    {
      var middle := (low + high) / 2;
      if !holds(middle) {
        low := middle + 1;
      } else {
        high := middle;
      }
    }
    position := low;
  }

  /** Entry `i` does not come before row `id`. */
  predicate AtOrAfter(rows: Rows, entries: seq<int>, id: int, i: int) {
    0 <= i < |entries| && entries[i] in rows && id in rows && !Before(rows, entries[i], id)
  }

  lemma {:induction false} AtOrAfterMonotone(rows: Rows, entries: seq<int>, id: int)
    requires AllIn(rows, entries) && Sorted(rows, entries) && id in rows
    ensures forall i, j :: 0 <= i <= j < |entries| && AtOrAfter(rows, entries, id, i) ==> AtOrAfter(rows, entries, id, j)
  {
    forall i, j | 0 <= i < j < |entries| && AtOrAfter(rows, entries, id, i) ensures AtOrAfter(rows, entries, id, j) {
      if Before(rows, entries[j], id) {
        BeforeTransitive(rows, entries[i], entries[j], id);
      }
    }
  }

  method LowerBound(rows: Rows, entries: seq<int>, id: int) returns (position: nat)
    requires AllIn(rows, entries) && Sorted(rows, entries) && id in rows
    ensures position <= |entries|
    ensures forall i :: 0 <= i < position ==> Before(rows, entries[i], id)
    ensures forall i :: position <= i < |entries| ==> !Before(rows, entries[i], id)
  {
    AtOrAfterMonotone(rows, entries, id);
    var holds := i => AtOrAfter(rows, entries, id, i);
    position := Search(|entries|, holds);
    forall i | 0 <= i < position ensures Before(rows, entries[i], id) {
      assert !holds(i);
    }
    forall i | position <= i < |entries| ensures !Before(rows, entries[i], id) {
      assert holds(i);
    }
  }

  lemma {:induction false} RemovedAt(rows: Rows, ids: set<int>, entries: seq<int>, id: int, position: nat)
    requires Ordered(rows, ids, entries) && id in ids && position <= |entries|
    requires forall i :: 0 <= i < position ==> Before(rows, entries[i], id)
    requires forall i :: position <= i < |entries| ==> !Before(rows, entries[i], id)
    ensures position < |entries| && entries[position] == id
    ensures Ordered(rows, ids - {id}, entries[..position] + entries[position + 1..])
  {
    hide Before;
    var at :| 0 <= at < |entries| && entries[at] == id;
    BeforeTotal(rows, id, id);
    assert at >= position;
    assert forall i :: 0 <= i < at ==> Before(rows, entries[i], entries[at]);
    var left := entries[..position] + entries[position + 1..];
    forall k ensures k in left <==> k in ids - {id} {
      if k in ids - {id} {
        var j :| 0 <= j < |entries| && entries[j] == k;
        assert left[if j < position then j else j - 1] == k;
      }
      if k in left {
        var j :| 0 <= j < |left| && left[j] == k;
        var i := if j < position then j else j + 1;
        assert entries[i] == k && i != position;
        assert if i < position then Before(rows, entries[i], entries[position]) else Before(rows, entries[position], entries[i]);
      }
    }
  }

  lemma {:induction false} InsertedAt(rows: Rows, ids: set<int>, entries: seq<int>, id: int, position: nat)
    requires Ordered(rows, ids, entries) && id !in ids && id in rows && position <= |entries|
    requires forall i :: 0 <= i < position ==> Before(rows, entries[i], id)
    requires forall i :: position <= i < |entries| ==> !Before(rows, entries[i], id)
    ensures Ordered(rows, ids + {id}, entries[..position] + [id] + entries[position..])
  {
    hide Before;
    var grown := entries[..position] + [id] + entries[position..];
    forall i | position <= i < |entries| ensures Before(rows, id, entries[i]) {
      assert entries[i] in entries;
      BeforeTotal(rows, id, entries[i]);
    }
    forall k ensures k in grown <==> k in ids + {id} {
      if k in ids {
        var j :| 0 <= j < |entries| && entries[j] == k;
        assert grown[if j < position then j else j + 1] == k;
      }
      assert grown[position] == id;
    }
    forall i, j | 0 <= i < j < |grown| ensures grown[i] in rows && grown[j] in rows && Before(rows, grown[i], grown[j]) {
    }
  }

  // ---------------------------------------------------------------- unique maps

  lemma {:induction false} KeyRemoved(rows: Rows, ids: set<int>, keys: map<Data, int>, id: int)
    requires Typed(rows) && Keyed(rows, ids, keys) && id in ids && id in rows
    ensures Keyed(rows, ids - {id}, keys - {UniqueKey(rows[id])})
  {
    assert KeyOf(rows, id) == Some(UniqueKey(rows[id]));
    hide UniqueKey, KeyOf;
    var left := keys - {UniqueKey(rows[id])};
    forall other | other in ids - {id} && KeyOf(rows, other).Some? ensures KeyOf(rows, other).value in left {
    }
  }

  lemma {:induction false} SameKeySame(rows: Rows, a: int, b: int)
    requires Typed(rows) && a in rows && b in rows
    ensures KeyOf(rows, a).Some? && (KeyOf(rows, a) == KeyOf(rows, b) <==> rows[a] == rows[b])
  {
    UniqueKeyInjective(rows[a], rows[b]);
  }

  lemma {:induction false} KeyAdded(rows: Rows, ids: set<int>, keys: map<Data, int>, id: int)
    requires Typed(rows) && Keyed(rows, ids, keys) && id in rows && id !in ids && ids <= rows.Keys
    requires UniqueAmong(rows, ids + {id})
    ensures Keyed(rows, ids + {id}, keys[UniqueKey(rows[id]) := id])
  {
    assert KeyOf(rows, id) == Some(UniqueKey(rows[id]));
    forall other | other in ids ensures KeyOf(rows, other) != KeyOf(rows, id) {
      SameKeySame(rows, other, id);
    }
    hide UniqueKey, KeyOf;
  }

  /** Rows changed only outside `ids`. */
  ghost predicate SameOn(before: Rows, after: Rows, ids: set<int>) {
    ids <= before.Keys && ids <= after.Keys && forall id :: id in ids ==> after[id] == before[id]
  }

  lemma {:induction false} OrderedOn(before: Rows, after: Rows, ids: set<int>, entries: seq<int>)
    requires Ordered(before, ids, entries) && SameOn(before, after, ids)
    ensures Ordered(after, ids, entries)
  {
    forall i | 0 <= i < |entries| ensures entries[i] in after && after[entries[i]] == before[entries[i]] {
      assert entries[i] in entries;
    }
    hide TupleLess;
    forall i, j | 0 <= i < j < |entries| ensures Before(after, entries[i], entries[j]) {
      assert Before(before, entries[i], entries[j]);
    }
  }

  lemma {:induction false} KeyedOn(before: Rows, after: Rows, ids: set<int>, keys: map<Data, int>)
    requires Keyed(before, ids, keys) && SameOn(before, after, ids)
    ensures Keyed(after, ids, keys)
  {
    forall id | id in ids ensures KeyOf(after, id) == KeyOf(before, id) {
    }
    hide KeyOf;
  }
}
