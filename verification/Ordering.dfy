/** The total orders the code sorts by, and the sort that stands for slices.SortFunc. */
module Ordering {
  import opened RelationSchema

  predicate TextLess(a: string, b: string) {
    b != [] && (a == [] || a[0] < b[0] || (a[0] == b[0] && TextLess(a[1..], b[1..])))
  }

  lemma {:induction false} TextTotal(a: string, b: string)
    ensures a == b || TextLess(a, b) || TextLess(b, a)
    ensures !(TextLess(a, b) && TextLess(b, a))
    decreases |a|
  {
    if a != [] && b != [] && a[0] == b[0] {
      TextTotal(a[1..], b[1..]);
      assert a == [a[0]] + a[1..] && b == [b[0]] + b[1..];
    }
  }

  lemma {:induction false} TextTransitive(a: string, b: string, c: string)
    requires TextLess(a, b) && TextLess(b, c)
    ensures TextLess(a, c)
  {
    if a != [] && a[0] == b[0] == c[0] {
      TextTransitive(a[1..], b[1..], c[1..]);
    }
  }

  /** Two names are in the order of the first character where they differ, or the shorter comes first. */
  lemma {:induction false} TextOrder(a: string, b: string)
    ensures TextLess(a, b) <==> exists n :: 0 <= n <= |a| && n < |b| && a[..n] == b[..n] && (n == |a| || a[n] < b[n])
  {
    if b != [] {
      if a == [] || a[0] != b[0] {
        assert a[..0] == b[..0];
        forall n | 0 <= n <= |a| && n < |b| && a[..n] == b[..n] ensures n == 0 || a[0] == b[0] {
          SameStart(a, b, n);
        }
      } else {
        TextOrder(a[1..], b[1..]);
        if n :| 0 <= n <= |a[1..]| && n < |b[1..]| && a[1..][..n] == b[1..][..n] && (n == |a[1..]| || a[1..][n] < b[1..][n]) {
          assert a[..n + 1] == [a[0]] + a[1..][..n] && b[..n + 1] == [b[0]] + b[1..][..n];
        }
        if n :| 0 <= n <= |a| && n < |b| && a[..n] == b[..n] && (n == |a| || a[n] < b[n]) {
          assert n > 0;
          assert a[1..][..n - 1] == a[..n][1..] && b[1..][..n - 1] == b[..n][1..];
        }
      }
    }
  }

  lemma {:induction false} SameStart(a: string, b: string, n: int)
    requires 0 <= n <= |a| && n <= |b| && a[..n] == b[..n]
    ensures n > 0 ==> a[0] == b[0]
  {
    if n > 0 {
      assert a[..n][0] == b[..n][0];
    }
  }

  /** Nodes by type name, then by id. */
  predicate KeyLess(a: NodeKey, b: NodeKey) {
    TextLess(a.typ, b.typ) || (a.typ == b.typ && a.id < b.id)
  }

  lemma {:induction false} KeyTotal(a: NodeKey, b: NodeKey)
    ensures a == b || KeyLess(a, b) || KeyLess(b, a)
    ensures !(KeyLess(a, b) && KeyLess(b, a))
  {
    TextTotal(a.typ, b.typ);
  }

  lemma {:induction false} KeyTransitive(a: NodeKey, b: NodeKey, c: NodeKey)
    requires KeyLess(a, b) && KeyLess(b, c)
    ensures KeyLess(a, c)
  {
    TextTotal(a.typ, b.typ);
    TextTotal(b.typ, c.typ);
    if a.typ != b.typ && b.typ != c.typ {
      TextTransitive(a.typ, b.typ, c.typ);
    }
  }

  ghost predicate Ascending(keys: seq<NodeKey>) {
    forall i, j :: 0 <= i < j < |keys| ==> KeyLess(keys[i], keys[j])
  }

  function Insert(keys: seq<NodeKey>, key: NodeKey): (r: seq<NodeKey>)
    ensures multiset(r) == multiset(keys) + multiset{key}
  {
    if keys == [] || KeyLess(key, keys[0]) then [key] + keys
    else
      assert keys == [keys[0]] + keys[1..];
      [keys[0]] + Insert(keys[1..], key)
  }

  function SortKeys(keys: seq<NodeKey>): (r: seq<NodeKey>)
    ensures multiset(r) == multiset(keys)
  {
    if keys == [] then []
    else
      assert keys == [keys[0]] + keys[1..];
      Insert(SortKeys(keys[1..]), keys[0])
  }

  ghost predicate Distinct<T>(s: seq<T>) {
    forall i, j :: 0 <= i < j < |s| ==> s[i] != s[j]
  }

  lemma {:induction false} DistinctAppend<T>(s: seq<T>, x: T)
    requires Distinct(s) && x !in s
    ensures Distinct(s + [x])
  {
  }

  lemma {:induction false} InsertAscends(keys: seq<NodeKey>, key: NodeKey)
    requires Ascending(keys) && key !in keys
    ensures Ascending(Insert(keys, key))
  {
    if keys == [] {
    } else if KeyLess(key, keys[0]) {
      forall j | 0 < j < |keys| ensures KeyLess(key, keys[j]) {
        KeyTransitive(key, keys[0], keys[j]);
      }
    } else {
      InsertAscends(keys[1..], key);
      KeyTotal(key, keys[0]);
      var tail := Insert(keys[1..], key);
      forall j | 0 <= j < |tail| ensures KeyLess(keys[0], tail[j]) {
        assert tail[j] in multiset(tail);
        assert tail[j] in keys[1..] || tail[j] == key;
      }
    }
  }

  lemma {:induction false} SameElements(a: seq<NodeKey>, b: seq<NodeKey>)
    requires multiset(a) == multiset(b)
    ensures forall k :: k in a <==> k in b
  {
    forall k ensures k in a <==> k in b {
      assert k in a <==> k in multiset(a);
      assert k in b <==> k in multiset(b);
    }
  }

  /** Sorting distinct keys puts them in strictly ascending order and keeps exactly them. */
  lemma {:induction false} SortAscends(keys: seq<NodeKey>)
    requires Distinct(keys)
    ensures Ascending(SortKeys(keys)) && Distinct(SortKeys(keys))
    ensures forall k :: k in SortKeys(keys) <==> k in keys
  {
    if keys != [] {
      SortAscends(keys[1..]);
      assert keys == [keys[0]] + keys[1..];
      InsertAscends(SortKeys(keys[1..]), keys[0]);
    }
    SameElements(SortKeys(keys), keys);
    AscendingIsDistinct(SortKeys(keys));
  }

  lemma {:induction false} AscendingIsDistinct(keys: seq<NodeKey>)
    requires Ascending(keys)
    ensures Distinct(keys)
  {
    forall i, j | 0 <= i < j < |keys| ensures keys[i] != keys[j] {
      KeyTotal(keys[i], keys[j]);
    }
  }
}
