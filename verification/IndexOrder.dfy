/** Index keys: the order entries are kept in, and the byte encoding unique maps are keyed by. */
module IndexOrder {
  import opened Bytes

  /** An indexable field value. Text is compared byte by byte. */
  datatype Key = BoolKey(b: bool) | SignedKey(i: int) | UnsignedKey(u: int) | TextKey(text: Data)

  /** The indexed fields of one row, in the order of the index. */
  type Tuple = seq<Key>

  function Rank(k: Key): nat {
    match k case BoolKey(_) => 0 case SignedKey(_) => 1 case UnsignedKey(_) => 2 case TextKey(_) => 3
  }

  predicate BytesLess(a: Data, b: Data) {
    b != [] && (a == [] || a[0] < b[0] || (a[0] == b[0] && BytesLess(a[1..], b[1..])))
  }

  /** Values of one field have one kind, so the rank only makes the order total. */
  predicate KeyLess(a: Key, b: Key) {
    if Rank(a) != Rank(b) then Rank(a) < Rank(b)
    else
      match a
      case BoolKey(x) => !x && b.b
      case SignedKey(x) => x < b.i
      case UnsignedKey(x) => x < b.u
      case TextKey(x) => BytesLess(x, b.text)
  }

  predicate TupleLess(a: Tuple, b: Tuple) {
    b != [] && (a == [] || KeyLess(a[0], b[0]) || (a[0] == b[0] && TupleLess(a[1..], b[1..])))
  }

  lemma {:induction false} BytesTotal(a: Data, b: Data)
    ensures a == b || BytesLess(a, b) || BytesLess(b, a)
    ensures !(BytesLess(a, b) && BytesLess(b, a)) && !BytesLess(a, a)
    decreases |a|
  {
    if a != [] && b != [] && a[0] == b[0] {
      BytesTotal(a[1..], b[1..]);
      assert a == [a[0]] + a[1..] && b == [b[0]] + b[1..];
    }
    if a != [] {
      BytesTotal(a[1..], a[1..]);
    }
  }

  lemma {:induction false} BytesTransitive(a: Data, b: Data, c: Data)
    requires BytesLess(a, b) && BytesLess(b, c)
    ensures BytesLess(a, c)
  {
    if a != [] && a[0] == b[0] == c[0] {
      BytesTransitive(a[1..], b[1..], c[1..]);
    }
  }

  lemma {:induction false} KeyTotal(a: Key, b: Key)
    ensures a == b || KeyLess(a, b) || KeyLess(b, a)
    ensures !(KeyLess(a, b) && KeyLess(b, a)) && !KeyLess(a, a)
  {
    if a.TextKey? {
      BytesTotal(a.text, a.text);
      if b.TextKey? {
        BytesTotal(a.text, b.text);
      }
    }
  }

  lemma {:induction false} KeyTransitive(a: Key, b: Key, c: Key)
    requires KeyLess(a, b) && KeyLess(b, c)
    ensures KeyLess(a, c)
  {
    if a.TextKey? && b.TextKey? && c.TextKey? {
      BytesTransitive(a.text, b.text, c.text);
    }
  }

  lemma {:induction false} TupleTotal(a: Tuple, b: Tuple)
    ensures a == b || TupleLess(a, b) || TupleLess(b, a)
    ensures !(TupleLess(a, b) && TupleLess(b, a)) && !TupleLess(a, a)
    decreases |a|
  {
    if a != [] {
      KeyTotal(a[0], a[0]);
      TupleTotal(a[1..], a[1..]);
      if b != [] {
        KeyTotal(a[0], b[0]);
        if a[0] == b[0] {
          TupleTotal(a[1..], b[1..]);
          assert a == [a[0]] + a[1..] && b == [b[0]] + b[1..];
        }
      }
    }
  }

  lemma {:induction false} TupleTransitive(a: Tuple, b: Tuple, c: Tuple)
    requires TupleLess(a, b) && TupleLess(b, c)
    ensures TupleLess(a, c)
  {
    if a != [] {
      KeyTotal(a[0], a[0]);
      if a[0] == b[0] == c[0] {
        TupleTransitive(a[1..], b[1..], c[1..]);
      } else if a[0] != b[0] && b[0] != c[0] {
        KeyTransitive(a[0], b[0], c[0]);
      }
    }
  }

  /** Leading fields never decrease along an ordered index. */
  lemma {:induction false} PrefixMonotone(a: Tuple, b: Tuple, n: nat)
    requires (a == b || TupleLess(a, b)) && n <= |a| && n <= |b|
    ensures a[..n] == b[..n] || TupleLess(a[..n], b[..n])
  {
    if n > 0 && a != b && a[0] == b[0] {
      KeyTotal(a[0], a[0]);
      PrefixMonotone(a[1..], b[1..], n - 1);
      assert a[..n] == [a[0]] + a[1..][..n - 1] && b[..n] == [b[0]] + b[1..][..n - 1];
      assert a[..n][1..] == a[1..][..n - 1] && b[..n][1..] == b[1..][..n - 1];
    }
  }

  /** Among rows with equal leading fields the next field never decreases. */
  lemma {:induction false} NextMonotone(a: Tuple, b: Tuple, n: nat)
    requires (a == b || TupleLess(a, b)) && n < |a| && n < |b| && a[..n] == b[..n]
    ensures a[n] == b[n] || KeyLess(a[n], b[n])
  {
    if n > 0 && a != b {
      assert a[0] == a[..n][0] == b[..n][0] == b[0];
      KeyTotal(a[0], a[0]);
      assert a[1..][..n - 1] == a[..n][1..] && b[1..][..n - 1] == b[..n][1..];
      NextMonotone(a[1..], b[1..], n - 1);
    }
  }

  // ---------------------------------------------------------------- the order in terms of values

  /** At the first position where they differ `b` has the larger byte, or `a` ends there. */
  ghost predicate FirstByteSmaller(a: Data, b: Data) {
    exists n :: FirstDifference(a, b, n) && (n == |a| || (a[n] as int) < b[n] as int)
  }

  ghost predicate FirstDifference(a: Data, b: Data, n: int) {
    0 <= n <= |a| && n < |b| && a[..n] == b[..n] && (n < |a| ==> a[n] != b[n])
  }

  /** `b` is the larger value: true after false, numbers by size, text by its first different byte. */
  ghost predicate Exceeds(b: Key, a: Key) {
    match b
    case BoolKey(y) => y && a == BoolKey(false)
    case SignedKey(y) => a.SignedKey? && y > a.i
    case UnsignedKey(y) => a.UnsignedKey? && y > a.u
    case TextKey(y) => a.TextKey? && FirstByteSmaller(a.text, y)
  }

  lemma {:induction false} FrontSame<T>(a: seq<T>, b: seq<T>, n: int)
    requires 0 <= n <= |a| && n <= |b| && a[..n] == b[..n]
    ensures n > 0 ==> a[0] == b[0]
  {
    if n > 0 {
      assert a[..n][0] == b[..n][0];
    }
  }

  lemma {:induction false} TextOrder(a: Data, b: Data)
    ensures BytesLess(a, b) <==> FirstByteSmaller(a, b)
  {
    if b != [] {
      if a == [] {
        assert FirstDifference(a, b, 0);
      } else if a[0] != b[0] {
        assert FirstDifference(a, b, 0);
        forall n | FirstDifference(a, b, n) ensures n == 0 {
          FrontSame(a, b, n);
        }
      } else {
        TextOrder(a[1..], b[1..]);
        if n :| FirstDifference(a[1..], b[1..], n) && (n == |a[1..]| || (a[1..][n] as int) < b[1..][n] as int) {
          assert a[..n + 1] == [a[0]] + a[1..][..n] && b[..n + 1] == [b[0]] + b[1..][..n];
          assert FirstDifference(a, b, n + 1);
        }
        if n :| FirstDifference(a, b, n) && (n == |a| || (a[n] as int) < b[n] as int) {
          assert n > 0;
          assert a[1..][..n - 1] == a[..n][1..] && b[1..][..n - 1] == b[..n][1..];
          assert FirstDifference(a[1..], b[1..], n - 1);
        }
      }
    }
  }

  /** Values of one kind are kept in their natural order. */
  lemma {:induction false} KeyOrder(a: Key, b: Key)
    requires a.BoolKey? == b.BoolKey? && a.SignedKey? == b.SignedKey? && a.UnsignedKey? == b.UnsignedKey? && a.TextKey? == b.TextKey?
    ensures KeyLess(a, b) <==> Exceeds(b, a)
  {
    if a.TextKey? {
      TextOrder(a.text, b.text);
    }
  }

  /** Of two rows of one table the smaller has the smaller value in the first field where they differ. */
  lemma {:induction false} TupleOrder(a: Tuple, b: Tuple)
    requires SameKinds(a, b)
    ensures TupleLess(a, b) <==> exists n :: 0 <= n < |a| && a[..n] == b[..n] && Exceeds(b[n], a[n])
  {
    if a != [] {
      assert Rank(a[0]) == Rank(b[0]);
      KeyOrder(a[0], b[0]);
      KeyTotal(a[0], b[0]);
      if a[0] == b[0] {
        TupleOrder(a[1..], b[1..]);
        if n :| 0 <= n < |a[1..]| && a[1..][..n] == b[1..][..n] && Exceeds(b[1..][n], a[1..][n]) {
          assert a[..n + 1] == [a[0]] + a[1..][..n] && b[..n + 1] == [b[0]] + b[1..][..n];
          assert Exceeds(b[n + 1], a[n + 1]);
        }
        if n :| 0 <= n < |a| && a[..n] == b[..n] && Exceeds(b[n], a[n]) {
          assert n > 0;
          assert a[1..][..n - 1] == a[..n][1..] && b[1..][..n - 1] == b[..n][1..];
          assert Exceeds(b[1..][n - 1], a[1..][n - 1]);
        }
      } else if n :| 0 <= n < |a| && a[..n] == b[..n] && Exceeds(b[n], a[n]) {
        FrontSame(a, b, n);
      }
      if KeyLess(a[0], b[0]) {
        assert a[..0] == b[..0];
      }
    }
  }

  // ---------------------------------------------------------------- the encoded key

  predicate InWidth(k: Key) {
    match k case SignedKey(i) => IsInt64(i) case UnsignedKey(u) => 0 <= u < TWO_64 case TextKey(t) => |t| < TWO_64 case _ => true
  }

  function IndexKeyBytes(k: Key): (out: Data)
    requires InWidth(k)
  {
    match k
    case BoolKey(b) => [if b then 1 else 0]
    case SignedKey(i) => Put64(Unsigned64(i))
    case UnsignedKey(u) => Put64(u)
    case TextKey(t) => Put64(|t|) + t
  }

  predicate Encodable(t: Tuple) {
    forall i :: 0 <= i < |t| ==> InWidth(t[i])
  }

  function TupleBytes(t: Tuple): Data
    requires Encodable(t)
  {
    if t == [] then [] else IndexKeyBytes(t[0]) + TupleBytes(t[1..])
  }

  /** The same fields of the same table: as many values, of the same kinds. */
  predicate SameKinds(a: Tuple, b: Tuple) {
    |a| == |b| && forall i :: 0 <= i < |a| ==> Rank(a[i]) == Rank(b[i])
  }

  /** One encoded value followed by anything reads back. */
  lemma {:induction false} HeadInjective(a: Key, b: Key, x: Data, y: Data)
    requires InWidth(a) && InWidth(b) && Rank(a) == Rank(b) && IndexKeyBytes(a) + x == IndexKeyBytes(b) + y
    ensures a == b && x == y
  {
    hide Put64, Get64, Unsigned64, Signed64;
    var data := IndexKeyBytes(a) + x;
    match a
    case BoolKey(p) =>
      assert data[0] == (if p then 1 else 0) && data[0] == if b.b then 1 else 0;
      assert data[1..] == x && data[1..] == y;
    case SignedKey(i) =>
      GetPut64(Unsigned64(i), x);
      GetPut64(Unsigned64(b.i), y);
      SignedBack(i);
      SignedBack(b.i);
      assert data[8..] == x && data[8..] == y;
    case UnsignedKey(u) =>
      GetPut64(u, x);
      GetPut64(b.u, y);
      assert data[8..] == x && data[8..] == y;
    case TextKey(t) =>
      var n, m := |t|, |b.text|;
      assert data == Put64(n) + (t + x) && data == Put64(m) + (b.text + y);
      GetPut64(n, t + x);
      GetPut64(m, b.text + y);
      assert data[8..8 + n] == t && data[8..8 + m] == b.text;
      assert data[8 + n..] == x && data[8 + m..] == y;
  }

  /** Concatenated key encodings identify the fields they came from. */
  lemma {:induction false} TupleInjective(a: Tuple, b: Tuple)
    requires Encodable(a) && Encodable(b) && SameKinds(a, b) && TupleBytes(a) == TupleBytes(b)
    ensures a == b
  {
    hide IndexKeyBytes;
    if a != [] {
      HeadInjective(a[0], b[0], TupleBytes(a[1..]), TupleBytes(b[1..]));
      TupleInjective(a[1..], b[1..]);
      assert a == [a[0]] + a[1..] && b == [b[0]] + b[1..];
    }
  }

  /** What a unique map is keyed by: a single text field as it is, anything else encoded. */
  function UniqueKey(t: Tuple): Data
    requires Encodable(t)
  {
    if |t| == 1 && t[0].TextKey? then t[0].text else TupleBytes(t)
  }

  lemma {:induction false} UniqueKeyInjective(a: Tuple, b: Tuple)
    requires Encodable(a) && Encodable(b) && SameKinds(a, b)
    ensures UniqueKey(a) == UniqueKey(b) <==> a == b
  {
    if UniqueKey(a) == UniqueKey(b) {
      if |a| == 1 && a[0].TextKey? {
        assert Rank(a[0]) == Rank(b[0]) && b[0].TextKey?;
        assert a == [a[0]] && b == [b[0]];
      } else {
        TupleInjective(a, b);
      }
    }
  }
}
