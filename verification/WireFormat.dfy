/** The bytes on disk, position by position: big-endian words, the layout of log frames, of scalar rows and of unique keys, and what a
    logged change reads back as. */
module WireFormat {
  import opened Wrappers
  import opened Bytes
  import opened IndexOrder
  import opened LogFrames
  import opened LogReplay
  import Scalars = ScalarRows

  // ---------------------------------------------------------------- words

  /** The number these bytes are, most significant first. */
  function BigEndian(data: Data): nat {
    if data == [] then 0 else 256 * BigEndian(data[..|data| - 1]) + data[|data| - 1]
  }

  lemma {:induction false} BigEndianStep(data: Data, b: Byte)
    ensures BigEndian(data + [b]) == 256 * BigEndian(data) + b
  {
    assert (data + [b])[..|data|] == data;
  }

  lemma {:induction false} FourBytes(a: Byte, b: Byte, c: Byte, d: Byte)
    ensures BigEndian([a, b, c, d]) == 0x100_0000 * a + 0x1_0000 * b + 256 * c + d
  {
    BigEndianStep([], a);
    BigEndianStep([a], b);
    BigEndianStep([a, b], c);
    BigEndianStep([a, b, c], d);
    assert [] + [a] == [a] && [a] + [b] == [a, b] && [a, b] + [c] == [a, b, c] && [a, b, c] + [d] == [a, b, c, d];
  }

  /** A 32-bit word has its most significant byte first. */
  lemma {:induction false} WordBytes(v: int)
    requires 0 <= v <= MAX_UINT32
    ensures |Put32(v)| == 4 && BigEndian(Put32(v)) == v
  {
    var out := Put32(v);
    FourBytes(out[0], out[1], out[2], out[3]);
    assert out == [out[0], out[1], out[2], out[3]];
    GetPut32(v, []);
    assert out + [] == out;
  }

  function Shift(n: nat): nat {
    if n == 0 then 1 else 256 * Shift(n - 1)
  }

  lemma {:induction false} ShiftStep(x: nat, y: nat, b: nat, shift: nat)
    ensures 256 * (x * shift + y) + b == x * (256 * shift) + (256 * y + b)
  {
  }

  lemma {:induction false} BigEndianJoin(a: Data, b: Data)
    ensures BigEndian(a + b) == BigEndian(a) * Shift(|b|) + BigEndian(b)
  {
    if b == [] {
      assert a + b == a;
    } else {
      hide BigEndian;
      var n := |b| - 1;
      BigEndianJoin(a, b[..n]);
      assert a + b == (a + b[..n]) + [b[n]] && b == b[..n] + [b[n]];
      BigEndianStep(a + b[..n], b[n]);
      BigEndianStep(b[..n], b[n]);
      ShiftStep(BigEndian(a), BigEndian(b[..n]), b[n], Shift(n));
    }
  }

  /** A 64-bit word too. */
  lemma {:induction false} LongBytes(v: int)
    requires 0 <= v < TWO_64
    ensures |Put64(v)| == 8 && BigEndian(Put64(v)) == v
  {
    hide Put32;
    var high, low := v / TWO_32, v % TWO_32;
    WordBytes(high);
    WordBytes(low);
    BigEndianJoin(Put32(high), Put32(low));
    assert Shift(4) == TWO_32;
  }

  /** Signed numbers are kept modulo two to the 64. */
  lemma {:induction false} SignedBytes(i: int)
    requires IsInt64(i)
    ensures |Put64(Unsigned64(i))| == 8 && BigEndian(Put64(Unsigned64(i))) == i % TWO_64
  {
    LongBytes(Unsigned64(i));
    assert i < 0 ==> (i + TWO_64) % TWO_64 == i % TWO_64;
  }

  // ---------------------------------------------------------------- log frames

  /** One row of the shared log: the length of its type name, its id, the length of its bytes, then name and bytes. A table's own log has no name. */
  ghost predicate RowLayout(shared: bool, data: Data, r: LogRow) {
    if shared then
      && |data| == 16 + |r.typ| + |r.row| && IsInt64(r.id)
      && BigEndian(data[..4]) == |r.typ| && BigEndian(data[4..12]) == r.id % TWO_64 && BigEndian(data[12..16]) == |r.row|
      && data[16..16 + |r.typ|] == r.typ && data[16 + |r.typ|..] == r.row
    else
      && |data| == 12 + |r.row| && IsInt64(r.id)
      && BigEndian(data[..8]) == r.id % TWO_64 && BigEndian(data[8..12]) == |r.row| && data[12..] == r.row
  }

  lemma {:induction false} RowIsLaidOut(shared: bool, r: LogRow)
    requires RowFits(shared, r)
    ensures RowLayout(shared, RowBytes(shared, r), r)
  {
    hide Put32, Put64, BigEndian;
    var data, id, size := RowBytes(shared, r), Put64(Unsigned64(r.id)), Put32(|r.row|);
    SignedBytes(r.id);
    WordBytes(|r.row|);
    if shared {
      var name := Put32(|r.typ|);
      WordBytes(|r.typ|);
      assert data == name + (id + (size + (r.typ + r.row)));
      assert data[..4] == name && data[4..12] == id && data[12..16] == size;
      assert data[16..16 + |r.typ|] == r.typ && data[16 + |r.typ|..] == r.row;
    } else {
      assert data == id + (size + ([] + r.row));
      assert data[..8] == id && data[8..12] == size && data[12..] == r.row;
    }
  }

  /** Where row `n` of a frame starts. */
  function RowStart(shared: bool, rows: Frame, n: nat): nat
    requires n <= |rows|
  {
    if n == 0 then 8
    else RowStart(shared, rows, n - 1) + (if shared then 16 else 12) + |rows[n - 1].typ| + |rows[n - 1].row|
  }

  lemma {:induction false} StartsAfter(shared: bool, rows: Frame, n: nat)
    requires n < |rows|
    ensures RowStart(shared, rows, n + 1) == RowSize(shared, rows[0]) + RowStart(shared, rows[1..], n)
    decreases n
  {
    if n > 0 {
      StartsAfter(shared, rows, n - 1);
    }
  }

  lemma {:induction false} FirstStarts(shared: bool, rows: Frame)
    ensures RowStart(shared, rows, 0) == 8
  {
  }

  lemma {:induction false} RowFitsAt(shared: bool, rows: Frame, n: nat)
    requires RowsFit(shared, rows) && n < |rows|
    ensures RowFits(shared, rows[n]) && (n > 0 ==> rows[1..][n - 1] == rows[n])
  {
  }

  lemma {:induction false} RowsSplit(shared: bool, rows: Frame)
    requires RowsFit(shared, rows) && rows != []
    ensures RowsFit(shared, rows[1..]) && RowsBytes(shared, rows) == RowBytes(shared, rows[0]) + RowsBytes(shared, rows[1..])
    ensures |RowBytes(shared, rows[0])| == RowSize(shared, rows[0])
  {
    hide RowBytes;
  }

  lemma {:induction false} RowsAreLaidOut(shared: bool, rows: Frame, n: nat)
    requires RowsFit(shared, rows) && n < |rows|
    ensures 8 <= RowStart(shared, rows, n) <= RowStart(shared, rows, n + 1) <= 8 + |RowsBytes(shared, rows)|
    ensures RowsBytes(shared, rows)[RowStart(shared, rows, n) - 8..RowStart(shared, rows, n + 1) - 8] == RowBytes(shared, rows[n])
    decreases |rows|
  {
    hide *;
    RowsSplit(shared, rows);
    RowFitsAt(shared, rows, 0);
    RowFitsAt(shared, rows, n);
    var first, rest := RowBytes(shared, rows[0]), RowsBytes(shared, rows[1..]);
    StartsAfter(shared, rows, n);
    FirstStarts(shared, rows);
    FirstStarts(shared, rows[1..]);
    if n == 0 {
      assert (first + rest)[0..|first|] == first;
    } else {
      StartsAfter(shared, rows, n - 1);
      RowsAreLaidOut(shared, rows[1..], n - 1);
      var a, b := RowStart(shared, rows[1..], n - 1) - 8, RowStart(shared, rows[1..], n) - 8;
      assert (first + rest)[|first| + a..|first| + b] == rest[a..b];
    }
  }

  ghost predicate RowInFrame(shared: bool, rows: Frame, data: Data, n: nat)
    requires n < |rows|
  {
    && 8 <= RowStart(shared, rows, n) <= RowStart(shared, rows, n + 1) <= |data|
    && RowLayout(shared, data[RowStart(shared, rows, n)..RowStart(shared, rows, n + 1)], rows[n])
  }

  /** A frame on disk: the length of what follows, the number of rows, then the rows one behind the other. */
  lemma {:induction false} FrameIsLaidOut(shared: bool, rows: Frame)
    requires RowsFit(shared, rows) && FrameFits(shared, rows)
    ensures var data := FrameBytes(shared, rows);
            && |data| >= 8 && BigEndian(data[..4]) == |data| - 4 && BigEndian(data[4..8]) == |rows| && RowStart(shared, rows, |rows|) == |data|
            && forall n :: 0 <= n < |rows| ==> RowInFrame(shared, rows, data, n)
  {
    hide Put32, BigEndian, RowsBytes, RowLayout, RowsSize;
    var data, body := FrameBytes(shared, rows), RowsBytes(shared, rows);
    var size, count := Put32(4 + RowsSize(shared, rows)), Put32(|rows|);
    WordBytes(4 + RowsSize(shared, rows));
    WordBytes(|rows|);
    assert data == size + (count + body) && data[..4] == size && data[4..8] == count && data[8..] == body;
    RowsEnd(shared, rows);
    forall n | 0 <= n < |rows| ensures RowInFrame(shared, rows, data, n) {
      RowsAreLaidOut(shared, rows, n);
      RowIsLaidOut(shared, rows[n]);
      var a, b := RowStart(shared, rows, n), RowStart(shared, rows, n + 1);
      assert data[a..b] == body[a - 8..b - 8];
    }
  }

  lemma {:induction false} RowsEnd(shared: bool, rows: Frame)
    ensures RowStart(shared, rows, |rows|) == 8 + RowsSize(shared, rows)
    decreases |rows|
  {
    if rows != [] {
      StartsAfter(shared, rows, |rows| - 1);
      RowsEnd(shared, rows[1..]);
    }
  }

  // ---------------------------------------------------------------- scalar rows and unique keys

  /** What one plain value is on disk: a byte for a flag, eight for a number, a length of four and the bytes for text; of a byte slice the
      length plus one, so that nil is zero. */
  ghost predicate ScalarLayout(v: Scalars.Value, data: Data) {
    match v
    case BoolValue(b) => |data| == 1 && data[0] == if b then 1 else 0
    case SignedValue(i) => |data| == 8 && BigEndian(data) == i % TWO_64
    case UnsignedValue(u) => |data| == 8 && BigEndian(data) == u
    case FloatValue(p) => |data| == 8 && BigEndian(data) == p
    case TextValue(text) => |data| == 4 + |text| && BigEndian(data[..4]) == |text| && data[4..] == text
    case BytesValue(None) => |data| == 4 && BigEndian(data) == 0
    case BytesValue(Some(bytes)) => |data| == 4 + |bytes| && BigEndian(data[..4]) == |bytes| + 1 && data[4..] == bytes
    case Aggregate(items) => PartsLayout(items, data)
    case OtherValue => false
  }

  /** An aggregate is its parts, one behind the other. */
  ghost predicate PartsLayout(items: seq<Scalars.Value>, data: Data)
    decreases items, 0
  {
    if items == [] then data == []
    else exists n :: 0 <= n <= |data| && ScalarLayout(items[0], data[..n]) && PartsLayout(items[1..], data[n..])
  }

  lemma {:induction false} LeafIsLaidOut(v: Scalars.Value)
    requires Scalars.Encodable(v) && !v.Aggregate?
    ensures ScalarLayout(v, Scalars.Encoded(v))
  {
    hide Put32, Put64, BigEndian;
    match v
    case BoolValue(b) =>
    case SignedValue(i) =>
      SignedBytes(i);
    case UnsignedValue(u) =>
      LongBytes(u);
    case FloatValue(p) =>
      LongBytes(p);
    case TextValue(text) =>
      WordBytes(|text|);
      var size := Put32(|text|);
      assert (size + text)[..4] == size && (size + text)[4..] == text;
    case BytesValue(data) =>
      WordBytes(Scalars.EncodedLength(data));
      var size := Put32(Scalars.EncodedLength(data));
      if data.Some? {
        assert (size + data.value)[..4] == size && (size + data.value)[4..] == data.value;
      } else {
        assert size + [] == size;
      }
    case OtherValue =>
  }

  /** Every encoded value is laid out like that. */
  lemma {:induction false} ScalarIsLaidOut(v: Scalars.Value)
    requires Scalars.Encodable(v)
    ensures ScalarLayout(v, Scalars.Encoded(v))
    decreases v, Scalars.Breadth(v)
  {
    if v.Aggregate? {
      PartsAreLaidOut(v, 0);
      assert v.items[0..] == v.items;
    } else {
      LeafIsLaidOut(v);
    }
  }

  lemma {:induction false} PartsAreLaidOut(v: Scalars.Value, i: nat)
    requires Scalars.Encodable(v) && v.Aggregate? && i <= |v.items|
    ensures PartsLayout(v.items[i..], Scalars.EncodedFrom(v, i))
    decreases v, |v.items| - i
  {
    hide ScalarLayout;
    if i < |v.items| {
      ScalarIsLaidOut(v.items[i]);
      PartsAreLaidOut(v, i + 1);
      var first, rest := Scalars.Encoded(v.items[i]), Scalars.EncodedFrom(v, i + 1);
      assert v.items[i..][1..] == v.items[i + 1..] && v.items[i..][0] == v.items[i];
      assert (first + rest)[..|first|] == first && (first + rest)[|first|..] == rest;
    }
  }

  lemma {:induction false} ReadsBigEndian(data: Data)
    requires |data| >= 8
    ensures Get64(data) == BigEndian(data[..8])
  {
    hide Put64, Get64, BigEndian;
    LongBytes(Get64(data));
    PutGet64(data);
    assert data[..8] == Put64(Get64(data));
  }

  /** What the compact codec takes: flags, numbers, texts and byte slices whose length fits 32 bits, and aggregates of those. */
  predicate Plain(v: Scalars.Value) {
    match v
    case TextValue(text) => |text| < 0x1_0000_0000
    case BytesValue(Some(bytes)) => |bytes| + 1 < 0x1_0000_0000
    case Aggregate(items) => forall i :: 0 <= i < |items| ==> Plain(items[i])
    case OtherValue => false
    case _ => true
  }

  /** How many bytes a plain value takes. */
  function Taken(v: Scalars.Value): nat
    decreases v, Scalars.Breadth(v)
  {
    match v
    case BoolValue(_) => 1
    case TextValue(text) => 4 + |text|
    case BytesValue(None) => 4
    case BytesValue(Some(bytes)) => 4 + |bytes|
    case Aggregate(items) => TakenTogether(v, |items|)
    case _ => 8
  }

  function TakenTogether(v: Scalars.Value, n: nat): nat
    requires v.Aggregate? && n <= |v.items|
    decreases v, n
  {
    if n == 0 then 0 else TakenTogether(v, n - 1) + Taken(v.items[n - 1])
  }

  lemma {:induction false} ScalarSized(v: Scalars.Value)
    ensures Scalars.ScalarValueSize(v).Some? <==> Plain(v) && Taken(v) <= Scalars.MAX_INT
    ensures Scalars.ScalarValueSize(v).Some? ==> Scalars.ScalarValueSize(v).value == Taken(v)
    decreases v, Scalars.Breadth(v)
  {
    if v.Aggregate? {
      PartsSized(v, |v.items|);
    }
  }

  lemma {:induction false} PartsSized(v: Scalars.Value, n: nat)
    requires v.Aggregate? && n <= |v.items|
    ensures Scalars.PartsSize(v, n).Some? <==> (forall i :: 0 <= i < n ==> Plain(v.items[i])) && TakenTogether(v, n) <= Scalars.MAX_INT
    ensures Scalars.PartsSize(v, n).Some? ==> Scalars.PartsSize(v, n).value == TakenTogether(v, n)
    decreases v, n
  {
    hide Plain, Taken, Scalars.ScalarValueSize;
    if n > 0 {
      PartsSized(v, n - 1);
      ScalarSized(v.items[n - 1]);
    }
  }

  /** The compact codec takes a row exactly when it is a struct of plain parts that fits an int together with its tag. */
  lemma {:induction false} CompactRows(row: Scalars.Value)
    ensures Scalars.ScalarRowSize(row).Some? <==> row.Aggregate? && Plain(row) && Taken(row) < Scalars.MAX_INT
    ensures Scalars.ScalarRowSize(row).Some? ==> Scalars.ScalarRowSize(row).value == 1 + Taken(row)
  {
    hide Plain, Taken;
    ScalarSized(row);
  }

  /** A number read into a narrower field keeps its low bits: it is what was written modulo the width, within the range of the field. */
  lemma {:induction false} NarrowWraps(data: Data, bits: nat)
    requires |data| >= 8 && Scalars.IsWidth(bits)
    ensures var p := Scalars.Power(bits);
            && Scalars.DecodeScalarValue(data, Scalars.UnsignedShape(bits)).Some?
            && Scalars.DecodeScalarValue(data, Scalars.UnsignedShape(bits)).value.value == Scalars.UnsignedValue(BigEndian(data[..8]) % p)
            && Scalars.DecodeScalarValue(data, Scalars.SignedShape(bits)).Some?
            && var r := Scalars.DecodeScalarValue(data, Scalars.SignedShape(bits)).value.value;
               r.SignedValue? && -p <= 2 * r.i < p && r.i % p == BigEndian(data[..8]) % p
  {
    hide Get64, BigEndian;
    ReadsBigEndian(data);
    Scalars.PowerIs(bits);
    WrapsModulo(bits, Get64(data));
  }

  lemma {:induction false} WrapsModulo(bits: nat, u: int)
    requires Scalars.IsWidth(bits) && 0 <= u < TWO_64
    ensures var p, i := Scalars.Power(bits), Scalars.WrapSigned(bits, Signed64(u));
            -p <= 2 * i < p && i % p == u % p
  {
    var p, i := Scalars.Power(bits), Signed64(u);
    Scalars.PowerIs(bits);
    assert p == 2 * Scalars.Power(bits - 1);
    ModuloWidth(bits, u);
    var low := i % p;
    if low >= Scalars.Power(bits - 1) {
      ModuloShift(low, p);
    } else {
      ModuloSmall(low, p);
    }
  }

  lemma {:induction false} ModuloShift(low: int, p: int)
    requires 0 < p && 0 <= low < p
    ensures (low - p) % p == low
  {
    assert low - p == -1 * p + low;
  }

  lemma {:induction false} ModuloSmall(low: int, p: int)
    requires 0 < p && 0 <= low < p
    ensures low % p == low
  {
  }

  lemma {:induction false} ModuloWidth(bits: nat, u: int)
    requires Scalars.IsWidth(bits) && 0 <= u < TWO_64
    ensures Signed64(u) % Scalars.Power(bits) == u % Scalars.Power(bits)
  {
    var p := Scalars.Power(bits);
    Scalars.PowerIs(bits);
    var times := if bits == 8 then 0x100_0000_0000_0000 else if bits == 16 then 0x1_0000_0000_0000 else if bits == 32 then TWO_32 else 1;
    assert times * p == TWO_64;
    hide Scalars.Power;
    if u >= TWO_63 {
      assert Signed64(u) == u - times * p;
      LessTimes(u, times, p);
    }
  }

  lemma {:induction false} LessTimes(u: int, times: nat, p: int)
    requires 0 < p
    ensures (u - times * p) % p == u % p
    decreases times
  {
    if times > 0 {
      LessTimes(u - p, times - 1, p);
      assert u - p - (times - 1) * p == u - times * p;
      LessOne(u, p);
    }
  }

  lemma {:induction false} LessOne(u: int, p: int)
    requires 0 < p
    ensures (u - p) % p == u % p
  {
    var a, b := u / p, (u - p) / p;
    var d := a - b;
    assert u == a * p + u % p && u - p == b * p + (u - p) % p;
    Spread(a, b, p);
    TimesBound(d, p);
  }

  lemma {:induction false} Spread(a: int, b: int, p: int)
    ensures (a - b) * p == a * p - b * p
  {
  }

  lemma {:induction false} TimesBound(d: int, p: int)
    requires 0 < p
    ensures d >= 2 ==> d * p >= 2 * p
    ensures d <= 0 ==> d * p <= 0
  {
    if d >= 2 {
      assert (d - 2) * p >= 0;
    } else if d <= 0 {
      assert (-d) * p >= 0;
    }
  }

  /** The first byte of a row says how the rest is encoded. */
  lemma {:induction false} RowTags(tag: Byte, rest: Data, shape: Scalars.Shape, gob: Data -> Option<Scalars.Value>)
    ensures Scalars.DecodeRow([], shape, gob) == None
    ensures tag == 0 ==> Scalars.DecodeRow([tag] + rest, shape, gob) == gob(rest)
    ensures tag == 1 ==> Scalars.DecodeRow([tag] + rest, shape, gob) == Scalars.DecodeScalarRow(rest, shape)
    ensures tag > 1 ==> Scalars.DecodeRow([tag] + rest, shape, gob) == None
  {
    hide Scalars.DecodeScalarRow;
    assert ([tag] + rest)[1..] == rest;
  }

  /** One indexed value inside a unique key: a byte for a flag, eight for a number, a length of eight and the bytes for text. */
  ghost predicate KeyLayout(k: Key, data: Data) {
    match k
    case BoolKey(b) => |data| == 1 && data[0] == if b then 1 else 0
    case SignedKey(i) => |data| == 8 && BigEndian(data) == i % TWO_64
    case UnsignedKey(u) => |data| == 8 && BigEndian(data) == u
    case TextKey(text) => |data| == 8 + |text| && BigEndian(data[..8]) == |text| && data[8..] == text
  }

  lemma {:induction false} KeyIsLaidOut(k: Key)
    requires InWidth(k)
    ensures KeyLayout(k, IndexKeyBytes(k))
  {
    hide Put64, BigEndian;
    match k
    case BoolKey(b) =>
    case SignedKey(i) =>
      SignedBytes(i);
    case UnsignedKey(u) =>
      LongBytes(u);
    case TextKey(text) =>
      LongBytes(|text|);
      var size := Put64(|text|);
      assert (size + text)[..8] == size && (size + text)[8..] == text;
  }

  /** A unique key is its only text as it is, or its values one behind the other. */
  ghost predicate UniqueLayout(t: Tuple, data: Data) {
    if |t| == 1 && t[0].TextKey? then data == t[0].text else KeysLayout(t, data)
  }

  ghost predicate KeysLayout(t: Tuple, data: Data) {
    if t == [] then data == []
    else exists n :: 0 <= n <= |data| && KeyLayout(t[0], data[..n]) && KeysLayout(t[1..], data[n..])
  }

  lemma {:induction false} KeysAreLaidOut(t: Tuple)
    requires Encodable(t)
    ensures KeysLayout(t, TupleBytes(t))
  {
    hide KeyLayout, IndexKeyBytes;
    if t != [] {
      KeyIsLaidOut(t[0]);
      KeysAreLaidOut(t[1..]);
      var first, rest := IndexKeyBytes(t[0]), TupleBytes(t[1..]);
      assert (first + rest)[..|first|] == first && (first + rest)[|first|..] == rest;
    }
  }

  lemma {:induction false} UniqueIsLaidOut(t: Tuple)
    requires Encodable(t)
    ensures UniqueLayout(t, UniqueKey(t))
  {
    hide KeysLayout, TupleBytes;
    KeysAreLaidOut(t);
  }

  /** A frame is refused exactly when its length or its count needs more than 32 bits. */
  lemma {:induction false} FrameLimit(shared: bool, rows: Frame)
    ensures FrameFits(shared, rows) <==> RowStart(shared, rows, |rows|) - 4 < 0x1_0000_0000 && |rows| < 0x1_0000_0000
  {
    RowsEnd(shared, rows);
  }

  // ---------------------------------------------------------------- what a logged change reads back as

  /** A committed change of one row: the table it is in, and what became of it. */
  datatype Change<V> = Change(typ: Data, what: Recovered<V>)

  /** How it is logged: a written row under its id with its bytes, a deleted one under the negated id with none. */
  function Logged<V>(c: Change<V>, encode: V -> Data): LogRow {
    match c.what
    case Written(id, v) => LogRow(c.typ, id, encode(v))
    case Removed(id) => LogRow(c.typ, -id, [])
  }

  function LoggedAll<V>(changes: seq<Change<V>>, encode: V -> Data): (rows: seq<LogRow>)
    ensures |rows| == |changes| && forall i :: 0 <= i < |rows| ==> rows[i] == Logged(changes[i], encode)
  {
    seq(|changes|, i requires 0 <= i < |changes| => Logged(changes[i], encode))
  }

  /** The changes of one table, in order. */
  function ChangesOf<V>(changes: seq<Change<V>>, typ: Data): seq<Recovered<V>> {
    if changes == [] then []
    else
      var last := changes[|changes| - 1];
      ChangesOf(changes[..|changes| - 1], typ) + if last.typ == typ then [last.what] else []
  }

  /** Ids are positive, and what was encoded decodes. */
  ghost predicate Sound<V>(c: Change<V>, encode: V -> Data, decode: Data -> Option<V>) {
    match c.what
    case Written(id, v) => 0 < id < TWO_63 && decode(encode(v)) == Some(v)
    case Removed(id) => 0 < id < TWO_63
  }

  ghost predicate AllSound<V>(changes: seq<Change<V>>, encode: V -> Data, decode: Data -> Option<V>) {
    forall i :: 0 <= i < |changes| ==> Sound(changes[i], encode, decode)
  }

  /** A logged change recovers as itself. */
  lemma {:induction false} LoggedRecovers<V>(c: Change<V>, encode: V -> Data, decode: Data -> Option<V>)
    requires Sound(c, encode, decode)
    ensures IsInt64(Logged(c, encode).id) && RecoverRow(Logged(c, encode), decode) == Ok(c.what)
  {
  }

  /** Nothing else does: no id, or a negated one with bytes, is malformed; so are bytes that do not decode. */
  lemma {:induction false} MalformedRefused<V>(r: LogRow, decode: Data -> Option<V>)
    requires IsInt64(r.id)
    ensures r.id == 0 || (r.id < 0 && r.row != []) ==> RecoverRow(r, decode) == Err(MalformedId)
    ensures r.id > 0 && decode(r.row) == None ==> RecoverRow(r, decode) == Err(MalformedRow)
  {
  }

  lemma {:induction false} LoggedOfType<V>(changes: seq<Change<V>>, encode: V -> Data, decode: Data -> Option<V>, typ: Data)
    requires AllSound(changes, encode, decode)
    ensures var rows := OfType(LoggedAll(changes, encode), typ);
            IdsFit(rows) && RecoverRows(rows, decode) == Ok(ChangesOf(changes, typ))
  {
    hide RecoverRow, Sound, Logged;
    if changes == [] {
      assert LoggedAll(changes, encode) == [];
    } else {
      var n := |changes| - 1;
      var before := LoggedAll(changes[..n], encode);
      LoggedOfType(changes[..n], encode, decode, typ);
      assert LoggedAll(changes, encode) == before + [Logged(changes[n], encode)];
      OfTypeLast(before, Logged(changes[n], encode), typ);
      LoggedRecovers(changes[n], encode, decode);
      LoggedKeepsType(changes[n], encode);
      var rows := OfType(before, typ);
      if changes[n].typ == typ {
        RecoverStep(rows, Logged(changes[n], encode), decode);
      } else {
        assert rows + [] == rows && ChangesOf(changes[..n], typ) + [] == ChangesOf(changes[..n], typ);
      }
    }
  }

  lemma {:induction false} LoggedKeepsType<V>(c: Change<V>, encode: V -> Data)
    ensures Logged(c, encode).typ == c.typ
  {
  }

  /** The frames of a run of transactions. */
  function FramesOf<V>(txs: seq<seq<Change<V>>>, encode: V -> Data): (frames: seq<Frame>)
    ensures |frames| == |txs| && forall i :: 0 <= i < |frames| ==> frames[i] == LoggedAll(txs[i], encode)
  {
    seq(|txs|, i requires 0 <= i < |txs| => LoggedAll(txs[i], encode))
  }

  function Together<V>(txs: seq<seq<Change<V>>>): seq<Change<V>> {
    if txs == [] then [] else Together(txs[..|txs| - 1]) + txs[|txs| - 1]
  }

  lemma {:induction false} FlattenLogged<V>(txs: seq<seq<Change<V>>>, encode: V -> Data)
    ensures Flatten(FramesOf(txs, encode)) == LoggedAll(Together(txs), encode)
  {
    hide Logged;
    if txs == [] {
    } else {
      var n := |txs| - 1;
      FlattenLogged(txs[..n], encode);
      FlattenAppend(FramesOf(txs[..n], encode), LoggedAll(txs[n], encode));
      assert FramesOf(txs, encode) == FramesOf(txs[..n], encode) + [LoggedAll(txs[n], encode)];
      assert LoggedAll(Together(txs[..n]) + txs[n], encode) == LoggedAll(Together(txs[..n]), encode) + LoggedAll(txs[n], encode);
    }
  }

  lemma {:induction false} TogetherSound<V>(txs: seq<seq<Change<V>>>, encode: V -> Data, decode: Data -> Option<V>)
    requires forall i :: 0 <= i < |txs| ==> AllSound(txs[i], encode, decode)
    ensures AllSound(Together(txs), encode, decode)
  {
    hide Sound;
    if txs != [] {
      TogetherSound(txs[..|txs| - 1], encode, decode);
    }
  }

  /** Wherever a crash cuts the log, replay gives every table exactly the changes of the transactions that were wholly written, in order. */
  lemma {:induction false} CrashKeepsTransactions<V>(shared: bool, typ: Data, txs: seq<seq<Change<V>>>, cut: nat, encode: V -> Data, decode: Data -> Option<V>)
    requires AllLoggable(shared, FramesOf(txs, encode)) && cut <= |LogBytes(shared, FramesOf(txs, encode))|
    requires forall i :: 0 <= i < |txs| ==> AllSound(txs[i], encode, decode)
    ensures var frames := FramesOf(txs, encode);
            var file := LogBytes(shared, frames)[..cut];
            IdsFit(Flatten(DurableFrames(shared, file)))
            && Replayed(shared, typ, file, decode) == Ok(ChangesOf(Together(txs[..WholeFrames(shared, frames, cut)]), typ))
  {
    hide *;
    var frames := FramesOf(txs, encode);
    var kept := txs[..WholeFrames(shared, frames, cut)];
    ReplayAfterCrash(shared, typ, frames, cut, decode);
    assert FramesOf(kept, encode) == frames[..WholeFrames(shared, frames, cut)];
    FlattenLogged(kept, encode);
    TogetherSound(kept, encode, decode);
    LoggedOfType(Together(kept), encode, decode, typ);
  }
}
