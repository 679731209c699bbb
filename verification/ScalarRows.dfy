/** The compact row codec: fixed-width integers, length-prefixed text and bytes, arrays and structs part by part. */
module ScalarRows {
  import opened Wrappers
  import opened Bytes

  /** Field types the codec knows; anything else sends the whole row to gob. */
  datatype Shape =
    | BoolShape
    | SignedShape(bits: nat)
    | UnsignedShape(bits: nat)
    | FloatShape
    | TextShape
    | BytesShape
    | ArrayShape(length: nat, element: Shape)
    | StructShape(fields: seq<Shape>)
    | OtherShape

  /** Field values. A float is its 64-bit pattern; a byte slice may be nil. */
  datatype Value =
    | BoolValue(b: bool)
    | SignedValue(i: int)
    | UnsignedValue(u: int)
    | FloatValue(pattern: int)
    | TextValue(text: Data)
    | BytesValue(data: Option<Data>)
    | Aggregate(items: seq<Value>)
    | OtherValue

  const MAX_INT := TWO_63 - 1

  function Power(bits: nat): (p: int)
    ensures p >= 1
  {
    if bits == 0 then 1 else 2 * Power(bits - 1)
  }

  predicate IsWidth(bits: nat) {
    bits == 8 || bits == 16 || bits == 32 || bits == 64
  }

  // ---------------------------------------------------------------- shapes

  predicate HasParts(shape: Shape) {
    shape.ArrayShape? || shape.StructShape?
  }

  function PartCount(shape: Shape): nat {
    match shape case ArrayShape(n, _) => n case StructShape(fields) => |fields| case _ => 0
  }

  function Part(shape: Shape, i: nat): (part: Shape)
    requires HasParts(shape) && i < PartCount(shape)
    ensures part < shape
  {
    match shape case ArrayShape(_, element) => element case StructShape(fields) => fields[i]
  }

  /** `v` is a value of this type. */
  ghost predicate Conforms(v: Value, shape: Shape)
    decreases shape
  {
    match shape
    case BoolShape => v.BoolValue?
    case SignedShape(bits) => v.SignedValue? && IsWidth(bits) && -Power(bits - 1) <= v.i < Power(bits - 1)
    case UnsignedShape(bits) => v.UnsignedValue? && IsWidth(bits) && 0 <= v.u < Power(bits)
    case FloatShape => v.FloatValue? && 0 <= v.pattern < TWO_64
    case TextShape => v.TextValue?
    case BytesShape => v.BytesValue?
    case ArrayShape(_, _) => v.Aggregate? && |v.items| == PartCount(shape) && forall i :: 0 <= i < |v.items| ==> Conforms(v.items[i], Part(shape, i))
    case StructShape(_) => v.Aggregate? && |v.items| == PartCount(shape) && forall i :: 0 <= i < |v.items| ==> Conforms(v.items[i], Part(shape, i))
    case OtherShape => v.OtherValue?
  }

  // ---------------------------------------------------------------- sizes

  /** How many parts a value still has to visit, and itself. */
  function Breadth(v: Value): nat {
    match v case Aggregate(items) => |items| + 1 case _ => 0
  }

  /** Encoded size, when the value is scalar all the way down. */
  function ScalarValueSize(v: Value): Option<nat>
    decreases v, Breadth(v)
  {
    match v
    case BoolValue(_) => Some(1)
    case SignedValue(_) => Some(8)
    case UnsignedValue(_) => Some(8)
    case FloatValue(_) => Some(8)
    case TextValue(text) => if |text| > MAX_UINT32 then None else Some(4 + |text|)
    case BytesValue(None) => Some(4)
    case BytesValue(Some(data)) => if |data| >= MAX_UINT32 then None else Some(4 + |data|)
    case Aggregate(items) => PartsSize(v, |items|)
    case OtherValue => None
  }

  function PartsSize(v: Value, n: nat): Option<nat>
    requires v.Aggregate? && n <= |v.items|
    decreases v, n
  {
    if n == 0 then Some(0)
    else
      match (PartsSize(v, n - 1), ScalarValueSize(v.items[n - 1]))
      case (Some(size), Some(part)) => if size > MAX_INT - part then None else Some(size + part)
      case _ => None
  }

  // ---------------------------------------------------------------- encoding

  predicate InRange(v: Value) {
    match v
    case SignedValue(i) => IsInt64(i)
    case UnsignedValue(u) => 0 <= u < TWO_64
    case FloatValue(p) => 0 <= p < TWO_64
    case _ => true
  }

  /** Scalar all the way down, with every number in its machine range. */
  ghost predicate Encodable(v: Value)
    decreases v
  {
    && ScalarValueSize(v).Some? && InRange(v)
    && (v.Aggregate? ==> forall i :: 0 <= i < |v.items| ==> Encodable(v.items[i]))
  }

  function EncodedLength(data: Option<Data>): int {
    match data case None => 0 case Some(d) => |d| + 1
  }

  ghost function Encoded(v: Value): Data
    requires Encodable(v)
    decreases v, Breadth(v)
  {
    match v
    case BoolValue(b) => [if b then 1 else 0]
    case SignedValue(i) => Put64(Unsigned64(i))
    case UnsignedValue(u) => Put64(u)
    case FloatValue(p) => Put64(p)
    case TextValue(text) => Put32(|text|) + text
    case BytesValue(data) => Put32(EncodedLength(data)) + if data.Some? then data.value else []
    case Aggregate(items) => EncodedFrom(v, 0)
  }

  /** The parts from the `i`-th on. */
  ghost function EncodedFrom(v: Value, i: nat): Data
    requires Encodable(v) && v.Aggregate? && i <= |v.items|
    decreases v, |v.items| - i
  {
    if i == |v.items| then []
    else
      Encoded(v.items[i]) + EncodedFrom(v, i + 1)
  }

  /** The encoder writes exactly the size announced. */
  lemma {:induction false} EncodedSize(v: Value)
    requires Encodable(v)
    ensures |Encoded(v)| == ScalarValueSize(v).value
    decreases v, Breadth(v)
  {
    if v.Aggregate? {
      PartsEncodedSize(v, 0);
    }
  }

  lemma {:induction false} PartsEncodedSize(v: Value, i: nat)
    requires Encodable(v) && v.Aggregate? && i <= |v.items| && PartsSize(v, i).Some?
    ensures PartsSize(v, i).value + |EncodedFrom(v, i)| == PartsSize(v, |v.items|).value
    decreases v, |v.items| - i
  {
    if i < |v.items| {
      EncodedSize(v.items[i]);
      PartsPrefix(v, |v.items|, i + 1);
      PartsEncodedSize(v, i + 1);
    }
  }

  lemma {:induction false} PartsPrefix(v: Value, n: nat, i: nat)
    requires v.Aggregate? && i <= n <= |v.items| && PartsSize(v, n).Some?
    ensures PartsSize(v, i).Some? && PartsSize(v, i).value <= PartsSize(v, n).value
    decreases n
  {
    if i < n {
      PartsPrefix(v, n - 1, i);
    }
  }

  /** Write a value into a zeroed buffer at an offset, part by part. A false bool leaves its zero byte alone. */
  method EncodeScalarValue(out: array<Byte>, at: nat, v: Value) returns (n: nat)
    requires Encodable(v) && at + |Encoded(v)| <= out.Length
    requires forall k :: at <= k < at + |Encoded(v)| ==> out[k] == 0
    modifies out
    ensures n == |Encoded(v)|
    ensures out[..] == old(out[..at]) + Encoded(v) + old(out[at + |Encoded(v)|..])
    decreases v
  {
    ghost var bytes := Encoded(v);
    match v {
      case BoolValue(b) =>
        if b {
          out[at] := 1;
        }
        n := 1;
      case SignedValue(i) =>
        CopyInto(out, at, Put64(Unsigned64(i)));
        n := 8;
      case UnsignedValue(u) =>
        CopyInto(out, at, Put64(u));
        n := 8;
      case FloatValue(p) =>
        CopyInto(out, at, Put64(p));
        n := 8;
      case TextValue(text) =>
        CopyInto(out, at, Put32(|text|));
        CopyInto(out, at + 4, text);
        n := 4 + |text|;
      case BytesValue(data) =>
        if data == None {
          CopyInto(out, at, Put32(0));
          n := 4;
        } else {
          CopyInto(out, at, Put32(|data.value| + 1));
          CopyInto(out, at + 4, data.value);
          n := 4 + |data.value|;
        }
      case Aggregate(items) =>
        n := EncodeScalarAggregate(out, at, v);
      case OtherValue =>
        assert false;
    }
  }

  method EncodeScalarAggregate(out: array<Byte>, at: nat, v: Value) returns (n: nat)
    requires Encodable(v) && v.Aggregate? && at + |EncodedFrom(v, 0)| <= out.Length
    requires forall k :: at <= k < at + |EncodedFrom(v, 0)| ==> out[k] == 0
    modifies out
    ensures n == |EncodedFrom(v, 0)|
    ensures out[..] == old(out[..at]) + EncodedFrom(v, 0) + old(out[at + |EncodedFrom(v, 0)|..])
    decreases v, 0
  {
    hide *;
    n := 0;
    ghost var whole := out[..];
    ghost var done: Data := [];
    assert done + EncodedFrom(v, 0) == EncodedFrom(v, 0);
    assert whole == whole[..at] + done + whole[at..];
    var i := 0;
    while i < |v.items|
      invariant 0 <= i <= |v.items| && |done| == n && done + EncodedFrom(v, i) == EncodedFrom(v, 0)
      invariant out.Length == |whole| && at + n <= |whole| && out[..] == whole[..at] + done + whole[at + n..]
    {
      PartStep(v, i);
      ghost var part, rest := Encoded(v.items[i]), EncodedFrom(v, i + 1);
      assert done + (part + rest) == done + part + rest;
      StillZero(whole, at, done, out[..], |EncodedFrom(v, 0)|);
      ghost var before := out[..];
      var m := EncodeScalarValue(out, at + n, v.items[i]);
      Spliced(whole, at, done, part, before, out[..]);
      done := done + part;
      n := n + m;
      i := i + 1;
    }
    PartsDone(v);
    assert done + [] == done;
  }

  lemma {:induction false} PartStep(v: Value, i: nat)
    requires Encodable(v) && v.Aggregate? && i < |v.items|
    ensures Encodable(v.items[i]) && EncodedFrom(v, i) == Encoded(v.items[i]) + EncodedFrom(v, i + 1)
  {
  }

  lemma {:induction false} PartsDone(v: Value)
    requires Encodable(v) && v.Aggregate?
    ensures EncodedFrom(v, |v.items|) == []
  {
  }

  /** What lies behind the parts written so far is still zero. */
  lemma {:induction false} StillZero(whole: Data, at: nat, done: Data, out: Data, size: nat)
    requires at + size <= |whole| && |done| <= size && out == whole[..at] + done + whole[at + |done|..]
    requires forall k :: at <= k < at + size ==> whole[k] == 0
    ensures forall k :: at + |done| <= k < at + size ==> out[k] == 0
  {
  }

  lemma {:induction false} Spliced(whole: Data, at: nat, done: Data, part: Data, before: Data, after: Data)
    requires at + |done| + |part| <= |whole| && before == whole[..at] + done + whole[at + |done|..]
    requires after == before[..at + |done|] + part + before[at + |done| + |part|..]
    ensures after == whole[..at] + (done + part) + whole[at + |done + part|..]
  {
  }

  // ---------------------------------------------------------------- decoding

  datatype Decoded = Decoded(value: Value, size: nat)

  datatype DecodedParts = DecodedParts(items: seq<Value>, size: nat)

  /** An integer of fewer bits keeps its low ones, as a narrowing store does. */
  function WrapUnsigned(bits: nat, u: int): int {
    u % Power(bits)
  }

  function WrapSigned(bits: nat, i: int): int
    requires bits > 0
  {
    var low := i % Power(bits);
    if low < Power(bits - 1) then low else low - Power(bits)
  }

  function DecodeScalarValue(data: Data, shape: Shape): (r: Option<Decoded>)
    ensures r.Some? ==> r.value.size <= |data|
    decreases shape, PartCount(shape) + 1
  {
    match shape
    case BoolShape => if |data| < 1 || data[0] > 1 then None else Some(Decoded(BoolValue(data[0] == 1), 1))
    case SignedShape(bits) =>
      if |data| < 8 || bits == 0 then None else Some(Decoded(SignedValue(WrapSigned(bits, Signed64(Get64(data)))), 8))
    case UnsignedShape(bits) => if |data| < 8 then None else Some(Decoded(UnsignedValue(WrapUnsigned(bits, Get64(data))), 8))
    case FloatShape => if |data| < 8 then None else Some(Decoded(FloatValue(Get64(data)), 8))
    case TextShape =>
      if |data| < 4 || Get32(data) > |data| - 4 then None
      else Some(Decoded(TextValue(data[4..4 + Get32(data)]), 4 + Get32(data)))
    case BytesShape =>
      if |data| < 4 then None
      else if Get32(data) == 0 then Some(Decoded(BytesValue(None), 4))
      else if Get32(data) - 1 > |data| - 4 then None
      else Some(Decoded(BytesValue(Some(data[4..3 + Get32(data)])), 3 + Get32(data)))
    case ArrayShape(_, _) => WholeAggregate(DecodeParts(data, shape, 0))
    case StructShape(_) => WholeAggregate(DecodeParts(data, shape, 0))
    case OtherShape => None
  }

  function WholeAggregate(parts: Option<DecodedParts>): Option<Decoded> {
    match parts case None => None case Some(p) => Some(Decoded(Aggregate(p.items), p.size))
  }

  /** The parts from the `i`-th on, each where the one before it ended. */
  function DecodeParts(data: Data, shape: Shape, i: nat): (r: Option<DecodedParts>)
    requires HasParts(shape) && i <= PartCount(shape)
    ensures r.Some? ==> r.value.size <= |data|
    decreases shape, PartCount(shape) - i
  {
    if i == PartCount(shape) then Some(DecodedParts([], 0))
    else
      match DecodeScalarValue(data, Part(shape, i))
      case None => None
      case Some(first) =>
        match DecodeParts(data[first.size..], shape, i + 1)
        case None => None
        case Some(rest) => Some(DecodedParts([first.value] + rest.items, first.size + rest.size))
  }

  lemma {:induction false} PowerIs(bits: nat)
    requires IsWidth(bits)
    ensures Power(8) == 0x100 && Power(16) == 0x1_0000 && Power(32) == TWO_32 && Power(64) == TWO_64
    ensures Power(7) == 0x80 && Power(15) == 0x8000 && Power(31) == 0x8000_0000 && Power(63) == TWO_63
  {
    assert Power(7) == 0x80 && Power(8) == 0x100;
    assert Power(12) == 16 * Power(8) && Power(15) == 8 * Power(12) && Power(16) == 2 * Power(15);
    assert Power(20) == 16 * Power(16) && Power(24) == 16 * Power(20) && Power(28) == 16 * Power(24);
    assert Power(31) == 8 * Power(28) && Power(32) == 2 * Power(31);
    assert Power(36) == 16 * Power(32) && Power(40) == 16 * Power(36) && Power(44) == 16 * Power(40) && Power(48) == 16 * Power(44);
    assert Power(52) == 16 * Power(48) && Power(56) == 16 * Power(52) && Power(60) == 16 * Power(56);
    assert Power(63) == 8 * Power(60) && Power(64) == 2 * Power(63);
  }

  lemma {:induction false} WrapKeeps(bits: nat, i: int)
    requires IsWidth(bits)
    ensures -Power(bits - 1) <= i < Power(bits - 1) ==> WrapSigned(bits, i) == i && IsInt64(i)
    ensures 0 <= i < Power(bits) ==> WrapUnsigned(bits, i) == i && i < TWO_64
  {
    hide Power;
    PowerIs(bits);
    if bits == 8 {
      assert Power(7) == 0x80;
    } else if bits == 16 {
      assert Power(15) == 0x8000;
    } else if bits == 32 {
      assert Power(31) == 0x8000_0000;
    } else {
      assert Power(63) == TWO_63;
    }
  }

  /** Decoding an encoding gives the value back and consumes exactly it, whatever follows. */
  lemma {:induction false} RoundTrip(v: Value, shape: Shape, rest: Data)
    requires Encodable(v) && Conforms(v, shape)
    ensures DecodeScalarValue(Encoded(v) + rest, shape) == Some(Decoded(v, |Encoded(v)|))
    decreases shape, PartCount(shape) + 1
  {
    if HasParts(shape) {
      PartsRoundTrip(v, shape, 0, rest);
    } else {
      LeafRoundTrip(v, shape, rest);
    }
  }

  lemma {:induction false} LeafRoundTrip(v: Value, shape: Shape, rest: Data)
    requires Encodable(v) && Conforms(v, shape) && !HasParts(shape)
    ensures DecodeScalarValue(Encoded(v) + rest, shape) == Some(Decoded(v, |Encoded(v)|))
  {
    hide Put32, Put64, Get32, Get64, WrapSigned, WrapUnsigned, Power, Unsigned64, Signed64;
    match v
    case SignedValue(i) =>
      WrapKeeps(shape.bits, i);
      GetPut64(Unsigned64(i), rest);
      SignedBack(i);
    case UnsignedValue(u) =>
      WrapKeeps(shape.bits, u);
      GetPut64(u, rest);
    case FloatValue(p) => GetPut64(p, rest);
    case TextValue(text) =>
      assert Put32(|text|) + text + rest == Put32(|text|) + (text + rest);
      GetPut32(|text|, text + rest);
    case BytesValue(data) =>
      var text := if data.Some? then data.value else [];
      assert Encoded(v) + rest == Put32(EncodedLength(data)) + (text + rest);
      GetPut32(EncodedLength(data), text + rest);
    case _ =>
  }

  lemma {:induction false} PartsRoundTrip(v: Value, shape: Shape, i: nat, rest: Data)
    requires Encodable(v) && Conforms(v, shape) && HasParts(shape) && i <= PartCount(shape)
    ensures DecodeParts(EncodedFrom(v, i) + rest, shape, i) == Some(DecodedParts(v.items[i..], |EncodedFrom(v, i)|))
    decreases shape, PartCount(shape) - i
  {
    hide Conforms, Encodable, Encoded, DecodeScalarValue, Part;
    ConformsParts(v, shape);
    if i < PartCount(shape) {
      PartStep(v, i);
      var first, more := Encoded(v.items[i]), EncodedFrom(v, i + 1);
      var data := EncodedFrom(v, i) + rest;
      assert data == first + (more + rest);
      PartConforms(v, shape, i);
      RoundTrip(v.items[i], Part(shape, i), more + rest);
      assert data[|first|..] == more + rest;
      PartsRoundTrip(v, shape, i + 1, rest);
      assert v.items[i..] == [v.items[i]] + v.items[i + 1..];
    } else {
      PartsDone(v);
      assert v.items[i..] == [];
    }
  }

  lemma {:induction false} ConformsParts(v: Value, shape: Shape)
    requires Conforms(v, shape) && HasParts(shape)
    ensures v.Aggregate? && |v.items| == PartCount(shape)
  {
  }

  lemma {:induction false} PartConforms(v: Value, shape: Shape, i: nat)
    requires Conforms(v, shape) && HasParts(shape) && i < PartCount(shape)
    ensures v.Aggregate? && i < |v.items| && Conforms(v.items[i], Part(shape, i)) && Part(shape, i) < shape
  {
  }

  /** No proper prefix of an encoding decodes. */
  lemma {:induction false} PrefixRejected(v: Value, shape: Shape, k: nat)
    requires Encodable(v) && Conforms(v, shape) && k < |Encoded(v)|
    ensures DecodeScalarValue(Encoded(v)[..k], shape) == None
    decreases shape, PartCount(shape) + 1
  {
    if HasParts(shape) {
      PartsPrefixRejected(v, shape, 0, k);
    } else {
      LeafPrefixRejected(v, shape, k);
    }
  }

  lemma {:induction false} LeafPrefixRejected(v: Value, shape: Shape, k: nat)
    requires Encodable(v) && Conforms(v, shape) && !HasParts(shape) && k < |Encoded(v)|
    ensures DecodeScalarValue(Encoded(v)[..k], shape) == None
  {
    hide Put32, Put64, Get32, Get64, WrapSigned, WrapUnsigned, Power, Unsigned64, Signed64;
    if k >= 4 {
      match v
      case TextValue(text) =>
        assert Encoded(v)[..k] == Put32(|text|) + text[..k - 4];
        GetPut32(|text|, text[..k - 4]);
      case BytesValue(data) =>
        if data.Some? {
          assert Encoded(v)[..k] == Put32(|data.value| + 1) + data.value[..k - 4];
          GetPut32(|data.value| + 1, data.value[..k - 4]);
        }
      case _ =>
    }
  }

  lemma {:induction false} PartsPrefixRejected(v: Value, shape: Shape, i: nat, k: nat)
    requires Encodable(v) && Conforms(v, shape) && HasParts(shape) && i <= PartCount(shape)
    requires v.Aggregate? && |v.items| == PartCount(shape) && k < |EncodedFrom(v, i)|
    ensures DecodeParts(EncodedFrom(v, i)[..k], shape, i) == None
    decreases shape, PartCount(shape) - i
  {
    hide Conforms, Encodable, Encoded, DecodeScalarValue, Part;
    if i == PartCount(shape) {
      PartsDone(v);
    } else {
      PartStep(v, i);
      PartConforms(v, shape, i);
      var first, more := Encoded(v.items[i]), EncodedFrom(v, i + 1);
      var data := EncodedFrom(v, i)[..k];
      if k < |first| {
        assert data == first[..k];
        PrefixRejected(v.items[i], Part(shape, i), k);
      } else {
        assert data == first + more[..k - |first|];
        RoundTrip(v.items[i], Part(shape, i), more[..k - |first|]);
        assert data[|first|..] == more[..k - |first|];
        PartsPrefixRejected(v, shape, i + 1, k - |first|);
      }
    }
  }

  // ---------------------------------------------------------------- whole rows

  const ROW_ENCODING_GOB: Byte := 0
  const ROW_ENCODING_SCALAR: Byte := 1

  /** The size of a compactly encoded row; only structs that are scalar all through have one. */
  function ScalarRowSize(row: Value): Option<nat> {
    match ScalarValueSize(row)
    case None => None
    case Some(size) => if !row.Aggregate? || size == MAX_INT then None else Some(size + 1)
  }

  /** The compact encoding of a row. `None` leaves the row to gob, which is not part of this model. */
  method EncodeRow(row: Value) returns (r: Option<array<Byte>>)
    requires ScalarValueSize(row).Some? ==> Encodable(row)
    ensures r.Some? <==> ScalarRowSize(row).Some?
    ensures r.Some? ==> fresh(r.value) && r.value[..] == [ROW_ENCODING_SCALAR] + Encoded(row)
  {
    var size := ScalarRowSize(row);
    if size == None {
      return None;
    }
    EncodedSize(row);
    var out := new Byte[size.value](_ => 0);
    out[0] := ROW_ENCODING_SCALAR;
    var n := EncodeScalarValue(out, 1, row);
    assert out[1 + n..] == [];
    r := Some(out);
  }

  function DecodeScalarRow(data: Data, shape: Shape): Option<Value> {
    match DecodeScalarValue(data, shape)
    case None => None
    case Some(d) => if d.size != |data| then None else Some(d.value)
  }

  function DecodeRow(data: Data, shape: Shape, gob: Data -> Option<Value>): Option<Value> {
    if data == [] then None
    else if data[0] == ROW_ENCODING_GOB then gob(data[1..])
    else if data[0] == ROW_ENCODING_SCALAR then DecodeScalarRow(data[1..], shape)
    else None
  }

  /** Rows come back as they were, and a row cut anywhere is refused. */
  lemma {:induction false} RowRoundTrip(row: Value, shape: Shape, gob: Data -> Option<Value>, k: nat)
    requires Encodable(row) && Conforms(row, shape) && k <= |Encoded(row)|
    ensures var bytes := [ROW_ENCODING_SCALAR] + Encoded(row);
            DecodeRow(bytes, shape, gob) == Some(row) && DecodeRow(bytes[..k], shape, gob) == None
  {
    var bytes := [ROW_ENCODING_SCALAR] + Encoded(row);
    hide Encoded, DecodeScalarValue, Conforms, Encodable;
    RoundTrip(row, shape, []);
    assert Encoded(row) + [] == Encoded(row) && bytes[1..] == Encoded(row);
    if k > 0 {
      assert bytes[..k][1..] == Encoded(row)[..k - 1];
      PrefixRejected(row, shape, k - 1);
    }
  }

  /** Distinct rows have distinct encodings; in particular a nil byte slice is not an empty one. */
  lemma {:induction false} EncodedInjective(a: Value, b: Value, shape: Shape)
    requires Encodable(a) && Encodable(b) && Conforms(a, shape) && Conforms(b, shape) && Encoded(a) == Encoded(b)
    ensures a == b
  {
    RoundTrip(a, shape, []);
    RoundTrip(b, shape, []);
  }

  // ---------------------------------------------------------------- accepted bytes

  /** No integer narrower than its eight encoded bytes. */
  ghost predicate FullWidth(shape: Shape)
    decreases shape
  {
    match shape
    case SignedShape(bits) => bits == 64
    case UnsignedShape(bits) => bits == 64
    case ArrayShape(_, element) => FullWidth(element)
    case StructShape(fields) => forall i :: 0 <= i < |fields| ==> FullWidth(fields[i])
    case _ => true
  }

  ghost predicate BytesOf(v: Value, data: Data) {
    Encodable(v) && Encoded(v) == data
  }

  /** Without narrow integers the decoder accepts nothing but encodings, provided sizes stay in machine range. */
  lemma {:induction false} AcceptedIsEncoded(data: Data, shape: Shape)
    requires FullWidth(shape) && |data| <= MAX_UINT32 && DecodeScalarValue(data, shape).Some?
    ensures var d := DecodeScalarValue(data, shape).value; BytesOf(d.value, data[..d.size]) && Conforms(d.value, shape)
    decreases shape, PartCount(shape) + 1
  {
    hide *;
    if HasParts(shape) {
      AggregateDecodes(data, shape);
      PartsAccepted(data, shape, 0);
      var parts := DecodeParts(data, shape, 0).value;
      AggregateEncoded(parts.items, data[..parts.size]);
      assert forall j :: 0 <= j < |parts.items| ==> Conforms(parts.items[j], Part(shape, 0 + j));
      AggregateConforms(parts.items, shape);
    } else {
      LeafAccepted(data, shape);
    }
  }

  lemma {:induction false} AggregateDecodes(data: Data, shape: Shape)
    requires HasParts(shape)
    ensures DecodeScalarValue(data, shape) == WholeAggregate(DecodeParts(data, shape, 0))
    ensures var parts := DecodeParts(data, shape, 0);
            && (WholeAggregate(parts).Some? <==> parts.Some?)
            && (parts.Some? ==> WholeAggregate(parts).value == Decoded(Aggregate(parts.value.items), parts.value.size))
  {
  }

  lemma {:induction false} LeafAccepted(data: Data, shape: Shape)
    requires FullWidth(shape) && |data| <= MAX_UINT32 && !HasParts(shape) && DecodeScalarValue(data, shape).Some?
    ensures var d := DecodeScalarValue(data, shape).value; BytesOf(d.value, data[..d.size]) && Conforms(d.value, shape)
  {
    hide Put32, Put64, Get32, Get64, Power, Unsigned64, Signed64;
    if |data| >= 4 {
      PutGet32(data);
    }
    if |data| >= 8 {
      PutGet64(data);
      PowerIs(64);
      FullWraps(Get64(data));
    }
    match shape
    case TextShape => assert data[..4 + Get32(data)] == data[..4] + data[4..4 + Get32(data)];
    case BytesShape =>
      if Get32(data) > 0 {
        assert data[..3 + Get32(data)] == data[..4] + data[4..3 + Get32(data)];
      }
    case _ =>
  }

  lemma {:induction false} FullWraps(u: int)
    requires 0 <= u < TWO_64
    ensures WrapUnsigned(64, u) == u && WrapSigned(64, Signed64(u)) == Signed64(u)
  {
    PowerIs(64);
    WrapKeeps(64, u);
    WrapKeeps(64, Signed64(u));
  }

  /** The bytes of a list of parts, from the first. */
  ghost predicate PartsOf(items: seq<Value>, data: Data)
    decreases |items|
  {
    if items == [] then data == []
    else exists n: nat :: n <= |data| && BytesOf(items[0], data[..n]) && PartsOf(items[1..], data[n..])
  }

  lemma {:induction false} PartsAccepted(data: Data, shape: Shape, i: nat)
    requires FullWidth(shape) && |data| <= MAX_UINT32 && HasParts(shape) && i <= PartCount(shape) && DecodeParts(data, shape, i).Some?
    ensures var p := DecodeParts(data, shape, i).value;
            && PartsOf(p.items, data[..p.size]) && |p.items| == PartCount(shape) - i
            && forall j :: 0 <= j < |p.items| ==> Conforms(p.items[j], Part(shape, i + j))
    decreases shape, PartCount(shape) - i
  {
    hide BytesOf, Conforms, DecodeScalarValue;
    if i < PartCount(shape) {
      PartFull(shape, i);
      var first := DecodeScalarValue(data, Part(shape, i)).value;
      AcceptedIsEncoded(data, Part(shape, i));
      PartsAccepted(data[first.size..], shape, i + 1);
      var rest := DecodeParts(data[first.size..], shape, i + 1).value;
      var p := DecodeParts(data, shape, i).value;
      assert p.items[1..] == rest.items;
      assert data[..p.size][..first.size] == data[..first.size];
      assert data[..p.size][first.size..] == data[first.size..][..rest.size];
      forall j | 0 <= j < |p.items| ensures Conforms(p.items[j], Part(shape, i + j)) {
        if j > 0 {
          assert p.items[j] == rest.items[j - 1] && i + j == i + 1 + (j - 1);
        }
      }
    }
  }

  lemma {:induction false} PartFull(shape: Shape, i: nat)
    requires FullWidth(shape) && HasParts(shape) && i < PartCount(shape)
    ensures FullWidth(Part(shape, i)) && Part(shape, i) < shape
  {
  }

  lemma {:induction false} AggregateConforms(items: seq<Value>, shape: Shape)
    requires HasParts(shape) && |items| == PartCount(shape) && forall j :: 0 <= j < |items| ==> Conforms(items[j], Part(shape, j))
    ensures Conforms(Aggregate(items), shape)
  {
    hide Part;
  }

  lemma {:induction false} PartsEncodable(v: Value, n: nat, i: nat, data: Data)
    requires v.Aggregate? && i <= |v.items| && PartsOf(v.items[i..], data)
    ensures forall j :: i <= j < |v.items| ==> Encodable(v.items[j])
    decreases |v.items| - i
  {
    hide Encodable;
    if i < |v.items| {
      var m: nat :| m <= |data| && BytesOf(v.items[i..][0], data[..m]) && PartsOf(v.items[i..][1..], data[m..]);
      assert v.items[i..][1..] == v.items[i + 1..];
      PartsEncodable(v, n, i + 1, data[m..]);
    }
  }

  /** Sizes of the parts add up within the bytes they came from. */
  lemma {:induction false} PartsSizeIs(v: Value, i: nat, data: Data)
    requires v.Aggregate? && i <= |v.items| && PartsOf(v.items[i..], data) && PartsSize(v, i).Some?
    requires PartsSize(v, i).value + |data| <= MAX_UINT32
    ensures PartsSize(v, |v.items|).Some?
    decreases |v.items| - i
  {
    hide Encodable, Encoded;
    if i < |v.items| {
      var m: nat :| m <= |data| && BytesOf(v.items[i..][0], data[..m]) && PartsOf(v.items[i..][1..], data[m..]);
      EncodedSize(v.items[i]);
      EncodableSized(v.items[i]);
      assert v.items[i..][1..] == v.items[i + 1..];
      PartsSizeIs(v, i + 1, data[m..]);
    }
  }

  lemma {:induction false} EncodableSized(v: Value)
    requires Encodable(v)
    ensures ScalarValueSize(v).Some?
  {
  }

  lemma {:induction false} PartsBytes(v: Value, i: nat, data: Data)
    requires Encodable(v) && v.Aggregate? && i <= |v.items| && PartsOf(v.items[i..], data)
    ensures EncodedFrom(v, i) == data
    decreases |v.items| - i
  {
    hide Encodable, Encoded;
    if i < |v.items| {
      var m: nat :| m <= |data| && BytesOf(v.items[i..][0], data[..m]) && PartsOf(v.items[i..][1..], data[m..]);
      PartStep(v, i);
      assert v.items[i..][1..] == v.items[i + 1..];
      PartsBytes(v, i + 1, data[m..]);
      assert data == data[..m] + data[m..];
    } else {
      PartsDone(v);
    }
  }

  lemma {:induction false} AggregateEncoded(items: seq<Value>, data: Data)
    requires PartsOf(items, data) && |data| <= MAX_UINT32
    ensures BytesOf(Aggregate(items), data)
  {
    var v := Aggregate(items);
    assert v.items[0..] == items;
    PartsEncodable(v, 0, 0, data);
    PartsSizeIs(v, 0, data);
    PartsBytes(v, 0, data);
  }
}
