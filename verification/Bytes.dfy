/** Big-endian fixed-width integers over byte strings. */
module Bytes {

  type Byte = b: int | 0 <= b < 256

  type Data = seq<Byte>

  const MAX_UINT32 := 0xFFFF_FFFF
  const TWO_32 := 0x1_0000_0000
  const TWO_63 := 0x8000_0000_0000_0000
  const TWO_64 := 0x1_0000_0000_0000_0000

  function Put32(v: int): (out: Data)
    requires 0 <= v <= MAX_UINT32
    ensures |out| == 4
  {
    [v / 0x100_0000, v / 0x1_0000 % 256, v / 256 % 256, v % 256]
  }

  function Get32(data: Data): (v: int)
    requires |data| >= 4
    ensures 0 <= v <= MAX_UINT32
  {
    (data[0] as int) * 0x100_0000 + (data[1] as int) * 0x1_0000 + (data[2] as int) * 256 + (data[3] as int)
  }

  lemma {:induction false} GetPut32(v: int, rest: Data)
    requires 0 <= v <= MAX_UINT32
    ensures Get32(Put32(v) + rest) == v
  {
    var data := Put32(v) + rest;
    assert data[0] == v / 0x100_0000 && data[1] == v / 0x1_0000 % 256 && data[2] == v / 256 % 256 && data[3] == v % 256;
    var high, middle := v / 0x1_0000, v / 256;
    assert high == (v / 0x100_0000) * 256 + high % 256;
    assert middle == high * 256 + middle % 256;
    assert v == middle * 256 + v % 256;
  }

  lemma {:induction false} PutGet32(data: Data)
    requires |data| >= 4
    ensures Put32(Get32(data)) == data[..4]
  {
    var v, a, b, c := Get32(data), data[0] as int, data[1] as int, data[2] as int;
    assert v / 256 == a * 0x1_0000 + b * 256 + c;
    assert v / 0x1_0000 == a * 256 + b;
  }

  function Put64(v: int): (out: Data)
    requires 0 <= v < TWO_64
    ensures |out| == 8
  {
    Put32(v / TWO_32) + Put32(v % TWO_32)
  }

  function Get64(data: Data): (v: int)
    requires |data| >= 8
    ensures 0 <= v < TWO_64
  {
    Get32(data) * TWO_32 + Get32(data[4..])
  }

  lemma {:induction false} GetPut64(v: int, rest: Data)
    requires 0 <= v < TWO_64
    ensures Get64(Put64(v) + rest) == v
  {
    var high, low := v / TWO_32, v % TWO_32;
    assert Put64(v) + rest == Put32(high) + (Put32(low) + rest);
    GetPut32(high, Put32(low) + rest);
    assert (Put64(v) + rest)[4..] == Put32(low) + rest;
    GetPut32(low, rest);
  }

  lemma {:induction false} PutGet64(data: Data)
    requires |data| >= 8
    ensures Put64(Get64(data)) == data[..8]
  {
    var high, low := Get32(data), Get32(data[4..]);
    assert (high * TWO_32 + low) / TWO_32 == high && (high * TWO_32 + low) % TWO_32 == low;
    PutGet32(data);
    PutGet32(data[4..]);
    assert data[..8] == data[..4] + data[4..][..4];
  }

  predicate IsInt64(i: int) {
    -TWO_63 <= i < TWO_63
  }

  /** The bit pattern of a signed 64-bit integer. */
  function Unsigned64(i: int): (u: int)
    requires IsInt64(i)
    ensures 0 <= u < TWO_64
  {
    if i < 0 then i + TWO_64 else i
  }

  function Signed64(u: int): (i: int)
    requires 0 <= u < TWO_64
    ensures IsInt64(i) && Unsigned64(i) == u
  {
    if u < TWO_63 then u else u - TWO_64
  }

  lemma {:induction false} SignedBack(i: int)
    requires IsInt64(i)
    ensures Signed64(Unsigned64(i)) == i
  {
  }

  /** Negation as a 64-bit machine does it: the least integer is its own negation. */
  function Negate64(i: int): (n: int)
    requires IsInt64(i)
    ensures IsInt64(n) && (i != -TWO_63 ==> n == -i)
  {
    if i == -TWO_63 then i else -i
  }

  method CopyInto(out: array<Byte>, offset: nat, data: Data)
    requires offset + |data| <= out.Length
    modifies out
    ensures out[..] == old(out[..])[..offset] + data + old(out[..])[offset + |data|..]
  {
    var i := 0;
    while i < |data|
      invariant 0 <= i <= |data|
      invariant out[..] == old(out[..])[..offset] + data[..i] + old(out[..])[offset + i..]
    {
      out[offset + i] := data[i];
      i := i + 1;
    }
    assert data[..i] == data;
  }
}
