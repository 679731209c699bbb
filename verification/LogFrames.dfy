/** The binary frames of both write-ahead logs: one length-prefixed frame per transaction, and what a torn tail leaves. */
module LogFrames {
  import opened Wrappers
  import opened Bytes

  /** One logged row. The per-type log leaves the type out; the shared one writes it. */
  datatype LogRow = LogRow(typ: Data, id: int, row: Data)

  type Frame = seq<LogRow>

  /** Bytes of a row before its variable part. */
  function RowHeader(shared: bool): nat {
    if shared then 16 else 12
  }

  ghost predicate RowFits(shared: bool, r: LogRow) {
    IsInt64(r.id) && |r.typ| <= MAX_UINT32 && |r.row| <= MAX_UINT32 && (!shared ==> r.typ == [])
  }

  ghost predicate RowsFit(shared: bool, rows: Frame) {
    forall i :: 0 <= i < |rows| ==> RowFits(shared, rows[i])
  }

  function RowSize(shared: bool, r: LogRow): nat {
    RowHeader(shared) + |r.typ| + |r.row|
  }

  function RowsSize(shared: bool, rows: Frame): nat {
    if rows == [] then 0 else RowSize(shared, rows[0]) + RowsSize(shared, rows[1..])
  }

  /** The body is at most what its length prefix can say. */
  predicate FrameFits(shared: bool, rows: Frame) {
    4 + RowsSize(shared, rows) <= MAX_UINT32 && |rows| <= MAX_UINT32
  }

  ghost function RowBytes(shared: bool, r: LogRow): (out: Data)
    requires RowFits(shared, r)
    ensures |out| == RowSize(shared, r)
  {
    (if shared then Put32(|r.typ|) else []) + FieldBytes(r)
  }

  ghost function RowsBytes(shared: bool, rows: Frame): (out: Data)
    requires RowsFit(shared, rows)
    ensures |out| == RowsSize(shared, rows)
  {
    if rows == [] then [] else RowBytes(shared, rows[0]) + RowsBytes(shared, rows[1..])
  }

  ghost function BodyBytes(shared: bool, rows: Frame): (out: Data)
    requires RowsFit(shared, rows) && |rows| <= MAX_UINT32
    ensures |out| == 4 + RowsSize(shared, rows)
  {
    Put32(|rows|) + RowsBytes(shared, rows)
  }

  /** A frame as it stands in the file. */
  ghost function FrameBytes(shared: bool, rows: Frame): (out: Data)
    requires RowsFit(shared, rows) && FrameFits(shared, rows)
    ensures |out| == 8 + RowsSize(shared, rows)
  {
    Put32(4 + RowsSize(shared, rows)) + BodyBytes(shared, rows)
  }

  // ---------------------------------------------------------------- reading a body

  datatype ParsedRow = ParsedRow(row: LogRow, size: nat)

  function ParseRow(shared: bool, data: Data): (r: Option<ParsedRow>)
    ensures r.Some? ==> RowHeader(shared) <= r.value.size <= |data|
  {
    if |data| < RowHeader(shared) then None
    else if shared then
      match ParseFields(Get32(data), data[4..]) case None => None case Some(row) => Some(ParsedRow(row, 16 + |row.typ| + |row.row|))
    else
      match ParseFields(0, data) case None => None case Some(row) => Some(ParsedRow(row, 12 + |row.typ| + |row.row|))
  }

  /** Id, row length, then the type name and the row themselves. */
  function ParseFields(typeSize: nat, data: Data): (r: Option<LogRow>)
    requires |data| >= 12
    ensures r.Some? ==> |r.value.typ| == typeSize && 12 + typeSize + |r.value.row| <= |data| && |r.value.row| <= MAX_UINT32
    ensures r.Some? ==> IsInt64(r.value.id)
  {
    var id, rowSize, rest := Signed64(Get64(data)), Get32(data[8..]), data[12..];
    if typeSize + rowSize > |rest| then None
    else Some(LogRow(rest[..typeSize], id, rest[typeSize..typeSize + rowSize]))
  }

  ghost function FieldBytes(r: LogRow): (out: Data)
    requires IsInt64(r.id) && |r.row| <= MAX_UINT32
    ensures |out| == 12 + |r.typ| + |r.row|
  {
    Put64(Unsigned64(r.id)) + (Put32(|r.row|) + (r.typ + r.row))
  }

  function ParseRows(shared: bool, data: Data, count: nat): Option<Frame> {
    if count == 0 then if data == [] then Some([]) else None
    else
      match ParseRow(shared, data)
      case None => None
      case Some(first) =>
        match ParseRows(shared, data[first.size..], count - 1)
        case None => None
        case Some(rest) => Some([first.row] + rest)
  }

  function ParseBody(shared: bool, body: Data): Option<Frame> {
    if |body| < 4 || Get32(body) > (|body| - 4) / RowHeader(shared) then None
    else ParseRows(shared, body[4..], Get32(body))
  }

  lemma {:induction false} FieldsBack(r: LogRow, rest: Data)
    requires IsInt64(r.id) && |r.row| <= MAX_UINT32
    ensures ParseFields(|r.typ|, FieldBytes(r) + rest) == Some(r)
  {
    hide Put32, Get32, Put64, Get64, Signed64, Unsigned64, IsInt64;
    var data, text := FieldBytes(r) + rest, r.typ + r.row + rest;
    var tail := Put32(|r.row|) + text;
    assert data == Put64(Unsigned64(r.id)) + tail;
    GetPut64(Unsigned64(r.id), tail);
    SignedBack(r.id);
    assert data[8..] == tail;
    GetPut32(|r.row|, text);
    assert data[12..] == text;
    assert text[..|r.typ|] == r.typ && text[|r.typ|..|r.typ| + |r.row|] == r.row;
  }

  lemma {:induction false} FieldsParsed(typeSize: nat, data: Data)
    requires |data| >= 12 && ParseFields(typeSize, data).Some?
    ensures var r := ParseFields(typeSize, data).value; data[..12 + typeSize + |r.row|] == FieldBytes(r)
  {
    var r := ParseFields(typeSize, data).value;
    PutGet64(data);
    PutGet32(data[8..]);
    hide Put32, Get32, Put64, Get64;
    var size := typeSize + |r.row|;
    assert data[..12 + size] == data[..8] + (data[8..][..4] + data[12..][..size]);
    assert data[12..][..size] == r.typ + r.row;
  }

  lemma {:induction false} ParseRowBack(shared: bool, r: LogRow, rest: Data)
    requires RowFits(shared, r)
    ensures ParseRow(shared, RowBytes(shared, r) + rest) == Some(ParsedRow(r, RowSize(shared, r)))
  {
    hide Put32, Get32, ParseFields, FieldBytes;
    FieldsBack(r, rest);
    var data, fields := RowBytes(shared, r) + rest, FieldBytes(r) + rest;
    if shared {
      assert data == Put32(|r.typ|) + fields;
      GetPut32(|r.typ|, fields);
      assert data[4..] == fields;
    } else {
      assert data == fields;
    }
  }

  lemma {:induction false} RowParsed(shared: bool, data: Data)
    requires ParseRow(shared, data).Some?
    ensures var p := ParseRow(shared, data).value; RowFits(shared, p.row) && data[..p.size] == RowBytes(shared, p.row)
  {
    hide Put32, Get32, ParseFields, FieldBytes;
    var p := ParseRow(shared, data).value;
    if shared {
      FieldsParsed(Get32(data), data[4..]);
      PutGet32(data);
      assert data[..p.size] == data[..4] + data[4..][..p.size - 4];
    } else {
      FieldsParsed(0, data);
    }
  }

  lemma {:induction false} ParseRowsBack(shared: bool, rows: Frame)
    requires RowsFit(shared, rows)
    ensures ParseRows(shared, RowsBytes(shared, rows), |rows|) == Some(rows)
    ensures RowsSize(shared, rows) >= RowHeader(shared) * |rows|
  {
    hide RowBytes, ParseRow;
    if rows != [] {
      ParseRowBack(shared, rows[0], RowsBytes(shared, rows[1..]));
      ParseRowsBack(shared, rows[1..]);
      assert RowsBytes(shared, rows)[RowSize(shared, rows[0])..] == RowsBytes(shared, rows[1..]);
      assert rows == [rows[0]] + rows[1..];
    }
  }

  lemma {:induction false} RowsParsed(shared: bool, data: Data, count: nat)
    requires ParseRows(shared, data, count).Some?
    ensures var rows := ParseRows(shared, data, count).value;
            |rows| == count && RowsFit(shared, rows) && data == RowsBytes(shared, rows)
  {
    hide RowBytes, ParseRow;
    if count > 0 {
      var first := ParseRow(shared, data).value;
      RowParsed(shared, data);
      RowsParsed(shared, data[first.size..], count - 1);
      var rest := ParseRows(shared, data[first.size..], count - 1).value;
      assert ([first.row] + rest)[1..] == rest;
      assert data == data[..first.size] + data[first.size..];
    }
  }

  /** Bodies and frames are mutually inverse: whatever is accepted is exactly what its rows encode to. */
  lemma {:induction false} BodyInverse(shared: bool, body: Data, rows: Frame)
    requires RowsFit(shared, rows) && |rows| <= MAX_UINT32
    ensures ParseBody(shared, BodyBytes(shared, rows)) == Some(rows)
    ensures ParseBody(shared, body) == Some(rows) ==> body == BodyBytes(shared, rows)
  {
    hide Put32, Get32, RowsBytes, ParseRows;
    var encoded := BodyBytes(shared, rows);
    GetPut32(|rows|, RowsBytes(shared, rows));
    assert encoded[4..] == RowsBytes(shared, rows);
    ParseRowsBack(shared, rows);
    if ParseBody(shared, body) == Some(rows) {
      RowsParsed(shared, body[4..], Get32(body));
      PutGet32(body);
      assert body == body[..4] + body[4..];
    }
  }

  // ---------------------------------------------------------------- writing into a buffer

  lemma {:induction false} RowsAppend(shared: bool, rows: Frame, i: nat)
    requires RowsFit(shared, rows) && i < |rows|
    ensures RowsBytes(shared, rows[..i + 1]) == RowsBytes(shared, rows[..i]) + RowBytes(shared, rows[i])
    ensures RowsSize(shared, rows[..i + 1]) == RowsSize(shared, rows[..i]) + RowSize(shared, rows[i])
  {
    hide RowBytes, RowFits, RowSize;
    if i == 0 {
      assert rows[..1] == [rows[0]] && rows[..1][1..] == [] && rows[..0] == [];
    } else {
      assert rows[..i + 1][1..] == rows[1..][..i] && rows[..i][1..] == rows[1..][..i - 1];
      RowsAppend(shared, rows[1..], i - 1);
    }
  }

  lemma {:induction false} SizeMonotone(shared: bool, rows: Frame, i: nat)
    requires i <= |rows|
    ensures RowsSize(shared, rows[..i]) <= RowsSize(shared, rows)
    ensures i < |rows| ==> RowsSize(shared, rows[..i]) + RowSize(shared, rows[i]) <= RowsSize(shared, rows)
  {
    if i == 0 {
      assert rows[..0] == [];
    } else {
      assert rows[..i][1..] == rows[1..][..i - 1];
      SizeMonotone(shared, rows[1..], i - 1);
    }
  }

  /** A frame that fits has rows that fit. */
  lemma {:induction false} FitsRows(shared: bool, rows: Frame)
    requires FrameFits(shared, rows) && forall i :: 0 <= i < |rows| ==> IsInt64(rows[i].id) && (!shared ==> rows[i].typ == [])
    ensures RowsFit(shared, rows)
  {
    forall i | 0 <= i < |rows| ensures RowFits(shared, rows[i]) {
      SizeMonotone(shared, rows, i);
    }
  }

  method MeasureBody(shared: bool, rows: Frame) returns (size: nat)
    ensures size == 4 + RowsSize(shared, rows)
  {
    size := 4;
    var i := 0;
    while i < |rows|
      invariant 0 <= i <= |rows| && size == 4 + RowsSize(shared, rows[..i])
    {
      SizeStep(shared, rows, i);
      size := size + RowHeader(shared) + |rows[i].typ| + |rows[i].row|;
      i := i + 1;
    }
    assert rows[..i] == rows;
  }

  lemma {:induction false} SizeStep(shared: bool, rows: Frame, i: nat)
    requires i < |rows|
    ensures RowsSize(shared, rows[..i + 1]) == RowsSize(shared, rows[..i]) + RowSize(shared, rows[i])
  {
    if i > 0 {
      assert rows[..i + 1][1..] == rows[1..][..i] && rows[..i][1..] == rows[1..][..i - 1];
      SizeStep(shared, rows[1..], i - 1);
    }
  }

  /** Encode one transaction, or refuse it when its length prefix cannot say how long it is. */
  method EncodeFrame(shared: bool, rows: Frame) returns (r: Option<array<Byte>>)
    requires forall i :: 0 <= i < |rows| ==> IsInt64(rows[i].id) && (!shared ==> rows[i].typ == [])
    ensures r.Some? <==> FrameFits(shared, rows)
    ensures r.Some? ==> fresh(r.value) && RowsFit(shared, rows) && r.value[..] == FrameBytes(shared, rows)
  {
    var bodySize := MeasureBody(shared, rows);
    if bodySize > MAX_UINT32 || |rows| > MAX_UINT32 {
      return None;
    }
    FitsRows(shared, rows);
    var frame := new Byte[4 + bodySize](_ => 0);
    WriteHeader(frame, bodySize, |rows|);
    WriteRows(shared, frame, rows);
    FrameIs(shared, rows);
    r := Some(frame);
  }

  method WriteHeader(frame: array<Byte>, bodySize: nat, count: nat)
    requires frame.Length >= 8 && bodySize <= MAX_UINT32 && count <= MAX_UINT32
    modifies frame
    ensures frame[..8] == Put32(bodySize) + Put32(count)
  {
    hide Put32;
    CopyInto(frame, 0, Put32(bodySize));
    assert frame[..4] == Put32(bodySize);
    CopyInto(frame, 4, Put32(count));
  }

  lemma {:induction false} FrameIs(shared: bool, rows: Frame)
    requires RowsFit(shared, rows) && FrameFits(shared, rows)
    ensures FrameBytes(shared, rows) == Put32(4 + RowsSize(shared, rows)) + Put32(|rows|) + RowsBytes(shared, rows)
  {
    hide Put32, RowsBytes;
  }

  method WriteRows(shared: bool, frame: array<Byte>, rows: Frame)
    requires RowsFit(shared, rows) && frame.Length == 8 + RowsSize(shared, rows)
    modifies frame
    ensures frame[..] == old(frame[..8]) + RowsBytes(shared, rows)
  {
    hide *;
    ghost var head := frame[..8];
    NoRows(shared, rows);
    assert head + [] == head;
    var offset, i := 8, 0;
    while i < |rows|
      invariant 0 <= i <= |rows| && offset == 8 + RowsSize(shared, rows[..i]) <= frame.Length
      invariant RowsFit(shared, rows[..i]) && frame[..offset] == head + RowsBytes(shared, rows[..i])
    {
      SizeMonotone(shared, rows, i);
      SizeIs(shared, rows, i);
      RowsAppend(shared, rows, i);
      ghost var before := frame[..offset];
      WriteRow(shared, frame, offset, rows[i]);
      assert before + RowBytes(shared, rows[i]) == head + (RowsBytes(shared, rows[..i]) + RowBytes(shared, rows[i]));
      offset := offset + RowHeader(shared) + |rows[i].typ| + |rows[i].row|;
      i := i + 1;
    }
    assert rows[..i] == rows;
    assert frame[..] == frame[..offset];
  }

  lemma {:induction false} NoRows(shared: bool, rows: Frame)
    ensures RowsFit(shared, rows[..0]) && RowsSize(shared, rows[..0]) == 0 && RowsBytes(shared, rows[..0]) == []
  {
  }

  lemma {:induction false} SizeIs(shared: bool, rows: Frame, i: nat)
    requires i < |rows| && RowsFit(shared, rows)
    ensures RowSize(shared, rows[i]) == RowHeader(shared) + |rows[i].typ| + |rows[i].row| && RowFits(shared, rows[i])
    ensures RowsFit(shared, rows[..i]) && RowsFit(shared, rows[..i + 1])
  {
  }

  method WriteRow(shared: bool, frame: array<Byte>, offset: nat, r: LogRow)
    requires RowFits(shared, r) && offset + RowSize(shared, r) <= frame.Length
    modifies frame
    ensures frame[..offset] == old(frame[..offset])
    ensures frame[..offset + RowSize(shared, r)] == old(frame[..offset]) + RowBytes(shared, r)
  {
    hide Put32, Put64, FieldBytes;
    ghost var before := frame[..offset];
    var at := offset;
    if shared {
      CopyInto(frame, at, Put32(|r.typ|));
      at := at + 4;
    }
    ghost var prefix := frame[..at];
    assert prefix == before + if shared then Put32(|r.typ|) else [];
    WriteFields(frame, at, r);
    assert frame[..offset] == frame[..at][..offset] == before;
  }

  method WriteFields(frame: array<Byte>, at: nat, r: LogRow)
    requires IsInt64(r.id) && |r.row| <= MAX_UINT32 && at + 12 + |r.typ| + |r.row| <= frame.Length
    modifies frame
    ensures frame[..at] == old(frame[..at])
    ensures frame[..at + 12 + |r.typ| + |r.row|] == old(frame[..at]) + FieldBytes(r)
  {
    hide Put32, Put64, Unsigned64;
    ghost var before := frame[..at];
    var id, size := Put64(Unsigned64(r.id)), Put32(|r.row|);
    AppendAt(frame, at, id);
    AppendAt(frame, at + 8, size);
    AppendAt(frame, at + 12, r.typ);
    AppendAt(frame, at + 12 + |r.typ|, r.row);
    Associates(before, id, size, r.typ, r.row);
    assert frame[..at] == frame[..at + 12 + |r.typ| + |r.row|][..at];
  }

  lemma {:induction false} Associates(a: Data, b: Data, c: Data, d: Data, e: Data)
    ensures a + b + c + d + e == a + (b + (c + (d + e)))
  {
  }

  method AppendAt(frame: array<Byte>, at: nat, data: Data)
    requires at + |data| <= frame.Length
    modifies frame
    ensures frame[..at + |data|] == old(frame[..at]) + data
  {
    CopyInto(frame, at, data);
  }

  // ---------------------------------------------------------------- reading with a moving offset

  /** Decode one body row by row; anything but exactly its announced rows is invalid. */
  method DecodeFrame(shared: bool, body: Data) returns (r: Option<Frame>)
    ensures r == ParseBody(shared, body)
  {
    if |body| < 4 {
      return None;
    }
    var count := Get32(body);
    if count > (|body| - 4) / RowHeader(shared) {
      return None;
    }
    r := DecodeRows(shared, body, count);
  }

  method DecodeRows(shared: bool, body: Data, count: nat) returns (r: Option<Frame>)
    requires |body| >= 4
    ensures r == ParseRows(shared, body[4..], count)
  {
    hide ParseRow, Prepended;
    var rows: Frame := [];
    var offset, i := 4, 0;
    PrependNothing(ParseRows(shared, body[4..], count));
    while i < count
      invariant 0 <= i <= count && 4 <= offset <= |body|
      invariant ParseRows(shared, body[4..], count) == Prepended(rows, ParseRows(shared, body[offset..], count - i))
    {
      var next := ParseRow(shared, body[offset..]);
      PrependNone(rows);
      if next == None {
        return None;
      }
      assert body[offset..][next.value.size..] == body[offset + next.value.size..];
      PrependStep(rows, next.value.row, ParseRows(shared, body[offset + next.value.size..], count - i - 1));
      rows := rows + [next.value.row];
      offset := offset + next.value.size;
      i := i + 1;
    }
    PrependNone(rows);
    if offset != |body| {
      return None;
    }
    r := Some(rows);
  }

  lemma {:induction false} PrependNone(rows: Frame)
    ensures Prepended(rows, None) == None && Prepended(rows, Some([])) == Some(rows)
  {
    assert rows + [] == rows;
  }

  lemma {:induction false} PrependNothing(rest: Option<Frame>)
    ensures Prepended([], rest) == rest
  {
    if rest.Some? {
      assert [] + rest.value == rest.value;
    }
  }

  function Prepended(rows: Frame, rest: Option<Frame>): Option<Frame> {
    match rest case None => None case Some(more) => Some(rows + more)
  }

  lemma {:induction false} PrependStep(rows: Frame, row: LogRow, rest: Option<Frame>)
    ensures Prepended(rows + [row], rest) == Prepended(rows, match rest case None => None case Some(more) => Some([row] + more))
  {
    if rest.Some? {
      assert rows + [row] + rest.value == rows + ([row] + rest.value);
    }
  }
}
