/** Replaying a log file: whole frames in order, stopping at a torn tail. */
module LogReplay {
  import opened Wrappers
  import opened Bytes
  import opened LogFrames

  /** The transactions a file durably holds: every frame up to the first short or undecodable one. */
  function DurableFrames(shared: bool, file: Data): seq<Frame> {
    if |file| < 4 then []
    else
      var n := Get32(file);
      if |file| - 4 < n then []
      else
        match ParseBody(shared, file[4..4 + n])
        case None => []
        case Some(rows) => [rows] + DurableFrames(shared, file[4 + n..])
  }

  ghost predicate Loggable(shared: bool, rows: Frame) {
    RowsFit(shared, rows) && FrameFits(shared, rows)
  }

  ghost predicate AllLoggable(shared: bool, frames: seq<Frame>) {
    forall i :: 0 <= i < |frames| ==> Loggable(shared, frames[i])
  }

  /** The file after these transactions were appended one after another. */
  ghost function LogBytes(shared: bool, frames: seq<Frame>): Data
    requires AllLoggable(shared, frames)
  {
    if frames == [] then [] else FrameBytes(shared, frames[0]) + LogBytes(shared, frames[1..])
  }

  /** How many frames lie wholly inside the first `cut` bytes. */
  ghost function WholeFrames(shared: bool, frames: seq<Frame>, cut: nat): (n: nat)
    requires AllLoggable(shared, frames)
    ensures n <= |frames|
  {
    if frames == [] || |FrameBytes(shared, frames[0])| > cut then 0
    else 1 + WholeFrames(shared, frames[1..], cut - |FrameBytes(shared, frames[0])|)
  }

  /** That many and no more. */
  lemma {:induction false} WholeIsMost(shared: bool, frames: seq<Frame>, cut: nat)
    requires AllLoggable(shared, frames)
    ensures var n := WholeFrames(shared, frames, cut);
            && |LogBytes(shared, frames[..n])| <= cut
            && (n < |frames| ==> |LogBytes(shared, frames[..n + 1])| > cut)
  {
    hide FrameBytes, RowsFit, FrameFits;
    var n := WholeFrames(shared, frames, cut);
    if frames != [] && |FrameBytes(shared, frames[0])| <= cut {
      WholeIsMost(shared, frames[1..], cut - |FrameBytes(shared, frames[0])|);
      assert frames[..n][1..] == frames[1..][..n - 1];
      if n < |frames| {
        assert frames[..n + 1][1..] == frames[1..][..n];
      }
    } else if frames != [] {
      assert frames[..1][1..] == [];
    }
  }

  /** One whole frame at the head of a file is read back, and reading goes on behind it. */
  lemma {:induction false} FrameReadBack(shared: bool, rows: Frame, rest: Data)
    requires Loggable(shared, rows)
    ensures DurableFrames(shared, FrameBytes(shared, rows) + rest) == [rows] + DurableFrames(shared, rest)
  {
    var body := BodyBytes(shared, rows);
    BodyInverse(shared, body, rows);
    FrameIsPrefixed(shared, rows);
    hide Put32, Get32, BodyBytes, ParseBody, FrameBytes, RowsSize, RowsFit, FrameFits;
    var file := FrameBytes(shared, rows) + rest;
    assert file == Put32(|body|) + (body + rest);
    GetPut32(|body|, body + rest);
    assert file[4..4 + |body|] == body && file[4 + |body|..] == rest;
  }

  lemma {:induction false} FrameIsPrefixed(shared: bool, rows: Frame)
    requires Loggable(shared, rows)
    ensures var body := BodyBytes(shared, rows); |body| <= MAX_UINT32 && FrameBytes(shared, rows) == Put32(|body|) + body
  {
    hide Put32, RowsBytes;
  }

  /** A frame cut short ends the durable part of the file. */
  lemma {:induction false} TornFrame(shared: bool, rows: Frame, cut: nat)
    requires Loggable(shared, rows) && cut < |FrameBytes(shared, rows)|
    ensures DurableFrames(shared, FrameBytes(shared, rows)[..cut]) == []
  {
    FrameIsPrefixed(shared, rows);
    var body := BodyBytes(shared, rows);
    hide Put32, Get32, BodyBytes, ParseBody, FrameBytes, RowsSize, RowsFit, FrameFits;
    var file := FrameBytes(shared, rows)[..cut];
    if cut >= 4 {
      assert file == Put32(|body|) + body[..cut - 4];
      GetPut32(|body|, body[..cut - 4]);
    }
  }

  /** Wherever the bytes are cut, replay returns exactly the frames wholly inside the cut. */
  lemma {:induction false} TornTail(shared: bool, frames: seq<Frame>, cut: nat)
    requires AllLoggable(shared, frames) && cut <= |LogBytes(shared, frames)|
    ensures DurableFrames(shared, LogBytes(shared, frames)[..cut]) == frames[..WholeFrames(shared, frames, cut)]
    decreases |frames|
  {
    hide DurableFrames, FrameBytes, RowsFit, FrameFits;
    if frames == [] {
      NothingDurable(shared);
      assert LogBytes(shared, frames)[..cut] == [];
    } else {
      var first, rest := FrameBytes(shared, frames[0]), LogBytes(shared, frames[1..]);
      var whole := LogBytes(shared, frames);
      if |first| > cut {
        assert whole[..cut] == first[..cut];
        TornFrame(shared, frames[0], cut);
      } else {
        var left := cut - |first|;
        assert whole[..cut] == first + rest[..left];
        FrameReadBack(shared, frames[0], rest[..left]);
        TornTail(shared, frames[1..], left);
        var n := WholeFrames(shared, frames[1..], left);
        assert [frames[0]] + frames[1..][..n] == frames[..1 + n];
      }
    }
  }

  lemma {:induction false} NothingDurable(shared: bool)
    ensures DurableFrames(shared, []) == []
  {
  }

  // ---------------------------------------------------------------- rows

  /** What a replayed row says: a new state for an id, or that the id is gone. */
  datatype Recovered<V> = Written(id: int, value: V) | Removed(id: int)

  datatype ReplayError = MalformedId | MalformedRow

  function RecoverRow<V>(r: LogRow, decode: Data -> Option<V>): Result<Recovered<V>, ReplayError>
    requires IsInt64(r.id)
  {
    if r.id < 0 && r.row == [] then Ok(Removed(Negate64(r.id)))
    else if r.id <= 0 then Err(MalformedId)
    else match decode(r.row) case None => Err(MalformedRow) case Some(v) => Ok(Written(r.id, v))
  }

  predicate IdsFit(rows: seq<LogRow>) {
    forall i :: 0 <= i < |rows| ==> IsInt64(rows[i].id)
  }

  /** The rows of one type in a list, in order; the per-type log has only the empty type. */
  function OfType(rows: seq<LogRow>, typ: Data): (out: seq<LogRow>)
    ensures IdsFit(rows) ==> IdsFit(out)
  {
    if rows == [] then [] else OfType(rows[..|rows| - 1], typ) + if rows[|rows| - 1].typ == typ then [rows[|rows| - 1]] else []
  }

  /** Every row recovered, or the first failure. */
  function RecoverRows<V>(rows: seq<LogRow>, decode: Data -> Option<V>): Result<seq<Recovered<V>>, ReplayError>
    requires IdsFit(rows)
  {
    if rows == [] then Ok([])
    else
      match RecoverRows(rows[..|rows| - 1], decode)
      case Err(e) => Err(e)
      case Ok(before) =>
        match RecoverRow(rows[|rows| - 1], decode) case Err(e) => Err(e) case Ok(row) => Ok(before + [row])
  }

  lemma {:induction false} RecoverFails<V>(rows: seq<LogRow>, n: nat, decode: Data -> Option<V>)
    requires IdsFit(rows) && n <= |rows| && RecoverRows(rows[..n], decode).Err?
    ensures RecoverRows(rows, decode) == Err(RecoverRows(rows[..n], decode).error)
    decreases |rows| - n
  {
    if n == |rows| {
      assert rows[..n] == rows;
    } else {
      assert rows[..n + 1][..n] == rows[..n];
      RecoverFails(rows, n + 1, decode);
    }
  }

  function Flatten(frames: seq<Frame>): seq<LogRow> {
    if frames == [] then [] else Flatten(frames[..|frames| - 1]) + frames[|frames| - 1]
  }

  lemma {:induction false} FlattenAppend(frames: seq<Frame>, rows: Frame)
    ensures Flatten(frames + [rows]) == Flatten(frames) + rows
  {
    assert (frames + [rows])[..|frames|] == frames;
  }

  lemma {:induction false} OfTypeAppend(a: seq<LogRow>, b: seq<LogRow>, typ: Data)
    ensures OfType(a + b, typ) == OfType(a, typ) + OfType(b, typ)
  {
    hide OfType;
    if b == [] {
      assert a + b == a;
      OfTypeLast([], LogRow([], 0, []), typ);
      assert OfType(a, typ) + [] == OfType(a, typ);
    } else {
      var front, x := b[..|b| - 1], b[|b| - 1];
      assert b == front + [x] && a + b == (a + front) + [x];
      OfTypeAppend(a, front, typ);
      OfTypeLast(front, x, typ);
      OfTypeLast(a + front, x, typ);
    }
  }

  lemma {:induction false} OfTypeLast(rows: seq<LogRow>, x: LogRow, typ: Data)
    ensures OfType(rows + [x], typ) == OfType(rows, typ) + if x.typ == typ then [x] else []
    ensures OfType([], typ) == []
  {
    assert (rows + [x])[..|rows|] == rows;
  }

  /** What replay of one type reads from a file. */
  ghost function Replayed<V>(shared: bool, typ: Data, file: Data, decode: Data -> Option<V>): Result<seq<Recovered<V>>, ReplayError>
    requires IdsFit(Flatten(DurableFrames(shared, file)))
  {
    RecoverRows(OfType(Flatten(DurableFrames(shared, file)), typ), decode)
  }

  lemma {:induction false} ParsedIdsFit(shared: bool, body: Data)
    requires ParseBody(shared, body).Some?
    ensures IdsFit(ParseBody(shared, body).value)
  {
    RowsParsed(shared, body[4..], Get32(body));
  }

  lemma {:induction false} DurableIdsFit(shared: bool, file: Data)
    ensures forall i :: 0 <= i < |DurableFrames(shared, file)| ==> IdsFit(DurableFrames(shared, file)[i])
    ensures IdsFit(Flatten(DurableFrames(shared, file)))
    decreases |file|
  {
    hide ParseBody, Get32;
    if |file| >= 4 && |file| - 4 >= Get32(file) && ParseBody(shared, file[4..4 + Get32(file)]).Some? {
      DurableIdsFit(shared, file[4 + Get32(file)..]);
      ParsedIdsFit(shared, file[4..4 + Get32(file)]);
    }
    FlattenFits(DurableFrames(shared, file));
  }

  lemma {:induction false} FlattenFits(frames: seq<Frame>)
    requires forall i :: 0 <= i < |frames| ==> IdsFit(frames[i])
    ensures IdsFit(Flatten(frames))
  {
    if frames != [] {
      FlattenFits(frames[..|frames| - 1]);
    }
  }

  /** Read frame after frame, row after row, keeping the rows of one type. */
  method ReplayLog<V>(shared: bool, typ: Data, file: Data, decode: Data -> Option<V>) returns (r: Result<seq<Recovered<V>>, ReplayError>)
    ensures IdsFit(Flatten(DurableFrames(shared, file))) && r == Replayed(shared, typ, file, decode)
  {
    hide *;
    DurableIdsFit(shared, file);
    var out: seq<Recovered<V>> := [];
    ghost var frames: seq<Frame> := [];
    NothingReplayed(typ, decode);
    var offset := 0;
    assert file[0..] == file;
    assert [] + DurableFrames(shared, file) == DurableFrames(shared, file);
    while true
      invariant 0 <= offset <= |file| && DurableFrames(shared, file) == frames + DurableFrames(shared, file[offset..])
      invariant IdsFit(OfType(Flatten(frames), typ)) && RecoverRows(OfType(Flatten(frames), typ), decode) == Ok(out)
      decreases |file| - offset
    {
      DurableCases(shared, file[offset..]);
      if |file| - offset < 4 {
        break;
      }
      var n := Get32(file[offset..]);
      if |file| - offset - 4 < n {
        break;
      }
      var body := file[offset + 4..offset + 4 + n];
      SlicesInside(file, offset, n);
      var rows := DecodeFrame(shared, body);
      if rows == None {
        break;
      }
      ParsedIdsFit(shared, body);
      FlattenAppend(frames, rows.value);
      ghost var next := frames + [rows.value];
      assert DurableFrames(shared, file) == next + DurableFrames(shared, file[offset + 4 + n..]);
      OfTypeAppend(Flatten(frames), rows.value, typ);
      var e;
      e, out := ReplayFrame(typ, rows.value, decode, OfType(Flatten(frames), typ), out);
      if e.Some? {
        FailureStands(shared, typ, file, decode, next);
        return Err(e.value);
      }
      frames := next;
      offset := offset + 4 + n;
    }
    assert frames + [] == frames;
    ReplayedIs(shared, typ, file, decode);
    r := Ok(out);
  }

  lemma {:induction false} SlicesInside(file: Data, offset: nat, n: nat)
    requires offset + 4 + n <= |file|
    ensures file[offset + 4..offset + 4 + n] == file[offset..][4..4 + n] && file[offset..][4 + n..] == file[offset + 4 + n..]
  {
  }

  lemma {:induction false} NothingReplayed<V>(typ: Data, decode: Data -> Option<V>)
    ensures IdsFit(OfType(Flatten([]), typ)) && RecoverRows(OfType(Flatten([]), typ), decode) == Ok([])
  {
  }

  lemma {:induction false} ReplayedIs<V>(shared: bool, typ: Data, file: Data, decode: Data -> Option<V>)
    requires IdsFit(Flatten(DurableFrames(shared, file)))
    ensures Replayed(shared, typ, file, decode) == RecoverRows(OfType(Flatten(DurableFrames(shared, file)), typ), decode)
  {
  }

  lemma {:induction false} DurableCases(shared: bool, file: Data)
    ensures |file| < 4 ==> DurableFrames(shared, file) == []
    ensures |file| >= 4 && |file| - 4 < Get32(file) ==> DurableFrames(shared, file) == []
    ensures |file| >= 4 && |file| - 4 >= Get32(file) ==>
              DurableFrames(shared, file) == match ParseBody(shared, file[4..4 + Get32(file)])
                                             case None => []
                                             case Some(rows) => [rows] + DurableFrames(shared, file[4 + Get32(file)..])
  {
  }

  /** One frame's rows of the wanted type, on top of those before it. */
  method ReplayFrame<V>(typ: Data, rows: Frame, decode: Data -> Option<V>, ghost before: seq<LogRow>, out0: seq<Recovered<V>>)
    returns (e: Option<ReplayError>, out: seq<Recovered<V>>)
    requires IdsFit(rows) && IdsFit(before) && RecoverRows(before, decode) == Ok(out0)
    ensures IdsFit(before + OfType(rows, typ))
    ensures RecoverRows(before + OfType(rows, typ), decode) == if e.Some? then Err(e.value) else Ok(out)
  {
    hide OfType, RecoverRows, RecoverRow;
    out, e := out0, None;
    var i := 0;
    OfTypeNone(rows, typ);
    assert before + [] == before;
    while i < |rows|
      invariant 0 <= i <= |rows| && IdsFit(before + OfType(rows[..i], typ))
      invariant RecoverRows(before + OfType(rows[..i], typ), decode) == Ok(out)
    {
      OfTypeStep(rows, typ, i);
      if rows[i].typ == typ {
        var row := RecoverRow(rows[i], decode);
        assert before + (OfType(rows[..i], typ) + [rows[i]]) == (before + OfType(rows[..i], typ)) + [rows[i]];
        RecoverStep(before + OfType(rows[..i], typ), rows[i], decode);
        if row.Err? {
          OfTypePrefix(rows, typ, i + 1, before);
          RecoverFails(before + OfType(rows, typ), |before + OfType(rows[..i + 1], typ)|, decode);
          return Some(row.error), out;
        }
        out := out + [row.value];
      } else {
        assert OfType(rows[..i], typ) + [] == OfType(rows[..i], typ);
      }
      i := i + 1;
    }
    assert rows[..i] == rows;
  }

  lemma {:induction false} OfTypeNone(rows: Frame, typ: Data)
    ensures OfType(rows[..0], typ) == []
  {
  }

  lemma {:induction false} OfTypeStep(rows: Frame, typ: Data, i: nat)
    requires i < |rows|
    ensures OfType(rows[..i + 1], typ) == OfType(rows[..i], typ) + if rows[i].typ == typ then [rows[i]] else []
  {
    assert rows[..i + 1][..i] == rows[..i];
  }

  lemma {:induction false} OfTypePrefix(rows: Frame, typ: Data, n: nat, before: seq<LogRow>)
    requires n <= |rows| && IdsFit(rows) && IdsFit(before)
    ensures var all, part := before + OfType(rows, typ), before + OfType(rows[..n], typ);
            |part| <= |all| && all[..|part|] == part && IdsFit(all)
  {
    assert rows == rows[..n] + rows[n..];
    OfTypeAppend(rows[..n], rows[n..], typ);
  }

  lemma {:induction false} RecoverStep<V>(rows: seq<LogRow>, r: LogRow, decode: Data -> Option<V>)
    requires IdsFit(rows) && IsInt64(r.id)
    ensures IdsFit(rows + [r])
    ensures RecoverRows(rows + [r], decode) ==
            match RecoverRows(rows, decode)
            case Err(e) => Err(e)
            case Ok(before) => match RecoverRow(r, decode) case Err(e) => Err(e) case Ok(row) => Ok(before + [row])
  {
    assert (rows + [r])[..|rows|] == rows;
  }

  /** A failure inside a prefix of the durable frames is the failure of the whole replay. */
  lemma {:induction false} FailureStands<V>(shared: bool, typ: Data, file: Data, decode: Data -> Option<V>, frames: seq<Frame>)
    requires IdsFit(Flatten(DurableFrames(shared, file))) && frames <= DurableFrames(shared, file)
    requires IdsFit(OfType(Flatten(frames), typ)) && RecoverRows(OfType(Flatten(frames), typ), decode).Err?
    ensures Replayed(shared, typ, file, decode) == RecoverRows(OfType(Flatten(frames), typ), decode)
  {
    hide RecoverRows, OfType, DurableFrames;
    var all := DurableFrames(shared, file);
    FlattenSplit(all, |frames|);
    assert all[..|frames|] == frames;
    OfTypeAppend(Flatten(frames), Flatten(all[|frames|..]), typ);
    var part, whole := OfType(Flatten(frames), typ), OfType(Flatten(all), typ);
    assert whole[..|part|] == part;
    RecoverFails(whole, |part|, decode);
  }

  lemma {:induction false} FlattenNothing()
    ensures Flatten([]) == []
  {
  }

  lemma {:induction false} FlattenSplit(frames: seq<Frame>, n: nat)
    requires n <= |frames|
    ensures Flatten(frames) == Flatten(frames[..n]) + Flatten(frames[n..])
    decreases |frames|
  {
    hide Flatten;
    if n == |frames| {
      assert frames[..n] == frames && frames[n..] == [];
      FlattenNothing();
      assert Flatten(frames) + [] == Flatten(frames);
    } else {
      var front, x := frames[..|frames| - 1], frames[|frames| - 1];
      var head, tail := front[..n], front[n..];
      assert frames == front + [x] && frames[..n] == head && frames[n..] == tail + [x];
      FlattenAppend(front, x);
      FlattenSplit(front, n);
      FlattenAppend(tail, x);
      assert (Flatten(head) + Flatten(tail)) + x == Flatten(head) + (Flatten(tail) + x);
    }
  }

  /** The whole story of a crash: replaying a log cut anywhere gives, for every type, the rows of the transactions
      that were completely written, and of no other. */
  lemma {:induction false} ReplayAfterCrash<V>(shared: bool, typ: Data, frames: seq<Frame>, cut: nat, decode: Data -> Option<V>)
    requires AllLoggable(shared, frames) && cut <= |LogBytes(shared, frames)|
    ensures var file := LogBytes(shared, frames)[..cut];
            var kept := frames[..WholeFrames(shared, frames, cut)];
            && IdsFit(Flatten(DurableFrames(shared, file))) && IdsFit(OfType(Flatten(kept), typ))
            && Replayed(shared, typ, file, decode) == RecoverRows(OfType(Flatten(kept), typ), decode)
  {
    hide RecoverRows, OfType, DurableFrames, LogBytes, Flatten, WholeFrames;
    TornTail(shared, frames, cut);
    DurableIdsFit(shared, LogBytes(shared, frames)[..cut]);
  }
}
