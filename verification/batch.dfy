/** Pipelines: cutting a read buffer into bounded batches of complete frames. */
module Batches {
  import opened Bytes
  import opened Frames
  import opened Scanner
  import opened Parser
  import Streaming

  function Then(first: Result<seq<Frame>, ParseError>, second: Result<seq<Frame>, ParseError>)
    : Result<seq<Frame>, ParseError>
  {
    if first.Failure? then first
    else if second.Failure? then second
    else Success(first.value + second.value)
  }

  function ParseOne(b: bytes): Result<seq<Frame>, ParseError> {
    match ParseWhole(b)
    case Failure(error) => Failure(error)
    case Success(frame) => Success([frame])
  }

  /** All frames of a buffer; blank separator lines are skipped, an incomplete tail is ignored. */
  function ParseMany(b: bytes): Result<seq<Frame>, ParseError>
    decreases |b|
  {
    if b == [] then Success([])
    else if CrlfAt(b, 0) then ParseMany(b[2..])
    else match FrameBoundary(b)
         case Incomplete => Success([])
         case Invalid(reason) => Failure(ScanFailed(reason))
         case Complete(end) => Then(ParseOne(b[..end]), ParseMany(b[end..]))
  }

  method ParseMultipleFrames(b: bytes) returns (r: Result<seq<Frame>, ParseError>)
    ensures r == ParseMany(b)
  {
    hide FrameBoundary;
    hide ParseWhole;
    var frames: seq<Frame> := [];
    var position := 0;
    assert b[0..] == b;
    ThenNothing(ParseMany(b));
    while position < |b|
      invariant position <= |b|
      invariant Then(Success(frames), ParseMany(b[position..])) == ParseMany(b)
    {
      ghost var rest := b[position..];
      if CrlfAt(b, position) {
        assert CrlfAt(rest, 0) && rest[2..] == b[position + 2..];
        position := position + 2;
        continue;
      }
      match FrameBoundary(b[position..]) {
        case Complete(end) =>
          assert rest[..end] == b[position..position + end];
          assert rest[end..] == b[position + end..];
          var frame := ParseWhole(b[position..position + end]);
          if frame.Failure? {
            return Failure(frame.error);
          }
          ThenStep(frames, frame.value, ParseMany(b[position + end..]));
          frames := frames + [frame.value];
          position := position + end;
        case Incomplete =>
          assert frames + [] == frames;
          return Success(frames);
        case Invalid(reason) => return Failure(ScanFailed(reason));
      }
    }
    assert b[position..] == [];
    assert frames + [] == frames;
    return Success(frames);
  }

  lemma ThenNothing(r: Result<seq<Frame>, ParseError>)
    ensures Then(Success([]), r) == r
  {
    if r.Success? {
      assert [] + r.value == r.value;
    }
  }

  lemma ThenStep(frames: seq<Frame>, frame: Frame, r: Result<seq<Frame>, ParseError>)
    ensures Then(Success(frames), Then(Success([frame]), r)) == Then(Success(frames + [frame]), r)
  {
    if r.Success? {
      Assoc(frames, [frame], r.value);
    }
  }

  lemma ThenAssoc(a: Result<seq<Frame>, ParseError>, b: Result<seq<Frame>, ParseError>,
                  c: Result<seq<Frame>, ParseError>)
    ensures Then(Then(a, b), c) == Then(a, Then(b, c))
  {
    if a.Success? && b.Success? && c.Success? {
      Assoc(a.value, b.value, c.value);
    }
  }

  /** The first `len` bytes are separators and complete frames, with nothing cut in two. */
  ghost predicate Aligned(b: bytes, len: nat)
    decreases len
  {
    len <= |b| &&
    (len == 0
     || (CrlfAt(b, 0) && len >= 2 && Aligned(b[2..], len - 2))
     || (!CrlfAt(b, 0) && FrameBoundary(b).Complete? && FrameBoundary(b).end <= len
         && Aligned(b[FrameBoundary(b).end..], len - FrameBoundary(b).end)))
  }

  /** Number of frames in an aligned prefix. */
  ghost function FrameCount(b: bytes, len: nat): nat
    requires Aligned(b, len)
    decreases len
  {
    if len == 0 then 0
    else if CrlfAt(b, 0) then FrameCount(b[2..], len - 2)
    else 1 + FrameCount(b[FrameBoundary(b).end..], len - FrameBoundary(b).end)
  }

  /** Where the last frame of an aligned prefix ends; 0 when there is none. */
  ghost function LastFrameEnd(b: bytes, len: nat): (e: nat)
    requires Aligned(b, len)
    ensures e <= len
    ensures e > 0 <==> FrameCount(b, len) > 0
    decreases len
  {
    if len == 0 then 0
    else if CrlfAt(b, 0) then
      var e := LastFrameEnd(b[2..], len - 2);
      if e == 0 then 0 else e + 2
    else
      var end := FrameBoundary(b).end;
      end + LastFrameEnd(b[end..], len - end)
  }

  /** Parsing an aligned prefix and then the rest is parsing the whole buffer. */
  lemma {:induction false} ParseManySplit(b: bytes, len: nat)
    requires Aligned(b, len)
    ensures ParseMany(b) == Then(ParseMany(b[..len]), ParseMany(b[len..]))
    ensures ParseMany(b[..len]).Success? ==> |ParseMany(b[..len]).value| == FrameCount(b, len)
    decreases len
  {
    hide FrameBoundary;
    hide ParseOne;
    if len == 0 {
      assert b[..0] == [] && b[0..] == b;
      ThenNothing(ParseMany(b));
    } else {
      var front := b[..len];
      var end := if CrlfAt(b, 0) then 2 else FrameBoundary(b).end;
      assert front[end..] == b[end..][..len - end];
      assert b[end..][len - end..] == b[len..];
      ParseManySplit(b[end..], len - end);
      if !CrlfAt(b, 0) {
        assert front[..end] == b[..end];
        Streaming.FrameDependsOnItsBytes(b, front);
        ThenAssoc(ParseOne(b[..end]), ParseMany(front[end..]), ParseMany(b[len..]));
        OneFrame(b[..end]);
      }
    }
  }

  lemma OneFrame(b: bytes)
    ensures ParseOne(b).Success? ==> |ParseOne(b).value| == 1
  {
  }

  /** A separator or a frame of `end` bytes comes first. */
  ghost predicate StartsWith(b: bytes, end: nat) {
    if CrlfAt(b, 0) then end == 2 else FrameBoundary(b) == Complete(end)
  }

  lemma AlignedStart(b: bytes, len: nat) returns (end: nat)
    requires Aligned(b, len) && len > 0
    ensures StartsWith(b, end) && 0 < end <= len <= |b| && Aligned(b[end..], len - end)
  {
    hide FrameBoundary;
    end := if CrlfAt(b, 0) then 2 else FrameBoundary(b).end;
  }

  lemma AlignedAfter(b: bytes, end: nat, len: nat)
    requires StartsWith(b, end) && 0 < end <= len <= |b| && Aligned(b[end..], len - end)
    ensures Aligned(b, len)
    ensures FrameCount(b, len) == FrameCount(b[end..], len - end) + if CrlfAt(b, 0) then 0 else 1
  {
    hide FrameBoundary;
  }

  lemma AlignedNone(b: bytes)
    ensures Aligned(b, 0) && FrameCount(b, 0) == 0
  {
  }

  lemma {:induction false} AlignedExtends(b: bytes, len: nat, more: nat)
    requires len <= |b| && Aligned(b, len) && more <= |b| - len && Aligned(b[len..], more)
    ensures Aligned(b, len + more)
    ensures FrameCount(b, len + more) == FrameCount(b, len) + FrameCount(b[len..], more)
    decreases len
  {
    hide FrameBoundary;
    hide Aligned;
    hide FrameCount;
    hide StartsWith;
    if len == 0 {
      assert b[0..] == b;
      AlignedNone(b);
    } else {
      var end := AlignedStart(b, len);
      assert b[end..][len - end..] == b[len..];
      AlignedExtends(b[end..], len - end, more);
      AlignedAfter(b, end, len);
      AlignedAfter(b, end, len + more);
    }
  }

  datatype FrameScanResult = Ready(len: nat) | NotReady | Broken(reason: ScanError)

  /** Nothing complete starts at `pos`. */
  ghost predicate Stuck(b: bytes, pos: nat) {
    pos <= |b| && !CrlfAt(b, pos) && !FrameBoundary(b[pos..]).Complete?
  }

  /** As many whole frames and separators as there are, or the verdict on the first frame. */
  ghost predicate GoodScan(b: bytes, r: FrameScanResult) {
    match r
    case Ready(len) => 0 < len && Aligned(b, len) && Stuck(b, len)
    case NotReady => Stuck(b, 0) && FrameBoundary(b) == Incomplete
    case Broken(reason) => Stuck(b, 0) && FrameBoundary(b) == Invalid(reason)
  }

  method ScanCompleteFrames(b: bytes) returns (r: FrameScanResult)
    ensures GoodScan(b, r)
  {
    hide FrameBoundary;
    EmptyIsIncomplete();
    var position := 0;
    while position < |b|
      invariant position <= |b| && Aligned(b, position)
    {
      assert b[position..] != [];
      if CrlfAt(b, position) {
        assert Aligned(b[position..], 2) by { assert Aligned(b[position..][2..], 0); }
        AlignedExtends(b, position, 2);
        position := position + 2;
        continue;
      }
      assert b[0..] == b;
      match FrameBoundary(b[position..]) {
        case Complete(end) =>
          assert Aligned(b[position..], end) by { assert Aligned(b[position..][end..], 0); }
          AlignedExtends(b, position, end);
          position := position + end;
        case Incomplete => return if position > 0 then Ready(position) else NotReady;
        case Invalid(reason) => return if position > 0 then Ready(position) else Broken(reason);
      }
    }
    assert b[position..] == [];
    assert position == 0 ==> b == [];
    return if position > 0 then Ready(position) else NotReady;
  }

  lemma EmptyIsIncomplete()
    ensures FrameBoundary([]) == Incomplete
  {
  }

  datatype FrameBatch = FrameBatch(completeLen: nat, commandCount: nat, limitReached: bool)

  /** The bounded scan, from `pos` on with `count` commands behind it. */
  function BatchScan(b: bytes, pos: nat, count: nat, maxCommands: nat, maxBytes: nat)
    : (r: Result<FrameBatch, Boundary>)
    requires pos <= |b|
    decreases |b| - pos
  {
    if pos == |b| then
      if count > 0 then Success(FrameBatch(pos, count, count >= maxCommands || pos >= maxBytes))
      else Failure(Incomplete)
    else if CrlfAt(b, pos) then BatchScan(b, pos + 2, count, maxCommands, maxBytes)
    else if count >= maxCommands || (pos >= maxBytes && count > 0) then Success(FrameBatch(pos, count, true))
    else match FrameBoundary(b[pos..])
         case Complete(end) =>
           if count > 0 && pos + end > maxBytes then Success(FrameBatch(pos, count, true))
           else BatchScan(b, pos + end, count + 1, maxCommands, maxBytes)
         case verdict => if count > 0 then Success(FrameBatch(pos, count, false)) else Failure(verdict)
  }

  method ScanCompleteFramesBounded(b: bytes, maxCommands: nat, maxBytes: nat)
    returns (r: Result<FrameBatch, Boundary>)
    ensures r == BatchScan(b, 0, 0, maxCommands, maxBytes)
  {
    hide FrameBoundary;
    var position, count := 0, 0;
    while position < |b|
      invariant position <= |b|
      invariant BatchScan(b, 0, 0, maxCommands, maxBytes) == BatchScan(b, position, count, maxCommands, maxBytes)
    {
      if CrlfAt(b, position) {
        position := position + 2;
        continue;
      }
      if count >= maxCommands || (position >= maxBytes && count > 0) {
        return Success(FrameBatch(position, count, true));
      }
      match FrameBoundary(b[position..]) {
        case Complete(end) =>
          if count > 0 && position + end > maxBytes {
            return Success(FrameBatch(position, count, true));
          }
          position, count := position + end, count + 1;
        case verdict =>
          return if count > 0 then Success(FrameBatch(position, count, false)) else Failure(verdict);
      }
    }
    return if count > 0 then Success(FrameBatch(position, count, count >= maxCommands || position >= maxBytes))
           else Failure(Incomplete);
  }

  /** The commands are used up, or the bytes are, or the next frame is complete and would pass them; a
      first frame is never held back for its bytes. */
  ghost predicate LimitHit(b: bytes, len: nat, count: nat, maxCommands: nat, maxBytes: nat)
    requires len <= |b|
  {
    || count >= maxCommands
    || (count > 0 && len >= maxBytes)
    || (count > 0 && FrameBoundary(b[len..]).Complete? && len + FrameBoundary(b[len..]).end > maxBytes)
  }

  /** What one batch guarantees, seen from `pos` with `count` commands behind it. */
  ghost predicate GoodBatch(b: bytes, pos: nat, count: nat, maxCommands: nat, maxBytes: nat, batch: FrameBatch) {
    && pos <= batch.completeLen <= |b|
    && Aligned(b[pos..], batch.completeLen - pos)
    && batch.commandCount == count + FrameCount(b[pos..], batch.completeLen - pos)
    && (count <= maxCommands ==> batch.commandCount <= maxCommands)
    && (var e := LastFrameEnd(b[pos..], batch.completeLen - pos);
        e > 0 && (count > 0 || batch.commandCount > 1) ==> pos + e <= maxBytes)
    && !CrlfAt(b, batch.completeLen)
    && (batch.limitReached <==> LimitHit(b, batch.completeLen, batch.commandCount, maxCommands, maxBytes))
    && (batch.limitReached || Stuck(b, batch.completeLen))
  }

  lemma GoodAfterSeparator(b: bytes, pos: nat, count: nat, maxCommands: nat, maxBytes: nat, batch: FrameBatch)
    requires CrlfAt(b, pos) && GoodBatch(b, pos + 2, count, maxCommands, maxBytes, batch)
    ensures GoodBatch(b, pos, count, maxCommands, maxBytes, batch)
  {
    hide FrameBoundary;
    assert b[pos..][2..] == b[pos + 2..];
    assert CrlfAt(b[pos..], 0);
  }

  lemma GoodAfterFrame(b: bytes, pos: nat, count: nat, maxCommands: nat, maxBytes: nat, batch: FrameBatch)
    requires pos <= |b| && !CrlfAt(b, pos) && FrameBoundary(b[pos..]).Complete?
    requires count < maxCommands && (count > 0 ==> pos + FrameBoundary(b[pos..]).end <= maxBytes)
    requires GoodBatch(b, pos + FrameBoundary(b[pos..]).end, count + 1, maxCommands, maxBytes, batch)
    ensures GoodBatch(b, pos, count, maxCommands, maxBytes, batch)
  {
    hide FrameBoundary;
    var end := FrameBoundary(b[pos..]).end;
    assert b[pos..][end..] == b[pos + end..];
    assert !CrlfAt(b[pos..], 0);
  }

  lemma {:induction false} BatchIsGood(b: bytes, pos: nat, count: nat, maxCommands: nat, maxBytes: nat)
    requires pos <= |b|
    ensures var r := BatchScan(b, pos, count, maxCommands, maxBytes);
            && (r.Success? ==> GoodBatch(b, pos, count, maxCommands, maxBytes, r.value))
            && (r.Failure? ==> count == 0 && ParseMany(b[pos..]) == Unfinished(r.error) && !r.error.Complete?)
            && (r.Success? && maxCommands > 0 ==> r.value.commandCount > 0)
    decreases |b| - pos
  {
    hide FrameBoundary;
    hide GoodBatch;
    if pos == |b| {
      assert b[pos..] == [];
      EmptyIsIncomplete();
      if count > 0 { GoodHere(b, pos, count, maxCommands, maxBytes, count >= maxCommands || pos >= maxBytes); }
    } else if CrlfAt(b, pos) {
      assert b[pos..][2..] == b[pos + 2..];
      BatchIsGood(b, pos + 2, count, maxCommands, maxBytes);
      var r := BatchScan(b, pos + 2, count, maxCommands, maxBytes);
      if r.Success? { GoodAfterSeparator(b, pos, count, maxCommands, maxBytes, r.value); }
    } else if count >= maxCommands || (pos >= maxBytes && count > 0) {
      GoodHere(b, pos, count, maxCommands, maxBytes, true);
    } else if FrameBoundary(b[pos..]).Complete? {
      var end := FrameBoundary(b[pos..]).end;
      if count > 0 && pos + end > maxBytes {
        GoodHere(b, pos, count, maxCommands, maxBytes, true);
      } else {
        BatchIsGood(b, pos + end, count + 1, maxCommands, maxBytes);
        GoodAfterFrame(b, pos, count, maxCommands, maxBytes,
                       BatchScan(b, pos + end, count + 1, maxCommands, maxBytes).value);
      }
    } else if count > 0 {
      GoodHere(b, pos, count, maxCommands, maxBytes, false);
    }
  }

  lemma GoodHere(b: bytes, pos: nat, count: nat, maxCommands: nat, maxBytes: nat, limitReached: bool)
    requires pos <= |b| && !CrlfAt(b, pos) && (limitReached || Stuck(b, pos))
    requires limitReached <==> LimitHit(b, pos, count, maxCommands, maxBytes)
    ensures GoodBatch(b, pos, count, maxCommands, maxBytes, FrameBatch(pos, count, limitReached))
  {
    hide FrameBoundary;
  }

  /** The parse result of a buffer in which no frame is complete. */
  function Unfinished(verdict: Boundary): Result<seq<Frame>, ParseError> {
    if verdict.Invalid? then Failure(ScanFailed(verdict.reason)) else Success([])
  }

  /** One batch of a non-empty command limit. */
  lemma BatchContract(b: bytes, maxCommands: nat, maxBytes: nat, batch: FrameBatch)
    requires maxCommands > 0 && BatchScan(b, 0, 0, maxCommands, maxBytes) == Success(batch)
    ensures 0 < batch.completeLen && Aligned(b, batch.completeLen)
    ensures 0 < batch.commandCount == FrameCount(b, batch.completeLen) <= maxCommands
    ensures batch.commandCount > 1 ==> LastFrameEnd(b, batch.completeLen) <= maxBytes
    ensures batch.limitReached <==> LimitHit(b, batch.completeLen, batch.commandCount, maxCommands, maxBytes)
    ensures !CrlfAt(b, batch.completeLen) && (batch.limitReached || Stuck(b, batch.completeLen))
  {
    hide FrameBoundary;
    BatchIsGood(b, 0, 0, maxCommands, maxBytes);
    assert b[0..] == b;
  }

  datatype Drained = Drained(pieces: seq<bytes>, rest: bytes, verdict: Boundary)

  /** Cutting off one batch after the other until no complete frame is left. */
  function Drain(b: bytes, maxCommands: nat, maxBytes: nat): Drained
    requires maxCommands > 0
    decreases |b|
  {
    match BatchScan(b, 0, 0, maxCommands, maxBytes)
    case Failure(verdict) => Drained([], b, verdict)
    case Success(batch) =>
      BatchContract(b, maxCommands, maxBytes, batch);
      var more := Drain(b[batch.completeLen..], maxCommands, maxBytes);
      Drained([b[..batch.completeLen]] + more.pieces, more.rest, more.verdict)
  }

  function Concat(pieces: seq<bytes>): bytes {
    if pieces == [] then [] else pieces[0] + Concat(pieces[1..])
  }

  /** The frames of the pieces in order; the first failure wins. */
  function ParsePieces(pieces: seq<bytes>): Result<seq<Frame>, ParseError> {
    if pieces == [] then Success([]) else Then(ParseMany(pieces[0]), ParsePieces(pieces[1..]))
  }

  lemma DrainStep(b: bytes, maxCommands: nat, maxBytes: nat, batch: FrameBatch)
    requires maxCommands > 0 && BatchScan(b, 0, 0, maxCommands, maxBytes) == Success(batch)
    ensures 0 < batch.completeLen <= |b|
    ensures var d := Drain(b, maxCommands, maxBytes);
            var more := Drain(b[batch.completeLen..], maxCommands, maxBytes);
            && d == Drained([b[..batch.completeLen]] + more.pieces, more.rest, more.verdict)
            && Concat(d.pieces) == b[..batch.completeLen] + Concat(more.pieces)
            && ParsePieces(d.pieces) == Then(ParseMany(b[..batch.completeLen]), ParsePieces(more.pieces))
  {
    hide BatchScan;
    hide ParseMany;
    BatchContract(b, maxCommands, maxBytes, batch);
    var more := Drain(b[batch.completeLen..], maxCommands, maxBytes);
    assert ([b[..batch.completeLen]] + more.pieces)[1..] == more.pieces;
  }

  lemma DrainEnd(b: bytes, maxCommands: nat, maxBytes: nat)
    requires maxCommands > 0 && BatchScan(b, 0, 0, maxCommands, maxBytes).Failure?
    ensures Drain(b, maxCommands, maxBytes).pieces == [] && Drain(b, maxCommands, maxBytes).rest == b
    ensures Concat([]) == []
  {
    hide BatchScan;
  }

  /** No byte is lost by draining. */
  lemma {:induction false} DrainLosesNothing(b: bytes, maxCommands: nat, maxBytes: nat)
    requires maxCommands > 0
    ensures var d := Drain(b, maxCommands, maxBytes);
            Concat(d.pieces) + d.rest == b
    decreases |b|
  {
    hide BatchScan;
    hide Drain;
    hide Concat;
    hide ParseMany;
    hide ParsePieces;
    var r := BatchScan(b, 0, 0, maxCommands, maxBytes);
    if r.Success? {
      DrainStep(b, maxCommands, maxBytes, r.value);
      var len := r.value.completeLen;
      var more := Drain(b[len..], maxCommands, maxBytes);
      DrainLosesNothing(b[len..], maxCommands, maxBytes);
      Assoc(b[..len], Concat(more.pieces), more.rest);
      assert b[..len] + b[len..] == b;
    } else {
      DrainEnd(b, maxCommands, maxBytes);
      assert [] + b == b;
    }
  }

  /** Parsing the drained pieces one by one gives what parsing the whole buffer gives. */
  lemma {:induction false} DrainParsesTheSame(b: bytes, maxCommands: nat, maxBytes: nat)
    requires maxCommands > 0
    ensures var d := Drain(b, maxCommands, maxBytes);
            ParseMany(b) == Then(ParsePieces(d.pieces), Unfinished(d.verdict)) && !d.verdict.Complete?
    decreases |b|
  {
    hide BatchScan;
    hide ParseMany;
    var r := BatchScan(b, 0, 0, maxCommands, maxBytes);
    BatchIsGood(b, 0, 0, maxCommands, maxBytes);
    assert b[0..] == b;
    var d := Drain(b, maxCommands, maxBytes);
    if r.Success? {
      BatchContract(b, maxCommands, maxBytes, r.value);
      var len := r.value.completeLen;
      DrainStep(b, maxCommands, maxBytes, r.value);
      DrainParsesTheSame(b[len..], maxCommands, maxBytes);
      var more := Drain(b[len..], maxCommands, maxBytes);
      ParseManySplit(b, len);
      ThenAssoc(ParseMany(b[..len]), ParsePieces(more.pieces), Unfinished(d.verdict));
    } else {
      ThenNothing(Unfinished(d.verdict));
    }
  }

  // However the bytes arrive.

  lemma LoneReturnIsIncomplete()
    ensures FrameBoundary([CR]) == Incomplete
  {
  }

  /** What starts a buffer that already holds it whole goes on starting it as more bytes arrive. */
  lemma StartStays(b: bytes, s: bytes, end: nat)
    requires b != [] && StartsWith(b, end)
    ensures StartsWith(b + s, end)
  {
    hide FrameBoundary;
    LoneReturnIsIncomplete();
    if CrlfAt(b, 0) {
      assert CrlfAt(b + s, 0);
    } else {
      Streaming.VerdictIsStable(b, s);
      assert |b| == 1 && b[0] == CR ==> b == [CR];
    }
  }

  /** And it depends on its own bytes only. */
  lemma StartCut(b: bytes, end: nat, k: nat)
    requires StartsWith(b, end) && 0 < end <= k <= |b|
    ensures StartsWith(b[..k], end)
  {
    hide FrameBoundary;
    if CrlfAt(b, 0) {
      assert CrlfAt(b[..k], 0);
    } else {
      assert b[..k][..end] == b[..end];
      Streaming.FrameDependsOnItsBytes(b, b[..k]);
    }
  }

  lemma {:induction false} AlignedGrows(b: bytes, s: bytes, len: nat)
    requires len <= |b| && Aligned(b, len)
    ensures Aligned(b + s, len)
    decreases len
  {
    hide Aligned;
    hide StartsWith;
    if len == 0 {
      AlignedNone(b + s);
    } else {
      var end := AlignedStart(b, len);
      StartStays(b, s, end);
      assert (b + s)[end..] == b[end..] + s;
      AlignedGrows(b[end..], s, len - end);
      AlignedAfter(b + s, end, len);
    }
  }

  lemma {:induction false} AlignedCut(b: bytes, len: nat)
    requires len <= |b| && Aligned(b, len)
    ensures Aligned(b[..len], len)
    decreases len
  {
    hide Aligned;
    hide StartsWith;
    if len == 0 {
      AlignedNone(b[..len]);
    } else {
      var end := AlignedStart(b, len);
      StartCut(b, end, len);
      assert b[..len][end..] == b[end..][..len - end];
      AlignedCut(b[end..], len - end);
      AlignedAfter(b[..len], end, len);
    }
  }

  /** Pieces that cut nothing in two. */
  ghost predicate Whole(pieces: seq<bytes>) {
    forall i :: 0 <= i < |pieces| ==> Aligned(pieces[i], |pieces[i]|)
  }

  lemma {:induction false} ConcatNext(pieces: seq<bytes>, piece: bytes)
    ensures Concat(pieces + [piece]) == Concat(pieces) + piece
    decreases |pieces|
  {
    if pieces == [] {
      assert pieces + [piece] == [piece] && [piece][1..] == [];
      assert Concat([piece]) == piece + Concat([]);
    } else {
      assert (pieces + [piece])[1..] == pieces[1..] + [piece];
      ConcatNext(pieces[1..], piece);
      Assoc(pieces[0], Concat(pieces[1..]), piece);
    }
  }

  /** Whole pieces parsed one by one, and then what follows them, are everything parsed at once. */
  lemma {:induction false} PiecesThenRest(pieces: seq<bytes>, rest: bytes)
    requires Whole(pieces)
    ensures ParseMany(Concat(pieces) + rest) == Then(ParsePieces(pieces), ParseMany(rest))
    decreases |pieces|
  {
    hide ParseMany;
    hide Aligned;
    if pieces == [] {
      assert Concat(pieces) + rest == rest;
      ThenNothing(ParseMany(rest));
    } else {
      var first, more := pieces[0], Concat(pieces[1..]) + rest;
      Assoc(first, Concat(pieces[1..]), rest);
      PiecesThenRest(pieces[1..], rest);
      AlignedGrows(first, more, |first|);
      ParseManySplit(first + more, |first|);
      assert (first + more)[..|first|] == first && (first + more)[|first|..] == more;
      ThenAssoc(ParseMany(first), ParsePieces(pieces[1..]), ParseMany(rest));
    }
  }

  /** A connection's read buffer; `received` is everything that arrived, `handed` the pieces handed
      over so far. */
  class Connection {
    var readBuf: bytes
    ghost var received: bytes
    ghost var handed: seq<bytes>

    ghost predicate Valid()
      reads this
    {
      Whole(handed) && Concat(handed) + readBuf == received
    }

    constructor ()
      ensures Valid() && received == [] && handed == []
    {
      readBuf, received, handed := [], [], [];
    }

    /** Whatever chunks the bytes came in and whenever they were handed over, the pieces parsed one
        by one and then the buffer give the frames, or the error, of everything received. */
    lemma ChunksDoNotMatter()
      requires Valid()
      ensures ParseMany(received) == Then(ParsePieces(handed), ParseMany(readBuf))
    {
      PiecesThenRest(handed, readBuf);
    }

    /** Bytes from the socket are taken in unless the buffer would pass the frame limit. Nothing that
        was complete or invalid before is judged again. */
    method Receive(chunk: bytes) returns (ok: bool)
      requires Valid()
      modifies this
      ensures Valid() && handed == old(handed)
      ensures received == if ok then old(received) + chunk else old(received)
      ensures ok <==> |old(readBuf)| + |chunk| <= MAX_FRAME_BYTES
      ensures !FrameBoundary(old(readBuf)).Incomplete? ==> FrameBoundary(readBuf) == FrameBoundary(old(readBuf))
    {
      hide FrameBoundary;
      hide Whole;
      if |readBuf| + |chunk| > MAX_FRAME_BYTES {
        return false;
      }
      if !FrameBoundary(readBuf).Incomplete? {
        Streaming.VerdictIsStable(readBuf, chunk);
      }
      Assoc(Concat(handed), readBuf, chunk);
      readBuf := readBuf + chunk;
      received := received + chunk;
      return true;
    }

    method TakeCompleteReadBytes(completeLen: nat) returns (taken: bytes)
      requires Valid() && completeLen <= |readBuf| && Aligned(readBuf, completeLen)
      modifies this
      ensures Valid() && received == old(received) && handed == old(handed) + [taken]
      ensures taken + readBuf == old(readBuf) && |taken| == completeLen
    {
      hide Aligned;
      hide Concat;
      taken := readBuf[..completeLen];
      AlignedCut(readBuf, completeLen);
      ConcatNext(handed, taken);
      assert readBuf == taken + readBuf[completeLen..];
      Assoc(Concat(handed), taken, readBuf[completeLen..]);
      readBuf := readBuf[completeLen..];
      handed := handed + [taken];
    }

    /** Hand over the next batch, or leave the buffer alone when no frame is complete. */
    method NextBatch(maxCommands: nat, maxBytes: nat) returns (r: Result<bytes, Boundary>)
      requires Valid() && maxCommands > 0
      modifies this
      ensures Valid() && received == old(received)
      ensures handed == old(handed) + if r.Success? then [r.value] else []
      ensures r.Success? ==> r.value + readBuf == old(readBuf) && r.value != []
      ensures r.Success? ==> [r.value] + Drain(readBuf, maxCommands, maxBytes).pieces ==
                             old(Drain(readBuf, maxCommands, maxBytes).pieces)
      ensures r.Failure? ==> readBuf == old(readBuf) && Drain(readBuf, maxCommands, maxBytes).pieces == []
    {
      hide BatchScan;
      hide Aligned;
      hide Whole;
      hide Concat;
      hide ParseMany;
      hide Drain;
      var scan := ScanCompleteFramesBounded(readBuf, maxCommands, maxBytes);
      if scan.Failure? {
        DrainEnd(readBuf, maxCommands, maxBytes);
        return Failure(scan.error);
      }
      BatchContract(readBuf, maxCommands, maxBytes, scan.value);
      DrainStep(readBuf, maxCommands, maxBytes, scan.value);
      var taken := TakeCompleteReadBytes(scan.value.completeLen);
      assert old(readBuf)[..scan.value.completeLen] == taken;
      assert old(readBuf)[scan.value.completeLen..] == readBuf;
      return Success(taken);
    }
  }
}
