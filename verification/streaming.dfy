/** A scanner verdict never changes as more bytes arrive, and a frame's end depends on its own bytes only. */
module Streaming {
  import opened Bytes
  import opened Frames
  import opened Scanner

  lemma HeaderExtends(b: bytes, s: bytes)
    requires b != [] && !PrefixedLengthLine(b).NoHeader?
    ensures PrefixedLengthLine(b + s) == PrefixedLengthLine(b)
  {
    var limit := Min(|b|, MAX_LENGTH_HEADER_BYTES);
    var limit' := Min(|b + s|, MAX_LENGTH_HEADER_BYTES);
    assert (b + s)[..limit'] == b[..limit] + (b + s)[limit..limit'];
    if FindCrlf(b[..limit], 1).Some? {
      FindCrlfExtends(b[..limit], (b + s)[limit..limit'], 1);
      var i := FindCrlf(b[..limit], 1).value;
      assert (b + s)[1..i] == b[1..i];
    } else {
      assert (b + s)[limit..limit'] == [];
      assert b[..limit] + [] == b[..limit];
    }
  }

  lemma HeaderCut(b: bytes, k: nat)
    requires 0 < k <= |b| && PrefixedLengthLine(b).HeaderLine?
    ensures PrefixedLengthLine(b[..k]) ==
            if PrefixedLengthLine(b).end <= k then PrefixedLengthLine(b) else NoHeader
  {
    hide Utf8.Valid;
    hide FindCrlf;
    var limit := Min(|b|, MAX_LENGTH_HEADER_BYTES);
    var limit' := Min(k, MAX_LENGTH_HEADER_BYTES);
    var i := PrefixedLengthLine(b).end - 2;
    assert FindCrlf(b[..limit], 1) == Some(i);
    FindCrlfCut(b[..limit], 1, limit');
    assert b[..limit][..limit'] == b[..k][..limit'];
    assert FindCrlf(b[..k][..limit'], 1) == if i + 2 <= limit' then Some(i) else None;
    if i + 2 <= k {
      assert b[..k][1..i] == b[1..i];
    }
  }

  lemma LeafExtends(b: bytes, s: bytes, topLevel: bool)
    requires b != [] && !LeafScan(b, topLevel).Incomplete?
    ensures LeafScan(b + s, topLevel) == LeafScan(b, topLevel)
  {
    assert (b + s)[0] == b[0];
    if PayloadKindOf(b[0]).Some? && !IsLinePrefix(b[0]) {
      HeaderExtends(b, s);
    } else if FindCrlf(b, 0).Some? {
      FindCrlfExtends(b, s, 0);
      var i := FindCrlf(b, 0).value;
      assert (b + s)[..i] == b[..i];
      if i >= 1 {
        assert (b + s)[1..i] == b[1..i];
      }
    } else {
      var r := FindCrlf(b + s, 0);
      if r.Some? && r.value + 2 <= |b| {
        assert CrlfAt(b, r.value);
      }
    }
  }

  lemma LeafCut(b: bytes, topLevel: bool, k: nat)
    requires 0 < k <= |b| && LeafScan(b, topLevel).Complete?
    ensures LeafScan(b[..k], topLevel) ==
            if LeafScan(b, topLevel).end <= k then LeafScan(b, topLevel) else Incomplete
  {
    hide LineScan;
    hide PayloadScan;
    hide InlineScan;
    if IsLinePrefix(b[0]) {
      LineCut(b, k);
    } else if PayloadKindOf(b[0]).Some? {
      PayloadCut(b, PayloadKindOf(b[0]).value, k);
    } else {
      InlineCut(b, k);
    }
  }

  lemma PayloadCut(b: bytes, kind: PayloadKind, k: nat)
    requires 0 < k <= |b| && PayloadScan(b, kind).Complete?
    ensures PayloadScan(b[..k], kind) == if PayloadScan(b, kind).end <= k then PayloadScan(b, kind) else Incomplete
  {
    hide PrefixedLengthLine;
    hide Decimal.ParseUsize;
    HeaderCut(b, k);
  }

  lemma LineCut(b: bytes, k: nat)
    requires 0 < k <= |b| && IsLinePrefix(b[0]) && LineScan(b).Complete?
    ensures LineScan(b[..k]) == if LineScan(b).end <= k then LineScan(b) else Incomplete
  {
    FindCrlfCut(b, 0, k);
    var i := FindCrlf(b, 0).value;
    if i + 2 <= k {
      assert b[..k][1..i] == b[1..i];
    }
  }

  lemma InlineCut(b: bytes, k: nat)
    requires 0 < k <= |b| && InlineScan(b).Complete?
    ensures InlineScan(b[..k]) == if InlineScan(b).end <= k then InlineScan(b) else Incomplete
  {
    FindCrlfCut(b, 0, k);
    var i := FindCrlf(b, 0).value;
    if i + 2 <= k {
      assert b[..k][..i] == b[..i];
    }
  }

  lemma AggregateHeaderExtends(b: bytes, s: bytes, depth: nat)
    requires b != [] && AggregateHeader(b, depth) != Stop(Incomplete)
    ensures AggregateHeader(b + s, depth) == AggregateHeader(b, depth)
  {
    assert (b + s)[0] == b[0];
    if depth < MAX_ARRAY_NESTING_DEPTH {
      HeaderExtends(b, s);
    }
  }

  lemma AggregateHeaderCut(b: bytes, depth: nat, k: nat)
    requires 0 < k <= |b|
    requires AggregateHeader(b, depth).Elements? || AggregateHeader(b, depth).verdict.Complete?
    ensures var end := match AggregateHeader(b, depth) case Elements(start, _) => start case Stop(v) => v.end;
            AggregateHeader(b[..k], depth) == if end <= k then AggregateHeader(b, depth) else Stop(Incomplete)
  {
    HeaderCut(b, k);
  }

  /** A final verdict (complete or invalid) and the budget spent survive any continuation. */
  lemma {:induction false} ScanExtends(b: bytes, s: bytes, topLevel: bool, depth: nat, left: nat)
    requires !FrameScan(b, topLevel, depth, left).verdict.Incomplete?
    ensures FrameScan(b + s, topLevel, depth, left) == FrameScan(b, topLevel, depth, left)
    decreases |b|, 1, 0
  {
    hide ElementsScan;
    hide LeafScan;
    hide AggregateHeader;
    assert (b + s)[0] == b[0];
    if left > 0 {
      UnfoldScan(b, topLevel, depth, left);
      UnfoldScan(b + s, topLevel, depth, left);
      if IsAggregatePrefix(b[0]) {
        AggregateHeaderExtends(b, s, depth);
        var h := AggregateHeader(b, depth);
        if h.Elements? {
          ElementsExtend(b, s, h.start, h.count, depth + 1, left - 1);
        }
      } else {
        LeafExtends(b, s, topLevel);
      }
    }
  }

  lemma {:induction false} ElementsExtend(b: bytes, s: bytes, pos: nat, count: nat, depth: nat, left: nat)
    requires 0 < pos <= |b|
    requires !ElementsScan(b, pos, count, depth, left).verdict.Incomplete?
    ensures ElementsScan(b + s, pos, count, depth, left) == ElementsScan(b, pos, count, depth, left)
    decreases |b|, 0, count
  {
    hide FrameScan;
    if count > 0 {
      assert (b + s)[pos..] == b[pos..] + s;
      ScanExtends(b[pos..], s, false, depth, left);
      var element := FrameScan(b[pos..], false, depth, left);
      if element.verdict.Complete? && pos + element.verdict.end <= MAX_FRAME_BYTES {
        ElementsExtend(b, s, pos + element.verdict.end, count - 1, depth, element.left);
      }
    }
  }

  /** Cut a buffer holding a complete frame: behind the frame nothing changes, inside it the
      frame is incomplete, never invalid and never shorter. */
  lemma {:induction false} ScanCut(b: bytes, topLevel: bool, depth: nat, left: nat, k: nat)
    requires k <= |b| && FrameScan(b, topLevel, depth, left).verdict.Complete?
    ensures var whole := FrameScan(b, topLevel, depth, left);
            var cut := FrameScan(b[..k], topLevel, depth, left);
            if whole.verdict.end <= k then cut == whole else cut.verdict == Incomplete
    decreases |b|, 1, 0
  {
    hide ElementsScan;
    hide LeafScan;
    hide AggregateHeader;
    if k > 0 {
      assert b[..k][0] == b[0];
      UnfoldScan(b, topLevel, depth, left);
      UnfoldScan(b[..k], topLevel, depth, left);
      if IsAggregatePrefix(b[0]) {
        AggregateHeaderCut(b, depth, k);
        var h := AggregateHeader(b, depth);
        if h.Elements? && h.start <= k {
          ElementsCut(b, h.start, h.count, depth + 1, left - 1, k);
        }
      } else {
        LeafCut(b, topLevel, k);
      }
    }
  }

  lemma {:induction false} ElementsCut(b: bytes, pos: nat, count: nat, depth: nat, left: nat, k: nat)
    requires 0 < pos <= k <= |b| && ElementsScan(b, pos, count, depth, left).verdict.Complete?
    ensures var whole := ElementsScan(b, pos, count, depth, left);
            var cut := ElementsScan(b[..k], pos, count, depth, left);
            if whole.verdict.end <= k then cut == whole else cut.verdict == Incomplete
    decreases |b|, 0, count
  {
    hide FrameScan;
    if count > 0 && pos < k {
      var tail := b[pos..];
      var element := FrameScan(tail, false, depth, left);
      ScanCut(tail, false, depth, left, k - pos);
      assert b[..k][pos..] == tail[..k - pos];
      var next := pos + element.verdict.end;
      if next <= k {
        ElementsCut(b, next, count - 1, depth, element.left, k);
      }
    }
  }

  /** Streaming stability of the top-level scanner. */
  lemma VerdictIsStable(b: bytes, s: bytes)
    requires !FrameBoundary(b).Incomplete?
    ensures FrameBoundary(b + s) == FrameBoundary(b)
  {
    ScanExtends(b, s, true, 0, MAX_FRAME_NODES);
  }

  /** Where a frame ends is decided by the bytes of that frame: any buffer that starts with them
      gives the same end. */
  lemma FrameDependsOnItsBytes(b: bytes, other: bytes)
    requires FrameBoundary(b).Complete?
    requires |other| >= FrameBoundary(b).end
    requires other[..FrameBoundary(b).end] == b[..FrameBoundary(b).end]
    ensures FrameBoundary(other) == FrameBoundary(b)
  {
    hide FrameScan;
    var n := FrameBoundary(b).end;
    ScanCut(b, true, 0, MAX_FRAME_NODES, n);
    assert other == b[..n] + other[n..];
    VerdictIsStable(b[..n], other[n..]);
  }

  /** No proper prefix of a frame is a frame or an error. */
  lemma FrameHasNoShorterVerdict(b: bytes, k: nat)
    requires FrameBoundary(b).Complete? && k < FrameBoundary(b).end
    ensures FrameBoundary(b[..k]) == Incomplete
  {
    hide FrameScan;
    ScanCut(b, true, 0, MAX_FRAME_NODES, k);
  }
}
