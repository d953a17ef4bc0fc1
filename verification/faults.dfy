/** Exactly which measured frames the parser refuses. */
module Faults {
  import opened Bytes
  import opened Frames
  import opened Scanner
  import opened Parser
  import opened Agreement
  import Decimal
  import Quotes

  /** A verbatim string whose payload is too short for a format, or has no colon behind it. */
  predicate BadVerbatim(b: bytes)
    requires b != []
  {
    b[0] == EQUALS && PrefixedLengthLine(b).HeaderLine?
    && (var start := PrefixedLengthLine(b).end;
        var len := Decimal.ParseUsize(PrefixedLengthLine(b).line);
        len.Some? && (len.value < 4 || start + 3 >= |b| || b[start + 3] != COLON))
  }

  /** Such a string is the frame, or one of the frames inside it as the scanner finds them. */
  predicate Spoiled(b: bytes, depth: nat, left: nat)
    decreases |b|, 1, 0
  {
    b != [] && left > 0 &&
    if !IsAggregatePrefix(b[0]) then BadVerbatim(b)
    else
      AggregateHeader(b, depth).Elements? &&
      SpoiledElements(b, AggregateHeader(b, depth).start, AggregateHeader(b, depth).count, depth + 1, left - 1)
  }

  predicate SpoiledElements(b: bytes, pos: nat, count: nat, depth: nat, left: nat)
    requires 0 < pos <= |b|
    decreases |b|, 0, count
  {
    count > 0 && pos < |b| &&
    (var element := FrameScan(b[pos..], false, depth, left);
     || Spoiled(b[pos..], depth, left)
     || (element.verdict.Complete?
         && SpoiledElements(b, pos + element.verdict.end, count - 1, depth, element.left)))
  }

  lemma VerbatimFault(b: bytes)
    requires b != [] && b[0] == EQUALS && PayloadScan(b, VerbatimPayload).Complete?
    ensures ParseLeaf(b).Failure? <==> BadVerbatim(b)
  {
    hide PrefixedLengthLine;
    hide LengthText;
    hide Decimal.ParseUsize;
    HeaderAgrees(b);
  }

  lemma OtherPayloadsParse(b: bytes, kind: PayloadKind)
    requires b != [] && PayloadKindOf(b[0]) == Some(kind) && b[0] != EQUALS && PayloadScan(b, kind).Complete?
    ensures ParseLeaf(b).Success?
  {
    hide PayloadScan;
    hide FindCrlf;
    hide Decimal.ParseUsize;
    PayloadAgrees(b, kind);
  }

  lemma LeafFault(b: bytes, topLevel: bool)
    requires HasTypeByte(b) && !IsAggregatePrefix(b[0]) && LeafScan(b, topLevel).Complete?
    ensures ParseLeaf(b).Failure? <==> BadVerbatim(b)
  {
    hide PayloadScan;
    hide ParseBlob;
    hide ParseBulk;
    hide ParseLine;
    hide LineScan;
    if IsLinePrefix(b[0]) {
      LineAgrees(b);
    } else if b[0] == EQUALS {
      VerbatimFault(b);
    } else {
      OtherPayloadsParse(b, PayloadKindOf(b[0]).value);
    }
  }

  /** A measured frame with a type byte is refused if and only if it holds a bad verbatim string. */
  lemma {:induction false} RefusedIffSpoiled(b: bytes, topLevel: bool, depth: nat, left: nat)
    requires depth <= MAX_ARRAY_NESTING_DEPTH && FrameScan(b, topLevel, depth, left).verdict.Complete?
    requires HasTypeByte(b)
    ensures ParsePrefix(b, depth).Failure? <==> Spoiled(b, depth, left)
    decreases |b|, 1, 0
  {
    hide FrameScan;
    hide ParsePrefix;
    hide ElementsScan;
    hide ParseElements;
    hide LeafScan;
    hide ParseLeaf;
    hide AggregateHeader;
    hide ParseShape;
    hide Build;
    hide BadVerbatim;
    hide SpoiledElements;
    FinalScan(b, topLevel, depth, left);
    UnfoldScan(b, topLevel, depth, left);
    UnfoldParse(b, depth);
    if !IsAggregatePrefix(b[0]) {
      LeafFault(b, topLevel);
    } else {
      ShapeAgrees(b, depth);
      if AggregateHeader(b, depth).Elements? {
        var header := AggregateHeader(b, depth);
        RefusedIffElementSpoiled(b, header.start, header.count, depth + 1, left - 1);
      }
    }
  }

  lemma {:induction false} RefusedIffElementSpoiled(b: bytes, pos: nat, count: nat, depth: nat, left: nat)
    requires 0 < pos <= |b| && pos <= MAX_FRAME_BYTES && depth <= MAX_ARRAY_NESTING_DEPTH
    requires ElementsScan(b, pos, count, depth, left).verdict.Complete?
    ensures ParseElements(b, pos, count, depth).Failure? <==> SpoiledElements(b, pos, count, depth, left)
    decreases |b|, 0, count
  {
    hide FrameScan;
    hide ParsePrefix;
    hide Spoiled;
    if count > 0 {
      var element := FrameScan(b[pos..], false, depth, left);
      ParserAgrees(b[pos..], false, depth, left);
      RefusedIffSpoiled(b[pos..], false, depth, left);
      RefusedIffElementSpoiled(b, pos + element.verdict.end, count - 1, depth, element.left);
    }
  }

  /** What the client did wrong in a measured frame that is refused. */
  predicate Refused(frame: bytes)
    requires FrameBoundary(frame) == Complete(|frame|)
  {
    if HasTypeByte(frame) then Spoiled(frame, 0, MAX_FRAME_NODES)
    else
      assert |frame| >= 2 by { MeasuredInline(frame); }
      var line := frame[..|frame| - 2];
      !Quotes.WellQuoted(line) || Quotes.ArgumentCount(line) > MAX_ARRAY_ELEMENTS
  }

  lemma MeasuredInline(frame: bytes)
    requires FrameBoundary(frame) == Complete(|frame|) && !HasTypeByte(frame)
    ensures |frame| >= 2 && InlineScan(frame) == Complete(|frame|) && ParsePrefix(frame, 0) == ParseInline(frame)
  {
    hide InlineScan;
    hide ParseInline;
    hide FrameScan;
    hide ParsePrefix;
    hide LeafScan;
    hide ParseLeaf;
    FinalScan(frame, true, 0, MAX_FRAME_NODES);
    UnfoldScan(frame, true, 0, MAX_FRAME_NODES);
    UnfoldParse(frame, 0);
    NoTypeByte(frame);
    InlineHasTerminator(frame);
  }

  lemma NoTypeByte(b: bytes)
    requires b != [] && !HasTypeByte(b)
    ensures LeafScan(b, true) == InlineScan(b) && ParseLeaf(b) == ParseInline(b) && !IsAggregatePrefix(b[0])
  {
    hide InlineScan;
    hide ParseInline;
  }

  lemma InlineHasTerminator(b: bytes)
    requires InlineScan(b).Complete?
    ensures InlineScan(b).end >= 2
  {
  }

  /** The bytes that the scanner measured as one frame are refused by the parser if and only if the
      frame holds a bad verbatim string or, for an inline command, is badly quoted or has too many
      arguments. */
  lemma RefusedExactly(b: bytes)
    requires FrameBoundary(b).Complete?
    ensures var frame := b[..FrameBoundary(b).end];
            && FrameBoundary(frame) == Complete(|frame|)
            && (ParseFromBytes(frame).Failure? <==> Refused(frame))
  {
    hide ParsePrefix;
    hide ParseInline;
    hide InlineScan;
    hide Spoiled;
    var frame := b[..FrameBoundary(b).end];
    MeasuredFrameParses(b);
    ParserAgrees(frame, true, 0, MAX_FRAME_NODES);
    if HasTypeByte(frame) {
      RefusedIffSpoiled(frame, true, 0, MAX_FRAME_NODES);
    } else {
      MeasuredInline(frame);
      InlineAgrees(frame);
    }
  }
}
