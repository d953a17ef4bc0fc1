/** The parser never disagrees with the scanner that ran before it. */
module Agreement {
  import opened Bytes
  import opened Frames
  import opened Scanner
  import opened Parser
  import Streaming
  import Inline
  import Decimal
  import Quotes

  /** Does the frame start with a type byte (as opposed to an inline command)? */
  predicate HasTypeByte(b: bytes) {
    b != [] && (IsLinePrefix(b[0]) || PayloadKindOf(b[0]).Some? || IsAggregatePrefix(b[0]))
  }

  /** The protocol limits, on a parsed frame that took `nodes` of the budget and `len` bytes. */
  ghost predicate Accepted(f: Frame, depth: nat, nodes: int, len: nat) {
    && Nodes(f) == nodes
    && depth + Height(f) <= MAX_ARRAY_NESTING_DEPTH
    && len <= MAX_FRAME_BYTES
    && Numeric(f)
  }

  /** The limits on a parsed inline command, which is one array of bulk strings. */
  ghost predicate InlineAccepted(f: Frame, len: nat) {
    Nodes(f) <= MAX_FRAME_NODES && Height(f) == 1 && len <= MAX_FRAME_BYTES && Numeric(f)
  }

  /** What may still go wrong once the scanner has said where a frame ends. */
  predicate LateFault(b: bytes, topLevel: bool, e: ParseError) {
    || e == VerbatimInvalid
    || (topLevel && !HasTypeByte(b) && e.InlineInvalid? && !e.fault.ControlCharacter?)
  }

  ghost predicate Agrees(b: bytes, topLevel: bool, depth: nat, left: nat,
                         scan: Scan, r: Result<Parsed, ParseError>)
  {
    match r
    case Success(parsed) =>
      && scan.verdict == Complete(parsed.consumed)
      && (if HasTypeByte(b) then Accepted(parsed.frame, depth, left - scan.left, parsed.consumed)
          else InlineAccepted(parsed.frame, parsed.consumed))
    case Failure(e) => LateFault(b, topLevel, e)
  }

  /** Scanner and parser read the same length header. */
  lemma HeaderAgrees(b: bytes)
    requires b != [] && b[0] != CR && PrefixedLengthLine(b).HeaderLine?
    ensures LengthText(b) == Success((PrefixedLengthLine(b).line, PrefixedLengthLine(b).end))
  {
    var window := b[..Min(|b|, MAX_LENGTH_HEADER_BYTES)];
    var i := FindCrlf(window, 1).value;
    forall j | 0 <= j < i ensures !CrlfAt(b, j) {
      if j >= 1 { assert !CrlfAt(window, j); }
    }
    FindCrlfIs(b, 0, i);
  }

  ghost predicate LeafAccepted(b: bytes, f: Frame) {
    HasTypeByte(b) ==> !IsAggregate(f) && NumericNode(f)
  }

  lemma PayloadAgrees(b: bytes, kind: PayloadKind)
    requires b != [] && PayloadKindOf(b[0]) == Some(kind)
    requires PayloadScan(b, kind).Complete?
    ensures ParseLeaf(b).Success? ==>
              ParseLeaf(b).value.consumed == PayloadScan(b, kind).end && LeafAccepted(b, ParseLeaf(b).value.frame)
    ensures PayloadScan(b, kind).end <= MAX_FRAME_BYTES
    ensures ParseLeaf(b).Failure? ==> ParseLeaf(b).error == VerbatimInvalid
  {
    hide PrefixedLengthLine;
    hide LengthText;
    hide Decimal.ParseUsize;
    HeaderAgrees(b);
    if kind.BulkPayload? {
      var end := PayloadScan(b, kind).end;
      Streaming.HeaderCut(b, end);
      HeaderAgrees(b[..end]);
    }
  }

  lemma {:induction false} BulkStringsAccepted(arguments: seq<bytes>)
    ensures var frames := BulkStrings(arguments);
            NodesSeq(frames) == |arguments| && HeightSeq(frames) == 0 && NumericSeq(frames)
    decreases |arguments|
  {
    if arguments != [] {
      assert BulkStrings(arguments)[1..] == BulkStrings(arguments[1..]);
      BulkStringsAccepted(arguments[1..]);
    }
  }

  /** A measured inline line is parsed whole and within the limits, exactly when it is well quoted
      and has no more arguments than the limit. */
  lemma InlineAgrees(b: bytes)
    requires b != [] && !HasTypeByte(b) && InlineScan(b).Complete?
    ensures var line := b[..InlineScan(b).end - 2];
            ParseInline(b).Success? <==> Quotes.WellQuoted(line) && Quotes.ArgumentCount(line) <= MAX_ARRAY_ELEMENTS
    ensures ParseInline(b).Success? ==>
              && ParseInline(b).value.consumed == InlineScan(b).end
              && InlineAccepted(ParseInline(b).value.frame, InlineScan(b).end)
    ensures ParseInline(b).Failure? ==> LateFault(b, true, ParseInline(b).error)
  {
    hide Inline.ReadToken;
    hide Quotes.WellQuoted;
    hide Quotes.ArgumentCount;
    var i := FindCrlf(b, 0).value;
    var line := b[..i];
    Inline.NoControlFault(line, 0, []);
    Quotes.ReadableLines(line);
    var j := Inline.SkipBlanks(line, 0);
    assert line[0..|line|] == line;
    assert j < |line|;
    var r := Inline.ReadArguments(line, 0, []);
    if r.Success? {
      BulkStringsAccepted(r.value);
      NodesOfKids(Array(BulkStrings(r.value)));
    }
  }

  lemma LineAgrees(b: bytes)
    requires b != [] && IsLinePrefix(b[0]) && LineScan(b).Complete?
    ensures ParseLine(b).Success? && ParseLine(b).value.consumed == LineScan(b).end
    ensures LineScan(b).end <= MAX_FRAME_BYTES && LeafAccepted(b, ParseLine(b).value.frame)
  {
    var i := FindCrlf(b, 0).value;
    assert LineFault(b[0], b[1..i]).None?;
  }

  lemma LeafIsAccepted(f: Frame, depth: nat, len: nat)
    requires !IsAggregate(f) && NumericNode(f)
    requires depth <= MAX_ARRAY_NESTING_DEPTH && len <= MAX_FRAME_BYTES
    ensures Accepted(f, depth, 1, len)
  {
  }

  ghost predicate AcceptedSeq(frames: seq<Frame>, depth: nat, nodes: int, len: nat) {
    && NodesSeq(frames) == nodes
    && depth + HeightSeq(frames) <= MAX_ARRAY_NESTING_DEPTH
    && len <= MAX_FRAME_BYTES
    && NumericSeq(frames)
  }

  lemma AggregateIsAccepted(f: Frame, depth: nat, nodes: int, len: nat)
    requires IsAggregate(f) && AcceptedSeq(Kids(f), depth + 1, nodes, len)
    ensures Accepted(f, depth, nodes + 1, len)
  {
    NodesOfKids(f);
  }

  lemma LeafAgrees(b: bytes, topLevel: bool, depth: nat, left: nat)
    requires b != [] && !IsAggregatePrefix(b[0]) && LeafScan(b, topLevel).Complete?
    requires depth <= MAX_ARRAY_NESTING_DEPTH && left > 0
    ensures Agrees(b, topLevel, depth, left, Scan(LeafScan(b, topLevel), left - 1), ParseLeaf(b))
    ensures topLevel || HasTypeByte(b)
  {
    if IsLinePrefix(b[0]) {
      LineAgrees(b);
    } else if PayloadKindOf(b[0]).Some? {
      PayloadAgrees(b, PayloadKindOf(b[0]).value);
    } else {
      InlineAgrees(b);
    }
    var r := ParseLeaf(b);
    if r.Success? && HasTypeByte(b) {
      LeafIsAccepted(r.value.frame, depth, r.value.consumed);
    }
  }

  /** Element counts that the header promises always make a well-formed aggregate. */
  lemma BuildSucceeds(prefix: byte, len: nat, frames: seq<Frame>)
    requires IsAggregatePrefix(prefix) && |frames| == ElementCount(prefix, len)
    ensures Build(prefix, frames).Success?
  {
  }

  lemma ShapeAgrees(b: bytes, depth: nat)
    requires b != [] && IsAggregatePrefix(b[0])
    requires AggregateHeader(b, depth).Elements? || AggregateHeader(b, depth).verdict.Complete?
    ensures depth < MAX_ARRAY_NESTING_DEPTH
    ensures ParseShape(b, depth) ==
            match AggregateHeader(b, depth)
            case Stop(verdict) => Success(NullArray(verdict.end))
            case Elements(start, count) => Success(Shape(start, count))
    ensures AggregateHeader(b, depth).Elements? ==>
              forall frames :: |frames| == AggregateHeader(b, depth).count ==> Build(b[0], frames).Success?
  {
    HeaderAgrees(b);
    if AggregateHeader(b, depth).Elements? {
      var len := Decimal.ParseUsize(PrefixedLengthLine(b).line).value;
      forall frames: seq<Frame> | |frames| == AggregateHeader(b, depth).count
        ensures Build(b[0], frames).Success?
      {
        BuildSucceeds(b[0], len, frames);
      }
    }
  }

  /** Scanner and parser agree on one frame and, inside an aggregate, on all its elements:
      same end, same checks, and a parsed frame respects every limit. */
  lemma {:induction false} ParserAgrees(b: bytes, topLevel: bool, depth: nat, left: nat)
    requires depth <= MAX_ARRAY_NESTING_DEPTH
    requires FrameScan(b, topLevel, depth, left).verdict.Complete?
    ensures Agrees(b, topLevel, depth, left, FrameScan(b, topLevel, depth, left), ParsePrefix(b, depth))
    ensures topLevel || HasTypeByte(b)
    decreases |b|, 1, 0
  {
    hide FrameScan;
    hide ParsePrefix;
    hide ElementsScan;
    hide ParseElements;
    hide LeafScan;
    hide ParseLeaf;
    hide AggregateHeader;
    hide ParseShape;
    hide Build;
    hide Accepted;
    hide AcceptedSeq;
    FinalScan(b, topLevel, depth, left);
    UnfoldScan(b, topLevel, depth, left);
    UnfoldParse(b, depth);
    if !IsAggregatePrefix(b[0]) {
      LeafAgrees(b, topLevel, depth, left);
    } else {
      ShapeAgrees(b, depth);
      match AggregateHeader(b, depth) {
        case Stop(verdict) =>
          LeafIsAccepted(Null, depth, verdict.end);
        case Elements(start, count) =>
          ElementsAgree(b, start, count, depth + 1, left - 1);
          var scan := ElementsScan(b, start, count, depth + 1, left - 1);
          var elements := ParseElements(b, start, count, depth + 1);
          if elements.Success? {
            var frame := Build(b[0], elements.value.frames).value;
            AggregateIsAccepted(frame, depth, left - 1 - scan.left, elements.value.consumed);
          }
      }
    }
  }

  lemma {:induction false} ElementsAgree(b: bytes, pos: nat, count: nat, depth: nat, left: nat)
    requires 0 < pos <= |b| && pos <= MAX_FRAME_BYTES && depth <= MAX_ARRAY_NESTING_DEPTH
    requires ElementsScan(b, pos, count, depth, left).verdict.Complete?
    ensures var scan := ElementsScan(b, pos, count, depth, left);
            match ParseElements(b, pos, count, depth)
            case Success(elements) =>
              && scan.verdict == Complete(elements.consumed)
              && AcceptedSeq(elements.frames, depth, left - scan.left, elements.consumed)
            case Failure(e) => e == VerbatimInvalid
    decreases |b|, 0, count
  {
    hide FrameScan;
    hide ParsePrefix;
    if count > 0 {
      var element := FrameScan(b[pos..], false, depth, left);
      ParserAgrees(b[pos..], false, depth, left);
      var next := pos + element.verdict.end;
      ElementsAgree(b, next, count - 1, depth, element.left);
      var r := ParseElements(b, pos, count, depth);
      if r.Success? {
        assert r.value.frames[1..] == ParseElements(b, next, count - 1, depth).value.frames;
      }
    }
  }

  /** Parsing exactly the bytes that the scanner measured. */
  lemma MeasuredFrameParses(b: bytes)
    requires FrameBoundary(b).Complete?
    ensures var frame := b[..FrameBoundary(b).end];
            && FrameBoundary(frame) == FrameBoundary(b)
            && ParseFromBytes(frame) == ParseWhole(frame)
            && match ParseWhole(frame)
               case Success(f) =>
                 && Nodes(f) <= MAX_FRAME_NODES
                 && Height(f) <= MAX_ARRAY_NESTING_DEPTH
                 && |frame| <= MAX_FRAME_BYTES
                 && Numeric(f)
               case Failure(e) => LateFault(frame, true, e)
  {
    var frame := b[..FrameBoundary(b).end];
    Streaming.ScanCut(b, true, 0, MAX_FRAME_NODES, |frame|);
    ParserAgrees(frame, true, 0, MAX_FRAME_NODES);
  }

  /** One inline argument too many is the one late fault that is not about quoting. */
  lemma InlineCountFault(arguments: seq<bytes>)
    requires |arguments| > MAX_ARRAY_ELEMENTS
    requires |Inline.QuoteLine(arguments)| + 2 <= MAX_FRAME_BYTES
    ensures var b := Inline.QuoteLine(arguments) + CRLF;
            && FrameBoundary(b) == Complete(|b|)
            && ParseFromBytes(b) == Failure(InlineInvalid(Inline.TooManyArguments))
  {
    hide Inline.ReadArguments;
    hide Inline.QuoteLine;
    hide InlineScan;
    hide ParseInline;
    var b := Inline.QuoteLine(arguments) + CRLF;
    QuotedLineIsInline(arguments);
    QuotedLineScanned(arguments);
    UnfoldScan(b, true, 0, MAX_FRAME_NODES);
    UnfoldParse(b, 0);
  }

  lemma QuotedLineIsInline(arguments: seq<bytes>)
    requires arguments != []
    ensures var line := Inline.QuoteLine(arguments);
            line != [] && line[0] == QUOTE && NoLineBreak(line)
  {
    EscapedHasNoBreak(arguments[0]);
    QuotedTailHasNoBreak(arguments[1..]);
  }

  lemma QuotedLineScanned(arguments: seq<bytes>)
    requires |arguments| > MAX_ARRAY_ELEMENTS && |Inline.QuoteLine(arguments)| + 2 <= MAX_FRAME_BYTES
    ensures var b := Inline.QuoteLine(arguments) + CRLF;
            && InlineScan(b) == Complete(|b|)
            && ParseInline(b) == Failure(InlineInvalid(Inline.TooManyArguments))
  {
    hide Inline.ReadArguments;
    hide Inline.QuoteLine;
    var line := Inline.QuoteLine(arguments);
    var b := line + CRLF;
    QuotedLineIsInline(arguments);
    FindCrlfAfterLine([], line, []);
    assert [] + line + CRLF + [] == b;
    assert b[..|line|] == line;
    assert !InlineBlank(line[0]);
    Inline.ReadQuotedLine(arguments);
  }

  /** Such lists exist: a million and one empty arguments make a line of three million bytes. */
  lemma TooManyEmptyArguments()
    ensures var b := Inline.QuoteLine(Empties(1_000_001)) + CRLF;
            && FrameBoundary(b) == Complete(|b|)
            && ParseFromBytes(b) == Failure(InlineInvalid(Inline.TooManyArguments))
  {
    hide FrameBoundary;
    hide ParseFromBytes;
    EmptyArgumentsLength(1_000_001);
    InlineCountFault(Empties(1_000_001));
  }

  function Empties(n: nat): seq<bytes> {
    seq(n, _ => [])
  }

  lemma EmptyArgumentsLength(n: nat)
    requires n > 0
    ensures |Inline.QuoteLine(Empties(n))| == 3 * n - 1
  {
    assert Empties(n)[0] == [] && Empties(n)[1..] == Empties(n - 1);
    EmptyTailLength(n - 1);
  }

  lemma {:induction false} EmptyTailLength(n: nat)
    ensures |Inline.QuoteTail(Empties(n))| == 3 * n
    decreases n
  {
    if n > 0 {
      assert Empties(n)[0] == [] && Empties(n)[1..] == Empties(n - 1);
      EmptyTailLength(n - 1);
    }
  }

  lemma {:induction false} EscapedHasNoBreak(s: bytes)
    ensures NoLineBreak(Inline.EscapeAll(s))
    decreases |s|
  {
    if s != [] {
      EscapedHasNoBreak(s[1..]);
    }
  }

  lemma {:induction false} QuotedTailHasNoBreak(arguments: seq<bytes>)
    ensures NoLineBreak(Inline.QuoteTail(arguments))
    decreases |arguments|
  {
    if arguments != [] {
      EscapedHasNoBreak(arguments[0]);
      QuotedTailHasNoBreak(arguments[1..]);
    }
  }
}
