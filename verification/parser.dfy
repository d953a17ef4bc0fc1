/** The recursive parser that runs on bytes the scanner has accepted. */
module Parser {
  import opened Bytes
  import opened Frames
  import opened Scanner
  import Inline
  import Decimal
  import Utf8

  datatype ParseError =
    | EmptyFrame
    | TrailingData
    | IncompleteFrame
    | ScanFailed(reason: ScanError)
    | MissingTerminator
    | TextNotUtf8
    | NumberInvalid
    | LengthInvalid
    | LengthTooLarge
    | PayloadIncomplete
    | TerminatorInvalid
    | VerbatimInvalid
    | TooDeep
    | ElementMissing
    | OddPairs
    | SubjectMissing
    | InlineInvalid(fault: Inline.InlineError)
    | InlineBlankLine

  datatype Parsed = Parsed(frame: Frame, consumed: nat)
  datatype ParsedSeq = ParsedSeq(frames: seq<Frame>, consumed: nat)

  /** One-line frames; `b` starts with a line prefix. */
  function ParseLine(b: bytes): (r: Result<Parsed, ParseError>)
    requires b != [] && IsLinePrefix(b[0])
  {
    match FindCrlf(b, 0)
    case None => Failure(MissingTerminator)
    case Some(i) =>
      var payload := b[1..i];
      if b[0] == UNDERSCORE then Success(Parsed(Null, i + 2))
      else if b[0] == HASH then Success(Parsed(Boolean(b[1] == 116), i + 2))
      else if !Utf8.Valid(payload) then Failure(TextNotUtf8)
      else if b[0] == PLUS then Success(Parsed(SimpleString(payload), i + 2))
      else if b[0] == MINUS then Success(Parsed(Error(payload), i + 2))
      else if b[0] == LPAREN then Success(Parsed(BigNumber(payload), i + 2))
      else if b[0] == COMMA then
        if Decimal.FloatText(payload) then Success(Parsed(Double(payload), i + 2))
        else Failure(NumberInvalid)
      else match Decimal.ParseI64(payload)
           case Some(value) => Success(Parsed(Integer(value), i + 2))
           case None => Failure(NumberInvalid)
  }

  /** The text between the type byte and the first line terminator. */
  function LengthText(b: bytes): (r: Result<(bytes, nat), ParseError>)
    requires b != [] && b[0] != CR
    ensures r.Success? ==> 3 <= r.value.1 <= |b| && r.value.0 == b[1..r.value.1 - 2]
  {
    match FindCrlf(b, 0)
    case None => Failure(MissingTerminator)
    case Some(i) => if Utf8.Valid(b[1..i]) then Success((b[1..i], i + 2)) else Failure(TextNotUtf8)
  }

  function ParseBulk(b: bytes): (r: Result<Parsed, ParseError>)
    requires b != [] && b[0] == DOLLAR
  {
    match PayloadScan(b, BulkPayload)
    case Incomplete => Failure(IncompleteFrame)
    case Invalid(reason) => Failure(ScanFailed(reason))
    case Complete(frameEnd) =>
      var frame := b[..frameEnd];
      match LengthText(frame)
      case Failure(error) => Failure(error)
      case Success((text, start)) =>
        if text == MINUS_ONE then Success(Parsed(Null, frameEnd))
        else match Decimal.ParseUsize(text)
             case None => Failure(LengthInvalid)
             case Some(len) =>
               if len > MAX_BULK_STRING_BYTES then Failure(LengthTooLarge)
               else if |frame| < start + len + 2 then Failure(PayloadIncomplete)
               else if !CrlfAt(frame, start + len) then Failure(TerminatorInvalid)
               else Success(Parsed(BulkString(frame[start..start + len]), frameEnd))
  }

  /** Blob errors and verbatim strings. The terminator behind the payload is not looked at. */
  function ParseBlob(b: bytes, verbatim: bool): (r: Result<Parsed, ParseError>)
    requires b != [] && b[0] != CR
  {
    match LengthText(b)
    case Failure(error) => Failure(error)
    case Success((text, start)) =>
      match Decimal.ParseUsize(text)
      case None => Failure(LengthInvalid)
      case Some(len) =>
        if start + len > |b| then Failure(PayloadIncomplete)
        else
          var payload := b[start..start + len];
          if !verbatim then Success(Parsed(BlobError(payload), start + len + 2))
          else if |payload| < 4 || payload[3] != COLON then Failure(VerbatimInvalid)
          else Success(Parsed(VerbatimString(payload[..3], payload[4..]), start + len + 2))
  }

  function BulkStrings(arguments: seq<bytes>): (r: seq<Frame>)
    ensures |r| == |arguments|
  {
    seq(|arguments|, i requires 0 <= i < |arguments| => BulkString(arguments[i]))
  }

  function ParseInline(b: bytes): (r: Result<Parsed, ParseError>) {
    match FindCrlf(b, 0)
    case None => Failure(MissingTerminator)
    case Some(i) =>
      match Inline.ReadArguments(b[..i], 0, [])
      case Failure(fault) => Failure(InlineInvalid(fault))
      case Success(arguments) =>
        if arguments == [] then Failure(InlineBlankLine)
        else Success(Parsed(Array(BulkStrings(arguments)), i + 2))
  }

  function ParseLeaf(b: bytes): (r: Result<Parsed, ParseError>)
    requires b != []
  {
    if IsLinePrefix(b[0]) then ParseLine(b)
    else if b[0] == DOLLAR then ParseBulk(b)
    else if b[0] == BANG then ParseBlob(b, false)
    else if b[0] == EQUALS then ParseBlob(b, true)
    else ParseInline(b)
  }

  datatype Shape = NullArray(end: nat) | Shape(start: nat, count: nat)

  function ParseShape(b: bytes, depth: nat): (r: Result<Shape, ParseError>)
    requires b != [] && b[0] != CR
    ensures r.Success? && r.value.Shape? ==> 0 < r.value.start
  {
    if depth >= MAX_ARRAY_NESTING_DEPTH then Failure(TooDeep)
    else match LengthText(b)
         case Failure(error) => Failure(error)
         case Success((text, start)) =>
           if b[0] == STAR && text == MINUS_ONE then Success(NullArray(start))
           else match Decimal.ParseUsize(text)
                case None => Failure(LengthInvalid)
                case Some(len) =>
                  if len > MAX_ARRAY_ELEMENTS || ElementCount(b[0], len) > MAX_FRAME_NODES then
                    Failure(LengthTooLarge)
                  else Success(Shape(start, ElementCount(b[0], len)))
  }

  /** The aggregate that a type byte makes of its parsed elements. */
  function Build(prefix: byte, frames: seq<Frame>): (r: Result<Frame, ParseError>)
    requires IsAggregatePrefix(prefix)
    ensures r.Success? ==> IsAggregate(r.value) && Kids(r.value) == frames
  {
    if prefix == STAR then Success(Array(frames))
    else if prefix == TILDE then Success(Set(frames))
    else if prefix == GREATER then Success(Push(frames))
    else if prefix == PERCENT then
      if |frames| % 2 != 0 then Failure(OddPairs) else Success(Map(PairUp(frames)))
    else if frames == [] then Failure(SubjectMissing)
    else
      var front := frames[..|frames| - 1];
      if |front| % 2 != 0 then Failure(OddPairs)
      else Success(Attribute(PairUp(front), frames[|frames| - 1]))
  }

  /** The aggregate made of parsed elements. */
  function Assemble(prefix: byte, elements: Result<ParsedSeq, ParseError>): Result<Parsed, ParseError>
    requires IsAggregatePrefix(prefix)
  {
    match elements
    case Failure(error) => Failure(error)
    case Success(parsed) =>
      match Build(prefix, parsed.frames)
      case Failure(error) => Failure(error)
      case Success(frame) => Success(Parsed(frame, parsed.consumed))
  }

  function ParsePrefix(b: bytes, depth: nat): (r: Result<Parsed, ParseError>)
    decreases |b|, 1, 0
  {
    if b == [] then Failure(EmptyFrame)
    else if IsAggregatePrefix(b[0]) then
      match ParseShape(b, depth)
      case Failure(error) => Failure(error)
      case Success(NullArray(end)) => Success(Parsed(Null, end))
      case Success(Shape(start, count)) =>
        Assemble(b[0], ParseElements(b, start, count, depth + 1))
    else ParseLeaf(b)
  }

  function ParseElements(b: bytes, pos: nat, count: nat, depth: nat): (r: Result<ParsedSeq, ParseError>)
    requires 0 < pos
    ensures r.Success? ==> |r.value.frames| == count
    decreases |b|, 0, count
  {
    if count == 0 then Success(ParsedSeq([], pos))
    else if pos > |b| then Failure(ElementMissing)
    else match ParsePrefix(b[pos..], depth)
         case Failure(error) => Failure(error)
         case Success(head) =>
           match ParseElements(b, pos + head.consumed, count - 1, depth)
           case Failure(error) => Failure(error)
           case Success(tail) => Success(ParsedSeq([head.frame] + tail.frames, tail.consumed))
  }

  lemma UnfoldParse(b: bytes, depth: nat)
    requires b != []
    ensures ParsePrefix(b, depth) ==
            if !IsAggregatePrefix(b[0]) then ParseLeaf(b)
            else match ParseShape(b, depth)
                 case Failure(error) => Failure(error)
                 case Success(NullArray(end)) => Success(Parsed(Null, end))
                 case Success(Shape(start, count)) => Assemble(b[0], ParseElements(b, start, count, depth + 1))
  {
  }

  function ParseWhole(b: bytes): (r: Result<Frame, ParseError>) {
    match ParsePrefix(b, 0)
    case Failure(error) => Failure(error)
    case Success(parsed) => if parsed.consumed != |b| then Failure(TrailingData) else Success(parsed.frame)
  }

  function ParseFromBytes(b: bytes): (r: Result<Frame, ParseError>) {
    if b == [] then Failure(EmptyFrame)
    else match FrameBoundary(b)
         case Incomplete => Failure(IncompleteFrame)
         case Invalid(reason) => Failure(ScanFailed(reason))
         case Complete(end) => if end != |b| then Failure(TrailingData) else ParseWhole(b)
  }

  // The parser as the server runs it: elements and pairs are collected by loops.

  method ParseValidatedFramePrefix(b: bytes, depth: nat) returns (r: Result<Parsed, ParseError>)
    ensures r == ParsePrefix(b, depth)
    decreases |b|, 1, 0
  {
    if |b| == 0 {
      return Failure(EmptyFrame);
    }
    if IsAggregatePrefix(b[0]) {
      r := ParseAggregate(b, depth);
    } else {
      r := ParseLeaf(b);
    }
  }

  method ParseAggregate(b: bytes, depth: nat) returns (r: Result<Parsed, ParseError>)
    requires b != [] && IsAggregatePrefix(b[0])
    ensures r == ParsePrefix(b, depth)
    decreases |b|, 0, 1
  {
    var shape := ParseShape(b, depth);
    if shape.Failure? {
      return Failure(shape.error);
    }
    if shape.value.NullArray? {
      return Success(Parsed(Null, shape.value.end));
    }
    var elements := ElementLoop(b, shape.value.start, shape.value.count, depth + 1);
    if elements.Failure? {
      return Failure(elements.error);
    }
    var frame := BuildLoop(b[0], elements.value.frames);
    r := if frame.Failure? then Failure(frame.error)
         else Success(Parsed(frame.value, elements.value.consumed));
  }

  method ElementLoop(b: bytes, start: nat, count: nat, depth: nat) returns (r: Result<ParsedSeq, ParseError>)
    requires b != [] && 0 < start
    ensures r == ParseElements(b, start, count, depth)
    decreases |b|, 0, 0
  {
    hide ParsePrefix;
    var frames: seq<Frame> := [];
    var position := start;
    PrependNothing(ParseElements(b, start, count, depth));
    for i := 0 to count
      invariant 0 < position
      invariant Prepend(frames, ParseElements(b, position, count - i, depth)) ==
                ParseElements(b, start, count, depth)
    {
      if position > |b| {
        return Failure(ElementMissing);
      }
      var element := ParseValidatedFramePrefix(b[position..], depth);
      if element.Failure? {
        return Failure(element.error);
      }
      PrependStep(frames, element.value.frame,
                  ParseElements(b, position + element.value.consumed, count - i - 1, depth));
      frames := frames + [element.value.frame];
      position := position + element.value.consumed;
    }
    assert frames + [] == frames;
    r := Success(ParsedSeq(frames, position));
  }

  function Prepend(frames: seq<Frame>, r: Result<ParsedSeq, ParseError>): Result<ParsedSeq, ParseError> {
    match r
    case Failure(error) => r
    case Success(rest) => Success(ParsedSeq(frames + rest.frames, rest.consumed))
  }

  lemma PrependNothing(r: Result<ParsedSeq, ParseError>)
    ensures Prepend([], r) == r
  {
    if r.Success? {
      assert [] + r.value.frames == r.value.frames;
    }
  }

  lemma PrependStep(frames: seq<Frame>, frame: Frame, r: Result<ParsedSeq, ParseError>)
    ensures Prepend(frames, Prepend([frame], r)) == Prepend(frames + [frame], r)
  {
    if r.Success? {
      assert frames + ([frame] + r.value.frames) == frames + [frame] + r.value.frames;
    }
  }

  method BuildLoop(prefix: byte, frames: seq<Frame>) returns (r: Result<Frame, ParseError>)
    requires IsAggregatePrefix(prefix)
    ensures r == Build(prefix, frames)
  {
    if prefix == STAR {
      r := Success(Array(frames));
    } else if prefix == TILDE {
      r := Success(Set(frames));
    } else if prefix == GREATER {
      r := Success(Push(frames));
    } else if prefix == PERCENT {
      var pairs := PairFrames(frames);
      r := if pairs.Failure? then Failure(pairs.error) else Success(Map(pairs.value));
    } else if |frames| == 0 {
      r := Failure(SubjectMissing);
    } else {
      var pairs := PairFrames(frames[..|frames| - 1]);
      r := if pairs.Failure? then Failure(pairs.error)
           else Success(Attribute(pairs.value, frames[|frames| - 1]));
    }
  }

  method PairFrames(frames: seq<Frame>) returns (r: Result<seq<Entry>, ParseError>)
    ensures r == if |frames| % 2 != 0 then Failure(OddPairs) else Success(PairUp(frames))
  {
    hide PairUp;
    if |frames| % 2 != 0 {
      return Failure(OddPairs);
    }
    var pairs: seq<Entry> := [];
    var i := 0;
    assert frames[0..] == frames && [] + PairUp(frames) == PairUp(frames);
    while i < |frames|
      invariant i <= |frames| && i % 2 == 0
      invariant PairUp(frames) == pairs + PairUp(frames[i..])
    {
      assert frames[i..][2..] == frames[i + 2..];
      PairUpStep(frames[i..]);
      Assoc(pairs, [Entry(frames[i], frames[i + 1])], PairUp(frames[i + 2..]));
      pairs := pairs + [Entry(frames[i], frames[i + 1])];
      i := i + 2;
    }
    PairUpNone();
    assert frames[i..] == [] && pairs + [] == pairs;
    return Success(pairs);
  }

  lemma PairUpNone()
    ensures PairUp([]) == []
  {
  }

  lemma PairUpStep(frames: seq<Frame>)
    requires |frames| % 2 == 0 && frames != []
    ensures PairUp(frames) == [Entry(frames[0], frames[1])] + PairUp(frames[2..])
  {
  }
}
