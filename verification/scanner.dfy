/** The streaming boundary scanner: where does the frame at the front of a buffer end? */
module Scanner {
  import opened Bytes
  import opened Frames
  import Decimal
  import Utf8

  datatype PayloadKind = BulkPayload | BlobErrorPayload | VerbatimPayload

  datatype ScanError =
    | NodeBudgetSpent
    | BadElementType
    | NestingTooDeep
    | HeaderNotUtf8
    | HeaderTooLong
    | AggregateLengthInvalid
    | AggregateTooLong
    | AggregateTooManyElements
    | AggregateTooManyBytes
    | LineTooLong
    | LineControlCharacter
    | LineNotUtf8
    | IntegerInvalid
    | BooleanInvalid
    | DoubleInvalid
    | BigNumberInvalid
    | NullInvalid
    | PayloadLengthInvalid(kind: PayloadKind)
    | PayloadTooLong(kind: PayloadKind)
    | PayloadTerminatorInvalid(kind: PayloadKind)
    | InlineTooLong
    | InlineControlCharacter
    | InlineEmpty

  datatype Boundary = Complete(end: nat) | Incomplete | Invalid(reason: ScanError)

  /** A verdict and the node budget that is left after reaching it. */
  datatype Scan = Scan(verdict: Boundary, left: nat)

  const MAX_LENGTH_HEADER_BYTES: nat := 20
  const MINUS_ONE: bytes := [MINUS, 49]

  datatype Header = HeaderLine(end: nat, line: bytes) | NoHeader | BadHeader(reason: ScanError)

  function PrefixedLengthLine(b: bytes): (h: Header)
    requires b != []
    ensures h.HeaderLine? ==> 3 <= h.end <= |b| && h.end <= MAX_LENGTH_HEADER_BYTES
    ensures h.HeaderLine? ==> h.line == b[1..h.end - 2] && Utf8.Valid(h.line)
  {
    match FindCrlf(b[..Min(|b|, MAX_LENGTH_HEADER_BYTES)], 1)
    case Some(i) =>
      if Utf8.Valid(b[1..i]) then HeaderLine(i + 2, b[1..i]) else BadHeader(HeaderNotUtf8)
    case None =>
      if |b| >= MAX_LENGTH_HEADER_BYTES then BadHeader(HeaderTooLong) else NoHeader
  }

  predicate IsLinePrefix(x: byte) {
    x in [PLUS, MINUS, COLON, UNDERSCORE, HASH, COMMA, LPAREN]
  }

  predicate IsAggregatePrefix(x: byte) {
    x in [STAR, TILDE, GREATER, PERCENT, PIPE]
  }

  function PayloadKindOf(x: byte): Option<PayloadKind> {
    if x == DOLLAR then Some(BulkPayload)
    else if x == BANG then Some(BlobErrorPayload)
    else if x == EQUALS then Some(VerbatimPayload)
    else None
  }

  /** What is wrong with the text of a one-line frame, in the order the checks are made. */
  function LineFault(prefix: byte, payload: bytes): Option<ScanError> {
    if prefix in [PLUS, MINUS, COMMA, LPAREN] && !NoLineBreak(payload) then Some(LineControlCharacter)
    else if prefix in [PLUS, MINUS, COMMA, LPAREN] && !Utf8.Valid(payload) then Some(LineNotUtf8)
    else if prefix == COLON && (!Utf8.Valid(payload) || Decimal.ParseI64(payload).None?) then
      Some(IntegerInvalid)
    else if prefix == HASH && payload != [116] && payload != [102] then Some(BooleanInvalid)
    else if prefix == COMMA && !Decimal.FloatText(payload) then Some(DoubleInvalid)
    else if prefix == LPAREN && !Decimal.BigNumberText(payload) then Some(BigNumberInvalid)
    else if prefix == UNDERSCORE && payload != [] then Some(NullInvalid)
    else None
  }

  function LineScan(b: bytes): (r: Boundary)
    requires b != [] && b[0] != CR
    ensures r.Complete? ==> 0 < r.end <= |b|
  {
    match FindCrlf(b, 0)
    case None => Incomplete
    case Some(i) =>
      if i + 2 > MAX_FRAME_BYTES then Invalid(LineTooLong)
      else match LineFault(b[0], b[1..i])
           case Some(fault) => Invalid(fault)
           case None => Complete(i + 2)
  }

  function PayloadScan(b: bytes, kind: PayloadKind): (r: Boundary)
    requires b != []
    ensures r.Complete? ==> 0 < r.end <= |b|
  {
    match PrefixedLengthLine(b)
    case NoHeader => Incomplete
    case BadHeader(reason) => Invalid(reason)
    case HeaderLine(end, line) =>
      if kind.BulkPayload? && line == MINUS_ONE then Complete(end)
      else match Decimal.ParseUsize(line)
           case None => Invalid(PayloadLengthInvalid(kind))
           case Some(len) =>
             if len > MAX_BULK_STRING_BYTES || end + len + 2 > MAX_FRAME_BYTES then
               Invalid(PayloadTooLong(kind))
             else if end + len + 2 > |b| then Incomplete
             else if !CrlfAt(b, end + len) then Invalid(PayloadTerminatorInvalid(kind))
             else Complete(end + len + 2)
  }

  predicate InlineBlank(x: byte) {
    x == SPACE || x == 9 || x == 11 || x == 12
  }

  predicate AllBlank(s: bytes) {
    forall i :: 0 <= i < |s| ==> InlineBlank(s[i])
  }

  function InlineScan(b: bytes): (r: Boundary)
    ensures r.Complete? ==> 0 < r.end <= |b|
  {
    match FindCrlf(b, 0)
    case None => if |b| >= MAX_FRAME_BYTES then Invalid(InlineTooLong) else Incomplete
    case Some(i) =>
      if i + 2 > MAX_FRAME_BYTES then Invalid(InlineTooLong)
      else if !NoLineBreak(b[..i]) then Invalid(InlineControlCharacter)
      else if AllBlank(b[..i]) then Invalid(InlineEmpty)
      else Complete(i + 2)
  }

  /** Frames without children. */
  function LeafScan(b: bytes, topLevel: bool): (r: Boundary)
    requires b != []
    ensures r.Complete? ==> 0 < r.end <= |b|
  {
    if IsLinePrefix(b[0]) then LineScan(b)
    else match PayloadKindOf(b[0])
         case Some(kind) => PayloadScan(b, kind)
         case None => if topLevel then InlineScan(b) else Invalid(BadElementType)
  }

  /** Elements announced by an aggregate header: pairs count twice, an attribute has a subject. */
  function ElementCount(prefix: byte, logicalLen: nat): nat {
    (if prefix == PERCENT || prefix == PIPE then 2 * logicalLen else logicalLen)
    + (if prefix == PIPE then 1 else 0)
  }

  datatype AggregateStart = Elements(start: nat, count: nat) | Stop(verdict: Boundary)

  function AggregateHeader(b: bytes, depth: nat): (h: AggregateStart)
    requires b != []
    ensures h.Elements? ==> 3 <= h.start <= |b| && h.start <= MAX_LENGTH_HEADER_BYTES
    ensures h.Stop? && h.verdict.Complete? ==> 0 < h.verdict.end <= |b|
    ensures h.Stop? && h.verdict.Complete? ==> h.verdict.end <= MAX_LENGTH_HEADER_BYTES
  {
    if depth >= MAX_ARRAY_NESTING_DEPTH then Stop(Invalid(NestingTooDeep))
    else match PrefixedLengthLine(b)
         case NoHeader => Stop(Incomplete)
         case BadHeader(reason) => Stop(Invalid(reason))
         case HeaderLine(end, line) =>
           if b[0] == STAR && line == MINUS_ONE then Stop(Complete(end))
           else match Decimal.ParseUsize(line)
                case None => Stop(Invalid(AggregateLengthInvalid))
                case Some(len) =>
                  if len > MAX_ARRAY_ELEMENTS then Stop(Invalid(AggregateTooLong))
                  else if ElementCount(b[0], len) > MAX_FRAME_NODES then
                    Stop(Invalid(AggregateTooManyElements))
                  else Elements(end, ElementCount(b[0], len))
  }

  function FrameScan(b: bytes, topLevel: bool, depth: nat, left: nat): (r: Scan)
    ensures r.verdict.Complete? ==> 0 < r.verdict.end <= |b|
    decreases |b|, 1, 0
  {
    if b == [] then Scan(Incomplete, left)
    else if left == 0 then Scan(Invalid(NodeBudgetSpent), left)
    else if IsAggregatePrefix(b[0]) then
      match AggregateHeader(b, depth)
      case Stop(verdict) => Scan(verdict, left - 1)
      case Elements(start, count) => ElementsScan(b, start, count, depth + 1, left - 1)
    else Scan(LeafScan(b, topLevel), left - 1)
  }

  /** `count` element frames one after the other, from `pos` on. */
  function ElementsScan(b: bytes, pos: nat, count: nat, depth: nat, left: nat): (r: Scan)
    requires 0 < pos <= |b|
    ensures r.verdict.Complete? ==> pos <= r.verdict.end <= |b|
    decreases |b|, 0, count
  {
    if count == 0 then Scan(Complete(pos), left)
    else if pos >= |b| then Scan(Incomplete, left)
    else
      var element := FrameScan(b[pos..], false, depth, left);
      if !element.verdict.Complete? then element
      else
        var next := pos + element.verdict.end;
        if next > MAX_FRAME_BYTES then Scan(Invalid(AggregateTooManyBytes), element.left)
        else ElementsScan(b, next, count - 1, depth, element.left)
  }

  // Rewriting steps for proofs that keep the recursive functions folded.

  lemma FinalScan(b: bytes, topLevel: bool, depth: nat, left: nat)
    requires FrameScan(b, topLevel, depth, left).verdict.Complete?
    ensures b != [] && left > 0
  {
  }

  lemma UnfoldScan(b: bytes, topLevel: bool, depth: nat, left: nat)
    requires b != [] && left > 0
    ensures FrameScan(b, topLevel, depth, left) ==
            if !IsAggregatePrefix(b[0]) then Scan(LeafScan(b, topLevel), left - 1)
            else match AggregateHeader(b, depth)
                 case Stop(verdict) => Scan(verdict, left - 1)
                 case Elements(start, count) => ElementsScan(b, start, count, depth + 1, left - 1)
  {
  }

  function FrameBoundary(b: bytes): (r: Boundary)
    ensures r.Complete? ==> 0 < r.end <= |b|
  {
    FrameScan(b, true, 0, MAX_FRAME_NODES).verdict
  }

  // The scanner as the server runs it: the budget is threaded through, elements are a loop.

  method FrameBoundaryWithBudget(b: bytes, topLevel: bool, depth: nat, budget: nat)
    returns (verdict: Boundary, remaining: nat)
    ensures Scan(verdict, remaining) == FrameScan(b, topLevel, depth, budget)
    decreases |b|, 1, 0
  {
    if |b| == 0 {
      return Incomplete, budget;
    }
    if budget == 0 {
      return Invalid(NodeBudgetSpent), budget;
    }
    remaining := budget - 1;
    if IsAggregatePrefix(b[0]) {
      verdict, remaining := AggregateFrameBoundary(b, depth, remaining);
    } else {
      verdict := LeafScan(b, topLevel);
    }
  }

  method AggregateFrameBoundary(b: bytes, depth: nat, budget: nat)
    returns (verdict: Boundary, remaining: nat)
    requires b != [] && IsAggregatePrefix(b[0])
    ensures Scan(verdict, remaining) == FrameScan(b, false, depth, budget + 1)
    decreases |b|, 0, 1
  {
    match AggregateHeader(b, depth) {
      case Stop(stopped) => verdict, remaining := stopped, budget;
      case Elements(start, count) =>
        verdict, remaining := ElementsBoundary(b, start, count, depth + 1, budget);
    }
  }

  method ElementsBoundary(b: bytes, start: nat, count: nat, depth: nat, budget: nat)
    returns (verdict: Boundary, remaining: nat)
    requires 0 < start <= |b|
    ensures Scan(verdict, remaining) == ElementsScan(b, start, count, depth, budget)
    decreases |b|, 0, 0
  {
    remaining := budget;
    var position := start;
    for i := 0 to count
      invariant 0 < position <= |b|
      invariant ElementsScan(b, start, count, depth, budget) ==
                ElementsScan(b, position, count - i, depth, remaining)
    {
      if position >= |b| {
        return Incomplete, remaining;
      }
      verdict, remaining := FrameBoundaryWithBudget(b[position..], false, depth, remaining);
      if !verdict.Complete? {
        return verdict, remaining;
      }
      position := position + verdict.end;
      if position > MAX_FRAME_BYTES {
        return Invalid(AggregateTooManyBytes), remaining;
      }
    }
    verdict := Complete(position);
  }
}
