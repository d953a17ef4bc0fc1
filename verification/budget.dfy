/** The size budget of an EXEC reply. */
module ResponseBudget {
  import opened Bytes
  import opened Frames
  import opened Printer
  import RoundTrip
  import Parser
  import Decimal
  import Utf8

  /** What one frame is charged, without its children. */
  function NodeCost(f: Frame): nat {
    match f
    case Ok => 5
    case Integer(value) => |Decimal.ShowInt(value)| + 3
    case SimpleString(text) => |text| + 3
    case Error(text) => |text| + 3
    case Null => 5
    case BulkString(data) => |data| + |Decimal.Show(|data|)| + 5
    case Boolean(_) => 4
    case Double(text) => |text| + 3
    case BigNumber(text) => |text| + 3
    case BlobError(data) => |data| + |Decimal.Show(|data|)| + 5
    case VerbatimString(_, data) => |data| + |Decimal.Show(|data|)| + 9
    case Array(items) => |Decimal.Show(|items|)| + 3
    case Set(items) => |Decimal.Show(|items|)| + 3
    case Push(items) => |Decimal.Show(|items|)| + 3
    case Map(entries) => |Decimal.Show(|entries|)| + 3
    case Attribute(attributes, _) => |Decimal.Show(|attributes|)| + 3
  }

  /** The charge for a whole tree. */
  function Cost(f: Frame): nat
    decreases Nodes(f), 0
  {
    NodesOfKids(f);
    NodeCost(f) + CostSeq(Kids(f))
  }

  function CostSeq(frames: seq<Frame>): nat
    decreases NodesSeq(frames), 1
  {
    if frames == [] then 0 else Cost(frames[0]) + CostSeq(frames[1..])
  }

  lemma {:induction false} CostSeqSplit(xs: seq<Frame>, ys: seq<Frame>)
    ensures CostSeq(xs + ys) == CostSeq(xs) + CostSeq(ys)
    decreases |xs|
  {
    if xs == [] {
      assert xs + ys == ys;
    } else {
      assert (xs + ys)[1..] == xs[1..] + ys;
      CostSeqSplit(xs[1..], ys);
    }
  }

  datatype Charge = Charge(nodes: nat, bytes: nat)

  /** The last frame of a worklist opened: itself charged, its children put back. */
  lemma WorklistStep(pending: seq<Frame>)
    requires pending != []
    ensures var front, last := pending[..|pending| - 1], pending[|pending| - 1];
            && NodesSeq(pending) == NodesSeq(front + Kids(last)) + 1
            && CostSeq(pending) == CostSeq(front + Kids(last)) + NodeCost(last)
  {
    var front, last := pending[..|pending| - 1], pending[|pending| - 1];
    assert pending == front + [last];
    NodesSeqSplit(front, [last]);
    CostSeqSplit(front, [last]);
    NodesSeqSplit(front, Kids(last));
    CostSeqSplit(front, Kids(last));
    NodesOfKids(last);
    assert [last][1..] == [];
    assert CostSeq([last]) == Cost(last);
  }

  /** The worklist with early abort answers exactly when both totals are within the limits. */
  method FrameResponseCost(frame: Frame) returns (r: Option<Charge>)
    ensures r == if Nodes(frame) <= MAX_FRAME_NODES && Cost(frame) <= MAX_FRAME_BYTES
                 then Some(Charge(Nodes(frame), Cost(frame))) else None
  {
    hide NodeCost;
    hide Cost;
    var nodes, bytes := 0, 0;
    var pending := [frame];
    assert pending[1..] == [];
    assert NodesSeq(pending) == Nodes(frame) && CostSeq(pending) == Cost(frame);
    while |pending| > 0
      invariant nodes + NodesSeq(pending) == Nodes(frame) && nodes <= MAX_FRAME_NODES
      invariant bytes + CostSeq(pending) == Cost(frame) && bytes <= MAX_FRAME_BYTES
      decreases NodesSeq(pending)
    {
      WorklistStep(pending);
      var next := pending[|pending| - 1];
      pending := pending[..|pending| - 1];
      nodes := nodes + 1;
      if nodes > MAX_FRAME_NODES {
        return None;
      }
      pending := pending + Kids(next);
      bytes := bytes + NodeCost(next);
      if bytes > MAX_FRAME_BYTES {
        return None;
      }
    }
    return Some(Charge(nodes, bytes));
  }

  const EXEC_TOO_LARGE: bytes :=
    [69, 82, 82, 32, 69, 88, 69, 67, 32, 114, 101, 115, 112, 111, 110, 115, 101, 32, 101, 120, 99, 101, 101,
     100, 115, 32, 99, 111, 110, 102, 105, 103, 117, 114, 101, 100, 32, 108, 105, 109, 105, 116]

  const REPLY_HEADER_BYTES: nat := 16

  /** All replies fit: one node for the reply itself, a flat charge for its header. */
  predicate WithinBudget(frames: seq<Frame>) {
    1 + NodesSeq(frames) <= MAX_FRAME_NODES && REPLY_HEADER_BYTES + CostSeq(frames) <= MAX_FRAME_BYTES
  }

  class TransactionResponseBudget {
    var nodes: nat
    var bytes: nat
    var exceeded: bool

    constructor ()
      ensures nodes == 1 && bytes == REPLY_HEADER_BYTES && !exceeded
    {
      nodes, bytes, exceeded := 1, REPLY_HEADER_BYTES, false;
    }

    /** The budget after the replies `pushed`, of which `results` were kept. */
    ghost predicate Tracks(pushed: seq<Frame>, results: seq<Frame>)
      reads this
    {
      if exceeded then results == [] && !WithinBudget(pushed)
      else results == pushed && nodes == 1 + NodesSeq(pushed) <= MAX_FRAME_NODES &&
           bytes == REPLY_HEADER_BYTES + CostSeq(pushed) <= MAX_FRAME_BYTES
    }

    method Push(results: seq<Frame>, frame: Frame, ghost pushed: seq<Frame>) returns (results': seq<Frame>)
      requires Tracks(pushed, results)
      modifies this
      ensures Tracks(pushed + [frame], results')
    {
      NodesSeqSplit(pushed, [frame]);
      CostSeqSplit(pushed, [frame]);
      assert [frame][1..] == [];
      assert NodesSeq([frame]) == Nodes(frame) && CostSeq([frame]) == Cost(frame);
      if exceeded {
        return results;
      }
      var charge := FrameResponseCost(frame);
      if charge.None? || nodes + charge.value.nodes > MAX_FRAME_NODES
         || bytes + charge.value.bytes > MAX_FRAME_BYTES {
        exceeded := true;
        return [];
      }
      nodes := nodes + charge.value.nodes;
      bytes := bytes + charge.value.bytes;
      return results + [frame];
    }

    /** The reply of EXEC: everything pushed, or the one overflow error. */
    method Finish(results: seq<Frame>, ghost pushed: seq<Frame>) returns (reply: Frame)
      requires Tracks(pushed, results)
      ensures reply == ExecReply(pushed)
    {
      reply := if exceeded then Array([Error(EXEC_TOO_LARGE)]) else Array(results);
    }
  }

  /** The reply of EXEC from the replies of its commands. */
  function ExecReply(frames: seq<Frame>): Frame {
    if WithinBudget(frames) then Array(frames) else Array([Error(EXEC_TOO_LARGE)])
  }

  method CollectExecReply(frames: seq<Frame>) returns (reply: Frame)
    ensures reply == ExecReply(frames)
  {
    var budget := new TransactionResponseBudget();
    var results: seq<Frame> := [];
    for i := 0 to |frames|
      invariant fresh(budget)
      invariant budget.Tracks(frames[..i], results)
    {
      results := budget.Push(results, frames[i], frames[..i]);
      assert frames[..i] + [frames[i]] == frames[..i + 1];
    }
    assert frames[..|frames|] == frames;
    reply := budget.Finish(results, frames);
  }

  // The charge against the bytes that are really sent, in either protocol version.

  /** What one frame is sent as, beyond what it was charged: negative when it was charged too much. */
  function NodeGap(p: RespVersion, f: Frame): int {
    match f
    case Null => if p.Resp2? then 0 else -2
    case Double(text) => if p.Resp2? then |Decimal.Show(|text|)| + 2 else 0
    case BigNumber(text) => if p.Resp2? then |Decimal.Show(|text|)| + 2 else 0
    case BlobError(data) => if p.Resp2? then |Utf8.Lossy(data)| - |data| - |Decimal.Show(|data|)| - 2 else 0
    case VerbatimString(format, data) =>
      if p.Resp2? then -4
      else |format| - 3 + |Decimal.Show(|format| + 1 + |data|)| - |Decimal.Show(|data|)|
    case Map(entries) => if p.Resp2? then |Decimal.Show(2 * |entries|)| - |Decimal.Show(|entries|)| else 0
    case _ => 0
  }

  /** The same for a whole tree. The older protocol drops attributes that were charged for. */
  function Gap(p: RespVersion, f: Frame): int
    decreases Nodes(f), 0
  {
    NodesOfKids(f);
    if p.Resp2? && f.Attribute? then
      NodesSeqSplit(Flatten(f.attributes), [f.inner]);
      Gap(p, f.inner) - NodeCost(f) - CostSeq(Flatten(f.attributes))
    else NodeGap(p, f) + GapSeq(p, Kids(f))
  }

  function GapSeq(p: RespVersion, frames: seq<Frame>): int
    decreases NodesSeq(frames), 1
  {
    if frames == [] then 0 else Gap(p, frames[0]) + GapSeq(p, frames[1..])
  }

  lemma LeafGap(p: RespVersion, f: Frame)
    requires !IsAggregate(f)
    ensures |LeafBytes(p, f)| == NodeCost(f) + NodeGap(p, f)
  {
    hide Decimal.Show;
    hide Utf8.Lossy;
    hide Utf8.Sanitize;
    OneDigit();
  }

  lemma OneDigit()
    ensures |Decimal.ShowInt(0)| == 1 && |Decimal.ShowInt(1)| == 1
  {
  }

  lemma HeaderGap(p: RespVersion, f: Frame)
    requires IsAggregate(f) && !(p.Resp2? && f.Attribute?)
    ensures |LengthHeader(WireTag(p, f), WireLen(p, f))| == NodeCost(f) + NodeGap(p, f)
  {
    hide Decimal.Show;
  }

  lemma NoKids(p: RespVersion)
    ensures CostSeq([]) == 0 && GapSeq(p, []) == 0 && EncodeSeq(p, []) == []
  {
  }

  lemma CostOfAttribute(f: Frame)
    requires f.Attribute?
    ensures Cost(f) == NodeCost(f) + CostSeq(Flatten(f.attributes)) + Cost(f.inner)
  {
    CostSeqSplit(Flatten(f.attributes), [f.inner]);
    assert [f.inner][1..] == [];
    assert CostSeq([f.inner]) == Cost(f.inner);
  }

  /** Every frame is sent in exactly its charge plus its gap. */
  lemma {:induction false} SentInCostPlusGap(p: RespVersion, f: Frame)
    ensures |Encode(p, f)| == Cost(f) + Gap(p, f)
    decreases Nodes(f), 0
  {
    hide CostSeq;
    hide GapSeq;
    hide EncodeSeq;
    hide NodeCost;
    hide NodeGap;
    NodesOfKids(f);
    NoKids(p);
    if !IsAggregate(f) {
      LeafGap(p, f);
    } else if p.Resp2? && f.Attribute? {
      NodesSeqSplit(Flatten(f.attributes), [f.inner]);
      CostOfAttribute(f);
      SentInCostPlusGap(p, f.inner);
    } else {
      HeaderGap(p, f);
      AllSentInCostPlusGap(p, Kids(f));
    }
  }

  lemma {:induction false} AllSentInCostPlusGap(p: RespVersion, frames: seq<Frame>)
    ensures |EncodeSeq(p, frames)| == CostSeq(frames) + GapSeq(p, frames)
    decreases NodesSeq(frames), 1
  {
    hide Cost;
    hide Gap;
    hide Encode;
    if frames != [] {
      SentInCostPlusGap(p, frames[0]);
      AllSentInCostPlusGap(p, frames[1..]);
    }
  }

  /** Bytes left for a reply within budget once its header and its charges are taken off. */
  function Room(frames: seq<Frame>): int {
    MAX_FRAME_BYTES - |Decimal.Show(|frames|)| - 3 - CostSeq(frames)
  }

  lemma ReplyHeaderFits(frames: seq<Frame>)
    requires WithinBudget(frames)
    ensures Room(frames) >= 0
  {
    hide CostSeq;
    CountWithinNodes(frames);
    assert Decimal.Pow10(3) == 1000;
    assert Decimal.Pow10(7) == 1000_0000;
    Decimal.ShowLength(|frames|, 7);
  }

  /** A reply within budget keeps all items and the node limit, and it is sent within the byte
      limit of a frame exactly when its gap is no larger than the room left. */
  lemma ReplyFitsExactly(p: RespVersion, frames: seq<Frame>)
    requires WithinBudget(frames)
    ensures ExecReply(frames) == Array(frames) && Nodes(Array(frames)) <= MAX_FRAME_NODES
    ensures |Encode(p, ExecReply(frames))| <= MAX_FRAME_BYTES <==> GapSeq(p, frames) <= Room(frames)
  {
    hide CostSeq;
    hide GapSeq;
    hide EncodeSeq;
    AllSentInCostPlusGap(p, frames);
    assert Kids(Array(frames)) == frames;
  }

  /** No node of the tree is sent in more bytes than it was charged. */
  predicate Covered(p: RespVersion, f: Frame)
    decreases Nodes(f), 0
  {
    NodesOfKids(f);
    if p.Resp2? && f.Attribute? then
      NodesSeqSplit(Flatten(f.attributes), [f.inner]);
      Covered(p, f.inner)
    else NodeGap(p, f) <= 0 && CoveredSeq(p, Kids(f))
  }

  predicate CoveredSeq(p: RespVersion, frames: seq<Frame>)
    decreases NodesSeq(frames), 1
  {
    frames == [] || (Covered(p, frames[0]) && CoveredSeq(p, frames[1..]))
  }

  lemma {:induction false} CoveredHasNoGap(p: RespVersion, f: Frame)
    requires Covered(p, f)
    ensures Gap(p, f) <= 0
    decreases Nodes(f), 0
  {
    hide GapSeq;
    hide CoveredSeq;
    hide NodeCost;
    hide NodeGap;
    NodesOfKids(f);
    if p.Resp2? && f.Attribute? {
      NodesSeqSplit(Flatten(f.attributes), [f.inner]);
      CoveredHasNoGap(p, f.inner);
    } else {
      CoveredSeqHasNoGap(p, Kids(f));
    }
  }

  lemma {:induction false} CoveredSeqHasNoGap(p: RespVersion, frames: seq<Frame>)
    requires CoveredSeq(p, frames)
    ensures GapSeq(p, frames) <= 0
    decreases NodesSeq(frames), 1
  {
    hide Gap;
    hide Covered;
    if frames != [] {
      CoveredHasNoGap(p, frames[0]);
      CoveredSeqHasNoGap(p, frames[1..]);
    }
  }

  /** So a reply within budget fits as soon as each of its nodes is covered. */
  lemma CoveredReplyFits(p: RespVersion, frames: seq<Frame>)
    requires WithinBudget(frames) && CoveredSeq(p, frames)
    ensures |Encode(p, ExecReply(frames))| <= MAX_FRAME_BYTES
  {
    hide GapSeq;
    CoveredSeqHasNoGap(p, frames);
    ReplyHeaderFits(frames);
    ReplyFitsExactly(p, frames);
  }

  // Frames charged exactly: the types that commands answer with.

  predicate PlainNode(f: Frame) {
    f.Ok? || f.Integer? || f.SimpleString? || f.Error? || f.Null? || f.BulkString? || f.Boolean?
    || f.Array? || f.Set? || f.Push?
  }

  predicate Plain(f: Frame)
    decreases Nodes(f), 0
  {
    NodesOfKids(f);
    PlainNode(f) && PlainSeq(Kids(f))
  }

  predicate PlainSeq(frames: seq<Frame>)
    decreases NodesSeq(frames), 1
  {
    frames == [] || (Plain(frames[0]) && PlainSeq(frames[1..]))
  }

  lemma {:induction false} PlainHasNoGap(f: Frame)
    requires Plain(f)
    ensures Gap(Resp2, f) == 0
    decreases Nodes(f), 0
  {
    hide GapSeq;
    hide PlainSeq;
    NodesOfKids(f);
    PlainSeqHasNoGap(Kids(f));
  }

  lemma {:induction false} PlainSeqHasNoGap(frames: seq<Frame>)
    requires PlainSeq(frames)
    ensures GapSeq(Resp2, frames) == 0
    decreases NodesSeq(frames), 1
  {
    hide Gap;
    hide Plain;
    if frames != [] {
      PlainHasNoGap(frames[0]);
      PlainSeqHasNoGap(frames[1..]);
    }
  }

  /** The charge is the exact length that is sent if and only if the gap is zero, as it is on plain
      frames in the older protocol. */
  lemma CostIsEncodedLength(p: RespVersion, f: Frame)
    ensures Cost(f) == |Encode(p, f)| <==> Gap(p, f) == 0
    ensures p.Resp2? && Plain(f) ==> Gap(p, f) == 0
  {
    hide Cost;
    hide Encode;
    hide Gap;
    hide Plain;
    SentInCostPlusGap(p, f);
    if p.Resp2? && Plain(f) {
      PlainHasNoGap(f);
    }
  }

  /** A plain reply within budget has one item per command and stays within the byte limit. */
  lemma ReplyFits(frames: seq<Frame>)
    requires PlainSeq(frames) && WithinBudget(frames)
    ensures ExecReply(frames) == Array(frames)
    ensures Nodes(Array(frames)) <= MAX_FRAME_NODES
    ensures |Encode(Resp2, Array(frames))| <= MAX_FRAME_BYTES
  {
    hide GapSeq;
    PlainSeqHasNoGap(frames);
    ReplyHeaderFits(frames);
    ReplyFitsExactly(Resp2, frames);
  }

  /** The downgrade of plain frames keeps their shape. */
  lemma {:induction false} PlainImage(f: Frame)
    requires Plain(f)
    ensures Nodes(Image(Resp2, f)) == Nodes(f) && Height(Image(Resp2, f)) == Height(f)
    ensures Numeric(Image(Resp2, f))
    decreases Nodes(f), 0
  {
    hide ImageSeq;
    hide NodesSeq;
    hide HeightSeq;
    hide NumericSeq;
    NodesOfKids(f);
    NodesOfKids(Image(Resp2, f));
    if IsAggregate(f) {
      PlainImageSeq(Kids(f));
      assert Kids(Image(Resp2, f)) == ImageSeq(Resp2, Kids(f));
    } else {
      NoneIsNumeric();
    }
  }

  lemma NoneIsNumeric()
    ensures NumericSeq([]) && NodesSeq([]) == 0
  {
  }

  lemma {:induction false} PlainImageSeq(frames: seq<Frame>)
    requires PlainSeq(frames)
    ensures var images := ImageSeq(Resp2, frames);
            NodesSeq(images) == NodesSeq(frames) && HeightSeq(images) == HeightSeq(frames) && NumericSeq(images)
    decreases NodesSeq(frames), 1
  {
    hide Image;
    hide Numeric;
    hide Plain;
    if frames != [] {
      PlainImage(frames[0]);
      PlainImageSeq(frames[1..]);
      assert ImageSeq(Resp2, frames)[1..] == ImageSeq(Resp2, frames[1..]);
    }
  }

  /** A client reads the reply back exactly when it is not nested too deeply. */
  lemma ReplyReadsBack(frames: seq<Frame>)
    requires PlainSeq(frames) && WithinBudget(frames) && Typed(Array(frames))
    ensures Parser.ParseFromBytes(Encode(Resp2, ExecReply(frames))) == Bytes.Success(Image(Resp2, Array(frames)))
            <==> Height(Array(frames)) <= MAX_ARRAY_NESTING_DEPTH
  {
    hide Encode;
    hide Image;
    NodesOfKids(Array(frames));
    assert Kids(Array(frames)) == frames && Plain(Array(frames));
    PlainImage(Array(frames));
    ReplyFits(frames);
    RoundTrip.PrintParse(Resp2, Array(frames));
  }

  /** When the budget is exceeded the client reads one error, in either protocol version: the words
      ERR EXEC response exceeds configured limit. */
  lemma OverflowReadsBack(p: RespVersion, frames: seq<Frame>)
    requires !WithinBudget(frames)
    ensures Parser.ParseFromBytes(Encode(p, ExecReply(frames))) == Bytes.Success(Array([Error(
              [69, 82, 82, 32, 69, 88, 69, 67, 32, 114, 101, 115, 112, 111, 110, 115, 101, 32, 101, 120, 99, 101, 101,
               100, 115, 32, 99, 111, 110, 102, 105, 103, 117, 114, 101, 100, 32, 108, 105, 109, 105, 116])]))
  {
    hide Encode;
    hide Parser.ParseFromBytes;
    hide RoundTrip.Transmissible;
    OverflowText();
    ErrorFits(p, EXEC_TOO_LARGE);
    RoundTrip.PrintParse(p, Array([Error(EXEC_TOO_LARGE)]));
  }

  lemma OverflowText()
    ensures |EXEC_TOO_LARGE| == 42
    ensures forall i :: 0 <= i < |EXEC_TOO_LARGE| ==> 32 <= EXEC_TOO_LARGE[i] < 128
  {
  }

  /** One short error line as the only item of a reply. */
  lemma ErrorFits(p: RespVersion, text: bytes)
    requires |text| <= 1000 && forall i :: 0 <= i < |text| ==> 32 <= text[i] < 128
    ensures var f := Array([Error(text)]);
            Typed(f) && Image(p, f) == f && RoundTrip.Transmissible(p, f)
  {
    hide Encode;
    hide Utf8.Valid;
    var e := Error(text);
    var f := Array([e]);
    Utf8.AsciiIsValid(text);
    assert Kids(f) == [e] && [e][1..] == [];
    assert ImageSeq(p, [e]) == [e];
    ErrorLength(p, text);
    OneLeaf(e);
  }

  lemma LeafMeasures(e: Frame)
    requires !IsAggregate(e) && TypedNode(e) && NumericNode(e)
    ensures Kids(e) == [] && Typed(e) && Numeric(e) && Nodes(e) == 1 && Height(e) == 0
  {
  }

  lemma OnlyItem(e: Frame)
    ensures TypedSeq([e]) == Typed(e) && NumericSeq([e]) == Numeric(e)
    ensures NodesSeq([e]) == Nodes(e) && HeightSeq([e]) == Height(e)
  {
    hide Typed;
    hide Numeric;
    hide Nodes;
    hide Height;
    assert [e][1..] == [];
    assert TypedSeq([]) && NumericSeq([]) && NodesSeq([]) == 0 && HeightSeq([]) == 0;
  }

  lemma OneLeaf(e: Frame)
    requires !IsAggregate(e) && TypedNode(e) && NumericNode(e)
    ensures var f := Array([e]);
            Typed(f) && Numeric(f) && Nodes(f) == 2 && Height(f) == 1
  {
    hide TypedSeq;
    hide NumericSeq;
    hide NodesSeq;
    hide HeightSeq;
    LeafMeasures(e);
    OnlyItem(e);
    assert Kids(Array([e])) == [e];
  }

  lemma ErrorLength(p: RespVersion, text: bytes)
    ensures |Encode(p, Array([Error(text)]))| == |text| + 7
  {
    var e := Error(text);
    assert [e][1..] == [];
    assert EncodeSeq(p, [e]) == LeafBytes(p, e);
    assert Decimal.Show(1) == [49];
  }

  // A reply within budget that does not fit.

  function Copies(f: Frame, n: nat): seq<Frame> {
    seq(n, _ => f)
  }

  lemma {:induction false} CopiesAddUp(p: RespVersion, f: Frame, n: nat, nodes: nat, cost: nat, gap: int)
    requires Nodes(f) == nodes && Cost(f) == cost && Gap(p, f) == gap
    ensures NodesSeq(Copies(f, n)) == n * nodes
    ensures CostSeq(Copies(f, n)) == n * cost
    ensures GapSeq(p, Copies(f, n)) == n * gap
    decreases n
  {
    hide NodesSeq;
    hide CostSeq;
    hide GapSeq;
    NoKids(p);
    NoneIsNumeric();
    if n > 0 {
      assert Copies(f, n)[0] == f && Copies(f, n)[1..] == Copies(f, n - 1);
      OneFirst(p, Copies(f, n));
      CopiesAddUp(p, f, n - 1, nodes, cost, gap);
      OneMoreTimes(n, nodes);
      OneMoreTimes(n, cost);
      OneMoreTimes(n, gap);
    } else {
      assert Copies(f, 0) == [];
    }
  }

  lemma OneFirst(p: RespVersion, frames: seq<Frame>)
    requires frames != []
    ensures NodesSeq(frames) == Nodes(frames[0]) + NodesSeq(frames[1..])
    ensures CostSeq(frames) == Cost(frames[0]) + CostSeq(frames[1..])
    ensures GapSeq(p, frames) == Gap(p, frames[0]) + GapSeq(p, frames[1..])
  {
  }

  lemma OneMoreTimes(n: nat, x: int)
    requires n > 0
    ensures n * x == x + (n - 1) * x
  {
  }

  /** The text of the double ten to the sixty-ninth power. */
  function LongDouble(): (text: bytes)
    ensures |text| == 70
  {
    [49] + seq(69, _ => 48)
  }

  /** 900,000 such doubles are within budget, and too long in the older protocol: each is sent as a
      bulk string and was not charged for the length in front of it. */
  lemma DoublesOverrun()
    ensures var frames := Copies(Double(LongDouble()), 900_000);
            WithinBudget(frames) && |Encode(Resp2, ExecReply(frames))| > MAX_FRAME_BYTES
  {
    hide Nodes;
    hide NodesSeq;
    hide CostSeq;
    hide GapSeq;
    var f := Double(LongDouble());
    var frames := Copies(f, 900_000);
    LongDoubleCost();
    CopiesAddUp(Resp2, f, 900_000, 1, 73, 4);
    assert |frames| == 900_000;
    assert Decimal.Pow10(5) == 100_000;
    ReplyFitsExactly(Resp2, frames);
  }

  lemma LongDoubleCost()
    ensures var f := Double(LongDouble());
            Nodes(f) == 1 && Cost(f) == 73 && Gap(Resp2, f) == 4
  {
    assert Decimal.Show(7) == [55];
    assert Decimal.Show(70) == Decimal.Show(7) + [48];
    NoKids(Resp2);
  }
}
