/** Protocol frames, their children, size and nesting, and the protocol limits. */
module Frames {
  import opened Bytes
  import Decimal
  import Utf8

  const MAX_FRAME_BYTES: nat := 64 * 1024 * 1024
  const MAX_BULK_STRING_BYTES: nat := MAX_FRAME_BYTES
  const MAX_ARRAY_ELEMENTS: nat := 1_000_000
  const MAX_ARRAY_NESTING_DEPTH: nat := 128
  const MAX_FRAME_NODES: nat := MAX_ARRAY_ELEMENTS + 1

  datatype RespVersion = Resp2 | Resp3

  /** Doubles are kept as the text that stands for them on the wire. */
  datatype Frame =
    | Ok
    | Integer(value: int)
    | SimpleString(text: bytes)
    | Array(items: seq<Frame>)
    | BulkString(data: bytes)
    | Error(text: bytes)
    | Null
    | Boolean(flag: bool)
    | Double(text: bytes)
    | BigNumber(text: bytes)
    | BlobError(data: bytes)
    | VerbatimString(format: bytes, data: bytes)
    | Map(entries: seq<Entry>)
    | Set(items: seq<Frame>)
    | Attribute(attributes: seq<Entry>, inner: Frame)
    | Push(items: seq<Frame>)

  datatype Entry = Entry(key: Frame, value: Frame)

  function Flatten(pairs: seq<Entry>): (r: seq<Frame>)
    ensures |r| == 2 * |pairs|
  {
    if pairs == [] then [] else [pairs[0].key, pairs[0].value] + Flatten(pairs[1..])
  }

  /** Consecutive frames taken two by two. */
  function PairUp(frames: seq<Frame>): (r: seq<Entry>)
    requires |frames| % 2 == 0
    ensures Flatten(r) == frames
    decreases |frames|
  {
    if frames == [] then []
    else
      var rest := PairUp(frames[2..]);
      assert ([Entry(frames[0], frames[1])] + rest)[1..] == rest;
      [Entry(frames[0], frames[1])] + rest
  }

  lemma {:induction false} PairUpFlatten(pairs: seq<Entry>)
    ensures PairUp(Flatten(pairs)) == pairs
    decreases |pairs|
  {
    if pairs != [] {
      assert Flatten(pairs)[2..] == Flatten(pairs[1..]);
      PairUpFlatten(pairs[1..]);
    }
  }

  /** The frames directly inside an aggregate, in wire order. */
  function Kids(f: Frame): (kids: seq<Frame>) {
    match f
    case Array(items) => items
    case Set(items) => items
    case Push(items) => items
    case Map(entries) => Flatten(entries)
    case Attribute(attributes, inner) => Flatten(attributes) + [inner]
    case _ => []
  }

  predicate IsAggregate(f: Frame) {
    f.Array? || f.Set? || f.Push? || f.Map? || f.Attribute?
  }

  /** Number of frames in the tree rooted at `f`. */
  function Nodes(f: Frame): (n: nat)
    ensures n > 0
    decreases f
  {
    match f
    case Array(items) => 1 + NodesSeq(items)
    case Set(items) => 1 + NodesSeq(items)
    case Push(items) => 1 + NodesSeq(items)
    case Map(entries) => 1 + NodesPairs(entries)
    case Attribute(attributes, inner) => 1 + NodesPairs(attributes) + Nodes(inner)
    case _ => 1
  }

  function NodesSeq(frames: seq<Frame>): nat
    decreases frames
  {
    if frames == [] then 0 else Nodes(frames[0]) + NodesSeq(frames[1..])
  }

  function NodesPairs(pairs: seq<Entry>): (n: nat)
    decreases pairs
  {
    if pairs == [] then 0
    else NodesEntry(pairs[0]) + NodesPairs(pairs[1..])
  }

  function NodesEntry(entry: Entry): (n: nat)
    decreases entry
  {
    Nodes(entry.key) + Nodes(entry.value)
  }

  lemma {:induction false} NodesSeqSplit(xs: seq<Frame>, ys: seq<Frame>)
    ensures NodesSeq(xs + ys) == NodesSeq(xs) + NodesSeq(ys)
    decreases |xs|
  {
    if xs == [] {
      assert xs + ys == ys;
    } else {
      assert (xs + ys)[1..] == xs[1..] + ys;
      NodesSeqSplit(xs[1..], ys);
    }
  }

  lemma {:induction false} NodesOfPairs(pairs: seq<Entry>)
    ensures NodesPairs(pairs) == NodesSeq(Flatten(pairs))
    decreases |pairs|
  {
    if pairs != [] {
      NodesOfPairs(pairs[1..]);
      assert Flatten(pairs)[1..][1..] == Flatten(pairs[1..]);
    }
  }

  /** Recursion over `Kids` is recursion into a smaller tree. */
  lemma NodesOfKids(f: Frame)
    ensures Nodes(f) == 1 + NodesSeq(Kids(f))
  {
    match f
    case Map(entries) => NodesOfPairs(entries);
    case Attribute(attributes, inner) =>
      NodesOfPairs(attributes);
      NodesSeqSplit(Flatten(attributes), [inner]);
    case _ =>
  }

  lemma {:induction false} CountWithinNodes(frames: seq<Frame>)
    ensures |frames| <= NodesSeq(frames)
    decreases |frames|
  {
    if frames != [] {
      CountWithinNodes(frames[1..]);
    }
  }

  /** How many aggregates are nested in each other. */
  function Height(f: Frame): nat
    decreases Nodes(f), 0
  {
    NodesOfKids(f);
    if IsAggregate(f) then 1 + HeightSeq(Kids(f)) else 0
  }

  function HeightSeq(frames: seq<Frame>): nat
    decreases NodesSeq(frames), 1
  {
    if frames == [] then 0
    else
      var head := Height(frames[0]);
      var tail := HeightSeq(frames[1..]);
      if head >= tail then head else tail
  }

  /** What the types of the implementation guarantee: machine integers, UTF-8 texts. */
  predicate TypedNode(f: Frame) {
    match f
    case Integer(value) => Decimal.InI64(value)
    case SimpleString(text) => Utf8.Valid(text)
    case Error(text) => Utf8.Valid(text)
    case Double(text) => Utf8.Valid(text)
    case BigNumber(text) => Utf8.Valid(text)
    case VerbatimString(format, _) => |format| == 3
    case _ => true
  }

  /** Texts that the protocol accepts for a number. */
  predicate NumericNode(f: Frame) {
    match f
    case Double(text) => Decimal.FloatText(text)
    case BigNumber(text) => Decimal.BigNumberText(text)
    case _ => true
  }

  predicate Typed(f: Frame)
    decreases Nodes(f), 0
  {
    NodesOfKids(f);
    TypedNode(f) && TypedSeq(Kids(f))
  }

  predicate TypedSeq(frames: seq<Frame>)
    decreases NodesSeq(frames), 1
  {
    frames == [] || (Typed(frames[0]) && TypedSeq(frames[1..]))
  }

  predicate Numeric(f: Frame)
    decreases Nodes(f), 0
  {
    NodesOfKids(f);
    NumericNode(f) && NumericSeq(Kids(f))
  }

  predicate NumericSeq(frames: seq<Frame>)
    decreases NodesSeq(frames), 1
  {
    frames == [] || (Numeric(frames[0]) && NumericSeq(frames[1..]))
  }
}
