/** Frames as bytes, in either protocol version. */
module Printer {
  import opened Bytes
  import opened Frames
  import opened Scanner
  import Decimal
  import Utf8

  const OK_TEXT: bytes := [79, 75]

  function Line(prefix: byte, text: bytes): (r: bytes)
    ensures |r| == |text| + 3
  {
    [prefix] + text + CRLF
  }

  function LengthHeader(prefix: byte, n: nat): (r: bytes)
    ensures |r| == |Decimal.Show(n)| + 3
  {
    [prefix] + Decimal.Show(n) + CRLF
  }

  function Blob(prefix: byte, data: bytes): (r: bytes) {
    LengthHeader(prefix, |data|) + data + CRLF
  }

  /** Frames without children. */
  function LeafBytes(p: RespVersion, f: Frame): bytes
    requires !IsAggregate(f)
  {
    match f
    case Ok => Line(PLUS, OK_TEXT)
    case Integer(value) => Line(COLON, Decimal.ShowInt(value))
    case SimpleString(text) => Line(PLUS, Utf8.Sanitize(text))
    case Error(text) => Line(MINUS, Utf8.Sanitize(text))
    case Null => if p.Resp2? then LengthlessNull() else Line(UNDERSCORE, [])
    case BulkString(data) => Blob(DOLLAR, data)
    case Boolean(flag) =>
      if p.Resp2? then Line(COLON, Decimal.ShowInt(if flag then 1 else 0))
      else Line(HASH, [if flag then 116 else 102])
    case Double(text) => if p.Resp2? then Blob(DOLLAR, text) else Line(COMMA, Utf8.Sanitize(text))
    case BigNumber(text) => if p.Resp2? then Blob(DOLLAR, text) else Line(LPAREN, Utf8.Sanitize(text))
    case BlobError(data) =>
      if p.Resp2? then Line(MINUS, Utf8.Sanitize(Utf8.Lossy(data))) else Blob(BANG, data)
    case VerbatimString(format, data) =>
      if p.Resp2? then Blob(DOLLAR, data) else Blob(EQUALS, format + [COLON] + data)
  }

  /** The null bulk string of the older protocol. */
  function LengthlessNull(): bytes {
    [DOLLAR] + MINUS_ONE + CRLF
  }

  function WireTag(p: RespVersion, f: Frame): (x: byte)
    requires IsAggregate(f)
    ensures IsAggregatePrefix(x)
  {
    if p.Resp2? || f.Array? then STAR
    else if f.Set? then TILDE
    else if f.Push? then GREATER
    else if f.Map? then PERCENT
    else PIPE
  }

  function WireLen(p: RespVersion, f: Frame): nat
    requires IsAggregate(f)
  {
    match f
    case Map(entries) => if p.Resp2? then 2 * |entries| else |entries|
    case Attribute(attributes, _) => |attributes|
    case _ => |Kids(f)|
  }

  function Encode(p: RespVersion, f: Frame): bytes
    decreases Nodes(f), 0
  {
    NodesOfKids(f);
    if !IsAggregate(f) then LeafBytes(p, f)
    else if p.Resp2? && f.Attribute? then Encode(p, f.inner)
    else LengthHeader(WireTag(p, f), WireLen(p, f)) + EncodeSeq(p, Kids(f))
  }

  function EncodeSeq(p: RespVersion, frames: seq<Frame>): bytes
    decreases NodesSeq(frames), 1
  {
    if frames == [] then [] else Encode(p, frames[0]) + EncodeSeq(p, frames[1..])
  }

  lemma {:induction false} EncodeSeqSplit(p: RespVersion, xs: seq<Frame>, ys: seq<Frame>)
    ensures EncodeSeq(p, xs + ys) == EncodeSeq(p, xs) + EncodeSeq(p, ys)
    decreases |xs|
  {
    if xs == [] {
      assert xs + ys == ys;
    } else {
      assert (xs + ys)[1..] == xs[1..] + ys;
      EncodeSeqSplit(p, xs[1..], ys);
    }
  }

  /** What a reader of the protocol sees of a frame: newer types downgraded in the older protocol,
      one-line texts free of line breaks, and no difference between `Ok` and the text OK. */
  function Image(p: RespVersion, f: Frame): Frame
    decreases Nodes(f), 0
  {
    NodesOfKids(f);
    match f
    case Ok => SimpleString(OK_TEXT)
    case SimpleString(text) => SimpleString(Utf8.Sanitize(text))
    case Error(text) => Error(Utf8.Sanitize(text))
    case Boolean(flag) => if p.Resp2? then Integer(if flag then 1 else 0) else f
    case Double(text) => if p.Resp2? then BulkString(text) else Double(Utf8.Sanitize(text))
    case BigNumber(text) => if p.Resp2? then BulkString(text) else BigNumber(Utf8.Sanitize(text))
    case BlobError(data) => if p.Resp2? then Error(Utf8.Sanitize(Utf8.Lossy(data))) else f
    case VerbatimString(_, data) => if p.Resp2? then BulkString(data) else f
    case Array(items) => Array(ImageSeq(p, items))
    case Set(items) => if p.Resp2? then Array(ImageSeq(p, items)) else Set(ImageSeq(p, items))
    case Push(items) => if p.Resp2? then Array(ImageSeq(p, items)) else Push(ImageSeq(p, items))
    case Map(entries) =>
      var kids := ImageSeq(p, Kids(f));
      if p.Resp2? then Array(kids) else Map(PairUp(kids))
    case Attribute(attributes, inner) =>
      NodesSeqSplit(Flatten(attributes), [inner]);
      if p.Resp2? then Image(p, inner)
      else Attribute(PairUp(ImageSeq(p, Flatten(attributes))), Image(p, inner))
    case _ => f
  }

  function ImageSeq(p: RespVersion, frames: seq<Frame>): (r: seq<Frame>)
    ensures |r| == |frames|
    decreases NodesSeq(frames), 1
  {
    if frames == [] then [] else [Image(p, frames[0])] + ImageSeq(p, frames[1..])
  }

  // The writer as the server runs it: one growing buffer.

  class Output {
    var bytes: bytes

    constructor ()
      ensures bytes == []
    {
      bytes := [];
    }
  }

  method AppendFrame(output: Output, f: Frame, p: RespVersion)
    modifies output
    ensures output.bytes == old(output.bytes) + Encode(p, f)
    decreases Nodes(f), 0
  {
    hide EncodeSeq;
    hide LengthHeader;
    NodesOfKids(f);
    match f {
      case Array(items) => AppendSequence(output, STAR, items, p);
      case Set(items) => AppendSequence(output, if p.Resp2? then STAR else TILDE, items, p);
      case Push(items) => AppendSequence(output, if p.Resp2? then STAR else GREATER, items, p);
      case Map(entries) =>
        NodesOfPairs(entries);
        if p.Resp2? {
          AppendMapAsArray(output, entries, p);
        } else {
          AppendMap(output, PERCENT, entries, p);
        }
      case Attribute(attributes, inner) =>
        AppendAttribute(output, attributes, inner, p);
      case _ => output.bytes := output.bytes + LeafBytes(p, f);
    }
  }

  method AppendAttribute(output: Output, attributes: seq<Entry>, inner: Frame, p: RespVersion)
    modifies output
    ensures output.bytes == old(output.bytes) + Encode(p, Attribute(attributes, inner))
    decreases Nodes(Attribute(attributes, inner)) - 1, 3
  {
    hide EncodeSeq;
    hide LengthHeader;
    if p.Resp3? {
      AppendMap(output, PIPE, attributes, p);
      SubjectLast(p, attributes, inner);
      Assoc(LengthHeader(PIPE, |attributes|), EncodeSeq(p, Flatten(attributes)), Encode(p, inner));
      Assoc(old(output.bytes), LengthHeader(PIPE, |attributes|) + EncodeSeq(p, Flatten(attributes)),
            Encode(p, inner));
    }
    AppendFrame(output, inner, p);
  }

  lemma SubjectLast(p: RespVersion, attributes: seq<Entry>, inner: Frame)
    ensures EncodeSeq(p, Flatten(attributes) + [inner]) == EncodeSeq(p, Flatten(attributes)) + Encode(p, inner)
  {
    EncodeSeqSplit(p, Flatten(attributes), [inner]);
    assert [inner][1..] == [];
    assert EncodeSeq(p, [inner]) == Encode(p, inner);
  }

  method AppendSequence(output: Output, prefix: byte, values: seq<Frame>, p: RespVersion)
    modifies output
    ensures output.bytes == old(output.bytes) + (LengthHeader(prefix, |values|) + EncodeSeq(p, values))
    decreases NodesSeq(values), 1
  {
    hide Encode;
    hide EncodeSeq;
    hide LengthHeader;
    output.bytes := output.bytes + LengthHeader(prefix, |values|);
    Assoc(old(output.bytes), LengthHeader(prefix, |values|), EncodeSeq(p, values));
    ghost var start := output.bytes;
    for i := 0 to |values|
      invariant output.bytes + EncodeSeq(p, values[i..]) == start + EncodeSeq(p, values)
    {
      MemberNodes(values, i);
      EncodeStep(p, values, i);
      Assoc(output.bytes, Encode(p, values[i]), EncodeSeq(p, values[i + 1..]));
      AppendFrame(output, values[i], p);
    }
    assert values[|values|..] == [];
    EncodeEnd(p, output.bytes);
  }

  lemma EncodeStep(p: RespVersion, values: seq<Frame>, i: nat)
    requires i < |values|
    ensures EncodeSeq(p, values[i..]) == Encode(p, values[i]) + EncodeSeq(p, values[i + 1..])
  {
    assert values[i..][1..] == values[i + 1..];
  }

  lemma EncodeEnd(p: RespVersion, b: bytes)
    ensures b + EncodeSeq(p, []) == b
  {
  }

  lemma EncodePairStep(p: RespVersion, entries: seq<Entry>, i: nat)
    requires i < |entries|
    ensures EncodeSeq(p, Flatten(entries[i..])) ==
            Encode(p, entries[i].key) + (Encode(p, entries[i].value) + EncodeSeq(p, Flatten(entries[i + 1..])))
  {
    hide Encode;
    var rest := Flatten(entries[i + 1..]);
    assert entries[i..][1..] == entries[i + 1..];
    assert Flatten(entries[i..]) == [entries[i].key] + ([entries[i].value] + rest);
    EncodeStep(p, [entries[i].key] + ([entries[i].value] + rest), 0);
    EncodeStep(p, [entries[i].value] + rest, 0);
  }

  method AppendMap(output: Output, prefix: byte, entries: seq<Entry>, p: RespVersion)
    modifies output
    ensures output.bytes ==
            old(output.bytes) + (LengthHeader(prefix, |entries|) + EncodeSeq(p, Flatten(entries)))
    decreases NodesPairs(entries), 2
  {
    hide EncodeSeq;
    hide LengthHeader;
    output.bytes := output.bytes + LengthHeader(prefix, |entries|);
    AppendEntries(output, entries, p);
    Assoc(old(output.bytes), LengthHeader(prefix, |entries|), EncodeSeq(p, Flatten(entries)));
  }

  method AppendMapAsArray(output: Output, entries: seq<Entry>, p: RespVersion)
    modifies output
    ensures output.bytes ==
            old(output.bytes) + (LengthHeader(STAR, 2 * |entries|) + EncodeSeq(p, Flatten(entries)))
    decreases NodesPairs(entries), 2
  {
    hide EncodeSeq;
    hide LengthHeader;
    output.bytes := output.bytes + LengthHeader(STAR, 2 * |entries|);
    AppendEntries(output, entries, p);
    Assoc(old(output.bytes), LengthHeader(STAR, 2 * |entries|), EncodeSeq(p, Flatten(entries)));
  }

  method AppendEntries(output: Output, entries: seq<Entry>, p: RespVersion)
    modifies output
    ensures output.bytes == old(output.bytes) + EncodeSeq(p, Flatten(entries))
    decreases NodesPairs(entries), 1
  {
    hide Encode;
    hide EncodeSeq;
    hide Flatten;
    ghost var start := output.bytes;
    for i := 0 to |entries|
      invariant output.bytes + EncodeSeq(p, Flatten(entries[i..])) == start + EncodeSeq(p, Flatten(entries))
    {
      var key, value := entries[i].key, entries[i].value;
      MemberPairNodes(entries, i);
      EncodePairStep(p, entries, i);
      ghost var rest := EncodeSeq(p, Flatten(entries[i + 1..]));
      Assoc(output.bytes, Encode(p, key), Encode(p, value) + rest);
      Assoc(output.bytes + Encode(p, key), Encode(p, value), rest);
      AppendFrame(output, key, p);
      AppendFrame(output, value, p);
    }
    EncodeEnd(p, output.bytes);
    assert entries[|entries|..] == [];
    assert Flatten(entries[|entries|..]) == [];
  }

  lemma {:induction false} MemberNodes(frames: seq<Frame>, i: nat)
    requires i < |frames|
    ensures Nodes(frames[i]) <= NodesSeq(frames)
    decreases i
  {
    if i > 0 {
      MemberNodes(frames[1..], i - 1);
    }
  }

  lemma {:induction false} MemberPairNodes(entries: seq<Entry>, i: nat)
    requires i < |entries|
    ensures Nodes(entries[i].key) < NodesPairs(entries)
    ensures Nodes(entries[i].value) < NodesPairs(entries)
    decreases i
  {
    if i > 0 {
      MemberPairNodes(entries[1..], i - 1);
    }
  }
}
