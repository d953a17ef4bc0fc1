/** Printing a frame and parsing the bytes. */
module RoundTrip {
  import opened Bytes
  import opened Frames
  import opened Scanner
  import opened Parser
  import opened Printer
  import Agreement
  import Decimal
  import Utf8

  // Headers and one-line texts are found again.

  lemma LineFound(prefix: byte, text: bytes, s: bytes)
    requires prefix != CR && prefix != LF && NoLineBreak(text)
    ensures FindCrlf(Line(prefix, text) + s, 0) == Some(1 + |text|)
    ensures (Line(prefix, text) + s)[0] == prefix
    ensures (Line(prefix, text) + s)[1..1 + |text|] == text
  {
    var b := Line(prefix, text) + s;
    assert b == [] + ([prefix] + text) + CRLF + s;
    FindCrlfAfterLine([], [prefix] + text, s);
  }

  lemma HeaderFound(prefix: byte, text: bytes, s: bytes)
    requires prefix != CR && prefix != LF && NoLineBreak(text) && Utf8.Valid(text) && |text| <= 17
    ensures var b := Line(prefix, text) + s;
            PrefixedLengthLine(b) == HeaderLine(|text| + 3, text) && LengthText(b) == Success((text, |text| + 3))
  {
    var b := Line(prefix, text) + s;
    LineFound(prefix, text, s);
    var limit := Min(|b|, MAX_LENGTH_HEADER_BYTES);
    var i := 1 + |text|;
    assert CrlfAt(b[..limit], i);
    forall j | 1 <= j < i ensures !CrlfAt(b[..limit], j) {
      assert !CrlfAt(b, j);
    }
    FindCrlfIs(b[..limit], 1, i);
  }

  lemma LengthFound(prefix: byte, n: nat, s: bytes)
    requires prefix != CR && prefix != LF && n <= 0x1000_0000
    ensures var b := LengthHeader(prefix, n) + s;
            var text := Decimal.Show(n);
            PrefixedLengthLine(b) == HeaderLine(|text| + 3, text) && LengthText(b) == Success((text, |text| + 3))
  {
    hide Decimal.Show;
    hide Decimal.Value;
    hide Utf8.Valid;
    hide PrefixedLengthLine;
    hide LengthText;
    Decimal.LengthHeaderFits(n);
    Decimal.DigitsAreAscii(Decimal.Show(n));
    HeaderFound(prefix, Decimal.Show(n), s);
  }

  // Leaves.

  lemma LineRoundTrip(prefix: byte, text: bytes, s: bytes)
    requires IsLinePrefix(prefix) && NoLineBreak(text) && LineFault(prefix, text).None?
    requires |text| + 3 <= MAX_FRAME_BYTES
    ensures var b := Line(prefix, text) + s;
            && b != [] && b[0] == prefix
            && LineScan(b) == Complete(|text| + 3)
            && ParseLine(b) == Success(Parsed(LineFrame(prefix, text), |text| + 3))
  {
    LineFound(prefix, text, s);
  }

  function LineFrame(prefix: byte, text: bytes): Frame
    requires IsLinePrefix(prefix) && LineFault(prefix, text).None?
  {
    if prefix == UNDERSCORE then Null
    else if prefix == HASH then Boolean(text == [116])
    else if prefix == PLUS then SimpleString(text)
    else if prefix == MINUS then Error(text)
    else if prefix == LPAREN then BigNumber(text)
    else if prefix == COMMA then Double(text)
    else Integer(Decimal.ParseI64(text).value)
  }

  lemma Sandwich(header: bytes, data: bytes, s: bytes)
    ensures var b := header + data + CRLF + s;
            && b == header + (data + CRLF + s) && |b| == |header| + |data| + 2 + |s|
            && b[|header|..|header| + |data|] == data
            && CrlfAt(b, |header| + |data|)
  {
    var b := header + data + CRLF + s;
    assert b[|header| + |data|] == CRLF[0] && b[|header| + |data| + 1] == CRLF[1];
  }

  lemma BlobScanned(prefix: byte, kind: PayloadKind, data: bytes, s: bytes)
    requires PayloadKindOf(prefix) == Some(kind) && |Blob(prefix, data)| <= MAX_FRAME_BYTES
    ensures var b := Blob(prefix, data) + s;
            var start := |LengthHeader(prefix, |data|)|;
            && b != [] && b[0] == prefix
            && PayloadScan(b, kind) == Complete(|Blob(prefix, data)|)
            && LengthText(b) == Success((Decimal.Show(|data|), start))
            && b[start..start + |data|] == data
  {
    hide Decimal.Show;
    hide Decimal.Value;
    hide Decimal.ParseUsize;
    hide Utf8.Valid;
    hide PrefixedLengthLine;
    hide LengthText;
    hide CrlfAt;
    hide LengthHeader;
    hide NoLineBreak;
    var header := LengthHeader(prefix, |data|);
    var b := Blob(prefix, data) + s;
    Sandwich(header, data, s);
    FirstByte(prefix, |data|, data + CRLF + s);
    LengthFound(prefix, |data|, data + CRLF + s);
    Decimal.ParseShowUsize(|data|);
  }

  lemma FirstByte(prefix: byte, n: nat, s: bytes)
    ensures var b := LengthHeader(prefix, n) + s;
            b != [] && b[0] == prefix
  {
    hide Decimal.Show;
  }

  lemma BulkRoundTrip(data: bytes, s: bytes)
    requires |Blob(DOLLAR, data)| <= MAX_FRAME_BYTES
    ensures ParseBulk(Blob(DOLLAR, data) + s) == Success(Parsed(BulkString(data), |Blob(DOLLAR, data)|))
  {
    hide Decimal.Show;
    hide Decimal.Value;
    hide Decimal.ParseUsize;
    hide PayloadScan;
    hide LengthText;
    var e := Blob(DOLLAR, data);
    BlobScanned(DOLLAR, BulkPayload, data, s);
    assert (e + s)[..|e|] == e + [];
    BlobScanned(DOLLAR, BulkPayload, data, []);
    Decimal.ParseShowUsize(|data|);
    var start := |LengthHeader(DOLLAR, |data|)|;
    assert CrlfAt(e + [], start + |data|);
  }

  /** The parser of blob errors and verbatim strings finds the payload. */
  lemma BlobParsed(prefix: byte, kind: PayloadKind, data: bytes, s: bytes)
    requires (prefix == BANG && kind == BlobErrorPayload) || (prefix == EQUALS && kind == VerbatimPayload)
    requires |Blob(prefix, data)| <= MAX_FRAME_BYTES
    ensures var e := Blob(prefix, data);
            && e + s != [] && (e + s)[0] == prefix
            && ParseBlob(e + s, kind == VerbatimPayload) ==
               if kind == BlobErrorPayload then Success(Parsed(BlobError(data), |e|))
               else if |data| < 4 || data[3] != COLON then Failure(VerbatimInvalid)
               else Success(Parsed(VerbatimString(data[..3], data[4..]), |e|))
  {
    hide LengthText;
    hide PayloadScan;
    hide Decimal.ParseUsize;
    hide Decimal.Show;
    hide Decimal.Value;
    hide Utf8.Valid;
    BlobScanned(prefix, kind, data, s);
    Decimal.ParseShowUsize(|data|);
  }

  lemma BlobErrorRoundTrip(data: bytes, s: bytes)
    requires |Blob(BANG, data)| <= MAX_FRAME_BYTES
    ensures ParseLeaf(Blob(BANG, data) + s) == Success(Parsed(BlobError(data), |Blob(BANG, data)|))
  {
    BlobParsed(BANG, BlobErrorPayload, data, s);
  }

  lemma VerbatimRoundTrip(format: bytes, data: bytes, s: bytes)
    requires |format| == 3 && |Blob(EQUALS, format + [COLON] + data)| <= MAX_FRAME_BYTES
    ensures var e := Blob(EQUALS, format + [COLON] + data);
            ParseLeaf(e + s) == Success(Parsed(VerbatimString(format, data), |e|))
  {
    hide ParseBlob;
    hide Blob;
    var payload := format + [COLON] + data;
    BlobParsed(EQUALS, VerbatimPayload, payload, s);
    assert payload[..3] == format && payload[3] == COLON && payload[4..] == data;
  }

  lemma NullRoundTrip(s: bytes)
    ensures var b := LengthlessNull() + s;
            && PayloadScan(b, BulkPayload) == Complete(5)
            && ParseBulk(b) == Success(Parsed(Null, 5))
  {
    var e := LengthlessNull();
    Utf8.AsciiIsValid(MINUS_ONE);
    assert e == Line(DOLLAR, MINUS_ONE);
    HeaderFound(DOLLAR, MINUS_ONE, s);
    assert (e + s)[..5] == e + [];
    HeaderFound(DOLLAR, MINUS_ONE, []);
  }

  ghost predicate ReadsBack(e: bytes, s: bytes, topLevel: bool, g: Frame) {
    && e != []
    && LeafScan(e + s, topLevel) == Complete(|e|)
    && ParseLeaf(e + s) == Success(Parsed(g, |e|))
  }

  lemma LineReadsBack(prefix: byte, text: bytes, s: bytes, topLevel: bool)
    requires IsLinePrefix(prefix) && NoLineBreak(text) && LineFault(prefix, text).None?
    requires |text| + 3 <= MAX_FRAME_BYTES
    ensures ReadsBack(Line(prefix, text), s, topLevel, LineFrame(prefix, text))
  {
    LineRoundTrip(prefix, text, s);
  }

  lemma BlobReadsBack(f: Frame, e: bytes, s: bytes, topLevel: bool)
    requires |e| <= MAX_FRAME_BYTES && TypedNode(f)
    requires match f
             case BulkString(data) => e == Blob(DOLLAR, data)
             case BlobError(data) => e == Blob(BANG, data)
             case VerbatimString(format, data) => e == Blob(EQUALS, format + [COLON] + data)
             case Null => e == LengthlessNull()
             case _ => false
    ensures ReadsBack(e, s, topLevel, f)
  {
    hide Blob;
    hide LineScan;
    hide PayloadScan;
    hide ParseBlob;
    hide ParseBulk;
    hide ParseInline;
    match f
    case BulkString(data) =>
      BlobScanned(DOLLAR, BulkPayload, data, s);
      BulkRoundTrip(data, s);
    case BlobError(data) =>
      BlobScanned(BANG, BlobErrorPayload, data, s);
      BlobErrorRoundTrip(data, s);
    case VerbatimString(format, data) =>
      BlobScanned(EQUALS, VerbatimPayload, format + [COLON] + data, s);
      VerbatimRoundTrip(format, data, s);
    case Null => NullRoundTrip(s);
  }

  /** A leaf that fits reads back as its image, whatever follows it. */
  lemma LeafReadsBack(p: RespVersion, f: Frame, s: bytes, topLevel: bool)
    requires !IsAggregate(f) && TypedNode(f) && NumericNode(Image(p, f))
    requires |LeafBytes(p, f)| <= MAX_FRAME_BYTES
    ensures ReadsBack(LeafBytes(p, f), s, topLevel, Image(p, f))
  {
    hide ReadsBack;
    hide Utf8.Valid;
    hide Utf8.Lossy;
    hide Decimal.ShowInt;
    hide Decimal.ParseI64;
    hide Decimal.FloatText;
    hide Decimal.BigNumberText;
    var e := LeafBytes(p, f);
    match f
    case Ok =>
      Utf8.AsciiIsValid(OK_TEXT);
      LineReadsBack(PLUS, OK_TEXT, s, topLevel);
    case Integer(value) =>
      Decimal.ParseShowInt(value);
      LineReadsBack(COLON, Decimal.ShowInt(value), s, topLevel);
    case SimpleString(text) =>
      Utf8.SanitizeKeepsValid(text);
      LineReadsBack(PLUS, Utf8.Sanitize(text), s, topLevel);
    case Error(text) =>
      Utf8.SanitizeKeepsValid(text);
      LineReadsBack(MINUS, Utf8.Sanitize(text), s, topLevel);
    case Null =>
      if p.Resp2? {
        BlobReadsBack(Null, e, s, topLevel);
      } else {
        LineReadsBack(UNDERSCORE, [], s, topLevel);
      }
    case Boolean(flag) =>
      if p.Resp2? {
        Decimal.ParseShowInt(if flag then 1 else 0);
        LineReadsBack(COLON, Decimal.ShowInt(if flag then 1 else 0), s, topLevel);
      } else {
        LineReadsBack(HASH, [if flag then 116 else 102], s, topLevel);
      }
    case Double(text) =>
      if p.Resp2? {
        BlobReadsBack(BulkString(text), e, s, topLevel);
      } else {
        Utf8.SanitizeKeepsValid(text);
        LineReadsBack(COMMA, Utf8.Sanitize(text), s, topLevel);
      }
    case BigNumber(text) =>
      if p.Resp2? {
        BlobReadsBack(BulkString(text), e, s, topLevel);
      } else {
        Utf8.SanitizeKeepsValid(text);
        LineReadsBack(LPAREN, Utf8.Sanitize(text), s, topLevel);
      }
    case BlobError(data) =>
      if p.Resp2? {
        Utf8.LossyIsValid(data);
        Utf8.SanitizeKeepsValid(Utf8.Lossy(data));
        LineReadsBack(MINUS, Utf8.Sanitize(Utf8.Lossy(data)), s, topLevel);
      } else {
        BlobReadsBack(f, e, s, topLevel);
      }
    case VerbatimString(format, data) =>
      BlobReadsBack(if p.Resp2? then BulkString(data) else f, e, s, topLevel);
    case BulkString(data) => BlobReadsBack(f, e, s, topLevel);
  }

  // Aggregates.

  lemma {:induction false} ImageSeqSplit(p: RespVersion, xs: seq<Frame>, ys: seq<Frame>)
    ensures ImageSeq(p, xs + ys) == ImageSeq(p, xs) + ImageSeq(p, ys)
    decreases |xs|
  {
    if xs == [] {
      assert xs + ys == ys;
    } else {
      assert (xs + ys)[1..] == xs[1..] + ys;
      ImageSeqSplit(p, xs[1..], ys);
    }
  }

  /** An aggregate that is printed as such is rebuilt from the images of its children. */
  lemma ImageIsBuilt(p: RespVersion, f: Frame)
    requires IsAggregate(f) && !(p.Resp2? && f.Attribute?)
    ensures Build(WireTag(p, f), ImageSeq(p, Kids(f))) == Success(Image(p, f))
    ensures ElementCount(WireTag(p, f), WireLen(p, f)) == |Kids(f)|
  {
    hide ImageSeq;
    hide PairUp;
    hide Flatten;
    hide Nodes;
    hide NodesSeq;
    hide NodesPairs;
    if f.Attribute? {
      AttributeIsBuilt(p, f);
    }
  }

  lemma AttributeIsBuilt(p: RespVersion, f: Frame)
    requires f.Attribute? && p.Resp3?
    ensures Build(WireTag(p, f), ImageSeq(p, Kids(f))) == Success(Image(p, f))
    ensures ElementCount(WireTag(p, f), WireLen(p, f)) == |Kids(f)|
  {
    hide ImageSeq;
    hide PairUp;
    hide Flatten;
    hide Nodes;
    hide NodesSeq;
    hide NodesPairs;
    LastImage(p, Flatten(f.attributes), f.inner);
  }

  lemma LastImage(p: RespVersion, frames: seq<Frame>, last: Frame)
    ensures var images := ImageSeq(p, frames + [last]);
            |images| == |frames| + 1 && images[..|frames|] == ImageSeq(p, frames) && images[|frames|] == Image(p, last)
  {
    hide Image;
    ImageSeqSplit(p, frames, [last]);
    assert ImageSeq(p, [last]) == [Image(p, last)];
  }

  /** The protocol limits, for a frame `g` at some depth, with `left` nodes to spend. */
  ghost predicate Fits(g: Frame, depth: nat, left: nat) {
    && Numeric(g)
    && Nodes(g) <= left <= MAX_FRAME_NODES
    && depth + Height(g) <= MAX_ARRAY_NESTING_DEPTH
  }

  ghost predicate FitsSeq(gs: seq<Frame>, depth: nat, left: nat) {
    && NumericSeq(gs)
    && NodesSeq(gs) <= left <= MAX_FRAME_NODES
    && depth + HeightSeq(gs) <= MAX_ARRAY_NESTING_DEPTH
  }

  lemma FitsInside(g: Frame, depth: nat, left: nat)
    requires IsAggregate(g) && Fits(g, depth, left)
    ensures depth < MAX_ARRAY_NESTING_DEPTH && left > 0
    ensures FitsSeq(Kids(g), depth + 1, left - 1) && |Kids(g)| < left
  {
    NodesOfKids(g);
    CountWithinNodes(Kids(g));
  }

  lemma FitsHead(gs: seq<Frame>, depth: nat, left: nat)
    requires gs != [] && FitsSeq(gs, depth, left)
    ensures Fits(gs[0], depth, left) && FitsSeq(gs[1..], depth, left - Nodes(gs[0]))
    ensures NodesSeq(gs) == Nodes(gs[0]) + NodesSeq(gs[1..])
  {
  }

  /** The header of a printed aggregate is read back by scanner and parser alike. */
  lemma AggregateHeaderReadsBack(p: RespVersion, f: Frame, s: bytes, depth: nat)
    requires IsAggregate(f) && !(p.Resp2? && f.Attribute?)
    requires depth < MAX_ARRAY_NESTING_DEPTH && |Kids(f)| <= MAX_ARRAY_ELEMENTS
    ensures var header := LengthHeader(WireTag(p, f), WireLen(p, f));
            var b := header + s;
            && b != [] && b[0] == WireTag(p, f)
            && AggregateHeader(b, depth) == Elements(|header|, |Kids(f)|)
            && ParseShape(b, depth) == Success(Shape(|header|, |Kids(f)|))
  {
    hide PrefixedLengthLine;
    hide LengthText;
    hide Decimal.ParseUsize;
    hide Decimal.Show;
    var n := WireLen(p, f);
    ImageIsBuilt(p, f);
    assert n <= |Kids(f)|;
    LengthFound(WireTag(p, f), n, s);
    Decimal.ParseShowUsize(n);
  }

  ghost predicate ReadAs(e: bytes, s: bytes, topLevel: bool, depth: nat, left: nat, g: Frame)
    requires Nodes(g) <= left
  {
    && FrameScan(e + s, topLevel, depth, left) == Scan(Complete(|e|), left - Nodes(g))
    && ParsePrefix(e + s, depth) == Success(Parsed(g, |e|))
  }

  /** A printed frame that fits is scanned and parsed as its image, whatever follows it. */
  lemma {:induction false} FrameReadsBack(p: RespVersion, f: Frame, s: bytes, topLevel: bool, depth: nat, left: nat)
    requires Typed(f) && Fits(Image(p, f), depth, left) && |Encode(p, f)| <= MAX_FRAME_BYTES
    ensures Nodes(Image(p, f)) <= left && ReadAs(Encode(p, f), s, topLevel, depth, left, Image(p, f))
    decreases Nodes(f), 1
  {
    hide ReadAs;
    hide LeafBytes;
    hide LengthHeader;
    hide ImageSeq;
    hide EncodeSeq;
    hide NodesSeq;
    hide Height;
    hide Numeric;
    if p.Resp2? && f.Attribute? {
      TypedInner(f);
      FrameReadsBack(p, f.inner, s, topLevel, depth, left);
    } else if IsAggregate(f) {
      AggregateReadsBack(p, f, s, topLevel, depth, left);
    } else {
      LeafFrameReadsBack(p, f, s, topLevel, depth, left);
    }
  }

  lemma LeafFrameReadsBack(p: RespVersion, f: Frame, s: bytes, topLevel: bool, depth: nat, left: nat)
    requires !IsAggregate(f) && Typed(f) && Fits(Image(p, f), depth, left) && |Encode(p, f)| <= MAX_FRAME_BYTES
    ensures ReadAs(Encode(p, f), s, topLevel, depth, left, Image(p, f))
  {
    hide FrameScan;
    hide ParsePrefix;
    hide LeafScan;
    hide ParseLeaf;
    hide LeafBytes;
    NodesOfKids(Image(p, f));
    LeafReadsBack(p, f, s, topLevel);
    LeafHasNoAggregateByte(p, f, s);
    UnfoldScan(Encode(p, f) + s, topLevel, depth, left);
    UnfoldParse(Encode(p, f) + s, depth);
  }

  lemma {:induction false} AggregateReadsBack(p: RespVersion, f: Frame, s: bytes, topLevel: bool, depth: nat, left: nat)
    requires IsAggregate(f) && !(p.Resp2? && f.Attribute?)
    requires Typed(f) && Fits(Image(p, f), depth, left) && |Encode(p, f)| <= MAX_FRAME_BYTES
    ensures ReadAs(Encode(p, f), s, topLevel, depth, left, Image(p, f))
    decreases Nodes(f), 0
  {
    hide FrameScan;
    hide ParsePrefix;
    hide ElementsScan;
    hide ParseElements;
    hide AggregateHeader;
    hide ParseShape;
    hide Build;
    hide LengthHeader;
    hide Encode;
    hide EncodeSeq;
    hide Image;
    hide ImageSeq;
    hide Kids;
    hide Typed;
    hide Numeric;
    hide Height;
    NodesOfKids(f);
    NodesOfKids(Image(p, f));
    ImageIsBuilt(p, f);
    FitsInside(Image(p, f), depth, left);
    TypedKids(f);
    EncodedAggregate(p, f);
    var header, rest := LengthHeader(WireTag(p, f), WireLen(p, f)), EncodeSeq(p, Kids(f));
    Assoc(header, rest, s);
    AggregateHeaderReadsBack(p, f, rest + s, depth);
    UnfoldScan(Encode(p, f) + s, topLevel, depth, left);
    UnfoldParse(Encode(p, f) + s, depth);
    ElementsReadBack(p, Kids(f), header, s, depth + 1, left - 1);
  }

  lemma TypedKids(f: Frame)
    requires Typed(f)
    ensures TypedSeq(Kids(f))
  {
  }

  lemma EncodedAggregate(p: RespVersion, f: Frame)
    requires IsAggregate(f) && !(p.Resp2? && f.Attribute?)
    ensures Encode(p, f) == LengthHeader(WireTag(p, f), WireLen(p, f)) + EncodeSeq(p, Kids(f))
    ensures LengthHeader(WireTag(p, f), WireLen(p, f)) != []
  {
  }

  lemma TypedInner(f: Frame)
    requires f.Attribute? && Typed(f)
    ensures Typed(f.inner) && Nodes(f.inner) < Nodes(f)
  {
    NodesOfKids(f);
    NodesSeqSplit(Flatten(f.attributes), [f.inner]);
    TypedLast(Flatten(f.attributes), f.inner);
  }

  lemma {:induction false} TypedLast(xs: seq<Frame>, x: Frame)
    requires TypedSeq(xs + [x])
    ensures Typed(x)
    decreases |xs|
  {
    if xs != [] {
      assert (xs + [x])[1..] == xs[1..] + [x];
      TypedLast(xs[1..], x);
    }
  }

  lemma LeafHasNoAggregateByte(p: RespVersion, f: Frame, s: bytes)
    requires !IsAggregate(f)
    ensures LeafBytes(p, f) != [] && !IsAggregatePrefix((LeafBytes(p, f) + s)[0])
  {
  }

  lemma {:induction false} ElementsReadBack(p: RespVersion, frames: seq<Frame>, before: bytes, s: bytes,
                                            depth: nat, left: nat)
    requires before != [] && TypedSeq(frames) && FitsSeq(ImageSeq(p, frames), depth, left)
    requires |before + EncodeSeq(p, frames)| <= MAX_FRAME_BYTES
    ensures var b := before + (EncodeSeq(p, frames) + s);
            var end := |before| + |EncodeSeq(p, frames)|;
            && NodesSeq(ImageSeq(p, frames)) <= left
            && ElementsScan(b, |before|, |frames|, depth, left) ==
               Scan(Complete(end), left - NodesSeq(ImageSeq(p, frames)))
            && ParseElements(b, |before|, |frames|, depth) == Success(ParsedSeq(ImageSeq(p, frames), end))
    decreases NodesSeq(frames), 2
  {
    hide FrameScan;
    hide ParsePrefix;
    hide Encode;
    hide Image;
    hide Numeric;
    hide Height;
    hide ElementsScan;
    hide ParseElements;
    if frames == [] {
      ReadNoMore(before + s, |before|, depth, left);
      assert [] + s == s;
    } else {
      var head, tail := Encode(p, frames[0]), EncodeSeq(p, frames[1..]);
      var gs := ImageSeq(p, frames);
      var rest := tail + s;
      var b := before + (EncodeSeq(p, frames) + s);
      FitsHead(gs, depth, left);
      assert gs[1..] == ImageSeq(p, frames[1..]);
      Assoc(head, tail, s);
      Assoc(before, head, rest);
      assert b == before + (head + rest);
      assert b[|before|..] == head + rest;
      FrameReadsBack(p, frames[0], rest, false, depth, left);
      assert b == (before + head) + rest;
      assert |before| < |b|;
      ElementsReadBack(p, frames[1..], before + head, s, depth, left - Nodes(gs[0]));
      ReadOneMore(b, |before|, |frames|, depth, left, gs[0], |head|);
    }
  }

  lemma ReadNoMore(b: bytes, pos: nat, depth: nat, left: nat)
    requires 0 < pos <= |b|
    ensures ElementsScan(b, pos, 0, depth, left) == Scan(Complete(pos), left)
    ensures ParseElements(b, pos, 0, depth) == Success(ParsedSeq([], pos))
  {
  }

  lemma ReadOneMore(b: bytes, pos: nat, count: nat, depth: nat, left: nat, g: Frame, used: nat)
    requires 0 < pos < |b| && count > 0 && Nodes(g) <= left && pos + used <= |b| && pos + used <= MAX_FRAME_BYTES
    requires FrameScan(b[pos..], false, depth, left) == Scan(Complete(used), left - Nodes(g))
    requires ParsePrefix(b[pos..], depth) == Success(Parsed(g, used))
    ensures ElementsScan(b, pos, count, depth, left) == ElementsScan(b, pos + used, count - 1, depth, left - Nodes(g))
    ensures ParseElements(b, pos + used, count - 1, depth).Success? ==>
              ParseElements(b, pos, count, depth) ==
              Success(ParsedSeq([g] + ParseElements(b, pos + used, count - 1, depth).value.frames,
                                ParseElements(b, pos + used, count - 1, depth).value.consumed))
  {
    hide FrameScan;
    hide ParsePrefix;
  }

  /** The limits under which a frame survives the wire. */
  ghost predicate Transmissible(p: RespVersion, f: Frame) {
    && Numeric(Image(p, f))
    && Nodes(Image(p, f)) <= MAX_FRAME_NODES
    && Height(Image(p, f)) <= MAX_ARRAY_NESTING_DEPTH
    && |Encode(p, f)| <= MAX_FRAME_BYTES
  }

  lemma {:induction false} EncodingHasTypeByte(p: RespVersion, f: Frame)
    ensures Agreement.HasTypeByte(Encode(p, f))
    decreases Nodes(f)
  {
    NodesOfKids(f);
    if p.Resp2? && f.Attribute? {
      NodesSeqSplit(Flatten(f.attributes), [f.inner]);
      EncodingHasTypeByte(p, f.inner);
    }
  }

  /** Printing then parsing gives the image of the frame exactly when the limits hold. */
  lemma PrintParse(p: RespVersion, f: Frame)
    requires Typed(f)
    ensures ParseFromBytes(Encode(p, f)) == Success(Image(p, f)) <==> Transmissible(p, f)
  {
    hide FrameScan;
    hide ParsePrefix;
    hide Encode;
    hide Image;
    var e := Encode(p, f);
    EncodingHasTypeByte(p, f);
    if Transmissible(p, f) {
      FrameReadsBack(p, f, [], true, 0, MAX_FRAME_NODES);
      assert e + [] == e;
    }
    if ParseFromBytes(e) == Success(Image(p, f)) {
      Agreement.MeasuredFrameParses(e);
      assert e[..FrameBoundary(e).end] == e;
    }
  }

  // What the older protocol can carry, and printing again what was read.

  predicate Resp2Node(f: Frame) {
    f.SimpleString? || f.Error? || f.Integer? || f.Null? || f.BulkString? || f.Array?
  }

  predicate Resp2Only(f: Frame)
    decreases Nodes(f), 0
  {
    NodesOfKids(f);
    Resp2Node(f) && Resp2OnlySeq(Kids(f))
  }

  predicate Resp2OnlySeq(frames: seq<Frame>)
    decreases NodesSeq(frames), 1
  {
    frames == [] || (Resp2Only(frames[0]) && Resp2OnlySeq(frames[1..]))
  }

  /** The downgrade leaves only types of the older protocol. */
  lemma {:induction false} DowngradeIsResp2(f: Frame)
    ensures Resp2Only(Image(Resp2, f))
    decreases Nodes(f), 0
  {
    NodesOfKids(f);
    if f.Attribute? {
      NodesSeqSplit(Flatten(f.attributes), [f.inner]);
      DowngradeIsResp2(f.inner);
    } else {
      DowngradeSeqIsResp2(Kids(f));
    }
  }

  lemma {:induction false} DowngradeSeqIsResp2(frames: seq<Frame>)
    ensures Resp2OnlySeq(ImageSeq(Resp2, frames))
    decreases NodesSeq(frames), 1
  {
    hide Image;
    if frames != [] {
      DowngradeIsResp2(frames[0]);
      DowngradeSeqIsResp2(frames[1..]);
      assert ImageSeq(Resp2, frames)[1..] == ImageSeq(Resp2, frames[1..]);
    }
  }

  lemma LeafReprint(p: RespVersion, f: Frame)
    requires !IsAggregate(f)
    ensures !IsAggregate(Image(p, f)) && LeafBytes(p, Image(p, f)) == LeafBytes(p, f)
  {
    hide Blob;
    hide Line;
    hide Decimal.ShowInt;
    hide Utf8.Lossy;
  }

  /** Printing what the reader saw gives the same bytes again. */
  lemma {:induction false} ReprintIsStable(p: RespVersion, f: Frame)
    ensures Encode(p, Image(p, f)) == Encode(p, f)
    decreases Nodes(f), 0
  {
    hide EncodeSeq;
    hide ImageSeq;
    hide LeafBytes;
    hide LengthHeader;
    hide Flatten;
    NodesOfKids(f);
    if p.Resp2? && f.Attribute? {
      NodesSeqSplit(Flatten(f.attributes), [f.inner]);
      ReprintIsStable(p, f.inner);
    } else if IsAggregate(f) {
      ImageIsBuilt(p, f);
      ReprintSeqIsStable(p, Kids(f));
      assert Kids(Image(p, f)) == ImageSeq(p, Kids(f));
    } else {
      LeafReprint(p, f);
    }
  }

  lemma {:induction false} ReprintSeqIsStable(p: RespVersion, frames: seq<Frame>)
    ensures EncodeSeq(p, ImageSeq(p, frames)) == EncodeSeq(p, frames)
    decreases NodesSeq(frames), 1
  {
    hide Image;
    hide Encode;
    if frames != [] {
      ReprintIsStable(p, frames[0]);
      ReprintSeqIsStable(p, frames[1..]);
      assert ImageSeq(p, frames)[1..] == ImageSeq(p, frames[1..]);
    }
  }
}
