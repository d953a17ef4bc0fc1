/** What the printer puts on the wire, byte by byte, and what a reader is to see of a frame. */
module Printed {
  import opened Bytes
  import opened Frames
  import opened Grammar
  import opened Numerals
  import opened Parser
  import opened Printer
  import Decimal
  import RoundTrip
  import Utf8

  /** A type byte, a text and a line end. */
  predicate LineOf(b: bytes, x: byte, text: bytes) {
    b == [x] + text + [13, 10]
  }

  /** A text with a space for every line break. */
  predicate Flat(line: bytes, text: bytes) {
    && |line| == |text|
    && forall i :: 0 <= i < |text| ==> line[i] == if text[i] == 13 || text[i] == 10 then 32 else text[i]
  }

  ghost predicate FlatLine(b: bytes, x: byte, text: bytes) {
    exists line :: LineOf(b, x, line) && Flat(line, text)
  }

  ghost predicate NumberLine(b: bytes, x: byte, v: int) {
    exists line :: LineOf(b, x, line) && SpellsShortly(line, v)
  }

  /** A length line, the data and a line end. */
  ghost predicate BlobOf(b: bytes, x: byte, data: bytes) {
    exists header :: NumberLine(header, x, |data|) && b == header + data + [13, 10]
  }

  /** The bytes of a frame without children, in either version of the protocol. */
  ghost predicate LeafOf(p: RespVersion, f: Frame, b: bytes)
    requires !IsAggregate(f)
  {
    match f
    case Ok => b == [43, 79, 75, 13, 10]
    case Integer(v) => NumberLine(b, 58, v)
    case SimpleString(text) => FlatLine(b, 43, text)
    case Error(text) => FlatLine(b, 45, text)
    case BulkString(data) => BlobOf(b, 36, data)
    case Null => if p.Resp2? then b == [36, 45, 49, 13, 10] else b == [95, 13, 10]
    case Boolean(flag) => b == if p.Resp2? then [58, if flag then 49 else 48, 13, 10]
                               else [35, if flag then 116 else 102, 13, 10]
    case Double(text) => if p.Resp2? then BlobOf(b, 36, text) else FlatLine(b, 44, text)
    case BigNumber(text) => if p.Resp2? then BlobOf(b, 36, text) else FlatLine(b, 40, text)
    case BlobError(data) => if p.Resp2? then FlatLine(b, 45, Utf8.Lossy(data)) else BlobOf(b, 33, data)
    case VerbatimString(format, data) =>
      if p.Resp2? then BlobOf(b, 36, data) else BlobOf(b, 61, format + [58] + data)
  }

  lemma SanitizedIsFlat(x: byte, text: bytes)
    ensures FlatLine(Line(x, Utf8.Sanitize(text)), x, text)
  {
    var line := Utf8.Sanitize(text);
    assert LineOf(Line(x, line), x, line) && Flat(line, text);
  }

  lemma HeaderIsNumber(x: byte, n: nat)
    ensures NumberLine(LengthHeader(x, n), x, n)
  {
    hide SpellsShortly;
    IntegerIsShown(n);
    assert LineOf(LengthHeader(x, n), x, Decimal.ShowInt(n));
  }

  lemma BlobIsBlob(x: byte, data: bytes)
    ensures BlobOf(Blob(x, data), x, data)
  {
    hide NumberLine;
    HeaderIsNumber(x, |data|);
  }

  lemma OneDigit(flag: bool)
    ensures Decimal.ShowInt(if flag then 1 else 0) == [if flag then 49 else 48]
  {
  }

  /** A frame without children is printed in those bytes. */
  lemma LeafPrinted(p: RespVersion, f: Frame)
    requires !IsAggregate(f)
    ensures LeafOf(p, f, Encode(p, f))
  {
    hide FlatLine;
    hide NumberLine;
    hide BlobOf;
    hide Blob;
    hide Decimal.ShowInt;
    hide Utf8.Sanitize;
    match f {
      case Integer(v) =>
        IntegerIsPrinted(v);
      case SimpleString(text) => SanitizedIsFlat(43, text);
      case Error(text) => SanitizedIsFlat(45, text);
      case BulkString(data) => BlobIsBlob(36, data);
      case Boolean(flag) => OneDigit(flag);
      case Double(text) =>
        SanitizedIsFlat(44, text);
        BlobIsBlob(36, text);
      case BigNumber(text) =>
        SanitizedIsFlat(40, text);
        BlobIsBlob(36, text);
      case BlobError(data) =>
        SanitizedIsFlat(45, Utf8.Lossy(data));
        BlobIsBlob(33, data);
      case VerbatimString(format, data) =>
        BlobIsBlob(36, data);
        BlobIsBlob(61, format + [58] + data);
      case _ =>
    }
  }

  lemma IntegerIsPrinted(v: int)
    ensures NumberLine(Line(58, Decimal.ShowInt(v)), 58, v)
  {
    hide SpellsShortly;
    IntegerIsShown(v);
    assert LineOf(Line(58, Decimal.ShowInt(v)), 58, Decimal.ShowInt(v));
  }

  ghost predicate HeaderOf(p: RespVersion, f: Frame, header: bytes)
    requires IsAggregate(f)
  {
    if p.Resp2? then NumberLine(header, 42, |Kids(f)|) else NumberLine(header, Tag(f), Announced(f))
  }

  /** An aggregate is a length line and its elements; the older protocol has only arrays, writes a map as
      an array of keys and values, and leaves the attributes of a frame out. */
  lemma AggregatePrinted(p: RespVersion, f: Frame)
    requires IsAggregate(f)
    ensures if p.Resp2? && f.Attribute? then Encode(p, f) == Encode(p, f.inner)
            else exists header :: HeaderOf(p, f, header) && Encode(p, f) == header + EncodeSeq(p, Kids(f))
  {
    hide NumberLine;
    hide EncodeSeq;
    if !(p.Resp2? && f.Attribute?) {
      RoundTrip.ImageIsBuilt(p, f);
      var header := LengthHeader(WireTag(p, f), WireLen(p, f));
      HeaderIsNumber(WireTag(p, f), WireLen(p, f));
      assert HeaderOf(p, f, header);
    }
  }

  /** What a reader sees of a frame. In the older protocol a truth value is 1 or 0, numbers and verbatim
      strings are bulk strings, a blob error is an error line, every aggregate an array, and attributes
      are not seen. In either, line breaks in one-line texts are spaces. */
  predicate Sees(p: RespVersion, f: Frame, g: Frame)
    decreases Nodes(f), 0
  {
    NodesOfKids(f);
    match f
    case Ok => g == SimpleString([79, 75])
    case Integer(v) => g == Integer(v)
    case SimpleString(text) => g.SimpleString? && Flat(g.text, text)
    case Error(text) => g.Error? && Flat(g.text, text)
    case BulkString(data) => g == BulkString(data)
    case Null => g == Null
    case Boolean(flag) => g == if p.Resp2? then Integer(if flag then 1 else 0) else f
    case Double(text) => if p.Resp2? then g == BulkString(text) else g.Double? && Flat(g.text, text)
    case BigNumber(text) => if p.Resp2? then g == BulkString(text) else g.BigNumber? && Flat(g.text, text)
    case BlobError(data) => if p.Resp2? then g.Error? && Flat(g.text, Utf8.Lossy(data)) else g == f
    case VerbatimString(_, data) => g == if p.Resp2? then BulkString(data) else f
    case Attribute(attributes, inner) =>
      NodesSeqSplit(Flatten(attributes), [inner]);
      if p.Resp2? then Sees(p, inner, g)
      else g.Attribute? && SeesAll(p, Kids(f), Kids(g))
    case _ =>
      && (if p.Resp2? then g.Array? else IsAggregate(g) && Tag(g) == Tag(f))
      && SeesAll(p, Kids(f), Kids(g))
  }

  predicate SeesAll(p: RespVersion, fs: seq<Frame>, gs: seq<Frame>)
    decreases NodesSeq(fs), 1
  {
    if fs == [] then gs == [] else gs != [] && Sees(p, fs[0], gs[0]) && SeesAll(p, fs[1..], gs[1..])
  }

  lemma FlatIsSanitized(text: bytes)
    ensures Flat(Utf8.Sanitize(text), text)
  {
  }

  lemma {:induction false} ImageIsSeen(p: RespVersion, f: Frame)
    ensures Sees(p, f, Image(p, f))
    decreases Nodes(f), 0
  {
    hide ImageSeq;
    hide SeesAll;
    hide Flat;
    hide Utf8.Sanitize;
    hide Utf8.Lossy;
    NodesOfKids(f);
    match f {
      case SimpleString(text) => FlatIsSanitized(text);
      case Error(text) => FlatIsSanitized(text);
      case Double(text) => FlatIsSanitized(text);
      case BigNumber(text) => FlatIsSanitized(text);
      case BlobError(data) => FlatIsSanitized(Utf8.Lossy(data));
      case Attribute(attributes, inner) =>
        NodesSeqSplit(Flatten(attributes), [inner]);
        if p.Resp2? {
          ImageIsSeen(p, inner);
        } else {
          RoundTrip.ImageIsBuilt(p, f);
          ImagesAreSeen(p, Kids(f));
        }
      case _ =>
    }
    if IsAggregate(f) && !f.Attribute? {
      RoundTrip.ImageIsBuilt(p, f);
      ImagesAreSeen(p, Kids(f));
    }
  }

  lemma {:induction false} ImagesAreSeen(p: RespVersion, frames: seq<Frame>)
    ensures SeesAll(p, frames, ImageSeq(p, frames))
    decreases NodesSeq(frames), 1
  {
    hide Sees;
    hide Image;
    if frames != [] {
      ImageIsSeen(p, frames[0]);
      ImagesAreSeen(p, frames[1..]);
      assert ImageSeq(p, frames)[1..] == ImageSeq(p, frames[1..]);
    }
  }

  /** A printed frame within the limits is parsed as what the reader is to see of it. */
  lemma PrintedIsSeen(p: RespVersion, f: Frame)
    requires Typed(f) && RoundTrip.Transmissible(p, f)
    ensures ParseFromBytes(Encode(p, f)).Success? && Sees(p, f, ParseFromBytes(Encode(p, f)).value)
  {
    hide Sees;
    hide ParseFromBytes;
    hide RoundTrip.Transmissible;
    ImageIsSeen(p, f);
    RoundTrip.PrintParse(p, f);
  }
}
