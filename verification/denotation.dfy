/** Scanner and parser together accept exactly the wire grammar, and read what it says. */
module Denotation {
  import opened Bytes
  import opened Frames
  import opened Scanner
  import opened Parser
  import opened Grammar
  import opened Numerals
  import Agreement
  import Streaming
  import Inline
  import Words
  import Decimal
  import Utf8

  // Whatever the grammar writes is read.

  lemma SpelledIsOneLine(text: bytes)
    requires Integral(text)
    ensures OneLine(text) && Decimal.BigNumberText(text)
  {
    var digits := if text[0] == 43 || text[0] == 45 then text[1..] else text;
    forall i | 0 <= i < |text|
      ensures text[i] != 13 && text[i] != 10 && text[i] < 128
    {
      if digits != text && i > 0 {
        assert text[i] == digits[i - 1];
      }
    }
    Utf8.AsciiIsValid(text);
  }

  lemma SpelledIsIntegral(text: bytes, v: int)
    requires Spells(text, v)
    ensures Integral(text)
  {
  }

  lemma LineTextIsGood(x: byte, text: bytes, f: Frame)
    requires LineMeans(x, text, f)
    ensures IsLinePrefix(x) && Unbroken(text) && LineFault(x, text).None?
  {
    hide Utf8.Valid;
    hide Decimal.FloatText;
    hide Decimal.ParseI64;
    hide Spells;
    hide Floats;
    match f {
      case Integer(v) =>
        SpelledIsIntegral(text, v);
        SpelledIsOneLine(text);
        IntegerIsRead(text, v);
      case BigNumber(_) => SpelledIsOneLine(text);
      case Double(_) => FloatIffSpelled(text);
      case _ =>
    }
  }

  lemma FoundAt(b: bytes, i: nat)
    requires 0 < i && LineEndsAt(b, i) && b[0] != 13 && Unbroken(b[1..i])
    ensures FindCrlf(b, 0) == Some(i)
  {
    forall j | 0 <= j < i
      ensures !CrlfAt(b, j)
    {
      if j > 0 {
        assert b[j] == b[1..i][j - 1];
      }
    }
    FindCrlfIs(b, 0, i);
  }

  lemma LineRead(w: bytes, f: Frame, s: bytes)
    requires WireLine(w, f) && |w| <= MAX_FRAME_BYTES
    ensures IsLinePrefix(w[0]) && (w + s)[0] == w[0]
    ensures LineScan(w + s) == Complete(|w|) && ParseLine(w + s) == Success(Parsed(f, |w|))
  {
    hide Utf8.Valid;
    hide Decimal.FloatText;
    hide Decimal.BigNumberText;
    hide Decimal.ParseI64;
    hide Spells;
    hide Floats;
    var b, i := w + s, |w| - 2;
    var text := w[1..i];
    LineTextIsGood(w[0], text, f);
    assert b[1..i] == text && b[0] == w[0];
    FoundAt(b, i);
    FloatIffSpelled(text);
    if f.Integer? {
      IntegerIsRead(text, f.value);
    }
  }

  lemma HeaderRead(b: bytes, start: nat)
    requires 3 < start <= 20 && start <= |b| && LineEndsAt(b, start - 2) && b[0] != 13 && OneLine(b[1..start - 2])
    ensures PrefixedLengthLine(b) == HeaderLine(start, b[1..start - 2])
    ensures LengthText(b) == Success((b[1..start - 2], start))
  {
    hide Utf8.Valid;
    FoundAt(b, start - 2);
    var window := b[..Min(|b|, MAX_LENGTH_HEADER_BYTES)];
    forall j | 1 <= j < start - 2
      ensures !CrlfAt(window, j)
    {
      assert !CrlfAt(b, j);
    }
    FindCrlfIs(window, 1, start - 2);
  }

  /** A length that is announced is read. */
  lemma AnnouncementRead(w: bytes, start: nat, n: nat, s: bytes)
    requires Announces(w, start, n) && w[0] != 13 && n <= 0xFFFF_FFFF_FFFF_FFFF
    ensures var b := w + s;
            var text := w[1..start - 2];
            && b[0] == w[0] && PrefixedLengthLine(b) == HeaderLine(start, text)
            && LengthText(b) == Success((text, start)) && Decimal.ParseUsize(text) == Some(n) && text != MINUS_ONE
  {
    hide Utf8.Valid;
    hide PrefixedLengthLine;
    hide LengthText;
    hide Decimal.ParseUsize;
    var b, text := w + s, w[1..start - 2];
    assert b[1..start - 2] == text && b[0] == w[0];
    assert Integral(text);
    SpelledIsOneLine(text);
    HeaderRead(b, start);
    LengthIsRead(text, n);
  }

  lemma PayloadMeasured(w: bytes, f: Frame, start: nat, s: bytes)
    requires WirePayload(w, f, start) && |w| <= MAX_FRAME_BYTES
    ensures PayloadKindOf(w[0]).Some? && (w + s)[0] == w[0]
    ensures PayloadScan(w + s, PayloadKindOf(w[0]).value) == Complete(|w|)
    ensures (w + s)[start..|w| - 2] == w[start..|w| - 2] && CrlfAt(w + s, |w| - 2)
  {
    hide Announces;
    hide PrefixedLengthLine;
    hide LengthText;
    hide Decimal.ParseUsize;
    AnnouncementRead(w, start, |w| - start - 2, s);
  }

  lemma BulkRead(w: bytes, f: Frame, start: nat, s: bytes)
    requires WirePayload(w, f, start) && |w| <= MAX_FRAME_BYTES && f.BulkString?
    ensures (w + s)[0] == w[0] && ParseBulk(w + s) == Success(Parsed(f, |w|))
  {
    hide Announces;
    hide PrefixedLengthLine;
    hide PayloadScan;
    hide LengthText;
    hide Decimal.ParseUsize;
    PayloadMeasured(w, f, start, s);
    PayloadMeasured(w, f, start, []);
    assert (w + s)[..|w|] == w == w + [];
    AnnouncementRead(w, start, |w| - start - 2, []);
  }

  lemma BlobRead(w: bytes, f: Frame, start: nat, s: bytes)
    requires WirePayload(w, f, start) && |w| <= MAX_FRAME_BYTES && (f.BlobError? || f.VerbatimString?)
    ensures (w + s)[0] == w[0] && ParseBlob(w + s, f.VerbatimString?) == Success(Parsed(f, |w|))
  {
    hide Announces;
    hide PrefixedLengthLine;
    hide PayloadScan;
    hide LengthText;
    hide Decimal.ParseUsize;
    var data := w[start..|w| - 2];
    PayloadMeasured(w, f, start, s);
    AnnouncementRead(w, start, |data|, s);
    if f.VerbatimString? {
      assert data[..3] == f.format && data[3] == 58 && data[4..] == f.data;
    }
  }

  lemma NullsRead(w: bytes, s: bytes, depth: nat)
    requires w == [36, 45, 49, 13, 10] || (w == [42, 45, 49, 13, 10] && depth < MAX_ARRAY_NESTING_DEPTH)
    ensures (w + s)[0] == w[0]
    ensures w[0] == 36 ==>
              PayloadScan(w + s, BulkPayload) == Complete(5) && ParseBulk(w + s) == Success(Parsed(Null, 5))
    ensures w[0] == 42 ==>
              && AggregateHeader(w + s, depth) == Stop(Complete(5))
              && ParseShape(w + s, depth) == Success(NullArray(5))
  {
    hide Utf8.Valid;
    hide PrefixedLengthLine;
    hide LengthText;
    var b := w + s;
    MinusOneRead(w, s);
    MinusOneRead(w, []);
    assert b[..5] == w == w + [];
  }

  lemma MinusOneRead(w: bytes, s: bytes)
    requires |w| == 5 && w[0] != 13 && w[1..] == [45, 49, 13, 10]
    ensures PrefixedLengthLine(w + s) == HeaderLine(5, MINUS_ONE) && LengthText(w + s) == Success((MINUS_ONE, 5))
  {
    hide Utf8.Valid;
    var b := w + s;
    assert w[1] == 45 && w[2] == 49 && w[3] == 13 && w[4] == 10;
    assert b[1..3] == MINUS_ONE;
    SpelledIsOneLine(MINUS_ONE);
    HeaderRead(b, 5);
  }

  // Aggregates.

  lemma ElementsAnnounced(f: Frame)
    requires IsAggregate(f)
    ensures IsAggregatePrefix(Tag(f)) && ElementCount(Tag(f), Announced(f)) == |Kids(f)|
    ensures Build(Tag(f), Kids(f)) == Success(f)
  {
    hide PairUp;
    hide Flatten;
    if f.Map? {
      PairUpFlatten(f.entries);
    } else if f.Attribute? {
      AttributeAnnounced(f);
    }
  }

  lemma AttributeAnnounced(f: Frame)
    requires f.Attribute?
    ensures ElementCount(Tag(f), Announced(f)) == |Kids(f)| && Build(Tag(f), Kids(f)) == Success(f)
  {
    hide PairUp;
    hide Flatten;
    PairUpFlatten(f.attributes);
    assert Kids(f)[..|Kids(f)| - 1] == Flatten(f.attributes);
  }

  lemma AggregateRead(w: bytes, f: Frame, start: nat, s: bytes, depth: nat)
    requires IsAggregate(f) && w != [] && w[0] == Tag(f) && Announces(w, start, Announced(f))
    requires depth < MAX_ARRAY_NESTING_DEPTH && |Kids(f)| <= MAX_ARRAY_ELEMENTS
    ensures (w + s)[0] == w[0] && AggregateHeader(w + s, depth) == Elements(start, |Kids(f)|)
    ensures ParseShape(w + s, depth) == Success(Shape(start, |Kids(f)|))
  {
    hide Announces;
    hide PrefixedLengthLine;
    hide LengthText;
    hide Decimal.ParseUsize;
    hide Kids;
    hide Build;
    ElementsAnnounced(f);
    AnnouncementRead(w, start, Announced(f), s);
  }

  /** The bytes `w`, whatever follows them, are measured and parsed as the frame. */
  ghost predicate ReadAs(w: bytes, s: bytes, topLevel: bool, depth: nat, left: nat, f: Frame)
    requires Nodes(f) <= left
  {
    && FrameScan(w + s, topLevel, depth, left) == Scan(Complete(|w|), left - Nodes(f))
    && ParsePrefix(w + s, depth) == Success(Parsed(f, |w|))
  }

  lemma LeafIsRead(w: bytes, f: Frame, s: bytes, topLevel: bool, depth: nat, left: nat)
    requires |w| <= MAX_FRAME_BYTES && 0 < left
    requires WireLine(w, f) || (f.Null? && w == [36, 45, 49, 13, 10]) || exists start: nat :: WirePayload(w, f, start)
    ensures Nodes(f) == 1 && ReadAs(w, s, topLevel, depth, left, f)
  {
    hide FrameScan;
    hide ParsePrefix;
    hide LineScan;
    hide ParseLine;
    hide ParseBulk;
    hide ParseBlob;
    hide PayloadScan;
    hide ParseInline;
    UnfoldScan(w + s, topLevel, depth, left);
    UnfoldParse(w + s, depth);
    if WireLine(w, f) {
      LineRead(w, f, s);
    } else if w == [36, 45, 49, 13, 10] {
      NullsRead(w, s, depth);
    } else {
      var start: nat :| WirePayload(w, f, start);
      PayloadMeasured(w, f, start, s);
      if f.BulkString? {
        BulkRead(w, f, start, s);
      } else {
        BlobRead(w, f, start, s);
      }
    }
  }

  /** What the grammar writes is read as what it means, whatever follows. */
  lemma {:induction false} WireIsRead(w: bytes, f: Frame, s: bytes, topLevel: bool, depth: nat, left: nat)
    requires depth <= MAX_ARRAY_NESTING_DEPTH && Wire(w, f, MAX_ARRAY_NESTING_DEPTH - depth)
    requires |w| <= MAX_FRAME_BYTES && Nodes(f) <= left <= MAX_FRAME_NODES
    ensures ReadAs(w, s, topLevel, depth, left, f)
    decreases |w|, 0, 1
  {
    hide ReadAs;
    hide Nodes;
    hide WireSeq;
    hide WireLine;
    hide WirePayload;
    if WireLine(w, f) || (f.Null? && w == [36, 45, 49, 13, 10]) || exists start: nat :: WirePayload(w, f, start) {
      LeafIsRead(w, f, s, topLevel, depth, left);
    } else if f.Null? {
      NullArrayIsRead(w, s, topLevel, depth, left);
    } else {
      var start: nat :|
        Announces(w, start, Announced(f)) && WireSeq(w[start..], Kids(f), MAX_ARRAY_NESTING_DEPTH - depth - 1);
      AggregateIsRead(w, f, start, s, topLevel, depth, left);
    }
  }

  lemma NullArrayIsRead(w: bytes, s: bytes, topLevel: bool, depth: nat, left: nat)
    requires depth < MAX_ARRAY_NESTING_DEPTH && w == [42, 45, 49, 13, 10] && Nodes(Null) <= left
    ensures ReadAs(w, s, topLevel, depth, left, Null)
  {
    hide FrameScan;
    hide ParsePrefix;
    hide AggregateHeader;
    hide ParseShape;
    NullsRead(w, s, depth);
    UnfoldScan(w + s, topLevel, depth, left);
    UnfoldParse(w + s, depth);
  }

  lemma {:induction false} AggregateIsRead(w: bytes, f: Frame, start: nat, s: bytes, topLevel: bool,
                                           depth: nat, left: nat)
    requires depth < MAX_ARRAY_NESTING_DEPTH && IsAggregate(f) && w != [] && w[0] == Tag(f)
    requires Announces(w, start, Announced(f)) && WireSeq(w[start..], Kids(f), MAX_ARRAY_NESTING_DEPTH - depth - 1)
    requires |w| <= MAX_FRAME_BYTES && Nodes(f) <= left <= MAX_FRAME_NODES
    ensures ReadAs(w, s, topLevel, depth, left, f)
    decreases |w|, 0, 0
  {
    hide FrameScan;
    hide ParsePrefix;
    hide ElementsScan;
    hide ParseElements;
    hide AggregateHeader;
    hide ParseShape;
    hide Build;
    hide Nodes;
    hide WireSeq;
    NodesOfKids(f);
    CountWithinNodes(Kids(f));
    AggregateRead(w, f, start, s, depth);
    UnfoldScan(w + s, topLevel, depth, left);
    UnfoldParse(w + s, depth);
    WireSeqIsRead(w[..start], w[start..], Kids(f), s, depth + 1, left - 1);
    assert w[..start] + (w[start..] + s) == w + s;
    ElementsAnnounced(f);
  }

  lemma {:induction false} WireSeqIsRead(before: bytes, w: bytes, frames: seq<Frame>, s: bytes, depth: nat, left: nat)
    requires depth <= MAX_ARRAY_NESTING_DEPTH && WireSeq(w, frames, MAX_ARRAY_NESTING_DEPTH - depth)
    requires before != [] && |before| + |w| <= MAX_FRAME_BYTES && NodesSeq(frames) <= left <= MAX_FRAME_NODES
    ensures ElementsScan(before + (w + s), |before|, |frames|, depth, left)
         == Scan(Complete(|before| + |w|), left - NodesSeq(frames))
    ensures ParseElements(before + (w + s), |before|, |frames|, depth)
         == Success(ParsedSeq(frames, |before| + |w|))
    decreases |w|, 1, |frames|
  {
    hide FrameScan;
    hide ParsePrefix;
    hide ElementsScan;
    hide ParseElements;
    hide Wire;
    hide Nodes;
    if frames == [] {
      NoMore(before + (w + s), |before|, depth, left);
    } else {
      var k :| 0 < k <= |w| && Wire(w[..k], frames[0], MAX_ARRAY_NESTING_DEPTH - depth)
               && WireSeq(w[k..], frames[1..], MAX_ARRAY_NESTING_DEPTH - depth);
      var b, first, rest := before + (w + s), w[..k], w[k..];
      assert b[|before|..] == first + (rest + s);
      assert (before + first) + (rest + s) == b;
      WireIsRead(first, frames[0], rest + s, false, depth, left);
      WireSeqIsRead(before + first, rest, frames[1..], s, depth, left - Nodes(frames[0]));
      OneMore(b, |before|, |frames|, depth, left, frames[0], k, left - Nodes(frames[0]));
      assert frames == [frames[0]] + frames[1..];
    }
  }

  lemma NoMore(b: bytes, pos: nat, depth: nat, left: nat)
    requires 0 < pos <= |b|
    ensures ElementsScan(b, pos, 0, depth, left) == Scan(Complete(pos), left)
    ensures ParseElements(b, pos, 0, depth) == Success(ParsedSeq([], pos))
  {
  }

  /** One element read, then the others. */
  lemma OneMore(b: bytes, pos: nat, count: nat, depth: nat, left: nat, f: Frame, k: nat, left': nat)
    requires 0 < pos < |b| && count > 0 && k <= |b| - pos && pos + k <= MAX_FRAME_BYTES
    requires FrameScan(b[pos..], false, depth, left) == Scan(Complete(k), left')
    requires ParsePrefix(b[pos..], depth) == Success(Parsed(f, k))
    ensures ElementsScan(b, pos, count, depth, left) == ElementsScan(b, pos + k, count - 1, depth, left')
    ensures ParseElements(b, pos, count, depth) == Prepend([f], ParseElements(b, pos + k, count - 1, depth))
  {
    hide FrameScan;
    hide ParsePrefix;
  }

  // Whatever is read was written so.

  lemma LineWasWire(b: bytes)
    requires b != [] && IsLinePrefix(b[0]) && LineScan(b).Complete?
    ensures ParseLine(b).Success? && ParseLine(b).value.consumed == LineScan(b).end <= |b|
    ensures WireLine(b[..LineScan(b).end], ParseLine(b).value.frame)
  {
    hide Utf8.Valid;
    hide Decimal.FloatText;
    hide Decimal.ParseI64;
    hide Spells;
    hide Floats;
    Agreement.LineAgrees(b);
    var i := FindCrlf(b, 0).value;
    var w, text := b[..i + 2], b[1..i];
    FloatIffSpelled(text);
    assert w[1..|w| - 2] == text;
    if b[0] == 58 {
      IntegerIsRead(text, Decimal.ParseI64(text).value);
    }
    if b[0] == 40 {
      var digits := Decimal.DropSign(text);
    }
  }

  /** A length header that was read announces its length. */
  lemma HeaderWasWire(b: bytes, n: nat)
    requires b != [] && PrefixedLengthLine(b).HeaderLine?
    requires Decimal.ParseUsize(PrefixedLengthLine(b).line) == Some(n)
    ensures Announces(b, PrefixedLengthLine(b).end, n) && n <= 0xFFFF_FFFF_FFFF_FFFF
  {
    hide Utf8.Valid;
    hide Decimal.ParseUsize;
    LengthIsRead(PrefixedLengthLine(b).line, n);
  }

  lemma AnnouncedInPrefix(b: bytes, start: nat, n: nat, end: nat)
    requires Announces(b, start, n) && start <= end <= |b|
    ensures Announces(b[..end], start, n)
  {
    assert b[..end][1..start - 2] == b[1..start - 2];
  }

  lemma MinusOneWasWire(b: bytes)
    requires b != [] && PrefixedLengthLine(b).HeaderLine? && PrefixedLengthLine(b).line == MINUS_ONE
    ensures |b| >= 5 && PrefixedLengthLine(b).end == 5 && b[..5] == [b[0], 45, 49, 13, 10]
  {
    hide Utf8.Valid;
    var line := PrefixedLengthLine(b).line;
    assert line[0] == b[1] && line[1] == b[2];
  }

  /** A payload that was measured lies between its header and the line end. */
  lemma PayloadWasMeasured(b: bytes, kind: PayloadKind) returns (start: nat)
    requires b != [] && b[0] != CR && PayloadScan(b, kind).Complete?
    requires !(kind.BulkPayload? && PrefixedLengthLine(b).line == MINUS_ONE)
    ensures var end := PayloadScan(b, kind).end;
            && start + 2 <= end && Announces(b[..end], start, end - start - 2) && LineEndsAt(b[..end], end - 2)
            && LengthText(b).Success? && LengthText(b).value.1 == start
            && Decimal.ParseUsize(LengthText(b).value.0) == Some(end - start - 2)
  {
    hide PrefixedLengthLine;
    hide LengthText;
    hide Decimal.ParseUsize;
    hide Announces;
    var end, header := PayloadScan(b, kind).end, PrefixedLengthLine(b);
    start := header.end;
    var n := Decimal.ParseUsize(header.line).value;
    HeaderWasWire(b, n);
    AnnouncedInPrefix(b, start, n, end);
    Agreement.HeaderAgrees(b);
  }

  lemma PayloadWasWire(b: bytes)
    requires b != [] && PayloadKindOf(b[0]).Some? && PayloadScan(b, PayloadKindOf(b[0]).value).Complete?
    requires ParseLeaf(b).Success?
    ensures var end, f := PayloadScan(b, PayloadKindOf(b[0]).value).end, ParseLeaf(b).value.frame;
            ParseLeaf(b).value.consumed == end && Wire(b[..end], f, 0)
  {
    hide PrefixedLengthLine;
    hide PayloadScan;
    hide ParseBulk;
    hide ParseBlob;
    hide ParseInline;
    hide ParseLine;
    hide WirePayload;
    var kind := PayloadKindOf(b[0]).value;
    if kind.BulkPayload? {
      BulkWasWire(b);
    } else {
      var start := BlobWasWire(b, kind);
    }
  }

  lemma BulkWasWire(b: bytes)
    requires b != [] && b[0] == 36 && PayloadScan(b, BulkPayload).Complete? && ParseBulk(b).Success?
    ensures var end, f := PayloadScan(b, BulkPayload).end, ParseBulk(b).value.frame;
            && ParseBulk(b).value.consumed == end
            && ((f.Null? && b[..end] == [36, 45, 49, 13, 10]) || exists start: nat :: WirePayload(b[..end], f, start))
  {
    hide PrefixedLengthLine;
    hide LengthText;
    hide Decimal.ParseUsize;
    hide Announces;
    var end := PayloadScan(b, BulkPayload).end;
    Streaming.HeaderCut(b, end);
    Agreement.HeaderAgrees(b[..end]);
    if PrefixedLengthLine(b).line == MINUS_ONE {
      MinusOneWasWire(b);
    } else {
      var start := PayloadWasMeasured(b, BulkPayload);
      Agreement.HeaderAgrees(b);
      assert WirePayload(b[..end], ParseBulk(b).value.frame, start);
    }
  }

  lemma BlobWasWire(b: bytes, kind: PayloadKind) returns (start: nat)
    requires b != [] && PayloadKindOf(b[0]) == Some(kind) && !kind.BulkPayload?
    requires PayloadScan(b, kind).Complete? && ParseBlob(b, kind.VerbatimPayload?).Success?
    ensures var end, r := PayloadScan(b, kind).end, ParseBlob(b, kind.VerbatimPayload?).value;
            r.consumed == end && WirePayload(b[..end], r.frame, start)
  {
    hide PrefixedLengthLine;
    hide LengthText;
    hide Decimal.ParseUsize;
    hide Announces;
    hide PayloadScan;
    start := PayloadWasMeasured(b, kind);
    var end := PayloadScan(b, kind).end;
    var w, data := b[..end], b[start..end - 2];
    assert w[start..|w| - 2] == data;
    if kind.VerbatimPayload? {
      assert data == data[..3] + [58] + data[4..];
    }
  }

  // Aggregates.

  lemma BuiltHas(x: byte, frames: seq<Frame>, n: nat)
    requires IsAggregatePrefix(x) && Build(x, frames).Success? && |frames| == ElementCount(x, n)
    ensures var f := Build(x, frames).value;
            IsAggregate(f) && Tag(f) == x && Announced(f) == n && Kids(f) == frames
  {
    var f := Build(x, frames).value;
    match f {
      case Map(entries) => assert |Flatten(entries)| == 2 * |entries|;
      case Attribute(attributes, _) => assert |Flatten(attributes)| == 2 * |attributes|;
      case _ =>
    }
  }

  lemma HeaderWasRead(b: bytes, depth: nat)
    requires b != [] && AggregateHeader(b, depth).Elements?
    ensures depth < MAX_ARRAY_NESTING_DEPTH && PrefixedLengthLine(b).HeaderLine?
    ensures var h, n := AggregateHeader(b, depth), Decimal.ParseUsize(PrefixedLengthLine(b).line);
            && n.Some? && h == Elements(PrefixedLengthLine(b).end, ElementCount(b[0], n.value))
            && Announces(b, h.start, n.value)
  {
    hide PrefixedLengthLine;
    hide Decimal.ParseUsize;
    hide Announces;
    HeaderWasWire(b, Decimal.ParseUsize(PrefixedLengthLine(b).line).value);
  }

  /** What scanner and parser accept is in the grammar, as the frame that was parsed. */
  lemma {:induction false} ReadWasWire(b: bytes, topLevel: bool, depth: nat, left: nat)
    requires depth <= MAX_ARRAY_NESTING_DEPTH && Agreement.HasTypeByte(b)
    requires FrameScan(b, topLevel, depth, left).verdict.Complete? && ParsePrefix(b, depth).Success?
    ensures var r := ParsePrefix(b, depth).value;
            && FrameScan(b, topLevel, depth, left).verdict == Complete(r.consumed) && r.consumed <= |b|
            && Wire(b[..r.consumed], r.frame, MAX_ARRAY_NESTING_DEPTH - depth)
    decreases |b|, 2, 0
  {
    hide FrameScan;
    hide ParsePrefix;
    hide ElementsScan;
    hide ParseElements;
    hide AggregateHeader;
    hide ParseShape;
    hide LeafScan;
    hide ParseLeaf;
    hide Build;
    hide Wire;
    Agreement.ParserAgrees(b, topLevel, depth, left);
    FinalScan(b, topLevel, depth, left);
    UnfoldScan(b, topLevel, depth, left);
    UnfoldParse(b, depth);
    if !IsAggregatePrefix(b[0]) {
      LeafWasWire(b, topLevel, MAX_ARRAY_NESTING_DEPTH - depth);
    } else {
      Agreement.ShapeAgrees(b, depth);
      if AggregateHeader(b, depth).Stop? {
        NullArrayWasWire(b, depth);
      } else {
        AggregateWasWire(b, depth, left - 1);
      }
    }
  }

  lemma LeafWasWire(b: bytes, topLevel: bool, room: nat)
    requires Agreement.HasTypeByte(b) && !IsAggregatePrefix(b[0]) && LeafScan(b, topLevel).Complete?
    requires ParseLeaf(b).Success? && ParseLeaf(b).value.consumed == LeafScan(b, topLevel).end
    ensures Wire(b[..ParseLeaf(b).value.consumed], ParseLeaf(b).value.frame, room)
  {
    hide LineScan;
    hide PayloadScan;
    hide ParseLine;
    hide ParseBulk;
    hide ParseBlob;
    hide WireLine;
    hide WirePayload;
    if IsLinePrefix(b[0]) {
      LineWasWire(b);
    } else {
      PayloadWasWire(b);
      MoreRoom(b[..ParseLeaf(b).value.consumed], ParseLeaf(b).value.frame, room);
    }
  }

  lemma MoreRoom(w: bytes, f: Frame, room: nat)
    requires Wire(w, f, 0)
    ensures Wire(w, f, room)
  {
  }

  lemma NullArrayWasWire(b: bytes, depth: nat)
    requires b != [] && IsAggregatePrefix(b[0]) && depth <= MAX_ARRAY_NESTING_DEPTH
    requires AggregateHeader(b, depth).Stop? && AggregateHeader(b, depth).verdict.Complete?
    ensures Wire(b[..AggregateHeader(b, depth).verdict.end], Null, MAX_ARRAY_NESTING_DEPTH - depth)
  {
    hide PrefixedLengthLine;
    hide Decimal.ParseUsize;
    MinusOneWasWire(b);
  }

  lemma {:induction false} AggregateWasWire(b: bytes, depth: nat, left: nat)
    requires b != [] && IsAggregatePrefix(b[0]) && AggregateHeader(b, depth).Elements?
    requires var h := AggregateHeader(b, depth);
             && ElementsScan(b, h.start, h.count, depth + 1, left).verdict.Complete?
             && Assemble(b[0], ParseElements(b, h.start, h.count, depth + 1)).Success?
             && var r := Assemble(b[0], ParseElements(b, h.start, h.count, depth + 1)).value;
                ElementsScan(b, h.start, h.count, depth + 1, left).verdict == Complete(r.consumed)
    ensures depth < MAX_ARRAY_NESTING_DEPTH
    ensures var h := AggregateHeader(b, depth);
            var r := Assemble(b[0], ParseElements(b, h.start, h.count, depth + 1)).value;
            Wire(b[..r.consumed], r.frame, MAX_ARRAY_NESTING_DEPTH - depth)
    decreases |b|, 1, 0
  {
    hide ElementsScan;
    hide ParseElements;
    hide AggregateHeader;
    hide PrefixedLengthLine;
    hide Decimal.ParseUsize;
    hide Build;
    hide WireLine;
    hide WirePayload;
    hide WireSeq;
    var h := AggregateHeader(b, depth);
    HeaderWasRead(b, depth);
    var n := Decimal.ParseUsize(PrefixedLengthLine(b).line).value;
    var elements := ParseElements(b, h.start, h.count, depth + 1).value;
    ElementsWereWire(b, h.start, h.count, depth + 1, left);
    BuiltHas(b[0], elements.frames, n);
    AnnouncedInPrefix(b, h.start, n, elements.consumed);
    assert b[..elements.consumed][h.start..] == b[h.start..elements.consumed];
  }

  lemma {:induction false} ElementsWereWire(b: bytes, pos: nat, count: nat, depth: nat, left: nat)
    requires 0 < pos <= |b| && pos <= MAX_FRAME_BYTES && depth <= MAX_ARRAY_NESTING_DEPTH
    requires ElementsScan(b, pos, count, depth, left).verdict.Complete? && ParseElements(b, pos, count, depth).Success?
    ensures var r := ParseElements(b, pos, count, depth).value;
            && ElementsScan(b, pos, count, depth, left).verdict == Complete(r.consumed) && pos <= r.consumed <= |b|
            && WireSeq(b[pos..r.consumed], r.frames, MAX_ARRAY_NESTING_DEPTH - depth)
    decreases |b|, 0, count
  {
    hide FrameScan;
    hide ParsePrefix;
    hide Wire;
    if count > 0 {
      Agreement.ElementsAgree(b, pos, count, depth, left);
      var element, head := FrameScan(b[pos..], false, depth, left), ParsePrefix(b[pos..], depth).value;
      Agreement.ParserAgrees(b[pos..], false, depth, left);
      ReadWasWire(b[pos..], false, depth, left);
      var r, next := ParseElements(b, pos, count, depth).value, pos + head.consumed;
      ElementsWereWire(b, next, count - 1, depth, element.left);
      var w, k := b[pos..r.consumed], head.consumed;
      assert w[..k] == b[pos..][..k] && w[k..] == b[next..r.consumed];
      assert r.frames[1..] == ParseElements(b, next, count - 1, depth).value.frames;
    }
  }

  // Inline commands.

  ghost predicate WireInline(b: bytes, f: Frame, arguments: seq<bytes>, gaps: seq<bytes>, words: seq<Words.Word>) {
    && LineEndsAt(b, |b| - 2) && Unbroken(b[..|b| - 2])
    && Words.Written(b[..|b| - 2], arguments, gaps, words) && 0 < |arguments| <= 1_000_000
    && f.Array? && |f.items| == |arguments|
    && forall i :: 0 <= i < |arguments| ==> f.items[i] == BulkString(arguments[i])
  }

  lemma BlankLineReadsNothing(line: bytes)
    requires AllBlank(line)
    ensures Inline.ReadArguments(line, 0, []) == Success([])
  {
    var j := Inline.SkipBlanks(line, 0);
    assert j == |line|;
  }

  lemma InlineParsed(b: bytes, f: Frame)
    requires b != [] && |b| <= MAX_FRAME_BYTES
    ensures InlineScan(b) == Complete(|b|) && ParseInline(b) == Success(Parsed(f, |b|))
            <==> LineEndsAt(b, |b| - 2) && Unbroken(b[..|b| - 2])
                 && exists arguments :: arguments != [] && f == Array(BulkStrings(arguments))
                      && Inline.ReadArguments(b[..|b| - 2], 0, []) == Success(arguments)
  {
    hide Inline.ReadArguments;
    if LineEndsAt(b, |b| - 2) && Unbroken(b[..|b| - 2]) {
      var line := b[..|b| - 2];
      assert b == [] + line + CRLF + [];
      FindCrlfAfterLine([], line, []);
      if AllBlank(line) {
        BlankLineReadsNothing(line);
      }
    }
  }

  lemma InlineIffWritten(b: bytes, f: Frame)
    requires b != [] && |b| <= MAX_FRAME_BYTES
    ensures InlineScan(b) == Complete(|b|) && ParseInline(b) == Success(Parsed(f, |b|))
            <==> exists arguments, gaps, words :: WireInline(b, f, arguments, gaps, words)
  {
    hide Inline.ReadArguments;
    hide InlineScan;
    hide ParseInline;
    hide Words.Written;
    InlineParsed(b, f);
    if InlineScan(b) == Complete(|b|) && ParseInline(b) == Success(Parsed(f, |b|)) {
      var line := b[..|b| - 2];
      var arguments :| arguments != [] && f == Array(BulkStrings(arguments))
                       && Inline.ReadArguments(line, 0, []) == Success(arguments);
      Words.ReadIffWritten(line, arguments);
      var gaps, words :| Words.Written(line, arguments, gaps, words);
      assert WireInline(b, f, arguments, gaps, words);
    }
    if exists arguments, gaps, words :: WireInline(b, f, arguments, gaps, words) {
      var arguments, gaps, words :| WireInline(b, f, arguments, gaps, words);
      Words.ReadIffWritten(b[..|b| - 2], arguments);
      assert f.items == BulkStrings(arguments);
    }
  }

  /** The whole protocol: bytes are parsed as a frame if and only if they are at most 64 MiB and either
      the grammar writes them for that frame, in at most a million and one frames nested at most 128
      deep, or they have no type byte and are an inline command of those words. */
  lemma ParsedIffWire(b: bytes, f: Frame)
    ensures ParseFromBytes(b) == Success(f)
            <==> b != [] && |b| <= 0x400_0000
                 && if TypeByte(b[0]) then Wire(b, f, 128) && Nodes(f) <= 1_000_001
                    else exists arguments, gaps, words :: WireInline(b, f, arguments, gaps, words)
  {
    hide FrameScan;
    hide ParsePrefix;
    hide InlineScan;
    hide ParseInline;
    hide Wire;
    hide WireInline;
    hide Nodes;
    if b != [] {
      assert TypeByte(b[0]) <==> Agreement.HasTypeByte(b);
      if TypeByte(b[0]) {
        TypedIffWire(b, f);
      } else {
        UnfoldScan(b, true, 0, MAX_FRAME_NODES);
        UnfoldParse(b, 0);
        if |b| <= MAX_FRAME_BYTES {
          InlineIffWritten(b, f);
        } else {
          InlineIsShort(b);
        }
      }
    }
  }

  lemma InlineIsShort(b: bytes)
    ensures InlineScan(b).Complete? ==> InlineScan(b).end <= MAX_FRAME_BYTES
  {
  }

  lemma TypedIffWire(b: bytes, f: Frame)
    requires Agreement.HasTypeByte(b)
    ensures ParseFromBytes(b) == Success(f)
            <==> |b| <= MAX_FRAME_BYTES && Wire(b, f, MAX_ARRAY_NESTING_DEPTH) && Nodes(f) <= MAX_FRAME_NODES
  {
    hide FrameScan;
    hide ParsePrefix;
    hide Wire;
    if ParseFromBytes(b) == Success(f) {
      Agreement.MeasuredFrameParses(b);
      ReadWasWire(b, true, 0, MAX_FRAME_NODES);
      assert b[..|b|] == b;
    }
    if |b| <= MAX_FRAME_BYTES && Wire(b, f, MAX_ARRAY_NESTING_DEPTH) && Nodes(f) <= MAX_FRAME_NODES {
      WireIsRead(b, f, [], true, 0, MAX_FRAME_NODES);
      assert b + [] == b;
    }
  }

  /** A one-line frame is complete if and only if it is a line of the grammar that fits. */
  lemma LineCompleteIff(b: bytes, end: nat)
    requires b != [] && IsLinePrefix(b[0])
    ensures LineScan(b) == Complete(end)
            <==> end <= |b| && end <= 0x400_0000 && exists f :: WireLine(b[..end], f)
  {
    hide LineScan;
    hide WireLine;
    if LineScan(b) == Complete(end) {
      LineWasWire(b);
      Agreement.LineAgrees(b);
    }
    if end <= |b| && end <= 0x400_0000 && exists f :: WireLine(b[..end], f) {
      var f :| WireLine(b[..end], f);
      assert b[..end] + b[end..] == b;
      LineRead(b[..end], f, b[end..]);
    }
  }
}
