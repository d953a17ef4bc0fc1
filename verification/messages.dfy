/** Published messages: how they are written, and what the client that gets one sees. */
module Messages {
  import opened Bytes
  import opened Frames
  import opened Subscriptions
  import Printer
  import RoundTrip
  import Parser

  // The bytes of a published message.

  const MESSAGE: bytes := [109, 101, 115, 115, 97, 103, 101]
  const PMESSAGE: bytes := [112] + MESSAGE
  const SMESSAGE: bytes := [115] + MESSAGE

  /** The chunks handed to the writer, joined: a header line, the leading fields, the shared body. */
  method MessageChunks(fields: seq<bytes>, message: bytes, p: RespVersion) returns (r: bytes)
    ensures r == Printer.Encode(p, MessageFrame(fields, message, p))
  {
    hide Printer.EncodeSeq;
    hide Printer.LengthHeader;
    var prefix := Printer.LengthHeader(if p.Resp2? then STAR else GREATER, |fields| + 1);
    ghost var head := prefix;
    ghost var frames := [];
    NoBulks(p);
    assert head + [] == head;
    for i := 0 to |fields|
      invariant frames == Parser.BulkStrings(fields[..i])
      invariant prefix == head + Printer.EncodeSeq(p, frames)
    {
      assert fields[..i + 1] == fields[..i] + [fields[i]];
      Printer.EncodeSeqSplit(p, frames, [BulkString(fields[i])]);
      OneBulk(p, fields[i]);
      Assoc(head, Printer.EncodeSeq(p, frames), Printer.Blob(DOLLAR, fields[i]));
      prefix := prefix + Printer.Blob(DOLLAR, fields[i]);
      frames := frames + [BulkString(fields[i])];
    }
    assert fields[..|fields|] == fields;
    r := prefix + Printer.LengthHeader(DOLLAR, |message|) + message + CRLF;
    assert r == prefix + Printer.Blob(DOLLAR, message);
    Printer.EncodeSeqSplit(p, frames, [BulkString(message)]);
    OneBulk(p, message);
    Assoc(head, Printer.EncodeSeq(p, frames), Printer.Blob(DOLLAR, message));
  }

  /** A push to newer clients, an array to older ones. */
  function MessageFrame(fields: seq<bytes>, message: bytes, p: RespVersion): Frame {
    var items := Parser.BulkStrings(fields) + [BulkString(message)];
    if p.Resp2? then Array(items) else Push(items)
  }

  lemma NoBulks(p: RespVersion)
    ensures Printer.EncodeSeq(p, []) == []
  {
  }

  lemma OneBulk(p: RespVersion, data: bytes)
    ensures Printer.EncodeSeq(p, [BulkString(data)]) == Printer.Blob(DOLLAR, data)
  {
    assert [BulkString(data)][1..] == [];
    assert Printer.EncodeSeq(p, []) == [];
    assert Printer.Blob(DOLLAR, data) + [] == Printer.Blob(DOLLAR, data);
  }

  lemma {:induction false} BulkFacts(fields: seq<bytes>, p: RespVersion)
    ensures
      var frames := Parser.BulkStrings(fields);
      && NodesSeq(frames) == |fields| && HeightSeq(frames) == 0
      && NumericSeq(frames) && TypedSeq(frames) && Printer.ImageSeq(p, frames) == frames
    decreases |fields|
  {
    if fields != [] {
      assert Parser.BulkStrings(fields)[1..] == Parser.BulkStrings(fields[1..]);
      BulkFacts(fields[1..], p);
    }
  }

  /** A client reads back the very message that was published, exactly when it is within the
      protocol's limits for a frame; the queue's own limit is a little wider. */
  lemma MessageReadsBack(fields: seq<bytes>, message: bytes, p: RespVersion)
    ensures var frame := MessageFrame(fields, message, p);
      Parser.ParseFromBytes(Printer.Encode(p, frame)) == Success(frame)
      <==> |Printer.Encode(p, frame)| <= MAX_FRAME_BYTES && |fields| + 2 <= MAX_FRAME_NODES
  {
    hide Printer.Encode;
    hide NodesSeq;
    hide HeightSeq;
    hide Parser.ParseFromBytes;
    var frame := MessageFrame(fields, message, p);
    assert Kids(frame) == Parser.BulkStrings(fields + [message]);
    BulkFacts(fields + [message], p);
    NodesOfKids(frame);
    assert Printer.Image(p, frame) == frame;
    RoundTrip.PrintParse(p, frame);
  }

  /** One message to one subscriber: directly, or through one of its patterns. */
  datatype Delivery = Delivery(session: nat, subscriber: Subscriber, pattern: Option<bytes>)

  function FieldsOf(d: Delivery, channel: bytes, shard: bool): seq<bytes> {
    match d.pattern
    case None => [if shard then SMESSAGE else MESSAGE, channel]
    case Some(pattern) => [PMESSAGE, pattern, channel]
  }

  ghost function Payload(d: Delivery, channel: bytes, message: bytes, shard: bool): bytes {
    Printer.Encode(d.subscriber.protocol,
                   MessageFrame(FieldsOf(d, channel, shard), message, d.subscriber.protocol))
  }

  /** What a subscriber reads: a push in the newer protocol, an array in the older, of the kind of
      message, the pattern it came through if any, the channel and the message. */
  ghost predicate Reads(payload: bytes, d: Delivery, channel: bytes, message: bytes, shard: bool) {
    |payload| <= MAX_FRAME_BYTES ==>
      var items :=
        if d.pattern.Some? then
          [BulkString([112, 109, 101, 115, 115, 97, 103, 101]),          // pmessage
           BulkString(d.pattern.value), BulkString(channel), BulkString(message)]
        else if shard then
          [BulkString([115, 109, 101, 115, 115, 97, 103, 101]),          // smessage
           BulkString(channel), BulkString(message)]
        else
          [BulkString([109, 101, 115, 115, 97, 103, 101]),               // message
           BulkString(channel), BulkString(message)];
      Parser.ParseFromBytes(payload) == Success(if d.subscriber.protocol.Resp3? then Push(items) else Array(items))
  }

  lemma PayloadReads(d: Delivery, channel: bytes, message: bytes, shard: bool)
    ensures Reads(Payload(d, channel, message, shard), d, channel, message, shard)
  {
    hide Printer.Encode;
    hide Parser.ParseFromBytes;
    var fields := FieldsOf(d, channel, shard);
    MessageReadsBack(fields, message, d.subscriber.protocol);
    var items := Parser.BulkStrings(fields) + [BulkString(message)];
    if d.pattern.Some? {
      assert PMESSAGE == [112, 109, 101, 115, 115, 97, 103, 101];
      assert items == [BulkString(PMESSAGE), BulkString(d.pattern.value), BulkString(channel), BulkString(message)];
    } else if shard {
      assert SMESSAGE == [115, 109, 101, 115, 115, 97, 103, 101];
      assert items == [BulkString(SMESSAGE), BulkString(channel), BulkString(message)];
    } else {
      assert items == [BulkString(MESSAGE), BulkString(channel), BulkString(message)];
    }
  }
}
