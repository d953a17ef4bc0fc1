/** The wire grammar: which bytes are one whole frame, and which frame they are.

    Everything is spelled out in bytes; nothing here scans or parses. */
module Grammar {
  import opened Bytes
  import opened Frames
  import opened Numerals
  import Utf8

  predicate LineEndsAt(b: bytes, i: int) {
    0 <= i && i + 2 <= |b| && b[i] == 13 && b[i + 1] == 10
  }

  predicate Unbroken(text: bytes) {
    forall i :: 0 <= i < |text| ==> text[i] != 13 && text[i] != 10
  }

  predicate OneLine(text: bytes) {
    Unbroken(text) && Utf8.Valid(text)
  }

  /** Digits behind a sign or none. */
  predicate Integral(text: bytes) {
    text != [] &&
    if text[0] == 43 || text[0] == 45 then text[1..] != [] && Digits(text[1..]) else Digits(text)
  }

  /** The type byte and the text of a one-line frame. */
  ghost predicate LineMeans(x: byte, text: bytes, f: Frame) {
    match f
    case SimpleString(s) => x == 43 && text == s && OneLine(s)
    case Error(s) => x == 45 && text == s && OneLine(s)
    case Integer(v) => x == 58 && Spells(text, v) && -0x8000_0000_0000_0000 <= v <= 0x7FFF_FFFF_FFFF_FFFF
    case Null => x == 95 && text == []
    case Boolean(flag) => x == 35 && text == [if flag then 116 else 102]
    case Double(s) => x == 44 && text == s && OneLine(s) && Floats(s)
    case BigNumber(s) => x == 40 && text == s && Integral(s)
    case _ => false
  }

  ghost predicate WireLine(b: bytes, f: Frame) {
    |b| >= 3 && LineEndsAt(b, |b| - 2) && LineMeans(b[0], b[1..|b| - 2], f)
  }

  /** The header that ends at `start` announces `n`, in at most 17 digits. */
  predicate Announces(b: bytes, start: nat, n: nat) {
    4 <= start <= 20 && start <= |b| && LineEndsAt(b, start - 2) && SpellsNat(b[1..start - 2], n)
  }

  /** The type byte and the payload of a frame with a length. */
  predicate PayloadMeans(x: byte, data: bytes, f: Frame) {
    match f
    case BulkString(d) => x == 36 && data == d
    case BlobError(d) => x == 33 && data == d
    case VerbatimString(format, d) => x == 61 && |format| == 3 && data == format + [58] + d
    case _ => false
  }

  predicate WirePayload(b: bytes, f: Frame, start: nat) {
    && start + 2 <= |b| && Announces(b, start, |b| - start - 2) && LineEndsAt(b, |b| - 2)
    && PayloadMeans(b[0], b[start..|b| - 2], f)
  }

  function Tag(f: Frame): byte
    requires IsAggregate(f)
  {
    match f
    case Array(_) => 42
    case Set(_) => 126
    case Push(_) => 62
    case Map(_) => 37
    case Attribute(_, _) => 124
  }

  /** What the header of an aggregate announces: elements, or pairs. */
  function Announced(f: Frame): nat
    requires IsAggregate(f)
  {
    match f
    case Array(items) => |items|
    case Set(items) => |items|
    case Push(items) => |items|
    case Map(entries) => |entries|
    case Attribute(attributes, _) => |attributes|
  }

  /** The bytes are the frame, with room for so many aggregates in each other. */
  ghost predicate Wire(b: bytes, f: Frame, room: nat)
    decreases |b|, 0, 0
  {
    || WireLine(b, f)
    || (f.Null? && b == [36, 45, 49, 13, 10])
    || (exists start: nat :: WirePayload(b, f, start))
    || (room > 0 && f.Null? && b == [42, 45, 49, 13, 10])
    || (room > 0 && IsAggregate(f) && b != [] && b[0] == Tag(f)
        && exists start: nat :: Announces(b, start, Announced(f)) && WireSeq(b[start..], Kids(f), room - 1))
  }

  /** The bytes are the frames one after the other. */
  ghost predicate WireSeq(b: bytes, frames: seq<Frame>, room: nat)
    decreases |b|, 1, |frames|
  {
    if frames == [] then b == []
    else exists k :: 0 < k <= |b| && Wire(b[..k], frames[0], room) && WireSeq(b[k..], frames[1..], room)
  }

  /** The elements of an aggregate on the wire: keys and values in turn, the subject of an attribute last. */
  lemma ElementsInOrder(f: Frame)
    requires IsAggregate(f)
    ensures match f
            case Array(items) => Kids(f) == items
            case Set(items) => Kids(f) == items
            case Push(items) => Kids(f) == items
            case Map(entries) =>
              && |Kids(f)| == 2 * |entries|
              && forall i :: 0 <= i < |entries| ==>
                   Kids(f)[2 * i] == entries[i].key && Kids(f)[2 * i + 1] == entries[i].value
            case Attribute(attributes, inner) =>
              && |Kids(f)| == 2 * |attributes| + 1 && Kids(f)[2 * |attributes|] == inner
              && forall i :: 0 <= i < |attributes| ==>
                   Kids(f)[2 * i] == attributes[i].key && Kids(f)[2 * i + 1] == attributes[i].value
  {
    if f.Map? {
      PairsInOrder(f.entries);
    } else if f.Attribute? {
      PairsInOrder(f.attributes);
    }
  }

  lemma {:induction false} PairsInOrder(pairs: seq<Entry>)
    ensures forall i :: 0 <= i < |pairs| ==>
              Flatten(pairs)[2 * i] == pairs[i].key && Flatten(pairs)[2 * i + 1] == pairs[i].value
    decreases |pairs|
  {
    if pairs != [] {
      var rest := Flatten(pairs[1..]);
      PairsInOrder(pairs[1..]);
      assert Flatten(pairs) == [pairs[0].key, pairs[0].value] + rest;
      forall i | 0 <= i < |pairs|
        ensures Flatten(pairs)[2 * i] == pairs[i].key && Flatten(pairs)[2 * i + 1] == pairs[i].value
      {
        if i > 0 {
          assert rest[2 * (i - 1)] == pairs[1..][i - 1].key && rest[2 * (i - 1) + 1] == pairs[1..][i - 1].value;
        }
      }
    }
  }

  predicate TypeByte(x: byte) {
    x in [43, 45, 58, 95, 35, 44, 40, 36, 33, 61, 42, 126, 62, 37, 124]
  }

  lemma WireHasTypeByte(b: bytes, f: Frame, room: nat)
    requires Wire(b, f, room)
    ensures |b| >= 3 && TypeByte(b[0])
  {
  }
}
