/** What a pipeline of frames is, and that parsing a buffer gives exactly the frames it is made of. */
module Pipelines {
  import opened Bytes
  import opened Frames
  import opened Scanner
  import opened Parser
  import opened Batches
  import Streaming

  /** Frames one after the other, with any number of blank lines in front of and behind each. */
  ghost predicate Pipeline(b: bytes, frames: seq<Frame>)
    decreases |b|
  {
    || (b == [] && frames == [])
    || (|b| >= 2 && b[0] == 13 && b[1] == 10 && Pipeline(b[2..], frames))
    || (frames != [] && exists k :: 0 < k <= |b| && ParseFromBytes(b[..k]) == Success(frames[0])
                                    && Pipeline(b[k..], frames[1..]))
  }

  /** A frame that is parsed on its own is what the scanner finds in front of anything. */
  lemma ParsedIsFound(w: bytes, s: bytes)
    requires ParseFromBytes(w).Success?
    ensures FrameBoundary(w + s) == Complete(|w|) && !CrlfAt(w + s, 0)
    ensures ParseWhole(w) == ParseFromBytes(w)
  {
    hide FrameScan;
    hide ParseWhole;
    Streaming.VerdictIsStable(w, s);
    NoFrameIsBlank(w, s);
  }

  lemma NoFrameIsBlank(w: bytes, s: bytes)
    requires w != [] && FrameBoundary(w) == Complete(|w|)
    ensures !CrlfAt(w + s, 0)
  {
    hide FrameScan;
    if CrlfAt(w + s, 0) {
      UnfoldScan(w, true, 0, MAX_FRAME_NODES);
      if |w| >= 2 {
        assert CrlfAt(w, 0) && w[..0] == [];
        FindCrlfIs(w, 0, 0);
      } else {
        assert w == [CR];
        LoneReturnIsIncomplete();
      }
    }
  }

  lemma FoundIsParsed(b: bytes, end: nat)
    requires FrameBoundary(b) == Complete(end)
    ensures ParseFromBytes(b[..end]) == ParseWhole(b[..end])
  {
    hide FrameScan;
    hide ParseWhole;
    assert b[..end][..end] == b[..end];
    Streaming.FrameDependsOnItsBytes(b, b[..end]);
  }

  lemma ParseManyStep(b: bytes, k: nat)
    requires k <= |b| && !CrlfAt(b, 0) && FrameBoundary(b) == Complete(k)
    ensures ParseMany(b) == Then(ParseOne(b[..k]), ParseMany(b[k..]))
  {
    hide FrameBoundary;
    hide ParseOne;
  }

  lemma ParseManySkips(b: bytes)
    requires CrlfAt(b, 0)
    ensures ParseMany(b) == ParseMany(b[2..])
  {
    hide FrameBoundary;
    hide ParseOne;
  }

  lemma ParseManyStops(b: bytes)
    requires !CrlfAt(b, 0) && FrameBoundary(b) == Incomplete
    ensures ParseMany(b) == Success([])
  {
    hide FrameBoundary;
  }

  /** A pipeline and then the beginning of a frame, or nothing, is parsed as the frames of the pipeline. */
  lemma {:induction false} PipelineIsParsed(w: bytes, frames: seq<Frame>, tail: bytes)
    requires Pipeline(w, frames) && !CrlfAt(tail, 0) && FrameBoundary(tail) == Incomplete
    ensures ParseMany(w + tail) == Success(frames)
    decreases |w|
  {
    hide ParseMany;
    hide ParseFromBytes;
    hide FrameBoundary;
    if w == [] {
      NoPipeline(frames);
      assert w + tail == tail;
      ParseManyStops(tail);
    } else if |w| >= 2 && w[0] == 13 && w[1] == 10 && Pipeline(w[2..], frames) {
      assert (w + tail)[2..] == w[2..] + tail;
      ParseManySkips(w + tail);
      PipelineIsParsed(w[2..], frames, tail);
    } else {
      var k :| 0 < k <= |w| && ParseFromBytes(w[..k]) == Success(frames[0]) && Pipeline(w[k..], frames[1..]);
      var first, rest := w[..k], w[k..] + tail;
      assert w + tail == first + rest && (w + tail)[..k] == first && (w + tail)[k..] == rest;
      ParsedIsFound(first, rest);
      ParseManyStep(w + tail, k);
      PipelineIsParsed(w[k..], frames[1..], tail);
      assert frames == [frames[0]] + frames[1..];
    }
  }

  lemma NoPipeline(frames: seq<Frame>)
    ensures Pipeline([], frames) ==> frames == []
  {
    hide ParseFromBytes;
  }

  /** The first `len` bytes are a pipeline of the frames, and no other frame has begun to be complete. */
  ghost predicate Splits(b: bytes, frames: seq<Frame>, len: nat) {
    && len <= |b| && Pipeline(b[..len], frames)
    && !CrlfAt(b[len..], 0) && FrameBoundary(b[len..]) == Incomplete
  }

  lemma {:induction false} ParsedIsPipeline(b: bytes, frames: seq<Frame>) returns (len: nat)
    requires ParseMany(b) == Success(frames)
    ensures Splits(b, frames, len)
    decreases |b|
  {
    hide ParseFromBytes;
    hide FrameBoundary;
    hide ParseWhole;
    assert b[..0] == [] && b[0..] == b;
    if b == [] {
      EmptyIsIncomplete();
      len := 0;
    } else if CrlfAt(b, 0) {
      var n := ParsedIsPipeline(b[2..], frames);
      len := n + 2;
      assert b[..len][2..] == b[2..][..n] && b[len..] == b[2..][n..];
      assert Splits(b, frames, len);
    } else if FrameBoundary(b) == Incomplete {
      len := 0;
    } else {
      var end := FrameBoundary(b).end;
      FoundIsParsed(b, end);
      var n := ParsedIsPipeline(b[end..], frames[1..]);
      len := n + end;
      assert b[..len][end..] == b[end..][..n] && b[..len][..end] == b[..end] && b[len..] == b[end..][n..];
      assert Splits(b, frames, len);
    }
  }

  /** A buffer is parsed into some frames if and only if it is a pipeline of them and then at most the
      beginning of another. */
  lemma ParsedIffPipeline(b: bytes, frames: seq<Frame>)
    ensures ParseMany(b) == Success(frames) <==> exists len: nat :: Splits(b, frames, len)
  {
    hide ParseMany;
    hide Pipeline;
    hide FrameBoundary;
    if ParseMany(b) == Success(frames) {
      var len := ParsedIsPipeline(b, frames);
    }
    if exists len: nat :: Splits(b, frames, len) {
      var len: nat :| Splits(b, frames, len);
      PipelineIsParsed(b[..len], frames, b[len..]);
      assert b[..len] + b[len..] == b;
    }
  }
}
