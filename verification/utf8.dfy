/** Well-formed UTF-8 (table 3-7 of the Unicode standard) and its lossy repair. */
module Utf8 {
  import opened Bytes

  predicate Continuation(b: bytes, i: nat) {
    i < |b| && 0x80 <= b[i] <= 0xBF
  }

  predicate SecondByteOk(b: bytes) {
    |b| > 1 &&
    (if b[0] == 0xE0 then 0xA0 <= b[1] <= 0xBF
     else if b[0] == 0xED then 0x80 <= b[1] <= 0x9F
     else if b[0] == 0xF0 then 0x90 <= b[1] <= 0xBF
     else if b[0] == 0xF4 then 0x80 <= b[1] <= 0x8F
     else 0x80 <= b[1] <= 0xBF)
  }

  /** Number of bytes the lead byte announces; 0 when it can start no character. */
  function Announced(lead: byte): (n: nat)
    ensures n <= 4
  {
    if lead < 0x80 then 1
    else if 0xC2 <= lead <= 0xDF then 2
    else if 0xE0 <= lead <= 0xEF then 3
    else if 0xF0 <= lead <= 0xF4 then 4
    else 0
  }

  /** Length of the character at the front of `b`, or 0 when it is ill-formed. */
  function CharLen(b: bytes): (n: nat)
    ensures n <= |b|
  {
    if b == [] then 0
    else
      var n := Announced(b[0]);
      if n <= 1 then n
      else if !SecondByteOk(b) then 0
      else if n == 2 then 2
      else if !Continuation(b, 2) then 0
      else if n == 3 then 3
      else if !Continuation(b, 3) then 0
      else 4
  }

  predicate Valid(b: bytes)
    decreases |b|
  {
    b == [] || (CharLen(b) > 0 && Valid(b[CharLen(b)..]))
  }

  predicate Ascii(b: bytes) {
    forall i :: 0 <= i < |b| ==> b[i] < 0x80
  }

  lemma {:induction false} AsciiIsValid(b: bytes)
    requires Ascii(b)
    ensures Valid(b)
    decreases |b|
  {
    if b != [] {
      AsciiIsValid(b[1..]);
    }
  }

  function Blanked(x: byte): byte {
    if x == CR || x == LF then SPACE else x
  }

  /** Line breaks become spaces, as when a text is printed on one protocol line. */
  function Sanitize(s: bytes): (r: bytes)
    ensures |r| == |s| && NoLineBreak(r)
    ensures NoLineBreak(s) ==> r == s
  {
    seq(|s|, i requires 0 <= i < |s| => Blanked(s[i]))
  }

  lemma {:induction false} SanitizeKeepsValid(s: bytes)
    requires Valid(s)
    ensures Valid(Sanitize(s))
    decreases |s|
  {
    if s != [] {
      var n := CharLen(s);
      assert CharLen(Sanitize(s)) == n;
      SanitizeKeepsValid(s[n..]);
      assert Sanitize(s)[n..] == Sanitize(s[n..]);
    }
  }

  const REPLACEMENT: bytes := [0xEF, 0xBF, 0xBD]

  /** Length of the ill-formed part that one replacement character stands for. */
  function BadLen(b: bytes): (n: nat)
    requires b != []
    ensures 1 <= n <= |b|
  {
    if Announced(b[0]) <= 2 || !SecondByteOk(b) then 1
    else if Announced(b[0]) == 4 && Continuation(b, 2) then 3
    else 2
  }

  function Lossy(b: bytes): bytes
    decreases |b|
  {
    if b == [] then []
    else if CharLen(b) > 0 then b[..CharLen(b)] + Lossy(b[CharLen(b)..])
    else REPLACEMENT + Lossy(b[BadLen(b)..])
  }

  lemma {:induction false} LossyIsValid(b: bytes)
    ensures Valid(Lossy(b))
    decreases |b|
  {
    if b != [] {
      var head := if CharLen(b) > 0 then b[..CharLen(b)] else REPLACEMENT;
      var tail := if CharLen(b) > 0 then b[CharLen(b)..] else b[BadLen(b)..];
      LossyIsValid(tail);
      assert CharLen(head + Lossy(tail)) == |head|;
      assert (head + Lossy(tail))[|head|..] == Lossy(tail);
    }
  }

  /** Text that is already well formed is left alone. */
  lemma {:induction false} LossyKeepsValid(b: bytes)
    requires Valid(b)
    ensures Lossy(b) == b
    decreases |b|
  {
    if b != [] {
      LossyKeepsValid(b[CharLen(b)..]);
    }
  }
}
