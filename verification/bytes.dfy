/** Byte strings, the option and result types, and the search for a line terminator. */
module Bytes {
  type byte = x: int | 0 <= x < 256
  type bytes = seq<byte>

  datatype Option<+T> = None | Some(value: T)
  datatype Result<+T, +E> = Success(value: T) | Failure(error: E)

  const CR: byte := 13
  const LF: byte := 10
  const SPACE: byte := 32
  const BANG: byte := 33        // !
  const QUOTE: byte := 34       // "
  const HASH: byte := 35        // #
  const DOLLAR: byte := 36      // $
  const PERCENT: byte := 37     // %
  const APOSTROPHE: byte := 39  // '
  const LPAREN: byte := 40      // (
  const STAR: byte := 42        // *
  const PLUS: byte := 43        // +
  const COMMA: byte := 44       // ,
  const MINUS: byte := 45       // -
  const DOT: byte := 46         // .
  const ZERO: byte := 48        // 0
  const NINE: byte := 57        // 9
  const COLON: byte := 58       // :
  const EQUALS: byte := 61      // =
  const GREATER: byte := 62     // >
  const QUESTION: byte := 63    // ?
  const LBRACKET: byte := 91    // [
  const BACKSLASH: byte := 92   // \
  const RBRACKET: byte := 93    // ]
  const CARET: byte := 94       // ^
  const UNDERSCORE: byte := 95  // _
  const PIPE: byte := 124       // |
  const TILDE: byte := 126      // ~

  const CRLF: bytes := [CR, LF]

  function Min(a: nat, b: nat): nat {
    if a <= b then a else b
  }

  predicate CrlfAt(b: bytes, i: int) {
    0 <= i && i + 1 < |b| && b[i] == CR && b[i + 1] == LF
  }

  /** Position of the first CR LF pair at or after `from`. */
  function FindCrlf(b: bytes, from: nat): (r: Option<nat>)
    requires from <= |b|
    ensures r.Some? ==> from <= r.value && CrlfAt(b, r.value)
    ensures r.Some? ==> forall j :: from <= j < r.value ==> !CrlfAt(b, j)
    ensures r.None? ==> forall j :: from <= j ==> !CrlfAt(b, j)
    decreases |b| - from
  {
    if from + 1 >= |b| then None
    else if CrlfAt(b, from) then Some(from)
    else FindCrlf(b, from + 1)
  }

  /** The first CR LF pair is the only index with these properties. */
  lemma FindCrlfIs(b: bytes, from: nat, i: nat)
    requires from <= i && CrlfAt(b, i)
    requires forall j :: from <= j < i ==> !CrlfAt(b, j)
    ensures FindCrlf(b, from) == Some(i)
  {
  }

  /** Bytes appended after the first terminator do not move it. */
  lemma FindCrlfExtends(b: bytes, s: bytes, from: nat)
    requires from <= |b|
    requires FindCrlf(b, from).Some?
    ensures FindCrlf(b + s, from) == FindCrlf(b, from)
  {
    var i := FindCrlf(b, from).value;
    forall j | from <= j < i ensures !CrlfAt(b + s, j) {
      assert !CrlfAt(b, j);
    }
    FindCrlfIs(b + s, from, i);
  }

  /** Cutting the buffer keeps the first terminator exactly when the cut is behind it. */
  lemma FindCrlfCut(b: bytes, from: nat, k: nat)
    requires from <= k <= |b|
    requires FindCrlf(b, from).Some?
    ensures FindCrlf(b[..k], from) ==
            if FindCrlf(b, from).value + 2 <= k then FindCrlf(b, from) else None
  {
    var i := FindCrlf(b, from).value;
    forall j | from <= j && (j < i || k < i + 2) ensures !CrlfAt(b[..k], j) {
      if j < i { assert !CrlfAt(b, j); }
    }
    if i + 2 <= k {
      FindCrlfIs(b[..k], from, i);
    }
  }

  predicate NoLineBreak(s: bytes) {
    forall i :: 0 <= i < |s| ==> s[i] != CR && s[i] != LF
  }

  /** A line without breaks followed by CR LF is terminated exactly there. */
  lemma FindCrlfAfterLine(prefix: bytes, line: bytes, rest: bytes)
    requires NoLineBreak(line)
    ensures FindCrlf(prefix + line + CRLF + rest, |prefix|) == Some(|prefix| + |line|)
  {
    var b := prefix + line + CRLF + rest;
    var i := |prefix| + |line|;
    forall j | |prefix| <= j < i ensures !CrlfAt(b, j) {
      assert b[j] == line[j - |prefix|];
    }
    assert b[i] == CR && b[i + 1] == LF;
    FindCrlfIs(b, |prefix|, i);
  }

  lemma MoveHead<T>(done: seq<T>, rest: seq<T>)
    requires rest != []
    ensures done + [rest[0]] + rest[1..] == done + rest
  {
  }

  lemma Assoc<T>(a: seq<T>, b: seq<T>, c: seq<T>)
    ensures a + b + c == a + (b + c)
  {
  }
}
