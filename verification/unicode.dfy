/** Well-formed UTF-8 is the encoding of Unicode scalar values, and the lossy repair is the one the
    Unicode standard recommends. */
module Unicode {
  import opened Bytes
  import opened Utf8

  predicate Scalar(c: nat) {
    c < 0xD800 || 0xE000 <= c < 0x11_0000
  }

  /** Six bits of the value per continuation byte. */
  function Encoding(c: nat): (r: bytes)
    requires Scalar(c)
    ensures r != []
  {
    if c < 0x80 then [c]
    else if c < 0x800 then [0xC0 + c / 0x40, 0x80 + c % 0x40]
    else if c < 0x1_0000 then [0xE0 + c / 0x1000, 0x80 + c / 0x40 % 0x40, 0x80 + c % 0x40]
    else [0xF0 + c / 0x4_0000, 0x80 + c / 0x1000 % 0x40, 0x80 + c / 0x40 % 0x40, 0x80 + c % 0x40]
  }

  function Text(scalars: seq<nat>): bytes
    requires forall i :: 0 <= i < |scalars| ==> Scalar(scalars[i])
  {
    if scalars == [] then [] else Encoding(scalars[0]) + Text(scalars[1..])
  }

  predicate AllScalars(scalars: seq<nat>) {
    forall i :: 0 <= i < |scalars| ==> Scalar(scalars[i])
  }

  lemma EncodingIsOneChar(c: nat, rest: bytes)
    requires Scalar(c)
    ensures CharLen(Encoding(c) + rest) == |Encoding(c)|
  {
    var e := Encoding(c);
    var b := e + rest;
    assert b[0] == e[0];
    assert |e| > 1 ==> b[1] == e[1];
    assert |e| > 2 ==> b[2] == e[2];
    assert |e| > 3 ==> b[3] == e[3];
  }

  /** Six more bits behind a value. */
  function Append(high: nat, low: nat): (c: nat)
    requires low < 0x40
    ensures c / 0x40 == high && c % 0x40 == low
  {
    high * 0x40 + low
  }

  lemma InTwoSteps(c: nat)
    ensures c / 0x1000 == c / 0x40 / 0x40 && c / 0x4_0000 == c / 0x1000 / 0x40
  {
  }

  lemma CharIsEncoding(b: bytes) returns (c: nat)
    requires CharLen(b) > 0
    ensures Scalar(c) && Encoding(c) == b[..CharLen(b)]
  {
    hide Append;
    var n, x: nat := CharLen(b), b[0];
    if n == 1 {
      c := x;
    } else if n == 2 {
      c := TwoBytes(x, b[1]);
    } else if n == 3 {
      c := ThreeBytes(x, b[1], b[2]);
    } else {
      c := FourBytes(x, b[1], b[2], b[3]);
    }
  }

  lemma TwoBytes(x: nat, y: nat) returns (c: nat)
    requires 0xC2 <= x <= 0xDF && 0x80 <= y <= 0xBF
    ensures Scalar(c) && Encoding(c) == [x, y]
  {
    c := Append(x - 0xC0, y - 0x80);
  }

  lemma ThreeBytes(x: nat, y: nat, z: nat) returns (c: nat)
    requires 0xE0 <= x <= 0xEF && 0x80 <= y <= 0xBF && 0x80 <= z <= 0xBF
    requires (x == 0xE0 ==> 0xA0 <= y) && (x == 0xED ==> y <= 0x9F)
    ensures Scalar(c) && Encoding(c) == [x, y, z]
  {
    c := Append(Append(x - 0xE0, y - 0x80), z - 0x80);
    InTwoSteps(c);
  }

  lemma FourBytes(x: nat, y: nat, z: nat, w: nat) returns (c: nat)
    requires 0xF0 <= x <= 0xF4 && 0x80 <= y <= 0xBF && 0x80 <= z <= 0xBF && 0x80 <= w <= 0xBF
    requires (x == 0xF0 ==> 0x90 <= y) && (x == 0xF4 ==> y <= 0x8F)
    ensures Scalar(c) && Encoding(c) == [x, y, z, w]
  {
    c := Append(Append(Append(x - 0xF0, y - 0x80), z - 0x80), w - 0x80);
    InTwoSteps(c);
  }

  lemma {:induction false} TextIsValid(scalars: seq<nat>)
    requires AllScalars(scalars)
    ensures Valid(Text(scalars))
    decreases |scalars|
  {
    hide Encoding;
    hide CharLen;
    if scalars != [] {
      var first, rest := Encoding(scalars[0]), Text(scalars[1..]);
      TextIsValid(scalars[1..]);
      EncodingIsOneChar(scalars[0], rest);
      assert (first + rest)[|first|..] == rest;
    }
  }

  lemma {:induction false} ValidIsText(b: bytes) returns (scalars: seq<nat>)
    requires Valid(b)
    ensures AllScalars(scalars) && Text(scalars) == b
    decreases |b|
  {
    hide Encoding;
    hide CharLen;
    if b == [] {
      scalars := [];
    } else {
      var n := CharLen(b);
      var c := CharIsEncoding(b);
      var rest := ValidIsText(b[n..]);
      scalars := [c] + rest;
      assert scalars[1..] == rest && b == b[..n] + b[n..];
    }
  }

  /** Bytes are well formed if and only if they are the encodings of some scalar values. */
  lemma ValidIffText(b: bytes)
    ensures Valid(b) <==> exists scalars :: AllScalars(scalars) && Text(scalars) == b
  {
    if Valid(b) {
      var scalars := ValidIsText(b);
    }
    if exists scalars :: AllScalars(scalars) && Text(scalars) == b {
      var scalars :| AllScalars(scalars) && Text(scalars) == b;
      TextIsValid(scalars);
    }
  }

  /** The first `n` bytes begin the encoding of some character and do not end it. */
  ghost predicate Begins(b: bytes, n: nat)
    requires n <= |b|
  {
    exists c :: CharLen(c) == |c| && n < |c| && c[..n] == b[..n]
  }

  /** One replacement character stands for the longest part that begins a character, or for one byte. */
  lemma ReplacedPartIsMaximal(b: bytes, n: nat)
    requires b != [] && CharLen(b) == 0 && 1 < n <= |b|
    ensures n <= BadLen(b) <==> Begins(b, n)
  {
    if n <= BadLen(b) {
      var c := b[..n] + if Announced(b[0]) == 3 || n == 3 then [0x80] else [0x80, 0x80];
      assert c[0] == b[0] && c[1] == b[1] && (n == 3 ==> c[2] == b[2]);
      assert CharLen(c) == |c| && c[..n] == b[..n];
    }
    if Begins(b, n) {
      var c :| CharLen(c) == |c| && n < |c| && c[..n] == b[..n];
      assert c[0] == c[..n][0] == b[0] && c[1] == c[..n][1] == b[1];
      assert n > 2 ==> c[2] == c[..n][2] == b[2];
    }
  }
}
