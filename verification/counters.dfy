/** What a stored counter is, byte by byte, and exactly what a merge makes of it. */
module Counters {
  import opened Bytes
  import opened Merge
  import opened Numerals

  /** A machine word, its first byte the most significant, with `soFar` read before it. */
  function Word(b: bytes, soFar: nat): nat {
    if b == [] then soFar else Word(b[1..], 256 * soFar + b[0])
  }

  /** Eight bytes as a signed number: the first bit is the sign. */
  function Delta(b: bytes): int
    requires |b| == 8
  {
    if b[0] < 128 then Word(b, 0) else Word(b, 0) - 0x1_0000_0000_0000_0000
  }

  predicate InRange(v: int) {
    -0x8000_0000_0000_0000 <= v <= 0x7FFF_FFFF_FFFF_FFFF
  }

  predicate IsField(key: bytes) {
    |key| >= 4 && key[0] == 0x80 && key[1] == 0xFF && key[2] == 104 && key[3] == 0
  }

  /** What a key holds: nothing stands for zero; a hash field is the text of a number; a string is eight
      bytes of expiry, eight more, the type byte 1 and the text. */
  predicate Held(key: bytes, existing: Option<bytes>, expireMs: nat, v: int) {
    match existing
    case None => expireMs == 0 && v == 0
    case Some(b) =>
      if IsField(key) then expireMs == 0 && Spells(b, v) && InRange(v)
      else |b| >= 17 && b[16] == 1 && expireMs == Word(b[..8], 0) && Spells(b[17..], v) && InRange(v)
  }

  predicate AllEight(operands: seq<bytes>) {
    forall i :: 0 <= i < |operands| ==> |operands[i]| == 8
  }

  function Sum(operands: seq<bytes>): int
    requires AllEight(operands)
  {
    if operands == [] then 0 else Delta(operands[0]) + Sum(operands[1..])
  }

  // The number functions read that.

  lemma {:induction false} WordOneMore(b: bytes, x: byte, soFar: nat)
    ensures Word(b + [x], soFar) == 256 * Word(b, soFar) + x
    decreases |b|
  {
    if b == [] {
      assert b + [x] == [x] && [x][1..] == [];
    } else {
      assert (b + [x])[1..] == b[1..] + [x];
      WordOneMore(b[1..], x, 256 * soFar + b[0]);
    }
  }

  lemma {:induction false} FromBytesIsWord(b: bytes)
    ensures FromBytes(b) == Word(b, 0)
    decreases |b|
  {
    if b != [] {
      var front, x := b[..|b| - 1], b[|b| - 1];
      FromBytesIsWord(front);
      WordOneMore(front, x, 0);
      assert b == front + [x];
    }
  }

  lemma Scale(h: nat, unit: nat, f: nat, x: byte)
    requires h * unit <= f < (h + 1) * unit
    ensures h * (256 * unit) <= 256 * f + x < (h + 1) * (256 * unit)
  {
    var low, high := h * unit, (h + 1) * unit;
    assert h * (256 * unit) == 256 * low;
    assert (h + 1) * (256 * unit) == 256 * high;
  }

  /** The first byte decides which part of the range a word lies in. */
  lemma {:induction false} FirstByteRules(b: bytes, h: nat)
    requires b != [] && h == b[0]
    ensures h * Pow256(|b| - 1) <= FromBytes(b) < (h + 1) * Pow256(|b| - 1)
    decreases |b|
  {
    if |b| > 1 {
      FirstByteRules(b[..|b| - 1], h);
      Scale(h, Pow256(|b| - 2), FromBytes(b[..|b| - 1]), b[|b| - 1]);
    } else {
      assert b[..0] == [];
    }
  }

  lemma DecodedIsDelta(b: bytes)
    ensures if |b| == 8 then DecodeOperand(b) == Success(Delta(b)) && InRange(Delta(b))
            else DecodeOperand(b) == Failure(BadOperand)
  {
    if |b| == 8 {
      FromBytesIsWord(b);
      FirstByteRules(b, b[0]);
      SevenBytes();
      EightBytes();
    }
  }

  lemma SevenBytes()
    ensures Pow256(7) == 0x100_0000_0000_0000
  {
    assert Pow256(2) == 0x1_0000;
    assert Pow256(4) == 0x1_0000_0000;
    assert Pow256(6) == 0x1_0000_0000_0000;
  }

  lemma PrefixIsField(key: bytes)
    ensures IsHashField(key) <==> IsField(key)
  {
    if |key| >= 4 {
      var prefix := key[..4];
      assert prefix[0] == key[0] && prefix[1] == key[1] && prefix[2] == key[2] && prefix[3] == key[3];
    }
  }

  /** A stored value decodes if and only if it holds a number, and to that number and expiry. */
  lemma DecodedIsHeld(key: bytes, existing: Option<bytes>, expireMs: nat, v: int)
    ensures Decode(key, existing) == Success(Stored(expireMs, v)) <==> Held(key, existing, expireMs, v)
  {
    hide Spells;
    PrefixIsField(key);
    if existing.Some? {
      var b := existing.value;
      IntegerIsRead(b, v);
      if |b| >= 17 {
        IntegerIsRead(b[17..], v);
        FromBytesIsWord(b[..8]);
      }
    }
  }

  // What a merge makes of it.

  /** Every sum on the way stays in range. */
  predicate StaysInRange(v: int, operands: seq<bytes>)
    requires AllEight(operands)
  {
    forall n :: 0 <= n <= |operands| ==> InRange(v + Sum(operands[..n]))
  }

  lemma {:induction false} AppliedIsSum(v: int, operands: seq<bytes>)
    requires InRange(v)
    ensures Apply(v, operands).Success? <==> AllEight(operands) && StaysInRange(v, operands)
    ensures Apply(v, operands).Success? ==> Apply(v, operands).value == v + Sum(operands)
    decreases |operands|
  {
    hide Delta;
    hide DecodeOperand;
    if operands == [] {
      assert forall n :: 0 <= n <= |operands| ==> operands[..n] == [];
    } else {
      DecodedIsDelta(operands[0]);
      if |operands[0]| == 8 {
        var next := v + Delta(operands[0]);
        if InRange(next) {
          AppliedIsSum(next, operands[1..]);
        }
        if AllEight(operands) {
          InRangeStep(v, operands);
        }
      }
    }
  }

  lemma InRangeStep(v: int, operands: seq<bytes>)
    requires operands != [] && AllEight(operands) && InRange(v)
    ensures AllEight(operands[1..])
    ensures StaysInRange(v, operands)
            <==> InRange(v + Delta(operands[0])) && StaysInRange(v + Delta(operands[0]), operands[1..])
  {
    hide Delta;
    hide InRange;
    var d, rest := Delta(operands[0]), operands[1..];
    forall n | 0 < n <= |operands|
      ensures Sum(operands[..n]) == d + Sum(rest[..n - 1])
    {
      assert operands[..n][1..] == rest[..n - 1];
    }
    assert operands[..0] == [] && rest[..0] == [];
    if StaysInRange(v, operands) {
      assert InRange(v + Sum(operands[..1]));
      forall n | 0 <= n <= |rest|
        ensures InRange(v + d + Sum(rest[..n]))
      {
        assert InRange(v + Sum(operands[..n + 1]));
      }
    }
    if StaysInRange(v + d, rest) {
      forall n | 0 <= n <= |operands|
        ensures InRange(v + Sum(operands[..n]))
      {
        if n > 0 {
          assert InRange(v + d + Sum(rest[..n - 1]));
        }
      }
    }
  }

  /** What a merge writes: the text of the number, and in front of it, unless it is a hash field, the
      expiry, eight zero bytes and the type byte. */
  predicate Written(key: bytes, b: bytes, expireMs: nat, v: int) {
    if IsField(key) then SpellsShortly(b, v)
    else
      && |b| >= 17 && Word(b[..8], 0) == expireMs && (forall i :: 8 <= i < 16 ==> b[i] == 0) && b[16] == 1
      && SpellsShortly(b[17..], v)
  }

  lemma {:induction false} ZeroBytes(n: nat)
    ensures forall i :: 0 <= i < n ==> ToBytes(0, n)[i] == 0
  {
    if n > 0 {
      ZeroBytes(n - 1);
    }
  }

  lemma EncodedIsWritten(key: bytes, expireMs: nat, v: int)
    requires expireMs < TWO_64
    ensures Written(key, Encode(key, Stored(expireMs, v)), expireMs, v)
  {
    hide ToBytes;
    hide SpellsShortly;
    PrefixIsField(key);
    IntegerIsShown(v);
    var b := Encoded(v, expireMs);
    EightBytes();
    WordRoundTrip(expireMs, 8);
    FromBytesIsWord(ToBytes(expireMs, 8));
    ZeroBytes(8);
    assert b[..8] == ToBytes(expireMs, 8) && b[8..16] == ToBytes(0, 8);
    assert b[16] == 1 && b[17..] == Decimal.ShowInt(v);
    forall i | 8 <= i < 16
      ensures b[i] == 0
    {
      assert b[i] == b[8..16][i - 8];
    }
  }

  /** A merge succeeds if and only if the key holds a number, every operand has eight bytes, and no sum
      on the way leaves the range; it then writes the final sum with the old expiry. */
  lemma MergeExactly(key: bytes, existing: Option<bytes>, operands: seq<bytes>, expireMs: nat, v: int)
    requires Held(key, existing, expireMs, v)
    ensures var r := FullMerged(key, existing, operands);
            && (r.Success? <==> AllEight(operands) && StaysInRange(v, operands))
            && (r.Success? ==> Written(key, r.value, expireMs, v + Sum(operands)))
  {
    hide Held;
    hide Decode;
    hide Encode;
    hide Apply;
    hide AllEight;
    hide StaysInRange;
    HeldInRange(key, existing, expireMs, v);
    DecodedIsHeld(key, existing, expireMs, v);
    AppliedIsSum(v, operands);
    if Apply(v, operands).Success? {
      EncodedIsWritten(key, expireMs, v + Sum(operands));
    }
  }

  lemma HeldInRange(key: bytes, existing: Option<bytes>, expireMs: nat, v: int)
    requires Held(key, existing, expireMs, v)
    ensures InRange(v) && expireMs < TWO_64
  {
    EightBytes();
    if existing.Some? && !IsField(key) {
      FromBytesIsWord(existing.value[..8]);
    }
  }

  /** Nothing else can be merged. */
  lemma NoMergeWithoutNumber(key: bytes, existing: Option<bytes>, operands: seq<bytes>)
    requires forall expireMs, v :: !Held(key, existing, expireMs, v)
    ensures FullMerged(key, existing, operands).Failure?
  {
    hide Held;
    hide Decode;
    hide Apply;
    if Decode(key, existing).Success? {
      var stored := Decode(key, existing).value;
      DecodedIsHeld(key, existing, stored.expireMs, stored.value);
    }
  }

  /** A missing key counts from zero and gets no expiry. */
  lemma MissingKeyStartsAtZero(key: bytes, operands: seq<bytes>)
    requires FullMerged(key, None, operands).Success?
    ensures AllEight(operands) && Written(key, FullMerged(key, None, operands).value, 0, Sum(operands))
  {
    MergeExactly(key, None, operands, 0, 0);
  }

  /** Two operands merged ahead of time are the eight bytes of their sum. */
  lemma PartialMergeExactly(left: bytes, right: bytes)
    ensures var r := PartialMerge(left, right);
            && (r.Success? <==> |left| == 8 && |right| == 8 && InRange(Delta(left) + Delta(right)))
            && (r.Success? ==> |r.value| == 8 && Delta(r.value) == Delta(left) + Delta(right))
  {
    hide DecodeOperand;
    hide Delta;
    DecodedIsDelta(left);
    DecodedIsDelta(right);
    var r := PartialMerge(left, right);
    if r.Success? {
      PartialMergeValue(left, right);
      DecodedIsDelta(r.value);
    }
  }
}
