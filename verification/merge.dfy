/** The integer merge operator: counters stored as text, deltas as eight bytes. */
module Merge {
  import opened Bytes
  import Decimal

  const TWO_64: int := 0x1_0000_0000_0000_0000
  const TYPE_STRING: byte := 1
  const HASH_FIELD_PREFIX: bytes := [0x80, 0xFF, 104, 0]

  datatype MergeError = BadOperand | NotAString | NotUtf8OrInteger | Overflow

  // Big-endian machine words.

  function Pow256(n: nat): (p: nat)
    ensures p > 0
  {
    if n == 0 then 1 else 256 * Pow256(n - 1)
  }

  function ToBytes(u: nat, n: nat): (b: bytes)
    ensures |b| == n
    decreases n
  {
    if n == 0 then [] else ToBytes(u / 256, n - 1) + [u % 256]
  }

  function FromBytes(b: bytes): (u: nat)
    ensures u < Pow256(|b|)
    decreases |b|
  {
    if b == [] then 0 else 256 * FromBytes(b[..|b| - 1]) + b[|b| - 1]
  }

  lemma {:induction false} WordRoundTrip(u: nat, n: nat)
    requires u < Pow256(n)
    ensures FromBytes(ToBytes(u, n)) == u
    decreases n
  {
    if n > 0 {
      var b := ToBytes(u, n);
      WordRoundTrip(u / 256, n - 1);
      assert b[..n - 1] == ToBytes(u / 256, n - 1);
    }
  }

  lemma {:induction false} BytesRoundTrip(b: bytes)
    ensures ToBytes(FromBytes(b), |b|) == b
    decreases |b|
  {
    if b != [] {
      BytesRoundTrip(b[..|b| - 1]);
      assert b == b[..|b| - 1] + [b[|b| - 1]];
    }
  }

  lemma EightBytes()
    ensures Pow256(8) == TWO_64
  {
    assert Pow256(2) == 0x1_0000;
    assert Pow256(4) == 0x1_0000_0000;
    assert Pow256(6) == 0x1_0000_0000_0000;
  }

  /** Two's complement. */
  function I64Bytes(v: int): (b: bytes)
    requires Decimal.InI64(v)
    ensures |b| == 8
  {
    ToBytes(if v < 0 then v + TWO_64 else v, 8)
  }

  function DecodeOperand(b: bytes): Result<int, MergeError> {
    if |b| != 8 then Failure(BadOperand)
    else
      var u := FromBytes(b);
      Success(if u <= Decimal.I64_MAX then u else u - TWO_64)
  }

  /** Every i64 survives the eight-byte form, and every eight bytes are some i64. */
  lemma OperandRoundTrip(v: int, b: bytes)
    requires Decimal.InI64(v) && |b| == 8
    ensures DecodeOperand(I64Bytes(v)) == Success(v)
    ensures DecodeOperand(b).Success? && Decimal.InI64(DecodeOperand(b).value)
    ensures I64Bytes(DecodeOperand(b).value) == b
  {
    EightBytes();
    WordRoundTrip(if v < 0 then v + TWO_64 else v, 8);
    BytesRoundTrip(b);
  }

  // Stored values.

  datatype Stored = Stored(expireMs: nat, value: int)

  function ParseText(text: bytes): (r: Result<int, MergeError>)
    ensures r.Success? ==> Decimal.InI64(r.value)
  {
    match Decimal.ParseI64(text)
    case Some(v) => Success(v)
    case None => Failure(NotUtf8OrInteger)
  }

  function DecodeExisting(b: bytes): (r: Result<Stored, MergeError>)
    ensures r.Success? ==> Decimal.InI64(r.value.value)
  {
    if |b| < 17 || b[16] != TYPE_STRING then Failure(NotAString)
    else match ParseText(b[17..])
         case Failure(error) => Failure(error)
         case Success(v) => Success(Stored(FromBytes(b[..8]), v))
  }

  method EncodeString(value: int, expireMs: nat) returns (encoded: bytes)
    requires Decimal.InI64(value) && expireMs < TWO_64
    ensures encoded == Encoded(value, expireMs)
  {
    encoded := ToBytes(expireMs, 8);
    encoded := encoded + ToBytes(0, 8);
    encoded := encoded + [TYPE_STRING];
    encoded := encoded + Decimal.ShowInt(value);
  }

  function Encoded(value: int, expireMs: nat): bytes {
    ToBytes(expireMs, 8) + ToBytes(0, 8) + [TYPE_STRING] + Decimal.ShowInt(value)
  }

  /** Value and expiry survive the stored form. */
  lemma StoredRoundTrip(value: int, expireMs: nat)
    requires Decimal.InI64(value) && expireMs < TWO_64
    ensures DecodeExisting(Encoded(value, expireMs)) == Success(Stored(expireMs, value))
  {
    EightBytes();
    WordRoundTrip(expireMs, 8);
    Decimal.ParseShowInt(value);
    var b := Encoded(value, expireMs);
    assert b[..8] == ToBytes(expireMs, 8);
    assert b[16] == TYPE_STRING;
    assert b[17..] == Decimal.ShowInt(value);
  }

  predicate IsHashField(key: bytes) {
    |key| >= 4 && key[..4] == HASH_FIELD_PREFIX
  }

  /** What a key holds before the operands are applied. */
  function Decode(key: bytes, existing: Option<bytes>): (r: Result<Stored, MergeError>)
    ensures r.Success? ==> Decimal.InI64(r.value.value) && r.value.expireMs < TWO_64
  {
    EightBytes();
    match existing
    case None => Success(Stored(0, 0))
    case Some(b) =>
      if !IsHashField(key) then DecodeExisting(b)
      else match ParseText(b)
           case Failure(error) => Failure(error)
           case Success(v) => Success(Stored(0, v))
  }

  function Encode(key: bytes, s: Stored): bytes {
    if IsHashField(key) then Decimal.ShowInt(s.value) else Encoded(s.value, s.expireMs)
  }

  lemma EncodeDecode(key: bytes, s: Stored)
    requires Decimal.InI64(s.value) && s.expireMs < TWO_64 && (IsHashField(key) ==> s.expireMs == 0)
    ensures Decode(key, Some(Encode(key, s))) == Success(s)
  {
    if IsHashField(key) {
      Decimal.ParseShowInt(s.value);
    } else {
      StoredRoundTrip(s.value, s.expireMs);
    }
  }

  /** The operands applied one after the other. */
  function Apply(value: int, operands: seq<bytes>): (r: Result<int, MergeError>)
    ensures r.Success? && Decimal.InI64(value) ==> Decimal.InI64(r.value)
    decreases |operands|
  {
    if operands == [] then Success(value)
    else match DecodeOperand(operands[0])
         case Failure(error) => Failure(error)
         case Success(delta) =>
           if !Decimal.InI64(value + delta) then Failure(Overflow) else Apply(value + delta, operands[1..])
  }

  function FullMerged(key: bytes, existing: Option<bytes>, operands: seq<bytes>): Result<bytes, MergeError> {
    match Decode(key, existing)
    case Failure(error) => Failure(error)
    case Success(stored) =>
      match Apply(stored.value, operands)
      case Failure(error) => Failure(error)
      case Success(v) => Success(Encode(key, Stored(stored.expireMs, v)))
  }

  method FullMerge(key: bytes, existing: Option<bytes>, operands: seq<bytes>) returns (r: Result<bytes, MergeError>)
    ensures r == FullMerged(key, existing, operands)
  {
    hide DecodeOperand;
    var stored := Decode(key, existing);
    if stored.Failure? {
      return Failure(stored.error);
    }
    var value := stored.value.value;
    assert operands[0..] == operands;
    for i := 0 to |operands|
      invariant Decimal.InI64(value)
      invariant Apply(stored.value.value, operands) == Apply(value, operands[i..])
    {
      var delta := DecodeOperand(operands[i]);
      assert operands[i..][1..] == operands[i + 1..];
      if delta.Failure? {
        return Failure(delta.error);
      }
      if !Decimal.InI64(value + delta.value) {
        return Failure(Overflow);
      }
      value := value + delta.value;
    }
    return Success(Encode(key, Stored(stored.value.expireMs, value)));
  }

  function PartialMerge(left: bytes, right: bytes): (r: Result<bytes, MergeError>) {
    match DecodeOperand(left)
    case Failure(error) => Failure(error)
    case Success(l) =>
      match DecodeOperand(right)
      case Failure(error) => Failure(error)
      case Success(r) => if Decimal.InI64(l + r) then Success(I64Bytes(l + r)) else Failure(Overflow)
  }

  // The laws.

  lemma {:induction false} ApplySplit(value: int, xs: seq<bytes>, ys: seq<bytes>)
    ensures Apply(value, xs + ys) ==
            match Apply(value, xs) case Failure(error) => Failure(error) case Success(v) => Apply(v, ys)
    decreases |xs|
  {
    if xs == [] {
      assert xs + ys == ys;
    } else {
      assert (xs + ys)[1..] == xs[1..] + ys;
      var delta := DecodeOperand(xs[0]);
      if delta.Success? {
        ApplySplit(value + delta.value, xs[1..], ys);
      }
    }
  }

  lemma HashFieldsDoNotExpire(key: bytes, existing: Option<bytes>)
    requires IsHashField(key) && Decode(key, existing).Success?
    ensures Decode(key, existing).value.expireMs == 0
  {
  }

  /** Merging a list of operands in two goes, through the stored form, changes nothing: same value,
      same expiry, same failure. */
  lemma MergeInTwoGoes(key: bytes, existing: Option<bytes>, xs: seq<bytes>, ys: seq<bytes>)
    ensures FullMerged(key, existing, xs + ys) ==
            match FullMerged(key, existing, xs)
            case Failure(error) => Failure(error)
            case Success(mid) => FullMerged(key, Some(mid), ys)
  {
    hide Encode;
    hide Apply;
    var stored := Decode(key, existing);
    if stored.Success? {
      ApplySplit(stored.value.value, xs, ys);
      var mid := Apply(stored.value.value, xs);
      if mid.Success? {
        if IsHashField(key) {
          HashFieldsDoNotExpire(key, existing);
        }
        EncodeDecode(key, Stored(stored.value.expireMs, mid.value));
      }
    }
  }

  /** A merge keeps the expiry, and its value is the old one moved by the operands. */
  lemma MergeKeepsExpiry(key: bytes, existing: Option<bytes>, operands: seq<bytes>)
    requires FullMerged(key, existing, operands).Success?
    ensures var before := Decode(key, existing).value;
            var after := Decode(key, Some(FullMerged(key, existing, operands).value));
            after == Success(Stored(before.expireMs, before.value + Total(operands)))
  {
    hide Encode;
    hide Apply;
    var stored := Decode(key, existing).value;
    var v := Apply(stored.value, operands).value;
    if IsHashField(key) {
      HashFieldsDoNotExpire(key, existing);
    }
    EncodeDecode(key, Stored(stored.expireMs, v));
    ApplyIsTotal(stored.value, operands);
  }

  /** The sum of the deltas; an operand that is none counts as zero. */
  function Total(operands: seq<bytes>): int {
    if operands == [] then 0
    else (match DecodeOperand(operands[0]) case Success(d) => d case Failure(_) => 0) + Total(operands[1..])
  }

  lemma {:induction false} ApplyIsTotal(value: int, operands: seq<bytes>)
    requires Apply(value, operands).Success?
    ensures Apply(value, operands).value == value + Total(operands)
    decreases |operands|
  {
    if operands != [] {
      ApplyIsTotal(value + DecodeOperand(operands[0]).value, operands[1..]);
    }
  }

  lemma PartialMergeValue(left: bytes, right: bytes)
    requires PartialMerge(left, right).Success?
    ensures DecodeOperand(left).Success? && DecodeOperand(right).Success?
    ensures DecodeOperand(PartialMerge(left, right).value) ==
            Success(DecodeOperand(left).value + DecodeOperand(right).value)
  {
    OperandRoundTrip(DecodeOperand(left).value + DecodeOperand(right).value, left);
  }

  /** Where the operands in front end, and what the two in the middle and the rest then do: the first
      of the two leaves the range, together they do not, and the rest does not overflow either. */
  predicate LeavesAndReturns(value: int, xs: seq<bytes>, l: int, r: int, ys: seq<bytes>) {
    Apply(value, xs).Success? &&
    (var v := Apply(value, xs).value;
     !Decimal.InI64(v + l) && Decimal.InI64(v + l + r) && Apply(v + l + r, ys) != Failure(Overflow))
  }

  /** Replacing two neighbours by their partial merge changes a full merge exactly when the stored
      value decodes and the operands leave the range between the two and return to it for good. */
  lemma PartialMergeExact(key: bytes, existing: Option<bytes>, xs: seq<bytes>, left: bytes, right: bytes,
                          ys: seq<bytes>)
    requires PartialMerge(left, right).Success?
    ensures DecodeOperand(left).Success? && DecodeOperand(right).Success?
    ensures FullMerged(key, existing, xs + [PartialMerge(left, right).value] + ys) ==
            FullMerged(key, existing, xs + [left, right] + ys)
       <==> Decode(key, existing).Failure?
            || !LeavesAndReturns(Decode(key, existing).value.value, xs,
                                 DecodeOperand(left).value, DecodeOperand(right).value, ys)
  {
    hide DecodeOperand;
    hide PartialMerge;
    hide Apply;
    hide Decode;
    hide Encode;
    PartialMergeValue(left, right);
    if Decode(key, existing).Success? {
      AroundTwo(Decode(key, existing).value.value, xs, left, right, ys);
    }
  }

  /** The operands one by one, with the two in the middle as they are or merged. */
  lemma AroundTwo(value: int, xs: seq<bytes>, left: bytes, right: bytes, ys: seq<bytes>)
    requires PartialMerge(left, right).Success? && DecodeOperand(left).Success? && DecodeOperand(right).Success?
    ensures var one := Apply(value, xs + [PartialMerge(left, right).value] + ys);
            var two := Apply(value, xs + [left, right] + ys);
            if LeavesAndReturns(value, xs, DecodeOperand(left).value, DecodeOperand(right).value, ys)
            then two == Failure(Overflow) && one != Failure(Overflow)
            else one == two
  {
    hide DecodeOperand;
    hide PartialMerge;
    hide Apply;
    var merged := PartialMerge(left, right).value;
    PartialMergeValue(left, right);
    ApplySplit(value, xs + [left, right], ys);
    ApplySplit(value, xs, [left, right]);
    ApplySplit(value, xs + [merged], ys);
    ApplySplit(value, xs, [merged]);
    if Apply(value, xs).Success? {
      var v := Apply(value, xs).value;
      ApplyTwo(v, left, right);
      ApplyOne(v, merged);
    }
  }

  lemma ApplyOne(value: int, operand: bytes)
    ensures Apply(value, [operand]) ==
            match DecodeOperand(operand)
            case Failure(error) => Failure(error)
            case Success(d) => if Decimal.InI64(value + d) then Success(value + d) else Failure(Overflow)
  {
    hide DecodeOperand;
    assert [operand][1..] == [];
  }

  lemma ApplyTwo(value: int, left: bytes, right: bytes)
    requires DecodeOperand(left).Success? && DecodeOperand(right).Success?
    ensures Apply(value, [left, right]) ==
            var l := DecodeOperand(left).value;
            var r := DecodeOperand(right).value;
            if Decimal.InI64(value + l) && Decimal.InI64(value + l + r) then Success(value + l + r)
            else Failure(Overflow)
  {
    hide DecodeOperand;
    assert [left, right][1..] == [right];
    if Decimal.InI64(value + DecodeOperand(left).value) {
      ApplyOne(value + DecodeOperand(left).value, right);
    }
  }

  /** Replacing neighbours by their partial merge keeps every successful full merge. */
  lemma PartialMergeIsSafe(key: bytes, existing: Option<bytes>, xs: seq<bytes>, left: bytes, right: bytes,
                           ys: seq<bytes>)
    requires PartialMerge(left, right).Success?
    requires FullMerged(key, existing, xs + [left, right] + ys).Success?
    ensures FullMerged(key, existing, xs + [PartialMerge(left, right).value] + ys) ==
            FullMerged(key, existing, xs + [left, right] + ys)
  {
    hide DecodeOperand;
    hide PartialMerge;
    hide Apply;
    hide Decode;
    hide Encode;
    PartialMergeValue(left, right);
    AroundTwo(Decode(key, existing).value.value, xs, left, right, ys);
  }

  /** A partial merge can save a merge that would have left the range on the way: the largest value,
      stored under any key of a string with any expiry, moved up and down by one. */
  lemma PartialMergeMayRescue(key: bytes, expireMs: nat)
    requires !IsHashField(key) && expireMs < TWO_64
    ensures var up, down := I64Bytes(1), I64Bytes(-1);
            var stored := Some(Encoded(Decimal.I64_MAX, expireMs));
            && PartialMerge(up, down).Success?
            && FullMerged(key, stored, [up, down]) == Failure(Overflow)
            && FullMerged(key, stored, [PartialMerge(up, down).value]) == Success(Encoded(Decimal.I64_MAX, expireMs))
  {
    hide I64Bytes;
    hide DecodeOperand;
    hide Encoded;
    hide DecodeExisting;
    var up, down := I64Bytes(1), I64Bytes(-1);
    StoredRoundTrip(Decimal.I64_MAX, expireMs);
    OperandRoundTrip(1, up);
    OperandRoundTrip(-1, down);
    PartialMergeValue(up, down);
    ApplyTwo(Decimal.I64_MAX, up, down);
    ApplyOne(Decimal.I64_MAX, PartialMerge(up, down).value);
  }
}
