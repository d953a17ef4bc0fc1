/** Decimal text of the protocol: lengths (usize), integers (i64) and Rust's float grammar. */
module Decimal {
  import opened Bytes
  import Utf8

  const USIZE_MAX: int := 0xFFFF_FFFF_FFFF_FFFF
  const I64_MIN: int := -0x8000_0000_0000_0000
  const I64_MAX: int := 0x7FFF_FFFF_FFFF_FFFF

  predicate InI64(v: int) { I64_MIN <= v <= I64_MAX }

  predicate IsDigit(x: byte) { ZERO <= x <= NINE }

  predicate AllDigits(s: bytes) {
    forall i :: 0 <= i < |s| ==> IsDigit(s[i])
  }

  /** Value of a digit string, most significant digit first. */
  function Value(s: bytes): (v: nat)
    requires AllDigits(s)
    decreases |s|
  {
    if s == [] then 0 else 10 * Value(s[..|s| - 1]) + (s[|s| - 1] - ZERO)
  }

  /** Decimal text without leading zeros. */
  function Show(n: nat): (s: bytes)
    ensures |s| > 0 && AllDigits(s)
    ensures Value(s) == n
  {
    if n < 10 then
      assert Value([ZERO + n]) == 10 * Value([ZERO + n][..0]) + n;
      [ZERO + n]
    else
      var front := Show(n / 10);
      var s := front + [ZERO + n % 10];
      assert s[..|s| - 1] == front;
      s
  }

  function Pow10(k: nat): (p: nat)
    ensures p > 0
  {
    if k == 0 then 1 else 10 * Pow10(k - 1)
  }

  /** A number below 10^k has at most k digits. */
  lemma {:induction false} ShowLength(n: nat, k: nat)
    requires k > 0 && n < Pow10(k)
    ensures |Show(n)| <= k
  {
    if n >= 10 {
      assert Pow10(k) == 10 * Pow10(k - 1);
      ShowLength(n / 10, k - 1);
    }
  }

  lemma LengthHeaderFits(n: nat)
    requires n <= 0x1000_0000
    ensures |Show(n)| <= 17
  {
    assert Pow10(3) == 1000;
    assert Pow10(6) == 1000_000;
    assert Pow10(9) == 1000_000_000;
    ShowLength(n, 9);
  }

  lemma DigitsAreAscii(s: bytes)
    requires AllDigits(s)
    ensures Utf8.Valid(s) && NoLineBreak(s)
  {
    Utf8.AsciiIsValid(s);
  }

  function ShowInt(v: int): (s: bytes)
    ensures |s| > 0
  {
    if v < 0 then [MINUS] + Show(-v) else Show(v)
  }

  /** A length header: digits only, within the machine word. */
  function ParseUsize(s: bytes): (r: Option<nat>)
    ensures r.Some? <==> s != [] && AllDigits(s) && Value(s) <= USIZE_MAX
  {
    if s == [] || !AllDigits(s) || Value(s) > USIZE_MAX then None else Some(Value(s))
  }

  function DropSign(s: bytes): (r: bytes) {
    if s != [] && (s[0] == MINUS || s[0] == PLUS) then s[1..] else s
  }

  function ParseI64(s: bytes): (r: Option<int>)
    ensures r.Some? ==> InI64(r.value)
  {
    var digits := DropSign(s);
    if digits == [] || !AllDigits(digits) then None
    else
      var magnitude: int := Value(digits);
      var v := if s[0] == MINUS then -magnitude else magnitude;
      if InI64(v) then Some(v) else None
  }

  lemma ParseShowUsize(n: nat)
    requires n <= USIZE_MAX
    ensures ParseUsize(Show(n)) == Some(n) && IsDigit(Show(n)[0])
  {
  }

  lemma ParseShowInt(v: int)
    requires InI64(v)
    ensures ParseI64(ShowInt(v)) == Some(v)
    ensures Utf8.Valid(ShowInt(v)) && NoLineBreak(ShowInt(v))
  {
    if v < 0 {
      assert ShowInt(v)[1..] == Show(-v);
    } else {
      assert IsDigit(Show(v)[0]);
    }
    Utf8.AsciiIsValid(ShowInt(v));
  }

  /** Number of leading digits. */
  function DigitRun(s: bytes): (n: nat)
    ensures n <= |s| && AllDigits(s[..n])
    ensures n < |s| ==> !IsDigit(s[n])
    decreases |s|
  {
    if s == [] || !IsDigit(s[0]) then 0
    else
      var n := DigitRun(s[1..]);
      assert s[..n + 1] == [s[0]] + s[1..][..n];
      n + 1
  }

  function Lower(x: byte): byte {
    if 65 <= x <= 90 then x + 32 else x
  }

  function LowerAll(s: bytes): (r: bytes)
    ensures |r| == |s|
  {
    seq(|s|, i requires 0 <= i < |s| => Lower(s[i]))
  }

  const INF: bytes := [105, 110, 102]
  const INFINITY: bytes := [105, 110, 102, 105, 110, 105, 116, 121]
  const NAN: bytes := [110, 97, 110]

  predicate ExponentText(s: bytes) {
    s == [] || (Lower(s[0]) == 101 && DropSign(s[1..]) != [] && AllDigits(DropSign(s[1..])))
  }

  predicate NumberText(s: bytes) {
    var i := DigitRun(s);
    if i < |s| && s[i] == DOT then
      var j := DigitRun(s[i + 1..]);
      i + j > 0 && ExponentText(s[i + 1 + j..])
    else
      i > 0 && ExponentText(s[i..])
  }

  /** Texts that Rust's `str::parse::<f64>` accepts. */
  predicate FloatText(s: bytes) {
    var u := DropSign(s);
    LowerAll(u) in [INF, INFINITY, NAN] || NumberText(u)
  }

  predicate BigNumberText(s: bytes) {
    DropSign(s) != [] && AllDigits(DropSign(s))
  }
}
