/** What decimal texts and machine words spell, most significant first, and that the number functions
    read and write exactly that. */
module Numerals {
  import opened Bytes
  import opened Decimal

  predicate Digits(s: bytes) {
    forall i :: 0 <= i < |s| ==> 48 <= s[i] <= 57
  }

  /** Reading digits from the left, with `soFar` read before them. */
  function Reading(s: bytes, soFar: nat): nat
    requires Digits(s)
  {
    if s == [] then soFar else Reading(s[1..], 10 * soFar + (s[0] - 48))
  }

  predicate SpellsNat(text: bytes, n: nat) {
    text != [] && Digits(text) && n == Reading(text, 0)
  }

  /** A sign, or none, and digits. */
  predicate Spells(text: bytes, v: int) {
    if text == [] then false
    else if text[0] == 45 then v <= 0 && SpellsNat(text[1..], -v)
    else v >= 0 && SpellsNat(if text[0] == 43 then text[1..] else text, v)
  }

  /** A minus sign only for a negative number, no plus sign, and no zero in front of other digits. */
  predicate SpellsShortly(text: bytes, v: int) {
    && Spells(text, v) && (text[0] == 45 <==> v < 0) && text[0] != 43
    && if v < 0 then text[1] != 48 else text[0] == 48 ==> |text| == 1
  }

  lemma {:induction false} ReadOneMore(s: bytes, x: byte, soFar: nat)
    requires Digits(s) && 48 <= x <= 57
    ensures Digits(s + [x]) && Reading(s + [x], soFar) == 10 * Reading(s, soFar) + (x - 48)
    decreases |s|
  {
    if s == [] {
      assert s + [x] == [x] && [x][1..] == [];
    } else {
      assert (s + [x])[1..] == s[1..] + [x];
      ReadOneMore(s[1..], x, 10 * soFar + (s[0] - 48));
    }
  }

  lemma {:induction false} ValueIsReading(s: bytes)
    requires AllDigits(s)
    ensures Value(s) == Reading(s, 0)
    decreases |s|
  {
    if s != [] {
      var front, x := s[..|s| - 1], s[|s| - 1];
      ValueIsReading(front);
      ReadOneMore(front, x, 0);
      assert s == front + [x];
    }
  }

  /** A length is read if and only if its text spells it and it fits a machine word. */
  lemma LengthIsRead(text: bytes, n: nat)
    ensures ParseUsize(text) == Some(n) <==> SpellsNat(text, n) && n <= 0xFFFF_FFFF_FFFF_FFFF
  {
    if AllDigits(text) {
      ValueIsReading(text);
    }
  }

  /** An integer is read if and only if its text spells it and it fits. */
  lemma IntegerIsRead(text: bytes, v: int)
    ensures ParseI64(text) == Some(v)
            <==> Spells(text, v) && -0x8000_0000_0000_0000 <= v <= 0x7FFF_FFFF_FFFF_FFFF
  {
    var digits := DropSign(text);
    if AllDigits(digits) {
      ValueIsReading(digits);
    }
  }

  lemma {:induction false} ShownWithoutZeros(n: nat)
    ensures SpellsNat(Show(n), n) && (Show(n)[0] == 48 <==> n == 0) && (n == 0 ==> |Show(n)| == 1)
  {
    ValueIsReading(Show(n));
    if n >= 10 {
      ShownWithoutZeros(n / 10);
    }
  }

  /** A number is written in its shortest spelling. */
  lemma IntegerIsShown(v: int)
    ensures SpellsShortly(ShowInt(v), v)
  {
    ShownWithoutZeros(if v < 0 then -v else v);
    if v < 0 {
      assert ShowInt(v)[1..] == Show(-v);
    }
  }

  // Floating-point texts.

  predicate SameLetters(text: bytes, lower: bytes) {
    && |text| == |lower|
    && forall i :: 0 <= i < |text| ==> IsLetter(text[i], lower[i])
  }

  predicate IsLetter(x: int, lower: int) {
    x == lower || x + 32 == lower
  }

  /** An e in either case, a sign or none, and digits; or nothing. */
  predicate Exponent(text: bytes) {
    || text == []
    || (IsLetter(text[0], 101) && Unsigned(text[1..]) != [] && Digits(Unsigned(text[1..])))
  }

  function Unsigned(text: bytes): bytes {
    if text != [] && (text[0] == 43 || text[0] == 45) then text[1..] else text
  }

  /** Digits, a point and digits or neither, and an exponent or none; at least one digit in front of it. */
  ghost predicate Fraction(text: bytes, whole: nat, end: nat) {
    && whole <= end <= |text| && Digits(text[..whole]) && Exponent(text[end..])
    && if end == whole then whole > 0
       else text[whole] == 46 && Digits(text[whole + 1..end]) && end > 1
  }

  /** A floating-point text: a sign or none, and inf, infinity, nan or a fraction, letters in either case. */
  ghost predicate Floats(text: bytes) {
    var u := Unsigned(text);
    || SameLetters(u, [105, 110, 102])
    || SameLetters(u, [105, 110, 102, 105, 110, 105, 116, 121])
    || SameLetters(u, [110, 97, 110])
    || exists whole: nat, end: nat :: Fraction(u, whole, end)
  }

  lemma LettersAreSame(text: bytes, lower: bytes)
    requires forall i :: 0 <= i < |lower| ==> 97 <= lower[i] <= 122
    ensures LowerAll(text) == lower <==> SameLetters(text, lower)
  {
    var all := LowerAll(text);
    if SameLetters(text, lower) {
      assert forall i :: 0 <= i < |all| ==> all[i] == lower[i];
    }
    if all == lower {
      forall i | 0 <= i < |text|
        ensures IsLetter(text[i], lower[i])
      {
        assert all[i] == lower[i];
      }
    }
  }

  /** The leading digits end where the first other byte stands. */
  lemma {:induction false} RunEndsAt(s: bytes, n: nat)
    requires n <= |s| && Digits(s[..n]) && (n < |s| ==> !IsDigit(s[n]))
    ensures DigitRun(s) == n
    decreases |s|
  {
    if n > 0 {
      assert s[0] == s[..n][0] && s[1..][..n - 1] == s[..n][1..];
      RunEndsAt(s[1..], n - 1);
    }
  }

  lemma ExponentIsText(text: bytes)
    ensures ExponentText(text) <==> Exponent(text)
  {
  }

  lemma NoDigitAhead(text: bytes)
    requires Exponent(text) && text != []
    ensures !IsDigit(text[0]) && text[0] != 46
  {
  }

  /** The parts of a text behind a point. */
  lemma BehindPoint(text: bytes, whole: nat, end: nat)
    requires whole < end <= |text|
    ensures var rest, n := text[whole + 1..], end - whole - 1;
            && rest[..n] == text[whole + 1..end] && rest[n..] == text[end..]
            && (end < |text| ==> rest[n] == text[end..][0])
  {
  }

  lemma FractionIsNumber(text: bytes, whole: nat, end: nat)
    requires Fraction(text, whole, end)
    ensures NumberText(text)
  {
    hide DigitRun;
    hide ExponentText;
    hide Exponent;
    ExponentIsText(text[end..]);
    if end < |text| {
      NoDigitAhead(text[end..]);
    }
    RunEndsAt(text, whole);
    if end > whole {
      BehindPoint(text, whole, end);
      RunEndsAt(text[whole + 1..], end - whole - 1);
    }
  }

  lemma NumberIsFraction(text: bytes) returns (whole: nat, end: nat)
    requires NumberText(text)
    ensures Fraction(text, whole, end)
  {
    hide DigitRun;
    hide ExponentText;
    hide Exponent;
    whole := DigitRun(text);
    end := whole;
    if whole < |text| && text[whole] == DOT {
      end := whole + 1 + DigitRun(text[whole + 1..]);
      BehindPoint(text, whole, end);
    }
    ExponentIsText(text[end..]);
  }

  /** The texts that are accepted as floating-point numbers are exactly those. */
  lemma FloatIffSpelled(text: bytes)
    ensures FloatText(text) <==> Floats(text)
  {
    hide NumberText;
    hide Fraction;
    hide SameLetters;
    var u := DropSign(text);
    LettersAreSame(u, INF);
    LettersAreSame(u, INFINITY);
    LettersAreSame(u, NAN);
    if NumberText(u) {
      var whole, end := NumberIsFraction(u);
    }
    if exists whole: nat, end: nat :: Fraction(u, whole, end) {
      var whole: nat, end: nat :| Fraction(u, whole, end);
      FractionIsNumber(u, whole, end);
    }
  }
}
