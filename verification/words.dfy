/** How inline arguments are written, and what they mean: the grammar of an inline line.

    An argument is a run of bare bytes, or a quoted text, or the one followed by the other. */
module Words {
  import opened Bytes
  import opened Frames
  import opened Scanner
  import opened Inline

  /** One step of a double-quoted text: a byte, a backslash and a byte, or a backslash, an x and two
      hexadecimal digits. */
  datatype Part = Plain(x: byte) | Escaped(x: byte) | Hex(high: byte, low: byte)

  /** One step of a single-quoted text: a byte, or a backslash and a single quote. */
  datatype SinglePart = Verbatim(x: byte) | EscapedQuote

  datatype Quoted = Unquoted | DoubleText(parts: seq<Part>) | SingleText(singles: seq<SinglePart>)

  datatype Word = Word(bare: bytes, quoted: Quoted)

  // How they are written.

  function PartText(p: Part): (r: bytes)
    ensures r != []
  {
    match p
    case Plain(x) => [x]
    case Escaped(x) => [92, x]
    case Hex(high, low) => [92, 120, high, low]
  }

  function PartsText(parts: seq<Part>): bytes {
    if parts == [] then [] else PartText(parts[0]) + PartsText(parts[1..])
  }

  function StepText(p: SinglePart): (r: bytes)
    ensures r != []
  {
    match p
    case Verbatim(x) => [x]
    case EscapedQuote => [92, 39]
  }

  function SinglesText(parts: seq<SinglePart>): bytes {
    if parts == [] then [] else StepText(parts[0]) + SinglesText(parts[1..])
  }

  function QuotedText(q: Quoted): bytes {
    match q
    case Unquoted => []
    case DoubleText(parts) => [34] + (PartsText(parts) + [34])
    case SingleText(singles) => [39] + (SinglesText(singles) + [39])
  }

  function WordText(w: Word): bytes {
    w.bare + QuotedText(w.quoted)
  }

  // What they mean.

  /** The value of a hexadecimal digit, in either case. */
  function DigitValue(x: byte): nat {
    if 48 <= x <= 57 then x - 48 else if 97 <= x <= 102 then x - 87 else if 65 <= x <= 70 then x - 55 else 0
  }

  predicate IsHexDigit(x: byte) {
    48 <= x <= 57 || 97 <= x <= 102 || 65 <= x <= 70
  }

  function PartMeans(p: Part): byte
    requires p.Hex? ==> IsHexDigit(p.high) && IsHexDigit(p.low)
  {
    match p
    case Plain(x) => x
    case Escaped(x) =>
      if x == 110 then 10           // n
      else if x == 114 then 13      // r
      else if x == 116 then 9       // t
      else if x == 98 then 8        // b
      else if x == 97 then 7        // a
      else x
    case Hex(high, low) => 16 * DigitValue(high) + DigitValue(low)
  }

  function PartsMean(parts: seq<Part>): bytes
    requires forall i :: 0 <= i < |parts| && parts[i].Hex? ==> IsHexDigit(parts[i].high) && IsHexDigit(parts[i].low)
  {
    if parts == [] then [] else [PartMeans(parts[0])] + PartsMean(parts[1..])
  }

  function SinglesMean(parts: seq<SinglePart>): bytes {
    if parts == [] then []
    else [match parts[0] case Verbatim(x) => x case EscapedQuote => 39] + SinglesMean(parts[1..])
  }

  /** An escaped x is one only if no two hexadecimal digits follow it in the text. */
  predicate DigitsFollow(text: bytes) {
    |text| >= 2 && IsHexDigit(text[0]) && IsHexDigit(text[1])
  }

  predicate GoodPart(p: Part, after: bytes) {
    match p
    case Plain(x) => x != 34 && x != 92
    case Escaped(x) => x == 120 ==> !DigitsFollow(after)
    case Hex(high, low) => IsHexDigit(high) && IsHexDigit(low)
  }

  predicate GoodParts(parts: seq<Part>)
    ensures GoodParts(parts) ==>
              forall i :: 0 <= i < |parts| && parts[i].Hex? ==> IsHexDigit(parts[i].high) && IsHexDigit(parts[i].low)
  {
    parts == [] || (GoodPart(parts[0], PartsText(parts[1..]) + [34]) && GoodParts(parts[1..]))
  }

  /** A backslash stands for itself unless a single quote follows it. */
  predicate GoodSingles(parts: seq<SinglePart>) {
    parts == []
    || ((parts[0].Verbatim? ==> parts[0].x != 39 && (parts[0].x == 92 ==> |parts| > 1)) && GoodSingles(parts[1..]))
  }

  /** A space, a tab, a vertical tab or a form feed. */
  predicate Blank(x: byte) {
    x == 32 || x == 9 || x == 11 || x == 12
  }

  /** No blank, quote or line break. */
  predicate BareByte(x: byte) {
    !Blank(x) && x != 34 && x != 39 && x != 13 && x != 10
  }

  predicate GoodWord(w: Word) {
    && (forall i :: 0 <= i < |w.bare| ==> BareByte(w.bare[i]))
    && (w.quoted.Unquoted? ==> w.bare != [])
    && (w.quoted.DoubleText? ==> GoodParts(w.quoted.parts))
    && (w.quoted.SingleText? ==> GoodSingles(w.quoted.singles))
  }

  function QuotedMeans(q: Quoted): bytes
    requires (q.DoubleText? ==> GoodParts(q.parts))
  {
    match q
    case Unquoted => []
    case DoubleText(parts) => PartsMean(parts)
    case SingleText(singles) => SinglesMean(singles)
  }

  function WordMeans(w: Word): bytes
    requires GoodWord(w)
  {
    w.bare + QuotedMeans(w.quoted)
  }

  // A written argument reads as what it means.

  predicate Ends(after: bytes) {
    after == [] || Blank(after[0])
  }

  /** Reading from `before` on, with `text` collected, goes through `written` and adds `means`. */
  predicate ReadsAs(before: bytes, written: bytes, after: bytes, quoting: Quoting, text: bytes, means: bytes) {
    ReadToken(before + (written + after), |before|, quoting, text)
    == Success(Token(text + means, |before| + |written|))
  }

  /** One step of reading inside double quotes. */
  lemma ReadInDouble(line: bytes, i: nat, text: bytes)
    requires i < |line| && line[i] != 34 && (line[i] == 92 ==> i + 1 < |line|)
    ensures ReadToken(line, i, DoubleQuoted, text) ==
            if line[i] != 92 then ReadToken(line, i + 1, DoubleQuoted, text + [line[i]])
            else if HexEscapeAt(line, i) then
              ReadToken(line, i + 4, DoubleQuoted,
                        text + [16 * HexValue(line[i + 2]).value + HexValue(line[i + 3]).value])
            else ReadToken(line, i + 2, DoubleQuoted, text + [Unescape(line[i + 1])])
  {
  }

  lemma HexDigits(x: byte)
    ensures HexValue(x).Some? <==> IsHexDigit(x)
    ensures IsHexDigit(x) ==> HexValue(x) == Some(DigitValue(x))
  {
  }

  function PartAt(line: bytes, i: nat): Part
    requires i < |line| && (line[i] == 92 ==> i + 1 < |line|)
  {
    if line[i] != 92 then Plain(line[i])
    else if HexEscapeAt(line, i) then Hex(line[i + 2], line[i + 3])
    else Escaped(line[i + 1])
  }

  lemma PartWasRead(line: bytes, i: nat, text: bytes)
    requires i < |line| && line[i] != 34 && (line[i] == 92 ==> i + 1 < |line|)
    ensures var p := PartAt(line, i);
            && i + |PartText(p)| <= |line| && line[i..i + |PartText(p)|] == PartText(p)
            && GoodPart(p, line[i + |PartText(p)|..])
            && ReadToken(line, i, DoubleQuoted, text)
               == ReadToken(line, i + |PartText(p)|, DoubleQuoted, text + [PartMeans(p)])
  {
    hide ReadToken;
    hide HexValue;
    var p := PartAt(line, i);
    ReadInDouble(line, i, text);
    match p {
      case Plain(_) =>
      case Hex(high, low) =>
        HexDigits(high);
        HexDigits(low);
      case Escaped(x) =>
        var after := line[i + 2..];
        if x == 120 && |after| >= 2 {
          assert after[0] == line[i + 2] && after[1] == line[i + 3];
          HexDigits(after[0]);
          HexDigits(after[1]);
        }
    }
  }

  /** The bytes of a text in the middle of a line. */
  lemma InTheMiddle(before: bytes, w: bytes, rest: bytes)
    ensures var line := before + (w + rest);
            && (forall k :: 0 <= k < |w| ==> line[|before| + k] == w[k])
            && (forall k :: 0 <= k < |rest| ==> line[|before| + |w| + k] == rest[k])
  {
  }

  lemma PartIsAt(before: bytes, p: Part, rest: bytes)
    requires rest != [] && GoodPart(p, rest)
    ensures PartAt(before + (PartText(p) + rest), |before|) == p
  {
    hide HexValue;
    var w, i := PartText(p), |before|;
    var line := before + (w + rest);
    InTheMiddle(before, w, rest);
    assert line[i + 0] == w[0] && (|w| > 1 ==> line[i + 1] == w[1]);
    if p.Hex? {
      assert line[i + 2] == w[2] && line[i + 3] == w[3];
      HexDigits(p.high);
      HexDigits(p.low);
    } else if p.Escaped? && |rest| >= 2 {
      assert line[i + 2 + 0] == rest[0] && line[i + 2 + 1] == rest[1];
      HexDigits(rest[0]);
      HexDigits(rest[1]);
    }
  }

  lemma DoubleStep(before: bytes, p: Part, rest: bytes, text: bytes)
    requires rest != [] && GoodPart(p, rest)
    ensures ReadToken(before + (PartText(p) + rest), |before|, DoubleQuoted, text)
         == ReadToken((before + PartText(p)) + rest, |before| + |PartText(p)|, DoubleQuoted, text + [PartMeans(p)])
  {
    hide ReadToken;
    hide PartAt;
    hide PartMeans;
    var line, i := before + (PartText(p) + rest), |before|;
    Assoc(before, PartText(p), rest);
    PartIsAt(before, p, rest);
    NotClosing(before, p, rest);
    PartWasRead(line, i, text);
  }

  lemma NotClosing(before: bytes, p: Part, rest: bytes)
    requires rest != [] && GoodPart(p, rest)
    ensures var line := before + (PartText(p) + rest);
            line[|before|] != 34 && |before| + 1 < |line|
  {
    assert (before + (PartText(p) + rest))[|before|] == PartText(p)[0];
  }

  lemma {:induction false} DoubleReads(before: bytes, parts: seq<Part>, after: bytes, text: bytes)
    requires GoodParts(parts) && Ends(after)
    ensures ReadsAs(before, PartsText(parts) + [34], after, DoubleQuoted, text, PartsMean(parts))
    decreases |parts|
  {
    hide ReadToken;
    hide GoodPart;
    var closing := [34] + after;
    Assoc(PartsText(parts), [34], after);
    if parts == [] {
      assert PartsText(parts) + closing == closing;
      CloseReads(before, 34, after, DoubleQuoted, text);
      assert text + [] == text;
    } else {
      var first, rest := PartText(parts[0]), PartsText(parts[1..]);
      Assoc(first, rest, closing);
      Assoc(rest, [34], after);
      GoodWithMore(parts[0], rest + [34], after);
      DoubleStep(before, parts[0], rest + closing, text);
      DoubleReads(before + first, parts[1..], after, text + [PartMeans(parts[0])]);
      Assoc(text, [PartMeans(parts[0])], PartsMean(parts[1..]));
    }
  }

  /** What comes behind the closing quote cannot turn an escape into a hexadecimal one. */
  lemma GoodWithMore(p: Part, rest: bytes, after: bytes)
    requires GoodPart(p, rest) && rest != [] && rest[|rest| - 1] == 34
    ensures GoodPart(p, rest + after)
  {
  }

  lemma CloseReads(before: bytes, quote: byte, after: bytes, quoting: Quoting, text: bytes)
    requires (quote == 34 && quoting == DoubleQuoted) || (quote == 39 && quoting == SingleQuoted)
    requires Ends(after)
    ensures ReadToken(before + ([quote] + after), |before|, quoting, text) == Success(Token(text, |before| + 1))
  {
    var line := before + ([quote] + after);
    assert line[|before|] == quote && (after != [] ==> line[|before| + 1] == after[0]);
  }

  lemma SingleStep(before: bytes, p: SinglePart, rest: bytes, text: bytes)
    requires rest != [] && (p.Verbatim? ==> p.x != 39 && (p.x == 92 ==> rest[0] != 39))
    ensures ReadToken(before + (StepText(p) + rest), |before|, SingleQuoted, text)
         == ReadToken((before + StepText(p)) + rest, |before| + |StepText(p)|, SingleQuoted,
                      text + [if p.Verbatim? then p.x else 39])
  {
    var line, i := before + (StepText(p) + rest), |before|;
    Assoc(before, StepText(p), rest);
    assert line[i] == StepText(p)[0];
    assert line[i + 1] == if p.Verbatim? then rest[0] else 39;
  }

  lemma {:induction false} SingleReads(before: bytes, parts: seq<SinglePart>, after: bytes, text: bytes)
    requires GoodSingles(parts) && Ends(after)
    ensures ReadsAs(before, SinglesText(parts) + [39], after, SingleQuoted, text, SinglesMean(parts))
    decreases |parts|
  {
    hide ReadToken;
    var closing := [39] + after;
    Assoc(SinglesText(parts), [39], after);
    if parts == [] {
      assert SinglesText(parts) + closing == closing;
      CloseReads(before, 39, after, SingleQuoted, text);
      assert text + [] == text;
    } else {
      var first, rest := StepText(parts[0]), SinglesText(parts[1..]);
      var x := if parts[0].Verbatim? then parts[0].x else 39;
      Assoc(first, rest, closing);
      Assoc(rest, [39], after);
      NoQuoteFirst(parts[1..], closing);
      SingleStep(before, parts[0], rest + closing, text);
      SingleReads(before + first, parts[1..], after, text + [x]);
      Assoc(text, [x], SinglesMean(parts[1..]));
    }
  }

  lemma NoQuoteFirst(parts: seq<SinglePart>, closing: bytes)
    requires GoodSingles(parts) && closing != []
    ensures parts != [] ==> (SinglesText(parts) + closing)[0] != 39
  {
  }

  lemma OpenReads(before: bytes, quote: byte, rest: bytes, text: bytes)
    requires quote == 34 || quote == 39
    ensures ReadToken(before + ([quote] + rest), |before|, Bare, text)
         == ReadToken((before + [quote]) + rest, |before| + 1, if quote == 34 then DoubleQuoted else SingleQuoted, text)
  {
    Assoc(before, [quote], rest);
    assert (before + ([quote] + rest))[|before|] == quote;
  }

  lemma BareEnds(before: bytes, after: bytes, text: bytes)
    requires Ends(after)
    ensures ReadToken(before + after, |before|, Bare, text) == Success(Token(text, |before|))
  {
    if after != [] {
      assert (before + after)[|before|] == after[0];
    }
  }

  lemma BareStep(before: bytes, x: byte, rest: bytes, text: bytes)
    requires BareByte(x)
    ensures ReadToken(before + ([x] + rest), |before|, Bare, text)
         == ReadToken((before + [x]) + rest, |before| + 1, Bare, text + [x])
  {
    Assoc(before, [x], rest);
    assert (before + ([x] + rest))[|before|] == x;
  }

  lemma QuotedReads(before: bytes, q: Quoted, after: bytes, text: bytes)
    requires (q.DoubleText? ==> GoodParts(q.parts)) && (q.SingleText? ==> GoodSingles(q.singles)) && Ends(after)
    ensures ReadsAs(before, QuotedText(q), after, Bare, text, QuotedMeans(q))
  {
    hide ReadToken;
    hide GoodParts;
    hide GoodSingles;
    hide PartsText;
    hide SinglesText;
    hide PartsMean;
    hide SinglesMean;
    match q {
      case Unquoted =>
        assert [] + after == after && text + [] == text;
        BareEnds(before, after, text);
      case DoubleText(parts) =>
        var body := PartsText(parts) + [34];
        Assoc([34], body, after);
        OpenReads(before, 34, body + after, text);
        DoubleReads(before + [34], parts, after, text);
      case SingleText(singles) =>
        var body := SinglesText(singles) + [39];
        Assoc([39], body, after);
        OpenReads(before, 39, body + after, text);
        SingleReads(before + [39], singles, after, text);
    }
  }

  lemma {:induction false} BareReads(before: bytes, bare: bytes, q: Quoted, after: bytes, text: bytes)
    requires forall i :: 0 <= i < |bare| ==> BareByte(bare[i])
    requires (q.DoubleText? ==> GoodParts(q.parts)) && (q.SingleText? ==> GoodSingles(q.singles)) && Ends(after)
    ensures ReadsAs(before, bare + QuotedText(q), after, Bare, text, bare + QuotedMeans(q))
    decreases |bare|
  {
    hide ReadToken;
    hide GoodParts;
    hide GoodSingles;
    hide QuotedText;
    hide QuotedMeans;
    if bare == [] {
      assert bare + QuotedText(q) == QuotedText(q) && bare + QuotedMeans(q) == QuotedMeans(q);
      QuotedReads(before, q, after, text);
    } else {
      var x, rest := bare[0], bare[1..];
      var tail := rest + QuotedText(q);
      assert bare + QuotedText(q) == [x] + tail;
      Assoc([x], tail, after);
      BareStep(before, x, tail + after, text);
      BareReads(before + [x], rest, q, after, text + [x]);
      assert bare + QuotedMeans(q) == [x] + (rest + QuotedMeans(q));
      Assoc(text, [x], rest + QuotedMeans(q));
    }
  }

  lemma NothingBefore(s: bytes)
    ensures [] + s == s
  {
  }

  /** A written argument, followed by a blank or the end of the line, reads as what it means. */
  lemma WordReads(before: bytes, w: Word, after: bytes)
    requires GoodWord(w) && Ends(after)
    ensures ReadToken(before + (WordText(w) + after), |before|, Bare, [])
         == Success(Token(WordMeans(w), |before| + |WordText(w)|))
  {
    hide ReadToken;
    hide GoodParts;
    hide GoodSingles;
    hide QuotedText;
    hide QuotedMeans;
    BareReads(before, w.bare, w.quoted, after, []);
    NothingBefore(WordMeans(w));
  }

  // Lines.

  /** Words with blanks around them: one or more between two, any number at the ends. */
  function LineText(gaps: seq<bytes>, words: seq<Word>): bytes
    requires |gaps| == |words| + 1
    decreases |words|
  {
    if words == [] then gaps[0] else gaps[0] + (WordText(words[0]) + LineText(gaps[1..], words[1..]))
  }

  predicate Blanks(gap: bytes) {
    forall i :: 0 <= i < |gap| ==> Blank(gap[i])
  }

  predicate GoodGaps(gaps: seq<bytes>) {
    && (forall i :: 0 <= i < |gaps| ==> Blanks(gaps[i]))
    && (forall i :: 0 < i < |gaps| - 1 ==> gaps[i] != [])
  }

  predicate GoodWords(words: seq<Word>) {
    forall i :: 0 <= i < |words| ==> GoodWord(words[i])
  }

  function WordsMean(words: seq<Word>): (r: seq<bytes>)
    requires GoodWords(words)
    ensures |r| == |words|
  {
    seq(|words|, i requires 0 <= i < |words| => WordMeans(words[i]))
  }

  lemma {:induction false} SkipGap(before: bytes, gap: bytes, rest: bytes)
    requires Blanks(gap) && (rest == [] || !Blank(rest[0]))
    ensures SkipBlanks(before + (gap + rest), |before|) == |before| + |gap|
    decreases |gap|
  {
    var line := before + (gap + rest);
    if gap == [] {
      assert rest != [] ==> line[|before|] == rest[0];
    } else {
      assert line[|before|] == gap[0];
      assert gap + rest == [gap[0]] + (gap[1..] + rest);
      Assoc(before, [gap[0]], gap[1..] + rest);
      SkipGap(before + [gap[0]], gap[1..], rest);
    }
  }

  lemma WordStarts(w: Word, rest: bytes)
    requires GoodWord(w)
    ensures WordText(w) != [] && !Blank((WordText(w) + rest)[0])
  {
    if w.bare != [] {
      assert (WordText(w) + rest)[0] == w.bare[0];
    }
  }

  lemma LineEnds(gaps: seq<bytes>, words: seq<Word>)
    requires |gaps| == |words| + 1 && GoodGaps(gaps) && (words != [] ==> gaps[0] != [])
    ensures Ends(LineText(gaps, words))
  {
    if gaps[0] != [] {
      assert LineText(gaps, words)[0] == gaps[0][0];
    }
  }

  /** Skip the gap, read the word, go on behind it. */
  lemma OneWordReads(before: bytes, gap: bytes, w: Word, rest: bytes, arguments: seq<bytes>)
    requires Blanks(gap) && GoodWord(w) && Ends(rest) && |arguments| <= MAX_ARRAY_ELEMENTS
    ensures var next := before + gap + WordText(w);
            ReadArguments(before + (gap + (WordText(w) + rest)), |before|, arguments) ==
            if |arguments| == MAX_ARRAY_ELEMENTS then Failure(TooManyArguments)
            else ReadArguments(next + rest, |next|, arguments + [WordMeans(w)])
  {
    hide ReadToken;
    hide ReadArguments;
    hide SkipBlanks;
    hide WordText;
    hide WordMeans;
    hide GoodWord;
    var start, text := before + gap, WordText(w);
    WordStarts(w, rest);
    SkipGap(before, gap, text + rest);
    Assoc(before, gap, text + rest);
    WordReads(start, w, rest);
    Assoc(start, text, rest);
    ReadStep(start + text + rest, |before|, Token(WordMeans(w), |start| + |text|), arguments);
  }

  lemma LineStep(before: bytes, gaps: seq<bytes>, words: seq<Word>, arguments: seq<bytes>)
    requires |gaps| == |words| + 1 && GoodGaps(gaps) && GoodWords(words) && |arguments| <= MAX_ARRAY_ELEMENTS
    requires words != []
    ensures var next := before + gaps[0] + WordText(words[0]);
            ReadArguments(before + LineText(gaps, words), |before|, arguments) ==
            if |arguments| == MAX_ARRAY_ELEMENTS then Failure(TooManyArguments)
            else ReadArguments(next + LineText(gaps[1..], words[1..]), |next|, arguments + [WordMeans(words[0])])
  {
    hide ReadArguments;
    hide GoodWord;
    hide WordText;
    hide WordMeans;
    if words[1..] != [] {
      assert gaps[1] != [];
    }
    LineEnds(gaps[1..], words[1..]);
    OneWordReads(before, gaps[0], words[0], LineText(gaps[1..], words[1..]), arguments);
  }

  lemma {:induction false} LineReadsFrom(before: bytes, gaps: seq<bytes>, words: seq<Word>, arguments: seq<bytes>)
    requires |gaps| == |words| + 1 && GoodGaps(gaps) && GoodWords(words) && |arguments| <= MAX_ARRAY_ELEMENTS
    ensures ReadArguments(before + LineText(gaps, words), |before|, arguments) ==
            if |arguments| + |words| <= MAX_ARRAY_ELEMENTS then Success(arguments + WordsMean(words))
            else Failure(TooManyArguments)
    decreases |words|
  {
    hide ReadToken;
    hide GoodWord;
    hide WordText;
    hide WordMeans;
    hide SkipBlanks;
    if words == [] {
      assert gaps[0] + [] == gaps[0] && arguments + WordsMean(words) == arguments;
      SkipGap(before, gaps[0], []);
    } else {
      LineStep(before, gaps, words, arguments);
      if |arguments| + 1 <= MAX_ARRAY_ELEMENTS {
        var w := words[0];
        LineReadsFrom(before + gaps[0] + WordText(w), gaps[1..], words[1..], arguments + [WordMeans(w)]);
        assert (arguments + [WordMeans(w)]) + WordsMean(words[1..]) == arguments + WordsMean(words);
      }
    }
  }

  /** A written line reads as what its words mean, up to the limit on arguments. */
  lemma LineReads(gaps: seq<bytes>, words: seq<Word>)
    requires |gaps| == |words| + 1 && GoodGaps(gaps) && GoodWords(words)
    ensures ReadArguments(LineText(gaps, words), 0, []) ==
            if |words| <= MAX_ARRAY_ELEMENTS then Success(WordsMean(words)) else Failure(TooManyArguments)
  {
    LineReadsFrom([], gaps, words, []);
    assert [] + LineText(gaps, words) == LineText(gaps, words) && [] + WordsMean(words) == WordsMean(words);
  }

  // Every line that is read was written so.

  lemma GoodInPrefix(p: Part, after: bytes, all: bytes)
    requires GoodPart(p, all) && after <= all
    ensures GoodPart(p, after)
  {
    if |after| >= 2 {
      assert after[0] == all[0] && after[1] == all[1];
    }
  }

  lemma TwoPieces(line: bytes, i: nat, j: nat, k: nat)
    requires i <= j <= k <= |line|
    ensures line[i..k] == line[i..j] + line[j..k] && line[j..k] <= line[j..]
  {
  }

  lemma PartBefore(line: bytes, i: nat, text: bytes, token: Token, p: Part, rest: seq<Part>)
    requires i + |PartText(p)| <= token.next <= |line| && line[i..i + |PartText(p)|] == PartText(p)
    requires GoodPart(p, line[i + |PartText(p)|..]) && GoodParts(rest)
    requires line[i + |PartText(p)|..token.next] == PartsText(rest) + [34]
    requires token.text == text + [PartMeans(p)] + PartsMean(rest)
    ensures GoodParts([p] + rest)
    ensures line[i..token.next] == PartsText([p] + rest) + [34] && token.text == text + PartsMean([p] + rest)
  {
    hide GoodPart;
    hide PartMeans;
    hide PartText;
    var n, parts := |PartText(p)|, [p] + rest;
    assert parts[1..] == rest;
    TwoPieces(line, i, i + n, token.next);
    GoodInPrefix(p, PartsText(rest) + [34], line[i + n..]);
    Assoc(PartText(p), PartsText(rest), [34]);
    Assoc(text, [PartMeans(p)], PartsMean(rest));
  }

  lemma {:induction false} DoubleWasWritten(line: bytes, i: nat, text: bytes, token: Token) returns (parts: seq<Part>)
    requires i <= |line| && ReadToken(line, i, DoubleQuoted, text) == Success(token)
    ensures GoodParts(parts) && i < token.next <= |line| && Ends(line[token.next..])
    ensures line[i..token.next] == PartsText(parts) + [34] && token.text == text + PartsMean(parts)
    decreases |line| - i
  {
    if line[i] == 34 {
      parts := [];
      assert text + [] == text;
    } else {
      var p := PartAt(line, i);
      PartWasRead(line, i, text);
      var rest := DoubleWasWritten(line, i + |PartText(p)|, text + [PartMeans(p)], token);
      parts := [p] + rest;
      PartBefore(line, i, text, token, p, rest);
    }
  }

  /** One step of reading inside single quotes. */
  lemma ReadInSingle(line: bytes, i: nat, text: bytes)
    requires i <= |line|
    ensures ReadToken(line, i, SingleQuoted, text) ==
            if i == |line| then Failure(UnbalancedQuotes)
            else if line[i] == 92 && i + 1 < |line| && line[i + 1] == 39 then
              ReadToken(line, i + 2, SingleQuoted, text + [39])
            else if line[i] != 39 then ReadToken(line, i + 1, SingleQuoted, text + [line[i]])
            else if Ends(line[i + 1..]) then Success(Token(text, i + 1))
            else Failure(QuoteNotFollowedByBlank)
  {
  }

  lemma {:induction false} SingleWasWritten(line: bytes, i: nat, text: bytes, token: Token)
    returns (singles: seq<SinglePart>)
    requires i <= |line| && ReadToken(line, i, SingleQuoted, text) == Success(token)
    ensures GoodSingles(singles) && i < token.next <= |line| && Ends(line[token.next..])
    ensures line[i..token.next] == SinglesText(singles) + [39] && token.text == text + SinglesMean(singles)
    decreases |line| - i
  {
    hide ReadToken;
    hide SinglesText;
    hide SinglesMean;
    hide Ends;
    ReadInSingle(line, i, text);
    if line[i] == 92 && i + 1 < |line| && line[i + 1] == 39 {
      var rest := SingleWasWritten(line, i + 2, text + [39], token);
      singles := [EscapedQuote] + rest;
      assert singles[1..] == rest;
      SingleGoesOn(line, i, text, token, EscapedQuote, 39, rest);
    } else if line[i] == 39 {
      singles := [];
      NoSingles(text);
    } else {
      var rest := SingleWasWritten(line, i + 1, text + [line[i]], token);
      singles := [Verbatim(line[i])] + rest;
      assert singles[1..] == rest;
      SingleGoesOn(line, i, text, token, Verbatim(line[i]), line[i], rest);
      if rest == [] {
        NoSingles(text);
        assert line[i + 1..token.next][0] == 39;
      }
    }
  }

  lemma NoSingles(text: bytes)
    ensures SinglesText([]) + [39] == [39] && text + SinglesMean([]) == text
  {
  }

  lemma SingleGoesOn(line: bytes, i: nat, text: bytes, token: Token, p: SinglePart, x: byte, rest: seq<SinglePart>)
    requires i + |StepText(p)| <= token.next <= |line| && line[i..i + |StepText(p)|] == StepText(p)
    requires x == if p.Verbatim? then p.x else 39
    requires line[i + |StepText(p)|..token.next] == SinglesText(rest) + [39]
    requires token.text == text + [x] + SinglesMean(rest)
    ensures line[i..token.next] == SinglesText([p] + rest) + [39] && token.text == text + SinglesMean([p] + rest)
  {
    TwoPieces(line, i, i + |StepText(p)|, token.next);
    assert ([p] + rest)[1..] == rest;
    Assoc(StepText(p), SinglesText(rest), [39]);
    Assoc(text, [x], SinglesMean(rest));
  }

  /** One step of reading outside quotes. */
  lemma ReadInBare(line: bytes, i: nat, text: bytes)
    requires i <= |line|
    ensures ReadToken(line, i, Bare, text) ==
            if i == |line| || Blank(line[i]) then Success(Token(text, i))
            else if line[i] == 34 then ReadToken(line, i + 1, DoubleQuoted, text)
            else if line[i] == 39 then ReadToken(line, i + 1, SingleQuoted, text)
            else if BareByte(line[i]) then ReadToken(line, i + 1, Bare, text + [line[i]])
            else Failure(ControlCharacter)
  {
  }

  lemma QuotedWasWritten(line: bytes, i: nat, text: bytes, token: Token) returns (q: Quoted)
    requires i < |line| && (line[i] == 34 || line[i] == 39)
    requires ReadToken(line, i + 1, if line[i] == 34 then DoubleQuoted else SingleQuoted, text) == Success(token)
    ensures (q.DoubleText? ==> GoodParts(q.parts)) && (q.SingleText? ==> GoodSingles(q.singles))
    ensures i <= token.next <= |line| && Ends(line[token.next..])
    ensures line[i..token.next] == QuotedText(q) && token.text == text + QuotedMeans(q)
  {
    hide ReadToken;
    hide GoodParts;
    hide GoodSingles;
    hide PartsText;
    hide SinglesText;
    hide PartsMean;
    hide SinglesMean;
    if line[i] == 34 {
      var parts := DoubleWasWritten(line, i + 1, text, token);
      q := DoubleText(parts);
      assert line[i..token.next] == [34] + line[i + 1..token.next];
    } else {
      var singles := SingleWasWritten(line, i + 1, text, token);
      q := SingleText(singles);
      assert line[i..token.next] == [39] + line[i + 1..token.next];
    }
  }

  lemma {:induction false} BareWasWritten(line: bytes, i: nat, text: bytes, token: Token)
    returns (bare: bytes, q: Quoted)
    requires i <= |line| && ReadToken(line, i, Bare, text) == Success(token)
    ensures forall k :: 0 <= k < |bare| ==> BareByte(bare[k])
    ensures (q.DoubleText? ==> GoodParts(q.parts)) && (q.SingleText? ==> GoodSingles(q.singles))
    ensures i <= token.next <= |line| && Ends(line[token.next..])
    ensures line[i..token.next] == bare + QuotedText(q) && token.text == text + (bare + QuotedMeans(q))
    decreases |line| - i
  {
    hide ReadToken;
    hide GoodParts;
    hide GoodSingles;
    ReadInBare(line, i, text);
    if i == |line| || Blank(line[i]) {
      bare, q := [], Unquoted;
      assert text + ([] + []) == text;
    } else if line[i] == 34 || line[i] == 39 {
      bare := [];
      q := QuotedWasWritten(line, i, text, token);
      NothingBefore(QuotedText(q));
      NothingBefore(QuotedMeans(q));
    } else {
      var rest;
      rest, q := BareWasWritten(line, i + 1, text + [line[i]], token);
      bare := [line[i]] + rest;
      BareGoesOn(line, i, text, token, rest, q);
    }
  }

  lemma BareGoesOn(line: bytes, i: nat, text: bytes, token: Token, rest: bytes, q: Quoted)
    requires i < token.next <= |line| && (q.DoubleText? ==> GoodParts(q.parts))
    requires line[i + 1..token.next] == rest + QuotedText(q)
    requires token.text == text + [line[i]] + (rest + QuotedMeans(q))
    ensures line[i..token.next] == [line[i]] + rest + QuotedText(q)
    ensures token.text == text + ([line[i]] + rest + QuotedMeans(q))
  {
    hide GoodParts;
    hide QuotedText;
    hide QuotedMeans;
    assert line[i..token.next] == [line[i]] + line[i + 1..token.next];
    Assoc([line[i]], rest, QuotedText(q));
    Assoc([line[i]], rest, QuotedMeans(q));
    Assoc(text, [line[i]], rest + QuotedMeans(q));
  }

  lemma WordWasWritten(line: bytes, i: nat, token: Token) returns (w: Word)
    requires i < |line| && !Blank(line[i]) && ReadToken(line, i, Bare, []) == Success(token)
    ensures GoodWord(w) && i < token.next <= |line| && Ends(line[token.next..])
    ensures line[i..token.next] == WordText(w) && token.text == WordMeans(w)
  {
    hide GoodParts;
    hide GoodSingles;
    hide QuotedText;
    hide QuotedMeans;
    var bare, q := BareWasWritten(line, i, [], token);
    w := Word(bare, q);
    NothingBefore(bare + QuotedMeans(q));
    NoWordIsEmpty(q);
  }

  lemma NoWordIsEmpty(q: Quoted)
    ensures q.Unquoted? <==> QuotedText(q) == []
  {
  }

  lemma {:induction false} RestWasWritten(line: bytes, i: nat, done: seq<bytes>, result: seq<bytes>)
    returns (gaps: seq<bytes>, words: seq<Word>)
    requires i <= |line| && |done| <= MAX_ARRAY_ELEMENTS && ReadArguments(line, i, done) == Success(result)
    ensures |gaps| == |words| + 1 && GoodGaps(gaps) && GoodWords(words) && line[i..] == LineText(gaps, words)
    ensures result == done + WordsMean(words) && |result| <= MAX_ARRAY_ELEMENTS
    ensures words != [] && i < |line| && Blank(line[i]) ==> gaps[0] != []
    decreases |line| - i
  {
    hide ReadToken;
    hide GoodWord;
    hide WordText;
    hide WordMeans;
    var j := SkipBlanks(line, i);
    BlanksSkipped(line, i);
    if j == |line| {
      gaps, words := [line[i..]], [];
      assert done + WordsMean(words) == done;
    } else {
      var token := ReadToken(line, j, Bare, []).value;
      var w := WordWasWritten(line, j, token);
      ReadStep(line, i, token, done);
      var laterGaps, laterWords := RestWasWritten(line, token.next, done + [token.text], result);
      gaps, words := [line[i..j]] + laterGaps, [w] + laterWords;
      WordBefore(line, i, j, token.next, w, laterGaps, laterWords);
      assert done + [token.text] + WordsMean(laterWords) == done + WordsMean(words);
    }
  }

  lemma BlanksSkipped(line: bytes, i: nat)
    requires i <= |line|
    ensures Blanks(line[i..SkipBlanks(line, i)])
    ensures SkipBlanks(line, i) < |line| ==> !Blank(line[SkipBlanks(line, i)])
    ensures i < |line| && Blank(line[i]) ==> i < SkipBlanks(line, i)
  {
  }

  lemma ThreeParts(line: bytes, i: nat, j: nat, next: nat)
    requires i <= j <= next <= |line|
    ensures line[i..] == line[i..j] + (line[j..next] + line[next..])
  {
  }

  lemma WordBefore(line: bytes, i: nat, j: nat, next: nat, w: Word, gaps: seq<bytes>, words: seq<Word>)
    requires i <= j < next <= |line| && Blanks(line[i..j]) && GoodWord(w) && line[j..next] == WordText(w)
    requires |gaps| == |words| + 1 && GoodGaps(gaps) && GoodWords(words) && line[next..] == LineText(gaps, words)
    requires words != [] ==> gaps[0] != []
    ensures GoodGaps([line[i..j]] + gaps) && GoodWords([w] + words)
    ensures line[i..] == LineText([line[i..j]] + gaps, [w] + words)
  {
    hide WordText;
    hide GoodWord;
    assert ([line[i..j]] + gaps)[1..] == gaps && ([w] + words)[1..] == words;
    ThreeParts(line, i, j, next);
  }

  ghost predicate Written(line: bytes, arguments: seq<bytes>, gaps: seq<bytes>, words: seq<Word>) {
    && |gaps| == |words| + 1 && GoodGaps(gaps) && GoodWords(words)
    && line == LineText(gaps, words) && arguments == WordsMean(words)
  }

  /** A line is read into some arguments if and only if it is a writing of them: words that mean them,
      with blanks between, no more than the limit. */
  lemma ReadIffWritten(line: bytes, arguments: seq<bytes>)
    ensures ReadArguments(line, 0, []) == Success(arguments)
            <==> |arguments| <= MAX_ARRAY_ELEMENTS && exists gaps, words :: Written(line, arguments, gaps, words)
  {
    hide ReadArguments;
    if ReadArguments(line, 0, []) == Success(arguments) {
      var gaps, words := RestWasWritten(line, 0, [], arguments);
      assert line[0..] == line && [] + WordsMean(words) == WordsMean(words);
      assert Written(line, arguments, gaps, words);
    } else if |arguments| <= MAX_ARRAY_ELEMENTS && exists gaps, words :: Written(line, arguments, gaps, words) {
      var gaps, words :| Written(line, arguments, gaps, words);
      LineReads(gaps, words);
    }
  }

  // Words without quotes.

  function PlainWords(arguments: seq<bytes>): seq<Word> {
    seq(|arguments|, i requires 0 <= i < |arguments| => Word(arguments[i], Unquoted))
  }

  /** Non-empty runs of bare bytes with blanks between read as themselves, in order. */
  lemma PlainWordsRead(gaps: seq<bytes>, arguments: seq<bytes>)
    requires |gaps| == |arguments| + 1 && GoodGaps(gaps) && |arguments| <= MAX_ARRAY_ELEMENTS
    requires forall i :: 0 <= i < |arguments| ==> arguments[i] != [] && Barely(arguments[i])
    ensures ReadArguments(LineText(gaps, PlainWords(arguments)), 0, []) == Success(arguments)
  {
    hide ReadArguments;
    var words := PlainWords(arguments);
    LineReads(gaps, words);
    forall i | 0 <= i < |arguments|
      ensures WordsMean(words)[i] == arguments[i]
    {
      assert arguments[i] + [] == arguments[i];
    }
    assert WordsMean(words) == arguments;
  }

  predicate Barely(s: bytes) {
    forall i :: 0 <= i < |s| ==> BareByte(s[i])
  }
}
