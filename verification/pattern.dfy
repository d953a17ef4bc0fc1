/** Compiling glob patterns: escapes, classes, and runs of stars kept as one. */
module Patterns {
  import opened Bytes
  import opened Glob

  datatype Read<+T> = Read(value: T, next: nat)

  /** One byte of a class, possibly escaped. */
  function ClassByte(pattern: bytes, i: nat): (r: Option<Read<byte>>)
    ensures r.Some? ==> i < r.value.next <= |pattern|
  {
    if i >= |pattern| then None
    else if pattern[i] != BACKSLASH then Some(Read(pattern[i], i + 1))
    else if i + 1 >= |pattern| then None
    else Some(Read(pattern[i + 1], i + 2))
  }

  function Ordered(x: byte, y: byte): Range {
    if x <= y then Range(x, y) else Range(y, x)
  }

  predicate RangeFollows(pattern: bytes, i: nat) {
    i + 1 < |pattern| && pattern[i] == MINUS && pattern[i + 1] != RBRACKET
  }

  /** One member of a class: a byte or a range. */
  function ClassMember(pattern: bytes, i: nat): (r: Option<Read<Range>>)
    ensures r.Some? ==> i < r.value.next <= |pattern|
  {
    match ClassByte(pattern, i)
    case None => None
    case Some(Read(first, next)) =>
      if !RangeFollows(pattern, next) then Some(Read(Range(first, first), next))
      else match ClassByte(pattern, next + 1)
           case None => None
           case Some(Read(last, end)) => Some(Read(Ordered(first, last), end))
  }

  /** The rest of a class body, with `ranges` read so far. */
  function ClassBody(pattern: bytes, i: nat, negated: bool, ranges: seq<Range>): (r: Option<Read<GlobToken>>)
    ensures r.Some? ==> i < r.value.next <= |pattern|
    decreases |pattern| - i
  {
    if i >= |pattern| then None
    else if pattern[i] == RBRACKET then Some(Read(Class(negated, ranges), i + 1))
    else match ClassMember(pattern, i)
         case None => None
         case Some(Read(range, next)) => ClassBody(pattern, next, negated, ranges + [range])
  }

  /** The class that opens at `start`. */
  function ClassAt(pattern: bytes, start: nat): (r: Option<Read<GlobToken>>)
    ensures r.Some? ==> start < r.value.next <= |pattern|
  {
    var negated := start + 1 < |pattern| && pattern[start + 1] == CARET;
    ClassBody(pattern, if negated then start + 2 else start + 1, negated, [])
  }

  method ParseClass(pattern: bytes, start: nat) returns (r: Option<Read<GlobToken>>)
    ensures r == ClassAt(pattern, start)
  {
    hide ClassBody;
    var index := start + 1;
    var negated := index < |pattern| && pattern[index] == CARET;
    if negated {
      index := index + 1;
    }
    var ranges: seq<Range> := [];
    while index < |pattern|
      invariant ClassAt(pattern, start) == ClassBody(pattern, index, negated, ranges)
      decreases |pattern| - index
    {
      BodyUnfolds(pattern, index, negated, ranges);
      if pattern[index] == RBRACKET {
        return Some(Read(Class(negated, ranges), index + 1));
      }
      var first := ClassByte(pattern, index);
      if first.None? {
        return None;
      }
      var next := first.value.next;
      if RangeFollows(pattern, next) {
        var last := ClassByte(pattern, next + 1);
        if last.None? {
          return None;
        }
        ranges := ranges + [Ordered(first.value.value, last.value.value)];
        index := last.value.next;
      } else {
        ranges := ranges + [Range(first.value.value, first.value.value)];
        index := next;
      }
    }
    BodyUnfolds(pattern, index, negated, ranges);
    return None;
  }

  lemma BodyUnfolds(pattern: bytes, i: nat, negated: bool, ranges: seq<Range>)
    ensures ClassBody(pattern, i, negated, ranges) ==
            if i >= |pattern| then None
            else if pattern[i] == RBRACKET then Some(Read(Class(negated, ranges), i + 1))
            else match ClassMember(pattern, i)
                 case None => None
                 case Some(Read(range, next)) => ClassBody(pattern, next, negated, ranges + [range])
  {
  }

  /** The token that starts at `i`, and where the next one starts. An unterminated class ends the
      pattern with a token that nothing satisfies. */
  function TokenAt(pattern: bytes, i: nat): (r: Read<GlobToken>)
    requires i < |pattern|
    ensures i < r.next <= |pattern|
  {
    if pattern[i] == STAR then Read(Star, i + 1)
    else if pattern[i] == QUESTION then Read(AnyByte, i + 1)
    else if pattern[i] == BACKSLASH && i + 1 < |pattern| then Read(Literal(pattern[i + 1]), i + 2)
    else if pattern[i] == LBRACKET then
      match ClassAt(pattern, i)
      case Some(class_) => class_
      case None => Read(Never, |pattern|)
    else Read(Literal(pattern[i]), i + 1)
  }

  /** All tokens from `i` on, every star kept. */
  function Tokens(pattern: bytes, i: nat): seq<GlobToken>
    requires i <= |pattern|
    decreases |pattern| - i
  {
    if i == |pattern| then [] else [TokenAt(pattern, i).value] + Tokens(pattern, TokenAt(pattern, i).next)
  }

  function PushToken(tokens: seq<GlobToken>, token: GlobToken): seq<GlobToken> {
    if token.Star? && tokens != [] && tokens[|tokens| - 1].Star? then tokens else tokens + [token]
  }

  function PushAll(tokens: seq<GlobToken>, more: seq<GlobToken>): seq<GlobToken>
    decreases |more|
  {
    if more == [] then tokens else PushAll(PushToken(tokens, more[0]), more[1..])
  }

  method ParseGlob(pattern: bytes) returns (tokens: seq<GlobToken>)
    ensures tokens == PushAll([], Tokens(pattern, 0))
  {
    tokens := [];
    var index: nat := 0;
    while index < |pattern|
      invariant index <= |pattern|
      invariant PushAll([], Tokens(pattern, 0)) == PushAll(tokens, Tokens(pattern, index))
    {
      assert Tokens(pattern, index)[1..] == Tokens(pattern, TokenAt(pattern, index).next);
      if pattern[index] == STAR {
        if |tokens| == 0 || !tokens[|tokens| - 1].Star? {
          tokens := tokens + [Star];
        }
        index := index + 1;
      } else if pattern[index] == QUESTION {
        tokens, index := tokens + [AnyByte], index + 1;
      } else if pattern[index] == BACKSLASH && index + 1 < |pattern| {
        tokens, index := tokens + [Literal(pattern[index + 1])], index + 2;
      } else if pattern[index] == LBRACKET {
        var parsed := ParseClass(pattern, index);
        if parsed.Some? {
          assert !parsed.value.value.Star? by { ClassIsNoStar(pattern, index); }
          tokens, index := tokens + [parsed.value.value], parsed.value.next;
        } else {
          tokens := tokens + [Never];
          return;
        }
      } else {
        tokens, index := tokens + [Literal(pattern[index])], index + 1;
      }
    }
  }

  lemma ClassIsNoStar(pattern: bytes, start: nat)
    requires ClassAt(pattern, start).Some?
    ensures ClassAt(pattern, start).value.value.Class?
  {
    var negated := start + 1 < |pattern| && pattern[start + 1] == CARET;
    BodyIsClass(pattern, if negated then start + 2 else start + 1, negated, []);
  }

  lemma {:induction false} BodyIsClass(pattern: bytes, i: nat, negated: bool, ranges: seq<Range>)
    requires ClassBody(pattern, i, negated, ranges).Some?
    ensures ClassBody(pattern, i, negated, ranges).value.value.Class?
    decreases |pattern| - i
  {
    if pattern[i] != RBRACKET {
      var member := ClassMember(pattern, i).value;
      BodyIsClass(pattern, member.next, negated, ranges + [member.value]);
    }
  }

  // Dropping repeated stars does not change what is matched.

  lemma {:induction false} SameTail(xs: seq<GlobToken>, p: nat, ys: seq<GlobToken>, q: nat, text: bytes, t: nat)
    requires p <= |xs| && q <= |ys| && t <= |text| && xs[p..] == ys[q..]
    ensures MatchesFrom(xs, p, text, t) <==> MatchesFrom(ys, q, text, t)
    decreases |xs| - p
  {
    if p < |xs| {
      assert xs[p] == xs[p..][0] == ys[q..][0] == ys[q];
      assert xs[p + 1..] == xs[p..][1..] == ys[q..][1..] == ys[q + 1..];
      var p', q' := p + 1, q + 1;
      forall j | 0 <= j <= |text| ensures MatchesFrom(xs, p', text, j) <==> MatchesFrom(ys, q', text, j) {
        SameTail(xs, p', ys, q', text, j);
      }
      LaterAgrees(xs, p + 1, ys, q + 1, text, t);
    }
  }

  lemma LaterAgrees(xs: seq<GlobToken>, p: nat, ys: seq<GlobToken>, q: nat, text: bytes, t: nat)
    requires p <= |xs| && q <= |ys|
    requires forall j :: 0 <= j <= |text| ==> (MatchesFrom(xs, p, text, j) <==> MatchesFrom(ys, q, text, j))
    ensures MatchesLater(xs, p, text, t) <==> MatchesLater(ys, q, text, t)
  {
  }

  /** One of two neighbouring stars can go. */
  lemma {:induction false} DropStar(tokens: seq<GlobToken>, i: nat, p: nat, text: bytes, t: nat)
    requires i + 1 < |tokens| && tokens[i].Star? && tokens[i + 1].Star? && p <= i && t <= |text|
    ensures MatchesFrom(tokens, p, text, t) <==> MatchesFrom(tokens[..i] + tokens[i + 1..], p, text, t)
    decreases i - p
  {
    var fewer := tokens[..i] + tokens[i + 1..];
    if p == i {
      assert fewer[i..] == tokens[i + 1..];
      SameTail(fewer, i, tokens, i + 1, text, t);
      StarTwice(tokens, i, text, t);
    } else {
      assert fewer[p] == tokens[p];
      var p' := p + 1;
      forall j | 0 <= j <= |text| ensures MatchesFrom(tokens, p', text, j) <==> MatchesFrom(fewer, p', text, j) {
        DropStar(tokens, i, p', text, j);
      }
      LaterAgrees(tokens, p + 1, fewer, p + 1, text, t);
    }
  }

  lemma StarTwice(tokens: seq<GlobToken>, i: nat, text: bytes, t: nat)
    requires i + 1 < |tokens| && tokens[i].Star? && tokens[i + 1].Star? && t <= |text|
    ensures MatchesFrom(tokens, i, text, t) <==> MatchesFrom(tokens, i + 1, text, t)
  {
    if MatchesFrom(tokens, i, text, t) {
      var j := LaterStart(tokens, i + 1, text, t);
      var k := LaterStart(tokens, i + 2, text, j);
      assert MatchesLater(tokens, i + 2, text, t);
    }
    if MatchesFrom(tokens, i + 1, text, t) {
      assert MatchesLater(tokens, i + 1, text, t);
    }
  }

  lemma {:induction false} PushAllKeepsMeaning(tokens: seq<GlobToken>, more: seq<GlobToken>, text: bytes)
    ensures MatchesFrom(PushAll(tokens, more), 0, text, 0) <==> MatchesFrom(tokens + more, 0, text, 0)
    decreases |more|
  {
    if more == [] {
      assert tokens + more == tokens;
    } else {
      var pushed := PushToken(tokens, more[0]);
      PushAllKeepsMeaning(pushed, more[1..], text);
      if pushed == tokens {
        var i := |tokens| - 1;
        var all := tokens + more;
        assert all[..i] + all[i + 1..] == tokens + more[1..];
        DropStar(all, i, 0, text, 0);
      } else {
        MoveHead(tokens, more);
      }
    }
  }

  /** What a pattern means: every token kept, in the declarative relation. */
  ghost predicate PatternMatches(pattern: bytes, text: bytes) {
    Matches(Tokens(pattern, 0), text)
  }

  lemma CollapsedStars(pattern: bytes, text: bytes)
    ensures Matches(PushAll([], Tokens(pattern, 0)), text) <==> PatternMatches(pattern, text)
  {
    var tokens := Tokens(pattern, 0);
    PushAllKeepsMeaning([], tokens, text);
    assert [] + tokens == tokens;
    MatchesIsRecursive(PushAll([], tokens), text);
    MatchesIsRecursive(tokens, text);
  }

  /** Compile, then run the loop: this decides the meaning of the pattern. */
  method GlobMatch(pattern: bytes, text: bytes) returns (r: bool)
    ensures r <==> PatternMatches(pattern, text)
  {
    var tokens := ParseGlob(pattern);
    CollapsedStars(pattern, text);
    r := GlobMatchTokens(tokens, text);
  }

  // What patterns mean.

  function EscapePattern(s: bytes): bytes {
    if s == [] then [] else [BACKSLASH, s[0]] + EscapePattern(s[1..])
  }

  function Literals(s: bytes): (r: seq<GlobToken>)
    ensures |r| == |s|
  {
    seq(|s|, i requires 0 <= i < |s| => Literal(s[i]))
  }

  lemma {:induction false} EscapedTokens(before: bytes, s: bytes)
    ensures Tokens(before + EscapePattern(s), |before|) == Literals(s)
    decreases |s|
  {
    var pattern := before + EscapePattern(s);
    if s != [] {
      var front := before + [BACKSLASH, s[0]];
      assert pattern == front + EscapePattern(s[1..]);
      EscapedTokens(front, s[1..]);
      assert pattern[|before|] == BACKSLASH && pattern[|before| + 1] == s[0];
      assert Literals(s) == [Literal(s[0])] + Literals(s[1..]);
    }
  }

  lemma LiteralsMatchThemselves(s: bytes, text: bytes)
    ensures Matches(Literals(s), text) <==> text == s
  {
    var tokens := Literals(s);
    if Matches(tokens, text) {
      var cuts :| Cut(tokens, text, 0, cuts);
      CutsCount(tokens, text, cuts, |s|);
      forall i | 0 <= i < |s| ensures text[i] == s[i] {
        CutsCount(tokens, text, cuts, i);
        assert Piece(tokens, text, cuts, i);
      }
    }
    if text == s {
      var cuts := seq(|s| + 1, i requires 0 <= i < |s| + 1 => i);
      assert forall i :: 0 <= i < |s| ==> Piece(tokens, text, cuts, i);
      assert Cut(tokens, text, 0, cuts);
    }
  }

  lemma {:induction false} CutsCount(tokens: seq<GlobToken>, text: bytes, cuts: seq<nat>, i: nat)
    requires Cut(tokens, text, 0, cuts) && i <= |tokens| && forall k :: 0 <= k < |tokens| ==> !tokens[k].Star?
    ensures cuts[i] == i
    decreases i
  {
    if i > 0 {
      CutsCount(tokens, text, cuts, i - 1);
      assert Piece(tokens, text, cuts, i - 1);
    }
  }

  /** A string with every byte escaped matches that string and nothing else. */
  lemma EscapedMatchesItself(s: bytes, text: bytes)
    ensures PatternMatches(EscapePattern(s), text) <==> text == s
  {
    EscapedTokens([], s);
    assert [] + EscapePattern(s) == EscapePattern(s);
    LiteralsMatchThemselves(s, text);
  }

  /** Is `i` the start of a token, reading from `from`? */
  ghost predicate Reaches(pattern: bytes, from: nat, i: nat)
    requires i < |pattern|
    decreases |pattern| - from
  {
    from == i || (from < i && Reaches(pattern, TokenAt(pattern, from).next, i))
  }

  lemma {:induction false} NeverIsReached(pattern: bytes, from: nat, i: nat)
    requires from <= i < |pattern| && Reaches(pattern, from, i)
    requires pattern[i] == LBRACKET && ClassAt(pattern, i).None?
    ensures Never in Tokens(pattern, from)
    decreases |pattern| - from
  {
    if from < i {
      NeverIsReached(pattern, TokenAt(pattern, from).next, i);
    }
  }

  /** A pattern with an unterminated class matches nothing. */
  lemma UnterminatedClassMatchesNothing(pattern: bytes, i: nat, text: bytes)
    requires i < |pattern| && Reaches(pattern, 0, i) && pattern[i] == LBRACKET && ClassAt(pattern, i).None?
    ensures !PatternMatches(pattern, text)
  {
    NeverIsReached(pattern, 0, i);
    NeverMatchesNothing(Tokens(pattern, 0), text);
  }

  lemma NeverMatchesNothing(tokens: seq<GlobToken>, text: bytes)
    requires Never in tokens
    ensures !Matches(tokens, text)
  {
    if Matches(tokens, text) {
      var cuts :| Cut(tokens, text, 0, cuts);
      var k :| 0 <= k < |tokens| && tokens[k] == Never;
      NeverHasNoPiece(tokens, text, cuts, k);
    }
  }

  lemma NeverHasNoPiece(tokens: seq<GlobToken>, text: bytes, cuts: seq<nat>, k: nat)
    requires k < |tokens| && |cuts| == |tokens| + 1 && tokens[k] == Never
    ensures !Piece(tokens, text, cuts, k)
  {
  }

  /** A class without a closing bracket behind it is unterminated. */
  lemma {:induction false} NoBracketNoClass(pattern: bytes, i: nat, negated: bool, ranges: seq<Range>)
    requires forall k :: i <= k < |pattern| ==> pattern[k] != RBRACKET
    ensures ClassBody(pattern, i, negated, ranges).None?
    decreases |pattern| - i
  {
    if i < |pattern| && ClassMember(pattern, i).Some? {
      var member := ClassMember(pattern, i).value;
      NoBracketNoClass(pattern, member.next, negated, ranges + [member.value]);
    }
  }

  lemma {:induction false} OrdinaryBytesReach(pattern: bytes, from: nat, i: nat)
    requires from <= i < |pattern|
    requires forall k :: from <= k < i ==> pattern[k] != LBRACKET && pattern[k] != BACKSLASH
    ensures Reaches(pattern, from, i)
    decreases i - from
  {
    if from < i {
      OrdinaryBytesReach(pattern, from + 1, i);
    }
  }

  /** The first opening bracket of a pattern without escapes in front of it, and no closing bracket
      behind it: nothing matches. */
  lemma UnclosedBracketMatchesNothing(pattern: bytes, i: nat, text: bytes)
    requires i < |pattern| && pattern[i] == LBRACKET
    requires forall k :: 0 <= k < i ==> pattern[k] != LBRACKET && pattern[k] != BACKSLASH
    requires forall k :: i < k < |pattern| ==> pattern[k] != RBRACKET
    ensures !PatternMatches(pattern, text)
  {
    OrdinaryBytesReach(pattern, 0, i);
    var negated := i + 1 < |pattern| && pattern[i + 1] == CARET;
    NoBracketNoClass(pattern, if negated then i + 2 else i + 1, negated, []);
    UnterminatedClassMatchesNothing(pattern, i, text);
  }

  // Any token list can be written as a pattern, so the meaning of patterns is that of tokens.

  function PrintRange(range: Range): bytes {
    [BACKSLASH, range.low, MINUS, BACKSLASH, range.high]
  }

  function PrintRanges(ranges: seq<Range>): bytes {
    if ranges == [] then [] else PrintRange(ranges[0]) + PrintRanges(ranges[1..])
  }

  function PrintToken(token: GlobToken): (r: bytes)
    ensures r != []
  {
    match token
    case Star => [STAR]
    case AnyByte => [QUESTION]
    case Literal(x) => [BACKSLASH, x]
    case Never => [LBRACKET]
    case Class(negated, ranges) => [LBRACKET] + (if negated then [CARET] else []) + PrintRanges(ranges) + [RBRACKET]
  }

  function PrintTokens(tokens: seq<GlobToken>): bytes {
    if tokens == [] then [] else PrintToken(tokens[0]) + PrintTokens(tokens[1..])
  }

  predicate OrderedRanges(ranges: seq<Range>) {
    forall i :: 0 <= i < |ranges| ==> ranges[i].low <= ranges[i].high
  }

  /** What compiling gives: the ends of ranges in order, and nothing behind an unterminated class. */
  predicate Compiled(tokens: seq<GlobToken>) {
    forall i :: 0 <= i < |tokens| ==>
      (tokens[i].Class? ==> OrderedRanges(tokens[i].ranges)) && (tokens[i].Never? ==> i == |tokens| - 1)
  }

  lemma MemberPrinted(before: bytes, range: Range, after: bytes)
    requires range.low <= range.high
    ensures ClassMember(before + (PrintRange(range) + after), |before|) == Some(Read(range, |before| + 5))
  {
    var pattern := before + (PrintRange(range) + after);
    var i := |before|;
    assert pattern[i] == BACKSLASH && pattern[i + 1] == range.low && pattern[i + 2] == MINUS;
    assert pattern[i + 3] == BACKSLASH && pattern[i + 4] == range.high;
  }

  lemma {:induction false} BodyPrinted(before: bytes, negated: bool, done: seq<Range>, ranges: seq<Range>, after: bytes)
    requires OrderedRanges(ranges)
    ensures ClassBody(before + (PrintRanges(ranges) + ([RBRACKET] + after)), |before|, negated, done)
         == Some(Read(Class(negated, done + ranges), |before| + |PrintRanges(ranges)| + 1))
    decreases |ranges|
  {
    hide ClassBody;
    hide ClassMember;
    var tail := [RBRACKET] + after;
    var pattern := before + (PrintRanges(ranges) + tail);
    if ranges == [] {
      assert [] + tail == tail;
      assert pattern[|before|] == RBRACKET && done + ranges == done;
      BodyEnd(pattern, |before|, negated, done);
    } else {
      var first, rest := PrintRange(ranges[0]), PrintRanges(ranges[1..]);
      Assoc(first, rest, tail);
      MemberPrinted(before, ranges[0], rest + tail);
      assert pattern[|before|] == BACKSLASH;
      Assoc(before, first, rest + tail);
      BodyStep(pattern, |before|, negated, done);
      BodyPrinted(before + first, negated, done + [ranges[0]], ranges[1..], after);
      assert (done + [ranges[0]]) + ranges[1..] == done + ranges;
    }
  }

  lemma BodyEnd(pattern: bytes, i: nat, negated: bool, ranges: seq<Range>)
    requires i < |pattern| && pattern[i] == RBRACKET
    ensures ClassBody(pattern, i, negated, ranges) == Some(Read(Class(negated, ranges), i + 1))
  {
  }

  lemma BodyStep(pattern: bytes, i: nat, negated: bool, ranges: seq<Range>)
    requires i < |pattern| && pattern[i] != RBRACKET && ClassMember(pattern, i).Some?
    ensures var member := ClassMember(pattern, i).value;
            ClassBody(pattern, i, negated, ranges) == ClassBody(pattern, member.next, negated, ranges + [member.value])
  {
  }

  lemma ClassPrinted(before: bytes, negated: bool, ranges: seq<Range>, after: bytes)
    requires OrderedRanges(ranges)
    ensures var printed := PrintToken(Class(negated, ranges));
            ClassAt(before + (printed + after), |before|) == Some(Read(Class(negated, ranges), |before| + |printed|))
  {
    hide ClassBody;
    hide PrintRanges;
    var body, tail := PrintRanges(ranges), [RBRACKET] + after;
    var open := [LBRACKET] + if negated then [CARET] else [];
    var pattern := before + (PrintToken(Class(negated, ranges)) + after);
    Assoc(open + body, [RBRACKET], after);
    Assoc(open, body, tail);
    Assoc(before, open, body + tail);
    FirstOfBody(ranges, tail);
    assert pattern[|before| + 1] == if negated then CARET else (body + tail)[0];
    assert [] + ranges == ranges;
    BodyPrinted(before + open, negated, [], ranges, after);
  }

  lemma FirstOfBody(ranges: seq<Range>, tail: bytes)
    requires tail != [] && tail[0] == RBRACKET
    ensures (PrintRanges(ranges) + tail)[0] != CARET
  {
  }

  lemma TokenPrinted(before: bytes, token: GlobToken, after: bytes)
    requires token.Class? ==> OrderedRanges(token.ranges)
    requires token.Never? ==> after == []
    ensures TokenAt(before + (PrintToken(token) + after), |before|) == Read(token, |before| + |PrintToken(token)|)
  {
    hide ClassBody;
    var pattern := before + (PrintToken(token) + after);
    assert pattern[|before|] == PrintToken(token)[0];
    match token {
      case Literal(x) => assert pattern[|before| + 1] == x;
      case Class(negated, ranges) => ClassPrinted(before, negated, ranges, after);
      case Never => NoClassAtEnd(pattern, |before|);
      case _ =>
    }
  }

  lemma NoClassAtEnd(pattern: bytes, i: nat)
    requires i + 1 == |pattern|
    ensures ClassAt(pattern, i).None?
  {
  }

  lemma {:induction false} PrintedTokens(before: bytes, tokens: seq<GlobToken>)
    requires Compiled(tokens)
    ensures Tokens(before + PrintTokens(tokens), |before|) == tokens
    decreases |tokens|
  {
    hide TokenAt;
    hide Tokens;
    hide PrintToken;
    if tokens == [] {
      assert before + [] == before;
      TokensEnd(before);
    } else {
      var first, rest := PrintToken(tokens[0]), PrintTokens(tokens[1..]);
      TokenPrinted(before, tokens[0], rest);
      Assoc(before, first, rest);
      PrintedTokens(before + first, tokens[1..]);
      TokensStep(before + PrintTokens(tokens), |before|);
      assert tokens == [tokens[0]] + tokens[1..];
    }
  }

  lemma TokensEnd(pattern: bytes)
    ensures Tokens(pattern, |pattern|) == []
  {
  }

  lemma TokensStep(pattern: bytes, i: nat)
    requires i < |pattern|
    ensures Tokens(pattern, i) == [TokenAt(pattern, i).value] + Tokens(pattern, TokenAt(pattern, i).next)
  {
  }

  /** Printing then compiling any token list gives it back; so a printed pattern means its tokens. */
  lemma PrintedPatternMeans(tokens: seq<GlobToken>, text: bytes)
    requires Compiled(tokens)
    ensures Tokens(PrintTokens(tokens), 0) == tokens
    ensures PatternMatches(PrintTokens(tokens), text) <==> Matches(tokens, text)
  {
    PrintedTokens([], tokens);
    assert [] + PrintTokens(tokens) == PrintTokens(tokens);
  }

  lemma {:induction false} BodyIsOrdered(pattern: bytes, i: nat, negated: bool, ranges: seq<Range>)
    requires OrderedRanges(ranges) && ClassBody(pattern, i, negated, ranges).Some?
    ensures ClassBody(pattern, i, negated, ranges).value.value.Class?
    ensures OrderedRanges(ClassBody(pattern, i, negated, ranges).value.value.ranges)
    decreases |pattern| - i
  {
    BodyIsClass(pattern, i, negated, ranges);
    if pattern[i] != RBRACKET {
      var member := ClassMember(pattern, i).value;
      BodyIsOrdered(pattern, member.next, negated, ranges + [member.value]);
    }
  }

  /** And every pattern compiles to such a list, so no other lists are left out. */
  lemma {:induction false} TokensAreCompiled(pattern: bytes, i: nat)
    requires i <= |pattern|
    ensures Compiled(Tokens(pattern, i))
    decreases |pattern| - i
  {
    if i < |pattern| {
      var first := TokenAt(pattern, i);
      TokensAreCompiled(pattern, first.next);
      if pattern[i] == LBRACKET && ClassAt(pattern, i).Some? {
        var negated := i + 1 < |pattern| && pattern[i + 1] == CARET;
        BodyIsOrdered(pattern, if negated then i + 2 else i + 1, negated, []);
      }
    }
  }

  /** Without brackets and escapes the tokens are the bytes, so the two matchers agree. */
  lemma {:induction false} PlainPatternTokens(pattern: bytes, i: nat)
    requires i <= |pattern|
    requires forall k :: 0 <= k < |pattern| ==> pattern[k] != LBRACKET && pattern[k] != BACKSLASH
    ensures Tokens(pattern, i) == SimpleTokens(pattern)[i..]
    decreases |pattern| - i
  {
    if i < |pattern| {
      PlainPatternTokens(pattern, i + 1);
      assert SimpleTokens(pattern)[i..] == [SimpleTokens(pattern)[i]] + SimpleTokens(pattern)[i + 1..];
    }
  }

  method MatchersAgree(pattern: bytes, value: bytes) returns (simple: bool, full: bool)
    requires forall k :: 0 <= k < |pattern| ==> pattern[k] != LBRACKET && pattern[k] != BACKSLASH
    requires STAR !in value
    ensures simple == full
    ensures simple <==> PatternMatches(pattern, value)
  {
    simple := SimpleGlobMatches(pattern, value);
    full := GlobMatch(pattern, value);
    PlainPatternTokens(pattern, 0);
    assert SimpleTokens(pattern)[0..] == SimpleTokens(pattern);
  }
}
