/** Glob tokens, and matching them against a text with a single backtrack point. */
module Glob {
  import opened Bytes

  datatype Range = Range(low: byte, high: byte)

  datatype GlobToken =
    | Star
    | AnyByte
    | Never
    | Literal(expected: byte)
    | Class(negated: bool, ranges: seq<Range>)

  predicate InRanges(ranges: seq<Range>, x: byte) {
    exists i :: 0 <= i < |ranges| && ranges[i].low <= x <= ranges[i].high
  }

  /** Does a token other than a star accept this byte? */
  predicate Accepts(token: GlobToken, x: byte) {
    match token
    case AnyByte => true
    case Never => false
    case Literal(expected) => expected == x
    case Class(negated, ranges) => InRanges(ranges, x) != negated
    case Star => false
  }

  /** Piece `i` of the cut: a star takes any piece, any other token one byte that it accepts. */
  ghost predicate Piece(tokens: seq<GlobToken>, text: bytes, cuts: seq<nat>, i: nat)
    requires i < |tokens| && |cuts| == |tokens| + 1
  {
    && cuts[i] <= cuts[i + 1] <= |text|
    && (tokens[i].Star? || (cuts[i + 1] == cuts[i] + 1 && Accepts(tokens[i], text[cuts[i]])))
  }

  /** The text from `start` on is cut into one piece per token. */
  ghost predicate Cut(tokens: seq<GlobToken>, text: bytes, start: nat, cuts: seq<nat>) {
    && |cuts| == |tokens| + 1 && cuts[0] == start && cuts[|tokens|] == |text|
    && forall i :: 0 <= i < |tokens| ==> Piece(tokens, text, cuts, i)
  }

  ghost predicate Matches(tokens: seq<GlobToken>, text: bytes) {
    exists cuts :: Cut(tokens, text, 0, cuts)
  }

  /** The same relation by recursion: the tokens from `p` on take the text from `t` on. */
  ghost predicate MatchesFrom(tokens: seq<GlobToken>, p: nat, text: bytes, t: nat)
    requires p <= |tokens| && t <= |text|
    decreases |tokens| - p, 0
  {
    if p == |tokens| then t == |text|
    else if tokens[p].Star? then MatchesLater(tokens, p + 1, text, t)
    else t < |text| && Accepts(tokens[p], text[t]) && MatchesFrom(tokens, p + 1, text, t + 1)
  }

  /** The tokens from `q` on take the text from some place at or after `t` on. */
  ghost predicate MatchesLater(tokens: seq<GlobToken>, q: nat, text: bytes, t: nat)
    requires q <= |tokens|
    decreases |tokens| - q, 1
  {
    exists j :: t <= j <= |text| && MatchesFrom(tokens, q, text, j)
  }

  lemma {:induction false} RecursionGivesCut(tokens: seq<GlobToken>, p: nat, text: bytes, t: nat)
    returns (cuts: seq<nat>)
    requires p <= |tokens| && t <= |text| && MatchesFrom(tokens, p, text, t)
    ensures Cut(tokens[p..], text, t, cuts)
    decreases |tokens| - p
  {
    if p == |tokens| {
      cuts := [t];
    } else {
      var j := t + 1;
      if tokens[p].Star? {
        j :| t <= j <= |text| && MatchesFrom(tokens, p + 1, text, j);
      }
      var rest := RecursionGivesCut(tokens, p + 1, text, j);
      cuts := [t] + rest;
      CutCons(tokens[p..], text, t, j, rest);
    }
  }

  lemma CutCons(tokens: seq<GlobToken>, text: bytes, t: nat, j: nat, rest: seq<nat>)
    requires tokens != [] && t <= j <= |text| && Cut(tokens[1..], text, j, rest)
    requires tokens[0].Star? || (j == t + 1 && Accepts(tokens[0], text[t]))
    ensures Cut(tokens, text, t, [t] + rest)
  {
    var cuts := [t] + rest;
    forall i | 0 <= i < |tokens| ensures Piece(tokens, text, cuts, i) {
      if i > 0 {
        assert Piece(tokens[1..], text, rest, i - 1);
      }
    }
  }

  lemma {:induction false} CutGivesRecursion(tokens: seq<GlobToken>, p: nat, text: bytes, t: nat, cuts: seq<nat>)
    requires p <= |tokens| && t <= |text| && Cut(tokens[p..], text, t, cuts)
    ensures MatchesFrom(tokens, p, text, t)
    decreases |tokens| - p
  {
    if p < |tokens| {
      assert Piece(tokens[p..], text, cuts, 0);
      CutTail(tokens[p..], text, t, cuts);
      assert tokens[p..][1..] == tokens[p + 1..];
      CutGivesRecursion(tokens, p + 1, text, cuts[1], cuts[1..]);
    }
  }

  lemma CutTail(tokens: seq<GlobToken>, text: bytes, t: nat, cuts: seq<nat>)
    requires tokens != [] && Cut(tokens, text, t, cuts)
    ensures Cut(tokens[1..], text, cuts[1], cuts[1..])
  {
    forall i | 0 <= i < |tokens| - 1 ensures Piece(tokens[1..], text, cuts[1..], i) {
      assert Piece(tokens, text, cuts, i + 1);
    }
  }

  /** The recursive reading is the declarative one. */
  lemma MatchesIsRecursive(tokens: seq<GlobToken>, text: bytes)
    ensures Matches(tokens, text) <==> MatchesFrom(tokens, 0, text, 0)
  {
    assert tokens[0..] == tokens;
    if MatchesFrom(tokens, 0, text, 0) {
      var cuts := RecursionGivesCut(tokens, 0, text, 0);
    }
    if Matches(tokens, text) {
      var cuts :| Cut(tokens, text, 0, cuts);
      CutGivesRecursion(tokens, 0, text, 0, cuts);
    }
  }

  // The matching loop.

  /** Some later start for the tokens behind the last star would still match. */
  ghost predicate Retry(tokens: seq<GlobToken>, text: bytes, star: Option<nat>, starText: nat) {
    star.Some? && star.value < |tokens| && MatchesLater(tokens, star.value + 1, text, starText + 1)
  }

  /** Where the loop stands: since the last star, tokens and text advanced in step. */
  ghost predicate InStep(tokens: seq<GlobToken>, text: bytes, p: nat, t: nat, star: Option<nat>, starText: nat) {
    && p <= |tokens| && t <= |text| && starText <= t
    && match star
       case None => true
       case Some(s) => s < p && tokens[s].Star? && p - (s + 1) == t - starText &&
                       forall i :: s < i < p ==> !tokens[i].Star?
  }

  ghost predicate Remaining(tokens: seq<GlobToken>, text: bytes, p: nat, t: nat, star: Option<nat>, starText: nat)
    requires p <= |tokens| && t <= |text|
  {
    MatchesFrom(tokens, p, text, t) || Retry(tokens, text, star, starText)
  }

  /** Tokens without a star take exactly as many bytes as there are tokens. */
  lemma {:induction false} SkipPlain(tokens: seq<GlobToken>, p: nat, q: nat, text: bytes, j: nat)
    requires p <= q <= |tokens| && j <= |text| && MatchesFrom(tokens, p, text, j)
    requires forall i :: p <= i < q ==> !tokens[i].Star?
    ensures j + (q - p) <= |text| && MatchesFrom(tokens, q, text, j + (q - p))
    decreases q - p
  {
    if p < q {
      SkipPlain(tokens, p + 1, q, text, j + 1);
    }
  }

  /** A new star may forget the old one: every retry of the old star is a retry of the new one. */
  lemma StarForgets(tokens: seq<GlobToken>, text: bytes, p: nat, t: nat, star: Option<nat>, starText: nat)
    requires InStep(tokens, text, p, t, star, starText) && p < |tokens| && tokens[p].Star?
    ensures InStep(tokens, text, p + 1, t, Some(p), t)
    ensures Remaining(tokens, text, p, t, star, starText) <==> Remaining(tokens, text, p + 1, t, Some(p), t)
  {
    if Retry(tokens, text, star, starText) {
      var j := LaterStart(tokens, star.value + 1, text, starText + 1);
      SkipPlain(tokens, star.value + 1, p, text, j);
      var k := LaterStart(tokens, p + 1, text, j + (p - (star.value + 1)));
      assert t + 1 <= k;
    }
    if MatchesFrom(tokens, p, text, t) {
      var k := LaterStart(tokens, p + 1, text, t);
      assert k == t || t + 1 <= k;
    }
    if Remaining(tokens, text, p + 1, t, Some(p), t) {
      if Retry(tokens, text, Some(p), t) {
        var k := LaterStart(tokens, p + 1, text, t + 1);
      }
      assert MatchesLater(tokens, p + 1, text, t);
    }
  }

  lemma LaterStart(tokens: seq<GlobToken>, q: nat, text: bytes, t: nat) returns (k: nat)
    requires q <= |tokens| && MatchesLater(tokens, q, text, t)
    ensures t <= k <= |text| && MatchesFrom(tokens, q, text, k)
  {
    k :| t <= k <= |text| && MatchesFrom(tokens, q, text, k);
  }

  /** Once the text is used up, starting later cannot help: too few bytes would be left. */
  lemma NoRetryAtEnd(tokens: seq<GlobToken>, text: bytes, p: nat, star: Option<nat>, starText: nat)
    requires InStep(tokens, text, p, |text|, star, starText)
    ensures !Retry(tokens, text, star, starText)
  {
    if Retry(tokens, text, star, starText) {
      var j := LaterStart(tokens, star.value + 1, text, starText + 1);
      SkipPlain(tokens, star.value + 1, p, text, j);
    }
  }

  /** The loop that remembers only the latest star decides the declarative relation. */
  method GlobMatchTokens(tokens: seq<GlobToken>, text: bytes) returns (r: bool)
    ensures r <==> Matches(tokens, text)
  {
    MatchesIsRecursive(tokens, text);
    hide Matches;
    var p: nat, t: nat := 0, 0;
    var star: Option<nat> := None;
    var starText: nat := 0;
    while t < |text|
      invariant InStep(tokens, text, p, t, star, starText)
      invariant MatchesFrom(tokens, 0, text, 0) <==> Remaining(tokens, text, p, t, star, starText)
      decreases if star.None? then |tokens| + 1 else |tokens| - star.value, |text| - starText, |text| - t
    {
      if p < |tokens| && tokens[p].Star? {
        StarForgets(tokens, text, p, t, star, starText);
        star, p, starText := Some(p), p + 1, t;
      } else if p < |tokens| && Accepts(tokens[p], text[t]) {
        p, t := p + 1, t + 1;
      } else if star.Some? {
        starText := starText + 1;
        t, p := starText, star.value + 1;
      } else {
        return false;
      }
    }
    NoRetryAtEnd(tokens, text, p, star, starText);
    ghost var p0: nat := p;
    while p < |tokens| && tokens[p].Star?
      invariant p0 <= p <= |tokens|
      invariant MatchesFrom(tokens, p0, text, t) <==> MatchesFrom(tokens, p, text, t)
    {
      p := p + 1;
    }
    return p == |tokens|;
  }

  /** The matcher of COMMAND LIST reads the pattern bytes directly. */
  function SimpleToken(x: byte): GlobToken {
    if x == STAR then Star else if x == QUESTION then AnyByte else Literal(x)
  }

  function SimpleTokens(pattern: bytes): (r: seq<GlobToken>)
    ensures |r| == |pattern|
  {
    seq(|pattern|, i requires 0 <= i < |pattern| => SimpleToken(pattern[i]))
  }

  predicate OnlyStars(pattern: bytes, p: nat) {
    forall i :: p <= i < |pattern| ==> pattern[i] == STAR
  }

  /** Its loop: equal bytes are tried first, so a star in the pattern is spent on a star in the value
      before it is tried as a wildcard. */
  predicate SimpleFrom(pattern: bytes, value: bytes, p: nat, t: nat, star: Option<nat>, retry: nat)
    requires p <= |pattern| && retry <= t <= |value| && (star.Some? ==> star.value < p)
    decreases if star.None? then |pattern| + 1 else |pattern| - star.value, |value| - retry, |value| - t
  {
    if t == |value| then OnlyStars(pattern, p)
    else if p < |pattern| && (pattern[p] == QUESTION || pattern[p] == value[t]) then
      SimpleFrom(pattern, value, p + 1, t + 1, star, retry)
    else if p < |pattern| && pattern[p] == STAR then SimpleFrom(pattern, value, p + 1, t, Some(p), t)
    else if star.Some? then SimpleFrom(pattern, value, star.value + 1, retry + 1, star, retry + 1)
    else false
  }

  predicate SimpleRun(pattern: bytes, value: bytes) {
    SimpleFrom(pattern, value, 0, 0, None, 0)
  }

  method SimpleGlobMatches(pattern: bytes, value: bytes) returns (r: bool)
    ensures r == SimpleRun(pattern, value)
    ensures r ==> Matches(SimpleTokens(pattern), value)
    ensures STAR !in value ==> (r <==> Matches(SimpleTokens(pattern), value))
  {
    hide Matches;
    SimpleIsSound(pattern, value);
    SimpleIsComplete(pattern, value);
    var p: nat, t: nat := 0, 0;
    var star: Option<nat> := None;
    var retry: nat := 0;
    while t < |value|
      invariant p <= |pattern| && retry <= t <= |value| && (star.Some? ==> star.value < p)
      invariant SimpleFrom(pattern, value, p, t, star, retry) == SimpleRun(pattern, value)
      decreases if star.None? then |pattern| + 1 else |pattern| - star.value, |value| - retry, |value| - t
    {
      if p < |pattern| && (pattern[p] == QUESTION || pattern[p] == value[t]) {
        p, t := p + 1, t + 1;
      } else if p < |pattern| && pattern[p] == STAR {
        star, p, retry := Some(p), p + 1, t;
      } else if star.Some? {
        p := star.value + 1;
        retry := retry + 1;
        t := retry;
      } else {
        return false;
      }
    }
    while p < |pattern| && pattern[p] == STAR
      invariant p <= |pattern| && OnlyStars(pattern, p) == SimpleRun(pattern, value)
    {
      p := p + 1;
    }
    return p == |pattern|;
  }

  lemma {:induction false} StarsTakeNothing(pattern: bytes, p: nat, value: bytes)
    requires p <= |pattern|
    ensures MatchesFrom(SimpleTokens(pattern), p, value, |value|) <==> OnlyStars(pattern, p)
    decreases |pattern| - p
  {
    var tokens := SimpleTokens(pattern);
    if p < |pattern| && pattern[p] == STAR {
      StarsTakeNothing(pattern, p + 1, value);
      assert MatchesLater(tokens, p + 1, value, |value|) <==> MatchesFrom(tokens, p + 1, value, |value|);
    }
  }

  lemma {:induction false} SimpleFromIsSound(pattern: bytes, value: bytes, p: nat, t: nat,
                                             star: Option<nat>, retry: nat)
    requires p <= |pattern| && retry <= t <= |value| && (star.Some? ==> star.value < p)
    requires SimpleFrom(pattern, value, p, t, star, retry)
    ensures Remaining(SimpleTokens(pattern), value, p, t, star, retry)
    decreases if star.None? then |pattern| + 1 else |pattern| - star.value, |value| - retry, |value| - t
  {
    var tokens := SimpleTokens(pattern);
    if t == |value| {
      StarsTakeNothing(pattern, p, value);
    } else if p < |pattern| && (pattern[p] == QUESTION || pattern[p] == value[t]) {
      SimpleFromIsSound(pattern, value, p + 1, t + 1, star, retry);
      if MatchesFrom(tokens, p + 1, value, t + 1) && pattern[p] == STAR {
        assert MatchesLater(tokens, p + 1, value, t);
      }
    } else if p < |pattern| && pattern[p] == STAR {
      SimpleFromIsSound(pattern, value, p + 1, t, Some(p), t);
      assert MatchesLater(tokens, p + 1, value, t);
    } else if star.Some? {
      SimpleFromIsSound(pattern, value, star.value + 1, retry + 1, star, retry + 1);
      assert MatchesLater(tokens, star.value + 1, value, retry + 1);
    }
  }

  /** Whatever it accepts does match. */
  lemma SimpleIsSound(pattern: bytes, value: bytes)
    ensures SimpleRun(pattern, value) ==> Matches(SimpleTokens(pattern), value)
  {
    hide Matches;
    MatchesIsRecursive(SimpleTokens(pattern), value);
    if SimpleRun(pattern, value) {
      SimpleFromIsSound(pattern, value, 0, 0, None, 0);
    }
  }

  lemma {:induction false} SimpleFromIsComplete(pattern: bytes, value: bytes, p: nat, t: nat,
                                                star: Option<nat>, retry: nat)
    requires p <= |pattern| && retry <= t <= |value| && (star.Some? ==> star.value < p)
    requires STAR !in value && InStep(SimpleTokens(pattern), value, p, t, star, retry)
    requires Remaining(SimpleTokens(pattern), value, p, t, star, retry)
    ensures SimpleFrom(pattern, value, p, t, star, retry)
    decreases if star.None? then |pattern| + 1 else |pattern| - star.value, |value| - retry, |value| - t
  {
    var tokens := SimpleTokens(pattern);
    if t == |value| {
      NoRetryAtEnd(tokens, value, p, star, retry);
      StarsTakeNothing(pattern, p, value);
    } else if p < |pattern| && (pattern[p] == QUESTION || pattern[p] == value[t]) {
      assert !tokens[p].Star? && Accepts(tokens[p], value[t]);
      SimpleFromIsComplete(pattern, value, p + 1, t + 1, star, retry);
    } else if p < |pattern| && pattern[p] == STAR {
      StarForgets(tokens, value, p, t, star, retry);
      SimpleFromIsComplete(pattern, value, p + 1, t, Some(p), t);
    } else {
      assert !MatchesFrom(tokens, p, value, t);
      var k := LaterStart(tokens, star.value + 1, value, retry + 1);
      assert MatchesFrom(tokens, star.value + 1, value, retry + 1)
             || MatchesLater(tokens, star.value + 1, value, retry + 2);
      SimpleFromIsComplete(pattern, value, star.value + 1, retry + 1, star, retry + 1);
    }
  }

  lemma SimpleIsComplete(pattern: bytes, value: bytes)
    ensures STAR !in value && Matches(SimpleTokens(pattern), value) ==> SimpleRun(pattern, value)
  {
    hide Matches;
    MatchesIsRecursive(SimpleTokens(pattern), value);
    if STAR !in value && Matches(SimpleTokens(pattern), value) {
      SimpleFromIsComplete(pattern, value, 0, 0, None, 0);
    }
  }

  /** A pattern that starts with bytes of the value gets through them in step, either way. */
  lemma {:induction false} SamePrefix(pattern: bytes, value: bytes, j: nat, i: nat)
    requires j <= i <= |pattern| && i <= |value| && pattern[..i] == value[..i] && STAR !in value[..i]
    ensures SimpleFrom(pattern, value, j, j, None, 0) == SimpleFrom(pattern, value, i, i, None, 0)
    ensures MatchesFrom(SimpleTokens(pattern), i, value, i) ==> MatchesFrom(SimpleTokens(pattern), j, value, j)
    decreases i - j
  {
    if j < i {
      assert pattern[..i][j] == value[..i][j];
      assert value[..i][j] in value[..i];
      SamePrefix(pattern, value, j + 1, i);
    }
  }

  /** It misses matches on every value that holds a star. */
  lemma StarInValueIsMissed(value: bytes, i: nat) returns (pattern: bytes)
    requires i < |value| && value[i] == STAR && STAR !in value[..i]
    ensures Matches(SimpleTokens(pattern), value) && !SimpleRun(pattern, value)
  {
    hide Matches;
    pattern := value[..i] + if i + 1 < |value| then [STAR] else [STAR, QUESTION];
    var tokens := SimpleTokens(pattern);
    assert pattern[..i] == value[..i];
    SamePrefix(pattern, value, 0, i);
    MatchesIsRecursive(tokens, value);
    assert i + 1 == |value| ==> pattern[i + 1] == QUESTION;
    assert !SimpleFrom(pattern, value, i + 1, i + 1, None, 0);
    if i + 1 < |value| {
      assert MatchesFrom(tokens, i + 1, value, |value|);
    } else {
      assert MatchesFrom(tokens, i + 2, value, i + 1);
      assert MatchesFrom(tokens, i + 1, value, i);
    }
    assert MatchesLater(tokens, i + 1, value, i);
  }

  lemma FirstStar(value: bytes, n: nat) returns (i: nat)
    requires n < |value| && value[n] == STAR
    ensures i <= n && value[i] == STAR && STAR !in value[..i]
  {
    i := 0;
    while value[i] != STAR
      invariant i <= n && STAR !in value[..i]
      decreases n - i
    {
      i := i + 1;
    }
  }

  /** It agrees with the meaning of every pattern exactly on the values without a star. */
  lemma SimpleMatcherExact(value: bytes)
    ensures (forall pattern :: SimpleRun(pattern, value) <==> Matches(SimpleTokens(pattern), value)) <==> STAR !in value
  {
    hide SimpleRun;
    hide Matches;
    if STAR in value {
      var n :| 0 <= n < |value| && value[n] == STAR;
      var i := FirstStar(value, n);
      var pattern := StarInValueIsMissed(value, i);
    } else {
      forall pattern
        ensures SimpleRun(pattern, value) <==> Matches(SimpleTokens(pattern), value)
      {
        SimpleIsSound(pattern, value);
        SimpleIsComplete(pattern, value);
      }
    }
  }
}
