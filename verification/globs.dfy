/** How glob patterns are written, and what they mean: the grammar of a pattern. */
module GlobGrammar {
  import opened Bytes
  import opened Glob
  import opened Patterns

  /** A byte of a class, as itself or behind a backslash. */
  datatype Sign = Sign(x: byte, escaped: bool)

  /** A member of a class: a byte, or two bytes with a dash between. */
  datatype Member = One(sign: Sign) | Span(first: Sign, last: Sign)

  datatype Element = AnyText | AnyOne | Just(sign: Sign) | OneOf(negated: bool, members: seq<Member>)

  // How they are written.

  function SignText(s: Sign): (r: bytes)
    ensures r != []
  {
    if s.escaped then [92, s.x] else [s.x]
  }

  function MemberText(m: Member): (r: bytes)
    ensures r != []
  {
    match m
    case One(sign) => SignText(sign)
    case Span(first, last) => SignText(first) + ([45] + SignText(last))
  }

  function MembersText(members: seq<Member>): bytes {
    if members == [] then [] else MemberText(members[0]) + MembersText(members[1..])
  }

  function ElementText(e: Element): (r: bytes)
    ensures r != []
  {
    match e
    case AnyText => [42]
    case AnyOne => [63]
    case Just(sign) => SignText(sign)
    case OneOf(negated, members) => Opening(negated) + (MembersText(members) + [93])
  }

  function Opening(negated: bool): bytes {
    if negated then [91, 94] else [91]
  }

  function PatternText(elements: seq<Element>): bytes {
    if elements == [] then [] else ElementText(elements[0]) + PatternText(elements[1..])
  }

  /** In a class a closing bracket and a backslash have to be escaped. */
  predicate GoodSign(s: Sign) {
    s.escaped || (s.x != 93 && s.x != 92)
  }

  predicate DashFollows(after: bytes) {
    |after| >= 2 && after[0] == 45 && after[1] != 93
  }

  predicate GoodMember(m: Member, after: bytes) {
    match m
    case One(sign) => GoodSign(sign) && !DashFollows(after)
    case Span(first, last) => GoodSign(first) && GoodSign(last)
  }

  predicate GoodMembers(members: seq<Member>) {
    members == [] || (GoodMember(members[0], MembersText(members[1..]) + [93]) && GoodMembers(members[1..]))
  }

  /** Outside a class a star, a question mark and an opening bracket have to be escaped, and so has a
      backslash unless it ends the pattern. A class that begins with a caret is negated. */
  predicate GoodElement(e: Element, last: bool) {
    match e
    case AnyText => true
    case AnyOne => true
    case Just(s) => s.escaped || (s.x != 42 && s.x != 63 && s.x != 91 && (s.x == 92 ==> last))
    case OneOf(negated, members) => GoodMembers(members) && (negated || (MembersText(members) + [93])[0] != 94)
  }

  predicate GoodElements(elements: seq<Element>) {
    forall i :: 0 <= i < |elements| ==> GoodElement(elements[i], i == |elements| - 1)
  }

  // What they mean.

  /** A byte, or every byte between two, whichever of the two is larger. */
  predicate Holds(m: Member, x: byte) {
    match m
    case One(sign) => x == sign.x
    case Span(first, last) => first.x <= x <= last.x || last.x <= x <= first.x
  }

  predicate InClass(members: seq<Member>, x: byte) {
    exists i :: 0 <= i < |members| && Holds(members[i], x)
  }

  ghost predicate Means(elements: seq<Element>, text: bytes) {
    if elements == [] then text == []
    else if elements[0].AnyText? then exists k :: 0 <= k <= |text| && Means(elements[1..], text[k..])
    else text != [] && MeansByte(elements[0], text[0]) && Means(elements[1..], text[1..])
  }

  predicate MeansByte(e: Element, x: byte)
    requires !e.AnyText?
  {
    match e
    case AnyOne => true
    case Just(sign) => x == sign.x
    case OneOf(negated, members) => if negated then !InClass(members, x) else InClass(members, x)
  }

  // Written patterns compile to what they mean.

  function RangeOf(m: Member): Range {
    match m
    case One(sign) => Range(sign.x, sign.x)
    case Span(first, last) => Ordered(first.x, last.x)
  }

  function RangesOf(members: seq<Member>): (r: seq<Range>)
    ensures |r| == |members|
  {
    seq(|members|, i requires 0 <= i < |members| => RangeOf(members[i]))
  }

  function TokenOf(e: Element): GlobToken {
    match e
    case AnyText => Star
    case AnyOne => AnyByte
    case Just(sign) => Literal(sign.x)
    case OneOf(negated, members) => Class(negated, RangesOf(members))
  }

  function TokensOf(elements: seq<Element>): (r: seq<GlobToken>)
    ensures |r| == |elements|
  {
    seq(|elements|, i requires 0 <= i < |elements| => TokenOf(elements[i]))
  }

  lemma SignReads(before: bytes, s: Sign, after: bytes)
    requires GoodSign(s)
    ensures ClassByte(before + (SignText(s) + after), |before|) == Some(Read(s.x, |before| + |SignText(s)|))
  {
    var pattern := before + (SignText(s) + after);
    assert pattern[|before|] == SignText(s)[0];
    assert s.escaped ==> pattern[|before| + 1] == s.x;
  }

  lemma MemberReads(before: bytes, m: Member, after: bytes)
    requires GoodMember(m, after)
    ensures ClassMember(before + (MemberText(m) + after), |before|)
         == Some(Read(RangeOf(m), |before| + |MemberText(m)|))
  {
    hide ClassByte;
    hide SignText;
    var pattern := before + (MemberText(m) + after);
    match m {
      case One(sign) =>
        var next := before + SignText(sign);
        SignReads(before, sign, after);
        Assoc(before, SignText(sign), after);
        assert |after| >= 1 ==> pattern[|next|] == after[0];
        assert |after| >= 2 ==> pattern[|next| + 1] == after[1];
      case Span(first, last) =>
        var next, dash := before + SignText(first), [45] + SignText(last);
        Assoc(SignText(first), dash, after);
        SignReads(before, first, dash + after);
        Assoc(before, SignText(first), dash + after);
        Assoc([45], SignText(last), after);
        Assoc(next, [45], SignText(last) + after);
        assert pattern[|next|] == 45;
        SignReads(next + [45], last, after);
        FirstOfSign(last);
        assert pattern[|next| + 1] == SignText(last)[0];
    }
  }

  lemma FirstOfSign(s: Sign)
    requires GoodSign(s)
    ensures SignText(s)[0] != 93
  {
  }

  lemma FirstOfMember(m: Member, after: bytes)
    requires GoodMember(m, after)
    ensures MemberText(m)[0] != 93
  {
  }

  lemma {:induction false} MembersRead(before: bytes, members: seq<Member>, after: bytes,
                                       negated: bool, done: seq<Range>)
    requires GoodMembers(members)
    ensures ClassBody(before + ((MembersText(members) + [93]) + after), |before|, negated, done)
         == Some(Read(Class(negated, done + RangesOf(members)), |before| + |MembersText(members)| + 1))
    decreases |members|
  {
    hide ClassBody;
    hide ClassMember;
    hide MemberText;
    hide GoodMember;
    var pattern := before + ((MembersText(members) + [93]) + after);
    if members == [] {
      assert pattern[|before|] == 93 && done + RangesOf(members) == done;
      BodyEnd(pattern, |before|, negated, done);
    } else {
      var first, rest := MemberText(members[0]), MembersText(members[1..]) + [93];
      Assoc(first, MembersText(members[1..]), [93]);
      Assoc(first, rest, after);
      Assoc(before, first, rest + after);
      SameDash(members[0], members[1..], after);
      FirstOfMember(members[0], rest + after);
      assert pattern[|before|] == first[0];
      MemberReads(before, members[0], rest + after);
      BodyStep(pattern, |before|, negated, done);
      var range := RangeOf(members[0]);
      MembersRead(before + first, members[1..], after, negated, done + [range]);
      assert (done + [range]) + RangesOf(members[1..]) == done + RangesOf(members);
    }
  }

  /** What follows the closing bracket does not matter to the members. */
  lemma SameDash(m: Member, rest: seq<Member>, after: bytes)
    ensures GoodMember(m, MembersText(rest) + [93]) <==> GoodMember(m, (MembersText(rest) + [93]) + after)
  {
    var tail := MembersText(rest) + [93];
    assert (tail + after)[0] == tail[0];
    assert |tail| >= 2 ==> (tail + after)[1] == tail[1];
    assert |tail| == 1 ==> tail[0] == 93;
  }

  lemma ClassReads(before: bytes, negated: bool, members: seq<Member>, after: bytes)
    requires GoodElement(OneOf(negated, members), false)
    ensures var written := ElementText(OneOf(negated, members));
            ClassAt(before + (written + after), |before|)
            == Some(Read(Class(negated, RangesOf(members)), |before| + |written|))
  {
    hide ClassBody;
    hide MembersText;
    hide GoodMembers;
    var open, body := Opening(negated), MembersText(members) + [93];
    var pattern := before + (ElementText(OneOf(negated, members)) + after);
    Assoc(open, body, after);
    Assoc(before, open, body + after);
    assert pattern[|before| + 1] == if negated then 94 else body[0];
    MembersRead(before + open, members, after, negated, []);
    assert [] + RangesOf(members) == RangesOf(members);
  }

  lemma ElementReads(before: bytes, e: Element, after: bytes)
    requires GoodElement(e, after == [])
    ensures TokenAt(before + (ElementText(e) + after), |before|) == Read(TokenOf(e), |before| + |ElementText(e)|)
  {
    hide ClassBody;
    hide MembersText;
    hide GoodMembers;
    var pattern := before + (ElementText(e) + after);
    assert pattern[|before|] == ElementText(e)[0];
    match e {
      case Just(s) => assert s.escaped ==> pattern[|before| + 1] == s.x;
      case OneOf(negated, members) => ClassReads(before, negated, members, after);
      case _ =>
    }
  }

  lemma {:induction false} ElementsRead(before: bytes, elements: seq<Element>)
    requires GoodElements(elements)
    ensures Tokens(before + PatternText(elements), |before|) == TokensOf(elements)
    decreases |elements|
  {
    hide TokenAt;
    hide Tokens;
    hide ElementText;
    hide GoodElement;
    if elements == [] {
      assert before + [] == before;
      TokensEnd(before);
    } else {
      var first, rest := ElementText(elements[0]), PatternText(elements[1..]);
      TextIsEmpty(elements[1..]);
      ElementReads(before, elements[0], rest);
      Assoc(before, first, rest);
      LaterAreGood(elements);
      ElementsRead(before + first, elements[1..]);
      TokensStep(before + PatternText(elements), |before|);
      assert TokensOf(elements) == [TokenOf(elements[0])] + TokensOf(elements[1..]);
    }
  }

  lemma TextIsEmpty(elements: seq<Element>)
    ensures PatternText(elements) == [] <==> elements == []
  {
  }

  lemma LaterAreGood(elements: seq<Element>)
    requires elements != [] && GoodElements(elements)
    ensures GoodElements(elements[1..])
  {
    hide GoodElement;
    var later := elements[1..];
    forall i | 0 <= i < |later|
      ensures GoodElement(later[i], i == |later| - 1)
    {
      assert later[i] == elements[i + 1];
    }
  }

  lemma ByteIsAccepted(e: Element, x: byte)
    requires !e.AnyText?
    ensures Accepts(TokenOf(e), x) <==> MeansByte(e, x)
  {
    if e.OneOf? {
      RangesAreMembers(e.members, x);
    }
  }

  lemma RangesAreMembers(members: seq<Member>, x: byte)
    ensures InRanges(RangesOf(members), x) <==> InClass(members, x)
  {
    var ranges := RangesOf(members);
    forall i | 0 <= i < |members|
      ensures ranges[i].low <= x <= ranges[i].high <==> Holds(members[i], x)
    {
    }
  }

  lemma {:induction false} TokensMean(elements: seq<Element>, p: nat, text: bytes, t: nat)
    requires p <= |elements| && t <= |text|
    ensures MatchesFrom(TokensOf(elements), p, text, t) <==> Means(elements[p..], text[t..])
    decreases |elements| - p
  {
    hide Accepts;
    hide MeansByte;
    var tokens := TokensOf(elements);
    if p < |elements| {
      var e, p' := elements[p], p + 1;
      assert elements[p..][1..] == elements[p'..];
      if e.AnyText? {
        forall j | 0 <= j <= |text|
          ensures MatchesFrom(tokens, p', text, j) <==> Means(elements[p'..], text[j..])
        {
          TokensMean(elements, p', text, j);
        }
        StarMeans(elements, p, text, t);
      } else if t < |text| {
        TokensMean(elements, p', text, t + 1);
        ByteIsAccepted(e, text[t]);
        assert text[t..][1..] == text[t + 1..];
      }
    }
  }

  lemma StarMeans(elements: seq<Element>, p: nat, text: bytes, t: nat)
    requires p < |elements| && t <= |text| && elements[p].AnyText?
    requires var p', tokens := p + 1, TokensOf(elements);
             forall j :: 0 <= j <= |text| ==> (MatchesFrom(tokens, p', text, j) <==> Means(elements[p'..], text[j..]))
    ensures MatchesFrom(TokensOf(elements), p, text, t) <==> Means(elements[p..], text[t..])
  {
    var p', tokens := p + 1, TokensOf(elements);
    assert elements[p..][1..] == elements[p'..];
    if MatchesFrom(tokens, p, text, t) {
      var j := LaterStart(tokens, p', text, t);
      assert text[t..][j - t..] == text[j..];
      assert Means(elements[p..][1..], text[t..][j - t..]);
    }
    if Means(elements[p..], text[t..]) {
      var k :| 0 <= k <= |text[t..]| && Means(elements[p..][1..], text[t..][k..]);
      assert text[t..][k..] == text[t + k..];
      assert MatchesFrom(tokens, p', text, t + k);
      assert MatchesLater(tokens, p', text, t);
    }
  }

  /** A written pattern matches what it means. */
  lemma WrittenPatternMeans(elements: seq<Element>, text: bytes)
    requires GoodElements(elements)
    ensures PatternMatches(PatternText(elements), text) <==> Means(elements, text)
  {
    hide Tokens;
    hide Matches;
    hide MatchesFrom;
    ElementsRead([], elements);
    assert [] + PatternText(elements) == PatternText(elements);
    MatchesIsRecursive(TokensOf(elements), text);
    TokensMean(elements, 0, text, 0);
    assert elements[0..] == elements && text[0..] == text;
  }

  // Every pattern without an unterminated class was written so.

  function SignAt(pattern: bytes, i: nat): Sign
    requires ClassByte(pattern, i).Some?
  {
    Sign(ClassByte(pattern, i).value.value, pattern[i] == 92)
  }

  lemma SignWasWritten(pattern: bytes, i: nat)
    requires ClassByte(pattern, i).Some? && pattern[i] != 93
    ensures GoodSign(SignAt(pattern, i)) && SignText(SignAt(pattern, i)) == pattern[i..ClassByte(pattern, i).value.next]
  {
  }

  lemma MemberWasWritten(pattern: bytes, i: nat) returns (m: Member)
    requires ClassMember(pattern, i).Some? && pattern[i] != 93
    ensures var next := ClassMember(pattern, i).value.next;
            GoodMember(m, pattern[next..]) && MemberText(m) == pattern[i..next]
  {
    hide ClassByte;
    hide SignText;
    hide GoodSign;
    SignWasWritten(pattern, i);
    var first, next := SignAt(pattern, i), ClassByte(pattern, i).value.next;
    if RangeFollows(pattern, next) {
      SignWasWritten(pattern, next + 1);
      m := Span(first, SignAt(pattern, next + 1));
      var end := ClassMember(pattern, i).value.next;
      assert pattern[i..end] == pattern[i..next] + ([45] + pattern[next + 1..end]);
    } else {
      m := One(first);
      var after := pattern[next..];
      assert |after| >= 2 ==> after[0] == pattern[next] && after[1] == pattern[next + 1];
    }
  }

  lemma {:induction false} MembersWereWritten(pattern: bytes, i: nat, negated: bool, ranges: seq<Range>)
    returns (members: seq<Member>)
    requires ClassBody(pattern, i, negated, ranges).Some?
    ensures GoodMembers(members)
    ensures pattern[i..ClassBody(pattern, i, negated, ranges).value.next] == MembersText(members) + [93]
    decreases |pattern| - i
  {
    hide ClassMember;
    hide GoodMember;
    hide MemberText;
    if pattern[i] == 93 {
      members := [];
    } else {
      var m := MemberWasWritten(pattern, i);
      var read, end := ClassMember(pattern, i).value, ClassBody(pattern, i, negated, ranges).value.next;
      var rest := MembersWereWritten(pattern, read.next, negated, ranges + [read.value]);
      members := [m] + rest;
      assert members[1..] == rest;
      assert pattern[read.next..] == pattern[read.next..end] + pattern[end..];
      SameDash(m, rest, pattern[end..]);
      assert pattern[i..end] == pattern[i..read.next] + pattern[read.next..end];
      Assoc(MemberText(m), MembersText(rest), [93]);
    }
  }

  lemma ElementWasWritten(pattern: bytes, i: nat) returns (e: Element)
    requires i < |pattern| && !TokenAt(pattern, i).value.Never?
    ensures var next := TokenAt(pattern, i).next;
            GoodElement(e, next == |pattern|) && ElementText(e) == pattern[i..next]
  {
    hide ClassBody;
    hide MembersText;
    hide GoodMembers;
    var next := TokenAt(pattern, i).next;
    if pattern[i] == 42 {
      e := AnyText;
    } else if pattern[i] == 63 {
      e := AnyOne;
    } else if pattern[i] == 91 {
      e := ClassWasWritten(pattern, i);
    } else {
      e := Just(Sign(pattern[next - 1], next == i + 2));
      assert next == i + 1 ==> pattern[i..next] == [pattern[i]];
      assert next == i + 2 ==> pattern[i..next] == [92, pattern[i + 1]];
    }
  }

  lemma ClassWasWritten(pattern: bytes, i: nat) returns (e: Element)
    requires i < |pattern| && pattern[i] == 91 && ClassAt(pattern, i).Some?
    ensures GoodElement(e, false) && ElementText(e) == pattern[i..ClassAt(pattern, i).value.next] && e.OneOf?
  {
    hide ClassBody;
    hide MembersText;
    hide GoodMembers;
    var negated := i + 1 < |pattern| && pattern[i + 1] == 94;
    var start, end := if negated then i + 2 else i + 1, ClassAt(pattern, i).value.next;
    var members := MembersWereWritten(pattern, start, negated, []);
    e := OneOf(negated, members);
    assert pattern[i..end] == pattern[i..start] + pattern[start..end];
    assert pattern[i..start] == Opening(negated);
    assert (MembersText(members) + [93])[0] == pattern[start];
  }

  lemma {:induction false} PatternWasWritten(pattern: bytes, i: nat) returns (elements: seq<Element>)
    requires i <= |pattern| && Never !in Tokens(pattern, i)
    ensures GoodElements(elements) && PatternText(elements) == pattern[i..]
    decreases |pattern| - i
  {
    hide TokenAt;
    hide ElementText;
    hide GoodElement;
    if i == |pattern| {
      elements := [];
    } else {
      var next := TokenAt(pattern, i).next;
      var e := ElementWasWritten(pattern, i);
      var rest := PatternWasWritten(pattern, next);
      elements := [e] + rest;
      assert elements[1..] == rest;
      TextIsEmpty(rest);
      assert pattern[i..] == pattern[i..next] + pattern[next..];
    }
  }

  ghost predicate Reading(elements: seq<Element>, pattern: bytes, text: bytes) {
    GoodElements(elements) && PatternText(elements) == pattern && Means(elements, text)
  }

  /** A pattern matches a text if and only if it can be read as elements that mean it. */
  lemma MatchesIffMeant(pattern: bytes, text: bytes)
    ensures PatternMatches(pattern, text) <==> exists elements :: Reading(elements, pattern, text)
  {
    hide Tokens;
    hide Matches;
    hide Means;
    hide GoodElements;
    hide PatternText;
    if PatternMatches(pattern, text) {
      if Never in Tokens(pattern, 0) {
        NeverMatchesNothing(Tokens(pattern, 0), text);
      } else {
        var elements := PatternWasWritten(pattern, 0);
        assert pattern[0..] == pattern;
        WrittenPatternMeans(elements, text);
        assert Reading(elements, pattern, text);
      }
    } else if exists elements :: Reading(elements, pattern, text) {
      var elements :| Reading(elements, pattern, text);
      WrittenPatternMeans(elements, text);
    }
  }

  // Single elements.

  /** A class alone matches one byte: one of its members, or, when negated, none of them. */
  lemma ClassMatches(negated: bool, members: seq<Member>, text: bytes)
    requires GoodElement(OneOf(negated, members), true)
    ensures PatternMatches(Opening(negated) + (MembersText(members) + [93]), text)
            <==> |text| == 1 && (InClass(members, text[0]) <==> !negated)
  {
    hide PatternMatches;
    var elements := [OneOf(negated, members)];
    WrittenPatternMeans(elements, text);
    OnlyOne(elements[0], text);
    assert PatternText(elements) == ElementText(elements[0]) by {
      assert elements[1..] == [];
    }
  }

  lemma OnlyOne(e: Element, text: bytes)
    requires !e.AnyText?
    ensures Means([e], text) <==> |text| == 1 && MeansByte(e, text[0])
  {
    var elements := [e];
    assert elements[1..] == [];
    assert text != [] ==> (text[1..] == [] <==> |text| == 1);
  }
}
