/** Arguments of an inline command: blanks, quotes and escapes. */
module Inline {
  import opened Bytes
  import opened Frames
  import opened Scanner

  datatype InlineError =
    | UnbalancedQuotes
    | InvalidEscape
    | QuoteNotFollowedByBlank
    | ControlCharacter
    | TooManyArguments

  datatype Quoting = Bare | DoubleQuoted | SingleQuoted

  datatype Token = Token(text: bytes, next: nat)

  function HexValue(x: byte): (r: Option<nat>)
    ensures r.Some? ==> r.value < 16
  {
    if ZERO <= x <= NINE then Some(x - ZERO)
    else if 97 <= x <= 102 then Some(x - 97 + 10)
    else if 65 <= x <= 70 then Some(x - 65 + 10)
    else None
  }

  function Unescape(x: byte): byte {
    if x == 110 then LF
    else if x == 114 then CR
    else if x == 116 then 9
    else if x == 98 then 8
    else if x == 97 then 7
    else x
  }

  predicate HexEscapeAt(line: bytes, i: nat) {
    i + 3 < |line| && line[i + 1] == 120 && HexValue(line[i + 2]).Some? && HexValue(line[i + 3]).Some?
  }

  /** End of a quoted argument: it must be followed by a blank or by nothing. */
  function CloseQuote(line: bytes, i: nat, text: bytes): (r: Result<Token, InlineError>)
    requires i < |line|
    ensures r.Success? ==> r.value == Token(text, i + 1)
  {
    if i + 1 < |line| && !InlineBlank(line[i + 1]) then Failure(QuoteNotFollowedByBlank)
    else Success(Token(text, i + 1))
  }

  /** The rest of an argument from position `i`, with `text` read so far. */
  function ReadToken(line: bytes, i: nat, quoting: Quoting, text: bytes): (r: Result<Token, InlineError>)
    requires i <= |line|
    ensures r.Success? ==> i <= r.value.next <= |line|
    ensures r.Success? && i < |line| && !InlineBlank(line[i]) ==> i < r.value.next
    decreases |line| - i
  {
    if i == |line| then
      if quoting.Bare? then Success(Token(text, i)) else Failure(UnbalancedQuotes)
    else match quoting
      case DoubleQuoted =>
        if line[i] == BACKSLASH then
          if i + 1 == |line| then Failure(InvalidEscape)
          else if HexEscapeAt(line, i) then
            ReadToken(line, i + 4, DoubleQuoted,
                      text + [16 * HexValue(line[i + 2]).value + HexValue(line[i + 3]).value])
          else ReadToken(line, i + 2, DoubleQuoted, text + [Unescape(line[i + 1])])
        else if line[i] == QUOTE then CloseQuote(line, i, text)
        else ReadToken(line, i + 1, DoubleQuoted, text + [line[i]])
      case SingleQuoted =>
        if line[i] == BACKSLASH && i + 1 < |line| && line[i + 1] == APOSTROPHE then
          ReadToken(line, i + 2, SingleQuoted, text + [APOSTROPHE])
        else if line[i] == APOSTROPHE then CloseQuote(line, i, text)
        else ReadToken(line, i + 1, SingleQuoted, text + [line[i]])
      case Bare =>
        if line[i] == QUOTE then ReadToken(line, i + 1, DoubleQuoted, text)
        else if line[i] == APOSTROPHE then ReadToken(line, i + 1, SingleQuoted, text)
        else if InlineBlank(line[i]) then Success(Token(text, i))
        else if line[i] == CR || line[i] == LF then Failure(ControlCharacter)
        else ReadToken(line, i + 1, Bare, text + [line[i]])
  }

  function SkipBlanks(line: bytes, i: nat): (j: nat)
    requires i <= |line|
    ensures i <= j <= |line| && AllBlank(line[i..j])
    ensures j < |line| ==> !InlineBlank(line[j])
    decreases |line| - i
  {
    if i == |line| || !InlineBlank(line[i]) then i
    else
      var j := SkipBlanks(line, i + 1);
      assert line[i..j] == [line[i]] + line[i + 1..j];
      j
  }

  /** The remaining arguments from position `i`, after `arguments` were read. */
  function ReadArguments(line: bytes, i: nat, arguments: seq<bytes>): (r: Result<seq<bytes>, InlineError>)
    requires i <= |line|
    ensures r.Success? ==> |arguments| <= |r.value|
    decreases |line| - i
  {
    var j := SkipBlanks(line, i);
    if j == |line| then Success(arguments)
    else
      var token := ReadToken(line, j, Bare, []);
      if token.Failure? then Failure(token.error)
      else if |arguments| + 1 > MAX_ARRAY_ELEMENTS then Failure(TooManyArguments)
      else ReadArguments(line, SkipBlanks(line, token.value.next), arguments + [token.value.text])
  }

  /** The nested loops that the server runs over one inline line. */
  method ParseInlineArguments(line: bytes) returns (r: Result<seq<bytes>, InlineError>)
    ensures r == ReadArguments(line, 0, [])
  {
    var arguments: seq<bytes> := [];
    var index := 0;
    while index < |line|
      invariant index <= |line|
      invariant ReadArguments(line, 0, []) == ReadArguments(line, index, arguments)
    {
      index := SkipLoop(line, index);
      if index == |line| {
        break;
      }
      var argument := ReadTokenLoop(line, index);
      if argument.Failure? {
        return Failure(argument.error);
      }
      arguments := arguments + [argument.value.text];
      if |arguments| > MAX_ARRAY_ELEMENTS {
        return Failure(TooManyArguments);
      }
      index := SkipLoop(line, argument.value.next);
    }
    return Success(arguments);
  }

  method SkipLoop(line: bytes, start: nat) returns (index: nat)
    requires start <= |line|
    ensures index == SkipBlanks(line, start)
  {
    index := start;
    while index < |line| && InlineBlank(line[index])
      invariant index <= |line| && SkipBlanks(line, start) == SkipBlanks(line, index)
    {
      index := index + 1;
    }
  }

  method ReadTokenLoop(line: bytes, start: nat) returns (r: Result<Token, InlineError>)
    requires start <= |line|
    ensures r == ReadToken(line, start, Bare, [])
  {
    var index, quoting := start, Bare;
    var argument: bytes := [];
    while index < |line|
      invariant index <= |line|
      invariant ReadToken(line, start, Bare, []) == ReadToken(line, index, quoting, argument)
    {
      var byte := line[index];
      if quoting.DoubleQuoted? {
        if byte == BACKSLASH {
          if index + 1 == |line| {
            return Failure(InvalidEscape);
          } else if HexEscapeAt(line, index) {
            var high, low := HexValue(line[index + 2]).value, HexValue(line[index + 3]).value;
            argument, index := argument + [16 * high + low], index + 4;
          } else {
            argument, index := argument + [Unescape(line[index + 1])], index + 2;
          }
        } else if byte == QUOTE {
          return CloseQuote(line, index, argument);
        } else {
          argument, index := argument + [byte], index + 1;
        }
      } else if quoting.SingleQuoted? {
        if byte == BACKSLASH && index + 1 < |line| && line[index + 1] == APOSTROPHE {
          argument, index := argument + [APOSTROPHE], index + 2;
        } else if byte == APOSTROPHE {
          return CloseQuote(line, index, argument);
        } else {
          argument, index := argument + [byte], index + 1;
        }
      } else if byte == QUOTE {
        quoting, index := DoubleQuoted, index + 1;
      } else if byte == APOSTROPHE {
        quoting, index := SingleQuoted, index + 1;
      } else if InlineBlank(byte) {
        return Success(Token(argument, index));
      } else if byte == CR || byte == LF {
        return Failure(ControlCharacter);
      } else {
        argument, index := argument + [byte], index + 1;
      }
    }
    return if quoting.Bare? then Success(Token(argument, index)) else Failure(UnbalancedQuotes);
  }

  /** On a line without breaks the control-character fault cannot arise. */
  lemma {:induction false} NoControlFaultInToken(line: bytes, i: nat, quoting: Quoting, text: bytes)
    requires i <= |line| && NoLineBreak(line)
    ensures ReadToken(line, i, quoting, text) != Failure(ControlCharacter)
    decreases |line| - i
  {
    if i < |line| {
      match quoting
      case DoubleQuoted =>
        if line[i] == BACKSLASH && i + 1 < |line| {
          if HexEscapeAt(line, i) {
            NoControlFaultInToken(line, i + 4, DoubleQuoted,
                                  text + [16 * HexValue(line[i + 2]).value + HexValue(line[i + 3]).value]);
          } else {
            NoControlFaultInToken(line, i + 2, DoubleQuoted, text + [Unescape(line[i + 1])]);
          }
        } else {
          NoControlFaultInToken(line, i + 1, DoubleQuoted, text + [line[i]]);
        }
      case SingleQuoted =>
        if line[i] == BACKSLASH && i + 1 < |line| && line[i + 1] == APOSTROPHE {
          NoControlFaultInToken(line, i + 2, SingleQuoted, text + [APOSTROPHE]);
        } else {
          NoControlFaultInToken(line, i + 1, SingleQuoted, text + [line[i]]);
        }
      case Bare =>
        NoControlFaultInToken(line, i + 1, DoubleQuoted, text);
        NoControlFaultInToken(line, i + 1, SingleQuoted, text);
        NoControlFaultInToken(line, i + 1, Bare, text + [line[i]]);
    }
  }

  lemma {:induction false} NoControlFault(line: bytes, i: nat, arguments: seq<bytes>)
    requires i <= |line| && NoLineBreak(line)
    ensures ReadArguments(line, i, arguments) != Failure(ControlCharacter)
    decreases |line| - i
  {
    var j := SkipBlanks(line, i);
    if j < |line| {
      NoControlFaultInToken(line, j, Bare, []);
      var token := ReadToken(line, j, Bare, []);
      if token.Success? {
        NoControlFault(line, SkipBlanks(line, token.value.next), arguments + [token.value.text]);
      }
    }
  }

  // Quoting with hexadecimal escapes, the inverse of parsing.

  function HexDigit(n: nat): (x: byte)
    requires n < 16
    ensures HexValue(x) == Some(n)
  {
    if n < 10 then ZERO + n else 97 + n - 10
  }

  function HexEscape(x: byte): (r: bytes)
    ensures |r| == 4
  {
    [BACKSLASH, 120, HexDigit(x / 16), HexDigit(x % 16)]
  }

  function EscapeAll(s: bytes): (r: bytes) {
    if s == [] then [] else HexEscape(s[0]) + EscapeAll(s[1..])
  }

  function QuoteArgument(s: bytes): (r: bytes) {
    [QUOTE] + EscapeAll(s) + [QUOTE]
  }

  /** Each argument quoted and preceded by a space. */
  function QuoteTail(arguments: seq<bytes>): bytes {
    if arguments == [] then [] else [SPACE] + QuoteArgument(arguments[0]) + QuoteTail(arguments[1..])
  }

  /** The arguments quoted and joined by spaces. */
  function QuoteLine(arguments: seq<bytes>): bytes {
    if arguments == [] then [] else QuoteArgument(arguments[0]) + QuoteTail(arguments[1..])
  }

  /** Reading inside the quotes gives the escaped bytes back. */
  lemma {:induction false} ReadEscaped(before: bytes, s: bytes, after: bytes, text: bytes)
    requires after != [] ==> InlineBlank(after[0])
    ensures var line := before + EscapeAll(s) + [QUOTE] + after;
            ReadToken(line, |before|, DoubleQuoted, text) ==
            Success(Token(text + s, |before| + |EscapeAll(s)| + 1))
    decreases |s|
  {
    var line := before + EscapeAll(s) + [QUOTE] + after;
    if s == [] {
      assert line[|before|] == QUOTE;
      assert text + s == text;
      assert after != [] ==> line[|before| + 1] == after[0];
    } else {
      var e := HexEscape(s[0]);
      assert line == (before + e) + EscapeAll(s[1..]) + [QUOTE] + after;
      assert line[|before|..|before| + 4] == e;
      assert line[|before|] == e[0] && line[|before| + 1] == e[1];
      assert line[|before| + 2] == e[2] && line[|before| + 3] == e[3];
      ReadEscaped(before + e, s[1..], after, text + [s[0]]);
      assert text + [s[0]] + s[1..] == text + s;
    }
  }

  lemma {:induction false} ReadQuoted(before: bytes, s: bytes, after: bytes)
    requires after != [] ==> InlineBlank(after[0])
    ensures var line := before + QuoteArgument(s) + after;
            ReadToken(line, |before|, Bare, []) == Success(Token(s, |before| + |QuoteArgument(s)|))
  {
    var line := before + QuoteArgument(s) + after;
    assert line == (before + [QUOTE]) + EscapeAll(s) + [QUOTE] + after;
    assert line[|before|] == QUOTE;
    ReadEscaped(before + [QUOTE], s, after, []);
    assert [] + s == s;
  }

  /** One step of reading, given what the next token is. */
  lemma ReadStep(line: bytes, i: nat, token: Token, done: seq<bytes>)
    requires i <= |line| && SkipBlanks(line, i) < |line| && |done| <= MAX_ARRAY_ELEMENTS
    requires ReadToken(line, SkipBlanks(line, i), Bare, []) == Success(token)
    ensures ReadArguments(line, i, done) ==
            if |done| == MAX_ARRAY_ELEMENTS then Failure(TooManyArguments)
            else ReadArguments(line, token.next, done + [token.text])
  {
    var next := SkipBlanks(line, token.next);
    assert SkipBlanks(line, next) == next;
  }

  lemma ReadEnd(line: bytes, done: seq<bytes>)
    ensures ReadArguments(line, |line|, done) == Success(done)
  {
  }

  /** Reading quoted arguments: they all come back, unless there are too many. */
  lemma {:induction false} ReadQuotedTail(before: bytes, arguments: seq<bytes>, done: seq<bytes>)
    requires |done| <= MAX_ARRAY_ELEMENTS
    ensures ReadArguments(before + QuoteTail(arguments), |before|, done) ==
            if |done| + |arguments| <= MAX_ARRAY_ELEMENTS then Success(done + arguments)
            else Failure(TooManyArguments)
    decreases |arguments|
  {
    hide ReadToken;
    hide ReadArguments;
    var line := before + QuoteTail(arguments);
    if arguments == [] {
      ReadEnd(line, done);
      assert line == before && done + arguments == done;
    } else {
      var q := QuoteArgument(arguments[0]);
      var after := QuoteTail(arguments[1..]);
      assert line == (before + [SPACE]) + q + after;
      assert line[|before|] == SPACE && line[|before| + 1] == QUOTE;
      assert SkipBlanks(line, |before|) == |before| + 1;
      ReadQuoted(before + [SPACE], arguments[0], after);
      ReadStep(line, |before|, Token(arguments[0], |before| + 1 + |q|), done);
      if |done| < MAX_ARRAY_ELEMENTS {
        assert line == (before + [SPACE] + q) + after;
        ReadQuotedTail(before + [SPACE] + q, arguments[1..], done + [arguments[0]]);
        MoveHead(done, arguments);
      }
    }
  }

  lemma ReadQuotedLine(arguments: seq<bytes>)
    ensures ReadArguments(QuoteLine(arguments), 0, []) ==
            if |arguments| <= MAX_ARRAY_ELEMENTS then Success(arguments) else Failure(TooManyArguments)
  {
    hide ReadToken;
    if arguments != [] {
      var line := QuoteLine(arguments);
      var q := QuoteArgument(arguments[0]);
      assert line == [] + q + QuoteTail(arguments[1..]);
      assert SkipBlanks(line, 0) == 0;
      ReadQuoted([], arguments[0], QuoteTail(arguments[1..]));
      ReadStep(line, 0, Token(arguments[0], |q|), []);
      ReadQuotedTail(q, arguments[1..], [] + [arguments[0]]);
      assert [] + [arguments[0]] + arguments[1..] == arguments;
    }
  }

  /** Quoting then parsing is the identity exactly on lists within the element limit. */
  lemma QuotedLineRoundTrip(arguments: seq<bytes>)
    ensures ReadArguments(QuoteLine(arguments), 0, []) == Success(arguments)
            <==> |arguments| <= MAX_ARRAY_ELEMENTS
  {
    ReadQuotedLine(arguments);
  }
}
