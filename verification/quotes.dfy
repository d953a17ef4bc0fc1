/** When an inline line can be read: quotes checked by an automaton that takes one byte at a time.

    The parser looks ahead, decodes escapes and loops per argument; the automaton does none of that.
    They accept the same lines. */
module Quotes {
  import opened Bytes
  import opened Frames
  import opened Scanner
  import opened Inline

  datatype Mode =
    | Between             // outside any argument
    | Plain               // in an argument, outside quotes
    | InDouble
    | DoubleEscape        // behind a backslash in double quotes
    | InSingle
    | SingleEscape        // behind a backslash in single quotes
    | Closed              // right behind a closing quote
    | Broken

  function Step(mode: Mode, x: byte): Mode {
    match mode
    case Between => Opening(x)
    case Plain => Opening(x)
    case InDouble => if x == BACKSLASH then DoubleEscape else if x == QUOTE then Closed else InDouble
    case DoubleEscape => InDouble
    case InSingle => if x == BACKSLASH then SingleEscape else if x == APOSTROPHE then Closed else InSingle
    case SingleEscape => if x == BACKSLASH then SingleEscape else InSingle
    case Closed => if InlineBlank(x) then Between else Broken
    case Broken => Broken
  }

  function Opening(x: byte): Mode {
    if InlineBlank(x) then Between else if x == QUOTE then InDouble else if x == APOSTROPHE then InSingle else Plain
  }

  /** May a line end in this mode? */
  predicate Good(mode: Mode) {
    mode.Between? || mode.Plain? || mode.Closed?
  }

  /** The rest of the line from `i` on leaves the automaton in a good mode. */
  predicate GoodFrom(line: bytes, i: nat, mode: Mode)
    requires i <= |line|
    decreases |line| - i
  {
    if i == |line| then Good(mode) else GoodFrom(line, i + 1, Step(mode, line[i]))
  }

  /** How many arguments begin from `i` on. */
  function BegunFrom(line: bytes, i: nat, mode: Mode): nat
    requires i <= |line|
    decreases |line| - i
  {
    if i == |line| then 0
    else (if mode.Between? && !InlineBlank(line[i]) then 1 else 0) + BegunFrom(line, i + 1, Step(mode, line[i]))
  }

  predicate WellQuoted(line: bytes) {
    GoodFrom(line, 0, Between)
  }

  function ArgumentCount(line: bytes): nat {
    BegunFrom(line, 0, Between)
  }

  lemma {:induction false} BrokenStays(line: bytes, i: nat)
    requires i <= |line|
    ensures !GoodFrom(line, i, Broken)
    decreases |line| - i
  {
    if i < |line| {
      BrokenStays(line, i + 1);
    }
  }

  function ModeOf(quoting: Quoting): Mode {
    match quoting
    case Bare => Plain
    case DoubleQuoted => InDouble
    case SingleQuoted => InSingle
  }

  /** From `i` on, in the one mode, the automaton does what it does from `j` on between arguments. */
  predicate SameAs(line: bytes, i: nat, mode: Mode, j: nat, mode': Mode)
    requires i <= |line| && j <= |line|
  {
    GoodFrom(line, i, mode) == GoodFrom(line, j, mode') && BegunFrom(line, i, mode) == BegunFrom(line, j, mode')
  }

  lemma OneStep(line: bytes, i: nat, mode: Mode)
    requires i < |line| && !mode.Between?
    ensures SameAs(line, i, mode, i + 1, Step(mode, line[i]))
  {
  }

  /** A backslash in single quotes means itself unless a quote follows. */
  lemma EscapeOfNothing(line: bytes, i: nat)
    requires i <= |line| && (i < |line| ==> line[i] != APOSTROPHE)
    ensures SameAs(line, i, SingleEscape, i, InSingle)
  {
    if i < |line| {
      OneStep(line, i, SingleEscape);
      OneStep(line, i, InSingle);
    }
  }

  /** At the end of the line only some modes are good. */
  lemma EndOfLine(line: bytes, mode: Mode)
    ensures GoodFrom(line, |line|, mode) == Good(mode)
  {
  }

  /** An argument that is read leaves the automaton between arguments; one that is not leaves it in
      a bad mode at the end of the line. */
  lemma {:induction false} TokenIsGood(line: bytes, i: nat, quoting: Quoting, text: bytes)
    requires i <= |line| && NoLineBreak(line)
    ensures var r := ReadToken(line, i, quoting, text);
            if r.Success? then SameAs(line, i, ModeOf(quoting), r.value.next, Between)
            else !GoodFrom(line, i, ModeOf(quoting))
    decreases |line| - i
  {
    if i < |line| {
      match quoting
      case DoubleQuoted => DoubleIsGood(line, i, text);
      case SingleQuoted => SingleIsGood(line, i, text);
      case Bare =>
        if line[i] == QUOTE {
          TokenIsGood(line, i + 1, DoubleQuoted, text);
        } else if line[i] == APOSTROPHE {
          TokenIsGood(line, i + 1, SingleQuoted, text);
        } else if !InlineBlank(line[i]) {
          TokenIsGood(line, i + 1, Bare, text + [line[i]]);
        }
    }
  }

  lemma {:induction false} DoubleIsGood(line: bytes, i: nat, text: bytes)
    requires i < |line| && NoLineBreak(line)
    ensures var r := ReadToken(line, i, DoubleQuoted, text);
            if r.Success? then SameAs(line, i, InDouble, r.value.next, Between) else !GoodFrom(line, i, InDouble)
    decreases |line| - i, 0
  {
    hide GoodFrom;
    hide BegunFrom;
    OneStep(line, i, InDouble);
    EndOfLine(line, DoubleEscape);
    if line[i] == BACKSLASH {
      if HexEscapeAt(line, i) {
        HexStaysInside(line, i);
        TokenIsGood(line, i + 4, DoubleQuoted,
                    text + [16 * HexValue(line[i + 2]).value + HexValue(line[i + 3]).value]);
      } else if i + 1 < |line| {
        OneStep(line, i + 1, DoubleEscape);
        TokenIsGood(line, i + 2, DoubleQuoted, text + [Unescape(line[i + 1])]);
      }
    } else if line[i] == QUOTE {
      CloseIsGood(line, i + 1);
    } else {
      TokenIsGood(line, i + 1, DoubleQuoted, text + [line[i]]);
    }
  }

  lemma HexStaysInside(line: bytes, i: nat)
    requires i < |line| && line[i] == BACKSLASH && HexEscapeAt(line, i)
    ensures SameAs(line, i, InDouble, i + 4, InDouble)
  {
    hide GoodFrom;
    hide BegunFrom;
    OneStep(line, i, InDouble);
    OneStep(line, i + 1, DoubleEscape);
    OneStep(line, i + 2, InDouble);
    OneStep(line, i + 3, InDouble);
  }

  lemma {:induction false} SingleIsGood(line: bytes, i: nat, text: bytes)
    requires i < |line| && NoLineBreak(line)
    ensures var r := ReadToken(line, i, SingleQuoted, text);
            if r.Success? then SameAs(line, i, InSingle, r.value.next, Between) else !GoodFrom(line, i, InSingle)
    decreases |line| - i, 0
  {
    hide GoodFrom;
    hide BegunFrom;
    OneStep(line, i, InSingle);
    if line[i] == BACKSLASH {
      if i + 1 < |line| && line[i + 1] == APOSTROPHE {
        OneStep(line, i + 1, SingleEscape);
        TokenIsGood(line, i + 2, SingleQuoted, text + [APOSTROPHE]);
      } else {
        EscapeOfNothing(line, i + 1);
        TokenIsGood(line, i + 1, SingleQuoted, text + [line[i]]);
      }
    } else if line[i] == APOSTROPHE {
      CloseIsGood(line, i + 1);
    } else {
      TokenIsGood(line, i + 1, SingleQuoted, text + [line[i]]);
    }
  }

  /** Behind a closing quote only a blank or the end of the line is good. */
  lemma CloseIsGood(line: bytes, i: nat)
    requires i <= |line|
    ensures if i == |line| || InlineBlank(line[i]) then SameAs(line, i, Closed, i, Between)
            else !GoodFrom(line, i, Closed)
  {
    if i < |line| {
      BrokenStays(line, i + 1);
    }
  }

  lemma {:induction false} BlanksAreBetween(line: bytes, i: nat)
    requires i <= |line|
    ensures SameAs(line, i, Between, SkipBlanks(line, i), Between)
    decreases |line| - i
  {
    if i < |line| && InlineBlank(line[i]) {
      BlanksAreBetween(line, i + 1);
    }
  }

  lemma {:induction false} ArgumentsAreGood(line: bytes, i: nat, arguments: seq<bytes>)
    requires i <= |line| && NoLineBreak(line) && |arguments| <= MAX_ARRAY_ELEMENTS
    ensures var r := ReadArguments(line, i, arguments);
            && (r.Success? <==> GoodFrom(line, i, Between)
                                && |arguments| + BegunFrom(line, i, Between) <= MAX_ARRAY_ELEMENTS)
            && (r.Success? ==> |r.value| == |arguments| + BegunFrom(line, i, Between))
    decreases |line| - i
  {
    hide GoodFrom;
    hide BegunFrom;
    hide ReadToken;
    var j := SkipBlanks(line, i);
    BlanksAreBetween(line, i);
    EndIsGood(line);
    if j < |line| {
      TokenIsGood(line, j, Bare, []);
      ArgumentBegins(line, j);
      var token := ReadToken(line, j, Bare, []);
      if token.Success? && |arguments| + 1 <= MAX_ARRAY_ELEMENTS {
        var next := SkipBlanks(line, token.value.next);
        BlanksAreBetween(line, token.value.next);
        ArgumentsAreGood(line, next, arguments + [token.value.text]);
      }
    }
  }

  lemma EndIsGood(line: bytes)
    ensures GoodFrom(line, |line|, Between) && BegunFrom(line, |line|, Between) == 0
  {
  }

  lemma ArgumentBegins(line: bytes, j: nat)
    requires j < |line| && !InlineBlank(line[j])
    ensures GoodFrom(line, j, Between) == GoodFrom(line, j, Plain)
    ensures BegunFrom(line, j, Between) == 1 + BegunFrom(line, j, Plain)
  {
  }

  /** A line without breaks is read if and only if it is well quoted and has no more arguments than
      the limit; it is then read into that many. */
  lemma ReadableLines(line: bytes)
    requires NoLineBreak(line)
    ensures var r := ReadArguments(line, 0, []);
            && (r.Success? <==> WellQuoted(line) && ArgumentCount(line) <= MAX_ARRAY_ELEMENTS)
            && (r.Success? ==> |r.value| == ArgumentCount(line))
  {
    ArgumentsAreGood(line, 0, []);
  }
}
