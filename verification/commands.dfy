/** Printed commands read by the zero-copy parsers: every argument comes back, and SET and HSET are
    taken apart at the right places. */
module PlainCommands {
  import opened Bytes
  import opened Frames
  import opened Parser
  import opened Printer
  import opened Borrowed
  import opened Numerals
  import Decimal

  predicate FitsWord(args: Args) {
    |args| <= Decimal.USIZE_MAX && forall i :: 0 <= i < |args| ==> |args[i]| <= Decimal.USIZE_MAX
  }

  predicate AllFit(commands: seq<Args>) {
    forall i :: 0 <= i < |commands| ==> FitsWord(commands[i])
  }

  function CommandText(args: Args): (r: bytes)
    ensures r != []
  {
    Encode(Resp2, Array(BulkStrings(args)))
  }

  function PipelineText(commands: seq<Args>): bytes {
    if commands == [] then [] else CommandText(commands[0]) + PipelineText(commands[1..])
  }

  lemma LengthIsTaken(x: byte, n: nat, s: bytes)
    requires n <= Decimal.USIZE_MAX
    ensures var header := LengthHeader(x, n);
            && (header + s)[0] == x && (header + s)[|header|..] == s
            && LengthLine(header + s) == Some(Taken(n, |header|))
  {
    hide Decimal.Show;
    hide Decimal.Value;
    hide Decimal.ParseUsize;
    var text := Decimal.Show(n);
    var b := LengthHeader(x, n) + s;
    Decimal.DigitsAreAscii(text);
    assert b == [x] + text + CRLF + s;
    FindCrlfAfterLine([x], text, s);
    assert b[1..1 + |text|] == text;
    Decimal.ParseShowUsize(n);
  }

  lemma ArgumentIsTaken(data: bytes, s: bytes)
    requires |data| <= Decimal.USIZE_MAX
    ensures var e := Blob(DOLLAR, data);
            BulkArg(e + s) == Some(Taken(data, |e|)) && (e + s)[|e|..] == s
  {
    hide LengthLine;
    hide LengthHeader;
    var header, rest := LengthHeader(DOLLAR, |data|), data + CRLF + s;
    var b := Blob(DOLLAR, data) + s;
    assert b == header + rest;
    LengthIsTaken(DOLLAR, |data|, rest);
    assert b[|header|..|header| + |data|] == data;
    assert b[|header| + |data|] == CRLF[0] && b[|header| + |data| + 1] == CRLF[1];
  }

  lemma BulkIsBlob(data: bytes)
    ensures Encode(Resp2, BulkString(data)) == Blob(DOLLAR, data)
  {
  }

  lemma {:induction false} ArgumentsAreTaken(args: Args, s: bytes)
    requires FitsWord(args)
    ensures var e := EncodeSeq(Resp2, BulkStrings(args));
            BulkArgs(e + s, |args|) == Some(Taken(args, |e|)) && (e + s)[|e|..] == s
    decreases |args|
  {
    hide BulkArg;
    hide Encode;
    hide Blob;
    var e := EncodeSeq(Resp2, BulkStrings(args));
    if args != [] {
      var first, rest := Blob(DOLLAR, args[0]), EncodeSeq(Resp2, BulkStrings(args[1..]));
      assert BulkStrings(args)[0] == BulkString(args[0]) && BulkStrings(args)[1..] == BulkStrings(args[1..]);
      BulkIsBlob(args[0]);
      Assoc(first, rest, s);
      ArgumentIsTaken(args[0], rest + s);
      ArgumentsAreTaken(args[1..], s);
      assert args == [args[0]] + args[1..];
    }
  }

  lemma CommandIsTaken(args: Args, s: bytes)
    requires FitsWord(args)
    ensures var e := CommandText(args);
            Command(e + s) == Some(Taken(args, |e|)) && (e + s)[|e|..] == s
  {
    hide LengthLine;
    hide LengthHeader;
    hide BulkArgs;
    hide EncodeSeq;
    var header, rest := LengthHeader(STAR, |args|), EncodeSeq(Resp2, BulkStrings(args));
    Assoc(header, rest, s);
    LengthIsTaken(STAR, |args|, rest + s);
    ArgumentsAreTaken(args, s);
  }

  /** Printed commands one after the other are taken as those commands, of any length. */
  lemma {:induction false} PrintedCommandsAreTaken(commands: seq<Args>)
    requires AllFit(commands)
    ensures Commands(PipelineText(commands)) == Some(commands)
    decreases |commands|
  {
    hide Command;
    hide CommandText;
    if commands != [] {
      CommandIsTaken(commands[0], PipelineText(commands[1..]));
      PrintedCommandsAreTaken(commands[1..]);
      assert commands == [commands[0]] + commands[1..];
    }
  }

  // SET and HSET.

  /** SET, letters in either case, a key and a value. */
  predicate IsSet(args: Args, pair: Pair) {
    |args| == 3 && SameLetters(args[0], [115, 101, 116]) && args[1] == pair.first && args[2] == pair.second
  }

  /** HSET, letters in either case, a key, and one or more fields each followed by its value. */
  predicate IsHashSet(args: Args, h: HashSet) {
    && |h.fields| > 0 && |args| == 2 + 2 * |h.fields|
    && SameLetters(args[0], [104, 115, 101, 116]) && args[1] == h.key
    && forall i :: 0 <= i < |h.fields| ==> h.fields[i] == Pair(args[2 + 2 * i], args[3 + 2 * i])
  }

  lemma SetIff(args: Args, pair: Pair)
    ensures AsSet(args) == Some(pair) <==> IsSet(args, pair)
  {
    hide SameLetters;
    if args != [] {
      LettersAreSame(args[0], [115, 101, 116]);
    }
  }

  lemma {:induction false} PairsInTurn(args: Args)
    requires |args| % 2 == 0
    ensures forall i :: 0 <= i < |args| / 2 ==> PairArgs(args)[i] == Pair(args[2 * i], args[2 * i + 1])
    decreases |args|
  {
    if args != [] {
      PairsInTurn(args[2..]);
      forall i | 0 < i < |args| / 2
        ensures PairArgs(args)[i] == Pair(args[2 * i], args[2 * i + 1])
      {
        assert PairArgs(args)[i] == PairArgs(args[2..])[i - 1];
      }
    }
  }

  lemma HashSetIff(args: Args, h: HashSet)
    ensures AsHashSet(args) == Some(h) <==> IsHashSet(args, h)
  {
    hide SameLetters;
    if args != [] {
      LettersAreSame(args[0], [104, 115, 101, 116]);
    }
    if |args| >= 4 && |args| % 2 == 0 {
      var rest := args[2..];
      PairsInTurn(rest);
      forall i | 0 <= i < |rest| / 2
        ensures PairArgs(rest)[i] == Pair(args[2 + 2 * i], args[3 + 2 * i])
      {
        assert rest[2 * i] == args[2 + 2 * i] && rest[2 * i + 1] == args[3 + 2 * i];
      }
      if IsHashSet(args, h) {
        assert h.fields == PairArgs(rest);
      }
    }
  }

  lemma {:induction false} AllConvert<T>(commands: seq<Args>, convert: Args -> Option<T>, results: seq<T>)
    ensures ConvertAll(commands, convert) == Some(results)
            <==> |results| == |commands| && forall i :: 0 <= i < |commands| ==> convert(commands[i]) == Some(results[i])
    decreases |commands|
  {
    if commands != [] {
      var rest := ConvertAll(commands[1..], convert);
      if results != [] {
        AllConvert(commands[1..], convert, results[1..]);
        assert results == [results[0]] + results[1..];
        if ConvertAll(commands, convert) == Some(results) {
          assert results[1..] == rest.value;
        }
      }
    }
  }

  /** The single-pass parser of SET takes a printed pipeline if and only if every command is a plain SET,
      and then gives each its key and its value. */
  lemma PrintedSets(commands: seq<Args>, pairs: seq<Pair>)
    requires AllFit(commands)
    ensures Converted(PipelineText(commands), AsSet) == Some(pairs)
            <==> |pairs| == |commands| && forall i :: 0 <= i < |commands| ==> IsSet(commands[i], pairs[i])
  {
    hide Commands;
    hide ConvertAll;
    PrintedCommandsAreTaken(commands);
    AllConvert(commands, AsSet, pairs);
    forall i | 0 <= i < |commands| && i < |pairs|
      ensures AsSet(commands[i]) == Some(pairs[i]) <==> IsSet(commands[i], pairs[i])
    {
      SetIff(commands[i], pairs[i]);
    }
  }

  /** The same for HSET, its key and its fields with their values in order. */
  lemma PrintedHashSets(commands: seq<Args>, results: seq<HashSet>)
    requires AllFit(commands)
    ensures Converted(PipelineText(commands), AsHashSet) == Some(results)
            <==> |results| == |commands| && forall i :: 0 <= i < |commands| ==> IsHashSet(commands[i], results[i])
  {
    hide Commands;
    hide ConvertAll;
    hide IsHashSet;
    PrintedCommandsAreTaken(commands);
    AllConvert(commands, AsHashSet, results);
    forall i | 0 <= i < |commands| && i < |results|
      ensures AsHashSet(commands[i]) == Some(results[i]) <==> IsHashSet(commands[i], results[i])
    {
      HashSetIff(commands[i], results[i]);
    }
  }
}
