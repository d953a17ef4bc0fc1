/** The zero-copy parser for pipelines of plain commands, and its single-pass specialisations. */
module Borrowed {
  import opened Bytes
  import opened Frames
  import opened Scanner
  import opened Parser
  import Agreement
  import Batches
  import Decimal
  import Streaming

  type Args = seq<bytes>

  datatype Taken<+T> = Taken(value: T, used: nat)

  /** A length line behind the type byte at the front of `b`: its value and its end. */
  function LengthLine(b: bytes): (r: Option<Taken<nat>>)
    requires b != []
    ensures r.Some? ==> 3 <= r.value.used <= |b|
  {
    match FindCrlf(b, 1)
    case None => None
    case Some(i) =>
      match Decimal.ParseUsize(b[1..i])
      case None => None
      case Some(n) => Some(Taken(n, i + 2))
  }

  /** The bulk string at the front of `b`. */
  function BulkArg(b: bytes): (r: Option<Taken<bytes>>)
    ensures r.Some? ==> 0 < r.value.used <= |b|
  {
    if b == [] || b[0] != DOLLAR then None
    else match LengthLine(b)
         case None => None
         case Some(Taken(len, start)) =>
           if !CrlfAt(b, start + len) then None
           else Some(Taken(b[start..start + len], start + len + 2))
  }

  function BulkArgs(b: bytes, n: nat): (r: Option<Taken<Args>>)
    ensures r.Some? ==> r.value.used <= |b| && |r.value.value| == n
    decreases n
  {
    if n == 0 then Some(Taken([], 0))
    else match BulkArg(b)
         case None => None
         case Some(Taken(head, used)) =>
           match BulkArgs(b[used..], n - 1)
           case None => None
           case Some(Taken(tail, more)) => Some(Taken([head] + tail, used + more))
  }

  function Command(b: bytes): (r: Option<Taken<Args>>)
    ensures r.Some? ==> 0 < r.value.used <= |b|
  {
    if b == [] || b[0] != STAR then None
    else match LengthLine(b)
         case None => None
         case Some(Taken(argc, start)) =>
           match BulkArgs(b[start..], argc)
           case None => None
           case Some(Taken(args, used)) => Some(Taken(args, start + used))
  }

  function Commands(b: bytes): (r: Option<seq<Args>>)
    decreases |b|
  {
    if b == [] then Some([])
    else match Command(b)
         case None => None
         case Some(Taken(args, used)) =>
           match Commands(b[used..])
           case None => None
           case Some(rest) => Some([args] + rest)
  }

  // Integers in ASCII, digit by digit.

  lemma {:induction false} ValueOfPrefix(s: bytes, i: nat)
    requires Decimal.AllDigits(s) && i <= |s|
    ensures Decimal.Value(s[..i]) <= Decimal.Value(s)
    decreases |s| - i
  {
    if i == |s| {
      assert s[..i] == s;
    } else {
      ValueOfPrefix(s, i + 1);
      assert s[..i + 1][..i] == s[..i];
    }
  }

  method ParseUsizeAscii(s: bytes) returns (r: Option<nat>)
    ensures r == Decimal.ParseUsize(s)
  {
    if |s| == 0 {
      return None;
    }
    var value := 0;
    for i := 0 to |s|
      invariant Decimal.AllDigits(s[..i]) && value == Decimal.Value(s[..i]) <= Decimal.USIZE_MAX
    {
      if !Decimal.IsDigit(s[i]) {
        return None;
      }
      assert s[..i + 1][..i] == s[..i];
      if value * 10 + (s[i] - ZERO) > Decimal.USIZE_MAX {
        if Decimal.AllDigits(s) {
          ValueOfPrefix(s, i + 1);
        }
        return None;
      }
      value := value * 10 + (s[i] - ZERO);
    }
    assert s[..|s|] == s;
    return Some(value);
  }

  /** The signed parser takes no plus sign, and negates last, so it misses the least integer. */
  method ParseI64Ascii(s: bytes) returns (r: Option<int>)
    ensures r == (if s != [] && (s[0] == PLUS || Decimal.ParseI64(s) == Some(Decimal.I64_MIN)) then None
                  else Decimal.ParseI64(s))
  {
    if |s| == 0 {
      return None;
    }
    var negative := s[0] == MINUS;
    var digits := if negative then s[1..] else s;
    if |digits| == 0 {
      return None;
    }
    var value := 0;
    for i := 0 to |digits|
      invariant Decimal.AllDigits(digits[..i]) && value == Decimal.Value(digits[..i]) <= Decimal.I64_MAX
    {
      if !Decimal.IsDigit(digits[i]) {
        return None;
      }
      assert digits[..i + 1][..i] == digits[..i];
      if value * 10 + (digits[i] - ZERO) > Decimal.I64_MAX {
        if Decimal.AllDigits(digits) {
          ValueOfPrefix(digits, i + 1);
        }
        return None;
      }
      value := value * 10 + (digits[i] - ZERO);
    }
    assert digits[..|digits|] == digits;
    return Some(if negative then -value else value);
  }

  /** The digits still to be written when `value` is left over. */
  function Pending(value: nat): bytes {
    if value == 0 then [] else Decimal.Show(value)
  }

  lemma PendingStep(value: nat)
    requires value > 0
    ensures Pending(value) == Pending(value / 10) + [ZERO + value % 10]
  {
  }

  /** Decimal digits are written from the back of a fixed buffer. */
  method AppendUsizeDecimal(out: bytes, n: nat) returns (r: bytes)
    requires n <= Decimal.USIZE_MAX
    ensures r == out + Decimal.Show(n)
  {
    hide Pending;
    if n == 0 {
      return out + [ZERO];
    }
    var buf := new byte[20];
    var idx, value := 20, n;
    UsizeDigits(n);
    assert Pending(n) + buf[20..] == Pending(n);
    while value > 0
      invariant 0 <= idx <= 20
      invariant Pending(n) == Pending(value) + buf[idx..]
      invariant |Pending(n)| <= 20
    {
      PendingStep(value);
      idx := idx - 1;
      ghost var tail := buf[idx + 1..];
      buf[idx] := ZERO + value % 10;
      assert buf[idx..] == [ZERO + value % 10] + tail;
      Assoc(Pending(value / 10), [ZERO + value % 10], tail);
      value := value / 10;
    }
    NothingPending(n, buf[idx..]);
    return out + buf[idx..];
  }

  lemma NothingPending(n: nat, written: bytes)
    requires n > 0 && Pending(n) == Pending(0) + written
    ensures written == Decimal.Show(n)
  {
  }

  lemma UsizeDigits(n: nat)
    requires n <= Decimal.USIZE_MAX
    ensures |Decimal.Show(n)| <= 20 && |Pending(n)| <= 20
  {
    assert Decimal.Pow10(4) == 10000;
    assert Decimal.Pow10(8) == 1_0000_0000;
    assert Decimal.Pow10(12) == 1_0000_0000_0000;
    assert Decimal.Pow10(16) == 1_0000_0000_0000_0000;
    assert Decimal.Pow10(20) == 1_0000_0000_0000_0000_0000;
    Decimal.ShowLength(n, 20);
  }

  // The loops over one position in the whole buffer.

  lemma FindCrlfInTail(b: bytes, pos: nat)
    requires pos < |b|
    ensures FindCrlf(b, pos + 1) ==
            match FindCrlf(b[pos..], 1) case None => None case Some(i) => Some(pos + i)
  {
    var tail := b[pos..];
    forall j | pos <= j ensures CrlfAt(b, j) == CrlfAt(tail, j - pos) {
    }
    var r := FindCrlf(tail, 1);
    if r.Some? {
      FindCrlfIs(b, pos + 1, pos + r.value);
    }
  }

  method LengthLineAt(b: bytes, pos: nat) returns (r: Option<Taken<nat>>)
    requires pos < |b|
    ensures r == LengthLine(b[pos..])
  {
    FindCrlfInTail(b, pos);
    var end := FindCrlf(b, pos + 1);
    if end.None? {
      return None;
    }
    assert b[pos..][1..end.value - pos] == b[pos + 1..end.value];
    var n := ParseUsizeAscii(b[pos + 1..end.value]);
    r := if n.None? then None else Some(Taken(n.value, end.value + 2 - pos));
  }

  method ParseBorrowedBulkArg(b: bytes, pos: nat) returns (r: Option<bytes>, next: nat)
    requires pos <= |b|
    ensures pos <= next <= |b|
    ensures r.None? <==> BulkArg(b[pos..]).None?
    ensures r.Some? ==> Taken(r.value, next - pos) == BulkArg(b[pos..]).value
  {
    hide LengthLine;
    if pos >= |b| || b[pos] != DOLLAR {
      return None, pos;
    }
    var line := LengthLineAt(b, pos);
    if line.None? {
      return None, pos;
    }
    var start := pos + line.value.used;
    var end := start + line.value.value;
    assert CrlfAt(b, end) == CrlfAt(b[pos..], end - pos);
    if !CrlfAt(b, end) {
      return None, pos;
    }
    assert b[pos..][start - pos..end - pos] == b[start..end];
    return Some(b[start..end]), end + 2;
  }

  function Extend(args: Args, used: nat, r: Option<Taken<Args>>): Option<Taken<Args>> {
    match r
    case None => None
    case Some(Taken(more, rest)) => Some(Taken(args + more, used + rest))
  }

  lemma ExtendStep(args: Args, used: nat, arg: bytes, len: nat, r: Option<Taken<Args>>)
    ensures Extend(args, used, Extend([arg], len, r)) == Extend(args + [arg], used + len, r)
  {
    if r.Some? {
      Assoc(args, [arg], r.value.value);
    }
  }

  lemma ExtendNothing(r: Option<Taken<Args>>)
    ensures Extend([], 0, r) == r
  {
    if r.Some? {
      assert [] + r.value.value == r.value.value;
    }
  }

  method BorrowedArgs(b: bytes, start: nat, n: nat) returns (r: Option<Taken<Args>>)
    requires start <= |b|
    ensures r == BulkArgs(b[start..], n)
  {
    hide BulkArg;
    var args: Args := [];
    var pos := start;
    ExtendNothing(BulkArgs(b[start..], n));
    for i := 0 to n
      invariant start <= pos <= |b|
      invariant Extend(args, pos - start, BulkArgs(b[pos..], n - i)) == BulkArgs(b[start..], n)
    {
      var arg, next := ParseBorrowedBulkArg(b, pos);
      if arg.None? {
        return None;
      }
      assert b[pos..][next - pos..] == b[next..];
      ExtendStep(args, pos - start, arg.value, next - pos, BulkArgs(b[next..], n - i - 1));
      args, pos := args + [arg.value], next;
    }
    assert args + [] == args;
    return Some(Taken(args, pos - start));
  }

  function PrependAll<T>(xs: seq<T>, r: Option<seq<T>>): Option<seq<T>> {
    match r
    case None => None
    case Some(ys) => Some(xs + ys)
  }

  lemma PrependAllStep<T>(xs: seq<T>, x: T, r: Option<seq<T>>)
    ensures PrependAll(xs, PrependAll([x], r)) == PrependAll(xs + [x], r)
    ensures PrependAll([], r) == r
  {
    if r.Some? {
      Assoc(xs, [x], r.value);
      assert [] + r.value == r.value;
    }
  }

  method ParseBorrowedRespCommands(b: bytes) returns (r: Option<seq<Args>>)
    ensures r == Commands(b)
  {
    hide LengthLine;
    hide BulkArgs;
    var commands: seq<Args> := [];
    var pos := 0;
    assert b[0..] == b;
    PrependAllStep([], [], Commands(b));
    while pos < |b|
      invariant pos <= |b|
      invariant PrependAll(commands, Commands(b[pos..])) == Commands(b)
    {
      if b[pos] != STAR {
        return None;
      }
      var line := LengthLineAt(b, pos);
      if line.None? {
        return None;
      }
      var start := pos + line.value.used;
      assert b[pos..][line.value.used..] == b[start..];
      var args := BorrowedArgs(b, start, line.value.value);
      if args.None? {
        return None;
      }
      var next := start + args.value.used;
      assert b[pos..][next - pos..] == b[next..];
      PrependAllStep(commands, args.value.value, Commands(b[next..]));
      commands, pos := commands + [args.value.value], next;
    }
    assert b[pos..] == [];
    assert commands + [] == commands;
    return Some(commands);
  }

  // Agreement with the general parser.

  lemma LengthLineAgrees(b: bytes)
    requires b != [] && b[0] != CR && PrefixedLengthLine(b).HeaderLine? && LengthLine(b).Some?
    ensures PrefixedLengthLine(b).end == LengthLine(b).value.used
    ensures Decimal.ParseUsize(PrefixedLengthLine(b).line) == Some(LengthLine(b).value.value)
    ensures PrefixedLengthLine(b).line != MINUS_ONE
  {
    Agreement.HeaderAgrees(b);
    var i := FindCrlf(b, 0).value;
    FindCrlfIs(b, 1, i);
    assert Decimal.AllDigits(b[1..i]);
  }

  /** On a complete bulk string, both parsers see the same bytes and the same end. */
  lemma BulkArgAgrees(b: bytes)
    requires BulkArg(b).Some? && PayloadScan(b, BulkPayload).Complete?
    ensures PayloadScan(b, BulkPayload) == Complete(BulkArg(b).value.used)
    ensures ParseBulk(b) == Success(Parsed(BulkString(BulkArg(b).value.value), BulkArg(b).value.used))
  {
    hide LengthLine;
    hide PrefixedLengthLine;
    hide Decimal.ParseUsize;
    LengthLineAgrees(b);
    Agreement.HeaderAgrees(b);
    var end := BulkArg(b).value.used;
    LengthTextCut(b, end);
    var start := LengthLine(b).value.used;
    var len := LengthLine(b).value.value;
    assert b[..end][start..start + len] == b[start..start + len];
  }

  lemma LengthTextCut(b: bytes, k: nat)
    requires b != [] && b[0] != CR && LengthText(b).Success? && LengthText(b).value.1 <= k <= |b|
    ensures LengthText(b[..k]) == LengthText(b)
  {
    FindCrlfCut(b, 0, k);
    var i := FindCrlf(b, 0).value;
    assert b[..k][1..i] == b[1..i];
  }

  lemma BulkElement(b: bytes, depth: nat, left: nat)
    requires BulkArg(b).Some? && FrameScan(b, false, depth, left).verdict.Complete?
    ensures FrameScan(b, false, depth, left).verdict == Complete(BulkArg(b).value.used)
    ensures ParsePrefix(b, depth) == Success(Parsed(BulkString(BulkArg(b).value.value), BulkArg(b).value.used))
  {
    hide BulkArg;
    hide PayloadScan;
    hide ParseBulk;
    FinalScan(b, false, depth, left);
    StartsWithDollar(b);
    UnfoldScan(b, false, depth, left);
    UnfoldParse(b, depth);
    BulkArgAgrees(b);
  }

  lemma StartsWithDollar(b: bytes)
    requires BulkArg(b).Some?
    ensures b != [] && b[0] == DOLLAR
  {
  }

  lemma {:induction false} BulkArgsAgree(b: bytes, pos: nat, n: nat, depth: nat, left: nat)
    requires 0 < pos <= |b| && BulkArgs(b[pos..], n).Some?
    requires ElementsScan(b, pos, n, depth, left).verdict.Complete?
    ensures var taken := BulkArgs(b[pos..], n).value;
            && ElementsScan(b, pos, n, depth, left).verdict == Complete(pos + taken.used)
            && ParseElements(b, pos, n, depth) ==
               Success(ParsedSeq(BulkStrings(taken.value), pos + taken.used))
    decreases n
  {
    hide FrameScan;
    hide ParsePrefix;
    hide BulkArg;
    hide BulkStrings;
    if n > 0 {
      var tail := b[pos..];
      var head := BulkArg(tail).value;
      var element := FrameScan(tail, false, depth, left);
      BulkElement(tail, depth, left);
      assert tail[head.used..] == b[pos + head.used..];
      BulkArgsAgree(b, pos + head.used, n - 1, depth, element.left);
      BulkStringsCons(head.value, BulkArgs(b[pos + head.used..], n - 1).value.value);
    }
  }

  lemma BulkStringsCons(head: bytes, rest: Args)
    ensures BulkStrings([head] + rest) == [BulkString(head)] + BulkStrings(rest)
  {
  }

  lemma {:induction false} BulkArgsCut(b: bytes, n: nat, k: nat)
    requires BulkArgs(b, n).Some? && BulkArgs(b, n).value.used <= k <= |b|
    ensures BulkArgs(b[..k], n) == BulkArgs(b, n)
    decreases n
  {
    hide BulkArg;
    if n > 0 {
      var used := BulkArg(b).value.used;
      BulkArgCut(b, k);
      assert b[..k][used..] == b[used..][..k - used];
      BulkArgsCut(b[used..], n - 1, k - used);
    }
  }

  lemma LengthLineCut(b: bytes, k: nat)
    requires b != [] && LengthLine(b).Some? && LengthLine(b).value.used <= k <= |b|
    ensures LengthLine(b[..k]) == LengthLine(b)
  {
    FindCrlfCut(b, 1, k);
    var i := FindCrlf(b, 1).value;
    assert b[..k][1..i] == b[1..i];
  }

  lemma BulkArgCut(b: bytes, k: nat)
    requires BulkArg(b).Some? && BulkArg(b).value.used <= k <= |b|
    ensures BulkArg(b[..k]) == BulkArg(b)
  {
    hide LengthLine;
    LengthLineCut(b, k);
    var line := LengthLine(b).value;
    var end := line.used + line.value;
    assert b[..k][line.used..end] == b[line.used..end];
  }

  lemma CommandCut(b: bytes, k: nat)
    requires Command(b).Some? && Command(b).value.used <= k <= |b|
    ensures Command(b[..k]) == Command(b)
  {
    hide LengthLine;
    hide BulkArgs;
    LengthLineCut(b, k);
    var start := LengthLine(b).value.used;
    assert b[..k][start..] == b[start..][..k - start];
    BulkArgsCut(b[start..], LengthLine(b).value.value, k - start);
  }

  /** One complete frame that the zero-copy parser takes as a command. */
  lemma CommandAgrees(b: bytes)
    requires Command(b).Some? && FrameBoundary(b).Complete?
    ensures FrameBoundary(b) == Complete(Command(b).value.used)
    ensures ParsePrefix(b, 0) == Success(Parsed(Array(BulkStrings(Command(b).value.value)), Command(b).value.used))
  {
    hide FrameScan;
    hide ParsePrefix;
    hide LengthLine;
    hide BulkArgs;
    hide PrefixedLengthLine;
    hide LengthText;
    hide Decimal.ParseUsize;
    UnfoldScan(b, true, 0, MAX_FRAME_NODES);
    UnfoldParse(b, 0);
    LengthLineAgrees(b);
    Agreement.HeaderAgrees(b);
    var line := LengthLine(b).value;
    BulkArgsAgree(b, line.used, line.value, 1, MAX_FRAME_NODES - 1);
  }

  function AsArrays(commands: seq<Args>): (r: seq<Frame>)
    ensures |r| == |commands|
  {
    seq(|commands|, i requires 0 <= i < |commands| => Array(BulkStrings(commands[i])))
  }

  /** On a buffer of complete frames, whatever the zero-copy parser returns is what the general
      parser returns. */
  lemma {:induction false} BorrowedRefinesGeneral(b: bytes)
    requires Batches.Aligned(b, |b|) && Commands(b).Some?
    ensures Batches.ParseMany(b) == Success(AsArrays(Commands(b).value))
    decreases |b|
  {
    hide FrameBoundary;
    hide Command;
    hide ParsePrefix;
    if b == [] {
      assert AsArrays([]) == [];
    } else {
      StartsWithStar(b);
      var taken := Command(b).value;
      CommandAgrees(b);
      var frame := b[..taken.used];
      Streaming.FrameDependsOnItsBytes(b, frame);
      CommandCut(b, taken.used);
      CommandAgrees(frame);
      BorrowedRefinesGeneral(b[taken.used..]);
      var rest := Commands(b[taken.used..]).value;
      assert AsArrays([taken.value] + rest) == [Array(BulkStrings(taken.value))] + AsArrays(rest);
    }
  }

  lemma StartsWithStar(b: bytes)
    requires Command(b).Some?
    ensures b != [] && b[0] == STAR
  {
  }

  // Single-pass parsers for pipelines of one command.

  const SET: bytes := [115, 101, 116]
  const HSET: bytes := [104, 115, 101, 116]

  predicate Named(arg: bytes, lowerName: bytes) {
    Decimal.LowerAll(arg) == lowerName
  }

  datatype Pair = Pair(first: bytes, second: bytes)

  /** A generic command read as a plain SET: its key and its value. */
  function AsSet(args: Args): Option<Pair> {
    if |args| == 3 && Named(args[0], SET) then Some(Pair(args[1], args[2])) else None
  }

  datatype HashSet = HashSet(key: bytes, fields: seq<Pair>)

  function PairArgs(args: Args): (r: seq<Pair>)
    requires |args| % 2 == 0
    ensures |r| == |args| / 2
    decreases |args|
  {
    if args == [] then [] else [Pair(args[0], args[1])] + PairArgs(args[2..])
  }

  /** A generic command read as a plain HSET: its key and its field-value pairs. */
  function AsHashSet(args: Args): Option<HashSet> {
    if |args| >= 4 && |args| % 2 == 0 && Named(args[0], HSET) then Some(HashSet(args[1], PairArgs(args[2..])))
    else None
  }

  /** Every command converts, or there is no answer. */
  function ConvertAll<T>(commands: seq<Args>, convert: Args -> Option<T>): Option<seq<T>> {
    if commands == [] then Some([])
    else match convert(commands[0])
         case None => None
         case Some(x) => PrependAll([x], ConvertAll(commands[1..], convert))
  }

  /** The generic parser followed by a conversion of every command. */
  function Converted<T>(b: bytes, convert: Args -> Option<T>): Option<seq<T>> {
    match Commands(b)
    case None => None
    case Some(commands) => ConvertAll(commands, convert)
  }

  /** The first generic command, converted. */
  function CommandAs<T>(b: bytes, convert: Args -> Option<T>): Option<T> {
    match Command(b)
    case None => None
    case Some(taken) => convert(taken.value)
  }

  lemma ConvertedStep<T>(b: bytes, convert: Args -> Option<T>)
    requires b != []
    ensures Converted(b, convert) ==
            match Command(b)
            case None => None
            case Some(Taken(args, used)) =>
              if convert(args).None? then None
              else PrependAll([convert(args).value], Converted(b[used..], convert))
  {
    hide Command;
    if Command(b).Some? && Commands(b).Some? {
      assert Commands(b).value[1..] == Commands(b[Command(b).value.used..]).value;
    }
  }

  lemma ArgsStep(b: bytes, n: nat)
    requires n > 0
    ensures BulkArgs(b, n) ==
            match BulkArg(b)
            case None => None
            case Some(Taken(arg, used)) => Extend([arg], used, BulkArgs(b[used..], n - 1))
  {
  }

  method ParseBorrowedPlainSetCommands(b: bytes) returns (r: Option<seq<Pair>>)
    ensures r == Converted(b, AsSet)
  {
    hide Command;
    hide Converted;
    var commands: seq<Pair> := [];
    var pos := 0;
    assert b[0..] == b;
    PrependAllStep([], Pair([], []), Converted(b, AsSet));
    while pos < |b|
      invariant pos <= |b|
      invariant PrependAll(commands, Converted(b[pos..], AsSet)) == Converted(b, AsSet)
    {
      ConvertedStep(b[pos..], AsSet);
      var command, next := PlainSetAt(b, pos);
      if command.None? {
        return None;
      }
      assert b[pos..][next - pos..] == b[next..];
      PrependAllStep(commands, command.value, Converted(b[next..], AsSet));
      commands, pos := commands + [command.value], next;
    }
    assert b[pos..] == [];
    ConvertedEnd(commands, AsSet);
    return Some(commands);
  }

  lemma ConvertedEnd<T>(done: seq<T>, convert: Args -> Option<T>)
    ensures PrependAll(done, Converted([], convert)) == Some(done)
  {
    assert done + [] == done;
  }

  /** One SET command at `pos`, each argument looked at as soon as it is read. */
  method PlainSetAt(b: bytes, pos: nat) returns (r: Option<Pair>, next: nat)
    requires pos < |b|
    ensures pos <= next <= |b|
    ensures r == CommandAs(b[pos..], AsSet)
    ensures r.Some? ==> next == pos + Command(b[pos..]).value.used
  {
    hide LengthLine;
    hide BulkArg;
    hide BulkArgs;
    next := pos;
    if b[pos] != STAR {
      return None, pos;
    }
    var line := LengthLineAt(b, pos);
    if line.None? || line.value.value != 3 {
      return None, pos;
    }
    var start := pos + line.value.used;
    assert b[pos..][line.value.used..] == b[start..];
    TwoArgs(b[start..], 3);
    var command, afterCommand := ParseBorrowedBulkArg(b, start);
    if command.None? || !Named(command.value, SET) {
      return None, pos;
    }
    assert b[start..][afterCommand - start..] == b[afterCommand..];
    var key, afterKey := ParseBorrowedBulkArg(b, afterCommand);
    if key.None? {
      return None, pos;
    }
    assert b[afterCommand..][afterKey - afterCommand..] == b[afterKey..];
    LastArg(b[afterKey..]);
    var value, afterValue := ParseBorrowedBulkArg(b, afterKey);
    if value.None? {
      return None, pos;
    }
    return Some(Pair(key.value, value.value)), afterValue;
  }

  lemma LastArg(b: bytes)
    ensures BulkArgs(b, 1) ==
            match BulkArg(b) case None => None case Some(taken) => Some(Taken([taken.value], taken.used))
  {
    hide BulkArg;
    if BulkArg(b).Some? {
      assert BulkArgs(b[BulkArg(b).value.used..], 0) == Some(Taken([], 0));
      assert [BulkArg(b).value.value] + [] == [BulkArg(b).value.value];
    }
  }

  method ParseBorrowedPlainHsetCommands(b: bytes) returns (r: Option<seq<HashSet>>)
    ensures r == Converted(b, AsHashSet)
  {
    hide Command;
    hide Converted;
    var commands: seq<HashSet> := [];
    var pos := 0;
    assert b[0..] == b;
    PrependAllStep([], HashSet([], []), Converted(b, AsHashSet));
    while pos < |b|
      invariant pos <= |b|
      invariant PrependAll(commands, Converted(b[pos..], AsHashSet)) == Converted(b, AsHashSet)
    {
      ConvertedStep(b[pos..], AsHashSet);
      var command, next := PlainHsetAt(b, pos);
      if command.None? {
        return None;
      }
      assert b[pos..][next - pos..] == b[next..];
      PrependAllStep(commands, command.value, Converted(b[next..], AsHashSet));
      commands, pos := commands + [command.value], next;
    }
    assert b[pos..] == [];
    ConvertedEnd(commands, AsHashSet);
    return Some(commands);
  }

  /** The remaining pairs of an HSET command. */
  function PairTail(pairs: seq<Pair>, used: nat, r: Option<Taken<Args>>): Option<Taken<seq<Pair>>>
    requires r.Some? ==> |r.value.value| % 2 == 0
  {
    match r
    case None => None
    case Some(Taken(args, rest)) => Some(Taken(pairs + PairArgs(args), used + rest))
  }

  method PairsAt(b: bytes, start: nat, n: nat) returns (r: Option<Taken<seq<Pair>>>)
    requires start <= |b|
    ensures r == PairTail([], 0, BulkArgs(b[start..], 2 * n))
  {
    hide BulkArg;
    hide BulkArgs;
    var pairs: seq<Pair> := [];
    var pos := start;
    for i := 0 to n
      invariant start <= pos <= |b|
      invariant PairTail(pairs, pos - start, BulkArgs(b[pos..], 2 * (n - i))) ==
                PairTail([], 0, BulkArgs(b[start..], 2 * n))
    {
      TwoArgs(b[pos..], 2 * (n - i));
      var field, afterField := ParseBorrowedBulkArg(b, pos);
      if field.None? {
        return None;
      }
      assert b[pos..][afterField - pos..] == b[afterField..];
      var value, afterValue := ParseBorrowedBulkArg(b, afterField);
      if value.None? {
        return None;
      }
      assert b[afterField..][afterValue - afterField..] == b[afterValue..];
      PairStep(pairs, pos - start, field.value, value.value, afterValue - pos,
               BulkArgs(b[afterValue..], 2 * (n - i - 1)));
      pairs, pos := pairs + [Pair(field.value, value.value)], afterValue;
    }
    NoArgs(b[pos..], pairs, pos - start);
    return Some(Taken(pairs, pos - start));
  }

  lemma NoArgs(b: bytes, pairs: seq<Pair>, used: nat)
    ensures PairTail(pairs, used, BulkArgs(b, 0)) == Some(Taken(pairs, used))
  {
    assert pairs + [] == pairs;
  }

  lemma PairStep(pairs: seq<Pair>, used: nat, field: bytes, value: bytes, len: nat, r: Option<Taken<Args>>)
    requires r.Some? ==> |r.value.value| % 2 == 0
    ensures PairTail(pairs, used, Extend([field, value], len, r)) ==
            PairTail(pairs + [Pair(field, value)], used + len, r)
  {
    if r.Some? {
      assert ([field, value] + r.value.value)[2..] == r.value.value;
      Assoc(pairs, [Pair(field, value)], PairArgs(r.value.value));
    }
  }

  lemma TwoArgs(b: bytes, n: nat)
    requires n >= 2
    ensures BulkArg(b).None? ==> BulkArgs(b, n).None?
    ensures BulkArg(b).Some? ==>
              var x := BulkArg(b).value;
              var after := b[x.used..];
              && (BulkArg(after).None? ==> BulkArgs(b, n).None?)
              && (BulkArg(after).Some? ==>
                    var y := BulkArg(after).value;
                    BulkArgs(b, n) == Extend([x.value, y.value], x.used + y.used, BulkArgs(after[y.used..], n - 2)))
  {
    hide BulkArg;
    hide BulkArgs;
    ArgsStep(b, n);
    if BulkArg(b).Some? {
      var x := BulkArg(b).value;
      var b' := b[x.used..];
      ArgsStep(b', n - 1);
      if BulkArg(b').Some? {
        var y := BulkArg(b').value;
        ExtendStep([x.value], x.used, y.value, y.used, BulkArgs(b'[y.used..], n - 2));
        assert [x.value] + [y.value] == [x.value, y.value];
      }
    }
  }

  method PlainHsetAt(b: bytes, pos: nat) returns (r: Option<HashSet>, next: nat)
    requires pos < |b|
    ensures pos <= next <= |b|
    ensures r == CommandAs(b[pos..], AsHashSet)
    ensures r.Some? ==> next == pos + Command(b[pos..]).value.used
  {
    hide LengthLine;
    hide BulkArg;
    hide BulkArgs;
    hide PairArgs;
    hide Named;
    if b[pos] != STAR {
      return None, pos;
    }
    var line := LengthLineAt(b, pos);
    if line.None? || line.value.value < 4 || line.value.value % 2 != 0 {
      return None, pos;
    }
    var argc, start := line.value.value, pos + line.value.used;
    assert b[pos..][line.value.used..] == b[start..];
    TwoArgs(b[start..], argc);
    var command, afterCommand := ParseBorrowedBulkArg(b, start);
    if command.None? || !Named(command.value, HSET) {
      return None, pos;
    }
    assert b[start..][afterCommand - start..] == b[afterCommand..];
    var key, afterKey := ParseBorrowedBulkArg(b, afterCommand);
    if key.None? {
      return None, pos;
    }
    assert b[afterCommand..][afterKey - afterCommand..] == b[afterKey..];
    var n := (argc - 2) / 2;
    var fields := PairsAt(b, afterKey, n);
    if fields.None? {
      return None, pos;
    }
    ghost var tail := BulkArgs(b[afterKey..], argc - 2).value.value;
    assert ([command.value, key.value] + tail)[2..] == tail;
    assert [] + PairArgs(tail) == PairArgs(tail);
    return Some(HashSet(key.value, fields.value.value)), afterKey + fields.value.used;
  }
}
