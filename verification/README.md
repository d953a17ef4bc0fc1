# onedis: the protocol core, modelled and proved

onedis is a Redis-compatible server. This project models the parts of it whose correctness rests on
an argument rather than on a table: reading and writing the wire protocol, matching patterns, walking
key ranges, merging counters, running pipelined writes together, and the state machines behind
transactions, publish/subscribe, the script cache and wake-ups. Everything is stated for all inputs,
all interleavings or all runs.

The code that works in place is modelled in place: loops are methods with invariants, objects are
classes (`Batches.Connection`, `Printer.Output`, `Coalesce.Db`, `ResponseBudget.TransactionResponseBudget`,
`LuaCache.LuaScriptCache`, `PubSub.SessionManager`, `Tracker.KeyMutationTracker`,
`Transactions.Handler`), each proved against a specification function, and the laws are proved about
those functions.

## Layout

| file | subject |
|---|---|
| bytes, utf8, decimal, frame | bytes, text, numbers, frames and the protocol limits |
| unicode, numerals | UTF-8 against scalar values; what decimal and floating-point texts spell |
| grammar, denotation | the wire grammar in plain bytes, and that scanner and parser read exactly it |
| scanner, streaming | where a frame ends, and why that never changes as bytes arrive |
| inline, quotes, words, parser | the parsers; an automaton for inline quoting; how inline arguments are written and what they mean |
| agreement, faults | the parser against the scanner, and exactly which measured frames it refuses |
| printer, printed, roundtrip | both protocol versions' encodings, byte by byte, and reading them back |
| batch, pipeline | cutting a read buffer into batches, and what a pipeline of frames is |
| borrowed, commands | the zero-copy fast-path parsers, and printed commands read by them |
| glob, pattern, globs | matching with one backtrack point, compiling patterns, and how patterns are written and what they mean |
| order, scans | byte order, prefix ranges, chunked range visits |
| merge, counters | the integer merge operator, and what a stored counter is, byte by byte |
| coalesce | pipelined list pushes, HDEL and HGETDEL as one storage call |
| budget | the size budget of an EXEC reply |
| lua_cache | the script cache |
| wakeup | flag-and-notify as interleaved steps |
| subscriptions, messages, pubsub | the subscription indices, the messages, SUBSCRIBE and PUBLISH |
| tracker, transaction, runs, replies, watches, detection | MULTI, EXEC and WATCH, one client and all clients |

## Main results

- `Denotation.ParsedIffWire`: bytes are parsed as a frame if and only if the wire grammar writes them for
  that frame within the size, node and nesting limits, or they are an inline command of those words.
- `Streaming.VerdictIsStable`, `Pipelines.ParsedIffPipeline`, `Batches.DrainParsesTheSame` and
  `Batches.Connection.ChunksDoNotMatter`: the frames read from a connection are the frames that were sent,
  however the bytes arrive and however they are cut into batches.
- `RoundTrip.PrintParse` and `Printed.PrintedIsSeen`: printing then parsing gives what a reader of that
  protocol version is to see, exactly within the limits.
- `Words.ReadIffWritten`, `GlobGrammar.MatchesIffMeant`: inline lines and glob patterns mean what their
  grammars say, and nothing else is read or matched.
- `Scans.ScanRangeRawVisitChunked` with `Scans.FinishedIsCalls`: a chunked visit makes the calls of one scan.
- `Counters.MergeExactly`: when a merge succeeds, and the bytes it stores.
- `Coalesce.HandleListPushCommands`, `Coalesce.HandleHashCommands`: coalesced writes are the commands one by one.
- `PubSub.SessionManager.Publish`: who receives what, as parsed by the receiver.
- `Replies.QueueReply`, `Replies.ExecReply`, `Detection.ExecDecision`, `Runs.CommittedIsExecs`: over every run
  of every client, which frames are queued, when EXEC commits and what.
- `Wakeup.NoLostWakeup`, `Wakeup.FirstTryWins`: over every interleaving.

## Where the code is not what one might expect

- After the scanner has measured a frame, the parser can still refuse it for three reasons, not two:
  bad inline quoting, a malformed verbatim payload, or more than a million inline arguments
  (`Agreement.TooManyEmptyArguments`). `Faults.RefusedExactly` says which frames are refused, in terms
  of their bytes.
- The zero-copy signed-integer parser refuses a plus sign and the least 64-bit integer
  (`Borrowed.ParseI64Ascii` says so exactly).
- A partial merge can make a merge succeed that would otherwise overflow half-way
  (`Merge.PartialMergeMayRescue`); `Merge.PartialMergeExact` says exactly when a full merge changes.
- The matcher of COMMAND LIST spends a star of the pattern on a star of the value and then misses
  matches. It agrees with the meaning of every pattern exactly on the values without a star
  (`Glob.SimpleMatcherExact`).
- The EXEC budget charges some frames less than they are sent in: in the older protocol doubles, big
  numbers, maps whose doubled count has one more digit, and blob errors that lossy decoding lengthens;
  in the newer one verbatim strings whose length gains a digit from the format in front.
  `ResponseBudget.SentInCostPlusGap` gives the difference for every frame,
  `ResponseBudget.ReplyFitsExactly` says exactly when a reply within budget still fits, and
  `ResponseBudget.DoublesOverrun` is one that does not. The charge is computed for any frame; no
  command that can be queued answers with any of these types today.
- WATCH registers the key before the expiry lookup that may fail, so a failed lookup leaves a
  registration behind (`Watches.FailedLookupLeaks`). `Watches.RegistrationsBalance` and
  `Watches.LeftBehind` say, over the events of a run, that this is the only way to be out of balance.

## Model

| member | source | states |
|---|---|---|
| Utf8.SanitizeKeepsValid | src/frame/serialization.rs:175-185 | replacing CR and LF in a line by spaces keeps it well-formed UTF-8 |
| Utf8.LossyIsValid | src/frame/serialization.rs:88-90 | lossy decoding of a blob error always gives well-formed UTF-8 |
| Utf8.LossyKeepsValid | src/frame/serialization.rs:88-90 | lossy decoding leaves well-formed text alone |
| Unicode.ValidIffText | src/frame/serialization.rs:88-90 | bytes are well-formed UTF-8 if and only if they are the encodings of some Unicode scalar values |
| Unicode.ReplacedPartIsMaximal | src/frame/serialization.rs:88-90 | one replacement character stands for the longest part that begins a character, or for one byte |
| Decimal.ParseShowInt | src/frame/parsing_frame_bounds.rs:29-38 | every 64-bit integer printed in decimal parses back to itself, and its text is ASCII without line breaks |
| Decimal.ParseShowUsize | src/frame/parsing_frame_bounds.rs:22-27 | every length printed in decimal parses back to itself |
| Numerals.LengthIsRead | src/frame/parsing_frame_bounds.rs:22-27 | a length text is accepted with a value if and only if its digits spell that value, most significant first, within the machine word |
| Numerals.IntegerIsRead | src/frame/parsing_frame_bounds.rs:29-38 | an integer text is accepted with a value if and only if a sign or none and digits spell it, within 64 bits |
| Numerals.IntegerIsShown | src/frame/serialization.rs:120-124 | an integer is printed in its shortest spelling |
| Numerals.FloatIffSpelled | src/frame/parsing_frame_bounds.rs:87-93 | a double's text is accepted if and only if it is inf, infinity or nan in any case, or digits with a point and an exponent or none, behind a sign or none |
| Frames.PairUpFlatten | src/frame/parsing_array_values.rs:75-88 | pairing up the flattened entries of a map gives the entries back |
| Scanner.FrameBoundaryWithBudget | src/frame/parsing_frame_bounds.rs:147-174 | the recursive scanner returns the verdict and the remaining node budget of the specification FrameScan |
| Scanner.AggregateFrameBoundary | src/frame/parsing_frame_bounds.rs:176-235 | the aggregate branch: same verdict and budget as FrameScan, for every header, depth and budget |
| Scanner.ElementsBoundary | src/frame/parsing_frame_bounds.rs:211-234 | the element loop: same verdict and budget as scanning the elements one after the other |
| Denotation.LineCompleteIff | src/frame/parsing_frame_bounds.rs:58-104 | a one-line frame is complete if and only if it is a line of the grammar for some frame, within the byte limit |
| Denotation.WireIsRead | src/frame/parsing_frame_bounds.rs:147-235 | whatever the grammar writes is measured, charged its node count and parsed as the frame it means, at any depth and before any further bytes |
| Denotation.ReadWasWire | src/frame/parsing_entrypoints.rs:28-75 | whatever scanner and parser accept is in the grammar, as the frame that was parsed, at any depth |
| Denotation.InlineIffWritten | src/frame/parsing_inline.rs:29-44 | bytes are an inline command of a frame if and only if they are a line of words that mean its arguments |
| Denotation.ParsedIffWire | src/frame/parsing_entrypoints.rs:2-26 | bytes are parsed as a frame if and only if they are at most 64 MiB and the grammar writes them for that frame in at most 1,000,001 nodes nested at most 128 deep, or they have no type byte and are an inline command of it |
| Grammar.ElementsInOrder | src/frame/parsing_array_values.rs:42-88 | keys and values alternate on the wire and the subject of an attribute comes last |
| Streaming.ScanExtends | src/frame/parsing_frame_bounds.rs:147-235 | a complete or invalid verdict, and the node budget spent, survive any further bytes, at every depth |
| Streaming.ElementsExtend | src/frame/parsing_frame_bounds.rs:176-235 | the same for a run of aggregate elements |
| Streaming.ScanCut | src/frame/parsing_frame_bounds.rs:147-235 | cutting a buffer behind a complete frame changes nothing; cutting inside it makes it incomplete, never invalid, never shorter |
| Streaming.ElementsCut | src/frame/parsing_frame_bounds.rs:176-235 | the same for a run of aggregate elements |
| Streaming.LeafExtends | src/frame/parsing_frame_bounds.rs:58-140 | final verdicts on line, payload and inline frames survive any further bytes |
| Streaming.LeafCut | src/frame/parsing_inline.rs:2-27 | a cut line, payload or inline frame is incomplete |
| Streaming.HeaderExtends | src/frame/parsing_frame_bounds.rs:40-56 | a length header, or its rejection, survives any further bytes |
| Streaming.HeaderCut | src/frame/parsing_frame_bounds.rs:40-56 | a cut length header is not a header and not an error |
| Streaming.VerdictIsStable | src/frame/parsing_frame_bounds.rs:142-145 | the top-level verdict is final once it is not Incomplete |
| Streaming.FrameDependsOnItsBytes | src/frame/parsing_frame_bounds.rs:142-145 | any two buffers that begin with the bytes of one frame get the same end |
| Streaming.FrameHasNoShorterVerdict | src/frame/parsing_frame_bounds.rs:142-145 | every proper prefix of a frame is Incomplete |
| Inline.ParseInlineArguments | src/frame/parsing_inline.rs:59-177 | the nested loops compute the specification ReadArguments, errors included; Words.ReadIffWritten says what that is |
| Inline.ReadTokenLoop | src/frame/parsing_inline.rs:70-165 | the argument loop with its quoting states computes ReadToken; Words.WordReads says what that is |
| Inline.SkipLoop | src/frame/parsing_inline.rs:63-65 | the whitespace loop stops at the first non-blank |
| Inline.NoControlFault | src/frame/parsing_inline.rs:59-177 | on a line without CR or LF the control-character error cannot occur |
| Inline.ReadEscaped | src/frame/parsing_inline.rs:81-122 | reading double-quoted hex escapes gives the escaped bytes back, whatever surrounds them |
| Inline.ReadQuotedLine | src/frame/parsing_inline.rs:59-177 | quoting any argument list and parsing it gives the list, or TooManyArguments beyond the limit |
| Inline.QuotedLineRoundTrip | src/frame/parsing_inline.rs:59-177 | the round trip is the identity exactly on lists within the element limit |
| Words.DoubleStep | src/frame/parsing_inline.rs:78-122 | one step of a double-quoted text is read as the byte it means: itself, a named escape, or two hexadecimal digits of either case |
| Words.WordReads | src/frame/parsing_inline.rs:70-165 | a written argument, bare bytes and then at most one quoted text, is read as the concatenation of what they mean |
| Words.LineReads | src/frame/parsing_inline.rs:59-177 | a written line is read as what its words mean, or refused beyond the limit |
| Words.ReadIffWritten | src/frame/parsing_inline.rs:59-177 | a line is read into some arguments if and only if it is words that mean them with blanks between, no more than the limit |
| Words.PlainWordsRead | src/frame/parsing_inline.rs:59-177 | words without quotes, joined by any blanks, are read as themselves in order |
| Parser.ParseValidatedFramePrefix | src/frame/parsing_entrypoints.rs:28-75 | the recursive parser computes the specification ParsePrefix, frame, length and error |
| Parser.ParseAggregate | src/frame/parsing_array_values.rs:2-72 | the aggregate branch computes ParsePrefix |
| Parser.ElementLoop | src/frame/parsing_array_values.rs:42-53 | the element loop parses the elements in order up to the first failure |
| Parser.BuildLoop | src/frame/parsing_array_values.rs:55-70 | the aggregate built for a type byte has exactly the parsed elements as its children |
| Parser.PairFrames | src/frame/parsing_array_values.rs:75-88 | an even list is paired in order; an odd one is an error |
| Agreement.HeaderAgrees | src/frame/parsing_frame_bounds.rs:40-56 | scanner and parser read the same length text and the same end |
| Agreement.PayloadAgrees | src/frame/parsing_entrypoints.rs:118-151 | a payload the scanner accepts is parsed with the same length, or fails only as a malformed verbatim string |
| Agreement.LineAgrees | src/frame/parsing_simple_values.rs:1-27 | a line the scanner accepts always parses, with the same length |
| Agreement.InlineAgrees | src/frame/parsing_inline.rs:29-44 | a measured inline line is parsed whole, within the node, depth and byte limits, if and only if it is well quoted and has no more arguments than the limit |
| Agreement.ShapeAgrees | src/frame/parsing_array_values.rs:2-41 | depth, element-count and pairing checks never disagree between scanner and parser |
| Agreement.ParserAgrees | src/frame/parsing_entrypoints.rs:28-75 | whenever the scanner says Complete(n) the parser consumes exactly n and the frame respects every limit, inline commands included, or it fails for one of the named late reasons |
| Agreement.ElementsAgree | src/frame/parsing_array_values.rs:42-53 | the same for a run of elements, where only a malformed verbatim string can fail |
| Agreement.MeasuredFrameParses | src/frame/parsing_entrypoints.rs:2-26 | parsing exactly the measured bytes gives a frame within node, depth and byte limits, with or without a type byte, or a late fault |
| Agreement.InlineCountFault | src/frame/parsing_inline.rs:59-177 | every measured inline line with too many arguments is refused by the parser |
| Agreement.TooManyEmptyArguments | src/frame/parsing_inline.rs:166-171 | a concrete such line: a million and one empty arguments |
| Quotes.TokenIsGood | src/frame/parsing_inline.rs:73-165 | reading one argument and running the byte-at-a-time quote automaton agree, in every quoting state |
| Quotes.ReadableLines | src/frame/parsing_inline.rs:59-177 | a line is read if and only if the automaton ends well and counts no more arguments than the limit, and then into that many |
| Faults.LeafFault | src/frame/parsing_entrypoints.rs:118-151 | a measured frame without children is refused if and only if it is a verbatim string without a three-byte format and a colon |
| Faults.RefusedIffSpoiled | src/frame/parsing_entrypoints.rs:28-75 | a measured frame with a type byte is refused if and only if such a string is somewhere in it, at any depth |
| Faults.RefusedIffElementSpoiled | src/frame/parsing_array_values.rs:42-53 | the same for a run of elements |
| Faults.RefusedExactly | src/frame/parsing_entrypoints.rs:2-26 | measured bytes are refused if and only if they hold a bad verbatim string or, for an inline command, are badly quoted or have too many arguments |
| Printer.AppendFrame | src/frame/serialization.rs:63-118 | appends exactly the encoding of the frame in the given protocol version |
| Printer.AppendAttribute | src/frame/serialization.rs:112-116 | attributes are printed in the newer protocol and dropped in the older |
| Printer.AppendSequence | src/frame/serialization.rs:134-141 | appends the length header and the elements in order |
| Printer.AppendMap | src/frame/serialization.rs:143-151 | appends the entry count, then keys and values alternating |
| Printer.AppendMapAsArray | src/frame/serialization.rs:153-161 | appends twice the entry count, then keys and values alternating |
| Printer.EncodeSeqSplit | src/frame/serialization.rs:134-141 | the encoding of a concatenation is the concatenation of the encodings |
| RoundTrip.LineRoundTrip | src/frame/parsing_simple_values.rs:1-27 | a printed line is scanned and parsed back, whatever follows |
| RoundTrip.BulkRoundTrip | src/frame/parsing_bulk_values.rs:2-40 | a printed bulk string parses back to its bytes, whatever follows |
| RoundTrip.BlobErrorRoundTrip | src/frame/parsing_entrypoints.rs:118-151 | a printed blob error parses back |
| RoundTrip.VerbatimRoundTrip | src/frame/parsing_entrypoints.rs:118-151 | a printed verbatim string parses back with its format |
| RoundTrip.NullRoundTrip | src/frame/parsing_bulk_values.rs:2-40 | the older protocol's null parses back |
| RoundTrip.LeafReadsBack | src/frame/serialization.rs:63-118 | every leaf reads back as its image in either protocol, whatever follows |
| RoundTrip.ImageIsBuilt | src/frame/parsing_array_values.rs:55-70 | a printed aggregate is rebuilt from the images of its children |
| RoundTrip.FrameReadsBack | src/frame/serialization.rs:63-161 | a frame that fits is scanned to its exact end, charged its exact node count and parsed as its image, at any depth and before any further bytes |
| RoundTrip.ElementsReadBack | src/frame/serialization.rs:134-161 | the same for a run of elements |
| RoundTrip.PrintParse | src/frame/parsing_entrypoints.rs:2-18 | parsing the encoding gives the frame's image (itself, or its recursive downgrade) if and only if the numeric, node, depth and byte limits hold |
| RoundTrip.DowngradeIsResp2 | src/frame/serialization.rs:63-118 | the downgrade contains only types of the older protocol |
| RoundTrip.ReprintIsStable | src/frame/serialization.rs:63-118 | printing what the reader saw gives the same bytes again |
| Printed.LeafPrinted | src/frame/serialization.rs:63-101 | the exact bytes of every frame without children in either protocol: type byte, shortest number, line breaks as spaces |
| Printed.AggregatePrinted | src/frame/serialization.rs:102-161 | the exact length line of every aggregate and then its elements; the older protocol drops attributes |
| Printed.ImageIsSeen | src/frame/serialization.rs:63-118 | the downgrade of every frame, spelled out type by type, recursively |
| Printed.PrintedIsSeen | src/frame/serialization.rs:63-118 | a printed frame within the limits is parsed as what a reader of that protocol is to see |
| Batches.ParseMultipleFrames | src/frame/parsing_entrypoints.rs:82-104 | the loop computes the specification ParseMany |
| Batches.ParseManySplit | src/frame/parsing_entrypoints.rs:82-104 | parsing an aligned prefix and then the rest is parsing the whole buffer, and the prefix yields as many frames as it holds |
| Batches.AlignedExtends | src/frame/parsing_frame_bounds.rs:259-289 | aligned prefixes compose and their frame counts add up |
| Batches.ScanCompleteFrames | src/frame/parsing_frame_bounds.rs:259-289 | returns the longest prefix of whole frames and separators; otherwise the verdict on the first frame |
| Batches.ScanCompleteFramesBounded | src/frame/parsing_frame_bounds.rs:291-355 | the bounded loop computes the specification BatchScan |
| Batches.BatchIsGood | src/frame/parsing_frame_bounds.rs:291-355 | from any position a batch is aligned, counts its frames, keeps both limits and stops only where nothing is complete or a limit is hit; it fails only where the parser would |
| Batches.BatchContract | src/frame/parsing_frame_bounds.rs:291-355 | a batch is non-empty, command_count is the number of frames in it and at most max_commands, and with two or more commands the last frame ends within max_bytes; limit_reached exactly if the commands are used up, or the bytes are, or the next frame is complete and would pass them |
| Batches.DrainLosesNothing | src/network/connection.rs:369-379 | the drained pieces and the rest are the buffer, byte for byte |
| Batches.DrainParsesTheSame | src/network/connection.rs:369-379 | parsing the pieces one by one gives what parsing the whole buffer gives, failures included |
| Batches.AlignedGrows | src/frame/parsing_frame_bounds.rs:259-289 | what was separators and whole frames stays so as more bytes arrive |
| Batches.PiecesThenRest | src/frame/parsing_entrypoints.rs:82-104 | whole pieces parsed one by one, and then what follows, are everything parsed at once |
| Pipelines.PipelineIsParsed | src/frame/parsing_entrypoints.rs:82-104 | frames one after the other, with blank lines anywhere between and the beginning of another behind, are parsed as those frames |
| Pipelines.ParsedIffPipeline | src/frame/parsing_entrypoints.rs:82-104 | a buffer is parsed into some frames if and only if it is a pipeline of them and then at most the beginning of another |
| Batches.Connection.ChunksDoNotMatter | src/network/connection.rs:369-379 | in every state of a connection, however the bytes arrived and were handed over, the pieces and then the buffer parse as everything received |
| Batches.Connection.Receive | src/network/connection.rs:359-365 | everything received stays the pieces handed over and the buffer; refused exactly beyond the frame limit; a complete or invalid verdict on the buffer does not change |
| Batches.Connection.TakeCompleteReadBytes | src/network/connection.rs:369-379 | the bytes taken and the bytes kept are the old buffer, and the piece cuts no frame in two |
| Batches.Connection.NextBatch | src/frame/parsing_frame_bounds.rs:291-355 | one call hands over the next piece of the drain, or leaves the buffer alone when nothing is complete |
| Borrowed.ParseUsizeAscii | src/server/resp_helpers.rs:592-604 | agrees with the general length parser on every input, overflow included |
| Borrowed.ParseI64Ascii | src/server/resp_helpers.rs:606-630 | agrees with the general signed parser except, exactly, on a plus sign and on the least integer |
| Borrowed.AppendUsizeDecimal | src/server/resp_helpers.rs:678-692 | appends the decimal digits, most significant first, within the twenty-byte buffer |
| Borrowed.ParseBorrowedBulkArg | src/server/resp_helpers.rs:118-131 | takes one bulk argument and moves the position behind it, or fails |
| Borrowed.BorrowedArgs | src/server/resp_helpers.rs:12-26 | takes the arguments of one command in order |
| Borrowed.ParseBorrowedRespCommands | src/server/resp_helpers.rs:1-30 | the loop computes the specification Commands |
| Borrowed.BulkArgAgrees | src/server/resp_helpers.rs:118-131 | on a complete bulk string both parsers see the same bytes and the same end |
| Borrowed.BulkArgsAgree | src/server/resp_helpers.rs:1-30 | the same for a run of arguments |
| Borrowed.CommandAgrees | src/server/resp_helpers.rs:1-30 | on a complete frame the zero-copy command is the general parser's array of bulk strings |
| Borrowed.BorrowedRefinesGeneral | src/server/resp_helpers.rs:1-30 | on a buffer of complete frames, if the zero-copy parser returns commands then the general parser succeeds with the same arrays in order |
| Borrowed.ParseBorrowedPlainSetCommands | src/server/resp_helpers.rs:32-55 | succeeds exactly when every generic command is a two-argument SET, with the same slices |
| Borrowed.PlainSetAt | src/server/resp_helpers.rs:36-52 | one SET, looked at argument by argument, is the generic command converted |
| Borrowed.ParseBorrowedPlainHsetCommands | src/server/resp_helpers.rs:57-85 | succeeds exactly when every generic command is an HSET with whole pairs, with the same slices |
| Borrowed.PlainHsetAt | src/server/resp_helpers.rs:61-82 | one HSET is the generic command converted |
| Borrowed.PairsAt | src/server/resp_helpers.rs:76-81 | the pair loop takes the arguments two by two |
| PlainCommands.PrintedCommandsAreTaken | src/server/resp_helpers.rs:1-30 | printed commands of any length, one after the other, are taken as those commands |
| PlainCommands.PrintedSets | src/server/resp_helpers.rs:32-55 | the single-pass SET parser takes a printed pipeline if and only if every command is SET, a key and a value, and gives each its own |
| PlainCommands.PrintedHashSets | src/server/resp_helpers.rs:57-85 | the same for HSET, its key and its fields with their values in order |
| Glob.MatchesIsRecursive | src/network/session_glob.rs:35-65 | cutting the text into one piece per token and the recursive reading are the same relation |
| Glob.StarForgets | src/network/session_glob.rs:42-45 | a new star may forget the previous one without losing a match |
| Glob.NoRetryAtEnd | src/network/session_glob.rs:52-64 | once the text is used up no later start can match |
| Glob.GlobMatchTokens | src/network/session_glob.rs:35-65 | the loop that remembers one star decides the declarative relation, and ends; GlobGrammar.TokensMean says what the tokens mean |
| Glob.SimpleGlobMatches | src/command/capabilities.rs:307-334 | what it accepts matches; on values without a star it accepts everything that matches |
| Glob.SimpleIsSound | src/command/capabilities.rs:307-334 | on every value, whatever it accepts does match |
| Glob.SimpleIsComplete | src/command/capabilities.rs:307-334 | on values without a star nothing that matches is missed |
| Glob.StarInValueIsMissed | src/command/capabilities.rs:307-334 | for every value with a star there is a pattern that matches and is refused |
| Glob.SimpleMatcherExact | src/command/capabilities.rs:307-334 | it is right about every pattern if and only if the value holds no star |
| Patterns.ParseClass | src/network/session_glob.rs:104-146 | the class parser computes ClassAt: negation, ranges, escapes, or unterminated |
| Patterns.ParseGlob | src/network/session_glob.rs:67-102 | compiles to the pattern's tokens with neighbouring stars collapsed |
| Patterns.DropStar | src/network/session_glob.rs:72-77 | one of two neighbouring stars can go, anywhere in a token list |
| Patterns.CollapsedStars | src/network/session_glob.rs:67-102 | collapsing stars does not change the matched set |
| Patterns.GlobMatch | src/network/session_glob.rs:30-33 | compiling and running the loop decides the meaning of the pattern; GlobGrammar.MatchesIffMeant says what that is, byte by byte |
| Patterns.EscapedMatchesItself | src/network/session_glob.rs:82-85 | a string with every byte escaped matches that string and nothing else |
| Patterns.UnterminatedClassMatchesNothing | src/network/session_glob.rs:86-94 | a pattern that reaches an unterminated class matches nothing |
| Patterns.UnclosedBracketMatchesNothing | src/network/session_glob.rs:86-94 | a pattern whose first opening bracket follows no escape and precedes no closing bracket matches nothing |
| Patterns.PrintedPatternMeans | src/network/session_glob.rs:67-146 | every token list a pattern can compile to, printed and compiled, comes back; the printed pattern matches what the tokens match |
| Patterns.TokensAreCompiled | src/network/session_glob.rs:67-146 | every pattern compiles to such a list: ordered ranges, nothing behind an unterminated class |
| GlobGrammar.MembersRead | src/network/session_glob.rs:104-146 | a written class body, bytes and ranges, escaped or not, is read as those members |
| GlobGrammar.TokensMean | src/network/session_glob.rs:35-65 | matching the tokens of a written pattern is matching its elements one by one on the text |
| GlobGrammar.WrittenPatternMeans | src/network/session_glob.rs:30-146 | a written pattern matches a text if and only if the elements mean it: stars, question marks, literals, classes and negated classes |
| GlobGrammar.ClassMatches | src/network/session_glob.rs:104-146 | a class alone matches one byte that is a member or lies in a range, ends in either order; negated, one byte for which that fails |
| GlobGrammar.MatchesIffMeant | src/network/session_glob.rs:30-146 | any pattern matches a text if and only if it can be read as elements that mean it |
| Patterns.MatchersAgree | src/command/capabilities.rs:307-334 | on patterns without brackets and backslashes and values without stars both matchers decide the same relation |
| Order.ZeroByteIsSuccessor | src/store/kv_store_scans.rs:450-501 | appending a zero byte gives the very next key in byte order |
| Order.LessIff | src/store/kv_store_scans.rs:450-501 | the order of keys: where two first differ, the one that ends or has the smaller byte comes first |
| Order.PrefixIsRange | src/store/kv_store_iterator_helpers.rs:85-95 | a key starts with the prefix if and only if it lies between the prefix and its upper bound |
| Order.PrefixExclusiveUpperBound | src/store/kv_store_iterator_helpers.rs:85-95 | the loop computes that bound; none for prefixes of 0xFF bytes only |
| Scans.VisitSplit | src/store/kv_store_iterator_helpers.rs:63-83 | visiting two runs one after the other is visiting their concatenation, early stop included |
| Scans.CollectScanCursorInto | src/store/kv_store_iterator_helpers.rs:40-61 | visits exactly the first `limit` items of the joined batches until the visitor stops |
| Scans.VisitScanBatch | src/store/kv_store_iterator_helpers.rs:63-83 | one batch: goes on only if neither the limit nor the visitor stopped it |
| Scans.SelectAfter | src/store/kv_store_scans.rs:450-501 | restarting at the successor of the last key selects exactly what is left |
| Scans.SelectBefore | src/store/kv_store_scans.rs:503-553 | ending before the last key selects exactly what is left below it |
| Scans.ChunkStep | src/store/kv_store_scans.rs:450-501 | one more chunk keeps the calls those of a single scan |
| Scans.ScanRangeRawVisit | src/store/kv_store_scans.rs:354-427 | the one-shot visit makes the calls of a single scan of the range, in whatever batches |
| Scans.ScanRangeRawVisitChunked | src/store/kv_store_scans.rs:450-501 | the chunked visit makes the same calls in the same order with the same count, for every chunk size, limit and early stop |
| Scans.ScanRangeRawVisitReverse | src/store/kv_store_scans.rs:503-553 | the reverse visit does so in descending order |
| Scans.SelectIsRange | src/store/kv_store_scans.rs:354-427 | the items of a range are exactly those of the store from the lower bound on and before the upper, in increasing order |
| Scans.FinishedIsCalls | src/store/kv_store_iterator_helpers.rs:63-83 | a finished visit called the visitor on the items in order, each call from the state the last one left, and stopped only at a stop, the limit or the end |
| Merge.WordRoundTrip | src/store/kv_store_merge_operator.rs:12-17 | a number survives its big-endian bytes |
| Merge.BytesRoundTrip | src/store/kv_store_merge_operator.rs:12-17 | bytes survive the number they stand for |
| Merge.OperandRoundTrip | src/store/kv_store_merge_operator.rs:12-17 | every 64-bit integer survives the eight-byte operand and every eight bytes are one |
| Merge.EncodeString | src/store/kv_store_merge_operator.rs:37-45 | writes the expiry, a zero word, the type byte and the decimal value |
| Merge.StoredRoundTrip | src/store/kv_store_merge_operator.rs:19-45 | value and expiry survive the stored form, for all 64-bit values |
| Merge.EncodeDecode | src/store/kv_store_merge_operator.rs:19-55 | the same through the choice between string and hash-field form |
| Merge.FullMerge | src/store/kv_store_merge_operator.rs:62-88 | the loop computes the specification FullMerged, failures included |
| Merge.MergeInTwoGoes | src/store/kv_store_merge_operator.rs:62-88 | merging a list in two goes through the stored form changes nothing, failures included |
| Merge.MergeKeepsExpiry | src/store/kv_store_merge_operator.rs:62-88 | the expiry is kept and the value moves by the sum of the operands |
| Merge.PartialMergeValue | src/store/kv_store_merge_operator.rs:90-97 | a partial merge is the sum of its two operands |
| Merge.PartialMergeExact | src/store/kv_store_merge_operator.rs:90-97 | replacing two neighbouring operands anywhere in a full merge by their partial merge changes the result if and only if the stored value decodes and the running value leaves the range between the two, is back after them and does not overflow later |
| Merge.PartialMergeIsSafe | src/store/kv_store_merge_operator.rs:90-97 | replacing neighbours by their partial merge keeps every successful full merge |
| Merge.PartialMergeMayRescue | src/store/kv_store_merge_operator.rs:90-97 | on the largest value, stored under any string key with any expiry, up and down by one fails and their partial merge succeeds |
| Counters.DecodedIsDelta | src/store/kv_store_merge_operator.rs:12-17 | an operand is accepted if and only if it has eight bytes, and is their big-endian two's-complement value |
| Counters.DecodedIsHeld | src/store/kv_store_merge_operator.rs:19-55 | a stored value decodes if and only if it holds a number, byte by byte, and to that number and expiry; a missing key is zero without expiry |
| Counters.MergeExactly | src/store/kv_store_merge_operator.rs:62-88 | a merge succeeds if and only if every operand has eight bytes and no sum on the way leaves the range; it then stores, byte by byte, the final sum with the old expiry |
| Counters.NoMergeWithoutNumber | src/store/kv_store_merge_operator.rs:62-88 | what holds no number cannot be merged |
| Counters.MissingKeyStartsAtZero | src/store/kv_store_merge_operator.rs:70-75 | a successful merge on a missing key stores exactly the sum of the operands with expiry 0 |
| Counters.PartialMergeExactly | src/store/kv_store_merge_operator.rs:90-97 | two operands merge ahead of time if and only if both have eight bytes and the sum is in range, into the eight bytes of the sum |
| Coalesce.GroupIsOneCall | src/server/borrowed_write_fast_paths.rs:530-584 | running a group of pushes one by one is one storage call with the lengths taken apart |
| Coalesce.Db.ListPush | src/store/db/list_push_ops.rs:475-515 | the values end up in order at the right end or reversed at the left, the answer is the new length, nothing else changes, and a key of another type is left alone |
| Coalesce.Db.HashTake | src/store/db/hash_get_set_ex.rs:93-108 | each field answers what it held unless asked for before in the same call, all are gone afterwards, and nothing else changes |
| Coalesce.PushEachMeans | src/store/db/list_push_ops.rs:499-515 | pushing one by one is appending in order, or prepending in reverse |
| Coalesce.TakeEachMeans | src/store/db/hash_basic_write.rs:1223-1229 | taking fields one by one is answering first occurrences and deleting them all |
| Coalesce.PushesMean | src/server/borrowed_write_fast_paths.rs:530-584 | over any run of pushes, each store follows from the one before by the command's own name, key and values, with its answer |
| Coalesce.CountMeans | src/server/borrowed_write_fast_paths.rs:436-454 | the fields that answered are as many as the names the hash held |
| Coalesce.TakesMean | src/server/borrowed_write_fast_paths.rs:390-528 | over any run of HDEL or HGETDEL, each store follows from the one before by taking the named fields, with the answer that the fields held before determine |
| Coalesce.TakePushGroup | src/server/borrowed_write_fast_paths.rs:544-559 | collects the longest run with the same list and end, its values and counts |
| Coalesce.PushReplies | src/server/borrowed_write_fast_paths.rs:566-581 | one reply per command: the running length, or the error repeated |
| Coalesce.HandleListPushCommands | src/server/borrowed_write_fast_paths.rs:530-584 | the coalescing loop leaves the store and the replies exactly as the commands one by one would: LPUSH in any letter case puts its values in front, the last one first, any other name behind, and each answer is the length after its command |
| Coalesce.TakenTwice | src/store/db/hash_basic_write.rs:1208-1247 | two delete calls in a row are one call on the concatenated fields, repeated fields and errors included |
| Coalesce.GroupIsOneTake | src/server/borrowed_write_fast_paths.rs:390-457 | running a group of hash deletes one by one is one storage call with the values handed out |
| Coalesce.TakeHashGroup | src/server/borrowed_write_fast_paths.rs:415-434 | collects a run on one hash with at most 256 fields unless a single command has more |
| Coalesce.TakeReplies | src/server/borrowed_write_fast_paths.rs:436-454 | one reply per command, from its own share of the values |
| Coalesce.HandleHashCommands | src/server/borrowed_write_fast_paths.rs:390-528 | the HDEL and HGETDEL loops leave the store and the replies exactly as the commands one by one would: HDEL answers how many of its names the hash then held, HGETDEL what each held, a repeated name nothing, and an emptied hash is gone |
| ResponseBudget.FrameResponseCost | src/server/transaction_command_apply.rs:171-230 | the worklist with early abort answers exactly when the recursive node count and byte total are both within limits, with those totals |
| ResponseBudget.TransactionResponseBudget.Push | src/server/transaction_command_apply.rs:129-158 | keeps the totals of everything pushed, or gives up for good |
| ResponseBudget.TransactionResponseBudget.Finish | src/server/transaction_command_apply.rs:160-168 | the reply of EXEC to everything pushed: all of it exactly when within budget, else the one overflow error |
| ResponseBudget.CollectExecReply | src/server/transaction_command_apply.rs:57-111 | pushing all replies and finishing gives all of them exactly when the whole is within budget |
| ResponseBudget.CostIsEncodedLength | src/server/transaction_command_apply.rs:171-230 | in either protocol the charge is the exact length sent if and only if the gap of the frame is zero, as it is on plain frames in the older one |
| ResponseBudget.SentInCostPlusGap | src/server/transaction_command_apply.rs:171-230 | every frame is sent, in either protocol, in exactly its charge plus its gap, a sum over its nodes |
| ResponseBudget.ReplyFitsExactly | src/server/transaction_command_apply.rs:114-169 | a reply within budget is sent within the frame limit if and only if its gap is no larger than the room left |
| ResponseBudget.CoveredReplyFits | src/server/transaction_command_apply.rs:114-169 | a reply within budget none of whose nodes is undercharged is sent within the frame limit |
| ResponseBudget.ReplyFits | src/server/transaction_command_apply.rs:114-169 | a reply within budget has one item per command and encodes within the frame limit |
| ResponseBudget.ReplyReadsBack | src/server/transaction_command_apply.rs:114-169 | a client parses such a reply back if and only if it is not nested too deeply |
| ResponseBudget.OverflowReadsBack | src/server/transaction_command_apply.rs:160-168 | beyond the budget a client of either protocol parses an array of the one overflow error, letter by letter |
| ResponseBudget.DoublesOverrun | src/server/transaction_command_apply.rs:194 | 900,000 copies of ten to the sixty-ninth are within budget and are sent in more than the frame limit |
| LuaCache.AfterEviction | src/lua/registry.rs:80-89 | evicting the oldest hash keeps queue and map in step and frees its bytes |
| LuaCache.AfterInsertion | src/lua/registry.rs:90-92 | inserting a new hash keeps queue and map in step and adds its bytes |
| LuaCache.EvictionIsConsistent | src/lua/registry.rs:80-89 | survivors stay the most recently inserted scripts and the byte count stays exact |
| LuaCache.InsertionIsConsistent | src/lua/registry.rs:90-92 | with room for one more, inserting keeps both caps and everything else |
| LuaCache.LuaScriptCache.Load | src/lua/registry.rs:68-94 | refuses only scripts over the size limit; otherwise the script is present, the oldest are gone, no more of them than needed, and the cache stays valid |
| LuaCache.LuaScriptCache.MakeRoom | src/lua/registry.rs:80-89 | the eviction loop ends with both caps free for the script and never runs out of scripts while a cap is violated |
| LuaCache.LuaScriptCache.Get | src/lua/registry.rs:96-104 | finds exactly the scripts that survive of those inserted since the last flush, each under its own hash |
| LuaCache.LuaScriptCache.Flush | src/lua/registry.rs:117-126 | empties the cache and keeps it valid |
| LuaCache.LoadThenGet | src/lua/registry.rs:68-104 | with a collision-free hash a loaded script is found under its hash |
| Wakeup.StepKeepsSafe | src/network/session_manager_types.rs:136-207 | every step of any setter, waiter or guard keeps the invariant: a waiter parked un-notified while the flag is set still has a notification coming |
| Wakeup.RunIsSafe | src/network/session_manager_types.rs:136-207 | the invariant holds in every state of every interleaving |
| Wakeup.NoLostWakeup | src/network/session_manager_types.rs:136-207 | once the flag is set and its setter has notified, no waiter is parked un-notified |
| Wakeup.NoSpuriousReturn | src/network/session_manager_types.rs:173-194 | a waiter returns only a mode that a winning setter asked for |
| Wakeup.OneWinner | src/network/connection.rs:217-221 | where nothing clears the flag, at most one setter ever wins, and only it notifies |
| Wakeup.StateIsHistory | src/network/session_manager_types.rs:136-207 | over every interleaving the flag is set exactly while a guard is alive and some setter tried since, and a waiter is notified exactly if somebody notified since it was enabled |
| Wakeup.FirstTryWins | src/network/session_manager_types.rs:161-194 | a setter wins if and only if a guard is alive and it is the first to try since; a waiter that looks returns if and only if one has won |
| Wakeup.SettledMakesProgress | src/network/connection.rs:223-237 | from then on a waiter's own steps bring it closer to returning and nobody sets it back |
| Wakeup.SettledIsNotStuck | src/network/connection.rs:223-237 | a waiter that has not returned always has a step to take |
| Wakeup.FourMovesSuffice | src/network/session_manager_types.rs:151-194 | four own steps are enough to return, however the others are scheduled |
| Subscriptions.InsertKeepsIndex | src/network/session_pubsub.rs:23-26 | adding a subscriber to a name keeps the index exact and without empty lists |
| Subscriptions.InsertKeepsRecords | src/network/session_pubsub.rs:18-22 | adding a name keeps the records exact and none empty |
| Subscriptions.RemoveKeepsIndex | src/network/session_pubsub.rs:83-88 | removing a subscriber keeps the index exact; an emptied list goes |
| Subscriptions.UnlistedKeepsRecords | src/network/session_pubsub.rs:89-99 | removing a name keeps the records exact; an emptied record goes |
| Subscriptions.Prune | src/network/session_pubsub.rs:144-150 | the loop removes the session from every name of its record |
| Subscriptions.PruneRemovesSession | src/network/session_pubsub.rs:140-165 | following the record alone removes the session from the whole index, and nothing else |
| Subscriptions.ViewsAreUnique | src/network/session_pubsub.rs:11-138 | the subscriptions determine the index, so undoing a subscription restores it exactly |
| Subscriptions.CountAfterSubscribing | src/network/session_pubsub.rs:174-197 | a subscription raises the count by the distinct names not held before |
| Subscriptions.CountsAreKeys | src/network/session_pubsub.rs:167-218 | a session is counted once per subscription; an acknowledgement counts its shard channels, or all the others |
| Subscriptions.ActKeepsLimit | src/server/handler_pubsub_acl.rs:51-70 | a refused or accepted SUBSCRIBE, an unsubscription, a departure or a publication takes no session over the limit |
| Subscriptions.LimitIsKept | src/server/handler_pubsub_acl.rs:51-70 | in every run of these operations no session ever holds more subscriptions than the limit |
| Messages.MessageChunks | src/network/session_pubsub.rs:376-404 | the chunks joined are the encoding of one array or push of bulk strings |
| Messages.MessageReadsBack | src/network/session_pubsub.rs:376-404 | a client parses back the very message published if and only if it is within the frame limits |
| Messages.PayloadReads | src/network/session_pubsub.rs:376-404 | a subscriber within the frame limit parses its payload as the kind of message, its pattern if any, the channel and the message, as a push or an array by its protocol |
| PubSub.AccountsAreReceived | src/network/session_pubsub.rs:285-330 | what a publication adds to a queue is read, one by one, as the messages of its deliveries in order |
| PubSub.QueueIsBounded | src/network/connection.rs:158-188 | a queue that only grew by accepted writes holds at most 64 messages, and at most 16 MiB unless it is a single message |
| PubSub.PublishingKeepsBounds | src/network/session_pubsub.rs:250-332 | publishing keeps the permits and slots of every queue accounted for |
| PubSub.SessionManager.Register | src/network/session_pubsub.rs:11-81 | adds exactly one subscription and keeps indices and records in step, for each kind |
| PubSub.SessionManager.Unregister | src/network/session_pubsub.rs:83-138 | removes exactly one subscription and keeps indices and records in step, for each kind |
| PubSub.SessionManager.UnsubscribeAll | src/network/session_pubsub.rs:140-165 | removes every subscription of the session and no other |
| PubSub.SessionManager.RemoveSharedWriterState | src/network/session_registry.rs:22-25 | the same, and the session monitors no longer |
| PubSub.SessionManager.SubscriptionCount | src/network/session_pubsub.rs:167-172 | the record's size is the number of subscriptions |
| PubSub.SessionManager.AdditionalSubscriptionCount | src/network/session_pubsub.rs:174-197 | counts the distinct names asked for that are not held |
| PubSub.SessionManager.SubscriptionAckCount | src/network/session_pubsub.rs:199-218 | channels and patterns together, shard channels apart |
| PubSub.SessionManager.Subscribe | src/server/handler_pubsub_acl.rs:43-105 | refused exactly when the distinct new names would pass the limit, and then nothing changes; otherwise all names are held, the limit is kept, and each acknowledgement has the count at that point |
| PubSub.SessionManager.RegisterAll | src/server/handler_pubsub_acl.rs:71-103 | adds the names in order with the count after each |
| PubSub.SessionManager.TryWrite | src/network/connection.rs:158-188 | queues the message exactly when the writer is open and has a slot and the permits; otherwise closes it |
| PubSub.SessionManager.Deliver | src/network/session_pubsub.rs:285-300 | one delivery is queued once, or costs the session all its subscriptions; every other session and writer is untouched |
| PubSub.SessionManager.SendAll | src/network/session_pubsub.rs:285-300 | sends to each in turn and counts the messages queued |
| PubSub.SessionManager.DropClosed | src/network/session_pubsub.rs:304-314 | drops the sessions whose writer is closed and keeps the others in order |
| PubSub.SessionManager.MatchingPatterns | src/network/session_pubsub.rs:263-277 | collects the subscribers of exactly the patterns that match the channel |
| PubSub.SessionManager.FindTargets | src/network/session_pubsub.rs:250-280 | finds exactly the direct and the pattern subscribers, none twice |
| PubSub.SessionManager.PublishToPatterns | src/network/session_pubsub.rs:302-330 | the pattern half deals with every collected subscriber once |
| PubSub.SessionManager.Publish | src/network/session_pubsub.rs:250-332 | deals with exactly the targets found at the start: each gets its message queued once, in its protocol, or its session is dropped from every index; a writer is newly closed only over a message it had no room for; the answer is the number of messages queued |
| Tracker.VersionsTellTouches | src/store/db/types.rs:769-824 | while a key stays watched, its two versions are those first seen if and only if neither the key nor its database was touched in between |
| Tracker.OpsKeepSound | src/store/db/types.rs:769-824 | no version is ever ahead of the clock, the clock never goes back, and every entry has a watcher |
| Tracker.KeyMutationTracker.RegisterKey | src/store/db/types.rs:769-781 | counts one more watcher; a new entry starts at the clock |
| Tracker.KeyMutationTracker.UnregisterKey | src/store/db/types.rs:783-792 | counts one watcher less; the last one takes the entry away |
| Tracker.KeyMutationTracker.Bump | src/store/db/types.rs:794-800 | moves the version of a watched key to a new clock value; others are left alone |
| Tracker.KeyMutationTracker.BumpDatabase | src/store/db/types.rs:806-810 | moves the version of a database to a new clock value |
| Transactions.Handler.StartTransaction | src/server/transaction_state_watch.rs:3-12 | refuses nesting and a failed view without change; otherwise an empty, clean queue and a view |
| Transactions.Handler.TryAddFrame | src/network/session.rs:143-158 | adds the frame and its encoded size exactly when both limits allow |
| Transactions.Handler.QueueFrame | src/server/transaction_queue_policy.rs:2-50 | queues, or marks the transaction dirty with the first applicable fault; Replies.QueueReply says which, over every run |
| Transactions.Handler.ClearWatches | src/server/transaction_state_watch.rs:57-63 | releases every watched key once and forgets them |
| Transactions.Handler.ClearTransaction | src/server/transaction_state_watch.rs:26-29 | back to a fresh session, with every watch released |
| Transactions.Handler.DiscardTransaction | src/cmds/transaction/discard.rs:16-22 | outside MULTI an error without change, inside a full clear |
| Transactions.Handler.WatchKeys | src/server/transaction_state_watch.rs:31-55 | takes the keys in order up to the first failed lookup, skipping those already watched |
| Transactions.Handler.WatchKey | src/store/db/core_key_watch.rs:18-27 | registers, looks for expiry, then takes both versions |
| Transactions.Handler.WatchedKeysModified | src/server/transaction_state_watch.rs:70-78 | looks at the watched keys in order up to the first change or failure |
| Transactions.Handler.FirstObjection | src/server/transaction_run.rs:65-105 | the first of: an earlier fault, a frame that does not parse, one no longer permitted, a missing view |
| Transactions.Handler.RunCommands | src/server/transaction_command_apply.rs:57-111 | commits all queued frames in order together, or nothing |
| Transactions.Handler.Execute | src/server/transaction_run.rs:60-117 | EXEC with all its early exits, what each leaves behind, and what is committed |
| Runs.EnqueueKeepsHealthy | src/network/session.rs:143-158 | queueing keeps the byte count, the limits and the queue's contents right |
| Runs.SessionsAreHealthy | src/network/session.rs:125-209 | in every run a view is held exactly inside MULTI, the byte count is the sum of the encoded sizes, both limits hold, and only parseable, queueable frames are queued |
| Runs.QueueIsHistory | src/server/transaction_queue_policy.rs:2-50 | in every run the queue is exactly the frames answered QUEUED since MULTI, and the transaction is dirty exactly if one was refused |
| Runs.ExecCommitsWhatWasQueued | src/server/transaction_run.rs:60-117 | a refused frame makes EXEC abort; a successful EXEC commits exactly the frames answered QUEUED, in order; any other reply commits nothing |
| Runs.CommittedIsExecs | src/server/transaction_run.rs:60-117 | in every run, everything committed so far is the successful EXECs in order, each with the frames answered QUEUED |
| Replies.SessionIsHistory | src/server/transaction_queue_policy.rs:2-50 | in every run whether a client is in MULTI and which keys it watches follow from its turns alone |
| Replies.SizeIsEncodedLength | src/network/session.rs:143-158 | in every run the byte count of a queue is the length of the queued frames printed one after the other |
| Replies.QueueReply | src/server/transaction_queue_policy.rs:2-50 | in every run the exact reply to a queued frame: the first of unparsable, unauthenticated, not permitted, not queueable, over a limit; otherwise QUEUED |
| Replies.QueuedWasAdmitted | src/server/transaction_queue_policy.rs:2-50 | in every run each queued frame was queued by a turn that was authenticated, permitted, parsable and queueable |
| Replies.CommittedWasAdmitted | src/server/transaction_run.rs:60-117 | in every run each committed frame was too |
| Replies.ExecReply | src/server/transaction_run.rs:60-117 | in every run the exact reply of EXEC, from the turns before it, the first watched key that is expired, changed or unreadable, the permissions and the commit |
| Replies.OtherReplies | src/server/transaction_state_watch.rs:3-68 | in every run the exact replies of MULTI, DISCARD, WATCH, UNWATCH and RESET |
| Watches.RegistrationsBalance | src/server/transaction_state_watch.rs:31-68 | in every run each key has one registration per session watching it plus one per failed lookup |
| Watches.LeftBehind | src/store/db/core_key_watch.rs:18-32 | when everybody has left, a key is still registered if and only if the run has a WATCH of it whose lookup failed, outside MULTI and by a client not watching it already |
| Watches.FailedLookupLeaks | src/store/db/core_key_watch.rs:18-27 | connect, a failing WATCH and disconnect leave the key registered |
| Detection.HeldBetween | src/store/db/types.rs:769-792 | in every run a key that a session watches stays registered through every operation of every client |
| Detection.WatchSeesChanges | src/store/db/core_key_watch.rs:42-54 | in every run a watched key looks changed if and only if it or its database was touched since it was watched |
| Detection.WatchStartsFresh | src/store/db/core_key_watch.rs:18-27 | a successful WATCH starts from an unchanged key |
| Detection.QuietInspection | src/server/transaction_state_watch.rs:70-78 | the check passes, and then changes nothing, if and only if every watched key is alive and unmoved |
| Detection.ExecDecision | src/server/transaction_run.rs:60-117 | in every run EXEC commits if and only if the client is in MULTI, no frame was refused, all queued frames are still permitted, every watched key is alive and unmoved, and the commit succeeds |

## Left out

- The storage engine, its log and snapshots: a range is a sorted sequence of items, a keyspace a map, a transaction one commit that succeeds or fails.
- The data-type modules of `Db` beyond the two storage calls used by coalesced writes; those two are taken at what their code does on lists and hashes, without expiry.
- Sockets, timeouts, the partial-frame timer, scheduling, shutdown and metrics. Byte chunks, lookups, commits and view creation that may fail are parameters.
- Command tables and argument parsing: whether a frame parses, may be queued or is permitted is a parameter of the transaction model.
- Lua and Wasm runtimes; the script hash is any function, and only `LuaCache.LoadThenGet` asks for the absence of collisions on the script.
- Floating-point formatting and parsing: a double is the text that stands for it, which must obey the grammar the server accepts.
- Error texts: errors are named reasons. Length arithmetic that could overflow a 64-bit size only on impossible buffers is done on unbounded integers.
- The tracker's clock is unbounded; the source wraps after 2^64 changes.
- The batched HSET write path and the read fast paths: reply formatting over storage calls that are not part of this model.
- Publish/subscribe operations and handler operations are atomic with respect to each other; the concurrent map is not modelled below one operation. The writers' background task is not modelled: queues only fill during one publication.
- Keys in the tracker are database and key; the on-disk key layout is not modelled.
- Monitors beyond their removal with a session, and the commands that only list subscriptions.
