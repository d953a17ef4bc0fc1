/** Pipelined writes to one key, merged into one storage call with the replies taken apart again. */
module Coalesce {
  import opened Bytes
  import Decimal
  import Utf8

  datatype Value = List(items: seq<bytes>) | Hash(fields: map<bytes, bytes>) | Other

  type Keyspace = map<bytes, Value>

  datatype Reply =
    | IntegerReply(n: nat)
    | ArrayReply(values: seq<Option<bytes>>)
    | InvalidKey
    | InvalidField
    | WrongType

  datatype Ran = Ran(data: Keyspace, replies: seq<Reply>)

  // Lists.

  const LPUSH: bytes := [108, 112, 117, 115, 104]

  type Args = args: seq<bytes> | |args| >= 3 witness [[], [], []]

  predicate IsLeft(args: Args) {
    Decimal.LowerAll(args[0]) == LPUSH
  }

  /** Values pushed one after the other at one end. */
  function PushEach(items: seq<bytes>, left: bool, values: seq<bytes>): (r: seq<bytes>)
    ensures |r| == |items| + |values|
    decreases |values|
  {
    if values == [] then items
    else PushEach(if left then [values[0]] + items else items + [values[0]], left, values[1..])
  }

  lemma {:induction false} PushEachSplit(items: seq<bytes>, left: bool, xs: seq<bytes>, ys: seq<bytes>)
    ensures PushEach(items, left, xs + ys) == PushEach(PushEach(items, left, xs), left, ys)
    decreases |xs|
  {
    if xs == [] {
      assert xs + ys == ys;
    } else {
      assert (xs + ys)[1..] == xs[1..] + ys;
      PushEachSplit(if left then [xs[0]] + items else items + [xs[0]], left, xs[1..], ys);
    }
  }

  function ListAt(data: Keyspace, key: bytes): Option<seq<bytes>> {
    if key !in data then Some([])
    else match data[key] case List(items) => Some(items) case _ => None
  }

  function Backwards(values: seq<bytes>): (r: seq<bytes>)
    ensures |r| == |values|
  {
    seq(|values|, i requires 0 <= i < |values| => values[|values| - 1 - i])
  }

  /** Pushed one by one, the values end up in order at the right and reversed at the left. */
  lemma {:induction false} PushEachMeans(items: seq<bytes>, left: bool, values: seq<bytes>)
    ensures PushEach(items, left, values) == if left then Backwards(values) + items else items + values
    decreases |values|
  {
    if values != [] {
      PushEachMeans(if left then [values[0]] + items else items + [values[0]], left, values[1..]);
      assert Backwards(values) == Backwards(values[1..]) + [values[0]];
      Assoc(Backwards(values[1..]), [values[0]], items);
      assert values == [values[0]] + values[1..];
    } else {
      assert Backwards(values) + items == items && items + values == items;
    }
  }

  /** The storage call: all values at one end of one list. */
  function ListPushed(data: Keyspace, key: bytes, left: bool, values: seq<bytes>): (Keyspace, Result<nat, Reply>) {
    match ListAt(data, key)
    case None => (data, Failure(WrongType))
    case Some(items) =>
      var after := PushEach(items, left, values);
      (data[key := List(after)], Success(|after|))
  }

  /** One command on its own. */
  function RunPush(data: Keyspace, args: Args): (Keyspace, Reply) {
    if !Utf8.Valid(args[1]) then (data, InvalidKey)
    else
      var (after, result) := ListPushed(data, args[1], IsLeft(args), args[2..]);
      (after, match result case Success(n) => IntegerReply(n) case Failure(error) => error)
  }

  function RunPushes(data: Keyspace, commands: seq<Args>): Ran
    decreases |commands|
  {
    if commands == [] then Ran(data, [])
    else
      var (after, reply) := RunPush(data, commands[0]);
      var rest := RunPushes(after, commands[1..]);
      Ran(rest.data, [reply] + rest.replies)
  }

  predicate EitherCase(x: int, upper: int) {
    x == upper || x == upper + 32
  }

  /** The bytes of a name, each letter in either case. */
  predicate Named(word: bytes, upper: bytes) {
    |word| == |upper| && forall i :: 0 <= i < |word| ==> EitherCase(word[i], upper[i])
  }

  /** What one push does to a store: LPUSH, in any letter case, puts its values in front, the last one
      first; any other name puts them behind; the answer is the new length. */
  ghost predicate PushStep(before: Keyspace, args: Args, after: Keyspace, reply: Reply) {
    var key, values := args[1], args[2..];
    if !Utf8.Valid(key) then after == before && reply == InvalidKey
    else if key in before && !before[key].List? then after == before && reply == WrongType
    else
      var held := if key in before then before[key].items else [];
      && after - {key} == before - {key} && key in after && after[key].List?
      && reply == IntegerReply(|held| + |values|) && |after[key].items| == |held| + |values|
      && if Named(args[0], [76, 80, 85, 83, 72]) then
           && after[key].items[|values|..] == held
           && forall i :: 0 <= i < |values| ==> after[key].items[|values| - 1 - i] == values[i]
         else after[key].items == held + values
  }

  /** The stores before and after each command, with the answers. */
  ghost predicate PushTrace(stores: seq<Keyspace>, commands: seq<Args>, replies: seq<Reply>) {
    && |stores| == |commands| + 1 && |replies| == |commands|
    && forall i :: 0 <= i < |commands| ==> PushStep(stores[i], commands[i], stores[i + 1], replies[i])
  }

  ghost predicate Pushed(before: Keyspace, commands: seq<Args>, after: Keyspace, replies: seq<Reply>) {
    exists stores :: PushTrace(stores, commands, replies) && stores[0] == before && stores[|commands|] == after
  }

  lemma LeftIsNamed(word: bytes)
    ensures Decimal.LowerAll(word) == LPUSH <==> Named(word, [76, 80, 85, 83, 72])
  {
    var lower := Decimal.LowerAll(word);
    if Named(word, [76, 80, 85, 83, 72]) {
      assert lower == LPUSH;
    }
    if lower == LPUSH {
      assert lower[0] == 108 && lower[1] == 112 && lower[2] == 117 && lower[3] == 115 && lower[4] == 104;
    }
  }

  lemma PushMeans(data: Keyspace, args: Args)
    ensures PushStep(data, args, RunPush(data, args).0, RunPush(data, args).1)
  {
    LeftIsNamed(args[0]);
    if Utf8.Valid(args[1]) && ListAt(data, args[1]).Some? {
      PushEachMeans(ListAt(data, args[1]).value, IsLeft(args), args[2..]);
    }
  }

  lemma {:induction false} PushesMean(data: Keyspace, commands: seq<Args>)
    ensures Pushed(data, commands, RunPushes(data, commands).data, RunPushes(data, commands).replies)
    decreases |commands|
  {
    hide RunPush;
    hide PushStep;
    var ran := RunPushes(data, commands);
    if commands == [] {
      assert PushTrace([data], commands, ran.replies);
    } else {
      PushMeans(data, commands[0]);
      var (after, reply) := RunPush(data, commands[0]);
      var rest := RunPushes(after, commands[1..]);
      PushesMean(after, commands[1..]);
      var later :| PushTrace(later, commands[1..], rest.replies) && later[0] == after
                   && later[|commands| - 1] == rest.data;
      var stores := [data] + later;
      forall i | 0 <= i < |commands|
        ensures PushStep(stores[i], commands[i], stores[i + 1], ran.replies[i])
      {
        if i > 0 {
          assert PushStep(later[i - 1], commands[1..][i - 1], later[i], rest.replies[i - 1]);
        }
      }
      assert PushTrace(stores, commands, ran.replies);
    }
  }

  lemma {:induction false} RunPushesSplit(data: Keyspace, xs: seq<Args>, ys: seq<Args>)
    ensures var first := RunPushes(data, xs);
            var second := RunPushes(first.data, ys);
            RunPushes(data, xs + ys) == Ran(second.data, first.replies + second.replies)
    ensures |RunPushes(data, xs).replies| == |xs|
    decreases |xs|
  {
    if xs == [] {
      assert xs + ys == ys;
    } else {
      assert (xs + ys)[1..] == xs[1..] + ys;
      RunPushesSplit(RunPush(data, xs[0]).0, xs[1..], ys);
    }
  }

  /** Commands that may share one storage call. */
  predicate SameTarget(args: Args, key: bytes, left: bool) {
    IsLeft(args) == left && args[1] == key
  }

  predicate AllSameTarget(group: seq<Args>, key: bytes, left: bool) {
    forall i :: 0 <= i < |group| ==> SameTarget(group[i], key, left)
  }

  function GroupValues(group: seq<Args>): seq<bytes> {
    if group == [] then [] else group[0][2..] + GroupValues(group[1..])
  }

  function GroupCounts(group: seq<Args>): (r: seq<nat>)
    ensures |r| == |group|
  {
    if group == [] then [] else [|group[0]| - 2] + GroupCounts(group[1..])
  }

  /** The list lengths after each command, from the length before the first. */
  function RunningLengths(len: nat, counts: seq<nat>): (r: seq<Reply>)
    ensures |r| == |counts|
    decreases |counts|
  {
    if counts == [] then [] else [IntegerReply(len + counts[0])] + RunningLengths(len + counts[0], counts[1..])
  }

  function Repeat(reply: Reply, n: nat): (r: seq<Reply>)
    ensures |r| == n
  {
    seq(n, _ => reply)
  }

  lemma PushOnto(data: Keyspace, items: seq<bytes>, args: Args)
    requires Utf8.Valid(args[1]) && ListAt(data, args[1]) == Some(items)
    ensures var after := PushEach(items, IsLeft(args), args[2..]);
            && RunPush(data, args) == (data[args[1] := List(after)], IntegerReply(|items| + (|args| - 2)))
            && ListAt(RunPush(data, args).0, args[1]) == Some(after)
  {
  }

  lemma RunFirst(data: Keyspace, commands: seq<Args>)
    requires commands != []
    ensures var (after, reply) := RunPush(data, commands[0]);
            var rest := RunPushes(after, commands[1..]);
            RunPushes(data, commands) == Ran(rest.data, [reply] + rest.replies)
  {
  }

  lemma {:induction false} GroupOnList(data: Keyspace, items: seq<bytes>, group: seq<Args>, key: bytes, left: bool)
    requires AllSameTarget(group, key, left) && Utf8.Valid(key) && group != []
    requires ListAt(data, key) == Some(items)
    ensures RunPushes(data, group) ==
            Ran(data[key := List(PushEach(items, left, GroupValues(group)))],
                RunningLengths(|items|, GroupCounts(group)))
    decreases |group|
  {
    hide RunPush;
    hide RunPushes;
    hide PushEach;
    var first, rest := group[0], group[1..];
    assert SameTarget(first, key, left);
    RunFirst(data, group);
    PushOnto(data, items, first);
    var after := PushEach(items, left, first[2..]);
    var (data', reply) := RunPush(data, first);
    assert GroupCounts(group)[1..] == GroupCounts(rest);
    if rest == [] {
      RunNone(data');
      assert GroupValues(group) == first[2..];
    } else {
      assert AllSameTarget(rest, key, left);
      GroupOnList(data', after, rest, key, left);
      PushEachSplit(items, left, first[2..], GroupValues(rest));
      assert data'[key := List(PushEach(items, left, GroupValues(group)))] ==
             data[key := List(PushEach(items, left, GroupValues(group)))];
    }
  }

  lemma RunNone(data: Keyspace)
    ensures RunPushes(data, []) == Ran(data, [])
  {
  }

  lemma {:induction false} GroupOnWrongType(data: Keyspace, group: seq<Args>, key: bytes, left: bool)
    requires AllSameTarget(group, key, left) && Utf8.Valid(key) && ListAt(data, key).None?
    ensures RunPushes(data, group) == Ran(data, Repeat(WrongType, |group|))
    decreases |group|
  {
    if group != [] {
      assert SameTarget(group[0], key, left);
      assert AllSameTarget(group[1..], key, left);
      GroupOnWrongType(data, group[1..], key, left);
      assert Repeat(WrongType, |group|) == [WrongType] + Repeat(WrongType, |group| - 1);
    }
  }

  /** One reply per command of a group, from the result of its storage call. */
  function PushAnswers(result: Result<nat, Reply>, counts: seq<nat>, total: nat): seq<Reply> {
    match result
    case Success(len) => RunningLengths(if len >= total then len - total else 0, counts)
    case Failure(error) => Repeat(error, |counts|)
  }

  /** Running a group command by command is one storage call with the lengths taken apart. */
  lemma GroupIsOneCall(data: Keyspace, group: seq<Args>, key: bytes, left: bool)
    requires AllSameTarget(group, key, left) && Utf8.Valid(key) && group != []
    ensures var (after, result) := ListPushed(data, key, left, GroupValues(group));
            RunPushes(data, group) ==
            Ran(after, PushAnswers(result, GroupCounts(group), |GroupValues(group)|))
  {
    hide RunPushes;
    if ListAt(data, key).Some? {
      GroupOnList(data, ListAt(data, key).value, group, key, left);
    } else {
      GroupOnWrongType(data, group, key, left);
    }
  }

  lemma {:induction false} GroupGrows(group: seq<Args>, args: Args)
    ensures GroupValues(group + [args]) == GroupValues(group) + args[2..]
    ensures GroupCounts(group + [args]) == GroupCounts(group) + [|args| - 2]
    decreases |group|
  {
    if group == [] {
      assert group + [args] == [args];
      assert [args][1..] == [];
    } else {
      assert (group + [args])[1..] == group[1..] + [args];
      GroupGrows(group[1..], args);
    }
  }

  class Db {
    var data: Keyspace

    constructor ()
      ensures data == map[]
    {
      data := map[];
    }

    /** The values end up at the one end, in order at the right and reversed at the left; nothing else
        changes, and a key of another type is left alone. */
    method ListPush(key: bytes, left: bool, values: seq<bytes>) returns (r: Result<nat, Reply>)
      modifies this
      ensures (data, r) == ListPushed(old(data), key, left, values)
      ensures r.Failure? <==> key in old(data) && !old(data)[key].List?
      ensures r.Failure? ==> data == old(data)
      ensures r.Success? ==>
        var before := ListAt(old(data), key).value;
        && data == old(data)[key := List(if left then Backwards(values) + before else before + values)]
        && r.value == |before| + |values|
    {
      if key in data && !data[key].List? {
        return Failure(WrongType);
      }
      var items := if key in data then data[key].items else [];
      PushEachMeans(items, left, values);
      ghost var before := items;
      for i := 0 to |values|
        invariant PushEach(before, left, values) == PushEach(items, left, values[i..])
        invariant |items| == |before| + i
      {
        assert values[i..][1..] == values[i + 1..];
        items := if left then [values[i]] + items else items + [values[i]];
      }
      assert values[|values|..] == [];
      data := data[key := List(items)];
      return Success(|items|);
    }

    /** Each field answers what it held, once; all of them are gone, and the key with the last. */
    method HashTake(key: bytes, names: seq<bytes>) returns (r: Result<seq<Option<bytes>>, Reply>)
      modifies this
      ensures (data, r) == HashTaken(old(data), key, names)
      ensures r.Failure? <==> key in old(data) && !old(data)[key].Hash?
      ensures r.Failure? ==> data == old(data)
      ensures r.Success? ==>
        var before := FieldsAt(old(data), key).value;
        && |r.value| == |names| && (forall i :: 0 <= i < |names| ==> r.value[i] == FirstTaken(before, names, i))
        && FieldsAt(data, key) == Some(before - (set name | name in names))
        && data - {key} == old(data) - {key}
    {
      if key in data && !data[key].Hash? {
        return Failure(WrongType);
      }
      var fields := if key in data then data[key].fields else map[];
      TakeEachMeans(fields, names);
      var values: seq<Option<bytes>> := [];
      var seen: set<bytes> := {};
      for i := 0 to |names|
        invariant |values| == i && (forall j :: 0 <= j < i ==> values[j] == FirstTaken(fields, names, j))
        invariant seen == set name | name in names[..i]
      {
        var name := names[i];
        values := values + [if name in fields && name !in seen then Some(fields[name]) else None];
        seen := seen + {name};
        assert names[..i + 1] == names[..i] + [name];
      }
      assert names[..|names|] == names;
      assert values == TakeEach(fields, names).values;
      var left := fields - seen;
      if left != fields {
        data := if left == map[] then data - {key} else data[key := Hash(left)];
      }
      return Success(values);
    }
  }

  /** The longest run of commands from `start` on with the same list and the same end. */
  method TakePushGroup(commands: seq<Args>, start: nat)
    returns (index: nat, values: seq<bytes>, counts: seq<nat>)
    requires start < |commands|
    ensures start < index <= |commands|
    ensures AllSameTarget(commands[start..index], commands[start][1], IsLeft(commands[start]))
    ensures values == GroupValues(commands[start..index])
    ensures counts == GroupCounts(commands[start..index])
    ensures index < |commands| ==> !SameTarget(commands[index], commands[start][1], IsLeft(commands[start]))
  {
    var key, left := commands[start][1], IsLeft(commands[start]);
    counts, values, index := [], [], start;
    while index < |commands| && SameTarget(commands[index], key, left)
      invariant start <= index <= |commands|
      invariant AllSameTarget(commands[start..index], key, left)
      invariant values == GroupValues(commands[start..index])
      invariant counts == GroupCounts(commands[start..index])
    {
      GroupGrows(commands[start..index], commands[index]);
      assert commands[start..index] + [commands[index]] == commands[start..index + 1];
      counts := counts + [|commands[index]| - 2];
      values := values + commands[index][2..];
      index := index + 1;
    }
  }

  /** The coalescing loop leaves the store and answers exactly as the commands one by one would. */
  method HandleListPushCommands(db: Db, commands: seq<Args>) returns (replies: seq<Reply>)
    modifies db
    ensures Ran(db.data, replies) == RunPushes(old(db.data), commands)
    ensures Pushed(old(db.data), commands, db.data, replies)
  {
    hide RunPushes;
    hide Pushed;
    hide ListPushed;
    hide GroupValues;
    hide GroupCounts;
    replies := [];
    var index := 0;
    RunNone(db.data);
    while index < |commands|
      invariant 0 <= index <= |commands|
      invariant Ran(db.data, replies) == RunPushes(old(db.data), commands[..index])
    {
      ghost var start := index;
      ghost var before := db.data;
      var args := commands[index];
      if !Utf8.Valid(args[1]) {
        replies := replies + [InvalidKey];
        index := index + 1;
        OneInvalid(before, args);
        assert commands[start..index] == [args];
      } else {
        var values, counts;
        index, values, counts := TakePushGroup(commands, index);
        GroupIsOneCall(before, commands[start..index], args[1], IsLeft(args));
        var result := db.ListPush(args[1], IsLeft(args), values);
        var more := PushReplies(result, counts, |values|);
        assert Ran(db.data, more) == RunPushes(before, commands[start..index]);
        replies := replies + more;
      }
      ExtendRun(old(db.data), commands, start, index);
    }
    assert commands[..index] == commands;
    PushesMean(old(db.data), commands);
  }

  lemma OneInvalid(data: Keyspace, args: Args)
    requires !Utf8.Valid(args[1])
    ensures RunPushes(data, [args]) == Ran(data, [InvalidKey])
  {
    assert [args][1..] == [];
  }

  lemma ExtendRun(data: Keyspace, commands: seq<Args>, i: nat, j: nat)
    requires i <= j <= |commands|
    ensures var first := RunPushes(data, commands[..i]);
            var second := RunPushes(first.data, commands[i..j]);
            RunPushes(data, commands[..j]) == Ran(second.data, first.replies + second.replies)
  {
    assert commands[..j] == commands[..i] + commands[i..j];
    RunPushesSplit(data, commands[..i], commands[i..j]);
  }

  /** The replies of a group, from the final length and the number of values per command. */
  method PushReplies(result: Result<nat, Reply>, counts: seq<nat>, total: nat) returns (out: seq<Reply>)
    ensures out == PushAnswers(result, counts, total)
  {
    out := [];
    if result.Failure? {
      for i := 0 to |counts|
        invariant out == Repeat(result.error, i)
      {
        out := out + [result.error];
      }
      return;
    }
    var len: nat := if result.value >= total then result.value - total else 0;
    ghost var start := len;
    for i := 0 to |counts|
      invariant out + RunningLengths(len, counts[i..]) == RunningLengths(start, counts)
    {
      assert counts[i..][1..] == counts[i + 1..];
      len := len + counts[i];
      out := out + [IntegerReply(len)];
    }
    assert counts[|counts|..] == [];
  }

  // Hashes: HDEL and HGETDEL both take fields out, and differ in how they answer.

  const MAX_FIELDS_PER_WRITE: nat := 256

  datatype HashCommand = HashCommand(key: bytes, fields: seq<bytes>)
  datatype Answer = CountDeleted | ReturnValues

  datatype TakenFields = TakenFields(left: map<bytes, bytes>, values: seq<Option<bytes>>)

  /** Fields removed one after the other; a repeated field is gone the second time. */
  function TakeEach(fields: map<bytes, bytes>, names: seq<bytes>): (r: TakenFields)
    ensures |r.values| == |names|
    ensures r.left.Keys <= fields.Keys && forall name :: name in r.left ==> r.left[name] == fields[name]
    decreases |names|
  {
    if names == [] then TakenFields(fields, [])
    else
      var name := names[0];
      var value := if name in fields then Some(fields[name]) else None;
      var rest := TakeEach(fields - {name}, names[1..]);
      TakenFields(rest.left, [value] + rest.values)
  }

  /** What field `i` of a call answers: what it held, unless it was asked for before. */
  function FirstTaken(fields: map<bytes, bytes>, names: seq<bytes>, i: nat): Option<bytes>
    requires i < |names|
  {
    if names[i] in fields && names[i] !in names[..i] then Some(fields[names[i]]) else None
  }

  lemma {:induction false} TakeEachMeans(fields: map<bytes, bytes>, names: seq<bytes>)
    ensures var taken := TakeEach(fields, names);
            && taken.left == fields - (set name | name in names)
            && forall i :: 0 <= i < |names| ==> taken.values[i] == FirstTaken(fields, names, i)
    decreases |names|
  {
    if names != [] {
      var less, rest := fields - {names[0]}, names[1..];
      TakeEachMeans(less, rest);
      assert (set name | name in names) == {names[0]} + (set name | name in rest);
      forall i | 0 < i < |names|
        ensures FirstTaken(fields, names, i) == FirstTaken(less, rest, i - 1)
      {
        assert names[..i] == [names[0]] + rest[..i - 1];
      }
    }
  }

  function FieldsAt(data: Keyspace, key: bytes): Option<map<bytes, bytes>> {
    if key !in data then Some(map[])
    else match data[key] case Hash(fields) => Some(fields) case _ => None
  }

  /** The storage call. A hash without fields is no key at all. */
  function HashTaken(data: Keyspace, key: bytes, names: seq<bytes>)
    : (Keyspace, Result<seq<Option<bytes>>, Reply>)
  {
    if key !in data then (data, Success(TakeEach(map[], names).values))
    else match data[key]
         case Hash(fields) =>
           var taken := TakeEach(fields, names);
           (if taken.left == fields then data
            else if taken.left == map[] then data - {key}
            else data[key := Hash(taken.left)],
            Success(taken.values))
         case _ => (data, Failure(WrongType))
  }

  predicate AllValid(names: seq<bytes>) {
    forall i :: 0 <= i < |names| ==> Utf8.Valid(names[i])
  }

  function Count(values: seq<Option<bytes>>): nat {
    if values == [] then 0 else (if values[0].Some? then 1 else 0) + Count(values[1..])
  }

  function AnswerOf(answer: Answer, values: seq<Option<bytes>>): Reply {
    if answer.CountDeleted? then IntegerReply(Count(values)) else ArrayReply(values)
  }

  /** One command on its own. */
  function RunTake(answer: Answer, data: Keyspace, command: HashCommand): (Keyspace, Reply) {
    if !Utf8.Valid(command.key) then (data, InvalidKey)
    else if !AllValid(command.fields) then (data, InvalidField)
    else
      var (after, result) := HashTaken(data, command.key, command.fields);
      (after, match result case Success(values) => AnswerOf(answer, values) case Failure(error) => error)
  }

  function RunTakes(answer: Answer, data: Keyspace, commands: seq<HashCommand>): (r: Ran)
    ensures |r.replies| == |commands|
    decreases |commands|
  {
    if commands == [] then Ran(data, [])
    else
      var (after, reply) := RunTake(answer, data, commands[0]);
      var rest := RunTakes(answer, after, commands[1..]);
      Ran(rest.data, [reply] + rest.replies)
  }

  /** HDEL answers how many of the names the hash held, HGETDEL what each of them held, a repeated name
      nothing. */
  predicate AnswerIs(answer: Answer, held: map<bytes, bytes>, names: seq<bytes>, reply: Reply) {
    if answer.CountDeleted? then reply == IntegerReply(|held.Keys * Names(names)|)
    else && reply.ArrayReply? && |reply.values| == |names|
         && forall i :: 0 <= i < |names| ==>
              reply.values[i] == if names[i] in held && names[i] !in names[..i] then Some(held[names[i]]) else None
  }

  /** The named fields are gone, and the key with the last of them. */
  predicate WithoutNames(before: Keyspace, key: bytes, held: map<bytes, bytes>, named: set<bytes>, after: Keyspace) {
    if held.Keys !! named then after == before
    else if held.Keys <= named then after == before - {key}
    else after == before[key := Hash(held - named)]
  }

  /** What one HDEL or HGETDEL does to a store. */
  predicate TakeStep(answer: Answer, before: Keyspace, command: HashCommand, after: Keyspace, reply: Reply) {
    var key, names := command.key, command.fields;
    if !Utf8.Valid(key) then after == before && reply == InvalidKey
    else if exists i :: 0 <= i < |names| && !Utf8.Valid(names[i]) then after == before && reply == InvalidField
    else if key in before && !before[key].Hash? then after == before && reply == WrongType
    else
      var held := if key in before then before[key].fields else map[];
      WithoutNames(before, key, held, Names(names), after) && AnswerIs(answer, held, names, reply)
  }

  ghost predicate TakeTrace(answer: Answer, stores: seq<Keyspace>, commands: seq<HashCommand>, replies: seq<Reply>) {
    && |stores| == |commands| + 1 && |replies| == |commands|
    && forall i :: 0 <= i < |commands| ==> TakeStep(answer, stores[i], commands[i], stores[i + 1], replies[i])
  }

  ghost predicate Taken(answer: Answer, before: Keyspace, commands: seq<HashCommand>, after: Keyspace,
                        replies: seq<Reply>)
  {
    exists stores :: TakeTrace(answer, stores, commands, replies) && stores[0] == before
                     && stores[|commands|] == after
  }

  function Names(names: seq<bytes>): set<bytes> {
    set name | name in names
  }

  lemma OneNameLess(keys: set<bytes>, name: bytes, later: set<bytes>)
    ensures |keys * ({name} + later)| == |(keys - {name}) * later| + if name in keys then 1 else 0
  {
    var rest := (keys - {name}) * later;
    if name in keys {
      assert keys * ({name} + later) == rest + {name};
    } else {
      assert keys * ({name} + later) == rest;
    }
  }

  /** Counting the fields that answered is counting the names that were held. */
  lemma {:induction false} CountMeans(fields: map<bytes, bytes>, names: seq<bytes>)
    ensures Count(TakeEach(fields, names).values) == |fields.Keys * Names(names)|
    decreases |names|
  {
    hide TakeEach;
    if names == [] {
      TakeNone(fields);
      assert Names(names) == {};
    } else {
      var less, rest := fields - {names[0]}, names[1..];
      CountMeans(less, rest);
      TakeFirst(fields, names);
      var value := if names[0] in fields then Some(fields[names[0]]) else None;
      CountFirst(value, TakeEach(less, rest).values);
      FirstName(names);
      assert less.Keys == fields.Keys - {names[0]};
      OneNameLess(fields.Keys, names[0], Names(rest));
    }
  }

  lemma CountFirst(value: Option<bytes>, values: seq<Option<bytes>>)
    ensures Count([value] + values) == Count(values) + if value.Some? then 1 else 0
  {
    assert ([value] + values)[1..] == values;
  }

  lemma FirstName(names: seq<bytes>)
    requires names != []
    ensures Names(names) == {names[0]} + Names(names[1..])
  {
  }

  lemma TakeMeans(answer: Answer, data: Keyspace, command: HashCommand)
    ensures TakeStep(answer, data, command, RunTake(answer, data, command).0, RunTake(answer, data, command).1)
  {
    hide HashTaken;
    hide WithoutNames;
    hide AnswerIs;
    hide AnswerOf;
    var key, names := command.key, command.fields;
    if Utf8.Valid(key) && AllValid(names) {
      TakenMeans(data, key, names);
      if FieldsAt(data, key).Some? {
        AnswerMeans(answer, FieldsAt(data, key).value, names);
      }
    }
  }

  /** The storage call answers the fields taken and leaves the others. */
  lemma TakenMeans(data: Keyspace, key: bytes, names: seq<bytes>)
    ensures var (after, result) := HashTaken(data, key, names);
            match FieldsAt(data, key)
            case None => after == data && result == Failure(WrongType)
            case Some(held) =>
              result == Success(TakeEach(held, names).values) && WithoutNames(data, key, held, Names(names), after)
  {
    hide TakeEach;
    hide Names;
    if FieldsAt(data, key).Some? {
      var held := FieldsAt(data, key).value;
      TakeEachNames(held, names);
      WhatIsLeft(held, Names(names));
    }
  }

  lemma AnswerMeans(answer: Answer, held: map<bytes, bytes>, names: seq<bytes>)
    ensures AnswerIs(answer, held, names, AnswerOf(answer, TakeEach(held, names).values))
  {
    hide Names;
    hide TakeEach;
    CountMeans(held, names);
    TakeEachNames(held, names);
  }

  lemma TakeEachNames(fields: map<bytes, bytes>, names: seq<bytes>)
    ensures var taken := TakeEach(fields, names);
            && taken.left == fields - Names(names)
            && forall i :: 0 <= i < |names| ==> taken.values[i] == FirstTaken(fields, names, i)
  {
    TakeEachMeans(fields, names);
  }

  lemma WhatIsLeft(held: map<bytes, bytes>, named: set<bytes>)
    ensures held - named == held <==> held.Keys !! named
    ensures held - named == map[] <==> held.Keys <= named
  {
    var left := held - named;
    assert left.Keys == held.Keys - named;
    assert left == map[] <==> left.Keys == {};
    assert held.Keys - named == {} <==> held.Keys <= named by {
      assert forall name :: name in held.Keys && name !in named ==> name in held.Keys - named;
    }
  }

  lemma {:induction false} TakesMean(answer: Answer, data: Keyspace, commands: seq<HashCommand>)
    ensures Taken(answer, data, commands, RunTakes(answer, data, commands).data,
                  RunTakes(answer, data, commands).replies)
    decreases |commands|
  {
    hide RunTake;
    hide TakeStep;
    var ran := RunTakes(answer, data, commands);
    if commands == [] {
      assert TakeTrace(answer, [data], commands, ran.replies);
    } else {
      TakeMeans(answer, data, commands[0]);
      var (after, reply) := RunTake(answer, data, commands[0]);
      var rest := RunTakes(answer, after, commands[1..]);
      TakesMean(answer, after, commands[1..]);
      var later :| TakeTrace(answer, later, commands[1..], rest.replies) && later[0] == after
                   && later[|commands| - 1] == rest.data;
      var stores := [data] + later;
      forall i | 0 <= i < |commands|
        ensures TakeStep(answer, stores[i], commands[i], stores[i + 1], ran.replies[i])
      {
        if i > 0 {
          assert TakeStep(answer, later[i - 1], commands[1..][i - 1], later[i], rest.replies[i - 1]);
        }
      }
      assert TakeTrace(answer, stores, commands, ran.replies);
    }
  }

  lemma {:induction false} RunTakesSplit(answer: Answer, data: Keyspace, xs: seq<HashCommand>, ys: seq<HashCommand>)
    ensures var first := RunTakes(answer, data, xs);
            var second := RunTakes(answer, first.data, ys);
            RunTakes(answer, data, xs + ys) == Ran(second.data, first.replies + second.replies)
    decreases |xs|
  {
    hide RunTake;
    if xs == [] {
      assert xs + ys == ys;
    } else {
      assert (xs + ys)[1..] == xs[1..] + ys;
      RunTakesSplit(answer, RunTake(answer, data, xs[0]).0, xs[1..], ys);
    }
  }

  lemma {:induction false} TakeEachSplit(fields: map<bytes, bytes>, xs: seq<bytes>, ys: seq<bytes>)
    ensures var first := TakeEach(fields, xs);
            var second := TakeEach(first.left, ys);
            TakeEach(fields, xs + ys) == TakenFields(second.left, first.values + second.values)
    decreases |xs|
  {
    hide TakeEach;
    if xs == [] {
      assert xs + ys == ys;
      TakeNone(fields);
      assert [] + TakeEach(fields, ys).values == TakeEach(fields, ys).values;
    } else {
      var less := fields - {xs[0]};
      assert (xs + ys)[0] == xs[0] && (xs + ys)[1..] == xs[1..] + ys;
      TakeEachSplit(less, xs[1..], ys);
      TakeFirst(fields, xs);
      TakeFirst(fields, xs + ys);
      var second := TakeEach(TakeEach(less, xs[1..]).left, ys);
      Assoc([TakeEach(fields, xs).values[0]], TakeEach(less, xs[1..]).values, second.values);
    }
  }

  lemma TakeNone(fields: map<bytes, bytes>)
    ensures TakeEach(fields, []) == TakenFields(fields, [])
  {
  }

  lemma TakeFirst(fields: map<bytes, bytes>, names: seq<bytes>)
    requires names != []
    ensures var rest := TakeEach(fields - {names[0]}, names[1..]);
            var value := if names[0] in fields then Some(fields[names[0]]) else None;
            TakeEach(fields, names) == TakenFields(rest.left, [value] + rest.values)
  {
  }

  lemma SmallerMap(small: map<bytes, bytes>, mid: map<bytes, bytes>, big: map<bytes, bytes>)
    requires small.Keys <= mid.Keys <= big.Keys
    requires forall name :: name in mid ==> mid[name] == big[name]
    ensures small == big ==> mid == big
  {
  }

  /** Two storage calls in a row are one. */
  lemma TakenTwice(data: Keyspace, key: bytes, xs: seq<bytes>, ys: seq<bytes>)
    ensures var (mid, first) := HashTaken(data, key, xs);
            var (after, second) := HashTaken(mid, key, ys);
            HashTaken(data, key, xs + ys) ==
            match first
            case Failure(error) => (data, Failure(error))
            case Success(values) =>
              if second.Failure? then (after, second) else (after, Success(values + second.value))
    ensures var (mid, first) := HashTaken(data, key, xs);
            && (HashTaken(mid, key, ys).1.Failure? <==> first.Failure?)
            && (first.Failure? ==> HashTaken(mid, key, ys) == (data, first))
  {
    hide TakeEach;
    if key !in data {
      TakeEachSplit(map[], xs, ys);
    } else if data[key].Hash? {
      var fields := data[key].fields;
      var mid := TakeEach(fields, xs).left;
      var end := TakeEach(mid, ys).left;
      TakeEachSplit(fields, xs, ys);
      SmallerMap(end, mid, fields);
      assert mid == map[] ==> end == map[];
      assert fields == map[] ==> mid == map[];
      assert data[key := Hash(mid)] - {key} == data - {key};
      assert data[key := Hash(mid)][key := Hash(end)] == data[key := Hash(end)];
    }
  }

  predicate SameHash(command: HashCommand, key: bytes) {
    command.key == key && AllValid(command.fields)
  }

  predicate AllSameHash(group: seq<HashCommand>, key: bytes) {
    forall i :: 0 <= i < |group| ==> SameHash(group[i], key)
  }

  function GroupFields(group: seq<HashCommand>): seq<bytes> {
    if group == [] then [] else group[0].fields + GroupFields(group[1..])
  }

  function FieldCounts(group: seq<HashCommand>): (r: seq<nat>)
    ensures |r| == |group|
  {
    if group == [] then [] else [|group[0].fields|] + FieldCounts(group[1..])
  }

  function Sum(counts: seq<nat>): nat {
    if counts == [] then 0 else counts[0] + Sum(counts[1..])
  }

  /** The values of one call handed out to the commands, as many as each asked for. */
  function HandOut(answer: Answer, values: seq<Option<bytes>>, counts: seq<nat>): (r: seq<Reply>)
    requires |values| == Sum(counts)
    ensures |r| == |counts|
    decreases |counts|
  {
    if counts == [] then []
    else [AnswerOf(answer, values[..counts[0]])] + HandOut(answer, values[counts[0]..], counts[1..])
  }

  lemma {:induction false} CountsAddUp(group: seq<HashCommand>)
    ensures |GroupFields(group)| == Sum(FieldCounts(group))
    decreases |group|
  {
    if group != [] {
      CountsAddUp(group[1..]);
      assert FieldCounts(group)[1..] == FieldCounts(group[1..]);
    }
  }

  lemma TakenLength(data: Keyspace, key: bytes, names: seq<bytes>)
    ensures HashTaken(data, key, names).1.Success? ==> |HashTaken(data, key, names).1.value| == |names|
  {
  }

  function TakeAnswers(answer: Answer, result: Result<seq<Option<bytes>>, Reply>, counts: seq<nat>): seq<Reply>
    requires result.Success? ==> |result.value| == Sum(counts)
  {
    match result
    case Success(values) => HandOut(answer, values, counts)
    case Failure(error) => Repeat(error, |counts|)
  }

  ghost function GroupAnswer(answer: Answer, data: Keyspace, group: seq<HashCommand>, key: bytes): Ran {
    var (after, result) := HashTaken(data, key, GroupFields(group));
    CountsAddUp(group);
    TakenLength(data, key, GroupFields(group));
    Ran(after, TakeAnswers(answer, result, FieldCounts(group)))
  }

  /** Running a group command by command is one storage call with the values handed out. */
  lemma {:induction false} GroupIsOneTake(answer: Answer, data: Keyspace, group: seq<HashCommand>, key: bytes)
    requires AllSameHash(group, key) && Utf8.Valid(key)
    ensures RunTakes(answer, data, group) == GroupAnswer(answer, data, group, key)
    decreases |group|
  {
    hide HashTaken;
    if group == [] {
      TakeNothing(data, key);
    } else {
      var first, rest := group[0], group[1..];
      assert SameHash(first, key);
      assert AllSameHash(rest, key);
      var mid := HashTaken(data, key, first.fields).0;
      GroupIsOneTake(answer, mid, rest, key);
      TakenTwice(data, key, first.fields, GroupFields(rest));
      TakenLength(data, key, first.fields);
      TakenLength(mid, key, GroupFields(rest));
      CountsAddUp(rest);
      var one := HashTaken(data, key, first.fields).1;
      if one.Success? {
        var more := HashTaken(mid, key, GroupFields(rest)).1.value;
        assert (one.value + more)[..|first.fields|] == one.value;
        assert (one.value + more)[|first.fields|..] == more;
        assert FieldCounts(group)[1..] == FieldCounts(rest);
      } else {
        assert Repeat(one.error, |group|) == [one.error] + Repeat(one.error, |rest|);
      }
    }
  }

  lemma TakeNothing(data: Keyspace, key: bytes)
    ensures HashTaken(data, key, []).0 == data
    ensures HashTaken(data, key, []).1.Success? ==> HashTaken(data, key, []).1.value == []
  {
  }

  lemma {:induction false} FieldsGrow(group: seq<HashCommand>, command: HashCommand)
    ensures GroupFields(group + [command]) == GroupFields(group) + command.fields
    ensures FieldCounts(group + [command]) == FieldCounts(group) + [|command.fields|]
    decreases |group|
  {
    if group == [] {
      assert group + [command] == [command];
      assert [command][1..] == [];
    } else {
      assert (group + [command])[1..] == group[1..] + [command];
      FieldsGrow(group[1..], command);
    }
  }

  /** The run of commands from `start` on that shares one storage call: same hash, well-formed field
      names, and at most 256 fields unless a single command has more. */
  method TakeHashGroup(commands: seq<HashCommand>, start: nat)
    returns (index: nat, fields: seq<bytes>, counts: seq<nat>)
    requires start < |commands| && AllValid(commands[start].fields)
    requires forall i :: 0 <= i < |commands| ==> commands[i].fields != []
    ensures start < index <= |commands|
    ensures AllSameHash(commands[start..index], commands[start].key)
    ensures fields == GroupFields(commands[start..index])
    ensures counts == FieldCounts(commands[start..index])
    ensures |fields| <= MAX_FIELDS_PER_WRITE || index == start + 1
  {
    var key := commands[start].key;
    fields, counts, index := [], [], start;
    while index < |commands| && commands[index].key == key
      invariant start <= index <= |commands|
      invariant AllSameHash(commands[start..index], key)
      invariant fields == GroupFields(commands[start..index])
      invariant counts == FieldCounts(commands[start..index])
      invariant fields == [] <==> index == start
      invariant |fields| <= MAX_FIELDS_PER_WRITE || index <= start + 1
    {
      var candidate := commands[index];
      if |fields| != 0 && |fields| + |candidate.fields| > MAX_FIELDS_PER_WRITE {
        break;
      }
      if !AllValid(candidate.fields) {
        break;
      }
      FieldsGrow(commands[start..index], candidate);
      assert commands[start..index] + [candidate] == commands[start..index + 1];
      counts := counts + [|candidate.fields|];
      fields := fields + candidate.fields;
      index := index + 1;
    }
  }

  method TakeReplies(answer: Answer, result: Result<seq<Option<bytes>>, Reply>, counts: seq<nat>)
    returns (out: seq<Reply>)
    requires result.Success? ==> |result.value| == Sum(counts)
    ensures out == TakeAnswers(answer, result, counts)
  {
    out := [];
    if result.Failure? {
      for i := 0 to |counts|
        invariant out == Repeat(result.error, i)
      {
        out := out + [result.error];
      }
      return;
    }
    var rest := result.value;
    for i := 0 to |counts|
      invariant |rest| == Sum(counts[i..])
      invariant out + HandOut(answer, rest, counts[i..]) == HandOut(answer, result.value, counts)
    {
      assert counts[i..][1..] == counts[i + 1..];
      out := out + [AnswerOf(answer, rest[..counts[i]])];
      rest := rest[counts[i]..];
    }
    assert counts[|counts|..] == [];
  }

  /** The coalescing loops of HDEL and HGETDEL: same store and same replies as one by one. */
  method HandleHashCommands(answer: Answer, db: Db, commands: seq<HashCommand>) returns (replies: seq<Reply>)
    requires forall i :: 0 <= i < |commands| ==> commands[i].fields != []
    modifies db
    ensures Ran(db.data, replies) == RunTakes(answer, old(db.data), commands)
    ensures Taken(answer, old(db.data), commands, db.data, replies)
  {
    hide RunTakes;
    hide Taken;
    hide HashTaken;
    hide GroupFields;
    hide FieldCounts;
    replies := [];
    var index := 0;
    TakesNone(answer, db.data);
    while index < |commands|
      invariant 0 <= index <= |commands|
      invariant Ran(db.data, replies) == RunTakes(answer, old(db.data), commands[..index])
    {
      ghost var start := index;
      ghost var before := db.data;
      var command := commands[index];
      if !Utf8.Valid(command.key) || !AllValid(command.fields) {
        replies := replies + [if !Utf8.Valid(command.key) then InvalidKey else InvalidField];
        index := index + 1;
        OneRejected(answer, before, command);
        assert commands[start..index] == [command];
      } else {
        var fields, counts;
        index, fields, counts := TakeHashGroup(commands, index);
        ghost var group := commands[start..index];
        GroupIsOneTake(answer, before, group, command.key);
        CountsAddUp(group);
        TakenLength(before, command.key, fields);
        var result := db.HashTake(command.key, fields);
        var more := TakeReplies(answer, result, counts);
        assert Ran(db.data, more) == RunTakes(answer, before, group);
        replies := replies + more;
      }
      ExtendTakes(answer, old(db.data), commands, start, index);
    }
    assert commands[..index] == commands;
    TakesMean(answer, old(db.data), commands);
  }

  lemma TakesNone(answer: Answer, data: Keyspace)
    ensures RunTakes(answer, data, []) == Ran(data, [])
  {
  }

  lemma OneRejected(answer: Answer, data: Keyspace, command: HashCommand)
    requires !Utf8.Valid(command.key) || !AllValid(command.fields)
    ensures RunTakes(answer, data, [command]) ==
            Ran(data, [if !Utf8.Valid(command.key) then InvalidKey else InvalidField])
  {
    assert [command][1..] == [];
  }

  lemma ExtendTakes(answer: Answer, data: Keyspace, commands: seq<HashCommand>, i: nat, j: nat)
    requires i <= j <= |commands|
    ensures var first := RunTakes(answer, data, commands[..i]);
            var second := RunTakes(answer, first.data, commands[i..j]);
            RunTakes(answer, data, commands[..j]) == Ran(second.data, first.replies + second.replies)
  {
    assert commands[..j] == commands[..i] + commands[i..j];
    RunTakesSplit(answer, data, commands[..i], commands[i..j]);
  }
}
