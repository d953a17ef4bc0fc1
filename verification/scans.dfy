/** Range scans over an ordered store: one cursor, or one chunk after the other. */
module Scans {
  import opened Bytes
  import opened Order

  datatype Item = Item(key: bytes, value: bytes)

  /** The store at one moment: items in strictly increasing key order. */
  ghost predicate Sorted(store: seq<Item>) {
    forall i, j :: 0 <= i < j < |store| ==> Less(store[i].key, store[j].key)
  }

  predicate InRange(key: bytes, lower: bytes, upper: Option<bytes>) {
    AtMost(lower, key) && Below(key, upper)
  }

  /** The items of a range, in key order. */
  function Select(store: seq<Item>, lower: bytes, upper: Option<bytes>): seq<Item> {
    if store == [] then []
    else (if InRange(store[0].key, lower, upper) then [store[0]] else []) + Select(store[1..], lower, upper)
  }

  function Take(items: seq<Item>, limit: nat): seq<Item> {
    items[..Min(|items|, limit)]
  }

  function Reversed(items: seq<Item>): (r: seq<Item>)
    ensures |r| == |items| && forall i :: 0 <= i < |items| ==> r[i] == items[|items| - 1 - i]
  {
    seq(|items|, i requires 0 <= i < |items| => items[|items| - 1 - i])
  }

  /** A visitor that keeps a state and may ask to stop. */
  datatype Visited<S> = Visited(state: S, go: bool)
  datatype Outcome<S> = Outcome(state: S, seen: nat, go: bool)

  /** Visiting items in order until the visitor stops. */
  function Visit<S>(visitor: (S, Item) -> Visited<S>, state: S, items: seq<Item>): Outcome<S> {
    if items == [] then Outcome(state, 0, true)
    else
      var v := visitor(state, items[0]);
      if !v.go then Outcome(v.state, 1, false)
      else
        var rest := Visit(visitor, v.state, items[1..]);
        Outcome(rest.state, rest.seen + 1, rest.go)
  }

  lemma {:induction false} VisitSplit<S>(visitor: (S, Item) -> Visited<S>, state: S, xs: seq<Item>, ys: seq<Item>)
    ensures var first := Visit(visitor, state, xs);
            Visit(visitor, state, xs + ys) ==
            if !first.go then first
            else
              var second := Visit(visitor, first.state, ys);
              Outcome(second.state, first.seen + second.seen, second.go)
    ensures Visit(visitor, state, xs).go ==> Visit(visitor, state, xs).seen == |xs|
    decreases |xs|
  {
    if xs == [] {
      assert xs + ys == ys;
    } else {
      assert (xs + ys)[1..] == xs[1..] + ys;
      VisitSplit(visitor, visitor(state, xs[0]).state, xs[1..], ys);
    }
  }

  // One cursor: the engine hands over the range in batches of its own choosing.

  function Joined(batches: seq<seq<Item>>): seq<Item> {
    if batches == [] then [] else batches[0] + Joined(batches[1..])
  }

  method CollectScanCursorInto<S>(batches: seq<seq<Item>>, limit: nat, visitor: (S, Item) -> Visited<S>, start: S)
    returns (state: S, seen: nat)
    ensures Finished(visitor, start, Joined(batches), limit, state, seen)
  {
    state, seen := start, 0;
    var i := 0;
    ghost var done: seq<Item> := [];
    assert batches[0..] == batches;
    assert [] + Joined(batches) == Joined(batches);
    while i < |batches|
      invariant 0 <= i <= |batches|
      invariant done + Joined(batches[i..]) == Joined(batches)
      invariant |done| <= limit
      invariant Visit(visitor, start, done) == Outcome(state, seen, true)
      invariant seen == |done|
    {
      ghost var rest := Joined(batches[i + 1..]);
      assert batches[i..][1..] == batches[i + 1..];
      var go;
      state, seen, go := VisitScanBatch(batches[i], limit, visitor, start, state, seen, done);
      Assoc(done, batches[i], rest);
      if !go {
        TakePrefix(visitor, start, done + batches[i], rest, limit);
        return;
      }
      done := done + batches[i];
      i := i + 1;
    }
    assert batches[i..] == [];
    assert done + [] == done;
  }

  /** One batch of the cursor; stops at the limit or when the visitor stops. */
  method VisitScanBatch<S>(batch: seq<Item>, limit: nat, visitor: (S, Item) -> Visited<S>,
                           ghost start: S, before: S, seenBefore: nat, ghost done: seq<Item>)
    returns (state: S, seen: nat, go: bool)
    requires Visit(visitor, start, done) == Outcome(before, seenBefore, true)
    requires seenBefore == |done| <= limit
    ensures go ==> |done + batch| <= limit && seen == |done + batch| &&
                   Visit(visitor, start, done + batch) == Outcome(state, seen, true)
    ensures !go ==> Ended(visitor, start, done + batch, limit, state, seen)
  {
    state, seen := before, seenBefore;
    assert done + batch[..0] == done;
    for i := 0 to |batch|
      invariant seen == |done| + i <= limit
      invariant Visit(visitor, start, done + batch[..i]) == Outcome(state, seen, true)
    {
      if seen >= limit {
        assert Take(done + batch, limit) == done + batch[..i];
        return state, seen, false;
      }
      var v := visitor(state, batch[i]);
      OneMore(visitor, start, done + batch[..i], batch[i]);
      assert done + batch[..i] + [batch[i]] == done + batch[..i + 1];
      state, seen := v.state, seen + 1;
      if !v.go {
        ghost var front := done + batch[..i + 1];
        assert Take(done + batch, limit) == front + Take(done + batch, limit)[|front|..];
        VisitSplit(visitor, start, front, Take(done + batch, limit)[|front|..]);
        return state, seen, false;
      }
    }
    assert batch[..|batch|] == batch;
    return state, seen, true;
  }

  lemma OneMore<S>(visitor: (S, Item) -> Visited<S>, start: S, done: seq<Item>, item: Item)
    requires Visit(visitor, start, done).go
    ensures var before := Visit(visitor, start, done);
            var v := visitor(before.state, item);
            Visit(visitor, start, done + [item]) == Outcome(v.state, before.seen + 1, v.go)
  {
    VisitSplit(visitor, start, done, [item]);
    assert [item][1..] == [];
  }

  /** The visit is over: the limit is reached within `items`, or the visitor stopped there. */
  ghost predicate Ended<S>(visitor: (S, Item) -> Visited<S>, start: S, items: seq<Item>, limit: nat,
                           state: S, seen: nat)
  {
    var whole := Visit(visitor, start, Take(items, limit));
    whole.state == state && whole.seen == seen && (!whole.go || |items| >= limit)
  }

  lemma TakePrefix<S>(visitor: (S, Item) -> Visited<S>, start: S, items: seq<Item>, rest: seq<Item>, limit: nat)
    requires !Visit(visitor, start, Take(items, limit)).go || |items| >= limit
    ensures var whole := Visit(visitor, start, Take(items + rest, limit));
            var part := Visit(visitor, start, Take(items, limit));
            whole.state == part.state && whole.seen == part.seen
  {
    if |items| >= limit {
      assert Take(items + rest, limit) == Take(items, limit);
    } else {
      var front := Take(items, limit);
      assert Take(items + rest, limit) == front + Take(items + rest, limit)[|front|..];
      VisitSplit(visitor, start, front, Take(items + rest, limit)[|front|..]);
    }
  }

  // One chunk after the other, in increasing key order.

  lemma {:induction false} SelectMembers(store: seq<Item>, lower: bytes, upper: Option<bytes>, i: nat)
    requires i < |Select(store, lower, upper)|
    ensures store != [] && Select(store, lower, upper)[i] in store
    ensures InRange(Select(store, lower, upper)[i].key, lower, upper)
    decreases |store|
  {
    var head := if InRange(store[0].key, lower, upper) then 1 else 0;
    if i >= head {
      SelectMembers(store[1..], lower, upper, i - head);
    }
  }

  lemma {:induction false} SelectSameRange(store: seq<Item>, lower: bytes, lower': bytes,
                                           upper: Option<bytes>, upper': Option<bytes>)
    requires forall i :: 0 <= i < |store| ==>
               InRange(store[i].key, lower, upper) == InRange(store[i].key, lower', upper')
    ensures Select(store, lower, upper) == Select(store, lower', upper')
    decreases |store|
  {
    if store != [] {
      assert InRange(store[0].key, lower, upper) == InRange(store[0].key, lower', upper');
      SelectSameRange(store[1..], lower, lower', upper, upper');
    }
  }

  lemma SortedTail(store: seq<Item>)
    requires store != [] && Sorted(store)
    ensures Sorted(store[1..])
    ensures forall i :: 0 <= i < |store[1..]| ==> Less(store[0].key, store[1..][i].key)
  {
  }

  /** A key behind `k` is in the old range exactly when it is in the range that starts after `k`. */
  lemma RangeAfter(key: bytes, k: bytes, lower: bytes, upper: Option<bytes>)
    requires AtMost(lower, k)
    ensures InRange(key, k + [0], upper) <==> Less(k, key) && InRange(key, lower, upper)
  {
    ZeroByteIsSuccessor(k, key);
    if Less(k, key) {
      AtMostThenLess(lower, k, key);
      LessIsTotal(lower, key);
    }
  }

  lemma SelectIn(store: seq<Item>, lower: bytes, upper: Option<bytes>)
    requires store != [] && InRange(store[0].key, lower, upper)
    ensures Select(store, lower, upper) == [store[0]] + Select(store[1..], lower, upper)
  {
  }

  lemma SelectOut(store: seq<Item>, lower: bytes, upper: Option<bytes>)
    requires store != [] && !InRange(store[0].key, lower, upper)
    ensures Select(store, lower, upper) == Select(store[1..], lower, upper)
  {
  }

  lemma SelectBehind(store: seq<Item>, k: bytes, lower: bytes, upper: Option<bytes>)
    requires AtMost(lower, k) && forall i :: 0 <= i < |store| ==> Less(k, store[i].key)
    ensures Select(store, k + [0], upper) == Select(store, lower, upper)
  {
    forall i | 0 <= i < |store|
      ensures InRange(store[i].key, k + [0], upper) == InRange(store[i].key, lower, upper)
    {
      RangeAfter(store[i].key, k, lower, upper);
    }
    SelectSameRange(store, k + [0], lower, upper, upper);
  }

  /** Restarting at the successor of the last key seen selects exactly what is left. */
  lemma {:induction false} SelectAfter(store: seq<Item>, lower: bytes, upper: Option<bytes>, n: nat)
    requires Sorted(store) && 0 < n <= |Select(store, lower, upper)|
    ensures Select(store, Select(store, lower, upper)[n - 1].key + [0], upper) == Select(store, lower, upper)[n..]
    decreases |store|
  {
    hide Less;
    hide InRange;
    hide Select;
    SelectMembers(store, lower, upper, n - 1);
    SortedTail(store);
    var k := Select(store, lower, upper)[n - 1].key;
    var first, rest := store[0], store[1..];
    RangeStart(k, lower, upper);
    RangeAfter(first.key, k, lower, upper);
    var tail := Select(rest, lower, upper);
    if !InRange(first.key, lower, upper) {
      SelectOut(store, lower, upper);
      SelectOut(store, k + [0], upper);
      SelectAfter(rest, lower, upper, n);
    } else {
      SelectIn(store, lower, upper);
      if n == 1 {
        Irreflexive(k);
        SelectOut(store, k + [0], upper);
        SelectBehind(rest, k, lower, upper);
        assert ([first] + tail)[1..] == tail;
      } else {
        SelectMembers(rest, lower, upper, n - 2);
        LessIsTotal(first.key, k);
        SelectOut(store, k + [0], upper);
        SelectAfter(rest, lower, upper, n - 1);
        assert ([first] + tail)[n..] == tail[n - 1..];
      }
    }
  }

  lemma RangeStart(key: bytes, lower: bytes, upper: Option<bytes>)
    requires InRange(key, lower, upper)
    ensures AtMost(lower, key) && Below(key, upper)
  {
  }

  lemma {:induction false} SelectNothing(store: seq<Item>, lower: bytes, upper: Option<bytes>)
    requires upper.Some? && AtMost(upper.value, lower)
    ensures Select(store, lower, upper) == []
    decreases |store|
  {
    if store != [] {
      SelectNothing(store[1..], lower, upper);
      if Less(store[0].key, upper.value) {
        LessThenAtMost(store[0].key, upper.value, lower);
      }
    }
  }

  method VisitEntries<S>(entries: seq<Item>, visitor: (S, Item) -> Visited<S>, before: S)
    returns (state: S, seen: nat, go: bool)
    ensures Outcome(state, seen, go) == Visit(visitor, before, entries)
  {
    state, seen, go := before, 0, true;
    for i := 0 to |entries|
      invariant Visit(visitor, before, entries[..i]) == Outcome(state, seen, true)
    {
      var v := visitor(state, entries[i]);
      OneMore(visitor, before, entries[..i], entries[i]);
      assert entries[..i] + [entries[i]] == entries[..i + 1];
      state, seen := v.state, seen + 1;
      if !v.go {
        assert entries[..i + 1] + entries[i + 1..] == entries;
        VisitSplit(visitor, before, entries[..i + 1], entries[i + 1..]);
        return state, seen, false;
      }
    }
    assert entries[..|entries|] == entries;
  }

  /** Everything up to `done` items was visited and the visitor wants more. */
  ghost predicate Underway<S>(visitor: (S, Item) -> Visited<S>, start: S, all: seq<Item>, limit: nat,
                              done: nat, state: S)
  {
    done <= |all| && done <= limit && Visit(visitor, start, all[..done]) == Outcome(state, done, true)
  }

  ghost predicate Finished<S>(visitor: (S, Item) -> Visited<S>, start: S, all: seq<Item>, limit: nat,
                              state: S, seen: nat)
  {
    var whole := Visit(visitor, start, Take(all, limit));
    whole.state == state && whole.seen == seen
  }

  /** One more chunk of `n` items. */
  lemma ChunkStep<S>(visitor: (S, Item) -> Visited<S>, start: S, all: seq<Item>, limit: nat,
                     done: nat, state: S, n: nat)
    requires Underway(visitor, start, all, limit, done, state) && done + n <= |all| && done + n <= limit
    ensures var chunk := Visit(visitor, state, all[done..][..n]);
            if chunk.go then chunk.seen == n && Underway(visitor, start, all, limit, done + n, chunk.state)
            else Finished(visitor, start, all, limit, chunk.state, done + chunk.seen)
  {
    var chunk := all[done..][..n];
    assert all[..done] + chunk == all[..done + n];
    VisitSplit(visitor, start, all[..done], chunk);
    VisitSplit(visitor, state, chunk, []);
    var whole := Take(all, limit);
    assert whole == all[..done + n] + whole[done + n..];
    VisitSplit(visitor, start, all[..done + n], whole[done + n..]);
  }

  lemma NothingLeft<S>(visitor: (S, Item) -> Visited<S>, start: S, all: seq<Item>, limit: nat,
                       done: nat, state: S)
    requires Underway(visitor, start, all, limit, done, state) && (done == limit || done == |all|)
    ensures Finished(visitor, start, all, limit, state, done)
  {
    assert Take(all, limit) == all[..done];
  }

  /** The chunked forward visit makes the calls of one scan, whatever the chunk size. */
  method ScanRangeRawVisitChunked<S>(store: seq<Item>, lower: bytes, upper: Option<bytes>, limit: nat,
                                     batchSize: nat, visitor: (S, Item) -> Visited<S>, start: S)
    returns (state: S, seen: nat)
    requires Sorted(store)
    ensures Finished(visitor, start, Select(store, lower, upper), limit, state, seen)
  {
    hide Select;
    hide Underway;
    hide Finished;
    ghost var all := Select(store, lower, upper);
    state, seen := start, 0;
    UnderwayAtStart(visitor, start, all, limit);
    if limit == 0 {
      NothingLeft(visitor, start, all, limit, 0, start);
      return;
    }
    var next := lower;
    while seen < limit
      invariant seen <= |all| && seen <= limit
      invariant Underway(visitor, start, all, limit, seen, state)
      invariant Select(store, next, upper) == all[seen..]
    {
      var batchLimit := Min(limit - seen, if batchSize > 1 then batchSize else 1);
      var entries := Take(Select(store, next, upper), batchLimit);
      if |entries| == 0 {
        NothingLeft(visitor, start, all, limit, seen, state);
        return;
      }
      ghost var before := seen;
      ChunkStep(visitor, start, all, limit, seen, state, |entries|);
      var count, go;
      state, count, go := VisitEntries(entries, visitor, state);
      seen := seen + count;
      if !go {
        return;
      }
      if |entries| < batchLimit {
        NothingLeft(visitor, start, all, limit, seen, state);
        return;
      }
      var lastKey := entries[|entries| - 1].key + [0];
      SelectAfter(store, lower, upper, seen);
      if upper.Some? && !Less(lastKey, upper.value) {
        SelectNothing(store, lastKey, upper);
        NothingLeft(visitor, start, all, limit, seen, state);
        return;
      }
      next := lastKey;
    }
    NothingLeft(visitor, start, all, limit, seen, state);
  }

  lemma UnderwayAtStart<S>(visitor: (S, Item) -> Visited<S>, start: S, all: seq<Item>, limit: nat)
    ensures Underway(visitor, start, all, limit, 0, start) && all[0..] == all
  {
  }

  // In decreasing key order.

  lemma RangeBefore(key: bytes, k: bytes, lower: bytes, upper: Option<bytes>)
    requires Below(k, upper)
    ensures InRange(key, lower, Some(k)) <==> Less(key, k) && InRange(key, lower, upper)
  {
    if Less(key, k) && upper.Some? {
      LessIsTransitive(key, k, upper.value);
    }
  }

  lemma {:induction false} SelectNoneAbove(store: seq<Item>, lower: bytes, k: bytes)
    requires forall i :: 0 <= i < |store| ==> Less(k, store[i].key)
    ensures Select(store, lower, Some(k)) == []
    decreases |store|
  {
    if store != [] {
      SelectNoneAbove(store[1..], lower, k);
      LessIsTotal(k, store[0].key);
    }
  }

  /** Ending before the last key seen selects exactly what is left below it. */
  lemma {:induction false} SelectBefore(store: seq<Item>, lower: bytes, upper: Option<bytes>, m: nat)
    requires Sorted(store) && m < |Select(store, lower, upper)|
    ensures Select(store, lower, Some(Select(store, lower, upper)[m].key)) == Select(store, lower, upper)[..m]
    decreases |store|
  {
    hide Less;
    hide InRange;
    hide Select;
    SelectMembers(store, lower, upper, m);
    SortedTail(store);
    var k := Select(store, lower, upper)[m].key;
    var first, rest := store[0], store[1..];
    RangeStart(k, lower, upper);
    RangeBefore(first.key, k, lower, upper);
    var tail := Select(rest, lower, upper);
    if !InRange(first.key, lower, upper) {
      SelectOut(store, lower, upper);
      SelectOut(store, lower, Some(k));
      SelectBefore(rest, lower, upper, m);
    } else {
      SelectIn(store, lower, upper);
      if m == 0 {
        Irreflexive(k);
        SelectOut(store, lower, Some(k));
        SelectNoneAbove(rest, lower, k);
      } else {
        SelectMembers(rest, lower, upper, m - 1);
        SelectIn(store, lower, Some(k));
        SelectBefore(rest, lower, upper, m - 1);
        assert ([first] + tail)[..m] == [first] + tail[..m - 1];
      }
    }
  }

  lemma ReversedFront(items: seq<Item>, n: nat)
    requires n <= |items|
    ensures Reversed(items[..n]) == Reversed(items)[|items| - n..]
  {
  }

  const VISIT_BATCH_SIZE: nat := 1024

  /** The chunked reverse visit makes the calls of one scan in descending order. */
  method ScanRangeRawVisitReverse<S>(store: seq<Item>, lower: bytes, upper: Option<bytes>, limit: nat,
                                     visitor: (S, Item) -> Visited<S>, start: S)
    returns (state: S, seen: nat)
    requires Sorted(store)
    ensures Finished(visitor, start, Reversed(Select(store, lower, upper)), limit, state, seen)
  {
    hide Select;
    hide Underway;
    hide Finished;
    hide Visit;
    hide Sorted;
    hide Less;
    hide Reversed;
    ghost var ascending := Select(store, lower, upper);
    ghost var all := Reversed(ascending);
    state, seen := start, 0;
    UnderwayAtStart(visitor, start, all, limit);
    if limit == 0 {
      NothingLeft(visitor, start, all, limit, 0, start);
      return;
    }
    var next := upper;
    while seen < limit
      invariant seen <= |all| && seen <= limit
      invariant Underway(visitor, start, all, limit, seen, state)
      invariant Reversed(Select(store, lower, next)) == all[seen..]
    {
      var batchLimit := Min(limit - seen, VISIT_BATCH_SIZE);
      var entries := Take(Reversed(Select(store, lower, next)), batchLimit);
      if |entries| == 0 {
        NothingLeft(visitor, start, all, limit, seen, state);
        return;
      }
      ChunkStep(visitor, start, all, limit, seen, state, |entries|);
      var count, go;
      state, count, go := VisitEntries(entries, visitor, state);
      seen := seen + count;
      if !go {
        return;
      }
      if |entries| < batchLimit {
        NothingLeft(visitor, start, all, limit, seen, state);
        return;
      }
      var lastKey := entries[|entries| - 1].key;
      assert lastKey == all[seen - 1].key == ascending[|all| - seen].key;
      SelectBefore(store, lower, upper, |all| - seen);
      ReversedFront(ascending, |all| - seen);
      if !Less(lower, lastKey) {
        SelectNothing(store, lower, Some(lastKey));
        NothingLeft(visitor, start, all, limit, seen, state);
        return;
      }
      next := Some(lastKey);
    }
    NothingLeft(visitor, start, all, limit, seen, state);
  }

  /** The one-shot visit: one cursor over the selected range, in whatever batches. */
  method ScanRangeRawVisit<S>(store: seq<Item>, lower: bytes, upper: Option<bytes>, limit: nat,
                              batches: seq<seq<Item>>, visitor: (S, Item) -> Visited<S>, start: S)
    returns (state: S, seen: nat)
    requires Joined(batches) == Take(Select(store, lower, upper), limit)
    ensures Finished(visitor, start, Select(store, lower, upper), limit, state, seen)
  {
    if limit == 0 {
      return start, 0;
    }
    state, seen := CollectScanCursorInto(batches, limit, visitor, start);
    assert Take(Joined(batches), limit) == Take(Select(store, lower, upper), limit);
  }

  // What a range is, and what visiting it means.

  /** The items of a range are those of the store with a key from `lower` on and before `upper`, in
      increasing order. */
  lemma {:induction false} SelectIsRange(store: seq<Item>, lower: bytes, upper: Option<bytes>)
    requires Sorted(store)
    ensures var range := Select(store, lower, upper);
            && Sorted(range)
            && forall item :: item in range <==>
                 item in store && !Less(item.key, lower) && (upper.None? || Less(item.key, upper.value))
    decreases |store|
  {
    hide Less;
    if store != [] {
      SortedTail(store);
      var first, rest := store[0], Select(store[1..], lower, upper);
      SelectIsRange(store[1..], lower, upper);
      forall i | 0 <= i < |rest|
        ensures Less(first.key, rest[i].key)
      {
        assert rest[i] in store[1..];
      }
    }
  }

  /** Call `i` takes the state on, and only the last call may say stop. */
  ghost predicate Call<S>(visitor: (S, Item) -> Visited<S>, all: seq<Item>, states: seq<S>, i: nat)
    requires i + 1 < |states| <= |all| + 1
  {
    states[i + 1] == visitor(states[i], all[i]).state && (i + 2 < |states| ==> visitor(states[i], all[i]).go)
  }

  /** The calls one after the other, with the state before and after each; unless the items or the limit
      ran out, the last one said stop. */
  ghost predicate Calls<S>(visitor: (S, Item) -> Visited<S>, all: seq<Item>, limit: nat, states: seq<S>) {
    && 0 < |states| <= |all| + 1 && |states| <= limit + 1
    && (forall i :: 0 <= i < |states| - 1 ==> Call(visitor, all, states, i))
    && (|states| - 1 < |all| && |states| - 1 < limit ==>
          |states| > 1 && !visitor(states[|states| - 2], all[|states| - 2]).go)
  }

  lemma {:induction false} VisitIsCalls<S>(visitor: (S, Item) -> Visited<S>, start: S, items: seq<Item>)
    returns (states: seq<S>)
    ensures var v := Visit(visitor, start, items);
            && Calls(visitor, items, |items|, states) && states[0] == start
            && |states| == v.seen + 1 && states[v.seen] == v.state
    decreases |items|
  {
    if items == [] {
      states := [start];
    } else {
      var v := visitor(start, items[0]);
      if !v.go {
        states := [start, v.state];
      } else {
        var later := VisitIsCalls(visitor, v.state, items[1..]);
        states := [start] + later;
        forall i | 0 <= i < |states| - 1
          ensures Call(visitor, items, states, i)
        {
          if i > 0 {
            assert Call(visitor, items[1..], later, i - 1);
          }
        }
      }
    }
  }

  /** A visit that finished made exactly those calls, on the items in order, from the start state to the
      state it returned. */
  lemma FinishedIsCalls<S>(visitor: (S, Item) -> Visited<S>, start: S, all: seq<Item>, limit: nat, state: S, seen: nat)
    returns (states: seq<S>)
    requires Finished(visitor, start, all, limit, state, seen)
    ensures Calls(visitor, all, limit, states) && states[0] == start && |states| == seen + 1 && states[seen] == state
  {
    var items := Take(all, limit);
    states := VisitIsCalls(visitor, start, items);
    forall i | 0 <= i < |states| - 1
      ensures Call(visitor, all, states, i)
    {
      assert Call(visitor, items, states, i);
    }
  }
}
