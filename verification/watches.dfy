/** Watch registrations over every run: they balance but for failed lookups. */
module Watches {
  import opened Bytes
  import opened Frames
  import opened Tracker
  import opened Transactions
  import opened Runs

  function Bit(b: bool): int {
    if b then 1 else 0
  }

  ghost function Holders(sessions: map<nat, Session>, k: DbKey): set<nat> {
    set id | id in sessions && IsWatched(sessions[id].watched, k)
  }

  /** A WATCH that registers the key and then fails to look it up: the client is outside MULTI and
      not watching the key already. */
  predicate FailedLookup(w: World, event: Event, k: DbKey) {
    && event.WatchKey? && event.at == k && event.found.LookupFailed? && event.id in w.sessions
    && !w.sessions[event.id].inTransaction && !IsWatched(w.sessions[event.id].watched, k)
  }

  /** How often that happened to a key among the first `n` events of a run. */
  ghost function FailedLookups(worlds: seq<World>, events: seq<Event>, n: nat, k: DbKey): nat
    requires n <= |events| && n <= |worlds|
  {
    if n == 0 then 0
    else FailedLookups(worlds, events, n - 1, k) + if FailedLookup(worlds[n - 1], events[n - 1], k) then 1 else 0
  }

  lemma {:induction false} SomeFailedLookup(worlds: seq<World>, events: seq<Event>, n: nat, k: DbKey)
    requires n <= |events| && n <= |worlds|
    ensures FailedLookups(worlds, events, n, k) > 0 <==> exists i :: 0 <= i < n && FailedLookup(worlds[i], events[i], k)
    decreases n
  {
    hide FailedLookup;
    if n > 0 {
      SomeFailedLookup(worlds, events, n - 1, k);
    }
  }

  // The effect of tracker operations on the number of watchers.

  lemma OneOp(v: Versions, op: Op, k: DbKey)
    requires Sound(v)
    ensures Watchers(Apply(v, op), k)
         == Watchers(v, k) + Bit(op == Register(k)) - Bit(op == Unregister(k) && Watchers(v, k) > 0)
  {
  }

  lemma {:induction false} BumpsKeepWatchers(v: Versions, ops: seq<Op>, k: DbKey)
    requires Sound(v) && OnlyBumps(ops)
    ensures Watchers(ApplyAll(v, ops), k) == Watchers(v, k)
    decreases |ops|
  {
    if ops != [] {
      BumpsKeepWatchers(v, ops[..|ops| - 1], k);
      OpsKeepSound(v, ops[..|ops| - 1]);
      OneOp(ApplyAll(v, ops[..|ops| - 1]), ops[|ops| - 1], k);
    }
  }

  lemma {:induction false} ReleasesDropOne(v: Versions, watched: seq<Watched>, k: DbKey)
    requires Sound(v) && Once(watched) && (IsWatched(watched, k) ==> Watchers(v, k) > 0)
    ensures Watchers(ApplyAll(v, Releases(watched)), k) == Watchers(v, k) - Bit(IsWatched(watched, k))
    decreases |watched|
  {
    if watched != [] {
      var front, last := watched[..|watched| - 1], watched[|watched| - 1];
      assert Releases(watched)[..|watched| - 1] == Releases(front);
      WatchedNext(front, last, k);
      assert watched == front + [last];
      ReleasesDropOne(v, front, k);
      OpsKeepSound(v, Releases(front));
      OneOp(ApplyAll(v, Releases(front)), Unregister(last.at), k);
    }
  }

  lemma WatchedNext(watched: seq<Watched>, w: Watched, k: DbKey)
    ensures IsWatched(watched + [w], k) <==> IsWatched(watched, k) || w.at == k
  {
    if IsWatched(watched, k) {
      var i :| 0 <= i < |watched| && watched[i].at == k;
      assert (watched + [w])[i].at == k;
    }
    if w.at == k {
      assert (watched + [w])[|watched|].at == k;
    }
  }

  lemma {:induction false} InspectOnlyBumps(v: Versions, watched: seq<Watched>, e: DbKey -> Expiry)
    ensures OnlyBumps(Inspect(v, watched, e).ops)
    decreases |watched|
  {
    if watched != [] {
      InspectOnlyBumps(v, watched[..|watched| - 1], e);
    }
  }

  // Balance.

  /** What an operation does to the watchers of a key matches what it does to the session's list. */
  ghost predicate Matches(v: Versions, s: Session, o: Outcome, leaked: bool, k: DbKey) {
    Watchers(ApplyAll(v, o.ops), k)
      == Watchers(v, k) + Bit(IsWatched(o.session.watched, k)) - Bit(IsWatched(s.watched, k)) + Bit(leaked)
  }

  lemma WatchOneMatches(v: Versions, s: Session, at: DbKey, e: Expiry, k: DbKey)
    requires Sound(v)
    ensures Matches(v, s, WatchOne(s, v, at, e), at == k && e.LookupFailed? && !IsWatched(s.watched, k), k)
  {
    hide KeyVersion;
    hide DbVersion;
    OneOp(v, Register(at), k);
    assert [Register(at)][..0] == [];
    assert ApplyAll(v, [Register(at)]) == Apply(v, Register(at));
    OpsKeepSound(v, [Register(at)]);
    ApplySplit(v, [Register(at)], ExpiryOps(at, e));
    BumpsKeepWatchers(Apply(v, Register(at)), ExpiryOps(at, e), k);
    var now := ApplyAll(v, [Register(at)] + ExpiryOps(at, e));
    WatchedNext(s.watched, Watched(at, KeyVersion(now, at), DbVersion(now, at.db)), k);
  }

  lemma ExecMatches(v: Versions, s: Session, rules: Rules, allowed: Frame -> bool, e: DbKey -> Expiry,
                    commitOk: bool, writes: seq<Op>, k: DbKey)
    requires Sound(v) && Once(s.watched) && OnlyBumps(writes) && (IsWatched(s.watched, k) ==> Watchers(v, k) > 0)
    ensures Matches(v, s, Exec(s, v, rules, allowed, e, commitOk, writes), false, k)
  {
    hide ApplyAll;
    hide Inspect;
    hide All;
    NoOps(v);
    var o := Exec(s, v, rules, allowed, e, commitOk, writes);
    var looked := Inspect(v, s.watched, e).ops;
    var done := if o.reply == Executed then writes else [];
    InspectOnlyBumps(v, s.watched, e);
    BumpsKeepWatchers(v, looked, k);
    OpsKeepSound(v, looked);
    ApplySplit(v, looked, done);
    BumpsKeepWatchers(ApplyAll(v, looked), done, k);
    OpsKeepSound(v, looked + done);
    ApplySplit(v, looked + done, Releases(s.watched));
    ReleasesDropOne(ApplyAll(v, looked + done), s.watched, k);
    ReleasesDropOne(v, s.watched, k);
  }

  lemma NoOps(v: Versions)
    ensures ApplyAll(v, []) == v
  {
  }

  lemma OutcomeMatches(rules: Rules, w: World, event: Event, k: DbKey)
    requires Possible(w, event) && !event.Change? && !event.Connect?
    requires Healthy(rules, w.sessions[event.id])
    requires IsWatched(w.sessions[event.id].watched, k) ==> Watchers(Now(w), k) > 0
    ensures
      var o := OutcomeOf(rules, w, event);
      Matches(Now(w), w.sessions[event.id], o, FailedLookup(w, event, k), k)
  {
    hide ApplyAll;
    hide Inspect;
    hide FrameSize;
    hide SizeOf;
    hide Sound;
    hide WatchOne;
    hide Exec;
    var s, v := w.sessions[event.id], Now(w);
    NoOps(v);
    TraceIsSound(w.trace);
    ReleasesDropOne(v, s.watched, k);
    match event {
      case WatchKey(_, at, found) => WatchOneMatches(v, s, at, found, k);
      case ExecEvent(_, allowed, expiry, commitOk, writes) =>
        ExecMatches(v, s, rules, allowed, expiry, commitOk, writes, k);
      case _ =>
    }
  }

  lemma TraceIsSound(trace: seq<Op>)
    ensures Sound(ApplyAll(UNTRACKED, trace))
  {
    OpsKeepSound(UNTRACKED, trace);
  }

  lemma HolderCounts(sessions: map<nat, Session>, id: nat, k: DbKey)
    requires id in sessions && IsWatched(sessions[id].watched, k)
    ensures |Holders(sessions, k)| > 0
  {
    assert id in Holders(sessions, k);
  }

  lemma Share(sessions: map<nat, Session>, id: nat, k: DbKey)
    ensures |Holders(sessions, k)|
         == |Holders(sessions, k) - {id}| + Bit(id in sessions && IsWatched(sessions[id].watched, k))
  {
    hide IsWatched;
    var holders := Holders(sessions, k);
    if id in holders {
      assert holders == (holders - {id}) + {id};
    } else {
      assert holders - {id} == holders;
    }
  }

  ghost predicate OthersSame(before: map<nat, Session>, after: map<nat, Session>, id: nat) {
    forall x :: x != id ==> (x in before <==> x in after) && (x in before ==> before[x] == after[x])
  }

  lemma SameOthers(before: map<nat, Session>, after: map<nat, Session>, id: nat, k: DbKey)
    requires OthersSame(before, after, id)
    ensures Holders(before, k) - {id} == Holders(after, k) - {id}
  {
    hide IsWatched;
  }

  /** Replacing or removing one session changes the number of holders by that session's share. */
  lemma HoldersAfter(before: map<nat, Session>, after: map<nat, Session>, id: nat, k: DbKey)
    requires OthersSame(before, after, id)
    ensures |Holders(after, k)| == |Holders(before, k)|
              - Bit(id in before && IsWatched(before[id].watched, k))
              + Bit(id in after && IsWatched(after[id].watched, k))
  {
    SameOthers(before, after, id, k);
    Share(before, id, k);
    Share(after, id, k);
  }

  /** An event of one client leaves the other sessions alone. */
  lemma SessionEvent(rules: Rules, w: World, event: Event)
    requires Possible(w, event) && !event.Change?
    ensures
      var o := OutcomeOf(rules, w, event);
      var n := Next(rules, w, event);
      && OthersSame(w.sessions, n.sessions, event.id)
      && n.trace == w.trace + o.ops
      && (event.id in n.sessions ==> n.sessions[event.id] == o.session)
      && (event.id !in n.sessions ==> o.session.watched == [])
  {
    hide Exec;
    hide WatchOne;
    hide Enqueue;
    hide ApplyAll;
  }

  /** An event moves the number of watchers with the number of holders, but for a failed lookup. */
  lemma EventKeepsBalance(rules: Rules, w: World, event: Event, k: DbKey, extra: nat)
    requires Possible(w, event) && (forall id :: id in w.sessions ==> Healthy(rules, w.sessions[id]))
    requires Watchers(Now(w), k) == |Holders(w.sessions, k)| + extra
    ensures var n := Next(rules, w, event);
            Watchers(Now(n), k) == |Holders(n.sessions, k)| + extra + Bit(FailedLookup(w, event, k))
  {
    hide ApplyAll;
    hide Healthy;
    hide Holders;
    hide Watchers;
    hide OutcomeOf;
    hide IsWatched;
    hide Next;
    var n := Next(rules, w, event);
    var o := OutcomeOf(rules, w, event);
    ApplySplit(UNTRACKED, w.trace, o.ops);
    TraceIsSound(w.trace);
    if event.Change? {
      ChangeIsItsOp(rules, w, event);
      BumpsKeepWatchers(Now(w), [event.op], k);
    } else {
      NoneWatched(k);
      SessionEvent(rules, w, event);
      HoldersAfter(w.sessions, n.sessions, event.id, k);
      if event.Connect? {
        ConnectIsQuiet(rules, w, event);
        NoOps(Now(w));
      } else {
        if IsWatched(w.sessions[event.id].watched, k) {
          HolderCounts(w.sessions, event.id, k);
        }
        OutcomeMatches(rules, w, event, k);
      }
    }
  }

  lemma NoneWatched(k: DbKey)
    ensures !IsWatched([], k)
  {
  }

  lemma ChangeIsItsOp(rules: Rules, w: World, event: Event)
    requires event.Change? && Possible(w, event)
    ensures OutcomeOf(rules, w, event).ops == [event.op] && Next(rules, w, event) == w.(trace := w.trace + [event.op])
  {
  }

  lemma ConnectIsQuiet(rules: Rules, w: World, event: Event)
    requires event.Connect? && Possible(w, event)
    ensures OutcomeOf(rules, w, event).ops == [] && OutcomeOf(rules, w, event).session.watched == []
  {
  }

  /** In every run, each key has one registration per session watching it plus one per lookup that
      failed after registering. */
  lemma {:induction false} RegistrationsBalance(rules: Rules, worlds: seq<World>, events: seq<Event>, n: nat, k: DbKey)
    requires Run(rules, worlds, events) && n <= |events|
    ensures Watchers(Now(worlds[n]), k) == |Holders(worlds[n].sessions, k)| + FailedLookups(worlds, events, n, k)
    decreases n
  {
    hide FailedLookup;
    if n == 0 {
      assert Holders(worlds[0].sessions, k) == {};
    } else {
      RegistrationsBalance(rules, worlds, events, n - 1, k);
      assert worlds[n - 1 + 1] == Next(rules, worlds[n - 1], events[n - 1]);
      AllHealthy(rules, worlds, events, n - 1);
      EventKeepsBalance(rules, worlds[n - 1], events[n - 1], k, FailedLookups(worlds, events, n - 1, k));
    }
  }

  lemma AllHealthy(rules: Rules, worlds: seq<World>, events: seq<Event>, n: nat)
    requires Run(rules, worlds, events) && n <= |events|
    ensures forall id :: id in worlds[n].sessions ==> Healthy(rules, worlds[n].sessions[id])
  {
    hide Healthy;
    var sessions := worlds[n].sessions;
    forall id | id in sessions
      ensures Healthy(rules, sessions[id])
    {
      SessionsAreHealthy(rules, worlds, events, n, id);
    }
  }

  /** Nobody's registration is missing. */
  ghost predicate Registered(w: World) {
    forall k :: Watchers(Now(w), k) >= |Holders(w.sessions, k)|
  }

  lemma AllRegistered(rules: Rules, worlds: seq<World>, events: seq<Event>, n: nat)
    requires Run(rules, worlds, events) && n <= |events|
    ensures Registered(worlds[n])
  {
    hide Watchers;
    hide Holders;
    forall k
      ensures Watchers(Now(worlds[n]), k) >= |Holders(worlds[n].sessions, k)|
    {
      RegistrationsBalance(rules, worlds, events, n, k);
    }
  }

  /** When everybody has left, a key is still registered exactly if some WATCH of it in the run
      failed to look it up, outside MULTI and by a client not watching it already. */
  lemma LeftBehind(rules: Rules, worlds: seq<World>, events: seq<Event>, n: nat, k: DbKey)
    requires Run(rules, worlds, events) && n <= |events| && worlds[n].sessions == map[]
    ensures k in Now(worlds[n]).keys <==> exists i :: 0 <= i < n && FailedLookup(worlds[i], events[i], k)
  {
    hide FailedLookup;
    RegistrationsBalance(rules, worlds, events, n, k);
    SomeFailedLookup(worlds, events, n, k);
    TraceIsSound(worlds[n].trace);
    assert Holders(worlds[n].sessions, k) == {};
  }

  /** It does happen: connect, WATCH with a failing lookup, disconnect. */
  lemma FailedLookupLeaks(rules: Rules, k: DbKey)
    ensures
      var w1 := Next(rules, EMPTY_WORLD, Connect(0));
      var w2 := Next(rules, w1, WatchKey(0, k, LookupFailed));
      var w3 := Next(rules, w2, Disconnect(0));
      w3.sessions == map[] && k in Now(w3).keys
  {
    var w1 := Next(rules, EMPTY_WORLD, Connect(0));
    var w2 := Next(rules, w1, WatchKey(0, k, LookupFailed));
    var w3 := Next(rules, w2, Disconnect(0));
    assert w2.trace == [Register(k)];
    assert w3.trace == [Register(k)];
    assert [Register(k)][..0] == [];
  }
}
