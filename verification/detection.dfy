/** What EXEC's check of the watched keys means, in every run. */
module Detection {
  import opened Bytes
  import opened Frames
  import opened Tracker
  import opened Transactions
  import opened Runs
  import opened Watches

  // A key somebody watches stays registered through every single operation.

  ghost function Drops(ops: seq<Op>, k: DbKey): nat {
    if ops == [] then 0 else Drops(ops[..|ops| - 1], k) + if ops[|ops| - 1] == Unregister(k) then 1 else 0
  }

  lemma {:induction false} DropsSplit(a: seq<Op>, b: seq<Op>, k: DbKey)
    ensures Drops(a + b, k) == Drops(a, k) + Drops(b, k)
    decreases |b|
  {
    if b == [] {
      assert a + b == a;
    } else {
      assert (a + b)[..|a + b| - 1] == a + b[..|b| - 1];
      DropsSplit(a, b[..|b| - 1], k);
    }
  }

  lemma {:induction false} BumpsDropNone(ops: seq<Op>, k: DbKey)
    requires OnlyBumps(ops)
    ensures Drops(ops, k) == 0
    decreases |ops|
  {
    if ops != [] {
      BumpsDropNone(ops[..|ops| - 1], k);
    }
  }

  lemma {:induction false} ReleasesDrop(watched: seq<Watched>, k: DbKey)
    requires Once(watched)
    ensures Drops(Releases(watched), k) == Bit(IsWatched(watched, k))
    decreases |watched|
  {
    if watched != [] {
      var front, last := watched[..|watched| - 1], watched[|watched| - 1];
      assert watched == front + [last];
      assert Releases(watched)[..|watched| - 1] == Releases(front);
      WatchedNext(front, last, k);
      ReleasesDrop(front, k);
    }
  }

  lemma {:induction false} WatchersSurvive(v: Versions, ops: seq<Op>, k: DbKey)
    requires Sound(v)
    ensures Watchers(ApplyAll(v, ops), k) + Drops(ops, k) >= Watchers(v, k)
    decreases |ops|
  {
    if ops != [] {
      WatchersSurvive(v, ops[..|ops| - 1], k);
      OpsKeepSound(v, ops[..|ops| - 1]);
      OneOp(ApplyAll(v, ops[..|ops| - 1]), ops[|ops| - 1], k);
    }
  }

  lemma FewDropsHold(v: Versions, ops: seq<Op>, k: DbKey)
    requires Sound(v) && Watchers(v, k) > Drops(ops, k)
    ensures HeldThroughout(v, ops, k)
  {
    forall n | 0 <= n <= |ops|
      ensures k in ApplyAll(v, ops[..n]).keys
    {
      WatchersSurvive(v, ops[..n], k);
      DropsSplit(ops[..n], ops[n..], k);
      assert ops[..n] + ops[n..] == ops;
    }
  }

  lemma ExecDrops(v: Versions, s: Session, rules: Rules, allowed: Frame -> bool, e: DbKey -> Expiry,
                  commitOk: bool, writes: seq<Op>, k: DbKey)
    requires Once(s.watched) && OnlyBumps(writes)
    ensures var o := Exec(s, v, rules, allowed, e, commitOk, writes);
            Drops(o.ops, k) <= Bit(IsWatched(s.watched, k) && o.session.watched == [])
  {
    hide ApplyAll;
    hide Inspect;
    hide All;
    hide Drops;
    hide IsWatched;
    var o := Exec(s, v, rules, allowed, e, commitOk, writes);
    var looked := Inspect(v, s.watched, e).ops;
    var done := if o.reply == Executed then writes else [];
    InspectOnlyBumps(v, s.watched, e);
    BumpsDropNone([], k);
    BumpsDropNone(looked, k);
    BumpsDropNone(done, k);
    DropsSplit(looked, done, k);
    DropsSplit(looked + done, Releases(s.watched), k);
    ReleasesDrop(s.watched, k);
  }

  lemma WatchDropsNone(s: Session, v: Versions, at: DbKey, e: Expiry, k: DbKey)
    ensures Drops(WatchOne(s, v, at, e).ops, k) == 0
  {
    hide ApplyAll;
    assert [Register(at)][..0] == [];
    assert Drops([], k) == 0;
    assert Drops([Register(at)], k) == 0;
    BumpsDropNone(ExpiryOps(at, e), k);
    DropsSplit([Register(at)], ExpiryOps(at, e), k);
  }

  /** A client's own event gives up a key only by emptying its list. */
  lemma OutcomeDrops(rules: Rules, w: World, event: Event, k: DbKey)
    requires Possible(w, event) && !event.Change? && !event.Connect? && Healthy(rules, w.sessions[event.id])
    ensures var o := OutcomeOf(rules, w, event);
            Drops(o.ops, k) <= Bit(IsWatched(w.sessions[event.id].watched, k) && o.session.watched == [])
  {
    hide ApplyAll;
    hide Inspect;
    hide FrameSize;
    hide SizeOf;
    hide WatchOne;
    hide Exec;
    hide Drops;
    hide IsWatched;
    var s, v := w.sessions[event.id], Now(w);
    BumpsDropNone([], k);
    ReleasesDrop(s.watched, k);
    match event {
      case WatchKey(_, at, found) => WatchDropsNone(s, v, at, found, k);
      case ExecEvent(_, allowed, expiry, commitOk, writes) =>
        ExecDrops(v, s, rules, allowed, expiry, commitOk, writes, k);
      case _ =>
    }
  }

  ghost predicate Holds(w: World, id: nat, entry: Watched) {
    id in w.sessions && entry in w.sessions[id].watched
  }

  lemma TwoHolders(w: World, a: nat, b: nat, k: DbKey)
    requires Registered(w) && a in w.sessions && IsWatched(w.sessions[a].watched, k) && a != b
    ensures Watchers(Now(w), k) >= 1 + Bit(b in w.sessions && IsWatched(w.sessions[b].watched, k))
  {
    hide Watchers;
    hide IsWatched;
    Share(w.sessions, b, k);
    assert a in Holders(w.sessions, k) - {b};
  }

  lemma EntryWatches(watched: seq<Watched>, entry: Watched)
    requires entry in watched
    ensures IsWatched(watched, entry.at)
  {
  }

  /** One event, of anybody, that leaves the entry in place. */
  lemma EventHolds(rules: Rules, w: World, event: Event, id: nat, entry: Watched)
    requires Possible(w, event) && Registered(w) && (forall x :: x in w.sessions ==> Healthy(rules, w.sessions[x]))
    requires Holds(w, id, entry) && Holds(Next(rules, w, event), id, entry)
    ensures HeldThroughout(Now(w), OutcomeOf(rules, w, event).ops, entry.at)
    ensures Next(rules, w, event).trace == w.trace + OutcomeOf(rules, w, event).ops
  {
    hide ApplyAll;
    hide Healthy;
    hide Registered;
    hide OutcomeOf;
    hide Next;
    hide Drops;
    hide IsWatched;
    hide Watchers;
    hide HeldThroughout;
    var k := entry.at;
    var o := OutcomeOf(rules, w, event);
    TraceIsSound(w.trace);
    EntryWatches(w.sessions[id].watched, entry);
    if event.Change? {
      ChangeIsItsOp(rules, w, event);
      BumpsDropNone([event.op], k);
      TwoHolders(w, id, id + 1, k);
    } else {
      SessionEvent(rules, w, event);
      if event.Connect? {
        ConnectIsQuiet(rules, w, event);
        BumpsDropNone([], k);
        TwoHolders(w, id, id + 1, k);
      } else {
        OutcomeDrops(rules, w, event, k);
        TwoHolders(w, id, if event.id == id then id + 1 else event.id, k);
      }
    }
    FewDropsHold(Now(w), o.ops, k);
  }

  lemma HeldConcat(v: Versions, a: seq<Op>, b: seq<Op>, k: DbKey)
    requires HeldThroughout(v, a, k) && HeldThroughout(ApplyAll(v, a), b, k)
    ensures HeldThroughout(v, a + b, k)
  {
    hide ApplyAll;
    forall n | 0 <= n <= |a + b|
      ensures k in ApplyAll(v, (a + b)[..n]).keys
    {
      if n <= |a| {
        assert (a + b)[..n] == a[..n];
      } else {
        assert (a + b)[..n] == a + b[..n - |a|];
        ApplySplit(v, a, b[..n - |a|]);
      }
    }
  }

  ghost predicate StillWatching(worlds: seq<World>, i: nat, j: nat, id: nat, entry: Watched)
    requires i <= j < |worlds|
  {
    forall n :: i <= n <= j ==> Holds(worlds[n], id, entry)
  }

  /** What was done to the tracker between two worlds of a run. */
  ghost function Between(a: World, b: World): seq<Op> {
    if |a.trace| <= |b.trace| then b.trace[|a.trace|..] else []
  }

  lemma {:induction false} HeldBetween(rules: Rules, worlds: seq<World>, events: seq<Event>, i: nat, j: nat,
                                       id: nat, entry: Watched)
    requires Run(rules, worlds, events) && i <= j <= |events| && StillWatching(worlds, i, j, id, entry)
    ensures worlds[j].trace == worlds[i].trace + Between(worlds[i], worlds[j])
    ensures HeldThroughout(Now(worlds[i]), Between(worlds[i], worlds[j]), entry.at)
    decreases j
  {
    hide HeldThroughout;
    hide Healthy;
    hide Registered;
    hide ApplyAll;
    hide Next;
    hide OutcomeOf;
    if i == j {
      AllRegistered(rules, worlds, events, i);
      EntryWatches(worlds[i].sessions[id].watched, entry);
      TwoHolders(worlds[i], id, id + 1, entry.at);
      TraceIsSound(worlds[i].trace);
      BumpsDropNone([], entry.at);
      FewDropsHold(Now(worlds[i]), [], entry.at);
    } else {
      HeldBetween(rules, worlds, events, i, j - 1, id, entry);
      AllRegistered(rules, worlds, events, j - 1);
      AllHealthy(rules, worlds, events, j - 1);
      assert worlds[j - 1 + 1] == Next(rules, worlds[j - 1], events[j - 1]);
      EventHolds(rules, worlds[j - 1], events[j - 1], id, entry);
      var before, ops := Between(worlds[i], worlds[j - 1]), OutcomeOf(rules, worlds[j - 1], events[j - 1]).ops;
      ApplySplit(UNTRACKED, worlds[i].trace, before);
      HeldConcat(Now(worlds[i]), before, ops, entry.at);
      assert Between(worlds[i], worlds[j]) == before + ops;
    }
  }

  /** A watched entry looks moved exactly when its key or its database was touched since it was
      taken, whatever all clients did meanwhile. */
  lemma WatchSeesChanges(rules: Rules, worlds: seq<World>, events: seq<Event>, i: nat, j: nat, id: nat, entry: Watched)
    requires Run(rules, worlds, events) && i <= j <= |events| && StillWatching(worlds, i, j, id, entry)
    requires !Moved(Now(worlds[i]), entry)
    ensures Moved(Now(worlds[j]), entry) <==> exists op :: op in Between(worlds[i], worlds[j]) && Touches(op, entry.at)
  {
    hide ApplyAll;
    hide HeldThroughout;
    hide KeyVersion;
    hide DbVersion;
    HeldBetween(rules, worlds, events, i, j, id, entry);
    var ops := Between(worlds[i], worlds[j]);
    TraceIsSound(worlds[i].trace);
    VersionsTellTouches(Now(worlds[i]), ops, entry.at);
    ApplySplit(UNTRACKED, worlds[i].trace, ops);
  }

  /** A successful WATCH starts from an unmoved entry. */
  lemma WatchStartsFresh(rules: Rules, w: World, event: Event)
    requires Possible(w, event) && event.WatchKey? && OutcomeOf(rules, w, event).reply == Okay
    requires !IsWatched(w.sessions[event.id].watched, event.at)
    ensures
      var watched := Next(rules, w, event).sessions[event.id].watched;
      && |watched| > 0 && watched[|watched| - 1].at == event.at
      && !Moved(Now(Next(rules, w, event)), watched[|watched| - 1])
  {
    hide ApplyAll;
    hide KeyVersion;
    hide DbVersion;
    ApplySplit(UNTRACKED, w.trace, OutcomeOf(rules, w, event).ops);
  }

  // When EXEC commits.

  /** Snapshots are not ahead of the clock. */
  ghost predicate Old(watched: seq<Watched>, clock: nat) {
    forall i :: 0 <= i < |watched| ==> watched[i].keyVersion <= clock
  }

  lemma {:induction false} SnapshotsAreOld(rules: Rules, worlds: seq<World>, events: seq<Event>, n: nat, id: nat)
    requires Run(rules, worlds, events) && n <= |events| && id in worlds[n].sessions
    ensures Old(worlds[n].sessions[id].watched, Now(worlds[n]).clock)
    decreases n
  {
    hide ApplyAll;
    hide OutcomeOf;
    hide Next;
    if n > 0 {
      var w, event := worlds[n - 1], events[n - 1];
      assert worlds[n - 1 + 1] == Next(rules, w, event);
      if id in w.sessions {
        SnapshotsAreOld(rules, worlds, events, n - 1, id);
      }
      EventKeepsOld(rules, w, event, id);
    }
  }

  lemma EventKeepsOld(rules: Rules, w: World, event: Event, id: nat)
    requires Possible(w, event) && id in Next(rules, w, event).sessions
    requires id in w.sessions ==> Old(w.sessions[id].watched, Now(w).clock)
    ensures Old(Next(rules, w, event).sessions[id].watched, Now(Next(rules, w, event)).clock)
  {
    hide ApplyAll;
    hide Inspect;
    hide FrameSize;
    hide All;
    var o := OutcomeOf(rules, w, event);
    TraceIsSound(w.trace);
    ApplySplit(UNTRACKED, w.trace, o.ops);
    OpsKeepSound(Now(w), o.ops);
  }

  predicate Quiet(v: Versions, w: Watched, e: DbKey -> Expiry) {
    e(w.at).Alive? && !Moved(v, w)
  }

  lemma ExpiredMoves(v: Versions, w: Watched)
    requires w.at in v.keys && w.keyVersion <= v.clock
    ensures Moved(ApplyAll(v, [BumpKey(w.at)]), w)
  {
    assert [BumpKey(w.at)][..0] == [];
  }

  lemma QuietNext(v: Versions, front: seq<Watched>, last: Watched, e: DbKey -> Expiry)
    ensures (forall i :: 0 <= i < |front + [last]| ==> Quiet(v, (front + [last])[i], e))
       <==> (forall i :: 0 <= i < |front| ==> Quiet(v, front[i], e)) && Quiet(v, last, e)
  {
    hide Quiet;
    var watched := front + [last];
    assert watched[|front|] == last;
    if forall i :: 0 <= i < |watched| ==> Quiet(v, watched[i], e) {
      forall i | 0 <= i < |front|
        ensures Quiet(v, front[i], e)
      {
        assert front[i] == watched[i];
      }
    }
  }

  /** The check finds nothing, and changes nothing, exactly when every watched key is unmoved and
      alive: an expired key counts as changed. */
  lemma {:induction false} QuietInspection(v: Versions, watched: seq<Watched>, e: DbKey -> Expiry)
    requires Old(watched, v.clock) && (forall i :: 0 <= i < |watched| ==> watched[i].at in v.keys)
    ensures
      var verdict := Inspect(v, watched, e);
      && (!verdict.changed && !verdict.failed <==> forall i :: 0 <= i < |watched| ==> Quiet(v, watched[i], e))
      && (!verdict.changed && !verdict.failed ==> verdict.ops == [])
    decreases |watched|
  {
    hide ApplyAll;
    hide Moved;
    hide Inspect;
    if watched == [] {
      InspectNone(v, e);
    } else {
      var front, last := watched[..|watched| - 1], watched[|watched| - 1];
      QuietInspection(v, front, e);
      assert watched == front + [last];
      QuietNext(v, front, last, e);
      NoOps(v);
      ExpiredMoves(v, last);
      assert watched[..|watched|] == watched;
      if Inspect(v, front, e).changed || Inspect(v, front, e).failed {
        InspectStops(v, watched, |front|, e);
      } else {
        InspectNext(v, watched, |front|, e);
        assert [] + ExpiryOps(last.at, e(last.at)) == ExpiryOps(last.at, e(last.at));
      }
    }
  }

  /** In every run EXEC commits exactly when the client is in MULTI, no frame was refused since,
      every queued frame is still permitted, no watched key moved or expired or failed to be looked
      up, and the commit itself succeeds. The re-parsing, the missing-view and the not-allowed
      branches never decide. */
  lemma ExecDecision(rules: Rules, worlds: seq<World>, events: seq<Event>, n: nat)
    requires Run(rules, worlds, events) && n < |events| && events[n].ExecEvent?
    ensures
      var event := events[n];
      var s := worlds[n].sessions[event.id];
      var turns := Turns(rules, worlds, events, n);
      OutcomeOf(rules, worlds[n], event).reply == Executed <==>
        && s.inTransaction && !FaultSince(turns, event.id)
        && All(event.allowed, QueuedSince(turns, event.id)) && event.commitOk
        && forall i :: 0 <= i < |s.watched| ==> Quiet(Now(worlds[n]), s.watched[i], event.expiry)
  {
    hide ApplyAll;
    hide Inspect;
    hide QueuedSince;
    hide FaultSince;
    hide All;
    hide Moved;
    var event := events[n];
    var s := worlds[n].sessions[event.id];
    SessionsAreHealthy(rules, worlds, events, n, event.id);
    QueueIsHistory(rules, worlds, events, n, event.id);
    SnapshotsAreOld(rules, worlds, events, n, event.id);
    EntriesAreTracked(rules, worlds, events, n, event.id);
    QuietInspection(Now(worlds[n]), s.watched, event.expiry);
  }

  lemma EntriesAreTracked(rules: Rules, worlds: seq<World>, events: seq<Event>, n: nat, id: nat)
    requires Run(rules, worlds, events) && n <= |events| && id in worlds[n].sessions
    ensures var watched := worlds[n].sessions[id].watched;
            forall i :: 0 <= i < |watched| ==> watched[i].at in Now(worlds[n]).keys
  {
    hide ApplyAll;
    AllRegistered(rules, worlds, events, n);
    var watched := worlds[n].sessions[id].watched;
    forall i | 0 <= i < |watched|
      ensures watched[i].at in Now(worlds[n]).keys
    {
      TwoHolders(worlds[n], id, id + 1, watched[i].at);
    }
  }
}
