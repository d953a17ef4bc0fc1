/** All clients together: every run of MULTI, EXEC, WATCH and changes to the data. */
module Runs {
  import opened Bytes
  import opened Frames
  import opened Tracker
  import opened Transactions

  datatype Commit = Commit(client: nat, frames: seq<Frame>)

  /** `trace` is everything done to the tracker. */
  datatype World = World(sessions: map<nat, Session>, trace: seq<Op>, committed: seq<Commit>)

  /** A WATCH of several keys is several events, up to the first failure. */
  datatype Event =
    | Connect(id: nat)
    | Disconnect(id: nat)
    | Multi(id: nat, viewOk: bool)
    | Queue(id: nat, frame: Frame, authenticated: bool, permitted: bool)
    | ExecEvent(id: nat, allowed: Frame -> bool, expiry: DbKey -> Expiry, commitOk: bool, writes: seq<Op>)
    | DiscardEvent(id: nat)
    | Reset(id: nat)
    | WatchKey(id: nat, at: DbKey, found: Expiry)
    | UnwatchEvent(id: nat)
    | Change(op: Op)                       // somebody else's command changes a key or a database

  const EMPTY_WORLD := World(map[], [], [])

  function Now(w: World): Versions {
    ApplyAll(UNTRACKED, w.trace)
  }

  predicate Possible(w: World, event: Event) {
    match event
    case Connect(id) => id !in w.sessions
    case Change(op) => OnlyBumps([op])
    case Queue(id, _, _, _) => id in w.sessions && w.sessions[id].inTransaction
    case ExecEvent(id, _, _, _, writes) => id in w.sessions && OnlyBumps(writes)
    case _ => event.id in w.sessions
  }

  /** What the event does to the session it belongs to. */
  function OutcomeOf(rules: Rules, w: World, event: Event): Outcome
    requires Possible(w, event)
  {
    match event
    case Connect(_) => Outcome(NEW_SESSION, [], Okay)
    case Disconnect(id) => Unwatch(w.sessions[id])
    case Multi(id, viewOk) => Start(w.sessions[id], viewOk)
    case Queue(id, frame, authenticated, permitted) => Enqueue(w.sessions[id], rules, frame, authenticated, permitted)
    case ExecEvent(id, allowed, expiry, commitOk, writes) =>
      Exec(w.sessions[id], Now(w), rules, allowed, expiry, commitOk, writes)
    case DiscardEvent(id) => Discard(w.sessions[id])
    case Reset(id) => Clear(w.sessions[id], Okay)
    case WatchKey(id, k, found) =>
      if w.sessions[id].inTransaction then Outcome(w.sessions[id], [], WatchInMulti)
      else WatchOne(w.sessions[id], Now(w), k, found)
    case UnwatchEvent(id) => Unwatch(w.sessions[id])
    case Change(op) => Outcome(NEW_SESSION, [op], Okay)
  }

  function Next(rules: Rules, w: World, event: Event): World
    requires Possible(w, event)
  {
    var o := OutcomeOf(rules, w, event);
    var trace := w.trace + o.ops;
    match event
    case Change(_) => w.(trace := trace)
    case Disconnect(id) => w.(sessions := w.sessions - {id}, trace := trace)
    case ExecEvent(id, _, _, _, _) =>
      w.(sessions := w.sessions[id := o.session], trace := trace,
         committed := if o.reply == Executed then w.committed + [Commit(id, w.sessions[id].frames)] else w.committed)
    case _ => w.(sessions := w.sessions[event.id := o.session], trace := trace)
  }

  ghost predicate Run(rules: Rules, worlds: seq<World>, events: seq<Event>) {
    && |worlds| == |events| + 1
    && worlds[0] == EMPTY_WORLD
    && forall i :: 0 <= i < |events| ==>
         Possible(worlds[i], events[i]) && worlds[i + 1] == Next(rules, worlds[i], events[i])
  }

  // What holds of every session in every reachable world.

  ghost predicate Once(watched: seq<Watched>) {
    forall i, j :: 0 <= i < j < |watched| ==> watched[i].at != watched[j].at
  }

  ghost predicate Healthy(rules: Rules, s: Session) {
    && s.view == s.inTransaction
    && (!s.inTransaction ==> s.frames == [] && !s.dirty)
    && s.size == SizeOf(s.frames) && s.size <= rules.maxBytes && |s.frames| <= rules.maxCommands
    && All(rules.parses, s.frames) && All(rules.queueable, s.frames)
    && Once(s.watched)
  }

  lemma AllNext(p: Frame -> bool, frames: seq<Frame>, f: Frame)
    ensures All(p, frames + [f]) <==> All(p, frames) && p(f)
  {
    if All(p, frames + [f]) {
      assert (frames + [f])[|frames|] == f;
      forall i | 0 <= i < |frames|
        ensures p(frames[i])
      {
        assert (frames + [f])[i] == frames[i];
      }
    }
  }

  lemma EnqueueKeepsHealthy(rules: Rules, s: Session, frame: Frame, authenticated: bool, permitted: bool)
    requires Healthy(rules, s) && s.inTransaction
    ensures Healthy(rules, Enqueue(s, rules, frame, authenticated, permitted).session)
  {
    hide FrameSize;
    hide SizeOf;
    hide Once;
    hide All;
    SizeOfNext(s.frames, frame);
    AllNext(rules.parses, s.frames, frame);
    AllNext(rules.queueable, s.frames, frame);
  }

  lemma EventKeepsHealthy(rules: Rules, w: World, event: Event)
    requires Possible(w, event) && (forall id :: id in w.sessions ==> Healthy(rules, w.sessions[id]))
    ensures forall id :: id in Next(rules, w, event).sessions ==> Healthy(rules, Next(rules, w, event).sessions[id])
  {
    hide FrameSize;
    hide SizeOf;
    hide ApplyAll;
    hide Inspect;
    NewIsHealthy(rules);
    match event {
      case Queue(id, frame, authenticated, permitted) =>
        EnqueueKeepsHealthy(rules, w.sessions[id], frame, authenticated, permitted);
      case _ =>
    }
  }

  lemma NewIsHealthy(rules: Rules)
    ensures Healthy(rules, NEW_SESSION) && SizeOf([]) == 0
  {
  }

  /** In every run: a view is held exactly inside MULTI, the queue's byte count is the sum of the
      encoded sizes and within the limits, and only parseable, queueable frames are in it. */
  lemma {:induction false} SessionsAreHealthy(rules: Rules, worlds: seq<World>, events: seq<Event>, n: nat, id: nat)
    requires Run(rules, worlds, events) && n <= |events| && id in worlds[n].sessions
    ensures Healthy(rules, worlds[n].sessions[id])
    decreases n
  {
    hide Healthy;
    if n > 0 {
      var sessions := worlds[n - 1].sessions;
      forall other | other in sessions
        ensures Healthy(rules, sessions[other])
      {
        SessionsAreHealthy(rules, worlds, events, n - 1, other);
      }
      EventKeepsHealthy(rules, worlds[n - 1], events[n - 1]);
      assert worlds[n - 1 + 1] == Next(rules, worlds[n - 1], events[n - 1]);
    }
  }

  // The queue as the client saw it: from its commands and the replies to them alone.

  datatype Turn = Turn(event: Event, reply: Reply)

  /** The turn opens or ends a transaction of the client, or the client itself. */
  predicate Resets(turn: Turn, id: nat) {
    match turn.event
    case Connect(x) => x == id
    case Disconnect(x) => x == id
    case Multi(x, _) => x == id && turn.reply == Okay
    case ExecEvent(x, _, _, _, _) => x == id && turn.reply != WithoutMulti && turn.reply != StorageFailed
    case DiscardEvent(x) => x == id && turn.reply == Okay
    case Reset(x) => x == id
    case _ => false
  }

  /** Frames answered QUEUED since the client's transaction began, in order. */
  function QueuedSince(turns: seq<Turn>, id: nat): seq<Frame> {
    if turns == [] then []
    else
      var before := QueuedSince(turns[..|turns| - 1], id);
      var last := turns[|turns| - 1];
      if Resets(last, id) then []
      else if last.event.Queue? && last.event.id == id && last.reply == Queued then before + [last.event.frame]
      else before
  }

  /** Was a frame refused since then? */
  predicate FaultSince(turns: seq<Turn>, id: nat) {
    if turns == [] then false
    else
      var last := turns[|turns| - 1];
      if Resets(last, id) then false
      else FaultSince(turns[..|turns| - 1], id) || (last.event.Queue? && last.event.id == id && last.reply.Rejected?)
  }

  ghost function Turns(rules: Rules, worlds: seq<World>, events: seq<Event>, n: nat): (turns: seq<Turn>)
    requires Run(rules, worlds, events) && n <= |events|
    ensures |turns| == n
  {
    if n == 0 then []
    else
      Turns(rules, worlds, events, n - 1)
      + [Turn(events[n - 1], OutcomeOf(rules, worlds[n - 1], events[n - 1]).reply)]
  }

  /** The session's queue and error mark are exactly what the client was told. */
  ghost predicate Remembers(turns: seq<Turn>, id: nat, s: Session) {
    s.frames == QueuedSince(turns, id) && s.dirty == FaultSince(turns, id)
  }

  lemma TurnIsRemembered(rules: Rules, w: World, event: Event, turns: seq<Turn>, id: nat)
    requires Possible(w, event) && id in Next(rules, w, event).sessions
    requires id in w.sessions ==> Remembers(turns, id, w.sessions[id]) && Healthy(rules, w.sessions[id])
    ensures Remembers(turns + [Turn(event, OutcomeOf(rules, w, event).reply)], id, Next(rules, w, event).sessions[id])
  {
    hide FrameSize;
    hide SizeOf;
    hide ApplyAll;
    hide Inspect;
    var turn := Turn(event, OutcomeOf(rules, w, event).reply);
    assert (turns + [turn])[..|turns|] == turns;
  }

  lemma {:induction false} QueueIsHistory(rules: Rules, worlds: seq<World>, events: seq<Event>, n: nat, id: nat)
    requires Run(rules, worlds, events) && n <= |events| && id in worlds[n].sessions
    ensures Remembers(Turns(rules, worlds, events, n), id, worlds[n].sessions[id])
    decreases n
  {
    hide Healthy;
    hide Remembers;
    if n > 0 {
      assert worlds[n - 1 + 1] == Next(rules, worlds[n - 1], events[n - 1]);
      if id in worlds[n - 1].sessions {
        QueueIsHistory(rules, worlds, events, n - 1, id);
        SessionsAreHealthy(rules, worlds, events, n - 1, id);
      }
      TurnIsRemembered(rules, worlds[n - 1], events[n - 1], Turns(rules, worlds, events, n - 1), id);
    }
  }

  /** A refused frame dooms the transaction, and a successful EXEC commits exactly the frames
      answered QUEUED, in order; any other reply commits nothing. */
  lemma ExecCommitsWhatWasQueued(rules: Rules, worlds: seq<World>, events: seq<Event>, n: nat)
    requires Run(rules, worlds, events) && n < |events| && events[n].ExecEvent?
    ensures
      var id := events[n].id;
      var turns := Turns(rules, worlds, events, n);
      var reply := OutcomeOf(rules, worlds[n], events[n]).reply;
      && (FaultSince(turns, id) ==> reply == Aborted(PreviousErrors))
      && worlds[n + 1].committed == worlds[n].committed
           + if reply == Executed then [Commit(id, QueuedSince(turns, id))] else []
  {
    hide Inspect;
    hide ApplyAll;
    hide QueuedSince;
    hide FaultSince;
    QueueIsHistory(rules, worlds, events, n, events[n].id);
    SessionsAreHealthy(rules, worlds, events, n, events[n].id);
  }

  lemma OnlyExecCommits(rules: Rules, w: World, event: Event)
    requires Possible(w, event) && !event.ExecEvent?
    ensures Next(rules, w, event).committed == w.committed
  {
  }

  /** The successful EXECs among the first `n` events, each with the frames its client was told were
      queued. */
  ghost function SuccessfulExecs(rules: Rules, worlds: seq<World>, events: seq<Event>, n: nat): seq<Commit>
    requires Run(rules, worlds, events) && n <= |events|
  {
    if n == 0 then []
    else
      var event := events[n - 1];
      SuccessfulExecs(rules, worlds, events, n - 1) +
      if event.ExecEvent? && OutcomeOf(rules, worlds[n - 1], event).reply == Executed
      then [Commit(event.id, QueuedSince(Turns(rules, worlds, events, n - 1), event.id))] else []
  }

  /** In every run, everything ever committed is the successful EXECs in order. */
  lemma {:induction false} CommittedIsExecs(rules: Rules, worlds: seq<World>, events: seq<Event>, n: nat)
    requires Run(rules, worlds, events) && n <= |events|
    ensures worlds[n].committed == SuccessfulExecs(rules, worlds, events, n)
    decreases n
  {
    hide OutcomeOf;
    hide Next;
    hide QueuedSince;
    hide FaultSince;
    if n > 0 {
      CommittedIsExecs(rules, worlds, events, n - 1);
      assert worlds[n - 1 + 1] == Next(rules, worlds[n - 1], events[n - 1]);
      if events[n - 1].ExecEvent? {
        ExecCommitsWhatWasQueued(rules, worlds, events, n - 1);
      } else {
        OnlyExecCommits(rules, worlds[n - 1], events[n - 1]);
      }
    }
  }
}
