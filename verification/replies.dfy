/** What every client is answered, in every run, in terms of its own commands and replies so far. */
module Replies {
  import opened Bytes
  import opened Frames
  import opened Tracker
  import opened Transactions
  import opened Runs
  import opened Detection
  import Printer

  /** Is the client inside MULTI? The last turn that opened or ended a transaction opened one. */
  predicate InMulti(turns: seq<Turn>, id: nat) {
    if turns == [] then false
    else
      var last := turns[|turns| - 1];
      if Resets(last, id) then last.event.Multi? else InMulti(turns[..|turns| - 1], id)
  }

  /** The turn makes the client watch nothing. */
  predicate Forgets(turn: Turn, id: nat) {
    (Resets(turn, id) && !turn.event.Multi?) || (turn.event.UnwatchEvent? && turn.event.id == id)
  }

  /** Keys that WATCH was answered OK for since then, each once, in order. */
  function WatchedSince(turns: seq<Turn>, id: nat): seq<DbKey> {
    if turns == [] then []
    else
      var before := WatchedSince(turns[..|turns| - 1], id);
      var last := turns[|turns| - 1];
      if Forgets(last, id) then []
      else if last.event.WatchKey? && last.event.id == id && last.reply == Okay && last.event.at !in before
      then before + [last.event.at] else before
  }

  function KeysOf(watched: seq<Watched>): (keys: seq<DbKey>)
    ensures |keys| == |watched|
  {
    seq(|watched|, i requires 0 <= i < |watched| => watched[i].at)
  }

  lemma KeysNext(watched: seq<Watched>, w: Watched)
    ensures KeysOf(watched + [w]) == KeysOf(watched) + [w.at]
  {
  }

  lemma WatchedIsKey(watched: seq<Watched>, k: DbKey)
    ensures IsWatched(watched, k) <==> k in KeysOf(watched)
  {
    if IsWatched(watched, k) {
      var i :| 0 <= i < |watched| && watched[i].at == k;
      assert KeysOf(watched)[i] == k;
    }
  }

  ghost predicate Mirrors(turns: seq<Turn>, id: nat, s: Session) {
    s.inTransaction == InMulti(turns, id) && KeysOf(s.watched) == WatchedSince(turns, id)
  }

  lemma TurnIsMirrored(rules: Rules, w: World, event: Event, turns: seq<Turn>, id: nat)
    requires Possible(w, event) && id in Next(rules, w, event).sessions
    requires id in w.sessions ==> Mirrors(turns, id, w.sessions[id])
    ensures Mirrors(turns + [Turn(event, OutcomeOf(rules, w, event).reply)], id, Next(rules, w, event).sessions[id])
  {
    hide FrameSize;
    hide ApplyAll;
    hide Inspect;
    hide All;
    hide IsWatched;
    var turn := Turn(event, OutcomeOf(rules, w, event).reply);
    assert (turns + [turn])[..|turns|] == turns;
    if event.WatchKey? && event.id == id {
      var s := w.sessions[id];
      WatchedIsKey(s.watched, event.at);
      var after := Next(rules, w, event).sessions[id].watched;
      if after != s.watched {
        KeysNext(s.watched, after[|after| - 1]);
      }
    }
  }

  /** In every run a session is inside MULTI, and watches the keys, that its client was told. */
  lemma {:induction false} SessionIsHistory(rules: Rules, worlds: seq<World>, events: seq<Event>, n: nat, id: nat)
    requires Run(rules, worlds, events) && n <= |events| && id in worlds[n].sessions
    ensures Mirrors(Turns(rules, worlds, events, n), id, worlds[n].sessions[id])
    decreases n
  {
    hide Mirrors;
    hide OutcomeOf;
    hide Next;
    if n > 0 {
      assert worlds[n - 1 + 1] == Next(rules, worlds[n - 1], events[n - 1]);
      if id in worlds[n - 1].sessions {
        SessionIsHistory(rules, worlds, events, n - 1, id);
      }
      TurnIsMirrored(rules, worlds[n - 1], events[n - 1], Turns(rules, worlds, events, n - 1), id);
    }
  }

  // Queueing.

  lemma {:induction false} SizeIsEncodedLength(frames: seq<Frame>)
    ensures SizeOf(frames) == |Printer.EncodeSeq(Resp2, frames)|
    decreases |frames|
  {
    if frames != [] {
      var front, last := frames[..|frames| - 1], frames[|frames| - 1];
      assert frames == front + [last];
      SizeIsEncodedLength(front);
      Printer.EncodeSeqSplit(Resp2, front, [last]);
      assert [last][1..] == [];
      assert Printer.EncodeSeq(Resp2, []) == [];
      assert Printer.EncodeSeq(Resp2, [last]) == Printer.Encode(Resp2, last) + [];
    }
  }

  /** Every frame sent inside MULTI is answered QUEUED, or with the first of these faults: it is no
      command; the client has not authenticated; it may not run the command; the command cannot be
      queued; there are too many commands, or too many bytes, with this one. */
  lemma QueueReply(rules: Rules, worlds: seq<World>, events: seq<Event>, n: nat)
    requires Run(rules, worlds, events) && n < |events| && events[n].Queue?
    ensures
      var event := events[n];
      var queued := QueuedSince(Turns(rules, worlds, events, n), event.id);
      OutcomeOf(rules, worlds[n], event).reply ==
        if !rules.parses(event.frame) then Rejected(BadCommand)
        else if !event.authenticated then Rejected(NotAuthenticated)
        else if !event.permitted then Rejected(NotPermitted)
        else if !rules.queueable(event.frame) then Rejected(NotAllowed)
        else if |queued| + 1 > rules.maxCommands || |Printer.EncodeSeq(Resp2, queued + [event.frame])| > rules.maxBytes
        then Rejected(QueueFull)
        else Queued
  {
    hide QueuedSince;
    hide FaultSince;
    hide Printer.EncodeSeq;
    hide FrameSize;
    hide SizeOf;
    var event := events[n];
    var queued := QueuedSince(Turns(rules, worlds, events, n), event.id);
    QueueIsHistory(rules, worlds, events, n, event.id);
    SessionsAreHealthy(rules, worlds, events, n, event.id);
    SizeIsEncodedLength(queued + [event.frame]);
    SizeOfNext(queued, event.frame);
  }

  /** The client sent the frame, inside MULTI, authenticated and with permission. */
  predicate Admitted(rules: Rules, event: Event, id: nat, frame: Frame) {
    && event.Queue? && event.id == id && event.frame == frame && event.authenticated && event.permitted
    && rules.parses(frame) && rules.queueable(frame)
  }

  lemma {:induction false} QueuedWasAdmitted(rules: Rules, worlds: seq<World>, events: seq<Event>, n: nat,
                                             id: nat, frame: Frame) returns (i: nat)
    requires Run(rules, worlds, events) && n <= |events|
    requires frame in QueuedSince(Turns(rules, worlds, events, n), id)
    ensures i < n && Admitted(rules, events[i], id, frame)
    decreases n
  {
    hide OutcomeOf;
    hide Next;
    var turns := Turns(rules, worlds, events, n);
    assert turns[..n - 1] == Turns(rules, worlds, events, n - 1);
    if frame in QueuedSince(turns[..n - 1], id) {
      i := QueuedWasAdmitted(rules, worlds, events, n - 1, id, frame);
    } else {
      QueueReply(rules, worlds, events, n - 1);
      i := n - 1;
    }
  }

  /** Nothing is ever committed that was not sent by an authenticated client with the permission. */
  lemma {:induction false} CommittedWasAdmitted(rules: Rules, worlds: seq<World>, events: seq<Event>, n: nat,
                                                c: nat, frame: Frame) returns (i: nat)
    requires Run(rules, worlds, events) && n <= |events| && c < |worlds[n].committed|
    requires frame in worlds[n].committed[c].frames
    ensures i < n && Admitted(rules, events[i], worlds[n].committed[c].client, frame)
    decreases n
  {
    hide OutcomeOf;
    hide Next;
    hide QueuedSince;
    hide FaultSince;
    hide Admitted;
    CommittedIsExecs(rules, worlds, events, n);
    if n > 0 {
      CommittedIsExecs(rules, worlds, events, n - 1);
      if c < |worlds[n - 1].committed| {
        i := CommittedWasAdmitted(rules, worlds, events, n - 1, c, frame);
      } else {
        i := QueuedWasAdmitted(rules, worlds, events, n - 1, events[n - 1].id, frame);
      }
    }
  }

  // EXEC and the others.

  /** The first watched key that is not alive and unmoved; their number if there is none. */
  ghost predicate FirstNoisy(v: Versions, watched: seq<Watched>, e: DbKey -> Expiry, i: nat) {
    && i <= |watched|
    && (forall j :: 0 <= j < i ==> Quiet(v, watched[j], e)) && (i < |watched| ==> !Quiet(v, watched[i], e))
  }

  lemma NoisyVerdict(v: Versions, watched: seq<Watched>, e: DbKey -> Expiry, i: nat)
    requires Old(watched, v.clock) && (forall j :: 0 <= j < |watched| ==> watched[j].at in v.keys)
    requires FirstNoisy(v, watched, e, i)
    ensures var verdict := Inspect(v, watched, e);
            if i == |watched| then !verdict.changed && !verdict.failed
            else if e(watched[i].at).LookupFailed? then verdict.failed
            else verdict.changed && !verdict.failed
  {
    hide ApplyAll;
    hide Inspect;
    hide Moved;
    QuietInspection(v, watched, e);
    if i < |watched| {
      QuietInspection(v, watched[..i], e);
      InspectNext(v, watched, i, e);
      NoneApplied(v);
      ExpiredMoves(v, watched[i]);
      assert [] + ExpiryOps(watched[i].at, e(watched[i].at)) == ExpiryOps(watched[i].at, e(watched[i].at));
      InspectStops(v, watched, i + 1, e);
    }
  }

  lemma NoneApplied(v: Versions)
    ensures ApplyAll(v, []) == v
  {
  }

  /** EXEC on a healthy session. */
  lemma HealthyExec(rules: Rules, s: Session, v: Versions, allowed: Frame -> bool, e: DbKey -> Expiry,
                    commitOk: bool, writes: seq<Op>, i: nat)
    requires Healthy(rules, s) && Old(s.watched, v.clock)
    requires (forall j :: 0 <= j < |s.watched| ==> s.watched[j].at in v.keys) && FirstNoisy(v, s.watched, e, i)
    ensures Exec(s, v, rules, allowed, e, commitOk, writes).reply ==
            if !s.inTransaction then WithoutMulti
            else if s.dirty then Aborted(PreviousErrors)
            else if !All(allowed, s.frames) then Aborted(NotPermitted)
            else if i < |s.watched| && e(s.watched[i].at).LookupFailed? then StorageFailed
            else if i < |s.watched| then WatchedChanged
            else if !commitOk then Aborted(CommitFailed)
            else Executed
  {
    hide ApplyAll;
    hide Inspect;
    hide SizeOf;
    hide Quiet;
    hide All;
    hide Once;
    NoisyVerdict(v, s.watched, e, i);
  }

  /** EXEC's answer in every run: the first of these that applies. */
  lemma ExecReply(rules: Rules, worlds: seq<World>, events: seq<Event>, n: nat, i: nat)
    requires Run(rules, worlds, events) && n < |events| && events[n].ExecEvent?
    requires FirstNoisy(Now(worlds[n]), worlds[n].sessions[events[n].id].watched, events[n].expiry, i)
    ensures
      var event := events[n];
      var turns := Turns(rules, worlds, events, n);
      var queued, watched := QueuedSince(turns, event.id), WatchedSince(turns, event.id);
      && i <= |watched|
      && OutcomeOf(rules, worlds[n], event).reply ==
           if !InMulti(turns, event.id) then WithoutMulti
           else if FaultSince(turns, event.id) then Aborted(PreviousErrors)
           else if exists j :: 0 <= j < |queued| && !event.allowed(queued[j]) then Aborted(NotPermitted)
           else if i < |watched| && event.expiry(watched[i]).LookupFailed? then StorageFailed
           else if i < |watched| then WatchedChanged
           else if !event.commitOk then Aborted(CommitFailed)
           else Executed
  {
    hide ApplyAll;
    hide Exec;
    hide QueuedSince;
    hide FaultSince;
    hide InMulti;
    hide WatchedSince;
    hide FirstNoisy;
    hide All;
    hide Healthy;
    hide Old;
    var event := events[n];
    var s := worlds[n].sessions[event.id];
    SessionsAreHealthy(rules, worlds, events, n, event.id);
    QueueIsHistory(rules, worlds, events, n, event.id);
    SessionIsHistory(rules, worlds, events, n, event.id);
    SnapshotsAreOld(rules, worlds, events, n, event.id);
    EntriesAreTracked(rules, worlds, events, n, event.id);
    HealthyExec(rules, s, Now(worlds[n]), event.allowed, event.expiry, event.commitOk, event.writes, i);
    NoisyInRange(Now(worlds[n]), s.watched, event.expiry, i);
    SomeForbidden(event.allowed, s.frames);
  }

  lemma NoisyInRange(v: Versions, watched: seq<Watched>, e: DbKey -> Expiry, i: nat)
    requires FirstNoisy(v, watched, e, i)
    ensures i <= |watched| && (i < |watched| ==> KeysOf(watched)[i] == watched[i].at)
  {
  }

  lemma SomeForbidden(allowed: Frame -> bool, frames: seq<Frame>)
    ensures All(allowed, frames) <==> !exists j :: 0 <= j < |frames| && !allowed(frames[j])
  {
  }

  /** The other commands: MULTI does not nest, DISCARD needs it, WATCH must come before it. */
  lemma OtherReplies(rules: Rules, worlds: seq<World>, events: seq<Event>, n: nat)
    requires Run(rules, worlds, events) && n < |events|
    ensures
      var event := events[n];
      var turns := Turns(rules, worlds, events, n);
      var reply := OutcomeOf(rules, worlds[n], event).reply;
      && (event.Multi? ==>
            reply == if InMulti(turns, event.id) then Nested else if !event.viewOk then StorageFailed else Okay)
      && (event.DiscardEvent? ==> reply == if InMulti(turns, event.id) then Okay else WithoutMulti)
      && (event.WatchKey? ==>
            reply == if InMulti(turns, event.id) then WatchInMulti
                     else if event.at !in WatchedSince(turns, event.id) && event.found.LookupFailed? then StorageFailed
                     else Okay)
      && (event.Reset? || event.UnwatchEvent? ==> reply == Okay)
  {
    hide ApplyAll;
    hide IsWatched;
    hide InMulti;
    hide WatchedSince;
    var event := events[n];
    if event.Multi? || event.DiscardEvent? || event.WatchKey? {
      SessionIsHistory(rules, worlds, events, n, event.id);
      if event.WatchKey? {
        WatchedIsKey(worlds[n].sessions[event.id].watched, event.at);
      }
    }
  }
}
