/** One client's MULTI, EXEC and WATCH state, and the operations that change it. */
module Transactions {
  import opened Bytes
  import opened Frames
  import opened Tracker
  import Printer

  datatype Fault =
    | BadCommand
    | NotAuthenticated
    | NotPermitted
    | QueueFull
    | NotAllowed
    | PreviousErrors
    | MissingState
    | CommitFailed

  datatype Reply =
    | Okay
    | Queued
    | Rejected(fault: Fault)     // while queueing
    | Nested                     // MULTI inside MULTI
    | WithoutMulti               // EXEC or DISCARD outside MULTI
    | WatchInMulti
    | StorageFailed
    | Aborted(fault: Fault)      // by EXEC
    | WatchedChanged             // EXEC's null reply
    | Executed

  /** What the command tables say about a frame, and the configured limits of the queue. */
  datatype Rules = Rules(parses: Frame -> bool, queueable: Frame -> bool, maxCommands: nat, maxBytes: nat)

  datatype Watched = Watched(at: DbKey, keyVersion: nat, dbVersion: nat)

  datatype Session = Session(inTransaction: bool, dirty: bool, frames: seq<Frame>, size: nat,
                             watched: seq<Watched>, view: bool)

  const NEW_SESSION := Session(false, false, [], 0, [], false)

  /** The session after an operation, what the operation did to the tracker, and the reply. */
  datatype Outcome = Outcome(session: Session, ops: seq<Op>, reply: Reply)

  function FrameSize(f: Frame): nat {
    |Printer.Encode(Resp2, f)|
  }

  function SizeOf(frames: seq<Frame>): nat {
    if frames == [] then 0 else SizeOf(frames[..|frames| - 1]) + FrameSize(frames[|frames| - 1])
  }

  lemma SizeOfNext(frames: seq<Frame>, f: Frame)
    ensures SizeOf(frames + [f]) == SizeOf(frames) + FrameSize(f)
  {
    assert (frames + [f])[..|frames|] == frames;
  }

  // What each operation does.

  function Start(s: Session, viewOk: bool): Outcome {
    if s.inTransaction then Outcome(s, [], Nested)
    else if !viewOk then Outcome(s, [], StorageFailed)
    else Outcome(Session(true, false, [], 0, s.watched, true), [], Okay)
  }

  function Enqueue(s: Session, rules: Rules, frame: Frame, authenticated: bool, permitted: bool): Outcome {
    var fault :=
      if !rules.parses(frame) then Some(BadCommand)
      else if !authenticated then Some(NotAuthenticated)
      else if !permitted then Some(NotPermitted)
      else if !rules.queueable(frame) then Some(NotAllowed)
      else if |s.frames| >= rules.maxCommands || s.size + FrameSize(frame) > rules.maxBytes then Some(QueueFull)
      else None;
    match fault
    case Some(f) => Outcome(s.(dirty := true), [], Rejected(f))
    case None => Outcome(s.(frames := s.frames + [frame], size := s.size + FrameSize(frame)), [], Queued)
  }

  function Releases(watched: seq<Watched>): (ops: seq<Op>)
    ensures |ops| == |watched|
  {
    seq(|watched|, i requires 0 <= i < |watched| => Unregister(watched[i].at))
  }

  function Unwatch(s: Session): Outcome {
    Outcome(s.(watched := []), Releases(s.watched), Okay)
  }

  function Clear(s: Session, reply: Reply): Outcome {
    Outcome(NEW_SESSION, Releases(s.watched), reply)
  }

  function Discard(s: Session): Outcome {
    if !s.inTransaction then Outcome(s, [], WithoutMulti) else Clear(s, Okay)
  }

  /** What looking at a key for expiry comes to: deleting an expired key is a change. */
  datatype Expiry = Alive | Expired | LookupFailed

  predicate IsWatched(watched: seq<Watched>, k: DbKey) {
    exists i :: 0 <= i < |watched| && watched[i].at == k
  }

  function ExpiryOps(k: DbKey, e: Expiry): seq<Op> {
    if e.Expired? then [BumpKey(k)] else []
  }

  /** WATCH of one key: registered first, so a failed lookup leaves the registration behind. */
  function WatchOne(s: Session, v: Versions, k: DbKey, e: Expiry): Outcome {
    if IsWatched(s.watched, k) then Outcome(s, [], Okay)
    else if e.LookupFailed? then Outcome(s, [Register(k)], StorageFailed)
    else
      var ops := [Register(k)] + ExpiryOps(k, e);
      var now := ApplyAll(v, ops);
      Outcome(s.(watched := s.watched + [Watched(k, KeyVersion(now, k), DbVersion(now, k.db))]), ops, Okay)
  }

  /** Keys are taken in order up to the first failure. */
  function WatchAll(s: Session, v: Versions, db: nat, keys: seq<bytes>, e: DbKey -> Expiry): Outcome {
    if keys == [] then Outcome(s, [], Okay)
    else
      var before := WatchAll(s, v, db, keys[..|keys| - 1], e);
      if before.reply != Okay then before
      else
        var k := DbKey(db, keys[|keys| - 1]);
        var one := WatchOne(before.session, ApplyAll(v, before.ops), k, e(k));
        Outcome(one.session, before.ops + one.ops, one.reply)
  }

  function Watch(s: Session, v: Versions, db: nat, keys: seq<bytes>, e: DbKey -> Expiry): Outcome {
    if s.inTransaction then Outcome(s, [], WatchInMulti) else WatchAll(s, v, db, keys, e)
  }

  datatype Verdict = Verdict(ops: seq<Op>, changed: bool, failed: bool)

  predicate Moved(v: Versions, w: Watched) {
    KeyVersion(v, w.at) != w.keyVersion || DbVersion(v, w.at.db) != w.dbVersion
  }

  /** EXEC's look at the watched keys, in order, up to the first change or failure. */
  function Inspect(v: Versions, watched: seq<Watched>, e: DbKey -> Expiry): Verdict {
    if watched == [] then Verdict([], false, false)
    else
      var before := Inspect(v, watched[..|watched| - 1], e);
      if before.changed || before.failed then before
      else
        var w := watched[|watched| - 1];
        var ops := before.ops + ExpiryOps(w.at, e(w.at));
        if e(w.at).LookupFailed? then Verdict(ops, false, true)
        else Verdict(ops, Moved(ApplyAll(v, ops), w), false)
  }

  predicate All(p: Frame -> bool, frames: seq<Frame>) {
    forall i :: 0 <= i < |frames| ==> p(frames[i])
  }

  /** EXEC; `writes` is what the committed commands change. */
  function Exec(s: Session, v: Versions, rules: Rules, permitted: Frame -> bool, e: DbKey -> Expiry,
                commitOk: bool, writes: seq<Op>): Outcome {
    if !s.inTransaction then Outcome(s, [], WithoutMulti)
    else if s.dirty then Clear(s, Aborted(PreviousErrors))
    else if !All(rules.parses, s.frames) then Clear(s, Aborted(BadCommand))
    else if !All(permitted, s.frames) then Clear(s, Aborted(NotPermitted))
    else if !s.view then Clear(s, Aborted(MissingState))
    else
      var verdict := Inspect(v, s.watched, e);
      if verdict.failed then Outcome(s, verdict.ops, StorageFailed)
      else
        var reply :=
          if verdict.changed then WatchedChanged
          else if !All(rules.queueable, s.frames) then Aborted(NotAllowed)
          else if !commitOk then Aborted(CommitFailed)
          else Executed;
        Outcome(NEW_SESSION, verdict.ops + (if reply == Executed then writes else []) + Releases(s.watched), reply)
  }

  /** The handler of one connection, over a tracker it shares with the others. */
  class Handler {
    const rules: Rules
    const tracker: KeyMutationTracker
    var inTransaction: bool
    var dirty: bool
    var frames: seq<Frame>
    var size: nat
    var watched: seq<Watched>
    var view: bool
    var committed: seq<seq<Frame>>

    ghost function State(): Session
      reads this
    {
      Session(inTransaction, dirty, frames, size, watched, view)
    }

    constructor (rules: Rules, tracker: KeyMutationTracker)
      ensures this.rules == rules && this.tracker == tracker
      ensures State() == NEW_SESSION && committed == []
    {
      this.rules, this.tracker := rules, tracker;
      inTransaction, dirty, frames, size, watched, view, committed := false, false, [], 0, [], false, [];
    }

    method StartTransaction(viewOk: bool) returns (reply: Reply)
      modifies this
      ensures State() == Start(old(State()), viewOk).session && reply == Start(old(State()), viewOk).reply
      ensures committed == old(committed)
    {
      if inTransaction {
        return Nested;
      }
      if !viewOk {
        return StorageFailed;
      }
      inTransaction, dirty, frames, size := true, false, [], 0;
      view := true;
      return Okay;
    }

    method TryAddFrame(frame: Frame) returns (ok: bool)
      modifies this`frames, this`size
      ensures ok == (|old(frames)| < rules.maxCommands && old(size) + FrameSize(frame) <= rules.maxBytes)
      ensures frames == (if ok then old(frames) + [frame] else old(frames))
      ensures size == (if ok then old(size) + FrameSize(frame) else old(size))
    {
      var added := |Printer.Encode(Resp2, frame)|;
      if |frames| >= rules.maxCommands || size + added > rules.maxBytes {
        return false;
      }
      size := size + added;
      frames := frames + [frame];
      return true;
    }

    method QueueFrame(frame: Frame, authenticated: bool, permitted: bool) returns (reply: Reply)
      modifies this
      ensures State() == Enqueue(old(State()), rules, frame, authenticated, permitted).session
      ensures reply == Enqueue(old(State()), rules, frame, authenticated, permitted).reply
      ensures committed == old(committed)
    {
      hide FrameSize;
      if rules.parses(frame) {
        if !authenticated {
          dirty, reply := true, Rejected(NotAuthenticated);
        } else if !permitted {
          dirty, reply := true, Rejected(NotPermitted);
        } else if rules.queueable(frame) {
          var ok := TryAddFrame(frame);
          if ok {
            reply := Queued;
          } else {
            dirty, reply := true, Rejected(QueueFull);
          }
        } else {
          dirty, reply := true, Rejected(NotAllowed);
        }
      } else {
        dirty, reply := true, Rejected(BadCommand);
      }
    }

    method ClearWatches()
      requires tracker.Valid()
      modifies this`watched, tracker
      ensures tracker.Valid() && watched == []
      ensures tracker.trace == old(tracker.trace) + Releases(old(watched))
    {
      hide ApplyAll;
      var taken := watched;
      watched := [];
      for i := 0 to |taken|
        invariant tracker.Valid() && watched == []
        invariant tracker.trace == old(tracker.trace) + Releases(taken[..i])
      {
        tracker.UnregisterKey(taken[i].at);
        assert Releases(taken[..i + 1]) == Releases(taken[..i]) + [Unregister(taken[i].at)];
      }
      assert taken[..|taken|] == taken;
    }

    method ClearTransaction()
      requires tracker.Valid()
      modifies this, tracker
      ensures tracker.Valid() && committed == old(committed)
      ensures State() == NEW_SESSION
      ensures tracker.trace == old(tracker.trace) + Releases(old(watched))
    {
      inTransaction, dirty, frames, size := false, false, [], 0;
      ClearWatches();
      view := false;
    }

    method DiscardTransaction() returns (reply: Reply)
      requires tracker.Valid()
      modifies this, tracker
      ensures
        var outcome := Discard(old(State()));
        && State() == outcome.session && reply == outcome.reply
        && tracker.trace == old(tracker.trace) + outcome.ops
      ensures tracker.Valid() && committed == old(committed)
    {
      if !inTransaction {
        return WithoutMulti;
      }
      ClearTransaction();
      return Okay;
    }

    method WatchKeys(db: nat, keys: seq<bytes>, e: DbKey -> Expiry) returns (reply: Reply)
      requires tracker.Valid()
      modifies this, tracker
      ensures
        var outcome := Watch(old(State()), old(tracker.Now()), db, keys, e);
        && State() == outcome.session && reply == outcome.reply
        && tracker.trace == old(tracker.trace) + outcome.ops
      ensures tracker.Valid() && committed == old(committed)
    {
      hide ApplyAll;
      hide WatchAll;
      hide WatchOne;
      if inTransaction {
        return WatchInMulti;
      }
      WatchNone(State(), tracker.Now(), db, e);
      ghost var so := Outcome(State(), [], Okay);
      for i := 0 to |keys|
        invariant tracker.Valid() && committed == old(committed)
        invariant so == WatchAll(old(State()), old(tracker.Now()), db, keys[..i], e) && so.reply == Okay
        invariant State() == so.session && tracker.trace == old(tracker.trace) + so.ops
      {
        WatchNext(old(State()), old(tracker.Now()), db, keys, i, e);
        ApplySplit(UNTRACKED, old(tracker.trace), so.ops);
        var k := DbKey(db, keys[i]);
        var ok := WatchKey(k, e(k));
        so := WatchAll(old(State()), old(tracker.Now()), db, keys[..i + 1], e);
        if !ok {
          WatchStops(old(State()), old(tracker.Now()), db, keys, i + 1, e);
          return StorageFailed;
        }
      }
      assert keys[..|keys|] == keys;
      return Okay;
    }

    /** One turn of WATCH's loop. */
    method WatchKey(k: DbKey, e: Expiry) returns (ok: bool)
      requires tracker.Valid()
      modifies this`watched, tracker
      ensures
        var outcome := WatchOne(old(State()), old(tracker.Now()), k, e);
        && State() == outcome.session && ok == (outcome.reply == Okay) && (!ok ==> outcome.reply == StorageFailed)
        && tracker.trace == old(tracker.trace) + outcome.ops
      ensures tracker.Valid()
    {
      hide ApplyAll;
      if exists i :: 0 <= i < |watched| && watched[i].at == k {
        return true;
      }
      tracker.RegisterKey(k);
      if e.LookupFailed? {
        return false;
      }
      if e.Expired? {
        tracker.Bump(k);
      }
      assert tracker.trace == old(tracker.trace) + ([Register(k)] + ExpiryOps(k, e));
      ApplySplit(UNTRACKED, old(tracker.trace), [Register(k)] + ExpiryOps(k, e));
      var keyVersion := if k in tracker.keyVersions then tracker.keyVersions[k].version else 0;
      var dbVersion := if k.db in tracker.dbVersions then tracker.dbVersions[k.db] else 0;
      watched := watched + [Watched(k, keyVersion, dbVersion)];
      return true;
    }

    /** Has any watched key changed? None when a lookup fails first. */
    method WatchedKeysModified(e: DbKey -> Expiry) returns (modified: Option<bool>)
      requires tracker.Valid()
      modifies tracker
      ensures
        var verdict := Inspect(old(tracker.Now()), watched, e);
        && modified == (if verdict.failed then None else Some(verdict.changed))
        && tracker.trace == old(tracker.trace) + verdict.ops
      ensures tracker.Valid()
    {
      hide ApplyAll;
      hide Inspect;
      InspectNone(tracker.Now(), e);
      ghost var verdict := Verdict([], false, false);
      for i := 0 to |watched|
        invariant tracker.Valid()
        invariant verdict == Inspect(old(tracker.Now()), watched[..i], e) && !verdict.changed && !verdict.failed
        invariant tracker.trace == old(tracker.trace) + verdict.ops
      {
        InspectNext(old(tracker.Now()), watched, i, e);
        var w := watched[i];
        if e(w.at).LookupFailed? {
          InspectStops(old(tracker.Now()), watched, i + 1, e);
          return None;
        }
        if e(w.at).Expired? {
          tracker.Bump(w.at);
        }
        verdict := Inspect(old(tracker.Now()), watched[..i + 1], e);
        assert tracker.trace == old(tracker.trace) + verdict.ops;
        ApplySplit(UNTRACKED, old(tracker.trace), verdict.ops);
        if tracker.Changed(w.at, w.keyVersion, w.dbVersion) {
          InspectStops(old(tracker.Now()), watched, i + 1, e);
          return Some(true);
        }
      }
      assert watched[..|watched|] == watched;
      return Some(false);
    }

    /** The changes of a committed transaction reach the tracker. */
    method ApplyWrites(writes: seq<Op>)
      requires tracker.Valid() && OnlyBumps(writes)
      modifies tracker
      ensures tracker.Valid() && tracker.trace == old(tracker.trace) + writes
    {
      hide ApplyAll;
      for i := 0 to |writes|
        invariant tracker.Valid() && tracker.trace == old(tracker.trace) + writes[..i]
      {
        match writes[i] {
          case BumpKey(k) => tracker.Bump(k);
          case BumpDb(db) => tracker.BumpDatabase(db);
        }
        assert writes[..i + 1] == writes[..i] + [writes[i]];
      }
      assert writes[..|writes|] == writes;
    }

    /** Runs the queued commands in order on the view and commits them together, unless one of them
        may not run in a transaction or the commit fails. */
    method RunCommands(commitOk: bool, writes: seq<Op>) returns (fault: Option<Fault>)
      requires tracker.Valid() && OnlyBumps(writes)
      modifies this`committed, tracker
      ensures fault == if !All(rules.queueable, frames) then Some(NotAllowed)
                       else if !commitOk then Some(CommitFailed) else None
      ensures committed == if fault.None? then old(committed) + [frames] else old(committed)
      ensures tracker.Valid()
      ensures tracker.trace == old(tracker.trace) + if fault.None? then writes else []
    {
      var executed := [];
      for i := 0 to |frames|
        invariant executed == frames[..i] && forall j :: 0 <= j < i ==> rules.queueable(frames[j])
      {
        if !rules.queueable(frames[i]) {
          return Some(NotAllowed);
        }
        executed := executed + [frames[i]];
      }
      if !commitOk {
        return Some(CommitFailed);
      }
      assert executed == frames;
      committed := committed + [executed];
      ApplyWrites(writes);
      return None;
    }

    /** What EXEC objects to before it looks at the watched keys. */
    method FirstObjection(permitted: Frame -> bool) returns (fault: Option<Fault>)
      ensures fault == if dirty then Some(PreviousErrors)
                       else if !All(rules.parses, frames) then Some(BadCommand)
                       else if !All(permitted, frames) then Some(NotPermitted)
                       else if !view then Some(MissingState) else None
    {
      if dirty {
        return Some(PreviousErrors);
      }
      for i := 0 to |frames|
        invariant forall j :: 0 <= j < i ==> rules.parses(frames[j])
      {
        if !rules.parses(frames[i]) {
          return Some(BadCommand);
        }
      }
      if exists i :: 0 <= i < |frames| && !permitted(frames[i]) {
        return Some(NotPermitted);
      }
      return if view then None else Some(MissingState);
    }

    method Execute(permitted: Frame -> bool, e: DbKey -> Expiry, commitOk: bool, writes: seq<Op>) returns (reply: Reply)
      requires tracker.Valid() && OnlyBumps(writes)
      modifies this, tracker
      ensures
        var outcome := Exec(old(State()), old(tracker.Now()), rules, permitted, e, commitOk, writes);
        && State() == outcome.session && reply == outcome.reply
        && tracker.trace == old(tracker.trace) + outcome.ops
      ensures tracker.Valid()
      ensures committed == if reply == Executed then old(committed) + [old(frames)] else old(committed)
    {
      hide ApplyAll;
      hide Inspect;
      hide All;
      hide Releases;
      ghost var trace, releases := tracker.trace, Releases(watched);
      ghost var looked := Inspect(tracker.Now(), watched, e).ops;
      if !inTransaction {
        return WithoutMulti;
      }
      var refusal := FirstObjection(permitted);
      if refusal.Some? {
        ClearTransaction();
        return Aborted(refusal.value);
      }
      var modified := WatchedKeysModified(e);
      if modified.None? {
        return StorageFailed;
      }
      Assoc(trace, looked, releases);
      assert looked + [] == looked;
      if modified.value {
        ClearTransaction();
        return WatchedChanged;
      }
      var fault := RunCommands(commitOk, writes);
      Assoc(trace, looked, writes);
      Assoc(trace, looked + writes, releases);
      ClearTransaction();
      return if fault.Some? then Aborted(fault.value) else Executed;
    }
  }

  predicate OnlyBumps(writes: seq<Op>) {
    forall i :: 0 <= i < |writes| ==> writes[i].BumpKey? || writes[i].BumpDb?
  }

  // The loops' specifications, one turn at a time.

  lemma WatchNone(s: Session, v: Versions, db: nat, e: DbKey -> Expiry)
    ensures WatchAll(s, v, db, [], e) == Outcome(s, [], Okay)
  {
  }

  lemma WatchNext(s: Session, v: Versions, db: nat, keys: seq<bytes>, i: nat, e: DbKey -> Expiry)
    requires i < |keys| && WatchAll(s, v, db, keys[..i], e).reply == Okay
    ensures
      var before := WatchAll(s, v, db, keys[..i], e);
      var k := DbKey(db, keys[i]);
      var one := WatchOne(before.session, ApplyAll(v, before.ops), k, e(k));
      WatchAll(s, v, db, keys[..i + 1], e) == Outcome(one.session, before.ops + one.ops, one.reply)
  {
    assert keys[..i + 1][..i] == keys[..i];
  }

  lemma {:induction false} WatchStops(s: Session, v: Versions, db: nat, keys: seq<bytes>, i: nat, e: DbKey -> Expiry)
    requires i <= |keys| && WatchAll(s, v, db, keys[..i], e).reply != Okay
    ensures WatchAll(s, v, db, keys, e) == WatchAll(s, v, db, keys[..i], e)
    decreases |keys| - i
  {
    if i < |keys| {
      assert keys[..i + 1][..i] == keys[..i];
      WatchStops(s, v, db, keys, i + 1, e);
    } else {
      assert keys[..i] == keys;
    }
  }

  lemma InspectNone(v: Versions, e: DbKey -> Expiry)
    ensures Inspect(v, [], e) == Verdict([], false, false)
  {
  }

  lemma InspectNext(v: Versions, watched: seq<Watched>, i: nat, e: DbKey -> Expiry)
    requires i < |watched| && !Inspect(v, watched[..i], e).changed && !Inspect(v, watched[..i], e).failed
    ensures
      var ops := Inspect(v, watched[..i], e).ops + ExpiryOps(watched[i].at, e(watched[i].at));
      Inspect(v, watched[..i + 1], e) ==
        if e(watched[i].at).LookupFailed? then Verdict(ops, false, true)
        else Verdict(ops, Moved(ApplyAll(v, ops), watched[i]), false)
  {
    assert watched[..i + 1][..i] == watched[..i];
  }

  lemma {:induction false} InspectStops(v: Versions, watched: seq<Watched>, i: nat, e: DbKey -> Expiry)
    requires i <= |watched| && (Inspect(v, watched[..i], e).changed || Inspect(v, watched[..i], e).failed)
    ensures Inspect(v, watched, e) == Inspect(v, watched[..i], e)
    decreases |watched| - i
  {
    if i < |watched| {
      assert watched[..i + 1][..i] == watched[..i];
      InspectStops(v, watched, i + 1, e);
    } else {
      assert watched[..i] == watched;
    }
  }
}
