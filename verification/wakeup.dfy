/** The flag-and-notify protocol behind kill, close and unblock, as interleaved small steps.

    A setter takes the lock, sets the flag if it may, releases the lock and then notifies. A waiter
    creates and enables a notification, takes the lock to look at the flag, and parks if it is unset.
    Kill and close are armed from the start and never clear the flag; unblock arms and clears it when
    its guard begins and disarms and clears it when the guard ends. Only what the notification
    primitive promises is used: a notification reaches every waiter enabled before it. */
module Wakeup {
  import opened Bytes

  /** What the setter asks for: how a blocked client is to be woken. Kill and close have one mode. */
  datatype Mode = Timeout | Error

  datatype Waiter =
    | Starting
    | Created
    | Enabled(notified: bool)
    | Parked(notified: bool)
    | Returned(mode: Mode)

  datatype Setter = Idle | MustNotify(mode: Mode) | Notified(mode: Mode) | Refused

  /** `setBy` names the setter that set the flag now in force. */
  datatype State = State(armed: bool, flag: Option<Mode>, setBy: nat,
                         waiters: map<nat, Waiter>, setters: map<nat, Setter>)

  datatype Step =
    | Arm                             // a blocking guard begins
    | Disarm                          // the guard is dropped
    | TrySet(id: nat, mode: Mode)     // under the lock: set the flag, or be refused
    | Notify(id: nat)                 // after the lock: wake every enabled waiter
    | ReturnEarly(id: nat)            // a look at the flag before anything is created
    | Create(id: nat)
    | Enable(id: nat)
    | Check(id: nat)                  // under the lock: return, or park
    | Wake(id: nat)                   // a parked waiter that was notified starts over

  function WakeUp(w: Waiter): Waiter {
    match w
    case Enabled(_) => Enabled(true)
    case Parked(_) => Parked(true)
    case _ => w
  }

  predicate WaiterIs(s: State, id: nat, w: Waiter) {
    id in s.waiters && s.waiters[id] == w
  }

  /** The setter set the flag, with this mode. */
  predicate Won(s: State, id: nat, mode: Mode) {
    id in s.setters && (s.setters[id] == MustNotify(mode) || s.setters[id] == Notified(mode))
  }

  /** May this step be taken here? */
  predicate Possible(s: State, step: Step) {
    match step
    case Arm => true
    case Disarm => true
    case TrySet(id, _) => id in s.setters && s.setters[id] == Idle
    case Notify(id) => id in s.setters && s.setters[id].MustNotify?
    case ReturnEarly(id) => WaiterIs(s, id, Starting) && s.flag.Some?
    case Create(id) => WaiterIs(s, id, Starting)
    case Enable(id) => WaiterIs(s, id, Created)
    case Check(id) => id in s.waiters && s.waiters[id].Enabled?
    case Wake(id) => WaiterIs(s, id, Parked(true))
  }

  function Moved(s: State, id: nat, w: Waiter): State {
    s.(waiters := s.waiters[id := w])
  }

  function Next(s: State, step: Step): State
    requires Possible(s, step)
  {
    match step
    case Arm => s.(armed := true, flag := None)
    case Disarm => s.(armed := false, flag := None)
    case TrySet(id, mode) =>
      if s.flag.Some? || !s.armed then s.(setters := s.setters[id := Refused])
      else s.(flag := Some(mode), setBy := id, setters := s.setters[id := MustNotify(mode)])
    case Notify(id) =>
      s.(setters := s.setters[id := Notified(s.setters[id].mode)],
         waiters := map w | w in s.waiters :: WakeUp(s.waiters[w]))
    case ReturnEarly(id) => Moved(s, id, Returned(s.flag.value))
    case Create(id) => Moved(s, id, Created)
    case Enable(id) => Moved(s, id, Enabled(false))
    case Check(id) =>
      Moved(s, id, if s.flag.Some? then Returned(s.flag.value) else Parked(s.waiters[id].notified))
    case Wake(id) => Moved(s, id, Starting)
  }

  /** Any number of waiters and setters, none of which has begun. */
  ghost predicate Initial(s: State) {
    && s.flag.None?
    && (forall w :: w in s.waiters ==> s.waiters[w] == Starting)
    && (forall t :: t in s.setters ==> s.setters[t] == Idle)
  }

  /** Any interleaving, step by step. */
  ghost predicate Stretch(states: seq<State>, steps: seq<Step>) {
    && |states| == |steps| + 1
    && forall i :: 0 <= i < |steps| ==> Possible(states[i], steps[i]) && states[i + 1] == Next(states[i], steps[i])
  }

  ghost predicate Run(states: seq<State>, steps: seq<Step>) {
    Stretch(states, steps) && Initial(states[0])
  }

  /** While the flag is set, a waiter parked without a notification still has one coming; and a
      waiter returns only what some setter set. */
  ghost predicate Safe(s: State) {
    && (s.flag.Some? ==> Won(s, s.setBy, s.flag.value))
    && (forall w :: w in s.waiters && s.waiters[w] == Parked(false) && s.flag.Some? ==> s.setters[s.setBy].MustNotify?)
    && (forall w :: w in s.waiters && s.waiters[w].Returned? ==> exists t :: Won(s, t, s.waiters[w].mode))
  }

  lemma WinnersStay(s: State, step: Step)
    requires Possible(s, step)
    ensures forall t, m :: Won(s, t, m) ==> Won(Next(s, step), t, m)
  {
  }

  lemma StepKeepsSafe(s: State, step: Step)
    requires Safe(s) && Possible(s, step)
    ensures Safe(Next(s, step))
  {
    WinnersStay(s, step);
    var n := Next(s, step);
    forall w | w in n.waiters && n.waiters[w].Returned?
      ensures exists t :: Won(n, t, n.waiters[w].mode)
    {
      if s.waiters[w].Returned? {
        var t :| Won(s, t, s.waiters[w].mode);
        assert Won(n, t, n.waiters[w].mode);
      } else {
        assert Won(n, s.setBy, n.waiters[w].mode);
      }
    }
  }

  lemma {:induction false} RunIsSafe(states: seq<State>, steps: seq<Step>, n: nat)
    requires Run(states, steps) && n <= |steps|
    ensures Safe(states[n])
    decreases n
  {
    if n > 0 {
      RunIsSafe(states, steps, n - 1);
      StepKeepsSafe(states[n - 1], steps[n - 1]);
    }
  }

  /** The flag is set and the setter that set it is done. */
  ghost predicate Settled(s: State) {
    s.flag.Some? && s.setBy in s.setters && s.setters[s.setBy].Notified?
  }

  /** No wakeup is lost: in every interleaving, once the flag is set and its setter has notified,
      no waiter is parked without a notification. */
  lemma NoLostWakeup(states: seq<State>, steps: seq<Step>, n: nat, w: nat)
    requires Run(states, steps) && n <= |steps| && Settled(states[n])
    ensures !WaiterIs(states[n], w, Parked(false))
  {
    RunIsSafe(states, steps, n);
  }

  /** No waiter returns out of thin air: what it returns was set by a setter that won. */
  lemma NoSpuriousReturn(states: seq<State>, steps: seq<Step>, n: nat, w: nat)
    requires Run(states, steps) && n <= |steps| && w in states[n].waiters && states[n].waiters[w].Returned?
    ensures exists t :: Won(states[n], t, states[n].waiters[w].mode)
  {
    RunIsSafe(states, steps, n);
  }

  predicate Clears(step: Step) {
    step.Arm? || step.Disarm?
  }

  /** Kill and close: where nothing clears the flag, one setter at most ever wins, the flag stays
      set, and so exactly that setter notifies. */
  lemma {:induction false} OneWinner(states: seq<State>, steps: seq<Step>, n: nat, t: nat, mode: Mode)
    requires Run(states, steps) && n <= |steps|
    requires forall i :: 0 <= i < n ==> !Clears(steps[i])
    ensures Won(states[n], t, mode) ==> states[n].flag == Some(mode) && t == states[n].setBy
    decreases n
  {
    if n > 0 {
      OneWinner(states, steps, n - 1, t, mode);
      assert states[n - 1 + 1] == Next(states[n - 1], steps[n - 1]);
    }
  }

  // What is set, who wins and who is notified, from the steps alone.

  /** A guard is alive: the last of arming and disarming was arming, or there was none and the flag was
      armed from the start. */
  ghost predicate Armed(initially: bool, steps: seq<Step>) {
    if steps == [] then initially
    else
      var last := steps[|steps| - 1];
      last.Arm? || (!last.Disarm? && Armed(initially, steps[..|steps| - 1]))
  }

  /** Some setter tried since the flag was last cleared. */
  ghost predicate Tried(steps: seq<Step>) {
    steps != [] &&
    var last := steps[|steps| - 1];
    !Clears(last) && (last.TrySet? || Tried(steps[..|steps| - 1]))
  }

  /** Somebody notified since the waiter was last enabled. */
  ghost predicate NotifiedSince(steps: seq<Step>, w: nat) {
    steps != [] &&
    var last := steps[|steps| - 1];
    last != Enable(w) && (last.Notify? || NotifiedSince(steps[..|steps| - 1], w))
  }

  /** State after `n` steps: the flag is set exactly while a guard is alive and somebody tried, and an
      enabled or parked waiter is notified exactly if somebody notified since. */
  lemma {:induction false} StateIsHistory(states: seq<State>, steps: seq<Step>, n: nat, w: nat)
    requires Run(states, steps) && n <= |steps|
    ensures states[n].armed == Armed(states[0].armed, steps[..n])
    ensures Tried(steps[..n]) && states[n].armed <==> states[n].flag.Some?
    ensures w in states[n].waiters && (states[n].waiters[w].Enabled? || states[n].waiters[w].Parked?) ==>
              states[n].waiters[w].notified == NotifiedSince(steps[..n], w)
    decreases n
  {
    if n > 0 {
      StateIsHistory(states, steps, n - 1, w);
      assert steps[..n][..n - 1] == steps[..n - 1];
      assert states[n - 1 + 1] == Next(states[n - 1], steps[n - 1]);
    }
  }

  /** A setter wins if and only if a guard is alive and it is the first to try since the flag was cleared;
      otherwise it is refused. A waiter that looks returns if and only if somebody has won since, and
      parks otherwise. */
  lemma FirstTryWins(states: seq<State>, steps: seq<Step>, n: nat)
    requires Run(states, steps) && n < |steps|
    ensures match steps[n]
            case TrySet(id, mode) =>
              states[n + 1].setters[id] ==
              if Armed(states[0].armed, steps[..n]) && !Tried(steps[..n]) then MustNotify(mode) else Refused
            case Check(id) =>
              states[n + 1].waiters[id].Returned? <==> Armed(states[0].armed, steps[..n]) && Tried(steps[..n])
            case _ => true
  {
    StateIsHistory(states, steps, n, 0);
    assert states[n + 1] == Next(states[n], steps[n]);
  }

  // From a settled state every waiter returns after a few steps of its own.

  predicate Moves(step: Step, w: nat) {
    match step
    case ReturnEarly(id) => id == w
    case Create(id) => id == w
    case Enable(id) => id == w
    case Check(id) => id == w
    case Wake(id) => id == w
    case _ => false
  }

  /** Own steps left, at most. */
  function Rank(w: Waiter): nat {
    match w
    case Returned(_) => 0
    case Enabled(_) => 1
    case Created => 2
    case Starting => 3
    case Parked(_) => 4
  }

  /** While the guard is alive a settled state stays settled; a waiter's own moves bring it closer
      to returning, and nobody else's move sets it back. */
  lemma SettledMakesProgress(s: State, step: Step, w: nat)
    requires Safe(s) && Settled(s) && Possible(s, step) && !Clears(step) && w in s.waiters
    ensures Settled(Next(s, step)) && w in Next(s, step).waiters
    ensures Moves(step, w) ==> Rank(Next(s, step).waiters[w]) < Rank(s.waiters[w])
    ensures !Moves(step, w) ==> Rank(Next(s, step).waiters[w]) == Rank(s.waiters[w])
  {
    StepKeepsSafe(s, step);
  }

  /** A waiter that has not returned is never stuck in a settled state. */
  lemma SettledIsNotStuck(s: State, w: nat) returns (step: Step)
    requires Safe(s) && Settled(s) && w in s.waiters && !s.waiters[w].Returned?
    ensures Possible(s, step) && Moves(step, w) && !Clears(step)
  {
    match s.waiters[w] {
      case Starting => step := Create(w);
      case Created => step := Enable(w);
      case Enabled(_) => step := Check(w);
      case Parked(_) => step := Wake(w);
    }
  }

  /** Number of a waiter's own moves in a stretch of a run. */
  ghost function OwnMoves(steps: seq<Step>, w: nat): nat {
    if steps == [] then 0 else (if Moves(steps[0], w) then 1 else 0) + OwnMoves(steps[1..], w)
  }

  lemma TailIsStretch(states: seq<State>, steps: seq<Step>)
    requires Stretch(states, steps) && steps != []
    ensures Stretch(states[1..], steps[1..])
  {
    forall i | 0 <= i < |steps| - 1
      ensures Possible(states[1..][i], steps[1..][i])
      ensures states[1..][i + 1] == Next(states[1..][i], steps[1..][i])
    {
      assert states[i + 1 + 1] == Next(states[i + 1], steps[i + 1]);
    }
  }

  /** Four own moves after settling are enough, however the others are scheduled. */
  lemma {:induction false} FourMovesSuffice(states: seq<State>, steps: seq<Step>, w: nat)
    requires Stretch(states, steps) && (forall step :: step in steps ==> !Clears(step))
    requires Safe(states[0]) && Settled(states[0]) && w in states[0].waiters
    ensures w in states[|steps|].waiters
    ensures Rank(states[|steps|].waiters[w]) + OwnMoves(steps, w) <= Rank(states[0].waiters[w])
    ensures OwnMoves(steps, w) >= 4 ==> states[|steps|].waiters[w].Returned?
    decreases |steps|
  {
    if steps != [] {
      assert states[0 + 1] == Next(states[0], steps[0]);
      SettledMakesProgress(states[0], steps[0], w);
      StepKeepsSafe(states[0], steps[0]);
      TailIsStretch(states, steps);
      FourMovesSuffice(states[1..], steps[1..], w);
    }
  }
}
