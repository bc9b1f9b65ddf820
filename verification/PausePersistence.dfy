/**
 Pausing the broker (crates/fsw-broker/src/main.rs): the toggle takes effect in memory at once, the
 write to the registry is queued for one background thread, and a state-changed broadcast makes the
 window thread re-read the registry unless a write of its own is in flight.

 Every step below is one atomic action of one thread, so any order of enabled steps is an
 interleaving of the window thread, the persist worker and writers in other processes.
 */
module PausePersistence {

  /** Where the window thread is: set_paused and reload_settings both run on it. */
  datatype Window =
    | Idle
    | Toggled(value: bool)      // PAUSED stored, PERSIST_IN_FLIGHT not yet raised
    | Counted(value: bool)      // raised, not yet sent
    | Reading                   // reload_settings saw no write in flight
    | Applying(value: bool)     // it has read the stored flag

  /** Where the persist worker is with the write it took from the queue. */
  datatype Worker =
    | Waiting
    | Writing(value: bool)
    | Announcing(value: bool)   // stored, broadcast not yet posted
    | Finishing(value: bool)    // PERSIST_IN_FLIGHT not yet lowered

  datatype State = State(
    paused: bool,
    stored: bool,
    inFlight: int,
    queue: seq<bool>,
    window: Window,
    worker: Worker,
    broadcasts: nat,            // state-changed messages not yet handled
    announcing: nat,            // other processes that stored a value and have not yet broadcast
    last: bool,                 // the value of the last toggle, at first the stored one
    looked: bool,               // a reload has begun to read since that toggle
    lost: bool,                 // that toggle's write failed, or was overtaken by another process's
    wanted: bool,               // the latest decision: a toggle here, or another process's write
    byToggle: bool)             // whether that decision was a toggle

  datatype Step =
    | Toggle(value: bool)
    | Count
    | Submit
    | SubmitFails
    | Take
    | Write
    | WriteFails
    | Announce
    | Finish
    | BeginReload
    | ReadStored
    | Apply
    | OutsideWrite(value: bool)
    | OutsideAnnounce

  predicate Enabled(s: State, step: Step) {
    match step
    case Toggle(_) => s.window.Idle?
    case Count => s.window.Toggled?
    case Submit => s.window.Counted?
    case SubmitFails => s.window.Counted?
    case Take => s.worker.Waiting? && s.queue != []
    case Write => s.worker.Writing?
    case WriteFails => s.worker.Writing?
    case Announce => s.worker.Announcing?
    case Finish => s.worker.Finishing?
    case BeginReload => s.window.Idle? && s.broadcasts > 0
    case ReadStored => s.window.Reading?
    case Apply => s.window.Applying?
    case OutsideWrite(_) => true
    case OutsideAnnounce => s.announcing > 0
  }

  /** The write of the last toggle is still to come, if it was submitted at all. */
  predicate WriteAhead(s: State) {
    s.window.Toggled? || s.window.Counted? || s.queue != [] || s.worker.Writing?
  }

  /** The write the worker holds is the last one submitted. */
  predicate HoldsLast(s: State) {
    s.queue == [] && !s.window.Toggled? && !s.window.Counted?
  }

  function Next(s: State, step: Step): State
    requires Enabled(s, step)
  {
    match step
    case Toggle(value) =>
      s.(paused := value, window := Toggled(value),
         last := value, looked := false, lost := false, wanted := value, byToggle := true)
    case Count => s.(inFlight := s.inFlight + 1, window := Counted(s.window.value))
    case Submit => s.(queue := s.queue + [s.window.value], window := Idle)
    case SubmitFails => s.(inFlight := s.inFlight - 1, window := Idle, lost := true)
    case Take => s.(queue := s.queue[1..], worker := Writing(s.queue[0]))
    case Write => s.(stored := s.worker.value, worker := Announcing(s.worker.value))
    case WriteFails => s.(worker := Finishing(s.worker.value), lost := s.lost || HoldsLast(s))
    case Announce => s.(broadcasts := s.broadcasts + 1, worker := Finishing(s.worker.value))
    case Finish => s.(inFlight := s.inFlight - 1, worker := Waiting)
    case BeginReload =>
      if s.inFlight != 0 then s.(broadcasts := s.broadcasts - 1)
      else s.(broadcasts := s.broadcasts - 1, window := Reading, looked := true)
    case ReadStored => s.(window := Applying(s.stored))
    case Apply => s.(paused := s.window.value, window := Idle)
    case OutsideWrite(value) =>
      // A toggle already under way is the later decision: its own write is still to come.
      var decides := !s.window.Toggled?;
      s.(stored := value, announcing := s.announcing + 1, lost := s.lost || !WriteAhead(s),
         wanted := if decides then value else s.wanted,
         byToggle := if decides then false else s.byToggle)
    case OutsideAnnounce => s.(announcing := s.announcing - 1, broadcasts := s.broadcasts + 1)
  }

  /** The broker starts with the stored flag in memory and nothing running. */
  predicate Initial(s: State) {
    s == State(s.stored, s.stored, 0, [], Idle, Waiting, 0, 0, s.stored, true, false, s.stored, false)
  }

  /** Submissions that have raised the counter and not lowered it. */
  function Unfinished(s: State): nat {
    |s.queue| + (if s.worker.Waiting? then 0 else 1) + (if s.window.Counted? then 1 else 0)
  }

  /** A write of this broker is somewhere between its toggle and its end. */
  predicate Busy(s: State) {
    Unfinished(s) > 0 || s.window.Toggled?
  }

  /** The value the last unfinished submission will store. */
  function LastSubmission(s: State): bool
    requires Busy(s)
  {
    if s.window.Toggled? || s.window.Counted? then s.window.value
    else if s.queue != [] then s.queue[|s.queue| - 1]
    else s.worker.value
  }

  predicate IsRun(states: seq<State>, steps: seq<Step>) {
    && |states| == |steps| + 1
    && Initial(states[0])
    && forall i {:trigger steps[i]} :: 0 <= i < |steps| ==>
         Enabled(states[i], steps[i]) && states[i + 1] == Next(states[i], steps[i])
  }

  lemma StepKeepsCount(s: State, step: Step)
    requires Enabled(s, step) && s.inFlight == Unfinished(s)
    ensures Next(s, step).inFlight == Unfinished(Next(s, step))
  {
    match step
    case Submit => assert Next(s, step).queue == s.queue + [s.window.value];
    case Take => assert Next(s, step).queue == s.queue[1..];
    case _ => assert Next(s, step).queue == s.queue;
  }

  /** The counter is exact in every run, whatever fails and whoever else writes: it never underflows. */
  lemma {:induction false} CounterExact(states: seq<State>, steps: seq<Step>, n: nat)
    requires IsRun(states, steps) && n < |states|
    ensures states[n].inFlight == Unfinished(states[n]) >= 0
  {
    if n > 0 {
      CounterExact(states, steps, n - 1);
      StepKeepsCount(states[n - 1], steps[n - 1]);
    }
  }

  /** Somebody's change has not been looked at yet. */
  predicate NewsPending(s: State) {
    s.broadcasts + s.announcing > 0
  }

  /** Nothing in flight, nothing to be looked at, the window thread between messages. */
  predicate AtRest(s: State) {
    s.inFlight == 0 && s.window.Idle? && !NewsPending(s)
  }

  /** What the guard of a reload buys: one looks only at rest, and then sees the registry or more news. */
  predicate LooksWhenQuiet(s: State) {
    && (s.window.Reading? || s.window.Applying? ==> s.looked)
    && (s.looked ==> !Busy(s))
    && (!s.looked ==> s.paused == s.last)
    && (s.looked ==>
          NewsPending(s) || s.window.Reading? || (if s.window.Applying? then s.window.value else s.paused) == s.stored)
  }

  /** A toggle that is not lost is on its way to the registry or stands there. */
  predicate CarriesLast(s: State) {
    && (!s.lost ==> if WriteAhead(s) then LastSubmission(s) == s.last else s.stored == s.last)
    && (s.window.Applying? && !s.lost ==> s.window.value == s.last)
  }

  /** What every run keeps, whatever fails and whoever else writes. */
  predicate Always(s: State) {
    s.inFlight == Unfinished(s) && LooksWhenQuiet(s) && CarriesLast(s)
  }

  lemma StepLooksWhenQuiet(s: State, step: Step)
    requires Always(s) && Enabled(s, step)
    ensures LooksWhenQuiet(Next(s, step))
  {
  }

  lemma StepCarriesLast(s: State, step: Step)
    requires Always(s) && Enabled(s, step)
    ensures CarriesLast(Next(s, step))
  {
  }

  lemma StepKeepsAlways(s: State, step: Step)
    requires Always(s) && Enabled(s, step)
    ensures Always(Next(s, step))
  {
    StepKeepsCount(s, step);
    StepLooksWhenQuiet(s, step);
    StepCarriesLast(s, step);
  }

  lemma {:induction false} EveryRunKeepsAlways(states: seq<State>, steps: seq<Step>, n: nat)
    requires IsRun(states, steps) && n < |states|
    ensures Always(states[n])
  {
    if n > 0 {
      EveryRunKeepsAlways(states, steps, n - 1);
      StepKeepsAlways(states[n - 1], steps[n - 1]);
    }
  }

  /**
   Where memory stands whenever a run, any run, comes to rest: at the registry if a reload has looked
   since the last toggle, else at that toggle. So the two agree exactly when a reload has looked or the
   registry holds the toggled value, which it does unless the toggle's write was lost.
   */
  lemma RestIsExact(states: seq<State>, steps: seq<Step>, n: nat)
    requires IsRun(states, steps) && n < |states| && AtRest(states[n])
    ensures states[n].paused == if states[n].looked then states[n].stored else states[n].last
    ensures states[n].paused == states[n].stored <==> states[n].looked || states[n].stored == states[n].last
    ensures !states[n].lost ==> states[n].paused == states[n].stored == states[n].last
  {
    EveryRunKeepsAlways(states, steps, n);
  }

  /** A lost toggle has a cause after it: a submission or write that failed, or another process's write. */
  lemma {:induction false} LostHasCause(states: seq<State>, steps: seq<Step>, n: nat)
    requires IsRun(states, steps) && n < |states| && states[n].lost
    ensures exists m :: 0 <= m < n
                        && (steps[m].SubmitFails? || steps[m].WriteFails? || steps[m].OutsideWrite?)
                        && forall k :: m < k < n ==> !steps[k].Toggle?
  {
    assert states[n] == Next(states[n - 1], steps[n - 1]);
    if states[n - 1].lost && !steps[n - 1].Toggle? {
      LostHasCause(states, steps, n - 1);
    }
  }

  /**
   In every run, a reload that ends with another value than the last toggle's found that toggle lost;
   and while a write of this broker is unfinished none reads or applies anything.
   */
  lemma ReloadNeverRevertsToggle(states: seq<State>, steps: seq<Step>, n: nat)
    requires IsRun(states, steps) && n < |steps|
    ensures steps[n].Apply? && states[n + 1].paused != states[n].last ==> states[n].lost
    ensures steps[n].ReadStored? || steps[n].Apply? ==> states[n].inFlight == Unfinished(states[n]) == 0
  {
    EveryRunKeepsAlways(states, steps, n);
    assert Enabled(states[n], steps[n]) && states[n + 1] == Next(states[n], steps[n]);
  }

  /** The writes succeed, and other processes write only while no write of this broker is in flight. */
  predicate Orderly(s: State, step: Step) {
    && !step.SubmitFails?
    && !step.WriteFails?
    && (step.OutsideWrite? ==> s.inFlight == 0)
  }

  /** What orderly steps keep besides: the latest decision is stored, on its way, or news. */
  predicate Coherent(s: State) {
    && (s.byToggle ==> s.paused == s.wanted)
    && (Busy(s) ==> s.byToggle && LastSubmission(s) == s.wanted)
    && (s.worker.Announcing? || s.worker.Finishing? ==> s.stored == s.worker.value)
    && (!Busy(s) ==> s.stored == s.wanted)
    && (s.window.Applying? ==> s.window.value == s.stored || NewsPending(s))
    && (s.window.Applying? && s.byToggle ==> s.window.value == s.wanted)
    && (!s.looked ==> if s.byToggle then s.last == s.wanted else NewsPending(s))
  }

  lemma WindowKeepsCoherent(s: State, step: Step)
    requires Always(s) && Coherent(s) && Enabled(s, step) && Orderly(s, step)
    requires step.Toggle? || step.Count? || step.Submit? || step.BeginReload? || step.ReadStored? || step.Apply?
    ensures Coherent(Next(s, step))
  {
  }

  lemma OthersKeepCoherent(s: State, step: Step)
    requires Always(s) && Coherent(s) && Enabled(s, step) && Orderly(s, step)
    requires step.Take? || step.Write? || step.Announce? || step.Finish? || step.OutsideWrite? || step.OutsideAnnounce?
    ensures Coherent(Next(s, step))
  {
  }

  lemma StepKeepsCoherent(s: State, step: Step)
    requires Always(s) && Coherent(s) && Enabled(s, step) && Orderly(s, step)
    ensures Coherent(Next(s, step))
  {
    if step.Toggle? || step.Count? || step.Submit? || step.BeginReload? || step.ReadStored? || step.Apply? {
      WindowKeepsCoherent(s, step);
    } else {
      OthersKeepCoherent(s, step);
    }
  }

  predicate OrderlyRun(states: seq<State>, steps: seq<Step>) {
    && IsRun(states, steps)
    && forall i {:trigger steps[i]} :: 0 <= i < |steps| ==> Orderly(states[i], steps[i])
  }

  lemma {:induction false} OrderlyRunIsCoherent(states: seq<State>, steps: seq<Step>, n: nat)
    requires OrderlyRun(states, steps) && n < |states|
    ensures Coherent(states[n])
  {
    if n > 0 {
      OrderlyRunIsCoherent(states, steps, n - 1);
      EveryRunKeepsAlways(states, steps, n - 1);
      StepKeepsCoherent(states[n - 1], steps[n - 1]);
    }
  }

  /** An orderly run at rest has memory and registry both at the latest decision. */
  lemma Settles(states: seq<State>, steps: seq<Step>, n: nat)
    requires OrderlyRun(states, steps) && n < |states| && AtRest(states[n])
    ensures states[n].paused == states[n].stored == states[n].wanted
  {
    RestIsExact(states, steps, n);
    OrderlyRunIsCoherent(states, steps, n);
    EveryRunKeepsAlways(states, steps, n);
  }

  /** In an orderly run no reload undoes a toggle that is the latest decision, and each reads that decision. */
  lemma OrderlyReload(states: seq<State>, steps: seq<Step>, n: nat)
    requires OrderlyRun(states, steps) && n < |states|
    ensures states[n].inFlight == 0 && states[n].window.Idle? ==>
      states[n].paused == states[n].stored || NewsPending(states[n])
    ensures n < |steps| && steps[n].Apply? && states[n].byToggle ==>
      states[n + 1].paused == states[n].paused == states[n].wanted
    ensures n < |steps| && steps[n].BeginReload? && states[n].inFlight == 0 ==>
      states[n].stored == states[n].wanted
  {
    OrderlyRunIsCoherent(states, steps, n);
    EveryRunKeepsAlways(states, steps, n);
  }

  /** The steps so far are possible where they happen. */
  predicate ArePossible(states: seq<State>, steps: seq<Step>, n: nat) {
    n <= |steps| < |states| && forall i :: 0 <= i < |steps| ==> Enabled(states[i], steps[i])
  }

  /** What a step submits, and what it tries to write. */
  function SubmittedBy(s: State, step: Step): seq<bool>
    requires Enabled(s, step)
  {
    if step.Submit? then [s.window.value] else []
  }

  function TriedBy(s: State, step: Step): seq<bool>
    requires Enabled(s, step)
  {
    if step.Write? || step.WriteFails? then [s.worker.value] else []
  }

  /** The values submitted so far, in order. */
  function Submitted(states: seq<State>, steps: seq<Step>, n: nat): seq<bool>
    requires ArePossible(states, steps, n)
  {
    if n == 0 then [] else Submitted(states, steps, n - 1) + SubmittedBy(states[n - 1], steps[n - 1])
  }

  /** The values the worker has tried to write so far, in order. */
  function Tried(states: seq<State>, steps: seq<Step>, n: nat): seq<bool>
    requires ArePossible(states, steps, n)
  {
    if n == 0 then [] else Tried(states, steps, n - 1) + TriedBy(states[n - 1], steps[n - 1])
  }

  /** What is being written, and what waits. */
  function Pending(s: State): seq<bool> {
    (if s.worker.Writing? then [s.worker.value] else []) + s.queue
  }

  lemma PendingStep(s: State, step: Step)
    requires Enabled(s, step)
    ensures Pending(s) + SubmittedBy(s, step) == TriedBy(s, step) + Pending(Next(s, step))
  {
    match step
    case Take => assert s.queue == [s.queue[0]] + s.queue[1..];
    case _ =>
  }

  lemma Regrouped(tried: seq<bool>, pending: seq<bool>, added: seq<bool>, done: seq<bool>, next: seq<bool>)
    requires pending + added == done + next
    ensures tried + pending + added == tried + done + next
  {
    assert tried + pending + added == tried + (pending + added);
  }

  /** In every run, what was submitted is what was tried and what is pending: the queue loses and reorders nothing. */
  lemma {:induction false} QueueKeepsOrder(states: seq<State>, steps: seq<Step>, n: nat)
    requires IsRun(states, steps) && n < |states|
    ensures Submitted(states, steps, n) == Tried(states, steps, n) + Pending(states[n])
  {
    if n > 0 {
      var (s, step) := (states[n - 1], steps[n - 1]);
      QueueKeepsOrder(states, steps, n - 1);
      PendingStep(s, step);
      Regrouped(Tried(states, steps, n - 1), Pending(s), SubmittedBy(s, step), TriedBy(s, step), Pending(states[n]));
    }
  }

  /** The window thread is about to submit the last toggle. */
  predicate HoldsToggle(s: State) {
    s.window.Toggled? || s.window.Counted? ==> s.window.value == s.last
  }

  lemma StepHoldsToggle(s: State, step: Step)
    requires HoldsToggle(s) && Enabled(s, step)
    ensures HoldsToggle(Next(s, step))
  {
  }

  /** And what is submitted is the value of the last toggle. */
  lemma {:induction false} SubmitsLastToggle(states: seq<State>, steps: seq<Step>, n: nat)
    requires IsRun(states, steps) && n < |states|
    ensures HoldsToggle(states[n])
  {
    if n > 0 {
      SubmitsLastToggle(states, steps, n - 1);
      StepHoldsToggle(states[n - 1], steps[n - 1]);
    }
  }

  /** The value of the last write that succeeded, here or in another process; at first the stored one. */
  function LastWritten(states: seq<State>, steps: seq<Step>, n: nat): bool
    requires ArePossible(states, steps, n)
  {
    if n == 0 then states[0].stored
    else if steps[n - 1].Write? then assert Enabled(states[n - 1], steps[n - 1]); states[n - 1].worker.value
    else if steps[n - 1].OutsideWrite? then steps[n - 1].value
    else LastWritten(states, steps, n - 1)
  }

  /** Values stored so far, less reloads begun. */
  function Unheard(steps: seq<Step>): int {
    if steps == [] then 0
    else Unheard(steps[..|steps| - 1]) + Change(steps[|steps| - 1])
  }

  lemma {:induction false} StoredIsLastWritten(states: seq<State>, steps: seq<Step>, n: nat)
    requires IsRun(states, steps) && n < |states|
    ensures states[n].stored == LastWritten(states, steps, n)
  {
    if n > 0 {
      StoredIsLastWritten(states, steps, n - 1);
      assert states[n] == Next(states[n - 1], steps[n - 1]);
    }
  }

  function Unannounced(s: State): nat {
    s.broadcasts + s.announcing + if s.worker.Announcing? then 1 else 0
  }

  /** What a step adds to the values nobody has heard of yet. */
  function Change(step: Step): int {
    if step.Write? || step.OutsideWrite? then 1 else if step.BeginReload? then -1 else 0
  }

  lemma AnnouncedStep(s: State, step: Step)
    requires Enabled(s, step)
    ensures Unannounced(Next(s, step)) == Unannounced(s) + Change(step)
  {
    match step
    case Write => assert Next(s, step).worker.Announcing?;
    case WriteFails => assert Next(s, step).worker.Finishing?;
    case Take => assert Next(s, step).worker.Writing?;
    case Announce => assert Next(s, step).broadcasts == s.broadcasts + 1;
    case Finish => assert Next(s, step).worker.Waiting?;
    case BeginReload => assert Next(s, step).broadcasts == s.broadcasts - 1;
    case OutsideWrite(_) => assert Next(s, step).announcing == s.announcing + 1;
    case OutsideAnnounce => assert Next(s, step).broadcasts == s.broadcasts + 1;
    case _ => assert Next(s, step).broadcasts == s.broadcasts && Next(s, step).announcing == s.announcing;
  }

  /**
   In every run every value written is announced once: it is still to be broadcast, its broadcast waits,
   or a reload has taken it.
   */
  lemma {:induction false} EveryWriteIsAnnounced(states: seq<State>, steps: seq<Step>, n: nat)
    requires IsRun(states, steps) && n < |states|
    ensures Unheard(steps[..n]) == Unannounced(states[n])
  {
    if n > 0 {
      EveryWriteIsAnnounced(states, steps, n - 1);
      AnnouncedStep(states[n - 1], steps[n - 1]);
      assert steps[..n][..n - 1] == steps[..n - 1];
    }
  }

  const START: State := State(false, false, 0, [], Idle, Waiting, 0, 0, false, true, false, false, false)

  /** One more step at the end of a run. */
  lemma Extend(states: seq<State>, steps: seq<Step>, step: Step)
    requires IsRun(states, steps) && Enabled(states[|steps|], step)
    ensures IsRun(states + [Next(states[|steps|], step)], steps + [step])
  {
  }

  /** Some run ends in `s`. */
  ghost predicate Reachable(s: State) {
    exists states: seq<State>, steps: seq<Step> :: IsRun(states, steps) && states[|steps|] == s
  }

  lemma ReachableNext(s: State, step: Step)
    requires Reachable(s) && Enabled(s, step)
    ensures Reachable(Next(s, step))
  {
    var states: seq<State>, steps: seq<Step> :| IsRun(states, steps) && states[|steps|] == s;
    Extend(states, steps, step);
    assert (states + [Next(s, step)])[|steps + [step]|] == Next(s, step);
  }

  lemma ReachableStart()
    ensures Reachable(START)
  {
    var states := [START];
    var steps: seq<Step> := [];
    assert IsRun(states, steps);
    assert states[|steps|] == START;
  }

  /** A toggle, up to the point where the worker has taken its value. */
  lemma ReachableToggle(s: State, value: bool)
    requires Reachable(s) && s.window.Idle? && s.worker.Waiting? && s.queue == []
    ensures Reachable(s.(paused := value, inFlight := s.inFlight + 1, worker := Writing(value),
                         last := value, looked := false, lost := false, wanted := value, byToggle := true))
  {
    ReachableNext(s, Toggle(value));
    var toggled := Next(s, Toggle(value));
    ReachableNext(toggled, Count);
    var counted := Next(toggled, Count);
    ReachableNext(counted, Submit);
    ReachableNext(Next(counted, Submit), Take);
  }

  /** Another process stores a change just after a toggle's write. */
  lemma ReachableOutsideWrite()
    ensures Reachable(State(true, false, 1, [], Idle, Announcing(true), 0, 1, true, false, true, false, false))
  {
    ReachableStart();
    ReachableToggle(START, true);
    var s := State(true, false, 1, [], Idle, Writing(true), 0, 0, true, false, false, true, true);
    ReachableNext(s, Write);
    ReachableNext(Next(s, Write), OutsideWrite(false));
  }

  /** And announces it, and the guard skips it. */
  lemma ReachableSkippedNews()
    ensures Reachable(State(true, false, 1, [], Idle, Announcing(true), 0, 0, true, false, true, false, false))
  {
    ReachableOutsideWrite();
    var s := State(true, false, 1, [], Idle, Announcing(true), 0, 1, true, false, true, false, false);
    ReachableNext(s, OutsideAnnounce);
    ReachableNext(Next(s, OutsideAnnounce), BeginReload);
  }

  /**
   The other side is reached: a change another process stores while a write is in flight, announced
   before that write ends, is skipped by the guard and never looked at again.
   */
  lemma OutsideWriteInFlightIsLost()
    ensures exists s :: Reachable(s) && AtRest(s) && !s.looked && s.lost && s.paused != s.stored
  {
    ReachableSkippedNews();
    var s := State(true, false, 1, [], Idle, Announcing(true), 0, 0, true, false, true, false, false);
    ReachableNext(s, Announce); s := Next(s, Announce);
    ReachableNext(s, BeginReload); s := Next(s, BeginReload);
    ReachableNext(s, Finish); s := Next(s, Finish);
  }

  /** A broadcast nobody has handled yet. */
  lemma ReachableNews()
    ensures Reachable(State(false, false, 0, [], Idle, Waiting, 1, 0, false, true, true, false, false))
  {
    ReachableStart();
    var s := START;
    ReachableNext(s, OutsideWrite(false)); s := Next(s, OutsideWrite(false));
    ReachableNext(s, OutsideAnnounce);
  }

  /** A toggle while a broadcast is still pending. */
  lemma ReachableToggleAmidNews()
    ensures Reachable(State(true, false, 1, [], Idle, Writing(true), 1, 0, true, false, false, true, true))
  {
    ReachableNews();
    ReachableToggle(State(false, false, 0, [], Idle, Waiting, 1, 0, false, true, true, false, false), true);
  }

  lemma ReachableFailedWrite()
    ensures Reachable(State(true, false, 0, [], Idle, Waiting, 1, 0, true, false, true, true, true))
  {
    ReachableToggleAmidNews();
    var s := State(true, false, 1, [], Idle, Writing(true), 1, 0, true, false, false, true, true);
    ReachableNext(s, WriteFails);
    ReachableNext(Next(s, WriteFails), Finish);
  }

  /** And a toggle whose write fails is undone by any broadcast still pending. */
  lemma FailedWriteIsReverted()
    ensures exists s :: Reachable(s) && AtRest(s) && s.byToggle && s.last && s.lost && !s.paused
  {
    ReachableFailedWrite();
    var s := State(true, false, 0, [], Idle, Waiting, 1, 0, true, false, true, true, true);
    ReachableNext(s, BeginReload); s := Next(s, BeginReload);
    ReachableNext(s, ReadStored); s := Next(s, ReadStored);
    ReachableNext(s, Apply); s := Next(s, Apply);
  }
}
