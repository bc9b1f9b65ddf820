/**
 The window host seen from one token and from the outside (crates/windows-reactor/src/app.rs): the life of
 a token as a state machine of its own, and exactly when the application exits.
 */
module WindowLaw {
  import opened WindowHost

  /** Where a token is: not registered yet, held by a pump, open, finalized, or given up. */
  datatype Life =
    | Unborn
    | Held(mounting: bool, closed: bool)
    | Shown
    | Ended
    | GivenUp

  /** What an event does to one token, told whether a request to open fits. */
  function LifeAfter(life: Life, e: Event, fits: bool, t: Token): Life {
    match e
    case Open(tokens, queued) =>
      if t !in tokens || !fits then life else if queued then Held(true, false) else GivenUp
    case Mounted(u) =>
      if u != t || !life.Held? then life else if life.closed then Ended else Shown
    case MountRejected(u, _) =>
      if u != t then life else GivenUp
    case MountAborted(_) => life
    case BeginDispatch(u) =>
      if u == t && life.Shown? then Held(false, false) else life
    case EndDispatch(u, faulted) =>
      if u != t || !life.Held? then life else if faulted then GivenUp else if life.closed then Ended else Shown
    case NativeClosed(u) =>
      if u != t then life else if life.Held? then Held(life.mounting, true) else if life.Shown? then Ended else life
  }

  /** A request of at least one window fits if at most 64 would then be waiting to mount. */
  predicate Fits(s: State, e: Event) {
    e.Open? && e.tokens != {} && s.pendingOpens + |e.tokens| <= 64
  }

  /** Where the host has the token. */
  function LifeIn(s: State, t: Token): Life {
    if t in s.inFlight then Held(t in s.mounting, t in s.closedInFlight)
    else if t in s.windows then Shown
    else if t in s.finalized then Ended
    else if t in s.dropped then GivenUp
    else Unborn
  }

  /** The life of a token of a run: from its launch, event by event. */
  function LifeOf(states: seq<State>, events: seq<Event>, n: nat, t: Token): Life
    requires n < |states| && n <= |events|
  {
    if n == 0 then if t in states[0].inFlight then Held(true, false) else Unborn
    else LifeAfter(LifeOf(states, events, n - 1, t), events[n - 1], Fits(states[n - 1], events[n - 1]), t)
  }

  lemma StepIsLife(s: State, e: Event, t: Token)
    requires Inv(s) && Enabled(s, e)
    ensures LifeIn(Next(s, e), t) == LifeAfter(LifeIn(s, t), e, Fits(s, e), t)
  {
    assert WellPlaced(s, t);
    if e.Open? && t in e.tokens {
      assert t !in Seen(s);
    }
  }

  /** The host has every token exactly where its own life puts it, whatever happens to the others. */
  lemma {:induction false} TokenLife(states: seq<State>, events: seq<Event>, n: nat, t: Token)
    requires IsRun(states, events) && n < |states|
    ensures LifeIn(states[n], t) == LifeOf(states, events, n, t)
    ensures t in states[n].windows <==> LifeOf(states, events, n, t) == Shown
    ensures multiset(states[n].finalized)[t] == if LifeOf(states, events, n, t) == Ended then 1 else 0
  {
    EveryRunKeepsInv(states, events, n);
    assert WellPlaced(states[n], t);
    CountInNoDuplicates(states[n].finalized, t);
    if n > 0 {
      TokenLife(states, events, n - 1, t);
      EveryRunKeepsInv(states, events, n - 1);
      StepIsLife(states[n - 1], events[n - 1], t);
    }
  }

  /** A mount or dispatch that failed for another reason than its declaration. */
  predicate Fails(e: Event) {
    e.MountAborted? || (e.MountRejected? && !e.declaration) || (e.EndDispatch? && e.faulted)
  }

  predicate HasFailed(events: seq<Event>, n: nat)
    requires n <= |events|
  {
    exists k :: 0 <= k < n && Fails(events[k])
  }

  lemma OneMoreEvent(events: seq<Event>, n: nat)
    requires n < |events|
    ensures HasFailed(events, n + 1) <==> HasFailed(events, n) || Fails(events[n])
  {
  }

  lemma StepFaults(s: State, e: Event)
    ensures Next(s, e).fault <==> s.fault || Fails(e)
  {
  }

  lemma {:induction false} FaultIsExact(states: seq<State>, events: seq<Event>, n: nat)
    requires IsRun(states, events) && n < |states|
    ensures states[n].fault <==> HasFailed(events, n)
  {
    if n > 0 {
      FaultIsExact(states, events, n - 1);
      OneMoreEvent(events, n - 1);
      StepFaults(states[n - 1], events[n - 1]);
    }
  }

  /** No window is open, none is held and none waits to mount. */
  predicate IsBare(s: State) {
    s.windows == {} && s.inFlight == {} && s.pendingOpens == 0
  }

  predicate HasBeenBare(states: seq<State>, n: nat)
    requires n < |states|
  {
    exists k :: 0 <= k <= n && IsBare(states[k])
  }

  lemma OneMoreState(states: seq<State>, n: nat)
    requires n + 1 < |states|
    ensures HasBeenBare(states, n + 1) <==> HasBeenBare(states, n) || IsBare(states[n + 1])
  {
  }

  lemma StepExits(s: State, e: Event)
    ensures s.exitRequested ==> Next(s, e).exitRequested
    ensures Next(s, e).exitRequested ==> s.exitRequested || Fails(e) || IsBare(Next(s, e))
  {
  }

  /**
   The application exits exactly if something has failed or the host has been bare: closing one of
   several windows, or rejecting the declaration of one while another lives, never exits.
   */
  lemma {:induction false} ExitIsExact(states: seq<State>, events: seq<Event>, n: nat)
    requires IsRun(states, events) && n < |states|
    ensures states[n].exitRequested <==> HasFailed(events, n) || HasBeenBare(states, n)
  {
    EveryRunKeepsInv(states, events, n);
    FaultIsExact(states, events, n);
    if n > 0 {
      ExitIsExact(states, events, n - 1);
      OneMoreEvent(events, n - 1);
      OneMoreState(states, n - 1);
      StepExits(states[n - 1], events[n - 1]);
    } else {
      StartIsNotBare(states);
    }
  }

  lemma StartIsNotBare(states: seq<State>)
    requires states != [] && states[0].mounting != {} && states[0] == Launched(states[0].mounting)
    ensures !IsBare(states[0]) && !HasBeenBare(states, 0) && !states[0].exitRequested
  {
    assert states[0].inFlight == states[0].mounting;
  }
}
