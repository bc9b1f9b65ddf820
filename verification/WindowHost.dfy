/**
 The window host of the reactor (crates/windows-reactor/src/app.rs): tokens move between the open
 windows, the windows in flight and the closed-while-in-flight set while windows mount, dispatch,
 close, fail and roll back.

 User code runs while a window mounts or dispatches, so a dispatch is two steps and anything can
 happen in between. `mounting` and `dispatching` are the pumps held outside the host: by a queued
 mount handler, or by a running dispatch.
 */
module WindowHost {

  type Token = nat

  const MAX_PENDING_WINDOW_OPENS: nat := 64

  datatype State = State(
    windows: set<Token>,
    inFlight: set<Token>,
    closedInFlight: set<Token>,
    pendingOpens: int,
    fault: bool,
    exitRequested: bool,
    mounting: set<Token>,
    dispatching: set<Token>,
    closed: set<Token>,         // tokens whose native window was reported closed
    finalized: seq<Token>,      // the calls of finalize_closed_window
    dropped: set<Token>)        // rejected, rolled back or faulted

  predicate IsEmpty(s: State) {
    s.windows == {} && s.inFlight == {} && s.pendingOpens == 0
  }

  datatype Event =
    | Open(tokens: set<Token>, queued: bool)
    | Mounted(token: Token)
    | MountRejected(token: Token, declaration: bool)
    | MountAborted(token: Token)
    | BeginDispatch(token: Token)
    | EndDispatch(token: Token, faulted: bool)
    | NativeClosed(token: Token)

  /** Every token the host has ever registered. */
  function Seen(s: State): set<Token> {
    s.windows + s.inFlight + (set t | t in s.finalized) + s.dropped
  }

  /** Windows get fresh tokens; a handler settles only the pump it holds. */
  predicate Enabled(s: State, e: Event) {
    match e
    case Open(tokens, _) => tokens !! Seen(s)
    case Mounted(t) => t in s.mounting
    case MountRejected(t, _) => t in s.mounting
    case MountAborted(t) => t in s.mounting
    case BeginDispatch(_) => true
    case EndDispatch(t, _) => t in s.dispatching
    case NativeClosed(_) => true
  }

  /** finalize_closed_window, told whether the host was empty. */
  function Finalize(s: State, token: Token): State {
    s.(finalized := s.finalized + [token], exitRequested := s.exitRequested || IsEmpty(s))
  }

  /** open_live_windows, with its roll-back when the handler cannot be queued. */
  function AfterOpen(s: State, tokens: set<Token>, queued: bool): State {
    if tokens == {} || s.pendingOpens + |tokens| > MAX_PENDING_WINDOW_OPENS then s
    else if queued then
      s.(pendingOpens := s.pendingOpens + |tokens|, inFlight := s.inFlight + tokens, mounting := s.mounting + tokens)
    else s.(dropped := s.dropped + tokens)
  }

  /** publish_mounted_window. */
  function AfterMounted(s: State, t: Token): State {
    var u := s.(inFlight := s.inFlight - {t}, closedInFlight := s.closedInFlight - {t},
                pendingOpens := s.pendingOpens - 1, mounting := s.mounting - {t});
    if t in s.closedInFlight then Finalize(u, t) else u.(windows := u.windows + {t})
  }

  /** reject_pending_window. */
  function AfterRejected(s: State, t: Token, declaration: bool): State {
    var u := s.(inFlight := s.inFlight - {t}, closedInFlight := s.closedInFlight - {t},
                pendingOpens := s.pendingOpens - 1, mounting := s.mounting - {t},
                fault := s.fault || !declaration, dropped := s.dropped + {t});
    u.(exitRequested := u.exitRequested || !declaration || IsEmpty(u))
  }

  /** dispatch_native_events, up to the call of the pump. */
  function AfterTaken(s: State, t: Token): State {
    if t in s.windows
    then s.(windows := s.windows - {t}, inFlight := s.inFlight + {t}, dispatching := s.dispatching + {t})
    else s
  }

  /** dispatch_native_events, from the return of the pump on. */
  function AfterDispatch(s: State, t: Token, faulted: bool): State {
    var u := s.(inFlight := s.inFlight - {t}, closedInFlight := s.closedInFlight - {t},
                dispatching := s.dispatching - {t});
    if faulted then u.(fault := true, exitRequested := true, dropped := u.dropped + {t})
    else if t in s.closedInFlight then Finalize(u, t)
    else u.(windows := u.windows + {t})
  }

  /** dispatch_window_closed. */
  function AfterClosed(s: State, t: Token): State {
    if t in s.inFlight then s.(closedInFlight := s.closedInFlight + {t}, closed := s.closed + {t})
    else if t in s.windows then Finalize(s.(windows := s.windows - {t}, closed := s.closed + {t}), t)
    else s
  }

  function Next(s: State, e: Event): State {
    match e
    case Open(tokens, queued) => AfterOpen(s, tokens, queued)
    case Mounted(t) => AfterMounted(s, t)
    case MountRejected(t, declaration) => AfterRejected(s, t, declaration)
    case MountAborted(t) => s.(fault := true, exitRequested := true)
    case BeginDispatch(t) => AfterTaken(s, t)
    case EndDispatch(t, faulted) => AfterDispatch(s, t, faulted)
    case NativeClosed(t) => AfterClosed(s, t)
  }

  predicate NoDuplicates(tokens: seq<Token>) {
    forall i, j :: 0 <= i < j < |tokens| ==> tokens[i] != tokens[j]
  }

  /** A token is open, in flight, finalized, dropped or unknown, and never two of these. */
  predicate WellPlaced(s: State, t: Token) {
    && !(t in s.windows && t in s.inFlight)
    && !(t in s.mounting && t in s.dispatching)
    && (t in s.inFlight <==> t in s.mounting || t in s.dispatching)
    && (t in s.closedInFlight <==> t in s.closed && t in s.inFlight)
    && (t in s.closed ==> t !in s.windows && (t in s.inFlight || t in s.finalized || t in s.dropped))
    && (t in s.finalized ==> t in s.closed && t !in s.inFlight && t !in s.dropped)
    && (t in s.dropped ==> t !in s.windows && t !in s.inFlight)
  }

  /** Every token is well placed, the counter counts the unmounted ones, and an empty host exits. */
  ghost predicate Inv(s: State) {
    && (forall t :: WellPlaced(s, t))
    && s.pendingOpens == |s.mounting|
    && NoDuplicates(s.finalized)
    && (IsEmpty(s) ==> s.exitRequested)
    && (s.fault ==> s.exitRequested)
  }

  /** The launch registers every window before the first one mounts. */
  function Launched(tokens: set<Token>): State {
    State({}, tokens, {}, |tokens|, false, false, tokens, {}, {}, [], {})
  }

  lemma OpenKeepsInv(s: State, tokens: set<Token>, queued: bool)
    requires Inv(s) && tokens !! Seen(s)
    ensures Inv(AfterOpen(s, tokens, queued))
  {
    var u := AfterOpen(s, tokens, queued);
    forall t ensures WellPlaced(u, t) {
      assert WellPlaced(s, t);
      assert t in tokens ==> t !in Seen(s);
    }
    if u != s && queued {
      forall t | t in tokens ensures t !in s.mounting {
        assert WellPlaced(s, t) && t !in Seen(s);
      }
      assert s.mounting !! tokens;
      assert |s.mounting + tokens| == |s.mounting| + |tokens|;
      var t :| t in tokens;
      assert t in u.inFlight;
    }
  }

  lemma MountedKeepsInv(s: State, t: Token)
    requires Inv(s) && t in s.mounting
    ensures Inv(AfterMounted(s, t))
  {
    var u := AfterMounted(s, t);
    assert WellPlaced(s, t);
    forall k ensures WellPlaced(u, k) {
      assert WellPlaced(s, k);
    }
    assert t !in s.closedInFlight ==> t in u.windows;
  }

  /** What the assertions of a handler need of the pump it holds. */
  lemma MountingIsInFlight(s: State, t: Token)
    requires Inv(s) && t in s.mounting
    ensures t in s.inFlight && t !in s.windows && s.pendingOpens >= 1
  {
    assert WellPlaced(s, t);
  }

  lemma RejectedKeepsInv(s: State, t: Token, declaration: bool)
    requires Inv(s) && t in s.mounting
    ensures Inv(AfterRejected(s, t, declaration))
  {
    var u := AfterRejected(s, t, declaration);
    assert WellPlaced(s, t);
    forall k ensures WellPlaced(u, k) {
      assert WellPlaced(s, k);
    }
  }

  lemma TakenKeepsInv(s: State, t: Token)
    requires Inv(s)
    ensures Inv(AfterTaken(s, t))
  {
    var u := AfterTaken(s, t);
    assert WellPlaced(s, t);
    forall k ensures WellPlaced(u, k) {
      assert WellPlaced(s, k);
    }
    assert t in s.windows ==> t in u.inFlight;
  }

  lemma DispatchKeepsInv(s: State, t: Token, faulted: bool)
    requires Inv(s) && t in s.dispatching
    ensures Inv(AfterDispatch(s, t, faulted))
  {
    var u := AfterDispatch(s, t, faulted);
    assert WellPlaced(s, t);
    forall k ensures WellPlaced(u, k) {
      assert WellPlaced(s, k);
    }
    assert !faulted && t !in s.closedInFlight ==> t in u.windows;
  }

  lemma ClosedKeepsInv(s: State, t: Token)
    requires Inv(s)
    ensures Inv(AfterClosed(s, t))
  {
    var u := AfterClosed(s, t);
    assert WellPlaced(s, t);
    forall k ensures WellPlaced(u, k) {
      assert WellPlaced(s, k);
    }
  }

  lemma StepKeepsInv(s: State, e: Event)
    requires Inv(s) && Enabled(s, e)
    ensures Inv(Next(s, e))
  {
    match e
    case Open(tokens, queued) => OpenKeepsInv(s, tokens, queued);
    case Mounted(t) => MountedKeepsInv(s, t);
    case MountRejected(t, declaration) => RejectedKeepsInv(s, t, declaration);
    case MountAborted(t) =>
      forall k ensures WellPlaced(Next(s, e), k) {
        assert WellPlaced(s, k);
      }
    case BeginDispatch(t) => TakenKeepsInv(s, t);
    case EndDispatch(t, faulted) => DispatchKeepsInv(s, t, faulted);
    case NativeClosed(t) => ClosedKeepsInv(s, t);
  }

  predicate IsRun(states: seq<State>, events: seq<Event>) {
    && |states| == |events| + 1
    && states[0].mounting != {} && states[0] == Launched(states[0].mounting)
    && forall i {:trigger events[i]} :: 0 <= i < |events| ==>
         Enabled(states[i], events[i]) && states[i + 1] == Next(states[i], events[i])
  }

  lemma {:induction false} EveryRunKeepsInv(states: seq<State>, events: seq<Event>, n: nat)
    requires IsRun(states, events) && n < |states|
    ensures Inv(states[n])
  {
    if n > 0 {
      EveryRunKeepsInv(states, events, n - 1);
      StepKeepsInv(states[n - 1], events[n - 1]);
    }
  }

  lemma StepForgetsNothing(s: State, e: Event)
    ensures s.closed <= Next(s, e).closed && s.finalized <= Next(s, e).finalized && s.dropped <= Next(s, e).dropped
  {
  }

  lemma {:induction false} ClosedStaysClosed(states: seq<State>, events: seq<Event>, from: nat, to: nat)
    requires IsRun(states, events) && from <= to < |states|
    ensures states[from].closed <= states[to].closed && states[from].finalized <= states[to].finalized
    ensures states[from].dropped <= states[to].dropped
  {
    if from < to {
      ClosedStaysClosed(states, events, from, to - 1);
      StepForgetsNothing(states[to - 1], events[to - 1]);
      assert states[to] == Next(states[to - 1], events[to - 1]);
    }
  }

  /**
   A token once reported closed is never open again and is finalized at most once; once it is out of
   flight it has been finalized, unless its own pump failed.
   */
  lemma ClosedTokenEndsOnce(states: seq<State>, events: seq<Event>, from: nat, to: nat, t: Token)
    requires IsRun(states, events) && from <= to < |states| && t in states[from].closed
    ensures t !in states[to].windows
    ensures multiset(states[to].finalized)[t] <= 1
    ensures t !in states[to].inFlight ==> (multiset(states[to].finalized)[t] == 1 <==> t !in states[to].dropped)
  {
    EveryRunKeepsInv(states, events, to);
    ClosedStaysClosed(states, events, from, to);
    assert WellPlaced(states[to], t);
    CountInNoDuplicates(states[to].finalized, t);
  }

  lemma {:induction false} CountInNoDuplicates(tokens: seq<Token>, t: Token)
    requires NoDuplicates(tokens)
    ensures multiset(tokens)[t] == if t in tokens then 1 else 0
  {
    if tokens != [] {
      var n := |tokens| - 1;
      CountInNoDuplicates(tokens[..n], t);
      assert tokens == tokens[..n] + [tokens[n]];
    }
  }

  lemma {:induction false} PendingBounded(states: seq<State>, events: seq<Event>, n: nat)
    requires IsRun(states, events) && n < |states|
    ensures states[n].pendingOpens <= MAX_PENDING_WINDOW_OPENS || states[n].pendingOpens <= states[0].pendingOpens
  {
    if n > 0 {
      PendingBounded(states, events, n - 1);
      assert states[n] == Next(states[n - 1], events[n - 1]);
    }
  }

  class LiveHost {
    var windows: set<Token>
    var inFlight: set<Token>
    var closedInFlight: set<Token>
    var pendingOpens: int
    var fault: bool
    var exitRequested: bool
    ghost var mounting: set<Token>
    ghost var dispatching: set<Token>
    ghost var closed: set<Token>
    ghost var finalized: seq<Token>
    ghost var dropped: set<Token>

    ghost function Contents(): State
      reads this
    {
      State(windows, inFlight, closedInFlight, pendingOpens, fault, exitRequested,
            mounting, dispatching, closed, finalized, dropped)
    }

    ghost predicate Valid()
      reads this
    {
      Inv(Contents())
    }

    /** The launch in App::run_with. */
    constructor (primary: Token, others: set<Token>)
      requires primary !in others
      ensures Valid() && Contents() == Launched({primary} + others)
    {
      windows, closedInFlight, fault, exitRequested := {}, {}, false, false;
      inFlight := {primary} + others;
      pendingOpens := |others| + 1;
      mounting, dispatching, closed, finalized, dropped := {primary} + others, {}, {}, [], {};
    }

    predicate HostIsEmpty()
      reads this
    {
      windows == {} && inFlight == {} && pendingOpens == 0
    }

    /** finalize_closed_window: the pump is dropped, and the loop exits with the last window. */
    method FinalizeClosedWindow(token: Token, empty: bool)
      modifies this`exitRequested, this`finalized
      ensures exitRequested == (old(exitRequested) || empty)
      ensures finalized == old(finalized) + [token]
    {
      finalized := finalized + [token];
      if empty {
        exitRequested := true;
      }
    }

    /** publish_mounted_window. */
    method PublishMountedWindow(token: Token)
      requires Valid() && token in mounting
      modifies this
      ensures Valid() && Contents() == AfterMounted(old(Contents()), token)
    {
      ghost var before := Contents();
      MountingIsInFlight(before, token);
      assert token in inFlight;
      inFlight := inFlight - {token};
      assert pendingOpens >= 1;
      pendingOpens := pendingOpens - 1;
      mounting := mounting - {token};
      var wasClosed := token in closedInFlight;
      closedInFlight := closedInFlight - {token};
      if wasClosed {
        FinalizeClosedWindow(token, HostIsEmpty());
      } else {
        assert token !in windows;
        windows := windows + {token};
      }
      assert Contents() == AfterMounted(before, token);
      MountedKeepsInv(before, token);
    }

    /** The registration of open_live_windows: the counter first, then every token. */
    method RegisterPending(tokens: set<Token>)
      requires tokens !! inFlight
      modifies this`pendingOpens, this`inFlight, this`mounting
      ensures pendingOpens == old(pendingOpens) + |tokens|
      ensures inFlight == old(inFlight) + tokens
      ensures mounting == old(mounting) + tokens
    {
      pendingOpens := pendingOpens + |tokens|;
      InsertInFlight(tokens);
      mounting := mounting + tokens;
    }

    /** Its loop: no token is in flight already. */
    method InsertInFlight(tokens: set<Token>)
      requires tokens !! inFlight
      modifies this`inFlight
      ensures inFlight == old(inFlight) + tokens
    {
      ghost var before := inFlight;
      var rest := tokens;
      while rest != {}
        invariant rest <= tokens && rest !! inFlight
        invariant inFlight == before + (tokens - rest)
        decreases rest
      {
        var token :| token in rest;
        assert token !in inFlight;
        inFlight := inFlight + {token};
        rest := rest - {token};
      }
    }

    /** rollback_pending_windows. */
    method RollbackPendingWindows(tokens: set<Token>)
      requires tokens <= inFlight && pendingOpens >= |tokens|
      modifies this`pendingOpens, this`inFlight, this`closedInFlight, this`mounting, this`dropped
      ensures inFlight == old(inFlight) - tokens
      ensures closedInFlight == old(closedInFlight) - tokens
      ensures pendingOpens == old(pendingOpens) - |tokens|
      ensures mounting == old(mounting) - tokens
      ensures dropped == old(dropped) + tokens
    {
      var rest := tokens;
      ghost var done := {};
      while rest != {}
        modifies this`inFlight, this`closedInFlight
        invariant done !! rest && done + rest == tokens
        invariant inFlight == old(inFlight) - done
        invariant closedInFlight == old(closedInFlight) - done
        decreases rest
      {
        var token :| token in rest;
        assert token in inFlight;
        inFlight := inFlight - {token};
        closedInFlight := closedInFlight - {token};
        rest := rest - {token};
        done := done + {token};
      }
      assert done == tokens;
      pendingOpens := pendingOpens - |tokens|;
      mounting := mounting - tokens;
      dropped := dropped + tokens;
    }

    /** open_live_windows. */
    method OpenLiveWindows(tokens: set<Token>, queued: bool) returns (accepted: bool)
      requires Valid() && tokens !! Seen(Contents())
      modifies this
      ensures Valid() && Contents() == AfterOpen(old(Contents()), tokens, queued)
      ensures accepted <==>
        tokens == {} || (queued && old(pendingOpens) + |tokens| <= MAX_PENDING_WINDOW_OPENS)
    {
      ghost var before := Contents();
      OpenKeepsInv(before, tokens, queued);
      UnseenIsElsewhere(before, tokens);
      if tokens == {} {
        return true;
      }
      if pendingOpens + |tokens| > MAX_PENDING_WINDOW_OPENS {
        return false;
      }
      RegisterPending(tokens);
      if queued {
        assert Contents() == AfterOpen(before, tokens, queued);
        return true;
      }
      RollbackPendingWindows(tokens);
      assert inFlight == before.inFlight && mounting == before.mounting && closedInFlight == before.closedInFlight;
      assert Contents() == AfterOpen(before, tokens, queued);
      return false;
    }

    /** reject_pending_window. */
    method RejectPendingWindow(token: Token, declaration: bool)
      requires Valid() && token in mounting
      modifies this
      ensures Valid() && Contents() == AfterRejected(old(Contents()), token, declaration)
    {
      ghost var before := Contents();
      MountingIsInFlight(before, token);
      assert token in inFlight;
      inFlight := inFlight - {token};
      closedInFlight := closedInFlight - {token};
      assert pendingOpens >= 1;
      pendingOpens := pendingOpens - 1;
      mounting := mounting - {token};
      dropped := dropped + {token};
      if !declaration {
        fault := true;
      }
      var empty := HostIsEmpty();
      if !declaration {
        exitRequested := true;
      }
      if empty {
        exitRequested := true;
      }
      assert Contents() == AfterRejected(before, token, declaration);
      RejectedKeepsInv(before, token, declaration);
    }

    /** dispatch_native_events, up to the call of the pump. */
    method TakeForDispatch(token: Token) returns (taken: bool)
      requires Valid()
      modifies this
      ensures Valid() && Contents() == AfterTaken(old(Contents()), token)
      ensures taken <==> token in old(windows)
    {
      TakenKeepsInv(Contents(), token);
      taken := token in windows;
      if taken {
        windows := windows - {token};
        inFlight := inFlight + {token};
        dispatching := dispatching + {token};
      }
      assert Contents() == AfterTaken(old(Contents()), token);
    }

    /** dispatch_native_events, from the return of the pump on. */
    method FinishDispatch(token: Token, faulted: bool)
      requires Valid() && token in dispatching
      modifies this
      ensures Valid() && Contents() == AfterDispatch(old(Contents()), token, faulted)
    {
      DispatchKeepsInv(Contents(), token, faulted);
      if faulted {
        exitRequested := true;
      }
      inFlight := inFlight - {token};
      dispatching := dispatching - {token};
      var wasClosed := token in closedInFlight;
      closedInFlight := closedInFlight - {token};
      if faulted {
        fault := true;
        dropped := dropped + {token};
      } else if wasClosed {
        FinalizeClosedWindow(token, HostIsEmpty());
      } else {
        windows := windows + {token};
      }
      assert Contents() == AfterDispatch(old(Contents()), token, faulted);
    }

    /** dispatch_window_closed. */
    method DispatchWindowClosed(token: Token)
      requires Valid()
      modifies this
      ensures Valid() && Contents() == AfterClosed(old(Contents()), token)
    {
      ClosedKeepsInv(Contents(), token);
      if token in inFlight {
        closedInFlight := closedInFlight + {token};
        closed := closed + {token};
        assert Contents() == AfterClosed(old(Contents()), token);
        return;
      }
      if token in windows {
        windows := windows - {token};
        closed := closed + {token};
        FinalizeClosedWindow(token, HostIsEmpty());
      }
      assert Contents() == AfterClosed(old(Contents()), token);
    }
  }

  lemma UnseenIsElsewhere(s: State, tokens: set<Token>)
    requires Inv(s) && tokens !! Seen(s)
    ensures tokens !! s.inFlight && tokens !! s.mounting && tokens !! s.closedInFlight
  {
    forall t | t in tokens ensures t !in s.inFlight && t !in s.mounting && t !in s.closedInFlight {
      assert WellPlaced(s, t) && t !in Seen(s);
    }
  }
}
