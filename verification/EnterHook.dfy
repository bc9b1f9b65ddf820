/**
 The low-level keyboard hook (crates/fsw-broker/src/main.rs): which Enter key events it swallows,
 what it posts to the worker, and the key generation it keeps for revalidation.
 */
module EnterHook {
  import opened Results
  import opened Widths

  /** LPARAM is a signed 64-bit word. */
  const LPARAM_LIMIT: nat := 0x8000_0000_0000_0000

  /** One key event as the hook sees it. */
  datatype Key = Key(isReturn: bool, isUp: bool, marked: bool, lowerIntegrity: bool)

  /** What the hook reads from the system while it handles a first Enter key-down. */
  datatype Surroundings = Surroundings(
    targetMatches: bool,
    paused: bool,
    cachedBrowser: bool,
    candidateClass: bool,
    workerPresent: bool,
    postSucceeds: bool)

  datatype Posted = CachedBrowserEnter(generation: nat) | ProcessEnter(generation: nat)

  datatype Event = KeyEvent(key: Key, surroundings: Surroundings) | HookRemoved

  /** ENTER_DOWN, SUPPRESS_ENTER_UP, KEYDOWN_GENERATION and the worker's message queue. */
  datatype State = State(enterDown: bool, suppressUp: bool, generation: nat, posted: seq<Posted>)

  /** An event that concerns a press of Enter by the user: not our own replay, not another key. */
  predicate IsEnter(event: Event) {
    event.KeyEvent? && event.key.isReturn && !event.key.marked && !event.key.lowerIntegrity
  }

  /** A key-down that cancels stale requests. */
  predicate IsUnmarkedDown(event: Event) {
    event.KeyEvent? && !event.key.isUp && !event.key.marked
  }

  /** The message a first key-down wants to post, if the hook may post one at all. */
  function Request(around: Surroundings, generation: nat): Option<Posted> {
    if !around.targetMatches || around.paused || generation >= LPARAM_LIMIT || !around.workerPresent then None
    else if around.cachedBrowser then Some(CachedBrowserEnter(generation))
    else if around.candidateClass then Some(ProcessEnter(generation))
    else None
  }

  /** One press of Enter, as the user experiences it. */
  datatype Press = NoPress | Pressed(swallowed: bool)

  function PressOf(s: State): Press {
    if s.enterDown then Pressed(s.suppressUp) else NoPress
  }

  class Hook {
    var enterDown: bool
    var suppressUp: bool
    var generation: nat
    var posted: seq<Posted>

    ghost function Contents(): State
      reads this
    {
      State(enterDown, suppressUp, generation, posted)
    }

    constructor ()
      ensures Contents() == State(false, false, 0, [])
    {
      enterDown, suppressUp, generation, posted := false, false, 0, [];
    }

    /** PostMessageW to the worker's window. */
    method Post(around: Surroundings, message: Posted) returns (posting: bool)
      modifies this`posted
      ensures posting <==> around.workerPresent && around.postSucceeds
      ensures posted == if posting then old(posted) + [message] else old(posted)
    {
      posting := around.workerPresent && around.postSucceeds;
      if posting {
        posted := posted + [message];
      }
    }

    /** low_level_keyboard_proc: true swallows the event, false passes it on. */
    method LowLevelKeyboardProc(key: Key, around: Surroundings) returns (swallowed: bool)
      requires generation < U64_LIMIT
      modifies this
      ensures (Contents(), swallowed) == Handle(old(Contents()), key, around)
    {
      if !key.isUp && !key.marked {
        generation := (generation + 1) % U64_LIMIT;
      }
      if !key.isReturn || key.marked {
        return false;
      }
      if key.lowerIntegrity {
        return false;
      }
      if key.isUp {
        enterDown := false;
        var suppressed := suppressUp;
        suppressUp := false;
        return suppressed;
      }
      var wasDown := enterDown;
      enterDown := true;
      if wasDown {
        return suppressUp;
      }
      if !around.targetMatches {
        return false;
      }
      if around.paused {
        return false;
      }
      if around.cachedBrowser {
        if generation >= LPARAM_LIMIT {
          return false;
        }
        var posting := Post(around, CachedBrowserEnter(generation));
        if posting {
          suppressUp := true;
          return true;
        }
        return false;
      }
      if !around.candidateClass {
        return false;
      }
      if generation >= LPARAM_LIMIT {
        return false;
      }
      var posting := Post(around, ProcessEnter(generation));
      if !(around.workerPresent && posting) {
        return false;
      }
      suppressUp := true;
      return true;
    }

    /** remove_hook. */
    method RemoveHook()
      modifies this`enterDown, this`suppressUp
      ensures Contents() == Removed(old(Contents()))
    {
      enterDown := false;
      suppressUp := false;
    }
  }

  /** What the callback does to the flags, the generation and the queue. */
  function Handle(s: State, key: Key, around: Surroundings): (State, bool) {
    var generation := if !key.isUp && !key.marked then (s.generation + 1) % U64_LIMIT else s.generation;
    var t := s.(generation := generation);
    if !key.isReturn || key.marked || key.lowerIntegrity then (t, false)
    else if key.isUp then (t.(enterDown := false, suppressUp := false), t.suppressUp)
    else if t.enterDown then (t, t.suppressUp)
    else
      var request := Request(around, generation);
      if request.Some? && around.postSucceeds
      then (t.(enterDown := true, suppressUp := true, posted := t.posted + [request.value]), true)
      else (t.(enterDown := true), false)
  }

  function Removed(s: State): State {
    s.(enterDown := false, suppressUp := false)
  }

  function Next(s: State, event: Event): (State, bool) {
    match event
    case KeyEvent(key, around) => Handle(s, key, around)
    case HookRemoved => (Removed(s), false)
  }

  /** The states of a run from an idle hook, with each event's verdict. */
  predicate IsRun(states: seq<State>, events: seq<Event>, verdicts: seq<bool>) {
    && |states| == |events| + 1 == |verdicts| + 1
    && states[0] == State(false, false, states[0].generation, [])
    && states[0].generation < U64_LIMIT
    && forall i {:trigger events[i]} :: 0 <= i < |events| ==> (states[i + 1], verdicts[i]) == Next(states[i], events[i])
  }

  /** The first key-down of a press. */
  predicate StartsPress(states: seq<State>, events: seq<Event>, i: nat)
    requires i < |events| < |states|
  {
    IsEnter(events[i]) && !events[i].key.isUp && !states[i].enterDown
  }

  /** The press is over: its key came up, or the hook was removed. */
  predicate EndsPress(event: Event) {
    event.HookRemoved? || (IsEnter(event) && event.key.isUp)
  }

  lemma {:induction false} SuppressOnlyWhileDown(states: seq<State>, events: seq<Event>, verdicts: seq<bool>, n: nat)
    requires IsRun(states, events, verdicts) && n < |states|
    ensures states[n].suppressUp ==> states[n].enterDown
    ensures states[n].generation < U64_LIMIT
  {
    if n > 0 {
      SuppressOnlyWhileDown(states, events, verdicts, n - 1);
      assert (states[n], verdicts[n - 1]) == Next(states[n - 1], events[n - 1]);
    }
  }

  /** From the first key-down on, the press is in progress with the verdict that key-down got. */
  lemma {:induction false} PressInProgress(states: seq<State>, events: seq<Event>, verdicts: seq<bool>, i: nat, n: nat)
    requires IsRun(states, events, verdicts) && i < n < |states|
    requires StartsPress(states, events, i)
    requires forall k :: i < k < n ==> !EndsPress(events[k])
    ensures PressOf(states[n]) == Pressed(verdicts[i])
    ensures |states[n].posted| == |states[i].posted| + if verdicts[i] then 1 else 0
    ensures states[i + 1].posted <= states[n].posted
  {
    assert (states[n], verdicts[n - 1]) == Next(states[n - 1], events[n - 1]);
    if i + 1 < n {
      PressInProgress(states, events, verdicts, i, n - 1);
    } else {
      SuppressOnlyWhileDown(states, events, verdicts, i);
    }
  }

  /**
   One press, one verdict: the first key-down, every repeat and the key-up of a press are all swallowed
   or all passed on, and the press posts exactly one message when it is swallowed and none otherwise.
   The message carries the generation of that key-down, so any later key-down outdates it.
   */
  lemma OneVerdictPerPress(states: seq<State>, events: seq<Event>, verdicts: seq<bool>, i: nat, j: nat)
    requires IsRun(states, events, verdicts) && i < j < |events|
    requires StartsPress(states, events, i)
    requires forall k :: i < k < j ==> !EndsPress(events[k])
    requires IsEnter(events[j])
    ensures verdicts[j] == verdicts[i]
    ensures |states[j + 1].posted| == |states[i].posted| + if verdicts[i] then 1 else 0
    ensures verdicts[i] ==>
      |states[j + 1].posted| > 0
      && states[j + 1].posted[|states[i].posted|].generation == states[i + 1].generation
  {
    PressInProgress(states, events, verdicts, i, j);
    assert (states[j + 1], verdicts[j]) == Next(states[j], events[j]);
    assert (states[i + 1], verdicts[i]) == Next(states[i], events[i]);
  }

  /**
   Which presses are swallowed: in every run the first key-down of one is, exactly when the target
   matches, the broker is not paused, the foreground is the cached browser or a candidate class, the new
   generation fits a signed word, the worker exists and the post succeeds. What is posted then says
   whether it was the cached browser.
   */
  lemma FirstDownIsExact(states: seq<State>, events: seq<Event>, verdicts: seq<bool>, i: nat)
    requires IsRun(states, events, verdicts) && i < |events| && StartsPress(states, events, i)
    ensures var around := events[i].surroundings;
            var generation := (states[i].generation + 1) % 0x1_0000_0000_0000_0000;
            && (verdicts[i] <==>
                  && around.targetMatches && !around.paused && (around.cachedBrowser || around.candidateClass)
                  && generation < 0x8000_0000_0000_0000 && around.workerPresent && around.postSucceeds)
            && states[i + 1].posted
               == if !verdicts[i] then states[i].posted
                  else states[i].posted
                       + [if around.cachedBrowser then CachedBrowserEnter(generation) else ProcessEnter(generation)]
  {
    assert (states[i + 1], verdicts[i]) == Next(states[i], events[i]);
  }

  /** Nothing else posts. */
  lemma OnlyFirstDownsPost(states: seq<State>, events: seq<Event>, verdicts: seq<bool>, i: nat)
    requires IsRun(states, events, verdicts) && i < |events| && states[i + 1].posted != states[i].posted
    ensures StartsPress(states, events, i) && verdicts[i]
  {
    assert (states[i + 1], verdicts[i]) == Next(states[i], events[i]);
  }

  /** A press is in progress exactly if Enter went down and has neither come up nor lost its hook since. */
  lemma {:induction false} DownByHistory(states: seq<State>, events: seq<Event>, verdicts: seq<bool>, n: nat)
    requires IsRun(states, events, verdicts) && n < |states|
    ensures states[n].enterDown
       <==> exists i :: 0 <= i < n && IsEnter(events[i]) && !events[i].key.isUp && forall k :: i < k < n ==> !EndsPress(events[k])
    ensures n < |events| && IsEnter(events[n]) && events[n].key.isUp && !states[n].enterDown ==> !verdicts[n]
  {
    SuppressOnlyWhileDown(states, events, verdicts, n);
    if n > 0 {
      DownByHistory(states, events, verdicts, n - 1);
      assert (states[n], verdicts[n - 1]) == Next(states[n - 1], events[n - 1]);
    }
    if n < |events| {
      assert (states[n + 1], verdicts[n]) == Next(states[n], events[n]);
    }
  }

  /** Events that are no press of the user's Enter pass through and change neither flag. */
  lemma OthersPassThrough(states: seq<State>, events: seq<Event>, verdicts: seq<bool>, i: nat)
    requires IsRun(states, events, verdicts) && i < |events|
    requires !IsEnter(events[i]) && !events[i].HookRemoved?
    ensures !verdicts[i] && PressOf(states[i + 1]) == PressOf(states[i]) && states[i + 1].posted == states[i].posted
  {
  }

  /** How many unmarked key-downs a stretch of events holds. */
  function UnmarkedDowns(events: seq<Event>): nat {
    if events == [] then 0
    else UnmarkedDowns(events[..|events| - 1]) + if IsUnmarkedDown(events[|events| - 1]) then 1 else 0
  }

  /** The generation counts unmarked key-downs, modulo its width. */
  lemma {:induction false} GenerationCounts(states: seq<State>, events: seq<Event>, verdicts: seq<bool>, i: nat, n: nat)
    requires IsRun(states, events, verdicts) && i <= n < |states|
    ensures states[n].generation == (states[i].generation + UnmarkedDowns(events[i..n])) % U64_LIMIT
  {
    SuppressOnlyWhileDown(states, events, verdicts, n);
    if i < n {
      GenerationCounts(states, events, verdicts, i, n - 1);
      assert (states[n], verdicts[n - 1]) == Next(states[n - 1], events[n - 1]);
      assert events[i..n][..n - i - 1] == events[i..n - 1];
      ModuloStep(states[i].generation + UnmarkedDowns(events[i..n - 1]));
    }
  }

  lemma ModuloStep(x: nat)
    ensures (x % U64_LIMIT + 1) % U64_LIMIT == (x + 1) % U64_LIMIT
  {
  }
}
