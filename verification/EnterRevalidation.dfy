/**
 The worker's revalidation of a swallowed Enter (crates/fsw-broker/src/main.rs). Each read happens at
 its own moment, and between two reads the user, the hook and the focused control may do anything:
 the surroundings are functions of time, and a check is given the moments of its reads.
 */
module EnterRevalidation {
  import opened Results
  import opened Widths

  /** What holds at each moment: unmarked key-downs so far, the control's text, and whether the focused
      control is still the attested one. */
  datatype Surroundings = Surroundings(
    keydowns: nat -> nat,
    text: nat -> Option<string>,
    controlIsCurrent: nat -> bool)

  /** Key-downs only accumulate. */
  ghost predicate Accumulates(w: Surroundings) {
    forall t, u :: t <= u ==> w.keydowns(t) <= w.keydowns(u)
  }

  function Generation(w: Surroundings, t: nat): nat {
    w.keydowns(t) % U64_LIMIT
  }

  /** The six reads of one check, in order. */
  datatype Reads = Reads(firstGeneration: nat, firstControl: nat, firstText: nat,
                         secondControl: nat, secondText: nat, lastGeneration: nat)

  predicate InOrder(from: nat, r: Reads) {
    from <= r.firstGeneration <= r.firstControl <= r.firstText <= r.secondControl <= r.secondText <= r.lastGeneration
  }

  /** current_enter_input. */
  predicate CurrentEnterInput(w: Surroundings, expected: string, generation: nat, r: Reads) {
    if Generation(w, r.firstGeneration) != generation || !w.controlIsCurrent(r.firstControl) then false
    else
      var value := w.text(r.firstText);
      && value == Some(expected)
      && w.controlIsCurrent(r.secondControl)
      && w.text(r.secondText) == Some(expected)
      && Generation(w, r.lastGeneration) == generation
  }

  /** No unmarked key-down between two moments. */
  ghost predicate Quiet(w: Surroundings, from: nat, to: nat) {
    forall t :: from <= t <= to ==> w.keydowns(t) == w.keydowns(from)
  }

  /**
   With fewer than 2^64 key-downs since the hook ran, the check holds exactly when nobody pressed a key
   from the hook's key-down to the last read, and both samples of control and text were as expected.
   */
  lemma CheckMeansQuiet(w: Surroundings, expected: string, hook: nat, r: Reads)
    requires Accumulates(w) && InOrder(hook, r)
    requires w.keydowns(r.lastGeneration) - w.keydowns(hook) < U64_LIMIT
    ensures CurrentEnterInput(w, expected, Generation(w, hook), r)
       <==> && Quiet(w, hook, r.lastGeneration)
            && w.controlIsCurrent(r.firstControl) && w.controlIsCurrent(r.secondControl)
            && w.text(r.firstText) == Some(expected) == w.text(r.secondText)
  {
  }

  /** And the width matters: after exactly 2^64 key-downs the check sees nothing. */
  lemma WrappedGenerationIsUnseen(w: Surroundings, expected: string, hook: nat, r: Reads)
    requires Accumulates(w) && InOrder(hook, r)
    requires w.keydowns(r.firstGeneration) == w.keydowns(r.lastGeneration) == w.keydowns(hook) + U64_LIMIT
    requires w.controlIsCurrent(r.firstControl) && w.controlIsCurrent(r.secondControl)
    requires w.text(r.firstText) == Some(expected) == w.text(r.secondText)
    ensures CurrentEnterInput(w, expected, Generation(w, hook), r)
    ensures !Quiet(w, hook, r.lastGeneration)
  {
  }

  /** The moments of one application: a check, a write, a check, a replay. */
  datatype Moments = Moments(before: Reads, write: nat, after: Reads, replay: nat)

  predicate Ordered(hook: nat, m: Moments) {
    && InOrder(hook, m.before)
    && m.before.lastGeneration <= m.write
    && InOrder(m.write, m.after)
    && m.after.lastGeneration <= m.replay
  }

  datatype Action = Wrote(at: nat, succeeded: bool) | Replayed(at: nat)

  /** apply_translated_enter: the actions taken, in order. */
  method ApplyTranslatedEnter(
      w: Surroundings, input: string, translated: string, generation: nat, m: Moments, writeSucceeds: bool)
    returns (actions: seq<Action>)
    ensures actions == Actions(w, input, translated, generation, m, writeSucceeds)
  {
    actions := [];
    if !CurrentEnterInput(w, input, generation, m.before) {
      return;
    }
    actions := actions + [Wrote(m.write, writeSucceeds)];
    var expected := if writeSucceeds then translated else input;
    if CurrentEnterInput(w, expected, generation, m.after) {
      actions := actions + [Replayed(m.replay)];
    }
  }

  function Actions(
      w: Surroundings, input: string, translated: string, generation: nat, m: Moments, writeSucceeds: bool): seq<Action>
  {
    if !CurrentEnterInput(w, input, generation, m.before) then []
    else
      var expected := if writeSucceeds then translated else input;
      [Wrote(m.write, writeSucceeds)]
      + if CurrentEnterInput(w, expected, generation, m.after) then [Replayed(m.replay)] else []
  }

  /**
   At most one write and at most one replay, in that order. The write happens exactly in a quiet window in
   which the user's text was seen twice, whether it then succeeds or not; the replay exactly if besides the
   quiet window reaches past the write and what was then seen twice is the value left in the control.
   */
  lemma WriteOnceReplayOnce(
      w: Surroundings, input: string, translated: string, hook: nat, m: Moments, writeSucceeds: bool)
    requires Accumulates(w) && Ordered(hook, m)
    requires w.keydowns(m.after.lastGeneration) - w.keydowns(hook) < U64_LIMIT
    ensures var actions := Actions(w, input, translated, Generation(w, hook), m, writeSucceeds);
            && (actions == [] || actions == [Wrote(m.write, writeSucceeds)]
                || actions == [Wrote(m.write, writeSucceeds), Replayed(m.replay)])
            && (actions != [] <==>
                  Quiet(w, hook, m.before.lastGeneration)
                  && w.controlIsCurrent(m.before.firstControl) && w.controlIsCurrent(m.before.secondControl)
                  && w.text(m.before.firstText) == Some(input) == w.text(m.before.secondText))
            && (Replayed(m.replay) in actions <==>
                  var left := if writeSucceeds then translated else input;
                  && actions != [] && Quiet(w, hook, m.after.lastGeneration)
                  && w.controlIsCurrent(m.after.firstControl) && w.controlIsCurrent(m.after.secondControl)
                  && w.text(m.after.firstText) == Some(left) == w.text(m.after.secondText))
  {
    assert w.keydowns(m.before.lastGeneration) <= w.keydowns(m.after.lastGeneration);
    CheckMeansQuiet(w, input, hook, m.before);
    CheckMeansQuiet(w, if writeSucceeds then translated else input, hook, m.after);
  }
}
