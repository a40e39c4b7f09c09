/**
  * components/GuidedTour.tsx: the four-step introduction shown over the app. Its state is
  * one step index; the parent hears about index changes through an optional callback and
  * about the end of the tour through `onFinish`. Both callbacks are modelled as events
  * appended to a log.
  */
module GuidedTour {
  /** The number of steps in the tour. */
  const STEP_COUNT: nat := 4
  /** The index of the last step, `STEPS.length - 1`. */
  const LAST_STEP: nat := STEP_COUNT - 1

  /** A callback call: `onStepChange(index)` or `onFinish()`. */
  datatype TourEvent = StepChanged(index: nat) | Finished

  /** A button press. */
  datatype Action = Next | Back | Skip

  /** `isLast`. */
  predicate IsLast(index: nat) {
    index == STEP_COUNT - 1
  }

  /** The reference transition: the new index and the callbacks one press makes, with
      `reports` telling whether the parent passed `onStepChange`. */
  function Step(index: nat, action: Action, reports: bool): (nat, seq<TourEvent>) {
    match action
    case Next =>
      if IsLast(index) then (index, [Finished])
      else (index + 1, if reports then [StepChanged(index + 1)] else [])
    case Back =>
      if index == 0 then (0, [])
      else (index - 1, if reports then [StepChanged(index - 1)] else [])
    case Skip => (index, [Finished])
  }

  /** The index and the callbacks after a sequence of presses. */
  function Run(index: nat, actions: seq<Action>, reports: bool): (nat, seq<TourEvent>)
    decreases |actions|
  {
    if actions == [] then (index, [])
    else
      var (i, e) := Step(index, actions[0], reports);
      var (j, rest) := Run(i, actions[1..], reports);
      (j, e + rest)
  }

  /** One press keeps the index within the steps, and reports exactly the new index when
      it moves. */
  lemma StepSpec(index: nat, action: Action, reports: bool)
    requires index <= LAST_STEP
    ensures var (i, e) := Step(index, action, reports);
            && i <= LAST_STEP
            && (i != index ==> e == (if reports then [StepChanged(i)] else []))
            && (i == index ==> forall k :: StepChanged(k) !in e)
            && (Finished in e <==> action == Skip || (action == Next && IsLast(index)))
  {
  }

  /** No sequence of presses takes the index out of 0..3. */
  lemma {:induction false} RunBounded(index: nat, actions: seq<Action>, reports: bool)
    requires index <= LAST_STEP
    ensures Run(index, actions, reports).0 <= LAST_STEP
    decreases |actions|
  {
    if actions != [] {
      StepSpec(index, actions[0], reports);
      RunBounded(Step(index, actions[0], reports).0, actions[1..], reports);
    }
  }

  /** Back undoes Next before the last step, and Next undoes Back after the first. */
  lemma NextBackInverse(index: nat, reports: bool)
    requires index <= LAST_STEP
    ensures !IsLast(index) ==> Step(Step(index, Next, reports).0, Back, reports).0 == index
    ensures index > 0 ==> Step(Step(index, Back, reports).0, Next, reports).0 == index
  {
  }

  /** Pressing Next from any step reaches the last step within three presses, and a fourth
      finishes the tour. */
  lemma FourNextsFinish(index: nat, reports: bool)
    requires index <= LAST_STEP
    ensures Run(index, [Next, Next, Next], reports).0 == LAST_STEP
    ensures Finished in Run(index, [Next, Next, Next, Next], reports).1
  {
    var s1 := Step(index, Next, reports);
    var s2 := Step(s1.0, Next, reports);
    var s3 := Step(s2.0, Next, reports);
    var s4 := Step(s3.0, Next, reports);
    assert [Next, Next, Next][1..] == [Next, Next];
    assert [Next, Next][1..] == [Next];
    assert [Next][1..] == [];
    assert [Next, Next, Next, Next][1..] == [Next, Next, Next];
    assert s3.0 == LAST_STEP;
    assert Run(s3.0, [Next], reports) == (s4.0, s4.1 + []);
    assert Finished in s4.1;
  }

  class Tour {
    var stepIndex: nat
    var events: seq<TourEvent>
    const reportsSteps: bool

    predicate Valid()
      reads this
    {
      stepIndex <= LAST_STEP
    }

    /** The first render and the mount effect: the tour starts at step 0 and, when the
      parent listens, reports that index once. */
    constructor (reportsSteps: bool)
      ensures Valid()
      ensures this.reportsSteps == reportsSteps
      ensures stepIndex == 0
      ensures events == if reportsSteps then [StepChanged(0)] else []
    {
      this.reportsSteps := reportsSteps;
      stepIndex := 0;
      events := if reportsSteps then [StepChanged(0)] else [];
    }

    /** `next`: finish on the last step, else move one step on. */
    method Next()
      requires Valid()
      modifies this
      ensures Valid()
      ensures stepIndex == Step(old(stepIndex), Action.Next, reportsSteps).0
      ensures events == old(events) + Step(old(stepIndex), Action.Next, reportsSteps).1
    {
      if IsLast(stepIndex) {
        events := events + [Finished];
      } else {
        stepIndex := stepIndex + 1;
        if reportsSteps {
          events := events + [StepChanged(stepIndex)];
        }
      }
    }

    /** `back`: nothing on the first step, else move one step back. */
    method Back()
      requires Valid()
      modifies this
      ensures Valid()
      ensures stepIndex == Step(old(stepIndex), Action.Back, reportsSteps).0
      ensures events == old(events) + Step(old(stepIndex), Action.Back, reportsSteps).1
    {
      if stepIndex != 0 {
        stepIndex := stepIndex - 1;
        if reportsSteps {
          events := events + [StepChanged(stepIndex)];
        }
      }
    }

    /** `skip`: finish from any step. */
    method Skip()
      requires Valid()
      modifies this
      ensures Valid()
      ensures stepIndex == Step(old(stepIndex), Action.Skip, reportsSteps).0
      ensures events == old(events) + Step(old(stepIndex), Action.Skip, reportsSteps).1
    {
      events := events + [Finished];
    }
  }
}
