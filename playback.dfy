/**
 * Playback of a recorded log. Three flags and a cursor make a small state
 * machine: `currentStep` indexes the log, `isStarted` says a run is on,
 * `isPaused` says it is held, and `ticking` says a timer interval is live.
 * The timer is not modelled as time: each firing is a call to Tick.
 */
module Playback {
  import opened StepLog
  import opened Engines

  /** The first index whose step carries exactly the tag `tag` (`findIndex` with `===`). */
  function FindIndex(steps: seq<Step>, tag: int): (r: Option<nat>)
    ensures r.Some? ==> r.value < |steps| && steps[r.value].iteration == Some(tag)
    ensures r.Some? ==> forall k :: 0 <= k < r.value ==> steps[k].iteration != Some(tag)
    ensures r.None? <==> forall k :: 0 <= k < |steps| ==> steps[k].iteration != Some(tag)
  {
    if steps == [] then None
    else if steps[0].iteration == Some(tag) then Some(0)
    else
      match FindIndex(steps[1..], tag)
      case None => None
      case Some(k) => Some(k + 1)
  }

  /** The iteration a step belongs to; a step without a tag counts as iteration 0 (`iteration || 0`). */
  function CurrentIteration(s: Step): int {
    s.iteration.GetOr(0)
  }

  class Player {
    var currentArray: seq<int>
    var algorithm: Algorithm
    var steps: seq<Step>
    var currentStep: int
    var isStarted: bool
    var isPaused: bool
    var ticking: bool

    /**
     * The cursor stays within the log or one past its end, a paused run is a
     * started one, and the timer only runs for a started run that is not paused.
     */
    ghost predicate Valid()
      reads this
    {
      && 0 <= currentStep <= |steps|
      && (isPaused ==> isStarted)
      && (ticking ==> isStarted && !isPaused)
    }

    /** The page as loaded: nothing recorded, nothing started. */
    constructor (alg: Algorithm)
      ensures Valid()
      ensures currentArray == [] && algorithm == alg && steps == [] && currentStep == 0
      ensures !isStarted && !isPaused && !ticking
    {
      currentArray, algorithm, steps := [], alg, [];
      currentStep := 0;
      isStarted, isPaused, ticking := false, false, false;
    }

    /** Picking another entry in the algorithm selector; nothing else changes until the next start. */
    method Select(alg: Algorithm)
      modifies this
      ensures algorithm == alg
      ensures currentArray == old(currentArray) && steps == old(steps) && currentStep == old(currentStep)
      ensures isStarted == old(isStarted) && isPaused == old(isPaused) && ticking == old(ticking)
    {
      algorithm := alg;
    }

    /**
     * Recomputes the log from the current array and rewinds to step 0. When
     * the log is empty the first step cannot be shown and the run does not
     * start; otherwise the timer starts and the run is marked started.
     */
    method StartVisualization()
      requires Valid() && !isPaused && Runnable(algorithm, currentArray)
      modifies this
      ensures Valid()
      ensures Runnable(algorithm, currentArray) && steps == Log(algorithm, currentArray) && currentStep == 0
      ensures |steps| > 0 ==> isStarted && ticking
      ensures |steps| == 0 ==> isStarted == old(isStarted) && ticking == old(ticking)
      ensures currentArray == old(currentArray) && algorithm == old(algorithm) && !isPaused
    {
      steps := Run(algorithm, currentArray);
      currentStep := 0;
      if |steps| > 0 {
        ticking := true;
        isStarted := true;
      }
    }

    /** The Start button: starts a run unless one is already on. */
    method StartClicked()
      requires Valid() && (!isStarted ==> Runnable(algorithm, currentArray))
      modifies this
      ensures Valid()
      ensures old(isStarted) ==> steps == old(steps) && currentStep == old(currentStep) && isStarted
                                 && isPaused == old(isPaused) && ticking == old(ticking)
      ensures !old(isStarted) ==> Runnable(algorithm, currentArray) && steps == Log(algorithm, currentArray) && currentStep == 0
                                  && (|steps| > 0 ==> isStarted && ticking) && !isPaused
                                  && (|steps| == 0 ==> isStarted == old(isStarted) && ticking == old(ticking))
      ensures currentArray == old(currentArray) && algorithm == old(algorithm)
    {
      if !isStarted {
        StartVisualization();
      }
    }

    /**
     * The Pause button, enabled only while a run is on. Pausing stops the
     * timer; resuming restarts the whole visualization, so the log is
     * recomputed and the cursor goes back to step 0.
     */
    method PauseClicked()
      requires Valid() && isStarted && (isPaused ==> Runnable(algorithm, currentArray))
      modifies this
      ensures Valid()
      ensures old(isPaused) ==> !isPaused && Runnable(algorithm, currentArray)
                                && steps == Log(algorithm, currentArray) && currentStep == 0
                                && (|steps| > 0 ==> ticking) && (|steps| == 0 ==> ticking == old(ticking)) && isStarted
      ensures !old(isPaused) ==> isPaused && !ticking && isStarted
                                 && steps == old(steps) && currentStep == old(currentStep)
      ensures currentArray == old(currentArray) && algorithm == old(algorithm)
    {
      if isPaused {
        isPaused := false;
        StartVisualization();
      } else {
        isPaused := true;
        ticking := false;
      }
    }

    /** Step back: only during a run with a non-empty log, and never below 0. */
    method PrevStep()
      requires Valid()
      modifies this
      ensures Valid()
      ensures currentStep == if old(isStarted) && |steps| > 0 && old(currentStep) > 0
                             then old(currentStep) - 1 else old(currentStep)
      ensures 0 <= currentStep
      ensures steps == old(steps) && currentArray == old(currentArray) && algorithm == old(algorithm)
      ensures isStarted == old(isStarted) && isPaused == old(isPaused) && ticking == old(ticking)
    {
      if !isStarted || |steps| == 0 {
        return;
      }
      if currentStep > 0 {
        currentStep := currentStep - 1;
      }
    }

    /** Step forward: only during a run with a non-empty log, and never past the last step. */
    method NextStep()
      requires Valid()
      modifies this
      ensures Valid()
      ensures currentStep == if old(isStarted) && |steps| > 0 && old(currentStep) < |steps| - 1
                             then old(currentStep) + 1 else old(currentStep)
      ensures currentStep != old(currentStep) ==> currentStep <= |steps| - 1
      ensures steps == old(steps) && currentArray == old(currentArray) && algorithm == old(algorithm)
      ensures isStarted == old(isStarted) && isPaused == old(isPaused) && ticking == old(ticking)
    {
      if !isStarted || |steps| == 0 {
        return;
      }
      if currentStep < |steps| - 1 {
        currentStep := currentStep + 1;
      }
    }

    /**
     * Jumps to the first step of the iteration `delta` away from the current
     * one (delta is -1 or +1), when there is such a step; otherwise stays.
     * Once the cursor has run past the last step there is no current step to
     * read a tag from, and nothing happens.
     */
    method JumpIteration(delta: int)
      requires Valid() && (delta == -1 || delta == 1)
      modifies this
      ensures Valid()
      ensures currentStep == if old(isStarted) && 0 < |steps| && old(currentStep) < |steps|
                                && FindIndex(steps, CurrentIteration(steps[old(currentStep)]) + delta).Some?
                             then FindIndex(steps, CurrentIteration(steps[old(currentStep)]) + delta).value
                             else old(currentStep)
      ensures currentStep != old(currentStep) ==>
                old(currentStep) < |steps| && currentStep < |steps|
                && steps[currentStep].iteration == Some(CurrentIteration(steps[old(currentStep)]) + delta)
                && forall k :: 0 <= k < currentStep ==> steps[k].iteration != steps[currentStep].iteration
      ensures steps == old(steps) && currentArray == old(currentArray) && algorithm == old(algorithm)
      ensures isStarted == old(isStarted) && isPaused == old(isPaused) && ticking == old(ticking)
    {
      if !isStarted || |steps| == 0 || currentStep >= |steps| {
        return;
      }
      var current := CurrentIteration(steps[currentStep]);
      var found := FindIndex(steps, current + delta);
      if found.Some? {
        currentStep := found.value;
      }
    }

    /** The previous-iteration button. */
    method PrevIteration()
      requires Valid()
      modifies this
      ensures Valid()
      ensures currentStep == if old(isStarted) && 0 < |steps| && old(currentStep) < |steps|
                                && FindIndex(steps, CurrentIteration(steps[old(currentStep)]) - 1).Some?
                             then FindIndex(steps, CurrentIteration(steps[old(currentStep)]) - 1).value
                             else old(currentStep)
      ensures currentStep != old(currentStep) ==>
                old(currentStep) < |steps| && currentStep < |steps|
                && steps[currentStep].iteration == Some(CurrentIteration(steps[old(currentStep)]) - 1)
      ensures steps == old(steps) && currentArray == old(currentArray) && algorithm == old(algorithm)
      ensures isStarted == old(isStarted) && isPaused == old(isPaused) && ticking == old(ticking)
    {
      JumpIteration(-1);
    }

    /** The next-iteration button. */
    method NextIteration()
      requires Valid()
      modifies this
      ensures Valid()
      ensures currentStep == if old(isStarted) && 0 < |steps| && old(currentStep) < |steps|
                                && FindIndex(steps, CurrentIteration(steps[old(currentStep)]) + 1).Some?
                             then FindIndex(steps, CurrentIteration(steps[old(currentStep)]) + 1).value
                             else old(currentStep)
      ensures currentStep != old(currentStep) ==>
                old(currentStep) < |steps| && currentStep < |steps|
                && steps[currentStep].iteration == Some(CurrentIteration(steps[old(currentStep)]) + 1)
      ensures steps == old(steps) && currentArray == old(currentArray) && algorithm == old(algorithm)
      ensures isStarted == old(isStarted) && isPaused == old(isPaused) && ticking == old(ticking)
    {
      JumpIteration(1);
    }

    /**
     * One firing of the timer: shows the current step and advances while
     * there is one and the run is not paused; otherwise the timer stops and
     * the run is over.
     */
    method Tick()
      requires Valid() && ticking
      modifies this
      ensures Valid()
      ensures old(currentStep) < |steps| && !isPaused ==> currentStep == old(currentStep) + 1 && isStarted && ticking
      ensures !(old(currentStep) < |steps| && !isPaused) ==> currentStep == old(currentStep) && !isStarted && !ticking
      ensures steps == old(steps) && currentArray == old(currentArray) && algorithm == old(algorithm)
      ensures isPaused == old(isPaused)
    {
      if currentStep < |steps| && !isPaused {
        currentStep := currentStep + 1;
      } else {
        ticking := false;
        isStarted := false;
      }
    }

    /** Back to the idle state: cursor at 0, not started, not paused, timer stopped; the log is kept. */
    method Reset()
      modifies this
      ensures Valid()
      ensures currentStep == 0 && !isStarted && !isPaused && !ticking
      ensures steps == old(steps) && currentArray == old(currentArray) && algorithm == old(algorithm)
    {
      currentStep := 0;
      isStarted := false;
      isPaused := false;
      ticking := false;
    }

    /** A best-case, worst-case or nearly sorted array replaces the current one, then the state is reset. */
    method Load(s: seq<int>)
      modifies this
      ensures Valid()
      ensures currentArray == s && currentStep == 0 && !isStarted && !isPaused && !ticking
      ensures steps == old(steps) && algorithm == old(algorithm)
    {
      currentArray := s;
      Reset();
    }
  }
}
