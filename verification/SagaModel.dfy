/**
 Sagas as values: what running, retrying and compensating do to the steps, and
 the trace of callbacks they leave. `world(n)` is what the n-th callback of the
 saga returns, so every run of every set of actions is some `world`.
 */
module SagaModel {

  datatype StepStatus = Pending | Executing | Completed | Compensating | Compensated | Failed

  datatype SagaStatus = SagaRunning | SagaCompleted | SagaCompensating | SagaCompensated | SagaFailed

  datatype Step = Step(name: string, undoable: bool, status: StepStatus, retryCount: int, maxRetries: int)

  datatype Event =
    | Executed(step: nat, result: int)
    | Undone(step: nat, result: int)

  datatype Saga = Saga(steps: seq<Step>, current: int, status: SagaStatus, log: seq<Event>)

  type World = nat -> int

  predicate CanRetry(step: Step) {
    step.retryCount < step.maxRetries
  }

  predicate Terminal(status: SagaStatus) {
    status in {SagaCompleted, SagaCompensated, SagaFailed}
  }

  /** The compensation pass acts on this step. */
  predicate Undoable(step: Step) {
    step.status == Completed && step.undoable
  }

  function Retries(step: Step): nat {
    if CanRetry(step) then step.maxRetries - step.retryCount else 0
  }

  // ------------------------------------------------------------- operations

  /** Executes step `i`, again and again while it fails and may be retried. */
  function TryStep(s: Saga, i: nat, world: World): (t: Saga)
    requires i < |s.steps|
    ensures |t.steps| == |s.steps| && |t.log| > |s.log|
    decreases Retries(s.steps[i])
  {
    var step := s.steps[i];
    var result := world(|s.log|);
    var log := s.log + [Executed(i, result)];
    if result == 0 then
      s.(steps := s.steps[i := step.(status := Completed)], current := i + 1, log := log)
    else if CanRetry(step) then
      var again := step.(status := Executing, retryCount := step.retryCount + 1);
      TryStep(s.(steps := s.steps[i := again], log := log), i, world)
    else
      s.(steps := s.steps[i := step.(status := Failed)], status := SagaFailed, log := log)
  }

  function LastResult(s: Saga): int
    requires s.log != []
  {
    s.log[|s.log| - 1].result
  }

  function UndoStep(s: Saga, i: nat, world: World): (t: Saga)
    requires i < |s.steps|
    ensures |t.steps| == |s.steps|
  {
    var step := s.steps[i];
    if !Undoable(step) then s else
    var result := world(|s.log|);
    var undone := if result == 0 then step.(status := Compensated)
                  else step.(status := Compensating, retryCount := step.retryCount + 1);
    s.(steps := s.steps[i := undone], log := s.log + [Undone(i, result)])
  }

  /** Visits the steps from `i` down to the first, each once. */
  function UndoFrom(s: Saga, i: int, world: World): (t: Saga)
    requires i < |s.steps|
    ensures |t.steps| == |s.steps|
    decreases i
  {
    if i < 0 then s else UndoFrom(UndoStep(s, i, world), i - 1, world)
  }

  function Start(s: Saga, failed: int): int {
    if failed >= |s.steps| then |s.steps| - 1 else failed
  }

  function Compensate(s: Saga, failed: int, world: World): (t: Saga)
    ensures |t.steps| == |s.steps| && t.status == SagaCompensated
  {
    UndoFrom(s.(status := SagaCompensating), Start(s, failed), world).(status := SagaCompensated)
  }

  function ExecuteFrom(s: Saga, i: nat, world: World): (t: Saga)
    ensures |t.steps| == |s.steps| && Terminal(t.status)
    decreases |s.steps| - i
  {
    if i >= |s.steps| then s.(status := SagaCompleted) else
    var t := TryStep(s, i, world);
    if LastResult(t) != 0 then Compensate(t, i, world) else ExecuteFrom(t, i + 1, world)
  }

  // ------------------------------------------------------------- statements

  ghost predicate Fresh(s: Saga) {
    && s.current == 0 && s.status == SagaRunning && s.log == []
    && forall j :: 0 <= j < |s.steps| ==> s.steps[j].status == Pending && s.steps[j].retryCount == 0
  }

  /** How often the trace executes step `j`. */
  ghost function Calls(log: seq<Event>, j: nat): nat {
    if log == [] then 0
    else Calls(log[..|log| - 1], j) + if log[|log| - 1].Executed? && log[|log| - 1].step == j then 1 else 0
  }

  /** The most executions a fresh step may get. */
  function Budget(step: Step): nat {
    (if step.maxRetries > 0 then step.maxRetries else 0) + 1
  }

  ghost predicate Answers(log: seq<Event>, world: World) {
    forall k {:trigger log[k]} :: 0 <= k < |log| ==> log[k].result == world(k)
  }

  /** Executions only, steps in order; only the last execution of a step succeeds, and it does if a later step ran. */
  ghost predicate ForwardTrace(log: seq<Event>) {
    && (forall a {:trigger log[a]} :: 0 <= a < |log| ==> log[a].Executed?)
    && (forall a, b {:trigger log[a], log[b]} :: 0 <= a < b < |log| ==> log[a].step <= log[b].step)
    && forall a {:trigger log[a].result} :: 0 <= a < |log| - 1 ==>
         (log[a].result == 0 <==> log[a].step < log[a + 1].step)
  }

  /** Compensations only, of strictly earlier and earlier steps. */
  ghost predicate BackwardTrace(log: seq<Event>) {
    && (forall a {:trigger log[a]} :: 0 <= a < |log| ==> log[a].Undone?)
    && forall a, b {:trigger log[a], log[b]} :: 0 <= a < b < |log| ==> log[a].step > log[b].step
  }

  ghost predicate Mentions(log: seq<Event>, j: nat) {
    exists a :: 0 <= a < |log| && log[a].step == j
  }

  ghost predicate UndoneWith(log: seq<Event>, j: nat, ok: bool) {
    exists a :: 0 <= a < |log| && log[a].step == j && log[a].Undone? && (log[a].result == 0) == ok
  }

  ghost predicate SameAction(a: Step, b: Step) {
    a.name == b.name && a.undoable == b.undoable && a.maxRetries == b.maxRetries
  }

  /** What compensating leaves of a step that was `before`. */
  ghost predicate UndoOutcome(before: Step, after: Step, undo: seq<Event>, j: nat) {
    && SameAction(before, after)
    && (Mentions(undo, j) <==> Undoable(before))
    && (Undoable(before) ==> after.status == if UndoneWith(undo, j, true) then Compensated else Compensating)
    && (!Undoable(before) ==> after == before)
  }

  // ---------------------------------------------------------------- lemmas

  lemma CallsPush(log: seq<Event>, e: Event)
    ensures forall j :: Calls(log + [e], j) == Calls(log, j) + if e.Executed? && e.step == j then 1 else 0
  {
    assert (log + [e])[..|log|] == log;
  }

  /** One step: it ends completed or, its retries used up, failed; nothing else changes. */
  lemma {:induction false} TryStepOutcome(s: Saga, i: nat, world: World)
    requires i < |s.steps|
    ensures var t := TryStep(s, i, world);
            && s.log <= t.log && (Answers(s.log, world) ==> Answers(t.log, world))
            && (forall k {:trigger t.log[k]} :: |s.log| <= k < |t.log| ==> t.log[k].Executed? && t.log[k].step == i)
            && (forall k {:trigger t.log[k].result} :: |s.log| <= k < |t.log| - 1 ==> t.log[k].result != 0)
            && t.steps == s.steps[i := t.steps[i]] && SameAction(s.steps[i], t.steps[i])
            && t.steps[i].status == (if LastResult(t) == 0 then Completed else Failed)
            && t.current == (if LastResult(t) == 0 then i + 1 else s.current)
            && t.status == (if LastResult(t) == 0 then s.status else SagaFailed)
    ensures var t := TryStep(s, i, world);
            && |t.log| - |s.log| <= Retries(s.steps[i]) + 1
            && (LastResult(t) != 0 ==> |t.log| - |s.log| == Retries(s.steps[i]) + 1)
            && (forall j :: Calls(t.log, j) == Calls(s.log, j) + if j == i then |t.log| - |s.log| else 0)
    decreases Retries(s.steps[i])
  {
    hide Calls;
    var step := s.steps[i];
    var result := world(|s.log|);
    var log := s.log + [Executed(i, result)];
    CallsPush(s.log, Executed(i, result));
    if result != 0 && CanRetry(step) {
      var again := step.(status := Executing, retryCount := step.retryCount + 1);
      TryStepOutcome(s.(steps := s.steps[i := again], log := log), i, world);
    }
  }

  /** The compensation pass: every undoable step once, in reverse; the rest as it was. */
  lemma {:induction false} UndoFromOutcome(s: Saga, i: int, world: World)
    requires -1 <= i < |s.steps|
    ensures var t := UndoFrom(s, i, world);
            && s.log <= t.log && (Answers(s.log, world) ==> Answers(t.log, world))
            && t.current == s.current && t.status == s.status
            && BackwardTrace(t.log[|s.log|..])
            && (forall a {:trigger t.log[a]} :: |s.log| <= a < |t.log| ==> t.log[a].step <= i)
            && (forall j {:trigger t.steps[j]} :: 0 <= j <= i ==>
                  UndoOutcome(s.steps[j], t.steps[j], t.log[|s.log|..], j))
            && (forall j {:trigger t.steps[j]} :: i < j < |s.steps| ==> t.steps[j] == s.steps[j])
            && (forall j :: Calls(t.log, j) == Calls(s.log, j))
    decreases i
  {
    if i >= 0 {
      hide Calls, Answers, UndoOutcome, BackwardTrace, Undoable;
      var u := UndoStep(s, i, world);
      UndoStepOutcome(s, i, world);
      UndoFromOutcome(u, i - 1, world);
      var t := UndoFrom(s, i, world);
      var first, rest := u.log[|s.log|..], t.log[|u.log|..];
      assert t.log[|s.log|..] == first + rest;
      assert forall a {:trigger rest[a]} :: 0 <= a < |rest| ==> rest[a] == t.log[|u.log| + a];
      BackwardJoins(first, rest, i);
      forall j {:trigger t.steps[j]} | 0 <= j <= i ensures UndoOutcome(s.steps[j], t.steps[j], t.log[|s.log|..], j) {
        if j < i {
          UndoOutcomeEarlier(s.steps[j], t.steps[j], first, rest, j);
        } else {
          UndoOutcomeHere(s.steps[j], t.steps[j], first, rest, j);
        }
      }
    } else {
      assert s.log[|s.log|..] == [];
    }
  }

  lemma BackwardJoins(first: seq<Event>, rest: seq<Event>, i: nat)
    requires |first| <= 1 && forall a {:trigger first[a]} :: 0 <= a < |first| ==>
              first[a].Undone? && first[a].step == i
    requires BackwardTrace(rest) && forall a {:trigger rest[a]} :: 0 <= a < |rest| ==> rest[a].step < i
    ensures BackwardTrace(first + rest)
  {
  }

  lemma UndoStepOutcome(s: Saga, i: nat, world: World)
    requires i < |s.steps|
    ensures var t := UndoStep(s, i, world);
            && s.log <= t.log && (Answers(s.log, world) ==> Answers(t.log, world))
            && t.current == s.current && t.status == s.status
            && (forall j {:trigger t.steps[j]} :: 0 <= j < |s.steps| && j != i ==> t.steps[j] == s.steps[j])
            && (forall a {:trigger t.log[a]} :: |s.log| <= a < |t.log| ==> t.log[a].Undone? && t.log[a].step == i)
            && |t.log| <= |s.log| + 1
            && UndoOutcome(s.steps[i], t.steps[i], t.log[|s.log|..], i)
            && (forall j :: Calls(t.log, j) == Calls(s.log, j))
  {
    var t := UndoStep(s, i, world);
    var e := Undone(i, world(|s.log|));
    CallsPush(s.log, e);
    if Undoable(s.steps[i]) {
      assert t.log[|s.log|..] == [e];
      assert [e][0].step == i;
    }
  }

  lemma UndoOutcomeEarlier(before: Step, after: Step, first: seq<Event>, rest: seq<Event>, j: nat)
    requires UndoOutcome(before, after, rest, j) && forall a {:trigger first[a]} :: 0 <= a < |first| ==>
              first[a].step != j
    ensures UndoOutcome(before, after, first + rest, j)
  {
    MentionsRest(first, rest, j);
  }

  lemma UndoOutcomeHere(before: Step, after: Step, first: seq<Event>, rest: seq<Event>, j: nat)
    requires UndoOutcome(before, after, first, j) && forall a {:trigger rest[a]} :: 0 <= a < |rest| ==>
              rest[a].step != j
    ensures UndoOutcome(before, after, first + rest, j)
  {
    MentionsFirst(first, rest, j);
  }

  lemma MentionsRest(first: seq<Event>, rest: seq<Event>, j: nat)
    requires forall a {:trigger first[a]} :: 0 <= a < |first| ==> first[a].step != j
    ensures Mentions(first + rest, j) == Mentions(rest, j)
    ensures UndoneWith(first + rest, j, true) == UndoneWith(rest, j, true)
  {
    forall a | 0 <= a < |rest| && rest[a].step == j
      ensures Mentions(first + rest, j)
                && (rest[a].Undone? && rest[a].result == 0 ==> UndoneWith(first + rest, j, true))
    {
      assert (first + rest)[|first| + a] == rest[a];
    }
  }

  lemma MentionsFirst(first: seq<Event>, rest: seq<Event>, j: nat)
    requires forall a {:trigger rest[a]} :: 0 <= a < |rest| ==> rest[a].step != j
    ensures Mentions(first + rest, j) == Mentions(first, j)
    ensures UndoneWith(first + rest, j, true) == UndoneWith(first, j, true)
  {
    forall a | 0 <= a < |first| && first[a].step == j
      ensures Mentions(first + rest, j)
                && (first[a].Undone? && first[a].result == 0 ==> UndoneWith(first + rest, j, true))
    {
      assert (first + rest)[a] == first[a];
    }
  }

  // ------------------------------------------------------------- whole runs

  ghost predicate DoneBefore(plan: seq<Step>, s: Saga, i: nat)
    requires i <= |s.steps| == |plan|
  {
    forall j :: 0 <= j < i ==>
      SameAction(plan[j], s.steps[j]) && s.steps[j].status == Completed && 1 <= Calls(s.log, j) <= Budget(plan[j])
  }

  ghost predicate UntouchedFrom(plan: seq<Step>, s: Saga, i: nat)
    requires i <= |s.steps| == |plan|
  {
    forall j :: i <= j < |plan| ==> s.steps[j] == plan[j] && Calls(s.log, j) == 0
  }

  /** Steps before `i` completed within their budgets, in order; the rest untouched. */
  ghost predicate Progress(plan: seq<Step>, s: Saga, i: nat) {
    && i <= |s.steps| == |plan| && s.current == i
    && ForwardTrace(s.log) && (s.log != [] ==> LastResult(s) == 0)
    && (forall k {:trigger s.log[k]} :: 0 <= k < |s.log| ==> s.log[k].step < i)
    && DoneBefore(plan, s, i) && UntouchedFrom(plan, s, i)
  }

  /** Every step completed, in order, each within its budget of executions; nothing was compensated. */
  ghost predicate AllDone(plan: seq<Step>, t: Saga) {
    t.status == SagaCompleted && Progress(plan, t, |plan|)
  }

  ghost predicate Exhausted(plan: seq<Step>, t: Saga, f: nat, cut: nat)
    requires f < |plan| == |t.steps| && 0 < cut <= |t.log|
  {
    && t.steps[f].status == Failed && Calls(t.log, f) == Budget(plan[f])
    && t.log[cut - 1].step == f && t.log[cut - 1].result != 0
  }

  /**
   What became of a step before the failed one: undone by one call if it has a
   compensator, otherwise left completed.
   */
  ghost predicate UndoneOnce(plan: Step, after: Step, undo: seq<Event>, j: nat) {
    && SameAction(plan, after)
    && (Mentions(undo, j) <==> plan.undoable)
    && after.status == (if !plan.undoable then Completed
                        else if UndoneWith(undo, j, true) then Compensated else Compensating)
  }

  /** Step `t.current` failed for good after `cut` callbacks; the steps before it were compensated in reverse. */
  ghost predicate RolledBack(plan: seq<Step>, t: Saga, cut: nat) {
    var f := t.current;
    && t.status == SagaCompensated && 0 <= f < |plan| == |t.steps| && 0 < cut <= |t.log|
    && ForwardTrace(t.log[..cut]) && BackwardTrace(t.log[cut..])
    && Exhausted(plan, t, f, cut)
    && (forall j :: 0 <= j < f ==>
          UndoneOnce(plan[j], t.steps[j], t.log[cut..], j) && 1 <= Calls(t.log, j) <= Budget(plan[j]))
    && (forall j :: f < j < |plan| ==>
          t.steps[j] == plan[j] && Calls(t.log, j) == 0 && !Mentions(t.log[cut..], j))
    && !Mentions(t.log[cut..], f)
  }

  lemma ForwardTraceGrows(log: seq<Event>, more: seq<Event>, i: nat)
    requires ForwardTrace(log) && (log != [] ==> log[|log| - 1].result == 0)
    requires forall k {:trigger log[k]} :: 0 <= k < |log| ==> log[k].step < i
    requires forall k {:trigger more[k]} :: 0 <= k < |more| ==> more[k].Executed? && more[k].step == i
    requires forall k {:trigger more[k].result} :: 0 <= k < |more| - 1 ==> more[k].result != 0
    ensures ForwardTrace(log + more)
  {
    var all := log + more;
    forall a {:trigger all[a].result} | 0 <= a < |all| - 1
      ensures all[a].result == 0 <==> all[a].step < all[a + 1].step
    {
      if a + 1 < |log| {
        assert all[a] == log[a] && all[a + 1] == log[a + 1];
      } else if a + 1 == |log| {
        assert all[a] == log[a] && all[a + 1] == more[0];
      } else {
        assert all[a] == more[a - |log|] && all[a + 1] == more[a + 1 - |log|];
      }
    }
  }

  ghost predicate Unstarted(plan: seq<Step>) {
    forall j {:trigger plan[j]} :: 0 <= j < |plan| ==> plan[j].status == Pending && plan[j].retryCount == 0
  }

  /** Running step `i` leaves the steps before and after it as they were. */
  lemma OthersStay(plan: seq<Step>, s: Saga, t: Saga, i: nat)
    requires i < |s.steps| == |plan| && |t.steps| == |s.steps| && t.steps == s.steps[i := t.steps[i]]
    requires forall j :: Calls(t.log, j) == Calls(s.log, j) + if j == i then |t.log| - |s.log| else 0
    requires DoneBefore(plan, s, i) && UntouchedFrom(plan, s, i)
    ensures DoneBefore(plan, t, i) && UntouchedFrom(plan, t, i + 1)
  {
    hide Calls, SameAction;
    forall j | 0 <= j < |plan| && j != i ensures t.steps[j] == s.steps[j] && Calls(t.log, j) == Calls(s.log, j) {
    }
  }

  /** The trace of a step that was tried follows that of the steps before it. */
  lemma TraceFollows(plan: seq<Step>, s: Saga, i: nat, world: World)
    requires Progress(plan, s, i) && Answers(s.log, world) && i < |plan|
    ensures ForwardTrace(TryStep(s, i, world).log)
    ensures forall k {:trigger TryStep(s, i, world).log[k]} :: 0 <= k < |TryStep(s, i, world).log| ==>
              TryStep(s, i, world).log[k].step <= i
  {
    hide Calls, ForwardTrace, Answers, TryStep, DoneBefore, UntouchedFrom, SameAction;
    var more := TriedEvents(s, i, world);
    ForwardTraceGrows(s.log, more, i);
  }

  lemma TriedEvents(s: Saga, i: nat, world: World) returns (more: seq<Event>)
    requires i < |s.steps|
    ensures TryStep(s, i, world).log == s.log + more
    ensures forall k {:trigger more[k]} :: 0 <= k < |more| ==> more[k].Executed? && more[k].step == i
    ensures forall k {:trigger more[k].result} :: 0 <= k < |more| - 1 ==> more[k].result != 0
  {
    hide Calls, Answers, TryStep, SameAction;
    TryStepOutcome(s, i, world);
    more := TryStep(s, i, world).log[|s.log|..];
  }

  /** A step that was tried: the others stay, and it had between one call and its budget, all of it if it failed. */
  lemma TriedOnce(plan: seq<Step>, s: Saga, i: nat, world: World)
    requires Unstarted(plan) && Progress(plan, s, i) && Answers(s.log, world) && i < |plan|
    ensures var t := TryStep(s, i, world);
            && DoneBefore(plan, t, i) && UntouchedFrom(plan, t, i + 1) && SameAction(plan[i], t.steps[i])
            && t.steps[i].status == (if LastResult(t) == 0 then Completed else Failed)
            && t.current == (if LastResult(t) == 0 then i + 1 else i)
            && 1 <= Calls(t.log, i) <= Budget(plan[i]) && (LastResult(t) != 0 ==> Calls(t.log, i) == Budget(plan[i]))
  {
    hide Calls, ForwardTrace, Answers, TryStep, DoneBefore, SameAction;
    TryStepOutcome(s, i, world);
    assert s.steps[i] == plan[i] && Calls(s.log, i) == 0;
    hide UntouchedFrom;
    OthersStay(plan, s, TryStep(s, i, world), i);
  }

  lemma OneMoreDone(plan: seq<Step>, t: Saga, i: nat)
    requires i < |t.steps| == |plan| && DoneBefore(plan, t, i)
    requires SameAction(plan[i], t.steps[i]) && t.steps[i].status == Completed
    requires 1 <= Calls(t.log, i) <= Budget(plan[i])
    ensures DoneBefore(plan, t, i + 1)
  {
    hide Calls, SameAction;
  }

  /** A successful step is one step of progress. */
  lemma SuccessAdvances(plan: seq<Step>, s: Saga, i: nat, world: World)
    requires Unstarted(plan) && Progress(plan, s, i) && Answers(s.log, world) && i < |plan|
    requires LastResult(TryStep(s, i, world)) == 0
    ensures Progress(plan, TryStep(s, i, world), i + 1)
  {
    hide Calls, ForwardTrace, Answers, TryStep, DoneBefore, UntouchedFrom, SameAction, Unstarted;
    TraceFollows(plan, s, i, world);
    TriedOnce(plan, s, i, world);
    OneMoreDone(plan, TryStep(s, i, world), i);
  }

  /** The saga right after step `i` failed for good. */
  ghost predicate Failing(plan: seq<Step>, t: Saga, i: nat) {
    && i < |t.steps| == |plan| && t.current == i && t.log != []
    && ForwardTrace(t.log) && Exhausted(plan, t, i, |t.log|)
    && DoneBefore(plan, t, i) && UntouchedFrom(plan, t, i + 1)
  }

  lemma FailureStops(plan: seq<Step>, s: Saga, i: nat, world: World)
    requires Unstarted(plan) && Progress(plan, s, i) && Answers(s.log, world) && i < |plan|
    requires LastResult(TryStep(s, i, world)) != 0
    ensures Failing(plan, TryStep(s, i, world), i)
  {
    hide Calls, ForwardTrace, Answers, TryStep, DoneBefore, UntouchedFrom, SameAction, Unstarted;
    TraceFollows(plan, s, i, world);
    TriedOnce(plan, s, i, world);
    LastStep(s, i, world);
  }

  lemma LastStep(s: Saga, i: nat, world: World)
    requires i < |s.steps|
    ensures var t := TryStep(s, i, world);
            t.log[|t.log| - 1].step == i
  {
    hide Calls, Answers, TryStep, SameAction;
    TryStepOutcome(s, i, world);
  }

  /** From the first failure on: the step's retries are used up, and the steps before it are rolled back. */
  lemma FailureRollsBack(plan: seq<Step>, t: Saga, i: nat, world: World)
    requires Failing(plan, t, i) && Answers(t.log, world)
    ensures var u := Compensate(t, i, world);
            RolledBack(plan, u, |t.log|) && Answers(u.log, world)
  {
    hide Calls, ForwardTrace, BackwardTrace, Answers, Mentions, UndoneWith, UndoFrom;
    var u0 := t.(status := SagaCompensating);
    UndoFromOutcome(u0, i, world);
    var u := Compensate(t, i, world);
    var undo := u.log[|t.log|..];
    assert u.log[..|t.log|] == t.log;
    NotMentioned(undo, i);
    forall j | 0 <= j <= i ensures UndoOutcome(t.steps[j], u.steps[j], undo, j) {
    }
  }

  lemma NotMentioned(undo: seq<Event>, i: nat)
    requires forall a {:trigger undo[a]} :: 0 <= a < |undo| ==> undo[a].step <= i
    ensures forall j {:trigger Mentions(undo, j)} :: j > i ==> !Mentions(undo, j)
  {
  }

  /** Whatever the actions answer, execution ends with every step completed or with the completed ones rolled back. */
  lemma {:induction false} ExecuteOutcome(plan: seq<Step>, s: Saga, i: nat, world: World) returns (cut: nat)
    requires Unstarted(plan) && Progress(plan, s, i) && s.status == SagaRunning && Answers(s.log, world)
    ensures var t := ExecuteFrom(s, i, world);
            Answers(t.log, world) && (AllDone(plan, t) || RolledBack(plan, t, cut))
    decreases |plan| - i
  {
    hide Calls, ForwardTrace, BackwardTrace, Answers, TryStep, Compensate, RolledBack, Failing;
    cut := 0;
    assert Unstarted(plan);
    if i < |s.steps| {
      TryStepOutcome(s, i, world);
      var t := TryStep(s, i, world);
      if LastResult(t) == 0 {
        SuccessAdvances(plan, s, i, world);
        cut := ExecuteOutcome(plan, t, i + 1, world);
      } else {
        cut := |t.log|;
        FailureStops(plan, s, i, world);
        FailureRollsBack(plan, t, i, world);
      }
    }
  }

  /** All or undone: any fresh saga, any answers of its actions. */
  lemma AllOrUndone(s: Saga, world: World) returns (cut: nat)
    requires Fresh(s)
    ensures var t := ExecuteFrom(s, 0, world);
            Answers(t.log, world) && (AllDone(s.steps, t) || RolledBack(s.steps, t, cut))
  {
    cut := ExecuteOutcome(s.steps, s, 0, world);
  }

  /**
   A saga reported as compensated has nothing left done exactly when every
   completed step had a compensator that succeeded.
   */
  lemma NothingLeftDoneIff(plan: seq<Step>, t: Saga, cut: nat)
    requires RolledBack(plan, t, cut)
    ensures (forall j :: 0 <= j < t.current ==> t.steps[j].status == Compensated)
       <==> (forall j :: 0 <= j < t.current ==> plan[j].undoable && UndoneWith(t.log[cut..], j, true))
  {
    hide Calls, ForwardTrace, BackwardTrace, Mentions, UndoneWith;
    forall j | 0 <= j < t.current
      ensures t.steps[j].status == Compensated <==> plan[j].undoable && UndoneWith(t.log[cut..], j, true)
    {
      assert UndoneOnce(plan[j], t.steps[j], t.log[cut..], j);
    }
  }

  /**
   A compensation that fails is not tried again, whatever retries the step has
   left, and the saga is reported compensated all the same.
   */
  lemma FailedCompensationStands()
    ensures var plan := [Step("reserve", true, Pending, 0, 5), Step("charge", true, Pending, 0, 0)];
            var t := ExecuteFrom(Saga(plan, 0, SagaRunning, []), 0, n => if n == 0 then 0 else 1);
            && t.status == SagaCompensated && t.steps[0].status == Compensating && CanRetry(t.steps[0])
            && t.log == [Executed(0, 0), Executed(1, 1), Undone(0, 1)]
  {
    var plan := [Step("reserve", true, Pending, 0, 5), Step("charge", true, Pending, 0, 0)];
    var world := (n: nat) => if n == 0 then 0 else 1;
    var s := Saga(plan, 0, SagaRunning, []);
    var s1 := TryStep(s, 0, world);
    assert s1 == Saga(plan[0 := plan[0].(status := Completed)], 1, SagaRunning, [Executed(0, 0)]);
    var s2 := TryStep(s1, 1, world);
    assert s2.log == [Executed(0, 0), Executed(1, 1)];
    assert s2.steps == [plan[0].(status := Completed), plan[1].(status := Failed)];
    var u := s2.(status := SagaCompensating);
    assert UndoStep(u, 1, world) == u;
    var v := UndoStep(u, 0, world);
    assert v.log == [Executed(0, 0), Executed(1, 1), Undone(0, 1)];
    assert UndoFrom(v, -1, world) == v;
    assert UndoFrom(u, 0, world) == v;
    assert UndoFrom(u, 1, world) == v;
    assert Compensate(s2, 1, world) == v.(status := SagaCompensated);
    assert ExecuteFrom(s1, 1, world) == Compensate(s2, 1, world);
  }
}
