/** The saga orchestrator's in-place execution, proved against SagaModel. */
module SagaOrchestrator {
  import opened SagaModel

  const MAX_STEPS := 20

  /** Once visited, a step is passed over. */
  lemma RevisitSkips(before: Saga, after: Saga, i: nat, world: World)
    requires i < |before.steps| && after == UndoStep(before, i, world)
    ensures UndoFrom(after, i, world) == UndoFrom(before, i, world) == UndoFrom(after, i - 1, world)
    ensures !Undoable(after.steps[i])
  {
    assert UndoStep(after, i, world) == after;
  }

  lemma UndoDone(s: Saga, i: int, world: World)
    requires i < 0
    ensures UndoFrom(s, i, world) == s
  {
  }

  /**
   Step `i` was called until it succeeded or its retries were used up; it is
   completed or failed, and all else is as it was.
   */
  ghost predicate StepTried(before: Saga, after: Saga, i: nat, result: int) {
    && i < |before.steps| == |after.steps| && before.log < after.log
    && after.steps == before.steps[i := after.steps[i]] && SameAction(before.steps[i], after.steps[i])
    && (forall k :: |before.log| <= k < |after.log| - 1 ==> after.log[k].Executed? && after.log[k].result != 0)
    && after.log[|after.log| - 1] == Executed(i, result)
    && |after.log| - |before.log| <= Retries(before.steps[i]) + 1
    && if result == 0 then
         after.steps[i].status == Completed && after.current == i + 1 && after.status == before.status
       else
         && after.steps[i].status == Failed && after.current == before.current && after.status == SagaFailed
         && |after.log| - |before.log| == Retries(before.steps[i]) + 1
  }

  /**
   Each completed step up to `failed` that has a compensator got one call of it,
   later steps first; no other changed.
   */
  ghost predicate StepsUndone(before: Saga, after: Saga, failed: int) {
    && |after.steps| == |before.steps| && before.log <= after.log
    && after.status == SagaCompensated && after.current == before.current
    && BackwardTrace(after.log[|before.log|..])
    && (forall j {:trigger after.steps[j]} :: 0 <= j < |before.steps| && j <= failed ==>
          UndoOutcome(before.steps[j], after.steps[j], after.log[|before.log|..], j))
    && (forall j {:trigger after.steps[j]} :: 0 <= j < |before.steps| && j > failed ==>
          after.steps[j] == before.steps[j] && !Mentions(after.log[|before.log|..], j))
  }

  lemma StepIsTried(s: Saga, i: nat, world: World)
    requires i < |s.steps|
    ensures var t := TryStep(s, i, world); StepTried(s, t, i, LastResult(t))
  {
    hide Calls, Answers, TryStep;
    TryStepOutcome(s, i, world);
  }

  lemma TriedEnds(before: Saga, after: Saga, i: nat, result: int)
    requires StepTried(before, after, i, result)
    ensures before.log < after.log && after.log[|after.log| - 1] == Executed(i, result)
    ensures after.current == if result == 0 then i + 1 else before.current
  {
    hide SameAction;
  }

  lemma CompensateUndoes(s: Saga, failed: int, world: World)
    ensures StepsUndone(s, SagaModel.Compensate(s, failed, world), failed)
  {
    hide Calls, BackwardTrace, Answers, UndoOutcome, UndoFrom;
    var s' := s.(status := SagaCompensating);
    var start := Start(s, failed);
    if start >= 0 {
      UndoFromOutcome(s', start, world);
      var t := UndoFrom(s', start, world);
      NotMentioned(t.log[|s.log|..], start);
    } else {
      UndoDone(s', start, world);
      NothingUndone(s.log);
    }
  }

  lemma UndoneAfter(before: Saga, after: Saga, k: nat, failed: int)
    requires StepsUndone(before, after, failed) && k == |before.log| - 1
    ensures k < |after.log| && after.log[k] == before.log[k]
    ensures after.status == SagaCompensated && after.current == before.current
    ensures forall m :: k < m < |after.log| ==> after.log[m].Undone?
  {
    hide UndoOutcome, Mentions;
    forall m | k < m < |after.log| ensures after.log[m].Undone? {
      assert after.log[|before.log|..][m - |before.log|] == after.log[m];
    }
  }

  lemma NothingUndone(log: seq<Event>)
    ensures BackwardTrace(log[|log|..]) && forall j {:trigger Mentions(log[|log|..], j)} :: !Mentions(log[|log|..], j)
  {
    assert log[|log|..] == [];
  }

  class SagaInstance {
    const id: string
    /** What the n-th callback of this saga returns. */
    const world: World
    var steps: seq<Step>
    var currentStep: nat
    var status: SagaStatus
    /** The callbacks made so far. */
    var log: seq<Event>

    ghost function State(): Saga
      reads this
    {
      Saga(steps, currentStep, status, log)
    }

    constructor (id: string, world: World)
      ensures this.id == id && this.world == world
      ensures State() == Saga([], 0, SagaRunning, []) && Fresh(State())
    {
      this.id, this.world := id, world;
      steps, currentStep, status, log := [], 0, SagaRunning, [];
    }

    method AddStep(step: Step) returns (ok: bool)
      modifies this`steps
      ensures ok <==> |old(steps)| < MAX_STEPS
      ensures steps == old(steps) + if ok then [step] else []
    {
      if |steps| >= MAX_STEPS { return false; }
      steps := steps + [step];
      return true;
    }

    method Execute() returns (result: int)
      modifies this
      ensures State() == ExecuteFrom(old(State()), old(currentStep), world)
      ensures result == 0 <==> status == SagaCompleted
      ensures result == 0 ==> currentStep == if old(currentStep) > |steps| then old(currentStep) else |steps|
      ensures result != 0 ==>
                && status == SagaCompensated && currentStep < |steps|
                && exists k :: |old(log)| <= k < |log| && log[k] == Executed(currentStep, result)
                               && forall m :: k < m < |log| ==> log[m].Undone?
    {
      hide StepTried, StepsUndone, SagaModel.Compensate, TryStep;
      var i: nat := currentStep;
      while i < |steps|
        invariant ExecuteFrom(State(), i, world) == ExecuteFrom(old(State()), old(currentStep), world)
        invariant i == currentStep && |log| >= |old(log)| && (i <= |steps| || i == old(currentStep))
        decreases |steps| - i
      {
        ghost var before, t := State(), TryStep(State(), i, world);
        result := ExecuteStep(i);
        assert State() == t;
        TriedEnds(before, t, i, result);
        if result != 0 {
          ghost var k := |log| - 1;
          Compensate(i);
          UndoneAfter(t, State(), k, i);
          return;
        }
        i := i + 1;
      }
      status := SagaCompleted;
      return 0;
    }

    method ExecuteStep(index: int) returns (result: int)
      modifies this
      ensures !(0 <= index < |old(steps)|) ==> result == -1 && State() == old(State())
      ensures 0 <= index < |old(steps)| ==>
                State() == TryStep(old(State()), index, world) && result == LastResult(State())
      ensures 0 <= index < |old(steps)| ==> StepTried(old(State()), State(), index, result)
      decreases if 0 <= index < |steps| then Retries(steps[index]) else 0
    {
      if index < 0 || index >= |steps| { return -1; }
      StepIsTried(State(), index, world);
      hide StepTried;
      steps := steps[index := steps[index].(status := Executing)];
      result := world(|log|);
      log := log + [Executed(index, result)];
      if result == 0 {
        steps := steps[index := steps[index].(status := Completed)];
        currentStep := index + 1;
      } else {
        if CanRetry(steps[index]) {
          steps := steps[index := steps[index].(retryCount := steps[index].retryCount + 1)];
          assert steps == old(steps)[index := old(steps[index]).(
                   status := Executing, retryCount := steps[index].retryCount)];
          result := ExecuteStep(index);
          return;
        }
        steps := steps[index := steps[index].(status := Failed)];
        status := SagaFailed;
      }
    }

    /**
     A failed, retryable compensation steps its index back up; the revisit finds the
     step no longer completed and skips it.
     */
    method Compensate(failed: int)
      modifies this
      ensures State() == SagaModel.Compensate(old(State()), failed, world)
      ensures StepsUndone(old(State()), State(), failed)
    {
      CompensateUndoes(State(), failed, world);
      hide UndoFrom, StepsUndone;
      status := SagaCompensating;
      var i := failed;
      if i >= |steps| { i := |steps| - 1; }
      while i >= 0
        invariant i < |steps|
        invariant UndoFrom(State(), i, world)
               == UndoFrom(old(State()).(status := SagaCompensating), Start(old(State()), failed), world)
        decreases i, if 0 <= i < |steps| && Undoable(steps[i]) then 1 else 0
      {
        ghost var before, at := State(), i;
        if Undoable(steps[i]) {
          var result := world(|log|);
          log := log + [Undone(i, result)];
          if result == 0 {
            steps := steps[i := steps[i].(status := Compensated)];
          } else {
            steps := steps[i := steps[i].(status := Compensating, retryCount := steps[i].retryCount + 1)];
            if CanRetry(steps[i]) {
              i := i + 1;
            }
          }
        }
        RevisitSkips(before, State(), at, world);
        i := i - 1;
      }
      UndoDone(State(), i, world);
      status := SagaCompensated;
    }

    method Resume() returns (result: int)
      modifies this
      ensures old(status) != SagaRunning ==> result == -1 && State() == old(State())
      ensures old(status) == SagaRunning ==>
                State() == ExecuteFrom(old(State()), old(currentStep), world)
                    && (result == 0 <==> status == SagaCompleted)
    {
      if status != SagaRunning { return -1; }
      result := Execute();
    }
  }

  function Found(sagas: seq<SagaInstance>, id: string): (saga: SagaInstance?)
    ensures saga == null <==> forall s :: s in sagas ==> s.id != id
    ensures saga != null ==> saga in sagas && saga.id == id
    ensures saga != null ==>
              exists i :: 0 <= i < |sagas| && sagas[i] == saga && forall k :: 0 <= k < i ==> sagas[k].id != id
  {
    if sagas == [] then null
    else if sagas[0].id == id then sagas[0]
    else
      assert sagas == [sagas[0]] + sagas[1..];
      Found(sagas[1..], id)
  }

  class Orchestrator {
    var sagas: seq<SagaInstance>

    ghost predicate Valid()
      reads this
    {
      forall i, j :: 0 <= i < j < |sagas| ==> sagas[i] != sagas[j]
    }

    constructor ()
      ensures Valid() && sagas == []
    {
      sagas := [];
    }

    method Enqueue(saga: SagaInstance)
      requires Valid() && saga !in sagas
      modifies this
      ensures Valid() && sagas == old(sagas) + [saga]
    {
      sagas := sagas + [saga];
    }

    /** Runs every saga that has not ended; afterwards all of them have. */
    method Tick()
      requires Valid()
      modifies sagas
      ensures Valid() && sagas == old(sagas)
      ensures forall s :: s in sagas ==>
                && Terminal(s.status)
                && s.State() == if Terminal(old(s.status)) then old(s.State())
                                else ExecuteFrom(old(s.State()), old(s.currentStep), s.world)
    {
      var i := 0;
      while i < |sagas|
        invariant 0 <= i <= |sagas|
        invariant forall k :: i <= k < |sagas| ==> sagas[k].State() == old(sagas[k].State())
        invariant forall k :: 0 <= k < i ==>
                    && Terminal(sagas[k].status)
                    && sagas[k].State() == if Terminal(old(sagas[k].status)) then old(sagas[k].State())
                                           else ExecuteFrom(
                                             old(sagas[k].State()), old(sagas[k].currentStep), sagas[k].world)
      {
        if !Terminal(sagas[i].status) {
          var _ := sagas[i].Execute();
        }
        i := i + 1;
      }
    }

    method Find(id: string) returns (saga: SagaInstance?)
      ensures saga == Found(sagas, id)
    {
      var i := 0;
      while i < |sagas|
        invariant 0 <= i <= |sagas| && Found(sagas[i..], id) == Found(sagas, id)
      {
        if sagas[i].id == id { return sagas[i]; }
        i := i + 1;
      }
      return null;
    }

    /** Rolls back the first saga of that id unless it has ended; no later tick runs it. */
    method Cancel(id: string) returns (code: int)
      requires Valid()
      modifies sagas
      ensures sagas == old(sagas) && code in {0, -1, -2}
      ensures var s := Found(sagas, id);
              && (code == -1 <==> s == null)
              && (code == -2 <==> s != null && old(Terminal(s.status)))
              && (code == 0 ==>
                    && s.State() == SagaModel.Compensate(old(s.State()), old(s.currentStep), s.world)
                    && StepsUndone(old(s.State()), s.State(), old(s.currentStep)) && Terminal(s.status))
      ensures forall s :: s in sagas && (code != 0 || s != Found(sagas, id)) ==> s.State() == old(s.State())
    {
      hide SagaModel.Compensate, UndoFrom, BackwardTrace, UndoOutcome, Mentions;
      var saga := Find(id);
      if saga == null { return -1; }
      if Terminal(saga.status) { return -2; }
      saga.Compensate(saga.currentStep);
      return 0;
    }
  }
}
