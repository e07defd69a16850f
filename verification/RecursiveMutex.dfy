/** Recursive mutexes (`queue.c`): xQueueTakeMutexRecursive and xQueueGiveMutexRecursive.

    The recursion count is changed outside the critical sections in which the mutex is
    taken and given, so a take and a give are two steps each, and any task may run in
    between. */
module RecursiveMutex {

  type Task = nat

  datatype Holder = Nobody | Held(task: Task)

  datatype State = State(
    messagesWaiting: nat,     // 1: the mutex is free
    holder: Holder,           // xMutexHolder
    recursiveCallCount: int,
    taking: set<Task>,        // behind xQueueSemaphoreTake, before the count goes up
    giving: set<Task>)        // the count is back at 0, before xQueueGenericSend

  datatype Step =
    | TakeHeld(task: Task)    // the caller holds the mutex: only the count goes up
    | TakeFree(task: Task)    // the critical section of xQueueSemaphoreTake
    | TakeFailed(task: Task)
    | FinishTake(task: Task)
    | Give(task: Task)        // the count goes down
    | FinishGive(task: Task)  // the critical section of xQueueGenericSend
    | GiveFailed(task: Task)

  predicate Enabled(s: State, step: Step) {
    var t := step.task;
    if step.FinishTake? then t in s.taking
    else if step.FinishGive? then t in s.giving
    else
      && t !in s.taking && t !in s.giving
      && match step
         case TakeHeld(_) => s.holder == Held(t)
         case TakeFree(_) => s.holder != Held(t) && s.messagesWaiting > 0
         case TakeFailed(_) => s.holder != Held(t) && s.messagesWaiting == 0
         case Give(_) => s.holder == Held(t)
         case GiveFailed(_) => s.holder != Held(t)
  }

  function Next(s: State, step: Step): State
    requires Enabled(s, step)
  {
    var t := step.task;
    match step
    case TakeHeld(_) => s.(recursiveCallCount := s.recursiveCallCount + 1)
    case TakeFree(_) => s.(messagesWaiting := s.messagesWaiting - 1, holder := Held(t), taking := s.taking + {t})
    case FinishTake(_) => s.(recursiveCallCount := s.recursiveCallCount + 1, taking := s.taking - {t})
    case Give(_) =>
      var count := s.recursiveCallCount - 1;
      s.(recursiveCallCount := count, giving := if count == 0 then s.giving + {t} else s.giving)
    case FinishGive(_) =>
      var r := s.(giving := s.giving - {t});
      if s.messagesWaiting < 1 then r.(messagesWaiting := s.messagesWaiting + 1, holder := Nobody) else r
    case TakeFailed(_) => s
    case GiveFailed(_) => s
  }

  /** prvInitialiseMutex ends with a give. */
  const INITIAL: State := State(1, Nobody, 0, {}, {})

  ghost predicate Inv(s: State) {
    && s.messagesWaiting <= 1
    && (s.messagesWaiting == 0 <==> s.holder != Nobody)
    && (forall t :: t in s.taking || t in s.giving ==> s.holder == Held(t))
    && s.taking !! s.giving
    && (s.taking != {} || s.giving != {} || s.holder == Nobody ==> s.recursiveCallCount == 0)
    && (s.taking == {} && s.giving == {} && s.holder != Nobody ==> s.recursiveCallCount >= 1)
  }

  lemma StepKeepsInv(s: State, step: Step)
    requires Inv(s) && Enabled(s, step)
    ensures Inv(Next(s, step))
  {
    if step.FinishGive? {
      assert forall u :: u in s.giving ==> u == step.task;
    }
    if step.FinishTake? {
      assert forall u :: u in s.taking ==> u == step.task;
    }
  }

  ghost predicate IsRun(states: seq<State>, steps: seq<Step>) {
    && |states| == |steps| + 1 && states[0] == INITIAL
    && forall i :: 0 <= i < |steps| ==> Enabled(states[i], steps[i]) && states[i + 1] == Next(states[i], steps[i])
  }

  // ----------------------------------------------------------------- history

  /** One call of xQueueTakeMutexRecursive of `t` returned pdPASS with this step. */
  predicate Took(step: Step, t: Task) {
    step == TakeHeld(t) || step == FinishTake(t)
  }

  /** One call of xQueueGiveMutexRecursive of `t` returned pdPASS with this step. */
  predicate Gave(step: Step, t: Task, s: State)
  {
    step == FinishGive(t) || (step == Give(t) && s.recursiveCallCount != 1)
  }

  /** Takes minus gives of `t` in the first `n` steps. */
  function Balance(states: seq<State>, steps: seq<Step>, n: nat, t: Task): int
    requires n <= |steps| < |states|
  {
    if n == 0 then 0
    else
      Balance(states, steps, n - 1, t)
      + (if Took(steps[n - 1], t) then 1 else 0)
      - (if Gave(steps[n - 1], t, states[n - 1]) then 1 else 0)
  }

  /** What the state says about the takes of `t` that are not given back. */
  function Depth(s: State, t: Task): int {
    if s.holder == Held(t) then s.recursiveCallCount + (if t in s.giving then 1 else 0) else 0
  }

  lemma {:induction false} DepthIsBalance(states: seq<State>, steps: seq<Step>, n: nat, t: Task)
    requires IsRun(states, steps) && n <= |steps|
    ensures Inv(states[n])
    ensures Depth(states[n], t) == Balance(states, steps, n, t)
  {
    if n > 0 {
      DepthIsBalance(states, steps, n - 1, t);
      var s, step := states[n - 1], steps[n - 1];
      if step.FinishGive? {
        assert s.giving == {step.task} by {
          assert forall u :: u in s.giving ==> u == step.task;
        }
      }
      if step.FinishTake? {
        assert s.taking == {step.task} by {
          assert forall u :: u in s.taking ==> u == step.task;
        }
      }
    }
  }

  /** Over any run of any number of tasks: the mutex is empty exactly while a holder is
      recorded, and between calls the recursion count of the holder is its takes minus
      its gives, which are balanced for every other task. */
  lemma CountIsTakesMinusGives(states: seq<State>, steps: seq<Step>, n: nat, t: Task)
    requires IsRun(states, steps) && n <= |steps|
    ensures states[n].messagesWaiting == 0 <==> states[n].holder != Nobody
    ensures states[n].holder == Held(t) && t !in states[n].giving ==>
              states[n].recursiveCallCount == Balance(states, steps, n, t)
    ensures states[n].holder != Held(t) ==> Balance(states, steps, n, t) == 0
    ensures states[n].recursiveCallCount >= 0
  {
    DepthIsBalance(states, steps, n, t);
  }

  /** A free mutex is taken only when every task has given back all it took, so nobody
      else acquires it before the holder's depth is 0 again. */
  lemma AcquiredOnlyWhenAllGivenBack(states: seq<State>, steps: seq<Step>, n: nat, t: Task)
    requires IsRun(states, steps) && n < |steps| && steps[n].TakeFree?
    ensures Balance(states, steps, n, t) == 0 && states[n].recursiveCallCount == 0
  {
    DepthIsBalance(states, steps, n, t);
  }

  /** Mutual exclusion: at most one task has takes that it has not given back. */
  lemma OnlyOneHolder(states: seq<State>, steps: seq<Step>, n: nat, t: Task, u: Task)
    requires IsRun(states, steps) && n <= |steps|
    requires Balance(states, steps, n, t) > 0 && Balance(states, steps, n, u) > 0
    ensures t == u
  {
    DepthIsBalance(states, steps, n, t);
    DepthIsBalance(states, steps, n, u);
  }

  // ------------------------------------------------------ the calls themselves

  class Mutex {
    var messagesWaiting: nat
    var holder: Holder
    var recursiveCallCount: int
    var taking: set<Task>    // where the tasks stand; not fields of the source
    var giving: set<Task>

    function Abs(): State
      reads this
    {
      State(messagesWaiting, holder, recursiveCallCount, taking, giving)
    }

    /** xQueueCreateMutex */
    constructor ()
      ensures Abs() == INITIAL && Inv(Abs())
    {
      messagesWaiting, holder, recursiveCallCount := 1, Nobody, 0;
      taking, giving := {}, {};
    }

    /** xQueueTakeMutexRecursive without a block time, up to the change of the count. */
    method SemaphoreTake(t: Task) returns (taken: bool)
      requires Inv(Abs()) && holder != Held(t) && t !in taking && t !in giving
      modifies this
      ensures Inv(Abs()) && taken == (old(messagesWaiting) > 0)
      ensures Abs() == Next(old(Abs()), if taken then TakeFree(t) else TakeFailed(t))
    {
      taken := messagesWaiting > 0;
      if taken {
        messagesWaiting := messagesWaiting - 1;
        holder := Held(t);
        taking := taking + {t};
      }
    }

    /** xQueueTakeMutexRecursive without a block time, when nothing comes in between. */
    method TakeMutexRecursive(t: Task) returns (taken: bool)
      requires Inv(Abs()) && t !in taking && t !in giving
      modifies this
      ensures Inv(Abs())
      ensures taken <==> old(holder) == Held(t) || old(holder) == Nobody
      ensures Depth(Abs(), t) == Depth(old(Abs()), t) + if taken then 1 else 0
      ensures forall u :: u != t ==> Depth(Abs(), u) == Depth(old(Abs()), u)
      ensures taken ==> holder == Held(t)
    {
      if holder == Held(t) {
        recursiveCallCount := recursiveCallCount + 1;
        taken := true;
      } else {
        taken := SemaphoreTake(t);
        if taken {
          recursiveCallCount := recursiveCallCount + 1;
          taking := taking - {t};
        }
      }
    }

    /** xQueueGiveMutexRecursive, when nothing comes in between: only the holder gives, and
        the mutex is free again when the holder has given as often as it has taken. */
    method GiveMutexRecursive(t: Task) returns (given: bool)
      requires Inv(Abs()) && t !in taking && t !in giving
      modifies this
      ensures Inv(Abs())
      ensures given <==> old(holder) == Held(t)
      ensures Depth(Abs(), t) == Depth(old(Abs()), t) - if given then 1 else 0
      ensures forall u :: u != t ==> Depth(Abs(), u) == Depth(old(Abs()), u)
      ensures given ==> (holder == Nobody <==> old(recursiveCallCount) == 1)
    {
      given := holder == Held(t);
      if given {
        recursiveCallCount := recursiveCallCount - 1;
        if recursiveCallCount == 0 {
          holder := Nobody;
          messagesWaiting := messagesWaiting + 1;
        }
      }
    }

    /** Any steps of other tasks. */
    method OthersRun(t: Task)
      requires Inv(Abs())
      modifies this
      ensures Inv(Abs())
      ensures OthersRan(old(Abs()), Abs(), t)
    {
      ghost var s := Abs();
      var n: nat := *;
      while n > 0
        invariant Inv(Abs()) && OthersRan(s, Abs(), t)
      {
        var step: Step := *;
        if step.task != t && Enabled(Abs(), step) {
          OtherStep(Abs(), step, t);
          var next := Next(Abs(), step);
          messagesWaiting, holder, recursiveCallCount := next.messagesWaiting, next.holder, next.recursiveCallCount;
          taking, giving := next.taking, next.giving;
        }
        n := n - 1;
      }
    }

    /** xQueueTakeMutexRecursive with a block time, of which at most `rounds` rounds of the loop
        in xQueueSemaphoreTake are followed; other tasks run wherever they can. */
    method TakeMutexRecursiveWaiting(t: Task, rounds: nat) returns (outcome: Outcome)
      requires Inv(Abs()) && t !in taking && t !in giving
      modifies this
      ensures Inv(Abs()) && t !in taking && t !in giving
      ensures old(holder) == Held(t) ==> outcome == Taken
      ensures old(holder) == Nobody && rounds > 0 ==> outcome == Taken
      ensures Depth(Abs(), t) == Depth(old(Abs()), t) + if outcome == Taken then 1 else 0
      ensures outcome == Taken <==> holder == Held(t)
      ensures outcome == TimedOut ==> messagesWaiting == 0
    {
      if holder == Held(t) {
        recursiveCallCount := recursiveCallCount + 1;
        return Taken;
      }
      for round := 0 to rounds
        invariant Inv(Abs()) && holder != Held(t) && t !in taking && t !in giving
        invariant round == 0 ==> holder == old(holder)
        invariant round > 0 ==> old(holder) != Nobody
      {
        var taken := SemaphoreTake(t);
        OthersRun(t);
        if taken {
          recursiveCallCount := recursiveCallCount + 1;
          taking := taking - {t};
          return Taken;
        }
        var expired: bool := *;
        if expired && messagesWaiting == 0 {
          return TimedOut;
        }
        OthersRun(t);
      }
      outcome := StillWaiting;
    }
  }

  datatype Outcome = Taken | TimedOut | StillWaiting

  /** Whether `t` holds the mutex, how often and where it stands is its own business. */
  ghost predicate OthersRan(s: State, r: State, t: Task) {
    && (r.holder == Held(t) <==> s.holder == Held(t))
    && (s.holder == Held(t) ==> r.recursiveCallCount == s.recursiveCallCount && r.messagesWaiting == s.messagesWaiting)
    && (t in r.taking <==> t in s.taking) && (t in r.giving <==> t in s.giving)
  }

  lemma OtherStep(s: State, step: Step, t: Task)
    requires Inv(s) && Enabled(s, step) && step.task != t
    ensures Inv(Next(s, step)) && OthersRan(s, Next(s, step), t)
  {
    StepKeepsInv(s, step);
  }
}
