/** Blocking and waking on a queue (`queue.c`): tasks, interrupts and the lock that
    keeps interrupts away from the event lists while a task is about to block.

    Every critical section is one atomic step.  The two directions are symmetric:
    receivers wait for items, senders wait for free slots. */
module QueueWakeups {
  import opened KernelList

  /** Event lists are in priority order. */
  datatype Task = Task(id: nat, priority: nat)

  const UNLOCKED: int := -1
  const LOCKED_UNMODIFIED: int := 0
  const INT8_MAX: int := 127

  // --------------------------------------------------- one side of the queue

  /** The tasks of one direction.  `woken` are those that were removed from the
      event list and have not looked at the queue again.  `lock` counts what came
      in for this side while the queue was locked: it is cTxLock for receivers
      and cRxLock for senders. */
  datatype Side = Side(blocked: seq<Task>, woken: set<Task>, lock: int)

  /** The value that orders an event list: higher priorities come first. */
  function EventValues(list: seq<Task>, top: nat): (v: seq<nat>)
    requires forall t :: t in list ==> t.priority <= top
    ensures |v| == |list|
  {
    seq(|list|, i requires 0 <= i < |list| => assert list[i] in list; top - list[i].priority)
  }

  /** vTaskPlaceOnEventList */
  function Block(side: Side, t: Task, top: nat): Side
    requires t.priority <= top && forall u :: u in side.blocked ==> u.priority <= top
  {
    side.(blocked := Inserted(side.blocked, InsertionPoint(EventValues(side.blocked, top), top - t.priority), t))
  }

  /** xTaskRemoveFromEventList takes the head: the blocked task of highest priority. */
  function WakeOne(side: Side): Side {
    if side.blocked == [] then side
    else side.(blocked := side.blocked[1..], woken := side.woken + {side.blocked[0]})
  }

  function WakeMany(side: Side, n: nat): Side
    decreases n
  {
    if n == 0 || side.blocked == [] then side else WakeMany(WakeOne(side), n - 1)
  }

  /** What an interrupt does for the tasks of a side once it has moved an item:
      it wakes one, or, with the queue locked, leaves that to the unlocking task. */
  function PostFromISR(side: Side, tasks: nat): Side {
    if side.lock == UNLOCKED then WakeOne(side)
    else if side.lock < tasks then side.(lock := side.lock + 1)
    else side
  }

  /** One half of prvUnlockQueue. */
  function Unlock(side: Side): Side {
    (if side.lock > LOCKED_UNMODIFIED then WakeMany(side, side.lock) else side).(lock := UNLOCKED)
  }

  function Lock(side: Side): Side {
    if side.lock == UNLOCKED then side.(lock := LOCKED_UNMODIFIED) else side
  }

  function Rechecked(side: Side, t: Task): Side {
    side.(woken := side.woken - {t})
  }

  // ------------------------------------------------------------ the protocol

  datatype Direction = Receive | Send

  /** Where the task stands that has suspended the scheduler, if one has. */
  datatype Phase =
    | Running                              // nobody: tasks run
    | Locked(task: Task, dir: Direction)   // behind prvLockQueue
    | Blocking(task: Task, dir: Direction) // has seen the queue empty (full) and will block
    | Unlocking(task: Task)
    | HalfUnlocked(task: Task)             // between the two halves of prvUnlockQueue

  datatype State = State(
    length: nat, waiting: nat,
    receivers: Side, senders: Side,
    phase: Phase,
    tasks: set<Task>, top: nat)
  {
    function Free(): int { length - waiting }
  }

  datatype Step =
    | TaskSend(task: Task, overwrite: bool) // the critical section at the top of xQueueGenericSend
    | TaskReceive(task: Task)               // of xQueueReceive and xQueueSemaphoreTake
    | TaskPeek(task: Task)                  // of xQueuePeek
    | IsrSend(overwrite: bool)              // xQueueGenericSendFromISR, xQueueGiveFromISR
    | IsrReceive                            // xQueueReceiveFromISR
    | LockQueue(task: Task, dir: Direction) // vTaskSuspendAll and prvLockQueue
    | TimeOutExpired                        // xTaskCheckForTimeOut says so
    | CheckAgain                            // prvIsQueueEmpty or prvIsQueueFull
    | PlaceOnEventList
    | UnlockTx
    | UnlockRx
    | TickTimeOut(task: Task)               // the block time of a blocked task ends

  function AfterSend(s: State, overwrite: bool): nat {
    if overwrite && s.waiting > 0 then s.waiting else s.waiting + 1
  }

  predicate HasRoom(s: State, overwrite: bool) {
    s.waiting < s.length || overwrite
  }

  /** A task that runs and is not on its way back from being woken in the other direction. */
  ghost predicate MayUse(s: State, t: Task, dir: Direction) {
    && s.phase == Running && t in s.tasks
    && t !in s.receivers.blocked && t !in s.senders.blocked
    && (dir == Receive ==> t !in s.senders.woken)
    && (dir == Send ==> t !in s.receivers.woken)
  }

  ghost predicate Enabled(s: State, step: Step) {
    match step
    case TaskSend(t, overwrite) => MayUse(s, t, Send) && (overwrite ==> s.length == 1)
    case TaskReceive(t) => MayUse(s, t, Receive)
    case TaskPeek(t) => MayUse(s, t, Receive)
    case IsrSend(overwrite) => overwrite ==> s.length == 1
    case IsrReceive => true
    case LockQueue(t, dir) => MayUse(s, t, dir) && t !in s.receivers.woken && t !in s.senders.woken
    case TimeOutExpired => s.phase.Locked?
    case CheckAgain => s.phase.Locked?
    case PlaceOnEventList => s.phase.Blocking?
    case UnlockTx => s.phase.Unlocking?
    case UnlockRx => s.phase.HalfUnlocked?
    case TickTimeOut(t) => s.phase == Running && (t in s.receivers.blocked || t in s.senders.blocked)
  }

  function Without(list: seq<Task>, t: Task): seq<Task> {
    if list == [] then [] else if list[0] == t then list[1..] else [list[0]] + Without(list[1..], t)
  }

  function Next(s: State, step: Step): State
    requires WellFormed(s) && Enabled(s, step)
  {
    match step
    case TaskSend(t, overwrite) =>
      var r := s.(senders := Rechecked(s.senders, t));
      if HasRoom(s, overwrite)
      then r.(waiting := AfterSend(s, overwrite), receivers := WakeOne(s.receivers))
      else r
    case TaskReceive(t) =>
      var r := s.(receivers := Rechecked(s.receivers, t));
      if s.waiting > 0 then r.(waiting := s.waiting - 1, senders := WakeOne(s.senders)) else r
    case TaskPeek(t) =>
      var r := Rechecked(s.receivers, t);
      s.(receivers := if s.waiting > 0 then WakeOne(r) else r)
    case IsrSend(overwrite) =>
      if HasRoom(s, overwrite)
      then s.(waiting := AfterSend(s, overwrite), receivers := PostFromISR(s.receivers, |s.tasks|))
      else s
    case IsrReceive =>
      if s.waiting > 0
      then s.(waiting := s.waiting - 1, senders := PostFromISR(s.senders, |s.tasks|))
      else s
    case LockQueue(t, dir) =>
      s.(receivers := Lock(s.receivers), senders := Lock(s.senders), phase := Locked(t, dir))
    case TimeOutExpired =>
      s.(phase := Unlocking(s.phase.task))
    case CheckAgain =>
      var mustBlock := if s.phase.dir == Receive then s.waiting == 0 else s.waiting == s.length;
      s.(phase := if mustBlock then Blocking(s.phase.task, s.phase.dir) else Unlocking(s.phase.task))
    case PlaceOnEventList =>
      var r := s.(phase := Unlocking(s.phase.task));
      if s.phase.dir == Receive then r.(receivers := Block(s.receivers, s.phase.task, s.top))
      else r.(senders := Block(s.senders, s.phase.task, s.top))
    case UnlockTx =>
      s.(receivers := Unlock(s.receivers), phase := HalfUnlocked(s.phase.task))
    case UnlockRx =>
      s.(senders := Unlock(s.senders), phase := Running)
    case TickTimeOut(t) =>
      s.(receivers := s.receivers.(blocked := Without(s.receivers.blocked, t)),
         senders := s.senders.(blocked := Without(s.senders.blocked, t)))
  }

  // --------------------------------------------------------------- invariant

  ghost predicate WellFormedSide(side: Side, tasks: set<Task>, top: nat) {
    && (forall i, j :: 0 <= i < j < |side.blocked| ==> side.blocked[i] != side.blocked[j])
    && (forall t :: t in side.blocked ==> t in tasks && t !in side.woken)
    && (forall t :: t in side.blocked ==> t.priority <= top)
    && side.woken <= tasks
    && UNLOCKED <= side.lock <= |tasks|
  }

  ghost predicate Elsewhere(side: Side, t: Task) {
    t !in side.blocked && t !in side.woken
  }

  ghost predicate WellFormed(s: State) {
    && s.waiting <= s.length
    && (forall t :: t in s.tasks ==> t.priority <= s.top)
    && WellFormedSide(s.receivers, s.tasks, s.top) && WellFormedSide(s.senders, s.tasks, s.top)
    && (s.phase != Running ==> s.phase.task in s.tasks)
    && (s.phase.Locked? || s.phase.Blocking? ==>
          Elsewhere(s.receivers, s.phase.task) && Elsewhere(s.senders, s.phase.task))
    && (s.receivers.lock == UNLOCKED <==> s.phase == Running || s.phase.HalfUnlocked?)
    && (s.senders.lock == UNLOCKED <==> s.phase == Running)
  }

  /** Nobody can be blocked in vain: what is available for the side is spoken for by
      woken tasks, or recorded in the lock counter, unless that has hit its cap. */
  ghost predicate Covered(side: Side, available: int, tasks: nat) {
    available <= |side.woken| + (if side.lock == UNLOCKED then 0 else side.lock) || side.lock >= tasks
  }

  ghost predicate NoneForgotten(side: Side, available: int, tasks: nat) {
    side.blocked == [] || Covered(side, available, tasks)
  }

  ghost predicate Inv(s: State) {
    && WellFormed(s)
    && NoneForgotten(s.receivers, s.waiting, |s.tasks|)
    && NoneForgotten(s.senders, s.Free(), |s.tasks|)
    && (s.phase.Blocking? && s.phase.dir == Receive ==> Covered(s.receivers, s.waiting, |s.tasks|))
    && (s.phase.Blocking? && s.phase.dir == Send ==> Covered(s.senders, s.Free(), |s.tasks|))
  }

  // ---------------------------------------------------- what each action keeps

  lemma WakeOneKeeps(side: Side, available: int, tasks: set<Task>, top: nat)
    requires WellFormedSide(side, tasks, top) && NoneForgotten(side, available, |tasks|)
    ensures WellFormedSide(WakeOne(side), tasks, top) && WakeOne(side).lock == side.lock
    ensures NoneForgotten(WakeOne(side), available + 1, |tasks|)
    ensures side.blocked != [] ==> |WakeOne(side).woken| == |side.woken| + 1
    ensures forall t :: Elsewhere(side, t) ==> Elsewhere(WakeOne(side), t)
  {
    if side.blocked != [] {
      assert side.blocked[0] in side.blocked;
    }
  }

  lemma RecheckKeeps(side: Side, t: Task, available: int, tasks: set<Task>, top: nat)
    requires WellFormedSide(side, tasks, top) && NoneForgotten(side, available, |tasks|)
    ensures WellFormedSide(Rechecked(side, t), tasks, top)
    ensures NoneForgotten(Rechecked(side, t), available - 1, |tasks|)
    ensures available <= 0 ==> NoneForgotten(Rechecked(side, t), available, |tasks|)
  {
    assert |side.woken - {t}| >= |side.woken| - 1 by {
      if t in side.woken {
        assert side.woken == (side.woken - {t}) + {t};
      } else {
        assert side.woken == side.woken - {t};
      }
    }
  }

  lemma PostKeeps(side: Side, available: int, tasks: set<Task>, top: nat)
    requires WellFormedSide(side, tasks, top)
    ensures var r := PostFromISR(side, |tasks|);
            && WellFormedSide(r, tasks, top)
            && (r.lock == UNLOCKED <==> side.lock == UNLOCKED)
            && (NoneForgotten(side, available, |tasks|) ==> NoneForgotten(r, available + 1, |tasks|))
            && (side.lock != UNLOCKED && Covered(side, available, |tasks|) ==> Covered(r, available + 1, |tasks|))
            && (forall t :: Elsewhere(side, t) ==> Elsewhere(r, t))
  {
    if side.lock == UNLOCKED && NoneForgotten(side, available, |tasks|) {
      WakeOneKeeps(side, available, tasks, top);
    } else if side.lock == UNLOCKED {
      WakeOneKeeps(side, 0, tasks, top);
    }
  }

  /** The loop of prvUnlockQueue wakes one task per count, or all there are. */
  lemma {:induction false} WakeManyWakes(side: Side, n: nat, tasks: set<Task>, top: nat)
    requires WellFormedSide(side, tasks, top)
    ensures var r := WakeMany(side, n);
            && WellFormedSide(r, tasks, top) && r.lock == side.lock
            && (r.blocked == [] || |r.woken| == |side.woken| + n)
            && (n >= |side.blocked| ==> r.blocked == [])
            && (forall t :: Elsewhere(side, t) ==> Elsewhere(r, t))
    decreases n
  {
    if n > 0 && side.blocked != [] {
      WakeOneKeeps(side, 0, tasks, top);
      WakeManyWakes(WakeOne(side), n - 1, tasks, top);
    }
  }

  /** More tasks than there are cannot be blocked, which is why the counter may be capped. */
  lemma {:induction false} BlockedAreFew(list: seq<Task>, tasks: set<Task>)
    requires (forall i, j :: 0 <= i < j < |list| ==> list[i] != list[j]) && forall t :: t in list ==> t in tasks
    ensures |list| <= |tasks|
  {
    if list != [] {
      BlockedAreFew(list[1..], tasks - {list[0]});
    }
  }

  lemma UnlockKeeps(side: Side, available: int, tasks: set<Task>, top: nat)
    requires WellFormedSide(side, tasks, top) && NoneForgotten(side, available, |tasks|)
    ensures WellFormedSide(Unlock(side), tasks, top) && Unlock(side).lock == UNLOCKED
    ensures NoneForgotten(Unlock(side), available, |tasks|)
    ensures forall t :: Elsewhere(side, t) ==> Elsewhere(Unlock(side), t)
  {
    BlockedAreFew(side.blocked, tasks);
    if side.lock > 0 {
      WakeManyWakes(side, side.lock, tasks, top);
    }
  }

  lemma BlockKeeps(side: Side, t: Task, available: int, tasks: set<Task>, top: nat)
    requires WellFormedSide(side, tasks, top) && Covered(side, available, |tasks|)
    requires t in tasks && t.priority <= top && Elsewhere(side, t)
    ensures WellFormedSide(Block(side, t, top), tasks, top) && Block(side, t, top).lock == side.lock
    ensures NoneForgotten(Block(side, t, top), available, |tasks|)
  {
    InsertedMembers(side.blocked, InsertionPoint(EventValues(side.blocked, top), top - t.priority), t);
  }

  lemma {:induction false} WithoutKeeps(side: Side, t: Task, tasks: set<Task>, top: nat)
    requires WellFormedSide(side, tasks, top)
    ensures var r := side.(blocked := Without(side.blocked, t));
            && WellFormedSide(r, tasks, top) && t !in r.blocked
            && (forall u :: u in r.blocked ==> u in side.blocked)
            && (side.blocked == [] ==> r.blocked == [])
    decreases |side.blocked|
  {
    if side.blocked != [] && side.blocked[0] != t {
      var tail := side.(blocked := side.blocked[1..]);
      WithoutKeeps(tail, t, tasks, top);
      var rest := Without(tail.blocked, t);
      assert Without(side.blocked, t) == [side.blocked[0]] + rest;
      assert forall i :: 0 <= i < |rest| ==> rest[i] in side.blocked[1..];
      assert side.blocked[0] !in rest;
    }
  }

  // ------------------------------------------------------------- every run

  lemma TaskKeepsInv(s: State, step: Step)
    requires Inv(s) && Enabled(s, step) && (step.TaskSend? || step.TaskReceive? || step.TaskPeek?)
    ensures Inv(Next(s, step))
  {
    hide WakeOne, WellFormedSide;
    match step
    case TaskSend(t, overwrite) =>
      WakeOneKeeps(s.receivers, s.waiting, s.tasks, s.top);
      RecheckKeeps(s.senders, t, s.Free(), s.tasks, s.top);
    case TaskReceive(t) =>
      WakeOneKeeps(s.senders, s.Free(), s.tasks, s.top);
      RecheckKeeps(s.receivers, t, s.waiting, s.tasks, s.top);
    case TaskPeek(t) =>
      RecheckKeeps(s.receivers, t, s.waiting, s.tasks, s.top);
      WakeOneKeeps(Rechecked(s.receivers, t), s.waiting - 1, s.tasks, s.top);
  }

  lemma InterruptKeepsInv(s: State, step: Step)
    requires Inv(s) && Enabled(s, step) && (step.IsrSend? || step.IsrReceive?)
    ensures Inv(Next(s, step))
  {
    hide PostFromISR, WellFormedSide;
    if step.IsrReceive? {
      PostKeeps(s.senders, s.Free(), s.tasks, s.top);
    } else {
      PostKeeps(s.receivers, s.waiting, s.tasks, s.top);
    }
  }

  lemma BlockingKeepsInv(s: State, step: Step)
    requires Inv(s) && Enabled(s, step)
    requires !(step.TaskSend? || step.TaskReceive? || step.TaskPeek? || step.IsrSend? || step.IsrReceive?)
    ensures Inv(Next(s, step))
  {
    hide Unlock, Block, Without;
    match step
    case LockQueue(t, dir) =>
    case TimeOutExpired =>
    case CheckAgain =>
    case PlaceOnEventList =>
      var t := s.phase.task;
      if s.phase.dir == Receive {
        BlockKeeps(s.receivers, t, s.waiting, s.tasks, s.top);
      } else {
        BlockKeeps(s.senders, t, s.Free(), s.tasks, s.top);
      }
    case UnlockTx =>
      UnlockKeeps(s.receivers, s.waiting, s.tasks, s.top);
    case UnlockRx =>
      UnlockKeeps(s.senders, s.Free(), s.tasks, s.top);
    case TickTimeOut(t) =>
      WithoutKeeps(s.receivers, t, s.tasks, s.top);
      WithoutKeeps(s.senders, t, s.tasks, s.top);
  }

  lemma StepKeepsInv(s: State, step: Step)
    requires Inv(s) && Enabled(s, step)
    ensures Inv(Next(s, step))
  {
    hide Inv, Next, Enabled;
    if step.TaskSend? || step.TaskReceive? || step.TaskPeek? {
      TaskKeepsInv(s, step);
    } else if step.IsrSend? || step.IsrReceive? {
      InterruptKeepsInv(s, step);
    } else {
      BlockingKeepsInv(s, step);
    }
  }

  ghost predicate IsRun(states: seq<State>, steps: seq<Step>) {
    && |states| == |steps| + 1
    && Initial(states[0])
    && forall i :: 0 <= i < |steps| ==>
         WellFormed(states[i]) && Enabled(states[i], steps[i]) && states[i + 1] == Next(states[i], steps[i])
  }

  /** A new queue or semaphore: any number of items, nobody blocked, not locked. */
  ghost predicate Initial(s: State) {
    && s.waiting <= s.length && s.phase == Running
    && (forall t :: t in s.tasks ==> t.priority <= s.top)
    && s.receivers == Side([], {}, UNLOCKED) && s.senders == Side([], {}, UNLOCKED)
  }

  /** No lost wake-up, under every interleaving of tasks, interrupts and ticks: while the
      queue is not locked, a task is blocked to receive only if every item is meant for a
      woken receiver that has not looked yet, and likewise for senders and free slots. */
  lemma {:induction false} NoLostWakeUp(states: seq<State>, steps: seq<Step>, i: nat)
    requires IsRun(states, steps) && i < |states|
    ensures Inv(states[i])
    ensures states[i].phase == Running ==>
              && (states[i].receivers.blocked == [] || states[i].waiting <= |states[i].receivers.woken|)
              && (states[i].senders.blocked == [] || states[i].length - states[i].waiting <= |states[i].senders.woken|)
  {
    if i > 0 {
      NoLostWakeUp(states, steps, i - 1);
      StepKeepsInv(states[i - 1], steps[i - 1]);
    }
  }

  /** The lock counters are 8 bit signed; with at most 127 tasks they never overflow. */
  lemma LockCountersFit(states: seq<State>, steps: seq<Step>, i: nat)
    requires IsRun(states, steps) && i < |states| && |states[i].tasks| <= INT8_MAX
    ensures UNLOCKED <= states[i].receivers.lock <= INT8_MAX && UNLOCKED <= states[i].senders.lock <= INT8_MAX
  {
    NoLostWakeUp(states, steps, i);
  }

  // ------------------------------------------------- what becomes of a task

  function SideOf(s: State, dir: Direction): Side {
    if dir == Receive then s.receivers else s.senders
  }

  /** The first `n` of the event list are woken; the others stay, in their order. */
  ghost predicate Woke(was: Side, side: Side, n: nat) {
    && n <= |was.blocked| && side.blocked == was.blocked[n..]
    && forall t :: t in side.woken <==> t in was.woken || t in was.blocked[..n]
  }

  lemma WakeOneWakes(side: Side)
    ensures Woke(side, WakeOne(side), if side.blocked == [] then 0 else 1)
  {
    assert side.blocked != [] ==> side.blocked[..1] == [side.blocked[0]];
  }

  lemma {:induction false} WakeManyWakesTheFirst(side: Side, n: nat)
    ensures Woke(side, WakeMany(side, n), if n < |side.blocked| then n else |side.blocked|)
    decreases n
  {
    if n > 0 && side.blocked != [] {
      WakeManyWakesTheFirst(WakeOne(side), n - 1);
      WakeOneWakes(side);
      var k := if n < |side.blocked| then n else |side.blocked|;
      assert side.blocked[..k] == [side.blocked[0]] + side.blocked[1..][..k - 1];
    }
  }

  /** A timeout takes the task itself out, and nobody else. */
  lemma {:induction false} WithoutIsRemoved(list: seq<Task>, t: Task)
    ensures TakenOut(list, t, Without(list, t))
  {
    if list != [] && list[0] == t {
      assert list[1..] == Removed(list, 0);
    } else if list != [] {
      WithoutIsRemoved(list[1..], t);
      if t in list {
        var k :| 0 <= k < |list| - 1 && list[1..][k] == t && Without(list[1..], t) == Removed(list[1..], k);
        assert list[k + 1] == t && Without(list, t) == Removed(list, k + 1);
      }
    }
  }

  /** How many tasks of a side a step wakes. */
  function Wakes(s: State, step: Step, dir: Direction): nat {
    var side := SideOf(s, dir);
    var some := if side.blocked == [] then 0 else 1;
    match step
    case TaskSend(_, overwrite) => if dir == Receive && (s.waiting < s.length || overwrite) then some else 0
    case TaskReceive(_) => if dir == Send && s.waiting > 0 then some else 0
    case TaskPeek(_) => if dir == Receive && s.waiting > 0 then some else 0
    case IsrSend(overwrite) =>
      if dir == Receive && (s.waiting < s.length || overwrite) && side.lock == UNLOCKED then some else 0
    case IsrReceive => if dir == Send && s.waiting > 0 && side.lock == UNLOCKED then some else 0
    case UnlockTx => if dir == Receive then AtMost(side.lock, |side.blocked|) else 0
    case UnlockRx => if dir == Send then AtMost(side.lock, |side.blocked|) else 0
    case _ => 0
  }

  function AtMost(n: int, limit: nat): nat {
    if n < 0 then 0 else if n < limit then n else limit
  }

  /** The task that looks at the queue again with a step. */
  predicate LooksAgain(step: Step, t: Task, dir: Direction) {
    match step
    case TaskSend(u, _) => dir == Send && u == t
    case TaskReceive(u) => dir == Receive && u == t
    case TaskPeek(u) => dir == Receive && u == t
    case _ => false
  }

  /** An event list after a step: a task that blocks is put behind all of no lower priority, a
      timeout takes out its own task, and otherwise just the first are woken. */
  ghost predicate ListAfter(s: State, step: Step, dir: Direction, list: seq<Task>)
    requires step.PlaceOnEventList? ==> s.phase.Blocking?
  {
    var was := SideOf(s, dir).blocked;
    if step.TickTimeOut? then TakenOut(was, step.task, list)
    else if step.PlaceOnEventList? && s.phase.dir == dir then
      exists k :: PlacedAt(was, s.phase.task, k, list)
    else Wakes(s, step, dir) <= |was| && list == was[Wakes(s, step, dir)..]
  }

  ghost predicate PlacedAt(was: seq<Task>, t: Task, k: nat, list: seq<Task>) {
    && k <= |was| && list == Inserted(was, k, t)
    && (forall i :: 0 <= i < k ==> was[i].priority >= t.priority)
    && (k < |was| ==> was[k].priority < t.priority)
  }

  /** Exactly this becomes of the tasks of a side. */
  lemma SideAfter(s: State, step: Step, dir: Direction)
    requires Inv(s) && Enabled(s, step)
    ensures WellFormed(s) && (step.PlaceOnEventList? ==> s.phase.Blocking?)
    ensures ListAfter(s, step, dir, SideOf(Next(s, step), dir).blocked)
    ensures Wakes(s, step, dir) <= |SideOf(s, dir).blocked|
    ensures WokenAfter(s, step, dir, SideOf(Next(s, step), dir).woken)
  {
    hide Inv, Next, Wakes, ListAfter, WokenAfter, LooksAgain, WellFormed;
    InvIsWellFormed(s);
    if step.TaskSend? || step.TaskReceive? || step.TaskPeek? {
      SideAfterTask(s, step, dir);
    } else if step.IsrSend? || step.IsrReceive? {
      SideAfterInterrupt(s, step, dir);
    } else if step.UnlockTx? || step.UnlockRx? {
      SideAfterUnlock(s, step, dir);
    } else {
      SideAfterBlocking(s, step, dir);
    }
  }

  ghost predicate WokenAfter(s: State, step: Step, dir: Direction, woken: set<Task>)
    requires Wakes(s, step, dir) <= |SideOf(s, dir).blocked|
  {
    var side := SideOf(s, dir);
    forall t :: t in woken <==>
      (t in side.woken && !LooksAgain(step, t, dir)) || t in side.blocked[..Wakes(s, step, dir)]
  }

  lemma SideAfterTask(s: State, step: Step, dir: Direction)
    requires WellFormed(s) && Enabled(s, step) && (step.TaskSend? || step.TaskReceive? || step.TaskPeek?)
    ensures ListAfter(s, step, dir, SideOf(Next(s, step), dir).blocked)
    ensures Wakes(s, step, dir) <= |SideOf(s, dir).blocked|
    ensures WokenAfter(s, step, dir, SideOf(Next(s, step), dir).woken)
  {
    hide WellFormedSide, WakeOne, MayUse;
    var side := SideOf(s, dir);
    WakeOneWakes(side);
    NoneWoken(side);
    if step.TaskPeek? {
      WakeOneWakes(Rechecked(side, step.task));
    }
  }

  lemma SideAfterInterrupt(s: State, step: Step, dir: Direction)
    requires WellFormed(s) && Enabled(s, step) && (step.IsrSend? || step.IsrReceive?)
    ensures ListAfter(s, step, dir, SideOf(Next(s, step), dir).blocked)
    ensures Wakes(s, step, dir) <= |SideOf(s, dir).blocked|
    ensures WokenAfter(s, step, dir, SideOf(Next(s, step), dir).woken)
  {
    hide WellFormedSide, WakeOne;
    WakeOneWakes(SideOf(s, dir));
    NoneWoken(SideOf(s, dir));
  }

  lemma SideAfterUnlock(s: State, step: Step, dir: Direction)
    requires WellFormed(s) && Enabled(s, step) && (step.UnlockTx? || step.UnlockRx?)
    ensures ListAfter(s, step, dir, SideOf(Next(s, step), dir).blocked)
    ensures Wakes(s, step, dir) <= |SideOf(s, dir).blocked|
    ensures WokenAfter(s, step, dir, SideOf(Next(s, step), dir).woken)
  {
    hide WellFormedSide, WakeMany;
    var side := SideOf(s, dir);
    NoneWoken(side);
    if side.lock > 0 {
      WakeManyWakesTheFirst(side, side.lock);
    }
  }

  lemma SideAfterBlocking(s: State, step: Step, dir: Direction)
    requires WellFormed(s) && Enabled(s, step)
    requires step.LockQueue? || step.TimeOutExpired? || step.CheckAgain? || step.PlaceOnEventList? || step.TickTimeOut?
    ensures ListAfter(s, step, dir, SideOf(Next(s, step), dir).blocked)
    ensures Wakes(s, step, dir) <= |SideOf(s, dir).blocked|
    ensures WokenAfter(s, step, dir, SideOf(Next(s, step), dir).woken)
  {
    hide Block, Without, PlacedAt, MayUse;
    var side := SideOf(s, dir);
    NoneWoken(side);
    if step.TickTimeOut? {
      WithoutIsRemoved(side.blocked, step.task);
    } else if step.PlaceOnEventList? {
      BlockPlaces(side, s.phase.task, s.top);
    }
  }

  lemma NoneWoken(side: Side)
    ensures side.blocked[0..] == side.blocked && side.blocked[..0] == []
  {
  }

  lemma BlockPlaces(side: Side, t: Task, top: nat)
    requires t.priority <= top && forall u :: u in side.blocked ==> u.priority <= top
    ensures exists k :: PlacedAt(side.blocked, t, k, Block(side, t, top).blocked)
    ensures Block(side, t, top).woken == side.woken
  {
    var v := EventValues(side.blocked, top);
    var k := InsertionPoint(v, top - t.priority);
    assert forall i :: 0 <= i < |v| ==> v[i] == top - side.blocked[i].priority by {
      assert forall i :: 0 <= i < |v| ==> side.blocked[i] in side.blocked;
    }
    assert forall i :: 0 <= i < k ==> v[i] <= top - t.priority;
    assert k < |v| ==> top - t.priority < v[k];
    assert PlacedAt(side.blocked, t, k, Block(side, t, top).blocked);
  }

  /** A task stays in its event list until it is woken or its own block time ends. */
  lemma StaysOrIsWoken(s: State, step: Step, dir: Direction, t: Task)
    requires Inv(s) && Enabled(s, step) && t in SideOf(s, dir).blocked
    ensures WellFormed(s)
    ensures t in SideOf(Next(s, step), dir).blocked || t in SideOf(Next(s, step), dir).woken || step == TickTimeOut(t)
  {
    hide Inv, Next, Enabled, Wakes, WellFormed, ListAfter;
    SideAfter(s, step, dir);
    StaysInList(s, step, dir, SideOf(Next(s, step), dir).blocked, t);
  }

  lemma StaysInList(s: State, step: Step, dir: Direction, list: seq<Task>, t: Task)
    requires WellFormed(s) && (step.PlaceOnEventList? ==> s.phase.Blocking?) && ListAfter(s, step, dir, list)
    requires t in SideOf(s, dir).blocked && Wakes(s, step, dir) <= |SideOf(s, dir).blocked|
    ensures t in list || t in SideOf(s, dir).blocked[..Wakes(s, step, dir)] || step == TickTimeOut(t)
  {
    hide WellFormed, Wakes, TakenOut, PlacedAt;
    var was, n := SideOf(s, dir).blocked, Wakes(s, step, dir);
    if step.TickTimeOut? {
      assert forall i, j :: 0 <= i < j < |was| ==> was[i] != was[j] by { Distinct(s, dir); }
      if step.task != t {
        OthersStayIn(was, step.task, list, t);
      }
    } else if step.PlaceOnEventList? && s.phase.dir == dir {
      AllStayIn(was, s.phase.task, list, t);
    } else {
      assert was == was[..n] + was[n..];
    }
  }

  lemma OthersStayIn(was: seq<Task>, u: Task, list: seq<Task>, t: Task)
    requires (forall i, j :: 0 <= i < j < |was| ==> was[i] != was[j]) && TakenOut(was, u, list) && t in was && t != u
    ensures t in list
  {
    hide Removed;
    if u in was {
      var k :| 0 <= k < |was| && was[k] == u && list == Removed(was, k);
      RemovedMembers(was, k);
    }
  }

  lemma AllStayIn(was: seq<Task>, u: Task, list: seq<Task>, t: Task)
    requires (exists k :: PlacedAt(was, u, k, list)) && t in was
    ensures t in list
  {
    hide Inserted;
    var k :| PlacedAt(was, u, k, list);
    InsertedMembers(was, k, u);
  }

  lemma Distinct(s: State, dir: Direction)
    requires WellFormed(s)
    ensures forall i, j :: 0 <= i < j < |SideOf(s, dir).blocked| ==>
              SideOf(s, dir).blocked[i] != SideOf(s, dir).blocked[j]
    ensures forall t :: t in SideOf(s, dir).blocked ==> t !in SideOf(s, dir).woken
  {
  }

  /** Over any run, whatever else happens to the queue: a task that was put on an event list is in
      it until it is woken or its own block time ends. */
  lemma {:induction false} StaysUntilWoken(states: seq<State>, steps: seq<Step>, i: nat, j: nat, dir: Direction,
                                           t: Task)
    requires IsRun(states, steps) && i <= j < |states| && t in SideOf(states[i], dir).blocked
    requires forall k :: i <= k < j ==> steps[k] != TickTimeOut(t)
    requires forall k :: i < k <= j ==> t !in SideOf(states[k], dir).woken
    ensures t in SideOf(states[j], dir).blocked
    decreases j
  {
    hide Inv, Next, Enabled, WellFormed;
    if i < j {
      StaysUntilWoken(states, steps, i, j - 1, dir, t);
      NoLostWakeUp(states, steps, j - 1);
      StaysOrIsWoken(states[j - 1], steps[j - 1], dir, t);
    }
  }

  ghost predicate ByPriority(list: seq<Task>) {
    forall i, j :: 0 <= i < j < |list| ==> list[i].priority >= list[j].priority
  }

  lemma StepKeepsOrder(s: State, step: Step, dir: Direction)
    requires Inv(s) && Enabled(s, step) && ByPriority(SideOf(s, dir).blocked)
    ensures WellFormed(s)
    ensures ByPriority(SideOf(Next(s, step), dir).blocked)
  {
    hide Inv, Next, Enabled, Wakes, WellFormed, ListAfter, ByPriority;
    SideAfter(s, step, dir);
    ListKeepsOrder(s, step, dir, SideOf(Next(s, step), dir).blocked);
  }

  lemma ListKeepsOrder(s: State, step: Step, dir: Direction, list: seq<Task>)
    requires (step.PlaceOnEventList? ==> s.phase.Blocking?) && ListAfter(s, step, dir, list)
    requires ByPriority(SideOf(s, dir).blocked)
    ensures ByPriority(list)
  {
    hide Wakes, InsertionPoint;
    var was := SideOf(s, dir).blocked;
    if step.TickTimeOut? && step.task in was {
      var k :| 0 <= k < |was| && was[k] == step.task && list == Removed(was, k);
    } else if step.PlaceOnEventList? && s.phase.dir == dir {
      var k :| PlacedAt(was, s.phase.task, k, list);
      InsertedByPriority(was, k, s.phase.task);
    }
  }

  lemma InsertedByPriority(was: seq<Task>, k: nat, t: Task)
    requires k <= |was| && ByPriority(was) && PlacedAt(was, t, k, Inserted(was, k, t))
    ensures ByPriority(Inserted(was, k, t))
  {
  }

  lemma {:induction false} ListsAreInOrder(states: seq<State>, steps: seq<Step>, i: nat, dir: Direction)
    requires IsRun(states, steps) && i < |states|
    ensures ByPriority(SideOf(states[i], dir).blocked)
  {
    hide Inv, Next, Enabled, WellFormed;
    if i > 0 {
      ListsAreInOrder(states, steps, i - 1, dir);
      NoLostWakeUp(states, steps, i - 1);
      StepKeepsOrder(states[i - 1], steps[i - 1], dir);
    }
  }

  /** Over any run: whoever a step wakes has at least the priority of everybody it leaves blocked;
      among equals it is the one that stands in front. */
  lemma HighestIsWokenFirst(states: seq<State>, steps: seq<Step>, i: nat, dir: Direction, a: nat, b: nat)
    requires IsRun(states, steps) && i < |steps|
    requires var was, side := SideOf(states[i], dir), SideOf(states[i + 1], dir);
             && a < |was.blocked| && b < |was.blocked|
             && was.blocked[a] in side.woken && was.blocked[b] in side.blocked
    ensures a < b && SideOf(states[i], dir).blocked[a].priority >= SideOf(states[i], dir).blocked[b].priority
  {
    hide Inv, Next, Enabled, Wakes, WellFormed, ListAfter;
    ListsAreInOrder(states, steps, i, dir);
    NoLostWakeUp(states, steps, i);
    SideAfter(states[i], steps[i], dir);
    OnlyTheFirstLeave(states[i], steps[i], dir, SideOf(states[i + 1], dir).blocked, a, b);
  }

  lemma OnlyTheFirstLeave(s: State, step: Step, dir: Direction, list: seq<Task>, a: nat, b: nat)
    requires WellFormed(s) && (step.PlaceOnEventList? ==> s.phase.Blocking?) && ListAfter(s, step, dir, list)
    requires Wakes(s, step, dir) <= |SideOf(s, dir).blocked|
    requires a < |SideOf(s, dir).blocked| && b < |SideOf(s, dir).blocked|
    requires SideOf(s, dir).blocked[b] in list
    requires SideOf(s, dir).blocked[a] in SideOf(s, dir).woken ||
      SideOf(s, dir).blocked[a] in SideOf(s, dir).blocked[..Wakes(s, step, dir)]
    ensures a < b
  {
    hide WellFormed, Inserted, Removed, InsertionPoint, PlacedAt;
    Distinct(s, dir);
    var was, n := SideOf(s, dir).blocked, Wakes(s, step, dir);
    assert was[a] in was;
    var k :| 0 <= k < n && was[k] == was[a];
    assert list == was[n..];
    var j :| 0 <= j < |list| && list[j] == was[b];
    assert was[n + j] == was[b];
  }

  /** What a step adds to the items, or takes away. */
  function Moved(s: State, step: Step): int {
    match step
    case TaskSend(_, overwrite) => if s.waiting < s.length || (overwrite && s.waiting == 0) then 1 else 0
    case IsrSend(overwrite) => if s.waiting < s.length || (overwrite && s.waiting == 0) then 1 else 0
    case TaskReceive(_) => if s.waiting > 0 then -1 else 0
    case IsrReceive => if s.waiting > 0 then -1 else 0
    case _ => 0
  }

  function Balance(states: seq<State>, steps: seq<Step>, i: nat): int
    requires i <= |steps| <= |states|
  {
    if i == 0 then 0 else Balance(states, steps, i - 1) + Moved(states[i - 1], steps[i - 1])
  }

  /** Over any run no item comes from nowhere and none is lost: each successful send adds one,
      unless it overwrites one, each successful receive takes one, and nothing else counts. */
  lemma {:induction false} ItemsAreCounted(states: seq<State>, steps: seq<Step>, i: nat)
    requires IsRun(states, steps) && i < |states|
    ensures states[i].waiting == states[0].waiting + Balance(states, steps, i)
    ensures states[i].length == states[0].length && states[i].tasks == states[0].tasks
  {
    hide WellFormed, Next, Enabled, Moved;
    if i > 0 {
      ItemsAreCounted(states, steps, i - 1);
      StepMoves(states[i - 1], steps[i - 1]);
    }
  }

  lemma StepMoves(s: State, step: Step)
    requires WellFormed(s) && Enabled(s, step)
    ensures Next(s, step).waiting == s.waiting + Moved(s, step)
    ensures Next(s, step).length == s.length && Next(s, step).tasks == s.tasks
  {
    hide WellFormedSide, WakeOne, PostFromISR, Unlock, Block, Without, MayUse;
  }

  // ------------------------------------------------------------------ reset

  /** xQueueGenericReset of a queue in use: it frees every slot but wakes only one sender. */
  function Reset(s: State): State {
    s.(waiting := 0, receivers := s.receivers.(lock := UNLOCKED), senders := WakeOne(s.senders.(lock := UNLOCKED)))
  }

  /** So a reset forgets blocked senders, exactly when more than one is blocked and
      there are more slots than senders on their way back. */
  lemma ResetForgetsSenders(s: State)
    requires Inv(s) && s.phase == Running
    ensures var r := Reset(s);
            (r.senders.blocked == [] || r.Free() <= |r.senders.woken|)
            <==> |s.senders.blocked| <= 1 || s.length <= |s.senders.woken| + 1
    ensures Inv(Reset(s)) <==> |s.senders.blocked| <= 1 || s.length <= |s.senders.woken| + 1
  {
    WakeOneKeeps(s.senders, s.Free(), s.tasks, s.top);
  }

  /** The steps of a send that finds the queue full, without a timeout. */
  function BlockingSend(t: Task): seq<Step> {
    [LockQueue(t, Send), CheckAgain, PlaceOnEventList, UnlockTx, UnlockRx]
  }

  ghost predicate FindsItFull(s: State, t: Task) {
    && s.phase == Running && s.waiting == s.length && t in s.tasks
    && Elsewhere(s.receivers, t) && Elsewhere(s.senders, t)
  }

  function AboutToBlock(s: State, t: Task): State {
    s.(receivers := Lock(s.receivers), senders := Lock(s.senders), phase := Blocking(t, Send))
  }

  lemma SenderSeesItFull(states: seq<State>, steps: seq<Step>, t: Task) returns (more: seq<State>)
    requires IsRun(states, steps) && |states| == |steps| + 1 && FindsItFull(states[|steps|], t)
    ensures IsRun(more, steps + [LockQueue(t, Send), CheckAgain]) && |more| == |steps| + 3
    ensures more[|steps| + 2] == AboutToBlock(states[|steps|], t)
  {
    hide WellFormed, IsRun;
    var s := states[|steps|];
    var locked := s.(receivers := Lock(s.receivers), senders := Lock(s.senders), phase := Locked(t, Send));
    more := RunGoesOn(states, steps, LockQueue(t, Send), locked);
    more := RunGoesOn(more, steps + [LockQueue(t, Send)], CheckAgain, AboutToBlock(s, t));
    assert steps + [LockQueue(t, Send)] + [CheckAgain] == steps + [LockQueue(t, Send), CheckAgain];
  }

  lemma SenderBlocks(states: seq<State>, steps: seq<Step>, s: State, t: Task) returns (more: seq<State>)
    requires IsRun(states, steps) && |states| == |steps| + 1 && states[|steps|] == AboutToBlock(s, t)
    requires WellFormed(s) && FindsItFull(s, t)
    ensures IsRun(more, steps + [PlaceOnEventList, UnlockTx, UnlockRx]) && |more| == |steps| + 4
    ensures more[|steps| + 3] == s.(senders := Block(s.senders, t, s.top))
  {
    hide Block, IsRun, FindsItFull;
    assert s.phase == Running && t in s.tasks by { SenderRuns(s, t); }
    var placed := AboutToBlock(s, t).(senders := Block(Lock(s.senders), t, s.top), phase := Unlocking(t));
    var half := placed.(receivers := s.receivers, phase := HalfUnlocked(t));
    BlockKeepsTheLock(s.senders, t, s.top);
    more := RunGoesOn(states, steps, PlaceOnEventList, placed);
    more := RunGoesOn(more, steps + [PlaceOnEventList], UnlockTx, half);
    more := RunGoesOn(more, steps + [PlaceOnEventList] + [UnlockTx], UnlockRx,
      s.(senders := Block(s.senders, t, s.top)));
    assert steps + [PlaceOnEventList] + [UnlockTx] + [UnlockRx] == steps + [PlaceOnEventList, UnlockTx, UnlockRx];
  }

  lemma SenderRuns(s: State, t: Task)
    requires FindsItFull(s, t)
    ensures s.phase == Running && t in s.tasks
  {
  }

  lemma BlockingSendBlocks(states: seq<State>, steps: seq<Step>, t: Task) returns (more: seq<State>)
    requires IsRun(states, steps) && FindsItFull(states[|steps|], t)
    ensures IsRun(more, steps + BlockingSend(t))
    ensures var s := states[|steps|];
            && WellFormed(s)
            && more[|steps| + 5] == s.(senders := Block(s.senders, t, s.top))
  {
    hide Block, FindsItFull, WellFormed, AboutToBlock, Initial, Inv;
    NoLostWakeUp(states, steps, |steps|);
    InvIsWellFormed(states[|steps|]);
    more := SenderSeesItFull(states, steps, t);
    more := SenderBlocks(more, steps + [LockQueue(t, Send), CheckAgain], states[|steps|], t);
    assert steps + [LockQueue(t, Send), CheckAgain] + [PlaceOnEventList, UnlockTx, UnlockRx] == steps + BlockingSend(t);
  }

  lemma BlockKeepsTheLock(side: Side, t: Task, top: nat)
    requires t.priority <= top && forall u :: u in side.blocked ==> u.priority <= top
    requires side.lock == UNLOCKED
    ensures Unlock(Block(Lock(side), t, top)) == Block(side, t, top)
  {
  }

  /** One more step, to the state `s`. */
  lemma RunGoesOn(states: seq<State>, steps: seq<Step>, step: Step, s: State) returns (more: seq<State>)
    requires IsRun(states, steps) && |states| == |steps| + 1
    requires Enabled(states[|steps|], step)
    requires WellFormed(states[|steps|]) ==> s == Next(states[|steps|], step)
    ensures WellFormed(s) && more == states + [s] && IsRun(more, steps + [step])
  {
    hide Next, Enabled, Inv, WellFormed, Initial;
    NoLostWakeUp(states, steps, |steps|);
    more := states + [s];
    assert Inv(states[|steps|]) && WellFormed(states[|steps|]) by { InvIsWellFormed(states[|steps|]); }
    var moreSteps := steps + [step];
    forall i | 0 <= i < |moreSteps|
      ensures WellFormed(more[i]) && Enabled(more[i], moreSteps[i]) && more[i + 1] == Next(more[i], moreSteps[i])
    {
      if i < |steps| {
        assert WellFormed(states[i]) && Enabled(states[i], steps[i]);
      }
    }
    NoLostWakeUp(more, moreSteps, |moreSteps|);
    InvIsWellFormed(s);
  }

  lemma InvIsWellFormed(s: State)
    requires Inv(s)
    ensures WellFormed(s)
  {
  }

  /** And such a state is reached: two senders find a queue of two slots full and block.  The
      reset then wakes one; the other stays blocked beside a free slot that nobody will fill. */
  lemma ResetForgetsASender() returns (states: seq<State>, steps: seq<Step>)
    ensures IsRun(states, steps)
    ensures var s, r := states[|steps|], Reset(states[|steps|]);
            && s.phase == Running && s.waiting == s.length
            && r.senders.blocked != [] && r.Free() > |r.senders.woken|
  {
    var a, b := Task(1, 1), Task(2, 1);
    var s := State(2, 2, Side([], {}, UNLOCKED), Side([], {}, UNLOCKED), Running, {a, b}, 1);
    states, steps := [s], [];
    states := BlockingSendBlocks(states, steps, a);
    steps := steps + BlockingSend(a);
    OneMoreBlocked(s.senders, a, 1);
    states := BlockingSendBlocks(states, steps, b);
    steps := steps + BlockingSend(b);
    OneMoreBlocked(Block(s.senders, a, 1), b, 1);
    NoLostWakeUp(states, steps, |steps|);
    ResetForgetsSenders(states[|steps|]);
  }

  lemma OneMoreBlocked(side: Side, t: Task, top: nat)
    requires t.priority <= top && forall u :: u in side.blocked ==> u.priority <= top
    ensures var r := Block(side, t, top);
            && |r.blocked| == |side.blocked| + 1 && r.woken == side.woken
            && forall u :: u in r.blocked <==> u == t || u in side.blocked
  {
    InsertedMembers(side.blocked, InsertionPoint(EventValues(side.blocked, top), top - t.priority), t);
  }

  // --------------------------------------------------- the critical sections

  /** The control fields of Queue_t, and its critical sections as they are written. */
  class QueueControl {
    const length: nat
    var messagesWaiting: nat
    var cRxLock: int
    var cTxLock: int
    var waitingToSend: seq<Task>
    var waitingToReceive: seq<Task>
    var numberOfTasks: nat // uxTaskGetNumberOfTasks()
    ghost var wokenSenders: set<Task>
    ghost var wokenReceivers: set<Task>
    ghost var phase: Phase
    ghost var tasks: set<Task>
    const top: nat         // configMAX_PRIORITIES - 1

    ghost function Abs(): State
      reads this
    {
      State(length, messagesWaiting,
            Side(waitingToReceive, wokenReceivers, cTxLock), Side(waitingToSend, wokenSenders, cRxLock),
            phase, tasks, top)
    }

    ghost predicate Valid()
      reads this
    {
      Inv(Abs()) && numberOfTasks == |tasks|
    }

    method WakeReceiver()
      modifies this`waitingToReceive, this`wokenReceivers
      ensures Abs() == old(Abs()).(receivers := WakeOne(old(Abs()).receivers))
    {
      if waitingToReceive != [] {
        wokenReceivers := wokenReceivers + {waitingToReceive[0]};
        waitingToReceive := waitingToReceive[1..];
      }
    }

    method WakeSender()
      modifies this`waitingToSend, this`wokenSenders
      ensures Abs() == old(Abs()).(senders := WakeOne(old(Abs()).senders))
    {
      if waitingToSend != [] {
        wokenSenders := wokenSenders + {waitingToSend[0]};
        waitingToSend := waitingToSend[1..];
      }
    }

    /** The attempt at the top of the loop of xQueueGenericSend. */
    method TrySend(t: Task, overwrite: bool) returns (sent: bool)
      requires Valid() && Enabled(Abs(), TaskSend(t, overwrite))
      modifies this
      ensures Abs() == Next(old(Abs()), TaskSend(t, overwrite)) && Valid()
      ensures sent <==> old(messagesWaiting) < length || overwrite
      ensures messagesWaiting == if old(messagesWaiting) < length || (overwrite && old(messagesWaiting) == 0)
                                 then old(messagesWaiting) + 1 else old(messagesWaiting)
    {
      hide WellFormedSide, NoneForgotten, Covered;
      StepKeepsInv(Abs(), TaskSend(t, overwrite));
      wokenSenders := wokenSenders - {t};
      sent := messagesWaiting < length || overwrite;
      if sent {
        messagesWaiting := if overwrite && messagesWaiting > 0 then messagesWaiting else messagesWaiting + 1;
        WakeReceiver();
      }
    }

    /** The attempt at the top of the loop of xQueueReceive and of xQueueSemaphoreTake. */
    method TryReceive(t: Task) returns (received: bool)
      requires Valid() && Enabled(Abs(), TaskReceive(t))
      modifies this
      ensures Abs() == Next(old(Abs()), TaskReceive(t)) && Valid()
      ensures received == (old(messagesWaiting) > 0)
      ensures messagesWaiting == if received then old(messagesWaiting) - 1 else 0
    {
      hide WellFormedSide, NoneForgotten, Covered;
      StepKeepsInv(Abs(), TaskReceive(t));
      wokenReceivers := wokenReceivers - {t};
      received := messagesWaiting > 0;
      if received {
        messagesWaiting := messagesWaiting - 1;
        WakeSender();
      }
    }

    /** The attempt at the top of the loop of xQueuePeek: the item stays for another reader. */
    method TryPeek(t: Task) returns (peeked: bool)
      requires Valid() && Enabled(Abs(), TaskPeek(t))
      modifies this
      ensures Abs() == Next(old(Abs()), TaskPeek(t)) && Valid()
      ensures peeked == (old(messagesWaiting) > 0) && messagesWaiting == old(messagesWaiting)
    {
      hide WellFormedSide, NoneForgotten, Covered;
      StepKeepsInv(Abs(), TaskPeek(t));
      wokenReceivers := wokenReceivers - {t};
      peeked := messagesWaiting > 0;
      if peeked {
        WakeReceiver();
      }
    }

    /** xQueueGenericSendFromISR; xQueueGiveFromISR without the overwriting. */
    method SendFromISR(overwrite: bool) returns (sent: bool)
      requires Valid() && Enabled(Abs(), IsrSend(overwrite))
      modifies this
      ensures Abs() == Next(old(Abs()), IsrSend(overwrite)) && Valid()
      ensures sent <==> old(messagesWaiting) < length || overwrite
      ensures messagesWaiting == if old(messagesWaiting) < length || (overwrite && old(messagesWaiting) == 0)
                                 then old(messagesWaiting) + 1 else old(messagesWaiting)
      ensures cTxLock == if sent && old(cTxLock) != UNLOCKED && old(cTxLock) < numberOfTasks
                         then old(cTxLock) + 1 else old(cTxLock)
    {
      hide WellFormedSide, NoneForgotten, Covered;
      StepKeepsInv(Abs(), IsrSend(overwrite));
      sent := messagesWaiting < length || overwrite;
      if sent {
        messagesWaiting := if overwrite && messagesWaiting > 0 then messagesWaiting else messagesWaiting + 1;
        if cTxLock == UNLOCKED {
          WakeReceiver();
        } else if cTxLock < numberOfTasks {
          cTxLock := cTxLock + 1;
        }
      }
    }

    /** xQueueReceiveFromISR */
    method ReceiveFromISR() returns (received: bool)
      requires Valid()
      modifies this
      ensures Abs() == Next(old(Abs()), IsrReceive) && Valid()
      ensures received == (old(messagesWaiting) > 0)
      ensures messagesWaiting == if received then old(messagesWaiting) - 1 else 0
      ensures cRxLock == if received && old(cRxLock) != UNLOCKED && old(cRxLock) < numberOfTasks
                         then old(cRxLock) + 1 else old(cRxLock)
    {
      hide WellFormedSide, NoneForgotten, Covered;
      StepKeepsInv(Abs(), IsrReceive);
      received := messagesWaiting > 0;
      if received {
        messagesWaiting := messagesWaiting - 1;
        if cRxLock == UNLOCKED {
          WakeSender();
        } else if cRxLock < numberOfTasks {
          cRxLock := cRxLock + 1;
        }
      }
    }

    /** prvLockQueue, with the scheduler suspended by `t`. */
    method PrvLockQueue(t: Task, dir: Direction)
      requires Valid() && Enabled(Abs(), LockQueue(t, dir))
      modifies this
      ensures Abs() == Next(old(Abs()), LockQueue(t, dir)) && Valid()
    {
      hide WellFormedSide, NoneForgotten, Covered;
      StepKeepsInv(Abs(), LockQueue(t, dir));
      if cRxLock == UNLOCKED {
        cRxLock := LOCKED_UNMODIFIED;
      }
      if cTxLock == UNLOCKED {
        cTxLock := LOCKED_UNMODIFIED;
      }
      phase := Locked(t, dir);
    }

    /** Behind the lock: xTaskCheckForTimeOut says that the block time is over. */
    ghost method TimedOut()
      requires Valid() && phase.Locked?
      modifies this
      ensures Abs() == Next(old(Abs()), TimeOutExpired) && Valid()
      ensures phase == Unlocking(old(phase.task))
    {
      hide WellFormedSide, NoneForgotten, Covered;
      StepKeepsInv(Abs(), TimeOutExpired);
      phase := Unlocking(phase.task);
    }

    /** Behind the lock: prvIsQueueEmpty for a receiver, prvIsQueueFull for a sender. */
    method LookAgain(dir: Direction) returns (mustBlock: bool)
      requires Valid() && phase.Locked? && phase.dir == dir
      modifies this
      ensures Abs() == Next(old(Abs()), CheckAgain) && Valid()
      ensures mustBlock <==> phase.Blocking?
      ensures mustBlock <==> if dir == Receive then messagesWaiting == 0 else messagesWaiting == length
    {
      hide WellFormedSide, NoneForgotten, Covered;
      StepKeepsInv(Abs(), CheckAgain);
      mustBlock := if dir == Receive then messagesWaiting == 0 else messagesWaiting == length;
      phase := if mustBlock then Blocking(phase.task, dir) else Unlocking(phase.task);
    }

    /** vTaskPlaceOnEventList: the task goes into the event list in priority order. */
    method PlaceOnList(t: Task, dir: Direction)
      requires Valid() && phase == Blocking(t, dir)
      modifies this
      ensures Abs() == Next(old(Abs()), PlaceOnEventList) && Valid()
      ensures exists k :: if dir == Receive then PlacedAt(old(waitingToReceive), t, k, waitingToReceive)
                          else PlacedAt(old(waitingToSend), t, k, waitingToSend)
    {
      hide NoneForgotten, Covered, InsertionPoint, Inserted, PlacedAt;
      BlockPlaces(if dir == Receive then Abs().receivers else Abs().senders, t, top);
      StepKeepsInv(Abs(), PlaceOnEventList);
      if dir == Receive {
        var k := InsertionPoint(EventValues(waitingToReceive, top), top - t.priority);
        waitingToReceive := Inserted(waitingToReceive, k, t);
      } else {
        var k := InsertionPoint(EventValues(waitingToSend, top), top - t.priority);
        waitingToSend := Inserted(waitingToSend, k, t);
      }
      phase := Unlocking(t);
    }

    /** xTaskIncrementTick, when the block time of `t` runs out: it leaves its event list. */
    method TickTimesOut(t: Task)
      requires Valid() && Enabled(Abs(), TickTimeOut(t))
      modifies this
      ensures Abs() == Next(old(Abs()), TickTimeOut(t)) && Valid()
      ensures TakenOut(old(waitingToReceive), t, waitingToReceive) && TakenOut(old(waitingToSend), t, waitingToSend)
      ensures t !in waitingToReceive && t !in waitingToSend
    {
      hide NoneForgotten, Covered, Without;
      StepKeepsInv(Abs(), TickTimeOut(t));
      WithoutIsRemoved(waitingToReceive, t);
      WithoutIsRemoved(waitingToSend, t);
      WithoutKeeps(Abs().receivers, t, tasks, top);
      WithoutKeeps(Abs().senders, t, tasks, top);
      waitingToReceive, waitingToSend := Without(waitingToReceive, t), Without(waitingToSend, t);
    }

    /** The first critical section of prvUnlockQueue. */
    method PrvUnlockTx()
      requires Valid() && phase.Unlocking?
      modifies this
      ensures Abs() == Next(old(Abs()), UnlockTx) && Valid()
    {
      hide WellFormedSide, NoneForgotten, Covered;
      StepKeepsInv(Abs(), UnlockTx);
      var lock := cTxLock;
      while lock > LOCKED_UNMODIFIED
        invariant Abs() == old(Abs()).(receivers := Abs().receivers) && numberOfTasks == old(numberOfTasks)
        invariant Abs().receivers.lock == old(cTxLock)
        invariant lock > 0 ==> WakeMany(Abs().receivers, lock) == WakeMany(old(Abs().receivers), old(cTxLock))
        invariant lock <= 0 ==> Abs().receivers.(lock := UNLOCKED) == Unlock(old(Abs().receivers))
      {
        if waitingToReceive == [] {
          break;
        }
        WakeReceiver();
        lock := lock - 1;
      }
      cTxLock := UNLOCKED;
      phase := HalfUnlocked(phase.task);
    }

    /** The second one. */
    method PrvUnlockRx()
      requires Valid() && phase.HalfUnlocked?
      modifies this
      ensures Abs() == Next(old(Abs()), UnlockRx) && Valid()
    {
      hide WellFormedSide, NoneForgotten, Covered;
      StepKeepsInv(Abs(), UnlockRx);
      var lock := cRxLock;
      while lock > LOCKED_UNMODIFIED
        invariant Abs() == old(Abs()).(senders := Abs().senders) && numberOfTasks == old(numberOfTasks)
        invariant Abs().senders.lock == old(cRxLock)
        invariant lock > 0 ==> WakeMany(Abs().senders, lock) == WakeMany(old(Abs().senders), old(cRxLock))
        invariant lock <= 0 ==> Abs().senders.(lock := UNLOCKED) == Unlock(old(Abs().senders))
      {
        if waitingToSend == [] {
          break;
        }
        WakeSender();
        lock := lock - 1;
      }
      cRxLock := UNLOCKED;
      phase := Running;
    }
  }
}
