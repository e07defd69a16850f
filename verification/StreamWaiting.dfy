/** Blocking on a stream or message buffer (`stream_buffer.c`): one writer that waits for space
    and one reader that waits for bytes, each told by a task notification.

    A critical section, and a section with the scheduler suspended that touches one handle, is
    one step; between any two steps the other side may go on.  How the bytes get into the
    buffer is the subject of `StreamInterleaving`; here only their number counts. */
module StreamWaiting {

  datatype Writer =
    | WriterIdle
    | LookingForSpace(required: nat)   // at the top of the loop of xStreamBufferSend
    | WaitingForSpace(required: nat)   // in xTaskNotifyWait
    | SpaceWaitOver(required: nat)     // behind it; the handle is still set
    | TimeTest(required: nat)          // xTaskCheckForTimeOut is next
    | Sending(required: nat)           // prvWriteMessageToBuffer
    | TriggerTest                      // the bytes are committed
    | TellingReader                    // prvSEND_COMPLETED

  datatype Reader =
    | ReaderIdle
    | LookingForBytes
    | WaitingForBytes
    | ByteWaitOver
    | Taking                           // prvReadMessageFromBuffer
    | TellingWriter                    // prvRECEIVE_COMPLETED

  /** `waitingToSend` and `waitingToReceive`: the handles are set; `writerTold` and `readerTold`:
      the task has a notification that it has not taken. */
  datatype State = State(
    capacity: nat, trigger: nat, header: nat,
    bytes: nat,
    waitingToSend: bool, waitingToReceive: bool,
    writerTold: bool, readerTold: bool,
    writer: Writer, reader: Reader)
  {
    function Free(): int { capacity - bytes }
  }

  datatype Step =
    | StartSend(required: nat, blocks: bool)
    | LookForSpace                     // the critical section
    | WakeWriter                       // there is a notification
    | WriterTimesOut
    | ClearWriter
    | TestTime(expired: bool)
    | Commit(count: nat)
    | TestTrigger
    | TellReader
    | StartReceive(blocks: bool)
    | LookForBytes                     // the critical section
    | WakeReader
    | ReaderTimesOut
    | ClearReader
    | Consume(count: nat)
    | TellWriter

  predicate Enabled(s: State, step: Step) {
    match step
    case StartSend(required, blocks) => s.writer.WriterIdle? && (blocks ==> required <= s.capacity)
    case LookForSpace => s.writer.LookingForSpace?
    case WakeWriter => s.writer.WaitingForSpace? && s.writerTold
    case WriterTimesOut => s.writer.WaitingForSpace?
    case ClearWriter => s.writer.SpaceWaitOver?
    case TestTime(_) => s.writer.TimeTest?
    case Commit(count) => s.writer.Sending? && s.bytes + count <= s.capacity
    case TestTrigger => s.writer.TriggerTest?
    case TellReader => s.writer.TellingReader?
    case StartReceive(_) => s.reader.ReaderIdle?
    case LookForBytes => s.reader.LookingForBytes?
    case WakeReader => s.reader.WaitingForBytes? && s.readerTold
    case ReaderTimesOut => s.reader.WaitingForBytes?
    case ClearReader => s.reader.ByteWaitOver?
    case Consume(count) => s.reader.Taking? && count <= s.bytes
    case TellWriter => s.reader.TellingWriter?
  }

  function Next(s: State, step: Step): State
    requires Enabled(s, step)
  {
    match step
    case StartSend(required, blocks) => s.(writer := if blocks then LookingForSpace(required) else Sending(required))
    case LookForSpace =>
      var required := s.writer.required;
      if s.Free() < required
      then s.(writerTold := false, waitingToSend := true, writer := WaitingForSpace(required))
      else s.(writer := Sending(required))
    case WakeWriter => s.(writerTold := false, writer := SpaceWaitOver(s.writer.required))
    case WriterTimesOut => s.(writerTold := false, writer := SpaceWaitOver(s.writer.required))
    case ClearWriter => s.(waitingToSend := false, writer := TimeTest(s.writer.required))
    case TestTime(expired) =>
      s.(writer := if expired then Sending(s.writer.required) else LookingForSpace(s.writer.required))
    case Commit(count) => s.(bytes := s.bytes + count, writer := if count == 0 then WriterIdle else TriggerTest)
    case TestTrigger => s.(writer := if s.bytes >= s.trigger then TellingReader else WriterIdle)
    case TellReader =>
      var r := s.(writer := WriterIdle);
      if s.waitingToReceive then r.(readerTold := true, waitingToReceive := false) else r
    case StartReceive(blocks) => s.(reader := if blocks then LookingForBytes else Taking)
    case LookForBytes =>
      if s.bytes <= s.header
      then s.(readerTold := false, waitingToReceive := true, reader := WaitingForBytes)
      else s.(reader := Taking)
    case WakeReader => s.(readerTold := false, reader := ByteWaitOver)
    case ReaderTimesOut => s.(readerTold := false, reader := ByteWaitOver)
    case ClearReader => s.(waitingToReceive := false, reader := Taking)
    case Consume(count) => s.(bytes := s.bytes - count, reader := if count == 0 then ReaderIdle else TellingWriter)
    case TellWriter =>
      var r := s.(reader := ReaderIdle);
      if s.waitingToSend then r.(writerTold := true, waitingToSend := false) else r
  }

  // --------------------------------------------------------------- invariant

  predicate WriterBlocked(s: State) { s.writer.WaitingForSpace? && !s.writerTold }

  predicate ReaderBlocked(s: State) { s.reader.WaitingForBytes? && !s.readerTold }

  /** A blocked side is either right to wait, or the other side is about to tell it. */
  predicate Inv(s: State) {
    && s.bytes <= s.capacity
    && (WriterBlocked(s) ==> s.waitingToSend && (s.Free() < s.writer.required || s.reader.TellingWriter?))
    && (ReaderBlocked(s) ==>
          && s.waitingToReceive
          && (s.bytes <= s.header || s.bytes < s.trigger || s.writer.TriggerTest? || s.writer.TellingReader?))
    && (s.writer.LookingForSpace? || s.writer.WaitingForSpace? || s.writer.SpaceWaitOver? || s.writer.TimeTest? ==>
          s.writer.required <= s.capacity)
  }

  predicate OfTheReader(step: Step) {
    step.StartReceive? || step.LookForBytes? || step.WakeReader? || step.ReaderTimesOut? || step.ClearReader?
    || step.Consume? || step.TellWriter?
  }

  lemma WriterKeepsInv(s: State, step: Step)
    requires Inv(s) && Enabled(s, step) && !OfTheReader(step)
    ensures Inv(Next(s, step)) && SameBuffer(s, Next(s, step))
  {
    match step
    case StartSend(_, _) =>
    case LookForSpace =>
    case WakeWriter =>
    case WriterTimesOut =>
    case ClearWriter =>
    case TestTime(_) =>
    case Commit(_) =>
    case TestTrigger =>
    case TellReader =>
  }

  lemma ReaderKeepsInv(s: State, step: Step)
    requires Inv(s) && Enabled(s, step) && OfTheReader(step)
    ensures Inv(Next(s, step)) && SameBuffer(s, Next(s, step))
  {
    match step
    case StartReceive(_) =>
    case LookForBytes =>
    case WakeReader =>
    case ReaderTimesOut =>
    case ClearReader =>
    case Consume(_) =>
    case TellWriter =>
  }

  lemma StepKeepsInv(s: State, step: Step)
    requires Inv(s) && Enabled(s, step)
    ensures Inv(Next(s, step)) && SameBuffer(s, Next(s, step))
  {
    hide Inv, Next, Enabled, SameBuffer;
    if OfTheReader(step) {
      ReaderKeepsInv(s, step);
    } else {
      WriterKeepsInv(s, step);
    }
  }

  predicate Initial(s: State) {
    && 1 <= s.trigger <= s.capacity + 1 && s.bytes == 0
    && !s.waitingToSend && !s.waitingToReceive && !s.writerTold && !s.readerTold
    && s.writer == WriterIdle && s.reader == ReaderIdle
  }

  ghost predicate IsRun(states: seq<State>, steps: seq<Step>) {
    && |states| == |steps| + 1
    && Initial(states[0])
    && forall i :: 0 <= i < |steps| ==> Enabled(states[i], steps[i]) && states[i + 1] == Next(states[i], steps[i])
  }

  /** No notification is lost, under every interleaving and with timeouts at any time: while
      nobody is about to tell it, a blocked writer lacks space, and a blocked reader has at most
      a header to read or fewer bytes than the trigger level. */
  lemma {:induction false} NoLostNotification(states: seq<State>, steps: seq<Step>, i: nat)
    requires IsRun(states, steps) && i < |states|
    ensures Inv(states[i])
    ensures SameBuffer(states[0], states[i])
    ensures WriterBlocked(states[i]) && !states[i].reader.TellingWriter? ==>
              states[i].Free() < states[i].writer.required
    ensures ReaderBlocked(states[i]) && !states[i].writer.TriggerTest? && !states[i].writer.TellingReader? ==>
              states[i].bytes <= states[i].header || states[i].bytes < states[i].trigger
  {
    hide Next, Enabled, Inv;
    if i > 0 {
      NoLostNotification(states, steps, i - 1);
      StepKeepsInv(states[i - 1], steps[i - 1]);
    } else {
      StartsRight(states[0]);
    }
    BlockedForAReason(states[i]);
  }

  predicate SameBuffer(s: State, t: State) {
    s.capacity == t.capacity && s.trigger == t.trigger && s.header == t.header
  }

  lemma StartsRight(s: State)
    requires Initial(s)
    ensures Inv(s)
  {
  }

  lemma BlockedForAReason(s: State)
    requires Inv(s)
    ensures WriterBlocked(s) && !s.reader.TellingWriter? ==> s.Free() < s.writer.required
    ensures ReaderBlocked(s) && !s.writer.TriggerTest? && !s.writer.TellingReader? ==>
              s.bytes <= s.header || s.bytes < s.trigger
  {
  }

  /** Over any run: a reader starts to wait only if there is no more than a header to read, even if
      that is less than its trigger level; and a writer only if the space is too small. */
  lemma BlocksOnlyForCause(states: seq<State>, steps: seq<Step>, i: nat)
    requires IsRun(states, steps) && i < |steps|
    ensures !ReaderBlocked(states[i]) && ReaderBlocked(states[i + 1]) ==> states[i].bytes <= states[i].header
    ensures !WriterBlocked(states[i]) && WriterBlocked(states[i + 1]) ==>
              states[i].Free() < states[i + 1].writer.required
  {
    assert Enabled(states[i], steps[i]) && states[i + 1] == Next(states[i], steps[i]);
  }

  /** Over any run: a reader is told only by a writer that has found at least the trigger level of
      bytes, and a writer only by a reader that has taken some. */
  lemma ToldOnlyForCause(states: seq<State>, steps: seq<Step>, i: nat)
    requires IsRun(states, steps) && i < |steps|
    ensures !states[i].readerTold && states[i + 1].readerTold ==>
              states[i].writer.TellingReader? && states[i].waitingToReceive
    ensures !states[i].writer.TellingReader? && states[i + 1].writer.TellingReader? ==>
              states[i].writer.TriggerTest? && states[i].bytes >= states[i].trigger
    ensures !states[i].writerTold && states[i + 1].writerTold ==>
              states[i].reader.TellingWriter? && states[i].waitingToSend
    ensures !states[i].reader.TellingWriter? && states[i + 1].reader.TellingWriter? ==>
              states[i + 1].bytes < states[i].bytes
  {
    hide Next, Enabled;
    ReaderIsToldForCause(states[i], steps[i]);
    WriterIsToldForCause(states[i], steps[i]);
  }

  lemma ReaderIsToldForCause(s: State, step: Step)
    requires Enabled(s, step)
    ensures !s.readerTold && Next(s, step).readerTold ==> s.writer.TellingReader? && s.waitingToReceive
    ensures !s.writer.TellingReader? && Next(s, step).writer.TellingReader? ==>
              s.writer.TriggerTest? && s.bytes >= s.trigger
  {
  }

  lemma WriterIsToldForCause(s: State, step: Step)
    requires Enabled(s, step)
    ensures !s.writerTold && Next(s, step).writerTold ==> s.reader.TellingWriter? && s.waitingToSend
    ensures !s.reader.TellingWriter? && Next(s, step).reader.TellingWriter? ==> Next(s, step).bytes < s.bytes
  {
  }

  function WokenReaders(steps: seq<Step>, i: nat): nat
    requires i <= |steps|
  {
    if i == 0 then 0 else WokenReaders(steps, i - 1) + if steps[i - 1].WakeReader? then 1 else 0
  }

  function ToldReaders(states: seq<State>, steps: seq<Step>, i: nat): nat
    requires i <= |steps| <= |states|
  {
    if i == 0 then 0
    else
      var told := steps[i - 1].TellReader? && states[i - 1].waitingToReceive;
      ToldReaders(states, steps, i - 1) + if told then 1 else 0
  }

  function WokenWriters(steps: seq<Step>, i: nat): nat
    requires i <= |steps|
  {
    if i == 0 then 0 else WokenWriters(steps, i - 1) + if steps[i - 1].WakeWriter? then 1 else 0
  }

  function ToldWriters(states: seq<State>, steps: seq<Step>, i: nat): nat
    requires i <= |steps| <= |states|
  {
    if i == 0 then 0
    else
      var told := steps[i - 1].TellWriter? && states[i - 1].waitingToSend;
      ToldWriters(states, steps, i - 1) + if told then 1 else 0
  }

  /** Over any run a side is woken by a notification at most as often as the other has told it. */
  lemma {:induction false} EachNotificationWakesOnce(states: seq<State>, steps: seq<Step>, i: nat)
    requires IsRun(states, steps) && i <= |steps|
    ensures WokenReaders(steps, i) + (if states[i].readerTold then 1 else 0) <= ToldReaders(states, steps, i)
    ensures WokenWriters(steps, i) + (if states[i].writerTold then 1 else 0) <= ToldWriters(states, steps, i)
  {
    hide Next, Enabled;
    if i > 0 {
      EachNotificationWakesOnce(states, steps, i - 1);
      NotificationIsTaken(states[i - 1], steps[i - 1]);
    }
  }

  lemma NotificationIsTaken(s: State, step: Step)
    requires Enabled(s, step)
    ensures Next(s, step).readerTold ==>
              (s.readerTold && !step.WakeReader?) || (step.TellReader? && s.waitingToReceive)
    ensures step.WakeReader? ==> s.readerTold
    ensures Next(s, step).writerTold ==>
              (s.writerTold && !step.WakeWriter?) || (step.TellWriter? && s.waitingToSend)
    ensures step.WakeWriter? ==> s.writerTold
  {
  }

  // --------------------------------------------------------- both sides blocked

  /** Only a timeout can go on from here. */
  predicate Stuck(s: State, required: nat) {
    WriterBlocked(s) && ReaderBlocked(s) && s.writer.required == required
  }

  lemma OnlyTimeOutsAreLeft(s: State, required: nat, step: Step)
    requires Stuck(s, required) && Enabled(s, step)
    ensures step.WriterTimesOut? || step.ReaderTimesOut?
  {
  }

  ghost predicate CanBeStuck(capacity: nat, trigger: nat, required: nat) {
    exists states, steps :: IsStuckRun(states, steps, capacity, trigger, required)
  }

  ghost predicate IsStuckRun(states: seq<State>, steps: seq<Step>, capacity: nat, trigger: nat, required: nat) {
    && IsRun(states, steps)
    && states[0].capacity == capacity && states[0].trigger == trigger && states[0].header == 0
    && Stuck(states[|steps|], required)
  }

  /** On a stream buffer the two sides can come to wait for each other exactly if the trigger
      level and the space asked for are together more than the buffer holds and one byte. */
  lemma StuckExactly(capacity: nat, trigger: nat, required: nat)
    requires 1 <= trigger <= capacity + 1 && required <= capacity
    ensures CanBeStuck(capacity, trigger, required) <==> trigger + required > capacity + 1
  {
    hide IsRun, Stuck;
    if trigger + required > capacity + 1 {
      var states, steps := RunToStuck(capacity, trigger, required);
    }
    forall states, steps | IsStuckRun(states, steps, capacity, trigger, required)
      ensures trigger + required > capacity + 1
    {
      StuckOnlyIf(states, steps, required);
    }
  }

  lemma StuckOnlyIf(states: seq<State>, steps: seq<Step>, required: nat)
    requires IsRun(states, steps) && states[0].header == 0 && Stuck(states[|steps|], required)
    ensures states[0].trigger + required > states[0].capacity + 1
  {
    NoLostNotification(states, steps, |steps|);
    assert states[|steps|].writer.required <= states[0].capacity;
  }

  /** The reader waits; the writer puts in one byte less than the trigger level, and then waits. */
  lemma RunToStuck(capacity: nat, trigger: nat, required: nat) returns (states: seq<State>, steps: seq<Step>)
    requires 1 <= trigger <= capacity + 1 && required <= capacity && trigger + required > capacity + 1
    ensures IsStuckRun(states, steps, capacity, trigger, required)
  {
    var s := State(capacity, trigger, 0, 0, false, false, false, false, WriterIdle, ReaderIdle);
    steps := [StartReceive(true), LookForBytes, StartSend(trigger - 1, false), Commit(trigger - 1), TestTrigger,
              StartSend(required, true), LookForSpace];
    var a := Next(s, StartReceive(true));
    var b := Next(a, LookForBytes);
    var c := Next(b, StartSend(trigger - 1, false));
    var d := Next(c, Commit(trigger - 1));
    var e := Next(d, TestTrigger);
    var f := Next(e, StartSend(required, true));
    states := [s, a, b, c, d, e, f, Next(f, LookForSpace)];
  }

  // ------------------------------------------------ a trigger level out of reach

  ghost predicate CanBeTold(capacity: nat, trigger: nat, header: nat) {
    exists states, steps :: IsTellingRun(states, steps, capacity, trigger, header)
  }

  /** At its end a waiting reader has a notification. */
  ghost predicate IsTellingRun(states: seq<State>, steps: seq<Step>, capacity: nat, trigger: nat, header: nat) {
    && IsRun(states, steps)
    && states[0].capacity == capacity && states[0].trigger == trigger && states[0].header == header
    && states[|steps|].readerTold
  }

  /** xStreamBufferGenericCreateStatic accepts a trigger level of one byte more than the buffer
      holds.  Then, and only then, a waiting reader is never told, however many bytes arrive. */
  lemma ReaderIsToldExactly(capacity: nat, trigger: nat, header: nat)
    requires 1 <= trigger <= capacity + 1
    ensures CanBeTold(capacity, trigger, header) <==> trigger <= capacity
  {
    hide IsRun;
    if trigger <= capacity {
      var states, steps := RunToTelling(capacity, trigger, header);
    }
    forall states, steps | IsTellingRun(states, steps, capacity, trigger, header)
      ensures trigger <= capacity
    {
      ToldOnlyAtTheTrigger(states, steps, |steps|);
    }
  }

  lemma {:induction false} ToldOnlyAtTheTrigger(states: seq<State>, steps: seq<Step>, i: nat)
    requires IsRun(states, steps) && i <= |steps|
    ensures SameBuffer(states[0], states[i])
    ensures states[i].readerTold || states[i].writer.TellingReader? ==> states[0].trigger <= states[0].capacity
  {
    hide Next, Inv;
    if i > 0 {
      ToldOnlyAtTheTrigger(states, steps, i - 1);
      NoLostNotification(states, steps, i - 1);
      TellsOnlyAtTheTrigger(states[i - 1], steps[i - 1]);
    }
  }

  lemma TellsOnlyAtTheTrigger(s: State, step: Step)
    requires Inv(s) && Enabled(s, step)
    ensures var r := Next(s, step);
            && SameBuffer(s, r)
            && (r.writer.TellingReader? ==> s.writer.TellingReader? || s.trigger <= s.capacity)
            && (r.readerTold ==> s.readerTold || s.writer.TellingReader?)
  {
  }

  /** The reader waits, and the writer puts in as many bytes as the trigger level says. */
  lemma RunToTelling(capacity: nat, trigger: nat, header: nat) returns (states: seq<State>, steps: seq<Step>)
    requires 1 <= trigger <= capacity
    ensures IsTellingRun(states, steps, capacity, trigger, header)
  {
    var s := State(capacity, trigger, header, 0, false, false, false, false, WriterIdle, ReaderIdle);
    steps := [StartReceive(true), LookForBytes, StartSend(trigger, false), Commit(trigger), TestTrigger, TellReader];
    var a := Next(s, StartReceive(true));
    var b := Next(a, LookForBytes);
    var c := Next(b, StartSend(trigger, false));
    var d := Next(c, Commit(trigger));
    var e := Next(d, TestTrigger);
    states := [s, a, b, c, d, e, Next(e, TellReader)];
  }

  // ----------------------------------------------------- the sections as written

  /** The fields that the two sides use to wait for each other. */
  class Sides {
    const capacity: nat
    const triggerLevelBytes: nat
    const header: nat
    var bytes: nat
    var taskWaitingToSend: bool
    var taskWaitingToReceive: bool
    var senderNotified: bool
    var receiverNotified: bool
    ghost var writer: Writer
    ghost var reader: Reader

    ghost function Abs(): State
      reads this
    {
      State(capacity, triggerLevelBytes, header, bytes, taskWaitingToSend, taskWaitingToReceive,
            senderNotified, receiverNotified, writer, reader)
    }

    /** The critical section in the loop of xStreamBufferSend; `space` is the break. */
    method LookForRoom(required: nat) returns (space: bool)
      requires Inv(Abs()) && writer == LookingForSpace(required)
      modifies this
      ensures Inv(Abs()) && Abs() == Next(old(Abs()), LookForSpace)
      ensures !space <==> WriterBlocked(Abs())
      ensures space <==> capacity - bytes >= required
    {
      StepKeepsInv(Abs(), LookForSpace);
      space := capacity - bytes >= required;
      if !space {
        senderNotified := false;
        taskWaitingToSend := true;
      }
      writer := if space then Sending(required) else WaitingForSpace(required);
    }

    /** The critical section of xStreamBufferReceive. */
    method LookForData() returns (data: bool)
      requires Inv(Abs()) && reader == LookingForBytes
      modifies this
      ensures Inv(Abs()) && Abs() == Next(old(Abs()), LookForBytes)
      ensures !data <==> ReaderBlocked(Abs())
      ensures data <==> bytes > header
    {
      StepKeepsInv(Abs(), LookForBytes);
      data := bytes > header;
      if !data {
        receiverNotified := false;
        taskWaitingToReceive := true;
      }
      reader := if data then Taking else WaitingForBytes;
    }

    /** sbSEND_COMPLETED and sbSEND_COMPLETE_FROM_ISR: afterwards the reader is not blocked. */
    method SendCompleted()
      requires Inv(Abs()) && writer == TellingReader
      modifies this
      ensures Inv(Abs()) && Abs() == Next(old(Abs()), TellReader)
      ensures !ReaderBlocked(Abs())
      ensures if old(taskWaitingToReceive) then receiverNotified && !taskWaitingToReceive
              else receiverNotified == old(receiverNotified)
    {
      StepKeepsInv(Abs(), TellReader);
      if taskWaitingToReceive {
        receiverNotified := true;
        taskWaitingToReceive := false;
      }
      writer := WriterIdle;
    }

    /** sbRECEIVE_COMPLETED and sbRECEIVE_COMPLETED_FROM_ISR: afterwards the writer is not blocked. */
    method ReceiveCompleted()
      requires Inv(Abs()) && reader == TellingWriter
      modifies this
      ensures Inv(Abs()) && Abs() == Next(old(Abs()), TellWriter)
      ensures !WriterBlocked(Abs())
      ensures if old(taskWaitingToSend) then senderNotified && !taskWaitingToSend
              else senderNotified == old(senderNotified)
    {
      StepKeepsInv(Abs(), TellWriter);
      if taskWaitingToSend {
        senderNotified := true;
        taskWaitingToSend := false;
      }
      reader := ReaderIdle;
    }
  }
}
