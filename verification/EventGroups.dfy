/** Event groups (`event_groups.c`): bit conditions, deferred clearing and rendezvous.

    Every operation runs with the scheduler suspended or in a critical section and is
    one atomic step.  A call that blocks is two steps: up to the block, and from the
    moment the task runs again. */
module EventGroups {

  type Task = nat

  const CLEAR_EVENTS_ON_EXIT_BIT: bv32 := 0x0100_0000
  const UNBLOCKED_DUE_TO_BIT_SET: bv32 := 0x0200_0000
  const WAIT_FOR_ALL_BITS: bv32 := 0x0400_0000
  const EVENT_BITS_CONTROL_BYTES: bv32 := 0xff00_0000
  const EVENT_LIST_ITEM_VALUE_IN_USE: bv32 := 0x8000_0000

  /** An entry of xTasksWaitingForBits; the list item's value holds the bits waited for
      and the control bits. */
  datatype Waiter = Waiter(task: Task, value: bv32)

  /** `items` are the event list items of the tasks that have left the event list, by
      their bits or by a timeout, and have not run since. */
  datatype Group = Group(bits: bv32, waiting: seq<Waiter>, items: map<Task, bv32>)

  predicate IsEventBits(b: bv32) { b & EVENT_BITS_CONTROL_BYTES == 0 }

  function EventBits(v: bv32): bv32 { v & !EVENT_BITS_CONTROL_BYTES }

  function Common(a: bv32, b: bv32): bv32 { a & b }

  function Union(a: bv32, b: bv32): bv32 { a | b }

  function Without(a: bv32, b: bv32): bv32 { a & !b }

  /** What a caller that waits for `mask` leaves in its event list item. */
  function ItemValue(mask: bv32, clearOnExit: bool, waitForAll: bool): bv32 {
    mask | (if clearOnExit then CLEAR_EVENTS_ON_EXIT_BIT else 0)
    | (if waitForAll then WAIT_FOR_ALL_BITS else 0) | EVENT_LIST_ITEM_VALUE_IN_USE
  }

  function UnblockedValue(bits: bv32): bv32 {
    bits | UNBLOCKED_DUE_TO_BIT_SET | EVENT_LIST_ITEM_VALUE_IN_USE
  }

  predicate Clears(v: bv32) { v & CLEAR_EVENTS_ON_EXIT_BIT != 0 }

  predicate WaitsForAll(v: bv32) { v & WAIT_FOR_ALL_BITS != 0 }

  predicate Unblocked(v: bv32) { v & UNBLOCKED_DUE_TO_BIT_SET != 0 }

  /** prvTestWaitCondition */
  predicate WaitCondition(bits: bv32, mask: bv32, waitForAll: bool) {
    if waitForAll then Common(bits, mask) == mask else Common(bits, mask) != 0
  }

  /** The test that xEventGroupSetBits makes on an item of the list. */
  predicate Satisfied(v: bv32, bits: bv32) {
    if !WaitsForAll(v) then Common(EventBits(v), bits) != 0 else Common(EventBits(v), bits) == EventBits(v)
  }

  // --------------------------------------------------------- facts about bits

  lemma ItemValueParts(mask: bv32, clearOnExit: bool, waitForAll: bool)
    requires IsEventBits(mask)
    ensures EventBits(ItemValue(mask, clearOnExit, waitForAll)) == mask
    ensures Clears(ItemValue(mask, clearOnExit, waitForAll)) == clearOnExit
    ensures WaitsForAll(ItemValue(mask, clearOnExit, waitForAll)) == waitForAll
    ensures !Unblocked(ItemValue(mask, clearOnExit, waitForAll))
  {
  }

  /** The item a blocked caller leaves is judged as its own test would judge its call. */
  lemma ItemKeepsTheCondition(mask: bv32, clearOnExit: bool, waitForAll: bool, bits: bv32)
    requires IsEventBits(mask)
    ensures Satisfied(ItemValue(mask, clearOnExit, waitForAll), bits) <==> WaitCondition(bits, mask, waitForAll)
  {
    hide ItemValue, EventBits, WaitsForAll, Common;
    ItemValueParts(mask, clearOnExit, waitForAll);
    Commutes(mask, bits);
  }

  lemma Commutes(a: bv32, b: bv32)
    ensures Common(a, b) == Common(b, a)
  {
  }

  lemma UnblockedValueParts(bits: bv32)
    requires IsEventBits(bits)
    ensures EventBits(UnblockedValue(bits)) == bits && Unblocked(UnblockedValue(bits))
  {
  }

  predicate Within(a: bv32, b: bv32) { Common(a, b) == a }

  /** Clearing bits satisfies nobody. */
  lemma FewerBitsSatisfyLess(v: bv32, more: bv32, fewer: bv32)
    requires Within(fewer, more) && Satisfied(v, fewer)
    ensures Satisfied(v, more)
  {
    hide WaitsForAll, EventBits, Within, Common;
    SmallerMask(EventBits(v), more, fewer);
  }

  lemma SmallerMask(mask: bv32, more: bv32, fewer: bv32)
    requires Within(fewer, more)
    ensures Common(mask, fewer) != 0 ==> Common(mask, more) != 0
    ensures Common(mask, fewer) == mask ==> Common(mask, more) == mask
  {
  }

  lemma WithoutParts(a: bv32, b: bv32)
    ensures Within(Without(a, b), a)
    ensures IsEventBits(a) ==> IsEventBits(Without(a, b))
  {
  }

  /** The bits of `mask` are gone, and all others are as before. */
  predicate Cleared(was: bv32, bits: bv32, mask: bv32) {
    Common(bits, mask) == 0 && Union(bits, mask) == Union(was, mask)
  }

  lemma WithoutClears(a: bv32, mask: bv32)
    ensures Cleared(a, Without(a, mask), mask)
  {
    hide Common, Without, Union;
    GoneWithout(a, mask);
    OthersStay(a, mask);
  }

  lemma OthersStay(a: bv32, mask: bv32)
    ensures Union(Without(a, mask), mask) == Union(a, mask)
  {
    hide Without, Union;
    var less := Without(a, mask);
    UnionWithTheMask(a, less, mask);
  }

  lemma UnionWithTheMask(a: bv32, less: bv32, mask: bv32)
    requires less == Without(a, mask)
    ensures Union(less, mask) == Union(a, mask)
  {
    SameWithTheMask(a, less, mask);
  }

  lemma SameWithTheMask(a: bv32, less: bv32, mask: bv32)
    requires less == a & !mask
    ensures less | mask == a | mask
  {
  }

  /** Only one value is left of `was` then. */
  lemma ClearedIsUnique(was: bv32, a: bv32, b: bv32, mask: bv32)
    requires Cleared(was, a, mask) && Cleared(was, b, mask)
    ensures a == b
  {
    NothingBut(a, mask);
    NothingBut(b, mask);
  }

  lemma NothingBut(a: bv32, mask: bv32)
    requires Common(a, mask) == 0
    ensures a == Without(Union(a, mask), mask)
  {
  }

  /** A condition on all bits is met if none of the mask is missing, one on any bit if not all are. */
  lemma WaitConditionMeans(bits: bv32, mask: bv32)
    ensures WaitCondition(bits, mask, true) <==> Without(mask, bits) == 0
    ensures WaitCondition(bits, mask, false) <==> Without(mask, bits) != mask
  {
    hide Common, Without;
    if Common(bits, mask) == mask {
      NoneMissing(bits, mask);
    } else if Without(mask, bits) == 0 {
      AllThere(bits, mask);
    }
    if Common(bits, mask) == 0 {
      AllMissing(bits, mask);
    } else if Without(mask, bits) == mask {
      NoneThere(bits, mask);
    }
  }

  lemma NoneMissing(bits: bv32, mask: bv32)
    requires Common(bits, mask) == mask
    ensures Without(mask, bits) == 0
  {
  }

  lemma AllThere(bits: bv32, mask: bv32)
    requires Without(mask, bits) == 0
    ensures Common(bits, mask) == mask
  {
  }

  lemma AllMissing(bits: bv32, mask: bv32)
    requires Common(bits, mask) == 0
    ensures Without(mask, bits) == mask
  {
  }

  lemma NoneThere(bits: bv32, mask: bv32)
    requires Without(mask, bits) == mask
    ensures Common(bits, mask) == 0
  {
  }

  lemma UnionOfEventBits(a: bv32, b: bv32)
    requires IsEventBits(a) && IsEventBits(b)
    ensures IsEventBits(Union(a, b))
  {
    Distributes(a, b, EVENT_BITS_CONTROL_BYTES);
  }

  lemma UnionIsAssociative(a: bv32, b: bv32, c: bv32)
    ensures Union(Union(a, b), c) == Union(a, Union(b, c))
  {
  }

  lemma UnionWithNothing(a: bv32)
    ensures Union(a, 0) == a == Union(0, a)
  {
  }

  // ---------------------------------------------------------------- setting bits

  /** Who stays on the list. */
  function Unsatisfied(ws: seq<Waiter>, bits: bv32): (r: seq<Waiter>)
    ensures forall w :: w in r <==> w in ws && !Satisfied(w.value, bits)
  {
    if ws == [] then []
    else (if Satisfied(ws[0].value, bits) then [] else [ws[0]]) + Unsatisfied(ws[1..], bits)
  }

  predicate ClearsOnRelease(v: bv32, bits: bv32) { Satisfied(v, bits) && Clears(v) }

  function BitsToClearFor(v: bv32, bits: bv32): bv32 {
    if ClearsOnRelease(v, bits) then EventBits(v) else 0
  }

  /** The bits that the released callers asked to be cleared. */
  function BitsToClear(ws: seq<Waiter>, bits: bv32): bv32 {
    if ws == [] then 0 else Union(BitsToClearFor(ws[0].value, bits), BitsToClear(ws[1..], bits))
  }

  function Released(items: map<Task, bv32>, ws: seq<Waiter>, bits: bv32): map<Task, bv32>
    decreases ws
  {
    if ws == [] then items
    else
      Released(if Satisfied(ws[0].value, bits) then items[ws[0].task := UnblockedValue(bits)] else items, ws[1..], bits)
  }

  function SetBits(g: Group, toSet: bv32): Group {
    var bits := Union(g.bits, toSet);
    Group(Without(bits, BitsToClear(g.waiting, bits)), Unsatisfied(g.waiting, bits), Released(g.items, g.waiting, bits))
  }

  predicate Overlaps(a: bv32, b: bv32) { Common(a, b) != 0 }

  ghost predicate ClearedFor(ws: seq<Waiter>, bits: bv32, x: bv32) {
    exists w :: w in ws && Overlaps(BitsToClearFor(w.value, bits), x)
  }

  /** A bit is cleared exactly if some released waiter that clears on exit waits for it. */
  lemma {:induction false} ClearedBits(ws: seq<Waiter>, bits: bv32, x: bv32)
    ensures Overlaps(BitsToClear(ws, bits), x) <==> ClearedFor(ws, bits, x)
  {
    hide BitsToClearFor, Overlaps, Union;
    if ws == [] {
      NoOverlap(x);
    } else {
      ClearedBits(ws[1..], bits, x);
      OverlapsDistributes(BitsToClearFor(ws[0].value, bits), BitsToClear(ws[1..], bits), x);
      assert ws == [ws[0]] + ws[1..];
    }
  }

  lemma NoOverlap(x: bv32)
    ensures !Overlaps(0, x)
  {
  }

  lemma OverlapsDistributes(a: bv32, b: bv32, x: bv32)
    ensures Overlaps(Union(a, b), x) <==> Overlaps(a, x) || Overlaps(b, x)
  {
    assert (a | b) & x == (a & x) | (b & x) by { Distributes(a, b, x); }
    UnionIsEmpty(a & x, b & x);
  }

  lemma Distributes(a: bv32, b: bv32, x: bv32)
    ensures (a | b) & x == (a & x) | (b & x)
  {
  }

  lemma UnionIsEmpty(a: bv32, b: bv32)
    ensures a | b == 0 <==> a == 0 && b == 0
  {
  }

  lemma {:induction false} ReleasedItems(items: map<Task, bv32>, ws: seq<Waiter>, bits: bv32, t: Task)
    ensures t in Released(items, ws, bits) <==> t in items || ReleasedNow(ws, bits, t)
    ensures ReleasedNow(ws, bits, t) ==> Released(items, ws, bits)[t] == UnblockedValue(bits)
    ensures !ReleasedNow(ws, bits, t) && t in items ==> Released(items, ws, bits)[t] == items[t]
    decreases ws
  {
    hide Satisfied, UnblockedValue;
    if ws != [] {
      var next := if Satisfied(ws[0].value, bits) then items[ws[0].task := UnblockedValue(bits)] else items;
      ReleasedItems(next, ws[1..], bits, t);
      assert ws == [ws[0]] + ws[1..];
    }
  }

  ghost predicate ReleasedNow(ws: seq<Waiter>, bits: bv32, t: Task) {
    exists w :: w in ws && w.task == t && Satisfied(w.value, bits)
  }

  /** The order of the list does not matter: everyone is judged on the same bits, and the
      clearing waits until all have been judged. */
  lemma OrderOfTheListDoesNotMatter(g: Group, h: Group, toSet: bv32)
    requires g.bits == h.bits && g.items == h.items
    requires forall w :: w in g.waiting <==> w in h.waiting
    ensures SetBits(g, toSet).bits == SetBits(h, toSet).bits
    ensures SetBits(g, toSet).items == SetBits(h, toSet).items
    ensures forall w :: w in SetBits(g, toSet).waiting <==> w in SetBits(h, toSet).waiting
  {
    hide Satisfied, Within, Released, BitsToClear, UnblockedValue, Union, Without;
    var bits := Union(g.bits, toSet);
    SameBitsCleared(g.waiting, h.waiting, bits);
    SameBitsCleared(h.waiting, g.waiting, bits);
    SubsetsAreEqual(BitsToClear(g.waiting, bits), BitsToClear(h.waiting, bits));
    forall t ensures t in SetBits(g, toSet).items <==> t in SetBits(h, toSet).items
      ensures t in SetBits(g, toSet).items ==> SetBits(g, toSet).items[t] == SetBits(h, toSet).items[t]
    {
      ReleasedItems(g.items, g.waiting, bits, t);
      ReleasedItems(h.items, h.waiting, bits, t);
    }
  }

  lemma SameBitsCleared(ws: seq<Waiter>, us: seq<Waiter>, bits: bv32)
    requires forall w :: w in ws ==> w in us
    ensures Within(BitsToClear(ws, bits), BitsToClear(us, bits))
  {
    hide BitsToClearFor, BitsToClear, Overlaps, Within, OnlyIn;
    var x := OnlyIn(BitsToClear(ws, bits), BitsToClear(us, bits));
    ClearedBits(ws, bits, x);
    ClearedBits(us, bits, x);
  }

  /** Some bit of `a` that is not in `b`, if there is one. */
  ghost function OnlyIn(a: bv32, b: bv32): (x: bv32)
    ensures !Within(a, b) ==> Overlaps(a, x) && !Overlaps(b, x)
  {
    a & !b
  }

  lemma SubsetsAreEqual(a: bv32, b: bv32)
    requires Within(a, b) && Within(b, a)
    ensures a == b
  {
  }

  // ------------------------------------------------------ the other operations

  datatype Step =
    | Setting(bits: bv32)
    | Clearing(bits: bv32)
    | Waiting(task: Task, mask: bv32, clearOnExit: bool, waitForAll: bool, block: bool)
    | Syncing(task: Task, bits: bv32, mask: bv32, block: bool)
    | TimingOut(position: nat)      // the block time of this entry of the list is over
    | Resuming(task: Task, mask: bv32, clearOnExit: bool, waitForAll: bool)

  datatype Outcome = Returned(value: bv32) | Blocked | None

  function WaitBits(g: Group, t: Task, mask: bv32, clearOnExit: bool, waitForAll: bool, block: bool): Group {
    if WaitCondition(g.bits, mask, waitForAll) then
      if clearOnExit then g.(bits := Without(g.bits, mask)) else g
    else if block then g.(waiting := g.waiting + [Waiter(t, ItemValue(mask, clearOnExit, waitForAll))])
    else g
  }

  function Sync(g: Group, t: Task, bits: bv32, mask: bv32, block: bool): Group {
    var h := SetBits(g, bits);
    if WaitCondition(Union(g.bits, bits), mask, true) then h.(bits := Without(h.bits, mask))
    else if block then h.(waiting := h.waiting + [Waiter(t, ItemValue(mask, true, true))])
    else h
  }

  function TimeOut(g: Group, i: nat): Group
    requires i < |g.waiting|
  {
    var w := g.waiting[i];
    g.(waiting := g.waiting[..i] + g.waiting[i + 1..], items := g.items[w.task := w.value])
  }

  /** What a call that blocked does when its task runs again. */
  function Resume(g: Group, t: Task, mask: bv32, clearOnExit: bool, waitForAll: bool): Group
    requires t in g.items
  {
    var h := g.(items := g.items - {t});
    if !Unblocked(g.items[t]) && WaitCondition(g.bits, mask, waitForAll) && clearOnExit then
      h.(bits := Without(h.bits, mask))
    else h
  }

  ghost predicate Idle(g: Group, t: Task) {
    t !in g.items && forall w :: w in g.waiting ==> w.task != t
  }

  ghost predicate Enabled(g: Group, step: Step) {
    match step
    case Setting(bits) => IsEventBits(bits)
    case Clearing(bits) => IsEventBits(bits)
    case Waiting(t, mask, _, _, _) => Idle(g, t) && IsEventBits(mask) && mask != 0
    case Syncing(t, bits, mask, _) => Idle(g, t) && IsEventBits(bits) && IsEventBits(mask) && mask != 0
    case TimingOut(i) => i < |g.waiting|
    case Resuming(t, mask, clearOnExit, waitForAll) =>
      && t in g.items && IsEventBits(mask)
      && (Unblocked(g.items[t]) || g.items[t] == ItemValue(mask, clearOnExit, waitForAll))
  }

  function Next(g: Group, step: Step): Group
    requires Enabled(g, step)
  {
    match step
    case Setting(bits) => SetBits(g, bits)
    case Clearing(bits) => g.(bits := Without(g.bits, bits))
    case Waiting(t, mask, clearOnExit, waitForAll, block) => WaitBits(g, t, mask, clearOnExit, waitForAll, block)
    case Syncing(t, bits, mask, block) => Sync(g, t, bits, mask, block)
    case TimingOut(i) => TimeOut(g, i)
    case Resuming(t, mask, clearOnExit, waitForAll) => Resume(g, t, mask, clearOnExit, waitForAll)
  }

  /** What the caller gets, if the step ends its call. */
  function Result(g: Group, step: Step): Outcome
    requires Enabled(g, step)
  {
    match step
    case Setting(bits) => Returned(SetBits(g, bits).bits)
    case Clearing(bits) => Returned(g.bits)
    case Waiting(t, mask, clearOnExit, waitForAll, block) =>
      if WaitCondition(g.bits, mask, waitForAll) || !block then Returned(g.bits) else Blocked
    case Syncing(t, bits, mask, block) =>
      if WaitCondition(Union(g.bits, bits), mask, true) then Returned(Union(g.bits, bits))
      else if block then Blocked
      else Returned(SetBits(g, bits).bits)
    case TimingOut(i) => None
    case Resuming(t, mask, clearOnExit, waitForAll) =>
      Returned(EventBits(if Unblocked(g.items[t]) then g.items[t] else g.bits))
  }

  // ------------------------------------------------- nobody is left behind

  predicate Waits(w: Waiter, bits: bv32) {
    EventBits(w.value) != 0 && !Unblocked(w.value) && !Satisfied(w.value, bits)
  }

  ghost predicate AllWait(ws: seq<Waiter>, bits: bv32) {
    forall w :: w in ws ==> Waits(w, bits)
  }

  ghost predicate DistinctTasks(ws: seq<Waiter>) {
    forall i, j :: 0 <= i < j < |ws| ==> ws[i].task != ws[j].task
  }

  ghost predicate Distinct(ws: seq<Waiter>, items: map<Task, bv32>) {
    && DistinctTasks(ws)
    && (forall w :: w in ws ==> w.task !in items)
  }

  /** No task on the event list has its wait condition met by the current bits. */
  ghost predicate Inv(g: Group) {
    IsEventBits(g.bits) && AllWait(g.waiting, g.bits) && Distinct(g.waiting, g.items)
  }

  lemma ClearingKeeps(g: Group, mask: bv32)
    requires Inv(g)
    ensures Inv(g.(bits := Without(g.bits, mask)))
  {
    hide IsEventBits, Satisfied, EventBits, Without, Within, Unblocked;
    WithoutParts(g.bits, mask);
    forall w | w in g.waiting
      ensures Waits(w, Without(g.bits, mask))
    {
      if Satisfied(w.value, Without(g.bits, mask)) {
        FewerBitsSatisfyLess(w.value, g.bits, Without(g.bits, mask));
      }
    }
  }

  lemma {:induction false} UnsatisfiedStayDistinct(ws: seq<Waiter>, bits: bv32, items: map<Task, bv32>)
    requires Distinct(ws, items)
    ensures Distinct(Unsatisfied(ws, bits), Released(items, ws, bits))
  {
    hide Satisfied, UnblockedValue, Released;
    var r := Unsatisfied(ws, bits);
    UnsatisfiedAreDistinct(ws, bits);
    forall w | w in r
      ensures w.task !in Released(items, ws, bits)
    {
      ReleasedItems(items, ws, bits, w.task);
    }
  }

  lemma {:induction false} UnsatisfiedAreDistinct(ws: seq<Waiter>, bits: bv32)
    requires DistinctTasks(ws)
    ensures DistinctTasks(Unsatisfied(ws, bits))
  {
    hide Satisfied;
    if ws != [] {
      UnsatisfiedAreDistinct(ws[1..], bits);
      var rest := Unsatisfied(ws[1..], bits);
      forall i | 0 <= i < |rest|
        ensures rest[i].task != ws[0].task
      {
        assert rest[i] in ws[1..];
        var j :| 0 <= j < |ws[1..]| && ws[1..][j] == rest[i];
        assert ws[j + 1] == rest[i];
      }
    }
  }

  lemma SetBitsKeeps(g: Group, bits: bv32)
    requires Inv(g) && IsEventBits(bits)
    ensures Inv(SetBits(g, bits))
    ensures Within(SetBits(g, bits).bits, Union(g.bits, bits))
  {
    hide IsEventBits, Satisfied, EventBits, Without, Within, Unblocked, Union, BitsToClear, Released, Distinct;
    var both := Union(g.bits, bits);
    UnionOfEventBits(g.bits, bits);
    WithoutParts(both, BitsToClear(g.waiting, both));
    UnsatisfiedStayDistinct(g.waiting, both, g.items);
    forall w | w in SetBits(g, bits).waiting
      ensures Waits(w, SetBits(g, bits).bits)
    {
      assert Waits(w, g.bits);
      if Satisfied(w.value, SetBits(g, bits).bits) {
        FewerBitsSatisfyLess(w.value, both, SetBits(g, bits).bits);
      }
    }
  }

  lemma BlockingKeeps(g: Group, t: Task, mask: bv32, clearOnExit: bool, waitForAll: bool)
    requires Inv(g) && Idle(g, t) && IsEventBits(mask) && mask != 0 && !WaitCondition(g.bits, mask, waitForAll)
    ensures Inv(g.(waiting := g.waiting + [Waiter(t, ItemValue(mask, clearOnExit, waitForAll))]))
  {
    hide IsEventBits, Satisfied, EventBits, ItemValue, Clears, WaitsForAll, Unblocked, WaitCondition;
    ItemValueParts(mask, clearOnExit, waitForAll);
    ItemKeepsTheCondition(mask, clearOnExit, waitForAll, g.bits);
  }

  lemma SyncKeeps(g: Group, t: Task, bits: bv32, mask: bv32, block: bool)
    requires Inv(g) && Idle(g, t) && IsEventBits(bits) && IsEventBits(mask) && mask != 0
    ensures Inv(Sync(g, t, bits, mask, block))
  {
    hide IsEventBits, Without, Within, Union, ItemValue, SetBits, WaitCondition, Inv;
    var both, h := Union(g.bits, bits), SetBits(g, bits);
    SetBitsKeeps(g, bits);
    ClearingKeeps(h, mask);
    if !WaitCondition(both, mask, true) && block {
      IdleAfterSetting(g, bits, t);
      UnmetAfterClearing(mask, both, h.bits);
      BlockingKeeps(h, t, mask, true, true);
    }
  }

  lemma IdleAfterSetting(g: Group, bits: bv32, t: Task)
    requires Idle(g, t)
    ensures Idle(SetBits(g, bits), t)
  {
    hide Satisfied, Released, BitsToClear, Union, Without;
    ReleasedItems(g.items, g.waiting, Union(g.bits, bits), t);
  }

  lemma UnmetAfterClearing(mask: bv32, more: bv32, fewer: bv32)
    requires Within(fewer, more) && !WaitCondition(more, mask, true)
    ensures !WaitCondition(fewer, mask, true)
  {
  }

  lemma TimeOutKeeps(g: Group, i: nat)
    requires Inv(g) && i < |g.waiting|
    ensures Inv(TimeOut(g, i))
  {
    hide IsEventBits, Waits;
  }

  lemma StepKeepsInv(g: Group, step: Step)
    requires Inv(g) && Enabled(g, step)
    ensures Inv(Next(g, step))
  {
    hide IsEventBits, Without, Union, ItemValue, SetBits, Sync, TimeOut, WaitCondition, AllWait, Distinct;
    match step
    case Setting(bits) => SetBitsKeeps(g, bits);
    case Clearing(bits) => ClearingKeeps(g, bits);
    case Waiting(t, mask, clearOnExit, waitForAll, block) =>
      ClearingKeeps(g, mask);
      if !WaitCondition(g.bits, mask, waitForAll) {
        BlockingKeeps(g, t, mask, clearOnExit, waitForAll);
      }
    case Syncing(t, bits, mask, block) => SyncKeeps(g, t, bits, mask, block);
    case TimingOut(i) => TimeOutKeeps(g, i);
    case Resuming(t, mask, _, _) =>
      RunningKeeps(g, t);
      ClearingKeeps(g.(items := g.items - {t}), mask);
  }

  lemma RunningKeeps(g: Group, t: Task)
    requires Inv(g)
    ensures Inv(g.(items := g.items - {t}))
  {
    hide IsEventBits, AllWait;
  }

  const INITIAL: Group := Group(0, [], map[])

  ghost predicate IsRun(states: seq<Group>, steps: seq<Step>) {
    && |states| == |steps| + 1
    && forall i :: 0 <= i < |steps| ==> Enabled(states[i], steps[i]) && states[i + 1] == Next(states[i], steps[i])
  }

  /** Over any run no task stays blocked whose wait condition is met by the bits. */
  lemma {:induction false} NobodyIsLeftBehind(states: seq<Group>, steps: seq<Step>, n: nat, w: Waiter)
    requires IsRun(states, steps) && states[0] == INITIAL && n <= |steps| && w in states[n].waiting
    ensures !Satisfied(w.value, states[n].bits)
  {
    hide Next, Enabled, Satisfied;
    RunKeepsInv(states, steps, n);
    assert Waits(w, states[n].bits);
  }

  lemma {:induction false} RunKeepsInv(states: seq<Group>, steps: seq<Step>, n: nat)
    requires IsRun(states, steps) && Inv(states[0]) && n <= |steps|
    ensures Inv(states[n])
  {
    hide Next, Enabled, Inv;
    if n > 0 {
      RunKeepsInv(states, steps, n - 1);
      StepKeepsInv(states[n - 1], steps[n - 1]);
    }
  }

  /** One call releases exactly the waiters that the old bits together with the new ones
      satisfy, hands them that value, and then clears what those among them that clear on
      exit waited for, and nothing else. */
  lemma SettingReleasesExactly(g: Group, bits: bv32, w: Waiter, x: bv32)
    requires Inv(g) && w in g.waiting
    ensures var both, h := Union(g.bits, bits), SetBits(g, bits);
            && (w in h.waiting <==> !Satisfied(w.value, both))
            && (Satisfied(w.value, both) ==> w.task in h.items && h.items[w.task] == UnblockedValue(both))
            && (w.task in h.items ==> Satisfied(w.value, both))
            && (h.bits == Without(both, BitsToClear(g.waiting, both)))
            && (Overlaps(BitsToClear(g.waiting, both), x) <==> ClearedFor(g.waiting, both, x))
  {
    hide Satisfied, Released, BitsToClear, Union, Without, Overlaps, ClearedFor, IsEventBits, AllWait, UnblockedValue;
    var both := Union(g.bits, bits);
    ClearedBits(g.waiting, both, x);
    ReleasedItems(g.items, g.waiting, both, w.task);
    if u :| u in g.waiting && u.task == w.task && Satisfied(u.value, both) {
      var i :| 0 <= i < |g.waiting| && g.waiting[i] == u;
      var j :| 0 <= j < |g.waiting| && g.waiting[j] == w;
      assert i == j;
    }
  }

  // ------------------------------------------------- what a blocked call returns

  predicate Resumes(step: Step, t: Task) { step.Resuming? && step.task == t }

  /** The item of a task that has left the list is nobody's but its own. */
  lemma ItemStays(g: Group, step: Step, t: Task)
    requires Inv(g) && Enabled(g, step) && t in g.items && !Resumes(step, t)
    ensures t in Next(g, step).items && Next(g, step).items[t] == g.items[t]
  {
    hide Satisfied, Released, BitsToClear, Union, Without, IsEventBits, AllWait, WaitCondition, ItemValue;
    if step.Setting? || step.Syncing? {
      ReleasedItems(g.items, g.waiting, Union(g.bits, step.bits), t);
    }
  }

  /** The step in which the call that `t` is blocked in goes on, seen from step `from`. */
  ghost predicate FirstResume(steps: seq<Step>, from: nat, m: nat, t: Task) {
    from <= m < |steps| && Resumes(steps[m], t) && forall k :: from <= k < m ==> !Resumes(steps[k], t)
  }

  lemma {:induction false} ItemStaysUntilItRuns(states: seq<Group>, steps: seq<Step>, from: nat, m: nat, t: Task)
    requires IsRun(states, steps) && from <= m <= |steps| && Inv(states[from]) && t in states[from].items
    requires forall k :: from <= k < m ==> !Resumes(steps[k], t)
    ensures Inv(states[m]) && t in states[m].items && states[m].items[t] == states[from].items[t]
  {
    hide Next, Enabled, Inv, Resumes;
    if from < m {
      ItemStaysUntilItRuns(states, steps, from, m - 1, t);
      assert Enabled(states[m - 1], steps[m - 1]) && states[m] == Next(states[m - 1], steps[m - 1]);
      StepKeepsInv(states[m - 1], steps[m - 1]);
      ItemStays(states[m - 1], steps[m - 1], t);
    }
  }

  /** If `t` runs again, its call returns `value`. */
  ghost predicate ReturnsLater(states: seq<Group>, steps: seq<Step>, from: nat, t: Task, value: bv32)
    requires |states| == |steps| + 1
  {
    forall m: nat :: FirstResume(steps, from, m, t) ==>
      Enabled(states[m], steps[m]) && Result(states[m], steps[m]) == Returned(value)
  }

  /** However long the task takes to run again, and whatever is done to the group in the
      meantime: its call returns the value it was released with. */
  lemma ReleasedCallReturns(states: seq<Group>, steps: seq<Step>, from: nat, t: Task)
    requires IsRun(states, steps) && from <= |steps| && Inv(states[from]) && t in states[from].items
    requires Unblocked(states[from].items[t])
    ensures ReturnsLater(states, steps, from, t, EventBits(states[from].items[t]))
  {
    hide Next, Enabled, Inv, Unblocked, EventBits;
    forall m: nat | FirstResume(steps, from, m, t)
      ensures Enabled(states[m], steps[m])
      ensures Result(states[m], steps[m]) == Returned(EventBits(states[from].items[t]))
    {
      ItemStaysUntilItRuns(states, steps, from, m, t);
    }
  }

  // -------------------------------------------------------------- rendezvous

  /** The item of a task blocked in xEventGroupSync on `mask`. */
  predicate Syncer(v: bv32, mask: bv32) { v == ItemValue(mask, true, true) }

  /** Never clears a bit of `mask`. */
  predicate KeepsOff(v: bv32, mask: bv32) { !Clears(v) || !Overlaps(EventBits(v), mask) }

  ghost predicate BlockedOn(g: Group, mask: bv32, t: Task) {
    exists w :: w in g.waiting && w.task == t && Syncer(w.value, mask)
  }

  /** Nobody but the tasks that meet on `mask` will clear its bits. */
  ghost predicate Quiet(g: Group, mask: bv32) {
    QuietWaiters(g.waiting, mask) && QuietItems(g.items, mask)
  }

  ghost predicate QuietWaiters(ws: seq<Waiter>, mask: bv32) {
    forall w :: w in ws ==> Syncer(w.value, mask) || KeepsOff(w.value, mask)
  }

  ghost predicate QuietItems(items: map<Task, bv32>, mask: bv32) {
    forall t :: t in items ==> Unblocked(items[t]) || KeepsOff(items[t], mask)
  }

  /** The step belongs to the rendezvous on `mask`, or leaves its bits and tasks alone. */
  predicate Undisturbed(g: Group, step: Step, mask: bv32) {
    match step
    case Setting(_) => true
    case Clearing(bits) => !Overlaps(bits, mask)
    case Waiting(_, other, clearOnExit, _, _) => !clearOnExit || !Overlaps(other, mask)
    case Syncing(_, _, other, _) => other == mask || !Overlaps(other, mask)
    case TimingOut(i) => i < |g.waiting| && !Syncer(g.waiting[i].value, mask)
    case Resuming(_, _, _, _) => true
  }

  function BitsSetBy(step: Step): bv32 {
    if step.Setting? || step.Syncing? then step.bits else 0
  }

  predicate Meets(step: Step, mask: bv32) { step.Syncing? && step.mask == mask }

  /** `t` arrives and is ready to block. */
  predicate Arrives(step: Step, mask: bv32, t: Task) {
    Meets(step, mask) && step.block && step.task == t
  }

  lemma SyncerParts(v: bv32, mask: bv32, bits: bv32)
    requires Syncer(v, mask) && IsEventBits(mask)
    ensures EventBits(v) == mask && Clears(v)
    ensures Satisfied(v, bits) <==> Within(mask, bits)
  {
    hide ItemValue, EventBits, Satisfied, IsEventBits, Common, Clears;
    ItemValueParts(mask, true, true);
    ItemKeepsTheCondition(mask, true, true, bits);
    Commutes(mask, bits);
  }

  lemma WithoutDisjoint(a: bv32, b: bv32, mask: bv32)
    requires !Overlaps(b, mask)
    ensures Common(Without(a, b), mask) == Common(a, mask)
  {
  }

  lemma WithoutAll(a: bv32, b: bv32, mask: bv32)
    requires Within(mask, b)
    ensures Common(Without(a, b), mask) == 0
  {
  }

  /** While the bits of `mask` are not all there, setting bits only adds to them. */
  lemma SettingShortOfTheMask(g: Group, bits: bv32, mask: bv32)
    requires Inv(g) && Quiet(g, mask) && IsEventBits(mask) && !Within(mask, Union(g.bits, bits))
    ensures var h := SetBits(g, bits);
            Common(h.bits, mask) == Common(Union(g.bits, bits), mask)
    ensures forall t :: BlockedOn(SetBits(g, bits), mask, t) <==> BlockedOn(g, mask, t)
  {
    hide Satisfied, Released, BitsToClear, Union, Without, Overlaps, Common, Within, IsEventBits, Inv, Clears,
      EventBits, Syncer;
    var both := Union(g.bits, bits);
    forall w | w in g.waiting
      ensures Syncer(w.value, mask) ==> !Satisfied(w.value, both)
      ensures !Overlaps(BitsToClearFor(w.value, both), mask)
    {
      NoOverlap(mask);
      if Syncer(w.value, mask) {
        SyncerParts(w.value, mask, both);
      }
    }
    ClearedBits(g.waiting, both, mask);
    WithoutDisjoint(both, BitsToClear(g.waiting, both), mask);
  }

  /** The call that completes `mask` releases everyone who waits to meet on it, and
      leaves none of its bits behind. */
  lemma SettingCompletesTheMask(g: Group, bits: bv32, mask: bv32, t: Task)
    requires Inv(g) && IsEventBits(mask) && Within(mask, Union(g.bits, bits))
    ensures var h := SetBits(g, bits);
            && !BlockedOn(h, mask, t)
            && (BlockedOn(g, mask, t) ==>
                  t in h.items && h.items[t] == UnblockedValue(Union(g.bits, bits)) && Common(h.bits, mask) == 0)
  {
    hide Satisfied, Released, BitsToClear, Union, Without, Overlaps, Common, Within, IsEventBits, Inv, Clears,
      EventBits, Syncer, UnblockedValue;
    var both := Union(g.bits, bits);
    forall w | w in g.waiting && Syncer(w.value, mask)
      ensures Satisfied(w.value, both) && BitsToClearFor(w.value, both) == mask
    {
      SyncerParts(w.value, mask, both);
    }
    ReleasedItems(g.items, g.waiting, both, t);
    if BlockedOn(g, mask, t) {
      var w :| w in g.waiting && w.task == t && Syncer(w.value, mask);
      WaitedForIsCleared(g.waiting, both, w);
      WithoutAll(both, BitsToClear(g.waiting, both), mask);
    }
  }

  lemma WaitedForIsCleared(ws: seq<Waiter>, bits: bv32, w: Waiter)
    requires w in ws
    ensures Within(BitsToClearFor(w.value, bits), BitsToClear(ws, bits))
  {
    hide BitsToClear, BitsToClearFor, Overlaps, Within, OnlyIn;
    var x := OnlyIn(BitsToClearFor(w.value, bits), BitsToClear(ws, bits));
    ClearedBits(ws, bits, x);
  }

  lemma SettingKeepsQuiet(g: Group, bits: bv32, mask: bv32)
    requires Quiet(g, mask) && IsEventBits(Union(g.bits, bits))
    ensures Quiet(SetBits(g, bits), mask)
  {
    hide Satisfied, Released, BitsToClear, Union, Without, IsEventBits, Unblocked, UnblockedValue, KeepsOff, Syncer;
    var both := Union(g.bits, bits);
    UnblockedValueParts(both);
    forall t | t in SetBits(g, bits).items
      ensures Unblocked(SetBits(g, bits).items[t]) || KeepsOff(SetBits(g, bits).items[t], mask)
    {
      ReleasedItems(g.items, g.waiting, both, t);
    }
  }

  /** What a step does to the bits of `mask` and to the tasks blocked on it. */
  ghost predicate Gathers(g: Group, step: Step, mask: bv32, h: Group) {
    var both := Union(g.bits, BitsSetBy(step));
    && (!Within(mask, both) ==>
          && Common(h.bits, mask) == Common(both, mask)
          && forall t :: BlockedOn(h, mask, t) <==> BlockedOn(g, mask, t) || Arrives(step, mask, t))
    && (Within(mask, both) ==>
          && (forall t :: !BlockedOn(h, mask, t))
          && (forall t :: BlockedOn(g, mask, t) ==> t in h.items && h.items[t] == UnblockedValue(both))
          && (Meets(step, mask) || (exists t :: BlockedOn(g, mask, t)) ==> Common(h.bits, mask) == 0))
  }

  lemma SettingGathers(g: Group, bits: bv32, mask: bv32)
    requires Inv(g) && Quiet(g, mask) && IsEventBits(mask) && IsEventBits(bits)
    ensures Quiet(SetBits(g, bits), mask) && Gathers(g, Setting(bits), mask, SetBits(g, bits))
  {
    hide SetBits, IsEventBits, Quiet, Union, Common, Within, BlockedOn, UnblockedValue;
    assert IsEventBits(Union(g.bits, bits)) by { UnionOfEventBits(g.bits, bits); }
    SettingKeepsQuiet(g, bits, mask);
    if Within(mask, Union(g.bits, bits)) {
      forall t {
        SettingCompletesTheMask(g, bits, mask, t);
      }
    } else {
      SettingShortOfTheMask(g, bits, mask);
    }
  }

  /** Clearing other bits, or adding a waiter, as the first half of a wait or a rendezvous does. */
  lemma BlockingMore(h: Group, w: Waiter, mask: bv32)
    ensures var k := h.(waiting := h.waiting + [w]);
            && (Quiet(h, mask) && (Syncer(w.value, mask) || KeepsOff(w.value, mask)) ==> Quiet(k, mask))
            && forall t :: BlockedOn(k, mask, t) <==> BlockedOn(h, mask, t) || (w.task == t && Syncer(w.value, mask))
  {
    hide Syncer, KeepsOff, Unblocked;
    var k := h.(waiting := h.waiting + [w]);
    forall t
      ensures BlockedOn(k, mask, t) <==> BlockedOn(h, mask, t) || (w.task == t && Syncer(w.value, mask))
    {
      assert w in k.waiting;
      assert forall u :: u in h.waiting ==> u in k.waiting;
    }
  }

  lemma SameWaiters(g: Group, h: Group, mask: bv32)
    requires g.waiting == h.waiting
    ensures forall t :: BlockedOn(h, mask, t) <==> BlockedOn(g, mask, t)
  {
  }

  /** An item that keeps off: one that waits for other bits, or does not clear. */
  lemma OtherItem(other: bv32, clearOnExit: bool, waitForAll: bool, mask: bv32)
    requires IsEventBits(other) && IsEventBits(mask) && mask != 0
    requires !clearOnExit || !Overlaps(other, mask)
    ensures KeepsOff(ItemValue(other, clearOnExit, waitForAll), mask)
    ensures !Syncer(ItemValue(other, clearOnExit, waitForAll), mask)
  {
    hide ItemValue, EventBits, IsEventBits, Common, Clears, WaitsForAll, Unblocked;
    ItemValueParts(other, clearOnExit, waitForAll);
    ItemValueParts(mask, true, true);
    OverlapsItself(mask);
  }

  lemma OverlapsItself(mask: bv32)
    ensures Common(mask, mask) == mask
  {
  }

  /** Nobody is blocked on bits that are all there. */
  lemma NobodyBlockedOnCompleteMask(g: Group, mask: bv32)
    requires Inv(g) && IsEventBits(mask) && Within(mask, g.bits)
    ensures forall t :: !BlockedOn(g, mask, t)
  {
    hide Satisfied, Within, IsEventBits, Syncer, EventBits, Unblocked, Clears;
    forall w | w in g.waiting
      ensures !Syncer(w.value, mask)
    {
      assert Waits(w, g.bits);
      if Syncer(w.value, mask) {
        SyncerParts(w.value, mask, g.bits);
      }
    }
  }

  /** A step that sets no bits, keeps those of `mask` and neither adds to nor takes from the
      tasks blocked on it. */
  lemma KeepingOffGathers(g: Group, step: Step, mask: bv32, h: Group)
    requires Inv(g) && IsEventBits(mask) && BitsSetBy(step) == 0 && !Meets(step, mask)
    requires Common(h.bits, mask) == Common(g.bits, mask)
    requires forall t :: BlockedOn(h, mask, t) <==> BlockedOn(g, mask, t)
    ensures Gathers(g, step, mask, h)
  {
    hide Within, IsEventBits, BlockedOn, Union, Common, Inv, UnblockedValue, BitsSetBy;
    UnionWithNothing(g.bits);
    if Within(mask, g.bits) {
      NobodyBlockedOnCompleteMask(g, mask);
    }
  }

  lemma ClearingGathers(g: Group, bits: bv32, mask: bv32)
    requires Inv(g) && Quiet(g, mask) && IsEventBits(mask) && !Overlaps(bits, mask)
    ensures var h := g.(bits := Without(g.bits, bits));
            Quiet(h, mask) && Gathers(g, Clearing(bits), mask, h)
  {
    hide IsEventBits, Common, Gathers, Inv, Without, Overlaps, QuietWaiters, QuietItems, BlockedOn;
    var h := g.(bits := Without(g.bits, bits));
    WithoutDisjoint(g.bits, bits, mask);
    SameWaiters(g, h, mask);
    KeepingOffGathers(g, Clearing(bits), mask, h);
  }

  lemma WaitingGathers(g: Group, step: Step, mask: bv32)
    requires Inv(g) && Quiet(g, mask) && IsEventBits(mask) && mask != 0 && step.Waiting?
    requires Enabled(g, step) && Undisturbed(g, step, mask)
    ensures Quiet(Next(g, step), mask) && Gathers(g, step, mask, Next(g, step))
  {
    hide IsEventBits, Common, Gathers, Inv, Without, Overlaps, QuietWaiters, QuietItems, BlockedOn, WaitCondition,
      ItemValue, Syncer, KeepsOff, Idle;
    var h := Next(g, step);
    var w := Waiter(step.task, ItemValue(step.mask, step.clearOnExit, step.waitForAll));
    OtherItem(step.mask, step.clearOnExit, step.waitForAll, mask);
    BlockingMore(g, w, mask);
    if step.clearOnExit {
      WithoutDisjoint(g.bits, step.mask, mask);
    }
    SameWaiters(g, g.(bits := h.bits), mask);
    KeepingOffGathers(g, step, mask, h);
  }

  lemma TimingOutGathers(g: Group, i: nat, mask: bv32)
    requires Inv(g) && Quiet(g, mask) && IsEventBits(mask) && i < |g.waiting| && !Syncer(g.waiting[i].value, mask)
    ensures Quiet(TimeOut(g, i), mask) && Gathers(g, TimingOut(i), mask, TimeOut(g, i))
  {
    hide IsEventBits, Common, Gathers, Inv, Syncer, KeepsOff, Unblocked, BlockedOn;
    var h := TimeOut(g, i);
    TimeOutKeepsOthers(g, i, mask);
    assert g.waiting[i] in g.waiting;
    KeepingOffGathers(g, TimingOut(i), mask, h);
  }

  lemma TimeOutKeepsOthers(g: Group, i: nat, mask: bv32)
    requires i < |g.waiting| && !Syncer(g.waiting[i].value, mask)
    ensures forall t :: BlockedOn(TimeOut(g, i), mask, t) <==> BlockedOn(g, mask, t)
  {
    hide Syncer;
    assert g.waiting == g.waiting[..i] + [g.waiting[i]] + g.waiting[i + 1..];
  }

  lemma ResumingGathers(g: Group, step: Step, mask: bv32)
    requires Inv(g) && Quiet(g, mask) && IsEventBits(mask) && step.Resuming? && Enabled(g, step)
    ensures Quiet(Next(g, step), mask) && Gathers(g, step, mask, Next(g, step))
  {
    hide IsEventBits, Common, Gathers, Inv, Without, Overlaps, QuietWaiters, BlockedOn, WaitCondition, ItemValue,
      EventBits, Unblocked, Clears;
    var h := Next(g, step);
    ItemValueParts(step.mask, step.clearOnExit, step.waitForAll);
    if h.bits != g.bits {
      WithoutDisjoint(g.bits, step.mask, mask);
    }
    SameWaiters(g, h, mask);
    KeepingOffGathers(g, step, mask, h);
  }

  lemma SyncingGathers(g: Group, step: Step, mask: bv32)
    requires Inv(g) && Quiet(g, mask) && IsEventBits(mask) && mask != 0 && step.Syncing?
    requires Enabled(g, step) && Undisturbed(g, step, mask)
    ensures Quiet(Next(g, step), mask) && Gathers(g, step, mask, Next(g, step))
  {
    hide IsEventBits, Common, Inv, Without, Overlaps, QuietWaiters, QuietItems, BlockedOn, ItemValue, SetBits,
      UnblockedValue, Union, Idle, KeepsOff, Syncer;
    var h, both := SetBits(g, step.bits), Union(g.bits, step.bits);
    var w := Waiter(step.task, ItemValue(step.mask, true, true));
    SettingGathers(g, step.bits, mask);
    Commutes(both, step.mask);
    BlockingMore(h, w, mask);
    SameWaiters(h, h.(bits := Without(h.bits, step.mask)), mask);
    if step.mask == mask {
      assert Syncer(w.value, mask) by { IsSyncer(mask); }
      assert Common(Without(h.bits, mask), mask) == 0 by { WithoutItself(h.bits, mask); }
    } else {
      OtherItem(step.mask, true, true, mask);
      WithoutDisjoint(h.bits, step.mask, mask);
    }
  }

  lemma IsSyncer(mask: bv32)
    ensures Syncer(ItemValue(mask, true, true), mask)
  {
  }

  lemma WithoutItself(a: bv32, mask: bv32)
    ensures Common(Without(a, mask), mask) == 0
  {
  }

  lemma StepGathers(g: Group, step: Step, mask: bv32)
    requires Inv(g) && Quiet(g, mask) && IsEventBits(mask) && mask != 0
    requires Enabled(g, step) && Undisturbed(g, step, mask)
    ensures Quiet(Next(g, step), mask) && Gathers(g, step, mask, Next(g, step))
  {
    hide IsEventBits, Gathers, Inv, Quiet, Overlaps, Syncer, SetBits, TimeOut, WaitBits, Sync, Resume, Idle;
    match step
    case Setting(bits) => SettingGathers(g, bits, mask);
    case Clearing(bits) => ClearingGathers(g, bits, mask);
    case Waiting(_, _, _, _, _) => WaitingGathers(g, step, mask);
    case Syncing(_, _, _, _) => SyncingGathers(g, step, mask);
    case TimingOut(i) => TimingOutGathers(g, i, mask);
    case Resuming(_, _, _, _) => ResumingGathers(g, step, mask);
  }

  /** The bits at the start together with all that the first `n` steps set. */
  function Gathered(bits: bv32, steps: seq<Step>, n: nat): bv32
    requires n <= |steps|
  {
    if n == 0 then bits else Union(Gathered(bits, steps, n - 1), BitsSetBy(steps[n - 1]))
  }

  ghost predicate Arrived(steps: seq<Step>, n: nat, mask: bv32, t: Task)
    requires n <= |steps|
  {
    exists k :: 0 <= k < n && Arrives(steps[k], mask, t)
  }

  /** A run in which a rendezvous on `mask` starts, and others do as they like with other
      bits up to step `n`; the first `n` steps have not yet gathered all of `mask`. */
  ghost predicate Meeting(states: seq<Group>, steps: seq<Step>, mask: bv32, n: nat) {
    && IsRun(states, steps) && n <= |steps|
    && Inv(states[0]) && Quiet(states[0], mask) && IsEventBits(mask) && mask != 0
    && (forall t :: !BlockedOn(states[0], mask, t))
    && (forall k :: 0 <= k <= n && k < |steps| ==> Undisturbed(states[k], steps[k], mask))
    && (forall k :: 0 <= k <= n ==> !Within(mask, Gathered(states[0].bits, steps, k)))
  }

  lemma SameBitsGathered(a: bv32, b: bv32, c: bv32, mask: bv32)
    requires Common(a, mask) == Common(b, mask)
    ensures Common(Union(a, c), mask) == Common(Union(b, c), mask)
  {
    hide Common, Union;
    CommonDistributes(a, c, mask);
    CommonDistributes(b, c, mask);
  }

  lemma CommonDistributes(a: bv32, b: bv32, mask: bv32)
    ensures Common(Union(a, b), mask) == Union(Common(a, mask), Common(b, mask))
  {
    assert Common(a | b, mask) == (a | b) & mask;
  }

  lemma SameWithin(a: bv32, b: bv32, mask: bv32)
    requires Common(a, mask) == Common(b, mask)
    ensures Within(mask, a) <==> Within(mask, b)
  {
    hide Common;
    Commutes(a, mask);
    Commutes(b, mask);
  }

  /** Nobody who has arrived leaves before all the bits are there, and until then the bits
      of the group are the ones gathered. */
  lemma {:induction false} NoneLeavesBeforeTheLastArrives(states: seq<Group>, steps: seq<Step>, mask: bv32, n: nat)
    requires Meeting(states, steps, mask, n)
    ensures Inv(states[n]) && Quiet(states[n], mask)
    ensures Common(states[n].bits, mask) == Common(Gathered(states[0].bits, steps, n), mask)
    ensures forall t :: BlockedOn(states[n], mask, t) <==> Arrived(steps, n, mask, t)
  {
    hide Next, Enabled, Inv, Quiet, IsEventBits, Undisturbed, BlockedOn, Within, Common, Union, Arrives, BitsSetBy;
    if n > 0 {
      NoneLeavesBeforeTheLastArrives(states, steps, mask, n - 1);
      var g, step := states[n - 1], steps[n - 1];
      StepKeepsInv(g, step);
      StepGathers(g, step, mask);
      SameBitsGathered(g.bits, Gathered(states[0].bits, steps, n - 1), BitsSetBy(step), mask);
      SameWithin(Union(g.bits, BitsSetBy(step)), Gathered(states[0].bits, steps, n), mask);
      assert !Within(mask, Gathered(states[0].bits, steps, n));
      forall t
        ensures BlockedOn(states[n], mask, t) <==> Arrived(steps, n, mask, t)
      {
        assert Arrived(steps, n, mask, t) <==> Arrived(steps, n - 1, mask, t) || Arrives(step, mask, t);
      }
    }
  }

  /** Rendezvous.  The step that brings the last bit of `mask` releases everyone who has
      arrived before, each with a value that holds the whole mask (and, stripped of the
      control bits, is that value); the task that brings the last bit does not block; nobody
      finds a bit of the mask afterwards; and whenever one of them runs again, its call
      returns that value. */
  lemma AllLeaveTogether(states: seq<Group>, steps: seq<Step>, mask: bv32, n: nat)
    requires Meeting(states, steps, mask, n) && n < |steps|
    requires Within(mask, Gathered(states[0].bits, steps, n + 1))
    ensures var value, h := Union(states[n].bits, BitsSetBy(steps[n])), states[n + 1];
            && Within(mask, value)
            && (forall t :: !BlockedOn(h, mask, t))
            && (forall t :: Arrived(steps, n, mask, t) ==>
                  t in h.items && EventBits(h.items[t]) == value && Unblocked(h.items[t]))
            && (Meets(steps[n], mask) || (exists t :: Arrived(steps, n, mask, t)) ==> Common(h.bits, mask) == 0)
            && (Meets(steps[n], mask) ==> Result(states[n], steps[n]) == Returned(value))
            && (forall t :: Arrived(steps, n, mask, t) ==> ReturnsLater(states, steps, n + 1, t, value))
  {
    hide Next, Inv, Quiet, IsEventBits, Undisturbed, BlockedOn, Within, Common, Union, Arrives, BitsSetBy, EventBits,
      Unblocked, UnblockedValue, Arrived, Meets, Idle, Enabled, Result, ReturnsLater;
    NoneLeavesBeforeTheLastArrives(states, steps, mask, n);
    var g, step := states[n], steps[n];
    assert Enabled(g, step) && Next(g, step) == states[n + 1];
    StepGathers(g, step, mask);
    SameBitsGathered(g.bits, Gathered(states[0].bits, steps, n), BitsSetBy(step), mask);
    var value := Union(g.bits, BitsSetBy(step));
    SameWithin(value, Gathered(states[0].bits, steps, n + 1), mask);
    assert IsEventBits(value) by {
      BitsSetAreEventBits(g, step);
      assert IsEventBits(g.bits) by { InvBits(g); }
      UnionOfEventBits(g.bits, BitsSetBy(step));
    }
    UnblockedValueParts(value);
    MeetingReturns(g, step, mask);
    StepKeepsInv(g, step);
    forall t | Arrived(steps, n, mask, t)
      ensures ReturnsLater(states, steps, n + 1, t, value)
    {
      ReleasedCallReturns(states, steps, n + 1, t);
    }
  }

  lemma InvBits(g: Group)
    requires Inv(g)
    ensures IsEventBits(g.bits)
  {
  }

  lemma BitsSetAreEventBits(g: Group, step: Step)
    requires Enabled(g, step)
    ensures IsEventBits(BitsSetBy(step))
  {
  }

  lemma MeetingReturns(g: Group, step: Step, mask: bv32)
    requires Enabled(g, step) && Meets(step, mask) ==> Within(mask, Union(g.bits, BitsSetBy(step)))
    requires Enabled(g, step)
    ensures Meets(step, mask) ==> Result(g, step) == Returned(Union(g.bits, BitsSetBy(step)))
  {
    hide Common, Union;
    if Meets(step, mask) {
      Commutes(mask, Union(g.bits, BitsSetBy(step)));
    }
  }

  /** Whoever is released finds in its item bits that meet its own condition, free of
      control bits. */
  lemma ReleasedValueMeetsTheCondition(g: Group, bits: bv32, w: Waiter)
    requires Inv(g) && IsEventBits(bits) && w in g.waiting && w !in SetBits(g, bits).waiting
    ensures var h := SetBits(g, bits);
            && w.task in h.items && Unblocked(h.items[w.task])
            && Satisfied(w.value, EventBits(h.items[w.task])) && IsEventBits(EventBits(h.items[w.task]))
  {
    hide Satisfied, SetBits, UnblockedValue, EventBits, Unblocked, IsEventBits, Union;
    var both := Union(g.bits, bits);
    SettingReleasesExactly(g, bits, w, 0);
    InvBits(g);
    UnionOfEventBits(g.bits, bits);
    UnblockedValueParts(both);
  }

  predicate Releasing(step: Step) { step.Setting? || step.Syncing? }

  /** Over any run: whoever is released by a step returns bits that meet its own condition,
      whenever it runs again. */
  lemma ReleasedCallMeetsItsCondition(states: seq<Group>, steps: seq<Step>, n: nat, w: Waiter)
    requires IsRun(states, steps) && states[0] == INITIAL && n < |steps| && Releasing(steps[n])
    requires w in states[n].waiting && Satisfied(w.value, Union(states[n].bits, steps[n].bits))
    ensures var value := Union(states[n].bits, steps[n].bits);
            && ReturnsLater(states, steps, n + 1, w.task, value)
            && Satisfied(w.value, value) && IsEventBits(value)
  {
    hide Next, Enabled, Satisfied, SetBits, UnblockedValue, EventBits, Unblocked, IsEventBits, Union, ReturnsLater, Inv;
    var g, step := states[n], steps[n];
    var both := Union(g.bits, step.bits);
    InitialInv();
    RunKeepsInv(states, steps, n);
    StepKeepsInv(g, step);
    assert Enabled(g, step) && states[n + 1] == Next(g, step);
    SettingReleasesExactly(g, step.bits, w, 0);
    ItemsAfterRelease(g, step);
    assert IsEventBits(g.bits) by { InvBits(g); }
    UnionOfEventBits(g.bits, step.bits);
    UnblockedValueParts(both);
    ReleasedCallReturns(states, steps, n + 1, w.task);
  }

  lemma InitialInv()
    ensures Inv(INITIAL)
  {
  }

  lemma ItemsAfterRelease(g: Group, step: Step)
    requires Enabled(g, step) && Releasing(step)
    ensures IsEventBits(step.bits)
    ensures Next(g, step).items == SetBits(g, step.bits).items
  {
    hide SetBits, WaitCondition, Union, IsEventBits, ItemValue, Without;
  }

  // ------------------------------------------------------- taken bits are gone

  /** A step that ends a call on `mask`, with its condition met and to clear on exit: at once, after
      a timeout, or by releasing the blocked task. */
  ghost predicate Takes(g: Group, step: Step, mask: bv32)
    requires Enabled(g, step)
  {
    match step
    case Waiting(_, m, clearOnExit, waitForAll, _) =>
      m == mask && clearOnExit && WaitCondition(g.bits, mask, waitForAll)
    case Resuming(t, m, clearOnExit, waitForAll) =>
      m == mask && clearOnExit && !Unblocked(g.items[t]) && WaitCondition(g.bits, mask, waitForAll)
    case Syncing(_, bits, m, _) => m == mask && WaitCondition(Union(g.bits, bits), mask, true)
    case Setting(bits) =>
      exists w :: w in g.waiting && EventBits(w.value) == mask && ClearsOnRelease(w.value, Union(g.bits, bits))
    case _ => false
  }

  /** The bits that a call takes are gone with it. */
  lemma TakenBitsAreGone(g: Group, step: Step, mask: bv32)
    requires Enabled(g, step) && Takes(g, step, mask)
    ensures Common(Next(g, step).bits, mask) == 0
  {
    hide WaitCondition, Union, Without, Common, Satisfied, Clears, EventBits, Unblocked, Unsatisfied, Released,
      BitsToClear, ItemValue, IsEventBits;
    match step {
      case Waiting(_, _, _, _, _) => GoneWithout(g.bits, mask);
      case Resuming(_, _, _, _) => GoneWithout(g.bits, mask);
      case Syncing(_, bits, _, _) => GoneWithout(SetBits(g, bits).bits, mask);
      case Setting(bits) =>
        var both := Union(g.bits, bits);
        var w :| w in g.waiting && EventBits(w.value) == mask && ClearsOnRelease(w.value, both);
        SameBitsCleared([w], g.waiting, both);
        assert BitsToClear([w], both) == mask by { OneToClear(w, both); }
        GoneWithin(both, BitsToClear(g.waiting, both), mask);
    }
  }

  lemma OneToClear(w: Waiter, bits: bv32)
    ensures BitsToClear([w], bits) == BitsToClearFor(w.value, bits)
  {
    hide Union, BitsToClearFor;
    UnionWithNothing(BitsToClearFor(w.value, bits));
    assert [w][1..] == [];
  }

  lemma GoneWithout(a: bv32, mask: bv32)
    ensures Common(Without(a, mask), mask) == 0
  {
  }

  lemma GoneWithin(a: bv32, b: bv32, mask: bv32)
    requires Within(mask, b)
    ensures Common(Without(a, b), mask) == 0
  {
  }

  /** The bits that a step sets. */
  function Sets(step: Step): bv32 {
    if step.Setting? || step.Syncing? then step.bits else 0
  }

  lemma StayGone(g: Group, step: Step, mask: bv32)
    requires Enabled(g, step) && Common(g.bits, mask) == 0 && Common(Sets(step), mask) == 0
    ensures Common(Next(g, step).bits, mask) == 0
  {
    hide WaitCondition, Union, Without, Common, Unsatisfied, Released, BitsToClear, ItemValue, IsEventBits, Unblocked;
    match step {
      case Setting(bits) =>
        LessStillGone(g.bits, bits, BitsToClear(g.waiting, Union(g.bits, bits)), mask);
      case Clearing(bits) => LessGone(g.bits, bits, mask);
      case Waiting(_, m, _, _, _) => LessGone(g.bits, m, mask);
      case Syncing(_, bits, m, _) =>
        LessStillGone(g.bits, bits, BitsToClear(g.waiting, Union(g.bits, bits)), mask);
        LessGone(SetBits(g, bits).bits, m, mask);
      case TimingOut(_) =>
      case Resuming(_, m, _, _) => LessGone(g.bits, m, mask);
    }
  }

  lemma LessGone(a: bv32, b: bv32, mask: bv32)
    requires Common(a, mask) == 0
    ensures Common(Without(a, b), mask) == 0
  {
  }

  lemma LessStillGone(a: bv32, b: bv32, c: bv32, mask: bv32)
    requires Common(a, mask) == 0 && Common(b, mask) == 0
    ensures Common(Without(Union(a, b), c), mask) == 0
  {
    UnionGone(a, b, mask);
    LessGone(Union(a, b), c, mask);
  }

  lemma UnionGone(a: bv32, b: bv32, mask: bv32)
    requires Common(a, mask) == 0 && Common(b, mask) == 0
    ensures Common(Union(a, b), mask) == 0
  {
    Distributes(a, b, mask);
  }

  /** A call that blocks leaves its wish in the list: released, it takes its bits exactly if it was
      to clear on exit. */
  lemma BlockedCallKeepsItsWish(g: Group, step: Step, h: Group, bits: bv32)
    requires Enabled(g, step) && (step.Waiting? || step.Syncing?) && Result(g, step) == Blocked
    requires IsEventBits(bits)
    ensures Next(g, step).waiting != []
    ensures var w := Next(g, step).waiting[|Next(g, step).waiting| - 1];
            && w.task == step.task && EventBits(w.value) == step.mask && !Unblocked(w.value)
            && Clears(w.value) == (step.Syncing? || step.clearOnExit)
            && (Satisfied(w.value, bits) <==> WaitCondition(bits, step.mask, step.Syncing? || step.waitForAll))
            && (w in h.waiting && Satisfied(w.value, Union(h.bits, bits)) && Clears(w.value) ==>
                  Takes(h, Setting(bits), step.mask))
  {
    hide ItemValue, EventBits, Clears, Unblocked, Satisfied, WaitCondition, Union, Without, SetBits, IsEventBits, Idle;
    match step {
      case Waiting(t, mask, clearOnExit, waitForAll, _) =>
        ItemValueParts(mask, clearOnExit, waitForAll);
        ItemKeepsTheCondition(mask, clearOnExit, waitForAll, bits);
      case Syncing(t, _, mask, _) =>
        ItemValueParts(mask, true, true);
        ItemKeepsTheCondition(mask, true, true, bits);
    }
  }

  /** An event is delivered once: over any run, after a call has taken the bits of its mask no
      other call on that mask has its condition met before one of the bits is set again. */
  lemma {:induction false} DeliveredOnce(states: seq<Group>, steps: seq<Step>, i: nat, j: nat, mask: bv32, all: bool)
    requires IsRun(states, steps) && i < j < |states| && mask != 0
    requires Takes(states[i], steps[i], mask)
    requires forall k :: i < k < j ==> Common(Sets(steps[k]), mask) == 0
    ensures Common(states[j].bits, mask) == 0 && !WaitCondition(states[j].bits, mask, all)
    decreases j
  {
    hide Next, Enabled, Takes, Common, Sets;
    if i + 1 < j {
      DeliveredOnce(states, steps, i, j - 1, mask, all);
      StayGone(states[j - 1], steps[j - 1], mask);
    } else {
      TakenBitsAreGone(states[i], steps[i], mask);
    }
  }

  // ---------------------------------------------------- who leaves the list

  /** The entry leaves the list with its block time over. */
  predicate TimesOut(g: Group, step: Step, w: Waiter) {
    step.TimingOut? && step.position < |g.waiting| && g.waiting[step.position] == w
  }

  /** A blocked task stays on the list until its condition is met by a set, or its block time ends. */
  lemma StaysOrLeaves(g: Group, step: Step, w: Waiter)
    requires Inv(g) && Enabled(g, step) && w in g.waiting
    ensures w in Next(g, step).waiting || TimesOut(g, step, w) ||
      ((step.Setting? || step.Syncing?) && Satisfied(w.value, Union(g.bits, step.bits)))
    ensures TimesOut(g, step, w) ==> w.task in Next(g, step).items && Next(g, step).items[w.task] == w.value
  {
    hide WaitCondition, Union, Without, Satisfied, Released, BitsToClear, ItemValue, IsEventBits, Unblocked, AllWait;
  }

  lemma {:induction false} StaysUntilMet(states: seq<Group>, steps: seq<Step>, i: nat, j: nat, w: Waiter)
    requires IsRun(states, steps) && states[0] == INITIAL && i <= j < |states| && w in states[i].waiting
    requires forall k :: i <= k < j ==> !TimesOut(states[k], steps[k], w)
    requires forall k :: i <= k < j && (steps[k].Setting? || steps[k].Syncing?) ==>
               !Satisfied(w.value, Union(states[k].bits, steps[k].bits))
    ensures w in states[j].waiting
    decreases j
  {
    hide Next, Enabled, Satisfied, TimesOut, Union, Inv;
    if i < j {
      StaysUntilMet(states, steps, i, j - 1, w);
      InitialInv();
      RunKeepsInv(states, steps, j - 1);
      StaysOrLeaves(states[j - 1], steps[j - 1], w);
    }
  }

  // ------------------------------------------------------ the walk along the list

  /** The walk has come to entry `i` of what is left of the list `ws`. */
  ghost predicate Judging(ws: seq<Waiter>, items: map<Task, bv32>, bits: bv32,
                          list: seq<Waiter>, i: nat, soFar: map<Task, bv32>, clear: bv32)
  {
    && i <= |list|
    && list[..i] + Unsatisfied(list[i..], bits) == Unsatisfied(ws, bits)
    && Released(soFar, list[i..], bits) == Released(items, ws, bits)
    && Union(clear, BitsToClear(list[i..], bits)) == BitsToClear(ws, bits)
  }

  lemma JudgingStarts(ws: seq<Waiter>, items: map<Task, bv32>, bits: bv32)
    ensures Judging(ws, items, bits, ws, 0, items, 0)
  {
    hide Unsatisfied, Released, BitsToClear, Union;
    assert ws[0..] == ws;
    UnionWithNothing(BitsToClear(ws, bits));
  }

  lemma JudgingEnds(ws: seq<Waiter>, items: map<Task, bv32>, bits: bv32,
                    list: seq<Waiter>, i: nat, soFar: map<Task, bv32>, clear: bv32)
    requires Judging(ws, items, bits, list, i, soFar, clear) && i == |list|
    ensures list == Unsatisfied(ws, bits) && soFar == Released(items, ws, bits) && clear == BitsToClear(ws, bits)
  {
    hide Union;
    UnionWithNothing(clear);
  }

  lemma JudgedUnmet(ws: seq<Waiter>, items: map<Task, bv32>, bits: bv32,
                    list: seq<Waiter>, i: nat, soFar: map<Task, bv32>, clear: bv32)
    requires Judging(ws, items, bits, list, i, soFar, clear) && i < |list| && !Satisfied(list[i].value, bits)
    ensures Judging(ws, items, bits, list, i + 1, soFar, clear)
  {
    hide Satisfied, Clears, EventBits, Union, UnblockedValue;
    var w, rest := list[i], list[i + 1..];
    assert list[i..][0] == w && list[i..][1..] == rest;
    UnionWithNothing(BitsToClear(rest, bits));
    assert list[..i + 1] == list[..i] + [w];
  }

  lemma HeadIsReleased(ws: seq<Waiter>, items: map<Task, bv32>, bits: bv32)
    requires ws != [] && Satisfied(ws[0].value, bits)
    ensures Unsatisfied(ws, bits) == Unsatisfied(ws[1..], bits)
    ensures Released(items, ws, bits) == Released(items[ws[0].task := UnblockedValue(bits)], ws[1..], bits)
    ensures BitsToClear(ws, bits) == Union(BitsToClearFor(ws[0].value, bits), BitsToClear(ws[1..], bits))
  {
  }

  lemma JudgedMet(ws: seq<Waiter>, items: map<Task, bv32>, bits: bv32,
                  list: seq<Waiter>, i: nat, soFar: map<Task, bv32>, clear: bv32)
    requires Judging(ws, items, bits, list, i, soFar, clear) && i < |list| && Satisfied(list[i].value, bits)
    ensures Judging(ws, items, bits, list[..i] + list[i + 1..], i,
                    soFar[list[i].task := UnblockedValue(bits)], Union(clear, BitsToClearFor(list[i].value, bits)))
  {
    hide Satisfied, Union, UnblockedValue, BitsToClearFor, Unsatisfied, Released, BitsToClear;
    var rest := list[i + 1..];
    assert list[i..][0] == list[i] && list[i..][1..] == rest;
    assert (list[..i] + rest)[..i] == list[..i] && (list[..i] + rest)[i..] == rest;
    HeadIsReleased(list[i..], soFar, bits);
    UnionIsAssociative(clear, BitsToClearFor(list[i].value, bits), BitsToClear(rest, bits));
  }

  // ------------------------------------------------------ the calls themselves

  class EventGroup {
    var eventBits: bv32
    var tasksWaitingForBits: seq<Waiter>
    var eventItems: map<Task, bv32>  // the event list items of the tasks that have left the list

    ghost function Abs(): Group
      reads this
    {
      Group(eventBits, tasksWaitingForBits, eventItems)
    }

    /** xEventGroupCreate */
    constructor ()
      ensures Abs() == INITIAL && Inv(Abs())
    {
      eventBits, tasksWaitingForBits, eventItems := 0, [], map[];
    }

    /** xEventGroupSetBits */
    method SetEventBits(bitsToSet: bv32) returns (value: bv32)
      requires Inv(Abs()) && IsEventBits(bitsToSet)
      modifies this
      ensures Abs() == SetBits(old(Abs()), bitsToSet) && Inv(Abs()) && value == eventBits
    {
      hide Satisfied, Clears, EventBits, Union, Without, IsEventBits, UnblockedValue, Inv, Judging;
      SetBitsKeeps(Abs(), bitsToSet);
      ghost var ws, items := tasksWaitingForBits, eventItems;
      eventBits := Union(eventBits, bitsToSet);
      var i, bitsToClear: bv32 := 0, 0;
      JudgingStarts(ws, items, eventBits);
      while i < |tasksWaitingForBits|
        invariant i <= |tasksWaitingForBits| && eventBits == Union(old(eventBits), bitsToSet)
        invariant Judging(ws, items, eventBits, tasksWaitingForBits, i, eventItems, bitsToClear)
        decreases |tasksWaitingForBits| - i
      {
        var w := tasksWaitingForBits[i];
        if Satisfied(w.value, eventBits) {
          JudgedMet(ws, items, eventBits, tasksWaitingForBits, i, eventItems, bitsToClear);
          UnionWithNothing(bitsToClear);
          if Clears(w.value) {
            bitsToClear := Union(bitsToClear, EventBits(w.value));
          }
          eventItems := eventItems[w.task := UnblockedValue(eventBits)];
          tasksWaitingForBits := tasksWaitingForBits[..i] + tasksWaitingForBits[i + 1..];
        } else {
          JudgedUnmet(ws, items, eventBits, tasksWaitingForBits, i, eventItems, bitsToClear);
          i := i + 1;
        }
      }
      JudgingEnds(ws, items, eventBits, tasksWaitingForBits, i, eventItems, bitsToClear);
      eventBits := Without(eventBits, bitsToClear);
      value := eventBits;
    }

    /** xEventGroupClearBits */
    method ClearEventBits(bitsToClear: bv32) returns (value: bv32)
      requires Inv(Abs()) && IsEventBits(bitsToClear)
      modifies this
      ensures Abs() == Next(old(Abs()), Clearing(bitsToClear)) && Inv(Abs())
      ensures value == old(eventBits)
      ensures Cleared(old(eventBits), eventBits, bitsToClear)
      ensures tasksWaitingForBits == old(tasksWaitingForBits) && eventItems == old(eventItems)
    {
      WithoutClears(eventBits, bitsToClear);
      StepKeepsInv(Abs(), Clearing(bitsToClear));
      value := eventBits;
      eventBits := Without(eventBits, bitsToClear);
    }

    /** xEventGroupWaitBits, up to where the task blocks.  A call whose condition is met takes the
        bits of its mask with it, if it is to clear on exit, and no others. */
    method WaitEventBits(t: Task, mask: bv32, clearOnExit: bool, waitForAll: bool, block: bool)
      returns (outcome: Outcome)
      requires Inv(Abs()) && Enabled(Abs(), Waiting(t, mask, clearOnExit, waitForAll, block))
      modifies this
      ensures Inv(Abs())
      ensures var step := Waiting(t, mask, clearOnExit, waitForAll, block);
              Abs() == Next(old(Abs()), step) && outcome == Result(old(Abs()), step)
      ensures var met := WaitCondition(old(eventBits), mask, waitForAll);
              && outcome == (if met || !block then Returned(old(eventBits)) else Blocked)
              && (if met && clearOnExit then Cleared(old(eventBits), eventBits, mask) else eventBits == old(eventBits))
      ensures tasksWaitingForBits == old(tasksWaitingForBits) +
                if outcome == Blocked then [Waiter(t, ItemValue(mask, clearOnExit, waitForAll))] else []
      ensures eventItems == old(eventItems)
    {
      hide Inv, WaitCondition, IsEventBits, Idle, Without, ItemValue, Cleared;
      WithoutClears(eventBits, mask);
      StepKeepsInv(Abs(), Waiting(t, mask, clearOnExit, waitForAll, block));
      if WaitCondition(eventBits, mask, waitForAll) {
        outcome := Returned(eventBits);
        if clearOnExit {
          eventBits := Without(eventBits, mask);
        }
      } else if !block {
        outcome := Returned(eventBits);
      } else {
        tasksWaitingForBits := tasksWaitingForBits + [Waiter(t, ItemValue(mask, clearOnExit, waitForAll))];
        outcome := Blocked;
      }
    }

    /** xEventGroupSync, up to where the task blocks. */
    method SyncEventBits(t: Task, bitsToSet: bv32, mask: bv32, block: bool) returns (outcome: Outcome)
      requires Inv(Abs()) && Enabled(Abs(), Syncing(t, bitsToSet, mask, block))
      modifies this
      ensures Inv(Abs())
      ensures var step := Syncing(t, bitsToSet, mask, block);
              Abs() == Next(old(Abs()), step) && outcome == Result(old(Abs()), step)
      ensures var both, h := Union(old(eventBits), bitsToSet), SetBits(old(Abs()), bitsToSet);
              if WaitCondition(both, mask, true) then outcome == Returned(both) && Cleared(h.bits, eventBits, mask)
              else eventBits == h.bits && outcome == if block then Blocked else Returned(eventBits)
    {
      hide Inv, WaitCondition, IsEventBits, Idle, Without, ItemValue, SetBits, Union, Cleared;
      WithoutClears(SetBits(Abs(), bitsToSet).bits, mask);
      StepKeepsInv(Abs(), Syncing(t, bitsToSet, mask, block));
      var original := eventBits;
      var value := SetEventBits(bitsToSet);
      if WaitCondition(Union(original, bitsToSet), mask, true) {
        outcome := Returned(Union(original, bitsToSet));
        eventBits := Without(eventBits, mask);
      } else if block {
        tasksWaitingForBits := tasksWaitingForBits + [Waiter(t, ItemValue(mask, true, true))];
        outcome := Blocked;
      } else {
        outcome := Returned(eventBits);
      }
    }

    /** xEventGroupWaitBits and xEventGroupSync once the task runs again; the latter always
        clears on exit and waits for all bits. */
    method AfterBlocking(t: Task, mask: bv32, clearOnExit: bool, waitForAll: bool) returns (value: bv32)
      requires Inv(Abs()) && Enabled(Abs(), Resuming(t, mask, clearOnExit, waitForAll))
      modifies this
      ensures Inv(Abs())
      ensures var step := Resuming(t, mask, clearOnExit, waitForAll);
              Abs() == Next(old(Abs()), step) && Returned(value) == Result(old(Abs()), step)
      ensures if Unblocked(old(eventItems)[t]) then
                value == EventBits(old(eventItems)[t]) && eventBits == old(eventBits)
              else
                && value == EventBits(old(eventBits))
                && if clearOnExit && WaitCondition(old(eventBits), mask, waitForAll)
                   then Cleared(old(eventBits), eventBits, mask) else eventBits == old(eventBits)
      ensures tasksWaitingForBits == old(tasksWaitingForBits) && eventItems == old(eventItems) - {t}
    {
      hide Inv, WaitCondition, IsEventBits, Idle, Without, ItemValue, EventBits, Unblocked, Cleared;
      WithoutClears(eventBits, mask);
      StepKeepsInv(Abs(), Resuming(t, mask, clearOnExit, waitForAll));
      value := eventItems[t];
      eventItems := eventItems - {t};
      if !Unblocked(value) {
        value := eventBits;
        if WaitCondition(value, mask, waitForAll) {
          if clearOnExit {
            eventBits := Without(eventBits, mask);
          }
        }
      }
      value := EventBits(value);
    }
  }
}
