/** The co-routine scheduler of `croutine.c`.

    The lists are the sequences that `KernelList` proves of the heap.  The ghost field
    `tick` is the true, unbounded value of the co-routine tick count, and `due` the true
    tick that a delayed co-routine asked for. */
module CoRoutines {
  import opened KernelList
  import opened TickCount

  type Id = nat

  datatype Option<T> = None | Some(value: T)

  /** The list a co-routine's generic item is in. */
  datatype Place = Ready(priority: nat) | DelayedIn(first: bool)

  /** The list its event item is in. */
  datatype EventPlace = NoEvent | Waiting(list: nat) | Pending

  /** `at` is the position of pxIndex; the end marker is behind the items. */
  datatype ReadyList = ReadyList(items: seq<Id>, at: nat)

  // ------------------------------------------------------------------- lists

  ghost predicate Distinct(s: seq<Id>) {
    forall i, j :: 0 <= i < j < |s| ==> s[i] != s[j]
  }

  /** The list holds exactly the items that say they are in it, each once. */
  ghost predicate Filed<P>(s: seq<Id>, place: map<Id, P>, p: P) {
    Distinct(s) && forall id :: id in s <==> id in place && place[id] == p
  }

  lemma RemovedIsFiled<P>(s: seq<Id>, place: map<Id, P>, p: P, k: nat, q: P)
    requires Filed(s, place, p) && k < |s| && q != p
    ensures Filed(Removed(s, k), place[s[k] := q], p)
  {
    RemovedMembers(s, k);
  }

  lemma InsertedIsFiled<P>(s: seq<Id>, place: map<Id, P>, p: P, k: nat, id: Id)
    requires Filed(s, place, p) && k <= |s| && id !in s
    ensures Filed(Inserted(s, k, id), place[id := p], p)
  {
    InsertedMembers(s, k, id);
  }

  lemma OthersAreFiled<P>(s: seq<Id>, place: map<Id, P>, p: P, id: Id, q: P)
    requires Filed(s, place, p) && id !in s && q != p
    ensures Filed(s, place[id := q], p)
  {
  }

  // -------------------------------------------------------------- wake times

  /** The item values of a delay list. */
  function Values(s: seq<Id>, wake: map<Id, nat>): (v: seq<nat>)
    requires forall id :: id in s ==> id in wake
    ensures |v| == |s| && forall i :: 0 <= i < |s| ==> v[i] == wake[s[i]]
  {
    seq(|s|, i requires 0 <= i < |s| => assert s[i] in s; wake[s[i]])
  }

  /** The items are due in the epoch, from `from` on and before `before`. */
  ghost predicate DueWithin(s: seq<Id>, wake: map<Id, nat>, due: map<Id, nat>, epoch: nat, from: nat, before: nat) {
    forall id :: id in s ==>
      && id in wake && id in due
      && wake[id] == Wrapped(due[id]) && Epoch(due[id]) == epoch && from <= due[id] < before
  }

  ghost predicate InOrder(s: seq<Id>, wake: map<Id, nat>) {
    (forall id :: id in s ==> id in wake) && Sorted(Values(s, wake))
  }

  /** The comparison of vCoRoutineAddToDelayedList. */
  predicate GoesToOverflow(tickCount: nat, timeToWake: nat) { timeToWake < tickCount }

  /** For every delay of at least one tick and less than a wrap it is exact. */
  lemma OverflowIsNextEpoch(tick: nat, delay: nat)
    requires 1 <= delay < TICKS
    ensures GoesToOverflow(Wrapped(tick), Wrapped(Wrapped(tick) + delay)) <==> Epoch(tick + delay) == Epoch(tick) + 1
    ensures !GoesToOverflow(Wrapped(tick), Wrapped(Wrapped(tick) + delay)) <==> Epoch(tick + delay) == Epoch(tick)
    ensures Wrapped(Wrapped(tick) + delay) == Wrapped(tick + delay)
  {
  }

  // -------------------------------------------------------------- invariants

  ghost predicate ReadyFiled(ready: seq<ReadyList>, place: map<Id, Place>) {
    forall p :: 0 <= p < |ready| ==> Filed(ready[p].items, place, Ready(p)) && ready[p].at <= |ready[p].items|
  }

  ghost predicate PrioritiesKept(place: map<Id, Place>, priority: map<Id, nat>, max: nat) {
    && (forall id :: id in place <==> id in priority)
    && (forall id :: id in place ==> priority[id] < max && (place[id].Ready? ==> place[id] == Ready(priority[id])))
  }

  /** Every ready list above the top is empty. */
  ghost predicate NoneAbove(ready: seq<ReadyList>, top: nat) {
    top < |ready| && forall p :: top < p < |ready| ==> ready[p].items == []
  }

  ghost predicate EventsFiled(lists: seq<seq<Id>>, pending: seq<Id>, container: map<Id, EventPlace>) {
    && (forall e :: 0 <= e < |lists| ==> Filed(lists[e], container, Waiting(e)))
    && Filed(pending, container, Pending)
    && (forall id :: id in container && container[id].Waiting? ==> container[id].list < |lists|)
  }

  /** An event item is in a list only while the generic item is delayed. */
  ghost predicate OnlyWhileDelayed(container: map<Id, EventPlace>, place: map<Id, Place>) {
    && (forall id :: id in container <==> id in place)
    && (forall id :: id in container && container[id] != NoEvent ==> !place[id].Ready?)
  }

  /** The value of an event item: higher priorities come first. */
  function EventValues(s: seq<Id>, priority: map<Id, nat>, max: nat): (v: seq<nat>)
    requires forall id :: id in s ==> id in priority && priority[id] < max
    ensures |v| == |s| && forall i :: 0 <= i < |s| ==> v[i] == max - priority[s[i]]
  {
    seq(|s|, i requires 0 <= i < |s| => assert s[i] in s; max - priority[s[i]])
  }

  ghost predicate InPriorityOrder(lists: seq<seq<Id>>, priority: map<Id, nat>, max: nat) {
    forall e :: 0 <= e < |lists| ==> ByPriority(lists[e], priority, max)
  }

  ghost predicate ByPriority(s: seq<Id>, priority: map<Id, nat>, max: nat) {
    && (forall id :: id in s ==> id in priority && priority[id] < max)
    && Sorted(EventValues(s, priority, max))
  }

  /** Behind everybody of at least its priority, and in front of the others. */
  ghost predicate PlacedAt(was: seq<Id>, priority: map<Id, nat>, id: Id, k: nat, list: seq<Id>) {
    && id in priority && (forall u :: u in was ==> u in priority)
    && k <= |was| && list == Inserted(was, k, id)
    && (forall i :: 0 <= i < k ==> priority[was[i]] >= priority[id])
    && (k < |was| ==> priority[was[k]] < priority[id])
  }

  ghost predicate PendingAreWoken(container: map<Id, EventPlace>, woken: set<Id>) {
    forall id :: id in container && container[id] == Pending ==> id in woken
  }

  /** A co-routine whose delay ran out was readied at the tick it asked for. */
  ghost predicate OnTheDot(timedOutAt: map<Id, nat>, due: map<Id, nat>) {
    forall id :: id in timedOutAt ==> id in due && timedOutAt[id] == due[id]
  }

  /** Everything but the clock. */
  ghost predicate Filing(ready: seq<ReadyList>, delayed: seq<Id>, overflow: seq<Id>, first: bool, place: map<Id, Place>,
                         priority: map<Id, nat>, max: nat) {
    && |ready| == max
    && ReadyFiled(ready, place) && PrioritiesKept(place, priority, max)
    && Filed(delayed, place, DelayedIn(first)) && Filed(overflow, place, DelayedIn(!first))
  }

  /** The delay lists at a tick; between the calls of the scheduler, `from` is the next tick. */
  ghost predicate Clocked(delayed: seq<Id>, overflow: seq<Id>, wake: map<Id, nat>, due: map<Id, nat>, tick: nat,
                          from: nat) {
    && DueWithin(delayed, wake, due, Epoch(tick), from, tick + TICKS) && InOrder(delayed, wake)
    && DueWithin(overflow, wake, due, Epoch(tick) + 1, tick + 1, tick + TICKS) && InOrder(overflow, wake)
  }

  ghost predicate Eventful(lists: seq<seq<Id>>, pending: seq<Id>, container: map<Id, EventPlace>, place: map<Id, Place>,
                           priority: map<Id, nat>, max: nat) {
    && EventsFiled(lists, pending, container) && OnlyWhileDelayed(container, place)
    && InPriorityOrder(lists, priority, max)
  }

  // ------------------------------------------------- steps on the invariants

  predicate WellIndexed(ready: seq<ReadyList>) {
    forall p :: 0 <= p < |ready| ==> ready[p].at <= |ready[p].items|
  }

  function WithReady(ready: seq<ReadyList>, p: nat, id: Id): (r: seq<ReadyList>)
    requires p < |ready| && ready[p].at <= |ready[p].items|
    ensures |r| == |ready| && (WellIndexed(ready) ==> WellIndexed(r))
    ensures forall q :: 0 <= q < |ready| && q != p ==> r[q] == ready[q]
  {
    ready[p := ReadyList(Inserted(ready[p].items, ready[p].at, id), ready[p].at + 1)]
  }

  /** One co-routine after the other becomes ready. */
  ghost function WithAll(ready: seq<ReadyList>, ids: seq<Id>, priority: map<Id, nat>): (r: seq<ReadyList>)
    requires WellIndexed(ready) && forall id :: id in ids ==> id in priority && priority[id] < |ready|
    ensures |r| == |ready| && WellIndexed(r)
  {
    if ids == [] then ready
    else
      var last := ids[|ids| - 1];
      WithReady(WithAll(ready, ids[..|ids| - 1], priority), priority[last], last)
  }

  lemma {:induction false} AllTogether(ready: seq<ReadyList>, a: seq<Id>, b: seq<Id>, priority: map<Id, nat>)
    requires WellIndexed(ready) && forall id :: id in a || id in b ==> id in priority && priority[id] < |ready|
    ensures WithAll(ready, a + b, priority) == WithAll(WithAll(ready, a, priority), b, priority)
  {
    hide WithReady;
    if b == [] {
      assert a + b == a;
    } else {
      AllTogether(ready, a, b[..|b| - 1], priority);
      assert (a + b)[..|a + b| - 1] == a + b[..|b| - 1];
    }
  }

  /** The lists that nobody joins stay as they are. */
  lemma {:induction false} OtherListsStay(ready: seq<ReadyList>, ids: seq<Id>, priority: map<Id, nat>, p: nat)
    requires WellIndexed(ready) && forall id :: id in ids ==> id in priority && priority[id] < |ready|
    requires p < |ready| && forall id :: id in ids ==> priority[id] != p
    ensures WithAll(ready, ids, priority)[p] == ready[p]
  {
    if ids != [] {
      OtherListsStay(ready, ids[..|ids| - 1], priority, p);
      assert ids[|ids| - 1] in ids;
    }
  }

  /** The co-routines that join a list: the index stays on what it stands on, nobody's turn comes
      later but that of the one on which the index stands, and the newcomers have theirs last. */
  ghost predicate JoinLast(was: ReadyList, list: ReadyList, ids: seq<Id>) {
    && was.at <= |was.items| && list.at <= |list.items|
    && (was.at == |was.items| <==> list.at == |list.items|)
    && (was.at < |was.items| ==> list.items[list.at] == was.items[was.at])
    && Turns(list.items, list.at) == Behind(Turns(was.items, was.at), was.at < |was.items|, ids)
  }

  lemma OneJoinsLast(ready: seq<ReadyList>, p: nat, id: Id)
    requires p < |ready| && ready[p].at <= |ready[p].items|
    ensures JoinLast(ready[p], WithReady(ready, p, id)[p], [id])
  {
    hide Turns, Behind;
    InsertedEndTurns(ready[p].items, ready[p].at, id);
  }

  function OfPriority(ids: seq<Id>, priority: map<Id, nat>, p: nat): (r: seq<Id>)
    requires forall id :: id in ids ==> id in priority
    ensures forall id :: id in r <==> id in ids && priority[id] == p
  {
    if ids == [] then []
    else
      var last := ids[|ids| - 1];
      OfPriority(ids[..|ids| - 1], priority, p) + if priority[last] == p then [last] else []
  }

  lemma JoinFurther(was: ReadyList, between: ReadyList, list: ReadyList, a: seq<Id>, b: seq<Id>)
    requires JoinLast(was, between, a) && JoinLast(between, list, b)
    ensures JoinLast(was, list, a + b)
  {
    var on, turns := was.at < |was.items|, Turns(was.items, was.at);
    assert Behind(Behind(turns, on, a), on, b) == Behind(turns, on, a + b);
  }

  lemma NobodyJoins(list: ReadyList)
    requires list.at <= |list.items|
    ensures JoinLast(list, list, [])
  {
  }

  /** Of all that become ready, those of a priority join its list, in this order. */
  lemma {:induction false} AllJoinLast(ready: seq<ReadyList>, ids: seq<Id>, priority: map<Id, nat>, p: nat)
    requires WellIndexed(ready) && (forall id :: id in ids ==> id in priority && priority[id] < |ready|) && p < |ready|
    ensures JoinLast(ready[p], WithAll(ready, ids, priority)[p], OfPriority(ids, priority, p))
  {
    hide JoinLast, WithReady;
    if ids == [] {
      NobodyJoins(ready[p]);
    } else {
      var init, last := ids[..|ids| - 1], ids[|ids| - 1];
      var between := WithAll(ready, init, priority);
      AllJoinLast(ready, init, priority, p);
      if priority[last] == p {
        OneJoinsLast(between, p, last);
        JoinFurther(ready[p], between[p], WithReady(between, p, last)[p], OfPriority(init, priority, p), [last]);
      } else {
        assert OfPriority(init, priority, p) + [] == OfPriority(init, priority, p);
      }
    }
  }

  function WithoutReady(ready: seq<ReadyList>, p: nat, k: nat): seq<ReadyList>
    requires p < |ready| && k < |ready[p].items| && ready[p].at <= |ready[p].items|
  {
    ready[p := ReadyList(Removed(ready[p].items, k), AtAfterRemoval(|ready[p].items|, ready[p].at, k))]
  }

  /** A co-routine left its ready list, as uxListRemove takes it out. */
  ghost predicate LeftReady(was: seq<ReadyList>, ready: seq<ReadyList>, p: nat, id: Id) {
    && p < |was| && was[p].at <= |was[p].items|
    && exists k :: 0 <= k < |was[p].items| && was[p].items[k] == id && ready == WithoutReady(was, p, k)
  }

  /** The others of its list keep the order of their turns, and the other lists stay. */
  lemma LeavingKeepsTurns(was: seq<ReadyList>, ready: seq<ReadyList>, p: nat, id: Id) returns (j: nat)
    requires LeftReady(was, ready, p, id)
    ensures |ready| == |was| && forall q :: 0 <= q < |was| && q != p ==> ready[q] == was[q]
    ensures j < |was[p].items| && Turns(was[p].items, was[p].at)[j] == id && ready[p].at <= |ready[p].items|
    ensures Turns(ready[p].items, ready[p].at) == Removed(Turns(was[p].items, was[p].at), j)
  {
    hide Turns;
    var k :| 0 <= k < |was[p].items| && was[p].items[k] == id && ready == WithoutReady(was, p, k);
    j := RemovedTurns(was[p].items, was[p].at, k);
  }

  lemma ReadyingFiles(ready: seq<ReadyList>, place: map<Id, Place>, p: nat, id: Id)
    requires ReadyFiled(ready, place) && p < |ready| && (id in place ==> !place[id].Ready?)
    ensures ReadyFiled(WithReady(ready, p, id), place[id := Ready(p)])
  {
    hide Filed;
    forall q | 0 <= q < |ready|
      ensures Filed(WithReady(ready, p, id)[q].items, place[id := Ready(p)], Ready(q))
    {
      NotInReady(ready[q].items, place, q, id);
      if q == p {
        InsertedIsFiled(ready[p].items, place, Ready(p), ready[p].at, id);
      } else {
        OthersAreFiled(ready[q].items, place, Ready(q), id, Ready(p));
      }
    }
  }

  lemma NotInReady(s: seq<Id>, place: map<Id, Place>, q: nat, id: Id)
    requires Filed(s, place, Ready(q)) && (id in place ==> !place[id].Ready?)
    ensures id !in s
  {
  }

  lemma UnreadyingFiles(ready: seq<ReadyList>, place: map<Id, Place>, p: nat, k: nat, to: Place)
    requires ReadyFiled(ready, place) && p < |ready| && k < |ready[p].items| && !to.Ready?
    ensures ReadyFiled(WithoutReady(ready, p, k), place[ready[p].items[k] := to])
  {
    var id := ready[p].items[k];
    assert id in ready[p].items;
    forall q | 0 <= q < |ready|
      ensures Filed(WithoutReady(ready, p, k)[q].items, place[id := to], Ready(q))
    {
      if q == p {
        RemovedIsFiled(ready[p].items, place, Ready(p), k, to);
      } else {
        OthersAreFiled(ready[q].items, place, Ready(q), id, to);
      }
    }
  }

  // ------------------------------------------------------------ the scheduler

  class Scheduler {
    const maxPriorities: nat
    const queues: nat                      // that co-routines may wait on
    var priority: map<Id, nat>
    var ready: seq<ReadyList>
    var first: bool                        // pxDelayedCoRoutineList points to the first delay list
    var delayed: seq<Id>                   // the list that pxDelayedCoRoutineList points to
    var overflow: seq<Id>                  // the list that pxOverflowDelayedCoRoutineList points to
    var wake: map<Id, nat>                 // the values of the generic items
    var eventLists: seq<seq<Id>>           // of the queues that co-routines wait on
    var pendingReady: seq<Id>
    var container: map<Id, EventPlace>     // the list each event item is in
    var topReadyPriority: nat
    var current: Option<Id>
    var tickCount: nat
    var lastTickCount: nat
    ghost var place: map<Id, Place>
    ghost var tick: nat
    ghost var due: map<Id, nat>
    ghost var timedOutAt: map<Id, nat>
    ghost var woken: set<Id>               // taken from an event list since they were delayed

    ghost predicate Filings()
      reads `ready, `delayed, `overflow, `first, `place, `priority, `topReadyPriority
    {
      Filing(ready, delayed, overflow, first, place, priority, maxPriorities) && NoneAbove(ready, topReadyPriority)
    }

    ghost predicate Events()
      reads `eventLists, `pendingReady, `container, `place, `priority, `woken
    {
      && Eventful(eventLists, pendingReady, container, place, priority, maxPriorities)
      && PendingAreWoken(container, woken) && |eventLists| == queues
    }

    /** The clock, with nothing left in the current delay list that is due before `from`. */
    ghost predicate Clock(from: nat)
      reads `delayed, `overflow, `wake, `due, `tick, `timedOutAt, `tickCount
    {
      && Clocked(delayed, overflow, wake, due, tick, from) && OnTheDot(timedOutAt, due)
      && tickCount == Wrapped(tick)
    }

    /** Both delay lists are in the order of their values. */
    ghost predicate Lists()
      reads `delayed, `overflow, `wake
    {
      InOrder(delayed, wake) && InOrder(overflow, wake)
    }

    /** Between the calls of the scheduler: whoever is delayed is due later. */
    ghost predicate Valid()
      reads this
    {
      Filings() && Events() && Clock(tick + 1) && lastTickCount == tickCount
    }

    constructor (maxPriorities: nat, queues: nat)
      requires maxPriorities > 0
      ensures Valid() && tick == 0 && place == map[] && |eventLists| == queues
    {
      this.maxPriorities, this.queues := maxPriorities, queues;
      priority, wake, container, due, timedOutAt, place := map[], map[], map[], map[], map[], map[];
      ready := seq(maxPriorities, _ => ReadyList([], 0));
      first := true;
      eventLists := seq(queues, _ => []);
      delayed, overflow, pendingReady := [], [], [];
      topReadyPriority, current, tickCount, lastTickCount, tick, woken := 0, None, 0, 0, 0, {};
    }

    /** prvAddCoRoutineToReadyQueue, for an item that is in none of the ready lists. */
    method AddToReadyQueue(id: Id)
      requires ReadyFiled(ready, place) && NoneAbove(ready, topReadyPriority)
      requires id in priority && priority[id] < |ready| && (id in place ==> !place[id].Ready?)
      modifies `ready, `topReadyPriority, `place
      ensures place == old(place)[id := Ready(priority[id])]
      ensures ready == WithReady(old(ready), priority[id], id) && |ready| == old(|ready|)
      ensures JoinLast(old(ready)[priority[id]], ready[priority[id]], [id])
      ensures forall q :: 0 <= q < |ready| && q != priority[id] ==> ready[q] == old(ready)[q]
      ensures ReadyFiled(ready, place) && NoneAbove(ready, topReadyPriority)
    {
      hide ReadyFiled;
      var p := priority[id];
      assert ready[p].at <= |ready[p].items| by { IndexInList(ready, place, p); }
      ReadyingFiles(ready, place, p, id);
      OneJoinsLast(ready, p, id);
      if p > topReadyPriority {
        topReadyPriority := p;
      }
      ready := WithReady(ready, p, id);
      place := place[id := Ready(p)];
    }

    /** xCoRoutineCreate: the priority is cut to the highest there is. */
    method Create(id: Id, wanted: nat)
      requires Valid() && id !in priority && maxPriorities > 0
      modifies `priority, `container, `ready, `topReadyPriority, `place, `current
      ensures Valid()
      ensures priority == old(priority)[id := if wanted >= maxPriorities then maxPriorities - 1 else wanted]
      ensures place == old(place)[id := Ready(priority[id])]
      ensures current == if old(current) == None then Some(id) else old(current)
      ensures priority[id] < |ready| == old(|ready|) && JoinLast(old(ready)[priority[id]], ready[priority[id]], [id])
    {
      hide Filings, Clock, Events, JoinLast;
      if current == None {
        current := Some(id);
      }
      Enter(id, if wanted >= maxPriorities then maxPriorities - 1 else wanted);
    }

    /** The part of it behind the cut. */
    method Enter(id: Id, p: nat)
      requires Filings() && Events() && id !in priority && p < maxPriorities
      modifies `priority, `container, `ready, `topReadyPriority, `place
      ensures Filings() && Events() && priority == old(priority)[id := p] && place == old(place)[id := Ready(p)]
      ensures p < |ready| == old(|ready|) && JoinLast(old(ready)[p], ready[p], [id])
    {
      hide Filing, ReadyFiled, Eventful, NoneAbove, WithReady, PendingAreWoken, JoinLast;
      ghost var wasIn, had := place, priority;
      FilingParts(ready, delayed, overflow, first, place, priority, maxPriorities);
      NewEventItem(eventLists, pendingReady, container, place, priority, maxPriorities, id, p);
      NotPending(container, woken, id);
      priority := priority[id := p];
      container := container[id := NoEvent];
      AddToReadyQueue(id);
      ReadyingKeepsFiling(delayed, overflow, first, wasIn, had, maxPriorities, id, p, ready);
    }

    /** Between the calls of the scheduler a delayed co-routine is due later, within a wrap;
        and one whose delay ran out became ready at the tick it had asked for. */
    lemma NobodyIsLate(id: Id)
      requires Valid() && id in place
      ensures !place[id].Ready? ==> id in due && tick < due[id] < tick + TICKS
      ensures id in timedOutAt ==> id in due && timedOutAt[id] == due[id]
    {
      hide Filing, Eventful, NoneAbove, InOrder, Wrapped, Epoch, Filed;
      FilingParts(ready, delayed, overflow, first, place, priority, maxPriorities);
      GenericItemIsFiled(delayed, overflow, first, place, id);
    }

    /** Takes the running co-routine off its ready list, as uxListRemove does. */
    method LeaveReadyList(id: Id, ghost to: Place)
      requires ReadyFiled(ready, place) && NoneAbove(ready, topReadyPriority) && !to.Ready?
      requires id in priority && priority[id] < |ready| && id in place && place[id] == Ready(priority[id])
      modifies `ready, `place
      ensures ReadyFiled(ready, place) && NoneAbove(ready, topReadyPriority) && |ready| == old(|ready|)
      ensures place == old(place)[id := to]
      ensures LeftReady(old(ready), ready, priority[id], id)
    {
      hide ReadyFiled;
      var p := priority[id];
      IndexInList(ready, place, p);
      InReadyList(ready, place, id, p);
      var k :| 0 <= k < |ready[p].items| && ready[p].items[k] == id;
      UnreadyingFiles(ready, place, p, k, to);
      ready := WithoutReady(ready, p, k);
      place := place[id := to];
    }

    /** vCoRoutineAddToDelayedList, called by the co-routine that runs; crDELAY and the queue
        macros do not call it for a delay of 0. */
    method AddToDelayedList(ticksToDelay: nat, eventList: Option<nat>)
      requires Valid() && 1 <= ticksToDelay < TICKS
      requires current.Some? && current.value in place && place[current.value].Ready?
      requires eventList.Some? ==> eventList.value < |eventLists|
      modifies `ready, `place, `wake, `delayed, `overflow, `eventLists, `container, `due, `timedOutAt, `woken
      ensures Valid() && woken == old(woken) - {current.value}
      ensures current.value in priority && LeftReady(old(ready), ready, priority[current.value], current.value)
      ensures due == old(due)[current.value := tick + ticksToDelay]
      ensures place == old(place)[current.value :=
                if Epoch(tick + ticksToDelay) == Epoch(tick) then DelayedIn(first) else DelayedIn(!first)]
      ensures container == old(container)[current.value :=
                if eventList.Some? then Waiting(eventList.value) else NoEvent]
    {
      hide Filing, Eventful, Clock, NoneAbove, Wrapped, Epoch, PendingAreWoken, LeftReady;
      var id := current.value;
      StopRunning(id, ticksToDelay);
      if eventList.Some? {
        FilingParts(ready, delayed, overflow, first, place, priority, maxPriorities);
        WaitForEvent(id, eventList.value);
      }
    }

    /** The generic item goes to a delay list; the event item is in no list. */
    method StopRunning(id: Id, ticksToDelay: nat)
      requires Filings() && Events() && Clock(tick + 1) && 1 <= ticksToDelay < TICKS && id in place && place[id].Ready?
      modifies `ready, `place, `wake, `delayed, `overflow, `due, `timedOutAt, `woken
      ensures Filings() && Events() && Clock(tick + 1) && woken == old(woken) - {id}
      ensures id in priority && LeftReady(old(ready), ready, priority[id], id)
      ensures due == old(due)[id := tick + ticksToDelay] && id in container && container[id] == NoEvent
      ensures place == old(place)[id :=
                if Epoch(tick + ticksToDelay) == Epoch(tick) then DelayedIn(first) else DelayedIn(!first)]
    {
      hide Filings, Eventful, Clocked, OnTheDot, Wrapped, Epoch, PendingAreWoken, LeftReady;
      ghost var wasIn := place;
      NoEventWhileReady(eventLists, pendingReady, container, place, priority, maxPriorities, id);
      OverflowIsNextEpoch(tick, ticksToDelay);
      DelayCurrent(id, ticksToDelay);
      DelayedKeepsEvents(eventLists, pendingReady, container, wasIn, place, priority, maxPriorities, id);
      NotPending(container, woken, id);
      woken := woken - {id};
    }

    method DelayCurrent(id: Id, ticksToDelay: nat)
      requires Filings() && Clock(tick + 1) && 1 <= ticksToDelay < TICKS && id in place && place[id].Ready?
      modifies `ready, `place, `wake, `delayed, `overflow, `due, `timedOutAt
      ensures Filings() && Clock(tick + 1)
      ensures id in priority && LeftReady(old(ready), ready, priority[id], id)
      ensures due == old(due)[id := tick + ticksToDelay]
      ensures place == old(place)[id :=
                if GoesToOverflow(tickCount, Wrapped(tick + ticksToDelay)) then DelayedIn(!first) else DelayedIn(first)]
    {
      hide Filing, Clocked, NoneAbove, OnTheDot, Wrapped, Epoch, GoesToOverflow, Inserted, InsertionPoint, LeftReady;
      var timeToWake := Wrapped(tickCount + ticksToDelay);
      OverflowIsNextEpoch(tick, ticksToDelay);
      ghost var from := tick + 1;
      ClockedInOrder(delayed, overflow, wake, due, tick, from);
      NotDelayed(ready, delayed, overflow, first, place, priority, maxPriorities, id);
      DelayIsClocked(delayed, overflow, wake, due, tick, from, id, ticksToDelay);
      DelayGenericItem(id, timeToWake);
      StillOnTheDot(timedOutAt, due, id, tick + ticksToDelay);
      due, timedOutAt := due[id := tick + ticksToDelay], timedOutAt - {id};
    }

    /** From the ready list to the delay list that the comparison picks. */
    method DelayGenericItem(id: Id, timeToWake: nat)
      requires Filings() && id in place && place[id].Ready? && InOrder(delayed, wake) && InOrder(overflow, wake)
      modifies `ready, `place, `wake, `delayed, `overflow
      ensures Filings() && wake == old(wake)[id := timeToWake]
      ensures id in priority && LeftReady(old(ready), ready, priority[id], id)
      ensures place == old(place)[id :=
                if GoesToOverflow(tickCount, timeToWake) then DelayedIn(!first) else DelayedIn(first)]
      ensures if GoesToOverflow(tickCount, timeToWake) then
                && overflow == Inserted(old(overflow), InsertionPoint(Values(old(overflow), old(wake)), timeToWake), id)
                && delayed == old(delayed)
              else
                && delayed == Inserted(old(delayed), InsertionPoint(Values(old(delayed), old(wake)), timeToWake), id)
                && overflow == old(overflow)
    {
      hide Filed, ReadyFiled, NoneAbove, InOrder, Inserted, InsertionPoint, Values, GoesToOverflow, LeftReady, Filing,
        PrioritiesKept;
      FilingParts(ready, delayed, overflow, first, place, priority, maxPriorities);
      KnownPriority(place, priority, maxPriorities, id);
      NotFiled(delayed, place, DelayedIn(first), id);
      NotFiled(overflow, place, DelayedIn(!first), id);
      assert forall u :: u in delayed ==> u in wake by { InOrderKeys(delayed, wake); }
      assert forall u :: u in overflow ==> u in wake by { InOrderKeys(overflow, wake); }
      ghost var was := place;
      LeaveReadyList(id, if GoesToOverflow(tickCount, timeToWake) then DelayedIn(!first) else DelayedIn(first));
      if GoesToOverflow(tickCount, timeToWake) {
        var k := InsertionPoint(Values(overflow, wake), timeToWake);
        InsertedIsFiled(overflow, was, DelayedIn(!first), k, id);
        OthersAreFiled(delayed, was, DelayedIn(first), id, DelayedIn(!first));
        overflow := Inserted(overflow, k, id);
      } else {
        var k := InsertionPoint(Values(delayed, wake), timeToWake);
        InsertedIsFiled(delayed, was, DelayedIn(first), k, id);
        OthersAreFiled(overflow, was, DelayedIn(!first), id, DelayedIn(first));
        delayed := Inserted(delayed, k, id);
      }
      FilingOfDelayed(ready, delayed, overflow, first, was, priority, maxPriorities, id,
        if GoesToOverflow(tickCount, timeToWake) then DelayedIn(!first) else DelayedIn(first));
      wake := wake[id := timeToWake];
    }

    /** The co-routine's event item goes into the list of a queue, in priority order. */
    method WaitForEvent(id: Id, e: nat)
      requires Events() && e < |eventLists| && id in container && container[id] == NoEvent && id in place
      requires !place[id].Ready?
      requires id in priority && priority[id] < maxPriorities
      modifies `eventLists, `container
      ensures Events() && container == old(container)[id := Waiting(e)]
      ensures |eventLists| == old(|eventLists|)
      ensures exists k :: PlacedAt(old(eventLists[e]), priority, id, k, eventLists[e])
      ensures forall f :: 0 <= f < |eventLists| && f != e ==> eventLists[f] == old(eventLists[f])
    {
      hide Filed, Sorted, Inserted;
      assert ByPriority(eventLists[e], priority, maxPriorities);
      var values := EventValues(eventLists[e], priority, maxPriorities);
      var k := InsertionPoint(values, maxPriorities - priority[id]);
      assert forall i :: 0 <= i < k ==> values[i] <= maxPriorities - priority[id];
      assert PlacedAt(eventLists[e], priority, id, k, Inserted(eventLists[e], k, id));
      InsertedByPriority(eventLists[e], priority, maxPriorities, id);
      WaitingIsFiled(eventLists, pendingReady, container, e, k, id);
      eventLists := eventLists[e := Inserted(eventLists[e], k, id)];
      container := container[id := Waiting(e)];
    }

    // ------------------------------------------------------------ interrupts

    /** xCoRoutineRemoveFromEventList, in an interrupt: the waiting co-routine of highest
        priority goes to the pending list; its generic item stays where it is. */
    method RemoveFromEventList(e: nat) returns (higher: bool)
      requires Events() && e < |eventLists| && eventLists[e] != []
      requires current.Some? && current.value in priority
      modifies `eventLists, `pendingReady, `container, `woken
      ensures Events() && |eventLists| == old(|eventLists|) && woken == old(woken) + {old(eventLists[e][0])}
      ensures var id := old(eventLists[e][0]);
              && id in old(container) && container == old(container)[id := Pending]
              && id in priority && higher == (priority[id] >= priority[current.value])
              && pendingReady == old(pendingReady) + [id]
              && eventLists == old(eventLists)[e := Removed(old(eventLists[e]), 0)]
              && forall u :: u in old(eventLists[e]) ==> u in priority && priority[u] <= priority[id]
    {
      hide Filed, Removed, ByPriority, OnlyWhileDelayed;
      var id := eventLists[e][0];
      HeadHasHighestPriority(eventLists[e], priority, maxPriorities);
      HeadIsFiled(eventLists, pendingReady, container, e);
      EventToPending(eventLists, pendingReady, container, e);
      RemovedByPriority(eventLists, priority, maxPriorities, e, 0);
      StillOnlyWhileDelayed(container, place, id, Pending);
      eventLists := eventLists[e := Removed(eventLists[e], 0)];
      pendingReady := pendingReady + [id];
      container := container[id := Pending];
      woken := woken + {id};
      higher := priority[id] >= priority[current.value];
    }

    /** Any number of interrupts. */
    method Interrupts()
      requires Events() && (current.Some? ==> current.value in priority)
      modifies `eventLists, `pendingReady, `container, `woken
      ensures Events() && |eventLists| == old(|eventLists|) && old(woken) <= woken
      ensures old(pendingReady) <= pendingReady
      ensures forall id :: id in container <==> id in old(container)
      ensures forall id :: id in container && container[id] != old(container)[id] ==>
                container[id] == Pending && old(container)[id].Waiting?
    {
      hide Eventful;
      var n: nat := *;
      ghost var before := container;
      while n > 0
        invariant old(pendingReady) <= pendingReady
        invariant Events() && |eventLists| == old(|eventLists|) && old(woken) <= woken
        invariant forall id :: id in container <==> id in before
        invariant forall id :: id in container && container[id] != before[id] ==>
                    container[id] == Pending && before[id].Waiting?
      {
        var e: nat := *;
        if 0 <= e < |eventLists| && eventLists[e] != [] && current.Some? {
          WaitingHead(eventLists, pendingReady, container, place, priority, maxPriorities, e);
          var _ := RemoveFromEventList(e);
        }
        n := n - 1;
      }
    }

    /** Takes an event item out of whatever list it is in. */
    method LeaveEventList(id: Id)
      requires Events() && id in container
      modifies `eventLists, `pendingReady, `container
      ensures Events() && |eventLists| == old(|eventLists|) && container == old(container)[id := NoEvent]
      ensures TakenOut(old(pendingReady), id, pendingReady)
      ensures forall e :: 0 <= e < |eventLists| ==> TakenOut(old(eventLists[e]), id, eventLists[e])
    {
      hide Filed, Removed, ByPriority, OnlyWhileDelayed;
      StillOnlyWhileDelayed(container, place, id, NoEvent);
      InNoOtherList(eventLists, pendingReady, container, id);
      match container[id]
      case NoEvent =>
        assert container[id := NoEvent] == container;
      case Waiting(e) =>
        ItemIsFiled(eventLists, pendingReady, container, id);
        var k :| 0 <= k < |eventLists[e]| && eventLists[e][k] == id;
        EventLeaves(eventLists, pendingReady, container, e, k);
        RemovedByPriority(eventLists, priority, maxPriorities, e, k);
        eventLists := eventLists[e := Removed(eventLists[e], k)];
        container := container[id := NoEvent];
      case Pending =>
        ItemIsFiled(eventLists, pendingReady, container, id);
        var k :| 0 <= k < |pendingReady| && pendingReady[k] == id;
        PendingLeaves(eventLists, pendingReady, container, k);
        pendingReady := Removed(pendingReady, k);
        container := container[id := NoEvent];
    }

    // --------------------------------------------------------- the scheduler

    /** Takes a generic item out of its delay list and readies the co-routine. */
    method ReadyDelayed(id: Id)
      requires Filings() && Lists() && id in place && !place[id].Ready?
      modifies `ready, `topReadyPriority, `place, `delayed, `overflow
      ensures Filings() && Lists()
      ensures id in priority && place == old(place)[id := Ready(priority[id])]
      ensures Readied(old(ready), ready, priority[id], id)
      ensures |delayed| + |overflow| < old(|delayed| + |overflow|)
    {
      hide WithReady, Filing, ReadyFiled, Lists, NoneAbove, Filed;
      ghost var wasIn := place;
      FilingParts(ready, delayed, overflow, first, place, priority, maxPriorities);
      GenericItemIsFiled(delayed, overflow, first, place, id);
      RemoveGenericItem(id);
      AddToReadyQueue(id);
      FilingFromParts(ready, delayed, overflow, first, wasIn, priority, maxPriorities, id);
    }

    /** Events do not depend on a ready list, once the event item is out of its list. */
    lemma EventsAfterReadying(wasIn: map<Id, Place>, id: Id)
      requires Eventful(eventLists, pendingReady, container, wasIn, priority, maxPriorities)
      requires PendingAreWoken(container, woken) && |eventLists| == queues
      requires id in wasIn && id in container && container[id] == NoEvent && id in priority
      requires place == wasIn[id := Ready(priority[id])]
      ensures Events()
    {
      hide EventsFiled, InPriorityOrder, PendingAreWoken;
    }

    method ReadyDetached(id: Id)
      requires Filings() && Events() && Lists() && id in place && !place[id].Ready?
      requires id in container && container[id] == NoEvent
      modifies `ready, `topReadyPriority, `place, `delayed, `overflow
      ensures Filings() && Events() && Lists()
      ensures id in priority && place == old(place)[id := Ready(priority[id])]
      ensures Readied(old(ready), ready, priority[id], id)
      ensures |delayed| + |overflow| < old(|delayed| + |overflow|)
    {
      hide Readied, Filings, Lists, Eventful, PendingAreWoken;
      ghost var wasIn := place;
      ReadyDelayed(id);
      EventsAfterReadying(wasIn, id);
    }

    /** The event item leaves its list, with interrupts before or after. */
    method Detach(id: Id, interruptsFirst: bool)
      requires Events() && Known() && id in container
      modifies `eventLists, `pendingReady, `container, `woken
      ensures Events() && Detached(old(container), container, id) && old(woken) <= woken
    {
      hide Events;
      if interruptsFirst {
        Interrupts();
        LeaveEventList(id);
      } else {
        LeaveEventList(id);
        Interrupts();
      }
    }

    method RemoveGenericItem(id: Id)
      requires Lists() && id in place && !place[id].Ready? && id in priority
      requires Filed(delayed, place, DelayedIn(first)) && Filed(overflow, place, DelayedIn(!first))
      modifies `delayed, `overflow
      ensures Lists() && |delayed| + |overflow| < old(|delayed| + |overflow|)
      ensures TakenOut(old(delayed), id, delayed) && TakenOut(old(overflow), id, overflow)
      ensures var now := place[id := Ready(priority[id])];
              Filed(delayed, now, DelayedIn(first)) && Filed(overflow, now, DelayedIn(!first))
    {
      hide Removed, Filed, InOrder;
      GenericItemIsFiled(delayed, overflow, first, place, id);
      ghost var to := Ready(priority[id]);
      if id in delayed {
        var k :| 0 <= k < |delayed| && delayed[k] == id;
        RemovedIsFiled(delayed, place, DelayedIn(first), k, to);
        OthersAreFiled(overflow, place, DelayedIn(!first), id, to);
        RemovedIsInOrder(delayed, wake, k);
        delayed := Removed(delayed, k);
      } else {
        var k :| 0 <= k < |overflow| && overflow[k] == id;
        RemovedIsFiled(overflow, place, DelayedIn(!first), k, to);
        OthersAreFiled(delayed, place, DelayedIn(first), id, to);
        RemovedIsInOrder(overflow, wake, k);
        overflow := Removed(overflow, k);
      }
    }

    /** One round of prvCheckPendingReadyList; an interrupt may come between the two removals. */
    method TakePending()
      requires Valid() && Known() && pendingReady != []
      modifies `ready, `topReadyPriority, `place, `delayed, `overflow, `eventLists, `pendingReady, `container, `woken
      ensures Valid() && Known() && Progress(old(container), old(place), container, place)
      ensures |delayed| + |overflow| < old(|delayed| + |overflow|) && old(woken) <= woken
      ensures var id := old(pendingReady[0]);
              && id in old(container) && old(container)[id] == Pending && id in old(woken)
              && id in priority && place == old(place)[id := Ready(priority[id])]
              && id in container && container[id] == NoEvent
              && Readied(old(ready), ready, priority[id], id)
      ensures WokenOnly(old(container), old(place), place, woken)
    {
      hide Readied, Filings, Clock, Events, Progress, WokenOnly;
      var id := pendingReady[0];
      PendingHead();
      ghost var wasHeld, wasIn := container, place;
      Unblock(id);
      OneWoken(wasHeld, wasIn, id, priority[id], woken);
    }

    method Unblock(id: Id)
      requires Valid() && Known() && id in container && id in place && !place[id].Ready?
      requires forall u :: u in container <==> u in place
      modifies `ready, `topReadyPriority, `place, `delayed, `overflow, `eventLists, `pendingReady, `container, `woken
      ensures Valid() && Known() && Progress(old(container), old(place), container, place)
      ensures |delayed| + |overflow| < old(|delayed| + |overflow|) && old(woken) <= woken
      ensures id in priority && place == old(place)[id := Ready(priority[id])]
      ensures Readied(old(ready), ready, priority[id], id)
      ensures id in container && container[id] == NoEvent
    {
      hide Readied, Filings, Clocked, OnTheDot, Events, Progress, InOrder, Filed;
      ghost var wasDelayed, wasOverflow, wasIn := delayed, overflow, place;
      assert Lists() by { ClockedInOrder(delayed, overflow, wake, due, tick, tick + 1); }
      DelayListsAreFiled();
      TakeOut(id, false);
      DelayListsAreFiled();
      FewerAreClocked(wasDelayed, wasOverflow, first, wasIn, delayed, overflow, place, wake, due, tick, tick + 1);
    }

    /** Both items leave their lists, and the co-routine is readied. */
    method TakeOut(id: Id, interruptsFirst: bool)
      requires Filings() && Events() && Lists() && Known() && id in container && id in place && !place[id].Ready?
      requires forall u :: u in container <==> u in place
      modifies `ready, `topReadyPriority, `place, `delayed, `overflow, `eventLists, `pendingReady, `container, `woken
      ensures Filings() && Events() && Lists() && Known() && Progress(old(container), old(place), container, place)
      ensures |delayed| + |overflow| < old(|delayed| + |overflow|) && old(woken) <= woken
      ensures id in priority && place == old(place)[id := Ready(priority[id])]
      ensures Readied(old(ready), ready, priority[id], id)
      ensures id in container && container[id] == NoEvent
    {
      hide Readied, Filings, Lists, Events, Progress, Detached;
      ghost var wasHeld, wasIn := container, place;
      Detach(id, interruptsFirst);
      DetachedItem(wasHeld, container, id);
      ReadyDetached(id);
      Progresses(wasHeld, wasIn, container, place, id, priority[id]);
    }

    /** prvCheckPendingReadyList.  Whoever was pending is ready, and of the delayed co-routines
        only such as an event has woken. */
    method CheckPendingReadyList()
      requires Valid() && Known()
      modifies `ready, `topReadyPriority, `place, `delayed, `overflow, `eventLists, `pendingReady, `container, `woken
      ensures Valid() && Known() && Progress(old(container), old(place), container, place)
      ensures forall id :: id in container ==> container[id] != Pending
      ensures WokenOnly(old(container), old(place), place, woken) && old(woken) <= woken
      ensures ListsKept(old(place), place, priority, old(ready), ready)
    {
      hide Filings, Events, Clock, Progress, WokenOnly, Readied, ListsKept;
      NothingChanged();
      NoProgress();
      NobodyWoken(container, place, woken);
      while pendingReady != []
        invariant Valid() && Known() && Progress(old(container), old(place), container, place)
        invariant WokenOnly(old(container), old(place), place, woken) && old(woken) <= woken
        invariant ListsKept(old(place), place, priority, old(ready), ready)
        decreases |delayed| + |overflow|
      {
        ghost var wasHeld, wasIn, was, lists, id := container, place, woken, ready, pendingReady[0];
        PendingHead();
        TakePending();
        OneReadied(wasIn, id, priority, lists, ready);
        KeepingGoesOn(old(container), old(place), wasHeld, wasIn, container, place, priority, old(ready), lists, ready);
        WakingGoesOn(old(container), old(place), was, wasHeld, wasIn, container, place, woken);
        ProgressGoesOn(old(container), old(place), wasHeld, wasIn, container, place);
      }
      NothingPending();
    }

    /** Takes the head of the current delay list.  Its event may have come just before: then
        its event item is in the pending list. */
    method ExpireHead()
      requires Filings() && Events() && Lists() && Known() && delayed != []
      modifies `ready, `topReadyPriority, `place, `delayed, `overflow, `eventLists, `pendingReady, `container, `woken
      ensures Filings() && Events() && Lists() && Known() && Progress(old(container), old(place), container, place)
      ensures |delayed| + |overflow| < old(|delayed| + |overflow|) && old(woken) <= woken
      ensures var id := old(delayed[0]);
              && id in old(place) && old(place)[id] == DelayedIn(first)
              && id in priority && place == old(place)[id := Ready(priority[id])]
              && id in container && container[id] == NoEvent
              && Readied(old(ready), ready, priority[id], id)
    {
      hide Readied, Filings, Lists, Events, Progress;
      DelayedHead();
      TakeOut(delayed[0], true);
    }

    lemma DelayListsAreFiled()
      requires Filings()
      ensures Filed(delayed, place, DelayedIn(first)) && Filed(overflow, place, DelayedIn(!first))
    {
      hide Filed, ReadyFiled;
    }

    lemma DelayedHead()
      requires Filings() && Events() && delayed != []
      ensures delayed[0] in place && place[delayed[0]] == DelayedIn(first) && delayed[0] in container
      ensures forall id :: id in container <==> id in place
    {
      assert delayed[0] in delayed;
    }

    lemma PendingHead()
      requires Events() && pendingReady != []
      ensures pendingReady[0] in container && container[pendingReady[0]] == Pending && pendingReady[0] in woken
      ensures pendingReady[0] in place && !place[pendingReady[0]].Ready?
      ensures forall id :: id in container <==> id in place
    {
      assert pendingReady[0] in pendingReady;
    }

    lemma NothingPending()
      requires Events() && pendingReady == []
      ensures forall id :: id in container ==> container[id] != Pending
    {
    }

    lemma NothingChanged()
      requires Filings()
      ensures ListsKept(place, place, priority, ready, ready)
    {
      hide Filed;
      assert Joined(place, place, priority, ready, ready, []);
    }

    lemma NoProgress()
      requires Events()
      ensures Progress(container, place, container, place)
    {
      hide EventsFiled, InPriorityOrder;
    }

    predicate HeadExpired()
      reads this
      requires Lists() && delayed != []
    {
      assert delayed[0] in delayed;
      wake[delayed[0]] <= tickCount
    }

    /** The inner loop of prvCheckDelayedList: it stops at the first value that is not reached. */
    method ExpireDue()
      requires Filings() && Events() && Lists() && Known()
      modifies `ready, `topReadyPriority, `place, `delayed, `overflow, `eventLists, `pendingReady, `container, `woken
      ensures Filings() && Events() && Lists() && Known() && Progress(old(container), old(place), container, place)
      ensures Expired(old(place), place, first, wake, priority, tickCount) && old(woken) <= woken
      ensures ListsKept(old(place), place, priority, old(ready), ready)
    {
      hide Filings, Events, Lists, Progress, ExpiredOnly, Expired, Readied, ListsKept;
      NoProgress();
      NothingChanged();
      NobodyExpired(place, first, wake, priority, tickCount);
      while delayed != [] && HeadExpired()
        invariant Filings() && Events() && Lists() && Known()
        invariant Progress(old(container), old(place), container, place)
        invariant ListsKept(old(place), place, priority, old(ready), ready)
        invariant ExpiredOnly(old(place), place, first, wake, priority, tickCount) && old(woken) <= woken
        decreases |delayed| + |overflow|
      {
        ghost var wasHeld, wasIn, id, lists := container, place, delayed[0], ready;
        assert id in wake && wake[id] <= tickCount by { HeadValue(); }
        ExpireHead();
        OneMoreExpired(old(place), wasIn, first, wake, priority, tickCount, id);
        OneReadied(wasIn, id, priority, lists, ready);
        KeepingGoesOn(old(container), old(place), wasHeld, wasIn, container, place, priority, old(ready), lists, ready);
        ProgressGoesOn(old(container), old(place), wasHeld, wasIn, container, place);
      }
      AllExpired(old(place));
    }

    lemma HeadValue()
      requires Lists() && delayed != []
      ensures delayed[0] in wake && (HeadExpired() <==> wake[delayed[0]] <= tickCount)
    {
      assert delayed[0] in delayed;
    }

    lemma AllExpired(wasIn: map<Id, Place>)
      requires Filings() && Lists() && (delayed != [] ==> !HeadExpired())
      requires ExpiredOnly(wasIn, place, first, wake, priority, tickCount)
      ensures Expired(wasIn, place, first, wake, priority, tickCount)
    {
      HeadIsFirst(delayed, wake, tickCount);
      DelayListsAreFiled();
    }

    /** One more tick; at the wrap the two delay lists change roles. */
    method Tick()
      requires Filings() && Lists()
      modifies `tickCount, `tick, `delayed, `overflow, `first
      ensures Filings() && Lists() && tick == old(tick) + 1 && tickCount == Wrapped(old(tickCount) + 1)
      ensures if tickCount == 0 then delayed == old(overflow) && overflow == old(delayed) && first == !old(first)
              else delayed == old(delayed) && overflow == old(overflow) && first == old(first)
    {
      hide Filed, ReadyFiled, InOrder, NoneAbove, PrioritiesKept;
      tickCount, tick := Wrapped(tickCount + 1), tick + 1;
      if tickCount == 0 {
        delayed, overflow, first := overflow, delayed, !first;
      }
    }

    /** One round of the outer loop, whatever values are in the two lists: exactly those become
        ready that are in the list that is now the current one, with a value that is reached. */
    method PassTick()
      requires Filings() && Events() && Lists() && Known()
      modifies `tickCount, `tick, `first, `woken
      modifies `ready, `topReadyPriority, `place, `delayed, `overflow, `eventLists, `pendingReady, `container
      ensures Filings() && Events() && Lists() && Known() && Progress(old(container), old(place), container, place)
      ensures tick == old(tick) + 1 && tickCount == Wrapped(old(tickCount) + 1)
      ensures first == if tickCount == 0 then !old(first) else old(first)
      ensures Expired(old(place), place, first, wake, priority, tickCount) && old(woken) <= woken
      ensures ListsKept(old(place), place, priority, old(ready), ready)
    {
      hide Filings, Events, Lists, Progress, Expired, ListsKept;
      Tick();
      ExpireDue();
    }

    /** A round as seen by the clock: exactly those become ready that asked for this tick. */
    method PassTrueTick()
      requires Filings() && Events() && Clock(tick + 1) && Known()
      modifies `tickCount, `tick, `first, `woken, `timedOutAt
      modifies `ready, `topReadyPriority, `place, `delayed, `overflow, `eventLists, `pendingReady, `container
      ensures Filings() && Events() && Clock(tick + 1) && Known() && tick == old(tick) + 1
      ensures Progress(old(container), old(place), container, place) && old(woken) <= woken
      ensures ReadiedBetween(old(place), place, due, tick, tick)
      ensures ListsKept(old(place), place, priority, old(ready), ready)
      ensures Stamped(old(place), place, old(timedOutAt), timedOutAt)
    {
      hide ListsKept, Filings, Events, Progress, Expired, Clocked, OnTheDot, Stamped, ReadiedBetween, Filed,
        InOrder, Wrapped;
      ghost var wasDelayed, wasOverflow, wasFirst, wasIn := delayed, overflow, first, place;
      ghost var wasTick, held := tick, container;
      assert Lists() by { ClockedInOrder(delayed, overflow, wake, due, tick, tick + 1); }
      DelayListsAreFiled();
      NextTick(tick);
      PassTick();
      DelayListsAreFiled();
      TickIsClocked(wasDelayed, wasOverflow, wasFirst, wasIn, delayed, overflow, first, place, wake, due, priority,
        wasTick);
      ghost var before := timedOutAt;
      timedOutAt := Stamps(wasIn, place, before, tick);
      StampedOnTheDot(held, wasIn, container, place, before, due, tick);
    }

    /** prvCheckDelayedList, at the task tick count `taskTicks`: it catches up tick by tick.
        Of the delayed co-routines exactly those are ready that asked for a tick up to now. */
    method CheckDelayedList(taskTicks: nat, ghost now: nat)
      requires Valid() && Known()
      requires taskTicks == Wrapped(now) && tick <= now < tick + TICKS
      modifies `tickCount, `lastTickCount, `tick, `first, `woken, `timedOutAt
      modifies `ready, `topReadyPriority, `place, `delayed, `overflow, `eventLists, `pendingReady, `container
      ensures Valid() && Known() && tick == now
      ensures Progress(old(container), old(place), container, place) && old(woken) <= woken
      ensures ReadiedBetween(old(place), place, due, old(tick) + 1, now)
      ensures ReadiedExactly(old(place), place, due, now)
      ensures ListsKept(old(place), place, priority, old(ready), ready)
      ensures Stamped(old(place), place, old(timedOutAt), timedOutAt)
    {
      hide Filings, Events, Progress, Stamped, Clocked, OnTheDot, ReadiedBetween, ReadiedExactly,
        ListsKept;
      NothingChanged();
      var passedTicks := Wrapped(taskTicks - lastTickCount);
      WrappedDifference(tick, now);
      NoProgress();
      NobodyStamped(place, timedOutAt);
      NobodyReadied(place, due, tick + 1, tick);
      while passedTicks != 0
        invariant Filings() && Events() && Clock(tick + 1) && Known() && old(tick) <= tick && tick + passedTicks == now
        invariant Progress(old(container), old(place), container, place) && old(woken) <= woken
        invariant Stamped(old(place), place, old(timedOutAt), timedOutAt)
        invariant ListsKept(old(place), place, priority, old(ready), ready)
        invariant ReadiedBetween(old(place), place, due, old(tick) + 1, tick)
      {
        ghost var wasHeld, wasIn, before, was, lists := container, place, timedOutAt, tick, ready;
        PassTrueTick();
        KeepingGoesOn(old(container), old(place), wasHeld, wasIn, container, place, priority, old(ready), lists, ready);
        passedTicks := passedTicks - 1;
        ReadyingGoesOn(wasHeld, wasIn, container, place, due, old(place), old(tick) + 1, was);
        StampingGoesOn(old(place), old(timedOutAt), wasHeld, wasIn, before, container, place, timedOutAt);
        ProgressGoesOn(old(container), old(place), wasHeld, wasIn, container, place);
      }
      lastTickCount := tickCount;
      NobodyIsMissed(old(container), old(place), old(tick) + 1);
    }

    lemma AllHaveAsked()
      requires Valid()
      ensures forall id :: id in place && !place[id].Ready? ==> id in due
    {
      hide Filings, Events, Clock;
      forall id | id in place && !place[id].Ready?
        ensures id in due
      {
        NobodyIsLate(id);
      }
    }

    lemma NobodyIsMissed(wasHeld: map<Id, EventPlace>, wasIn: map<Id, Place>, from: nat)
      requires Valid() && Progress(wasHeld, wasIn, container, place)
      requires ReadiedBetween(wasIn, place, due, from, tick)
      ensures ReadiedExactly(wasIn, place, due, tick)
    {
      hide Filings, Events, Clock;
      forall id | id in wasIn && id in place && !wasIn[id].Ready?
        ensures id in due && (place[id].Ready? <==> due[id] <= tick)
      {
        NobodyIsLate(id);
      }
    }

    /** The two checks of vCoRoutineSchedule. */
    method CheckLists(taskTicks: nat, ghost now: nat)
      requires Valid() && Known()
      requires taskTicks == Wrapped(now) && tick <= now < tick + TICKS
      modifies `tickCount, `lastTickCount, `tick, `first, `woken, `timedOutAt
      modifies `ready, `topReadyPriority, `place, `delayed, `overflow, `eventLists, `pendingReady, `container
      ensures Valid() && Known() && tick == now
      ensures Progress(old(container), old(place), container, place)
      ensures ReadyInTime(old(container), old(place), place, due, now)
      ensures EarlyOnlyIfWoken(old(container), old(place), place, due, woken, now)
      ensures DelaysAreExact(old(container), old(place), place, due, now)
      ensures ListsKept(old(place), place, priority, old(ready), ready)
    {
      hide Filings, Events, Clock, Progress, Stamped, ReadiedBetween, ReadiedExactly, WokenOnly, ReadyInTime,
        EarlyOnlyIfWoken, DelaysAreExact, ListsKept;
      AllHaveAsked();
      CheckPendingReadyList();
      ghost var wasHeld, wasIn, was, between := container, place, woken, ready;
      CheckDelayedList(taskTicks, now);
      AllInTime(old(container), old(place), was, wasHeld, wasIn, container, place, due, woken, now);
      KeepingGoesOn(old(container), old(place), wasHeld, wasIn, container, place, priority, old(ready), between, ready);
      ProgressGoesOn(old(container), old(place), wasHeld, wasIn, container, place);
    }

    /** vCoRoutineSchedule up to the call of the co-routine it picks, at the task tick count
        `taskTicks`.  A delayed co-routine is ready if it asked for a tick up to now or was pending;
        early it is ready only if an event has woken it; so without an event it is ready exactly in
        time.  `lists` are the ready lists it picks from: those that became ready have joined them. */
    method Schedule(taskTicks: nat, ghost now: nat) returns (run: Option<Id>, ghost lists: seq<ReadyList>)
      requires Valid() && Known() && maxPriorities > 0
      requires taskTicks == Wrapped(now) && tick <= now < tick + TICKS
      modifies `tickCount, `lastTickCount, `tick, `first, `current, `woken, `timedOutAt
      modifies `ready, `topReadyPriority, `place, `delayed, `overflow, `eventLists, `pendingReady, `container
      ensures Valid() && Known() && tick == now
      ensures Progress(old(container), old(place), container, place)
      ensures ReadyInTime(old(container), old(place), place, due, now)
      ensures EarlyOnlyIfWoken(old(container), old(place), place, due, woken, now)
      ensures DelaysAreExact(old(container), old(place), place, due, now)
      ensures ListsKept(old(place), place, priority, old(ready), lists)
      ensures place == old(place) ==> lists == old(ready)
      ensures run == None ==> ready == lists && forall id :: id in place ==> !place[id].Ready?
      ensures run.Some? ==>
                && current == run && Runs(run.value, lists, ready, priority)
                && run.value in place && place[run.value].Ready?
                && forall id :: id in place && place[id].Ready? ==>
                     id in priority && priority[id] <= priority[run.value]
    {
      hide Filings, Events, Clock, Progress, Runs, ReadyInTime, EarlyOnlyIfWoken, DelaysAreExact, ListsKept;
      CheckLists(taskTicks, now);
      lists := ready;
      if place == old(place) {
        AllListsStay(place, priority, old(ready), lists);
      }
      run := PickHighest();
    }

    /** As many calls as the highest ready list has members, at task tick counts less than a wrap
        apart.  If nobody of that priority or a higher one becomes ready in between, every member
        runs once. */
    method Round(taskTicks: seq<nat>, ghost nows: seq<nat>, ghost p: nat) returns (runs: seq<Option<Id>>)
      requires Valid() && Known() && Sampled(taskTicks, nows, tick)
      requires p < |ready| && |ready[p].items| == |taskTicks| > 0 && NoneAbove(ready, p)
      modifies `tickCount, `lastTickCount, `tick, `first, `current, `woken, `timedOutAt
      modifies `ready, `topReadyPriority, `place, `delayed, `overflow, `eventLists, `pendingReady, `container
      ensures Valid() && Known()
      ensures SameFrom(old(place), place, priority, p) ==> EachRunsOnce(runs, old(ready[p].items))
    {
      hide Filings, Events, Clock, Progress, Runs, ReadyInTime, EarlyOnlyIfWoken, DelaysAreExact, ListsKept, SameFrom,
        NoneAbove, IsTop;
      runs := [];
      ghost var was, items, at := place, ready[p].items, ready[p].at;
      RoundStarts(p);
      while |runs| < |taskTicks|
        invariant |runs| <= |taskTicks| && Valid() && Known()
        invariant tick == if runs == [] then old(tick) else nows[|runs| - 1]
        invariant Progress(old(container), was, container, place)
        invariant SameFrom(was, place, priority, p) ==> InTurn(ready, runs, p, items, at)
      {
        ghost var held, wereIn, before := container, place, ready;
        var k := |runs|;
        assert SampledAt(taskTicks, nows, old(tick), k);
        var run, lists := Schedule(taskTicks[k], nows[k]);
        if SameFrom(was, place, priority, p) {
          SameSoFar(old(container), was, held, wereIn, container, place, priority, p);
          ListStays(wereIn, place, priority, before, lists, p);
          TopRuns(was, place, priority, p, items, run, lists, ready);
          OneMoreTurn(before, lists, ready, priority, runs, run, p, items, at);
        }
        ProgressGoesOn(old(container), was, held, wereIn, container, place);
        runs := runs + [run];
      }
      if SameFrom(was, place, priority, p) {
        AllHadTheirTurn(items, at, runs);
      }
    }

    /** A call of the scheduler, and what the co-routine that runs does then: it goes on, or delays
        itself.  `joined` are those that the call has made ready in the list of priority `p`. */
    method TakeTurn(taskTicks: nat, ghost now: nat, ghost p: nat, delay: Option<Delay>)
      returns (run: Option<Id>, ghost list: ReadyList, ghost joined: seq<Id>)
      requires Valid() && Known() && maxPriorities > 0 && p < |ready| && Permitted(delay, queues)
      requires taskTicks == Wrapped(now) && tick <= now < tick + TICKS
      modifies `tickCount, `lastTickCount, `tick, `first, `current, `woken, `timedOutAt, `due, `wake
      modifies `ready, `topReadyPriority, `place, `delayed, `overflow, `eventLists, `pendingReady, `container
      ensures Valid() && Known() && tick == now && |ready| == old(|ready|)
      ensures JoinLast(old(ready)[p], list, joined)
      ensures forall id :: id in joined ==> id in old(place) && !old(place)[id].Ready? && Has(priority, id, p)
      ensures forall id :: ReadyBy(id, old(place), old(container), old(due), now) && Has(priority, id, p) ==>
                id in joined
      ensures run.Some? && run.value in priority && priority[run.value] == p ==> NextInTurn(list, run.value, ready[p])
    {
      hide Filings, Events, Clock, Progress, Runs, EarlyOnlyIfWoken, DelaysAreExact, ListsKept, LeftReady, JoinLast,
        NextInTurn;
      ghost var held, wereIn, before := container, place, ready;
      ghost var lists;
      run, lists := Schedule(taskTicks, now);
      joined := ListJoins(held, wereIn, container, place, priority, before, lists, p);
      list := lists[p];
      ghost var picked := ready;
      if run.Some? && priority[run.value] == p {
        TurnIsTaken(lists, ready, priority, run.value, p);
      }
      assert |ready| == |lists| by { RunsChangesOne(run, lists, priority); }
      ReadyIndexed(p);
      if run.Some? && delay.Some? {
        AddToDelayedList(delay.value.ticks, delay.value.eventList);
        LeavesItsTurn(lists, picked, ready, priority, run.value, p);
      }
    }

    lemma RunsChangesOne(run: Option<Id>, lists: seq<ReadyList>, priority: map<Id, nat>)
      requires if run.Some? then Runs(run.value, lists, ready, priority) else ready == lists
      ensures |ready| == |lists|
    {
    }

    /** The members of a ready list have their turns in order, and behind them those that join it
        with the first call, whatever those that run do then, whoever leaves or joins later and
        whatever interrupts come, as long as all that run are of this priority. */
    method TakeTurns(taskTicks: seq<nat>, ghost nows: seq<nat>, ghost p: nat, delays: seq<Option<Delay>>)
      returns (runs: seq<Option<Id>>, ghost joined: seq<Id>)
      requires Valid() && Known() && Sampled(taskTicks, nows, tick) && p < |ready| && maxPriorities > 0
      requires |delays| == |taskTicks| && forall k :: 0 <= k < |delays| ==> Permitted(delays[k], queues)
      modifies `tickCount, `lastTickCount, `tick, `first, `current, `woken, `timedOutAt, `due, `wake
      modifies `ready, `topReadyPriority, `place, `delayed, `overflow, `eventLists, `pendingReady, `container
      ensures Valid() && Known() && |runs| == |taskTicks| && old(ready[p].at) <= old(|ready[p].items|)
      ensures forall id :: id in joined ==> id in old(place) && !old(place)[id].Ready? && Has(priority, id, p)
      ensures runs != [] ==>
                forall id :: ReadyBy(id, old(place), old(container), old(due), nows[0]) && Has(priority, id, p) ==>
                  id in joined
      ensures AllOf(runs, priority, p) ==> InOrderOf(runs, Sure(old(ready[p])) + joined)
    {
      hide Filings, Events, Clock, NextInTurn, JoinLast, Upcoming, Sure, AllOf, InOrderOf, Permitted, ReadyBy;
      runs, joined := [], [];
      ReadyIndexed(p);
      ghost var turns := Sure(ready[p]);
      StartsUpcoming(ready[p]);
      NoneRun(priority, p, turns);
      while |runs| < |taskTicks|
        invariant |runs| <= |taskTicks| && Valid() && Known() && p < |ready|
        invariant tick == if runs == [] then old(tick) else nows[|runs| - 1]
        invariant runs == [] ==> ready == old(ready) && place == old(place) && joined == []
        invariant runs == [] ==> container == old(container) && due == old(due)
        invariant turns == Sure(old(ready[p])) + joined
        invariant forall id :: id in joined ==> id in old(place) && !old(place)[id].Ready? && Has(priority, id, p)
        invariant runs != [] ==>
                    forall id :: ReadyBy(id, old(place), old(container), old(due), nows[0]) && Has(priority, id, p) ==>
                      id in joined
        invariant AllOf(runs, priority, p) ==> InOrderOf(runs, turns) && Upcoming(ready[p], From(turns, |runs|))
      {
        ghost var before := ready;
        var k := |runs|;
        assert SampledAt(taskTicks, nows, old(tick), k);
        var run, list, ids := TakeTurn(taskTicks[k], nows[k], p, delays[k]);
        if k == 0 {
          joined, turns := ids, turns + ids;
          SureWithJoined(before[p], list, ids);
        } else if AllOf(runs, priority, p) {
          StillUpcoming(before[p], list, ids, From(turns, k));
        }
        if AllOf(runs + [run], priority, p) {
          OneMoreOf(runs, run, priority, p);
          assert k == 0 ==> InOrderOf(runs, turns) by { NoneRun(priority, p, turns); }
          OneMoreInTurn(list, ready[p], runs, run, turns);
        }
        runs := runs + [run];
      }
    }

    lemma ReadyIndexed(p: nat)
      requires Filings() && Events() && p < |ready|
      ensures |eventLists| == queues
      ensures |ready| == maxPriorities && ready[p].at <= |ready[p].items| && Distinct(ready[p].items)
    {
      hide Distinct;
    }

    lemma RoundStarts(p: nat)
      requires Filings() && Events() && p < |ready| && ready[p].items != [] && NoneAbove(ready, p)
      ensures ready[p].at <= |ready[p].items| && Distinct(ready[p].items)
      ensures IsTop(place, priority, p, ready[p].items) && maxPriorities > 0
      ensures Progress(container, place, container, place)
      ensures InTurn(ready, [], p, ready[p].items, ready[p].at)
    {
      hide EventsFiled, InPriorityOrder, Distinct;
      ReadyIsListed(ready, place, priority, maxPriorities);
    }

    /** A delay of 0, filed as vCoRoutineAddToDelayedList would, and then `n` rounds.  It ends with
        the first, except at the last tick of an epoch: there the item is left behind in the
        list that is swapped out, and stays for two wraps. */
    method ZeroDelay(n: nat)
      requires Valid() && Known() && current.Some? && current.value in place && place[current.value].Ready?
      modifies `tickCount, `tick, `first, `wake, `woken
      modifies `ready, `topReadyPriority, `place, `delayed, `overflow, `eventLists, `pendingReady, `container
      ensures var id := current.value;
              && id in place
              && (place[id].Ready? <==> n >= if old(tickCount) == MAX_DELAY then 2 * TICKS else 1)
    {
      hide Filings, Events, Clocked, OnTheDot, Progress, Lists, ListsKept, PendingAreWoken, Expired, Wrapped,
        AfterZeroDelay;
      var id := current.value;
      FileZeroDelay(id);
      assert tickCount < TICKS && AfterZeroDelay(tickCount, 0, true, false) by { ZeroDelayStarts(); }
      assert tickCount == Wrapped(tickCount + 0) by { ZeroDelayStarts(); }
      var t, f := tickCount, first;
      var k := 0;
      while k < n
        invariant k <= n && Filings() && Events() && Lists() && Known() && current == old(current)
        invariant tickCount == Wrapped(t + k) && id in wake && wake[id] == t && id in place
        invariant place[id].Ready? || place[id] == DelayedIn(f)
        invariant AfterZeroDelay(t, k, first == f, place[id].Ready?)
      {
        ghost var same, was, wereIn := first == f, place[id].Ready?, place;
        PassTick();
        ReadyIfExpired(wereIn, id);
        WrappedSum(t + k, 1);
        ZeroDelayGoesOn(t, k, same, was, first == f, place[id].Ready?);
        k := k + 1;
      }
      ZeroDelayEnds(t, n, first == f, place[id].Ready?);
    }

    lemma ZeroDelayStarts()
      requires tickCount == Wrapped(tick)
      ensures tickCount < TICKS && AfterZeroDelay(tickCount, 0, true, false) && tickCount == Wrapped(tickCount + 0)
    {
    }

    lemma ReadyIfExpired(wasIn: map<Id, Place>, id: Id)
      requires Expired(wasIn, place, first, wake, priority, tickCount) && id in wasIn && id in wake
      ensures id in place && (place[id].Ready? || place[id] == wasIn[id])
      ensures place[id].Ready? <==> wasIn[id].Ready? || (wasIn[id] == DelayedIn(first) && wake[id] <= tickCount)
    {
    }

    method FileZeroDelay(id: Id)
      requires Valid() && id in place && place[id].Ready?
      modifies `ready, `place, `wake, `delayed, `overflow
      ensures Filings() && Events() && Lists() && wake == old(wake)[id := tickCount]
      ensures place == old(place)[id := DelayedIn(first)]
    {
      hide Filing, Eventful, Clocked, NoneAbove, OnTheDot, InOrder, PendingAreWoken, Inserted, InsertionPoint, Values;
      ghost var wasIn := place;
      ClockedInOrder(delayed, overflow, wake, due, tick, tick + 1);
      NotDelayed(ready, delayed, overflow, first, place, priority, maxPriorities, id);
      InOrderKeys(delayed, wake);
      InsertedIsInOrder(delayed, wake, id, tickCount);
      OthersAreInOrder(overflow, wake, id, tickCount);
      DelayGenericItem(id, Wrapped(tickCount + 0));
      DelayedKeepsEvents(eventLists, pendingReady, container, wasIn, place, priority, maxPriorities, id);
    }

    method PickHighest() returns (run: Option<Id>)
      requires Filings()
      modifies `ready, `topReadyPriority, `current
      ensures Filings()
      ensures run == None ==>
                current == old(current) && ready == old(ready) && forall id :: id in place ==> !place[id].Ready?
      ensures run.Some? ==>
                && current == run && Runs(run.value, old(ready), ready, priority)
                && run.value in priority && run.value in place && place[run.value].Ready?
                && forall id :: id in place && place[id].Ready? ==>
                     id in priority && priority[id] <= priority[run.value]
    {
      hide Filed, PrioritiesKept;
      while ready[topReadyPriority].items == []
        invariant NoneAbove(ready, topReadyPriority)
        modifies `topReadyPriority
        decreases topReadyPriority
      {
        if topReadyPriority == 0 {
          NobodyReady(ready, place, priority, maxPriorities);
          return None;
        }
        topReadyPriority := topReadyPriority - 1;
      }
      var at := NextAt(|ready[topReadyPriority].items|, ready[topReadyPriority].at);
      HighestReady(ready, place, priority, maxPriorities, topReadyPriority, at);
      ready := ready[topReadyPriority := ready[topReadyPriority].(at := at)];
      run := Some(ready[topReadyPriority].items[at]);
      current := run;
    }

    ghost predicate Known()
      reads `current, `priority
    {
      current.Some? ==> current.value in priority
    }
  }

  /** `n` rounds after a delay of 0 at the tick count `t`: whether its list is the current one, and
      whether the co-routine is ready. */
  ghost predicate AfterZeroDelay(t: nat, n: nat, same: bool, ready: bool) {
    && (ready <==> n >= if t == MAX_DELAY then 2 * TICKS else 1)
    && (t == MAX_DELAY && n <= 2 * TICKS ==> (same <==> n == 0 || n > TICKS))
    && (t != MAX_DELAY && n == 0 ==> same)
  }

  lemma ZeroDelayEnds(t: nat, n: nat, same: bool, ready: bool)
    requires AfterZeroDelay(t, n, same, ready)
    ensures ready <==> n >= if t == MAX_DELAY then 2 * TICKS else 1
  {
  }

  lemma ZeroDelayGoesOn(t: nat, n: nat, same: bool, ready: bool, sameThen: bool, readyThen: bool)
    requires t < TICKS && AfterZeroDelay(t, n, same, ready)
    requires sameThen == if Wrapped(t + n + 1) == 0 then !same else same
    requires readyThen <==> ready || (sameThen && t <= Wrapped(t + n + 1))
    ensures AfterZeroDelay(t, n + 1, sameThen, readyThen)
  {
  }

  /** What the scheduler and the interrupts may change: delayed co-routines become ready, and
      whoever was pending is pending or ready; nobody comes to wait for an event. */
  ghost predicate Progress(wasHeld: map<Id, EventPlace>, wasIn: map<Id, Place>, container: map<Id, EventPlace>,
                           place: map<Id, Place>) {
    && (forall id :: id in place <==> id in wasIn)
    && (forall id :: id in container <==> id in wasHeld)
    && (forall id :: id in container <==> id in place)
    && (forall id :: id in place && id in wasIn && place[id] != wasIn[id] ==> place[id].Ready? && !wasIn[id].Ready?)
    && (forall id :: id in wasHeld && id in container && id in place && wasHeld[id] == Pending ==>
          container[id] == Pending || place[id].Ready?)
    && (forall id :: id in wasHeld && id in container && wasHeld[id] == NoEvent ==> container[id] == NoEvent)
  }

  /** Whoever became ready is stamped, and nobody's stamp is lost. */
  ghost predicate Stamped(wasIn: map<Id, Place>, place: map<Id, Place>, before: map<Id, nat>,
                          timedOutAt: map<Id, nat>) {
    && (forall id :: id in place && id in wasIn && place[id] != wasIn[id] ==> id in timedOutAt)
    && (forall id :: id in before ==> id in timedOutAt)
  }

  /** Whoever became ready had asked for a tick in the range. */
  ghost predicate ReadiedBetween(wasIn: map<Id, Place>, place: map<Id, Place>, due: map<Id, nat>, from: nat, to: nat) {
    forall id :: id in wasIn && id in place && place[id] != wasIn[id] ==> id in due && from <= due[id] <= to
  }

  /** Of those that were delayed, exactly those are ready that had asked for a tick up to now. */
  ghost predicate ReadiedExactly(wasIn: map<Id, Place>, place: map<Id, Place>, due: map<Id, nat>, now: nat) {
    forall id :: id in wasIn && id in place && !wasIn[id].Ready? ==>
      id in due && (place[id].Ready? <==> due[id] <= now)
  }

  /** Whoever became ready had its event item in a list, and was taken from it. */
  ghost predicate WokenOnly(wasHeld: map<Id, EventPlace>, wasIn: map<Id, Place>, place: map<Id, Place>,
                            woken: set<Id>) {
    forall id :: id in wasIn && id in place && place[id] != wasIn[id] ==>
      id in wasHeld && wasHeld[id] != NoEvent && id in woken
  }

  ghost predicate ReadyInTime(wasHeld: map<Id, EventPlace>, wasIn: map<Id, Place>, place: map<Id, Place>,
                              due: map<Id, nat>, now: nat) {
    forall id :: id in wasIn && !wasIn[id].Ready? ==>
      && id in place && id in wasHeld && id in due
      && (due[id] <= now || wasHeld[id] == Pending ==> place[id].Ready?)
  }

  ghost predicate EarlyOnlyIfWoken(wasHeld: map<Id, EventPlace>, wasIn: map<Id, Place>, place: map<Id, Place>,
                                   due: map<Id, nat>, woken: set<Id>, now: nat) {
    forall id :: id in wasIn && !wasIn[id].Ready? && id in place && place[id].Ready? ==>
      && id in due && id in wasHeld
      && (due[id] > now ==> wasHeld[id] != NoEvent && id in woken)
  }

  /** Whoever waited for no event is ready exactly if its tick has come. */
  ghost predicate DelaysAreExact(wasHeld: map<Id, EventPlace>, wasIn: map<Id, Place>, place: map<Id, Place>,
                                 due: map<Id, nat>, now: nat) {
    forall id :: id in wasIn && !wasIn[id].Ready? && id in wasHeld && wasHeld[id] == NoEvent ==>
      && id in place && id in due
      && (place[id].Ready? <==> due[id] <= now)
  }

  /** Those that became ready left the delay list with a value that was reached. */
  ghost predicate ExpiredOnly(wasIn: map<Id, Place>, place: map<Id, Place>, first: bool, wake: map<Id, nat>,
                              priority: map<Id, nat>, tickCount: nat) {
    && (forall id :: id in place <==> id in wasIn)
    && (forall id :: id in place && id in wasIn && place[id] != wasIn[id] ==>
          && wasIn[id] == DelayedIn(first) && id in wake && wake[id] <= tickCount
          && id in priority && place[id] == Ready(priority[id]))
  }

  /** And everybody did whose value was reached. */
  ghost predicate Expired(wasIn: map<Id, Place>, place: map<Id, Place>, first: bool, wake: map<Id, nat>,
                          priority: map<Id, nat>, tickCount: nat) {
    && ExpiredOnly(wasIn, place, first, wake, priority, tickCount)
    && (forall id :: id in wasIn && id in place && wasIn[id] == DelayedIn(first) ==>
          id in wake && (place[id].Ready? <==> wake[id] <= tickCount))
  }

  lemma ProgressGoesOn(wasHeld: map<Id, EventPlace>, wasIn: map<Id, Place>, held: map<Id, EventPlace>,
                       wereIn: map<Id, Place>, container: map<Id, EventPlace>, place: map<Id, Place>)
    requires Progress(wasHeld, wasIn, held, wereIn) && Progress(held, wereIn, container, place)
    ensures Progress(wasHeld, wasIn, container, place)
  {
  }

  lemma NobodyWoken(wasHeld: map<Id, EventPlace>, place: map<Id, Place>, woken: set<Id>)
    ensures WokenOnly(wasHeld, place, place, woken)
  {
  }

  lemma NotPending(container: map<Id, EventPlace>, woken: set<Id>, id: Id)
    requires PendingAreWoken(container, woken)
    ensures PendingAreWoken(container[id := NoEvent], woken)
    ensures id in container && container[id] != Pending ==> PendingAreWoken(container, woken - {id})
  {
  }

  lemma OneWoken(wasHeld: map<Id, EventPlace>, wasIn: map<Id, Place>, id: Id, p: nat, woken: set<Id>)
    requires id in wasHeld && wasHeld[id] == Pending && id in woken
    ensures WokenOnly(wasHeld, wasIn, wasIn[id := Ready(p)], woken)
  {
  }

  lemma WakingGoesOn(wasHeld: map<Id, EventPlace>, wasIn: map<Id, Place>, was: set<Id>, held: map<Id, EventPlace>,
                     wereIn: map<Id, Place>, container: map<Id, EventPlace>, place: map<Id, Place>, woken: set<Id>)
    requires Progress(wasHeld, wasIn, held, wereIn) && Progress(held, wereIn, container, place)
    requires WokenOnly(wasHeld, wasIn, wereIn, was) && WokenOnly(held, wereIn, place, woken) && was <= woken
    ensures WokenOnly(wasHeld, wasIn, place, woken)
  {
  }

  /** First the pending co-routines, then the delayed ones. */
  lemma AllInTime(wasHeld: map<Id, EventPlace>, wasIn: map<Id, Place>, was: set<Id>, held: map<Id, EventPlace>,
                  wereIn: map<Id, Place>, container: map<Id, EventPlace>, place: map<Id, Place>, due: map<Id, nat>,
                  woken: set<Id>, now: nat)
    requires Progress(wasHeld, wasIn, held, wereIn) && Progress(held, wereIn, container, place)
    requires WokenOnly(wasHeld, wasIn, wereIn, was) && was <= woken
    requires forall id :: id in held ==> held[id] != Pending
    requires ReadiedExactly(wereIn, place, due, now) && forall id :: id in wasIn && !wasIn[id].Ready? ==> id in due
    ensures ReadyInTime(wasHeld, wasIn, place, due, now)
    ensures EarlyOnlyIfWoken(wasHeld, wasIn, place, due, woken, now)
    ensures DelaysAreExact(wasHeld, wasIn, place, due, now)
  {
  }

  /** Of the lists `was`, the co-routine that runs is the next one in the list of its priority; the
      index of that list moved to it, and nothing else changed. */
  ghost predicate Runs(id: Id, was: seq<ReadyList>, ready: seq<ReadyList>, priority: map<Id, nat>) {
    && id in priority && priority[id] < |was|
    && var p, list := priority[id], was[priority[id]];
    && list.items != [] && list.at <= |list.items|
    && id == list.items[NextAt(|list.items|, list.at)]
    && ready == was[p := list.(at := NextAt(|list.items|, list.at))]
  }

  /** Exactly these have another place now. */
  ghost predicate Changed(wasIn: map<Id, Place>, place: map<Id, Place>, ids: seq<Id>) {
    Distinct(ids) && forall id :: id in ids <==> id in wasIn && id in place && place[id] != wasIn[id]
  }

  /** `ids` became ready, in this order, each where its turn comes last. */
  ghost predicate Joined(wasIn: map<Id, Place>, place: map<Id, Place>, priority: map<Id, nat>, was: seq<ReadyList>,
                         ready: seq<ReadyList>, ids: seq<Id>) {
    && Changed(wasIn, place, ids)
    && WellIndexed(was) && (forall id :: id in ids ==> id in priority && priority[id] < |was|)
    && ready == WithAll(was, ids, priority)
  }

  /** The ready lists changed by nothing but those that became ready. */
  ghost predicate ListsKept(wasIn: map<Id, Place>, place: map<Id, Place>, priority: map<Id, nat>, was: seq<ReadyList>,
                            ready: seq<ReadyList>) {
    exists ids :: Joined(wasIn, place, priority, was, ready, ids)
  }

  ghost predicate Readied(was: seq<ReadyList>, ready: seq<ReadyList>, p: nat, id: Id) {
    WellIndexed(was) && p < |was| && ready == WithReady(was, p, id)
  }

  lemma OneReadied(wasIn: map<Id, Place>, id: Id, priority: map<Id, nat>, was: seq<ReadyList>, ready: seq<ReadyList>)
    requires id in wasIn && !wasIn[id].Ready? && id in priority && Readied(was, ready, priority[id], id)
    ensures ListsKept(wasIn, wasIn[id := Ready(priority[id])], priority, was, ready)
  {
    hide WithReady;
    assert [id][..0] == [];
    assert WithAll(was, [], priority) == was;
    assert Joined(wasIn, wasIn[id := Ready(priority[id])], priority, was, ready, [id]);
  }

  lemma JoinedTogether(wasHeld: map<Id, EventPlace>, wasIn: map<Id, Place>, held: map<Id, EventPlace>,
                       wereIn: map<Id, Place>, container: map<Id, EventPlace>, place: map<Id, Place>, a: seq<Id>,
                       b: seq<Id>)
    requires Progress(wasHeld, wasIn, held, wereIn) && Progress(held, wereIn, container, place)
    requires Changed(wasIn, wereIn, a) && Changed(wereIn, place, b)
    ensures Changed(wasIn, place, a + b)
  {
    forall id
      ensures id in a + b <==> id in wasIn && id in place && place[id] != wasIn[id]
    {
    }
    forall i, j | 0 <= i < |a| && 0 <= j < |b|
      ensures a[i] != b[j]
    {
      assert a[i] in a && b[j] in b;
    }
  }

  lemma KeepingGoesOn(wasHeld: map<Id, EventPlace>, wasIn: map<Id, Place>, held: map<Id, EventPlace>,
                      wereIn: map<Id, Place>, container: map<Id, EventPlace>, place: map<Id, Place>,
                      priority: map<Id, nat>, was: seq<ReadyList>, between: seq<ReadyList>, ready: seq<ReadyList>)
    requires Progress(wasHeld, wasIn, held, wereIn) && Progress(held, wereIn, container, place)
    requires ListsKept(wasIn, wereIn, priority, was, between) && ListsKept(wereIn, place, priority, between, ready)
    ensures ListsKept(wasIn, place, priority, was, ready)
  {
    hide WithReady, WithAll, Changed, Progress;
    var a :| Joined(wasIn, wereIn, priority, was, between, a);
    var b :| Joined(wereIn, place, priority, between, ready, b);
    AllTogether(was, a, b, priority);
    JoinedTogether(wasHeld, wasIn, held, wereIn, container, place, a, b);
    assert Joined(wasIn, place, priority, was, ready, a + b);
  }

  /** Nobody of a priority from `p` on became ready. */
  ghost predicate SameFrom(wasIn: map<Id, Place>, place: map<Id, Place>, priority: map<Id, nat>, p: nat) {
    forall id :: id in wasIn && id in place && id in priority && priority[id] >= p ==> place[id] == wasIn[id]
  }

  lemma ListStays(wasIn: map<Id, Place>, place: map<Id, Place>, priority: map<Id, nat>, was: seq<ReadyList>,
                  ready: seq<ReadyList>, p: nat)
    requires ListsKept(wasIn, place, priority, was, ready) && SameFrom(wasIn, place, priority, p) && p < |was|
    ensures |ready| == |was| && ready[p] == was[p]
  {
    var ids :| Joined(wasIn, place, priority, was, ready, ids);
    OtherListsStay(was, ids, priority, p);
  }

  lemma HasMember(ids: seq<Id>)
    requires ids != []
    ensures ids[0] in ids
  {
  }

  lemma AllListsStay(place: map<Id, Place>, priority: map<Id, nat>, was: seq<ReadyList>, ready: seq<ReadyList>)
    requires ListsKept(place, place, priority, was, ready)
    ensures ready == was
  {
    var ids :| Joined(place, place, priority, was, ready, ids);
    if ids != [] {
      HasMember(ids);
      assert false;
    }
  }

  /** A round of turns: every member runs, and none twice. */
  lemma EqualShares(items: seq<Id>, at: nat, runs: seq<Id>)
    requires |runs| == |items| > 0 && at <= |items| && Distinct(items)
    requires forall j :: 0 <= j < |runs| ==> runs[j] == items[Visit(|items|, at, j + 1)]
    ensures Distinct(runs) && forall id :: id in items <==> id in runs
  {
    var n := |items|;
    forall i, j | 0 <= i < j < n
      ensures runs[i] != runs[j]
    {
      VisitInOneRound(n, at, i + 1);
      VisitInOneRound(n, at, j + 1);
    }
    forall id | id in items
      ensures id in runs
    {
      var k :| 0 <= k < n && items[k] == id;
      EveryItemHasOneTurnPerRound(n, at, k);
      var j :| 1 <= j <= n && Visit(n, at, j) == k;
      assert runs[j - 1] == id;
    }
  }

  /** The true times of samples of the tick count, less than a wrap apart, from `tick` on. */
  ghost predicate Sampled(taskTicks: seq<nat>, nows: seq<nat>, tick: nat) {
    |nows| == |taskTicks| && forall j :: 0 <= j < |nows| ==> SampledAt(taskTicks, nows, tick, j)
  }

  ghost predicate SampledAt(taskTicks: seq<nat>, nows: seq<nat>, tick: nat, j: nat)
    requires j < |nows| == |taskTicks|
  {
    var before := if j == 0 then tick else nows[j - 1];
    taskTicks[j] == Wrapped(nows[j]) && before <= nows[j] < before + TICKS
  }

  /** Nobody of a priority above `p` is ready, and these are the ones of priority `p`. */
  ghost predicate IsTop(place: map<Id, Place>, priority: map<Id, nat>, p: nat, items: seq<Id>) {
    && items != []
    && (forall id :: id in items ==> id in place && place[id].Ready? && id in priority && priority[id] == p)
    && (forall id :: id in place && place[id].Ready? ==> id in priority && priority[id] <= p)
  }

  /** After as many calls as there are runs, the members have run in turn. */
  ghost predicate InTurn(ready: seq<ReadyList>, runs: seq<Option<Id>>, p: nat, items: seq<Id>, at: nat)
    requires items != [] && at <= |items|
  {
    && p < |ready| && ready[p] == ReadyList(items, Visit(|items|, at, |runs|))
    && forall j :: 0 <= j < |runs| ==> runs[j] == Some(items[Visit(|items|, at, j + 1)])
  }

  datatype Delay = Delay(ticks: nat, eventList: Option<nat>)

  predicate Permitted(delay: Option<Delay>, queues: nat) {
    delay.Some? ==>
      && 1 <= delay.value.ticks < TICKS
      && (delay.value.eventList.Some? ==> delay.value.eventList.value < queues)
  }

  /** A delayed co-routine that a call at `now` makes ready in any case. */
  ghost predicate ReadyBy(id: Id, place: map<Id, Place>, container: map<Id, EventPlace>, due: map<Id, nat>, now: nat) {
    && id in place && !place[id].Ready? && id in due && id in container
    && (due[id] <= now || container[id] == Pending)
  }

  predicate Has(priority: map<Id, nat>, id: Id, p: nat) {
    id in priority && priority[id] == p
  }

  ghost predicate AllOf(runs: seq<Option<Id>>, priority: map<Id, nat>, p: nat) {
    forall k :: 0 <= k < |runs| ==> runs[k].Some? && runs[k].value in priority && priority[runs[k].value] == p
  }

  ghost predicate InOrderOf(runs: seq<Option<Id>>, turns: seq<Id>) {
    forall k :: 0 <= k < |runs| && k < |turns| ==> runs[k] == Some(turns[k])
  }

  /** The members in the order of their turns, without the one that the index stands on. */
  function Sure(list: ReadyList): seq<Id>
    requires list.at <= |list.items|
  {
    var turns := Turns(list.items, list.at);
    if list.at < |list.items| then turns[..|turns| - 1] else turns
  }

  function From(turns: seq<Id>, k: nat): seq<Id> {
    if k <= |turns| then turns[k..] else []
  }

  /** These have the next turns, and the index stands on none of them. */
  ghost predicate Upcoming(list: ReadyList, turns: seq<Id>) {
    && list.at <= |list.items| && turns <= Turns(list.items, list.at)
    && (list.at < |list.items| ==> |turns| < |list.items|)
  }

  lemma StartsUpcoming(list: ReadyList)
    requires list.at <= |list.items|
    ensures Upcoming(list, Sure(list)) && From(Sure(list), 0) == Sure(list) && Sure(list) + [] == Sure(list)
  {
  }

  lemma SureWithJoined(was: ReadyList, list: ReadyList, ids: seq<Id>)
    requires JoinLast(was, list, ids)
    ensures Sure(list) == Sure(was) + ids && Upcoming(list, From(Sure(was) + ids, 0))
  {
  }

  lemma StillUpcoming(was: ReadyList, list: ReadyList, ids: seq<Id>, turns: seq<Id>)
    requires JoinLast(was, list, ids) && Upcoming(was, turns)
    ensures Upcoming(list, turns)
  {
    hide Turns;
  }

  /** Whatever the next turns are, the first of them is taken, and the others are next. */
  ghost predicate NextInTurn(list: ReadyList, id: Id, after: ReadyList) {
    forall turns :: Upcoming(list, turns) ==> Upcoming(after, From(turns, 1)) && (turns != [] ==> id == turns[0])
  }

  lemma TurnIsTaken(lists: seq<ReadyList>, ready: seq<ReadyList>, priority: map<Id, nat>, id: Id, p: nat)
    requires Runs(id, lists, ready, priority) && priority[id] == p
    ensures NextInTurn(lists[p], id, ready[p])
  {
    hide Turns;
    TurnsRotate(lists[p].items, lists[p].at);
  }

  /** And so it is when the one that runs leaves the list then. */
  lemma LeavesItsTurn(lists: seq<ReadyList>, picked: seq<ReadyList>, ready: seq<ReadyList>, priority: map<Id, nat>,
                      id: Id, p: nat)
    requires Runs(id, lists, picked, priority) && p < |lists| && Distinct(picked[p].items)
    requires LeftReady(picked, ready, priority[id], id)
    ensures |ready| == |lists| && (priority[id] == p ==> NextInTurn(lists[p], id, ready[p]))
  {
    hide Turns;
    var was, q := picked[p], priority[id];
    var k :| 0 <= k < |picked[q].items| && picked[q].items[k] == id && ready == WithoutReady(picked, q, k);
    if q == p {
      TurnsRotate(lists[p].items, lists[p].at);
      assert k == was.at;
      var j := RemovedTurns(was.items, was.at, k);
    }
  }

  lemma OneMoreInTurn(list: ReadyList, after: ReadyList, runs: seq<Option<Id>>, run: Option<Id>, turns: seq<Id>)
    requires run.Some? && NextInTurn(list, run.value, after)
    requires InOrderOf(runs, turns) && Upcoming(list, From(turns, |runs|))
    ensures InOrderOf(runs + [run], turns) && Upcoming(after, From(turns, |runs| + 1))
  {
    hide Upcoming;
    assert From(From(turns, |runs|), 1) == From(turns, |runs| + 1);
  }

  lemma NoneRun(priority: map<Id, nat>, p: nat, turns: seq<Id>)
    ensures AllOf([], priority, p) && InOrderOf([], turns)
  {
  }

  lemma OneMoreOf(runs: seq<Option<Id>>, run: Option<Id>, priority: map<Id, nat>, p: nat)
    requires AllOf(runs + [run], priority, p)
    ensures AllOf(runs, priority, p) && run.Some? && run.value in priority && priority[run.value] == p
  {
    var more := runs + [run];
    assert more[|runs|] == run;
    assert forall k :: 0 <= k < |runs| ==> more[k] == runs[k];
  }

  /** Of those that became ready, the ones of a priority joined its list. */
  lemma ListJoins(wasHeld: map<Id, EventPlace>, wasIn: map<Id, Place>, container: map<Id, EventPlace>,
                  place: map<Id, Place>, priority: map<Id, nat>, was: seq<ReadyList>, ready: seq<ReadyList>, p: nat)
    returns (ids: seq<Id>)
    requires Progress(wasHeld, wasIn, container, place) && ListsKept(wasIn, place, priority, was, ready) && p < |was|
    ensures |ready| == |was| && JoinLast(was[p], ready[p], ids)
    ensures forall id :: id in ids <==>
              && id in wasIn && !wasIn[id].Ready? && id in place && place[id].Ready?
              && id in priority && priority[id] == p
  {
    hide WithAll, JoinLast;
    var all :| Joined(wasIn, place, priority, was, ready, all);
    AllJoinLast(was, all, priority, p);
    ids := OfPriority(all, priority, p);
  }

  ghost predicate EachRunsOnce(runs: seq<Option<Id>>, items: seq<Id>) {
    && |runs| == |items| && (forall i, j :: 0 <= i < j < |runs| ==> runs[i] != runs[j])
    && (forall id :: id in items <==> Some(id) in runs)
  }

  lemma SameSoFar(wasHeld: map<Id, EventPlace>, wasIn: map<Id, Place>,
                  held: map<Id, EventPlace>, wereIn: map<Id, Place>,
                  container: map<Id, EventPlace>, place: map<Id, Place>, priority: map<Id, nat>, p: nat)
    requires Progress(wasHeld, wasIn, held, wereIn) && Progress(held, wereIn, container, place)
    requires SameFrom(wasIn, place, priority, p)
    ensures SameFrom(wasIn, wereIn, priority, p) && SameFrom(wereIn, place, priority, p)
    ensures forall id :: id in place <==> id in wasIn
  {
  }

  /** Then the next member of the top list is the one that runs. */
  lemma TopRuns(wasIn: map<Id, Place>, place: map<Id, Place>, priority: map<Id, nat>, p: nat, items: seq<Id>,
                run: Option<Id>, lists: seq<ReadyList>, ready: seq<ReadyList>)
    requires IsTop(wasIn, priority, p, items) && SameFrom(wasIn, place, priority, p)
    requires forall id :: id in place <==> id in wasIn
    requires run == None ==> forall id :: id in place ==> !place[id].Ready?
    requires run.Some? ==>
               && Runs(run.value, lists, ready, priority) && run.value in place && place[run.value].Ready?
               && forall id :: id in place && place[id].Ready? ==> id in priority && priority[id] <= priority[run.value]
    ensures run.Some? && priority[run.value] == p
  {
    assert items[0] in items;
  }

  lemma OneMoreTurn(before: seq<ReadyList>, lists: seq<ReadyList>, ready: seq<ReadyList>, priority: map<Id, nat>,
                    runs: seq<Option<Id>>, run: Option<Id>, p: nat, items: seq<Id>, at: nat)
    requires items != [] && at <= |items| && InTurn(before, runs, p, items, at)
    requires |lists| == |before| && lists[p] == before[p]
    requires run.Some? && Runs(run.value, lists, ready, priority) && priority[run.value] == p
    ensures InTurn(ready, runs + [run], p, items, at)
  {
  }

  lemma AllHadTheirTurn(items: seq<Id>, at: nat, runs: seq<Option<Id>>)
    requires |runs| == |items| > 0 && at <= |items| && Distinct(items)
    requires forall j :: 0 <= j < |runs| ==> runs[j] == Some(items[Visit(|items|, at, j + 1)])
    ensures EachRunsOnce(runs, items)
  {
    var ids := seq(|runs|, j requires 0 <= j < |runs| => items[Visit(|items|, at, j + 1)]);
    EqualShares(items, at, ids);
    assert forall j :: 0 <= j < |runs| ==> runs[j] == Some(ids[j]);
    forall id
      ensures id in ids <==> Some(id) in runs
    {
      if id in ids {
        var j :| 0 <= j < |ids| && ids[j] == id;
        assert runs[j] == Some(id);
      }
    }
  }

  lemma HighestReady(ready: seq<ReadyList>, place: map<Id, Place>, priority: map<Id, nat>, max: nat, top: nat, at: nat)
    requires ReadyFiled(ready, place) && PrioritiesKept(place, priority, max) && |ready| == max && NoneAbove(ready, top)
    requires at < |ready[top].items|
    ensures var id := ready[top].items[at];
            id in place && place[id] == Ready(top) && id in priority && priority[id] == top
    ensures forall id :: id in place && place[id].Ready? ==> id in priority && priority[id] <= top
  {
    assert ready[top].items[at] in ready[top].items;
    ReadyIsListed(ready, place, priority, max);
  }

  lemma NobodyReady(ready: seq<ReadyList>, place: map<Id, Place>, priority: map<Id, nat>, max: nat)
    requires ReadyFiled(ready, place) && PrioritiesKept(place, priority, max) && |ready| == max && NoneAbove(ready, 0)
    requires ready[0].items == []
    ensures forall id :: id in place ==> !place[id].Ready?
  {
    ReadyIsListed(ready, place, priority, max);
    assert forall p :: 0 <= p < |ready| ==> ready[p].items == [];
  }

  lemma ReadyIsListed(ready: seq<ReadyList>, place: map<Id, Place>, priority: map<Id, nat>, max: nat)
    requires ReadyFiled(ready, place) && PrioritiesKept(place, priority, max) && |ready| == max
    ensures forall id :: id in place && place[id].Ready? ==>
      id in priority && priority[id] < max && id in ready[priority[id]].items
  {
  }

  lemma NobodyExpired(place: map<Id, Place>, first: bool, wake: map<Id, nat>, priority: map<Id, nat>, tickCount: nat)
    ensures ExpiredOnly(place, place, first, wake, priority, tickCount)
  {
  }

  lemma OneMoreExpired(wasIn: map<Id, Place>, place: map<Id, Place>, first: bool, wake: map<Id, nat>,
                       priority: map<Id, nat>, tickCount: nat, id: Id)
    requires ExpiredOnly(wasIn, place, first, wake, priority, tickCount)
    requires id in place && place[id] == DelayedIn(first) && id in wake && wake[id] <= tickCount && id in priority
    ensures ExpiredOnly(wasIn, place[id := Ready(priority[id])], first, wake, priority, tickCount)
  {
  }

  lemma NobodyReadied(place: map<Id, Place>, due: map<Id, nat>, from: nat, to: nat)
    ensures ReadiedBetween(place, place, due, from, to)
  {
  }

  lemma ReadyingGoesOn(held: map<Id, EventPlace>, wereIn: map<Id, Place>, container: map<Id, EventPlace>,
                       place: map<Id, Place>, due: map<Id, nat>, wasIn: map<Id, Place>, from: nat, tick: nat)
    requires ReadiedBetween(wasIn, wereIn, due, from, tick) && ReadiedBetween(wereIn, place, due, tick + 1, tick + 1)
    requires Progress(held, wereIn, container, place) && from <= tick + 1
    ensures ReadiedBetween(wasIn, place, due, from, tick + 1)
  {
  }

  /** The stamps of those that became ready at a tick. */
  ghost function Stamps(wasIn: map<Id, Place>, place: map<Id, Place>, before: map<Id, nat>, tick: nat): map<Id, nat> {
    before + map id | id in place && id in wasIn && place[id] != wasIn[id] :: tick
  }

  lemma StampedOnTheDot(held: map<Id, EventPlace>, wasIn: map<Id, Place>, container: map<Id, EventPlace>,
                        place: map<Id, Place>, before: map<Id, nat>, due: map<Id, nat>, tick: nat)
    requires OnTheDot(before, due) && ReadiedBetween(wasIn, place, due, tick, tick)
    ensures OnTheDot(Stamps(wasIn, place, before, tick), due)
    ensures Stamped(wasIn, place, before, Stamps(wasIn, place, before, tick))
  {
  }

  lemma NobodyStamped(place: map<Id, Place>, timedOutAt: map<Id, nat>)
    ensures Stamped(place, place, timedOutAt, timedOutAt)
  {
  }

  lemma StampingGoesOn(wasIn: map<Id, Place>, before: map<Id, nat>, held: map<Id, EventPlace>, wereIn: map<Id, Place>,
                       between: map<Id, nat>, container: map<Id, EventPlace>, place: map<Id, Place>,
                       timedOutAt: map<Id, nat>)
    requires Stamped(wasIn, wereIn, before, between) && Stamped(wereIn, place, between, timedOutAt)
    requires Progress(held, wereIn, container, place)
    ensures Stamped(wasIn, place, before, timedOutAt)
  {
  }

  /** The event item of `id` is in no list; others can only have gone from waiting to pending. */
  ghost predicate Detached(wasHeld: map<Id, EventPlace>, container: map<Id, EventPlace>, id: Id) {
    && (forall u :: u in container <==> u in wasHeld)
    && id in container && container[id] == NoEvent
    && (forall u :: u in container && u in wasHeld && u != id && container[u] != wasHeld[u] ==>
          container[u] == Pending && wasHeld[u].Waiting?)
  }

  lemma DetachedItem(wasHeld: map<Id, EventPlace>, container: map<Id, EventPlace>, id: Id)
    requires Detached(wasHeld, container, id)
    ensures id in container && container[id] == NoEvent
  {
  }

  lemma Progresses(wasHeld: map<Id, EventPlace>, wasIn: map<Id, Place>, container: map<Id, EventPlace>,
                   place: map<Id, Place>, id: Id, p: nat)
    requires forall u :: u in wasHeld <==> u in wasIn
    requires Detached(wasHeld, container, id)
    requires id in wasIn && !wasIn[id].Ready? && place == wasIn[id := Ready(p)]
    ensures Progress(wasHeld, wasIn, container, place)
  {
  }

  lemma GenericItemIsFiled(delayed: seq<Id>, overflow: seq<Id>, first: bool, place: map<Id, Place>, id: Id)
    requires Filed(delayed, place, DelayedIn(first)) && Filed(overflow, place, DelayedIn(!first)) && id in place
    ensures place[id] == DelayedIn(first) <==> id in delayed
    ensures place[id] == DelayedIn(!first) <==> id in overflow
  {
  }

  lemma FilingFromParts(ready: seq<ReadyList>, delayed: seq<Id>, overflow: seq<Id>, first: bool, place: map<Id, Place>,
                        priority: map<Id, nat>, max: nat, id: Id)
    requires PrioritiesKept(place, priority, max) && id in place && |ready| == max
    requires var now := place[id := Ready(priority[id])];
             ReadyFiled(ready, now) && Filed(delayed, now, DelayedIn(first)) && Filed(overflow, now, DelayedIn(!first))
    ensures Filing(ready, delayed, overflow, first, place[id := Ready(priority[id])], priority, max)
  {
  }

  lemma FilingOfDelayed(ready: seq<ReadyList>, delayed: seq<Id>, overflow: seq<Id>, first: bool, place: map<Id, Place>,
                        priority: map<Id, nat>, max: nat, id: Id, to: Place)
    requires PrioritiesKept(place, priority, max) && id in place && |ready| == max && !to.Ready?
    requires var now := place[id := to];
             ReadyFiled(ready, now) && Filed(delayed, now, DelayedIn(first)) && Filed(overflow, now, DelayedIn(!first))
    ensures Filing(ready, delayed, overflow, first, place[id := to], priority, max)
  {
  }

  lemma KnownPriority(place: map<Id, Place>, priority: map<Id, nat>, max: nat, id: Id)
    requires PrioritiesKept(place, priority, max) && id in place
    ensures id in priority && priority[id] < max && (place[id].Ready? ==> place[id] == Ready(priority[id]))
  {
  }

  lemma HeadHasHighestPriority(s: seq<Id>, priority: map<Id, nat>, max: nat)
    requires ByPriority(s, priority, max) && s != []
    ensures forall u :: u in s ==> u in priority && priority[u] <= priority[s[0]]
  {
    assert s[0] in s;
    forall u | u in s
      ensures priority[u] <= priority[s[0]]
    {
      var i :| 0 <= i < |s| && s[i] == u;
      assert EventValues(s, priority, max)[0] <= EventValues(s, priority, max)[i];
    }
  }

  lemma HeadIsFiled(lists: seq<seq<Id>>, pending: seq<Id>, container: map<Id, EventPlace>, e: nat)
    requires EventsFiled(lists, pending, container) && e < |lists| && lists[e] != []
    ensures lists[e][0] in container && container[lists[e][0]] == Waiting(e)
  {
    assert lists[e][0] in lists[e];
  }

  lemma WaitingHead(lists: seq<seq<Id>>, pending: seq<Id>, container: map<Id, EventPlace>, place: map<Id, Place>,
                    priority: map<Id, nat>, max: nat, e: nat)
    requires Eventful(lists, pending, container, place, priority, max) && e < |lists| && lists[e] != []
    ensures lists[e][0] in container && container[lists[e][0]].Waiting?
  {
    HeadIsFiled(lists, pending, container, e);
  }

  lemma InNoOtherList(lists: seq<seq<Id>>, pending: seq<Id>, container: map<Id, EventPlace>, id: Id)
    requires EventsFiled(lists, pending, container) && id in container
    ensures id in pending <==> container[id] == Pending
    ensures forall e :: 0 <= e < |lists| ==> (id in lists[e] <==> container[id] == Waiting(e))
  {
  }

  lemma ItemIsFiled(lists: seq<seq<Id>>, pending: seq<Id>, container: map<Id, EventPlace>, id: Id)
    requires EventsFiled(lists, pending, container) && id in container
    ensures container[id].Waiting? ==> container[id].list < |lists| && id in lists[container[id].list]
    ensures container[id].Pending? ==> id in pending
  {
  }

  lemma EventLeaves(lists: seq<seq<Id>>, pending: seq<Id>, container: map<Id, EventPlace>, e: nat, k: nat)
    requires EventsFiled(lists, pending, container) && e < |lists| && k < |lists[e]|
    ensures EventsFiled(lists[e := Removed(lists[e], k)], pending, container[lists[e][k] := NoEvent])
  {
    hide Filed, Removed;
    var id := lists[e][k];
    ItemInItsList(lists, pending, container, e, k);
    forall f | 0 <= f < |lists|
      ensures Filed(lists[e := Removed(lists[e], k)][f], container[id := NoEvent], Waiting(f))
    {
      if f == e {
        RemovedIsFiled(lists[e], container, Waiting(e), k, NoEvent);
      } else {
        NotFiled(lists[f], container, Waiting(f), id);
        OthersAreFiled(lists[f], container, Waiting(f), id, NoEvent);
      }
    }
    NotFiled(pending, container, Pending, id);
    OthersAreFiled(pending, container, Pending, id, NoEvent);
  }

  lemma ItemInItsList(lists: seq<seq<Id>>, pending: seq<Id>, container: map<Id, EventPlace>, e: nat, k: nat)
    requires EventsFiled(lists, pending, container) && e < |lists| && k < |lists[e]|
    ensures lists[e][k] in container && container[lists[e][k]] == Waiting(e)
  {
    assert lists[e][k] in lists[e];
  }

  lemma PendingLeaves(lists: seq<seq<Id>>, pending: seq<Id>, container: map<Id, EventPlace>, k: nat)
    requires EventsFiled(lists, pending, container) && k < |pending|
    ensures EventsFiled(lists, Removed(pending, k), container[pending[k] := NoEvent])
  {
    hide Removed;
    var id := pending[k];
    assert id in pending;
    forall f | 0 <= f < |lists|
      ensures Filed(lists[f], container[id := NoEvent], Waiting(f))
    {
      OthersAreFiled(lists[f], container, Waiting(f), id, NoEvent);
    }
    RemovedIsFiled(pending, container, Pending, k, NoEvent);
  }

  lemma EventToPending(lists: seq<seq<Id>>, pending: seq<Id>, container: map<Id, EventPlace>, e: nat)
    requires EventsFiled(lists, pending, container) && e < |lists| && lists[e] != []
    ensures EventsFiled(lists[e := Removed(lists[e], 0)], pending + [lists[e][0]], container[lists[e][0] := Pending])
  {
    hide Filed, Removed;
    var id := lists[e][0];
    ItemInItsList(lists, pending, container, e, 0);
    forall f | 0 <= f < |lists|
      ensures Filed(lists[e := Removed(lists[e], 0)][f], container[id := Pending], Waiting(f))
    {
      if f == e {
        RemovedIsFiled(lists[e], container, Waiting(e), 0, Pending);
      } else {
        NotFiled(lists[f], container, Waiting(f), id);
        OthersAreFiled(lists[f], container, Waiting(f), id, Pending);
      }
    }
    NotFiled(pending, container, Pending, id);
    InsertedIsFiled(pending, container, Pending, |pending|, id);
    assert Inserted(pending, |pending|, id) == pending + [id];
  }

  lemma RemovedByPriority(lists: seq<seq<Id>>, priority: map<Id, nat>, max: nat, e: nat, k: nat)
    requires InPriorityOrder(lists, priority, max) && e < |lists| && k < |lists[e]|
    ensures InPriorityOrder(lists[e := Removed(lists[e], k)], priority, max)
  {
    var s, r := lists[e], Removed(lists[e], k);
    assert ByPriority(s, priority, max);
    assert forall i :: 0 <= i < |s| ==> s[i] in s;
    assert ByPriority(r, priority, max);
  }

  lemma StillOnlyWhileDelayed(container: map<Id, EventPlace>, place: map<Id, Place>, id: Id, to: EventPlace)
    requires OnlyWhileDelayed(container, place) && id in container && (to == NoEvent || container[id] != NoEvent)
    ensures OnlyWhileDelayed(container[id := to], place)
  {
  }

  /** At the end of an epoch the current delay list is empty: the lists can change roles. */
  lemma NothingLeftAtTheWrap(delayed: seq<Id>, overflow: seq<Id>, wake: map<Id, nat>, due: map<Id, nat>, tick: nat)
    requires Clocked(delayed, overflow, wake, due, tick, tick + 1) && Wrapped(tick + 1) == 0
    ensures delayed == []
  {
    hide Epoch, Wrapped;
    assert |delayed| > 0 ==> delayed[0] in delayed;
    LastOfEpoch(tick);
  }

  lemma LastOfEpoch(tick: nat)
    requires Wrapped(tick + 1) == 0
    ensures forall u :: u > tick ==> Epoch(u) > Epoch(tick)
  {
  }

  lemma SwapIsClocked(delayed: seq<Id>, overflow: seq<Id>, wake: map<Id, nat>, due: map<Id, nat>, tick: nat)
    requires Clocked(delayed, overflow, wake, due, tick, tick + 1)
    ensures if Wrapped(tick + 1) == 0 then Clocked(overflow, delayed, wake, due, tick + 1, tick + 1)
            else Clocked(delayed, overflow, wake, due, tick + 1, tick + 1)
  {
    hide InOrder, Wrapped, Epoch;
    NextTick(tick);
    if Wrapped(tick + 1) == 0 {
      NothingLeftAtTheWrap(delayed, overflow, wake, due, tick);
      EmptyIsInOrder(wake);
    } else {
      forall id | id in overflow
        ensures due[id] >= tick + 2
      {
        LaterEpoch(tick + 1, due[id]);
      }
    }
  }

  lemma LaterEpoch(t: nat, u: nat)
    requires Epoch(u) == Epoch(t) + 1
    ensures u > t
  {
  }

  lemma NextTick(tick: nat)
    ensures Epoch(tick + 1) == if Wrapped(tick + 1) == 0 then Epoch(tick) + 1 else Epoch(tick)
    ensures Wrapped(tick + 1) == Wrapped(Wrapped(tick) + 1)
  {
  }

  lemma EmptyIsInOrder(wake: map<Id, nat>)
    ensures InOrder([], wake)
  {
  }

  lemma RemovedIsInOrder(s: seq<Id>, wake: map<Id, nat>, k: nat)
    requires InOrder(s, wake) && k < |s|
    ensures InOrder(Removed(s, k), wake)
  {
    assert forall i :: 0 <= i < |s| ==> s[i] in s;
  }

  /** Nobody is put into a delay list by readying: what was said of the lists still holds. */
  lemma FewerAreClocked(wasDelayed: seq<Id>, wasOverflow: seq<Id>, first: bool, wasIn: map<Id, Place>, delayed: seq<Id>,
                        overflow: seq<Id>, place: map<Id, Place>, wake: map<Id, nat>, due: map<Id, nat>, tick: nat,
                        from: nat)
    requires Filed(wasDelayed, wasIn, DelayedIn(first)) && Filed(wasOverflow, wasIn, DelayedIn(!first))
    requires Filed(delayed, place, DelayedIn(first)) && Filed(overflow, place, DelayedIn(!first))
    requires forall id :: id in place && !place[id].Ready? ==> id in wasIn && place[id] == wasIn[id]
    requires Clocked(wasDelayed, wasOverflow, wake, due, tick, from) && InOrder(delayed, wake)
    requires InOrder(overflow, wake)
    ensures Clocked(delayed, overflow, wake, due, tick, from)
  {
    hide InOrder, Wrapped, Epoch, Distinct;
  }

  lemma SameEpoch(t: nat, u: nat)
    requires Epoch(t) == Epoch(u)
    ensures Wrapped(u) <= Wrapped(t) <==> u <= t
  {
  }

  /** A round on lists that are clocked. */
  lemma TickIsClocked(wasDelayed: seq<Id>, wasOverflow: seq<Id>, wasFirst: bool, wasIn: map<Id, Place>,
                      delayed: seq<Id>, overflow: seq<Id>, first: bool, place: map<Id, Place>, wake: map<Id, nat>,
                      due: map<Id, nat>, priority: map<Id, nat>, tick: nat)
    requires Filed(wasDelayed, wasIn, DelayedIn(wasFirst)) && Filed(wasOverflow, wasIn, DelayedIn(!wasFirst))
    requires Filed(delayed, place, DelayedIn(first)) && Filed(overflow, place, DelayedIn(!first))
    requires Clocked(wasDelayed, wasOverflow, wake, due, tick, tick + 1) && InOrder(delayed, wake)
    requires InOrder(overflow, wake)
    requires first == if Wrapped(tick + 1) == 0 then !wasFirst else wasFirst
    requires Expired(wasIn, place, first, wake, priority, Wrapped(tick + 1))
    ensures Clocked(delayed, overflow, wake, due, tick + 1, tick + 2)
    ensures ReadiedBetween(wasIn, place, due, tick + 1, tick + 1)
  {
    hide InOrder, Wrapped, Epoch, Distinct;
    SwapIsClocked(wasDelayed, wasOverflow, wake, due, tick);
    var current, other := if Wrapped(tick + 1) == 0 then wasOverflow else wasDelayed,
                          if Wrapped(tick + 1) == 0 then wasDelayed else wasOverflow;
    assert Filed(current, wasIn, DelayedIn(first)) && Filed(other, wasIn, DelayedIn(!first));
    FewerAreClocked(current, other, first, wasIn, delayed, overflow, place, wake, due, tick + 1, tick + 1);
    forall id | id in current
      ensures wake[id] <= Wrapped(tick + 1) <==> due[id] <= tick + 1
    {
      SameEpoch(tick + 1, due[id]);
    }
  }

  /** The head of the current list has the least value; if it is not reached, none is. */
  lemma HeadIsFirst(s: seq<Id>, wake: map<Id, nat>, tickCount: nat)
    requires InOrder(s, wake) && (s != [] ==> s[0] in wake && tickCount < wake[s[0]])
    ensures forall id :: id in s ==> id in wake && tickCount < wake[id]
  {
    forall id | id in s
      ensures tickCount < wake[id]
    {
      var i :| 0 <= i < |s| && s[i] == id;
      assert Values(s, wake)[0] <= Values(s, wake)[i];
    }
  }

  lemma NotFiled<P>(s: seq<Id>, place: map<Id, P>, p: P, id: Id)
    requires Filed(s, place, p) && (id in place ==> place[id] != p)
    ensures id !in s
  {
  }

  lemma InReadyList(ready: seq<ReadyList>, place: map<Id, Place>, id: Id, p: nat)
    requires ReadyFiled(ready, place) && p < |ready| && id in place && place[id] == Ready(p)
    ensures id in ready[p].items
  {
  }

  /** The generic item of a co-routine is in exactly one list: its ready list, or one of the
      two delay lists. */
  lemma EveryItemIsInOneList(ready: seq<ReadyList>, delayed: seq<Id>, overflow: seq<Id>, first: bool,
                             place: map<Id, Place>, priority: map<Id, nat>, max: nat, id: Id)
    requires Filing(ready, delayed, overflow, first, place, priority, max) && id in priority
    ensures priority[id] < |ready|
    ensures forall p :: 0 <= p < |ready| && id in ready[p].items ==> p == priority[id]
    ensures id in ready[priority[id]].items <==> id !in delayed && id !in overflow
    ensures !(id in delayed && id in overflow)
  {
    hide Distinct;
    assert Filed(ready[priority[id]].items, place, Ready(priority[id]));
  }

  lemma FilingParts(ready: seq<ReadyList>, delayed: seq<Id>, overflow: seq<Id>, first: bool, place: map<Id, Place>,
                    priority: map<Id, nat>, max: nat)
    requires Filing(ready, delayed, overflow, first, place, priority, max)
    ensures |ready| == max && ReadyFiled(ready, place) && PrioritiesKept(place, priority, max)
    ensures Filed(delayed, place, DelayedIn(first)) && Filed(overflow, place, DelayedIn(!first))
  {
  }

  /** A co-routine that is in neither delay list goes to its ready list. */
  lemma ReadyingKeepsFiling(delayed: seq<Id>, overflow: seq<Id>, first: bool, place: map<Id, Place>,
                            priority: map<Id, nat>, max: nat,
                            id: Id, p: nat, ready: seq<ReadyList>)
    requires PrioritiesKept(place, priority, max) && Filed(delayed, place, DelayedIn(first))
    requires Filed(overflow, place, DelayedIn(!first))
    requires id in place ==> place[id].Ready?
    requires p < max && |ready| == max && ReadyFiled(ready, place[id := Ready(p)])
    ensures Filing(ready, delayed, overflow, first, place[id := Ready(p)], priority[id := p], max)
  {
    hide Filed, ReadyFiled;
    NotFiled(delayed, place, DelayedIn(first), id);
    NotFiled(overflow, place, DelayedIn(!first), id);
    OthersAreFiled(delayed, place, DelayedIn(first), id, Ready(p));
    OthersAreFiled(overflow, place, DelayedIn(!first), id, Ready(p));
  }

  lemma NewEventItem(lists: seq<seq<Id>>, pending: seq<Id>, container: map<Id, EventPlace>, place: map<Id, Place>,
                     priority: map<Id, nat>, max: nat, id: Id, p: nat)
    requires Eventful(lists, pending, container, place, priority, max) && PrioritiesKept(place, priority, max)
    requires id !in priority && p < max
    ensures Eventful(lists, pending, container[id := NoEvent], place[id := Ready(p)], priority[id := p], max)
  {
    hide Filed, ByPriority;
    forall e | 0 <= e < |lists|
      ensures Filed(lists[e], container[id := NoEvent], Waiting(e))
    {
      NotFiled(lists[e], container, Waiting(e), id);
      OthersAreFiled(lists[e], container, Waiting(e), id, NoEvent);
    }
    NotFiled(pending, container, Pending, id);
    OthersAreFiled(pending, container, Pending, id, NoEvent);
    NewPriority(lists, priority, max, id, p);
  }

  lemma NewPriority(lists: seq<seq<Id>>, priority: map<Id, nat>, max: nat, id: Id, p: nat)
    requires InPriorityOrder(lists, priority, max) && id !in priority && p < max
    ensures InPriorityOrder(lists, priority[id := p], max)
  {
    hide Sorted;
    forall e | 0 <= e < |lists|
      ensures ByPriority(lists[e], priority[id := p], max)
    {
      assert ByPriority(lists[e], priority, max);
      assert forall i :: 0 <= i < |lists[e]| ==> lists[e][i] in lists[e];
      assert EventValues(lists[e], priority[id := p], max) == EventValues(lists[e], priority, max);
    }
  }

  lemma IndexInList(ready: seq<ReadyList>, place: map<Id, Place>, p: nat)
    requires ReadyFiled(ready, place) && p < |ready|
    ensures ready[p].at <= |ready[p].items|
  {
  }

  lemma StillOnTheDot(timedOutAt: map<Id, nat>, due: map<Id, nat>, id: Id, t: nat)
    requires OnTheDot(timedOutAt, due)
    ensures OnTheDot(timedOutAt - {id}, due[id := t])
  {
  }

  lemma InOrderKeys(s: seq<Id>, wake: map<Id, nat>)
    requires InOrder(s, wake)
    ensures forall id :: id in s ==> id in wake
  {
  }

  lemma InsertedByPriority(s: seq<Id>, priority: map<Id, nat>, max: nat, id: Id)
    requires ByPriority(s, priority, max) && id in priority && priority[id] < max
    ensures var k := InsertionPoint(EventValues(s, priority, max), max - priority[id]);
            ByPriority(Inserted(s, k, id), priority, max)
  {
    hide Sorted, Inserted, InsertionPoint;
    var values, v := EventValues(s, priority, max), max - priority[id];
    var k := InsertionPoint(values, v);
    InsertedMembers(s, k, id);
    InsertionIsSortedAndStable(values, v);
    InsertedEventValues(s, priority, max, k, id);
  }

  lemma InsertedEventValues(s: seq<Id>, priority: map<Id, nat>, max: nat, k: nat, id: Id)
    requires k <= |s| && (forall u :: u in s ==> u in priority && priority[u] < max) && id in priority
    requires priority[id] < max
    ensures forall u :: u in Inserted(s, k, id) ==> u in priority && priority[u] < max
    ensures EventValues(Inserted(s, k, id), priority, max) ==
            Inserted<nat>(EventValues(s, priority, max), k, max - priority[id])
  {
    hide EventValues;
    InsertedMembers(s, k, id);
    var values, after := EventValues(s, priority, max), EventValues(Inserted(s, k, id), priority, max);
    var inserted := Inserted<nat>(values, k, max - priority[id]);
    assert |after| == |inserted|;
    forall i | 0 <= i < |after|
      ensures after[i] == inserted[i]
    {
      assert after[i] == max - priority[Inserted(s, k, id)[i]];
    }
  }

  lemma WaitingIsFiled(lists: seq<seq<Id>>, pending: seq<Id>, container: map<Id, EventPlace>, e: nat, k: nat, id: Id)
    requires EventsFiled(lists, pending, container) && e < |lists| && k <= |lists[e]| && id in container
    requires container[id] == NoEvent
    ensures EventsFiled(lists[e := Inserted(lists[e], k, id)], pending, container[id := Waiting(e)])
  {
    hide Filed;
    var after := lists[e := Inserted(lists[e], k, id)];
    forall f | 0 <= f < |lists|
      ensures Filed(after[f], container[id := Waiting(e)], Waiting(f))
    {
      NotFiled(lists[f], container, Waiting(f), id);
      if f == e {
        InsertedIsFiled(lists[e], container, Waiting(e), k, id);
      } else {
        OthersAreFiled(lists[f], container, Waiting(f), id, Waiting(e));
      }
    }
    NotFiled(pending, container, Pending, id);
    OthersAreFiled(pending, container, Pending, id, Waiting(e));
  }

  lemma NoEventWhileReady(lists: seq<seq<Id>>, pending: seq<Id>, container: map<Id, EventPlace>, place: map<Id, Place>,
                          priority: map<Id, nat>, max: nat, id: Id)
    requires Eventful(lists, pending, container, place, priority, max) && id in place && place[id].Ready?
    ensures id in container && container[id] == NoEvent
  {
  }

  lemma DelayedKeepsEvents(lists: seq<seq<Id>>, pending: seq<Id>, container: map<Id, EventPlace>, was: map<Id, Place>,
                           place: map<Id, Place>, priority: map<Id, nat>, max: nat, id: Id)
    requires Eventful(lists, pending, container, was, priority, max) && id in was
    requires id in place && place == was[id := place[id]] && !place[id].Ready?
    ensures Eventful(lists, pending, container, place, priority, max)
  {
  }

  lemma ClockedInOrder(delayed: seq<Id>, overflow: seq<Id>, wake: map<Id, nat>, due: map<Id, nat>, tick: nat, from: nat)
    requires Clocked(delayed, overflow, wake, due, tick, from)
    ensures InOrder(delayed, wake) && InOrder(overflow, wake)
  {
  }

  lemma NotDelayed(ready: seq<ReadyList>, delayed: seq<Id>, overflow: seq<Id>, first: bool, place: map<Id, Place>,
                   priority: map<Id, nat>, max: nat, id: Id)
    requires Filing(ready, delayed, overflow, first, place, priority, max) && (id in place ==> place[id].Ready?)
    ensures id !in delayed && id !in overflow
  {
  }

  /** An item put into a delay list by its value. */
  lemma InsertedIsInOrder(s: seq<Id>, wake: map<Id, nat>, id: Id, v: nat)
    requires InOrder(s, wake) && id !in s
    ensures InOrder(Inserted(s, InsertionPoint(Values(s, wake), v), id), wake[id := v])
  {
    hide Sorted;
    var k := InsertionPoint(Values(s, wake), v);
    InsertedMembers(s, k, id);
    InsertionIsSortedAndStable(Values(s, wake), v);
    assert forall i :: 0 <= i < |s| ==> s[i] in s;
    assert Values(Inserted(s, k, id), wake[id := v]) == Inserted(Values(s, wake), k, v);
  }

  lemma OthersAreInOrder(s: seq<Id>, wake: map<Id, nat>, id: Id, v: nat)
    requires InOrder(s, wake) && id !in s
    ensures InOrder(s, wake[id := v])
  {
    assert forall i :: 0 <= i < |s| ==> s[i] in s;
    assert Values(s, wake[id := v]) == Values(s, wake);
  }

  lemma DelayIsClocked(delayed: seq<Id>, overflow: seq<Id>, wake: map<Id, nat>, due: map<Id, nat>, tick: nat, from: nat,
                       id: Id, delay: nat)
    requires Clocked(delayed, overflow, wake, due, tick, from) && from <= tick + 1
    requires id !in delayed && id !in overflow && 1 <= delay < TICKS
    ensures InOrder(delayed, wake) && InOrder(overflow, wake)
    ensures var v := Wrapped(tick + delay);
            if GoesToOverflow(Wrapped(tick), v) then
              Clocked(delayed, Inserted(overflow, InsertionPoint(Values(overflow, wake), v), id), wake[id := v],
                      due[id := tick + delay], tick, from)
            else
              Clocked(Inserted(delayed, InsertionPoint(Values(delayed, wake), v), id), overflow, wake[id := v],
                      due[id := tick + delay], tick, from)
  {
    hide InOrder, Inserted, Wrapped, Epoch;
    var v := Wrapped(tick + delay);
    OverflowIsNextEpoch(tick, delay);
    if GoesToOverflow(Wrapped(tick), v) {
      InOrderKeys(overflow, wake);
      InsertedIsInOrder(overflow, wake, id, v);
      OthersAreInOrder(delayed, wake, id, v);
      InsertedMembers(overflow, InsertionPoint(Values(overflow, wake), v), id);
    } else {
      InOrderKeys(delayed, wake);
      InsertedIsInOrder(delayed, wake, id, v);
      OthersAreInOrder(overflow, wake, id, v);
      InsertedMembers(delayed, InsertionPoint(Values(delayed, wake), v), id);
    }
  }
}
