/** The software timer daemon of `timers.c`.

    Tick counts are 32 bits wide and wrap.  The ghost field `now` is the true,
    unbounded time of the daemon's last sample, and every timer carries the
    true time `due` of its next expiry; the proofs show that the modular
    comparisons of the code are comparisons of true times. */
module SoftwareTimers {
  import opened Arithmetic
  import opened KernelList
  import opened TickCount

  /** The length of `n` periods. */
  function Elapsed(period: nat, n: nat): nat {
    if n == 0 then 0 else Elapsed(period, n - 1) + period
  }

  /** When `n` periods are over and one more is not, `n` is the quotient. */
  lemma {:induction false} ElapsedIsQuotient(period: nat, n: nat, t: nat)
    requires 1 <= period
    ensures Elapsed(period, n) == n * period
    ensures Elapsed(period, n) <= t < Elapsed(period, n + 1) ==> n == t / period
  {
    if n > 0 {
      ElapsedIsQuotient(period, n - 1, t);
    }
    assert Elapsed(period, n) == n * period;
    if n * period <= t < n * period + period {
      DivisionIsUnique(t, period, n, t - n * period);
    }
  }

  // ------------------------------------------------- where an expiry belongs

  datatype Placement = ProcessNow | IntoCurrent | IntoOverflow

  /** The comparisons of prvInsertTimerInActiveList, on tick counts. */
  function Place(next: nat, now: nat, command: nat, period: nat): Placement
  {
    if next <= now then
      if Wrapped(now - command) >= period then ProcessNow else IntoOverflow
    else
      if now < command && next >= command then ProcessNow else IntoCurrent
  }

  /** The comparisons are exact, whatever wrapped in between, for a command less
      than one wrap old and a period shorter than one wrap. */
  lemma PlacementIsExact(now: nat, command: nat, period: nat)
    requires command <= now < command + TICKS && 1 <= period < TICKS
    ensures var due := command + period;
            var p := Place(Wrapped(due), Wrapped(now), Wrapped(command), period);
            && (p == ProcessNow <==> due <= now)
            && (p == IntoCurrent <==> now < due && Epoch(due) == Epoch(now))
            && (p == IntoOverflow <==> now < due && Epoch(due) == Epoch(now) + 1)
  {
    hide Wrapped, Epoch;
    NearbyEpoch(command, now);
    NearbyEpoch(command, command + period);
    WrappedDifference(command, now);
  }

  /** Both bounds are needed: a command exactly one wrap old is misjudged. */
  lemma PlacementNeedsRecentCommand()
    ensures Place(Wrapped(5), Wrapped(TICKS), Wrapped(0), 5) != ProcessNow
  {
  }

  // ------------------------------------------------------------------ timers

  class Timer {
    var period: nat
    var autoReload: bool
    var active: bool
    var itemValue: nat     // the value of the timer's list item: its next expiry, as a tick count
    ghost var due: nat     // the true time of that expiry
    ghost var start: nat   // the true time from which the callbacks are counted
    ghost var calls: nat   // callbacks made since `start`
    ghost var covered: nat // the end of the last period that had its callback

    /** prvInitialiseNewTimer; a period of 0 is refused there by an assertion. */
    constructor (period: nat, autoReload: bool)
      requires 1 <= period < TICKS
      ensures this.period == period && this.autoReload == autoReload && !active
    {
      this.period, this.autoReload, active, itemValue := period, autoReload, false, 0;
      due, start, calls, covered := 0, 0, 0, 0;
    }

    /** In a list of epoch `e`. */
    ghost predicate OnTime(e: nat)
      reads `itemValue, `due
    {
      itemValue == Wrapped(due) && Epoch(due) == e
    }

    ghost predicate Tally()
      reads `start, `period, `calls, `covered
    {
      covered == start + Elapsed(period, calls)
    }

    /** One callback for each period since `start` that is over, and none early. */
    ghost predicate Counted(now: nat)
      reads `start, `period, `calls, `covered, `due
    {
      Tally() && covered <= now && due == covered + period
    }

    /** What is asked of the timer, as it stands. */
    ghost function FirstOrder(): Order
      reads `active, `start, `period, `calls
    {
      if active then Running(start, period, calls) else NeverStarted(period, calls)
    }

    /** The timer is where the order has led it by `now`. */
    ghost predicate Follows(o: Order, now: nat)
      reads `active, `autoReload, `start, `period, `calls, `covered
    {
      Obeyed(o, autoReload, period, start, Tallied(), now)
    }

    /** And it has had just the callbacks that are due. */
    ghost predicate Exact(o: Order, now: nat)
      reads `active, `autoReload, `start, `period, `calls
    {
      match o
      case Running(s, p, c) =>
        && start == s && period == p >= 1
        && (autoReload ==> active && s <= now && calls == (now - s) / p)
        && (!autoReload && c == 0 ==> (active <==> now < s + p) && calls == if now < s + p then 0 else 1)
      case Stopped(_) => !active
      case NeverStarted(_, c) => !active && calls == c
    }

    lemma FollowsExactly(o: Order, now: nat)
      requires Follows(o, now) && 1 <= period
      requires active ==> now < due && start <= now && calls == (now - start) / period && Counted(now)
      ensures Exact(o, now)
    {
      if o.Running? {
        ElapsedIsQuotient(period, o.calls, 0);
        if active && calls == 0 {
          assert covered == start + Elapsed(period, 0) == start;
        }
      }
    }

    ghost function Tallied(): Count
      reads `active, `calls, `covered
    {
      Count(active, calls, covered)
    }

    /** The user's callback function; what it does is not part of the model. */
    method Callback()
      requires Tally()
      modifies this`calls, this`covered
      ensures Tally() && calls == old(calls) + 1 && covered == old(covered) + period
    {
      calls, covered := calls + 1, covered + period;
    }

    ghost method Restart(at: nat)
      modifies this`start, this`calls, this`covered
      ensures Tally() && start == covered == at && calls == 0
    {
      start, covered, calls := at, at, 0;
    }
  }

  datatype Count = Count(active: bool, calls: nat, covered: nat)

  /** What the daemon may do to a timer on its own up to `now`: a dormant timer stays as it is, an
      auto-reload timer stays active, and a one-shot timer has one callback, not before its period
      is over, exactly when it becomes dormant. */
  predicate MovedOn(autoReload: bool, period: nat, before: Count, after: Count, now: nat) {
    if !before.active then after == before
    else if autoReload then after.active && before.calls <= after.calls
    else if after.active then after == before
    else after == Count(false, before.calls + 1, before.covered + period) && after.covered <= now
  }

  lemma MovesNowhere(autoReload: bool, period: nat, count: Count, now: nat)
    ensures MovedOn(autoReload, period, count, count, now)
  {
  }

  lemma MovesOnFurther(autoReload: bool, period: nat, before: Count, between: Count, after: Count,
                       earlier: nat, now: nat)
    requires MovedOn(autoReload, period, before, between, earlier) && MovedOn(autoReload, period, between, after, now)
    requires earlier <= now
    ensures MovedOn(autoReload, period, before, after, now)
  {
  }

  /** Without repetition and in the order of the item values. */
  ghost predicate InOrder(list: seq<Timer>)
    reads list`itemValue
  {
    forall i, j :: 0 <= i < j < |list| ==> list[i] != list[j] && list[i].itemValue <= list[j].itemValue
  }

  ghost predicate Queue(list: seq<Timer>, e: nat)
    reads list`itemValue, list`due
  {
    InOrder(list) && forall i :: 0 <= i < |list| ==> list[i].OnTime(e)
  }

  function ItemValues(list: seq<Timer>): (v: seq<nat>)
    reads list`itemValue
    ensures |v| == |list| && forall i :: 0 <= i < |list| ==> v[i] == list[i].itemValue
  {
    if list == [] then [] else [list[0].itemValue] + ItemValues(list[1..])
  }

  /** vListInsert on a list of timers; see `KernelList.List.Insert`. */
  function Placed(list: seq<Timer>, t: Timer): (r: seq<Timer>)
    reads list`itemValue, t`itemValue
  {
    Inserted(list, InsertionPoint(ItemValues(list), t.itemValue), t)
  }

  lemma PlacedInOrder(list: seq<Timer>, t: Timer)
    requires InOrder(list) && t !in list
    ensures InOrder(Placed(list, t))
  {
    hide ItemValues, InsertionPoint;
    var k := InsertionPoint(ItemValues(list), t.itemValue);
    var r := Inserted(list, k, t);
    assert forall i :: 0 <= i < k ==> list[i].itemValue <= t.itemValue by {
      assert forall i :: 0 <= i < k ==> ItemValues(list)[i] <= t.itemValue;
    }
    assert forall i :: k <= i < |list| ==> t.itemValue < list[i].itemValue by {
      assert k < |list| ==> t.itemValue < ItemValues(list)[k];
    }
  }

  lemma PlacedIsQueue(list: seq<Timer>, t: Timer, e: nat)
    requires Queue(list, e) && t !in list && t.OnTime(e)
    ensures Queue(Placed(list, t), e)
    ensures forall u :: u in Placed(list, t) <==> u == t || u in list
  {
    PlacedInOrder(list, t);
    InsertedMembers(list, InsertionPoint(ItemValues(list), t.itemValue), t);
  }

  lemma DroppedIsQueue(list: seq<Timer>, k: nat, e: nat)
    requires Queue(list, e) && k < |list|
    ensures Queue(Removed(list, k), e)
    ensures forall u :: u in Removed(list, k) <==> u != list[k] && u in list
  {
    RemovedMembers(list, k);
  }

  class Daemon {
    var current: seq<Timer>
    var overflow: seq<Timer>
    var lastTime: nat          // the static xLastTime of prvSampleTimeNow
    ghost var now: nat         // the true time up to which the lists have been worked off
    ghost var timers: set<Timer>

    ghost predicate Lists()
      reads `current, `overflow, `now
      reads current`itemValue, current`due, overflow`itemValue, overflow`due
    {
      Queue(current, Epoch(now)) && Queue(overflow, Epoch(now) + 1)
    }

    ghost predicate Scheduled(t: Timer)
      reads `current, `overflow
    {
      t in current || t in overflow
    }

    /** Every timer is active exactly when it is in a list, and is then neither
        behind nor ahead with its callbacks.  The timers in `out` are in no list
        and may be out of step, while a command or an expiry is handled. */
    ghost predicate Kept(out: set<Timer>)
      reads this, timers
    {
      && (forall t :: t in current ==> t in timers - out) && (forall t :: t in overflow ==> t in timers - out)
      && (forall t :: t in timers ==> 1 <= t.period < TICKS)
      && (forall t :: t in timers - out ==> (t.active <==> Scheduled(t)) && (t.active ==> t.Counted(now)))
    }

    ghost predicate Valid(out: set<Timer>)
      reads this, timers, current, overflow
    {
      Lists() && Kept(out)
    }

    /** The timers in the current list that are due by `time`. */
    ghost function ExpiredBy(time: nat): set<Timer>
      reads `current, current`due
    {
      set t | t in current && t.due <= time
    }

    method SetItemValue(t: Timer, value: nat, ghost due: nat)
      requires Lists() && !Scheduled(t)
      modifies t`itemValue, t`due
      ensures Lists() && t.itemValue == value && t.due == due
    {
      t.itemValue := value;
      t.due := due;
    }

    method InsertIntoCurrent(t: Timer)
      requires Lists() && !Scheduled(t) && t.OnTime(Epoch(now))
      modifies this`current
      ensures Lists() && current == Placed(old(current), t)
    {
      hide Queue, Placed;
      PlacedIsQueue(current, t, Epoch(now));
      current := Placed(current, t);
    }

    method InsertIntoOverflow(t: Timer)
      requires Lists() && !Scheduled(t) && t.OnTime(Epoch(now) + 1)
      modifies this`overflow
      ensures Lists() && overflow == Placed(old(overflow), t)
    {
      hide Queue, Placed;
      PlacedIsQueue(overflow, t, Epoch(now) + 1);
      overflow := Placed(overflow, t);
    }

    /** prvInsertTimerInActiveList */
    method InsertTimerInActiveList(t: Timer, nextExpiryTime: nat, timeNow: nat, commandTime: nat,
                                   ghost command: nat, ghost due: nat)
      returns (processNow: bool)
      requires Lists() && !Scheduled(t) && 1 <= t.period < TICKS
      requires timeNow == Wrapped(now) && commandTime == Wrapped(command) && nextExpiryTime == Wrapped(due)
      requires due == command + t.period && command <= now < command + TICKS
      modifies this`current, this`overflow, t`itemValue, t`due
      ensures Lists() && t.due == due && t.itemValue == nextExpiryTime
      ensures processNow <==> due <= now
      ensures current == if now < due && Epoch(due) == Epoch(now) then Placed(old(current), t) else old(current)
      ensures overflow == if now < due && Epoch(due) != Epoch(now) then Placed(old(overflow), t) else old(overflow)
    {
      PlacementIsExact(now, command, t.period);
      SetItemValue(t, nextExpiryTime, due);
      processNow := false;
      if nextExpiryTime <= timeNow {
        if Wrapped(timeNow - commandTime) >= t.period {
          processNow := true;
        } else {
          InsertIntoOverflow(t);
        }
      } else {
        if timeNow < commandTime && nextExpiryTime >= commandTime {
          processNow := true;
        } else {
          InsertIntoCurrent(t);
        }
      }
    }

    /** The loop test of prvReloadTimer: an attempt one period after the expiry `reached`. */
    method InsertNextExpiry(t: Timer, expiredTime: nat, timeNow: nat, ghost reached: nat)
      returns (processNow: bool)
      requires Lists() && !Scheduled(t) && 1 <= t.period < TICKS
      requires timeNow == Wrapped(now) && expiredTime == Wrapped(reached) && reached <= now < reached + TICKS
      modifies this`current, this`overflow, t`itemValue, t`due
      ensures Lists() && t.due == reached + t.period
      ensures processNow <==> t.due <= now
      ensures current == if now < t.due && Epoch(t.due) == Epoch(now) then Placed(old(current), t) else old(current)
      ensures overflow == if now < t.due && Epoch(t.due) != Epoch(now) then Placed(old(overflow), t) else old(overflow)
    {
      hide Wrapped, Epoch, Queue, Placed;
      WrappedSum(reached, t.period);
      processNow :=
        InsertTimerInActiveList(t, Wrapped(expiredTime + t.period), timeNow, expiredTime, reached, reached + t.period);
    }

    /** prvReloadTimer: clears the backlog of an expired timer, with one callback
        for each period that is already over, and puts the timer back in a list. */
    method ReloadTimer(t: Timer, expiredTime: nat, timeNow: nat)
      requires Lists() && !Scheduled(t) && 1 <= t.period < TICKS && t.Tally()
      requires timeNow == Wrapped(now) && expiredTime == Wrapped(t.covered + t.period)
      requires t.covered + t.period <= now < t.covered + t.period + TICKS
      modifies this`current, this`overflow, t`itemValue, t`due, t`calls, t`covered
      ensures Lists() && t.Tally()
      ensures t.covered + t.period <= now < t.due == t.covered + t.period + t.period && old(t.calls) <= t.calls
      ensures current == if Epoch(t.due) == Epoch(now) then Placed(old(current), t) else old(current)
      ensures overflow == if Epoch(t.due) != Epoch(now) then Placed(old(overflow), t) else old(overflow)
    {
      hide Wrapped, Epoch, Queue, Placed, Elapsed;
      var expiry := expiredTime;
      ghost var reached := t.covered + t.period;
      var processNow := InsertNextExpiry(t, expiry, timeNow, reached);
      while processNow
        invariant Lists() && t.Tally() && expiry == Wrapped(reached)
        invariant t.covered + t.period == reached <= now < reached + TICKS && old(t.calls) <= t.calls
        invariant t.due == reached + t.period && (processNow <==> t.due <= now)
        invariant current == if now < t.due && Epoch(t.due) == Epoch(now) then Placed(old(current), t) else old(current)
        invariant overflow == if now < t.due && Epoch(t.due) != Epoch(now) then Placed(old(overflow), t)
          else old(overflow)
        decreases now - reached, processNow
      {
        WrappedSum(reached, t.period);
        expiry := Wrapped(expiry + t.period);
        reached := reached + t.period;
        t.Callback();
        processNow := InsertNextExpiry(t, expiry, timeNow, reached);
      }
    }

    lemma PlacedMembers(list: seq<Timer>, t: Timer)
      ensures forall u :: u in Placed(list, t) <==> u == t || u in list
    {
      InsertedMembers(list, InsertionPoint(ItemValues(list), t.itemValue), t);
    }

    /** Removing the head of the current list leaves it the only further timer out of step. */
    method RemoveHead(ghost out: set<Timer>) returns (t: Timer)
      requires Valid(out) && current != []
      modifies this`current
      ensures Lists() && Kept(out + {t}) && t in timers - out
      ensures t == old(current[0]) && current == Removed(old(current), 0)
      ensures forall u :: u in current <==> u != t && u in old(current)
      ensures t.active && t.Counted(now) && t.OnTime(Epoch(now))
    {
      hide Queue, Epoch, Wrapped, Elapsed;
      t := current[0];
      HeadIsOnTime();
      DroppedIsQueue(current, 0, Epoch(now));
      current := Removed(current, 0);
    }

    /** prvReloadTimer and the callback behind it, for a timer out of its list. */
    method ReloadAndCall(t: Timer, expiredTime: nat, timeNow: nat, ghost out: set<Timer>)
      requires Lists() && Kept(out + {t}) && t in timers - out && t.active && t.Tally()
      requires timeNow == Wrapped(now) && expiredTime == Wrapped(t.covered + t.period)
      requires t.covered + t.period <= now < t.covered + t.period + TICKS
      modifies this`current, this`overflow, t`itemValue, t`due, t`calls, t`covered
      ensures Valid(out) && t.active && now < t.due && old(t.calls) < t.calls
      ensures timeNow == MAX_TIME_BEFORE_OVERFLOW ==> current == old(current)
      ensures forall u :: u != t ==> (u in current <==> u in old(current))
    {
      hide Queue, Placed, Elapsed;
      ReloadTimer(t, expiredTime, timeNow);
      PlacedMembers(old(current), t);
      PlacedMembers(old(overflow), t);
      t.Callback();
    }

    /** A timer that is in no list becomes dormant. */
    method Retire(t: Timer, ghost out: set<Timer>)
      requires Lists() && Kept(out + {t}) && t in timers - out
      modifies t`active
      ensures Valid(out) && t.Tallied() == Count(false, old(t.calls), old(t.covered))
    {
      hide Lists, Elapsed;
      t.active := false;
    }

    /** The end of a one-shot timer. */
    method RetireAndCall(t: Timer, ghost out: set<Timer>)
      requires Lists() && Kept(out + {t}) && t in timers - out && t.Tally()
      modifies t`active, t`calls, t`covered
      ensures Valid(out) && t.Tallied() == Count(false, old(t.calls) + 1, old(t.covered) + t.period)
    {
      hide Lists, Elapsed;
      Retire(t, out);
      t.Callback();
    }

    /** prvProcessExpiredTimer */
    method ProcessExpiredTimer(nextExpireTime: nat, timeNow: nat, ghost head: Timer, ghost out: set<Timer>)
      requires Valid(out) && current != [] && head == current[0] && timeNow == Wrapped(now)
      requires nextExpireTime == current[0].itemValue <= timeNow
      modifies this`current, this`overflow
      modifies head`itemValue, head`due, head`calls, head`covered, head`active
      ensures Valid(out)
      ensures timeNow == MAX_TIME_BEFORE_OVERFLOW ==> |current| == old(|current|) - 1
      ensures head.active == head.autoReload
      ensures if head.active then now < head.due else head.calls == old(head.calls) + 1
      ensures old(head.calls) < head.calls
      ensures ExpiredBy(now) == old(ExpiredBy(now)) - {head}
      ensures MovedOn(head.autoReload, head.period, old(head.Tallied()), head.Tallied(), now)
    {
      hide Queue, Placed;
      var t := RemoveHead(out);
      if t.autoReload {
        ReloadAndCall(t, nextExpireTime, timeNow, out);
      } else {
        RetireAndCall(t, out);
      }
    }

    // -------------------------------------------------------- the tick count

    ghost predicate Ready(out: set<Timer>)
      reads this, timers, current, overflow
    {
      Valid(out) && lastTime == Wrapped(now)
    }

    ghost predicate Idle()
      reads this
    {
      current == [] && overflow == []
    }

    lemma HeadIsOnTime()
      requires Lists() && current != []
      ensures current[0].OnTime(Epoch(now)) && current[0].itemValue <= MAX_TIME_BEFORE_OVERFLOW
      ensures current[0] !in overflow
    {
      EpochEndIsNotBeforeCurrent();
    }

    /** What is in the current list is due in this epoch, the rest is due later. */
    lemma EpochEndIsNotBeforeCurrent()
      requires Lists()
      ensures forall i :: 0 <= i < |current| ==> current[i].due <= EpochEnd(now)
      ensures forall i :: 0 <= i < |overflow| ==> EpochEnd(now) < overflow[i].due
    {
    }

    lemma LaterIsStillCounted(t: Timer, earlier: nat, later: nat)
      requires t.Counted(earlier) && earlier <= later
      ensures t.Counted(later)
    {
    }

    /** The daemon's view of time moves on inside the epoch. */
    ghost method AdvanceTo(later: nat, out: set<Timer>)
      requires Valid(out) && now <= later && (Idle() || Epoch(later) == Epoch(now))
      modifies this`now
      ensures Valid(out) && now == later
    {
      hide Epoch, Elapsed;
      now := later;
    }

    /** The swap of prvSwitchTimerLists: the overflow list is due in the epoch that begins. */
    method SwapLists(ghost later: nat, ghost out: set<Timer>)
      requires Valid(out) && current == [] && now < later && (overflow == [] || Epoch(later) == Epoch(now) + 1)
      modifies this`current, this`overflow, this`now
      ensures Valid(out) && now == later && overflow == []
    {
      hide Epoch, Elapsed;
      forall t | t in timers && t.active && t !in out ensures t.Counted(later) {
        LaterIsStillCounted(t, now, later);
      }
      current, overflow := overflow, current;
      now := later;
    }

    /** The loop of prvSwitchTimerLists: what is left in the current list is due before the
        wrap; it is worked off, with the last instant of the epoch as the time. */
    method WorkOff(ghost out: set<Timer>)
      requires Valid(out) && now == EpochEnd(now)
      modifies this`current, this`overflow
      modifies timers`itemValue, timers`due, timers`calls, timers`covered, timers`active
      ensures Valid(out) && current == [] && (old(Idle()) ==> Idle())
      ensures forall u :: u in timers ==> MovedOn(u.autoReload, u.period, old(u.Tallied()), u.Tallied(), now)
      ensures forall u :: u in out ==> u.Tallied() == old(u.Tallied())
    {
      hide Queue, Epoch, Elapsed, EpochEnd, MovedOn;
      forall u | u in timers
        ensures MovedOn(u.autoReload, u.period, u.Tallied(), u.Tallied(), now)
      {
        MovesNowhere(u.autoReload, u.period, u.Tallied(), now);
      }
      while current != []
        invariant Valid(out) && now == EpochEnd(now) && (old(Idle()) ==> Idle())
        invariant forall u :: u in timers ==> MovedOn(u.autoReload, u.period, old(u.Tallied()), u.Tallied(), now)
        invariant forall u :: u in out ==> u.Tallied() == old(u.Tallied())
        decreases |current|
      {
        var head := current[0];
        HeadIsOnTime();
        assert head in current;
        ghost var between := head.Tallied();
        EpochEndIsLastTick(now);
        ProcessExpiredTimer(head.itemValue, MAX_TIME_BEFORE_OVERFLOW, head, out);
        MovesOnFurther(head.autoReload, head.period, old(head.Tallied()), between, head.Tallied(), now, now);
      }
    }

    /** prvSwitchTimerLists.  Whoever is active afterwards is in the current list. */
    method SwitchTimerLists(ghost later: nat, ghost out: set<Timer>)
      requires Valid(out) && (Idle() || Epoch(later) == Epoch(now) + 1) && EpochEnd(now) < later
      modifies this`current, this`overflow, this`now
      modifies timers`itemValue, timers`due, timers`calls, timers`covered, timers`active
      ensures Valid(out) && now == later && overflow == []
      ensures forall u :: u in timers - out && u.active ==> u in current
      ensures forall u :: u in timers ==> MovedOn(u.autoReload, u.period, old(u.Tallied()), u.Tallied(), now)
      ensures forall u :: u in out ==> u.Tallied() == old(u.Tallied())
    {
      hide Queue, Elapsed;
      AdvanceTo(EpochEnd(now), out);
      WorkOff(out);
      SwapLists(later, out);
    }

    lemma EpochEndIsLastTick(t: nat)
      requires t == EpochEnd(t)
      ensures Wrapped(t) == MAX_TIME_BEFORE_OVERFLOW
    {
    }

    /** One comparison detects the wrap, as long as samples are less than a wrap apart. */
    lemma WrapIsDetected(later: nat)
      requires now <= later
      ensures Wrapped(later) < Wrapped(now) ==> EpochEnd(now) < later
      ensures later < now + TICKS ==>
                Epoch(later) == if Wrapped(later) < Wrapped(now) then Epoch(now) + 1 else Epoch(now)
    {
    }

    /** prvSampleTimeNow; `later` is the true time at which the tick count is read. */
    method SampleTimeNow(tickCount: nat, ghost later: nat, ghost out: set<Timer>)
      returns (timeNow: nat, switched: bool)
      requires Ready(out) && tickCount == Wrapped(later) && now <= later && (Idle() || later < now + TICKS)
      modifies this`current, this`overflow, this`now, this`lastTime
      modifies timers`itemValue, timers`due, timers`calls, timers`covered, timers`active
      ensures Ready(out) && now == later && timeNow == tickCount && (switched <==> tickCount < old(lastTime))
      ensures !switched ==> current == old(current) && overflow == old(overflow) && unchanged(timers)
      ensures switched ==> overflow == []
      ensures forall u :: u in timers ==> MovedOn(u.autoReload, u.period, old(u.Tallied()), u.Tallied(), now)
      ensures forall u :: u in out ==> u.Tallied() == old(u.Tallied())
    {
      hide Epoch, Wrapped, Queue;
      timeNow := tickCount;
      WrapIsDetected(later);
      if timeNow < lastTime {
        SwitchTimerLists(later, out);
        switched := true;
      } else {
        AdvanceTo(later, out);
        switched := false;
        forall u | u in timers
          ensures MovedOn(u.autoReload, u.period, u.Tallied(), u.Tallied(), now)
        {
          MovesNowhere(u.autoReload, u.period, u.Tallied(), now);
        }
      }
      lastTime := timeNow;
    }

    // ---------------------------------------------------------- the main loop

    /** prvGetNextExpireTime */
    method GetNextExpireTime() returns (nextExpireTime: nat, listWasEmpty: bool)
      ensures listWasEmpty == (current == [])
      ensures nextExpireTime == if current == [] then 0 else current[0].itemValue
    {
      listWasEmpty := |current| == 0;
      nextExpireTime := if !listWasEmpty then current[0].itemValue else 0;
    }

    /** Every active timer has had exactly the callbacks of the periods that are over. */
    ghost predicate UpToDate()
      reads this, timers
    {
      forall t :: t in timers && t.active ==>
        now < t.due && t.start <= now && 1 <= t.period && t.calls == (now - t.start) / t.period
    }

    lemma CountedIsExact(t: Timer)
      requires t.Counted(now) && now < t.due && 1 <= t.period
      ensures t.start <= now && t.calls == (now - t.start) / t.period
    {
      ElapsedIsQuotient(t.period, t.calls, now - t.start);
    }

    /** Over any number of wraps: once nothing expired is left in the current list, no
        timer is behind or ahead.  `Valid` is what every operation keeps. */
    lemma NothingExpiredLeftMeansUpToDate()
      requires Valid({}) && ExpiredBy(now) == {}
      ensures UpToDate()
    {
      assert current == [] || current[0] !in ExpiredBy(now);
      forall t | t in timers && t.active
        ensures now < t.due && t.start <= now && t.calls == (now - t.start) / t.period
      {
        HeadIsFirst(t);
        CountedIsExact(t);
      }
    }

    /** No active timer is due before the head of the current list, nor, with that
        list empty, before the next wrap of the tick count. */
    lemma HeadIsFirst(t: Timer)
      requires Valid({}) && t in timers && t.active
      ensures if current == [] then EpochEnd(now) < t.due else current[0].due <= t.due
    {
      EpochEndIsNotBeforeCurrent();
      if t in current {
        var i :| 0 <= i < |current| && current[i] == t;
        assert current[0].OnTime(Epoch(now)) && t.OnTime(Epoch(now));
        assert i > 0 ==> current[0].itemValue <= current[i].itemValue;
      }
    }

    /** Of the current list the head expires first, and without a wrap its value tells whether it has. */
    lemma HeadExpiresFirst(later: nat)
      requires Ready({}) && now <= later && (Idle() || later < now + TICKS)
      ensures Wrapped(later) >= lastTime ==>
                (ExpiredBy(later) != {} <==> current != [] && current[0].itemValue <= Wrapped(later))
      ensures Wrapped(later) >= lastTime && ExpiredBy(later) != {} ==> current[0] in ExpiredBy(later)
    {
      hide Wrapped, Epoch, Kept;
      if current != [] && Wrapped(later) >= lastTime {
        WrapIsDetected(later);
        DueInEpoch(current[0], later);
        assert current[0] in current;
        forall t | t in current && t.due <= later
          ensures current[0].due <= later
        {
          DueInEpoch(t, later);
          var i :| 0 <= i < |current| && current[i] == t;
          assert i > 0 ==> current[0].itemValue <= current[i].itemValue;
        }
        assert ExpiredBy(later) != {} ==> exists t :: t in ExpiredBy(later);
        assert current[0].due <= later ==> current[0] in ExpiredBy(later);
      }
    }

    lemma DueInEpoch(t: Timer, later: nat)
      requires t.OnTime(Epoch(later))
      ensures t.due <= later <==> t.itemValue <= Wrapped(later)
    {
    }

    /** prvProcessTimerOrBlockTask.  Blocking is always safe: every active timer is up
        to date, none is due before the block time ends, and the daemon blocks without
        a limit only when no timer is active.  Without a wrap, a timer that is due is never
        passed over: the one at the head is called and in step again, or dormant.  Whatever
        happens, no auto-reload timer is dropped and no dormant one called. */
    method ProcessTimerOrBlockTask(nextExpireTime: nat, listWasEmpty: bool, tickCount: nat, ghost later: nat)
      returns (outcome: Outcome)
      requires Ready({}) && tickCount == Wrapped(later) && now <= later && (Idle() || later < now + TICKS)
      requires listWasEmpty == (current == [])
      requires nextExpireTime == if current == [] then 0 else current[0].itemValue
      modifies this`current, this`overflow, this`now, this`lastTime
      modifies timers`itemValue, timers`due, timers`calls, timers`covered, timers`active
      ensures Ready({}) && now == later
      ensures forall u :: u in timers ==> MovedOn(u.autoReload, u.period, old(u.Tallied()), u.Tallied(), now)
      ensures outcome.Switched? <==> tickCount < old(lastTime)
      ensures outcome.Processed? <==> tickCount >= old(lastTime) && old(ExpiredBy(later)) != {}
      ensures outcome.Processed? ==>
                && old(current) != [] && var head := old(current[0]);
                && head in old(ExpiredBy(later)) && ExpiredBy(now) == old(ExpiredBy(later)) - {head}
                && old(head.calls) < head.calls && head.active == head.autoReload
                && (head.active ==> now < head.due)
                && forall u :: u in timers && u != head ==> u.Tallied() == old(u.Tallied())
      ensures outcome.Blocked? ==> forall u :: u in timers ==> u.Tallied() == old(u.Tallied())
      ensures outcome.Blocked? ==> UpToDate() && ExpiredBy(now) == {} && (outcome.indefinitely <==> Idle())
      ensures outcome.Blocked? ==> forall t :: t in timers && t.active ==> now + outcome.ticks <= t.due
      ensures outcome.Blocked? && current != [] ==> now + outcome.ticks == current[0].due
      ensures outcome.Blocked? && current == [] && Wrapped(now) != 0 ==> now + outcome.ticks == EpochEnd(now) + 1
    {
      hide Queue, Wrapped, Epoch, Elapsed, EpochEnd, MovedOn;
      HeadExpiresFirst(later);
      var timeNow, switched := SampleTimeNow(tickCount, later, {});
      if switched {
        outcome := Switched;
      } else if !listWasEmpty && nextExpireTime <= timeNow {
        var head := current[0];
        assert head in current;
        ProcessExpiredTimer(nextExpireTime, timeNow, head, {});
        outcome := Processed;
      } else {
        outcome := BlockTime(nextExpireTime, timeNow);
      }
    }

    /** The loop of the daemon at one time, with no message in the queue, until it blocks: every
        timer is up to date, and without a wrap it has taken one pass for each that was due. */
    method CatchUp(tickCount: nat, ghost later: nat) returns (passes: nat)
      requires Ready({}) && tickCount == Wrapped(later) && now <= later && (Idle() || later < now + TICKS)
      modifies this`current, this`overflow, this`now, this`lastTime
      modifies timers`itemValue, timers`due, timers`calls, timers`covered, timers`active
      ensures Ready({}) && now == later && UpToDate() && ExpiredBy(now) == {}
      ensures tickCount >= old(lastTime) ==> passes == |old(ExpiredBy(later))| + 1
      ensures forall u :: u in timers ==> MovedOn(u.autoReload, u.period, old(u.Tallied()), u.Tallied(), now)
    {
      hide Queue, Wrapped, Epoch, Elapsed, EpochEnd, MovedOn, Kept;
      passes := 0;
      var outcome := Switched;
      ghost var was := TalliedAll();
      forall u | u in timers
        ensures MovedOn(u.autoReload, u.period, u.Tallied(), u.Tallied(), now)
      {
        MovesNowhere(u.autoReload, u.period, u.Tallied(), now);
      }
      while !outcome.Blocked?
        invariant Ready({}) && now <= later && (Idle() || later < now + TICKS) && (passes > 0 ==> now == later)
        invariant outcome.Blocked? ==> passes > 0 && UpToDate() && ExpiredBy(now) == {}
        invariant tickCount >= old(lastTime) ==>
                    && tickCount >= lastTime
                    && passes + |ExpiredBy(later)| == |old(ExpiredBy(later))| + if outcome.Blocked? then 1 else 0
        invariant AllMovedOn(was)
        decreases tickCount < lastTime, |ExpiredBy(later)|, !outcome.Blocked?
      {
        ghost var between, time := TalliedAll(), now;
        var nextExpireTime, listWasEmpty := GetNextExpireTime();
        outcome := ProcessTimerOrBlockTask(nextExpireTime, listWasEmpty, tickCount, later);
        passes := passes + 1;
        AllMoveOn(was, between, time);
      }
    }

    ghost function TalliedAll(): map<Timer, Count>
      reads this, timers
    {
      map u | u in timers :: u.Tallied()
    }

    ghost predicate AllMovedOn(was: map<Timer, Count>)
      reads this, timers
    {
      forall u :: u in timers ==> u in was && MovedOn(u.autoReload, u.period, was[u], u.Tallied(), now)
    }

    lemma AllMoveOn(was: map<Timer, Count>, between: map<Timer, Count>, time: nat)
      requires time <= now && AllMovedOn(between)
      requires forall u :: u in timers ==> u in was && MovedOn(u.autoReload, u.period, was[u], between[u], time)
      ensures AllMovedOn(was)
    {
      forall u | u in timers
        ensures MovedOn(u.autoReload, u.period, was[u], u.Tallied(), now)
      {
        MovesOnFurther(u.autoReload, u.period, was[u], between[u], u.Tallied(), time, now);
      }
    }

    /** The block time handed to vQueueWaitForMessageRestricted. */
    method BlockTime(nextExpireTime: nat, timeNow: nat) returns (outcome: Outcome)
      requires Ready({}) && timeNow == Wrapped(now)
      requires nextExpireTime == if current == [] then 0 else current[0].itemValue
      requires current == [] || timeNow < nextExpireTime
      ensures outcome.Blocked? && UpToDate() && (outcome.indefinitely <==> Idle())
      ensures forall t :: t in timers && t.active ==> now + outcome.ticks <= t.due
      ensures current != [] ==> now + outcome.ticks == current[0].due
      ensures current == [] && Wrapped(now) != 0 ==> now + outcome.ticks == EpochEnd(now) + 1
    {
      hide Epoch, Queue, Kept, EpochEnd;
      var nothingActive := |current| == 0;
      if nothingActive {
        nothingActive := |overflow| == 0;
      }
      outcome := Blocked(Wrapped(nextExpireTime - timeNow), nothingActive);
      BlockEnds(nextExpireTime, timeNow, outcome.ticks);
      HeadExpiresFirst(now);
      NothingExpiredLeftMeansUpToDate();
      forall t | t in timers && t.active ensures now + outcome.ticks <= t.due {
        HeadIsFirst(t);
      }
    }

    /** The wrapped difference is the time to the head's expiry, or to the wrap. */
    lemma BlockEnds(nextExpireTime: nat, timeNow: nat, ticks: nat)
      requires Lists() && timeNow == Wrapped(now) && ticks == Wrapped(nextExpireTime - timeNow)
      requires nextExpireTime == if current == [] then 0 else current[0].itemValue
      requires current == [] || timeNow < nextExpireTime
      ensures current != [] ==> now < current[0].due == now + ticks
      ensures current == [] ==> now + ticks <= EpochEnd(now) + 1
      ensures current == [] && Wrapped(now) != 0 ==> now + ticks == EpochEnd(now) + 1
    {
      hide Queue;
      if current != [] {
        HeadIsOnTime();
      }
    }

    // ---------------------------------------------------------- the commands

    /** The timer is taken out of its list, if it is in one, before any command. */
    method RemoveFromList(t: Timer)
      requires Ready({}) && t in timers
      modifies this`current, this`overflow
      ensures Ready({t})
      ensures old(Idle()) ==> Idle()
    {
      hide Lists, Kept;
      if t in current {
        RemoveFromCurrent(t);
      } else if t in overflow {
        RemoveFromOverflow(t);
      } else {
        OutOfStep(t);
      }
    }

    /** A timer in no list may be out of step. */
    lemma OutOfStep(t: Timer)
      requires Kept({}) && !Scheduled(t)
      ensures Kept({t})
    {
      hide Timer.Counted;
    }

    method RemoveFromCurrent(t: Timer)
      requires Ready({}) && t in timers && t in current
      modifies this`current
      ensures Ready({t})
    {
      hide Epoch, Wrapped, Elapsed, Queue, Removed, Timer.Counted;
      ghost var was := current;
      var k :| 0 <= k < |current| && current[k] == t;
      CurrentIsNotOverflow(k);
      DroppedIsQueue(current, k, Epoch(now));
      current := Removed(current, k);
      OutOfList(was, overflow, t);
    }

    method RemoveFromOverflow(t: Timer)
      requires Ready({}) && t in timers && t !in current && t in overflow
      modifies this`overflow
      ensures Ready({t})
    {
      hide Epoch, Wrapped, Elapsed, Queue, Removed, Timer.Counted;
      ghost var was := overflow;
      var k :| 0 <= k < |overflow| && overflow[k] == t;
      DroppedIsQueue(overflow, k, Epoch(now) + 1);
      overflow := Removed(overflow, k);
      OutOfList(current, was, t);
    }

    /** A timer that was just taken out of its list may be out of step. */
    lemma OutOfList(wasCurrent: seq<Timer>, wasOverflow: seq<Timer>, t: Timer)
      requires forall u :: u in wasCurrent || u in wasOverflow ==> u in timers
      requires forall u :: u in timers ==> 1 <= u.period < TICKS
      requires forall u :: u in timers ==>
        (u.active <==> u in wasCurrent || u in wasOverflow) && (u.active ==> u.Counted(now))
      requires forall u :: u in current || u in overflow <==> u != t && (u in wasCurrent || u in wasOverflow)
      ensures Kept({t})
    {
      hide Timer.Counted;
    }

    lemma CurrentIsNotOverflow(k: nat)
      requires Lists() && k < |current|
      ensures current[k] !in overflow
    {
      EpochEndIsNotBeforeCurrent();
    }

    /** A timer that is in no list is freed. */
    ghost method Forget(t: Timer)
      requires Valid({t}) && t in timers
      modifies this`timers
      ensures Valid({}) && timers == old(timers) - {t}
    {
      hide Lists, Elapsed;
      timers := timers - {t};
    }

    /** A timer that was just put in a list is in step again. */
    lemma BackInStep(wasCurrent: seq<Timer>, wasOverflow: seq<Timer>, t: Timer)
      requires Lists() && t in timers && t.active && t.Counted(now) && 1 <= t.period < TICKS
      requires forall u :: u in timers ==> 1 <= u.period < TICKS
      requires forall u :: u in wasCurrent || u in wasOverflow ==> u in timers && u != t
      requires forall u :: u in timers && u != t ==>
                 (u.active <==> u in wasCurrent || u in wasOverflow) && (u.active ==> u.Counted(now))
      requires (current == Placed(wasCurrent, t) && overflow == wasOverflow)
               || (current == wasCurrent && overflow == Placed(wasOverflow, t))
      ensures Valid({})
    {
      hide Queue, Placed, Epoch, Wrapped, Elapsed;
      PlacedMembers(wasCurrent, t);
      PlacedMembers(wasOverflow, t);
    }

    /** A timer that expired before its start command was handled. */
    method ProcessAtOnce(t: Timer, expiredTime: nat, timeNow: nat)
      requires Lists() && Kept({t}) && t in timers && t.active && t.Tally() && timeNow == Wrapped(now)
      requires expiredTime == Wrapped(t.covered + t.period)
      requires t.covered + t.period <= now < t.covered + t.period + TICKS
      modifies this`current, this`overflow, t`itemValue, t`due, t`calls, t`covered, t`active
      ensures Valid({}) && t.active == t.autoReload
      ensures if t.active then now < t.due else t.calls == old(t.calls) + 1
      ensures MovedOn(t.autoReload, t.period, old(t.Tallied()), t.Tallied(), now)
    {
      hide Lists, Elapsed, Wrapped;
      if t.autoReload {
        ReloadAndCall(t, expiredTime, timeNow, {});
      } else {
        RetireAndCall(t, {});
      }
    }

    /** tmrCOMMAND_START and tmrCOMMAND_RESET, from tasks and from interrupts:
        the period is counted from the time `command` at which the command was sent. */
    method StartCommand(t: Timer, value: nat, timeNow: nat, ghost command: nat)
      requires Ready({t}) && t in timers && timeNow == Wrapped(now)
      requires value == Wrapped(command) && command <= now < command + TICKS
      modifies this`current, this`overflow
      modifies t`itemValue, t`due, t`calls, t`covered, t`active, t`start
      ensures Ready({}) && t.start == command
      ensures t.active <==> t.autoReload || now < command + t.period
      ensures t.active ==> now < t.due
      ensures !t.active ==> t.calls == 1
      ensures MovedOn(t.autoReload, t.period, Count(true, 0, command), t.Tallied(), now)
    {
      hide Queue, Placed, Elapsed, Epoch, Wrapped;
      t.active := true;
      t.Restart(command);
      WrappedSum(command, t.period);
      var processNow :=
        InsertTimerInActiveList(t, Wrapped(value + t.period), timeNow, value, command, command + t.period);
      if processNow {
        ProcessAtOnce(t, Wrapped(value + t.period), timeNow);
      } else {
        BackInStep(old(current), old(overflow), t);
      }
    }

    /** tmrCOMMAND_CHANGE_PERIOD: the new period starts at the time the command is handled,
        so that the ignored result of the insertion is always false. */
    method ChangePeriodCommand(t: Timer, value: nat, timeNow: nat)
      requires Ready({t}) && t in timers && timeNow == Wrapped(now) && 1 <= value < TICKS
      modifies this`current, this`overflow
      modifies t`itemValue, t`due, t`calls, t`covered, t`active, t`start, t`period
      ensures Ready({}) && t.active && t.start == now && t.period == value && t.due == now + value
      ensures t.Tallied() == Count(true, 0, now)
    {
      hide Queue, Placed, Elapsed, Epoch, Wrapped;
      t.active := true;
      t.period := value;
      t.Restart(now);
      WrappedSum(now, value);
      var processNow := InsertTimerInActiveList(t, Wrapped(timeNow + t.period), timeNow, timeNow, now, now + t.period);
      assert !processNow;
      BackInStep(old(current), old(overflow), t);
    }

    /** One message of prvProcessReceivedCommands.  `command` is the true time at which
        the message was sent, `later` the one at which it is handled. */
    method ProcessReceivedCommand(kind: Command, t: Timer, value: nat, tickCount: nat, ghost command: nat,
                                  ghost later: nat)
      requires Ready({}) && t in timers
      requires tickCount == Wrapped(later) && now <= later && (Idle() || later < now + TICKS)
      requires kind == StartOrReset ==> value == Wrapped(command) && command <= later < command + TICKS
      requires kind == ChangePeriod ==> 1 <= value < TICKS
      modifies this`current, this`overflow, this`now, this`lastTime, this`timers
      modifies timers`itemValue, timers`due, timers`calls, timers`covered, timers`active
      modifies t`start, t`period
      ensures Ready({}) && now == later
      ensures timers == if kind == Delete(false) then old(timers) - {t} else old(timers)
      ensures kind == StartOrReset ==>
                && t.start == command && (t.active <==> t.autoReload || later < command + t.period)
                && (t.active ==> later < t.due) && (!t.active ==> t.calls == 1)
      ensures kind == ChangePeriod ==> t.active && t.start == later && t.period == value && t.due == later + value
      ensures kind == StartOrReset ==> MovedOn(t.autoReload, t.period, Count(true, 0, command), t.Tallied(), now)
      ensures kind == ChangePeriod ==> t.Tallied() == Count(true, 0, later)
      ensures kind == Stop || kind == Delete(true) ==> t.Tallied() == Count(false, old(t.calls), old(t.covered))
      ensures kind != ChangePeriod ==> t.period == old(t.period)
      ensures kind != ChangePeriod && kind != StartOrReset ==> t.start == old(t.start)
      ensures forall u :: u in timers && u != t ==>
                MovedOn(u.autoReload, u.period, old(u.Tallied()), u.Tallied(), now)
    {
      hide Queue, Placed, Elapsed, Epoch, Wrapped, MovedOn;
      RemoveFromList(t);
      var timeNow, switched := SampleTimeNow(tickCount, later, {t});
      match kind {
        case StartOrReset =>
          StartCommand(t, value, timeNow, command);
        case Stop =>
          Retire(t, {});
        case ChangePeriod =>
          ChangePeriodCommand(t, value, timeNow);
        case Delete(isStatic) =>
          if isStatic {
            Retire(t, {});
          } else {
            Forget(t);
          }
      }
    }

    /** xTimerCreate */
    method Create(period: nat, autoReload: bool) returns (t: Timer)
      requires Ready({}) && 1 <= period < TICKS
      modifies this`timers
      ensures Ready({}) && fresh(t) && timers == old(timers) + {t}
      ensures t.period == period && t.autoReload == autoReload && !t.active
    {
      hide Queue, Elapsed, Epoch, Wrapped;
      t := new Timer(period, autoReload);
      assert t !in current && t !in overflow;
      timers := timers + {t};
    }

    /** prvCheckForValidListAndQueue, when the first timer is created; the static
        xLastTime is 0 until the first sample. */
    constructor ()
      ensures Ready({}) && timers == {} && now == 0 && Idle()
    {
      current, overflow, lastTime, now, timers := [], [], 0, 0, {};
    }

    /** vTimerSetReloadMode: takes effect with the next expiry. */
    method SetReloadMode(t: Timer, autoReload: bool)
      requires Ready({}) && t in timers
      modifies t`autoReload
      ensures Ready({}) && t.autoReload == autoReload
    {
      hide Lists, Elapsed;
      t.autoReload := autoReload;
    }

    ghost function FirstOrders(): map<Timer, Order>
      reads this, timers
    {
      map u | u in timers :: u.FirstOrder()
    }

    /** Every timer follows the last command on it. */
    ghost predicate AllFollow(script: seq<Step>, n: nat, first: map<Timer, Order>)
      requires n <= |script|
      reads `timers, `now, timers
    {
      forall u :: u in timers ==> u in first && u.Follows(Asked(script, n, u, first[u]), now)
    }

    /** And has had just the callbacks that are due. */
    ghost predicate AllExact(script: seq<Step>, n: nat, first: map<Timer, Order>)
      requires n <= |script|
      reads `timers, `now, timers
    {
      forall u :: u in timers ==> u in first && u.Exact(Asked(script, n, u, first[u]), now)
    }

    /** An auto-reload timer that a command has started, and that was left alone since, has had one
        callback for each period since the time of the command. */
    ghost predicate StartedAreExact(script: seq<Step>, n: nat)
      requires n <= |script|
      reads `timers, `now, timers
    {
      forall u, k :: u in timers && u.autoReload && LeftAlone(script, k, n, u) ==>
        && u.active && u.start == script[k].command <= now
        && 1 <= u.period && u.calls == (now - script[k].command) / u.period
    }

    /** Any run of the daemon: passes of its loop and commands, at any sampled times; it is
        followed up to the first sample, if any, that comes a whole wrap late while a timer is
        active.  No timer is lost but the freed ones, and every timer follows the last command on
        it.  Whenever nothing expired is left in the current list, the callbacks are exact; and that
        is so after as many passes at one time as there are timers. */
    method Run(script: seq<Step>, from: nat) returns (done: nat)
      requires Ready({}) && from == now && Fits(script, now, timers)
      modifies this, timers
      ensures Ready({}) && done <= |script|
      ensures done < |script| ==> !Idle() && now + TICKS <= script[done].later
      ensures now == if done == 0 then from else script[done - 1].later
      ensures timers == Left(script, done, old(timers))
      ensures forall u :: u in timers ==> u.autoReload == old(u.autoReload)
      ensures AllFollow(script, done, old(FirstOrders()))
      ensures PassesAtOnce(script, done, |timers|) ==> ExpiredBy(now) == {}
      ensures ExpiredBy(now) == {} ==>
                UpToDate() && AllExact(script, done, old(FirstOrders())) && StartedAreExact(script, done)
    {
      hide Queue, Elapsed, Epoch, Wrapped, Timer.Follows, Timer.Exact, Kept, AllFollow, AllExact, StartedAreExact,
        Asked, ExpiredBy, PassesAtOnce;
      var time := from;
      ghost var first := FirstOrders();
      done := 0;
      FirstOrdersAreFollowed(script);
      FewExpired();
      while done < |script| && (script[done].later < time + TICKS || (|current| == 0 && |overflow| == 0))
        invariant Ready({}) && timers <= old(timers) && done <= |script| && Fits(script[done..], now, timers)
        invariant time == now == if done == 0 then from else script[done - 1].later
        invariant timers == Left(script, done, old(timers))
        invariant forall u :: u in timers ==> u.autoReload == old(u.autoReload)
        invariant AllFollow(script, done, first)
        invariant CatchesUp(|ExpiredBy(now)|, Streak(script, done), |timers|)
      {
        assert script[done..][1..] == script[done + 1..];
        ghost var expired, among := |ExpiredBy(now)|, |timers|;
        DoStep(script, done, first);
        CatchesUpFurther(script, done, expired, among);
        time, done := script[done].later, done + 1;
      }
      if PassesAtOnce(script, done, |timers|) {
        StreakCovers(script, done, |timers|);
      }
      if ExpiredBy(now) == {} {
        NothingExpiredLeftMeansUpToDate();
        AllAreExact(script, done, first);
      }
    }

    lemma FewExpired()
      requires Ready({})
      ensures CatchesUp(|ExpiredBy(now)|, 0, |timers|)
    {
      assert ExpiredBy(now) <= timers;
      Fewer(ExpiredBy(now), timers);
    }

    lemma CatchesUpFurther(script: seq<Step>, n: nat, expired: nat, among: nat)
      requires Ready({}) && n < |script| && CatchesUp(expired, Streak(script, n), among)
      requires Streak(script, n + 1) > 0 ==>
                 |timers| == among && |ExpiredBy(now)| == if expired == 0 then 0 else expired - 1
      ensures CatchesUp(|ExpiredBy(now)|, Streak(script, n + 1), |timers|)
    {
      FewExpired();
    }

    lemma FirstOrdersAreFollowed(script: seq<Step>)
      requires Ready({})
      ensures AllFollow(script, 0, FirstOrders())
    {
      hide Lists, Elapsed;
    }

    lemma AllAreExact(script: seq<Step>, n: nat, first: map<Timer, Order>)
      requires Ready({}) && UpToDate() && n <= |script| && AllFollow(script, n, first)
      ensures AllExact(script, n, first) && StartedAreExact(script, n)
    {
      hide Lists, Elapsed, Timer.Follows, Timer.Exact, Asked, LeftAlone;
      forall u | u in timers
        ensures u in first && u.Exact(Asked(script, n, u, first[u]), now)
      {
        u.FollowsExactly(Asked(script, n, u, first[u]), now);
      }
      forall u, k | u in timers && u.autoReload && LeftAlone(script, k, n, u)
        ensures u.active && StartsAt(script, k) && u.start == script[k].command <= now
        ensures 1 <= u.period && u.calls == (now - u.start) / u.period
      {
        AskedOnce(script, k, n, u, first[u]);
        ExactlyFromStart(u, Asked(script, n, u, first[u]));
      }
    }

    lemma ExactlyFromStart(u: Timer, o: Order)
      requires u.Exact(o, now) && o.Running? && u.autoReload
      ensures u.active && u.start == o.start <= now && 1 <= u.period && u.calls == (now - o.start) / u.period
    {
    }

    /** One step of a run. */
    method DoStep(script: seq<Step>, n: nat, ghost first: map<Timer, Order>)
      requires n < |script| && Ready({}) && Fits(script[n..], now, timers)
      requires Idle() || script[n].later < now + TICKS
      requires AllFollow(script, n, first)
      modifies this`current, this`overflow, this`now, this`lastTime, this`timers
      modifies timers`itemValue, timers`due, timers`calls, timers`covered, timers`active, timers`start, timers`period
      ensures Ready({}) && now == script[n].later && timers == Remaining(script[n], old(timers))
      ensures AllFollow(script, n + 1, first)
      ensures script[n].Pass? && script[n].later == old(now) ==>
                && timers == old(timers)
                && |ExpiredBy(now)| == if old(ExpiredBy(now)) == {} then 0 else old(|ExpiredBy(now)|) - 1
    {
      hide Queue, Elapsed, Epoch, Wrapped, Kept, MovedOn, Obeyed, Asked, Ordered;
      var step := script[n];
      assert script[n..][0] == step;
      ghost var time := now;
      if step.Pass? {
        var nextExpireTime, listWasEmpty := GetNextExpireTime();
        var outcome := ProcessTimerOrBlockTask(nextExpireTime, listWasEmpty, Wrapped(step.later), step.later);
      } else {
        ProcessReceivedCommand(step.kind, step.timer, step.value, Wrapped(step.later), step.command, step.later);
        var t := step.timer;
        if t in timers {
          OrderedIsObeyed(step, t, Asked(script, n, t, first[t]), t.autoReload, old(t.period), old(t.start),
            old(t.Tallied()), t.period, t.start, t.Tallied(), time);
          AskedNext(script, n, t, first[t]);
        }
      }
      forall u | u in timers && !(step.Message? && u == step.timer)
        ensures u.Follows(Asked(script, n + 1, u, first[u]), now)
      {
        AskedNext(script, n, u, first[u]);
        NotOrdered(step, u, Asked(script, n, u, first[u]));
        ObeyedFurther(Asked(script, n, u, first[u]), u.autoReload, u.period, u.start, old(u.Tallied()), u.Tallied(),
          time, now);
      }
    }
  }

  /** A timer with these fields is where the order has led it by `now`. */
  ghost predicate Obeyed(o: Order, autoReload: bool, period: nat, start: nat, count: Count, now: nat) {
    && period == o.period
    && match o
       case Running(s, p, c) => start == s && MovedOn(autoReload, p, Count(true, c, s + Elapsed(p, c)), count, now)
       case Stopped(_) => !count.active
       case NeverStarted(_, c) => !count.active && count.calls == c
  }

  lemma ObeyedFurther(o: Order, autoReload: bool, period: nat, start: nat, before: Count, after: Count, earlier: nat,
                      now: nat)
    requires Obeyed(o, autoReload, period, start, before, earlier) && earlier <= now
    requires MovedOn(autoReload, period, before, after, now)
    ensures Obeyed(o, autoReload, period, start, after, now)
  {
    hide Elapsed;
  }

  /** The command on a timer is done as ordered. */
  lemma OrderedIsObeyed(step: Step, t: Timer, o: Order, autoReload: bool, wasPeriod: nat, wasStart: nat, was: Count,
                        period: nat, start: nat, count: Count, earlier: nat)
    requires step.Message? && step.timer == t && Obeyed(o, autoReload, wasPeriod, wasStart, was, earlier)
    requires step.kind == StartOrReset ==>
               && start == step.command && period == wasPeriod
               && MovedOn(autoReload, period, Count(true, 0, step.command), count, step.later)
    requires step.kind == ChangePeriod ==>
               start == step.later && period == step.value && count == Count(true, 0, step.later)
    requires step.kind == Stop || step.kind.Delete? ==> period == wasPeriod && count == was.(active := false)
    ensures Obeyed(Ordered(step, t, o), autoReload, period, start, count, step.later)
  {
    assert Elapsed(period, 0) == 0;
  }

  lemma NotOrdered(step: Step, t: Timer, o: Order)
    requires !(step.Message? && step.timer == t)
    ensures Ordered(step, t, o) == o
  {
  }

  lemma AskedNext(script: seq<Step>, n: nat, t: Timer, first: Order)
    requires n < |script|
    ensures Asked(script, n + 1, t, first) == Ordered(script[n], t, Asked(script, n, t, first))
  {
  }

  /** What was last asked of a timer: to run from `start` on, with `calls` callbacks made before,
      or to be dormant. */
  datatype Order =
    | Running(start: nat, period: nat, calls: nat)
    | Stopped(period: nat)
    | NeverStarted(period: nat, calls: nat)

  ghost function Ordered(step: Step, t: Timer, o: Order): Order {
    if !step.Message? || step.timer != t then o
    else
      match step.kind
      case StartOrReset => Running(step.command, o.period, 0)
      case ChangePeriod => Running(step.later, step.value, 0)
      case _ => if o.Running? then Stopped(o.period) else o
  }

  /** The order that stands after `n` steps. */
  ghost function Asked(script: seq<Step>, n: nat, t: Timer, first: Order): Order
    requires n <= |script|
  {
    if n == 0 then first else Ordered(script[n - 1], t, Asked(script, n - 1, t, first))
  }

  /** Step `k` starts `t`, and no message names it until step `n`. */
  ghost predicate LeftAlone(script: seq<Step>, k: int, n: int, t: Timer) {
    && 0 <= k < n <= |script|
    && script[k].Message? && script[k].kind == StartOrReset && script[k].timer == t
    && forall j :: k < j < n ==> !(script[j].Message? && script[j].timer == t)
  }

  ghost predicate StartsAt(script: seq<Step>, k: int) {
    0 <= k < |script| && script[k].Message? && script[k].kind == StartOrReset
  }

  lemma {:induction false} AskedOnce(script: seq<Step>, k: int, n: nat, t: Timer, first: Order)
    requires LeftAlone(script, k, n, t)
    ensures StartsAt(script, k)
    ensures Asked(script, n, t, first) == Running(script[k].command, Asked(script, k, t, first).period, 0)
    decreases n
  {
    if k + 1 < n {
      AskedOnce(script, k, n - 1, t, first);
    }
  }

  /** The passes at the end of the first `n` steps that come at the time of the step before them. */
  ghost function Streak(script: seq<Step>, n: nat): nat
    requires n <= |script|
  {
    if n < 2 || !script[n - 1].Pass? || script[n - 1].later != script[n - 2].later then 0
    else Streak(script, n - 1) + 1
  }

  /** The last `k` of the first `n` steps are passes at the time of the step before them. */
  ghost predicate PassesAtOnce(script: seq<Step>, n: nat, k: nat) {
    && k < n <= |script|
    && forall j :: n - k <= j < n ==> script[j].Pass? && script[j].later == script[n - k - 1].later
  }

  lemma {:induction false} StreakCovers(script: seq<Step>, n: nat, k: nat)
    requires PassesAtOnce(script, n, k)
    ensures Streak(script, n) >= k
    decreases k
  {
    if k > 0 {
      StreakCovers(script, n - 1, k - 1);
    }
  }

  ghost predicate CatchesUp(expired: nat, streak: nat, timers: nat) {
    expired == 0 || expired + streak <= timers
  }

  lemma {:induction false} Fewer<T>(a: set<T>, b: set<T>)
    requires a <= b
    ensures |a| <= |b|
  {
    if a != {} {
      var x :| x in a;
      Fewer(a - {x}, b - {x});
    }
  }

  /** The timers that are not freed after `n` steps. */
  ghost function Left(script: seq<Step>, n: nat, timers: set<Timer>): (r: set<Timer>)
    requires n <= |script|
    ensures r <= timers
  {
    if n == 0 then timers else Remaining(script[n - 1], Left(script, n - 1, timers))
  }

  /** What a run may ask for: times that do not go back, start commands less than a wrap old
      that carry the tick count of the time they were sent, and no command on a timer that
      was freed. */
  ghost predicate Fits(script: seq<Step>, from: nat, timers: set<Timer>) {
    script != [] ==>
      var step := script[0];
      && from <= step.later
      && (step.Message? ==> step.timer in timers)
      && (step.Message? && step.kind == StartOrReset ==>
            step.value == Wrapped(step.command) && step.command <= step.later < step.command + TICKS)
      && (step.Message? && step.kind == ChangePeriod ==> 1 <= step.value < TICKS)
      && Fits(script[1..], step.later, Remaining(step, timers))
  }

  ghost function Remaining(step: Step, timers: set<Timer>): set<Timer> {
    if step.Message? && step.kind == Delete(false) then timers - {step.timer} else timers
  }

  datatype Step =
    | Pass(later: nat)
    | Message(kind: Command, timer: Timer, value: nat, command: nat, later: nat)

  datatype Command = StartOrReset | Stop | ChangePeriod | Delete(isStatic: bool)

  /** What one pass of prvProcessTimerOrBlockTask comes to. */
  datatype Outcome = Switched | Processed | Blocked(ticks: nat, indefinitely: bool)
}
