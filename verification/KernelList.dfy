/** The intrusive circular doubly linked list of `list.c`, on the heap.

    A `List` owns an end marker and a ring of items.  The ghost sequence
    `items` is the ring read forwards from the end marker; everything else in
    the kernel that uses a list can reason about that sequence. */
module KernelList {

  /** Tick values are 32 bits wide (`configUSE_16_BIT_TICKS` is 0). */
  const MAX_DELAY: nat := 0xFFFF_FFFF

  // --------------------------------------------------------------- sequences

  /** Where a value goes in a list: after the leading values that are not larger. */
  function InsertionPoint(values: seq<nat>, v: nat): (k: nat)
    ensures k <= |values|
    ensures forall i :: 0 <= i < k ==> values[i] <= v
    ensures k < |values| ==> v < values[k]
  {
    if values == [] || v < values[0] then 0 else 1 + InsertionPoint(values[1..], v)
  }

  function Inserted<T>(s: seq<T>, k: nat, x: T): (r: seq<T>)
    requires k <= |s|
    ensures |r| == |s| + 1
    ensures forall i :: 0 <= i <= |s| ==> r[i] == if i < k then s[i] else if i == k then x else s[i - 1]
  {
    seq(|s| + 1, i requires 0 <= i <= |s| => if i < k then s[i] else if i == k then x else s[i - 1])
  }

  function Removed<T>(s: seq<T>, k: nat): (r: seq<T>)
    requires k < |s|
    ensures |r| == |s| - 1
    ensures forall i :: 0 <= i < |s| - 1 ==> r[i] == if i < k then s[i] else s[i + 1]
  {
    seq(|s| - 1, i requires 0 <= i < |s| - 1 => if i < k then s[i] else s[i + 1])
  }

  ghost predicate Sorted(values: seq<nat>) {
    forall i, j :: 0 <= i < j < |values| ==> values[i] <= values[j]
  }

  /** Insertion keeps a list sorted, and is stable: the new value goes behind
      every equal value and in front of every larger one. */
  lemma InsertionIsSortedAndStable(values: seq<nat>, v: nat)
    requires Sorted(values)
    ensures var k := InsertionPoint(values, v);
            && Sorted(Inserted(values, k, v))
            && (forall i :: 0 <= i < |values| ==> (i < k <==> values[i] <= v))
  {
    var k := InsertionPoint(values, v);
    var r := Inserted(values, k, v);
    forall i, j | 0 <= i < j < |r| ensures r[i] <= r[j] {
      if i < k && j > k { assert r[i] == values[i] && r[j] == values[j - 1]; }
    }
  }

  /** The first position that separates the values is the insertion point. */
  lemma InsertionPointIsUnique(values: seq<nat>, v: nat, k: nat)
    requires k <= |values|
    requires forall i :: 0 <= i < k ==> values[i] <= v
    requires k < |values| ==> v < values[k]
    ensures InsertionPoint(values, v) == k
  {
  }

  lemma InsertedMembers<T>(s: seq<T>, k: nat, x: T)
    requires k <= |s|
    ensures forall u :: u in Inserted(s, k, x) <==> u == x || u in s
  {
    assert Inserted(s, k, x) == s[..k] + [x] + s[k..];
  }

  lemma RemovedMembers<T>(s: seq<T>, k: nat)
    requires k < |s| && forall i, j :: 0 <= i < j < |s| ==> s[i] != s[j]
    ensures forall u :: u in Removed(s, k) <==> u != s[k] && u in s
  {
    assert Removed(s, k) == s[..k] + s[k + 1..];
  }

  /** The item is gone, if it was there, and nothing else has changed. */
  ghost predicate TakenOut<T(!new)>(was: seq<T>, x: T, list: seq<T>) {
    if x in was then exists k :: 0 <= k < |was| && was[k] == x && list == Removed(was, k) else list == was
  }

  /** Putting an item in and taking it out again leaves the list as it was. */
  lemma RemoveUndoesInsert<T>(s: seq<T>, k: nat, x: T)
    requires k <= |s|
    ensures Removed(Inserted(s, k, x), k) == s
  {
  }

  // -------------------------------------------------------------------- heap

  class ListItem {
    var value: nat
    var next: ListItem?
    var previous: ListItem?
    var container: List?

    /** vListInitialiseItem */
    constructor (value: nat)
      ensures this.value == value && container == null
    {
      this.value := value;
      next, previous, container := null, null, null;
    }
  }

  /** Position `k` of a ring: the end marker is in front of and behind the items. */
  ghost function At<T>(items: seq<T>, end: T, k: int): T {
    if 0 <= k < |items| then items[k] else end
  }

  class List {
    var numberOfItems: nat
    var index: ListItem
    const end: ListItem
    ghost var items: seq<ListItem>
    ghost var at: nat  // where the index is; the end marker is at |items|

    ghost predicate Members()
      reads this, end, items
    {
      && numberOfItems == |items|
      && end.value == MAX_DELAY && end.container == null
      && at <= |items| && index == At(items, end, at)
      && (forall i, j :: 0 <= i < j < |items| ==> items[i] != items[j])
      && (forall i :: 0 <= i < |items| ==> items[i] != end && items[i].container == this && items[i].value <= MAX_DELAY)
    }

    ghost predicate Linked()
      reads this, end, items
    {
      && end.next == At(items, end, 0)
      && end.previous == At(items, end, |items| - 1)
      && (forall i {:trigger items[i].next} :: 0 <= i < |items| ==> items[i].next == At(items, end, i + 1))
      && (forall i {:trigger items[i].previous} :: 0 <= i < |items| ==> items[i].previous == At(items, end, i - 1))
    }

    ghost predicate Valid()
      reads this, end, items
    {
      Members() && Linked()
    }

    ghost function Values(): (v: seq<nat>)
      reads this, items
      ensures |v| == |items| && forall i :: 0 <= i < |items| ==> v[i] == items[i].value
    {
      seq(|items|, i requires 0 <= i < |items| reads this, items => items[i].value)
    }

    /** vListInitialise */
    constructor ()
      ensures Valid() && items == [] && index == end && fresh(end)
    {
      var e := new ListItem(MAX_DELAY);
      e.next := e;
      e.previous := e;
      end, index := e, e;
      numberOfItems := 0;
      items, at := [], 0;
    }

    lemma MembersByInsertion(was: seq<ListItem>, x: ListItem, k: nat, wasAt: nat)
      requires k <= |was| && items == Inserted(was, k, x) && wasAt <= |was|
      requires numberOfItems == |items|
      requires at == (if wasAt < k then wasAt else wasAt + 1) && index == At(was, end, wasAt)
      requires x != end && x.container == this && x.value <= MAX_DELAY
      requires end.value == MAX_DELAY && end.container == null
      requires forall i, j :: 0 <= i < j < |was| ==> was[i] != was[j]
      requires forall i :: 0 <= i < |was| ==> was[i] != end && was[i] != x
      requires forall i :: 0 <= i < |was| ==> was[i].container == this && was[i].value <= MAX_DELAY
      ensures Members()
    {
    }

    /** The ring of `items` with `x` linked in at position `k`. */
    ghost predicate Spliced(was: seq<ListItem>, x: ListItem, k: nat)
      requires k <= |was|
      reads end`next, end`previous, was`next, was`previous, x`next, x`previous
    {
      && x.next == At(was, end, k) && x.previous == At(was, end, k - 1)
      && end.next == (if k == 0 then x else was[0])
      && end.previous == (if k == |was| then x else was[|was| - 1])
      && (forall i {:trigger was[i].next} ::
            0 <= i < |was| ==> was[i].next == if i == k - 1 then x else At(was, end, i + 1))
      && (forall i {:trigger was[i].previous} ::
            0 <= i < |was| ==> was[i].previous == if i == k then x else At(was, end, i - 1))
    }

    lemma LinkedByInsertion(was: seq<ListItem>, x: ListItem, k: nat)
      requires k <= |was| && items == Inserted(was, k, x)
      requires x != end && forall i :: 0 <= i < |was| ==> was[i] != end && was[i] != x
      requires Spliced(was, x, k)
      ensures Linked()
    {
    }

    /** The four pointer writes that both insertion functions share. */
    method Splice(x: ListItem, it: ListItem, ghost k: nat)
      requires Valid() && k <= |items| && it == At(items, end, k - 1)
      requires x != end && x.container == null
      modifies end`next, end`previous, items`next, items`previous, x`next, x`previous
      ensures Spliced(items, x, k)
    {
      x.next := it.next;
      x.next.previous := x;
      x.previous := it;
      it.next := x;
    }

    method Link(x: ListItem, it: ListItem, ghost k: nat)
      requires Valid() && k <= |items| && it == At(items, end, k - 1)
      requires x != end && x.container == null && x.value <= MAX_DELAY
      modifies this`items, this`at, this`numberOfItems
      modifies end`next, end`previous, items`next, items`previous, x`next, x`previous, x`container
      ensures Valid() && items == Inserted(old(items), k, x)
      ensures index == old(index) && at == old(if at < k then at else at + 1)
    {
      hide Spliced, Linked, Inserted, At;
      ghost var was, wasAt := items, at;
      Splice(x, it, k);
      x.container := this;
      numberOfItems := numberOfItems + 1;
      items, at := Inserted(was, k, x), if at < k then at else at + 1;
      MembersByInsertion(was, x, k, wasAt);
      LinkedByInsertion(was, x, k);
    }

    /** The search of vListInsert: the item behind which a new item of value `v` goes. */
    method FindPlace(v: nat) returns (it: ListItem, ghost k: nat)
      requires Valid() && v <= MAX_DELAY
      ensures it == At(items, end, InsertionPoint(Values(), v) - 1) && k == InsertionPoint(Values(), v)
    {
      it, k := end, 0;
      if v == MAX_DELAY {
        it, k := end.previous, |items|;
      } else {
        while it.next.value <= v
          invariant k <= |items| && it == At(items, end, k - 1)
          invariant forall i :: 0 <= i < k ==> items[i].value <= v
          decreases |items| - k
        {
          it, k := it.next, k + 1;
        }
      }
      InsertionPointIsUnique(Values(), v, k);
    }

    /** vListInsert */
    method Insert(x: ListItem)
      requires Valid() && x != end && x.container == null && x.value <= MAX_DELAY
      modifies this`items, this`at, this`numberOfItems
      modifies end`next, end`previous, items`next, items`previous, x`next, x`previous, x`container
      ensures Valid() && index == old(index)
      ensures items == Inserted(old(items), old(InsertionPoint(Values(), x.value)), x)
    {
      hide Members, Linked, InsertionPoint;
      var it, k := FindPlace(x.value);
      Link(x, it, k);
    }

    /** After any insertion the values are those of before with the new one among them;
        after vListInsert a sorted list is still sorted, and new items go behind equal ones. */
    lemma SortedAfterInsert(was: seq<ListItem>, values: seq<nat>, x: ListItem)
      requires |values| == |was| && (forall i :: 0 <= i < |was| ==> values[i] == was[i].value)
      requires items == Inserted(was, InsertionPoint(values, x.value), x)
      ensures Values() == Inserted(values, InsertionPoint(values, x.value), x.value)
      ensures Sorted(values) ==> Sorted(Values())
    {
      hide InsertionPoint;
      if Sorted(values) {
        InsertionIsSortedAndStable(values, x.value);
      }
    }

    /** vListInsertEnd: the new item is the last one that the index will reach. */
    method InsertEnd(x: ListItem)
      requires Valid() && x != end && x.container == null && x.value <= MAX_DELAY
      modifies this`items, this`at, this`numberOfItems
      modifies end`next, end`previous, items`next, items`previous, x`next, x`previous, x`container
      ensures Valid() && index == old(index)
      ensures items == Inserted(old(items), old(at), x) && at == old(at) + 1
    {
      Link(x, index.previous, at);
    }

    /** The ring of `items` with the item at position `k` taken out. */
    ghost predicate Bypassed(was: seq<ListItem>, k: nat)
      requires k < |was|
      reads end`next, end`previous, was`next, was`previous
    {
      && end.next == (if k == 0 then At(was, end, 1) else was[0])
      && end.previous == (if k == |was| - 1 then At(was, end, k - 1) else was[|was| - 1])
      && (forall i {:trigger was[i].next} :: 0 <= i < |was| && i != k ==>
            was[i].next == At(was, end, if i == k - 1 then k + 1 else i + 1))
      && (forall i {:trigger was[i].previous} :: 0 <= i < |was| && i != k ==>
            was[i].previous == At(was, end, if i == k + 1 then k - 1 else i - 1))
    }

    lemma LinkedByRemoval(was: seq<ListItem>, k: nat)
      requires k < |was| && items == Removed(was, k)
      requires forall i, j :: 0 <= i < j < |was| ==> was[i] != was[j]
      requires forall i :: 0 <= i < |was| ==> was[i] != end
      requires Bypassed(was, k)
      ensures Linked()
    {
    }

    method Bypass(x: ListItem, ghost k: nat)
      requires Valid() && k < |items| && items[k] == x
      modifies end`next, end`previous, items`next, items`previous, this`index
      ensures Bypassed(items, k)
      ensures index == At(items, end, if at == k then k - 1 else at)
    {
      x.next.previous := x.previous;
      x.previous.next := x.next;
      if index == x {
        index := x.previous;
      }
    }

    lemma MembersByRemoval(was: seq<ListItem>, k: nat, wasAt: nat)
      requires k < |was| && items == Removed(was, k) && wasAt <= |was|
      requires numberOfItems == |items| && end.value == MAX_DELAY && end.container == null
      requires at == AtAfterRemoval(|was|, wasAt, k) && index == At(was, end, if wasAt == k then k - 1 else wasAt)
      requires forall i, j :: 0 <= i < j < |was| ==> was[i] != was[j]
      requires forall i :: 0 <= i < |was| ==> was[i] != end
      requires forall i :: 0 <= i < |was| && i != k ==> was[i].container == this && was[i].value <= MAX_DELAY
      ensures Members()
    {
    }

    /** The part of uxListRemove that touches the list. */
    method Unlink(x: ListItem, ghost k: nat)
      requires Valid() && k < |items| && items[k] == x
      modifies this`items, this`at, this`index, this`numberOfItems
      modifies end`next, end`previous, items`next, items`previous, x`container
      ensures Valid() && items == Removed(old(items), k) && x.container == null
      ensures at == AtAfterRemoval(old(|items|), old(at), k)
    {
      hide Bypassed, Linked, Removed, AtAfterRemoval, At;
      ghost var was, wasAt := items, at;
      Bypass(x, k);
      x.container := null;
      numberOfItems := numberOfItems - 1;
      items, at := Removed(was, k), AtAfterRemoval(|was|, at, k);
      MembersByRemoval(was, k, wasAt);
      LinkedByRemoval(was, k);
    }

    /** listGET_OWNER_OF_NEXT_ENTRY: steps the index to the next item, over the end marker. */
    method NextEntry() returns (x: ListItem)
      requires Valid() && items != []
      modifies this`index, this`at
      ensures Valid() && at == NextAt(|items|, old(at)) && x == index == items[at]
    {
      index, at := index.next, if at == |items| then 0 else at + 1;
      if index == end {
        index, at := index.next, 0;
      }
      x := index;
    }
  }

  /** uxListRemove: the item knows which list it is in. */
  method Remove(x: ListItem, ghost k: nat) returns (n: nat)
    requires x.container != null && x.container.Valid()
    requires k < |x.container.items| && x.container.items[k] == x
    modifies x`container, x.container`items, x.container`at, x.container`index, x.container`numberOfItems
    modifies x.container.end`next, x.container.end`previous, x.container.items`next, x.container.items`previous
    ensures x.container == null
    ensures var l := old(x.container);
            && l.Valid() && l.items == Removed(old(l.items), k) && n == |l.items|
            && l.at == AtAfterRemoval(old(|l.items|), old(l.at), k)
  {
    var l := x.container;
    l.Unlink(x, k);
    n := l.numberOfItems;
  }

  // ------------------------------------------------- several lists in one heap

  /** Each with an end marker of its own; an item is in one list at most. */
  ghost predicate AllValid(lists: set<List>)
    reads lists, set l | l in lists :: l.end, set l, i | l in lists && 0 <= i < |l.items| :: l.items[i]
  {
    && (forall l :: l in lists ==> l.Valid())
    && (forall l, m :: l in lists && m in lists && l != m ==> l.end != m.end)
  }

  /** What is done to the items and the end marker of `l`, and to an item that is in no list, is
      not done to `m`. */
  lemma ListsAreDisjoint(lists: set<List>, l: List, m: List)
    requires AllValid(lists) && l in lists && m in lists && l != m
    ensures l.end != m.end && l.end !in m.items && m.end !in l.items
    ensures forall u :: u in m.items ==> u !in l.items && u.container != null
    ensures m.Valid()
  {
    hide List.Linked;
  }

  /** vListInsert into one of several lists: the others stay as they are. */
  method InsertAmong(ghost lists: set<List>, l: List, x: ListItem)
    requires AllValid(lists) && l in lists && x.container == null && x.value <= MAX_DELAY
    requires forall m :: m in lists ==> x != m.end
    modifies l`items, l`at, l`numberOfItems
    modifies l.end`next, l.end`previous, l.items`next, l.items`previous, x`next, x`previous, x`container
    ensures AllValid(lists)
    ensures l.items == Inserted(old(l.items), old(InsertionPoint(l.Values(), x.value)), x)
  {
    hide List.Values, InsertionPoint, Inserted;
    forall m | m in lists && m != l
      ensures m.Valid() && l.end != m.end && l.end !in m.items && m.end !in l.items
      ensures forall u :: u in m.items ==> u !in l.items && u.container != null
    {
      ListsAreDisjoint(lists, l, m);
    }
    l.Insert(x);
    forall m | m in lists && m != l
      ensures m.Valid()
    {
      assert unchanged(m) && unchanged(m.end);
      assert forall u :: u in m.items ==> unchanged(u);
    }
  }

  /** vListInsertEnd into one of several lists. */
  method InsertEndAmong(ghost lists: set<List>, l: List, x: ListItem)
    requires AllValid(lists) && l in lists && x.container == null && x.value <= MAX_DELAY
    requires forall m :: m in lists ==> x != m.end
    modifies l`items, l`at, l`numberOfItems
    modifies l.end`next, l.end`previous, l.items`next, l.items`previous, x`next, x`previous, x`container
    ensures AllValid(lists)
    ensures l.items == Inserted(old(l.items), old(l.at), x) && l.at == old(l.at) + 1
  {
    hide List.Values, Inserted;
    forall m | m in lists && m != l
      ensures m.Valid() && l.end != m.end && l.end !in m.items && m.end !in l.items
      ensures forall u :: u in m.items ==> u !in l.items && u.container != null
    {
      ListsAreDisjoint(lists, l, m);
    }
    l.InsertEnd(x);
    forall m | m in lists && m != l
      ensures m.Valid()
    {
      assert unchanged(m) && unchanged(m.end);
      assert forall u :: u in m.items ==> unchanged(u);
    }
  }

  /** uxListRemove of an item that is in one of several lists. */
  method RemoveAmong(ghost lists: set<List>, x: ListItem, ghost k: nat) returns (n: nat)
    requires AllValid(lists) && x.container != null && x.container in lists
    requires k < |x.container.items| && x.container.items[k] == x
    modifies x`container, x.container`items, x.container`at, x.container`index, x.container`numberOfItems
    modifies x.container.end`next, x.container.end`previous, x.container.items`next, x.container.items`previous
    ensures AllValid(lists) && x.container == null
    ensures var l := old(x.container); l.items == Removed(old(l.items), k) && n == |l.items|
  {
    hide Removed, AtAfterRemoval;
    var l := x.container;
    forall m | m in lists && m != l
      ensures m.Valid() && l.end != m.end && l.end !in m.items && m.end !in l.items
      ensures forall u :: u in m.items ==> u !in l.items && u.container != null
    {
      ListsAreDisjoint(lists, l, m);
    }
    n := Remove(x, k);
    forall m | m in lists && m != l
      ensures m.Valid()
    {
      assert unchanged(m) && unchanged(m.end);
      assert forall u :: u in m.items ==> unchanged(u);
    }
  }

  // ------------------------------------------------------------- round robin

  /** Where the index stands in a list of `n` items once item `k` is gone:
      on the item it stood on, or on the one in front of the removed item. */
  function AtAfterRemoval(n: nat, at: nat, k: nat): nat
    requires at <= n && k < n
  {
    if at < k then at else if at > k then at - 1 else if k == 0 then n - 1 else k - 1
  }

  function NextAt(n: nat, at: nat): (p: nat)
    requires 0 < n && at <= n
    ensures p < n
  {
    if at + 1 < n then at + 1 else 0
  }

  /** Where the index stands after `steps` further calls. */
  function Visit(n: nat, at: nat, steps: nat): (p: nat)
    requires 0 < n && at <= n
    ensures p <= n
  {
    if steps == 0 then at else NextAt(n, Visit(n, at, steps - 1))
  }

  lemma {:induction false} VisitInOneRound(n: nat, at: nat, steps: nat)
    requires 0 < n && at <= n && 1 <= steps <= n
    ensures Visit(n, at, steps) ==
            if at == n then steps - 1 else if at + steps < n then at + steps else at + steps - n
  {
    if steps > 1 {
      VisitInOneRound(n, at, steps - 1);
    }
  }

  /** Wherever the index stands, the next `n` calls visit every item exactly once. */
  lemma EveryItemHasOneTurnPerRound(n: nat, at: nat, p: nat)
    requires 0 < n && at <= n && p < n
    ensures exists j :: 1 <= j <= n && Visit(n, at, j) == p
    ensures forall i, j :: 1 <= i <= n && 1 <= j <= n && Visit(n, at, i) == p && Visit(n, at, j) == p ==> i == j
  {
    forall j | 1 <= j <= n
      ensures Visit(n, at, j) == if at == n then j - 1 else if at + j < n then at + j else at + j - n
    {
      VisitInOneRound(n, at, j);
    }
    var turn := if at == n then p + 1 else if p > at then p - at else p + n - at;
    assert Visit(n, at, turn) == p;
  }

  /** The items in the order of their next turns; the one the index stands on has had its turn last. */
  function Turns<T>(s: seq<T>, at: nat): (r: seq<T>)
    requires at <= |s|
    ensures |r| == |s|
  {
    if at < |s| then s[at + 1..] + s[..at + 1] else s
  }

  lemma TurnsAreVisits<T>(s: seq<T>, at: nat, j: nat)
    requires at <= |s| && j < |s|
    ensures Turns(s, at)[j] == s[Visit(|s|, at, j + 1)]
  {
    hide Visit;
    VisitInOneRound(|s|, at, j + 1);
  }

  /** A call gives the first its turn, and puts it behind the others. */
  lemma TurnsRotate<T>(s: seq<T>, at: nat)
    requires s != [] && at <= |s|
    ensures s[NextAt(|s|, at)] == Turns(s, at)[0]
    ensures Turns(s, NextAt(|s|, at)) == Turns(s, at)[1..] + [Turns(s, at)[0]]
  {
  }

  /** Put in behind all others; or, if the index stands on an item, just in front of that one, which
      has had its turn last. */
  function Behind<T>(turns: seq<T>, on: bool, xs: seq<T>): seq<T>
    requires on ==> turns != []
  {
    if on then turns[..|turns| - 1] + xs + [turns[|turns| - 1]] else turns + xs
  }

  /** What vListInsertEnd does to the turns: the index stays on the item it stands on, or on the end
      marker; nobody's turn comes later but that of this item, and the new one has its turn after
      all others. */
  lemma InsertedEndTurns<T>(s: seq<T>, at: nat, x: T)
    requires at <= |s|
    ensures var r := Inserted(s, at, x);
            && (at < |s| ==> r[at + 1] == s[at]) && (at == |s| ==> at + 1 == |r|)
            && Turns(r, at + 1) == Behind(Turns(s, at), at < |s|, [x])
  {
    var r := Inserted(s, at, x);
    assert r == s[..at] + [x] + s[at..];
    if at < |s| {
      TurnsWith(s[..at], x, s[at], s[at + 1..]);
      assert s[at..] == [s[at]] + s[at + 1..];
      assert r == s[..at] + [x, s[at]] + s[at + 1..] && s == s[..at] + [s[at]] + s[at + 1..];
    } else {
      assert r == s + [x];
    }
  }

  lemma TurnsWith<T>(a: seq<T>, x: T, y: T, b: seq<T>)
    ensures Turns(a + [x, y] + b, |a| + 1) == Behind(Turns(a + [y] + b, |a|), true, [x])
  {
    assert Turns(a + [y] + b, |a|) == b + a + [y];
    assert Turns(a + [x, y] + b, |a| + 1) == b + a + [x, y];
  }

  /** What uxListRemove does to the turns: the item is gone, and the others keep their order. */
  lemma RemovedTurns<T>(s: seq<T>, at: nat, k: nat) returns (j: nat)
    requires at <= |s| && k < |s|
    ensures j < |s| && Turns(s, at)[j] == s[k] && (k == at ==> j == |s| - 1)
    ensures AtAfterRemoval(|s|, at, k) <= |s| - 1
    ensures Turns(Removed(s, k), AtAfterRemoval(|s|, at, k)) == Removed(Turns(s, at), j)
  {
    hide Turns, TurnIndex;
    j := TurnOf(|s|, at, k);
    var r, b := Removed(s, k), AtAfterRemoval(|s|, at, k);
    TurnIsAt(s, at, j);
    forall i | 0 <= i < |s| - 1
      ensures Turns(r, b)[i] == Removed(Turns(s, at), j)[i]
    {
      TurnIsAt(r, b, i);
      TurnIsAt(s, at, if i < j then i else i + 1);
      TurnAfterRemoval(|s|, at, k, i);
    }
  }

  /** The item that has turn `i`. */
  function TurnIndex(n: nat, at: nat, i: nat): (p: nat)
    requires at <= n && i < n
    ensures p < n
  {
    if at == n then i else if at + 1 + i < n then at + 1 + i else at + 1 + i - n
  }

  /** The turn that item `k` has. */
  function TurnOf(n: nat, at: nat, k: nat): (j: nat)
    requires at <= n && k < n
    ensures j < n && TurnIndex(n, at, j) == k && (k == at ==> j == n - 1)
  {
    if at == n then k else if k > at then k - at - 1 else n - 1 - at + k
  }

  lemma TurnIsAt<T>(s: seq<T>, at: nat, i: nat)
    requires at <= |s| && i < |s|
    ensures Turns(s, at)[i] == s[TurnIndex(|s|, at, i)]
  {
  }

  lemma TurnAfterRemoval(n: nat, at: nat, k: nat, i: nat)
    requires at <= n && k < n && i < n - 1
    ensures var j, p := TurnOf(n, at, k), TurnIndex(n - 1, AtAfterRemoval(n, at, k), i);
            TurnIndex(n, at, if i < j then i else i + 1) == if p < k then p else p + 1
  {
  }

  /** What vListInsertEnd is for: the item it puts at position `at` has its
      first turn only when every other item has had one, apart from the item
      the index stands on, which had its turn last. */
  lemma InsertedEndIsVisitedLast(n: nat, at: nat, j: nat)
    requires at <= n && 1 <= j <= n + 1
    ensures Visit(n + 1, at + 1, j) == at <==> j == if at < n then n else n + 1
  {
    VisitInOneRound(n + 1, at + 1, j);
  }
}
