/** The storage of a queue (`queue.c`): a ring of slots with a write position and the
    position of the last read, which is a bounded double-ended queue.

    A slot stands for the `uxItemSize` bytes of one item. */
module QueueRing {
  import Arithmetic

  datatype Option<T> = None | Some(value: T)

  datatype Position = SendToBack | SendToFront | Overwrite

  /** Slot number `k` counted through the ring; `k` is at most two rounds ahead. */
  function Slot(k: nat, length: nat): (r: nat)
    requires 1 <= length && k <= 2 * length
    ensures r < length
  {
    if k < length then k else if k < 2 * length then k - length else 0
  }

  lemma SlotIsModular(k: nat, length: nat)
    requires 1 <= length && k <= 2 * length
    ensures Slot(k, length) == k % length
  {
    if k < length {
      Arithmetic.DivisionIsUnique(k, length, 0, k);
    } else if k < 2 * length {
      Arithmetic.DivisionIsUnique(k, length, 1, k - length);
    } else {
      Arithmetic.DivisionIsUnique(k, length, 2, 0);
    }
  }

  // -------------------------------------------------------- the abstract view

  /** What a successful send does to the items, oldest first. */
  function Sent<T>(items: seq<T>, item: T, position: Position): seq<T> {
    match position
    case SendToBack => items + [item]
    case SendToFront => [item] + items
    case Overwrite => [item]
  }

  class Queue<T> {
    const storage: array<T>
    const length: nat
    var writeTo: nat         // pcWriteTo, as a slot number
    var readFrom: nat        // pcReadFrom
    var messagesWaiting: nat

    ghost predicate Valid()
      reads this
    {
      && 1 <= length == storage.Length
      && messagesWaiting <= length
      && readFrom < length
      && writeTo == Slot(readFrom + 1 + messagesWaiting, length)
    }

    ghost function Items(): (s: seq<T>)
      requires Valid()
      reads this, storage
      ensures |s| == messagesWaiting
      ensures forall i :: 0 <= i < |s| ==> s[i] == storage[Slot(readFrom + 1 + i, length)]
    {
      seq(messagesWaiting, i requires 0 <= i < messagesWaiting && Valid() reads this, storage =>
        storage[Slot(readFrom + 1 + i, length)])
    }

    /** xQueueGenericCreateStatic, and xQueueGenericReset of a new queue. */
    constructor (storage: array<T>)
      requires 1 <= storage.Length
      ensures Valid() && this.storage == storage && length == storage.Length && Items() == []
    {
      this.storage, length := storage, storage.Length;
      writeTo, readFrom, messagesWaiting := 0, storage.Length - 1, 0;
    }

    /** xQueueGenericReset of a queue in use. */
    method Reset()
      requires Valid()
      modifies this
      ensures Valid() && Items() == []
    {
      messagesWaiting := 0;
      writeTo := 0;
      readFrom := length - 1;
    }

    /** The branch of prvCopyDataToQueue for the back: the item goes to the write position. */
    method CopyToBack(item: T)
      requires Valid() && messagesWaiting < length
      modifies this`writeTo, this`messagesWaiting, storage
      ensures Valid() && Items() == old(Items()) + [item]
    {
      storage[writeTo] := item;
      writeTo := writeTo + 1;
      if writeTo >= length {
        writeTo := 0;
      }
      messagesWaiting := messagesWaiting + 1;
    }

    /** The branch for the front: the item goes where the last read was made from. */
    method CopyToFront(item: T, overwrite: bool)
      requires Valid() && (if overwrite then length == 1 else messagesWaiting < length)
      modifies this`readFrom, this`messagesWaiting, storage
      ensures Valid() && Items() == if overwrite then [item] else [item] + old(Items())
    {
      var waiting := messagesWaiting;
      storage[readFrom] := item;
      if readFrom == 0 {
        readFrom := length - 1;
      } else {
        readFrom := readFrom - 1;
      }
      if overwrite && waiting > 0 {
        waiting := waiting - 1;
      }
      messagesWaiting := waiting + 1;
    }

    /** prvCopyDataToQueue */
    method CopyDataToQueue(item: T, position: Position)
      requires Valid() && (messagesWaiting < length || position == Overwrite)
      requires position == Overwrite ==> length == 1
      modifies this, storage
      ensures Valid() && Items() == Sent(old(Items()), item, position)
    {
      if position == SendToBack {
        CopyToBack(item);
      } else {
        CopyToFront(item, position == Overwrite);
      }
    }

    /** prvCopyDataFromQueue: moves the read position; the caller accounts for the item. */
    method CopyDataFromQueue() returns (item: T)
      requires Valid() && messagesWaiting > 0
      modifies this`readFrom
      ensures readFrom == Slot(old(readFrom) + 1, length)
      ensures item == old(Items()[0])
    {
      readFrom := readFrom + 1;
      if readFrom >= length {
        readFrom := 0;
      }
      item := storage[readFrom];
    }

    /** xQueueGenericSend without a block time, and xQueueGenericSendFromISR. */
    method Send(item: T, position: Position) returns (sent: bool)
      requires Valid() && (position == Overwrite ==> length == 1)
      modifies this, storage
      ensures Valid()
      ensures sent <==> old(|Items()|) < length || position == Overwrite
      ensures Items() == if sent then Sent(old(Items()), item, position) else old(Items())
      ensures sent && position == SendToBack ==> Items() == old(Items()) + [item]
      ensures sent && position == SendToFront ==> Items() == [item] + old(Items())
      ensures sent && position == Overwrite ==> Items() == [item]
    {
      sent := messagesWaiting < length || position == Overwrite;
      if sent {
        CopyDataToQueue(item, position);
      }
    }

    /** xQueueReceive without a block time, and xQueueReceiveFromISR. */
    method Receive() returns (item: Option<T>)
      requires Valid()
      modifies this`readFrom, this`messagesWaiting
      ensures Valid()
      ensures old(Items()) == [] ==> item == None && Items() == []
      ensures old(Items()) != [] ==> item == Some(old(Items()[0])) && Items() == old(Items()[1..])
    {
      item := None;
      if messagesWaiting > 0 {
        var x := CopyDataFromQueue();
        messagesWaiting := messagesWaiting - 1;
        item := Some(x);
      }
    }

    /** xQueuePeek without a block time, and xQueuePeekFromISR: the read position is put back. */
    method Peek() returns (item: Option<T>)
      requires Valid()
      modifies this`readFrom
      ensures Valid() && Items() == old(Items()) && readFrom == old(readFrom)
      ensures item == if Items() == [] then None else Some(Items()[0])
    {
      item := None;
      if messagesWaiting > 0 {
        var originalReadPosition := readFrom;
        var x := CopyDataFromQueue();
        readFrom := originalReadPosition;
        item := Some(x);
      }
    }

    /** uxQueueSpacesAvailable */
    method SpacesAvailable() returns (n: nat)
      requires Valid()
      ensures n == length - |Items()|
    {
      n := length - messagesWaiting;
    }

    /** Any mix of operations on the ring does what it does to a bounded deque, and gives the
        same answers. */
    method Run(ops: seq<Operation<T>>) returns (answers: seq<Answer<T>>)
      requires Valid() && forall i :: 0 <= i < |ops| ==> Permitted(ops[i], length)
      modifies this, storage
      ensures Valid()
      ensures var h := Follow(ops, length, History(old(Items()), [], [], []));
              Items() == h.items && answers == h.answers
    {
      answers := [];
      ghost var start := History(Items(), [], [], []);
      ghost var h := start;
      for i := 0 to |ops|
        invariant Valid() && h == Follow(ops[..i], length, start)
        invariant Items() == h.items && answers == h.answers
      {
        assert ops[..i + 1][..i] == ops[..i] && ops[..i + 1][i] == ops[i];
        h := Apply(h, ops[i], length);
        var answer := Do(ops[i]);
        answers := answers + [answer];
      }
      assert ops[..|ops|] == ops;
    }

    method Do(op: Operation<T>) returns (answer: Answer<T>)
      requires Valid() && Permitted(op, length)
      modifies this, storage
      ensures Valid()
      ensures var h := Apply(History(old(Items()), [], [], []), op, length);
              Items() == h.items && [answer] == h.answers
      ensures op.SendItem? ==> answer == SendAnswer(old(|Items()|) < length || op.position == Overwrite)
      ensures op.ReceiveItem? || op.PeekItem? ==>
                answer == ItemAnswer(if old(Items()) == [] then None else Some(old(Items()[0])))
    {
      match op {
        case SendItem(item, position) =>
          var sent := Send(item, position);
          answer := SendAnswer(sent);
        case ReceiveItem =>
          var item := Receive();
          answer := ItemAnswer(item);
        case PeekItem =>
          var item := Peek();
          answer := ItemAnswer(item);
        case ResetQueue =>
          Reset();
          answer := ResetAnswer;
      }
    }
  }

  // ------------------------------------------------------- the deque, over runs

  datatype Operation<T> = SendItem(item: T, position: Position) | ReceiveItem | PeekItem | ResetQueue

  datatype Answer<T> = SendAnswer(sent: bool) | ItemAnswer(item: Option<T>) | ResetAnswer

  /** The items queued, all items accepted and all items received so far, and every answer. */
  datatype History<T> = History(items: seq<T>, accepted: seq<T>, received: seq<T>, answers: seq<Answer<T>>)

  predicate Permitted<T>(op: Operation<T>, length: nat) {
    op.SendItem? && op.position == Overwrite ==> length == 1
  }

  function Apply<T>(h: History<T>, op: Operation<T>, length: nat): History<T> {
    match op
    case SendItem(item, position) =>
      if |h.items| < length || position == Overwrite
      then History(Sent(h.items, item, position), h.accepted + [item], h.received, h.answers + [SendAnswer(true)])
      else h.(answers := h.answers + [SendAnswer(false)])
    case ReceiveItem =>
      if h.items == [] then h.(answers := h.answers + [ItemAnswer(None)])
      else
        var item := h.items[0];
        History(h.items[1..], h.accepted, h.received + [item], h.answers + [ItemAnswer(Some(item))])
    case PeekItem =>
      h.(answers := h.answers + [ItemAnswer(if h.items == [] then None else Some(h.items[0]))])
    case ResetQueue => h.(items := [], answers := h.answers + [ResetAnswer])
  }

  function Follow<T>(ops: seq<Operation<T>>, length: nat, start: History<T>): History<T> {
    if ops == [] then start else Apply(Follow(ops[..|ops| - 1], length, start), ops[|ops| - 1], length)
  }

  ghost predicate InOrder<T>(h: History<T>, length: nat) {
    h.accepted == h.received + h.items && |h.items| <= length
  }

  lemma ApplyKeepsOrder<T>(h: History<T>, op: Operation<T>, length: nat)
    requires InOrder(h, length)
    requires op.ReceiveItem? || op.PeekItem? || (op.SendItem? && op.position == SendToBack)
    ensures InOrder(Apply(h, op, length), length)
  {
    if op.ReceiveItem? && h.items != [] {
      assert h.items == [h.items[0]] + h.items[1..];
    }
  }

  /** As long as items are sent to the back only, they are received in the order in
      which they were accepted, and none is lost or doubled. */
  lemma {:induction false} FirstInFirstOut<T>(ops: seq<Operation<T>>, length: nat)
    requires forall op :: op in ops ==> op.ReceiveItem? || op.PeekItem? || (op.SendItem? && op.position == SendToBack)
    ensures var h := Follow(ops, length, History([], [], [], []));
            h.accepted == h.received + h.items && |h.items| <= length
  {
    hide Apply;
    if ops != [] {
      var before := ops[..|ops| - 1];
      FirstInFirstOut(before, length);
      assert ops[|ops| - 1] in ops;
      ApplyKeepsOrder(Follow(before, length, History([], [], [], [])), ops[|ops| - 1], length);
    }
  }

  /** What is sent to the front, or overwrites the one item, is received next; the others wait as
      before. */
  lemma FrontIsReceivedNext<T>(ops: seq<Operation<T>>, item: T, position: Position, length: nat, start: History<T>)
    requires position != SendToBack && (|Follow(ops, length, start).items| < length || position == Overwrite)
    ensures var before := Follow(ops, length, start);
            var h := Follow(ops + [SendItem(item, position)] + [ReceiveItem], length, start);
            && h.answers == before.answers + [SendAnswer(true), ItemAnswer(Some(item))]
            && h.received == before.received + [item]
            && h.items == if position == SendToFront then before.items else []
  {
    hide Apply;
    FollowedBy(ops, SendItem(item, position), length, start);
    FollowedBy(ops + [SendItem(item, position)], ReceiveItem, length, start);
    SentThenReceived(Follow(ops, length, start), item, position, length);
  }

  lemma FollowedBy<T>(ops: seq<Operation<T>>, op: Operation<T>, length: nat, start: History<T>)
    ensures Follow(ops + [op], length, start) == Apply(Follow(ops, length, start), op, length)
  {
    hide Apply;
    assert (ops + [op])[..|ops|] == ops;
  }

  lemma SentThenReceived<T>(h: History<T>, item: T, position: Position, length: nat)
    requires position != SendToBack && (|h.items| < length || position == Overwrite)
    ensures var r := Apply(Apply(h, SendItem(item, position), length), ReceiveItem, length);
            && r.answers == h.answers + [SendAnswer(true), ItemAnswer(Some(item))]
            && r.received == h.received + [item]
            && r.items == if position == SendToFront then h.items else []
  {
  }

  ghost predicate Tally<T>(h: History<T>, length: nat) {
    multiset(h.accepted) == multiset(h.received) + multiset(h.items) && |h.items| <= length
  }

  lemma ApplyKeepsTally<T>(h: History<T>, op: Operation<T>, length: nat)
    requires Tally(h, length) && !op.ResetQueue? && (op.SendItem? ==> op.position != Overwrite)
    ensures Tally(Apply(h, op, length), length)
  {
    if op.ReceiveItem? && h.items != [] {
      assert h.items == [h.items[0]] + h.items[1..];
    }
  }

  /** Without overwriting and resetting, every accepted item is received or still queued, exactly once. */
  lemma {:induction false} NothingLost<T>(ops: seq<Operation<T>>, length: nat)
    requires forall op :: op in ops ==> !op.ResetQueue? && (op.SendItem? ==> op.position != Overwrite)
    ensures Tally(Follow(ops, length, History([], [], [], [])), length)
  {
    hide Apply;
    if ops != [] {
      var before := ops[..|ops| - 1];
      NothingLost(before, length);
      assert ops[|ops| - 1] in ops;
      ApplyKeepsTally(Follow(before, length, History([], [], [], [])), ops[|ops| - 1], length);
    }
  }
}
