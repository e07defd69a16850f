/** One writer and one reader on a stream or message buffer (`stream_buffer.c`), with no
    mutual exclusion: each may stop between any two reads of an index, any two byte
    copies and before the index is committed, and the other may go on.

    `sent` and `received` are the bytes committed so far; |sent| and |received| are the
    head and the tail counted without wrapping. */
module StreamInterleaving {

  import opened Arithmetic
  import opened StreamBuffer

  /** The slot of the byte with number `k`. */
  function Index(k: nat, length: nat): (i: nat)
    requires 1 <= length
    ensures i < length
  {
    k % length
  }

  datatype Writer =
    | WriterIdle
    | NeedTail(data: seq<Byte>)                 // at the top of the loop of xStreamBufferSpacesAvailable
    | FirstTailRead(data: seq<Byte>, originalTail: nat)
    | SpaceRead(data: seq<Byte>, originalTail: nat, space: nat) // the loop test is next
    | SpaceKnown(data: seq<Byte>, space: nat)
    | Writing(chunk: seq<Byte>, done: nat)                      // prvWriteBytesToBuffer

  datatype Reader =
    | ReaderIdle
    | BytesKnown(available: nat)
    | Reading(count: nat, got: seq<Byte>)                       // prvReadBytesFromBuffer

  datatype State = State(
    buffer: seq<Byte>, head: nat, tail: nat,
    writer: Writer, reader: Reader,
    sent: seq<Byte>, received: seq<Byte>)
  {
    function Length(): nat { |buffer| }
  }

  datatype Step =
    | StartSend(data: seq<Byte>)
    | ReadTail
    | ReadTailAndHead            // reads xTail again
    | TestTail                   // reads xTail a third time
    | PlanWrite(count: nat)
    | WriteByte
    | CommitHead
    | Abandon                    // the header of an empty message is written, but not committed
    | StartReceive               // reads xHead
    | PlanRead(count: nat)
    | ReadByte
    | CommitTail

  /** A stream writes as much as there is room for, a message buffer header and message
      or nothing; a reader takes as much as it wants of what is there.  Any count within
      these bounds is allowed here. */
  predicate Enabled(s: State, step: Step) {
    match step
    case StartSend(data) => s.writer.WriterIdle?
    case ReadTail => s.writer.NeedTail?
    case ReadTailAndHead => s.writer.FirstTailRead?
    case TestTail => s.writer.SpaceRead?
    case PlanWrite(count) => s.writer.SpaceKnown? && count <= |s.writer.data| && count <= s.writer.space
    case WriteByte => s.writer.Writing? && s.writer.done < |s.writer.chunk|
    case CommitHead => s.writer.Writing? && s.writer.done == |s.writer.chunk|
    case Abandon => s.writer.Writing? && s.writer.done == |s.writer.chunk|
    case StartReceive => s.reader.ReaderIdle?
    case PlanRead(count) => s.reader.BytesKnown? && count <= s.reader.available
    case ReadByte => s.reader.Reading? && |s.reader.got| < s.reader.count
    case CommitTail => s.reader.Reading? && |s.reader.got| == s.reader.count
  }

  /** Where the indices are and how far the two sides may go. */
  ghost predicate Indexed(s: State) {
    && s.head < s.Length() && s.tail < s.Length()
    && (s.writer.SpaceRead? ==> s.writer.space < s.Length())
    && (s.writer.Writing? ==> s.writer.done <= |s.writer.chunk| < s.Length())
    && (s.reader.Reading? ==> |s.reader.got| <= s.reader.count < s.Length())
  }

  function Space(length: nat, head: nat, tail: nat): (r: nat)
    requires head < length && tail < length
    ensures r < length
  {
    Slot(length + tail - head - 1, length)
  }

  function Available(length: nat, head: nat, tail: nat): (r: nat)
    requires head < length && tail < length
    ensures r < length
  {
    Slot(length + head - tail, length)
  }

  function Next(s: State, step: Step): State
    requires Indexed(s) && Enabled(s, step)
  {
    match step
    case StartSend(data) => s.(writer := NeedTail(data))
    case ReadTail => s.(writer := FirstTailRead(s.writer.data, s.tail))
    case ReadTailAndHead =>
      s.(writer := SpaceRead(s.writer.data, s.writer.originalTail, Space(s.Length(), s.head, s.tail)))
    case TestTail =>
      s.(writer := if s.writer.originalTail != s.tail then NeedTail(s.writer.data)
                   else SpaceKnown(s.writer.data, s.writer.space))
    case PlanWrite(count) => s.(writer := if count == 0 then WriterIdle else Writing(s.writer.data[..count], 0))
    case WriteByte =>
      s.(buffer := s.buffer[Slot(s.head + s.writer.done, s.Length()) := s.writer.chunk[s.writer.done]],
         writer := s.writer.(done := s.writer.done + 1))
    case CommitHead =>
      s.(head := Slot(s.head + |s.writer.chunk|, s.Length()), writer := WriterIdle, sent := s.sent + s.writer.chunk)
    case Abandon => s.(writer := WriterIdle)
    case StartReceive => s.(reader := BytesKnown(Available(s.Length(), s.head, s.tail)))
    case PlanRead(count) => s.(reader := if count == 0 then ReaderIdle else Reading(count, []))
    case ReadByte =>
      s.(reader := s.reader.(got := s.reader.got + [s.buffer[Slot(s.tail + |s.reader.got|, s.Length())]]))
    case CommitTail =>
      s.(tail := Slot(s.tail + s.reader.count, s.Length()), reader := ReaderIdle,
         received := s.received + s.reader.got)
  }

  // --------------------------------------------------------------- arithmetic

  lemma IndexStep(k: nat, d: nat, length: nat)
    requires 1 <= length && d <= length
    ensures Index(k + d, length) == Slot(Index(k, length) + d, length)
  {
    var q, r := k / length, k % length;
    assert k == q * length + r;
    if r + d < length {
      DivisionIsUnique(k + d, length, q, r + d);
    } else {
      assert (q + 1) * length == q * length + length;
      DivisionIsUnique(k + d, length, q + 1, r + d - length);
    }
  }

  /** Bytes that are in the storage at the same time are in different slots. */
  lemma IndexDistinct(k: nat, j: nat, length: nat)
    requires 1 <= length && k < j < k + length
    ensures Index(k, length) != Index(j, length)
  {
    IndexStep(k, j - k, length);
  }

  lemma IndexDifference(written: nat, read: nat, length: nat)
    requires 1 <= length && read <= written < read + length
    ensures Available(length, Index(written, length), Index(read, length)) == written - read
    ensures Space(length, Index(written, length), Index(read, length)) == read + length - 1 - written
  {
    IndexStep(read, written - read, length);
  }

  // ---------------------------------------------------------------- invariant

  /** The storage holds the committed bytes that are not consumed. */
  ghost predicate Stored(buffer: seq<Byte>, sent: seq<Byte>, from: nat) {
    |buffer| >= 1 && forall k :: from <= k < |sent| ==> buffer[Index(k, |buffer|)] == sent[k]
  }

  ghost predicate Copied(buffer: seq<Byte>, chunk: seq<Byte>, done: nat, at: nat) {
    |buffer| >= 1 && done <= |chunk| && forall i :: 0 <= i < done ==> buffer[Index(at + i, |buffer|)] == chunk[i]
  }

  ghost predicate Inv(s: State) {
    var w, r := |s.sent|, |s.received|;
    && Indexed(s)
    && s.head == Index(w, s.Length()) && s.tail == Index(r, s.Length()) && r <= w < r + s.Length()
    && s.received == s.sent[..r]
    && Stored(s.buffer, s.sent, r)
    && (s.writer.SpaceRead? || s.writer.SpaceKnown? ==> w + s.writer.space < r + s.Length())
    && (s.writer.Writing? ==>
          w + |s.writer.chunk| < r + s.Length() && Copied(s.buffer, s.writer.chunk, s.writer.done, w))
    && (s.reader.BytesKnown? ==> r + s.reader.available <= w)
    && (s.reader.Reading? ==> r + s.reader.count <= w && s.reader.got == s.sent[r..r + |s.reader.got|])
  }

  lemma WriteKeepsStored(s: State)
    requires Inv(s) && Enabled(s, WriteByte)
    ensures Stored(Next(s, WriteByte).buffer, s.sent, |s.received|)
    ensures Copied(Next(s, WriteByte).buffer, s.writer.chunk, s.writer.done + 1, |s.sent|)
  {
    hide Slot, Index;
    var w, at := |s.sent|, |s.sent| + s.writer.done;
    IndexStep(w, s.writer.done, s.Length());
    forall k | |s.received| <= k < at ensures Index(k, s.Length()) != Index(at, s.Length()) {
      IndexDistinct(k, at, s.Length());
    }
  }

  lemma CommitKeepsStored(s: State)
    requires Inv(s) && Enabled(s, CommitHead)
    ensures Stored(s.buffer, s.sent + s.writer.chunk, |s.received|)
  {
    hide Index;
    forall k | |s.sent| <= k < |s.sent| + |s.writer.chunk|
      ensures s.buffer[Index(k, s.Length())] == s.writer.chunk[k - |s.sent|]
    {
      assert s.buffer[Index(|s.sent| + (k - |s.sent|), s.Length())] == s.writer.chunk[k - |s.sent|];
    }
  }

  predicate OfTheReader(step: Step) { step.StartReceive? || step.PlanRead? || step.ReadByte? || step.CommitTail? }

  lemma WriterKeepsInv(s: State, step: Step)
    requires Inv(s) && Enabled(s, step) && !OfTheReader(step)
    ensures Inv(Next(s, step))
  {
    hide Slot, Index, Space, Available, Stored, Copied;
    var w, r, length := |s.sent|, |s.received|, s.Length();
    match step
    case ReadTailAndHead =>
      IndexDifference(w, r, length);
    case WriteByte =>
      WriteKeepsStored(s);
    case CommitHead =>
      CommitKeepsStored(s);
      IndexStep(w, |s.writer.chunk|, length);
    case PlanWrite(count) =>
      NothingCopied(s.buffer, s.writer.data[..count], w);
    case _ =>
  }

  lemma ReaderKeepsInv(s: State, step: Step)
    requires Inv(s) && Enabled(s, step) && OfTheReader(step)
    ensures Inv(Next(s, step))
  {
    hide Slot, Index, Space, Available, Stored, Copied;
    var w, r, length := |s.sent|, |s.received|, s.Length();
    match step
    case StartReceive =>
      IndexDifference(w, r, length);
    case ReadByte =>
      ReadsTheNextByte(s);
    case CommitTail =>
      IndexStep(r, s.reader.count, length);
      ConsumedIsStored(s.buffer, s.sent, r, r + s.reader.count);
    case _ =>
  }

  lemma StepKeepsInv(s: State, step: Step)
    requires Inv(s) && Enabled(s, step)
    ensures Inv(Next(s, step))
  {
    hide Inv, Enabled, Next;
    if OfTheReader(step) {
      ReaderKeepsInv(s, step);
    } else {
      WriterKeepsInv(s, step);
    }
  }

  lemma NothingCopied(buffer: seq<Byte>, chunk: seq<Byte>, at: nat)
    requires |buffer| >= 1
    ensures Copied(buffer, chunk, 0, at)
  {
  }

  lemma ConsumedIsStored(buffer: seq<Byte>, sent: seq<Byte>, from: nat, later: nat)
    requires Stored(buffer, sent, from) && from <= later
    ensures Stored(buffer, sent, later)
  {
  }

  lemma ReadsTheNextByte(s: State)
    requires Inv(s) && Enabled(s, ReadByte)
    ensures s.buffer[Slot(s.tail + |s.reader.got|, s.Length())] == s.sent[|s.received| + |s.reader.got|]
  {
    hide Slot, Index;
    IndexStep(|s.received|, |s.reader.got|, s.Length());
  }

  // ------------------------------------------------------------------ all runs

  ghost predicate IsRun(states: seq<State>, steps: seq<Step>) {
    && |states| == |steps| + 1
    && Initial(states[0])
    && forall i :: 0 <= i < |steps| ==>
         Indexed(states[i]) && Enabled(states[i], steps[i]) && states[i + 1] == Next(states[i], steps[i])
  }

  ghost predicate Initial(s: State) {
    && |s.buffer| >= 1 && s.head == 0 && s.tail == 0 && s.writer == WriterIdle && s.reader == ReaderIdle
    && s.sent == [] && s.received == []
  }

  /** Under every interleaving, what has been received is a prefix of what has been sent,
      and the rest fits the storage with one slot to spare. */
  lemma {:induction false} ReceivedIsPrefixOfSent(states: seq<State>, steps: seq<Step>, i: nat)
    requires IsRun(states, steps) && i < |states|
    ensures Inv(states[i])
    ensures states[i].received <= states[i].sent
    ensures |states[i].sent| - |states[i].received| < |states[i].buffer|
  {
    if i > 0 {
      ReceivedIsPrefixOfSent(states, steps, i - 1);
      StepKeepsInv(states[i - 1], steps[i - 1]);
    }
  }

  /** The two sides never touch the same slot: the one the writer fills next is not among
      those the reader has still to copy. */
  lemma WriterAndReaderStayApart(states: seq<State>, steps: seq<Step>, i: nat, ahead: nat)
    requires IsRun(states, steps) && i < |states|
    requires states[i].writer.Writing? && states[i].writer.done < |states[i].writer.chunk|
    requires states[i].reader.Reading? && |states[i].reader.got| <= ahead < states[i].reader.count
    ensures Indexed(states[i])
    ensures Slot(states[i].head + states[i].writer.done, |states[i].buffer|) !=
            Slot(states[i].tail + ahead, |states[i].buffer|)
  {
    hide Slot, Index;
    var s := states[i];
    ReceivedIsPrefixOfSent(states, steps, i);
    IndexStep(|s.sent|, s.writer.done, s.Length());
    IndexStep(|s.received|, ahead, s.Length());
    IndexDistinct(|s.received| + ahead, |s.sent| + s.writer.done, s.Length());
  }

  /** A free count that the writer has read stays safe however long it takes to use it. */
  lemma KnownSpaceIsFree(states: seq<State>, steps: seq<Step>, i: nat)
    requires IsRun(states, steps) && i < |states| && states[i].writer.SpaceKnown?
    ensures states[i].writer.space <= |states[i].buffer| - 1 - (|states[i].sent| - |states[i].received|)
  {
    ReceivedIsPrefixOfSent(states, steps, i);
  }

  /** The tail after `r` bytes, which may have been read since the writer began to look. */
  ghost predicate SeenTail(s: State, r: nat) {
    r <= |s.received| && |s.sent| < r + s.Length()
  }

  /** What a writer has seen of the tail: `r` bytes were received at the first look, `q` at the second. */
  ghost predicate Saw(s: State, r: nat, q: nat)
    requires s.head < s.Length()
  {
    && SeenTail(s, r) && r <= q && SeenTail(s, q)
    && (s.writer.FirstTailRead? ==> s.writer.originalTail == Index(r, s.Length()))
    && (s.writer.SpaceRead? ==>
          && s.writer.originalTail == Index(r, s.Length())
          && s.writer.space == Space(s.Length(), s.head, Index(q, s.Length())))
  }

  ghost predicate Looked(s: State)
    requires s.head < s.Length()
  {
    s.writer.FirstTailRead? || s.writer.SpaceRead? ==> exists r, q :: Saw(s, r, q)
  }

  lemma StepKeepsLooked(s: State, step: Step)
    requires Inv(s) && Enabled(s, step) && Looked(s)
    ensures Inv(Next(s, step)) && Looked(Next(s, step))
  {
    hide Inv;
    StepKeepsInv(s, step);
    assert Indexed(s) && SeenTail(s, |s.received|) && s.tail == Index(|s.received|, s.Length()) by { InvParts(s); }
    var t := Next(s, step);
    assert Indexed(t) by { InvParts(t); }
    if step.ReadTail? {
      assert Saw(t, |s.received|, |s.received|);
    } else if (s.writer.FirstTailRead? || s.writer.SpaceRead?) && (t.writer.FirstTailRead? || t.writer.SpaceRead?) {
      var r, q :| Saw(s, r, q);
      assert Saw(t, r, if step.ReadTailAndHead? then |s.received| else q);
    }
  }

  lemma InvParts(s: State)
    requires Inv(s)
    ensures Indexed(s) && SeenTail(s, |s.received|) && s.tail == Index(|s.received|, s.Length())
    ensures s.head == Index(|s.sent|, s.Length()) && |s.received| <= |s.sent|
  {
  }

  lemma {:induction false} AlwaysLooked(states: seq<State>, steps: seq<Step>, i: nat)
    requires IsRun(states, steps) && i < |states|
    ensures Inv(states[i]) && Looked(states[i])
  {
    hide Inv, Next, Enabled, Looked;
    ReceivedIsPrefixOfSent(states, steps, i);
    InvParts(states[i]);
    if i > 0 {
      AlwaysLooked(states, steps, i - 1);
      StepKeepsLooked(states[i - 1], steps[i - 1]);
    } else {
      StartsWithoutALook(states[0]);
    }
  }

  lemma StartsWithoutALook(s: State)
    requires Initial(s)
    ensures Looked(s)
  {
  }

  /** What the loop of xStreamBufferSpacesAvailable is for: when it ends, the space is exactly that
      of this moment, however often the tail has moved meanwhile. */
  lemma SpaceIsExact(states: seq<State>, steps: seq<Step>, i: nat)
    requires IsRun(states, steps) && i < |steps| && steps[i].TestTail? && states[i + 1].writer.SpaceKnown?
    ensures states[i + 1].writer.space == |states[i].buffer| - 1 - (|states[i].sent| - |states[i].received|)
  {
    hide Inv, Space;
    AlwaysLooked(states, steps, i);
    var s := states[i];
    assert states[i + 1] == Next(s, steps[i]);
    InvParts(s);
    var r, q :| Saw(s, r, q);
    IndexIsInjective(r, |s.received|, s.Length());
    FreeSpace(s.Length(), |s.sent|, |s.received|);
  }

  lemma IndexIsInjective(r: nat, q: nat, length: nat)
    requires 1 <= length && r <= q < r + length && Index(r, length) == Index(q, length)
    ensures r == q
  {
    var d := q - r;
    IndexStep(r, d, length);
  }

  lemma FreeSpace(length: nat, w: nat, r: nat)
    requires 1 <= length && r <= w < r + length
    ensures Space(length, Index(w, length), Index(r, length)) == length - 1 - (w - r)
  {
    IndexStep(r, w - r, length);
  }

  // ------------------------------------------------------------ whole messages

  /** What a send to a message buffer writes: the length, and the message, which may be empty. */
  ghost predicate IsFrame(data: seq<Byte>) {
    LENGTH_BYTES <= |data| < LENGTH_LIMIT && data[..LENGTH_BYTES] == Header(|data| - LENGTH_BYTES)
  }

  /** The length in front of the next message, as prvReadMessageFromBuffer reads it. */
  function NextLength(s: State): nat
    requires s.tail < s.Length() && LENGTH_BYTES <= s.Length()
  {
    HeaderValue(Ring(s.buffer, s.tail, LENGTH_BYTES))
  }

  /** A message buffer: header and message are written together or not at all, and a reader
      takes what the header says, or nothing if its own buffer is too short.  A header with no
      message behind it is not committed. */
  ghost predicate OnMessages(s: State, step: Step)
    requires Indexed(s) && Enabled(s, step)
  {
    match step
    case StartSend(data) => IsFrame(data)
    case PlanWrite(count) => count == if s.writer.space >= |s.writer.data| then |s.writer.data| else 0
    case PlanRead(count) =>
      count == 0
      || (s.reader.available > LENGTH_BYTES && s.Length() >= LENGTH_BYTES
          && count == LENGTH_BYTES + Min(NextLength(s), s.reader.available - LENGTH_BYTES))
    case CommitHead => |s.writer.chunk| > LENGTH_BYTES
    case Abandon => |s.writer.chunk| == LENGTH_BYTES
    case _ => true
  }

  ghost predicate IsMessageRun(states: seq<State>, steps: seq<Step>) {
    IsRun(states, steps) && forall i :: 0 <= i < |steps| ==> MessageStep(states[i], steps[i])
  }

  ghost predicate MessageStep(s: State, step: Step) {
    Indexed(s) && Enabled(s, step) && OnMessages(s, step)
  }

  /** The messages of a frame that is committed, and of bytes that are consumed. */
  function SentBy(s: State, step: Step): seq<seq<Byte>> {
    if step.CommitHead? && s.writer.Writing? && |s.writer.chunk| >= LENGTH_BYTES then [s.writer.chunk[LENGTH_BYTES..]]
    else []
  }

  function ReceivedBy(s: State, step: Step): seq<seq<Byte>> {
    if step.CommitTail? && s.reader.Reading? && |s.reader.got| >= LENGTH_BYTES then [s.reader.got[LENGTH_BYTES..]]
    else []
  }

  function MessagesSent(states: seq<State>, steps: seq<Step>, n: nat): seq<seq<Byte>>
    requires n <= |steps| && |states| == |steps| + 1
  {
    if n == 0 then [] else MessagesSent(states, steps, n - 1) + SentBy(states[n - 1], steps[n - 1])
  }

  function MessagesReceived(states: seq<State>, steps: seq<Step>, n: nat): seq<seq<Byte>>
    requires n <= |steps| && |states| == |steps| + 1
  {
    if n == 0 then [] else MessagesReceived(states, steps, n - 1) + ReceivedBy(states[n - 1], steps[n - 1])
  }

  /** The bytes end where a message does. */
  ghost predicate Boundary(messages: seq<seq<Byte>>, k: nat, n: nat)
    requires Framable(messages)
  {
    k <= |messages| && Framable(messages[..k]) && n == |Framed(messages[..k])|
  }

  ghost predicate AtBoundary(messages: seq<seq<Byte>>, from: nat, n: nat)
    requires Framable(messages)
  {
    exists k: nat :: from <= k && Boundary(messages, k, n)
  }

  /** Everything committed and everything consumed is whole messages. */
  ghost predicate Mail(s: State, out: seq<seq<Byte>>, got: seq<seq<Byte>>) {
    && Framable(out) && Framable(got) && got <= out
    && s.sent == Framed(out) && s.received == Framed(got)
    && (s.writer.NeedTail? || s.writer.FirstTailRead? || s.writer.SpaceRead? || s.writer.SpaceKnown? ==>
          IsFrame(s.writer.data))
    && (s.writer.Writing? ==> IsFrame(s.writer.chunk))
    && (s.reader.BytesKnown? ==> AtBoundary(out, |got|, |s.received| + s.reader.available))
    && (s.reader.Reading? ==> |got| < |out| && s.reader.count == LENGTH_BYTES + |out[|got|]|)
  }

  lemma {:induction false} FramedTogether(a: seq<seq<Byte>>, b: seq<seq<Byte>>)
    requires Framable(a) && Framable(b)
    ensures Framable(a + b) && Framed(a + b) == Framed(a) + Framed(b)
  {
    hide Header;
    if a == [] {
      assert a + b == b;
    } else {
      assert (a + b)[0] == a[0] && (a + b)[1..] == a[1..] + b;
      assert forall m :: m in a[1..] ==> m in a;
      FramedTogether(a[1..], b);
      assert Header(|a[0]|) + a[0] + (Framed(a[1..]) + Framed(b)) == Header(|a[0]|) + a[0] + Framed(a[1..]) + Framed(b);
    }
  }

  lemma FrameOfOne(data: seq<Byte>)
    requires IsFrame(data) && |data| > LENGTH_BYTES
    ensures Framable([data[LENGTH_BYTES..]]) && Framed([data[LENGTH_BYTES..]]) == data
  {
    hide Header;
    var m := data[LENGTH_BYTES..];
    assert Framed([m]) == Header(|m|) + m + [];
    assert data == data[..LENGTH_BYTES] + m;
  }

  lemma FramableParts(messages: seq<seq<Byte>>, k: nat)
    requires Framable(messages) && k <= |messages|
    ensures Framable(messages[..k]) && Framable(messages[k..])
    ensures Framed(messages) == Framed(messages[..k]) + Framed(messages[k..])
  {
    assert messages == messages[..k] + messages[k..];
    assert forall m :: m in messages[..k] ==> m in messages;
    assert forall m :: m in messages[k..] ==> m in messages;
    FramedTogether(messages[..k], messages[k..]);
  }

  /** Behind the messages received comes the frame of the next one. */
  lemma NextFrame(s: State, out: seq<seq<Byte>>, got: seq<seq<Byte>>)
    requires Framable(out) && Framable(got) && got <= out && |got| < |out|
    requires s.sent == Framed(out) && s.received == Framed(got)
    ensures var r, m := |s.received|, out[|got|];
            && 0 < |m| < LENGTH_LIMIT && r + LENGTH_BYTES + |m| <= |s.sent|
            && HeaderValue(s.sent[r..r + LENGTH_BYTES]) == |m|
            && s.sent[r + LENGTH_BYTES..r + LENGTH_BYTES + |m|] == m
  {
    hide Header, HeaderValue, Framed;
    var n, r := |got|, |s.received|;
    assert out[n] in out && out[..n] == got;
    FramableParts(out, n);
    var rest := Framed(out[n..]);
    FramedHead(out[n..]);
    assert s.sent[r..] == rest;
    assert s.sent[r..r + LENGTH_BYTES] == rest[..LENGTH_BYTES];
  }

  /** The header that a reader finds, and how far its message goes. */
  lemma NextLengthIsRight(s: State, out: seq<seq<Byte>>, got: seq<seq<Byte>>)
    requires Inv(s) && Mail(s, out, got) && s.reader.BytesKnown? && s.reader.available > 0
    ensures |got| < |out| && LENGTH_BYTES <= s.Length()
    ensures NextLength(s) == |out[|got|]| && LENGTH_BYTES + |out[|got|]| <= s.reader.available
  {
    hide Slot, Index, IsFrame, Framed;
    var r := |s.received|;
    var k: nat :| |got| <= k && Boundary(out, k, r + s.reader.available);
    assert out[..|got|] == got;
    assert k > |got|;
    FramableParts(out, k);
    FramableParts(out[..k], |got|);
    assert out[..k][..|got|] == got;
    NextFrame(s, out, got);
    FramedHead(out[..k][|got|..]);
    assert out[..k][|got|..][0] == out[|got|];
    HeaderIsStored(s);
  }

  lemma HeaderIsStored(s: State)
    requires Inv(s) && |s.received| + LENGTH_BYTES <= |s.sent|
    ensures LENGTH_BYTES <= s.Length()
    ensures Ring(s.buffer, s.tail, LENGTH_BYTES) == s.sent[|s.received|..|s.received| + LENGTH_BYTES]
  {
    hide Slot, Index;
    var r := |s.received|;
    forall i | 0 <= i < LENGTH_BYTES
      ensures Ring(s.buffer, s.tail, LENGTH_BYTES)[i] == s.sent[r + i]
    {
      IndexStep(r, i, s.Length());
    }
  }

  lemma CommittedIsAMessage(s: State, out: seq<seq<Byte>>, got: seq<seq<Byte>>)
    requires Inv(s) && Mail(s, out, got) && Enabled(s, CommitHead) && |s.writer.chunk| > LENGTH_BYTES
    ensures Mail(Next(s, CommitHead), out + SentBy(s, CommitHead), got)
  {
    hide Framed, Inv, Slot, Header;
    assert Indexed(s) by { InvIndexed(s); }
    var m := s.writer.chunk[LENGTH_BYTES..];
    FrameOfOne(s.writer.chunk);
    FramedTogether(out, [m]);
    if s.reader.BytesKnown? {
      BoundaryStays(out, [m], |got|, |s.received| + s.reader.available);
    }
  }

  lemma BoundaryStays(out: seq<seq<Byte>>, more: seq<seq<Byte>>, from: nat, n: nat)
    requires Framable(out) && Framable(out + more) && AtBoundary(out, from, n)
    ensures AtBoundary(out + more, from, n)
  {
    hide Framed;
    var k: nat :| from <= k && Boundary(out, k, n);
    assert (out + more)[..k] == out[..k];
    assert Boundary(out + more, k, n);
  }

  lemma InvIndexed(s: State)
    requires Inv(s)
    ensures Indexed(s)
  {
  }

  lemma ConsumedIsAMessage(s: State, out: seq<seq<Byte>>, got: seq<seq<Byte>>)
    requires Inv(s) && Mail(s, out, got) && Enabled(s, CommitTail)
    ensures Mail(Next(s, CommitTail), out, got + ReceivedBy(s, CommitTail))
    ensures ReceivedBy(s, CommitTail) == [out[|got|]]
  {
    hide Framed, Slot, Index, Stored, Copied, Header, HeaderValue, IsFrame;
    var r, m := |s.received|, out[|got|];
    NextFrame(s, out, got);
    assert s.reader.got == s.sent[r..r + LENGTH_BYTES + |m|];
    assert s.reader.got[LENGTH_BYTES..] == m;
    FramableParts(out, |got| + 1);
    FramableParts(out[..|got| + 1], |got|);
    assert out[..|got| + 1] == got + [m] && out[..|got| + 1][..|got|] == got && out[..|got| + 1][|got|..] == [m];
    var front := Framed(got + [m]);
    assert front == s.received + Framed([m]);
    FramedHead([m]);
    assert |Framed([m])| == LENGTH_BYTES + |m| by { FrameLength(m); }
    assert s.sent[..r + LENGTH_BYTES + |m|] == front;
    assert s.sent[..r + LENGTH_BYTES + |m|] == s.sent[..r] + s.reader.got;
  }

  lemma FrameLength(m: seq<Byte>)
    requires |m| < LENGTH_LIMIT
    ensures |Framed([m])| == LENGTH_BYTES + |m|
  {
    assert Framed([m]) == Header(|m|) + m + [];
  }

  lemma StepKeepsMail(s: State, step: Step, out: seq<seq<Byte>>, got: seq<seq<Byte>>)
    requires Inv(s) && Mail(s, out, got) && MessageStep(s, step)
    ensures Mail(Next(s, step), out + SentBy(s, step), got + ReceivedBy(s, step))
  {
    hide Framed, Inv, Slot, Index, Space, IsFrame, Boundary;
    if step.CommitHead? {
      CommittedIsAMessage(s, out, got);
      assert got + [] == got;
    } else if step.CommitTail? {
      ConsumedIsAMessage(s, out, got);
      assert out + [] == out;
    } else {
      assert out + [] == out && got + [] == got;
      if step.PlanRead? && step.count > 0 {
        NextLengthIsRight(s, out, got);
      }
      if step.StartReceive? {
        AllIsAtBoundary(s, out, got);
      }
      if step.PlanWrite? {
        assert s.writer.data[..|s.writer.data|] == s.writer.data;
      }
    }
  }

  lemma AllIsAtBoundary(s: State, out: seq<seq<Byte>>, got: seq<seq<Byte>>)
    requires Inv(s) && Mail(s, out, got)
    ensures AtBoundary(out, |got|, |s.received| + Available(s.Length(), s.head, s.tail))
  {
    hide Framed, Slot, Index;
    IndexDifference(|s.sent|, |s.received|, s.Length());
    assert out[..|out|] == out;
    assert Boundary(out, |out|, |s.sent|);
  }

  /** Under every interleaving: a reader of a message buffer gets whole messages, each once, in
      the order in which they were sent. */
  lemma {:induction false} WholeMessagesInOrder(states: seq<State>, steps: seq<Step>, i: nat)
    requires IsMessageRun(states, steps) && i <= |steps|
    ensures var out, got := MessagesSent(states, steps, i), MessagesReceived(states, steps, i);
            && Framable(out) && Framable(got) && got <= out
            && states[i].sent == Framed(out) && states[i].received == Framed(got)
            && Mail(states[i], out, got)
  {
    hide Inv, Next, Enabled, Indexed, OnMessages, SentBy, ReceivedBy;
    if i > 0 {
      WholeMessagesInOrder(states, steps, i - 1);
      ReceivedIsPrefixOfSent(states, steps, i - 1);
      assert MessageStep(states[i - 1], steps[i - 1]) && states[i] == Next(states[i - 1], steps[i - 1]);
      StepKeepsMail(states[i - 1], steps[i - 1], MessagesSent(states, steps, i - 1),
        MessagesReceived(states, steps, i - 1));
    }
  }
}
