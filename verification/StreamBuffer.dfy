/** Stream and message buffers (`stream_buffer.c`) as one caller sees them: a byte ring
    with one slot always free, copies that may be split at the end of the storage, and
    on top of it messages framed by their length. */
module StreamBuffer {

  type Byte = b: int | 0 <= b < 256 witness 0

  /** One step over the end of the storage. */
  function Slot(k: nat, length: nat): (r: nat)
    requires k < 2 * length
    ensures r < length
  {
    if k < length then k else k - length
  }

  function Min(a: nat, b: nat): nat {
    if a <= b then a else b
  }

  // ------------------------------------------------------------------ framing

  /** configMESSAGE_BUFFER_LENGTH_TYPE is size_t: four bytes, the lowest first. */
  const LENGTH_BYTES: nat := 4
  const LENGTH_LIMIT: nat := 0x1_0000_0000

  function Header(n: nat): (h: seq<Byte>)
    requires n < LENGTH_LIMIT
    ensures |h| == LENGTH_BYTES
  {
    [n % 256, n / 0x100 % 256, n / 0x1_0000 % 256, n / 0x100_0000]
  }

  function HeaderValue(h: seq<Byte>): nat
    requires |h| == LENGTH_BYTES
  {
    (h[0] as int) + (h[1] as int) * 0x100 + (h[2] as int) * 0x1_0000 + (h[3] as int) * 0x100_0000
  }

  lemma HeaderRoundTrip(n: nat)
    requires n < LENGTH_LIMIT
    ensures HeaderValue(Header(n)) == n
  {
    var a := n / 0x100;
    var b := a / 0x100;
    assert n / 0x1_0000 == b && n / 0x100_0000 == b / 0x100;
  }

  /** The bytes that a queue of messages occupies. */
  function Framed(messages: seq<seq<Byte>>): seq<Byte>
    requires forall m :: m in messages ==> |m| < LENGTH_LIMIT
  {
    if messages == [] then []
    else assert messages[0] in messages; Header(|messages[0]|) + messages[0] + Framed(messages[1..])
  }

  ghost predicate Framable(messages: seq<seq<Byte>>) {
    forall m :: m in messages ==> 0 < |m| < LENGTH_LIMIT
  }

  lemma {:induction false} FramedAppend(messages: seq<seq<Byte>>, m: seq<Byte>)
    requires Framable(messages) && 0 < |m| < LENGTH_LIMIT
    ensures Framable(messages + [m])
    ensures Framed(messages + [m]) == Framed(messages) + Header(|m|) + m
  {
    hide Header;
    var all := messages + [m];
    assert forall u :: u in all <==> u in messages || u == m;
    if messages == [] {
      assert all[0] == m && all[1..] == [];
      assert Framed(all) == Header(|m|) + m + [];
    } else {
      var rest := messages[1..];
      assert all[0] == messages[0] && all[1..] == rest + [m];
      assert forall u :: u in rest ==> u in messages;
      FramedAppend(rest, m);
      Reassociate(Header(|messages[0]|) + messages[0], Framed(rest), Header(|m|), m);
    }
  }

  lemma Reassociate(a: seq<Byte>, b: seq<Byte>, c: seq<Byte>, d: seq<Byte>)
    ensures a + (b + c + d) == a + b + c + d
  {
  }

  /** The head of a framed queue can be told apart from what follows. */
  lemma FramedHead(messages: seq<seq<Byte>>)
    requires Framable(messages) && messages != []
    ensures var f := Framed(messages);
            var n := |messages[0]|;
            && |f| >= LENGTH_BYTES + n && n > 0
            && HeaderValue(f[..LENGTH_BYTES]) == n
            && f[LENGTH_BYTES..LENGTH_BYTES + n] == messages[0]
            && f[LENGTH_BYTES + n..] == Framed(messages[1..])
    ensures Framable(messages[1..])
  {
    assert messages[0] in messages;
    var n := |messages[0]|;
    var rest := Framed(messages[1..]);
    assert Framed(messages) == Header(n) + (messages[0] + rest);
    assert Framed(messages)[..LENGTH_BYTES] == Header(n);
    HeaderRoundTrip(n);
    assert forall u :: u in messages[1..] ==> u in messages;
  }

  // --------------------------------------------------------------- byte rings

  /** The `n` bytes of storage `b` that start at `from` and may go on at the beginning. */
  function Ring(b: seq<Byte>, from: nat, n: nat): (r: seq<Byte>)
    requires from < |b| && n <= |b|
    ensures |r| == n && forall i :: 0 <= i < n ==> r[i] == b[Slot(from + i, |b|)]
  {
    seq(n, i requires 0 <= i < n => b[Slot(from + i, |b|)])
  }

  /** `after` is `before` with `data` written from slot `at` on, over the end if need be. */
  ghost predicate Written(before: seq<Byte>, after: seq<Byte>, at: nat, data: seq<Byte>)
    requires |before| == |after| && at < |before| && |data| <= |before|
  {
    var next := Slot(at + |data|, |before|);
    && Ring(after, at, |data|) == data
    && Ring(after, next, |before| - |data|) == Ring(before, next, |before| - |data|)
  }

  lemma WrittenInOne(before: seq<Byte>, after: seq<Byte>, at: nat, data: seq<Byte>)
    requires at < |before| && at + |data| <= |before|
    requires after == before[..at] + data + before[at + |data|..]
    ensures |after| == |before| && Written(before, after, at, data)
  {
  }

  /** Up to the end of the storage, and on from its beginning. */
  lemma WrittenInTwo(before: seq<Byte>, after: seq<Byte>, at: nat, data: seq<Byte>)
    requires at < |before| < at + |data| && |data| <= |before|
    requires var first := |before| - at;
             after == data[first..] + (before[..at] + data[..first])[|data| - first..]
    ensures |after| == |before| && Written(before, after, at, data)
  {
  }

  lemma RingSplit(b: seq<Byte>, from: nat, n: nat, k: nat)
    requires from < |b| && k <= n <= |b|
    ensures Ring(b, from, n)[..k] == Ring(b, from, k)
    ensures Ring(b, from, n)[k..] == Ring(b, Slot(from + k, |b|), n - k)
  {
  }

  /** Writing behind the first `n` bytes of a ring appends to them. */
  lemma RingAppend(before: seq<Byte>, after: seq<Byte>, from: nat, n: nat, data: seq<Byte>)
    requires |before| == |after| && from < |before| && n + |data| <= |before|
    requires Written(before, after, Slot(from + n, |before|), data)
    ensures Ring(after, from, n + |data|) == Ring(before, from, n) + data
  {
    hide Ring;
    var length, at := |before|, Slot(from + n, |before|);
    var next, free := Slot(at + |data|, length), length - n - |data|;
    RingSplit(after, next, length - |data|, free);
    RingSplit(before, next, length - |data|, free);
    assert Slot(next + free, length) == from;
    RingSplit(after, from, n + |data|, n);
    assert Ring(after, from, n + |data|)[..n] + Ring(after, from, n + |data|)[n..] == Ring(after, from, n + |data|);
  }

  /** Writing twice in a row is writing both at once. */
  lemma WrittenTwice(a: seq<Byte>, b: seq<Byte>, c: seq<Byte>, at: nat, first: seq<Byte>, second: seq<Byte>)
    requires |a| == |b| == |c| && at < |a| && |first| + |second| <= |a|
    requires Written(a, b, at, first) && Written(b, c, Slot(at + |first|, |a|), second)
    ensures Written(a, c, at, first + second)
  {
    hide Ring;
    var length, mid := |a|, Slot(at + |first|, |a|);
    var next, rest := Slot(mid + |second|, length), length - |first| - |second|;
    RingAppend(b, c, at, |first|, second);
    RingSplit(c, next, length - |second|, rest);
    RingSplit(b, next, length - |second|, rest);
    RingSplit(b, mid, length - |first|, |second|);
    RingSplit(a, mid, length - |first|, |second|);
    assert next == Slot(at + |first + second|, length);
  }

  // ------------------------------------------------------------------- buffer

  class Buffer {
    const buffer: array<Byte>
    const isMessageBuffer: bool
    var head: nat
    var tail: nat
    ghost var messages: seq<seq<Byte>>

    ghost predicate Indexed()
      reads this
    {
      head < buffer.Length && tail < buffer.Length
    }

    /** prvBytesInBuffer */
    function BytesInBuffer(): (n: nat)
      requires Indexed()
      reads this
      ensures n < buffer.Length && head == Slot(tail + n, buffer.Length)
    {
      var count := buffer.Length + head - tail;
      if count >= buffer.Length then count - buffer.Length else count
    }

    ghost function Contents(): seq<Byte>
      requires Indexed()
      reads this, buffer
    {
      Ring(buffer[..], tail, BytesInBuffer())
    }

    ghost predicate Valid()
      reads this, buffer
    {
      && Indexed()
      && (isMessageBuffer ==> Framable(messages) && Contents() == Framed(messages))
    }

    /** prvInitialiseNewStreamBuffer */
    constructor (buffer: array<Byte>, isMessageBuffer: bool)
      requires buffer.Length >= 1
      ensures Valid() && Contents() == [] && messages == []
      ensures this.buffer == buffer && this.isMessageBuffer == isMessageBuffer
    {
      this.buffer, this.isMessageBuffer := buffer, isMessageBuffer;
      head, tail, messages := 0, 0, [];
    }

    /** xStreamBufferSpacesAvailable, with nobody writing the fields meanwhile. */
    method SpacesAvailable() returns (space: nat)
      requires Indexed()
      ensures space == buffer.Length - 1 - |Contents()|
    {
      var s := buffer.Length + tail - head - 1;
      if s >= buffer.Length {
        s := s - buffer.Length;
      }
      space := s;
    }

    /** memcpy into the storage. */
    method CopyIn(at: nat, data: seq<Byte>)
      requires at + |data| <= buffer.Length
      modifies buffer
      ensures buffer[..] == old(buffer[..at]) + data + old(buffer[at + |data|..])
    {
      for i := 0 to |data|
        invariant buffer[..] == old(buffer[..at]) + data[..i] + old(buffer[at + i..])
      {
        buffer[at + i] := data[i];
      }
    }

    /** prvWriteBytesToBuffer: `head` is where to write, and is not committed here. */
    method WriteBytesToBuffer(data: seq<Byte>, at: nat) returns (next: nat)
      requires 0 < |data| <= buffer.Length && at < buffer.Length
      modifies buffer
      ensures Written(old(buffer[..]), buffer[..], at, data)
      ensures next == Slot(at + |data|, buffer.Length)
    {
      hide Written;
      var first := Min(buffer.Length - at, |data|);
      ghost var before := buffer[..];
      CopyIn(at, data[..first]);
      if |data| > first {
        CopyIn(0, data[first..]);
        WrittenInTwo(before, buffer[..], at, data);
      } else {
        WrittenInOne(before, buffer[..], at, data);
      }
      next := at + |data|;
      if next >= buffer.Length {
        next := next - buffer.Length;
      }
    }

    /** prvReadBytesFromBuffer: nothing is consumed here. */
    method ReadBytesFromBuffer(count: nat, at: nat) returns (data: seq<Byte>, next: nat)
      requires 0 < count <= buffer.Length && at < buffer.Length
      ensures data == Ring(buffer[..], at, count)
      ensures next == Slot(at + count, buffer.Length)
    {
      var first := Min(buffer.Length - at, count);
      data := buffer[at..at + first];
      if count > first {
        data := data + buffer[..count - first];
      }
      next := at + count;
      if next >= buffer.Length {
        next := next - buffer.Length;
      }
    }

    /** Writing behind the contents and not moving the head changes nothing for a reader. */
    lemma UncommittedIsInvisible(before: seq<Byte>, data: seq<Byte>)
      requires Indexed() && |before| == buffer.Length && BytesInBuffer() + |data| <= buffer.Length
      requires Written(before, buffer[..], head, data)
      ensures Contents() == Ring(before, tail, BytesInBuffer())
    {
      hide Ring;
      var n := BytesInBuffer();
      RingAppend(before, buffer[..], tail, n, data);
      RingSplit(buffer[..], tail, n + |data|, n);
    }

    /** The writes of one message, header first, and the commit behind the second. */
    method AppendMessage(data: seq<Byte>)
      requires Indexed() && 0 < |data| < LENGTH_LIMIT && |Contents()| + LENGTH_BYTES + |data| < buffer.Length
      modifies this`head, buffer
      ensures Indexed() && Contents() == old(Contents()) + Header(|data|) + data
    {
      hide Ring, Header, Written;
      ghost var n, b0 := BytesInBuffer(), buffer[..];
      var next := WriteBytesToBuffer(Header(|data|), head);
      ghost var b1 := buffer[..];
      next := WriteBytesToBuffer(data, next);
      WrittenTwice(b0, b1, buffer[..], head, Header(|data|), data);
      RingAppend(b0, buffer[..], tail, n, Header(|data|) + data);
      head := next;
      assert old(Contents()) + (Header(|data|) + data) == old(Contents()) + Header(|data|) + data;
    }

    method AppendBytes(data: seq<Byte>)
      requires Indexed() && 0 < |data| && |Contents()| + |data| < buffer.Length
      modifies this`head, buffer
      ensures Indexed() && Contents() == old(Contents()) + data
    {
      hide Ring, Written;
      ghost var n, b0 := BytesInBuffer(), buffer[..];
      var next := WriteBytesToBuffer(data, head);
      RingAppend(b0, buffer[..], tail, n, data);
      head := next;
    }

    /** A header without a message behind it is written, but never committed. */
    method WriteHeaderOnly()
      requires Indexed() && |Contents()| + LENGTH_BYTES < buffer.Length
      modifies buffer
      ensures Contents() == old(Contents()) && Written(old(buffer[..]), buffer[..], head, Header(0))
    {
      hide Ring, Written;
      ghost var b0 := buffer[..];
      var next := WriteBytesToBuffer(Header(0), head);
      UncommittedIsInvisible(b0, Header(0));
    }

    /** xStreamBufferSend without a block time, and xStreamBufferSendFromISR, up to the
        notification of a waiting reader: the whole message or nothing, in a message
        buffer; as much of the data as there is room for, in a stream buffer. */
    method Send(data: seq<Byte>) returns (sent: nat)
      requires Valid() && (isMessageBuffer ==> |data| < LENGTH_LIMIT)
      modifies this`head, this`messages, buffer
      ensures Valid()
      ensures !isMessageBuffer ==>
                && sent == Min(|data|, buffer.Length - 1 - old(|Contents()|))
                && Contents() == old(Contents()) + data[..sent]
      ensures isMessageBuffer ==>
                && sent == (if old(|Contents()|) + LENGTH_BYTES + |data| < buffer.Length then |data| else 0)
                && messages == if sent > 0 then old(messages) + [data] else old(messages)
      ensures sent == 0 && !(isMessageBuffer && data == [] && old(|Contents()|) + LENGTH_BYTES < buffer.Length) ==>
                buffer[..] == old(buffer[..])
      ensures isMessageBuffer && data == [] && old(|Contents()|) + LENGTH_BYTES < buffer.Length ==>
                Written(old(buffer[..]), buffer[..], head, Header(0)) && head == old(head)
    {
      hide Ring, Written, Framed, Header, Framable;
      var space := SpacesAvailable();
      sent := |data|;
      if isMessageBuffer {
        if space < |data| + LENGTH_BYTES {
          sent := 0;
        } else if sent == 0 {
          WriteHeaderOnly();
        } else {
          AppendMessage(data);
          FramedAppend(messages, data);
          messages := messages + [data];
        }
      } else {
        sent := Min(|data|, space);
        if sent != 0 {
          AppendBytes(data[..sent]);
        }
      }
    }

    /** Moves the tail over the first `count` bytes. */
    method Consume(count: nat, next: nat)
      requires Indexed() && count <= |Contents()| && next == Slot(tail + count, buffer.Length)
      modifies this`tail
      ensures Indexed() && Contents() == old(Contents()[count..])
    {
      hide Ring;
      RingSplit(buffer[..], tail, BytesInBuffer(), count);
      tail := next;
    }

    /** The length of the first message, which stays where it is. */
    method ReadHeader() returns (length: nat, next: nat)
      requires Valid() && isMessageBuffer && messages != []
      ensures length == |messages[0]| > 0 && next == Slot(tail + LENGTH_BYTES, buffer.Length)
      ensures |Contents()| >= LENGTH_BYTES + length
      ensures Contents()[LENGTH_BYTES..LENGTH_BYTES + length] == messages[0]
      ensures Contents()[LENGTH_BYTES + length..] == Framed(messages[1..]) && Framable(messages[1..])
    {
      hide Ring, Header;
      FramedHead(messages);
      var header;
      header, next := ReadBytesFromBuffer(LENGTH_BYTES, tail);
      RingSplit(buffer[..], tail, BytesInBuffer(), LENGTH_BYTES);
      length := HeaderValue(header);
    }

    lemma EmptyIffNoMessage()
      requires Valid() && isMessageBuffer
      ensures messages == [] <==> Contents() == []
      ensures messages != [] ==> |Contents()| > LENGTH_BYTES
    {
      hide Ring, Header, HeaderValue;
      if messages != [] {
        FramedHead(messages);
      }
    }

    /** The branch of prvReadMessageFromBuffer for messages: the oldest message as a
        whole, or nothing, when the caller's buffer is too small for it. */
    method ReceiveMessage(bufferLength: nat, available: nat) returns (data: seq<Byte>)
      requires Valid() && isMessageBuffer && messages != [] && available == |Contents()|
      modifies this`tail, this`messages
      ensures Valid()
      ensures data == if |old(messages[0])| <= bufferLength then old(messages[0]) else []
      ensures messages == if |old(messages[0])| <= bufferLength then old(messages[1..]) else old(messages)
    {
      hide Ring, Framed, Framable;
      data := [];
      var length, next := ReadHeader();
      var count := Min(if length > bufferLength then 0 else length, available - LENGTH_BYTES);
      if count != 0 {
        ghost var at, all := next, Contents();
        RingSplit(buffer[..], tail, BytesInBuffer(), LENGTH_BYTES);
        RingSplit(buffer[..], at, BytesInBuffer() - LENGTH_BYTES, length);
        data, next := ReadBytesFromBuffer(count, next);
        assert data == all[LENGTH_BYTES..][..length] == all[LENGTH_BYTES..LENGTH_BYTES + length];
        Consume(LENGTH_BYTES + count, next);
        messages := messages[1..];
      }
    }

    /** xStreamBufferReceive without a block time, and xStreamBufferReceiveFromISR, up to
        the notification of a waiting writer. */
    method Receive(bufferLength: nat) returns (data: seq<Byte>)
      requires Valid()
      modifies this`tail, this`messages
      ensures Valid()
      ensures !isMessageBuffer ==>
                var n := Min(bufferLength, old(|Contents()|));
                data == old(Contents()[..n]) && Contents() == old(Contents()[n..])
      ensures isMessageBuffer ==>
                var fits := old(messages) != [] && |old(messages)[0]| <= bufferLength;
                && data == (if fits then old(messages)[0] else [])
                && messages == if fits then old(messages)[1..] else old(messages)
    {
      hide Ring, Framed, Framable, Header, HeaderValue;
      data := [];
      var available := BytesInBuffer();
      if isMessageBuffer {
        EmptyIffNoMessage();
        if available > LENGTH_BYTES {
          data := ReceiveMessage(bufferLength, available);
        }
      } else if available > 0 {
        var count := Min(bufferLength, available);
        if count != 0 {
          var next;
          RingSplit(buffer[..], tail, available, count);
          data, next := ReadBytesFromBuffer(count, tail);
          Consume(count, next);
        }
      }
    }

    /** xStreamBufferNextMessageLengthBytes: the length that the next receive will return,
        given a buffer that is large enough. */
    method NextMessageLengthBytes() returns (length: nat)
      requires Valid()
      ensures length == if isMessageBuffer && messages != [] then |messages[0]| else 0
    {
      hide Ring, Framed, Framable, Header, HeaderValue;
      length := 0;
      if isMessageBuffer {
        EmptyIffNoMessage();
        if BytesInBuffer() > LENGTH_BYTES {
          ghost var next;
          length, next := ReadHeader();
        }
      }
    }
  }
}
