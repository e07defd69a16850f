/** The bit-banged I2C master of `drv_soft_i2c.c`, on the two wires.

    Both pins are open drain: SDA is low as soon as the master or the slave pulls it low.
    Every change of a wire is seen by a decoder that knows only the rules of the bus
    (UM10204, sections 3.1.3 and 3.1.4).  The slave may pull SDA low whenever it is its
    turn, as it likes; the clock is not stretched. */
module SoftI2c {

  type byte = x: int | 0 <= x < 0x100

  const MAX_WAIT: nat := 10000

  datatype Symbol = Start | Stop | Bit(level: bool)

  // ------------------------------------------------------------- the decoder

  datatype Wires = Wires(scl: bool, sda: bool)

  /** `pending`: SCL has risen and SDA has not changed since. */
  datatype Decoder = Decoder(wires: Wires, pending: bool, symbols: seq<Symbol>)

  function Observed(d: Decoder, w: Wires): Decoder {
    var symbols :=
      if d.wires.scl && w.scl && d.wires.sda && !w.sda then d.symbols + [Start]
      else if d.wires.scl && w.scl && !d.wires.sda && w.sda then d.symbols + [Stop]
      else if d.wires.scl && !w.scl && d.pending then d.symbols + [Bit(d.wires.sda)]
      else d.symbols;
    Decoder(w, w.scl && (!d.wires.scl || (d.pending && w.sda == d.wires.sda)), symbols)
  }

  /** What a sequence of wire levels says, from an idle bus on. */
  function Decoded(trace: seq<Wires>): Decoder {
    if trace == [] then Decoder(Wires(true, true), false, [])
    else Observed(Decoded(trace[..|trace| - 1]), trace[|trace| - 1])
  }

  // ---------------------------------------------------------- whose turn it is

  datatype Kind = Address | ToSlave | FromSlave

  /** `count` bits of the current byte are over; the ninth is its acknowledge. */
  datatype Phase = Free | Frame(count: nat, kind: Kind, read: bool)

  function NextPhase(p: Phase, x: Symbol): Phase {
    match x
    case Start => Frame(0, Address, false)
    case Stop => Free
    case Bit(b) =>
      if p.Free? then Free
      else if p.count < 8 then p.(count := p.count + 1, read := if p.kind.Address? && p.count == 7 then b else p.read)
      else if b then Free
      else Frame(0, if p.kind.Address? then (if p.read then FromSlave else ToSlave) else p.kind, p.read)
  }

  function PhaseOf(symbols: seq<Symbol>): Phase {
    if symbols == [] then Free else NextPhase(PhaseOf(symbols[..|symbols| - 1]), symbols[|symbols| - 1])
  }

  /** The slave may pull SDA: to acknowledge what it received, and to send. */
  predicate SlavesTurn(p: Phase) {
    p.Frame? && (p.count == 8 <==> !p.kind.FromSlave?)
  }

  lemma PhaseOfNext(symbols: seq<Symbol>, x: Symbol)
    ensures PhaseOf(symbols + [x]) == NextPhase(PhaseOf(symbols), x)
  {
    assert (symbols + [x])[..|symbols|] == symbols;
  }

  // ------------------------------------------------------------------- bytes

  /** What is left of a byte after `i` shifts to the left. */
  function Shifted(b: byte, i: nat): byte {
    if i == 0 then b else Shifted(b, i - 1) * 2 % 0x100
  }

  /** The first `n` bits of a byte on the bus, the most significant one first. */
  function Bits(b: byte, n: nat): (r: seq<Symbol>)
    ensures |r| == n
  {
    if n == 0 then [] else Bits(b, n - 1) + [Bit(Shifted(b, n - 1) >= 0x80)]
  }

  function ByteSymbols(b: byte): (r: seq<Symbol>)
    ensures |r| == 8
  {
    Bits(b, 8)
  }

  /** The number that bits stand for. */
  function Value(bits: seq<Symbol>): nat {
    if bits == [] then 0
    else 2 * Value(bits[..|bits| - 1]) + (if bits[|bits| - 1] == Bit(true) then 1 else 0)
  }

  function Doubled(b: nat, i: nat): nat {
    if i == 0 then b else 2 * Doubled(b, i - 1)
  }

  lemma ShiftOut(s: byte)
    ensures s * 2 % 0x100 == 2 * s - if s >= 0x80 then 0x100 else 0
  {
  }

  lemma ValueOfMore(bits: seq<Symbol>, x: Symbol)
    ensures Value(bits + [x]) == 2 * Value(bits) + if x == Bit(true) then 1 else 0
  {
    assert (bits + [x])[..|bits|] == bits;
  }

  lemma {:induction false} ValueOfBits(b: byte, i: nat)
    ensures 0x100 * Value(Bits(b, i)) + Shifted(b, i) == Doubled(b, i)
  {
    hide Value;
    if i == 0 {
      assert Value([]) == 0 by { ValueOfNothing(); }
    } else {
      ValueOfBits(b, i - 1);
      ShiftOut(Shifted(b, i - 1));
      ValueOfMore(Bits(b, i - 1), Bit(Shifted(b, i - 1) >= 0x80));
    }
  }

  lemma ValueOfNothing()
    ensures Value([]) == 0
  {
  }

  lemma DoubledEightTimes(b: nat)
    ensures Doubled(b, 8) == 0x100 * b
  {
    assert Doubled(b, 1) == 2 * b;
    assert Doubled(b, 3) == 8 * b;
    assert Doubled(b, 5) == 0x20 * b;
    assert Doubled(b, 7) == 0x80 * b;
  }

  lemma ByteRoundTrip(b: byte)
    ensures Value(ByteSymbols(b)) == b
  {
    ValueOfBits(b, 8);
    DoubledEightTimes(b);
  }

  lemma {:induction false} ValueIsBounded(bits: seq<Symbol>, n: nat)
    requires |bits| <= n
    ensures Value(bits) < Doubled(1, n)
  {
    if n > 0 {
      ValueIsBounded(if bits == [] then [] else bits[..|bits| - 1], n - 1);
    }
  }

  predicate AllBits(s: seq<Symbol>) { forall i :: 0 <= i < |s| ==> s[i].Bit? }

  /** Eight bits are the bits of the byte that they stand for; `rest` is what comes behind
      the first `i` of them. */
  lemma {:induction false} BitsOfValue(bits: seq<Symbol>, i: nat, b: byte, rest: nat)
    requires |bits| == i && AllBits(bits) && rest < 0x100
    requires Doubled(b, i) == 0x100 * Value(bits) + rest
    ensures Bits(b, i) == bits && Shifted(b, i) == rest
  {
    if i > 0 {
      var before, last := bits[..i - 1], bits[i - 1];
      var front := (if last == Bit(true) then 0x80 else 0) + rest / 2;
      assert Doubled(b, i - 1) == 0x100 * Value(before) + front;
      BitsOfValue(before, i - 1, b, front);
      ShiftOut(front);
      assert bits == before + [last];
    }
  }

  lemma BitsRoundTrip(bits: seq<Symbol>)
    requires |bits| == 8 && AllBits(bits)
    ensures Value(bits) < 0x100 && ByteSymbols(Value(bits)) == bits
  {
    ValueIsBounded(bits, 8);
    DoubledEightTimes(1);
    DoubledEightTimes(Value(bits));
    BitsOfValue(bits, 8, Value(bits), 0);
  }

  // -------------------------------------------------------------- transfers

  /** Bytes that the master sends and the slave acknowledges. */
  function Acked(bytes: seq<byte>): seq<Symbol> {
    if bytes == [] then [] else Acked(bytes[..|bytes| - 1]) + ByteSymbols(bytes[|bytes| - 1]) + [Bit(false)]
  }

  /** The first bytes of `size` that the master receives; it does not acknowledge the last. */
  function Received(bytes: seq<byte>, size: nat): seq<Symbol> {
    if bytes == [] then []
    else Received(bytes[..|bytes| - 1], size) + ByteSymbols(bytes[|bytes| - 1]) + [Bit(|bytes| == size)]
  }

  lemma AckedMore(bytes: seq<byte>, b: byte)
    ensures Acked(bytes + [b]) == Acked(bytes) + ByteSymbols(b) + [Bit(false)]
  {
    assert (bytes + [b])[..|bytes|] == bytes;
  }

  lemma ReceivedMore(bytes: seq<byte>, b: byte, size: nat)
    ensures Received(bytes + [b], size) == Received(bytes, size) + ByteSymbols(b) + [Bit(|bytes| + 1 == size)]
  {
    assert (bytes + [b])[..|bytes|] == bytes;
  }

  lemma {:induction false} PhaseOfBits(symbols: seq<Symbol>, bits: seq<Symbol>)
    requires AllBits(bits) && |bits| <= 8 && PhaseOf(symbols).Frame? && PhaseOf(symbols).count == 0
    ensures var p, n := PhaseOf(symbols), |bits|;
            PhaseOf(symbols + bits) ==
              p.(count := n, read := if n == 8 && p.kind.Address? then bits[7] == Bit(true) else p.read)
  {
    if bits == [] {
      assert symbols + [] == symbols;
    } else {
      var before, last := bits[..|bits| - 1], bits[|bits| - 1];
      PhaseOfBits(symbols, before);
      assert symbols + bits == symbols + before + [last];
      PhaseOfNext(symbols + before, last);
    }
  }

  lemma {:induction false} BitsAreBits(b: byte, n: nat)
    ensures AllBits(Bits(b, n))
  {
    if n > 0 {
      BitsAreBits(b, n - 1);
    }
  }

  /** While the master sends a byte the slave leaves SDA alone; then it may acknowledge. */
  lemma PhaseInByte(symbols: seq<Symbol>, b: byte, n: nat)
    requires n <= 8 && PhaseOf(symbols).Frame? && PhaseOf(symbols).count == 0
    ensures var p := PhaseOf(symbols);
            PhaseOf(symbols + Bits(b, n)) ==
            p.(count := n, read := if n == 8 && p.kind.Address? then b % 2 == 1 else p.read)
  {
    hide PhaseOf, Bits, Shifted;
    BitsAreBits(b, n);
    PhaseOfBits(symbols, Bits(b, n));
    if n == 8 {
      LowestBit(b);
      assert Bits(b, 8) == Bits(b, 7) + [Bit(Shifted(b, 7) >= 0x80)] by { LastBit(b); }
    }
  }

  lemma PhaseAfterByte(symbols: seq<Symbol>, b: byte, ack: bool)
    requires PhaseOf(symbols).Frame? && PhaseOf(symbols).count == 0
    ensures var p := PhaseOf(symbols);
            && PhaseOf(symbols + ByteSymbols(b)) ==
               p.(count := 8, read := if p.kind.Address? then b % 2 == 1 else p.read)
            && PhaseOf(symbols + ByteSymbols(b) + [Bit(!ack)]) ==
               NextPhase(PhaseOf(symbols + ByteSymbols(b)), Bit(!ack))
  {
    hide PhaseOf;
    PhaseInByte(symbols, b, 8);
    PhaseOfNext(symbols + ByteSymbols(b), Bit(!ack));
  }

  lemma LastBit(b: byte)
    ensures Bits(b, 8) == Bits(b, 7) + [Bit(Shifted(b, 7) >= 0x80)]
  {
  }

  /** The last of the eight bits is the parity of the byte, in an address the direction. */
  lemma LowestBit(b: byte)
    ensures Shifted(b, 7) >= 0x80 <==> b % 2 == 1
  {
    ByteRoundTrip(b);
    assert ByteSymbols(b)[..7] == Bits(b, 7);
    assert ByteSymbols(b)[7] == Bit(Shifted(b, 7) >= 0x80);
  }

  /** The first byte of a transfer: the upper seven bits say to whom, the last one which way. */
  function WriteAddress(addr: byte): (r: byte)
    ensures r / 2 == addr / 2 && r % 2 == 0
  {
    addr - addr % 2
  }

  function ReadAddress(addr: byte): (r: byte)
    ensures r / 2 == addr / 2 && r % 2 == 1
  {
    addr - addr % 2 + 1
  }

  /** The eight bits behind position `from` of the wires call the device of `addr`. */
  ghost predicate Calls(symbols: seq<Symbol>, from: nat, addr: byte, read: bool) {
    && from + 8 <= |symbols|
    && Value(symbols[from..from + 8]) / 2 == addr / 2
    && (Value(symbols[from..from + 8]) % 2 == 1 <==> read)
  }

  lemma FirstByteCalls(before: seq<Symbol>, first: byte, rest: seq<Symbol>, addr: byte, read: bool)
    requires first / 2 == addr / 2 && (first % 2 == 1 <==> read)
    ensures Calls(before + (ByteSymbols(first) + rest), |before|, addr, read)
  {
    hide ByteSymbols, Value;
    var symbols := before + (ByteSymbols(first) + rest);
    assert symbols[|before|..|before| + 8] == ByteSymbols(first);
    ByteRoundTrip(first);
  }

  /** The memory address as bytes, the high byte first. */
  function MemoryBytes(memAddr: nat, memSize: nat): (r: seq<byte>)
    ensures |r| == memSize
  {
    if memSize == 0 then [] else MemoryBytes(memAddr / 0x100, memSize - 1) + [memAddr % 0x100]
  }

  /** A shift to the right by `n` bytes. */
  function ShiftedBytes(memAddr: nat, n: nat): nat {
    if n == 0 then memAddr else ShiftedBytes(memAddr / 0x100, n - 1)
  }

  lemma {:induction false} MemoryByte(memAddr: nat, memSize: nat, index: nat)
    requires index < memSize
    ensures MemoryBytes(memAddr, memSize)[index] == ShiftedBytes(memAddr, memSize - index - 1) % 0x100
  {
    if index < memSize - 1 {
      MemoryByte(memAddr / 0x100, memSize - 1, index);
    }
  }

  /** The number that bytes stand for, the high byte first. */
  function BigEndian(bytes: seq<byte>): nat {
    if bytes == [] then 0 else 0x100 * BigEndian(bytes[..|bytes| - 1]) + bytes[|bytes| - 1]
  }

  function Capacity(memSize: nat): nat {
    if memSize == 0 then 1 else 0x100 * Capacity(memSize - 1)
  }

  /** So many memory addresses there are. */
  lemma Capacities()
    ensures Capacity(0) == 1 && Capacity(1) == 0x100 && Capacity(2) == 0x1_0000
    ensures Capacity(3) == 0x100_0000 && Capacity(4) == 0x1_0000_0000
  {
    assert Capacity(2) == 0x100 * Capacity(1);
    assert Capacity(3) == 0x100 * Capacity(2);
  }

  lemma {:induction false} MemoryAddressRoundTrip(memAddr: nat, memSize: nat)
    requires memAddr < Capacity(memSize)
    ensures BigEndian(MemoryBytes(memAddr, memSize)) == memAddr
  {
    if memSize > 0 {
      MemoryAddressRoundTrip(memAddr / 0x100, memSize - 1);
      var bytes := MemoryBytes(memAddr, memSize);
      assert bytes[..|bytes| - 1] == MemoryBytes(memAddr / 0x100, memSize - 1);
    }
  }

  lemma {:induction false} AckedTogether(xs: seq<byte>, ys: seq<byte>)
    ensures Acked(xs + ys) == Acked(xs) + Acked(ys)
  {
    hide ByteSymbols;
    if ys == [] {
      assert xs + ys == xs;
    } else {
      var front, last := ys[..|ys| - 1], ys[|ys| - 1];
      AckedTogether(xs, front);
      assert (xs + ys)[..|xs + ys| - 1] == xs + front && (xs + ys)[|xs + ys| - 1] == last;
      assert Acked(xs) + Acked(ys) == Acked(xs) + Acked(front) + ByteSymbols(last) + [Bit(false)];
    }
  }

  /** The bus expects a byte from the master, and the slave is listening. */
  predicate Listening(p: Phase) { p.Frame? && p.count == 0 && !p.kind.FromSlave? }

  predicate Sending(p: Phase) { p.Frame? && p.count == 0 && p.kind.FromSlave? }

  /** Every byte is acknowledged. */
  ghost predicate AcksAll(slave: seq<Symbol> -> bool, before: seq<Symbol>, bytes: seq<byte>) {
    forall k :: 0 <= k < |bytes| ==> Acks(slave, before, bytes, k)
  }

  predicate Acks(slave: seq<Symbol> -> bool, before: seq<Symbol>, bytes: seq<byte>, k: nat)
    requires k < |bytes|
  {
    !slave(before + Acked(bytes[..k]) + ByteSymbols(bytes[k]))
  }

  /** The master sends the bytes up to one that is not acknowledged, and stops. */
  function CutOff(bytes: seq<byte>, k: nat): seq<Symbol>
    requires k < |bytes|
  {
    Acked(bytes[..k]) + ByteSymbols(bytes[k]) + [Stop]
  }

  // ------------------------------------------------------------- the two wires

  class Bus {
    /** What the slave would put on SDA after what it has seen; false pulls SDA low. */
    const slave: seq<Symbol> -> bool
    var scl: bool
    var latch: bool       // the output latch of the SDA pin
    var output: bool      // the SDA pin is an output
    var slaveSda: bool    // the slave changes SDA only while SCL is low
    var seen: Decoder
    ghost var trace: seq<Wires>

    function Sda(): bool
      reads `latch, `output, `slaveSda
    {
      (output ==> latch) && slaveSda
    }

    function Drive(symbols: seq<Symbol>): bool {
      SlavesTurn(PhaseOf(symbols)) ==> slave(symbols)
    }

    ghost predicate Valid()
      reads this
    {
      && seen == Decoded(trace) && seen.wires == Wires(scl, Sda())
      && (!scl ==> slaveSda == Drive(seen.symbols))
    }

    /** i2c_soft_init */
    constructor (slave: seq<Symbol> -> bool)
      ensures Valid() && Idle() && slaveSda && seen.symbols == [] && this.slave == slave
    {
      this.slave := slave;
      scl, latch, output, slaveSda := true, true, true, true;
      trace := [];
      seen := Decoder(Wires(true, true), false, []);
    }

    /** Between transfers. */
    ghost predicate Idle()
      reads this
    {
      Valid() && scl && latch
    }

    /** Within a transfer, between two bits. */
    ghost predicate Low()
      reads this
    {
      Valid() && !scl
    }

    method Observe()
      requires seen == Decoded(trace)
      modifies `seen, `trace
      ensures seen == Decoded(trace) == Observed(old(seen), Wires(scl, Sda()))
    {
      seen := Observed(seen, Wires(scl, Sda()));
      assert (trace + [Wires(scl, Sda())])[..|trace|] == trace;
      trace := trace + [Wires(scl, Sda())];
    }

    method SclHigh()
      requires Valid()
      modifies `scl, `seen, `trace
      ensures Valid() && scl && seen.symbols == old(seen.symbols)
      ensures !old(scl) ==> seen.pending
    {
      hide Decoded;
      scl := true;
      Observe();
    }

    /** A bit is over when SCL falls; then the slave may change SDA. */
    method SclLow()
      requires Valid() && scl
      modifies `scl, `seen, `trace, `slaveSda
      ensures Low() && seen.symbols == old(seen.symbols) + if old(seen.pending) then [Bit(old(Sda()))] else []
    {
      hide Decoded, PhaseOf;
      scl := false;
      Observe();
      slaveSda := Drive(seen.symbols);
      Observe();
    }

    /** I2C_SDA_H and I2C_SDA_L */
    method SetSda(level: bool)
      requires Valid()
      modifies `latch, `seen, `trace
      ensures Valid() && latch == level
      ensures seen.symbols == old(seen.symbols) +
                (if scl && old(Sda()) && !Sda() then [Start] else if scl && !old(Sda()) && Sda() then [Stop] else [])
      ensures seen.pending ==> old(seen.pending) && Sda() == old(Sda())
    {
      hide Decoded, PhaseOf;
      latch := level;
      Observe();
    }

    /** i2c_sda_config_out and i2c_sda_config_in */
    method ConfigSda(out: bool)
      requires Valid() && (scl ==> latch)
      modifies `output, `seen, `trace
      ensures Valid() && output == out && seen.symbols == old(seen.symbols)
    {
      hide Decoded, PhaseOf;
      output := out;
      Observe();
    }

    // ------------------------------------------------------- parts of a transfer

    /** i2c_start, at the start of a transfer or again within one. */
    method I2cStart()
      requires Idle() || Low()
      requires slaveSda
      modifies `scl, `latch, `output, `slaveSda, `seen, `trace
      ensures Low() && seen.symbols == old(seen.symbols) + [Start]
    {
      hide Decoded, PhaseOf;
      ConfigSda(true);
      SetSda(true);
      SclHigh();
      SetSda(false);
      SclLow();
    }

    /** i2c_stop: the stop is on the wires exactly if the slave does not hold SDA. */
    method I2cStop()
      requires Low()
      modifies `scl, `latch, `output, `seen, `trace
      ensures Idle() && seen.symbols == old(seen.symbols) + if slaveSda then [Stop] else []
    {
      hide Decoded, PhaseOf;
      ConfigSda(true);
      SetSda(false);
      SclHigh();
      SetSda(true);
    }

    /** One bit from the master. */
    method ClockOut(level: bool)
      requires Low() && output && slaveSda
      modifies `scl, `latch, `slaveSda, `seen, `trace
      ensures Low() && seen.symbols == old(seen.symbols) + [Bit(level)]
    {
      hide Decoded, PhaseOf;
      SetSda(level);
      SclHigh();
      SclLow();
    }

    /** One bit from the slave. */
    method ClockIn() returns (level: bool)
      requires Low() && !output
      modifies `scl, `slaveSda, `seen, `trace
      ensures Low() && level == old(slaveSda) && seen.symbols == old(seen.symbols) + [Bit(level)]
    {
      hide Decoded, PhaseOf;
      SclHigh();
      level := Sda();
      SclLow();
    }

    /** i2c_idle_check; `looks` counts how often it finds SDA low. */
    method IdleCheck() returns (ok: bool, ghost looks: nat)
      requires Idle()
      modifies `output, `seen, `trace
      ensures Idle() && seen.symbols == old(seen.symbols) && ok == slaveSda && !output
      ensures looks == if ok then 0 else MAX_WAIT + 1
    {
      hide Decoded, PhaseOf;
      ConfigSda(false);
      var waitTime := 0;
      looks := 0;
      while !Sda()
        invariant looks == waitTime <= MAX_WAIT && !output
        invariant waitTime > 0 ==> !Sda()
        decreases MAX_WAIT - waitTime
      {
        waitTime, looks := waitTime + 1, looks + 1;
        if waitTime > MAX_WAIT {
          return false, looks;
        }
      }
      ok := true;
    }

    /** i2c_send_byte */
    method SendByte(b: byte)
      requires Low() && PhaseOf(seen.symbols).Frame? && PhaseOf(seen.symbols).count == 0
      requires !PhaseOf(seen.symbols).kind.FromSlave?
      modifies `scl, `latch, `output, `slaveSda, `seen, `trace
      ensures Low() && seen.symbols == old(seen.symbols) + ByteSymbols(b)
    {
      hide Decoded, PhaseOf, Bits;
      ConfigSda(true);
      ghost var before := seen.symbols;
      var left: int := b;
      var index := 0;
      NoBits(b);
      while index < 8
        invariant index <= 8 && Low() && output && seen.symbols == before + Bits(b, index) && left == Shifted(b, index)
      {
        PhaseInByte(before, b, index);
        ClockOut(left >= 0x80);
        ShiftOut(left);
        left := left * 2 % 0x100;
        MoreBits(b, index);
        index := index + 1;
      }
    }

    /** i2c_wait_ack: without an acknowledge there is no ninth clock. */
    method WaitAck() returns (ok: bool, ghost looks: nat)
      requires Low()
      modifies `scl, `output, `slaveSda, `seen, `trace
      ensures Low() && ok == !old(slaveSda)
      ensures seen.symbols == old(seen.symbols) + if ok then [Bit(false)] else []
      ensures !ok ==> slaveSda
      ensures looks == if ok then 0 else MAX_WAIT + 1
    {
      hide Decoded, PhaseOf;
      ConfigSda(false);
      var waitTime := 0;
      looks := 0;
      while Sda()
        invariant looks == waitTime <= MAX_WAIT && !output
        invariant waitTime > 0 ==> Sda()
        decreases MAX_WAIT - waitTime
      {
        waitTime, looks := waitTime + 1, looks + 1;
        if waitTime > MAX_WAIT {
          return false, looks;
        }
      }
      var _ := ClockIn();
      ok := true;
    }

    /** i2c_read_byte, with i2c_send_ack or i2c_send_nack at its end. */
    method ReadByte(ack: bool) returns (value: byte)
      requires Low() && PhaseOf(seen.symbols).Frame? && PhaseOf(seen.symbols).count == 0
      requires PhaseOf(seen.symbols).kind.FromSlave?
      modifies `scl, `latch, `output, `slaveSda, `seen, `trace
      ensures Low() && seen.symbols == old(seen.symbols) + ByteSymbols(value) + [Bit(!ack)]
      ensures SentBy(slave, old(seen.symbols), value)
    {
      hide Decoded, PhaseOf, ByteSymbols, Value, AllBits, SentBits;
      ConfigSda(false);
      ghost var before, bits := seen.symbols, [];
      value := 0;
      var index := 0;
      NothingSent(slave, before);
      while index < 8
        invariant index == |bits| <= 8 && AllBits(bits) && SentBits(slave, before, bits)
        invariant Low() && !output && seen.symbols == before + bits
        invariant value == if index < 8 then 2 * Value(bits) else Value(bits)
      {
        PhaseOfBits(before, bits);
        ValueIsSmall(bits);
        var level := ClockIn();
        OneMoreBit(slave, before, bits, level);
        ValueIsSmall(bits + [Bit(level)]);
        value := value + if level then 1 else 0;
        if index < 7 {
          value := value * 2 % 0x100;
        }
        bits := bits + [Bit(level)];
        assert before + bits == seen.symbols;
        index := index + 1;
      }
      BitsRoundTrip(bits);
      PhaseOfBits(before, bits);
      ConfigSda(true);
      ClockOut(!ack);
    }

    /** A byte and its acknowledge; without one, the transfer is stopped. */
    method SendAcked(b: byte) returns (ok: bool)
      requires Low() && Listening(PhaseOf(seen.symbols))
      modifies `scl, `latch, `output, `slaveSda, `seen, `trace
      ensures ok == !slave(old(seen.symbols) + ByteSymbols(b))
      ensures ok ==> Low() && seen.symbols == old(seen.symbols) + ByteSymbols(b) + [Bit(false)]
      ensures ok ==> if old(PhaseOf(seen.symbols).kind).Address? && b % 2 == 1 then Sending(PhaseOf(seen.symbols))
                     else Listening(PhaseOf(seen.symbols)) && PhaseOf(seen.symbols).kind.ToSlave?
      ensures !ok ==> Idle() && slaveSda && seen.symbols == old(seen.symbols) + ByteSymbols(b) + [Stop]
    {
      hide Decoded, PhaseOf, ByteSymbols;
      ghost var before := seen.symbols;
      SendByte(b);
      PhaseAfterByte(before, b, true);
      ghost var looks;
      ok, looks := WaitAck();
      if !ok {
        I2cStop();
      }
    }

    /** The data of a write. */
    method SendAll(bytes: seq<byte>) returns (ok: bool, ghost k: nat)
      requires Low() && Listening(PhaseOf(seen.symbols)) && PhaseOf(seen.symbols).kind.ToSlave?
      modifies `scl, `latch, `output, `slaveSda, `seen, `trace
      ensures ok <==> AcksAll(slave, old(seen.symbols), bytes)
      ensures ok ==> Low() && seen.symbols == old(seen.symbols) + Acked(bytes)
      ensures ok ==> Listening(PhaseOf(seen.symbols)) && PhaseOf(seen.symbols).kind.ToSlave?
      ensures !ok ==> Idle() && slaveSda && k < |bytes| && seen.symbols == old(seen.symbols) + CutOff(bytes, k)
    {
      hide Decoded, PhaseOf, ByteSymbols, Low, Acks;
      ghost var before := seen.symbols;
      var index := 0;
      k := 0;
      NothingAcked(before);
      while index < |bytes|
        invariant index <= |bytes| && Low() && seen.symbols == before + Acked(bytes[..index])
        invariant Listening(PhaseOf(seen.symbols)) && PhaseOf(seen.symbols).kind.ToSlave?
        invariant forall j :: 0 <= j < index ==> Acks(slave, before, bytes, j)
      {
        ok := SendAcked(bytes[index]);
        AcksNext(slave, before, bytes, index);
        if !ok {
          k := index;
          return;
        }
        index := index + 1;
      }
      assert bytes[..index] == bytes;
      ok := true;
    }

    /** The memory address of a memory transfer. */
    method SendMemoryAddress(memAddr: nat, memSize: nat) returns (ok: bool, ghost k: nat)
      requires Low() && Listening(PhaseOf(seen.symbols)) && PhaseOf(seen.symbols).kind.ToSlave?
      modifies `scl, `latch, `output, `slaveSda, `seen, `trace
      ensures var bytes := MemoryBytes(memAddr, memSize);
              && (ok <==> AcksAll(slave, old(seen.symbols), bytes))
              && (ok ==> Low() && seen.symbols == old(seen.symbols) + Acked(bytes))
              && (ok ==> Listening(PhaseOf(seen.symbols)) && PhaseOf(seen.symbols).kind.ToSlave?)
              && (!ok ==> Idle() && slaveSda && k < |bytes| && seen.symbols == old(seen.symbols) + CutOff(bytes, k))
    {
      hide Decoded, PhaseOf, ByteSymbols, Low, Acks, MemoryBytes, ShiftedBytes;
      ghost var before, bytes := seen.symbols, MemoryBytes(memAddr, memSize);
      var index := 0;
      k := 0;
      NothingAcked(before);
      while index < memSize
        invariant index <= memSize && Low() && seen.symbols == before + Acked(bytes[..index])
        invariant Listening(PhaseOf(seen.symbols)) && PhaseOf(seen.symbols).kind.ToSlave?
        invariant forall j :: 0 <= j < index ==> Acks(slave, before, bytes, j)
      {
        MemoryByte(memAddr, memSize, index);
        ok := SendAcked(ShiftedBytes(memAddr, memSize - index - 1) % 0x100);
        AcksNext(slave, before, bytes, index);
        if !ok {
          k := index;
          return;
        }
        index := index + 1;
      }
      assert bytes[..index] == bytes;
      ok := true;
    }

    /** The data of a read: every byte but the last is acknowledged. */
    method ReceiveAll(size: nat) returns (data: seq<byte>)
      requires Low() && Sending(PhaseOf(seen.symbols))
      modifies `scl, `latch, `output, `slaveSda, `seen, `trace
      ensures Low() && |data| == size && seen.symbols == old(seen.symbols) + Received(data, size)
      ensures SentAll(slave, old(seen.symbols), data, size)
      ensures if size == 0 then seen.symbols == old(seen.symbols) else PhaseOf(seen.symbols).Free?
    {
      hide Decoded, PhaseOf, SentAll, Low, Received;
      ghost var before := seen.symbols;
      data := [];
      var index := 0;
      NothingReceived(slave, before, size);
      while index < size
        invariant index == |data| <= size && Low() && seen.symbols == before + Received(data, size)
        invariant if index < size || size == 0 then Sending(PhaseOf(seen.symbols)) else PhaseOf(seen.symbols).Free?
        invariant SentAll(slave, before, data, size)
      {
        var value := ReceiveNext(index != size - 1);
        SentNext(slave, before, data, size, value);
        data := data + [value];
        index := index + 1;
      }
      assert size == 0 ==> data == [];
    }

    method ReceiveNext(ack: bool) returns (value: byte)
      requires Low() && Sending(PhaseOf(seen.symbols))
      modifies `scl, `latch, `output, `slaveSda, `seen, `trace
      ensures Low() && SentBy(slave, old(seen.symbols), value)
      ensures seen.symbols == old(seen.symbols) + (ByteSymbols(value) + [Bit(!ack)])
      ensures if ack then Sending(PhaseOf(seen.symbols)) else PhaseOf(seen.symbols).Free?
    {
      hide Decoded, PhaseOf, ByteSymbols, SentBy;
      ghost var before := seen.symbols;
      value := ReadByte(ack);
      PhaseAfterByte(before, value, ack);
      assert before + ByteSymbols(value) + [Bit(!ack)] == before + (ByteSymbols(value) + [Bit(!ack)]);
    }

    // --------------------------------------------------------------- transfers

    /** i2c_write_device.  With the bus idle, the wires say: a start, the address for writing
        and the data, all acknowledged, and a stop; or, at the first byte without an
        acknowledge, a stop in place of it. */
    method WriteDevice(addr: byte, data: seq<byte>) returns (ok: bool, ghost k: nat)
      requires Idle()
      modifies `scl, `latch, `output, `slaveSda, `seen, `trace
      ensures Idle()
      ensures !old(slaveSda) ==> !ok && seen.symbols == old(seen.symbols)
      ensures old(slaveSda) ==>
                var bytes, before := [WriteAddress(addr)] + data, old(seen.symbols) + [Start];
                && slaveSda && (ok <==> AcksAll(slave, before, bytes))
                && (ok ==> seen.symbols == before + Acked(bytes) + [Stop])
                && (!ok ==> k < |bytes| && seen.symbols == before + CutOff(bytes, k))
      ensures old(slaveSda) ==> Calls(seen.symbols, |old(seen.symbols)| + 1, addr, false)
    {
      hide Decoded, PhaseOf, ByteSymbols, AcksAll, Acked, CutOff, Calls;
      k := 0;
      var idle, _ := IdleCheck();
      if !idle {
        return false, k;
      }
      ghost var before := seen.symbols + [Start];
      ok, k := Open(WriteAddress(addr));
      if ok {
        ok, k := SendAll(data);
        Together(slave, before, [WriteAddress(addr)], data, k);
        k := k + 1;
        if ok {
          I2cStop();
        }
      }
      CutOffAddress(slave, before, WriteAddress(addr), data);
      TransferCalls(before, WriteAddress(addr), data, k, [Stop], addr, false);
    }

    /** A start, or a repeated one, and the address. */
    method Open(address: byte) returns (ok: bool, ghost k: nat)
      requires Idle() || Low()
      requires slaveSda
      modifies `scl, `latch, `output, `slaveSda, `seen, `trace
      ensures var before := old(seen.symbols) + [Start];
              && (ok <==> AcksAll(slave, before, [address]))
              && (ok ==> Low() && seen.symbols == before + Acked([address])
                         && (if address % 2 == 1 then Sending(PhaseOf(seen.symbols))
                             else Listening(PhaseOf(seen.symbols)) && PhaseOf(seen.symbols).kind.ToSlave?))
              && (!ok ==> Idle() && slaveSda && k == 0 && seen.symbols == before + CutOff([address], 0))
    {
      hide Decoded, PhaseOf, ByteSymbols, AcksAll, Acked, CutOff;
      ghost var before := seen.symbols;
      I2cStart();
      PhaseOfNext(before, Start);
      ok := SendAcked(address);
      OneByte(slave, before + [Start], address);
      k := 0;
    }

    /** i2c_read_device.  `stopped`: the stop is on the wires; it is not after a read of
        nothing to which the slave has answered with a first bit of 0. */
    method ReadDevice(addr: byte, size: nat) returns (ok: bool, data: seq<byte>)
      requires Idle()
      modifies `scl, `latch, `output, `slaveSda, `seen, `trace
      ensures Idle()
      ensures !old(slaveSda) ==> !ok && seen.symbols == old(seen.symbols)
      ensures old(slaveSda) ==>
                var address, before := ReadAddress(addr), old(seen.symbols) + [Start];
                var there := before + Acked([address]);
                && (ok <==> AcksAll(slave, before, [address]))
                && (ok ==> ReadTrace(slave, there, data, size, seen.symbols) && slaveSda == Stops(slave, there, size))
                && (!ok ==> seen.symbols == before + CutOff([address], 0) && slaveSda)
      ensures old(slaveSda) ==> Calls(seen.symbols, |old(seen.symbols)| + 1, addr, true)
    {
      hide Decoded, PhaseOf, ByteSymbols, AcksAll, Acked, CutOff, Received, SentAll, Calls;
      data := [];
      var idle, _ := IdleCheck();
      if !idle {
        return false, data;
      }
      ok, data := OpenAndReceive(addr, size);
    }

    /** A start, or a repeated one, the address for reading, and the data. */
    method OpenAndReceive(addr: byte, size: nat) returns (ok: bool, data: seq<byte>)
      requires Idle() || Low()
      requires slaveSda
      modifies `scl, `latch, `output, `slaveSda, `seen, `trace
      ensures Idle()
      ensures var address, before := ReadAddress(addr), old(seen.symbols) + [Start];
              var there := before + Acked([address]);
              && (ok <==> AcksAll(slave, before, [address]))
              && (ok ==> ReadTrace(slave, there, data, size, seen.symbols) && slaveSda == Stops(slave, there, size))
              && (!ok ==> seen.symbols == before + CutOff([address], 0) && slaveSda)
              && Calls(seen.symbols, |before|, addr, true) && before <= seen.symbols
    {
      hide Decoded, PhaseOf, ByteSymbols, AcksAll, Acked, CutOff, Received, SentAll, Calls;
      data := [];
      ghost var before := seen.symbols + [Start];
      ghost var k;
      ok, k := Open(ReadAddress(addr));
      ghost var tail := [];
      if ok {
        data := ReceiveAndStop(size);
        tail := Received(data, size) + if slaveSda then [Stop] else [];
        Associative(before + Acked([ReadAddress(addr)]), Received(data, size), if slaveSda then [Stop] else []);
      }
      TransferCalls(before, ReadAddress(addr), [], 0, tail, addr, true);
      assert [ReadAddress(addr)] + [] == [ReadAddress(addr)];
    }

    method ReceiveAndStop(size: nat) returns (data: seq<byte>)
      requires Low() && Sending(PhaseOf(seen.symbols))
      modifies `scl, `latch, `output, `slaveSda, `seen, `trace
      ensures Idle() && ReadTrace(slave, old(seen.symbols), data, size, seen.symbols)
      ensures slaveSda == Stops(slave, old(seen.symbols), size)
    {
      hide Decoded, PhaseOf, ByteSymbols, Received, SentAll;
      data := ReceiveAll(size);
      I2cStop();
    }

    /** i2c_write_memory */
    method WriteMemory(addr: byte, memAddr: nat, memSize: nat, data: seq<byte>) returns (ok: bool, ghost k: nat)
      requires Idle() && memSize <= 4
      modifies `scl, `latch, `output, `slaveSda, `seen, `trace
      ensures Idle()
      ensures !old(slaveSda) ==> !ok && seen.symbols == old(seen.symbols)
      ensures old(slaveSda) ==>
                var bytes := [WriteAddress(addr)] + MemoryBytes(memAddr, memSize) + data;
                var before := old(seen.symbols) + [Start];
                && slaveSda && (ok <==> AcksAll(slave, before, bytes))
                && (ok ==> seen.symbols == before + Acked(bytes) + [Stop])
                && (!ok ==> k < |bytes| && seen.symbols == before + CutOff(bytes, k))
      ensures old(slaveSda) ==> Calls(seen.symbols, |old(seen.symbols)| + 1, addr, false)
    {
      hide Decoded, PhaseOf, ByteSymbols, AcksAll, Acked, CutOff, MemoryBytes, Calls;
      k := 0;
      var idle, _ := IdleCheck();
      if !idle {
        return false, k;
      }
      ghost var before, head := seen.symbols + [Start], [WriteAddress(addr)] + MemoryBytes(memAddr, memSize);
      ok, k := OpenMemory(addr, memAddr, memSize);
      if ok {
        ok, k := SendAll(data);
        Together(slave, before, head, data, k);
        k := k + |head|;
        if ok {
          I2cStop();
        }
      } else {
        CutOffHead(slave, before, head, data, k);
      }
      assert head + data == [WriteAddress(addr)] + (MemoryBytes(memAddr, memSize) + data);
      TransferCalls(before, WriteAddress(addr), MemoryBytes(memAddr, memSize) + data, k, [Stop], addr, false);
    }

    /** A start, the address for writing and the memory address. */
    method OpenMemory(addr: byte, memAddr: nat, memSize: nat) returns (ok: bool, ghost k: nat)
      requires Idle() && slaveSda
      modifies `scl, `latch, `output, `slaveSda, `seen, `trace
      ensures var bytes, before := [WriteAddress(addr)] + MemoryBytes(memAddr, memSize), old(seen.symbols) + [Start];
              && (ok <==> AcksAll(slave, before, bytes))
              && (ok ==> Low() && slaveSda && seen.symbols == before + Acked(bytes)
                         && Listening(PhaseOf(seen.symbols)) && PhaseOf(seen.symbols).kind.ToSlave?)
              && (!ok ==> Idle() && slaveSda && k < |bytes| && seen.symbols == before + CutOff(bytes, k))
    {
      hide Decoded, PhaseOf, ByteSymbols, AcksAll, Acked, CutOff, MemoryBytes;
      ghost var before := seen.symbols + [Start];
      ok, k := Open(WriteAddress(addr));
      if ok {
        ok, k := SendMemoryAddress(memAddr, memSize);
        Together(slave, before, [WriteAddress(addr)], MemoryBytes(memAddr, memSize), k);
        k := k + 1;
      } else {
        CutOffAddress(slave, before, WriteAddress(addr), MemoryBytes(memAddr, memSize));
      }
    }

    /** i2c_read_memory */
    method ReadMemory(addr: byte, memAddr: nat, memSize: nat, size: nat)
      returns (ok: bool, data: seq<byte>, ghost k: nat)
      requires Idle() && memSize <= 4
      modifies `scl, `latch, `output, `slaveSda, `seen, `trace
      ensures Idle()
      ensures !old(slaveSda) ==> !ok && seen.symbols == old(seen.symbols)
      ensures old(slaveSda) ==>
                var head, before := [WriteAddress(addr)] + MemoryBytes(memAddr, memSize), old(seen.symbols) + [Start];
                var again, address := before + Acked(head) + [Start], ReadAddress(addr);
                var there := again + Acked([address]);
                && (ok <==> AcksAll(slave, before, head) && AcksAll(slave, again, [address]))
                && (ok ==> ReadTrace(slave, there, data, size, seen.symbols) && slaveSda == Stops(slave, there, size))
                && (!ok && AcksAll(slave, before, head) ==> seen.symbols == again + CutOff([address], 0) && slaveSda)
                && (!AcksAll(slave, before, head) ==>
                      k < |head| && seen.symbols == before + CutOff(head, k) && slaveSda)
      ensures old(slaveSda) ==> Calls(seen.symbols, |old(seen.symbols)| + 1, addr, false)
      ensures old(slaveSda) ==>
                var head := [WriteAddress(addr)] + MemoryBytes(memAddr, memSize);
                var before := old(seen.symbols) + [Start];
                AcksAll(slave, before, head) ==>
                  Calls(seen.symbols, |before + Acked(head)| + 1, addr, true)
    {
      hide Decoded, PhaseOf, ByteSymbols, AcksAll, Acked, CutOff, MemoryBytes, Received, SentAll, Calls;
      data, k := [], 0;
      var idle, _ := IdleCheck();
      if !idle {
        return false, data, k;
      }
      ghost var before, bytes := seen.symbols + [Start], MemoryBytes(memAddr, memSize);
      ok, k := OpenMemory(addr, memAddr, memSize);
      ghost var there := before + Acked([WriteAddress(addr)] + bytes);
      ghost var wasOpened := ok;
      if ok {
        ok, data := OpenAndReceive(addr, size);
      }
      ghost var tail := if wasOpened then seen.symbols[|there|..] else [];
      assert wasOpened ==> there + tail == seen.symbols;
      TransferCalls(before, WriteAddress(addr), bytes, k, tail, addr, false);
    }
  }

  /** After the address the wires carry the data, and a stop unless the slave prevents it. */
  ghost predicate ReadTrace(slave: seq<Symbol> -> bool, there: seq<Symbol>, data: seq<byte>, size: nat,
                            symbols: seq<Symbol>) {
    && |data| == size && SentAll(slave, there, data, size)
    && symbols == there + Received(data, size) + if Stops(slave, there, size) then [Stop] else []
  }

  predicate Stops(slave: seq<Symbol> -> bool, there: seq<Symbol>, size: nat) {
    size > 0 || slave(there)
  }

  /** What a caller can look at: a read ends with a stop, whatever the slave, exactly if it is
      a read of at least one byte. */
  lemma StopIsSureOfANonemptyRead(there: seq<Symbol>, size: nat)
    ensures (forall slave: seq<Symbol> -> bool :: Stops(slave, there, size)) <==> size > 0
  {
    if size == 0 {
      var holding := (s: seq<Symbol>) => false;
      assert !Stops(holding, there, size);
    }
  }

  lemma OneByte(slave: seq<Symbol> -> bool, before: seq<Symbol>, b: byte)
    ensures AcksAll(slave, before, [b]) <==> !slave(before + ByteSymbols(b))
    ensures before + ByteSymbols(b) + [Bit(false)] == before + Acked([b])
    ensures before + ByteSymbols(b) + [Stop] == before + CutOff([b], 0)
  {
    hide ByteSymbols;
    AcksNext(slave, before, [b], 0);
    assert [b][..1] == [b];
    assert before + Acked([b][..0]) == before;
  }

  /** Bytes sent in two goes. */
  lemma Together(slave: seq<Symbol> -> bool, before: seq<Symbol>, xs: seq<byte>, ys: seq<byte>, k: nat)
    ensures before + Acked(xs) + Acked(ys) == before + Acked(xs + ys)
    ensures AcksAll(slave, before, xs) ==> (AcksAll(slave, before + Acked(xs), ys) <==> AcksAll(slave, before, xs + ys))
    ensures k < |ys| ==> before + Acked(xs) + CutOff(ys, k) == before + CutOff(xs + ys, |xs| + k)
  {
    hide Acked, AcksAll, CutOff;
    AckedTogether(xs, ys);
    assert before + Acked(xs) + Acked(ys) == before + (Acked(xs) + Acked(ys));
    AcksAllTogether(slave, before, xs, ys);
    if k < |ys| {
      CutOffLater(xs, ys, k);
      assert before + Acked(xs) + CutOff(ys, k) == before + (Acked(xs) + CutOff(ys, k));
    }
  }

  lemma AcksAllTogether(slave: seq<Symbol> -> bool, before: seq<Symbol>, xs: seq<byte>, ys: seq<byte>)
    ensures AcksAll(slave, before, xs + ys) <==> AcksAll(slave, before, xs) && AcksAll(slave, before + Acked(xs), ys)
  {
    hide Acked, Acks;
    forall j | 0 <= j < |xs|
      ensures Acks(slave, before, xs + ys, j) == Acks(slave, before, xs, j)
    {
      AcksInPart(slave, before, xs, ys, j);
    }
    forall j | 0 <= j < |ys|
      ensures Acks(slave, before, xs + ys, |xs| + j) == Acks(slave, before + Acked(xs), ys, j)
    {
      AcksInPart(slave, before, xs, ys, |xs| + j);
    }
    forall j | |xs| <= j < |xs + ys|
      ensures Acks(slave, before, xs + ys, j) == Acks(slave, before + Acked(xs), ys, j - |xs|)
    {
      AcksInPart(slave, before, xs, ys, j);
    }
  }

  lemma CutOffLater(xs: seq<byte>, ys: seq<byte>, k: nat)
    requires k < |ys|
    ensures Acked(xs) + CutOff(ys, k) == CutOff(xs + ys, |xs| + k)
  {
    hide Acked, ByteSymbols, CutOff;
    var tail := ByteSymbols(ys[k]) + [Stop];
    CutOffParts(ys, k);
    CutOffParts(xs + ys, |xs| + k);
    AckedTogether(xs, ys[..k]);
    SplitBehind(xs, ys, k);
    Associative(Acked(xs), Acked(ys[..k]), tail);
  }

  lemma SplitBehind(xs: seq<byte>, ys: seq<byte>, k: nat)
    requires k < |ys|
    ensures (xs + ys)[..|xs| + k] == xs + ys[..k] && (xs + ys)[|xs| + k] == ys[k]
  {
  }

  lemma CutOffParts(bytes: seq<byte>, k: nat)
    requires k < |bytes|
    ensures CutOff(bytes, k) == Acked(bytes[..k]) + (ByteSymbols(bytes[k]) + [Stop])
  {
    hide Acked, ByteSymbols;
    Associative(Acked(bytes[..k]), ByteSymbols(bytes[k]), [Stop]);
  }

  lemma Associative(a: seq<Symbol>, b: seq<Symbol>, c: seq<Symbol>)
    ensures a + (b + c) == a + b + c
  {
  }

  lemma AcksInPart(slave: seq<Symbol> -> bool, before: seq<Symbol>, xs: seq<byte>, ys: seq<byte>, j: nat)
    requires j < |xs + ys|
    ensures j < |xs| ==> Acks(slave, before, xs + ys, j) == Acks(slave, before, xs, j)
    ensures j >= |xs| ==> Acks(slave, before, xs + ys, j) == Acks(slave, before + Acked(xs), ys, j - |xs|)
  {
    hide ByteSymbols;
    if j < |xs| {
      assert (xs + ys)[..j] == xs[..j];
    } else {
      assert (xs + ys)[..j] == xs + ys[..j - |xs|];
      AckedTogether(xs, ys[..j - |xs|]);
      assert before + Acked(xs + ys[..j - |xs|]) == before + Acked(xs) + Acked(ys[..j - |xs|]);
    }
  }

  /** A transfer that is cut off in its first part. */
  lemma CutOffHead(slave: seq<Symbol> -> bool, before: seq<Symbol>, xs: seq<byte>, ys: seq<byte>, k: nat)
    ensures !AcksAll(slave, before, xs) ==> !AcksAll(slave, before, xs + ys)
    ensures k < |xs| ==> CutOff(xs, k) == CutOff(xs + ys, k)
  {
    hide ByteSymbols, Acks;
    forall j | 0 <= j < |xs|
      ensures Acks(slave, before, xs + ys, j) == Acks(slave, before, xs, j)
    {
      AcksInPart(slave, before, xs, ys, j);
    }
    if k < |xs| {
      assert (xs + ys)[..k] == xs[..k];
    }
  }

  lemma CutOffAddress(slave: seq<Symbol> -> bool, before: seq<Symbol>, address: byte, ys: seq<byte>)
    ensures !AcksAll(slave, before, [address]) ==> !AcksAll(slave, before, [address] + ys)
    ensures CutOff([address], 0) == CutOff([address] + ys, 0)
  {
    CutOffHead(slave, before, [address], ys, 0);
  }

  /** Whatever follows a first byte, and wherever the transfer ends, the wires say whom it calls. */
  lemma TransferCalls(before: seq<Symbol>, first: byte, ys: seq<byte>, k: nat, tail: seq<Symbol>, addr: byte,
                      read: bool)
    requires first / 2 == addr / 2 && (first % 2 == 1 <==> read)
    ensures Calls(before + Acked([first] + ys) + tail, |before|, addr, read)
    ensures k < |[first] + ys| ==> Calls(before + CutOff([first] + ys, k), |before|, addr, read)
  {
    hide ByteSymbols, Calls;
    var bytes := [first] + ys;
    AckedHead(first, ys);
    var rest := [Bit(false)] + Acked(ys) + tail;
    assert before + Acked(bytes) + tail == before + (ByteSymbols(first) + rest);
    FirstByteCalls(before, first, rest, addr, read);
    if k < |bytes| {
      var cut := CutOffHeadFirst(first, ys, k);
      FirstByteCalls(before, first, cut, addr, read);
    }
  }

  lemma AckedHead(first: byte, ys: seq<byte>)
    ensures Acked([first] + ys) == ByteSymbols(first) + [Bit(false)] + Acked(ys)
  {
    hide ByteSymbols;
    AckedTogether([first], ys);
    AckedMore([], first);
    assert [] + [first] == [first];
  }

  lemma CutOffHeadFirst(first: byte, ys: seq<byte>, k: nat) returns (rest: seq<Symbol>)
    requires k < |[first] + ys|
    ensures CutOff([first] + ys, k) == ByteSymbols(first) + rest
  {
    hide ByteSymbols;
    var bytes := [first] + ys;
    if k == 0 {
      rest := [Stop];
      assert bytes[..0] == [];
    } else {
      assert bytes[..k] == [first] + ys[..k - 1];
      AckedHead(first, ys[..k - 1]);
      rest := [Bit(false)] + Acked(ys[..k - 1]) + ByteSymbols(bytes[k]) + [Stop];
    }
  }

  lemma NothingReceived(slave: seq<Symbol> -> bool, before: seq<Symbol>, size: nat)
    ensures before + Received([], size) == before && SentAll(slave, before, [], size)
  {
  }

  /** Each byte is what the slave sent when it was its turn. */
  ghost predicate SentAll(slave: seq<Symbol> -> bool, before: seq<Symbol>, data: seq<byte>, size: nat) {
    forall k :: 0 <= k < |data| ==> SentBy(slave, before + Received(data[..k], size), data[k])
  }

  lemma SentNext(slave: seq<Symbol> -> bool, before: seq<Symbol>, data: seq<byte>, size: nat, value: byte)
    requires SentAll(slave, before, data, size) && SentBy(slave, before + Received(data, size), value)
    ensures SentAll(slave, before, data + [value], size)
    ensures before + Received(data, size) + (ByteSymbols(value) + [Bit(|data| + 1 == size)]) ==
            before + Received(data + [value], size)
  {
    hide SentBy, ByteSymbols, Received;
    ReceivedMore(data, value, size);
    var more, last := data + [value], [Bit(|data| + 1 == size)];
    Associative(Received(data, size), ByteSymbols(value), last);
    Associative(before, Received(data, size), ByteSymbols(value) + last);
    forall k | 0 <= k < |more|
      ensures SentBy(slave, before + Received(more[..k], size), more[k])
    {
      if k < |data| {
        assert more[..k] == data[..k];
      } else {
        assert more[..k] == data;
      }
    }
  }

  lemma NothingAcked(before: seq<Symbol>)
    ensures forall bytes: seq<byte> :: before + Acked(bytes[..0]) == before
  {
  }

  lemma AcksNext(slave: seq<Symbol> -> bool, before: seq<Symbol>, bytes: seq<byte>, k: nat)
    requires k < |bytes|
    ensures Acks(slave, before, bytes, k) == !slave(before + Acked(bytes[..k]) + ByteSymbols(bytes[k]))
    ensures before + Acked(bytes[..k]) + ByteSymbols(bytes[k]) + [Bit(false)] == before + Acked(bytes[..k + 1])
    ensures before + Acked(bytes[..k]) + ByteSymbols(bytes[k]) + [Stop] == before + CutOff(bytes, k)
  {
    hide ByteSymbols;
    AckedMore(bytes[..k], bytes[k]);
    assert bytes[..k + 1] == bytes[..k] + [bytes[k]];
  }

  /** The bits are those that the slave put on the wire, one after the other. */
  ghost predicate SentBits(slave: seq<Symbol> -> bool, before: seq<Symbol>, bits: seq<Symbol>) {
    forall i :: 0 <= i < |bits| ==> bits[i] == Bit(slave(before + bits[..i]))
  }

  ghost predicate SentBy(slave: seq<Symbol> -> bool, before: seq<Symbol>, value: byte) {
    SentBits(slave, before, ByteSymbols(value))
  }

  lemma NothingSent(slave: seq<Symbol> -> bool, before: seq<Symbol>)
    ensures SentBits(slave, before, []) && AllBits([]) && Value([]) == 0 && before + [] == before
  {
  }

  lemma OneMoreBit(slave: seq<Symbol> -> bool, before: seq<Symbol>, bits: seq<Symbol>, level: bool)
    requires AllBits(bits) && SentBits(slave, before, bits) && level == slave(before + bits)
    ensures AllBits(bits + [Bit(level)]) && SentBits(slave, before, bits + [Bit(level)])
    ensures Value(bits + [Bit(level)]) == 2 * Value(bits) + if level then 1 else 0
  {
    var more := bits + [Bit(level)];
    ValueOfMore(bits, Bit(level));
    forall i | 0 <= i < |more|
      ensures more[i] == Bit(slave(before + more[..i]))
    {
      assert more[..i] == bits[..i];
      assert bits[..|bits|] == bits;
    }
  }

  lemma ValueIsSmall(bits: seq<Symbol>)
    ensures |bits| < 8 ==> 2 * Value(bits) + 1 < 0x100
  {
    if |bits| < 8 {
      ValueIsBounded(bits, 7);
      assert Doubled(1, 7) == 0x80 by { DoubledEightTimes(1); }
    }
  }

  lemma NoBits(b: byte)
    ensures forall s: seq<Symbol> :: s + Bits(b, 0) == s
    ensures Shifted(b, 0) == b
  {
  }

  lemma MoreBits(b: byte, n: nat)
    ensures forall s: seq<Symbol> :: s + Bits(b, n) + [Bit(Shifted(b, n) >= 0x80)] == s + Bits(b, n + 1)
  {
    assert Bits(b, n + 1) == Bits(b, n) + [Bit(Shifted(b, n) >= 0x80)];
  }

  // ------------------------------------------------------- reading the wires back

  datatype ByteFrame = ByteFrame(value: nat, acknowledged: bool)

  /** Nine bits are a byte and its acknowledge. */
  function Frames(bits: seq<Symbol>): seq<ByteFrame> {
    if |bits| < 9 then []
    else
      var n := |bits| - 9;
      Frames(bits[..n]) + [ByteFrame(Value(bits[n..n + 8]), bits[n + 8] == Bit(false))]
  }

  lemma FrameBehind(bits: seq<Symbol>, b: byte, nack: bool)
    ensures Frames(bits + ByteSymbols(b) + [Bit(nack)]) == Frames(bits) + [ByteFrame(b, !nack)]
  {
    hide ByteSymbols, Value;
    var all, n := bits + ByteSymbols(b) + [Bit(nack)], |bits|;
    assert all[..n] == bits && all[n..n + 8] == ByteSymbols(b) && all[n + 8] == Bit(nack);
    ByteRoundTrip(b);
  }

  /** What a master sends is read off the wires as the bytes it was given. */
  lemma {:induction false} SentBytesAreReadBack(bytes: seq<byte>)
    ensures Frames(Acked(bytes)) == seq(|bytes|, i requires 0 <= i < |bytes| => ByteFrame(bytes[i], true))
  {
    hide ByteSymbols;
    if bytes != [] {
      var before := bytes[..|bytes| - 1];
      SentBytesAreReadBack(before);
      FrameBehind(Acked(before), bytes[|bytes| - 1], false);
    }
  }

  /** What a master receives is read off the wires as the bytes it returns, all of them
      acknowledged but the last. */
  lemma {:induction false} ReceivedBytesAreReadBack(bytes: seq<byte>, size: nat)
    ensures Frames(Received(bytes, size)) ==
            seq(|bytes|, i requires 0 <= i < |bytes| => ByteFrame(bytes[i], i + 1 != size))
  {
    hide ByteSymbols;
    if bytes != [] {
      var before := bytes[..|bytes| - 1];
      ReceivedBytesAreReadBack(before, size);
      FrameBehind(Received(before, size), bytes[|bytes| - 1], |bytes| == size);
    }
  }

  // ------------------------------------------------------------ an ideal memory

  datatype Mode = Off | Addressing | Pointing(left: nat, at: nat) | Writing | Reading

  /** A memory device: its cells, the address counter, and what it has of the current byte. */
  datatype Memory = Memory(cells: map<nat, byte>, pointer: nat, mode: Mode, bits: seq<Symbol>)

  /** Its device address, of seven bits, and the length of its memory addresses. */
  datatype Device = Device(address: nat, memSize: nat)

  function Cell(m: Memory): byte {
    if m.pointer in m.cells then m.cells[m.pointer] else 0xFF
  }

  function ByteDone(d: Device, m: Memory, v: byte, nack: bool): Memory {
    match m.mode
    case Off => m
    case Addressing =>
      m.(mode := if v / 2 != d.address then Off else if v % 2 == 1 then Reading else Pointing(d.memSize, 0))
    case Pointing(left, at) =>
      if left <= 1 then m.(pointer := 0x100 * at + v, mode := Writing)
      else m.(mode := Pointing(left - 1, 0x100 * at + v))
    case Writing => m.(cells := m.cells[m.pointer := v], pointer := m.pointer + 1)
    case Reading => m.(pointer := m.pointer + 1, mode := if nack then Off else Reading)
  }

  function MemoryNext(d: Device, m: Memory, x: Symbol): Memory {
    match x
    case Start => m.(mode := Addressing, bits := [])
    case Stop => m.(mode := Off, bits := [])
    case Bit(b) =>
      if m.mode.Off? then m
      else if |m.bits| < 8 then m.(bits := m.bits + [x])
      else ByteDone(d, m.(bits := []), Value(m.bits) % 0x100, b)
  }

  function MemoryAfter(d: Device, m: Memory, symbols: seq<Symbol>): Memory {
    if symbols == [] then m else MemoryNext(d, MemoryAfter(d, m, symbols[..|symbols| - 1]), symbols[|symbols| - 1])
  }

  /** It acknowledges what is for it, and sends the cell at the address counter. */
  predicate MemoryDrive(d: Device, m: Memory) {
    if |m.bits| == 8 then
      match m.mode
      case Addressing => Value(m.bits) % 0x100 / 2 != d.address
      case Pointing(_, _) => false
      case Writing => false
      case _ => true
    else m.mode.Reading? ==> Shifted(Cell(m), |m.bits|) >= 0x80
  }

  /** The slave on the bus is the memory `m`. */
  ghost predicate IsMemory(slave: seq<Symbol> -> bool, d: Device, m: Memory) {
    forall s :: slave(s) == MemoryDrive(d, MemoryAfter(d, m, s))
  }

  lemma MemoryAfterNext(d: Device, m: Memory, symbols: seq<Symbol>, x: Symbol)
    ensures MemoryAfter(d, m, symbols + [x]) == MemoryNext(d, MemoryAfter(d, m, symbols), x)
  {
    assert (symbols + [x])[..|symbols|] == symbols;
  }

  lemma {:induction false} MemoryAfterBits(d: Device, m: Memory, symbols: seq<Symbol>, bits: seq<Symbol>)
    requires AllBits(bits) && |bits| <= 8
    requires MemoryAfter(d, m, symbols).bits == [] && !MemoryAfter(d, m, symbols).mode.Off?
    ensures MemoryAfter(d, m, symbols + bits) == MemoryAfter(d, m, symbols).(bits := bits)
  {
    hide ByteDone, Value;
    if bits == [] {
      assert symbols + [] == symbols;
    } else {
      var before, last := bits[..|bits| - 1], bits[|bits| - 1];
      MemoryAfterBits(d, m, symbols, before);
      assert symbols + bits == symbols + before + [last];
      MemoryAfterNext(d, m, symbols + before, last);
    }
  }

  /** A whole byte, and whether the memory acknowledges it. */
  lemma MemoryAfterByte(slave: seq<Symbol> -> bool, d: Device, m: Memory, symbols: seq<Symbol>, b: byte, nack: bool)
    requires IsMemory(slave, d, m)
    requires MemoryAfter(d, m, symbols).bits == [] && !MemoryAfter(d, m, symbols).mode.Off?
    ensures MemoryAfter(d, m, symbols + ByteSymbols(b) + [Bit(nack)]) ==
      ByteDone(d, MemoryAfter(d, m, symbols), b, nack)
    ensures var mode := MemoryAfter(d, m, symbols).mode;
            !slave(symbols + ByteSymbols(b)) <==>
              mode.Pointing? || mode.Writing? || (mode.Addressing? && b / 2 == d.address)
  {
    hide MemoryAfter, Bits, ByteDone, Value, Shifted, AllBits;
    BitsAreBits(b, 8);
    MemoryAfterBits(d, m, symbols, ByteSymbols(b));
    ByteRoundTrip(b);
    MemoryAfterNext(d, m, symbols + ByteSymbols(b), Bit(nack));
  }

  function BytesDone(d: Device, m: Memory, bytes: seq<byte>): Memory {
    if bytes == [] then m else ByteDone(d, BytesDone(d, m, bytes[..|bytes| - 1]), bytes[|bytes| - 1], false)
  }

  predicate Takes(m: Memory) { m.bits == [] && (m.mode.Pointing? || m.mode.Writing?) }

  /** A memory that is written to takes every byte. */
  lemma {:induction false} MemoryTakesAll(slave: seq<Symbol> -> bool, d: Device, m: Memory, before: seq<Symbol>,
                                          bytes: seq<byte>)
    requires IsMemory(slave, d, m) && Takes(MemoryAfter(d, m, before))
    ensures AcksAll(slave, before, bytes)
    ensures MemoryAfter(d, m, before + Acked(bytes)) == BytesDone(d, MemoryAfter(d, m, before), bytes)
    ensures Takes(MemoryAfter(d, m, before + Acked(bytes)))
  {
    hide MemoryAfter, ByteSymbols, IsMemory, Acks;
    if bytes == [] {
      assert before + Acked([]) == before;
    } else {
      var front, last, k := bytes[..|bytes| - 1], bytes[|bytes| - 1], |bytes| - 1;
      MemoryTakesAll(slave, d, m, before, front);
      MemoryAfterByte(slave, d, m, before + Acked(front), last, false);
      AcksNext(slave, before, bytes, k);
      assert bytes[..k + 1] == bytes;
      assert bytes == front + [last];
      AcksAllTogether(slave, before, front, [last]);
      OneByte(slave, before + Acked(front), last);
    }
  }

  lemma {:induction false} PointedAt(d: Device, m: Memory, bytes: seq<byte>)
    requires m.mode == Pointing(d.memSize, 0) && 1 <= d.memSize && |bytes| <= d.memSize
    ensures BytesDone(d, m, bytes) ==
            if |bytes| == d.memSize then m.(pointer := BigEndian(bytes), mode := Writing)
            else m.(mode := Pointing(d.memSize - |bytes|, BigEndian(bytes)))
  {
    if bytes != [] {
      PointedAt(d, m, bytes[..|bytes| - 1]);
    }
  }

  /** The bytes are in the cells from the address counter on, and no other cell has changed. */
  lemma {:induction false} Stored(d: Device, m: Memory, bytes: seq<byte>)
    requires m.mode.Writing?
    ensures HasStored(m, BytesDone(d, m, bytes), bytes)
  {
    if bytes != [] {
      var front := bytes[..|bytes| - 1];
      Stored(d, m, front);
      var f, last := BytesDone(d, m, front), bytes[|bytes| - 1];
      StoredNext(m, f, front, last, f.(cells := f.cells[f.pointer := last], pointer := f.pointer + 1));
      assert bytes == front + [last];
    }
  }

  ghost predicate HasStored(m: Memory, n: Memory, bytes: seq<byte>) {
    && n == m.(cells := n.cells, pointer := m.pointer + |bytes|)
    && (forall i :: 0 <= i < |bytes| ==> StoredAt(n.cells, m.pointer, bytes, i))
    && (forall a: nat :: a < m.pointer || m.pointer + |bytes| <= a ==>
          (a in n.cells <==> a in m.cells) && (a in n.cells ==> n.cells[a] == m.cells[a]))
  }

  predicate StoredAt(cells: map<nat, byte>, p: nat, bytes: seq<byte>, i: nat)
    requires i < |bytes|
  {
    p + i in cells && cells[p + i] == bytes[i]
  }

  lemma StoredNext(m: Memory, f: Memory, front: seq<byte>, last: byte, n: Memory)
    requires HasStored(m, f, front) && n == f.(cells := f.cells[f.pointer := last], pointer := f.pointer + 1)
    ensures HasStored(m, n, front + [last])
  {
    forall i | 0 <= i < |front + [last]|
      ensures StoredAt(n.cells, m.pointer, front + [last], i)
    {
      assert i < |front| ==> StoredAt(f.cells, m.pointer, front, i);
    }
  }

  lemma {:induction false} BitsInFront(b: byte, n: nat, i: nat)
    requires i <= n
    ensures Bits(b, n)[..i] == Bits(b, i)
    ensures i < n ==> Bits(b, n)[i] == Bit(Shifted(b, i) >= 0x80)
  {
    hide Shifted;
    if i < n {
      BitsInFront(b, n - 1, i);
      assert Bits(b, n) == Bits(b, n - 1) + [Bit(Shifted(b, n - 1) >= 0x80)];
      assert Bits(b, n)[..i] == Bits(b, n - 1)[..i];
    }
  }

  lemma {:induction false} SameBits(slave: seq<Symbol> -> bool, d: Device, m: Memory, before: seq<Symbol>, v: byte,
                                    i: nat)
    requires IsMemory(slave, d, m) && SentBy(slave, before, v) && i <= 8
    requires MemoryAfter(d, m, before).mode.Reading? && MemoryAfter(d, m, before).bits == []
    ensures Bits(v, i) == Bits(Cell(MemoryAfter(d, m, before)), i)
  {
    hide Shifted, MemoryAfter;
    if i > 0 {
      SameBits(slave, d, m, before, v, i - 1);
      BitsInFront(v, 8, i - 1);
      BitsAreBits(v, i - 1);
      MemoryAfterBits(d, m, before, Bits(v, i - 1));
    }
  }

  /** A byte that is read is the cell at the address counter. */
  lemma MemorySends(slave: seq<Symbol> -> bool, d: Device, m: Memory, before: seq<Symbol>, v: byte)
    requires IsMemory(slave, d, m) && SentBy(slave, before, v)
    requires MemoryAfter(d, m, before).mode.Reading? && MemoryAfter(d, m, before).bits == []
    ensures v == Cell(MemoryAfter(d, m, before))
  {
    hide MemoryAfter, Bits, Value, SentBy, IsMemory;
    SameBits(slave, d, m, before, v, 8);
    ByteRoundTrip(v);
    ByteRoundTrip(Cell(MemoryAfter(d, m, before)));
  }

  function CellAt(cells: map<nat, byte>, a: nat): byte {
    if a in cells then cells[a] else 0xFF
  }

  lemma {:induction false} MemorySendsAll(slave: seq<Symbol> -> bool, d: Device, m: Memory, before: seq<Symbol>,
                                          data: seq<byte>, size: nat)
    requires IsMemory(slave, d, m) && SentAll(slave, before, data, size) && |data| <= size
    requires MemoryAfter(d, m, before).mode.Reading? && MemoryAfter(d, m, before).bits == []
    ensures var now := MemoryAfter(d, m, before);
            && (forall k :: 0 <= k < |data| ==> data[k] == CellAt(now.cells, now.pointer + k))
            && MemoryAfter(d, m, before + Received(data, size)) ==
               now.(pointer := now.pointer + |data|, mode := if |data| == size && size > 0 then Off else Reading)
  {
    hide MemoryAfter, ByteSymbols, SentBy, IsMemory, SentAll;
    if data == [] {
      assert before + Received([], size) == before;
    } else {
      var front, last := data[..|data| - 1], data[|data| - 1];
      SentInFront(slave, before, data, size);
      MemorySendsAll(slave, d, m, before, front, size);
      MemorySends(slave, d, m, before + Received(front, size), last);
      MemoryAfterByte(slave, d, m, before + Received(front, size), last, |data| == size);
      assert before + Received(data, size) ==
             before + Received(front, size) + ByteSymbols(last) + [Bit(|data| == size)];
    }
  }

  lemma SentInFront(slave: seq<Symbol> -> bool, before: seq<Symbol>, data: seq<byte>, size: nat)
    requires SentAll(slave, before, data, size) && data != []
    ensures SentAll(slave, before, data[..|data| - 1], size)
    ensures SentBy(slave, before + Received(data[..|data| - 1], size), data[|data| - 1])
  {
    hide SentBy;
    var front := data[..|data| - 1];
    assert forall k :: 0 <= k < |front| ==> front[..k] == data[..k];
  }

  // ----------------------------------------------------- writing and reading back

  /** After a start and its address the memory is ready for a memory address. */
  lemma MemoryIsAddressed(slave: seq<Symbol> -> bool, d: Device, m: Memory, before: seq<Symbol>, address: byte)
    requires IsMemory(slave, d, m) && address / 2 == d.address
    ensures AcksAll(slave, before + [Start], [address])
    ensures MemoryAfter(d, m, before + [Start] + Acked([address])) ==
            MemoryAfter(d, m, before).(bits := [], mode := if address % 2 == 1 then Reading else Pointing(d.memSize, 0))
  {
    hide MemoryAfter, ByteSymbols, IsMemory;
    MemoryAfterNext(d, m, before, Start);
    MemoryAfterByte(slave, d, m, before + [Start], address, false);
    OneByte(slave, before + [Start], address);
  }

  /** A memory acknowledges its own address, and no other. */
  lemma AddressedExactly(slave: seq<Symbol> -> bool, d: Device, m: Memory, before: seq<Symbol>, address: byte)
    requires IsMemory(slave, d, m)
    ensures AcksAll(slave, before + [Start], [address]) <==> address / 2 == d.address
  {
    hide MemoryAfter, ByteSymbols, IsMemory;
    MemoryAfterNext(d, m, before, Start);
    MemoryAfterByte(slave, d, m, before + [Start], address, false);
    OneByte(slave, before + [Start], address);
  }

  /** A transfer to a device address that differs in the upper seven bits does not reach it: the first
      byte is not acknowledged, and the cells stay as they are. */
  lemma OthersAreNotReached(slave: seq<Symbol> -> bool, d: Device, m: Memory, before: seq<Symbol>, address: byte,
                            bytes: seq<byte>)
    requires IsMemory(slave, d, m) && address / 2 != d.address
    ensures !AcksAll(slave, before + [Start], [address] + bytes)
    ensures MemoryAfter(d, m, before + [Start] + CutOff([address] + bytes, 0)) ==
            MemoryAfter(d, m, before).(mode := Off, bits := [])
  {
    hide MemoryAfter, Bits, IsMemory, Acked, AcksAll, CutOff;
    AddressedExactly(slave, d, m, before, address);
    CutOffAddress(slave, before + [Start], address, bytes);
    MemoryAfterNext(d, m, before, Start);
    OneByte(slave, before + [Start], address);
    BitsAreBits(address, 8);
    MemoryAfterBits(d, m, before + [Start], ByteSymbols(address));
    MemoryAfterNext(d, m, before + [Start] + ByteSymbols(address), Stop);
  }

  /** The head of a memory transfer sets the address counter. */
  lemma MemoryIsPointed(slave: seq<Symbol> -> bool, d: Device, m: Memory, before: seq<Symbol>, addr: byte, memAddr: nat)
    requires IsMemory(slave, d, m) && addr / 2 == d.address
    requires 1 <= d.memSize && memAddr < Capacity(d.memSize)
    ensures var head := [WriteAddress(addr)] + MemoryBytes(memAddr, d.memSize);
            && AcksAll(slave, before + [Start], head)
            && MemoryAfter(d, m, before + [Start] + Acked(head)) ==
               MemoryAfter(d, m, before).(bits := [], mode := Writing, pointer := memAddr)
  {
    hide MemoryAfter, ByteSymbols, IsMemory, Acked, AcksAll, MemoryBytes;
    var bytes, there := MemoryBytes(memAddr, d.memSize), before + [Start] + Acked([WriteAddress(addr)]);
    MemoryIsAddressed(slave, d, m, before, WriteAddress(addr));
    MemoryTakesAll(slave, d, m, there, bytes);
    PointedAt(d, MemoryAfter(d, m, there), bytes);
    MemoryAddressRoundTrip(memAddr, d.memSize);
    Together(slave, before + [Start], [WriteAddress(addr)], bytes, 0);
  }

  /** A whole write is acknowledged and leaves the data in the cells. */
  lemma MemoryIsWritten(slave: seq<Symbol> -> bool, d: Device, m: Memory, before: seq<Symbol>, addr: byte, memAddr: nat,
                        data: seq<byte>)
    requires IsMemory(slave, d, m) && addr / 2 == d.address
    requires 1 <= d.memSize && memAddr < Capacity(d.memSize)
    ensures var bytes := [WriteAddress(addr)] + MemoryBytes(memAddr, d.memSize) + data;
            var now := MemoryAfter(d, m, before + [Start] + Acked(bytes) + [Stop]);
            && AcksAll(slave, before + [Start], bytes)
            && forall i :: 0 <= i < |data| ==> CellAt(now.cells, memAddr + i) == data[i]
  {
    hide MemoryAfter, ByteSymbols, IsMemory, Acked, AcksAll, MemoryBytes, ByteDone, BytesDone;
    var head := [WriteAddress(addr)] + MemoryBytes(memAddr, d.memSize);
    var there := before + [Start] + Acked(head);
    MemoryIsPointed(slave, d, m, before, addr, memAddr);
    MemoryTakesAll(slave, d, m, there, data);
    Stored(d, MemoryAfter(d, m, there), data);
    Together(slave, before + [Start], head, data, 0);
    MemoryAfterNext(d, m, before + [Start] + Acked(head + data), Stop);
    var now := MemoryAfter(d, m, before + [Start] + Acked(head + data) + [Stop]);
    forall i | 0 <= i < |data|
      ensures CellAt(now.cells, memAddr + i) == data[i]
    {
      assert StoredAt(now.cells, memAddr, data, i);
    }
  }

  /** The head and the address of a memory read are acknowledged, and the memory sends from
      the memory address on. */
  lemma MemoryIsOpened(slave: seq<Symbol> -> bool, d: Device, m: Memory, before: seq<Symbol>, addr: byte, memAddr: nat)
    requires IsMemory(slave, d, m) && addr / 2 == d.address
    requires 1 <= d.memSize && memAddr < Capacity(d.memSize)
    ensures var head := [WriteAddress(addr)] + MemoryBytes(memAddr, d.memSize);
            var again := before + [Start] + Acked(head) + [Start];
            && AcksAll(slave, before + [Start], head) && AcksAll(slave, again, [ReadAddress(addr)])
            && MemoryAfter(d, m, again + Acked([ReadAddress(addr)])) ==
               MemoryAfter(d, m, before).(bits := [], mode := Reading, pointer := memAddr)
  {
    hide MemoryAfter, ByteSymbols, IsMemory, Acked, AcksAll, MemoryBytes;
    MemoryIsPointed(slave, d, m, before, addr, memAddr);
    var there := before + [Start] + Acked([WriteAddress(addr)] + MemoryBytes(memAddr, d.memSize));
    MemoryIsAddressed(slave, d, m, there, ReadAddress(addr));
  }

  /** A whole read returns the cells from the memory address on. */
  lemma MemoryIsRead(slave: seq<Symbol> -> bool, d: Device, m: Memory, before: seq<Symbol>, addr: byte, memAddr: nat,
                     data: seq<byte>)
    requires IsMemory(slave, d, m) && addr / 2 == d.address
    requires 1 <= d.memSize && memAddr < Capacity(d.memSize)
    requires var head := [WriteAddress(addr)] + MemoryBytes(memAddr, d.memSize);
             SentAll(slave, before + [Start] + Acked(head) + [Start] + Acked([ReadAddress(addr)]), data, |data|)
    ensures forall k :: 0 <= k < |data| ==> data[k] == CellAt(MemoryAfter(d, m, before).cells, memAddr + k)
  {
    hide MemoryAfter, ByteSymbols, IsMemory, Acked, AcksAll, MemoryBytes, SentAll, Received;
    MemoryIsOpened(slave, d, m, before, addr, memAddr);
    var head := [WriteAddress(addr)] + MemoryBytes(memAddr, d.memSize);
    MemorySendsAll(slave, d, m, before + [Start] + Acked(head) + [Start] + Acked([ReadAddress(addr)]), data, |data|);
  }

  /** After the address of a read a memory holds SDA low exactly if the first bit of the cell
      it would send is 0. */
  lemma MemoryStopsAnEmptyRead(slave: seq<Symbol> -> bool, d: Device, m: Memory, before: seq<Symbol>, addr: byte,
                               memAddr: nat)
    requires IsMemory(slave, d, m) && addr / 2 == d.address
    requires 1 <= d.memSize && memAddr < Capacity(d.memSize)
    ensures var head := [WriteAddress(addr)] + MemoryBytes(memAddr, d.memSize);
            var there := before + [Start] + Acked(head) + [Start] + Acked([ReadAddress(addr)]);
            Stops(slave, there, 0) <==> CellAt(MemoryAfter(d, m, before).cells, memAddr) >= 0x80
  {
    hide MemoryAfter, ByteSymbols, Acked, AcksAll, MemoryBytes;
    MemoryIsOpened(slave, d, m, before, addr, memAddr);
  }

  /** Reading nothing from a memory, and then writing to it: where the cell is below 0x80 the
      read is reported good, but no stop was on the wires, and the write finds SDA held low. */
  method ReadNothingThenWrite(bus: Bus, ghost d: Device, ghost m: Memory, addr: byte, memAddr: nat, memSize: nat,
                              data: seq<byte>)
    returns (read: bool, wrote: bool)
    requires bus.Idle() && bus.slaveSda && IsMemory(bus.slave, d, m) && d == Device(addr / 2, memSize)
    requires 1 <= memSize <= 4 && memAddr < Capacity(memSize)
    modifies bus
    ensures read && bus.Idle()
    ensures wrote <==> CellAt(old(MemoryAfter(d, m, bus.seen.symbols).cells), memAddr) >= 0x80
  {
    hide MemoryAfter, ByteSymbols, IsMemory, Acked, AcksAll, MemoryBytes, SentAll, Received, CutOff, Bus.Idle;
    ghost var k;
    var none;
    ghost var before := bus.seen.symbols;
    MemoryIsOpened(bus.slave, d, m, before, addr, memAddr);
    MemoryStopsAnEmptyRead(bus.slave, d, m, before, addr, memAddr);
    read, none, k := bus.ReadMemory(addr, memAddr, memSize, 0);
    before := bus.seen.symbols;
    MemoryIsWritten(bus.slave, d, m, before, addr, memAddr, data);
    wrote, k := bus.WriteMemory(addr, memAddr, memSize, data);
  }

  /** Writing a memory and reading it back: both succeed, and the same bytes come back. */
  method WriteThenRead(bus: Bus, ghost d: Device, ghost m: Memory, addr: byte, memAddr: nat, memSize: nat,
                       data: seq<byte>)
    returns (wrote: bool, read: bool, back: seq<byte>)
    requires bus.Idle() && bus.slaveSda && IsMemory(bus.slave, d, m) && d == Device(addr / 2, memSize)
    requires 1 <= memSize <= 4 && memAddr < Capacity(memSize)
    modifies bus
    ensures wrote && read && back == data
    ensures bus.Idle()
  {
    hide MemoryAfter, ByteSymbols, IsMemory, Acked, AcksAll, MemoryBytes, SentAll, Received, CutOff, Bus.Idle;
    ghost var k;
    ghost var before := bus.seen.symbols;
    MemoryIsWritten(bus.slave, d, m, before, addr, memAddr, data);
    wrote, k := bus.WriteMemory(addr, memAddr, memSize, data);
    before := bus.seen.symbols;
    MemoryIsOpened(bus.slave, d, m, before, addr, memAddr);
    read, back, k := bus.ReadMemory(addr, memAddr, memSize, |data|);
    MemoryIsRead(bus.slave, d, m, before, addr, memAddr, back);
  }
}
