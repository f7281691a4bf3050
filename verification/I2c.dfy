/**
 The bit-banged I2C master: a transfer drives the two lines level by level, and a listener that only watches the
 lines recovers the bytes that were exchanged.
 */
module I2c {
  import opened Division

  type Byte = x: int | 0 <= x < 256

  // ---- Lines and what a watcher sees on them ----

  datatype Line = Sda(level: bool) | Scl(level: bool)

  /** START and STOP are changes of SDA while SCL is high; a clock is a rising edge of SCL, with the master's level
      of SDA. */
  datatype Symbol = Start | Stop | Clock(level: bool)

  datatype Watch = Watch(sda: bool, scl: bool, symbols: seq<Symbol>)

  function Seen(w: Watch, a: Line): Watch {
    match a
    case Sda(level) =>
      Watch(level, w.scl, if w.scl && level != w.sda then w.symbols + [if level then Stop else Start] else w.symbols)
    case Scl(level) =>
      Watch(w.sda, level, if level && !w.scl then w.symbols + [Clock(w.sda)] else w.symbols)
  }

  /** Both lines are high when the bus is idle. */
  function Watched(trace: seq<Line>): Watch {
    if trace == [] then Watch(true, true, []) else Seen(Watched(trace[..|trace| - 1]), trace[|trace| - 1])
  }

  // ---- Bytes as bits, most significant bit first ----

  function Bits(b: nat, n: nat): (s: seq<bool>)
    ensures |s| == n
  {
    if n == 0 then [] else Bits(b / 2, n - 1) + [b % 2 == 1]
  }

  function Value(s: seq<bool>): nat {
    if s == [] then 0 else 2 * Value(s[..|s| - 1]) + if s[|s| - 1] then 1 else 0
  }

  lemma {:induction false} ValueOfBits(b: nat, n: nat)
    requires b < Pow2(n)
    ensures Value(Bits(b, n)) == b
  {
    if n > 0 { ValueOfBits(b / 2, n - 1); }
  }

  lemma {:induction false} BitsOfValue(s: seq<bool>)
    ensures Value(s) < Pow2(|s|) && Bits(Value(s), |s|) == s
  {
    if s != [] {
      BitsOfValue(s[..|s| - 1]);
      assert s == s[..|s| - 1] + [s[|s| - 1]];
    }
  }

  /** The first bit counts 128, the last one 1. */
  lemma MostSignificantFirst(a: bool, b: bool, c: bool, d: bool, e: bool, f: bool, g: bool, h: bool)
    ensures Value([a, b, c, d, e, f, g, h]) ==
            (if a then 128 else 0) + (if b then 64 else 0) + (if c then 32 else 0) + (if d then 16 else 0)
            + (if e then 8 else 0) + (if f then 4 else 0) + (if g then 2 else 0) + (if h then 1 else 0)
  {
    hide Value;
    assert Value([]) == 0 by { NoValue(); }
    ValueSnoc([], a);
    assert [] + [a] == [a];
    ValueSnoc([a], b);
    assert [a] + [b] == [a, b];
    ValueSnoc([a, b], c);
    assert [a, b] + [c] == [a, b, c];
    ValueSnoc([a, b, c], d);
    assert [a, b, c] + [d] == [a, b, c, d];
    ValueSnoc([a, b, c, d], e);
    assert [a, b, c, d] + [e] == [a, b, c, d, e];
    ValueSnoc([a, b, c, d, e], f);
    assert [a, b, c, d, e] + [f] == [a, b, c, d, e, f];
    ValueSnoc([a, b, c, d, e, f], g);
    assert [a, b, c, d, e, f] + [g] == [a, b, c, d, e, f, g];
    ValueSnoc([a, b, c, d, e, f, g], h);
    assert [a, b, c, d, e, f, g] + [h] == [a, b, c, d, e, f, g, h];
  }

  lemma NoValue()
    ensures Value([]) == 0
  {}

  lemma ValueSnoc(s: seq<bool>, x: bool)
    ensures Value(s + [x]) == 2 * Value(s) + if x then 1 else 0
  {
    assert (s + [x])[..|s|] == s;
  }

  lemma EightBits(b: Byte)
    ensures Value(Bits(b, 8)) == b
  {
    assert Pow2(8) == 256;
    ValueOfBits(b, 8);
  }

  // ---- What goes over the bus ----

  /** START from an idle bus, repeated START, STOP, a byte written, a byte read, a byte read without its acknowledge
      clock. `ack` says whether the receiving side pulled SDA low in the ninth clock. */
  datatype Event = S | R | P | Sent(b: Byte, ack: bool) | Received(b: Byte, ack: bool) | Taken(b: Byte)

  function Clocks(s: seq<bool>): (c: seq<Symbol>)
    ensures |c| == |s|
  {
    seq(|s|, i requires 0 <= i < |s| => Clock(s[i]))
  }

  /** Eight clocks with SDA released. */
  const RELEASED: seq<bool> := [true, true, true, true, true, true, true, true]

  /** A byte written is followed by a released clock; before a repeated START or a STOP the clock rises once more. */
  function SymbolsOf(e: Event): seq<Symbol> {
    match e
    case S => [Start]
    case R => [Clock(true), Start]
    case P => [Clock(false), Stop]
    case Sent(b, _) => Clocks(Bits(b, 8)) + [Clock(true)]
    case Received(_, ack) => Clocks(RELEASED) + [Clock(!ack)]
    case Taken(_) => Clocks(RELEASED)
  }

  function OnWire(events: seq<Event>): seq<Symbol> {
    if events == [] then [] else OnWire(events[..|events| - 1]) + SymbolsOf(events[|events| - 1])
  }

  function ClockCount(e: Event): nat {
    match e
    case S => 0
    case R => 1
    case P => 1
    case Sent(_, _) => 9
    case Received(_, _) => 9
    case Taken(_) => 8
  }

  function TotalClocks(events: seq<Event>): nat {
    if events == [] then 0 else TotalClocks(events[..|events| - 1]) + ClockCount(events[|events| - 1])
  }

  /** Whether the slave releases SDA in the n-th clock, that is while SCL is high; -1 stands for the time before the
      first clock. The wire is high when master and slave both release it. */
  type Slave = int -> bool

  function SlaveBits(slave: Slave, k: nat): (s: seq<bool>)
    ensures |s| == 8
  {
    seq(8, i requires 0 <= i < 8 => slave(k + i))
  }

  lemma ByteOfSlave(slave: Slave, k: nat)
    ensures 0 <= Value(SlaveBits(slave, k)) < 256 && Bits(Value(SlaveBits(slave, k)), 8) == SlaveBits(slave, k)
  {
    BitsOfValue(SlaveBits(slave, k));
    assert Pow2(8) == 256;
  }

  function ReadValue(slave: Slave, k: nat): (b: Byte) {
    ByteOfSlave(slave, k);
    Value(SlaveBits(slave, k))
  }

  // ---- The transfer, in terms of events ----

  /** A byte written when `k` clocks have passed. */
  function Write(slave: Slave, k: nat, b: Byte): Event { Sent(b, !slave(k + 8)) }

  /** The bytes of a message up to the first that is not acknowledged. */
  function WriteAll(slave: Slave, k: nat, bytes: seq<Byte>, ignoreNack: bool): seq<Event>
    decreases |bytes|
  {
    if bytes == [] then []
    else
      var e := Write(slave, k, bytes[0]);
      [e] + if e.ack || ignoreNack then WriteAll(slave, k + 9, bytes[1..], ignoreNack) else []
  }

  function ReadAll(slave: Slave, k: nat, count: nat, noAck: bool): seq<Event>
    decreases count
  {
    if count == 0 then []
    else if noAck then [Taken(ReadValue(slave, k))] + ReadAll(slave, k + 8, count - 1, noAck)
    else [Received(ReadValue(slave, k), count > 1)] + ReadAll(slave, k + 9, count - 1, noAck)
  }

  /** An address byte, repeated behind STOP and START while it is refused and tries are left. */
  function Address(slave: Slave, k: nat, b: Byte, retries: nat): (r: (seq<Event>, bool))
    decreases retries
  {
    var e := Write(slave, k, b);
    if e.ack || retries == 0 then ([e], e.ack)
    else
      var (others, ok) := Address(slave, k + 10, b, retries - 1);
      ([e, P, S] + others, ok)
  }

  datatype Flags = Flags(read: bool, tenBit: bool, noStart: bool, ignoreNack: bool, noReadAck: bool)

  /** A message; `content` is what its buffer holds. Messages may share a buffer. */
  datatype Message = Message(addr: nat, flags: Flags, buf: array<Byte>, content: seq<Byte>)

  function FirstAddress(m: Message): Byte {
    if m.flags.tenBit then 0xF0 + 2 * (m.addr / 0x100 % 4) else m.addr % 0x80 * 2 + if m.flags.read then 1 else 0
  }

  function Tries(m: Message, retries: nat): nat { if m.flags.ignoreNack then 0 else retries }

  /** The address of a message, and whether it was accepted. */
  function AddressPhase(slave: Slave, k: nat, m: Message, retries: nat): (seq<Event>, bool) {
    var (first, ok1) := Address(slave, k, FirstAddress(m), Tries(m, retries));
    if !ok1 && !m.flags.ignoreNack then (first, false)
    else if !m.flags.tenBit then (first, true)
    else
      var e := Write(slave, k + TotalClocks(first), m.addr % 0x100);
      if !e.ack && !m.flags.ignoreNack then (first + [e], false)
      else if !m.flags.read then (first + [e], true)
      else
        var (again, ok3) := Address(slave, k + TotalClocks(first) + 10, FirstAddress(m) + 1, Tries(m, retries));
        (first + [e] + [R] + again, ok3 || m.flags.ignoreNack)
  }

  function DataPhase(slave: Slave, k: nat, m: Message): seq<Event> {
    if m.flags.read then ReadAll(slave, k, |m.content|, m.flags.noReadAck)
        else WriteAll(slave, k, m.content, m.flags.ignoreNack)
  }

  /** The data of a message went over completely: there was some, and each byte written was acknowledged, unless that
      is to be ignored. */
  predicate Complete(m: Message, data: seq<Event>) {
    |m.content| > 0 && (m.flags.read || m.flags.ignoreNack || AllAcked(data, |m.content|))
  }

  const EIO: int := -8
  const ERROR: int := -1

  /** The events of a message before its data. */
  function OneHead(slave: Slave, k: nat, m: Message, first: bool, retries: nat): (r: (seq<Event>, bool)) {
    var pre: seq<Event> := if !m.flags.noStart && !first then [R] else [];
    var (address, ok) := if m.flags.noStart then ([], true) else AddressPhase(slave, k + TotalClocks(pre), m, retries);
    (pre + address, ok)
  }

  /** Events of one message, and the error it ends with, or 0. */
  function OneMessage(slave: Slave, k: nat, m: Message, first: bool, retries: nat): (r: (seq<Event>, int)) {
    var (head, ok) := OneHead(slave, k, m, first, retries);
    if !ok then (head, EIO)
    else
      var data := DataPhase(slave, k + TotalClocks(head), m);
      (head + data, if Complete(m, data) then 0 else ERROR)
  }

  /** What the buffer of a message holds afterwards: the bytes the slave drove, if the message was read. */
  function OneContent(slave: Slave, k: nat, m: Message, first: bool, retries: nat): seq<Byte> {
    var (head, ok) := OneHead(slave, k, m, first, retries);
    if ok && m.flags.read then BytesOf(DataPhase(slave, k + TotalClocks(head), m)) else m.content
  }

  /** The messages after one buffer, which several of them may share, was given a content. */
  function Refilled(ms: seq<Message>, buf: array<Byte>, content: seq<Byte>): (s: seq<Message>)
    ensures |s| == |ms|
  {
    seq(|ms|, j requires 0 <= j < |ms| => if ms[j].buf == buf then ms[j].(content := content) else ms[j])
  }

  /** All messages from `i` on, until one fails: events, result code, and the messages with what their buffers hold
      then. */
  function Messages(slave: Slave, k: nat, ms: seq<Message>, i: nat, retries: nat): (r: (seq<Event>, int, seq<Message>))
    requires i <= |ms|
    ensures |r.2| == |ms|
    decreases |ms| - i
  {
    if i == |ms| then ([], |ms|, ms)
    else
      var (events, code) := OneMessage(slave, k, ms[i], i == 0, retries);
      var after := Refilled(ms, ms[i].buf, OneContent(slave, k, ms[i], i == 0, retries));
      if code != 0 then (events, code, after)
      else
        var rest := Messages(slave, k + TotalClocks(events), after, i + 1, retries);
        (events + rest.0, rest.1, rest.2)
  }

  /** A whole transfer: START, the messages, STOP. */
  function Transfer(slave: Slave, k: nat, ms: seq<Message>, retries: nat): (r: (seq<Event>, int, seq<Message>))
    ensures |r.2| == |ms|
  {
    var r := Messages(slave, k, ms, 0, retries);
    ([S] + r.0 + [P], r.1, r.2)
  }

  // ---- Lemmas about sequences of symbols and events ----

  lemma SeenSnoc(trace: seq<Line>, a: Line)
    ensures Watched(trace + [a]) == Seen(Watched(trace), a)
  {
    assert (trace + [a])[..|trace|] == trace;
  }

  lemma OnWireSnoc(events: seq<Event>, e: Event)
    ensures OnWire(events + [e]) == OnWire(events) + SymbolsOf(e)
    ensures TotalClocks(events + [e]) == TotalClocks(events) + ClockCount(e)
  {
    assert (events + [e])[..|events|] == events;
  }

  lemma {:induction false} OnWireConcat(a: seq<Event>, b: seq<Event>)
    ensures OnWire(a + b) == OnWire(a) + OnWire(b)
    ensures TotalClocks(a + b) == TotalClocks(a) + TotalClocks(b)
  {
    hide SymbolsOf, ClockCount;
    if b == [] {
      assert a + b == a;
    } else {
      OnWireConcat(a, b[..|b| - 1]);
      assert (a + b)[..|a + b| - 1] == a + b[..|b| - 1];
    }
  }

  lemma OneMoreClock(s: seq<bool>, i: nat)
    requires i < |s|
    ensures Clocks(s[..i + 1]) == Clocks(s[..i]) + [Clock(s[i])]
  {}

  lemma NoClocks(s: seq<bool>)
    ensures Clocks(s[..0]) == []
  {}

  lemma OneEvent(e: Event)
    ensures OnWire([e]) == SymbolsOf(e) && TotalClocks([e]) == ClockCount(e)
  {
    assert [e][..0] == [];
    assert OnWire([]) + SymbolsOf(e) == SymbolsOf(e);
  }

  // ---- The code ----

  class BitBus {
    const slave: Slave
    const retries: nat
    var sda: bool
    var scl: bool
    var clocks: nat
    ghost var trace: seq<Line>
    ghost var symbols: seq<Symbol>

    constructor (slave: Slave, retries: nat)
      ensures Valid() && Idle() && symbols == [] && clocks == 0 && this.slave == slave && this.retries == retries
    {
      this.slave, this.retries := slave, retries;
      sda, scl, clocks, trace, symbols := true, true, 0, [], [];
    }

    /** The levels driven, and the symbols, are those a watcher of the lines sees. */
    ghost predicate Valid()
      reads this
    {
      Watched(trace) == Watch(sda, scl, symbols)
    }

    ghost predicate Idle()
      reads this
    {
      sda && scl
    }

    method SetSda(level: bool)
      requires Valid()
      modifies this`sda, this`trace, this`symbols
      ensures Valid() && sda == level
      ensures symbols == if scl && level != old(sda) then old(symbols) + [if level then Stop else Start]
              else old(symbols)
    {
      SeenSnoc(trace, Sda(level));
      symbols := if scl && level != sda then symbols + [if level then Stop else Start] else symbols;
      sda := level;
      trace := trace + [Sda(level)];
    }

    method SclLow()
      requires Valid()
      modifies this`scl, this`trace
      ensures Valid() && !scl
    {
      SeenSnoc(trace, Scl(false));
      scl := false;
      trace := trace + [Scl(false)];
    }

    /** Raises SCL; the clock line is assumed to follow. */
    method SclHigh()
      requires Valid() && !scl
      modifies this`scl, this`clocks, this`trace, this`symbols
      ensures Valid() && scl && clocks == old(clocks) + 1 && symbols == old(symbols) + [Clock(sda)]
    {
      SeenSnoc(trace, Scl(true));
      symbols := symbols + [Clock(sda)];
      scl := true;
      clocks := clocks + 1;
      trace := trace + [Scl(true)];
    }

    /** The level of the wire in the current clock. */
    method GetSda() returns (level: bool)
      requires clocks > 0
      ensures level == (sda && slave(clocks - 1))
    {
      level := sda && slave(clocks - 1);
    }

    /** What every piece of a transfer does: the watcher sees exactly the symbols of its events. */
    twostate predicate Did(events: seq<Event>)
      reads this
    {
      Valid() && symbols == old(symbols) + OnWire(events) && clocks == old(clocks) + TotalClocks(events)
    }

    method StartCondition()
      requires Valid() && Idle()
      modifies this`sda, this`scl, this`trace, this`symbols
      ensures Did([S]) && !scl
    {
      OneEvent(S);
      SetSda(false);
      SclLow();
    }

    method RestartCondition()
      requires Valid() && !scl
      modifies this`sda, this`scl, this`clocks, this`trace, this`symbols
      ensures Did([R]) && !scl
    {
      hide Watched, Clocks, Bits;
      OneEvent(R);
      SetSda(true);
      SclHigh();
      SetSda(false);
      SclLow();
    }

    method StopCondition()
      requires Valid() && !scl
      modifies this`sda, this`scl, this`clocks, this`trace, this`symbols
      ensures Did([P]) && Idle()
    {
      hide Watched, Clocks, Bits;
      OneEvent(P);
      SetSda(false);
      SclHigh();
      SetSda(true);
    }

    method WaitAck() returns (ack: bool)
      requires Valid() && !scl
      modifies this`sda, this`scl, this`clocks, this`trace, this`symbols
      ensures Valid() && !scl && sda && clocks == old(clocks) + 1 && symbols == old(symbols) + [Clock(true)]
      ensures ack == !slave(old(clocks))
    {
      SetSda(true);
      SclHigh();
      var level := GetSda();
      ack := !level;
      SclLow();
    }

    /** A byte, most significant bit first, and the acknowledge clock. */
    method WriteByte(data: Byte) returns (ack: bool)
      requires Valid() && !scl
      modifies this`sda, this`scl, this`clocks, this`trace, this`symbols
      ensures Did([Write(slave, old(clocks), data)]) && !scl && ack == Write(slave, old(clocks), data).ack
    {
      hide Bits, Clocks, Watched, Pow2;
      OneEvent(Write(slave, clocks, data));
      ghost var bits := Bits(data, 8);
      NoClocks(bits);
      var i := 7;
      while i >= 0
        invariant -1 <= i <= 7 && Valid() && clocks == old(clocks) + 7 - i && (i == 7 ==> !scl)
        invariant symbols == old(symbols) + Clocks(bits[..7 - i])
        decreases i
      {
        SclLow();
        BitAt(data, i);
        SetSda(data / Pow2(i) % 2 == 1);
        SclHigh();
        OneMoreClock(bits, 7 - i);
        i := i - 1;
      }
      assert bits[..8] == bits;
      SclLow();
      ack := WaitAck();
    }

    /** Eight clocks with SDA released, taking in what the slave drives. */
    method ReadByte() returns (data: Byte)
      requires Valid() && !scl
      modifies this`sda, this`scl, this`clocks, this`trace, this`symbols
      ensures Valid() && !scl && sda && clocks == old(clocks) + 8 && symbols == old(symbols) + Clocks(RELEASED)
      ensures data == ReadValue(slave, old(clocks))
    {
      hide Clocks, Watched;
      ghost var k := clocks;
      NoClocks(RELEASED);
      SetSda(true);
      var i, value := 0, 0;
      while i < 8
        invariant 0 <= i <= 8 && Valid() && !scl && sda && clocks == k + i
        invariant symbols == old(symbols) + Clocks(RELEASED[..i])
        invariant value == Value(SlaveBits(slave, k)[..i])
      {
        SclHigh();
        var level := GetSda();
        value := 2 * value + if level then 1 else 0;
        SclLow();
        OneMoreClock(RELEASED, i);
        assert SlaveBits(slave, k)[..i + 1][..i] == SlaveBits(slave, k)[..i];
        i := i + 1;
      }
      assert SlaveBits(slave, k)[..8] == SlaveBits(slave, k) && RELEASED[..8] == RELEASED;
      ByteOfSlave(slave, k);
      data := value;
    }

    method SendAck(ack: bool)
      requires Valid() && !scl && sda
      modifies this`sda, this`scl, this`clocks, this`trace, this`symbols
      ensures Valid() && !scl && clocks == old(clocks) + 1 && symbols == old(symbols) + [Clock(!ack)]
    {
      if ack {
        SetSda(false);
      }
      SclHigh();
      SclLow();
    }

    /** All bytes of a buffer; 0 if one is refused. */
    method SendBytes(buf: array<Byte>, ignoreNack: bool) returns (count: nat)
      requires Valid() && !scl
      modifies this`sda, this`scl, this`clocks, this`trace, this`symbols
      ensures Did(WriteAll(slave, old(clocks), buf[..], ignoreNack)) && !scl
      ensures count == if ignoreNack || AllAcked(WriteAll(slave, old(clocks), buf[..], ignoreNack), buf.Length)
              then buf.Length else 0
    {
      hide Watched, OnWire, TotalClocks, Write, AllAcked, WriteAll, Clocks;
      ghost var k, total, front := clocks, WriteAll(slave, clocks, buf[..], ignoreNack), symbols;
      ghost var done: seq<Event> := [];
      Nothing(front, buf[..]);
      var i := 0;
      while i < buf.Length
        invariant 0 <= i <= buf.Length && Valid() && !scl
        invariant symbols == front + OnWire(done) && clocks == k + TotalClocks(done)
        invariant total == done + WriteAll(slave, clocks, buf[..][i..], ignoreNack)
        invariant ignoreNack || AllAcked(done, i)
      {
        ghost var e := Write(slave, clocks, buf[i]);
        OneEvent(e);
        WriteAllStep(slave, clocks, buf[..], i, ignoreNack, done);
        var ack := WriteByte(buf[i]);
        Grown(front, done, e, i);
        done := done + [e];
        i := i + 1;
        if !ack && !ignoreNack {
          NotAllAcked(done, e, buf.Length);
          return 0;
        }
      }
      WriteAllEnds(slave, clocks, buf[..], ignoreNack, done);
      count := i;
    }

    /** Fills a buffer; every byte but the last is acknowledged, unless no acknowledge clocks are wanted. */
    method RecvBytes(buf: array<Byte>, noAck: bool) returns (count: nat)
      requires Valid() && !scl
      modifies buf, this`sda, this`scl, this`clocks, this`trace, this`symbols
      ensures Did(ReadAll(slave, old(clocks), buf.Length, noAck)) && !scl
      ensures buf[..] == BytesOf(ReadAll(slave, old(clocks), buf.Length, noAck)) && count == buf.Length
    {
      hide Watched, OnWire, TotalClocks, ReadAll, Clocks, ReadValue, BytesOf, AllAcked;
      ghost var k, total, front := clocks, ReadAll(slave, clocks, buf.Length, noAck), symbols;
      ghost var done: seq<Event> := [];
      Nothing(front, buf[..]);
      NoBytes();
      count := 0;
      while count < buf.Length
        invariant 0 <= count <= buf.Length && Valid() && !scl
        invariant symbols == front + OnWire(done) && clocks == k + TotalClocks(done)
        invariant total == done + ReadAll(slave, clocks, buf.Length - count, noAck)
        invariant buf[..count] == BytesOf(done)
      {
        ghost var e := Read(slave, clocks, buf.Length - count, noAck);
        OneEvent(e);
        ReadAllStep(slave, clocks, buf.Length - count, noAck, done);
        var value := ReadByte();
        buf[count] := value;
        count := count + 1;
        if !noAck {
          SendAck(count < buf.Length);
        }
        Grown(front, done, e, 0);
        BytesSnoc(done, e);
        Adjacent(front, OnWire(done), Clocks(RELEASED));
        done := done + [e];
      }
      ReadAllEnds(slave, clocks, noAck, done);
      assert buf[..count] == buf[..];
    }

    /** An address byte, tried again behind STOP and START until it is acknowledged. */
    method SendAddress(addr: Byte, tries: nat) returns (ok: bool)
      requires Valid() && !scl
      modifies this`sda, this`scl, this`clocks, this`trace, this`symbols
      ensures Did(Address(slave, old(clocks), addr, tries).0) && ok == Address(slave, old(clocks), addr, tries).1
              && !scl
    {
      hide Watched, OnWire, TotalClocks, Address, Clocks, Write, AllAcked;
      ghost var k, total, front := clocks, Address(slave, clocks, addr, tries), symbols;
      ghost var done: seq<Event> := [];
      Nothing(front, []);
      var i := 0;
      assert [] + total.0 == total.0;
      while i <= tries
        invariant 0 <= i <= tries && Valid() && !scl
        invariant symbols == front + OnWire(done) && clocks == k + TotalClocks(done)
        invariant total == (done + Address(slave, clocks, addr, tries - i).0, Address(slave, clocks, addr, tries - i).1)
        decreases tries - i
      {
        ghost var e := Write(slave, clocks, addr);
        AddressStep(slave, clocks, addr, tries - i, done);
        ok := WriteByte(addr);
        Grown(front, done, e, 0);
        if ok || i == tries { return; }
        StopCondition();
        Grown(front, done + [e], P, 0);
        StartCondition();
        Grown(front, done + [e] + [P], S, 0);
        OneEvent(e);
        OneEvent(P);
        OneEvent(S);
        assert done + [e] + [P] + [S] == done + [e, P, S];
        done := done + [e, P, S];
        i := i + 1;
      }
    }

    /** The address of a message: seven bits, or ten in two bytes and, for reading, once more behind a repeated
        START. */
    method SendMessageAddress(msg: I2cMsg) returns (ok: bool)
      requires Valid() && !scl
      modifies this`sda, this`scl, this`clocks, this`trace, this`symbols
      ensures Did(AddressPhase(slave, old(clocks), msg.View(), retries).0) && !scl
      ensures ok == AddressPhase(slave, old(clocks), msg.View(), retries).1
    {
      hide Watched, OnWire, TotalClocks, Address, Write;
      ghost var m, front, k := msg.View(), symbols, clocks;
      var ignoreNack := msg.flags.ignoreNack;
      var tries := if ignoreNack then 0 else retries;
      var addr1 := if msg.flags.tenBit then 0xF0 + 2 * (msg.addr / 0x100 % 4)
                   else msg.addr % 0x80 * 2 + if msg.flags.read then 1 else 0;
      ghost var first := Address(slave, k, addr1, tries).0;
      ok := SendAddress(addr1, tries);
      if !ok && !ignoreNack {
        return false;
      }
      if msg.flags.tenBit {
        ok := SecondAddress(msg, tries, ignoreNack, front, first);
      } else {
        ok := true;
      }
    }

    method SecondAddress(msg: I2cMsg, tries: nat, ignoreNack: bool, ghost front: seq<Symbol>, ghost first: seq<Event>)
      returns (ok: bool)
      requires Valid() && !scl && symbols == front + OnWire(first)
      modifies this`sda, this`scl, this`clocks, this`trace, this`symbols
      ensures Valid() && !scl
      ensures var e := Write(slave, old(clocks), msg.addr % 0x100);
              var again := Address(slave, old(clocks) + 10, 0xF0 + 2 * (msg.addr / 0x100 % 4) + 1, tries);
              var done := if (!e.ack && !ignoreNack) || !msg.flags.read then first + [e]
                          else first + [e] + [R] + again.0;
              && symbols == front + OnWire(done) && clocks == old(clocks) - TotalClocks(first) + TotalClocks(done)
              && ok == if !e.ack && !ignoreNack then false else !msg.flags.read || again.1 || ignoreNack
    {
      hide Watched, OnWire, TotalClocks, Address;
      ghost var e := Write(slave, clocks, msg.addr % 0x100);
      Both(front, first, [e]);
      OneEvent(e);
      ok := WriteByte(msg.addr % 0x100);
      if !ok && !ignoreNack {
        return false;
      }
      if msg.flags.read {
        Both(front, first + [e], [R]);
        OneEvent(R);
        RestartCondition();
        Both(front, first + [e] + [R], Address(slave, clocks, 0xF0 + 2 * (msg.addr / 0x100 % 4) + 1, tries).0);
        ok := SendAddress(0xF0 + 2 * (msg.addr / 0x100 % 4) + 1, tries);
        ok := ok || ignoreNack;
      } else {
        ok := true;
      }
    }

    /** The bytes of a message; whether there were some and all went over. */
    method TransferData(msg: I2cMsg) returns (ok: bool)
      requires Valid() && !scl
      modifies msg.buf, this`sda, this`scl, this`clocks, this`trace, this`symbols
      ensures Did(DataPhase(slave, old(clocks), old(msg.View()))) && !scl
      ensures ok == Complete(old(msg.View()), DataPhase(slave, old(clocks), old(msg.View())))
      ensures msg.buf[..] == if msg.flags.read then BytesOf(DataPhase(slave, old(clocks), old(msg.View())))
              else old(msg.buf[..])
    {
      hide Watched, OnWire, TotalClocks, BytesOf, AllAcked, WriteAll, ReadAll;
      var count;
      if msg.flags.read {
        count := RecvBytes(msg.buf, msg.flags.noReadAck);
      } else {
        count := SendBytes(msg.buf, msg.flags.ignoreNack);
      }
      ok := !(count < msg.buf.Length || count == 0);
    }

    method TransferMessage(msg: I2cMsg, first: bool) returns (code: int)
      requires Valid() && !scl
      modifies msg.buf, this`sda, this`scl, this`clocks, this`trace, this`symbols
      ensures Did(OneMessage(slave, old(clocks), old(msg.View()), first, retries).0) && !scl
      ensures code == OneMessage(slave, old(clocks), old(msg.View()), first, retries).1
      ensures msg.buf[..] == OneContent(slave, old(clocks), old(msg.View()), first, retries)
    {
      hide Watched, OnWire, TotalClocks, AddressPhase, DataPhase, Complete, BytesOf;
      ghost var front, m, k := symbols, msg.View(), clocks;
      ghost var done: seq<Event> := [];
      Nothing(front, []);
      if !msg.flags.noStart {
        if !first {
          RestartCondition();
          done := [R];
        }
        ghost var pre := done;
        Both(front, pre, AddressPhase(slave, clocks, m, retries).0);
        done := pre + AddressPhase(slave, clocks, m, retries).0;
        var ok := SendMessageAddress(msg);
        if !ok {
          return EIO;
        }
      }
      assert done == OneHead(slave, k, m, first, retries).0;
      Both(front, done, DataPhase(slave, clocks, m));
      var ok := TransferData(msg);
      code := if ok then 0 else ERROR;
    }

    /** The next message of a transfer; every message that shares its buffer sees what was read. */
    method TransferNext(msgs: seq<I2cMsg>, i: nat) returns (code: int)
      requires Valid() && !scl && i < |msgs|
      modifies msgs[i].buf, this`sda, this`scl, this`clocks, this`trace, this`symbols
      ensures Did(OneMessage(slave, old(clocks), old(Contents(msgs))[i], i == 0, retries).0) && !scl
      ensures code == OneMessage(slave, old(clocks), old(Contents(msgs))[i], i == 0, retries).1
      ensures Contents(msgs) ==
                old(Refilled(Contents(msgs), msgs[i].buf,
                    OneContent(slave, clocks, Contents(msgs)[i], i == 0, retries)))
    {
      hide Watched, OnWire, TotalClocks, OneMessage, OneContent;
      ghost var ms, k := Contents(msgs), clocks;
      code := TransferMessage(msgs[i], i == 0);
      ghost var after := Refilled(ms, msgs[i].buf, OneContent(slave, k, ms[i], i == 0, retries));
      assert forall j :: 0 <= j < |msgs| ==> Contents(msgs)[j] == msgs[j].View() == after[j];
    }

    /** The messages one after the other, until one fails. */
    method TransferAll(msgs: seq<I2cMsg>) returns (code: int)
      requires Valid() && !scl
      modifies this`sda, this`scl, this`clocks, this`trace, this`symbols, set m | m in msgs :: m.buf
      ensures Did(Messages(slave, old(clocks), old(Contents(msgs)), 0, retries).0) && !scl
      ensures code == Messages(slave, old(clocks), old(Contents(msgs)), 0, retries).1
      ensures Contents(msgs) == Messages(slave, old(clocks), old(Contents(msgs)), 0, retries).2
    {
      hide Watched, OnWire, TotalClocks, OneMessage, Messages, OneContent, Refilled, Underway, Contents, AllAcked,
          Clocks;
      ghost var front, ms, k := symbols, Contents(msgs), clocks;
      ghost var total := Messages(slave, k, ms, 0, retries);
      ghost var done: seq<Event> := [];
      Nothing(front, []);
      UnderwayAtFirst(slave, k, ms, retries);
      var i := 0;
      code := 0;
      while i < |msgs| && code == 0
        invariant 0 <= i <= |msgs| && Valid() && !scl && |ms| == |msgs|
        invariant symbols == front + OnWire(done) && clocks == k + TotalClocks(done)
        invariant Contents(msgs) == ms && Underway(total, slave, clocks, ms, i, retries, done, code)
        decreases |msgs| - i, if code == 0 then 1 else 0
      {
        ghost var events := OneMessage(slave, clocks, ms[i], i == 0, retries).0;
        UnderwayStep(total, slave, clocks, ms, i, retries, done);
        Both(front, done, events);
        code := TransferNext(msgs, i);
        done := done + events;
        ms := Contents(msgs);
        if code == 0 { i := i + 1; }
      }
      UnderwayEnds(total, slave, clocks, ms, i, retries, done, code);
      if code == 0 {
        code := i;
      }
    }

    /** A transfer: START, the messages, STOP. */
    method Xfer(msgs: seq<I2cMsg>) returns (code: int)
      requires Valid() && Idle()
      modifies this`sda, this`scl, this`clocks, this`trace, this`symbols, set m | m in msgs :: m.buf
      ensures Did(Transfer(slave, old(clocks), old(Contents(msgs)), retries).0) && Idle()
      ensures code == Transfer(slave, old(clocks), old(Contents(msgs)), retries).1
      ensures Contents(msgs) == Transfer(slave, old(clocks), old(Contents(msgs)), retries).2
    {
      hide Watched, OnWire, TotalClocks, Messages, Contents, Clocks;
      ghost var front, k := symbols, clocks;
      ghost var total := Messages(slave, k, Contents(msgs), 0, retries);
      OneEvent(S);
      Both(front, [S], total.0);
      Both(front, [S] + total.0, [P]);
      StartCondition();
      code := TransferAll(msgs);
      StopCondition();
    }
  }

  /** Where the loop over the messages stands in the whole run. */
  ghost predicate Underway(total: (seq<Event>, int, seq<Message>), slave: Slave, k: nat, ms: seq<Message>, i: nat,
                           retries: nat, done: seq<Event>, code: int)
  {
    if code != 0 then total == (done, code, ms)
    else
      i <= |ms|
      && var rest := Messages(slave, k, ms, i, retries); total == (done + rest.0, rest.1, rest.2)
  }

  lemma UnderwayAtFirst(slave: Slave, k: nat, ms: seq<Message>, retries: nat)
    ensures Underway(Messages(slave, k, ms, 0, retries), slave, k, ms, 0, retries, [], 0)
  {
    hide Messages;
    assert [] + Messages(slave, k, ms, 0, retries).0 == Messages(slave, k, ms, 0, retries).0;
  }

  lemma UnderwayStep(total: (seq<Event>, int, seq<Message>), slave: Slave, k: nat, ms: seq<Message>, i: nat,
                     retries: nat, done: seq<Event>)
    requires Underway(total, slave, k, ms, i, retries, done, 0) && i < |ms|
    ensures var (events, code) := OneMessage(slave, k, ms[i], i == 0, retries);
            var after := Refilled(ms, ms[i].buf, OneContent(slave, k, ms[i], i == 0, retries));
            Underway(total, slave, k + TotalClocks(events), after, if code == 0 then i + 1 else i, retries,
                done + events, code)
  {
    MessagesStep(slave, k, ms, i, retries, done);
  }

  lemma UnderwayEnds(total: (seq<Event>, int, seq<Message>), slave: Slave, k: nat, ms: seq<Message>, i: nat,
                     retries: nat, done: seq<Event>, code: int)
    requires Underway(total, slave, k, ms, i, retries, done, code) && (code == 0 ==> i == |ms|)
    ensures total == (done, if code == 0 then i else code, ms)
  {
    if code == 0 { MessagesEnd(slave, k, ms, retries, done); }
  }

  /** What the buffers of messages hold. */
  ghost function Contents(msgs: seq<I2cMsg>): (s: seq<Message>)
    reads set m | m in msgs :: m.buf
    ensures |s| == |msgs| && forall i :: 0 <= i < |msgs| ==> s[i] == msgs[i].View()
  {
    if msgs == [] then [] else Contents(msgs[..|msgs| - 1]) + [msgs[|msgs| - 1].View()]
  }

  lemma MessagesStep(slave: Slave, k: nat, ms: seq<Message>, i: nat, retries: nat, done: seq<Event>)
    requires i < |ms|
    ensures var (events, code) := OneMessage(slave, k, ms[i], i == 0, retries);
            var after := Refilled(ms, ms[i].buf, OneContent(slave, k, ms[i], i == 0, retries));
            var rest := Messages(slave, k + TotalClocks(events), after, i + 1, retries);
            var r := Messages(slave, k, ms, i, retries);
            && done + r.0 == (if code != 0 then done + events else done + events + rest.0)
            && (r.1, r.2) == (if code != 0 then (code, after) else (rest.1, rest.2))
  {
    hide OneMessage, OneContent, Refilled;
    var (events, code) := OneMessage(slave, k, ms[i], i == 0, retries);
    var after := Refilled(ms, ms[i].buf, OneContent(slave, k, ms[i], i == 0, retries));
    var rest := Messages(slave, k + TotalClocks(events), after, i + 1, retries);
    assert done + (events + rest.0) == done + events + rest.0;
  }

  lemma MessagesEnd(slave: Slave, k: nat, ms: seq<Message>, retries: nat, done: seq<Event>)
    ensures Messages(slave, k, ms, |ms|, retries) == ([], |ms|, ms) && done + [] == done
  {}

  lemma Both(front: seq<Symbol>, a: seq<Event>, b: seq<Event>)
    ensures front + OnWire(a) + OnWire(b) == front + OnWire(a + b)
            && TotalClocks(a + b) == TotalClocks(a) + TotalClocks(b)
  {
    hide OnWire, TotalClocks;
    OnWireConcat(a, b);
    assert front + OnWire(a) + OnWire(b) == front + (OnWire(a) + OnWire(b));
  }

  class I2cMsg {
    const addr: nat
    const flags: Flags
    const buf: array<Byte>

    constructor (addr: nat, flags: Flags, buf: array<Byte>)
      ensures this.addr == addr && this.flags == flags && this.buf == buf
    {
      this.addr, this.flags, this.buf := addr, flags, buf;
    }

    function View(): Message
      reads buf
    {
      Message(addr, flags, buf, buf[..])
    }
  }

  /** The next byte read when `count` are left. */
  function Read(slave: Slave, k: nat, count: nat, noAck: bool): Event {
    if noAck then Taken(ReadValue(slave, k)) else Received(ReadValue(slave, k), count > 1)
  }

  /** The bytes that events carry. */
  function BytesOf(events: seq<Event>): seq<Byte> {
    if events == [] then []
    else BytesOf(events[..|events| - 1]) + if events[|events| - 1] in {S, R, P} then [] else [events[|events| - 1].b]
  }

  lemma BytesSnoc(done: seq<Event>, e: Event)
    requires e !in {S, R, P}
    ensures BytesOf(done + [e]) == BytesOf(done) + [e.b]
  {
    assert (done + [e])[..|done|] == done;
  }

  lemma NoBytes()
    ensures BytesOf([]) == []
  {}

  lemma Adjacent(front: seq<Symbol>, a: seq<Symbol>, b: seq<Symbol>)
    ensures forall c :: front + a + b + c == front + a + (b + c)
  {}

  lemma ReadAllStep(slave: Slave, k: nat, count: nat, noAck: bool, done: seq<Event>)
    requires count > 0
    ensures var e := Read(slave, k, count, noAck);
            && e !in {S, R, P} && e.b == ReadValue(slave, k) && ClockCount(e) == (if noAck then 8 else 9)
            && SymbolsOf(e) == (if noAck then Clocks(RELEASED) else Clocks(RELEASED) + [Clock(!(count > 1))])
            && done + ReadAll(slave, k, count, noAck) ==
               (done + [e]) + ReadAll(slave, k + ClockCount(e), count - 1, noAck)
  {
    hide ReadValue;
    var e := Read(slave, k, count, noAck);
    var rest := ReadAll(slave, k + ClockCount(e), count - 1, noAck);
    assert ReadAll(slave, k, count, noAck) == [e] + rest;
    assert done + ([e] + rest) == (done + [e]) + rest;
  }

  lemma ReadAllEnds(slave: Slave, k: nat, noAck: bool, done: seq<Event>)
    ensures done + ReadAll(slave, k, 0, noAck) == done
  {}

  lemma AddressStep(slave: Slave, k: nat, b: Byte, tries: nat, done: seq<Event>)
    ensures var e := Write(slave, k, b);
            && e.Sent? && ClockCount(e) == 9
            && (e.ack || tries == 0 ==> Address(slave, k, b, tries) == ([e], e.ack))
            && (!e.ack && tries > 0 ==>
                  done + Address(slave, k, b, tries).0 == (done + [e, P, S]) + Address(slave, k + 10, b, tries - 1).0
                  && Address(slave, k, b, tries).1 == Address(slave, k + 10, b, tries - 1).1)
  {
    var e := Write(slave, k, b);
    if !e.ack && tries > 0 {
      var others := Address(slave, k + 10, b, tries - 1).0;
      assert done + ([e, P, S] + others) == (done + [e, P, S]) + others;
    }
  }

  /** Every byte was written and acknowledged. */
  predicate AllAcked(events: seq<Event>, n: nat) { |events| == n && forall e :: e in events ==> e.Sent? && e.ack }

  /** One more event behind those done. */
  lemma Grown(front: seq<Symbol>, done: seq<Event>, e: Event, n: nat)
    ensures front + OnWire(done) + OnWire([e]) == front + OnWire(done + [e])
    ensures TotalClocks(done) + TotalClocks([e]) == TotalClocks(done + [e])
    ensures AllAcked(done, n) && e.Sent? && e.ack ==> AllAcked(done + [e], n + 1)
  {
    AckedSnoc(done, e, n);
    hide OnWire, SymbolsOf, AllAcked, TotalClocks;
    OnWireSnoc(done, e);
    OneEvent(e);
    assert front + OnWire(done) + SymbolsOf(e) == front + (OnWire(done) + SymbolsOf(e));
  }

  lemma AckedSnoc(done: seq<Event>, e: Event, n: nat)
    ensures AllAcked(done, n) && e.Sent? && e.ack ==> AllAcked(done + [e], n + 1)
  {}

  lemma Nothing(front: seq<Symbol>, bytes: seq<Byte>)
    ensures front + OnWire([]) == front && TotalClocks([]) == 0 && AllAcked([], 0) && bytes[0..] == bytes
  {}

  lemma NotAllAcked(events: seq<Event>, e: Event, n: nat)
    requires e in events && e.Sent? && !e.ack
    ensures !AllAcked(events, n)
  {}

  lemma WriteAllStep(slave: Slave, k: nat, bytes: seq<Byte>, i: nat, ignoreNack: bool, done: seq<Event>)
    requires i < |bytes|
    ensures var e := Write(slave, k, bytes[i]);
            && e.Sent? && ClockCount(e) == 9
            && done + WriteAll(slave, k, bytes[i..], ignoreNack) ==
               if e.ack || ignoreNack then (done + [e]) + WriteAll(slave, k + 9, bytes[i + 1..], ignoreNack)
                   else done + [e]
  {
    assert bytes[i..][1..] == bytes[i + 1..];
    var e := Write(slave, k, bytes[i]);
    var rest := WriteAll(slave, k + 9, bytes[i + 1..], ignoreNack);
    assert done + ([e] + rest) == (done + [e]) + rest;
  }

  lemma WriteAllEnds(slave: Slave, k: nat, bytes: seq<Byte>, ignoreNack: bool, done: seq<Event>)
    ensures done + WriteAll(slave, k, bytes[|bytes|..], ignoreNack) == done
  {}

  /** The i-th binary digit of a byte stands at place 7 - i of its bits. */
  lemma {:induction false} BitOf(b: nat, n: nat, i: nat)
    requires i < n
    ensures Bits(b, n)[n - 1 - i] == (b / Pow2(i) % 2 == 1)
  {
    if i > 0 {
      BitOf(b / 2, n - 1, i - 1);
      DivTwice(b, Pow2(i - 1));
    }
  }

  lemma BitAt(b: Byte, i: nat)
    requires i < 8
    ensures Bits(b, 8)[7 - i] == (b / Pow2(i) % 2 == 1)
  {
    BitOf(b, 8, i);
  }

  // ---- Every transfer is framed and agrees with the slave ----

  /** Whether an event may happen on a bus that is busy or idle after `k` clocks, and reports what the slave did. */
  predicate Fits(e: Event, slave: Slave, k: nat, busy: bool) {
    match e
    case S => !busy
    case R => busy
    case P => busy
    case Sent(_, ack) => busy && ack == !slave(k + 8)
    case Received(b, _) => busy && b == ReadValue(slave, k)
    case Taken(b) => busy && b == ReadValue(slave, k)
  }

  function BusyAfter(e: Event): bool { e != P }

  /** The events lead from a busy or idle bus to a busy or idle one. */
  predicate Runs(events: seq<Event>, slave: Slave, k: nat, busy: bool, busy': bool)
    decreases |events|
  {
    if events == [] then busy == busy'
    else Fits(events[0], slave, k, busy)
         && Runs(events[1..], slave, k + ClockCount(events[0]), BusyAfter(events[0]), busy')
  }

  lemma TotalCons(e: Event, rest: seq<Event>)
    ensures TotalClocks([e] + rest) == ClockCount(e) + TotalClocks(rest)
    ensures OnWire([e] + rest) == SymbolsOf(e) + OnWire(rest)
  {
    OnWireConcat([e], rest);
    OneEvent(e);
  }

  lemma {:induction false} RunsConcat(a: seq<Event>, b: seq<Event>, slave: Slave, k: nat, x: bool, y: bool, z: bool)
    requires Runs(a, slave, k, x, y) && Runs(b, slave, k + TotalClocks(a), y, z)
    ensures Runs(a + b, slave, k, x, z)
    decreases |a|
  {
    hide Fits, TotalClocks, OnWire;
    if a == [] {
      assert a + b == b && TotalClocks([]) == 0 by { Nothing([], []); }
    } else {
      assert a == [a[0]] + a[1..];
      TotalCons(a[0], a[1..]);
      RunsConcat(a[1..], b, slave, k + ClockCount(a[0]), BusyAfter(a[0]), y, z);
      assert (a + b)[1..] == a[1..] + b;
    }
  }

  lemma RunsOne(e: Event, slave: Slave, k: nat, busy: bool)
    requires Fits(e, slave, k, busy)
    ensures Runs([e], slave, k, busy, BusyAfter(e))
  {}

  lemma {:induction false} WriteAllRuns(slave: Slave, k: nat, bytes: seq<Byte>, ignoreNack: bool)
    ensures Runs(WriteAll(slave, k, bytes, ignoreNack), slave, k, true, true)
    decreases |bytes|
  {
    if bytes != [] {
      var rest := WriteAll(slave, k + 9, bytes[1..], ignoreNack);
      WriteAllRuns(slave, k + 9, bytes[1..], ignoreNack);
      assert ([Write(slave, k, bytes[0])] + rest)[1..] == rest;
    }
  }

  lemma {:induction false} ReadAllRuns(slave: Slave, k: nat, count: nat, noAck: bool)
    ensures Runs(ReadAll(slave, k, count, noAck), slave, k, true, true)
    decreases count
  {
    hide ReadValue;
    if count > 0 {
      var e := Read(slave, k, count, noAck);
      ReadAllRuns(slave, k + ClockCount(e), count - 1, noAck);
      var rest := ReadAll(slave, k + ClockCount(e), count - 1, noAck);
      assert ReadAll(slave, k, count, noAck) == [e] + rest && ([e] + rest)[1..] == rest;
    }
  }

  lemma {:induction false} AddressRuns(slave: Slave, k: nat, b: Byte, retries: nat)
    ensures Runs(Address(slave, k, b, retries).0, slave, k, true, true)
    decreases retries
  {
    var e := Write(slave, k, b);
    RunsOne(e, slave, k, true);
    if !e.ack && retries > 0 {
      var others := Address(slave, k + 10, b, retries - 1).0;
      AddressRuns(slave, k + 10, b, retries - 1);
      var all := [e, P, S] + others;
      assert all[1..] == [P, S] + others && ([P, S] + others)[1..] == [S] + others && ([S] + others)[1..] == others;
    }
  }

  lemma AddressPhaseRuns(slave: Slave, k: nat, m: Message, retries: nat)
    ensures Runs(AddressPhase(slave, k, m, retries).0, slave, k, true, true)
  {
    hide Runs, Address, TotalClocks, OnWire;
    var first := Address(slave, k, FirstAddress(m), Tries(m, retries)).0;
    AddressRuns(slave, k, FirstAddress(m), Tries(m, retries));
    var k1 := k + TotalClocks(first);
    var e := Write(slave, k1, m.addr % 0x100);
    RunsOne(e, slave, k1, true);
    RunsConcat(first, [e], slave, k, true, true, true);
    if m.flags.tenBit {
      var again := Address(slave, k1 + 10, FirstAddress(m) + 1, Tries(m, retries)).0;
      OneEvent(e);
      OneEvent(R);
      OnWireConcat(first, [e]);
      OnWireConcat(first + [e], [R]);
      RunsOne(R, slave, k1 + 9, true);
      RunsConcat(first + [e], [R], slave, k, true, true, true);
      AddressRuns(slave, k1 + 10, FirstAddress(m) + 1, Tries(m, retries));
      RunsConcat(first + [e] + [R], again, slave, k, true, true, true);
    }
  }

  lemma OneMessageRuns(slave: Slave, k: nat, m: Message, first: bool, retries: nat)
    ensures Runs(OneMessage(slave, k, m, first, retries).0, slave, k, true, true)
  {
    hide AddressPhase, TotalClocks, Runs, Complete;
    var pre: seq<Event> := if !m.flags.noStart && !first then [R] else [];
    PreRuns(pre, slave, k);
    var head := OneHead(slave, k, m, first, retries).0;
    assert Runs(head, slave, k, true, true) by {
      if m.flags.noStart {
        assert head == pre + [] == pre;
      } else {
        AddressPhaseRuns(slave, k + TotalClocks(pre), m, retries);
        RunsConcat(pre, AddressPhase(slave, k + TotalClocks(pre), m, retries).0, slave, k, true, true, true);
      }
    }
    var k' := k + TotalClocks(head);
    if m.flags.read { ReadAllRuns(slave, k', |m.content|, m.flags.noReadAck); }
    else { WriteAllRuns(slave, k', m.content, m.flags.ignoreNack); }
    RunsConcat(head, DataPhase(slave, k', m), slave, k, true, true, true);
  }

  lemma PreRuns(pre: seq<Event>, slave: Slave, k: nat)
    requires pre == [] || pre == [R]
    ensures Runs(pre, slave, k, true, true)
  {}

  lemma {:induction false} MessagesRun(slave: Slave, k: nat, ms: seq<Message>, i: nat, retries: nat)
    requires i <= |ms|
    ensures Runs(Messages(slave, k, ms, i, retries).0, slave, k, true, true)
    decreases |ms| - i
  {
    hide OneMessage, TotalClocks, OneContent, Refilled;
    if i < |ms| {
      OneMessageRuns(slave, k, ms[i], i == 0, retries);
      var (events, code) := OneMessage(slave, k, ms[i], i == 0, retries);
      if code == 0 {
        var after := Refilled(ms, ms[i].buf, OneContent(slave, k, ms[i], i == 0, retries));
        MessagesRun(slave, k + TotalClocks(events), after, i + 1, retries);
        RunsConcat(events, Messages(slave, k + TotalClocks(events), after, i + 1, retries).0, slave, k, true, true,
            true);
      }
    }
  }

  /** Every transfer takes an idle bus back to an idle bus: it begins with START, ends with STOP, has START only on an
      idle bus and everything else only on a busy one; acknowledgements and bytes read are what the slave drove. */
  lemma TransferRuns(slave: Slave, k: nat, ms: seq<Message>, retries: nat)
    ensures Runs(Transfer(slave, k, ms, retries).0, slave, k, false, false)
  {
    hide Messages, TotalClocks, OnWire, Runs;
    var events := Messages(slave, k, ms, 0, retries).0;
    MessagesRun(slave, k, ms, 0, retries);
    RunsOne(S, slave, k, false);
    OneEvent(S);
    RunsConcat([S], events, slave, k, false, true, true);
    RunsOne(P, slave, k + TotalClocks([S] + events), true);
    RunsConcat([S] + events, [P], slave, k, false, true, false);
  }

  /** A message whose data went over completely put exactly its bytes on the wire, in order. */
  lemma {:induction false} WrittenBytes(slave: Slave, k: nat, bytes: seq<Byte>, ignoreNack: bool)
    requires ignoreNack || AllAcked(WriteAll(slave, k, bytes, ignoreNack), |bytes|)
    ensures BytesOf(WriteAll(slave, k, bytes, ignoreNack)) == bytes
    decreases |bytes|
  {
    if bytes != [] {
      var e, rest := Write(slave, k, bytes[0]), WriteAll(slave, k + 9, bytes[1..], ignoreNack);
      var all := WriteAll(slave, k, bytes, ignoreNack);
      if !ignoreNack {
        assert all[0] == e && e in all && e.ack;
        assert forall x :: x in rest ==> x in all;
      }
      WrittenBytes(slave, k + 9, bytes[1..], ignoreNack);
      BytesCons(e, rest);
      assert bytes == [bytes[0]] + bytes[1..];
    }
  }

  lemma {:induction false} BytesCons(e: Event, rest: seq<Event>)
    requires e !in {S, R, P}
    ensures BytesOf([e] + rest) == [e.b] + BytesOf(rest)
    decreases |rest|
  {
    if rest == [] {
      assert [e] + rest == [] + [e];
      BytesSnoc([], e);
    } else {
      assert ([e] + rest)[..|rest|] == [e] + rest[..|rest| - 1];
      BytesCons(e, rest[..|rest| - 1]);
    }
  }

  // ---- Whom a transfer addresses ----

  /** A byte that addresses a message's device: seven bits and the direction, or 11110, the two upper bits of a ten-bit
      address, and a direction that is that of the message or else to write. */
  predicate Addresses(b: Byte, m: Message) {
    if m.flags.tenBit then b / 8 == 0x1E && b / 2 % 4 == m.addr / 0x100 % 4 && (b % 2 == 1 ==> m.flags.read)
    else b / 2 == m.addr % 0x80 && (b % 2 == 1 <==> m.flags.read)
  }

  lemma FirstAddressIs(m: Message)
    ensures Addresses(FirstAddress(m), m) && (m.flags.tenBit ==> FirstAddress(m) % 2 == 0)
    ensures m.flags.tenBit && m.flags.read ==> FirstAddress(m) < 255 && Addresses(FirstAddress(m) + 1, m)
  {}

  /** Refused tries of an address, each given up with STOP and followed by another START. */
  ghost predicate Refusals(events: seq<Event>, b: Byte, n: nat) {
    |events| == 3 * n
    && forall i :: 0 <= i < n ==> events[3 * i] == Sent(b, false) && events[3 * i + 1] == P && events[3 * i + 2] == S
  }

  lemma RefusedOnce(b: Byte, others: seq<Event>, n: nat)
    requires Refusals(others, b, n)
    ensures Refusals([Sent(b, false), P, S] + others, b, n + 1)
  {
    var all := [Sent(b, false), P, S] + others;
    forall i | 0 <= i < n + 1
      ensures all[3 * i] == Sent(b, false) && all[3 * i + 1] == P && all[3 * i + 2] == S
    {
      if i > 0 {
        assert all[3 * i] == others[3 * (i - 1)] && all[3 * i + 1] == others[3 * (i - 1) + 1];
        assert all[3 * i + 2] == others[3 * (i - 1) + 2];
      }
    }
  }

  /** An address is tried until it is acknowledged, or the tries are used up. */
  lemma {:induction false} AddressTries(slave: Slave, k: nat, b: Byte, retries: nat) returns (x: seq<Event>, n: nat)
    ensures var (events, ok) := Address(slave, k, b, retries);
            Refusals(x, b, n) && events == x + [Sent(b, ok)] && n <= retries && (!ok ==> n == retries)
    decreases retries
  {
    var e := Write(slave, k, b);
    if e.ack || retries == 0 {
      x, n := [], 0;
      assert [] + [e] == [e];
    } else {
      x, n := AddressTries(slave, k + 10, b, retries - 1);
      RefusedOnce(b, x, n);
      var ok := Address(slave, k + 10, b, retries - 1).1;
      assert [e, P, S] + (x + [Sent(b, ok)]) == ([e, P, S] + x) + [Sent(b, ok)];
      x, n := [Sent(b, false), P, S] + x, n + 1;
    }
  }

  /** With seven bits: the device and the direction. */
  lemma SevenBitAddress(slave: Slave, k: nat, m: Message, retries: nat)
    returns (b: Byte, x: seq<Event>, n: nat, ack: bool)
    requires !m.flags.tenBit
    ensures b / 2 == m.addr % 0x80 && (b % 2 == 1 <==> m.flags.read)
    ensures Refusals(x, b, n) && n <= (if m.flags.ignoreNack then 0 else retries)
    ensures AddressPhase(slave, k, m, retries) == (x + [Sent(b, ack)], ack || m.flags.ignoreNack)
    ensures !ack && !m.flags.ignoreNack ==> n == retries
  {
    b := FirstAddress(m);
    x, n := AddressTries(slave, k, b, Tries(m, retries));
    ack := Address(slave, k, b, Tries(m, retries)).1;
  }

  /** With ten bits, when all is acknowledged: 11110, the two upper bits and write; the low eight bits; and for reading
      a repeated START and the first byte again with the direction changed. */
  lemma TenBitAddress(slave: Slave, k: nat, m: Message, retries: nat)
    returns (b: Byte, x: seq<Event>, n: nat, y: seq<Event>, o: nat)
    requires m.flags.tenBit && !m.flags.ignoreNack && AddressPhase(slave, k, m, retries).1
    ensures b / 8 == 0x1E && b / 2 % 4 == m.addr / 0x100 % 4 && b % 2 == 0 && b < 255
    ensures Refusals(x, b, n) && n <= retries && Refusals(y, b + 1, o) && o <= retries
    ensures AddressPhase(slave, k, m, retries).0 ==
            x + [Sent(b, true)] + [Sent(m.addr % 0x100, true)] +
            if m.flags.read then [R] + (y + [Sent(b + 1, true)]) else []
  {
    hide Address, TotalClocks;
    b := FirstAddress(m);
    x, n := AddressTries(slave, k, b, retries);
    var (first, ok1) := Address(slave, k, b, retries);
    var e := Write(slave, k + TotalClocks(first), m.addr % 0x100);
    y, o := [], 0;
    if m.flags.read {
      y, o := AddressTries(slave, k + TotalClocks(first) + 10, b + 1, retries);
      var again := Address(slave, k + TotalClocks(first) + 10, b + 1, retries).0;
      assert first + [e] + [R] + again == first + [e] + ([R] + again);
    } else {
      assert first + [e] + [] == first + [e];
    }
  }

  ghost predicate AddressesSome(b: Byte, ms: seq<Message>) {
    exists j :: 0 <= j < |ms| && !ms[j].flags.noStart && Addresses(b, ms[j])
  }

  /** Behind every START and repeated START stands a byte that addresses one of the messages. */
  ghost predicate StartsAddress(events: seq<Event>, ms: seq<Message>) {
    forall i :: 0 <= i < |events| && events[i] in {S, R} ==>
      i + 1 < |events| && events[i + 1].Sent? && AddressesSome(events[i + 1].b, ms)
  }

  lemma StartsInBoth(a: seq<Event>, b: seq<Event>, ms: seq<Message>)
    requires StartsAddress(a, ms) && StartsAddress(b, ms)
    ensures StartsAddress(a + b, ms)
  {
    hide AddressesSome;
    forall i | 0 <= i < |a + b| && (a + b)[i] in {S, R}
      ensures i + 1 < |a + b| && (a + b)[i + 1].Sent? && AddressesSome((a + b)[i + 1].b, ms)
    {
      if i < |a| { assert a[i] in {S, R}; } else { assert b[i - |a|] in {S, R} && (a + b)[i + 1] == b[i - |a| + 1]; }
    }
  }

  ghost predicate NoStart(events: seq<Event>) { forall i :: 0 <= i < |events| ==> events[i] !in {S, R} }

  lemma {:induction false} WritesNoStart(slave: Slave, k: nat, bytes: seq<Byte>, ignoreNack: bool)
    ensures NoStart(WriteAll(slave, k, bytes, ignoreNack))
    decreases |bytes|
  {
    if bytes != [] { WritesNoStart(slave, k + 9, bytes[1..], ignoreNack); }
  }

  lemma {:induction false} ReadsNoStart(slave: Slave, k: nat, count: nat, noAck: bool)
    ensures NoStart(ReadAll(slave, k, count, noAck))
    decreases count
  {
    if count > 0 { ReadsNoStart(slave, k + (if noAck then 8 else 9), count - 1, noAck); }
  }

  lemma DataStarts(slave: Slave, k: nat, m: Message, ms: seq<Message>)
    ensures StartsAddress(DataPhase(slave, k, m), ms)
  {
    hide AddressesSome;
    if m.flags.read {
      ReadsNoStart(slave, k, |m.content|, m.flags.noReadAck);
    } else {
      WritesNoStart(slave, k, m.content, m.flags.ignoreNack);
    }
  }

  lemma {:induction false} TriesStart(lead: Event, slave: Slave, k: nat, b: Byte, retries: nat, ms: seq<Message>)
    requires lead in {S, R} && AddressesSome(b, ms)
    ensures StartsAddress([lead] + Address(slave, k, b, retries).0, ms)
    decreases retries
  {
    hide AddressesSome;
    var e := Write(slave, k, b);
    if !(e.ack || retries == 0) {
      TriesStart(S, slave, k + 10, b, retries - 1, ms);
      var others := Address(slave, k + 10, b, retries - 1).0;
      StartsInBoth([lead, e, P], [S] + others, ms);
      assert [lead] + ([e, P, S] + others) == [lead, e, P] + ([S] + others);
    }
  }

  lemma PhaseStarts(lead: Event, slave: Slave, k: nat, m: Message, retries: nat, ms: seq<Message>)
    requires lead in {S, R} && m in ms && !m.flags.noStart
    ensures StartsAddress([lead] + AddressPhase(slave, k, m, retries).0, ms)
  {
    hide AddressesSome, Address, TotalClocks, FirstAddress, StartsAddress;
    assert AddressesSome(FirstAddress(m), ms) by { AddressIsSome(FirstAddress(m), m, ms); }
    var first := Address(slave, k, FirstAddress(m), Tries(m, retries)).0;
    TriesStart(lead, slave, k, FirstAddress(m), Tries(m, retries), ms);
    var e := Write(slave, k + TotalClocks(first), m.addr % 0x100);
    assert StartsAddress([e], ms) by { OneNoStart(e, ms); }
    StartsInBoth([lead] + first, [e], ms);
    assert [lead] + (first + [e]) == [lead] + first + [e];
    if m.flags.tenBit && m.flags.read {
      assert FirstAddress(m) < 255 by { FirstAddressIs(m); }
      assert AddressesSome(FirstAddress(m) + 1, ms) by { AddressIsSome(FirstAddress(m) + 1, m, ms); }
      var again := Address(slave, k + TotalClocks(first) + 10, FirstAddress(m) + 1, Tries(m, retries)).0;
      TriesStart(R, slave, k + TotalClocks(first) + 10, FirstAddress(m) + 1, Tries(m, retries), ms);
      StartsInBoth([lead] + first + [e], [R] + again, ms);
      assert [lead] + (first + [e] + [R] + again) == [lead] + first + [e] + ([R] + again);
    }
  }

  lemma AddressIsSome(b: Byte, m: Message, ms: seq<Message>)
    requires m in ms && !m.flags.noStart
    requires b == FirstAddress(m) || (m.flags.tenBit && m.flags.read && b == FirstAddress(m) + 1)
    ensures AddressesSome(b, ms)
  {
    hide FirstAddress, Addresses;
    FirstAddressIs(m);
  }

  lemma OneNoStart(e: Event, ms: seq<Message>)
    requires e !in {S, R}
    ensures StartsAddress([e], ms)
  {}

  /** The events of one message; in front of them stands the START of the transfer if it is the first. */
  lemma MessageStarts(slave: Slave, k: nat, m: Message, first: bool, retries: nat, ms: seq<Message>)
    requires m in ms && (first ==> !m.flags.noStart)
    ensures StartsAddress((if first then [S] else []) + OneMessage(slave, k, m, first, retries).0, ms)
  {
    hide StartsAddress, AddressPhase, DataPhase, TotalClocks;
    var (head, ok) := OneHead(slave, k, m, first, retries);
    var lead: seq<Event> := if first then [S] else [];
    if m.flags.noStart {
      assert lead + head == [];
      assert StartsAddress([], ms) by { NothingStarts(ms); }
    } else {
      var start := if first then S else R;
      var k' := k + TotalClocks(if first then [] else [R]);
      PhaseStarts(start, slave, k', m, retries, ms);
      assert lead + head == [start] + AddressPhase(slave, k', m, retries).0;
    }
    DataStarts(slave, k + TotalClocks(head), m, ms);
    StartsInBoth(lead + head, DataPhase(slave, k + TotalClocks(head), m), ms);
    assert lead + (head + DataPhase(slave, k + TotalClocks(head), m)) ==
           lead + head + DataPhase(slave, k + TotalClocks(head), m);
  }

  lemma NothingStarts(ms: seq<Message>)
    ensures StartsAddress([], ms)
  {}

  /** Refilled buffers change nobody's address. */
  lemma SameAddresses(events: seq<Event>, ms: seq<Message>, buf: array<Byte>, content: seq<Byte>)
    requires StartsAddress(events, Refilled(ms, buf, content))
    ensures StartsAddress(events, ms)
  {
    forall b | AddressesSome(b, Refilled(ms, buf, content))
      ensures AddressesSome(b, ms)
    {
      var j :| 0 <= j < |ms| && !Refilled(ms, buf, content)[j].flags.noStart
          && Addresses(b, Refilled(ms, buf, content)[j]);
      assert Addresses(b, ms[j]) && !ms[j].flags.noStart;
    }
  }

  lemma MessagesUnfold(slave: Slave, k: nat, ms: seq<Message>, i: nat, retries: nat)
    requires i <= |ms|
    ensures i == |ms| ==> Messages(slave, k, ms, i, retries).0 == []
    ensures i < |ms| ==>
              var (events, code) := OneMessage(slave, k, ms[i], i == 0, retries);
              var after := Refilled(ms, ms[i].buf, OneContent(slave, k, ms[i], i == 0, retries));
              Messages(slave, k, ms, i, retries).0 ==
              if code != 0 then events else events + Messages(slave, k + TotalClocks(events), after, i + 1, retries).0
  {
    hide OneMessage, OneContent, TotalClocks, Refilled;
  }

  lemma {:induction false} MessagesStart(slave: Slave, k: nat, ms: seq<Message>, i: nat, retries: nat)
    requires i <= |ms| && (i == 0 ==> ms != [] && !ms[0].flags.noStart)
    ensures StartsAddress((if i == 0 then [S] else []) + Messages(slave, k, ms, i, retries).0, ms)
    decreases |ms| - i
  {
    hide StartsAddress, OneMessage, OneContent, TotalClocks, Refilled, Messages;
    MessagesUnfold(slave, k, ms, i, retries);
    if i == |ms| {
      NothingStarts(ms);
      var none: seq<Event> := [];
      assert none + none == none;
    } else {
      var lead: seq<Event> := if i == 0 then [S] else [];
      var (events, code) := OneMessage(slave, k, ms[i], i == 0, retries);
      var content := OneContent(slave, k, ms[i], i == 0, retries);
      MessageStarts(slave, k, ms[i], i == 0, retries, ms);
      if code == 0 {
        var after := Refilled(ms, ms[i].buf, content);
        assert |after| == |ms|;
        var rest := Messages(slave, k + TotalClocks(events), after, i + 1, retries).0;
        MessagesStart(slave, k + TotalClocks(events), after, i + 1, retries);
        assert [] + rest == rest;
        SameAddresses(rest, ms, ms[i].buf, content);
        StartsInBoth(lead + events, rest, ms);
        assert lead + (events + rest) == lead + events + rest;
      }
    }
  }

  /** Behind every START and repeated START of a transfer stands a byte that addresses one of its messages, in its
      direction, if the first message has a START of its own. */
  lemma TransferAddresses(slave: Slave, k: nat, ms: seq<Message>, retries: nat)
    requires ms != [] && !ms[0].flags.noStart
    ensures StartsAddress(Transfer(slave, k, ms, retries).0, ms)
  {
    hide StartsAddress, Messages;
    var events := Messages(slave, k, ms, 0, retries).0;
    MessagesStart(slave, k, ms, 0, retries);
    OneNoStart(P, ms);
    StartsInBoth([S] + events, [P], ms);
  }

  /** All bytes of a message that is read are acknowledged but the last, so that the device lets go of the bus. */
  lemma {:induction false} LastByteRefused(slave: Slave, k: nat, count: nat)
    ensures var events := ReadAll(slave, k, count, false);
            |events| == count && forall i :: 0 <= i < count ==>
                events[i].Received? && (events[i].ack <==> i < count - 1)
    decreases count
  {
    if count > 0 { LastByteRefused(slave, k + 9, count - 1); }
  }

  // ---- What a transfer returns ----

  /** The tries of an address that nobody acknowledges. */
  function Unanswered(b: Byte, retries: nat): seq<Event> {
    if retries == 0 then [Sent(b, false)] else [Sent(b, false), P, S] + Unanswered(b, retries - 1)
  }

  lemma {:induction false} NobodyTakesAddress(slave: Slave, k: nat, b: Byte, retries: nat)
    requires forall n :: slave(n)
    ensures Address(slave, k, b, retries) == (Unanswered(b, retries), false)
    decreases retries
  {
    if retries > 0 { NobodyTakesAddress(slave, k + 10, b, retries - 1); }
  }

  /** If nobody is there, the first address is tried as often as allowed and the transfer returns -8. */
  lemma NobodyAnswers(slave: Slave, k: nat, ms: seq<Message>, retries: nat)
    requires (forall n :: slave(n)) && ms != [] && !ms[0].flags.noStart && !ms[0].flags.ignoreNack
             && !ms[0].flags.tenBit
    ensures exists b: Byte :: Addresses(b, ms[0])
              && Transfer(slave, k, ms, retries).0 == [S] + Unanswered(b, retries) + [P]
    ensures Transfer(slave, k, ms, retries).1 == -8
  {
    hide Addresses, Address, FirstAddress, DataPhase, TotalClocks, Unanswered;
    var b := FirstAddress(ms[0]);
    FirstAddressIs(ms[0]);
    NobodyTakesAddress(slave, k + TotalClocks([]), b, retries);
    MessagesUnfold(slave, k, ms, 0, retries);
    assert [] + Unanswered(b, retries) == Unanswered(b, retries);
    assert Addresses(b, ms[0]) && Transfer(slave, k, ms, retries).0 == [S] + Unanswered(b, retries) + [P];
  }

  // ---- SDA is stable while SCL is high ----

  /** How often SDA changes while SCL is high. */
  function Changes(trace: seq<Line>): nat {
    if trace == [] then 0
    else
      var before := Watched(trace[..|trace| - 1]);
      var a := trace[|trace| - 1];
      Changes(trace[..|trace| - 1]) + if a.Sda? && before.scl && a.level != before.sda then 1 else 0
  }

  function Conditions(symbols: seq<Symbol>): nat {
    if symbols == [] then 0 else Conditions(symbols[..|symbols| - 1]) + if symbols[|symbols| - 1].Clock? then 0 else 1
  }

  function ConditionEvents(events: seq<Event>): nat {
    if events == [] then 0 else ConditionEvents(events[..|events| - 1]) + if events[|events| - 1] in {S, R, P} then 1
        else 0
  }

  lemma {:induction false} ChangesAreConditions(trace: seq<Line>)
    ensures Changes(trace) == Conditions(Watched(trace).symbols)
  {
    if trace != [] {
      var front, a := trace[..|trace| - 1], trace[|trace| - 1];
      ChangesAreConditions(front);
      var w := Watched(front);
      var after := Seen(w, a).symbols;
      if |after| > |w.symbols| { assert after[..|after| - 1] == w.symbols; }
    }
  }

  lemma {:induction false} ConditionsConcat(a: seq<Symbol>, b: seq<Symbol>)
    ensures Conditions(a + b) == Conditions(a) + Conditions(b)
  {
    if b == [] {
      assert a + b == a;
    } else {
      assert (a + b)[..|a + b| - 1] == a + b[..|b| - 1];
      ConditionsConcat(a, b[..|b| - 1]);
    }
  }

  lemma {:induction false} NoConditions(bits: seq<bool>)
    ensures Conditions(Clocks(bits)) == 0
  {
    if bits != [] {
      NoConditions(bits[..|bits| - 1]);
      assert Clocks(bits)[..|bits| - 1] == Clocks(bits[..|bits| - 1]);
    }
  }

  lemma ConditionsOfEvent(e: Event)
    ensures Conditions(SymbolsOf(e)) == if e in {S, R, P} then 1 else 0
  {
    hide Bits, Clocks;
    match e
    case S => assert [Start][..0] == [];
    case R => TwoSymbols(Clock(true), Start);
    case P => TwoSymbols(Clock(false), Stop);
    case Sent(b, _) =>
      NoConditions(Bits(b, 8));
      ConditionsConcat(Clocks(Bits(b, 8)), [Clock(true)]);
      assert [Clock(true)][..0] == [];
    case Received(_, ack) =>
      NoConditions(RELEASED);
      ConditionsConcat(Clocks(RELEASED), [Clock(!ack)]);
      assert [Clock(!ack)][..0] == [];
    case Taken(_) => NoConditions(RELEASED);
  }

  lemma TwoSymbols(a: Symbol, b: Symbol)
    ensures Conditions([a, b]) == (if a.Clock? then 0 else 1) + if b.Clock? then 0 else 1
  {
    assert [a][..0] == [];
    assert Conditions([a]) == if a.Clock? then 0 else 1;
    assert [a, b][..1] == [a];
  }

  lemma {:induction false} ConditionsOnWire(events: seq<Event>)
    ensures Conditions(OnWire(events)) == ConditionEvents(events)
  {
    hide SymbolsOf;
    if events != [] {
      var front, e := events[..|events| - 1], events[|events| - 1];
      ConditionsOnWire(front);
      ConditionsConcat(OnWire(front), SymbolsOf(e));
      ConditionsOfEvent(e);
    }
  }

  /** While SCL is high the master changes SDA once for each START, repeated START and STOP, and at no other time. */
  lemma SdaChangesOnlyAtConditions(trace: seq<Line>, events: seq<Event>)
    requires Watched(trace).symbols == OnWire(events)
    ensures Changes(trace) == ConditionEvents(events)
  {
    ChangesAreConditions(trace);
    ConditionsOnWire(events);
  }

  // ---- A listener on the wire ----

  datatype Heard = HeardStart | HeardStop | HeardByte(b: nat, ack: bool)

  /** What was heard so far, and the bits of a byte in progress. */
  datatype Ear = Ear(heard: seq<Heard>, bits: seq<bool>)

  /** Nine clocks make a byte with its acknowledge; START and STOP discard what was begun. */
  function Hear(ear: Ear, s: Symbol): Ear {
    match s
    case Start => Ear(ear.heard + [HeardStart], [])
    case Stop => Ear(ear.heard + [HeardStop], [])
    case Clock(level) =>
      if |ear.bits| < 8 then ear.(bits := ear.bits + [level])
      else Ear(ear.heard + [HeardByte(Value(ear.bits), !level)], [])
  }

  function Listen(ear: Ear, symbols: seq<Symbol>): Ear
    decreases |symbols|
  {
    if symbols == [] then ear else Listen(Hear(ear, symbols[0]), symbols[1..])
  }

  /** What the master's symbols look like on the wire: a bit is low when master or slave pulls it low, and START and
      STOP are there only if the slave releases SDA in the clock in which the master changes it. */
  function Wire(symbols: seq<Symbol>, slave: Slave, k: nat): (w: seq<Symbol>)
    decreases |symbols|
  {
    if symbols == [] then []
    else if symbols[0].Clock? then [Clock(symbols[0].level && slave(k))] + Wire(symbols[1..], slave, k + 1)
    else (if slave(k - 1) then [symbols[0]] else []) + Wire(symbols[1..], slave, k)
  }

  function CountClocks(symbols: seq<Symbol>): nat {
    if symbols == [] then 0 else (if symbols[0].Clock? then 1 else 0) + CountClocks(symbols[1..])
  }

  lemma {:induction false} WireConcat(a: seq<Symbol>, b: seq<Symbol>, slave: Slave, k: nat)
    ensures Wire(a + b, slave, k) == Wire(a, slave, k) + Wire(b, slave, k + CountClocks(a))
    decreases |a|
  {
    if a == [] {
      assert a + b == b;
    } else {
      assert (a + b)[1..] == a[1..] + b;
      WireConcat(a[1..], b, slave, if a[0].Clock? then k + 1 else k);
    }
  }

  lemma {:induction false} ListenConcat(ear: Ear, a: seq<Symbol>, b: seq<Symbol>)
    ensures Listen(ear, a + b) == Listen(Listen(ear, a), b)
    decreases |a|
  {
    hide Hear;
    if a == [] {
      assert a + b == b;
    } else {
      assert (a + b)[1..] == a[1..] + b;
      ListenConcat(Hear(ear, a[0]), a[1..], b);
    }
  }

  /** A run of clocks during which the slave releases SDA, or the master does, seen on the wire. */
  lemma {:induction false} ClocksHeard(ear: Ear, bits: seq<bool>, levels: seq<bool>, slave: Slave, k: nat)
    requires |bits| == |levels| && |ear.bits| + |bits| <= 8
    requires forall i :: 0 <= i < |bits| ==> levels[i] == (bits[i] && slave(k + i))
    ensures Listen(ear, Wire(Clocks(bits), slave, k)) == ear.(bits := ear.bits + levels)
    ensures CountClocks(Clocks(bits)) == |bits|
    decreases |bits|
  {
    if bits == [] {
      assert ear.bits + levels == ear.bits;
    } else {
      assert Clocks(bits)[1..] == Clocks(bits[1..]);
      var next := ear.(bits := ear.bits + [levels[0]]);
      assert levels[0] == (bits[0] && slave(k + 0));
      forall i | 0 <= i < |bits| - 1
        ensures levels[1..][i] == (bits[1..][i] && slave(k + 1 + i))
      {
        assert levels[i + 1] == (bits[i + 1] && slave(k + (i + 1)));
      }
      ClocksHeard(next, bits[1..], levels[1..], slave, k + 1);
      assert ear.bits + [levels[0]] + levels[1..] == ear.bits + levels;
      var w := Wire(Clocks(bits), slave, k);
      assert w[0] == Clock(levels[0]) && w[1..] == Wire(Clocks(bits[1..]), slave, k + 1);
    }
  }

  /** The slave leaves the wire to the master: it releases SDA under every 1 the master writes, under the master's
      refusal of a byte, and whenever the master makes a START or STOP condition. */
  predicate Clear(e: Event, slave: Slave, k: nat) {
    match e
    case Sent(b, _) => forall i :: 0 <= i < 8 && Bits(b, 8)[i] ==> slave(k + i)
    case Received(_, ack) => ack || slave(k + 8)
    case S => slave(k - 1)
    case R => slave(k)
    case P => slave(k)
    case Taken(_) => false
  }

  predicate AllClear(events: seq<Event>, slave: Slave, k: nat)
    decreases |events|
  {
    events == [] || (Clear(events[0], slave, k) && AllClear(events[1..], slave, k + ClockCount(events[0])))
  }

  /** Every byte has its acknowledge clock. */
  predicate NineClocks(events: seq<Event>) { forall e :: e in events ==> !e.Taken? }

  function HeardOf(e: Event): Heard {
    match e
    case S => HeardStart
    case R => HeardStart
    case P => HeardStop
    case Sent(b, ack) => HeardByte(b, ack)
    case Received(b, ack) => HeardByte(b, ack)
    case Taken(b) => HeardByte(b, false)
  }

  function AllHeard(events: seq<Event>): seq<Heard> {
    if events == [] then [] else [HeardOf(events[0])] + AllHeard(events[1..])
  }

  lemma NinthClock(ear: Ear, level: bool, slave: Slave, k: nat)
    requires |ear.bits| == 8
    ensures Listen(ear, Wire([Clock(level)], slave, k)) ==
              Ear(ear.heard + [HeardByte(Value(ear.bits), !(level && slave(k)))], [])
    ensures CountClocks([Clock(level)]) == 1
  {
    assert Wire([Clock(level)], slave, k) == [Clock(level && slave(k))];
  }

  /** Nine clocks are heard as one byte. */
  lemma ByteHeard(heard: seq<Heard>, bits: seq<bool>, levels: seq<bool>, ninth: bool, slave: Slave, k: nat)
    requires |bits| == |levels| == 8 && forall i :: 0 <= i < 8 ==> levels[i] == (bits[i] && slave(k + i))
    ensures var symbols := Clocks(bits) + [Clock(ninth)];
            Listen(Ear(heard, []), Wire(symbols, slave, k)) ==
                Ear(heard + [HeardByte(Value(levels), !(ninth && slave(k + 8)))], [])
            && CountClocks(symbols) == 9
  {
    hide Listen, Wire, Hear;
    ClocksHeard(Ear(heard, []), bits, levels, slave, k);
    assert [] + levels == levels;
    WireConcat(Clocks(bits), [Clock(ninth)], slave, k);
    ListenConcat(Ear(heard, []), Wire(Clocks(bits), slave, k), Wire([Clock(ninth)], slave, k + 8));
    NinthClock(Ear(heard, levels), ninth, slave, k + 8);
    CountConcat(Clocks(bits), [Clock(ninth)]);
  }

  lemma {:induction false} CountConcat(a: seq<Symbol>, b: seq<Symbol>)
    ensures CountClocks(a + b) == CountClocks(a) + CountClocks(b)
    decreases |a|
  {
    if a == [] {
      assert a + b == b;
    } else {
      assert (a + b)[1..] == a[1..] + b;
      CountConcat(a[1..], b);
    }
  }

  lemma ConditionHeard(heard: seq<Heard>, e: Event, slave: Slave, k: nat)
    requires e in {S, R, P} && Clear(e, slave, k)
    ensures Listen(Ear(heard, []), Wire(SymbolsOf(e), slave, k)) == Ear(heard + [HeardOf(e)], [])
    ensures CountClocks(SymbolsOf(e)) == ClockCount(e)
  {
    match e
    case S =>
      OneSymbol(Ear(heard, []), Start, slave, k);
    case R =>
      OneSymbol(Ear(heard, [slave(k)]), Start, slave, k + 1);
      FirstClock(Ear(heard, []), true, Start, slave, k);
    case P =>
      OneSymbol(Ear(heard, [false]), Stop, slave, k + 1);
      FirstClock(Ear(heard, []), false, Stop, slave, k);
  }

  lemma OneSymbol(ear: Ear, s: Symbol, slave: Slave, k: nat)
    requires !s.Clock? && slave(k - 1)
    ensures Listen(ear, Wire([s], slave, k)) == Hear(ear, s) && CountClocks([s]) == 0
  {
    assert Wire([s], slave, k) == [s] + [];
    assert [s][1..] == [];
  }

  lemma FirstClock(ear: Ear, level: bool, s: Symbol, slave: Slave, k: nat)
    requires !s.Clock?
    ensures Wire([Clock(level), s], slave, k) == [Clock(level && slave(k))] + Wire([s], slave, k + 1)
    ensures Listen(ear, Wire([Clock(level), s], slave, k)) ==
              Listen(Hear(ear, Clock(level && slave(k))), Wire([s], slave, k + 1))
    ensures CountClocks([Clock(level), s]) == 1 + CountClocks([s])
  {
    var symbols := [Clock(level), s];
    assert symbols[1..] == [s];
    var w := Wire(symbols, slave, k);
    assert w == [Clock(level && slave(k))] + Wire([s], slave, k + 1);
    assert w[1..] == Wire([s], slave, k + 1);
  }

  /** The levels of a byte on the wire: what the master writes, less what the slave pulls low, or what the slave
      drives. */
  function Levels(e: Event, slave: Slave, k: nat): (levels: seq<bool>)
    requires e.Sent? || e.Received?
    ensures |levels| == 8
  {
    if e.Sent? then seq(8, i requires 0 <= i < 8 => Bits(e.b, 8)[i] && slave(k + i)) else SlaveBits(slave, k)
  }

  /** The acknowledgement as the wire shows it: low if either side pulls it low. */
  function AckOnWire(e: Event, slave: Slave, k: nat): bool
    requires e.Sent? || e.Received?
  {
    e.ack || (e.Received? && !slave(k + 8))
  }

  /** A byte is heard as the levels on the wire. */
  lemma ByteOnWire(heard: seq<Heard>, e: Event, slave: Slave, k: nat)
    requires (e.Sent? || e.Received?) && Fits(e, slave, k, true)
    ensures Listen(Ear(heard, []), Wire(SymbolsOf(e), slave, k)) ==
            Ear(heard + [HeardByte(Value(Levels(e, slave, k)), AckOnWire(e, slave, k))], [])
    ensures CountClocks(SymbolsOf(e)) == 9
  {
    hide Listen, Wire, Hear, Bits, Value, Clocks, CountClocks;
    match e
    case Sent(b, ack) => ByteHeard(heard, Bits(b, 8), Levels(e, slave, k), true, slave, k);
    case Received(b, ack) => ByteHeard(heard, RELEASED, Levels(e, slave, k), !ack, slave, k);
  }

  /** The levels show the byte exactly if the slave leaves the wire to the master. */
  lemma ByteShown(e: Event, slave: Slave, k: nat)
    requires (e.Sent? || e.Received?) && Fits(e, slave, k, true)
    ensures HeardByte(Value(Levels(e, slave, k)), AckOnWire(e, slave, k)) == HeardOf(e) <==> Clear(e, slave, k)
  {
    hide Bits, Value;
    var levels := Levels(e, slave, k);
    if e.Sent? {
      EightBits(e.b);
      BitsOfValue(levels);
      if Value(levels) == e.b { assert forall i :: 0 <= i < 8 ==> levels[i] == Bits(e.b, 8)[i]; }
      if Clear(e, slave, k) { assert levels == Bits(e.b, 8); }
    }
  }

  lemma EventHeard(heard: seq<Heard>, e: Event, slave: Slave, k: nat)
    requires Fits(e, slave, k, e != S) && Clear(e, slave, k)
    ensures Listen(Ear(heard, []), Wire(SymbolsOf(e), slave, k)) == Ear(heard + [HeardOf(e)], [])
    ensures CountClocks(SymbolsOf(e)) == ClockCount(e)
  {
    hide Listen, Wire, Hear, Bits, Value, Levels, CountClocks, SymbolsOf, AckOnWire;
    if e in {S, R, P} {
      ConditionHeard(heard, e, slave, k);
    } else {
      ByteOnWire(heard, e, slave, k);
      ByteShown(e, slave, k);
    }
  }

  // ---- What is lost on the wire stays lost ----

  /** The START and STOP conditions among what was heard. */
  function Edges(heard: seq<Heard>): nat {
    if heard == [] then 0 else (if heard[0].HeardByte? then 0 else 1) + Edges(heard[1..])
  }

  lemma {:induction false} EdgesConcat(a: seq<Heard>, b: seq<Heard>)
    ensures Edges(a + b) == Edges(a) + Edges(b)
    decreases |a|
  {
    if a == [] {
      assert a + b == b;
    } else {
      assert (a + b)[1..] == a[1..] + b;
      EdgesConcat(a[1..], b);
    }
  }

  lemma EdgesOfHear(ear: Ear, s: Symbol)
    ensures ear.heard <= Hear(ear, s).heard && Edges(Hear(ear, s).heard) == Edges(ear.heard) + if s.Clock? then 0 else 1
  {
    hide Value;
    var heard := Hear(ear, s).heard;
    assert heard == ear.heard + heard[|ear.heard|..];
    EdgesConcat(ear.heard, heard[|ear.heard|..]);
    if |heard| > |ear.heard| { assert heard[|ear.heard|..][1..] == []; }
  }

  /** A listener only adds to what it heard, and hears as many conditions as there are on the wire. */
  lemma {:induction false} ListenAdds(ear: Ear, w: seq<Symbol>)
    ensures ear.heard <= Listen(ear, w).heard && Edges(Listen(ear, w).heard) == Edges(ear.heard) + Conditions(w)
    decreases |w|
  {
    hide Hear;
    if w != [] {
      EdgesOfHear(ear, w[0]);
      ListenAdds(Hear(ear, w[0]), w[1..]);
      assert w == [w[0]] + w[1..];
      ConditionsConcat([w[0]], w[1..]);
      assert [w[0]][..0] == [];
    }
  }

  /** The wire shows no condition that the master does not make. */
  lemma {:induction false} WireOnlyLoses(symbols: seq<Symbol>, slave: Slave, k: nat)
    ensures Conditions(Wire(symbols, slave, k)) <= Conditions(symbols)
    decreases |symbols|
  {
    if symbols != [] {
      var s, rest := symbols[0], symbols[1..];
      var k' := if s.Clock? then k + 1 else k;
      var one := if s.Clock? then [Clock(s.level && slave(k))] else if slave(k - 1) then [s] else [];
      WireOnlyLoses(rest, slave, k');
      assert symbols == [s] + rest && Wire(symbols, slave, k) == one + Wire(rest, slave, k');
      ConditionsConcat([s], rest);
      ConditionsConcat(one, Wire(rest, slave, k'));
      assert [s][..0] == [] && (one != [] ==> one[..0] == []);
    }
  }

  lemma {:induction false} EdgesOfAll(events: seq<Event>)
    ensures Edges(AllHeard(events)) == Conditions(OnWire(events))
    decreases |events|
  {
    hide SymbolsOf;
    if events != [] {
      var e, rest := events[0], events[1..];
      assert events == [e] + rest;
      TotalCons(e, rest);
      EdgesOfAll(rest);
      ConditionsConcat(SymbolsOf(e), OnWire(rest));
      ConditionsOfEvent(e);
      assert AllHeard(events) == [HeardOf(e)] + AllHeard(rest);
    }
  }

  /** A condition the slave hides leaves the wire with one less than the master makes. */
  lemma HiddenCondition(e: Event, slave: Slave, k: nat)
    requires e in {S, R, P} && !Clear(e, slave, k)
    ensures Conditions(Wire(SymbolsOf(e), slave, k)) == 0
  {
    match e
    case S => NoneShown(Start, slave, k);
    case R => NoneShown(Start, slave, k + 1); FirstClock(Ear([], []), true, Start, slave, k);
        OneLevel(true && slave(k));
    case P => NoneShown(Stop, slave, k + 1); FirstClock(Ear([], []), false, Stop, slave, k); OneLevel(false);
  }

  lemma NoneShown(s: Symbol, slave: Slave, k: nat)
    requires !s.Clock? && !slave(k - 1)
    ensures Wire([s], slave, k) == [] && Conditions([]) == 0
  {
    assert [s][1..] == [];
  }

  lemma OneLevel(level: bool)
    ensures Conditions([Clock(level)]) == 0
  {
    assert [Clock(level)][..0] == [];
  }

  /** If all is heard, then so is the first event, and the rest behind it. */
  lemma FirstIsHeard(heard: seq<Heard>, e: Event, rest: seq<Event>, slave: Slave, k: nat)
    requires Fits(e, slave, k, e != S) && !e.Taken?
    requires var first := Listen(Ear(heard, []), Wire(SymbolsOf(e), slave, k));
             Listen(first, Wire(OnWire(rest), slave, k + ClockCount(e))) ==
                 Ear(heard + ([HeardOf(e)] + AllHeard(rest)), [])
    ensures Clear(e, slave, k)
  {
    hide Listen, Wire, Hear, Bits, Value, Levels, CountClocks, SymbolsOf, AckOnWire, Clear, Conditions, Edges, OnWire,
        AllHeard;
    var first := Listen(Ear(heard, []), Wire(SymbolsOf(e), slave, k));
    var w := Wire(OnWire(rest), slave, k + ClockCount(e));
    ListenAdds(first, w);
    if e in {S, R, P} {
      if !Clear(e, slave, k) {
        HiddenCondition(e, slave, k);
        ListenAdds(Ear(heard, []), Wire(SymbolsOf(e), slave, k));
        WireOnlyLoses(OnWire(rest), slave, k + ClockCount(e));
        EdgesOfAll(rest);
        EdgesConcat(heard, [HeardOf(e)] + AllHeard(rest));
        EdgesConcat([HeardOf(e)], AllHeard(rest));
        OneEdge(HeardOf(e));
        assert false;
      }
    } else {
      ByteOnWire(heard, e, slave, k);
      assert first.heard[|heard|] == (heard + ([HeardOf(e)] + AllHeard(rest)))[|heard|];
      ByteShown(e, slave, k);
    }
  }

  lemma OneEdge(h: Heard)
    ensures Edges([h]) == if h.HeardByte? then 0 else 1
  {
    assert [h][1..] == [];
  }

  /** A listener that samples SDA on the rising edges of SCL hears the events of a transfer, every byte with its value,
      in order, and every acknowledgement, if the slave leaves the wire to the master; and exactly then, if every byte
      has its acknowledge clock. */
  lemma {:induction false} ListenerHears(heard: seq<Heard>, events: seq<Event>, slave: Slave, k: nat, busy: bool,
                                         busy': bool)
    requires Runs(events, slave, k, busy, busy')
    ensures AllClear(events, slave, k) ==>
              Listen(Ear(heard, []), Wire(OnWire(events), slave, k)) == Ear(heard + AllHeard(events), [])
    ensures NineClocks(events)
            && Listen(Ear(heard, []), Wire(OnWire(events), slave, k)) == Ear(heard + AllHeard(events), []) ==>
              AllClear(events, slave, k)
    decreases |events|
  {
    hide Listen, Wire, OnWire, TotalClocks, SymbolsOf, Clear, CountClocks;
    if events == [] {
      SilenceHeard(heard, slave, k);
    } else {
      var e, rest := events[0], events[1..];
      assert events == [e] + rest;
      TotalCons(e, rest);
      assert Fits(e, slave, k, e != S) by { FitsAnyhow(e, slave, k, busy); }
      EventClocks(e);
      WireConcat(SymbolsOf(e), OnWire(rest), slave, k);
      ListenConcat(Ear(heard, []), Wire(SymbolsOf(e), slave, k), Wire(OnWire(rest), slave, k + ClockCount(e)));
      ListenerHears(heard + [HeardOf(e)], rest, slave, k + ClockCount(e), BusyAfter(e), busy');
      assert heard + [HeardOf(e)] + AllHeard(rest) == heard + AllHeard(events) ==
          heard + ([HeardOf(e)] + AllHeard(rest));
      if NineClocks(events)
          && Listen(Ear(heard, []), Wire(OnWire(events), slave, k)) == Ear(heard + AllHeard(events), []) {
        FirstIsHeard(heard, e, rest, slave, k);
      }
      if Clear(e, slave, k) { EventHeard(heard, e, slave, k); }
    }
  }

  lemma EventClocks(e: Event)
    ensures CountClocks(SymbolsOf(e)) == ClockCount(e)
  {
    hide Bits;
    match e
    case S =>
    case R => assert [Clock(true), Start][1..] == [Start];
    case P => assert [Clock(false), Stop][1..] == [Stop];
    case Sent(b, _) => ClocksCounted(Bits(b, 8)); CountConcat(Clocks(Bits(b, 8)), [Clock(true)]);
    case Received(_, ack) => ClocksCounted(RELEASED); CountConcat(Clocks(RELEASED), [Clock(!ack)]);
    case Taken(_) => ClocksCounted(RELEASED);
  }

  lemma {:induction false} ClocksCounted(bits: seq<bool>)
    ensures CountClocks(Clocks(bits)) == |bits|
    decreases |bits|
  {
    if bits != [] {
      assert Clocks(bits)[1..] == Clocks(bits[1..]);
      ClocksCounted(bits[1..]);
    }
  }

  lemma SilenceHeard(heard: seq<Heard>, slave: Slave, k: nat)
    ensures Listen(Ear(heard, []), Wire(OnWire([]), slave, k)) == Ear(heard + AllHeard([]), [])
  {
    assert heard + [] == heard;
  }

  lemma FitsAnyhow(e: Event, slave: Slave, k: nat, busy: bool)
    requires Fits(e, slave, k, busy)
    ensures Fits(e, slave, k, e != S)
  {}

  // ---- From the lines to the listener ----

  /** What a watcher of the wire sees. The slave holds its level while SCL is high and sets the next one before SCL
      rises again; a change of the wire's SDA while SCL is high is a START or STOP, whoever let it through. */
  function OnLines(trace: seq<Line>, slave: Slave): Watch {
    if trace == [] then Watch(slave(-1), true, [])
    else
      var front, a := trace[..|trace| - 1], trace[|trace| - 1];
      OneMoreLine(Watched(front), OnLines(front, slave), a, slave)
  }

  function OneMoreLine(master: Watch, wire: Watch, a: Line, slave: Slave): Watch {
    var n := CountClocks(master.symbols);
    match a
    case Sda(level) => Seen(wire, Sda(level && slave(n - 1)))
    case Scl(level) => Seen(if level && !wire.scl then wire.(sda := master.sda && slave(n)) else wire, a)
  }

  /** The wire shows the master's symbols as far as the slave lets them through. */
  ghost predicate Shows(wire: Watch, master: Watch, slave: Slave) {
    && wire.symbols == Wire(master.symbols, slave, 0) && wire.scl == master.scl
    && (wire.scl ==> wire.sda == (master.sda && slave(CountClocks(master.symbols) - 1)))
  }

  lemma OneMoreShown(wire: Watch, master: Watch, a: Line, slave: Slave)
    requires Shows(wire, master, slave)
    ensures Shows(OneMoreLine(master, wire, a, slave), Seen(master, a), slave)
  {
    hide Wire, CountClocks;
    WireSnoc(master.symbols, Start, slave);
    WireSnoc(master.symbols, Stop, slave);
    WireSnoc(master.symbols, Clock(master.sda), slave);
  }

  lemma WireSnoc(symbols: seq<Symbol>, s: Symbol, slave: Slave)
    ensures Wire(symbols + [s], slave, 0) == Wire(symbols, slave, 0) + Wire([s], slave, CountClocks(symbols))
    ensures Wire([s], slave, CountClocks(symbols)) ==
            if s.Clock? then [Clock(s.level && slave(CountClocks(symbols)))]
                else if slave(CountClocks(symbols) - 1) then [s] else []
    ensures CountClocks(symbols + [s]) == CountClocks(symbols) + if s.Clock? then 1 else 0
  {
    WireConcat(symbols, [s], slave, 0);
    CountConcat(symbols, [s]);
    assert [s][1..] == [];
  }

  /** Watching the wire, line by line, gives the symbols of the wire. */
  lemma {:induction false} WatchedOnWire(trace: seq<Line>, slave: Slave)
    ensures Shows(OnLines(trace, slave), Watched(trace), slave)
  {
    hide Wire, CountClocks, Seen, OneMoreLine;
    if trace == [] {
      NoSymbols(slave);
      Released(slave);
    } else {
      var front, a := trace[..|trace| - 1], trace[|trace| - 1];
      WatchedOnWire(front, slave);
      OneMoreShown(OnLines(front, slave), Watched(front), a, slave);
    }
  }

  lemma Released(slave: Slave)
    ensures Shows(OnLines([], slave), Watched([]), slave)
  {}

  lemma NoSymbols(slave: Slave)
    ensures Wire([], slave, 0) == [] && CountClocks([]) == 0
  {}

  /** What a listener on the wire hears of a transfer, after whatever it heard before: a START for every START and
      repeated START, each byte with its value and acknowledgement, and the STOP, exactly if the slave leaves the wire
      to the master. */
  lemma TransferIsHeard(slave: Slave, trace: seq<Line>, before: seq<Symbol>, ms: seq<Message>, retries: nat)
    requires var events := Transfer(slave, CountClocks(before), ms, retries).0;
             Watched(trace).symbols == before + OnWire(events)
    requires Listen(Ear([], []), Wire(before, slave, 0)).bits == []
    ensures var events := Transfer(slave, CountClocks(before), ms, retries).0;
            var heard := Listen(Ear([], []), Wire(before, slave, 0)).heard;
            var allHeard := Listen(Ear([], []), OnLines(trace, slave).symbols) == Ear(heard + AllHeard(events), []);
            && (AllClear(events, slave, CountClocks(before)) ==> allHeard)
            && (NineClocks(events) && allHeard ==> AllClear(events, slave, CountClocks(before)))
            && (AllAcknowledged(ms) ==> NineClocks(events))
  {
    hide AllAcknowledged, Transfer, Listen, Wire, OnWire, AllClear, Runs, Watched, OnLines, CountClocks, NineClocks;
    var k := CountClocks(before);
    var events := Transfer(slave, k, ms, retries).0;
    var ear := Listen(Ear([], []), Wire(before, slave, 0));
    WatchedOnWire(trace, slave);
    WireConcat(before, OnWire(events), slave, 0);
    ListenConcat(Ear([], []), Wire(before, slave, 0), Wire(OnWire(events), slave, k));
    TransferRuns(slave, k, ms, retries);
    ListenerHears(ear.heard, events, slave, k, false, false);
    assert ear == Ear(ear.heard, []);
    if AllAcknowledged(ms) { TransferNineClocks(slave, k, ms, retries); }
  }

  /** A transfer has an acknowledge clock for every byte if no message asks to read without. */
  lemma TransferNineClocks(slave: Slave, k: nat, ms: seq<Message>, retries: nat)
    requires AllAcknowledged(ms)
    ensures NineClocks(Transfer(slave, k, ms, retries).0)
  {
    hide Messages;
    MessagesNineClocks(slave, k, ms, 0, retries);
  }

  predicate AllAcknowledged(ms: seq<Message>) {
    forall i :: 0 <= i < |ms| ==> !(ms[i].flags.read && ms[i].flags.noReadAck)
  }

  lemma {:induction false} MessagesNineClocks(slave: Slave, k: nat, ms: seq<Message>, i: nat, retries: nat)
    requires AllAcknowledged(ms) && i <= |ms|
    ensures NineClocks(Messages(slave, k, ms, i, retries).0)
    decreases |ms| - i
  {
    hide OneMessage, OneContent;
    if i < |ms| {
      var (events, _) := OneMessage(slave, k, ms[i], i == 0, retries);
      var after := Refilled(ms, ms[i].buf, OneContent(slave, k, ms[i], i == 0, retries));
      MessageNineClocks(slave, k, ms[i], i == 0, retries);
      MessagesNineClocks(slave, k + TotalClocks(events), after, i + 1, retries);
    }
  }

  lemma MessageNineClocks(slave: Slave, k: nat, m: Message, first: bool, retries: nat)
    requires !(m.flags.read && m.flags.noReadAck)
    ensures NineClocks(OneMessage(slave, k, m, first, retries).0)
  {
    hide AddressPhase, DataPhase, TotalClocks;
    var pre: seq<Event> := if !m.flags.noStart && !first then [R] else [];
    var (head, _) := OneHead(slave, k, m, first, retries);
    AddressNineClocks(slave, k + TotalClocks(pre), m, retries);
    DataNineClocks(slave, k + TotalClocks(head), m);
  }

  lemma AddressNineClocks(slave: Slave, k: nat, m: Message, retries: nat)
    ensures NineClocks(AddressPhase(slave, k, m, retries).0)
  {
    hide TotalClocks, Address;
    var first := Address(slave, k, FirstAddress(m), Tries(m, retries)).0;
    TriesNineClocks(slave, k, FirstAddress(m), Tries(m, retries));
    if m.flags.tenBit {
      TriesNineClocks(slave, k + TotalClocks(first) + 10, FirstAddress(m) + 1, Tries(m, retries));
    }
  }

  lemma {:induction false} TriesNineClocks(slave: Slave, k: nat, b: Byte, retries: nat)
    ensures NineClocks(Address(slave, k, b, retries).0)
    decreases retries
  {
    if retries > 0 { TriesNineClocks(slave, k + 10, b, retries - 1); }
  }

  lemma DataNineClocks(slave: Slave, k: nat, m: Message)
    requires !(m.flags.read && m.flags.noReadAck)
    ensures NineClocks(DataPhase(slave, k, m))
  {
    if m.flags.read { ReadNineClocks(slave, k, |m.content|); }
        else { WriteNineClocks(slave, k, m.content, m.flags.ignoreNack); }
  }

  lemma {:induction false} ReadNineClocks(slave: Slave, k: nat, count: nat)
    ensures NineClocks(ReadAll(slave, k, count, false))
    decreases count
  {
    if count > 0 { ReadNineClocks(slave, k + 9, count - 1); }
  }

  lemma {:induction false} WriteNineClocks(slave: Slave, k: nat, bytes: seq<Byte>, ignoreNack: bool)
    ensures NineClocks(WriteAll(slave, k, bytes, ignoreNack))
    decreases |bytes|
  {
    if bytes != [] { WriteNineClocks(slave, k + 9, bytes[1..], ignoreNack); }
  }

  // ---- Reads without acknowledge clocks ----

  ghost predicate AllTaken(events: seq<Event>) { forall i :: 0 <= i < |events| ==> events[i].Taken? }

  /** The clocks of such reads: eight for each byte and nothing else. */
  lemma {:induction false} TakenOnWire(events: seq<Event>, slave: Slave, k: nat)
    requires AllTaken(events)
    ensures var w := Wire(OnWire(events), slave, k);
            |w| == 8 * |events| && (forall i :: 0 <= i < |w| ==> w[i].Clock?)
                && CountClocks(OnWire(events)) == 8 * |events|
    decreases |events|
  {
    hide CountClocks, Clocks, Bits;
    if events == [] {
      NoSymbols(slave);
    } else {
      var e, rest := events[0], events[1..];
      assert events == [e] + rest;
      TotalCons(e, rest);
      EventClocks(e);
      TakenOnWire(rest, slave, k + 8);
      WireConcat(SymbolsOf(e), OnWire(rest), slave, k);
      CountConcat(SymbolsOf(e), OnWire(rest));
      assert SymbolsOf(e) == Clocks(RELEASED);
      ClocksStay(RELEASED, slave, k);
    }
  }

  lemma {:induction false} ClocksStay(bits: seq<bool>, slave: Slave, k: nat)
    ensures var w := Wire(Clocks(bits), slave, k); |w| == |bits| && forall i :: 0 <= i < |w| ==> w[i].Clock?
    decreases |bits|
  {
    if bits != [] {
      assert Clocks(bits)[1..] == Clocks(bits[1..]);
      ClocksStay(bits[1..], slave, k + 1);
    }
  }

  /** A listener makes a byte of every nine clocks. */
  lemma {:induction false} NineByNine(ear: Ear, w: seq<Symbol>)
    requires |ear.bits| <= 8 && forall i :: 0 <= i < |w| ==> w[i].Clock?
    ensures var after := Listen(ear, w);
            9 * |after.heard| + |after.bits| == 9 * |ear.heard| + |ear.bits| + |w| && |after.bits| <= 8
    decreases |w|
  {
    hide Value;
    if w != [] { NineByNine(Hear(ear, w[0]), w[1..]); }
  }

  /** The clock and the condition of a repeated START or STOP, in whatever state the listener is. */
  function HearBehind(ear: Ear, e: Event, slave: Slave, k: nat): Ear {
    var clocked := Hear(ear, Clock(e == R && slave(k)));
    if slave(k) then Hear(clocked, if e == R then Start else Stop) else clocked
  }

  lemma ConditionBehind(ear: Ear, e: Event, slave: Slave, k: nat)
    requires e in {R, P}
    ensures Listen(ear, Wire(SymbolsOf(e), slave, k)) == HearBehind(ear, e, slave, k)
  {
    hide Hear;
    var s := if e == R then Start else Stop;
    FirstClock(ear, e == R, s, slave, k);
    if slave(k) { OneSymbol(Hear(ear, Clock(e == R)), s, slave, k + 1); } else { NoneShown(s, slave, k + 1); }
  }

  /** One byte read without its acknowledge clock. */
  lemma SingleTaken(heard: seq<Heard>, e: Event, slave: Slave, k: nat)
    requires e.Taken? && Fits(e, slave, k, true)
    ensures Listen(Ear(heard, []), Wire(OnWire([e]), slave, k)) == Ear(heard, SlaveBits(slave, k))
    ensures e.b == Value(SlaveBits(slave, k))
  {
    hide Listen, Wire, Value, Hear;
    OneEvent(e);
    ClocksHeard(Ear(heard, []), RELEASED, SlaveBits(slave, k), slave, k);
    assert [] + SlaveBits(slave, k) == SlaveBits(slave, k);
  }

  lemma PairHeard(a: Event, b: Event)
    ensures AllHeard([a] + [b]) == [HeardOf(a), HeardOf(b)]
  {
    assert ([a] + [b])[1..] == [b] && [b][1..] == [];
    assert AllHeard([b]) == [HeardOf(b)] + AllHeard([]);
  }

  lemma LengthOfAllHeard(events: seq<Event>)
    ensures |AllHeard(events)| == |events|
  {}

  /** A listener takes the clock of the repeated START or STOP behind bytes read without acknowledge clocks for an
      acknowledge clock. So it hears them right exactly if a repeated START follows on a single byte; of several bytes
      it loses count, and before a STOP it hears an acknowledgement that nobody gave. */
  lemma UnacknowledgedHeardIff(heard: seq<Heard>, events: seq<Event>, e: Event, slave: Slave, k: nat)
    requires events != [] && AllTaken(events) && e in {R, P} && Runs(events + [e], slave, k, true, e == R)
    ensures Listen(Ear(heard, []), Wire(OnWire(events + [e]), slave, k)) == Ear(heard + AllHeard(events + [e]), []) <==>
            |events| == 1 && e == R && slave(k + 8)
  {
    hide Listen, Wire, OnWire, Value, CountClocks, SymbolsOf, AllHeard, HearBehind, HeardOf;
    var k' := k + 8 * |events|;
    var w, behind := Wire(OnWire(events), slave, k), Wire(SymbolsOf(e), slave, k');
    var mid := Listen(Ear(heard, []), w);
    OnWireSnoc(events, e);
    TakenOnWire(events, slave, k);
    WireConcat(OnWire(events), SymbolsOf(e), slave, k);
    ListenConcat(Ear(heard, []), w, behind);
    ConditionBehind(mid, e, slave, k');
    if |events| == 1 {
      assert events == [events[0]] && (events + [e])[0] == events[0];
      SingleTaken(heard, events[0], slave, k);
      PairHeard(events[0], e);
      SingleHeardIff(heard, events[0], e, slave, k);
    } else {
      NineByNine(Ear(heard, []), w);
      LengthOfAllHeard(events + [e]);
      LengthBehind(mid, e, slave, k');
    }
  }

  lemma LengthBehind(ear: Ear, e: Event, slave: Slave, k: nat)
    requires |ear.bits| <= 8
    ensures 9 * |HearBehind(ear, e, slave, k).heard| <= 9 * |ear.heard| + |ear.bits| + 10
  {
    hide Value;
  }

  lemma SingleHeardIff(heard: seq<Heard>, t: Event, e: Event, slave: Slave, k: nat)
    requires t.Taken? && e in {R, P} && t.b == Value(SlaveBits(slave, k))
    ensures HearBehind(Ear(heard, SlaveBits(slave, k)), e, slave, k + 8) ==
              Ear(heard + [HeardOf(t), HeardOf(e)], []) <==>
            e == R && slave(k + 8)
  {
    hide Value;
    var after := HearBehind(Ear(heard, SlaveBits(slave, k)), e, slave, k + 8);
    assert after.heard[|heard|] == HeardByte(t.b, !(e == R && slave(k + 8)));
    assert (heard + [HeardOf(t), HeardOf(e)])[|heard|] == HeardByte(t.b, false);
    if e == R && slave(k + 8) { assert after.heard == heard + [HeardOf(t), HeardOf(e)]; }
  }

  /** A slave that holds SDA low all the time leaves nothing to hear of a START or STOP. */
  lemma LowWireIsSilent(slave: Slave, k: nat)
    requires forall n :: !slave(n)
    ensures Wire(OnWire([S, P]), slave, k) == [Clock(false)]
  {
    assert [S, P] == [S] + [P];
    TotalCons(S, [P]);
    OneEvent(P);
    var symbols := [Start] + [Clock(false), Stop];
    assert symbols[1..] == [Clock(false), Stop] && [Clock(false), Stop][1..] == [Stop] && [Stop][1..] == [];
    assert Wire([Stop], slave, k + 1) == [];
    assert Wire([Clock(false), Stop], slave, k) == [Clock(false)];
  }
}
