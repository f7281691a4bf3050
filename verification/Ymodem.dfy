/**
 The Ymodem receiver: packets read byte by byte from a line that may time out, and the loop that hands the
 blocks of a file to the flash writer and answers the sender.
 */
module Ymodem {
  type Byte = x: int | 0 <= x < 256

  const SOH: Byte := 0x01
  const STX: Byte := 0x02
  const EOT: Byte := 0x04
  const ACK: Byte := 0x06
  const NAK: Byte := 0x15
  const CA: Byte := 0x18
  const CRC16: Byte := 0x43
  const ABORT1: Byte := 0x41
  const ABORT2: Byte := 0x61
  const PACKET_HEADER: nat := 3
  const PACKET_OVERHEAD: nat := 5
  const PACKET_SIZE: nat := 128
  const PACKET_1K_SIZE: nat := 1024
  const MAX_ERRORS: nat := 5

  // ---- Packets on the line ----

  /** What one call for a byte yields. */
  datatype Input = Got(b: Byte) | Timeout

  /** After the recorded input the line is silent. */
  function At(input: seq<Input>, pos: nat): Input { if pos < |input| then input[pos] else Timeout }

  datatype Packet = Bad | AbortByUser | EndOfFile | CancelBySender | Block(number: Byte, content: seq<Byte>)

  datatype Bytes = Incomplete | Complete(bytes: seq<Byte>)

  /** The next `n` bytes, unless the line times out, and the position behind what was read. */
  function Gathered(input: seq<Input>, pos: nat, n: nat): (r: (Bytes, nat))
    ensures r.1 >= pos && (r.0.Complete? ==> |r.0.bytes| == n && r.1 == pos + n)
    decreases n
  {
    if n == 0 then (Complete([]), pos)
    else match At(input, pos)
      case Timeout => (Incomplete, pos + 1)
      case Got(b) =>
        var (rest, end) := Gathered(input, pos + 1, n - 1);
        (if rest.Complete? then Complete([b] + rest.bytes) else Incomplete, end)
  }

  /** A block whose number and complement agree; the two trailing bytes are read but not looked at. */
  function AsBlock(bytes: seq<Byte>, size: nat): Packet
    requires |bytes| == size + PACKET_OVERHEAD - 1
  {
    if bytes[0] != 255 - bytes[1] then Bad else Block(bytes[0], bytes[2..2 + size])
  }

  function BlockAt(input: seq<Input>, pos: nat, size: nat): (r: (Packet, nat))
    ensures r.1 >= pos
  {
    var (bytes, end) := Gathered(input, pos, size + PACKET_OVERHEAD - 1);
    (if bytes.Complete? then AsBlock(bytes.bytes, size) else Bad, end)
  }

  /** The packet that starts at a position, and where reading goes on. */
  function PacketAt(input: seq<Input>, pos: nat): (r: (Packet, nat))
    ensures r.1 > pos
  {
    match At(input, pos)
    case Timeout => (Bad, pos + 1)
    case Got(c) =>
      if c == SOH then BlockAt(input, pos + 1, PACKET_SIZE)
      else if c == STX then BlockAt(input, pos + 1, PACKET_1K_SIZE)
      else if c == EOT then (EndOfFile, pos + 1)
      else if c == CA then (if At(input, pos + 1) == Got(CA) then CancelBySender else Bad, pos + 2)
      else if c == ABORT1 || c == ABORT2 then (AbortByUser, pos + 1)
      else (Bad, pos + 1)
  }

  // ---- The receiving loop ----

  datatype Target = Mcu1 | Fpga | NoTarget

  /** Where blocks go; whether the MCU's writer accepts its n-th block; and the size field of a file header. */
  datatype Config = Config(target: Target, programs: (nat, seq<Byte>) -> bool, sizeOf: seq<Byte> -> int)

  /** What the receiver does: bytes it sends, files it opens and closes, blocks it hands over. */
  datatype Action =
    | Send(b: Byte)
    | Opened(header: seq<Byte>)
    | Wrote(number: Byte, offset: nat, content: seq<Byte>)
    | Dropped(number: Byte, content: seq<Byte>)
    | Closed
    | Finished
    | Cancelled

  /** `received` counts the packets of the file, the header included; `offset` is the writer's own, kept between
      files. */
  datatype State = State(received: nat, errors: nat, begun: bool, size: int, offset: nat, written: nat)

  datatype Outcome = Running | Returned(code: int)

  const OFFSET_RANGE: nat := 0x1_0000_0000

  function OnData(cfg: Config, s: State, number: Byte, content: seq<Byte>): (State, seq<Action>, Outcome) {
    var next := s.(received := s.received + 1, begun := true);
    match cfg.target
    case NoTarget => (next, [Dropped(number, content), Send(ACK)], Running)
    case Fpga => (next.(offset := (s.offset + |content|) % OFFSET_RANGE, written := s.written + 1),
                  [Wrote(number, s.offset, content), Send(ACK)], Running)
    case Mcu1 =>
      if cfg.programs(s.written, content)
          then (next.(written := s.written + 1), [Wrote(number, s.offset, content), Send(ACK)], Running)
      else (s.(written := s.written + 1), [Wrote(number, s.offset, content), Send(CA), Send(CA)], Returned(-1))
  }

  function OnHeader(cfg: Config, s: State, content: seq<Byte>): (State, seq<Action>, Outcome)
    requires |content| >= PACKET_SIZE
  {
    if content[0] != 0 then
      (s.(received := 1, begun := true, size := cfg.sizeOf(content)), [Opened(content), Send(ACK), Send(CRC16)],
          Running)
    else (s, [Finished, Send(ACK)], Returned(s.size))
  }

  function OnBlock(cfg: Config, s: State, number: Byte, content: seq<Byte>): (State, seq<Action>, Outcome)
    requires |content| >= PACKET_SIZE
  {
    if number != s.received % 256 then (s, [Send(NAK)], Running)
    else if s.received == 0 then OnHeader(cfg, s, content)
    else OnData(cfg, s, number, content)
  }

  function OnBad(s: State): (State, seq<Action>, Outcome) {
    var s' := if s.begun then s.(errors := s.errors + 1) else s;
    if s'.errors > MAX_ERRORS then (s', [Send(CA), Send(CA)], Returned(0)) else (s', [Send(CRC16)], Running)
  }

  function OnPacket(cfg: Config, s: State, p: Packet): (State, seq<Action>, Outcome)
    requires p.Block? ==> |p.content| >= PACKET_SIZE
  {
    match p
    case Bad => OnBad(s)
    case AbortByUser => (s, [Send(CA), Send(CA)], Returned(-3))
    case CancelBySender => (s.(errors := 0), [Cancelled, Send(ACK)], Returned(0))
    case EndOfFile => (s.(errors := 0, received := 0), [Closed, Send(ACK)], Running)
    case Block(number, content) => OnBlock(cfg, s.(errors := 0), number, content)
  }

  lemma BlocksAreLong(input: seq<Input>, pos: nat)
    ensures var p := PacketAt(input, pos).0; p.Block? ==> |p.content| in {PACKET_SIZE, PACKET_1K_SIZE}
  {
    hide Gathered;
  }

  /** A run over recorded input: until the receiver returns or the input is used up. */
  function Run(cfg: Config, s: State, log: seq<Action>, input: seq<Input>, pos: nat): (State, seq<Action>, Outcome)
    decreases |input| - pos
  {
    if pos >= |input| then (s, log, Running)
    else
      var (p, next) := PacketAt(input, pos);
      BlocksAreLong(input, pos);
      var (s', actions, outcome) := OnPacket(cfg, s, p);
      if outcome.Returned? then (s', log + actions, outcome) else Run(cfg, s', log + actions, input, next)
  }

  const START: State := State(0, 0, false, 0, 0, 0)

  // ---- Safety over whole runs ----

  predicate IsBlock(a: Action) { a.Wrote? || a.Dropped? }

  /** Things that are answered with ACK. */
  predicate IsHandled(a: Action) { IsBlock(a) || a.Opened? || a.Closed? || a.Finished? || a.Cancelled? }

  /** The count of blocks in the open file, -1 when none is open, after one more action. */
  function Counted(before: int, a: Action): int {
    match a
    case Opened(_) => 0
    case Closed => -1
    case Wrote(_, _, _) => before + 1
    case Dropped(_, _) => before + 1
    case Send(_) => before
    case Finished => before
    case Cancelled => before
  }

  /** Blocks handed over since the file was opened, or -1 when no file is open. */
  function OpenBlocks(log: seq<Action>): int {
    if log == [] then -1 else Counted(OpenBlocks(log[..|log| - 1]), log[|log| - 1])
  }

  /** Total length of the blocks written. */
  function Total(log: seq<Action>): nat {
    if log == [] then 0 else Total(log[..|log| - 1]) + if log[|log| - 1].Wrote? then |log[|log| - 1].content| else 0
  }

  /** Blocks carry the numbers 1, 2, 3, ... modulo 256 within an open file, without gap or repetition. */
  ghost predicate InSequence(log: seq<Action>) {
    forall i :: 0 <= i < |log| ==> RightNumber(OpenBlocks(log[..i]), log[i])
  }

  /** A block is handed over only while a file is open, and counts on from the blocks before it. */
  predicate RightNumber(before: int, a: Action) { IsBlock(a) ==> before >= 0 && a.number == (before + 1) % 256 }

  /** Each block, header and end of file is answered by the ACK right behind it, and each ACK answers the thing right
      before it. */
  ghost predicate Acked(log: seq<Action>) {
    && (forall i :: 0 <= i < |log| && log[i] == Send(ACK) ==> i > 0 && IsHandled(log[i - 1]))
    && (forall i :: 0 <= i < |log| && IsHandled(log[i]) ==> i + 1 < |log| && log[i + 1] == Send(ACK))
  }

  /** The writer refused the last block: two CA, no ACK. */
  ghost predicate RefusedAtEnd(log: seq<Action>) {
    |log| >= 3 && Acked(log[..|log| - 3]) && log[|log| - 3].Wrote? && log[|log| - 2] == log[|log| - 1] == Send(CA)
  }

  /** On the FPGA each block is written where the blocks before it end. */
  ghost predicate Contiguous(log: seq<Action>, base: nat) {
    forall i :: 0 <= i < |log| && log[i].Wrote? ==> log[i].offset == (base + Total(log[..i])) % OFFSET_RANGE
  }

  /** What every packet keeps. */
  ghost predicate Good(cfg: Config, s: State, log: seq<Action>, base: nat) {
    && InSequence(log) && Acked(log) && OpenBlocks(log) == s.received - 1
    && (cfg.target == Fpga ==> Contiguous(log, base) && s.offset == (base + Total(log)) % OFFSET_RANGE)
  }

  lemma CountsSnoc(log: seq<Action>, a: Action)
    ensures OpenBlocks(log + [a]) == Counted(OpenBlocks(log), a)
    ensures Total(log + [a]) == Total(log) + if a.Wrote? then |a.content| else 0
  {
    assert (log + [a])[..|log|] == log;
  }

  lemma SequenceSnoc(log: seq<Action>, a: Action)
    requires InSequence(log) && RightNumber(OpenBlocks(log), a)
    ensures InSequence(log + [a])
  {
    hide OpenBlocks, RightNumber;
    forall i | 0 <= i < |log + [a]|
      ensures RightNumber(OpenBlocks((log + [a])[..i]), (log + [a])[i])
    {
      assert (log + [a])[..i] == log[..i];
      if i == |log| { assert log[..i] == log; }
    }
  }

  lemma ContiguousSnoc(log: seq<Action>, a: Action, base: nat)
    requires Contiguous(log, base) && (a.Wrote? ==> a.offset == (base + Total(log)) % OFFSET_RANGE)
    ensures Contiguous(log + [a], base)
  {
    hide Total;
    forall i | 0 <= i < |log + [a]| && (log + [a])[i].Wrote?
      ensures (log + [a])[i].offset == (base + Total((log + [a])[..i])) % OFFSET_RANGE
    {
      assert (log + [a])[..i] == log[..i];
      if i == |log| { assert log[..i] == log; }
    }
  }

  /** One more action of the log. */
  lemma OneMore(cfg: Config, log: seq<Action>, a: Action, base: nat)
    requires InSequence(log) && (cfg.target == Fpga ==> Contiguous(log, base))
    requires RightNumber(OpenBlocks(log), a)
    requires cfg.target == Fpga && a.Wrote? ==> a.offset == (base + Total(log)) % OFFSET_RANGE
    ensures InSequence(log + [a]) && (cfg.target == Fpga ==> Contiguous(log + [a], base))
    ensures OpenBlocks(log + [a]) == Counted(OpenBlocks(log), a)
    ensures Total(log + [a]) == Total(log) + if a.Wrote? then |a.content| else 0
  {
    hide InSequence, Contiguous, Total, OpenBlocks;
    CountsSnoc(log, a);
    SequenceSnoc(log, a);
    if cfg.target == Fpga { ContiguousSnoc(log, a, base); }
  }

  lemma SentOther(log: seq<Action>, b: Byte)
    requires Acked(log) && b != ACK
    ensures Acked(log + [Send(b)])
  {}

  lemma HandledAndAcked(log: seq<Action>, a: Action)
    requires Acked(log) && IsHandled(a)
    ensures Acked(log + [a] + [Send(ACK)])
  {
    var t := log + [a] + [Send(ACK)];
    assert forall i :: 0 <= i < |log| ==> t[i] == log[i];
  }

  /** An answer without a block. */
  lemma KeptBySend(cfg: Config, s: State, log: seq<Action>, base: nat, b: Byte)
    requires Good(cfg, s, log, base) && b != ACK
    ensures Good(cfg, s, log + [Send(b)], base)
  {
    hide InSequence, Contiguous, Total, OpenBlocks, Acked;
    OneMore(cfg, log, Send(b), base);
    SentOther(log, b);
  }

  /** A thing handled, with its ACK. */
  lemma KeptByHandling(cfg: Config, s: State, log: seq<Action>, base: nat, a: Action, s': State)
    requires Good(cfg, s, log, base) && IsHandled(a)
    requires IsBlock(a) ==> s.received > 0 && a.number == s.received % 256
    requires s'.received - 1 == Counted(s.received - 1, a)
    requires a.Wrote? && cfg.target == Fpga ==>
               a.offset == s.offset && s'.offset == (s.offset + |a.content|) % OFFSET_RANGE
    requires !a.Wrote? ==> s'.offset == s.offset
    ensures Good(cfg, s', log + [a] + [Send(ACK)], base)
  {
    hide InSequence, Contiguous, Total, OpenBlocks, Acked;
    OneMore(cfg, log, a, base);
    OneMore(cfg, log + [a], Send(ACK), base);
    HandledAndAcked(log, a);
    if a.Wrote? { SumModulo(base + Total(log), |a.content|); }
  }

  lemma SumModulo(a: nat, b: nat)
    ensures (a % OFFSET_RANGE + b) % OFFSET_RANGE == (a + b) % OFFSET_RANGE
  {}

  /** What holds of the log however a run ends. */
  ghost predicate Safe(cfg: Config, log: seq<Action>, base: nat) {
    InSequence(log) && (Acked(log) || RefusedAtEnd(log)) && (cfg.target == Fpga ==> Contiguous(log, base))
  }

  lemma TwoCancels(cfg: Config, s: State, log: seq<Action>, base: nat)
    requires Good(cfg, s, log, base)
    ensures Safe(cfg, log + [Send(CA), Send(CA)], base)
  {
    KeptBySend(cfg, s, log, base, CA);
    KeptBySend(cfg, s, log + [Send(CA)], base, CA);
    assert log + [Send(CA)] + [Send(CA)] == log + [Send(CA), Send(CA)];
  }

  lemma Refusal(cfg: Config, s: State, log: seq<Action>, base: nat, a: Action)
    requires Good(cfg, s, log, base) && a.Wrote? && s.received > 0 && a.number == s.received % 256 && cfg.target == Mcu1
    ensures Safe(cfg, log + [a, Send(CA), Send(CA)], base)
  {
    hide InSequence, Contiguous, Total, OpenBlocks, Acked;
    OneMore(cfg, log, a, base);
    OneMore(cfg, log + [a], Send(CA), base);
    OneMore(cfg, log + [a] + [Send(CA)], Send(CA), base);
    var t := log + [a, Send(CA), Send(CA)];
    assert log + [a] + [Send(CA)] + [Send(CA)] == t && t[..|t| - 3] == log;
  }

  /** The outcome of one packet keeps the invariant, or ends the run safely. */
  ghost predicate KeptBy(cfg: Config, log: seq<Action>, base: nat, r: (State, seq<Action>, Outcome)) {
    if r.2.Running? then Good(cfg, r.0, log + r.1, base) else Safe(cfg, log + r.1, base)
  }

  lemma DataKeeps(cfg: Config, s: State, log: seq<Action>, base: nat, number: Byte, content: seq<Byte>)
    requires Good(cfg, s, log, base) && number == s.received % 256 && s.received > 0
    ensures KeptBy(cfg, log, base, OnData(cfg, s, number, content))
  {
    hide Good, Safe;
    var r := OnData(cfg, s, number, content);
    var a := r.1[0];
    if r.2.Running? {
      KeptByHandling(cfg, s, log, base, a, r.0);
      assert log + [a] + [Send(ACK)] == log + r.1;
    } else {
      Refusal(cfg, s, log, base, a);
    }
  }

  lemma HeaderKeeps(cfg: Config, s: State, log: seq<Action>, base: nat, content: seq<Byte>)
    requires Good(cfg, s, log, base) && s.received == 0 && |content| >= PACKET_SIZE
    ensures KeptBy(cfg, log, base, OnHeader(cfg, s, content))
  {
    hide Good, Safe;
    var r := OnHeader(cfg, s, content);
    var a := r.1[0];
    KeptByHandling(cfg, s, log, base, a, r.0);
    if r.2.Running? {
      KeptBySend(cfg, r.0, log + [a] + [Send(ACK)], base, CRC16);
      assert log + [a] + [Send(ACK)] + [Send(CRC16)] == log + r.1;
    } else {
      assert log + [a] + [Send(ACK)] == log + r.1;
      GoodIsSafe(cfg, r.0, log + r.1, base);
    }
  }

  lemma GoodIsSafe(cfg: Config, s: State, log: seq<Action>, base: nat)
    requires Good(cfg, s, log, base)
    ensures Safe(cfg, log, base)
  {}

  lemma OtherCounters(cfg: Config, s: State, s': State, log: seq<Action>, base: nat)
    requires Good(cfg, s, log, base) && s'.received == s.received && s'.offset == s.offset
    ensures Good(cfg, s', log, base)
  {}

  lemma PacketKeeps(cfg: Config, s: State, log: seq<Action>, base: nat, p: Packet)
    requires Good(cfg, s, log, base) && (p.Block? ==> |p.content| >= PACKET_SIZE)
    ensures KeptBy(cfg, log, base, OnPacket(cfg, s, p))
  {
    hide Good, Safe, OnData, OnHeader;
    var r := OnPacket(cfg, s, p);
    var cleared := s.(errors := 0);
    OtherCounters(cfg, s, cleared, log, base);
    match p
    case Bad =>
      OtherCounters(cfg, s, r.0, log, base);
      if r.2.Running? { KeptBySend(cfg, r.0, log, base, CRC16); } else { TwoCancels(cfg, r.0, log, base); }
    case AbortByUser => TwoCancels(cfg, s, log, base);
    case CancelBySender =>
      KeptByHandling(cfg, s, log, base, Cancelled, r.0);
      assert log + [Cancelled] + [Send(ACK)] == log + r.1;
      GoodIsSafe(cfg, r.0, log + r.1, base);
    case EndOfFile =>
      KeptByHandling(cfg, s, log, base, Closed, r.0);
      assert log + [Closed] + [Send(ACK)] == log + r.1;
    case Block(number, content) =>
      if number != s.received % 256 { KeptBySend(cfg, cleared, log, base, NAK); }
      else if s.received == 0 { HeaderKeeps(cfg, cleared, log, base, content); }
      else { DataKeeps(cfg, cleared, log, base, number, content); }
  }

  /** Over any input: blocks are handed over in sequence, each is answered exactly once and after it was handed over,
      and the FPGA writes each block where the blocks before it end. */
  lemma {:induction false} RunIsSafe(cfg: Config, s: State, log: seq<Action>, base: nat, input: seq<Input>, pos: nat)
    requires Good(cfg, s, log, base)
    ensures Safe(cfg, Run(cfg, s, log, input, pos).1, base)
    decreases |input| - pos
  {
    hide Good, Safe, OnPacket, PacketAt;
    if pos >= |input| {
      GoodIsSafe(cfg, s, log, base);
    } else {
      var (p, next) := PacketAt(input, pos);
      BlocksAreLong(input, pos);
      PacketKeeps(cfg, s, log, base, p);
      var (s', actions, outcome) := OnPacket(cfg, s, p);
      if outcome.Running? { RunIsSafe(cfg, s', log + actions, base, input, next); }
    }
  }

  lemma FromStart(cfg: Config, offset: nat, input: seq<Input>)
    requires offset < OFFSET_RANGE
    ensures Safe(cfg, Run(cfg, START.(offset := offset), [], input, 0).1, offset)
  {
    RunIsSafe(cfg, START.(offset := offset), [], offset, input, 0);
  }

  // ---- Transfers over a perfect line ----

  /** A packet as it is sent: start byte, number, complement, content, and two more bytes. */
  function Frame(number: Byte, content: seq<Byte>, trailer: (Byte, Byte)): seq<Byte> {
    [if |content| == PACKET_SIZE then SOH else STX, number, 255 - number] + content + [trailer.0, trailer.1]
  }

  function Line(bytes: seq<Byte>): seq<Input> {
    seq(|bytes|, i requires 0 <= i < |bytes| => Got(bytes[i]))
  }

  /** The bytes arrive from a position on. */
  ghost predicate Arrive(input: seq<Input>, pos: nat, bytes: seq<Byte>) {
    pos + |bytes| <= |input| && forall i :: 0 <= i < |bytes| ==> input[pos + i] == Got(bytes[i])
  }

  lemma ArriveSplit(input: seq<Input>, pos: nat, a: seq<Byte>, b: seq<Byte>)
    requires Arrive(input, pos, a + b)
    ensures Arrive(input, pos, a) && Arrive(input, pos + |a|, b)
  {
    forall i | 0 <= i < |a|
      ensures input[pos + i] == Got(a[i])
    {
      assert (a + b)[i] == a[i];
    }
    forall i | 0 <= i < |b|
      ensures input[pos + |a| + i] == Got(b[i])
    {
      assert (a + b)[|a| + i] == b[i];
      assert input[pos + (|a| + i)] == Got((a + b)[|a| + i]);
    }
  }

  lemma {:induction false} GatheredWhole(input: seq<Input>, pos: nat, bytes: seq<Byte>)
    requires Arrive(input, pos, bytes)
    ensures Gathered(input, pos, |bytes|) == (Complete(bytes), pos + |bytes|)
    decreases |bytes|
  {
    if bytes != [] {
      assert bytes == [bytes[0]] + bytes[1..];
      ArriveSplit(input, pos, [bytes[0]], bytes[1..]);
      assert input[pos + 0] == Got(bytes[0]);
      GatheredWhole(input, pos + 1, bytes[1..]);
    }
  }

  lemma FrameRead(input: seq<Input>, pos: nat, number: Byte, content: seq<Byte>, trailer: (Byte, Byte))
    requires |content| in {PACKET_SIZE, PACKET_1K_SIZE} && Arrive(input, pos, Frame(number, content, trailer))
    ensures PacketAt(input, pos) == (Block(number, content), pos + |content| + PACKET_OVERHEAD)
  {
    hide Gathered;
    var frame := Frame(number, content, trailer);
    assert frame == [frame[0]] + frame[1..];
    ArriveSplit(input, pos, [frame[0]], frame[1..]);
    assert input[pos + 0] == Got(frame[0]);
    GatheredWhole(input, pos + 1, frame[1..]);
    assert frame[1..][2..2 + |content|] == content;
  }

  /** A block to be sent, with the two bytes behind it. */
  datatype Unit = Unit(content: seq<Byte>, trailer: (Byte, Byte))

  ghost predicate Sized(units: seq<Unit>) {
    forall i :: 0 <= i < |units| ==> |units[i].content| in {PACKET_SIZE, PACKET_1K_SIZE}
  }

  /** The blocks of a file on the line, numbered from `first` on. */
  function BlocksOnLine(units: seq<Unit>, first: nat): seq<Byte> {
    if units == [] then []
    else Frame(first % 256, units[0].content, units[0].trailer) + BlocksOnLine(units[1..], first + 1)
  }

  /** The log of those blocks: each handed over, then acknowledged. */
  function BlocksHandled(cfg: Config, s: State, units: seq<Unit>): seq<Action>
    decreases |units|
  {
    if units == [] then []
    else
      var (s', actions, _) := OnData(cfg, s, s.received % 256, units[0].content);
      actions + BlocksHandled(cfg, s', units[1..])
  }

  function AfterBlocks(cfg: Config, s: State, units: seq<Unit>): State
    decreases |units|
  {
    if units == [] then s else AfterBlocks(cfg, OnData(cfg, s, s.received % 256, units[0].content).0, units[1..])
  }

  /** The writer takes every block. */
  ghost predicate Willing(cfg: Config) { cfg.target == Mcu1 ==> forall n, content :: cfg.programs(n, content) }

  lemma AfterBlocksKeeps(cfg: Config, s: State, units: seq<Unit>)
    requires Willing(cfg)
    ensures var s' := AfterBlocks(cfg, s, units);
            s'.received == s.received + |units| && s'.errors == s.errors && s'.size == s.size
    decreases |units|
  {
    if units != [] { AfterBlocksKeeps(cfg, OnData(cfg, s, s.received % 256, units[0].content).0, units[1..]); }
  }

  lemma {:induction false} BlocksReceived(cfg: Config, s: State, log: seq<Action>, input: seq<Input>, pos: nat,
                                          units: seq<Unit>)
    requires Willing(cfg) && Sized(units) && s.received > 0 && s.errors == 0
    requires Arrive(input, pos, BlocksOnLine(units, s.received))
    ensures Run(cfg, s, log, input, pos) ==
            Run(cfg, AfterBlocks(cfg, s, units), log + BlocksHandled(cfg, s, units), input,
                pos + |BlocksOnLine(units, s.received)|)
    decreases |units|
  {
    hide Run, OnData, PacketAt, Arrive;
    if units == [] {
      assert log + [] == log;
    } else {
      var u := units[0];
      var frame := Frame(s.received % 256, u.content, u.trailer);
      ArriveSplit(input, pos, frame, BlocksOnLine(units[1..], s.received + 1));
      FrameRead(input, pos, s.received % 256, u.content, u.trailer);
      var (s', actions, outcome) := OnData(cfg, s, s.received % 256, u.content);
      OneBlock(cfg, s, u.content);
      RunOnce(cfg, s, log, input, pos);
      BlocksReceived(cfg, s', log + actions, input, pos + |frame|, units[1..]);
      assert log + actions + BlocksHandled(cfg, s', units[1..]) == log + BlocksHandled(cfg, s, units);
    }
  }

  lemma OneBlock(cfg: Config, s: State, content: seq<Byte>)
    requires Willing(cfg) && s.received > 0 && s.errors == 0 && |content| >= PACKET_SIZE
    ensures var r := OnPacket(cfg, s, Block(s.received % 256, content));
            r == OnData(cfg, s, s.received % 256, content) && r.2 == Running && r.0.received == s.received + 1
                && r.0.errors == 0
  {
    assert s.(errors := 0) == s;
  }

  lemma RunOnce(cfg: Config, s: State, log: seq<Action>, input: seq<Input>, pos: nat)
    requires pos < |input|
    ensures var (p, next) := PacketAt(input, pos);
            (p.Block? ==> |p.content| in {PACKET_SIZE, PACKET_1K_SIZE})
            && var (s', actions, outcome) := OnPacket(cfg, s, p);
               Run(cfg, s, log, input, pos) ==
               if outcome.Returned? then (s', log + actions, outcome) else Run(cfg, s', log + actions, input, next)
  {
    hide PacketAt, OnPacket;
    BlocksAreLong(input, pos);
  }

  /** A whole session: header, blocks, end of file, empty header. */
  function SessionOnLine(header: Unit, units: seq<Unit>, last: Unit): seq<Byte> {
    Frame(0, header.content, header.trailer) + (BlocksOnLine(units, 1) + ([EOT] + Frame(0, last.content, last.trailer)))
  }

  /** The contents of the blocks, one after the other. */
  function Whole(units: seq<Unit>): seq<Byte> {
    if units == [] then [] else units[0].content + Whole(units[1..])
  }

  /** All that was written, one block after the other. */
  function Written(log: seq<Action>): seq<Byte> {
    if log == [] then [] else (if log[0].Wrote? then log[0].content else []) + Written(log[1..])
  }

  /** One block handed over: to the writer, on the FPGA at the given offset, or to nobody if there is no target. */
  predicate HandedOver(cfg: Config, a: Action, number: Byte, offset: nat, content: seq<Byte>) {
    if cfg.target == NoTarget then a == Dropped(number, content)
    else a.Wrote? && a.number == number && a.content == content && (cfg.target == Fpga ==> a.offset == offset)
  }

  /** The i-th block is handed over with its number, its content and its place in the file, and acknowledged. */
  predicate InPlace(cfg: Config, log: seq<Action>, units: seq<Unit>, first: nat, base: nat, i: nat)
    requires |log| == 2 * |units| && i < |units|
  {
    HandedOver(cfg, log[2 * i], (first + i) % 256, (base + |Whole(units[..i])|) % OFFSET_RANGE, units[i].content)
    && log[2 * i + 1] == Send(ACK)
  }

  /** Two actions for each block and no others. */
  ghost predicate InOrder(cfg: Config, log: seq<Action>, units: seq<Unit>, first: nat, base: nat) {
    |log| == 2 * |units| && forall i :: 0 <= i < |units| ==> InPlace(cfg, log, units, first, base, i)
  }

  lemma WholeCons(u: Unit, rest: seq<Unit>)
    ensures Whole([u] + rest) == u.content + Whole(rest)
  {
    assert ([u] + rest)[1..] == rest;
  }

  lemma {:induction false} WrittenConcat(a: seq<Action>, b: seq<Action>)
    ensures Written(a + b) == Written(a) + Written(b)
    decreases |a|
  {
    if a == [] {
      assert a + b == b;
    } else {
      assert (a + b)[1..] == a[1..] + b;
      WrittenConcat(a[1..], b);
    }
  }

  lemma WrittenPair(a: Action, b: Action)
    ensures Written([a, b]) == (if a.Wrote? then a.content else []) + if b.Wrote? then b.content else []
  {
    assert [a, b][1..] == [b] && [b][1..] == [];
    assert Written([b]) == (if b.Wrote? then b.content else []) + Written([]);
  }

  lemma OneHandedOver(cfg: Config, s: State, content: seq<Byte>, base: nat)
    requires Willing(cfg) && (cfg.target == Fpga ==> s.offset == base % OFFSET_RANGE)
    ensures var (s', actions, _) := OnData(cfg, s, s.received % 256, content);
            && |actions| == 2 && HandedOver(cfg, actions[0], s.received % 256, base % OFFSET_RANGE, content)
            && actions[1] == Send(ACK) && s'.received == s.received + 1
            && (cfg.target == Fpga ==> s'.offset == (base + |content|) % OFFSET_RANGE)
            && Written(actions) == if cfg.target == NoTarget then [] else content
  {
    hide Written;
    var actions := OnData(cfg, s, s.received % 256, content).1;
    assert actions == [actions[0], actions[1]];
    WrittenPair(actions[0], actions[1]);
    if cfg.target == Fpga { SumModulo(base, |content|); }
  }

  lemma InOrderCons(cfg: Config, actions: seq<Action>, log: seq<Action>, u: Unit, rest: seq<Unit>, first: nat,
                    base: nat)
    requires |actions| == 2 && actions[1] == Send(ACK)
    requires HandedOver(cfg, actions[0], first % 256, base % OFFSET_RANGE, u.content)
    requires InOrder(cfg, log, rest, first + 1, base + |u.content|)
    ensures InOrder(cfg, actions + log, [u] + rest, first, base)
  {
    hide HandedOver, InPlace;
    FirstInPlace(cfg, actions, log, u, rest, first, base);
    forall i | 1 <= i < |[u] + rest|
      ensures InPlace(cfg, actions + log, [u] + rest, first, base, i)
    {
      LaterInPlace(cfg, actions, log, u, rest, first, base, i);
    }
  }

  lemma FirstInPlace(cfg: Config, actions: seq<Action>, log: seq<Action>, u: Unit, rest: seq<Unit>, first: nat,
                     base: nat)
    requires |actions| == 2 && actions[1] == Send(ACK) && |log| == 2 * |rest|
    requires HandedOver(cfg, actions[0], first % 256, base % OFFSET_RANGE, u.content)
    ensures InPlace(cfg, actions + log, [u] + rest, first, base, 0)
  {
    hide HandedOver;
    assert ([u] + rest)[..0] == [];
  }

  lemma LaterInPlace(cfg: Config, actions: seq<Action>, log: seq<Action>, u: Unit, rest: seq<Unit>, first: nat,
                     base: nat, i: nat)
    requires |actions| == 2 && |log| == 2 * |rest| && 1 <= i <= |rest|
    requires InPlace(cfg, log, rest, first + 1, base + |u.content|, i - 1)
    ensures InPlace(cfg, actions + log, [u] + rest, first, base, i)
  {
    hide HandedOver, Whole;
    var units, all := [u] + rest, actions + log;
    assert units[..i] == [u] + rest[..i - 1] && units[i] == rest[i - 1];
    WholeCons(u, rest[..i - 1]);
    assert all[2 * i] == log[2 * (i - 1)] && all[2 * i + 1] == log[2 * (i - 1) + 1];
  }

  /** The blocks stand in the log in order, and what was written is the file. */
  lemma {:induction false} BlocksInOrder(cfg: Config, s: State, units: seq<Unit>, base: nat)
    requires Willing(cfg) && (cfg.target == Fpga ==> s.offset == base % OFFSET_RANGE)
    ensures InOrder(cfg, BlocksHandled(cfg, s, units), units, s.received, base)
    ensures Written(BlocksHandled(cfg, s, units)) == if cfg.target == NoTarget then [] else Whole(units)
    decreases |units|
  {
    hide OnData, HandedOver, Written, Whole, InOrder;
    if units == [] {
      NothingWritten();
      assert InOrder(cfg, [], [], s.received, base) by { NoneInOrder(cfg, s.received, base); }
    } else {
      var u, rest := units[0], units[1..];
      assert units == [u] + rest;
      var (s', actions, _) := OnData(cfg, s, s.received % 256, u.content);
      OneHandedOver(cfg, s, u.content, base);
      BlocksInOrder(cfg, s', rest, base + |u.content|);
      InOrderCons(cfg, actions, BlocksHandled(cfg, s', rest), u, rest, s.received, base);
      WrittenConcat(actions, BlocksHandled(cfg, s', rest));
      WholeCons(u, rest);
    }
  }

  lemma NoneInOrder(cfg: Config, first: nat, base: nat)
    ensures InOrder(cfg, [], [], first, base)
  {}

  lemma NothingWritten()
    ensures Written([]) == [] && Whole([]) == []
  {}

  /** On a perfect line every file arrives whole, whatever the number of blocks and wherever earlier files left the
      writer's offset: the header opens the file, each block is handed over once, in order, with its content, and on the
      FPGA where the blocks before it end; each is acknowledged right behind; and the receiver returns the announced
      size. */
  lemma TransferIsComplete(cfg: Config, offset: nat, input: seq<Input>, header: Unit, units: seq<Unit>, last: Unit)
    requires Willing(cfg) && Sized(units) && offset < OFFSET_RANGE
    requires |header.content| in {PACKET_SIZE, PACKET_1K_SIZE} && |last.content| in {PACKET_SIZE, PACKET_1K_SIZE}
    requires header.content[0] != 0 && last.content[0] == 0
    requires Arrive(input, 0, SessionOnLine(header, units, last))
    ensures var (_, log, outcome) := Run(cfg, START.(offset := offset), [], input, 0);
            var n := 2 * |units|;
            && |log| == n + 7 && log[..3] == [Opened(header.content), Send(ACK), Send(CRC16)]
            && InOrder(cfg, log[3..n + 3], units, 1, offset)
            && log[n + 3..] == [Closed, Send(ACK), Finished, Send(ACK)]
            && outcome == Returned(cfg.sizeOf(header.content))
            && Written(log) == if cfg.target == NoTarget then [] else Whole(units)
  {
    hide Run, PacketAt, BlocksOnLine, Arrive, BlocksHandled, AfterBlocks, OnData, InPlace, Written, Whole;
    var start := START.(offset := offset);
    var s := start.(received := 1, begun := true, size := cfg.sizeOf(header.content));
    var blocks := BlocksHandled(cfg, s, units);
    TransferLog(cfg, start, s, input, header, units, last);
    BlocksInOrder(cfg, s, units, offset);
    var opening, closing := [Opened(header.content), Send(ACK), Send(CRC16)], [Closed, Send(ACK), Finished, Send(ACK)];
    var log := Run(cfg, start, [], input, 0).1;
    assert log == opening + blocks + closing;
    assert log[3..2 * |units| + 3] == blocks;
    FramesWriteNothing(opening, blocks, closing);
  }

  lemma FramesWriteNothing(opening: seq<Action>, blocks: seq<Action>, closing: seq<Action>)
    requires |opening| == 3 && forall a :: a in opening ==> !a.Wrote?
    requires |closing| == 4 && forall a :: a in closing ==> !a.Wrote?
    ensures Written(opening + blocks + closing) == Written(blocks)
  {
    hide Written;
    WrittenConcat(opening + blocks, closing);
    WrittenConcat(opening, blocks);
    NoneWritten(opening);
    NoneWritten(closing);
  }

  lemma {:induction false} NoneWritten(log: seq<Action>)
    requires forall a :: a in log ==> !a.Wrote?
    ensures Written(log) == []
    decreases |log|
  {
    if log != [] {
      assert log[0] in log && forall a :: a in log[1..] ==> a in log;
      NoneWritten(log[1..]);
    }
  }

  /** The whole log of a transfer, the blocks as the steps of the receiver give them. */
  lemma TransferLog(cfg: Config, start: State, s: State, input: seq<Input>, header: Unit, units: seq<Unit>, last: Unit)
    requires Willing(cfg) && Sized(units)
    requires |header.content| in {PACKET_SIZE, PACKET_1K_SIZE} && |last.content| in {PACKET_SIZE, PACKET_1K_SIZE}
    requires header.content[0] != 0 && last.content[0] == 0
    requires Arrive(input, 0, SessionOnLine(header, units, last))
    requires start.received == 0 && start.errors == 0
    requires s == start.(received := 1, begun := true, size := cfg.sizeOf(header.content))
    ensures var r := Run(cfg, start, [], input, 0);
            r.1 == [Opened(header.content), Send(ACK), Send(CRC16)] + BlocksHandled(cfg, s, units)
                   + [Closed, Send(ACK)] + [Finished, Send(ACK)]
            && r.2 == Returned(s.size)
  {
    hide Run, PacketAt, BlocksOnLine, Arrive, BlocksHandled, AfterBlocks, OnData;
    var first, blocks, end :=
        Frame(0, header.content, header.trailer), BlocksOnLine(units, 1), Frame(0, last.content, last.trailer);
    ArriveSplit(input, 0, first, blocks + ([EOT] + end));
    ArriveSplit(input, |first|, blocks, [EOT] + end);
    ArriveSplit(input, |first| + |blocks|, [EOT], end);
    FrameRead(input, 0, 0, header.content, header.trailer);
    ArriveLength(input, 0, first);
    RunOnce(cfg, start, [], input, 0);
    var log := [Opened(header.content), Send(ACK), Send(CRC16)];
    assert [] + log == log;
    BlocksReceived(cfg, s, log, input, |first|, units);
    AfterBlocksKeeps(cfg, s, units);
    EndReceived(cfg, AfterBlocks(cfg, s, units), log + BlocksHandled(cfg, s, units), input, |first| + |blocks|, last);
  }

  lemma ArriveLength(input: seq<Input>, pos: nat, bytes: seq<Byte>)
    requires Arrive(input, pos, bytes)
    ensures pos + |bytes| <= |input| && forall i :: 0 <= i < |bytes| ==> At(input, pos + i) == Got(bytes[i])
  {}

  lemma EndReceived(cfg: Config, s: State, log: seq<Action>, input: seq<Input>, pos: nat, last: Unit)
    requires |last.content| in {PACKET_SIZE, PACKET_1K_SIZE} && last.content[0] == 0
    requires Arrive(input, pos, [EOT]) && Arrive(input, pos + 1, Frame(0, last.content, last.trailer))
    ensures Run(cfg, s, log, input, pos).1 == log + [Closed, Send(ACK)] + [Finished, Send(ACK)]
    ensures Run(cfg, s, log, input, pos).2 == Returned(s.size)
  {
    hide Run, Arrive, Gathered;
    ArriveLength(input, pos, [EOT]);
    ArriveLength(input, pos + 1, Frame(0, last.content, last.trailer));
    assert [EOT][0] == EOT && At(input, pos + 0) == Got([EOT][0]);
    RunOnce(cfg, s, log, input, pos);
    FrameRead(input, pos + 1, 0, last.content, last.trailer);
    RunOnce(cfg, s.(errors := 0, received := 0), log + [Closed, Send(ACK)], input, pos + 1);
  }

  /** A packet that was acknowledged, block or file header, is refused when it comes again, however often: a lost ACK is
      never repeated. */
  lemma RepeatIsRefused(cfg: Config, s: State, content: seq<Byte>)
    requires |content| >= PACKET_SIZE
    requires OnPacket(cfg, s, Block(s.received % 256, content)).2.Running?
    ensures var s' := OnPacket(cfg, s, Block(s.received % 256, content)).0;
            OnPacket(cfg, s', Block(s.received % 256, content)) == (s', [Send(NAK)], Running)
  {}

  // ---- What is refused and how a session ends ----

  /** A packet whose complement does not match its number is no packet, and reading goes on behind it. */
  lemma WrongComplementIsBad(input: seq<Input>, pos: nat, number: Byte, complement: Byte, content: seq<Byte>,
                             trailer: (Byte, Byte))
    requires |content| in {128, 1024} && number + complement != 255
    requires Arrive(input, pos, [if |content| == 128 then 0x01 else 0x02, number, complement] + content
                                + [trailer.0, trailer.1])
    ensures PacketAt(input, pos) == (Bad, pos + |content| + 5)
  {
    hide Gathered;
    var frame := [if |content| == 128 then 0x01 else 0x02, number, complement] + content + [trailer.0, trailer.1];
    assert frame == [frame[0]] + frame[1..];
    ArriveSplit(input, pos, [frame[0]], frame[1..]);
    assert input[pos + 0] == Got(frame[0]);
    GatheredWhole(input, pos + 1, frame[1..]);
  }

  /** The line fails from a position on. */
  ghost predicate Fails(input: seq<Input>, pos: nat, n: nat) {
    pos + n <= |input| && forall i :: pos <= i < pos + n ==> input[i] == Timeout
  }

  /** Before anything was received the receiver asks for the sender again and again, however often the line times out.
      */
  lemma {:induction false} WaitsForSender(cfg: Config, s: State, log: seq<Action>, input: seq<Input>, pos: nat, n: nat)
    requires !s.begun && s.errors == 0 && Fails(input, pos, n)
    ensures Run(cfg, s, log, input, pos) == Run(cfg, s, log + Asked(n), input, pos + n)
    decreases n
  {
    hide Run, PacketAt;
    if n == 0 {
      assert log + [] == log;
    } else {
      TimeoutIsBad(input, pos);
      RunOnce(cfg, s, log, input, pos);
      WaitsForSender(cfg, s, log + [Send(0x43)], input, pos + 1, n - 1);
      assert log + [Send(0x43)] + Asked(n - 1) == log + Asked(n);
    }
  }

  /** The byte 'C', n times. */
  function Asked(n: nat): seq<Action> { if n == 0 then [] else [Send(0x43)] + Asked(n - 1) }

  lemma TimeoutIsBad(input: seq<Input>, pos: nat)
    requires pos < |input| && input[pos] == Timeout
    ensures PacketAt(input, pos) == (Bad, pos + 1)
  {}

  /** After that, up to five failures in a row are answered in the same way, and the sixth ends the session with two CA.
      */
  lemma {:induction false} SixthFailureEnds(cfg: Config, s: State, log: seq<Action>, input: seq<Input>, pos: nat,
                                            n: nat)
    requires s.begun && s.errors <= 5 && n + s.errors <= 6 && Fails(input, pos, n)
    ensures var r := Run(cfg, s, log, input, pos);
            if n + s.errors < 6 then r == Run(cfg, s.(errors := s.errors + n), log + Asked(n), input, pos + n)
            else r == (s.(errors := 6), log + Asked(n - 1) + [Send(0x18), Send(0x18)], Returned(0))
    decreases n
  {
    hide Run, PacketAt;
    if n == 0 {
      assert log + [] == log;
    } else {
      TimeoutIsBad(input, pos);
      RunOnce(cfg, s, log, input, pos);
      if s.errors == 5 {
        assert log + [] == log;
      } else {
        SixthFailureEnds(cfg, s.(errors := s.errors + 1), log + [Send(0x43)], input, pos + 1, n - 1);
        assert log + [Send(0x43)] + Asked(n - 1) == log + Asked(n);
        if n + s.errors == 6 { assert log + [Send(0x43)] + Asked(n - 2) == log + Asked(n - 1); }
      }
    }
  }

  /** A packet with any number but the expected one is refused, and nothing comes of it. */
  lemma OtherNumberIsRefused(cfg: Config, s: State, number: Byte, content: seq<Byte>)
    requires |content| >= 128 && number != s.received % 256
    ensures OnPacket(cfg, s, Block(number, content)) == (s.(errors := 0), [Send(0x15)], Running)
  {}

  /** A block the first microcontroller's writer does not take ends the session with -1 and two CA. */
  lemma RefusedBlockEnds(cfg: Config, s: State, content: seq<Byte>)
    requires |content| >= 128 && s.received > 0 && cfg.target == Mcu1 && !cfg.programs(s.written, content)
    ensures var r := OnPacket(cfg, s, Block(s.received % 256, content));
            r.1 == [Wrote(s.received % 256, s.offset, content), Send(0x18), Send(0x18)] && r.2 == Returned(-1)
  {}

  /** Any packet that is received sets the count of failures back. */
  lemma PacketClearsErrors(cfg: Config, s: State, p: Packet)
    requires p.Block? && |p.content| >= PACKET_SIZE
    ensures OnPacket(cfg, s, p).0.errors == 0
  {}

  /** The user's 'A' or 'a' ends the session with -3, two CAN bytes of the sender end it with 0; both are answered. */
  lemma Aborts(cfg: Config, s: State, log: seq<Action>, input: seq<Input>, pos: nat)
    requires pos < |input| && input[pos].Got?
    ensures var r := Run(cfg, s, log, input, pos); var c := input[pos].b;
            && (c in {0x41, 0x61} ==> r == (s, log + [Send(0x18), Send(0x18)], Returned(-3)))
            && (c == 0x18 && pos + 1 < |input| && input[pos + 1] == Got(0x18) ==>
                  r.1 == log + [Cancelled, Send(0x06)] && r.2 == Returned(0))
  {
    hide Run, Gathered;
    RunOnce(cfg, s, log, input, pos);
  }

  // ---- The code ----

  /** The receiver with its packet buffer; `log` records what it does. */
  class Receiver {
    const cfg: Config
    const input: seq<Input>
    var pos: nat
    const packetData: array<Byte>
    var received: nat
    var errors: nat
    var begun: bool
    var size: int
    var offset: nat
    var written: nat
    var log: seq<Action>

    constructor (cfg: Config, input: seq<Input>, offset: nat)
      ensures Valid() && fresh(packetData) && this.cfg == cfg && this.input == input
      ensures View() == START.(offset := offset) && pos == 0 && log == []
    {
      this.cfg, this.input, this.offset := cfg, input, offset;
      pos, received, errors, begun, size, written, log := 0, 0, 0, false, 0, 0, [];
      packetData := new Byte[PACKET_1K_SIZE + PACKET_OVERHEAD](_ => 0);
    }

    ghost predicate Valid() { packetData.Length == PACKET_1K_SIZE + PACKET_OVERHEAD }

    function View(): State
      reads this
    {
      State(received, errors, begun, size, offset, written)
    }

    method ReceiveByte() returns (r: Input)
      modifies this`pos
      ensures r == At(input, old(pos)) && pos == old(pos) + 1
    {
      r := if pos < |input| then input[pos] else Timeout;
      pos := pos + 1;
    }

    /** Fills the buffer behind its first byte. */
    method FillPacket(packetSize: nat) returns (ok: bool)
      requires Valid() && packetSize <= PACKET_1K_SIZE
      modifies this`pos, packetData
      ensures var n := packetSize + PACKET_OVERHEAD - 1;
              var (bytes, end) := Gathered(input, old(pos), n);
              pos == end && ok == bytes.Complete? && (ok ==> packetData[1..1 + n] == bytes.bytes)
    {
      var i := 1;
      ghost var n := packetSize + PACKET_OVERHEAD - 1;
      ghost var start := pos;
      assert packetData[1..1] == [];
      JoinedNone(Gathered(input, start, n));
      while i < packetSize + PACKET_OVERHEAD
        invariant 1 <= i <= packetSize + PACKET_OVERHEAD && pos == start + i - 1
        invariant Gathered(input, start, n) == Joined(packetData[1..i], Gathered(input, pos, n - (i - 1)))
      {
        var c := ReceiveByte();
        if c.Timeout? {
          return false;
        }
        ghost var before := packetData[1..i];
        packetData[i] := c.b;
        i := i + 1;
        assert packetData[1..i] == before + [c.b];
        JoinedOnce(input, before, c.b, pos - 1, n - (i - 2));
      }
      ok := true;
    }

    /** Which packet the return code and length stand for. */
    ghost predicate Encodes(code: int, length: int, p: Packet)
      reads packetData
      requires Valid()
    {
      match p
      case Bad => code == -1
      case AbortByUser => code == 1
      case EndOfFile => code == 0 && length == 0
      case CancelBySender => code == 0 && length == -1
      case Block(number, content) =>
        code == 0 && length == |content| > 0 && PACKET_HEADER + length <= packetData.Length
        && packetData[1] == number && packetData[PACKET_HEADER..PACKET_HEADER + length] == content
    }

    method ReceiveBlock(c: Byte, packetSize: nat) returns (code: int, length: int)
      requires Valid() && packetSize in {PACKET_SIZE, PACKET_1K_SIZE}
      modifies this`pos, packetData
      ensures Encodes(code, length, BlockAt(input, old(pos), packetSize).0)
              && pos == BlockAt(input, old(pos), packetSize).1
    {
      hide Gathered;
      length := 0;
      packetData[0] := c;
      var ok := FillPacket(packetSize);
      if !ok {
        return -1, 0;
      }
      ghost var bytes := packetData[1..packetSize + PACKET_OVERHEAD];
      assert bytes[0] == packetData[1] && bytes[1] == packetData[2];
      if packetData[1] != 255 - packetData[2] {
        return -1, 0;
      }
      SliceOfSlice(packetData[..], bytes, packetSize);
      code, length := 0, packetSize;
    }

    method ReceivePacket() returns (code: int, length: int)
      requires Valid()
      modifies this`pos, packetData
      ensures Encodes(code, length, PacketAt(input, old(pos)).0) && pos == PacketAt(input, old(pos)).1
    {
      hide BlockAt;
      length := 0;
      var r := ReceiveByte();
      if r.Timeout? {
        return -1, 0;
      }
      var c := r.b;
      if c == SOH {
        code, length := ReceiveBlock(c, PACKET_SIZE);
      } else if c == STX {
        code, length := ReceiveBlock(c, PACKET_1K_SIZE);
      } else if c == EOT {
        code := 0;
      } else if c == CA {
        r := ReceiveByte();
        if r == Got(CA) {
          code, length := 0, -1;
        } else {
          code := -1;
        }
      } else if c == ABORT1 || c == ABORT2 {
        code := 1;
      } else {
        code := -1;
      }
    }

    method SendByte(b: Byte)
      modifies this`log
      ensures log == old(log) + [Send(b)]
    {
      log := log + [Send(b)];
    }

    /** The effect of one packet on state and log. */
    twostate predicate Did(r: (State, seq<Action>, Outcome), outcome: Outcome)
      reads this
    {
      View() == r.0 && log == old(log) + r.1 && outcome == r.2
    }

    /** A data packet goes to the writer of the target. */
    method DataPacket(length: nat) returns (outcome: Outcome)
      requires Valid() && PACKET_HEADER + length <= packetData.Length && received > 0 && packetData[1] == received % 256
      modifies this`received, this`begun, this`offset, this`written, this`log
      ensures Did(old(OnData(cfg, View(), packetData[1], packetData[PACKET_HEADER..PACKET_HEADER + length])), outcome)
    {
      var content := packetData[PACKET_HEADER..PACKET_HEADER + length];
      if cfg.target == Mcu1 {
        var accepted := cfg.programs(written, content);
        log := log + [Wrote(packetData[1], offset, content)];
        written := written + 1;
        if !accepted {
          SendByte(CA);
          SendByte(CA);
          return Returned(-1);
        }
      } else if cfg.target == Fpga {
        log := log + [Wrote(packetData[1], offset, content)];
        offset := (offset + length) % OFFSET_RANGE;
        written := written + 1;
      } else {
        log := log + [Dropped(packetData[1], content)];
      }
      SendByte(ACK);
      received := received + 1;
      begun := true;
      outcome := Running;
    }

    /** A header packet opens a file; an empty one ends the session. */
    method HeaderPacket(length: nat) returns (outcome: Outcome)
      requires Valid() && PACKET_SIZE <= length && PACKET_HEADER + length <= packetData.Length && received == 0
      modifies this`received, this`begun, this`size, this`log
      ensures Did(old(OnHeader(cfg, View(), packetData[PACKET_HEADER..PACKET_HEADER + length])), outcome)
    {
      var content := packetData[PACKET_HEADER..PACKET_HEADER + length];
      if packetData[PACKET_HEADER] != 0 {
        log := log + [Opened(content)];
        size := cfg.sizeOf(content);
        SendByte(ACK);
        SendByte(CRC16);
        received := received + 1;
        begun := true;
        outcome := Running;
      } else {
        log := log + [Finished];
        SendByte(ACK);
        outcome := Returned(size);
      }
    }

    /** Everything after a packet was read. */
    method HandlePacket(code: int, length: int, ghost p: Packet) returns (outcome: Outcome)
      requires Valid() && Encodes(code, length, p) && (p.Block? ==> |p.content| >= PACKET_SIZE)
      modifies this`received, this`errors, this`begun, this`size, this`offset, this`written, this`log
      ensures Did(old(OnPacket(cfg, View(), p)), outcome)
    {
      hide OnData, OnHeader;
      if code == 0 {
        errors := 0;
        if length == -1 {
          log := log + [Cancelled];
          SendByte(ACK);
          return Returned(0);
        }
        if length == 0 {
          log := log + [Closed];
          SendByte(ACK);
          received := 0;
          return Running;
        }
        if packetData[1] != received % 256 {
          SendByte(NAK);
          outcome := Running;
        } else if received == 0 {
          outcome := HeaderPacket(length);
        } else {
          outcome := DataPacket(length);
        }
      } else if code == 1 {
        SendByte(CA);
        SendByte(CA);
        outcome := Returned(-3);
      } else {
        outcome := BadPacket();
      }
    }

    method BadPacket() returns (outcome: Outcome)
      modifies this`errors, this`log
      ensures Did(old(OnBad(View())), outcome)
    {
      if begun {
        errors := errors + 1;
      }
      if errors > MAX_ERRORS {
        SendByte(CA);
        SendByte(CA);
        return Returned(0);
      }
      SendByte(CRC16);
      outcome := Running;
    }

    /** `Ymodem_Receive`, until it returns or the recorded input is used up. */
    method Receive() returns (outcome: Outcome)
      requires Valid()
      modifies this, packetData
      ensures (View(), log, outcome) == Run(cfg, old(View()), old(log), input, old(pos))
    {
      hide PacketAt, OnPacket;
      outcome := Running;
      while pos < |input|
        invariant outcome == Running
        invariant Run(cfg, View(), log, input, pos) == Run(cfg, old(View()), old(log), input, old(pos))
        decreases |input| - pos
      {
        ghost var p := PacketAt(input, pos).0;
        RunOnce(cfg, View(), log, input, pos);
        var code, length := ReceivePacket();
        outcome := HandlePacket(code, length, p);
        if outcome.Returned? {
          return;
        }
      }
    }
  }

  /** Bytes already read in front of what is still gathered. */
  function Joined(front: seq<Byte>, r: (Bytes, nat)): (Bytes, nat) {
    (if r.0.Complete? then Complete(front + r.0.bytes) else Incomplete, r.1)
  }

  lemma JoinedOnce(input: seq<Input>, front: seq<Byte>, b: Byte, pos: nat, n: nat)
    requires n > 0 && At(input, pos) == Got(b)
    ensures Joined(front, Gathered(input, pos, n)) == Joined(front + [b], Gathered(input, pos + 1, n - 1))
  {
    var (rest, end) := Gathered(input, pos + 1, n - 1);
    assert Gathered(input, pos, n) == (if rest.Complete? then Complete([b] + rest.bytes) else Incomplete, end);
    if rest.Complete? { assert front + ([b] + rest.bytes) == front + [b] + rest.bytes; }
  }

  lemma JoinedNone(r: (Bytes, nat))
    ensures Joined([], r) == r
  {
    if r.0.Complete? { assert [] + r.0.bytes == r.0.bytes; }
  }

  lemma SliceOfSlice(data: seq<Byte>, bytes: seq<Byte>, n: nat)
    requires n + PACKET_OVERHEAD <= |data| && bytes == data[1..n + PACKET_OVERHEAD]
    ensures bytes[2..2 + n] == data[PACKET_HEADER..PACKET_HEADER + n]
  {
    var a, b := bytes[2..2 + n], data[PACKET_HEADER..PACKET_HEADER + n];
    assert forall i :: 0 <= i < n ==> a[i] == b[i];
  }
}
