/**
 Message signing: the table of streams a receiver remembers, what it accepts over whole runs, and the
 signature a sender attaches. The hash over secret key and message is a parameter.
 */
module MavSigning {
  import opened MavFrame
  import opened MavRoundTrip
  import Division

  const MAX_SIGNING_STREAMS: nat := 16
  const DIGEST_LEN: nat := 6
  const STAMP_LEN: nat := 6
  const STAMP_RANGE: nat := 0x1_0000_0000_0000
  const NEW_STREAM_WINDOW: nat := 6000 * 1000

  type Digest = s: seq<Byte> | |s| == DIGEST_LEN witness [0, 0, 0, 0, 0, 0]
  type Hash = seq<Byte> -> Digest

  // ---- Time stamps ----

  /** The value of little-endian bytes. */
  function Value(b: seq<Byte>): nat {
    if b == [] then 0 else b[0] + 0x100 * Value(b[1..])
  }

  function Bytes(v: nat, n: nat): (b: seq<Byte>)
    ensures |b| == n
  {
    if n == 0 then [] else [v % 0x100] + Bytes(v / 0x100, n - 1)
  }

  function Power256(n: nat): (r: nat)
    ensures r >= 1
  {
    if n == 0 then 1 else 0x100 * Power256(n - 1)
  }

  lemma {:induction false} ValueOfBytes(v: nat, n: nat)
    ensures Value(Bytes(v, n)) == v % Power256(n)
  {
    if n > 0 {
      ValueOfBytes(v / 0x100, n - 1);
      SplitModulo(v, Power256(n - 1));
      assert Bytes(v, n)[1..] == Bytes(v / 0x100, n - 1);
    }
  }

  lemma SplitModulo(v: nat, p: nat)
    requires p >= 1
    ensures v % (0x100 * p) == v % 0x100 + 0x100 * (v / 0x100 % p)
  {
    var q, r := v / 0x100 / p, v / 0x100 % p;
    assert v / 0x100 == q * p + r;
    assert v == q * (0x100 * p) + (0x100 * r + v % 0x100) by {
      assert v == 0x100 * (q * p + r) + v % 0x100;
    }
    assert 0 <= 0x100 * r + v % 0x100 < 0x100 * p;
    Division.UniqueRemainder(v, 0x100 * p, q, 0x100 * r + v % 0x100);
  }

  lemma StampRange()
    ensures Power256(STAMP_LEN) == STAMP_RANGE
  {}

  // ---- The receiver ----

  /** One remembered stream; `stamp` holds the bytes of the last time stamp accepted on it. */
  datatype Stream = Stream(sysid: Byte, compid: Byte, link: Byte, stamp: seq<Byte>)

  datatype StreamId = StreamId(sysid: Byte, compid: Byte, link: Byte)

  function IdOf(s: Stream): StreamId { StreamId(s.sysid, s.compid, s.link) }

  function StreamOf(m: Message): StreamId
    requires |m.signature| == SIGNATURE_LEN
  {
    StreamId(m.sysid, m.compid, m.signature[0])
  }

  function StampOf(m: Message): nat
    requires |m.signature| == SIGNATURE_LEN
  {
    Value(m.signature[1..7])
  }

  /** Key, whether time stamps are checked, the clock, and the streams seen so far. */
  datatype Receiver = Receiver(key: seq<Byte>, checks: bool, clock: nat, streams: seq<Stream>)

  /** At most sixteen streams, all different. */
  ghost predicate Good(r: Receiver) {
    && |r.streams| <= MAX_SIGNING_STREAMS
    && (forall i :: 0 <= i < |r.streams| ==> |r.streams[i].stamp| == STAMP_LEN)
    && (forall i, j :: 0 <= i < j < |r.streams| ==> IdOf(r.streams[i]) != IdOf(r.streams[j]))
  }

  /** Position of a stream in the table, or the table's length. */
  function Find(streams: seq<Stream>, id: StreamId): (i: nat)
    ensures i <= |streams| && (i < |streams| ==> IdOf(streams[i]) == id)
    ensures forall j :: 0 <= j < i ==> IdOf(streams[j]) != id
  {
    if streams == [] || IdOf(streams[0]) == id then 0
    else
      var i := Find(streams[1..], id);
      i + 1
  }

  /** What is hashed: key, start marker, header, payload, checksum bytes, link and time stamp. */
  function HashInput(key: seq<Byte>, m: Message): seq<Byte>
    requires |m.payload| == PAYLOAD_ROOM && |m.signature| == SIGNATURE_LEN
  {
    key + [m.magic] + Body(m, false) + [m.ck0, m.ck1] + m.signature[..7]
  }

  predicate Authentic(hash: Hash, key: seq<Byte>, m: Message)
    requires Sane(m)
  {
    hash(HashInput(key, m)) == m.signature[7..]
  }

  /** Whether a message with a right hash is accepted. */
  predicate Timely(r: Receiver, m: Message)
    requires |m.signature| == SIGNATURE_LEN && forall s :: s in r.streams ==> |s.stamp| == STAMP_LEN
  {
    var i := Find(r.streams, StreamOf(m));
    if i == |r.streams| then i < MAX_SIGNING_STREAMS && (r.checks ==> StampOf(m) + NEW_STREAM_WINDOW >= r.clock)
    else r.checks ==> StampOf(m) > Value(r.streams[i].stamp)
  }

  predicate Verdict(hash: Hash, r: Receiver, m: Message)
    requires Good(r) && Sane(m)
  {
    Authentic(hash, r.key, m) && Timely(r, m)
  }

  /** The receiver after an accepted message. */
  function Remembered(r: Receiver, m: Message): Receiver
    requires |m.signature| == SIGNATURE_LEN
  {
    var i := Find(r.streams, StreamOf(m));
    var s := Stream(m.sysid, m.compid, m.signature[0], m.signature[1..7]);
    r.(streams := if i == |r.streams| then r.streams + [s] else r.streams[i := s],
       clock := if StampOf(m) > r.clock then StampOf(m) else r.clock)
  }

  /** The receiver after any message. */
  function Next(hash: Hash, r: Receiver, m: Message): (r': Receiver)
    requires Good(r) && Sane(m)
    ensures Good(r') && r'.key == r.key && r'.checks == r.checks
  {
    var r' := if Verdict(hash, r, m) then Remembered(r, m) else r;
    assert Good(r') by { if Verdict(hash, r, m) { RememberedIsGood(r, m); } }
    r'
  }

  lemma RememberedIsGood(r: Receiver, m: Message)
    requires Good(r) && Sane(m) && Timely(r, m)
    ensures Good(Remembered(r, m))
  {}

  /** The last time stamp accepted on a stream, or -1 for an unknown one. */
  function Last(r: Receiver, id: StreamId): (v: int)
    requires forall i :: 0 <= i < |r.streams| ==> |r.streams[i].stamp| == STAMP_LEN
    ensures v >= -1
  {
    var i := Find(r.streams, id);
    if i == |r.streams| then -1 else Value(r.streams[i].stamp)
  }

  lemma RememberedLast(r: Receiver, m: Message, id: StreamId)
    requires Good(r) && Sane(m) && Timely(r, m) && Good(Remembered(r, m))
    ensures Last(Remembered(r, m), id) == if id == StreamOf(m) then StampOf(m) else Last(r, id)
  {
    var i, j := Find(r.streams, id), Find(Remembered(r, m).streams, id);
    var k, t, t' := Find(r.streams, StreamOf(m)), r.streams, Remembered(r, m).streams;
    assert forall n :: 0 <= n < |t| && n != k ==> t'[n] == t[n];
    assert IdOf(t'[k]) == StreamOf(m);
    if i < |t| { assert IdOf(t'[i]) == id; assert j <= i; assert j == i; }
    else if id == StreamOf(m) { assert j == k; }
    else { assert forall n :: 0 <= n < |t'| ==> IdOf(t'[n]) != id; }
  }

  /** One message: on its stream an accepted message is newer than what was accepted before and becomes the last;
      every other stream keeps its last time stamp. */
  lemma StepOfStamps(hash: Hash, r: Receiver, m: Message, id: StreamId)
    requires Good(r) && Sane(m)
    ensures var ok, r' := Verdict(hash, r, m), Next(hash, r, m);
            && Last(r', id) == (if ok && id == StreamOf(m) then StampOf(m) else Last(r, id))
            && (r.checks && ok && Last(r, StreamOf(m)) != -1 ==> StampOf(m) > Last(r, StreamOf(m)))
            && r'.clock == (if ok && StampOf(m) > r.clock then StampOf(m) else r.clock)
  {
    if Verdict(hash, r, m) { RememberedLast(r, m, id); }
  }

  /** When a message is accepted: the hash is right, and with time stamps checked, either the stream is known and the
      time stamp is newer than its last, or there is room for another of sixteen streams and the time stamp is at most
      a minute, in units of ten microseconds, behind the clock. */
  lemma AcceptedIff(hash: Hash, r: Receiver, m: Message)
    requires Good(r) && Sane(m)
    ensures var last := Last(r, StreamOf(m));
            Verdict(hash, r, m) <==>
              && hash(HashInput(r.key, m)) == m.signature[7..]
              && if last == -1 then |r.streams| < 16 && (r.checks ==> StampOf(m) + 6_000_000 >= r.clock)
                 else r.checks ==> StampOf(m) > last
  {
    hide HashInput;
  }

  /** The hash covers the key and every byte of the frame before the hash itself. */
  lemma HashCoversFrame(entries: Entries, key: seq<Byte>, m: Message, frame: seq<Byte>)
    requires CompleteFrame(entries, m, false, frame) && m.incompat == 1 && m.magic == 0xFD
    ensures HashInput(key, m) == key + ([0xFD] + frame)[..|frame| - 5]
            && ([0xFD] + frame)[|frame| - 5..] == m.signature[7..]
  {
    hide Crc, CkA, CkB, Body, Checked;
    var front := [0xFD] + Body(m, false) + [m.ck0, m.ck1];
    assert [0xFD] + frame == front + m.signature;
    assert m.signature == m.signature[..7] + m.signature[7..];
    assert [0xFD] + frame == (front + m.signature[..7]) + m.signature[7..];
    assert key + [m.magic] + Body(m, false) + [m.ck0, m.ck1] + m.signature[..7] == key + (front + m.signature[..7]);
  }

  // ---- Runs ----

  ghost predicate AllSane(ms: seq<Message>) { forall i :: 0 <= i < |ms| ==> Sane(ms[i]) }

  function Run(hash: Hash, r: Receiver, ms: seq<Message>): (r': Receiver)
    requires Good(r) && AllSane(ms)
    ensures Good(r') && r'.key == r.key && r'.checks == r.checks
  {
    if ms == [] then r else Next(hash, Run(hash, r, ms[..|ms| - 1]), ms[|ms| - 1])
  }

  predicate Accepted(hash: Hash, r: Receiver, ms: seq<Message>, i: nat)
    requires Good(r) && AllSane(ms) && i < |ms|
  {
    Verdict(hash, Run(hash, r, ms[..i]), ms[i])
  }

  lemma {:induction false} StampsPersist(hash: Hash, r: Receiver, ms: seq<Message>, n: nat, id: StreamId)
    requires Good(r) && AllSane(ms) && n <= |ms|
    ensures r.checks ==> Last(Run(hash, r, ms), id) >= Last(Run(hash, r, ms[..n]), id)
    ensures Run(hash, r, ms).clock >= Run(hash, r, ms[..n]).clock
    decreases |ms|
  {
    hide Next, Verdict, Last;
    if n == |ms| {
      assert ms[..n] == ms;
    } else {
      var last := |ms| - 1;
      assert ms[..last][..n] == ms[..n];
      StampsPersist(hash, r, ms[..last], n, id);
      OneStampPersists(hash, Run(hash, r, ms[..last]), ms[last], id);
    }
  }

  lemma OneStampPersists(hash: Hash, r: Receiver, m: Message, id: StreamId)
    requires Good(r) && Sane(m)
    ensures r.checks ==> Last(Next(hash, r, m), id) >= Last(r, id)
    ensures Next(hash, r, m).clock >= r.clock
  {
    StepOfStamps(hash, r, m, id);
  }

  lemma RunSnoc(hash: Hash, r: Receiver, ms: seq<Message>, i: nat)
    requires Good(r) && AllSane(ms) && i < |ms|
    ensures Run(hash, r, ms[..i + 1]) == Next(hash, Run(hash, r, ms[..i]), ms[i])
  {
    hide Next;
    assert ms[..i + 1][..i] == ms[..i];
  }

  /** Over any run with time stamps checked, the messages accepted on one stream carry strictly increasing time
      stamps; a repeated message is therefore refused however much later it comes. */
  lemma AcceptedStampsIncrease(hash: Hash, r: Receiver, ms: seq<Message>, i: nat, j: nat)
    requires Good(r) && AllSane(ms) && r.checks && i < j < |ms| && StreamOf(ms[i]) == StreamOf(ms[j])
    requires Accepted(hash, r, ms, i) && Accepted(hash, r, ms, j)
    ensures StampOf(ms[i]) < StampOf(ms[j])
  {
    hide Next, Verdict, Last;
    var id := StreamOf(ms[i]);
    StepOfStamps(hash, Run(hash, r, ms[..i]), ms[i], id);
    RunSnoc(hash, r, ms, i);
    assert ms[..j][..i + 1] == ms[..i + 1];
    StampsPersist(hash, r, ms[..j], i + 1, id);
    StepOfStamps(hash, Run(hash, r, ms[..j]), ms[j], id);
  }

  /** The clock never goes back and never falls behind an accepted time stamp. */
  lemma ClockDominates(hash: Hash, r: Receiver, ms: seq<Message>, i: nat)
    requires Good(r) && AllSane(ms) && i < |ms|
    ensures Run(hash, r, ms).clock >= r.clock
    ensures Accepted(hash, r, ms, i) ==> Run(hash, r, ms).clock >= StampOf(ms[i])
  {
    hide Next, Verdict, Last;
    var id := StreamOf(ms[i]);
    assert ms[..0] == [];
    StampsPersist(hash, r, ms, 0, id);
    StampsPersist(hash, r, ms, i + 1, id);
    RunSnoc(hash, r, ms, i);
    StepOfStamps(hash, Run(hash, r, ms[..i]), ms[i], id);
  }

  /** Accepting the very message that was just accepted is possible exactly when time stamps are not checked. */
  lemma ReplayAcceptedIff(hash: Hash, r: Receiver, m: Message)
    requires Good(r) && Sane(m) && Verdict(hash, r, m)
    ensures Verdict(hash, Next(hash, r, m), m) <==> !r.checks
  {
    hide Authentic;
    RememberedLast(r, m, StreamOf(m));
  }

  // ---- The sender ----

  /** The signature block: link, time stamp, and the digest of everything sent up to there. */
  function SignatureBlock(hash: Hash, key: seq<Byte>, link: Byte, stamp: nat, header: seq<Byte>, packet: seq<Byte>,
                          crc: seq<Byte>): (s: seq<Byte>)
    ensures |s| == SIGNATURE_LEN
  {
    var front := [link] + Bytes(stamp, STAMP_LEN);
    front + hash(key + header + packet + crc + front)
  }

  /** A message as the sender signs it. */
  function Signed(hash: Hash, key: seq<Byte>, link: Byte, stamp: nat, m: Message): Message
    requires Sane(m)
  {
    m.(signature :=
        SignatureBlock(hash, key, link, stamp, [m.magic] + Header(m, false), m.payload[..m.len], [m.ck0, m.ck1]))
  }

  /** A receiver with the sender's key finds every signed message authentic, on the sender's link, with the sender's
      time modulo 2^48. */
  lemma SignedIsAuthentic(hash: Hash, key: seq<Byte>, link: Byte, stamp: nat, m: Message)
    requires Sane(m)
    ensures var s := Signed(hash, key, link, stamp, m);
            Sane(s) && Authentic(hash, key, s) && StreamOf(s) == StreamId(m.sysid, m.compid, link)
                && StampOf(s) == stamp % STAMP_RANGE
  {
    hide Value, Bytes;
    var s := Signed(hash, key, link, stamp, m);
    var front := [link] + Bytes(stamp, STAMP_LEN);
    assert s.signature[..7] == front && s.signature[1..7] == Bytes(stamp, STAMP_LEN);
    assert HashInput(key, s) == key + ([m.magic] + Header(m, false)) + m.payload[..m.len] + [m.ck0, m.ck1] + front;
    ValueOfBytes(stamp, STAMP_LEN);
    StampRange();
  }

  /** Among all messages that arrive, those at the positions `at` are one sender's, whose clock starts at `stamp` and
      ticks once per message. */
  ghost predicate SignedInTurn(hash: Hash, key: seq<Byte>, link: Byte, stamp: nat, ms: seq<Message>, all: seq<Message>,
                               at: seq<nat>) {
    && |at| == |ms| && AllSane(ms) && (forall i, j :: 0 <= i < j < |at| ==> at[i] < at[j])
    && forall i :: 0 <= i < |ms| ==> at[i] < |all| && all[at[i]] == Signed(hash, key, link, stamp + i, ms[i])
  }

  /** A message that is not on a stream, or only pretends to be. */
  predicate Foreign(hash: Hash, key: seq<Byte>, id: StreamId, m: Message)
    requires Sane(m)
  {
    StreamOf(m) != id || !Authentic(hash, key, m)
  }

  /** Messages of others do not touch the last time stamp of a stream. */
  lemma {:induction false} Undisturbed(hash: Hash, r: Receiver, all: seq<Message>, a: nat, b: nat, id: StreamId)
    requires Good(r) && AllSane(all) && a <= b <= |all|
    requires forall j :: a <= j < b ==> Foreign(hash, r.key, id, all[j])
    ensures Last(Run(hash, r, all[..b]), id) == Last(Run(hash, r, all[..a]), id)
    decreases b
  {
    hide Next, Last, Authentic, Timely, Run;
    if a < b {
      Undisturbed(hash, r, all, a, b - 1, id);
      RunSnoc(hash, r, all, b - 1);
      var mid := Run(hash, r, all[..b - 1]);
      StepOfStamps(hash, mid, all[b - 1], id);
    }
  }

  /** A sender's first message finds the receiver ready. */
  ghost predicate Ready(r: Receiver, id: StreamId, stamp: nat)
    requires Good(r)
  {
    if Last(r, id) == -1 then |r.streams| < MAX_SIGNING_STREAMS && (r.checks ==> stamp + NEW_STREAM_WINDOW >= r.clock)
    else r.checks ==> Last(r, id) < stamp
  }

  lemma TimelyIffReady(r: Receiver, m: Message)
    requires Good(r) && Sane(m)
    ensures Timely(r, m) <==> Ready(r, StreamOf(m), StampOf(m))
  {}

  /** All messages of one sender are accepted in turn, whatever others send in between, with time stamps checked exactly
      as long as its clock fits the 48 bits on the wire: once the greatest time stamp was accepted, none is newer. */
  lemma {:induction false} SenderIsAccepted(hash: Hash, r: Receiver, link: Byte, stamp: nat, id: StreamId,
                                            ms: seq<Message>, all: seq<Message>, at: seq<nat>, n: nat)
    requires Good(r) && AllSane(all) && SignedInTurn(hash, r.key, link, stamp, ms, all, at) && n < |ms|
    requires id.link == link && forall i :: 0 <= i < |ms| ==> ms[i].sysid == id.sysid && ms[i].compid == id.compid
    requires forall j :: at[0] < j < |all| && j !in at ==> Foreign(hash, r.key, id, all[j])
    requires Ready(Run(hash, r, all[..at[0]]), id, stamp) && stamp < STAMP_RANGE
    ensures Accepted(hash, r, all, at[n]) <==> !r.checks || stamp + n < STAMP_RANGE
    ensures Last(Run(hash, r, all[..at[n] + 1]), id) ==
            if !r.checks then (stamp + n) % STAMP_RANGE else if stamp + n < STAMP_RANGE then stamp + n
                else STAMP_RANGE - 1
  {
    hide Timely, Last, Remembered, Signed, Authentic, Next, Verdict, Foreign, Run;
    SignedIsAuthentic(hash, r.key, link, stamp + n, ms[n]);
    var mid := Run(hash, r, all[..at[n]]);
    if n > 0 {
      SenderIsAccepted(hash, r, link, stamp, id, ms, all, at, n - 1);
      forall j | at[n - 1] < j < at[n]
        ensures Foreign(hash, r.key, id, all[j])
      {
        Between(at, n, j);
      }
      Undisturbed(hash, r, all, at[n - 1] + 1, at[n], id);
    }
    TimelyIffReady(mid, all[at[n]]);
    VerdictParts(hash, mid, all[at[n]]);
    RunSnoc(hash, r, all, at[n]);
    StepOfStamps(hash, mid, all[at[n]], id);
  }

  lemma Between(at: seq<nat>, n: nat, j: nat)
    requires 0 < n < |at| && at[n - 1] < j < at[n] && forall i, k :: 0 <= i < k < |at| ==> at[i] < at[k]
    ensures j !in at && at[0] < j
  {
    forall i | 0 <= i < |at|
      ensures at[i] != j
    {
      assert i < n - 1 ==> at[i] < at[n - 1];
      assert i > n ==> at[n] < at[i];
    }
    assert n - 1 > 0 ==> at[0] < at[n - 1];
  }

  /** At that point the time stamp wraps: with time stamps checked, the message signed at 2^48 is refused on the stream
      its predecessor was accepted on. */
  lemma WrappedStampIsRefused(hash: Hash, r: Receiver, link: Byte, m: Message)
    requires Good(r) && Sane(m) && r.checks && Last(r, StreamId(m.sysid, m.compid, link)) >= 0
    ensures !Verdict(hash, r, Signed(hash, r.key, link, STAMP_RANGE, m))
  {
    SignedIsAuthentic(hash, r.key, link, STAMP_RANGE, m);
    TimelyIffReady(r, Signed(hash, r.key, link, STAMP_RANGE, m));
  }

  // ---- Signed messages over the wire ----

  /** The message the parser hands to the signature check on the last byte of a frame. */
  function CheckedMessage(rx: Rx, c: Byte): Message
    requires |rx.msg.signature| == SIGNATURE_LEN
  {
    rx.msg.(signature := rx.msg.signature[SIGNATURE_LEN - 1 := c])
  }

  /** What a signing sender transmits: the finalised message with its signature block. */
  function Transmitted(hash: Hash, key: seq<Byte>, link: Byte, stamp: nat, m: Message, s: Send, crcExtra: Byte): Message
    requires Sane(m)
  {
    var f := Finalized(m, s, crcExtra);
    m.(signature :=
        SignatureBlock(hash, key, link, stamp, [f.magic] + Header(f, false), f.payload[..f.len],
            [CkA(f.checksum), CkB(f.checksum)]))
  }

  lemma SignedBytes(hash: Hash, key: seq<Byte>, link: Byte, stamp: nat, m: Message, s: Send, crcExtra: Byte, r: Message)
    requires Sane(m) && Sane(r) && !s.v1 && SameBytes(crcExtra, r, m, s) && r.magic == STX_V2
    requires r.signature == Transmitted(hash, key, link, stamp, m, s, crcExtra).signature
    ensures r == Signed(hash, key, link, stamp, r)
  {
    hide Crc, CkA, CkB, FrameBody;
    var f := Finalized(m, s, crcExtra);
    var front := [link] + Bytes(stamp, STAMP_LEN);
    FinalizedBody(m, s, crcExtra);
    assert r.ck0 == CkA(f.checksum) && r.ck1 == CkB(f.checksum);
    var one := key + ([f.magic] + Header(f, false)) + f.payload[..f.len] + [r.ck0, r.ck1] + front;
    var two := key + ([r.magic] + Header(r, false)) + r.payload[..r.len] + [r.ck0, r.ck1] + front;
    assert one == key + [STX_V2] + Body(f, false) + [r.ck0, r.ck1] + front;
    assert two == key + [STX_V2] + Body(r, false) + [r.ck0, r.ck1] + front;
  }

  lemma FinalizedBody(m: Message, s: Send, crcExtra: Byte)
    requires Sane(m) && !s.v1
    ensures var f := Finalized(m, s, crcExtra);
            f.magic == STX_V2 && Body(f, false) == FrameBody(m, s) && f.checksum == Crc(FrameBody(m, s) + [crcExtra])
  {
    hide Crc, CkA, CkB;
    var f := Finalized(m, s, crcExtra);
    assert f.payload[..f.len] == m.payload[..f.len];
  }

  /** A signed frame arriving at an idle parser yields nothing before its last byte, and then OK with the message if
      the receiver holds the sender's key and is ready for this stream and time stamp; the check accepts it exactly
      when the receiver is ready. */
  lemma SignedFrameIsDelivered(hash: Hash, r: Receiver, e: Entries, p: Policy, rx: Rx, link: Byte, stamp: nat,
                               m0: Message, s: Send, crcExtra: Byte, vs: seq<bool>)
    requires SaneRx(rx) && Quiet(rx) && Good(r) && Sane(m0) && !s.v1 && s.signed
    requires Sendable(e, m0, s, crcExtra) && stamp < STAMP_RANGE
    requires |vs| + 1 == |Frame(Transmitted(hash, r.key, link, stamp, m0, s, crcExtra), s, crcExtra)|
    ensures var m := Transmitted(hash, r.key, link, stamp, m0, s, crcExtra);
            var frame := Frame(m, s, crcExtra);
            var (mid, framing) := Parsed(e, p, rx, frame[..|vs|], vs);
            && framing == INCOMPLETE && Sane(mid.msg)
            && var checked := CheckedMessage(mid, frame[|vs|]);
               var verdict := Verdict(hash, r, checked);
               && (verdict <==> Ready(r, StreamId(s.sysid, s.compid, link), stamp))
               && (verdict ==> var (rx', f) := ParseStep(e, p, mid, frame[|vs|], verdict);
                               f == OK && rx'.state == Idle && Delivers(e, rx'.msg, m, s) && rx'.msg == checked)
  {
    hide Parsed, Frame, Transmitted, Sendable, Delivers, Verdict, Ready, ParseStep, Timely, Authentic, Last;
    var m := Transmitted(hash, r.key, link, stamp, m0, s, crcExtra);
    TransmittedIsSendable(hash, r.key, link, stamp, e, m0, s, crcExtra);
    var frame := Frame(m, s, crcExtra);
    var n := |vs|;
    LastByte(e, p, rx, m, s, crcExtra, vs, true);
    var mid := Parsed(e, p, rx, frame[..n], vs).0;
    var checked := CheckedMessage(mid, frame[n]);
    DeliveredIsSigned(hash, r.key, link, stamp, e, m0, s, crcExtra, checked);
    SignedIsAuthentic(hash, r.key, link, stamp, checked);
    TimelyIffReady(r, checked);
    VerdictParts(hash, r, checked);
  }

  lemma DeliveredIsSigned(hash: Hash, key: seq<Byte>, link: Byte, stamp: nat, e: Entries, m0: Message, s: Send,
                          crcExtra: Byte, r: Message)
    requires Sane(m0) && Sane(r) && !s.v1 && Sendable(e, m0, s, crcExtra)
    requires var m := Transmitted(hash, key, link, stamp, m0, s, crcExtra);
             Delivers(e, r, m, s) && r.signature == m.signature
    ensures r == Signed(hash, key, link, stamp, r) && r.sysid == s.sysid && r.compid == s.compid
  {
    hide SameBytes, Signed, SignatureBlock;
    var m := Transmitted(hash, key, link, stamp, m0, s, crcExtra);
    assert SameBytes(crcExtra, r, m, s);
    assert SameBytes(crcExtra, r, m0, s) by { SignatureIsNotSent(crcExtra, r, m0, m.signature, s); }
    SignedBytes(hash, key, link, stamp, m0, s, crcExtra, r);
  }

  lemma SignatureIsNotSent(crcExtra: Byte, r: Message, m: Message, signature: seq<Byte>, s: Send)
    requires |r.payload| == |m.payload| == PAYLOAD_ROOM
    ensures SameBytes(crcExtra, r, m.(signature := signature), s) <==> SameBytes(crcExtra, r, m, s)
  {}

  /** Only the last signature byte completes a message that carries the signature flag. */
  lemma OkBySignature(e: Entries, p: Policy, rx: Rx, m: Message, s: Send, c: Byte, verdict: bool)
    requires SaneRx(rx) && ParseStep(e, p, rx, c, verdict).1 == OK
    requires Delivers(e, ParseStep(e, p, rx, c, verdict).0.msg, m, s) && !s.v1 && s.signed
    ensures rx.state == SignatureWait && ParseStep(e, p, rx, c, verdict).0.msg == CheckedMessage(rx, c)
  {
    hide CrcStep, SameBytes, CkA, CkB;
  }

  lemma VerdictParts(hash: Hash, r: Receiver, m: Message)
    requires Good(r) && Sane(m)
    ensures Verdict(hash, r, m) <==> Authentic(hash, r.key, m) && Timely(r, m)
  {}

  lemma TransmittedIsSendable(hash: Hash, key: seq<Byte>, link: Byte, stamp: nat, e: Entries, m0: Message, s: Send,
                              crcExtra: Byte)
    requires Sane(m0) && Sendable(e, m0, s, crcExtra)
    ensures Sendable(e, Transmitted(hash, key, link, stamp, m0, s, crcExtra), s, crcExtra)
    ensures Sane(Transmitted(hash, key, link, stamp, m0, s, crcExtra))
  {
    hide SignatureBlock;
  }

  /** The last byte of a signed frame, if the verdict is favourable. */
  lemma LastByte(e: Entries, p: Policy, rx: Rx, m: Message, s: Send, crcExtra: Byte, vs: seq<bool>, verdict: bool)
    requires SaneRx(rx) && Quiet(rx) && !s.v1 && s.signed && Sane(m) && Sendable(e, m, s, crcExtra) && verdict
    requires |vs| + 1 == |Frame(m, s, crcExtra)|
    ensures var frame, n := Frame(m, s, crcExtra), |vs|;
            var (mid, framing) := Parsed(e, p, rx, frame[..n], vs);
            && framing == INCOMPLETE && Sane(mid.msg)
            && var (rx', f) := ParseStep(e, p, mid, frame[n], verdict);
               f == OK && rx'.state == Idle && Delivers(e, rx'.msg, m, s) && rx'.msg == CheckedMessage(mid, frame[n])
               && rx'.msg.signature == m.signature
  {
    hide Parsed, Frame, Delivers, ParseStep, Sendable, Wire, Finalized;
    var frame, n := Frame(m, s, crcExtra), |vs|;
    FrameIsLong(m, s, crcExtra, e);
    assert frame[..n + 1] == frame;
    FrameIsDelivered(e, p, rx, m, s, crcExtra, n - 1, vs);
    FrameIsDelivered(e, p, rx, m, s, crcExtra, n, vs + [verdict]);
    var mid := Parsed(e, p, rx, frame[..n], vs).0;
    assert (vs + [verdict])[..n] == vs;
    ParsedSnoc(e, p, rx, frame[..n], frame[n], vs + [verdict]);
    assert frame[..n] + [frame[n]] == frame;
    OkBySignature(e, p, mid, m, s, frame[n], verdict);
  }

  lemma FrameIsLong(m: Message, s: Send, crcExtra: Byte, e: Entries)
    requires Sendable(e, m, s, crcExtra)
    ensures |Frame(m, s, crcExtra)| >= 2
  {
    hide Crc, CkA, CkB, FrameBody;
    WireIsFrame(m, s, crcExtra);
  }

  // ---- The code: tables updated in place ----

  class Signing {
    var signOutgoing: bool
    var noTimestamps: bool
    var linkId: Byte
    var timestamp: nat
    var secretKey: seq<Byte>

    constructor (signOutgoing: bool, noTimestamps: bool, linkId: Byte, timestamp: nat, secretKey: seq<Byte>)
      ensures this.signOutgoing == signOutgoing && this.noTimestamps == noTimestamps && this.linkId == linkId
      ensures this.timestamp == timestamp && this.secretKey == secretKey
    {
      this.signOutgoing, this.noTimestamps, this.linkId := signOutgoing, noTimestamps, linkId;
      this.timestamp, this.secretKey := timestamp, secretKey;
    }

    /** Signs a packet; the clock ticks (64 bits). Nothing happens unless outgoing messages are to be signed. */
    method SignPacket(hash: Hash, header: seq<Byte>, packet: seq<Byte>, crc: seq<Byte>) returns (block: seq<Byte>)
      modifies this`timestamp
      ensures block == if signOutgoing
              then SignatureBlock(hash, secretKey, linkId, old(timestamp), header, packet, crc) else []
      ensures timestamp == if signOutgoing then (old(timestamp) + 1) % 0x1_0000_0000_0000_0000 else old(timestamp)
    {
      if !signOutgoing {
        return [];
      }
      block := [linkId] + Bytes(timestamp, STAMP_LEN);
      timestamp := (timestamp + 1) % 0x1_0000_0000_0000_0000;
      block := block + hash(secretKey + header + packet + crc + block);
    }
  }

  class SigningStreams {
    var count: nat
    const stream: array<Stream>

    constructor ()
      ensures Valid() && count == 0
    {
      count := 0;
      stream := new Stream[MAX_SIGNING_STREAMS](_ => Stream(0, 0, 0, [0, 0, 0, 0, 0, 0]));
    }

    ghost predicate Valid()
      reads this, stream
    {
      stream.Length == MAX_SIGNING_STREAMS && count <= MAX_SIGNING_STREAMS
      && Good(Receiver([], false, 0, stream[..count]))
    }

    /** Search for a stream. */
    method Position(id: StreamId) returns (i: nat)
      requires Valid()
      ensures i == Find(stream[..count], id)
    {
      i := 0;
      while i < count && IdOf(stream[i]) != id
        invariant i <= count
        invariant forall j :: 0 <= j < i ==> IdOf(stream[j]) != id
      {
        i := i + 1;
      }
    }
  }

  /** The receiver a signing record and a stream table stand for. */
  ghost function View(signing: Signing, streams: SigningStreams): Receiver
    reads signing, streams, streams.stream
    requires streams.Valid()
  {
    Receiver(signing.secretKey, !signing.noTimestamps, signing.timestamp, streams.stream[..streams.count])
  }

  /** The signature check. */
  method SignatureCheck(hash: Hash, signing: Signing?, streams: SigningStreams?, m: Message) returns (ok: bool)
    requires Sane(m) && (streams != null ==> streams.Valid())
    modifies signing, streams, if streams == null then null else streams.stream
    ensures signing == null ==> ok
    ensures signing != null && streams == null ==> !ok
    ensures streams != null ==> streams.Valid()
    ensures signing == null && streams != null ==>
              streams.count == old(streams.count) && streams.stream[..] == old(streams.stream[..])
    ensures signing != null && streams == null ==> signing.timestamp == old(signing.timestamp)
    ensures signing != null ==>
              && signing.secretKey == old(signing.secretKey) && signing.noTimestamps == old(signing.noTimestamps)
              && signing.linkId == old(signing.linkId) && signing.signOutgoing == old(signing.signOutgoing)
    ensures signing != null && streams != null ==> (ok == old(Verdict(hash, View(signing, streams), m))
                                                    && View(signing, streams) ==
                                                       old(Next(hash, View(signing, streams), m)))
  {
    if signing == null {
      return true;
    }
    if hash(HashInput(signing.secretKey, m)) != m.signature[7..] {
      return false;
    }
    if streams == null {
      return false;
    }
    var i := streams.Position(StreamOf(m));
    ok := MayAccept(signing, streams, m, i);
    if ok {
      RememberedIsGood(View(signing, streams), m);
      Remember(signing, streams, m, i);
    }
  }

  method MayAccept(signing: Signing, streams: SigningStreams, m: Message, i: nat) returns (ok: bool)
    requires Sane(m) && streams.Valid() && i == Find(streams.stream[..streams.count], StreamOf(m))
    ensures ok == Timely(View(signing, streams), m)
  {
    var stamp := Value(m.signature[1..7]);
    if i == streams.count {
      if streams.count >= MAX_SIGNING_STREAMS {
        return false;
      }
      ok := signing.noTimestamps || !(stamp + NEW_STREAM_WINDOW < signing.timestamp);
    } else {
      ok := signing.noTimestamps || !(stamp <= Value(streams.stream[i].stamp));
    }
  }

  /** Stores the accepted message's stream and time stamp, and advances the clock. */
  method Remember(signing: Signing, streams: SigningStreams, m: Message, i: nat)
    requires Sane(m) && streams.Valid() && i == Find(streams.stream[..streams.count], StreamOf(m))
             && i < MAX_SIGNING_STREAMS
    requires Good(Remembered(View(signing, streams), m))
    modifies signing`timestamp, streams`count, streams.stream
    ensures streams.Valid() && View(signing, streams) == old(Remembered(View(signing, streams), m))
  {
    ghost var before := streams.stream[..streams.count];
    if i == streams.count {
      streams.stream[i] := Stream(m.sysid, m.compid, m.signature[0], streams.stream[i].stamp);
      streams.count := streams.count + 1;
    }
    streams.stream[i] := streams.stream[i].(stamp := m.signature[1..7]);
    if StampOf(m) > signing.timestamp {
      signing.timestamp := StampOf(m);
    }
    ghost var s := Stream(m.sysid, m.compid, m.signature[0], m.signature[1..7]);
    assert streams.stream[..streams.count] == if i == |before| then before + [s] else before[i := s];
  }
}
