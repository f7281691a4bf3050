/**
 What an encoder puts on the wire is what the parser delivers: finalising and serialising messages of
 both versions, and parsing any stream of them with noise in between.
 */
module MavRoundTrip {
  import opened MavFrame
  import Checksum
  import ByteBits

  // ---- Encoder ----

  /** The length without trailing zero bytes, but at least one byte of a non-empty payload. */
  function TrimmedLength(p: seq<Byte>, n: nat): (r: nat)
    requires n <= |p|
    ensures r <= n && (n >= 1 ==> r >= 1)
  {
    if n > 1 && p[n - 1] == 0 then TrimmedLength(p, n - 1) else n
  }

  lemma {:induction false} TrimmedTailIsZero(p: seq<Byte>, n: nat)
    requires n <= |p|
    ensures forall i :: TrimmedLength(p, n) <= i < n ==> p[i] == 0
    ensures TrimmedLength(p, n) > 1 ==> p[TrimmedLength(p, n) - 1] != 0
    ensures TrimmedLength(p, TrimmedLength(p, n)) == TrimmedLength(p, n)
  {
    if n > 1 && p[n - 1] == 0 { TrimmedTailIsZero(p, n - 1); }
  }

  /** What the sender supplies: version, addresses, sequence number, lengths; id and payload are in the message. */
  datatype Send = Send(v1: bool, sysid: Byte, compid: Byte, txSeq: Byte, minLength: Byte, length: Byte, signed: bool)

  /** Only version 2 frames carry the signature flag. */
  function Flags(s: Send): Byte { if s.signed && !s.v1 then 1 else 0 }

  function SentLength(m: Message, s: Send): Byte
    requires |m.payload| == PAYLOAD_ROOM
  {
    if s.v1 then s.minLength else TrimmedLength(m.payload, s.length)
  }

  /** `mavlink_finalize_message_buffer` up to the signature block, which depends on the result. */
  function Finalized(m: Message, s: Send, crcExtra: Byte): Message
    requires |m.payload| == PAYLOAD_ROOM
  {
    var m1 := m.(magic := if s.v1 then STX_V1 else STX_V2, len := SentLength(m, s), sysid := s.sysid,
        compid := s.compid,
                 incompat := Flags(s), compat := 0, seq_ := s.txSeq);
    var crc := Crc(Body(m1, s.v1) + [crcExtra]);
    m1.(checksum := crc, payload := m.payload[m1.len := CkA(crc)][m1.len + 1 := CkB(crc)])
  }

  /** `mavlink_msg_to_send_buffer`. */
  function Wire(m: Message): seq<Byte>
    requires |m.payload| == PAYLOAD_ROOM
  {
    var ck := [CkA(m.checksum), CkB(m.checksum)];
    if m.magic == STX_V1 then [m.magic] + Body(m, true) + ck
    else [m.magic] + Body(m.(len := TrimmedLength(m.payload, m.len)), false) + ck + if m.incompat % 2 == 1
        then m.signature else []
  }

  /** The frame of a message: marker, header, payload as sent, checksum. */
  function FrameBody(m: Message, s: Send): seq<Byte>
    requires |m.payload| == PAYLOAD_ROOM
  {
    var id := m.msgid;
    var len := SentLength(m, s);
    (if s.v1 then [len, s.txSeq, s.sysid, s.compid, id % 256]
     else [len, Flags(s), 0, s.txSeq, s.sysid, s.compid, id % 256, id / 0x100 % 256, id / 0x1_0000 % 256])
         + m.payload[..len]
  }

  lemma TrimDepends(p: seq<Byte>, q: seq<Byte>, n: nat)
    requires n <= |p| && n <= |q| && p[..n] == q[..n]
    ensures TrimmedLength(p, n) == TrimmedLength(q, n)
  {
    if n > 1 && p[n - 1] == 0 {
      assert p[n - 1] == p[..n][n - 1] == q[..n][n - 1];
      assert p[..n - 1] == p[..n][..n - 1] == q[..n][..n - 1] == q[..n - 1];
      TrimDepends(p, q, n - 1);
    } else if n > 1 {
      assert p[n - 1] == p[..n][n - 1] == q[..n][n - 1] == q[n - 1];
    }
  }

  /** Serialising a finalised message sends the frame of the message: the second trimming changes nothing. */
  lemma WireIsFrame(m: Message, s: Send, crcExtra: Byte)
    requires |m.payload| == PAYLOAD_ROOM
    ensures var crc := Crc(FrameBody(m, s) + [crcExtra]);
            Wire(Finalized(m, s, crcExtra)) ==
            [if s.v1 then STX_V1 else STX_V2] + FrameBody(m, s) + [CkA(crc), CkB(crc)]
                + (if Flags(s) == 1 then m.signature else [])
  {
    hide Crc, CkA, CkB, TrimmedLength;
    var f := Finalized(m, s, crcExtra);
    var n := SentLength(m, s);
    assert f.payload[..n] == m.payload[..n];
    if !s.v1 {
      TrimmedTailIsZero(m.payload, s.length);
      TrimDepends(f.payload, m.payload, n);
    }
  }

  // ---- Parsing a run of bytes ----

  lemma {:induction false} ParsedConcat(e: Entries, p: Policy, rx: Rx, a: seq<Byte>, va: seq<bool>, b: seq<Byte>,
                                        vb: seq<bool>)
    requires SaneRx(rx) && |va| == |a| && |vb| == |b|
    ensures Parsed(e, p, rx, a + b, va + vb).0 == Parsed(e, p, Parsed(e, p, rx, a, va).0, b, vb).0
    ensures b != [] ==> Parsed(e, p, rx, a + b, va + vb).1 == Parsed(e, p, Parsed(e, p, rx, a, va).0, b, vb).1
  {
    hide ParseStep;
    if b == [] {
      assert a + b == a && va + vb == va;
    } else {
      var k := |b| - 1;
      assert (a + b)[..|a + b| - 1] == a + b[..k] && (va + vb)[..|a + b| - 1] == va + vb[..k];
      ParsedConcat(e, p, rx, a, va, b[..k], vb[..k]);
    }
  }

  /** The state that belongs to a number of bytes after the marker. */
  function StateAt(v1: bool, n: nat, len: Byte): ParseState {
    if n == 0 then GotStx
    else if n >= HeaderLen(v1) then (if n < HeaderLen(v1) + len then GotMsgid3 else GotPayload)
    else if v1 then [GotCompat, GotSeq, GotSysid, GotCompid][n - 1]
    else [GotLength, GotIncompat, GotCompat, GotSeq, GotSysid, GotCompid, GotMsgid1, GotMsgid2][n - 1]
  }

  lemma TrackedIsSane(e: Entries, rx: Rx, hist: seq<Byte>)
    requires Tracks(e, rx, hist)
    ensures SaneRx(rx)
  {}

  lemma TrackedLen(e: Entries, rx: Rx, hist: seq<Byte>)
    requires Tracks(e, rx, hist) && hist != [] && (InHeader(rx.state) || rx.state == GotMsgid3)
    ensures hist[0] == rx.msg.len
  {
    hide Crc, CkA, CkB;
  }

  lemma AdvanceHeader(e: Entries, p: Policy, rx: Rx, hist: seq<Byte>, c: Byte, verdict: bool, len: Byte)
    requires Tracks(e, rx, hist) && rx.state == StateAt(rx.v1, |hist|, len) && |hist| < HeaderLen(rx.v1)
    requires if hist == [] then c == len else rx.msg.len == len
    requires rx.state == GotLength ==> c < 2
    ensures var (rx', framing) := ParseStep(e, p, rx, c, verdict);
            framing == INCOMPLETE && rx'.v1 == rx.v1 && rx'.state == StateAt(rx.v1, |hist| + 1, len)
  {
    hide CrcStep, Crc, CkA, CkB, Tracks;
  }

  lemma AdvancePayload(e: Entries, p: Policy, rx: Rx, hist: seq<Byte>, c: Byte, verdict: bool, len: Byte)
    requires Tracks(e, rx, hist) && rx.state == GotMsgid3 && rx.msg.len == len
    requires HeaderLen(rx.v1) <= |hist| < HeaderLen(rx.v1) + len
    ensures var (rx', framing) := ParseStep(e, p, rx, c, verdict);
            framing == INCOMPLETE && rx'.v1 == rx.v1 && rx'.state == StateAt(rx.v1, |hist| + 1, len)
  {
    hide CrcStep, Crc, CkA, CkB;
    assert |hist| == HeaderLen(rx.v1) + rx.idx;
  }

  /** The start marker stays recorded, and a version 1 frame has its compatibility flags cleared. */
  ghost predicate Marked(rx: Rx, v1: bool, k: nat) {
    rx.msg.magic == (if v1 then STX_V1 else STX_V2) && (v1 && k > 0 ==> rx.msg.compat == 0)
  }

  lemma StaysMarked(e: Entries, p: Policy, rx: Rx, v1: bool, k: nat, len: Byte, c: Byte, verdict: bool)
    requires SaneRx(rx) && rx.v1 == v1 && Marked(rx, v1, k) && rx.state == StateAt(v1, k, len)
             && k < HeaderLen(v1) + len
    ensures Marked(ParseStep(e, p, rx, c, verdict).0, v1, k + 1)
  {
    hide CrcStep;
  }

  /** One more byte of a frame's body. */
  lemma BodyAdvance(e: Entries, p: Policy, rx: Rx, body: seq<Byte>, v1: bool, k: nat, verdict: bool)
    requires body != [] && |body| == HeaderLen(v1) + body[0] && k < |body| && (!v1 ==> body[1] < 2)
    requires Tracks(e, rx, body[..k]) && rx.v1 == v1 && rx.state == StateAt(v1, k, body[0]) && Marked(rx, v1, k)
    ensures var (rx', framing) := ParseStep(e, p, rx, body[k], verdict);
            framing == INCOMPLETE && rx'.v1 == v1 && rx'.state == StateAt(v1, k + 1, body[0])
            && Tracks(e, rx', body[..k + 1])
            && Marked(rx', v1, k + 1)
  {
    hide ParseStep, Tracks, CrcStep, Crc, Marked;
    assert SaneRx(rx) by { assert Tracks(e, rx, body[..k]); TrackedIsSane(e, rx, body[..k]); }
    StaysMarked(e, p, rx, v1, k, body[0], body[k], verdict);
    ParseStepSound(e, p, rx, body[..k], body[k], verdict);
    if k > 0 { TrackedLen(e, rx, body[..k]); }
    if k < HeaderLen(v1) {
      AdvanceHeader(e, p, rx, body[..k], body[k], verdict, body[0]);
    } else {
      AdvancePayload(e, p, rx, body[..k], body[k], verdict, body[0]);
    }
    assert body[..k + 1] == body[..k] + [body[k]];
  }

  /** A body whose first byte announces the payload length and whose flags are understood is read up to its last
      byte without a result. */
  lemma {:induction false} BodyRead(e: Entries, p: Policy, rx: Rx, body: seq<Byte>, v1: bool, k: nat, vs: seq<bool>)
    requires SaneRx(rx) && Quiet(rx) && body != [] && |body| == HeaderLen(v1) + body[0] && k <= |body| && |vs| == k + 1
    requires !v1 ==> body[1] < 2
    ensures var (rx', framing) := Parsed(e, p, rx, [if v1 then STX_V1 else STX_V2] + body[..k], vs);
            framing == INCOMPLETE && rx'.v1 == v1 && rx'.state == StateAt(v1, k, body[0]) && Tracks(e, rx', body[..k])
            && Marked(rx', v1, k)
  {
    hide ParseStep, Tracks, StateAt, Marked;
    var stx := if v1 then STX_V1 else STX_V2;
    if k == 0 {
      assert [stx] + body[..0] == [stx];
      StartRead(e, p, rx, v1, vs);
      StateAtStart(v1, body[0]);
    } else {
      var bytes := [stx] + body[..k];
      assert bytes[..k] == [stx] + body[..k - 1] && bytes[k] == body[k - 1];
      BodyRead(e, p, rx, body, v1, k - 1, vs[..k]);
      BodyAdvance(e, p, Parsed(e, p, rx, [stx] + body[..k - 1], vs[..k]).0, body, v1, k - 1, vs[k]);
    }
  }

  lemma StartRead(e: Entries, p: Policy, rx: Rx, v1: bool, vs: seq<bool>)
    requires SaneRx(rx) && Quiet(rx) && |vs| == 1
    ensures var (rx', framing) := Parsed(e, p, rx, [if v1 then STX_V1 else STX_V2], vs);
            framing == INCOMPLETE && rx'.v1 == v1 && rx'.state == StateAt(v1, 0, 0) == GotStx && Tracks(e, rx', [])
            && Marked(rx', v1, 0)
  {
    var stx := if v1 then STX_V1 else STX_V2;
    assert [stx][..0] == [];
    assert Parsed(e, p, rx, [stx][..0], vs[..0]).0 == rx;
    CrcOfNothing(rx);
  }

  lemma StateAtStart(v1: bool, len: Byte)
    ensures StateAt(v1, 0, len) == GotStx && StateAt(v1, HeaderLen(v1) + len, len) == GotPayload
  {}

  /** A signed message passes if the signature check says so, an unsigned one if none is asked for; the application
      may let either pass. */
  predicate Accepts(p: Policy, s: Send, msgid: nat, verdict: bool) { Permitted(p, Flags(s) == 1, msgid, verdict) }

  /** The delivered message carries the sender's fields, and its payload is the sent one up to the length of the
      type, zeros standing for what was not sent. */
  ghost predicate Delivers(entries: Entries, r: Message, m: Message, s: Send) {
    && r.magic == (if s.v1 then STX_V1 else STX_V2)
    && r.seq_ == s.txSeq && r.sysid == s.sysid && r.compid == s.compid && r.msgid == m.msgid && r.incompat == Flags(s)
    && r.compat == 0
    && |r.payload| == |m.payload| == PAYLOAD_ROOM && m.msgid in entries
    && (forall i :: 0 <= i < entries[m.msgid].msgLen ==>
          r.payload[i] == if i < (if s.v1 then s.minLength else s.length) then m.payload[i] else 0)
    && SameBytes(entries[m.msgid].crcExtra, r, m, s)
  }

  /** The delivered message still holds every byte that was sent up to the checksum. */
  ghost predicate SameBytes(crcExtra: Byte, r: Message, m: Message, s: Send)
    requires |r.payload| == |m.payload| == PAYLOAD_ROOM
  {
    Body(r, s.v1) == FrameBody(m, s)
    && var crc := Crc(FrameBody(m, s) + [crcExtra]); r.ck0 == CkA(crc) && r.ck1 == CkB(crc)
  }

  /** A message the encoder can send: the id is known to the receiver with the sender's extra checksum byte, and
      fits the version's id field. */
  ghost predicate Sendable(entries: Entries, m: Message, s: Send, crcExtra: Byte) {
    |m.payload| == PAYLOAD_ROOM && m.msgid in entries && entries[m.msgid].crcExtra == crcExtra
    && m.msgid < (if s.v1 then 0x100 else 0x100_0000) && |m.signature| == SIGNATURE_LEN
  }

  lemma SameBody(e: Entries, rx: Rx, m: Message, s: Send)
    requires |m.payload| == PAYLOAD_ROOM && m.msgid < (if s.v1 then 0x100 else 0x100_0000)
    requires Tracks(e, rx, FrameBody(m, s)) && rx.state == GotPayload && rx.v1 == s.v1
    ensures var r := rx.msg;
            r.len == SentLength(m, s) == rx.idx && r.seq_ == s.txSeq && r.sysid == s.sysid && r.compid == s.compid
            && r.msgid == m.msgid
            && r.incompat == Flags(s) && (!s.v1 ==> r.compat == 0) && r.payload[..r.len] == m.payload[..r.len]
  {
    hide Crc, CkA, CkB;
    var body, r, n := FrameBody(m, s), rx.msg, HeaderLen(s.v1);
    assert body == Header(r, s.v1) + r.payload[..r.len];
    assert body[0] == r.len && body[n..] == r.payload[..r.len] == m.payload[..SentLength(m, s)];
    SameIds(r.msgid, m.msgid, body, s.v1);
    if s.v1 {
      assert body[1] == r.seq_ && body[2] == r.sysid && body[3] == r.compid;
    } else {
      assert body[1] == r.incompat && body[2] == r.compat && body[3] == r.seq_ && body[4] == r.sysid
          && body[5] == r.compid;
    }
  }

  lemma SameIds(a: nat, b: nat, body: seq<Byte>, v1: bool)
    requires if v1 then a < 0x100 && b < 0x100 && |body| >= 5 && body[4] == a % 256 == b % 256
             else a < 0x100_0000 && b < 0x100_0000 && |body| >= 9 && body[6] == a % 256 == b % 256
                  && body[7] == a / 0x100 % 256 == b / 0x100 % 256
                  && body[8] == a / 0x1_0000 % 256 == b / 0x1_0000 % 256
    ensures a == b
  {
    IdFromBytes(a);
    IdFromBytes(b);
  }

  lemma IdFromBytes(a: nat)
    requires a < 0x100_0000
    ensures a == a % 256 + 0x100 * (a / 0x100 % 256) + 0x1_0000 * (a / 0x1_0000 % 256)
  {}

  /** The two checksum bytes after a body in progress: without the signature flag they complete the message, which is
      delivered exactly if it passes, with it the parser waits for the signature. */
  lemma ChecksumRead(e: Entries, p: Policy, rx: Rx, m: Message, s: Send, crcExtra: Byte, v0: bool, v1: bool)
    requires Sendable(e, m, s, crcExtra)
    requires Tracks(e, rx, FrameBody(m, s)) && rx.state == GotPayload && rx.v1 == s.v1 && Marked(rx, s.v1, 1)
    ensures var crc := Crc(FrameBody(m, s) + [crcExtra]);
            var (rx1, f1) := ParseStep(e, p, rx, CkA(crc), v0);
            var (rx2, f2) := ParseStep(e, p, rx1, CkB(crc), v1);
            && f1 == INCOMPLETE && rx2.v1 == rx.v1
            && (if Flags(s) == 1 then
                  f2 == INCOMPLETE && rx2.state == SignatureWait && rx2.sigWait == SIGNATURE_LEN
                  && Delivers(e, rx2.msg, m, s)
                else if Accepts(p, s, m.msgid, v1) then f2 == OK && rx2.state == Idle && Delivers(e, rx2.msg, m, s)
                else f2 == INCOMPLETE && rx2.state == AfterRefusal(CkB(crc)))
  {
    hide CrcStep, Crc, CkA, CkB, FrameBody, ZeroFilled, Body, Header;
    SameBody(e, rx, m, s);
    ChecksumKeepsBody(e, rx, FrameBody(m, s), CkA(Crc(FrameBody(m, s) + [crcExtra])));
    TrackedSum(e, rx, FrameBody(m, s));
    CrcSnoc(FrameBody(m, s), crcExtra);
    SameIdBytes(rx.msg.msgid, m.msgid);
    ReceivedPayload(e, rx.msg.payload, m, s);
  }

  lemma ChecksumKeepsBody(e: Entries, rx: Rx, body: seq<Byte>, c: Byte)
    requires Tracks(e, rx, body) && rx.state == GotPayload
    ensures var m := OnCrcLow(e, rx, c).msg; forall b :: Body(m.(ck1 := b), rx.v1) == body
  {
    hide Crc, CkA, CkB, CrcStep;
    var m := OnCrcLow(e, rx, c).msg;
    assert m.payload[..rx.idx] == rx.msg.payload[..rx.idx];
    forall b
      ensures Body(m.(ck1 := b), rx.v1) == body
    {
      assert Header(m.(ck1 := b), rx.v1) == Header(rx.msg, rx.v1);
    }
  }

  lemma SameIdBytes(a: nat, b: nat)
    ensures a == b ==> a % 256 == b % 256
  {}

  lemma TrackedSum(e: Entries, rx: Rx, hist: seq<Byte>)
    requires Tracks(e, rx, hist) && rx.state == GotPayload
    ensures rx.msg.checksum == Crc(hist) && SaneRx(rx)
  {}

  lemma ReceivedPayload(e: Entries, q: seq<Byte>, m: Message, s: Send)
    requires |m.payload| == PAYLOAD_ROOM == |q| && m.msgid in e
    requires q[..SentLength(m, s)] == m.payload[..SentLength(m, s)]
    ensures var r := ZeroFilled(q, SentLength(m, s), e[m.msgid].msgLen);
            forall i :: 0 <= i < e[m.msgid].msgLen ==>
                r[i] == if i < (if s.v1 then s.minLength else s.length) then m.payload[i] else 0
  {
    var n, r := SentLength(m, s), ZeroFilled(q, SentLength(m, s), e[m.msgid].msgLen);
    TrimmedTailIsZero(m.payload, s.length);
    forall i | 0 <= i < e[m.msgid].msgLen
      ensures r[i] == if i < (if s.v1 then s.minLength else s.length) then m.payload[i] else 0
    {
      if i < n { assert r[i] == q[i] == q[..n][i] == m.payload[..n][i] == m.payload[i]; }
    }
  }

  /** The frame of a message on the wire. */
  function Frame(m: Message, s: Send, crcExtra: Byte): seq<Byte>
    requires |m.payload| == PAYLOAD_ROOM
  {
    Wire(Finalized(m, s, crcExtra))
  }

  lemma ParsedSnoc(e: Entries, p: Policy, rx: Rx, bytes: seq<Byte>, c: Byte, vs: seq<bool>)
    requires SaneRx(rx) && |vs| == |bytes| + 1
    ensures Parsed(e, p, rx, bytes + [c], vs) ==
              ParseStep(e, p, Parsed(e, p, rx, bytes, vs[..|bytes|]).0, c, vs[|bytes|])
  {
    hide ParseStep;
    assert (bytes + [c])[..|bytes|] == bytes;
  }

  /** A frame up to its checksum. */
  lemma FrontRead(e: Entries, p: Policy, rx: Rx, m: Message, s: Send, vs: seq<bool>)
    requires SaneRx(rx) && Quiet(rx) && |m.payload| == PAYLOAD_ROOM && |vs| == |FrameBody(m, s)| + 1
    ensures var (rx', framing) := Parsed(e, p, rx, [if s.v1 then STX_V1 else STX_V2] + FrameBody(m, s), vs);
            framing == INCOMPLETE && Tracks(e, rx', FrameBody(m, s)) && rx'.state == GotPayload && rx'.v1 == s.v1
                && Marked(rx', s.v1, 1)
  {
    hide ParseStep, Tracks, Crc, StateAt, Parsed, FrameBody, SaneRx;
    var body := FrameBody(m, s);
    BodyShape(m, s);
    assert body[..|body|] == body;
    BodyRead(e, p, rx, body, s.v1, |body|, vs);
    StateAtStart(s.v1, body[0]);
  }

  /** The results of the two checksum bytes of a frame. */
  lemma TailRead(e: Entries, p: Policy, rx: Rx, m: Message, s: Send, crcExtra: Byte, front: seq<Byte>, a: Byte,
                 b: Byte, vs: seq<bool>)
    requires SaneRx(rx) && Quiet(rx) && Sendable(e, m, s, crcExtra)
    requires front == [if s.v1 then STX_V1 else STX_V2] + FrameBody(m, s) && |vs| == |front| + 2
    requires var crc := Crc(FrameBody(m, s) + [crcExtra]); a == CkA(crc) && b == CkB(crc)
    ensures Parsed(e, p, rx, front + [a], vs[..|front| + 1]).1 == INCOMPLETE
    ensures var (rx', framing) := Parsed(e, p, rx, front + [a] + [b], vs);
            rx'.v1 == s.v1
            && if Flags(s) == 1 then
                 framing == INCOMPLETE && rx'.state == SignatureWait && rx'.sigWait == SIGNATURE_LEN
                 && Delivers(e, rx'.msg, m, s)
               else if Accepts(p, s, m.msgid, vs[|front| + 1]) then
                 framing == OK && rx'.state == Idle && Delivers(e, rx'.msg, m, s)
               else framing == INCOMPLETE && rx'.state == AfterRefusal(b)
  {
    hide ParseStep, Tracks, Crc, CkA, CkB, Delivers, Parsed, FrameBody, Accepts, SaneRx, Marked, Flags;
    var n := |front|;
    FrontRead(e, p, rx, m, s, vs[..n]);
    ChecksumRead(e, p, Parsed(e, p, rx, front, vs[..n]).0, m, s, crcExtra, vs[n], vs[n + 1]);
    assert vs[..n + 1][..n] == vs[..n];
    ParsedSnoc(e, p, rx, front, a, vs[..n + 1]);
    ParsedSnoc(e, p, rx, front + [a], b, vs);
  }

  /** No byte before the second checksum byte yields a result. */
  lemma UpToChecksum(e: Entries, p: Policy, rx: Rx, m: Message, s: Send, crcExtra: Byte, k: nat, vs: seq<bool>)
    requires SaneRx(rx) && Quiet(rx) && Sendable(e, m, s, crcExtra)
    requires k < |FrameBody(m, s)| + 2 && |vs| == k + 1 && k < |Frame(m, s, crcExtra)|
    ensures Parsed(e, p, rx, Frame(m, s, crcExtra)[..k + 1], vs).1 == INCOMPLETE
  {
    hide Tracks, Crc, CkA, CkB, Wire, Finalized, StateAt, Delivers, Parsed, FrameBody, Accepts, SaneRx, Flags;
    var body, crc, frame := FrameBody(m, s), Crc(FrameBody(m, s) + [crcExtra]), Frame(m, s, crcExtra);
    WireIsFrame(m, s, crcExtra);
    BodyShape(m, s);
    var front := [if s.v1 then STX_V1 else STX_V2] + body;
    if k < |front| {
      assert frame[..k + 1] == [if s.v1 then STX_V1 else STX_V2] + body[..k];
      BodyRead(e, p, rx, body, s.v1, k, vs);
    } else {
      assert frame[..k + 1] == front + [CkA(crc)] && (vs + [false])[..k + 1] == vs;
      TailRead(e, p, rx, m, s, crcExtra, front, CkA(crc), CkB(crc), vs + [false]);
    }
  }

  /** Fed to an idle parser, a frame yields nothing until its last byte, which yields OK and the message exactly if the
      message passes; if not, the parser is idle again, or has taken that byte for a start marker. */
  lemma FrameIsDelivered(e: Entries, p: Policy, rx: Rx, m: Message, s: Send, crcExtra: Byte, k: nat, vs: seq<bool>)
    requires SaneRx(rx) && Quiet(rx) && Sendable(e, m, s, crcExtra)
    requires k < |Frame(m, s, crcExtra)| && |vs| == k + 1
    ensures var (rx', framing) := Parsed(e, p, rx, Frame(m, s, crcExtra)[..k + 1], vs);
            if k + 1 < |Frame(m, s, crcExtra)| then framing == INCOMPLETE
            else if Accepts(p, s, m.msgid, vs[k]) then
              framing == OK && rx'.state == Idle && Delivers(e, rx'.msg, m, s)
              && (Flags(s) == 1 ==> rx'.msg.signature == m.signature)
            else framing == INCOMPLETE && rx'.state == AfterRefusal(Frame(m, s, crcExtra)[k])
  {
    hide Tracks, Crc, CkA, CkB, Wire, Finalized, StateAt, Delivers, Parsed, FrameBody, SaneRx, Flags, Accepts;
    WireIsFrame(m, s, crcExtra);
    var front := [if s.v1 then STX_V1 else STX_V2] + FrameBody(m, s);
    var crc, frame, n := Crc(FrameBody(m, s) + [crcExtra]), Frame(m, s, crcExtra), |front| + 2;
    FlagValues(s);
    if k + 1 < n {
      UpToChecksum(e, p, rx, m, s, crcExtra, k, vs);
    } else {
      assert frame[..n] == front + [CkA(crc)] + [CkB(crc)];
      TailRead(e, p, rx, m, s, crcExtra, front, CkA(crc), CkB(crc), vs[..n]);
      if k + 1 == n {
        assert vs[..n] == vs;
      } else {
        assert frame[..k + 1] == frame[..n] + m.signature[..k + 1 - n] && vs == vs[..n] + vs[n..];
        ParsedConcat(e, p, rx, frame[..n], vs[..n], m.signature[..k + 1 - n], vs[n..]);
        SignatureRead(e, p, Parsed(e, p, rx, frame[..n], vs[..n]).0, m, s, k + 1 - n, vs[n..]);
      }
    }
  }

  lemma FlagValues(s: Send)
    ensures Flags(s) == 0 || Flags(s) == 1
  {}

  /** The signature bytes are stored one by one; the last one asks for the verdict. */
  lemma {:induction false} SignatureRead(e: Entries, p: Policy, rx: Rx, m: Message, s: Send, k: nat, vs: seq<bool>)
    requires SaneRx(rx) && rx.state == SignatureWait && rx.sigWait == SIGNATURE_LEN && Delivers(e, rx.msg, m, s)
    requires 1 <= k <= SIGNATURE_LEN == |m.signature| && |vs| == k
    requires Flags(s) == 1
    ensures var (rx', framing) := Parsed(e, p, rx, m.signature[..k], vs);
            if k == SIGNATURE_LEN && !Accepts(p, s, m.msgid, vs[k - 1]) then
              framing == INCOMPLETE && rx'.state == AfterRefusal(m.signature[k - 1])
            else
              && rx'.msg == rx.msg.(signature := m.signature[..k] + rx.msg.signature[k..])
              && Delivers(e, rx'.msg, m, s)
              && if k < SIGNATURE_LEN
                 then framing == INCOMPLETE && rx'.state == SignatureWait && rx'.sigWait == SIGNATURE_LEN - k
                 else framing == OK && rx'.state == Idle && rx'.msg.signature == m.signature
  {
    hide ParseStep, Delivers, SaneRx, Accepts;
    SignatureSize(rx);
    assert m.signature[..k][..k - 1] == m.signature[..k - 1];
    if k == 1 {
      assert m.signature[..0] + rx.msg.signature[0..] == rx.msg.signature;
      assert Parsed(e, p, rx, m.signature[..0], vs[..0]).0 == rx;
    } else {
      SignatureRead(e, p, rx, m, s, k - 1, vs[..k - 1]);
    }
    var mid := Parsed(e, p, rx, m.signature[..k - 1], vs[..k - 1]).0;
    Stored(m.signature, rx.msg.signature, k - 1);
    SignatureByte(e, p, mid, m.signature[k - 1], vs[k - 1]);
    SignatureKeepsDelivery(e, rx.msg, m.signature[..k] + rx.msg.signature[k..], m, s);
    Overrides(p, s, m.msgid, vs[k - 1]);
  }

  lemma Stored(sent: seq<Byte>, kept: seq<Byte>, i: nat)
    requires i < |sent| == |kept|
    ensures (sent[..i] + kept[i..])[i := sent[i]] == sent[..i + 1] + kept[i + 1..]
  {}

  lemma SignatureSize(rx: Rx)
    requires SaneRx(rx)
    ensures |rx.msg.signature| == SIGNATURE_LEN
  {}

  lemma Overrides(p: Policy, s: Send, msgid: nat, verdict: bool)
    requires Flags(s) == 1
    ensures Accepts(p, s, msgid, verdict) <==> verdict || p.acceptUnsigned(msgid)
  {}

  lemma SignatureByte(e: Entries, p: Policy, rx: Rx, c: Byte, verdict: bool)
    requires SaneRx(rx) && rx.state == SignatureWait
    ensures var m := rx.msg.(signature := rx.msg.signature[SIGNATURE_LEN - rx.sigWait := c]);
            if rx.sigWait > 1
                then ParseStep(e, p, rx, c, verdict) == (rx.(sigWait := rx.sigWait - 1, msg := m), INCOMPLETE)
            else if verdict || p.acceptUnsigned(m.msgid)
            then ParseStep(e, p, rx, c, verdict) == (rx.(sigWait := 0, state := Idle, msg := m), OK)
            else ParseStep(e, p, rx, c, verdict).1 == INCOMPLETE
                 && ParseStep(e, p, rx, c, verdict).0.state == AfterRefusal(c)
  {
    hide CrcStep;
  }

  lemma SignatureKeepsDelivery(e: Entries, r: Message, signature: seq<Byte>, m: Message, s: Send)
    requires Delivers(e, r, m, s)
    ensures Delivers(e, r.(signature := signature), m, s) && r.msgid == m.msgid
  {}

  lemma BodyShape(m: Message, s: Send)
    requires |m.payload| == PAYLOAD_ROOM
    ensures var body := FrameBody(m, s);
            body != [] && |body| == HeaderLen(s.v1) + body[0] && (!s.v1 ==> body[1] == Flags(s) < 2)
  {}

  // ---- Streams ----

  datatype Item = Item(noise: seq<Byte>, msg: Message, send: Send, crcExtra: Byte)

  ghost predicate NoMarker(s: seq<Byte>) { STX_V1 !in s && STX_V2 !in s }

  ghost predicate Transmittable(e: Entries, items: seq<Item>) {
    forall i :: 0 <= i < |items| ==>
      |items[i].msg.payload| == PAYLOAD_ROOM && NoMarker(items[i].noise)
          && Sendable(e, items[i].msg, items[i].send, items[i].crcExtra)
  }

  /** Each frame that has arrived completely passes, or its last byte at least is no start marker. */
  ghost predicate AllSettle(p: Policy, items: seq<Item>, vs: seq<bool>)
    requires forall i :: 0 <= i < |items| ==> |items[i].msg.payload| == PAYLOAD_ROOM
    decreases |items|
  {
    items != [] ==>
      var n := |Piece(items[0])|;
      |vs| >= n >= 1 ==>
        && (Accepts(p, items[0].send, items[0].msg.msgid, vs[n - 1]) || Piece(items[0])[n - 1] != STX_V2)
        && AllSettle(p, items[1..], vs[n..])
  }

  function Piece(item: Item): seq<Byte>
    requires |item.msg.payload| == PAYLOAD_ROOM
  {
    item.noise + Frame(item.msg, item.send, item.crcExtra)
  }

  /** Frames, each after some noise. */
  function Stream(items: seq<Item>): seq<Byte>
    requires forall i :: 0 <= i < |items| ==> |items[i].msg.payload| == PAYLOAD_ROOM
  {
    if items == [] then [] else Piece(items[0]) + Stream(items[1..])
  }

  /** The item whose last byte stands at position `k` of the stream, if any. */
  function EndingAt(items: seq<Item>, k: int): (i: int)
    requires forall i :: 0 <= i < |items| ==> |items[i].msg.payload| == PAYLOAD_ROOM
    ensures -1 <= i < |items|
  {
    if items == [] then -1
    else if k < |Piece(items[0])| then (if k == |Piece(items[0])| - 1 then 0 else -1)
    else
      var i := EndingAt(items[1..], k - |Piece(items[0])|);
      if i == -1 then -1 else i + 1
  }

  lemma {:induction false} NoiseIsIgnored(e: Entries, p: Policy, rx: Rx, noise: seq<Byte>, vs: seq<bool>)
    requires SaneRx(rx) && Quiet(rx) && NoMarker(noise) && |vs| == |noise|
    ensures Parsed(e, p, rx, noise, vs) == (rx, INCOMPLETE)
  {
    if noise != [] {
      var last := |noise| - 1;
      assert noise[last] in noise && forall c :: c in noise[..last] ==> c in noise;
      NoiseIsIgnored(e, p, rx, noise[..last], vs[..last]);
      assert ParseStep(e, p, rx, noise[last], vs[last]) == (rx, INCOMPLETE);
    }
  }

  lemma PieceParsed(e: Entries, p: Policy, rx: Rx, item: Item, k: nat, vs: seq<bool>)
    requires SaneRx(rx) && Quiet(rx) && NoMarker(item.noise) && |item.msg.payload| == PAYLOAD_ROOM
    requires Sendable(e, item.msg, item.send, item.crcExtra) && k < |Piece(item)| && |vs| == k + 1
    ensures var (rx', framing) := Parsed(e, p, rx, Piece(item)[..k + 1], vs);
            if k + 1 < |Piece(item)| then framing == INCOMPLETE
            else if Accepts(p, item.send, item.msg.msgid, vs[k]) then
              framing == OK && rx'.state == Idle && Delivers(e, rx'.msg, item.msg, item.send)
              && (Flags(item.send) == 1 ==> rx'.msg.signature == item.msg.signature)
            else framing == INCOMPLETE && rx'.state == AfterRefusal(Piece(item)[k])
  {
    hide Parsed, Frame, Delivers, Accepts, Flags;
    var frame, n := Frame(item.msg, item.send, item.crcExtra), |item.noise|;
    FrameNotEmpty(item);
    if k < n {
      assert Piece(item)[..k + 1] == item.noise[..k + 1];
      assert forall c :: c in item.noise[..k + 1] ==> c in item.noise;
      NoiseIsIgnored(e, p, rx, item.noise[..k + 1], vs);
    } else {
      NoiseIsIgnored(e, p, rx, item.noise, vs[..n]);
      assert Piece(item)[..k + 1] == item.noise + frame[..k - n + 1] && vs == vs[..n] + vs[n..];
      ParsedConcat(e, p, rx, item.noise, vs[..n], frame[..k - n + 1], vs[n..]);
      FrameIsDelivered(e, p, rx, item.msg, item.send, item.crcExtra, k - n, vs[n..]);
    }
  }

  lemma StreamSlice(items: seq<Item>, k: nat)
    requires items != [] && forall i :: 0 <= i < |items| ==> |items[i].msg.payload| == PAYLOAD_ROOM
    requires k < |Stream(items)|
    ensures var n := |Piece(items[0])|;
            if k < n then Stream(items)[..k + 1] == Piece(items[0])[..k + 1]
                && EndingAt(items, k) == (if k == n - 1 then 0 else -1)
            else k - n < |Stream(items[1..])|
                 && Stream(items)[..k + 1] == Piece(items[0]) + Stream(items[1..])[..k - n + 1]
                 && EndingAt(items, k) ==
                    (if EndingAt(items[1..], k - n) == -1 then -1 else EndingAt(items[1..], k - n) + 1)
  {
    hide Piece;
  }

  /** Stream round trip: over any list of sendable messages of both versions, signed or not, with noise free of start
      markers in between, an idle parser reports OK exactly at the last byte of each frame that passes, with that
      frame's message. */
  lemma {:induction false} StreamIsDelivered(e: Entries, p: Policy, rx: Rx, items: seq<Item>, k: nat, vs: seq<bool>)
    requires SaneRx(rx) && Quiet(rx) && Transmittable(e, items) && AllSettle(p, items, vs)
    requires k < |Stream(items)| && |vs| == k + 1
    ensures var (rx', framing) := Parsed(e, p, rx, Stream(items)[..k + 1], vs);
            var i := EndingAt(items, k);
            if i != -1 && Accepts(p, items[i].send, items[i].msg.msgid, vs[k])
            then framing == OK && Delivers(e, rx'.msg, items[i].msg, items[i].send)
            else framing == INCOMPLETE
    decreases |items|
  {
    hide Parsed, Delivers, Sendable, Accepts, Piece, NoMarker, Stream, EndingAt, SaneRx, Flags, AllSettle, Quiet;
    assert items != [] by { StreamOfNothing(); }
    var head, n, rest := Piece(items[0]), |Piece(items[0])|, items[1..];
    StreamSlice(items, k);
    if k < n {
      PieceParsed(e, p, rx, items[0], k, vs);
    } else {
      var mid := Parsed(e, p, rx, head, vs[..n]).0;
      HeadParsed(e, p, rx, items, vs);
      assert vs == vs[..n] + vs[n..];
      ParsedConcat(e, p, rx, head, vs[..n], Stream(rest)[..k - n + 1], vs[n..]);
      StreamIsDelivered(e, p, mid, rest, k - n, vs[n..]);
    }
  }

  lemma HeadParsed(e: Entries, p: Policy, rx: Rx, items: seq<Item>, vs: seq<bool>)
    requires SaneRx(rx) && Quiet(rx) && items != [] && Transmittable(e, items) && AllSettle(p, items, vs)
    requires |vs| >= |Piece(items[0])|
    ensures var n := |Piece(items[0])|;
            n >= 1 && Quiet(Parsed(e, p, rx, Piece(items[0]), vs[..n]).0) && AllSettle(p, items[1..], vs[n..])
  {
    hide Parsed, Delivers, Sendable, Accepts, Piece, NoMarker, SaneRx, Flags;
    var n := |Piece(items[0])|;
    FrameNotEmpty(items[0]);
    PieceLength(items[0]);
    assert Piece(items[0])[..n] == Piece(items[0]);
    PieceParsed(e, p, rx, items[0], n - 1, vs[..n]);
  }

  lemma StreamOfNothing()
    ensures Stream([]) == []
  {}

  lemma FrameNotEmpty(item: Item)
    requires |item.msg.payload| == PAYLOAD_ROOM
    ensures |Frame(item.msg, item.send, item.crcExtra)| > 0
  {
    WireIsFrame(item.msg, item.send, item.crcExtra);
  }

  lemma PieceLength(item: Item)
    requires |item.msg.payload| == PAYLOAD_ROOM
    ensures |Piece(item)| == |item.noise| + |Frame(item.msg, item.send, item.crcExtra)|
  {}

  // ---- Corruption ----

  function AsBits(s: seq<Byte>): seq<bv8> {
    seq(|s|, i requires 0 <= i < |s| => s[i] as bv8)
  }

  lemma {:induction false} CrcIsX25(s: seq<Byte>)
    ensures Crc(s) == Checksum.CrcOver(Checksum.X25_INIT_CRC, AsBits(s))
  {
    hide Checksum.SerialByte;
    if s != [] {
      CrcIsX25(s[..|s| - 1]);
      assert AsBits(s)[..|s| - 1] == AsBits(s[..|s| - 1]);
    }
  }

  lemma BitsInjective(a: Byte, b: Byte)
    requires a as bv8 == b as bv8
    ensures a == b
  {
    ByteBits.BitsBack(a);
    ByteBits.BitsBack(b);
  }

  lemma BitsDiffer(s: seq<Byte>, t: seq<Byte>)
    requires |s| == |t| && AsBits(s) == AsBits(t)
    ensures s == t
  {
    forall i | 0 <= i < |s|
      ensures s[i] == t[i]
    {
      assert AsBits(s)[i] == AsBits(t)[i];
      BitsInjective(s[i], t[i]);
    }
  }

  /** Two byte strings that differ only inside a window of two adjacent bytes have different checksums. */
  lemma BurstChangesCrc(s: seq<Byte>, t: seq<Byte>, k: nat)
    requires |s| == |t| && k + 2 <= |s| && s != t && s[..k] == t[..k] && s[k + 2..] == t[k + 2..]
    ensures Crc(s) != Crc(t)
  {
    hide Crc, Checksum.CrcOver;
    CrcIsX25(s);
    CrcIsX25(t);
    var a, b := AsBits(s), AsBits(t);
    assert a[..k] == AsBits(s[..k]) == b[..k];
    assert a[k + 2..] == AsBits(s[k + 2..]) == b[k + 2..];
    if a == b { BitsDiffer(s, t); }
    Checksum.BurstIsDetected(Checksum.X25_INIT_CRC, a, b, k);
  }

  lemma CrcBytesDetermine(a: bv16, b: bv16)
    requires CkA(a) == CkA(b) && CkB(a) == CkB(b)
    ensures a == b
  {
    CkDetermines(a, b);
    Checksum.BytesDetermineWord(a, b);
  }

  lemma CkDetermines(a: bv16, b: bv16)
    requires CkA(a) == CkA(b) && CkB(a) == CkB(b)
    ensures Checksum.LowByte(a) == Checksum.LowByte(b) && a >> 8 == b >> 8
  {
    IntDetermines(Checksum.LowByte(a), Checksum.LowByte(b));
    IntDetermines(Checksum.HighByte(a), Checksum.HighByte(b));
    HighDetermines(a, b);
  }

  lemma IntDetermines(a: bv8, b: bv8)
    requires a as int == b as int
    ensures a == b
  {
    ByteBits.IntBack(a);
    ByteBits.IntBack(b);
  }

  lemma HighDetermines(a: bv16, b: bv16)
    requires Checksum.HighByte(a) == Checksum.HighByte(b)
    ensures a >> 8 == b >> 8
  {}

  /** The checksum bytes that follow a body decide: other bytes than those of the computed checksum are refused. */
  lemma ChecksumRefused(e: Entries, p: Policy, rx: Rx, body: seq<Byte>, a: Byte, b: Byte, v0: bool, v1: bool)
    requires Tracks(e, rx, body) && rx.state == GotPayload
    requires var crc := Crc(body + [CrcExtra(e, rx.msg.msgid)]); a != CkA(crc) || b != CkB(crc)
    ensures var (rx1, f1) := ParseStep(e, p, rx, a, v0);
            f1 == INCOMPLETE && ParseStep(e, p, rx1, b, v1).1 == INCOMPLETE
            && ParseStep(e, p, rx1, b, v1).0.state == AfterRefusal(b)
  {
    hide CrcStep, Crc, CkA, CkB, ZeroFilled, CrcExtra;
    TrackedSum(e, rx, body);
    CrcSnoc(body, CrcExtra(e, rx.msg.msgid));
  }

  /** A frame damaged inside its body, within two adjacent bytes that are neither length, flags nor id, or in its
      checksum, is not accepted: with the last checksum byte the parser has given it up, signed or not, and starts anew
      exactly if that byte is the version 2 marker. */
  lemma CorruptionIsRejected(e: Entries, p: Policy, rx: Rx, m: Message, s: Send, crcExtra: Byte, bad: seq<Byte>,
                             a: Byte, b: Byte, k: nat, vs: seq<bool>)
    requires SaneRx(rx) && Quiet(rx) && Sendable(e, m, s, crcExtra)
    requires var body := FrameBody(m, s);
             |bad| == |body| && bad[0] == body[0] && (!s.v1 ==> bad[1] == body[1]) && k + 2 <= |body|
             && bad[..k] == body[..k] && bad[k + 2..] == body[k + 2..] && IdBytesOf(bad, s.v1) == IdBytesOf(body, s.v1)
    requires var crc := Crc(FrameBody(m, s) + [crcExtra]);
             if bad == FrameBody(m, s) then a != CkA(crc) || b != CkB(crc) else a == CkA(crc) && b == CkB(crc)
    requires |vs| == |bad| + 3
    ensures var (rx', framing) := Parsed(e, p, rx, [if s.v1 then STX_V1 else STX_V2] + bad + [a] + [b], vs);
            framing == INCOMPLETE && rx'.state == AfterRefusal(b)
  {
    hide Tracks, Crc, CkA, CkB, StateAt, Parsed, FrameBody, SaneRx, ParseStep;
    var body, stx := FrameBody(m, s), if s.v1 then STX_V1 else STX_V2;
    var n := |bad| + 1;
    BodyShape(m, s);
    assert bad[..|bad|] == bad;
    BodyRead(e, p, rx, bad, s.v1, |bad|, vs[..n]);
    StateAtStart(s.v1, bad[0]);
    var mid := Parsed(e, p, rx, [stx] + bad, vs[..n]).0;
    SameIdRead(e, mid, bad, m, s);
    if bad != body {
      assert (bad + [crcExtra])[..k] == bad[..k] == (body + [crcExtra])[..k];
      assert (bad + [crcExtra])[k + 2..] == bad[k + 2..] + [crcExtra] == (body + [crcExtra])[k + 2..];
      assert bad == (bad + [crcExtra])[..|bad|] && body == (body + [crcExtra])[..|body|];
      BurstChangesCrc(bad + [crcExtra], body + [crcExtra], k);
      if a == CkA(Crc(bad + [crcExtra])) && b == CkB(Crc(bad + [crcExtra])) {
        CrcBytesDetermine(Crc(bad + [crcExtra]), Crc(body + [crcExtra]));
      }
    }
    ChecksumRefused(e, p, mid, bad, a, b, vs[n], vs[n + 1]);
    assert vs[..n + 1][..n] == vs[..n];
    ParsedSnoc(e, p, rx, [stx] + bad, a, vs[..n + 1]);
    ParsedSnoc(e, p, rx, [stx] + bad + [a], b, vs);
  }

  function IdBytesOf(body: seq<Byte>, v1: bool): seq<Byte>
    requires |body| >= HeaderLen(v1)
  {
    if v1 then [body[4]] else body[6..9]
  }

  lemma SameIdRead(e: Entries, rx: Rx, bad: seq<Byte>, m: Message, s: Send)
    requires Tracks(e, rx, bad) && rx.state == GotPayload && rx.v1 == s.v1
    requires |m.payload| == PAYLOAD_ROOM && m.msgid < (if s.v1 then 0x100 else 0x100_0000)
    requires |bad| >= HeaderLen(s.v1) && |FrameBody(m, s)| >= HeaderLen(s.v1)
    requires IdBytesOf(bad, s.v1) == IdBytesOf(FrameBody(m, s), s.v1)
    ensures rx.msg.msgid == m.msgid
  {
    hide Crc, CkA, CkB;
    var body, r := FrameBody(m, s), rx.msg;
    assert bad == Header(r, s.v1) + r.payload[..r.len];
    if !s.v1 {
      assert bad[6] == IdBytesOf(bad, s.v1)[0] && bad[7] == IdBytesOf(bad, s.v1)[1]
          && bad[8] == IdBytesOf(bad, s.v1)[2];
      assert body[6] == IdBytesOf(body, s.v1)[0] && body[7] == IdBytesOf(body, s.v1)[1]
          && body[8] == IdBytesOf(body, s.v1)[2];
    }
    SameIds(r.msgid, m.msgid, body, s.v1);
  }
}
