/**
 MAVLink framing as functions on values: the message record, the frame an encoder puts on the wire,
 and one step of the byte-at-a-time parser, for both protocol versions.
 */
module MavFrame {
  import Checksum

  type Byte = x: int | 0 <= x < 256

  const STX_V1: Byte := 0xFE
  const STX_V2: Byte := 0xFD
  const PAYLOAD_ROOM: nat := 264
  const SIGNATURE_LEN: nat := 13

  // ---- Checksum on byte values ----

  function CrcStep(crc: bv16, c: Byte): bv16 { Checksum.SerialByte(crc, c as bv8) }

  function Crc(s: seq<Byte>): bv16 {
    if s == [] then Checksum.X25_INIT_CRC else CrcStep(Crc(s[..|s| - 1]), s[|s| - 1])
  }

  function CkA(crc: bv16): Byte { Checksum.LowByte(crc) as int }

  function CkB(crc: bv16): Byte { Checksum.HighByte(crc) as int }

  lemma CrcSnoc(s: seq<Byte>, c: Byte)
    ensures Crc(s + [c]) == CrcStep(Crc(s), c)
  {
    hide CrcStep;
    assert (s + [c])[..|s + [c]| - 1] == s;
  }

  // ---- Messages ----

  /** The fields of a message. `payload` has room for 255 bytes, the two checksum bytes and padding. */
  datatype Message = Message(
    checksum: bv16, magic: Byte, len: Byte, incompat: Byte, compat: Byte, seq_: Byte, sysid: Byte, compid: Byte,
    msgid: nat, payload: seq<Byte>, ck0: Byte, ck1: Byte, signature: seq<Byte>)

  ghost predicate Sane(m: Message) {
    |m.payload| == PAYLOAD_ROOM && |m.signature| == SIGNATURE_LEN
  }

  datatype Entry = Entry(crcExtra: Byte, msgLen: Byte)

  /** The table of known messages. */
  type Entries = map<nat, Entry>

  function CrcExtra(entries: Entries, msgid: nat): Byte {
    if msgid in entries then entries[msgid].crcExtra else 0
  }

  /** The bytes between the start marker and the payload. */
  function Header(m: Message, v1: bool): seq<Byte> {
    if v1 then [m.len, m.seq_, m.sysid, m.compid, m.msgid % 256]
    else [m.len, m.incompat, m.compat, m.seq_, m.sysid, m.compid, m.msgid % 256, m.msgid / 0x100 % 256,
        m.msgid / 0x1_0000 % 256]
  }

  function HeaderLen(v1: bool): nat { if v1 then 5 else 9 }

  /** The payload bytes up to `n`, zeros from `n` up to `limit`, the rest as they are. */
  function ZeroFilled(p: seq<Byte>, n: nat, limit: nat): seq<Byte>
    requires limit <= |p|
  {
    if n < limit then p[..n] + seq(limit - n, _ => 0) + p[limit..] else p
  }

  // ---- Parser ----

  datatype ParseState =
    | Uninit | Idle | GotStx | GotLength | GotIncompat | GotCompat | GotSeq | GotSysid | GotCompid
    | GotMsgid1 | GotMsgid2 | GotMsgid3 | GotPayload | GotCrc1 | GotBadCrc1 | SignatureWait

  datatype Framing = INCOMPLETE | OK | BAD_CRC | BAD_SIGNATURE

  /** The receiving side of a channel: parser state, version of the frame being read, index into the
      payload, signature bytes still awaited, and the message under construction. */
  datatype Rx = Rx(state: ParseState, v1: bool, idx: nat, sigWait: nat, msg: Message)

  ghost predicate SaneRx(rx: Rx) {
    Sane(rx.msg) && rx.idx <= 255 && rx.sigWait <= SIGNATURE_LEN
    && (rx.state == GotMsgid3 ==> rx.idx < rx.msg.len) && (InHeader(rx.state) ==> rx.idx == 0)
    && (rx.state == SignatureWait ==> rx.sigWait >= 1)
  }

  /** No frame has begun. */
  predicate Quiet(rx: Rx) { rx.state == Idle || rx.state == Uninit }

  predicate InHeader(state: ParseState) {
    state in {GotLength, GotIncompat, GotCompat, GotSeq, GotSysid, GotCompid, GotMsgid1, GotMsgid2}
  }

  /** What decides about signatures: whether the channel checks them, and whether the application accepts an
      unsigned or wrongly signed message. */
  datatype Policy = Policy(signing: bool, acceptUnsigned: nat -> bool)

  /** Who may be accepted: a signed message if the signature check says so, an unsigned one on a channel without
      signing, and either if the application lets messages of this id pass. */
  predicate Permitted(policy: Policy, signed: bool, msgid: nat, verdict: bool) {
    policy.acceptUnsigned(msgid) || (if signed then verdict else !policy.signing)
  }

  /** Where a refused message leaves the parser. */
  function AfterRefusal(c: Byte): ParseState { if c == STX_V2 then GotStx else Idle }

  function Started(rx: Rx): Rx {
    rx.(state := GotStx, msg := rx.msg.(len := 0, checksum := Checksum.X25_INIT_CRC))
  }

  function OnIdle(rx: Rx, c: Byte): (r: Rx)
    ensures SaneRx(rx) && Quiet(rx) ==> SaneRx(r)
  {
    if c == STX_V2 then Started(rx.(v1 := false, msg := rx.msg.(magic := c)))
    else if c == STX_V1 then Started(rx.(v1 := true, msg := rx.msg.(magic := c)))
    else rx
  }

  /** The message with one more byte in its checksum. */
  function Summed(m: Message, c: Byte): Message { m.(checksum := CrcStep(m.checksum, c)) }

  function OnStx(rx: Rx, c: Byte): (r: Rx)
    ensures SaneRx(rx) ==> SaneRx(r)
  {
    var m := Summed(rx.msg.(len := c), c);
    if rx.v1 then rx.(state := GotCompat, idx := 0, msg := m.(incompat := 0, compat := 0))
    else rx.(state := GotLength, idx := 0, msg := m)
  }

  function OnLength(rx: Rx, c: Byte): (r: Rx)
    ensures SaneRx(rx) && InHeader(rx.state) ==> SaneRx(r)
  {
    if c >= 2 then rx.(state := Idle, msg := rx.msg.(incompat := c))
    else rx.(state := GotIncompat, msg := Summed(rx.msg.(incompat := c), c))
  }

  function AfterHeader(rx: Rx): Rx {
    rx.(state := if rx.msg.len > 0 then GotMsgid3 else GotPayload)
  }

  function OnCompid(rx: Rx, c: Byte): (r: Rx)
    ensures SaneRx(rx) && InHeader(rx.state) ==> SaneRx(r)
  {
    var rx' := rx.(msg := Summed(rx.msg.(msgid := c), c));
    if rx.v1 then AfterHeader(rx') else rx'.(state := GotMsgid1)
  }

  /** The two upper bytes of the id are clear when the second byte is merged in, the top one when the third is. */
  function OnMsgid1(rx: Rx, c: Byte): (r: Rx)
    ensures SaneRx(rx) && InHeader(rx.state) ==> SaneRx(r)
  {
    rx.(state := GotMsgid2, msg := Summed(rx.msg.(msgid := rx.msg.msgid + 0x100 * c), c))
  }

  function OnMsgid2(rx: Rx, c: Byte): (r: Rx)
    ensures SaneRx(rx) && InHeader(rx.state) ==> SaneRx(r)
  {
    AfterHeader(rx.(msg := Summed(rx.msg.(msgid := rx.msg.msgid + 0x1_0000 * c), c)))
  }

  function OnPayloadByte(rx: Rx, c: Byte): (r: Rx)
    requires rx.idx < |rx.msg.payload|
    ensures SaneRx(rx) && rx.idx < rx.msg.len && rx.state == GotMsgid3 ==> SaneRx(r)
  {
    var rx' := rx.(idx := rx.idx + 1, msg := Summed(rx.msg.(payload := rx.msg.payload[rx.idx := c]), c));
    if rx'.idx == rx.msg.len then rx'.(state := GotPayload) else rx'
  }

  function OnCrcLow(entries: Entries, rx: Rx, c: Byte): (r: Rx)
    requires |rx.msg.payload| == PAYLOAD_ROOM
    ensures SaneRx(rx) ==> SaneRx(r)
  {
    var m := Summed(rx.msg, CrcExtra(entries, rx.msg.msgid));
    var limit := if rx.msg.msgid in entries then entries[rx.msg.msgid].msgLen else 0;
    rx.(state := if c == CkA(m.checksum) then GotCrc1 else GotBadCrc1,
        msg := m.(ck0 := c, payload := ZeroFilled(m.payload, rx.idx, limit)))
  }

  function OnCrcHigh(policy: Policy, rx: Rx, c: Byte): (r: (Rx, Framing))
    ensures SaneRx(rx) ==> SaneRx(r.0)
  {
    var good := rx.state == GotCrc1 && c == CkB(rx.msg.checksum);
    var rx' := rx.(msg := rx.msg.(ck1 := c));
    if rx.msg.incompat % 2 == 1 then
      (rx'.(state := SignatureWait, sigWait := SIGNATURE_LEN), if good then INCOMPLETE else BAD_CRC)
    else
      (rx'.(state := Idle),
       if !good then BAD_CRC
       else if policy.signing && !policy.acceptUnsigned(rx.msg.msgid) then BAD_SIGNATURE else OK)
  }

  /** The last signature byte asks for the verdict of the signature check. */
  function OnSignature(policy: Policy, rx: Rx, c: Byte, verdict: bool): (r: (Rx, Framing))
    requires |rx.msg.signature| == SIGNATURE_LEN && 1 <= rx.sigWait <= SIGNATURE_LEN
    ensures SaneRx(rx) && rx.state == SignatureWait ==> SaneRx(r.0)
  {
    var m := rx.msg.(signature := rx.msg.signature[SIGNATURE_LEN - rx.sigWait := c]);
    if rx.sigWait > 1 then (rx.(sigWait := rx.sigWait - 1, msg := m), INCOMPLETE)
    else (rx.(sigWait := 0, state := Idle, msg := m),
        if verdict || policy.acceptUnsigned(m.msgid) then OK else BAD_SIGNATURE)
  }

  /** `mavlink_frame_char_buffer`: the new channel state and the framing result. */
  function FrameStep(entries: Entries, policy: Policy, rx: Rx, c: Byte, verdict: bool): (r: (Rx, Framing))
    requires SaneRx(rx)
    ensures SaneRx(r.0)
  {
    match rx.state
    case Uninit | Idle => (OnIdle(rx, c), INCOMPLETE)
    case GotStx => (OnStx(rx, c), INCOMPLETE)
    case GotLength => (OnLength(rx, c), INCOMPLETE)
    case GotIncompat => (rx.(state := GotCompat, msg := Summed(rx.msg.(compat := c), c)), INCOMPLETE)
    case GotCompat => (rx.(state := GotSeq, msg := Summed(rx.msg.(seq_ := c), c)), INCOMPLETE)
    case GotSeq => (rx.(state := GotSysid, msg := Summed(rx.msg.(sysid := c), c)), INCOMPLETE)
    case GotSysid => (rx.(state := GotCompid, msg := Summed(rx.msg.(compid := c), c)), INCOMPLETE)
    case GotCompid => (OnCompid(rx, c), INCOMPLETE)
    case GotMsgid1 => (OnMsgid1(rx, c), INCOMPLETE)
    case GotMsgid2 => (OnMsgid2(rx, c), INCOMPLETE)
    case GotMsgid3 => (OnPayloadByte(rx, c), INCOMPLETE)
    case GotPayload => (OnCrcLow(entries, rx, c), INCOMPLETE)
    case GotCrc1 | GotBadCrc1 => OnCrcHigh(policy, rx, c)
    case SignatureWait => OnSignature(policy, rx, c, verdict)
  }

  /** `mavlink_parse_char`: a bad checksum or signature resets the parser, and a byte that is the version 2 start
      marker begins a new frame at once, in the format the version flag still holds. */
  function ParseStep(entries: Entries, policy: Policy, rx: Rx, c: Byte, verdict: bool): (r: (Rx, Framing))
    requires SaneRx(rx)
    ensures SaneRx(r.0)
  {
    var (rx', framing) := FrameStep(entries, policy, rx, c, verdict);
    if framing == BAD_CRC || framing == BAD_SIGNATURE then
      (if c == STX_V2 then Started(rx') else rx'.(state := Idle), INCOMPLETE)
    else (rx', framing)
  }

  // ---- The parser's invariant over the bytes since the start marker ----

  /** How many header bytes have been read. */
  function HeaderRead(state: ParseState, v1: bool): nat {
    match state
    case GotLength => 1
    case GotIncompat => 2
    case GotCompat => if v1 then 1 else 3
    case GotSeq => if v1 then 2 else 4
    case GotSysid => if v1 then 3 else 5
    case GotCompid => if v1 then 4 else 6
    case GotMsgid1 => 7
    case GotMsgid2 => 8
    case _ => HeaderLen(v1)
  }

  /** The bytes of a whole frame without marker, checksum and signature. */
  function Body(m: Message, v1: bool): seq<Byte>
    requires |m.payload| == PAYLOAD_ROOM
  {
    Header(m, v1) + m.payload[..m.len]
  }

  /** `hist` holds the bytes since the parser last entered GotStx. */
  ghost predicate Tracks(entries: Entries, rx: Rx, hist: seq<Byte>) {
    && SaneRx(rx)
    && var m := rx.msg;
       match rx.state
       case Uninit | Idle => true
       case GotStx => hist == [] && m.checksum == Crc([])
       case GotMsgid3 =>
           rx.idx < m.len && hist == Header(m, rx.v1) + m.payload[..rx.idx] && m.checksum == Crc(hist) && Version(rx)
       case GotPayload => rx.idx == m.len && hist == Body(m, rx.v1) && m.checksum == Crc(hist) && Version(rx)
       case GotCrc1 | GotBadCrc1 =>
         m.checksum == Crc(Body(m, rx.v1) + [CrcExtra(entries, m.msgid)]) && hist == Body(m, rx.v1) + [m.ck0]
         && (rx.state == GotCrc1 ==> m.ck0 == CkA(m.checksum)) && Version(rx) && rx.idx == m.len
       case SignatureWait =>
         hist == Body(m, rx.v1) + [m.ck0, m.ck1] + m.signature[..SIGNATURE_LEN - rx.sigWait] && Version(rx)
         && Checked(entries, m, rx.v1) && m.incompat == 1 && rx.idx == m.len
       case _ =>
         (rx.state in {GotLength, GotIncompat, GotMsgid1, GotMsgid2} ==> !rx.v1)
         && rx.idx == 0 && hist == Header(m, rx.v1)[..HeaderRead(rx.state, rx.v1)] && m.checksum == Crc(hist)
         && (rx.state == GotMsgid1 ==> m.msgid < 0x100) && (rx.state == GotMsgid2 ==> m.msgid < 0x1_0000)
         && (rx.v1 ==> m.incompat == 0) && (!rx.v1 && rx.state != GotLength ==> m.incompat < 2)
  }

  /** Version 1 frames carry no flags, version 2 frames only understood ones; the id is in range. */
  ghost predicate Version(rx: Rx) {
    (rx.v1 ==> rx.msg.incompat == 0 && rx.msg.msgid < 0x100) && rx.msg.incompat < 2 && rx.msg.msgid < 0x100_0000
  }

  /** The checksum bytes on the wire belong to header, payload and the extra byte of the message's type. */
  ghost predicate Checked(entries: Entries, m: Message, v1: bool)
    requires |m.payload| == PAYLOAD_ROOM
  {
    var crc := Crc(Body(m, v1) + [CrcExtra(entries, m.msgid)]);
    m.ck0 == CkA(crc) && m.ck1 == CkB(crc)
  }

  // ---- Soundness over any byte stream ----

  /** The history after a byte: it starts anew when the parser enters GotStx. */
  function History(rx': Rx, hist: seq<Byte>, c: Byte): seq<Byte> {
    if rx'.state == GotStx then [] else hist + [c]
  }

  lemma HeaderStep(entries: Entries, policy: Policy, rx: Rx, hist: seq<Byte>, c: Byte, verdict: bool)
    requires Tracks(entries, rx, hist)
    requires rx.state in {GotStx, GotLength, GotIncompat, GotCompat, GotSeq, GotSysid}
    ensures var (rx', framing) := FrameStep(entries, policy, rx, c, verdict);
            framing == INCOMPLETE && rx'.state != GotStx && Tracks(entries, rx', hist + [c])
  {
    hide CrcStep, Crc;
    CrcSnoc(hist, c);
    var (rx', framing) := FrameStep(entries, policy, rx, c, verdict);
    if rx'.state != Idle {
      assert hist + [c] == Header(rx'.msg, rx'.v1)[..HeaderRead(rx'.state, rx'.v1)];
    }
  }

  lemma IdBytes(id: nat, c: Byte)
    ensures id < 0x100 ==>
              (id + 0x100 * c) % 256 == id % 256 && (id + 0x100 * c) / 0x100 % 256 == c && (id + 0x100 * c) < 0x1_0000
    ensures id < 0x1_0000 ==>
              (id + 0x1_0000 * c) % 256 == id % 256 && (id + 0x1_0000 * c) / 0x100 % 256 == id / 0x100 % 256
                              && (id + 0x1_0000 * c) / 0x1_0000 % 256 == c && (id + 0x1_0000 * c) < 0x100_0000
  {}

  lemma CompidStep(entries: Entries, rx: Rx, hist: seq<Byte>, c: Byte)
    requires Tracks(entries, rx, hist) && rx.state == GotCompid
    ensures Tracks(entries, OnCompid(rx, c), hist + [c])
  {
    hide CrcStep, Crc;
    CrcSnoc(hist, c);
    var rx' := OnCompid(rx, c);
    assert hist + [c] == Header(rx'.msg, rx.v1)[..|hist| + 1];
    if rx.v1 { WholeHeader(rx'.msg, rx.v1); }
  }

  lemma SecondIdByte(m: Message, c: Byte)
    requires m.msgid < 0x100
    ensures Header(m.(msgid := m.msgid + 0x100 * c), false)[..8] == Header(m, false)[..7] + [c]
  {
    IdBytes(m.msgid, c);
  }

  lemma ThirdIdByte(m: Message, c: Byte)
    requires m.msgid < 0x1_0000
    ensures Header(Summed(m.(msgid := m.msgid + 0x1_0000 * c), c), false) == Header(m, false)[..8] + [c]
  {
    hide CrcStep;
    IdBytes(m.msgid, c);
  }

  lemma Msgid1Step(entries: Entries, rx: Rx, hist: seq<Byte>, c: Byte)
    requires Tracks(entries, rx, hist) && rx.state == GotMsgid1
    ensures Tracks(entries, OnMsgid1(rx, c), hist + [c])
  {
    hide CrcStep, Crc;
    CrcSnoc(hist, c);
    IdBytes(rx.msg.msgid, c);
    SecondIdByte(rx.msg, c);
  }

  lemma Msgid2Step(entries: Entries, rx: Rx, hist: seq<Byte>, c: Byte)
    requires Tracks(entries, rx, hist) && rx.state == GotMsgid2
    ensures Tracks(entries, OnMsgid2(rx, c), hist + [c])
  {
    hide CrcStep, Crc, CrcExtra, Checked, CkA, CkB, Header, Body;
    CrcSnoc(hist, c);
    IdBytes(rx.msg.msgid, c);
    ThirdIdByte(rx.msg, c);
    HeaderDone(entries, OnMsgid2(rx, c), hist + [c]);
  }

  /** A whole header is tracked, on the way to the payload or, without one, to the checksum. */
  lemma HeaderDone(entries: Entries, rx: Rx, hist: seq<Byte>)
    requires SaneRx(rx) && rx.state == (if rx.msg.len > 0 then GotMsgid3 else GotPayload) && rx.idx == 0
    requires hist == Header(rx.msg, rx.v1) && rx.msg.checksum == Crc(hist) && Version(rx)
    ensures Tracks(entries, rx, hist)
  {
    hide Crc, Header, Body;
    WholeHeader(rx.msg, rx.v1);
  }

  lemma WholeHeader(m: Message, v1: bool)
    requires |m.payload| == PAYLOAD_ROOM
    ensures Header(m, v1)[..HeaderLen(v1)] == Header(m, v1) == Header(m, v1) + m.payload[..0]
    ensures m.len == 0 ==> Header(m, v1) == Body(m, v1)
  {
    assert m.payload[..0] == [];
  }

  lemma IdStep(entries: Entries, policy: Policy, rx: Rx, hist: seq<Byte>, c: Byte, verdict: bool)
    requires Tracks(entries, rx, hist)
    requires rx.state in {GotCompid, GotMsgid1, GotMsgid2}
    ensures var (rx', framing) := FrameStep(entries, policy, rx, c, verdict);
            framing == INCOMPLETE && rx'.state != GotStx && Tracks(entries, rx', hist + [c])
  {
    hide Tracks, SaneRx, Summed;
    if rx.state == GotCompid { CompidStep(entries, rx, hist, c); }
    else if rx.state == GotMsgid1 { Msgid1Step(entries, rx, hist, c); }
    else { Msgid2Step(entries, rx, hist, c); }
  }

  lemma PayloadStep(entries: Entries, policy: Policy, rx: Rx, hist: seq<Byte>, c: Byte, verdict: bool)
    requires Tracks(entries, rx, hist) && rx.state == GotMsgid3
    ensures var (rx', framing) := FrameStep(entries, policy, rx, c, verdict);
            framing == INCOMPLETE && rx'.state != GotStx && Tracks(entries, rx', hist + [c])
  {
    hide CrcStep, Crc;
    CrcSnoc(hist, c);
    var (rx', framing) := FrameStep(entries, policy, rx, c, verdict);
    assert rx'.msg.payload[..rx.idx + 1] == rx.msg.payload[..rx.idx] + [c];
    assert Header(rx'.msg, rx'.v1) == Header(rx.msg, rx.v1);
    assert hist + [c] == Header(rx'.msg, rx'.v1) + rx'.msg.payload[..rx'.idx];
  }

  lemma CrcLowStep(entries: Entries, policy: Policy, rx: Rx, hist: seq<Byte>, c: Byte, verdict: bool)
    requires Tracks(entries, rx, hist) && rx.state == GotPayload
    ensures var (rx', framing) := FrameStep(entries, policy, rx, c, verdict);
            framing == INCOMPLETE && rx'.state != GotStx && Tracks(entries, rx', hist + [c])
  {
    hide CrcStep, Crc, CkA;
    CrcSnoc(hist, CrcExtra(entries, rx.msg.msgid));
    var (rx', framing) := FrameStep(entries, policy, rx, c, verdict);
    assert rx'.msg.payload[..rx.idx] == rx.msg.payload[..rx.idx];
    assert Body(rx'.msg, rx'.v1) == Body(rx.msg, rx.v1);
  }

  lemma CrcHighStep(entries: Entries, policy: Policy, rx: Rx, hist: seq<Byte>, c: Byte, verdict: bool)
    requires Tracks(entries, rx, hist) && (rx.state == GotCrc1 || rx.state == GotBadCrc1)
    ensures var (rx', framing) := FrameStep(entries, policy, rx, c, verdict);
            rx'.state != GotStx && SaneRx(rx') && rx'.v1 == rx.v1 && Version(rx')
            && (framing != BAD_CRC ==> Tracks(entries, rx', hist + [c]) && Checked(entries, rx'.msg, rx'.v1)
                                        && hist + [c] == Body(rx'.msg, rx'.v1) + [rx'.msg.ck0, rx'.msg.ck1])
            && (framing == OK ==> rx'.msg.incompat == 0)
  {
    hide CrcStep, Crc, CkA, CkB;
    var (rx', framing) := FrameStep(entries, policy, rx, c, verdict);
    assert Body(rx'.msg, rx'.v1) == Body(rx.msg, rx.v1);
    assert rx'.msg.signature[..0] == [];
    assert hist + [c] == Body(rx.msg, rx.v1) + [rx.msg.ck0, c];
  }

  lemma BodyUnchanged(m: Message, m': Message, v1: bool)
    requires |m.payload| == PAYLOAD_ROOM && m' == m.(ck0 := m'.ck0, ck1 := m'.ck1, signature := m'.signature)
    ensures Body(m', v1) == Body(m, v1)
  {}

  lemma SignatureStep(entries: Entries, policy: Policy, rx: Rx, hist: seq<Byte>, c: Byte, verdict: bool)
    requires Tracks(entries, rx, hist) && rx.state == SignatureWait
    ensures var (rx', framing) := FrameStep(entries, policy, rx, c, verdict);
            rx'.state != GotStx && Tracks(entries, rx', hist + [c])
            && (rx'.state == Idle ==>
                 hist + [c] == Body(rx'.msg, rx'.v1) + [rx'.msg.ck0, rx'.msg.ck1] + rx'.msg.signature
                                      && Checked(entries, rx'.msg, rx'.v1) && rx'.v1 == rx.v1 && Version(rx')
                                      && rx'.msg.incompat == 1)
            && (framing == INCOMPLETE <==> rx'.state == SignatureWait)
  {
    hide CrcStep, Crc, CkA, CkB, Body, Header;
    var (rx', framing) := FrameStep(entries, policy, rx, c, verdict);
    var k := SIGNATURE_LEN - rx.sigWait;
    BodyUnchanged(rx.msg, rx'.msg, rx.v1);
    assert rx'.msg.signature[..k + 1] == rx.msg.signature[..k] + [c];
    var front := Body(rx.msg, rx.v1) + [rx.msg.ck0, rx.msg.ck1];
    assert hist + [c] == front + rx'.msg.signature[..k + 1];
    assert k + 1 == SIGNATURE_LEN ==> rx'.msg.signature[..k + 1] == rx'.msg.signature;
  }

  /** A complete frame in the given format: header, payload, matching checksum, and the signature block if and only
      if it is flagged. */
  ghost predicate CompleteFrame(entries: Entries, m: Message, v1: bool, hist: seq<Byte>) {
    && Sane(m) && Checked(entries, m, v1) && m.incompat < 2 && (v1 ==> m.incompat == 0)
    && hist == Body(m, v1) + [m.ck0, m.ck1] + (if m.incompat == 1 then m.signature else [])
    && m.msgid < (if v1 then 0x100 else 0x100_0000)
  }

  lemma EarlySound(entries: Entries, policy: Policy, rx: Rx, hist: seq<Byte>, c: Byte, verdict: bool)
    requires Tracks(entries, rx, hist)
    requires !(rx.state in {GotCrc1, GotBadCrc1, SignatureWait})
    ensures var (rx', framing) := ParseStep(entries, policy, rx, c, verdict);
            framing == INCOMPLETE && Tracks(entries, rx', History(rx', hist, c))
  {
    hide Tracks, SaneRx;
    match rx.state
    case Uninit | Idle => IdleStep(entries, rx, hist, c);
    case GotStx | GotLength | GotIncompat | GotCompat | GotSeq | GotSysid =>
        HeaderStep(entries, policy, rx, hist, c, verdict);
    case GotCompid | GotMsgid1 | GotMsgid2 => IdStep(entries, policy, rx, hist, c, verdict);
    case GotMsgid3 => PayloadStep(entries, policy, rx, hist, c, verdict);
    case GotPayload => CrcLowStep(entries, policy, rx, hist, c, verdict);
  }

  lemma IdleStep(entries: Entries, rx: Rx, hist: seq<Byte>, c: Byte)
    requires Tracks(entries, rx, hist) && (rx.state == Idle || rx.state == Uninit)
    ensures Tracks(entries, OnIdle(rx, c), History(OnIdle(rx, c), hist, c))
  {
    CrcOfNothing(rx);
  }

  /** One byte: the parser keeps track of the bytes since the marker, and reports OK only when they are one
      complete frame, with the fields of the message it delivers. */
  lemma ParseStepSound(entries: Entries, policy: Policy, rx: Rx, hist: seq<Byte>, c: Byte, verdict: bool)
    requires Tracks(entries, rx, hist)
    ensures var (rx', framing) := ParseStep(entries, policy, rx, c, verdict);
            Tracks(entries, rx', History(rx', hist, c)) && (framing == INCOMPLETE || framing == OK)
            && (framing == OK ==> rx'.state == Idle && CompleteFrame(entries, rx'.msg, rx'.v1, hist + [c])
                                  && Permitted(policy, rx'.msg.incompat == 1, rx'.msg.msgid, verdict))
  {
    hide CrcStep, Crc, CkA, CkB, Checked, Body, Header;
    if ParseStep(entries, policy, rx, c, verdict).1 == OK { PolicyObeyed(entries, policy, rx, hist, c, verdict); }
    if rx.state in {GotCrc1, GotBadCrc1} {
      CrcHighStep(entries, policy, rx, hist, c, verdict);
      CrcOfNothing(rx);
    } else if rx.state == SignatureWait {
      SignatureStep(entries, policy, rx, hist, c, verdict);
      CrcOfNothing(rx);
    } else {
      EarlySound(entries, policy, rx, hist, c, verdict);
    }
  }

  lemma PolicyObeyed(entries: Entries, policy: Policy, rx: Rx, hist: seq<Byte>, c: Byte, verdict: bool)
    requires Tracks(entries, rx, hist) && FrameStep(entries, policy, rx, c, verdict).1 == OK
    ensures var m := FrameStep(entries, policy, rx, c, verdict).0.msg;
            Permitted(policy, m.incompat == 1, m.msgid, verdict)
  {
    hide CrcStep, Crc, CkA, CkB, Checked, Body, Header, ZeroFilled, CrcExtra;
  }

  lemma CrcOfNothing(rx: Rx)
    ensures Started(rx).msg.checksum == Crc([])
  {}

  /** The channel after a stream, and the result of its last byte. `verdicts` holds, byte by byte, what the
      signature check would answer. */
  function Parsed(entries: Entries, policy: Policy, rx: Rx, bytes: seq<Byte>, verdicts: seq<bool>): (r: (Rx, Framing))
    requires SaneRx(rx) && |verdicts| == |bytes|
    ensures SaneRx(r.0)
  {
    if bytes == [] then (rx, INCOMPLETE)
    else
      var last := |bytes| - 1;
      ParseStep(entries, policy, Parsed(entries, policy, rx, bytes[..last], verdicts[..last]).0, bytes[last],
          verdicts[last])
  }

  /** The channel after the first `j` bytes of a stream. */
  function After(entries: Entries, policy: Policy, rx: Rx, bytes: seq<Byte>, verdicts: seq<bool>, j: nat): (r: Rx)
    requires SaneRx(rx) && |verdicts| == |bytes| && j <= |bytes|
    ensures SaneRx(r)
  {
    Parsed(entries, policy, rx, bytes[..j], verdicts[..j]).0
  }

  /** The parser entered GotStx with the byte before `k`, a start marker, and has not entered it since. */
  ghost predicate LastEntered(entries: Entries, policy: Policy, rx: Rx, bytes: seq<Byte>, verdicts: seq<bool>, k: nat)
    requires SaneRx(rx) && |verdicts| == |bytes|
  {
    && 0 < k <= |bytes| && bytes[k - 1] in {STX_V1, STX_V2}
    && After(entries, policy, rx, bytes, verdicts, k).state == GotStx
    && forall j :: k < j <= |bytes| ==> After(entries, policy, rx, bytes, verdicts, j).state != GotStx
  }

  /** `k` is where the bytes the parser keeps track of begin: where it last entered GotStx, if a frame has begun. */
  ghost predicate TracksFrom(entries: Entries, policy: Policy, rx: Rx, bytes: seq<Byte>, verdicts: seq<bool>, k: nat)
    requires SaneRx(rx) && |verdicts| == |bytes|
  {
    var now := Parsed(entries, policy, rx, bytes, verdicts).0;
    k <= |bytes| && Tracks(entries, now, bytes[k..])
        && (!Quiet(now) ==> LastEntered(entries, policy, rx, bytes, verdicts, k))
  }

  lemma AfterFront(entries: Entries, policy: Policy, rx: Rx, bytes: seq<Byte>, verdicts: seq<bool>, j: nat)
    requires SaneRx(rx) && |verdicts| == |bytes| && bytes != [] && j < |bytes|
    ensures After(entries, policy, rx, bytes, verdicts, j) ==
            After(entries, policy, rx, bytes[..|bytes| - 1], verdicts[..|bytes| - 1], j)
  {
    hide Parsed;
    FrontOfFront(bytes, |bytes| - 1, j);
    FrontOfFront(verdicts, |bytes| - 1, j);
  }

  lemma FrontOfFront<T>(s: seq<T>, n: nat, j: nat)
    requires j <= n <= |s|
    ensures s[..n][..j] == s[..j]
  {}

  lemma AfterAll(entries: Entries, policy: Policy, rx: Rx, bytes: seq<Byte>, verdicts: seq<bool>)
    requires SaneRx(rx) && |verdicts| == |bytes|
    ensures After(entries, policy, rx, bytes, verdicts, |bytes|) == Parsed(entries, policy, rx, bytes, verdicts).0
  {
    hide Parsed;
    assert bytes[..|bytes|] == bytes && verdicts[..|bytes|] == verdicts;
  }

  /** Another byte that does not begin a frame leaves the last entry of GotStx where it was. */
  lemma StillEntered(entries: Entries, policy: Policy, rx: Rx, bytes: seq<Byte>, verdicts: seq<bool>, k: nat)
    requires SaneRx(rx) && |verdicts| == |bytes| && bytes != []
    requires LastEntered(entries, policy, rx, bytes[..|bytes| - 1], verdicts[..|bytes| - 1], k)
    requires Parsed(entries, policy, rx, bytes, verdicts).0.state != GotStx
    ensures LastEntered(entries, policy, rx, bytes, verdicts, k)
  {
    hide After, Parsed;
    var last := |bytes| - 1;
    AfterFront(entries, policy, rx, bytes, verdicts, k);
    AfterAll(entries, policy, rx, bytes, verdicts);
    forall j | k < j <= |bytes|
      ensures After(entries, policy, rx, bytes, verdicts, j).state != GotStx
    {
      if j < |bytes| { AfterFront(entries, policy, rx, bytes, verdicts, j); }
    }
  }

  lemma NowEntered(entries: Entries, policy: Policy, rx: Rx, bytes: seq<Byte>, verdicts: seq<bool>)
    requires SaneRx(rx) && |verdicts| == |bytes| && bytes != [] && bytes[|bytes| - 1] in {STX_V1, STX_V2}
    requires Parsed(entries, policy, rx, bytes, verdicts).0.state == GotStx
    ensures LastEntered(entries, policy, rx, bytes, verdicts, |bytes|)
  {
    hide Parsed;
    AfterAll(entries, policy, rx, bytes, verdicts);
  }

  lemma OneMoreByte(entries: Entries, policy: Policy, rx: Rx, bytes: seq<Byte>, verdicts: seq<bool>, k: nat)
    returns (k': nat)
    requires SaneRx(rx) && |verdicts| == |bytes| && bytes != []
    requires TracksFrom(entries, policy, rx, bytes[..|bytes| - 1], verdicts[..|bytes| - 1], k)
    ensures TracksFrom(entries, policy, rx, bytes, verdicts, k')
  {
    hide Tracks, ParseStep, SaneRx, LastEntered, Quiet;
    var last := |bytes| - 1;
    var mid := Parsed(entries, policy, rx, bytes[..last], verdicts[..last]).0;
    var now := Parsed(entries, policy, rx, bytes, verdicts).0;
    assert now == ParseStep(entries, policy, mid, bytes[last], verdicts[last]).0;
    ParseStepSound(entries, policy, mid, bytes[..last][k..], bytes[last], verdicts[last]);
    MarkerStarts(entries, policy, mid, bytes[last], verdicts[last]);
    if now.state == GotStx {
      k' := |bytes|;
      assert bytes[k'..] == [];
      NowEntered(entries, policy, rx, bytes, verdicts);
    } else {
      k' := k;
      assert bytes[k..] == bytes[..last][k..] + [bytes[last]];
      if !Quiet(now) { StillEntered(entries, policy, rx, bytes, verdicts, k); }
    }
  }

  lemma {:induction false} StreamTracked(entries: Entries, policy: Policy, rx: Rx, bytes: seq<Byte>,
                                         verdicts: seq<bool>) returns (k: nat)
    requires SaneRx(rx) && |verdicts| == |bytes| && Quiet(rx)
    ensures TracksFrom(entries, policy, rx, bytes, verdicts, k)
  {
    hide TracksFrom, ParseStep, SaneRx, Quiet;
    if bytes == [] {
      k := 0;
      IdleTracks(entries, policy, rx);
    } else {
      var last := |bytes| - 1;
      k := StreamTracked(entries, policy, rx, bytes[..last], verdicts[..last]);
      k := OneMoreByte(entries, policy, rx, bytes, verdicts, k);
    }
  }

  lemma IdleTracks(entries: Entries, policy: Policy, rx: Rx)
    requires SaneRx(rx) && Quiet(rx)
    ensures TracksFrom(entries, policy, rx, [], [], 0)
  {}

  /** Only a start marker begins a frame, and only beginning one leaves the idle state. */
  lemma MarkerStarts(entries: Entries, policy: Policy, rx: Rx, c: Byte, verdict: bool)
    requires SaneRx(rx)
    ensures var rx' := ParseStep(entries, policy, rx, c, verdict).0;
            (rx'.state == GotStx ==> c in {STX_V1, STX_V2}) && (Quiet(rx) && !Quiet(rx') ==> rx'.state == GotStx)
  {
    hide CrcStep, ZeroFilled, CrcExtra;
  }

  /** Parser soundness: whatever bytes arrive on a channel that was idle, OK is reported only when the bytes since the
      parser last entered GotStx are one complete frame in the format of the version flag, with a matching checksum and
      the signature block if and only if it is flagged, the delivered message has the fields of that frame, and signing
      permits it. */
  lemma OnlyCompleteFramesAreAccepted(entries: Entries, policy: Policy, rx: Rx, bytes: seq<Byte>, verdicts: seq<bool>)
    returns (k: nat)
    requires SaneRx(rx) && |verdicts| == |bytes| && Quiet(rx)
    requires Parsed(entries, policy, rx, bytes, verdicts).1 == OK
    ensures LastEntered(entries, policy, rx, bytes, verdicts, k)
    ensures var rx' := Parsed(entries, policy, rx, bytes, verdicts).0;
            CompleteFrame(entries, rx'.msg, rx'.v1, bytes[k..])
            && Permitted(policy, rx'.msg.incompat == 1, rx'.msg.msgid, verdicts[|bytes| - 1])
  {
    hide Tracks, ParseStep, CompleteFrame, LastEntered;
    var last := |bytes| - 1;
    k := StreamTracked(entries, policy, rx, bytes[..last], verdicts[..last]);
    var mid := Parsed(entries, policy, rx, bytes[..last], verdicts[..last]).0;
    ParseStepSound(entries, policy, mid, bytes[..last][k..], bytes[last], verdicts[last]);
    assert bytes[k..] == bytes[..last][k..] + [bytes[last]];
    if Quiet(mid) { IdleNeverAccepts(entries, policy, mid, bytes[last], verdicts[last]); }
    StillEntered(entries, policy, rx, bytes, verdicts, k);
  }

  lemma IdleNeverAccepts(entries: Entries, policy: Policy, rx: Rx, c: Byte, verdict: bool)
    requires SaneRx(rx) && Quiet(rx)
    ensures ParseStep(entries, policy, rx, c, verdict).1 == INCOMPLETE
  {}

  // ---- Framing without the reset ----

  /** `mavlink_frame_char` used on its own: nothing resets the parser after a bad checksum. */
  function Framed(entries: Entries, policy: Policy, rx: Rx, bytes: seq<Byte>, verdicts: seq<bool>): (r: (Rx, Framing))
    requires SaneRx(rx) && |verdicts| == |bytes|
    ensures SaneRx(r.0)
  {
    if bytes == [] then (rx, INCOMPLETE)
    else
      var last := |bytes| - 1;
      FrameStep(entries, policy, Framed(entries, policy, rx, bytes[..last], verdicts[..last]).0, bytes[last],
          verdicts[last])
  }

  lemma {:induction false} BareSignature(entries: Entries, policy: Policy, rx: Rx, bytes: seq<Byte>,
                                         verdicts: seq<bool>)
    requires SaneRx(rx) && (rx.state == GotCrc1 || rx.state == GotBadCrc1) && rx.msg.incompat % 2 == 1
    requires 1 <= |bytes| <= SIGNATURE_LEN && |verdicts| == |bytes|
    ensures var rx' := Framed(entries, policy, rx, bytes, verdicts).0;
            rx'.state == SignatureWait && rx'.sigWait == SIGNATURE_LEN + 1 - |bytes| && rx'.msg.msgid == rx.msg.msgid
  {
    hide CrcStep, ZeroFilled, CkB;
    var last := |bytes| - 1;
    if last > 0 {
      BareSignature(entries, policy, rx, bytes[..last], verdicts[..last]);
    } else {
      assert Framed(entries, policy, rx, bytes[..last], verdicts[..last]).0 == rx;
    }
  }

  /** Used on its own, the framing accepts a signed frame exactly when its signature is accepted, whether or not the
      checksum was right: the first checksum byte may already have been wrong, and the second, `bytes[0]`, may be any.
      */
  lemma BareFramingIgnoresChecksum(entries: Entries, policy: Policy, rx: Rx, bytes: seq<Byte>, verdicts: seq<bool>)
    requires SaneRx(rx) && (rx.state == GotCrc1 || rx.state == GotBadCrc1) && rx.msg.incompat % 2 == 1
    requires |bytes| == |verdicts| == SIGNATURE_LEN + 1
    ensures Framed(entries, policy, rx, bytes, verdicts).1 == OK <==>
              verdicts[SIGNATURE_LEN] || policy.acceptUnsigned(rx.msg.msgid)
  {
    hide CrcStep, ZeroFilled, CkB;
    BareSignature(entries, policy, rx, bytes[..SIGNATURE_LEN], verdicts[..SIGNATURE_LEN]);
  }

  /** Without the reset, the checksum of a signed frame may be wrong. */
  ghost predicate BareTracks(entries: Entries, rx: Rx, hist: seq<Byte>) {
    if rx.state == SignatureWait then
      SaneRx(rx) && Version(rx) && rx.msg.incompat == 1 && rx.idx == rx.msg.len
      && hist == Body(rx.msg, rx.v1) + [rx.msg.ck0, rx.msg.ck1] + rx.msg.signature[..SIGNATURE_LEN - rx.sigWait]
    else Tracks(entries, rx, hist)
  }

  /** A frame as the bare framing accepts it: complete, and with a matching checksum unless it is signed. */
  ghost predicate BareFrame(entries: Entries, m: Message, v1: bool, hist: seq<Byte>) {
    && Sane(m) && m.incompat < 2 && (v1 ==> m.incompat == 0) && m.msgid < (if v1 then 0x100 else 0x100_0000)
    && hist == Body(m, v1) + [m.ck0, m.ck1] + (if m.incompat == 1 then m.signature else [])
    && (m.incompat == 0 ==> Checked(entries, m, v1))
  }

  lemma BareChecksum(entries: Entries, policy: Policy, rx: Rx, hist: seq<Byte>, c: Byte, verdict: bool)
    requires Tracks(entries, rx, hist) && (rx.state == GotCrc1 || rx.state == GotBadCrc1)
    ensures var (rx', framing) := FrameStep(entries, policy, rx, c, verdict);
            && rx'.state != GotStx && BareTracks(entries, rx', hist + [c])
            && (framing == OK ==> BareFrame(entries, rx'.msg, rx'.v1, hist + [c]))
  {
    hide CrcStep, Crc, CkA, CkB, Header, Checked;
    CrcHighStep(entries, policy, rx, hist, c, verdict);
    var rx' := FrameStep(entries, policy, rx, c, verdict).0;
    assert Body(rx'.msg, rx'.v1) == Body(rx.msg, rx.v1) by { BodyUnchanged(rx.msg, rx'.msg, rx.v1); }
    assert rx'.msg.signature[..0] == [];
    assert hist + [c] == Body(rx.msg, rx.v1) + [rx.msg.ck0, c];
  }

  lemma BareSignatureStep(entries: Entries, policy: Policy, rx: Rx, hist: seq<Byte>, c: Byte, verdict: bool)
    requires BareTracks(entries, rx, hist) && rx.state == SignatureWait
    ensures var (rx', framing) := FrameStep(entries, policy, rx, c, verdict);
            && rx'.state != GotStx && BareTracks(entries, rx', hist + [c])
            && (framing == OK ==> BareFrame(entries, rx'.msg, rx'.v1, hist + [c]))
  {
    hide CrcStep, Crc, CkA, CkB, Body, Header, Checked;
    var rx' := FrameStep(entries, policy, rx, c, verdict).0;
    var k := SIGNATURE_LEN - rx.sigWait;
    BodyUnchanged(rx.msg, rx'.msg, rx.v1);
    assert rx'.msg.signature[..k + 1] == rx.msg.signature[..k] + [c];
    var front := Body(rx.msg, rx.v1) + [rx.msg.ck0, rx.msg.ck1];
    assert hist + [c] == front + rx'.msg.signature[..k + 1];
    assert k + 1 == SIGNATURE_LEN ==> rx'.msg.signature[..k + 1] == rx'.msg.signature;
  }

  lemma BareStep(entries: Entries, policy: Policy, rx: Rx, hist: seq<Byte>, c: Byte, verdict: bool)
    requires SaneRx(rx) && BareTracks(entries, rx, hist)
    ensures var (rx', framing) := FrameStep(entries, policy, rx, c, verdict);
            && BareTracks(entries, rx', History(rx', hist, c))
            && (framing == OK ==> rx'.state != GotStx && BareFrame(entries, rx'.msg, rx'.v1, hist + [c]))
            && (rx'.state == GotStx ==> c in {STX_V1, STX_V2}) && (Quiet(rx) && !Quiet(rx') ==> rx'.state == GotStx)
            && (framing == OK ==> !Quiet(rx))
  {
    hide Tracks, SaneRx, BareFrame, CrcStep, ZeroFilled, Summed;
    match rx.state
    case Uninit | Idle => IdleStep(entries, rx, hist, c);
    case GotStx | GotLength | GotIncompat | GotCompat | GotSeq | GotSysid =>
        HeaderStep(entries, policy, rx, hist, c, verdict);
    case GotCompid | GotMsgid1 | GotMsgid2 => IdStep(entries, policy, rx, hist, c, verdict);
    case GotMsgid3 => PayloadStep(entries, policy, rx, hist, c, verdict);
    case GotPayload => CrcLowStep(entries, policy, rx, hist, c, verdict);
    case GotCrc1 | GotBadCrc1 => BareChecksum(entries, policy, rx, hist, c, verdict);
    case SignatureWait => BareSignatureStep(entries, policy, rx, hist, c, verdict);
  }

  lemma {:induction false} BareTracked(entries: Entries, policy: Policy, rx: Rx, bytes: seq<Byte>,
                                       verdicts: seq<bool>) returns (k: nat)
    requires SaneRx(rx) && |verdicts| == |bytes| && Quiet(rx)
    ensures var now := Framed(entries, policy, rx, bytes, verdicts).0;
            k <= |bytes| && BareTracks(entries, now, bytes[k..])
                && (!Quiet(now) ==> 0 < k && bytes[k - 1] in {STX_V1, STX_V2})
  {
    hide BareTracks, FrameStep, SaneRx, Quiet, BareFrame;
    if bytes == [] {
      k := 0;
      assert BareTracks(entries, rx, []) by { BareIdle(entries, rx); }
    } else {
      var last := |bytes| - 1;
      k := BareTracked(entries, policy, rx, bytes[..last], verdicts[..last]);
      var mid := Framed(entries, policy, rx, bytes[..last], verdicts[..last]).0;
      BareStep(entries, policy, mid, bytes[..last][k..], bytes[last], verdicts[last]);
      if FrameStep(entries, policy, mid, bytes[last], verdicts[last]).0.state == GotStx {
        k := |bytes|;
        assert bytes[k..] == [];
      } else {
        assert bytes[k..] == bytes[..last][k..] + [bytes[last]];
      }
    }
  }

  lemma BareIdle(entries: Entries, rx: Rx)
    requires SaneRx(rx) && Quiet(rx)
    ensures BareTracks(entries, rx, [])
  {}

  /** Over any stream, what the bare framing accepts is a complete frame behind a start marker, and its checksum matches
      unless it is signed. */
  lemma BareFramingAcceptsFrames(entries: Entries, policy: Policy, rx: Rx, bytes: seq<Byte>, verdicts: seq<bool>)
    returns (k: nat)
    requires SaneRx(rx) && |verdicts| == |bytes| && Quiet(rx)
    requires Framed(entries, policy, rx, bytes, verdicts).1 == OK
    ensures 0 < k <= |bytes| && bytes[k - 1] in {STX_V1, STX_V2}
    ensures var rx' := Framed(entries, policy, rx, bytes, verdicts).0; BareFrame(entries, rx'.msg, rx'.v1, bytes[k..])
  {
    hide BareTracks, FrameStep, BareFrame, Quiet;
    var last := |bytes| - 1;
    k := BareTracked(entries, policy, rx, bytes[..last], verdicts[..last]);
    var mid := Framed(entries, policy, rx, bytes[..last], verdicts[..last]).0;
    BareStep(entries, policy, mid, bytes[..last][k..], bytes[last], verdicts[last]);
    assert bytes[k..] == bytes[..last][k..] + [bytes[last]];
  }
}
