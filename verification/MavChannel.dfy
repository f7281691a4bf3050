/**
 The MAVLink code on its own state: message records with their payload buffers, the parser working on one
 record field by field, the encoder, and the bisection in the message table.
 */
module MavChannel {
  import opened MavFrame
  import opened MavSigning
  import MavRoundTrip
  import Checksum

  /** `mavlink_message_t`. */
  class MessageRecord {
    var checksum: bv16
    var magic: Byte
    var len: Byte
    var incompat: Byte
    var compat: Byte
    var seq_: Byte
    var sysid: Byte
    var compid: Byte
    var msgid: nat
    const payload: array<Byte>
    var ck0: Byte
    var ck1: Byte
    const signature: array<Byte>

    ghost predicate Valid()
    {
      payload.Length == PAYLOAD_ROOM && signature.Length == SIGNATURE_LEN && payload != signature
    }

    constructor ()
      ensures Valid() && fresh(payload) && fresh(signature)
    {
      checksum, magic, len, incompat, compat, seq_, sysid, compid, msgid, ck0, ck1 := 0, 0, 0, 0, 0, 0, 0, 0, 0, 0, 0;
      payload := new Byte[PAYLOAD_ROOM](_ => 0);
      signature := new Byte[SIGNATURE_LEN](_ => 0);
    }

    function View(): (m: Message)
      reads this, payload, signature
      ensures Valid() ==> Sane(m)
    {
      Message(checksum, magic, len, incompat, compat, seq_, sysid, compid, msgid, payload[..], ck0, ck1, signature[..])
    }

    method StartChecksum()
      modifies this`checksum
      ensures View() == old(View()).(checksum := Checksum.X25_INIT_CRC)
    {
      checksum := Checksum.X25_INIT_CRC;
    }

    /** One more byte into the checksum, by shifts and exclusive-ors. */
    method UpdateChecksum(c: Byte)
      modifies this`checksum
      ensures View() == old(Summed(View(), c))
    {
      hide Checksum.SerialByte, Checksum.Accumulated;
      Checksum.AccumulatedIsSerial(checksum, c as bv8);
      checksum := Checksum.Accumulated(checksum, c as bv8);
    }

    method SetPayload(i: nat, c: Byte)
      requires Valid() && i < PAYLOAD_ROOM
      modifies payload
      ensures View() == old(View().(payload := View().payload[i := c]))
    {
      payload[i] := c;
    }

    method SetSignature(i: nat, c: Byte)
      requires Valid() && i < SIGNATURE_LEN
      modifies signature
      ensures View() == old(View().(signature := View().signature[i := c]))
    {
      signature[i] := c;
    }

    method CopySignature(block: seq<Byte>)
      requires Valid() && |block| == SIGNATURE_LEN
      modifies signature
      ensures View() == old(View().(signature := block))
    {
      forall i | 0 <= i < SIGNATURE_LEN {
        signature[i] := block[i];
      }
      assert signature[..] == block;
    }

    /** Clears the payload from `from` up to `limit`. */
    method ZeroFill(from: nat, limit: nat)
      requires Valid() && limit <= PAYLOAD_ROOM
      modifies payload
      ensures View() == old(View().(payload := ZeroFilled(View().payload, from, limit)))
    {
      ghost var before := payload[..];
      forall i | from <= i < limit {
        payload[i] := 0;
      }
      assert payload[..] == ZeroFilled(before, from, limit);
    }
  }

  // ---- The message table ----

  datatype TableEntry = TableEntry(msgid: nat, entry: Entry)

  datatype Lookup = Found(entry: Entry) | Absent | Overrun

  ghost predicate Sorted(table: seq<TableEntry>) {
    forall i, j :: 0 <= i < j < |table| ==> table[i].msgid < table[j].msgid
  }

  /** The known messages of a table. */
  ghost function EntriesOf(table: seq<TableEntry>): Entries
    requires Sorted(table)
  {
    if table == [] then map[] else EntriesOf(table[..|table| - 1])[table[|table| - 1].msgid := table[|table| - 1].entry]
  }

  lemma {:induction false} EntriesAre(table: seq<TableEntry>, msgid: nat)
    requires Sorted(table)
    ensures msgid in EntriesOf(table) <==> exists i :: 0 <= i < |table| && table[i].msgid == msgid
    ensures forall i :: 0 <= i < |table| && table[i].msgid == msgid ==> EntriesOf(table)[msgid] == table[i].entry
  {
    if table != [] {
      var last := |table| - 1;
      EntriesAre(table[..last], msgid);
      assert forall i :: 0 <= i < last ==> table[..last][i] == table[i];
    }
  }

  /** The bisection starts with its upper end one past the table. For a sorted table with at least two entries it reads
      past the end (`Overrun`) exactly for ids above the last entry; for all others it finds what the table holds. */
  method FindEntry(table: array<TableEntry>, msgid: nat) returns (r: Lookup)
    requires Sorted(table[..]) && table.Length >= 1
    ensures r.Overrun? <==> table.Length == 1 || msgid > table[table.Length - 1].msgid
    ensures !r.Overrun? ==> r == if msgid in EntriesOf(table[..]) then Found(EntriesOf(table[..])[msgid]) else Absent
  {
    hide EntriesOf;
    var low, high := 0, table.Length;
    assert forall i, j :: 0 <= i < j < table.Length ==> table[..][i].msgid < table[..][j].msgid;
    while low < high
      invariant 0 <= low <= high <= table.Length && low < table.Length
      invariant table.Length == 1 ==> low == 0 && high == 1
      invariant low > 0 ==> table[low].msgid < msgid
      invariant high == table.Length || (high + 1 < table.Length && msgid < table[high + 1].msgid)
      decreases high - low
    {
      var mid := (low + 1 + high) / 2;
      if mid == table.Length {
        return Overrun;
      }
      if msgid < table[mid].msgid {
        high := mid - 1;
      } else if msgid > table[mid].msgid {
        low := mid;
      } else {
        EntriesAre(table[..], msgid);
        return Found(table[mid].entry);
      }
    }
    EntriesAre(table[..], msgid);
    r := if table[low].msgid != msgid then Absent else Found(table[low].entry);
  }

  // ---- The parser ----

  /** What the signature check answers for a message. */
  ghost function CheckAnswer(hash: Hash, signing: Signing?, streams: SigningStreams?, m: Message): bool
    requires Sane(m) && (streams != null ==> streams.Valid())
    reads signing, streams, if streams == null then null else streams.stream
  {
    signing == null || (streams != null && Verdict(hash, MavSigning.View(signing, streams), m))
  }

  /** `mavlink_status_t` with the record the frame is read into. */
  class Channel {
    var state: ParseState
    var inMavlink1: bool
    var idx: nat
    var sigWait: nat
    const rxmsg: MessageRecord
    const signing: Signing?
    const streams: SigningStreams?
    const acceptUnsigned: nat -> bool

    constructor (rxmsg: MessageRecord, signing: Signing?, streams: SigningStreams?, acceptUnsigned: nat -> bool)
      requires rxmsg.Valid()
      requires streams != null ==>
                 streams.Valid() && streams.stream as object != rxmsg.payload
                     && streams.stream as object != rxmsg.signature
      ensures Valid() && this.rxmsg == rxmsg && this.signing == signing && this.streams == streams
      ensures Quiet(View())
    {
      state, inMavlink1, idx, sigWait := Uninit, false, 0, 0;
      this.rxmsg, this.signing, this.streams, this.acceptUnsigned := rxmsg, signing, streams, acceptUnsigned;
    }

    ghost function View(): Rx
      reads this, rxmsg, rxmsg.payload, rxmsg.signature
    {
      Rx(state, inMavlink1, idx, sigWait, rxmsg.View())
    }

    ghost function Pol(): Policy { Policy(signing != null, acceptUnsigned) }

    ghost predicate Valid()
      reads this, rxmsg, rxmsg.payload, rxmsg.signature, streams, if streams == null then null else streams.stream
    {
      rxmsg.Valid() && SaneRx(View()) && (streams != null ==> streams.Valid())
    }

    method Start(c: Byte)
      requires rxmsg.Valid()
      modifies this, rxmsg
      ensures View() == old(Started(View().(msg := View().msg.(magic := c))))
    {
      state := GotStx;
      rxmsg.len := 0;
      rxmsg.magic := c;
      rxmsg.StartChecksum();
    }

    method AwaitMarker(c: Byte)
      requires rxmsg.Valid() && Quiet(View())
      modifies this, rxmsg
      ensures View() == old(OnIdle(View(), c))
    {
      hide Started;
      if c == STX_V2 {
        inMavlink1 := false;
        Start(c);
      } else if c == STX_V1 {
        inMavlink1 := true;
        Start(c);
      }
    }

    method ReadLength(c: Byte)
      requires rxmsg.Valid()
      modifies this, rxmsg
      ensures View() == old(OnStx(View(), c))
    {
      rxmsg.len := c;
      idx := 0;
      rxmsg.UpdateChecksum(c);
      if inMavlink1 {
        rxmsg.incompat := 0;
        rxmsg.compat := 0;
        state := GotCompat;
      } else {
        state := GotLength;
      }
    }

    method IncompatFlags(c: Byte)
      requires rxmsg.Valid()
      modifies this, rxmsg
      ensures View() == old(OnLength(View(), c))
    {
      rxmsg.incompat := c;
      if c / 2 != 0 {
        state := Idle;
        return;
      }
      rxmsg.UpdateChecksum(c);
      state := GotIncompat;
    }

    /** After the header comes the payload, if there is one. */
    method EndHeader()
      modifies this`state
      ensures View() == old(AfterHeader(View()))
    {
      state := if rxmsg.len > 0 then GotMsgid3 else GotPayload;
    }

    method MessageId(c: Byte)
      requires rxmsg.Valid()
      modifies this, rxmsg
      ensures View() == old(OnCompid(View(), c))
    {
      hide Summed;
      rxmsg.msgid := c;
      rxmsg.UpdateChecksum(c);
      if inMavlink1 {
        EndHeader();
      } else {
        state := GotMsgid1;
      }
    }

    method MessageId1(c: Byte)
      requires rxmsg.Valid()
      modifies this, rxmsg
      ensures View() == old(OnMsgid1(View(), c))
    {
      hide Summed;
      rxmsg.msgid := rxmsg.msgid + 0x100 * c;
      rxmsg.UpdateChecksum(c);
      state := GotMsgid2;
    }

    method MessageId2(c: Byte)
      requires rxmsg.Valid()
      modifies this, rxmsg
      ensures View() == old(OnMsgid2(View(), c))
    {
      hide Summed;
      rxmsg.msgid := rxmsg.msgid + 0x1_0000 * c;
      rxmsg.UpdateChecksum(c);
      EndHeader();
    }

    method ReadPayload(c: Byte)
      requires rxmsg.Valid() && idx < PAYLOAD_ROOM
      modifies this, rxmsg, rxmsg.payload
      ensures View() == old(OnPayloadByte(View(), c))
    {
      hide Summed;
      rxmsg.SetPayload(idx, c);
      idx := idx + 1;
      rxmsg.UpdateChecksum(c);
      if idx == rxmsg.len {
        state := GotPayload;
      }
    }

    /** First checksum byte; `e` is the message table's entry for the id, if any. */
    method ChecksumLow(entries: Entries, c: Byte)
      requires rxmsg.Valid()
      modifies this, rxmsg, rxmsg.payload
      ensures View() == old(OnCrcLow(entries, View(), c))
    {
      hide Summed, ZeroFilled, CkA;
      rxmsg.UpdateChecksum(CrcExtra(entries, rxmsg.msgid));
      state := if c != CkA(rxmsg.checksum) then GotBadCrc1 else GotCrc1;
      rxmsg.ck0 := c;
      NothingToFill(rxmsg.payload[..], idx);
      if rxmsg.msgid in entries && idx < entries[rxmsg.msgid].msgLen {
        rxmsg.ZeroFill(idx, entries[rxmsg.msgid].msgLen);
      }
    }

    /** Second checksum byte. */
    method ChecksumHigh(c: Byte) returns (framing: Framing)
      requires rxmsg.Valid() && state in {GotCrc1, GotBadCrc1}
      modifies this, rxmsg
      ensures (View(), framing) == old(OnCrcHigh(Pol(), View(), c))
    {
      hide CkB;
      framing := if state == GotBadCrc1 || c != CkB(rxmsg.checksum) then BAD_CRC else OK;
      rxmsg.ck1 := c;
      if rxmsg.incompat % 2 == 1 {
        state := SignatureWait;
        sigWait := SIGNATURE_LEN;
        if framing != BAD_CRC {
          framing := INCOMPLETE;
        }
      } else {
        if signing != null && !acceptUnsigned(rxmsg.msgid) && framing != BAD_CRC {
          framing := BAD_SIGNATURE;
        }
        state := Idle;
      }
    }

    /** One byte of the signature; the last one has the message checked. */
    method SignatureByte(hash: Hash, c: Byte) returns (framing: Framing)
      requires Valid() && state == SignatureWait
      modifies this, rxmsg.signature, signing, streams, if streams == null then null else streams.stream
      ensures (View(), framing) ==
                old(OnSignature(Pol(), View(), c, CheckAnswer(hash, signing, streams, CheckedMessage(View(), c))))
      ensures Verified(hash, old(sigWait) == 1, old(CheckedMessage(View(), c)))
    {
      rxmsg.SetSignature(SIGNATURE_LEN - sigWait, c);
      sigWait := sigWait - 1;
      framing := INCOMPLETE;
      if sigWait == 0 {
        framing := CheckSignature(hash);
        state := Idle;
      }
    }

    /** What a call leaves of the signing state: as the check leaves it if a message was checked, else unchanged. */
    twostate predicate Verified(hash: Hash, checked: bool, m: Message)
      requires Sane(m)
      reads signing, streams, if streams == null then null else streams.stream
    {
      && (streams != null ==> streams.Valid())
      && (streams != null && signing != null ==>
            old(streams.Valid()) && MavSigning.View(signing, streams) ==
            if checked then Next(hash, old(MavSigning.View(signing, streams)), m)
                else old(MavSigning.View(signing, streams)))
    }

    method CheckSignature(hash: Hash) returns (framing: Framing)
      requires rxmsg.Valid() && (streams != null ==> streams.Valid())
      modifies signing, streams, if streams == null then null else streams.stream
      ensures framing == if old(CheckAnswer(hash, signing, streams, rxmsg.View())) || acceptUnsigned(rxmsg.msgid)
              then OK else BAD_SIGNATURE
      ensures Verified(hash, true, rxmsg.View())
    {
      var ok := SignatureCheck(hash, signing, streams, rxmsg.View());
      if !ok && acceptUnsigned(rxmsg.msgid) {
        ok := true;
      }
      framing := if ok then OK else BAD_SIGNATURE;
    }

    /** States in which a byte yields no result: one byte of marker, header, payload, or the first of the checksum. */
    method Advance(entries: Entries, c: Byte)
      requires rxmsg.Valid() && SaneRx(View()) && state !in {GotCrc1, GotBadCrc1, SignatureWait}
      modifies this, rxmsg, rxmsg.payload
      ensures forall verdict :: (View(), INCOMPLETE) == old(FrameStep(entries, Pol(), View(), c, verdict))
    {
      hide OnIdle, OnStx, OnLength, OnCompid, OnMsgid1, OnMsgid2, OnPayloadByte, OnCrcLow, Summed;
      match state
      case Uninit | Idle => AwaitMarker(c);
      case GotStx => ReadLength(c);
      case GotLength => IncompatFlags(c);
      case GotCompid => MessageId(c);
      case GotMsgid1 => MessageId1(c);
      case GotMsgid2 => MessageId2(c);
      case GotMsgid3 => ReadPayload(c);
      case GotPayload => ChecksumLow(entries, c);
      case GotIncompat =>
        rxmsg.compat := c;
        rxmsg.UpdateChecksum(c);
        state := GotCompat;
      case GotCompat =>
        rxmsg.seq_ := c;
        rxmsg.UpdateChecksum(c);
        state := GotSeq;
      case GotSeq =>
        rxmsg.sysid := c;
        rxmsg.UpdateChecksum(c);
        state := GotSysid;
      case GotSysid =>
        rxmsg.compid := c;
        rxmsg.UpdateChecksum(c);
        state := GotCompid;
    }

    /** The verdict on the message that a byte would complete. */
    ghost function VerdictOn(hash: Hash, c: Byte): bool
      requires Valid()
      reads this, rxmsg, rxmsg.payload, rxmsg.signature, signing, streams,
            if streams == null then null else streams.stream
    {
      CheckAnswer(hash, signing, streams, CheckedMessage(View(), c))
    }

    /** `mavlink_frame_char_buffer`. */
    method FrameChar(entries: Entries, hash: Hash, c: Byte) returns (framing: Framing)
      requires Valid()
      modifies this, rxmsg, rxmsg.payload, rxmsg.signature, signing, streams,
               if streams == null then null else streams.stream
      ensures (View(), framing) == old(FrameStep(entries, Pol(), View(), c, VerdictOn(hash, c)))
      ensures Verified(hash, old(state == SignatureWait && sigWait == 1), old(CheckedMessage(View(), c)))
      ensures Valid()
    {
      hide OnIdle, OnStx, OnLength, OnCompid, OnMsgid1, OnMsgid2, OnPayloadByte, OnCrcLow, OnCrcHigh, OnSignature,
          Summed, Verdict, Next;
      framing := INCOMPLETE;
      if state in {GotCrc1, GotBadCrc1} {
        framing := ChecksumHigh(c);
      } else if state == SignatureWait {
        framing := SignatureByte(hash, c);
      } else {
        Advance(entries, c);
      }
    }

    /** `mavlink_parse_char`. */
    method ParseChar(entries: Entries, hash: Hash, c: Byte) returns (framing: Framing)
      requires Valid()
      modifies this, rxmsg, rxmsg.payload, rxmsg.signature, signing, streams,
               if streams == null then null else streams.stream
      ensures (View(), framing) == old(ParseStep(entries, Pol(), View(), c, VerdictOn(hash, c)))
      ensures Verified(hash, old(state == SignatureWait && sigWait == 1), old(CheckedMessage(View(), c)))
      ensures Valid()
    {
      hide FrameStep, Next, Verdict, Started, SaneRx;
      framing := FrameChar(entries, hash, c);
      if framing == BAD_CRC || framing == BAD_SIGNATURE {
        framing := INCOMPLETE;
        Reset(c);
      }
    }

    /** After a parse failure: idle, or at the start of a frame if the byte is the version 2 start marker. */
    method Reset(c: Byte)
      requires rxmsg.Valid()
      modifies this, rxmsg
      ensures View() == if c == STX_V2 then old(Started(View())) else old(View()).(state := Idle)
    {
      state := Idle;
      if c == STX_V2 {
        state := GotStx;
        rxmsg.len := 0;
        rxmsg.StartChecksum();
      }
    }
  }

  lemma NothingToFill(p: seq<Byte>, n: nat)
    ensures forall limit: nat :: n >= limit && limit <= |p| ==> ZeroFilled(p, n, limit) == p
  {}

  // ---- The encoder ----

  /** Drops trailing zero bytes, but keeps the first byte. */
  method TrimPayload(payload: array<Byte>, n: Byte) returns (length: Byte)
    requires n <= payload.Length
    ensures length == MavRoundTrip.TrimmedLength(payload[..], n)
  {
    length := n;
    while length > 1 && payload[length - 1] == 0
      invariant length <= n
      invariant MavRoundTrip.TrimmedLength(payload[..], length) == MavRoundTrip.TrimmedLength(payload[..], n)
    {
      length := length - 1;
    }
  }

  /** The checksum of `bytes`, going on from that of `done`. */
  method AccumulateBytes(crc0: bv16, ghost done: seq<Byte>, bytes: seq<Byte>) returns (crc: bv16)
    requires crc0 == Crc(done)
    ensures crc == Crc(done + bytes)
  {
    hide Crc, Checksum.Accumulated, Checksum.SerialByte;
    crc := crc0;
    var i := 0;
    assert done + bytes[..0] == done;
    while i < |bytes|
      invariant i <= |bytes| && crc == Crc(done + bytes[..i])
    {
      Checksum.AccumulatedIsSerial(crc, bytes[i] as bv8);
      CrcSnoc(done + bytes[..i], bytes[i]);
      assert done + bytes[..i] + [bytes[i]] == done + bytes[..i + 1];
      crc := Checksum.Accumulated(crc, bytes[i] as bv8);
      i := i + 1;
    }
    assert bytes[..i] == bytes;
  }

  /** The outgoing part of a channel's status. */
  class Outgoing {
    var mavlink1: bool
    var txSeq: Byte
    const signing: Signing?

    constructor (mavlink1: bool, signing: Signing?)
      ensures this.mavlink1 == mavlink1 && this.signing == signing && txSeq == 0
    {
      this.mavlink1, this.txSeq, this.signing := mavlink1, 0, signing;
    }

    ghost function Sending(sysid: Byte, compid: Byte, minLength: Byte, length: Byte): MavRoundTrip.Send
      reads this, signing
    {
      MavRoundTrip.Send(mavlink1, sysid, compid, txSeq, minLength, length, signing != null && signing.signOutgoing)
    }

    /** Header fields of a message about to be sent; the sequence number advances modulo 256. */
    method FillHeader(msg: MessageRecord, sysid: Byte, compid: Byte, minLength: Byte, length: Byte, signed: bool)
      requires msg.Valid()
      modifies this`txSeq, msg
      ensures var s := old(Sending(sysid, compid, minLength, length)).(signed := signed);
              msg.View() ==
                  old(msg.View()).(magic := if mavlink1 then STX_V1 else STX_V2,
                                   len := MavRoundTrip.SentLength(old(msg.View()), s), sysid := sysid, compid := compid,
                                   incompat := if signed then 1 else 0, compat := 0, seq_ := s.txSeq)
      ensures txSeq == (old(txSeq) + 1) % 256
    {
      msg.magic := if mavlink1 then STX_V1 else STX_V2;
      if mavlink1 {
        msg.len := minLength;
      } else {
        msg.len := TrimPayload(msg.payload, length);
      }
      msg.sysid, msg.compid := sysid, compid;
      msg.incompat := if signed then 1 else 0;
      msg.compat := 0;
      msg.seq_ := txSeq;
      txSeq := (txSeq + 1) % 256;
    }

    /** Computes the checksum over header, payload and the extra byte, and stores it behind the payload. */
    method StoreChecksum(msg: MessageRecord, header: seq<Byte>, crcExtra: Byte)
      requires msg.Valid() && header == Header(msg.View(), mavlink1)
      modifies msg, msg.payload
      ensures var m := old(msg.View());
              var crc := Crc(Body(m, mavlink1) + [crcExtra]);
              msg.View() == m.(checksum := crc, payload := m.payload[m.len := CkA(crc)][m.len + 1 := CkB(crc)])
    {
      hide Crc, CkA, CkB, Header;
      ghost var body := Body(msg.View(), mavlink1);
      var crc := AccumulateBytes(Checksum.X25_INIT_CRC, [], header)
          by { assert Crc([]) == Checksum.X25_INIT_CRC by { NoBytes(); } }
      crc := AccumulateBytes(crc, header, msg.payload[..msg.len]) by { assert [] + header == header; }
      assert header + msg.payload[..msg.len] == body;
      crc := AccumulateBytes(crc, body, [crcExtra]);
      msg.checksum := crc;
      msg.payload[msg.len] := CkA(crc);
      msg.payload[msg.len + 1] := CkB(crc);
    }

    /** `mavlink_finalize_message_buffer`; returns the size of the frame. */
    method Finalize(hash: Hash, msg: MessageRecord, sysid: Byte, compid: Byte, minLength: Byte, length: Byte,
                    crcExtra: Byte) returns (size: nat)
      requires msg.Valid()
      modifies this`txSeq, msg, msg.payload, msg.signature, signing
      ensures var s := old(Sending(sysid, compid, minLength, length));
              var f := MavRoundTrip.Finalized(old(msg.View()), s, crcExtra);
              msg.View() == if MavRoundTrip.Flags(s) == 1 then f.(signature := old(BlockFor(hash, f))) else f
      ensures txSeq == (old(txSeq) + 1) % 256
      ensures signing != null ==>
                signing.timestamp ==
                  if old(MavRoundTrip.Flags(Sending(sysid, compid, minLength, length))) == 1
                  then (old(signing.timestamp) + 1) % 0x1_0000_0000_0000_0000 else old(signing.timestamp)
      ensures signing != null ==>
                && signing.secretKey == old(signing.secretKey) && signing.linkId == old(signing.linkId)
                && signing.signOutgoing == old(signing.signOutgoing)
                && signing.noTimestamps == old(signing.noTimestamps)
      ensures size ==
                |MavRoundTrip.Wire(old(MavRoundTrip.Finalized(msg.View(), Sending(sysid, compid, minLength, length),
                    crcExtra)))|
    {
      hide Crc, CkA, CkB, MavRoundTrip.TrimmedLength, SignatureBlock;
      var signed := !mavlink1 && signing != null && signing.signOutgoing;
      ghost var s, m := Sending(sysid, compid, minLength, length), msg.View();
      FillHeader(msg, sysid, compid, minLength, length, signed);
      var header := HeaderBytes(msg, mavlink1, msg.len);
      StoreChecksum(msg, header, crcExtra);
      assert msg.View() == MavRoundTrip.Finalized(m, s, crcExtra);
      if signed {
        SignMessage(hash, msg, header);
      }
      MavRoundTrip.WireIsFrame(m, s, crcExtra);
      size := msg.len + |header| + 1 + 2 + (if signed then SIGNATURE_LEN else 0);
    }

    /** The signature block of a finalised message. */
    ghost function BlockFor(hash: Hash, f: Message): seq<Byte>
      requires signing != null && |f.payload| == PAYLOAD_ROOM
      reads signing
    {
      SignatureBlock(hash, signing.secretKey, signing.linkId, signing.timestamp, [f.magic] + Header(f, false),
          f.payload[..f.len],
                     [CkA(f.checksum), CkB(f.checksum)])
    }

    /** Signs a message whose checksum bytes lie behind its payload. */
    method SignMessage(hash: Hash, msg: MessageRecord, header: seq<Byte>)
      requires msg.Valid() && signing != null && signing.signOutgoing && header == Header(msg.View(), false)
      requires msg.payload[msg.len] == CkA(msg.checksum) && msg.payload[msg.len + 1] == CkB(msg.checksum)
      modifies signing`timestamp, msg.signature
      ensures signing.timestamp == (old(signing.timestamp) + 1) % 0x1_0000_0000_0000_0000
      ensures msg.View() == old(msg.View().(signature := BlockFor(hash, msg.View())))
    {
      hide CkA, CkB, SignatureBlock;
      var crc := msg.payload[msg.len..msg.len + 2];
      assert crc == [CkA(msg.checksum), CkB(msg.checksum)];
      var block := signing.SignPacket(hash, [msg.magic] + header, msg.payload[..msg.len], crc);
      msg.CopySignature(block);
    }
  }

  /** The header bytes of a message with a given length. */
  method HeaderBytes(msg: MessageRecord, mavlink1: bool, length: Byte) returns (header: seq<Byte>)
    ensures header == Header(msg.View().(len := length), mavlink1) && |header| == HeaderLen(mavlink1)
  {
    var id0: Byte, id1: Byte, id2: Byte := msg.msgid % 256, msg.msgid / 0x100 % 256, msg.msgid / 0x1_0000 % 256;
    if mavlink1 {
      header := [length, msg.seq_, msg.sysid, msg.compid, id0];
    } else {
      header := [length, msg.incompat, msg.compat, msg.seq_, msg.sysid, msg.compid, id0, id1, id2];
    }
  }

  method CopyInto(buf: array<Byte>, at: nat, bytes: seq<Byte>)
    requires at + |bytes| <= buf.Length
    modifies buf
    ensures buf[..] == old(buf[..at]) + bytes + old(buf[at + |bytes|..])
  {
    forall i | 0 <= i < |bytes| {
      buf[at + i] := bytes[i];
    }
    assert forall i :: 0 <= i < |bytes| ==> buf[at + i] == bytes[i];
    assert buf[at..at + |bytes|] == bytes;
    assert buf[..] == buf[..at] + buf[at..at + |bytes|] + buf[at + |bytes|..];
  }

  const MAX_PACKET_LEN: nat := 280

  /** `mavlink_msg_to_send_buffer`: serialises a finalised message. */
  method ToSendBuffer(buf: array<Byte>, msg: MessageRecord) returns (size: nat)
    requires msg.Valid() && buf.Length >= MAX_PACKET_LEN && buf != msg.payload && buf != msg.signature
    modifies buf
    ensures size == |MavRoundTrip.Wire(msg.View())| <= MAX_PACKET_LEN
    ensures buf[..size] == MavRoundTrip.Wire(msg.View()) && buf[size..] == old(buf[size..])
  {
    hide CkA, CkB, MavRoundTrip.TrimmedLength, Header;
    var mavlink1, length, signature := msg.magic == STX_V1, msg.len, [];
    if !mavlink1 {
      length := TrimPayload(msg.payload, length);
      if msg.incompat % 2 == 1 {
        signature := msg.signature[..];
      }
    }
    var header := HeaderBytes(msg, mavlink1, length);
    var bytes := [msg.magic] + (header + msg.payload[..length]) + [CkA(msg.checksum), CkB(msg.checksum)] + signature;
    assert bytes == MavRoundTrip.Wire(msg.View());
    CopyInto(buf, 0, bytes);
    size := |bytes|;
  }

  lemma NoBytes()
    ensures Crc([]) == Checksum.X25_INIT_CRC
  {}
}
