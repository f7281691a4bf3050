/**
 The X.25 checksum of the MAVLink link layer. The code updates a 16-bit accumulator one byte
 at a time with shifts and exclusive-ors; the reference is the bit-serial division by the
 reflected polynomial 0x8408.
 */
module Checksum {

  type Byte = bv8

  const X25_INIT_CRC: bv16 := 0xffff

  // ---- The reference: one bit, one byte, a sequence of bytes ----

  function SerialBit(c: bv16): bv16 {
    if c & 1 == 1 then (c >> 1) ^ 0x8408 else c >> 1
  }

  function EightBits(c: bv16): bv16 {
    SerialBit(SerialBit(SerialBit(SerialBit(SerialBit(SerialBit(SerialBit(SerialBit(c))))))))
  }

  function SerialByte(c: bv16, data: Byte): bv16 {
    EightBits(c ^ (data as bv16))
  }

  function CrcOver(c: bv16, s: seq<Byte>): bv16 {
    if s == [] then c else SerialByte(CrcOver(c, s[..|s| - 1]), s[|s| - 1])
  }

  function LowByte(c: bv16): Byte { (c & 0xff) as Byte }

  function HighByte(c: bv16): Byte { (c >> 8) as Byte }

  // ---- The shift-and-xor form of the code ----

  /** The byte the code calls `tmp`, exclusive-ored with its own low half. */
  function Mixed(x: Byte): Byte { x ^ (x << 4) }

  /** The accumulator formed from the old one and the mixed byte. */
  function Combined(c: bv16, tmp: Byte): bv16 {
    (c >> 8) ^ ((tmp as bv16) << 8) ^ ((tmp as bv16) << 3) ^ ((tmp as bv16) >> 4)
  }

  function Accumulated(c: bv16, data: Byte): bv16 {
    Combined(c, Mixed(data ^ LowByte(c)))
  }

  /** The conditional bit step written without a branch. */
  function Folded(c: bv16): bv16 {
    (c >> 1) ^ ((c & 1) << 3) ^ ((c & 1) << 10) ^ (c << 15)
  }

  lemma EvenStep(c: bv16)
    requires c & 1 != 1
    ensures SerialBit(c) == Folded(c)
  {
    assert c & 1 == 0;
  }

  lemma OddStep(c: bv16)
    requires c & 1 == 1
    ensures SerialBit(c) == (c >> 1) ^ 0x8408 == Folded(c)
  {}

  lemma StepIsFolded(c: bv16)
    ensures SerialBit(c) == Folded(c)
  {
    hide *;
    if c & 1 == 1 { OddStep(c); } else { EvenStep(c); }
  }

  function Folded8(c: bv16): bv16 {
    Folded(Folded(Folded(Folded(Folded(Folded(Folded(Folded(c))))))))
  }

  lemma EightStepsAreFolded(c: bv16)
    ensures EightBits(c) == Folded8(c)
  {
    hide SerialBit, Folded;
    var c1 := Folded(c); var c2 := Folded(c1); var c3 := Folded(c2); var c4 := Folded(c3);
    var c5 := Folded(c4); var c6 := Folded(c5); var c7 := Folded(c6);
    StepIsFolded(c); StepIsFolded(c1); StepIsFolded(c2); StepIsFolded(c3);
    StepIsFolded(c4); StepIsFolded(c5); StepIsFolded(c6); StepIsFolded(c7);
  }

  // Two, four and eight steps at once.

  function Folded2(c: bv16): bv16 { (c >> 2) ^ ((c & 3) << 2) ^ ((c & 3) << 9) ^ (c << 14) }

  function Folded4(c: bv16): bv16 { (c >> 4) ^ (c & 0xf) ^ ((c & 0xf) << 7) ^ (c << 12) }

  function Spread(c: bv16, t: bv16): bv16 { (c >> 8) ^ (t << 8) ^ (t << 3) ^ (t >> 4) }

  function MixedLow(c: bv16): bv16 { (c & 0xff) ^ ((c << 4) & 0xff) }

  lemma TwoSteps(c: bv16)
    ensures Folded(Folded(c)) == Folded2(c)
  {}

  lemma FourSteps(c: bv16)
    ensures Folded2(Folded2(c)) == Folded4(c)
  {}

  lemma EightSteps(c: bv16)
    ensures Folded4(Folded4(c)) == Spread(c, MixedLow(c))
  {}

  lemma MixedLowByte(c: bv16)
    ensures Mixed(0 ^ LowByte(c)) as bv16 == MixedLow(c)
  {}

  lemma CombinedSpreads(c: bv16, tmp: Byte)
    ensures Combined(c, tmp) == Spread(c, tmp as bv16)
  {}

  lemma Folded8IsAccumulated(c: bv16)
    ensures Folded8(c) == Accumulated(c, 0)
  {
    hide Folded, Folded2, Folded4, Spread, MixedLow, Combined, Mixed, LowByte;
    TwoSteps(c);
    TwoSteps(Folded2(c));
    FourSteps(c);
    TwoSteps(Folded4(c));
    TwoSteps(Folded2(Folded4(c)));
    FourSteps(Folded4(c));
    EightSteps(c);
    MixedLowByte(c);
    CombinedSpreads(c, Mixed(0 ^ LowByte(c)));
  }

  lemma DataFoldsIntoLowByte(c: bv16, data: Byte)
    ensures (c ^ (data as bv16)) >> 8 == c >> 8
    ensures 0 ^ LowByte(c ^ (data as bv16)) == data ^ LowByte(c)
  {}

  /** The byte-at-a-time form is eight bit-serial steps. */
  lemma AccumulatedIsSerial(c: bv16, data: Byte)
    ensures Accumulated(c, data) == SerialByte(c, data)
  {
    hide EightBits, Folded8, Mixed, LowByte, Combined;
    EightStepsAreFolded(c ^ (data as bv16));
    Folded8IsAccumulated(c ^ (data as bv16));
    DataFoldsIntoLowByte(c, data);
    CombinedUsesHighByte(c, c ^ (data as bv16), Mixed(data ^ LowByte(c)));
  }

  lemma CombinedUsesHighByte(c: bv16, c': bv16, tmp: Byte)
    requires c >> 8 == c' >> 8
    ensures Combined(c, tmp) == Combined(c', tmp)
  {}

  // ---- The accumulator of the code ----

  class Accumulator {
    var value: bv16

    constructor ()
      ensures value == X25_INIT_CRC
    {
      value := X25_INIT_CRC;
    }

    method Accumulate(data: Byte)
      modifies this
      ensures value == SerialByte(old(value), data)
    {
      hide LowByte, Mixed, Combined, SerialByte;
      AccumulatedIsSerial(value, data);
      var tmp := data ^ LowByte(value);
      tmp := Mixed(tmp);
      value := Combined(value, tmp);
    }

    method AccumulateBuffer(buffer: array<Byte>, start: nat, length: nat)
      requires start + length <= buffer.Length
      modifies this
      ensures value == CrcOver(old(value), buffer[start..start + length])
    {
      var p, remaining := start, length;
      while remaining > 0
        invariant start <= p <= start + length == p + remaining
        invariant value == CrcOver(old(value), buffer[start..p])
      {
        remaining := remaining - 1;
        Accumulate(buffer[p]);
        p := p + 1;
        assert buffer[start..p][..p - 1 - start] == buffer[start..p - 1];
      }
    }
  }

  method Calculate(buffer: array<Byte>, start: nat, length: nat) returns (crc: bv16)
    requires start + length <= buffer.Length
    ensures crc == CrcOver(X25_INIT_CRC, buffer[start..start + length])
  {
    var accumulator := new Accumulator();
    accumulator.AccumulateBuffer(buffer, start, length);
    crc := accumulator.value;
  }

  // ---- Properties of the checksum ----

  lemma {:induction false} CrcConcat(c: bv16, s: seq<Byte>, t: seq<Byte>)
    ensures CrcOver(c, s + t) == CrcOver(CrcOver(c, s), t)
  {
    if t == [] {
      assert s + t == s;
    } else {
      CrcConcat(c, s, t[..|t| - 1]);
      assert (s + t)[..|s + t| - 1] == s + t[..|t| - 1];
    }
  }

  function Sifted(x: Byte): Byte { x ^ (x >> 5) }

  lemma MixingUndone(x: Byte)
    ensures Mixed(Mixed(x)) == x
    ensures Sifted(Sifted(x)) == x
  {}

  lemma HighByteOfShifts(c: bv16, tmp: Byte)
    ensures HighByte(Combined(c, tmp)) == Sifted(tmp)
  {}

  /** The top byte of the new state determines the mixed-in byte. */
  lemma InputRecovered(c: bv16, data: Byte, c': bv16, data': Byte)
    requires HighByte(Accumulated(c, data)) == HighByte(Accumulated(c', data'))
    ensures data ^ LowByte(c) == data' ^ LowByte(c')
  {
    hide HighByte, LowByte, Mixed, Sifted, Combined;
    var x, x' := data ^ LowByte(c), data' ^ LowByte(c');
    HighByteOfShifts(c, Mixed(x));
    HighByteOfShifts(c', Mixed(x'));
    MixingUndone(Mixed(x)); MixingUndone(Mixed(x'));
    MixingUndone(x); MixingUndone(x');
  }

  lemma BytesDetermineWord(c1: bv16, c2: bv16)
    requires LowByte(c1) == LowByte(c2) && c1 >> 8 == c2 >> 8
    ensures c1 == c2
  {}

  lemma ShiftsStripped(c: bv16, tmp: Byte)
    ensures Combined(c, tmp) ^ Combined(0, tmp) == c >> 8
  {}

  lemma XorCancelLow(c: bv16, c': bv16, data: Byte)
    requires data ^ LowByte(c) == data ^ LowByte(c')
    ensures LowByte(c) == LowByte(c')
  {}

  lemma OldHighRecovered(c: bv16, data: Byte, c': bv16, data': Byte)
    requires Accumulated(c, data) == Accumulated(c', data')
    ensures data ^ LowByte(c) == data' ^ LowByte(c') && c >> 8 == c' >> 8
  {
    hide Mixed, LowByte, Combined, HighByte;
    InputRecovered(c, data, c', data');
    ShiftsStripped(c, Mixed(data ^ LowByte(c)));
    ShiftsStripped(c', Mixed(data ^ LowByte(c)));
  }

  lemma StateInjective(c1: bv16, c2: bv16, data: Byte)
    requires Accumulated(c1, data) == Accumulated(c2, data)
    ensures c1 == c2
  {
    hide *;
    OldHighRecovered(c1, data, c2, data);
    XorCancelLow(c1, c2, data);
    BytesDetermineWord(c1, c2);
  }

  /** For a fixed message the final checksum determines the initial one. */
  lemma {:induction false} CrcIsInjectiveInState(c1: bv16, c2: bv16, s: seq<Byte>)
    requires c1 != c2
    ensures CrcOver(c1, s) != CrcOver(c2, s)
  {
    hide SerialByte, Accumulated;
    if s != [] {
      var last := |s| - 1;
      CrcIsInjectiveInState(c1, c2, s[..last]);
      var a, b := CrcOver(c1, s[..last]), CrcOver(c2, s[..last]);
      AccumulatedIsSerial(a, s[last]);
      AccumulatedIsSerial(b, s[last]);
      if CrcOver(c1, s) == CrcOver(c2, s) {
        StateInjective(a, b, s[last]);
      }
    }
  }

  function Unbit(c: bv16): bv16 {
    if c & 0x8000 == 0x8000 then ((c ^ 0x8408) << 1) | 1 else c << 1
  }

  function Unbits(c: bv16): bv16 {
    Unbit(Unbit(Unbit(Unbit(Unbit(Unbit(Unbit(Unbit(c))))))))
  }

  lemma UnbitCarry(c: bv16)
    requires c & 0x8000 == 0x8000
    ensures Unbit(c) & 1 == 1 && Unbit(c) >> 1 == c ^ 0x8408
  {}

  lemma UnbitPlain(c: bv16)
    requires c & 0x8000 != 0x8000
    ensures Unbit(c) & 1 == 0 && Unbit(c) >> 1 == c
  {}

  lemma UnbitOnce(c: bv16)
    ensures SerialBit(Unbit(c)) == c
  {
    hide Unbit;
    if c & 0x8000 == 0x8000 { UnbitCarry(c); } else { UnbitPlain(c); }
  }

  lemma UnbitsInvert(c: bv16)
    ensures EightBits(Unbits(c)) == c
  {
    hide SerialBit, Unbit;
    var c1 := Unbit(c); var c2 := Unbit(c1); var c3 := Unbit(c2); var c4 := Unbit(c3);
    var c5 := Unbit(c4); var c6 := Unbit(c5); var c7 := Unbit(c6);
    UnbitOnce(c); UnbitOnce(c1); UnbitOnce(c2); UnbitOnce(c3);
    UnbitOnce(c4); UnbitOnce(c5); UnbitOnce(c6); UnbitOnce(c7);
  }

  lemma XorTwice(c: bv16, d: bv16)
    ensures (c ^ d) ^ d == c
  {}

  /** The state before a byte, computed backwards from the state after it. */
  function Rewound(c: bv16, data: Byte): bv16 {
    Unbits(c) ^ (data as bv16)
  }

  lemma RewoundInverts(c: bv16, data: Byte)
    ensures SerialByte(Rewound(c, data), data) == c
  {
    hide EightBits, Unbits;
    UnbitsInvert(c);
    XorTwice(Unbits(c), data as bv16);
  }

  /** Every checksum is reachable from exactly one initial state: rewinding is total. */
  lemma {:induction false} CrcIsSurjectiveInState(c: bv16, s: seq<Byte>) returns (start: bv16)
    ensures CrcOver(start, s) == c
    decreases |s|
  {
    hide SerialByte, Rewound;
    if s == [] {
      start := c;
    } else {
      RewoundInverts(c, s[|s| - 1]);
      start := CrcIsSurjectiveInState(Rewound(c, s[|s| - 1]), s[..|s| - 1]);
    }
  }

  lemma XorCancelData(a: Byte, a': Byte, low: Byte)
    requires a ^ low == a' ^ low
    ensures a == a'
  {}

  lemma HighByteIsShift(c: bv16, c': bv16)
    requires c >> 8 == c' >> 8
    ensures HighByte(c) == HighByte(c')
  {}

  /** From one state, two consecutive bytes are determined by the state they lead to. */
  lemma TwoBytesInjective(c: bv16, a: Byte, b: Byte, a': Byte, b': Byte)
    requires Accumulated(Accumulated(c, a), b) == Accumulated(Accumulated(c, a'), b')
    ensures a == a' && b == b'
  {
    hide *;
    var m, m' := Accumulated(c, a), Accumulated(c, a');
    OldHighRecovered(m, b, m', b');
    HighByteIsShift(m, m');
    SameHighByte(c, a, a');
    SameHighByte(m, b, b');
  }

  lemma SameHighByte(c: bv16, a: Byte, a': Byte)
    requires HighByte(Accumulated(c, a)) == HighByte(Accumulated(c, a'))
    ensures a == a'
  {
    hide *;
    InputRecovered(c, a, c, a');
    XorCancelData(a, a', LowByte(c));
  }

  lemma CrcInThree(c: bv16, s: seq<Byte>, k: nat)
    requires k + 2 <= |s|
    ensures CrcOver(c, s) == CrcOver(CrcOver(CrcOver(c, s[..k]), s[k..k + 2]), s[k + 2..])
  {
    hide SerialByte;
    assert s == (s[..k] + s[k..k + 2]) + s[k + 2..];
    CrcConcat(c, s[..k], s[k..k + 2]);
    CrcConcat(c, s[..k] + s[k..k + 2], s[k + 2..]);
  }

  lemma WindowsDiffer(s: seq<Byte>, t: seq<Byte>, k: nat)
    requires |s| == |t| && k + 2 <= |s|
    requires s[..k] == t[..k] && s[k + 2..] == t[k + 2..] && s != t
    ensures s[k] != t[k] || s[k + 1] != t[k + 1]
  {
    assert s == s[..k] + [s[k], s[k + 1]] + s[k + 2..];
    assert t == t[..k] + [t[k], t[k + 1]] + t[k + 2..];
  }

  /** Two messages of one length that differ only inside a window of two adjacent bytes (a
      burst of at most 16 bits, so in particular one wrong byte) never share a checksum. */
  lemma BurstIsDetected(c: bv16, s: seq<Byte>, t: seq<Byte>, k: nat)
    requires |s| == |t| && k + 2 <= |s|
    requires s[..k] == t[..k] && s[k + 2..] == t[k + 2..]
    requires s != t
    ensures CrcOver(c, s) != CrcOver(c, t)
  {
    hide SerialByte, Accumulated;
    var before := CrcOver(c, s[..k]);
    var m, m' := CrcOver(before, s[k..k + 2]), CrcOver(before, t[k..k + 2]);
    CrcInThree(c, s, k);
    CrcInThree(c, t, k);
    TwoByteCrc(before, s[k..k + 2]);
    TwoByteCrc(before, t[k..k + 2]);
    WindowsDiffer(s, t, k);
    if m == m' {
      TwoBytesInjective(before, s[k], s[k + 1], t[k], t[k + 1]);
      assert false;
    }
    CrcIsInjectiveInState(m, m', s[k + 2..]);
  }

  lemma TwoByteCrc(c: bv16, s: seq<Byte>)
    requires |s| == 2
    ensures CrcOver(c, s) == Accumulated(Accumulated(c, s[0]), s[1])
  {
    assert s[..1][..0] == [];
    assert CrcOver(c, s[..1]) == SerialByte(CrcOver(c, s[..1][..0]), s[0]);
    AccumulatedIsSerial(c, s[0]);
    AccumulatedIsSerial(Accumulated(c, s[0]), s[1]);
  }

  lemma OwnBytesCancel(c: bv16)
    ensures Accumulated(Accumulated(c, LowByte(c)), HighByte(c)) == 0
  {}

  /** The checksum of a message followed by two bytes is zero exactly when those bytes are the
      message's own checksum, low byte first. */
  lemma ResidueIsZeroIffChecksumMatches(c: bv16, s: seq<Byte>, lo: Byte, hi: Byte)
    ensures CrcOver(c, s + [lo, hi]) == 0
       <==> lo == LowByte(CrcOver(c, s)) && hi == HighByte(CrcOver(c, s))
  {
    var own := CrcOver(c, s);
    CrcConcat(c, s, [lo, hi]);
    TwoByteCrc(own, [lo, hi]);
    OwnBytesCancel(own);
    if CrcOver(c, s + [lo, hi]) == 0 {
      TwoBytesInjective(own, lo, hi, LowByte(own), HighByte(own));
    }
  }

  // ---- A known answer ----

  /** The check value of this checksum: that of the digits 1 to 9 in ASCII. */
  lemma KnownAnswer()
    ensures CrcOver(0xffff, [0x31, 0x32, 0x33, 0x34, 0x35, 0x36, 0x37, 0x38, 0x39]) == 0x6f91
  {
    hide CrcOver, SerialByte;
    Answers();
    Nothing();
    var s: seq<Byte> := [];
    Longer(s, 0x31);
    s := s + [0x31];
    Longer(s, 0x32);
    s := s + [0x32];
    Longer(s, 0x33);
    s := s + [0x33];
    Longer(s, 0x34);
    s := s + [0x34];
    Longer(s, 0x35);
    s := s + [0x35];
    Longer(s, 0x36);
    s := s + [0x36];
    Longer(s, 0x37);
    s := s + [0x37];
    Longer(s, 0x38);
    s := s + [0x38];
    Longer(s, 0x39);
    s := s + [0x39];
    assert s == [0x31, 0x32, 0x33, 0x34, 0x35, 0x36, 0x37, 0x38, 0x39];
  }

  lemma Nothing()
    ensures CrcOver(0xffff, []) == 0xffff
  {}

  lemma Longer(s: seq<Byte>, b: Byte)
    ensures CrcOver(0xffff, s + [b]) == SerialByte(CrcOver(0xffff, s), b)
  {
    hide SerialByte;
    assert (s + [b])[..|s|] == s;
  }

  lemma Answers()
    ensures SerialByte(0xffff, 0x31) == 0x2f8d
    ensures SerialByte(0x2f8d, 0x32) == 0x4d53
    ensures SerialByte(0x4d53, 0x33) == 0x634b
    ensures SerialByte(0x634b, 0x34) == 0x8b13
    ensures SerialByte(0x8b13, 0x35) == 0x44bf
    ensures SerialByte(0x44bf, 0x36) == 0x198d
    ensures SerialByte(0x198d, 0x37) == 0x1ac8
    ensures SerialByte(0x1ac8, 0x38) == 0xf795
    ensures SerialByte(0xf795, 0x39) == 0x6f91
  {}
}
