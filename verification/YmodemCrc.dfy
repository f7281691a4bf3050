/**
 The 16-bit checksum of the Ymodem sender. The code feeds the message bits in at the low end of a 32-bit
 accumulator that is never masked inside a byte, and appends two zero bytes; the reference is the usual
 most-significant-bit-first division by 0x1021 that mixes each message bit in at the top.
 */
module YmodemCrc {
  type Byte = bv8

  // ---- One bit ----

  function BitOf(bit: bool): bv16 { if bit then 1 else 0 }

  predicate Top(b: Byte) { b & 0x80 != 0 }

  predicate Top16(c: bv16) { c & 0x8000 != 0 }

  function Xor(a: bv16, b: bv16): bv16 { a ^ b }

  function Twice(c: bv16): bv16 { c << 1 }

  /** A message bit fed in at the low end. */
  function FedIn(c: bv16, bit: bool): bv16 {
    var shifted := Xor(Twice(c), BitOf(bit));
    if Top16(c) then Xor(shifted, 0x1021) else shifted
  }

  /** The reference: a message bit mixed in at the top. */
  function Direct(c: bv16, bit: bool): bv16 {
    if Top16(c) != bit then Xor(Twice(c), 0x1021) else Twice(c)
  }

  /** Multiplication by x, without a case distinction. */
  function Times(c: bv16): bv16 { Xor(Twice(c), Carried(TopBit(c))) }

  function TopBit(c: bv16): bv16 { c >> 15 }

  function Carried(t: bv16): bv16 { Xor(Xor(t, FiveUp(t)), TwelveUp(t)) }

  function FiveUp(t: bv16): bv16 { t << 5 }

  function TwelveUp(t: bv16): bv16 { t << 12 }

  lemma TopSet(c: bv16)
    requires Top16(c)
    ensures Times(c) == Xor(Twice(c), 0x1021)
  {}

  lemma TopClear(c: bv16)
    requires !Top16(c)
    ensures Times(c) == Twice(c)
  {}

  lemma XorSwap(a: bv16, b: bv16, p: bv16)
    ensures Xor(Xor(a, b), p) == Xor(Xor(a, p), b)
  {}

  lemma FedInIsTimes(c: bv16, bit: bool)
    ensures FedIn(c, bit) == Xor(Times(c), BitOf(bit))
  {
    hide Times, BitOf, Xor, Twice, Top16;
    XorSwap(Twice(c), BitOf(bit), 0x1021);
    if Top16(c) { TopSet(c); } else { TopClear(c); }
  }

  lemma XorSelf(a: bv16, p: bv16)
    ensures Xor(Xor(a, p), p) == a && Xor(a, 0) == a
  {}

  /** What a message bit adds in the reference. */
  function Mask(bit: bool): bv16 { if bit then 0x1021 else 0 }

  lemma DirectIsTimes(c: bv16, bit: bool)
    ensures Direct(c, bit) == Xor(Times(c), Mask(bit))
  {
    hide Times, Xor, Twice, Top16;
    XorSelf(Twice(c), 0x1021);
    XorSelf(Xor(Twice(c), 0x1021), 0x1021);
    if Top16(c) { TopSet(c); } else { TopClear(c); }
  }

  lemma ShiftsAreLinear(a: bv16, b: bv16)
    ensures Twice(Xor(a, b)) == Xor(Twice(a), Twice(b)) && TopBit(Xor(a, b)) == Xor(TopBit(a), TopBit(b))
  {}

  lemma ShiftsUpAreLinear(a: bv16, b: bv16)
    ensures FiveUp(Xor(a, b)) == Xor(FiveUp(a), FiveUp(b)) && TwelveUp(Xor(a, b)) == Xor(TwelveUp(a), TwelveUp(b))
  {}

  lemma XorAssoc(a: bv16, b: bv16, c: bv16)
    ensures Xor(Xor(a, b), c) == Xor(a, Xor(b, c))
  {}

  lemma XorComm(a: bv16, b: bv16)
    ensures Xor(a, b) == Xor(b, a)
  {}

  lemma XorPairs(a: bv16, b: bv16, c: bv16, d: bv16)
    ensures Xor(Xor(a, b), Xor(c, d)) == Xor(Xor(a, c), Xor(b, d))
  {
    hide Xor;
    XorAssoc(a, b, Xor(c, d));
    XorAssoc(b, c, d);
    XorComm(b, c);
    XorAssoc(c, b, d);
    XorAssoc(a, c, Xor(b, d));
  }

  lemma CarriedIsLinear(a: bv16, b: bv16)
    ensures Carried(Xor(a, b)) == Xor(Carried(a), Carried(b))
  {
    hide Xor, FiveUp, TwelveUp;
    ShiftsUpAreLinear(a, b);
    XorPairs(a, b, FiveUp(a), FiveUp(b));
    XorPairs(Xor(a, FiveUp(a)), Xor(b, FiveUp(b)), TwelveUp(a), TwelveUp(b));
  }

  lemma TimesIsLinear(a: bv16, b: bv16)
    ensures Times(Xor(a, b)) == Xor(Times(a), Times(b))
  {
    hide Xor, Twice, TopBit, Carried;
    ShiftsAreLinear(a, b);
    CarriedIsLinear(TopBit(a), TopBit(b));
    XorPairs(Twice(a), Twice(b), Carried(TopBit(a)), Carried(TopBit(b)));
  }

  function TimesN(c: bv16, n: nat): bv16 { if n == 0 then c else Times(TimesN(c, n - 1)) }

  lemma {:induction false} TimesNIsLinear(a: bv16, b: bv16, n: nat)
    ensures TimesN(Xor(a, b), n) == Xor(TimesN(a, n), TimesN(b, n))
  {
    hide Times, Xor;
    if n > 0 {
      TimesNIsLinear(a, b, n - 1);
      TimesIsLinear(TimesN(a, n - 1), TimesN(b, n - 1));
    }
  }

  lemma {:induction false} TimesNFirst(c: bv16, n: nat)
    ensures TimesN(Times(c), n) == Times(TimesN(c, n))
  {
    hide Times;
    if n > 0 { TimesNFirst(c, n - 1); }
  }

  /** x^16 is 0x1021 modulo the polynomial. */
  lemma SixteenTimesOne()
    ensures TimesN(1, 16) == 0x1021
  {
    hide Times, Times8, TimesN;
    EightTimes(1);
    EightTimes(0x100);
    TimesNSum(1, 8, 8);
    FirstEight();
    SecondEight();
  }

  lemma {:induction false} TimesNSum(c: bv16, m: nat, n: nat)
    ensures TimesN(c, m + n) == TimesN(TimesN(c, m), n)
  {
    hide Times;
    if n > 0 { TimesNSum(c, m, n - 1); }
  }

  function Times8(c: bv16): bv16 { Times(Times(Times(Times(Times(Times(Times(Times(c)))))))) }

  lemma TwoTimes(c: bv16)
    ensures TimesN(c, 2) == Times(Times(c))
  {
    hide Times;
    assert TimesN(c, 1) == Times(c) by { assert TimesN(c, 0) == c; }
  }

  lemma EightTimes(c: bv16)
    ensures TimesN(c, 8) == Times8(c)
  {
    hide Times, TimesN;
    TimesNSum(c, 2, 2);
    TimesNSum(c, 4, 2);
    TimesNSum(c, 6, 2);
    TwoTimes(c);
    TwoTimes(TimesN(c, 2));
    TwoTimes(TimesN(c, 4));
    TwoTimes(TimesN(c, 6));
  }

  lemma FirstEight()
    ensures Times8(1) == 0x100
  {}

  lemma SecondEight()
    ensures Times8(0x100) == 0x1021
  {}

  lemma {:induction false} TimesNZero(n: nat)
    ensures TimesN(0, n) == 0
  {
    hide Times;
    if n > 0 {
      TimesNZero(n - 1);
      TimesZero();
    }
  }

  lemma TimesZero()
    ensures Times(0) == 0
  {}

  /** Sixteen zero bits after a bit fed in amount to mixing it in at the top. */
  lemma OneBit(c: bv16, bit: bool)
    ensures TimesN(FedIn(c, bit), 16) == Direct(TimesN(c, 16), bit)
  {
    hide Times, FedIn, Direct, Xor, TimesN;
    FedInIsTimes(c, bit);
    DirectIsTimes(TimesN(c, 16), bit);
    TimesNIsLinear(Times(c), BitOf(bit), 16);
    TimesNFirst(c, 16);
    if bit { SixteenTimesOne(); } else { TimesNZero(16); }
  }

  // ---- Bytes and messages ----

  function FedInBits(c: bv16, b: Byte, n: nat): bv16
    decreases n
  {
    if n == 0 then c else FedInBits(FedIn(c, Top(b)), b << 1, n - 1)
  }

  function DirectBits(c: bv16, b: Byte, n: nat): bv16
    decreases n
  {
    if n == 0 then c else DirectBits(Direct(c, Top(b)), b << 1, n - 1)
  }

  lemma {:induction false} Bits(c: bv16, b: Byte, n: nat)
    ensures TimesN(FedInBits(c, b, n), 16) == DirectBits(TimesN(c, 16), b, n)
    decreases n
  {
    hide FedIn, Direct, Top, TimesN;
    if n > 0 {
      OneBit(c, Top(b));
      Bits(FedIn(c, Top(b)), b << 1, n - 1);
    }
  }

  /** The accumulator after a message, without the two zero bytes. */
  function FedInAll(s: seq<Byte>): bv16 {
    if s == [] then 0 else FedInBits(FedInAll(s[..|s| - 1]), s[|s| - 1], 8)
  }

  /** The reference checksum of a message. */
  function DirectCrc(s: seq<Byte>): bv16 {
    if s == [] then 0 else DirectBits(DirectCrc(s[..|s| - 1]), s[|s| - 1], 8)
  }

  /** The code's checksum: the message with two zero bytes appended. */
  function AugmentedCrc(s: seq<Byte>): bv16 {
    FedInBits(FedInBits(FedInAll(s), 0, 8), 0, 8)
  }

  lemma {:induction false} ZeroBits(c: bv16, n: nat)
    ensures FedInBits(c, 0, n) == TimesN(c, n)
    decreases n
  {
    hide FedIn, Times, Xor, Top;
    if n > 0 {
      ZeroByte();
      FedInIsTimes(c, false);
      XorSelf(Times(c), 0);
      ZeroBits(FedIn(c, false), n - 1);
      TimesNFirst(c, n - 1);
    }
  }

  lemma ZeroByte()
    ensures !Top(0) && (0 as Byte) << 1 == 0
  {}

  lemma {:induction false} FedInThenZeros(s: seq<Byte>)
    ensures TimesN(FedInAll(s), 16) == DirectCrc(s)
  {
    hide FedInBits, DirectBits, TimesN;
    if s == [] {
      assert TimesN(0, 16) == 0 by { TimesNZero(16); }
    } else {
      FedInThenZeros(s[..|s| - 1]);
      Bits(FedInAll(s[..|s| - 1]), s[|s| - 1], 8);
    }
  }

  /** For every message the augmented form equals the direct one. */
  lemma AugmentedIsDirect(s: seq<Byte>)
    ensures AugmentedCrc(s) == DirectCrc(s)
  {
    hide FedInBits, TimesN, FedInAll, DirectCrc;
    FedInThenZeros(s);
    ZeroBits(FedInAll(s), 8);
    ZeroBits(TimesN(FedInAll(s), 8), 8);
    TimesNSum(FedInAll(s), 8, 8);
  }

  // ---- The code: a 32-bit accumulator ----

  function Low16(c: bv32): bv16 { (c & 0xffff) as bv16 }

  function Low8(c: bv32): Byte { (c & 0xff) as Byte }

  function Shl(x: bv32): bv32 { x << 1 }

  function Incremented(x: bv32): bv32 { x + 1 }

  function Reduced(x: bv32): bv32 { x ^ 0x1021 }

  /** Bit 8 and bit 16. */
  predicate Bit8(x: bv32) { x & 0x100 != 0 }

  predicate Bit16(x: bv32) { x & 0x1_0000 != 0 }

  /** The marker bit is the topmost bit of the input word. */
  predicate Marks(m: bv32, x: bv32) { m <= x < m << 1 }

  /** The marker bit above the message byte after `k` shifts. */
  function Marker(k: nat): bv32 { if k == 0 then 0x100 else Shl(Marker(k - 1)) }

  lemma MarkerTable(k: nat)
    requires k <= 8
    ensures Marker(k) <= 0x1_0000 && (k < 8 ==> Marker(k) <= 0x8000) && (k == 8 ==> Marker(k) == 0x1_0000)
  {
    assert Marker(1) == 0x200;
    assert Marker(2) == 0x400;
    assert Marker(3) == 0x800;
    assert Marker(4) == 0x1000;
    assert Marker(5) == 0x2000;
    assert Marker(6) == 0x4000;
    assert Marker(7) == 0x8000;
  }

  /** One round of the loop on the unmasked accumulator. */
  function Round(crc: bv32, bit: bool): bv32 {
    var shifted := if bit then Incremented(Shl(crc)) else Shl(crc);
    if Bit16(shifted) then Reduced(shifted) else shifted
  }

  lemma ZeroTop(crc: bv32)
    ensures Bit16(Shl(crc)) <==> Top16(Low16(crc))
  {}

  lemma OneTop(crc: bv32)
    ensures Bit16(Incremented(Shl(crc))) <==> Top16(Low16(crc))
  {}

  lemma MaskAfterShift(x: bv32)
    ensures Low16(x << 1) == Low16(x) << 1
  {}

  lemma ZeroLow(crc: bv32)
    ensures Low16(Shl(crc)) == Twice(Low16(crc))
  {
    hide Low16;
    MaskAfterShift(crc);
  }

  lemma OneLow(crc: bv32)
    ensures Low16(Incremented(Shl(crc))) == Xor(Twice(Low16(crc)), 1)
  {}

  lemma MaskAfterXor(x: bv32)
    ensures Low16(x ^ 0x1021) == Low16(x) ^ 0x1021
  {}

  lemma PolyLow(x: bv32)
    ensures Low16(Reduced(x)) == Xor(Low16(x), 0x1021)
  {
    hide Low16;
    MaskAfterXor(x);
  }

  lemma PlusZero(a: bv16)
    ensures Xor(a, 0) == a
  {}

  /** The low 16 bits of the accumulator follow the masked step. */
  lemma RoundIsFedIn(crc: bv32, bit: bool)
    ensures Low16(Round(crc, bit)) == FedIn(Low16(crc), bit)
  {
    hide Low16, Top16, Twice, Xor, Shl, Incremented, Reduced, Bit16;
    PlusZero(Twice(Low16(crc)));
    PolyLow(if bit then Incremented(Shl(crc)) else Shl(crc));
    if bit {
      OneTop(crc);
      OneLow(crc);
    } else {
      ZeroTop(crc);
      ZeroLow(crc);
    }
  }

  lemma InputShifted(x: bv32)
    ensures Low8(Shl(x)) == Low8(x) << 1 && (Bit8(Shl(x)) <==> Top(Low8(x)))
  {}

  lemma InputStart(b: Byte)
    ensures Low8((b as bv32) | 0x100) == b && Marks(0x100, (b as bv32) | 0x100)
  {}

  lemma ShiftKeepsOrder(a: bv32, b: bv32)
    requires b <= 0x1_0000
    ensures a <= b ==> a << 1 <= b << 1
    ensures a < b ==> a << 1 < b << 1
  {}

  lemma MarkerBound(m: bv32, x: bv32)
    requires m <= 0x8000 && x < m << 1
    ensures x < 0x1_0000 && m << 1 <= 0x1_0000
  {}

  lemma MarkedShift(m: bv32, x: bv32)
    requires m <= 0x8000 && m <= x < m << 1
    ensures m << 1 <= x << 1 < (m << 1) << 1
  {
    MarkerBound(m, x);
    ShiftKeepsOrder(m, x);
    ShiftKeepsOrder(x, m << 1);
  }

  lemma MarkerMoves(m: bv32, x: bv32)
    requires m <= 0x8000 && Marks(m, x)
    ensures Marks(Shl(m), Shl(x))
  {
    MarkedShifted(m, x);
    ShlIsShift(m);
    ShlIsShift(x);
    hide Marks, Shl;
  }

  lemma MarkedShifted(m: bv32, x: bv32)
    requires m <= 0x8000 && Marks(m, x)
    ensures Marks(m << 1, x << 1)
  {
    MarkedShift(m, x);
  }

  lemma ShlIsShift(x: bv32)
    ensures Shl(x) == x << 1
  {}

  lemma EndIsMarked(m: bv32, x: bv32)
    requires Marks(m, x) && (m <= 0x8000 || m == 0x1_0000)
    ensures Bit16(x) <==> m == 0x1_0000
  {}

  /** Where the loop stands after `k` rounds. */
  ghost predicate Halfway(crc: bv32, x: bv32, crcIn: bv16, b: Byte, k: nat) {
    k <= 8 && Marks(Marker(k), x) && FedInBits(Low16(crc), Low8(x), 8 - k) == FedInBits(crcIn, b, 8)
  }

  lemma AtStart(crcIn: bv16, b: Byte)
    ensures Halfway(crcIn as bv32, (b as bv32) | 0x100, crcIn, b, 0)
  {
    hide FedInBits, Low16, Low8, Marks;
    InputStart(b);
    WordBack(crcIn);
    assert Marker(0) == 0x100;
  }

  lemma WordBack(c: bv16)
    ensures Low16(c as bv32) == c
  {}

  lemma RoundDone(crc: bv32, x: bv32, crcIn: bv16, b: Byte, k: nat)
    requires Halfway(crc, x, crcIn, b, k) && k < 8
    ensures Halfway(Round(crc, Bit8(Shl(x))), Shl(x), crcIn, b, k + 1)
  {
    hide Low16, Low8, Top, FedIn, Round, Shl, Bit8, Marks;
    MarkerTable(k);
    MarkerMoves(Marker(k), x);
    InputShifted(x);
    RoundIsFedIn(crc, Top(Low8(x)));
  }

  lemma EighthRound(crc: bv32, x: bv32, crcIn: bv16, b: Byte, k: nat)
    requires Halfway(crc, x, crcIn, b, k)
    ensures Bit16(x) <==> k == 8
    ensures k == 8 ==> Low16(crc) == FedInBits(crcIn, b, 8)
  {
    hide Low16, Low8, Bit16, Marks, Shl;
    MarkerTable(k);
    EndIsMarked(Marker(k), x);
    SmallMarker(Marker(k));
  }

  lemma SmallMarker(m: bv32)
    ensures m <= 0x8000 ==> m != 0x1_0000
  {}

  /** One byte, bit by bit, until the marker bit has moved up eight places. */
  method UpdateCrc16(crcIn: bv16, b: Byte) returns (r: bv16)
    ensures r == FedInBits(crcIn, b, 8)
  {
    hide Low16, Low8, FedInBits, Round, Shl, Bit8, Bit16, Halfway;
    var crc, x := crcIn as bv32, (b as bv32) | 0x100;
    ghost var k := 0;
    AtStart(crcIn, b);
    while true
      invariant k < 8 && Halfway(crc, x, crcIn, b, k)
      decreases 8 - k
    {
      RoundDone(crc, x, crcIn, b, k);
      x := Shl(x);
      crc := RoundOf(crc, Bit8(x));
      k := k + 1;
      EighthRound(crc, x, crcIn, b, k);
      if Bit16(x) { break; }
    }
    r := Low16(crc);
  }

  method RoundOf(crc0: bv32, bit: bool) returns (crc: bv32)
    ensures crc == Round(crc0, bit)
  {
    hide Shl, Incremented, Reduced, Bit16;
    crc := Shl(crc0);
    if bit {
      crc := Incremented(crc);
    }
    if Bit16(crc) {
      crc := Reduced(crc);
    }
  }

  /** The checksum of a buffer: all bytes, then two zero bytes. It is the reference checksum. */
  method CalCrc16(data: array<Byte>, size: nat) returns (crc: bv16)
    requires size <= data.Length
    ensures crc == DirectCrc(data[..size])
  {
    hide FedInBits, DirectCrc;
    crc := 0;
    var i := 0;
    assert data[..0] == [];
    while i < size
      invariant i <= size && crc == FedInAll(data[..i])
    {
      crc := UpdateCrc16(crc, data[i]);
      i := i + 1;
      assert data[..i][..i - 1] == data[..i - 1];
    }
    crc := UpdateCrc16(crc, 0);
    crc := UpdateCrc16(crc, 0);
    AugmentedIsDirect(data[..size]);
  }

  // ---- A known answer ----

  /** The check value of this checksum: that of the digits 1 to 9 in ASCII. */
  lemma KnownAnswer()
    ensures DirectCrc([0x31, 0x32, 0x33, 0x34, 0x35, 0x36, 0x37, 0x38, 0x39]) == 0x31c3
  {
    hide DirectCrc, DirectBits;
    Answers();
    Nothing();
    var s: seq<Byte> := [];
    Longer(s, 0x31);
    s := s + [0x31];
    Longer(s, 0x32);
    s := s + [0x32];
    Longer(s, 0x33);
    s := s + [0x33];
    Longer(s, 0x34);
    s := s + [0x34];
    Longer(s, 0x35);
    s := s + [0x35];
    Longer(s, 0x36);
    s := s + [0x36];
    Longer(s, 0x37);
    s := s + [0x37];
    Longer(s, 0x38);
    s := s + [0x38];
    Longer(s, 0x39);
    s := s + [0x39];
    assert s == [0x31, 0x32, 0x33, 0x34, 0x35, 0x36, 0x37, 0x38, 0x39];
  }

  lemma Nothing()
    ensures DirectCrc([]) == 0x0000
  {}

  lemma Longer(s: seq<Byte>, b: Byte)
    ensures DirectCrc(s + [b]) == DirectBits(DirectCrc(s), b, 8)
  {
    hide DirectBits;
    assert (s + [b])[..|s|] == s;
  }

  lemma Answers()
    ensures DirectBits(0x0000, 0x31, 8) == 0x2672
    ensures DirectBits(0x2672, 0x32, 8) == 0x20b5
    ensures DirectBits(0x20b5, 0x33, 8) == 0x9752
    ensures DirectBits(0x9752, 0x34, 8) == 0xd789
    ensures DirectBits(0xd789, 0x35, 8) == 0x546c
    ensures DirectBits(0x546c, 0x36, 8) == 0x20e4
    ensures DirectBits(0x20e4, 0x37, 8) == 0x86d6
    ensures DirectBits(0x86d6, 0x38, 8) == 0x9015
    ensures DirectBits(0x9015, 0x39, 8) == 0x31c3
  {}
}
