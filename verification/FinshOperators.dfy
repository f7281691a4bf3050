/**
 What the shell's operators compute: the results of the stack machine's arithmetic are exactly those that C lays down
 for 32-bit two's complement numbers.
 */
module FinshOperators {
  import opened Division
  import opened FinshTree
  import opened FinshMachine

  /** Numbers that are the same in 32 bits. */
  predicate Congruent(x: int, y: int) { (x - y) % 0x1_0000_0000 == 0 }

  predicate Bit(w: nat, k: nat) { w / Pow2(k) % 2 == 1 }

  /** A word and the signed number it stands for. */
  lemma SignedIs(w: Word)
    ensures Congruent(Signed(w), w) && -0x8000_0000 <= Signed(w) < 0x8000_0000
  {}

  /** `q` and `r` are quotient and remainder as C defines them: the remainder is smaller than the divisor and has the
      sign of the dividend. */
  predicate Divided(a: int, b: int, q: int, r: int) {
    q * b + r == a && Abs(r) < Abs(b) && (a >= 0 ==> r >= 0) && (a <= 0 ==> r <= 0)
  }

  function Abs(x: int): nat { if x < 0 then -x else x }

  /** The operands for which C defines the result. */
  predicate Defined(op: BinOp, a: Word, b: Word) {
    match op
    case Div | Mod => b != 0 && !(Signed(a) == -0x8000_0000 && Signed(b) == -1)
    case Shl | Shr => b < 32
    case _ => true
  }

  /** `r` is the result of `a op b`. */
  ghost predicate IsResult(op: BinOp, a: Word, b: Word, r: Word) {
    match op
    case Add => Congruent(r, Signed(a) + Signed(b))
    case Sub => Congruent(r, Signed(a) - Signed(b))
    case Mul => Congruent(r, Signed(a) * Signed(b))
    case Div => exists m :: Divided(Signed(a), Signed(b), Signed(r), m)
    case Mod => exists q :: Divided(Signed(a), Signed(b), q, Signed(r))
    case And => forall k :: 0 <= k < 32 ==> (Bit(r, k) <==> Bit(a, k) && Bit(b, k))
    case Or => forall k :: 0 <= k < 32 ==> (Bit(r, k) <==> Bit(a, k) || Bit(b, k))
    case Xor => forall k :: 0 <= k < 32 ==> (Bit(r, k) <==> Bit(a, k) != Bit(b, k))
    case Shl => Congruent(r, Signed(a) * Pow2(b))
    case Shr => Signed(r) * Pow2(b) <= Signed(a) < (Signed(r) + 1) * Pow2(b)
  }

  // ---- Congruence ----

  lemma WrapIsCongruent(x: int)
    ensures Congruent(Wrap(x), x)
  {}

  lemma CongruentBack(x: int, y: int, z: int)
    requires Congruent(x, z) && Congruent(y, z)
    ensures Congruent(x, y)
  {}

  lemma CongruentWords(x: Word, y: Word)
    requires Congruent(x, y)
    ensures x == y
  {}

  lemma CongruentSum(x: int, y: int, d: int, e: int)
    requires Congruent(x, d) && Congruent(y, e)
    ensures Congruent(x + y, d + e) && Congruent(x - y, d - e)
  {}

  lemma CongruentProduct(x: int, y: int, d: int, e: int)
    requires Congruent(x, d) && Congruent(y, e)
    ensures Congruent(x * y, d * e)
  {
    var i, j := (x - d) / 0x1_0000_0000, (y - e) / 0x1_0000_0000;
    assert x == d + 0x1_0000_0000 * i && y == e + 0x1_0000_0000 * j;
    assert x * y - d * e == x * (y - e) + (x - d) * e;
    assert x * (y - e) == 0x1_0000_0000 * (x * j);
    assert (x - d) * e == 0x1_0000_0000 * (i * e);
    Multiple(x * j + i * e);
  }

  lemma Multiple(k: int)
    ensures (0x1_0000_0000 * k) % 0x1_0000_0000 == 0
  {}

  lemma SumIsResult(a: Word, b: Word)
    ensures Congruent(Wrap(a + b), Signed(a) + Signed(b)) && Congruent(Wrap(a - b), Signed(a) - Signed(b))
  {
    hide Wrap, Signed, Congruent;
    SignedIs(a);
    SignedIs(b);
    CongruentSum(Signed(a), Signed(b), a, b);
    WrapIsCongruent(a + b);
    WrapIsCongruent(a - b);
    CongruentBack(Wrap(a + b), Signed(a) + Signed(b), a + b);
    CongruentBack(Wrap(a - b), Signed(a) - Signed(b), a - b);
  }

  lemma ProductIsResult(a: Word, b: Word)
    ensures Congruent(Wrap(a * b), Signed(a) * Signed(b))
  {
    hide Wrap, Signed, Congruent;
    SignedIs(a);
    SignedIs(b);
    CongruentProduct(Signed(a), Signed(b), a, b);
    WrapIsCongruent(a * b);
    CongruentBack(Wrap(a * b), Signed(a) * Signed(b), a * b);
  }

  /** A signed number in range is that of its word. */
  lemma SignedOfWrap(x: int)
    requires -0x8000_0000 <= x < 0x8000_0000
    ensures Signed(Wrap(x)) == x
  {}

  lemma SignedDetermines(a: Word, b: Word)
    requires Signed(a) == Signed(b)
    ensures a == b
  {}

  // ---- Division ----

  lemma QuotientDivides(a: int, b: int)
    requires b != 0
    ensures Divided(a, b, Quotient(a, b), a - b * Quotient(a, b))
  {
    var q := Quotient(a, b);
    assert b * q == q * b;
    if a >= 0 {
      assert a == b * (a / b) + a % b;
    } else {
      assert -a == b * (-a / b) + -a % b;
      assert b * q == -(b * (-a / b));
    }
  }

  lemma ProductGrows(q: int, b: int)
    requires b != 0
    ensures Abs(q) <= Abs(q * b) && (Abs(b) >= 2 ==> 2 * Abs(q) <= Abs(q * b))
    ensures (b == 1 ==> q * b == q) && (b == -1 ==> q * b == -q)
  {}

  lemma SameSign(a: int, x: int, r: int)
    requires x + r == a && (a >= 0 ==> r >= 0) && (a <= 0 ==> r <= 0) && Abs(r) <= Abs(a)
    ensures Abs(x) <= Abs(a)
  {}

  lemma RemainderSmall(a: int, b: int, q: int, r: int)
    requires b != 0 && Divided(a, b, q, r)
    ensures Abs(r) <= Abs(a)
  {
    if q == 0 {
      assert q * b == 0;
    } else {
      ProductGrows(b, q);
    }
  }

  lemma QuotientInRange(a: int, b: int, q: int, r: int)
    requires -0x8000_0000 <= a < 0x8000_0000 && b != 0 && Divided(a, b, q, r) && !(a == -0x8000_0000 && b == -1)
    ensures -0x8000_0000 <= q < 0x8000_0000
  {
    RemainderSmall(a, b, q, r);
    SameSign(a, q * b, r);
    ProductGrows(q, b);
  }

  lemma DividedOnce(a: int, b: int, q: int, r: int, q': int, r': int)
    requires b != 0 && Divided(a, b, q, r) && Divided(a, b, q', r')
    ensures q == q' && r == r'
  {
    assert (q - q') * b == r' - r by { Difference(q, q', b); }
    TimesAtLeast(q - q', b);
  }

  lemma Difference(x: int, y: int, b: int)
    ensures (x - y) * b == x * b - y * b
  {}

  lemma TimesAtLeast(d: int, b: int)
    ensures d == 0 || Abs(d * b) >= Abs(b)
    ensures d == 0 ==> d * b == 0
  {
    if d >= 1 { assert Abs(d * b) == d * Abs(b); Rest(d, Abs(b)); }
    if d <= -1 { assert Abs(d * b) == -d * Abs(b); Rest(-d, Abs(b)); }
  }

  lemma Rest(d: int, n: nat)
    requires d >= 1
    ensures d * n >= n
  {}

  lemma DivisionIsResult(a: Word, b: Word)
    requires Defined(Div, a, b)
    ensures !DivisionUndefined(a, b)
    ensures IsResult(Div, a, b, Wrap(Quotient(Signed(a), Signed(b))))
    ensures IsResult(Mod, a, b, Wrap(Signed(a) - Signed(b) * Quotient(Signed(a), Signed(b))))
  {
    hide Divided, Quotient;
    var x, y := Signed(a), Signed(b);
    var q := Quotient(x, y);
    SignedIs(a);
    SignedIs(b);
    QuotientDivides(x, y);
    QuotientInRange(x, y, q, x - y * q);
    RemainderInRange(x, y, q, x - y * q);
    SignedOfWrap(q);
    SignedOfWrap(x - y * q);
  }

  lemma RemainderInRange(a: int, b: int, q: int, r: int)
    requires -0x8000_0000 <= b < 0x8000_0000 && Divided(a, b, q, r)
    ensures -0x8000_0000 <= r < 0x8000_0000
  {}

  lemma UndefinedDivision(a: Word, b: Word)
    ensures DivisionUndefined(a, b) <==> !Defined(Div, a, b)
  {}

  // ---- Bits ----

  lemma {:induction false} BitwiseBit(f: (bool, bool) -> bool, a: nat, b: nat, n: nat, k: nat)
    requires k < n
    ensures Bit(FinshMachine.Bitwise(f, a, b, n), k) <==> f(Bit(a, k), Bit(b, k))
    decreases n
  {
    var r := FinshMachine.Bitwise(f, a, b, n);
    assert r % 2 == (if f(a % 2 == 1, b % 2 == 1) then 1 else 0)
        && r / 2 == FinshMachine.Bitwise(f, a / 2, b / 2, n - 1);
    if k == 0 {
      FirstBit(a);
      FirstBit(b);
      FirstBit(r);
    } else {
      NextBit(a, k);
      NextBit(b, k);
      NextBit(r, k);
      BitwiseBit(f, a / 2, b / 2, n - 1, k - 1);
    }
  }

  lemma FirstBit(w: nat)
    ensures Bit(w, 0) <==> w % 2 == 1
  {
    assert Pow2(0) == 1;
  }

  lemma NextBit(w: nat, k: nat)
    requires k > 0
    ensures Bit(w, k) <==> Bit(w / 2, k - 1)
  {
    DivTwice(w, Pow2(k - 1));
  }

  lemma {:induction false} SameBits(a: nat, b: nat, n: nat)
    requires a < Pow2(n) && b < Pow2(n) && forall k :: 0 <= k < n ==> (Bit(a, k) <==> Bit(b, k))
    ensures a == b
    decreases n
  {
    if n > 0 {
      forall k | 0 <= k < n - 1
        ensures Bit(a / 2, k) <==> Bit(b / 2, k)
      {
        NextBit(a, k + 1);
        NextBit(b, k + 1);
      }
      SameBits(a / 2, b / 2, n - 1);
      FirstBit(a);
      FirstBit(b);
    }
  }

  /** `~` turns every bit over. */
  lemma ComplementIsResult(a: Word, k: nat)
    requires k < 32
    ensures Bit(Complement(a), k) <==> !Bit(a, k)
  {
    WordRange();
    TurnedOver(a, 32, k);
  }

  lemma {:induction false} TurnedOver(a: nat, n: nat, k: nat)
    requires k < n && a < Pow2(n)
    ensures Bit(Pow2(n) - 1 - a, k) <==> !Bit(a, k)
    decreases n
  {
    var r := Pow2(n) - 1 - a;
    assert r / 2 == Pow2(n - 1) - 1 - a / 2 && r % 2 == 1 - a % 2;
    if k == 0 {
      FirstBit(a);
      FirstBit(r);
    } else {
      NextBit(a, k);
      NextBit(r, k);
      TurnedOver(a / 2, n - 1, k - 1);
    }
  }

  lemma OnWordsBit(f: (bool, bool) -> bool, a: Word, b: Word, k: nat)
    requires k < 32
    ensures Bit(OnWords(f, a, b), k) <==> f(Bit(a, k), Bit(b, k))
  {
    hide Bit, Pow2, FinshMachine.Bitwise;
    BitwiseBit(f, a, b, 32, k);
  }

  lemma BitsAreResults(a: Word, b: Word)
    ensures IsResult(And, a, b, BitAnd(a, b)) && IsResult(Or, a, b, BitOr(a, b)) && IsResult(Xor, a, b, BitXor(a, b))
  {
    hide Bit, OnWords, Pow2;
    forall k | 0 <= k < 32
      ensures Bit(BitAnd(a, b), k) <==> Bit(a, k) && Bit(b, k)
      ensures Bit(BitOr(a, b), k) <==> Bit(a, k) || Bit(b, k)
      ensures Bit(BitXor(a, b), k) <==> Bit(a, k) != Bit(b, k)
    {
      OnWordsBit(Both, a, b, k);
      OnWordsBit(Either, a, b, k);
      OnWordsBit(Differing, a, b, k);
    }
  }

  // ---- Shifts ----

  lemma ShiftLeftIsResult(a: Word, b: Word)
    requires b < 32
    ensures IsResult(Shl, a, b, ShiftLeft(a, b))
  {
    hide Wrap, Signed, Congruent;
    var p := Pow2(b);
    SignedIs(a);
    assert Congruent(p, p) by { Same(p); }
    CongruentProduct(Signed(a), p, a, p);
    WrapIsCongruent(a * p);
    CongruentBack(Wrap(a * p), Signed(a) * p, a * p);
  }

  lemma Same(x: int)
    ensures Congruent(x, x)
  {}

  lemma ShiftRightIsResult(a: Word, b: Word)
    requires b < 32
    ensures IsResult(Shr, a, b, ShiftRight(a, b))
  {
    var p := Pow2(b);
    var q := Signed(a) / p;
    assert Signed(a) == p * q + Signed(a) % p;
    assert p * q == q * p && (q + 1) * p == q * p + p;
    if q >= 0 { AtLeastTimes(q, p); } else { AtLeastTimes(-q - 1, p); }
    SignedIs(a);
    assert (-q - 1) * p == -(q * p) - p;
    SignedOfWrap(q);
  }

  lemma AtLeastTimes(q: nat, p: nat)
    requires p >= 1
    ensures q * p >= q
  {}

  // ---- The arithmetic of the machine ----

  /** Where C defines a result the machine computes it, elsewhere nothing. */
  lemma ArithIsResult(op: BinOp, a: Word, b: Word)
    ensures Arith(op, a, b).Some? <==> Defined(op, a, b)
    ensures Arith(op, a, b).Some? ==> IsResult(op, a, b, Arith(op, a, b).value)
  {
    hide Congruent, Bit, Quotient, ShiftLeft, ShiftRight, BitAnd, BitOr, BitXor, Wrap, Signed;
    match op
    case Add => SumIsResult(a, b);
    case Sub => SumIsResult(a, b);
    case Mul => ProductIsResult(a, b);
    case And => BitsAreResults(a, b);
    case Or => BitsAreResults(a, b);
    case Xor => BitsAreResults(a, b);
    case Shl => if b < 32 { ShiftLeftIsResult(a, b); }
    case Shr => if b < 32 { ShiftRightIsResult(a, b); }
    case Div => UndefinedDivision(a, b); if !DivisionUndefined(a, b) { DivisionIsResult(a, b); }
    case Mod => UndefinedDivision(a, b); if !DivisionUndefined(a, b) { DivisionIsResult(a, b); }
  }

  lemma FloorOnce(s: int, p: nat, x: int, y: int)
    requires x * p <= s < (x + 1) * p && y * p <= s < (y + 1) * p
    ensures x == y
  {
    Difference(y, x + 1, p);
    Difference(x, y + 1, p);
    TimesNegative(y - x - 1, p);
    TimesNegative(x - y - 1, p);
  }

  lemma TimesNegative(d: int, p: nat)
    ensures d >= 0 ==> d * p >= 0
  {}

  /** No two words are results of the same operation. */
  lemma ResultIsUnique(op: BinOp, a: Word, b: Word, r: Word, r': Word)
    requires Defined(op, a, b) && IsResult(op, a, b, r) && IsResult(op, a, b, r')
    ensures r == r'
  {
    hide Congruent, Bit, Signed, Divided;
    SignedIs(b);
    match op
    case Add => CongruentTwice(r, r', Signed(a) + Signed(b));
    case Sub => CongruentTwice(r, r', Signed(a) - Signed(b));
    case Mul => CongruentTwice(r, r', Signed(a) * Signed(b));
    case Shl => CongruentTwice(r, r', Signed(a) * Pow2(b));
    case And => WordRange(); SameBits(r, r', 32);
    case Or => WordRange(); SameBits(r, r', 32);
    case Xor => WordRange(); SameBits(r, r', 32);
    case Shr => FloorOnce(Signed(a), Pow2(b), Signed(r), Signed(r')); SignedDetermines(r, r');
    case Div =>
      var m :| Divided(Signed(a), Signed(b), Signed(r), m);
      var m' :| Divided(Signed(a), Signed(b), Signed(r'), m');
      NotZero(b);
      DividedOnce(Signed(a), Signed(b), Signed(r), m, Signed(r'), m');
      SignedDetermines(r, r');
    case Mod =>
      var q :| Divided(Signed(a), Signed(b), q, Signed(r));
      var q' :| Divided(Signed(a), Signed(b), q', Signed(r'));
      NotZero(b);
      DividedOnce(Signed(a), Signed(b), q, Signed(r), q', Signed(r'));
      SignedDetermines(r, r');
  }

  lemma NotZero(b: Word)
    requires b != 0
    ensures Signed(b) != 0
  {}

  lemma CongruentTwice(r: Word, r': Word, x: int)
    requires Congruent(r, x) && Congruent(r', x)
    ensures r == r'
  {
    CongruentBack(r, r', x);
    CongruentWords(r, r');
  }

  /** The machine computes exactly what C lays down. */
  lemma ArithIff(op: BinOp, a: Word, b: Word, r: Word)
    ensures Arith(op, a, b) == Some(r) <==> Defined(op, a, b) && IsResult(op, a, b, r)
  {
    hide IsResult, Arith;
    ArithIsResult(op, a, b);
    if Defined(op, a, b) && IsResult(op, a, b, r) { ResultIsUnique(op, a, b, r, Arith(op, a, b).value); }
  }
}
