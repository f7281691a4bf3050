/**
 The instruction set of the shell's stack machine as functions on values: memory, arithmetic on
 32-bit cells, one step, and running up to an address of the text segment.
 */
module FinshMachine {
  import opened Division
  import opened FinshTree

  const STACK_MAX: nat := 64
  const TEXT_MAX: nat := 128

  datatype Option<+T> = None | Some(value: T)

  type Memory = map<Word, Byte>

  /** The registered system calls: a function address, the arguments and the memory determine the
      returned value and the new memory. */
  type Calls = (Word, seq<Word>, Memory) -> (Word, Memory)

  // ---- Memory cells ----

  function ByteAt(m: Memory, a: Word): Byte { if a in m then m[a] else 0 }

  function Assemble(b0: Byte, b1: Byte, b2: Byte, b3: Byte): Word {
    b0 + 0x100 * b1 + 0x1_0000 * b2 + 0x100_0000 * b3
  }

  function Load(m: Memory, a: Word): Word {
    Assemble(ByteAt(m, a), ByteAt(m, Wrap(a + 1)), ByteAt(m, Wrap(a + 2)), ByteAt(m, Wrap(a + 3)))
  }

  function Store(m: Memory, a: Word, v: Word): Memory {
    var d := Dword(v);
    m[a := d[0]][Wrap(a + 1) := d[1]][Wrap(a + 2) := d[2]][Wrap(a + 3) := d[3]]
  }

  lemma AssembleInvertsDword(v: Word)
    ensures var d := Dword(v); Assemble(d[0], d[1], d[2], d[3]) == v
  {
    var q1, q2, q3 := v / 0x100, v / 0x1_0000, v / 0x100_0000;
    DivideTwice(v, 0x100);
    DivideTwice(q1, 0x100);
    assert q2 == q1 / 0x100 && q3 == q2 / 0x100;
  }

  lemma DivideTwice(v: Word, d: Word)
    requires d == 0x100
    ensures v / 0x1_0000 == v / d / 0x100
    ensures v / 0x100_0000 == v / d / 0x1_0000
  {}

  lemma LoadAfterStore(m: Memory, a: Word, v: Word)
    ensures Load(Store(m, a, v), a) == v
  {
    AssembleInvertsDword(v);
    assert a != Wrap(a + 1) && a != Wrap(a + 2) && a != Wrap(a + 3);
    assert Wrap(a + 1) != Wrap(a + 2) && Wrap(a + 1) != Wrap(a + 3) && Wrap(a + 2) != Wrap(a + 3);
  }

  /** The four addresses of a word. */
  function Cells(a: Word): set<Word> { {a, Wrap(a + 1), Wrap(a + 2), Wrap(a + 3)} }

  /** Storing a word changes no word whose four bytes are elsewhere. */
  lemma StoreKeepsOthers(m: Memory, a: Word, v: Word, b: Word)
    requires Cells(a) !! Cells(b)
    ensures Load(Store(m, a, v), b) == Load(m, b)
  {}

  // ---- Arithmetic on `long` cells ----

  function Signed(w: Word): int { if w < 0x8000_0000 then w else w - 0x1_0000_0000 }

  /** C division, which truncates toward zero. */
  function Quotient(a: int, b: int): int
    requires b != 0
  {
    if a >= 0 then a / b else -((-a) / b)
  }

  /** The number whose `n` binary digits are made from those of `a` and `b`. */
  function Bitwise(f: (bool, bool) -> bool, a: nat, b: nat, n: nat): (r: nat)
    ensures r < Pow2(n)
  {
    if n == 0 then 0 else (if f(a % 2 == 1, b % 2 == 1) then 1 else 0) + 2 * Bitwise(f, a / 2, b / 2, n - 1)
  }

  lemma WordRange()
    ensures Pow2(32) == 0x1_0000_0000
  {
    assert Pow2(8) == 0x100;
    assert Pow2(16) == 0x1_0000;
    assert Pow2(24) == 0x100_0000;
  }

  function OnWords(f: (bool, bool) -> bool, a: Word, b: Word): Word {
    WordRange();
    Bitwise(f, a, b, 32)
  }

  predicate Both(x: bool, y: bool) { x && y }

  predicate Either(x: bool, y: bool) { x || y }

  predicate Differing(x: bool, y: bool) { x != y }

  function BitAnd(a: Word, b: Word): Word { OnWords(Both, a, b) }

  function BitOr(a: Word, b: Word): Word { OnWords(Either, a, b) }

  function BitXor(a: Word, b: Word): Word { OnWords(Differing, a, b) }

  function ShiftLeft(a: Word, b: Word): Word
    requires b < 32
  {
    Wrap(a * Pow2(b))
  }

  /** Arithmetic shift: the sign bit is copied in from the left. */
  function ShiftRight(a: Word, b: Word): Word
    requires b < 32
  {
    Wrap(Signed(a) / Pow2(b))
  }

  /** The value of `a op b`; none where C leaves it undefined. */
  function Arith(op: BinOp, a: Word, b: Word): Option<Word> {
    match op
    case Add => Some(Wrap(a + b))
    case Sub => Some(Wrap(a - b))
    case Mul => Some(Wrap(a * b))
    case And => Some(BitAnd(a, b))
    case Or => Some(BitOr(a, b))
    case Xor => Some(BitXor(a, b))
    case Shl => if b >= 32 then None else Some(ShiftLeft(a, b))
    case Shr => if b >= 32 then None else Some(ShiftRight(a, b))
    case Div =>
      if DivisionUndefined(a, b) then None else Some(Wrap(Quotient(Signed(a), Signed(b))))
    case Mod =>
      if DivisionUndefined(a, b) then None
      else Some(Wrap(Signed(a) - Signed(b) * Quotient(Signed(a), Signed(b))))
  }

  predicate DivisionUndefined(a: Word, b: Word) {
    b == 0 || (a == 0x8000_0000 && b == 0xFFFF_FFFF)
  }

  function Complement(a: Word): Word { 0xFFFF_FFFF - a }

  // ---- Decoding and stepping ----

  datatype Instr =
    | Nop | Binary(op: BinOp) | Invert
    | Push | PushLoad | LoadTop | StoreTop | Drop | Call
    | Unsupported

  /** The table of operations; byte- and word-wide operations are not part of this machine. */
  function Decode(op: Byte): Instr {
    if op == 0 then Nop
    else if op == 0x03 then Binary(Add)
    else if op == 0x06 then Binary(Sub)
    else if op == 0x09 then Binary(Div)
    else if op == 0x0C then Binary(Mod)
    else if op == 0x0F then Binary(Mul)
    else if op == 0x12 then Binary(And)
    else if op == 0x15 then Binary(Or)
    else if op == 0x18 then Binary(Xor)
    else if op == 0x1B then Invert
    else if op == 0x1E then Binary(Shl)
    else if op == 0x21 then Binary(Shr)
    else if op == 0x24 then Push
    else if op == 0x27 then PushLoad
    else if op == 0x2A then StoreTop
    else if op == 0x2B then Drop
    else if op == 0x2C then Call
    else if op == 0x2F then LoadTop
    else Unsupported
  }

  function OperandLength(i: Instr): nat {
    match i case Push | PushLoad => 4 case Call => 1 case _ => 0
  }

  /** The system calls and the number of stack slots of a machine. */
  datatype Machine = Machine(calls: Calls, slots: nat)

  /** `stack` holds the slots below the stack pointer. */
  datatype State = State(pc: nat, stack: seq<Word>, mem: Memory)

  function Operand(text: seq<Byte>, pc: nat): Word
    requires pc + 4 <= |text|
  {
    Assemble(text[pc], text[pc + 1], text[pc + 2], text[pc + 3])
  }

  /** What an instruction does to the stack and the memory, given its operand; none if it would leave
      the stack, overrun the argument array of a call, or is undefined arithmetic. */
  function Effect(vm: Machine, i: Instr, x: Word, s: seq<Word>, m: Memory): Option<(seq<Word>, Memory)> {
    match i
    case Nop => Some((s, m))
    case Push => if |s| < vm.slots then Some((s + [x], m)) else None
    case PushLoad => if |s| < vm.slots then Some((s + [Load(m, x)], m)) else None
    case LoadTop => if |s| >= 1 then Some((s[..|s| - 1] + [Load(m, s[|s| - 1])], m)) else None
    case StoreTop => if |s| >= 2 then Some((s[..|s| - 1], Store(m, s[|s| - 2], s[|s| - 1]))) else None
    case Drop => if |s| >= 1 then Some((s[..|s| - 1], m)) else None
    case Invert => if |s| >= 1 then Some((s[..|s| - 1] + [Complement(s[|s| - 1])], m)) else None
    case Binary(op) =>
      if |s| < 2 then None
      else
        (match Arith(op, s[|s| - 2], s[|s| - 1])
         case None => None
         case Some(v) => Some((s[..|s| - 2] + [v], m)))
    case Call =>
      if |s| < x + 1 || x > 16 then None
      else
        var (r, m') := vm.calls(s[|s| - 1 - x], s[|s| - x..], m);
        Some((s[..|s| - 1 - x] + [r], m'))
    case Unsupported => None
  }

  function Step(vm: Machine, text: seq<Byte>, st: State): (r: Option<State>)
    requires st.pc < |text|
    ensures r.Some? ==> st.pc < r.value.pc <= |text|
  {
    var i := Decode(text[st.pc]);
    var next := st.pc + 1 + OperandLength(i);
    if next > |text| then None
    else
      var x: Word := if OperandLength(i) == 4 then Operand(text, st.pc + 1) else if i.Call? then text[st.pc + 1] else 0;
      match Effect(vm, i, x, st.stack, st.mem)
      case None => None
      case Some(e) => Some(State(next, e.0, e.1))
  }

  /** Run until the program counter reaches `end`. */
  function Exec(vm: Machine, text: seq<Byte>, st: State, end: nat): (r: Option<State>)
    requires end <= |text|
    ensures r.Some? ==> end <= r.value.pc && (st.pc <= |text| ==> r.value.pc <= |text|)
    decreases end - st.pc
  {
    if st.pc >= end then Some(st)
    else
      match Step(vm, text, st)
      case None => None
      case Some(st') => Exec(vm, text, st', end)
  }

  /** The number of dispatches of the fetch loop. */
  function Dispatches(vm: Machine, text: seq<Byte>, st: State): nat
    decreases |text| - st.pc
  {
    if st.pc >= |text| then 0
    else
      match Step(vm, text, st)
      case None => 1
      case Some(st') => 1 + Dispatches(vm, text, st')
  }

  // ---- Laws of execution ----

  lemma {:induction false} ExecTwice(vm: Machine, text: seq<Byte>, st: State, mid: nat, end: nat)
    requires mid <= end <= |text|
    requires Exec(vm, text, st, mid).Some?
    ensures Exec(vm, text, st, end) == Exec(vm, text, Exec(vm, text, st, mid).value, end)
    decreases mid - st.pc
  {
    if st.pc < mid {
      ExecTwice(vm, text, Step(vm, text, st).value, mid, end);
    }
  }

  /** The program counter advances at every dispatch, so the fetch loop makes at most one dispatch
      per byte of text that is left. */
  lemma {:induction false} DispatchesBounded(vm: Machine, text: seq<Byte>, st: State)
    requires st.pc <= |text|
    ensures Dispatches(vm, text, st) <= |text| - st.pc
    decreases |text| - st.pc
  {
    if st.pc < |text| && Step(vm, text, st).Some? {
      DispatchesBounded(vm, text, Step(vm, text, st).value);
    }
  }

  /** Zero-filled text is a sequence of no-operations. */
  lemma {:induction false} ZerosDoNothing(vm: Machine, text: seq<Byte>, st: State)
    requires st.pc <= |text|
    requires forall k :: st.pc <= k < |text| ==> text[k] == 0
    ensures Exec(vm, text, st, |text|) == Some(st.(pc := |text|))
    decreases |text| - st.pc
  {
    if st.pc < |text| {
      assert Step(vm, text, st) == Some(st.(pc := st.pc + 1));
      ZerosDoNothing(vm, text, st.(pc := st.pc + 1));
    }
  }
}
