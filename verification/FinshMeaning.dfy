/**
 What an expression of the shell means, by direct evaluation from left to right, and the proof
 that the compiled byte code computes exactly that.
 */
module FinshMeaning {
  import opened FinshTree
  import opened FinshMachine

  // ---- Direct evaluation ----

  function PlaceOf(sym: Symbol): Option<Word> {
    match sym
    case Var(_, a) => Some(a)
    case SysVar(_, a, _) => Some(a)
    case _ => None
  }

  /** Whether the first operand is evaluated to the place it denotes, not to the value held there. */
  function WantsPlace(kind: Kind, place: bool): bool {
    match kind
    case Assign | PreInc | PreDec | GetAddr => true
    case GetValue => false
    case _ => place
  }

  /** The value of an operator from the values of its operands, and the memory after it. */
  function Apply(calls: Calls, info: Info, kids: Forest, place: bool, ks: seq<Word>,
                 m: Memory): Option<(Word, Memory)> {
    match info.kind
    case Id =>
      if info.sym.SysCall? then Some((info.sym.func, m))
      else
        (match PlaceOf(info.sym)
         case None => None
         case Some(a) => Some((if place then a else Load(m, a), m)))
    case ValueInt | ValueLong | ValueString | ValueNull => Some((info.value, m))
    case ValueChar => None
    case Bin(op) =>
      if |ks| != 2 then None
      else
        (match Arith(op, ks[0], ks[1])
         case None => None
         case Some(v) => Some((v, m)))
    case Bitwise => if |ks| != 1 then None else Some((Complement(ks[0]), m))
    case GetValue => if |ks| != 1 then None else Some((if place then ks[0] else Load(m, ks[0]), m))
    case GetAddr => if |ks| != 1 then None else Some((ks[0], m))
    case Assign => if |ks| != 2 then None else Some((ks[1], Store(m, ks[0], ks[1])))
    case PreInc => if |ks| != 1 then None else Bumped(ks[0], m, 1)
    case PreDec => if |ks| != 1 then None else Bumped(ks[0], m, -1)
    case Inc => if |ks| != 1 || kids.Nil? then None else OldValue(PlaceOf(kids.info.sym), m, 1)
    case Dec => if |ks| != 1 || kids.Nil? then None else OldValue(PlaceOf(kids.info.sym), m, -1)
    case Func => if |ks| == 0 || |ks| > 17 then None else Some(calls(ks[0], ks[1..], m))
  }

  /** Add `delta` to the cell at `a`; the value is the new content. */
  function Bumped(a: Word, m: Memory, delta: int): Option<(Word, Memory)> {
    var v := Wrap(Load(m, a) + delta);
    Some((v, Store(m, a, v)))
  }

  /** Add `delta` to a cell; the value is the content it had. */
  function OldValue(a: Option<Word>, m: Memory, delta: int): Option<(Word, Memory)> {
    match a
    case None => None
    case Some(a) => Some((Load(m, a), Store(m, a, Wrap(Load(m, a) + delta))))
  }

  /** The values of a list of sibling expressions, evaluated left to right, and the memory after the last. */
  function Values(calls: Calls, f: Forest, place: bool, m: Memory): Option<(seq<Word>, Memory)> {
    match f
    case Nil => Some(([], m))
    case Cons(_, info, kids, rest) =>
      match Values(calls, kids, WantsPlace(info.kind, place), m)
      case None => None
      case Some(operands) =>
        match Apply(calls, info, kids, place, operands.0, operands.1)
        case None => None
        case Some(first) =>
          match Values(calls, rest, false, first.1)
          case None => None
          case Some(others) => Some(([first.0] + others.0, others.1))
  }

  /** A list of statements: each is evaluated in the memory the one before left; the last value counts. */
  function Meaning(calls: Calls, f: Forest, m: Memory): Option<(seq<Word>, Memory)> {
    match f
    case Nil => Some(([], m))
    case Cons(slot, info, kids, rest) =>
      match Values(calls, Cons(slot, info, kids, Nil), false, m)
      case None => None
      case Some(one) => if rest.Nil? then Some(one) else Meaning(calls, rest, one.1)
  }

  // ---- The fragment on 32-bit cells ----

  /** The data type the type check will give to the first tree of a forest. */
  function HeadType(f: Forest): DataType {
    match f
    case Nil => VOID
    case Cons(_, info, kids, _) => if kids.Cons? then HeadType(kids) else LeafType(info)
  }

  predicate LongCell(sym: Symbol) {
    (sym.Var? || sym.SysVar?) && LoadClass(sym.ctype) == DWORD
  }

  /** One tree of the 32-bit fragment: leaves of int, long or pointer type other than `void*`, targets that
      are identifiers or dereferences, increments of shell variables, and operators whose first operand is not
      typed by a system call. */
  predicate LongNode(info: Info, kids: Forest, place: bool) {
    !info.isAddr && (info.kind.Id? || info.sym.NoSymbol?) &&
    match info.kind
    case Id => kids.Nil? && (LongCell(info.sym) || (info.sym.SysCall? && !place))
    case ValueInt | ValueLong | ValueString | ValueNull => kids.Nil? && !place
    case ValueChar => false
    case Bin(_) => !place && Count(kids) == 2 && HeadType(kids) == DWORD
    case Bitwise => !place && Count(kids) == 1 && HeadType(kids) == DWORD
    case GetValue => Count(kids) == 1 && HeadType(kids) == DWORD
    case GetAddr =>
        !place && Count(kids) == 1 && (kids.info.kind.GetValue? || (kids.info.kind.Id? && LongCell(kids.info.sym)))
    case Assign =>
        !place && Count(kids) == 2 && HeadType(kids) == DWORD && (kids.info.kind.Id? || kids.info.kind.GetValue?)
    case PreInc | PreDec | Inc | Dec =>
      !place && Count(kids) == 1 && kids.info.kind.Id? && kids.info.sym.Var? && LongCell(kids.info.sym)
    case Func => !place && 1 <= Count(kids) <= 17
  }

  predicate LongForest(f: Forest, place: bool) {
    match f
    case Nil => true
    case Cons(_, info, kids, rest) =>
      LongNode(info, kids, place) && LongForest(kids, WantsPlace(info.kind, place)) && LongForest(rest, false)
  }

  lemma {:induction false} CheckedHeadType(f: Forest, isAddr: bool)
    requires f.Cons?
    ensures Checked(f, isAddr).Cons? && Checked(f, isAddr).info.dataType == HeadType(f)
  {
    if f.kids.Cons? {
      CheckedHeadType(f.kids, ChildAddr(f.info.kind, isAddr));
    }
  }

  lemma {:induction false} CheckedCount(f: Forest, isAddr: bool)
    ensures Count(Checked(f, isAddr)) == Count(f)
  {
    if f.Cons? {
      CheckedCount(f.rest, false);
    }
  }

  lemma {:induction false} ValuesCount(calls: Calls, f: Forest, place: bool, m: Memory)
    requires Values(calls, f, place, m).Some?
    ensures |Values(calls, f, place, m).value.0| == Count(f)
  {
    if f.Cons? {
      var operands := Values(calls, f.kids, WantsPlace(f.info.kind, place), m).value;
      var first := Apply(calls, f.info, f.kids, place, operands.0, operands.1).value;
      ValuesCount(calls, f.rest, false, first.1);
    }
  }

  // ---- Pieces of text ----

  ghost predicate At(text: seq<Byte>, pc: nat, code: seq<Byte>) {
    pc + |code| <= |text| && text[pc..pc + |code|] == code
  }

  lemma AtSplit(text: seq<Byte>, pc: nat, a: seq<Byte>, b: seq<Byte>)
    requires At(text, pc, a + b)
    ensures At(text, pc, a) && At(text, pc + |a|, b)
  {
    var whole := text[pc..pc + |a + b|];
    assert a == whole[..|a|] == text[pc..pc + |a|];
    assert b == whole[|a|..] == text[pc + |a|..pc + |a| + |b|];
  }

  /** The code at `pc` takes one state of stack and memory to another. */
  ghost predicate Runs(vm: Machine, text: seq<Byte>, pc: nat, s: seq<Word>, m: Memory, end: nat, s': seq<Word>,
                       m': Memory) {
    pc <= end <= |text| && Exec(vm, text, State(pc, s, m), end) == Some(State(end, s', m'))
  }

  lemma Then(vm: Machine, text: seq<Byte>, pc: nat, s: seq<Word>, m: Memory, mid: nat, s1: seq<Word>, m1: Memory,
             end: nat, s2: seq<Word>, m2: Memory)
    requires Runs(vm, text, pc, s, m, mid, s1, m1)
    requires Runs(vm, text, mid, s1, m1, end, s2, m2)
    ensures Runs(vm, text, pc, s, m, end, s2, m2)
  {
    ExecTwice(vm, text, State(pc, s, m), mid, end);
  }

  lemma PlainStep(vm: Machine, text: seq<Byte>, pc: nat, op: Byte, s: seq<Word>, m: Memory)
    requires At(text, pc, [op])
    requires OperandLength(Decode(op)) == 0
    requires Effect(vm, Decode(op), 0, s, m).Some?
    ensures var e := Effect(vm, Decode(op), 0, s, m).value; Runs(vm, text, pc, s, m, pc + 1, e.0, e.1)
  {
    hide Effect, Decode;
    assert text[pc] == text[pc..pc + 1][0];
    var st := State(pc, s, m);
    var e := Effect(vm, Decode(op), 0, s, m).value;
    assert Step(vm, text, st) == Some(State(pc + 1, e.0, e.1));
    assert Exec(vm, text, State(pc + 1, e.0, e.1), pc + 1) == Some(State(pc + 1, e.0, e.1));
  }

  lemma WordStep(vm: Machine, text: seq<Byte>, pc: nat, op: Byte, x: Word, s: seq<Word>, m: Memory)
    requires At(text, pc, [op] + Dword(x))
    requires OperandLength(Decode(op)) == 4
    requires Effect(vm, Decode(op), x, s, m).Some?
    ensures var e := Effect(vm, Decode(op), x, s, m).value; Runs(vm, text, pc, s, m, pc + 5, e.0, e.1)
  {
    hide Effect, Decode;
    OperandRead(text, pc, op, x);
    var st := State(pc, s, m);
    var e := Effect(vm, Decode(op), x, s, m).value;
    assert Step(vm, text, st) == Some(State(pc + 5, e.0, e.1));
    assert Exec(vm, text, State(pc + 5, e.0, e.1), pc + 5) == Some(State(pc + 5, e.0, e.1));
  }

  lemma OperandRead(text: seq<Byte>, pc: nat, op: Byte, x: Word)
    requires At(text, pc, [op] + Dword(x))
    ensures text[pc] == op && Operand(text, pc + 1) == x
  {
    hide Assemble;
    AssembleInvertsDword(x);
    var piece := text[pc..pc + 5];
    assert piece[0] == text[pc] && piece[1] == text[pc + 1] && piece[2] == text[pc + 2]
        && piece[3] == text[pc + 3] && piece[4] == text[pc + 4];
  }

  lemma CallStep(vm: Machine, text: seq<Byte>, pc: nat, n: Byte, s: seq<Word>, m: Memory)
    requires At(text, pc, [SYSCALL, n])
    requires Effect(vm, Call, n, s, m).Some?
    ensures var e := Effect(vm, Call, n, s, m).value; Runs(vm, text, pc, s, m, pc + 2, e.0, e.1)
  {
    hide Effect;
    assert text[pc] == text[pc..pc + 2][0] && text[pc + 1] == text[pc..pc + 2][1];
    var st := State(pc, s, m);
    var e := Effect(vm, Call, n, s, m).value;
    assert Step(vm, text, st) == Some(State(pc + 2, e.0, e.1));
    assert Exec(vm, text, State(pc + 2, e.0, e.1), pc + 2) == Some(State(pc + 2, e.0, e.1));
  }

  // ---- One operator ----

  /** The attributes the type check gives to a node. */
  function CheckedInfo(info: Info, kids: Forest, isAddr: bool): Info {
    info.(isAddr := Marked(info, isAddr), dataType := if kids.Cons? then HeadType(kids) else LeafType(info))
  }

  lemma PushStep(vm: Machine, text: seq<Byte>, pc: nat, x: Word, s: seq<Word>, m: Memory)
    requires At(text, pc, [LD_DWORD] + Dword(x)) && |s| < vm.slots
    ensures Runs(vm, text, pc, s, m, pc + 5, s + [x], m)
  {
    hide Load, Exec, Dword, At;
    WordStep(vm, text, pc, LD_DWORD, x, s, m);
  }

  lemma LoadStep(vm: Machine, text: seq<Byte>, pc: nat, cell: Word, s: seq<Word>, m: Memory)
    requires At(text, pc, [0x27] + Dword(cell)) && |s| < vm.slots
    ensures Runs(vm, text, pc, s, m, pc + 5, s + [Load(m, cell)], m)
  {
    hide Load, Exec, Dword, At;
    WordStep(vm, text, pc, 0x27, cell, s, m);
  }

  lemma BumpPieces(text: seq<Byte>, pc: nat, base: Byte, cell: Word)
    requires base <= 0x04 && At(text, pc, BumpCode(base, cell, DWORD))
    ensures At(text, pc, [0x27] + Dword(cell)) && At(text, pc + 5, [LD_DWORD] + Dword(1))
    ensures At(text, pc + 10, [base + 2]) && At(text, pc + 11, [0x2A])
  {
    hide At, Dword;
    DwordLength(cell); DwordLength(1);
    AtSplit(text, pc, ([0x27] + Dword(cell)) + ([LD_DWORD] + Dword(1)), [base + 2, 0x2A]);
    AtSplit(text, pc, [0x27] + Dword(cell), [LD_DWORD] + Dword(1));
    assert [base + 2, 0x2A] == [base + 2] + [0x2A];
    AtSplit(text, pc + 10, [base + 2], [0x2A]);
  }

  lemma BumpRuns(vm: Machine, text: seq<Byte>, pc: nat, base: Byte, cell: Word, s: seq<Word>, m: Memory, delta: int)
    requires (base == 0x01 && delta == 1) || (base == 0x04 && delta == -1)
    requires At(text, pc, BumpCode(base, cell, DWORD))
    requires |s| + 3 <= vm.slots
    ensures Runs(vm, text, pc, s + [cell], m, pc + 12, s + [cell], Store(m, cell, Wrap(Load(m, cell) + delta)))
  {
    hide Load, Store, Exec, Assemble, Dword, Wrap, At, BumpCode, Runs;
    var v := Load(m, cell);
    BumpPieces(text, pc, base, cell);
    LoadStep(vm, text, pc, cell, s + [cell], m);
    PushStep(vm, text, pc + 5, 1, s + [cell] + [v], m);
    Then(vm, text, pc, s + [cell], m, pc + 5, s + [cell] + [v], m, pc + 10, s + [cell] + [v] + [1], m);
    BumpTail(vm, text, pc + 10, base, cell, v, s, m, delta);
    Then(vm, text, pc, s + [cell], m, pc + 10, s + [cell] + [v] + [1], m, pc + 12, s + [cell],
        Store(m, cell, Wrap(v + delta)));
  }

  lemma BumpTail(vm: Machine, text: seq<Byte>, pc: nat, base: Byte, cell: Word, v: Word, s: seq<Word>, m: Memory,
                 delta: int)
    requires (base == 0x01 && delta == 1) || (base == 0x04 && delta == -1)
    requires At(text, pc, [base + 2]) && At(text, pc + 1, [0x2A])
    ensures Runs(vm, text, pc, s + [cell] + [v] + [1], m, pc + 2, s + [cell], Store(m, cell, Wrap(v + delta)))
  {
    hide Load, Store, Exec, Wrap;
    var s1 := s + [cell] + [v] + [1];
    assert s1[..|s1| - 2] == s + [cell];
    PlainStep(vm, text, pc, base + 2, s1, m);
    var w := Wrap(v + delta);
    var s2 := s + [cell] + [w];
    assert s2[..|s2| - 1] == s + [cell];
    PlainStep(vm, text, pc + 1, 0x2A, s2, m);
    Then(vm, text, pc, s1, m, pc + 1, s2, m, pc + 2, s + [cell], Store(m, cell, w));
  }

  lemma LeafRuns(vm: Machine, text: seq<Byte>, pc: nat, info: Info, place: bool, s: seq<Word>, m: Memory)
    requires LongNode(info, Nil, place)
    requires info.kind.Id? || info.kind.ValueInt? || info.kind.ValueLong? || info.kind.ValueString?
             || info.kind.ValueNull?
    requires At(text, pc, NodeCode(CheckedInfo(info, Nil, place), Nil)) && |s| < vm.slots
    requires Apply(vm.calls, info, Nil, place, [], m).Some?
    ensures var r := Apply(vm.calls, info, Nil, place, [], m).value;
            r.1 == m && Runs(vm, text, pc, s, m, pc + 5, s + [r.0], m)
    ensures |NodeCode(CheckedInfo(info, Nil, place), Nil)| == 5
  {
    hide Load, Exec, Dword, At, Runs;
    if info.kind.Id? && !info.sym.SysCall? {
      DwordLength(info.sym.address);
      if place {
        PushStep(vm, text, pc, info.sym.address, s, m);
      } else {
        LoadStep(vm, text, pc, info.sym.address, s, m);
      }
    } else {
      var x := if info.kind.Id? then info.sym.func else info.value;
      DwordLength(x);
      PushStep(vm, text, pc, x, s, m);
    }
  }

  lemma DecodeBinary(op: BinOp)
    ensures Decode(BinBase(op) + 2) == Binary(op)
  {}

  lemma BinaryRuns(vm: Machine, text: seq<Byte>, pc: nat, op: BinOp, s: seq<Word>, a: Word, b: Word, v: Word, m: Memory)
    requires At(text, pc, [BinBase(op) + 2]) && Arith(op, a, b) == Some(v)
    ensures Runs(vm, text, pc, s + [a, b], m, pc + 1, s + [v], m)
  {
    hide Arith, BinBase, Exec, Decode, At, Runs;
    DecodeBinary(op);
    var st := s + [a, b];
    assert st[..|st| - 2] == s;
    PlainStep(vm, text, pc, BinBase(op) + 2, st, m);
  }

  lemma InvertRuns(vm: Machine, text: seq<Byte>, pc: nat, s: seq<Word>, a: Word, m: Memory)
    requires At(text, pc, [0x1B])
    ensures Runs(vm, text, pc, s + [a], m, pc + 1, s + [Complement(a)], m)
  {
    hide Exec, At, Runs;
    var st := s + [a];
    assert st[..|st| - 1] == s;
    PlainStep(vm, text, pc, 0x1B, st, m);
  }

  lemma LoadTopRuns(vm: Machine, text: seq<Byte>, pc: nat, s: seq<Word>, a: Word, m: Memory)
    requires At(text, pc, [LD_VALUE_DWORD_STACK])
    ensures Runs(vm, text, pc, s + [a], m, pc + 1, s + [Load(m, a)], m)
  {
    hide Exec, At, Runs, Load;
    var st := s + [a];
    assert st[..|st| - 1] == s;
    PlainStep(vm, text, pc, LD_VALUE_DWORD_STACK, st, m);
  }

  lemma DropRuns(vm: Machine, text: seq<Byte>, pc: nat, s: seq<Word>, a: Word, m: Memory)
    requires At(text, pc, [POP])
    ensures Runs(vm, text, pc, s + [a], m, pc + 1, s, m)
  {
    hide Exec, At, Runs;
    var st := s + [a];
    assert st[..|st| - 1] == s;
    PlainStep(vm, text, pc, POP, st, m);
  }

  /** Store and load again: the place on the stack is replaced by the value stored there. */
  lemma StoreRuns(vm: Machine, text: seq<Byte>, pc: nat, s: seq<Word>, a: Word, v: Word, m: Memory)
    requires At(text, pc, [0x2A, LD_VALUE_DWORD_STACK])
    ensures Runs(vm, text, pc, s + [a, v], m, pc + 2, s + [v], Store(m, a, v))
  {
    hide Exec, At, Runs, Load, Store;
    assert [0x2A, LD_VALUE_DWORD_STACK] == [0x2A] + [LD_VALUE_DWORD_STACK];
    AtSplit(text, pc, [0x2A], [LD_VALUE_DWORD_STACK]);
    var st := s + [a, v];
    assert st[..|st| - 1] == s + [a];
    PlainStep(vm, text, pc, 0x2A, st, m);
    LoadAfterStore(m, a, v);
    LoadTopRuns(vm, text, pc + 1, s, a, Store(m, a, v));
    Then(vm, text, pc, st, m, pc + 1, s + [a], Store(m, a, v), pc + 2, s + [v], Store(m, a, v));
  }

  lemma CallRuns(vm: Machine, text: seq<Byte>, pc: nat, s: seq<Word>, ks: seq<Word>, m: Memory)
    requires 1 <= |ks| <= 17 && At(text, pc, [SYSCALL, |ks| - 1])
    ensures var r := vm.calls(ks[0], ks[1..], m); Runs(vm, text, pc, s + ks, m, pc + 2, s + [r.0], r.1)
  {
    hide Exec, At, Runs;
    var st, n := s + ks, |ks| - 1;
    assert st[..|st| - 1 - n] == s && st[|st| - n..] == ks[1..] && st[|st| - 1 - n] == ks[0];
    CallStep(vm, text, pc, n, st, m);
  }

  /** The code of one operator turns its operands on the stack into its value. */
  ghost predicate Implements(vm: Machine, text: seq<Byte>, pc: nat, code: seq<Byte>, s: seq<Word>, ks: seq<Word>,
                             m: Memory, r: Option<(Word, Memory)>) {
    r.Some? && Runs(vm, text, pc, s + ks, m, pc + |code|, s + [r.value.0], r.value.1)
  }

  lemma OperatorRuns(vm: Machine, text: seq<Byte>, pc: nat, info: Info, kids: Forest, place: bool, s: seq<Word>,
                     ks: seq<Word>, m: Memory, code: seq<Byte>)
    requires LongNode(info, kids, place) && |ks| == Count(kids)
    requires info.kind.Bin? || info.kind.Bitwise? || info.kind.GetValue? || info.kind.GetAddr?
    requires code == NodeCode(CheckedInfo(info, kids, place), Checked(kids, ChildAddr(info.kind, place)))
    requires At(text, pc, code)
    requires Apply(vm.calls, info, kids, place, ks, m).Some?
    ensures Implements(vm, text, pc, code, s, ks, m, Apply(vm.calls, info, kids, place, ks, m))
  {
    hide Load, Store, Arith, Checked, HeadType, Complement, Exec, BinBase, Runs;
    match info.kind
    case Bin(op) =>
      assert ks == [ks[0], ks[1]];
      BinaryRuns(vm, text, pc, op, s, ks[0], ks[1], Arith(op, ks[0], ks[1]).value, m);
    case Bitwise =>
      assert ks == [ks[0]];
      InvertRuns(vm, text, pc, s, ks[0], m);
    case GetValue =>
      assert ks == [ks[0]];
      if place { StaysPut(vm, text, pc, s + ks, m); } else { LoadTopRuns(vm, text, pc, s, ks[0], m); }
    case GetAddr =>
      assert ks == [ks[0]];
      StaysPut(vm, text, pc, s + ks, m);
  }

  lemma StaysPut(vm: Machine, text: seq<Byte>, pc: nat, s: seq<Word>, m: Memory)
    requires pc <= |text|
    ensures Runs(vm, text, pc, s, m, pc, s, m)
  {}

  lemma StoringRuns(vm: Machine, text: seq<Byte>, pc: nat, info: Info, kids: Forest, s: seq<Word>, ks: seq<Word>,
                    m: Memory, code: seq<Byte>)
    requires LongNode(info, kids, false) && |ks| == Count(kids)
    requires info.kind.Assign? || info.kind.Func?
    requires code == NodeCode(CheckedInfo(info, kids, false), Checked(kids, ChildAddr(info.kind, false)))
    requires At(text, pc, code)
    requires Apply(vm.calls, info, kids, false, ks, m).Some?
    ensures Implements(vm, text, pc, code, s, ks, m, Apply(vm.calls, info, kids, false, ks, m))
  {
    hide Load, Store, HeadType, Exec, At, Runs, TypeClass, LeafType;
    if info.kind.Assign? {
      assert ks == [ks[0], ks[1]];
      CheckedHeadType(kids, true);
      assert code == [0x2A] + [LD_VALUE_DWORD_STACK] == [0x2A, LD_VALUE_DWORD_STACK];
      StoreRuns(vm, text, pc, s, ks[0], ks[1], m);
    } else {
      CheckedCount(kids.rest, false);
      CallRuns(vm, text, pc, s, ks, m);
    }
  }

  lemma PrefixRuns(vm: Machine, text: seq<Byte>, pc: nat, base: Byte, cell: Word, s: seq<Word>, m: Memory, delta: int)
    requires (base == 0x01 && delta == 1) || (base == 0x04 && delta == -1)
    requires At(text, pc, BumpCode(base, cell, DWORD) + [LD_VALUE_DWORD_STACK])
    requires |s| + 3 <= vm.slots
    ensures var v := Wrap(Load(m, cell) + delta); Runs(vm, text, pc, s + [cell], m, pc + 13, s + [v], Store(m, cell, v))
  {
    hide Load, Store, Exec, At, Runs, Wrap;
    var v := Wrap(Load(m, cell) + delta);
    var m' := Store(m, cell, v);
    AtSplit(text, pc, BumpCode(base, cell, DWORD), [LD_VALUE_DWORD_STACK]);
    BumpRuns(vm, text, pc, base, cell, s, m, delta);
    LoadAfterStore(m, cell, v);
    LoadTopRuns(vm, text, pc + 12, s, cell, m');
    Then(vm, text, pc, s + [cell], m, pc + 12, s + [cell], m', pc + 13, s + [v], m');
  }

  lemma PostfixRuns(vm: Machine, text: seq<Byte>, pc: nat, base: Byte, cell: Word, s: seq<Word>, m: Memory, delta: int)
    requires (base == 0x01 && delta == 1) || (base == 0x04 && delta == -1)
    requires At(text, pc, ([LD_DWORD] + Dword(cell)) + BumpCode(base, cell, DWORD) + [POP])
    requires |s| + 4 <= vm.slots
    ensures var v := Load(m, cell); Runs(vm, text, pc, s + [v], m, pc + 18, s + [v], Store(m, cell, Wrap(v + delta)))
  {
    hide Load, Store, Exec, At, Runs, Wrap;
    var v := Load(m, cell);
    var m' := Store(m, cell, Wrap(v + delta));
    AtSplit(text, pc, ([LD_DWORD] + Dword(cell)) + BumpCode(base, cell, DWORD), [POP]);
    AtSplit(text, pc, [LD_DWORD] + Dword(cell), BumpCode(base, cell, DWORD));
    PushStep(vm, text, pc, cell, s + [v], m);
    BumpRuns(vm, text, pc + 5, base, cell, s + [v], m, delta);
    Then(vm, text, pc, s + [v], m, pc + 5, s + [v] + [cell], m, pc + 17, s + [v] + [cell], m');
    DropRuns(vm, text, pc + 17, s + [v], cell, m');
    Then(vm, text, pc, s + [v], m, pc + 17, s + [v] + [cell], m', pc + 18, s + [v], m');
  }

  lemma IncrementCode(info: Info, kids: Forest)
    requires info.kind.PreInc? || info.kind.PreDec? || info.kind.Inc? || info.kind.Dec?
    requires LongNode(info, kids, false) && kids.kids.Nil?
    ensures var cell := kids.info.sym.address;
            var base: Byte := if info.kind.PreInc? || info.kind.Inc? then 0x01 else 0x04;
            NodeCode(CheckedInfo(info, kids, false), Checked(kids, ChildAddr(info.kind, false))) ==
            if info.kind.PreInc? || info.kind.PreDec? then BumpCode(base, cell, DWORD) + [LD_VALUE_DWORD_STACK]
            else ([LD_DWORD] + Dword(cell)) + BumpCode(base, cell, DWORD) + [POP]
  {
    hide BumpCode, Dword;
    assert HeadType(kids) == DWORD;
  }

  lemma IncrementRuns(vm: Machine, text: seq<Byte>, pc: nat, info: Info, kids: Forest, s: seq<Word>, ks: seq<Word>,
                      m: Memory, code: seq<Byte>)
    requires info.kind.PreInc? || info.kind.PreDec? || info.kind.Inc? || info.kind.Dec?
    requires LongNode(info, kids, false) && kids.kids.Nil?
    requires code == NodeCode(CheckedInfo(info, kids, false), Checked(kids, ChildAddr(info.kind, false)))
    requires ks == [if WantsPlace(info.kind, false) then kids.info.sym.address else Load(m, kids.info.sym.address)]
    requires At(text, pc, code) && |s| + 4 <= vm.slots
    ensures Implements(vm, text, pc, code, s, ks, m, Apply(vm.calls, info, kids, false, ks, m))
  {
    hide Load, Store, Exec, At, Runs, Wrap, BumpCode, Dword, NodeCode, Checked, HeadType, LeafType;
    IncrementCode(info, kids);
    var cell := kids.info.sym.address;
    var up := info.kind.PreInc? || info.kind.Inc?;
    var base: Byte, delta := if up then 0x01 else 0x04, if up then 1 else -1;
    DwordLength(cell);
    BumpLength(base, cell);
    if info.kind.PreInc? || info.kind.PreDec? {
      PrefixRuns(vm, text, pc, base, cell, s, m, delta);
    } else {
      PostfixRuns(vm, text, pc, base, cell, s, m, delta);
    }
  }

  lemma BumpLength(base: Byte, cell: Word)
    requires base <= 0x2D
    ensures |BumpCode(base, cell, DWORD)| == 12
  {}

  // ---- The main theorem ----

  lemma OperandOfIncrement(calls: Calls, info: Info, kids: Forest, m: Memory)
    requires LongNode(info, kids, false) && LongForest(kids, WantsPlace(info.kind, false))
    requires info.kind.PreInc? || info.kind.PreDec? || info.kind.Inc? || info.kind.Dec?
    ensures kids.kids.Nil?
    ensures var cell := kids.info.sym.address;
            Values(calls, kids, WantsPlace(info.kind, false), m) ==
            Some(([if WantsPlace(info.kind, false) then cell else Load(m, cell)], m))
  {
    hide Load, TypeClass, LoadClass;
    assert Count(kids) == 1 + Count(kids.rest);
    assert LongNode(kids.info, kids.kids, WantsPlace(info.kind, false));
    assert Values(calls, kids.kids, WantsPlace(info.kind, false), m) == Some(([], m));
    assert Values(calls, kids.rest, false, m) == Some(([], m));
    var w, cell := WantsPlace(info.kind, false), kids.info.sym.address;
    var x := if w then cell else Load(m, cell);
    assert Apply(calls, kids.info, kids.kids, w, [], m) == Some((x, m));
    assert [x] + [] == [x];
  }

  /** After its operands, a node's code leaves the node's value. */
  lemma NodeRuns(vm: Machine, text: seq<Byte>, pc: nat, info: Info, kids: Forest, place: bool, s: seq<Word>, m0: Memory,
                 ks: seq<Word>, m: Memory, code: seq<Byte>)
    requires LongNode(info, kids, place) && LongForest(kids, WantsPlace(info.kind, place))
    requires Values(vm.calls, kids, WantsPlace(info.kind, place), m0) == Some((ks, m))
    requires Apply(vm.calls, info, kids, place, ks, m).Some?
    requires code == NodeCode(CheckedInfo(info, kids, place), Checked(kids, ChildAddr(info.kind, place)))
    requires At(text, pc, code) && |s| + Count(kids) + 3 <= vm.slots
    ensures Implements(vm, text, pc, code, s, ks, m, Apply(vm.calls, info, kids, place, ks, m))
  {
    hide Load, Store, Exec, At, Runs, HeadType, LeafType, Code, NodeCode, Apply, Arith;
    ValuesCount(vm.calls, kids, WantsPlace(info.kind, place), m0);
    match info.kind
    case Bin(_) | Bitwise | GetValue | GetAddr =>
      OperatorRuns(vm, text, pc, info, kids, place, s, ks, m, code);
    case Assign | Func =>
      StoringRuns(vm, text, pc, info, kids, s, ks, m, code);
    case PreInc | PreDec | Inc | Dec =>
      OperandOfIncrement(vm.calls, info, kids, m0);
      IncrementRuns(vm, text, pc, info, kids, s, ks, m, code);
    case ValueChar =>
    case Id | ValueInt | ValueLong | ValueString | ValueNull =>
      assert ks == [] && s + ks == s;
      LeafRuns(vm, text, pc, info, place, s, m);
  }

  lemma {:induction false} CountBySize(f: Forest)
    ensures Count(f) <= Size(f)
  {
    if f.Cons? { CountBySize(f.rest); }
  }

  lemma CheckedUnfolds(f: Forest, place: bool)
    requires f.Cons?
    ensures Code(Checked(f, place)) ==
            (Code(Checked(f.kids, ChildAddr(f.info.kind, place)))
             + NodeCode(CheckedInfo(f.info, f.kids, place), Checked(f.kids, ChildAddr(f.info.kind, place))))
            + Code(Checked(f.rest, false))
  {
    hide NodeCode;
    if f.kids.Cons? { CheckedHeadType(f.kids, ChildAddr(f.info.kind, place)); }
  }

  /** Compiler correctness: wherever the byte code of a checked list of expressions stands in the text,
      running it pushes their values in order and leaves the memory of direct evaluation. It needs at most
      two stack slots more than the list has nodes. */
  lemma {:induction false} CodeComputesValues(vm: Machine, text: seq<Byte>, pc: nat, f: Forest, place: bool,
                                              s: seq<Word>, m: Memory)
    requires LongForest(f, place)
    requires At(text, pc, Code(Checked(f, place)))
    requires |s| + Size(f) + 2 <= vm.slots
    requires Values(vm.calls, f, place, m).Some?
    ensures var r := Values(vm.calls, f, place, m).value;
            Runs(vm, text, pc, s, m, pc + |Code(Checked(f, place))|, s + r.0, r.1)
    decreases f
  {
    hide Exec, At, Runs, Load, Store, NodeCode, Apply, LongNode, CheckedInfo;
    if f.Nil? {
      assert s + [] == s;
      assert Runs(vm, text, pc, s, m, pc, s, m)
          by { assert pc <= |text| by { AtBound(text, pc, []); } StaysPut(vm, text, pc, s, m); }
    } else {
      var wants := WantsPlace(f.info.kind, place);
      var kidCode := Code(Checked(f.kids, wants));
      var code := NodeCode(CheckedInfo(f.info, f.kids, place), Checked(f.kids, wants));
      var restCode := Code(Checked(f.rest, false));
      CheckedUnfolds(f, place);
      AtSplit(text, pc, kidCode + code, restCode);
      AtSplit(text, pc, kidCode, code);
      var operands := Values(vm.calls, f.kids, wants, m).value;
      CodeComputesValues(vm, text, pc, f.kids, wants, s, m);
      var first := Apply(vm.calls, f.info, f.kids, place, operands.0, operands.1).value;
      CountBySize(f.kids);
      NodeRuns(vm, text, pc + |kidCode|, f.info, f.kids, place, s, m, operands.0, operands.1, code);
      var p2 := pc + |kidCode| + |code|;
      Then(vm, text, pc, s, m, pc + |kidCode|, s + operands.0, operands.1, p2, s + [first.0], first.1);
      CodeComputesValues(vm, text, p2, f.rest, false, s + [first.0], first.1);
      var others := Values(vm.calls, f.rest, false, first.1).value;
      assert s + [first.0] + others.0 == s + ([first.0] + others.0);
      Then(vm, text, pc, s, m, p2, s + [first.0], first.1, p2 + |restCode|, s + [first.0] + others.0, others.1);
    }
  }

  lemma AtBound(text: seq<Byte>, pc: nat, code: seq<Byte>)
    requires At(text, pc, code)
    ensures pc + |code| <= |text|
  {}

  lemma StatementAlone(f: Forest)
    requires f.Cons?
    ensures var one := Cons(f.slot, f.info, f.kids, Nil);
            Program(Checked(f, false)) ==
            Code(Checked(one, false)) + if f.rest.Nil? then [] else [POP] + Program(Checked(f.rest, false))
  {
    hide Code;
  }

  /** A statement list runs to the value of its last statement, alone on the stack. */
  lemma {:induction false} ProgramComputesMeaning(vm: Machine, text: seq<Byte>, pc: nat, f: Forest, m: Memory)
    requires f.Cons? && LongForest(f, false)
    requires At(text, pc, Program(Checked(f, false)))
    requires Size(f) + 2 <= vm.slots
    requires Meaning(vm.calls, f, m).Some?
    ensures var r := Meaning(vm.calls, f, m).value;
            |r.0| == 1 && Runs(vm, text, pc, [], m, pc + |Program(Checked(f, false))|, r.0, r.1)
    decreases f
  {
    hide Exec, At, Runs, Code, Values, Checked, Program, LongNode;
    var one := Cons(f.slot, f.info, f.kids, Nil);
    var code := Code(Checked(one, false));
    StatementAlone(f);
    AtSplit(text, pc, code, if f.rest.Nil? then [] else [POP] + Program(Checked(f.rest, false)));
    var first := Values(vm.calls, one, false, m).value;
    ValuesCount(vm.calls, one, false, m);
    assert Count(one) == 1;
    CodeComputesValues(vm, text, pc, one, false, [], m);
    assert [] + first.0 == first.0 == [first.0[0]];
    if f.rest.Cons? {
      var p1 := pc + |code|;
      AtSplit(text, p1, [POP], Program(Checked(f.rest, false)));
      DropRuns(vm, text, p1, [], first.0[0], first.1);
      assert [] + [first.0[0]] == first.0;
      Then(vm, text, pc, [], m, p1, first.0, first.1, p1 + 1, [], first.1);
      ProgramComputesMeaning(vm, text, p1 + 1, f.rest, first.1);
      var last := Meaning(vm.calls, f.rest, first.1).value;
      Then(vm, text, pc, [], m, p1 + 1, [], first.1, p1 + 1 + |Program(Checked(f.rest, false))|, last.0, last.1);
    }
  }

  function Zeros(n: nat): seq<Byte> { seq(n, _ => 0) }

  /** The text segment after compiling: the code, and zeros up to its end. */
  function Loaded(code: seq<Byte>): seq<Byte>
    requires |code| <= TEXT_MAX
  {
    code + Zeros(TEXT_MAX - |code|)
  }

  /** A compiled line of statements, run by the virtual machine from an empty stack to the end of
      the text segment, stops without a fault; the bottom of the stack is the value of the last
      statement, the memory is that of direct evaluation, and the stack never needs more than two
      slots more than the line has nodes. */
  lemma LineComputesMeaning(vm: Machine, f: Forest, m: Memory)
    requires f.Cons? && LongForest(f, false)
    requires |Program(Checked(f, false))| <= TEXT_MAX
    requires Size(f) + 2 <= vm.slots
    requires Meaning(vm.calls, f, m).Some?
    ensures var r := Meaning(vm.calls, f, m).value;
            |r.0| == 1 && Exec(vm, Loaded(Program(Checked(f, false))), State(0, [], m), TEXT_MAX) ==
                Some(State(TEXT_MAX, r.0, r.1))
  {
    hide Checked, Program, Meaning, LongForest, Exec;
    var code := Program(Checked(f, false));
    var text := Loaded(code);
    assert text[0..|code|] == code;
    ProgramComputesMeaning(vm, text, 0, f, m);
    var r := Meaning(vm.calls, f, m).value;
    ZerosDoNothing(vm, text, State(|code|, r.0, r.1));
    ExecTwice(vm, text, State(0, [], m), |code|, TEXT_MAX);
  }

  /** A line the node table can hold needs at most 18 of the 64 slots. */
  lemma NodeTableBoundsStack(vm: Machine, f: Forest, m: Memory)
    requires f.Cons? && LongForest(f, false) && Size(f) <= 16 && vm.slots >= 18
    requires |Program(Checked(f, false))| <= TEXT_MAX
    requires Meaning(vm.calls, f, m).Some?
    ensures var r := Meaning(vm.calls, f, m).value;
            Exec(vm, Loaded(Program(Checked(f, false))), State(0, [], m), TEXT_MAX) == Some(State(TEXT_MAX, r.0, r.1))
  {
    hide Checked, Program, Meaning, LongForest, Exec;
    LineComputesMeaning(vm, f, m);
  }

  // ---- Where the fragment stops ----

  /** Of the variables that the type check takes for 32-bit operands, of the shell or of the system, exactly those of
      type `void*` emit no load. */
  lemma VoidPointerEmitsNothing(slot: nat, s: Symbol, isAddr: bool)
    requires (s.Var? || s.SysVar?) && TypeClass(s.ctype) == DWORD
    ensures var f := Cons(slot, Info(Id, s, 0, VOID, false), Nil, Nil);
            Checked(f, isAddr).info.dataType == DWORD && !CheckFails(f)
                && (Code(Checked(f, isAddr)) == [] <==> s.ctype == TVoidP)
  {}
}
