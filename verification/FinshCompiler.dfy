/**
 The compiler of the shell: the node table linked by indices, the type check that writes attributes
 into it, and the code generator that writes through a program counter into the text segment.
 */
module FinshCompiler {
  import opened FinshTree

  const NULL: int := -1

  datatype Node = Node(info: Info, child: int, sibling: int)

  // ---- Which forest a part of the table holds ----

  ghost predicate Holds(nodes: seq<Node>, p: int, f: Forest)
    decreases f
  {
    match f
    case Nil => p == NULL
    case Cons(slot, info, kids, rest) =>
      p == slot < |nodes| && nodes[slot].info == info
      && Holds(nodes, nodes[slot].child, kids) && Holds(nodes, nodes[slot].sibling, rest)
  }

  ghost function Slots(f: Forest): set<int> {
    match f
    case Nil => {}
    case Cons(slot, _, kids, rest) => {slot} + Slots(kids) + Slots(rest)
  }

  /** No node is reached twice. */
  ghost predicate Distinct(f: Forest) {
    match f
    case Nil => true
    case Cons(slot, _, kids, rest) =>
      slot !in Slots(kids) && slot !in Slots(rest) && Slots(kids) !! Slots(rest) && Distinct(kids) && Distinct(rest)
  }

  lemma {:induction false} HoldsElsewhere(before: seq<Node>, after: seq<Node>, p: int, f: Forest)
    requires Holds(before, p, f) && |before| == |after|
    requires forall i :: i in Slots(f) && 0 <= i < |before| ==> after[i] == before[i]
    ensures Holds(after, p, f)
    decreases f
  {
    if f.Cons? {
      assert after[f.slot] == before[f.slot];
      HoldsElsewhere(before, after, before[f.slot].child, f.kids);
      HoldsElsewhere(before, after, before[f.slot].sibling, f.rest);
    }
  }

  lemma DistinctParts(f: Forest)
    requires f.Cons? && Distinct(f)
    ensures Distinct(f.kids) && Distinct(f.rest) && Slots(f.kids) !! Slots(f.rest)
    ensures f.slot in Slots(f) && f.slot !in Slots(f.kids) && f.slot !in Slots(f.rest)
    ensures Slots(f.kids) <= Slots(f) && Slots(f.rest) <= Slots(f)
  {}

  lemma {:induction false} CheckedKeepsSlots(f: Forest, isAddr: bool)
    ensures Slots(Checked(f, isAddr)) == Slots(f) && (Distinct(f) ==> Distinct(Checked(f, isAddr)))
  {
    if f.Cons? {
      CheckedKeepsSlots(f.kids, ChildAddr(f.info.kind, isAddr));
      CheckedKeepsSlots(f.rest, false);
    }
  }

  /** `after` is `before` with `code` written at `pc`. */
  ghost predicate Emits(before: seq<Byte>, pc: nat, code: seq<Byte>, after: seq<Byte>, pc': nat) {
    |after| == |before| && pc' == pc + |code| <= |before|
    && after[..pc'] == before[..pc] + code && after[pc'..] == before[pc'..]
  }

  lemma EmitsBoth(t0: seq<Byte>, pc0: nat, a: seq<Byte>, t1: seq<Byte>, pc1: nat, b: seq<Byte>, t2: seq<Byte>, pc2: nat)
    requires Emits(t0, pc0, a, t1, pc1) && Emits(t1, pc1, b, t2, pc2)
    ensures Emits(t0, pc0, a + b, t2, pc2)
  {
    assert t2[..pc2] == t0[..pc0] + (a + b);
    assert t1[pc2..] == t1[pc1..][pc2 - pc1..] == t0[pc1..][pc2 - pc1..] == t0[pc2..];
  }

  class Compiler {
    const nodes: array<Node>
    const text: array<Byte>
    var pc: nat
    var error: bool

    constructor (nodes: array<Node>, text: array<Byte>)
      ensures this.nodes == nodes && this.text == text && pc == 0 && !error
    {
      this.nodes, this.text := nodes, text;
      pc, error := 0, false;
    }

    // ---- Type check ----

    method TypeCheck(p: int, isAddr: bool, ghost f: Forest)
      requires Holds(nodes[..], p, f) && Distinct(f)
      modifies nodes, `error
      ensures Holds(nodes[..], p, Checked(f, isAddr))
      ensures forall i :: 0 <= i < nodes.Length && i !in Slots(f) ==> nodes[i] == old(nodes[i])
      ensures error == (old(error) || CheckFails(f))
      decreases f
    {
      hide LeafFails, LeafType, Marked, Slots, Distinct;
      if p != NULL {
        DistinctParts(f);
        var kind := nodes[p].info.kind;
        var childAddr := if kind.Assign? || kind.PreInc? || kind.PreDec? || kind.GetAddr? then true
                         else if kind.GetValue? && isAddr then false else isAddr;
        assert kind.GetValue? ==> childAddr == false;
        ghost var before := nodes[..];
        TypeCheck(nodes[p].child, childAddr, f.kids);
        HoldsElsewhere(before, nodes[..], before[p].sibling, f.rest);
        ghost var middle := nodes[..];
        TypeCheck(nodes[p].sibling, false, f.rest);
        CheckedKeepsSlots(f.kids, childAddr);
        CheckedKeepsSlots(f.rest, false);
        HoldsElsewhere(middle, nodes[..], before[p].child, Checked(f.kids, childAddr));
        SetAttributes(p, isAddr, f, Checked(f.kids, childAddr), Checked(f.rest, false));
      }
    }

    method SetAttributes(p: int, isAddr: bool, ghost f: Forest, ghost kids: Forest, ghost rest: Forest)
      requires f.Cons? && p == f.slot < nodes.Length && nodes[p].info == f.info
      requires kids == Checked(f.kids, ChildAddr(f.info.kind, isAddr)) && rest == Checked(f.rest, false)
      requires Holds(nodes[..], nodes[p].child, kids) && Holds(nodes[..], nodes[p].sibling, rest)
      requires p !in Slots(kids) && p !in Slots(rest)
      modifies nodes, `error
      ensures Holds(nodes[..], p, Checked(f, isAddr))
      ensures forall i :: 0 <= i < nodes.Length && i != p ==> nodes[i] == old(nodes[i])
      ensures error == (old(error) || LeafFails(f.info, f.kids))
    {
      var node := nodes[p];
      var info := node.info.(isAddr := Marked(node.info, isAddr));
      if node.child != NULL {
        info := info.(dataType := nodes[node.child].info.dataType);
      } else {
        if info.kind.Id? && (info.sym.Var? || info.sym.SysVar?) && info.sym.ctype == TUnknown {
          error := true;
        }
        info := info.(dataType := LeafType(node.info));
      }
      nodes[p] := node.(info := info);
      HoldsElsewhere(old(nodes[..]), nodes[..], node.child, kids);
      HoldsElsewhere(old(nodes[..]), nodes[..], node.sibling, rest);
    }

    // ---- Code generation ----

    method CodeByte(x: Byte)
      requires pc < text.Length
      modifies text, `pc
      ensures Emits(old(text[..]), old(pc), [x], text[..], pc)
    {
      text[pc] := x;
      pc := pc + 1;
    }

    method CodeDword(x: Word)
      requires pc + 4 <= text.Length
      modifies text, `pc
      ensures Emits(old(text[..]), old(pc), Dword(x), text[..], pc)
    {
      text[pc] := x % 256;
      text[pc + 1] := (x / 0x100) % 256;
      text[pc + 2] := (x / 0x1_0000) % 256;
      text[pc + 3] := x / 0x100_0000;
      pc := pc + 4;
    }

    /** An opcode with a 32-bit operand. */
    method CodeWith(op: Byte, x: Word)
      requires pc + 5 <= text.Length
      modifies text, `pc
      ensures Emits(old(text[..]), old(pc), [op] + Dword(x), text[..], pc)
    {
      CodeByte(op);
      ghost var t1, p1 := text[..], pc;
      CodeDword(x);
      EmitsBoth(old(text[..]), old(pc), [op], t1, p1, Dword(x), text[..], pc);
    }

    /** The opcode of the width the type check found; nothing for a void operand. */
    method CodeSized(base: Byte, d: DataType)
      requires base <= 0x2D && pc + |Sized(base, d)| <= text.Length
      modifies text, `pc
      ensures Emits(old(text[..]), old(pc), Sized(base, d), text[..], pc)
    {
      match d {
        case BYTE => CodeByte(base);
        case WORD => CodeByte(base + 1);
        case DWORD => CodeByte(base + 2);
        case VOID =>
      }
    }

    method CodeLoad(t: CType, isAddr: bool, address: Word)
      requires pc + |LoadCode(t, isAddr, address)| <= text.Length
      modifies text, `pc
      ensures Emits(old(text[..]), old(pc), LoadCode(t, isAddr, address), text[..], pc)
    {
      match t {
        case TChar | TUChar => CodeWith(if isAddr then LD_DWORD else 0x25, address);
        case TShort | TUShort => CodeWith(if isAddr then LD_DWORD else 0x26, address);
        case TInt | TUInt | TLong | TULong | TCharP | TShortP | TIntP | TLongP =>
          CodeWith(if isAddr then LD_DWORD else 0x27, address);
        case _ =>
      }
    }

    method CodeId(info: Info)
      requires pc + |IdCode(info)| <= text.Length
      modifies text, `pc
      ensures Emits(old(text[..]), old(pc), IdCode(info), text[..], pc)
    {
      match info.sym {
        case SysCall(func, _) => CodeWith(LD_DWORD, func);
        case SysVar(t, address, _) => CodeLoad(t, info.isAddr, address);
        case Var(t, address) => CodeLoad(t, info.isAddr, address);
        case NoSymbol =>
      }
    }

    method CodeOne(d: DataType)
      requires d != VOID && pc + |One(d)| <= text.Length
      modifies text, `pc
      ensures Emits(old(text[..]), old(pc), One(d), text[..], pc)
    {
      if d == BYTE {
        CodeByte(LD_BYTE);
        ghost var t1, p1 := text[..], pc;
        CodeByte(1);
        EmitsBoth(old(text[..]), old(pc), [LD_BYTE], t1, p1, [1], text[..], pc);
      } else if d == WORD {
        CodeByte(LD_WORD);
        ghost var t1, p1 := text[..], pc;
        CodeByte(1);
        ghost var t2, p2 := text[..], pc;
        CodeByte(0);
        EmitsBoth(t1, p1, [1], t2, p2, [0], text[..], pc);
        EmitsBoth(old(text[..]), old(pc), [LD_WORD], t1, p1, [1] + [0], text[..], pc);
        assert [LD_WORD] + ([1] + [0]) == One(d);
      } else {
        CodeWith(LD_DWORD, 1);
      }
    }

    /** Load the cell, load one, add or subtract, store. */
    method CodeBump(base: Byte, cell: Word, d: DataType)
      requires base <= 0x2D && d != VOID && pc + |BumpCode(base, cell, d)| <= text.Length
      modifies text, `pc
      ensures Emits(old(text[..]), old(pc), BumpCode(base, cell, d), text[..], pc)
    {
      hide Dword, One;
      DwordLength(cell);
      CodeWith(0x25 + Width(d), cell);
      ghost var t1, p1 := text[..], pc;
      CodeOne(d);
      ghost var t2, p2 := text[..], pc;
      CodeByte(base + Width(d));
      ghost var t3, p3 := text[..], pc;
      CodeByte(0x28 + Width(d));
      ghost var head := [0x25 + Width(d)] + Dword(cell);
      ghost var tail: seq<Byte> := [base + Width(d)] + [0x28 + Width(d)];
      EmitsBoth(old(text[..]), old(pc), head, t1, p1, One(d), t2, p2);
      EmitsBoth(t2, p2, [base + Width(d)], t3, p3, [0x28 + Width(d)], text[..], pc);
      EmitsBoth(old(text[..]), old(pc), head + One(d), t2, p2, tail, text[..], pc);
      assert tail == [base + Width(d), 0x28 + Width(d)];
    }

    method CodePrefix(base: Byte, info: Info, child: int, ghost kids: Forest)
      requires base <= 0x2D && pc + |PrefixCode(base, info, kids)| <= text.Length
      requires Holds(nodes[..], child, kids)
      modifies text, `pc
      ensures Emits(old(text[..]), old(pc), PrefixCode(base, info, kids), text[..], pc)
    {
      hide BumpCode;
      if child != NULL && nodes[child].info.kind.Id? && info.dataType != VOID {
        ghost var bump := BumpCode(base, CellOf(kids.info.sym), info.dataType);
        CodeBump(base, CellOf(nodes[child].info.sym), info.dataType);
        ghost var t1, p1 := text[..], pc;
        CodeByte(LD_VALUE_DWORD_STACK);
        EmitsBoth(old(text[..]), old(pc), bump, t1, p1, [LD_VALUE_DWORD_STACK], text[..], pc);
      }
    }

    method CodePostfix(base: Byte, info: Info, child: int, ghost kids: Forest)
      requires base <= 0x2D && pc + |PostfixCode(base, info, kids)| <= text.Length
      requires Holds(nodes[..], child, kids)
      modifies text, `pc
      ensures Emits(old(text[..]), old(pc), PostfixCode(base, info, kids), text[..], pc)
    {
      hide BumpCode, Dword;
      if child != NULL && nodes[child].info.kind.Id? && info.dataType != VOID {
        var cell := CellOf(nodes[child].info.sym);
        DwordLength(cell);
        ghost var bump := BumpCode(base, cell, info.dataType);
        CodeWith(LD_DWORD, cell);
        ghost var t1, p1 := text[..], pc;
        CodeBump(base, cell, info.dataType);
        ghost var t2, p2 := text[..], pc;
        CodeByte(POP);
        EmitsBoth(old(text[..]), old(pc), [LD_DWORD] + Dword(cell), t1, p1, bump, t2, p2);
        EmitsBoth(old(text[..]), old(pc), [LD_DWORD] + Dword(cell) + bump, t2, p2, [POP], text[..], pc);
      }
    }

    method CodeAssign(child: int, ghost kids: Forest)
      requires pc + |AssignCode(kids)| <= text.Length
      requires Holds(nodes[..], child, kids)
      modifies text, `pc, `error
      ensures Emits(old(text[..]), old(pc), AssignCode(kids), text[..], pc)
      ensures error == (old(error) || AssignFails(kids))
    {
      if child != NULL && (nodes[child].info.kind.Id? || nodes[child].info.kind.GetValue?) {
        var d := nodes[child].info.dataType;
        if d == VOID {
          error := true;
        } else {
          CodeSized(0x28, d);
          ghost var t1, p1 := text[..], pc;
          CodeSized(0x2D, d);
          EmitsBoth(old(text[..]), old(pc), Sized(0x28, d), t1, p1, Sized(0x2D, d), text[..], pc);
        }
      }
    }

    method CodeCall(child: int, ghost kids: Forest)
      requires pc + |CallCode(kids)| <= text.Length
      requires Holds(nodes[..], child, kids)
      modifies text, `pc
      ensures Emits(old(text[..]), old(pc), CallCode(kids), text[..], pc)
    {
      if child != NULL {
        var parameters, sibling := 0, nodes[child].sibling;
        ghost var left := kids.rest;
        while sibling != NULL
          invariant Holds(nodes[..], sibling, left)
          invariant parameters + Count(left) == Count(kids.rest)
          decreases left
        {
          parameters := parameters + 1;
          sibling := nodes[sibling].sibling;
          left := left.rest;
        }
        CodeByte(SYSCALL);
        ghost var t1, p1 := text[..], pc;
        CodeByte(Low(parameters));
        EmitsBoth(old(text[..]), old(pc), [SYSCALL], t1, p1, [Low(parameters)], text[..], pc);
      }
    }

    /** The bytes of one node, by its type. */
    method CodeNode(p: int, ghost kids: Forest)
      requires 0 <= p < nodes.Length && Holds(nodes[..], nodes[p].child, kids)
      requires pc + |NodeCode(nodes[p].info, kids)| <= text.Length
      modifies text, `pc, `error
      ensures Emits(old(text[..]), old(pc), NodeCode(nodes[p].info, kids), text[..], pc)
      ensures error == (old(error) || (nodes[p].info.kind.Assign? && AssignFails(kids)))
    {
      hide LoadCode, IdCode, PrefixCode, PostfixCode, AssignCode, CallCode, Sized, Dword, Holds, AssignFails;
      var info, child := nodes[p].info, nodes[p].child;
      match info.kind {
        case Id => CodeId(info);
        case ValueChar =>
          CodeByte(LD_BYTE);
          ghost var t1, p1 := text[..], pc;
          CodeByte(Low(info.value));
          EmitsBoth(old(text[..]), old(pc), [LD_BYTE], t1, p1, [Low(info.value)], text[..], pc);
        case ValueInt | ValueLong | ValueString | ValueNull =>
          DwordLength(info.value);
          CodeWith(LD_DWORD, info.value);
        case Bin(op) => CodeSized(BinBase(op), info.dataType);
        case Bitwise => CodeSized(0x19, info.dataType);
        case Func => CodeCall(child, kids);
        case Assign => CodeAssign(child, kids);
        case PreInc => CodePrefix(0x01, info, child, kids);
        case PreDec => CodePrefix(0x04, info, child, kids);
        case Inc => CodePostfix(0x01, info, child, kids);
        case Dec => CodePostfix(0x04, info, child, kids);
        case GetValue =>
          if !info.isAddr { CodeSized(0x2D, info.dataType); }
        case GetAddr =>
      }
    }

    /** The children, the node, then its siblings. */
    method Compile(p: int, ghost f: Forest)
      requires Holds(nodes[..], p, f)
      requires pc + |Code(f)| <= text.Length
      modifies text, `pc, `error
      ensures Emits(old(text[..]), old(pc), Code(f), text[..], pc)
      ensures error == (old(error) || CodeFails(f))
      decreases f
    {
      hide NodeCode, AssignFails;
      if p != NULL {
        ghost var code := NodeCode(f.info, f.kids);
        if nodes[p].child != NULL { Compile(nodes[p].child, f.kids); }
        ghost var t1, p1 := text[..], pc;
        CodeNode(p, f.kids);
        ghost var t2, p2 := text[..], pc;
        if nodes[p].sibling != NULL { Compile(nodes[p].sibling, f.rest); }
        EmitsBoth(old(text[..]), old(pc), Code(f.kids), t1, p1, code, t2, p2);
        EmitsBoth(old(text[..]), old(pc), Code(f.kids) + code, t2, p2, Code(f.rest), text[..], pc);
      }
    }

    // ---- A whole line ----

    /** `current` is detached from its siblings before it is compiled. */
    method Detach(current: int, ghost f: Forest) returns (sibling: int)
      requires Holds(nodes[..], current, f) && Distinct(f) && f.Cons?
      modifies nodes
      ensures Holds(nodes[..], current, Cons(f.slot, f.info, f.kids, Nil)) && Holds(nodes[..], sibling, f.rest)
    {
      sibling := nodes[current].sibling;
      nodes[current] := nodes[current].(sibling := NULL);
      HoldsElsewhere(old(nodes[..]), nodes[..], nodes[current].child, f.kids);
      HoldsElsewhere(old(nodes[..]), nodes[..], sibling, f.rest);
    }

    method Clear()
      modifies text
      ensures text[..] == seq(text.Length, _ => 0)
    {
      forall i | 0 <= i < text.Length { text[i] := 0; }
    }

    /** One round of the statement loop: detach, compile, and pop unless it was the last. */
    method CompileStatement(current: int, ghost f: Forest, ghost blank: seq<Byte>, ghost done: seq<Byte>)
      returns (sibling: int)
      requires Holds(nodes[..], current, f) && Distinct(f) && f.Cons?
      requires Emits(blank, 0, done, text[..], pc) && |done + Program(f)| <= text.Length
      modifies nodes, text, `pc, `error
      ensures Holds(nodes[..], sibling, f.rest)
      ensures Emits(blank, 0, done + Statement(f), text[..], pc)
      ensures error == (old(error) || CodeFails(Alone(f)))
    {
      hide Program, Code, CodeFails, Distinct;
      ProgramUnfolds(f);
      ghost var code := Code(Alone(f));
      sibling := Detach(current, f);
      Compile(current, Alone(f));
      ghost var t1, p1 := text[..], pc;
      EmitsBoth(blank, 0, done, old(text[..]), old(pc), code, t1, p1);
      if sibling != NULL {
        CodeByte(POP);
        EmitsBoth(blank, 0, done + code, t1, p1, [POP], text[..], pc);
        assert done + Statement(f) == (done + code) + [POP];
      } else {
        assert done + Statement(f) == done + code;
      }
    }

    method CompileStatements(root: int, ghost f: Forest)
      requires Holds(nodes[..], root, f) && Distinct(f)
      requires pc == 0 && |Program(f)| <= text.Length
      modifies nodes, text, `pc, `error
      ensures Emits(old(text[..]), 0, Program(f), text[..], pc)
      ensures error == (old(error) || StatementsFail(f))
    {
      hide Program, Distinct, CodeFails, Statement;
      var sibling := root;
      ghost var left, done, blank := f, [], text[..];
      assert done + Program(left) == Program(left);
      while sibling != NULL
        invariant Holds(nodes[..], sibling, left) && Distinct(left)
        invariant Emits(blank, 0, done, text[..], pc)
        invariant done + Program(left) == Program(f)
        invariant (error || StatementsFail(left)) == (old(error) || StatementsFail(f))
        decreases left
      {
        ProgramUnfolds(left);
        sibling := CompileStatement(sibling, left, blank, done);
        assert done + (Statement(left) + Program(left.rest)) == (done + Statement(left)) + Program(left.rest);
        done, left := done + Statement(left), left.rest;
      }
      ProgramOfNothing();
      assert done + [] == done;
    }

    method Run(root: int, ghost f: Forest)
      requires Holds(nodes[..], root, f) && Distinct(f)
      requires |Program(Checked(f, false))| <= text.Length
      modifies nodes, text, `pc, `error
      ensures Emits(seq(text.Length, _ => 0), 0, Program(Checked(f, false)), text[..], pc)
      ensures error == (old(error) || CheckFails(f) || StatementsFail(Checked(f, false)))
    {
      hide Program, Checked, Distinct, CheckFails, Emits, StatementsFail;
      TypeCheck(root, false, f);
      CheckedKeepsSlots(f, false);
      Clear();
      pc := 0;
      CompileStatements(root, Checked(f, false));
    }
  }

  /** A statement without those that follow it. */
  function Alone(f: Forest): Forest
    requires f.Cons?
  {
    Cons(f.slot, f.info, f.kids, Nil)
  }

  function Statement(f: Forest): seq<Byte>
    requires f.Cons?
  {
    Code(Alone(f)) + if f.rest.Nil? then [] else [POP]
  }

  lemma ProgramOfNothing()
    ensures Program(Nil) == []
  {}

  /** An assignment without a typed target occurs in one of the statements. */
  predicate StatementsFail(f: Forest) {
    match f
    case Nil => false
    case Cons(_, _, _, rest) => CodeFails(Alone(f)) || StatementsFail(rest)
  }

  lemma ProgramUnfolds(f: Forest)
    requires f.Cons? && Distinct(f)
    ensures Distinct(f.rest)
    ensures Program(f) == Statement(f) + Program(f.rest)
  {
    hide Code;
  }
}
