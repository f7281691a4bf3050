/**
 The syntax tree of the shell, as the parser links it (first child, next sibling), the
 attributes that the type check writes into it, and the byte code of a checked tree.
 */
module FinshTree {

  type Byte = x: int | 0 <= x < 256
  type Word = x: int | 0 <= x < 0x1_0000_0000

  datatype BinOp = Add | Sub | Mul | Div | Mod | And | Or | Xor | Shl | Shr

  datatype Kind =
    | Id
    | ValueChar | ValueInt | ValueLong | ValueString | ValueNull
    | Bin(op: BinOp) | Bitwise
    | Func | Assign
    | PreInc | PreDec | Inc | Dec
    | GetValue | GetAddr

  datatype CType =
    | TUnknown | TVoid | TVoidP | TChar | TUChar | TCharP | TShort | TUShort | TShortP
    | TInt | TUInt | TIntP | TLong | TULong | TLongP

  datatype DataType = VOID | BYTE | WORD | DWORD

  /** What an identifier node points to. `entry` is the address of the table entry itself, which
      the increment operators wrongly treat as a shell variable. */
  datatype Symbol =
    | NoSymbol
    | Var(ctype: CType, address: Word)
    | SysVar(ctype: CType, address: Word, entry: Word)
    | SysCall(func: Word, entry: Word)

  datatype Info = Info(kind: Kind, sym: Symbol, value: Word, dataType: DataType, isAddr: bool)

  /** A list of sibling trees; `slot` is the place of the first tree's node in the node table. */
  datatype Forest = Nil | Cons(slot: nat, info: Info, kids: Forest, rest: Forest)

  function Size(f: Forest): nat {
    match f
    case Nil => 0
    case Cons(_, _, kids, rest) => 1 + Size(kids) + Size(rest)
  }

  function Count(f: Forest): nat {
    match f
    case Nil => 0
    case Cons(_, _, _, rest) => 1 + Count(rest)
  }

  // ---- Type check ----

  function TypeClass(t: CType): DataType {
    match t
    case TVoid | TUnknown => VOID
    case TChar | TUChar => BYTE
    case TShort | TUShort => WORD
    case _ => DWORD
  }

  /** The data type of a node without children; unknown types leave the old one. */
  function LeafType(info: Info): DataType {
    match info.kind
    case Id =>
      (match info.sym
       case Var(t, _) => if t == TUnknown then info.dataType else TypeClass(t)
       case SysVar(t, _, _) => if t == TUnknown then info.dataType else TypeClass(t)
       case _ => info.dataType)
    case ValueChar => BYTE
    case ValueInt | ValueLong | ValueString | ValueNull => DWORD
    case _ => info.dataType
  }

  /** Whether the first child is compiled to an address. */
  function ChildAddr(kind: Kind, isAddr: bool): bool {
    match kind
    case Assign | PreInc | PreDec | GetAddr => true
    case GetValue => false
    case _ => isAddr
  }

  function Marked(info: Info, isAddr: bool): bool {
    if info.sym.SysCall? && !info.isAddr then false else info.isAddr || isAddr
  }

  /** The forest after the type check. */
  function Checked(f: Forest, isAddr: bool): Forest {
    match f
    case Nil => Nil
    case Cons(slot, info, kids, rest) =>
      var kids' := Checked(kids, ChildAddr(info.kind, isAddr));
      var dataType := if kids'.Cons? then kids'.info.dataType else LeafType(info);
      Cons(slot, info.(isAddr := Marked(info, isAddr), dataType := dataType), kids', Checked(rest, false))
  }

  /** The type check reports an error at a variable of unknown type. */
  predicate CheckFails(f: Forest) {
    match f
    case Nil => false
    case Cons(_, info, kids, rest) => CheckFails(kids) || CheckFails(rest) || LeafFails(info, kids)
  }

  predicate LeafFails(info: Info, kids: Forest) {
    kids.Nil? && info.kind.Id? && (info.sym.Var? || info.sym.SysVar?) && info.sym.ctype == TUnknown
  }

  // ---- Byte code ----

  const LD_BYTE: Byte := 0x22
  const LD_WORD: Byte := 0x23
  const LD_DWORD: Byte := 0x24
  const POP: Byte := 0x2B
  const SYSCALL: Byte := 0x2C
  const LD_VALUE_DWORD_STACK: Byte := 0x2F

  function Low(v: int): Byte { v % 256 }

  function Dword(v: Word): seq<Byte> {
    [v % 256, (v / 0x100) % 256, (v / 0x1_0000) % 256, v / 0x100_0000]
  }

  /** The offset of a width inside a group of three opcodes. */
  function Width(d: DataType): Byte {
    match d case BYTE => 0 case WORD => 1 case _ => 2
  }

  function BinBase(op: BinOp): (base: Byte)
    ensures base <= 0x1F
  {
    match op
    case Add => 0x01
    case Sub => 0x04
    case Div => 0x07
    case Mod => 0x0A
    case Mul => 0x0D
    case And => 0x10
    case Or => 0x13
    case Xor => 0x16
    case Shl => 0x1C
    case Shr => 0x1F
  }

  function Sized(base: Byte, d: DataType): seq<Byte>
    requires base <= 0x2D
  {
    if d == VOID then [] else [base + Width(d)]
  }

  lemma DwordLength(v: Word)
    ensures |Dword(v)| == 4
  {}

  /** The width of the load that the compiler selects for a C type; none for `void` and `void*`. */
  function LoadClass(t: CType): DataType {
    match t
    case TUnknown | TVoid | TVoidP => VOID
    case _ => TypeClass(t)
  }

  function LoadCode(t: CType, isAddr: bool, address: Word): seq<Byte> {
    if LoadClass(t) == VOID then []
    else [if isAddr then LD_DWORD else 0x25 + Width(LoadClass(t))] + Dword(address)
  }

  function IdCode(info: Info): seq<Byte> {
    match info.sym
    case SysCall(func, _) => [LD_DWORD] + Dword(func)
    case SysVar(t, address, _) => LoadCode(t, info.isAddr, address)
    case Var(t, address) => LoadCode(t, info.isAddr, address)
    case NoSymbol => []
  }

  function Wrap(v: int): Word { v % 0x1_0000_0000 }

  /** Where the increment operators find "the variable" of an identifier: its value cell for a shell
      variable, and twenty bytes into the table entry for anything else. */
  function CellOf(sym: Symbol): Word {
    match sym
    case Var(_, address) => address
    case SysVar(_, _, entry) => Wrap(entry + 20)
    case SysCall(_, entry) => Wrap(entry + 20)
    case NoSymbol => 20
  }

  function One(d: DataType): seq<Byte> {
    match d
    case BYTE => [LD_BYTE, 1]
    case WORD => [LD_WORD, 1, 0]
    case _ => [LD_DWORD] + Dword(1)
  }

  /** Push the cell's value, push one, add or subtract, store. */
  function BumpCode(base: Byte, cell: Word, d: DataType): seq<Byte>
    requires base <= 0x2D
  {
    [0x25 + Width(d)] + Dword(cell) + One(d) + [base + Width(d), 0x28 + Width(d)]
  }

  function PrefixCode(base: Byte, info: Info, kids: Forest): seq<Byte>
    requires base <= 0x2D
  {
    if kids.Nil? || !kids.info.kind.Id? || info.dataType == VOID then []
    else BumpCode(base, CellOf(kids.info.sym), info.dataType) + [LD_VALUE_DWORD_STACK]
  }

  function PostfixCode(base: Byte, info: Info, kids: Forest): seq<Byte>
    requires base <= 0x2D
  {
    if kids.Nil? || !kids.info.kind.Id? || info.dataType == VOID then []
    else [LD_DWORD] + Dword(CellOf(kids.info.sym)) + BumpCode(base, CellOf(kids.info.sym), info.dataType) + [POP]
  }

  function AssignCode(kids: Forest): seq<Byte> {
    if kids.Nil? || !(kids.info.kind.Id? || kids.info.kind.GetValue?) then []
    else Sized(0x28, kids.info.dataType) + Sized(0x2D, kids.info.dataType)
  }

  function CallCode(kids: Forest): seq<Byte> {
    if kids.Nil? then [] else [SYSCALL, Low(Count(kids.rest))]
  }

  /** The bytes of one node, emitted after those of its children. */
  function NodeCode(info: Info, kids: Forest): seq<Byte> {
    match info.kind
    case Id => IdCode(info)
    case ValueChar => [LD_BYTE, Low(info.value)]
    case ValueInt | ValueLong | ValueString | ValueNull => [LD_DWORD] + Dword(info.value)
    case Bin(op) => Sized(BinBase(op), info.dataType)
    case Bitwise => Sized(0x19, info.dataType)
    case Func => CallCode(kids)
    case Assign => AssignCode(kids)
    case PreInc => PrefixCode(0x01, info, kids)
    case PreDec => PrefixCode(0x04, info, kids)
    case Inc => PostfixCode(0x01, info, kids)
    case Dec => PostfixCode(0x04, info, kids)
    case GetValue => if info.isAddr then [] else Sized(0x2D, info.dataType)
    case GetAddr => []
  }

  function Code(f: Forest): seq<Byte> {
    match f
    case Nil => []
    case Cons(_, info, kids, rest) => Code(kids) + NodeCode(info, kids) + Code(rest)
  }

  /** The compiler reports an error at an assignment whose target has no data type. */
  predicate CodeFails(f: Forest) {
    match f
    case Nil => false
    case Cons(_, info, kids, rest) =>
      CodeFails(kids) || CodeFails(rest) || (info.kind.Assign? && AssignFails(kids))
  }

  predicate AssignFails(kids: Forest) {
    kids.Cons? && (kids.info.kind.Id? || kids.info.kind.GetValue?) && kids.info.dataType == VOID
  }

  /** A list of statements: every value but the last is popped. */
  function Program(f: Forest): seq<Byte> {
    match f
    case Nil => []
    case Cons(slot, info, kids, rest) =>
      Code(Cons(slot, info, kids, Nil)) + if rest.Nil? then [] else [POP] + Program(rest)
  }

  // ---- What is reported ----

  /** `g` is one of the nodes of `f`, with what hangs on it. */
  ghost predicate Within(g: Forest, f: Forest) {
    f.Cons? && (g == f || Within(g, f.kids) || Within(g, f.rest))
  }

  /** A variable, without operands, whose type is not known. */
  predicate UnknownVariable(g: Forest) {
    g.Cons? && g.kids.Nil? && g.info.kind.Id? && (g.info.sym.Var? || g.info.sym.SysVar?) && g.info.sym.ctype == TUnknown
  }

  /** The type check reports an error exactly if there is a variable of unknown type anywhere. */
  lemma {:induction false} CheckFailsIff(f: Forest)
    ensures CheckFails(f) <==> exists g :: Within(g, f) && UnknownVariable(g)
  {
    if f.Cons? {
      CheckFailsIff(f.kids);
      CheckFailsIff(f.rest);
      if UnknownVariable(f) {
        assert Within(f, f) && UnknownVariable(f);
      } else if CheckFails(f.kids) {
        var g :| Within(g, f.kids) && UnknownVariable(g);
        assert Within(g, f) && UnknownVariable(g);
      } else if CheckFails(f.rest) {
        var g :| Within(g, f.rest) && UnknownVariable(g);
        assert Within(g, f) && UnknownVariable(g);
      }
    }
  }

  /** An assignment whose target is a name or a dereference without a data type. */
  predicate UntypedTarget(g: Forest) {
    g.Cons? && g.info.kind.Assign? && g.kids.Cons?
    && (g.kids.info.kind.Id? || g.kids.info.kind.GetValue?) && g.kids.info.dataType == VOID
  }

  /** The code generator reports an error exactly if there is such an assignment anywhere. */
  lemma {:induction false} CodeFailsIff(f: Forest)
    ensures CodeFails(f) <==> exists g :: Within(g, f) && UntypedTarget(g)
  {
    if f.Cons? {
      CodeFailsIff(f.kids);
      CodeFailsIff(f.rest);
      if UntypedTarget(f) {
        assert Within(f, f) && UntypedTarget(f);
      } else if CodeFails(f.kids) {
        var g :| Within(g, f.kids) && UntypedTarget(g);
        assert Within(g, f) && UntypedTarget(g);
      } else if CodeFails(f.rest) {
        var g :| Within(g, f.rest) && UntypedTarget(g);
        assert Within(g, f) && UntypedTarget(g);
      }
    }
  }
}
