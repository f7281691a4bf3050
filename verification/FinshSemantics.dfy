/**
 What the text of an expression means, as C lays it down: given on the written form, operator by operator, without the
 trees, tables and codes of the shell. The shell computes exactly this.
 */
module FinshSemantics {
  import opened FinshTree
  import opened FinshMachine
  import opened FinshOperators
  import opened FinshMeaning
  import opened FinshParser

  type Answer = Option<(Word, Memory)>

  /** `r` is what `a t b` yields for a binary operator token `t`. */
  ghost predicate Yields(t: Token, a: Word, b: Word, r: Word) {
    match t
    case TAdd => IsResult(Add, a, b, r)
    case TSub => IsResult(Sub, a, b, r)
    case TMul => IsResult(Mul, a, b, r)
    case TDiv => Defined(Div, a, b) && IsResult(Div, a, b, r)
    case TMod => Defined(Mod, a, b) && IsResult(Mod, a, b, r)
    case TAnd => IsResult(And, a, b, r)
    case TOr => IsResult(Or, a, b, r)
    case TXor => IsResult(Xor, a, b, r)
    case TShl => Defined(Shl, a, b) && IsResult(Shl, a, b, r)
    case TShr => Defined(Shr, a, b) && IsResult(Shr, a, b, r)
    case _ => false
  }

  /** The word that `a t b` yields, if there is one. */
  ghost function Yield(t: Token, a: Word, b: Word): Option<Word> {
    if r: Word :| Yields(t, a, b, r) then Some(r) else None
  }

  ghost function NameValue(s: Symbol, m: Memory): Answer {
    match s
    case Var(_, a) => Some((Load(m, a), m))
    case SysVar(_, a, _) => Some((Load(m, a), m))
    case SysCall(f, _) => Some((f, m))
    case NoSymbol => None
  }

  /** Adds to the word at a place; the value is the new content or the old one. */
  ghost function Stepped(at: Answer, delta: int, before: bool): Answer {
    if at.None? then None
    else
      var (a, m) := at.value;
      var v := Load(m, a);
      Some((if before then v else Wrap(v + delta), Store(m, a, Wrap(v + delta))))
  }

  ghost function Negated(r: Answer): Answer {
    if r.None? then None else Some((if r.value.0 == 0 then 0 else 0x1_0000_0000 - r.value.0, r.value.1))
  }

  /** A prefix operator on an operand with this value and this place. */
  ghost function PrefixValue(t: Token, r: Answer, at: Answer): Answer {
    if t == TAnd then at
    else if t == TInc then Stepped(at, 1, false)
    else if t == TDec then Stepped(at, -1, false)
    else if r.None? then None
    else if t == TMul then Some((Load(r.value.1, r.value.0), r.value.1))
    else if t == TTilde then Some((0xFFFF_FFFF - r.value.0, r.value.1))
    else None
  }

  ghost function PostValue(t: Token, at: Answer): Answer {
    if t == TInc then Stepped(at, 1, true) else if t == TDec then Stepped(at, -1, true) else None
  }

  /** The value of an expression in a memory, and the memory afterwards; operands from left to right. */
  ghost function Value(symbols: Symbols, calls: Calls, e: Expr, m: Memory): Answer
    decreases e, 1
  {
    match e
    case Leaf(t) =>
      (match t
       case Name(id) => NameValue(symbols(id), m)
       case IntValue(v) => Some((v, m))
       case LongValue(v) => Some((v, m))
       case StringValue(v) => Some((v, m))
       case NullValue => Some((0, m))
       case _ => None)
    case Plus(x) => Value(symbols, calls, x, m)
    case Minus(x) => Negated(Value(symbols, calls, x, m))
    case Prefix(t, x) => PrefixValue(t, Value(symbols, calls, x, m), Place(symbols, calls, x, m))
    case Post(t, x) => PostValue(t, Place(symbols, calls, x, m))
    case Binary(t, l, r) =>
      var a := Value(symbols, calls, l, m);
      if a.None? then None
      else
        var b := Value(symbols, calls, r, a.value.1);
        if b.None? then None
        else
          var v := Yield(t, a.value.0, b.value.0);
          if v.None? then None else Some((v.value, b.value.1))
    case Assignment(l, r) =>
      var a := Place(symbols, calls, l, m);
      if a.None? then None
      else
        var v := Value(symbols, calls, r, a.value.1);
        if v.None? then None else Some((v.value.0, Store(v.value.1, a.value.0, v.value.0)))
    case Call(x, args) =>
      var f := Value(symbols, calls, x, m);
      if f.None? then None
      else
        var vs := ArgumentValues(symbols, calls, args, f.value.1);
        if vs.None? || |vs.value.0| > 16 then None else Some(calls(f.value.0, vs.value.0, vs.value.1))
  }

  /** The address an expression denotes: that of a variable, or what a pointer points to. Unlike in C, `+` in front of
      either still denotes it. */
  ghost function Place(symbols: Symbols, calls: Calls, e: Expr, m: Memory): Answer
    decreases e, 0
  {
    match e
    case Leaf(t) =>
      if !t.Name? then None
      else
        (match symbols(t.id)
         case Var(_, a) => Some((a, m))
         case SysVar(_, a, _) => Some((a, m))
         case _ => None)
    case Prefix(t, x) => if t == TMul then Value(symbols, calls, x, m) else None
    case Plus(x) => Place(symbols, calls, x, m)
    case _ => None
  }

  ghost function ArgumentValues(symbols: Symbols, calls: Calls, args: Args, m: Memory): Option<(seq<Word>, Memory)>
    decreases args, 1
  {
    match args
    case NoArgs => Some(([], m))
    case Arg(e, others) =>
      var v := Value(symbols, calls, e, m);
      if v.None? then None
      else
        var vs := ArgumentValues(symbols, calls, others, v.value.1);
        if vs.None? then None else Some(([v.value.0] + vs.value.0, vs.value.1))
  }

  /** Statements one after the other; the value is that of the last. */
  ghost function Line(symbols: Symbols, calls: Calls, es: seq<Expr>, m: Memory): Answer
    requires es != []
    decreases |es|
  {
    var r := Value(symbols, calls, es[0], m);
    if r.None? || |es| == 1 then r else Line(symbols, calls, es[1..], r.value.1)
  }

  // ---- Binary operators ----

  /** The operator of a binary operator token. */
  lemma TokenOperator(t: Token)
    requires TokenLevel(t) >= 1
    ensures forall a, b, r :: Yields(t, a, b, r) <==> Defined(TokenOp(t), a, b) && IsResult(TokenOp(t), a, b, r)
  {
    hide IsResult;
  }

  /** The machine's arithmetic yields what the token says. */
  lemma YieldIsArith(t: Token, a: Word, b: Word)
    requires TokenLevel(t) >= 1
    ensures Yield(t, a, b) == Arith(TokenOp(t), a, b)
  {
    hide IsResult, Arith, Defined, TokenOp, TokenLevel, Yields;
    TokenOperator(t);
    var v := Arith(TokenOp(t), a, b);
    if v.Some? { ArithIff(TokenOp(t), a, b, v.value); }
    if r: Word :| Yields(t, a, b, r) {
      ArithIff(TokenOp(t), a, b, r);
      ArithIff(TokenOp(t), a, b, Yield(t, a, b).value);
    }
  }

  // ---- The tree of an expression evaluates to its value ----

  function One(r: Answer): Option<(seq<Word>, Memory)> { if r.None? then None else Some(([r.value.0], r.value.1)) }

  /** A tree by itself: its operands, then its operator. */
  lemma Alone(calls: Calls, slot: nat, info: Info, kids: Forest, place: bool, m: Memory)
    ensures var ks := Values(calls, kids, WantsPlace(info.kind, place), m);
            Values(calls, Cons(slot, info, kids, Nil), place, m) ==
              if ks.None? then None else One(Apply(calls, info, kids, place, ks.value.0, ks.value.1))
  {
    hide Apply;
    var ks := Values(calls, kids, WantsPlace(info.kind, place), m);
    if ks.Some? {
      var r := Apply(calls, info, kids, place, ks.value.0, ks.value.1);
      if r.Some? { assert [r.value.0] + [] == [r.value.0]; }
    }
  }

  /** A tree with others beside it is evaluated first. */
  lemma First(calls: Calls, f: Forest, g: Forest, place: bool, m: Memory)
    requires f.Cons? && f.rest.Nil?
    ensures var vs := Values(calls, f, place, m);
            Values(calls, Beside(f, g), place, m) ==
              if vs.None? then None
              else
                var ws := Values(calls, g, false, vs.value.1);
                if ws.None? then None else Some((vs.value.0 + ws.value.0, ws.value.1))
  {
    hide Apply;
    var ks := Values(calls, f.kids, WantsPlace(f.info.kind, place), m);
    if ks.Some? {
      var r := Apply(calls, f.info, f.kids, place, ks.value.0, ks.value.1);
      if r.Some? { assert [r.value.0] + [] == [r.value.0]; }
    }
  }

  /** What the tree of an expression is to evaluate to. */
  ghost function Answered(symbols: Symbols, calls: Calls, e: Expr, place: bool, m: Memory): Answer {
    if place then Place(symbols, calls, e, m) else Value(symbols, calls, e, m)
  }

  lemma LeafMeans(symbols: Symbols, calls: Calls, t: Token, n: nat, place: bool, m: Memory)
    requires IsLeaf(symbols, t) && LongForest(Tree(symbols, Leaf(t), n), place)
    ensures Values(calls, Tree(symbols, Leaf(t), n), place, m) == One(Answered(symbols, calls, Leaf(t), place, m))
  {
    Alone(calls, n, LeafInfo(symbols, t), Nil, place, m);
  }

  lemma OneOperand(calls: Calls, slot: nat, info: Info, f: Forest, place: bool, m: Memory, r: Answer)
    requires Values(calls, f, WantsPlace(info.kind, place), m) == One(r)
    ensures Values(calls, Cons(slot, info, f, Nil), place, m) ==
              if r.None? then None else One(Apply(calls, info, f, place, [r.value.0], r.value.1))
  {
    hide Values, Apply;
    Alone(calls, slot, info, f, place, m);
  }

  lemma TwoOperands(calls: Calls, slot: nat, info: Info, f: Forest, g: Forest, place: bool, m: Memory, a: Answer,
                    b: Answer)
    requires f.Cons? && f.rest.Nil? && Values(calls, f, WantsPlace(info.kind, place), m) == One(a)
    requires a.Some? ==> Values(calls, g, false, a.value.1) == One(b)
    ensures Values(calls, Cons(slot, info, Beside(f, g), Nil), place, m) ==
              if a.None? || b.None? then None
              else One(Apply(calls, info, Beside(f, g), place, [a.value.0, b.value.0], b.value.1))
  {
    hide Values, Apply;
    Alone(calls, slot, info, Beside(f, g), place, m);
    First(calls, f, g, WantsPlace(info.kind, place), m);
    if a.Some? && b.Some? { assert [a.value.0] + [b.value.0] == [a.value.0, b.value.0]; }
  }

  lemma Negation(calls: Calls, kids: Forest, v: Word, m: Memory)
    ensures Apply(calls, Plain(Bin(Sub)), kids, false, [0, v], m) ==
            Some((if v == 0 then 0 else 0x1_0000_0000 - v, m))
  {}

  lemma ValueOfMinus(symbols: Symbols, calls: Calls, x: Expr, m: Memory)
    ensures Value(symbols, calls, Minus(x), m) == Negated(Value(symbols, calls, x, m))
  {
    hide Negated;
  }

  lemma NegatedIs(calls: Calls, kids: Forest, r: Answer)
    ensures Negated(r) == if r.None? then None
                          else Apply(calls, Plain(Bin(Sub)), kids, false, [0, r.value.0], r.value.1)
  {
    if r.Some? { Negation(calls, kids, r.value.0, r.value.1); }
  }

  lemma MinusMeans(symbols: Symbols, calls: Calls, x: Expr, n: nat, m: Memory)
    requires Values(calls, Tree(symbols, x, n), false, m) == One(Value(symbols, calls, x, m))
    ensures Values(calls, Tree(symbols, Minus(x), n), false, m) == One(Value(symbols, calls, Minus(x), m))
  {
    hide Values, Tree, Apply, Value, Negated, Nodes, Print, Proper, Binds;
    var f, r := Tree(symbols, x, n), Value(symbols, calls, x, m);
    MinusTree(symbols, x, n);
    var zero := Cons(n + Nodes(x), Plain(ValueLong), Nil, Nil);
    ZeroMeans(calls, n + Nodes(x), m);
    TwoOperands(calls, n + Nodes(x) + 1, Plain(Bin(Sub)), zero, f, false, m, Some((0, m)), r);
    ValueOfMinus(symbols, calls, x, m);
    NegatedIs(calls, Beside(zero, f), r);
  }

  /** The tree of a minus: a subtraction with a zero beside the operand. */
  lemma MinusTree(symbols: Symbols, x: Expr, n: nat)
    ensures Tree(symbols, Minus(x), n) ==
            Cons(n + Nodes(x) + 1, Plain(Bin(Sub)),
                 Beside(Cons(n + Nodes(x), Plain(ValueLong), Nil, Nil), Tree(symbols, x, n)), Nil)
  {
    hide Nodes;
  }

  lemma ZeroMeans(calls: Calls, slot: nat, m: Memory)
    ensures Values(calls, Cons(slot, Plain(ValueLong), Nil, Nil), false, m) == Some(([0], m))
  {
    Alone(calls, slot, Plain(ValueLong), Nil, false, m);
  }

  // What each operator of one operand does to the value of the operand.

  lemma ApplyPointer(calls: Calls, t: Token, kids: Forest, place: bool, v: Word, m: Memory)
    requires t == TMul || (t == TTilde && !place)
    ensures Apply(calls, Plain(PrefixKind(t)), kids, place, [v], m) ==
            if place then Some((v, m)) else PrefixValue(t, Some((v, m)), None)
  {
    hide Load, Arith;
  }

  lemma ApplyPrefix(calls: Calls, t: Token, kids: Forest, v: Word, m: Memory)
    requires t in {TAnd, TInc, TDec}
    ensures Apply(calls, Plain(PrefixKind(t)), kids, false, [v], m) == PrefixValue(t, None, Some((v, m)))
  {
    hide Load, Store, Arith, Wrap;
  }

  lemma ApplyPost(calls: Calls, t: Token, kids: Forest, v: Word, m: Memory)
    requires t in {TInc, TDec} && kids.Cons? && kids.info.sym.Var?
    ensures Apply(calls, Plain(if t == TInc then Inc else Dec), kids, false, [v], m) ==
            PostValue(t, Some((kids.info.sym.address, m)))
  {
    hide Load, Store, Arith, Wrap;
  }

  /** Each prefix operator looks either at the value of its operand or at its place. */
  lemma PrefixCases(t: Token, r: Answer, at: Answer)
    ensures t in {TMul, TTilde} ==> PrefixValue(t, r, at) == if r.None? then None else PrefixValue(t, r, None)
    ensures t in {TAnd, TInc, TDec} ==> PrefixValue(t, r, at) == if at.None? then None else PrefixValue(t, None, at)
  {
    hide Load, Store, Wrap;
  }

  lemma ValueOfPrefix(symbols: Symbols, calls: Calls, t: Token, x: Expr, m: Memory)
    ensures Value(symbols, calls, Prefix(t, x), m) ==
            PrefixValue(t, Value(symbols, calls, x, m), Place(symbols, calls, x, m))
    ensures t == TMul ==> Place(symbols, calls, Prefix(t, x), m) == Value(symbols, calls, x, m)
  {
    hide PrefixValue;
  }

  /** `~` and `*`: one operator on the value of its operand; the tree of `*` also stands for a place. */
  lemma PointerMeans(symbols: Symbols, calls: Calls, t: Token, x: Expr, n: nat, place: bool, m: Memory)
    requires t == TMul || (t == TTilde && !place)
    requires Values(calls, Tree(symbols, x, n), false, m) == One(Value(symbols, calls, x, m))
    ensures Values(calls, Tree(symbols, Prefix(t, x), n), place, m) ==
            One(Answered(symbols, calls, Prefix(t, x), place, m))
  {
    hide Values, Tree, Value, Place, Apply, PrefixValue, Nodes, Print, Proper;
    ShapeOfPrefix(symbols, t, x, n);
    var r := Value(symbols, calls, x, m);
    assert WantsPlace(PrefixKind(t), place) == false;
    OneOperand(calls, n + Nodes(x), Plain(PrefixKind(t)), Tree(symbols, x, n), place, m, r);
    ValueOfPrefix(symbols, calls, t, x, m);
    PrefixCases(t, r, Place(symbols, calls, x, m));
    if r.Some? { ApplyPointer(calls, t, Tree(symbols, x, n), place, r.value.0, r.value.1); }
  }

  /** `&`, `++` and `--` in front of a place. */
  lemma PrefixMeans(symbols: Symbols, calls: Calls, t: Token, x: Expr, n: nat, m: Memory)
    requires t in {TAnd, TInc, TDec}
    requires Values(calls, Tree(symbols, x, n), true, m) == One(Place(symbols, calls, x, m))
    ensures Values(calls, Tree(symbols, Prefix(t, x), n), false, m) == One(Value(symbols, calls, Prefix(t, x), m))
  {
    hide Values, Tree, Value, Place, Apply, PrefixValue, Nodes, Print, Proper;
    ShapeOfPrefix(symbols, t, x, n);
    var at := Place(symbols, calls, x, m);
    assert WantsPlace(PrefixKind(t), false);
    OneOperand(calls, n + Nodes(x), Plain(PrefixKind(t)), Tree(symbols, x, n), false, m, at);
    ValueOfPrefix(symbols, calls, t, x, m);
    PrefixCases(t, Value(symbols, calls, x, m), at);
    if at.Some? { ApplyPrefix(calls, t, Tree(symbols, x, n), at.value.0, at.value.1); }
  }

  lemma ValueOfPost(symbols: Symbols, calls: Calls, t: Token, x: Expr, m: Memory)
    ensures Value(symbols, calls, Post(t, x), m) == PostValue(t, Place(symbols, calls, x, m))
  {
    hide PostValue;
  }

  lemma Variable(symbols: Symbols, calls: Calls, id: string, n: nat, m: Memory)
    requires symbols(id).Var?
    ensures var x := Leaf(Name(id));
            Value(symbols, calls, x, m) == Some((Load(m, symbols(id).address), m))
            && Place(symbols, calls, x, m) == Some((symbols(id).address, m))
            && Tree(symbols, x, n) == Cons(n, Info(Id, symbols(id), 0, VOID, false), Nil, Nil)
  {
    hide Load;
  }

  /** `++` and `--` behind a variable. */
  lemma PostMeans(symbols: Symbols, calls: Calls, t: Token, id: string, n: nat, m: Memory)
    requires t in {TInc, TDec} && symbols(id).Var?
    requires Values(calls, Tree(symbols, Leaf(Name(id)), n), false, m) == One(Value(symbols, calls, Leaf(Name(id)), m))
    ensures var e := Post(t, Leaf(Name(id)));
            Values(calls, Tree(symbols, e, n), false, m) == One(Value(symbols, calls, e, m))
  {
    hide Values, Tree, Apply, Load, Place, PostValue, Value, Nodes, Print, Proper;
    var x, info := Leaf(Name(id)), Plain(if t == TInc then Inc else Dec);
    ShapeOfPost(symbols, t, x, n);
    Variable(symbols, calls, id, n, m);
    OneOperand(calls, n + Nodes(x), info, Tree(symbols, x, n), false, m, Value(symbols, calls, x, m));
    ApplyPost(calls, t, Tree(symbols, x, n), Load(m, symbols(id).address), m);
    ValueOfPost(symbols, calls, t, x, m);
  }

  lemma ApplyBinary(calls: Calls, t: Token, kids: Forest, a: Word, b: Word, m: Memory)
    requires TokenLevel(t) >= 1
    ensures var v := Yield(t, a, b);
            Apply(calls, Plain(Bin(TokenOp(t))), kids, false, [a, b], m) == if v.None? then None else Some((v.value, m))
  {
    hide Arith, TokenOp, TokenLevel, Yield;
    YieldIsArith(t, a, b);
  }

  lemma ValueOfBinary(symbols: Symbols, calls: Calls, t: Token, l: Expr, r: Expr, m: Memory)
    ensures var a := Value(symbols, calls, l, m);
            var b := if a.None? then None else Value(symbols, calls, r, a.value.1);
            var v := if b.None? then None else Yield(t, a.value.0, b.value.0);
            Value(symbols, calls, Expr.Binary(t, l, r), m) == if v.None? then None else Some((v.value, b.value.1))
  {
    hide Yield, Place;
  }

  lemma BinaryMeans(symbols: Symbols, calls: Calls, t: Token, l: Expr, r: Expr, n: nat, m: Memory)
    requires TokenLevel(t) >= 1
    requires var a := Value(symbols, calls, l, m);
             && Values(calls, Tree(symbols, l, n), false, m) == One(a)
             && (a.Some? ==> Values(calls, Tree(symbols, r, n + Nodes(l)), false, a.value.1) ==
                             One(Value(symbols, calls, r, a.value.1)))
    ensures Values(calls, Tree(symbols, Expr.Binary(t, l, r), n), false, m) ==
              One(Value(symbols, calls, Expr.Binary(t, l, r), m))
  {
    hide Values, Tree, Apply, TokenOp, TokenLevel, Yield, Value, Nodes, Print, Proper, Binds;
    ShapeOfBinary(symbols, t, l, r, n);
    var f, g, a := Tree(symbols, l, n), Tree(symbols, r, n + Nodes(l)), Value(symbols, calls, l, m);
    var b: Answer := if a.Some? then Value(symbols, calls, r, a.value.1) else None;
    TwoOperands(calls, n + Nodes(l) + Nodes(r), Plain(Bin(TokenOp(t))), f, g, false, m, a, b);
    ValueOfBinary(symbols, calls, t, l, r, m);
    if a.Some? && b.Some? { ApplyBinary(calls, t, Beside(f, g), a.value.0, b.value.0, b.value.1); }
  }

  lemma ApplyAssign(calls: Calls, kids: Forest, a: Word, v: Word, m: Memory)
    ensures Apply(calls, Plain(Assign), kids, false, [a, v], m) == Some((v, Store(m, a, v)))
  {
    hide Store;
  }

  lemma ValueOfAssignment(symbols: Symbols, calls: Calls, l: Expr, r: Expr, m: Memory)
    ensures var a := Place(symbols, calls, l, m);
            var v := if a.None? then None else Value(symbols, calls, r, a.value.1);
            Value(symbols, calls, Assignment(l, r), m) ==
            if v.None? then None else Some((v.value.0, Store(v.value.1, a.value.0, v.value.0)))
  {
    hide Store, Place;
  }

  lemma AssignmentMeans(symbols: Symbols, calls: Calls, l: Expr, r: Expr, n: nat, m: Memory)
    requires var a := Place(symbols, calls, l, m);
             && Values(calls, Tree(symbols, l, n), true, m) == One(a)
             && (a.Some? ==> Values(calls, Tree(symbols, r, n + Nodes(l)), false, a.value.1) ==
                             One(Value(symbols, calls, r, a.value.1)))
    ensures Values(calls, Tree(symbols, Assignment(l, r), n), false, m) ==
              One(Value(symbols, calls, Assignment(l, r), m))
  {
    hide Values, Tree, Place, Store, Apply, Value;
    ShapeOfAssignment(symbols, l, r, n);
    var f, g, a := Tree(symbols, l, n), Tree(symbols, r, n + Nodes(l)), Place(symbols, calls, l, m);
    var b: Answer := if a.Some? then Value(symbols, calls, r, a.value.1) else None;
    TwoOperands(calls, n + Nodes(l) + Nodes(r), Plain(Assign), f, g, false, m, a, b);
    ValueOfAssignment(symbols, calls, l, r, m);
    if a.Some? && b.Some? { ApplyAssign(calls, Beside(f, g), a.value.0, b.value.0, b.value.1); }
  }

  lemma ApplyCall(calls: Calls, kids: Forest, f: Word, vs: seq<Word>, m: Memory)
    ensures Apply(calls, Plain(Func), kids, false, [f] + vs, m) == if |vs| > 16 then None else Some(calls(f, vs, m))
  {
    assert ([f] + vs)[1..] == vs;
  }

  lemma ValueOfCall(symbols: Symbols, calls: Calls, x: Expr, args: Args, m: Memory)
    ensures var f := Value(symbols, calls, x, m);
            var vs := if f.None? then None else ArgumentValues(symbols, calls, args, f.value.1);
            Value(symbols, calls, Expr.Call(x, args), m) ==
            if vs.None? || |vs.value.0| > 16 then None else Some(calls(f.value.0, vs.value.0, vs.value.1))
  {
    hide ArgumentValues;
  }

  lemma CallMeans(symbols: Symbols, calls: Calls, x: Expr, args: Args, n: nat, m: Memory)
    requires var f := Value(symbols, calls, x, m);
             && Values(calls, Tree(symbols, x, n), false, m) == One(f)
             && (f.Some? ==> Values(calls, ArgTrees(symbols, args, n + Nodes(x)), false, f.value.1) ==
                             ArgumentValues(symbols, calls, args, f.value.1))
    ensures Values(calls, Tree(symbols, Expr.Call(x, args), n), false, m) ==
              One(Value(symbols, calls, Expr.Call(x, args), m))
  {
    hide Values, Tree, ArgTrees, ArgumentValues, Value, Apply;
    ShapeOfCall(symbols, x, args, n);
    var f, g, a := Tree(symbols, x, n), ArgTrees(symbols, args, n + Nodes(x)), Value(symbols, calls, x, m);
    Alone(calls, n + Nodes(x) + ArgNodes(args), Plain(Func), Beside(f, g), false, m);
    First(calls, f, g, false, m);
    if a.Some? {
      var vs := ArgumentValues(symbols, calls, args, a.value.1);
      if vs.Some? { ApplyCall(calls, Beside(f, g), a.value.0, vs.value.0, vs.value.1); }
    }
    ValueOfCall(symbols, calls, x, args, m);
  }

  // ---- The fragment, operand by operand ----

  lemma OperandFragment(symbols: Symbols, t: Token, x: Expr, n: nat, place: bool)
    requires Proper(symbols, Prefix(t, x)) && LongForest(Tree(symbols, Prefix(t, x), n), place)
    ensures t in {TTilde, TMul} ==> LongForest(Tree(symbols, x, n), false) && (t == TTilde ==> !place)
    ensures t in {TAnd, TInc, TDec} ==> LongForest(Tree(symbols, x, n), true) && !place
  {
    hide LongForest, Tree, LongNode, Proper, Nodes, Print, Binds;
    ShapeOfPrefix(symbols, t, x, n);
    Parts(n + Nodes(x), Plain(PrefixKind(t)), Tree(symbols, x, n), place);
    PrefixPlaces(t, Tree(symbols, x, n), place);
  }

  lemma PrefixPlaces(t: Token, kids: Forest, place: bool)
    requires t in {TInc, TDec, TTilde, TMul, TAnd} && LongNode(Plain(PrefixKind(t)), kids, place)
    ensures t != TMul ==> !place
  {}

  lemma Parts(slot: nat, info: Info, kids: Forest, place: bool)
    requires LongForest(Cons(slot, info, kids, Nil), place)
    ensures LongForest(kids, WantsPlace(info.kind, place)) && LongNode(info, kids, place)
    ensures place ==> info.kind.Id? || info.kind.GetValue?
  {}

  lemma BesideFragment(f: Forest, g: Forest, place: bool)
    requires f.Cons? && f.rest.Nil?
    ensures LongForest(Beside(f, g), place) <==> LongForest(f, place) && LongForest(g, false)
  {
    hide LongNode;
  }

  lemma TwoParts(slot: nat, info: Info, f: Forest, g: Forest, place: bool)
    requires f.Cons? && f.rest.Nil? && LongForest(Cons(slot, info, Beside(f, g), Nil), place)
    requires !(info.kind.Id? || info.kind.GetValue?)
    ensures !place && LongForest(f, WantsPlace(info.kind, false)) && LongForest(g, false)
  {
    hide LongForest, LongNode;
    Parts(slot, info, Beside(f, g), place);
    BesideFragment(f, g, WantsPlace(info.kind, place));
  }

  /** The operand of a postfix operator of the fragment is a shell variable. */
  lemma PostFragment(symbols: Symbols, t: Token, x: Expr, n: nat, place: bool)
    requires Proper(symbols, Post(t, x)) && LongForest(Tree(symbols, Post(t, x), n), place)
    ensures !place && x.Leaf? && x.t.Name? && symbols(x.t.id).Var? && LongForest(Tree(symbols, x, n), false)
  {
    hide LongForest, Tree, LongNode, Proper, IsLeaf;
    ShapeOfPost(symbols, t, x, n);
    var info, f := Plain(if t == TInc then Inc else Dec), Tree(symbols, x, n);
    Parts(n + Nodes(x), info, f, place);
    assert !place && f.info.kind.Id? && f.info.sym.Var? by { VariableNode(info, f, place); }
    OnlyNames(symbols, x, n);
  }

  lemma VariableNode(info: Info, kids: Forest, place: bool)
    requires LongNode(info, kids, place) && info.kind in {Inc, Dec}
    ensures !place && kids.Cons? && kids.info.kind.Id? && kids.info.sym.Var?
  {}

  /** Of the operands that bind most tightly only names become identifier nodes. */
  lemma OnlyNames(symbols: Symbols, x: Expr, n: nat)
    requires Binds(x) >= 8 && Tree(symbols, x, n).info.kind.Id?
    ensures x.Leaf? && x.t.Name? && Tree(symbols, x, n).info.sym == symbols(x.t.id)
  {}

  /** The tree of a proper expression of the 32-bit fragment evaluates to what the expression means. */
  lemma {:induction false} TreeMeans(symbols: Symbols, calls: Calls, e: Expr, n: nat, place: bool, m: Memory)
    requires Proper(symbols, e) && LongForest(Tree(symbols, e, n), place)
    ensures Values(calls, Tree(symbols, e, n), place, m) == One(Answered(symbols, calls, e, place, m))
    decreases e, 1
  {
    hide Values, Tree, Value, Place, LongForest, Proper, Binds, IsLeaf;
    match e
    case Leaf(t) =>
      LeafIsProper(symbols, t);
      LeafMeans(symbols, calls, t, n, place, m);
    case Plus(x) =>
      ShapeOfPlus(symbols, x, n);
      TreeMeans(symbols, calls, x, n, place, m);
      PlusMeans(symbols, calls, x, place, m);
    case Minus(x) =>
      ShapeOfMinus(symbols, x, n);
      MinusFragment(symbols, x, n, place);
      TreeMeans(symbols, calls, x, n, false, m);
      MinusMeans(symbols, calls, x, n, m);
    case Prefix(t, x) =>
      PrefixTreeMeans(symbols, calls, t, x, e, n, place, m);
    case Post(t, x) =>
      ShapeOfPost(symbols, t, x, n);
      PostFragment(symbols, t, x, n, place);
      TreeMeans(symbols, calls, x, n, false, m);
      PostMeans(symbols, calls, t, x.t.id, n, m);
    case Call(x, args) => CallTreeMeans(symbols, calls, x, args, e, n, place, m);
    case Binary(t, l, r) =>
      BinaryTreeMeans(symbols, calls, t, l, r, e, n, place, m);
    case Assignment(l, r) =>
      ShapeOfAssignment(symbols, l, r, n);
      TwoParts(n + Nodes(l) + Nodes(r), Plain(Assign), Tree(symbols, l, n), Tree(symbols, r, n + Nodes(l)), place);
      TreeMeans(symbols, calls, l, n, true, m);
      var a := Place(symbols, calls, l, m);
      if a.Some? { TreeMeans(symbols, calls, r, n + Nodes(l), false, a.value.1); }
      AssignmentMeans(symbols, calls, l, r, n, m);
  }

  lemma {:induction false} PrefixTreeMeans(symbols: Symbols, calls: Calls, t: Token, x: Expr, e: Expr, n: nat,
                                           place: bool, m: Memory)
    requires e == Prefix(t, x) && Proper(symbols, e) && LongForest(Tree(symbols, e, n), place)
    ensures Values(calls, Tree(symbols, e, n), place, m) == One(Answered(symbols, calls, e, place, m))
    decreases e, 0
  {
    hide Values, Tree, Value, Place, LongForest, Proper, Binds;
    ShapeOfPrefix(symbols, t, x, n);
    OperandFragment(symbols, t, x, n, place);
    if t in {TTilde, TMul} {
      TreeMeans(symbols, calls, x, n, false, m);
      PointerMeans(symbols, calls, t, x, n, place, m);
    } else {
      TreeMeans(symbols, calls, x, n, true, m);
      PrefixMeans(symbols, calls, t, x, n, m);
    }
  }

  lemma {:induction false} BinaryTreeMeans(symbols: Symbols, calls: Calls, t: Token, l: Expr, r: Expr, e: Expr, n: nat,
                                           place: bool, m: Memory)
    requires e == Expr.Binary(t, l, r) && Proper(symbols, e) && LongForest(Tree(symbols, e, n), place)
    ensures Values(calls, Tree(symbols, e, n), place, m) == One(Answered(symbols, calls, e, place, m))
    decreases e, 0
  {
    hide Values, Tree, Value, Place, LongForest, Proper, Binds;
    ShapeOfBinary(symbols, t, l, r, n);
    TwoParts(n + Nodes(l) + Nodes(r), Plain(Bin(TokenOp(t))), Tree(symbols, l, n), Tree(symbols, r, n + Nodes(l)),
        place);
    TreeMeans(symbols, calls, l, n, false, m);
    var a := Value(symbols, calls, l, m);
    if a.Some? { TreeMeans(symbols, calls, r, n + Nodes(l), false, a.value.1); }
    BinaryMeans(symbols, calls, t, l, r, n, m);
  }

  lemma {:induction false} CallTreeMeans(symbols: Symbols, calls: Calls, x: Expr, args: Args, e: Expr, n: nat,
                                         place: bool, m: Memory)
    requires e == Expr.Call(x, args) && Proper(symbols, e) && LongForest(Tree(symbols, e, n), place)
    ensures Values(calls, Tree(symbols, e, n), place, m) == One(Answered(symbols, calls, e, place, m))
    decreases e, 0
  {
    hide Values, Tree, Value, Place, LongForest, Proper, Binds, ProperArgs, ArgTrees, ArgumentValues;
    ShapeOfCall(symbols, x, args, n);
    TwoParts(n + Nodes(x) + ArgNodes(args), Plain(Func), Tree(symbols, x, n), ArgTrees(symbols, args, n + Nodes(x)),
        place);
    TreeMeans(symbols, calls, x, n, false, m);
    var f := Value(symbols, calls, x, m);
    if f.Some? { ArgumentsMean(symbols, calls, args, n + Nodes(x), f.value.1); }
    CallMeans(symbols, calls, x, args, n, m);
  }

  lemma {:induction false} ArgumentsMean(symbols: Symbols, calls: Calls, args: Args, n: nat, m: Memory)
    requires ProperArgs(symbols, args) && LongForest(ArgTrees(symbols, args, n), false)
    ensures Values(calls, ArgTrees(symbols, args, n), false, m) == ArgumentValues(symbols, calls, args, m)
    decreases args, 1
  {
    hide Values, Tree, Value, LongForest, Proper, ArgTrees, ArgumentValues, ArgNodes;
    if args.NoArgs? {
      NoArgumentsMean(symbols, calls, n, m);
    } else {
      var f, g := Tree(symbols, args.e, n), ArgTrees(symbols, args.others, n + Nodes(args.e));
      ShapeOfArg(symbols, args.e, args.others, n);
      BesideFragment(f, g, false);
      TreeMeans(symbols, calls, args.e, n, false, m);
      First(calls, f, g, false, m);
      var v := Value(symbols, calls, args.e, m);
      if v.Some? { ArgumentsMean(symbols, calls, args.others, n + Nodes(args.e), v.value.1); }
      ValuesOfArg(symbols, calls, args.e, args.others, m);
    }
  }

  lemma NoArgumentsMean(symbols: Symbols, calls: Calls, n: nat, m: Memory)
    ensures Values(calls, ArgTrees(symbols, NoArgs, n), false, m) == Some(([], m)) ==
              ArgumentValues(symbols, calls, NoArgs, m)
  {}

  lemma ValuesOfArg(symbols: Symbols, calls: Calls, e: Expr, others: Args, m: Memory)
    ensures var v := Value(symbols, calls, e, m);
            var vs := if v.None? then None else ArgumentValues(symbols, calls, others, v.value.1);
            ArgumentValues(symbols, calls, Arg(e, others), m) ==
            if vs.None? then None else Some(([v.value.0] + vs.value.0, vs.value.1))
  {
    hide Value;
  }

  lemma LeafIsProper(symbols: Symbols, t: Token)
    ensures Proper(symbols, Leaf(t)) <==> IsLeaf(symbols, t)
  {}

  lemma PlusMeans(symbols: Symbols, calls: Calls, x: Expr, place: bool, m: Memory)
    ensures Answered(symbols, calls, Plus(x), place, m) == Answered(symbols, calls, x, place, m)
  {}

  lemma MinusFragment(symbols: Symbols, x: Expr, n: nat, place: bool)
    requires LongForest(Tree(symbols, Minus(x), n), place)
    ensures !place && LongForest(Tree(symbols, x, n), false)
  {
    hide LongForest, Tree, Nodes, LongNode;
    MinusTree(symbols, x, n);
    var f, slot := Tree(symbols, x, n), n + Nodes(x);
    TwoParts(slot + 1, Plain(Bin(Sub)), Cons(slot, Plain(ValueLong), Nil, Nil), f, place);
  }

  // ---- Lines of statements ----

  /** The trees of a line evaluate to the meaning of its statements, one after the other. */
  lemma {:induction false} LineMeans(symbols: Symbols, calls: Calls, es: seq<Expr>, n: nat, m: Memory)
    requires es != [] && ProperLine(symbols, es) && LongForest(LineTrees(symbols, es, n), false)
    ensures Meaning(calls, LineTrees(symbols, es, n), m) == One(Line(symbols, calls, es, m))
    decreases |es|
  {
    hide Values, Value, LongForest, Proper, Tree;
    var f, g := Tree(symbols, es[0], n), LineTrees(symbols, es[1..], n + Nodes(es[0]));
    BesideFragment(f, g, false);
    TreeMeans(symbols, calls, es[0], n, false, m);
    assert Cons(f.slot, f.info, f.kids, Nil) == f;
    var r := Value(symbols, calls, es[0], m);
    if r.Some? && |es| > 1 {
      LineMeans(symbols, calls, es[1..], n + Nodes(es[0]), r.value.1);
    }
  }
}
