/**
 The grammar of the shell's expressions: what the recursive-descent parser makes of a token list, what a
 printed expression looks like, and that the two are inverse.
 */
module FinshParser {
  import opened FinshTree

  datatype Token =
    | LeftParen | RightParen | Comma | Semicolon
    | TMul | TAdd | TInc | TSub | TDec | TDiv | TMod | TAssign | TAnd | TOr | TXor | TTilde | TShl | TShr
    | TypeName
    | CharValue(v: Word) | IntValue(v: Word) | LongValue(v: Word) | StringValue(v: Word) | NullValue
    | Name(id: string)
    | BadToken | Eof

  /** What the symbol tables know about a name. */
  type Symbols = string -> Symbol

  const NODE_MAX: nat := 16

  function TokenAt(ts: seq<Token>, i: nat): Token { if i < |ts| then ts[i] else Eof }

  // ---- Levels of binary operators ----

  /** Precedence of a binary operator token, 1 the loosest and 6 the tightest; 0 for any other token. */
  function TokenLevel(t: Token): (k: nat)
    ensures k <= 6
  {
    match t
    case TOr => 1
    case TXor => 2
    case TAnd => 3
    case TShl | TShr => 4
    case TAdd | TSub => 5
    case TMul | TDiv | TMod => 6
    case _ => 0
  }

  function TokenOp(t: Token): BinOp {
    match t
    case TOr => Or
    case TXor => Xor
    case TAnd => And
    case TShl => Shl
    case TShr => Shr
    case TAdd => Add
    case TSub => Sub
    case TDiv => Div
    case TMod => Mod
    case _ => Mul
  }

  // ---- The parser on values ----

  /** The tree of an expression, the index of the next token, and the number of nodes used; or a reported error. */
  datatype Outcome = Failed | Parsed(tree: Forest, next: nat, used: nat)

  function Plain(kind: Kind): Info { Info(kind, NoSymbol, 0, VOID, false) }

  /** Whether a token is an operand by itself, and the node it becomes. */
  predicate IsLeaf(symbols: Symbols, t: Token) {
    match t
    case Name(id) => !symbols(id).NoSymbol?
    case CharValue(_) => true
    case IntValue(_) => true
    case LongValue(_) => true
    case StringValue(_) => true
    case NullValue => true
    case _ => false
  }

  function LeafInfo(symbols: Symbols, t: Token): Info {
    match t
    case Name(id) => Info(Id, symbols(id), 0, VOID, false)
    case CharValue(v) => Plain(ValueChar).(value := v)
    case IntValue(v) => Plain(ValueInt).(value := v)
    case LongValue(v) => Plain(ValueLong).(value := v)
    case StringValue(v) => Plain(ValueString).(value := v)
    case _ => Plain(ValueNull)
  }

  /** A new node above a list of children. */
  function Made(info: Info, kids: Forest, next: nat, used: nat): Outcome {
    if used < NODE_MAX then Parsed(Cons(used, info, kids, Nil), next, used + 1) else Failed
  }

  /** A tree with others beside it. */
  function Beside(tree: Forest, rest: Forest): Forest {
    if tree.Cons? then tree.(rest := rest) else tree
  }

  ghost predicate Moves(r: Outcome, ts: seq<Token>, i: nat, n: nat) {
    r.Parsed? ==> i < r.next <= |ts| && n < r.used <= NODE_MAX && r.tree.Cons? && r.tree.rest.Nil?
  }

  function Primary(symbols: Symbols, ts: seq<Token>, i: nat, n: nat): (r: Outcome)
    ensures Moves(r, ts, i, n)
  {
    if IsLeaf(symbols, TokenAt(ts, i)) then Made(LeafInfo(symbols, TokenAt(ts, i)), Nil, i + 1, n) else Failed
  }

  function Postfix(symbols: Symbols, ts: seq<Token>, i: nat, n: nat): (r: Outcome)
    ensures Moves(r, ts, i, n)
    decreases |ts| - i, 2
  {
    var first := Primary(symbols, ts, i, n);
    if first.Parsed? then PostfixTail(symbols, ts, first) else Failed
  }

  /** `++`, `--` and argument lists behind an operand. */
  function PostfixTail(symbols: Symbols, ts: seq<Token>, left: Outcome): (r: Outcome)
    requires left.Parsed? && left.next <= |ts| && left.used <= NODE_MAX && left.tree.Cons? && left.tree.rest.Nil?
    ensures r.Parsed? ==>
              left.next <= r.next <= |ts| && left.used <= r.used <= NODE_MAX && r.tree.Cons? && r.tree.rest.Nil?
    decreases |ts| - left.next, 1
  {
    match TokenAt(ts, left.next)
    case TInc =>
      var node := Made(Plain(Inc), left.tree, left.next + 1, left.used);
      if node.Parsed? then PostfixTail(symbols, ts, node) else Failed
    case TDec =>
      var node := Made(Plain(Dec), left.tree, left.next + 1, left.used);
      if node.Parsed? then PostfixTail(symbols, ts, node) else Failed
    case LeftParen =>
      var node := Arguments(symbols, ts, left);
      if node.Parsed? then PostfixTail(symbols, ts, node) else Failed
    case _ => left
  }

  /** A call, from the opening parenthesis on. */
  function Arguments(symbols: Symbols, ts: seq<Token>, left: Outcome): (r: Outcome)
    requires left.Parsed? && left.next < |ts| && left.used <= NODE_MAX && left.tree.Cons? && left.tree.rest.Nil?
    ensures Moves(r, ts, left.next, left.used)
    decreases |ts| - left.next, 0
  {
    if TokenAt(ts, left.next + 1) == RightParen then Made(Plain(Func), left.tree, left.next + 2, left.used)
    else
      var params := Parameters(symbols, ts, left.next + 1, left.used);
      if params.Parsed? && TokenAt(ts, params.next) == RightParen
      then Made(Plain(Func), Beside(left.tree, params.tree), params.next + 1, params.used)
      else Failed
  }

  function Parameters(symbols: Symbols, ts: seq<Token>, i: nat, n: nat): (r: Outcome)
    ensures r.Parsed? ==> i < r.next <= |ts| && n < r.used <= NODE_MAX && r.tree.Cons?
    decreases |ts| - i, 13
  {
    var first := Assigned(symbols, ts, i, n);
    if first.Failed? then Failed
    else if TokenAt(ts, first.next) != Comma then first
    else
      var others := Parameters(symbols, ts, first.next + 1, first.used);
      if others.Failed? then Failed else Parsed(Beside(first.tree, others.tree), others.next, others.used)
  }

  /** The node kind of a prefix operator that makes one node. */
  function PrefixKind(t: Token): Kind {
    match t
    case TInc => PreInc
    case TDec => PreDec
    case TTilde => Bitwise
    case TMul => GetValue
    case _ => GetAddr
  }

  /** A prefix operator applies to an operand of the same level. A parenthesis here would be a cast. */
  function Unary(symbols: Symbols, ts: seq<Token>, i: nat, n: nat): (r: Outcome)
    ensures Moves(r, ts, i, n)
    decreases |ts| - i, 3
  {
    match TokenAt(ts, i)
    case TAdd => Unary(symbols, ts, i + 1, n)
    case TSub =>
      var e := Unary(symbols, ts, i + 1, n);
      if e.Failed? || e.used >= NODE_MAX then Failed
      else Made(Plain(Bin(Sub)), Cons(e.used, Plain(ValueLong), Nil, e.tree), e.next, e.used + 1)
    case TInc | TDec | TTilde | TMul | TAnd =>
      var e := Unary(symbols, ts, i + 1, n);
      if e.Failed? then Failed else Made(Plain(PrefixKind(TokenAt(ts, i))), e.tree, e.next, e.used)
    case LeftParen => Failed
    case _ => Postfix(symbols, ts, i, n)
  }

  /** The levels of binary operators; level 7 is that of operands. */
  function Level(symbols: Symbols, ts: seq<Token>, i: nat, n: nat, k: nat): (r: Outcome)
    requires 1 <= k <= 7
    ensures Moves(r, ts, i, n)
    decreases |ts| - i, 11 - k
  {
    if k == 7 then Unary(symbols, ts, i, n)
    else
      var first := Level(symbols, ts, i, n, k + 1);
      if first.Parsed? then LevelTail(symbols, ts, first, k) else Failed
  }

  /** Operators of one level, applied from left to right. */
  function LevelTail(symbols: Symbols, ts: seq<Token>, left: Outcome, k: nat): (r: Outcome)
    requires 1 <= k <= 6
    requires left.Parsed? && left.next <= |ts| && left.used <= NODE_MAX && left.tree.Cons? && left.tree.rest.Nil?
    ensures r.Parsed? ==>
              left.next <= r.next <= |ts| && left.used <= r.used <= NODE_MAX && r.tree.Cons? && r.tree.rest.Nil?
    decreases |ts| - left.next, 0
  {
    var t := TokenAt(ts, left.next);
    if TokenLevel(t) != k then left
    else
      var right := Level(symbols, ts, left.next + 1, left.used, k + 1);
      if right.Failed? then Failed
      else
        var node := Made(Plain(Bin(TokenOp(t))), Beside(left.tree, right.tree), right.next, right.used);
        if node.Parsed? then LevelTail(symbols, ts, node, k) else Failed
  }

  /** Assignment, from right to left. */
  function Assigned(symbols: Symbols, ts: seq<Token>, i: nat, n: nat): (r: Outcome)
    ensures Moves(r, ts, i, n)
    decreases |ts| - i, 12
  {
    var left := Level(symbols, ts, i, n, 1);
    if left.Failed? || TokenAt(ts, left.next) != TAssign then left
    else
      var right := Assigned(symbols, ts, left.next + 1, left.used);
      if right.Failed? then Failed
      else Made(Plain(Assign), Beside(left.tree, right.tree), right.next, right.used)
  }

  // ---- Expressions and their printed form ----

  /** Expressions that are written without grouping parentheses where `Proper` holds. */
  datatype Expr =
    | Leaf(t: Token)
    | Plus(e: Expr)
    | Minus(e: Expr)
    | Prefix(t: Token, e: Expr)
    | Post(t: Token, e: Expr)
    | Call(e: Expr, args: Args)
    | Binary(t: Token, l: Expr, r: Expr)
    | Assignment(l: Expr, r: Expr)

  datatype Args = NoArgs | Arg(e: Expr, others: Args)

  /** How tightly an expression binds: 0 for assignment up to 8 for operands with postfix operators. */
  function Binds(e: Expr): (k: nat)
    ensures k <= 8
  {
    match e
    case Assignment(_, _) => 0
    case Binary(t, _, _) => TokenLevel(t)
    case Plus(_) => 7
    case Minus(_) => 7
    case Prefix(_, _) => 7
    case Leaf(_) => 8
    case Post(_, _) => 8
    case Call(_, _) => 8
  }

  /** Every operand binds tightly enough to stand where it stands. */
  predicate Proper(symbols: Symbols, e: Expr) {
    match e
    case Leaf(t) => IsLeaf(symbols, t)
    case Plus(x) => Proper(symbols, x) && Binds(x) >= 7
    case Minus(x) => Proper(symbols, x) && Binds(x) >= 7
    case Prefix(t, x) => t in {TInc, TDec, TTilde, TMul, TAnd} && Proper(symbols, x) && Binds(x) >= 7
    case Post(t, x) => t in {TInc, TDec} && Proper(symbols, x) && Binds(x) >= 8
    case Call(x, args) => Proper(symbols, x) && Binds(x) >= 8 && ProperArgs(symbols, args)
    case Binary(t, l, r) =>
        TokenLevel(t) >= 1 && Proper(symbols, l) && Proper(symbols, r) && Binds(l) >= TokenLevel(t)
            && Binds(r) > TokenLevel(t)
    case Assignment(l, r) => Proper(symbols, l) && Proper(symbols, r) && Binds(l) >= 1
  }

  predicate ProperArgs(symbols: Symbols, args: Args) {
    match args
    case NoArgs => true
    case Arg(e, others) => Proper(symbols, e) && ProperArgs(symbols, others)
  }

  function Print(e: Expr): (s: seq<Token>)
    ensures |s| >= 1
  {
    match e
    case Leaf(t) => [t]
    case Plus(x) => [TAdd] + Print(x)
    case Minus(x) => [TSub] + Print(x)
    case Prefix(t, x) => [t] + Print(x)
    case Post(t, x) => Print(x) + [t]
    case Call(x, args) => Print(x) + ([LeftParen] + (PrintArgs(args) + [RightParen]))
    case Binary(t, l, r) => Print(l) + ([t] + Print(r))
    case Assignment(l, r) => Print(l) + ([TAssign] + Print(r))
  }

  function PrintArgs(args: Args): (s: seq<Token>)
    ensures args.Arg? ==> |s| >= 1
  {
    match args
    case NoArgs => []
    case Arg(e, others) => Print(e) + if others.NoArgs? then [] else [Comma] + PrintArgs(others)
  }

  function Nodes(e: Expr): (n: nat)
    ensures n >= 1
  {
    match e
    case Leaf(_) => 1
    case Plus(x) => Nodes(x)
    case Minus(x) => Nodes(x) + 2
    case Prefix(_, x) => Nodes(x) + 1
    case Post(_, x) => Nodes(x) + 1
    case Call(x, args) => Nodes(x) + ArgNodes(args) + 1
    case Binary(_, l, r) => Nodes(l) + Nodes(r) + 1
    case Assignment(l, r) => Nodes(l) + Nodes(r) + 1
  }

  function ArgNodes(args: Args): nat {
    match args
    case NoArgs => 0
    case Arg(e, others) => Nodes(e) + ArgNodes(others)
  }

  /** The tree of an expression, with its nodes numbered from `n` on. */
  function Tree(symbols: Symbols, e: Expr, n: nat): (f: Forest)
    ensures f.Cons? && f.rest.Nil?
  {
    match e
    case Leaf(t) => Cons(n, LeafInfo(symbols, t), Nil, Nil)
    case Plus(x) => Tree(symbols, x, n)
    case Minus(x) =>
        Cons(n + Nodes(x) + 1, Plain(Bin(Sub)), Cons(n + Nodes(x), Plain(ValueLong), Nil, Tree(symbols, x, n)), Nil)
    case Prefix(t, x) => Cons(n + Nodes(x), Plain(PrefixKind(t)), Tree(symbols, x, n), Nil)
    case Post(t, x) => Cons(n + Nodes(x), Plain(if t == TInc then Inc else Dec), Tree(symbols, x, n), Nil)
    case Call(x, args) =>
        Cons(n + Nodes(x) + ArgNodes(args), Plain(Func),
            Beside(Tree(symbols, x, n), ArgTrees(symbols, args, n + Nodes(x))), Nil)
    case Binary(t, l, r) =>
        Cons(n + Nodes(l) + Nodes(r), Plain(Bin(TokenOp(t))),
            Beside(Tree(symbols, l, n), Tree(symbols, r, n + Nodes(l))), Nil)
    case Assignment(l, r) =>
        Cons(n + Nodes(l) + Nodes(r), Plain(Assign), Beside(Tree(symbols, l, n), Tree(symbols, r, n + Nodes(l))), Nil)
  }

  function ArgTrees(symbols: Symbols, args: Args, n: nat): (f: Forest)
    ensures args.Arg? ==> f.Cons?
  {
    match args
    case NoArgs => Nil
    case Arg(e, others) => Beside(Tree(symbols, e, n), ArgTrees(symbols, others, n + Nodes(e)))
  }

  // ---- The shape of each form: printed tokens, number of nodes, tree, and when it is proper ----

  lemma ShapeOfPlus(symbols: Symbols, x: Expr, n: nat)
    ensures Print(Plus(x)) == [TAdd] + Print(x) && Nodes(Plus(x)) == Nodes(x)
            && Tree(symbols, Plus(x), n) == Tree(symbols, x, n)
    ensures Proper(symbols, Plus(x)) <==> Proper(symbols, x) && Binds(x) >= 7
  {}

  lemma ShapeOfMinus(symbols: Symbols, x: Expr, n: nat)
    ensures Print(Minus(x)) == [TSub] + Print(x) && Nodes(Minus(x)) == Nodes(x) + 2
    ensures Tree(symbols, Minus(x), n) ==
            Cons(n + Nodes(x) + 1, Plain(Bin(Sub)), Cons(n + Nodes(x), Plain(ValueLong), Nil, Tree(symbols, x, n)), Nil)
    ensures Proper(symbols, Minus(x)) <==> Proper(symbols, x) && Binds(x) >= 7
  {}

  lemma ShapeOfPrefix(symbols: Symbols, t: Token, x: Expr, n: nat)
    ensures Print(Prefix(t, x)) == [t] + Print(x) && Nodes(Prefix(t, x)) == Nodes(x) + 1
    ensures Tree(symbols, Prefix(t, x), n) == Cons(n + Nodes(x), Plain(PrefixKind(t)), Tree(symbols, x, n), Nil)
    ensures Proper(symbols, Prefix(t, x)) <==>
              t in {TInc, TDec, TTilde, TMul, TAnd} && Proper(symbols, x) && Binds(x) >= 7
  {}

  lemma ShapeOfPost(symbols: Symbols, t: Token, x: Expr, n: nat)
    ensures Print(Post(t, x)) == Print(x) + [t] && Nodes(Post(t, x)) == Nodes(x) + 1
    ensures Tree(symbols, Post(t, x), n) ==
              Cons(n + Nodes(x), Plain(if t == TInc then Inc else Dec), Tree(symbols, x, n), Nil)
    ensures Proper(symbols, Post(t, x)) <==> t in {TInc, TDec} && Proper(symbols, x) && Binds(x) >= 8
  {}

  lemma ShapeOfCall(symbols: Symbols, x: Expr, args: Args, n: nat)
    ensures Print(Call(x, args)) == Print(x) + ([LeftParen] + (PrintArgs(args) + [RightParen]))
    ensures Nodes(Call(x, args)) == Nodes(x) + ArgNodes(args) + 1
    ensures Tree(symbols, Call(x, args), n) ==
            Cons(n + Nodes(x) + ArgNodes(args), Plain(Func),
                Beside(Tree(symbols, x, n), ArgTrees(symbols, args, n + Nodes(x))), Nil)
    ensures Proper(symbols, Call(x, args)) <==> Proper(symbols, x) && Binds(x) >= 8 && ProperArgs(symbols, args)
    ensures args.NoArgs? ==> ArgNodes(args) == 0 && PrintArgs(args) == [] && ProperArgs(symbols, args)
                             && Beside(Tree(symbols, x, n), ArgTrees(symbols, args, n + Nodes(x))) ==
                                Tree(symbols, x, n)
  {}

  lemma ShapeOfBinary(symbols: Symbols, t: Token, l: Expr, r: Expr, n: nat)
    ensures Print(Binary(t, l, r)) == Print(l) + ([t] + Print(r)) && Nodes(Binary(t, l, r)) == Nodes(l) + Nodes(r) + 1
    ensures Tree(symbols, Binary(t, l, r), n) ==
            Cons(n + Nodes(l) + Nodes(r), Plain(Bin(TokenOp(t))),
                Beside(Tree(symbols, l, n), Tree(symbols, r, n + Nodes(l))), Nil)
    ensures Proper(symbols, Binary(t, l, r)) <==>
            TokenLevel(t) >= 1 && Proper(symbols, l) && Proper(symbols, r) && Binds(l) >= TokenLevel(t)
                && Binds(r) > TokenLevel(t)
  {}

  lemma ShapeOfAssignment(symbols: Symbols, l: Expr, r: Expr, n: nat)
    ensures Print(Assignment(l, r)) == Print(l) + ([TAssign] + Print(r))
            && Nodes(Assignment(l, r)) == Nodes(l) + Nodes(r) + 1
    ensures Tree(symbols, Assignment(l, r), n) ==
            Cons(n + Nodes(l) + Nodes(r), Plain(Assign), Beside(Tree(symbols, l, n), Tree(symbols, r, n + Nodes(l))),
                Nil)
    ensures Proper(symbols, Assignment(l, r)) <==> Proper(symbols, l) && Proper(symbols, r) && Binds(l) >= 1
  {}

  lemma ShapeOfArg(symbols: Symbols, e: Expr, others: Args, n: nat)
    ensures PrintArgs(Arg(e, others)) == if others.NoArgs? then Print(e) else Print(e) + ([Comma] + PrintArgs(others))
    ensures ArgNodes(Arg(e, others)) == Nodes(e) + ArgNodes(others) && (others.NoArgs? ==> ArgNodes(others) == 0)
    ensures ArgTrees(symbols, Arg(e, others), n) == Beside(Tree(symbols, e, n), ArgTrees(symbols, others, n + Nodes(e)))
    ensures others.NoArgs? ==> ArgTrees(symbols, Arg(e, others), n) == Tree(symbols, e, n)
    ensures ProperArgs(symbols, Arg(e, others)) <==> Proper(symbols, e) && ProperArgs(symbols, others)
  {
    PrintOfArg(e, others);
    hide Print, PrintArgs;
  }

  lemma PrintOfArg(e: Expr, others: Args)
    ensures PrintArgs(Arg(e, others)) == if others.NoArgs? then Print(e) else Print(e) + ([Comma] + PrintArgs(others))
  {
    hide Print;
    if others.NoArgs? { assert Print(e) + [] == Print(e); }
  }

  // ---- Parsing what was printed ----

  /** The tokens stand in the list from an index on. */
  ghost predicate StandsAt(ts: seq<Token>, i: nat, s: seq<Token>) {
    i + |s| <= |ts| && forall d :: 0 <= d < |s| ==> TokenAt(ts, i + d) == s[d]
  }

  lemma StandsInTwo(ts: seq<Token>, i: nat, a: seq<Token>, b: seq<Token>)
    requires StandsAt(ts, i, a + b)
    ensures StandsAt(ts, i, a) && StandsAt(ts, i + |a|, b) && i + |a| + |b| <= |ts|
  {
    forall d | 0 <= d < |a|
      ensures TokenAt(ts, i + d) == a[d]
    {
      assert (a + b)[d] == a[d];
    }
    forall d | 0 <= d < |b|
      ensures TokenAt(ts, i + |a| + d) == b[d]
    {
      assert TokenAt(ts, i + (|a| + d)) == (a + b)[|a| + d] == b[d];
    }
  }

  lemma OneStands(ts: seq<Token>, i: nat, t: Token)
    requires StandsAt(ts, i, [t])
    ensures TokenAt(ts, i) == t && i < |ts|
  {
    assert TokenAt(ts, i + 0) == [t][0];
  }

  lemma FirstStands(ts: seq<Token>, i: nat, t: Token, b: seq<Token>)
    requires StandsAt(ts, i, [t] + b)
    ensures TokenAt(ts, i) == t && i < |ts| && StandsAt(ts, i + 1, b)
  {
    hide StandsAt;
    StandsInTwo(ts, i, [t], b);
    OneStands(ts, i, t);
  }

  /** Two token lists with a token between them. */
  lemma MiddleStands(ts: seq<Token>, i: nat, a: seq<Token>, t: Token, b: seq<Token>)
    requires StandsAt(ts, i, a + ([t] + b))
    ensures StandsAt(ts, i, a) && TokenAt(ts, i + |a|) == t && StandsAt(ts, i + |a| + 1, b) && i + |a| + 1 + |b| <= |ts|
  {
    hide StandsAt;
    StandsInTwo(ts, i, a, [t] + b);
    FirstStands(ts, i + |a|, t, b);
  }

  /** A token that cannot continue an expression of level `k`. */
  predicate Stops(t: Token, k: nat) {
    t !in {TInc, TDec, LeftParen} && !(TokenLevel(t) >= k && TokenLevel(t) >= 1) && (k == 0 ==> t != TAssign)
  }

  /** What parsing an expression's printed form at `i` yields, when `n` nodes are in use. */
  function Whole(symbols: Symbols, e: Expr, i: nat, n: nat): Outcome {
    Parsed(Tree(symbols, e, n), i + |Print(e)|, n + Nodes(e))
  }

  /** Where the theorem applies: the printed form stands at `i` and the node table has room. */
  ghost predicate Ready(symbols: Symbols, ts: seq<Token>, e: Expr, i: nat, n: nat) {
    Proper(symbols, e) && StandsAt(ts, i, Print(e)) && n + Nodes(e) <= NODE_MAX && i + |Print(e)| <= |ts|
  }

  lemma LeafParsed(symbols: Symbols, ts: seq<Token>, t: Token, i: nat, n: nat)
    requires Ready(symbols, ts, Leaf(t), i, n)
    ensures Postfix(symbols, ts, i, n) == PostfixTail(symbols, ts, Whole(symbols, Leaf(t), i, n))
  {
    OneStands(ts, i, t);
  }

  /** An operand with postfix operators. */
  lemma {:induction false} PostfixPrinted(symbols: Symbols, ts: seq<Token>, e: Expr, i: nat, n: nat)
    requires Ready(symbols, ts, e, i, n) && Binds(e) >= 8
    ensures Postfix(symbols, ts, i, n) == PostfixTail(symbols, ts, Whole(symbols, e, i, n))
    decreases e, 1
  {
    hide Postfix, PostfixTail, Whole, Ready;
    match e
    case Leaf(t) => LeafParsed(symbols, ts, t, i, n);
    case Post(t, x) =>
      PostParts(symbols, ts, t, x, i, n);
      PostfixPrinted(symbols, ts, x, i, n);
      PostParsed(symbols, ts, t, x, i, n);
    case Call(x, args) => CallPrinted(symbols, ts, x, args, e, i, n);
  }

  lemma PostParts(symbols: Symbols, ts: seq<Token>, t: Token, x: Expr, i: nat, n: nat)
    requires Ready(symbols, ts, Post(t, x), i, n)
    ensures Ready(symbols, ts, x, i, n) && Binds(x) >= 8 && t in {TInc, TDec} && TokenAt(ts, i + |Print(x)|) == t
    ensures n + Nodes(x) < NODE_MAX && i + |Print(x)| < |ts|
  {
    hide StandsAt, TokenAt, Print, Nodes, Tree, Proper, Binds;
    ShapeOfPost(symbols, t, x, n);
    StandsInTwo(ts, i, Print(x), [t]);
    OneStands(ts, i + |Print(x)|, t);
  }

  lemma PostParsed(symbols: Symbols, ts: seq<Token>, t: Token, x: Expr, i: nat, n: nat)
    requires t in {TInc, TDec} && TokenAt(ts, i + |Print(x)|) == t && n + Nodes(x) < NODE_MAX && i + |Print(x)| < |ts|
    requires Postfix(symbols, ts, i, n) == PostfixTail(symbols, ts, Whole(symbols, x, i, n))
    ensures Postfix(symbols, ts, i, n) == PostfixTail(symbols, ts, Whole(symbols, Post(t, x), i, n))
  {
    hide Postfix, TokenAt, Print, Nodes, Tree, Proper, Arguments;
    ShapeOfPost(symbols, t, x, n);
  }

  lemma {:induction false} CallPrinted(symbols: Symbols, ts: seq<Token>, x: Expr, args: Args, e: Expr, i: nat, n: nat)
    requires Ready(symbols, ts, e, i, n) && e == Call(x, args)
    ensures Postfix(symbols, ts, i, n) == PostfixTail(symbols, ts, Whole(symbols, e, i, n))
    decreases e, 0
  {
    hide Postfix, PostfixTail, Parameters, Whole, StandsAt, TokenAt, Ready, Nodes, Print, ArgNodes, PrintArgs,
        ProperArgs, ArgTrees, Binds;
    CallParts(symbols, ts, x, args, i, n);
    PostfixPrinted(symbols, ts, x, i, n);
    if args.Arg? { ArgumentsPrinted(symbols, ts, args, i + |Print(x)| + 1, n + Nodes(x)); }
    CallParsed(symbols, ts, x, args, i, n);
  }

  lemma CallParts(symbols: Symbols, ts: seq<Token>, x: Expr, args: Args, i: nat, n: nat)
    requires Ready(symbols, ts, Call(x, args), i, n)
    ensures Ready(symbols, ts, x, i, n) && Binds(x) >= 8 && ProperArgs(symbols, args) && i + |Print(x)| < |ts|
    ensures TokenAt(ts, i + |Print(x)|) == LeftParen && StandsAt(ts, i + |Print(x)| + 1, PrintArgs(args))
    ensures TokenAt(ts, i + |Print(x)| + 1 + |PrintArgs(args)|) == RightParen
            && n + Nodes(x) + ArgNodes(args) < NODE_MAX
    ensures i + |Print(x)| + 1 + |PrintArgs(args)| <= |ts|
  {
    hide StandsAt, TokenAt, Print, Nodes, Tree, Proper, ProperArgs, PrintArgs, ArgNodes, ArgTrees, Binds;
    var open := i + |Print(x)|;
    ShapeOfCall(symbols, x, args, n);
    MiddleStands(ts, i, Print(x), LeftParen, PrintArgs(args) + [RightParen]);
    StandsInTwo(ts, open + 1, PrintArgs(args), [RightParen]);
    OneStands(ts, open + 1 + |PrintArgs(args)|, RightParen);
  }

  lemma CallParsed(symbols: Symbols, ts: seq<Token>, x: Expr, args: Args, i: nat, n: nat)
    requires n + Nodes(x) + ArgNodes(args) < NODE_MAX && i + |Print(x)| < |ts|
    requires Postfix(symbols, ts, i, n) == PostfixTail(symbols, ts, Whole(symbols, x, i, n))
    requires TokenAt(ts, i + |Print(x)|) == LeftParen
    requires TokenAt(ts, i + |Print(x)| + 1 + |PrintArgs(args)|) == RightParen
    requires args.Arg? ==> (var open := i + |Print(x)|;
                            TokenAt(ts, open + 1) != RightParen
                            && Parameters(symbols, ts, open + 1, n + Nodes(x)) ==
                               Parsed(ArgTrees(symbols, args, n + Nodes(x)), open + 1 + |PrintArgs(args)|,
                                   n + Nodes(x) + ArgNodes(args)))
    ensures Postfix(symbols, ts, i, n) == PostfixTail(symbols, ts, Whole(symbols, Call(x, args), i, n))
  {
    hide Postfix, Parameters, Nodes, Print, Tree, ArgTrees, PrintArgs, ArgNodes, TokenAt, Proper, ProperArgs;
    ShapeOfCall(symbols, x, args, n);
  }

  /** The first token of a printed expression is an operand or a prefix operator. */
  lemma {:induction false} FirstToken(symbols: Symbols, e: Expr)
    requires Proper(symbols, e)
    ensures Print(e)[0] in {TAdd, TSub, TInc, TDec, TTilde, TMul, TAnd} || IsLeaf(symbols, Print(e)[0])
    ensures Binds(e) == 8 ==> IsLeaf(symbols, Print(e)[0])
    decreases e
  {
    hide IsLeaf;
    match e
    case Leaf(t) =>
    case Plus(x) =>
    case Minus(x) =>
    case Prefix(t, x) =>
    case Post(t, x) => FirstToken(symbols, x);
    case Call(x, args) => FirstToken(symbols, x);
    case Binary(t, l, r) => FirstToken(symbols, l);
    case Assignment(l, r) => FirstToken(symbols, l);
  }

  lemma FirstPrinted(ts: seq<Token>, e: Expr, i: nat)
    requires StandsAt(ts, i, Print(e))
    ensures TokenAt(ts, i) == Print(e)[0]
  {
    assert TokenAt(ts, i + 0) == Print(e)[0];
  }

  /** Arguments, separated by commas, in front of the closing parenthesis. */
  lemma {:induction false} ArgumentsPrinted(symbols: Symbols, ts: seq<Token>, args: Args, i: nat, n: nat)
    requires args.Arg? && ProperArgs(symbols, args) && StandsAt(ts, i, PrintArgs(args))
             && n + ArgNodes(args) <= NODE_MAX
    requires TokenAt(ts, i + |PrintArgs(args)|) == RightParen && i + |PrintArgs(args)| <= |ts|
    ensures Parameters(symbols, ts, i, n) ==
              Parsed(ArgTrees(symbols, args, n), i + |PrintArgs(args)|, n + ArgNodes(args))
    ensures TokenAt(ts, i) != RightParen
    decreases args, 0
  {
    hide Assigned, Proper, ProperArgs, Print, PrintArgs, Nodes, ArgNodes, Tree, ArgTrees, TokenAt, StandsAt, IsLeaf;
    var e, others := args.e, args.others;
    ShapeOfArg(symbols, e, others, n);
    if others.Arg? {
      MiddleStands(ts, i, Print(e), Comma, PrintArgs(others));
      ArgumentsPrinted(symbols, ts, others, i + |Print(e)| + 1, n + Nodes(e));
    }
    AssignedPrinted(symbols, ts, e, i, n);
    FirstToken(symbols, e);
    FirstPrinted(ts, e, i);
    ParenIsNoLeaf(symbols);
  }

  lemma ParenIsNoLeaf(symbols: Symbols)
    ensures !IsLeaf(symbols, RightParen)
  {}

  /** Operands with prefix operators. */
  lemma {:induction false} UnaryPrinted(symbols: Symbols, ts: seq<Token>, e: Expr, i: nat, n: nat)
    requires Ready(symbols, ts, e, i, n) && Binds(e) >= 7 && Stops(TokenAt(ts, i + |Print(e)|), 7)
    ensures Unary(symbols, ts, i, n) == Whole(symbols, e, i, n)
    decreases e, 3
  {
    hide Unary, Print, Whole, Ready, Stops;
    match e
    case Plus(x) =>
      PrefixParts(symbols, ts, e, TAdd, x, i, n);
      UnaryPrinted(symbols, ts, x, i + 1, n);
      PrefixParsed(symbols, ts, e, TAdd, x, i, n);
    case Minus(x) =>
      PrefixParts(symbols, ts, e, TSub, x, i, n);
      UnaryPrinted(symbols, ts, x, i + 1, n);
      PrefixParsed(symbols, ts, e, TSub, x, i, n);
    case Prefix(t, x) =>
      PrefixParts(symbols, ts, e, t, x, i, n);
      UnaryPrinted(symbols, ts, x, i + 1, n);
      PrefixParsed(symbols, ts, e, t, x, i, n);
    case Leaf(t) => OperandPrinted(symbols, ts, e, i, n);
    case Post(t, x) => OperandPrinted(symbols, ts, e, i, n);
    case Call(x, args) => OperandPrinted(symbols, ts, e, i, n);
    case Binary(t, l, r) =>
  }

  /** `e` is the operator `t` in front of `x`. */
  predicate IsPrefix(e: Expr, t: Token, x: Expr) {
    (e == Plus(x) && t == TAdd) || (e == Minus(x) && t == TSub) || e == Prefix(t, x)
  }

  lemma PrefixParts(symbols: Symbols, ts: seq<Token>, e: Expr, t: Token, x: Expr, i: nat, n: nat)
    requires Ready(symbols, ts, e, i, n) && IsPrefix(e, t, x)
    ensures Ready(symbols, ts, x, i + 1, n) && Binds(x) >= 7 && TokenAt(ts, i) == t && i < |ts|
            && |Print(e)| == 1 + |Print(x)|
    ensures n + Nodes(e) <= NODE_MAX && (e == Prefix(t, x) ==> t in {TInc, TDec, TTilde, TMul, TAnd})
  {
    hide StandsAt, TokenAt, Print, Nodes, Tree, Proper, Binds;
    ShapeOfPlus(symbols, x, n);
    ShapeOfMinus(symbols, x, n);
    ShapeOfPrefix(symbols, t, x, n);
    FirstStands(ts, i, t, Print(x));
  }

  lemma PrefixParsed(symbols: Symbols, ts: seq<Token>, e: Expr, t: Token, x: Expr, i: nat, n: nat)
    requires IsPrefix(e, t, x) && TokenAt(ts, i) == t && i < |ts| && n + Nodes(e) <= NODE_MAX
    requires e == Prefix(t, x) ==> t in {TInc, TDec, TTilde, TMul, TAnd}
    requires Unary(symbols, ts, i + 1, n) == Whole(symbols, x, i + 1, n)
    ensures Unary(symbols, ts, i, n) == Whole(symbols, e, i, n)
  {
    hide Postfix, TokenAt, Print, Nodes, Tree, Proper;
    if e == Plus(x) { ShapeOfPlus(symbols, x, n); }
    else if e == Minus(x) { ShapeOfMinus(symbols, x, n); }
    else { ShapeOfPrefix(symbols, t, x, n); }
  }

  lemma LeafStarts(symbols: Symbols, t: Token)
    requires IsLeaf(symbols, t)
    ensures t !in {TAdd, TSub, TInc, TDec, TTilde, TMul, TAnd, LeftParen}
  {}

  lemma OperandPrinted(symbols: Symbols, ts: seq<Token>, e: Expr, i: nat, n: nat)
    requires Ready(symbols, ts, e, i, n) && Binds(e) >= 8 && Stops(TokenAt(ts, i + |Print(e)|), 7)
    ensures Unary(symbols, ts, i, n) == Whole(symbols, e, i, n)
    decreases e, 2
  {
    hide Postfix, IsLeaf, Print, Proper, Tree, Nodes, StandsAt, TokenAt;
    FirstToken(symbols, e);
    FirstPrinted(ts, e, i);
    LeafStarts(symbols, Print(e)[0]);
    PostfixPrinted(symbols, ts, e, i, n);
  }

  /** An expression at the level of a binary operator: parsing it, whatever follows, goes on with the loop of that
      level. */
  lemma {:induction false} LevelPrinted(symbols: Symbols, ts: seq<Token>, e: Expr, i: nat, n: nat, k: nat)
    requires Ready(symbols, ts, e, i, n) && 1 <= k <= 6 && Binds(e) >= k && Stops(TokenAt(ts, i + |Print(e)|), k + 1)
    ensures Level(symbols, ts, i, n, k) == LevelTail(symbols, ts, Whole(symbols, e, i, n), k)
    decreases e, 2 * (9 - k)
  {
    hide LevelTail, Proper, Unary, Tree, TokenAt, StandsAt, Print, Nodes, Stops;
    if Binds(e) == k {
      BinaryParts(symbols, ts, e, i, n);
      LevelPrinted(symbols, ts, e.l, i, n, k);
      TightPrinted(symbols, ts, e.r, i + |Print(e.l)| + 1, n + Nodes(e.l), k + 1);
      BinaryParsed(symbols, ts, e, i, n);
    } else {
      TightPrinted(symbols, ts, e, i, n, k + 1);
    }
  }

  lemma BinaryParts(symbols: Symbols, ts: seq<Token>, e: Expr, i: nat, n: nat)
    requires Ready(symbols, ts, e, i, n) && 1 <= Binds(e) <= 6
    ensures e.Binary? && Ready(symbols, ts, e.l, i, n) && Ready(symbols, ts, e.r, i + |Print(e.l)| + 1, n + Nodes(e.l))
    ensures TokenAt(ts, i + |Print(e.l)|) == e.t && TokenLevel(e.t) == Binds(e) && Binds(e.l) >= Binds(e)
            && Binds(e.r) > Binds(e)
    ensures Stops(e.t, Binds(e) + 1) && |Print(e)| == |Print(e.l)| + 1 + |Print(e.r)| && i + |Print(e.l)| < |ts|
  {
    hide StandsAt, TokenAt, Print, Nodes, Tree, Proper;
    ShapeOfBinary(symbols, e.t, e.l, e.r, n);
    MiddleStands(ts, i, Print(e.l), e.t, Print(e.r));
  }

  lemma BinaryParsed(symbols: Symbols, ts: seq<Token>, e: Expr, i: nat, n: nat)
    requires 1 <= Binds(e) <= 6 && e.Binary? && i + |Print(e.l)| <= |ts| && n + Nodes(e) <= NODE_MAX
    requires TokenAt(ts, i + |Print(e.l)|) == e.t && i + |Print(e)| <= |ts|
    requires Level(symbols, ts, i + |Print(e.l)| + 1, n + Nodes(e.l), Binds(e) + 1) ==
               Whole(symbols, e.r, i + |Print(e.l)| + 1, n + Nodes(e.l))
    ensures LevelTail(symbols, ts, Whole(symbols, e.l, i, n), Binds(e)) ==
              LevelTail(symbols, ts, Whole(symbols, e, i, n), Binds(e))
  {
    hide Level, Proper, Print, Nodes, Tree, TokenAt;
    ShapeOfBinary(symbols, e.t, e.l, e.r, n);
  }

  /** An expression followed by nothing that binds as tightly as `k`. */
  lemma {:induction false} TightPrinted(symbols: Symbols, ts: seq<Token>, e: Expr, i: nat, n: nat, k: nat)
    requires Ready(symbols, ts, e, i, n) && 1 <= k <= 7 && Binds(e) >= k && Stops(TokenAt(ts, i + |Print(e)|), k)
    ensures Level(symbols, ts, i, n, k) == Whole(symbols, e, i, n)
    decreases e, 2 * (9 - k) + 1
  {
    hide Unary, Proper, Tree, TokenAt, StandsAt, Print, Nodes;
    if k == 7 {
      UnaryPrinted(symbols, ts, e, i, n);
    } else {
      LevelPrinted(symbols, ts, e, i, n, k);
    }
  }

  /** The parser inverts the printer: every proper expression that fits the node table, followed by a token that cannot
      continue it, is parsed to its own tree. */
  lemma {:induction false} AssignedPrinted(symbols: Symbols, ts: seq<Token>, e: Expr, i: nat, n: nat)
    requires Ready(symbols, ts, e, i, n) && Stops(TokenAt(ts, i + |Print(e)|), 0)
    ensures Assigned(symbols, ts, i, n) == Whole(symbols, e, i, n)
    decreases e, 20
  {
    hide Level, TokenAt, StandsAt, TokenLevel, Print, Nodes, Tree, Proper;
    if e.Assignment? {
      ShapeOfAssignment(symbols, e.l, e.r, n);
      MiddleStands(ts, i, Print(e.l), TAssign, Print(e.r));
      NotAnOperator();
      TightPrinted(symbols, ts, e.l, i, n, 1);
      AssignedPrinted(symbols, ts, e.r, i + |Print(e.l)| + 1, n + Nodes(e.l));
    } else {
      BindsOperator(symbols, e);
      TightPrinted(symbols, ts, e, i, n, 1);
    }
  }

  lemma NotAnOperator()
    ensures TokenLevel(TAssign) == 0 && TokenLevel(Comma) == 0 && TokenLevel(RightParen) == 0
            && TokenLevel(Semicolon) == 0
  {}

  lemma BindsOperator(symbols: Symbols, e: Expr)
    requires Proper(symbols, e) && !e.Assignment?
    ensures Binds(e) >= 1
  {}

  // ---- Everything accepted was printed ----

  lemma StandsJoined(ts: seq<Token>, i: nat, a: seq<Token>, b: seq<Token>)
    requires StandsAt(ts, i, a) && StandsAt(ts, i + |a|, b)
    ensures StandsAt(ts, i, a + b)
  {
    forall d | 0 <= d < |a + b|
      ensures TokenAt(ts, i + d) == (a + b)[d]
    {
      if d >= |a| { assert TokenAt(ts, i + |a| + (d - |a|)) == b[d - |a|]; }
    }
  }

  lemma StandsOne(ts: seq<Token>, i: nat, t: Token)
    requires TokenAt(ts, i) == t && t != Eof
    ensures StandsAt(ts, i, [t]) && i < |ts|
  {}

  lemma StandsAround(ts: seq<Token>, i: nat, a: seq<Token>, t: Token, b: seq<Token>)
    requires StandsAt(ts, i, a) && TokenAt(ts, i + |a|) == t && t != Eof && StandsAt(ts, i + |a| + 1, b)
    ensures StandsAt(ts, i, a + ([t] + b))
  {
    hide StandsAt, TokenAt;
    StandsOne(ts, i + |a|, t);
    StandsJoined(ts, i + |a|, [t], b);
    StandsJoined(ts, i, a, [t] + b);
  }

  /** The outcome is that of a proper expression, whose printed form stands at `i`. */
  ghost predicate Accounts(symbols: Symbols, ts: seq<Token>, r: Outcome, e: Expr, i: nat, n: nat) {
    Proper(symbols, e) && StandsAt(ts, i, Print(e)) && r == Whole(symbols, e, i, n)
  }

  lemma PrimaryAccepts(symbols: Symbols, ts: seq<Token>, i: nat, n: nat) returns (e: Expr)
    requires Primary(symbols, ts, i, n).Parsed?
    ensures Accounts(symbols, ts, Primary(symbols, ts, i, n), e, i, n) && Binds(e) == 8
  {
    e := Leaf(TokenAt(ts, i));
    StandsOne(ts, i, TokenAt(ts, i));
  }

  lemma {:induction false} PostfixAccepts(symbols: Symbols, ts: seq<Token>, i: nat, n: nat) returns (e: Expr)
    requires Postfix(symbols, ts, i, n).Parsed?
    ensures Accounts(symbols, ts, Postfix(symbols, ts, i, n), e, i, n) && Binds(e) == 8
    decreases |ts| - i, 2
  {
    hide Primary, Accounts, PostfixTail;
    var first := PrimaryAccepts(symbols, ts, i, n);
    e := PostfixTailAccepts(symbols, ts, Primary(symbols, ts, i, n), first, i, n);
  }

  lemma {:induction false} PostfixTailAccepts(symbols: Symbols, ts: seq<Token>, left: Outcome, l: Expr, i: nat,
                                              n: nat) returns (e: Expr)
    requires left.Parsed? && i < left.next <= |ts| && left.used <= NODE_MAX && left.tree.Cons? && left.tree.rest.Nil?
    requires Accounts(symbols, ts, left, l, i, n) && Binds(l) == 8 && PostfixTail(symbols, ts, left).Parsed?
    ensures Accounts(symbols, ts, PostfixTail(symbols, ts, left), e, i, n) && Binds(e) == 8
    decreases |ts| - left.next, 1
  {
    hide Accounts, Arguments;
    var t := TokenAt(ts, left.next);
    if t == TInc || t == TDec {
      var node := Made(Plain(if t == TInc then Inc else Dec), left.tree, left.next + 1, left.used);
      PostAccounts(symbols, ts, left, l, i, n);
      e := PostfixTailAccepts(symbols, ts, node, Post(t, l), i, n);
    } else if t == LeftParen {
      var called := ArgumentsAccept(symbols, ts, left, l, i, n);
      e := PostfixTailAccepts(symbols, ts, Arguments(symbols, ts, left), called, i, n);
    } else {
      e := l;
    }
  }

  lemma PostAccounts(symbols: Symbols, ts: seq<Token>, left: Outcome, l: Expr, i: nat, n: nat)
    requires left.Parsed? && Accounts(symbols, ts, left, l, i, n) && Binds(l) == 8
             && TokenAt(ts, left.next) in {TInc, TDec}
    requires left.used < NODE_MAX
    ensures var t := TokenAt(ts, left.next);
            Accounts(symbols, ts, Made(Plain(if t == TInc then Inc else Dec), left.tree, left.next + 1, left.used),
                Post(t, l), i, n)
  {
    hide StandsAt, TokenAt, Print, Nodes, Tree, Proper;
    var t := TokenAt(ts, left.next);
    ShapeOfPost(symbols, t, l, n);
    StandsOne(ts, left.next, t);
    StandsJoined(ts, i, Print(l), [t]);
  }

  lemma ArgumentsAccept(symbols: Symbols, ts: seq<Token>, left: Outcome, l: Expr, i: nat, n: nat) returns (e: Expr)
    requires left.Parsed? && left.next < |ts| && left.used <= NODE_MAX && left.tree.Cons? && left.tree.rest.Nil?
    requires Accounts(symbols, ts, left, l, i, n) && Binds(l) == 8 && TokenAt(ts, left.next) == LeftParen
    requires Arguments(symbols, ts, left).Parsed?
    ensures Accounts(symbols, ts, Arguments(symbols, ts, left), e, i, n) && Binds(e) == 8
    decreases |ts| - left.next, 0
  {
    hide Parameters, Accounts, TokenAt, StandsAt;
    var args := NoArgs;
    if TokenAt(ts, left.next + 1) != RightParen {
      args := ParametersAccept(symbols, ts, left.next + 1, left.used);
    }
    e := Call(l, args);
    CallAccounts(symbols, ts, left, l, args, i, n);
  }

  /** What reading the arguments found. */
  ghost predicate Holds(symbols: Symbols, ts: seq<Token>, args: Args, i: nat, n: nat) {
    args.Arg? ==> StandsAt(ts, i, PrintArgs(args)) && ProperArgs(symbols, args)
                  && Parameters(symbols, ts, i, n) ==
                     Parsed(ArgTrees(symbols, args, n), i + |PrintArgs(args)|, n + ArgNodes(args))
  }

  lemma CallAccounts(symbols: Symbols, ts: seq<Token>, left: Outcome, l: Expr, args: Args, i: nat, n: nat)
    requires left.Parsed? && left.next < |ts| && left.used <= NODE_MAX && left.tree.Cons? && left.tree.rest.Nil?
    requires Accounts(symbols, ts, left, l, i, n) && Binds(l) == 8 && TokenAt(ts, left.next) == LeftParen
    requires Arguments(symbols, ts, left).Parsed? && Holds(symbols, ts, args, left.next + 1, left.used)
    requires args.NoArgs? <==> TokenAt(ts, left.next + 1) == RightParen
    ensures Accounts(symbols, ts, Arguments(symbols, ts, left), Call(l, args), i, n)
  {
    hide StandsAt, TokenAt, Print, PrintArgs, Nodes, ArgNodes, Tree, ArgTrees, Proper, ProperArgs, Parameters;
    ShapeOfCall(symbols, l, args, n);
    CallStands(ts, left.next, Print(l), PrintArgs(args), i);
  }

  lemma CallStands(ts: seq<Token>, open: nat, front: seq<Token>, args: seq<Token>, i: nat)
    requires StandsAt(ts, i, front) && open == i + |front| && TokenAt(ts, open) == LeftParen
             && (args == [] || StandsAt(ts, open + 1, args))
    requires TokenAt(ts, open + 1 + |args|) == RightParen
    ensures StandsAt(ts, i, front + ([LeftParen] + (args + [RightParen])))
  {
    StandsOne(ts, open + 1 + |args|, RightParen);
    assert StandsAt(ts, open + 1, args);
    hide StandsAt, TokenAt;
    StandsJoined(ts, open + 1, args, [RightParen]);
    StandsAround(ts, i, front, LeftParen, args + [RightParen]);
  }

  lemma {:induction false} ParametersAccept(symbols: Symbols, ts: seq<Token>, i: nat, n: nat) returns (args: Args)
    requires Parameters(symbols, ts, i, n).Parsed?
    ensures args.Arg? && Holds(symbols, ts, args, i, n)
    decreases |ts| - i, 13
  {
    hide Assigned, StandsAt, Proper, TokenAt, Print, PrintArgs, Nodes, ArgNodes, Tree, ArgTrees, ProperArgs;
    var e := AssignedAccepts(symbols, ts, i, n);
    var first := Assigned(symbols, ts, i, n);
    var others := NoArgs;
    if TokenAt(ts, first.next) == Comma {
      others := ParametersAccept(symbols, ts, first.next + 1, first.used);
      StandsAround(ts, i, Print(e), Comma, PrintArgs(others));
    }
    args := Arg(e, others);
    ShapeOfArg(symbols, e, others, n);
    NoneProper(symbols);
  }

  lemma NoneProper(symbols: Symbols)
    ensures ProperArgs(symbols, NoArgs)
  {}

  lemma PrefixAccounts(symbols: Symbols, ts: seq<Token>, inner: Outcome, e: Expr, t: Token, x: Expr, i: nat, n: nat)
    requires inner.Parsed? && Accounts(symbols, ts, inner, x, i + 1, n) && Binds(x) >= 7 && IsPrefix(e, t, x)
    requires TokenAt(ts, i) == t && i < |ts| && (e == Prefix(t, x) ==> t in {TInc, TDec, TTilde, TMul, TAnd})
    requires n + Nodes(e) <= NODE_MAX && inner == Unary(symbols, ts, i + 1, n)
    ensures Accounts(symbols, ts, Unary(symbols, ts, i, n), e, i, n)
  {
    hide StandsAt, TokenAt, Print, Nodes, Tree, Proper, Unary, Whole;
    PrefixParsed(symbols, ts, e, t, x, i, n);
    ShapeOfPlus(symbols, x, n);
    ShapeOfMinus(symbols, x, n);
    ShapeOfPrefix(symbols, t, x, n);
    RealToken(ts, i);
    StandsOne(ts, i, t);
    StandsJoined(ts, i, [t], Print(x));
  }

  lemma RealToken(ts: seq<Token>, i: nat)
    ensures TokenAt(ts, i) in {TAdd, TSub, TInc, TDec, TTilde, TMul, TAnd} ==> TokenAt(ts, i) != Eof
  {}

  lemma {:induction false} UnaryAccepts(symbols: Symbols, ts: seq<Token>, i: nat, n: nat) returns (e: Expr)
    requires Unary(symbols, ts, i, n).Parsed?
    ensures Accounts(symbols, ts, Unary(symbols, ts, i, n), e, i, n) && Binds(e) >= 7
    decreases |ts| - i, 3
  {
    hide Postfix, Accounts;
    var t := TokenAt(ts, i);
    if t in {TAdd, TSub, TInc, TDec, TTilde, TMul, TAnd} {
      var x := UnaryAccepts(symbols, ts, i + 1, n);
      e := if t == TAdd then Plus(x) else if t == TSub then Minus(x) else Prefix(t, x);
      AccountedNodes(symbols, ts, Unary(symbols, ts, i + 1, n), x, i + 1, n);
      PrefixAccounts(symbols, ts, Unary(symbols, ts, i + 1, n), e, t, x, i, n);
    } else {
      e := PostfixAccepts(symbols, ts, i, n);
    }
  }

  lemma AccountedNodes(symbols: Symbols, ts: seq<Token>, r: Outcome, e: Expr, i: nat, n: nat)
    requires r.Parsed? && Accounts(symbols, ts, r, e, i, n)
    ensures r.used == n + Nodes(e)
  {}

  lemma {:induction false} LevelAccepts(symbols: Symbols, ts: seq<Token>, i: nat, n: nat, k: nat) returns (e: Expr)
    requires 1 <= k <= 7 && Level(symbols, ts, i, n, k).Parsed?
    ensures Accounts(symbols, ts, Level(symbols, ts, i, n, k), e, i, n) && Binds(e) >= k
    decreases |ts| - i, 11 - k
  {
    hide Unary, Accounts, LevelTail;
    if k == 7 {
      e := UnaryAccepts(symbols, ts, i, n);
    } else {
      var first := LevelAccepts(symbols, ts, i, n, k + 1);
      e := LevelTailAccepts(symbols, ts, Level(symbols, ts, i, n, k + 1), first, i, n, k);
    }
  }

  lemma {:induction false} LevelTailAccepts(symbols: Symbols, ts: seq<Token>, left: Outcome, l: Expr, i: nat, n: nat,
                                            k: nat) returns (e: Expr)
    requires 1 <= k <= 6 && left.Parsed? && i < left.next <= |ts| && left.used <= NODE_MAX && left.tree.Cons?
             && left.tree.rest.Nil?
    requires Accounts(symbols, ts, left, l, i, n) && Binds(l) >= k && LevelTail(symbols, ts, left, k).Parsed?
    ensures Accounts(symbols, ts, LevelTail(symbols, ts, left, k), e, i, n) && Binds(e) >= k
    decreases |ts| - left.next, 0
  {
    hide Accounts, Level;
    var t := TokenAt(ts, left.next);
    if TokenLevel(t) == k {
      var right := Level(symbols, ts, left.next + 1, left.used, k + 1);
      var r := LevelAccepts(symbols, ts, left.next + 1, left.used, k + 1);
      var node := Made(Plain(Bin(TokenOp(t))), Beside(left.tree, right.tree), right.next, right.used);
      BinaryAccounts(symbols, ts, left, l, right, r, i, n);
      e := LevelTailAccepts(symbols, ts, node, Binary(t, l, r), i, n, k);
    } else {
      e := l;
    }
  }

  lemma BinaryAccounts(symbols: Symbols, ts: seq<Token>, left: Outcome, l: Expr, right: Outcome, r: Expr, i: nat,
                       n: nat)
    requires left.Parsed? && Accounts(symbols, ts, left, l, i, n) && right.Parsed?
             && Accounts(symbols, ts, right, r, left.next + 1, left.used)
    requires TokenLevel(TokenAt(ts, left.next)) >= 1 && right.used < NODE_MAX
    requires Binds(l) >= TokenLevel(TokenAt(ts, left.next)) && Binds(r) > TokenLevel(TokenAt(ts, left.next))
    ensures var t := TokenAt(ts, left.next);
            Accounts(symbols, ts, Made(Plain(Bin(TokenOp(t))), Beside(left.tree, right.tree), right.next, right.used),
                Binary(t, l, r), i, n)
  {
    hide StandsAt, TokenAt, Print, Nodes, Tree, Proper, TokenLevel, Binds;
    var t := TokenAt(ts, left.next);
    ShapeOfBinary(symbols, t, l, r, n);
    EofBindsNothing();
    StandsAround(ts, i, Print(l), t, Print(r));
  }

  lemma EofBindsNothing()
    ensures TokenLevel(Eof) == 0
  {}

  lemma AssignmentAccounts(symbols: Symbols, ts: seq<Token>, left: Outcome, l: Expr, right: Outcome, r: Expr, i: nat,
                           n: nat)
    requires left.Parsed? && Accounts(symbols, ts, left, l, i, n) && right.Parsed?
             && Accounts(symbols, ts, right, r, left.next + 1, left.used)
    requires TokenAt(ts, left.next) == TAssign && right.used < NODE_MAX && Binds(l) >= 1
    ensures Accounts(symbols, ts, Made(Plain(Assign), Beside(left.tree, right.tree), right.next, right.used),
            Assignment(l, r), i, n)
  {
    hide StandsAt, TokenAt, Print, Nodes, Tree, Proper, Binds;
    ShapeOfAssignment(symbols, l, r, n);
    StandsAround(ts, i, Print(l), TAssign, Print(r));
  }

  /** Whatever the parser accepts is the printed form of a proper expression, and its tree is that expression's. */
  lemma {:induction false} AssignedAccepts(symbols: Symbols, ts: seq<Token>, i: nat, n: nat) returns (e: Expr)
    requires Assigned(symbols, ts, i, n).Parsed?
    ensures Accounts(symbols, ts, Assigned(symbols, ts, i, n), e, i, n)
    decreases |ts| - i, 12
  {
    hide Level, Accounts, TokenAt;
    var l := LevelAccepts(symbols, ts, i, n, 1);
    var left := Level(symbols, ts, i, n, 1);
    if TokenAt(ts, left.next) == TAssign {
      var r := AssignedAccepts(symbols, ts, left.next + 1, left.used);
      e := Assignment(l, r);
      AssignmentAccounts(symbols, ts, left, l, Assigned(symbols, ts, left.next + 1, left.used), r, i, n);
    } else {
      e := l;
    }
  }

  // ---- Lines of statements ----

  /** Statements up to the end of the line, each closed by a semicolon. Declarations and empty statements are not
      modelled: they count as failures here. */
  function Statements(symbols: Symbols, ts: seq<Token>, i: nat, n: nat): (r: Outcome)
    requires i <= |ts|
    ensures r.Parsed? && n <= NODE_MAX ==> i <= r.next <= |ts| && n <= r.used <= NODE_MAX
    decreases |ts| - i
  {
    if TokenAt(ts, i) in {Eof, BadToken} then Parsed(Nil, i, n)
    else
      var one := Assigned(symbols, ts, i, n);
      if one.Failed? || TokenAt(ts, one.next) != Semicolon then Failed
      else
        var others := Statements(symbols, ts, one.next + 1, one.used);
        if others.Failed? then Failed else Parsed(Beside(one.tree, others.tree), others.next, others.used)
  }

  function PrintLine(es: seq<Expr>): seq<Token> {
    if es == [] then [] else Print(es[0]) + ([Semicolon] + PrintLine(es[1..]))
  }

  function LineNodes(es: seq<Expr>): nat {
    if es == [] then 0 else Nodes(es[0]) + LineNodes(es[1..])
  }

  function LineTrees(symbols: Symbols, es: seq<Expr>, n: nat): Forest {
    if es == [] then Nil else Beside(Tree(symbols, es[0], n), LineTrees(symbols, es[1..], n + Nodes(es[0])))
  }

  ghost predicate ProperLine(symbols: Symbols, es: seq<Expr>) { forall i :: 0 <= i < |es| ==> Proper(symbols, es[i]) }

  /** A printed line is parsed to the list of its trees. */
  lemma {:induction false} LinePrinted(symbols: Symbols, ts: seq<Token>, es: seq<Expr>, i: nat, n: nat)
    requires ProperLine(symbols, es) && StandsAt(ts, i, PrintLine(es)) && i + |PrintLine(es)| == |ts|
             && n + LineNodes(es) <= NODE_MAX
    ensures Statements(symbols, ts, i, n) == Parsed(LineTrees(symbols, es, n), |ts|, n + LineNodes(es))
    decreases |es|
  {
    hide Assigned, TokenAt, StandsAt, Print, Nodes, Tree, Proper;
    if es == [] {
      assert TokenAt(ts, i) == Eof by { EndOfTokens(ts); }
    } else {
      var e := es[0];
      MiddleStands(ts, i, Print(e), Semicolon, PrintLine(es[1..]));
      NotAnOperator();
      AssignedPrinted(symbols, ts, e, i, n);
      FirstToken(symbols, e);
      FirstPrinted(ts, e, i);
      NoEndAtStart(symbols, Print(e)[0]);
      LinePrinted(symbols, ts, es[1..], i + |Print(e)| + 1, n + Nodes(e));
    }
  }

  lemma EndOfTokens(ts: seq<Token>)
    ensures TokenAt(ts, |ts|) == Eof
  {}

  lemma NoEndAtStart(symbols: Symbols, t: Token)
    requires t in {TAdd, TSub, TInc, TDec, TTilde, TMul, TAnd} || IsLeaf(symbols, t)
    ensures t !in {Eof, BadToken, Semicolon, TypeName}
  {}
}
