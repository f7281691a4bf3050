/**
 How the operators of a line are grouped: for operands and binary operators in a row the parser builds the tree whose
 root is the last of the loosest operators, with C's tiers of precedence.
 */
module FinshPrecedence {
  import opened FinshTree
  import opened FinshParser

  /** The binary operators from the loosest to the tightest. */
  const TIERS: seq<set<Token>> := [{TOr}, {TXor}, {TAnd}, {TShl, TShr}, {TAdd, TSub}, {TMul, TDiv, TMod}]

  predicate InTier(t: Token, k: nat) { k < |TIERS| && t in TIERS[k] }

  ghost predicate IsOperator(t: Token) { exists k :: InTier(t, k) }

  /** `t` binds at least as tightly as `u`. */
  ghost predicate AsTight(t: Token, u: Token) { exists j, k :: InTier(t, j) && InTier(u, k) && j >= k }

  /** The parser's levels are these tiers. */
  lemma TierIsLevel(t: Token, k: nat)
    ensures InTier(t, k) <==> TokenLevel(t) == k + 1
  {}

  lemma AsTightIsLevel(t: Token, u: Token)
    requires IsOperator(t) && IsOperator(u)
    ensures AsTight(t, u) <==> TokenLevel(t) >= TokenLevel(u)
    ensures TokenLevel(t) >= 1 && TokenLevel(u) >= 1
  {
    var j :| InTier(t, j);
    var k :| InTier(u, k);
    TierIsLevel(t, j);
    TierIsLevel(u, k);
    assert TokenLevel(t) >= TokenLevel(u) ==> InTier(t, j) && InTier(u, k) && j >= k;
    if AsTight(t, u) {
      var j', k' :| InTier(t, j') && InTier(u, k') && j' >= k';
      TierIsLevel(t, j');
      TierIsLevel(u, k');
    }
  }

  /** An expression that is no binary operation and no assignment. */
  ghost predicate IsOperand(symbols: Symbols, e: Expr) { Proper(symbols, e) && !e.Binary? && !e.Assignment? }

  /** Operands with one operator between each two. */
  ghost predicate IsRow(symbols: Symbols, xs: seq<Expr>, ops: seq<Token>) {
    |xs| == |ops| + 1
    && (forall i :: 0 <= i < |xs| ==> IsOperand(symbols, xs[i]))
    && forall i :: 0 <= i < |ops| ==> IsOperator(ops[i])
  }

  /** A row as it is written. */
  function Written(xs: seq<Expr>, ops: seq<Token>): seq<Token>
    requires |xs| == |ops| + 1
  {
    if ops == [] then Print(xs[0]) else Print(xs[0]) + ([ops[0]] + Written(xs[1..], ops[1..]))
  }

  /** Operator `j` of a row is applied last: none is looser, and those behind it are tighter. */
  ghost predicate AppliedLast(ops: seq<Token>, j: nat) {
    && j < |ops|
    && (forall i :: 0 <= i < |ops| ==> AsTight(ops[i], ops[j]))
    && forall i :: j < i < |ops| ==> !AsTight(ops[j], ops[i])
  }

  /** `e` groups the row: the operator applied last is its root, and both sides are grouped in the same way. */
  ghost predicate Groups(e: Expr, xs: seq<Expr>, ops: seq<Token>)
    requires |xs| == |ops| + 1
    decreases |ops|
  {
    if ops == [] then e == xs[0]
    else
      exists j: nat :: Splits(e, ops, j) && Groups(e.l, xs[..j + 1], ops[..j]) && Groups(e.r, xs[j + 1..], ops[j + 1..])
  }

  ghost predicate Splits(e: Expr, ops: seq<Token>, j: nat) {
    j < |ops| && AppliedLast(ops, j) && e.Binary? && e.t == ops[j]
  }

  // ---- Every row has such a grouping ----

  /** The last of the loosest operators. */
  function Last(ops: seq<Token>): (j: nat)
    requires ops != []
    ensures j < |ops|
    ensures forall i :: 0 <= i < |ops| ==> TokenLevel(ops[i]) >= TokenLevel(ops[j])
    ensures forall i :: j < i < |ops| ==> TokenLevel(ops[i]) > TokenLevel(ops[j])
  {
    if |ops| == 1 then 0
    else
      var j := Last(ops[1..]) + 1;
      assert forall i :: 1 <= i < |ops| ==> ops[i] == ops[1..][i - 1];
      if TokenLevel(ops[0]) < TokenLevel(ops[j]) then 0 else j
  }

  function Grouped(xs: seq<Expr>, ops: seq<Token>): Expr
    requires |xs| == |ops| + 1
    decreases |ops|
  {
    if ops == [] then xs[0]
    else
      var j := Last(ops);
      Expr.Binary(ops[j], Grouped(xs[..j + 1], ops[..j]), Grouped(xs[j + 1..], ops[j + 1..]))
  }

  lemma GroupedStep(xs: seq<Expr>, ops: seq<Token>)
    requires |xs| == |ops| + 1 && ops != []
    ensures var j := Last(ops); var l, r := Grouped(xs[..j + 1], ops[..j]), Grouped(xs[j + 1..], ops[j + 1..]);
            Grouped(xs, ops) == Expr.Binary(ops[j], l, r) && Print(Grouped(xs, ops)) == Print(l) + ([ops[j]] + Print(r))
  {
    hide Last;
  }

  lemma BinaryIsProper(symbols: Symbols, t: Token, l: Expr, r: Expr)
    requires Proper(symbols, l) && Proper(symbols, r) && TokenLevel(t) >= 1 && Binds(l) >= TokenLevel(t)
    requires Binds(r) > TokenLevel(t)
    ensures Proper(symbols, Expr.Binary(t, l, r)) && Binds(Expr.Binary(t, l, r)) == TokenLevel(t)
  {
    hide TokenLevel;
  }

  lemma LastIsApplied(ops: seq<Token>)
    requires ops != [] && forall i :: 0 <= i < |ops| ==> IsOperator(ops[i])
    ensures AppliedLast(ops, Last(ops))
  {
    hide AsTight, IsOperator;
    var j := Last(ops);
    forall i | 0 <= i < |ops|
      ensures AsTight(ops[i], ops[j]) && (i > j ==> !AsTight(ops[j], ops[i]))
    {
      AsTightIsLevel(ops[i], ops[j]);
      AsTightIsLevel(ops[j], ops[i]);
    }
  }

  lemma RowLength(symbols: Symbols, xs: seq<Expr>, ops: seq<Token>)
    requires IsRow(symbols, xs, ops)
    ensures |xs| == |ops| + 1
  {}

  lemma RowOperators(symbols: Symbols, xs: seq<Expr>, ops: seq<Token>)
    requires IsRow(symbols, xs, ops)
    ensures forall i :: 0 <= i < |ops| ==> IsOperator(ops[i])
  {}

  lemma RowParts(symbols: Symbols, xs: seq<Expr>, ops: seq<Token>, j: nat)
    requires IsRow(symbols, xs, ops) && j < |ops|
    ensures IsRow(symbols, xs[..j + 1], ops[..j]) && IsRow(symbols, xs[j + 1..], ops[j + 1..])
  {}

  lemma {:induction false} GroupedGroups(symbols: Symbols, xs: seq<Expr>, ops: seq<Token>)
    requires IsRow(symbols, xs, ops)
    ensures Groups(Grouped(xs, ops), xs, ops)
    decreases |ops|
  {
    hide AppliedLast, IsRow, Grouped, Print;
    assert |xs| == |ops| + 1 by { RowLength(symbols, xs, ops); }
    if ops == [] {
      OneGrouped(xs);
    } else {
      var j := Last(ops);
      GroupedStep(xs, ops);
      RowOperators(symbols, xs, ops);
      LastIsApplied(ops);
      RowParts(symbols, xs, ops, j);
      GroupedGroups(symbols, xs[..j + 1], ops[..j]);
      GroupedGroups(symbols, xs[j + 1..], ops[j + 1..]);
      assert Splits(Grouped(xs, ops), ops, j);
    }
  }

  lemma RootOf(e: Expr, xs: seq<Expr>, ops: seq<Token>) returns (j: nat)
    requires |xs| == |ops| + 1 && ops != [] && Groups(e, xs, ops)
    ensures Splits(e, ops, j) && Groups(e.l, xs[..j + 1], ops[..j]) && Groups(e.r, xs[j + 1..], ops[j + 1..])
  {
    hide AppliedLast;
    j :| Splits(e, ops, j) && Groups(e.l, xs[..j + 1], ops[..j]) && Groups(e.r, xs[j + 1..], ops[j + 1..]);
  }

  lemma NothingToGroup(e: Expr, xs: seq<Expr>)
    requires |xs| == 1 && Groups(e, xs, [])
    ensures e == xs[0]
  {}

  /** ... and only one. */
  lemma {:induction false} GroupsOnce(symbols: Symbols, e: Expr, xs: seq<Expr>, ops: seq<Token>)
    requires IsRow(symbols, xs, ops) && |xs| == |ops| + 1 && Groups(e, xs, ops)
    ensures e == Grouped(xs, ops)
    decreases |ops|
  {
    hide IsRow, AppliedLast, Grouped, Print, Groups;
    assert |xs| == |ops| + 1 by { RowLength(symbols, xs, ops); }
    if ops == [] {
      OneGrouped(xs);
      assert e == xs[0] by { NothingToGroup(e, xs); }
    } else {
      GroupedStep(xs, ops);
      var j := RootOf(e, xs, ops);
      RowOperators(symbols, xs, ops);
      LastIsApplied(ops);
      OneIsLast(ops, j, Last(ops));
      RowParts(symbols, xs, ops, j);
      GroupsOnce(symbols, e.l, xs[..j + 1], ops[..j]);
      GroupsOnce(symbols, e.r, xs[j + 1..], ops[j + 1..]);
    }
  }

  lemma OneIsLast(ops: seq<Token>, j: nat, k: nat)
    requires AppliedLast(ops, j) && AppliedLast(ops, k)
    ensures j == k
  {
    hide AsTight;
    var s, t := ops[j], ops[k];
    assert AsTight(s, t) && AsTight(t, s);
    assert j < k ==> !AsTight(s, t);
    assert k < j ==> !AsTight(t, s);
  }

  // ---- It is written as the row, and proper ----

  lemma {:induction false} WrittenSplit(xs: seq<Expr>, ops: seq<Token>, j: nat)
    requires |xs| == |ops| + 1 && j < |ops|
    ensures Written(xs, ops) == Written(xs[..j + 1], ops[..j]) + ([ops[j]] + Written(xs[j + 1..], ops[j + 1..]))
    decreases j
  {
    if j > 0 {
      WrittenSplit(xs[1..], ops[1..], j - 1);
      assert xs[..j + 1][1..] == xs[1..][..j] && ops[..j][1..] == ops[1..][..j - 1];
      assert xs[1..][j..] == xs[j + 1..] && ops[1..][j..] == ops[j + 1..];
      var a, b := Written(xs[1..][..j], ops[1..][..j - 1]), [ops[j]] + Written(xs[j + 1..], ops[j + 1..]);
      assert Print(xs[0]) + ([ops[0]] + (a + b)) == (Print(xs[0]) + ([ops[0]] + a)) + b;
    }
  }

  lemma {:induction false} GroupedPrints(xs: seq<Expr>, ops: seq<Token>)
    requires |xs| == |ops| + 1
    ensures Print(Grouped(xs, ops)) == Written(xs, ops)
    decreases |ops|
  {
    hide Grouped, Print, Last;
    if ops == [] {
      OneGrouped(xs);
    } else {
      hide Written;
      var j := Last(ops);
      GroupedStep(xs, ops);
      GroupedPrints(xs[..j + 1], ops[..j]);
      GroupedPrints(xs[j + 1..], ops[j + 1..]);
      WrittenSplit(xs, ops, j);
    }
  }

  lemma OneGrouped(xs: seq<Expr>)
    requires |xs| == 1
    ensures Grouped(xs, []) == xs[0]
  {}

  lemma {:induction false} GroupedProper(symbols: Symbols, xs: seq<Expr>, ops: seq<Token>)
    requires IsRow(symbols, xs, ops) && |xs| == |ops| + 1
    ensures Proper(symbols, Grouped(xs, ops))
    ensures Binds(Grouped(xs, ops)) >= 1
    ensures ops != [] ==> Binds(Grouped(xs, ops)) == TokenLevel(ops[Last(ops)])
    ensures ops == [] ==> Binds(Grouped(xs, ops)) >= 7
    decreases |ops|
  {
    hide IsRow, TokenLevel, Grouped, Proper, Binds, Print, Last;
    if ops == [] {
      OneGrouped(xs);
      assert IsOperand(symbols, xs[0]) by { OnlyOperand(symbols, xs); }
      OperandBinds(symbols, xs[0]);
    } else {
      var j := Last(ops);
      RowParts(symbols, xs, ops, j);
      GroupedProper(symbols, xs[..j + 1], ops[..j]);
      GroupedProper(symbols, xs[j + 1..], ops[j + 1..]);
      LastInParts(ops);
      RowOperators(symbols, xs, ops);
      AsTightIsLevel(ops[j], ops[j]);
      LevelBound(ops[j]);
      GroupedStep(xs, ops);
      BinaryIsProper(symbols, ops[j], Grouped(xs[..j + 1], ops[..j]), Grouped(xs[j + 1..], ops[j + 1..]));
    }
  }

  /** On both sides of the last of the loosest operators. */
  lemma LastInParts(ops: seq<Token>)
    requires ops != []
    ensures var j := Last(ops);
            && (ops[..j] != [] ==> TokenLevel(ops[..j][Last(ops[..j])]) >= TokenLevel(ops[j]))
            && (ops[j + 1..] != [] ==> TokenLevel(ops[j + 1..][Last(ops[j + 1..])]) > TokenLevel(ops[j]))
  {
    hide TokenLevel;
    var j := Last(ops);
    if j > 0 { assert ops[..j][Last(ops[..j])] == ops[Last(ops[..j])]; }
    if ops[j + 1..] != [] { assert ops[j + 1..][Last(ops[j + 1..])] == ops[j + 1 + Last(ops[j + 1..])]; }
  }

  lemma LevelBound(t: Token)
    ensures TokenLevel(t) <= 6
  {}

  lemma OnlyOperand(symbols: Symbols, xs: seq<Expr>)
    requires IsRow(symbols, xs, [])
    ensures IsOperand(symbols, xs[0])
  {}

  lemma OperandBinds(symbols: Symbols, e: Expr)
    requires IsOperand(symbols, e)
    ensures Binds(e) >= 7 && Proper(symbols, e)
  {}

  lemma EndStops(t: Token)
    requires t in {Semicolon, Comma, RightParen, Eof}
    ensures Stops(t, 0)
  {}

  /** Any row of operands and operators, in front of a token that ends an expression, is parsed to the one tree that
      groups it. */
  lemma RowIsGrouped(symbols: Symbols, ts: seq<Token>, xs: seq<Expr>, ops: seq<Token>, e: Expr, i: nat, n: nat)
    requires IsRow(symbols, xs, ops) && |xs| == |ops| + 1 && Groups(e, xs, ops)
    requires StandsAt(ts, i, Written(xs, ops)) && n + Nodes(e) <= NODE_MAX
    requires TokenAt(ts, i + |Written(xs, ops)|) in {Semicolon, Comma, RightParen, Eof}
    ensures Assigned(symbols, ts, i, n) == Parsed(Tree(symbols, e, n), i + |Written(xs, ops)|, n + Nodes(e))
  {
    hide Assigned, Tree, Written, Groups, IsRow, Proper, Grouped, Nodes, Print;
    assert |xs| == |ops| + 1 by { RowLength(symbols, xs, ops); }
    GroupsOnce(symbols, e, xs, ops);
    GroupedPrints(xs, ops);
    GroupedProper(symbols, xs, ops);
    EndStops(TokenAt(ts, i + |Written(xs, ops)|));
    AssignedPrinted(symbols, ts, e, i, n);
  }

  /** Two operators between three operands: the first is applied first if it binds at least as tightly. */
  lemma ThreeOperands(symbols: Symbols, ts: seq<Token>, a: Expr, t: Token, b: Expr, u: Token, c: Expr, i: nat, n: nat)
    requires IsOperand(symbols, a) && IsOperand(symbols, b) && IsOperand(symbols, c) && IsOperator(t) && IsOperator(u)
    requires StandsAt(ts, i, Print(a) + ([t] + (Print(b) + ([u] + Print(c)))))
    requires TokenAt(ts, i + |Print(a)| + |Print(b)| + |Print(c)| + 2) in {Semicolon, Comma, RightParen, Eof}
    requires n + Nodes(a) + Nodes(b) + Nodes(c) + 2 <= NODE_MAX
    ensures var e := if AsTight(t, u) then Expr.Binary(u, Expr.Binary(t, a, b), c)
                     else Expr.Binary(t, a, Expr.Binary(u, b, c));
            Assigned(symbols, ts, i, n).Parsed? && Assigned(symbols, ts, i, n).tree == Tree(symbols, e, n)
  {
    hide Assigned, Tree, Nodes, Print, IsOperand, IsOperator, AsTight, TokenLevel, Groups, IsRow, Written, Grouped;
    hide StandsAt, TokenAt;
    var xs, ops := [a, b, c], [t, u];
    ThreeWritten(a, t, b, u, c);
    AsTightIsLevel(t, u);
    ThreeRow(symbols, a, t, b, u, c);
    GroupedGroups(symbols, xs, ops);
    ThreeGrouped(a, t, b, u, c);
    ThreeNodes(a, t, b, u, c);
    RowIsGrouped(symbols, ts, xs, ops, Grouped(xs, ops), i, n);
  }

  lemma ThreeRow(symbols: Symbols, a: Expr, t: Token, b: Expr, u: Token, c: Expr)
    requires IsOperand(symbols, a) && IsOperand(symbols, b) && IsOperand(symbols, c) && IsOperator(t) && IsOperator(u)
    ensures IsRow(symbols, [a, b, c], [t, u])
  {
    hide IsOperand, IsOperator;
  }

  lemma ThreeWritten(a: Expr, t: Token, b: Expr, u: Token, c: Expr)
    ensures Written([a, b, c], [t, u]) == Print(a) + ([t] + (Print(b) + ([u] + Print(c))))
  {
    hide Print;
    assert [a, b, c][1..] == [b, c] && [t, u][1..] == [u] && [b, c][1..] == [c] && [u][1..] == [];
    assert Written([c], []) == Print(c);
    assert Written([b, c], [u]) == Print(b) + ([u] + Written([c], []));
  }

  lemma ThreeGrouped(a: Expr, t: Token, b: Expr, u: Token, c: Expr)
    ensures Grouped([a, b, c], [t, u]) ==
            if TokenLevel(t) >= TokenLevel(u) then Expr.Binary(u, Expr.Binary(t, a, b), c)
            else Expr.Binary(t, a, Expr.Binary(u, b, c))
  {
    hide TokenLevel;
    var xs, ops := [a, b, c], [t, u];
    assert xs[..1] == [a] && xs[1..] == [b, c] && xs[..2] == [a, b] && xs[2..] == [c];
    assert ops[..0] == [] && ops[1..] == [u] && ops[..1] == [t] && ops[2..] == [];
    TwoGrouped(a, t, b);
    TwoGrouped(b, u, c);
  }

  lemma TwoGrouped(a: Expr, t: Token, b: Expr)
    ensures Grouped([a, b], [t]) == Expr.Binary(t, a, b)
  {
    hide TokenLevel;
    assert [a, b][..1] == [a] && [a, b][1..] == [b] && [t][..0] == [] && [t][1..] == [];
  }

  lemma ThreeNodes(a: Expr, t: Token, b: Expr, u: Token, c: Expr)
    ensures Nodes(Expr.Binary(u, Expr.Binary(t, a, b), c)) == Nodes(a) + Nodes(b) + Nodes(c) + 2
    ensures Nodes(Expr.Binary(t, a, Expr.Binary(u, b, c))) == Nodes(a) + Nodes(b) + Nodes(c) + 2
  {
    hide Nodes;
    TwoNodes(t, a, b);
    TwoNodes(u, Expr.Binary(t, a, b), c);
    TwoNodes(u, b, c);
    TwoNodes(t, a, Expr.Binary(u, b, c));
  }

  lemma TwoNodes(t: Token, a: Expr, b: Expr)
    ensures Nodes(Expr.Binary(t, a, b)) == Nodes(a) + Nodes(b) + 1
  {}
}
