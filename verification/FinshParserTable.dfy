/**
 The parser of the shell as it works: a token cursor with a replay flag, and trees linked by child and sibling
 indices in a table of sixteen nodes.
 */
module FinshParserTable {
  import opened FinshTree
  import opened FinshParser
  import opened FinshCompiler

  // ---- Trees in the table ----

  /** The table holds the forest at `p`, in slots from `lo` up to `hi`. */
  ghost predicate Owned(nodes: seq<Node>, p: int, f: Forest, lo: nat, hi: nat) {
    FinshCompiler.Holds(nodes, p, f) && Distinct(f) && (forall s :: s in Slots(f) ==> lo <= s < hi) && hi <= |nodes|
  }

  /** Slots below a bound are as they were. */
  ghost predicate Below(before: seq<Node>, after: seq<Node>, n: nat) {
    |before| == |after| && n <= |before| && before[..n] == after[..n]
  }

  lemma OwnedKept(before: seq<Node>, after: seq<Node>, p: int, f: Forest, lo: nat, mid: nat)
    requires Owned(before, p, f, lo, mid) && Below(before, after, mid)
    ensures Owned(after, p, f, lo, mid)
  {
    assert forall i :: i in Slots(f) && 0 <= i < |before| ==> after[i] == before[..mid][i] == before[i];
    HoldsElsewhere(before, after, p, f);
  }

  lemma OwnedRoot(nodes: seq<Node>, p: int, f: Forest, lo: nat, hi: nat)
    requires Owned(nodes, p, f, lo, hi)
    ensures f.Cons? ==> p == f.slot && lo <= p < hi
    ensures f.Nil? ==> p == NULL
  {
    if f.Cons? { assert f.slot in Slots(f); }
  }

  /** The table after the sibling link of a tree's root was set. */
  function Linked(nodes: seq<Node>, p: int, q: int): seq<Node>
    requires 0 <= p < |nodes|
  {
    nodes[p := nodes[p].(sibling := q)]
  }

  lemma LinkBeside(nodes: seq<Node>, p: int, f: Forest, q: int, g: Forest, lo: nat, hi: nat)
    requires f.Cons? && f.rest.Nil? && Owned(nodes, p, f, lo, hi) && Owned(nodes, q, g, lo, hi) && Slots(f) !! Slots(g)
    ensures lo <= p < hi && Owned(Linked(nodes, p, q), p, Beside(f, g), lo, hi) && Below(nodes, Linked(nodes, p, q), lo)
  {
    OwnedRoot(nodes, p, f, lo, hi);
    var after := Linked(nodes, p, q);
    DistinctParts(f);
    HoldsElsewhere(nodes, after, nodes[p].child, f.kids);
    HoldsElsewhere(nodes, after, q, g);
    BesideSlots(f, g);
  }

  lemma BesideSlots(f: Forest, g: Forest)
    requires f.Cons? && f.rest.Nil?
    ensures Slots(Beside(f, g)) == Slots(f) + Slots(g)
    ensures Distinct(f) && Distinct(g) && Slots(f) !! Slots(g) ==> Distinct(Beside(f, g))
  {}

  lemma InTwoRanges(nodes: seq<Node>, p: int, f: Forest, q: int, g: Forest, lo: nat, mid: nat, hi: nat)
    requires Owned(nodes, p, f, lo, mid) && Owned(nodes, q, g, mid, hi) && lo <= mid <= hi
    ensures Owned(nodes, p, f, lo, hi) && Owned(nodes, q, g, lo, hi) && Slots(f) !! Slots(g)
  {
    DisjointRanges(Slots(f), Slots(g), lo, mid, hi);
  }

  lemma DisjointRanges(a: set<int>, b: set<int>, lo: nat, mid: nat, hi: nat)
    requires (forall s :: s in a ==> lo <= s < mid) && (forall s :: s in b ==> mid <= s < hi)
    ensures a !! b
  {
    forall s | s in a
      ensures s !in b
    {}
  }

  lemma NewAbove(nodes: seq<Node>, info: Info, p: int, kids: Forest, lo: nat, n: nat)
    requires Owned(nodes, p, kids, lo, n) && n < |nodes| && lo <= n
    ensures Owned(nodes[n := Node(info, p, NULL)], n, Cons(n, info, kids, Nil), lo, n + 1)
    ensures Below(nodes, nodes[n := Node(info, p, NULL)], n)
  {
    OwnedKept(nodes, nodes[n := Node(info, p, NULL)], p, kids, lo, n);
  }

  lemma BelowTwice(a: seq<Node>, b: seq<Node>, c: seq<Node>, n: nat, m: nat)
    requires Below(a, b, n) && Below(b, c, m) && n <= m
    ensures Below(a, c, n)
  {
    assert c[..n] == c[..m][..n] == b[..m][..n] == b[..n];
  }

  // ---- The parser ----

  class Parser {
    const tokens: seq<Token>
    const symbols: Symbols
    var pos: nat
    var replay: bool
    var current: Token
    const nodes: array<Node>
    const inUse: array<bool>
    ghost var used: nat
    var error: bool

    ghost predicate Valid()
      reads this, inUse
    {
      && nodes.Length == NODE_MAX && inUse.Length == NODE_MAX && used <= NODE_MAX
      && (forall i :: 0 <= i < NODE_MAX ==> (inUse[i] <==> i < used))
      && (replay ==> pos > 0) && (pos > 0 ==> current == TokenAt(tokens, pos - 1))
    }

    constructor (tokens: seq<Token>, symbols: Symbols, nodes: array<Node>)
      requires nodes.Length == NODE_MAX
      ensures Valid() && fresh(inUse) && Pending() == 0 && used == 0 && !error
      ensures this.tokens == tokens && this.symbols == symbols && this.nodes == nodes
    {
      this.tokens, this.symbols, this.nodes := tokens, symbols, nodes;
      pos, replay, current, used, error := 0, false, Eof, 0, false;
      inUse := new bool[NODE_MAX](_ => false);
    }

    /** The index of the token that is read next. */
    ghost function Pending(): nat
      reads this
    {
      if replay && pos > 0 then pos - 1 else pos
    }

    /** How many tokens are left. */
    ghost function Left(): nat
      reads this
    {
      if Pending() < |tokens| then |tokens| - Pending() else 0
    }

    method NextToken()
      requires Valid()
      modifies this`pos, this`replay, this`current
      ensures Valid() && !replay && Pending() == old(Pending()) + 1 && current == TokenAt(tokens, old(Pending()))
    {
      if replay {
        replay := false;
      } else {
        current := TokenAt(tokens, pos);
        pos := pos + 1;
      }
    }

    method Replay()
      requires Valid() && pos > 0 && !replay
      modifies this`replay
      ensures Valid() && Pending() == old(Pending()) - 1
    {
      replay := true;
    }

    /** The first unused node; NULL if there is none. */
    method Allocate(info: Info) returns (p: int)
      requires Valid()
      modifies nodes, inUse, this`used
      ensures Valid() && (if old(used) == NODE_MAX then p == NULL && used == old(used) && nodes[..] == old(nodes[..])
                          else p == old(used) && used == p + 1
                               && nodes[..] == old(nodes[..])[p := Node(info, NULL, NULL)])
    {
      var i := 0;
      while i < NODE_MAX && inUse[i]
        invariant i <= used
      {
        i := i + 1;
      }
      if i == NODE_MAX {
        return NULL;
      }
      inUse[i] := true;
      used := used + 1;
      nodes[i] := Node(info, NULL, NULL);
      p := i;
    }

    /** What a part of the parser did: an error is reported exactly when the grammar's function fails; otherwise the
        tree it returns is in the table, from slot `lo` on, and the slots below are as they were. */
    twostate predicate Did(r: Outcome, p: int, lo: nat)
      reads this, nodes, inUse
    {
      && Valid() && NULL <= p < NODE_MAX && Pending() >= old(Pending()) && used >= old(used) && (old(error) ==> error)
      && (!old(error) ==>
            && (error <==> r.Failed?)
            && (r.Parsed? ==> At(r, p, lo) && Below(old(nodes[..]), nodes[..], lo)))
    }

    /** The parser stands behind an expression whose tree is in the table. */
    ghost predicate At(r: Outcome, p: int, lo: nat)
      reads this, nodes
    {
      r.Parsed? && r.tree.Cons? && Pending() == r.next && used == r.used && Owned(nodes[..], p, r.tree, lo, used)
    }

    /** A new node without children. */
    method NewLeaf(info: Info, ghost next: nat) returns (p: int)
      requires Valid() && Pending() == next
      modifies nodes, inUse, this`used, this`error
      ensures Did(Made(info, Nil, next, old(used)), p, old(used)) && Pending() == old(Pending())
    {
      ghost var before := nodes[..];
      p := Allocate(info);
      if p == NULL {
        error := true;
      } else {
        NewAbove(before, info, NULL, Nil, used - 1, used - 1);
      }
    }

    /** A new node above `node1` with `node2` beside it. */
    method MakeSysNode(kind: Kind, node1: int, node2: int, ghost f: Forest, ghost g: Forest, ghost lo: nat,
                       ghost next: nat)
      returns (p: int)
      requires Valid() && NULL <= node1 < NODE_MAX && NULL <= node2 < NODE_MAX && lo <= used
      requires !error ==>
                 f.Cons? && f.rest.Nil? && Owned(nodes[..], node1, f, lo, used) && Owned(nodes[..], node2, g, lo, used)
      requires !error ==> Slots(f) !! Slots(g) && Pending() == next
      modifies nodes, inUse, this`used, this`error
      ensures Did(Made(Plain(kind), Beside(f, g), next, old(used)), p, lo)
    {
      hide Owned, Below;
      ghost var before := nodes[..];
      ghost var n := used;
      p := Allocate(Plain(kind));
      if node1 != NULL && p != NULL {
        nodes[p] := nodes[p].(child := node1);
        nodes[node1] := nodes[node1].(sibling := node2);
        if !error {
          BuiltNode(before, nodes[..], kind, node1, node2, f, g, lo, n);
        }
      } else {
        error := true;
        if !old(error) { OwnedRoot(before, node1, f, lo, n); }
      }
    }

    method Primary() returns (p: int)
      requires Valid()
      modifies nodes, inUse, this`used, this`error, this`pos, this`replay, this`current
      ensures Did(FinshParser.Primary(symbols, tokens, old(Pending()), old(used)), p, old(used))
    {
      hide Owned, Below;
      NextToken();
      if IsLeaf(symbols, current) {
        p := NewLeaf(LeafInfo(symbols, current), Pending());
      } else {
        error := true;
        p := NULL;
      }
    }

    /** One postfix operator `++` or `--`, already read. */
    method Bump(p0: int, ghost left: Outcome, ghost lo: nat) returns (p: int)
      requires Valid() && NULL <= p0 < NODE_MAX && current in {TInc, TDec} && lo <= used
               && (!error ==> Tailing(left, p0, lo))
      modifies nodes, inUse, this`used, this`error
      ensures if error && old(error) then Did(Failed, p, lo)
              else left.Parsed?
                   && Did(Made(Plain(if current == TInc then Inc else Dec), left.tree, left.next + 1, left.used), p, lo)
    {
      hide Owned, Below;
      if !error {
        NothingOwned(nodes[..], lo, used);
        assert Beside(left.tree, Nil) == left.tree;
      }
      p := MakeSysNode(if current == TInc then Inc else Dec, p0, NULL, TreeOf(left), Nil, lo,
          if left.Parsed? then left.next + 1 else 0);
    }

    /** A loop stands behind the token that follows an expression. */
    ghost predicate Tailing(left: Outcome, p: int, lo: nat)
      reads this, nodes
    {
      left.Parsed? && lo <= used
      && (!error ==> left.next + 1 == Pending() && left.used == used && !replay && current == TokenAt(tokens, left.next)
                     && left.tree.Cons? && left.tree.rest.Nil? && Owned(nodes[..], p, left.tree, lo, used)
                     && left.next <= |tokens|)
    }

    /** A prefix operator and its operand. A parenthesis in this place begins a cast, which is not modelled: it is
        reported as an error. */
    method Unary() returns (p: int)
      requires Valid()
      modifies nodes, inUse, this`used, this`error, this`pos, this`replay, this`current
      ensures Did(FinshParser.Unary(symbols, tokens, old(Pending()), old(used)), p, old(used))
      decreases Left(), 3
    {
      hide Owned, Below, FinshParser.Postfix, FinshParser.Unary, Made, Negated, Prefixed;
      UnaryByToken(symbols, tokens, Pending(), used);
      NextToken();
      if current == TAdd {
        p := Unary();
      } else if current == TSub {
        p := Negation();
      } else if current in {TInc, TDec, TTilde, TMul, TAnd} {
        p := PrefixNode(PrefixKind(current));
      } else if current == LeftParen {
        error := true;
        p := NULL;
      } else {
        Replay();
        p := Postfix();
      }
    }

    /** An operand below a prefix operator that was read. */
    method PrefixNode(kind: Kind) returns (p: int)
      requires Valid()
      modifies nodes, inUse, this`used, this`error, this`pos, this`replay, this`current
      ensures var e := FinshParser.Unary(symbols, tokens, old(Pending()), old(used));
              Did(Prefixed(kind, e), p, old(used))
      decreases Left(), 4
    {
      hide Owned, Below, FinshParser.Unary;
      ghost var before, lo := nodes[..], used;
      ghost var e := FinshParser.Unary(symbols, tokens, Pending(), used);
      p := Unary();
      ghost var now := nodes[..];
      if !error {
        NothingOwned(now, lo, used);
        assert Beside(e.tree, Nil) == e.tree;
      }
      p := MakeSysNode(kind, p, NULL, TreeOf(e), Nil, lo, if e.Parsed? then e.next else 0);
      if !error { BelowTwice(before, now, nodes[..], lo, lo); }
    }

    /** Minus: a zero is subtracted from. */
    method Negation() returns (p: int)
      requires Valid()
      modifies nodes, inUse, this`used, this`error, this`pos, this`replay, this`current
      ensures var e := FinshParser.Unary(symbols, tokens, old(Pending()), old(used));
              Did(Negated(e), p, old(used))
      decreases Left(), 4
    {
      hide Owned, Below, FinshParser.Unary;
      ghost var before, lo := nodes[..], used;
      ghost var e := FinshParser.Unary(symbols, tokens, Pending(), used);
      var operand := Unary();
      ghost var now, mid := nodes[..], used;
      var zero := NewLeaf(Plain(ValueLong), Pending());
      ghost var leaf := Cons(mid, Plain(ValueLong), Nil, Nil);
      if !error {
        OwnedKept(now, nodes[..], operand, e.tree, lo, mid);
        InTwoRanges(nodes[..], operand, e.tree, zero, leaf, lo, mid, used);
        BelowLess(now, nodes[..], mid, lo);
        BelowTwice(before, now, nodes[..], lo, lo);
      }
      ghost var joined := nodes[..];
      p := MakeSysNode(Bin(Sub), zero, operand, leaf, TreeOf(e), lo, if e.Parsed? then e.next else 0);
      if !error { BelowTwice(before, joined, nodes[..], lo, lo); }
    }

    /** An operand with its postfix operators. */
    method Postfix() returns (p: int)
      requires Valid()
      modifies nodes, inUse, this`used, this`error, this`pos, this`replay, this`current
      ensures Did(FinshParser.Postfix(symbols, tokens, old(Pending()), old(used)), p, old(used))
      decreases Left(), 2
    {
      hide Owned, Below, FinshParser.Primary, PostfixRest, Standing;
      ghost var before, start, lo, failed := nodes[..], Pending(), used, error;
      ghost var total := FinshParser.Postfix(symbols, tokens, start, lo);
      ghost var left := FinshParser.Primary(symbols, tokens, start, lo);
      PostfixBegins(symbols, tokens, start, lo);
      p := Primary();
      Begin(p, left, PostfixRest(symbols, tokens, left), total, lo, start, before, failed);
      while current in {TInc, TDec, LeftParen}
        invariant Standing(left, PostfixRest(symbols, tokens, left), total, p, lo, start, before, failed)
        decreases |tokens| + 1 - Pending()
      {
        Stands(left, PostfixRest(symbols, tokens, left), total, p, lo, start, before, failed);
        p, left := PostfixRound(p, left, total, lo, start, before, failed);
      }
      Stands(left, PostfixRest(symbols, tokens, left), total, p, lo, start, before, failed);
      PostfixEnds(symbols, tokens, left);
      Finish(p, left, PostfixRest(symbols, tokens, left), total, lo, start, before, failed);
    }

    /** One round of the loop of postfix operators. */
    method PostfixRound(p0: int, ghost left0: Outcome, ghost total: Outcome, ghost lo: nat, ghost start: nat,
                        ghost before: seq<Node>, ghost failed: bool)
      returns (p: int, ghost left: Outcome)
      requires Standing(left0, PostfixRest(symbols, tokens, left0), total, p0, lo, start, before, failed)
               && current in {TInc, TDec, LeftParen}
      modifies nodes, inUse, this`used, this`error, this`pos, this`replay, this`current
      ensures Standing(left, PostfixRest(symbols, tokens, left), total, p, lo, start, before, failed)
      ensures old(Pending()) <= |tokens| && Pending() > old(Pending())
      decreases Left(), 21
    {
      hide Owned, Below, FinshParser.Arguments, PostfixTail;
      ghost var now := nodes[..];
      RealBefore(tokens, Pending());
      left := if error then left0 else Extended(symbols, tokens, left0);
      if !error { PostfixTailStep(symbols, tokens, left0); }
      p := PostfixStep(p0, left0, lo, start);
      if !error { BelowTwice(before, now, nodes[..], lo, lo); }
      NextToken();
    }

    /** One postfix operator, whose first token was read. */
    method PostfixStep(p0: int, ghost left: Outcome, ghost lo: nat, ghost start: nat) returns (p: int)
      requires Looping(p0, start, lo) && current in {TInc, TDec, LeftParen} && (!error ==> Tailing(left, p0, lo))
      modifies nodes, inUse, this`used, this`error, this`pos, this`replay, this`current
      ensures if error && old(error) then Did(Failed, p, lo)
              else left.Parsed? && left.next < |tokens| && left.used <= NODE_MAX && left.tree.Cons?
                   && left.tree.rest.Nil?
                   && TokenAt(tokens, left.next) in {TInc, TDec, LeftParen}
                   && Did(Extended(symbols, tokens, left), p, lo)
      decreases Left(), 20
    {
      hide Owned, Below, FinshParser.Arguments;
      if current == LeftParen {
        p := Arguments(p0, left, lo, start);
      } else {
        p := Bump(p0, left, lo);
      }
    }

    /** A call, whose opening parenthesis was read. */
    method Arguments(p0: int, ghost left: Outcome, ghost lo: nat, ghost start: nat) returns (p: int)
      requires Looping(p0, start, lo) && current == LeftParen && (!error ==> Tailing(left, p0, lo))
      modifies nodes, inUse, this`used, this`error, this`pos, this`replay, this`current
      ensures if error && old(error) then Did(Failed, p, lo)
              else left.Parsed? && left.next < |tokens| && left.used <= NODE_MAX && left.tree.Cons?
                   && left.tree.rest.Nil?
                   && Did(FinshParser.Arguments(symbols, tokens, left), p, lo)
      decreases Left(), 19
    {
      hide Owned, Below, FinshParser.Parameters, FinshParser.Arguments, Listed;
      ghost var before := nodes[..];
      ghost var listed := if error then Failed else Listed(symbols, tokens, left);
      if !error { ArgumentsByList(symbols, tokens, left); }
      var q := ArgumentList(p0, left, lo, start);
      ghost var now := nodes[..];
      p := MakeSysNode(Func, p0, q, TreeOf(left), TreeOf(listed), lo, if listed.Parsed? then listed.next else 0);
      if !error { BelowTwice(before, now, nodes[..], lo, lo); }
    }

    /** The arguments up to the closing parenthesis, if there are any. */
    method ArgumentList(p0: int, ghost left: Outcome, ghost lo: nat, ghost start: nat) returns (q: int)
      requires Looping(p0, start, lo) && current == LeftParen && (!error ==> Tailing(left, p0, lo))
      modifies nodes, inUse, this`used, this`error, this`pos, this`replay, this`current
      ensures Valid() && NULL <= q < NODE_MAX && Pending() >= old(Pending()) && used >= old(used)
              && (old(error) ==> error)
      ensures !old(error) ==> left.Parsed? && left.next < |tokens| && (error <==> Listed(symbols, tokens, left).Failed?)
      ensures !error ==> var r := Listed(symbols, tokens, left);
                         && Pending() == r.next && used == r.used && Below(old(nodes[..]), nodes[..], lo)
                         && Slots(left.tree) !! Slots(r.tree)
                         && Owned(nodes[..], p0, left.tree, lo, used) && Owned(nodes[..], q, r.tree, lo, used)
      decreases Left(), 18
    {
      hide Owned, Below, FinshParser.Parameters;
      ghost var before, mid := nodes[..], used;
      ghost var params := if error then Failed else FinshParser.Parameters(symbols, tokens, left.next + 1, mid);
      q := NULL;
      NextToken();
      if current == RightParen {
        NothingOwned(nodes[..], lo, used);
        BelowItself(nodes[..], lo);
        return;
      }
      Replay();
      q := Parameters();
      NextToken();
      if current != RightParen {
        error := true;
        Replay();
      }
      if !error {
        OwnedKept(before, nodes[..], p0, left.tree, lo, mid);
        InTwoRanges(nodes[..], p0, left.tree, q, params.tree, lo, mid, used);
        BelowLess(before, nodes[..], mid, lo);
      }
    }

    /** The arguments of a call, each linked behind the last. */
    method Parameters() returns (p: int)
      requires Valid()
      modifies nodes, inUse, this`used, this`error, this`pos, this`replay, this`current
      ensures Did(FinshParser.Parameters(symbols, tokens, old(Pending()), old(used)), p, old(used))
      decreases Left(), 13
    {
      hide Owned, Below, FinshParser.Assigned, FinshParser.Parameters;
      ghost var before, start, lo, failed := nodes[..], Pending(), used, error;
      ghost var total := FinshParser.Parameters(symbols, tokens, start, lo);
      ghost var left := FinshParser.Assigned(symbols, tokens, start, lo);
      ParametersBegin(symbols, tokens, start, lo);
      p := Assigned();
      if p == NULL {
        if !error { OwnedRoot(nodes[..], p, left.tree, lo, used); }
        return;
      }
      if !error { OwnedRoot(nodes[..], p, left.tree, lo, used); }
      var last := p;
      NextToken();
      while current == Comma
        invariant ReadSoFar(left, total, p, last, lo, start, before, failed)
        decreases |tokens| + 1 - Pending()
      {
        last, left := ParametersRound(p, last, left, total, lo, start, before, failed);
      }
      ParametersEnd(left, total, p, last, lo, start, before, failed);
    }

    /** The token behind the last argument is given back. */
    method ParametersEnd(ghost left: Outcome, ghost total: Outcome, p: int, ghost last: int, ghost lo: nat,
                         ghost start: nat, ghost before: seq<Node>, ghost failed: bool)
      requires ReadSoFar(left, total, p, last, lo, start, before, failed) && current != Comma
      modifies this`replay
      ensures Valid() && Pending() >= start && (failed ==> error)
      ensures !failed ==>
                (error <==> total.Failed?) && (total.Parsed? ==> At(total, p, lo) && Below(before, nodes[..], lo))
    {
      hide Owned, Below, FinshParser.Assigned, FinshParser.Parameters;
      if !error { ChainedEnds(symbols, tokens, left); }
      Replay();
    }

    /** Where the loop over the arguments stands. */
    ghost predicate ReadSoFar(left: Outcome, total: Outcome, p: int, last: int, lo: nat, start: nat,
                              before: seq<Node>, failed: bool)
      reads this, inUse, nodes
    {
      Looping(p, start, lo) && p != NULL && NULL < last < NODE_MAX && (failed ==> error)
      && (!failed && error ==> total.Failed?)
      && (!error ==>
           Listing(left, p, last, lo) && Chained(symbols, tokens, left) == total && Below(before, nodes[..], lo))
    }

    /** One round of the loop over the arguments. */
    method ParametersRound(p: int, last0: int, ghost left0: Outcome, ghost total: Outcome, ghost lo: nat,
                           ghost start: nat, ghost before: seq<Node>, ghost failed: bool)
      returns (last: int, ghost left: Outcome)
      requires ReadSoFar(left0, total, p, last0, lo, start, before, failed) && current == Comma
      modifies nodes, inUse, this`used, this`error, this`pos, this`replay, this`current
      ensures ReadSoFar(left, total, p, last, lo, start, before, failed) && old(Pending()) <= |tokens|
              && Pending() > old(Pending())
      decreases Left(), 21
    {
      hide Owned, Below, FinshParser.Assigned, FinshParser.Parameters;
      ghost var now := nodes[..];
      RealBefore(tokens, Pending());
      left := if error then left0 else Longer(symbols, tokens, left0);
      if !error { ChainedStep(symbols, tokens, left0); }
      last := ParametersStep(p, last0, left0, lo, start);
      if !error { BelowTwice(before, now, nodes[..], lo, lo); }
      NextToken();
    }

    /** The loop over the arguments stands behind the token that follows the last one. */
    ghost predicate Listing(left: Outcome, p: int, last: int, lo: nat)
      reads this, nodes
    {
      left.Parsed? && lo <= used && left.next + 1 == Pending() && left.used == used
      && current == TokenAt(tokens, left.next)
      && left.tree.Cons? && Owned(nodes[..], p, left.tree, lo, used) && left.next <= |tokens|
      && last == LastSlot(left.tree)
    }

    /** One more argument, behind the comma that was read. */
    method ParametersStep(p: int, last0: int, ghost left: Outcome, ghost lo: nat, ghost start: nat) returns (last: int)
      requires Looping(p, start, lo) && p != NULL && NULL < last0 < NODE_MAX && current == Comma
               && (!error ==> Listing(left, p, last0, lo))
      modifies nodes, inUse, this`used, this`error, this`pos, this`replay, this`current
      ensures NULL < last < NODE_MAX
      ensures if error && old(error) then Did(Failed, p, lo)
              else left.Parsed? && left.next < |tokens| && left.tree.Cons? && Did(Longer(symbols, tokens, left), p, lo)
                   && (!error ==> last == LastSlot(Longer(symbols, tokens, left).tree))
      decreases Left(), 20
    {
      hide Owned, Below, FinshParser.Assigned;
      ghost var before, mid := nodes[..], used;
      ghost var next := if error then Failed else FinshParser.Assigned(symbols, tokens, left.next + 1, mid);
      var q := Assigned();
      ghost var now := nodes[..];
      last := last0;
      if !error {
        OwnedKept(before, now, p, left.tree, lo, mid);
        InTwoRanges(now, p, left.tree, q, next.tree, lo, mid, used);
        LinkLast(now, p, left.tree, q, next.tree, lo, used);
        BelowLess(before, now, mid, lo);
        OwnedRoot(now, q, next.tree, lo, used);
        LastAppended(left.tree, next.tree);
      }
      nodes[last0] := nodes[last0].(sibling := q);
      if q != NULL {
        last := q;
      } else {
        error := true;
      }
      if !error { BelowTwice(before, now, nodes[..], lo, lo); }
    }

    /** Assignment, from right to left. */
    method Assigned() returns (p: int)
      requires Valid()
      modifies nodes, inUse, this`used, this`error, this`pos, this`replay, this`current
      ensures Did(FinshParser.Assigned(symbols, tokens, old(Pending()), old(used)), p, old(used))
      decreases Left(), 12
    {
      hide Owned, Below, FinshParser.Level;
      ghost var before, start, lo := nodes[..], Pending(), used;
      ghost var left := FinshParser.Level(symbols, tokens, start, lo, 1);
      p := Level(1);
      NextToken();
      if current == TAssign {
        ghost var now := nodes[..];
        p := AssignedValue(p, left, lo, start);
        if !error { BelowTwice(before, now, nodes[..], lo, lo); }
      } else {
        Replay();
      }
    }

    /** The right side of an assignment, whose sign was read. */
    method AssignedValue(p0: int, ghost left: Outcome, ghost lo: nat, ghost start: nat) returns (p: int)
      requires Looping(p0, start, lo) && current == TAssign && (!error ==> Tailing(left, p0, lo))
      modifies nodes, inUse, this`used, this`error, this`pos, this`replay, this`current
      ensures if error && old(error) then Did(Failed, p, lo)
              else left.Parsed? && Did(Stored(symbols, tokens, left), p, lo)
      decreases Left(), 14
    {
      hide Owned, Below, FinshParser.Assigned;
      ghost var before, mid := nodes[..], used;
      ghost var right := if error then Failed else FinshParser.Assigned(symbols, tokens, left.next + 1, mid);
      var q := Assigned();
      ghost var now := nodes[..];
      if !error {
        OwnedKept(before, now, p0, left.tree, lo, mid);
        InTwoRanges(now, p0, left.tree, q, right.tree, lo, mid, used);
        BelowLess(before, now, mid, lo);
      }
      p := MakeSysNode(Assign, p0, q, TreeOf(left), TreeOf(right), lo, if right.Parsed? then right.next else 0);
      if !error { BelowTwice(before, now, nodes[..], lo, lo); }
    }

    /** One statement with its semicolon. */
    method ExprStatement() returns (p: int)
      requires Valid()
      modifies nodes, inUse, this`used, this`error, this`pos, this`replay, this`current
      ensures var one := FinshParser.Assigned(symbols, tokens, old(Pending()), old(used));
              Did(if one.Failed? || TokenAt(tokens, one.next) != Semicolon then Failed
                  else one.(next := one.next + 1), p, old(used))
    {
      hide Owned, Below, FinshParser.Assigned;
      p := Assigned();
      NextToken();
      if current != Semicolon {
        error := true;
        Replay();
      }
    }

    /** The statements of a line: the first becomes the root, each other is linked behind the one before it. */
    method Run() returns (root: int)
      requires Valid() && Pending() == 0 && used == 0 && !error
      modifies nodes, inUse, this`used, this`error, this`pos, this`replay, this`current
      ensures Valid() && (error <==> Statements(symbols, tokens, 0, 0).Failed?)
      ensures !error ==> Owned(nodes[..], root, Statements(symbols, tokens, 0, 0).tree, 0, used)
    {
      hide Owned, Below, FinshParser.Assigned, Statements;
      ghost var total := Statements(symbols, tokens, 0, 0);
      ghost var left := Parsed(Nil, 0, 0);
      root := NULL;
      var last := NULL;
      NextToken();
      NothingOwned(nodes[..], 0, 0);
      FollowedAtFirst(symbols, tokens);
      while current !in {Eof, BadToken}
        invariant Valid() && !replay && Pending() > 0 && current == TokenAt(tokens, Pending() - 1)
                  && NULL <= last < NODE_MAX && !error
        invariant left.Parsed? && left.next + 1 == Pending() && left.next <= |tokens| && left.used == used
        invariant Owned(nodes[..], root, left.tree, 0, used) && last == LastOf(left.tree)
                  && Followed(symbols, tokens, left) == total
        decreases |tokens| + 1 - Pending()
      {
        ghost var next := Lined(symbols, tokens, left);
        FollowedStep(symbols, tokens, left);
        if current == Semicolon || current == TypeName {
          error := true;
          NoSuchStart(symbols, tokens, left);
          return;
        }
        Replay();
        root, last := StatementStep(root, last, left);
        if error {
          return;
        }
        left := next;
        NextToken();
      }
      FollowedEnds(symbols, tokens, left);
    }

    method StatementStep(root0: int, last0: int, ghost left: Outcome) returns (root: int, last: int)
      requires Valid() && !error && NULL <= last0 < NODE_MAX && left.Parsed? && left.next == Pending()
               && left.used == used && left.next <= |tokens|
      requires Owned(nodes[..], root0, left.tree, 0, used) && last0 == LastOf(left.tree)
      modifies nodes, inUse, this`used, this`error, this`pos, this`replay, this`current
      ensures Valid() && NULL <= last < NODE_MAX && Pending() >= old(Pending())
      ensures var next := Lined(symbols, tokens, left);
              && (error <==> next.Failed?)
              && (!error ==>
                   next.next == Pending() && next.used == used && Owned(nodes[..], root, next.tree, 0, used)
                       && last == LastOf(next.tree))
    {
      hide Owned, Below, FinshParser.Assigned;
      ghost var before, mid := nodes[..], used;
      ghost var one := FinshParser.Assigned(symbols, tokens, Pending(), used);
      var statement := ExprStatement();
      ghost var now := nodes[..];
      root, last := root0, last0;
      OwnedRoot(before, root0, left.tree, 0, mid);
      if !error {
        OwnedRoot(now, statement, one.tree, mid, used);
        OwnedKept(before, now, root0, left.tree, 0, mid);
        InTwoRanges(now, root0, left.tree, statement, one.tree, 0, mid, used);
        if left.tree.Cons? {
          LinkLast(now, root0, left.tree, statement, one.tree, 0, used);
          LastAppended(left.tree, one.tree);
        }
      }
      if root == NULL {
        root, last := statement, statement;
      } else {
        nodes[last0] := nodes[last0].(sibling := statement);
        if statement != NULL {
          last := statement;
        }
      }
    }

    /** What every loop keeps, errors or not. */
    ghost predicate Looping(p: int, start: nat, lo: nat)
      reads this, inUse
    {
      Valid() && NULL <= p < NODE_MAX && !replay && Pending() > start && used >= lo
          && current == TokenAt(tokens, Pending() - 1)
    }

    /** Where a loop stands: `left` has been read, `whole` is what the rest of the loop makes of it, `total` what the
        whole procedure is to find; `before` and `failed` are the table and the error flag it began with. */
    ghost predicate Standing(left: Outcome, whole: Outcome, total: Outcome, p: int, lo: nat, start: nat,
                             before: seq<Node>, failed: bool)
      reads this, inUse, nodes
    {
      Looping(p, start, lo) && (failed ==> error) && (!failed && error ==> total.Failed?)
      && (!error ==> Tailing(left, p, lo) && whole == total && Below(before, nodes[..], lo))
    }

    /** The token a loop stands behind, and the operand in front of it. */
    lemma Stands(left: Outcome, whole: Outcome, total: Outcome, p: int, lo: nat, start: nat, before: seq<Node>,
                 failed: bool)
      requires Standing(left, whole, total, p, lo, start, before, failed)
      ensures Pending() > start && (current != Eof ==> Pending() <= |tokens|)
      ensures !error ==>
                left.Parsed? && current == TokenAt(tokens, left.next) && left.next <= |tokens| && left.used <= NODE_MAX
                         && left.tree.Cons? && left.tree.rest.Nil?
    {
      hide Owned, Below;
    }

    /** Reads the token behind the first operand of a loop. */
    method Begin(p: int, ghost left: Outcome, ghost whole: Outcome, ghost total: Outcome, ghost lo: nat,
                 ghost start: nat, ghost before: seq<Node>, ghost failed: bool)
      requires Valid() && NULL <= p < NODE_MAX && Pending() >= start && used >= lo && (failed ==> error)
               && total == whole
      requires left.Failed? ==> whole.Failed?
      requires left.Parsed? ==> left.tree.Cons? && left.tree.rest.Nil? && left.next <= |tokens|
      requires !failed ==>
                 (error <==> left.Failed?) && (left.Parsed? ==> At(left, p, lo) && Below(before, nodes[..], lo))
      modifies this`pos, this`replay, this`current
      ensures Standing(left, whole, total, p, lo, start, before, failed)
    {
      hide Owned, Below;
      NextToken();
    }

    /** Gives back the token at which a loop ended. */
    method Finish(p: int, ghost left: Outcome, ghost whole: Outcome, ghost total: Outcome, ghost lo: nat,
                  ghost start: nat, ghost before: seq<Node>, ghost failed: bool)
      requires Standing(left, whole, total, p, lo, start, before, failed) && (!error ==> whole == left)
      modifies this`replay
      ensures Valid() && NULL <= p < NODE_MAX && Pending() >= start && used >= lo && (failed ==> error)
      ensures !failed ==>
                (error <==> total.Failed?) && (total.Parsed? ==> At(total, p, lo) && Below(before, nodes[..], lo))
    {
      hide Owned, Below;
      Replay();
    }

    /** A level of binary operators, applied from left to right. */
    method Level(k: nat) returns (p: int)
      requires Valid() && 1 <= k <= 7
      modifies nodes, inUse, this`used, this`error, this`pos, this`replay, this`current
      ensures Did(FinshParser.Level(symbols, tokens, old(Pending()), old(used), k), p, old(used))
      decreases Left(), 11 - k
    {
      hide Owned, Below, FinshParser.Unary, FinshParser.Level, TokenLevel, LevelRest, Standing;
      LevelBegins(symbols, tokens, Pending(), used, k);
      if k == 7 {
        p := Unary();
        return;
      }
      ghost var before, start, lo, failed := nodes[..], Pending(), used, error;
      ghost var total := FinshParser.Level(symbols, tokens, start, lo, k);
      ghost var left := FinshParser.Level(symbols, tokens, start, lo, k + 1);
      p := Level(k + 1);
      Begin(p, left, LevelRest(symbols, tokens, left, k), total, lo, start, before, failed);
      while TokenLevel(current) == k
        invariant Standing(left, LevelRest(symbols, tokens, left, k), total, p, lo, start, before, failed)
        decreases |tokens| + 1 - Pending()
      {
        EofHasNoLevel();
        Stands(left, LevelRest(symbols, tokens, left, k), total, p, lo, start, before, failed);
        p, left := LevelRound(k, p, left, total, lo, start, before, failed);
      }
      Stands(left, LevelRest(symbols, tokens, left, k), total, p, lo, start, before, failed);
      LevelEnds(symbols, tokens, left, k);
      Finish(p, left, LevelRest(symbols, tokens, left, k), total, lo, start, before, failed);
    }

    /** One round of the loop of a binary level. */
    method LevelRound(k: nat, p0: int, ghost left0: Outcome, ghost total: Outcome, ghost lo: nat, ghost start: nat,
                      ghost before: seq<Node>, ghost failed: bool)
      returns (p: int, ghost left: Outcome)
      requires 1 <= k <= 6 && TokenLevel(current) == k
      requires Standing(left0, LevelRest(symbols, tokens, left0, k), total, p0, lo, start, before, failed)
      modifies nodes, inUse, this`used, this`error, this`pos, this`replay, this`current
      ensures Standing(left, LevelRest(symbols, tokens, left, k), total, p, lo, start, before, failed)
      ensures old(Pending()) <= |tokens| && Pending() > old(Pending())
      decreases Left(), 21
    {
      hide Owned, Below, TokenLevel, LevelTail, Applied;
      ghost var now := nodes[..];
      EofHasNoLevel();
      RealBefore(tokens, Pending());
      left := if error then left0 else Applied(symbols, tokens, left0, k);
      if !error { LevelTailStep(symbols, tokens, left0, k); }
      p := LevelStep(k, p0, left0, lo, start);
      if !error { BelowTwice(before, now, nodes[..], lo, lo); }
      NextToken();
    }

    /** One binary operator of level `k`, already read, and its right operand. */
    method LevelStep(k: nat, p0: int, ghost left: Outcome, ghost lo: nat, ghost start: nat) returns (p: int)
      requires 1 <= k <= 6 && Looping(p0, start, lo) && TokenLevel(current) == k && (!error ==> Tailing(left, p0, lo))
      modifies nodes, inUse, this`used, this`error, this`pos, this`replay, this`current
      ensures if error && old(error) then Did(Failed, p, lo)
              else left.Parsed? && left.next < |tokens| && Did(Applied(symbols, tokens, left, k), p, lo)
      decreases Left(), 20
    {
      hide Owned, Below, TokenLevel;
      ghost var mid, before := used, nodes[..];
      var op := TokenOp(current);
      EofHasNoLevel();
      ghost var right := if error then Failed else FinshParser.Level(symbols, tokens, left.next + 1, mid, k + 1);
      var p2 := Level(k + 1);
      if p2 == NULL {
        error := true;
        p := p0;
        if !old(error) && right.Parsed? { OwnedRoot(nodes[..], p2, right.tree, mid, used); }
      } else {
        ghost var now := nodes[..];
        if !error {
          OwnedKept(before, now, p0, left.tree, lo, mid);
          BelowLess(before, now, mid, lo);
          InTwoRanges(now, p0, left.tree, p2, right.tree, lo, mid, used);
        }
        p := MakeSysNode(Bin(op), p0, p2, TreeOf(left), TreeOf(right), lo, if right.Parsed? then right.next else 0);
        if !error { BelowTwice(before, now, nodes[..], lo, lo); }
      }
    }
  }

  ghost function Prefixed(kind: Kind, e: Outcome): Outcome {
    if e.Failed? then Failed else Made(Plain(kind), e.tree, e.next, e.used)
  }

  ghost function Negated(e: Outcome): Outcome {
    if e.Failed? || e.used >= NODE_MAX then Failed
    else Made(Plain(Bin(Sub)), Cons(e.used, Plain(ValueLong), Nil, e.tree), e.next, e.used + 1)
  }

  lemma UnaryByToken(symbols: Symbols, ts: seq<Token>, i: nat, n: nat)
    ensures var r, t := FinshParser.Unary(symbols, ts, i, n), TokenAt(ts, i);
            if t == TAdd then i < |ts| && r == FinshParser.Unary(symbols, ts, i + 1, n)
            else if t == TSub then i < |ts| && r == Negated(FinshParser.Unary(symbols, ts, i + 1, n))
            else if t in {TInc, TDec, TTilde, TMul, TAnd}
            then i < |ts| && r == Prefixed(PrefixKind(t), FinshParser.Unary(symbols, ts, i + 1, n))
            else if t == LeftParen then r == Failed
            else r == FinshParser.Postfix(symbols, ts, i, n)
  {
    hide FinshParser.Postfix;
  }

  lemma BelowItself(nodes: seq<Node>, n: nat)
    requires n <= |nodes|
    ensures Below(nodes, nodes, n)
  {}

  // ---- Argument lists ----

  ghost function Append(f: Forest, g: Forest): Forest {
    match f
    case Nil => g
    case Cons(slot, info, kids, rest) => Cons(slot, info, kids, Append(rest, g))
  }

  ghost function LastSlot(f: Forest): (s: int)
    requires f.Cons?
    ensures s >= 0
  {
    if f.rest.Nil? then f.slot else LastSlot(f.rest)
  }

  lemma {:induction false} AppendAssoc(f: Forest, g: Forest, h: Forest)
    ensures Append(Append(f, g), h) == Append(f, Append(g, h))
  {
    if f.Cons? { AppendAssoc(f.rest, g, h); }
  }

  lemma {:induction false} LastAppended(f: Forest, g: Forest)
    requires f.Cons? && g.Cons? && g.rest.Nil?
    ensures LastSlot(Append(f, g)) == g.slot
  {
    if f.rest.Cons? { LastAppended(f.rest, g); }
  }

  lemma {:induction false} LastInside(f: Forest)
    requires f.Cons?
    ensures LastSlot(f) in Slots(f)
  {
    if f.rest.Cons? { LastInside(f.rest); }
  }

  lemma {:induction false} AppendSlots(f: Forest, g: Forest)
    ensures Slots(Append(f, g)) == Slots(f) + Slots(g)
    ensures Distinct(f) && Distinct(g) && Slots(f) !! Slots(g) ==> Distinct(Append(f, g))
  {
    if f.Cons? { AppendSlots(f.rest, g); }
  }

  lemma {:induction false} LinkedHolds(nodes: seq<Node>, p: int, f: Forest, q: int, g: Forest)
    requires f.Cons? && FinshCompiler.Holds(nodes, p, f) && Distinct(f) && 0 <= LastSlot(f) < |nodes|
    requires FinshCompiler.Holds(Linked(nodes, LastSlot(f), q), q, g)
    ensures FinshCompiler.Holds(Linked(nodes, LastSlot(f), q), p, Append(f, g))
    decreases f
  {
    var after := Linked(nodes, LastSlot(f), q);
    LastInside(f);
    DistinctParts(f);
    if f.rest.Cons? {
      LastInside(f.rest);
      LinkedHolds(nodes, nodes[p].sibling, f.rest, q, g);
    }
    HoldsElsewhere(nodes, after, nodes[p].child, f.kids);
  }

  /** Linking a forest behind the last tree of another. */
  lemma LinkLast(nodes: seq<Node>, p: int, f: Forest, q: int, g: Forest, lo: nat, hi: nat)
    requires f.Cons? && Owned(nodes, p, f, lo, hi) && Owned(nodes, q, g, lo, hi) && Slots(f) !! Slots(g)
    ensures lo <= LastSlot(f) < hi
    ensures Owned(Linked(nodes, LastSlot(f), q), p, Append(f, g), lo, hi)
            && Below(nodes, Linked(nodes, LastSlot(f), q), lo)
  {
    LastInside(f);
    HoldsElsewhere(nodes, Linked(nodes, LastSlot(f), q), q, g);
    LinkedHolds(nodes, p, f, q, g);
    AppendSlots(f, g);
  }

  ghost function LastOf(f: Forest): int { if f.Nil? then NULL else LastSlot(f) }

  /** The line with one more statement, behind its semicolon. */
  ghost function Lined(symbols: Symbols, ts: seq<Token>, left: Outcome): Outcome
    requires left.Parsed?
  {
    var one := FinshParser.Assigned(symbols, ts, left.next, left.used);
    if one.Failed? || TokenAt(ts, one.next) != Semicolon then Failed
        else Parsed(Append(left.tree, one.tree), one.next + 1, one.used)
  }

  /** What the rest of the line makes of the statements read so far. */
  ghost function Followed(symbols: Symbols, ts: seq<Token>, left: Outcome): Outcome
    requires left.Parsed? && left.next <= |ts|
  {
    var others := Statements(symbols, ts, left.next, left.used);
    if others.Failed? then Failed else Parsed(Append(left.tree, others.tree), others.next, others.used)
  }

  lemma FollowedAtFirst(symbols: Symbols, ts: seq<Token>)
    ensures Followed(symbols, ts, Parsed(Nil, 0, 0)) == Statements(symbols, ts, 0, 0)
  {
    hide Statements;
  }

  lemma FollowedStep(symbols: Symbols, ts: seq<Token>, left: Outcome)
    requires left.Parsed? && left.next <= |ts| && TokenAt(ts, left.next) !in {Eof, BadToken}
    ensures var next := Lined(symbols, ts, left);
            && left.next < |ts| && (next.Parsed? ==> left.next < next.next <= |ts|)
            && Followed(symbols, ts, left) == if next.Failed? then Failed else Followed(symbols, ts, next)
  {
    hide FinshParser.Assigned;
    SemicolonInside(ts);
    var one := FinshParser.Assigned(symbols, ts, left.next, left.used);
    if one.Parsed? && TokenAt(ts, one.next) == Semicolon {
      var others := Statements(symbols, ts, one.next + 1, one.used);
      if others.Parsed? {
        AppendOne(one.tree, others.tree);
        AppendAssoc(left.tree, one.tree, others.tree);
      }
    }
  }

  lemma SemicolonInside(ts: seq<Token>)
    ensures forall i: nat :: TokenAt(ts, i) == Semicolon ==> i < |ts|
  {}

  lemma {:induction false} AppendNothing(f: Forest)
    ensures Append(f, Nil) == f
  {
    if f.Cons? { AppendNothing(f.rest); }
  }

  lemma FollowedEnds(symbols: Symbols, ts: seq<Token>, left: Outcome)
    requires left.Parsed? && left.next <= |ts| && TokenAt(ts, left.next) in {Eof, BadToken}
    ensures Followed(symbols, ts, left) == left
  {
    AppendNothing(left.tree);
  }

  /** No expression begins with a semicolon or a type name. */
  lemma NoSuchStart(symbols: Symbols, ts: seq<Token>, left: Outcome)
    requires left.Parsed? && TokenAt(ts, left.next) in {Semicolon, TypeName}
    ensures Lined(symbols, ts, left).Failed?
  {
    NoLevelStart(symbols, ts, left.next, left.used, 1);
  }

  lemma {:induction false} NoLevelStart(symbols: Symbols, ts: seq<Token>, i: nat, n: nat, k: nat)
    requires 1 <= k <= 7 && TokenAt(ts, i) in {Semicolon, TypeName}
    ensures FinshParser.Level(symbols, ts, i, n, k).Failed?
    decreases 7 - k
  {
    if k < 7 {
      NoLevelStart(symbols, ts, i, n, k + 1);
    } else {
      assert FinshParser.Primary(symbols, ts, i, n).Failed?;
      assert FinshParser.Postfix(symbols, ts, i, n).Failed?;
    }
  }

  /** What the rest of an argument list makes of the arguments read so far. */
  ghost function Chained(symbols: Symbols, ts: seq<Token>, left: Outcome): Outcome
    requires left.Parsed?
  {
    if TokenAt(ts, left.next) != Comma then left
    else
      var others := FinshParser.Parameters(symbols, ts, left.next + 1, left.used);
      if others.Failed? then Failed else Parsed(Append(left.tree, others.tree), others.next, others.used)
  }

  /** One more argument. */
  ghost function Longer(symbols: Symbols, ts: seq<Token>, left: Outcome): Outcome
    requires left.Parsed?
  {
    var next := FinshParser.Assigned(symbols, ts, left.next + 1, left.used);
    if next.Failed? then Failed else Parsed(Append(left.tree, next.tree), next.next, next.used)
  }

  lemma ParametersBegin(symbols: Symbols, ts: seq<Token>, i: nat, n: nat)
    ensures var first := FinshParser.Assigned(symbols, ts, i, n);
            FinshParser.Parameters(symbols, ts, i, n) == if first.Failed? then Failed else Chained(symbols, ts, first)
  {
    hide FinshParser.Assigned;
    var first := FinshParser.Assigned(symbols, ts, i, n);
    if first.Parsed? && TokenAt(ts, first.next) == Comma {
      AppendOne(first.tree, TreeOf(FinshParser.Parameters(symbols, ts, first.next + 1, first.used)));
    }
  }

  lemma AppendOne(f: Forest, g: Forest)
    requires f.Cons? && f.rest.Nil?
    ensures Append(f, g) == Beside(f, g)
  {}

  lemma ChainedStep(symbols: Symbols, ts: seq<Token>, left: Outcome)
    requires left.Parsed? && left.tree.Cons? && left.next <= |ts| && TokenAt(ts, left.next) == Comma
    ensures var next := Longer(symbols, ts, left);
            && left.next < |ts| && (next.Parsed? ==> next.tree.Cons? && next.next <= |ts| && next.used > left.used)
            && Chained(symbols, ts, left) == if next.Failed? then Failed else Chained(symbols, ts, next)
  {
    hide FinshParser.Assigned, FinshParser.Parameters;
    ParametersBegin(symbols, ts, left.next + 1, left.used);
    var one := FinshParser.Assigned(symbols, ts, left.next + 1, left.used);
    if one.Parsed? && TokenAt(ts, one.next) == Comma {
      var others := FinshParser.Parameters(symbols, ts, one.next + 1, one.used);
      if others.Parsed? { AppendAssoc(left.tree, one.tree, others.tree); }
    }
  }

  lemma ChainedEnds(symbols: Symbols, ts: seq<Token>, left: Outcome)
    requires left.Parsed? && TokenAt(ts, left.next) != Comma
    ensures Chained(symbols, ts, left) == left
  {}

  /** One round of the loop of postfix operators. */
  ghost function Extended(symbols: Symbols, ts: seq<Token>, left: Outcome): Outcome
    requires left.Parsed? && left.next < |ts| && left.used <= NODE_MAX && left.tree.Cons? && left.tree.rest.Nil?
  {
    match TokenAt(ts, left.next)
    case TInc => Made(Plain(Inc), left.tree, left.next + 1, left.used)
    case TDec => Made(Plain(Dec), left.tree, left.next + 1, left.used)
    case _ => FinshParser.Arguments(symbols, ts, left)
  }

  /** The argument list of a call, from its opening parenthesis to behind the closing one. */
  ghost function Listed(symbols: Symbols, ts: seq<Token>, left: Outcome): Outcome
    requires left.Parsed? && left.next < |ts|
  {
    if TokenAt(ts, left.next + 1) == RightParen then Parsed(Nil, left.next + 2, left.used)
    else
      var params := FinshParser.Parameters(symbols, ts, left.next + 1, left.used);
      if params.Parsed? && TokenAt(ts, params.next) == RightParen then params.(next := params.next + 1) else Failed
  }

  lemma ArgumentsByList(symbols: Symbols, ts: seq<Token>, left: Outcome)
    requires left.Parsed? && left.next <= |ts| && TokenAt(ts, left.next) == LeftParen && left.used <= NODE_MAX
    requires left.tree.Cons? && left.tree.rest.Nil?
    ensures left.next < |ts|
    ensures var r := Listed(symbols, ts, left);
            FinshParser.Arguments(symbols, ts, left) ==
            if r.Failed? then Failed else Made(Plain(Func), Beside(left.tree, r.tree), r.next, r.used)
  {
    hide FinshParser.Parameters;
    assert Beside(left.tree, Nil) == left.tree;
  }

  /** What the loop makes of an operand. */
  ghost function PostfixRest(symbols: Symbols, ts: seq<Token>, left: Outcome): Outcome {
    if left.Parsed? && left.next <= |ts| && left.used <= NODE_MAX && left.tree.Cons? && left.tree.rest.Nil?
    then PostfixTail(symbols, ts, left) else Failed
  }

  lemma PostfixBegins(symbols: Symbols, ts: seq<Token>, i: nat, n: nat)
    ensures FinshParser.Postfix(symbols, ts, i, n) == PostfixRest(symbols, ts, FinshParser.Primary(symbols, ts, i, n))
    ensures PostfixRest(symbols, ts, Failed) == Failed
  {
    hide PostfixTail;
  }

  lemma PostfixTailStep(symbols: Symbols, ts: seq<Token>, left: Outcome)
    requires left.Parsed? && left.next < |ts| && left.used <= NODE_MAX && left.tree.Cons? && left.tree.rest.Nil?
    requires TokenAt(ts, left.next) in {TInc, TDec, LeftParen}
    ensures var next := Extended(symbols, ts, left);
            && (next.Parsed? ==> next.next <= |ts| && next.used <= NODE_MAX && next.tree.Cons? && next.tree.rest.Nil?)
            && PostfixRest(symbols, ts, left) == PostfixRest(symbols, ts, next)
  {}

  lemma PostfixEnds(symbols: Symbols, ts: seq<Token>, left: Outcome)
    ensures (left.Parsed? && TokenAt(ts, left.next) !in {TInc, TDec, LeftParen} && left.next <= |ts|
            && left.used <= NODE_MAX
             && left.tree.Cons? && left.tree.rest.Nil?) ==> PostfixRest(symbols, ts, left) == left
  {}

  /** A token that was read and is not the end stands in the list. */
  lemma RealBefore(ts: seq<Token>, i: nat)
    ensures i > 0 && TokenAt(ts, i - 1) != Eof ==> i <= |ts|
  {}

  /** An assignment, from its sign on. */
  ghost function Stored(symbols: Symbols, ts: seq<Token>, left: Outcome): Outcome
    requires left.Parsed?
  {
    var right := FinshParser.Assigned(symbols, ts, left.next + 1, left.used);
    if right.Failed? then Failed else Made(Plain(Assign), Beside(left.tree, right.tree), right.next, right.used)
  }

  ghost function TreeOf(r: Outcome): Forest { if r.Parsed? then r.tree else Nil }

  lemma EofHasNoLevel()
    ensures TokenLevel(Eof) == 0
  {}

  lemma BelowLess(a: seq<Node>, b: seq<Node>, n: nat, m: nat)
    requires Below(a, b, n) && m <= n
    ensures Below(a, b, m)
  {
    assert a[..m] == a[..n][..m] && b[..m] == b[..n][..m];
  }

  lemma LevelBegins(symbols: Symbols, ts: seq<Token>, i: nat, n: nat, k: nat)
    requires 1 <= k <= 7
    ensures k == 7 ==> FinshParser.Level(symbols, ts, i, n, k) == FinshParser.Unary(symbols, ts, i, n)
    ensures k < 7 ==>
              FinshParser.Level(symbols, ts, i, n, k) ==
                  LevelRest(symbols, ts, FinshParser.Level(symbols, ts, i, n, k + 1), k)
    ensures k < 7 ==> LevelRest(symbols, ts, Failed, k) == Failed
  {
    hide LevelTail, FinshParser.Unary;
  }

  /** What the loop of a level makes of a left operand. */
  ghost function LevelRest(symbols: Symbols, ts: seq<Token>, left: Outcome, k: nat): Outcome
    requires 1 <= k <= 6
  {
    if left.Parsed? && left.next <= |ts| && left.used <= NODE_MAX && left.tree.Cons? && left.tree.rest.Nil?
    then LevelTail(symbols, ts, left, k) else Failed
  }

  lemma LevelTailStep(symbols: Symbols, ts: seq<Token>, left: Outcome, k: nat)
    requires 1 <= k <= 6 && left.Parsed? && left.next < |ts| && left.used <= NODE_MAX && left.tree.Cons?
             && left.tree.rest.Nil?
    requires TokenLevel(TokenAt(ts, left.next)) == k
    ensures var next := Applied(symbols, ts, left, k);
            && (next.Parsed? ==> next.next <= |ts| && next.used <= NODE_MAX && next.tree.Cons? && next.tree.rest.Nil?)
            && LevelRest(symbols, ts, left, k) == LevelRest(symbols, ts, next, k)
  {}

  lemma LevelEnds(symbols: Symbols, ts: seq<Token>, left: Outcome, k: nat)
    requires 1 <= k <= 6
    ensures (left.Parsed? && TokenLevel(TokenAt(ts, left.next)) != k && left.next <= |ts| && left.used <= NODE_MAX
             && left.tree.Cons? && left.tree.rest.Nil?) ==> LevelRest(symbols, ts, left, k) == left
  {}

  /** One round of the loop of level `k`. */
  ghost function Applied(symbols: Symbols, ts: seq<Token>, left: Outcome, k: nat): Outcome
    requires 1 <= k <= 6 && left.Parsed? && left.next < |ts|
  {
    var right := FinshParser.Level(symbols, ts, left.next + 1, left.used, k + 1);
    if right.Failed? then Failed
    else Made(Plain(Bin(TokenOp(TokenAt(ts, left.next)))), Beside(left.tree, right.tree), right.next, right.used)
  }

  lemma NothingOwned(nodes: seq<Node>, lo: nat, n: nat)
    requires n <= |nodes|
    ensures Owned(nodes, NULL, Nil, lo, n) && Slots(Nil) == {}
  {}

  lemma BuiltNode(before: seq<Node>, after: seq<Node>, kind: Kind, p: int, q: int, f: Forest, g: Forest, lo: nat,
                  n: nat)
    requires f.Cons? && f.rest.Nil? && Owned(before, p, f, lo, n) && Owned(before, q, g, lo, n) && Slots(f) !! Slots(g)
    requires lo <= n < |before| && 0 <= p < |before|
    requires after == Linked(before[n := Node(Plain(kind), NULL, NULL)][n := Node(Plain(kind), p, NULL)], p, q)
    ensures Owned(after, n, Cons(n, Plain(kind), Beside(f, g), Nil), lo, n + 1) && Below(before, after, lo)
  {
    hide Owned, Below;
    var linked := Linked(before, p, q);
    LinkBeside(before, p, f, q, g, lo, n);
    NewAbove(linked, Plain(kind), p, Beside(f, g), lo, n);
    assert after == linked[n := Node(Plain(kind), p, NULL)];
    BelowTwice(before, linked, after, lo, n);
  }
}
