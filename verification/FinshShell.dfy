/**
 A line of statements from tokens to result: parser, type check, code generation, and the virtual
 machine, as the shell runs them one after the other.
 */
module FinshShell {
  import opened FinshTree
  import opened FinshMachine
  import opened FinshMeaning
  import opened FinshCompiler
  import opened FinshVm
  import FinshParser
  import FinshParserTable
  import FinshSemantics

  /** Code emitted into blank text is the loaded program. */
  lemma EmittedIsLoaded(code: seq<Byte>, text: seq<Byte>, pc: nat)
    requires |text| == TEXT_MAX && Emits(seq(TEXT_MAX, _ => 0), 0, code, text, pc)
    ensures text == Loaded(code)
  {
    assert text == text[..pc] + text[pc..];
    assert Zeros(TEXT_MAX - |code|) == seq(TEXT_MAX, _ => 0)[pc..];
  }

  lemma {:induction false} NoUnknownTypes(f: Forest, place: bool)
    requires LongForest(f, place)
    ensures !CheckFails(f)
    decreases f
  {
    if f.Cons? {
      NoUnknownTypes(f.kids, WantsPlace(f.info.kind, place));
      NoUnknownTypes(f.rest, false);
      assert !LeafFails(f.info, f.kids) by { NodeTyped(f.info, f.kids, place); }
    }
  }

  lemma NodeTyped(info: Info, kids: Forest, place: bool)
    requires LongNode(info, kids, place)
    ensures !LeafFails(info, kids)
    ensures info.kind.Assign? ==> kids.Cons? && HeadType(kids) == DWORD
  {}

  lemma {:induction false} NoUntypedTargets(f: Forest, place: bool)
    requires LongForest(f, place)
    ensures !CodeFails(Checked(f, place))
    decreases f
  {
    hide LongNode;
    if f.Cons? {
      NoUntypedTargets(f.kids, WantsPlace(f.info.kind, place));
      NoUntypedTargets(f.rest, false);
      NodeTyped(f.info, f.kids, place);
      if f.kids.Cons? { CheckedHeadType(f.kids, ChildAddr(f.info.kind, place)); }
    }
  }

  lemma {:induction false} NoStatementFails(f: Forest)
    requires LongForest(f, false)
    ensures !StatementsFail(Checked(f, false))
    decreases f
  {
    hide LongNode, CodeFails;
    if f.Cons? {
      assert Alone(Checked(f, false)) == Checked(Alone(f), false);
      NoUntypedTargets(Alone(f), false);
      NoStatementFails(f.rest);
    }
  }

  lemma {:induction false} SlotsInTable(nodes: seq<Node>, p: int, f: Forest)
    requires Holds(nodes, p, f) && Distinct(f)
    ensures forall i :: i in Slots(f) ==> 0 <= i < |nodes|
    ensures |Slots(f)| == Size(f)
    decreases f
  {
    if f.Cons? {
      SlotsInTable(nodes, nodes[p].child, f.kids);
      SlotsInTable(nodes, nodes[p].sibling, f.rest);
      DisjointUnionSize({p}, Slots(f.kids));
      DisjointUnionSize({p} + Slots(f.kids), Slots(f.rest));
    }
  }

  lemma DisjointUnionSize(a: set<int>, b: set<int>)
    requires a !! b
    ensures |a + b| == |a| + |b|
  {}

  lemma {:induction false} BoundedSet(s: set<int>, n: nat)
    requires forall i :: i in s ==> 0 <= i < n
    ensures |s| <= n
  {
    if n > 0 {
      BoundedSet(s - {n - 1}, n - 1);
      assert s <= (s - {n - 1}) + {n - 1};
    } else {
      assert forall i :: i !in s;
    }
  }

  /** A forest in the node table has at most as many nodes as the table has places. */
  lemma TableBoundsSize(nodes: seq<Node>, p: int, f: Forest)
    requires Holds(nodes, p, f) && Distinct(f)
    ensures Size(f) <= |nodes|
  {
    SlotsInTable(nodes, p, f);
    BoundedSet(Slots(f), |nodes|);
  }

  /** Type check and compile the line that the node table holds at `root`, and run it unless an
      error was reported. A line of the 32-bit fragment reports none; its value is at the
      bottom of the stack and the memory is that of direct evaluation. */
  method RunLine(compiler: Compiler, vm: Vm, root: int, ghost f: Forest) returns (result: Word)
    requires compiler.text == vm.text && vm.text.Length == TEXT_MAX && vm.stack.Length == STACK_MAX
    requires compiler.nodes.Length == 16 && !compiler.error
    requires Holds(compiler.nodes[..], root, f) && Distinct(f)
    requires f.Cons? && LongForest(f, false)
    requires |Program(Checked(f, false))| <= TEXT_MAX
    requires Meaning(vm.calls, f, vm.mem).Some?
    modifies compiler.nodes, compiler.text, compiler`pc, compiler`error, vm.stack, vm`sp, vm`pc, vm`mem
    ensures !compiler.error
    ensures old(Meaning(vm.calls, f, vm.mem)) == Some(([result], vm.mem)) && result == vm.stack[0]
  {
    hide Checked, Program, LongForest, Meaning, Exec, Distinct, Holds, Emits, StatementsFail, CheckFails, Loaded;
    NoUnknownTypes(f, false);
    NoStatementFails(f);
    TableBoundsSize(compiler.nodes[..], root, f);
    compiler.Run(root, f);
    EmittedIsLoaded(Program(Checked(f, false)), vm.text[..], compiler.pc);
    LineComputesMeaning(vm.M(), f, vm.mem);
    ghost var value := Meaning(vm.calls, f, vm.mem).value;
    if !compiler.error {
      vm.Run();
    }
    assert vm.stack[..vm.sp] == value.0 == [value.0[0]];
    result := vm.StackBottom();
  }

  /** The parser is at the beginning of the printed form of a line that fits the node table. */
  ghost predicate AtLine(parser: FinshParserTable.Parser, es: seq<FinshParser.Expr>)
    reads parser, parser.inUse
  {
    && parser.Valid() && parser.Pending() == 0 && parser.used == 0 && !parser.error
    && es != [] && parser.tokens == FinshParser.PrintLine(es)
    && FinshParser.ProperLine(parser.symbols, es) && FinshParser.LineNodes(es) <= FinshParser.NODE_MAX
  }

  lemma LineParsed(parser: FinshParserTable.Parser, es: seq<FinshParser.Expr>)
    requires AtLine(parser, es)
    ensures var r := FinshParser.Statements(parser.symbols, parser.tokens, 0, 0);
            r.Parsed? && r.tree == FinshParser.LineTrees(parser.symbols, es, 0) && r.tree.Cons?
  {
    StandsAtStart(parser.tokens);
    FinshParser.LinePrinted(parser.symbols, parser.tokens, es, 0, 0);
  }

  lemma StandsAtStart(ts: seq<FinshParser.Token>)
    ensures FinshParser.StandsAt(ts, 0, ts)
  {}

  lemma OwnedIsHeld(nodes: seq<Node>, p: int, f: Forest, lo: nat, hi: nat)
    requires FinshParserTable.Owned(nodes, p, f, lo, hi)
    ensures Holds(nodes, p, f) && Distinct(f)
  {}

  /** The whole shell on one line: the tokens of proper expressions of the 32-bit fragment are parsed, checked, compiled
      and run, and the value at the bottom of the stack and the memory are what the written statements mean. */
  method Interpret(parser: FinshParserTable.Parser, compiler: Compiler, vm: Vm, ghost es: seq<FinshParser.Expr>)
    returns (result: Word)
    requires AtLine(parser, es) && parser.nodes == compiler.nodes
    requires compiler.text == vm.text && vm.text.Length == TEXT_MAX && vm.stack.Length == STACK_MAX && !compiler.error
    requires compiler.nodes.Length == 16
    requires var f := FinshParser.LineTrees(parser.symbols, es, 0);
             LongForest(f, false) && |Program(Checked(f, false))| <= TEXT_MAX
    requires FinshSemantics.Line(parser.symbols, vm.calls, es, vm.mem).Some?
    modifies parser, parser.inUse, compiler.nodes, compiler.text, compiler`pc, compiler`error, vm.stack, vm`sp, vm`pc,
             vm`mem
    ensures !parser.error && !compiler.error
    ensures old(FinshSemantics.Line(parser.symbols, vm.calls, es, vm.mem)) == Some((result, vm.mem))
    ensures result == vm.stack[0]
  {
    hide FinshParser.LineTrees, FinshParser.Statements, Checked, Program, LongForest, Meaning, FinshParserTable.Owned,
         FinshSemantics.Line;
    ghost var f := FinshParser.LineTrees(parser.symbols, es, 0);
    FinshSemantics.LineMeans(parser.symbols, vm.calls, es, 0, vm.mem);
    LineParsed(parser, es);
    var root := parser.Run();
    OwnedIsHeld(compiler.nodes[..], root, f, 0, parser.used);
    result := RunLine(compiler, vm, root, f);
  }
}
