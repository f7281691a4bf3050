/**
 The virtual machine of the shell: a stack of cells and a text segment that are updated in place,
 and the loop that fetches an opcode and dispatches it.
 */
module FinshVm {
  import opened FinshTree
  import opened FinshMachine

  class Vm {
    const calls: Calls
    const text: array<Byte>
    const stack: array<Word>
    var sp: nat
    var pc: nat
    var mem: Memory

    constructor (calls: Calls, text: array<Byte>, mem: Memory)
      ensures this.calls == calls && this.text == text && this.mem == mem
      ensures stack.Length == STACK_MAX && fresh(stack) && sp == 0 && pc == 0
    {
      this.calls, this.text, this.mem := calls, text, mem;
      stack := new Word[STACK_MAX](_ => 0);
      sp, pc := 0, 0;
    }

    ghost predicate Valid()
      reads this, stack
    {
      sp <= stack.Length
    }

    ghost function Live(): seq<Word>
      reads this, stack
      requires Valid()
    {
      stack[..sp]
    }

    ghost function View(): State
      reads this, stack
      requires Valid()
    {
      State(pc, Live(), mem)
    }

    ghost function M(): Machine
      reads this, stack
    {
      Machine(calls, stack.Length)
    }

    // ---- Operations ----

    method PushWord(x: Word)
      requires Valid() && sp < stack.Length
      modifies stack, `sp
      ensures Valid() && Live() == old(Live()) + [x]
    {
      stack[sp] := x;
      sp := sp + 1;
    }

    method ReplaceTop(x: Word)
      requires Valid() && sp >= 1
      modifies stack
      ensures Valid() && Live() == old(Live())[..sp - 1] + [x]
    {
      stack[sp - 1] := x;
    }

    method OpBinary(op: BinOp)
      requires Valid() && sp >= 2 && Arith(op, stack[sp - 2], stack[sp - 1]).Some?
      modifies stack, `sp
      ensures Valid() && Live() == old(Live())[..old(sp) - 2] + [old(Arith(op, stack[sp - 2], stack[sp - 1])).value]
    {
      hide Arith;
      stack[sp - 2] := Arith(op, stack[sp - 2], stack[sp - 1]).value;
      sp := sp - 1;
    }

    method OpStore()
      requires Valid() && sp >= 2
      modifies `sp, `mem
      ensures Valid() && Live() == old(Live())[..old(sp) - 1]
      ensures mem == old(Store(mem, stack[sp - 2], stack[sp - 1]))
    {
      mem := Store(mem, stack[sp - 2], stack[sp - 1]);
      sp := sp - 1;
    }

    method OpPop()
      requires Valid() && sp >= 1
      modifies `sp
      ensures Valid() && Live() == old(Live())[..old(sp) - 1]
    {
      sp := sp - 1;
    }

    /** Collect the parameters from the last to the first, then replace the function by its result. */
    method OpCall(parameters: nat)
      requires Valid() && sp >= parameters + 1 && parameters <= 16
      modifies stack, `sp, `mem
      ensures Valid() && sp == old(sp) - parameters
      ensures var r := calls(old(stack[sp - 1 - parameters]), old(stack[sp - parameters..sp]), old(mem));
              Live() == old(Live())[..old(sp) - 1 - parameters] + [r.0] && mem == r.1
    {
      var parameterv: seq<Word> := [];
      var i := 0;
      sp := sp - 1;
      while i < parameters
        invariant 0 <= i <= parameters && sp == old(sp) - 1 - i
        invariant parameterv == stack[sp + 1..old(sp)]
        invariant stack[..] == old(stack[..]) && mem == old(mem)
      {
        parameterv := [stack[sp]] + parameterv;
        sp := sp - 1;
        i := i + 1;
      }
      assert parameterv == old(stack[..])[old(sp) - parameters..old(sp)] == old(stack[sp - parameters..sp]);
      assert stack[sp] == old(stack[..])[sp] == old(stack[sp - 1 - parameters]);
      var (r, mem') := calls(stack[sp], parameterv, mem);
      mem := mem';
      stack[sp] := r;
      sp := sp + 1;
    }

    method FetchDword() returns (x: Word)
      requires pc + 4 <= text.Length
      modifies `pc
      ensures x == Operand(text[..], old(pc)) && pc == old(pc) + 4
    {
      x := Assemble(text[pc], text[pc + 1], text[pc + 2], text[pc + 3]);
      pc := pc + 4;
    }

    /** One operation of the table, the program counter being just behind its opcode. */
    method Execute(i: Instr)
      requires Valid() && pc + OperandLength(i) <= text.Length
      requires Effect(M(), i, OperandOf(i, text[..], pc), Live(), mem).Some?
      modifies stack, `sp, `pc, `mem
      ensures Valid() && pc == old(pc) + OperandLength(i)
      ensures (Live(), mem) == old(Effect(M(), i, OperandOf(i, text[..], pc), Live(), mem)).value
    {
      hide Arith, Load, Store, Assemble, Wrap, Decode, FinshMachine.Complement;
      match i {
        case Nop =>
        case Push =>
          var x := FetchDword();
          PushWord(x);
        case PushLoad =>
          var x := FetchDword();
          PushWord(Load(mem, x));
        case LoadTop => ReplaceTop(Load(mem, stack[sp - 1]));
        case StoreTop => OpStore();
        case Drop => OpPop();
        case Invert => ReplaceTop(FinshMachine.Complement(stack[sp - 1]));
        case Binary(op) => OpBinary(op);
        case Call =>
          var parameters := text[pc];
          pc := pc + 1;
          OpCall(parameters);
        case Unsupported => assert false;
      }
    }
 
    /** One round of the fetch loop. */
    method Cycle()
      requires Valid() && pc < text.Length
      requires FinshMachine.Step(M(), text[..], View()).Some?
      modifies stack, `sp, `pc, `mem
      ensures Valid() && View() == old(FinshMachine.Step(M(), text[..], View()).value)
    {
      hide Effect, Decode, Operand;
      var op := text[pc];
      pc := pc + 1;
      Execute(Decode(op));
    }

    /** Run the text from its start to its end. */
    method Run()
      requires Exec(M(), text[..], State(0, [], mem), text.Length).Some?
      modifies stack, `sp, `pc, `mem
      ensures Valid() && View() == old(Exec(M(), text[..], State(0, [], mem), text.Length)).value
    {
      hide Step;
      sp, pc := 0, 0;
      while pc < text.Length
        invariant Valid()
        invariant Exec(M(), text[..], View(), text.Length) == old(Exec(M(), text[..], State(0, [], mem), text.Length))
        decreases text.Length - pc
      {
        Cycle();
      }
    }

    method StackBottom() returns (x: Word)
      requires stack.Length > 0
      ensures x == stack[0]
    {
      x := stack[0];
    }
  }

  function OperandOf(i: Instr, text: seq<Byte>, pc: nat): Word
    requires pc + OperandLength(i) <= |text|
  {
    if OperandLength(i) == 4 then Operand(text, pc) else if i.Call? then text[pc] else 0
  }
}
