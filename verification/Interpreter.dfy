/**
 The dispatch loop in place: stack memory is an array, the registers are fields, and each
 byte code updates them as `Machine.Step` says.
 */
module Interpreter {
  import opened Lexer
  import opened Codegen
  import opened Machine
  import F = Frames
  import M = Meaning
  import W = Words

  /**
   How a run ends: by a returned value, by a return that leaves the block's home, by the end of its
   instruction budget, or by a byte code it cannot run.
   */
  datatype Exit = Value(value: Word) | Leave(value: Word) | OutOfBudget | Trap

  class Interp {
    const code: seq<Byte>
    const literals: seq<Word>
    const mem: array<Word>
    var sp: nat
    var fp: nat
    var ip: nat
    var heap: Heap

    /** The state in which a method is entered: its code, the stack, and where its frame is. */
    constructor (code: seq<Byte>, literals: seq<Word>, mem: array<Word>, sp: nat, fp: nat, heap: Heap)
      ensures this.mem == mem && Program() == Machine.Program.Program(code, literals)
              && Now() == State(mem[..], sp, fp, 0, heap)
    {
      this.code, this.literals, this.mem := code, literals, mem;
      this.sp, this.fp, this.ip, this.heap := sp, fp, 0, heap;
    }

    function Program(): Program { Machine.Program.Program(code, literals) }

    ghost function Now(): State
      reads this, mem
    {
      State(mem[..], sp, fp, ip, heap)
    }

    /** What a step leaves: the state it says, and whether the run goes on. */
    ghost predicate Matches(exit: Exit, s: Status)
      reads this, mem
    {
      match s
      case Running(st) => exit == OutOfBudget && Now() == st
      case Returned(v, st) => exit == Value(v) && Now() == st
      case Left(v, st) => exit == Leave(v) && Now() == st
      case Stuck => exit == Trap
    }

    /** Four bytes, lowest first. */
    method FetchU32(at: nat) returns (n: nat)
      requires at + 4 <= |code|
      ensures n == ReadU32(code, at)
    {
      n := code[at] as int + 0x100 * (code[at + 1] as int) + 0x1_0000 * (code[at + 2] as int)
          + 0x100_0000 * (code[at + 3] as int);
    }

    method PushWord(v: Word, next: nat) returns (exit: Exit)
      modifies this`sp, this`ip, mem
      ensures Matches(exit, Push(old(Now()), v, next))
    {
      if sp == 0 || sp > mem.Length {
        return Trap;
      }
      ghost var was := mem[..];
      sp := sp - 1;
      mem[sp] := v;
      ip := next;
      assert mem[..] == was[sp := v];
      return OutOfBudget;
    }

    /** The arguments of a send, first one first. */
    method TakeArguments(count: nat) returns (args: seq<Word>)
      requires sp + count < mem.Length
      ensures args == Arguments(mem[..], sp, count)
    {
      args := [];
      for i := 0 to count
        invariant args == Arguments(mem[..], sp, count)[..i]
      {
        args := args + [mem[sp + count - 1 - i]];
      }
    }

    /** The stack after a send: the answer in the receiver's place, anything below it. */
    method LeaveAnswer(w: World, top: nat, v: Word)
      requires top < mem.Length
      modifies mem
      ensures mem[..] == AfterSend(w, old(mem[..]), top, v, heap)
    {
      for i := 0 to top
        invariant forall j :: 0 <= j < mem.Length ==> mem[j] == if j < i then w.scratch(heap, j) else old(mem[j])
      {
        mem[i] := w.scratch(heap, i);
      }
      mem[top] := v;
    }

    method SendMessage(w: World, n: nat, next: nat) returns (exit: Exit)
      requires 5 <= fp < mem.Length && sp < mem.Length
      modifies this, mem
      ensures Matches(exit, StepWithOperand(Program(), w, old(Now()), SEND_MESSAGE, n, next))
    {
      if next + 4 > |code| || n >= |literals| {
        return Trap;
      }
      var argc := FetchU32(next);
      if sp + argc >= mem.Length {
        return Trap;
      }
      var args := TakeArguments(argc);
      var r := w.send(literals[n], mem[sp + argc], args, heap);
      heap := r.1;
      LeaveAnswer(w, sp + argc, r.0);
      sp, ip := sp + argc, next + 4;
      return OutOfBudget;
    }

    /** A byte code that takes the top of the stack. */
    method TakeTop(w: World, op: Byte, n: nat, next: nat) returns (exit: Exit)
      requires 5 <= fp < mem.Length && sp < mem.Length
               && op !in {PUSH_LITERAL, PUSH_INST_VAR, PUSH_TEMP, PUSH_ARG, PUSH_GLOBAL, JUMP, SEND_MESSAGE}
      modifies this, mem
      ensures Matches(exit, StepWithOperand(Program(), w, old(Now()), op, n, next))
    {
      var top := mem[sp];
      if op == STORE_INST_VAR {
        heap := heap[(mem[fp - 4], n) := top];
        sp, ip := sp + 1, next;
      } else if op == STORE_TEMP {
        if n + 5 > fp {
          return Trap;
        }
        ghost var was := mem[..];
        mem[fp - 5 - n] := top;
        assert mem[..] == was[fp - 5 - n := top];
        sp, ip := sp + 1, next;
      } else if op == JUMP_IF_TRUE {
        sp, ip := sp + 1, if top == W.TRUE then n else next;
      } else if op == JUMP_IF_FALSE {
        sp, ip := sp + 1, if top == W.FALSE then n else next;
      } else {
        return Trap;
      }
      return OutOfBudget;
    }

    method WithOperand(w: World, op: Byte, n: nat, next: nat) returns (exit: Exit)
      requires 5 <= fp < mem.Length
      modifies this, mem
      ensures Matches(exit, StepWithOperand(Program(), w, old(Now()), op, n, next))
    {
      if op == PUSH_LITERAL {
        if n >= |literals| {
          return Trap;
        }
        exit := PushWord(literals[n], next);
      } else if op == PUSH_INST_VAR {
        exit := PushWord(Fetch(heap, mem[fp - 4], n), next);
      } else if op == PUSH_TEMP {
        if n + 5 > fp {
          return Trap;
        }
        exit := PushWord(mem[fp - 5 - n], next);
      } else if op == PUSH_ARG {
        var at := fp + 2 + mem[fp - 2] / 0x100 % 0x100 - 1 - n;
        if at < 0 || at >= mem.Length {
          return Trap;
        }
        exit := PushWord(mem[at], next);
      } else if op == PUSH_GLOBAL {
        if n >= |literals| || !W.IsObject(literals[n]) {
          return Trap;
        }
        exit := PushWord(Fetch(heap, literals[n], 1), next);
      } else if op == JUMP {
        ip := n;
        return OutOfBudget;
      } else if sp >= mem.Length {
        return Trap;
      } else if op == SEND_MESSAGE {
        exit := SendMessage(w, n, next);
      } else {
        exit := TakeTop(w, op, n, next);
      }
    }

    /** One byte code. */
    method StepOnce(w: World) returns (exit: Exit)
      modifies this, mem
      ensures Matches(exit, Step(Program(), w, old(Now())))
    {
      hide StepWithOperand, ReadU32;
      if ip >= |code| || fp < 5 || fp >= mem.Length {
        return Trap;
      }
      var op, next := code[ip], ip + 1;
      if op == PUSH_SELF {
        exit := PushWord(mem[fp - 4], next);
      } else if op == POP {
        if sp >= mem.Length {
          return Trap;
        }
        sp, ip := sp + 1, next;
        return OutOfBudget;
      } else if op == DUPLICATE {
        if sp >= mem.Length {
          return Trap;
        }
        exit := PushWord(mem[sp], next);
      } else if op == HALT {
        if sp >= mem.Length {
          return Trap;
        }
        ip := next;
        return Value(mem[sp]);
      } else if op == RETURN_NON_LOCAL {
        if sp >= mem.Length {
          return Trap;
        }
        ip := next;
        return Leave(mem[sp]);
      } else if op == RETURN_TOP {
        var top: nat := fp + 2 + mem[fp - 2] / 0x100 % 0x100;
        if sp >= mem.Length || top >= mem.Length {
          return Trap;
        }
        var value := mem[sp];
        ghost var was := mem[..];
        mem[top] := value;
        assert mem[..] == was[top := value];
        sp := top;
        return Value(value);
      } else if next + 4 > |code| {
        return Trap;
      } else {
        var n := FetchU32(next);
        exit := WithOperand(w, op, n, next + 4);
      }
    }

    /** Runs at most `budget` byte codes. */
    method Interpret(w: World, budget: nat) returns (exit: Exit)
      modifies this, mem
      ensures Matches(exit, Run(Program(), w, old(Now()), budget))
    {
      hide Step;
      var left: nat := budget;
      exit := OutOfBudget;
      while left > 0
        invariant left <= budget && exit == OutOfBudget
                  && Run(Program(), w, Now(), left) == Run(Program(), w, old(Now()), budget)
      {
        exit := StepOnce(w);
        if exit != OutOfBudget {
          return;
        }
        left := left - 1;
      }
    }
  }
}
