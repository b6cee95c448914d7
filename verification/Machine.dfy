/**
 The dispatch loop of the interpreter, over one activation: a downward stack of words that
 holds the frame, and byte codes with little-endian operands.  A message send is an
 arbitrary function of selector, receiver, arguments and heap; it may leave anything below
 the stack pointer.
 */
module Machine {
  import opened Lexer
  import opened Codegen
  import W = Words

  type Word = W.Word

  const JUMP_IF_TRUE: Byte := 9
  const DUPLICATE: Byte := 12
  const HALT: Byte := 13

  /** The fields of all objects. */
  type Heap = map<(Word, nat), Word>

  function Fetch(h: Heap, obj: Word, index: nat): Word {
    if (obj, index) in h then h[(obj, index)] else 0
  }

  type ObjectWord = w: Word | W.IsObject(w) witness 0

  /** What the compiled code runs against: materialized literals, sends, and what they scribble. */
  datatype World = World(
    literal: Token -> Word,
    association: string -> ObjectWord,
    send: (Word, Word, seq<Word>, Heap) -> (Word, Heap),
    scratch: (Heap, nat) -> Word)

  /** The word in the literal frame for a token of the pool. */
  function LiteralValue(w: World, t: Token): Word {
    if t.kind == Integer then W.TagSmallInt(t.value)
    else if t.kind == Character then W.TagCharacter(t.value)
    else if t.kind == ClassRef then w.association(t.text)
    else if t.kind == Identifier && t.text == "nil" then W.NIL
    else if t.kind == Identifier && t.text == "true" then W.TRUE
    else if t.kind == Identifier && t.text == "false" then W.FALSE
    else w.literal(t)
  }

  function Literals(w: World, pool: seq<Token>): seq<Word> {
    seq(|pool|, i requires 0 <= i < |pool| => LiteralValue(w, pool[i]))
  }

  /** Stack memory, stack and frame pointer (indices into it), instruction pointer, heap. */
  datatype State = State(mem: seq<Word>, sp: nat, fp: nat, ip: nat, heap: Heap)

  /** `Left` is a return from a block that is to leave its home; what becomes of it is another activation's affair. */
  datatype Status = Running(state: State) | Returned(value: Word, state: State) | Left(value: Word,
      state: State) | Stuck

  /** A method's byte codes and its materialized literals. */
  datatype Program = Program(code: seq<Byte>, literals: seq<Word>)

  function ReadU32(code: seq<Byte>, at: nat): nat
    requires at + 4 <= |code|
  {
    code[at] as int + 0x100 * (code[at + 1] as int) + 0x1_0000 * (code[at + 2] as int)
        + 0x100_0000 * (code[at + 3] as int)
  }

  lemma U32RoundTrip(code: seq<Byte>, at: nat, n: nat)
    requires at + 4 <= |code| && code[at..at + 4] == U32(n) && n < W.TWO_32
    ensures ReadU32(code, at) == n
  {
    var s := code[at..at + 4];
    assert s[0] == code[at] && s[1] == code[at + 1] && s[2] == code[at + 2] && s[3] == code[at + 3];
    BytesOf(n);
  }

  lemma BytesOf(n: nat)
    requires n < W.TWO_32
    ensures n == n % 256 + 0x100 * (n / 256 % 256) + 0x1_0000 * (n / 0x1_0000 % 256)
            + 0x100_0000 * (n / 0x100_0000 % 256)
  {
    var a, b, c := n / 256, n / 0x1_0000, n / 0x100_0000;
    assert b == a / 256 && c == b / 256 && c < 256;
  }

  function Push(m: State, v: Word, ip: nat): Status {
    if 0 < m.sp <= |m.mem| then Running(m.(mem := m.mem[m.sp - 1 := v], sp := m.sp - 1, ip := ip)) else Stuck
  }

  function ArgCount(m: State): nat
    requires 2 <= m.fp <= |m.mem|
  {
    m.mem[m.fp - 2] / 0x100 % 0x100
  }

  /** Stack memory after a send that leaves `v` at `top`. */
  function AfterSend(w: World, mem: seq<Word>, top: nat, v: Word, heap: Heap): (r: seq<Word>)
    requires top < |mem|
    ensures |r| == |mem| && r[top] == v && r[top + 1..] == mem[top + 1..]
  {
    seq(|mem|, i requires 0 <= i < |mem| => WordAfterSend(w, mem, top, v, heap, i))
  }

  function WordAfterSend(w: World, mem: seq<Word>, top: nat, v: Word, heap: Heap, i: nat): Word
    requires i < |mem|
  {
    if i < top then w.scratch(heap, i) else if i == top then v else mem[i]
  }

  /** The arguments of a send, first argument first: it was pushed first and lies highest. */
  function Arguments(mem: seq<Word>, sp: nat, count: nat): seq<Word>
    requires sp + count <= |mem|
  {
    seq(count, i requires 0 <= i < count => mem[sp + count - 1 - i])
  }

  function Step(p: Program, w: World, m: State): Status {
    if m.ip >= |p.code| || m.fp < 5 || m.fp >= |m.mem| then Stuck
    else
      var op := p.code[m.ip];
      var next := m.ip + 1;
      if op == PUSH_SELF then Push(m, m.mem[m.fp - 4], next)
      else if op == POP then if m.sp < |m.mem| then Running(m.(sp := m.sp + 1, ip := next)) else Stuck
      else if op == DUPLICATE then if m.sp < |m.mem| then Push(m, m.mem[m.sp], next) else Stuck
      else if op == HALT then if m.sp < |m.mem| then Returned(m.mem[m.sp], m.(ip := next)) else Stuck
      else if op == RETURN_NON_LOCAL then
        if m.sp < |m.mem| then Left(m.mem[m.sp], m.(ip := next)) else Stuck
      else if op == RETURN_TOP then
        var top := m.fp + 2 + ArgCount(m);
        if m.sp < |m.mem| && top < |m.mem| then
          Returned(m.mem[m.sp], m.(mem := m.mem[top := m.mem[m.sp]], sp := top))
        else Stuck
      else if next + 4 > |p.code| then Stuck
      else
        var n := ReadU32(p.code, next);
        StepWithOperand(p, w, m, op, n, next + 4)
  }

  function StepWithOperand(p: Program, w: World, m: State, op: Byte, n: nat, next: nat): Status
    requires 5 <= m.fp < |m.mem|
  {
    if op == PUSH_LITERAL then if n < |p.literals| then Push(m, p.literals[n], next) else Stuck
    else if op == PUSH_INST_VAR then Push(m, Fetch(m.heap, m.mem[m.fp - 4], n), next)
    else if op == PUSH_TEMP then if n + 5 <= m.fp then Push(m, m.mem[m.fp - 5 - n], next) else Stuck
    else if op == PUSH_ARG then
      var at := m.fp + 2 + ArgCount(m) - 1 - n;
      if 0 <= at < |m.mem| then Push(m, m.mem[at], next) else Stuck
    else if op == PUSH_GLOBAL then
      if n < |p.literals| && W.IsObject(p.literals[n]) then Push(m, Fetch(m.heap, p.literals[n], 1), next) else Stuck
    else if op == JUMP then Running(m.(ip := n))
    else if m.sp >= |m.mem| then Stuck
    else
      var top := m.mem[m.sp];
      if op == STORE_INST_VAR then
        Running(m.(sp := m.sp + 1, ip := next, heap := m.heap[(m.mem[m.fp - 4], n) := top]))
      else if op == STORE_TEMP then
        if n + 5 <= m.fp then Running(m.(mem := m.mem[m.fp - 5 - n := top], sp := m.sp + 1, ip := next)) else Stuck
      else if op == JUMP_IF_TRUE then Running(m.(sp := m.sp + 1, ip := if top == W.TRUE then n else next))
      else if op == JUMP_IF_FALSE then Running(m.(sp := m.sp + 1, ip := if top == W.FALSE then n else next))
      else if op == SEND_MESSAGE then
        if next + 4 > |p.code| || n >= |p.literals| then Stuck
        else
          var argc := ReadU32(p.code, next);
          if m.sp + argc >= |m.mem| then Stuck
          else
            var r := w.send(p.literals[n], m.mem[m.sp + argc], Arguments(m.mem, m.sp, argc), m.heap);
            Running(State(AfterSend(w, m.mem, m.sp + argc, r.0, r.1), m.sp + argc, m.fp, next + 4, r.1))
      else Stuck
  }

  /** At most `k` instructions. */
  function Run(p: Program, w: World, m: State, k: nat): Status
    decreases k
  {
    if k == 0 then Running(m)
    else
      var s := Step(p, w, m);
      if s.Running? then Run(p, w, s.state, k - 1) else s
  }

  lemma OneStep(p: Program, w: World, m: State, op: Byte, n: nat)
    requires 5 <= m.fp < |m.mem| && m.ip + 5 <= |p.code| && p.code[m.ip] == op && ReadU32(p.code, m.ip + 1) == n
    requires op !in {PUSH_SELF, POP, DUPLICATE, HALT, RETURN_TOP, RETURN_NON_LOCAL}
    ensures Step(p, w, m) == StepWithOperand(p, w, m, op, n, m.ip + 5)
  {
    hide StepWithOperand, ReadU32;
  }

  /** Both jumps take the top word; one goes on exactly 0x07, the other exactly 0x0B. */
  lemma Branches(p: Program, w: World, m: State, n: nat)
    requires 5 <= m.fp < |m.mem| && m.sp < |m.mem| && m.ip + 5 <= |p.code| && ReadU32(p.code, m.ip + 1) == n
    ensures p.code[m.ip] == 9 ==>
              Step(p, w, m) == Running(m.(sp := m.sp + 1, ip := if m.mem[m.sp] == 0x07 then n else m.ip + 5))
    ensures p.code[m.ip] == 10 ==>
              Step(p, w, m) == Running(m.(sp := m.sp + 1, ip := if m.mem[m.sp] == 0x0B then n else m.ip + 5))
  {
    hide ReadU32;
  }

  /** A duplicate dropped leaves the stack as it was. */
  lemma DuplicateDropped(p: Program, w: World, m: State)
    requires 5 <= m.fp < |m.mem| && 0 < m.sp < |m.mem| && m.ip + 2 <= |p.code|
    requires p.code[m.ip] == 12 && p.code[m.ip + 1] == 11
    ensures var s := Step(p, w, m);
            && s.Running? && s.state.sp + 1 == m.sp && s.state.mem[s.state.sp] == m.mem[m.sp]
            && var d := Step(p, w, s.state);
               d.Running? && d.state.sp == m.sp && d.state.heap == m.heap && d.state.mem[m.sp..] == m.mem[m.sp..]
  {
  }

  /** The end of the entry code answers the top word, and leaves it. */
  lemma Halts(p: Program, w: World, m: State)
    requires 5 <= m.fp < |m.mem| && m.sp < |m.mem| && m.ip < |p.code| && p.code[m.ip] == 13
    ensures Step(p, w, m) == Returned(m.mem[m.sp], m.(ip := m.ip + 1))
  {
  }

  lemma RunOne(p: Program, w: World, m: State, m1: State)
    requires Step(p, w, m) == Running(m1)
    ensures Run(p, w, m, 1) == Running(m1)
  {
    hide Step;
    assert Run(p, w, m1, 0) == Running(m1);
  }

  lemma {:induction false} RunSplit(p: Program, w: World, m: State, a: nat, b: nat)
    requires Run(p, w, m, a).Running?
    ensures Run(p, w, m, a + b) == Run(p, w, Run(p, w, m, a).state, b)
    decreases a
  {
    hide Step;
    if a > 0 {
      RunSplit(p, w, Step(p, w, m).state, a - 1, b);
    }
  }

  /** Once a run has ended, more instructions do not change how. */
  lemma {:induction false} RunEnded(p: Program, w: World, m: State, a: nat, b: nat)
    requires !Run(p, w, m, a).Running? && a <= b
    ensures Run(p, w, m, b) == Run(p, w, m, a)
    decreases a
  {
    hide Step;
    var s := Step(p, w, m);
    if s.Running? {
      RunEnded(p, w, s.state, a - 1, b - 1);
    }
  }
}
