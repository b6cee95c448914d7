/**
 Direct evaluation of method bodies by name, and the proof that the emitted byte codes,
 patched jumps included, compute the same result and the same stores.
 */
module Meaning {
  import opened Lexer
  import opened Codegen
  import opened Trees
  import opened Programs
  import opened Machine
  import C = Captures
  import opened Stores
  import W = Words

  // ----------------------------------------------------------------- evaluation

  /** The receiver and what each name in scope stands for. */
  datatype Vars = Vars(receiver: Word, named: map<string, Word>)

  /** `thisContext` needs a context object; it is not evaluated here. */
  predicate NoContext(t: Term) {
    match t
    case Leaf(token) => token.kind != Identifier || token.text != "thisContext"
    case Send(receiver, _, args) => NoContext(receiver) && NoContextArgs(args)
  }

  predicate NoContextArgs(a: Args) {
    a.NoArgs? || (NoContextArgs(a.front) && NoContext(a.last))
  }

  /** The value of a name or literal: variables, then fields, then globals. */
  function EvalLeaf(t: Token, w: World, v: Vars, ivars: seq<string>, h: Heap): Word {
    if t.kind == Integer then W.TagSmallInt(t.value)
    else if t.kind == Character then W.TagCharacter(t.value)
    else if t.kind == ClassRef then w.association(t.text)
    else if t.kind != Identifier then w.literal(t)
    else if t.text == "self" || t.text == "super" then v.receiver
    else if t.text == "nil" then W.NIL
    else if t.text == "true" then W.TRUE
    else if t.text == "false" then W.FALSE
    else if t.text in v.named then v.named[t.text]
    else if t.text in ivars then Fetch(h, v.receiver, Find(ivars, t.text))
    else Fetch(h, w.association(t.text), 1)
  }

  function Selector(w: World, selector: string): Word {
    w.literal(Token(Kind.Selector, Clip(selector, TEXT_MAX), 0))
  }

  function Eval(t: Term, w: World, v: Vars, ivars: seq<string>, h: Heap): (Word, Heap) {
    match t
    case Leaf(token) => (EvalLeaf(token, w, v, ivars, h), h)
    case Send(receiver, selector, args) =>
      var r := Eval(receiver, w, v, ivars, h);
      var a := EvalArgs(args, w, v, ivars, r.1);
      w.send(Selector(w, selector), r.0, a.0, a.1)
  }

  function EvalArgs(a: Args, w: World, v: Vars, ivars: seq<string>, h: Heap): (r: (seq<Word>, Heap))
    ensures |r.0| == Count(a)
  {
    match a
    case NoArgs => ([], h)
    case Plus(front, last) =>
      var f := EvalArgs(front, w, v, ivars, h);
      var l := Eval(last, w, v, ivars, f.1);
      (f.0 + [l.0], l.1)
  }

  // ----------------------------------------------------------------- the frame

  /** The frame at `m.fp` holds the variables of a scope and those around it. */
  ghost predicate FrameHolds(m: State, v: Vars, cx: Context) {
    && FrameFor(cx, m) && m.mem[m.fp - 4] == v.receiver && C.Nested(cx.scope, cx.outers)
    && forall name :: (name in v.named <==> C.Resolve(cx.scope, cx.outers, name).Found?)
                      && (name in v.named ==> Holds(m, name, v.named[name], cx))
  }

  /** A variable's place in the frame holds this value. */
  ghost predicate Holds(m: State, name: string, x: Word, cx: Context)
    requires FrameFor(cx, m) && C.Nested(cx.scope, cx.outers)
  {
    C.Resolve(cx.scope, cx.outers, name).Found? && (ReadPlaceIn(name, cx); WordAt(m, ReadPlace(name, cx)) == x)
  }

  /** The program holds the code and the literals that were emitted between two outputs. */
  predicate Loaded(p: Program, w: World, pool: seq<Token>, st: Output, st1: Output) {
    && |st.code| <= |st1.code| <= |p.code| <= CODE_MAX
    && p.code[|st.code|..|st1.code|] == st1.code[|st.code|..]
    && st1.pool <= pool && |pool| <= POOL_MAX && p.literals == Literals(w, pool)
  }

  lemma LoadedParts(p: Program, w: World, pool: seq<Token>, st: Output, mid: Output, st1: Output)
    requires Loaded(p, w, pool, st, st1) && Grows(st, mid) && Grows(mid, st1)
    ensures Loaded(p, w, pool, st, mid) && Loaded(p, w, pool, mid, st1)
  {
    Part(p.code, |st.code|, |st.code|, |mid.code|, |st1.code|);
    Part(p.code, |st.code|, |mid.code|, |st1.code|, |st1.code|);
    Part(st1.code, |st.code|, |st.code|, |mid.code|, |st1.code|);
    Part(st1.code, |st.code|, |mid.code|, |st1.code|, |st1.code|);
    assert mid.code[|st.code|..] == st1.code[|st.code|..|mid.code|];
  }

  lemma Part<T>(s: seq<T>, a: nat, b: nat, c: nat, d: nat)
    requires a <= b <= c <= d <= |s|
    ensures s[a..d][b - a..c - a] == s[b..c]
  {
    var x, y := s[a..d][b - a..c - a], s[b..c];
    assert |x| == |y| && forall i :: 0 <= i < |y| ==> x[i] == y[i];
  }

  /** The instruction that one emission has put at the end of the code. */
  lemma Emitted(p: Program, w: World, pool: seq<Token>, st: Output, bytes: seq<Byte>, st1: Output)
    requires Emit([], st, bytes) == Ok([], st1) && Loaded(p, w, pool, st, st1)
    ensures |st1.code| == |st.code| + |bytes| && p.code[|st.code|..|st.code| + |bytes|] == bytes
  {
    assert st1.code[|st.code|..] == bytes;
  }

  /** An opcode and its operand, read back. */
  lemma Operand(code: seq<Byte>, at: nat, op: Byte, n: nat, more: seq<Byte>)
    requires at + 5 + |more| <= |code| && code[at..at + 5 + |more|] == [op] + U32(n) + more && n < W.TWO_32
    ensures code[at] == op && ReadU32(code, at + 1) == n
    ensures code[at + 5..at + 5 + |more|] == more
  {
    var end := at + 5 + |more|;
    var s := code[at..end];
    assert s[0] == code[at];
    Part(code, at, at + 1, at + 5, end);
    assert s[1..5] == U32(n);
    U32RoundTrip(code, at + 1, n);
    Part(code, at, at + 5, end, end);
    assert s[5..5 + |more|] == more;
  }

  /** A one-operand instruction at the end of an emission, read back. */
  lemma SlotLoaded(op: Byte, n: nat, p: Program, w: World, pool: seq<Token>, st: Output, st1: Output)
    requires Emit([], st, [op] + U32(n)) == Ok([], st1) && Loaded(p, w, pool, st, st1) && n < W.TWO_32
    ensures |st1.code| == |st.code| + 5 <= |p.code|
    ensures p.code[|st.code|] == op && ReadU32(p.code, |st.code| + 1) == n
  {
    hide U32, ReadU32;
    Emitted(p, w, pool, st, [op] + U32(n), st1);
    assert [op] + U32(n) == [op] + U32(n) + [];
    Operand(p.code, |st.code|, op, n, []);
  }

  /** A literal instruction refers to its literal in every pool that grows from its own. */
  lemma PoolEntry(w: World, pool: seq<Token>, before: seq<Token>, t: Token)
    requires Interned(before, t) <= pool && |pool| <= POOL_MAX
    ensures FindLiteral(before, t) < |pool| && Literals(w, pool)[FindLiteral(before, t)] == LiteralValue(w, t)
  {
  }

  /** What every expression and statement leaves alone: the frame and the stack above `from`. */
  predicate SameAbove(m: State, m1: State, from: nat) {
    |m1.mem| == |m.mem| && m1.fp == m.fp && (forall i :: from <= i < |m.mem| ==> m1.mem[i] == m.mem[i])
  }

  lemma FrameKept(m: State, m1: State, v: Vars, cx: Context)
    requires FrameHolds(m, v, cx) && SameAbove(m, m1, m.sp) && m1.sp <= m.sp
    ensures FrameHolds(m1, v, cx)
  {
    hide Holds, C.Nested, C.Resolve, SlotCount;
    forall name | name in v.named ensures Holds(m1, name, v.named[name], cx) {
      HeldAlike(m, m1, name, v.named[name], cx);
    }
  }

  lemma HeldAlike(m: State, m1: State, name: string, x: Word, cx: Context)
    requires FrameFor(cx, m) && FrameFor(cx, m1) && C.Nested(cx.scope, cx.outers) && Holds(m, name, x, cx)
    requires SameAbove(m, m1, m.sp)
    ensures Holds(m1, name, x, cx)
  {
    ReadPlaceIn(name, cx);
    hide ReadPlace, SlotCount, C.Nested;
  }

  // ----------------------------------------------------------------- expressions

  /** The stack words that evaluating a term needs. */
  function Need(t: Term): nat {
    match t
    case Leaf(_) => 1
    case Send(receiver, _, args) => Max(Need(receiver), 1 + NeedArgs(args))
  }

  function NeedArgs(a: Args): nat {
    match a
    case NoArgs => 0
    case Plus(front, last) => Max(NeedArgs(front), Count(front) + Need(last))
  }

  function Max(a: nat, b: nat): nat { if a < b then b else a }

  /** `m1` is `m` with one more value on its stack. */
  predicate Pushed(m: State, m1: State, value: Word, ip: nat, heap: Heap) {
    && 0 < m.sp <= |m.mem| && m1.sp == m.sp - 1 && SameAbove(m, m1, m.sp) && m1.mem[m1.sp] == value
    && m1.ip == ip && m1.heap == heap
  }

  /** A one-operand instruction that pushes. */
  lemma PushStep(p: Program, w: World, m: State, op: Byte, n: nat, value: Word) returns (m1: State)
    requires 5 <= m.fp < |m.mem| && 0 < m.sp <= |m.mem|
    requires m.ip + 5 <= |p.code| && p.code[m.ip] == op && ReadU32(p.code, m.ip + 1) == n
    requires op in {PUSH_LITERAL, PUSH_INST_VAR, PUSH_TEMP, PUSH_ARG, PUSH_GLOBAL}
    requires StepWithOperand(p, w, m, op, n, m.ip + 5) == Push(m, value, m.ip + 5)
    ensures Run(p, w, m, 1) == Running(m1) && Pushed(m, m1, value, m.ip + 5, m.heap)
  {
    m1 := m.(mem := m.mem[m.sp - 1 := value], sp := m.sp - 1, ip := m.ip + 5);
    assert Step(p, w, m) == Running(m1);
    assert Run(p, w, m1, 0) == Running(m1);
  }

  /** The operand part of a name or literal, and the value its instruction pushes. */
  lemma LiteralStep(t: Token, op: Byte, p: Program, w: World, pool: seq<Token>, st: Output, st1: Output, m: State,
                    value: Word) returns (m1: State)
    requires EmitRef([], st, op, t, []) == Ok([], st1) && Loaded(p, w, pool, st, st1) && m.ip == |st.code|
    requires op == PUSH_LITERAL || (op == PUSH_GLOBAL && W.IsObject(LiteralValue(w, t)))
    requires value == if op == PUSH_LITERAL then LiteralValue(w, t) else Fetch(m.heap, LiteralValue(w, t), 1)
    requires 5 <= m.fp < |m.mem| && 0 < m.sp <= |m.mem|
    ensures Run(p, w, m, 1) == Running(m1) && Pushed(m, m1, value, |st1.code|, m.heap)
  {
    var n := FindLiteral(st.pool, t);
    var bytes := [op] + U32(n) + [];
    Emitted(p, w, pool, st.(pool := Interned(st.pool, t)), bytes, st1);
    Operand(p.code, m.ip, op, n, []);
    PoolEntry(w, pool, st.pool, t);
    m1 := PushStep(p, w, m, op, n, value);
  }

  lemma SlotStep(op: Byte, n: nat, p: Program, w: World, pool: seq<Token>, st: Output, st1: Output, m: State,
                 value: Word) returns (m1: State)
    requires Emit([], st, [op] + U32(n)) == Ok([], st1) && Loaded(p, w, pool, st, st1) && m.ip == |st.code|
             && n < W.TWO_32
    requires 5 <= m.fp < |m.mem| && 0 < m.sp <= |m.mem|
    requires op in {PUSH_INST_VAR, PUSH_TEMP, PUSH_ARG}
    requires StepWithOperand(p, w, m, op, n, m.ip + 5) == Push(m, value, m.ip + 5)
    ensures Run(p, w, m, 1) == Running(m1) && Pushed(m, m1, value, |st1.code|, m.heap)
  {
    hide StepWithOperand;
    SlotLoaded(op, n, p, w, pool, st, st1);
    m1 := PushStep(p, w, m, op, n, value);
  }

  lemma SelfStep(p: Program, w: World, pool: seq<Token>, st: Output, st1: Output, m: State) returns (m1: State)
    requires Emit([], st, [PUSH_SELF]) == Ok([], st1) && Loaded(p, w, pool, st, st1) && m.ip == |st.code|
    requires 5 <= m.fp < |m.mem| && 0 < m.sp <= |m.mem|
    ensures Run(p, w, m, 1) == Running(m1) && Pushed(m, m1, m.mem[m.fp - 4], |st1.code|, m.heap)
  {
    Emitted(p, w, pool, st, [PUSH_SELF], st1);
    assert p.code[m.ip..m.ip + 1][0] == p.code[m.ip];
    m1 := m.(mem := m.mem[m.sp - 1 := m.mem[m.fp - 4]], sp := m.sp - 1, ip := m.ip + 1);
    assert Step(p, w, m) == Running(m1);
    assert Run(p, w, m1, 0) == Running(m1);
  }

  /** A variable or a field, whose push the compiler emits at the end of the code. */
  lemma VisibleStep(name: string, t: Token, p: Program, w: World, pool: seq<Token>, st: Output, st1: Output, m: State,
                    v: Vars, cx: Context)
    returns (m1: State)
    requires Scoped(cx) && t.kind == Identifier && t.text == name && Readable(name, cx)
    requires EmitAtom(t, [], st, cx) == Ok([], st1) && Loaded(p, w, pool, st, st1) && m.ip == |st.code|
    requires FrameFor(cx, m) && m.sp >= 1
    ensures Run(p, w, m, 1) == Running(m1) && PlaceIn(ReadPlace(name, cx), cx)
            && Pushed(m, m1, WordAt(m, ReadPlace(name, cx)), |st1.code|, m.heap)
  {
    hide Run, Step, Loaded, U32, ReadPlace, Visible, SlotCount, EmitAtom, Emit;
    ReadPlaceIn(name, cx);
    PushEmitted(t, st, cx);
    var place := ReadPlace(name, cx);
    m1 := SlotStep(PushOp(place), place.n, p, w, pool, st, st1, m, WordAt(m, place));
  }

  lemma RunLeaf(t: Token, p: Program, w: World, pool: seq<Token>, st: Output, st1: Output, m: State, v: Vars,
                cx: Context) returns (m1: State)
    requires Scoped(cx) && NoContext(Leaf(t))
    requires EmitAtom(t, [], st, cx) == Ok([], st1) && Loaded(p, w, pool, st, st1) && m.ip == |st.code|
    requires FrameHolds(m, v, cx) && m.sp >= 1
    ensures Run(p, w, m, 1) == Running(m1) && Pushed(m, m1, EvalLeaf(t, w, v, cx.ivars, m.heap), |st1.code|, m.heap)
  {
    hide Run, Step, Emit, EmitRef, Loaded, U32, ReadPlace, C.Nested, SlotCount;
    if t.kind != Identifier || t.text in {"nil", "true", "false"} {
      m1 := LiteralStep(t, PUSH_LITERAL, p, w, pool, st, st1, m, LiteralValue(w, t));
    } else if t.text in {"self", "super"} {
      m1 := SelfStep(p, w, pool, st, st1, m);
    } else if Visible(t.text, cx) {
      m1 := VisibleStep(t.text, t, p, w, pool, st, st1, m, v, cx);
      VisibleValue(t, w, m, v, cx);
    } else {
      NotVisible(t, st, cx);
      var r := Token(ClassRef, t.text, 0);
      m1 := LiteralStep(r, PUSH_GLOBAL, p, w, pool, st, st1, m, Fetch(m.heap, w.association(t.text), 1));
    }
  }

  lemma VisibleValue(t: Token, w: World, m: State, v: Vars, cx: Context)
    requires t.kind == Identifier && Readable(t.text, cx) && FrameHolds(m, v, cx)
    ensures PlaceIn(ReadPlace(t.text, cx), cx)
            && WordAt(m, ReadPlace(t.text, cx)) == EvalLeaf(t, w, v, cx.ivars, m.heap)
  {
    ReadPlaceIn(t.text, cx);
    hide C.Resolve, C.Nested;
  }

  lemma NotVisible(t: Token, st: Output, cx: Context)
    requires t.kind == Identifier && !Reserved(t.text) && !Visible(t.text, cx)
    ensures EmitAtom(t, [], st, cx) == EmitRef([], st, PUSH_GLOBAL, Token(ClassRef, t.text, 0), [])
  {
    hide U32, EmitRef;
    C.ArgFound(cx.outers, t.text);
    C.TempFound(cx.outers, t.text);
  }

  /** `m1` is `m` with the values of an argument list on its stack, the first one highest. */
  predicate PushedAll(m: State, m1: State, values: seq<Word>, ip: nat, heap: Heap) {
    && |values| <= m.sp <= |m.mem| && m1.sp == m.sp - |values| && SameAbove(m, m1, m.sp)
    && (forall i :: 0 <= i < |values| ==> m1.mem[m.sp - 1 - i] == values[i])
    && m1.ip == ip && m1.heap == heap
  }

  /** Every argument emits at least one byte, so there are fewer of them than code bytes. */
  lemma {:induction false} CountBound(a: Args, st: Output, st1: Output, cx: Context)
    requires GenArgs(a, st, cx) == Ok([], st1)
    ensures Count(a) <= |st1.code| - |st.code|
    decreases a
  {
    if a.Plus? {
      var f := GenArgs(a.front, st, cx);
      CountBound(a.front, st, f.out, cx);
      GenEmits(a.last, f.out, st1, cx);
    }
  }

  lemma {:induction false} GenEmits(t: Term, st: Output, st1: Output, cx: Context)
    requires Gen(t, st, cx) == Ok([], st1)
    ensures |st.code| < |st1.code| <= CODE_MAX
    decreases t
  {
    match t
    case Leaf(token) =>
      hide Find, OuterArgSlot, OuterTempSlot, TempSlot, U32;
    case Send(receiver, selector, args) =>
      var r := Gen(receiver, st, cx);
      GenEmits(receiver, st, r.out, cx);
  }

  lemma PushedRoom(m: State, b: State, values: seq<Word>, ip: nat, heap: Heap)
    requires PushedAll(m, b, values, ip, heap)
    ensures b.sp == m.sp - |values| && b.ip == ip && b.heap == heap && PushedAll(m, b, values, b.ip, b.heap)
  {
  }

  lemma PushedOneMore(m: State, b: State, c: State, values: seq<Word>, x: Word, ip: nat, heap: Heap)
    requires PushedAll(m, b, values, b.ip, b.heap) && Pushed(b, c, x, ip, heap)
    ensures PushedAll(m, c, values + [x], ip, heap)
  {
  }

  /** The send itself: it takes the receiver and the arguments and leaves the answer. */
  lemma SendStep(selector: string, argc: nat, p: Program, w: World, pool: seq<Token>, st: Output, st1: Output, m: State)
    returns (m1: State)
    requires EmitSend([], st, selector, argc) == Ok([], st1) && Loaded(p, w, pool, st, st1) && m.ip == |st.code|
    requires argc < W.TWO_32 && 5 <= m.fp < |m.mem| && m.sp + argc < |m.mem|
    ensures var r := w.send(Selector(w, selector), m.mem[m.sp + argc], Arguments(m.mem, m.sp, argc), m.heap);
            && Run(p, w, m, 1) == Running(m1) && m1.sp == m.sp + argc && m1.fp == m.fp && |m1.mem| == |m.mem|
            && m1.mem[m1.sp] == r.0 && m1.heap == r.1 && m1.ip == |st1.code|
            && forall i :: m1.sp < i < |m.mem| ==> m1.mem[i] == m.mem[i]
  {
    hide AfterSend, Step, StepWithOperand;
    var t := Token(Kind.Selector, Clip(selector, TEXT_MAX), 0);
    var n := FindLiteral(st.pool, t);
    Emitted(p, w, pool, st.(pool := Interned(st.pool, t)), [SEND_MESSAGE] + U32(n) + U32(argc), st1);
    Operand(p.code, m.ip, SEND_MESSAGE, n, U32(argc));
    U32RoundTrip(p.code, m.ip + 5, argc);
    PoolEntry(w, pool, st.pool, t);
    m1 := DoSend(p, w, m, n, argc);
  }

  lemma DoSend(p: Program, w: World, m: State, n: nat, argc: nat) returns (m1: State)
    requires 5 <= m.fp < |m.mem| && m.sp + argc < |m.mem| && n < |p.literals|
    requires m.ip + 9 <= |p.code| && p.code[m.ip] == SEND_MESSAGE
    requires ReadU32(p.code, m.ip + 1) == n && ReadU32(p.code, m.ip + 5) == argc
    ensures var r := w.send(p.literals[n], m.mem[m.sp + argc], Arguments(m.mem, m.sp, argc), m.heap);
            && Run(p, w, m, 1) == Running(m1) && m1.sp == m.sp + argc && m1.fp == m.fp && |m1.mem| == |m.mem|
            && m1.mem[m1.sp] == r.0 && m1.heap == r.1 && m1.ip == m.ip + 9
            && forall i :: m1.sp < i < |m.mem| ==> m1.mem[i] == m.mem[i]
  {
    hide AfterSend, ReadU32, Arguments;
    var r := w.send(p.literals[n], m.mem[m.sp + argc], Arguments(m.mem, m.sp, argc), m.heap);
    var after := AfterSend(w, m.mem, m.sp + argc, r.0, r.1);
    m1 := State(after, m.sp + argc, m.fp, m.ip + 9, r.1);
    assert Step(p, w, m) == Running(m1);
    assert Run(p, w, m1, 0) == Running(m1);
    forall i | m1.sp < i < |m.mem| ensures m1.mem[i] == m.mem[i] {
      assert after[m1.sp + 1..][i - m1.sp - 1] == after[i];
      assert m.mem[m1.sp + 1..][i - m1.sp - 1] == m.mem[i];
    }
  }

  /** An expression pushes its value, changes the heap as its sends do, and nothing else above. */
  lemma {:induction false} RunTerm(t: Term, p: Program, w: World, pool: seq<Token>, st: Output, st1: Output, m: State,
                                   v: Vars, cx: Context)
    returns (k: nat, m1: State)
    requires Scoped(cx) && NoContext(t)
    requires Gen(t, st, cx) == Ok([], st1) && Loaded(p, w, pool, st, st1) && m.ip == |st.code|
    requires FrameHolds(m, v, cx) && m.sp >= Need(t)
    ensures var r := Eval(t, w, v, cx.ivars, m.heap);
            && k > 0 && Run(p, w, m, k) == Running(m1) && Pushed(m, m1, r.0, |st1.code|, r.1) && FrameHolds(m1, v, cx)
    decreases t
  {
    hide EmitAtom, FrameHolds, Step, Loaded, EmitSend, EvalLeaf, Grows;
    match t
    case Leaf(token) =>
      NeedsFrame(m, v, cx);
      m1 := RunLeaf(token, p, w, pool, st, st1, m, v, cx);
      FrameKept(m, m1, v, cx);
      k := 1;
    case Send(receiver, selector, args) =>
      var s1 := Gen(receiver, st, cx).out;
      var s2 := GenArgs(args, s1, cx).out;
      GrowsTrans(st, s1, s2, st1);
      LoadedParts(p, w, pool, st, s1, st1);
      LoadedParts(p, w, pool, s1, s2, st1);
      var k1, a := RunTerm(receiver, p, w, pool, st, s1, m, v, cx);
      var k2, b := RunArgs(args, p, w, pool, s1, s2, a, v, cx);
      CountBound(args, s1, s2, cx);
      CodeBound(p, w, pool, s2, st1);
      NeedsFrame(b, v, cx);
      var c := SendStep(selector, Count(args), p, w, pool, s2, st1, b);
      var vals := EvalArgs(args, w, v, cx.ivars, a.heap).0;
      assert Arguments(b.mem, b.sp, Count(args)) == vals;
      RunSplit(p, w, m, k1, k2);
      RunSplit(p, w, m, k1 + k2, 1);
      k, m1 := k1 + k2 + 1, c;
      FrameKept(m, m1, v, cx);
  }

  lemma GrowsTrans(a: Output, b: Output, c: Output, d: Output)
    requires Grows(a, b) && Grows(b, c) && Grows(c, d)
    ensures Grows(a, c) && Grows(b, d) && Grows(a, d)
  {
  }

  lemma CodeBound(p: Program, w: World, pool: seq<Token>, st: Output, st1: Output)
    requires Loaded(p, w, pool, st, st1)
    ensures |st.code| <= |st1.code| <= |p.code| <= CODE_MAX
  {
  }

  lemma NeedsFrame(m: State, v: Vars, cx: Context)
    requires FrameHolds(m, v, cx)
    ensures 5 <= m.fp && m.fp + 2 + |cx.scope.args| < |m.mem| && m.sp + 4 + SlotCount(cx.scope) <= m.fp
    ensures ArgCount(m) == |cx.scope.args|
  {
  }

  lemma {:induction false} RunArgs(a: Args, p: Program, w: World, pool: seq<Token>, st: Output, st1: Output, m: State,
                                   v: Vars, cx: Context)
    returns (k: nat, m1: State)
    requires Scoped(cx) && NoContextArgs(a)
    requires GenArgs(a, st, cx) == Ok([], st1) && Loaded(p, w, pool, st, st1) && m.ip == |st.code|
    requires FrameHolds(m, v, cx) && m.sp >= NeedArgs(a)
    ensures var r := EvalArgs(a, w, v, cx.ivars, m.heap);
            && Run(p, w, m, k) == Running(m1) && PushedAll(m, m1, r.0, |st1.code|, r.1) && FrameHolds(m1, v, cx)
    decreases a
  {
    hide FrameHolds, Step, Loaded, Grows, Run, PushedAll, Pushed, Scoped, SlotCount, FrameFor, Gen, Eval, Need,
         NoContext;
    match a
    case NoArgs =>
      NeedsFrame(m, v, cx);
      RunNothing(p, w, m);
      NeedsFrame(m, v, cx);
      k, m1 := 0, m;
    case Plus(front, last) =>
      var s1 := GenArgs(front, st, cx).out;
      LoadedParts(p, w, pool, st, s1, st1);
      var k1, b := RunArgs(front, p, w, pool, st, s1, m, v, cx);
      var f := EvalArgs(front, w, v, cx.ivars, m.heap);
      PushedRoom(m, b, f.0, |s1.code|, f.1);
      var k2, c := RunTerm(last, p, w, pool, s1, st1, b, v, cx);
      RunSplit(p, w, m, k1, k2);
      k, m1 := k1 + k2, c;
      var l := Eval(last, w, v, cx.ivars, f.1);
      PushedOneMore(m, b, c, f.0, l.0, |st1.code|, l.1);
  }

  lemma RunNothing(p: Program, w: World, m: State)
    requires m.sp <= |m.mem|
    ensures Run(p, w, m, 0) == Running(m) && PushedAll(m, m, [], m.ip, m.heap)
  {
  }
}
