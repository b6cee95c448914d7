/**
 Statements: direct execution with loops counted by fuel, and the proof that the compiled method or
 block returns the same value from the same stores, leaves its home with it, runs off its end, or
 runs as long as the loops do.
 */
module Execution {
  import opened Lexer
  import opened Codegen
  import opened Trees
  import opened Programs
  import opened Machine
  import opened Stores
  import opened Meaning
  import C = Captures
  import W = Words

  // ----------------------------------------------------------------- execution by name

  /**
   Statements end normally, return a value to the caller, leave the block's home with one, or still
   run after `fuel` rounds of a loop.
   */
  datatype Outcome = Done(vars: Vars, heap: Heap) | Gave(value: Word, heap: Heap) | Leaves(value: Word, heap: Heap)
                   | OutOfFuel

  predicate EvaluableStmt(s: Stmt, cx: Context)
    requires WellFormedStmt(s, cx)
    decreases s, 0
  {
    match s
    case Blank(_) => true
    case Assign(_, _, value, _) => NoContext(ExprTree(value))
    case Drop(value, _) => NoContext(ExprTree(value))
    case While(_, cond, _, _, _, body, _, _) => NoContext(ExprTree(cond)) && Evaluable(body, cx)
  }

  predicate Evaluable(s: Stmts, cx: Context)
    requires WellFormedStmts(s, cx)
    decreases s, 1
  {
    match s
    case End => true
    case Next(first, rest) => EvaluableStmt(first, cx) && Evaluable(rest, cx)
    case LastAssign(_, _, value) => NoContext(ExprTree(value))
    case Return(_, value) => NoContext(ExprTree(value))
    case Value(value) => NoContext(ExprTree(value))
  }

  /** A temporary of the scope or of one around it. */
  ghost predicate IsTemporary(name: string, cx: Context) {
    name in cx.scope.temps || exists s :: s in cx.outers && name in s.temps
  }

  /**
   An assignment stores into the temporary of that name, or else into the receiver's field.  Where an
   argument has the name as well, that is what the name goes on to stand for.
   */
  ghost function ExecAssign(name: string, value: Term, w: World, v: Vars, cx: Context, h: Heap): Outcome
    requires IsTemporary(name, cx) || name in cx.ivars
  {
    var r := Eval(value, w, v, cx.ivars, h);
    if !IsTemporary(name, cx) then Done(v, r.1[(v.receiver, Find(cx.ivars, name) as nat) := r.0])
    else if SameTarget(name, cx) then Done(v.(named := v.named[name := r.0]), r.1)
    else Done(v, r.1)
  }

  ghost function ExecStmt(s: Stmt, w: World, v: Vars, cx: Context, h: Heap, fuel: nat): (o: Outcome)
    requires WellFormedStmt(s, cx)
    decreases fuel, s, 2
  {
    match s
    case Blank(_) => Done(v, h)
    case Assign(name, _, value, _) =>
      StorableIff(name.token.text, cx);
      ExecAssign(name.token.text, ExprTree(value), w, v, cx, h)
    case Drop(value, _) => Done(v, Eval(ExprTree(value), w, v, cx.ivars, h).1)
    case While(_, cond, _, _, _, body, _, _) => ExecLoop(ExprTree(cond), body, w, v, cx, h, fuel)
  }

  /** The loop ends when its condition is exactly `false`; any other value runs the body. */
  ghost function ExecLoop(cond: Term, body: Stmts, w: World, v: Vars, cx: Context, h: Heap, fuel: nat): (o: Outcome)
    requires WellFormedStmts(body, cx)
    decreases fuel, body, 1
  {
    var r := Eval(cond, w, v, cx.ivars, h);
    if r.0 == W.FALSE then Done(v, r.1)
    else
      match Exec(body, w, v, cx, r.1, fuel)
      case Done(v1, h1) => if fuel == 0 then OutOfFuel else ExecLoop(cond, body, w, v1, cx, h1, fuel - 1)
      case o => o
  }

  ghost function Exec(s: Stmts, w: World, v: Vars, cx: Context, h: Heap, fuel: nat): (o: Outcome)
    requires WellFormedStmts(s, cx)
    decreases fuel, s, 0
  {
    match s
    case End => Done(v, h)
    case Next(first, rest) =>
      var o := ExecStmt(first, w, v, cx, h, fuel);
      if o.Done? then Exec(rest, w, o.vars, cx, o.heap, fuel) else o
    case LastAssign(name, _, value) =>
      StorableIff(name.token.text, cx);
      ExecAssign(name.token.text, ExprTree(value), w, v, cx, h)
    case Return(_, value) =>
      var r := Eval(ExprTree(value), w, v, cx.ivars, h);
      if cx.scope.inBlock then Leaves(r.0, r.1) else Gave(r.0, r.1)
    case Value(value) => var r := Eval(ExprTree(value), w, v, cx.ivars, h); Gave(r.0, r.1)
  }

  // ----------------------------------------------------------------- what running gives

  /** Outside the slots of the frame, the stack from `m.sp` up is unchanged. */
  predicate TempsOnly(m: State, m1: State, cx: Context) {
    && |m1.mem| == |m.mem| && m1.fp == m.fp
    && forall i :: m.sp <= i < |m.mem| && !(m.fp - 4 - SlotCount(cx.scope) <= i < m.fp - 4) ==> m1.mem[i] == m.mem[i]
  }

  /** The machine has done what `o` says: statements leave the stack as high as it was. */
  ghost predicate Matches(p: Program, w: World, m: State, k: nat, m1: State, o: Outcome, fuel: nat, cx: Context,
                          ip: nat) {
    match o
    case Done(v1, h1) =>
      && Run(p, w, m, k) == Running(m1) && m1.sp == m.sp && m1.ip == ip && m1.heap == h1
      && FrameHolds(m1, v1, cx) && TempsOnly(m, m1, cx)
    case Gave(x, h1) =>
      && Run(p, w, m, k) == Returned(x, m1) && m1.heap == h1 && |m1.mem| == |m.mem|
      && m1.sp == m.fp + 2 + |cx.scope.args| < |m1.mem| && m1.mem[m1.sp] == x
      && forall i :: m1.sp < i < |m.mem| ==> m1.mem[i] == m.mem[i]
    case Leaves(x, h1) =>
      && Run(p, w, m, k) == Left(x, m1) && m1.heap == h1 && m1.sp + 1 == m.sp && TempsOnly(m, m1, cx)
      && m1.sp < |m1.mem| && m1.mem[m1.sp] == x
    case OutOfFuel => Run(p, w, m, k).Running? && k > fuel
  }

  function NeedStmt(s: Stmt, cx: Context): nat
    requires WellFormedStmt(s, cx)
    decreases s, 0
  {
    match s
    case Blank(_) => 0
    case Assign(_, _, value, _) => Need(ExprTree(value))
    case Drop(value, _) => Need(ExprTree(value))
    case While(_, cond, _, _, _, body, _, _) => Max(1, Max(Need(ExprTree(cond)), NeedStmts(body, cx)))
  }

  /** The stack words that statements need: the most that one expression does. */
  function NeedStmts(s: Stmts, cx: Context): nat
    requires WellFormedStmts(s, cx)
    decreases s, 1
  {
    match s
    case End => 0
    case Next(first, rest) => Max(NeedStmt(first, cx), NeedStmts(rest, cx))
    case LastAssign(_, _, value) => Need(ExprTree(value))
    case Return(_, value) => Need(ExprTree(value))
    case Value(value) => Need(ExprTree(value))
  }

  // ----------------------------------------------------------------- simple statements

  /** The store that ends an assignment. */
  lemma StoreStep(name: string, p: Program, w: World, pool: seq<Token>, st: Output, st1: Output, m: State, v: Vars,
                  cx: Context)
    returns (m1: State)
    requires Scoped(cx) && StoreInto(name, cx) != [] && FrameHolds(m.(sp := m.sp + 1), v, cx)
    requires Emit([], st, StoreInto(name, cx)) == Ok([], st1) && Loaded(p, w, pool, st, st1) && m.ip == |st.code|
    ensures IsTemporary(name, cx) || name in cx.ivars
    ensures Run(p, w, m, 1) == Running(m1) && m1.sp == m.sp + 1 && m1.ip == |st1.code|
            && TempsOnly(m.(sp := m.sp + 1), m1, cx)
    ensures m1.heap == if IsTemporary(name, cx) then m.heap
                       else m.heap[(v.receiver, Find(cx.ivars, name) as nat) := m.mem[m.sp]]
    ensures FrameHolds(m1, if IsTemporary(name, cx) && SameTarget(name, cx)
                           then v.(named := v.named[name := m.mem[m.sp]]) else v, cx)
  {
    hide Step, Run, ReadU32, Loaded, U32, Emit, StoreInto, StorePlace, FrameHolds, SlotCount, C.Nested, SameTarget;
    var m0, place := m.(sp := m.sp + 1), StorePlace(name, cx);
    FrameFacts(m0, v, cx);
    StorePlaceIn(name, cx);
    StorableIff(name, cx);
    StoredWhere(name, cx);
    var op := if place.Field? then STORE_INST_VAR else STORE_TEMP;
    SlotLoaded(op, place.n, p, w, pool, st, st1);
    OneStep(p, w, m, op, place.n);
    m1 := m.(sp := m.sp + 1, ip := m.ip + 5);
    if place.Field? {
      m1 := m1.(heap := m.heap[(v.receiver, place.n) := m.mem[m.sp]]);
    } else {
      m1 := m1.(mem := m.mem[m.fp - 5 - place.n := m.mem[m.sp]]);
    }
    RunOne(p, w, m, m1);
    StoredHolds(name, m0, m1, m.mem[m.sp], v, cx);
  }

  lemma FrameFacts(m: State, v: Vars, cx: Context)
    requires FrameHolds(m, v, cx)
    ensures FrameFor(cx, m) && C.Nested(cx.scope, cx.outers) && m.mem[m.fp - 4] == v.receiver
  {
  }

  /** Temporaries are slots; what is none is a field. */
  lemma StoredWhere(name: string, cx: Context)
    requires StoreInto(name, cx) != []
    ensures StorePlace(name, cx).Field? <==> !IsTemporary(name, cx)
    ensures StorePlace(name, cx).Field? ==> StorePlace(name, cx).n == Find(cx.ivars, name)
  {
    hide U32;
    OuterTempIff(cx.outers, name);
    C.TempFound(cx.outers, name);
  }

  lemma StoredHolds(name: string, m: State, m1: State, x: Word, v: Vars, cx: Context)
    requires StoreInto(name, cx) != [] && FrameHolds(m, v, cx) && m1.sp == m.sp && m1.fp == m.fp
    requires PlaceIn(StorePlace(name, cx), cx) && !StorePlace(name, cx).Argument?
    requires var p := StorePlace(name, cx);
             && (p.Field? <==> !IsTemporary(name, cx))
             && m1.mem == (if p.Field? then m.mem else m.mem[m.fp - 5 - p.n := x])
             && m1.heap == if p.Field? then m.heap[(m.mem[m.fp - 4], p.n) := x] else m.heap
    ensures FrameHolds(m1, if IsTemporary(name, cx) && SameTarget(name, cx) then v.(named := v.named[name := x]) else v,
                       cx)
    ensures TempsOnly(m, m1, cx)
  {
    hide StoreInto, StorePlace, SlotCount, C.Nested, ReadPlace, IsTemporary, SameTarget;
    StillFrame(cx, m, m1, StorePlace(name, cx), x);
    var stored := IsTemporary(name, cx) && SameTarget(name, cx);
    var v1 := if stored then v.(named := v.named[name := x]) else v;
    if stored {
      TargetVisible(name, cx);
    }
    hide FrameFor, C.Resolve, StorePlace, Holds;
    forall other | other in v1.named ensures other in v.named && Holds(m1, other, v1.named[other], cx) {
      StoredOne(name, other, m, m1, x, v, cx);
    }
  }

  lemma StoredOne(name: string, other: string, m: State, m1: State, x: Word, v: Vars, cx: Context)
    requires StoreInto(name, cx) != [] && FrameHolds(m, v, cx) && m1.sp == m.sp && m1.fp == m.fp && FrameFor(cx, m1)
    requires PlaceIn(StorePlace(name, cx), cx) && !StorePlace(name, cx).Argument?
    requires var p := StorePlace(name, cx);
             && (p.Field? <==> !IsTemporary(name, cx))
             && m1.mem == (if p.Field? then m.mem else m.mem[m.fp - 5 - p.n := x])
             && m1.heap == if p.Field? then m.heap[(m.mem[m.fp - 4], p.n) := x] else m.heap
    requires other in v.named
    ensures Holds(m1, other, if other == name && IsTemporary(name, cx)
                  && SameTarget(name, cx) then x else v.named[other],
                  cx)
  {
    hide StoreInto, StorePlace, SlotCount, C.Nested, ReadPlace, IsTemporary, SameTarget;
    OnePlace(name, other, cx);
    ReadPlaceIn(other, cx);
    Moved(cx, m, m1, StorePlace(name, cx), ReadPlace(other, cx), x);
  }

  lemma TargetVisible(name: string, cx: Context)
    requires IsTemporary(name, cx) && SameTarget(name, cx)
    ensures C.Resolve(cx.scope, cx.outers, name).Found?
  {
    OuterTempIff(cx.outers, name);
    C.TempFound(cx.outers, name);
  }

  lemma PushedPopped(m: State, b: State, x: Word, v: Vars, cx: Context)
    requires Pushed(m, b, x, b.ip, b.heap) && FrameHolds(m, v, cx)
    ensures FrameHolds(b.(sp := b.sp + 1), v, cx) && b.sp + 1 == m.sp && b.mem[b.sp] == x
  {
    FrameKept(m, b.(sp := b.sp + 1), v, cx);
  }

  lemma RunAssign(name: string, value: Term, p: Program, w: World, pool: seq<Token>, st: Output, st1: Output,
                  m: State, v: Vars, cx: Context)
    returns (k: nat, m1: State)
    requires Scoped(cx) && NoContext(value) && FrameHolds(m, v, cx) && m.sp >= Need(value)
    requires StoreInto(name, cx) != [] && (IsTemporary(name, cx) || name in cx.ivars)
    requires GenAssign(name, value, st, cx) == Ok([], st1) && Loaded(p, w, pool, st, st1) && m.ip == |st.code|
    ensures k > 0 && Matches(p, w, m, k, m1, ExecAssign(name, value, w, v, cx, m.heap), 0, cx, |st1.code|)
    ensures ExecAssign(name, value, w, v, cx, m.heap).Done?
  {
    hide FrameHolds, StoreInto, Loaded, Run, Step, Need, Gen, Eval, NoContext, Emit, IsTemporary, SameTarget, SlotCount;
    var s1 := Gen(value, st, cx).out;
    LoadedParts(p, w, pool, st, s1, st1);
    var k1, b := RunTerm(value, p, w, pool, st, s1, m, v, cx);
    var r := Eval(value, w, v, cx.ivars, m.heap);
    PushedPopped(m, b, r.0, v, cx);
    m1 := StoreStep(name, p, w, pool, s1, st1, b, v, cx);
    RunSplit(p, w, m, k1, 1);
    k := k1 + 1;
  }

  /** A one-byte instruction at the end of an emission. */
  lemma ByteAt(p: Program, w: World, pool: seq<Token>, st: Output, op: Byte, st1: Output)
    requires Emit([], st, [op]) == Ok([], st1) && Loaded(p, w, pool, st, st1)
    ensures |st1.code| == |st.code| + 1 && |st.code| < |p.code| && p.code[|st.code|] == op
  {
    Emitted(p, w, pool, st, [op], st1);
    assert p.code[|st.code|..|st.code| + 1][0] == op;
  }

  lemma PopStep(p: Program, w: World, m: State) returns (m1: State)
    requires m.ip < |p.code| && p.code[m.ip] == POP && 5 <= m.fp < |m.mem| && m.sp < |m.mem|
    ensures Run(p, w, m, 1) == Running(m1) && m1 == m.(sp := m.sp + 1, ip := m.ip + 1)
  {
    m1 := m.(sp := m.sp + 1, ip := m.ip + 1);
    assert Step(p, w, m) == Running(m1);
    assert Run(p, w, m1, 0) == Running(m1);
  }

  lemma RunDrop(value: Term, p: Program, w: World, pool: seq<Token>, st: Output, st1: Output, m: State, v: Vars,
                cx: Context)
    returns (k: nat, m1: State)
    requires Scoped(cx) && NoContext(value) && FrameHolds(m, v, cx) && m.sp >= Need(value)
    requires GenDrop(value, st, cx) == Ok([], st1) && Loaded(p, w, pool, st, st1) && m.ip == |st.code|
    ensures k > 0 && Matches(p, w, m, k, m1, Done(v, Eval(value, w, v, cx.ivars, m.heap).1), 0, cx, |st1.code|)
  {
    hide FrameHolds, Loaded, Run, Step, Need, Gen, Eval, NoContext, Emit;
    var s1 := Gen(value, st, cx).out;
    LoadedParts(p, w, pool, st, s1, st1);
    var k1, b := RunTerm(value, p, w, pool, st, s1, m, v, cx);
    PushedPopped(m, b, Eval(value, w, v, cx.ivars, m.heap).0, v, cx);
    ByteAt(p, w, pool, s1, POP, st1);
    NeedsFrame(m, v, cx);
    m1 := PopStep(p, w, b);
    FrameKept(b.(sp := b.sp + 1), m1, v, cx);
    RunSplit(p, w, m, k1, 1);
    k := k1 + 1;
  }

  lemma ReturnStep(p: Program, w: World, m: State) returns (m1: State)
    requires m.ip < |p.code| && p.code[m.ip] == RETURN_TOP && 5 <= m.fp < |m.mem| && m.sp < |m.mem|
    requires m.fp + 2 + ArgCount(m) < |m.mem|
    ensures var top := m.fp + 2 + ArgCount(m);
            Run(p, w, m, 1) == Returned(m.mem[m.sp], m1) && m1 == m.(mem := m.mem[top := m.mem[m.sp]], sp := top)
  {
    var top := m.fp + 2 + ArgCount(m);
    m1 := m.(mem := m.mem[top := m.mem[m.sp]], sp := top);
    assert Step(p, w, m) == Returned(m.mem[m.sp], m1);
  }

  lemma LeaveStep(p: Program, w: World, m: State) returns (m1: State)
    requires m.ip < |p.code| && p.code[m.ip] == RETURN_NON_LOCAL && 5 <= m.fp < |m.mem| && m.sp < |m.mem|
    ensures Run(p, w, m, 1) == Left(m.mem[m.sp], m1) && m1 == m.(ip := m.ip + 1)
  {
    m1 := m.(ip := m.ip + 1);
    assert Step(p, w, m) == Left(m.mem[m.sp], m1);
  }

  lemma {:induction false} RunThenReturned(p: Program, w: World, m: State, a: nat, m1: State)
    requires Run(p, w, m, a) == Running(m1)
    ensures Run(p, w, m, a + 1) == Run(p, w, m1, 1)
  {
    RunSplit(p, w, m, a, 1);
  }

  lemma RunReturn(op: Byte, value: Term, p: Program, w: World, pool: seq<Token>, st: Output, st1: Output, m: State,
                  v: Vars, cx: Context)
    returns (k: nat, m1: State)
    requires Scoped(cx) && NoContext(value) && FrameHolds(m, v, cx) && m.sp >= Need(value)
    requires op == RETURN_TOP || op == RETURN_NON_LOCAL
    requires GenReturn(op, value, st, cx) == Ok([], st1) && Loaded(p, w, pool, st, st1) && m.ip == |st.code|
    ensures var r := Eval(value, w, v, cx.ivars, m.heap);
            k > 0 && Matches(p, w, m, k, m1, if op == RETURN_TOP then Gave(r.0, r.1) else Leaves(r.0, r.1), 0, cx,
                             |st1.code|)
  {
    hide FrameHolds, Loaded, Run, Step, Need, Gen, Eval, NoContext, Emit, ArgCount, SlotCount;
    var s1 := Gen(value, st, cx).out;
    var s2 := Emit([], s1, [op]).out;
    LoadedFlag(p, w, pool, st, s2, st1);
    LoadedParts(p, w, pool, st, s1, s2);
    var k1, b := RunTerm(value, p, w, pool, st, s1, m, v, cx);
    ByteAt(p, w, pool, s1, op, s2);
    NeedsFrame(m, v, cx);
    NeedsFrame(b, v, cx);
    if op == RETURN_TOP {
      m1 := ReturnStep(p, w, b);
    } else {
      m1 := LeaveStep(p, w, b);
    }
    RunThenReturned(p, w, m, k1, b);
    k := k1 + 1;
  }

  /** Whether a return has been seen does not matter to what is loaded. */
  lemma LoadedFlag(p: Program, w: World, pool: seq<Token>, st: Output, s2: Output, st1: Output)
    requires Loaded(p, w, pool, st, st1) && st1 == s2.(sawReturn := true)
    ensures Loaded(p, w, pool, st, s2)
  {
  }

  // ----------------------------------------------------------------- loops

  lemma LoadedAt(p: Program, w: World, pool: seq<Token>, st: Output, st1: Output)
    requires Loaded(p, w, pool, st, st1)
    ensures forall i :: |st.code| <= i < |st1.code| ==> p.code[i] == st1.code[i]
  {
    forall i | |st.code| <= i < |st1.code| ensures p.code[i] == st1.code[i] {
      assert p.code[|st.code|..|st1.code|][i - |st.code|] == st1.code[|st.code|..][i - |st.code|];
    }
  }

  /** The stations of a loop's code: after its test, its exit jump, its body, its jump back, its value. */
  datatype Stations = Stations(test: Output, exit: Output, body: Output, back: Output, patched: Output, value: Output)

  predicate IsLoop(cond: Term, body: Stmts, st: Output, x: Stations, st1: Output, cx: Context)
    requires WellFormedStmts(body, cx)
  {
    && Gen(cond, st, cx) == Ok([], x.test)
    && Emit([], x.test, [JUMP_IF_FALSE] + U32(0)) == Ok([], x.exit)
    && GenStmts(body, x.exit, cx) == Ok([], x.body)
    && Emit([], x.body, [JUMP] + U32(|st.code|)) == Ok([], x.back)
    && |x.test.code| + 5 <= |x.back.code|
    && x.patched == x.back.(code := Patch(x.back.code, |x.test.code| + 1, |x.back.code|))
    && EmitRef([], x.patched, PUSH_LITERAL, NIL_TOKEN, []) == Ok([], x.value)
    && Emit([], x.value, [POP]) == Ok([], st1)
  }

  lemma LoopStations(cond: Term, body: Stmts, st: Output, st1: Output, cx: Context) returns (x: Stations)
    requires WellFormedStmts(body, cx)
    requires GenLoop(cond, body, st, cx).Ok? && Emit([], GenLoop(cond, body, st, cx).out, [POP]) == Ok([], st1)
    ensures IsLoop(cond, body, st, x, st1, cx)
    ensures Grows(st, x.test) && Grows(x.test, x.exit) && Grows(x.exit, x.body) && Grows(x.body, x.back)
    ensures Grows(x.patched, x.value) && Grows(x.value, st1)
  {
    hide Gen, GenStmts, EmitRef, U32, Patch;
    var s1 := Gen(cond, st, cx).out;
    var s2 := Emit([], s1, [JUMP_IF_FALSE] + U32(0)).out;
    var s3 := GenStmts(body, s2, cx).out;
    var s4 := Emit([], s3, [JUMP] + U32(|st.code|)).out;
    var s5 := s4.(code := Patch(s4.code, |s1.code| + 1, |s4.code|));
    x := Stations(s1, s2, s3, s4, s5, EmitRef([], s5, PUSH_LITERAL, NIL_TOKEN, []).out);
  }

  /** Patching changes the operand of the exit jump and nothing else. */
  lemma PatchedAt(code: seq<Byte>, at: nat, value: nat)
    requires at + 4 <= |code|
    ensures var r := Patch(code, at, value);
            r[at..at + 4] == U32(value) && forall i :: 0 <= i < |code| && !(at <= i < at + 4) ==> r[i] == code[i]
  {
  }

  /** The loaded code agrees with `code` from `lo` on, except in the operand at `hole`. */
  predicate AgreesFrom(p: Program, code: seq<Byte>, lo: nat, hole: nat) {
    |code| <= |p.code| && forall i :: lo <= i < |code| && !(hole <= i < hole + 4) ==> p.code[i] == code[i]
  }

  lemma AgreesPrefix(p: Program, a: seq<Byte>, b: seq<Byte>, lo: nat, hole: nat)
    requires AgreesFrom(p, b, lo, hole) && a <= b
    ensures AgreesFrom(p, a, lo, hole)
  {
  }

  lemma AgreesLoaded(p: Program, w: World, pool: seq<Token>, st: Output, a: Output, b: Output, st1: Output, hole: nat)
    requires Loaded(p, w, pool, st, st1) && AgreesFrom(p, b.code, |st.code|, hole) && b.pool <= pool
    requires |st.code| <= |a.code| <= |b.code| && (hole + 4 <= |a.code| || |b.code| <= hole)
    ensures Loaded(p, w, pool, a, b)
  {
    assert p.code[|a.code|..|b.code|] == b.code[|a.code|..];
  }

  /** Where the parts of a loop lie in the loaded program, and what its jumps say. */
  lemma LoopLoaded(cond: Term, body: Stmts, p: Program, w: World, pool: seq<Token>, st: Output, x: Stations,
                   st1: Output, cx: Context)
    requires WellFormedStmts(body, cx) && IsLoop(cond, body, st, x, st1, cx) && Loaded(p, w, pool, st, st1)
    requires Grows(st, x.test) && Grows(x.test, x.exit) && Grows(x.exit, x.body) && Grows(x.body, x.back)
    requires Grows(x.patched, x.value) && Grows(x.value, st1)
    ensures Loaded(p, w, pool, st, x.test) && Loaded(p, w, pool, x.exit, x.body)
    ensures |x.exit.code| == |x.test.code| + 5 && |x.back.code| == |x.body.code| + 5 == |x.patched.code|
    ensures p.code[|x.test.code|] == JUMP_IF_FALSE && ReadU32(p.code, |x.test.code| + 1) == |x.back.code|
    ensures p.code[|x.body.code|] == JUMP && ReadU32(p.code, |x.body.code| + 1) == |st.code|
    ensures Loaded(p, w, pool, x.patched, x.value) && Loaded(p, w, pool, x.value, st1)
  {
    hide Gen, GenStmts, EmitRef, U32, Patch, ReadU32, AgreesFrom;
    var hole := |x.test.code| + 1;
    LoopPatched(p, w, pool, st, x, st1);
    AgreesPrefix(p, x.body.code, x.back.code, |st.code|, hole);
    AgreesPrefix(p, x.exit.code, x.body.code, |st.code|, hole);
    AgreesPrefix(p, x.test.code, x.exit.code, |st.code|, hole);
    AgreesLoaded(p, w, pool, st, st, x.test, st1, hole);
    AgreesLoaded(p, w, pool, st, x.exit, x.body, st1, hole);
    AgreesLoaded(p, w, pool, st, x.body, x.back, st1, hole);
    SlotLoaded(JUMP, |st.code|, p, w, pool, x.body, x.back);
    ExitLoaded(p, st, x);
  }

  lemma ExitLoaded(p: Program, st: Output, x: Stations)
    requires Emit([], x.test, [JUMP_IF_FALSE] + U32(0)) == Ok([], x.exit) && |st.code| <= |x.test.code|
    requires AgreesFrom(p, x.exit.code, |st.code|, |x.test.code| + 1) && |x.exit.code| <= CODE_MAX
    requires |x.back.code| <= CODE_MAX && |p.code| >= |x.test.code| + 5
    requires p.code[|x.test.code| + 1..|x.test.code| + 5] == U32(|x.back.code|)
    ensures p.code[|x.test.code|] == JUMP_IF_FALSE && ReadU32(p.code, |x.test.code| + 1) == |x.back.code|
  {
    hide ReadU32;
    assert x.exit.code[|x.test.code|] == ([JUMP_IF_FALSE] + U32(0))[0];
    U32RoundTrip(p.code, |x.test.code| + 1, |x.back.code|);
  }

  lemma LoopPatched(p: Program, w: World, pool: seq<Token>, st: Output, x: Stations, st1: Output)
    requires Loaded(p, w, pool, st, st1) && |st.code| <= |x.test.code| && |x.test.code| + 5 <= |x.back.code|
    requires x.patched == x.back.(code := Patch(x.back.code, |x.test.code| + 1, |x.back.code|))
    requires Grows(x.patched, x.value) && Grows(x.value, st1)
    ensures |x.patched.code| == |x.back.code| <= CODE_MAX
    ensures AgreesFrom(p, x.back.code, |st.code|, |x.test.code| + 1)
    ensures p.code[|x.test.code| + 1..|x.test.code| + 5] == U32(|x.back.code|)
    ensures Loaded(p, w, pool, x.patched, x.value) && Loaded(p, w, pool, x.value, st1)
  {
    hide U32, Patch;
    LoadedAt(p, w, pool, st, st1);
    var a := |x.test.code| + 1;
    PatchedAt(x.back.code, a, |x.back.code|);
    assert forall i :: |st.code| <= i < |x.patched.code| ==> p.code[i] == x.patched.code[i];
    assert p.code[a..a + 4] == x.patched.code[a..a + 4];
    LoadedSub(p, w, pool, st, x.patched, x.value, st1);
    LoadedSub(p, w, pool, st, x.value, st1, st1);
  }

  lemma LoadedSub(p: Program, w: World, pool: seq<Token>, st: Output, a: Output, b: Output, st1: Output)
    requires Loaded(p, w, pool, st, st1) && |st.code| <= |a.code| <= |b.code| <= |p.code| && b.pool <= pool
    requires forall i :: |a.code| <= i < |b.code| ==> p.code[i] == b.code[i]
    ensures Loaded(p, w, pool, a, b)
  {
    assert p.code[|a.code|..|b.code|] == b.code[|a.code|..];
  }

  lemma ExitStep(p: Program, w: World, m: State, target: nat) returns (m1: State)
    requires m.ip + 5 <= |p.code| && p.code[m.ip] == JUMP_IF_FALSE && ReadU32(p.code, m.ip + 1) == target
    requires 5 <= m.fp < |m.mem| && m.sp < |m.mem|
    ensures Run(p, w, m, 1) == Running(m1)
    ensures m1 == m.(sp := m.sp + 1, ip := if m.mem[m.sp] == W.FALSE then target else m.ip + 5)
  {
    hide ReadU32, Run, Step;
    m1 := m.(sp := m.sp + 1, ip := if m.mem[m.sp] == W.FALSE then target else m.ip + 5);
    OneStep(p, w, m, JUMP_IF_FALSE, target);
    RunOne(p, w, m, m1);
  }

  lemma JumpStep(p: Program, w: World, m: State, target: nat) returns (m1: State)
    requires m.ip + 5 <= |p.code| && p.code[m.ip] == JUMP && ReadU32(p.code, m.ip + 1) == target
    requires 5 <= m.fp < |m.mem|
    ensures Run(p, w, m, 1) == Running(m1) && m1 == m.(ip := target)
  {
    hide ReadU32, Run, Step;
    m1 := m.(ip := target);
    OneStep(p, w, m, JUMP, target);
    RunOne(p, w, m, m1);
  }

  /** Testing a loop's condition: to its body, or out of the loop. */
  lemma RunTest(cond: Term, p: Program, w: World, pool: seq<Token>, st: Output, test: Output, target: nat, m: State,
                v: Vars, cx: Context)
    returns (k: nat, m1: State)
    requires Scoped(cx) && NoContext(cond) && FrameHolds(m, v, cx) && m.sp >= Need(cond)
    requires Gen(cond, st, cx) == Ok([], test) && Loaded(p, w, pool, st, test) && m.ip == |st.code|
    requires |test.code| + 5 <= |p.code| && p.code[|test.code|] == JUMP_IF_FALSE
             && ReadU32(p.code, |test.code| + 1) == target
    ensures var r := Eval(cond, w, v, cx.ivars, m.heap);
            && k > 0 && Run(p, w, m, k) == Running(m1) && FrameHolds(m1, v, cx) && m1.sp == m.sp && m1.heap == r.1
            && m1.ip == (if r.0 == W.FALSE then target else |test.code| + 5) && SameAbove(m, m1, m.sp)
  {
    hide FrameHolds, Loaded, Run, Step, Need, Gen, Eval, NoContext, ReadU32;
    var k1, b := RunTerm(cond, p, w, pool, st, test, m, v, cx);
    PushedPopped(m, b, Eval(cond, w, v, cx.ivars, m.heap).0, v, cx);
    NeedsFrame(b, v, cx);
    m1 := ExitStep(p, w, b, target);
    FrameKept(b.(sp := b.sp + 1), m1, v, cx);
    RunSplit(p, w, m, k1, 1);
    k := k1 + 1;
  }

  /** After the exit: nil, the value of the loop, is pushed and dropped. */
  lemma RunLoopValue(p: Program, w: World, pool: seq<Token>, a: Output, b: Output, c: Output, m: State, v: Vars,
                     cx: Context)
    returns (m1: State)
    requires EmitRef([], a, PUSH_LITERAL, NIL_TOKEN, []) == Ok([], b) && Loaded(p, w, pool, a, b)
    requires Emit([], b, [POP]) == Ok([], c) && Loaded(p, w, pool, b, c)
    requires FrameHolds(m, v, cx) && m.ip == |a.code| && m.sp >= 1
    ensures Run(p, w, m, 2) == Running(m1) && FrameHolds(m1, v, cx) && m1.sp == m.sp && m1.heap == m.heap
    ensures m1.ip == |c.code| && SameAbove(m, m1, m.sp)
  {
    hide FrameHolds, Loaded, Run, Step, EmitRef, Emit;
    NeedsFrame(m, v, cx);
    var d := LiteralStep(NIL_TOKEN, PUSH_LITERAL, p, w, pool, a, b, m, LiteralValue(w, NIL_TOKEN));
    PushedPopped(m, d, LiteralValue(w, NIL_TOKEN), v, cx);
    ByteAt(p, w, pool, b, POP, c);
    m1 := PopStep(p, w, d);
    FrameKept(d.(sp := d.sp + 1), m1, v, cx);
    RunSplit(p, w, m, 1, 1);
  }

  /** Steps before a run that matches an outcome are part of a run that matches it. */
  lemma Before(p: Program, w: World, m: State, a: nat, b: State, k: nat, m1: State, o: Outcome, fuel: nat,
               cx: Context, ip: nat)
    requires Run(p, w, m, a) == Running(b) && TempsOnly(m, b, cx) && b.sp == m.sp
    requires Matches(p, w, b, k, m1, o, fuel, cx, ip) && m.sp + 4 + SlotCount(cx.scope) <= m.fp
    ensures Matches(p, w, m, a + k, m1, o, fuel, cx, ip)
    ensures a > 0 && o.OutOfFuel? ==> Matches(p, w, m, a + k, m1, o, fuel + 1, cx, ip)
  {
    hide FrameHolds, Run;
    RunSplit(p, w, m, a, k);
  }

  lemma SameIsTempsOnly(m: State, b: State, cx: Context)
    requires SameAbove(m, b, m.sp)
    ensures TempsOnly(m, b, cx)
  {
  }

  lemma TempsOnlyTrans(a: State, b: State, c: State, cx: Context)
    requires TempsOnly(a, b, cx) && TempsOnly(b, c, cx) && a.sp == b.sp
    ensures TempsOnly(a, c, cx)
  {
  }

  /** Out of the loop, when its test has failed. */
  lemma RunLoopExit(p: Program, w: World, pool: seq<Token>, a: Output, b: Output, c: Output, m: State, k1: nat,
                    m0: State, v: Vars, cx: Context)
    returns (k: nat, m1: State)
    requires EmitRef([], a, PUSH_LITERAL, NIL_TOKEN, []) == Ok([], b) && Loaded(p, w, pool, a, b)
    requires Emit([], b, [POP]) == Ok([], c) && Loaded(p, w, pool, b, c)
    requires Run(p, w, m, k1) == Running(m0) && TempsOnly(m, m0, cx) && m0.sp == m.sp
    requires FrameHolds(m0, v, cx) && m0.ip == |a.code| && m0.sp >= 1
    ensures k > 0 && Matches(p, w, m, k, m1, Done(v, m0.heap), 0, cx, |c.code|)
  {
    hide FrameHolds, Loaded, Run, Step, EmitRef, Emit, TempsOnly;
    m1 := RunLoopValue(p, w, pool, a, b, c, m0, v, cx);
    SameIsTempsOnly(m0, m1, cx);
    TempsOnlyTrans(m, m0, m1, cx);
    RunSplit(p, w, m, k1, 2);
    k := k1 + 2;
  }

  /** Back to the test, when the body has ended. */
  lemma RunLoopBack(p: Program, w: World, m: State, k: nat, c: State, target: nat, v: Vars, cx: Context)
    returns (d: State)
    requires Run(p, w, m, k) == Running(c) && TempsOnly(m, c, cx) && c.sp == m.sp && FrameHolds(c, v, cx)
    requires c.ip + 5 <= |p.code| && p.code[c.ip] == JUMP && ReadU32(p.code, c.ip + 1) == target
    ensures Run(p, w, m, k + 1) == Running(d) && d == c.(ip := target) && TempsOnly(m, d, cx) && FrameHolds(d, v, cx)
  {
    hide FrameHolds, Run, Step, ReadU32, TempsOnly;
    NeedsFrame(c, v, cx);
    d := JumpStep(p, w, c, target);
    SameIsTempsOnly(c, d, cx);
    TempsOnlyTrans(m, c, d, cx);
    FrameKept(c, d, v, cx);
    RunSplit(p, w, m, k, 1);
  }

  /** A loop from its first instruction: test, body and jump back as often as execution does. */
  lemma {:induction false} RunLoop(cond: Term, body: Stmts, p: Program, w: World, pool: seq<Token>, st: Output,
                                   x: Stations, st1: Output,
                                   m: State, v: Vars, cx: Context, fuel: nat)
    returns (k: nat, m1: State)
    requires WellFormedStmts(body, cx) && Evaluable(body, cx) && NoContext(cond) && Scoped(cx)
    requires IsLoop(cond, body, st, x, st1, cx) && Loaded(p, w, pool, st, st1)
    requires Grows(st, x.test) && Grows(x.test, x.exit) && Grows(x.exit, x.body) && Grows(x.body, x.back)
    requires Grows(x.patched, x.value) && Grows(x.value, st1)
    requires FrameHolds(m, v, cx) && m.ip == |st.code|
    requires m.sp >= Max(1, Max(Need(cond), NeedStmts(body, cx)))
    ensures k > 0 && Matches(p, w, m, k, m1, ExecLoop(cond, body, w, v, cx, m.heap, fuel), fuel, cx, |st1.code|)
    decreases fuel, body, 1
  {
    hide FrameHolds, Loaded, Run, Step, Need, Gen, Eval, NoContext, ReadU32, GenStmts, Exec, EmitRef, Emit, Patch,
         U32, Evaluable, NeedStmts, TempsOnly, WellFormedStmts, Grows, Scoped, SlotCount, Fetch;
    LoopLoaded(cond, body, p, w, pool, st, x, st1, cx);
    CodeBound(p, w, pool, x.patched, x.value);
    var k1, b := RunTest(cond, p, w, pool, st, x.test, |x.back.code|, m, v, cx);
    var r := Eval(cond, w, v, cx.ivars, m.heap);
    SameIsTempsOnly(m, b, cx);
    NeedsFrame(m, v, cx);
    if r.0 == W.FALSE {
      k, m1 := RunLoopExit(p, w, pool, x.patched, x.value, st1, m, k1, b, v, cx);
      AnyFuel(p, w, m, k, m1, Done(v, r.1), fuel, cx, |st1.code|);
    } else {
      var o := Exec(body, w, v, cx, r.1, fuel);
      var k2, c := RunStmts(body, p, w, pool, x.exit, x.body, b, v, cx, fuel);
      Before(p, w, m, k1, b, k2, c, o, fuel, cx, |x.body.code|);
      k, m1 := k1 + k2, c;
      if o.Done? {
        k, m1 := RunAgain(cond, body, p, w, pool, st, x, st1, m, k, c, o.vars, cx, fuel);
      }
    }
  }

  /** After the body: the jump back, and the loop again. */
  lemma {:induction false} RunAgain(cond: Term, body: Stmts, p: Program, w: World, pool: seq<Token>, st: Output,
                                    x: Stations, st1: Output,
                                    m: State, k0: nat, c: State, v: Vars, cx: Context, fuel: nat)
    returns (k: nat, m1: State)
    requires WellFormedStmts(body, cx) && Evaluable(body, cx) && NoContext(cond) && Scoped(cx)
    requires IsLoop(cond, body, st, x, st1, cx) && Loaded(p, w, pool, st, st1)
    requires Grows(st, x.test) && Grows(x.test, x.exit) && Grows(x.exit, x.body) && Grows(x.body, x.back)
    requires Grows(x.patched, x.value) && Grows(x.value, st1)
    requires Run(p, w, m, k0) == Running(c) && TempsOnly(m, c, cx) && c.sp == m.sp && FrameHolds(c, v, cx)
    requires m.sp + 4 + SlotCount(cx.scope) <= m.fp && m.sp >= Max(1, Max(Need(cond), NeedStmts(body, cx)))
    requires c.ip + 5 <= |p.code| && p.code[c.ip] == JUMP && ReadU32(p.code, c.ip + 1) == |st.code|
    ensures k > 0
    ensures var o := if fuel == 0 then OutOfFuel else ExecLoop(cond, body, w, v, cx, c.heap, fuel - 1);
            Matches(p, w, m, k, m1, o, fuel, cx, |st1.code|)
    decreases fuel, body, 0
  {
    hide FrameHolds, Loaded, Run, Step, Need, Gen, Eval, NoContext, ReadU32, GenStmts, Exec, ExecLoop, EmitRef, Emit,
         Patch, U32, Evaluable, NeedStmts, TempsOnly, WellFormedStmts, Grows, Scoped, SlotCount, Fetch, IsLoop;
    var d := RunLoopBack(p, w, m, k0, c, |st.code|, v, cx);
    if fuel == 0 {
      k, m1 := k0 + 1, d;
    } else {
      var k3, e := RunLoop(cond, body, p, w, pool, st, x, st1, d, v, cx, fuel - 1);
      Before(p, w, m, k0 + 1, d, k3, e, ExecLoop(cond, body, w, v, cx, c.heap, fuel - 1), fuel - 1, cx, |st1.code|);
      k, m1 := k0 + 1 + k3, e;
    }
  }

  lemma {:induction false} RunStmt(s: Stmt, p: Program, w: World, pool: seq<Token>, st: Output, st1: Output,
                                   m: State, v: Vars, cx: Context, fuel: nat)
    returns (k: nat, m1: State)
    requires WellFormedStmt(s, cx) && EvaluableStmt(s, cx) && Scoped(cx)
    requires GenStmt(s, st, cx) == Ok([], st1) && Loaded(p, w, pool, st, st1)
    requires FrameHolds(m, v, cx) && m.ip == |st.code| && m.sp >= NeedStmt(s, cx)
    ensures Matches(p, w, m, k, m1, ExecStmt(s, w, v, cx, m.heap, fuel), fuel, cx, |st1.code|)
    decreases fuel, s, 2
  {
    hide FrameHolds, Loaded, Run, Step, Need, Gen, Eval, NoContext, ExecLoop, ExecAssign, Emit, StoreInto;
    match s
    case Blank(_) =>
      k, m1 := 0, m;
      NoStep(p, w, m, v, cx);
    case Assign(name, _, value, _) =>
      StorableIff(name.token.text, cx);
      k, m1 := RunAssign(name.token.text, ExprTree(value), p, w, pool, st, st1, m, v, cx);
      AnyFuel(p, w, m, k, m1, ExecAssign(name.token.text, ExprTree(value), w, v, cx, m.heap), fuel, cx, |st1.code|);
    case Drop(value, _) =>
      k, m1 := RunDrop(ExprTree(value), p, w, pool, st, st1, m, v, cx);
    case While(_, cond, _, _, _, body, _, _) =>
      var x := LoopStations(ExprTree(cond), body, st, st1, cx);
      k, m1 := RunLoop(ExprTree(cond), body, p, w, pool, st, x, st1, m, v, cx, fuel);
  }

  lemma NoStep(p: Program, w: World, m: State, v: Vars, cx: Context)
    requires FrameHolds(m, v, cx)
    ensures Matches(p, w, m, 0, m, Done(v, m.heap), 0, cx, m.ip)
  {
    hide FrameHolds;
  }

  lemma AnyFuel(p: Program, w: World, m: State, k: nat, m1: State, o: Outcome, fuel: nat, cx: Context, ip: nat)
    requires Matches(p, w, m, k, m1, o, 0, cx, ip) && !o.OutOfFuel?
    ensures Matches(p, w, m, k, m1, o, fuel, cx, ip)
  {
    hide FrameHolds, Run;
  }

  /** Statements: the machine does what direct execution does, at the end of their code. */
  lemma {:induction false} RunStmts(s: Stmts, p: Program, w: World, pool: seq<Token>, st: Output, st1: Output,
                                    m: State, v: Vars, cx: Context, fuel: nat)
    returns (k: nat, m1: State)
    requires WellFormedStmts(s, cx) && Evaluable(s, cx) && Scoped(cx)
    requires GenStmts(s, st, cx) == Ok([], st1) && Loaded(p, w, pool, st, st1)
    requires FrameHolds(m, v, cx) && m.ip == |st.code| && m.sp >= NeedStmts(s, cx)
    ensures Matches(p, w, m, k, m1, Exec(s, w, v, cx, m.heap, fuel), fuel, cx, |st1.code|)
    decreases fuel, s, 0
  {
    hide FrameHolds, Loaded, Run, Step, Need, Gen, Eval, NoContext, ExecStmt, ExecAssign, Emit, StoreInto, GenAssign,
         GenReturn, TempsOnly, Grows;
    match s
    case End =>
      k, m1 := 0, m;
      NoStep(p, w, m, v, cx);
      AnyFuel(p, w, m, 0, m, Done(v, m.heap), fuel, cx, m.ip);
    case Next(first, rest) =>
      var s1 := GenStmt(first, st, cx).out;
      LoadedParts(p, w, pool, st, s1, st1);
      NeedsFrame(m, v, cx);
      var k1, b := RunStmt(first, p, w, pool, st, s1, m, v, cx, fuel);
      var o := ExecStmt(first, w, v, cx, m.heap, fuel);
      k, m1 := k1, b;
      if o.Done? {
        var k2, c := RunStmts(rest, p, w, pool, s1, st1, b, o.vars, cx, fuel);
        Before(p, w, m, k1, b, k2, c, Exec(rest, w, o.vars, cx, o.heap, fuel), fuel, cx, |st1.code|);
        k, m1 := k1 + k2, c;
      }
    case LastAssign(name, _, value) =>
      StorableIff(name.token.text, cx);
      k, m1 := RunAssign(name.token.text, ExprTree(value), p, w, pool, st, st1, m, v, cx);
      AnyFuel(p, w, m, k, m1, ExecAssign(name.token.text, ExprTree(value), w, v, cx, m.heap), fuel, cx, |st1.code|);
    case Return(_, value) =>
      k, m1 := RunReturn(if cx.scope.inBlock then RETURN_NON_LOCAL else RETURN_TOP, ExprTree(value), p, w, pool, st,
                         st1,
                         m, v, cx);
    case Value(value) =>
      k, m1 := RunReturn(RETURN_TOP, ExprTree(value), p, w, pool, st, st1, m, v, cx);
  }

  // ----------------------------------------------------------------- whole methods

  lemma StmtsStart(s: Stmts, cx: Context)
    requires WellFormedStmts(s, cx)
    ensures !IsSpecial(Head(StmtsLex(s)), "|") && !IsSpecial(Head(StmtsLex(s)), ":")
    decreases s
  {
    hide ExprLex;
    match s
    case End =>
    case Next(first, rest) =>
      if first.Drop? {
        ExprFirst(first.value, [first.dot]);
        NotABar(first.value);
        assert Head(StmtsLex(s)) == Head(ExprLex(first.value) + [first.dot]);
      }
    case LastAssign(name, becomes, value) =>
    case Return(caret, value) =>
    case Value(value) =>
      ExprFirst(value, []);
      NotABar(value);
      assert ExprLex(value) + [] == ExprLex(value);
  }

  lemma NotABar(e: Expr)
    requires WellFormedExpr(e)
    ensures !IsSpecial(PrimLex(e.head.first.prim)[0].token, "|") && PrimLex(e.head.first.prim) != []
    ensures !IsSpecial(PrimLex(e.head.first.prim)[0].token, ":")
  {
    assert WellFormedBinary(e.head) && WellFormedUnary(e.head.first);
    PrimStarts(e.head.first.prim);
  }

  lemma {:induction false} ParseTemps(temps: seq<Lexeme>, bar: Lexeme, rest: seq<Lexeme>, names: seq<string>)
    requires forall i :: 0 <= i < |temps| ==> temps[i].token.kind == Identifier
    requires IsSpecial(bar.token, "|") && |names| + |temps| <= TEMP_MAX
    ensures TempNames(temps + [bar] + rest, names) == Names(rest, names + Declared(temps))
    decreases |temps|
  {
    hide Clip;
    var all := temps + [bar] + rest;
    TempStep(temps, bar, rest, names);
    if temps != [] {
      hide TempNames, Declared;
      ParseTemps(temps[1..], bar, rest, names + [Clip(temps[0].token.text, NAME_MAX)]);
    }
  }

  lemma TempStep(temps: seq<Lexeme>, bar: Lexeme, rest: seq<Lexeme>, names: seq<string>)
    requires IsSpecial(bar.token, "|")
    ensures temps == [] ==> TempNames(temps + [bar] + rest, names) == Names(rest, names + Declared(temps))
    ensures temps != [] ==> names + Declared(temps)
                            == names + [Clip(temps[0].token.text, NAME_MAX)] + Declared(temps[1..])
    ensures temps != [] && temps[0].token.kind == Identifier && |names| < TEMP_MAX ==>
              TempNames(temps + [bar] + rest, names)
                  == TempNames(temps[1..] + [bar] + rest, names + [Clip(temps[0].token.text, NAME_MAX)])
  {
    hide Clip;
    var all := temps + [bar] + rest;
    if temps == [] {
      assert all[0] == bar && all[1..] == rest;
    } else {
      assert all[0] == temps[0] && all[1..] == temps[1..] + [bar] + rest;
      assert Declared(temps) == [Clip(temps[0].token.text, NAME_MAX)] + Declared(temps[1..]);
    }
  }

  /** The flag for a return is set exactly by statements with one, and no block is made. */
  lemma {:induction false} ReturnsFlag(s: Stmts, st: Output, cx: Context)
    requires WellFormedStmts(s, cx) && GenStmts(s, st, cx).Ok?
    ensures GenStmts(s, st, cx).out.sawReturn == (st.sawReturn || HasReturn(s))
    ensures GenStmts(s, st, cx).out.blocks == st.blocks
    decreases s, 0
  {
    hide Gen, EmitRef, Emit, ExprTree, StoreInto;
    match s
    case End =>
    case Next(first, rest) =>
      StmtFlag(first, st, cx);
      ReturnsFlag(rest, GenStmt(first, st, cx).out, cx);
    case LastAssign(name, _, value) => AssignFlag(name.token.text, ExprTree(value), st, cx);
    case Return(_, value) => ReturnFlag(if cx.scope.inBlock then RETURN_NON_LOCAL else RETURN_TOP, ExprTree(value),
                                        st, cx);
    case Value(value) => ReturnFlag(RETURN_TOP, ExprTree(value), st, cx);
  }

  lemma ReturnFlag(op: Byte, value: Term, st: Output, cx: Context)
    ensures var p := GenReturn(op, value, st, cx); p.Ok? ==> p.out.sawReturn && p.out.blocks == st.blocks
  {
    hide Gen;
    GenFlag(value, st, cx);
  }

  lemma {:induction false} StmtFlag(s: Stmt, st: Output, cx: Context)
    requires WellFormedStmt(s, cx) && GenStmt(s, st, cx).Ok?
    ensures GenStmt(s, st, cx).out.sawReturn == (st.sawReturn || (s.While? && HasReturn(s.body)))
    ensures GenStmt(s, st, cx).out.blocks == st.blocks
    decreases s, 1
  {
    hide Gen, EmitRef, Emit, ExprTree, StoreInto, GenStmts, HasReturn;
    match s
    case Blank(_) =>
    case Assign(name, _, value, _) => AssignFlag(name.token.text, ExprTree(value), st, cx);
    case Drop(value, _) =>
      GenFlag(ExprTree(value), st, cx);
      EmitFlag(Gen(ExprTree(value), st, cx).out, [POP]);
    case While(_, cond, _, _, _, body, _, _) =>
      var s1 := Gen(ExprTree(cond), st, cx).out;
      GenFlag(ExprTree(cond), st, cx);
      EmitFlag(s1, [JUMP_IF_FALSE] + U32(0));
      var s2 := Emit([], s1, [JUMP_IF_FALSE] + U32(0)).out;
      ReturnsFlag(body, s2, cx);
      EndFlag(GenStmts(body, s2, cx).out, |st.code|, |s1.code| + 1);
      EmitFlag(GenLoop(ExprTree(cond), body, st, cx).out, [POP]);
  }

  lemma EmitFlag(st: Output, bytes: seq<Byte>)
    ensures var p := Emit([], st, bytes); p.Ok? ==> p.out.sawReturn == st.sawReturn && p.out.blocks == st.blocks
                                                    && |p.out.code| == |st.code| + |bytes|
  {
  }

  lemma EndFlag(st: Output, start: nat, exit: nat)
    requires exit + 4 <= |st.code|
    ensures var p := LoopEnd([], st, start, exit); p.Ok? ==> p.out.sawReturn == st.sawReturn
                                                             && p.out.blocks == st.blocks
  {
    hide U32, Patch;
  }

  lemma AssignFlag(name: string, value: Term, st: Output, cx: Context)
    ensures var p := GenAssign(name, value, st, cx); p.Ok? ==> p.out.sawReturn == st.sawReturn
                                                               && p.out.blocks == st.blocks
  {
    hide Gen, StoreInto;
    GenFlag(value, st, cx);
  }

  lemma {:induction false} GenFlag(t: Term, st: Output, cx: Context)
    ensures var p := Gen(t, st, cx); p.Ok? ==> p.out.sawReturn == st.sawReturn && p.out.blocks == st.blocks
    decreases t
  {
    match t
    case Leaf(token) =>
      hide Find, OuterArgSlot, OuterTempSlot, TempSlot, U32;
    case Send(receiver, selector, args) =>
      GenFlag(receiver, st, cx);
      var r := Gen(receiver, st, cx);
      if r.Ok? {
        ArgsFlag(args, r.out, cx);
      }
      hide U32, FindLiteral;
  }

  lemma {:induction false} ArgsFlag(a: Args, st: Output, cx: Context)
    ensures var p := GenArgs(a, st, cx); p.Ok? ==> p.out.sawReturn == st.sawReturn && p.out.blocks == st.blocks
    decreases a
  {
    if a.Plus? {
      ArgsFlag(a.front, st, cx);
      var f := GenArgs(a.front, st, cx);
      if f.Ok? {
        GenFlag(a.last, f.out, cx);
      }
    }
  }

  /** The declarations in front of statements, and the statements after them. */
  lemma TempsParsed(m: Method, cx: Context)
    requires WellFormedTemps(m) && WellFormedStmts(m.body, cx)
    ensures TempDecls(MethodLex(m)) == Names(StmtsLex(m.body), Declared(m.temps))
    ensures !IsSpecial(Head(MethodLex(m)), ":")
  {
    hide StmtsLex;
    StmtsStart(m.body, cx);
    if m.bars == [] {
      assert Declared(m.temps) == [];
    } else {
      var rest := m.temps + [m.bars[1]] + StmtsLex(m.body);
      var toks := MethodLex(m);
      assert toks == [m.bars[0]] + rest;
      assert toks[0] == m.bars[0] && toks[1..] == rest;
      ParseTemps(m.temps, m.bars[1], StmtsLex(m.body), []);
      assert [] + Declared(m.temps) == Declared(m.temps);
    }
  }

  /** Compiling the tokens of a method gives the code of its statements, if they return anywhere and it fits. */
  lemma CompileMethod(m: Method, args: seq<string>, ivars: seq<string>)
    requires WellFormedMethod(m, args, ivars)
    ensures CompileBody(MethodLex(m), [], args, [], ivars, false, 0)
            == Finish(GenStmts(m.body, Output([], [], [], false), MethodContext(m, args, ivars)), false, |args|,
                      |m.temps|)
  {
    hide Statements, StmtsLex, GenStmts, Finish, MethodLex;
    var cx := MethodContext(m, args, ivars);
    TempsParsed(m, cx);
    ParseStmts(m.body, Output([], [], [], false), cx);
  }

  lemma {:induction false} ParseBlockArgs(args: seq<BlockArg>, bar: Lexeme, rest: seq<Lexeme>, names: seq<string>)
    requires args != [] && |names| + |args| <= ARG_MAX && IsSpecial(bar.token, "|")
    requires forall i :: 0 <= i < |args| ==> IsSpecial(args[i].colon.token, ":")
                                             && args[i].name.token.kind == Identifier
    ensures ArgNames([args[0].name] + ArgsLex(args[1..]) + [bar] + rest, names)
            == Names(rest, names + ArgsDeclared(args))
    decreases |args|
  {
    hide Clip;
    var toks := [args[0].name] + ArgsLex(args[1..]) + [bar] + rest;
    var more := names + [Clip(args[0].name.token.text, NAME_MAX)];
    assert toks[0] == args[0].name && toks[1..] == ArgsLex(args[1..]) + [bar] + rest;
    assert names + ArgsDeclared(args) == more + ArgsDeclared(args[1..]);
    if |args| == 1 {
      assert toks[1..] == [bar] + rest && ([bar] + rest)[1..] == rest && more + [] == more;
    } else {
      var next := args[1..];
      var tail := [next[0].name] + ArgsLex(next[1..]) + [bar] + rest;
      assert toks[1..] == [next[0].colon] + tail && ([next[0].colon] + tail)[1..] == tail;
      ParseBlockArgs(next, bar, rest, more);
    }
  }

  lemma BlockArgsParsed(b: Block, cx: Context)
    requires WellFormedBlock(b, cx)
    ensures BlockHeader(BlockLex(b)) == Names(MethodLex(b.rest), ArgsDeclared(b.args))
  {
    hide MethodLex, TempDecls;
    TempsParsed(b.rest, BlockContext(b, cx));
    if b.args != [] {
      var toks, tail := BlockLex(b), [b.args[0].name] + ArgsLex(b.args[1..]) + [b.bar] + MethodLex(b.rest);
      assert toks == [b.args[0].colon] + tail && toks[0] == b.args[0].colon && toks[1..] == tail;
      ParseBlockArgs(b.args, b.bar, MethodLex(b.rest), []);
      assert [] + ArgsDeclared(b.args) == ArgsDeclared(b.args);
    }
  }

  /** A block literal of the grammar, in its surroundings: the first try compiles it, unless it does not fit. */
  lemma CompileBlockLiteral(b: Block, text: string, blocks: seq<Body>, cx: Context)
    requires WellFormedBlock(b, cx) && |blocks| < BLOCK_MAX
    ensures var own := BlockContext(b, cx);
            CompileBlock(BlockLex(b), text, blocks, cx)
            == Finish(GenStmts(b.rest.body, Output([], [], blocks + [EMPTY_BODY], false), own), true, |b.args|,
                      |b.rest.temps|)
  {
    hide Statements, StmtsLex, GenStmts, MethodLex, BlockLex, BlockHeader, TempDecls, Implicit, EmitRef;
    var own := BlockContext(b, cx);
    var o0 := Output([], [], blocks + [EMPTY_BODY], false);
    BlockArgsParsed(b, cx);
    TempsParsed(b.rest, own);
    ParseStmts(b.rest.body, o0, own);
    assert Statements(StmtsLex(b.rest.body), o0, own) == GenStmts(b.rest.body, o0, own);
  }

  // ----------------------------------------------------------------- a compiled body, run

  /** The compiled body as a program: its byte codes and the values of its literal pool. */
  function Loading(b: Body, w: World): Program {
    Program(b.code, Literals(w, b.pool))
  }

  /** Statements compiled into a body of their own, with the end that they need. */
  predicate Compiles(s: Stmts, cx: Context, blocks: seq<Body>, b: Body) {
    && WellFormedStmts(s, cx)
    && var c := Finish(GenStmts(s, Output([], [], blocks, false), cx), cx.scope.inBlock, |cx.scope.args|,
                       |cx.scope.temps|);
       c.Accepted? && c.body == b
  }

  /** What the code is made of: the statements' own, and nil for a block that returns nothing anywhere. */
  lemma FinishParts(s: Stmts, cx: Context, blocks: seq<Body>, b: Body) returns (o1: Output, o2: Output)
    requires Compiles(s, cx, blocks, b)
    ensures GenStmts(s, Output([], [], blocks, false), cx) == Ok([], o1) && |b.code| <= CODE_MAX
    ensures b.args == |cx.scope.args| && b.temps == |cx.scope.temps|
    ensures o1.code <= b.code && o1.pool <= b.pool && |b.pool| <= POOL_MAX
    ensures HasReturn(s) ==> o1.code == b.code
    ensures !HasReturn(s) ==>
              && cx.scope.inBlock && EmitRef([], o1, PUSH_LITERAL, NIL_TOKEN, []) == Ok([], o2)
              && b.code == o2.code + [RETURN_TOP] && b.pool == o2.pool && o1.code <= o2.code
  {
    hide GenStmts, EmitRef, HasReturn;
    var o0 := Output([], [], blocks, false);
    var p := GenStmts(s, o0, cx);
    ReturnsFlag(s, o0, cx);
    o1, o2 := p.out, p.out;
    if !HasReturn(s) {
      o2 := EmitRef([], o1, PUSH_LITERAL, NIL_TOKEN, []).out;
    }
  }

  /** The machine has ended as execution does, at the end of the body too. */
  ghost predicate BodyEnds(o: Outcome, s: Stmts, b: Body, w: World, st: State, k: nat, st1: State, cx: Context,
                           fuel: nat) {
    var p := Loading(b, w);
    match o
    case Gave(x, h) => Run(p, w, st, k) == Returned(x, st1) && st1.heap == h && ReturnedTo(st, st1, x, cx)
    case Leaves(x, h) =>
      && Run(p, w, st, k) == Left(x, st1) && st1.heap == h && st1.sp + 1 == st.sp && TempsOnly(st, st1, cx)
    case Done(v, h) =>
      if HasReturn(s) then
        Run(p, w, st, k) == Running(st1) && st1.heap == h && st1.ip == |b.code| && FrameHolds(st1, v, cx)
      else Run(p, w, st, k) == Returned(W.NIL, st1) && st1.heap == h && ReturnedTo(st, st1, W.NIL, cx)
    case OutOfFuel => Run(p, w, st, k).Running? && k > fuel
  }

  /** The answer in the receiver's place, and everything above it as it was. */
  predicate ReturnedTo(st: State, st1: State, x: Word, cx: Context) {
    && |st1.mem| == |st.mem| && st1.sp == st.fp + 2 + |cx.scope.args| < |st1.mem| && st1.mem[st1.sp] == x
    && forall i :: st1.sp < i < |st.mem| ==> st1.mem[i] == st.mem[i]
  }

  /** A frame just entered for the scope: it holds the variables, and the stack is deep enough. */
  ghost predicate Entered(st: State, s: Stmts, v: Vars, cx: Context)
    requires WellFormedStmts(s, cx)
  {
    st.ip == 0 && FrameHolds(st, v, cx) && st.sp >= Max(1, NeedStmts(s, cx))
  }

  /** One fuel: the machine has ended as execution has, or has run longer than the fuel. */
  lemma RunBody(s: Stmts, cx: Context, blocks: seq<Body>, b: Body, w: World, st: State, v: Vars, fuel: nat)
    returns (k: nat, st1: State)
    requires Scoped(cx) && Compiles(s, cx, blocks, b) && Evaluable(s, cx) && Entered(st, s, v, cx)
    ensures BodyEnds(Exec(s, w, v, cx, st.heap, fuel), s, b, w, st, k, st1, cx, fuel)
  {
    hide Exec, Run, FrameHolds, NeedStmts, GenStmts, Evaluable, WellFormedStmts, EmitRef, HasReturn, SlotCount,
         Literals;
    var p, o0 := Loading(b, w), Output([], [], blocks, false);
    var o1, o2 := FinishParts(s, cx, blocks, b);
    assert Loaded(p, w, b.pool, o0, o1);
    k, st1 := RunStmts(s, p, w, b.pool, o0, o1, st, v, cx, fuel);
    var o := Exec(s, w, v, cx, st.heap, fuel);
    if o.Done? && !HasReturn(s) {
      var k1, m := RunNil(p, w, b, o1, o2, st1, o.vars, cx);
      RunSplit(p, w, st, k, k1);
      k, st1 := k + k1, m;
      NeedsFrame(st, v, cx);
    }
  }

  /** The end of a block that returns nothing: nil is pushed and returned. */
  lemma RunNil(p: Program, w: World, b: Body, o1: Output, o2: Output, m: State, v: Vars, cx: Context)
    returns (k: nat, m1: State)
    requires EmitRef([], o1, PUSH_LITERAL, NIL_TOKEN, []) == Ok([], o2) && p.code == b.code == o2.code + [RETURN_TOP]
    requires p.literals == Literals(w, b.pool) && b.pool == o2.pool && |b.pool| <= POOL_MAX && |b.code| <= CODE_MAX
    requires FrameHolds(m, v, cx) && m.ip == |o1.code| && m.sp >= 1
    ensures Run(p, w, m, k) == Returned(W.NIL, m1) && m1.heap == m.heap && ReturnedTo(m, m1, W.NIL, cx)
  {
    hide Run, FrameHolds, EmitRef, Step, Literals;
    NeedsFrame(m, v, cx);
    assert p.code[|o1.code|..|o2.code|] == o2.code[|o1.code|..];
    assert Loaded(p, w, b.pool, o1, o2);
    var d := LiteralStep(NIL_TOKEN, PUSH_LITERAL, p, w, b.pool, o1, o2, m, W.NIL);
    assert p.code[|o2.code|] == RETURN_TOP;
    FrameKept(m, d, v, cx);
    NeedsFrame(d, v, cx);
    m1 := ReturnStep(p, w, d);
    RunThenReturned(p, w, m, 1, d);
    k := 2;
  }

  /** Execution gives this value and heap to the caller; a block that returns nothing gives nil. */
  ghost predicate Answers(o: Outcome, s: Stmts, value: Word, heap: Heap) {
    o == Gave(value, heap) || (o.Done? && !HasReturn(s) && value == W.NIL && o.heap == heap)
  }

  /** Execution gets to the end of statements that return somewhere, but not there. */
  predicate FallsOff(o: Outcome, s: Stmts) { o.Done? && HasReturn(s) }

  /**
   The compiled body returns a value with a heap exactly when direct execution answers it, leaves its
   home with a value and a heap exactly when execution does, and runs off the end of its code exactly
   when execution gets to the end of statements that return, but not there.  When loops never end it
   does none of these.
   */
  lemma BodyCorrect(s: Stmts, cx: Context, blocks: seq<Body>, b: Body, w: World, st: State, v: Vars, value: Word,
                    heap: Heap)
    requires Scoped(cx) && Compiles(s, cx, blocks, b) && Evaluable(s, cx) && Entered(st, s, v, cx)
    ensures (exists fuel :: Answers(Exec(s, w, v, cx, st.heap, fuel), s, value, heap))
       <==> (exists k, st1 :: Run(Loading(b, w), w, st, k) == Returned(value, st1) && st1.heap == heap)
    ensures (exists fuel :: Exec(s, w, v, cx, st.heap, fuel) == Leaves(value, heap))
       <==> (exists k, st1 :: Run(Loading(b, w), w, st, k) == Left(value, st1) && st1.heap == heap)
    ensures (exists fuel :: FallsOff(Exec(s, w, v, cx, st.heap, fuel), s))
       <==> (exists k, st1 :: Run(Loading(b, w), w, st, k) == Running(st1) && st1.ip == |b.code|)
  {
    hide *;
    AnswersIff(s, cx, blocks, b, w, st, v, value, heap);
    LeavesIff(s, cx, blocks, b, w, st, v, value, heap);
    FallsOffIff(s, cx, blocks, b, w, st, v);
  }

  lemma CompiledForm(s: Stmts, cx: Context, blocks: seq<Body>, b: Body)
    requires Compiles(s, cx, blocks, b)
    ensures WellFormedStmts(s, cx)
  {
    hide Finish, GenStmts, WellFormedStmts;
  }

  lemma AnswersIff(s: Stmts, cx: Context, blocks: seq<Body>, b: Body, w: World, st: State, v: Vars, value: Word,
                   heap: Heap)
    requires Scoped(cx) && Compiles(s, cx, blocks, b) && Evaluable(s, cx) && Entered(st, s, v, cx)
    ensures (exists fuel :: Answers(Exec(s, w, v, cx, st.heap, fuel), s, value, heap))
       <==> (exists k, st1 :: Run(Loading(b, w), w, st, k) == Returned(value, st1) && st1.heap == heap)
  {
    hide *;
    CompiledForm(s, cx, blocks, b);
    var p := Loading(b, w);
    if fuel :| Answers(Exec(s, w, v, cx, st.heap, fuel), s, value, heap) {
      var k, st1 := RunBody(s, cx, blocks, b, w, st, v, fuel);
      EndsAlike(Exec(s, w, v, cx, st.heap, fuel), s, b, w, st, k, st1, cx, fuel, value, heap);
      assert Run(p, w, st, k) == Returned(value, st1) && st1.heap == heap;
    }
    if k: nat, st1 :| Run(p, w, st, k) == Returned(value, st1) && st1.heap == heap {
      var k1, st2 := RunBody(s, cx, blocks, b, w, st, v, k);
      EndsAlike(Exec(s, w, v, cx, st.heap, k), s, b, w, st, k1, st2, cx, k, value, heap);
      EndsOnce(p, w, st, k, k1, b);
      assert Answers(Exec(s, w, v, cx, st.heap, k), s, value, heap);
    }
  }

  lemma LeavesIff(s: Stmts, cx: Context, blocks: seq<Body>, b: Body, w: World, st: State, v: Vars, value: Word,
                  heap: Heap)
    requires Scoped(cx) && Compiles(s, cx, blocks, b) && Evaluable(s, cx) && Entered(st, s, v, cx)
    ensures (exists fuel :: Exec(s, w, v, cx, st.heap, fuel) == Leaves(value, heap))
       <==> (exists k, st1 :: Run(Loading(b, w), w, st, k) == Left(value, st1) && st1.heap == heap)
  {
    hide *;
    CompiledForm(s, cx, blocks, b);
    var p := Loading(b, w);
    if fuel :| Exec(s, w, v, cx, st.heap, fuel) == Leaves(value, heap) {
      var k, st1 := RunBody(s, cx, blocks, b, w, st, v, fuel);
      EndsAlike(Exec(s, w, v, cx, st.heap, fuel), s, b, w, st, k, st1, cx, fuel, value, heap);
      assert Run(p, w, st, k) == Left(value, st1) && st1.heap == heap;
    }
    if k: nat, st1 :| Run(p, w, st, k) == Left(value, st1) && st1.heap == heap {
      var k1, st2 := RunBody(s, cx, blocks, b, w, st, v, k);
      EndsAlike(Exec(s, w, v, cx, st.heap, k), s, b, w, st, k1, st2, cx, k, value, heap);
      EndsOnce(p, w, st, k, k1, b);
      assert Exec(s, w, v, cx, st.heap, k) == Leaves(value, heap);
    }
  }

  lemma FallsOffIff(s: Stmts, cx: Context, blocks: seq<Body>, b: Body, w: World, st: State, v: Vars)
    requires Scoped(cx) && Compiles(s, cx, blocks, b) && Evaluable(s, cx) && Entered(st, s, v, cx)
    ensures (exists fuel :: FallsOff(Exec(s, w, v, cx, st.heap, fuel), s))
       <==> (exists k, st1 :: Run(Loading(b, w), w, st, k) == Running(st1) && st1.ip == |b.code|)
  {
    hide *;
    CompiledForm(s, cx, blocks, b);
    var p := Loading(b, w);
    if fuel :| FallsOff(Exec(s, w, v, cx, st.heap, fuel), s) {
      var k, st1 := RunBody(s, cx, blocks, b, w, st, v, fuel);
      EndsAlike(Exec(s, w, v, cx, st.heap, fuel), s, b, w, st, k, st1, cx, fuel, 0, st.heap);
      assert Run(p, w, st, k) == Running(st1) && st1.ip == |b.code|;
    }
    if k: nat, st1 :| Run(p, w, st, k) == Running(st1) && st1.ip == |b.code| {
      StuckAtEnd(p, w, st, k, b, st1);
      var k1, st2 := RunBody(s, cx, blocks, b, w, st, v, k + 1);
      EndsAlike(Exec(s, w, v, cx, st.heap, k + 1), s, b, w, st, k1, st2, cx, k + 1, 0, st.heap);
      EndsOnce(p, w, st, k + 1, k1, b);
      assert FallsOff(Exec(s, w, v, cx, st.heap, k + 1), s);
    }
  }

  /** A run and an execution that have ended alike, ending by ending.  No body gets stuck before its end. */
  lemma EndsAlike(o: Outcome, s: Stmts, b: Body, w: World, st: State, k: nat, st1: State, cx: Context, fuel: nat,
                  value: Word, heap: Heap)
    requires BodyEnds(o, s, b, w, st, k, st1, cx, fuel)
    ensures var r := Run(Loading(b, w), w, st, k);
            && (Answers(o, s, value, heap) <==> r.Returned? && r.value == value && r.state.heap == heap)
            && (o == Leaves(value, heap) <==> r.Left? && r.value == value && r.state.heap == heap)
            && (!r.Stuck? ==> r.state == st1 || o.OutOfFuel?)
            && (FallsOff(o, s) ==> r == Running(st1) && st1.ip == |b.code|)
            && (o.OutOfFuel? ==> r.Running? && k > fuel)
            && (!FallsOff(o, s) && !o.OutOfFuel? ==> !r.Running?)
            && r != Stuck
  {
    hide Run, FrameHolds, ReturnedTo, TempsOnly, HasReturn, Loading;
  }

  /** At the end of the code there is no instruction. */
  lemma StuckAtEnd(p: Program, w: World, st: State, k: nat, b: Body, st1: State)
    requires p == Loading(b, w) && Run(p, w, st, k) == Running(st1) && st1.ip == |b.code|
    ensures Run(p, w, st, k + 1) == Stuck
  {
    RunSplit(p, w, st, k, 1);
    assert Step(p, w, st1) == Stuck;
  }

  /** A run that has ended, against another from the same state: it has ended alike, or it is not yet there. */
  lemma EndsOnce(p: Program, w: World, m: State, a: nat, b: nat, body: Body)
    requires !Run(p, w, m, a).Running? && p == Loading(body, w)
    ensures b >= a ==> Run(p, w, m, b) == Run(p, w, m, a)
    ensures !Run(p, w, m, b).Running? ==> Run(p, w, m, b) == Run(p, w, m, a)
    ensures Run(p, w, m, b).Running? && Run(p, w, m, b).state.ip == |body.code| ==> Run(p, w, m, a) == Stuck
  {
    hide Run;
    SameEnd(p, w, m, a, b);
    if Run(p, w, m, b).Running? && Run(p, w, m, b).state.ip == |body.code| {
      RunSplit(p, w, m, b, 1);
      NoMore(p, w, Run(p, w, m, b).state);
      SameEnd(p, w, m, a, b + 1);
    }
  }

  lemma NoMore(p: Program, w: World, m: State)
    requires m.ip == |p.code|
    ensures Run(p, w, m, 1) == Stuck
  {
  }

  // ----------------------------------------------------------------- methods and blocks

  predicate MethodOk(m: Method, args: seq<string>, ivars: seq<string>) {
    && WellFormedMethod(m, args, ivars) && |args| <= ARG_MAX && |ivars| < W.TWO_32
    && Evaluable(m.body, MethodContext(m, args, ivars))
  }

  lemma MethodCompiles(m: Method, args: seq<string>, ivars: seq<string>, b: Body, blocks: seq<Body>)
    requires MethodOk(m, args, ivars)
    requires CompileBody(MethodLex(m), [], args, [], ivars, false, 0) == Accepted(b, blocks)
    ensures var cx := MethodContext(m, args, ivars); Scoped(cx) && Compiles(m.body, cx, [], b) && HasReturn(m.body)
    ensures b.args == |args| && b.temps == |m.temps|
  {
    hide CompileBody, MethodLex, GenStmts, Evaluable, WellFormedStmts, EmitRef, HasReturn;
    var cx := MethodContext(m, args, ivars);
    assert WellFormedStmts(m.body, cx);
    CompileMethod(m, args, ivars);
    ReturnsFlag(m.body, Output([], [], [], false), cx);
  }

  /**
   The compiled method returns a value with a heap exactly when direct execution of its source does,
   and runs off its end exactly when execution gets there: a return in the body of a loop is enough
   for it to be accepted.  A method whose loops never end does neither.
   */
  lemma CompilerCorrect(m: Method, args: seq<string>, ivars: seq<string>, b: Body, blocks: seq<Body>, w: World,
                        st: State, v: Vars, value: Word, heap: Heap)
    requires MethodOk(m, args, ivars) && Entered(st, m.body, v, MethodContext(m, args, ivars))
    requires CompileBody(MethodLex(m), [], args, [], ivars, false, 0) == Accepted(b, blocks)
    ensures b.args == |args| && b.temps == |m.temps|
    ensures var cx := MethodContext(m, args, ivars);
            && ((exists fuel :: Exec(m.body, w, v, cx, st.heap, fuel) == Gave(value, heap))
                <==> (exists k, st1 :: Run(Loading(b, w), w, st, k) == Returned(value, st1) && st1.heap == heap))
            && ((exists fuel :: Exec(m.body, w, v, cx, st.heap, fuel).Done?)
                <==> (exists k, st1 :: Run(Loading(b, w), w, st, k) == Running(st1) && st1.ip == |b.code|))
  {
    hide CompileBody, MethodLex, Exec, Run, Entered, Loading, Evaluable, HasReturn, Scoped, Compiles;
    var cx := MethodContext(m, args, ivars);
    assert WellFormedStmts(m.body, cx);
    hide WellFormedStmts;
    MethodCompiles(m, args, ivars, b, blocks);
    BodyCorrect(m.body, cx, [], b, w, st, v, value, heap);
    forall fuel: nat
      ensures Answers(Exec(m.body, w, v, cx, st.heap, fuel), m.body, value, heap)
              <==> Exec(m.body, w, v, cx, st.heap, fuel) == Gave(value, heap)
      ensures FallsOff(Exec(m.body, w, v, cx, st.heap, fuel), m.body) <==> Exec(m.body, w, v, cx, st.heap, fuel).Done?
    {
    }
  }

  /**
   A block literal of the grammar, compiled in its surroundings and run in a frame of its own: it
   returns a value, leaves its home with one, or runs off its end exactly when direct execution does.
   */
  lemma BlockCorrect(d: Block, text: string, blocks: seq<Body>, cx: Context, b: Body, blocks1: seq<Body>, w: World,
                     st: State, v: Vars, value: Word, heap: Heap)
    requires WellFormedBlock(d, cx) && |blocks| < BLOCK_MAX && Scoped(BlockContext(d, cx))
    requires CompileBlock(BlockLex(d), text, blocks, cx) == Accepted(b, blocks1)
    requires var own, s := BlockContext(d, cx), d.rest.body; Evaluable(s, own) && Entered(st, s, v, own)
    ensures b.args == |d.args| && b.temps == |d.rest.temps|
    ensures var own, s := BlockContext(d, cx), d.rest.body;
            && ((exists fuel :: Answers(Exec(s, w, v, own, st.heap, fuel), s, value, heap))
                <==> (exists k, st1 :: Run(Loading(b, w), w, st, k) == Returned(value, st1) && st1.heap == heap))
            && ((exists fuel :: Exec(s, w, v, own, st.heap, fuel) == Leaves(value, heap))
                <==> (exists k, st1 :: Run(Loading(b, w), w, st, k) == Left(value, st1) && st1.heap == heap))
            && ((exists fuel :: FallsOff(Exec(s, w, v, own, st.heap, fuel), s))
                <==> (exists k, st1 :: Run(Loading(b, w), w, st, k) == Running(st1) && st1.ip == |b.code|))
  {
    var own, s := BlockContext(d, cx), d.rest.body;
    assert WellFormedStmts(s, own);
    assert Compiles(s, own, blocks + [EMPTY_BODY], b) && b.args == |d.args| && b.temps == |d.rest.temps| by {
      hide CompileBlock, BlockLex, GenStmts, WellFormedStmts, Finish, Entered;
      CompileBlockLiteral(d, text, blocks, cx);
    }
    hide *;
    BodyCorrect(s, own, blocks + [EMPTY_BODY], b, w, st, v, value, heap);
  }

  /** Two runs from the same state end alike; one that has ended is not running later. */
  lemma SameEnd(p: Program, w: World, m: State, a: nat, b: nat)
    requires !Run(p, w, m, a).Running?
    ensures b >= a ==> Run(p, w, m, b) == Run(p, w, m, a)
    ensures !Run(p, w, m, b).Running? ==> Run(p, w, m, b) == Run(p, w, m, a)
  {
    hide Run;
    if b >= a {
      RunEnded(p, w, m, a, b);
    } else if !Run(p, w, m, b).Running? {
      RunEnded(p, w, m, b, a);
    }
  }
}
