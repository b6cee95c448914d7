/**
 What literal methods return and what literal conditions do, in the machine's words: no name of the
 literals' translation appears in what is stated here.
 */
module Constants {
  import opened Lexer
  import opened Codegen
  import opened Trees
  import opened Programs
  import opened Machine
  import opened Stores
  import opened Meaning
  import opened Execution
  import W = Words

  /** The word that a literal stands for; strings, symbols and arrays are objects made elsewhere. */
  predicate Means(t: Token, x: Word) {
    && (t.kind == Identifier && t.text == "nil" ==> x == 0x03)
    && (t.kind == Identifier && t.text == "true" ==> x == 0x07)
    && (t.kind == Identifier && t.text == "false" ==> x == 0x0B)
    && (t.kind == Integer ==> x == (4 * t.value + 1) % 0x1_0000_0000_0000_0000)
    && (t.kind == Character ==> x == (16 * t.value + 15) % 0x1_0000_0000_0000_0000)
  }

  lemma EvaluatesTo(t: Token, w: World, v: Vars, ivars: seq<string>, h: Heap)
    ensures Means(t, EvalLeaf(t, w, v, ivars, h))
    ensures t.kind == Identifier && (t.text == "self" || t.text == "super") ==>
            EvalLeaf(t, w, v, ivars, h) == v.receiver
    ensures t.kind == Identifier && !Reserved(t.text) && t.text !in v.named && t.text !in ivars ==>
              var key := (w.association(t.text), 1); EvalLeaf(t, w, v, ivars, h) == if key in h then h[key] else 0
  {
  }

  /** A method that returns a literal returns its word, with the heap as it was. */
  lemma ConstantReturned(m: Method, t: Token, args: seq<string>, ivars: seq<string>, b: Body, blocks: seq<Body>,
                         w: World, st: State, v: Vars)
    returns (k: nat, st1: State, x: Word)
    requires MethodOk(m, args, ivars) && Entered(st, m.body, v, MethodContext(m, args, ivars))
    requires CompileBody(MethodLex(m), [], args, [], ivars, false, 0) == Accepted(b, blocks)
    requires m.body.Return? && ExprTree(m.body.value) == Leaf(t)
    ensures Run(Loading(b, w), w, st, k) == Returned(x, st1) && st1.heap == st.heap && Means(t, x)
    ensures t.kind == Identifier && (t.text == "self" || t.text == "super") ==> x == st.mem[st.fp - 4]
    ensures t.kind == Identifier && !Reserved(t.text) && t.text !in v.named && t.text !in ivars ==>
              var key := (w.association(t.text), 1); x == if key in st.heap then st.heap[key] else 0
  {
    hide CompileBody, MethodLex, Run, Loading, Compiles, Scoped, ReturnedTo, WellFormedExpr, EvalLeaf;
    var cx := MethodContext(m, args, ivars);
    MethodCompiles(m, args, ivars, b, blocks);
    k, st1 := RunBody(m.body, cx, [], b, w, st, v, 0);
    x := EvalLeaf(t, w, v, ivars, st.heap);
    EvaluatesTo(t, w, v, ivars, st.heap);
    assert Exec(m.body, w, v, cx, st.heap, 0) == Gave(x, st.heap);
  }

  /** The byte codes of names and literals, as numbers. */
  lemma AtomCodes(t: Token, st: Output, st1: Output, cx: Context)
    requires EmitAtom(t, [], st, cx) == Ok([], st1)
    ensures st.code <= st1.code && |st.code| < |st1.code|
    ensures var code := st1.code[|st.code|..];
            && (t.kind == Identifier && t.text in {"self", "super"} ==> code == [3])
            && (t.kind == Identifier && t.text == "thisContext" ==> code == [17])
            && (t.kind != Identifier || t.text in {"nil", "true", "false"} ==> |code| == 5 && code[0] == 0)
            && (t.kind == Identifier && !Reserved(t.text) ==> |code| == 5 && code[0] in {1, 2, 15, 18})
  {
    hide Find, OuterArgSlot, OuterTempSlot, TempSlot, FindLiteral, Interned;
  }

  /** The byte codes of variables with a slot below 256: the slot is the first of four operand bytes. */
  lemma SlotCodes(t: Token, st: Output, st1: Output, cx: Context, n: nat)
    requires EmitAtom(t, [], st, cx) == Ok([], st1) && t.kind == Identifier && !Reserved(t.text) && n < 256
    requires cx.outers == [] && !cx.scope.inBlock
    ensures var code := st1.code[|st.code|..];
            && (Find(cx.scope.temps, t.text) == n ==> code == [2, n, 0, 0, 0])
            && (t.text !in cx.scope.temps && Find(cx.scope.args, t.text) == n ==> code == [15, n, 0, 0, 0])
            && (t.text !in cx.scope.temps && t.text !in cx.scope.args && Find(cx.ivars, t.text) == n ==>
                  code == [1, n, 0, 0, 0])
  {
    hide Find, FindLiteral, Interned;
  }

  /** A literal other than `false`. */
  predicate NotFalse(t: Token) {
    t.kind == Integer || t.kind == Character || (t.kind == Identifier && (t.text == "true" || t.text == "nil"))
  }

  lemma NeverFalse(t: Token, x: Word)
    requires NotFalse(t) && Means(t, x)
    ensures x != 0x0B
  {
    if t.kind == Integer {
      LowBits(4 * t.value + 1, x);
    } else if t.kind == Character {
      LowBits(16 * t.value + 15, x);
    }
  }

  /** Wrapping around keeps the tag: 1, and not 11, in the low bits of an integer, 15 in those of a character. */
  lemma LowBits(y: int, x: Word)
    requires x == y % 0x1_0000_0000_0000_0000
    ensures y % 4 == 1 ==> x != 0x0B
    ensures y % 16 == 15 ==> x != 0x0B
  {
    var k := 0x1000_0000_0000_0000 * (y / 0x1_0000_0000_0000_0000);
    assert y == x + 16 * k;
    SameTag(x, y, k);
  }

  lemma SameTag(x: int, y: int, k: int)
    requires y == x + 16 * k
    ensures x == 11 ==> y % 16 == 11 && y % 4 == 3
  {
    if x == 11 {
      By16(y, k);
      By4(y, 4 * k + 2);
    }
  }

  lemma By16(y: int, k: int)
    requires y == 16 * k + 11
    ensures y % 16 == 11
  {
    assert 16 * (y / 16 - k) == 11 - y % 16;
  }

  lemma By4(y: int, k: int)
    requires y == 4 * k + 3
    ensures y % 4 == 3
  {
    assert 4 * (y / 4 - k) == 3 - y % 4;
  }

  /** A loop whose condition is `false` runs its body no time. */
  lemma FalseLoop(s: Stmt, t: Token, p: Program, w: World, pool: seq<Token>, st: Output, st1: Output, m: State, v: Vars,
                  cx: Context)
    returns (k: nat, m1: State)
    requires WellFormedStmt(s, cx) && EvaluableStmt(s, cx) && Scoped(cx)
    requires s.While? && ExprTree(s.cond) == Leaf(t) && t.kind == Identifier && t.text == "false"
    requires GenStmt(s, st, cx) == Ok([], st1) && Loaded(p, w, pool, st, st1)
    requires FrameHolds(m, v, cx) && m.ip == |st.code| && m.sp >= NeedStmt(s, cx)
    ensures Run(p, w, m, k) == Running(m1) && m1.ip == |st1.code| && m1.heap == m.heap && m1.sp == m.sp
            && FrameHolds(m1, v, cx)
  {
    hide Run, Loaded, FrameHolds, GenStmt, WellFormedStmt, EvaluableStmt, NeedStmt, Exec, EvalLeaf, Scoped;
    k, m1 := RunStmt(s, p, w, pool, st, st1, m, v, cx, 0);
    EvaluatesTo(t, w, v, cx.ivars, m.heap);
    FalseLoopDone(s, t, w, v, cx, m.heap);
  }

  lemma FalseLoopDone(s: Stmt, t: Token, w: World, v: Vars, cx: Context, h: Heap)
    requires WellFormedStmt(s, cx) && s.While? && ExprTree(s.cond) == Leaf(t)
             && Means(t, EvalLeaf(t, w, v, cx.ivars, h))
    requires t.kind == Identifier && t.text == "false"
    ensures ExecStmt(s, w, v, cx, h, 0) == Done(v, h)
  {
    hide Exec, EvalLeaf, ExprTree;
  }

  /** Statements without loops and returns, which come to their end. */
  predicate Straight(s: Stmts) {
    match s
    case End => true
    case Next(first, rest) => !first.While? && Straight(rest)
    case LastAssign(_, _, _) => true
    case Return(_, _) => false
    case Value(_) => false
  }

  lemma {:induction false} StraightEnds(s: Stmts, w: World, v: Vars, cx: Context, h: Heap, fuel: nat)
    requires WellFormedStmts(s, cx) && Straight(s)
    ensures Exec(s, w, v, cx, h, fuel).Done?
    decreases s
  {
    hide ExecAssign, Eval, ExprTree;
    if s.Next? {
      var o := ExecStmt(s.first, w, v, cx, h, fuel);
      assert o.Done? by { OneEnds(s.first, w, v, cx, h, fuel); }
      StraightEnds(s.rest, w, o.vars, cx, o.heap, fuel);
    } else if s.LastAssign? {
      AssignEnds(s.name.token.text, ExprTree(s.value), w, v, cx, h);
    }
  }

  lemma OneEnds(s: Stmt, w: World, v: Vars, cx: Context, h: Heap, fuel: nat)
    requires WellFormedStmt(s, cx) && !s.While?
    ensures ExecStmt(s, w, v, cx, h, fuel).Done?
  {
    hide Eval, ExprTree, StoreInto;
  }

  lemma AssignEnds(name: string, value: Term, w: World, v: Vars, cx: Context, h: Heap)
    requires StoreInto(name, cx) != []
    ensures IsTemporary(name, cx) || name in cx.ivars
    ensures ExecAssign(name, value, w, v, cx, h).Done?
  {
    hide Eval, StoreInto;
    StorableIff(name, cx);
  }

  lemma {:induction false} LoopsOn(cond: Term, body: Stmts, t: Token, w: World, v: Vars, cx: Context, h: Heap,
                                   fuel: nat)
    requires WellFormedStmts(body, cx) && Straight(body) && cond == Leaf(t) && NotFalse(t)
    ensures ExecLoop(cond, body, w, v, cx, h, fuel) == OutOfFuel
    decreases fuel
  {
    EvaluatesTo(t, w, v, cx.ivars, h);
    NeverFalse(t, EvalLeaf(t, w, v, cx.ivars, h));
    StraightEnds(body, w, v, cx, h, fuel);
    hide EvalLeaf, Exec, Means;
    if fuel > 0 {
      var o := Exec(body, w, v, cx, h, fuel);
      LoopsOn(cond, body, t, w, o.vars, cx, o.heap, fuel - 1);
    }
  }

  /** A loop whose condition is any other literal, and whose body comes to its end, is still running after any time. */
  lemma EndlessLoop(s: Stmt, t: Token, p: Program, w: World, pool: seq<Token>, st: Output, st1: Output, m: State,
                    v: Vars,
                    cx: Context, n: nat)
    requires WellFormedStmt(s, cx) && EvaluableStmt(s, cx) && Scoped(cx)
    requires s.While? && ExprTree(s.cond) == Leaf(t) && NotFalse(t) && Straight(s.body)
    requires GenStmt(s, st, cx) == Ok([], st1) && Loaded(p, w, pool, st, st1)
    requires FrameHolds(m, v, cx) && m.ip == |st.code| && m.sp >= NeedStmt(s, cx)
    ensures Run(p, w, m, n).Running?
  {
    assert WellFormedStmts(s.body, cx);
    hide Run, Loaded, FrameHolds, GenStmt, WellFormedStmts, EvaluableStmt, NeedStmt, ExecLoop, Scoped, ExprTree,
         Straight,
         NotFalse;
    var k, m1 := RunStmt(s, p, w, pool, st, st1, m, v, cx, n);
    LoopsOn(ExprTree(s.cond), s.body, t, w, v, cx, m.heap, n);
    if !Run(p, w, m, n).Running? {
      RunEnded(p, w, m, n, k);
    }
  }

  /**
   A return inside a loop is enough for a method to be accepted: one that ends with such a loop, whose
   condition is `false`, runs off the end of its code.
   */
  lemma LoopReturnFallsOff(m: Method, t: Token, args: seq<string>, ivars: seq<string>, w: World, st: State, v: Vars)
    requires MethodOk(m, args, ivars) && Entered(st, m.body, v, MethodContext(m, args, ivars))
    requires m.body.Next? && m.body.first.While? && m.body.first.body.Return? && m.body.rest.End?
    requires WellFormedStmt(m.body.first, MethodContext(m, args, ivars))
    requires ExprTree(m.body.first.cond) == Leaf(t) && t.kind == Identifier && t.text == "false"
    ensures var c := CompileBody(MethodLex(m), [], args, [], ivars, false, 0);
            && !c.Rejected?
            && (c.Accepted? ==> exists k: nat :: Run(Loading(c.body, w), w, st, k + 1) == Stuck
                                                && Run(Loading(c.body, w), w, st, k).Running?
                                                && Run(Loading(c.body, w), w, st, k).state.ip == |c.body.code|)
  {
    hide CompileBody, MethodLex, Run, Loading, Scoped, Compiles, GenStmts, WellFormedExpr, EmitRef;
    var cx, c := MethodContext(m, args, ivars), CompileBody(MethodLex(m), [], args, [], ivars, false, 0);
    var o0 := Output([], [], [], false);
    CompileMethod(m, args, ivars);
    if GenStmts(m.body, o0, cx).Ok? {
      ReturnsFlag(m.body, o0, cx);
    }
    if c.Accepted? {
      MethodCompiles(m, args, ivars, c.body, c.blocks);
      var k, st1 := RunBody(m.body, cx, [], c.body, w, st, v, 0);
      EvaluatesTo(t, w, v, ivars, st.heap);
      FalseLoopDone(m.body.first, t, w, v, cx, st.heap);
      assert Exec(m.body, w, v, cx, st.heap, 0) == Done(v, st.heap);
      StuckAtEnd(Loading(c.body, w), w, st, k, c.body, st1);
    }
  }
}
