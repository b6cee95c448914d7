/**
 Method and block bodies: statement lists with assignments, dropped expressions, `whileTrue:` loops
 and returned values.  The parser consumes exactly their tokens and emits the code of `GenStmts`,
 jumps patched.
 */
module Programs {
  import opened Lexer
  import opened Codegen
  import opened Trees
  import C = Captures

  datatype Stmt =
    | Blank(dot: Lexeme)
    | Assign(name: Lexeme, becomes: Lexeme, value: Expr, dot: Lexeme)
    | Drop(value: Expr, dot: Lexeme)
    | While(open: Lexeme, cond: Expr, close: Lexeme, key: Lexeme,
            bodyOpen: Lexeme, body: Stmts, bodyClose: Lexeme, dot: Lexeme)

  /**
   Statements; the last one may be an assignment without a period, or an expression with or without
   a caret, which is returned even where the statements are the body of a loop.
   */
  datatype Stmts =
    | End
    | Next(first: Stmt, rest: Stmts)
    | LastAssign(name: Lexeme, becomes: Lexeme, value: Expr)
    | Return(caret: Lexeme, value: Expr)
    | Value(value: Expr)

  datatype Method = Method(bars: seq<Lexeme>, temps: seq<Lexeme>, body: Stmts)

  function StmtLex(s: Stmt): seq<Lexeme> {
    match s
    case Blank(dot) => [dot]
    case Assign(name, becomes, value, dot) => [name, becomes] + ExprLex(value) + [dot]
    case Drop(value, dot) => ExprLex(value) + [dot]
    case While(open, cond, close, key, bodyOpen, body, bodyClose, dot) =>
      [open] + ExprLex(cond) + [close] + ([key, bodyOpen] + StmtsLex(body) + [bodyClose] + [dot])
  }

  function StmtsLex(s: Stmts): seq<Lexeme> {
    match s
    case End => []
    case Next(first, rest) => StmtLex(first) + StmtsLex(rest)
    case LastAssign(name, becomes, value) => [name, becomes] + ExprLex(value)
    case Return(caret, value) => [caret] + ExprLex(value)
    case Value(value) => ExprLex(value)
  }

  function MethodLex(m: Method): seq<Lexeme> {
    if m.bars == [] then StmtsLex(m.body)
    else [m.bars[0]] + m.temps + [m.bars[|m.bars| - 1]] + StmtsLex(m.body)
  }

  predicate WellFormedStmt(s: Stmt, cx: Context)
    decreases s, 0
  {
    match s
    case Blank(dot) => IsSpecial(dot.token, ".")
    case Assign(name, becomes, value, dot) => WellFormedAssign(name, becomes, value, cx) && IsSpecial(dot.token, ".")
    case Drop(value, dot) => WellFormedExpr(value) && IsSpecial(dot.token, ".")
    case While(open, cond, close, key, bodyOpen, body, bodyClose, dot) =>
      && IsSpecial(open.token, "[") && WellFormedExpr(cond) && IsSpecial(close.token, "]")
      && key.token.kind == Keyword && key.token.text == "whileTrue:"
      && IsSpecial(bodyOpen.token, "[") && WellFormedStmts(body, cx) && IsSpecial(bodyClose.token, "]")
      && IsSpecial(dot.token, ".")
      && |Raw(ExprLex(cond) + [close])| <= SOURCE_MAX && |Raw(StmtsLex(body) + [bodyClose])| <= SOURCE_MAX
  }

  predicate WellFormedAssign(name: Lexeme, becomes: Lexeme, value: Expr, cx: Context) {
    && name.token.kind == Identifier && NoBracket(name) && IsSpecial(becomes.token, ":=")
    && WellFormedExpr(value) && StoreInto(name.token.text, cx) != []
  }

  predicate WellFormedStmts(s: Stmts, cx: Context)
    decreases s, 1
  {
    match s
    case End => true
    case Next(first, rest) => WellFormedStmt(first, cx) && WellFormedStmts(rest, cx)
    case LastAssign(name, becomes, value) => WellFormedAssign(name, becomes, value, cx)
    case Return(caret, value) => IsSpecial(caret.token, "^") && WellFormedExpr(value)
    case Value(value) => WellFormedExpr(value)
  }

  /** Somewhere, in the body of a loop too, a value is returned. */
  predicate HasReturn(s: Stmts) {
    match s
    case End => false
    case Next(first, rest) => (first.While? && HasReturn(first.body)) || HasReturn(rest)
    case LastAssign(_, _, _) => false
    case Return(_, _) => true
    case Value(_) => true
  }

  /** The names that declarations enter in the name tables, which hold 31 characters each. */
  function Declared(names: seq<Lexeme>): (r: seq<string>)
    ensures |r| == |names|
  {
    if names == [] then [] else [Clip(names[0].token.text, NAME_MAX)] + Declared(names[1..])
  }

  predicate WellFormedTemps(m: Method) {
    && (m.bars == [] || |m.bars| == 2) && (m.bars == [] ==> m.temps == [])
    && (forall i :: 0 <= i < |m.bars| ==> IsSpecial(m.bars[i].token, "|"))
    && (forall i :: 0 <= i < |m.temps| ==> m.temps[i].token.kind == Identifier)
    && |m.temps| <= TEMP_MAX
  }

  predicate WellFormedMethod(m: Method, args: seq<string>, ivars: seq<string>) {
    WellFormedTemps(m) && WellFormedStmts(m.body, MethodContext(m, args, ivars))
  }

  function MethodContext(m: Method, args: seq<string>, ivars: seq<string>): Context {
    Context(Scope(args, Declared(m.temps), 0, false), [], ivars)
  }

  /** An argument of a block, with its colon. */
  datatype BlockArg = BlockArg(colon: Lexeme, name: Lexeme)

  /** A block without blocks inside it: its arguments and the bar after them, temporaries and statements. */
  datatype Block = Block(args: seq<BlockArg>, bar: Lexeme, rest: Method)

  function ArgsLex(args: seq<BlockArg>): seq<Lexeme> {
    if args == [] then [] else [args[0].colon, args[0].name] + ArgsLex(args[1..])
  }

  function BlockLex(b: Block): seq<Lexeme> {
    if b.args == [] then MethodLex(b.rest) else ArgsLex(b.args) + [b.bar] + MethodLex(b.rest)
  }

  function ArgsDeclared(args: seq<BlockArg>): (r: seq<string>)
    ensures |r| == |args|
  {
    if args == [] then [] else [Clip(args[0].name.token.text, NAME_MAX)] + ArgsDeclared(args[1..])
  }

  /** The scope of a block inside a scope. */
  function BlockContext(b: Block, cx: Context): Context {
    C.BlockContext(cx, ArgsDeclared(b.args), Declared(b.rest.temps))
  }

  predicate WellFormedBlock(b: Block, cx: Context) {
    && |b.args| <= ARG_MAX && IsSpecial(b.bar.token, "|")
    && (forall i :: 0 <= i < |b.args| ==> IsSpecial(b.args[i].colon.token, ":")
                                          && b.args[i].name.token.kind == Identifier)
    && WellFormedTemps(b.rest) && WellFormedStmts(b.rest.body, BlockContext(b, cx))
  }

  // ----------------------------------------------------------------- code

  function GenAssign(name: string, value: Term, st: Output, cx: Context): (r: Parse)
    ensures r.Ok? ==> r.rest == [] && Grows(st, r.out)
    ensures !r.Fail?
  {
    var (_, s1) :- Gen(value, st, cx);
    Emit([], s1, StoreInto(name, cx))
  }

  function GenReturn(op: Byte, value: Term, st: Output, cx: Context): (r: Parse)
    ensures r.Ok? ==> r.rest == [] && Grows(st, r.out)
    ensures !r.Fail?
  {
    var (_, s1) :- Gen(value, st, cx);
    var (_, s2) :- Emit([], s1, [op]);
    Ok([], s2.(sawReturn := true))
  }

  function GenDrop(value: Term, st: Output, cx: Context): (r: Parse)
    ensures r.Ok? ==> r.rest == [] && Grows(st, r.out)
    ensures !r.Fail?
  {
    var (_, s1) :- Gen(value, st, cx);
    Emit([], s1, [POP])
  }

  /** A loop: test, conditional exit, body, jump back, and nil for the value of the send. */
  function GenLoop(cond: Term, body: Stmts, st: Output, cx: Context): (r: Parse)
    requires WellFormedStmts(body, cx)
    ensures r.Ok? ==> r.rest == [] && Grows(st, r.out)
    ensures !r.Fail?
    decreases body, 1
  {
    var (_, s1) :- Gen(cond, st, cx);
    var (_, s2) :- Emit([], s1, [JUMP_IF_FALSE] + U32(0));
    var (_, s3) :- GenStmts(body, s2, cx);
    LoopEnd([], s3, |st.code|, |s1.code| + 1)
  }

  function GenStmt(s: Stmt, st: Output, cx: Context): (r: Parse)
    requires WellFormedStmt(s, cx)
    ensures r.Ok? ==> r.rest == [] && Grows(st, r.out)
    ensures !r.Fail?
    decreases s, 2
  {
    match s
    case Blank(_) => Ok([], st)
    case Assign(name, _, value, _) => GenAssign(name.token.text, ExprTree(value), st, cx)
    case Drop(value, _) => GenDrop(ExprTree(value), st, cx)
    case While(_, cond, _, _, _, body, _, _) =>
      var (_, s1) :- GenLoop(ExprTree(cond), body, st, cx);
      Emit([], s1, [POP])
  }

  function GenStmts(s: Stmts, st: Output, cx: Context): (r: Parse)
    requires WellFormedStmts(s, cx)
    ensures r.Ok? ==> r.rest == [] && Grows(st, r.out)
    ensures !r.Fail?
    decreases s, 0
  {
    match s
    case End => Ok([], st)
    case Next(first, rest) =>
      var (_, s1) :- GenStmt(first, st, cx);
      GenStmts(rest, s1, cx)
    case LastAssign(name, _, value) => GenAssign(name.token.text, ExprTree(value), st, cx)
    case Return(_, value) => GenReturn(if cx.scope.inBlock then RETURN_NON_LOCAL else RETURN_TOP, ExprTree(value), st,
                                       cx)
    case Value(value) => GenReturn(RETURN_TOP, ExprTree(value), st, cx)
  }

  // ----------------------------------------------------------------- brackets

  predicate Plain(ls: seq<Lexeme>) {
    forall i :: 0 <= i < |ls| ==>
      ls[i].token.kind != Eof && !IsSpecial(ls[i].token, "[") && !IsSpecial(ls[i].token, "]")
  }

  lemma PlainConcat(a: seq<Lexeme>, b: seq<Lexeme>)
    requires Plain(a) && Plain(b)
    ensures Plain(a + b)
  {
  }

  lemma {:induction false} PrimPlain(p: Prim)
    requires WellFormedPrim(p)
    ensures Plain(PrimLex(p))
    decreases p
  {
    match p
    case Atom(lex) =>
    case Paren(open, inner, close) =>
      ExprPlain(inner);
      PlainConcat([open], ExprLex(inner));
      PlainConcat([open] + ExprLex(inner), [close]);
    case Array(open, items, close) =>
  }

  lemma {:induction false} UnaryPlain(u: Unary)
    requires WellFormedUnary(u)
    ensures Plain(UnaryLex(u))
    decreases u
  {
    PrimPlain(u.prim);
    PlainConcat(PrimLex(u.prim), u.messages);
  }

  lemma {:induction false} BinariesPlain(b: Binaries)
    requires WellFormedBinaries(b)
    ensures Plain(BinariesLex(b))
    decreases b
  {
    if b.BinaryMessage? {
      UnaryPlain(b.arg);
      BinariesPlain(b.more);
      assert Plain(b.op);
      PlainConcat(b.op, UnaryLex(b.arg));
      PlainConcat(b.op + UnaryLex(b.arg), BinariesLex(b.more));
    }
  }

  lemma {:induction false} BinaryPlain(b: Binary)
    requires WellFormedBinary(b)
    ensures Plain(BinaryLex(b))
    decreases b
  {
    UnaryPlain(b.first);
    BinariesPlain(b.tail);
    PlainConcat(UnaryLex(b.first), BinariesLex(b.tail));
  }

  lemma {:induction false} KeywordsPlain(k: Keywords)
    requires WellFormedKeywords(k)
    ensures Plain(KeywordsLex(k))
    decreases k
  {
    if k.KeywordPart? {
      BinaryPlain(k.arg);
      KeywordsPlain(k.more);
      PlainConcat([k.key], BinaryLex(k.arg));
      PlainConcat([k.key] + BinaryLex(k.arg), KeywordsLex(k.more));
    }
  }

  lemma {:induction false} ExprPlain(e: Expr)
    requires WellFormedExpr(e)
    ensures Plain(ExprLex(e))
    decreases e
  {
    BinaryPlain(e.head);
    KeywordsPlain(e.keywords);
    PlainConcat(BinaryLex(e.head), KeywordsLex(e.keywords));
  }

  lemma {:induction false} PlainDepth(ls: seq<Lexeme>, d: nat)
    requires Plain(ls)
    ensures DepthAfter(ls, "[", "]", d) == d
    decreases |ls|
  {
    if ls != [] && d > 0 {
      PlainDepth(ls[1..], d);
    }
  }

  lemma {:induction false} BracketDepth(l: Lexeme, d: nat)
    requires d > 0
    ensures IsSpecial(l.token, "[") ==> DepthAfter([l], "[", "]", d) == d + 1
    ensures IsSpecial(l.token, "]") ==> DepthAfter([l], "[", "]", d) == d - 1
  {
    assert [l][1..] == [];
  }

  lemma {:induction false} StmtDepth(s: Stmt, cx: Context, d: nat)
    requires WellFormedStmt(s, cx) && d > 0
    ensures DepthAfter(StmtLex(s), "[", "]", d) == d
    decreases s
  {
    match s
    case Blank(dot) => PlainDepth([dot], d);
    case Assign(name, becomes, value, dot) =>
      ExprPlain(value);
      PlainConcat([name, becomes], ExprLex(value));
      PlainConcat([name, becomes] + ExprLex(value), [dot]);
      PlainDepth(StmtLex(s), d);
    case Drop(value, dot) =>
      ExprPlain(value);
      PlainConcat(ExprLex(value), [dot]);
      PlainDepth(StmtLex(s), d);
    case While(open, cond, close, key, bodyOpen, body, bodyClose, dot) =>
      hide DepthAfter, ExprLex, StmtsLex;
      LoopDepth(open, cond, close, d);
      StmtsDepth(body, cx, d + 1);
      BodyDepth(key, bodyOpen, StmtsLex(body), bodyClose, dot, d);
      var tail := [key, bodyOpen] + StmtsLex(body) + [bodyClose] + [dot];
      DepthAfterConcat([open] + ExprLex(cond) + [close], tail, "[", "]", d);
  }

  lemma BodyDepth(key: Lexeme, bodyOpen: Lexeme, body: seq<Lexeme>, bodyClose: Lexeme, dot: Lexeme, d: nat)
    requires d > 0 && key.token.kind == Keyword && IsSpecial(dot.token, ".")
    requires IsSpecial(bodyOpen.token, "[") && IsSpecial(bodyClose.token, "]")
    requires DepthAfter(body, "[", "]", d + 1) == d + 1
    ensures DepthAfter([key, bodyOpen] + body + [bodyClose] + [dot], "[", "]", d) == d
  {
    hide DepthAfter;
    PlainDepth([key], d);
    BracketDepth(bodyOpen, d);
    assert [key, bodyOpen] == [key] + [bodyOpen];
    DepthAfterConcat([key], [bodyOpen], "[", "]", d);
    DepthAfterConcat([key, bodyOpen], body, "[", "]", d);
    DepthAfterConcat([key, bodyOpen] + body, [bodyClose], "[", "]", d);
    BracketDepth(bodyClose, d + 1);
    DepthAfterConcat([key, bodyOpen] + body + [bodyClose], [dot], "[", "]", d);
    PlainDepth([dot], d);
  }

  lemma LoopDepth(open: Lexeme, cond: Expr, close: Lexeme, d: nat)
    requires IsSpecial(open.token, "[") && WellFormedExpr(cond) && IsSpecial(close.token, "]") && d > 0
    ensures DepthAfter([open] + ExprLex(cond) + [close], "[", "]", d) == d
  {
    hide ExprLex, DepthAfter;
    ExprPlain(cond);
    BracketDepth(open, d);
    DepthAfterConcat([open], ExprLex(cond), "[", "]", d);
    PlainDepth(ExprLex(cond), d + 1);
    DepthAfterConcat([open] + ExprLex(cond), [close], "[", "]", d);
    BracketDepth(close, d + 1);
  }

  lemma {:induction false} StmtsDepth(s: Stmts, cx: Context, d: nat)
    requires WellFormedStmts(s, cx) && d > 0
    ensures DepthAfter(StmtsLex(s), "[", "]", d) == d
    decreases s
  {
    match s
    case End =>
    case Next(first, rest) =>
      StmtDepth(first, cx, d);
      StmtsDepth(rest, cx, d);
      DepthAfterConcat(StmtLex(first), StmtsLex(rest), "[", "]", d);
    case LastAssign(name, becomes, value) =>
      ExprPlain(value);
      PlainConcat([name, becomes], ExprLex(value));
      PlainDepth(StmtsLex(s), d);
    case Return(caret, value) =>
      ExprPlain(value);
      PlainConcat([caret], ExprLex(value));
      PlainDepth(StmtsLex(s), d);
    case Value(value) =>
      ExprPlain(value);
      PlainDepth(StmtsLex(s), d);
  }

  // ----------------------------------------------------------------- parsing statements

  lemma Ends(dot: Lexeme, rest: seq<Lexeme>)
    requires IsTerminator(dot.token)
    ensures EndsExpression([dot] + rest) && Head([dot] + rest) == dot.token && Tail([dot] + rest) == rest
  {
  }

  /** Dispatch of `Statements` on its first token. */
  lemma StatementsDispatch(toks: seq<Lexeme>, st: Output, cx: Context)
    requires toks != [] && Head(toks).kind != Eof
    ensures var t, rest := Head(toks), Tail(toks);
            Statements(toks, st, cx) ==
              if IsSpecial(t, ".") then Statements(rest, st, cx)
              else if IsSpecial(t, "^") then ReturnStatement(rest, st, cx)
              else if IsSpecial(t, "[") then BracketStatement(toks, st, cx)
              else if t.kind == Identifier && IsSpecial(Head(rest), ":=")
                   then AssignStatement(t.text, Tail(rest), st, cx)
              else if t.kind == Identifier then NameStatement(t, rest, st, cx)
              else ExpressionStatement(toks, st, cx)
  {
    hide ReturnStatement, BracketStatement, AssignStatement, NameStatement, ExpressionStatement;
  }

  /** What follows the first name of an expression is a message or the end, not `:=`. */
  lemma SecondToken(messages: seq<Lexeme>, b: Binaries, k: Keywords, rest: seq<Lexeme>)
    requires forall i :: 0 <= i < |messages| ==> messages[i].token.kind == Identifier
    requires WellFormedBinaries(b) && WellFormedKeywords(k) && EndsExpression(rest)
    ensures !IsSpecial(Head(messages + (BinariesLex(b) + (KeywordsLex(k) + rest))), ":=")
  {
    hide BinariesLex, KeywordsLex, UnaryLex, WellFormedUnary, WellFormedBinary;
    var end := KeywordsLex(k) + rest;
    KeywordsStart(k, rest);
    BinariesStart(b, end);
    if messages != [] {
      assert (messages + (BinariesLex(b) + end))[0] == messages[0];
    } else {
      assert messages + (BinariesLex(b) + end) == BinariesLex(b) + end;
      if b.BinaryMessage? {
        assert (b.op + UnaryLex(b.arg) + (BinariesLex(b.more) + end))[0] == b.op[0];
      } else if k.KeywordPart? {
        KeywordsTail(k, rest);
      }
    }
  }

  lemma ExprSecond(e: Expr, rest: seq<Lexeme>)
    requires WellFormedExpr(e) && EndsExpression(rest) && e.head.first.prim.Atom?
    ensures !IsSpecial(Head(Tail(ExprLex(e) + rest)), ":=")
  {
    hide BinariesLex, KeywordsLex, ExprLex;
    NameFirst(e, rest);
    SecondToken(e.head.first.messages, e.head.tail, e.keywords, rest);
  }

  lemma ExprFirst(e: Expr, rest: seq<Lexeme>)
    requires WellFormedExpr(e)
    ensures var all := ExprLex(e) + rest; var t := Head(all);
            && all != [] && t == PrimLex(e.head.first.prim)[0].token && t.kind != Eof
            && !IsSpecial(t, ".") && !IsSpecial(t, "^") && !IsSpecial(t, "[")
            && (t.kind == Identifier ==> e.head.first.prim.Atom?)
  {
    assert WellFormedBinary(e.head) && WellFormedUnary(e.head.first);
    PrimStarts(e.head.first.prim);
    hide BinariesLex, KeywordsLex, WellFormedPrim;
    var p := PrimLex(e.head.first.prim);
    assert UnaryLex(e.head.first)[0] == p[0];
    assert BinaryLex(e.head)[0] == p[0];
    assert ExprLex(e)[0] == p[0];
  }

  /** An expression statement, by whichever route its first token selects. */
  lemma ParseDropped(e: Expr, rest: seq<Lexeme>, st: Output, cx: Context)
    requires WellFormedExpr(e) && EndsExpression(rest)
    ensures var p := Gen(ExprTree(e), st, cx);
            Statements(ExprLex(e) + rest, st, cx) == if p.Ok? then AfterExpression(rest, p.out, cx) else p
  {
    hide Statements, AfterExpression, ExprLex, Gen, Expression, Continuation, EmitAtom;
    var all := ExprLex(e) + rest;
    ExprFirst(e, rest);
    StatementsDispatch(all, st, cx);
    if Head(all).kind == Identifier {
      ExprSecond(e, rest);
      NameRoute(e, rest, st, cx);
    } else {
      ParseExpr(e, rest, st, cx);
    }
  }

  lemma ParseAssign(name: Lexeme, becomes: Lexeme, e: Expr, rest: seq<Lexeme>, st: Output, cx: Context)
    requires WellFormedAssign(name, becomes, e, cx) && EndsExpression(rest)
    ensures var p := GenAssign(name.token.text, ExprTree(e), st, cx);
            Statements([name, becomes] + ExprLex(e) + rest, st, cx) == if p.Ok?
                then AfterStatement(rest, p.out, cx, []) else p
  {
    hide Statements, AfterStatement, ExprLex, Gen, Expression, StoreInto;
    var all := [name, becomes] + ExprLex(e) + rest;
    assert all[0] == name && all[1..][0] == becomes && all[1..][1..] == ExprLex(e) + rest;
    StatementsDispatch(all, st, cx);
    ParseExpr(e, rest, st, cx);
  }

  lemma AfterEmpty(st: Output, cx: Context, drop: seq<Byte>)
    ensures AfterStatement([], st, cx, drop) == Ok([], st)
  {
  }

  lemma AfterDot(dot: Lexeme, rest: seq<Lexeme>, st: Output, cx: Context, drop: seq<Byte>)
    requires IsSpecial(dot.token, ".")
    ensures var p := Emit([], st, drop);
            AfterStatement([dot] + rest, st, cx, drop) == if p.Ok? then Statements(rest, p.out, cx) else p
  {
    hide Statements;
    Ends(dot, rest);
  }

  lemma AfterExpressionDot(dot: Lexeme, rest: seq<Lexeme>, st: Output, cx: Context)
    requires IsSpecial(dot.token, ".")
    ensures var p := Emit([], st, [POP]);
            AfterExpression([dot] + rest, st, cx) == if p.Ok? then Statements(rest, p.out, cx) else p
  {
    hide Statements;
    Ends(dot, rest);
  }

  /** Capturing the two blocks of a loop hands their tokens to `Loop`. */
  lemma CaptureLoop(cond: seq<Lexeme>, close: Lexeme, key: Lexeme, bodyOpen: Lexeme, body: seq<Lexeme>,
                    bodyClose: Lexeme,
                    rest: seq<Lexeme>, st: Output, cx: Context)
    requires DepthAfter(cond, "[", "]", 1) == 1 && DepthAfter(body, "[", "]", 1) == 1
    requires IsSpecial(close.token, "]") && IsSpecial(bodyOpen.token, "[") && IsSpecial(bodyClose.token, "]")
    requires key.token.kind == Keyword && key.token.text == "whileTrue:"
    requires |Raw(cond + [close])| <= SOURCE_MAX && |Raw(body + [bodyClose])| <= SOURCE_MAX
    ensures WhileTrue(cond + [close] + ([key, bodyOpen] + body + [bodyClose] + rest), st, cx)
            == Loop(cond, body, rest, st, cx)
  {
    hide Loop, Raw, DepthAfter, CloseAt;
    var t3 := body + [bodyClose] + rest;
    var t1 := [key, bodyOpen] + body + [bodyClose] + rest;
    assert t1 == [key, bodyOpen] + t3;
    var toks := cond + [close] + t1;
    CloseAtNested(cond, close, t1, "[", "]", 1);
    CloseAtNested(body, bodyClose, rest, "[", "]", 1);
    var n, m := |cond| + 1, |body| + 1;
    assert toks[..n] == cond + [close] && toks[..n - 1] == cond && toks[n..] == t1;
    assert Tail(t1)[0] == bodyOpen && Tail(Tail(t1)) == t3;
    assert t3[..m] == body + [bodyClose] && t3[..m - 1] == body && t3[m..] == rest;
  }

  /** `Loop` once its two blocks are known to parse to the end of their tokens. */
  lemma LoopSteps(cond: seq<Lexeme>, body: seq<Lexeme>, rest: seq<Lexeme>, c: Parse, b: Parse, st: Output, cx: Context)
    requires Expression(cond, st, cx) == c && !c.Fail? && (c.Ok? ==> c.rest == [])
    requires c.Ok? && Emit([], c.out, [JUMP_IF_FALSE] + U32(0)).Ok? ==>
               Statements(body, Emit([], c.out, [JUMP_IF_FALSE] + U32(0)).out, cx) == b && !b.Fail?
    requires c.Ok? && b.Ok? ==> |c.out.code| + 5 <= |b.out.code|
    ensures c.Overflow? ==> Loop(cond, body, rest, st, cx).Overflow?
    ensures c.Ok? && Emit([], c.out, [JUMP_IF_FALSE] + U32(0)).Overflow? ==> Loop(cond, body, rest, st, cx).Overflow?
    ensures c.Ok? && Emit([], c.out, [JUMP_IF_FALSE] + U32(0)).Ok? ==>
              Loop(cond, body, rest, st, cx) == With(FinishLoop(|st.code|, c, b), rest)
  {
    hide Expression, Statements, EmitRef;
    if c.Ok? && b.Ok? && Emit([], b.out, [JUMP] + U32(|st.code|)).Ok? {
      var s4 := Emit([], b.out, [JUMP] + U32(|st.code|)).out;
      EmitWith(rest, s4.(code := Patch(s4.code, |c.out.code| + 1, |s4.code|)), PUSH_LITERAL, NIL_TOKEN, []);
    }
  }

  /** The jump back, the patched exit and the value of a loop whose test and body are compiled. */
  function FinishLoop(start: nat, c: Parse, b: Parse): Parse
    requires c.Ok? && (b.Ok? ==> |c.out.code| + 5 <= |b.out.code|)
  {
    var (b1, s3) :- b;
    var (b2, s4) :- Emit([], s3, [JUMP] + U32(start));
    EmitRef([], s4.(code := Patch(s4.code, |c.out.code| + 1, |s4.code|)), PUSH_LITERAL, NIL_TOKEN, [])
  }

  lemma LoopCode(cond: Expr, body: Stmts, rest: seq<Lexeme>, st: Output, cx: Context)
    requires WellFormedExpr(cond) && WellFormedStmts(body, cx)
    requires forall s :: Statements(StmtsLex(body), s, cx) == GenStmts(body, s, cx)
    ensures Loop(ExprLex(cond), StmtsLex(body), rest, st, cx) == With(GenLoop(ExprTree(cond), body, st, cx), rest)
  {
    hide Expression, Statements, GenStmts, ExprLex, StmtsLex, Gen, Loop, Patch, EmitRef;
    ParseExpr(cond, [], st, cx);
    assert ExprLex(cond) + [] == ExprLex(cond);
    var c := Gen(ExprTree(cond), st, cx);
    var q := if c.Ok? then Emit([], c.out, [JUMP_IF_FALSE] + U32(0)) else Overflow;
    var b := if q.Ok? then GenStmts(body, q.out, cx) else Overflow;
    if q.Ok? {
      assert Statements(StmtsLex(body), q.out, cx) == b;
    }
    LoopSteps(ExprLex(cond), StmtsLex(body), rest, c, b, st, cx);
  }

  lemma {:induction false} ParseStmt(s: Stmt, rest: seq<Lexeme>, st: Output, cx: Context)
    requires WellFormedStmt(s, cx)
    ensures var p := GenStmt(s, st, cx);
            Statements(StmtLex(s) + rest, st, cx) == if p.Ok? then Statements(rest, p.out, cx) else p
    decreases s
  {
    hide Statements, ExprLex, StmtsLex, Gen, AfterExpression, AfterStatement, GenAssign, GenLoop, StoreInto;
    var all := StmtLex(s) + rest;
    match s
    case Blank(dot) =>
      Ends(dot, rest);
      StatementsDispatch(all, st, cx);
    case Assign(name, becomes, value, dot) =>
      Ends(dot, rest);
      assert all == [name, becomes] + ExprLex(value) + ([dot] + rest);
      ParseAssign(name, becomes, value, [dot] + rest, st, cx);
      var p := GenAssign(name.token.text, ExprTree(value), st, cx);
      if p.Ok? {
        AfterDot(dot, rest, p.out, cx, []);
        AssignFits(name.token.text, ExprTree(value), st, cx);
        EmitNothing(p.out);
      }
    case Drop(value, dot) =>
      Ends(dot, rest);
      assert all == ExprLex(value) + ([dot] + rest);
      ParseDropped(value, [dot] + rest, st, cx);
      var p := Gen(ExprTree(value), st, cx);
      if p.Ok? {
        AfterExpressionDot(dot, rest, p.out, cx);
      }
    case While(open, cond, close, key, bodyOpen, body, bodyClose, dot) =>
      ParseLoop(s, rest, st, cx);
      var p := GenLoop(ExprTree(cond), body, st, cx);
      if p.Ok? {
        AfterDot(dot, rest, p.out, cx, [POP]);
      }
  }

  lemma AssignFits(name: string, value: Term, st: Output, cx: Context)
    ensures var p := GenAssign(name, value, st, cx); p.Ok? ==> |p.out.code| <= CODE_MAX
  {
    hide Gen, StoreInto;
  }

  lemma EmitNothing(st: Output)
    requires |st.code| <= CODE_MAX
    ensures Emit([], st, []) == Ok([], st)
  {
    assert st.code + [] == st.code;
  }

  lemma {:induction false} ParseLoop(s: Stmt, rest: seq<Lexeme>, st: Output, cx: Context)
    requires WellFormedStmt(s, cx) && s.While?
    ensures var p := GenLoop(ExprTree(s.cond), s.body, st, cx);
            Statements(StmtLex(s) + rest, st, cx) == if p.Ok? then AfterStatement([s.dot] + rest, p.out, cx, [POP])
                                                                   else p
    decreases s, 0
  {
    hide Statements, ExprLex, StmtsLex, Gen, AfterStatement, DepthAfter, WhileTrue, Loop, GenLoop, ExpressionStatement;
    var all := StmtLex(s) + rest;
    var after := [s.dot] + rest;
    var tail := ExprLex(s.cond) + [s.close] + ([s.key, s.bodyOpen] + StmtsLex(s.body) + [s.bodyClose] + after);
    assert all == [s.open] + tail;
    assert all[0] == s.open && all[1..] == tail;
    StatementsDispatch(all, st, cx);
    ExprPlain(s.cond);
    PlainDepth(ExprLex(s.cond), 1);
    StmtsDepth(s.body, cx, 1);
    CaptureLoop(ExprLex(s.cond), s.close, s.key, s.bodyOpen, StmtsLex(s.body), s.bodyClose, after, st, cx);
    forall o ensures Statements(StmtsLex(s.body), o, cx) == GenStmts(s.body, o, cx) {
      ParseStmts(s.body, o, cx);
    }
    LoopCode(s.cond, s.body, after, st, cx);
  }

  /** The parser on any statement list: all its tokens are consumed, its output is its code. */
  lemma {:induction false} ParseStmts(s: Stmts, st: Output, cx: Context)
    requires WellFormedStmts(s, cx)
    ensures Statements(StmtsLex(s), st, cx) == GenStmts(s, st, cx)
    decreases s, 0
  {
    hide ExprLex, Gen, AfterExpression, AfterStatement, StmtLex, Expression;
    match s
    case End =>
    case Next(first, rest) =>
      ParseStmt(first, StmtsLex(rest), st, cx);
      var p := GenStmt(first, st, cx);
      if p.Ok? {
        ParseStmts(rest, p.out, cx);
      }
    case LastAssign(name, becomes, value) =>
      assert [name, becomes] + ExprLex(value) + [] == StmtsLex(s);
      ParseAssign(name, becomes, value, [], st, cx);
      var p := GenAssign(name.token.text, ExprTree(value), st, cx);
      if p.Ok? {
        AfterEmpty(p.out, cx, []);
      }
    case Return(caret, value) =>
      assert StmtsLex(s)[0] == caret && StmtsLex(s)[1..] == ExprLex(value) + [];
      StatementsDispatch(StmtsLex(s), st, cx);
      ParseExpr(value, [], st, cx);
    case Value(value) =>
      assert ExprLex(value) + [] == StmtsLex(s);
      ParseDropped(value, [], st, cx);
      var p := Gen(ExprTree(value), st, cx);
      if p.Ok? {
        AfterExpressionEnd(p.out, cx);
      }
  }

  lemma AfterExpressionEnd(st: Output, cx: Context)
    ensures var p := Emit([], st, [RETURN_TOP]);
            AfterExpression([], st, cx) == if p.Ok? then Ok([], p.out.(sawReturn := true)) else p
  {
  }
}
