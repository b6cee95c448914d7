/**
 A statement that starts with a bracket is first tried as a `whileTrue:` loop.  When that
 fails the statement is parsed again as an expression, on top of what the attempt has already
 emitted.  This module says what is left behind and when the statement is compiled to its own
 code all the same.
 */
module Fallback {
  import opened Lexer
  import opened Codegen
  import opened Trees
  import P = Programs
  import M = Machine
  import opened Stores
  import opened Meaning

  // ----------------------------------------------------------------- two runs in step

  /** The second table has `e` more blocks, or is full. */
  predicate MoreBlocks(blocks0: seq<Body>, blocks1: seq<Body>, e: nat) {
    |blocks1| == |blocks0| + e || |blocks1| >= BLOCK_MAX
  }

  /** The second output has `d` more bytes of code and `e` more blocks, or no place for blocks left. */
  predicate Shifted(st0: Output, st1: Output, d: int, e: nat) {
    |st1.code| == |st0.code| + d && MoreBlocks(st0.blocks, st1.blocks, e)
  }

  predicate Full(st: Output) { |st.blocks| >= BLOCK_MAX }

  /**
   The second run, which started with more behind it, does as the first one, and only stops
   before it when the block table is full.
   */
  predicate InStep(p0: Parse, p1: Parse, d: int, e: nat) {
    match p0
    case Overflow => true
    case Fail(r0) => !p1.Ok? && (p1.Fail? ==> Shifted(r0, p1.partial, d, e) || Full(p1.partial))
    case Ok(rest, r0) =>
      && (p1.Ok? ==> p1.rest == rest && Shifted(r0, p1.out, d, e))
      && (p1.Fail? ==> Full(p1.partial))
  }

  predicate BodiesInStep(c0: Compiled, c1: Compiled, e: nat) {
    match c0
    case TooLarge => true
    case Rejected(b0) => !c1.Accepted? && (c1.Rejected? ==> MoreBlocks(b0, c1.blocks, e))
    case Accepted(_, b0) =>
      && (c1.Accepted? ==> MoreBlocks(b0, c1.blocks, e))
      && (c1.Rejected? ==> |c1.blocks| >= BLOCK_MAX)
  }

  lemma {:induction false} PrimaryInStep(t: Token, toks: seq<Lexeme>, st0: Output, st1: Output, cx: Context, d: int,
                                         e: nat)
    requires Shifted(st0, st1, d, e)
    ensures InStep(EmitPrimary(t, toks, st0, cx), EmitPrimary(t, toks, st1, cx), d, e)
    decreases Slots(st0.blocks), |toks| + (if t.kind == Eof then 0 else 1), 1
  {
    hide Expression, CompileBlock;
    if t.kind in {Identifier, Integer, Character, String, Symbol} {
      hide EmitAtom;
      AtomInStep(t, toks, st0, st1, cx, d, e);
    } else if IsSpecial(t, "(") {
      ExpressionInStep(toks, st0, st1, cx, d, e);
    } else if IsSpecial(t, "[") {
      BlockInStep(t, toks, st0, st1, cx, d, e);
    }
  }

  lemma AtomInStep(t: Token, toks: seq<Lexeme>, st0: Output, st1: Output, cx: Context, d: int, e: nat)
    requires Shifted(st0, st1, d, e)
    ensures InStep(EmitAtom(t, toks, st0, cx), EmitAtom(t, toks, st1, cx), d, e)
  {
    hide Find, OuterArgSlot, OuterTempSlot, TempSlot, U32, EmitRef;
    RefInStep(toks, st0, st1, PUSH_LITERAL, t, d, e);
    RefInStep(toks, st0, st1, PUSH_GLOBAL, Token(ClassRef, t.text, 0), d, e);
  }

  lemma RefInStep(toks: seq<Lexeme>, st0: Output, st1: Output, op: Byte, t: Token, d: int, e: nat)
    requires Shifted(st0, st1, d, e)
    ensures InStep(EmitRef(toks, st0, op, t, []), EmitRef(toks, st1, op, t, []), d, e)
  {
    hide FindLiteral, Interned, U32;
  }

  lemma {:induction false} BlockInStep(t: Token, toks: seq<Lexeme>, st0: Output, st1: Output, cx: Context, d: int,
                                       e: nat)
    requires IsSpecial(t, "[") && Shifted(st0, st1, d, e)
    ensures InStep(EmitPrimary(t, toks, st0, cx), EmitPrimary(t, toks, st1, cx), d, e)
    decreases Slots(st0.blocks), |toks| + 1, 0
  {
    hide Expression, CompileBlock, EmitAtom, FindLiteral, Interned, BlockName, Raw, BlockText;
    var n := CloseAt(toks, "[", "]", 1);
    if n != 0 && |st1.blocks| < BLOCK_MAX {
      TriesInStep(toks[..n - 1], BlockText(toks[..n]), st0.blocks, st1.blocks, cx, e);
    }
  }

  /** Both tries at a block; a second try with the table full may be the second run's alone. */
  lemma {:induction false} TriesInStep(toks: seq<Lexeme>, text: string, blocks0: seq<Body>, blocks1: seq<Body>,
                                       cx: Context, e: nat)
    requires |blocks0| < BLOCK_MAX && |blocks1| == |blocks0| + e < BLOCK_MAX
    ensures BodiesInStep(CompileBlock(toks, text, blocks0, cx), CompileBlock(toks, text, blocks1, cx), e)
    decreases Slots(blocks0), |toks|, 15
  {
    hide CompileBody, Implicit;
    var outers, offset := [cx.scope] + cx.outers, cx.scope.offset + |cx.scope.args| + |cx.scope.temps|;
    BodyInStep(toks, blocks0 + [EMPTY_BODY], blocks1 + [EMPTY_BODY], outers, cx.ivars, offset, e);
    var c0 := CompileBody(toks, blocks0 + [EMPTY_BODY], [], outers, cx.ivars, true, offset);
    var c1 := CompileBody(toks, blocks1 + [EMPTY_BODY], [], outers, cx.ivars, true, offset);
    if c0.Rejected? && c1.Rejected? && Implicit(text) != "" {
      BodyInStep(Lex(Implicit(text)), c0.blocks, c1.blocks, outers, cx.ivars, offset, e);
    }
  }

  lemma {:induction false} UnaryTailInStep(toks: seq<Lexeme>, st0: Output, st1: Output, d: int, e: nat)
    requires Shifted(st0, st1, d, e)
    ensures InStep(UnaryTail(toks, st0), UnaryTail(toks, st1), d, e)
    decreases |toks|
  {
    if toks != [] && Head(toks).kind == Identifier {
      var p0 := EmitSend(Tail(toks), st0, Head(toks).text, 0);
      var p1 := EmitSend(Tail(toks), st1, Head(toks).text, 0);
      if p0.Ok? && p1.Ok? {
        UnaryTailInStep(Tail(toks), p0.out, p1.out, d, e);
      }
    }
  }

  lemma {:induction false} UnaryInStep(toks: seq<Lexeme>, st0: Output, st1: Output, cx: Context, d: int, e: nat)
    requires Shifted(st0, st1, d, e)
    ensures InStep(UnaryExpression(toks, st0, cx), UnaryExpression(toks, st1, cx), d, e)
    decreases Slots(st0.blocks), |toks|, 3
  {
    hide EmitPrimary, UnaryTail;
    PrimaryInStep(Head(toks), Tail(toks), st0, st1, cx, d, e);
    var p0, p1 := Primary(toks, st0, cx), Primary(toks, st1, cx);
    if p0.Ok? && p1.Ok? {
      UnaryTailInStep(p0.rest, p0.out, p1.out, d, e);
    }
  }

  lemma {:induction false} BinaryPartInStep(toks: seq<Lexeme>, st0: Output, st1: Output, cx: Context, d: int, e: nat)
    requires IsOp(Head(toks)) && Shifted(st0, st1, d, e)
    ensures InStep(BinaryPart(toks, st0, cx), BinaryPart(toks, st1, cx), d, e)
    decreases Slots(st0.blocks), |toks|, 1
  {
    hide UnaryExpression;
    UnaryInStep(AfterOp(toks), st0, st1, cx, d, e);
  }

  lemma {:induction false} BinaryTailInStep(toks: seq<Lexeme>, st0: Output, st1: Output, cx: Context, d: int, e: nat)
    requires Shifted(st0, st1, d, e)
    ensures InStep(BinaryTail(toks, st0, cx), BinaryTail(toks, st1, cx), d, e)
    decreases Slots(st0.blocks), |toks|, 2
  {
    hide BinaryPart;
    if IsOp(Head(toks)) {
      BinaryPartInStep(toks, st0, st1, cx, d, e);
      var p0, p1 := BinaryPart(toks, st0, cx), BinaryPart(toks, st1, cx);
      if p0.Ok? && p1.Ok? {
        BinaryTailInStep(p0.rest, p0.out, p1.out, cx, d, e);
      }
    }
  }

  lemma {:induction false} BinaryInStep(toks: seq<Lexeme>, st0: Output, st1: Output, cx: Context, d: int, e: nat)
    requires Shifted(st0, st1, d, e)
    ensures InStep(BinaryExpression(toks, st0, cx), BinaryExpression(toks, st1, cx), d, e)
    decreases Slots(st0.blocks), |toks|, 4
  {
    hide UnaryExpression, BinaryTail;
    UnaryInStep(toks, st0, st1, cx, d, e);
    var p0, p1 := UnaryExpression(toks, st0, cx), UnaryExpression(toks, st1, cx);
    if p0.Ok? && p1.Ok? {
      BinaryTailInStep(p0.rest, p0.out, p1.out, cx, d, e);
    }
  }

  lemma {:induction false} KeywordInStep(keyword: Token, toks: seq<Lexeme>, st0: Output, st1: Output, cx: Context,
                                         sel: string, argc: nat,
                                         d: int, e: nat)
    requires Shifted(st0, st1, d, e)
    ensures InStep(KeywordMessage(keyword, toks, st0, cx, sel, argc),
                   KeywordMessage(keyword, toks, st1, cx, sel, argc), d, e)
    decreases Slots(st0.blocks), |toks|, 5
  {
    hide BinaryExpression;
    BinaryInStep(toks, st0, st1, cx, d, e);
    var p0, p1 := BinaryExpression(toks, st0, cx), BinaryExpression(toks, st1, cx);
    if p0.Ok? && p1.Ok? && Head(p0.rest).kind == Keyword {
      KeywordInStep(Head(p0.rest), Tail(p0.rest), p0.out, p1.out, cx, Clip(sel + keyword.text, SELECTOR_MAX),
                    argc + 1, d, e);
    }
  }

  lemma {:induction false} MessageInStep(toks: seq<Lexeme>, st0: Output, st1: Output, cx: Context, d: int, e: nat)
    requires Shifted(st0, st1, d, e)
    ensures InStep(Message(toks, st0, cx), Message(toks, st1, cx), d, e)
    decreases Slots(st0.blocks), |toks|, 6
  {
    hide BinaryPart, KeywordMessage;
    var t := Head(toks);
    if t.kind == Identifier {
    } else if IsOp(t) {
      BinaryPartInStep(toks, st0, st1, cx, d, e);
    } else if t.kind == Keyword {
      KeywordInStep(t, Tail(toks), st0, st1, cx, "", 0, d, e);
    }
  }

  lemma {:induction false} ContinuationInStep(toks: seq<Lexeme>, st0: Output, st1: Output, cx: Context, d: int, e: nat)
    requires Shifted(st0, st1, d, e)
    ensures InStep(Continuation(toks, st0, cx), Continuation(toks, st1, cx), d, e)
    decreases Slots(st0.blocks), |toks|, 7
  {
    hide Message;
    if toks == [] || Head(toks).kind == Eof || IsTerminator(Head(toks)) {
    } else if IsSpecial(Head(toks), ";") {
      ContinuationInStep(Tail(toks), st0, st1, cx, d, e);
    } else {
      MessageInStep(toks, st0, st1, cx, d, e);
      var p0, p1 := Message(toks, st0, cx), Message(toks, st1, cx);
      if p0.Ok? && p1.Ok? {
        ContinuationInStep(p0.rest, p0.out, p1.out, cx, d, e);
      }
    }
  }

  lemma {:induction false} ExpressionInStep(toks: seq<Lexeme>, st0: Output, st1: Output, cx: Context, d: int, e: nat)
    requires Shifted(st0, st1, d, e)
    ensures InStep(Expression(toks, st0, cx), Expression(toks, st1, cx), d, e)
    decreases Slots(st0.blocks), |toks|, 8
  {
    hide BinaryExpression, Continuation;
    BinaryInStep(toks, st0, st1, cx, d, e);
    var p0, p1 := BinaryExpression(toks, st0, cx), BinaryExpression(toks, st1, cx);
    if p0.Ok? && p1.Ok? {
      ContinuationInStep(p0.rest, p0.out, p1.out, cx, d, e);
    }
  }

  lemma {:induction false} LoopInStep(cond: seq<Lexeme>, body: seq<Lexeme>, toks: seq<Lexeme>, st0: Output,
                                      st1: Output, cx: Context,
                                      d: int, e: nat)
    requires Shifted(st0, st1, d, e)
    ensures InStep(Loop(cond, body, toks, st0, cx), Loop(cond, body, toks, st1, cx), d, e)
    decreases Slots(st0.blocks), |cond| + |body|, 14
  {
    hide Expression, Statements, Patch, FindLiteral, Interned, U32;
    ExpressionInStep(cond, st0, st1, cx, d, e);
    var p0, p1 := Expression(cond, st0, cx), Expression(cond, st1, cx);
    if p0.Ok? && p1.Ok? {
      var q0, q1 := Emit([], p0.out, [JUMP_IF_FALSE] + U32(0)), Emit([], p1.out, [JUMP_IF_FALSE] + U32(0));
      if q0.Ok? && q1.Ok? {
        StatementsInStep(body, q0.out, q1.out, cx, d, e);
      }
    }
  }

  lemma {:induction false} WhileTrueInStep(toks: seq<Lexeme>, st0: Output, st1: Output, cx: Context, d: int, e: nat)
    requires Shifted(st0, st1, d, e)
    ensures InStep(WhileTrue(toks, st0, cx), WhileTrue(toks, st1, cx), d, e)
    decreases Slots(st0.blocks), |toks|, 0
  {
    hide Loop;
    if !NotCapturable(toks) {
      var n := CloseAt(toks, "[", "]", 1);
      var t1 := toks[n..];
      var t3 := Tail(Tail(t1));
      if Head(t1).kind == Keyword && IsSpecial(Head(Tail(t1)), "[") && !NotCapturable(t3) {
        var m := CloseAt(t3, "[", "]", 1);
        LoopInStep(toks[..n - 1], t3[..m - 1], t3[m..], st0, st1, cx, d, e);
      }
    }
  }

  lemma {:induction false} AfterExpressionInStep(toks: seq<Lexeme>, st0: Output, st1: Output, cx: Context, d: int,
                                                 e: nat)
    requires Shifted(st0, st1, d, e)
    ensures InStep(AfterExpression(toks, st0, cx), AfterExpression(toks, st1, cx), d, e)
    decreases Slots(st0.blocks), |toks|, 11
  {
    hide Statements;
    if toks != [] && Head(toks).kind != Eof && IsSpecial(Head(toks), ".") {
      var p0, p1 := Emit(Tail(toks), st0, [POP]), Emit(Tail(toks), st1, [POP]);
      if p0.Ok? && p1.Ok? {
        StatementsInStep(Tail(toks), p0.out, p1.out, cx, d, e);
      }
    }
  }

  lemma {:induction false} AfterStatementInStep(toks: seq<Lexeme>, st0: Output, st1: Output, cx: Context,
                                                drop: seq<Byte>, d: int, e: nat)
    requires Shifted(st0, st1, d, e)
    ensures InStep(AfterStatement(toks, st0, cx, drop), AfterStatement(toks, st1, cx, drop), d, e)
    decreases Slots(st0.blocks), |toks|, 11
  {
    hide Statements;
    if toks != [] && Head(toks).kind != Eof && IsSpecial(Head(toks), ".") {
      var p0, p1 := Emit(Tail(toks), st0, drop), Emit(Tail(toks), st1, drop);
      if p0.Ok? && p1.Ok? {
        StatementsInStep(Tail(toks), p0.out, p1.out, cx, d, e);
      }
    }
  }

  lemma {:induction false} AssignInStep(name: string, toks: seq<Lexeme>, st0: Output, st1: Output, cx: Context,
                                        d: int, e: nat)
    requires Shifted(st0, st1, d, e)
    ensures InStep(AssignStatement(name, toks, st0, cx), AssignStatement(name, toks, st1, cx), d, e)
    decreases Slots(st0.blocks), |toks|, 10
  {
    hide Expression, AfterStatement, StoreInto;
    ExpressionInStep(toks, st0, st1, cx, d, e);
    var p0, p1 := Expression(toks, st0, cx), Expression(toks, st1, cx);
    if p0.Ok? && p1.Ok? {
      var q0, q1 := Emit(p0.rest, p0.out, StoreInto(name, cx)), Emit(p0.rest, p1.out, StoreInto(name, cx));
      if q0.Ok? && q1.Ok? {
        AfterStatementInStep(p0.rest, q0.out, q1.out, cx, [], d, e);
      }
    }
  }

  lemma {:induction false} ExpressionStatementInStep(toks: seq<Lexeme>, st0: Output, st1: Output, cx: Context, d: int,
                                                     e: nat)
    requires Shifted(st0, st1, d, e)
    ensures InStep(ExpressionStatement(toks, st0, cx), ExpressionStatement(toks, st1, cx), d, e)
    decreases Slots(st0.blocks), |toks|, 10
  {
    hide Expression, AfterExpression;
    ExpressionInStep(toks, st0, st1, cx, d, e);
    var p0, p1 := Expression(toks, st0, cx), Expression(toks, st1, cx);
    if p0.Ok? && p1.Ok? {
      AfterExpressionInStep(p0.rest, p0.out, p1.out, cx, d, e);
    }
  }

  /** With the block table full no expression that starts with a bracket is compiled. */
  lemma BracketWhenFull(toks: seq<Lexeme>, st: Output, cx: Context)
    requires IsSpecial(Head(toks), "[") && Full(st)
    ensures ExpressionStatement(toks, st, cx) == Fail(st)
  {
    assert Primary(toks, st, cx) == Fail(st);
    assert UnaryExpression(toks, st, cx) == Fail(st);
    assert BinaryExpression(toks, st, cx) == Fail(st);
    assert Expression(toks, st, cx) == Fail(st);
  }

  lemma {:induction false} BracketInStep(toks: seq<Lexeme>, st0: Output, st1: Output, cx: Context, d: int, e: nat)
    requires IsSpecial(Head(toks), "[") && Shifted(st0, st1, d, e)
    ensures InStep(BracketStatement(toks, st0, cx), BracketStatement(toks, st1, cx), d, e)
    decreases Slots(st0.blocks), |toks|, 11
  {
    hide WhileTrue, ExpressionStatement, AfterStatement;
    WhileTrueInStep(Tail(toks), st0, st1, cx, d, e);
    var p0, p1 := WhileTrue(Tail(toks), st0, cx), WhileTrue(Tail(toks), st1, cx);
    if p1.Fail? && Full(p1.partial) {
      BracketWhenFull(toks, p1.partial, cx);
    } else if p0.Fail? && p1.Fail? {
      ExpressionStatementInStep(toks, p0.partial, p1.partial, cx, d, e);
    } else if p0.Ok? && p1.Ok? {
      AfterStatementInStep(p0.rest, p0.out, p1.out, cx, [POP], d, e);
    }
  }

  lemma {:induction false} NameInStep(t: Token, toks: seq<Lexeme>, st0: Output, st1: Output, cx: Context, d: int,
                                      e: nat)
    requires t.kind == Identifier && Shifted(st0, st1, d, e)
    ensures InStep(NameStatement(t, toks, st0, cx), NameStatement(t, toks, st1, cx), d, e)
    decreases Slots(st0.blocks), |toks|, 12
  {
    hide Continuation, AfterExpression, EmitAtom;
    AtomInStep(t, toks, st0, st1, cx, d, e);
    var p0, p1 := EmitAtom(t, toks, st0, cx), EmitAtom(t, toks, st1, cx);
    if p0.Ok? && p1.Ok? {
      ContinuationInStep(toks, p0.out, p1.out, cx, d, e);
      var q0, q1 := Continuation(toks, p0.out, cx), Continuation(toks, p1.out, cx);
      if q0.Ok? && q1.Ok? {
        AfterExpressionInStep(q0.rest, q0.out, q1.out, cx, d, e);
      }
    }
  }

  lemma {:induction false} StatementsInStep(toks: seq<Lexeme>, st0: Output, st1: Output, cx: Context, d: int, e: nat)
    requires Shifted(st0, st1, d, e)
    ensures InStep(Statements(toks, st0, cx), Statements(toks, st1, cx), d, e)
    decreases Slots(st0.blocks), |toks|, 13
  {
    hide Expression, BracketStatement, AssignStatement, NameStatement, ExpressionStatement;
    var t, rest := Head(toks), Tail(toks);
    if toks == [] || t.kind == Eof {
    } else if IsSpecial(t, ".") {
      StatementsInStep(rest, st0, st1, cx, d, e);
    } else if IsSpecial(t, "^") {
      ExpressionInStep(rest, st0, st1, cx, d, e);
    } else if IsSpecial(t, "[") {
      BracketInStep(toks, st0, st1, cx, d, e);
    } else if t.kind == Identifier && IsSpecial(Head(rest), ":=") {
      AssignInStep(t.text, Tail(rest), st0, st1, cx, d, e);
    } else if t.kind == Identifier {
      NameInStep(t, rest, st0, st1, cx, d, e);
    } else {
      ExpressionStatementInStep(toks, st0, st1, cx, d, e);
    }
  }

  lemma {:induction false} BodyInStep(toks: seq<Lexeme>, blocks0: seq<Body>, blocks1: seq<Body>, outers: seq<Scope>,
                                      ivars: seq<string>,
                                      offset: nat, e: nat)
    requires MoreBlocks(blocks0, blocks1, e)
    ensures BodiesInStep(CompileBody(toks, blocks0, [], outers, ivars, true, offset),
                         CompileBody(toks, blocks1, [], outers, ivars, true, offset), e)
    decreases Slots(blocks0), |toks|, 14
  {
    hide Statements;
    var h := BlockHeader(toks);
    if h.Names? && TempDecls(h.rest).Names? {
      var temps := TempDecls(h.rest);
      var cx := Context(Scope(h.names, temps.names, offset, true), outers, ivars);
      StatementsInStep(temps.rest, Output([], [], blocks0, false), Output([], [], blocks1, false), cx, 0, e);
    }
  }

  // ----------------------------------------------------------------- what an attempt leaves behind

  /** Something was emitted, or a block was entered in the table. */
  predicate Longer(st: Output, out: Output) { |out.code| > |st.code| || |out.blocks| > |st.blocks| }

  /**
   After any open parentheses the tokens start with something that no expression starts with:
   parsing them fails before anything is emitted.
   */
  predicate Silent(toks: seq<Lexeme>, full: bool)
    decreases |toks|
  {
    var t, rest := Head(toks), Tail(toks);
    if t.kind in {Identifier, Integer, Character, String, Symbol} then false
    else if IsSpecial(t, "(") then Silent(rest, full)
    else if IsSpecial(t, "#(") then
      var n := CloseAt(rest, "#(", ")", 1);
      n == 0 || 2 + |Raw(rest[..n])| > TEXT_MAX
    else if IsSpecial(t, "[") then full || NotCapturable(rest)
    else true
  }

  lemma {:induction false} SilentFails(toks: seq<Lexeme>, st: Output, cx: Context)
    requires Silent(toks, Full(st))
    ensures Expression(toks, st, cx) == Fail(st)
    decreases |toks|
  {
    hide UnaryTail, BinaryTail, Continuation;
    assert Primary(toks, st, cx) == Fail(st) by {
      if IsSpecial(Head(toks), "(") {
        SilentFails(Tail(toks), st, cx);
        hide Expression;
      }
    }
    assert UnaryExpression(toks, st, cx) == Fail(st);
    assert BinaryExpression(toks, st, cx) == Fail(st);
  }

  lemma {:induction false} PrimaryEmits(toks: seq<Lexeme>, st: Output, cx: Context)
    requires !Silent(toks, Full(st))
    ensures var p := Primary(toks, st, cx);
            && (p.Ok? ==> |p.out.code| > |st.code|)
            && (p.Fail? ==> Longer(st, p.partial))
    decreases |toks|, 0
  {
    hide Expression, CompileBody, Raw, CloseAt, FindLiteral, Interned, U32, Find, OuterArgSlot, OuterTempSlot, TempSlot;
    if IsSpecial(Head(toks), "(") {
      ExpressionEmits(Tail(toks), st, cx);
    }
  }

  /** An expression that is parsed has code, and one that fails leaves something unless it fails at once. */
  lemma {:induction false} ExpressionEmits(toks: seq<Lexeme>, st: Output, cx: Context)
    requires !Silent(toks, Full(st))
    ensures var p := Expression(toks, st, cx);
            && (p.Ok? ==> |p.out.code| > |st.code|)
            && (p.Fail? ==> Longer(st, p.partial))
    decreases |toks|, 1
  {
    PrimaryEmits(toks, st, cx);
    hide Primary, UnaryTail, BinaryTail, Continuation, Silent;
    assert UnaryExpression(toks, st, cx).Fail? ==> Longer(st, UnaryExpression(toks, st, cx).partial);
    assert BinaryExpression(toks, st, cx).Fail? ==> Longer(st, BinaryExpression(toks, st, cx).partial);
  }

  /** What failed without code but took a place in the block table left that place empty. */
  predicate LeftEmpty(st: Output, out: Output) {
    |out.code| == |st.code| && |out.blocks| > |st.blocks| ==> out.blocks[|st.blocks|] == EMPTY_BODY
  }

  lemma {:induction false} PrimaryLeaves(toks: seq<Lexeme>, st: Output, cx: Context)
    requires Primary(toks, st, cx).Fail?
    ensures LeftEmpty(st, Primary(toks, st, cx).partial)
    decreases |toks|, 0
  {
    hide Expression, CompileBlock, Raw, CloseAt, FindLiteral, Interned, U32, Find, OuterArgSlot, OuterTempSlot,
         TempSlot, BlockText;
    if IsSpecial(Head(toks), "(") {
      var inner := Expression(Tail(toks), st, cx);
      if inner.Fail? {
        ExpressionLeaves(Tail(toks), st, cx);
      } else if inner.Ok? {
        HasCode(Tail(toks), st, cx);
      }
    }
  }

  lemma HasCode(toks: seq<Lexeme>, st: Output, cx: Context)
    requires Expression(toks, st, cx).Ok?
    ensures |Expression(toks, st, cx).out.code| > |st.code|
  {
    hide Expression;
    if Silent(toks, Full(st)) {
      SilentFails(toks, st, cx);
    } else {
      ExpressionEmits(toks, st, cx);
    }
  }

  lemma {:induction false} ExpressionLeaves(toks: seq<Lexeme>, st: Output, cx: Context)
    requires Expression(toks, st, cx).Fail?
    ensures LeftEmpty(st, Expression(toks, st, cx).partial)
    decreases |toks|, 1
  {
    var p := Primary(toks, st, cx);
    if Silent(toks, Full(st)) {
      SilentFails(toks, st, cx);
    } else if p.Fail? {
      PrimaryLeaves(toks, st, cx);
      hide Primary, UnaryTail, BinaryTail, Continuation;
      assert UnaryExpression(toks, st, cx) == p;
      assert BinaryExpression(toks, st, cx) == p;
    } else {
      assert p.Ok? by {
        hide Primary, UnaryTail, BinaryTail, Continuation;
        assert UnaryExpression(toks, st, cx).Overflow? ==> BinaryExpression(toks, st, cx).Overflow?;
        assert p.Overflow? ==> UnaryExpression(toks, st, cx).Overflow?;
      }
      PrimaryEmits(toks, st, cx);
      hide Primary, UnaryTail, BinaryTail, Continuation;
      assert UnaryExpression(toks, st, cx) == UnaryTail(p.rest, p.out);
      var u := UnaryExpression(toks, st, cx);
      assert u.Fail? ==> BinaryExpression(toks, st, cx) == u;
      assert u.Ok? ==> BinaryExpression(toks, st, cx) == BinaryTail(u.rest, u.out, cx);
    }
  }

  /** `cond] whileTrue: [body]` with both sources captured: what the attempt goes as far as to compile. */
  predicate LoopShaped(toks: seq<Lexeme>) {
    && !NotCapturable(toks)
    && var t1 := toks[CloseAt(toks, "[", "]", 1)..];
       && Head(t1).kind == Keyword && Head(t1).text == "whileTrue:" && IsSpecial(Head(Tail(t1)), "[")
       && !NotCapturable(Tail(Tail(t1)))
  }

  function Condition(toks: seq<Lexeme>): seq<Lexeme>
    requires LoopShaped(toks)
  {
    toks[..CloseAt(toks, "[", "]", 1) - 1]
  }

  /** Nothing is left behind by an attempt that fails. */
  predicate Clean(toks: seq<Lexeme>, full: bool) { !LoopShaped(toks) || Silent(Condition(toks), full) }

  /**
   A failed attempt leaves the output as it was if and only if it is no loop by its shape, or its
   condition fails at once.
   */
  lemma LoopResidue(toks: seq<Lexeme>, st: Output, cx: Context)
    requires WhileTrue(toks, st, cx).Fail?
    ensures WhileTrue(toks, st, cx).partial == st <==> Clean(toks, Full(st))
    ensures WhileTrue(toks, st, cx).partial != st ==> Longer(st, WhileTrue(toks, st, cx).partial)
  {
    hide Expression, Statements, CloseAt, Raw, Silent, Patch;
    if LoopShaped(toks) {
      var cond := Condition(toks);
      if Silent(cond, Full(st)) {
        SilentFails(cond, st, cx);
      } else {
        ExpressionEmits(cond, st, cx);
      }
    }
  }

  /** A failed attempt without code that took places in the block table left the first of them empty. */
  lemma AttemptLeaves(toks: seq<Lexeme>, st: Output, cx: Context)
    requires WhileTrue(toks, st, cx).Fail?
    ensures LeftEmpty(st, WhileTrue(toks, st, cx).partial)
  {
    hide Expression, Statements, CloseAt, Raw, Patch;
    if LoopShaped(toks) {
      if Expression(Condition(toks), st, cx).Ok? {
        HasCode(Condition(toks), st, cx);
      } else if Expression(Condition(toks), st, cx).Fail? {
        ExpressionLeaves(Condition(toks), st, cx);
      }
    }
  }

  /** Every body that is accepted has code. */
  lemma BodyHasCode(toks: seq<Lexeme>, blocks: seq<Body>, outers: seq<Scope>, ivars: seq<string>, offset: nat)
    ensures var c := CompileBody(toks, blocks, [], outers, ivars, true, offset); c.Accepted? ==> c.body.code != []
  {
    hide Statements, BlockHeader, TempDecls, EmitRef;
  }

  lemma BlockHasCode(toks: seq<Lexeme>, text: string, blocks: seq<Body>, cx: Context)
    requires |blocks| < BLOCK_MAX
    ensures var c := CompileBlock(toks, text, blocks, cx); c.Accepted? ==> c.body.code != []
  {
    hide CompileBody, Implicit;
    var outers, offset := [cx.scope] + cx.outers, cx.scope.offset + |cx.scope.args| + |cx.scope.temps|;
    BodyHasCode(toks, blocks + [EMPTY_BODY], outers, cx.ivars, offset);
    var first := CompileBody(toks, blocks + [EMPTY_BODY], [], outers, cx.ivars, true, offset);
    if first.Rejected? {
      BodyHasCode(Lex(Implicit(text)), first.blocks, outers, cx.ivars, offset);
    }
  }

  /** A block literal that is compiled stands in the table under its number. */
  lemma BlockEnters(t: Token, toks: seq<Lexeme>, st: Output, cx: Context)
    requires IsSpecial(t, "[") && EmitPrimary(t, toks, st, cx).Ok?
    ensures var blocks := EmitPrimary(t, toks, st, cx).out.blocks;
            |blocks| > |st.blocks| && blocks[|st.blocks|] != EMPTY_BODY
  {
    hide CompileBlock, FindLiteral, Interned, CloseAt, Raw, BlockText, BlockName;
    var n := CloseAt(toks, "[", "]", 1);
    BlockHasCode(toks[..n - 1], BlockText(toks[..n]), st.blocks, cx);
  }

  /** So does the one that a statement starts with. */
  lemma BracketEnters(toks: seq<Lexeme>, st: Output, cx: Context)
    requires IsSpecial(Head(toks), "[") && ExpressionStatement(toks, st, cx).Ok?
    ensures var blocks := ExpressionStatement(toks, st, cx).out.blocks;
            |blocks| > |st.blocks| && blocks[|st.blocks|] != EMPTY_BODY
  {
    hide EmitPrimary, UnaryTail, BinaryTail, Continuation, AfterExpression;
    assert Expression(toks, st, cx).Ok?;
    assert BinaryExpression(toks, st, cx).Ok?;
    assert UnaryExpression(toks, st, cx).Ok?;
    assert Primary(toks, st, cx).Ok?;
    BlockEnters(Head(toks), Tail(toks), st, cx);
  }

  /** A rejection with the block table full is never taken back: the fallback is rejected with the same output. */
  lemma NeverRescued(toks: seq<Lexeme>, st: Output, cx: Context)
    requires IsSpecial(Head(toks), "[")
    requires var p := WhileTrue(Tail(toks), st, cx); p.Fail? && Full(p.partial)
    ensures BracketStatement(toks, st, cx) == WhileTrue(Tail(toks), st, cx)
  {
    hide WhileTrue, ExpressionStatement;
    BracketWhenFull(toks, WhileTrue(Tail(toks), st, cx).partial, cx);
  }

  /**
   A bracket statement that is no loop is compiled to its own code if and only if the attempt
   left nothing behind, and it is never accepted when it would not be by itself.  Where it is
   rejected by itself with the block table full it is so with the attempt too; then the two
   rejections may coincide (`FullTable`), and neither is taken back (`NeverRescued`).
   */
  lemma FallbackIff(toks: seq<Lexeme>, st: Output, cx: Context)
    requires IsSpecial(Head(toks), "[") && WhileTrue(Tail(toks), st, cx).Fail?
    requires !ExpressionStatement(toks, st, cx).Overflow?
    ensures var own, got := ExpressionStatement(toks, st, cx), BracketStatement(toks, st, cx);
            && (own.Fail? ==> !got.Ok?)
            && (!(own.Fail? && Full(own.partial)) ==> (got == own <==> Clean(Tail(toks), Full(st))))
            && (own.Fail? && Full(own.partial) ==> got.Overflow? || (got.Fail? && Full(got.partial)))
  {
    var left := WhileTrue(Tail(toks), st, cx).partial;
    LoopResidue(Tail(toks), st, cx);
    AttemptLeaves(Tail(toks), st, cx);
    if ExpressionStatement(toks, st, cx).Ok? {
      BracketEnters(toks, st, cx);
    }
    ExpressionStatementInStep(toks, st, left, cx, |left.code| - |st.code|, |left.blocks| - |st.blocks|);
    hide WhileTrue, ExpressionStatement, Clean;
  }

  // ----------------------------------------------------------------- conditions of more than one expression

  /** The tokens of `cond] whileTrue: [body]` and what follows. */
  function LoopLex(cond: seq<Lexeme>, close: Lexeme, key: Lexeme, bodyOpen: Lexeme, body: seq<Lexeme>,
                   bodyClose: Lexeme,
                   rest: seq<Lexeme>): seq<Lexeme>
  {
    cond + [close] + ([key, bodyOpen] + body + [bodyClose] + rest)
  }

  predicate IsLoopLex(cond: seq<Lexeme>, close: Lexeme, key: Lexeme, bodyOpen: Lexeme, body: seq<Lexeme>,
                      bodyClose: Lexeme) {
    && DepthAfter(cond, "[", "]", 1) == 1 && DepthAfter(body, "[", "]", 1) == 1
    && IsSpecial(close.token, "]") && IsSpecial(bodyOpen.token, "[") && IsSpecial(bodyClose.token, "]")
    && key.token.kind == Keyword && key.token.text == "whileTrue:"
    && |Raw(cond + [close])| <= SOURCE_MAX && |Raw(body + [bodyClose])| <= SOURCE_MAX
  }

  /** A condition that goes on after its first expression: exactly that expression's code is left behind. */
  lemma LeftoverCondition(e: Expr, more: seq<Lexeme>, close: Lexeme, key: Lexeme, bodyOpen: Lexeme, body: seq<Lexeme>,
                          bodyClose: Lexeme, rest: seq<Lexeme>, st: Output, cx: Context)
    requires WellFormedExpr(e) && more != [] && IsTerminator(Head(more))
    requires IsLoopLex(ExprLex(e) + more, close, key, bodyOpen, body, bodyClose)
    ensures var p := Gen(ExprTree(e), st, cx);
            WhileTrue(LoopLex(ExprLex(e) + more, close, key, bodyOpen, body, bodyClose, rest), st, cx)
            == if p.Ok? then Fail(p.out) else Overflow
  {
    hide ExprLex, DepthAfter, Gen, Expression, WhileTrue, Statements, Raw;
    ParseExpr(e, more, st, cx);
    P.CaptureLoop(ExprLex(e) + more, close, key, bodyOpen, body, bodyClose, rest, st, cx);
  }

  /**
   A statement whose attempt as a loop left an expression's code behind (`LeftoverCondition`),
   accepted as an expression, evaluates that expression once before its own code starts, and the
   value stays on the stack below whatever comes.
   */
  lemma LeftoverRuns(t: Term, toks: seq<Lexeme>, rest: seq<Lexeme>, st: Output, s1: Output, out: Output, cx: Context,
                     p: M.Program, w: M.World, pool: seq<Token>, m: M.State, v: Vars)
    returns (k: nat, m1: M.State)
    requires Gen(t, st, cx) == Ok([], s1) && WhileTrue(Tail(toks), st, cx) == Fail(s1)
    requires BracketStatement(toks, st, cx) == Ok(rest, out) && Loaded(p, w, pool, st, out)
    requires Scoped(cx) && NoContext(t) && FrameHolds(m, v, cx) && m.sp >= Need(t) && m.ip == |st.code|
    ensures |s1.code| > |st.code| && ExpressionStatement(toks, s1, cx) == Ok(rest, out)
    ensures var r := Eval(t, w, v, cx.ivars, m.heap);
            k > 0 && M.Run(p, w, m, k) == M.Running(m1) && Pushed(m, m1, r.0, |s1.code|, r.1) && FrameHolds(m1, v, cx)
  {
    hide Gen, WhileTrue, ExpressionStatement, Loaded, FrameHolds, Scoped, Eval, M.Run, Need, NoContext;
    GenEmits(t, st, s1, cx);
    LoadedParts(p, w, pool, st, s1, out);
    k, m1 := RunTerm(t, p, w, pool, st, s1, m, v, cx);
  }

  // ----------------------------------------------------------------- a statement

  function Item(kind: Kind, text: string): Lexeme { Lexeme(Token(kind, text, 0), " " + text) }

  function Sp(text: string): Lexeme { Item(Special, text) }

  /** `self foo` */
  const FOO := Expr(Binary(Unary(Atom(Item(Identifier, "self")), [Item(Identifier, "foo")]), NoBinary), NoKeyword)

  /** `self foo. self` */
  const FOO_SELF := [Item(Identifier, "self"), Item(Identifier, "foo"), Sp("."), Item(Identifier, "self")]

  /** `self foo. self] whileTrue: []` */
  const EXAMPLE := LoopLex(FOO_SELF, Sp("]"), Item(Keyword, "whileTrue:"), Sp("["), [], Sp("]"), [])

  const START := Output([], [], [], false)

  const HERE := Context(Scope([], [], 0, false), [], [])

  lemma {:induction false} RawBound(ls: seq<Lexeme>, n: nat)
    requires forall i :: 0 <= i < |ls| ==> |ls[i].raw| <= n
    ensures |Raw(ls)| <= n * |ls|
  {
    if ls != [] {
      RawBound(ls[1..], n);
    }
  }

  lemma ExampleShape()
    ensures DepthAfter(FOO_SELF, "[", "]", 1) == 1 && DepthAfter([], "[", "]", 1) == 1
    ensures |Raw(FOO_SELF + [Sp("]")])| <= SOURCE_MAX && |Raw([] + [Sp("]")])| <= SOURCE_MAX
    ensures IsLoopLex(FOO_SELF, Sp("]"), Item(Keyword, "whileTrue:"), Sp("["), [], Sp("]"))
  {
    assert |Raw(FOO_SELF + [Sp("]")])| <= SOURCE_MAX by { RawBound(FOO_SELF + [Sp("]")], 10); }
    assert |Raw([] + [Sp("]")])| <= SOURCE_MAX by { RawBound([] + [Sp("]")], 10); }
    P.PlainDepth(FOO_SELF, 1);
    hide Raw, DepthAfter;
  }

  lemma ExampleTree()
    ensures WellFormedExpr(FOO) && ExprLex(FOO) + [Sp("."), Item(Identifier, "self")] == FOO_SELF
    ensures Gen(ExprTree(FOO), START, HERE)
            == Ok([], Output([PUSH_SELF, SEND_MESSAGE] + U32(0) + U32(0), [Token(Selector, "foo", 0)], [], false))
  {
    assert ExprTree(FOO) == Send(Leaf(Item(Identifier, "self").token), "foo", NoArgs);
  }

  /** A statement `self`, the last one. */
  lemma SelfLast(st: Output, cx: Context)
    requires |st.code| <= 400
    ensures Statements([Item(Identifier, "self")], st, cx)
            == Ok([], st.(code := st.code + [PUSH_SELF] + [RETURN_TOP], sawReturn := true))
  {
    var toks := [Item(Identifier, "self")];
    assert Tail(toks) == [];
    var s1 := st.(code := st.code + [PUSH_SELF]);
    assert EmitAtom(Head(toks), [], st, cx) == Ok([], s1);
    assert Continuation([], s1, cx) == Ok([], s1);
    hide EmitAtom, Continuation;
    assert AfterExpression([], s1, cx) == Ok([], s1.(code := s1.code + [RETURN_TOP], sawReturn := true));
    hide AfterExpression;
    assert NameStatement(Head(toks), [], st, cx) == AfterExpression([], s1, cx);
  }

  lemma FooSelf(st: Output, cx: Context)
    requires |st.code| <= 300 && |st.pool| <= 20
    ensures var p := Statements(FOO_SELF, st, cx);
            p.Ok? && p.out.blocks == st.blocks && p.out.sawReturn
  {
    var t1, t2 := [Item(Identifier, "foo"), Sp("."), Item(Identifier, "self")], [Sp("."), Item(Identifier, "self")];
    assert Tail(FOO_SELF) == t1 && Tail(t1) == t2 && Tail(t2) == [Item(Identifier, "self")];
    var s1 := st.(code := st.code + [PUSH_SELF]);
    assert EmitAtom(Head(FOO_SELF), t1, st, cx) == Ok(t1, s1);
    var p2 := EmitSend(t2, s1, "foo", 0);
    ContinuationName(t1, s1, cx);
    assert Continuation(t2, p2.out, cx) == Ok(t2, p2.out);
    var s3 := p2.out.(code := p2.out.code + [POP]);
    SelfLast(s3, cx);
    hide Continuation, EmitAtom, EmitSend;
    assert AfterExpression(t2, p2.out, cx) == Statements([Item(Identifier, "self")], s3, cx);
  }

  /** Room in every table of the compiler for so many block literals with a send. */
  predicate Roomy(st: Output, uses: nat) {
    |st.code| + 20 * uses <= CODE_MAX && |st.pool| + 4 * uses <= POOL_MAX && |st.blocks| + uses < BLOCK_MAX
  }

  /** A block literal whose tokens compile without blocks of their own. */
  lemma BlockCompiled(items: seq<Lexeme>, rest: seq<Lexeme>, st: Output, cx: Context)
    requires DepthAfter(items, "[", "]", 1) == 1 && |Raw(items + [Sp("]")])| <= SOURCE_MAX && Roomy(st, 1)
    requires var offset := cx.scope.offset + |cx.scope.args| + |cx.scope.temps|;
             var c := CompileBody(items, st.blocks + [EMPTY_BODY], [], [cx.scope] + cx.outers, cx.ivars, true, offset);
             c.Accepted? && |c.blocks| == |st.blocks| + 1
    ensures var p := EmitPrimary(Sp("[").token, items + [Sp("]")] + rest, st, cx);
            p.Ok? && p.rest == rest && |p.out.code| == |st.code| + 5 && |p.out.pool| <= |st.pool| + 1
                && |p.out.blocks| == |st.blocks| + 1
  {
    hide CompileBody, Raw, CloseAt, DepthAfter, FindLiteral, BlockName;
    var toks := items + [Sp("]")] + rest;
    CloseAtNested(items, Sp("]"), rest, "[", "]", 1);
    var n := |items| + 1;
    assert toks[..n] == items + [Sp("]")] && toks[..n - 1] == items && toks[n..] == rest;
  }

  lemma FooSelfBody(blocks: seq<Body>, outers: seq<Scope>, ivars: seq<string>, offset: nat)
    ensures var c := CompileBody(FOO_SELF, blocks, [], outers, ivars, true, offset);
            c.Accepted? && |c.blocks| == |blocks|
  {
    FooSelf(Output([], [], blocks, false), Context(Scope([], [], offset, true), outers, ivars));
    hide Statements;
  }

  lemma EmptyBody(blocks: seq<Body>, outers: seq<Scope>, ivars: seq<string>, offset: nat)
    ensures var c := CompileBody([], blocks, [], outers, ivars, true, offset);
            c.Accepted? && |c.blocks| == |blocks|
  {
  }

  /** A primary with nothing but a keyword message, or nothing, after it. */
  lemma PrimaryAlone(toks: seq<Lexeme>, st: Output, cx: Context)
    requires var p := Primary(toks, st, cx); p.Ok? && (p.rest == [] || Head(p.rest).kind == Keyword)
    ensures BinaryExpression(toks, st, cx) == Primary(toks, st, cx)
  {
    hide EmitPrimary;
  }

  lemma SendFits(st: Output, selector: string, argc: nat)
    requires |st.code| + 9 <= CODE_MAX && |st.pool| < POOL_MAX
    ensures var p := EmitSend([], st, selector, argc);
            p.Ok? && p.rest == [] && |p.out.code| == |st.code| + 9 && p.out.blocks == st.blocks
  {
    hide FindLiteral, U32;
  }

  /** A keyword message of one part, at the end. */
  lemma MessageLast(key: Lexeme, arg: seq<Lexeme>, s1: Output, st: Output, cx: Context)
    requires key.token.kind == Keyword && |key.token.text| <= SELECTOR_MAX
             && BinaryExpression(arg, st, cx) == Ok([], s1)
    requires |s1.code| + 9 <= CODE_MAX && |s1.pool| < POOL_MAX
    ensures var p := Continuation([key] + arg, st, cx);
            p.Ok? && p.rest == [] && |p.out.code| == |s1.code| + 9 && p.out.blocks == s1.blocks
  {
    hide BinaryExpression, EmitSend, Continuation;
    var toks := [key] + arg;
    assert Head(toks) == key.token && Tail(toks) == arg;
    ContinuationKeyword(toks, st, cx);
    var selector := Clip("" + key.token.text, SELECTOR_MAX);
    SendFits(s1, selector, 1);
    ContinuationEnds([], EmitSend([], s1, selector, 1).out, cx);
  }

  /** The message of the example, after its receiver. */
  lemma ExampleMessage(st: Output)
    requires Roomy(st, 1)
    ensures var p := Continuation([Item(Keyword, "whileTrue:"), Sp("["), Sp("]")], st, HERE);
            p.Ok? && p.rest == [] && |p.out.code| == |st.code| + 14
  {
    var key, arg := Item(Keyword, "whileTrue:"), [Sp("["), Sp("]")];
    assert Head(arg) == Sp("[").token && Tail(arg) == [] + [Sp("]")] + [];
    assert [key] + arg == [Item(Keyword, "whileTrue:"), Sp("["), Sp("]")];
    hide CompileBody, EmitPrimary, Raw, DepthAfter, IsLoopLex, BinaryExpression, Continuation;
    ExampleShape();
    EmptyBody(st.blocks + [EMPTY_BODY], [HERE.scope] + HERE.outers, [], 0);
    BlockCompiled([], [], st, HERE);
    PrimaryAlone(arg, st, HERE);
    MessageLast(key, arg, Primary(arg, st, HERE).out, st, HERE);
  }

  lemma ExampleTokens()
    ensures EXAMPLE == FOO_SELF + [Sp("]")] + [Item(Keyword, "whileTrue:"), Sp("["), Sp("]")]
  {
  }

  lemma MessageHead()
    ensures Head([Item(Keyword, "whileTrue:"), Sp("["), Sp("]")]) == Item(Keyword, "whileTrue:").token
  {
  }

  lemma PrimaryOf(toks: seq<Lexeme>, st: Output, cx: Context)
    ensures Primary(toks, st, cx) == EmitPrimary(Head(toks), Tail(toks), st, cx)
  {
    hide EmitPrimary;
  }

  /** The receiver of the example, as an expression. */
  lemma ExampleReceiver(st: Output)
    requires Roomy(st, 2)
    ensures var p := BinaryExpression([Sp("[")] + EXAMPLE, st, HERE);
            p.Ok? && p.rest == [Item(Keyword, "whileTrue:"), Sp("["), Sp("]")] && Roomy(p.out, 1)
            && |p.out.code| <= 482
  {
    var toks, after := [Sp("[")] + EXAMPLE, [Item(Keyword, "whileTrue:"), Sp("["), Sp("]")];
    hide CompileBody, EmitPrimary, Raw, DepthAfter, IsLoopLex, LoopLex, BinaryExpression;
    assert EXAMPLE == FOO_SELF + [Sp("]")] + after by { ExampleTokens(); }
    assert Head(toks) == Sp("[").token && Tail(toks) == EXAMPLE;
    hide Head, Tail;
    assert Primary(toks, st, HERE) == EmitPrimary(Sp("[").token, EXAMPLE, st, HERE) by { PrimaryOf(toks, st, HERE); }
    assert Head(after) == Item(Keyword, "whileTrue:").token by { MessageHead(); }
    hide Primary;
    ExampleShape();
    FooSelfBody(st.blocks + [EMPTY_BODY], [HERE.scope] + HERE.outers, [], 0);
    BlockCompiled(FOO_SELF, after, st, HERE);
    PrimaryAlone(toks, st, HERE);
  }

  lemma ExampleOwn(st: Output)
    requires Roomy(st, 2)
    ensures ExpressionStatement([Sp("[")] + EXAMPLE, st, HERE).Ok?
  {
    hide BinaryExpression, Continuation, Roomy, LoopLex;
    var toks := [Sp("[")] + EXAMPLE;
    ExampleReceiver(st);
    var p := BinaryExpression(toks, st, HERE);
    ExampleMessage(p.out);
    var q := Continuation(p.rest, p.out, HERE);
    assert Expression(toks, st, HERE) == q;
    hide Expression;
    assert AfterExpression([], q.out, HERE).Ok?;
  }

  /**
   `[self foo. self] whileTrue: []`: the attempt leaves the send of `foo` behind, and the
   statement is accepted with it in front of its own code.
   */
  lemma LoopFallback()
    ensures var toks, left := [Sp("[")] + EXAMPLE,
            Output([PUSH_SELF, SEND_MESSAGE] + U32(0) + U32(0), [Token(Selector, "foo", 0)], [], false);
            && WhileTrue(EXAMPLE, START, HERE) == Fail(left)
            && ExpressionStatement(toks, START, HERE).Ok? && BracketStatement(toks, START, HERE).Ok?
            && BracketStatement(toks, START, HERE) == ExpressionStatement(toks, left, HERE)
            && BracketStatement(toks, START, HERE) != ExpressionStatement(toks, START, HERE)
  {
    hide IsLoopLex, ExprLex, Gen, ExprTree, WellFormedExpr, WhileTrue, ExpressionStatement, LoopLex, Clean;
    ExampleShape();
    ExampleTree();
    var more := [Sp("."), Item(Identifier, "self")];
    LeftoverCondition(FOO, more, Sp("]"), Item(Keyword, "whileTrue:"), Sp("["), [], Sp("]"), [], START, HERE);
    var left := Output([PUSH_SELF, SEND_MESSAGE] + U32(0) + U32(0), [Token(Selector, "foo", 0)], [], false);
    ExampleOwn(START);
    ExampleOwn(left);
    assert Head([Sp("[")] + EXAMPLE) == Sp("[").token && Tail([Sp("[")] + EXAMPLE) == EXAMPLE;
    LoopResidue(EXAMPLE, START, HERE);
    FallbackIff([Sp("[")] + EXAMPLE, START, HERE);
  }

  // ----------------------------------------------------------------- a full table

  /** `[|]` as the condition of a loop. */
  const BAD := [Sp("["), Sp("|"), Sp("]")]

  const LAST_BLOCK := Output([], [], seq(15, _ => EMPTY_BODY), false)

  /** A block literal that neither try compiles leaves its place in the table taken. */
  lemma BlockRejected(items: seq<Lexeme>, rest: seq<Lexeme>, st: Output, cx: Context)
    requires DepthAfter(items, "[", "]", 1) == 1 && |Raw(items + [Sp("]")])| <= SOURCE_MAX && |st.blocks| < BLOCK_MAX
    requires CompileBlock(items, BlockText(items + [Sp("]")]), st.blocks, cx) == Rejected(st.blocks + [EMPTY_BODY])
    ensures Expression([Sp("[")] + (items + [Sp("]")] + rest), st, cx) == Fail(st.(blocks := st.blocks + [EMPTY_BODY]))
  {
    hide CompileBlock, Raw, BlockText, CloseAt, DepthAfter, UnaryTail, BinaryTail, Continuation;
    var toks := items + [Sp("]")] + rest;
    CloseAtNested(items, Sp("]"), rest, "[", "]", 1);
    var n, left := |items| + 1, st.(blocks := st.blocks + [EMPTY_BODY]);
    assert toks[..n] == items + [Sp("]")] && toks[..n - 1] == items && toks[n..] == rest;
    var all := [Sp("[")] + toks;
    assert Head(all) == Sp("[").token && Tail(all) == toks;
    assert Primary(all, st, cx) == Fail(left);
    assert UnaryExpression(all, st, cx) == Fail(left);
    assert BinaryExpression(all, st, cx) == Fail(left);
  }

  /** An open bar: no names, and no place for a `^` either. */
  lemma OpenBar(blocks: seq<Body>, cx: Context)
    requires |blocks| < BLOCK_MAX
    ensures CompileBlock([Sp("|")], " | ", blocks, cx) == Rejected(blocks + [EMPTY_BODY])
  {
    assert TrimStart(" | ", 1) == 1 && TrimEnd(" | ", 1, 2) == 2 && AfterBar(" | ", 2, 2) == 3;
    assert Implicit(" | ") == "";
    assert Head([Sp("|")]) == Sp("|").token && Tail([Sp("|")]) == [];
    hide Statements, Implicit;
  }

  /** `[|]` as a body when the table is full, and `^ [|]`. */
  lemma BadBody(blocks: seq<Body>, cx: Context)
    requires |blocks| + 1 >= BLOCK_MAX > |blocks|
    ensures CompileBlock(BAD, " [ | ] ", blocks, cx) == Rejected(blocks + [EMPTY_BODY])
  {
    hide WhileTrue, ExpressionStatement, Expression, Lex, Implicit;
    var full, outers := blocks + [EMPTY_BODY], [cx.scope] + cx.outers;
    var own := Context(Scope([], [], cx.scope.offset + |cx.scope.args| + |cx.scope.temps|, true), outers, cx.ivars);
    var st := Output([], [], full, false);
    BarStatement(st, own);
    assert Statements(BAD, st, own) == Fail(st);
    SecondSource();
    var again := Lex(Implicit(" [ | ] "));
    ReturnWhenFull(again, st, own);
    hide Statements;
  }

  lemma BarStatement(st: Output, cx: Context)
    requires Full(st)
    ensures Statements(BAD, st, cx) == Fail(st)
  {
    assert Tail(BAD) == [Sp("|")] + [Sp("]")] + [] && DepthAfter([Sp("|")], "[", "]", 1) == 1;
    CloseAtNested([Sp("|")], Sp("]"), [], "[", "]", 1);
    assert WhileTrue(Tail(BAD), st, cx) == Fail(st);
    BracketWhenFull(BAD, st, cx);
    hide WhileTrue, ExpressionStatement;
    assert BracketStatement(BAD, st, cx) == Fail(st);
    hide BracketStatement;
  }

  /** The tokens that the second try at ` [ | ] ` starts with. */
  lemma SecondSource()
    ensures var source := Implicit(" [ | ] ");
            source != "" && var ls := Lex(source);
            |ls| >= 2 && ls[0].token == Sp("^").token && ls[1].token == Sp("[").token
  {
    hide Lex;
    var text := " [ | ] ";
    assert TrimStart(text, 1) == 1 && TrimEnd(text, 1, 7) == 6;
    assert Implicit(text) == "  ^ [ | ]";
    var bracket := "[ | ]";
    LexMark('[', " | ]");
    assert ['['] + " | ]" == bracket;
    LexSpaced(bracket);
    LexMark('^', " " + bracket);
    LexSpaced(['^'] + (" " + bracket));
    LexSpaced(" " + (['^'] + (" " + bracket)));
    assert " " + (" " + (['^'] + (" " + bracket))) == "  ^ [ | ]";
  }

  lemma ReturnWhenFull(toks: seq<Lexeme>, st: Output, cx: Context)
    requires |toks| >= 2 && toks[0].token == Sp("^").token && toks[1].token == Sp("[").token && Full(st)
    ensures Statements(toks, st, cx) == Fail(st)
  {
    hide Expression;
    SilentFails(Tail(toks), st, cx);
    assert ReturnStatement(Tail(toks), st, cx) == Fail(st);
    hide ReturnStatement;
  }

  lemma BadShape()
    ensures IsLoopLex(BAD, Sp("]"), Item(Keyword, "whileTrue:"), Sp("["), [], Sp("]"))
    ensures DepthAfter([Sp("|")], "[", "]", 1) == 1 && |Raw([Sp("|")] + [Sp("]")])| <= SOURCE_MAX
  {
    hide Raw, DepthAfter;
    RawBound(BAD + [Sp("]")], 10);
    RawBound([Sp("|")] + [Sp("]")], 10);
    RawBound([] + [Sp("]")], 10);
    P.BracketDepth(Sp("["), 1);
    DepthAfterConcat([Sp("[")], [Sp("|")] + [Sp("]")], "[", "]", 1);
    P.PlainDepth([Sp("|")], 2);
    P.PlainDepth([Sp("|")], 1);
    P.PlainDepth([], 1);
    DepthAfterConcat([Sp("|")], [Sp("]")], "[", "]", 2);
    P.BracketDepth(Sp("]"), 2);
    assert BAD == [Sp("[")] + ([Sp("|")] + [Sp("]")]);
  }

  lemma BadTexts()
    ensures BlockText([Sp("|")] + [Sp("]")]) == " | " && BlockText(BAD + [Sp("]")]) == " [ | ] "
  {
    hide Raw;
    RawConcat([], Sp("|"));
    RawConcat([], Sp("["));
    RawConcat([Sp("|")], Sp("]"));
    RawConcat([Sp("[")], Sp("|"));
    RawConcat([Sp("["), Sp("|")], Sp("]"));
    RawConcat(BAD, Sp("]"));
    assert Raw([]) == "" by { RawNone(); }
    assert [] + [Sp("|")] == [Sp("|")] && [] + [Sp("[")] == [Sp("[")];
    assert [Sp("["), Sp("|")] == [Sp("[")] + [Sp("|")] && BAD == [Sp("["), Sp("|")] + [Sp("]")];
    var raw := Raw(BAD + [Sp("]")]);
    assert raw == " [ | ] ]" && raw[..|raw| - 1] == " [ | ] ";
  }

  lemma RawNone()
    ensures Raw([]) == ""
  {
  }

  lemma {:induction false} RawConcat(ls: seq<Lexeme>, l: Lexeme)
    ensures Raw(ls + [l]) == Raw(ls) + l.raw
  {
    if ls == [] {
      assert ls + [l] == [l] && Raw([l]) == l.raw + Raw([l][1..]);
    } else {
      assert (ls + [l])[0] == ls[0] && (ls + [l])[1..] == ls[1..] + [l];
      RawConcat(ls[1..], l);
    }
  }

  /**
   With one place left in the block table, a rejected statement may leave the same output with the
   attempt as without.
   */
  lemma FullTable()
    ensures var loop := LoopLex(BAD, Sp("]"), Item(Keyword, "whileTrue:"), Sp("["), [], Sp("]"), []);
            var left := Output([], [], LAST_BLOCK.blocks + [EMPTY_BODY], false);
            && WhileTrue(loop, LAST_BLOCK, HERE) == Fail(left) && left != LAST_BLOCK
            && BracketStatement([Sp("[")] + loop, LAST_BLOCK, HERE) == Fail(left)
            && ExpressionStatement([Sp("[")] + loop, LAST_BLOCK, HERE) == Fail(left)
  {
    hide CompileBlock, Raw, BlockText, DepthAfter, Expression, WhileTrue, Statements;
    BadShape();
    BadTexts();
    var st, rest := LAST_BLOCK, [Item(Keyword, "whileTrue:"), Sp("[")] + [] + [Sp("]")] + [];
    var loop := LoopLex(BAD, Sp("]"), Item(Keyword, "whileTrue:"), Sp("["), [], Sp("]"), []);
    var toks, full := [Sp("[")] + loop, st.blocks + [EMPTY_BODY];
    assert Head(toks) == Sp("[").token && Tail(toks) == loop == BAD + [Sp("]")] + rest;
    assert WhileTrue(loop, st, HERE) == Fail(st.(blocks := full)) by {
      P.CaptureLoop(BAD, Sp("]"), Item(Keyword, "whileTrue:"), Sp("["), [], Sp("]"), [], st, HERE);
      OpenBar(st.blocks, HERE);
      BlockRejected([Sp("|")], [], st, HERE);
      assert [Sp("[")] + ([Sp("|")] + [Sp("]")] + []) == BAD;
    }
    assert ExpressionStatement(toks, st, HERE) == Fail(st.(blocks := full)) by {
      BadBody(st.blocks, HERE);
      BlockRejected(BAD, rest, st, HERE);
    }
    BracketWhenFull(toks, st.(blocks := full), HERE);
  }
}
