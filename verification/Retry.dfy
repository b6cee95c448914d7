/**
 The second try at a block.  A block whose statements are rejected is compiled again with `^` before
 them.  On all tokens this comes to one case: the statements start with a loop, which is compiled in
 line, and go on with messages to its value, so that only an expression of block literals will do.
 */
module Retry {
  import opened Lexer
  import opened Codegen
  import opened Fallback
  import opened Messages
  import P = Programs
  import opened Trees

  // ----------------------------------------------------------------- when the second try differs

  /** The end of the tokens. */
  predicate AtEnd(toks: seq<Lexeme>) { toks == [] || Head(toks).kind == Eof }

  /** The statements start with a loop that is compiled in line, and go on with something other than a period. */
  predicate LoopGoesOn(toks: seq<Lexeme>, st: Output, cx: Context) {
    && IsSpecial(Head(toks), "[")
    && var p := WhileTrue(Tail(toks), st, cx);
       p.Ok? && !AtEnd(p.rest) && !IsSpecial(Head(p.rest), ".")
  }

  /** The second try at statements, with the places in the block table that the first has taken. */
  function Again(toks: seq<Lexeme>, blocks: seq<Body>, cx: Context): Parse {
    ReturnStatement(toks, Output([], [], blocks, false), cx)
  }

  /** A second try that is accepted: an expression that is also one on top of any earlier output. */
  lemma AgainIsExpression(toks: seq<Lexeme>, st: Output, blocks: seq<Body>, cx: Context)
    requires Again(toks, blocks, cx).Ok? && |st.blocks| <= |blocks|
    ensures var p := Expression(toks, st, cx); p.Overflow? || (p.Ok? && AtEnd(p.rest))
    ensures var p := Expression(toks, Output([], [], blocks, false), cx); p.Ok? && AtEnd(p.rest)
    ensures !Silent(toks, |blocks| >= BLOCK_MAX)
  {
    hide Expression, Silent;
    var st1 := Output([], [], blocks, false);
    ExpressionInStep(toks, st, st1, cx, -|st.code|, |blocks| - |st.blocks|);
    if Silent(toks, Full(st1)) {
      SilentFails(toks, st1, cx);
    }
  }

  lemma ExpressionEnds(toks: seq<Lexeme>, st: Output, cx: Context)
    requires var p := Expression(toks, st, cx); p.Overflow? || (p.Ok? && AtEnd(p.rest))
    ensures !ExpressionStatement(toks, st, cx).Fail?
    ensures Head(toks).kind == Identifier ==> !NameStatement(Head(toks), Tail(toks), st, cx).Fail?
  {
    hide Expression, EmitAtom, Continuation;
    if Head(toks).kind == Identifier {
      NameIsExpression(toks, st, cx);
    }
  }

  /** A name that `:=` follows is no expression to the end. */
  lemma AssignmentIsNone(toks: seq<Lexeme>, st: Output, cx: Context)
    requires Head(toks).kind == Identifier && IsSpecial(Head(Tail(toks)), ":=")
    ensures !Expression(toks, st, cx).Ok?
  {
    hide Expression, EmitAtom;
    NameIsExpression(toks, st, cx);
    var p := EmitAtom(Head(toks), Tail(toks), st, cx);
    if p.Ok? {
      assert Message(p.rest, p.out, cx) == Fail(p.out);
      hide Message;
      assert Continuation(p.rest, p.out, cx) == Fail(p.out);
    }
  }

  /** A block literal that is followed by neither a message nor an operator is a whole operand. */
  lemma OperandEnds(toks: seq<Lexeme>, st: Output, cx: Context, n: nat)
    requires IsSpecial(Head(toks), "[") && n == CloseAt(Tail(toks), "[", "]", 1) != 0
    requires var rest := Tail(toks)[n..]; Head(rest).kind == Keyword || IsTerminator(Head(rest))
    ensures var p := BinaryExpression(toks, st, cx); p.Ok? ==> p.rest == Tail(toks)[n..]
  {
    hide CompileBlock, CloseAt, Raw, BlockText, EmitRef;
    var p := EmitPrimary(Head(toks), Tail(toks), st, cx);
    assert p.Ok? ==> p.rest == Tail(toks)[n..];
    hide EmitPrimary;
    assert Primary(toks, st, cx) == p;
    hide Primary;
    if p.Ok? {
      assert UnaryExpression(toks, st, cx) == p;
      assert BinaryExpression(toks, st, cx) == p;
    } else {
      assert UnaryExpression(toks, st, cx) == p;
      assert BinaryExpression(toks, st, cx) == p;
    }
  }

  /** One keyword message whose argument ends at a period. */
  lemma MessageEnds(toks: seq<Lexeme>, st: Output, cx: Context)
    requires toks != [] && Head(toks).kind == Keyword
    requires var p := BinaryExpression(Tail(toks), st, cx); p.Ok? ==> IsSpecial(Head(p.rest), ".")
    ensures var r, p := Continuation(toks, st, cx), BinaryExpression(Tail(toks), st, cx);
            r.Ok? ==> p.Ok? && r.rest == p.rest
  {
    hide BinaryExpression, EmitSend, Continuation;
    ContinuationKeyword(toks, st, cx);
    var q := KeywordMessage(Head(toks), Tail(toks), st, cx, "", 0);
    assert q.Ok? ==> q.rest == BinaryExpression(Tail(toks), st, cx).rest;
    hide KeywordMessage;
    if q.Ok? {
      ContinuationEnds(q.rest, q.out, cx);
    }
  }

  /** A loop with a period after it, read as an expression, ends at the period. */
  lemma LoopAsExpression(toks: seq<Lexeme>, st: Output, cx: Context)
    requires IsSpecial(Head(toks), "[") && LoopShaped(Tail(toks))
    requires IsSpecial(Head(LoopTail(Tail(toks))), ".")
    ensures var p := Expression(toks, st, cx); p.Ok? ==> p.rest == LoopTail(Tail(toks))
  {
    hide BinaryExpression, CloseAt, NotCapturable, Continuation;
    var n := CloseAt(Tail(toks), "[", "]", 1);
    var t1 := Tail(toks)[n..];
    Capturable(Tail(toks));
    Capturable(Tail(Tail(t1)));
    OperandEnds(toks, st, cx, n);
    var p := BinaryExpression(toks, st, cx);
    if p.Ok? {
      OperandEnds(Tail(t1), p.out, cx, CloseAt(Tail(Tail(t1)), "[", "]", 1));
      MessageEnds(t1, p.out, cx);
    }
  }

  lemma Capturable(toks: seq<Lexeme>)
    requires !NotCapturable(toks)
    ensures CloseAt(toks, "[", "]", 1) != 0
  {
  }

  /** What follows `cond] whileTrue: [body]`. */
  function LoopTail(toks: seq<Lexeme>): seq<Lexeme>
    requires LoopShaped(toks)
  {
    var t3 := Tail(Tail(toks[CloseAt(toks, "[", "]", 1)..]));
    t3[CloseAt(t3, "[", "]", 1)..]
  }

  /** A loop that is compiled has its shape, and what follows it is left. */
  lemma LoopRead(toks: seq<Lexeme>, st: Output, cx: Context)
    requires WhileTrue(toks, st, cx).Ok?
    ensures LoopShaped(toks) && WhileTrue(toks, st, cx).rest == LoopTail(toks)
  {
    hide Loop, CloseAt, Raw;
  }

  lemma BracketRetry(toks: seq<Lexeme>, st: Output, cx: Context)
    requires IsSpecial(Head(toks), "[")
    requires var first := BracketStatement(toks, st, cx); first.Fail? && Again(toks, first.partial.blocks, cx).Ok?
    ensures LoopGoesOn(toks, st, cx)
  {
    hide WhileTrue, Expression, ExpressionStatement, Again, LoopShaped, LoopTail, Statements;
    var first, p := BracketStatement(toks, st, cx), WhileTrue(Tail(toks), st, cx);
    if p.Fail? {
      AgainIsExpression(toks, p.partial, first.partial.blocks, cx);
      ExpressionEnds(toks, p.partial, cx);
    } else {
      LoopRead(Tail(toks), st, cx);
      AgainIsExpression(toks, st, first.partial.blocks, cx);
      if IsSpecial(Head(p.rest), ".") {
        LoopAsExpression(toks, Output([], [], first.partial.blocks, false), cx);
      }
    }
  }

  lemma StatementRetry(toks: seq<Lexeme>, st: Output, cx: Context)
    requires var first := Statements(toks, st, cx); first.Fail? && Again(toks, first.partial.blocks, cx).Ok?
    ensures LoopGoesOn(toks, st, cx)
  {
    hide Expression, Again, ReturnStatement, BracketStatement, AssignStatement, NameStatement, ExpressionStatement,
         LoopGoesOn;
    var first := Statements(toks, st, cx);
    AgainIsExpression(toks, st, first.partial.blocks, cx);
    ExpressionEnds(toks, st, cx);
    if IsSpecial(Head(toks), "[") {
      BracketRetry(toks, st, cx);
    } else if Head(toks).kind == Identifier && IsSpecial(Head(Tail(toks)), ":=") {
      AssignmentIsNone(toks, Output([], [], first.partial.blocks, false), cx);
    }
  }

  lemma GoesOnFails(toks: seq<Lexeme>, st: Output, cx: Context)
    requires LoopGoesOn(toks, st, cx)
    ensures Statements(toks, st, cx) == Fail(WhileTrue(Tail(toks), st, cx).out)
  {
    hide WhileTrue;
    assert BracketStatement(toks, st, cx) == Fail(WhileTrue(Tail(toks), st, cx).out);
    hide BracketStatement;
  }

  /**
   Statements that only the second try accepts: exactly those that start with a loop, compiled in
   line, which is not the end of a statement, while the whole is an expression on its own.
   */
  lemma RetryIff(toks: seq<Lexeme>, st: Output, cx: Context)
    ensures var first := Statements(toks, st, cx);
            first.Fail? && Again(toks, first.partial.blocks, cx).Ok?
            <==> LoopGoesOn(toks, st, cx) && Again(toks, WhileTrue(Tail(toks), st, cx).out.blocks, cx).Ok?
  {
    hide Statements, WhileTrue, Again;
    if LoopGoesOn(toks, st, cx) {
      GoesOnFails(toks, st, cx);
    }
    var first := Statements(toks, st, cx);
    if first.Fail? && Again(toks, first.partial.blocks, cx).Ok? {
      StatementRetry(toks, st, cx);
    }
  }

  // ----------------------------------------------------------------- from the source of a block

  /** A block's source without spaces at its ends or temporaries, short enough for a second try. */
  predicate Tight(text: string) {
    && text != "" && !IsSpace(text[0]) && !IsSpace(text[|text| - 1]) && text[0] != '|' && |text| + 3 < SOURCE_MAX
  }

  /** Its second source, and the tokens of that: `^`, and then the tokens of the first. */
  lemma SecondTokens(text: string)
    requires Tight(text)
    ensures Implicit(text) == " ^ " + text
    ensures Lex(Implicit(text)) == [Lexeme(Token(Special, "^", 0), " ^")] + Spaced(Lex(text))
  {
    hide Lex;
    assert text[..0] + " ^ " + text[0..|text|] == " ^ " + text;
    LexSpaced(text);
    LexMark('^', " " + text);
    LexSpaced(['^'] + (" " + text));
    assert " " + (['^'] + (" " + text)) == " ^ " + text;
    var mark := Lexeme(Token(Special, "^", 0), "^");
    assert ([mark] + Spaced(Lex(text)))[1..] == Spaced(Lex(text)) && " " + mark.raw == " ^";
    assert Lex(['^'] + (" " + text)) == [mark] + Spaced(Lex(text));
  }

  /** Spaces at the end are dropped even when the last of them is a character literal. */
  lemma SpaceLost()
    ensures Lex("$ ") == [Lexeme(Token(Character, " ", 32), "$ ")] && Implicit("$ ") == " ^ $"
    ensures Lex(Implicit("$ ")) == [Lexeme(Token(Special, "^", 0), " ^")]
  {
    hide Lex, Implicit;
    LoneCharacter();
    LoneDollar();
    LexMark('^', " $");
    LexSpaced("$");
    LexSpaced(['^'] + " $");
    assert " " + (['^'] + " $") == " ^ $" && " " + "$" == " $";
    var mark := Lexeme(Token(Special, "^", 0), "^");
    assert Lex(['^'] + " $") == [mark] + [] == [mark];
    assert Lex(" ^ $") == Spaced([mark]);
    assert " " + mark.raw == " ^" && [mark][1..] == [];
  }

  lemma LoneCharacter()
    ensures Lex("$ ") == [Lexeme(Token(Character, " ", 32), "$ ")]
    ensures Implicit("$ ") == " ^ $"
  {
    hide Lex;
    var text := "$ ";
    assert TrimStart(text, 0) == 0 && TrimEnd(text, 0, 2) == 1;
    assert text[..0] + " ^ " + text[0..1] == " ^ $";
    hide Implicit, TrimStart, TrimEnd;
    assert BlankLength(text) == 0 && text[0..] == text;
    assert Scan(text) == (Token(Character, " ", 32), 2);
    hide Scan, BlankLength;
    assert Next(text) == (Token(Character, " ", 32), 2);
    LexUnfold(text);
    LexNone();
    assert text[2..] == "" && text[..2] == text;
  }

  lemma LexNone()
    ensures Lex("") == []
  {
  }

  lemma LoneDollar()
    ensures Lex("$") == []
  {
    hide Lex;
    var text := "$";
    assert BlankLength(text) == 0 && text[0..] == text && Scan(text) == (EOF_TOKEN, 1);
    hide Scan, BlankLength;
    LexEnd(text);
  }

  /** The blank in front of the first token does not matter. */
  lemma SpacedAlike(toks: seq<Lexeme>, st: Output, cx: Context)
    ensures Expression(Spaced(toks), st, cx) == Expression(toks, st, cx)
  {
    hide EmitPrimary, UnaryTail, BinaryTail, Continuation;
    var t := Spaced(toks);
    assert Head(t) == Head(toks) && Tail(t) == Tail(toks);
    assert Primary(t, st, cx) == Primary(toks, st, cx);
    hide Primary;
    assert UnaryExpression(t, st, cx) == UnaryExpression(toks, st, cx);
    hide UnaryExpression;
    assert BinaryExpression(t, st, cx) == BinaryExpression(toks, st, cx);
  }

  /** The scope that a block is compiled in when it declares nothing. */
  function BlockScope(cx: Context): Context {
    Context(Scope([], [], cx.scope.offset + |cx.scope.args| + |cx.scope.temps|, true), [cx.scope] + cx.outers, cx.ivars)
  }

  function FirstTry(toks: seq<Lexeme>, blocks: seq<Body>, cx: Context): Compiled {
    var own := BlockScope(cx);
    CompileBody(toks, blocks + [EMPTY_BODY], [], own.outers, cx.ivars, true, own.scope.offset)
  }

  predicate Declares(toks: seq<Lexeme>) { IsSpecial(Head(toks), ":") || IsSpecial(Head(toks), "|") }

  /** The first try at a block that declares nothing is rejected exactly when its statements are. */
  lemma FirstTryIs(toks: seq<Lexeme>, blocks: seq<Body>, cx: Context)
    requires !Declares(toks)
    ensures var p, r := Statements(toks, Output([], [], blocks + [EMPTY_BODY], false), BlockScope(cx)),
                        FirstTry(toks, blocks, cx);
            && (r.Rejected? <==> p.Fail?) && (p.Fail? ==> r == Rejected(p.partial.blocks))
  {
    hide Statements, EmitRef;
  }

  /** The second try at a block's source, with the places that the first has taken. */
  lemma SecondTryIs(text: string, blocks: seq<Body>, cx: Context)
    requires Tight(text)
    ensures var own := BlockScope(cx);
            var r := CompileBody(Lex(Implicit(text)), blocks, [], own.outers, cx.ivars, true, own.scope.offset);
            && (r.Accepted? <==> Again(Lex(text), blocks, own).Ok?)
            && (r.Accepted? ==> r.blocks == Again(Lex(text), blocks, own).out.blocks)
  {
    hide Lex, Expression, BracketStatement, AssignStatement, NameStatement, ExpressionStatement, Implicit;
    var own, st := BlockScope(cx), Output([], [], blocks, false);
    SecondTokens(text);
    var toks, caret := Lex(Implicit(text)), Lexeme(Token(Special, "^", 0), " ^");
    assert Head(toks) == caret.token && Tail(toks) == Spaced(Lex(text));
    SpacedAlike(Lex(text), st, own);
    assert Statements(toks, st, own) == ReturnStatement(Spaced(Lex(text)), st, own);
    assert ReturnStatement(Spaced(Lex(text)), st, own) == ReturnStatement(Lex(text), st, own);
    hide Statements;
  }

  /**
   When the second try at a block is the one that is accepted: exactly when its statements start
   with a loop that is compiled in line and goes on, and the whole is an expression with the places
   for blocks that are left.  The blocks of that expression are numbered after all that the first
   try has entered, and those stay in the table.
   */
  lemma SecondTryIff(text: string, blocks: seq<Body>, cx: Context)
    requires Tight(text) && |blocks| < BLOCK_MAX
    ensures var toks, own, st := Lex(text), BlockScope(cx), Output([], [], blocks + [EMPTY_BODY], false);
            var r := CompileBlock(toks, text, blocks, cx);
            && (FirstTry(toks, blocks, cx).Rejected? && r.Accepted?
                <==> LoopGoesOn(toks, st, own) && Again(toks, WhileTrue(Tail(toks), st, own).out.blocks, own).Ok?)
            && (LoopGoesOn(toks, st, own) && r.Accepted? ==>
                  WhileTrue(Tail(toks), st, own).out.blocks <= r.blocks)
  {
    hide Lex, CompileBody, LoopGoesOn, WhileTrue, Statements, Again;
    var toks, own, st := Lex(text), BlockScope(cx), Output([], [], blocks + [EMPTY_BODY], false);
    var first := FirstTry(toks, blocks, cx);
    SecondTokens(text);
    if first.Rejected? {
      SecondTryIs(text, first.blocks, cx);
    }
    if Declares(toks) {
      if first.Rejected? {
        DeclarationAgain(toks, first.blocks, own);
      }
      assert !LoopGoesOn(toks, st, own) by { NoLoop(toks, st, own); }
    } else {
      FirstTryIs(toks, blocks, cx);
      RetryIff(toks, st, own);
      if LoopGoesOn(toks, st, own) {
        GoesOnFails(toks, st, own);
      }
    }
  }

  lemma DeclarationAgain(toks: seq<Lexeme>, blocks: seq<Body>, cx: Context)
    requires Declares(toks)
    ensures !Again(toks, blocks, cx).Ok?
  {
    hide Expression;
    SilentFails(toks, Output([], [], blocks, false), cx);
  }

  lemma NoLoop(toks: seq<Lexeme>, st: Output, cx: Context)
    requires Declares(toks)
    ensures !LoopGoesOn(toks, st, cx)
  {
  }

  // ----------------------------------------------------------------- a block

  const SELF := [Item(Identifier, "self")]
  const FOO_LAST := [Item(Identifier, "foo")]
  const EMPTY_FOO := [Sp("[")] + ([] + [Sp("]")] + FOO_LAST)

  /** `[self] whileTrue: [] foo` */
  const GOING_ON := [Sp("[")] + LoopLex(SELF, Sp("]"), Item(Keyword, "whileTrue:"), Sp("["), [], Sp("]"), FOO_LAST)

  lemma GoingOnShape()
    ensures DepthAfter(SELF, "[", "]", 1) == 1 && DepthAfter([], "[", "]", 1) == 1
    ensures |Raw(SELF + [Sp("]")])| <= SOURCE_MAX && |Raw([] + [Sp("]")])| <= SOURCE_MAX
    ensures Head(GOING_ON) == Sp("[").token
            && Tail(GOING_ON) == SELF + [Sp("]")] + ([Item(Keyword, "whileTrue:")] + EMPTY_FOO)
  {
    RawBound(SELF + [Sp("]")], 10);
    RawBound([] + [Sp("]")], 10);
    P.PlainDepth(SELF, 1);
    P.PlainDepth([], 1);
    hide Raw, DepthAfter;
  }

  lemma SelfParsed(st: Output, cx: Context)
    requires |st.code| < CODE_MAX
    ensures Expression(SELF, st, cx) == Ok([], st.(code := st.code + [PUSH_SELF]))
  {
    hide Expression, Continuation;
    NameIsExpression(SELF, st, cx);
    assert Tail(SELF) == [];
    ContinuationEnds([], st.(code := st.code + [PUSH_SELF]), cx);
  }

  /** As a loop it goes on with `foo`. */
  lemma GoingOnGoesOn(st: Output, cx: Context)
    requires Roomy(st, 1)
    ensures LoopGoesOn(GOING_ON, st, cx) && WhileTrue(Tail(GOING_ON), st, cx).out.blocks == st.blocks
  {
    hide WhileTrue, Raw, DepthAfter, Expression, FindLiteral, U32;
    GoingOnShape();
    P.CaptureLoop(SELF, Sp("]"), Item(Keyword, "whileTrue:"), Sp("["), [], Sp("]"), FOO_LAST, st, cx);
    SelfParsed(st, cx);
    assert Loop(SELF, [], FOO_LAST, st, cx).Ok?;
  }

  /** `[] foo` as an argument. */
  lemma EmptyFoo(st: Output, cx: Context)
    requires Roomy(st, 2)
    ensures var p := BinaryExpression(EMPTY_FOO, st, cx);
            p.Ok? && p.rest == [] && |p.out.code| <= |st.code| + 14 && |p.out.pool| <= |st.pool| + 2
            && |p.out.blocks| == |st.blocks| + 1
  {
    hide CompileBody, EmitPrimary, Raw, DepthAfter, FindLiteral, U32;
    GoingOnShape();
    EmptyBody(st.blocks + [EMPTY_BODY], [cx.scope] + cx.outers, cx.ivars,
              cx.scope.offset + |cx.scope.args| + |cx.scope.temps|);
    BlockCompiled([], FOO_LAST, st, cx);
    assert Head(EMPTY_FOO) == Sp("[").token && Tail(EMPTY_FOO) == [] + [Sp("]")] + FOO_LAST;
    var p := Primary(EMPTY_FOO, st, cx);
    hide Primary;
    assert Tail(FOO_LAST) == [];
    var q := EmitSend([], p.out, "foo", 0);
    assert UnaryTail(FOO_LAST, p.out) == q;
    hide UnaryTail, EmitSend;
    assert UnaryExpression(EMPTY_FOO, st, cx) == q;
  }

  lemma SelfBody(blocks: seq<Body>, outers: seq<Scope>, ivars: seq<string>, offset: nat)
    ensures var c := CompileBody(SELF, blocks, [], outers, ivars, true, offset);
            c.Accepted? && |c.blocks| == |blocks|
  {
    SelfLast(Output([], [], blocks, false), Context(Scope([], [], offset, true), outers, ivars));
    hide Statements;
  }

  /** As an expression it is `([self] whileTrue: ([] foo))`, with two blocks. */
  lemma GoingOnExpression(st: Output, cx: Context)
    requires Roomy(st, 3)
    ensures var p := Expression(GOING_ON, st, cx);
            p.Ok? && p.rest == [] && |p.out.code| <= |st.code| + 28 && |p.out.blocks| == |st.blocks| + 2
  {
    hide CompileBody, EmitPrimary, Raw, DepthAfter, BinaryExpression, Continuation;
    GoingOnShape();
    var key := Item(Keyword, "whileTrue:");
    SelfBody(st.blocks + [EMPTY_BODY], [cx.scope] + cx.outers, cx.ivars,
             cx.scope.offset + |cx.scope.args| + |cx.scope.temps|);
    BlockCompiled(SELF, [key] + EMPTY_FOO, st, cx);
    var p := Primary(GOING_ON, st, cx);
    PrimaryAlone(GOING_ON, st, cx);
    EmptyFoo(p.out, cx);
    MessageLast(key, EMPTY_FOO, BinaryExpression(EMPTY_FOO, p.out, cx).out, p.out, cx);
  }

  /**
   A block of these tokens is rejected at first and accepted the second time: its blocks get the
   numbers after its own.
   */
  lemma SecondTryAccepted(blocks: seq<Body>, cx: Context)
    requires |blocks| + 4 < BLOCK_MAX
    ensures var st := Output([], [], blocks, false);
            && Statements(GOING_ON, st, cx).Fail? && Statements(GOING_ON, st, cx).partial.blocks == blocks
            && Again(GOING_ON, blocks, cx).Ok? && |Again(GOING_ON, blocks, cx).out.blocks| == |blocks| + 2
  {
    hide Statements, Expression, WhileTrue, LoopGoesOn;
    var st := Output([], [], blocks, false);
    GoingOnGoesOn(st, cx);
    GoesOnFails(GOING_ON, st, cx);
    GoingOnExpression(st, cx);
  }
}
