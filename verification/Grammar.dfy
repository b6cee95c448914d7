/**
 The other half of parsing: what is accepted is in the grammar.  For tokens without semicolons, a
 parse that makes no block gives back the tree whose tokens were read, so that the compiler
 accepts exactly the methods of the grammar.
 */
module Grammar {
  import opened Lexer
  import L = Lexer
  import opened Codegen
  import opened Trees
  import opened Programs
  import M = Messages
  import E = Execution
  import V = Meaning

  /** No semicolons, and no literal arrays among brackets. */
  predicate Regular(toks: seq<Lexeme>) {
    && (forall i :: 0 <= i < |toks| ==>
          toks[i].token.kind != Eof && |toks[i].token.text| <= TEXT_MAX && !IsSpecial(toks[i].token, ";"))
    && (Plain(toks) || forall i :: 0 <= i < |toks| ==> !IsSpecial(toks[i].token, "#("))
  }

  lemma RegularParts(a: seq<Lexeme>, b: seq<Lexeme>)
    requires Regular(a + b)
    ensures Regular(a) && Regular(b)
  {
    assert forall i :: 0 <= i < |a| ==> (a + b)[i] == a[i];
    assert forall i :: 0 <= i < |b| ==> (a + b)[|a| + i] == b[i];
  }

  lemma RegularTail(toks: seq<Lexeme>)
    requires Regular(toks) && toks != []
    ensures Regular(Tail(toks)) && toks == [toks[0]] + Tail(toks) && Head(toks) == toks[0].token
  {
    assert toks == [toks[0]] + toks[1..];
    RegularParts([toks[0]], toks[1..]);
  }

  /** A parse that makes no block. */
  predicate Parsed(p: Parse, st: Output) { p.Ok? && |p.out.blocks| == |st.blocks| }

  // ----------------------------------------------------------------- expressions

  lemma {:induction false} CloseShape(toks: seq<Lexeme>, o: string, c: string, d: nat)
    requires d > 0 && o != c && CloseAt(toks, o, c, d) > 0
    ensures var n := CloseAt(toks, o, c, d);
            IsSpecial(toks[n - 1].token, c) && DepthAfter(toks[..n - 1], o, c, d) == 1
    decreases |toks|
  {
    var t := toks[0].token;
    var n := CloseAt(toks, o, c, d);
    if !(IsSpecial(t, c) && d == 1) {
      var e := if IsSpecial(t, o) then d + 1 else if IsSpecial(t, c) then d - 1 else d;
      CloseShape(toks[1..], o, c, e);
      assert toks[..n - 1][1..] == toks[1..][..n - 2];
    }
  }

  lemma ArrayRead(toks: seq<Lexeme>, st: Output, cx: Context) returns (n: nat)
    requires toks != [] && IsSpecial(Head(toks), "#(") && Primary(toks, st, cx).Ok?
    ensures var tail := Tail(toks);
            && n == CloseAt(tail, "#(", ")", 1) && 0 < n && 2 + |Raw(tail[..n])| <= TEXT_MAX
            && Primary(toks, st, cx).rest == tail[n..]
  {
    hide EmitRef, Raw, CloseAt;
    n := CloseAt(Tail(toks), "#(", ")", 1);
  }

  lemma ArrayShape(toks: seq<Lexeme>, st: Output, cx: Context) returns (p: Prim)
    requires Regular(toks) && IsSpecial(Head(toks), "#(") && Primary(toks, st, cx).Ok?
    ensures WellFormedPrim(p) && toks == PrimLex(p) + Primary(toks, st, cx).rest
  {
    hide Raw, CloseAt, DepthAfter, Primary;
    assert toks != [];
    RegularTail(toks);
    var tail := Tail(toks);
    var n := ArrayRead(toks, st, cx);
    CloseShape(tail, "#(", ")", 1);
    var items, close := tail[..n - 1], tail[n - 1];
    assert tail[..n] == items + [close];
    assert toks == [toks[0]] + items + [close] + tail[n..];
    assert Plain(toks);
    assert forall i :: 0 <= i < |items| ==> items[i] == toks[i + 1] && NoBracket(items[i]);
    p := Array(toks[0], items, close);
  }

  /** Anything else that starts an expression: a token by itself or an expression in parentheses. */
  lemma PrimCases(toks: seq<Lexeme>, st: Output, cx: Context)
    requires toks != [] && Parsed(Primary(toks, st, cx), st) && !IsSpecial(Head(toks), "#(")
    ensures var t, r := Head(toks), Primary(toks, st, cx);
            if t.kind in {Identifier, Integer, Character, String, Symbol} then r.rest == Tail(toks)
            else
              var e := Expression(Tail(toks), st, cx);
              && IsSpecial(t, "(") && Parsed(e, st) && IsSpecial(Head(e.rest), ")") && r.rest == Tail(e.rest)
              && e.rest != []
  {
    hide Expression, EmitAtom, CompileBlock, CloseAt, Raw, BlockText, BlockName, EmitRef;
  }

  lemma {:induction false} PrimShape(toks: seq<Lexeme>, st: Output, cx: Context) returns (p: Prim)
    requires Regular(toks) && Parsed(Primary(toks, st, cx), st)
    ensures WellFormedPrim(p) && toks == PrimLex(p) + Primary(toks, st, cx).rest
    decreases |toks|, 0
  {
    hide Primary, Expression;
    assert toks != [] by { PrimaryReads(toks, st, cx); }
    RegularTail(toks);
    if IsSpecial(Head(toks), "#(") {
      p := ArrayShape(toks, st, cx);
    } else {
      PrimCases(toks, st, cx);
      if Head(toks).kind in {Identifier, Integer, Character, String, Symbol} {
        p := Atom(toks[0]);
      } else {
        var rest := Expression(Tail(toks), st, cx).rest;
        var e := ExprShape(Tail(toks), st, cx);
        assert rest == [rest[0]] + Tail(rest);
        p := Paren(toks[0], e, rest[0]);
      }
    }
  }

  lemma PrimaryReads(toks: seq<Lexeme>, st: Output, cx: Context)
    requires Primary(toks, st, cx).Ok?
    ensures toks != []
  {
  }

  lemma {:induction false} UnaryTailShape(toks: seq<Lexeme>, st: Output) returns (ms: seq<Lexeme>)
    requires Regular(toks) && UnaryTail(toks, st).Ok?
    ensures toks == ms + UnaryTail(toks, st).rest && Head(UnaryTail(toks, st).rest).kind != Identifier
    ensures forall i :: 0 <= i < |ms| ==> ms[i].token.kind == Identifier && NoBracket(ms[i])
    decreases |toks|
  {
    hide EmitSend;
    if toks != [] && Head(toks).kind == Identifier {
      RegularTail(toks);
      var more := UnaryTailShape(Tail(toks), EmitSend(Tail(toks), st, Head(toks).text, 0).out);
      ms := [toks[0]] + more;
    } else {
      ms := [];
    }
  }

  lemma {:induction false} UnaryShape(toks: seq<Lexeme>, st: Output, cx: Context) returns (u: Unary)
    requires Regular(toks) && Parsed(UnaryExpression(toks, st, cx), st)
    ensures var rest := UnaryExpression(toks, st, cx).rest;
            WellFormedUnary(u) && toks == UnaryLex(u) + rest && Head(rest).kind != Identifier
    decreases |toks|, 1
  {
    hide Primary, UnaryTail;
    var p := Primary(toks, st, cx);
    assert p.Ok? && UnaryExpression(toks, st, cx) == UnaryTail(p.rest, p.out) && Parsed(p, st);
    var prim := PrimShape(toks, st, cx);
    RegularParts(PrimLex(prim), p.rest);
    var ms := UnaryTailShape(p.rest, p.out);
    u := Unary(prim, ms);
  }

  lemma OpRead(toks: seq<Lexeme>) returns (op: seq<Lexeme>)
    requires toks != [] && IsOp(Head(toks))
    ensures WellFormedOp(op) && toks == op + AfterOp(toks)
  {
    op := if IsOp(Head(Tail(toks))) then toks[..2] else toks[..1];
  }

  lemma {:induction false} OperandShape(toks: seq<Lexeme>, st: Output, cx: Context)
      returns (op: seq<Lexeme>, arg: Unary)
    requires toks != [] && Regular(toks) && IsOp(Head(toks)) && Parsed(BinaryPart(toks, st, cx), st)
    ensures var rest := BinaryPart(toks, st, cx).rest;
            && WellFormedOp(op) && WellFormedUnary(arg) && toks == op + UnaryLex(arg) + rest
            && Head(rest).kind != Identifier && Regular(rest)
    decreases |toks|, 2
  {
    hide UnaryExpression, EmitSend, IsOp;
    var u := UnaryExpression(AfterOp(toks), st, cx);
    op := OpRead(toks);
    RegularParts(op, AfterOp(toks));
    arg := UnaryShape(AfterOp(toks), st, cx);
    RegularParts(UnaryLex(arg), u.rest);
  }

  lemma {:induction false} BinaryTailShape(toks: seq<Lexeme>, st: Output, cx: Context) returns (b: Binaries)
    requires Regular(toks) && Parsed(BinaryTail(toks, st, cx), st) && Head(toks).kind != Identifier
    ensures var rest := BinaryTail(toks, st, cx).rest;
            && WellFormedBinaries(b) && toks == BinariesLex(b) + rest && Head(rest).kind != Identifier
            && !IsOp(Head(rest)) && Regular(rest)
    decreases |toks|, 3
  {
    hide BinaryPart, IsOp;
    if IsOp(Head(toks)) {
      assert toks != [] by { NoOpAtEnd(toks); }
      var p := BinaryPart(toks, st, cx);
      assert Parsed(p, st);
      var op, arg := OperandShape(toks, st, cx);
      var more := BinaryTailShape(p.rest, p.out, cx);
      b := BinaryMessage(op, arg, more);
      assert toks == op + UnaryLex(arg) + BinariesLex(more) + BinaryTail(toks, st, cx).rest;
    } else {
      b := NoBinary;
    }
  }

  lemma NoOpAtEnd(toks: seq<Lexeme>)
    requires IsOp(Head(toks))
    ensures toks != []
  {
  }

  lemma {:induction false} BinaryShape(toks: seq<Lexeme>, st: Output, cx: Context) returns (b: Binary)
    requires Regular(toks) && Parsed(BinaryExpression(toks, st, cx), st)
    ensures var rest := BinaryExpression(toks, st, cx).rest;
            && WellFormedBinary(b) && toks == BinaryLex(b) + rest && Head(rest).kind != Identifier
            && !IsOp(Head(rest)) && Regular(rest)
    decreases |toks|, 4
  {
    hide UnaryExpression, BinaryTail, IsOp;
    var p := UnaryExpression(toks, st, cx);
    assert Parsed(p, st);
    var u := UnaryShape(toks, st, cx);
    RegularParts(UnaryLex(u), p.rest);
    var tail := BinaryTailShape(p.rest, p.out, cx);
    b := Binary(u, tail);
  }

  /** What no message can start with. */
  predicate NoMessage(t: Token) { t.kind != Identifier && t.kind != Keyword && !IsOp(t) }

  /** A keyword message that is parsed: its argument, and then its next part or its send. */
  lemma KeywordCases(key: Token, toks: seq<Lexeme>, st: Output, cx: Context, sel: string, argc: nat)
    requires Parsed(KeywordMessage(key, toks, st, cx, sel, argc), st)
    ensures var r, p := KeywordMessage(key, toks, st, cx, sel, argc), BinaryExpression(toks, st, cx);
            && Parsed(p, st) && (Head(p.rest).kind != Keyword ==> r.rest == p.rest)
            && (Head(p.rest).kind == Keyword ==>
                  && r == KeywordMessage(Head(p.rest), Tail(p.rest), p.out, cx, Clip(sel + key.text, SELECTOR_MAX),
                                         argc + 1)
                  && Parsed(r, p.out))
  {
    hide BinaryExpression, EmitSend, Clip;
  }

  lemma {:induction false} KeywordShape(key: Lexeme, toks: seq<Lexeme>, st: Output, cx: Context, sel: string, argc: nat)
      returns (k: Keywords)
    requires key.token.kind == Keyword && NoBracket(key) && Regular(toks)
    requires Parsed(KeywordMessage(key.token, toks, st, cx, sel, argc), st)
    ensures var rest := KeywordMessage(key.token, toks, st, cx, sel, argc).rest;
            WellFormedKeywords(k) && [key] + toks == KeywordsLex(k) + rest && NoMessage(Head(rest)) && Regular(rest)
    decreases |toks|, 5
  {
    hide BinaryExpression, KeywordMessage, IsOp, Clip, BinaryLex, WellFormedBinary;
    var p := BinaryExpression(toks, st, cx);
    KeywordCases(key.token, toks, st, cx, sel, argc);
    var b := BinaryShape(toks, st, cx);
    if Head(p.rest).kind == Keyword {
      RegularTail(p.rest);
      var more := KeywordShape(p.rest[0], Tail(p.rest), p.out, cx, Clip(sel + key.token.text, SELECTOR_MAX), argc + 1);
      k := KeywordPart(key, b, more);
      var rest := KeywordMessage(key.token, toks, st, cx, sel, argc).rest;
      assert p.rest == KeywordsLex(more) + rest;
      assert [key] + toks == [key] + BinaryLex(b) + KeywordsLex(more) + rest;
    } else {
      k := KeywordPart(key, b, NoKeyword);
      assert [key] + toks == [key] + BinaryLex(b) + [] + p.rest;
    }
  }

  lemma {:induction false} MessagesShape(toks: seq<Lexeme>, st: Output, cx: Context) returns (k: Keywords)
    requires Regular(toks) && Parsed(Continuation(toks, st, cx), st)
    requires Head(toks).kind != Identifier && !IsOp(Head(toks))
    ensures var rest := Continuation(toks, st, cx).rest;
            WellFormedKeywords(k) && toks == KeywordsLex(k) + rest && EndsExpression(rest) && Regular(rest)
    decreases |toks|, 6
  {
    hide Message, IsOp;
    if EndsExpression(toks) {
      k := NoKeyword;
    } else {
      RegularTail(toks);
      var p := Message(toks, st, cx);
      assert Parsed(p, st) && Head(toks).kind == Keyword
             && p == KeywordMessage(Head(toks), Tail(toks), st, cx, "", 0) by {
        MessageIsKeyword(toks, st, cx);
      }
      k := KeywordShape(toks[0], Tail(toks), st, cx, "", 0);
      AfterMessage(p.rest, p.out, cx);
    }
  }

  lemma MessageIsKeyword(toks: seq<Lexeme>, st: Output, cx: Context)
    requires Message(toks, st, cx).Ok? && Head(toks).kind != Identifier && !IsOp(Head(toks))
    ensures Head(toks).kind == Keyword && Message(toks, st, cx) == KeywordMessage(Head(toks), Tail(toks), st, cx, "", 0)
  {
    hide KeywordMessage;
  }

  lemma AfterMessage(toks: seq<Lexeme>, st: Output, cx: Context)
    requires Regular(toks) && NoMessage(Head(toks)) && Continuation(toks, st, cx).Ok?
    ensures EndsExpression(toks) && Continuation(toks, st, cx) == Ok(toks, st)
  {
    hide IsOp;
    assert toks != [] ==> Head(toks) == toks[0].token;
  }

  /** An expression that is parsed is one of the grammar, followed by something that ends it. */
  lemma {:induction false} ExprShape(toks: seq<Lexeme>, st: Output, cx: Context) returns (e: Expr)
    requires Regular(toks) && Parsed(Expression(toks, st, cx), st)
    ensures var rest := Expression(toks, st, cx).rest;
            WellFormedExpr(e) && toks == ExprLex(e) + rest && EndsExpression(rest) && Regular(rest)
    decreases |toks|, 7
  {
    hide BinaryExpression, Continuation, IsOp;
    var p := BinaryExpression(toks, st, cx);
    assert Parsed(p, st);
    var b := BinaryShape(toks, st, cx);
    var k := MessagesShape(p.rest, p.out, cx);
    e := Expr(b, k);
  }

  // ----------------------------------------------------------------- statements

  /** After each closing bracket there is something other than another one. */
  predicate Dotted(toks: seq<Lexeme>) {
    forall i :: 0 <= i < |toks| && IsSpecial(toks[i].token, "]") ==>
                  i + 1 < |toks| && !IsSpecial(toks[i + 1].token, "]")
  }

  lemma DottedAfter(a: seq<Lexeme>, b: seq<Lexeme>)
    requires Dotted(a + b)
    ensures Dotted(b)
  {
    assert forall i :: 0 <= i < |b| ==> (a + b)[|a| + i] == b[i];
  }

  lemma DottedBefore(a: seq<Lexeme>, close: Lexeme, b: seq<Lexeme>)
    requires Dotted(a + [close] + b) && IsSpecial(close.token, "]")
    ensures Dotted(a)
  {
    var all := a + [close] + b;
    assert all[|a|] == close;
    assert forall i :: 0 <= i < |a| ==> all[i] == a[i];
  }

  /** A block makes an entry in the table. */
  lemma BlockEntered(toks: seq<Lexeme>, st: Output, cx: Context)
    requires IsSpecial(Head(toks), "[") && Primary(toks, st, cx).Ok?
    ensures |Primary(toks, st, cx).out.blocks| > |st.blocks|
  {
    hide CompileBlock, CloseAt, Raw, BlockText, BlockName, EmitRef;
    var k, n := |st.blocks|, CloseAt(Tail(toks), "[", "]", 1);
    var c := CompileBlock(Tail(toks)[..n - 1], BlockText(Tail(toks)[..n]), st.blocks, cx);
    assert c.Accepted?;
    assert |c.blocks| > k;
  }

  lemma BlockStays(toks: seq<Lexeme>, st: Output, s1: Output, cx: Context)
    requires IsSpecial(Head(toks), "[") && |st.blocks| <= |s1.blocks|
    ensures !Parsed(ExpressionStatement(toks, s1, cx), st)
  {
    hide Primary, UnaryTail, BinaryTail, Continuation, AfterExpression;
    var p := Primary(toks, s1, cx);
    if p.Ok? {
      BlockEntered(toks, s1, cx);
      var u := UnaryExpression(toks, s1, cx);
      assert u == UnaryTail(p.rest, p.out);
      assert u.Ok? ==> BinaryExpression(toks, s1, cx) == BinaryTail(u.rest, u.out, cx) && |u.out.blocks| > |st.blocks|;
      var e := Expression(toks, s1, cx);
      assert e.Ok? ==> |e.out.blocks| > |st.blocks|;
    } else {
      assert UnaryExpression(toks, s1, cx) == p;
      assert BinaryExpression(toks, s1, cx) == p;
    }
  }

  /** Where the two blocks of a loop end, in the tokens after its first bracket. */
  lemma LoopRead(toks: seq<Lexeme>, st: Output, cx: Context) returns (n: nat, m: nat)
    requires WhileTrue(toks, st, cx).Ok?
    ensures 0 < n && n + 2 + m <= |toks| && 0 < m
    ensures n == CloseAt(toks, "[", "]", 1) && m == CloseAt(toks[n + 2..], "[", "]", 1)
    ensures toks[n].token.kind == Keyword && toks[n].token.text == "whileTrue:" && IsSpecial(toks[n + 1].token, "[")
    ensures |Raw(toks[..n])| <= SOURCE_MAX && |Raw(toks[n + 2..][..m])| <= SOURCE_MAX
    ensures WhileTrue(toks, st, cx) == Loop(toks[..n - 1], toks[n + 2..][..m - 1], toks[n + 2..][m..], st, cx)
  {
    hide Loop, Raw, CloseAt;
    n := CloseAt(toks, "[", "]", 1);
    var t1 := toks[n..];
    assert t1 != [] && t1[0] == toks[n] && Tail(t1) == toks[n + 1..];
    assert Tail(t1) != [] && Tail(t1)[0] == toks[n + 1] && Tail(Tail(t1)) == toks[n + 2..];
    m := CloseAt(toks[n + 2..], "[", "]", 1);
  }

  /** The condition is a whole expression, the body statements. */
  lemma LoopParts(cond: seq<Lexeme>, body: seq<Lexeme>, toks: seq<Lexeme>, st: Output, cx: Context)
      returns (s2: Output)
    requires Regular(cond) && Parsed(Loop(cond, body, toks, st, cx), st)
    ensures Parsed(Expression(cond, st, cx), st) && Expression(cond, st, cx).rest == []
    ensures Parsed(Statements(body, s2, cx), s2)
    ensures Loop(cond, body, toks, st, cx).rest == toks
  {
    hide Expression, Statements, LoopEnd, U32;
    var p := Expression(cond, st, cx);
    s2 := Emit([], p.out, [JUMP_IF_FALSE] + U32(0)).out;
    var q := Statements(body, s2, cx);
    assert p.Ok? && q.Ok? && Loop(cond, body, toks, st, cx) == LoopEnd(toks, q.out, |st.code|, |p.out.code| + 1);
    assert Parsed(p, st);
    var e := ExprShape(cond, st, cx);
  }

  lemma BracketIsLoop(toks: seq<Lexeme>, st: Output, cx: Context)
    requires IsSpecial(Head(toks), "[") && Parsed(BracketStatement(toks, st, cx), st)
    ensures var w := WhileTrue(Tail(toks), st, cx);
            Parsed(w, st) && BracketStatement(toks, st, cx) == AfterStatement(w.rest, w.out, cx, [POP])
            && Parsed(AfterStatement(w.rest, w.out, cx, [POP]), w.out)
  {
    hide WhileTrue, ExpressionStatement, AfterStatement;
    var w := WhileTrue(Tail(toks), st, cx);
    if w.Fail? {
      BlockStays(toks, st, w.partial, cx);
    }
  }

  /** A part of the tokens, up to a closing bracket. */
  lemma PartOf(toks: seq<Lexeme>, i: nat, k: nat)
    requires Regular(toks) && Dotted(toks) && i <= k < |toks| && IsSpecial(toks[k].token, "]")
    ensures Regular(toks[i..k]) && Dotted(toks[i..k]) && Regular(toks[k + 1..]) && Dotted(toks[k + 1..])
    ensures k + 1 < |toks|
  {
    hide Regular, Dotted;
    assert toks == toks[..i] + ([] + toks[i..k] + [toks[k]] + toks[k + 1..]);
    var right := toks[i..k] + [toks[k]] + toks[k + 1..];
    assert toks == toks[..i] + right;
    RegularParts(toks[..i], right);
    DottedAfter(toks[..i], right);
    DottedBefore(toks[i..k], toks[k], toks[k + 1..]);
    RegularParts(toks[i..k] + [toks[k]], toks[k + 1..]);
    RegularParts(toks[i..k], [toks[k]]);
    DottedAfter(toks[i..k] + [toks[k]], toks[k + 1..]);
    NotLast(toks, k);
  }

  /** The tokens of a loop, and what is known of its parts. */
  lemma LoopTokens(toks: seq<Lexeme>, n: nat, m: nat)
    requires 0 < n && 0 < m && n + m + 3 <= |toks|
    ensures var tail := Tail(toks);
            && tail[..n - 1] == toks[1..n] && tail[n + 2..][..m - 1] == toks[n + 3..n + 2 + m]
            && tail[n + 2..][m..] == toks[n + 3 + m..]
            && tail[..n] == toks[1..n] + [toks[n]] && tail[n + 2..][..m] == toks[n + 3..n + 2 + m] + [toks[n + 2 + m]]
  {
  }

  lemma LoopWhole(toks: seq<Lexeme>, n: nat, m: nat)
    requires 0 < n && 0 < m && n + m + 3 <= |toks|
    ensures toks == [toks[0]] + toks[1..n] + [toks[n]]
                    + ([toks[n + 1], toks[n + 2]] + toks[n + 3..n + 2 + m] + [toks[n + 2 + m]]) + toks[n + 3 + m..]
  {
    assert toks == toks[..n + 1] + toks[n + 1..];
    assert toks[..n + 1] == [toks[0]] + toks[1..n] + [toks[n]];
    assert toks[n + 1..] == toks[n + 1..n + 3 + m] + toks[n + 3 + m..];
    assert toks[n + 1..n + 3 + m] == [toks[n + 1], toks[n + 2]] + toks[n + 3..n + 2 + m] + [toks[n + 2 + m]];
  }

  lemma NotLast(toks: seq<Lexeme>, i: nat)
    requires Dotted(toks) && i < |toks| && IsSpecial(toks[i].token, "]")
    ensures i + 1 < |toks|
  {
  }

  /** A statement that starts with a bracket and makes no block is a loop, with a period after it. */
  lemma {:induction false} LoopShape(toks: seq<Lexeme>, st: Output, cx: Context) returns (s: Stmts)
    requires Regular(toks) && Dotted(toks) && toks != [] && IsSpecial(Head(toks), "[")
    requires Parsed(BracketStatement(toks, st, cx), st)
    ensures WellFormedStmts(s, cx) && toks == StmtsLex(s)
    decreases |toks|, 0
  {
    hide WhileTrue, ExpressionStatement, Loop, Raw, CloseAt, Statements, Expression, BracketStatement, ExprLex,
         AfterStatement, Regular, Dotted, DepthAfter, WellFormedExpr;
    var tail := Tail(toks);
    var w := WhileTrue(tail, st, cx);
    BracketIsLoop(toks, st, cx);
    var n, m := LoopRead(tail, st, cx);
    CloseShape(tail, "[", "]", 1);
    CloseShape(tail[n + 2..], "[", "]", 1);
    LoopTokens(toks, n, m);
    PartOf(toks, 1, n);
    PartOf(toks, n + 3, n + 2 + m);
    var s2 := LoopParts(toks[1..n], toks[n + 3..n + 2 + m], toks[n + 3 + m..], st, cx);
    var e := ExprShape(toks[1..n], st, cx);
    var b := StmtsShape(toks[n + 3..n + 2 + m], s2, cx);
    var r := AfterShape(toks[n + 3 + m..], w.out, cx, [POP]);
    assert toks[1..n] == ExprLex(e) by { assert ExprLex(e) + [] == ExprLex(e); }
    LoopWhole(toks, n, m);
    s := LoopTree(toks, n, m, e, b, r, cx);
  }

  lemma LoopTree(toks: seq<Lexeme>, n: nat, m: nat, e: Expr, b: Stmts, r: Stmts, cx: Context) returns (s: Stmts)
    requires 0 < n && 0 < m && n + m + 3 < |toks|
    requires toks == [toks[0]] + ExprLex(e) + [toks[n]]
                     + ([toks[n + 1], toks[n + 2]] + StmtsLex(b) + [toks[n + 2 + m]]) + toks[n + 3 + m..]
    requires IsSpecial(toks[n + 3 + m].token, ".") && Tail(toks[n + 3 + m..]) == StmtsLex(r)
    requires |Raw(ExprLex(e) + [toks[n]])| <= SOURCE_MAX && |Raw(StmtsLex(b) + [toks[n + 2 + m]])| <= SOURCE_MAX
    requires IsSpecial(toks[0].token, "[") && IsSpecial(toks[n].token, "]")
    requires toks[n + 1].token.kind == Keyword && toks[n + 1].token.text == "whileTrue:"
    requires IsSpecial(toks[n + 2].token, "[") && IsSpecial(toks[n + 2 + m].token, "]")
    requires WellFormedExpr(e) && WellFormedStmts(b, cx) && WellFormedStmts(r, cx)
    ensures WellFormedStmts(s, cx) && toks == StmtsLex(s)
  {
    hide Raw, ExprLex, WellFormedExpr, IsSpecial;
    var dot := toks[n + 3 + m];
    var first := While(toks[0], e, toks[n], toks[n + 1], toks[n + 2], b, toks[n + 2 + m], dot);
    s := Next(first, r);
    assert WellFormedStmt(first, cx);
    var front := [toks[0]] + ExprLex(e) + [toks[n]];
    var back := [toks[n + 1], toks[n + 2]] + StmtsLex(b) + [toks[n + 2 + m]];
    assert toks[n + 3 + m..] == [dot] + StmtsLex(r);
    assert StmtLex(first) == front + (back + [dot]);
    assert front + back + ([dot] + StmtsLex(r)) == front + (back + [dot]) + StmtsLex(r);
  }

  /** After a loop or an assignment that is not the last statement, a period and more statements. */
  lemma {:induction false} AfterShape(toks: seq<Lexeme>, st: Output, cx: Context, drop: seq<Byte>) returns (r: Stmts)
    requires Regular(toks) && Dotted(toks) && toks != [] && Parsed(AfterStatement(toks, st, cx, drop), st)
    ensures IsSpecial(toks[0].token, ".") && WellFormedStmts(r, cx) && Tail(toks) == StmtsLex(r)
    decreases |toks|, 3
  {
    hide Statements, Dotted;
    RegularTail(toks);
    DottedAfter([toks[0]], Tail(toks));
    r := StmtsShape(Tail(toks), Emit(Tail(toks), st, drop).out, cx);
  }

  lemma {:induction false} ReturnShape(toks: seq<Lexeme>, st: Output, cx: Context) returns (e: Expr)
    requires Regular(toks) && Parsed(ReturnStatement(toks, st, cx), st)
    ensures WellFormedExpr(e) && toks == ExprLex(e)
  {
    hide Expression, ExprLex, WellFormedExpr;
    var p := Expression(toks, st, cx);
    assert Parsed(p, st);
    e := ExprShape(toks, st, cx);
    assert p.rest == [] by { NoEnd(p.rest); }
  }

  lemma NoEnd(toks: seq<Lexeme>)
    requires Regular(toks)
    ensures Head(toks).kind == Eof ==> toks == []
  {
  }

  lemma {:induction false} AssignShape(name: Lexeme, becomes: Lexeme, toks: seq<Lexeme>, st: Output, cx: Context)
      returns (s: Stmts)
    requires Regular(toks) && Dotted(toks) && Parsed(AssignStatement(name.token.text, toks, st, cx), st)
    requires name.token.kind == Identifier && NoBracket(name) && IsSpecial(becomes.token, ":=")
    ensures WellFormedStmts(s, cx) && [name, becomes] + toks == StmtsLex(s)
    decreases |toks|, 4
  {
    hide Expression, ExprLex, WellFormedExpr, AfterStatement, StoreInto, Dotted, Regular;
    var p := Expression(toks, st, cx);
    assert Parsed(p, st);
    var e := ExprShape(toks, st, cx);
    if p.rest == [] {
      s := LastAssign(name, becomes, e);
      assert ExprLex(e) + [] == ExprLex(e);
    } else {
      DottedAfter(ExprLex(e), p.rest);
      var r := AfterShape(p.rest, Emit(p.rest, p.out, StoreInto(name.token.text, cx)).out, cx, []);
      s := Next(Assign(name, becomes, e, p.rest[0]), r);
      assert p.rest == [p.rest[0]] + Tail(p.rest);
      assert [name, becomes] + toks == [name, becomes] + ExprLex(e) + [p.rest[0]] + StmtsLex(r);
    }
  }

  lemma {:induction false} ValueShape(toks: seq<Lexeme>, st: Output, cx: Context) returns (s: Stmts)
    requires Regular(toks) && Dotted(toks)
    requires Parsed(ExpressionStatement(toks, st, cx), st)
    ensures WellFormedStmts(s, cx) && toks == StmtsLex(s)
    decreases |toks|, 4
  {
    hide Expression, ExprLex, WellFormedExpr, Dotted, Statements;
    var p := Expression(toks, st, cx);
    assert Parsed(p, st);
    var e := ExprShape(toks, st, cx);
    if p.rest == [] {
      s := Value(e);
      assert ExprLex(e) + [] == ExprLex(e);
    } else {
      RegularTail(p.rest);
      DottedAfter(ExprLex(e), p.rest);
      DottedAfter([p.rest[0]], Tail(p.rest));
      var r := StmtsShape(Tail(p.rest), Emit(Tail(p.rest), p.out, [POP]).out, cx);
      s := Next(Drop(e, p.rest[0]), r);
      assert toks == ExprLex(e) + [p.rest[0]] + StmtsLex(r);
    }
  }

  /** Statements that are parsed are statements of the grammar, all of them. */
  lemma {:induction false} StmtsShape(toks: seq<Lexeme>, st: Output, cx: Context) returns (s: Stmts)
    requires Regular(toks) && Dotted(toks) && Parsed(Statements(toks, st, cx), st)
    ensures WellFormedStmts(s, cx) && toks == StmtsLex(s)
    decreases |toks|, 5
  {
    hide Statements, ReturnStatement, BracketStatement, AssignStatement, NameStatement, ExpressionStatement, Dotted,
         WellFormedExpr, ExprLex;
    if toks == [] {
      s := End;
    } else {
      RegularTail(toks);
      NoEnd(toks);
      StatementsDispatch(toks, st, cx);
      DottedAfter([toks[0]], Tail(toks));
      var t := Head(toks);
      if IsSpecial(t, ".") {
        var r := StmtsShape(Tail(toks), st, cx);
        s := Next(Blank(toks[0]), r);
      } else if IsSpecial(t, "^") {
        var e := ReturnShape(Tail(toks), st, cx);
        s := Return(toks[0], e);
      } else if IsSpecial(t, "[") {
        s := LoopShape(toks, st, cx);
      } else if t.kind == Identifier && IsSpecial(Head(Tail(toks)), ":=") {
        var more := Tail(toks);
        assert more != [];
        RegularTail(more);
        DottedAfter([more[0]], Tail(more));
        s := AssignShape(toks[0], more[0], Tail(more), st, cx);
      } else {
        NameIsStatement(toks, st, cx);
        s := ValueShape(toks, st, cx);
      }
    }
  }

  /** A statement that starts with a name goes the way of an expression. */
  lemma NameIsStatement(toks: seq<Lexeme>, st: Output, cx: Context)
    ensures Head(toks).kind == Identifier ==>
              NameStatement(Head(toks), Tail(toks), st, cx) == ExpressionStatement(toks, st, cx)
  {
    hide EmitAtom, Continuation, Expression, AfterExpression;
    if Head(toks).kind == Identifier {
      M.NameIsExpression(toks, st, cx);
    }
  }

  // ----------------------------------------------------------------- methods

  /** A name and then more of them, or the closing bar. */
  lemma TempsRead(toks: seq<Lexeme>, names: seq<string>)
    requires TempNames(toks, names).Names?
    ensures toks != [] && toks == [toks[0]] + Tail(toks) && Head(toks) == toks[0].token
    ensures IsSpecial(Head(toks), "|") ==> TempNames(toks, names) == Names(Tail(toks), names)
    ensures !IsSpecial(Head(toks), "|") ==>
              && Head(toks).kind == Identifier && |names| < TEMP_MAX
              && TempNames(toks, names) == TempNames(Tail(toks), names + [Clip(Head(toks).text, NAME_MAX)])
  {
    hide Clip;
  }

  lemma DeclaredMore(names: seq<string>, first: Lexeme, more: seq<Lexeme>)
    ensures names + [Clip(first.token.text, NAME_MAX)] + Declared(more) == names + Declared([first] + more)
  {
    hide Clip;
    assert ([first] + more)[1..] == more;
  }

  /** The names up to the closing bar. */
  lemma {:induction false} TempsShape(toks: seq<Lexeme>, names: seq<string>) returns (temps: seq<Lexeme>, bar: Lexeme)
    requires TempNames(toks, names).Names? && |names| <= TEMP_MAX
    ensures var r := TempNames(toks, names);
            && toks == temps + [bar] + r.rest && r.names == names + Declared(temps) && IsSpecial(bar.token, "|")
            && (forall i :: 0 <= i < |temps| ==> temps[i].token.kind == Identifier)
            && |names| + |temps| <= TEMP_MAX
    decreases |toks|
  {
    hide Clip, TempNames, Declared;
    TempsRead(toks, names);
    if IsSpecial(Head(toks), "|") {
      temps, bar := [], toks[0];
      assert Declared(temps) == [] by { NoneDeclared(); }
    } else {
      var more;
      more, bar := TempsShape(Tail(toks), names + [Clip(Head(toks).text, NAME_MAX)]);
      temps := [toks[0]] + more;
      DeclaredMore(names, toks[0], more);
    }
  }

  lemma NoneDeclared()
    ensures Declared([]) == []
  {
  }

  lemma DeclsShape(toks: seq<Lexeme>) returns (bars: seq<Lexeme>, temps: seq<Lexeme>)
    requires TempDecls(toks).Names?
    ensures var r := TempDecls(toks);
            && r.names == Declared(temps)
            && forall body :: StmtsLex(body) == r.rest ==>
                 WellFormedTemps(Method(bars, temps, body)) && MethodLex(Method(bars, temps, body)) == toks
    ensures exists front :: toks == front + TempDecls(toks).rest
  {
    if IsSpecial(Head(toks), "|") {
      var bar;
      temps, bar := TempsShape(Tail(toks), []);
      bars := [toks[0], bar];
      assert [] + Declared(temps) == Declared(temps);
      var rest := TempDecls(toks).rest;
      assert toks == [toks[0]] + Tail(toks);
      assert toks == [toks[0]] + temps + [bar] + rest;
    } else {
      bars, temps := [], [];
      assert toks == [] + toks;
    }
  }

  /** Declarations and statements, as they are parsed, are those of the grammar. */
  lemma BodyShape(toks: seq<Lexeme>, st: Output, args: seq<string>, offset: nat, inBlock: bool, outers: seq<Scope>,
                  ivars: seq<string>) returns (m: Method)
    requires Regular(toks) && Dotted(toks) && TempDecls(toks).Names?
    requires var cx := Context(Scope(args, TempDecls(toks).names, offset, inBlock), outers, ivars);
             Parsed(Statements(TempDecls(toks).rest, st, cx), st)
    ensures var cx := Context(Scope(args, TempDecls(toks).names, offset, inBlock), outers, ivars);
            && WellFormedTemps(m) && WellFormedStmts(m.body, cx) && MethodLex(m) == toks
            && TempDecls(toks) == Names(StmtsLex(m.body), Declared(m.temps))
  {
    hide Statements, TempDecls, Regular, Dotted, WellFormedStmts, WellFormedTemps, MethodLex, StmtsLex, Declared;
    var d := TempDecls(toks);
    var bars, temps := DeclsShape(toks);
    var front :| toks == front + d.rest;
    RegularParts(front, d.rest);
    DottedAfter(front, d.rest);
    var body := StmtsShape(d.rest, st, Context(Scope(args, d.names, offset, inBlock), outers, ivars));
    m := Method(bars, temps, body);
  }

  /** Tokens that are compiled to a method, without a block, are a method of the grammar. */
  lemma MethodShape(toks: seq<Lexeme>, args: seq<string>, ivars: seq<string>, b: Body) returns (m: Method)
    requires Regular(toks) && Dotted(toks)
    requires CompileBody(toks, [], args, [], ivars, false, 0) == Accepted(b, [])
    ensures WellFormedMethod(m, args, ivars) && MethodLex(m) == toks && HasReturn(m.body)
  {
    hide Statements, TempDecls, Regular, Dotted, WellFormedStmts, WellFormedTemps, HasReturn, MethodLex, StmtsLex,
         Declared;
    var d := TempDecls(toks);
    assert d.Names?;
    var st := Output([], [], [], false);
    var cx := Context(Scope(args, d.names, 0, false), [], ivars);
    var p := Statements(d.rest, st, cx);
    assert p.Ok? && Parsed(p, st) && p.out.sawReturn;
    m := BodyShape(toks, st, args, 0, false, [], ivars);
    assert MethodContext(m, args, ivars) == cx;
    ParseStmts(m.body, st, cx);
    E.ReturnsFlag(m.body, st, cx);
  }

  /** A method of the grammar, with these tokens, that returns somewhere. */
  ghost predicate IsMethod(toks: seq<Lexeme>, args: seq<string>, ivars: seq<string>) {
    exists m :: WellFormedMethod(m, args, ivars) && MethodLex(m) == toks && HasReturn(m.body)
  }

  /**
   Accepted without a block is, where no buffer overflows, exactly what is a method of the grammar
   with a return somewhere.
   */
  lemma AcceptedIff(toks: seq<Lexeme>, args: seq<string>, ivars: seq<string>)
    requires Regular(toks) && Dotted(toks)
    ensures var c := CompileBody(toks, [], args, [], ivars, false, 0);
            c.TooLarge? || (c.Accepted? && c.blocks == [] <==> IsMethod(toks, args, ivars))
  {
    hide CompileBody, WellFormedMethod, MethodLex, HasReturn, Regular, Dotted;
    var c := CompileBody(toks, [], args, [], ivars, false, 0);
    if c.Accepted? && c.blocks == [] {
      var m := MethodShape(toks, args, ivars, c.body);
    }
    if m: Method :| WellFormedMethod(m, args, ivars) && MethodLex(m) == toks && HasReturn(m.body) {
      MethodAccepted(m, args, ivars);
    }
  }

  lemma MethodAccepted(m: Method, args: seq<string>, ivars: seq<string>)
    requires WellFormedMethod(m, args, ivars) && HasReturn(m.body)
    ensures var c := CompileBody(MethodLex(m), [], args, [], ivars, false, 0);
            c.TooLarge? || (c.Accepted? && c.blocks == [])
  {
    hide CompileBody, MethodLex, GenStmts, HasReturn, WellFormedStmts, WellFormedTemps;
    var st, cx := Output([], [], [], false), MethodContext(m, args, ivars);
    E.CompileMethod(m, args, ivars);
    if GenStmts(m.body, st, cx).Ok? {
      E.ReturnsFlag(m.body, st, cx);
    }
  }

  // ----------------------------------------------------------------- blocks

  /** The arguments up to the bar, the first one's colon given. */
  lemma {:induction false} ArgsShape(colon: Lexeme, toks: seq<Lexeme>, names: seq<string>)
      returns (args: seq<BlockArg>, bar: Lexeme)
    requires ArgNames(toks, names).Names? && |names| <= ARG_MAX && IsSpecial(colon.token, ":")
    ensures var r := ArgNames(toks, names);
            && [colon] + toks == ArgsLex(args) + [bar] + r.rest && r.names == names + ArgsDeclared(args)
            && args != [] && |names| + |args| <= ARG_MAX && IsSpecial(bar.token, "|")
            && forall i :: 0 <= i < |args| ==>
                 IsSpecial(args[i].colon.token, ":") && args[i].name.token.kind == Identifier
    decreases |toks|
  {
    hide Clip, ArgNames, ArgsDeclared, ArgsLex, Tail;
    ArgsRead(toks, names);
    var first, after := BlockArg(colon, toks[0]), Tail(Tail(toks));
    var rest := ArgNames(toks, names).rest;
    var more: seq<BlockArg> := [];
    if IsSpecial(toks[1].token, ":") {
      more, bar := ArgsShape(toks[1], after, names + [Clip(Head(toks).text, NAME_MAX)]);
    } else {
      bar := toks[1];
    }
    args := [first] + more;
    ArgsMore(names, first, more);
    assert [toks[1]] + after == ArgsLex(more) + [bar] + rest;
    Prefixed([colon, toks[0]], [toks[1]] + after, ArgsLex(more), [bar], rest);
    assert [colon] + toks == [colon, toks[0]] + ([toks[1]] + after);
  }

  lemma Prefixed(a: seq<Lexeme>, s: seq<Lexeme>, b: seq<Lexeme>, c: seq<Lexeme>, d: seq<Lexeme>)
    requires s == b + c + d
    ensures a + s == a + b + c + d
  {
  }

  lemma ArgsMore(names: seq<string>, first: BlockArg, more: seq<BlockArg>)
    ensures names + [Clip(first.name.token.text, NAME_MAX)] + ArgsDeclared(more) == names + ArgsDeclared([first] + more)
    ensures ArgsLex([first] + more) == [first.colon, first.name] + ArgsLex(more)
    ensures ArgsDeclared([]) == [] && ArgsLex([]) == []
  {
    hide Clip;
    assert ([first] + more)[1..] == more;
  }

  /** A name, and then the next one's colon or the bar. */
  lemma ArgsRead(toks: seq<Lexeme>, names: seq<string>)
    requires ArgNames(toks, names).Names?
    ensures |toks| >= 2 && toks == [toks[0]] + [toks[1]] + Tail(Tail(toks)) && Head(toks) == toks[0].token
    ensures toks[0].token.kind == Identifier && |names| < ARG_MAX
    ensures var more := names + [Clip(Head(toks).text, NAME_MAX)];
            if IsSpecial(toks[1].token, ":") then ArgNames(toks, names) == ArgNames(Tail(Tail(toks)), more)
            else IsSpecial(toks[1].token, "|") && ArgNames(toks, names) == Names(Tail(Tail(toks)), more)
  {
    hide Clip;
    assert toks != [] && Tail(toks) != [];
  }

  lemma HeaderShape(toks: seq<Lexeme>) returns (args: seq<BlockArg>, bar: Lexeme)
    requires BlockHeader(toks).Names?
    ensures var r := BlockHeader(toks);
            && toks == (if args == [] then [] else ArgsLex(args) + [bar]) + r.rest && r.names == ArgsDeclared(args)
            && |args| <= ARG_MAX && IsSpecial(bar.token, "|")
            && forall i :: 0 <= i < |args| ==>
                 IsSpecial(args[i].colon.token, ":") && args[i].name.token.kind == Identifier
  {
    hide ArgNames;
    if IsSpecial(Head(toks), ":") {
      assert toks == [toks[0]] + Tail(toks);
      args, bar := ArgsShape(toks[0], Tail(toks), []);
      assert [] + ArgsDeclared(args) == ArgsDeclared(args);
    } else {
      args, bar := [], Lexeme(Token(Special, "|", 0), "|");
    }
  }

  /** Tokens between brackets that are compiled at the first try, without a block inside, are a block of the grammar. */
  lemma BlockShape(toks: seq<Lexeme>, blocks: seq<Body>, cx: Context, b: Body, after: seq<Body>) returns (d: Block)
    requires Regular(toks) && Dotted(toks)
    requires CompileBody(toks, blocks, [], [cx.scope] + cx.outers, cx.ivars, true,
                         cx.scope.offset + |cx.scope.args| + |cx.scope.temps|) == Accepted(b, after)
    requires |after| == |blocks|
    ensures WellFormedBlock(d, cx) && BlockLex(d) == toks
  {
    hide Statements, TempDecls, BlockHeader, Regular, Dotted, WellFormedStmts, WellFormedTemps, MethodLex, StmtsLex,
         Declared, ArgsDeclared, ArgsLex, EmitRef;
    var h := BlockHeader(toks);
    assert h.Names?;
    var t := TempDecls(h.rest);
    var offset := cx.scope.offset + |cx.scope.args| + |cx.scope.temps|;
    var st := Output([], [], blocks, false);
    var own := Context(Scope(h.names, t.names, offset, true), [cx.scope] + cx.outers, cx.ivars);
    assert t.Names? && Parsed(Statements(t.rest, st, own), st);
    var args, bar := HeaderShape(toks);
    var front := if args == [] then [] else ArgsLex(args) + [bar];
    RegularParts(front, h.rest);
    DottedAfter(front, h.rest);
    var m := BodyShape(h.rest, st, h.names, offset, true, [cx.scope] + cx.outers, cx.ivars);
    d := Block(args, bar, m);
    assert BlockContext(d, cx) == own;
  }

  ghost predicate IsBlock(toks: seq<Lexeme>, cx: Context) {
    exists d :: WellFormedBlock(d, cx) && BlockLex(d) == toks
  }

  /**
   The first try at a block accepts, without a block inside and where nothing overflows, exactly
   the grammar's blocks.
   */
  lemma BlockAcceptedIff(toks: seq<Lexeme>, blocks: seq<Body>, cx: Context)
    requires Regular(toks) && Dotted(toks) && |blocks| < BLOCK_MAX
    ensures var c := CompileBody(toks, blocks + [EMPTY_BODY], [], [cx.scope] + cx.outers, cx.ivars, true,
                                 cx.scope.offset + |cx.scope.args| + |cx.scope.temps|);
            c.TooLarge? || (c.Accepted? && |c.blocks| == |blocks| + 1 <==> IsBlock(toks, cx))
  {
    hide CompileBody, WellFormedBlock, BlockLex, Regular, Dotted;
    var before := blocks + [EMPTY_BODY];
    var c := CompileBody(toks, before, [], [cx.scope] + cx.outers, cx.ivars, true,
                         cx.scope.offset + |cx.scope.args| + |cx.scope.temps|);
    if c.Accepted? && |c.blocks| == |blocks| + 1 {
      var d := BlockShape(toks, before, cx, c.body, c.blocks);
    }
    if d: Block :| WellFormedBlock(d, cx) && BlockLex(d) == toks {
      BlockAccepted(d, blocks, cx);
      assert CompileBlock(toks, "", blocks, cx) == c;
    }
  }

  lemma BlockAccepted(d: Block, blocks: seq<Body>, cx: Context)
    requires WellFormedBlock(d, cx) && |blocks| < BLOCK_MAX
    ensures var c := CompileBlock(BlockLex(d), "", blocks, cx);
            c.TooLarge? || (c.Accepted? && |c.blocks| == |blocks| + 1)
  {
    hide CompileBlock, BlockLex, GenStmts, HasReturn, WellFormedStmts, WellFormedTemps;
    var st, own := Output([], [], blocks + [EMPTY_BODY], false), BlockContext(d, cx);
    assert WellFormedStmts(d.rest.body, own);
    E.CompileBlockLiteral(d, "", blocks, cx);
    if GenStmts(d.rest.body, st, own).Ok? {
      E.ReturnsFlag(d.rest.body, st, own);
      NilAtEnd(GenStmts(d.rest.body, st, own).out);
    }
  }

  lemma NilAtEnd(st: Output)
    ensures var p := EmitRef([], st, PUSH_LITERAL, NIL_TOKEN, []); p.Ok? ==> p.out.blocks == st.blocks
  {
    hide FindLiteral, Interned, U32;
  }

  // ----------------------------------------------------------------- source texts

  lemma {:induction false} LexBounded(s: string)
    ensures forall i :: 0 <= i < |Lex(s)| ==> Lex(s)[i].token.kind != Eof && |Lex(s)[i].token.text| <= TEXT_MAX
    decreases |s|
  {
    var (t, n) := L.Next(s);
    NextBounded(s);
    hide L.Next;
    if t.kind != Eof {
      LexBounded(s[n..]);
    }
  }

  lemma NextBounded(s: string)
    ensures |L.Next(s).0.text| <= TEXT_MAX
  {
    hide RunLength, StringBody, Decimal, BlankLength, Clip;
  }

  /**
   Without semicolons, a closing bracket never next to another or at the end, and no literal arrays
   among brackets.
   */
  predicate Simple(toks: seq<Lexeme>) {
    && (forall i :: 0 <= i < |toks| ==> !IsSpecial(toks[i].token, ";")) && Dotted(toks)
    && (Plain(toks) || forall i :: 0 <= i < |toks| ==> !IsSpecial(toks[i].token, "#("))
  }

  /** The method that a text which is compiled without a block is. */
  lemma SourceMethod(source: string, args: seq<string>, ivars: seq<string>, b: Body) returns (m: Method)
    requires Simple(Lex(source)) && CompileBody(Lex(source), [], args, [], ivars, false, 0) == Accepted(b, [])
    ensures WellFormedMethod(m, args, ivars) && MethodLex(m) == Lex(source) && HasReturn(m.body)
  {
    hide CompileBody, Lex, HasReturn, WellFormedMethod, MethodLex;
    LexBounded(source);
    assert Regular(Lex(source));
    m := MethodShape(Lex(source), args, ivars, b);
  }

  /** A simple source text is compiled without a block if and only if it is a method of the grammar. */
  lemma SourceAcceptedIff(source: string, args: seq<string>, ivars: seq<string>)
    requires Simple(Lex(source))
    ensures var c := CompileBody(Lex(source), [], args, [], ivars, false, 0);
            c.TooLarge? || (c.Accepted? && c.blocks == [] <==> IsMethod(Lex(source), args, ivars))
  {
    hide CompileBody, IsMethod, Lex;
    LexBounded(source);
    assert Regular(Lex(source));
    AcceptedIff(Lex(source), args, ivars);
  }

  // ----------------------------------------------------------------- no `thisContext`

  predicate NoThis(ls: seq<Lexeme>) {
    forall i :: 0 <= i < |ls| ==> ls[i].token.kind != Identifier || ls[i].token.text != "thisContext"
  }

  lemma NoThisParts(a: seq<Lexeme>, b: seq<Lexeme>)
    requires NoThis(a + b)
    ensures NoThis(a) && NoThis(b)
  {
    assert forall i :: 0 <= i < |a| ==> (a + b)[i] == a[i];
    assert forall i :: 0 <= i < |b| ==> (a + b)[|a| + i] == b[i];
  }

  lemma {:induction false} PrimNoThis(p: Prim)
    requires WellFormedPrim(p) && NoThis(PrimLex(p))
    ensures V.NoContext(PrimTree(p))
    decreases p, 0
  {
    match p
    case Atom(lex) => assert PrimLex(p)[0] == lex;
    case Paren(open, inner, close) =>
      NoThisParts([open] + ExprLex(inner), [close]);
      NoThisParts([open], ExprLex(inner));
      ExprNoThis(inner);
    case Array(_, _, _) =>
  }

  lemma {:induction false} UnaryOnNoThis(t: Term, messages: seq<Lexeme>)
    requires V.NoContext(t)
    ensures V.NoContext(UnaryOn(t, messages))
    decreases |messages|
  {
    if messages != [] {
      UnaryOnNoThis(Send(t, messages[0].token.text, NoArgs), messages[1..]);
    }
  }

  lemma {:induction false} UnaryNoThis(u: Unary)
    requires WellFormedUnary(u) && NoThis(UnaryLex(u))
    ensures V.NoContext(UnaryTree(u))
    decreases u, 0
  {
    NoThisParts(PrimLex(u.prim), u.messages);
    PrimNoThis(u.prim);
    UnaryOnNoThis(PrimTree(u.prim), u.messages);
  }

  lemma {:induction false} BinaryOnNoThis(t: Term, b: Binaries)
    requires WellFormedBinaries(b) && NoThis(BinariesLex(b)) && V.NoContext(t)
    ensures V.NoContext(BinaryOn(t, b))
    decreases b, 0
  {
    if b.BinaryMessage? {
      NoThisParts(b.op + UnaryLex(b.arg), BinariesLex(b.more));
      NoThisParts(b.op, UnaryLex(b.arg));
      UnaryNoThis(b.arg);
      hide UnaryTree, OpSelector;
      assert V.NoContextArgs(NoArgs) && V.NoContextArgs(Plus(NoArgs, UnaryTree(b.arg)));
      BinaryOnNoThis(Send(t, OpSelector(b.op), Plus(NoArgs, UnaryTree(b.arg))), b.more);
    }
  }

  lemma {:induction false} BinaryNoThis(b: Binary)
    requires WellFormedBinary(b) && NoThis(BinaryLex(b))
    ensures V.NoContext(BinaryTree(b))
    decreases b, 0
  {
    NoThisParts(UnaryLex(b.first), BinariesLex(b.tail));
    UnaryNoThis(b.first);
    BinaryOnNoThis(UnaryTree(b.first), b.tail);
  }

  lemma {:induction false} ArgsNoThis(front: Args, k: Keywords)
    requires WellFormedKeywords(k) && NoThis(KeywordsLex(k)) && V.NoContextArgs(front)
    ensures V.NoContextArgs(KeywordArgs(front, k))
    decreases k, 0
  {
    if k.KeywordPart? {
      NoThisParts([k.key] + BinaryLex(k.arg), KeywordsLex(k.more));
      NoThisParts([k.key], BinaryLex(k.arg));
      BinaryNoThis(k.arg);
      hide BinaryTree;
      ArgsNoThis(Plus(front, BinaryTree(k.arg)), k.more);
    }
  }

  lemma {:induction false} ExprNoThis(e: Expr)
    requires WellFormedExpr(e) && NoThis(ExprLex(e))
    ensures V.NoContext(ExprTree(e))
    decreases e, 0
  {
    NoThisParts(BinaryLex(e.head), KeywordsLex(e.keywords));
    BinaryNoThis(e.head);
    ArgsNoThis(NoArgs, e.keywords);
  }

  lemma {:induction false} StmtNoThis(s: Stmt, cx: Context)
    requires WellFormedStmt(s, cx) && NoThis(StmtLex(s))
    ensures E.EvaluableStmt(s, cx)
    decreases s, 0
  {
    hide ExprLex, ExprTree, StmtsLex, WellFormedExpr, WellFormedStmts, E.Evaluable;
    match s
    case Blank(_) =>
    case Assign(name, becomes, value, dot) =>
      NoThisParts([name, becomes] + ExprLex(value), [dot]);
      NoThisParts([name, becomes], ExprLex(value));
      ExprNoThis(value);
    case Drop(value, dot) =>
      NoThisParts(ExprLex(value), [dot]);
      ExprNoThis(value);
    case While(open, cond, close, key, bodyOpen, body, bodyClose, dot) =>
      var back := [key, bodyOpen] + StmtsLex(body) + [bodyClose] + [dot];
      NoThisParts([open] + ExprLex(cond) + [close], back);
      NoThisParts([open] + ExprLex(cond), [close]);
      NoThisParts([open], ExprLex(cond));
      NoThisParts([key, bodyOpen] + StmtsLex(body) + [bodyClose], [dot]);
      NoThisParts([key, bodyOpen] + StmtsLex(body), [bodyClose]);
      NoThisParts([key, bodyOpen], StmtsLex(body));
      ExprNoThis(cond);
      StmtsNoThis(body, cx);
  }

  lemma {:induction false} StmtsNoThis(s: Stmts, cx: Context)
    requires WellFormedStmts(s, cx) && NoThis(StmtsLex(s))
    ensures E.Evaluable(s, cx)
    decreases s, 1
  {
    hide ExprLex, ExprTree, StmtLex, WellFormedExpr, WellFormedStmt, E.EvaluableStmt;
    match s
    case End =>
    case Next(first, rest) =>
      NoThisParts(StmtLex(first), StmtsLex(rest));
      StmtNoThis(first, cx);
      StmtsNoThis(rest, cx);
    case LastAssign(name, becomes, value) =>
      NoThisParts([name, becomes], ExprLex(value));
      ExprNoThis(value);
    case Return(caret, value) =>
      NoThisParts([caret], ExprLex(value));
      ExprNoThis(value);
    case Value(value) =>
      ExprNoThis(value);
  }

  /** Without `thisContext` among its tokens, a method can be evaluated directly. */
  lemma MethodNoThis(m: Method, args: seq<string>, ivars: seq<string>)
    requires WellFormedMethod(m, args, ivars) && NoThis(MethodLex(m))
    ensures E.Evaluable(m.body, MethodContext(m, args, ivars))
  {
    hide StmtsLex;
    if m.bars != [] {
      NoThisParts([m.bars[0]] + m.temps + [m.bars[|m.bars| - 1]], StmtsLex(m.body));
    }
    StmtsNoThis(m.body, MethodContext(m, args, ivars));
  }
}
