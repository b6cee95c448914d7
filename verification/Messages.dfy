/**
 Messages, one after the other, on all tokens: what an expression sends to a name, and what a
 semicolon does, which is nothing.
 */
module Messages {
  import opened Lexer
  import opened Codegen
  import opened Trees

  /** The parse `p`, and then the messages that follow. */
  function ThenMessages(p: Parse, cx: Context): Parse { if p.Ok? then Continuation(p.rest, p.out, cx) else p }

  lemma {:induction false} UnaryAreMessages(toks: seq<Lexeme>, st: Output, cx: Context)
    ensures ThenMessages(UnaryTail(toks, st), cx) == Continuation(toks, st, cx)
    decreases |toks|
  {
    hide EmitSend, Continuation;
    if toks != [] && Head(toks).kind == Identifier {
      ContinuationName(toks, st, cx);
      SendAnywhere(Tail(toks), st, Head(toks).text, 0);
      var p := EmitSend(Tail(toks), st, Head(toks).text, 0);
      if p.Ok? {
        UnaryAreMessages(Tail(toks), p.out, cx);
      }
    }
  }

  lemma SendAnywhere(toks: seq<Lexeme>, st: Output, selector: string, argc: nat)
    ensures var p, q := EmitSend(toks, st, selector, argc), EmitSend([], st, selector, argc);
            (p.Ok? <==> q.Ok?) && (p.Ok? ==> p.out == q.out)
  {
  }

  lemma {:induction false} BinaryAreMessages(toks: seq<Lexeme>, st: Output, cx: Context)
    ensures ThenMessages(BinaryTail(toks, st, cx), cx) == Continuation(toks, st, cx)
    decreases |toks|
  {
    hide IsOp, BinaryPart, Continuation;
    if IsOp(Head(toks)) {
      ContinuationOp(toks, st, cx);
      var p := BinaryPart(toks, st, cx);
      if p.Ok? {
        BinaryAreMessages(p.rest, p.out, cx);
      }
    }
  }

  /** The route of a statement that starts with a name gives what an expression gives, on all tokens. */
  lemma NameIsExpression(toks: seq<Lexeme>, st: Output, cx: Context)
    requires Head(toks).kind == Identifier
    ensures Expression(toks, st, cx) == ThenMessages(EmitAtom(Head(toks), Tail(toks), st, cx), cx)
  {
    hide EmitAtom, UnaryTail, BinaryTail, Continuation;
    var p := EmitAtom(Head(toks), Tail(toks), st, cx);
    assert Primary(toks, st, cx) == p;
    if p.Ok? {
      var u := UnaryTail(p.rest, p.out);
      assert UnaryExpression(toks, st, cx) == u;
      UnaryAreMessages(p.rest, p.out, cx);
      if u.Ok? {
        assert BinaryExpression(toks, st, cx) == BinaryTail(u.rest, u.out, cx);
        BinaryAreMessages(u.rest, u.out, cx);
      } else {
        assert BinaryExpression(toks, st, cx) == u;
      }
    } else {
      assert UnaryExpression(toks, st, cx) == p;
      assert BinaryExpression(toks, st, cx) == p;
    }
  }

  /**
   A semicolon is passed over: the message after it goes to the answer of the one before it, as it
   would without the semicolon, and not to the receiver of that one.
   */
  lemma {:induction false} CascadeIsChain(names: seq<Lexeme>, semicolon: Lexeme, rest: seq<Lexeme>, st: Output,
                                          cx: Context)
    requires forall i :: 0 <= i < |names| ==> names[i].token.kind == Identifier
    requires IsSpecial(semicolon.token, ";")
    ensures Continuation(names + [semicolon] + rest, st, cx) == Continuation(names + rest, st, cx)
    decreases |names|
  {
    hide EmitSend;
    if names == [] {
      SemicolonSkipped(semicolon, rest, st, cx);
      assert [] + [semicolon] + rest == [semicolon] + rest && [] + rest == rest;
    } else {
      hide Continuation;
      var a, b := names + [semicolon] + rest, names + rest;
      assert a[0] == names[0] && a[1..] == names[1..] + [semicolon] + rest;
      assert b[0] == names[0] && b[1..] == names[1..] + rest;
      ContinuationName(a, st, cx);
      ContinuationName(b, st, cx);
      var p := EmitSend([], st, names[0].token.text, 0);
      if p.Ok? {
        CascadeIsChain(names[1..], semicolon, rest, p.out, cx);
      }
    }
  }

  lemma SemicolonSkipped(semicolon: Lexeme, rest: seq<Lexeme>, st: Output, cx: Context)
    requires IsSpecial(semicolon.token, ";")
    ensures Continuation([semicolon] + rest, st, cx) == Continuation(rest, st, cx)
  {
    var toks := [semicolon] + rest;
    assert Head(toks) == semicolon.token && Tail(toks) == rest;
    hide Message;
  }

  /** So it is for a whole expression that starts with a name: `a foo; bar` is `a foo bar`. */
  lemma CascadeExpression(name: Lexeme, names: seq<Lexeme>, semicolon: Lexeme, rest: seq<Lexeme>, st: Output,
                          cx: Context)
    requires name.token.kind == Identifier && forall i :: 0 <= i < |names| ==> names[i].token.kind == Identifier
    requires IsSpecial(semicolon.token, ";")
    ensures Expression([name] + (names + [semicolon] + rest), st, cx) == Expression([name] + (names + rest), st, cx)
  {
    hide Expression, Continuation, EmitAtom;
    var a, b := [name] + (names + [semicolon] + rest), [name] + (names + rest);
    assert Head(a) == Head(b) == name.token && Tail(a) == names + [semicolon] + rest && Tail(b) == names + rest;
    NameIsExpression(a, st, cx);
    NameIsExpression(b, st, cx);
    var p, q := EmitAtom(name.token, Tail(a), st, cx), EmitAtom(name.token, Tail(b), st, cx);
    SameAtom(name.token, Tail(a), Tail(b), st, cx);
    if p.Ok? {
      CascadeIsChain(names, semicolon, rest, p.out, cx);
    }
  }

  lemma SameAtom(t: Token, a: seq<Lexeme>, b: seq<Lexeme>, st: Output, cx: Context)
    ensures var p, q := EmitAtom(t, a, st, cx), EmitAtom(t, b, st, cx);
            (p.Ok? <==> q.Ok?) && (p.Ok? ==> p.out == q.out && p.rest == a && q.rest == b)
  {
    hide Find, OuterArgSlot, OuterTempSlot, TempSlot, U32, FindLiteral, Interned;
  }
}
