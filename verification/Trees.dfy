/**
 Precedence trees of cascade-free Smalltalk, with every token in its place, and the
 postfix code of the send tree each of them stands for.  The theorems: the parser of
 `Codegen`, run on the tokens of a tree, consumes exactly those tokens and emits exactly
 that code.
 */
module Trees {
  import opened Lexer
  import opened Codegen

  // ----------------------------------------------------------------- concrete syntax

  datatype Prim =
    | Atom(lex: Lexeme)
    | Paren(open: Lexeme, inner: Expr, close: Lexeme)
    | Array(open: Lexeme, items: seq<Lexeme>, close: Lexeme)

  datatype Unary = Unary(prim: Prim, messages: seq<Lexeme>)

  /** The binary messages after a unary expression, left to right. */
  datatype Binaries = NoBinary | BinaryMessage(op: seq<Lexeme>, arg: Unary, more: Binaries)

  datatype Binary = Binary(first: Unary, tail: Binaries)

  /** The parts of one keyword message. */
  datatype Keywords = NoKeyword | KeywordPart(key: Lexeme, arg: Binary, more: Keywords)

  datatype Expr = Expr(head: Binary, keywords: Keywords)

  function PrimLex(p: Prim): seq<Lexeme> {
    match p
    case Atom(lex) => [lex]
    case Paren(open, inner, close) => [open] + ExprLex(inner) + [close]
    case Array(open, items, close) => [open] + items + [close]
  }

  function UnaryLex(u: Unary): seq<Lexeme> { PrimLex(u.prim) + u.messages }

  function BinariesLex(b: Binaries): seq<Lexeme> {
    match b
    case NoBinary => []
    case BinaryMessage(op, arg, more) => op + UnaryLex(arg) + BinariesLex(more)
  }

  function BinaryLex(b: Binary): seq<Lexeme> { UnaryLex(b.first) + BinariesLex(b.tail) }

  function KeywordsLex(k: Keywords): seq<Lexeme> {
    match k
    case NoKeyword => []
    case KeywordPart(key, arg, more) => [key] + BinaryLex(arg) + KeywordsLex(more)
  }

  function ExprLex(e: Expr): seq<Lexeme> { BinaryLex(e.head) + KeywordsLex(e.keywords) }

  /** The bracket depth after `items`, from depth `d`; 0 when the outermost bracket closes. */
  function DepthAfter(items: seq<Lexeme>, opening: string, closing: string, d: nat): nat
  {
    if items == [] || d == 0 then d
    else
      var t := items[0].token;
      if t.kind == Eof then 0
      else
        DepthAfter(items[1..], opening, closing,
                   if IsSpecial(t, closing) then d - 1 else if IsSpecial(t, opening) then d + 1 else d)
  }

  predicate NoBracket(l: Lexeme) {
    l.token.kind != Eof && !IsSpecial(l.token, "[") && !IsSpecial(l.token, "]") && |l.token.text| <= TEXT_MAX
  }

  predicate WellFormedOp(op: seq<Lexeme>) {
    (|op| == 1 || |op| == 2) && forall i :: 0 <= i < |op| ==> IsOp(op[i].token)
  }

  predicate WellFormedPrim(p: Prim) {
    match p
    case Atom(lex) => lex.token.kind in {Identifier, Integer, Character, String, Symbol} && NoBracket(lex)
    case Paren(open, inner, close) =>
      IsSpecial(open.token, "(") && WellFormedExpr(inner) && IsSpecial(close.token, ")")
    case Array(open, items, close) =>
      && IsSpecial(open.token, "#(") && IsSpecial(close.token, ")")
      && (forall i :: 0 <= i < |items| ==> NoBracket(items[i]))
      && DepthAfter(items, "#(", ")", 1) == 1
      && 2 + |Raw(items + [close])| <= TEXT_MAX
  }

  predicate WellFormedUnary(u: Unary) {
    && WellFormedPrim(u.prim)
    && forall i :: 0 <= i < |u.messages| ==> u.messages[i].token.kind == Identifier && NoBracket(u.messages[i])
  }

  predicate WellFormedBinaries(b: Binaries) {
    match b
    case NoBinary => true
    case BinaryMessage(op, arg, more) => WellFormedOp(op) && WellFormedUnary(arg) && WellFormedBinaries(more)
  }

  predicate WellFormedBinary(b: Binary) { WellFormedUnary(b.first) && WellFormedBinaries(b.tail) }

  predicate WellFormedKeywords(k: Keywords) {
    match k
    case NoKeyword => true
    case KeywordPart(key, arg, more) =>
      key.token.kind == Keyword && NoBracket(key) && WellFormedBinary(arg) && WellFormedKeywords(more)
  }

  predicate WellFormedExpr(e: Expr) {
    WellFormedBinary(e.head) && WellFormedKeywords(e.keywords)
  }

  // ----------------------------------------------------------------- send trees

  datatype Term = Leaf(token: Token) | Send(receiver: Term, selector: string, args: Args)

  /** Argument lists, last argument outermost. */
  datatype Args = NoArgs | Plus(front: Args, last: Term)

  function Count(a: Args): nat { if a.NoArgs? then 0 else Count(a.front) + 1 }

  function OpSelector(op: seq<Lexeme>): string
    requires WellFormedOp(op)
  {
    if |op| == 1 then op[0].token.text else op[0].token.text + op[1].token.text
  }

  function KeywordSelector(k: Keywords): string {
    match k
    case NoKeyword => ""
    case KeywordPart(key, _, more) => key.token.text + KeywordSelector(more)
  }

  function PrimTree(p: Prim): Term
    requires WellFormedPrim(p)
    decreases p, 0
  {
    match p
    case Atom(lex) => Leaf(lex.token)
    case Paren(_, inner, _) => ExprTree(inner)
    case Array(_, items, close) => Leaf(Token(LiteralArray, "#(" + Raw(items + [close]), 0))
  }

  function UnaryOn(receiver: Term, messages: seq<Lexeme>): Term
    decreases |messages|
  {
    if messages == [] then receiver
    else UnaryOn(Send(receiver, messages[0].token.text, NoArgs), messages[1..])
  }

  function UnaryTree(u: Unary): Term
    requires WellFormedUnary(u)
    decreases u, 0
  {
    UnaryOn(PrimTree(u.prim), u.messages)
  }

  function BinaryOn(receiver: Term, b: Binaries): Term
    requires WellFormedBinaries(b)
    decreases b, 0
  {
    match b
    case NoBinary => receiver
    case BinaryMessage(op, arg, more) =>
      BinaryOn(Send(receiver, OpSelector(op), Plus(NoArgs, UnaryTree(arg))), more)
  }

  function BinaryTree(b: Binary): Term
    requires WellFormedBinary(b)
    decreases b, 0
  {
    BinaryOn(UnaryTree(b.first), b.tail)
  }

  function KeywordArgs(front: Args, k: Keywords): Args
    requires WellFormedKeywords(k)
    decreases k, 0
  {
    match k
    case NoKeyword => front
    case KeywordPart(_, arg, more) => KeywordArgs(Plus(front, BinaryTree(arg)), more)
  }

  /** The message of keyword parts to a receiver; of a long selector the rest is lost. */
  function KeywordOn(receiver: Term, k: Keywords): Term
    requires WellFormedKeywords(k)
    decreases k, 1
  {
    if k.NoKeyword? then receiver else Send(receiver, Clip(KeywordSelector(k), SELECTOR_MAX), KeywordArgs(NoArgs, k))
  }

  function ExprTree(e: Expr): Term
    requires WellFormedExpr(e)
    decreases e, 0
  {
    KeywordOn(BinaryTree(e.head), e.keywords)
  }

  // ----------------------------------------------------------------- postfix code

  /** Postfix code: the receiver, the arguments left to right, then the send. */
  function Gen(t: Term, st: Output, cx: Context): (r: Parse)
    ensures r.Ok? ==> r.rest == [] && Grows(st, r.out)
    ensures !r.Fail?
    decreases t
  {
    match t
    case Leaf(token) => EmitAtom(token, [], st, cx)
    case Send(receiver, selector, args) =>
      var (_, s1) :- Gen(receiver, st, cx);
      var (_, s2) :- GenArgs(args, s1, cx);
      EmitSend([], s2, selector, Count(args))
  }

  function GenArgs(a: Args, st: Output, cx: Context): (r: Parse)
    ensures r.Ok? ==> r.rest == [] && Grows(st, r.out)
    ensures !r.Fail?
    decreases a
  {
    match a
    case NoArgs => Ok([], st)
    case Plus(front, last) =>
      var (_, s1) :- GenArgs(front, st, cx);
      Gen(last, s1, cx)
  }

  /** The same outcome with `toks` still unread. */
  function With(p: Parse, toks: seq<Lexeme>): Parse {
    if p.Ok? then Ok(toks, p.out) else p
  }

  // ----------------------------------------------------------------- brackets

  lemma {:induction false} DepthAfterConcat(a: seq<Lexeme>, b: seq<Lexeme>, o: string, c: string, d: nat)
    ensures DepthAfter(a + b, o, c, d) == DepthAfter(b, o, c, DepthAfter(a, o, c, d))
  {
    if a == [] {
      assert a + b == b;
    } else {
      assert (a + b)[1..] == a[1..] + b;
      if d > 0 && a[0].token.kind != Eof {
        var t := a[0].token;
        DepthAfterConcat(a[1..], b, o, c, if IsSpecial(t, c) then d - 1 else if IsSpecial(t, o) then d + 1 else d);
      }
    }
  }

  /** The scan for a closing bracket stops at the bracket that closes balanced items. */
  lemma {:induction false} CloseAtNested(items: seq<Lexeme>, close: Lexeme, rest: seq<Lexeme>, o: string, c: string,
                                         d: nat)
    requires o != c && DepthAfter(items, o, c, d) == 1 && IsSpecial(close.token, c)
    ensures d > 0 && CloseAt(items + [close] + rest, o, c, d) == |items| + 1
  {
    var all := items + [close] + rest;
    if items == [] {
      assert all[0] == close;
    } else {
      assert all[0] == items[0];
      assert all[1..] == items[1..] + [close] + rest;
      var t := items[0].token;
      var e := if IsSpecial(t, c) then d - 1 else if IsSpecial(t, o) then d + 1 else d;
      CloseAtNested(items[1..], close, rest, o, c, e);
    }
  }

  // ----------------------------------------------------------------- expressions

  /** What may follow a whole expression. */
  predicate EndsExpression(rest: seq<Lexeme>) {
    rest == [] || IsTerminator(Head(rest))
  }

  lemma PrimStarts(p: Prim)
    requires WellFormedPrim(p)
    ensures PrimLex(p) != [] && !IsOp(PrimLex(p)[0].token) && PrimLex(p)[0].token.kind != Eof
    ensures !IsSpecial(PrimLex(p)[0].token, ":=") && !IsSpecial(PrimLex(p)[0].token, "[")
    ensures !IsSpecial(PrimLex(p)[0].token, ".") && !IsSpecial(PrimLex(p)[0].token, "^")
  {
  }

  lemma {:induction false} GenUnaryOverflow(t: Term, messages: seq<Lexeme>, st: Output, cx: Context)
    requires Gen(t, st, cx).Overflow?
    ensures Gen(UnaryOn(t, messages), st, cx).Overflow?
    decreases |messages|
  {
    if messages != [] {
      GenUnaryOverflow(Send(t, messages[0].token.text, NoArgs), messages[1..], st, cx);
    }
  }

  lemma {:induction false} GenBinaryOverflow(t: Term, b: Binaries, st: Output, cx: Context)
    requires WellFormedBinaries(b) && Gen(t, st, cx).Overflow?
    ensures Gen(BinaryOn(t, b), st, cx).Overflow?
    decreases b
  {
    if b.BinaryMessage? {
      GenBinaryOverflow(Send(t, OpSelector(b.op), Plus(NoArgs, UnaryTree(b.arg))), b.more, st, cx);
    }
  }

  lemma {:induction false} GenArgsOverflow(front: Args, k: Keywords, st: Output, cx: Context)
    requires WellFormedKeywords(k) && GenArgs(front, st, cx).Overflow?
    ensures GenArgs(KeywordArgs(front, k), st, cx).Overflow?
    decreases k
  {
    if k.KeywordPart? {
      GenArgsOverflow(Plus(front, BinaryTree(k.arg)), k.more, st, cx);
    }
  }

  lemma EmitWith(toks: seq<Lexeme>, st: Output, op: Byte, t: Token, more: seq<Byte>)
    ensures EmitRef(toks, st, op, t, more) == With(EmitRef([], st, op, t, more), toks)
  {
  }

  lemma SendWith(toks: seq<Lexeme>, st: Output, selector: string, argc: nat)
    ensures EmitSend(toks, st, selector, argc) == With(EmitSend([], st, selector, argc), toks)
  {
  }

  lemma AtomWith(t: Token, toks: seq<Lexeme>, st: Output, cx: Context)
    ensures EmitAtom(t, toks, st, cx) == With(EmitAtom(t, [], st, cx), toks)
  {
    hide Find, OuterArgSlot, OuterTempSlot, TempSlot, U32;
  }

  lemma ParseArray(open: Lexeme, items: seq<Lexeme>, close: Lexeme, rest: seq<Lexeme>, st: Output, cx: Context)
    requires WellFormedPrim(Array(open, items, close))
    ensures EmitPrimary(open.token, items + [close] + rest, st, cx)
         == With(EmitRef([], st, PUSH_LITERAL, Token(LiteralArray, "#(" + Raw(items + [close]), 0), []), rest)
  {
    hide EmitRef, Raw, CloseAt, DepthAfter, EmitAtom, Expression;
    var tail := items + [close] + rest;
    CloseAtNested(items, close, rest, "#(", ")", 1);
    assert tail[..|items| + 1] == items + [close];
    assert tail[|items| + 1..] == rest;
    EmitWith(rest, st, PUSH_LITERAL, Token(LiteralArray, "#(" + Raw(items + [close]), 0), []);
  }

  lemma ParenStep(open: Lexeme, close: Lexeme, toks: seq<Lexeme>, rest: seq<Lexeme>, p: Parse, st: Output, cx: Context)
    requires IsSpecial(open.token, "(") && IsSpecial(close.token, ")")
    requires Expression(toks, st, cx) == With(p, [close] + rest) && !p.Fail?
    ensures EmitPrimary(open.token, toks, st, cx) == With(p, rest)
  {
    hide Expression;
    assert ([close] + rest)[0] == close && ([close] + rest)[1..] == rest;
  }

  lemma {:induction false} ParsePrim(p: Prim, rest: seq<Lexeme>, st: Output, cx: Context)
    requires WellFormedPrim(p)
    ensures Primary(PrimLex(p) + rest, st, cx) == With(Gen(PrimTree(p), st, cx), rest)
    decreases p, 0
  {
    hide EmitPrimary, ExprTree, Raw;
    var all := PrimLex(p) + rest;
    match p
    case Atom(lex) =>
      assert all[0] == lex && all[1..] == rest;
      AtomWith(lex.token, rest, st, cx);
      ParseAtom(lex.token, rest, st, cx);
    case Paren(open, inner, close) =>
      assert all[0] == open && all[1..] == ExprLex(inner) + ([close] + rest);
      ParseExpr(inner, [close] + rest, st, cx);
      ParenStep(open, close, all[1..], rest, Gen(ExprTree(inner), st, cx), st, cx);
    case Array(open, items, close) =>
      assert all[0] == open && all[1..] == items + [close] + rest;
      ParseArray(open, items, close, rest, st, cx);
  }

  lemma ParseAtom(t: Token, rest: seq<Lexeme>, st: Output, cx: Context)
    requires t.kind in {Identifier, Integer, Character, String, Symbol}
    ensures EmitPrimary(t, rest, st, cx) == EmitAtom(t, rest, st, cx)
  {
    hide EmitAtom;
  }

  lemma {:induction false} ParseUnaryTail(t: Term, messages: seq<Lexeme>, rest: seq<Lexeme>, st0: Output, st: Output,
                                          cx: Context)
    requires forall i :: 0 <= i < |messages| ==> messages[i].token.kind == Identifier && NoBracket(messages[i])
    requires Gen(t, st0, cx) == Ok([], st)
    requires Head(rest).kind != Identifier
    ensures UnaryTail(messages + rest, st) == With(Gen(UnaryOn(t, messages), st0, cx), rest)
    decreases |messages|
  {
    if messages == [] {
      assert messages + rest == rest;
    } else {
      var all, m := messages + rest, messages[0].token;
      assert all[0] == messages[0] && all[1..] == messages[1..] + rest;
      var next := Send(t, m.text, NoArgs);
      assert Gen(next, st0, cx) == EmitSend([], st, m.text, 0);
      match EmitSend([], st, m.text, 0)
      case Ok(_, s1) => ParseUnaryTail(next, messages[1..], rest, st0, s1, cx);
      case Overflow => GenUnaryOverflow(next, messages[1..], st0, cx);
    }
  }

  lemma {:induction false} ParseUnary(u: Unary, rest: seq<Lexeme>, st: Output, cx: Context)
    requires WellFormedUnary(u) && Head(rest).kind != Identifier
    ensures UnaryExpression(UnaryLex(u) + rest, st, cx) == With(Gen(UnaryTree(u), st, cx), rest)
    decreases u, 0
  {
    assert UnaryLex(u) + rest == PrimLex(u.prim) + (u.messages + rest);
    ParsePrim(u.prim, u.messages + rest, st, cx);
    var t := PrimTree(u.prim);
    match Gen(t, st, cx)
    case Ok(_, s1) => ParseUnaryTail(t, u.messages, rest, st, s1, cx);
    case Overflow => GenUnaryOverflow(t, u.messages, st, cx);
  }

  lemma OpShape(op: seq<Lexeme>, arg: Unary, rest: seq<Lexeme>)
    requires WellFormedOp(op) && WellFormedUnary(arg)
    ensures var all := op + UnaryLex(arg) + rest;
            && Head(all) == op[0].token && IsOp(Head(all))
            && OpText(all) == OpSelector(op) && AfterOp(all) == UnaryLex(arg) + rest
  {
    hide PrimLex, WellFormedPrim;
    var all := op + UnaryLex(arg) + rest;
    PrimStarts(arg.prim);
    var tail := UnaryLex(arg) + rest;
    assert tail[0] == PrimLex(arg.prim)[0];
    assert all[0] == op[0];
    if |op| == 1 {
      assert all[1..] == tail;
    } else {
      assert all[1] == op[1] && all[1..][0] == op[1];
      assert all[1..][1..] == tail;
    }
  }

  /** One binary message: its operator, its argument and its send. */
  lemma {:induction false} ParseBinaryPart(t: Term, op: seq<Lexeme>, arg: Unary, rest: seq<Lexeme>, st0: Output,
                                           st: Output, cx: Context)
    requires WellFormedOp(op) && WellFormedUnary(arg)
    requires Gen(t, st0, cx) == Ok([], st)
    requires Head(rest).kind != Identifier
    ensures var all := op + UnaryLex(arg) + rest;
            && Head(all) == op[0].token && IsOp(Head(all))
            && BinaryPart(all, st, cx) == With(Gen(Send(t, OpSelector(op), Plus(NoArgs, UnaryTree(arg))), st0, cx),
                                               rest)
    decreases arg, 1
  {
    hide UnaryExpression, UnaryLex, OpText, AfterOp, OpSelector;
    var all := op + UnaryLex(arg) + rest;
    OpShape(op, arg, rest);
    ParseUnary(arg, rest, st, cx);
    assert Count(Plus(NoArgs, UnaryTree(arg))) == 1;
    assert GenArgs(Plus(NoArgs, UnaryTree(arg)), st, cx) == Gen(UnaryTree(arg), st, cx);
  }

  lemma BinariesStart(b: Binaries, rest: seq<Lexeme>)
    requires WellFormedBinaries(b) && Head(rest).kind != Identifier
    ensures Head(BinariesLex(b) + rest).kind != Identifier
    ensures b.BinaryMessage? ==> BinariesLex(b) + rest == b.op + UnaryLex(b.arg) + (BinariesLex(b.more) + rest)
    ensures b.NoBinary? ==> BinariesLex(b) + rest == rest
  {
    hide UnaryLex, WellFormedUnary;
    if b.BinaryMessage? {
      Regroup(b.op, UnaryLex(b.arg), BinariesLex(b.more), rest);
    }
  }

  lemma {:induction false} ParseBinaryTail(t: Term, b: Binaries, rest: seq<Lexeme>, st0: Output, st: Output,
                                           cx: Context)
    requires WellFormedBinaries(b)
    requires Gen(t, st0, cx) == Ok([], st)
    requires Head(rest).kind != Identifier && !IsOp(Head(rest))
    ensures BinaryTail(BinariesLex(b) + rest, st, cx) == With(Gen(BinaryOn(t, b), st0, cx), rest)
    decreases b, 1
  {
    BinariesStart(b, rest);
    if b.BinaryMessage? {
      BinariesStart(b.more, rest);
      ParseBinaryPart(t, b.op, b.arg, BinariesLex(b.more) + rest, st0, st, cx);
      var next := Send(t, OpSelector(b.op), Plus(NoArgs, UnaryTree(b.arg)));
      match Gen(next, st0, cx)
      case Ok(_, s1) => ParseBinaryTail(next, b.more, rest, st0, s1, cx);
      case Overflow => GenBinaryOverflow(next, b.more, st0, cx);
    }
  }

  lemma {:induction false} ParseBinary(b: Binary, rest: seq<Lexeme>, st: Output, cx: Context)
    requires WellFormedBinary(b)
    requires Head(rest).kind != Identifier && !IsOp(Head(rest))
    ensures BinaryExpression(BinaryLex(b) + rest, st, cx) == With(Gen(BinaryTree(b), st, cx), rest)
    decreases b, 0
  {
    assert BinaryLex(b) + rest == UnaryLex(b.first) + (BinariesLex(b.tail) + rest);
    BinariesStart(b.tail, rest);
    ParseUnary(b.first, BinariesLex(b.tail) + rest, st, cx);
    var t := UnaryTree(b.first);
    match Gen(t, st, cx)
    case Ok(_, s1) => ParseBinaryTail(t, b.tail, rest, st, s1, cx);
    case Overflow => GenBinaryOverflow(t, b.tail, st, cx);
  }

  lemma KeywordsStart(k: Keywords, rest: seq<Lexeme>)
    requires WellFormedKeywords(k) && EndsExpression(rest)
    ensures var h := Head(KeywordsLex(k) + rest); h.kind != Identifier && !IsOp(h)
    ensures k.KeywordPart? ==> KeywordsLex(k) + rest == [k.key] + BinaryLex(k.arg) + (KeywordsLex(k.more) + rest)
    ensures k.KeywordPart? <==> Head(KeywordsLex(k) + rest).kind == Keyword
    ensures k.NoKeyword? ==> KeywordsLex(k) + rest == rest
  {
    hide BinaryLex, WellFormedBinary;
    if k.KeywordPart? {
      Regroup([k.key], BinaryLex(k.arg), KeywordsLex(k.more), rest);
    }
  }

  lemma Regroup(a: seq<Lexeme>, b: seq<Lexeme>, c: seq<Lexeme>, d: seq<Lexeme>)
    ensures a + b + c + d == a + b + (c + d)
    ensures a != [] ==> (a + b + c + d)[0] == a[0] && (a + b + (c + d))[0] == a[0]
  {
  }

  /** The end of a keyword message: its last argument is parsed, and the send is emitted. */
  lemma LastKeyword(key: Token, toks: seq<Lexeme>, rest: seq<Lexeme>, p: Parse, st: Output, cx: Context,
                    before: string, argc: nat)
    requires EndsExpression(rest)
    requires BinaryExpression(toks, st, cx) == With(p, rest) && !p.Fail?
    ensures KeywordMessage(key, toks, st, cx, before, argc)
         == if p.Ok? then With(EmitSend([], p.out, Clip(before + key.text, SELECTOR_MAX), argc + 1), rest) else Overflow
  {
    hide BinaryExpression, EmitSend, Clip;
    if p.Ok? {
      SendWith(rest, p.out, Clip(before + key.text, SELECTOR_MAX), argc + 1);
    }
  }

  lemma NextKeyword(key: Token, toks: seq<Lexeme>, after: seq<Lexeme>, p: Parse, st: Output, cx: Context,
                    before: string, argc: nat)
    requires Head(after).kind == Keyword
    requires BinaryExpression(toks, st, cx) == With(p, after) && !p.Fail?
    ensures KeywordMessage(key, toks, st, cx, before, argc)
         == if p.Ok? then
              KeywordMessage(Head(after), Tail(after), p.out, cx, Clip(before + key.text, SELECTOR_MAX), argc + 1)
            else Overflow
  {
    hide BinaryExpression, EmitSend, Clip;
  }

  lemma GenPlus(front: Args, last: Term, s0: Output, st: Output, cx: Context)
    requires GenArgs(front, s0, cx) == Ok([], st)
    ensures GenArgs(Plus(front, last), s0, cx) == Gen(last, st, cx)
    ensures Count(Plus(front, last)) == Count(front) + 1
  {
  }

  lemma GenSend(t: Term, selector: string, args: Args, st0: Output, s0: Output, cx: Context)
    requires Gen(t, st0, cx) == Ok([], s0)
    ensures var r := GenArgs(args, s0, cx);
            Gen(Send(t, selector, args), st0, cx) == if r.Ok? then EmitSend([], r.out, selector, Count(args))
                                                                   else Overflow
  {
  }

  lemma KeywordUnfold(front: Args, k: Keywords, before: string)
    requires WellFormedKeywords(k) && k.KeywordPart?
    ensures KeywordArgs(front, k) == KeywordArgs(Plus(front, BinaryTree(k.arg)), k.more)
    ensures Clip(before + KeywordSelector(k), SELECTOR_MAX)
            == Clip(Clip(before + k.key.token.text, SELECTOR_MAX) + KeywordSelector(k.more), SELECTOR_MAX)
    ensures k.more.NoKeyword? ==>
              && KeywordArgs(front, k) == Plus(front, BinaryTree(k.arg))
              && Clip(before + KeywordSelector(k), SELECTOR_MAX) == Clip(before + k.key.token.text, SELECTOR_MAX)
  {
    assert before + KeywordSelector(k) == before + k.key.token.text + KeywordSelector(k.more);
    ClipTwice(before + k.key.token.text, KeywordSelector(k.more), SELECTOR_MAX);
  }

  lemma ClipTwice(a: string, b: string, cap: nat)
    ensures Clip(Clip(a, cap) + b, cap) == Clip(a + b, cap)
    ensures b == "" ==> Clip(a + b, cap) == Clip(a, cap)
  {
    assert b == "" ==> a + b == a;
  }

  /** A keyword message from one of its parts on: `before` is the selector read so far. */
  lemma {:induction false} ParseKeywords(t: Term, front: Args, k: Keywords, before: string, rest: seq<Lexeme>,
                                         st0: Output, s0: Output, st: Output, cx: Context)
    requires WellFormedKeywords(k) && k.KeywordPart? && EndsExpression(rest)
    requires Gen(t, st0, cx) == Ok([], s0) && GenArgs(front, s0, cx) == Ok([], st)
    ensures KeywordMessage(k.key.token, BinaryLex(k.arg) + (KeywordsLex(k.more) + rest), st, cx, before, Count(front))
         == With(Gen(Send(t, Clip(before + KeywordSelector(k), SELECTOR_MAX), KeywordArgs(front, k)), st0, cx), rest)
    decreases k, 1
  {
    hide BinaryExpression, BinaryLex, KeywordsLex, EmitSend, BinaryTree, KeywordMessage, Gen, GenArgs, KeywordArgs,
         KeywordSelector, Clip, Count;
    var after := KeywordsLex(k.more) + rest;
    KeywordsStart(k.more, rest);
    ParseBinary(k.arg, after, st, cx);
    var arg := BinaryTree(k.arg);
    var args := Plus(front, arg);
    var selector := Clip(before + k.key.token.text, SELECTOR_MAX);
    KeywordUnfold(front, k, before);
    GenPlus(front, arg, s0, st, cx);
    GenSend(t, Clip(before + KeywordSelector(k), SELECTOR_MAX), KeywordArgs(front, k), st0, s0, cx);
    var p := Gen(arg, st, cx);
    if k.more.KeywordPart? {
      NextKeyword(k.key.token, BinaryLex(k.arg) + after, after, p, st, cx, before, Count(front));
      KeywordsTail(k.more, rest);
      match p
      case Overflow => GenArgsOverflow(args, k.more, s0, cx);
      case Ok(_, s1) => ParseKeywords(t, args, k.more, selector, rest, st0, s0, s1, cx);
    } else {
      LastKeyword(k.key.token, BinaryLex(k.arg) + after, rest, p, st, cx, before, Count(front));
    }
  }

  lemma KeywordsTail(k: Keywords, rest: seq<Lexeme>)
    requires k.KeywordPart?
    ensures Head(KeywordsLex(k) + rest) == k.key.token
    ensures Tail(KeywordsLex(k) + rest) == BinaryLex(k.arg) + (KeywordsLex(k.more) + rest)
  {
    assert KeywordsLex(k) + rest == [k.key] + (BinaryLex(k.arg) + (KeywordsLex(k.more) + rest));
  }

  lemma ContinuationEnds(rest: seq<Lexeme>, st: Output, cx: Context)
    requires EndsExpression(rest)
    ensures Continuation(rest, st, cx) == Ok(rest, st)
  {
  }

  lemma GenArgsNone(st: Output, cx: Context)
    ensures GenArgs(NoArgs, st, cx) == Ok([], st) && Count(NoArgs) == 0
  {
  }

  lemma ContinuationKeyword(toks: seq<Lexeme>, st: Output, cx: Context)
    requires toks != [] && Head(toks).kind == Keyword
    ensures Continuation(toks, st, cx) ==
            var p := KeywordMessage(Head(toks), Tail(toks), st, cx, "", 0);
            if p.Ok? then Continuation(p.rest, p.out, cx) else p
  {
    hide KeywordMessage;
  }

  lemma ContinuationName(toks: seq<Lexeme>, st: Output, cx: Context)
    requires toks != [] && Head(toks).kind == Identifier
    ensures Continuation(toks, st, cx) ==
            var p := EmitSend([], st, Head(toks).text, 0);
            if p.Ok? then Continuation(Tail(toks), p.out, cx) else p
  {
    hide KeywordMessage, BinaryPart;
  }

  lemma {:induction false} ParseKeywordTail(t: Term, k: Keywords, rest: seq<Lexeme>, st0: Output, st: Output,
                                            cx: Context)
    requires WellFormedKeywords(k) && EndsExpression(rest)
    requires Gen(t, st0, cx) == Ok([], st)
    ensures Continuation(KeywordsLex(k) + rest, st, cx) == With(Gen(KeywordOn(t, k), st0, cx), rest)
    decreases k, 2
  {
    hide Continuation, KeywordMessage, KeywordsLex, Gen;
    KeywordsStart(k, rest);
    if k.NoKeyword? {
      ContinuationEnds(rest, st, cx);
    } else {
      KeywordsTail(k, rest);
      ContinuationKeyword(KeywordsLex(k) + rest, st, cx);
      GenArgsNone(st, cx);
      ParseKeywords(t, NoArgs, k, "", rest, st0, st, st, cx);
      assert "" + KeywordSelector(k) == KeywordSelector(k);
      match Gen(KeywordOn(t, k), st0, cx)
      case Ok(_, s1) => ContinuationEnds(rest, s1, cx);
      case Overflow =>
    }
  }

  lemma GenKeywordOverflow(t: Term, k: Keywords, st: Output, cx: Context)
    requires WellFormedKeywords(k) && Gen(t, st, cx).Overflow?
    ensures Gen(KeywordOn(t, k), st, cx).Overflow?
  {
  }

  /**
   The parser with one token of lookahead, run on the tokens of any precedence tree with
   anything after it that ends an expression: it leaves exactly what follows, and its
   output is the postfix code of the tree.
   */
  lemma {:induction false} ParseExpr(e: Expr, rest: seq<Lexeme>, st: Output, cx: Context)
    requires WellFormedExpr(e) && EndsExpression(rest)
    ensures Expression(ExprLex(e) + rest, st, cx) == With(Gen(ExprTree(e), st, cx), rest)
    decreases e, 3
  {
    assert ExprLex(e) + rest == BinaryLex(e.head) + (KeywordsLex(e.keywords) + rest);
    KeywordsStart(e.keywords, rest);
    ParseBinary(e.head, KeywordsLex(e.keywords) + rest, st, cx);
    var t := BinaryTree(e.head);
    match Gen(t, st, cx)
    case Ok(_, s1) => ParseKeywordTail(t, e.keywords, rest, st, s1, cx);
    case Overflow => GenKeywordOverflow(t, e.keywords, st, cx);
  }

  // ----------------------------------------------------------------- the second route

  lemma ContinuationOp(toks: seq<Lexeme>, st: Output, cx: Context)
    requires IsOp(Head(toks))
    ensures Continuation(toks, st, cx) ==
            var p := BinaryPart(toks, st, cx); if p.Ok? then Continuation(p.rest, p.out, cx) else p
  {
    OpIsNoEnd(Head(toks));
    hide BinaryPart, KeywordMessage, EmitSend, IsOp, IsTerminator, IsSpecial, Grows;
  }

  lemma OpIsNoEnd(t: Token)
    requires IsOp(t)
    ensures !IsTerminator(t) && !IsSpecial(t, ";") && t.kind == Special
  {
  }

  /** One binary message after a value already compiled. */
  lemma ContinueBinaryStep(t: Term, b: Binaries, end: seq<Lexeme>, st0: Output, st: Output, cx: Context)
    requires WellFormedBinaries(b) && b.BinaryMessage? && Head(end).kind != Identifier
    requires Gen(t, st0, cx) == Ok([], st)
    ensures var p := Gen(Send(t, OpSelector(b.op), Plus(NoArgs, UnaryTree(b.arg))), st0, cx);
            Continuation(BinariesLex(b) + end, st, cx)
            == if p.Ok? then Continuation(BinariesLex(b.more) + end, p.out, cx) else p
  {
    hide UnaryLex, BinaryPart, Gen, Continuation, OpSelector, BinariesLex, WellFormedUnary, UnaryTree, IsOp;
    BinariesStart(b, end);
    BinariesStart(b.more, end);
    var after := BinariesLex(b.more) + end;
    ParseBinaryPart(t, b.op, b.arg, after, st0, st, cx);
    ContinuationOp(b.op + UnaryLex(b.arg) + after, st, cx);
  }

  lemma BinaryOnStep(t: Term, b: Binaries)
    requires WellFormedBinaries(b) && b.BinaryMessage?
    ensures WellFormedBinaries(b.more)
    ensures BinaryOn(t, b) == BinaryOn(Send(t, OpSelector(b.op), Plus(NoArgs, UnaryTree(b.arg))), b.more)
  {
  }

  lemma {:induction false} ContinueBinary(t: Term, b: Binaries, k: Keywords, rest: seq<Lexeme>, st0: Output,
                                          st: Output, cx: Context)
    requires WellFormedBinaries(b) && WellFormedKeywords(k) && EndsExpression(rest)
    requires Gen(t, st0, cx) == Ok([], st)
    ensures Continuation(BinariesLex(b) + (KeywordsLex(k) + rest), st, cx)
         == With(Gen(KeywordOn(BinaryOn(t, b), k), st0, cx), rest)
    decreases b
  {
    hide KeywordsLex, KeywordOn, Gen, Continuation, OpSelector, KeywordSelector, BinariesLex, BinaryOn;
    hide WellFormedKeywords, WellFormedUnary, UnaryTree, IsOp, EndsExpression;
    var end := KeywordsLex(k) + rest;
    KeywordsStart(k, rest);
    if b.NoBinary? {
      BinariesStart(b, end);
      assert BinaryOn(t, b) == t by { NoBinaryOn(t); }
      ParseKeywordTail(t, k, rest, st0, st, cx);
    } else {
      ContinueBinaryStep(t, b, end, st0, st, cx);
      BinaryOnStep(t, b);
      hide WellFormedBinaries;
      var next := Send(t, OpSelector(b.op), Plus(NoArgs, UnaryTree(b.arg)));
      match Gen(next, st0, cx)
      case Ok(_, s1) => ContinueBinary(next, b.more, k, rest, st0, s1, cx);
      case Overflow =>
        GenBinaryOverflow(next, b.more, st0, cx);
        GenKeywordOverflow(BinaryOn(next, b.more), k, st0, cx);
    }
  }

  lemma NoBinaryOn(t: Term)
    ensures WellFormedBinaries(NoBinary) && BinaryOn(t, NoBinary) == t
  {
  }

  lemma {:induction false} ContinueUnary(t: Term, messages: seq<Lexeme>, b: Binaries, k: Keywords, rest: seq<Lexeme>,
                                         st0: Output, st: Output, cx: Context)
    requires forall i :: 0 <= i < |messages| ==> messages[i].token.kind == Identifier && NoBracket(messages[i])
    requires WellFormedBinaries(b) && WellFormedKeywords(k) && EndsExpression(rest)
    requires Gen(t, st0, cx) == Ok([], st)
    ensures Continuation(messages + (BinariesLex(b) + (KeywordsLex(k) + rest)), st, cx)
         == With(Gen(KeywordOn(BinaryOn(UnaryOn(t, messages), b), k), st0, cx), rest)
    decreases |messages|
  {
    hide Continuation, BinariesLex, KeywordsLex, KeywordOn, BinaryOn, Gen, EmitSend;
    var end := BinariesLex(b) + (KeywordsLex(k) + rest);
    if messages == [] {
      assert messages + end == end;
      assert UnaryOn(t, messages) == t;
      ContinueBinary(t, b, k, rest, st0, st, cx);
    } else {
      var all, m := messages + end, messages[0].token;
      assert all[0] == messages[0] && all[1..] == messages[1..] + end;
      ContinuationName(all, st, cx);
      var next := Send(t, m.text, NoArgs);
      GenSend(t, m.text, NoArgs, st0, st, cx);
      GenArgsNone(st, cx);
      assert UnaryOn(t, messages) == UnaryOn(next, messages[1..]);
      match EmitSend([], st, m.text, 0)
      case Ok(_, s1) => ContinueUnary(next, messages[1..], b, k, rest, st0, s1, cx);
      case Overflow =>
        GenUnaryOverflow(next, messages[1..], st0, cx);
        GenBinaryOverflow(UnaryOn(next, messages[1..]), b, st0, cx);
        GenKeywordOverflow(BinaryOn(UnaryOn(next, messages[1..]), b), k, st0, cx);
    }
  }

  /** The name first, then one loop over everything after it. */
  function NameThenContinue(t: Token, toks: seq<Lexeme>, st: Output, cx: Context): Parse {
    var p := EmitAtom(t, toks, st, cx);
    if p.Ok? then Continuation(p.rest, p.out, cx) else p
  }

  lemma ContinueName(t: Token, messages: seq<Lexeme>, b: Binaries, k: Keywords, rest: seq<Lexeme>, st: Output,
                     cx: Context)
    requires forall i :: 0 <= i < |messages| ==> messages[i].token.kind == Identifier && NoBracket(messages[i])
    requires WellFormedBinaries(b) && WellFormedKeywords(k) && EndsExpression(rest)
    ensures NameThenContinue(t, messages + (BinariesLex(b) + (KeywordsLex(k) + rest)), st, cx)
         == With(Gen(KeywordOn(BinaryOn(UnaryOn(Leaf(t), messages), b), k), st, cx), rest)
  {
    hide EmitAtom, Continuation, BinariesLex, KeywordsLex, KeywordOn, BinaryOn, UnaryOn, KeywordSelector;
    AtomWith(t, messages + (BinariesLex(b) + (KeywordsLex(k) + rest)), st, cx);
    assert Gen(Leaf(t), st, cx) == EmitAtom(t, [], st, cx);
    match EmitAtom(t, [], st, cx)
    case Ok(_, s1) =>
      ContinueUnary(Leaf(t), messages, b, k, rest, st, s1, cx);
    case Overflow =>
      GenUnaryOverflow(Leaf(t), messages, st, cx);
      GenBinaryOverflow(UnaryOn(Leaf(t), messages), b, st, cx);
      GenKeywordOverflow(BinaryOn(UnaryOn(Leaf(t), messages), b), k, st, cx);
  }

  /**
   A statement that starts with a name is compiled by another route: the name first, then
   one loop over all the messages.  It emits the same code as the precedence parser.
   */
  lemma NameRoute(e: Expr, rest: seq<Lexeme>, st: Output, cx: Context)
    requires WellFormedExpr(e) && EndsExpression(rest) && e.head.first.prim.Atom?
    ensures var all := ExprLex(e) + rest;
            && Head(all) == e.head.first.prim.lex.token
            && NameThenContinue(Head(all), Tail(all), st, cx) == With(Gen(ExprTree(e), st, cx), rest)
  {
    hide NameThenContinue, BinariesLex, KeywordsLex, ExprLex, Gen, KeywordOn, BinaryOn, UnaryOn;
    NameFirst(e, rest);
    assert ExprTree(e) == KeywordOn(BinaryTree(e.head), e.keywords);
    assert BinaryTree(e.head) == BinaryOn(UnaryTree(e.head.first), e.head.tail);
    assert UnaryTree(e.head.first) == UnaryOn(Leaf(e.head.first.prim.lex.token), e.head.first.messages);
    ContinueName(e.head.first.prim.lex.token, e.head.first.messages, e.head.tail, e.keywords, rest, st, cx);
  }

  lemma NameFirst(e: Expr, rest: seq<Lexeme>)
    requires WellFormedExpr(e) && e.head.first.prim.Atom?
    ensures WellFormedUnary(e.head.first) && WellFormedBinaries(e.head.tail) && WellFormedKeywords(e.keywords)
    ensures var u := e.head.first;
            var after := u.messages + (BinariesLex(e.head.tail) + (KeywordsLex(e.keywords) + rest));
            ExprLex(e) + rest == [u.prim.lex] + after
            && Head(ExprLex(e) + rest) == u.prim.lex.token && Tail(ExprLex(e) + rest) == after
  {
    hide BinariesLex, KeywordsLex;
    var u := e.head.first;
    var after := u.messages + (BinariesLex(e.head.tail) + (KeywordsLex(e.keywords) + rest));
    assert ExprLex(e) == UnaryLex(u) + BinariesLex(e.head.tail) + KeywordsLex(e.keywords);
    assert UnaryLex(u) == [u.prim.lex] + u.messages;
    assert ExprLex(e) + rest == [u.prim.lex] + after;
  }
}
