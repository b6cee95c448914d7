/**
 What the one-pass compiler computes: every parsing routine as a function from the tokens
 still unread and the output so far to the tokens left over and the new output.  Parsing
 and emission happen in the same pass, so a routine that fails leaves behind what it has
 already emitted (`Fail` carries it; the `whileTrue:` fallback goes on from there).
 `Overflow` means that a fixed buffer of the compiler would be written past its end.
 */
module Codegen {
  import opened Lexer
  import W = Words

  type Byte = W.Byte

  const CODE_MAX := 512
  const POOL_MAX := 32
  const BLOCK_MAX := 16
  const SOURCE_MAX := 4096
  const TEMP_MAX := 16
  const ARG_MAX := 8
  const NAME_MAX := 31
  const SELECTOR_MAX := 127

  const PUSH_LITERAL: Byte := 0
  const PUSH_INST_VAR: Byte := 1
  const PUSH_TEMP: Byte := 2
  const PUSH_SELF: Byte := 3
  const STORE_INST_VAR: Byte := 4
  const STORE_TEMP: Byte := 5
  const SEND_MESSAGE: Byte := 6
  const RETURN_TOP: Byte := 7
  const JUMP: Byte := 8
  const JUMP_IF_FALSE: Byte := 10
  const POP: Byte := 11
  const PUSH_CLOSURE: Byte := 14
  const PUSH_ARG: Byte := 15
  const RETURN_NON_LOCAL: Byte := 16
  const PUSH_THIS_CONTEXT: Byte := 17
  const PUSH_GLOBAL: Byte := 18

  /** A compiled body: byte codes, literal pool, and the sizes of its frame. */
  datatype Body = Body(code: seq<Byte>, pool: seq<Token>, args: nat, temps: nat)

  const EMPTY_BODY := Body([], [], 0, 0)

  /** One lexical scope: a method or a block.  `offset` is where its own slots begin. */
  datatype Scope = Scope(args: seq<string>, temps: seq<string>, offset: nat, inBlock: bool)

  /** The scope being compiled, the scopes around it (innermost first), the instance variables. */
  datatype Context = Context(scope: Scope, outers: seq<Scope>, ivars: seq<string>)

  /** The output so far.  `blocks` is the table that all blocks of a method share. */
  datatype Output = Output(code: seq<Byte>, pool: seq<Token>, blocks: seq<Body>, sawReturn: bool)

  datatype Parse = Ok(rest: seq<Lexeme>, out: Output) | Fail(partial: Output) | Overflow {
    predicate IsFailure() { !Ok? }
    function PropagateFailure(): Parse requires IsFailure() { this }
    function Extract(): (seq<Lexeme>, Output) requires Ok? { (rest, out) }
  }

  predicate Fits(out: Output) { |out.code| <= CODE_MAX && |out.pool| <= POOL_MAX }

  /** Output is only ever added: pool indices and block numbers handed out keep their meaning. */
  predicate Grows(st: Output, out: Output) {
    && st.code <= out.code && st.pool <= out.pool && st.blocks <= out.blocks && (Fits(st) ==> Fits(out))
    && (out.sawReturn ==> st.sawReturn || out.code != [])
  }

  /** The places left in the block table: a block takes one before its body is compiled. */
  function Slots(blocks: seq<Body>): nat { if |blocks| < BLOCK_MAX then BLOCK_MAX - |blocks| else 0 }

  datatype Compiled = Accepted(body: Body, blocks: seq<Body>) | Rejected(blocks: seq<Body>) | TooLarge

  // ----------------------------------------------------------------- tokens

  function Head(toks: seq<Lexeme>): Token { if toks == [] then EOF_TOKEN else toks[0].token }

  function Tail(toks: seq<Lexeme>): (r: seq<Lexeme>)
    ensures |r| <= |toks| && (toks != [] ==> |r| < |toks|)
  {
    if toks == [] then [] else toks[1..]
  }

  predicate IsSpecial(t: Token, text: string) { t.kind == Special && t.text == text }

  predicate IsOp(t: Token) { t.kind == Special && |t.text| == 1 && IsBinaryChar(t.text[0]) }

  predicate IsTerminator(t: Token) { IsSpecial(t, ".") || IsSpecial(t, ")") || IsSpecial(t, "]") }

  const NIL_TOKEN := Token(Identifier, "nil", 0)

  /**
   The number of tokens up to and including the one that closes `depth` open brackets;
   0 when the tokens run out first.
   */
  function CloseAt(toks: seq<Lexeme>, opening: string, closing: string, depth: nat): (n: nat)
    requires depth > 0
    ensures n <= |toks|
  {
    if toks == [] || Head(toks).kind == Eof then 0
    else
      var t := Head(toks);
      if IsSpecial(t, closing) && depth == 1 then 1
      else
        var d := if IsSpecial(t, opening) then depth + 1 else if IsSpecial(t, closing) then depth - 1 else depth;
        var n := CloseAt(toks[1..], opening, closing, d);
        if n == 0 then 0 else 1 + n
  }

  // ----------------------------------------------------------------- names and slots

  /** The first index of `name`, or -1. */
  function Find(names: seq<string>, name: string): (r: int)
    ensures -1 <= r < |names|
    ensures r >= 0 ==> names[r] == name && name !in names[..r]
    ensures r == -1 <==> name !in names
  {
    if names == [] then -1
    else if names[0] == name then 0
    else
      var r := Find(names[1..], name);
      if r < 0 then -1 else assert names[..r + 1] == [names[0]] + names[1..][..r]; r + 1
  }

  /** Where a scope's own temporary lives in its frame. */
  function TempSlot(s: Scope, index: nat): nat
  {
    if s.inBlock then s.offset + |s.args| + index else index
  }

  function OuterTempSlot(outers: seq<Scope>, name: string): (r: int)
    ensures -1 <= r
  {
    if outers == [] then -1
    else
      var i := Find(outers[0].temps, name);
      if i >= 0 then outers[0].offset + |outers[0].args| + i else OuterTempSlot(outers[1..], name)
  }

  function OuterArgSlot(outers: seq<Scope>, name: string): (r: int)
    ensures -1 <= r
  {
    if outers == [] then -1
    else
      var i := Find(outers[0].args, name);
      if i >= 0 then outers[0].offset + i else OuterArgSlot(outers[1..], name)
  }

  // ----------------------------------------------------------------- emission

  function U32(n: nat): (r: seq<Byte>)
    ensures |r| == 4
  {
    [n % 256, n / 256 % 256, n / 0x1_0000 % 256, n / 0x100_0000 % 256]
  }

  function Emit(toks: seq<Lexeme>, st: Output, bytes: seq<Byte>): (r: Parse)
    ensures r.Ok? ==> r.rest == toks && Grows(st, r.out)
    ensures !r.Fail?
  {
    if |st.code| + |bytes| > CODE_MAX then Overflow else Ok(toks, st.(code := st.code + bytes))
  }

  function FindLiteral(pool: seq<Token>, t: Token): (i: nat)
    ensures i <= |pool|
    ensures i < |pool| ==> pool[i] == t
    ensures t !in pool[..i]
  {
    if pool == [] || pool[0] == t then 0
    else
      var i := FindLiteral(pool[1..], t);
      assert pool[..i + 1] == [pool[0]] + pool[1..][..i];
      i + 1
  }

  /** The pool after a literal is looked up in it: the literal is added when it is new. */
  function Interned(pool: seq<Token>, t: Token): (r: seq<Token>)
    ensures pool <= r && FindLiteral(pool, t) < |r| && r[FindLiteral(pool, t)] == t
  {
    if FindLiteral(pool, t) < |pool| then pool else pool + [t]
  }

  /** An instruction whose operand is the pool index of a literal, `more` operand bytes after it. */
  function EmitRef(toks: seq<Lexeme>, st: Output, op: Byte, t: Token, more: seq<Byte>): (r: Parse)
    ensures r.Ok? ==> r.rest == toks && Grows(st, r.out)
    ensures !r.Fail?
  {
    var pool := Interned(st.pool, t);
    if |pool| > POOL_MAX then Overflow
    else Emit(toks, st.(pool := pool), [op] + U32(FindLiteral(st.pool, t)) + more)
  }

  function EmitSend(toks: seq<Lexeme>, st: Output, selector: string, argc: nat): (r: Parse)
    ensures r.Ok? ==> r.rest == toks && Grows(st, r.out)
    ensures !r.Fail?
  {
    EmitRef(toks, st, SEND_MESSAGE, Token(Selector, Clip(selector, TEXT_MAX), 0), U32(argc))
  }

  /** Overwrites the four operand bytes at `at`. */
  function Patch(code: seq<Byte>, at: nat, value: nat): (r: seq<Byte>)
    requires at + 4 <= |code|
    ensures |r| == |code|
  {
    code[..at] + U32(value) + code[at + 4..]
  }

  /** An identifier or a literal that is a token by itself. */
  function EmitAtom(t: Token, toks: seq<Lexeme>, st: Output, cx: Context): (r: Parse)
    ensures r.Ok? ==> r.rest == toks && Grows(st, r.out)
    ensures !r.Fail?
  {
    if t.kind != Identifier then EmitRef(toks, st, PUSH_LITERAL, t, [])
    else if t.text == "self" || t.text == "super" then Emit(toks, st, [PUSH_SELF])
    else if t.text == "thisContext" then Emit(toks, st, [PUSH_THIS_CONTEXT])
    else if t.text == "nil" || t.text == "true" || t.text == "false" then EmitRef(toks, st, PUSH_LITERAL, t, [])
    else if Find(cx.scope.temps, t.text) >= 0 then
      Emit(toks, st, [PUSH_TEMP] + U32(TempSlot(cx.scope, Find(cx.scope.temps, t.text))))
    else if Find(cx.scope.args, t.text) >= 0 then
      Emit(toks, st, [PUSH_ARG] + U32(Find(cx.scope.args, t.text)))
    else if OuterArgSlot(cx.outers, t.text) >= 0 then
      Emit(toks, st, [PUSH_TEMP] + U32(OuterArgSlot(cx.outers, t.text)))
    else if OuterTempSlot(cx.outers, t.text) >= 0 then
      Emit(toks, st, [PUSH_TEMP] + U32(OuterTempSlot(cx.outers, t.text)))
    else if Find(cx.ivars, t.text) >= 0 then
      Emit(toks, st, [PUSH_INST_VAR] + U32(Find(cx.ivars, t.text)))
    else EmitRef(toks, st, PUSH_GLOBAL, Token(ClassRef, t.text, 0), [])
  }

  /** Where an assignment to `name` stores: the instruction bytes, or none when it is unknown. */
  function StoreInto(name: string, cx: Context): (r: seq<Byte>)
    ensures r == [] || |r| == 5
  {
    if Find(cx.scope.temps, name) >= 0 then [STORE_TEMP] + U32(TempSlot(cx.scope, Find(cx.scope.temps, name)))
    else if OuterTempSlot(cx.outers, name) >= 0 then [STORE_TEMP] + U32(OuterTempSlot(cx.outers, name))
    else if Find(cx.ivars, name) >= 0 then [STORE_INST_VAR] + U32(Find(cx.ivars, name))
    else []
  }

  // ----------------------------------------------------------------- the second try at a block

  predicate IsSpace(c: char) { IsBlank(c) || c == '\U{0B}' || c == '\U{0C}' }

  /** The source of a block, from its tokens and the bracket that closes it. */
  function BlockText(toks: seq<Lexeme>): string {
    var raw := Raw(toks);
    if raw == "" then "" else raw[..|raw| - 1]
  }

  /** The first position from `from` on that is no space; the end when there is none. */
  function TrimStart(text: string, from: nat): (r: nat)
    requires from <= |text|
    ensures from <= r <= |text| && (r < |text| ==> !IsSpace(text[r]))
    decreases |text| - from
  {
    if from < |text| && IsSpace(text[from]) then TrimStart(text, from + 1) else from
  }

  /** The end of what is left when spaces before `end` are dropped. */
  function TrimEnd(text: string, start: nat, end: nat): (r: nat)
    requires start <= end <= |text|
    ensures start <= r <= end
  {
    if end > start && IsSpace(text[end - 1]) then TrimEnd(text, start, end - 1) else end
  }

  /** The position after the first bar from `from` on; past the end when there is none. */
  function AfterBar(text: string, from: nat, end: nat): (r: nat)
    requires from <= end <= |text|
    ensures from < r <= end + 1
    decreases end - from
  {
    if from >= end then end + 1
    else if text[from] == '|' then from + 1
    else AfterBar(text, from + 1, end)
  }

  /** The source with `^` before its statements, after its temporaries; empty when there is none to make. */
  function Implicit(text: string): string {
    var start := TrimStart(text, 0);
    var end := TrimEnd(text, start, |text|);
    if start == end then ""
    else
      var at := if text[start] == '|' then AfterBar(text, start + 1, end) else start;
      if at > end || end + 3 >= SOURCE_MAX then "" else text[..at] + " ^ " + text[at..end]
  }

  // ----------------------------------------------------------------- expressions

  function Primary(toks: seq<Lexeme>, st: Output, cx: Context): (r: Parse)
    ensures r.Ok? ==> |r.rest| < |toks|
    ensures r.Ok? ==> Grows(st, r.out)
    ensures r.Fail? ==> Grows(st, r.partial)
    decreases Slots(st.blocks), |toks|, 2
  {
    EmitPrimary(Head(toks), Tail(toks), st, cx)
  }

  function EmitPrimary(t: Token, toks: seq<Lexeme>, st: Output, cx: Context): (r: Parse)
    ensures r.Ok? ==> |r.rest| <= |toks| && t.kind != Eof
    ensures r.Ok? ==> Grows(st, r.out)
    ensures r.Fail? ==> Grows(st, r.partial)
    decreases Slots(st.blocks), |toks| + (if t.kind == Eof then 0 else 1), 1
  {
    if t.kind in {Identifier, Integer, Character, String, Symbol} then EmitAtom(t, toks, st, cx)
    else if IsSpecial(t, "(") then
      var (t1, s1) :- Expression(toks, st, cx);
      if IsSpecial(Head(t1), ")") then Ok(Tail(t1), s1) else Fail(s1)
    else if IsSpecial(t, "#(") then
      var n := CloseAt(toks, "#(", ")", 1);
      if n == 0 || 2 + |Raw(toks[..n])| > TEXT_MAX then Fail(st)
      else EmitRef(toks[n..], st, PUSH_LITERAL, Token(LiteralArray, "#(" + Raw(toks[..n]), 0), [])
    else if IsSpecial(t, "[") then
      var n := CloseAt(toks, "[", "]", 1);
      if n == 0 || |st.blocks| >= BLOCK_MAX || |Raw(toks[..n])| > SOURCE_MAX then Fail(st)
      else
        var k := |st.blocks|;
        match CompileBlock(toks[..n - 1], BlockText(toks[..n]), st.blocks, cx)
        case TooLarge => Overflow
        case Rejected(blocks) => Fail(st.(blocks := blocks))
        case Accepted(body, blocks) =>
          var s1 := st.(blocks := blocks[k := body]);
          EmitRef(toks[n..], s1, PUSH_CLOSURE, Token(BlockLiteral, BlockName(k), k), [])
    else Fail(st)
  }

  /**
   A block's body, in a place of its own in the block table.  When it is rejected it is compiled a
   second time, from a source with `^` before its statements; the places that the first try has
   taken stay taken.
   */
  function CompileBlock(toks: seq<Lexeme>, text: string, blocks: seq<Body>, cx: Context): (r: Compiled)
    requires |blocks| < BLOCK_MAX
    ensures r.Accepted? || r.Rejected? ==> blocks + [EMPTY_BODY] <= r.blocks
    decreases Slots(blocks), |toks|, 15
  {
    var outers, offset := [cx.scope] + cx.outers, cx.scope.offset + |cx.scope.args| + |cx.scope.temps|;
    var first := CompileBody(toks, blocks + [EMPTY_BODY], [], outers, cx.ivars, true, offset);
    if first.Rejected? && Implicit(text) != "" then
      CompileBody(Lex(Implicit(text)), first.blocks, [], outers, cx.ivars, true, offset)
    else first
  }

  function UnaryTail(toks: seq<Lexeme>, st: Output): (r: Parse)
    ensures r.Ok? ==> |r.rest| <= |toks|
    ensures r.Ok? ==> Grows(st, r.out)
    ensures r.Fail? ==> Grows(st, r.partial)
    decreases |toks|
  {
    if toks != [] && Head(toks).kind == Identifier then
      var (t1, s1) :- EmitSend(Tail(toks), st, Head(toks).text, 0);
      UnaryTail(Tail(toks), s1)
    else Ok(toks, st)
  }

  function UnaryExpression(toks: seq<Lexeme>, st: Output, cx: Context): (r: Parse)
    ensures r.Ok? ==> |r.rest| < |toks|
    ensures r.Ok? ==> Grows(st, r.out)
    ensures r.Fail? ==> Grows(st, r.partial)
    decreases Slots(st.blocks), |toks|, 3
  {
    var (t1, s1) :- Primary(toks, st, cx);
    UnaryTail(t1, s1)
  }

  /** The binary selector that `toks` starts with: one operator token or two in a row. */
  function OpText(toks: seq<Lexeme>): string
    requires IsOp(Head(toks))
  {
    if IsOp(Head(Tail(toks))) then Head(toks).text + Head(Tail(toks)).text else Head(toks).text
  }

  function AfterOp(toks: seq<Lexeme>): (r: seq<Lexeme>)
    requires IsOp(Head(toks))
    ensures |r| < |toks|
  {
    if IsOp(Head(Tail(toks))) then Tail(Tail(toks)) else Tail(toks)
  }

  function BinaryPart(toks: seq<Lexeme>, st: Output, cx: Context): (r: Parse)
    requires IsOp(Head(toks))
    ensures r.Ok? ==> |r.rest| < |toks|
    ensures r.Ok? ==> Grows(st, r.out)
    ensures r.Fail? ==> Grows(st, r.partial)
    decreases Slots(st.blocks), |toks|, 1
  {
    var (t1, s1) :- UnaryExpression(AfterOp(toks), st, cx);
    EmitSend(t1, s1, OpText(toks), 1)
  }

  function BinaryTail(toks: seq<Lexeme>, st: Output, cx: Context): (r: Parse)
    ensures r.Ok? ==> |r.rest| <= |toks|
    ensures r.Ok? ==> Grows(st, r.out)
    ensures r.Fail? ==> Grows(st, r.partial)
    decreases Slots(st.blocks), |toks|, 2
  {
    if IsOp(Head(toks)) then
      var (t1, s1) :- BinaryPart(toks, st, cx);
      BinaryTail(t1, s1, cx)
    else Ok(toks, st)
  }

  function BinaryExpression(toks: seq<Lexeme>, st: Output, cx: Context): (r: Parse)
    ensures r.Ok? ==> |r.rest| < |toks|
    ensures r.Ok? ==> Grows(st, r.out)
    ensures r.Fail? ==> Grows(st, r.partial)
    decreases Slots(st.blocks), |toks|, 4
  {
    var (t1, s1) :- UnaryExpression(toks, st, cx);
    BinaryTail(t1, s1, cx)
  }

  /** The arguments of a keyword message, from the argument of `keyword` on, and its send. */
  function KeywordMessage(keyword: Token, toks: seq<Lexeme>, st: Output, cx: Context, sel: string,
                          argc: nat): (r: Parse)
    ensures r.Ok? ==> |r.rest| < |toks|
    ensures r.Ok? ==> Grows(st, r.out)
    ensures r.Fail? ==> Grows(st, r.partial)
    decreases Slots(st.blocks), |toks|, 5
  {
    var selector := Clip(sel + keyword.text, SELECTOR_MAX);
    var (t1, s1) :- BinaryExpression(toks, st, cx);
    if Head(t1).kind == Keyword then KeywordMessage(Head(t1), Tail(t1), s1, cx, selector, argc + 1)
    else EmitSend(t1, s1, selector, argc + 1)
  }

  /** One unary, binary or keyword message to the value on top of the stack. */
  function Message(toks: seq<Lexeme>, st: Output, cx: Context): (r: Parse)
    ensures r.Ok? ==> |r.rest| < |toks|
    ensures r.Ok? ==> Grows(st, r.out)
    ensures r.Fail? ==> Grows(st, r.partial)
    decreases Slots(st.blocks), |toks|, 6
  {
    var t := Head(toks);
    if t.kind == Identifier then EmitSend(Tail(toks), st, t.text, 0)
    else if IsOp(t) then BinaryPart(toks, st, cx)
    else if t.kind == Keyword then KeywordMessage(t, Tail(toks), st, cx, "", 0)
    else Fail(st)
  }

  function Continuation(toks: seq<Lexeme>, st: Output, cx: Context): (r: Parse)
    ensures r.Ok? ==> |r.rest| <= |toks|
    ensures r.Ok? ==> Grows(st, r.out)
    ensures r.Fail? ==> Grows(st, r.partial)
    decreases Slots(st.blocks), |toks|, 7
  {
    if toks == [] || Head(toks).kind == Eof || IsTerminator(Head(toks)) then Ok(toks, st)
    else if IsSpecial(Head(toks), ";") then Continuation(Tail(toks), st, cx)
    else
      var (t1, s1) :- Message(toks, st, cx);
      Continuation(t1, s1, cx)
  }

  function Expression(toks: seq<Lexeme>, st: Output, cx: Context): (r: Parse)
    ensures r.Ok? ==> |r.rest| < |toks|
    ensures r.Ok? ==> Grows(st, r.out)
    ensures r.Fail? ==> Grows(st, r.partial)
    decreases Slots(st.blocks), |toks|, 8
  {
    var (t1, s1) :- BinaryExpression(toks, st, cx);
    Continuation(t1, s1, cx)
  }

  // ----------------------------------------------------------------- statements

  /** The source of a block that is open at `toks` does not fit the capture buffer, or is unclosed. */
  predicate NotCapturable(toks: seq<Lexeme>)
  {
    var n := CloseAt(toks, "[", "]", 1);
    n == 0 || |Raw(toks[..n])| > SOURCE_MAX
  }

  /** The end of a loop that starts at `start`: the jump back, the exit at `exit` patched to the end, and nil. */
  function LoopEnd(toks: seq<Lexeme>, st: Output, start: nat, exit: nat): (r: Parse)
    requires exit + 4 <= |st.code|
    ensures !r.Fail?
    ensures r.Ok? ==> r.rest == toks && Grows(st.(code := st.code[..exit]), r.out)
    ensures r.Ok? && Fits(st) ==> Fits(r.out)
  {
    var (c1, s1) :- Emit([], st, [JUMP] + U32(start));
    EmitRef(toks, s1.(code := Patch(s1.code, exit, |s1.code|)), PUSH_LITERAL, NIL_TOKEN, [])
  }

  /** The code of a loop from the captured tokens of its two blocks. */
  function Loop(cond: seq<Lexeme>, body: seq<Lexeme>, toks: seq<Lexeme>, st: Output, cx: Context): (r: Parse)
    ensures r.Ok? ==> r.rest == toks
    ensures r.Ok? ==> Grows(st, r.out)
    ensures r.Fail? ==> Grows(st, r.partial)
    decreases Slots(st.blocks), |cond| + |body|, 14
  {
    var (c1, s1) :- Expression(cond, st, cx);
    if c1 != [] && Head(c1).kind != Eof then Fail(s1)
    else
      var (c2, s2) :- Emit([], s1, [JUMP_IF_FALSE] + U32(0));
      var (c3, s3) :- Statements(body, s2, cx);
      LoopEnd(toks, s3, |st.code|, |s1.code| + 1)
  }

  /** `cond] whileTrue: [body]`, after the first bracket.  It leaves nil on the stack. */
  function WhileTrue(toks: seq<Lexeme>, st: Output, cx: Context): (r: Parse)
    ensures r.Ok? ==> |r.rest| < |toks|
    ensures r.Ok? ==> Grows(st, r.out)
    ensures r.Fail? ==> Grows(st, r.partial)
    decreases Slots(st.blocks), |toks|, 0
  {
    if NotCapturable(toks) then Fail(st)
    else
      var n := CloseAt(toks, "[", "]", 1);
      var t1 := toks[n..];
      var t2 := Tail(t1);
      var t3 := Tail(t2);
      if Head(t1).kind != Keyword || Head(t1).text != "whileTrue:" || !IsSpecial(Head(t2), "[")
          || NotCapturable(t3) then Fail(st)
      else
        var m := CloseAt(t3, "[", "]", 1);
        Loop(toks[..n - 1], t3[..m - 1], t3[m..], st, cx)
  }

  /** What follows an expression statement: the end returns its value, a period drops it. */
  function AfterExpression(toks: seq<Lexeme>, st: Output, cx: Context): (r: Parse)
    ensures r.Ok? ==> |r.rest| <= |toks|
    ensures r.Ok? ==> Grows(st, r.out)
    ensures r.Fail? ==> Grows(st, r.partial)
    decreases Slots(st.blocks), |toks|, 11
  {
    if toks == [] || Head(toks).kind == Eof then
      var (t1, s1) :- Emit(Tail(toks), st, [RETURN_TOP]);
      Ok(t1, s1.(sawReturn := true))
    else if IsSpecial(Head(toks), ".") then
      var (t1, s1) :- Emit(Tail(toks), st, [POP]);
      Statements(Tail(toks), s1, cx)
    else Fail(st)
  }

  /** `^` and what follows it, which ends the statements. */
  function ReturnStatement(toks: seq<Lexeme>, st: Output, cx: Context): (r: Parse)
    ensures r.Ok? ==> |r.rest| <= |toks|
    ensures r.Ok? ==> Grows(st, r.out)
    ensures r.Fail? ==> Grows(st, r.partial)
    decreases Slots(st.blocks), |toks|, 10
  {
    var (t1, s1) :- Expression(toks, st, cx);
    var (t2, s2) :- Emit(t1, s1, [if cx.scope.inBlock then RETURN_NON_LOCAL else RETURN_TOP]);
    var s3 := s2.(sawReturn := true);
    if t1 == [] || Head(t1).kind == Eof then Ok(Tail(t1), s3) else Fail(s3)
  }

  /** What follows a loop or an assignment; `drop` is emitted at a period, not at the end. */
  function AfterStatement(toks: seq<Lexeme>, st: Output, cx: Context, drop: seq<Byte>): (r: Parse)
    ensures r.Ok? ==> |r.rest| <= |toks|
    ensures r.Ok? ==> Grows(st, r.out)
    ensures r.Fail? ==> Grows(st, r.partial)
    decreases Slots(st.blocks), |toks|, 11
  {
    if toks == [] || Head(toks).kind == Eof then Ok(Tail(toks), st)
    else if IsSpecial(Head(toks), ".") then
      var (t1, s1) :- Emit(Tail(toks), st, drop);
      Statements(Tail(toks), s1, cx)
    else Fail(st)
  }

  /** The right side of an assignment. */
  function AssignStatement(name: string, toks: seq<Lexeme>, st: Output, cx: Context): (r: Parse)
    ensures r.Ok? ==> |r.rest| <= |toks|
    ensures r.Ok? ==> Grows(st, r.out)
    ensures r.Fail? ==> Grows(st, r.partial)
    decreases Slots(st.blocks), |toks|, 10
  {
    if StoreInto(name, cx) == [] then Fail(st)
    else
      var (t1, s1) :- Expression(toks, st, cx);
      var (t2, s2) :- Emit(t1, s1, StoreInto(name, cx));
      AfterStatement(t1, s2, cx, [])
  }

  function ExpressionStatement(toks: seq<Lexeme>, st: Output, cx: Context): (r: Parse)
    ensures r.Ok? ==> |r.rest| <= |toks|
    ensures r.Ok? ==> Grows(st, r.out)
    ensures r.Fail? ==> Grows(st, r.partial)
    decreases Slots(st.blocks), |toks|, 10
  {
    var (t1, s1) :- Expression(toks, st, cx);
    AfterExpression(t1, s1, cx)
  }

  /** A statement that starts with `[`: a loop, or else an expression parsed from the bracket. */
  function BracketStatement(toks: seq<Lexeme>, st: Output, cx: Context): (r: Parse)
    ensures r.Ok? ==> |r.rest| <= |toks|
    ensures r.Ok? ==> Grows(st, r.out)
    ensures r.Fail? ==> Grows(st, r.partial)
    decreases Slots(st.blocks), |toks|, 11
  {
    match WhileTrue(Tail(toks), st, cx)
    case Overflow => Overflow
    case Fail(s1) => ExpressionStatement(toks, s1, cx)
    case Ok(t1, s1) => AfterStatement(t1, s1, cx, [POP])
  }

  /** A statement that starts with a name which no `:=` follows. */
  function NameStatement(t: Token, toks: seq<Lexeme>, st: Output, cx: Context): (r: Parse)
    requires t.kind == Identifier
    ensures r.Ok? ==> |r.rest| <= |toks|
    ensures r.Ok? ==> Grows(st, r.out)
    ensures r.Fail? ==> Grows(st, r.partial)
    decreases Slots(st.blocks), |toks|, 12
  {
    var (t1, s1) :- EmitAtom(t, toks, st, cx);
    var (t2, s2) :- Continuation(t1, s1, cx);
    AfterExpression(t2, s2, cx)
  }

  function Statements(toks: seq<Lexeme>, st: Output, cx: Context): (r: Parse)
    ensures r.Ok? ==> |r.rest| <= |toks|
    ensures r.Ok? ==> Grows(st, r.out)
    ensures r.Fail? ==> Grows(st, r.partial)
    decreases Slots(st.blocks), |toks|, 13
  {
    var t := Head(toks);
    var rest := Tail(toks);
    if toks == [] || t.kind == Eof then Ok(rest, st)
    else if IsSpecial(t, ".") then Statements(rest, st, cx)
    else if IsSpecial(t, "^") then ReturnStatement(rest, st, cx)
    else if IsSpecial(t, "[") then BracketStatement(toks, st, cx)
    else if t.kind == Identifier && IsSpecial(Head(rest), ":=") then AssignStatement(t.text, Tail(rest), st, cx)
    else if t.kind == Identifier then NameStatement(t, rest, st, cx)
    else ExpressionStatement(toks, st, cx)
  }

  // ----------------------------------------------------------------- bodies

  datatype Names = Names(rest: seq<Lexeme>, names: seq<string>) | BadNames

  /** The block arguments that follow a `:`. */
  function ArgNames(toks: seq<Lexeme>, names: seq<string>): (r: Names)
    ensures r.Names? ==> |r.rest| <= |toks|
    decreases |toks|
  {
    var t1 := Tail(toks);
    if Head(toks).kind != Identifier || |names| >= ARG_MAX then BadNames
    else
      var more := names + [Clip(Head(toks).text, NAME_MAX)];
      if IsSpecial(Head(t1), ":") then ArgNames(Tail(t1), more)
      else if IsSpecial(Head(t1), "|") then Names(Tail(t1), more)
      else BadNames
  }

  function BlockHeader(toks: seq<Lexeme>): (r: Names)
    ensures r.Names? ==> |r.rest| <= |toks|
  {
    if IsSpecial(Head(toks), ":") then ArgNames(Tail(toks), []) else Names(toks, [])
  }

  /** The temporaries up to the closing bar. */
  function TempNames(toks: seq<Lexeme>, names: seq<string>): (r: Names)
    ensures r.Names? ==> |r.rest| <= |toks|
    decreases |toks|
  {
    if IsSpecial(Head(toks), "|") then Names(Tail(toks), names)
    else if Head(toks).kind != Identifier || |names| >= TEMP_MAX then BadNames
    else TempNames(Tail(toks), names + [Clip(Head(toks).text, NAME_MAX)])
  }

  function TempDecls(toks: seq<Lexeme>): (r: Names)
    ensures r.Names? ==> |r.rest| <= |toks|
  {
    if IsSpecial(Head(toks), "|") then TempNames(Tail(toks), []) else Names(toks, [])
  }

  function BlockName(k: nat): string
  {
    "block:" + (if k < 10 then [Digit(k)] else [Digit(k / 10 % 10), Digit(k % 10)])
  }

  function Digit(k: nat): char
    requires k < 10
  {
    '0' + k as char
  }

  /** A body whose statements are parsed: a block that does not return answers nil. */
  function Finish(p: Parse, inBlock: bool, args: nat, temps: nat): (r: Compiled)
    ensures r.Accepted? && p.Ok? ==> p.out.blocks <= r.blocks
    ensures r.Accepted? ==> p.Ok?
    ensures r.Rejected? ==> (p.Ok? && r.blocks == p.out.blocks) || (p.Fail? && r.blocks == p.partial.blocks)
  {
    match p
    case Overflow => TooLarge
    case Fail(s) => Rejected(s.blocks)
    case Ok(_, s) =>
      if inBlock && !s.sawReturn then
        match EmitRef([], s, PUSH_LITERAL, NIL_TOKEN, [])
        case Ok(_, s1) =>
          if |s1.code| + 1 > CODE_MAX then TooLarge
          else Accepted(Body(s1.code + [RETURN_TOP], s1.pool, args, temps), s1.blocks)
        case _ => TooLarge
      else if s.sawReturn then Accepted(Body(s.code, s.pool, args, temps), s.blocks)
      else Rejected(s.blocks)
  }

  function CompileBody(toks: seq<Lexeme>, blocks: seq<Body>, args: seq<string>, outers: seq<Scope>,
                       ivars: seq<string>, inBlock: bool, offset: nat): (r: Compiled)
    ensures r.Accepted? ==> blocks <= r.blocks
    ensures r.Rejected? ==> blocks <= r.blocks
    decreases Slots(blocks), |toks|, 14
  {
    match (if inBlock then BlockHeader(toks) else Names(toks, args))
    case BadNames => Rejected(blocks)
    case Names(t1, ownArgs) =>
      match TempDecls(t1)
      case BadNames => Rejected(blocks)
      case Names(t2, temps) =>
        var cx := Context(Scope(ownArgs, temps, offset, inBlock), outers, ivars);
        Finish(Statements(t2, Output([], [], blocks, false), cx), inBlock, |ownArgs|, |temps|)
  }
}
