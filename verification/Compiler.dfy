/**
 The compiler as it runs: one state object whose parser position, code buffer and literal
 pool are updated in place.  Every parsing routine is proved against the function of
 `Codegen` with its name, on all token streams, well-formed or not.
 */
module Compiler {
  import opened Lexer
  import opened Codegen

  /** The table of compiled blocks that a method shares with all the blocks inside it. */
  class BlockTable {
    var blocks: seq<Body>

    constructor ()
      ensures blocks == []
    {
      blocks := [];
    }
  }

  /** The names that a scope declares; fixed once its header is parsed. */
  class LocalNames {
    var args: seq<string>
    var temps: seq<string>

    constructor (header: seq<string>)
      ensures args == header && temps == []
    {
      args, temps := header, [];
    }
  }

  /** How a statement ends: with the whole list, or with another statement to come. */
  datatype Ending = Stop(ok: bool) | Again

  class CgState {
    // the parser: a scanner position and at most one token pushed back
    var source: string
    var index: nat
    var hasBuffered: bool
    var buffered: Token
    ghost var bufferedRaw: string

    // the code and the literals of this scope
    const bytecodes: array<Byte>
    var bytecodeCount: nat
    const literals: array<Token>
    var literalCount: nat
    const table: BlockTable
    var sawReturn: bool

    // the scope
    const names: LocalNames
    const inBlock: bool
    const offset: nat
    const outers: seq<Scope>
    const ivars: seq<string>

    constructor (text: string, blockTable: BlockTable, header: seq<string>, isBlock: bool, slots: nat,
                 enclosing: seq<Scope>, fields: seq<string>)
      ensures Valid() && fresh(this) && fresh(bytecodes) && fresh(literals) && table == blockTable
      ensures View() == Lex(text) && Out() == Output([], [], blockTable.blocks, false) && !hasBuffered
      ensures fresh(names) && names.args == header && names.temps == [] && inBlock == isBlock && offset == slots
              && outers == enclosing && ivars == fields
    {
      source, index, hasBuffered, buffered, bufferedRaw := text, 0, false, EOF_TOKEN, "";
      bytecodes := new Byte[CODE_MAX](_ => 0);
      bytecodeCount := 0;
      literals := new Token[POOL_MAX](_ => EOF_TOKEN);
      literalCount := 0;
      table := blockTable;
      sawReturn := false;
      names := new LocalNames(header);
      inBlock, offset, outers, ivars := isBlock, slots, enclosing, fields;
      new;
      assert text[0..] == text;
    }

    predicate Valid()
      reads this`source, this`index, this`hasBuffered, this`buffered, this`bytecodeCount, this`literalCount
    {
      && index <= |source|
      && (hasBuffered && buffered.kind == Eof ==> buffered == EOF_TOKEN && Lex(source[index..]) == [])
      && bytecodes.Length == CODE_MAX && literals.Length == POOL_MAX
      && bytecodeCount <= CODE_MAX && literalCount <= POOL_MAX
    }

    /** The tokens still unread. */
    ghost function View(): (v: seq<Lexeme>)
      requires Valid()
      reads this`source, this`index, this`hasBuffered, this`buffered, this`bufferedRaw, this`bytecodeCount,
            this`literalCount
    {
      (if hasBuffered && buffered.kind != Eof then [Lexeme(buffered, bufferedRaw)] else []) + Lex(source[index..])
    }

    ghost function Out(): Output
      requires bytecodes.Length == CODE_MAX && literals.Length == POOL_MAX
      requires bytecodeCount <= CODE_MAX && literalCount <= POOL_MAX
      reads this`bytecodeCount, this`literalCount, this`sawReturn, bytecodes, literals, table
    {
      Output(bytecodes[..bytecodeCount], literals[..literalCount], table.blocks, sawReturn)
    }

    function Own(): Scope
      reads names
    {
      Scope(names.args, names.temps, offset, inBlock)
    }

    function Cx(): Context
      reads names
    {
      Context(Own(), outers, ivars)
    }

    /** A routine has done what the specification says: same outcome, same rest, same output. */
    ghost predicate Agrees(ok: bool, r: Parse)
      requires Valid()
      reads this`source, this`index, this`hasBuffered, this`buffered, this`bufferedRaw, this`bytecodeCount,
            this`literalCount, this`sawReturn
      reads bytecodes, literals, table
    {
      match r
      case Ok(rest, out) => ok && View() == rest && Out() == out
      case Fail(partial) => !ok && Out() == partial
      case Overflow => false
    }

    // --------------------------------------------------------------- tokens

    method BpNext() returns (token: Token)
      requires Valid()
      modifies this`index, this`hasBuffered
      ensures Valid() && !hasBuffered && old(index) <= index
      ensures token == Head(old(View())) && View() == Tail(old(View()))
      ensures !old(hasBuffered) && old(View()) != [] ==> index == old(index) + Next(source[old(index)..]).1
      ensures !old(hasBuffered) && old(View()) == [] ==> token == EOF_TOKEN
    {
      hide Lex, Next;
      if hasBuffered {
        hasBuffered := false;
        return buffered;
      }
      ghost var s := source[index..];
      var from := index;
      token, index := BtNext(source, from);
      assert source[index..] == s[index - from..];
      if token.kind == Eof {
        LexEnd(s);
        assert source[index..] == "";
        LexEmpty();
      } else {
        LexUnfold(s);
      }
    }

    /** Pushes back the token just read; it was taken from an input that `raw` came from. */
    method BpUnread(token: Token, ghost raw: string)
      requires Valid() && !hasBuffered
      requires token.kind == Eof ==> token == EOF_TOKEN && View() == []
      modifies this`hasBuffered, this`buffered, this`bufferedRaw
      ensures Valid()
      ensures View() == if token.kind == Eof then [] else [Lexeme(token, raw)] + old(View())
    {
      hasBuffered, buffered, bufferedRaw := true, token, raw;
    }

    /** Reads a token and pushes it back: the view does not change. */
    method Peek() returns (token: Token)
      requires Valid()
      modifies this`index, this`hasBuffered, this`buffered, this`bufferedRaw
      ensures Valid() && View() == old(View()) && token == Head(View())
    {
      ghost var v := View();
      LexKinds(source[index..]);
      token := BpNext();
      BpUnread(token, if v == [] then "" else v[0].raw);
      assert v != [] ==> v == [v[0]] + Tail(v);
    }

    // --------------------------------------------------------------- emission

    method EmitByte(b: Byte)
      requires Valid() && bytecodeCount < CODE_MAX
      modifies this`bytecodeCount, bytecodes
      ensures Valid() && Out() == old(Out()).(code := old(Out()).code + [b]) && bytecodeCount == old(bytecodeCount) + 1
    {
      bytecodes[bytecodeCount] := b;
      bytecodeCount := bytecodeCount + 1;
      assert bytecodes[..bytecodeCount] == old(bytecodes[..bytecodeCount]) + [b];
    }

    method EmitU32(n: nat)
      requires Valid() && bytecodeCount + 4 <= CODE_MAX
      modifies this`bytecodeCount, bytecodes
      ensures Valid() && Out() == old(Out()).(code := old(Out()).code + U32(n))
              && bytecodeCount == old(bytecodeCount) + 4
    {
      ghost var code := Out().code;
      EmitByte(n % 256);
      EmitByte(n / 256 % 256);
      EmitByte(n / 0x1_0000 % 256);
      EmitByte(n / 0x100_0000 % 256);
      assert Out().code == code + U32(n);
    }

    /** Emits a placeholder operand and says where to patch it. */
    method EmitJumpPlaceholder(op: Byte) returns (at: nat)
      requires Valid() && bytecodeCount + 5 <= CODE_MAX
      modifies this`bytecodeCount, bytecodes
      ensures Valid() && at == old(bytecodeCount) + 1 && bytecodeCount == old(bytecodeCount) + 5
      ensures Out() == old(Out()).(code := old(Out()).code + ([op] + U32(0)))
    {
      ghost var code := Out().code;
      at := bytecodeCount + 1;
      EmitByte(op);
      EmitU32(0);
      assert Out().code == code + ([op] + U32(0));
    }

    method PatchU32(at: nat, n: nat)
      requires Valid() && at + 4 <= bytecodeCount
      modifies bytecodes
      ensures Out() == old(Out()).(code := Patch(old(Out()).code, at, n))
    {
      ghost var code := Out().code;
      bytecodes[at] := n % 256;
      bytecodes[at + 1] := n / 256 % 256;
      bytecodes[at + 2] := n / 0x1_0000 % 256;
      bytecodes[at + 3] := n / 0x100_0000 % 256;
      assert bytecodes[..bytecodeCount] == Patch(code, at, n);
    }

    /** The pool index of a literal: that of an equal one, or a new entry. */
    method LiteralIndex(t: Token) returns (i: nat)
      requires Valid() && |Interned(Out().pool, t)| <= POOL_MAX
      modifies this`literalCount, literals
      ensures Valid() && i == FindLiteral(old(Out()).pool, t)
      ensures Out() == old(Out()).(pool := Interned(old(Out()).pool, t))
    {
      ghost var pool := Out().pool;
      i := 0;
      while i < literalCount
        invariant i <= literalCount && t !in pool[..i]
      {
        if literals[i] == t {
          FindLiteralAt(pool, t, i);
          return;
        }
        assert pool[..i + 1] == pool[..i] + [pool[i]];
        i := i + 1;
      }
      assert pool[..literalCount] == pool;
      FindLiteralAt(pool, t, i);
      literals[i] := t;
      literalCount := literalCount + 1;
      assert literals[..literalCount] == pool + [t];
    }

    method EmitRefTo(op: Byte, t: Token)
      requires Valid() && EmitRef(View(), Out(), op, t, []).Ok?
      modifies this`bytecodeCount, this`literalCount, bytecodes, literals
      ensures Valid() && View() == old(View()) && Out() == old(EmitRef(View(), Out(), op, t, [])).out
    {
      ghost var code := Out().code;
      var i := LiteralIndex(t);
      EmitByte(op);
      EmitU32(i);
      assert Out().code == code + ([op] + U32(i) + []);
    }

    method EmitSelectorSend(selector: string, argc: nat)
      requires Valid() && Codegen.EmitSend(View(), Out(), selector, argc).Ok?
      modifies this`bytecodeCount, this`literalCount, bytecodes, literals
      ensures Valid() && View() == old(View()) && Out() == old(Codegen.EmitSend(View(), Out(), selector, argc)).out
    {
      ghost var code := Out().code;
      var i := LiteralIndex(Token(Selector, Clip(selector, TEXT_MAX), 0));
      EmitByte(SEND_MESSAGE);
      EmitU32(i);
      EmitU32(argc);
      assert Out().code == code + ([SEND_MESSAGE] + U32(i) + U32(argc));
    }

    /** An instruction with a slot operand. */
    method EmitSlot(op: Byte, n: nat)
      requires Valid() && bytecodeCount + 5 <= CODE_MAX
      modifies this`bytecodeCount, bytecodes
      ensures Valid() && Out() == old(Out()).(code := old(Out()).code + ([op] + U32(n)))
    {
      ghost var code := Out().code;
      EmitByte(op);
      EmitU32(n);
      assert Out().code == code + ([op] + U32(n));
    }

    // --------------------------------------------------------------- names

    method TempIndex(name: string) returns (r: int)
      ensures r == Find(names.temps, name)
    {
      r := IndexOf(names.temps, name);
    }

    method OuterTemp(name: string) returns (r: int)
      ensures r == OuterTempSlot(outers, name)
    {
      var i := 0;
      while i < |outers|
        invariant i <= |outers|
        invariant OuterTempSlot(outers[i..], name) == OuterTempSlot(outers, name)
      {
        var j := IndexOf(outers[i].temps, name);
        if j >= 0 {
          return outers[i].offset + |outers[i].args| + j;
        }
        assert outers[i..][1..] == outers[i + 1..];
        i := i + 1;
      }
      return -1;
    }

    method OuterArg(name: string) returns (r: int)
      ensures r == OuterArgSlot(outers, name)
    {
      var i := 0;
      while i < |outers|
        invariant i <= |outers|
        invariant OuterArgSlot(outers[i..], name) == OuterArgSlot(outers, name)
      {
        var j := IndexOf(outers[i].args, name);
        if j >= 0 {
          return outers[i].offset + j;
        }
        assert outers[i..][1..] == outers[i + 1..];
        i := i + 1;
      }
      return -1;
    }

    // --------------------------------------------------------------- captured source

    /** Reads on to the bracket that closes the one just read. */
    method SkipTo(opening: string, closing: string) returns (ok: bool)
      requires Valid() && !hasBuffered && opening != closing
      modifies this`index, this`hasBuffered
      ensures Valid() && !hasBuffered && old(index) <= index
      ensures var n := CloseAt(old(View()), opening, closing, 1);
              && (ok <==> n != 0)
              && (ok ==> View() == old(View())[n..] && index == old(index) + Consumed(source[old(index)..], n))
    {
      hide Lex, Next, Consumed, CloseAt;
      ghost var v := View();
      ghost var s := source[index..];
      assert v == Lex(s);
      LexKinds(s);
      var depth := 1;
      ghost var c := 0;
      ConsumedNone(s);
      while depth > 0
        invariant Valid() && !hasBuffered && old(index) <= index && c <= |v| && View() == v[c..]
        invariant index == old(index) + Consumed(s, c)
        invariant depth == 0 ==> CloseAt(v, opening, closing, 1) == c > 0
        invariant depth > 0 ==>
                    CloseAt(v, opening, closing, 1) ==
                      if CloseAt(v[c..], opening, closing, depth) == 0
                          then 0 else c + CloseAt(v[c..], opening, closing, depth)
        decreases |View()|
      {
        ghost var from := index;
        CloseAtEnd(v, c, opening, closing, depth);
        var t := BpNext();
        if t.kind == Eof {
          return false;
        }
        CloseAtStep(v, c, opening, closing, depth);
        ConsumedStep(s, c);
        assert source[from..] == s[Consumed(s, c)..];
        c := c + 1;
        if IsSpecial(t, opening) {
          depth := depth + 1;
        } else if IsSpecial(t, closing) {
          depth := depth - 1;
        }
      }
      ok := true;
    }

    /** The source of the block whose bracket was just read, up to the bracket that closes it. */
    method CaptureBlock() returns (ok: bool, text: string)
      requires Valid() && !hasBuffered
      modifies this`index, this`hasBuffered
      ensures Valid() && !hasBuffered
      ensures ok <==> CloseAt(old(View()), "[", "]", 1) != 0
      ensures ok ==> var n := CloseAt(old(View()), "[", "]", 1);
                     && View() == old(View())[n..] && Lex(text) == old(View())[..n - 1]
                     && |text| + 1 == |Raw(old(View())[..n])| && text == BlockText(old(View())[..n])
    {
      hide Lex, Next, CloseAt, Consumed, Raw, BlockText;
      var start := index;
      ghost var v := View();
      ghost var s := source[start..];
      text := "";
      ok := SkipTo("[", "]");
      if ok {
        ghost var n := CloseAt(v, "[", "]", 1);
        assert v == Lex(s);
        CapturedText(s, n, index - start);
        text := source[start..index - 1];
        assert text == s[..index - start - 1];
      }
    }

    // --------------------------------------------------------------- expressions

    /** Pushes a variable: own temporary, own argument, captured slot, field, or else a global. */
    method EmitVariable(t: Token) returns (ok: bool)
      requires Valid() && !EmitAtom(t, View(), Out(), Cx()).Overflow?
      requires t.kind == Identifier && t.text !in {"self", "super", "thisContext", "nil", "true", "false"}
      modifies this, bytecodes, literals, table
      ensures Valid() && Agrees(ok, old(EmitAtom(t, View(), Out(), Cx())))
    {
      hide EmitRef, Find, OuterArgSlot, OuterTempSlot, TempSlot, U32, Lex;
      ok := true;
      var i := TempIndex(t.text);
      if i >= 0 {
        EmitSlot(PUSH_TEMP, TempSlot(Own(), i));
        return;
      }
      i := IndexOf(names.args, t.text);
      if i >= 0 {
        EmitSlot(PUSH_ARG, i);
        return;
      }
      i := OuterArg(t.text);
      if i >= 0 {
        EmitSlot(PUSH_TEMP, i);
        return;
      }
      i := OuterTemp(t.text);
      if i >= 0 {
        EmitSlot(PUSH_TEMP, i);
        return;
      }
      i := IndexOf(ivars, t.text);
      if i >= 0 {
        EmitSlot(PUSH_INST_VAR, i);
        return;
      }
      EmitRefTo(PUSH_GLOBAL, Token(ClassRef, t.text, 0));
    }

    /** Pushes a name or a literal. */
    method EmitName(t: Token) returns (ok: bool)
      requires Valid() && !EmitAtom(t, View(), Out(), Cx()).Overflow?
      modifies this, bytecodes, literals, table
      ensures Valid() && Agrees(ok, old(EmitAtom(t, View(), Out(), Cx())))
    {
      hide EmitRef, Find, OuterArgSlot, OuterTempSlot, TempSlot, U32, Lex;
      ok := true;
      if t.kind != Identifier || t.text == "nil" || t.text == "true" || t.text == "false" {
        EmitRefTo(PUSH_LITERAL, t);
      } else if t.text == "self" || t.text == "super" {
        EmitByte(PUSH_SELF);
      } else if t.text == "thisContext" {
        EmitByte(PUSH_THIS_CONTEXT);
      } else {
        ok := EmitVariable(t);
      }
    }

    /** The literal array whose `#(` was just read: its source is one literal. */
    method ParseLiteralArray(t: Token) returns (ok: bool)
      requires Valid() && !hasBuffered && IsSpecial(t, "#(") && !EmitPrimary(t, View(), Out(), Cx()).Overflow?
      modifies this, bytecodes, literals
      ensures Valid() && Agrees(ok, old(EmitPrimary(t, View(), Out(), Cx())))
    {
      hide Lex, Next, CloseAt, Consumed, EmitAtom, Expression, EmitRef;
      ghost var v := View();
      ghost var s := source[index..];
      ghost var n := CloseAt(v, "#(", ")", 1);
      var start := index;
      ok := SkipTo("#(", ")");
      if !ok {
        return;
      }
      assert v == Lex(s);
      ConsumedIsRaw(s, n);
      assert source[start..index] == s[..index - start] == Raw(v[..n]);
      if 2 + (index - start) > TEXT_MAX {
        return false;
      }
      EmitRefTo(PUSH_LITERAL, Token(LiteralArray, "#(" + source[start..index], 0));
    }

    /** The block literal whose `[` was just read: compiled on its own, referred to by number. */
    method ParseBlock(t: Token) returns (ok: bool)
      requires Valid() && !hasBuffered && IsSpecial(t, "[") && !EmitPrimary(t, View(), Out(), Cx()).Overflow?
      modifies this, bytecodes, literals, table
      ensures Valid() && Agrees(ok, old(EmitPrimary(t, View(), Out(), Cx())))
      decreases Slots(table.blocks), |View()|, 3
    {
      hide Lex, Next, CloseAt, Consumed, EmitAtom, Expression, EmitRef, CompileBlock, Raw, BlockText;
      ghost var v, o := View(), Out();
      var text;
      ok, text := CaptureBlock();
      if !ok {
        return;
      }
      if |table.blocks| >= BLOCK_MAX || |text| >= SOURCE_MAX {
        return false;
      }
      var k := |table.blocks|;
      var body;
      ok, body := CompileBlockText(text);
      if !ok {
        return;
      }
      table.blocks := table.blocks[k := body];
      EmitRefTo(PUSH_CLOSURE, Token(BlockLiteral, BlockName(k), k));
    }

    /** Compiles a block in a new place of the table, with `^` before its statements when that is rejected without. */
    method CompileBlockText(text: string) returns (ok: bool, body: Body)
      requires |table.blocks| < BLOCK_MAX && !CompileBlock(Lex(text), text, table.blocks, Cx()).TooLarge?
      modifies table
      ensures match old(CompileBlock(Lex(text), text, table.blocks, Cx()))
              case Accepted(b, blocks) => ok && body == b && table.blocks == blocks
              case Rejected(blocks) => !ok && table.blocks == blocks
              case TooLarge => false
      decreases Slots(table.blocks), |Lex(text)|, 15
    {
      hide Lex, CompileBody, Implicit;
      var slots := offset + |names.args| + |names.temps|;
      table.blocks := table.blocks + [EMPTY_BODY];
      var block := new CgState(text, table, [], true, slots, [Own()] + outers, ivars);
      ok, body := block.Compile();
      if !ok {
        var again, implicit := ImplicitSource(text);
        if again {
          block := new CgState(implicit, table, [], true, slots, [Own()] + outers, ivars);
          ok, body := block.Compile();
        }
      }
    }

    method EmitPrimaryToken(t: Token) returns (ok: bool)
      requires Valid() && !hasBuffered && !EmitPrimary(t, View(), Out(), Cx()).Overflow?
      modifies this, bytecodes, literals, table
      ensures Valid() && Agrees(ok, old(EmitPrimary(t, View(), Out(), Cx())))
      decreases Slots(table.blocks), |View()| + (if t.kind == Eof then 0 else 1), 1
    {
      hide EmitAtom, Expression, EmitRef, CompileBody, Raw, CloseAt, Lex;
      if t.kind in {Identifier, Integer, Character, String, Symbol} {
        ok := EmitName(t);
      } else if IsSpecial(t, "(") {
        ok := ParseExpression();
        if ok {
          var close := BpNext();
          ok := IsSpecial(close, ")");
        }
      } else if IsSpecial(t, "#(") {
        ok := ParseLiteralArray(t);
      } else if IsSpecial(t, "[") {
        ok := ParseBlock(t);
      } else {
        ok := false;
      }
    }

    method ParsePrimary() returns (ok: bool)
      requires Valid() && !Primary(View(), Out(), Cx()).Overflow?
      modifies this, bytecodes, literals, table
      ensures Valid() && Agrees(ok, old(Primary(View(), Out(), Cx())))
      decreases Slots(table.blocks), |View()|, 2
    {
      hide EmitPrimary;
      var t := BpNext();
      ok := EmitPrimaryToken(t);
    }

    method ParseUnaryExpression() returns (ok: bool)
      requires Valid() && !UnaryExpression(View(), Out(), Cx()).Overflow?
      modifies this, bytecodes, literals, table
      ensures Valid() && Agrees(ok, old(UnaryExpression(View(), Out(), Cx())))
      decreases Slots(table.blocks), |View()|, 3
    {
      hide Primary, EmitSend;
      ok := ParsePrimary();
      if !ok {
        return;
      }
      while true
        invariant Valid() && !UnaryTail(View(), Out()).Overflow?
        invariant UnaryTail(View(), Out()) == old(UnaryExpression(View(), Out(), Cx()))
        decreases |View()|
      {
        var t := Peek();
        if t.kind != Identifier {
          return true;
        }
        t := BpNext();
        EmitSelectorSend(t.text, 0);
      }
    }

    /** A binary operator, one character or two; it is already known to be next. */
    method ParseOperator() returns (selector: string)
      requires Valid() && IsOp(Head(View()))
      modifies this`index, this`hasBuffered, this`buffered, this`bufferedRaw
      ensures Valid() && selector == OpText(old(View())) && View() == AfterOp(old(View()))
    {
      var t := BpNext();
      selector := t.text;
      t := Peek();
      if IsOp(t) {
        t := BpNext();
        selector := selector + t.text;
      }
    }

    method ParseBinaryPart() returns (ok: bool)
      requires Valid() && IsOp(Head(View())) && !BinaryPart(View(), Out(), Cx()).Overflow?
      modifies this, bytecodes, literals, table
      ensures Valid() && Agrees(ok, old(BinaryPart(View(), Out(), Cx())))
      decreases Slots(table.blocks), |View()|, 1
    {
      hide UnaryExpression, EmitSend, OpText, AfterOp;
      var selector := ParseOperator();
      ok := ParseUnaryExpression();
      if ok {
        EmitSelectorSend(selector, 1);
      }
    }

    method ParseBinaryExpression() returns (ok: bool)
      requires Valid() && !BinaryExpression(View(), Out(), Cx()).Overflow?
      modifies this, bytecodes, literals, table
      ensures Valid() && Agrees(ok, old(BinaryExpression(View(), Out(), Cx())))
      decreases Slots(table.blocks), |View()|, 4
    {
      hide UnaryExpression, BinaryPart;
      ok := ParseUnaryExpression();
      if !ok {
        return;
      }
      while true
        invariant Valid() && !BinaryTail(View(), Out(), Cx()).Overflow? && |View()| < |old(View())|
        invariant BinaryTail(View(), Out(), Cx()) == old(BinaryExpression(View(), Out(), Cx()))
        invariant Slots(table.blocks) <= old(Slots(table.blocks))
        decreases |View()|
      {
        var t := Peek();
        if !IsOp(t) {
          return true;
        }
        ok := ParseBinaryPart();
        if !ok {
          return;
        }
      }
    }

    /** A keyword message whose first keyword has just been read. */
    method ParseKeywordMessage(keyword: Token) returns (ok: bool)
      requires Valid() && !KeywordMessage(keyword, View(), Out(), Cx(), "", 0).Overflow?
      modifies this, bytecodes, literals, table
      ensures Valid() && Agrees(ok, old(KeywordMessage(keyword, View(), Out(), Cx(), "", 0)))
      decreases Slots(table.blocks), |View()|, 5
    {
      hide BinaryExpression, EmitSend, KeywordMessage, Lex;
      var selector, argc, current := "", 0, keyword;
      while true
        invariant Valid() && !KeywordMessage(current, View(), Out(), Cx(), selector, argc).Overflow?
                  && |View()| <= |old(View())|
        invariant KeywordMessage(current, View(), Out(), Cx(), selector, argc)
               == old(KeywordMessage(keyword, View(), Out(), Cx(), "", 0))
        invariant Slots(table.blocks) <= old(Slots(table.blocks))
        decreases |View()|
      {
        KeywordCases(current, View(), Out(), Cx(), selector, argc);
        selector := Clip(selector + current.text, SELECTOR_MAX);
        ok := ParseBinaryExpression();
        if !ok {
          return;
        }
        argc := argc + 1;
        var next := Peek();
        if next.kind != Keyword {
          EmitSelectorSend(selector, argc);
          return true;
        }
        current := BpNext();
      }
    }

    method ParseMessage(t: Token) returns (ok: bool)
      requires Valid() && t == Head(View()) && !Message(View(), Out(), Cx()).Overflow?
      modifies this, bytecodes, literals, table
      ensures Valid() && Agrees(ok, old(Message(View(), Out(), Cx())))
      decreases Slots(table.blocks), |View()|, 6
    {
      hide BinaryPart, EmitSend, KeywordMessage;
      if t.kind == Identifier {
        var name := BpNext();
        EmitSelectorSend(t.text, 0);
        ok := true;
      } else if IsOp(t) {
        ok := ParseBinaryPart();
      } else if t.kind == Keyword {
        var keyword := BpNext();
        ok := ParseKeywordMessage(t);
      } else {
        ok := false;
      }
    }

    method ParseContinuation() returns (ok: bool)
      requires Valid() && !Continuation(View(), Out(), Cx()).Overflow?
      modifies this, bytecodes, literals, table
      ensures Valid() && Agrees(ok, old(Continuation(View(), Out(), Cx())))
      decreases Slots(table.blocks), |View()|, 7
    {
      hide Message;
      while true
        invariant Valid() && !Continuation(View(), Out(), Cx()).Overflow? && |View()| <= |old(View())|
        invariant Continuation(View(), Out(), Cx()) == old(Continuation(View(), Out(), Cx()))
        invariant Slots(table.blocks) <= old(Slots(table.blocks))
        decreases |View()|
      {
        var t := Peek();
        if t.kind == Eof || IsTerminator(t) {
          return true;
        }
        if IsSpecial(t, ";") {
          t := BpNext();
        } else {
          ok := ParseMessage(t);
          if !ok {
            return;
          }
        }
      }
    }

    method ParseExpression() returns (ok: bool)
      requires Valid() && !Expression(View(), Out(), Cx()).Overflow?
      modifies this, bytecodes, literals, table
      ensures Valid() && Agrees(ok, old(Expression(View(), Out(), Cx())))
      decreases Slots(table.blocks), |View()|, 8
    {
      hide BinaryExpression, Continuation;
      ok := ParseBinaryExpression();
      if ok {
        ok := ParseContinuation();
      }
    }

    // --------------------------------------------------------------- statements

    lemma ViewKinds()
      requires Valid()
      ensures forall i :: 0 <= i < |View()| ==> View()[i].token.kind != Eof
    {
      LexKinds(source[index..]);
    }

    lemma ViewUnbuffered()
      requires Valid() && !hasBuffered
      ensures View() == Lex(source[index..])
    {
      hide Lex;
      assert [] + Lex(source[index..]) == Lex(source[index..]);
    }

    /** An expression compiled from a source of its own; the parser then resumes where it was. */
    method EmitInlineExpression(text: string) returns (ok: bool)
      requires Valid() && !Expression(Lex(text), Out(), Cx()).Overflow?
      modifies this, bytecodes, literals, table
      ensures Valid() && View() == old(View()) && hasBuffered == old(hasBuffered)
      ensures var r := old(Expression(Lex(text), Out(), Cx()));
              && (ok <==> r.Ok? && r.rest == []) && (r.Ok? && r.rest != [] ==> Head(r.rest).kind != Eof)
              && !r.Overflow? && Out() == if r.Ok? then r.out else r.partial
      decreases Slots(table.blocks), |Lex(text)|, 9
    {
      hide Lex, Expression;
      var saved := (source, index, hasBuffered, buffered);
      ghost var savedRaw := bufferedRaw;
      source, index, hasBuffered := text, 0, false;
      assert text[0..] == text;
      ViewUnbuffered();
      ok := ParseExpression();
      ViewKinds();
      if ok {
        var eof := BpNext();
        ok := eof.kind == Eof;
      }
      source, index, hasBuffered, buffered := saved.0, saved.1, saved.2, saved.3;
      bufferedRaw := savedRaw;
    }

    method EmitInlineStatements(text: string) returns (ok: bool)
      requires Valid() && !Statements(Lex(text), Out(), Cx()).Overflow?
      modifies this, bytecodes, literals, table
      ensures Valid() && View() == old(View()) && hasBuffered == old(hasBuffered)
      ensures var r := old(Statements(Lex(text), Out(), Cx()));
              && (ok <==> r.Ok?) && !r.Overflow? && Out() == if r.Ok? then r.out else r.partial
      decreases Slots(table.blocks), |Lex(text)|, 14
    {
      hide Lex, Statements;
      var saved := (source, index, hasBuffered, buffered);
      ghost var savedRaw := bufferedRaw;
      source, index, hasBuffered := text, 0, false;
      assert text[0..] == text;
      ViewUnbuffered();
      ok := ParseStatements();
      source, index, hasBuffered, buffered := saved.0, saved.1, saved.2, saved.3;
      bufferedRaw := savedRaw;
    }

    /** The code of a loop from the sources of its two blocks. */
    method EmitLoop(cond: string, body: string) returns (ok: bool)
      requires Valid() && !Loop(Lex(cond), Lex(body), View(), Out(), Cx()).Overflow?
      modifies this, bytecodes, literals, table
      ensures Valid() && Agrees(ok, old(Loop(Lex(cond), Lex(body), View(), Out(), Cx())))
      decreases Slots(table.blocks), |Lex(cond)| + |Lex(body)|, 15
    {
      hide Lex, Expression, Statements, EmitRef, U32, Patch, Loop, LoopEnd, Own, Cx;
      LoopCases(Lex(cond), Lex(body), View(), Out(), Cx());
      var start := bytecodeCount;
      ok := EmitInlineExpression(cond);
      if !ok {
        return;
      }
      var exit := EmitJumpPlaceholder(JUMP_IF_FALSE);
      ok := EmitInlineStatements(body);
      if !ok {
        return;
      }
      EmitLoopEnd(start, exit);
    }

    /** The jump back, the loop's exit patched to the end, and nil. */
    method EmitLoopEnd(start: nat, exit: nat)
      requires Valid() && exit + 4 <= bytecodeCount && LoopEnd(View(), Out(), start, exit).Ok?
      modifies this`bytecodeCount, this`literalCount, bytecodes, literals
      ensures Valid() && View() == old(View()) && Out() == old(LoopEnd(View(), Out(), start, exit)).out
    {
      hide Lex, EmitRef, U32, Patch, CloseAt;
      EmitSlot(JUMP, start);
      PatchU32(exit, bytecodeCount);
      EmitRefTo(PUSH_LITERAL, NIL_TOKEN);
    }

    /** The second block of a loop, whose bracket has been read, and then the loop's code. */
    method ParseLoopBody(cond: string) returns (ok: bool)
      requires Valid() && !hasBuffered && !LoopRest(Lex(cond), View(), Out(), Cx()).Overflow?
      modifies this, bytecodes, literals, table
      ensures Valid() && Agrees(ok, old(LoopRest(Lex(cond), View(), Out(), Cx())))
      decreases Slots(table.blocks), |Lex(cond)| + |View()|, 16
    {
      hide Lex, Loop, CloseAt, Raw;
      var body;
      ok, body := CaptureBlock();
      if !ok || |body| >= SOURCE_MAX {
        return false;
      }
      ok := EmitLoop(cond, body);
    }

    /** `whileTrue: [`, between the two blocks of a loop. */
    method ReadLoopKeyword() returns (ok: bool)
      requires Valid() && !hasBuffered
      modifies this`index, this`hasBuffered
      ensures Valid() && !hasBuffered
      ensures var v := old(View());
              && (ok <==> Head(v).kind == Keyword && Head(v).text == "whileTrue:" && IsSpecial(Head(Tail(v)), "["))
              && (ok ==> View() == Tail(Tail(v)))
    {
      hide Lex;
      var t := BpNext();
      if t.kind != Keyword || t.text != "whileTrue:" {
        return false;
      }
      t := BpNext();
      ok := IsSpecial(t, "[");
    }

    /** Tries `cond] whileTrue: [body]` after the bracket; what a failure has emitted stays. */
    method ParseWhileTrue() returns (ok: bool)
      requires Valid() && !hasBuffered && !WhileTrue(View(), Out(), Cx()).Overflow?
      modifies this, bytecodes, literals, table
      ensures Valid() && Agrees(ok, old(WhileTrue(View(), Out(), Cx())))
      decreases Slots(table.blocks), |View()|, 0
    {
      hide Lex, LoopRest, CloseAt, Raw, WhileTrue;
      ghost var v := View();
      WhileCases(v, Out(), Cx());
      var cond;
      ok, cond := CaptureBlock();
      if !ok || |cond| >= SOURCE_MAX {
        return false;
      }
      ok := ReadLoopKeyword();
      if !ok {
        return;
      }
      ok := ParseLoopBody(cond);
    }

    /** After an expression statement: returned at the end, dropped at a period. */
    method EndExpression() returns (e: Ending)
      requires Valid() && !AfterExpression(View(), Out(), Cx()).Overflow?
      modifies this, bytecodes
      ensures Valid()
      ensures var r := old(AfterExpression(View(), Out(), Cx()));
              match e
              case Again => Statements(View(), Out(), Cx()) == r && |View()| < |old(View())|
              case Stop(ok) => Agrees(ok, r)
    {
      hide Lex, Statements;
      ViewKinds();
      var t := BpNext();
      if t.kind == Eof {
        EmitByte(RETURN_TOP);
        sawReturn := true;
        return Stop(true);
      }
      if !IsSpecial(t, ".") {
        return Stop(false);
      }
      EmitByte(POP);
      return Again;
    }

    /** After a loop or an assignment: `pop` says whether a period drops a value. */
    method EndStatement(pop: bool) returns (e: Ending)
      requires Valid() && !AfterStatement(View(), Out(), Cx(), if pop then [POP] else []).Overflow?
      modifies this, bytecodes
      ensures Valid()
      ensures var r := old(AfterStatement(View(), Out(), Cx(), if pop then [POP] else []));
              match e
              case Again => Statements(View(), Out(), Cx()) == r && |View()| < |old(View())|
              case Stop(ok) => Agrees(ok, r)
    {
      hide Lex, Statements;
      ghost var o := Out();
      ViewKinds();
      var t := BpNext();
      if t.kind == Eof {
        return Stop(true);
      }
      if !IsSpecial(t, ".") {
        return Stop(false);
      }
      if pop {
        EmitByte(POP);
      } else {
        assert o.code + [] == o.code;
      }
      return Again;
    }

    method ParseReturn() returns (ok: bool)
      requires Valid() && !ReturnStatement(View(), Out(), Cx()).Overflow?
      modifies this, bytecodes, literals, table
      ensures Valid() && Agrees(ok, old(ReturnStatement(View(), Out(), Cx())))
      decreases Slots(table.blocks), |View()|, 10
    {
      hide Lex, Expression;
      ok := ParseExpression();
      if !ok {
        return;
      }
      ViewKinds();
      EmitByte(if inBlock then RETURN_NON_LOCAL else RETURN_TOP);
      sawReturn := true;
      var eof := BpNext();
      ok := eof.kind == Eof;
    }

    /** Where an assignment to a name stores: own temporary, captured slot, or field. */
    method StoreSlot(name: string) returns (known: bool, op: Byte, slot: nat)
      ensures known <==> StoreInto(name, Cx()) != []
      ensures known ==> StoreInto(name, Cx()) == [op] + U32(slot)
    {
      hide Find, OuterTempSlot, U32;
      var i := TempIndex(name);
      if i >= 0 {
        return true, STORE_TEMP, TempSlot(Own(), i);
      }
      i := OuterTemp(name);
      if i >= 0 {
        return true, STORE_TEMP, i;
      }
      i := IndexOf(ivars, name);
      if i < 0 {
        return false, STORE_INST_VAR, 0;
      }
      return true, STORE_INST_VAR, i;
    }

    /** The value of an assignment whose name and `:=` have been read, and its store. */
    method ParseAssignment(name: string) returns (e: Ending)
      requires Valid() && !AssignStatement(name, View(), Out(), Cx()).Overflow?
      modifies this, bytecodes, literals, table
      ensures Valid()
      ensures var r := old(AssignStatement(name, View(), Out(), Cx()));
              match e
              case Again => Statements(View(), Out(), Cx()) == r && |View()| < |old(View())|
              case Stop(ok) => Agrees(ok, r)
      ensures e == Again ==> Slots(table.blocks) <= old(Slots(table.blocks))
      decreases Slots(table.blocks), |View()|, 10
    {
      hide Lex, Expression, AfterStatement, Statements, Find, OuterTempSlot, U32;
      var known, op, slot := StoreSlot(name);
      if !known {
        return Stop(false);
      }
      hide StoreInto;
      var ok := ParseExpression();
      if !ok {
        return Stop(false);
      }
      EmitSlot(op, slot);
      e := EndStatement(false);
    }

    method ParseExpressionStatement() returns (e: Ending)
      requires Valid() && !ExpressionStatement(View(), Out(), Cx()).Overflow?
      modifies this, bytecodes, literals, table
      ensures Valid()
      ensures var r := old(ExpressionStatement(View(), Out(), Cx()));
              match e
              case Again => Statements(View(), Out(), Cx()) == r && |View()| < |old(View())|
              case Stop(ok) => Agrees(ok, r)
      ensures e == Again ==> Slots(table.blocks) <= old(Slots(table.blocks))
      decreases Slots(table.blocks), |View()|, 10
    {
      hide Lex, Expression, AfterExpression, Statements;
      var ok := ParseExpression();
      if !ok {
        return Stop(false);
      }
      e := EndExpression();
    }

    /** A statement whose first name has been read and is not assigned to. */
    method ParseNameStatement(t: Token) returns (e: Ending)
      requires Valid() && t.kind == Identifier && !NameStatement(t, View(), Out(), Cx()).Overflow?
      modifies this, bytecodes, literals, table
      ensures Valid()
      ensures var r := old(NameStatement(t, View(), Out(), Cx()));
              match e
              case Again => Statements(View(), Out(), Cx()) == r && |View()| < |old(View())|
              case Stop(ok) => Agrees(ok, r)
      ensures e == Again ==> Slots(table.blocks) <= old(Slots(table.blocks))
      decreases Slots(table.blocks), |View()|, 12
    {
      hide Lex, EmitAtom, Continuation, AfterExpression, Statements;
      var ok := EmitName(t);
      if ok {
        ok := ParseContinuation();
      }
      if !ok {
        return Stop(false);
      }
      e := EndExpression();
    }

    /** A statement that starts with `[`, which has been read: a loop or an expression. */
    method ParseBracketStatement(t: Token, ghost raw: string) returns (e: Ending)
      requires Valid() && !hasBuffered && IsSpecial(t, "[")
      requires !BracketStatement([Lexeme(t, raw)] + View(), Out(), Cx()).Overflow?
      modifies this, bytecodes, literals, table
      ensures Valid()
      ensures var r := old(BracketStatement([Lexeme(t, raw)] + View(), Out(), Cx()));
              match e
              case Again => Statements(View(), Out(), Cx()) == r && |View()| <= |old(View())|
              case Stop(ok) => Agrees(ok, r)
      ensures e == Again ==> Slots(table.blocks) <= old(Slots(table.blocks))
      decreases Slots(table.blocks), |View()| + 1, 11
    {
      hide Lex, WhileTrue, ExpressionStatement, AfterStatement, Statements;
      ghost var v := View();
      assert Tail([Lexeme(t, raw)] + v) == v;
      var saved := (source, index);
      var ok := ParseWhileTrue();
      if ok {
        e := EndStatement(true);
      } else {
        source, index, hasBuffered := saved.0, saved.1, false;
        ViewUnbuffered();
        BpUnread(t, raw);
        e := ParseExpressionStatement();
      }
    }

    /** One statement, whose first token is neither the end nor a period. */
    method ParseStatement() returns (e: Ending)
      requires Valid() && View() != [] && !IsSpecial(Head(View()), ".") && !Statements(View(), Out(), Cx()).Overflow?
      modifies this, bytecodes, literals, table
      ensures Valid()
      ensures var r := old(Statements(View(), Out(), Cx()));
              match e
              case Again => Statements(View(), Out(), Cx()) == r && |View()| < |old(View())|
              case Stop(ok) => Agrees(ok, r)
      ensures e == Again ==> Slots(table.blocks) <= old(Slots(table.blocks))
      decreases Slots(table.blocks), |View()|, 12
    {
      hide Lex, Statements, ReturnStatement, BracketStatement, AssignStatement, NameStatement, ExpressionStatement;
      ghost var v := View();
      ViewKinds();
      StatementCases(v, Out(), Cx());
      assert v == [v[0]] + Tail(v) && v[0] == Lexeme(v[0].token, v[0].raw);
      var t := BpNext();
      if IsSpecial(t, "^") {
        var ok := ParseReturn();
        e := Stop(ok);
      } else if IsSpecial(t, "[") {
        e := ParseBracketStatement(t, v[0].raw);
      } else if t.kind == Identifier {
        var becomes := Peek();
        if IsSpecial(becomes, ":=") {
          becomes := BpNext();
          e := ParseAssignment(t.text);
        } else {
          e := ParseNameStatement(t);
        }
      } else {
        BpUnread(t, v[0].raw);
        e := ParseExpressionStatement();
      }
    }

    method ParseStatements() returns (ok: bool)
      requires Valid() && !Statements(View(), Out(), Cx()).Overflow?
      modifies this, bytecodes, literals, table
      ensures Valid() && Agrees(ok, old(Statements(View(), Out(), Cx())))
      decreases Slots(table.blocks), |View()|, 13
    {
      hide Lex, Statements;
      while true
        invariant Valid() && |View()| <= |old(View())| && !Statements(View(), Out(), Cx()).Overflow?
        invariant Statements(View(), Out(), Cx()) == old(Statements(View(), Out(), Cx()))
        invariant Slots(table.blocks) <= old(Slots(table.blocks))
        decreases |View()|
      {
        ViewKinds();
        StatementsSkip(View(), Out(), Cx());
        var t := Peek();
        if t.kind == Eof {
          return true;
        }
        if IsSpecial(t, ".") {
          t := BpNext();
        } else {
          var e := ParseStatement();
          if e.Stop? {
            return e.ok;
          }
        }
      }
    }

    // --------------------------------------------------------------- bodies

    /** The names of a block's arguments, after the first colon. */
    method ParseArgs() returns (ok: bool)
      requires Valid() && names.args == []
      modifies this`index, this`hasBuffered, this`buffered, this`bufferedRaw, names`args
      ensures Valid()
      ensures var r := ArgNames(old(View()), []);
              && (ok <==> r.Names?) && (ok ==> View() == r.rest && names.args == r.names)
    {
      hide Lex;
      while true
        invariant Valid() && ArgNames(View(), names.args) == ArgNames(old(View()), [])
        decreases |View()|
      {
        ViewKinds();
        var t := BpNext();
        if t.kind != Identifier || |names.args| >= ARG_MAX {
          return false;
        }
        names.args := names.args + [Clip(t.text, NAME_MAX)];
        t := BpNext();
        if IsSpecial(t, "|") {
          return true;
        }
        if !IsSpecial(t, ":") {
          return false;
        }
      }
    }

    method ParseTempDecls() returns (ok: bool)
      requires Valid() && names.temps == []
      modifies this`index, this`hasBuffered, this`buffered, this`bufferedRaw, names`temps
      ensures Valid()
      ensures var r := TempDecls(old(View()));
              && (ok <==> r.Names?) && (ok ==> View() == r.rest && names.temps == r.names)
    {
      hide Lex;
      var bar := Peek();
      if !IsSpecial(bar, "|") {
        return true;
      }
      bar := BpNext();
      while true
        invariant Valid() && TempNames(View(), names.temps) == TempDecls(old(View()))
        decreases |View()|
      {
        var t := BpNext();
        if IsSpecial(t, "|") {
          return true;
        }
        if t.kind != Identifier || |names.temps| >= TEMP_MAX {
          return false;
        }
        names.temps := names.temps + [Clip(t.text, NAME_MAX)];
      }
    }

    /** A block's own arguments, when there are any. */
    method ParseBlockHeader() returns (ok: bool)
      requires Valid() && names.args == []
      modifies this`index, this`hasBuffered, this`buffered, this`bufferedRaw, names`args
      ensures Valid()
      ensures var r := BlockHeader(old(View()));
              && (ok <==> r.Names?) && (ok ==> View() == r.rest && names.args == r.names)
    {
      hide Lex, ArgNames;
      ok := true;
      var colon := Peek();
      if IsSpecial(colon, ":") {
        colon := BpNext();
        ok := ParseArgs();
      }
    }

    /** The end of a body whose statements have been parsed: a block that does not return answers nil. */
    method FinishBody(ghost rest: seq<Lexeme>) returns (ok: bool, body: Body)
      requires Valid() && !Finish(Ok(rest, Out()), inBlock, |names.args|, |names.temps|).TooLarge?
      modifies this, bytecodes, literals
      ensures match old(Finish(Ok(rest, Out()), inBlock, |names.args|, |names.temps|))
              case Accepted(b, blocks) => ok && body == b && table.blocks == blocks
              case Rejected(blocks) => !ok && table.blocks == blocks
              case TooLarge => false
    {
      hide Lex, EmitRef;
      RefAnywhere(View(), Out(), PUSH_LITERAL, NIL_TOKEN);
      if inBlock && !sawReturn {
        EmitRefTo(PUSH_LITERAL, NIL_TOKEN);
        EmitByte(RETURN_TOP);
        sawReturn := true;
      }
      body := Body(bytecodes[..bytecodeCount], literals[..literalCount], |names.args|, |names.temps|);
      ok := sawReturn;
    }

    /** Compiles the whole text: block header, temporaries, statements. */
    method Compile() returns (ok: bool, body: Body)
      requires Valid() && names.temps == [] && (inBlock ==> names.args == [])
      requires Out() == Output([], [], table.blocks, false)
      requires !CompileBody(View(), table.blocks, names.args, outers, ivars, inBlock, offset).TooLarge?
      modifies this, bytecodes, literals, table, names
      ensures match old(CompileBody(View(), table.blocks, names.args, outers, ivars, inBlock, offset))
              case Accepted(b, blocks) => ok && body == b && table.blocks == blocks
              case Rejected(blocks) => !ok && table.blocks == blocks
              case TooLarge => false
      decreases Slots(table.blocks), |View()|, 14
    {
      hide Lex, Statements, Finish, TempDecls, BlockHeader;
      ok, body := true, EMPTY_BODY;
      if inBlock {
        ok := ParseBlockHeader();
      }
      if ok {
        ok := ParseTempDecls();
      }
      if !ok {
        return;
      }
      ghost var parsed := Statements(View(), Out(), Cx());
      FinishCases(parsed, inBlock, |names.args|, |names.temps|);
      ok := ParseStatements();
      if ok {
        ok, body := FinishBody(parsed.rest);
      }
    }
  }

  lemma FinishCases(p: Parse, inBlock: bool, args: nat, temps: nat)
    ensures p.Overflow? ==> Finish(p, inBlock, args, temps).TooLarge?
    ensures p.Fail? ==> Finish(p, inBlock, args, temps) == Rejected(p.partial.blocks)
  {
  }

  lemma LoopCases(cond: seq<Lexeme>, body: seq<Lexeme>, toks: seq<Lexeme>, st: Output, cx: Context)
    ensures var p := Expression(cond, st, cx);
            Loop(cond, body, toks, st, cx) ==
              if !p.Ok? then p
              else if p.rest != [] && Head(p.rest).kind != Eof then Fail(p.out)
              else
                var q := Emit([], p.out, [JUMP_IF_FALSE] + U32(0));
                if !q.Ok? then q
                else
                  var r := Statements(body, q.out, cx);
                  if !r.Ok? then r else LoopEnd(toks, r.out, |st.code|, |p.out.code| + 1)
  {
    hide Expression, Statements, U32, Patch, EmitRef;
  }

  /** A loop from its second block on, once the tokens of its first are known. */
  function LoopRest(cond: seq<Lexeme>, toks: seq<Lexeme>, st: Output, cx: Context): Parse {
    var m := CloseAt(toks, "[", "]", 1);
    if m == 0 || |Raw(toks[..m])| > SOURCE_MAX then Fail(st) else Loop(cond, toks[..m - 1], toks[m..], st, cx)
  }

  /** One part of a keyword message, and then another part or the send. */
  lemma KeywordCases(keyword: Token, toks: seq<Lexeme>, st: Output, cx: Context, sel: string, argc: nat)
    ensures var p, selector := BinaryExpression(toks, st, cx), Clip(sel + keyword.text, SELECTOR_MAX);
            KeywordMessage(keyword, toks, st, cx, sel, argc) ==
              if !p.Ok? then p
              else if Head(p.rest).kind == Keyword then
                KeywordMessage(Head(p.rest), Tail(p.rest), p.out, cx, selector, argc + 1)
              else EmitSend(p.rest, p.out, selector, argc + 1)
  {
    hide BinaryExpression, EmitSend;
  }

  /** What `WhileTrue` does, case by case. */
  lemma WhileCases(v: seq<Lexeme>, st: Output, cx: Context)
    ensures var n := CloseAt(v, "[", "]", 1);
            WhileTrue(v, st, cx) ==
              if n == 0 || |Raw(v[..n])| > SOURCE_MAX || Head(v[n..]).kind != Keyword
                  || Head(v[n..]).text != "whileTrue:"
                 || !IsSpecial(Head(Tail(v[n..])), "[") then Fail(st)
              else LoopRest(v[..n - 1], Tail(Tail(v[n..])), st, cx)
  {
    hide Loop, CloseAt, Raw;
  }

  lemma StatementCases(toks: seq<Lexeme>, st: Output, cx: Context)
    requires toks != [] && Head(toks).kind != Eof && !IsSpecial(Head(toks), ".")
    ensures var t, rest := Head(toks), Tail(toks);
            Statements(toks, st, cx) ==
              if IsSpecial(t, "^") then ReturnStatement(rest, st, cx)
              else if IsSpecial(t, "[") then BracketStatement(toks, st, cx)
              else if t.kind == Identifier && IsSpecial(Head(rest), ":=")
                   then AssignStatement(t.text, Tail(rest), st, cx)
              else if t.kind == Identifier then NameStatement(t, rest, st, cx)
              else ExpressionStatement(toks, st, cx)
  {
    hide ReturnStatement, BracketStatement, AssignStatement, NameStatement, ExpressionStatement;
  }

  lemma StatementsSkip(toks: seq<Lexeme>, st: Output, cx: Context)
    ensures toks == [] ==> Statements(toks, st, cx) == Ok([], st)
    ensures toks != [] && IsSpecial(Head(toks), ".") ==> Statements(toks, st, cx) == Statements(Tail(toks), st, cx)
  {
    hide ReturnStatement, BracketStatement, AssignStatement, NameStatement, ExpressionStatement;
  }

  lemma CloseAtStep(v: seq<Lexeme>, c: nat, opening: string, closing: string, depth: nat)
    requires c < |v| && depth > 0 && v[c].token.kind != Eof && opening != closing
    ensures v[c..][0] == v[c] && v[c..][1..] == v[c + 1..]
    ensures var t := v[c].token;
            var d := if IsSpecial(t, opening) then depth + 1 else if IsSpecial(t, closing) then depth - 1 else depth;
            CloseAt(v[c..], opening, closing, depth) ==
              if d == 0 then 1
              else if CloseAt(v[c + 1..], opening, closing, d) == 0
                   then 0 else 1 + CloseAt(v[c + 1..], opening, closing, d)
  {
  }

  lemma CloseAtEnd(v: seq<Lexeme>, c: nat, opening: string, closing: string, depth: nat)
    requires c <= |v| && depth > 0
    ensures c == |v| ==> v[c..] == [] && CloseAt(v[c..], opening, closing, depth) == 0
    ensures c < |v| ==> Head(v[c..]) == v[c].token && Tail(v[c..]) == v[c + 1..]
  {
  }

  lemma RefAnywhere(toks: seq<Lexeme>, st: Output, op: Byte, t: Token)
    ensures EmitRef(toks, st, op, t, []).Ok? <==> EmitRef([], st, op, t, []).Ok?
    ensures EmitRef([], st, op, t, []).Ok? ==> EmitRef(toks, st, op, t, []).out == EmitRef([], st, op, t, []).out
  {
    hide U32;
  }

  /** The text up to the bracket that closes a block: what its tokens say that it is. */
  lemma CapturedText(s: string, n: nat, k: nat)
    requires n == CloseAt(Lex(s), "[", "]", 1) != 0 && k == Consumed(s, n)
    ensures 0 < k <= |s| && Lex(s[..k - 1]) == Lex(s)[..n - 1]
    ensures k == |Raw(Lex(s)[..n])| && s[..k - 1] == BlockText(Lex(s)[..n])
  {
    hide Lex, Next, CloseAt, Consumed, Raw;
    CloseAtBracket(Lex(s), "[", "]", 1);
    ConsumedIsRaw(s, n);
    ConsumedStep(s, n - 1);
    LexCut(s, n - 1, k - 1);
    assert s[..k][..k - 1] == s[..k - 1];
  }

  lemma ConsumedNone(s: string)
    ensures Consumed(s, 0) == 0
  {
  }

  lemma {:induction false} CloseAtBracket(toks: seq<Lexeme>, opening: string, closing: string, depth: nat)
    requires depth > 0 && CloseAt(toks, opening, closing, depth) != 0
    ensures IsSpecial(toks[CloseAt(toks, opening, closing, depth) - 1].token, closing)
    decreases |toks|
  {
    var t := Head(toks);
    if !(IsSpecial(t, closing) && depth == 1) {
      CloseAtBracket(toks[1..], opening, closing,
                     if IsSpecial(t, opening) then depth + 1 else if IsSpecial(t, closing) then depth - 1 else depth);
    }
  }

  lemma LexEmpty()
    ensures Lex("") == []
  {
  }

  lemma {:induction false} FindLiteralAt(pool: seq<Token>, t: Token, i: nat)
    requires i <= |pool| && t !in pool[..i] && (i < |pool| ==> pool[i] == t)
    ensures FindLiteral(pool, t) == i
    decreases i
  {
    if i > 0 {
      assert pool[0] == pool[..i][0] && pool[1..][..i - 1] == pool[..i][1..];
      FindLiteralAt(pool[1..], t, i - 1);
    }
  }

  /** A text without the spaces at its ends. */
  method TrimBounds(text: string) returns (start: nat, end: nat)
    ensures start == TrimStart(text, 0) && end == TrimEnd(text, start, |text|)
  {
    start, end := 0, |text|;
    while start < end && IsSpace(text[start])
      invariant start <= |text| && TrimStart(text, start) == TrimStart(text, 0)
    {
      start := start + 1;
    }
    while end > start && IsSpace(text[end - 1])
      invariant start <= end <= |text| && TrimEnd(text, start, end) == TrimEnd(text, start, |text|)
    {
      end := end - 1;
    }
  }

  /** The source of a block's second try. */
  method ImplicitSource(text: string) returns (ok: bool, implicit: string)
    ensures ok <==> Implicit(text) != ""
    ensures ok ==> implicit == Implicit(text)
  {
    implicit := "";
    var start, end := TrimBounds(text);
    if start == end {
      return false, "";
    }
    var insertion := start;
    if text[insertion] == '|' {
      var bar := insertion + 1;
      while bar < end && text[bar] != '|'
        invariant start < bar <= end && AfterBar(text, bar, end) == AfterBar(text, start + 1, end)
      {
        bar := bar + 1;
      }
      if bar >= end {
        return false, "";
      }
      insertion := bar + 1;
    }
    implicit := text[..insertion] + " ^ " + text[insertion..end];
    ok := |implicit| < SOURCE_MAX;
  }

  method IndexOf(names: seq<string>, name: string) returns (r: int)
    ensures r == Find(names, name)
  {
    var i := 0;
    while i < |names|
      invariant i <= |names| && name !in names[..i]
    {
      if names[i] == name {
        FindAt(names, name, i);
        return i;
      }
      assert names[..i + 1] == names[..i] + [names[i]];
      i := i + 1;
    }
    assert names[..i] == names;
    return -1;
  }

  lemma {:induction false} FindAt(names: seq<string>, name: string, i: nat)
    requires i < |names| && name !in names[..i] && names[i] == name
    ensures Find(names, name) == i
    decreases i
  {
    if i > 0 {
      assert names[0] == names[..i][0] && names[1..][..i - 1] == names[..i][1..];
      FindAt(names[1..], name, i - 1);
    }
  }

  /** A text never yields an end token among its tokens. */
  lemma {:induction false} LexKinds(s: string)
    ensures forall i :: 0 <= i < |Lex(s)| ==> Lex(s)[i].token.kind != Eof
    decreases |s|
  {
    hide Next;
    if Lex(s) != [] {
      LexStep(s);
      LexKinds(s[Next(s).1..]);
    }
  }
}
