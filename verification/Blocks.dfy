/**
 A block from its source to its run: it is compiled in its surroundings, made in a frame, called on
 any stack later, and does what direct execution of its statements does with the values that the
 variables around it had when it was made.
 */
module Blocks {
  import opened Lexer
  import opened Codegen
  import opened Programs
  import opened Machine
  import opened Stores
  import opened Meaning
  import E = Execution
  import F = Frames
  import A = Activations
  import R = Closures
  import C = Captures
  import T = Printing
  import W = Words

  // ----------------------------------------------------------------- the literal

  /**
   The instruction for a block literal refers to a pool entry with the block's number, which is its
   place in the table: there its body is.
   */
  lemma BlockReferred(t: Token, toks: seq<Lexeme>, st: Output, cx: Context)
    requires IsSpecial(t, "[") && EmitPrimary(t, toks, st, cx).Ok?
    ensures var out, k, i := EmitPrimary(t, toks, st, cx).out, |st.blocks|,
                             FindLiteral(st.pool, Token(BlockLiteral, BlockName(|st.blocks|), |st.blocks|));
            && k < BLOCK_MAX && out.code == st.code + ([14] + U32(i) + []) && i < |out.pool|
            && out.pool[i] == Token(BlockLiteral, "block:" + T.Numeral(k), k)
            && var n := CloseAt(toks, "[", "]", 1);
               && n != 0
               && var c := CompileBlock(toks[..n - 1], BlockText(toks[..n]), st.blocks, cx);
                  c.Accepted? && k < |c.blocks| == |out.blocks| && out.blocks[k] == c.body
  {
    hide CompileBlock, FindLiteral, Interned, CloseAt, Raw, BlockText, U32, BlockName;
    var k := |st.blocks|;
    assert k < BLOCK_MAX;
    NameOfBlock(k);
  }

  lemma NameOfBlock(k: nat)
    requires k < 100
    ensures BlockName(k) == "block:" + T.Numeral(k)
  {
    OneDigit(k % 10);
    if k >= 10 {
      OneDigit(k / 10);
      assert T.Numeral(k / 10) == [T.DigitOf(k / 10)];
      assert T.Numeral(k) == T.Numeral(k / 10) + [T.DigitOf(k % 10)];
    }
  }

  lemma OneDigit(k: nat)
    requires k < 10
    ensures Digit(k) == T.DigitOf(k)
  {
  }

  // ----------------------------------------------------------------- the creator's frame

  /** No temporary here has the name of an argument of this scope or of one around it. */
  ghost predicate NoShadow(cx: Context) {
    forall name :: name in cx.scope.temps ==> !C.IsArg([cx.scope] + cx.outers, name)
  }

  /**
   A frame in which blocks may be made: it holds the variables of its scope, has a slot for each of
   its copies and temporaries, and its variables are where a block inside will look for them.
   */
  ghost predicate Creator(m: State, v: Vars, cx: Context, objects: map<Word, seq<Word>>) {
    && FrameHolds(m, v, cx) && F.FrameFits(m.mem, m.fp) && A.WellTagged(objects, m.mem, m.fp)
    && A.SlotCount(objects, m.mem, m.fp) == cx.scope.offset + |cx.scope.temps|
    && cx.scope.offset + |cx.scope.temps| + 4 <= m.fp && C.Capturable(cx.scope) && NoShadow(cx)
  }

  /** The arguments and slots of the creator's frame. */
  function ValuesHere(m: State, cx: Context): C.Values
    requires F.FrameFits(m.mem, m.fp) && cx.scope.offset + |cx.scope.temps| + 4 <= m.fp
  {
    R.ValuesOf(m.mem, m.fp, cx.scope.offset + |cx.scope.temps|)
  }

  lemma CreatorFrame(m: State, v: Vars, cx: Context, objects: map<Word, seq<Word>>)
    requires Creator(m, v, cx, objects)
    ensures C.FrameOf(cx.scope, ValuesHere(m, cx)) && C.Nested(cx.scope, cx.outers)
  {
    hide C.Nested;
  }

  /** What the scope's code reads by a name is what the name stands for. */
  lemma CreatorReads(m: State, v: Vars, cx: Context, objects: map<Word, seq<Word>>, name: string)
    requires Creator(m, v, cx, objects) && name in v.named
    ensures C.FrameOf(cx.scope, ValuesHere(m, cx))
    ensures var r := C.Resolve(cx.scope, cx.outers, name);
            && r.Found? && C.Declares(cx.scope, cx.outers, r.v)
            && C.Read(cx.scope, cx.outers, ValuesHere(m, cx), r.v) == C.Value(v.named[name])
  {
    CreatorFrame(m, v, cx, objects);
    HeldName(m, v, cx, name);
    ReadHere(m, cx, C.Resolve(cx.scope, cx.outers, name).v);
  }

  lemma HeldName(m: State, v: Vars, cx: Context, name: string)
    requires FrameHolds(m, v, cx) && name in v.named
    ensures C.Resolve(cx.scope, cx.outers, name).Found?
    ensures var x := C.Resolve(cx.scope, cx.outers, name).v;
            && C.Declares(cx.scope, cx.outers, x) && PlaceIn(PlaceOf(x, cx), cx)
            && WordAt(m, PlaceOf(x, cx)) == v.named[name]
  {
    hide C.Nested, C.Resolve, SlotCount;
    ResolvedName(name, cx);
    assert Holds(m, name, v.named[name], cx);
    ReadPlaceIn(name, cx);
  }

  /** The word at a variable's place is what the scope's code reads for it. */
  lemma ReadHere(m: State, cx: Context, x: C.Variable)
    requires FrameFor(cx, m) && F.FrameFits(m.mem, m.fp) && cx.scope.offset + |cx.scope.temps| + 4 <= m.fp
    requires C.Nested(cx.scope, cx.outers) && C.Capturable(cx.scope) && C.FrameOf(cx.scope, ValuesHere(m, cx))
    requires C.Declares(cx.scope, cx.outers, x) && PlaceIn(PlaceOf(x, cx), cx)
    ensures C.Read(cx.scope, cx.outers, ValuesHere(m, cx), x) == C.Value(WordAt(m, PlaceOf(x, cx)))
  {
    if x.depth > 0 {
      C.OuterSlotsBelow(cx.scope, cx.outers, x);
    }
    hide C.Nested, C.Resolve;
  }

  /**
   What the names in a block stand for when it is called: its temporaries 0, its arguments the words
   given, first one highest, and all others what they stood for where it was made.
   */
  function BlockVars(d: Block, v: Vars, mem: seq<Word>, sp: nat): Vars
    requires sp + |d.args| <= |mem|
  {
    var temps, args := Declared(d.rest.temps), ArgsDeclared(d.args);
    Vars(v.receiver,
         map name | name in (set n | n in temps) + (set n | n in args) + v.named.Keys ::
           if name in temps then 0
           else if name in args then mem[sp + |args| - 1 - Find(args, name)]
           else v.named[name])
  }

  /** The state in which a block's code starts. */
  function BlockState(mem: seq<Word>, sp: nat, callerFp: Word, savedIp: Word, block: Word,
                      objects: map<Word, seq<Word>>, n: nat, heap: Heap): State
    requires A.IsBlockObject(objects, block) && A.BlockSlots(objects, block) + 6 <= sp && sp + n < |mem| && n < 0x100
  {
    State(A.BlockActivated(mem, sp, callerFp, savedIp, block, objects, n), sp - 6 - A.BlockSlots(objects, block),
          sp - 2,
          0, heap)
  }

  /** A block that was made in a frame, and is called with its arguments on a stack with room for it. */
  ghost predicate Called(d: Block, m: State, v: Vars, cx: Context, objects: map<Word, seq<Word>>, cm: Word, block: Word,
                         mem1: seq<Word>, objects1: map<Word, seq<Word>>, mem2: seq<Word>, sp: nat) {
    && Creator(m, v, cx, objects) && |mem1| == |m.mem|
    && A.BlockMade(m.mem, objects, m.fp, cm, block, mem1, objects1)
    && A.IsBlockObject(objects1, block) && F.DeclaredTemps(objects1, cm) == |d.rest.temps|
    && A.BlockSlots(objects1, block) + 6 <= sp && 7 <= sp && sp + |d.args| < |mem2| && |d.args| < 0x100
    && (d.args == [] || d.rest.temps == [])
  }

  lemma Lengths(d: Block, cx: Context)
    ensures var own := BlockContext(d, cx).scope;
            && |own.args| == |d.args| && |own.temps| == |d.rest.temps| && own.inBlock
            && own.offset == cx.scope.offset + |cx.scope.args| + |cx.scope.temps|
    ensures BlockContext(d, cx).outers == [cx.scope] + cx.outers
  {
  }

  /** The words of a block's frame. */
  lemma BlockWords(d: Block, m: State, v: Vars, cx: Context, objects: map<Word, seq<Word>>, cm: Word, block: Word,
                   mem1: seq<Word>, objects1: map<Word, seq<Word>>, mem2: seq<Word>, sp: nat, callerFp: Word,
                   savedIp: Word)
    requires Called(d, m, v, cx, objects, cm, block, mem1, objects1, mem2, sp)
    ensures var r := A.BlockActivated(mem2, sp, callerFp, savedIp, block, objects1, |d.args|);
            var own, slots := BlockContext(d, cx).scope, A.BlockSlots(objects1, block);
            && slots == own.offset + |own.temps| && F.FrameFits(r, sp - 2) && r[sp - 6] == m.mem[m.fp - 4]
            && F.NumArgs(r[sp - 4]) == |d.args|
            && F.FrameTemps(r, sp - 2, slots) == C.Copies(ValuesHere(m, cx)) + F.Zeros(|own.temps|)
            && |C.Copies(ValuesHere(m, cx))| == own.offset
            && F.FrameArgs(r, sp - 2) == F.Reverse(mem2[sp..sp + |d.args|])
  {
    hide F.NumArgs, F.HasContext, F.HasClosure, F.IsBlock, F.DeclaredTemps, A.BlockActivated, F.Reverse, A.BlockMade,
         FrameHolds, NoShadow, C.Capturable, F.FrameTemps, F.Zeros, F.FrameArgs;
    CreatorFrame(m, v, cx, objects);
    Lengths(d, cx);
    R.MadeThenRun(m.mem, objects, m.fp, cm, block, mem1, objects1, mem2, sp, callerFp, savedIp, |d.args|);
    var r := A.BlockActivated(mem2, sp, callerFp, savedIp, block, objects1, |d.args|);
    assert |F.FrameArgs(r, sp - 2)| == |F.Reverse(mem2[sp..sp + |d.args|])|;
  }

  /** Names that the block does not declare are those of its surroundings. */
  lemma OuterNames(d: Block, cx: Context, name: string)
    requires name !in BlockContext(d, cx).scope.temps && name !in BlockContext(d, cx).scope.args && NoShadow(cx)
    ensures var own := BlockContext(d, cx);
            C.Resolve(own.scope, own.outers, name) == C.Resolve(cx.scope, cx.outers, name).Outward()
  {
    var own := BlockContext(d, cx);
    Lengths(d, cx);
    assert own.outers[1..] == cx.outers && own.outers[0] == cx.scope;
    if C.Resolve(cx.scope, cx.outers, name).Found? {
      C.SameVariable(cx.scope, cx.outers, own.scope, name);
    }
  }

  /** A name of the surroundings is read in the block as it was when the block was made. */
  lemma OuterHeld(d: Block, m: State, v: Vars, cx: Context, objects: map<Word, seq<Word>>, r: seq<Word>, f: nat,
                  name: string)
    requires Creator(m, v, cx, objects) && name in v.named
    requires name !in BlockContext(d, cx).scope.temps && name !in BlockContext(d, cx).scope.args
    requires var slots := BlockContext(d, cx).scope.offset + |d.rest.temps|;
             f < |r| && slots + 4 <= f && C.Copies(ValuesHere(m, cx)) <= F.FrameTemps(r, f, slots)
    ensures var own := BlockContext(d, cx); var x := C.Resolve(own.scope, own.outers, name);
            && x.Found? && C.Declares(own.scope, own.outers, x.v) && x.v.depth > 0
            && var n := C.OuterSlot(own.outers, x.v); n + 5 <= f && r[f - 5 - n] == v.named[name]
  {
    hide FrameHolds, A.WellTagged, A.SlotCount, NoShadow, C.Capturable;
    var own, slots := BlockContext(d, cx), BlockContext(d, cx).scope.offset + |d.rest.temps|;
    Lengths(d, cx);
    OuterNames(d, cx, name);
    CreatorReads(m, v, cx, objects, name);
    ResolvedName(name, own);
    var x := C.Resolve(cx.scope, cx.outers, name).v;
    var values1 := C.Values(F.Zeros(|own.scope.args|), F.FrameTemps(r, f, slots));
    hide C.Resolve, F.FrameTemps;
    CreatorFrame(m, v, cx, objects);
    C.CapturedSlot(cx.scope, cx.outers, own.scope, ValuesHere(m, cx), values1, x);
    SlotOf(r, f, slots, C.OuterSlot(own.outers, x.Outward()));
  }

  lemma SlotOf(r: seq<Word>, f: nat, slots: nat, n: nat)
    requires f < |r| && slots + 4 <= f && n < slots
    ensures n + 5 <= f && F.FrameTemps(r, f, slots)[n] == r[f - 5 - n]
  {
  }

  /** The frame of a block that is called: copies, zeros, and the arguments given. */
  ghost predicate Framed(d: Block, m: State, cx: Context, mem2: seq<Word>, sp: nat, st: State) {
    && F.FrameFits(m.mem, m.fp) && cx.scope.offset + |cx.scope.temps| + 4 <= m.fp
    && FrameFor(BlockContext(d, cx), st) && st.fp + 2 == sp && F.FrameFits(st.mem, st.fp)
    && C.Nested(BlockContext(d, cx).scope, BlockContext(d, cx).outers) && sp + |d.args| < |mem2|
    && var own := BlockContext(d, cx).scope;
       && own.offset + |own.temps| + 4 <= st.fp && |C.Copies(ValuesHere(m, cx))| == own.offset
       && F.FrameTemps(st.mem, st.fp, own.offset + |own.temps|) == C.Copies(ValuesHere(m, cx)) + F.Zeros(|own.temps|)
       && F.FrameArgs(st.mem, st.fp) == F.Reverse(mem2[sp..sp + |d.args|])
  }

  lemma TempName(d: Block, m: State, cx: Context, mem2: seq<Word>, sp: nat, st: State, name: string)
    requires Framed(d, m, cx, mem2, sp, st) && (d.args == [] || d.rest.temps == [])
    requires Find(BlockContext(d, cx).scope.temps, name) >= 0
    ensures Holds(st, name, 0, BlockContext(d, cx))
  {
    var own := BlockContext(d, cx);
    var i := Find(own.scope.temps, name);
    Lengths(d, cx);
    hide C.Nested, SlotCount, F.FrameTemps, F.FrameArgs, Find, C.Copies;
    SlotOf(st.mem, st.fp, own.scope.offset + |own.scope.temps|, own.scope.offset + i);
    OwnHeld(st, own, name, C.Temp(0, i));
  }

  lemma ArgName(d: Block, m: State, cx: Context, mem2: seq<Word>, sp: nat, st: State, name: string)
    requires Framed(d, m, cx, mem2, sp, st)
    requires Find(BlockContext(d, cx).scope.temps, name) < 0 <= Find(BlockContext(d, cx).scope.args, name)
    ensures Holds(st, name, mem2[sp + |d.args| - 1 - Find(BlockContext(d, cx).scope.args, name)], BlockContext(d, cx))
  {
    var own := BlockContext(d, cx);
    var j := Find(own.scope.args, name);
    Lengths(d, cx);
    hide C.Nested, SlotCount, F.FrameTemps, Find, C.Copies;
    assert F.FrameArgs(st.mem, st.fp)[j] == F.FrameArg(st.mem, st.fp, j);
    assert F.Reverse(mem2[sp..sp + |d.args|])[j] == mem2[sp + |d.args| - 1 - j];
    OwnHeld(st, own, name, C.Arg(0, j));
  }

  lemma OuterName(d: Block, m: State, v: Vars, cx: Context, objects: map<Word, seq<Word>>, mem2: seq<Word>, sp: nat,
                  st: State, name: string)
    requires Creator(m, v, cx, objects) && Framed(d, m, cx, mem2, sp, st) && name in v.named
    requires name !in BlockContext(d, cx).scope.temps && name !in BlockContext(d, cx).scope.args
    ensures Holds(st, name, v.named[name], BlockContext(d, cx))
  {
    hide *;
    var own := BlockContext(d, cx);
    FramedParts(d, m, cx, mem2, sp, st);
    OuterHeld(d, m, v, cx, objects, st.mem, st.fp, name);
    var x := C.Resolve(own.scope, own.outers, name).v;
    OwnHeld(st, own, name, x);
    FarWord(st, own, x);
  }

  lemma FramedParts(d: Block, m: State, cx: Context, mem2: seq<Word>, sp: nat, st: State)
    requires Framed(d, m, cx, mem2, sp, st)
    ensures F.FrameFits(m.mem, m.fp) && cx.scope.offset + |cx.scope.temps| + 4 <= m.fp
    ensures var own := BlockContext(d, cx); var slots := own.scope.offset + |d.rest.temps|;
            && FrameFor(own, st) && C.Nested(own.scope, own.outers) && 5 <= st.fp < |st.mem| && slots + 4 <= st.fp
            && C.Copies(ValuesHere(m, cx)) <= F.FrameTemps(st.mem, st.fp, slots)
  {
    Lengths(d, cx);
    hide C.Nested, SlotCount, F.FrameTemps, F.FrameArgs, C.Copies, F.Reverse, F.Zeros, BlockContext, F.FrameFits,
         ValuesHere;
  }

  lemma FarWord(m: State, cx: Context, x: C.Variable)
    requires C.Declares(cx.scope, cx.outers, x) && x.depth > 0
    requires 5 <= m.fp < |m.mem| && C.OuterSlot(cx.outers, x) + 5 <= m.fp
    ensures WordAt(m, PlaceOf(x, cx)) == m.mem[m.fp - 5 - C.OuterSlot(cx.outers, x)]
  {
  }

  lemma OneName(d: Block, m: State, v: Vars, cx: Context, objects: map<Word, seq<Word>>, mem2: seq<Word>, sp: nat,
                st: State, name: string)
    requires Creator(m, v, cx, objects) && Framed(d, m, cx, mem2, sp, st) && (d.args == [] || d.rest.temps == [])
    ensures var own, v1 := BlockContext(d, cx), BlockVars(d, v, mem2, sp);
            && (name in v1.named <==> C.Resolve(own.scope, own.outers, name).Found?)
            && (name in v1.named ==> FrameFor(own, st) && C.Nested(own.scope, own.outers)
                                     && Holds(st, name, v1.named[name], own))
  {
    var own, v1 := BlockContext(d, cx), BlockVars(d, v, mem2, sp);
    var i, j := Find(own.scope.temps, name), Find(own.scope.args, name);
    assert FrameHolds(m, v, cx) && NoShadow(cx);
    assert FrameFor(own, st) && C.Nested(own.scope, own.outers);
    OwnNames(d, v, cx, mem2, sp, name);
    hide *;
    if i >= 0 {
      TempName(d, m, cx, mem2, sp, st, name);
    } else if j >= 0 {
      ArgName(d, m, cx, mem2, sp, st, name);
    } else {
      NotNamed(m, v, cx, name);
      OuterNames(d, cx, name);
      if name in v.named {
        OuterName(d, m, v, cx, objects, mem2, sp, st, name);
      }
    }
  }

  /** What a name stands for in the block, by where it is declared. */
  lemma OwnNames(d: Block, v: Vars, cx: Context, mem2: seq<Word>, sp: nat, name: string)
    requires sp + |d.args| <= |mem2|
    ensures var own, v1 := BlockContext(d, cx), BlockVars(d, v, mem2, sp);
            var i, j := Find(own.scope.temps, name), Find(own.scope.args, name);
            && (name in v1.named <==> i >= 0 || j >= 0 || name in v.named)
            && (i >= 0 ==> v1.named[name] == 0 && C.Resolve(own.scope, own.outers, name).Found?
                           && name in own.scope.temps)
            && (i < 0 <= j ==> v1.named[name] == mem2[sp + |d.args| - 1 - j]
                               && C.Resolve(own.scope, own.outers, name).Found?)
            && (i < 0 && j < 0 ==> name !in own.scope.temps && name !in own.scope.args)
            && (i < 0 && j < 0 && name in v.named ==> v1.named[name] == v.named[name])
  {
    Lengths(d, cx);
    hide Find;
  }

  lemma NotNamed(m: State, v: Vars, cx: Context, name: string)
    requires FrameHolds(m, v, cx)
    ensures name in v.named <==> C.Resolve(cx.scope, cx.outers, name).Found?
  {
  }

  /** A name's value is the word at the place of the variable that it resolves to. */
  lemma OwnHeld(m: State, cx: Context, name: string, x: C.Variable)
    requires FrameFor(cx, m) && C.Nested(cx.scope, cx.outers)
    requires C.Resolve(cx.scope, cx.outers, name) == C.Found(x)
    ensures C.Declares(cx.scope, cx.outers, x) && PlaceIn(PlaceOf(x, cx), cx)
    ensures Holds(m, name, WordAt(m, PlaceOf(x, cx)), cx)
  {
    hide C.Resolve, C.Nested, SlotCount;
    ResolvedName(name, cx);
    ReadPlaceIn(name, cx);
  }

  /** A block's activation gives its compiled code the frame that its names describe. */
  lemma BlockHolds(d: Block, m: State, v: Vars, cx: Context, objects: map<Word, seq<Word>>, cm: Word, block: Word,
                   mem1: seq<Word>, objects1: map<Word, seq<Word>>, mem2: seq<Word>, sp: nat, callerFp: Word,
                   savedIp: Word, heap: Heap)
    requires Called(d, m, v, cx, objects, cm, block, mem1, objects1, mem2, sp)
    ensures FrameHolds(BlockState(mem2, sp, callerFp, savedIp, block, objects1, |d.args|, heap),
                       BlockVars(d, v, mem2, sp), BlockContext(d, cx))
  {
    var own := BlockContext(d, cx);
    var st := BlockState(mem2, sp, callerFp, savedIp, block, objects1, |d.args|, heap);
    var v1 := BlockVars(d, v, mem2, sp);
    assert Framed(d, m, cx, mem2, sp, st) && st.mem[st.fp - 4] == m.mem[m.fp - 4] by {
      BlockFramed(d, m, v, cx, objects, cm, block, mem1, objects1, mem2, sp, callerFp, savedIp, heap);
    }
    assert FrameFor(own, st) && C.Nested(own.scope, own.outers) && v1.receiver == v.receiver == m.mem[m.fp - 4];
    hide *;
    forall name ensures (name in v1.named <==> C.Resolve(own.scope, own.outers, name).Found?)
                        && (name in v1.named ==> Holds(st, name, v1.named[name], own)) {
      OneName(d, m, v, cx, objects, mem2, sp, st, name);
    }
    AllHeld(st, v1, own);
  }

  lemma AllHeld(m: State, v: Vars, cx: Context)
    requires FrameFor(cx, m) && m.mem[m.fp - 4] == v.receiver && C.Nested(cx.scope, cx.outers)
    requires forall name :: (name in v.named <==> C.Resolve(cx.scope, cx.outers, name).Found?)
                            && (name in v.named ==> Holds(m, name, v.named[name], cx))
    ensures FrameHolds(m, v, cx)
  {
  }

  lemma BlockFramed(d: Block, m: State, v: Vars, cx: Context, objects: map<Word, seq<Word>>, cm: Word, block: Word,
                    mem1: seq<Word>, objects1: map<Word, seq<Word>>, mem2: seq<Word>, sp: nat, callerFp: Word,
                    savedIp: Word, heap: Heap)
    requires Called(d, m, v, cx, objects, cm, block, mem1, objects1, mem2, sp)
    ensures var st := BlockState(mem2, sp, callerFp, savedIp, block, objects1, |d.args|, heap);
            Framed(d, m, cx, mem2, sp, st) && st.mem[st.fp - 4] == m.mem[m.fp - 4]
  {
    hide A.BlockActivated, A.BlockMade, F.FrameTemps, F.FrameArgs, F.Zeros, SlotCount, F.Reverse, C.Copies;
    BlockWords(d, m, v, cx, objects, cm, block, mem1, objects1, mem2, sp, callerFp, savedIp);
    CreatorFrame(m, v, cx, objects);
    Lengths(d, cx);
    SlotsInFrame(BlockContext(d, cx).scope);
  }

  /**
   End to end for blocks.  A block of the grammar, compiled inside a scope, made in a frame of that
   scope and called later, on any stack with room: it answers a value, leaves its home with one, or
   runs off the end of its code, exactly when direct execution of its statements does, with the
   variables around it as they were when it was made.
   */
  lemma BlockRuns(d: Block, text: string, blocks: seq<Body>, cx: Context, b: Body, blocks1: seq<Body>,
                  m: State, v: Vars, objects: map<Word, seq<Word>>, cm: Word, block: Word, mem1: seq<Word>,
                  objects1: map<Word, seq<Word>>, mem2: seq<Word>, sp: nat, callerFp: Word, savedIp: Word,
                  w: World, heap0: Heap, value: Word, heap: Heap)
    requires WellFormedBlock(d, cx) && |blocks| < BLOCK_MAX && Scoped(BlockContext(d, cx))
    requires CompileBlock(BlockLex(d), text, blocks, cx) == Accepted(b, blocks1)
    requires E.Evaluable(d.rest.body, BlockContext(d, cx))
    requires Called(d, m, v, cx, objects, cm, block, mem1, objects1, mem2, sp)
    requires A.BlockSlots(objects1, block) + 6 + Max(1, E.NeedStmts(d.rest.body, BlockContext(d, cx))) <= sp
    ensures var st := BlockState(mem2, sp, callerFp, savedIp, block, objects1, |d.args|, heap0);
            var own, s, v1 := BlockContext(d, cx), d.rest.body, BlockVars(d, v, mem2, sp);
            && ((exists fuel :: E.Answers(E.Exec(s, w, v1, own, heap0, fuel), s, value, heap))
                <==> (exists k, st1 :: Run(E.Loading(b, w), w, st, k) == Returned(value, st1) && st1.heap == heap))
            && ((exists fuel :: E.Exec(s, w, v1, own, heap0, fuel) == E.Leaves(value, heap))
                <==> (exists k, st1 :: Run(E.Loading(b, w), w, st, k) == Left(value, st1) && st1.heap == heap))
            && ((exists fuel :: E.FallsOff(E.Exec(s, w, v1, own, heap0, fuel), s))
                <==> (exists k, st1 :: Run(E.Loading(b, w), w, st, k) == Running(st1) && st1.ip == |b.code|))
  {
    var st := BlockState(mem2, sp, callerFp, savedIp, block, objects1, |d.args|, heap0);
    var own, s, v1 := BlockContext(d, cx), d.rest.body, BlockVars(d, v, mem2, sp);
    BlockHolds(d, m, v, cx, objects, cm, block, mem1, objects1, mem2, sp, callerFp, savedIp, heap0);
    assert WellFormedStmts(s, own);
    assert E.Entered(st, s, v1, own);
    hide *;
    E.BlockCorrect(d, text, blocks, cx, b, blocks1, w, st, v1, value, heap);
  }
}
