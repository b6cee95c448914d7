/**
 Closures over a run of activations: reification does not disturb what it records, a block's
 home is the frame that created it, and the slots that the compiler numbers are the slots
 that block creation and activation fill.
 */
module Closures {
  import W = Words
  import opened Frames
  import opened Activations
  import C = Captures
  import G = Codegen
  import L = Lexer
  import M = Machine

  // ----------------------------------------------------------------- reification

  /** The chain is still a chain after a reification. */
  lemma StillChain(mem: seq<Word>, objects: map<Word, seq<Word>>, f: Word, from: nat, useSp: bool,
                   ipField: (Word, Word) -> Word,
                   context: Word, mem1: seq<Word>, objects1: map<Word, seq<Word>>)
    requires Chain(mem, objects, f) && |mem| == |mem1| < W.TWO_32
    requires Ensured(mem, objects, f, from, useSp, ipField, context, mem1, objects1)
    ensures Chain(mem1, objects1, f)
  {
    hide NumArgs, HasContext, HasClosure, IsBlock, Reified;
    ChainKept(mem, mem1, objects, objects1, f);
  }

  /** A second reification answers the same context and changes nothing: neither the stack nor the objects. */
  lemma ReifiedOnce(mem: seq<Word>, objects: map<Word, seq<Word>>, f: Word, from: nat, useSp: bool,
                    ipField: (Word, Word) -> Word,
                    context: Word, mem1: seq<Word>, objects1: map<Word, seq<Word>>,
                    from2: nat, useSp2: bool, context2: Word, mem2: seq<Word>, objects2: map<Word, seq<Word>>)
    requires Chain(mem, objects, f) && |mem| == |mem1| == |mem2| < W.TWO_32 && !IsEnd(f)
    requires Ensured(mem, objects, f, from, useSp, ipField, context, mem1, objects1) && context != 0
    ensures Chain(mem1, objects1, f)
    ensures Ensured(mem1, objects1, f, from2, useSp2, ipField, context2, mem2, objects2) ==>
              context2 == context && mem2 == mem1 && objects2 == objects1
  {
    StillChain(mem, objects, f, from, useSp, ipField, context, mem1, objects1);
    FrameKept(mem, objects, f, from, useSp, ipField, context, mem1, objects1);
    ChainHead(mem, objects, f);
    hide NumArgs, IsBlock, ContextFields, DeclaredTemps, SameCalls;
  }

  /**
   Reified with its stack pointer and activated again anywhere with room, a frame is the same
   activation, block or method, with the same stack.
   */
  lemma ReifiedRoundTrip(mem: seq<Word>, objects: map<Word, seq<Word>>, f: Word, sp: nat, ipField: (Word, Word) -> Word,
                         context: Word, mem1: seq<Word>, objects1: map<Word, seq<Word>>,
                         mem2: seq<Word>, sp2: nat, callerFp: Word, savedIp: Word)
    requires Chain(mem, objects, f) && !IsEnd(f) && |mem| == |mem1| < W.TWO_32 && !HasContext(mem[f - 2])
    requires sp + DeclaredTemps(objects, mem[f - 1]) + 4 <= f
    requires Ensured(mem, objects, f, sp, true, ipField, context, mem1, objects1) && context != 0
    requires NumArgs(mem[f - 2]) + (f - 4 - sp) + 8 <= sp2 <= |mem2|
    ensures context in objects1 && Restores(objects1[context], mem, f, sp, mem2, sp2, callerFp, savedIp, context)
  {
    hide NumArgs, IsBlock, HasClosure, ContextFields, DeclaredTemps, SameCalls, Restores;
    var t := DeclaredTemps(objects, mem[f - 1]);
    RoundTrip(mem, f, sp, t, SenderOf(mem1, mem[f]), ipField(mem[f + 1], mem[f - 1]), HomeOf(objects, Closure(mem, f)),
              mem2, sp2, callerFp, savedIp, context);
  }

  // ----------------------------------------------------------------- all frames of a chain

  ghost predicate OnChain(mem: seq<Word>, f: Word, h: Word)
    decreases |mem| - f
  {
    f == h || (IsFrame(mem, f) && f < mem[f] && OnChain(mem, mem[f], h))
  }

  ghost predicate HasThisContext(mem: seq<Word>, h: Word, context: Word) {
    IsFrame(mem, h) && HasContext(mem[h - 2]) && mem[h - 3] == context
  }

  /** A frame of a chain is where it should be, and tagged. */
  lemma {:induction false} FrameOn(mem: seq<Word>, objects: map<Word, seq<Word>>, f: Word, g: Word)
    requires Chain(mem, objects, f) && AllTagged(mem, objects, f) && OnChain(mem, f, g) && !IsEnd(g)
    ensures f <= g && !IsEnd(f) && IsFrame(mem, g) && FrameFits(mem, g) && WellTagged(objects, mem, g)
            && Chain(mem, objects, g) && AllTagged(mem, objects, g)
    decreases |mem| - f
  {
    hide NumArgs, WellTagged, DeclaredTemps;
    if f != g {
      FrameOn(mem, objects, mem[f], g);
    }
  }

  /**
   What became of a frame of a chain: it is as it was, or it has got a context that records it, a
   caller's being cut at its temporaries.
   */
  ghost predicate KeptOrReified(mem: seq<Word>, objects: map<Word, seq<Word>>, g: Word, from: nat, useSp: bool,
                                ipField: (Word, Word) -> Word, mem1: seq<Word>, objects1: map<Word, seq<Word>>)
    requires Chain(mem, objects, g) && !IsEnd(g) && |mem| == |mem1| < W.TWO_32
  {
    if HasContext(mem[g - 2]) || !HasContext(mem1[g - 2]) then mem1[g - 2] == mem[g - 2] && mem1[g - 3] == mem[g - 3]
    else Reified(mem, objects, g, from, useSp, ipField, mem1[g - 3], mem1, objects1)
  }

  /** It is so for every frame of the chain. */
  lemma {:induction false} EachReified(mem: seq<Word>, objects: map<Word, seq<Word>>, f: Word, from: nat, useSp: bool,
                                       ipField: (Word, Word) -> Word, mem1: seq<Word>, objects1: map<Word, seq<Word>>,
                                       g: Word)
    requires Chain(mem, objects, f) && |mem| == |mem1| < W.TWO_32 && AllTagged(mem, objects, f)
    requires AllReified(mem, objects, f, from, useSp, ipField, mem1, objects1) && OnChain(mem, f, g) && !IsEnd(g)
    ensures Chain(mem, objects, g)
    ensures g == f ==> KeptOrReified(mem, objects, g, from, useSp, ipField, mem1, objects1)
    ensures g != f ==> KeptOrReified(mem, objects, g, 0, false, ipField, mem1, objects1)
    decreases |mem| - f
  {
    hide NumArgs, HasContext, WellTagged, DeclaredTemps, Reified;
    FrameOn(mem, objects, f, g);
    if f != g && !HasContext(mem[f - 2]) && HasContext(mem1[f - 2]) {
      EachReified(mem, objects, mem[f], 0, false, ipField, mem1, objects1, g);
    }
  }

  /**
   The contexts of a chain are linked as its frames are: the sender of a frame's new context is the
   context that its caller has, nil for the last frame or when the caller found no room for one.
   */
  lemma SendersAreCallers(mem: seq<Word>, objects: map<Word, seq<Word>>, f: Word, from: nat, useSp: bool,
                          ipField: (Word, Word) -> Word, context: Word, mem1: seq<Word>, objects1: map<Word, seq<Word>>,
                          g: Word)
    requires Chain(mem, objects, f) && |mem| == |mem1| < W.TWO_32 && AllTagged(mem, objects, f)
    requires Ensured(mem, objects, f, from, useSp, ipField, context, mem1, objects1)
    requires OnChain(mem, f, g) && IsFrame(mem, g) && 3 <= g && mem[g - 2] % 2 == 0 && mem1[g - 2] % 2 == 1
    ensures mem1[g - 3] in objects1 && |objects1[mem1[g - 3]]| > 0
    ensures var caller, sender := mem[g], objects1[mem1[g - 3]][0];
            && (IsEnd(caller) ==> sender == W.NIL)
            && (!IsEnd(caller) ==>
                  && 3 <= caller < |mem1|
                  && sender == if mem1[caller - 2] % 2 == 1 && mem1[caller - 3] != 0 then mem1[caller - 3] else W.NIL)
  {
    hide NumArgs, IsBlock, HasClosure, SameCalls, DeclaredTemps, CutAt, AllReified, WithContext, HomeOf, Closure,
         ContextsGrow, OnlyMarks, FrameArgs, FrameTemps, WellTagged;
    FrameOn(mem, objects, f, g);
    EachReified(mem, objects, f, from, useSp, ipField, mem1, objects1, g);
  }

  /**
   Reification moves blocks and homes into contexts, where they are found again: every frame of
   the chain runs the block that it ran, and has the home that it had.
   */
  lemma ReifiedHome(mem: seq<Word>, objects: map<Word, seq<Word>>, f: Word, from: nat, useSp: bool,
                    ipField: (Word, Word) -> Word,
                    context: Word, mem1: seq<Word>, objects1: map<Word, seq<Word>>, g: Word)
    requires Chain(mem, objects, f) && |mem| == |mem1| < W.TWO_32 && AllTagged(mem, objects, f) && W.NIL !in objects
    requires Ensured(mem, objects, f, from, useSp, ipField, context, mem1, objects1)
    requires OnChain(mem, f, g) && !IsEnd(g)
    ensures FrameFits(mem, g) && WellTagged(objects, mem, g) && FrameFits(mem1, g) && WellTagged(objects1, mem1, g)
    ensures OnChain(mem1, f, g)
    ensures HasContext(mem[g - 2]) ==> HasContext(mem1[g - 2]) && mem1[g - 3] == mem[g - 3]
    ensures FrameClosure(objects1, mem1, g) == FrameClosure(objects, mem, g)
    ensures FrameHome(objects1, mem1, g) == FrameHome(objects, mem, g)
  {
    assert OnChain(mem1, f, g) by { SameChain(mem, objects, mem1, f, g); }
    assert Chain(mem1, objects1, f) && AllTagged(mem1, objects1, f) by {
      StillChain(mem, objects, f, from, useSp, ipField, context, mem1, objects1);
    }
    FrameOn(mem, objects, f, g);
    FrameOn(mem1, objects1, f, g);
    EachReified(mem, objects, f, from, useSp, ipField, mem1, objects1, g);
    SameFrameHome(mem, objects, g, if g == f then from else 0, if g == f then useSp else false, ipField, mem1,
                  objects1);
  }

  /** The calls of a chain after it is reified. */
  lemma {:induction false} SameChain(mem: seq<Word>, objects: map<Word, seq<Word>>, mem1: seq<Word>, f: Word, g: Word)
    requires |mem1| == |mem| && Chain(mem, objects, f) && SameCalls(mem, mem1, f) && OnChain(mem, f, g)
    ensures OnChain(mem1, f, g)
    decreases |mem| - f
  {
    hide NumArgs, IsBlock, DeclaredTemps;
    if f != g {
      SameChain(mem, objects, mem1, mem[f], g);
    }
  }

  lemma SameFrameHome(mem: seq<Word>, objects: map<Word, seq<Word>>, g: Word, from: nat, useSp: bool,
                      ipField: (Word, Word) -> Word, mem1: seq<Word>, objects1: map<Word, seq<Word>>)
    requires Chain(mem, objects, g) && !IsEnd(g) && |mem| == |mem1| < W.TWO_32 && W.NIL !in objects
    requires KeptOrReified(mem, objects, g, from, useSp, ipField, mem1, objects1) && Extends(objects, objects1)
    requires FrameFits(mem, g) && WellTagged(objects, mem, g) && FrameFits(mem1, g) && WellTagged(objects1, mem1, g)
    ensures HasContext(mem[g - 2]) ==> HasContext(mem1[g - 2]) && mem1[g - 3] == mem[g - 3]
    ensures FrameClosure(objects1, mem1, g) == FrameClosure(objects, mem, g)
    ensures FrameHome(objects1, mem1, g) == FrameHome(objects, mem, g)
  {
    hide NumArgs, IsBlock, DeclaredTemps, CutAt, Chain, FrameArgs, FrameTemps;
  }

  /**
   What the context of a frame restores, made in one call with the contexts of all its callers.
   A caller is cut at its temporaries: activated again it has its receiver, method, arguments and
   the first of its slots, as many as its method declares, and nothing below them.
   */
  lemma ReifiedRestores(mem: seq<Word>, objects: map<Word, seq<Word>>, f: Word, from: nat, useSp: bool,
                        ipField: (Word, Word) -> Word,
                        context: Word, mem1: seq<Word>, objects1: map<Word, seq<Word>>, g: Word,
                        mem2: seq<Word>, sp2: nat, callerFp: Word, savedIp: Word)
    requires Chain(mem, objects, f) && |mem| == |mem1| < W.TWO_32 && AllTagged(mem, objects, f)
    requires Ensured(mem, objects, f, from, useSp, ipField, context, mem1, objects1)
    requires OnChain(mem, f, g) && IsFrame(mem, g) && !HasContext(mem[g - 2]) && HasContext(mem1[g - 2])
    requires FrameFits(mem, g) && DeclaredTemps(objects, mem[g - 1]) + 4 <= g
    requires var lo := if g == f then CutAt(objects, mem, g, from, useSp)
                                      else g - 4 - DeclaredTemps(objects, mem[g - 1]);
             NumArgs(mem[g - 2]) + (g - 4 - lo) + 8 <= sp2 <= |mem2|
    ensures mem1[g - 3] in objects1
    ensures var lo := if g == f then CutAt(objects, mem, g, from, useSp)
                                     else g - 4 - DeclaredTemps(objects, mem[g - 1]);
            Restores(objects1[mem1[g - 3]], mem, g, lo, mem2, sp2, callerFp, savedIp, mem1[g - 3])
  {
    hide NumArgs, IsBlock, HasClosure, HasContext, ContextFields, SameCalls, Restores, Chain, AllTagged, DeclaredTemps,
         CutAt, AllReified, WithContext, HomeOf, Closure, OnChain, ContextsGrow, OnlyMarks;
    EachReified(mem, objects, f, from, useSp, ipField, mem1, objects1, g);
    CallerCut(objects, mem, g);
    hide Ensured;
    var t := DeclaredTemps(objects, mem[g - 1]);
    var lo := if g == f then CutAt(objects, mem, g, from, useSp) else g - 4 - t;
    RoundTrip(mem, g, lo, t, SenderOf(mem1, mem[g]), ipField(mem[g + 1], mem[g - 1]), HomeOf(objects, Closure(mem, g)),
              mem2, sp2, callerFp, savedIp, mem1[g - 3]);
  }

  lemma CallerCut(objects: map<Word, seq<Word>>, mem: seq<Word>, g: nat)
    requires FrameFits(mem, g) && DeclaredTemps(objects, mem[g - 1]) + 4 <= g
    ensures CutAt(objects, mem, g, 0, false) == g - 4 - DeclaredTemps(objects, mem[g - 1])
  {
  }

  /**
   All slots of a caller are restored if and only if it runs no block, or one without copies:
   copies come first, so a block that has some loses as many of its own slots.
   */
  lemma CallerSlotsIff(mem: seq<Word>, objects: map<Word, seq<Word>>, g: Word)
    requires FrameFits(mem, g) && WellTagged(objects, mem, g) && SlotCount(objects, mem, g) + 4 <= g
    ensures var kept, closure := DeclaredTemps(objects, mem[g - 1]), FrameClosure(objects, mem, g);
            && kept <= SlotCount(objects, mem, g)
            && FrameTemps(mem, g, kept) == FrameTemps(mem, g, SlotCount(objects, mem, g))[..kept]
            && (FrameTemps(mem, g, kept) == FrameTemps(mem, g, SlotCount(objects, mem, g))
                <==> closure == W.NIL || |objects[closure]| == BLOCK_COPIED_BASE)
  {
    hide NumArgs, DeclaredTemps, WellTagged;
  }

  // ----------------------------------------------------------------- homes

  lemma {:induction false} InContexts(mem: seq<Word>, f: Word, h: Word, context: Word)
    requires OnChain(mem, f, h) && HasThisContext(mem, h, context)
    ensures context in Contexts(mem, f)
    decreases |mem| - f
  {
    if f != h {
      InContexts(mem, mem[f], h, context);
    }
  }

  /** The search for a home finds a frame exactly when one on the chain has the context, and then the nearest one. */
  lemma {:induction false} HomeIsNearest(mem: seq<Word>, objects: map<Word, seq<Word>>, f: Word, context: Word, g: Word)
    requires Chain(mem, objects, f) && OnChain(mem, f, g)
    ensures var h := HomeFrame(mem, objects, f, context);
            && (h != 0 ==> OnChain(mem, f, h) && HasThisContext(mem, h, context))
            && (HasThisContext(mem, g, context) ==> h != 0 && OnChain(mem, h, g))
    decreases if IsEnd(f) then 0 else |mem| - f
  {
    hide NumArgs, HasContext, DeclaredTemps;
    if !IsEnd(f) && !(HasContext(mem[f - 2]) && mem[f - 3] == context) {
      if f == g {
        HomeIsNearest(mem, objects, mem[f], context, mem[f]);
      } else {
        HomeIsNearest(mem, objects, mem[f], context, g);
      }
    }
  }

  /**
   The home found for a running block is the frame that created it, from any number of frames
   below, as long as that frame is on the chain.
   */
  lemma {:induction false} HomeIsCreator(mem: seq<Word>, objects: map<Word, seq<Word>>, f: Word, context: Word,
                                         creator: Word)
    requires Chain(mem, objects, f) && Distinct(mem, f)
    requires OnChain(mem, f, creator) && HasThisContext(mem, creator, context)
    ensures HomeFrame(mem, objects, f, context) == creator
    decreases |mem| - f
  {
    hide NumArgs, HasContext, DeclaredTemps;
    if f != creator {
      InContexts(mem, mem[f], creator, context);
      HomeIsCreator(mem, objects, mem[f], context, creator);
    }
  }

  /**
   The frame of the method whose text a frame's code stands in: the frame itself when it runs
   no block, else that of the frame that created its block; 0 when one of them is gone.
   */
  ghost function MethodFrame(mem: seq<Word>, objects: map<Word, seq<Word>>, f: Word): Word
    requires Chain(mem, objects, f) && AllTagged(mem, objects, f)
    decreases |mem| - f
  {
    if IsEnd(f) then 0
    else if IsBlock(mem[f - 2]) == 0 then f
    else
      var home := HomeFrame(mem, objects, mem[f], FrameHome(objects, mem, f));
      if home == 0 then 0 else MethodFrame(mem, objects, home)
  }

  lemma {:induction false} MethodFrameRunsNoBlock(mem: seq<Word>, objects: map<Word, seq<Word>>, f: Word)
    requires Chain(mem, objects, f) && AllTagged(mem, objects, f)
    ensures var m := MethodFrame(mem, objects, f); m != 0 ==> FrameFits(mem, m) && IsBlock(mem[m - 2]) == 0
    decreases |mem| - f
  {
    hide NumArgs, IsBlock, DeclaredTemps;
    if !IsEnd(f) && IsBlock(mem[f - 2]) != 0 {
      var home := HomeFrame(mem, objects, mem[f], FrameHome(objects, mem, f));
      if home != 0 {
        MethodFrameRunsNoBlock(mem, objects, home);
      }
    }
  }

  /**
   A non-local return from a block goes to the caller of the method if and only if the frame
   that created the block runs no block itself: from a nested block it is the enclosing
   block's frame that is returned from.
   */
  lemma ReturnsFromMethodIff(mem: seq<Word>, objects: map<Word, seq<Word>>, f: Word, creator: Word)
    requires Chain(mem, objects, f) && AllTagged(mem, objects, f) && Distinct(mem, f) && !IsEnd(f)
             && IsBlock(mem[f - 2]) != 0
    requires !IsEnd(mem[f]) && OnChain(mem, mem[f], creator) && HasThisContext(mem, creator, FrameHome(objects, mem, f))
    ensures var home := HomeFrame(mem, objects, f, FrameHome(objects, mem, f));
            home == creator && (home == MethodFrame(mem, objects, f) <==> IsBlock(mem[creator - 2]) == 0)
  {
    hide NumArgs, HasContext, IsBlock, DeclaredTemps, WellTagged, FrameHome;
    HomeIsCreator(mem, objects, f, FrameHome(objects, mem, f), creator);
    HomeIsCreator(mem, objects, mem[f], FrameHome(objects, mem, f), creator);
    MethodFrameRunsNoBlock(mem, objects, creator);
    assert MethodFrame(mem, objects, f) == MethodFrame(mem, objects, creator);
  }

  /** A method's frame at 32, a block that it created at 20, and a block that that one created at 8. */
  const NEST_STACK: seq<Word> :=
    Zeros(40)[32 := SENTINEL][31 := 1600][30 := 1][29 := 800]
             [20 := 32][19 := 1600][18 := 0x1_0001][17 := 880]
             [8 := 20][7 := 1600][6 := 0x1_0002][5 := 960]

  /** A method without temporaries, the two contexts, and the inner block, whose home is the outer block's context. */
  const NEST_OBJECTS: map<Word, seq<Word>> :=
    map[1600 := [], 800 := [W.NIL, 0, 1600, 0, W.NIL, W.NIL, 0, 0, 0, 0],
        880 := [800, 0, 1600, 0, 800, 1040, 0, 0, 0, 0],
        1040 := [800, 0, 1600], 960 := [880, 0, 1600]]

  /** A return from the inner block returns from the outer block, not from the method. */
  lemma NestedReturn()
    ensures Chain(NEST_STACK, NEST_OBJECTS, 8) && AllTagged(NEST_STACK, NEST_OBJECTS, 8) && Distinct(NEST_STACK, 8)
    ensures HomeFrame(NEST_STACK, NEST_OBJECTS, 8, FrameHome(NEST_OBJECTS, NEST_STACK, 8)) == 20
    ensures MethodFrame(NEST_STACK, NEST_OBJECTS, 8) == 32
  {
    var mem, objects := NEST_STACK, NEST_OBJECTS;
    assert Contexts(mem, mem[32]) == {};
    assert Contexts(mem, 32) == {mem[29]} + Contexts(mem, mem[32]);
    assert Chain(mem, objects, 32) && AllTagged(mem, objects, 32) && Distinct(mem, 32);
    assert Chain(mem, objects, 20) && AllTagged(mem, objects, 20) && Contexts(mem, 20) == {880, 800}
           && Distinct(mem, 20);
    assert MethodFrame(mem, objects, 32) == 32;
    assert MethodFrame(mem, objects, 20) == 32;
  }

  // ----------------------------------------------------------------- running a block

  function ValuesOf(mem: seq<Word>, fp: nat, slots: nat): (r: C.Values)
    requires FrameFits(mem, fp) && slots + 4 <= fp
    ensures r.slots == FrameTemps(mem, fp, slots)
  {
    C.Values(FrameArgs(mem, fp), FrameTemps(mem, fp, slots))
  }

  /**
   A block made in one frame and run later, on any stack, gets a frame whose receiver is its
   creator's, whose first slots are its creator's arguments and slots as they were, whose own
   slots are 0, and whose home is its creator's context.
   */
  lemma MadeThenRun(mem: seq<Word>, objects: map<Word, seq<Word>>, fp: nat, cm: Word, block: Word, mem1: seq<Word>,
                    objects1: map<Word, seq<Word>>,
                    mem2: seq<Word>, sp: nat, callerFp: Word, savedIp: Word, n: nat)
    requires FrameFits(mem, fp) && WellTagged(objects, mem, fp) && SlotCount(objects, mem, fp) + 4 <= fp
             && |mem1| == |mem|
    requires BlockMade(mem, objects, fp, cm, block, mem1, objects1) && block != W.NIL
    requires IsBlockObject(objects1, block) && BlockSlots(objects1, block) + 6 <= sp && sp + n < |mem2| && n < 0x100
             && TEMP_BASE + 2 <= sp
    ensures var values := ValuesOf(mem, fp, SlotCount(objects, mem, fp));
            var r, f := BlockActivated(mem2, sp, callerFp, savedIp, block, objects1, n), sp - 2;
            && FrameFits(r, f) && WellTagged(objects1, r, f) && r[f - 4] == mem[fp - 4] && r[f - 1] == cm
            && SlotCount(objects1, r, f) == BlockSlots(objects1, block)
               == |C.Copies(values)| + DeclaredTemps(objects1, cm)
            && FrameTemps(r, f, SlotCount(objects1, r, f)) == C.Copies(values) + Zeros(DeclaredTemps(objects1, cm))
            && FrameArgs(r, f) == Reverse(mem2[sp..sp + n])
            && FrameHome(objects1, r, f) == mem1[fp - 3]
  {
    hide NumArgs, HasContext, HasClosure, IsBlock, FrameArgs, FrameTemps, DeclaredTemps, BlockActivated, Zeros, Reverse;
    BlockFrame(mem2, sp, callerFp, savedIp, block, objects1, n);
    var fields := objects1[block];
    assert fields[BLOCK_COPIED_BASE..] == C.Copies(ValuesOf(mem, fp, SlotCount(objects, mem, fp)));
  }

  /** The instruction at the instruction pointer pushes a slot of the frame. */
  lemma SlotPushed(p: M.Program, w: M.World, m: M.State, slot: nat, slots: nat)
    requires TEMP_BASE <= m.fp < |m.mem| < W.TWO_32 && slot < slots && slots + 4 <= m.fp
    requires m.ip + 5 <= |p.code| && p.code[m.ip..m.ip + 5] == [G.PUSH_TEMP] + G.U32(slot)
    ensures M.Step(p, w, m) == M.Push(m, FrameTemps(m.mem, m.fp, slots)[slot], m.ip + 5)
  {
    hide G.U32, M.ReadU32, M.Push;
    var code := p.code[m.ip..m.ip + 5];
    assert p.code[m.ip] == code[0] && p.code[m.ip + 1..m.ip + 5] == code[1..] == G.U32(slot);
    M.U32RoundTrip(p.code, m.ip + 1, slot);
  }

  /** The frame of a block, as the compiler's scopes see it: the copies come first. */
  lemma BlockEntered(own: G.Scope, outers: seq<G.Scope>, inner: G.Scope,
                     mem: seq<Word>, objects: map<Word, seq<Word>>, fp: nat, cm: Word, block: Word, mem1: seq<Word>,
                     objects1: map<Word, seq<Word>>, mem2: seq<Word>, sp: nat, callerFp: Word, savedIp: Word)
    requires C.Nested(inner, [own] + outers)
    requires FrameFits(mem, fp) && WellTagged(objects, mem, fp) && SlotCount(objects, mem, fp) + 4 <= fp
             && |mem1| == |mem|
    requires C.FrameOf(own, ValuesOf(mem, fp, SlotCount(objects, mem, fp)))
    requires BlockMade(mem, objects, fp, cm, block, mem1, objects1) && block != W.NIL
             && DeclaredTemps(objects1, cm) == |inner.temps|
    requires IsBlockObject(objects1, block) && BlockSlots(objects1, block) + 6 <= sp && sp + |inner.args| < |mem2|
    requires |inner.args| < 0x100 && TEMP_BASE + 2 <= sp
    ensures var r := BlockActivated(mem2, sp, callerFp, savedIp, block, objects1, |inner.args|);
            var values := ValuesOf(mem, fp, SlotCount(objects, mem, fp));
            && FrameFits(r, sp - 2) && C.Entered(values, inner, ValuesOf(r, sp - 2, BlockSlots(objects1, block)))
  {
    hide NumArgs, HasContext, HasClosure, IsBlock, DeclaredTemps, BlockActivated, Reverse, WellTagged, BlockMade,
         FrameArgs, FrameTemps;
    MadeThenRun(mem, objects, fp, cm, block, mem1, objects1, mem2, sp, callerFp, savedIp, |inner.args|);
    assert ([own] + outers)[0] == own;
  }

  /**
   Captured variables from the compiler to the stack: the instruction that the compiler emits
   in a block for a variable around it, run in a frame of that block, pushes what the variable
   was in the creating frame when the block was made.
   */
  lemma CapturedAtRun(own: G.Scope, outers: seq<G.Scope>, inner: G.Scope, ivars: seq<string>, t: L.Token, v: C.Variable,
                      mem: seq<Word>, objects: map<Word, seq<Word>>, fp: nat, cm: Word, block: Word, mem1: seq<Word>,
                      objects1: map<Word, seq<Word>>, mem2: seq<Word>, sp: nat, callerFp: Word, savedIp: Word,
                      st: G.Output, st1: G.Output, p: M.Program, w: M.World, m: M.State)
    requires C.Nested(own, outers) && C.Nested(inner, [own] + outers) && C.Capturable(own)
    requires t.kind == L.Identifier && t.text !in {"self", "super", "thisContext", "nil", "true", "false"}
    requires C.Declares(own, outers, v) && C.Resolve(inner, [own] + outers, t.text) == C.Found(v.Outward())
    requires FrameFits(mem, fp) && WellTagged(objects, mem, fp) && SlotCount(objects, mem, fp) + 4 <= fp
             && |mem1| == |mem|
    requires C.FrameOf(own, ValuesOf(mem, fp, SlotCount(objects, mem, fp)))
    requires BlockMade(mem, objects, fp, cm, block, mem1, objects1) && block != W.NIL
             && DeclaredTemps(objects1, cm) == |inner.temps|
    requires IsBlockObject(objects1, block) && BlockSlots(objects1, block) + 6 <= sp
             && sp + |inner.args| < |mem2| < W.TWO_32
    requires |inner.args| < 0x100 && TEMP_BASE + 2 <= sp
    requires G.EmitAtom(t, [], st, G.Context(inner, [own] + outers, ivars)) == G.Ok([], st1)
    requires |st.code| == m.ip && |st1.code| <= |p.code| && p.code[m.ip..|st1.code|] == st1.code[m.ip..]
    requires m.fp == sp - 2 && |m.mem| == |mem2|
    requires var r := BlockActivated(mem2, sp, callerFp, savedIp, block, objects1, |inner.args|);
             FrameTemps(m.mem, m.fp, BlockSlots(objects1, block)) == FrameTemps(r, sp - 2, BlockSlots(objects1, block))
    ensures var read := C.Read(own, outers, ValuesOf(mem, fp, SlotCount(objects, mem, fp)), v);
            read.Value? && M.Step(p, w, m) == M.Push(m, read.w, |st1.code|)
  {
    hide *;
    var cx, slots := G.Context(inner, [own] + outers, ivars), BlockSlots(objects1, block);
    var values := ValuesOf(mem, fp, SlotCount(objects, mem, fp));
    var r := BlockActivated(mem2, sp, callerFp, savedIp, block, objects1, |inner.args|);
    BlockEntered(own, outers, inner, mem, objects, fp, cm, block, mem1, objects1, mem2, sp, callerFp, savedIp);
    var values1 := ValuesOf(r, sp - 2, slots);
    C.EmittedSlot(t, st, st1, cx, v.Outward());
    var slot := C.OuterSlot([own] + outers, v.Outward());
    C.CapturedSlot(own, outers, inner, values, values1, v);
    assert st1.code[m.ip..] == [G.PUSH_TEMP] + G.U32(slot);
    SlotPushed(p, w, m, slot, slots);
  }
}
