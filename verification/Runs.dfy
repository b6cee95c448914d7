/**
 Runs of activations: computation and stores inside a frame, calls, blocks made and called,
 reifications, returns and resumed contexts, in any order.  What the operations on frames ask of
 the stack holds in every state of every run, and a block returns from the frame that made it.
 */
module Runs {
  import W = Words
  import opened Frames
  import opened Activations
  import opened Closures

  /** Stack, objects, stack and frame pointer. */
  datatype State = State(mem: seq<Word>, objects: map<Word, seq<Word>>, sp: nat, fp: Word)

  /** The frames are a chain of calls, their context words are contexts and blocks, and no two have the same context. */
  ghost predicate Sound(s: State) {
    |s.mem| <= SENTINEL && W.NIL !in s.objects
    && Chain(s.mem, s.objects, s.fp) && AllTagged(s.mem, s.objects, s.fp) && Distinct(s.mem, s.fp)
  }

  datatype Operation =
    | Compute
    | Call(cm: Word, argCount: nat, savedIp: Word)
    | CallBlock(block: Word, argCount: nat, savedIp: Word)
    | Reify(from: nat, useSp: bool, ipField: (Word, Word) -> Word, context: Word)
    | MakeBlock(cm: Word, ipField: (Word, Word) -> Word, context: Word, mid: seq<Word>, made: map<Word, seq<Word>>,
                block: Word)
    | Resume(context: Word, caller: Word, savedIp: Word)
    | Return(answer: Word)
    | ReturnNonLocal(answer: Word)

  /** All from `at` up to the caller's fixed part is the caller's operand stack. */
  predicate Clear(s: State, at: nat) { IsEnd(s.fp) || at + 4 < s.fp }

  predicate CanCall(s: State, cm: Word, n: nat, slots: nat) {
    && slots + 6 <= s.sp && TEMP_BASE + 2 <= s.sp && s.sp + n < |s.mem| && n < 0x100 && Clear(s, s.sp + n)
    && cm in s.objects && DeclaredTemps(s.objects, cm) <= slots
  }

  predicate CanResume(s: State, context: Word) {
    && context in s.objects && context != 0 && ContextFits(s.objects[context])
    && var fields := s.objects[context];
       && Room(fields) <= s.sp <= |s.mem| && Clear(s, s.sp - 1)
       && (fields[CONTEXT_CLOSURE] == W.NIL || IsBlockObject(s.objects, fields[CONTEXT_CLOSURE]))
       && fields[CONTEXT_METHOD] in s.objects
       && var f := s.sp - Count(fields, CONTEXT_NUM_ARGS) - 3;
          TEMP_BASE <= f && DeclaredTemps(s.objects, fields[CONTEXT_METHOD]) + 4 <= f
  }

  /**
   Every frame of a chain finds what it found before: its method's temporaries, and through its
   context word the block that it runs and its home.
   */
  ghost predicate KeepsFrames(mem: seq<Word>, objects: map<Word, seq<Word>>, objects1: map<Word, seq<Word>>, f: Word)
    decreases |mem| - f
  {
    !IsFrame(mem, f) ||
    (&& (mem[f - 1] in objects ==>
           mem[f - 1] in objects1 && DeclaredTemps(objects1, mem[f - 1]) == DeclaredTemps(objects, mem[f - 1]))
     && (HasContext(mem[f - 2]) ==>
           SameField(objects, objects1, mem[f - 3], CONTEXT_HOME)
           && SameField(objects, objects1, mem[f - 3], CONTEXT_CLOSURE))
     && (HasClosure(mem[f - 2]) && !HasContext(mem[f - 2]) ==>
           SameField(objects, objects1, mem[f - 3], BLOCK_HOME_CONTEXT))
     && (f < mem[f] ==> KeepsFrames(mem, objects, objects1, mem[f])))
  }

  predicate SameField(objects: map<Word, seq<Word>>, objects1: map<Word, seq<Word>>, a: Word, k: nat) {
    a in objects && k < |objects[a]| ==> a in objects1 && k < |objects1[a]| && objects1[a][k] == objects[a][k]
  }

  /**
   What code may do to objects: make new ones, and store anything into the fields of those there
   are, but for those through which running frames find their temporaries, blocks and homes.
   */
  ghost predicate Stores(s: State, objects1: map<Word, seq<Word>>) {
    && W.NIL !in objects1 && KeepsFrames(s.mem, s.objects, objects1, s.fp)
    && forall a :: a in s.objects ==> a in objects1 && |objects1[a]| == |s.objects[a]|
  }

  /** One operation, from a state to another. */
  ghost predicate Step(s: State, op: Operation, s1: State)
    requires Sound(s)
  {
    match op
    case Compute =>
      && s1.fp == s.fp && |s1.mem| == |s.mem| && Stores(s, s1.objects)
      && (!IsEnd(s.fp) ==> forall i :: s.fp - 4 <= i < |s.mem| ==> s1.mem[i] == s.mem[i])
    case Call(cm, n, savedIp) =>
      && CanCall(s, cm, n, DeclaredTemps(s.objects, cm))
      && s1 == State(Activated(s.mem, s.sp, s.fp, savedIp, cm, n, DeclaredTemps(s.objects, cm)), s.objects,
                     s.sp - 6 - DeclaredTemps(s.objects, cm), s.sp - 2)
    case CallBlock(block, n, savedIp) =>
      && IsBlockObject(s.objects, block) && CanCall(s, s.objects[block][BLOCK_CM], n, BlockSlots(s.objects, block))
      && s1 == State(BlockActivated(s.mem, s.sp, s.fp, savedIp, block, s.objects, n), s.objects,
                     s.sp - 6 - BlockSlots(s.objects, block), s.sp - 2)
    case Reify(from, useSp, ipField, context) =>
      && s1.sp == s.sp && s1.fp == s.fp && |s1.mem| == |s.mem|
      && Ensured(s.mem, s.objects, s.fp, from, useSp, ipField, context, s1.mem, s1.objects)
    case MakeBlock(cm, ipField, context, mid, made, block) =>
      && !IsEnd(s.fp) && 1 <= s.sp && s.sp + SlotCount(s.objects, s.mem, s.fp) + 4 <= s.fp && |mid| == |s.mem|
      && Ensured(s.mem, s.objects, s.fp, s.sp, true, ipField, context, mid, made)
      && BlockPushed(s.mem, s.objects, s.sp, s.fp, cm, context, mid, made, block, s1.mem, s1.objects)
      && s1.sp == s.sp - 1 && s1.fp == s.fp
    case Resume(context, caller, savedIp) =>
      && CanResume(s, context) && (caller == 0 || (caller == s.fp && context !in Contexts(s.mem, s.fp)))
      && s1 == State(Reactivated(s.mem, s.sp, caller, savedIp, context, s.objects[context]), s.objects,
                     s.sp - Room(s.objects[context]), s.sp - Count(s.objects[context], CONTEXT_NUM_ARGS) - 3)
    case Return(answer) =>
      !IsEnd(s.fp) && s1.objects == s.objects && Unwinds(s.mem, s.fp, answer, s1.mem, s1.sp, s1.fp)
    case ReturnNonLocal(answer) =>
      && !IsEnd(s.fp)
      && var home := HomeFrame(s.mem, s.objects, s.fp, FrameHome(s.objects, s.mem, s.fp));
         home != 0 && s1.objects == s.objects && Unwinds(s.mem, home, answer, s1.mem, s1.sp, s1.fp)
  }

  // ----------------------------------------------------------------- what every operation keeps

  lemma KeptAbove(mem: seq<Word>, mem1: seq<Word>, objects: map<Word, seq<Word>>, objects1: map<Word, seq<Word>>,
                  f: Word)
    requires |mem| <= SENTINEL && Chain(mem, objects, f) && AllTagged(mem, objects, f) && Distinct(mem, f)
    requires |mem1| == |mem| && Extends(objects, objects1)
    requires !IsEnd(f) ==> forall i :: f - 3 <= i < |mem| ==> mem1[i] == mem[i]
    ensures Chain(mem1, objects1, f) && AllTagged(mem1, objects1, f) && Distinct(mem1, f)
            && Contexts(mem1, f) == Contexts(mem, f)
  {
    ChainAboveKept(mem, mem1, objects, objects1, f);
    if !IsEnd(f) {
      TagsKept(mem, mem1, objects, objects1, f);
      ContextsAbove(mem, mem1, f);
    }
  }

  /** A frame entered below its caller's. */
  lemma Entered(mem: seq<Word>, mem1: seq<Word>, objects: map<Word, seq<Word>>, caller: Word, f: Word)
    requires |mem| <= SENTINEL && Chain(mem, objects, caller) && AllTagged(mem, objects, caller)
             && Distinct(mem, caller)
    requires |mem1| == |mem| && FrameFits(mem1, f) && mem1[f] == caller && WellTagged(objects, mem1, f)
    requires mem1[f - 1] in objects && DeclaredTemps(objects, mem1[f - 1]) + 4 <= f
    requires IsEnd(caller) || f + ARG_BASE + NumArgs(mem1[f - 2]) + 4 < caller
    requires forall i :: f + ARG_BASE + NumArgs(mem1[f - 2]) < i < |mem| ==> mem1[i] == mem[i]
    requires HasContext(mem1[f - 2]) ==> mem1[f - 3] !in Contexts(mem, caller)
    ensures Chain(mem1, objects, f) && AllTagged(mem1, objects, f) && Distinct(mem1, f)
  {
    hide NumArgs, HasContext, DeclaredTemps, WellTagged;
    KeptAbove(mem, mem1, objects, objects, caller);
  }

  /** Stores leave a chain a chain, with its tags. */
  lemma {:induction false} StoresKeep(mem: seq<Word>, mem1: seq<Word>, objects: map<Word, seq<Word>>,
                                      objects1: map<Word, seq<Word>>, f: Word)
    requires Chain(mem, objects, f) && AllTagged(mem, objects, f) && KeepsFrames(mem, objects, objects1, f)
    requires |mem1| == |mem| && (!IsEnd(f) ==> forall i :: f - 3 <= i < |mem| ==> mem1[i] == mem[i])
    requires forall a :: a in objects ==> a in objects1 && |objects1[a]| == |objects[a]|
    ensures Chain(mem1, objects1, f) && AllTagged(mem1, objects1, f)
    decreases |mem| - f
  {
    hide NumArgs, HasContext, HasClosure, DeclaredTemps;
    if !IsEnd(f) {
      if !IsEnd(mem[f]) {
        StoresKeep(mem, mem1, objects, objects1, mem[f]);
      }
      assert WellTagged(objects1, mem1, f);
    }
  }

  lemma ComputeKeeps(s: State, s1: State)
    requires Sound(s) && Step(s, Compute, s1)
    ensures Sound(s1)
  {
    hide Chain, AllTagged, Distinct, KeepsFrames;
    StoresKeep(s.mem, s1.mem, s.objects, s1.objects, s.fp);
    if !IsEnd(s.fp) {
      ContextsAbove(s.mem, s1.mem, s.fp);
    } else {
      EndDistinct(s1.mem, s1.fp);
    }
  }

  lemma EndDistinct(mem: seq<Word>, f: Word)
    requires IsEnd(f)
    ensures Distinct(mem, f)
  {
  }

  lemma CallKeeps(s: State, cm: Word, n: nat, savedIp: Word, s1: State)
    requires Sound(s) && Step(s, Call(cm, n, savedIp), s1)
    ensures Sound(s1)
  {
    hide DeclaredTemps, Activated, Chain, AllTagged, Distinct, IsBlock, NumArgs;
    var t := DeclaredTemps(s.objects, cm);
    var r, f := Activated(s.mem, s.sp, s.fp, savedIp, cm, n, t), s.sp - 2;
    ActivatedFrame(s.mem, s.sp, s.fp, savedIp, cm, n, t);
    PlainFlags(n);
    forall i | s.sp + n < i < |s.mem| ensures r[i] == s.mem[i] {
      assert r[s.sp..][i - s.sp] == s.mem[s.sp..][i - s.sp];
    }
    Entered(s.mem, r, s.objects, s.fp, f);
  }

  lemma PlainFlags(n: nat)
    requires n < 0x100
    ensures !HasContext(n * 0x100) && !HasClosure(n * 0x100)
  {
    assert n * 0x100 / 2 == n * 0x80;
  }

  lemma CallBlockKeeps(s: State, block: Word, n: nat, savedIp: Word, s1: State)
    requires Sound(s) && Step(s, CallBlock(block, n, savedIp), s1)
    ensures Sound(s1)
  {
    hide DeclaredTemps, BlockActivated, Chain, AllTagged, Distinct, IsBlock, NumArgs, HasContext, HasClosure,
         FrameTemps, FrameArgs, Reverse;
    var r, f := BlockActivated(s.mem, s.sp, s.fp, savedIp, block, s.objects, n), s.sp - 2;
    BlockFrame(s.mem, s.sp, s.fp, savedIp, block, s.objects, n);
    assert NumArgs(r[f - 2]) == n;
    forall i | s.sp + n < i < |s.mem| ensures r[i] == s.mem[i] {
      assert r[s.sp + n + 1..][i - s.sp - n - 1] == s.mem[s.sp + n + 1..][i - s.sp - n - 1];
    }
    Entered(s.mem, r, s.objects, s.fp, f);
  }

  lemma ResumeKeeps(s: State, context: Word, caller: Word, savedIp: Word, s1: State)
    requires Sound(s) && Step(s, Resume(context, caller, savedIp), s1)
    ensures Sound(s1)
  {
    hide DeclaredTemps, Reactivated, Chain, AllTagged, Distinct, IsBlock, NumArgs, HasContext, HasClosure, Count,
         BelowOf, Reverse;
    var fields := s.objects[context];
    var r, f := Reactivated(s.mem, s.sp, caller, savedIp, context, fields), s.sp - Count(fields, CONTEXT_NUM_ARGS) - 3;
    ReactivatedImage(s.mem, s.sp, caller, savedIp, context, fields);
    assert r[f - 1] == fields[CONTEXT_METHOD] by {
      assert ImageOf(r, f, s.sp - Room(fields)).cm == Described(fields).cm;
    }
    forall i | s.sp - 1 < i < |s.mem| ensures r[i] == s.mem[i] {
      assert r[s.sp..][i - s.sp] == s.mem[s.sp..][i - s.sp];
    }
    NoFrames(s.mem, s.objects);
    Entered(s.mem, r, s.objects, caller, f);
  }

  lemma NoFrames(mem: seq<Word>, objects: map<Word, seq<Word>>)
    ensures Chain(mem, objects, 0) && AllTagged(mem, objects, 0) && Distinct(mem, 0) && Contexts(mem, 0) == {}
  {
  }

  lemma ReifyKeeps(s: State, from: nat, useSp: bool, ipField: (Word, Word) -> Word, context: Word, s1: State)
    requires Sound(s) && Step(s, Reify(from, useSp, ipField, context), s1)
    ensures Sound(s1)
  {
    hide NumArgs, HasContext, HasClosure, IsBlock, Reified, SameCalls, Mark, Chain, AllTagged, Distinct;
    EnsuredKeeps(s.mem, s.objects, s.fp, from, useSp, ipField, context, s1.mem, s1.objects);
  }

  lemma MakeBlockKeeps(s: State, cm: Word, ipField: (Word, Word) -> Word, context: Word, mid: seq<Word>,
                       made: map<Word, seq<Word>>, block: Word, s1: State)
    requires Sound(s) && Step(s, MakeBlock(cm, ipField, context, mid, made, block), s1)
    ensures Sound(s1)
  {
    hide NumArgs, HasContext, HasClosure, IsBlock, Reified, SameCalls, Mark, Chain, AllTagged, Distinct;
    EnsuredKeeps(s.mem, s.objects, s.fp, s.sp, true, ipField, context, mid, made);
    ChainHead(s.mem, s.objects, s.fp);
    PushKeeps(mid, made, s.fp, s.sp - 1, block, s1.mem, s1.objects);
  }

  /** After a return from any frame of the chain, what is above it is as it was. */
  lemma UnwindKeeps(mem: seq<Word>, objects: map<Word, seq<Word>>, f: Word, answer: Word, mem1: seq<Word>, sp1: nat,
                    fp1: Word)
    requires |mem| <= SENTINEL && Chain(mem, objects, f) && AllTagged(mem, objects, f) && Distinct(mem, f) && !IsEnd(f)
    requires Unwinds(mem, f, answer, mem1, sp1, fp1) && W.NIL !in objects
    ensures Sound(State(mem1, objects, sp1, fp1))
  {
    hide NumArgs, HasContext, DeclaredTemps, WellTagged;
    KeptAbove(mem, mem1, objects, objects, mem[f]);
  }

  lemma {:induction false} DistinctAbove(mem: seq<Word>, objects: map<Word, seq<Word>>, f: Word, context: Word)
    requires Chain(mem, objects, f) && Distinct(mem, f) && HomeFrame(mem, objects, f, context) != 0
    ensures Distinct(mem, HomeFrame(mem, objects, f, context))
    decreases if IsEnd(f) then 0 else |mem| - f
  {
    hide NumArgs, HasContext, DeclaredTemps;
    if HomeFrame(mem, objects, f, context) != f {
      DistinctAbove(mem, objects, mem[f], context);
    }
  }

  lemma ReturnKeeps(s: State, answer: Word, s1: State)
    requires Sound(s) && Step(s, Return(answer), s1)
    ensures Sound(s1)
  {
    UnwindKeeps(s.mem, s.objects, s.fp, answer, s1.mem, s1.sp, s1.fp);
  }

  lemma ReturnNonLocalKeeps(s: State, answer: Word, s1: State)
    requires Sound(s) && Step(s, ReturnNonLocal(answer), s1)
    ensures Sound(s1)
  {
    hide NumArgs, HasContext, HasClosure, DeclaredTemps, WellTagged, FrameHome;
    var context := FrameHome(s.objects, s.mem, s.fp);
    DistinctAbove(s.mem, s.objects, s.fp, context);
    UnwindKeeps(s.mem, s.objects, HomeFrame(s.mem, s.objects, s.fp, context), answer, s1.mem, s1.sp, s1.fp);
  }

  /** Every operation keeps the invariant. */
  lemma StepKeeps(s: State, op: Operation, s1: State)
    requires Sound(s) && Step(s, op, s1)
    ensures Sound(s1)
  {
    hide *;
    match op
    case Compute => ComputeKeeps(s, s1);
    case Call(cm, n, savedIp) => CallKeeps(s, cm, n, savedIp, s1);
    case CallBlock(block, n, savedIp) => CallBlockKeeps(s, block, n, savedIp, s1);
    case Reify(from, useSp, ipField, context) => ReifyKeeps(s, from, useSp, ipField, context, s1);
    case MakeBlock(cm, ipField, context, mid, made, block) =>
      MakeBlockKeeps(s, cm, ipField, context, mid, made, block, s1);
    case Resume(context, caller, savedIp) => ResumeKeeps(s, context, caller, savedIp, s1);
    case Return(answer) => ReturnKeeps(s, answer, s1);
    case ReturnNonLocal(answer) => ReturnNonLocalKeeps(s, answer, s1);
  }

  // ----------------------------------------------------------------- runs

  /** A run: each state is reached from the one before it by the operation between them. */
  ghost predicate Run(start: State, ops: seq<Operation>, states: seq<State>)
    requires Sound(start)
    decreases |ops|
  {
    |states| == |ops| &&
    (ops != [] ==> Step(start, ops[0], states[0])
                   && (StepKeeps(start, ops[0], states[0]); Run(states[0], ops[1..], states[1..])))
  }

  function Last(start: State, states: seq<State>): State { if states == [] then start else states[|states| - 1] }

  /** Every state that a run reaches from a sound one is sound. */
  lemma {:induction false} RunKeeps(start: State, ops: seq<Operation>, states: seq<State>)
    requires Sound(start) && Run(start, ops, states)
    ensures Sound(Last(start, states))
    decreases |ops|
  {
    if ops != [] {
      StepKeeps(start, ops[0], states[0]);
      RunKeeps(states[0], ops[1..], states[1..]);
    }
  }

  /**
   In every sound state, so in every state of a run: as long as the frame that created the
   running block is on the chain, a non-local return does what an ordinary return does in that
   frame, and nothing else.
   */
  lemma NonLocalIsReturn(s: State, answer: Word, creator: Word, s1: State)
    requires Sound(s) && !IsEnd(s.fp)
    requires OnChain(s.mem, s.fp, creator) && HasThisContext(s.mem, creator, FrameHome(s.objects, s.mem, s.fp))
    ensures Sound(s.(fp := creator))
    ensures Step(s, ReturnNonLocal(answer), s1) <==> Step(s.(fp := creator), Return(answer), s1)
  {
    hide NumArgs, HasContext, HasClosure, DeclaredTemps;
    HomeIsCreator(s.mem, s.objects, s.fp, FrameHome(s.objects, s.mem, s.fp), creator);
    DistinctAbove(s.mem, s.objects, s.fp, FrameHome(s.objects, s.mem, s.fp));
  }

  /**
   A call and the return from it: the caller's frame is the running one again, the answer is where the
   receiver was, the arguments are gone, and all that the caller had above is as it was.
   */
  lemma CallReturns(s: State, op: Operation, s1: State, answer: Word, s2: State)
    requires Sound(s) && (op.Call? || op.CallBlock?) && Step(s, op, s1) && Sound(s1) && Step(s1, Return(answer), s2)
    ensures s2.fp == s.fp && s2.sp == s.sp + op.argCount < |s2.mem| == |s.mem| && s2.mem[s2.sp] == answer
    ensures forall i :: s2.sp < i < |s.mem| ==> s2.mem[i] == s.mem[i]
    ensures s2.objects == s.objects && s1.fp + 1 < |s1.mem| && s1.mem[s1.fp + 1] == op.savedIp
  {
    hide Chain, AllTagged, Distinct, Activated, BlockActivated, DeclaredTemps, NumArgs, IsBlock, FrameTemps, FrameArgs,
         HasContext, HasClosure, Reverse;
    var n := op.argCount;
    if op.Call? {
      ActivatedFrame(s.mem, s.sp, s.fp, op.savedIp, op.cm, n, DeclaredTemps(s.objects, op.cm));
      SameTail(s.mem, s1.mem, s.sp);
    } else {
      BlockFrame(s.mem, s.sp, s.fp, op.savedIp, op.block, s.objects, n);
      SameTail(s.mem, s1.mem, s.sp + n + 1);
    }
    assert s1.fp + ARG_BASE == s.sp;
  }

  // ----------------------------------------------------------------- what becomes of one frame

  /**
   A frame that is on the chain in both states: it runs the same block, has the same home, and
   the context that it had.
   */
  ghost predicate SameFrame(s: State, s1: State, g: Word)
    requires Sound(s) && Sound(s1) && OnChain(s.mem, s.fp, g) && OnChain(s1.mem, s1.fp, g) && !IsEnd(g)
  {
    FrameOn(s.mem, s.objects, s.fp, g);
    FrameOn(s1.mem, s1.objects, s1.fp, g);
    && (HasContext(s.mem[g - 2]) ==> HasContext(s1.mem[g - 2]) && s1.mem[g - 3] == s.mem[g - 3])
    && FrameClosure(s1.objects, s1.mem, g) == FrameClosure(s.objects, s.mem, g)
    && FrameHome(s1.objects, s1.mem, g) == FrameHome(s.objects, s.mem, g)
  }

  /** The words from a frame up are as they were, and so is what it finds through its context word. */
  lemma UntouchedFrame(s: State, s1: State, g: Word)
    requires Sound(s) && Sound(s1) && OnChain(s.mem, s.fp, g) && OnChain(s1.mem, s1.fp, g) && !IsEnd(g)
    requires |s1.mem| == |s.mem| && forall i :: 0 <= g - 3 <= i < |s.mem| ==> s1.mem[i] == s.mem[i]
    requires KeepsFrames(s.mem, s.objects, s1.objects, g)
    ensures SameFrame(s, s1, g)
  {
    FrameOn(s.mem, s.objects, s.fp, g);
    FrameOn(s1.mem, s1.objects, s1.fp, g);
    hide Sound, Chain, AllTagged, OnChain, NumArgs, IsBlock;
  }

  lemma {:induction false} ExtendsKeeps(mem: seq<Word>, objects: map<Word, seq<Word>>, objects1: map<Word, seq<Word>>,
                                        f: Word)
    requires Extends(objects, objects1)
    ensures KeepsFrames(mem, objects, objects1, f)
    decreases |mem| - f
  {
    if IsFrame(mem, f) && f < mem[f] {
      ExtendsKeeps(mem, objects, objects1, mem[f]);
    }
  }

  lemma {:induction false} KeepsFramesAbove(mem: seq<Word>, objects: map<Word, seq<Word>>,
                                            objects1: map<Word, seq<Word>>, f: Word, g: Word)
    requires KeepsFrames(mem, objects, objects1, f) && OnChain(mem, f, g)
    ensures KeepsFrames(mem, objects, objects1, g)
    decreases |mem| - f
  {
    hide DeclaredTemps;
    if f != g {
      KeepsFramesAbove(mem, objects, objects1, mem[f], g);
    }
  }

  /** Operations that enter a frame write below the caller's fixed part, and no object. */
  lemma EntersBelow(s: State, op: Operation, s1: State)
    requires Sound(s) && Step(s, op, s1) && (op.Call? || op.CallBlock? || op.Resume?)
    ensures |s1.mem| == |s.mem| && s1.objects == s.objects
    ensures !IsEnd(s.fp) ==> forall i :: 0 <= s.fp - 3 <= i < |s.mem| ==> s1.mem[i] == s.mem[i]
  {
    hide Chain, AllTagged, Distinct, Activated, BlockActivated, Reactivated, DeclaredTemps, Contexts, NumArgs, IsBlock,
         FrameTemps, FrameArgs, HasContext, HasClosure, ContextFits, Count, Reverse;
    match op
    case Call(cm, n, savedIp) =>
      ActivatedFrame(s.mem, s.sp, s.fp, savedIp, cm, n, DeclaredTemps(s.objects, cm));
      SameTail(s.mem, s1.mem, s.sp);
    case CallBlock(block, n, savedIp) =>
      BlockFrame(s.mem, s.sp, s.fp, savedIp, block, s.objects, n);
      SameTail(s.mem, s1.mem, s.sp + n + 1);
    case Resume(context, caller, savedIp) =>
      ReactivatedImage(s.mem, s.sp, caller, savedIp, context, s.objects[context]);
      SameTail(s.mem, s1.mem, s.sp);
    case _ =>
  }

  lemma SameTail(mem: seq<Word>, mem1: seq<Word>, from: nat)
    requires from <= |mem| == |mem1| && mem1[from..] == mem[from..]
    ensures forall i :: from <= i < |mem| ==> mem1[i] == mem[i]
  {
    forall i | from <= i < |mem| ensures mem1[i] == mem[i] {
      assert mem1[from..][i - from] == mem[from..][i - from];
    }
  }

  lemma EnterSameFrame(s: State, op: Operation, s1: State, g: Word)
    requires Sound(s) && Step(s, op, s1) && Sound(s1) && (op.Call? || op.CallBlock? || op.Resume?)
    requires OnChain(s.mem, s.fp, g) && OnChain(s1.mem, s1.fp, g) && !IsEnd(g)
    ensures SameFrame(s, s1, g)
  {
    FrameOn(s.mem, s.objects, s.fp, g);
    EntersBelow(s, op, s1);
    ExtendsKeeps(s.mem, s.objects, s1.objects, g);
    hide Step, Sound, OnChain;
    UntouchedFrame(s, s1, g);
  }

  lemma ComputeSameFrame(s: State, s1: State, g: Word)
    requires Sound(s) && Step(s, Compute, s1) && Sound(s1)
    requires OnChain(s.mem, s.fp, g) && OnChain(s1.mem, s1.fp, g) && !IsEnd(g)
    ensures SameFrame(s, s1, g)
  {
    FrameOn(s.mem, s.objects, s.fp, g);
    KeepsFramesAbove(s.mem, s.objects, s1.objects, s.fp, g);
    hide Sound, OnChain, KeepsFrames;
    UntouchedFrame(s, s1, g);
  }

  lemma ReifySameFrame(s: State, from: nat, useSp: bool, ipField: (Word, Word) -> Word, context: Word, s1: State,
                       g: Word)
    requires Sound(s) && Step(s, Reify(from, useSp, ipField, context), s1) && Sound(s1)
    requires OnChain(s.mem, s.fp, g) && OnChain(s1.mem, s1.fp, g) && !IsEnd(g)
    ensures SameFrame(s, s1, g)
  {
    hide NumArgs, HasContext, HasClosure, IsBlock, Reified, Mark, Distinct, FrameClosure, FrameHome, WellTagged;
    FrameOn(s.mem, s.objects, s.fp, g);
    ReifiedHome(s.mem, s.objects, s.fp, from, useSp, ipField, context, s1.mem, s1.objects, g);
  }

  lemma SameFrameTwice(s: State, s1: State, s2: State, g: Word)
    requires Sound(s) && Sound(s1) && Sound(s2) && !IsEnd(g)
    requires OnChain(s.mem, s.fp, g) && OnChain(s1.mem, s1.fp, g) && OnChain(s2.mem, s2.fp, g)
    requires SameFrame(s, s1, g) && SameFrame(s1, s2, g)
    ensures SameFrame(s, s2, g)
  {
    FrameOn(s.mem, s.objects, s.fp, g);
    FrameOn(s1.mem, s1.objects, s1.fp, g);
    FrameOn(s2.mem, s2.objects, s2.fp, g);
    hide Sound, Chain, AllTagged, OnChain, HasContext, FrameClosure, FrameHome, WellTagged, FrameFits;
  }

  lemma MakeBlockSameFrame(s: State, cm: Word, ipField: (Word, Word) -> Word, context: Word, mid: seq<Word>,
                           made: map<Word, seq<Word>>, block: Word, s1: State, g: Word)
    requires Sound(s) && Step(s, MakeBlock(cm, ipField, context, mid, made, block), s1) && Sound(s1)
    requires OnChain(s.mem, s.fp, g) && OnChain(s1.mem, s1.fp, g) && !IsEnd(g)
    ensures SameFrame(s, s1, g)
  {
    var between := State(mid, made, s.sp, s.fp);
    FrameOn(s.mem, s.objects, s.fp, g);
    assert Step(s, Reify(s.sp, true, ipField, context), between);
    ReifyKeeps(s, s.sp, true, ipField, context, between);
    ReifiedHome(s.mem, s.objects, s.fp, s.sp, true, ipField, context, mid, made, g);
    ReifySameFrame(s, s.sp, true, ipField, context, between, g);
    ExtendsKeeps(mid, made, s1.objects, g);
    hide Sound, OnChain, Ensured, FrameArgs, FrameTemps, SlotCount, SameFrame, Chain, AllTagged, KeepsFrames;
    UntouchedFrame(between, s1, g);
    SameFrameTwice(s, between, s1, g);
  }

  lemma UnwindSameFrame(s: State, f: Word, answer: Word, s1: State, g: Word)
    requires Sound(s) && Sound(s1) && OnChain(s.mem, s.fp, g) && OnChain(s1.mem, s1.fp, g) && !IsEnd(g)
    requires !IsEnd(f) && Chain(s.mem, s.objects, f)
    requires s1.objects == s.objects && Unwinds(s.mem, f, answer, s1.mem, s1.sp, s1.fp)
    ensures SameFrame(s, s1, g)
  {
    FrameOn(s.mem, s.objects, s.fp, g);
    FrameOn(s1.mem, s1.objects, s1.fp, g);
    ExtendsKeeps(s.mem, s.objects, s1.objects, g);
    hide Sound, OnChain, KeepsFrames, AllTagged, NumArgs, DeclaredTemps, WellTagged;
    UntouchedFrame(s, s1, g);
  }

  lemma ReturnSameFrame(s: State, answer: Word, s1: State, g: Word)
    requires Sound(s) && Step(s, Return(answer), s1) && Sound(s1)
    requires OnChain(s.mem, s.fp, g) && OnChain(s1.mem, s1.fp, g) && !IsEnd(g)
    ensures SameFrame(s, s1, g)
  {
    UnwindSameFrame(s, s.fp, answer, s1, g);
  }

  lemma ReturnNonLocalSameFrame(s: State, answer: Word, s1: State, g: Word)
    requires Sound(s) && Step(s, ReturnNonLocal(answer), s1) && Sound(s1)
    requires OnChain(s.mem, s.fp, g) && OnChain(s1.mem, s1.fp, g) && !IsEnd(g)
    ensures SameFrame(s, s1, g)
  {
    hide NumArgs, HasContext, HasClosure, DeclaredTemps, WellTagged, FrameHome, Distinct, SameFrame, OnChain;
    UnwindSameFrame(s, HomeFrame(s.mem, s.objects, s.fp, FrameHome(s.objects, s.mem, s.fp)), answer, s1, g);
  }

  /** One operation, and a frame that is on the chain before and after it. */
  lemma StepSameFrame(s: State, op: Operation, s1: State, g: Word)
    requires Sound(s) && Step(s, op, s1) && Sound(s1)
    requires OnChain(s.mem, s.fp, g) && OnChain(s1.mem, s1.fp, g) && !IsEnd(g)
    ensures SameFrame(s, s1, g)
  {
    hide *;
    match op
    case Compute => ComputeSameFrame(s, s1, g);
    case Call(_, _, _) => EnterSameFrame(s, op, s1, g);
    case CallBlock(_, _, _) => EnterSameFrame(s, op, s1, g);
    case Reify(from, useSp, ipField, context) => ReifySameFrame(s, from, useSp, ipField, context, s1, g);
    case MakeBlock(cm, ipField, context, mid, made, block) =>
      MakeBlockSameFrame(s, cm, ipField, context, mid, made, block, s1, g);
    case Resume(_, _, _) => EnterSameFrame(s, op, s1, g);
    case Return(answer) => ReturnSameFrame(s, answer, s1, g);
    case ReturnNonLocal(answer) => ReturnNonLocalSameFrame(s, answer, s1, g);
  }

  // ----------------------------------------------------------------- a block and the frame that made it

  /** The state after so many operations of a run. */
  function At(start: State, states: seq<State>, k: nat): State
    requires k <= |states|
  {
    if k == 0 then start else states[k - 1]
  }

  lemma {:induction false} StepAt(start: State, ops: seq<Operation>, states: seq<State>, k: nat)
    requires Sound(start) && Run(start, ops, states) && k < |ops|
    ensures |states| == |ops| && Sound(At(start, states, k)) && Sound(At(start, states, k + 1))
    ensures Step(At(start, states, k), ops[k], At(start, states, k + 1))
    decreases k
  {
    hide Step, Sound;
    StepKeeps(start, ops[0], states[0]);
    if k > 0 {
      StepAt(states[0], ops[1..], states[1..], k - 1);
    }
  }

  lemma SoundAt(start: State, ops: seq<Operation>, states: seq<State>, k: nat)
    requires Sound(start) && Run(start, ops, states) && k <= |states| == |ops|
    ensures Sound(At(start, states, k))
  {
    hide Run, Sound;
    if k > 0 {
      StepAt(start, ops, states, k - 1);
    }
  }

  /** A stack without frames is where runs start: every state of every run from there is sound. */
  lemma RunsFromEmpty(start: State, ops: seq<Operation>, states: seq<State>)
    requires |start.mem| <= SENTINEL && IsEnd(start.fp) && W.NIL !in start.objects
    ensures Sound(start)
    ensures Run(start, ops, states) ==> forall k :: 0 <= k <= |ops| ==> Sound(At(start, states, k))
  {
    assert Sound(start);
    if Run(start, ops, states) {
      forall k | 0 <= k <= |ops| ensures Sound(At(start, states, k)) {
        SoundAt(start, ops, states, k);
      }
    }
  }

  /** In all states of a stretch of a run a frame is on the chain. */
  ghost predicate OnChainFrom(start: State, states: seq<State>, a: nat, b: nat, g: Word)
    requires b <= |states|
  {
    forall k :: a <= k <= b ==> OnChain(At(start, states, k).mem, At(start, states, k).fp, g)
  }

  /** A frame that stays on the chain stays the same frame. */
  lemma {:induction false} SameFrameFrom(start: State, ops: seq<Operation>, states: seq<State>, a: nat, b: nat, g: Word)
    requires Sound(start) && Run(start, ops, states) && a <= b <= |ops| && !IsEnd(g)
    requires |states| == |ops| && OnChainFrom(start, states, a, b, g)
    ensures Sound(At(start, states, a)) && Sound(At(start, states, b))
    ensures OnChain(At(start, states, a).mem, At(start, states, a).fp, g)
    ensures OnChain(At(start, states, b).mem, At(start, states, b).fp, g)
    ensures SameFrame(At(start, states, a), At(start, states, b), g)
    decreases b
  {
    hide Run, Step, Sound, SameFrame, OnChain;
    var s := At(start, states, a);
    SoundAt(start, ops, states, a);
    assert OnChain(s.mem, s.fp, g);
    if a == b {
      ExtendsKeeps(s.mem, s.objects, s.objects, g);
      UntouchedFrame(s, s, g);
    } else {
      StepAt(start, ops, states, b - 1);
      SameFrameFrom(start, ops, states, a, b - 1, g);
      StepSameFrame(At(start, states, b - 1), ops[b - 1], At(start, states, b), g);
      SameFrameTwice(s, At(start, states, b - 1), At(start, states, b), g);
    }
  }

  /** A block that was just made: its home is its creator's context, which the creator's frame has. */
  lemma MadeHome(s: State, op: Operation, s1: State)
    requires Sound(s) && op.MakeBlock? && Step(s, op, s1)
    ensures HasThisContext(s1.mem, s.fp, op.context) && OnChain(s1.mem, s1.fp, s.fp) && !IsEnd(s.fp)
    ensures op.block in s1.objects && |s1.objects[op.block]| >= BLOCK_COPIED_BASE
            && s1.objects[op.block][BLOCK_HOME_CONTEXT] == op.context
  {
    hide NumArgs, HasContext, HasClosure, IsBlock, FrameArgs, FrameTemps, SlotCount, DeclaredTemps, Distinct, AllTagged,
         Contexts;
    FrameKept(s.mem, s.objects, s.fp, s.sp, true, op.ipField, op.context, op.mid, op.made);
    ChainHead(s.mem, s.objects, s.fp);
  }

  /** The frame of a block that was just called: its home is the block's. */
  lemma CalledHome(s: State, op: Operation, s1: State)
    requires Sound(s) && op.CallBlock? && Step(s, op, s1) && Sound(s1)
    ensures !IsEnd(s1.fp) && s1.fp + 2 == s.sp && OnChain(s1.mem, s1.fp, s1.fp)
    ensures FrameFits(s1.mem, s1.fp) && WellTagged(s1.objects, s1.mem, s1.fp) && op.block in s.objects
            && s.objects[op.block] != []
    ensures FrameHome(s1.objects, s1.mem, s1.fp) == s.objects[op.block][BLOCK_HOME_CONTEXT]
  {
    hide NumArgs, HasContext, HasClosure, IsBlock, FrameArgs, FrameTemps, DeclaredTemps, Distinct, Contexts,
         BlockActivated, Reverse;
    BlockFrame(s.mem, s.sp, s.fp, op.savedIp, op.block, s.objects, op.argCount);
    FrameOn(s1.mem, s1.objects, s1.fp, s1.fp);
  }

  /**
   A block returns from the frame that made it.  The i-th operation of a run makes a block, the
   j-th calls it; whatever else the run does, as long as the maker's frame and the block's stay on
   the chain and nobody stores into the block's home, a non-local return in the block's frame does
   what an ordinary return does in the maker's, and nothing else.
   */
  lemma BlockReturns(start: State, ops: seq<Operation>, states: seq<State>, i: nat, j: nat, maker: Word, f: Word,
                     answer: Word, s1: State)
    requires Sound(start) && Run(start, ops, states) && |states| == |ops| && i < j < |ops|
    requires ops[i].MakeBlock? && ops[j].CallBlock? && ops[j].block == ops[i].block
    requires maker == At(start, states, i).fp && f == At(start, states, j + 1).fp == At(start, states, |ops|).fp
    requires OnChainFrom(start, states, i + 1, |ops|, maker) && OnChainFrom(start, states, j + 1, |ops|, f)
    requires SameField(At(start, states, i + 1).objects, At(start, states, j).objects, ops[i].block, BLOCK_HOME_CONTEXT)
    ensures var s := At(start, states, |ops|);
            && Sound(s) && Sound(s.(fp := maker))
            && (Step(s, ReturnNonLocal(answer), s1) <==> Step(s.(fp := maker), Return(answer), s1))
  {
    hide *;
    var s := At(start, states, |ops|);
    assert Sound(s) by { SoundAt(start, ops, states, |ops|); }
    BlockHome(start, ops, states, i, j, maker, f);
    NonLocalIsReturn(s, answer, maker, s1);
  }

  lemma BlockHome(start: State, ops: seq<Operation>, states: seq<State>, i: nat, j: nat, maker: Word, f: Word)
    requires Sound(start) && Run(start, ops, states) && |states| == |ops| && i < j < |ops|
    requires ops[i].MakeBlock? && ops[j].CallBlock? && ops[j].block == ops[i].block
    requires maker == At(start, states, i).fp && f == At(start, states, j + 1).fp == At(start, states, |ops|).fp
    requires OnChainFrom(start, states, i + 1, |ops|, maker) && OnChainFrom(start, states, j + 1, |ops|, f)
    requires SameField(At(start, states, i + 1).objects, At(start, states, j).objects, ops[i].block, BLOCK_HOME_CONTEXT)
    ensures var s := At(start, states, |ops|);
            && s.fp == f && !IsEnd(s.fp) && OnChain(s.mem, s.fp, maker)
            && FrameFits(s.mem, f) && WellTagged(s.objects, s.mem, f)
            && HasThisContext(s.mem, maker, FrameHome(s.objects, s.mem, f))
  {
    hide *;
    var called, made, after, s := At(start, states, j), At(start, states, i + 1), At(start, states, j + 1),
                                  At(start, states, |ops|);
    StepAt(start, ops, states, i);
    MadeHome(At(start, states, i), ops[i], made);
    StepAt(start, ops, states, j);
    CalledHome(called, ops[j], after);
    assert FrameHome(after.objects, after.mem, f) == ops[i].context by {
      KeptField(made.objects, called.objects, ops[i].block);
    }
    SameFrameFrom(start, ops, states, i + 1, |ops|, maker);
    SameFrameFrom(start, ops, states, j + 1, |ops|, f);
    HomeOfBlock(made, after, s, maker, f, ops[i].context);
  }

  lemma KeptField(objects: map<Word, seq<Word>>, objects1: map<Word, seq<Word>>, block: Word)
    requires SameField(objects, objects1, block, BLOCK_HOME_CONTEXT) && block in objects
             && |objects[block]| >= BLOCK_COPIED_BASE
    ensures block in objects1 && objects1[block] != []
    ensures objects1[block][BLOCK_HOME_CONTEXT] == objects[block][BLOCK_HOME_CONTEXT]
  {
  }

  lemma HomeOfBlock(made: State, after: State, s: State, maker: Word, f: Word, context: Word)
    requires Sound(made) && Sound(after) && Sound(s) && !IsEnd(maker) && !IsEnd(f) && s.fp == f
    requires OnChain(made.mem, made.fp, maker) && OnChain(s.mem, s.fp, maker) && SameFrame(made, s, maker)
    requires OnChain(after.mem, after.fp, f) && OnChain(s.mem, s.fp, f) && SameFrame(after, s, f)
    requires FrameFits(after.mem, f) && WellTagged(after.objects, after.mem, f)
    requires FrameHome(after.objects, after.mem, f) == context && HasThisContext(made.mem, maker, context)
    ensures FrameFits(s.mem, f) && WellTagged(s.objects, s.mem, f)
    ensures HasThisContext(s.mem, maker, FrameHome(s.objects, s.mem, f))
  {
    FrameOn(s.mem, s.objects, s.fp, maker);
    FrameOn(s.mem, s.objects, s.fp, f);
    FrameOn(made.mem, made.objects, made.fp, maker);
    hide Sound, Chain, AllTagged, FrameHome, FrameClosure, WellTagged, OnChain;
  }
}
