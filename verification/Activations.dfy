/**
 Activation, return and reification on a stack in memory: each operation updates the stack
 array, the registers and the object table in place, and is proved to build the stacks that
 `Frames` describes.
 */
module Activations {
  import W = Words
  import opened Frames

  predicate IsEnd(fp: Word) { fp == 0 || fp == SENTINEL }

  /** Calls go up the stack, frames do not overlap, and each method's temporaries fit. */
  predicate Chain(mem: seq<Word>, objects: map<Word, seq<Word>>, fp: Word)
    decreases |mem| - fp
  {
    IsEnd(fp) ||
    (&& FrameFits(mem, fp) && mem[fp - 1] in objects && DeclaredTemps(objects, mem[fp - 1]) + 4 <= fp
     && (IsEnd(mem[fp]) || (fp + ARG_BASE + NumArgs(mem[fp - 2]) + 4 < mem[fp] && Chain(mem, objects, mem[fp]))))
  }

  /** The words that reifying a chain may write: the flags and the context of each frame. */
  ghost predicate Mark(mem: seq<Word>, fp: Word, i: int)
    decreases |mem| - fp
  {
    !IsEnd(fp) && fp < |mem| && (i == fp - 2 || i == fp - 3 || (fp < mem[fp] && Mark(mem, mem[fp], i)))
  }

  lemma {:induction false} MarksAbove(mem: seq<Word>, fp: Word, i: int)
    requires Mark(mem, fp, i)
    ensures fp - 3 <= i < |mem|
    decreases |mem| - fp
  {
    if i != fp - 2 && i != fp - 3 {
      MarksAbove(mem, mem[fp], i);
    }
  }

  /** The calls of a chain and the counts of its frames are the same in both stacks. */
  predicate SameCalls(mem: seq<Word>, mem1: seq<Word>, fp: Word)
    requires |mem1| == |mem|
    decreases |mem| - fp
  {
    IsEnd(fp) || fp >= |mem| || fp < 3 ||
    (&& mem1[fp] == mem[fp] && mem1[fp - 1] == mem[fp - 1]
     && NumArgs(mem1[fp - 2]) == NumArgs(mem[fp - 2]) && IsBlock(mem1[fp - 2]) == IsBlock(mem[fp - 2])
     && (mem[fp - 2] < W.TWO_32 ==> mem1[fp - 2] < W.TWO_32)
     && (fp < mem[fp] ==> SameCalls(mem, mem1, mem[fp])))
  }

  lemma {:induction false} SameCallsBelow(mem: seq<Word>, mid: seq<Word>, mem1: seq<Word>, fp: Word)
    requires |mid| == |mem1| == |mem| && SameCalls(mem, mid, fp)
    requires forall i :: 0 <= fp - 2 <= i < |mem| ==> mem1[i] == mid[i]
    ensures SameCalls(mem, mem1, fp)
    decreases |mem| - fp
  {
    if !IsEnd(fp) && 3 <= fp < |mem| && fp < mem[fp] {
      SameCallsBelow(mem, mid, mem1, mem[fp]);
    }
  }

  lemma {:induction false} SameCallsSelf(mem: seq<Word>, fp: Word)
    ensures SameCalls(mem, mem, fp)
    decreases |mem| - fp
  {
    if !IsEnd(fp) && 3 <= fp < |mem| && fp < mem[fp] {
      SameCallsSelf(mem, mem[fp]);
    }
  }

  lemma {:induction false} ChainKept(mem: seq<Word>, mem1: seq<Word>, objects: map<Word, seq<Word>>,
                                     objects1: map<Word, seq<Word>>, fp: Word)
    requires Chain(mem, objects, fp) && |mem1| == |mem| && SameCalls(mem, mem1, fp)
    requires forall a :: a in objects ==> a in objects1 && objects1[a] == objects[a]
    ensures Chain(mem1, objects1, fp)
    decreases |mem| - fp
  {
    if !IsEnd(fp) && !IsEnd(mem[fp]) {
      ChainKept(mem, mem1, objects, objects1, mem[fp]);
    }
  }

  /** Two stacks that agree from a frame's cut to the end of its arguments give it the same context. */
  lemma SameFields(mem: seq<Word>, mid: seq<Word>, fp: nat, lo: nat, t: nat, sender: Word, ipField: Word, home: Word)
    requires FrameFits(mem, fp) && lo + t + 4 <= fp && |mid| == |mem| < W.TWO_32
    requires forall i :: lo <= i < fp + ARG_BASE + NumArgs(mem[fp - 2]) ==> mid[i] == mem[i]
    ensures FrameFits(mid, fp) && ContextFields(mid, fp, lo, t, sender, ipField, home)
            == ContextFields(mem, fp, lo, t, sender, ipField, home)
  {
    hide NumArgs, HasClosure;
    assert FrameArgs(mid, fp) == FrameArgs(mem, fp);
    assert FrameTemps(mid, fp, t) == FrameTemps(mem, fp, t);
    assert mid[lo..fp - 4 - t] == mem[lo..fp - 4 - t];
  }

  /** Where the stack of a frame is cut when it is reified: at its stack pointer, or below its temporaries. */
  function CutAt(objects: map<Word, seq<Word>>, mem: seq<Word>, fp: nat, sp: nat, useSp: bool): (lo: nat)
    requires FrameFits(mem, fp) && DeclaredTemps(objects, mem[fp - 1]) + 4 <= fp
    ensures lo + DeclaredTemps(objects, mem[fp - 1]) + 4 <= fp
  {
    var base := fp - 4 - DeclaredTemps(objects, mem[fp - 1]);
    if useSp && sp <= base then sp else base
  }

  ghost predicate Below(objects: map<Word, seq<Word>>, bound: int) {
    forall a :: a in objects ==> 0 < a < bound
  }

  lemma PointerTag(free: nat)
    ensures 8 * free % 4 == 0
  {
  }

  lemma Allocated(objects: map<Word, seq<Word>>, p: Word, fields: seq<Word>, bound: int)
    requires Below(objects, p) && 0 < p < bound
    ensures Below(objects[p := fields], bound) && p !in objects
  {
  }

  /** Writing an object that exists adds no pointer. */
  lemma Rewritten(objects: map<Word, seq<Word>>, p: Word, fields: seq<Word>, bound: int)
    requires Below(objects, bound) && p in objects
    ensures Below(objects[p := fields], bound)
  {
  }

  /** An object of so many fields, with its header, still fits. */
  predicate HasRoom(free: nat, size: nat, limit: nat) { free + size + 3 <= limit }

  /** The fields of the context of a frame whose stack is cut at `lo`. */
  function ReifySize(mem: seq<Word>, f: nat, lo: nat): nat
    requires FrameFits(mem, f) && lo + 4 <= f
  {
    VAR_BASE + NumArgs(mem[f - 2]) + (f - 4 - lo)
  }

  /** A frame that has a context, or room for one. */
  predicate CanReify(mem: seq<Word>, objects: map<Word, seq<Word>>, f: Word, from: nat, useSp: bool, free: nat,
                     limit: nat)
    requires Chain(mem, objects, f) && !IsEnd(f)
  {
    HasContext(mem[f - 2]) || HasRoom(free, ReifySize(mem, f, CutAt(objects, mem, f, from, useSp)), limit)
  }

  /**
   The first free word after a frame is reified, and after it its callers, up to one that has a
   context or finds no room.
   */
  function FreeAfter(mem: seq<Word>, objects: map<Word, seq<Word>>, f: Word, from: nat, useSp: bool, free: nat,
                     limit: nat): nat
    requires Chain(mem, objects, f)
    decreases if IsEnd(f) then 0 else |mem| - f
  {
    if IsEnd(f) || HasContext(mem[f - 2]) || !CanReify(mem, objects, f, from, useSp, free, limit) then free
    else FreeAfter(mem, objects, mem[f], 0, false, free + ReifySize(mem, f, CutAt(objects, mem, f, from, useSp)) + 3,
                   limit)
  }

  lemma NoRoom(mem: seq<Word>, objects: map<Word, seq<Word>>, f: Word, from: nat, useSp: bool, free: nat, limit: nat)
    requires Chain(mem, objects, f) && !IsEnd(f) && !HasContext(mem[f - 2])
    ensures CanReify(mem, objects, f, from, useSp, free, limit)
            <==> HasRoom(free, ReifySize(mem, f, CutAt(objects, mem, f, from, useSp)), limit)
  {
  }

  lemma FreeAfterFrame(mem: seq<Word>, objects: map<Word, seq<Word>>, alloc: map<Word, seq<Word>>, f: Word, from: nat,
                       useSp: bool,
                       free: nat, free1: nat, limit: nat)
    requires Chain(mem, objects, f) && !IsEnd(f) && !HasContext(mem[f - 2]) && Extends(objects, alloc)
    requires Chain(mem, alloc, mem[f]) && CanReify(mem, objects, f, from, useSp, free, limit)
    requires free1 == free + ReifySize(mem, f, CutAt(objects, mem, f, from, useSp)) + 3
    ensures FreeAfter(mem, alloc, mem[f], 0, false, free1, limit)
            == FreeAfter(mem, objects, f, from, useSp, free, limit)
  {
    hide NumArgs, HasContext, CanReify;
    FreeAfterExtended(mem, objects, alloc, mem[f], 0, false, free1, limit);
  }

  /** At the end of a chain, at a frame that has a context, and without room, nothing happens. */
  lemma NothingReified(mem: seq<Word>, objects: map<Word, seq<Word>>, f: Word, from: nat, useSp: bool,
                       ipField: (Word, Word) -> Word,
                       context: Word, free: nat, limit: nat)
    requires Chain(mem, objects, f) && |mem| < W.TWO_32
    requires if IsEnd(f) then context == 0 else if HasContext(mem[f - 2]) then context == mem[f - 3]
             else context == 0 && !CanReify(mem, objects, f, from, useSp, free, limit)
    ensures Ensured(mem, objects, f, from, useSp, ipField, context, mem, objects)
    ensures FreeAfter(mem, objects, f, from, useSp, free, limit) == free
  {
    hide NumArgs, ContextFields, Reified, WithContext, Mark;
    SameCallsSelf(mem, f);
  }

  lemma {:induction false} FreeAfterExtended(mem: seq<Word>, objects: map<Word, seq<Word>>,
                                             objects1: map<Word, seq<Word>>,
                                             f: Word, from: nat, useSp: bool, free: nat, limit: nat)
    requires Chain(mem, objects, f) && Chain(mem, objects1, f) && Extends(objects, objects1)
    ensures FreeAfter(mem, objects1, f, from, useSp, free, limit)
            == FreeAfter(mem, objects, f, from, useSp, free, limit)
    decreases if IsEnd(f) then 0 else |mem| - f
  {
    hide NumArgs, HasContext;
    if !IsEnd(f) {
      assert CutAt(objects1, mem, f, from, useSp) == CutAt(objects, mem, f, from, useSp);
      FreeAfterExtended(mem, objects, objects1, mem[f], 0, false,
                        free + ReifySize(mem, f, CutAt(objects, mem, f, from, useSp)) + 3, limit);
    }
  }

  class Vm {
    const stack: array<Word>
    var sp: nat
    var fp: Word
    var ip: Word
    var objects: map<Word, seq<Word>>
    /** The next free word of object memory; a pointer is eight times a word number. */
    var free: nat
    const limit: nat
    /** What a context records of an instruction pointer in a method; it is not used to resume. */
    const ipField: (Word, Word) -> Word

    ghost predicate Valid()
      reads this, stack
    {
      && stack.Length <= SENTINEL && sp <= stack.Length && 8 * limit < W.TWO_64 && 0 < free
      && Below(objects, 8 * free)
    }

    /** An empty stack without frames, below the entry's end mark, and an empty object memory. */
    constructor (size: nat, entry: Word, limit: nat, ipField: (Word, Word) -> Word)
      requires size <= SENTINEL && IsEnd(entry) && 8 * limit < W.TWO_64
      ensures Valid() && fresh(stack) && stack.Length == sp == size && fp == entry && objects == map[]
      ensures this.limit == limit && this.ipField == ipField && Chain(stack[..], objects, fp)
    {
      stack := new Word[size](_ => 0);
      sp, fp, ip := size, entry, 0;
      objects, free := map[], 1;
      this.limit, this.ipField := limit, ipField;
    }

    /** Bump allocation; 0 when the space is used up. */
    method Alloc(size: nat) returns (p: Word)
      requires Valid()
      modifies this`objects, this`free
      ensures Valid()
      ensures p == 0 <==> !HasRoom(old(free), size, limit)
      ensures free == if p == 0 then old(free) else old(free) + size + 3
      ensures p == 0 ==> objects == old(objects)
      ensures p != 0 ==> p % 4 == 0 && p !in old(objects) && objects == old(objects)[p := Zeros(size)]
    {
      if free + size + 3 > limit {
        return 0;
      }
      p := 8 * free;
      PointerTag(free);
      Allocated(objects, p, Zeros(size), 8 * (free + size + 3));
      objects := objects[p := Zeros(size)];
      free := free + size + 3;
    }

    /** The fixed part of a frame: saved instruction and frame pointer, method, flags, context, receiver. */
    method PushFixed(savedIp: Word, cm: Word, numArgs: nat)
      requires Valid() && 6 <= sp && sp + numArgs < stack.Length && numArgs < 0x100
      modifies this`sp, this`fp, stack
      ensures Valid() && sp == old(sp) - 6 && fp == old(sp) - 2
      ensures stack[..] == old(stack[..sp - 6] + [stack[sp + numArgs], 0, numArgs * 0x100, cm, fp, savedIp]
                               + stack[sp..])
    {
      var receiver := stack[sp + numArgs];
      stack[sp - 1] := savedIp;
      stack[sp - 2] := fp;
      fp := sp - 2;
      stack[sp - 3] := cm;
      stack[sp - 4] := numArgs * 0x100;
      stack[sp - 5] := 0;
      stack[sp - 6] := receiver;
      sp := sp - 6;
    }

    method PushZeros(count: nat)
      requires Valid() && count <= sp
      modifies this`sp, stack
      ensures Valid() && sp == old(sp) - count
      ensures stack[..] == old(stack[..sp - count]) + Zeros(count) + old(stack[sp..])
    {
      ghost var mem, from := stack[..], sp;
      var index := 0;
      while index < count
        invariant index <= count && sp == from - index
        invariant stack[..] == mem[..sp] + Zeros(index) + mem[from..]
      {
        sp := sp - 1;
        stack[sp] := 0;
        index := index + 1;
        assert stack[..] == mem[..sp] + Zeros(index) + mem[from..];
      }
    }

    method ActivateMethod(savedIp: Word, cm: Word, numArgs: nat, numTemps: nat)
      requires Valid() && numTemps + 6 <= sp && sp + numArgs < stack.Length && numArgs < 0x100
      modifies this`sp, this`fp, stack
      ensures Valid()
      ensures stack[..] == Activated(old(stack[..]), old(sp), old(fp), savedIp, cm, numArgs, numTemps)
      ensures sp == old(sp) - 6 - numTemps && fp == old(sp) - 2
    {
      PushFixed(savedIp, cm, numArgs);
      PushZeros(numTemps);
    }

    /** Returns to the caller: the answer replaces the receiver, and the caller's registers come back. */
    method FrameReturn(answer: Word)
      requires Valid() && FrameFits(stack[..], fp)
      modifies this`sp, this`fp, this`ip, stack
      ensures Valid() && Unwound(old(stack[..]), old(fp), answer, stack[..], sp, fp, ip)
    {
      var n := NumArgs(stack[fp - 2]);
      sp := fp + ARG_BASE + n;
      var caller, saved := stack[fp], stack[fp + 1];
      stack[sp] := answer;
      if caller != 0 {
        fp, ip := caller, saved;
      } else {
        fp, ip := 0, 0;
      }
    }

    /** Pushes the values in order, first one first. */
    method PushAll(values: seq<Word>)
      requires Valid() && |values| <= sp
      modifies this`sp, stack
      ensures Valid() && sp == old(sp) - |values|
      ensures stack[..] == Put(old(stack[..]), sp, Reverse(values))
    {
      ghost var mem, from := stack[..], sp;
      for index := 0 to |values|
        invariant sp == from - index
        invariant stack[..] == mem[..sp] + Reverse(values[..index]) + mem[from..]
      {
        sp := sp - 1;
        stack[sp] := values[index];
        assert Reverse(values[..index + 1]) == [values[index]] + Reverse(values[..index]);
        assert stack[..] == mem[..sp] + Reverse(values[..index + 1]) + mem[from..];
      }
      assert values[..|values|] == values;
    }

    method Store(at: nat, value: Word)
      requires at < stack.Length
      modifies stack
      ensures stack[..] == old(stack[..])[at := value]
    {
      stack[at] := value;
    }

    /** Writes a frame's temporaries, first one first, downward from `top`. */
    method FillDown(top: nat, values: seq<Word>)
      requires |values| <= top <= stack.Length
      modifies stack
      ensures stack[..] == Put(old(stack[..]), top - |values|, Reverse(values))
    {
      ghost var mem := stack[..];
      for index := 0 to |values|
        invariant stack[..] == mem[..top - index] + Reverse(values[..index]) + mem[top..]
      {
        stack[top - 1 - index] := values[index];
        assert Reverse(values[..index + 1]) == [values[index]] + Reverse(values[..index]);
        assert stack[..] == mem[..top - (index + 1)] + Reverse(values[..index + 1]) + mem[top..];
      }
      assert values[..|values|] == values;
    }

    /** Writes an evaluation stack, lowest word first, upward from `lo`. */
    method FillUp(lo: nat, values: seq<Word>)
      requires lo + |values| <= stack.Length
      modifies stack
      ensures stack[..] == Put(old(stack[..]), lo, values)
    {
      ghost var mem := stack[..];
      for index := 0 to |values|
        invariant stack[..] == mem[..lo] + values[..index] + mem[lo + index..]
      {
        ghost var before := stack[..];
        stack[lo + index] := values[index];
        assert stack[..] == before[lo + index := values[index]];
        assert stack[..] == mem[..lo] + values[..index + 1] + mem[lo + index + 1..] by {
          OneMore(mem, values, lo, index);
        }
      }
      assert values[..|values|] == values;
    }

    /** The receiver and arguments of a context, and the fixed part of its frame, marked as having that context. */
    method EnterContext(savedIp: Word, context: Word, receiver: Word, args: seq<Word>, flags: Word, cm: Word, t: nat)
      requires Valid() && |args| + 7 + t <= sp && |args| < 0x100
      modifies this`sp, this`fp, stack
      ensures Valid() && sp == old(sp) - |args| - 7 - t && fp == old(sp) - |args| - 3
      ensures stack[..] == Marked(Activated(WithArgs(old(stack[..]), old(sp), receiver, args), old(sp) - 1 - |args|,
                                            old(fp), savedIp, cm, |args|, t),
                                  fp, flags, context)
    {
      hide Reverse, Activated, Put;
      PushAll([receiver]);
      PushAll(args);
      ActivateMethod(savedIp, cm, |args|, t);
      Store(fp - 2, flags);
      Store(fp - 3, context);
    }

    /** The temporaries of a frame just entered, and its evaluation stack. */
    method Fill(temps: seq<Word>, values: seq<Word>)
      requires Valid() && |values| <= sp && sp + |temps| + 4 == fp < stack.Length
      modifies this`sp, stack
      ensures Valid() && sp == old(sp) - |values|
      ensures stack[..] == Put(Put(old(stack[..]), old(sp), Reverse(temps)), sp, values)
    {
      hide Reverse, Put;
      FillDown(fp - 4, temps);
      FillUp(sp - |values|, values);
      sp := sp - |values|;
    }

    /** A whole frame, with its temporaries and its evaluation stack. */
    method EnterFrame(savedIp: Word, context: Word, receiver: Word, args: seq<Word>, temps: seq<Word>,
                      values: seq<Word>, flags: Word, cm: Word)
      requires Valid() && |args| + |temps| + |values| + 7 <= sp && |args| < 0x100
      modifies this`sp, this`fp, stack
      ensures Valid() && sp == old(sp) - |args| - |temps| - |values| - 7 && fp == old(sp) - |args| - 3
      ensures stack[..] == Built(old(stack[..]), old(sp), old(fp), savedIp, context, flags, cm, receiver, args, temps,
                                 values)
    {
      hide Reverse, Activated, Put, Marked, WithArgs, Built;
      EnterContext(savedIp, context, receiver, args, flags, cm, |temps|);
      ghost var m4 := stack[..];
      Fill(temps, values);
      ghost var m6 := stack[..];
      assert m6 == Built(old(stack[..]), old(sp), old(fp), savedIp, context, flags, cm, receiver, args, temps, values)
             by {
        Rebuilt(old(stack[..]), old(sp), old(fp), savedIp, context, flags, cm, receiver, args, temps, values, m4, m6);
      }
    }

    /** Rebuilds the frame a context describes, at the stack pointer. */
    method ActivateContext(savedIp: Word, context: Word)
      requires Valid() && context in objects && ContextFits(objects[context]) && Room(objects[context]) <= sp
      modifies this`sp, this`fp, stack
      ensures Valid()
      ensures stack[..] == Reactivated(old(stack[..]), old(sp), old(fp), savedIp, context, objects[context])
      ensures sp == old(sp) - Room(objects[context]) && fp == old(sp) - Count(objects[context], CONTEXT_NUM_ARGS) - 3
    {
      hide Built, IsBlock;
      var fields := objects[context];
      var n, t := Count(fields, CONTEXT_NUM_ARGS), Count(fields, CONTEXT_NUM_TEMPS);
      EnterFrame(savedIp, context, fields[CONTEXT_RECEIVER], fields[VAR_BASE..VAR_BASE + n],
                 fields[VAR_BASE + n..VAR_BASE + n + t],
                 fields[VAR_BASE + n + t..], n * 0x100 + 1 + IsBlock(Count(fields, CONTEXT_FLAGS)) * 0x1_0000,
                 fields[CONTEXT_METHOD]);
    }

    /** The variable part of a context: arguments in order, temporaries, the stack from `lo` up. */
    method CopyVariables(f: nat, lo: nat, t: nat) returns (vars: seq<Word>)
      requires Valid() && FrameFits(stack[..], f) && lo + t + 4 <= f
      ensures vars == FrameArgs(stack[..], f) + FrameTemps(stack[..], f, t) + stack[lo..f - 4 - t]
    {
      ghost var mem := stack[..];
      var n := NumArgs(stack[f - 2]);
      vars := [];
      for i := 0 to n
        invariant vars == FrameArgs(mem, f)[..i]
      {
        vars := vars + [stack[f + ARG_BASE + (n - 1 - i)]];
      }
      ghost var args := vars;
      for i := 0 to t
        invariant vars == args + FrameTemps(mem, f, t)[..i]
      {
        vars := vars + [stack[f - TEMP_BASE - i]];
      }
      assert FrameTemps(mem, f, t)[..t] == FrameTemps(mem, f, t);
      ghost var both := vars;
      for i := lo to f - 4 - t
        invariant vars == both + stack[lo..i]
      {
        vars := vars + [stack[i]];
      }
    }

    /** Fills in the context of a frame and enters it in the frame. */
    method Record(f: nat, context: Word, lo: nat, t: nat, sender: Word, home: Word)
      requires Valid() && FrameFits(stack[..], f) && lo + t + 4 <= f && context in objects
      modifies this`objects, stack
      ensures Valid() && objects == old(objects)[context := ContextFields(old(stack[..]), f, lo, t, sender,
                                                     ipField(old(stack[f + 1]), old(stack[f - 1])), home)]
      ensures stack[..] == old(stack[..])[f - 3 := context][f - 2 := WithContext(old(stack[f - 2]))]
    {
      hide NumArgs, HasClosure, WithContext, FrameArgs, FrameTemps;
      var closure := if HasClosure(stack[f - 2]) then stack[f - 3] else W.NIL;
      var vars := CopyVariables(f, lo, t);
      ghost var mem := stack[..];
      var fields := [sender, ipField(stack[f + 1], stack[f - 1]), stack[f - 1], stack[f - 4], home, closure,
                     W.TagSmallInt(stack[f - 2]), W.TagSmallInt(NumArgs(stack[f - 2])), W.TagSmallInt(t),
                     W.TagSmallInt(f - 4 - t - lo)] + vars;
      assert fields == ContextFields(mem, f, lo, t, sender, ipField(mem[f + 1], mem[f - 1]), home);
      Rewritten(objects, context, fields, 8 * free);
      objects := objects[context := fields];
      stack[f - 3] := context;
      stack[f - 2] := WithContext(stack[f - 2]);
    }

    /** The context of a frame: the one it has, or a new one that records the frame down to `from`. */
    method EnsureContext(f: Word, from: nat, useSp: bool) returns (context: Word)
      requires Valid() && Chain(stack[..], objects, f)
      modifies this`objects, this`free, stack
      ensures Valid()
      ensures Ensured(old(stack[..]), old(objects), f, from, useSp, ipField, context, stack[..], objects)
      ensures !IsEnd(f) && !HasContext(old(stack[f - 2])) ==>
                (context == 0 <==> !CanReify(old(stack[..]), old(objects), f, from, useSp, old(free), limit))
      ensures free == FreeAfter(old(stack[..]), old(objects), f, from, useSp, old(free), limit)
      decreases if IsEnd(f) then 0 else stack.Length - f
    {
      hide NumArgs, WithContext, HasContext, HasClosure, IsBlock, FrameArgs, FrameTemps, SameCalls, Mark,
           ContextFields, DeclaredTemps;
      hide FreeAfter, Ensured, Reified, CanReify, Chain;
      ghost var mem := stack[..];
      if IsEnd(f) {
        NothingReified(mem, objects, f, from, useSp, ipField, 0, free, limit);
        return 0;
      }
      assert FrameFits(mem, f) by { ChainHead(mem, objects, f); }
      if HasContext(stack[f - 2]) {
        NothingReified(mem, objects, f, from, useSp, ipField, mem[f - 3], free, limit);
        return stack[f - 3];
      }
      ChainHead(mem, objects, f);
      var home := HomeOf(objects, if HasClosure(stack[f - 2]) then stack[f - 3] else W.NIL);
      var t := DeclaredTemps(objects, stack[f - 1]);
      var lo := CutAt(objects, stack[..], f, from, useSp);
      var n := NumArgs(stack[f - 2]);
      context := Alloc(VAR_BASE + n + t + (f - 4 - t - lo));
      if context == 0 {
        assert !CanReify(mem, objects, f, from, useSp, free, limit)
               by { NoRoom(mem, objects, f, from, useSp, free, limit); }
        NothingReified(mem, objects, f, from, useSp, ipField, 0, free, limit);
        return 0;
      }
      assert CanReify(mem, old(objects), f, from, useSp, old(free), limit)
             by { NoRoom(mem, old(objects), f, from, useSp, old(free), limit); }
      hide CutAt, HomeOf, Zeros;
      ChainAbove(mem, old(objects), objects, f);
      ghost var alloc := objects;
      FreeAfterFrame(mem, old(objects), alloc, f, from, useSp, old(free), free, limit);
      var callerContext := EnsureContext(stack[f], 0, false);
      ghost var mid, objects2 := stack[..], objects;
      CallersReified(mem, mid, old(objects), alloc, objects2, f, context, ipField, callerContext);
      Record(f, context, lo, t, if callerContext == 0 then W.NIL else callerContext, home);
      NewContext(mem, mid, stack[..], old(objects), alloc, objects2, objects, f, from, useSp, ipField, callerContext,
                 context);
    }

    /** A new block with the running frame's context as its home, pushed. */
    method MakeBlock(cm: Word, slots: nat) returns (ok: bool)
      requires Valid() && FrameFits(stack[..], fp) && slots + 4 <= fp && 1 <= sp
      modifies this`sp, this`objects, this`free, stack
      ensures Valid()
      ensures ok <==> HasRoom(old(free), BLOCK_COPIED_BASE + NumArgs(old(stack[fp - 2])) + slots, limit)
      ensures !ok ==> sp == old(sp) && objects == old(objects) && stack[..] == old(stack[..])
      ensures ok ==> sp == old(sp) - 1 && stack[sp] !in old(objects) && stack[sp] != W.NIL
      ensures ok ==> stack[..] == old(stack[..])[sp := stack[sp]]
      ensures ok ==> objects == old(objects)[stack[sp] := old([stack[fp - 3], stack[fp - 4], cm]
                                                              + FrameArgs(stack[..], fp) + FrameTemps(stack[..], fp,
                                                              slots))]
    {
      hide NumArgs, FrameArgs, FrameTemps, Zeros, Below;
      var block := Alloc(BLOCK_COPIED_BASE + NumArgs(stack[fp - 2]) + slots);
      if block == 0 {
        return false;
      }
      var copied := CopyVariables(fp, fp - 4 - slots, slots);
      assert stack[fp - 4 - slots..fp - 4 - slots] == [];
      Rewritten(objects, block, [stack[fp - 3], stack[fp - 4], cm] + copied, 8 * free);
      assert [stack[fp - 3], stack[fp - 4], cm] + copied
             == [stack[fp - 3], stack[fp - 4], cm] + FrameArgs(stack[..], fp) + FrameTemps(stack[..], fp, slots);
      objects := objects[block := [stack[fp - 3], stack[fp - 4], cm] + copied];
      sp := sp - 1;
      Store(sp, block);
      ok := true;
    }

    /** Creates a block: its home is the running frame's context, and it copies the frame's arguments and slots. */
    method PushClosure(cm: Word)
      returns (ok: bool, ghost context: Word, ghost mid: seq<Word>, ghost made: map<Word, seq<Word>>)
      requires Valid() && Chain(stack[..], objects, fp) && !IsEnd(fp) && WellTagged(objects, stack[..], fp)
      requires 1 <= sp && sp + SlotCount(objects, stack[..], fp) + 4 <= fp
      modifies this`sp, this`objects, this`free, stack
      ensures Valid() && sp == if ok then old(sp) - 1 else old(sp)
      ensures ok <==> (&& CanReify(old(stack[..]), old(objects), fp, old(sp), true, old(free), limit)
                       && HasRoom(FreeAfter(old(stack[..]), old(objects), fp, old(sp), true, old(free), limit),
                                  BLOCK_COPIED_BASE + old(NumArgs(stack[fp - 2]) + SlotCount(objects, stack[..], fp)),
                                  limit))
      ensures |mid| == stack.Length
              && Ensured(old(stack[..]), old(objects), fp, old(sp), true, ipField, context, mid, made)
      ensures ok ==> BlockPushed(old(stack[..]), old(objects), old(sp), fp, cm, context, mid, made, stack[sp],
                                 stack[..], objects)
      ensures ok ==> BlockMade(old(stack[..]), old(objects), fp, cm, stack[sp], stack[..], objects)
      ensures !ok ==> stack[..] == mid && objects == made
      ensures Chain(stack[..], objects, fp)
      ensures old(AllTagged(stack[..], objects, fp) && Distinct(stack[..], fp)) ==>
                AllTagged(stack[..], objects, fp) && Distinct(stack[..], fp)
    {
      hide NumArgs, HasContext, HasClosure, IsBlock, Chain, Ensured, ContextFields, DeclaredTemps, Mark, SlotCount,
           FrameArgs, FrameTemps, BlockPushed, BlockMade, AllTagged, Distinct, CanReify, FreeAfter, Below;
      ghost var mem, objects0 := stack[..], objects;
      ChainHead(mem, objects, fp);
      var slots := SlotCount(objects, stack[..], fp);
      var own := EnsureContext(fp, sp, true);
      context, mid, made := own, stack[..], objects;
      EnsuredKeeps(mem, objects0, fp, sp, true, ipField, context, mid, made);
      assert FrameFits(mid, fp) && NumArgs(mid[fp - 2]) == NumArgs(mem[fp - 2]) by {
        FrameKept(mem, objects0, fp, sp, true, ipField, context, mid, made);
      }
      assert context == 0 <==> !CanReify(mem, objects0, fp, sp, true, old(free), limit) by {
        OwnContext(mem, objects0, fp, sp, true, ipField, context, mid, made, old(free), limit);
      }
      if own == 0 {
        ok := false;
        return;
      }
      hide WellTagged, FrameFits;
      ok := MakeBlock(cm, slots);
      if ok {
        BlockIsPushed(mem, objects0, old(sp), fp, cm, ipField, context, mid, made, stack[sp], stack[..], objects);
      }
    }

    /** Runs a block: its receiver replaces the block under the arguments, its copies fill the first slots. */
    method ActivateBlock(block: Word, argCount: nat)
      requires Valid() && IsBlockObject(objects, block) && argCount < 0x100 && sp + argCount < stack.Length
      requires BlockSlots(objects, block) + 6 <= sp
      modifies this`sp, this`fp, stack
      ensures Valid() && sp == old(sp) - 6 - BlockSlots(objects, block) && fp == old(sp) - 2
      ensures stack[..] == BlockActivated(old(stack[..]), old(sp), old(fp), ip, block, objects, argCount)
    {
      hide Activated, DeclaredTemps, Put, NumArgs, Below;
      var fields := objects[block];
      var copied := fields[BLOCK_COPIED_BASE..];
      Store(sp + argCount, fields[BLOCK_HOME_RECEIVER]);
      ActivateMethod(ip, fields[BLOCK_CM], argCount, DeclaredTemps(objects, fields[BLOCK_CM]) + |copied|);
      FillDown(fp - 4, copied);
      MarkFrame(argCount * 0x100 + 0x1_0000 + 2, block);
    }

    method MarkFrame(flags: Word, context: Word)
      requires 3 <= fp < stack.Length
      modifies stack
      ensures stack[..] == Marked(old(stack[..]), fp, flags, context)
    {
      stack[fp - 2] := flags;
      stack[fp - 3] := context;
    }

    /**
     Returns from the frame that created the running block: the search goes up the chain to the
     first frame that has the block's home context.
     */
    method NonLocalReturn(entry: Word) returns (r: Outcome)
      requires Valid() && Chain(stack[..], objects, fp) && !IsEnd(fp) && WellTagged(objects, stack[..], fp)
               && sp < stack.Length
      modifies this`sp, this`fp, this`ip, stack
      ensures Valid()
      ensures var home := HomeFrame(old(stack[..]), objects, old(fp), old(FrameHome(objects, stack[..], fp)));
              if home == 0 then r == Unhandled && stack[..] == old(stack[..]) && sp == old(sp) && fp == old(fp)
                                && ip == old(ip)
              else FrameFits(old(stack[..]), home)
                   && Unwinds(old(stack[..]), home, old(stack[sp]), stack[..], sp, fp)
                   && (home != entry && old(stack[..])[home] != 0 ==>
                         Unwound(old(stack[..]), home, old(stack[sp]), stack[..], sp, fp, ip))
                   && (if home == entry then r == Finished(old(stack[sp]))
                                             && ip == old(ip) else r == Resumed && ip == old(stack[..])[home + 1])
    {
      hide NumArgs, HasContext, HasClosure, DeclaredTemps, WellTagged;
      var answer := stack[sp];
      var context := FrameHome(objects, stack[..], fp);
      var f: Word := fp;
      while !IsEnd(f)
        invariant Chain(stack[..], objects, f) && stack[..] == old(stack[..]) && sp == old(sp) && fp == old(fp)
                  && ip == old(ip)
        invariant HomeFrame(stack[..], objects, f, context) == HomeFrame(stack[..], objects, fp, context)
        decreases if IsEnd(f) then 0 else stack.Length - f
      {
        if HasContext(stack[f - 2]) && stack[f - 3] == context {
          ghost var mem := stack[..];
          var caller, saved := stack[f], stack[f + 1];
          sp := f + ARG_BASE + NumArgs(stack[f - 2]);
          stack[sp] := answer;
          fp := caller;
          if f == entry {
            return Finished(answer);
          }
          ip := saved;
          return Resumed;
        }
        f := stack[f];
      }
      return Unhandled;
    }
  }

  // ----------------------------------------------------------------- stacks made of segments

  /** The stack with a segment written over. */
  function Put(mem: seq<Word>, at: nat, values: seq<Word>): (r: seq<Word>)
    requires at + |values| <= |mem|
    ensures |r| == |mem|
  {
    mem[..at] + values + mem[at + |values|..]
  }

  lemma OneMore(mem: seq<Word>, values: seq<Word>, lo: nat, i: nat)
    requires i < |values| && lo + |values| <= |mem|
    ensures (mem[..lo] + values[..i] + mem[lo + i..])[lo + i := values[i]]
            == mem[..lo] + values[..i + 1] + mem[lo + i + 1..]
  {
  }

  /** A receiver and arguments pushed at `top`. */
  function WithArgs(mem: seq<Word>, top: nat, receiver: Word, args: seq<Word>): (r: seq<Word>)
    requires |args| + 1 <= top <= |mem|
    ensures |r| == |mem|
  {
    Put(Put(mem, top - 1, Reverse([receiver])), top - 1 - |args|, Reverse(args))
  }

  /** A frame with new flags and context. */
  function Marked(mem: seq<Word>, fp: nat, flags: Word, context: Word): (r: seq<Word>)
    requires 3 <= fp < |mem|
    ensures |r| == |mem|
  {
    mem[fp - 2 := flags][fp - 3 := context]
  }

  /** Receiver, arguments, and the fixed part of the frame entered on them. */
  lemma Entered(mem: seq<Word>, top: nat, receiver: Word, args: seq<Word>, callerFp: Word, savedIp: Word, cm: Word,
                t: nat)
    requires |args| + 7 + t <= top <= |mem| && |args| < 0x100
    ensures var m2 := Put(Put(mem, top - 1, [receiver]), top - 1 - |args|, args);
            Activated(m2, top - 1 - |args|, callerFp, savedIp, cm, |args|, t)
            == mem[..top - |args| - 7 - t] + Zeros(t)
                + ([receiver, 0, |args| * 0x100, cm, callerFp, savedIp] + (args + [receiver] + mem[top..]))
  {
    var m2 := Put(Put(mem, top - 1, [receiver]), top - 1 - |args|, args);
    assert m2 == mem[..top - 1 - |args|] + (args + [receiver] + mem[top..]);
    assert m2[top - 1] == receiver;
    assert m2[..top - |args| - 7 - t] == mem[..top - |args| - 7 - t];
    assert m2[top - 1 - |args|..] == args + [receiver] + mem[top..];
  }

  lemma Stamped(low: seq<Word>, receiver: Word, flags: Word, flags1: Word, context: Word, cm: Word, callerFp: Word,
                savedIp: Word, rest: seq<Word>)
    ensures (low + ([receiver, 0, flags, cm, callerFp, savedIp] + rest))[|low| + 2 := flags1][|low| + 1 := context]
            == low + ([receiver, context, flags1, cm, callerFp, savedIp] + rest)
  {
  }

  lemma Filled(low: seq<Word>, hole: seq<Word>, values: seq<Word>, rest: seq<Word>)
    requires |hole| == |values|
    ensures Put(low + hole + rest, |low|, values) == low + (values + rest)
  {
  }

  lemma FilledBelow(mem: seq<Word>, a: nat, values: seq<Word>, rest: seq<Word>)
    requires |values| <= a <= |mem|
    ensures Put(mem[..a] + rest, a - |values|, values) == mem[..a - |values|] + values + rest
  {
  }

  lemma OneReversed(w: Word)
    ensures Reverse([w]) == [w]
  {
  }

  /** The writes of an activation from a context, in order. */
  lemma Rebuilt(mem: seq<Word>, top: nat, caller: Word, savedIp: Word, context: Word, flags: Word, cm: Word,
                receiver: Word,
                args: seq<Word>, temps: seq<Word>, values: seq<Word>, m4: seq<Word>, m6: seq<Word>)
    requires |args| + |temps| + |values| + 7 <= top <= |mem| == |m4| && |args| < 0x100
    requires m4 == Marked(Activated(WithArgs(mem, top, receiver, args), top - 1 - |args|, caller, savedIp, cm, |args|,
                                    |temps|),
                          top - |args| - 3, flags, context)
    requires m6 == Put(Put(m4, top - |args| - 7 - |temps|, Reverse(temps)), top - |args| - 7 - |temps| - |values|,
                       values)
    ensures m6 == Built(mem, top, caller, savedIp, context, flags, cm, receiver, args, temps, values)
  {
    hide Reverse, Activated, Put;
    var a, tail := top - |args| - 7 - |temps|, Reverse(args) + [receiver] + mem[top..];
    OneReversed(receiver);
    Entered(mem, top, receiver, Reverse(args), caller, savedIp, cm, |temps|);
    Stamped(mem[..a] + Zeros(|temps|), receiver, |args| * 0x100, flags, context, cm, caller, savedIp, tail);
    var fixed := [receiver, context, flags, cm, caller, savedIp] + tail;
    Filled(mem[..a], Zeros(|temps|), Reverse(temps), fixed);
    FilledBelow(mem, a, values, Reverse(temps) + fixed);
    Concatenated(mem[..a - |values|], values, Reverse(temps), [receiver, context, flags, cm, caller, savedIp],
                 Reverse(args), [receiver], mem[top..]);
  }

  lemma Concatenated(a: seq<Word>, b: seq<Word>, c: seq<Word>, d: seq<Word>, e: seq<Word>, f: seq<Word>, g: seq<Word>)
    ensures a + b + (c + (d + (e + f + g))) == a + b + c + d + e + f + g
  {
  }

  // ----------------------------------------------------------------- blocks and homes

  /** The objects a frame's context slot refers to are contexts and blocks. */
  predicate WellTagged(objects: map<Word, seq<Word>>, mem: seq<Word>, fp: nat)
    requires FrameFits(mem, fp)
  {
    && (HasContext(mem[fp - 2]) ==>
         && mem[fp - 3] in objects && |objects[mem[fp - 3]]| >= VAR_BASE && mem[fp - 3] != 0
         && var closure := objects[mem[fp - 3]][CONTEXT_CLOSURE]; closure == W.NIL || IsBlockObject(objects, closure))
    && (HasClosure(mem[fp - 2]) ==> IsBlockObject(objects, mem[fp - 3]))
  }

  predicate IsBlockObject(objects: map<Word, seq<Word>>, block: Word) {
    block in objects && |objects[block]| >= BLOCK_COPIED_BASE && block != W.NIL
  }

  /** The block that a frame runs, nil for a method's frame. */
  function FrameClosure(objects: map<Word, seq<Word>>, mem: seq<Word>, fp: nat): (r: Word)
    requires FrameFits(mem, fp) && WellTagged(objects, mem, fp)
    ensures r == W.NIL || IsBlockObject(objects, r)
  {
    if HasContext(mem[fp - 2]) then objects[mem[fp - 3]][CONTEXT_CLOSURE]
    else if HasClosure(mem[fp - 2]) then mem[fp - 3]
    else W.NIL
  }

  /** The context of the frame that created the block that a frame runs. */
  function FrameHome(objects: map<Word, seq<Word>>, mem: seq<Word>, fp: nat): Word
    requires FrameFits(mem, fp) && WellTagged(objects, mem, fp)
  {
    if HasContext(mem[fp - 2]) then objects[mem[fp - 3]][CONTEXT_HOME]
    else if HasClosure(mem[fp - 2]) then objects[mem[fp - 3]][BLOCK_HOME_CONTEXT]
    else W.NIL
  }

  /** The slots of a frame: what its method declares and what its block copied. */
  function SlotCount(objects: map<Word, seq<Word>>, mem: seq<Word>, fp: nat): nat
    requires FrameFits(mem, fp) && WellTagged(objects, mem, fp)
  {
    var closure := FrameClosure(objects, mem, fp);
    DeclaredTemps(objects, mem[fp - 1]) + if closure == W.NIL then 0 else |objects[closure]| - BLOCK_COPIED_BASE
  }

  /** A new block, with the creating frame's context as its home and that frame's values in its copies. */
  ghost predicate BlockMade(mem: seq<Word>, objects: map<Word, seq<Word>>, fp: nat, cm: Word, block: Word,
                            mem1: seq<Word>, objects1: map<Word, seq<Word>>)
    requires FrameFits(mem, fp) && WellTagged(objects, mem, fp) && SlotCount(objects, mem, fp) + 4 <= fp
             && |mem1| == |mem|
  {
    && block !in objects && block != W.NIL && block in objects1 && HasContext(mem1[fp - 2])
    && objects1[block] == [mem1[fp - 3], mem[fp - 4], cm] + FrameArgs(mem, fp)
       + FrameTemps(mem, fp, SlotCount(objects, mem, fp))
  }

  /**
   The running frame has been reified at its stack pointer, and a new block pushed: it has the
   frame's context as home, the frame's receiver, and copies of its arguments and slots.
   */
  ghost predicate BlockPushed(mem: seq<Word>, objects: map<Word, seq<Word>>, sp: nat, fp: nat, cm: Word,
                              context: Word, mid: seq<Word>, made: map<Word, seq<Word>>, block: Word,
                              mem1: seq<Word>, objects1: map<Word, seq<Word>>)
    requires FrameFits(mem, fp) && WellTagged(objects, mem, fp) && SlotCount(objects, mem, fp) + 4 <= fp
  {
    && context != 0 && block !in made && block != W.NIL && 1 <= sp <= |mid| == |mem1| && mem1 == mid[sp - 1 := block]
    && objects1 == made[block := [context, mem[fp - 4], cm] + FrameArgs(mem, fp)
                                 + FrameTemps(mem, fp, SlotCount(objects, mem, fp))]
  }

  /** The slots that a block's frame has: what its method declares and what it copied. */
  function BlockSlots(objects: map<Word, seq<Word>>, block: Word): nat
    requires IsBlockObject(objects, block)
  {
    DeclaredTemps(objects, objects[block][BLOCK_CM]) + |objects[block]| - BLOCK_COPIED_BASE
  }

  /** The stack after a block has been activated on the arguments at `sp`. */
  function BlockActivated(mem: seq<Word>, sp: nat, callerFp: Word, savedIp: Word, block: Word,
                          objects: map<Word, seq<Word>>, n: nat): (r: seq<Word>)
    requires IsBlockObject(objects, block) && BlockSlots(objects, block) + 6 <= sp && sp + n < |mem| && n < 0x100
    ensures |r| == |mem|
  {
    var fields, copied := objects[block], objects[block][BLOCK_COPIED_BASE..];
    var m := Activated(mem[sp + n := fields[BLOCK_HOME_RECEIVER]], sp, callerFp, savedIp, fields[BLOCK_CM], n,
                       BlockSlots(objects, block));
    Marked(Put(m, sp - 6 - |copied|, Reverse(copied)), sp - 2, n * 0x100 + 0x1_0000 + 2, block)
  }

  /**
   What a block's frame is: the caller's registers, the block's method and receiver, the
   arguments as they were pushed, the copies in the first slots and zeros in its own.
   */
  lemma BlockFrame(mem: seq<Word>, sp: nat, callerFp: Word, savedIp: Word, block: Word, objects: map<Word, seq<Word>>,
                   n: nat)
    requires IsBlockObject(objects, block) && BlockSlots(objects, block) + 6 <= sp && sp + n < |mem| && n < 0x100
             && TEMP_BASE + 2 <= sp
    ensures var r, fp := BlockActivated(mem, sp, callerFp, savedIp, block, objects, n), sp - 2;
            var fields := objects[block];
            && r[fp + 1] == savedIp && r[fp] == callerFp && r[fp - 1] == fields[BLOCK_CM]
               && r[fp - 4] == fields[BLOCK_HOME_RECEIVER]
            && FrameFits(r, fp) && HasClosure(r[fp - 2]) && !HasContext(r[fp - 2]) && IsBlock(r[fp - 2]) == 1
               && r[fp - 3] == block && r[fp - 2] == n * 0x100 + 0x1_0002
            && FrameArgs(r, fp) == Reverse(mem[sp..sp + n])
            && FrameTemps(r, fp, BlockSlots(objects, block))
               == fields[BLOCK_COPIED_BASE..] + Zeros(DeclaredTemps(objects, fields[BLOCK_CM]))
            && r[..sp - 6 - BlockSlots(objects, block)] == mem[..sp - 6 - BlockSlots(objects, block)]
               && r[sp + n + 1..] == mem[sp + n + 1..]
  {
    hide DeclaredTemps, HasClosure, HasContext, NumArgs, IsBlock, Activated, FrameArgs;
    var fields, copied := objects[block], objects[block][BLOCK_COPIED_BASE..];
    var t := BlockSlots(objects, block);
    var mem1 := mem[sp + n := fields[BLOCK_HOME_RECEIVER]];
    var m := Activated(mem1, sp, callerFp, savedIp, fields[BLOCK_CM], n, t);
    var r, fp := BlockActivated(mem, sp, callerFp, savedIp, block, objects, n), sp - 2;
    ActivatedFrame(mem1, sp, callerFp, savedIp, fields[BLOCK_CM], n, t);
    BlockFlags(n);
    assert r[fp..] == m[fp..];
    assert r[fp + 2..fp + 2 + n] == mem[sp..sp + n] by {
      assert m[sp..] == mem1[sp..] && r[sp..] == m[sp..];
    }
    ArgsAre(r, fp, n);
    assert r[sp + n + 1..] == mem[sp + n + 1..] by {
      assert m[sp..][n + 1..] == mem1[sp..][n + 1..];
    }
    assert r[..sp - 6 - t] == m[..sp - 6 - t];
    CopiesFill(m, r, fp, copied, t);
  }

  lemma CopiesFill(m: seq<Word>, r: seq<Word>, fp: nat, copied: seq<Word>, t: nat)
    requires t + 4 <= fp < |m| == |r| && |copied| <= t
    requires FrameTemps(m, fp, t) == Zeros(t)
    requires forall i :: 0 <= i < fp - 4 ==> r[i] == Put(m, fp - 4 - |copied|, Reverse(copied))[i]
    ensures FrameTemps(r, fp, t) == copied + Zeros(t - |copied|)
  {
    var s := FrameTemps(r, fp, t);
    forall i | 0 <= i < t ensures s[i] == (copied + Zeros(t - |copied|))[i] {
      assert FrameTemps(m, fp, t)[i] == 0;
      if i < |copied| {
        assert Reverse(copied)[|copied| - 1 - i] == copied[i];
      }
    }
  }

  lemma BlockFlags(n: nat)
    requires n < 0x100
    ensures var f := n * 0x100 + 0x1_0000 + 2; f < W.TWO_32 && NumArgs(f) == n && IsBlock(f) == 1 && HasClosure(f)
                                               && !HasContext(f)
  {
    var f := n * 0x100 + 0x1_0000 + 2;
    assert f / 0x100 == n + 0x100 && f / 0x1_0000 == 1;
    assert f / 2 == n * 0x80 + 0x8000 + 1;
  }

  lemma ArgsAre(r: seq<Word>, fp: nat, n: nat)
    requires FrameFits(r, fp) && NumArgs(r[fp - 2]) == n
    ensures FrameArgs(r, fp) == Reverse(r[fp + 2..fp + 2 + n])
  {
    hide NumArgs;
  }

  /** The first frame from `f` up the chain that has the context; 0 for none. */
  function HomeFrame(mem: seq<Word>, objects: map<Word, seq<Word>>, f: Word, context: Word): (h: Word)
    requires Chain(mem, objects, f)
    ensures h != 0 ==> !IsEnd(h) && FrameFits(mem, h) && Chain(mem, objects, h) && f <= h
    ensures h != 0 && AllTagged(mem, objects, f) ==> AllTagged(mem, objects, h)
    decreases if IsEnd(f) then 0 else |mem| - f
  {
    if IsEnd(f) then 0
    else if HasContext(mem[f - 2]) && mem[f - 3] == context then f
    else HomeFrame(mem, objects, mem[f], context)
  }

  datatype Outcome = Resumed | Finished(answer: Word) | Unhandled

  /** The answer is where the receiver of `f` was, all else is as it was, and its caller's frame is back. */
  predicate Unwinds(mem: seq<Word>, f: nat, answer: Word, mem1: seq<Word>, sp1: nat, fp1: Word)
    requires FrameFits(mem, f)
  {
    sp1 == f + ARG_BASE + NumArgs(mem[f - 2]) && mem1 == mem[sp1 := answer] && fp1 == mem[f]
  }

  /** All of a frame but its flags and context, and all below it. */
  ghost predicate Kept(mem: seq<Word>, mem1: seq<Word>, f: nat)
    requires FrameFits(mem, f) && |mem1| == |mem|
  {
    forall i :: 0 <= i < f + ARG_BASE + NumArgs(mem[f - 2]) && i != f - 2 && i != f - 3 ==> mem1[i] == mem[i]
  }

  /** Reifying a frame leaves its receiver, its arguments and all below its fixed part. */
  lemma FrameKept(mem: seq<Word>, objects: map<Word, seq<Word>>, f: Word, from: nat, useSp: bool,
                  ipField: (Word, Word) -> Word,
                  context: Word, mem1: seq<Word>, objects1: map<Word, seq<Word>>)
    requires |mem| == |mem1| < W.TWO_32 && Chain(mem, objects, f) && !IsEnd(f)
    requires Ensured(mem, objects, f, from, useSp, ipField, context, mem1, objects1)
    ensures FrameFits(mem, f) && FrameFits(mem1, f) && NumArgs(mem1[f - 2]) == NumArgs(mem[f - 2])
    ensures Kept(mem, mem1, f) && OnlyMarks(mem, mem1, f)
    ensures context != 0 ==> HasContext(mem1[f - 2]) && mem1[f - 3] == context
    ensures Extends(objects, objects1)
  {
    hide WithContext, NumArgs, HasContext, HasClosure, IsBlock, ContextFields, DeclaredTemps;
    ChainHead(mem, objects, f);
    forall i | 0 <= i < f + ARG_BASE + NumArgs(mem[f - 2]) && i != f - 2 && i != f - 3 ensures mem1[i] == mem[i] {
      if mem1[i] != mem[i] {
        MarksAbove(mem, mem[f], i);
      }
    }
  }

  /** A frame that has a context has one that is not 0. */
  lemma OwnContext(mem: seq<Word>, objects: map<Word, seq<Word>>, f: Word, from: nat, useSp: bool,
                   ipField: (Word, Word) -> Word,
                   context: Word, mem1: seq<Word>, objects1: map<Word, seq<Word>>, free: nat, limit: nat)
    requires |mem| == |mem1| < W.TWO_32 && Chain(mem, objects, f) && !IsEnd(f) && FrameFits(mem, f)
             && WellTagged(objects, mem, f)
    requires Ensured(mem, objects, f, from, useSp, ipField, context, mem1, objects1)
    requires !HasContext(mem[f - 2]) ==> (context == 0 <==> !CanReify(mem, objects, f, from, useSp, free, limit))
    ensures context == 0 <==> !CanReify(mem, objects, f, from, useSp, free, limit)
  {
  }

  lemma SameVariables(mem: seq<Word>, mid: seq<Word>, fp: nat, t: nat)
    requires FrameFits(mem, fp) && FrameFits(mid, fp) && |mid| == |mem|
             && NumArgs(mid[fp - 2]) == NumArgs(mem[fp - 2]) && t + 4 <= fp
    requires Kept(mem, mid, fp)
    ensures FrameArgs(mid, fp) == FrameArgs(mem, fp) && FrameTemps(mid, fp, t) == FrameTemps(mem, fp, t)
  {
    hide NumArgs;
  }

  // ----------------------------------------------------------------- the contexts on a chain

  predicate IsFrame(mem: seq<Word>, f: Word) { !IsEnd(f) && 3 <= f < |mem| }

  /** The contexts that the frames of a chain have. */
  ghost function Contexts(mem: seq<Word>, f: Word): set<Word>
    decreases |mem| - f
  {
    if !IsFrame(mem, f) then {}
    else (if HasContext(mem[f - 2]) then {mem[f - 3]} else {}) + (if f < mem[f] then Contexts(mem, mem[f]) else {})
  }

  /** No two frames of a chain have the same context. */
  ghost predicate Distinct(mem: seq<Word>, f: Word)
    decreases |mem| - f
  {
    IsFrame(mem, f) && f < mem[f] ==>
      (HasContext(mem[f - 2]) ==> mem[f - 3] !in Contexts(mem, mem[f])) && Distinct(mem, mem[f])
  }

  lemma {:induction false} ContextsAbove(mem: seq<Word>, mem1: seq<Word>, f: Word)
    requires |mem1| == |mem| && forall i :: 0 <= f - 3 <= i < |mem| ==> mem1[i] == mem[i]
    ensures Contexts(mem1, f) == Contexts(mem, f) && (Distinct(mem, f) ==> Distinct(mem1, f))
    decreases |mem| - f
  {
    if IsFrame(mem, f) && f < mem[f] {
      ContextsAbove(mem, mem1, mem[f]);
    }
  }

  /** Contexts are only added, new ones are not old objects, and distinct ones stay distinct. */
  ghost predicate ContextsGrow(mem: seq<Word>, objects: map<Word, seq<Word>>, mem1: seq<Word>, f: Word) {
    && (forall c :: c in Contexts(mem1, f) ==> c in Contexts(mem, f) || c !in objects)
    && (Contexts(mem, f) <= objects.Keys && Distinct(mem, f) ==> Distinct(mem1, f))
  }

  /** The context words of all frames of a chain refer to contexts and blocks. */
  ghost predicate AllTagged(mem: seq<Word>, objects: map<Word, seq<Word>>, f: Word)
    decreases |mem| - f
  {
    IsEnd(f) || (FrameFits(mem, f) && WellTagged(objects, mem, f) && (f < mem[f] ==> AllTagged(mem, objects, mem[f])))
  }

  lemma {:induction false} TaggedContexts(mem: seq<Word>, objects: map<Word, seq<Word>>, f: Word)
    requires AllTagged(mem, objects, f)
    ensures Contexts(mem, f) <= objects.Keys
    decreases |mem| - f
  {
    if IsFrame(mem, f) && f < mem[f] {
      TaggedContexts(mem, objects, mem[f]);
    }
  }

  /** Objects that are not contexts of the chain may come, and change as long as they keep room for what a block has. */
  lemma {:induction false} TagsKept(mem: seq<Word>, mem1: seq<Word>, objects: map<Word, seq<Word>>,
                                    objects1: map<Word, seq<Word>>, f: Word)
    requires AllTagged(mem, objects, f) && |mem1| == |mem|
    requires forall i :: 0 <= f - 3 <= i < |mem| ==> mem1[i] == mem[i]
    requires forall a :: a in objects ==> a in objects1 && (a in Contexts(mem, f) ==> objects1[a] == objects[a])
    requires forall a :: a in objects && |objects[a]| >= BLOCK_COPIED_BASE ==> |objects1[a]| >= BLOCK_COPIED_BASE
    ensures AllTagged(mem1, objects1, f)
    decreases |mem| - f
  {
    hide NumArgs, HasClosure;
    if !IsEnd(f) && f < mem[f] {
      TagsKept(mem, mem1, objects, objects1, mem[f]);
    }
  }

  /** A frame that now has a context is tagged as it should be, and so are its callers. */
  lemma NewContextTagged(mem: seq<Word>, mid: seq<Word>, mem1: seq<Word>, objects: map<Word, seq<Word>>,
                         alloc: map<Word, seq<Word>>,
                         objects2: map<Word, seq<Word>>, objects1: map<Word, seq<Word>>, f: Word, context: Word,
                         fields: seq<Word>)
    requires |mid| == |mem| == |mem1| && !IsEnd(f) && FrameFits(mem, f) && (f + 6 < mem[f] || IsEnd(mem[f]))
             && mid[f] == mem[f]
    requires context !in objects && context in alloc && context != 0 && Extends(objects, alloc)
             && Extends(alloc, objects2)
    requires AllTagged(mem, objects, f) && ContextsGrow(mem, alloc, mid, mem[f])
    requires AllTagged(mem, alloc, mem[f]) ==> AllTagged(mid, objects2, mem[f])
    requires mem1 == mid[f - 3 := context][f - 2 := mem1[f - 2]] && objects1 == objects2[context := fields]
    requires HasContext(mem1[f - 2]) && !HasClosure(mem1[f - 2]) && FrameFits(mem1, f)
    requires |fields| >= VAR_BASE && fields[CONTEXT_CLOSURE] == Closure(mem, f)
    ensures AllTagged(mem1, objects1, f)
  {
    hide NumArgs;
    if !IsEnd(mem[f]) {
      TagsKept(mem, mem, objects, alloc, mem[f]);
      TaggedContexts(mem, objects, mem[f]);
      TagsKept(mid, mem1, objects2, objects1, mem[f]);
    }
    assert WellTagged(objects1, mem1, f);
  }

  lemma NewContextDistinct(mem: seq<Word>, mid: seq<Word>, mem1: seq<Word>, objects: map<Word, seq<Word>>,
                           alloc: map<Word, seq<Word>>,
                           f: Word, context: Word)
    requires |mid| == |mem| == |mem1| && IsFrame(mem, f) && (f + 3 < mem[f] || IsEnd(mem[f])) && mid[f] == mem[f]
             && !HasContext(mem[f - 2])
    requires context !in objects && context in alloc && Extends(objects, alloc)
    requires ContextsGrow(mem, alloc, mid, mem[f])
    requires mem1 == mid[f - 3 := context][f - 2 := mem1[f - 2]] && HasContext(mem1[f - 2])
    ensures ContextsGrow(mem, objects, mem1, f)
  {
    if f < mem[f] {
      if f + 3 < mem[f] {
        ContextsAbove(mid, mem1, mem[f]);
      }
      assert Contexts(mem1, f) == {context} + Contexts(mem1, mem[f]);
    }
  }

  /** What reifying a frame does to the stack and to the objects. */
  ghost predicate Ensured(mem: seq<Word>, objects: map<Word, seq<Word>>, f: Word, from: nat, useSp: bool,
                          ipField: (Word, Word) -> Word,
                          context: Word, mem1: seq<Word>, objects1: map<Word, seq<Word>>)
    requires Chain(mem, objects, f) && |mem| == |mem1| < W.TWO_32
  {
    && Extends(objects, objects1) && SameCalls(mem, mem1, f) && OnlyMarks(mem, mem1, f)
       && ContextsGrow(mem, objects, mem1, f) && (W.NIL in objects1 ==> W.NIL in objects)
    && (AllTagged(mem, objects, f) ==>
          && AllTagged(mem1, objects1, f)
          && AllReified(mem, objects, f, from, useSp, ipField, mem1, objects1))
    && if IsEnd(f) then context == 0 && mem1 == mem && objects1 == objects
       else if HasContext(mem[f - 2]) then context == mem[f - 3] && mem1 == mem && objects1 == objects
       else if context == 0 then mem1 == mem && objects1 == objects
       else Reified(mem, objects, f, from, useSp, ipField, context, mem1, objects1)
  }

  ghost predicate OnlyMarks(mem: seq<Word>, mem1: seq<Word>, f: Word)
    requires |mem| == |mem1|
  {
    forall i :: 0 <= i < |mem| && mem1[i] != mem[i] ==> Mark(mem, f, i)
  }

  /** Reifying the callers of a frame leaves the frame as it was. */
  lemma CallersReified(mem: seq<Word>, mid: seq<Word>, objects: map<Word, seq<Word>>, alloc: map<Word, seq<Word>>,
                       objects2: map<Word, seq<Word>>,
                       f: Word, context: Word, ipField: (Word, Word) -> Word, callerContext: Word)
    requires |mem| == |mid| < W.TWO_32 && Chain(mem, objects, f) && !IsEnd(f) && Chain(mem, alloc, mem[f])
    requires context !in objects && context in alloc && Extends(objects, alloc)
    requires Ensured(mem, alloc, mem[f], 0, false, ipField, callerContext, mid, objects2)
    ensures FrameFits(mem, f) && DeclaredTemps(objects, mem[f - 1]) + 4 <= f
    ensures context in objects2 && Extends(objects, objects2) && FrameFits(mid, f)
    ensures forall i :: 0 <= i <= f + ARG_BASE + NumArgs(mem[f - 2]) ==> mid[i] == mem[i]
    ensures forall i :: 0 <= i < |mem| && mid[i] != mem[i] ==> Mark(mem, f, i)
  {
    hide NumArgs, Reified, SameCalls, HasContext, DeclaredTemps, Mark;
    ChainHead(mem, objects, f);
    AboveOnly(mem, mid, objects, f);
  }

  lemma NewContext(mem: seq<Word>, mid: seq<Word>, mem1: seq<Word>,
                   objects: map<Word, seq<Word>>, alloc: map<Word, seq<Word>>, objects2: map<Word, seq<Word>>,
                   objects1: map<Word, seq<Word>>,
                   f: Word, from: nat, useSp: bool, ipField: (Word, Word) -> Word,
                   callerContext: Word, context: Word)
    requires |mem| == |mid| == |mem1| < W.TWO_32 && Chain(mem, objects, f) && !IsEnd(f) && !HasContext(mem[f - 2])
             && Chain(mem, alloc, mem[f])
    requires Allots(objects, alloc, context) && context != 0
    requires Ensured(mem, alloc, mem[f], 0, false, ipField, callerContext, mid, objects2)
    requires FrameFits(mid, f) && mem1 == mid[f - 3 := context][f - 2 := WithContext(mid[f - 2])]
    requires FrameFits(mem, f) && DeclaredTemps(objects, mem[f - 1]) + 4 <= f
    requires var t := DeclaredTemps(objects, mem[f - 1]);
             objects1 == objects2[context :=
                                  ContextFields(mid, f, CutAt(objects, mem, f, from, useSp), t, if callerContext == 0
                                                then W.NIL else callerContext, ipField(mid[f + 1], mid[f - 1]),
                                                    HomeOf(objects, Closure(mem, f)))]
    ensures Ensured(mem, objects, f, from, useSp, ipField, context, mem1, objects1)
  {
    hide NumArgs, WithContext, HasContext, HasClosure, IsBlock, FrameArgs, FrameTemps, SameCalls, Mark, Chain,
         ContextFields, DeclaredTemps, HomeOf, Closure;
    CallersReified(mem, mid, objects, alloc, objects2, f, context, ipField, callerContext);
    ChainHead(mem, objects, f);
    SameFields(mem, mid, f, CutAt(objects, mem, f, from, useSp), DeclaredTemps(objects, mem[f - 1]),
               SenderOf(mem1, mem[f]), ipField(mem[f + 1], mem[f - 1]), HomeOf(objects, Closure(mem, f)));
    SenderReified(mem, mid, mem1, alloc, objects2, f, ipField, callerContext);
    MarkedAbove(mem, mid, mem1, f, context);
    NewContextDistinct(mem, mid, mem1, objects, alloc, f, context);
    if AllTagged(mem, objects, f) {
      NewTags(mem, mid, mem1, objects, alloc, objects2, objects1, f, from, useSp, ipField, callerContext, context);
      NewRecords(mem, mid, mem1, objects, alloc, objects2, objects1, f, from, useSp, ipField, callerContext, context);
    }
  }

  lemma NewTags(mem: seq<Word>, mid: seq<Word>, mem1: seq<Word>,
                objects: map<Word, seq<Word>>, alloc: map<Word, seq<Word>>, objects2: map<Word, seq<Word>>,
                objects1: map<Word, seq<Word>>,
                f: Word, from: nat, useSp: bool, ipField: (Word, Word) -> Word, callerContext: Word, context: Word)
    requires |mem| == |mid| == |mem1| < W.TWO_32 && Chain(mem, objects, f) && !IsEnd(f) && Chain(mem, alloc, mem[f])
    requires context !in objects && context in alloc && Extends(objects, alloc) && context != 0
             && AllTagged(mem, objects, f)
    requires Ensured(mem, alloc, mem[f], 0, false, ipField, callerContext, mid, objects2)
    requires FrameFits(mem, f) && FrameFits(mid, f) && mem1 == mid[f - 3 := context][f - 2 := WithContext(mid[f - 2])]
    requires forall i :: 0 <= i <= f + ARG_BASE + NumArgs(mem[f - 2]) ==> mid[i] == mem[i]
    requires DeclaredTemps(objects, mem[f - 1]) + 4 <= f
    requires var t := DeclaredTemps(objects, mem[f - 1]);
             objects1 == objects2[context := ContextFields(mid, f, CutAt(objects, mem, f, from, useSp), t,
                                                           if callerContext == 0 then W.NIL else callerContext,
                                                           ipField(mid[f + 1], mid[f - 1]),
                                                           HomeOf(objects, Closure(mem, f)))]
    ensures AllTagged(mem1, objects1, f)
  {
    hide HasContext, HasClosure, NumArgs, IsBlock, WithContext, DeclaredTemps, SameCalls, Mark, AllTagged, Reified,
         CutAt, HomeOf;
    ChainHead(mem, objects, f);
    var t := DeclaredTemps(objects, mem[f - 1]);
    var fields := objects1[context];
    assert fields[CONTEXT_CLOSURE] == Closure(mid, f) == Closure(mem, f) && |fields| >= VAR_BASE;
    hide ContextFields, Closure, Chain;
    NewContextTagged(mem, mid, mem1, objects, alloc, objects2, objects1, f, context, fields);
  }

  lemma NewRecords(mem: seq<Word>, mid: seq<Word>, mem1: seq<Word>,
                   objects: map<Word, seq<Word>>, alloc: map<Word, seq<Word>>, objects2: map<Word, seq<Word>>,
                   objects1: map<Word, seq<Word>>,
                   f: Word, from: nat, useSp: bool, ipField: (Word, Word) -> Word, callerContext: Word, context: Word)
    requires |mem| == |mid| == |mem1| < W.TWO_32 && Chain(mem, objects, f) && !IsEnd(f) && Chain(mem, alloc, mem[f])
    requires Allots(objects, alloc, context) && AllTagged(mem, objects, f)
    requires Ensured(mem, alloc, mem[f], 0, false, ipField, callerContext, mid, objects2)
    requires FrameFits(mem, f) && mem1 == mid[f - 3 := context][f - 2 := mem1[f - 2]] && HasContext(mem1[f - 2])
    requires context in objects1 && objects1 == objects2[context := objects1[context]]
    requires !HasContext(mem[f - 2]) && Reified(mem, objects, f, from, useSp, ipField, context, mem1, objects1)
    ensures AllReified(mem, objects, f, from, useSp, ipField, mem1, objects1)
  {
    hide HasContext, HasClosure, NumArgs, IsBlock, WithContext, DeclaredTemps, SameCalls, Mark, Reified, CutAt, HomeOf;
    ChainHead(mem, objects, f);
    if !IsEnd(mem[f]) {
      CallersTagged(mem, objects, alloc, f);
      AllReifiedBelow(mem, mid, mem1, objects, alloc, objects2, objects1, mem[f], 0, false, ipField, context);
    }
  }

  lemma CallersTagged(mem: seq<Word>, objects: map<Word, seq<Word>>, alloc: map<Word, seq<Word>>, f: Word)
    requires Chain(mem, objects, f) && !IsEnd(f) && !IsEnd(mem[f]) && AllTagged(mem, objects, f)
             && Extends(objects, alloc)
    ensures AllTagged(mem, objects, mem[f]) && AllTagged(mem, alloc, mem[f])
  {
    TagsKept(mem, mem, objects, alloc, mem[f]);
  }

  lemma SenderReified(mem: seq<Word>, mid: seq<Word>, mem1: seq<Word>, alloc: map<Word, seq<Word>>,
                      objects2: map<Word, seq<Word>>,
                      f: Word, ipField: (Word, Word) -> Word, callerContext: Word)
    requires |mem| == |mid| == |mem1| < W.TWO_32 && !IsEnd(f) && FrameFits(mem, f) && Chain(mem, alloc, mem[f])
    requires Ensured(mem, alloc, mem[f], 0, false, ipField, callerContext, mid, objects2)
    requires IsEnd(mem[f]) || (f < mem[f] - 3 && mem1[mem[f] - 3] == mid[mem[f] - 3]
                               && mem1[mem[f] - 2] == mid[mem[f] - 2])
    ensures SenderOf(mem1, mem[f]) == if callerContext == 0 then W.NIL else callerContext
  {
    hide NumArgs, HasContext, HasClosure, IsBlock, SameCalls, Mark, ContextFields, DeclaredTemps, CutAt, HomeOf,
         Closure;
  }

  predicate Extends(objects: map<Word, seq<Word>>, objects1: map<Word, seq<Word>>) {
    forall a :: a in objects ==> a in objects1 && objects1[a] == objects[a]
  }

  /** What a new context records as its sender: the context of the caller's frame, nil when there is none. */
  function SenderOf(mem: seq<Word>, caller: Word): Word {
    if IsEnd(caller) || !(3 <= caller < |mem|) || !HasContext(mem[caller - 2]) || mem[caller - 3] == 0 then W.NIL
    else mem[caller - 3]
  }

  /** A frame without a context now has one: its fields describe the frame as it was. */
  ghost predicate Reified(mem: seq<Word>, objects: map<Word, seq<Word>>, f: Word, from: nat, useSp: bool,
                          ipField: (Word, Word) -> Word,
                          context: Word, mem1: seq<Word>, objects1: map<Word, seq<Word>>)
    requires !IsEnd(f) && Chain(mem, objects, f) && |mem| == |mem1| < W.TWO_32
  {
    && context in objects1 && context !in objects && mem1[f - 3] == context && mem1[f - 2] == WithContext(mem[f - 2])
    && var t := DeclaredTemps(objects, mem[f - 1]);
       var lo := CutAt(objects, mem, f, from, useSp);
       objects1[context] == ContextFields(mem, f, lo, t, SenderOf(mem1, mem[f]), ipField(mem[f + 1], mem[f - 1]),
                                          HomeOf(objects, Closure(mem, f)))
  }

  /**
   Each frame that got a context, the first one and its callers, is recorded by it as it was; the
   callers are cut at their temporaries.  From the first frame that got none nothing has changed.
   */
  ghost predicate AllReified(mem: seq<Word>, objects: map<Word, seq<Word>>, f: Word, from: nat, useSp: bool,
                             ipField: (Word, Word) -> Word, mem1: seq<Word>, objects1: map<Word, seq<Word>>)
    requires Chain(mem, objects, f) && |mem| == |mem1| < W.TWO_32
    decreases if IsEnd(f) then 0 else |mem| - f
  {
    IsEnd(f) ||
    if HasContext(mem[f - 2]) || !HasContext(mem1[f - 2]) then SameFrom(mem, mem1, f - 3)
    else
      && Reified(mem, objects, f, from, useSp, ipField, mem1[f - 3], mem1, objects1)
      && AllReified(mem, objects, mem[f], 0, false, ipField, mem1, objects1)
  }

  lemma CallerTagged(mem: seq<Word>, objects: map<Word, seq<Word>>, g: Word)
    requires Chain(mem, objects, g) && AllTagged(mem, objects, g) && !IsEnd(g)
    ensures AllTagged(mem, objects, mem[g])
  {
  }

  /** One new object, which is not nil. */
  ghost predicate Allots(objects: map<Word, seq<Word>>, alloc: map<Word, seq<Word>>, p: Word) {
    p != W.NIL && p !in objects && p in alloc && alloc == objects[p := alloc[p]]
  }

  ghost predicate SameFrom(mem: seq<Word>, mem1: seq<Word>, from: int)
    requires |mem| == |mem1|
  {
    forall i :: 0 <= from <= i < |mem| ==> mem1[i] == mem[i]
  }

  /** Filling in a context that was allocated before does not touch what is recorded of the frames above. */
  lemma {:induction false} AllReifiedBelow(mem: seq<Word>, mid: seq<Word>, mem1: seq<Word>,
                                           objects: map<Word, seq<Word>>, alloc: map<Word, seq<Word>>,
                                           objects2: map<Word, seq<Word>>, objects1: map<Word, seq<Word>>, g: Word,
                                           from: nat, useSp: bool, ipField: (Word, Word) -> Word, context: Word)
    requires |mem| == |mid| == |mem1| < W.TWO_32 && Chain(mem, objects, g) && Chain(mem, alloc, g)
    requires Allots(objects, alloc, context) && AllTagged(mem, objects, g)
    requires context in objects1 && objects1 == objects2[context := objects1[context]]
    requires IsEnd(g) || SameFrom(mid, mem1, g - 3)
    requires AllReified(mem, alloc, g, from, useSp, ipField, mid, objects2)
    ensures AllReified(mem, objects, g, from, useSp, ipField, mem1, objects1)
    decreases if IsEnd(g) then 0 else |mem| - g
  {
    hide NumArgs, HasContext, HasClosure, ContextFields, WithContext;
    if !IsEnd(g) && !HasContext(mem[g - 2]) && HasContext(mem1[g - 2]) {
      assert DeclaredTemps(alloc, mem[g - 1]) == DeclaredTemps(objects, mem[g - 1]);
      assert HomeOf(alloc, Closure(mem, g)) == HomeOf(objects, Closure(mem, g));
      hide DeclaredTemps, HomeOf, Closure, AllTagged;
      assert AllTagged(mem, objects, mem[g]) by { CallerTagged(mem, objects, g); }
      AllReifiedBelow(mem, mid, mem1, objects, alloc, objects2, objects1, mem[g], 0, false, ipField, context);
    }
  }

  lemma ChainHead(mem: seq<Word>, objects: map<Word, seq<Word>>, f: Word)
    requires Chain(mem, objects, f) && !IsEnd(f)
    ensures FrameFits(mem, f) && mem[f - 1] in objects && DeclaredTemps(objects, mem[f - 1]) + 4 <= f
    ensures IsEnd(mem[f]) || f + 6 < mem[f] < |mem|
  {
  }

  /** A chain above a change. */
  lemma {:induction false} ChainAboveKept(mem: seq<Word>, mem1: seq<Word>, objects: map<Word, seq<Word>>,
                                          objects1: map<Word, seq<Word>>, f: Word)
    requires Chain(mem, objects, f) && |mem1| == |mem| && Extends(objects, objects1)
    requires !IsEnd(f) ==> forall i :: f - 3 <= i < |mem| ==> mem1[i] == mem[i]
    ensures Chain(mem1, objects1, f)
    decreases |mem| - f
  {
    hide NumArgs;
    if !IsEnd(f) && !IsEnd(mem[f]) {
      ChainAboveKept(mem, mem1, objects, objects1, mem[f]);
    }
  }

  /** The chain, its tags and its contexts after the frames of it are reified. */
  lemma EnsuredKeeps(mem: seq<Word>, objects: map<Word, seq<Word>>, f: Word, from: nat, useSp: bool,
                     ipField: (Word, Word) -> Word, context: Word, mem1: seq<Word>, objects1: map<Word, seq<Word>>)
    requires Chain(mem, objects, f) && |mem| == |mem1| < W.TWO_32
    requires Ensured(mem, objects, f, from, useSp, ipField, context, mem1, objects1)
    ensures Chain(mem1, objects1, f)
    ensures AllTagged(mem, objects, f) && Distinct(mem, f) ==> AllTagged(mem1, objects1, f) && Distinct(mem1, f)
  {
    hide NumArgs, HasContext, HasClosure, IsBlock, Reified;
    ChainKept(mem, mem1, objects, objects1, f);
    if AllTagged(mem, objects, f) {
      TaggedContexts(mem, objects, f);
    }
  }

  /** Pushing a new object below a frame. */
  lemma PushKeeps(mid: seq<Word>, made: map<Word, seq<Word>>, f: Word, sp: nat, block: Word, mem1: seq<Word>,
                  objects1: map<Word, seq<Word>>)
    requires Chain(mid, made, f) && !IsEnd(f) && sp < f - 3 && f < |mid|
    requires mem1 == mid[sp := block] && block !in made && block in objects1
             && objects1 == made[block := objects1[block]]
    ensures Chain(mem1, objects1, f)
    ensures AllTagged(mid, made, f) && Distinct(mid, f) ==> AllTagged(mem1, objects1, f) && Distinct(mem1, f)
  {
    ChainAboveKept(mid, mem1, made, objects1, f);
    if AllTagged(mid, made, f) && Distinct(mid, f) {
      TagsKept(mid, mem1, made, objects1, f);
      ContextsAbove(mid, mem1, f);
    }
  }

  lemma BlockIsPushed(mem: seq<Word>, objects: map<Word, seq<Word>>, sp: nat, fp: Word, cm: Word,
                      ipField: (Word, Word) -> Word, context: Word, mid: seq<Word>, made: map<Word, seq<Word>>,
                      block: Word, mem1: seq<Word>, objects1: map<Word, seq<Word>>)
    requires Chain(mem, objects, fp) && !IsEnd(fp) && FrameFits(mem, fp) && WellTagged(objects, mem, fp)
    requires 1 <= sp && sp + SlotCount(objects, mem, fp) + 4 <= fp && |mem| == |mid| == |mem1| < W.TWO_32
    requires Ensured(mem, objects, fp, sp, true, ipField, context, mid, made) && context != 0 && FrameFits(mid, fp)
    requires block !in made && block != W.NIL && mem1 == mid[sp - 1 := block]
    requires var slots := SlotCount(objects, mem, fp);
             objects1 == made[block := [mid[fp - 3], mid[fp - 4], cm] + FrameArgs(mid, fp) + FrameTemps(mid, fp, slots)]
    ensures BlockPushed(mem, objects, sp, fp, cm, context, mid, made, block, mem1, objects1)
    ensures BlockMade(mem, objects, fp, cm, block, mem1, objects1) && Chain(mem1, objects1, fp)
    ensures AllTagged(mem, objects, fp) && Distinct(mem, fp) ==> AllTagged(mem1, objects1, fp) && Distinct(mem1, fp)
  {
    hide NumArgs, HasContext, HasClosure, IsBlock, Chain, Ensured, DeclaredTemps, Mark, SlotCount, FrameArgs,
         FrameTemps, AllTagged, Distinct, WellTagged;
    FrameKept(mem, objects, fp, sp, true, ipField, context, mid, made);
    SameVariables(mem, mid, fp, SlotCount(objects, mem, fp));
    EnsuredKeeps(mem, objects, fp, sp, true, ipField, context, mid, made);
    PushKeeps(mid, made, fp, sp - 1, block, mem1, objects1);
  }

  /** The frame's own marks, on top of those of its callers. */
  lemma MarkedAbove(mem: seq<Word>, mid: seq<Word>, mem1: seq<Word>, f: Word, context: Word)
    requires FrameFits(mem, f) && !IsEnd(f) && |mid| == |mem| && (IsEnd(mem[f]) || f + 3 <= mem[f])
    requires SameCalls(mem, mid, mem[f]) && mem1 == mid[f - 3 := context][f - 2 := WithContext(mem[f - 2])]
    requires forall i :: 0 <= i < |mem| && mid[i] != mem[i] ==> Mark(mem, f, i)
    requires mid[f] == mem[f] && mid[f - 1] == mem[f - 1]
    ensures SameCalls(mem, mem1, f) && OnlyMarks(mem, mem1, f)
  {
    hide NumArgs, IsBlock, HasContext, HasClosure;
    if !IsEnd(mem[f]) {
      SameCallsBelow(mem, mid, mem1, mem[f]);
    }
  }

  lemma ChainAbove(mem: seq<Word>, objects: map<Word, seq<Word>>, objects1: map<Word, seq<Word>>, f: Word)
    requires Chain(mem, objects, f) && !IsEnd(f)
    requires Extends(objects, objects1)
    ensures Chain(mem, objects1, mem[f])
  {
    SameCallsSelf(mem, mem[f]);
    if !IsEnd(mem[f]) {
      ChainKept(mem, mem, objects, objects1, mem[f]);
    }
  }

  /** Reifying the callers of a frame leaves the frame itself, and all below it, alone. */
  lemma AboveOnly(mem: seq<Word>, mid: seq<Word>, objects: map<Word, seq<Word>>, f: Word)
    requires Chain(mem, objects, f) && !IsEnd(f) && |mid| == |mem|
    requires OnlyMarks(mem, mid, mem[f])
    ensures forall i :: 0 <= i <= f + ARG_BASE + NumArgs(mem[f - 2]) ==> mid[i] == mem[i]
    ensures forall i :: 0 <= i < |mem| && mid[i] != mem[i] ==> Mark(mem, f, i)
  {
    forall i | 0 <= i <= f + ARG_BASE + NumArgs(mem[f - 2]) ensures mid[i] == mem[i] {
      if Mark(mem, mem[f], i) {
        MarksAbove(mem, mem[f], i);
      }
    }
    forall i | 0 <= i < |mem| && mid[i] != mem[i] ensures Mark(mem, f, i) {
      MarksAbove(mem, mem[f], i);
    }
  }

  /** The answer is where the receiver was, all above is as it was, and the caller's registers are back. */
  predicate Unwound(mem: seq<Word>, fp: nat, answer: Word, mem1: seq<Word>, sp1: nat, fp1: Word, ip1: Word)
    requires FrameFits(mem, fp)
  {
    Unwinds(mem, fp, answer, mem1, sp1, fp1) && ip1 == if mem[fp] == 0 then 0 else mem[fp + 1]
  }
}
