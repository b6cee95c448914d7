/**
 Stack frames and the contexts that reify them.  The stack is an array of words that grows
 downward; frame pointers are indices into it, 0 for none, and the sentinel of the entry
 frame lies outside every stack.
 */
module Frames {
  import W = Words

  type Word = W.Word

  const SENTINEL: Word := 0xCAFE

  /** Words below a frame pointer: method, flags, context, receiver; then the temporaries. */
  const TEMP_BASE := 5
  const ARG_BASE := 2
  const VAR_BASE := 10

  // fields of contexts, blocks and methods
  const CONTEXT_METHOD := 2
  const CONTEXT_RECEIVER := 3
  const CONTEXT_HOME := 4
  const CONTEXT_CLOSURE := 5
  const CONTEXT_FLAGS := 6
  const CONTEXT_NUM_ARGS := 7
  const CONTEXT_NUM_TEMPS := 8
  const CONTEXT_STACK_SIZE := 9
  const BLOCK_HOME_CONTEXT := 0
  const BLOCK_HOME_RECEIVER := 1
  const BLOCK_CM := 2
  const BLOCK_COPIED_BASE := 3
  const CM_NUM_TEMPS := 2

  // ----------------------------------------------------------------- flags

  function NumArgs(flags: Word): (r: nat)
    ensures r < 0x100
  {
    flags / 0x100 % 0x100
  }

  function IsBlock(flags: Word): (r: nat)
    ensures r < 0x100
  {
    flags / 0x1_0000 % 0x100
  }

  predicate HasContext(flags: Word) { flags % 2 == 1 }

  predicate HasClosure(flags: Word) { flags / 2 % 2 == 1 }

  /** The closure bit is cleared and the context bit set. */
  function WithContext(flags: Word): (r: Word)
    requires flags < W.TWO_32
    ensures HasContext(r) && !HasClosure(r) && NumArgs(r) == NumArgs(flags) && IsBlock(r) == IsBlock(flags)
            && r < W.TWO_32 && r == flags / 4 * 4 + 1
  {
    var r := if HasClosure(flags) then flags - 2 else flags;
    SameHighBits(flags, r);
    var c := if HasContext(r) then r else r + 1;
    SameHighBits(flags, c);
    c
  }

  /** The two low bits do not reach the counts above them. */
  lemma SameHighBits(f: Word, g: Word)
    requires f / 4 == g / 4
    ensures f / 0x100 == g / 0x100 && f / 0x1_0000 == g / 0x1_0000
  {
    HighBits(f);
    HighBits(g);
  }

  lemma HighBits(f: Word)
    ensures f / 0x100 == f / 4 / 0x40 && f / 0x1_0000 == f / 0x100 / 0x100
  {
    var q := f / 4;
    var a := q / 0x40;
    assert f == 0x100 * a + (4 * (q % 0x40) + f % 4);
    assert 0 <= 4 * (q % 0x40) + f % 4 < 0x100;
    var b := a / 0x100;
    assert f == 0x1_0000 * b + (0x100 * (a % 0x100) + f % 0x100);
    assert 0 <= 0x100 * (a % 0x100) + f % 0x100 < 0x1_0000;
  }

  // ----------------------------------------------------------------- frames

  /** The fixed part and the arguments of a frame lie inside the stack. */
  predicate FrameFits(mem: seq<Word>, fp: nat) {
    TEMP_BASE <= fp < |mem| && fp + ARG_BASE + NumArgs(mem[fp - 2]) < |mem| && mem[fp - 2] < W.TWO_32
  }

  function FrameArg(mem: seq<Word>, fp: nat, i: nat): Word
    requires FrameFits(mem, fp) && i < NumArgs(mem[fp - 2])
  {
    mem[fp + ARG_BASE + (NumArgs(mem[fp - 2]) - 1 - i)]
  }

  function FrameArgs(mem: seq<Word>, fp: nat): (r: seq<Word>)
    requires FrameFits(mem, fp)
    ensures |r| == NumArgs(mem[fp - 2])
  {
    seq(NumArgs(mem[fp - 2]), i requires 0 <= i < NumArgs(mem[fp - 2]) => FrameArg(mem, fp, i))
  }

  /**
   All that a suspended activation is: receiver, method, arguments in order, whether it is a
   block's, and the stack below its fixed part, that is its temporaries, copied values and
   evaluation stack.
   */
  datatype Image = Image(receiver: Word, cm: Word, args: seq<Word>, isBlock: nat, below: seq<Word>)

  function ImageOf(mem: seq<Word>, fp: nat, sp: nat): Image
    requires FrameFits(mem, fp) && sp + 4 <= fp
  {
    Image(mem[fp - 4], mem[fp - 1], FrameArgs(mem, fp), IsBlock(mem[fp - 2]), mem[sp..fp - 4])
  }

  function Zeros(n: nat): (r: seq<Word>)
    ensures |r| == n
  {
    seq(n, _ => 0)
  }

  /** The temporaries of a frame, first one first. */
  function FrameTemps(mem: seq<Word>, fp: nat, t: nat): (r: seq<Word>)
    requires fp < |mem| && t + 4 <= fp
    ensures |r| == t
  {
    seq(t, i requires 0 <= i < t => mem[fp - TEMP_BASE - i])
  }

  function Reverse(s: seq<Word>): (r: seq<Word>)
    ensures |r| == |s|
  {
    seq(|s|, i requires 0 <= i < |s| => s[|s| - 1 - i])
  }

  /** Temporaries lie downward from the fixed part: memory order is their reverse. */
  lemma TempsReversed(mem: seq<Word>, fp: nat, t: nat)
    requires fp < |mem| && t + 4 <= fp
    ensures FrameTemps(mem, fp, t) == Reverse(mem[fp - 4 - t..fp - 4])
    ensures mem[fp - 4 - t..fp - 4] == Reverse(FrameTemps(mem, fp, t))
  {
  }

  /** The stack after a method has been activated on the receiver and arguments above `sp`. */
  function Activated(mem: seq<Word>, sp: nat, callerFp: Word, savedIp: Word, cm: Word, n: nat, t: nat): (r: seq<Word>)
    requires t + 6 <= sp && sp + n < |mem| && n < 0x100
    ensures |r| == |mem|
  {
    mem[..sp - 6 - t] + Zeros(t) + [mem[sp + n], 0, n * 0x100, cm, callerFp, savedIp] + mem[sp..]
  }

  lemma ActivatedFrame(mem: seq<Word>, sp: nat, callerFp: Word, savedIp: Word, cm: Word, n: nat, t: nat)
    requires t + 6 <= sp && sp + n < |mem| && n < 0x100
    ensures var r, fp := Activated(mem, sp, callerFp, savedIp, cm, n, t), sp - 2;
            && r[fp + 1] == savedIp && r[fp] == callerFp && r[fp - 1] == cm && r[fp - 2] == n * 0x100
            && r[fp - 3] == 0 && r[fp - 4] == mem[sp + n]
            && (fp >= TEMP_BASE ==> FrameFits(r, fp) && NumArgs(r[fp - 2]) == n && IsBlock(r[fp - 2]) == 0)
            && FrameTemps(r, fp, t) == Zeros(t)
            && r[sp..] == mem[sp..] && r[..sp - 6 - t] == mem[..sp - 6 - t]
  {
    var r := Activated(mem, sp, callerFp, savedIp, cm, n, t);
    var fixed := [mem[sp + n], 0, n * 0x100, cm, callerFp, savedIp];
    var a := sp - 6 - t;
    assert r == mem[..a] + Zeros(t) + fixed + mem[sp..];
    assert forall i :: 0 <= i < 6 ==> r[a + t + i] == fixed[i];
    assert r[a..a + t] == Zeros(t);
    TempsReversed(r, sp - 2, t);
    assert Reverse(Zeros(t)) == Zeros(t);
    assert r[sp..] == mem[sp..];
    assert r[..a] == mem[..a];
  }

  // ----------------------------------------------------------------- contexts

  /** The temporaries a method declares; 0 when its word is not an object with a count. */
  function DeclaredTemps(objects: map<Word, seq<Word>>, cm: Word): nat
  {
    if cm in objects && |objects[cm]| > CM_NUM_TEMPS && W.IsSmallInt(objects[cm][CM_NUM_TEMPS])
    then W.Wrap(W.UntagSmallInt(objects[cm][CM_NUM_TEMPS])) else 0
  }

  function Closure(mem: seq<Word>, fp: nat): Word
    requires FrameFits(mem, fp)
  {
    if HasClosure(mem[fp - 2]) then mem[fp - 3] else W.NIL
  }

  /** A block's field, nil for no block. */
  function HomeOf(objects: map<Word, seq<Word>>, closure: Word): Word {
    if closure in objects && objects[closure] != [] then objects[closure][BLOCK_HOME_CONTEXT] else W.NIL
  }

  /** The fields of the context that reifies a frame whose stack reaches down to `lo`. */
  function ContextFields(mem: seq<Word>, fp: nat, lo: nat, t: nat, sender: Word, ipField: Word,
                         home: Word): (r: seq<Word>)
    requires FrameFits(mem, fp) && lo + t + 4 <= fp && |mem| < W.TWO_32
    ensures |r| == VAR_BASE + NumArgs(mem[fp - 2]) + t + (fp - 4 - t - lo)
    ensures r[0] == sender && r[1] == ipField && r[2] == mem[fp - 1] && r[3] == mem[fp - 4] && r[4] == home
    ensures r[5] == Closure(mem, fp) && r[6] == W.TagSmallInt(mem[fp - 2])
  {
    [sender, ipField, mem[fp - 1], mem[fp - 4], home, Closure(mem, fp), W.TagSmallInt(mem[fp - 2]),
     W.TagSmallInt(NumArgs(mem[fp - 2])), W.TagSmallInt(t), W.TagSmallInt(fp - 4 - t - lo)]
    + FrameArgs(mem, fp) + FrameTemps(mem, fp, t) + mem[lo..fp - 4 - t]
  }

  lemma TagCount(n: nat)
    requires n < W.TWO_32
    ensures W.IsSmallInt(W.TagSmallInt(n)) && W.UntagSmallInt(W.TagSmallInt(n)) == n
  {
  }

  /** A context's counts, decoded; 0 for a field that is not a SmallInteger. */
  function Count(fields: seq<Word>, k: nat): Word
    requires k < |fields|
  {
    if W.IsSmallInt(fields[k]) then W.Wrap(W.UntagSmallInt(fields[k])) else 0
  }

  /** The counts of a context describe its variable part. */
  predicate ContextFits(fields: seq<Word>) {
    && |fields| >= VAR_BASE && Count(fields, CONTEXT_NUM_ARGS) < 0x100
    && |fields| == VAR_BASE + Count(fields, CONTEXT_NUM_ARGS) + Count(fields, CONTEXT_NUM_TEMPS)
       + Count(fields, CONTEXT_STACK_SIZE)
  }

  /** The stack words a reactivated context takes: receiver, arguments, fixed part, temporaries, stack. */
  function Room(fields: seq<Word>): nat
    requires ContextFits(fields)
  {
    |fields| - VAR_BASE + 7
  }

  /** A whole frame below `sp`: evaluation stack, temporaries, fixed part, arguments, receiver. */
  function Built(mem: seq<Word>, sp: nat, callerFp: Word, savedIp: Word, context: Word, flags: Word, cm: Word,
                 receiver: Word,
                 args: seq<Word>, temps: seq<Word>, values: seq<Word>): (r: seq<Word>)
    requires |args| + |temps| + |values| + 7 <= sp <= |mem|
    ensures |r| == |mem|
  {
    mem[..sp - (|args| + |temps| + |values| + 7)] + values + Reverse(temps) + [receiver, context, flags, cm, callerFp,
        savedIp]
    + Reverse(args) + [receiver] + mem[sp..]
  }

  /** The stack after a context has been activated at `sp`. */
  function Reactivated(mem: seq<Word>, sp: nat, callerFp: Word, savedIp: Word, context: Word,
                       fields: seq<Word>): (r: seq<Word>)
    requires ContextFits(fields) && Room(fields) <= sp <= |mem|
    ensures |r| == |mem|
  {
    var n, t := Count(fields, CONTEXT_NUM_ARGS), Count(fields, CONTEXT_NUM_TEMPS);
    Built(mem, sp, callerFp, savedIp, context, ReactivatedFlags(fields), fields[CONTEXT_METHOD],
          fields[CONTEXT_RECEIVER],
          fields[VAR_BASE..VAR_BASE + n], fields[VAR_BASE + n..VAR_BASE + n + t], fields[VAR_BASE + n + t..])
  }

  /** Where things are in a stack made of these segments, lowest first. */
  lemma Segments(low: seq<Word>, below: seq<Word>, fixed: seq<Word>, args: seq<Word>, rest: seq<Word>)
    requires |fixed| == 6
    ensures var r := low + below + fixed + args + rest;
            var fp := |low| + |below| + 4;
            && r[|low|..fp - 4] == below && r[fp - 4..fp + 2] == fixed
            && r[fp + 2..fp + 2 + |args|] == args && r[fp + 2 + |args|..] == rest
  {
  }

  /** The fixed part of a frame, word by word. */
  lemma FixedPart(r: seq<Word>, fp: nat, fixed: seq<Word>)
    requires 4 <= fp && fp + 2 <= |r| && r[fp - 4..fp + 2] == fixed
    ensures |fixed| == 6
    ensures r[fp - 4] == fixed[0] && r[fp - 3] == fixed[1] && r[fp - 2] == fixed[2]
    ensures r[fp - 1] == fixed[3] && r[fp] == fixed[4] && r[fp + 1] == fixed[5]
  {
    var s := r[fp - 4..fp + 2];
    assert s[0] == r[fp - 4] && s[1] == r[fp - 3] && s[2] == r[fp - 2] && s[3] == r[fp - 1] && s[4] == r[fp]
           && s[5] == r[fp + 1];
  }

  lemma ArgsPart(r: seq<Word>, fp: nat, args: seq<Word>)
    requires FrameFits(r, fp) && NumArgs(r[fp - 2]) == |args| && r[fp + 2..fp + 2 + |args|] == Reverse(args)
    ensures FrameArgs(r, fp) == args
  {
    var n := |args|;
    forall i | 0 <= i < n ensures FrameArgs(r, fp)[i] == args[i] {
      assert r[fp + 2..fp + 2 + n][n - 1 - i] == Reverse(args)[n - 1 - i];
    }
  }

  /** The image of a frame that a context's fields describe. */
  function Described(fields: seq<Word>): Image
    requires ContextFits(fields)
  {
    var n, t := Count(fields, CONTEXT_NUM_ARGS), Count(fields, CONTEXT_NUM_TEMPS);
    Image(fields[CONTEXT_RECEIVER], fields[CONTEXT_METHOD], fields[VAR_BASE..VAR_BASE + n],
          IsBlock(Count(fields, CONTEXT_FLAGS)), BelowOf(fields))
  }

  function BelowOf(fields: seq<Word>): seq<Word>
    requires ContextFits(fields)
  {
    var n, t := Count(fields, CONTEXT_NUM_ARGS), Count(fields, CONTEXT_NUM_TEMPS);
    fields[VAR_BASE + n + t..] + Reverse(fields[VAR_BASE + n..VAR_BASE + n + t])
  }

  lemma FlagsOf(n: nat, block: nat)
    requires n < 0x100 && block < 0x100
    ensures var f := n * 0x100 + 1 + block * 0x1_0000;
            f < W.TWO_32 && NumArgs(f) == n && IsBlock(f) == block && HasContext(f) && !HasClosure(f)
  {
    var f := n * 0x100 + 1 + block * 0x1_0000;
    assert f / 0x100 == n + block * 0x100;
    assert f / 0x1_0000 == block;
  }

  function ReactivatedFlags(fields: seq<Word>): Word
    requires ContextFits(fields)
  {
    Count(fields, CONTEXT_NUM_ARGS) * 0x100 + 1 + IsBlock(Count(fields, CONTEXT_FLAGS)) * 0x1_0000
  }

  lemma BuiltSegments(mem: seq<Word>, sp: nat, callerFp: Word, savedIp: Word, context: Word, flags: Word, cm: Word,
                      receiver: Word,
                      args: seq<Word>, temps: seq<Word>, values: seq<Word>)
    requires |args| + |temps| + |values| + 7 <= sp <= |mem|
    ensures var r, fp := Built(mem, sp, callerFp, savedIp, context, flags, cm, receiver, args, temps, values),
            sp - |args| - 3;
            && r[sp - (|args| + |temps| + |values| + 7)..fp - 4] == values + Reverse(temps)
            && r[fp - 4..fp + 2] == [receiver, context, flags, cm, callerFp, savedIp]
            && r[fp + 2..fp + 2 + |args|] == Reverse(args) && r[sp..] == mem[sp..]
  {
    hide Reverse;
    var low, rest := mem[..sp - (|args| + |temps| + |values| + 7)], [receiver] + mem[sp..];
    var fixed, fp := [receiver, context, flags, cm, callerFp, savedIp], sp - |args| - 3;
    var r := Built(mem, sp, callerFp, savedIp, context, flags, cm, receiver, args, temps, values);
    assert r == low + (values + Reverse(temps)) + fixed + Reverse(args) + rest;
    hide Built;
    assert r[sp - (|args| + |temps| + |values| + 7)..fp - 4] == values + Reverse(temps) && r[fp - 4..fp + 2] == fixed
           && r[fp + 2..fp + 2 + |args|] == Reverse(args) && r[sp - 1..] == rest by {
      Segments(low, values + Reverse(temps), fixed, Reverse(args), rest);
    }
    assert r[sp..] == r[sp - 1..][1..];
  }

  lemma ReactivatedSegments(mem: seq<Word>, sp: nat, callerFp: Word, savedIp: Word, context: Word, fields: seq<Word>)
    requires ContextFits(fields) && Room(fields) <= sp <= |mem|
    ensures var n := Count(fields, CONTEXT_NUM_ARGS);
            var r, fp := Reactivated(mem, sp, callerFp, savedIp, context, fields), sp - n - 3;
            && fp >= 4 && r[sp - Room(fields)..fp - 4] == BelowOf(fields)
            && r[fp - 4..fp + 2] == [fields[CONTEXT_RECEIVER], context, ReactivatedFlags(fields),
                                     fields[CONTEXT_METHOD], callerFp, savedIp]
            && r[fp + 2..fp + 2 + n] == Reverse(fields[VAR_BASE..VAR_BASE + n])
            && r[sp..] == mem[sp..]
  {
    hide Reverse, IsBlock, Built, ReactivatedFlags;
    var n, t := Count(fields, CONTEXT_NUM_ARGS), Count(fields, CONTEXT_NUM_TEMPS);
    BuiltSegments(mem, sp, callerFp, savedIp, context, ReactivatedFlags(fields), fields[CONTEXT_METHOD],
                  fields[CONTEXT_RECEIVER],
                  fields[VAR_BASE..VAR_BASE + n], fields[VAR_BASE + n..VAR_BASE + n + t], fields[VAR_BASE + n + t..]);
  }

  /** The fixed part of a reactivated frame, word by word. */
  lemma ReactivatedFixed(mem: seq<Word>, sp: nat, callerFp: Word, savedIp: Word, context: Word, fields: seq<Word>)
    requires ContextFits(fields) && Room(fields) <= sp <= |mem|
    ensures var n := Count(fields, CONTEXT_NUM_ARGS);
            var r, fp := Reactivated(mem, sp, callerFp, savedIp, context, fields), sp - n - 3;
            && 4 <= fp && fp + n + 3 == sp <= |r| && r[fp + 1] == savedIp && r[fp] == callerFp && r[fp - 3] == context
            && r[fp - 1] == fields[CONTEXT_METHOD] && r[fp - 4] == fields[CONTEXT_RECEIVER]
            && r[fp - 2] == ReactivatedFlags(fields)
  {
    hide Reactivated, IsBlock, Reverse, ReactivatedFlags, BelowOf;
    var n := Count(fields, CONTEXT_NUM_ARGS);
    ReactivatedSegments(mem, sp, callerFp, savedIp, context, fields);
    var r, fp := Reactivated(mem, sp, callerFp, savedIp, context, fields), sp - n - 3;
    FixedPart(r, fp, [fields[CONTEXT_RECEIVER], context, ReactivatedFlags(fields), fields[CONTEXT_METHOD], callerFp,
                      savedIp]);
  }

  /** The flags of a reactivated frame: a context, no block, and the counts of the context. */
  lemma FlagsBack(fields: seq<Word>)
    requires ContextFits(fields)
    ensures var f := ReactivatedFlags(fields);
            && f < W.TWO_32 && NumArgs(f) == Count(fields, CONTEXT_NUM_ARGS) && HasContext(f) && !HasClosure(f)
            && IsBlock(f) == IsBlock(Count(fields, CONTEXT_FLAGS))
  {
    hide Count;
    FlagsOf(Count(fields, CONTEXT_NUM_ARGS), IsBlock(Count(fields, CONTEXT_FLAGS)));
  }

  /** Reactivating a context gives a frame with the image that its fields describe. */
  lemma ReactivatedImage(mem: seq<Word>, sp: nat, callerFp: Word, savedIp: Word, context: Word, fields: seq<Word>)
    requires ContextFits(fields) && Room(fields) <= sp <= |mem|
    ensures var n := Count(fields, CONTEXT_NUM_ARGS);
            var r, fp := Reactivated(mem, sp, callerFp, savedIp, context, fields), sp - n - 3;
            && 4 <= fp && fp + 1 < |r| && r[fp + 1] == savedIp && r[fp] == callerFp && r[fp - 3] == context
            && HasContext(r[fp - 2]) && !HasClosure(r[fp - 2]) && NumArgs(r[fp - 2]) == n && r[sp..] == mem[sp..]
            && (TEMP_BASE <= fp ==> FrameFits(r, fp) && ImageOf(r, fp, sp - Room(fields)) == Described(fields))
  {
    hide Reactivated, NumArgs, IsBlock, Reverse, HasContext, HasClosure, FrameArgs, ReactivatedFlags;
    var n := Count(fields, CONTEXT_NUM_ARGS);
    FlagsBack(fields);
    ReactivatedFixed(mem, sp, callerFp, savedIp, context, fields);
    ReactivatedSegments(mem, sp, callerFp, savedIp, context, fields);
    hide Count, BelowOf;
    var r, fp := Reactivated(mem, sp, callerFp, savedIp, context, fields), sp - n - 3;
    if TEMP_BASE <= fp {
      assert FrameFits(r, fp);
      assert FrameArgs(r, fp) == fields[VAR_BASE..VAR_BASE + n] by {
        ArgsPart(r, fp, fields[VAR_BASE..VAR_BASE + n]);
      }
    }
  }

  /** The parts of a list of fields: ten of them fixed, then three variable parts. */
  lemma FieldParts(header: seq<Word>, args: seq<Word>, temps: seq<Word>, stack: seq<Word>)
    requires |header| == VAR_BASE
    ensures var fields := header + args + temps + stack;
            && fields[VAR_BASE..VAR_BASE + |args|] == args
            && fields[VAR_BASE + |args|..VAR_BASE + |args| + |temps|] == temps
            && fields[VAR_BASE + |args| + |temps|..] == stack
            && (forall i :: 0 <= i < VAR_BASE ==> fields[i] == header[i])
  {
  }

  /** The fields of a frame's context describe that frame, whatever part of its stack is dropped. */
  lemma FieldsDescribe(mem: seq<Word>, fp: nat, lo: nat, t: nat, sender: Word, ipField: Word, home: Word)
    requires FrameFits(mem, fp) && lo + t + 4 <= fp && |mem| < W.TWO_32
    ensures var fields := ContextFields(mem, fp, lo, t, sender, ipField, home);
            && ContextFits(fields) && Count(fields, CONTEXT_NUM_ARGS) == NumArgs(mem[fp - 2])
               && Count(fields, CONTEXT_NUM_TEMPS) == t
            && Room(fields) == NumArgs(mem[fp - 2]) + (fp - 4 - lo) + 7 && Described(fields) == ImageOf(mem, fp, lo)
  {
    hide FrameArgs, FrameTemps, Reverse, NumArgs, IsBlock, Closure;
    var n, depth := NumArgs(mem[fp - 2]), fp - 4 - t - lo;
    var header := [sender, ipField, mem[fp - 1], mem[fp - 4], home, Closure(mem, fp), W.TagSmallInt(mem[fp - 2]),
                   W.TagSmallInt(n), W.TagSmallInt(t), W.TagSmallInt(depth)];
    var fields := ContextFields(mem, fp, lo, t, sender, ipField, home);
    assert fields == header + FrameArgs(mem, fp) + FrameTemps(mem, fp, t) + mem[lo..fp - 4 - t];
    FieldParts(header, FrameArgs(mem, fp), FrameTemps(mem, fp, t), mem[lo..fp - 4 - t]);
    hide ContextFields;
    CountField(fields, CONTEXT_FLAGS, mem[fp - 2]);
    CountField(fields, CONTEXT_NUM_ARGS, n);
    CountField(fields, CONTEXT_NUM_TEMPS, t);
    CountField(fields, CONTEXT_STACK_SIZE, depth);
    TempsReversed(mem, fp, t);
    assert mem[lo..fp - 4 - t] + mem[fp - 4 - t..fp - 4] == mem[lo..fp - 4];
  }

  lemma CountField(fields: seq<Word>, k: nat, n: nat)
    requires k < |fields| && n < W.TWO_32 && fields[k] == W.TagSmallInt(n)
    ensures Count(fields, k) == n
  {
    TagCount(n);
  }

  /** The frame that reactivation builds at `sp1` has the image of the frame at `fp` that was reified. */
  ghost predicate Restores(fields: seq<Word>, mem: seq<Word>, fp: nat, lo: nat,
                           mem1: seq<Word>, sp1: nat, callerFp: Word, savedIp: Word, context: Word)
    requires FrameFits(mem, fp) && lo + 4 <= fp
  {
    && ContextFits(fields) && Room(fields) <= sp1 <= |mem1|
    && var fp1 := sp1 - NumArgs(mem[fp - 2]) - 3;
       var r := Reactivated(mem1, sp1, callerFp, savedIp, context, fields);
       && TEMP_BASE <= fp1 && FrameFits(r, fp1) && sp1 - Room(fields) + 4 <= fp1
       && ImageOf(r, fp1, sp1 - Room(fields)) == ImageOf(mem, fp, lo)
       && r[fp1] == callerFp && r[fp1 + 1] == savedIp
       && HasContext(r[fp1 - 2]) && r[fp1 - 3] == context && r[sp1..] == mem1[sp1..]
  }

  /**
   Round trip: a frame with its stack, reified and reactivated anywhere else, is the same
   activation: receiver, method, arguments in order, block flag, temporaries, copied values
   and evaluation stack.
   */
  lemma RoundTrip(mem: seq<Word>, fp: nat, lo: nat, t: nat, sender: Word, ipField: Word, home: Word,
                  mem1: seq<Word>, sp1: nat, callerFp: Word, savedIp: Word, context: Word)
    requires FrameFits(mem, fp) && lo + t + 4 <= fp && |mem| < W.TWO_32
    requires NumArgs(mem[fp - 2]) + (fp - 4 - lo) + 8 <= sp1 <= |mem1|
    ensures Restores(ContextFields(mem, fp, lo, t, sender, ipField, home), mem, fp, lo, mem1, sp1, callerFp, savedIp,
                     context)
  {
    hide ContextFields, Reactivated, ImageOf, Described;
    var fields := ContextFields(mem, fp, lo, t, sender, ipField, home);
    FieldsDescribe(mem, fp, lo, t, sender, ipField, home);
    ReactivatedImage(mem1, sp1, callerFp, savedIp, context, fields);
  }
}
