/**
 Tagged SmallIntegers: 62-bit signed integers in 64-bit words, their arithmetic on the words
 themselves, and the primitives that fail rather than overflow.
 */
module Tagged {
  import opened Words

  const MIN_INT := -TWO_61
  const MAX_INT := TWO_61 - 1

  predicate Fits(i: int) { MIN_INT <= i <= MAX_INT }

  // ----------------------------------------------------------------- tags

  /** Every integer that fits comes back from its word. */
  lemma UntagTag(i: int)
    ensures IsSmallInt(TagSmallInt(i))
    ensures UntagSmallInt(TagSmallInt(i)) == i <==> Fits(i)
  {
    var w := TagSmallInt(i);
    WrapWhole(4 * i + 1);
    var k :| 4 * i + 1 == w + TWO_64 * k;
    assert w == 4 * (i - 0x4000_0000_0000_0000 * k) + 1;
    assert Signed(w) / 4 == if w < TWO_63 then i - 0x4000_0000_0000_0000 * k else i - 0x4000_0000_0000_0000 * (k + 1);
  }

  lemma WrapWhole(i: int)
    ensures exists k :: i == Wrap(i) + TWO_64 * k
  {
    assert i == i % TWO_64 + TWO_64 * (i / TWO_64);
  }

  /** Every tagged word comes back from its integer, which fits. */
  lemma TagUntag(w: Word)
    requires IsSmallInt(w)
    ensures Fits(UntagSmallInt(w)) && TagSmallInt(UntagSmallInt(w)) == w
  {
    var i := UntagSmallInt(w);
    assert Signed(w) % 4 == 1;
    assert 4 * i + 1 == Signed(w);
  }

  // ----------------------------------------------------------------- arithmetic on words

  function SmallIntAdd(a: Word, b: Word): Word { Wrap(a as int + b - 1) }

  function SmallIntSub(a: Word, b: Word): Word { Wrap(a as int - b + 1) }

  function SmallIntLess(a: Word, b: Word): Word { if Signed(a) < Signed(b) then TRUE else FALSE }

  function SmallIntEqual(a: Word, b: Word): Word { if a == b then TRUE else FALSE }

  lemma SameWrap(i: int, j: int, k: int)
    requires i == j + TWO_64 * k
    ensures Wrap(i) == Wrap(j)
  {
    assert (j + TWO_64 * k) % TWO_64 == j % TWO_64;
  }

  /** A tagged word is four times its integer plus one, once around for negative ones. */
  lemma WordOf(a: Word)
    requires IsSmallInt(a)
    ensures a as int == 4 * UntagSmallInt(a) + 1 || a as int == 4 * UntagSmallInt(a) + 1 + TWO_64
  {
    assert Signed(a) % 4 == 1;
  }

  lemma SumTagged(a: Word, b: Word)
    requires IsSmallInt(a) && IsSmallInt(b)
    ensures SmallIntAdd(a, b) == TagSmallInt(UntagSmallInt(a) + UntagSmallInt(b))
  {
    hide UntagSmallInt, Wrap;
    WordOf(a);
    WordOf(b);
    var k := (a as int - (4 * UntagSmallInt(a) + 1)) + (b as int - (4 * UntagSmallInt(b) + 1));
    assert k == 0 || k == TWO_64 || k == 2 * TWO_64;
    SameWrap(a as int + b - 1, 4 * (UntagSmallInt(a) + UntagSmallInt(b)) + 1, if k == 0
             then 0 else if k == TWO_64 then 1 else 2);
  }

  lemma DifferenceTagged(a: Word, b: Word)
    requires IsSmallInt(a) && IsSmallInt(b)
    ensures SmallIntSub(a, b) == TagSmallInt(UntagSmallInt(a) - UntagSmallInt(b))
  {
    hide UntagSmallInt, Wrap;
    WordOf(a);
    WordOf(b);
    var k := (a as int - (4 * UntagSmallInt(a) + 1)) - (b as int - (4 * UntagSmallInt(b) + 1));
    assert k == 0 || k == TWO_64 || k == -TWO_64;
    SameWrap(a as int - b + 1, 4 * (UntagSmallInt(a) - UntagSmallInt(b)) + 1, if k == 0
             then 0 else if k == TWO_64 then 1 else -1);
  }

  /** Adding and subtracting tagged words gives the tagged word of the result, which is the exact one when it fits. */
  lemma ExactSums(a: Word, b: Word)
    requires IsSmallInt(a) && IsSmallInt(b)
    ensures var i, j := UntagSmallInt(a), UntagSmallInt(b);
            && SmallIntAdd(a, b) == TagSmallInt(i + j) && SmallIntSub(a, b) == TagSmallInt(i - j)
            && (UntagSmallInt(SmallIntAdd(a, b)) == i + j <==> Fits(i + j))
            && (UntagSmallInt(SmallIntSub(a, b)) == i - j <==> Fits(i - j))
  {
    hide UntagSmallInt, TagSmallInt, SmallIntAdd, SmallIntSub;
    SumTagged(a, b);
    DifferenceTagged(a, b);
    UntagTag(UntagSmallInt(a) + UntagSmallInt(b));
    UntagTag(UntagSmallInt(a) - UntagSmallInt(b));
  }

  /** Tagged words are ordered and distinguished as their integers are. */
  lemma Ordered(a: Word, b: Word)
    requires IsSmallInt(a) && IsSmallInt(b)
    ensures SmallIntLess(a, b) == TRUE <==> UntagSmallInt(a) < UntagSmallInt(b)
    ensures SmallIntEqual(a, b) == TRUE <==> UntagSmallInt(a) == UntagSmallInt(b)
  {
    assert 4 * UntagSmallInt(a) + 1 == Signed(a) by { assert Signed(a) % 4 == 1; }
    assert 4 * UntagSmallInt(b) + 1 == Signed(b) by { assert Signed(b) % 4 == 1; }
  }

  // ----------------------------------------------------------------- the primitives

  const PRIM_ADD: Word := 1
  const PRIM_SUB: Word := 2
  const PRIM_LT: Word := 3
  const PRIM_EQ: Word := 4
  const PRIM_MUL: Word := 5

  /** A receiver that is no SmallInteger traps. */
  datatype PrimitiveResult = Succeeded | Failed | Unsupported | Trapped

  predicate IsArithmetic(primitive: Word) { primitive == PRIM_ADD || primitive == PRIM_SUB || primitive == PRIM_MUL }

  predicate IsSmallIntPrimitive(primitive: Word) { IsArithmetic(primitive) || primitive == PRIM_LT
      || primitive == PRIM_EQ }

  /** The mathematical result. */
  function Exact(primitive: Word, i: int, j: int): int
    requires IsArithmetic(primitive)
  {
    if primitive == PRIM_ADD then i + j else if primitive == PRIM_SUB then i - j else i * j
  }

  /** What a successful primitive leaves in place of the receiver. */
  function Answer(primitive: Word, receiver: Word, arg: Word): Word
    requires IsSmallIntPrimitive(primitive)
  {
    var i, j := UntagSmallInt(receiver), UntagSmallInt(arg);
    if IsArithmetic(primitive) then TagSmallInt(Exact(primitive, i, j))
    else if (if primitive == PRIM_LT then i < j else i == j) then TRUE else FALSE
  }

  /** A 64-bit result, none on overflow. */
  method Checked(primitive: Word, i: int, j: int) returns (overflow: bool, value: int)
    requires IsArithmetic(primitive)
    ensures overflow <==> !(-TWO_63 <= Exact(primitive, i, j) < TWO_63)
    ensures !overflow ==> value == Exact(primitive, i, j)
  {
    if primitive == PRIM_ADD {
      value := i + j;
    } else if primitive == PRIM_SUB {
      value := i - j;
    } else {
      value := i * j;
    }
    overflow := value < -TWO_63 || value >= TWO_63;
  }

  /**
   Arithmetic and comparison on the receiver and argument on top of the stack.  It succeeds
   exactly when both are SmallIntegers and the mathematical result is one, and then leaves that
   in the receiver's place; in all other cases the stack is as it was.
   */
  method TrySmallInt(stack: array<Word>, sp: nat, primitive: Word, argCount: nat) returns (r: PrimitiveResult, sp1: nat)
    requires sp + 1 < stack.Length
    modifies stack
    ensures r == Succeeded <==>
              && IsSmallIntPrimitive(primitive) && argCount == 1 && IsSmallInt(old(stack[sp]))
                 && IsSmallInt(old(stack[sp + 1]))
              && (IsArithmetic(primitive) ==>
                  Fits(Exact(primitive, UntagSmallInt(old(stack[sp + 1])), UntagSmallInt(old(stack[sp])))))
    ensures r == Succeeded ==> sp1 == sp + 1
                               && stack[..] == old(stack[..])[sp + 1 :=
                                                              Answer(primitive, old(stack[sp + 1]), old(stack[sp]))]
    ensures r == Succeeded && IsArithmetic(primitive) ==>
              UntagSmallInt(stack[sp1]) == Exact(primitive, UntagSmallInt(old(stack[sp + 1])),
                                                 UntagSmallInt(old(stack[sp])))
    // primitive by primitive, in integers and in the words 0x07 and 0x0B
    ensures r == Succeeded ==>
              var i, j, x := UntagSmallInt(old(stack[sp + 1])), UntagSmallInt(old(stack[sp])), stack[sp1];
              && (primitive == 1 ==> UntagSmallInt(x) == i + j && IsSmallInt(x))
              && (primitive == 2 ==> UntagSmallInt(x) == i - j && IsSmallInt(x))
              && (primitive == 3 ==> x == if i < j then 0x07 else 0x0B)
              && (primitive == 4 ==> x == if i == j then 0x07 else 0x0B)
              && (primitive == 5 ==> UntagSmallInt(x) == i * j && IsSmallInt(x))
    ensures r != Succeeded ==> sp1 == sp && stack[..] == old(stack[..])
    ensures r == Unsupported <==> !IsSmallIntPrimitive(primitive)
    ensures r == Trapped <==> IsSmallIntPrimitive(primitive) && argCount == 1 && !IsSmallInt(old(stack[sp + 1]))
  {
    hide UntagSmallInt, TagSmallInt, IsSmallInt;
    sp1 := sp;
    if !IsSmallIntPrimitive(primitive) {
      return Unsupported, sp1;
    }
    if argCount != 1 {
      return Failed, sp1;
    }
    var arg, receiver := stack[sp], stack[sp + 1];
    if !IsSmallInt(receiver) {
      return Trapped, sp1;
    }
    if !IsSmallInt(arg) {
      return Failed, sp1;
    }
    var lhs, rhs := UntagSmallInt(receiver), UntagSmallInt(arg);
    var result: Word;
    if IsArithmetic(primitive) {
      var overflow, value := Checked(primitive, lhs, rhs);
      if overflow || value < MIN_INT || value > MAX_INT {
        return Failed, sp1;
      }
      result := TagSmallInt(value);
      UntagTag(value);
    } else if primitive == PRIM_LT {
      result := if lhs < rhs then TRUE else FALSE;
    } else {
      result := if lhs == rhs then TRUE else FALSE;
    }
    sp1 := sp + 1;
    stack[sp1] := result;
    return Succeeded, sp1;
  }
}
