/**
 Stores into variables, in methods and in blocks: the instruction that the compiler emits for an
 assignment, run, against the instructions that it emits for reading variables, run before and after.
 */
module Stores {
  import opened Lexer
  import opened Codegen
  import opened Captures
  import opened Machine
  import W = Words

  const NOTHING := Output([], [], [], false)

  /** Names that stand for themselves, declared or not. */
  predicate Reserved(name: string) { name in {"self", "super", "thisContext", "nil", "true", "false"} }

  /** The code that the compiler emits to push a variable, run by itself. */
  function PushRun(name: string, cx: Context, w: World, m: State): Status {
    var p := EmitAtom(Token(Identifier, name, 0), [], NOTHING, cx);
    if p.Ok? then Step(Program(p.out.code, Literals(w, p.out.pool)), w, m.(ip := 0)) else Stuck
  }

  /** The code that the compiler emits to store into a variable, run by itself. */
  function StoreRun(name: string, cx: Context, w: World, m: State): Status {
    Step(Program(StoreInto(name, cx), []), w, m.(ip := 0))
  }

  /** One word more on the stack, and that word. */
  predicate PushesOne(s: Status, m: State, x: Word) {
    && s.Running? && s.state.sp + 1 == m.sp && s.state.fp == m.fp && s.state.heap == m.heap
    && |s.state.mem| == |m.mem| && s.state.sp < |m.mem| && s.state.mem[s.state.sp] == x
    && forall i :: m.sp <= i < |m.mem| ==> s.state.mem[i] == m.mem[i]
  }

  /** The slots that the code of a scope names. */
  function SlotCount(own: Scope): nat {
    if own.temps == [] then own.offset else TempSlot(own, |own.temps| - 1) + 1
  }

  /** A method, or a block in its surroundings, whose slots and fields have numbers that fit an operand. */
  predicate Scoped(cx: Context) {
    Nested(cx.scope, cx.outers) && |cx.scope.args| < 0x100 && SlotCount(cx.scope) < W.TWO_32 && |cx.ivars| < W.TWO_32
  }

  /** A frame for the scope, with all of its slots between its fixed part and its operands. */
  predicate FrameFor(cx: Context, m: State) {
    && 5 <= m.fp && m.fp + 2 + |cx.scope.args| < |m.mem| && ArgCount(m) == |cx.scope.args|
    && m.sp + SlotCount(cx.scope) + 4 <= m.fp
  }

  /**
   The slots of a scope are those of its frame, which has a slot for each copy and each temporary,
   exactly when it is a method's, or has no arguments or no temporaries.
   */
  lemma SlotsInFrame(own: Scope)
    requires own.inBlock || own.offset == 0
    ensures SlotCount(own) <= own.offset + |own.temps| <==> !own.inBlock || own.args == [] || own.temps == []
  {
  }

  /** The name is a variable's or a field's. */
  predicate Visible(name: string, cx: Context) { Resolve(cx.scope, cx.outers, name).Found? || name in cx.ivars }

  /** It may be read by this name. */
  predicate Readable(name: string, cx: Context) { !Reserved(name) && Visible(name, cx) }

  /** A store into the name is into the variable that a read of the name reads. */
  predicate SameTarget(name: string, cx: Context) {
    name in cx.scope.temps || (name !in cx.scope.args && !IsArg(cx.outers, name))
  }

  /** A name can be assigned to exactly when it is a temporary, in whatever scope around, or a field. */
  lemma StorableIff(name: string, cx: Context)
    ensures StoreInto(name, cx) != []
            <==> name in cx.scope.temps || (exists s :: s in cx.outers && name in s.temps) || name in cx.ivars
  {
    hide U32;
    OuterTempIff(cx.outers, name);
  }

  lemma {:induction false} OuterTempIff(outers: seq<Scope>, name: string)
    ensures OuterTempSlot(outers, name) >= 0 <==> exists s :: s in outers && name in s.temps
  {
    if outers != [] {
      OuterTempIff(outers[1..], name);
      assert outers == [outers[0]] + outers[1..];
    }
  }

  // ----------------------------------------------------------------- places

  datatype Place = Slot(n: nat) | Argument(n: nat) | Field(n: nat)

  /** Where a name is read from. */
  function ReadPlace(name: string, cx: Context): Place
    requires Visible(name, cx)
  {
    var r := Resolve(cx.scope, cx.outers, name);
    if r.Unknown? then Field(Find(cx.ivars, name)) else ResolvedName(name, cx); PlaceOf(r.v, cx)
  }

  /** Where a variable is in the frame of the scope. */
  function PlaceOf(v: Variable, cx: Context): Place
    requires Captures.Declares(cx.scope, cx.outers, v)
  {
    if v.depth > 0 then Slot(OuterSlot(cx.outers, v))
    else if v.Arg? then Argument(v.index)
    else Slot(TempSlot(cx.scope, v.index))
  }

  /** Where a name is stored to. */
  function StorePlace(name: string, cx: Context): Place
    requires StoreInto(name, cx) != []
  {
    if name in cx.scope.temps then Slot(TempSlot(cx.scope, Find(cx.scope.temps, name)))
    else if FindTemp(cx.outers, name).Found? then
      TempFound(cx.outers, name);
      Slot(OuterSlot(cx.outers, FindTemp(cx.outers, name).v))
    else Field(FieldOf(name, cx))
  }

  function FieldOf(name: string, cx: Context): nat
    requires StoreInto(name, cx) != [] && name !in cx.scope.temps && FindTemp(cx.outers, name).Unknown?
  {
    TempFound(cx.outers, name);
    Find(cx.ivars, name)
  }

  /** The word at a place. */
  function WordAt(m: State, p: Place): Word
    requires 5 <= m.fp < |m.mem|
    requires p.Slot? ==> p.n + 5 <= m.fp
    requires p.Argument? ==> 0 <= m.fp + 1 + ArgCount(m) - p.n < |m.mem|
  {
    match p
    case Slot(n) => m.mem[m.fp - 5 - n]
    case Argument(n) => m.mem[m.fp + 1 + ArgCount(m) - n]
    case Field(n) => Fetch(m.heap, m.mem[m.fp - 4], n)
  }

  predicate PlaceIn(p: Place, cx: Context) {
    match p
    case Slot(n) => n < SlotCount(cx.scope)
    case Argument(n) => n < |cx.scope.args|
    case Field(n) => n < |cx.ivars|
  }

  lemma ReadPlaceIn(name: string, cx: Context)
    requires Nested(cx.scope, cx.outers) && Visible(name, cx)
    ensures PlaceIn(ReadPlace(name, cx), cx)
    ensures ReadPlace(name, cx).Field? <==> Resolve(cx.scope, cx.outers, name).Unknown?
  {
    ArgFound(cx.outers, name);
    TempFound(cx.outers, name);
    var r := Resolve(cx.scope, cx.outers, name);
    if r.Found? && r.v.depth > 0 {
      OuterSlotsBelow(cx.scope, cx.outers, r.v);
    }
  }

  lemma StorePlaceIn(name: string, cx: Context)
    requires Nested(cx.scope, cx.outers) && StoreInto(name, cx) != []
    ensures PlaceIn(StorePlace(name, cx), cx) && !StorePlace(name, cx).Argument?
    ensures StoreInto(name, cx) == (if StorePlace(name, cx).Field? then [STORE_INST_VAR] else [STORE_TEMP])
                                   + U32(StorePlace(name, cx).n)
  {
    hide U32;
    TempFound(cx.outers, name);
    var r := FindTemp(cx.outers, name);
    if name !in cx.scope.temps && r.Found? {
      OuterSlotsBelow(cx.scope, cx.outers, r.v);
    }
  }

  // ----------------------------------------------------------------- one instruction

  lemma OneInstruction(op: Byte, n: nat, literals: seq<Word>, w: World, m: State)
    requires 5 <= m.fp < |m.mem| && n < W.TWO_32
             && op !in {PUSH_SELF, POP, DUPLICATE, HALT, RETURN_TOP, RETURN_NON_LOCAL}
    ensures var p := Program([op] + U32(n), literals);
            Step(p, w, m.(ip := 0)) == StepWithOperand(p, w, m.(ip := 0), op, n, 5)
  {
    hide StepWithOperand, ReadU32, U32;
    var code := [op] + U32(n);
    assert code[1..5] == U32(n);
    U32RoundTrip(code, 1, n);
  }

  /** The instruction that reads from a place. */
  function PushOp(p: Place): Byte { if p.Slot? then PUSH_TEMP else if p.Argument? then PUSH_ARG else PUSH_INST_VAR }

  lemma PushEmitted(t: Token, st: Output, cx: Context)
    requires t.kind == Identifier && Readable(t.text, cx)
    ensures EmitAtom(t, [], st, cx) == Emit([], st, [PushOp(ReadPlace(t.text, cx))] + U32(ReadPlace(t.text, cx).n))
  {
    hide U32;
    ArgFound(cx.outers, t.text);
    TempFound(cx.outers, t.text);
    if Resolve(cx.scope, cx.outers, t.text).Found? {
      EmittedPush(t, [], st, cx);
      hide EmitAtom, Resolve;
    }
  }

  /** A read pushes the word at the name's place. */
  lemma ReadRun(name: string, cx: Context, w: World, m: State)
    requires Scoped(cx) && Readable(name, cx) && FrameFor(cx, m) && 0 < m.sp
    ensures PlaceIn(ReadPlace(name, cx), cx)
    ensures PushesOne(PushRun(name, cx, w, m), m, WordAt(m, ReadPlace(name, cx)))
  {
    hide EmitAtom, Step, U32, ReadPlace, Visible, SlotCount;
    PushEmitted(Token(Identifier, name, 0), NOTHING, cx);
    ReadPlaceIn(name, cx);
    var place := ReadPlace(name, cx);
    assert NOTHING.code + ([PushOp(place)] + U32(place.n)) == [PushOp(place)] + U32(place.n);
    OneInstruction(PushOp(place), place.n, Literals(w, []), w, m);
  }

  /** A store takes the top word to the name's place. */
  lemma WriteRun(name: string, cx: Context, w: World, m: State)
    requires Scoped(cx) && StoreInto(name, cx) != [] && FrameFor(cx, m.(sp := m.sp + 1))
    ensures PlaceIn(StorePlace(name, cx), cx)
    ensures var s, place := StoreRun(name, cx, w, m), StorePlace(name, cx);
            && s.Running? && !place.Argument?
            && s.state == if place.Field?
                          then m.(sp := m.sp + 1, ip := 5, heap := m.heap[(m.mem[m.fp - 4], place.n) := m.mem[m.sp]])
                          else m.(sp := m.sp + 1, ip := 5, mem := m.mem[m.fp - 5 - place.n := m.mem[m.sp]])
  {
    hide StoreInto, Step, U32, StorePlace, SlotCount;
    StorePlaceIn(name, cx);
    var place := StorePlace(name, cx);
    OneInstruction(if place.Field? then STORE_INST_VAR else STORE_TEMP, place.n, [], w, m);
  }

  // ----------------------------------------------------------------- one place, one name

  /** Variables of enclosing scopes that have one slot are one variable. */
  lemma {:induction false} OneOuterSlot(own: Scope, outers: seq<Scope>, a: Variable, b: Variable)
    requires Nested(own, outers) && Captures.Declares(own, outers, a) && Captures.Declares(own, outers, b)
    requires 0 < a.depth && 0 < b.depth && OuterSlot(outers, a) == OuterSlot(outers, b)
    ensures a == b
    decreases |outers|
  {
    if a.depth > 1 && b.depth > 1 {
      var u, v := Inward(a), Inward(b);
      assert OuterSlot(outers[1..], u) == OuterSlot(outers, a) && OuterSlot(outers[1..], v) == OuterSlot(outers, b);
      OneOuterSlot(outers[0], outers[1..], u, v);
    } else if a.depth > 1 {
      OuterSlotsBelow(outers[0], outers[1..], Inward(a));
    } else if b.depth > 1 {
      OuterSlotsBelow(outers[0], outers[1..], Inward(b));
    }
  }

  /** The variable as the next scope further out sees it. */
  function Inward(v: Variable): (u: Variable)
    requires 0 < v.depth
    ensures u.Outward() == v
  {
    if v.Arg? then Arg(v.depth - 1, v.index) else Temp(v.depth - 1, v.index)
  }

  /** The name that a variable was declared with. */
  function NameOf(cx: Context, v: Variable): string
    requires Captures.Declares(cx.scope, cx.outers, v)
  {
    var s := ScopeAt(cx.scope, cx.outers, v.depth);
    if v.Arg? then s.args[v.index] else s.temps[v.index]
  }

  lemma ResolvedName(name: string, cx: Context)
    requires Resolve(cx.scope, cx.outers, name).Found?
    ensures var v := Resolve(cx.scope, cx.outers, name).v;
            Captures.Declares(cx.scope, cx.outers, v) && NameOf(cx, v) == name
  {
    ArgFound(cx.outers, name);
    TempFound(cx.outers, name);
  }

  /** The variable that a store into a slot is into. */
  function Target(name: string, cx: Context): Variable
    requires name in cx.scope.temps || FindTemp(cx.outers, name).Found?
  {
    if name in cx.scope.temps then Temp(0, Find(cx.scope.temps, name)) else FindTemp(cx.outers, name).v
  }

  lemma TargetName(name: string, cx: Context)
    requires name in cx.scope.temps || FindTemp(cx.outers, name).Found?
    ensures var v := Target(name, cx); v.Temp? && Captures.Declares(cx.scope, cx.outers, v) && NameOf(cx, v) == name
  {
    TempFound(cx.outers, name);
  }

  /** A name is read from where it is stored to exactly when both mean one variable, and no other name is. */
  lemma OnePlace(name: string, other: string, cx: Context)
    requires Nested(cx.scope, cx.outers) && StoreInto(name, cx) != [] && Visible(other, cx)
    ensures ReadPlace(other, cx) == StorePlace(name, cx) <==> other == name && SameTarget(name, cx)
  {
    hide U32, Nested;
    ArgFound(cx.outers, name);
    TempFound(cx.outers, name);
    FindArgIff(cx.outers, name);
    var r := Resolve(cx.scope, cx.outers, other);
    if r.Unknown? {
      if other in cx.ivars {
        UnknownIsField(name, other, cx);
      }
    } else {
      ResolvedName(other, cx);
      if name in cx.scope.temps || FindTemp(cx.outers, name).Found? {
        TargetName(name, cx);
        SlotsApart(cx, Target(name, cx), r.v);
      }
    }
  }

  lemma UnknownIsField(name: string, other: string, cx: Context)
    requires StoreInto(name, cx) != [] && other in cx.ivars
    requires Resolve(cx.scope, cx.outers, other).Unknown?
    ensures StorePlace(name, cx) == Field(Find(cx.ivars, other)) <==> other == name && SameTarget(name, cx)
  {
    hide U32;
    ArgFound(cx.outers, name);
    TempFound(cx.outers, name);
    FindArgIff(cx.outers, name);
  }

  /** A temporary's slot is no other variable's. */
  lemma SlotsApart(cx: Context, t: Variable, v: Variable)
    requires Nested(cx.scope, cx.outers) && t.Temp?
    requires Captures.Declares(cx.scope, cx.outers, t) && Captures.Declares(cx.scope, cx.outers, v)
    ensures var a := if t.depth > 0 then OuterSlot(cx.outers, t) else TempSlot(cx.scope, t.index);
            && (v.depth > 0 ==> (OuterSlot(cx.outers, v) == a <==> v == t))
            && (v.depth == 0 && v.Temp? ==> (TempSlot(cx.scope, v.index) == a <==> v == t))
  {
    if t.depth > 0 {
      OuterSlotsBelow(cx.scope, cx.outers, t);
      if v.depth > 0 && OuterSlot(cx.outers, v) == OuterSlot(cx.outers, t) {
        OneOuterSlot(cx.scope, cx.outers, v, t);
      }
    } else if v.depth > 0 {
      OuterSlotsBelow(cx.scope, cx.outers, v);
    }
  }

  // ----------------------------------------------------------------- a store, and reads after it

  /**
   Run the store that the compiler emits for a name, in a method or in a block however deep.  What is
   read by the name afterwards is the word that was stored, if and only if the name means one variable
   to both: a name that is an argument's as well, its own scope's or one further out, is read from the
   argument and stored into the temporary or the field.  What is read by any other name is what was
   read by it before.
   */
  lemma StoreThenRead(name: string, other: string, cx: Context, w: World, m: State) returns (before: Word)
    requires Scoped(cx) && StoreInto(name, cx) != [] && Readable(other, cx)
    requires FrameFor(cx, m.(sp := m.sp + 1))
    ensures var s := StoreRun(name, cx, w, m);
            && s.Running? && s.state.sp == m.sp + 1 && s.state.fp == m.fp && |s.state.mem| == |m.mem|
            && PushesOne(PushRun(other, cx, w, m.(sp := m.sp + 1)), m.(sp := m.sp + 1), before)
            && PushesOne(PushRun(other, cx, w, s.state), s.state,
                         if other == name && SameTarget(name, cx) then m.mem[m.sp] else before)
  {
    hide StoreInto, PushRun, StoreRun, ReadPlace, StorePlace, Visible, SameTarget, SlotCount, Nested, PushesOne;
    var m0, s := m.(sp := m.sp + 1), StoreRun(name, cx, w, m);
    WriteRun(name, cx, w, m);
    OnePlace(name, other, cx);
    ReadRun(other, cx, w, m0);
    assert FrameFor(cx, s.state) by { StillFrame(cx, m0, s.state, StorePlace(name, cx), m.mem[m.sp]); }
    ReadRun(other, cx, w, s.state);
    before := WordAt(m0, ReadPlace(other, cx));
    assert WordAt(s.state, ReadPlace(other, cx))
           == if other == name && SameTarget(name, cx) then m.mem[m.sp] else before by {
      Moved(cx, m0, s.state, StorePlace(name, cx), ReadPlace(other, cx), m.mem[m.sp]);
    }
  }

  lemma StillFrame(cx: Context, m: State, m1: State, p: Place, x: Word)
    requires FrameFor(cx, m) && PlaceIn(p, cx) && !p.Argument? && m1.sp == m.sp && m1.fp == m.fp
    requires m1.mem == if p.Field? then m.mem else m.mem[m.fp - 5 - p.n := x]
    ensures FrameFor(cx, m1)
  {
    hide SlotCount;
  }

  lemma Moved(cx: Context, m: State, m1: State, p: Place, q: Place, x: Word)
    requires FrameFor(cx, m) && FrameFor(cx, m1) && PlaceIn(p, cx) && PlaceIn(q, cx) && !p.Argument?
    requires m1.sp == m.sp && m1.fp == m.fp
    requires m1.mem == if p.Field? then m.mem else m.mem[m.fp - 5 - p.n := x]
    requires m1.heap == if p.Field? then m.heap[(m.mem[m.fp - 4], p.n) := x] else m.heap
    ensures WordAt(m1, q) == if p == q then x else WordAt(m, q)
  {
    hide SlotCount;
  }
}
