/**
 Captured variables: the slot numbers that the compiler gives to the variables of enclosing
 scopes, against the slots that block creation copies and block activation fills.
 */
module Captures {
  import W = Words
  import opened Lexer
  import opened Codegen

  type Word = W.Word

  // ----------------------------------------------------------------- scopes

  /** Blocks inside blocks inside a method: a scope's own slots begin after all of its enclosing scopes'. */
  predicate Nested(own: Scope, outers: seq<Scope>)
    decreases |outers|
  {
    if outers == [] then !own.inBlock && own.offset == 0
    else own.inBlock && own.offset == outers[0].offset + |outers[0].args| + |outers[0].temps|
         && Nested(outers[0], outers[1..])
  }

  /** The context in which a block literal inside `cx` is compiled. */
  function BlockContext(cx: Context, args: seq<string>, temps: seq<string>): (r: Context)
    ensures Nested(cx.scope, cx.outers) ==> Nested(r.scope, r.outers)
  {
    Context(Scope(args, temps, cx.scope.offset + |cx.scope.args| + |cx.scope.temps|, true), [cx.scope] + cx.outers,
            cx.ivars)
  }

  /** The scopes in which the compiler compiles blocks, however deep, are nested as described. */
  lemma BlocksNested(toks: seq<Lexeme>, blocks: seq<Body>, cx: Context)
    requires Nested(cx.scope, cx.outers) && BlockHeader(toks).Names? && TempDecls(BlockHeader(toks).rest).Names?
    ensures var args, temps := BlockHeader(toks), TempDecls(BlockHeader(toks).rest);
            var inner := BlockContext(cx, args.names, temps.names);
            && Nested(inner.scope, inner.outers)
            && CompileBody(toks, blocks, [], [cx.scope] + cx.outers, cx.ivars, true,
                           cx.scope.offset + |cx.scope.args| + |cx.scope.temps|)
               == Finish(Statements(temps.rest, Output([], [], blocks, false), inner), true, |args.names|,
                         |temps.names|)
  {
    hide Statements, Finish;
  }

  /** An argument or a temporary of the scope `depth` scopes further out. */
  datatype Variable = Arg(depth: nat, index: nat) | Temp(depth: nat, index: nat) {
    function Outward(): (r: Variable)
      ensures r.depth == depth + 1
    {
      if Arg? then Arg(depth + 1, index) else Temp(depth + 1, index)
    }
  }

  function ScopeAt(own: Scope, outers: seq<Scope>, depth: nat): Scope
    requires depth <= |outers|
  {
    if depth == 0 then own else outers[depth - 1]
  }

  predicate Declares(own: Scope, outers: seq<Scope>, v: Variable) {
    v.depth <= |outers| && v.index < if v.Arg? then |ScopeAt(own, outers, v.depth).args|
                                                    else |ScopeAt(own, outers, v.depth).temps|
  }

  /** The slot of an enclosing scope's variable in the frame of the scope being compiled. */
  function OuterSlot(outers: seq<Scope>, v: Variable): nat
    requires 0 < v.depth <= |outers|
  {
    var s := outers[v.depth - 1];
    if v.Arg? then s.offset + v.index else s.offset + |s.args| + v.index
  }

  // ----------------------------------------------------------------- names

  datatype Resolution = Found(v: Variable) | Unknown {
    function Outward(): Resolution { if Found? then Found(v.Outward()) else Unknown }
  }

  function FindArg(outers: seq<Scope>, name: string): Resolution {
    if outers == [] then Unknown
    else if Find(outers[0].args, name) >= 0 then Found(Arg(1, Find(outers[0].args, name)))
    else FindArg(outers[1..], name).Outward()
  }

  function FindTemp(outers: seq<Scope>, name: string): Resolution {
    if outers == [] then Unknown
    else if Find(outers[0].temps, name) >= 0 then Found(Temp(1, Find(outers[0].temps, name)))
    else FindTemp(outers[1..], name).Outward()
  }

  /** Own temporaries, own arguments, then the arguments of all enclosing scopes, then their temporaries. */
  function Resolve(own: Scope, outers: seq<Scope>, name: string): Resolution {
    if Find(own.temps, name) >= 0 then Found(Temp(0, Find(own.temps, name)))
    else if Find(own.args, name) >= 0 then Found(Arg(0, Find(own.args, name)))
    else if FindArg(outers, name).Found? then FindArg(outers, name)
    else FindTemp(outers, name)
  }

  /** The instruction that pushes a variable. */
  function PushOf(own: Scope, outers: seq<Scope>, v: Variable): seq<Byte>
    requires Declares(own, outers, v)
  {
    if v.depth > 0 then [PUSH_TEMP] + U32(OuterSlot(outers, v))
    else if v.Arg? then [PUSH_ARG] + U32(v.index)
    else [PUSH_TEMP] + U32(TempSlot(own, v.index))
  }

  lemma {:induction false} ArgFound(outers: seq<Scope>, name: string)
    ensures FindArg(outers, name).Found? <==> OuterArgSlot(outers, name) >= 0
    ensures FindArg(outers, name).Found? ==>
              var v := FindArg(outers, name).v;
              v.Arg? && 0 < v.depth <= |outers| && v.index < |outers[v.depth - 1].args|
                  && outers[v.depth - 1].args[v.index] == name
              && OuterArgSlot(outers, name) == OuterSlot(outers, v)
  {
    if outers != [] {
      ArgFound(outers[1..], name);
    }
  }

  lemma {:induction false} TempFound(outers: seq<Scope>, name: string)
    ensures FindTemp(outers, name).Found? <==> OuterTempSlot(outers, name) >= 0
    ensures FindTemp(outers, name).Found? ==>
              var v := FindTemp(outers, name).v;
              v.Temp? && 0 < v.depth <= |outers| && v.index < |outers[v.depth - 1].temps|
                  && outers[v.depth - 1].temps[v.index] == name
              && OuterTempSlot(outers, name) == OuterSlot(outers, v)
  {
    if outers != [] {
      TempFound(outers[1..], name);
    }
  }

  /** What the compiler emits for a name is the push of the variable that it resolves to. */
  lemma EmittedPush(t: Token, toks: seq<Lexeme>, st: Output, cx: Context)
    requires t.kind == Identifier && t.text !in {"self", "super", "thisContext", "nil", "true", "false"}
    requires Resolve(cx.scope, cx.outers, t.text).Found?
    ensures var v := Resolve(cx.scope, cx.outers, t.text).v;
            Declares(cx.scope, cx.outers, v)
                && EmitAtom(t, toks, st, cx) == Emit(toks, st, PushOf(cx.scope, cx.outers, v))
  {
    ArgFound(cx.outers, t.text);
    TempFound(cx.outers, t.text);
  }

  /** Some scope, innermost first, has an argument of that name. */
  predicate IsArg(outers: seq<Scope>, name: string) { exists s :: s in outers && name in s.args }

  lemma {:induction false} FindArgIff(outers: seq<Scope>, name: string)
    ensures FindArg(outers, name).Found? <==> IsArg(outers, name)
  {
    if outers != [] {
      FindArgIff(outers[1..], name);
      assert outers == [outers[0]] + outers[1..];
    }
  }

  /**
   A block sees a variable of its surroundings exactly as its surroundings do, unless a
   temporary there has the name of an argument, its own or one further out: the block then
   finds the argument.
   */
  lemma SameVariable(own: Scope, outers: seq<Scope>, inner: Scope, name: string)
    requires name !in inner.args && name !in inner.temps && Resolve(own, outers, name).Found?
    ensures Resolve(inner, [own] + outers, name) == Resolve(own, outers, name).Outward()
            <==> !(name in own.temps && IsArg([own] + outers, name))
  {
    var all := [own] + outers;
    assert all[1..] == outers;
    FindArgIff(all, name);
    FindArgIff(outers, name);
    ArgFound(outers, name);
    TempFound(outers, name);
  }

  // ----------------------------------------------------------------- frames

  /** The arguments and the slots of the frame that runs a scope's code. */
  datatype Values = Values(args: seq<Word>, slots: seq<Word>)

  predicate FrameOf(own: Scope, values: Values) {
    |values.args| == |own.args| && |values.slots| == own.offset + |own.temps|
  }

  /** What block creation copies out of a frame: arguments, then slots. */
  function Copies(values: Values): seq<Word> { values.args + values.slots }

  /** A frame just activated for a block: copies in the first slots, zeros in its own. */
  predicate Entered(values: Values, inner: Scope, values1: Values) {
    FrameOf(inner, values1) && Copies(values) <= values1.slots
  }

  /** The value that a scope's code pushes for a variable; nothing when its slot is outside the frame. */
  datatype Pushed = Value(w: Word) | Outside

  function SlotValue(values: Values, slot: nat): Pushed {
    if slot < |values.slots| then Value(values.slots[slot]) else Outside
  }

  function Read(own: Scope, outers: seq<Scope>, values: Values, v: Variable): Pushed
    requires Declares(own, outers, v) && FrameOf(own, values)
  {
    if v.depth > 0 then SlotValue(values, OuterSlot(outers, v))
    else if v.Arg? then Value(values.args[v.index])
    else SlotValue(values, TempSlot(own, v.index))
  }

  /**
   Whatever a frame holds when it creates a block, the block's code finds it all, and none of it is
   outside the frame.
   */
  ghost predicate Captured(own: Scope, outers: seq<Scope>, inner: Scope) {
    forall values, values1, v :: FrameOf(own, values) && Entered(values, inner, values1) && Declares(own, outers, v) ==>
      CapturedIn(own, outers, inner, values, values1, v)
  }

  predicate CapturedIn(own: Scope, outers: seq<Scope>, inner: Scope, values: Values, values1: Values, v: Variable)
    requires Declares(own, outers, v) && FrameOf(own, values) && FrameOf(inner, values1)
  {
    assert v.Arg? ==> Declares(inner, [own] + outers, v.Outward());
    assert v.Temp? ==> Declares(inner, [own] + outers, v.Outward());
    var r := Read(inner, [own] + outers, values1, v.Outward());
    r.Value? && r == Read(own, outers, values, v)
  }

  /**
   The scopes whose variables a block finds: a method's always; a block's when it has no
   arguments, or when it has nothing else.
   */
  predicate Capturable(own: Scope) {
    !own.inBlock || own.args == [] || (own.offset == 0 && own.temps == [])
  }

  /** The slots of enclosing scopes lie below a scope's own. */
  lemma {:induction false} OuterSlotsBelow(own: Scope, outers: seq<Scope>, v: Variable)
    requires Nested(own, outers) && Declares(own, outers, v) && 0 < v.depth
    ensures OuterSlot(outers, v) < own.offset
    decreases |outers|
  {
    if v.depth > 1 {
      var u := if v.Arg? then Arg(v.depth - 1, v.index) else Temp(v.depth - 1, v.index);
      OuterSlotsBelow(outers[0], outers[1..], u);
      assert OuterSlot(outers[1..], u) == OuterSlot(outers, v);
    }
  }

  lemma CapturedHere(own: Scope, outers: seq<Scope>, inner: Scope, values: Values, values1: Values, v: Variable)
    requires Nested(own, outers) && Capturable(own)
    requires FrameOf(own, values) && Entered(values, inner, values1) && Declares(own, outers, v)
    ensures CapturedIn(own, outers, inner, values, values1, v)
  {
    var all := [own] + outers;
    if v.depth > 0 {
      OuterSlotsBelow(own, outers, v);
      assert all[v.depth] == outers[v.depth - 1];
    }
  }

  /** The slot from which a block's code reads a variable around it holds that variable as it was. */
  lemma CapturedSlot(own: Scope, outers: seq<Scope>, inner: Scope, values: Values, values1: Values, v: Variable)
    requires Nested(own, outers) && Capturable(own)
    requires FrameOf(own, values) && Entered(values, inner, values1) && Declares(own, outers, v)
    ensures var slot := OuterSlot([own] + outers, v.Outward());
            slot < |values1.slots| && Read(own, outers, values, v) == Value(values1.slots[slot])
  {
    CapturedHere(own, outers, inner, values, values1, v);
  }

  /** The code that the compiler emits in a block for a variable around it. */
  lemma EmittedSlot(t: Token, st: Output, st1: Output, cx: Context, v: Variable)
    requires t.kind == Identifier && t.text !in {"self", "super", "thisContext", "nil", "true", "false"}
    requires Resolve(cx.scope, cx.outers, t.text) == Found(v) && 0 < v.depth
    requires EmitAtom(t, [], st, cx) == Ok([], st1)
    ensures v.depth <= |cx.outers| && st1.code == st.code + ([PUSH_TEMP] + U32(OuterSlot(cx.outers, v)))
  {
    EmittedPush(t, [], st, cx);
    hide EmitAtom, U32, Resolve;
  }

  /** A frame whose first word is 0 and whose others are 1. */
  function Telling(n: nat, zero: nat): seq<Word> { seq(n, i => if i == zero then 0 else 1) }

  /**
   Captured-slot agreement: a block created in a scope finds every variable in scope there,
   for all values, exactly when that scope is capturable.
   */
  lemma CapturedIff(own: Scope, outers: seq<Scope>, inner: Scope)
    requires Nested(own, outers) && Nested(inner, [own] + outers)
    ensures Captured(own, outers, inner) <==> Capturable(own)
  {
    if Capturable(own) {
      forall values, values1, v | FrameOf(own, values) && Entered(values, inner, values1) && Declares(own, outers, v)
        ensures CapturedIn(own, outers, inner, values, values1, v)
      {
        CapturedHere(own, outers, inner, values, values1, v);
      }
    } else {
      var values := Values(Telling(|own.args|, 0), Telling(own.offset + |own.temps|, own.offset + |own.temps|));
      var values1 := Values(Telling(|inner.args|, 0), Copies(values) + Telling(|inner.temps|, 0));
      assert FrameOf(own, values) && Entered(values, inner, values1);
      var v := if own.temps != [] then Temp(0, |own.temps| - 1) else Arg(0, 0);
      assert Declares(own, outers, v);
      assert !CapturedIn(own, outers, inner, values, values1, v);
    }
  }

  /**
   A block with an argument, inside a method with a temporary: the block inside it reads that
   temporary for the argument.
   */
  lemma ArgumentMissed()
    ensures var outer, own, inner := Scope([], ["t"], 0, false), Scope(["x"], [], 1, true), Scope([], [], 2, true);
            var values, values1 := Values([7], [9]), Values([], [7, 9]);
            && Nested(inner, [own, outer]) && Entered(values, inner, values1)
            && Read(own, [outer], values, Arg(0, 0)) == Value(7)
               && Read(inner, [own, outer], values1, Arg(1, 0)) == Value(9)
  {
    var outer, own := Scope([], ["t"], 0, false), Scope(["x"], [], 1, true);
    assert [own, outer][1..] == [outer] && [outer][1..] == [];
    assert Copies(Values([7], [9])) == [7, 9];
  }

  /** A block with an argument and a temporary: the temporary's slot is outside its frame. */
  lemma TemporaryOutside()
    ensures var outer, own := Scope([], [], 0, false), Scope(["x"], ["t"], 0, true);
            Nested(own, [outer]) && Read(own, [outer], Values([7], [0]), Temp(0, 0)) == Outside
  {
    var outer: Scope := Scope([], [], 0, false);
    assert [outer][1..] == [];
  }

  /** A temporary with the name of the method's argument: the block inside finds the argument. */
  lemma ShadowMissed()
    ensures var outer, own, inner := Scope(["x"], [], 0, false), Scope([], ["x"], 1, true), Scope([], [], 2, true);
            && Nested(inner, [own, outer])
            && Resolve(own, [outer], "x") == Found(Temp(0, 0)) && Resolve(inner, [own, outer], "x") == Found(Arg(2, 0))
  {
    var outer, own := Scope(["x"], [], 0, false), Scope([], ["x"], 1, true);
    assert [own, outer][1..] == [outer] && [outer][1..] == [];
    assert FindArg([outer], "x") == Found(Arg(1, 0));
    assert FindArg([own, outer], "x") == Found(Arg(2, 0));
  }

  // ----------------------------------------------------------------- nests of activations

  /** One activation of a nest: the scope whose code runs, and its frame. */
  datatype Level = Level(scope: Scope, values: Values)

  function Scopes(levels: seq<Level>): (r: seq<Scope>)
    ensures |r| == |levels|
    ensures forall i :: 0 <= i < |r| ==> r[i] == levels[i].scope
  {
    if levels == [] then [] else [levels[0].scope] + Scopes(levels[1..])
  }

  /**
   Innermost first: each frame runs a block that the next frame created, so its first slots
   hold the copies made there, and every scope that encloses another is capturable.
   */
  predicate Nest(levels: seq<Level>)
    decreases |levels|
  {
    && levels != [] && FrameOf(levels[0].scope, levels[0].values) && Nested(levels[0].scope, Scopes(levels)[1..])
    && (|levels| > 1 ==>
          Nest(levels[1..]) && Capturable(levels[1].scope) && Copies(levels[1].values) <= levels[0].values.slots)
  }

  /** At any depth, a block finds for each variable what the frame that owns it held when the copies were made. */
  lemma {:induction false} ReadAtDepth(levels: seq<Level>, v: Variable)
    requires Nest(levels) && Declares(levels[0].scope, Scopes(levels)[1..], v)
    ensures v.depth < |levels|
    ensures var own := if v.Arg? then Arg(0, v.index) else Temp(0, v.index);
            var owner, around := levels[v.depth], Scopes(levels)[v.depth + 1..];
            && FrameOf(owner.scope, owner.values) && Declares(owner.scope, around, own)
            && Read(levels[0].scope, Scopes(levels)[1..], levels[0].values, v)
               == Read(owner.scope, around, owner.values, own)
    decreases |levels|
  {
    var scopes := Scopes(levels);
    if v.depth > 0 {
      assert scopes[1..] == Scopes(levels[1..]);
      var u := if v.Arg? then Arg(v.depth - 1, v.index) else Temp(v.depth - 1, v.index);
      assert u.Outward() == v && [levels[1].scope] + scopes[2..] == scopes[1..];
      assert scopes[1..][1..] == scopes[2..];
      assert ScopeAt(levels[1].scope, scopes[2..], v.depth - 1) == ScopeAt(levels[0].scope, scopes[1..], v.depth);
      CapturedHere(levels[1].scope, scopes[2..], levels[0].scope, levels[1].values, levels[0].values, u);
      ReadAtDepth(levels[1..], u);
      assert scopes[1..][v.depth..] == scopes[v.depth + 1..];
    }
  }
}
