/**
 From source text to a returned value: the text is compiled in place, its code is entered as a
 method activation enters it, and the run ends as direct execution of the source does.
 */
module Entry {
  import opened Lexer
  import opened Codegen
  import opened Machine
  import opened Stores
  import opened Meaning
  import opened Programs
  import C = Captures
  import K = Compiler
  import E = Execution
  import G = Grammar
  import F = Frames
  import W = Words

  /** Compiles a method's text; the header has given its argument names, the class its fields. */
  method CodegenBody(source: string, args: seq<string>, ivars: seq<string>)
      returns (ok: bool, body: Body, blocks: seq<Body>)
    requires !CompileBody(Lex(source), [], args, [], ivars, false, 0).TooLarge?
    ensures match CompileBody(Lex(source), [], args, [], ivars, false, 0)
            case Accepted(b, bs) => ok && body == b && blocks == bs
            case Rejected(bs) => !ok && blocks == bs
            case TooLarge => false
  {
    hide CompileBody, Lex;
    var table := new K.BlockTable();
    var state := new K.CgState(source, table, args, false, 0, [], ivars);
    ok, body := state.Compile();
    blocks := table.blocks;
  }

  /** The variables of a method just entered on the receiver and arguments above `sp`: temporaries are 0. */
  function EnteredVars(mem: seq<Word>, sp: nat, args: seq<string>, temps: seq<string>): Vars
    requires sp + |args| < |mem|
  {
    Vars(mem[sp + |args|],
         map name | name in temps + args :: if name in temps then 0 else mem[sp + |args| - 1 - Find(args, name)])
  }

  /** The state in which a method starts: the stack that its activation builds. */
  function EnteredState(mem: seq<Word>, sp: nat, callerFp: Word, savedIp: Word, cm: Word, n: nat, t: nat,
                        heap: Heap): State
    requires t + 6 <= sp && sp + n < |mem| && n < 0x100
  {
    State(F.Activated(mem, sp, callerFp, savedIp, cm, n, t), sp - 6 - t, sp - 2, 0, heap)
  }

  /** A method's activation gives its compiled code the frame that the source's variables describe. */
  lemma ActivationHolds(mem: seq<Word>, sp: nat, callerFp: Word, savedIp: Word, cm: Word, cx: Context, heap: Heap)
    requires cx.outers == [] && !cx.scope.inBlock && cx.scope.offset == 0
    requires |cx.scope.temps| + 6 <= sp && sp + |cx.scope.args| < |mem| && |cx.scope.args| < 0x100 && 7 <= sp
    ensures var st := EnteredState(mem, sp, callerFp, savedIp, cm, |cx.scope.args|, |cx.scope.temps|, heap);
            FrameHolds(st, EnteredVars(mem, sp, cx.scope.args, cx.scope.temps), cx)
  {
    var n, t := |cx.scope.args|, |cx.scope.temps|;
    var st := EnteredState(mem, sp, callerFp, savedIp, cm, n, t, heap);
    var v := EnteredVars(mem, sp, cx.scope.args, cx.scope.temps);
    hide F.Activated, Find, EnteredVars, C.Resolve, Holds;
    assert EnteredWords(mem, sp, st.mem, n, t) && FrameFor(cx, st) && st.mem[sp - 6] == mem[sp + n] by {
      ActivatedWords(mem, sp, callerFp, savedIp, cm, n, t);
    }
    assert v.receiver == mem[sp + n] by { EnteredReceiver(mem, sp, cx.scope.args, cx.scope.temps); }
    forall name ensures (name in v.named <==> C.Resolve(cx.scope, cx.outers, name).Found?)
                        && (name in v.named ==> Holds(st, name, v.named[name], cx)) {
      EnteredName(mem, sp, st, cx, name);
    }
  }

  /** What an activation leaves of the stack: zeros in the slots, the arguments where they were. */
  predicate EnteredWords(mem: seq<Word>, sp: nat, r: seq<Word>, n: nat, t: nat) {
    && |r| == |mem| && t + 6 <= sp && sp + n < |mem|
    && F.FrameTemps(r, sp - 2, t) == F.Zeros(t) && r[sp..] == mem[sp..]
  }

  lemma ActivatedWords(mem: seq<Word>, sp: nat, callerFp: Word, savedIp: Word, cm: Word, n: nat, t: nat)
    requires t + 6 <= sp && sp + n < |mem| && n < 0x100 && 7 <= sp
    ensures var r := F.Activated(mem, sp, callerFp, savedIp, cm, n, t);
            EnteredWords(mem, sp, r, n, t) && r[sp - 6] == mem[sp + n] && r[sp - 4] / 0x100 % 0x100 == n
  {
    F.ActivatedFrame(mem, sp, callerFp, savedIp, cm, n, t);
    hide F.Activated;
    assert F.NumArgs(F.Activated(mem, sp, callerFp, savedIp, cm, n, t)[sp - 4]) == n;
  }

  lemma EnteredReceiver(mem: seq<Word>, sp: nat, args: seq<string>, temps: seq<string>)
    requires sp + |args| < |mem|
    ensures EnteredVars(mem, sp, args, temps).receiver == mem[sp + |args|]
  {
  }

  lemma EnteredName(mem: seq<Word>, sp: nat, st: State, cx: Context, name: string)
    requires cx.outers == [] && !cx.scope.inBlock && cx.scope.offset == 0 && FrameFor(cx, st) && st.fp + 2 == sp
    requires EnteredWords(mem, sp, st.mem, |cx.scope.args|, |cx.scope.temps|)
    ensures var v := EnteredVars(mem, sp, cx.scope.args, cx.scope.temps);
            && (name in v.named <==> C.Resolve(cx.scope, cx.outers, name).Found?)
            && (name in v.named ==> Holds(st, name, v.named[name], cx))
  {
    hide SlotCount;
    var n, t := |cx.scope.args|, |cx.scope.temps|;
    var i, j := Find(cx.scope.temps, name), Find(cx.scope.args, name);
    hide Find;
    if i >= 0 {
      assert F.FrameTemps(st.mem, sp - 2, t)[i] == F.Zeros(t)[i];
    } else if j >= 0 {
      assert st.mem[sp..][n - 1 - j] == mem[sp..][n - 1 - j];
    }
  }

  /**
   End to end.  A method whose text is accepted, entered with any receiver and arguments on a stack
   that is deep enough, returns a value with a heap exactly when direct execution of its source does,
   and runs off the end of its code exactly when execution gets there.
   */
  lemma SourceRuns(source: string, m: Method, ivars: seq<string>, args: seq<string>, b: Body, blocks: seq<Body>,
                   w: World,
                   mem: seq<Word>, sp: nat, callerFp: Word, savedIp: Word, cm: Word, heap0: Heap, value: Word,
                   heap: Heap)
    requires E.MethodOk(m, args, ivars) && Lex(source) == MethodLex(m)
    requires CompileBody(Lex(source), [], args, [], ivars, false, 0) == Accepted(b, blocks)
    requires 7 <= sp && sp + |args| < |mem|
             && |m.temps| + 6 + Max(1, E.NeedStmts(m.body, MethodContext(m, args, ivars))) <= sp
    ensures var st := EnteredState(mem, sp, callerFp, savedIp, cm, |args|, |m.temps|, heap0);
            var cx := MethodContext(m, args, ivars);
            var v := EnteredVars(mem, sp, args, cx.scope.temps);
            && ((exists fuel :: E.Exec(m.body, w, v, cx, heap0, fuel) == E.Gave(value, heap))
                <==> (exists k, st1 :: Run(E.Loading(b, w), w, st, k) == Returned(value, st1) && st1.heap == heap))
            && ((exists fuel :: E.Exec(m.body, w, v, cx, heap0, fuel).Done?)
                <==> (exists k, st1 :: Run(E.Loading(b, w), w, st, k) == Running(st1) && st1.ip == |b.code|))
  {
    var cx := MethodContext(m, args, ivars);
    assert |cx.scope.temps| == |m.temps| && cx.scope.args == args;
    assert WellFormedStmts(m.body, cx);
    ActivationHolds(mem, sp, callerFp, savedIp, cm, cx, heap0);
    var st := EnteredState(mem, sp, callerFp, savedIp, cm, |args|, |m.temps|, heap0);
    var v := EnteredVars(mem, sp, args, cx.scope.temps);
    assert E.Entered(st, m.body, v, cx);
    hide *;
    E.CompilerCorrect(m, args, ivars, b, blocks, w, st, v, value, heap);
  }

  /**
   Whatever simple text is accepted, without a block, is a method of the grammar, and where it does not
   name `thisContext` its activation runs as that method.
   */
  lemma AcceptedRuns(source: string, ivars: seq<string>, args: seq<string>, b: Body, w: World, mem: seq<Word>, sp: nat,
                     callerFp: Word, savedIp: Word, cm: Word, heap0: Heap, value: Word, heap: Heap)
    returns (m: Method)
    requires G.Simple(Lex(source)) && G.NoThis(Lex(source)) && |args| <= ARG_MAX && |ivars| < W.TWO_32
    requires CompileBody(Lex(source), [], args, [], ivars, false, 0) == Accepted(b, [])
    ensures WellFormedMethod(m, args, ivars) && MethodLex(m) == Lex(source)
    ensures 7 <= sp && sp + |args| < |mem|
            && |m.temps| + 6 + Max(1, E.NeedStmts(m.body, MethodContext(m, args, ivars))) <= sp ==>
              var st := EnteredState(mem, sp, callerFp, savedIp, cm, |args|, |m.temps|, heap0);
              var cx := MethodContext(m, args, ivars);
              var v := EnteredVars(mem, sp, args, cx.scope.temps);
              && ((exists fuel :: E.Exec(m.body, w, v, cx, heap0, fuel) == E.Gave(value, heap))
                  <==> (exists k, st1 :: Run(E.Loading(b, w), w, st, k) == Returned(value, st1) && st1.heap == heap))
              && ((exists fuel :: E.Exec(m.body, w, v, cx, heap0, fuel).Done?)
                  <==> (exists k, st1 :: Run(E.Loading(b, w), w, st, k) == Running(st1) && st1.ip == |b.code|))
  {
    hide CompileBody, Lex, MethodLex, E.NeedStmts, EnteredState, EnteredVars, WellFormedStmts, E.Exec, Run, E.Loading,
         E.Evaluable;
    m := G.SourceMethod(source, args, ivars, b);
    G.MethodNoThis(m, args, ivars);
    if 7 <= sp && sp + |args| < |mem|
       && |m.temps| + 6 + Max(1, E.NeedStmts(m.body, MethodContext(m, args, ivars))) <= sp {
      SourceRuns(source, m, ivars, args, b, [], w, mem, sp, callerFp, savedIp, cm, heap0, value, heap);
    }
  }
}
