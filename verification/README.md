# A verified model of the VM's hard core

A Dafny model of a small Smalltalk VM and its bootstrap compiler.  It covers the one-pass
compiler and the interpreter that runs its byte codes, stack frames and the contexts that
reify them, blocks, the paged object memory and its relocatable images, incremental
checkpoints, the durable transaction log, the collector's root marshalling and stress check,
tagged integers, chunk files and the table of globals.  Code that works in place is modelled in
place (classes over arrays, loops with invariants) and proved against a specification; the
specifications carry the properties.

| file | contents |
|---|---|
| `Lexer.dfy` | tokens, the scanner, and how a text cut at a bracket lexes |
| `Codegen.dfy` | every compiler routine as a function from unread tokens and output to tokens and output |
| `Compiler.dfy` | the compiler in place: parser position, code buffer, literal pool, block table |
| `Fallback.dfy` | bracket statements that are tried as loops first: what a failed try leaves behind |
| `Retry.dfy` | the second try at a block, with `^` before its statements: when it is the one that is accepted |
| `Printing.dfy`, `Messages.dfy` | printed tokens are read back; what messages, and semicolons between them, are |
| `Trees.dfy`, `Programs.dfy` | precedence trees and statement lists, their tokens, their postfix code |
| `Grammar.dfy` | the other direction: what the compiler accepts is a tree of the grammar |
| `Machine.dfy`, `Interpreter.dfy` | the byte codes as a step function and as the dispatch loop over a stack array |
| `Stores.dfy` | stores into variables, run, and what is read by every name afterwards |
| `Meaning.dfy`, `Execution.dfy`, `Entry.dfy` | direct evaluation of methods and blocks and compiler correctness, up to source text and activation |
| `Blocks.dfy` | a block from its source over its creation and its call to its run |
| `Constants.dfy` | what literal methods return and what literal conditions do, in words of the machine |
| `Frames.dfy`, `Activations.dfy`, `Closures.dfy` | frames, contexts, blocks, homes, non-local return |
| `Runs.dfy` | stores, calls, blocks made and called, reifications and returns in any order, what they keep, and whence a block returns |
| `Captures.dfy` | slot numbers of captured variables against the slots that block creation fills |
| `Heap.dfy`, `ObjectMemory.dfy` | page tables as a specification, and the allocator over them |
| `Image.dfy`, `Checkpoint.dfy`, `Log.dfy` | images, checkpoint files, the durable log and recovery |
| `GraphCheck.dfy`, `GcRoots.dfy` | the heap checker; collecting, forwarding and restoring roots |
| `Words.dfy`, `Tagged.dfy` | words, tags, bytes; SmallInteger arithmetic and primitives |
| `Chunks.dfy`, `Globals.dfy` | chunk files; interned symbols and global associations |

Conventions.  Words are integers below 2^64; object memory, images and files are counted in
words of eight bytes, a page being 512 of them.  Stack pointers are indices into the stack
array, 0 standing for none and 0xCAFE for the entry frame's sentinel.  A message send is an
arbitrary function of selector, receiver, arguments and heap, which may leave anything below
the stack pointer.  Checksums are arbitrary functions.  A fixed buffer of the compiler that would be written
past its end is the outcome `Overflow`, and the compiler's methods require that it does not occur.

Where the code does not do what a reader of its comments would expect, the model follows the code:

- Captured variables: an enclosing block with arguments is numbered as if its arguments came
  after its copies, but block creation copies arguments first.  `Captures.CapturedIff` gives the
  exact condition, `Captures.ArgumentMissed` and `Captures.TemporaryOutside` concrete nests.
- A block's home is the frame that created it.  A return from a block returns from the method if
  and only if that frame runs no block itself (`Closures.ReturnsFromMethodIff`); from a nested block
  it returns from the enclosing block's frame (`Closures.NestedReturn`).
- A condition that fails to compile as an inline loop may have emitted part of its code already, and
  the fallback appends to it: `[self foo. self] whileTrue: []` sends `foo` once before its own code
  starts (`Fallback.LoopFallback`).  `Fallback.LoopResidue` says exactly when nothing is left behind,
  `Fallback.FallbackIff` that the statement is compiled to its own code exactly then.
- A block literal that is rejected keeps its place in the block table (`Fallback.FullTable`).
- A block whose statements are rejected is compiled a second time with `^` before them.  That helps
  in one case only: the statements start with a loop that is compiled in line, and go on with
  messages to it, as in `[self] whileTrue: [] foo` (`Retry.RetryIff`, `Retry.SecondTryAccepted`).
  The second source has no spaces at its end, so a last `$ ` becomes a `$` without a character,
  which ends the text (`Retry.SpaceLost`).
- A return in the body of a loop is enough for a body to be accepted, and in a block enough for no
  `nil` to be returned at its end; the end of such a body is then the end of its code
  (`Constants.LoopReturnFallsOff`, `Execution.CompilerCorrect`, `Execution.BlockCorrect`).
- A bare expression at the end of a loop's body is returned.
- An assignment to a name that is both an argument's and a temporary's or a field's stores into the
  temporary or field, and the name is read from the argument (`Stores.StoreThenRead`).
- A semicolon is passed over: `a foo; bar` sends `bar` to the answer of `a foo`
  (`Messages.CascadeExpression`).
- A keyword selector is cut at 127 characters, and so is the selector that is sent (`Trees.ParseExpr`).
- A root of the image that is no object, such as `nil`, comes back as the first word of the heap
  (`Checkpoint.RootFound`).
- A released page is written with table entries that are not 0, so the file of
  `Checkpoint.WriteCheckpoint`, its copies being right, is valid if and only if there is none; `Checkpoint.ReleasedPageInvalid` is a heap of one
  page, released, whose checkpoint every restart refuses.
- Dirty marks belong to the heap and not to a path, and a checkpoint clears them all.  After a store
  and a checkpoint to one path, a checkpoint to an older file at another path copies the page from
  before the store, unless the store changed nothing (`Checkpoint.TwoPaths`).
  `Checkpoint.WriteCheckpoint` says exactly when the copies are right: when every page that is not
  dirty is in the old file as it would be written anew.
- Allocation marks no page dirty.  An object allocated in what is left of the last page, after a
  checkpoint and before the next one to the same path, is missing from the page that is copied; the
  page's entry is the checksum of the page with the object, so a restart refuses the file unless
  the checksum does not tell the two apart (`Checkpoint.AllocUnmarked`).
- A caller's context is cut at the temporaries that its method declares, so a caller that runs a
  block with copied values gets back as many slots fewer when its context is resumed
  (`Closures.ReifiedRestores`, `Closures.CallerSlotsIff`).

## Model

| member | source | states |
|---|---|---|
| `Lexer.BtNext` | src/c/bootstrap_compiler.c:119-276 | the scanner, in place, reads exactly the token that `Next` finds and stops where that token ends |
| `Lexer.SkipWhitespace` | src/c/bootstrap_compiler.c:77-102 | blanks and comments are skipped to the position of the next token |
| `Lexer.LexCut` | src/c/bootstrap_compiler.c:1215-1262 | a text cut just before a `]` that one of its tokens is gives exactly the tokens before that bracket: a captured block body lexes as it did in place |
| `Lexer.ConsumedIsRaw` | src/c/bootstrap_compiler.c:1041-1073 | the source between two scanner positions is the text of the tokens read between them |
| `Printing.PrintLex` | src/c/bootstrap_compiler.c:77-276 | round trip: every list of tokens, printed with any blanks and comments between them, is read as these tokens: names, keywords, decimal numbers, characters, strings with doubled quotes, symbols and marks |
| `Messages.NameIsExpression` | src/c/bootstrap_compiler.c:1702-1730 | on all tokens, of the grammar or not: a name and the messages to it, which a statement parses its own way, give what an expression gives |
| `Messages.CascadeExpression` | src/c/bootstrap_compiler.c:1374-1377 | an expression with a semicolon between two unary messages gives the code of the expression without it |
| `Compiler.CgState.BpNext` | src/c/bootstrap_compiler.c:284-292 | the buffered token first, then the scanner: the unread tokens lose their head |
| `Compiler.CgState.BpUnread` | src/c/bootstrap_compiler.c:294-298 | one token back: the unread tokens are again what they were before it was read |
| `Compiler.CgState.PatchU32` | src/c/bootstrap_compiler.c:687-693 | the four operand bytes at the placeholder, and no others, are replaced |
| `Compiler.CgState.LiteralIndex` | src/c/bootstrap_compiler.c:695-714 | the pool holds the literal at the index given, and no index given before changes its literal |
| `Compiler.CgState.OuterTemp` | src/c/bootstrap_compiler.c:798-815 | the slot of the first enclosing scope that has the temporary, -1 for none |
| `Compiler.CgState.OuterArg` | src/c/bootstrap_compiler.c:817-836 | the slot of the first enclosing scope that has the argument, -1 for none |
| `Compiler.CgState.SkipTo` | src/c/bootstrap_compiler.c:1017-1039 | reads to the token that closes the open bracket, counting nested ones, or to the end of the text |
| `Compiler.CgState.CaptureBlock` | src/c/bootstrap_compiler.c:1464-1486 | the text between a bracket and the one that closes it |
| `Compiler.CgState.EmitVariable` | src/c/bootstrap_compiler.c:1164-1195 | the push instruction for a name, by own temporaries, own arguments, enclosing arguments, enclosing temporaries, fields, globals |
| `Compiler.CgState.ParseBlock` | src/c/bootstrap_compiler.c:1215-1282 | a block literal is compiled as a body of its own, in one try or two, with its slots after all of its surroundings', and is entered in the shared table under its number |
| `Compiler.CgState.CompileBlockText` | src/c/bootstrap_compiler.c:1085-1123 | the first try and, when that is rejected, the second: the outcome and the block table of both, whatever the first has entered staying in it |
| `Compiler.ImplicitSource` | src/c/bootstrap_compiler.c:970-1015 | the second source: trimmed, `^` after a first pair of bars or in front, or none when it is empty, has an open bar or is too long |
| `Compiler.CgState.EmitPrimaryToken` | src/c/bootstrap_compiler.c:1125-1282 | on every token stream: outcome, unread tokens, code, pool and block table are those of the primary routine's specification |
| `Compiler.CgState.ParseUnaryExpression` | src/c/bootstrap_compiler.c:1290-1311 | a primary, then every identifier after it as a send, on every token stream |
| `Compiler.CgState.ParseBinaryExpression` | src/c/bootstrap_compiler.c:1313-1354 | unary expressions joined by one- or two-token operators, left to right, on every token stream |
| `Compiler.CgState.ParseContinuation` | src/c/bootstrap_compiler.c:1356-1450 | the messages after a primary already compiled, keyword parts gathered into one selector, on every token stream |
| `Compiler.CgState.ParseExpression` | src/c/bootstrap_compiler.c:1452-1462 | a primary and its messages, on every token stream |
| `Compiler.CgState.ParseWhileTrue` | src/c/bootstrap_compiler.c:1515-1559 | condition, test, body and jump back, with the exit patched to the end; or nothing consumed when it is no loop, what was emitted staying behind |
| `Fallback.LoopResidue` | src/c/bootstrap_compiler.c:1515-1559 | a failed try at a loop leaves the output as it was if and only if the statement has not the shape `[..] whileTrue: [..]`, or its condition starts, after open parentheses, with something that starts no expression |
| `Fallback.FallbackIff` | src/c/bootstrap_compiler.c:1615-1640 | a bracket statement that is no loop is compiled to its own code if and only if the try left nothing, and is never accepted when it would not be by itself; where it is by itself rejected with the block table full, it is rejected so with the try too |
| `Fallback.NeverRescued` | src/c/bootstrap_compiler.c:1615-1625 | a rejection with the block table full is final: no fallback takes it back |
| `Fallback.StatementsInStep` | src/c/bootstrap_compiler.c:1587-1749 | on top of other output a statement list is accepted alike and grows code and block table by as much, unless the table becomes full |
| `Fallback.LeftoverCondition` | src/c/bootstrap_compiler.c:1488-1501 | a condition that goes on after its first expression leaves exactly that expression's postfix code behind |
| `Fallback.LeftoverRuns` | src/c/bootstrap_compiler.c:1615-1640 | such a statement evaluates that expression once before its own code starts, and its value stays on the stack |
| `Fallback.LoopFallback` | src/c/bootstrap_compiler.c:1488-1501 | `[self foo. self] whileTrue: []` is accepted, with one send of `foo` too many |
| `Fallback.FullTable` | src/c/bootstrap_compiler.c:1264-1270 | with one place left in the block table, a statement is rejected with the same output with the try as without, although the try left a place taken |
| `Retry.RetryIff` | src/c/bootstrap_compiler.c:1094-1107 | on all tokens: statements are rejected at first and accepted with `^` before them if and only if they start with a loop that is compiled in line and goes on, neither ending there nor with a period, and the whole is one expression with the places for blocks that are left |
| `Retry.SecondTryIff` | src/c/bootstrap_compiler.c:1085-1123 | from a block's source on: the second try is the one that is accepted exactly then, and its blocks are numbered after all that the first try has entered |
| `Retry.SecondTryAccepted` | src/c/bootstrap_compiler.c:1094-1107 | `[self] whileTrue: [] foo` in a block: rejected, then accepted with two more blocks |
| `Retry.SpaceLost` | src/c/bootstrap_compiler.c:970-981 | a last character literal that is a space is one token, and none in the second source |
| `Compiler.CgState.ParseReturn` | src/c/bootstrap_compiler.c:1604-1640 | `^` and its expression, with a local or a non-local return and what may follow, on every token stream |
| `Compiler.CgState.ParseAssignment` | src/c/bootstrap_compiler.c:1640-1700 | a value and the store of it, to the slot that the name has, on every token stream |
| `Compiler.CgState.ParseStatements` | src/c/bootstrap_compiler.c:1587-1749 | a whole statement list, on every token stream: outcome and all outputs are those of its specification |
| `Compiler.CgState.ParseTempDecls` | src/c/bootstrap_compiler.c:1561-1585 | the declared names, clipped to 31 characters, or failure on anything else between the bars |
| `Compiler.CgState.ParseBlockHeader` | src/c/bootstrap_compiler.c:727-762 | the block's argument names up to the bar, or failure |
| `Compiler.CgState.Compile` | src/c/bootstrap_compiler.c:1751-1805 | a whole body, method or block: accepted with this code, pool and frame sizes, or rejected, as the specification says, with the same block table |
| `Entry.CodegenBody` | src/c/bootstrap_compiler.c:1751-1816 | a method's text from its characters on: accepted or rejected as its tokens decide |
| `Trees.ParseExpr` | src/c/bootstrap_compiler.c:1284-1462 | on the tokens of any cascade-free precedence tree the one-token parser consumes exactly those tokens and emits exactly the postfix code of that tree |
| `Trees.NameRoute` | src/c/bootstrap_compiler.c:1702-1730 | a statement that starts with a name reaches the parser another way and emits the same code |
| `Programs.ParseStmts` | src/c/bootstrap_compiler.c:1587-1749 | on the tokens of any statement list within the grammar the compiler consumes them and emits the code of those statements, loops patched |
| `Execution.CompileMethod` | src/c/bootstrap_compiler.c:1751-1805 | a method of the grammar compiles to the code of its statements, or does not fit the fixed buffers |
| `Grammar.ExprShape` | src/c/bootstrap_compiler.c:1125-1462 | tokens that are parsed as an expression without a block are those of a precedence tree and what is left over, which is empty or starts with a period or a closing parenthesis or bracket |
| `Grammar.StmtsShape` | src/c/bootstrap_compiler.c:1515-1749 | tokens that are parsed as statements without a block, loops included, are those of a statement list of the grammar, and all are read |
| `Grammar.SourceAcceptedIff` | src/c/bootstrap_compiler.c:1751-1816 | the compiler accepts exactly the grammar: where no buffer overflows, a text without semicolons is compiled without a block if and only if its tokens are a method of the grammar that returns somewhere |
| `Grammar.BlockAcceptedIff` | src/c/bootstrap_compiler.c:1085-1123 | the same for the first try at a block in its surroundings: exactly the grammar's blocks |
| `Machine.U32RoundTrip` | src/c_vm/interpret.c:98-107 | an operand written low byte first is read back |
| `Machine.RunSplit` | src/c_vm/interpret.c:2742-2753 | a run of a + b instructions is a run of a followed by one of b |
| `Meaning.RunTerm` | src/c_vm/interpret.c:2754-2950 | the postfix code of an expression pushes its value, leaves all above the stack pointer, stores nothing but what its sends store, and raises the stack by one |
| `Execution.RunStmt` | src/c_vm/interpret.c:2792-3012 | one statement, loops and back-patched jumps included: same variables and heap as direct execution, stack as deep as before |
| `Execution.RunLoop` | src/c_vm/interpret.c:2977-3005 | a `whileTrue:` loop runs as often as its condition is not `false`, and as long as the fuel when it does not end |
| `Execution.RunBody` | src/c_vm/interpret.c:2742-2976 | with any fuel the machine has ended as direct execution has, everything above the receiver's place unchanged, or has run for longer than the fuel |
| `Execution.BodyCorrect` | src/c/bootstrap_compiler.c:1125-1805 | for methods and blocks: the compiled body returns a value with a heap, leaves its home with one, or runs off its end exactly when direct execution does, for arbitrary sends; a body that does not end does none of these |
| `Execution.CompilerCorrect` | src/c/bootstrap_compiler.c:1125-1805 | the compiled method returns a value with a heap exactly when direct execution of its source does, and runs off the end of its code exactly when execution gets there; its sizes are those of its header |
| `Execution.CompileBlockLiteral` | src/c/bootstrap_compiler.c:1085-1123 | a block of the grammar is compiled by the first try, in the scope of its surroundings, to its statements' code |
| `Execution.BlockCorrect` | src/c/bootstrap_compiler.c:1085-1805 | a block literal compiled in its surroundings: it answers its last expression, or nil when it returns nothing anywhere, leaves its home with a returned value, or runs off its end, exactly when direct execution does |
| `Stores.StoreThenRead` | src/c/bootstrap_compiler.c:1640-1700 | run the store that is emitted for a name, at any depth of blocks: the name is read as the word stored if and only if it names no argument in scope or is an own temporary's, and every other name is read as before |
| `Stores.StorableIff` | src/c/bootstrap_compiler.c:1640-1700 | a name can be assigned to if and only if it is a temporary's, of any scope around, or a field's |
| `Stores.SlotsInFrame` | src/c/bootstrap_compiler.c:787-794 | the slots that a scope's code names are in its frame if and only if it is a method's, or has no arguments or no temporaries |
| `Constants.ConstantReturned` | src/c/bootstrap_compiler.c:2459-2531 | a method that returns a literal returns 3 for nil, 7 for true, 11 for false, four times an integer and one, sixteen times a character's code and fifteen |
| `Constants.AtomCodes` | src/c/bootstrap_compiler.c:1125-1195 | the byte codes of names and literals, as numbers: 3 for the receiver, 17 for the context, 0 for what is in the pool |
| `Constants.SlotCodes` | src/c/bootstrap_compiler.c:1164-1195 | the byte codes of a method's temporaries, arguments and fields, as numbers: 2, 15 or 1 and the slot, lowest byte first |
| `Constants.FalseLoop` | src/c_vm/interpret.c:2989-3005 | a loop whose condition is `false` runs its body no time |
| `Constants.EndlessLoop` | src/c_vm/interpret.c:2989-3005 | a loop whose condition is another literal, with a body that comes to its end, still runs after any number of instructions |
| `Constants.LoopReturnFallsOff` | src/c/bootstrap_compiler.c:1604-1640 | a method that ends with a loop whose body returns and whose condition is `false` is accepted, and gets stuck at the end of its code |
| `Entry.ActivationHolds` | src/c_vm/frame.c:35-65 | the stack that a method activation builds holds, for the compiled code, the receiver, the arguments by name and 0 in every temporary |
| `Entry.SourceRuns` | src/c_vm/interpret.c:2742-3012 | end to end: text, tokens, code, activation and run give the value and heap of direct execution, and no other; the run gets to the end of the code exactly when execution does |
| `Entry.AcceptedRuns` | src/c/bootstrap_compiler.c:1751-1816 | the two together: any text without semicolons and `thisContext` that is accepted, without a block, is a method of the grammar, and entered on a stack with room for it, it returns, or gets to its end, as direct execution of that method does |
| `Blocks.BlockReferred` | src/c/bootstrap_compiler.c:1264-1280 | the instruction for a block literal refers to a literal with the block's number, and there in the table its body is |
| `Blocks.BlockHolds` | src/c_vm/interpret.c:682-720 | in the frame of a block that is called, each name that the block declares holds 0 or its argument, every other name what it stood for where the block was made |
| `Blocks.BlockRuns` | src/c_vm/interpret.c:3017-3135 | end to end for blocks: compiled in a scope, made in a frame of it, called later on any stack and run, a block does what direct execution of its statements does with the values around it as they were when it was made |
| `Machine.Branches` | src/c_vm/interpret.c:2977-3005 | both conditional jumps take the top word; one goes exactly on 0x07, the other exactly on 0x0B |
| `Machine.DuplicateDropped` | src/c_vm/interpret.c:2754-3012 | a duplicate that is dropped leaves the stack as it was |
| `Interpreter.Interp.StepOnce` | src/c_vm/interpret.c:2745-3249 | one byte code on the stack array and the registers does what the step function says |
| `Interpreter.Interp.Interpret` | src/c_vm/interpret.c:2742-3249 | the dispatch loop ends as the run of as many instructions ends: value, budget or trap, with the same state |
| `Frames.ActivatedFrame` | src/c_vm/frame.c:35-65 | where an activation puts saved registers, method, flags, receiver and zeroed temporaries, and that it leaves all else |
| `Frames.FieldsDescribe` | src/c/primitives.c:824-891 | the fields of a context describe its frame: receiver, method, arguments in order, block flag, temporaries and stack |
| `Frames.ReactivatedImage` | src/c_vm/frame.c:67-126 | a context activated anywhere gives a frame that is what its fields describe, with the caller's registers and its context bit |
| `Frames.RoundTrip` | src/c/primitives.c:824-891 | any frame with its stack, reified and activated elsewhere, has the same receiver, method, arguments, temporaries, copied values, stack, argument count and block flag |
| `Activations.Vm.ActivateMethod` | src/c_vm/frame.c:35-65 | the stack array, stack and frame pointer after a method activation |
| `Activations.Vm.FrameReturn` | src/c_vm/frame.c:174-211 | the answer in the receiver's place, the caller's registers back, nothing else on the stack changed |
| `Activations.Vm.ActivateContext` | src/c_vm/frame.c:67-126 | the stack array after a context's activation is the one its fields determine |
| `Activations.Vm.EnsureContext` | src/c/primitives.c:824-891 | the context of a frame and those of its callers are found or made: each new one holds the receiver, method, arguments, slots, block and home of its frame and its caller's context as sender, the running frame's also its operand stack; it fails exactly when there is no room for the first; only flags and context words of frames change, contexts stay distinct and well tagged, and objects only get more |
| `Activations.Vm.PushClosure` | src/c_vm/interpret.c:3017-3116 | a new block has the running frame's context as home, its receiver, and copies of its arguments and all of its slots; it is made exactly when context and block find room; the chain of calls, its tags and its distinct contexts are kept |
| `Activations.Vm.ActivateBlock` | src/c_vm/interpret.c:682-720 | a block call puts the block's receiver under the arguments, its copies into the first slots, 0 into its own, and marks the frame |
| `Activations.BlockFrame` | src/c_vm/interpret.c:1326-1340 | what the frame of a block call holds, word by word, and what stays |
| `Activations.Vm.NonLocalReturn` | src/c_vm/interpret.c:3137-3190 | the search for the home ends; with the home on the chain, and not the entry, stack and registers are those of an ordinary return executed in the home frame |
| `Closures.ReifiedOnce` | src/c/primitives.c:833-836 | a second reification answers the same context and changes neither stack nor objects |
| `Closures.ReifiedRoundTrip` | src/c/primitives.c:824-891 | a frame of a running chain reified with its stack pointer and activated anywhere else is the same activation |
| `Closures.EachReified` | src/c/primitives.c:849-888 | one call leaves every frame of the chain as it was or gives it a context that records that frame, callers without their operand stacks |
| `Closures.SendersAreCallers` | src/c/primitives.c:862-866 | the sender of each new context is the context of its frame's caller, nil at the end of the chain or when the caller has none |
| `Closures.ReifiedHome` | src/c_vm/interpret.c:1300-1324 | reification keeps, for every frame of the chain, which block it runs and which context is its home |
| `Closures.ReifiedRestores` | src/c_vm/frame.c:67-126 | the new context of any frame of the chain, activated anywhere: same receiver, method and arguments, for the first frame all of the stack, for a caller as many slots as its method declares and nothing below |
| `Closures.CallerSlotsIff` | src/c/primitives.c:853-858 | a caller's context has all of its frame's slots if and only if the frame runs no block, or one without copied values |
| `Closures.HomeIsNearest` | src/c_vm/interpret.c:3145-3178 | the home search finds a frame exactly when one on the chain has the context, and the nearest such |
| `Closures.HomeIsCreator` | src/c_vm/interpret.c:3145-3178 | on a chain of distinct contexts the home found is the frame that created the block, from any number of frames below |
| `Closures.ReturnsFromMethodIff` | src/c_vm/interpret.c:3137-3178 | the frame that a non-local return leaves is the creator's, and it is the method's own frame if and only if the creator runs no block |
| `Closures.NestedReturn` | src/c_vm/interpret.c:3095-3114 | a method, its block and a block inside that: the inner block's return leaves the outer block, not the method |
| `Runs.StepKeeps` | src/c_vm/frame.c:35-211 | stores into stack and objects, calls, block calls, block creation, reifications, resumed contexts, returns and non-local returns all keep frames a chain of calls, with well-tagged and distinct contexts |
| `Runs.RunKeeps` | src/c_vm/frame.c:35-211 | so a run from a sound state ends in a sound one: non-local return, block creation and reification find what they ask for |
| `Runs.RunsFromEmpty` | src/c_vm/frame.c:35-211 | a stack without frames is sound, and so is every state of every run from there |
| `Runs.CallReturns` | src/c_vm/frame.c:174-211 | a call, of a method or a block, and the return from it: the caller's registers are back, the answer is where the receiver was, and all above is as it was |
| `Runs.SameFrameFrom` | src/c_vm/interpret.c:1300-1324 | a frame that stays on the chain through any stretch of a run keeps its block, its home and the context that it has got |
| `Runs.BlockReturns` | src/c_vm/interpret.c:3095-3178 | a block made at any point of a run and called at any later one, whatever comes between and after: as long as its maker's frame stays on the chain and nobody stores into the block's home, its non-local return does what an ordinary return in that very frame does, and nothing else |
| `Runs.NonLocalIsReturn` | src/c_vm/interpret.c:3137-3178 | in every such state, with the creator on the chain, a non-local return does what an ordinary return in the creator's frame does, and nothing else |
| `Closures.CapturedAtRun` | src/c/bootstrap_compiler.c:787-836 | end to end: the instruction that the compiler emits in a block for a variable around it, run in the block's frame, pushes what that variable was when the block was made |
| `Closures.MadeThenRun` | src/c_vm/interpret.c:3095-3114 | a block made in one frame and run on any stack finds its creator's arguments and slots in its first slots, and its creator's context as home |
| `Activations.NewContextDistinct` | src/c/primitives.c:849-853 | making a context keeps the contexts of a chain distinct |
| `Captures.EmittedPush` | src/c/bootstrap_compiler.c:1164-1195 | the instruction emitted for a name pushes the variable that the name resolves to |
| `Captures.BlocksNested` | src/c/bootstrap_compiler.c:1085-1097 | the scopes in which blocks are compiled, however deep, have their slots after those of all their surroundings |
| `Captures.SameVariable` | src/c/bootstrap_compiler.c:798-836 | a block sees the variable its surroundings see, if and only if no temporary there bears the name of an argument in scope |
| `Captures.CapturedIff` | src/c/bootstrap_compiler.c:787-836 | the slots that the compiler numbers are those that creation and activation fill, for all values, if and only if an enclosing block has no arguments or nothing but arguments in the whole nest |
| `Captures.ReadAtDepth` | src/c/bootstrap_compiler.c:787-836 | at any depth a block finds for each variable what its owner's frame held when the copies were made |
| `Captures.ArgumentMissed` | src/c/bootstrap_compiler.c:817-836 | a nest in which the inner block reads an outer temporary for its block's argument |
| `Captures.TemporaryOutside` | src/c/bootstrap_compiler.c:787-794 | a block with an argument and a temporary whose slot lies outside its frame |
| `Captures.ShadowMissed` | src/c/bootstrap_compiler.c:798-836 | a temporary named like the method's argument, which the inner block does not find |
| `ObjectMemory.Om.constructor` | src/c_vm/object.c:108-152 | an empty heap is consistent, and no page is dirty |
| `ObjectMemory.Om.Alloc` | src/c_vm/object.c:601-696 | a new object has the class, format and size given and zeros in its slots, and no other word changes; it goes to the lowest page that can be used again, else to the free word, or to the next page when it would cross into it; all tables stay exact; refused exactly when neither has room |
| `ObjectMemory.Om.EnterTables` | src/c_vm/object.c:664-689 | used, first, covering, state and reusable entries after an allocation, for every page it overlaps and no other |
| `ObjectMemory.Om.ReleasePage` | src/c_vm/object.c:291-306 | a released page has no entries, is clean and can be used again, its objects are gone, every other page's entries are as they were |
| `ObjectMemory.Om.NextObject` | src/c_vm/object.c:407-449 | the lowest live object above the given one, found from the tables alone, 0 exactly after the last |
| `ObjectMemory.Om.MarkRangeDirty` | src/c_vm/object.c:308-330 | exactly the pages that the range overlaps become dirty |
| `ObjectMemory.Om.MarkFieldDirty` | src/c_vm/object.c:341-350 | exactly the page of the field becomes dirty |
| `ObjectMemory.WalkVisitsAll` | src/c_vm/object.c:407-449 | a walk from the lowest object on visits every live object, in address order |
| `Heap.BumpKeeps` | src/c_vm/object.c:601-696 | allocation at the free word keeps objects apart and all tables exact |
| `Heap.RecycleKeeps` | src/c_vm/object.c:623-640 | allocation in a recycled page keeps them too |
| `Heap.ReleaseKeeps` | src/c_vm/object.c:291-306 | so does the release of a page that holds whole objects only |
| `Heap.BumpLeavesNoHoles` | src/c_vm/object.c:642-648 | without releases every page below the free word is in use, and one with a gap is followed by one that starts with an object |
| `Heap.UsedIsReach` | src/c_vm/object.c:684-687 | a page's used words end where some object of the page ends in it |
| `Image.PointersToOffsets` | src/c_vm/object.c:484-521 | walking page by page, spanning objects several times, every slot of every live object is converted exactly once and no other word changes |
| `Image.OffsetsToPointers` | src/c_vm/object.c:523-599 | the same for an image and its encoded tables, whose entries for absent objects are never followed |
| `Image.ConvertTwice` | src/c_vm/object.c:36-66 | converting a converted word changes nothing when the heap lies above its own offsets |
| `Image.WordRoundTrip` | src/c_vm/object.c:36-66 | a word goes out and comes back relocated if and only if it is untagged, below 8, or beyond the offsets and not the last half-word |
| `Image.PointersSurvive` | src/c_vm/object.c:36-66 | pointers to objects of the heap do |
| `Image.WordsLost` | src/c_vm/object.c:36-66 | a tagged word among the offsets, and one in the last half-word, that do not |
| `Image.ImageRoundTrip` | src/c_vm/object.c:484-599 | an image loaded at another base is the heap with its pointers shifted and nothing else changed, if and only if all words in slots survive |
| `Image.ConvertedObject` | src/c_vm/object.c:484-521 | object by object: class and fields that point into the heap become their offset plus 8, all other words are as they were, format, size and bytes among them |
| `Image.MovedObject` | src/c_vm/object.c:523-599 | object by object: in a heap that has moved, class and fields that point into it are moved, and nothing else is |
| `Checkpoint.CopyPage` | src/c_vm/interpret.c:1745-1764 | a page converted by itself, from its covering object, is that page of the whole conversion, padded with zeros |
| `Checkpoint.PagesMakeImage` | src/c_vm/interpret.c:464-509 | the pages, one after the other, are the heap converted at once |
| `Checkpoint.ConvertedIsEncoded` | src/c_vm/interpret.c:464-509 | the page-at-a-time and the whole-heap conversion have one result |
| `Checkpoint.StoreField` | src/c_vm/object.c:341-350 | a marked store leaves on disk, for every clean page, what a rewrite would write there |
| `Checkpoint.StoreByte` | src/c_vm/object.c:352-361 | so does a marked store of one byte |
| `Checkpoint.WritePages` | src/c_vm/interpret.c:1745-1790 | each page is the old file's where that is usable and the page clean, and written anew otherwise; its entry is the checksum of the page written anew |
| `Checkpoint.WriteCheckpoint` | src/c_vm/interpret.c:1592-1880 | an incremental checkpoint over any old file is the file of a full one if and only if each page that it copies is there as it would be written anew, which it is when the clean pages are on disk; header, tables and the offsets of the five roots are at their places, the generation is the old one and one more, or 1; it is valid if and only if no page below the free word is released and every written page has the checksum of the page of a full one; nothing is dirty after it |
| `Checkpoint.UsableIff` | src/c_vm/interpret.c:1682-1703 | an old file is copied from exactly when it is valid, word by word, of pages of 4096 bytes and of as many as the heap has now |
| `Checkpoint.TwoPaths` | src/c_vm/interpret.c:1682-1790 | a store, a checkpoint to a fresh path and one to the last file's: the second is right if and only if the store changed nothing of its page |
| `Checkpoint.AllocUnmarked` | src/c_vm/object.c:642-696 | an object allocated in a page that is on disk, with no store into it: the next checkpoint to the same path is not right unless its size is 0, and is invalid where the checksum tells the page with it from the one without |
| `Checkpoint.ReleasedPageInvalid` | src/c_vm/interpret.c:1592-1880 | a heap of one object, its page released: its checkpoint is no valid file |
| `Checkpoint.ReadBack` | src/c_vm/interpret.c:344-352 | header, tables and pages are read back from where they were written |
| `Checkpoint.Validate` | src/c_vm/checkpoint.c:232-324 | a file is valid exactly when it is complete, its header and entries are legal and all checksums match |
| `Checkpoint.ValidateHeader` | src/c_vm/checkpoint.c:80-117 | magic, page size, every page's entry and the metadata checksum |
| `Checkpoint.WrittenIsCheckpoint` | src/c_vm/interpret.c:1592-1880 | the file of a heap without released pages is one that a restart can load |
| `Checkpoint.ValidIff` | src/c_vm/checkpoint.c:80-117 | validity word by word: mark, page size, states and empty entries of free pages, the checksum of header and tables, the checksum of each page |
| `Checkpoint.ChangeRefused` | src/c_vm/checkpoint.c:232-324 | a valid file that is changed in words that the checksum tells apart, its checksum words left, is refused |
| `Checkpoint.RootFound` | src/c_vm/interpret.c:1669-1673 | each of the five roots that the header names is found at the same place of the loaded heap if and only if it is an object |
| `Checkpoint.Restart` | src/c_vm/interpret.c:1880-2042 | an invalid file is refused; a checkpoint's is loaded at another base as the old heap, moved, if and only if the words in its slots survive; symbol table, classes and dictionary are found through the header, moved, if and only if they are objects |
| `Log.ValueRoundTrip` | src/c/primitives.c:115-135 | a logged value is decoded relocated if and only if it is untagged, below 8, a pointer into the image, or out of reach at both ends |
| `Log.Append` | src/c/primitives.c:150-221 | one frame with the encoded stores and their checksum, or nothing when a store is into an object outside the heap |
| `Log.ReplayInPlace` | src/c/primitives.c:223-330 | the replay loop leaves in the heap array what the replay function says, and accepts or refuses as it does |
| `Log.CrashRecovery` | src/c/primitives.c:223-330 | for every log and every cut of its file, replay at another address gives the heap with exactly the complete transactions applied, in order, moved there |
| `Log.TornFrame` | src/c/primitives.c:268-281 | of a frame that is cut, nothing is applied |
| `Log.SpoiledFrame` | src/c/primitives.c:268-284 | a whole frame whose body has not the checksum given, and all after it, is not applied; another mark, or more entries than can be read, is refused |
| `Log.OutsideRefused` | src/c/primitives.c:285-300 | the first entry for an object outside the heap ends the replay in refusal, with the stores before it applied |
| `Log.OneStore` | src/c/primitives.c:285-326 | a store writes its value into that field, or its low byte into that byte, and nothing else |
| `Log.WholeFrame` | src/c/primitives.c:285-326 | a whole frame is applied and what follows it is replayed next |
| `Log.ReplayTwice` | src/c/primitives.c:285-326 | replaying any log again, whole words and single bytes mixed, changes nothing |
| `Log.ImageThenCrash` | src/c_vm/interpret.c:1836-1866 | after a crash between writing the new image and clearing the log, recovery gives the same heap as from the old image |
| `GraphCheck.Checker.VerifyObject` | tools/gc_stress.c:309-370 | one object and all it refers to, on cyclic graphs too: what is newly recorded agrees with the heap, and any matching assignment is found |
| `GraphCheck.Checker.VerifyRoots` | tools/gc_stress.c:386-393 | the walk ends without abort if and only if heap and model can be matched: class, format, size, every byte, every raw field and every reference; and what it recorded is a match |
| `GraphCheck.CoversReachable` | tools/gc_stress.c:309-393 | an agreement that covers the roots covers every object reachable from them: class, format, size, bytes and fields |
| `GcRoots.Collector.CountLogRoots` | src/c_vm/interpret.c:927-942 | the count is the number of locations that collecting and restoring visit |
| `GcRoots.Collector.CollectRoots` | src/c_vm/interpret.c:1051-1083 | every root location's word, in order, fills the array exactly |
| `GcRoots.Collector.RestoreRoots` | src/c_vm/interpret.c:1088-1097 | the array's words go back to the same locations in the same order |
| `GcRoots.ForwardAll` | src/c_vm/interpret.c:1080-1097 | aliased or not, each root location ends with the forwarded value of what it held |
| `GcRoots.Collector.SwapSpaces` | src/c_vm/interpret.c:1099-1108 | the two spaces change roles, the emptied one is empty, and the layout predicate holds again |
| `GcRoots.Collector.Register` | src/c_vm/object.c:80-94 | a context is known afterwards if and only if it was or there was a place left; nobody is entered twice |
| `GcRoots.Located` | src/c_vm/interpret.c:943-1083 | the locations walked are the stack slots, class, block and signalled exception of each handler, both slots of each `ensure:` frame, object and value of each log entry, and the class table, and no others |
| `GcRoots.Collector.CollectAndRetry` | src/c_vm/interpret.c:1042-1120 | each of these locations, whatever its roles, holds the forwarded value of what it held, and every word at none of them is as it was; the instruction pointer is at the same place of the moved code, the layout kept; refused exactly for a context that is not registered or has not the layout |
| `Tagged.UntagTag` | src/c_vm/tagged.c:5-13 | an integer comes back from its tagged word if and only if it has 62 bits |
| `Tagged.TagUntag` | src/c_vm/tagged.c:5-13 | a tagged word comes back from its integer |
| `Tagged.ExactSums` | src/c_vm/tagged.c:80-88 | sums and differences of tagged words are the tagged exact results, if and only if these fit |
| `Tagged.Ordered` | src/c_vm/tagged.c:90-98 | comparing words compares their integers |
| `Tagged.TrySmallInt` | src/c_vm/interpret.c:2070-2146 | the primitives succeed exactly on SmallIntegers whose mathematical result is one and leave it, or 7 or 11 for a comparison, and otherwise leave the stack as it was |
| `Chunks.PrintParse` | src/c/bootstrap_compiler.c:1928-2091 | a printed list of well-formed chunks is parsed as that list |
| `Chunks.SectionsParse` | src/c/bootstrap_compiler.c:1928-2091 | a file of any headers, each followed by any number of methods, with blanks around all of them, other segments in between and a rest without a mark, gives its methods, each with class, side and category of the header before it |
| `Chunks.HeaderBack` | src/c/bootstrap_compiler.c:1972-2030 | a printed header gives back class, side and category |
| `Chunks.ParseMethodChunks` | src/c/bootstrap_compiler.c:1928-2091 | the parser, in place, gives the chunks and the verdict of its specification on every text |
| `Globals.Globals.Intern` | src/c/primitives.c:654-694 | names equal as bytes share one symbol, and interning keeps it so: the existing symbol when there is one, else a new one exactly when memory and table have room; no other name's symbol changes |
| `Globals.Globals.Put` | src/c/bootstrap_compiler.c:2277-2365 | the table is a map: this name has this value now, keeps the association it had, and no other name changes, across doublings; it fails exactly for a new name without room for all it takes; the tally stays within capacity |
| `Globals.Globals.Lookup` | src/c_vm/interpret.c:573-608 | the value last put under a name, nil for none |

## Left out

- Activations.Vm.NonLocalReturn: when the home is not on the chain it answers `Unhandled`; the resumption of a sender context and the `cannotReturn:` send that follow there are not modelled.
- Activations.Vm.FrameReturn: does not model the resumption of a sender context when there is no calling frame.
- Activations.Vm.EnsureContext: the saved instruction pointer of a context is an arbitrary function of the frame, since resuming from it is not modelled.
- Activations.Vm.PushClosure: answers false when memory is used up; the collection and retry that follow are the subject of `GcRoots`.  Memory is that of an unregistered heap: the next free word, without page skipping.
- Interpreter.Interp.StepOnce: block creation and `thisContext` trap here, and a non-local return ends the run with its value; they are the subject of `Activations`.  Sends are an arbitrary function.
- Interpreter.Interp.Interpret: the same byte codes trap.
- Entry.SourceRuns: for the grammar of `Execution.CompilerCorrect`.
- Entry.AcceptedRuns: for the texts of `Grammar.SourceAcceptedIff`.
- Compiler.CgState.EmitVariable: fields come from a given list; without a target class the source registers unknown names as fields as it goes.
- Grammar.SourceAcceptedIff: for texts whose closing brackets are followed by something other than another one, so that a loop that is a last statement has its period, and with literal arrays only where there are no brackets; what is compiled to blocks is said of each block by `Grammar.BlockAcceptedIff`.
- Retry.SecondTryIff: for sources that start and end with something other than a space and declare no temporaries; with temporaries `Retry.RetryIff` says it of the statements after them.
- Execution.RunBody: a send that reifies the running frame rewrites its flags and context word, and those of its callers (src/c/primitives.c:885-887); the sends of this machine leave both, and "everything above unchanged" is said for such sends.  What a reification rewrites is the subject of `Activations`.
- Execution.CompilerCorrect: leaves out `super` sends (compiled as sends to self), block literals inside the body as values, `thisContext`, and stores that go through a transaction log.
- Execution.BlockCorrect: for blocks without blocks inside them, as in `CompilerCorrect`.
- Blocks.BlockRuns: for blocks with arguments or temporaries, not both, made where `Captures.CapturedIff` and `Captures.SameVariable` hold; `Captures` has nests where they do not.
- Lexer.BtNext: integer literals are unbounded and characters are not limited to bytes.
- Image.OffsetsToPointers: an image is loaded from a heap built by allocation alone; with released pages the entries for absent objects would be followed.
- Checkpoint.Restart: the replay of the log and the lookup of globals after the load are the subjects of `Log` and `Globals`; the class table's offset is in the header and not looked for.
- Checkpoint.WriteCheckpoint: writing does not fail, and clearing the log is the subject of `Log.ImageThenCrash`.
- Log.CrashRecovery: stores are into objects of the checkpointed image and of values that survive; appending after a torn frame without clearing the log is not covered.
- Log.ReplayInPlace: the file is a sequence of whole words, which is what a reader of whole words sees of a file cut inside one; dirty marks on a registered heap are not modelled.
- ObjectMemory.Om.Alloc: sizes are such that no address wraps around; a heap that is not registered has no tables and is not modelled.
- GcRoots.Collector.CollectAndRetry: the collector is its contract on its roots, and the chains of handler, `ensure:` and log frames are sequences rather than linked records.
- Globals.Globals.Put: symbols and associations are objects by address with their contents, not words of object memory, which is an unregistered heap.
- GraphCheck.Checker.VerifyRoots: a pointer outside the heap stops the walk, where the code reads whatever is there.
- `on:do:`, `ensure:`, signals and nested calls of the interpreter: control through C frames is outside a step model.
- `gc_collect`, `gc_collect_stack_slots` and the in-memory transaction log: their sources are not part of this model.
- Files, `fsync`, `rename`, memory exhaustion in C buffers and file descriptors: files are sequences and operations on them succeed.
- Class definition, method installation and lookup, character and string primitives, the language server and the stress supervisor: easy members or scaffolding.
