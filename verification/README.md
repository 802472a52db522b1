# Kofun compiler cores, modelled and verified

A Dafny model of the cores of the Kofun bootstrap compilers whose correctness is
not visible from any one function, with proofs of what they promise.

**The function-profile back end** (`bootstrap/native/core_compiler.c`). A typed
program of functions over `Int`, `Bool` and `Text` is lowered to x86-64 and to
AArch64. The model has the source trees and their big-step meaning (value, trap
with its kind, or out of calls, always with the trace of prints and system calls),
the pressure analysis, the register and slot allocator, both lowerings, and an
abstract machine with registers, flags, a stack in memory, relative branches and
calls. `WholeProgram.CompilationIsExact` says that a well-typed program's image
exits with a value exactly when the program means that value, traps with a kind
exactly when the program means that trap, runs forever exactly when the program
has no meaning, and never crashes. `Compilation.Compile` is the compiler itself,
appending to and patching its buffer in place; it produces an image to which that
theorem applies. `WholeProgram.TargetsAgree` follows: both targets do the same.

**The bytes** of the same back end: instruction encoding, immediates, branch
patching, linking of call, trap and print sites, the integer print routines and
the DWARF line table.

**Match analysis** (`bootstrap/stage2/adt_exhaustiveness.c`): or-patterns,
parentheses, catch-alls and guards, from the source arms to the verdict.

**The Stage 1 typings** (`bootstrap/stage1/compiler.c`): the validator's one-pass
typing against the lowerer's recursive splitting of the same text.

**Effect inference** (`bootstrap/stage2/effect_inference.h`) and the
**visible-set collision reporter** with its cache key
(`bootstrap/stage2/confusable_visible_set.c`).

## Layout

| files | what they hold |
|---|---|
| `Words`, `Division`, `Core` | machine words, flooring division, the source trees and their meaning |
| `Typing` | the parser's kinds; no well-typed program gets stuck |
| `Pressure`, `Targets`, `Allocation` | liveness of evaluation depths, locations, the allocator |
| `Machine`, `Blocks`, `Lowering`, `Meaning` | the target machine, straight-line runs, the code each construct becomes, calls over their argument lists |
| `Leaves`, `Frames`, `Preservation`, `Permutations`, `Correctness`, `Activation`, `Execution` | the simulation proof, bottom up |
| `DepthUse` | the analysis against the slots the emitted instructions use |
| `SyscallBoundary`, `SyscallUse` | the check made before the registers of a system call are filled; which code calls the kernel |
| `WholeProgram`, `TailChains` | whole runs and chains of tail calls |
| `Emission`, `Compilation` | the emitters as a class over a growing, patched buffer; the compiler |
| `Buffers`, `Encoding`, `Immediates`, `Patching`, `BranchDecoding`, `Linking`, `PrintInt`, `LineTable` | bytes |
| `Patterns`, `Coverage`, `MatchAnalysis`, `MatchBuilding` | match analysis |
| `Stage1Scanning`, `Stage1Typing`, `Stage1Chains` | the scans over expression text, the two typings, the validator's additive scan |
| `Stage1Agreement`, `Stage1Atoms`, `Stage1Builtins`, `Stage1Scope`, `Stage1Variables`, `Stage1Witnesses` | where the two typings agree, what atoms are, what builtins take and give, the scope as searched text, texts on which they do not |
| `EffectInference`, `ByteOrder`, `Confusables`, `CollisionReports`, `CacheKey` | effects, collisions, their independence of the input order, cache key |
| `Wrappers` | `Option` |

`dafny verify dfyconfig.toml` checks everything.

## Where the code and what is said of it differ

- Validator and lowerer of Stage 1 do not agree on every text. `Stage1Agreement.SameAnswer`
  says where they do: they give the same answer, type or failure, if and only if
  the heads are plain whenever the validator gives a type, and the signs are clean
  whenever the lowerer does. The first condition is read off the text. The second
  is too, except that it asks of each call of a builtin's name that is declared
  again whether the builtin takes it, which is the branch that differs; where no
  builtin's name is declared again, both are read off the text alone
  (`Stage1Scope.SameAnswerUnshadowed`).
  - Heads. The validator looks a call head up by searching `|head|` in one
    bar-joined string, so a head such as `args|chars`, which is two neighbouring
    names, passes as a builtin, while the lowerer compares whole names
    (`Stage1Witnesses.BarHeadBreaksInScope`, the text `args|chars(x)`). A text without a
    bar has plain heads (`Stage1Witnesses.NoBarIsPlain`).
  - Signs. Looking for its additive operators, the validator walks back past
    characters that end no operand until it finds one that does, where the
    splitter of the lowerer looks at the nearest one only. It therefore cuts
    `1*-2` at the minus and `1 + -2` at both signs, and refuses texts the lowerer
    types (`Stage1Witnesses.StraySignBreaks`, `Stage1Witnesses.SpacedSignBreaks`).
    `Stage1Chains.ScanIsSplitting` gives the exact condition for the scan to give
    what splitting at the rightmost operator gives, when that is a type: no
    top-level `+` or `-` whose nearest non-space predecessor ends no operand
    while an earlier character does.
  - Builtins declared again. A call that a builtin's signature refuses falls to a
    declared function of that name in the lowerer only: with `trim(Int) -> Int`
    declared, `trim(1)` is lowered and refused (`Stage1Witnesses.ShadowedBuiltinBreaksInScope`).
- The pressure analysis counts one evaluation depth for a returned call without
  arguments although such a call reads and writes none. `DepthUse.AnalysisIsExact`
  gives the condition: the count is exact unless the body consists of such
  returns alone. `DepthUse.BareTailCountsOne` gives such a body, of a function that returns
  a call of itself.

## Model

| member | source | states |
|---|---|---|
| `Division.FloorIsExact` | bootstrap/native/core_compiler.c:6016-6112 | `//` and `%` satisfy a = q*d + r with r zero or of the divisor's sign |
| `Division.FloorUnique` | bootstrap/native/core_compiler.c:6016-6112 | no other quotient and remainder do |
| `Division.CorrectionFloors` | bootstrap/native/core_compiler.c:6077-6110 | stepping the truncated quotient down, or adding the divisor to the remainder, exactly when the remainder is nonzero and its sign differs, gives the flooring results |
| `Division.QuotientOverflow` | bootstrap/native/core_compiler.c:6037-6058 | the quotient of words is a word unless the least word is divided by -1 |
| `Division.HighHalfTest` | bootstrap/native/core_compiler.c:7918-7931 | a product fits a word if and only if its high half is the sign of its low half |
| `Leaves.AddX64` | bootstrap/native/core_compiler.c:6300-6335 | x86-64 `+` leaves the sum in the result's location or traps exactly on overflow, and disturbs nothing that is live |
| `Leaves.SubX64` | bootstrap/native/core_compiler.c:6300-6335 | the same for `-` |
| `Leaves.MulX64` | bootstrap/native/core_compiler.c:6341-6362 | the same for `*` |
| `Leaves.MulInstrs` | bootstrap/native/core_compiler.c:7918-7931 | AArch64 `*` leaves the product or traps exactly when it does not fit |
| `Leaves.X64DivideAnswer` | bootstrap/native/core_compiler.c:6016-6112 | the guarded, corrected `idiv` sequence computes `//` and `%` of every two words, trapping exactly on zero and on the unrepresentable quotient; the divide instruction never faults |
| `Leaves.DivideX64` | bootstrap/native/core_compiler.c:6016-6112 | and the answer ends in the result's location with everything live kept |
| `Leaves.DivideA64` | bootstrap/native/core_compiler.c:7673-7732 | the same for the AArch64 sequence |
| `Leaves.FlagsDecide` | bootstrap/native/core_compiler.c:5972-6014 | the flags of a difference decide all six comparisons of the two words |
| `Leaves.CompareLeafX64` | bootstrap/native/core_compiler.c:5948-5966 | the comparison of two locations leaves the flags of their difference and nothing live moved |
| `Leaves.CompareLeafA64` | bootstrap/native/core_compiler.c:7595-7622 | the same for AArch64 |
| `Leaves.BinaryLeaf` | bootstrap/native/core_compiler.c:6300-6385 | every operator on every pair of locations, on both targets, ends as the source operator does |
| `Leaves.NegateLeaf` | bootstrap/native/core_compiler.c:6245-6261 | negation traps exactly on the least word |
| `Leaves.MoveLeaf` | bootstrap/native/core_compiler.c:5927-5942 | a move between any two locations copies the value and keeps everything live |
| `Pressure.FunctionPressure.Mark` | bootstrap/native/core_compiler.c:5718-5728 | marks a range of tracked depths and no other |
| `Pressure.FunctionPressure.Expression` | bootstrap/native/core_compiler.c:5739-5795 | adds to the analysis the depth an expression needs and the depths it holds across calls |
| `Pressure.CrossesIsLiveness` | bootstrap/native/core_compiler.c:5739-5795 | within an expression, a depth is marked if and only if some call happens while it holds a value that is read later |
| `Pressure.BodyCrossesIsLiveness` | bootstrap/native/core_compiler.c:5863-5869 | the same for a whole body, where no depth is live between statements |
| `Pressure.TraceCalls` | bootstrap/native/core_compiler.c:5697-5711 | an expression is said to call if and only if its evaluation performs a call |
| `Pressure.NeedIsExact` | bootstrap/native/core_compiler.c:5739-5795 | evaluation touches no depth at or past the computed one and does touch the one before it |
| `DepthUse.UnreadSlot` | bootstrap/native/core_compiler.c:5514-5537 | an instruction not said to read a slot has the same effect whatever the slot holds |
| `DepthUse.UnwrittenSlot` | bootstrap/native/core_compiler.c:5514-5537 | an instruction not said to write a slot leaves it as it was |
| `DepthUse.CodeFollowsTrace` | bootstrap/native/core_compiler.c:6114-6385 | the instructions of an expression, on both targets, use every depth and call as its evaluation does |
| `DepthUse.BodyFollowsTrace` | bootstrap/native/core_compiler.c:6545-6708 | so do the instructions of a body |
| `DepthUse.AnalysisIsExact` | bootstrap/native/core_compiler.c:5739-5795 | a depth is marked if and only if the emitted instructions keep it waiting across a call; the depth counted is one more than the deepest used if and only if the body evaluates anything |
| `DepthUse.BareTailCountsOne` | bootstrap/native/core_compiler.c:5739-5795 | in a well-typed program, for a body that only returns a call without arguments, one depth is counted and none is used |
| `Allocation.RegisterFile.constructor` | bootstrap/native/core_compiler.c:5458-5461 | nothing is taken at first |
| `Allocation.RegisterFile.Take` | bootstrap/native/core_compiler.c:5539-5557 | claims the register declared first among the free ones of a class, or none exactly when all are taken |
| `Allocation.RegisterFile.TakeEval` | bootstrap/native/core_compiler.c:5564-5573 | a depth gets a scratch register before a call-safe one unless it crosses calls, then only a call-safe one, and nothing only when neither is left |
| `Allocation.RegisterFile.TakeValue` | bootstrap/native/core_compiler.c:5582-5594 | a binding never read gets none, one read once a scratch register or none, any other what a depth would get |
| `Allocation.PressureOf` | bootstrap/native/core_compiler.c:5863-5869 | the analysis of every statement of a body |
| `Allocation.AssignDepths` | bootstrap/native/core_compiler.c:5871-5884 | the n-th depth that crosses calls gets the n-th call-safe register, the others the scratch registers and then the call-safe ones left over; only depths that cross calls can end without one |
| `Allocation.AssignSlots` | bootstrap/native/core_compiler.c:5885-5892 | bindings get what is left and never a register of a depth |
| `Allocation.BodyUsesAreReads` | bootstrap/native/core_compiler.c:5797-5828 | the uses counted of a binding are the times the body reads it |
| `Allocation.SpillDepths` | bootstrap/native/core_compiler.c:5893-5901 | the n-th depth without a register gets spill slot n, and the count is how many there are |
| `Allocation.SavedRegisters` | bootstrap/native/core_compiler.c:5902-5906 | the call-safe registers taken, each once, in declaration order |
| `Allocation.FunctionLayout` | bootstrap/native/core_compiler.c:5844-5908 | for any register file with distinct registers: all locations pairwise disjoint and in the frame, only call-crossing depths spilled, those call-safe or spilled, bindings likewise when the body calls |
| `Allocation.LayoutForTarget` | bootstrap/native/core_compiler.c:7451-7515 | the same layout, on either target's file, meets what the lowering needs |
| `Allocation.TargetsDeclared` | bootstrap/native/core_compiler.c:5623-5673 | both targets' register files have distinct registers inside the allocator's bounds |
| `SyscallBoundary.CheckBoundary` | bootstrap/native/core_compiler.c:6199-6217 | the check refuses if and only if an argument waits in a boundary register other than r10, and never does under an allocator's layout |
| `SyscallBoundary.BoundaryUnallocated` | bootstrap/native/core_compiler.c:5641-5673 | r10 is the one boundary register that is ever allocated |
| `Frames.MovesPlace` | bootstrap/native/core_compiler.c:6166-6180 | a sequence of moves, none reading what an earlier one wrote, acts as one simultaneous assignment |
| `Permutations.PlaceAt` | bootstrap/native/core_compiler.c:406-422 | the w-th written argument reaches the declaration slot it is written for |
| `Correctness.BoundaryFilled` | bootstrap/native/core_compiler.c:6166-6180 | at a call every argument register holds its declaration slot's argument, whatever the written order |
| `Correctness.SyscallFilled` | bootstrap/native/core_compiler.c:6218-6235 | at a system call every boundary register holds its argument, r10 filled last |
| `Execution.ExprCorrect` | bootstrap/native/core_compiler.c:6114-6385 | the code of an expression at depth d leaves the source value at depth d or traps as the source does, with the same trace; shallower live depths, bindings and the caller's frame are kept |
| `Execution.ArgumentsCorrect` | bootstrap/native/core_compiler.c:6155-6165 | arguments are evaluated in written order, each at its own depth |
| `Meaning.EachIsWritten` | bootstrap/native/core_compiler.c:6155-6165 | written order is the argument list itself for a system call, the list `argument_order` gives for a call, taken from left to right |
| `Meaning.EachInTurn` | bootstrap/native/core_compiler.c:6155-6165 | each argument's value is its own expression's, evaluated where the one before left off |
| `Meaning.CallMeans` | bootstrap/native/core_compiler.c:6149-6185 | slot s of the callee holds the value of argument s, the arguments evaluated as they are written |
| `Meaning.SyscallMeans` | bootstrap/native/core_compiler.c:6186-6244 | the kernel is asked with, and the trace records, the value of argument i in place i |
| `Execution.CallCorrect` | bootstrap/native/core_compiler.c:6148-6184 | a call yields the callee's result, its trap, or goes on running |
| `Execution.SyscallCorrect` | bootstrap/native/core_compiler.c:6185-6244 | a system call passes its arguments to the kernel and yields the kernel's answer unchanged |
| `Execution.SyscallAsks` | bootstrap/native/core_compiler.c:6190-6235 | when the kernel is called rax, rdi, rsi, rdx, r10, r8 and r9 hold the values of the arguments in that order, evaluated from left to right |
| `Execution.ConcatCorrect` | bootstrap/native/core_compiler.c:6262-6290 | `+` on Text yields the concatenation through the runtime call |
| `Execution.GuardCorrect` | bootstrap/native/core_compiler.c:6551-6603 | a guard's skip branch is taken exactly when its condition is false, whether the answer is in the flags or in a register |
| `Activation.PrologueRuns` | bootstrap/native/core_compiler.c:6501-6546 | the prologue opens the frame, saves the registers used and puts every parameter in its location |
| `Activation.TeardownRuns` | bootstrap/native/core_compiler.c:6398-6410 | the teardown restores every call-safe register, the frame pointer, the stack pointer and the return address, and leaves the result alone |
| `Execution.ReturnCorrect` | bootstrap/native/core_compiler.c:6604-6660 | every return path, plain, jumping to the epilogue or tail call, finishes the function with the returned value |
| `Execution.SelfMovesRun` | bootstrap/native/core_compiler.c:6445-6456 | a self tail call assigns all parameters at once even when arguments read the parameters being overwritten |
| `Execution.TailCorrect` | bootstrap/native/core_compiler.c:6418-6484 | a tail call finishes the function with the callee's result |
| `Execution.BodyCorrect` | bootstrap/native/core_compiler.c:6545-6713 | a body from any statement on finishes as the source does |
| `Execution.FunctionCorrect` | bootstrap/native/core_compiler.c:6501-6715 | entering a function with its arguments in the argument registers yields the source result, trap and trace, with stack pointer, frame pointer, call-safe registers and the caller's memory restored |
| `Typing.OperatorRules` | bootstrap/native/core_compiler.c:2424-2933 | operators take numbers, joining takes texts, and only a comparison gives a truth value |
| `Typing.StatementRules` | bootstrap/native/core_compiler.c:2951-3205 | what each statement asks of its expressions, the following ones checked with the bindings it leaves |
| `Typing.EvalSane` | bootstrap/native/core_compiler.c:2424-2933 | a well-typed expression never gets stuck and its value has its kind |
| `Typing.BodySane` | bootstrap/native/core_compiler.c:2951-3205 | neither does a well-typed body |
| `WholeProgram.ImageCompiled` | bootstrap/native/core_compiler.c:6876-6900 | every function's code stands at the address its calls use |
| `WholeProgram.ProgramCorrect` | bootstrap/native/core_compiler.c:6876-6969 | for any number of calls the image has done what the program means so far |
| `WholeProgram.CompilationIsExact` | bootstrap/native/core_compiler.c:6876-6969 | the image exits, traps or runs forever if and only if the program does, with the same value, trap kind and trace, and never crashes |
| `WholeProgram.TargetsAgree` | bootstrap/native/core_compiler.c:7743-7950 | a program both targets accept has the same value, trap and trace on both |
| `TailChains.HopIsResult` | bootstrap/native/core_compiler.c:5375-5385 | the result of a function that ends in a tail call is the callee's |
| `TailChains.BodyLands` | bootstrap/native/core_compiler.c:6418-6484 | a body that ends in a tail call reaches the callee with the frame of its own caller |
| `TailChains.ChainKeepsStack` | bootstrap/native/core_compiler.c:7960-8026 | along any chain of self and mutual tail calls each callee is entered with the stack pointer, frame pointer, return address, call-safe registers and caller's memory of the first entry |
| `Emission.Emitter.Locate` | bootstrap/native/core_compiler.c:5514-5529 | gives a depth its location and refuses exactly a depth at or past the analysed ones |
| `Emission.Emitter.Patch` | bootstrap/native/core_compiler.c:3476-3490 | aims one remembered branch and changes nothing else |
| `Emission.Emitter.EmitMove` | bootstrap/native/core_compiler.c:5927-5942 | appends the move of a value between two locations |
| `Emission.Emitter.EmitMoves` | bootstrap/native/core_compiler.c:6501-6546 | appends a list of moves in order |
| `Emission.Emitter.X64Divide` | bootstrap/native/core_compiler.c:6016-6112 | appends the division, its local branches patched to where the sequence continues |
| `Emission.Emitter.A64Divide` | bootstrap/native/core_compiler.c:7673-7732 | the same for AArch64 |
| `Emission.Emitter.Compare` | bootstrap/native/core_compiler.c:5948-5966 | appends the comparison of two locations |
| `Emission.Emitter.X64Binary` | bootstrap/native/core_compiler.c:6300-6385 | appends one operator |
| `Emission.Emitter.A64Binary` | bootstrap/native/core_compiler.c:7889-7950 | the same for AArch64 |
| `Emission.Emitter.FillBoundary` | bootstrap/native/core_compiler.c:6166-6180 | appends the moves of written arguments to declaration registers |
| `Emission.Emitter.FillSyscall` | bootstrap/native/core_compiler.c:6218-6235 | appends the boundary moves, skipping r10 and filling it last |
| `Emission.Emitter.Expression` | bootstrap/native/core_compiler.c:6114-6385 | appends the code of an expression; a depth past the analysed ones is refused, exactly when the expression needs one |
| `Emission.Emitter.EvaluateArguments` | bootstrap/native/core_compiler.c:6155-6165 | appends the code of the arguments, listed as they are written, each one depth further out |
| `Emission.Emitter.TailCall` | bootstrap/native/core_compiler.c:6418-6484 | appends a self or mutual tail call |
| `Targets.FrameIsAligned` | bootstrap/native/core_compiler.c:6511-6518 | a frame holds every slot, is a multiple of 16 bytes and wastes at most one word |
| `Emission.Emitter.Teardown` | bootstrap/native/core_compiler.c:6398-6410 | appends the restores and the release of the frame |
| `Emission.Emitter.Guard` | bootstrap/native/core_compiler.c:6551-6603 | appends a guard up to its skip branch |
| `Emission.Emitter.GuardedReturn` | bootstrap/native/core_compiler.c:6551-6629 | appends a guard and its return, the skip branch patched past it |
| `Emission.Emitter.Statement` | bootstrap/native/core_compiler.c:6549-6703 | appends a statement and records the branches that still have to reach the epilogue |
| `Emission.Emitter.Body` | bootstrap/native/core_compiler.c:6545-6708 | appends a body and says whether it returned |
| `Emission.Emitter.AimReturns` | bootstrap/native/core_compiler.c:6709-6712 | aims every recorded return at the epilogue and changes nothing else |
| `Emission.Emitter.Declaration` | bootstrap/native/core_compiler.c:6501-6715 | appends a whole function: prologue, body, epilogue, every branch aimed; refuses exactly when the body asks for a depth the layout does not count |
| `Emission.AskedIsCounted` | bootstrap/native/core_compiler.c:5514-5518 | a body asks for no depth past those the analysis counts |
| `Compilation.NothingRefused` | bootstrap/native/core_compiler.c:5514-5518 | so under the allocator's layout the refusal never happens |
| `Compilation.UsesSyscall` | bootstrap/native/core_compiler.c:3214-3252 | finds out whether any statement of any function reaches a system call |
| `SyscallUse.RefusedAsksKernel` | bootstrap/native/core_compiler.c:6186-6244 | the programs so found are those whose code, under any layouts, calls the kernel |
| `Compilation.Compile` | bootstrap/native/core_compiler.c:6876-6900 | refuses exactly the programs with system calls on AArch64; otherwise lays out and emits every function, and the image is the one the whole-program theorems speak about |
| `Buffers.LittleEndianRoundTrip` | bootstrap/native/core_compiler.c:94-112 | little-endian bytes read back as the value reduced to their width |
| `Buffers.WordRoundTrip` | bootstrap/native/core_compiler.c:94-112 | and every byte string is the little-endian form of what it reads as |
| `Buffers.Bytes.U32` | bootstrap/native/core_compiler.c:99-104 | appends four little-endian bytes |
| `Buffers.Bytes.U64` | bootstrap/native/core_compiler.c:106-109 | appends eight, as two words |
| `Buffers.Bytes.Patch` | bootstrap/native/core_compiler.c:9901-9917 | overwrites a field inside the buffer and nothing else, or refuses |
| `Encoding.EncodeOperand` | bootstrap/native/core_compiler.c:3605-3641 | appends ModRM and displacement, refusing exactly what has no encoding |
| `Encoding.Encode` | bootstrap/native/core_compiler.c:3605-3650 | appends REX, opcode and operand |
| `Encoding.EncodeRoundTrip` | bootstrap/native/core_compiler.c:3583-3641 | an independent decoder recovers opcode, register and register or slot operand from the bytes, and where they end |
| `Encoding.EncodingsDiffer` | bootstrap/native/core_compiler.c:3605-3641 | no instruction's bytes begin another's |
| `Immediates.MovRegisterImm64` | bootstrap/native/core_compiler.c:3709-3729 | appends the shortest of the three forms |
| `Immediates.MovRoundTrip` | bootstrap/native/core_compiler.c:3709-3729 | decoding and executing them leaves exactly the given word in the given register |
| `Immediates.LoadImmediate` | bootstrap/native/core_compiler.c:7352-7376 | appends the halfword moves, skipping zero halves |
| `Immediates.LoadRoundTrip` | bootstrap/native/core_compiler.c:7315-7376 | executing them leaves exactly the given word in the given register and no other changed |
| `Patching.InsertIsExact` | bootstrap/native/core_compiler.c:7186-7238 | inserting an immediate sets its field and keeps every other bit of the word, for imm26, imm19, imm14 and rel32 |
| `Patching.SignedRoundTrip` | bootstrap/native/core_compiler.c:7186-7238 | a displacement in range survives its field |
| `Patching.PatchBranch` | bootstrap/native/core_compiler.c:7166-7238 | the patched branch decodes to the requested offset, no byte outside the field's word and no bit outside the field changes, and it refuses exactly what is out of reach |
| `Patching.DestinationFrame` | bootstrap/native/core_compiler.c:7166-7238 | patching one site keeps where every other site leads |
| `BranchDecoding.DecodeBehind` | bootstrap/native/core_compiler.c:5387-5425 | a branch is read off its own bytes: bytes behind it do not matter |
| `BranchDecoding.DecodeBefore` | bootstrap/native/core_compiler.c:5387-5425 | nor do bytes before it, but for the place it counts from |
| `BranchDecoding.X64Branches` | bootstrap/native/core_compiler.c:5387-5425 | on x86-64 a call, a jump and every conditional jump decode to the distance their four bytes give, counted from behind them |
| `BranchDecoding.FarBranches` | bootstrap/native/core_compiler.c:8386-8398 | `bl` and `b` words decode to the distance in their low 26 bits |
| `BranchDecoding.NearBranches` | bootstrap/native/core_compiler.c:8422-8431 | `b.cond` and `cbz` words decode to the distance in their 19-bit field, keeping condition or register |
| `Linking.PatchAims` | bootstrap/native/core_compiler.c:8386-8431 | a patched site is, by its own opcode, the same instruction as before with the requested target |
| `Linking.ReachMeans` | bootstrap/native/core_compiler.c:8386-8431 | a site is out of reach beyond two gigabytes on x86-64, beyond one megabyte for an AArch64 trap and 128 for a call |
| `Linking.Linker.Branch` | bootstrap/native/core_compiler.c:5387-5425 | appends a branch whose opcode suits its callee, with an empty target, and records exactly that site |
| `Linking.Linker.LinkSite` | bootstrap/native/core_compiler.c:6926-6933 | resolves one site, whose own bytes then are a branch to its callee, and keeps the ones resolved before |
| `Linking.Linker.LinkCalls` | bootstrap/native/core_compiler.c:6926-6933 | every recorded call decodes by its own opcode to its function |
| `Linking.Linker.LinkTraps` | bootstrap/native/core_compiler.c:6956-6966 | every recorded trap jump decodes by its own opcode to its kind's stub |
| `Linking.Linker.Link` | bootstrap/native/core_compiler.c:8386-8431 | afterwards every call, print and trap site decodes by its own opcode to its own callee, the same instruction otherwise, bytes outside the sites are unchanged, and it refuses exactly when a site is out of reach |
| `PrintInt.NumeralRoundTrip` | bootstrap/native/core_compiler.c:6717-6794 | the decimal numeral of an integer reads back as it, with no leading zero |
| `PrintInt.PrintX64` | bootstrap/native/core_compiler.c:6717-6794 | writes the numeral and a newline for every word, zero and the least included, never outside its 32 bytes |
| `PrintInt.DigitLoopX64` | bootstrap/native/core_compiler.c:6754-6769 | writes the digits of an unsigned magnitude below the newline |
| `PrintInt.PrintA64` | bootstrap/native/core_compiler.c:8231-8284 | the same for AArch64 |
| `PrintInt.DigitLoopA64` | bootstrap/native/core_compiler.c:8257-8267 | the same loop with unsigned divide and multiply-subtract |
| `LineTable.Uleb` | bootstrap/native/core_compiler.c:9919-9926 | appends the unsigned LEB128 form (section 7.6 of DWARF Version 4) |
| `LineTable.Sleb` | bootstrap/native/core_compiler.c:9928-9941 | appends the signed form |
| `LineTable.UlebRoundTrip` | bootstrap/native/core_compiler.c:9919-9926 | it reads back as the value and ends where it should |
| `LineTable.SlebRoundTrip` | bootstrap/native/core_compiler.c:9928-9941 | so does the signed form, for every integer |
| `LineTable.LineRows.Record` | bootstrap/native/core_compiler.c:123-144 | appends a row unless the line repeats, refusing line zero |
| `LineTable.RecordingKeepsLookups` | bootstrap/native/core_compiler.c:123-144 | dropping repeated lines changes no address's line, and no repetition is left |
| `LineTable.EmittedInOrder` | bootstrap/native/core_compiler.c:123-144 | rows recorded while emission only appends are ordered, inside the text and without repeated lines |
| `LineTable.EmitProgram` | bootstrap/native/core_compiler.c:10051-10089 | appends the line-number program, refusing exactly the rows that cannot be encoded |
| `LineTable.LineTableRoundTrip` | bootstrap/native/core_compiler.c:10051-10089 | the state machine of section 6.2 of DWARF Version 4 reproduces exactly the recorded rows and ends the sequence at the text size |
| `LineTable.EmittedIsEncodable` | bootstrap/native/core_compiler.c:10051-10089 | rows recorded by emission are refused only when there are none or a line is too large |
| `Patterns.FlattenPreservesMatching` | bootstrap/stage2/adt_exhaustiveness.c:1436-1497 | some flattened alternative matches a value if and only if the pattern does |
| `Patterns.FlattenIsFlat` | bootstrap/stage2/adt_exhaustiveness.c:1462-1497 | no alternative is an or-pattern or parenthesised any more |
| `Patterns.ClassifyPreservesMatching` | bootstrap/stage2/adt_exhaustiveness.c:1504-1573 | an accepted alternative's role admits exactly the values it matches |
| `Patterns.ClassifyIsExact` | bootstrap/stage2/adt_exhaustiveness.c:1504-1573 | accepted are exactly a wildcard, a name that is no constructor's or a nullary one's, and an owned constructor over its arity, at most one, of a wildcard or a name; each refusal has its exact condition; what is tested and bound follows from the pattern |
| `MatchBuilding.Builder.Unwrap` | bootstrap/stage2/adt_exhaustiveness.c:1436-1460 | strips parentheses up to the depth limit |
| `MatchBuilding.Builder.Collect` | bootstrap/stage2/adt_exhaustiveness.c:1462-1497 | collects the flattened alternatives left to right, failing exactly on depth, count or budget |
| `MatchBuilding.Builder.ClassifyAll` | bootstrap/stage2/adt_exhaustiveness.c:1650-1668 | accepts exactly when every alternative is in the slice, or names the refusal of the first that is not |
| `MatchBuilding.Builder.CheckBindings` | bootstrap/stage2/adt_exhaustiveness.c:1592-1621 | accepts exactly when all alternatives bind alike |
| `MatchBuilding.Builder.BuildArm` | bootstrap/stage2/adt_exhaustiveness.c:1623-1718 | files one arm and its alternatives with what each tests, succeeding exactly when they are in the slice, bind alike and are within the limits |
| `MatchBuilding.Builder.BuildArms` | bootstrap/stage2/adt_exhaustiveness.c:1623-1718 | files all arms of a match, succeeding exactly when each is representable and the limits hold |
| `MatchBuilding.BuildPreservesSelection` | bootstrap/stage2/adt_exhaustiveness.c:1623-1718 | for every value and every outcome of the guards, the filed match selects the arm the source arms take |
| `Coverage.SelectIsFirstTaker` | bootstrap/stage2/adt_exhaustiveness.c:1868-1968 | matching picks the first alternative of an open arm that admits the value |
| `Coverage.UsefulIffUnclaimed` | bootstrap/stage2/adt_exhaustiveness.c:1882-1935 | an alternative can be selected first by some value and guards if and only if some value it admits is claimed neither by an earlier unguarded arm nor earlier in its own |
| `Coverage.AlwaysSelectsIffClaimed` | bootstrap/stage2/adt_exhaustiveness.c:1936-1968 | a value selects some arm under every guard outcome if and only if an unguarded arm claims it |
| `Coverage.LeaveUnguarded` | bootstrap/stage2/adt_exhaustiveness.c:1931-1934 | copying the arm's marks back is right for an unguarded arm |
| `Coverage.LeaveGuarded` | bootstrap/stage2/adt_exhaustiveness.c:1931-1934 | and forgetting them is right for a guarded one |
| `MatchAnalysis.Walk.EnterArm` | bootstrap/stage2/adt_exhaustiveness.c:1885-1887 | starts an arm from what earlier arms cover |
| `MatchAnalysis.Walk.LeaveArm` | bootstrap/stage2/adt_exhaustiveness.c:1931-1934 | keeps or forgets what the arm matched |
| `MatchAnalysis.Walk.AllCovered` | bootstrap/stage2/adt_exhaustiveness.c:1817-1823 | tells whether every ordinal is marked |
| `MatchAnalysis.Walk.TestConstructor` | bootstrap/stage2/adt_exhaustiveness.c:1893-1909 | reports a constructor alternative exactly when it is useless, citing one that really blocks it |
| `MatchAnalysis.Walk.TestCatchAll` | bootstrap/stage2/adt_exhaustiveness.c:1910-1928 | the same for a wildcard or binding, citing the earliest |
| `MatchAnalysis.Walk.ListMissing` | bootstrap/stage2/adt_exhaustiveness.c:1936-1966 | lists the uncovered ordinals in order, eight at most, with the exact remainder |
| `MatchAnalysis.UncoveredIsExact` | bootstrap/stage2/adt_exhaustiveness.c:1936-1966 | the list holds exactly the values some guard outcome lets fall through, ascending |
| `MatchAnalysis.Walk.Analyze` | bootstrap/stage2/adt_exhaustiveness.c:1868-1968 | the verdict is faithful: budget, first useless alternative with its citation, missing values, or exhaustive with every alternative useful |
| `MatchBuilding.AnalysisDecides` | bootstrap/stage2/adt_exhaustiveness.c:1868-1968 | within the budget, a match is accepted if and only if every alternative is useful and no value falls through the source arms; a refusal lists exactly the values that do |
| `MatchBuilding.UsefulArmIsTaken` | bootstrap/stage2/adt_exhaustiveness.c:1830-1858 | every alternative not reported has a value and guard outcome that take its arm |
| `Stage1Scanning.FindSplit` | bootstrap/stage1/compiler.c:1475-1556 | the scan finds the rightmost top-level operator that follows an operand, outside quotes and brackets |
| `Stage1Scanning.CheckWrapsWhole` | bootstrap/stage1/compiler.c:1558-1589 | tells whether the outer parentheses close at the end |
| `Stage1Scanning.FindPostfixIndex` | bootstrap/stage1/compiler.c:1591-1642 | finds the bracket that opens a trailing index |
| `Stage1Scanning.CallArity` | bootstrap/stage1/compiler.c:1644-1696 | counts the arguments of a call text, or -1 when it is malformed |
| `Stage1Scanning.CallArgument` | bootstrap/stage1/compiler.c:1698-1747 | cuts out the k-th argument |
| `Stage1Scanning.PieceEnds` | bootstrap/stage1/compiler.c:1698-1747 | the text between two separating commas is the argument of that number |
| `Stage1Scanning.PrefixOperator` | bootstrap/stage1/compiler.c:1475-1556 | a text cut before an operator has the same one-character operators as before |
| `Stage1Scanning.LooksBack` | bootstrap/stage1/compiler.c:2804-2815 | the walk back from a sign tells whether any earlier character ends an operand |
| `Stage1Scanning.PrefixSign` | bootstrap/stage1/compiler.c:2785-2815 | a text cut before a sign has the same signs as before |
| `Stage1Chains.ProfileAdditiveType` | bootstrap/stage1/compiler.c:2771-2857 | the left-to-right scan computes the type of the chain cut at every top-level sign that has an operand's end somewhere before it, or finds there is no such sign |
| `Stage1Chains.ChainIsProfile` | bootstrap/stage1/compiler.c:2771-2857 | up to any of its signs, the chain has the type of the text before that sign by itself, trimmed as it would be |
| `Stage1Chains.ProfileCutsLast` | bootstrap/stage1/compiler.c:2771-2857 | so the scan types an expression as cutting it at its last sign does |
| `Stage1Chains.TypedEnds` | bootstrap/stage1/compiler.c:2859-3063 | a text the validator types ends, trimmed, in a character that ends an operand |
| `Stage1Chains.TypedChainIsClean` | bootstrap/stage1/compiler.c:2771-2857 | whenever the validator types a chain, its signs are exactly the splitter's operators |
| `Stage1Chains.ScanIsSplitting` | bootstrap/stage1/compiler.c:2771-2857 | the scan gives what splitting at the rightmost operator gives, cut down to texts without a stray sign; where splitting gives a type, the two agree if and only if there is none |
| `Stage1Atoms.NameCharacters` | bootstrap/stage1/compiler.c:371-379 | names are made of the letters, digits, the underscore and bytes of longer characters |
| `Stage1Atoms.SpaceCharacters` | bootstrap/stage1/compiler.c:198-200 | the six characters a trim removes |
| `Stage1Atoms.WithinBound` | bootstrap/stage1/compiler.c:1436-1457 | comparing lengths behind leading zeros and then digit by digit tells whether one number is at most the other |
| `Stage1Atoms.NumeralTyped` | bootstrap/stage1/compiler.c:1972-2024 | the digits of a number, behind any zeros, are an Int exactly when the number is a signed 64-bit one |
| `Stage1Atoms.TextTyped` | bootstrap/stage1/compiler.c:1972-2003 | any run of characters and of the three escapes is a Text between quotes |
| `Stage1Atoms.TextDecodes` | bootstrap/stage1/compiler.c:1972-2003 | every typed text that begins and ends with a quote is such a run |
| `Stage1Atoms.LowerAtom` | bootstrap/stage1/compiler.c:1972-2024 | the scans over an atom give its kind, or none |
| `Stage1Agreement.BuiltinTests` | bootstrap/stage1/compiler.c:2666-2744 | a listed builtin is found by the search, and a found name without a bar is listed |
| `Stage1Typing.TablesAgree` | bootstrap/stage1/compiler.c:2060-2110 | the lowerer's table of builtins and the validator's describe every head alike |
| `Stage1Typing.FormsAgree` | bootstrap/stage1/compiler.c:2227-2300 | both look for the loosest operator in the same order |
| `Stage1Builtins.ProfiledBuiltin` | bootstrap/stage1/compiler.c:2666-2744 | the validator gives a builtin's call a kind exactly when its arguments have the kinds the builtin takes, for each of the fifteen |
| `Stage1Builtins.LoweredBuiltin` | bootstrap/stage1/compiler.c:2060-2226 | so does the lowerer where no function of that name is declared |
| `Stage1Typing.SearchedIsJoined` | bootstrap/stage1/compiler.c:3003-3007 | the validator's searched text holds the lowerer's fifteen names |
| `Stage1Agreement.Agreement` | bootstrap/stage1/compiler.c:2859-3063 | whenever the validator types an expression, the lowerer gives that type if and only if every call head passes its own comparison, and otherwise fails |
| `Stage1Agreement.Converse` | bootstrap/stage1/compiler.c:2227-2455 | whenever the lowerer types an expression, the validator gives that type if and only if the signs met are clean and no call falls from a builtin to a declared function, and otherwise fails |
| `Stage1Agreement.SameAnswer` | bootstrap/stage1/compiler.c:2227-3063 | both give the same answer if and only if the two conditions hold where they matter |
| `Stage1Agreement.CleanIsTextual` | bootstrap/stage1/compiler.c:2227-2455 | where no builtin's name is declared again, the condition on signs depends on the text alone |
| `Stage1Scope.ParametersRoundTrip` | bootstrap/stage1/compiler.c:1318-1335 | the parameters a declaration writes are counted and cut back as they were |
| `Stage1Scope.ScopeFindsNames` | bootstrap/stage1/compiler.c:1302-1316 | searching the bar-joined scope finds only heads that start like a name, and no run of names joined by bars |
| `Stage1Scope.DeclaredIsFound` | bootstrap/stage1/compiler.c:1302-1316 | names being declared once, every declared function is found with the signature it was declared with |
| `Stage1Scope.FoundDecodes` | bootstrap/stage1/compiler.c:1302-1335 | whatever head is found, what is decoded is what some entry of the scope says |
| `Stage1Variables.HoldsIsGiven` | bootstrap/stage1/compiler.c:1928-1971 | searching the scope for a variable of a kind succeeds exactly when an entry gives it that kind |
| `Stage1Variables.VariableIsFound` | bootstrap/stage1/compiler.c:1928-1971 | no name being given two kinds, a variable has the kind its entry gives, and any other name has none |
| `Stage1Scope.SameAnswerInScope` | bootstrap/stage1/compiler.c:2227-3063 | so the two typings agree in every scope under the same conditions |
| `Stage1Scope.SameAnswerUnshadowed` | bootstrap/stage1/compiler.c:2227-3063 | and where no builtin's name is declared again, under conditions on the text alone |
| `Stage1Witnesses.NoBarIsPlain` | bootstrap/stage1/compiler.c:2227-2455 | every head passes when the text holds no bar |
| `Stage1Witnesses.BarHeadBreaks` | bootstrap/stage1/compiler.c:2666-2744 | a call whose head is two builtin names joined by a bar is typed by the validator and refused by the lowerer |
| `Stage1Witnesses.BarHeadBreaksInScope` | bootstrap/stage1/compiler.c:2666-2744 | and there is a scope in which it stands |
| `Stage1Witnesses.StraySignBreaks` | bootstrap/stage1/compiler.c:2804-2815 | `1*-2` is an Int to the lowerer and nothing to the validator |
| `Stage1Witnesses.SpacedSignBreaks` | bootstrap/stage1/compiler.c:2804-2815 | so is `1 + -2` |
| `Stage1Witnesses.ShadowedBuiltinBreaks` | bootstrap/stage1/compiler.c:2666-2769 | a call to a declared function with a builtin's name is lowered and refused |
| `Stage1Witnesses.ShadowedBuiltinBreaksInScope` | bootstrap/stage1/compiler.c:2666-2769 | and there is a scope in which it is |
| `EffectInference.EffectResult.Propagate` | bootstrap/stage2/effect_inference.h:76-91 | the loop ends with a function marked io if and only if a call path reaches a direct one |
| `EffectInference.EffectResult.Pass` | bootstrap/stage2/effect_inference.h:77-90 | a pass that changes something marks more functions, one that does not has reached a closed marking |
| `EffectInference.ClosedIsExact` | bootstrap/stage2/effect_inference.h:56-61 | a sound marking closed under calls is the least one |
| `EffectInference.EffectResult.Select` | bootstrap/stage2/effect_inference.h:94-110 | picks the io callee whose name comes first in byte order |
| `EffectInference.EffectResult.Validate` | bootstrap/stage2/effect_inference.h:34-57 | accepts exactly the graphs with one to the largest number of functions, each named and no two alike |
| `EffectInference.EffectResult.Infer` | bootstrap/stage2/effect_inference.h:62-113 | accepts exactly the valid graphs; effects and forcing callees are as specified for every function |
| `EffectInference.OrderIndependent` | bootstrap/stage2/effect_inference.h:56-61 | reordering the declarations reorders effects and forcing callees and changes neither |
| `Confusables.Sort` | bootstrap/stage2/confusable_visible_set.c:31-68 | the work list is sorted by the comparison and a permutation of what it was |
| `Confusables.WorkOrder` | bootstrap/stage2/confusable_visible_set.c:31-68 | the comparison is by module, namespace, skeleton, spelling, binding, target, provenance and span in that order |
| `Confusables.RelatedOrder` | bootstrap/stage2/confusable_visible_set.c:152-168 | representatives are ordered by namespace, binding, provenance and spelling |
| `Confusables.FindGroup` | bootstrap/stage2/confusable_visible_set.c:234-247 | a run holds exactly the bindings of its module, namespace and skeleton, and its spellings are counted exactly |
| `Confusables.FindPrimary` | bootstrap/stage2/confusable_visible_set.c:252-257 | the primary is outranked by none of its group and outranks every one before it |
| `Confusables.Representatives` | bootstrap/stage2/confusable_visible_set.c:258-268 | for every spelling but the primary's the binding sorted first |
| `Confusables.SortRepresentatives` | bootstrap/stage2/confusable_visible_set.c:152-168 | sorts them and keeps them all |
| `Confusables.Report` | bootstrap/stage2/confusable_visible_set.c:271-286 | the primary, and of the representatives in order the first eight and the number of the others, which add up to the distinct spellings less one |
| `Confusables.Check` | bootstrap/stage2/confusable_visible_set.c:181-295 | the diagnostic count is the number of keys with at least two spellings, the diagnostics are those of the keys in ascending order, and the status follows from count and capacity |
| `CollisionReports.AcceptanceIsCanonical` | bootstrap/stage2/confusable_visible_set.c:198-215 | whether the bindings are refused does not depend on their order |
| `CollisionReports.ReportsAreCanonical` | bootstrap/stage2/confusable_visible_set.c:226-286 | permuting the bindings changes neither keys nor their order, nor primary bindings, omitted counts and related bindings in their order, except the site kind of a related one when bindings differ in nothing else |
| `ByteOrder.AscendingIsUnique` | bootstrap/stage2/confusable_visible_set.c:31-68 | one multiset of keys has only one sorted order |
| `ByteOrder.BeforeIsFirstDifference` | bootstrap/stage2/confusable_visible_set.c:18-30 | byte strings are ordered by their first difference, a prefix first |
| `CacheKey.HashFramed` | bootstrap/stage2/confusable_visible_set.c:95-107 | feeds an eight-byte big-endian length and the bytes |
| `CacheKey.ComputePreimage` | bootstrap/stage2/confusable_visible_set.c:109-135 | the hashed bytes are the framed fields of the sorted bindings |
| `CacheKey.PreimageDecodes` | bootstrap/stage2/confusable_visible_set.c:95-135 | they decode back into the domain, the digest and, for the i-th sorted binding, its module, namespace, spelling, binding and target in frames 2 + 5i to 6 + 5i |
| `CacheKey.PreimageIsInjective` | bootstrap/stage2/confusable_visible_set.c:95-135 | equal preimages come from bindings equal, one for one, in module, namespace, spelling, binding and target |
| `CacheKey.PreimageIsCanonical` | bootstrap/stage2/confusable_visible_set.c:226-231 | permuting the input bindings does not change the preimage |

## Left out

- Compilation.Compile: produces the abstract instructions of the theorems; that call, print and trap sites decode to their targets, and operands and immediates to themselves, is proved of the bytes apart (`Linking`, `Encoding`, `Immediates`, `Patching`), and no statement runs the bytes.
- The aggregate single-`main` profile and its Text and List runtime: a simpler stack machine beside this one.
- The budget on nested calls and the size of the stack: memory below the stack pointer is unbounded in the model, so a source run that needs arbitrarily many calls corresponds to a machine that keeps running.
- Text as bytes: `Text` is an abstract value, concatenation one runtime call, allocation and its failure absent.
- The insides of the runtime helpers other than the integer printers, and the messages of the trap stubs: a helper keeps the callee-preserved registers and the memory above the stack pointer and destroys everything else.
- The kernel: an oracle over the trace and the argument words that destroys rcx and r11 on x86-64. The exit status is the word in the result register.
- The two emitters are one class and one set of code functions with the target as a parameter, because their skeletons are the same; the sequences that differ are separate.
- A boundary move whose source and destination coincide is written once and emits nothing.
- Sign tests by exclusive or keep only the sign of the word; `setcc` with `movzx`, and `leave`, are one instruction each; an immediate is one machine instruction, its bytes are treated in `Immediates`.
- Calls in the machine name functions and image addresses count instructions; that the bytes of a call lead to the callee's address is proved in `Linking`, and that operands survive encoding in `Encoding`, but no decoder connects whole byte images to the machine.
- The refusal of AArch64 frames beyond the addressing limit, of slots beyond the 32-bit displacement outside the encoder, of bindings outside the frame, which a well-formed program has none of, and of too many functions or calls.
- Parsing: the trees are taken as the parser builds them, labelled arguments already matched to slots.
- DWARF abbreviation, information and string tables and the line-table header: constant bytes and lengths.
- Artifact parsing, span checks, scopes of pattern bindings and `resolve_pattern_uses`: constructor ordinals are taken as validated and contiguous.
- The counter of work done in the collision reporter, allocation failure and SHA-256: only the bytes fed to the hash are modelled.
- Sort: insertion replaces `qsort`, whose order among the model's keys is determined by the comparison alone.
- Null arguments to the library entry points.
- The skeleton of a spelling is a parameter, a function that may refuse.
- Text that Stage 1 emits, its indentation and its refusal diagnostics: the lowerer is modelled by whether it succeeds and with which type.
- Building the scope of Stage 1 from declarations: the scope is the text its entries make, searched as the code searches it, but the entries are taken as declared.
