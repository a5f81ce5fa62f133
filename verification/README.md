# Verified model of an eBPF abstract interpreter

The repository judges eBPF programs with an abstract interpreter ("mini") and checks it against a
concrete one. This project models both interpreters and the analyses they rest on, and proves how
they relate: **a program the abstract interpreter accepts cannot fail concretely, on any run of any
length, through BPF-to-BPF calls and pointers into caller frames** — except where one of its rules is not
an over-approximation. For each such rule a failing input is given, with the condition under which the
rule is sound; where that condition is not exact for all inputs, the text says for which it is.

Soundness alone would hold of an interpreter that refuses everything and knows nothing, and of two
interpreters that share a mistake. So each part also has its converse: the exact ALU obeys laws that do not
mention it (`AluLaws`), intervals, tnums and refinements reach their ends (`ScalarPrecise`, `AluPrecise`,
`TnumPrecise`, `BranchExact`), the abstract interpreter refuses and changes exactly what is stated
(`Acceptance.AcceptsExactly`, `FrameAcceptance`, `StackPrecise`), the concrete one fails exactly where it
must (`ConcreteExact.FailsExactly`), the control-flow graph has exactly the edges executions take (`CfgRuns`,
`EdgesTaken`), and the tables of the liveness iteration are read off the concrete step (`UseDefExact`).

`dafny verify dfyconfig.toml` checks everything.

## Layout

| file | subject |
|---|---|
| `Words`, `Bits` | machine words as integers with explicit wrap-around; bits of integers |
| `Tnum`, `TnumSound`, `TnumPrecise` | the tracked-number domain, its operations and what they may not lose |
| `Scalar`, `AluLaws`, `ScalarSound`, `Products`, `AluSound` | scalar bounds and the ALU transfer functions against the exact ALU of section 4.1 of RFC 9669, and the laws of that ALU; the 32-bit product |
| `ScalarPrecise`, `AluPrecise` | how narrow the intervals, the transfer functions and the refinements are |
| `Branch`, `BranchExact` | branch refinement, static verdicts, JSET; on intervals both are exact |
| `Insn` | instructions and the two-slot encoding of section 3.2 of RFC 9669 |
| `Graph`, `Cfg`, `CallChain`, `FrameBudget` | depth-first search with loop heads, control-flow check, call-chain stack budget, what a counted depth measures |
| `CfgRuns`, `EdgesTaken` | the edges of the graph are the steps of executions, both ways |
| `Concrete`, `SlotMemory`, `Machine`, `Runs`, `Frames` | the concrete interpreter, its stack cells as bytes, its in-place updates, its executions, pointers that outlive their frame |
| `Abstract`, `Calls` | the abstract interpreter: registers, marked stack bytes, spills, references, successors in one frame; frames, calls and accesses to caller frames |
| `StackPrecise`, `Acceptance`, `FrameAcceptance` | exactly what the abstract interpreter refuses, keeps and may change |
| `ConcreteExact` | where the concrete interpreter fails and what it computes, instruction by instruction |
| `Offsets`, `Coverage`, `StackSound`, `VariableStore` | stack-pointer offsets, the coverage relation with link groups, stack soundness, stores at unknown offsets |
| `Simulation`, `FreshBytes`, `CallSimulation`, `CallExample` | one step in one frame, bytes no store has reached, soundness over whole runs with calls, a program it covers |
| `StaleLinks`, `Reached` | faulty rules met by whole programs, both interpreters run from their initial states |
| `CoverageCheck`, `CrossCheck` | the repository's own coverage check and the verdict on accepted programs |
| `References` | acquire, release and NULL checks over whole runs |
| `Liveness`, `UseDefExact`, `DeadState`, `LivenessLimits` | the liveness iteration, its table of uses and definitions read off the concrete step, what it licenses (dropping dead state), and two programs for which it does not |
| `Worklist` | the concrete worklist computes exact reachability |

A scalar `{smin, smax, umin, umax, u32 range, tnum, id, delta}` means the values both intervals, the
32-bit range and the tnum admit (`Scalar.Gamma`). A link group is a set of scalars with one nonzero id;
its members are known offsets away from one base value. The exploration driver is replaced by any set of
(program counter, abstract state) pairs that is closed under `successors`; bit masks are sets; I/O,
maps and program-type tables are not modelled.

## What the code gets wrong

Each rule below is modelled as the code has it. The lemma named with it states when it is sound. The
soundness theorems ask these conditions of each abstract step. Items 1-3 are exact for each interval
rule; the other views of a scalar may still exclude a lost value. Items 4, 6 and 8 say where the
condition asked for is not known, or known not, to be the weakest one.

1. **`>=` fall-through** (`src/exec.rs:3168-3174`): when `dst >= src` is false, `dst` is lowered below the
   *least* value of `src`. `Branch.GeFallExact` gives the exact condition and `Branch.GeFallCounterexample`
   a pair (7, 9) that the refinement loses. The immediate forms are always right (`Simulation.ImmediateGuard`).
2. **Signed remainder by a negative constant** (`src/exec.rs:2940-2943`), although the remainder is
   unsigned: sound iff the dividend range lies in [c, -c-1] (`ScalarSound.SignedModExact`).
3. **Arithmetic shift by a variable amount** (`src/exec.rs:3093`): sound iff the dividend stays in
   [-2^min, -1] (`ScalarSound.VarArshExact`).
4. **32-bit products** (`src/exec.rs:2723-2728`, `src/exec.rs:2748-2757`): endpoint products of 2^63 and
   more are read as negative. Two unknown factors are claimed to give 0 or 1, and 1 * 2 is lost
   (`Products.Mul32Counterexample`). `Products.Mul32Exact`: the rule covers all products of the two
   ranges iff `Mul32Ok`, for a constant factor and for ranges that reach down to 2^31. For two varying
   factors of which one stays above 2^31 the condition only suffices; `Products.Mul32OkNotNecessary` has
   a pair of ranges where products happen to miss the one value left out. All of this is about the
   wrapping subtraction of a release build; with overflow checks part of the excluded range panics.
5. **The tnum of a 32-bit right shift** (`src/exec.rs:2622`) shifts bits 32 and above into the result
   (`AluSound.Rsh32TnumExact`, `AluSound.Arsh32TnumExact`).
6. **Link ids** (`src/exec.rs:220-242`): the id `pc + 1` of a move is not fresh when the move is
   executed again. `Coverage.MovLinksDecided`: the move covers every concrete move iff no other register
   or spill carries the id, or the ranges leave its group and the moved scalar a single common base; the
   soundness theorem asks for the first. `StaleLinks.StaleLinkCounterexample` runs both interpreters from
   their initial states through a five-instruction loop: the second pass leaves r7, which holds 0,
   linked with r6, which holds 1.
7. **Unknown alignment** (`src/exec.rs:722`, `src/exec.rs:2469-2473`): the marker 0xFF plus an addend becomes
   a "known" alignment (`Offsets.ImmAlignExact`, `Offsets.ScalarAlignExact`,
   `Misaligned.UnknownAlignCounterexample`: a seven-instruction program passes every check and then stores
   eight bytes at r10-15).
8. **Variable-offset stack stores** (`src/exec.rs:2235-2264`) mark their whole range although one place is
   written. `VagueStore.VariableStoreCounterexample`: a seven-instruction program is followed to its end with a
   prediction of 0, and fails concretely on a cell never written.
   `VariableStore.VariableStoreDecided` is the exact condition; the soundness theorem asks for the test
   `VariableStoreOk`, which is exact when the touched slots hold constants, plain bytes or nothing
   (`VariableStore.VariableStoreChecked`).
9. **Escaped frame pointer** (`src/concrete.rs:583-609`): a callee may spill its own frame pointer into the
   caller's frame; using it after the return panics. `Frames.EscapePanics` is a run of a seven-instruction
   program that does; `Frames.PanicNeedsEscape` shows that no run panics without such a store. The abstract
   side refuses the spill (`src/exec.rs:2214`) and never panics itself (`Calls.SuccessorLayered`), so the panic
   is met in the cross-check of rejected programs.
10. **Direct stack depths** (`src/cfg.rs:46-78`) add the access width to an offset that already covers it: one
   slot too many exactly when an access starts at the lowest byte reached (`FrameBudget.FrameUseExact`), so a
   chain of two 256-byte frames is refused (`FrameBudget.FullFramesRefused`). The negation of the least
   16-bit offset wraps (or panics with overflow checks) and such an access counts nothing
   (`CallChain.CountedUseCovers`).

11. **Liveness of rejected programs** (`src/liveness.rs:325-338`): an exit may have a return site behind the last
   instruction, and the iteration then indexes past its masks. An accepted program has none
   (`Sealing.AcceptedReturns`), but the cross-check runs on rejected ones too (`src/env.rs:354`):
   `Rejected.RejectedIndexesPastMasks` is a four-instruction program, refused for its recursion, that panics there.
   The exact condition is `Liveness.ReturnsInsideExact`.
12. **Call targets** (`src/exec.rs:3554-3560`): the abstract side keeps 16 bits of the call offset, the concrete side
   and the control-flow check keep 32. They agree iff the offset fits 16 bits (`Calls.CallTargetExact`);
   otherwise the callee is not the one analyzed (`Calls.FarCallCounterexample`).
13. **Clamped pointers in the coverage check** (`src/concrete.rs:388-392`): an interval clamped to 32 bits no longer
   contains the offset it stands for, and the check reports a violation. `CoverageCheck.CheckDecided`: every covered
   state passes iff no stack pointer in sight was clamped. `SaturatedAlarm.SafeProgramFlagged` is a program that
   is accepted, never fails and is called unsafe.
14. **Liveness across calls and a moved r10** (`src/liveness.rs:144-312`): the analysis lets a callee's own r6-r9 and
   stack slots overwrite the caller's, and reads r10-relative slots as if r10 never moved. Cleaning is then visible:
   `LivenessLimits.CalleeSavedCounterexample`, `LivenessLimits.MovedFrameCounterexample`.

## Model

| member | source | states |
|---|---|---|
| TnumDomain.SubsumesIsInclusion | src/tnum.rs:224-226 | `subsumes` holds exactly when every member of the one tnum is a member of the other |
| TnumDomain.UnionIsLeast | src/tnum.rs:202-209 | the union is above both operands and below every other tnum that is |
| TnumDomain.IntersectIsMeet | src/tnum.rs:212-219 | the intersection keeps every common member and, once one exists, nothing else |
| TnumSound.AddSound | src/tnum.rs:47-59 | every wrapped sum of members is in the sum |
| TnumSound.AddOptimal | src/tnum.rs:47-59 | any tnum holding all wrapped sums subsumes the sum |
| TnumSound.SubSound | src/tnum.rs:67-77 | every wrapped difference of members is in the difference |
| TnumSound.SubOptimal | src/tnum.rs:67-77 | any tnum holding all wrapped differences subsumes the difference |
| TnumSound.BitwiseSound | src/tnum.rs:104-193 | and, or and xor hold the results of all pairs of members |
| TnumSound.BitwiseOptimal | src/tnum.rs:104-193 | any tnum holding all ands, ors or xors of members subsumes the modelled one |
| TnumSound.LShiftSound | src/tnum.rs:115-119 | the left shift holds every shifted member, also for amounts of 64 and more |
| TnumSound.RShiftSound | src/tnum.rs:123-127 | the logical right shift holds every shifted member, for every amount |
| TnumSound.ArShiftSound | src/tnum.rs:132-143 | the arithmetic right shift holds every sign-filled shifted member, for every amount |
| TnumSound.SubregSound | src/tnum.rs:147-152 | the low half holds the low 32 bits of every member |
| TnumSound.FromRangeSound | src/tnum.rs:157-172 | the tnum of an interval holds the interval |
| TnumSound.FromRangeOptimal | src/tnum.rs:157-172 | any tnum holding the interval subsumes it |
| TnumSound.Mul | src/tnum.rs:86-100 | the shift-and-add loop terminates and its result holds every wrapped product of members |
| TnumPrecise.ShiftsOptimal | src/tnum.rs:115-152 | any tnum holding all shifted or truncated members subsumes the shifted or truncated one |
| TnumPrecise.ProductKnows | src/tnum.rs:86-100 | a product knows every low bit that the known bits of one factor and the trailing zeros of the other fix, both ways round |
| TnumPrecise.ConstantProducts | src/tnum.rs:86-100 | two constants multiply to the constant product, and zero times anything is zero |
| AluSound.SyncedSound | src/state.rs:164-219 | letting the views narrow each other loses no value and keeps the link |
| ScalarPrecise.SyncedNarrows | src/state.rs:164-219 | for a scalar with a member the sync only narrows, and every view learns what the others know |
| AluSound.ConstSound | src/state.rs:58-73 | a constant admits exactly its value |
| AluSound.FromSignedSound | src/state.rs:81-116 | a signed range admits all of its values |
| Acceptance.FromSignedExact | src/state.rs:81-116 | a signed range admits exactly its values |
| AluSound.TopSound | src/state.rs:135-150 | the unknown scalar admits every value |
| ScalarSound.SignedSound | src/exec.rs:2863-2951 | the 64-bit signed interval covers the exact result, through overflow fallback and block boundaries |
| ScalarSound.UnsignedSound | src/exec.rs:2956-3030 | the 64-bit unsigned interval covers the exact result |
| ScalarSound.Range32Sound | src/exec.rs:2713-2805 | the 32-bit interval covers the exact 32-bit result |
| ScalarPrecise.SignedLinearLeast | src/exec.rs:2863-2951 | where no exact result overflows, both ends of a signed sum, difference or product are results of members |
| ScalarPrecise.SignedShiftLeast | src/exec.rs:3033-3066 | so are both ends of a shift by a constant, as long as a left shift loses no bit |
| ScalarPrecise.SignedWithin | src/exec.rs:2863-2951 | on non-negative ranges a conjunction is below both, a disjunction above both, a remainder below its divisor, a right shift below its operand |
| ScalarPrecise.UnsignedLinearLeast | src/exec.rs:2956-3030 | where nothing overflows, both ends of an unsigned sum, difference or product are reached |
| ScalarPrecise.UnsignedQuotientLeast | src/exec.rs:2956-3030 | so are both ends of a quotient by a range without zero and of a shift that loses no bit |
| ScalarPrecise.UnsignedWithin | src/exec.rs:2956-3030 | an unsigned conjunction is below both, a disjunction above both, a remainder below its divisor, a right shift below its operand |
| ScalarPrecise.LinearLeast32 | src/exec.rs:2713-2757 | both ends of a 32-bit sum or difference are reached where the exact values share their high half, and of a product that does not wrap |
| ScalarPrecise.QuotientLeast32 | src/exec.rs:2713-2805 | so are both ends of a 32-bit quotient and of shifts by a constant |
| ScalarPrecise.Within32 | src/exec.rs:2713-2805 | the other 32-bit rules stay within their operands |
| ScalarSound.SignedModExact | src/exec.rs:2940-2943 | for a negative constant divisor the signed rule covers every remainder iff the dividend range is in [c, -c-1] |
| ScalarSound.VarArshExact | src/exec.rs:3073-3096 | the variable arithmetic shift rule covers every result iff the dividend range is in [-2^min, -1] |
| Products.Mul32Sound | src/exec.rs:2723-2757 | under the condition the 32-bit product range holds every product of the two ranges |
| Products.Mul32Exact | src/exec.rs:2723-2757 | it holds all products iff the condition, for a constant factor or both ranges reaching down to 2^31 |
| Products.ConstFactorExact | src/exec.rs:2748-2757 | when the endpoint order is lost, the multiples of a constant stay in the claimed interval iff a divisibility test passes |
| Products.Mul32Counterexample | src/exec.rs:2723-2757 | two unknown factors are claimed to give [0, 1]; 1 * 2 is lost |
| Products.Mul32OkNotNecessary | src/exec.rs:2723-2757 | beyond the decided ranges a pair of ranges is covered although the condition fails |
| AluSound.Tnum64Sound | src/exec.rs:2687-2709 | the tnum rule of every 64-bit operation holds the exact result |
| AluSound.Tnum32Sound | src/exec.rs:2611-2630 | the truncated tnum rule holds the exact 32-bit result |
| AluSound.Rsh32TnumExact | src/exec.rs:2622 | the 32-bit logical shift tnum holds all results iff the bits shifted in are not known ones |
| AluSound.Arsh32TnumExact | src/exec.rs:2622 | the 32-bit arithmetic shift tnum holds all results iff the known bits shifted in equal the known sign bit |
| AluSound.AluTransferSound | src/exec.rs:2544-2630 | the transfer function covers the exact result of all twelve operations in both widths, under the conditions above |
| AluLaws.Arithmetic64 | src/exec.rs:2810-2832 | the 64-bit ALU adds, subtracts, multiplies and negates modulo 2^64 |
| AluLaws.Arithmetic32 | src/exec.rs:2833-2853 | the 32-bit ALU modulo 2^32 |
| AluLaws.Division64 | src/exec.rs:2810-2832 | quotient and remainder recompose the dividend, the remainder is below the divisor; by zero they are 0 and the dividend |
| AluLaws.Division32 | src/exec.rs:2833-2853 | the same in 32 bits |
| AluLaws.Bitwise64 | src/exec.rs:2810-2832 | and, or and xor bit by bit |
| AluLaws.Bitwise32 | src/exec.rs:2833-2853 | the same in 32 bits |
| AluLaws.Shifts64 | src/exec.rs:2810-2832 | each bit of a shift is the bit the masked amount away, a zero, or the sign |
| AluLaws.Shifts32 | src/exec.rs:2833-2853 | the same in 32 bits |
| AluLaws.ZeroExtended32 | src/exec.rs:2833-2853 | a 32-bit result is the ALU on the low halves, zero-extended |
| AluLaws.ExtendBits | src/concrete.rs:641-663 | an extended value repeats its bits, then zeros or its top bit |
| AluPrecise.Alu64Narrows | src/exec.rs:2584-2607 | the 64-bit result is at most as wide as its interval rules and tnum rule |
| AluPrecise.Alu32Narrows | src/exec.rs:2611-2630 | the 32-bit result is at most as wide as its range and truncated tnum rule |
| AluPrecise.ConstantsFold | src/exec.rs:2575-2582 | two constants give exactly the result of the exact ALU, linked to nothing |
| AluPrecise.LinkKeptExactly | src/exec.rs:2637-2680 | the link survives exactly additions and subtractions of a constant to an unmoved member, with the distance moved |
| AluSound.CoerceSound | src/exec.rs:1723-1769 | truncating and extending a scalar covers the truncated and extended value |
| AluPrecise.CoercePrecise | src/exec.rs:1723-1769 | truncating keeps constants, the known low bits and, without a sign, the width of the access |
| Branch.RefineOrderedSound | src/exec.rs:3155-3194 | the interval rule of the side taken keeps both operands, also at wrapping endpoints |
| BranchExact.RefineOrderedExact | src/exec.rs:3155-3194 | the refined ranges hold exactly the values with a partner on the side, but for dst behind a false `>=` |
| BranchExact.GeFallIs | src/exec.rs:3168-3174 | there dst keeps its values below the whole of src |
| BranchExact.ExcludeExact | src/exec.rs:3285-3304 | excluding a constant removes it at an end of the range and nothing else |
| Branch.GeFallExact | src/exec.rs:3168-3174 | the fall-through rule of `>=` keeps all pairs iff no value of dst lies in [src.min, src.max) or src.min is least |
| Branch.GeFallCounterexample | src/exec.rs:3168-3174 | the pair (7, 9) is lost by that rule |
| Branch.RefineSound | src/exec.rs:3204-3360 | for all ten comparisons the refined pair of the side taken still admits both values |
| AluPrecise.OrderedPrecise | src/exec.rs:3204-3250 | every value left in the refined bounds has a partner on the side taken, and no view got wider |
| AluPrecise.EqualPrecise | src/exec.rs:3253-3280 | equal operands are refined to what both admit |
| AluPrecise.UnequalPrecise | src/exec.rs:3308-3360 | an unequal constant at an end of a view is removed from it, one inside changes nothing |
| Branch.RefineLinks | src/exec.rs:3204-3360 | refinement keeps the link of an operand or drops it |
| Branch.VerdictSound | src/exec.rs:3491-3535 | a static verdict is right for every pair of members, so the concrete side is never pruned |
| AluLaws.UnsignedOrder | src/exec.rs:3398-3409 | the unsigned comparisons are those of the numbers, each with its converse and complement |
| AluLaws.SignedOrder | src/exec.rs:3398-3409 | the signed comparisons are the unsigned ones with the sign bit flipped |
| BranchExact.OrderedVerdictExact | src/exec.rs:3491-3535 | an ordered verdict is given exactly when the intervals of its signedness decide |
| BranchExact.EqualityVerdictExact | src/exec.rs:3491-3535 | equality is decided exactly between one same constant and between ranges without a common value |
| Branch.OrderedVerdictComplete | src/exec.rs:3434-3472 | on intervals a verdict is given exactly when all pairs agree |
| Branch.JsetVerdictSound | src/exec.rs:3685-3702 | a JSET verdict is right for every pair of members |
| BranchExact.JsetVerdictExact | src/exec.rs:3685-3702 | unless both are constants a verdict is given exactly when all members of the tnums agree |
| BranchExact.JsetConstants | src/exec.rs:3685-3702 | constants are decided by their value |
| Branch.ClearedIsIdentity | src/exec.rs:3706-3718 | clearing the tested bits on the fall-through does not change the value |
| Insn.DecodeProgram | src/insn.rs:1284-1312 | the decoding loop yields what slot-wise decoding yields, then reports trailing bytes |
| Insn.DecodeSealed | src/insn.rs:1284-1312 | n slots give n entries, with a marker exactly behind each wide instruction |
| Insn.DecodedAs | src/insn.rs:1284-1312 | every entry is its slot parsed, alone or with the slot behind it, or that second slot |
| Insn.DecodeErrorAt | src/insn.rs:1284-1312 | an error names the first slot that is refused, and why |
| Insn.LdImm64RoundTrip | src/insn.rs:1321-1384 | decoding the two slots of a 64-bit constant gives the constant back |
| Insn.PseudoRoundTrip | src/insn.rs:1321-1384 | the other kinds give their descriptor and offset back, a stray high half or an unknown kind is refused |
| Insn.ParseAccepts | src/insn.rs:1321-1384 | a pair of slots is accepted iff register, kind and reserved fields are valid |
| Cfg.AddSubprog | src/cfg.rs:10-28 | the entries are 0 and exactly the call targets, strictly increasing; an error names a call out of the program |
| Cfg.SubprogRange | src/cfg.rs:31-43 | the range holding an instruction is the unique one between neighbouring entries |
| Cfg.VisitInsn | src/cfg.rs:237-349 | the successor loop equals the successor relation, return sites included |
| Cfg.NextAccepts | src/cfg.rs:237-371 | an instruction has successors iff its jump stays in the subprogram and off second slots, and it does not go on past the end |
| Cfg.NextRefuses | src/cfg.rs:237-371 | which reason a refused instruction is named with |
| Cfg.EndsProperlyIs | src/cfg.rs:385-410 | a subprogram ends properly iff its last instruction, just before the next entry, neither goes on nor calls |
| CfgRuns.StepIsEdge | src/cfg.rs:237-349 | every concrete step of an accepted program, through calls and nested exits, is an edge of the graph |
| CfgRuns.ReachableLocated | src/cfg.rs:385-455 | every reachable state stands at an instruction the graph reaches, each caller frame at one of its calls |
| CfgRuns.NeverTooDeep | src/cfg.rs:81-134 | no reachable state of an accepted program is at the frame limit when it calls |
| EdgesTaken.EdgeTaken | src/cfg.rs:237-349 | every edge of a non-exit instruction that can run and is not decided by its operands is taken by some state |
| EdgesTaken.ExitEdges | src/cfg.rs:237-349 | the edges of an exit are exactly the places behind the calls of its subprogram |
| Dfs.CycleHasHead | src/cfg.rs:411-455 | after the search every cycle of the graph contains a recorded loop head |
| Dfs.FinishedIsReachable | src/cfg.rs:411-455 | after the search exactly the reachable instructions are visited |
| Cfg.DepthFirst | src/cfg.rs:411-455 | the explicit-stack search terminates without an index error and meets the contract of the whole check |
| Cfg.CheckCfg | src/cfg.rs:385-455 | Ok iff every subprogram ends properly and every instruction is reachable and valid; the heads hit every cycle and lie on cycles; an error names a real defect |
| Sealing.OnlyEdgeIntoMarker | src/cfg.rs:351-371 | in an accepted program the only edge into the second slot of a wide instruction comes from its first |
| CallChain.DirectStackDepths | src/cfg.rs:46-78 | each depth is the greatest counted use of its subprogram |
| CallChain.CountedUseCovers | src/cfg.rs:73 | an access is counted with all its bytes iff its offset is not -32768 |
| FrameBudget.CountedExact | src/cfg.rs:73-74 | an aligned access in the frame is charged the slots it reaches, plus one exactly when it starts on a slot |
| FrameBudget.FrameBytesLeast | src/cfg.rs:46-78 | the bytes reached are the least whole number of slots holding every direct access |
| FrameBudget.FrameUseExact | src/cfg.rs:46-78 | the depth is the bytes reached, plus a slot exactly when an access starts at the lowest of them |
| FrameBudget.FullFramesRefused | src/cfg.rs:81-146 | a program whose chains all fit 512 bytes is refused on the counted depths |
| CallChain.Visit | src/cfg.rs:88-132 | the recursion over the shared chain restores it and clears exactly the chains extending it |
| CallChain.CheckStackCallChains | src/cfg.rs:81-134 | Ok iff no chain from the main program recurses and every chain with a call keeps both budgets |
| CallChain.CheckCombinedStackDepth | src/cfg.rs:140-146 | the whole check, on computed depths that cover every direct access (but offset -32768) |
| ConcreteExact.FailsExactly | src/concrete.rs:976-1430 | an instruction fails iff an operand is missing or of the wrong kind, or its access is outside an active frame, misaligned or unwritten |
| ConcreteExact.FailureNamed | src/concrete.rs:531-609 | which failure a refused access is reported as |
| ConcreteExact.ReadFailureNamed | src/concrete.rs:641-663 | a load of a cell never written is reported as that |
| ConcreteExact.MovesExact | src/concrete.rs:984-1120 | immediates are sign-extended, 32-bit moves cut off, and only the destination changes |
| ConcreteExact.NumbersExact | src/concrete.rs:771-974 | arithmetic on numbers is the exact ALU on the register and the sign-extended immediate or second register |
| ConcreteExact.PointersExact | src/concrete.rs:877-974 | adding a number to a pointer on either side moves its address by the number, in its frame |
| ConcreteExact.PointerImmediates | src/concrete.rs:790-874 | so does an immediate, while the offset does not saturate |
| ConcreteExact.AddressOfAccess | src/concrete.rs:689-702 | an access lies at the distance to r10 plus the displacement, while that fits 32 bits |
| ConcreteExact.BranchExact | src/concrete.rs:1868-2008 | a branch goes the one way the operands compare and changes nothing |
| ConcreteExact.HelperExact | src/concrete.rs:2240-2262 | a number helper returns 0, 1 or all ones and clobbers r1 to r5 only |
| ConcreteExact.CallExact | src/concrete.rs:171-195 | a call hands over r1 to r5 and an empty stack, and keeps the caller for the return |
| ConcreteExact.ExploreExact | src/concrete.rs:1547-1617 | when a popped state exits, fails or returns |
| ConcreteExact.TargetExact | src/exec.rs:3417-3425 | a target is pc + 1 + offset, modulo 2^32 |
| Concrete.StackRange | src/concrete.rs:556-574 | an accepted access lies in one cell |
| SlotMemory.MergeInPlace | src/concrete.rs:611-637 | the in-place store replaces exactly the bytes of the access in the frame, keeps a whole pointer and makes a part a number |
| Concrete.CallReturnRestores | src/concrete.rs:171-214 | a call followed by the return only clobbers r0..r5 |
| Frames.ExploreOrderedExact | src/concrete.rs:583-637 | a step keeps every pointer at or below its holder's frame, and meets no inactive frame, iff it spills no pointer into an older frame |
| Frames.NoEscapeNoPanic | src/concrete.rs:583-609 | no run without such a store ever reaches the panic |
| Frames.PanicNeedsEscape | src/concrete.rs:583-609 | a run that ends in the panic has executed such a store |
| Frames.EscapePanics | src/concrete.rs:583-609 | a seven-instruction program has a run that ends in the panic |
| Frames.EscapedFramePointer | src/concrete.rs:583-609 | a callee frame pointer spilled to the main frame survives the return, whatever the state, and then targets no active frame |
| SlotMemory.RangeExact | src/concrete.rs:556-574 | an access is accepted iff it is inside the frame and aligned, and its bytes are consecutive bytes of one cell |
| SlotMemory.StoreBytes | src/concrete.rs:611-637 | a store overwrites exactly the bytes of its access |
| SlotMemory.LoadBytes | src/concrete.rs:641-663 | a load is the zero- or sign-extended little-endian number of its bytes |
| SlotMemory.DisjointStore | src/concrete.rs:611-637 | a store leaves every disjoint range of bytes alone |
| SlotMemory.StoreThenLoad | src/concrete.rs:611-663 | a load behind a store of its width returns the truncated and extended stored value |
| Machine.ConcreteMachine.CallSubprog | src/concrete.rs:171-195 | entering a subprogram in place equals the frame function, or changes nothing at the depth limit |
| Machine.ConcreteMachine.ReturnFromSubprog | src/concrete.rs:199-214 | returning in place restores the caller with the callee's r0 |
| Machine.ConcreteMachine.StoreCell | src/concrete.rs:611-637 | only the bytes of the access change, in the frame that owns the pointer; every other frame, cell and register stays |
| Machine.ConcreteMachine.DropDead | src/concrete.rs:126-140 | cleaning in place drops exactly what is not live, never r10 |
| Abstract.CheckAccess | src/exec.rs:2054-2089 | an accepted access covers frame bytes only |
| StackPrecise.CheckExact | src/exec.rs:2054-2089 | an access is accepted iff its alignment is known and every place of the pointer is in the frame, aligned |
| StackPrecise.AccessBytes | src/exec.rs:1715-1721 | an accepted access covers exactly the bytes some place of the pointer touches |
| StackPrecise.ReadAccepts | src/exec.rs:1776-1985 | a load is accepted iff it is in a buffer, or in the frame where every byte reads as one register or as numbers |
| StackPrecise.WriteAccepts | src/exec.rs:2045-2265 | a store is accepted iff the operand is initialized and a pointer goes whole to the start of a slot or over plain bytes |
| StackPrecise.StoreThenRead | src/exec.rs:1911-1985 | a load behind a store of the same bytes gets the register back, truncated at the start of a slot, a known zero or a number elsewhere |
| StackPrecise.WriteThenRead | src/exec.rs:1776-2265 | the same for whole instructions through one pointer |
| StackPrecise.ZeroBytesRead | src/exec.rs:1911-1985 | bytes known to be zero load as 0 at every width |
| StackPrecise.StoreLeaves | src/exec.rs:2191-2265 | a store changes only slots it may touch, in them only bytes it covers and spills it breaks, and no register |
| Abstract.SpillInPlace | src/exec.rs:2220-2233 | the marking loops of an aligned store give the spilled slot |
| Abstract.ScrubInPlace | src/exec.rs:2235-2264 | the marking and scrubbing loops of the other stores |
| Abstract.SyncInPlace | src/exec.rs:3823-3876 | the two loops over registers and spills refine exactly the members of the link group |
| Abstract.InvalidateInPlace | src/exec.rs:1132-1175 | the two loops replace exactly the aliases of a reference |
| Offsets.AddImmPlaced | src/exec.rs:696-725 | adding an immediate keeps the concrete offset in the interval unless the interval saturated |
| Acceptance.MovedInterval | src/exec.rs:2448-2482 | the interval of a moved pointer is exactly the sums, until it leaves 32 bits |
| Acceptance.MovedOrdered | src/exec.rs:2448-2482 | moving a pointer keeps its interval in order |
| Offsets.AddScalarPlaced | src/exec.rs:2448-2482 | the same for a scalar, through both saturations and the wrapping concrete addition |
| Offsets.SaturationNeverAdmitsBadAccess | src/exec.rs:2399-2489 | along any sequence of accepted additions, an access passing the frame test lies in the 512-byte frame |
| Offsets.SaturatedIsFar | src/exec.rs:2463-2489 | the offset is in [min, max] or max exceeds 2^31 - 1 - 2^29 |
| Offsets.ImmAlignExact | src/exec.rs:722 | adding an immediate keeps the alignment truthful iff it was known (or names the only offset) |
| Offsets.ScalarAlignExact | src/exec.rs:2469-2473 | adding a scalar keeps it truthful iff it was known or the low three bits of the scalar are not |
| Misaligned.UnknownAlignCounterexample | src/exec.rs:722 | from both initial states: a program whose accesses pass the abstract checks ends in a misaligned store |
| Offsets.AddScalarCovers | src/exec.rs:2463-2480 | adding a scalar keeps interval and alignment, from the low bits of its tnum |
| Offsets.CoveredAccess | src/exec.rs:2054-2089 | an accepted access of a covering pointer is in the frame and aligned |
| Coverage.InitialCovers | src/concrete.rs:152-167 | the initial abstract state covers the initial concrete state |
| Coverage.LinkRelIsBase | src/exec.rs:3817-3876 | members of each link group agree on value - delta exactly when each group has one base value |
| Coverage.MovKeepsLinks | src/exec.rs:220-242 | a move whose id no other register or spill uses keeps every value covered and every group on one base |
| Coverage.MovLinksDecided | src/exec.rs:220-242 | a linking move covers every concrete move iff its id is unused or the ranges pin the group that uses it to the moved value |
| Coverage.MovLinksExact | src/exec.rs:220-242 | for one concrete state: the relation survives iff every other carrier of the id has the moved value as anchor |
| StaleLinks.StaleLinkCounterexample | src/exec.rs:220-242 | both interpreters reach a second pass over a move, covered before it and not after; the next sync loses a value |
| Coverage.AluKeepsLinks | src/exec.rs:2637-2680 | constant add and sub keep the group, every other operation leaves it |
| Coverage.SyncCovers | src/exec.rs:3823-3876 | after a sync every register and spill of the group still admits its concrete value |
| StackSound.SpillSlot | src/exec.rs:2191-2233 | an aligned store leaves Spill bytes that are the low bytes of the stored value |
| StackSound.ScrubSlot | src/exec.rs:2235-2264 | any other store leaves numbers whose Zero bytes are 0 |
| StackSound.FixedReadCovers | src/exec.rs:1911-1985 | full fill, narrow fill and byte walk all cover the concrete loaded value |
| StackSound.LoadCovers | src/exec.rs:1776-1873 | an accepted load succeeds concretely and covers the value, at fixed and variable offsets, for all widths |
| StackSound.StoreCovers | src/exec.rs:2045-2265 | a fixed-offset store succeeds concretely and the new marks cover the merged cells |
| VariableStore.VariableStoreCovers | src/exec.rs:2235-2264 | a variable-offset store succeeds concretely and the marks cover the merged cells wherever it lands, under the condition |
| VariableStore.VariableStoreDecided | src/exec.rs:2235-2264 | it does so from every covered state iff the condition |
| VariableStore.VariableStoreChecked | src/exec.rs:2235-2264 | the same iff for the test of the guard, when the touched slots spill constants or nothing |
| VariableStore.SpilledZerosAllowed | src/exec.rs:2235-2264 | slots zeroed by plain eight-byte stores pass it |
| VagueStore.VariableStoreCounterexample | src/exec.rs:2235-2264 | from both initial states: a program predicted to load 0 fails concretely on an uninitialized cell |
| Simulation.AluImmStep | src/exec.rs:661-805 | immediate ALU steps of numbers, stack and context pointers are covered |
| Simulation.AluRegStep | src/exec.rs:814-965 | register ALU steps, with the pointer on either side, are covered |
| Simulation.ConditionalStep | src/exec.rs:3754-3935 | the one concrete branch taken is covered by an abstract successor at its target |
| Simulation.RefinedSideCovers | src/exec.rs:3901-3935 | writing both refined operands and syncing both groups keeps the state covered |
| Simulation.ImmediateGuard | src/exec.rs:3789-3799 | against an immediate the `>=` refinement needs no condition |
| Simulation.StepSimulates | src/exec.rs:3543-3663 | one instruction inside a frame: no concrete failure, every concrete successor covered on the next base values |
| Acceptance.AcceptsExactly | src/exec.rs:3543-3663 | the abstract interpreter refuses an instruction iff the state lacks what it asks for |
| Acceptance.RefusedHere | src/exec.rs:3543-3663 | a refusal names the instruction |
| Acceptance.AluRegAccepts | src/exec.rs:814-965 | arithmetic is for two numbers, stack pointers plus sane numbers and context pointers moved by sane constants |
| Acceptance.AluImmAccepts | src/exec.rs:661-805 | the same for immediates, with shift amounts below the width |
| Acceptance.NumbersPrecise | src/exec.rs:814-965 | arithmetic on numbers is exact for constants and within the rules otherwise |
| Acceptance.NumberAndConstantPrecise | src/exec.rs:661-805 | the same for immediates |
| Acceptance.NegPrecise | src/exec.rs:633-659 | negating a constant is exact |
| Acceptance.Mov32Exact | src/exec.rs:74-85 | a 32-bit move admits the numbers up to the low half of a constant, or up to 2^32 - 1 |
| Acceptance.ImmediatesPrecise | src/exec.rs:59-73 | immediates are known exactly, a 32-bit one as an upper bound |
| Acceptance.MovePrecise | src/exec.rs:220-242 | a move copies every register and changes its source by at most a link id |
| Acceptance.StepTouches | src/exec.rs:51-560 | only the destination changes, and the stack only by stores |
| Acceptance.BranchAccepts | src/exec.rs:3884-4040 | which operands a branch may compare |
| Acceptance.NullCheckPlaces | src/exec.rs:4045-4106 | a NULL check follows the null side where a null pointer goes, and the valid side on the other way |
| Acceptance.PointerBranchOpen | src/exec.rs:3884-4040 | comparing pointers keeps both ways open and learns nothing |
| Acceptance.OrderedSidesExact | src/exec.rs:3884-3935 | a side of an ordered comparison is followed iff some pair of the intervals is on it |
| Acceptance.EqualitySidesExact | src/exec.rs:3884-3935 | a side of an equality is dropped iff the operands are one constant or have disjoint ranges |
| Acceptance.SelfCompareExact | src/exec.rs:3754-3785 | a register compared with itself goes the way equal operands take |
| Acceptance.JsetSidesExact | src/exec.rs:3624-3720 | a side of a JSET is followed iff some members of the tnums are on it |
| Acceptance.SyncPrecise | src/exec.rs:3823-3876 | a sync leaves other registers alone, and gives members the refined bounds, moved by the difference of their distances |
| Acceptance.SideTouches | src/exec.rs:3901-3935 | a branch side writes the refined operands and nothing outside their groups |
| FreshBytes.StoreFresh | src/concrete.rs:611-637 | stores keep every byte the abstract side marks unwritten at 0 |
| Calls.SuccessorLayered | src/exec.rs:1998-2020 | abstract stack pointers target the frame that holds them or a caller, so the frame lookup never panics |
| Calls.CallTargetExact | src/exec.rs:3554-3560 | abstract and concrete call targets agree iff the offset fits 16 bits |
| Calls.FarCallCounterexample | src/exec.rs:3554-3560 | for offset 65536 the abstract side continues at 1, the concrete side at 65537 |
| CallSimulation.EnterCovers | src/state.rs:587-610 | entering a subprogram keeps every frame covered, and succeeds on the same depths |
| CallSimulation.LeaveCovers | src/state.rs:616-631 | returning restores a covered caller at the same return address and returns no stack pointer |
| CallSimulation.OuterSimulates | src/exec.rs:1993-2020 | a load or store through a pointer into a caller frame succeeds concretely and keeps every frame covered |
| CallSimulation.StackedStepSimulates | src/exec.rs:3543-3663 | one instruction with frames: no concrete failure, every concrete successor covered in all its frames |
| FrameAcceptance.StackedAcceptsExactly | src/exec.rs:3543-3663 | with frames: a call is refused at the frame limit, an access to a caller frame for what it asks of that frame or for storing a stack pointer whole |
| FrameAcceptance.CallAndReturn | src/state.rs:587-631 | a callee gets r1 to r5 and an empty stack, the caller gets r6 to r10 and its frame back with the callee's r0 |
| FrameAcceptance.OuterTouches | src/exec.rs:1993-2020 | an access to a caller frame changes the destination, or that frame only |
| FrameAcceptance.CallersUntouched | src/exec.rs:1177-1186 | other instructions leave caller frames alone, up to aliases of a released reference |
| CallSimulation.WholeRunsCovered | src/exec.rs:3543-3663 | for any closed set of abstract states, no execution of any length fails, through calls and returns, and every state is covered in all its frames |
| CallSimulation.ReachableCovered | src/exec.rs:3543-3663 | the same for every reachable state |
| CallExample.PassesFrameAccepted | src/exec.rs:3543-3663 | the premises hold for a program whose callee stores through the caller's frame pointer |
| CoverageCheck.CheckCoverage | src/concrete.rs:2350-2379 | the violations are exactly the recorded states without a recorded abstract state that matches them register by register and byte by byte |
| CoverageCheck.CheckMeans | src/concrete.rs:405-526 | `state_covers` holds iff every register has the kind of its abstract one with a value in it, and every frame byte is what its mark says |
| CoverageCheck.CleanExact | src/state_eq.rs:572-587 | cleaning keeps r10 and what is live, and empties everything else, on both sides |
| CoverageCheck.CheckIsInside | src/concrete.rs:408-526 | a covered state passes `state_covers` iff its stack pointers are in their intervals, with the shortcut for imprecise scalars and, but for partly spilled scalars, without it |
| CoverageCheck.CheckDecided | src/concrete.rs:388-392 | every covered state passes iff no register or full spill is a clamped stack pointer |
| CoverageCheck.CleanCovers | src/state_eq.rs:572-587 | cleaning both sides with the same masks keeps them covered |
| CrossCheck.RecordCovered | src/concrete.rs:2350-2379 | for an accepted program without clamped pointers in the records, every recorded concrete state is covered |
| CrossCheck.Judge | src/env.rs:311-346 | the verdict on such a program is unsafe only if no exit is reachable, safe only if one is, and never inconclusive within generous limits |
| SaturatedAlarm.SafeProgramFlagged | src/concrete.rs:388-392 | an accepted program that never fails and reaches its exit has a recorded state the check reports |
| References.FreshId | src/exec.rs:1123-1130 | the search terminates on every list with the least identifier that is not active |
| References.DropExact | src/exec.rs:509-518 | moving the last entry into the hole removes exactly the released id and keeps the others distinct |
| References.DropInPlace | src/exec.rs:509-518 | the release loop on the fixed array does that, and reports an unknown id |
| References.AcquireIsFresh | src/exec.rs:462-482 | no live alias holds the id of an acquire |
| Acceptance.HelperExact | src/exec.rs:437-560 | which helper calls are refused, and that an accepted one leaves r6 to r10 alone but for released aliases |
| Acceptance.ReservedSize | src/exec.rs:473-482 | a reservation of a known size is that long |
| Acceptance.AliasesTouch | src/exec.rs:1132-1175 | replacing the aliases of a reference leaves everything else |
| References.ReleaseStep | src/exec.rs:495-529 | a release leaves no alias and one reference less |
| References.NullStep | src/exec.rs:4045-4106 | so does the null side of a NULL check |
| References.ValidStep | src/exec.rs:4103-4153 | the valid side keeps the reference and turns its aliases into buffers |
| References.SuccessorDisciplined | src/exec.rs:3543-3663 | every transition keeps the invariant and changes the count by exactly its event |
| References.RunDiscipline | src/exec.rs:3543-3663 | on every run: distinct ids, at most MAX_REFS, every holder names an active id, count = acquires - releases - null drops |
| References.AcceptedExitIsBalanced | src/mini.rs:896-921 | an exit is accepted iff r0 is a number and all acquires were given back |
| Liveness.PushSuccessors | src/liveness.rs:316-393 | the pushing loop equals the successor lists |
| StaticEdges.StaticAreEdges | src/liveness.rs:316-393 | for an accepted program they are the edges of the control-flow graph |
| Liveness.LiveEquation | src/liveness.rs:3-13 | path liveness solves the dataflow equation |
| Liveness.LivenessIsLeast | src/liveness.rs:3-13 | path liveness is the least solution |
| Liveness.Visit | src/liveness.rs:409-434 | the loop body recomputes one instruction of all four masks and reports exactly whether anything changed |
| Liveness.ReturnsInsideExact | src/liveness.rs:325-338 | every successor has a mask entry iff no exit returns behind the last instruction |
| Sealing.AcceptedReturns | src/cfg.rs:385-455 | an accepted program satisfies that condition |
| Rejected.RejectedIndexesPastMasks | src/env.rs:350-372 | a rejected one may not: a program refused for recursion has a return site behind its last instruction |
| Liveness.Analyze | src/liveness.rs:398-440 | the iteration terminates, and a bit is set before i iff some path from i reads it before it is overwritten |
| UseDefExact.Unused | src/liveness.rs:144-312 | a register the table does not use cannot be told from any other value of it: overwritten if it is defined, kept if not |
| UseDefExact.OnlyDefs | src/liveness.rs:144-312 | a step changes only the registers it defines |
| UseDefExact.UsedMatters | src/liveness.rs:144-312 | each register it uses matters: without it the step fails, or a store leaves another stack |
| UseDefExact.ExitReadsZero | src/liveness.rs:279 | an exit reads r0 and nothing else |
| UseDefExact.ReadSlotIs | src/liveness.rs:105-113 | a load at an aligned r10-relative offset reads its slot, any other load reads all of them |
| UseDefExact.WriteSlotIs | src/liveness.rs:120-126 | a slot is written exactly by the whole-slot store at its r10-relative offset |
| UseDefExact.UnreadSlot | src/liveness.rs:105-126 | a slot that is not read cannot be told from any other content of it, and one that is written is overwritten |
| UseDefExact.ReadSlotMatters | src/liveness.rs:105-113 | each slot a load reads can matter to it, but for the coarse case below |
| UseDefExact.UnwrittenSurvives | src/liveness.rs:120-126 | a slot a store does not write can keep what it had, in some state the store succeeds from |
| UseDefExact.OddLoadReadsOne | src/liveness.rs:105-113 | coarse: a load at another r10-relative offset needs one slot at most, the table names all |
| UseDefExact.HelperArguments | src/liveness.rs:250-254 | coarse: number helpers look at no argument, the table names r1 to r5 |
| UseDefExact.CallTable | src/liveness.rs:250-254 | both calls use r1 to r5, define r0 to r5 and touch no slot |
| DeadState.CleanAgrees | src/concrete.rs:126-140 | cleaning keeps everything live |
| DeadState.AgreeStep | src/liveness.rs:144-312 | states agreeing on what is live fail alike, branch alike, exit alike, and agree again afterwards |
| DeadState.DeadStateInvisible | src/liveness.rs:144-312 | no run can tell such states apart, wherever either is cleaned |
| DeadState.CleaningPreservesRuns | src/concrete.rs:119-140 | cleaning at any points of any run from the start preserves what the run shows |
| LivenessLimits.CalleeSavedCounterexample | src/liveness.rs:247-254 | with a call, cleaning drops a register the caller reads after the return |
| LivenessLimits.MovedFrameCounterexample | src/liveness.rs:144-312 | with a moved r10, cleaning drops a slot that is read later |
| Runs.ClosedHoldsReachable | src/concrete.rs:1533-1617 | induction over executions: a set closed under steps holds every reachable state |
| Worklist.RunConcrete | src/concrete.rs:1511-1628 | a conclusive run recorded exactly the cleaned reachable states, none fails, and no-exit is reported iff no exit is reachable; an error is a reachable failure; the points explored are returned in depth-first order, latest successor first, and it is inconclusive iff they push more than the step limit allows or another limit was exceeded, never within limits generous for the program |
| Worklist.AcceptedNeverRefuted | src/concrete.rs:1511-1628 | the worklist never reports a failure for a program the abstract interpreter accepts |

## Left out

- Maps, kfuncs, dynptrs, BTF objects, atomics, packet loads, HMUL, 32-bit jumps and context loads: the abstract
  side rejects them here and the concrete side reports them as unmodelled.
- References: the discipline is proved for runs inside one frame; the invalidation in caller frames is part of
  `Calls`.
- WholeRunsCovered: asks `CallSimulation.StackedGuard` of every abstract state in the set, the conditions listed
  under "What the code gets wrong" plus no clamped context-pointer offset; `LdMapFd` is excluded. The exploration
  driver, its pruning included, is replaced by closed sets.
- Mul32Exact: two varying factors of which one stays above 2^31 are left out; whether all their products are
  covered depends on which residues happen to be missed (`Products.Mul32OkNotNecessary`).
- AluTransferSound: asks for `Mul32Ok` in that class too, where it is not necessary.
- VariableStoreDecided: asks that a fully spilled slot it touches holds a constant or an unlinked scalar; a linked
  one is tied to the values of other registers.
- MovKeepsLinks: asks that no register or spill but the overwritten one uses the id, which a caller can check; the
  exact condition is MovLinksDecided.
- CleaningPreservesRuns: programs without BPF-to-BPF calls and without writes to r10; for others it is false (item 14),
  and which of them it still holds for is not decided.
- RunConcrete: programs without maps, whose memory is shared between paths.
- ProductKnows: which high bits of a product are known is not stated beyond soundness; long multiplication loses some.
- SignedLinearLeast, UnsignedLinearLeast, LinearLeast32: where an exact result overflows the rules fall back to the
  full range, which may be wider than the wrapped results.
- AcceptsExactly, StackedAcceptsExactly: ask that the intervals of stack pointers are not empty, which additions keep
  (`Acceptance.MovedOrdered`).
- EdgeTaken: exits, whose edges are the returns (`EdgesTaken.ExitEdges`); comparisons with the same outcome for all
  operands; shifts by an immediate outside the width, maps and other helpers, which the concrete side refuses.
- UnreadSlot, ReadSlotMatters, UnwrittenSurvives: from the outermost frame with its r10, which the tables speak of.
- Analyze: asks for `ReturnsInside`, without which the source indexes past its masks.
- FrameUseExact: direct accesses outside the frame or misaligned are left out; the abstract interpreter
  rejects them where it reaches one.
- The marking of precise scalars (recorded states hold none), state-equality pruning and
  precision backtracking.
- The signed 32-bit view of a scalar: no modelled rule reads it.
- The single-slot opcode table: a parameter of the decoder that yields no wide instruction.
- Register and stack state are values in the interpreters, as the source copies them; their in-place loops are
  the methods named `...InPlace` and `Machine.ConcreteMachine`.
- Context access tables, helper argument tables, program types, kernel loading, logs and rendering.
