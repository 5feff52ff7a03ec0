# Apex, verified

Apex answers one question: how many rows of a table satisfy a predicate? It has several ways of
answering, which are meant to agree:

- a **bit-sliced kernel**: 64 rows at a time are gathered, transposed into 64 bit planes, and handed to
  compiled code that adds with a ripple-carry loop and compares with a most-significant-bit-first loop;
- a **scalar kernel**: compiled code that evaluates the expression row by row;
- a **comparison kernel** specialised to one field and one constant threshold;
- the plain **row-by-row meaning** of the expression.

The masks are counted by population count and summed over chunks and over threads. This project models
that pipeline from the expression builders to the final count and proves that the routes agree: exactly
where the code makes them agree, and with the exact condition where it does not.

## How it is organised

| files | content |
|---|---|
| `Words`, `Options` | 64-bit words as integers with a bit view; carries, shifts, complements, population count |
| `BitSlicer` | the six butterfly stages, in place on an array, and the 64x64 transpose they compose to |
| `Machine` | registers, memory blocks and the AArch64 instructions used; labels, branches, loops |
| `Ir`, `Analyzer`, `Allocation`, `Kinds` | node pool, row-by-row evaluator, depth-first pass, field, constant, slot and carry allocation; what well-kinded, conjunctive and steady mean node by node |
| `Drifts` | how far arithmetic strays when SUB gets no carry-in, and when a predicate survives it |
| `CircuitLibrary`, `SlicedCompiler`, `CollectedLeaves`, `Planes`, `SlicedSimulation`, `SlicedComparison`, `SlicedCorrectness`, `SlicedLaw` | the bit-sliced compiler and its simulation proof |
| `ScalarCompiler`, `ScalarCorrectness`, `ScalarFaults` | the scalar compiler, its simulation proof, and the fault of a ninth field |
| `ComparisonKernel`, `Agreement` | the specialised comparison; agreement of all compiled forms |
| `Rows`, `Layout`, `Counting`, `CountConditions`, `KernelCall`, `Chunks`, `Engine` | tables, gathering, the count laws and when counts are right, kernel calls, chunks, field binding and `execute` |
| `ParallelRunner`, `ChunkClaiming` | the static partition over threads and the atomic chunk-claiming runner |
| `Witnesses` | concrete inputs for every way in which the original is found to answer wrongly or to read past an array |

Emitters produce instruction lists, and programs run on a machine with a program counter, labels and
branches. Pointers are a block and an offset, and scratch words may be absent. A load outside a block,
of an absent scratch word or through a null field pointer stops the machine, as does arithmetic on a
pointer used as a number; the kernel theorems therefore also say that no such access happens.

The evaluator `Eval` gives a node's value on one row. It takes the carry that enters a SUB as a
parameter, because that carry is what the bit-sliced compiler gets wrong: with the carry set SUB is
wrapping subtraction, without it the result is one less.

## Where the code and its comments disagree

- The comment at src/jit/compiler.cpp:364 says a SUB starts with carry one. The register holds one bit
  per row, and the emitted literal 1 gives the carry to row 0 of each chunk only; in rows 1 to 63 every
  SUB node subtracts one too many. The model keeps the literal (`EMITTED_SUB_CARRY`) and proves the law
  for an arbitrary initial word. In a row without its carry every arithmetic node is off by its drift, a
  number that the graph alone determines (`Drifts.DriftLaw`); `a - (b - c)`, for one, has drift zero and
  stays right. So arithmetic survives exactly when its drift is a multiple of 2^64
  (`Drifts.ArithmeticKeptIff`), a comparison exactly when the drifts keep the order of its two true
  values (`Drifts.ComparisonKeptIff`), and the two kernels agree exactly when this gives the right answer
  in every row (`Agreement.CompilersAgreeIff`).
- The bit-sliced compiler accepts predicates outside the fragment it evaluates: EQ leaves, OR, more than
  three leaves. `SlicedLaw.SlicedKernel` says what it answers for them and `SlicedLaw.AnswerRightIff`
  exactly when that is the verdict of a row.
- The scalar compiler accepts any number of field names, and the pointer array has eight entries.
  `ScalarFaults.ReadsBeyondIff`: its kernel reads past the pointer array if and only if there are more
  than eight names. What such a read gives is undefined in the original; the machine stops.
- `execute` counts padding rows (src/api/engine.cpp:107-110, 166-167). `Counting.CountExactIff` says
  exactly when the count is right for a predicate whose rows are answered right. Outside that case
  `CountConditions.SteadyCountRightIff` covers any mixture of AND, OR and leaves without an EQ leaf to
  compare, `CountConditions.EqCountRightIff` those with one, `CountConditions.NoLeafCountRightIff` an OR
  root, and `CountConditions.DifferenceCount` gives the emitted kernel's count of a comparison with one
  difference. For further predicates with SUB `Counting.CountLaw` reduces the count to single rows.
- A worker that is not the last can be given rows past the end (src/compute/parallel_runner.cpp:139);
  `ParallelRunner.WithinRowsIff` says exactly when, and `ParallelRunner.OverrunAgreesIff` what then
  decides whether the total is still the sequential one.
- The benchmark's claiming runner drops the last partial chunk (benchmarks/bench_apex_final.cpp:57);
  `ChunkClaiming.TotalExactIff` says exactly when its total is the reference count of all rows.

`Witnesses` gives an input for each: the carry word, an OR, an EQ leaf and a fourth leaf, the ninth field,
the padding, the overrun and the dropped chunk.

Assigning a map entry from the map's own size (src/jit/compiler.cpp:286, 589) is read as in C++17, where
the size is taken first.

## Model

| member | source | states |
|---|---|---|
| `Words.CarryStep` | src/jit/compiler.cpp:416-422 | the carry of a 64-lane adder position is the majority of the two bits and the carry before it |
| `Words.CarryIsOverflow` | src/jit/compiler.cpp:416-422 | the carry after k steps is the overflow of the low k bits plus the carry in |
| `Words.ComplementSubtracts` | src/jit/compiler.cpp:430-433 | adding the complement and one subtracts modulo 2^64; without the one the result is off by one, always |
| `BitSlicer.StageMaskSelectsLower` | src/compute/bit_slicer.cpp:25-120 | each of the six literal masks selects exactly the columns whose bit j is clear |
| `BitSlicer.StageSwapsBit` | src/compute/bit_slicer.cpp:25-120 | the stage of stride 2^j exchanges bit j of the row number with bit j of the column number, for every j |
| `BitSlicer.ButterflyLanes` | src/compute/bit_slicer.cpp:30-36 | one vector load, exchange and store of any number of lanes changes exactly its two runs of words |
| `BitSlicer.RunStage` | src/compute/bit_slicer.cpp:41-55 | the in-place vector loop leaves what one-element-at-a-time butterflies leave, for every power-of-two lane count up to the stride |
| `BitSlicer.StagesTranspose` | src/compute/bit_slicer.cpp:124-131 | the six stages compose to the transpose: bit c of word i is bit i of word c |
| `BitSlicer.Transpose64x64` | src/compute/bit_slicer.cpp:124-131 | the array ends as its transpose on every vector width |
| `BitSlicer.TransposeTwice` | src/compute/bit_slicer.cpp:135-138 | slicing twice gives the original 64 words |
| `BitSlicer.Slice` | src/compute/bit_slicer.cpp:135-138 | the output is the transpose of the input, also when both are the same buffer |
| `Machine.LoopRuns` | src/jit/compiler.cpp:376-454 | the emitted labels, test and branches of a loop do what a structured loop does |
| `Machine.TwoLoopProgram` | src/jit/compiler.cpp:346-556 | code, loop, code, loop, code and return run in that order under the program counter |
| `Machine.MovImm64Loads` | src/jit/compiler.cpp:78-86 | movz and three movk of 16-bit quarters load any 64-bit immediate |
| `Ir.SubtractsIff` | src/jit/compiler.cpp:364-365 | one SUB node is the wrapped difference of its operands as computed if and only if its bit of the initial carry word is set |
| `Ir.CarryIrrelevant` | src/jit/compiler.cpp:358-367 | without SUB the initial carry word does not matter |
| `Ir.SameMeaning` | include/apex/jit/ir.hpp:46-49 | slot, field and carry metadata do not change a node's value |
| `Ir.NodePool.Build` | include/apex/jit/ir.hpp:62-65 | a builder appends one node, or returns null exactly when 128 are used; children stay older than parents and older nodes keep their values |
| `Ir.NodePool.Load` | src/jit/jit.cpp:17-24 | the node is, on every row, the field named by the first 63 characters |
| `Ir.NodePool.Const` | src/jit/jit.cpp:26-33 | the node is the constant modulo 2^64 on every row |
| `Ir.NodePool.Binary` | src/jit/jit.cpp:35-98 | the appended node has the builder's kind and, on every row, its meaning: the wrapped sum, the wrapped difference (one less without carry-in), the comparison, or the operands' verdicts combined |
| `Ir.NodePool.LessThan` | src/jit/jit.cpp:65-68 | the GT with swapped operands is true of exactly the rows where a is below b |
| `Ir.NodePool.Other` | src/jit/jit.cpp:100-138 | NOT, SELECT, LSL and LSR nodes of the right kind and result kind can be built over older operands |
| `Drifts.DriftLaw` | src/jit/compiler.cpp:358-367 | in a row without carry-in every node of nested ADD and SUB is its true value less its drift, modulo 2^64 |
| `Drifts.ArithmeticKeptIff` | src/jit/compiler.cpp:364 | such a node is right, in any row and in all, if and only if its drift is a multiple of 2^64 |
| `Drifts.NestedDifference` | src/jit/compiler.cpp:429-449 | the missing carry-ins of `a - (b - c)` cancel: its drift is that of a, less that of b, plus that of c |
| `Drifts.ComparisonKeptIff` | src/jit/compiler.cpp:364 | a comparison keeps its verdict on a row if and only if subtracting the drifts keeps the order, or equality, of its true operand values |
| `Drifts.OrderKeptIff` | src/jit/compiler.cpp:364 | the order of all pairs of words is kept if and only if both drifts are multiples of 2^64 |
| `Drifts.SteadyKept` | src/jit/compiler.cpp:364 | a predicate whose compared operands all have such drifts does not need its carry-ins |
| `Drifts.NoSubIsSteady` | src/jit/compiler.cpp:359-366 | predicates without SUB are among them |
| `Drifts.DroppedCarryIff` | src/jit/compiler.cpp:364 | with drift one on one side of GT and none on the other: `d > c` is kept unless d is c + 1, or d is 0 and c is not all ones; `c > d` unless d is c, or d is 0 and c is not |
| `Kinds.WellKindedIff` | src/jit/compiler.cpp:230-259 | a predicate is well-kinded if and only if its root is a mask and every node it reaches fits its operands: words under arithmetic and comparisons, masks under AND and OR |
| `Kinds.InFragmentIff` | src/jit/compiler.cpp:460-472 | it is in the bit-sliced fragment if and only if it is well-kinded, reaches no OR and no EQ, and has at most three leaves |
| `Kinds.SteadyIff` | src/jit/compiler.cpp:364 | it is steady if and only if on any row every compared operand has the same value with and without carry-ins |
| `Analyzer.VisitLists` | src/jit/compiler.cpp:217-229 | the walk adds exactly the nodes below its argument, each once, children before parents |
| `Analyzer.WalkFromRoot` | src/jit/compiler.cpp:276-278 | the list is exactly what the root reaches, without repeats, operands first, root last |
| `Analyzer.ExpressionAnalyzer.Record` | src/jit/compiler.cpp:228-261 | one node is appended to the list, to the list of its kind and to the position map |
| `Analyzer.ExpressionAnalyzer.Analyze` | src/jit/compiler.cpp:217-262 | the recursive pass terminates and its lists are the walk and its parts by kind |
| `Analyzer.OfKindPosition` | src/jit/compiler.cpp:242-248 | the arithmetic nodes listed before a node are a prefix of the arithmetic list |
| `Allocation.NamesDistinct` | src/jit/compiler.cpp:281-289 | the numbered field names are pairwise different and are exactly the loaded names |
| `Allocation.AssignFields` | src/jit/compiler.cpp:281-289 | indices are dense and equal exactly for equal names; with the limit it fails exactly at a ninth name, having numbered the loads before it |
| `Allocation.ConstPool.GetOrCreate` | src/jit/compiler.cpp:52-62 | the planes of a constant are created once and kept, and no other entry changes |
| `Allocation.ScratchpadManager.AllocSlot` | src/jit/compiler.cpp:189-197 | the lowest free slot is taken, or -1 exactly when none is free |
| `Allocation.AssignSlots` | src/jit/compiler.cpp:299-306 | the first eight arithmetic nodes get slots 0 to 7 in list order; it fails exactly for more than eight, the ninth being left with -1 |
| `Allocation.AssignCarries` | src/jit/compiler.cpp:309-318 | the ADD and SUB nodes get carry registers numbered in list order, and the carry limit is never the reason for failure |
| `SlicedCompiler.CollectComparisons` | src/jit/compiler.cpp:460-472 | the recursive collection appends the collected leaves in order |
| `CollectedLeaves.LeavesAreEnds` | src/jit/compiler.cpp:460-472 | for every graph the collected comparisons are the ends of all paths from the root through AND nodes to a comparison, one for each path, from left to right |
| `CollectedLeaves.CollectedIff` | src/jit/compiler.cpp:460-472 | a node is collected if and only if it is a GT, LT or EQ that some path through AND nodes reaches |
| `SlicedCompiler.EmitProgram` | src/jit/compiler.cpp:346-556 | the emitting loops produce the program the simulation is proved about |
| `SlicedCompiler.CompileExpression` | src/jit/compiler.cpp:265-567 | null exactly for a null root, more than eight distinct names or more than eight arithmetic nodes; otherwise every allocation property holds |
| `Planes.FullAdder` | src/jit/compiler.cpp:416-443 | the word formulas of ADD and SUB give the next result plane and carry plane of all 64 rows |
| `Planes.ConstPlane` | src/jit/compiler.cpp:396-401 | the pooled planes of a constant are the planes of its two's-complement value, also for negative constants |
| `Planes.ComparatorStep` | src/jit/circuit_library.cpp:23-44 | the comparator formulas extend greater and equal masks of the high parts by one lower bit |
| `SlicedSimulation.AdderRuns` | src/jit/compiler.cpp:416-443 | the emitted adder puts the node's plane in x5 and the next carry plane in its own carry register only |
| `SlicedSimulation.NodeRuns` | src/jit/compiler.cpp:381-449 | one bit of one node fills one scratch word, keeps every other node's planes and carry |
| `SlicedSimulation.BitRuns` | src/jit/compiler.cpp:381-450 | one turn advances nested ADD and SUB nodes together, each reading operands already at this bit |
| `SlicedSimulation.RippleRuns` | src/jit/compiler.cpp:373-454 | sixty-four turns leave every slot with all planes of its node's value on all rows |
| `SlicedComparison.GtRuns` | src/jit/circuit_library.cpp:15-45 | the emitted comparator computes its two formulas and touches x6, x7 and its two masks only |
| `SlicedComparison.LeafEnds` | src/jit/compiler.cpp:515-531 | after bit 0 a GT or LT mask is the unsigned comparison of the row; an EQ leaf's mask stays zero |
| `SlicedComparison.CompareRuns` | src/jit/compiler.cpp:487-535 | the downward loop leaves after bit 0 by its signed test and finishes all comparisons |
| `SlicedComparison.FoldRuns` | src/jit/compiler.cpp:537-547 | the fold is the conjunction of the compared leaves, all ones when there is none |
| `SlicedCorrectness.EpilogueRuns` | src/jit/compiler.cpp:549-556 | the epilogue restores every callee-saved register and empties the frame |
| `SlicedCorrectness.ProgramRuns` | src/jit/compiler.cpp:346-556 | the whole program halts with the conjunction of the compared leaves whatever the scratchpad held |
| `SlicedLaw.ArithmeticPlace` | src/jit/compiler.cpp:310-316 | each arithmetic node's place in the walk is preceded by exactly the arithmetic nodes numbered before it |
| `SlicedLaw.SlicedKernel` | src/jit/compiler.cpp:265-567 | for every well-kinded root the mask is the conjunction of the first three AND-tree leaves; this is what the kernel computes outside its fragment too |
| `SlicedLaw.AnswerRightIff` | src/jit/compiler.cpp:460-547 | the answer of a row is the verdict exactly when the verdict is false, if an EQ leaf is among the first three; otherwise exactly when it is true or one of the first three leaves is false |
| `SlicedLaw.OrRightIff` | src/jit/compiler.cpp:460-547 | an OR root is answered right exactly where it is true |
| `SlicedLaw.AnswerIsJudged` | src/jit/compiler.cpp:358-547 | the answer of a row is determined by the true operand values, the drifts and the row's carry bit |
| `SlicedLaw.LeavesDecide` | src/jit/compiler.cpp:460-472 | an AND-tree of GT and LT holds exactly when all its collected leaves hold |
| `SlicedLaw.SlicedKernelDecides` | src/jit/compiler.cpp:265-567 | in the fragment, bit r of the mask is the evaluator's verdict on row r, a SUB taking bit r of the initial carry word |
| `ScalarCompiler.FindOperand` | src/jit/compiler.cpp:640-645 | the linear search gives the first index of the operand |
| `ScalarCompiler.EmitRow` | src/jit/compiler.cpp:626-687 | the emitting loop gives one load, operation and store for each listed node: a shared node is computed once |
| `ScalarCompiler.CompileScalarExpression` | src/jit/compiler.cpp:569-713 | null exactly for a null root; otherwise fields are numbered and the program is the row loop over the walk |
| `ScalarCorrectness.LoadsValue` | src/jit/compiler.cpp:630-647 | every operand load reads that operand's value; the search never falls back to index 0 |
| `ScalarCorrectness.MaskIsFlag` | src/jit/compiler.cpp:689-692 | a mask-valued node is 0 or 1 on every row |
| `ScalarCorrectness.RowRuns` | src/jit/compiler.cpp:626-687 | after k nodes of a row the first k scratch words are those nodes' values on that row |
| `ScalarCorrectness.RowsRun` | src/jit/compiler.cpp:616-697 | after each row the mask holds the verdicts of the rows so far |
| `ScalarCorrectness.RowReadsOnlyItsWrites` | src/jit/compiler.cpp:626-687 | with every scratch word absent when a row starts the row runs and leaves the same mask: each word it reads was written on the same row |
| `ScalarCorrectness.ScalarKernelDecides` | src/jit/compiler.cpp:569-713 | for every well-kinded predicate over at most eight fields bit r of the mask is the evaluator's verdict on row r with real subtraction |
| `ScalarFaults.NinthFieldFaults` | src/jit/compiler.cpp:586-592 | with more than eight field names the scalar kernel reads past the pointer array on its first row, whatever the columns hold |
| `ScalarFaults.ReadsBeyondIff` | src/jit/compiler.cpp:569-713 | the scalar kernel of a well-kinded predicate reads past the pointer array if and only if it loads more than eight names, and otherwise returns |
| `ComparisonKernel.CompileComparison` | src/jit/compiler.cpp:115-169 | the unrolled loop emits the specialised step of each threshold bit, high to low |
| `ComparisonKernel.MaskStep` | src/jit/compiler.cpp:141-161 | both specialised branches extend greater and equal masks by one lower bit |
| `ComparisonKernel.StepIsGeneric` | src/jit/circuit_library.cpp:23-44 | the generic comparator's formulas on a threshold plane of all ones or all zeros come down to the two specialised branches |
| `ComparisonKernel.ComparisonDecides` | src/jit/compiler.cpp:90-182 | the kernel on the transposed column returns exactly the rows above the unsigned threshold |
| `Agreement.SlicingGathered` | src/api/engine.cpp:121-131 | transposing the scalar kernel's columns gives the bit-sliced kernel's columns |
| `Agreement.CompilersAgreeIff` | src/jit/compiler.cpp:265-713 | for every well-kinded predicate and every carry word the two kernels return the same word if and only if in every row the first three leaves, compared after subtracting the drifts where the carry bit is missing, say what the predicate says |
| `Agreement.CompilersAgree` | src/jit/compiler.cpp:265-713 | both kernels return the same word in the fragment when the carry word is all ones or every compared operand has a drift that is a multiple of 2^64, so for the emitted word too |
| `Agreement.SlicedIgnoresScratch` | src/api/engine.cpp:165 | the bit-sliced result does not depend on the scratchpad's contents before the call |
| `Agreement.ScalarIgnoresScratch` | src/compute/parallel_runner.cpp:52-54 | nor does the scalar result, so clearing once per thread or once per chunk is the same |
| `Agreement.SlicedWritesBeforeReads` | src/api/engine.cpp:165 | with every scratch word absent at the start, and loads of absent words faulting, the bit-sliced kernel returns and with the same mask: each word read was written earlier in the run |
| `Agreement.ScalarWritesBeforeReads` | src/compute/parallel_runner.cpp:52-54 | the same for a whole scalar run |
| `Agreement.ConstPlanesAreTransposed` | src/jit/compiler.cpp:56-59 | pooled planes equal the transpose of a column that holds the constant in every row, for every signed constant |
| `Agreement.SpecialisationRefines` | src/jit/compiler.cpp:134-162 | the specialised kernel and the compiled expression `field > constant` return the same word |
| `Rows.GatherField` | src/api/engine.cpp:80-111 | entry i of the column is the word stored, least significant byte first, in the eight bytes at base + i * stride + offset, and zero after the last row |
| `Rows.StoredOnce` | src/api/engine.cpp:93-96 | eight bytes hold at most one word |
| `Layout.FieldStored` | src/api/engine.cpp:85-105 | a field of a row, and its entry in the gathered column, is the word stored in the row's eight bytes at that field's offset |
| `Layout.TwoFieldsStored` | src/api/engine.cpp:85-105 | two fields of one row each hold their own bytes |
| `Layout.RowsAreValues` | src/api/engine.cpp:85-110 | the rows of a table laid out from given values are those values, and zeros after the last row |
| `Layout.MatchesAreValues` | src/api/engine.cpp:160-168 | the row-by-row count of such a table counts the values that satisfy the expression |
| `Layout.AboveAreValues` | src/api/engine.cpp:186-197 | its threshold count counts the values above the threshold |
| `Counting.PopCountsRows` | src/api/engine.cpp:166-167 | the population count of a chunk's mask is the number of its satisfying rows, padding included |
| `Counting.CountLaw` | src/api/engine.cpp:160-168 | for every well-kinded predicate, carry word and row count: the count is the matching rows, less the missed and plus the extra ones, padding included |
| `Counting.ExactCount` | src/api/engine.cpp:160-168 | in scalar mode, and in bit-sliced mode for steady predicates of the fragment or an all-ones carry word, the count is the matching rows plus all padding rows if the predicate holds of the zero row |
| `Counting.CountExactIff` | src/api/engine.cpp:160-168 | for the same predicates the count is exact if and only if 64 divides the row count or the zero row fails |
| `CountConditions.SteadyCountRightIff` | src/api/engine.cpp:160-168 | for every bit-sliced predicate without an EQ leaf to compare whose carries do not matter, OR and further leaves included: the count is never too low, and right if and only if every row that the first three leaves accept matches and, with padding, they do not accept the zero row |
| `CountConditions.EqCountRightIff` | src/jit/compiler.cpp:515-531 | with an EQ leaf among the first three the count is zero under every carry word, so it is right if and only if no row matches |
| `CountConditions.NoLeafCountRightIff` | src/jit/compiler.cpp:544-547 | without leaves every row of every chunk is counted, so the count is right if and only if there is no padding and every row matches |
| `CountConditions.DifferenceCount` | src/jit/compiler.cpp:364 | the emitted count of a GT with one difference d against c, but for the first row of each chunk: `d > c` loses the rows with d = c + 1 and gains those with d = 0 and c not all ones; `c > d` loses those with d = 0 and c not 0 and gains those with c = d not 0; all padding is counted if the shifted zero row compares true |
| `Rows.PopCountsAbove` | src/api/engine.cpp:190-194 | padding never exceeds an unsigned threshold, so each chunk counts its real rows only |
| `Chunks.FillBuffer` | src/api/engine.cpp:121-127 | a buffer ends as the gathered column, transposed in place in bit-sliced mode |
| `Chunks.KernelRuns` | src/api/engine.cpp:132-135 | either mode's kernel on a chunk's buffers halts with its answers for the chunk's rows |
| `Chunks.ProcessChunk` | src/api/engine.cpp:113-137 | bit r of the chunk's mask is the kernel's answer for the chunk's row r, so its population count counts the rows answered with yes |
| `Engine.CollectFields` | src/api/engine.cpp:49-65 | the second traversal writes each reachable loaded field's descriptor at its index and overwrites no other entry wrongly |
| `Engine.Trim` | src/api/engine.cpp:69-74 | trimming removes exactly the trailing nulls |
| `Engine.TrimmedIsCollected` | src/api/engine.cpp:46-74 | after both, the entry at an index is the registered descriptor of the name with that index |
| `Engine.CollectedIsBound` | src/api/engine.cpp:46-77 | when all loaded fields are registered no entry is missing |
| `Engine.CountChunks` | src/api/engine.cpp:160-168 | the chunk loop returns the count over whole chunks |
| `Engine.CountChunksAbove` | src/api/engine.cpp:186-197 | the single-field loop returns exactly the number of rows above the threshold |
| `Engine.ApexEngine.SetLogic` | src/api/engine.cpp:27-35 | an unknown field changes nothing; otherwise the comparison kernel of the threshold is bound to the field |
| `Engine.ApexEngine.SetExpression` | src/api/engine.cpp:37-78 | installs kernel and fields exactly when the compiler succeeds; otherwise the earlier expression stays |
| `Engine.ApexEngine.ExecuteExpression` | src/api/engine.cpp:139-173 | returns the whole-chunk count of the installed expression on the given data |
| `Engine.ApexEngine.ExecuteLogic` | src/api/engine.cpp:175-198 | returns exactly the rows above the threshold for every row count |
| `Engine.ApexEngine.Execute` | src/api/engine.cpp:139-198 | the expression has priority over the threshold; with neither the count is zero |
| `Engine.ApexEngine.ExecuteParallel` | src/api/engine.cpp:200-217 | an expression runs in parallel and returns the whole-chunk count of the visited rows; a threshold comparison runs sequentially and stays exact |
| `ParallelRunner.Share` | src/compute/parallel_runner.cpp:129-130 | a share is the largest multiple of 64 that fits once for every thread, or 64 when none does |
| `ParallelRunner.WithinRowsIff` | src/compute/parallel_runner.cpp:137-141 | every started range lies inside the rows if and only if 64 divides the total or it exceeds 64 times one less than the threads |
| `ParallelRunner.RangesPartition` | src/compute/parallel_runner.cpp:137-147 | started ranges are aligned, adjoin one another and cover the rows |
| `ParallelRunner.SharesAddUp` | src/compute/parallel_runner.cpp:154-159 | the first k workers together count exactly the rows they have covered |
| `ParallelRunner.Worker` | src/compute/parallel_runner.cpp:29-113 | a worker counts its own range, padded at its end |
| `ParallelRunner.Run` | src/compute/parallel_runner.cpp:117-160 | the joined total is the whole-chunk count of the visited rows |
| `ParallelRunner.ParallelIsSequential` | src/compute/parallel_runner.cpp:117-160 | without overrun the sum over threads is what one pass counts |
| `ParallelRunner.OverrunAgreesIff` | src/compute/parallel_runner.cpp:137-141 | with overrun it is so if and only if the memory after the last row matches as often as zero padding |
| `ParallelRunner.EveryScheduleKeeps` | src/compute/parallel_runner.cpp:143-147 | under every interleaving each thread's progress is the count of its own range so far |
| `ParallelRunner.AnySchedule` | src/compute/parallel_runner.cpp:149-159 | under every interleaving in which all threads end the sum of the slots is the same |
| `ParallelRunner.CanFinish` | src/compute/parallel_runner.cpp:143-152 | every schedule can be continued until all threads end |
| `ChunkClaiming.ScalarReferenceCount` | benchmarks/bench_apex_final.cpp:26-34 | the reference loop counts the prices above the threshold |
| `ChunkClaiming.KernelGivesMask` | benchmarks/bench_apex_final.cpp:106-113 | the mask a worker obtains is the comparison of its chunk |
| `ChunkClaiming.StepKeepsInv` | benchmarks/bench_apex_final.cpp:91-124 | each claim, count and merge keeps the claimed chunks, their owners and the counted matches consistent |
| `ChunkClaiming.RunSchedule` | benchmarks/bench_apex_final.cpp:135-142 | every interleaving of the workers' steps keeps the invariant of the launch |
| `ChunkClaiming.ClaimsAreExact` | benchmarks/bench_apex_final.cpp:91-124 | under every schedule the claimed chunks are those below the counter, each with one owner, and merged plus unmerged matches are those of the counted chunks |
| `ChunkClaiming.TotalAtJoin` | benchmarks/bench_apex_final.cpp:135-144 | at join the total is the reference count of all whole chunks |
| `ChunkClaiming.TotalExactIff` | benchmarks/bench_apex_final.cpp:57-144 | it is the reference count of all rows if and only if no row after the last whole chunk matches |
| `ChunkClaiming.CounterAtJoin` | benchmarks/bench_apex_final.cpp:91-93 | at join the counter has been fetched once for every whole chunk and once more by every worker |
| `ChunkClaiming.CanFinish` | benchmarks/bench_apex_final.cpp:91-142 | every schedule can be continued until every worker has merged |
| `Witnesses.EmittedSubtractionFails` | src/jit/compiler.cpp:364 | compiled with the emitted carry word, `a - b > 0` on rows with a = b = 5 returns all ones but bit 0; the scalar kernel returns 0 |
| `Witnesses.CompareDifference` | src/jit/compiler.cpp:265-713 | building, compiling and running that expression both ways gives those two words |
| `Witnesses.OrIsDropped` | src/jit/compiler.cpp:460-472 | the bit-sliced kernel of `a > 0 OR a > 0` returns all ones where a is 0 in every row and no row matches |
| `Witnesses.EqualIsNeverTrue` | src/jit/compiler.cpp:515-531 | the bit-sliced kernel of `a == a` returns 0, and every row matches |
| `Witnesses.FourthLeafIsIgnored` | src/jit/compiler.cpp:516 | the bit-sliced kernel of three leaves `a > 0` and a fourth `0 > a` returns all ones where a is 1, and no row matches |
| `Witnesses.NinthFieldIsReadBeyond` | src/jit/compiler.cpp:586-592 | the scalar kernel of a comparison of the sum of nine fields is that of a well-kinded predicate and reads past the pointer array |
| `Witnesses.PaddingIsCounted` | src/api/engine.cpp:160-168 | one row and the predicate 1 > 0: 64 rows are counted in every mode and one matches |
| `Witnesses.OverrunIsCounted` | src/compute/parallel_runner.cpp:137-141 | 65 rows, three threads and matching memory after them: the sum over threads is not the sequential count |
| `Witnesses.TailIsDropped` | benchmarks/bench_apex_final.cpp:57-144 | one price above the threshold: every finished run of the claiming workers totals 0, the reference counts 1 |

## Left out

- Ir.NodePool.Load: names hold no NUL character, at which the original's copy would stop.
- ComparisonKernel.CompileComparison: the diagnostic output is not part of the model.
- Instruction encoding, `JitRuntime::add`, executable memory and bytecode dumps: instructions are modelled, not bytes, so a kernel that assembles but cannot be installed is not part of the model. The same holds for encoding limits of immediates.
- The four-instruction load of a constant pool address (src/jit/compiler.cpp:398-399) is one instruction of the machine; the same sequence is proved for data words.
- The frame pointer's value is an address in a block that no program reads; registers that a kernel reads before writing hold an arbitrary value.
- NOT, SELECT, LSL and LSR: they can be built and analysed, but neither compiler emits an operation for them, so they are outside `WellKinded`.
- `emit_mux`: no compiler calls it.
- `NodePool::reset` is not modelled; null operands can be built, but kernel theorems take well-kinded expressions, whose operands are present.
- Several schemas, registering a schema twice and building the schema registry: an engine holds one schema as a map from names to descriptors.
- ScalarCorrectness.ScalarKernelDecides: asks for at most eight field names, because with a ninth the kernel reads past its pointer array (`ScalarFaults.ReadsBeyondIff`), and for at most 512 nodes, which a pool of 128 never exceeds.
- Engine.ApexEngine.ExecuteExpression: asks for a well-kinded predicate and, in scalar mode, at most eight fields; so do Engine.ApexEngine.Execute and Engine.ApexEngine.ExecuteParallel. A ninth field makes the kernel read past its pointer array; NOT, SELECT, LSL and LSR have no meaning here.
- Loaded fields that are not registered: the original leaves a null pointer that the kernel or the worker then follows; counting is proved for registered fields, and `Engine.TrimmedIsCollected` says which entries are missing.
- Rows whose 8-byte reads leave the data: the original reads past the end; counting asks for readable rows.
- Counts are unbounded; the original's 64-bit totals would wrap only beyond 2^64 rows.
- Failure of allocation or thread creation.
- Threads of `ParallelRunner::run` are one loop in the methods; their interleaving is the step relation that `ParallelRunner.AnySchedule` is about. Each step of that relation is a whole chunk, since threads share nothing they write.
- Steps of the claiming workers are the atomic counter's claim, the counting of one held chunk and the merge into the atomic total; relaxed memory order is not modelled beyond each atomic's own order.
- The spot-check record of the first and last chunk (benchmarks/bench_apex_final.cpp:118-132) and the benchmark's other phases.
- Prefetching, scheduling hints, alignment, padding between results and timing: no effect on results.
- The data viewer, shared-memory transport, serialisation and the C, Java and Python interfaces: plumbing around the engine.
