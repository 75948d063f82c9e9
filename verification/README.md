# A verified model of the T0 compiler and of the codecs of the HTTPS wrapper

Two parts of the repository are modelled and proved in Dafny.

**The T0 compiler** (`BearTLS/bearssl/T0`). T0 is a Forth-like language. A word is built from control-flow calls
(`Builder`), its stack effect is checked by a data-flow analysis (`Flow`, `Explore`, `FlowAnalysis`), and a set of words
is compiled to bytes whose jump offsets have a variable length (`SevenE`, `Layout`, `Image`). Two machines give programs
a meaning: the CPU over opcodes that runs at compile time (`SourceMachine`) and the run loop over bytes that the compiler
writes into its output (`ByteMachine`). The main results:

* Every run of the CPU is matched by a run of the bytes with the same data stack, locals and call chain; when the CPU
  leaves the outermost word the run loop leaves with the same data stack and with its return stack as it was before the
  entry (`CodeMap`, `Simulation`).
* The layout loop ends for every program, on the smallest self-consistent layout, and every jump lands on the first byte
  of its target (`Layout`).
* A successful analysis records the exact summary of every word, and every failure of the analysis points at a real
  defect. In every run of an analysed word there is no underflow, every word called, at any depth, changes the height by
  its recorded effect and leaves what is below its inputs alone, and both stacks stay within the computed limits
  (`RunSafety`, `Called`), which are exact under conditions stated in `Limits`.
* Both together: an analysed program, compiled and run on a return stack of the computed size, never faults in any run of
  its bytes and agrees with the CPU (`EndToEnd`). `Example` takes small programs through every step, so the hypotheses can
  be met, and shows where compilation loses something.
* The flow analysis means what it says: its edges are the moves of the CPU, and what it records are least bounds
  (`FlowMeaning`). Definitions mean what they say: literals, branches, loops, calls and any shuffle of the stack through
  locals, built by the word builder and run by the CPU (`Definitions`).
* Integer literals denote their mathematical value, or overflow is reported, although the parser's accumulator wraps
  (`Literals`).

**The wrapper library** (`BearTLS/wm_https.c`, `BearTLS/wm_cert_store.c`): the base64 encoder and the two streaming
decoders against digit strings read as numbers (`Digits`, `Base64`, `Base64Text`), PBKDF2 over any HMAC (`Kdf`), the
chunked hashcash search over any hash (`Hashcash`), and the capacity argument of the trust store with what it takes from a
bundle (`CertStore`, `PemBundle`).

Objects that the sources update in place are classes here (`WordBuilder`, `Analyser`, `CodeBlock`, `Cpu`, `RunLoop`,
`Blob`, `Context`, `Store`); each method is proved against a function of the old state, and the theorems are about those
functions. `Machine32` writes out the fixed widths and shifts of C and C#. Words are named by their index in one table.

## Where the code and its description differ

* `README.md:196` of the repository says that the compiled-in trust anchors are always appended. A `roots.pem` within its
  size limit that holds an acceptable certificate often enough, more than 256 times, leaves no room for any of them
  (`CertStore.RootsStarved`). They all are appended exactly when the bundle and they fit the capacity together
  (`CertStore.RootsKeptIff`), which holds whenever there are at most 256 markers and the file reads the same twice
  (`CertStore.CompiledRootsAppended`); without slack it holds only then (`CertStore.RootsKeptIffFew`).
* `Word.MaxDataStack` takes a minimum with 0, so the recorded limit ignores the growth of native words: a word that only
  calls a word like `dup` is recorded with 0 and ends one item higher (`RunSafety.DataLimitExceeded`). The limit is a true
  bound exactly when no call of a native or data word ends above it (`Limits.DataLimitIff`, `Limits.TightRun`); adding the
  largest growth of such a word always gives a bound (`RunSafety.BoundedRun`).
* A data word is recorded with no return stack use but is compiled to a called word that needs one cell: a return stack
  of exactly `MaxReturnStack` cells can be overrun (`Example.ReturnLimitExceeded`). It is exactly when a data word is called
  from frames that fill it (`EndToEnd.ReturnLimitIff`), never when no data word is called, and never with one cell more
  (`EndToEnd.NeverFaults`).
* `T0_SBYTE` drops the continuation bit of non-negative values: a five-byte constant is read back exactly when bit 31 of
  its value is set (`SevenE.ExprRoundTrip`, `Example.WideConstantLost`).
* `T0_ENTER` decodes the local count as a 7E number even in one-byte code, where it was written as one plain byte: the
  count is read back exactly when it is below 128 (`CodeMap.OneBytePrologue`, `Example.ManyLocalsLost`).
* A local read before it is written is 0 for the CPU and a stale cell for the run loop: they agree exactly when the cell
  holds 0 (`Simulation.UnwrittenLocal`, `Example.FreshLocalDiffers`).
* The exploration queue of the analysis has one slot per opcode and no bound check. A ring of reachable jumps, such as
  `begin again`, is never analysed successfully (`FlowAnalysis.RingNeverAnalysed`); neither are some sound words without
  one (`QueueExample.TangleNeverAnalysed`). A load of jumps of at most one per opcode always fits (`Explore.BudgetStep`).

## Model

| member | source | states |
|---|---|---|
| SevenE.Encode7EUnsigned | BearTLS/bearssl/T0/CodeElement.cs:59-75 | the loops append the 7-bit chunks of the value, most significant first, and return their number; without a writer only the number is computed (what these bytes are is `UnsignedText`) |
| SevenE.Encode7ESigned | BearTLS/bearssl/T0/CodeElement.cs:77-99 | the same for signed values, with room for the sign bit in the first chunk |
| SevenE.UnsignedText | BearTLS/bearssl/T0/CodeElement.cs:59-75 | an unsigned value is written by its base-128 digits, with the continuation bit on all bytes but the last, in the smallest number of bytes: at most k exactly below 2^(7k) |
| SevenE.SignedText | BearTLS/bearssl/T0/CodeElement.cs:77-99 | a signed value likewise in two's complement, in at most k bytes exactly from -2^(7k-1) to 2^(7k-1) - 1 |
| SevenE.T0Parse7EUnsigned | BearTLS/bearssl/T0/T0Comp.cs:1699-1714 | the emitted decoder loop, with its wrapping accumulator, computes the recursive reading of a chunk string, or runs past the end |
| SevenE.T0Parse7ESigned | BearTLS/bearssl/T0/T0Comp.cs:1716-1737 | the same for the signed decoder, including the sign fill and the overflow-free negation |
| SevenE.UnsignedMeaning | BearTLS/bearssl/T0/T0Comp.cs:1699-1714 | any terminated string, of any length and canonical or not, is read as the 32-bit pattern of the number its digits write |
| SevenE.SignedMeaning | BearTLS/bearssl/T0/T0Comp.cs:1716-1737 | the signed decoder reads such a string in two's complement, bit 6 of the first byte being the sign |
| SevenE.DecodersOverrun | BearTLS/bearssl/T0/T0Comp.cs:1699-1737 | both run past the block exactly when no byte from the pointer on ends a number |
| SevenE.UnsignedRoundTrip | BearTLS/bearssl/T0/CodeElement.cs:59-75 | any unsigned 32-bit value encoded anywhere in a code block is decoded to itself, and exactly its bytes are consumed |
| SevenE.SignedRoundTrip | BearTLS/bearssl/T0/CodeElement.cs:77-99 | any signed 32-bit value, five-byte wrapping forms included, is decoded to itself, and exactly its bytes are consumed |
| SevenE.ListRoundTrip | BearTLS/bearssl/T0/CodeElement.cs:59-99 | any list of signed and unsigned values followed by arbitrary bytes is read back exactly |
| SevenE.BitLength | BearTLS/bearssl/T0/TPointerExpr.cs:81-96 | the loops compute the bit length |
| SevenE.BitLenRange | BearTLS/bearssl/T0/TPointerExpr.cs:81-96 | the bit length is at most k exactly for the values of the k-bit two's complement range |
| SevenE.GetMaxBitLength | BearTLS/bearssl/T0/TPointerExpr.cs:62-74 | the width reserved for a shifted range, capped at 32 |
| SevenE.ReservedWidth | BearTLS/bearssl/T0/TPointerExpr.cs:62-74 | below the cap, that width is at most k exactly when both ends fit the k-bit two's complement range, and the operand has as many bytes as those bits need |
| SevenE.SByteValue | BearTLS/bearssl/T0/T0Comp.cs:1741 | T0_SBYTE sets the continuation bit exactly when bit 31 is set |
| SevenE.ExprRoundTrip | BearTLS/bearssl/T0/T0Comp.cs:1739-1746 | a value of a declared range of at most 28 bits, written with T0_INTn in the reserved width, is read back as itself; a five-byte one exactly when bit 31 of its pattern is set |
| Layout.ElemLenMonotone | BearTLS/bearssl/T0/CodeElementJump.cs:52-78 | longer elements never shorten a jump, forwards or backwards, so the next lengths grow with the current ones |
| Layout.RoundsGrow | BearTLS/bearssl/T0/T0Comp.cs:1663-1679 | no element shrinks from one round of the layout loop to the next |
| Layout.RoundsLeast | BearTLS/bearssl/T0/T0Comp.cs:1663-1679 | every round stays below every self-consistent assignment of lengths |
| Layout.RoundsBounded | BearTLS/bearssl/T0/T0Comp.cs:1663-1679 | element lengths never exceed the number of elements plus 10, whatever the round |
| Layout.RoundProgress | BearTLS/bearssl/T0/T0Comp.cs:1663-1679 | totals never decrease and are bounded, and a round that keeps the total has reached a self-consistent assignment: comparing totals is enough |
| Layout.CodeBlock.GetLength | BearTLS/bearssl/T0/CodeElementJump.cs:52-62 | the length of an element from the Address and LastLength fields of the round before |
| Layout.CodeBlock.Layout | BearTLS/bearssl/T0/T0Comp.cs:1663-1679 | the loop ends for every program; then addresses and lengths are those of a self-consistent assignment, the smallest one |
| Layout.CodeBlock.Encode | BearTLS/bearssl/T0/CodeElementJump.cs:80-96 | one element is written as its opcode and operand; it fails exactly when a one-byte code number exceeds 255 |
| Layout.CodeBlock.EncodeAll | BearTLS/bearssl/T0/T0Comp.cs:1788-1792 | the emitted block is the concatenation of the elements, or some number does not fit |
| Layout.EmittedAt | BearTLS/bearssl/T0/T0Comp.cs:1663-1679 | after the layout every element's bytes start exactly at its address, and the block has the computed total length |
| Layout.JumpLands | BearTLS/bearssl/T0/CodeElementJump.cs:69-96 | the offset decoded from a placed jump, added to the address after it, is the address of its target |
| Image.AssignSlots | BearTLS/bearssl/T0/T0Comp.cs:1564-1615 | the two passes over the words compute the slot function: C snippets merged by text first, then the words without C code |
| Image.SlotsSeparate | BearTLS/bearssl/T0/T0Comp.cs:1564-1615 | equal slots mean the same word or the same C snippet |
| Image.SlotOrder | BearTLS/bearssl/T0/T0Comp.cs:1564-1615 | slots follow the table: C snippets from 7 in the order they are first met, then the words without C code in order |
| Image.SlotsFilled | BearTLS/bearssl/T0/T0Comp.cs:1564-1615 | and no number in between is left out |
| Image.Gather | BearTLS/bearssl/T0/T0Comp.cs:1631-1643 | the elements of all compiled words in order, with the index of the first element of each |
| Image.AddressTable | BearTLS/bearssl/T0/T0Comp.cs:1797-1804 | t0_caddr holds the laid-out addresses of those elements, in 16 bits |
| Image.Generate | BearTLS/bearssl/T0/T0Comp.cs:1627-1804 | the output is the image of the program, in one-byte code exactly when 7, the snippets and the compiled words together stay below 256; generation fails exactly when one-byte code meets a word with more than 255 locals |
| SourceMachine.Cpu.Push | BearTLS/bearssl/T0/CPU.cs:105-114 | the item is on top, whether or not the buffer had to grow |
| SourceMachine.Cpu.Pop | BearTLS/bearssl/T0/CPU.cs:97-100 | the top is removed; an empty stack fails |
| SourceMachine.Cpu.EnterWord | BearTLS/bearssl/T0/CPU.cs:65-73 | a frame with the return position and fresh locals is pushed |
| SourceMachine.Cpu.Step | BearTLS/bearssl/T0/T0Comp.cs:1415-1416 | one turn of the CPU loop (fetch, advance, run the opcode) on the CPU object is one step of the machine the theorems are about, with failures, the hand-over to a native word and the outermost return |
| ByteMachine.RunLoop.Enter | BearTLS/bearssl/T0/T0Comp.cs:1813-1821 | T0_ENTER on the registers and the return stack memory |
| ByteMachine.RunLoop.Step | BearTLS/bearssl/T0/T0Comp.cs:1908-1945 | the seven built-in cases of the switch, with the exit of the outermost return |
| ByteMachine.RunLoop.Turn | BearTLS/bearssl/T0/T0Comp.cs:1903-1967 | one turn of the loop: the next opcode is read in either form and dispatched |
| CodeMap.OpStands | BearTLS/bearssl/T0/WordInterpreted.cs:106-123 | every opcode of every word stands in the code block at its own address, with its slot number and operand |
| CodeMap.OpcodeBytes | BearTLS/bearssl/T0/OpcodeJumpUncond.cs:48-51 | the bytes of every opcode: its number, 0 for a return, 1 for a constant, 2 and 3 for locals, 4 to 6 for the jumps, then its operand, a jump holding the distance from the next opcode to its target; a call is a number from 7 up |
| CodeMap.DataBytes | BearTLS/bearssl/T0/WordData.cs:89-95 | the bytes of a data word: no locals, its address as a constant, a return |
| CodeMap.JumpTurn | BearTLS/bearssl/T0/T0Comp.cs:1927-1945 | a compiled jump leads to the address of its target opcode, or to the next opcode |
| CodeMap.EnterTurn | BearTLS/bearssl/T0/T0Comp.cs:1813-1821 | entering a compiled word packs the return address and the local count and arrives at its first opcode |
| CodeMap.EnterFaults | BearTLS/bearssl/T0/T0Comp.cs:1813-1821 | entering leaves the return stack memory exactly when the cell for the return address lies outside |
| CodeMap.DataTurns | BearTLS/bearssl/T0/WordData.cs:89-95 | a compiled data word pushes its address and returns |
| CodeMap.OneBytePrologue | BearTLS/bearssl/T0/T0Comp.cs:1813-1821 | in one-byte code, the local count of a compiled word, read by T0_ENTER where the table says, is read back exactly when it is below 128 |
| Simulation.StepData | BearTLS/bearssl/T0/WordData.cs:75-95 | the native push of a data word on the CPU is matched by three turns of the run loop, the first of which uses one more return stack cell |
| Simulation.DataCallFault | BearTLS/bearssl/T0/WordData.cs:89-95 | at a call of a data word the run loop faults exactly when the frames fill the return stack memory |
| Simulation.SimStep | BearTLS/bearssl/T0/T0Comp.cs:1903-1967 | whatever the opcode, one CPU step is matched by one or more turns of the run loop between related states; unless a snippet runs, those turns only depend on the state |
| Simulation.SimRun | BearTLS/bearssl/T0/T0Comp.cs:1903-1967 | every run of the CPU is matched by a run of the bytes ending in a related state |
| Simulation.EntryRelated | BearTLS/bearssl/T0/T0Comp.cs:1824-1831 | entering a word from outside saves return address 0 and relates the two machines |
| Simulation.HaltMatches | BearTLS/bearssl/T0/T0Comp.cs:1911-1920 | when the CPU leaves the outermost word the run loop reads the saved address 0 and leaves, with the return stack as before the entry |
| Simulation.CompiledRun | BearTLS/bearssl/T0/T0Comp.cs:1813-1967 | the compiler theorem, over whole runs from the entry to the outermost return |
| Simulation.NativeReflected | BearTLS/bearssl/T0/T0Comp.cs:1952-1960 | whatever a C snippet does in the run loop, the CPU can do in the related state |
| Simulation.UnwrittenLocal | BearTLS/bearssl/T0/CPU.cs:175-179 | a local read before it is written agrees exactly when the stale cell holds 0 |
| Code.SubEffectIff | BearTLS/bearssl/T0/SType.cs:104-127 | a sub-effect: on every stack with the declared inputs the computed ones are there too, and a word that exits leaves that stack as high as declared |
| FlowMeaning.EdgeIsMove | BearTLS/bearssl/T0/WordInterpreted.cs:175-224 | an edge of the flow is a move that the CPU can make, with the same change of height; at a call, the return of a word that exits |
| FlowMeaning.StuckIff | BearTLS/bearssl/T0/CPU.cs:97-100 | an opcode other than a call takes just as many items as the CPU needs not to get stuck |
| FlowMeaning.DepthIs | BearTLS/bearssl/T0/WordInterpreted.cs:229-252 | the computed inputs are the least number of items with which every reachable opcode finds what it takes |
| FlowMeaning.DataLimitIs | BearTLS/bearssl/T0/WordInterpreted.cs:191-208 | the data stack limit is the least bound, not below 0, on the heights after reachable opcodes, a call being charged with the limit of the called word |
| FlowMeaning.ReturnLimitIs | BearTLS/bearssl/T0/WordInterpreted.cs:191-193 | the return stack limit, before the word's own frame, is the least bound on those of the called words |
| FlowMeaning.NativeLimit | BearTLS/bearssl/T0/Word.cs:150-171 | the limit recorded for a native word that exits is the greatest lower bound of 0 and its growth; 0 and unknown otherwise |
| Flow.ComputedExit | BearTLS/bearssl/T0/WordInterpreted.cs:247-252 | the computed number of outputs is never negative: a word that can return is never recorded as never returning |
| Flow.SummaryUnique | BearTLS/bearssl/T0/WordInterpreted.cs:142-268 | the summary of a word does not depend on the order of exploration |
| Flow.SummaryStable | BearTLS/bearssl/T0/WordInterpreted.cs:142-268 | analysing more words does not change the summary of a finished one |
| Explore.AdvanceCloses | BearTLS/bearssl/T0/WordInterpreted.cs:170-226 | a turn that does not fail records only reachable heights, and every edge of the processed opcode leads to a recorded height |
| Explore.LoopSummary | BearTLS/bearssl/T0/WordInterpreted.cs:170-229 | when the loop ends, its four counters are the exact summary over all paths: one height per offset, one exit height, every bound attained |
| Explore.TurnProgress | BearTLS/bearssl/T0/WordInterpreted.cs:170-226 | queue entries used, offsets marked, entries taken: every turn increases them lexicographically |
| Explore.BudgetStep | BearTLS/bearssl/T0/WordInterpreted.cs:212-224 | the queue holds exactly the jump chains of the entered opcodes, so it cannot overflow when their load is at most the number of opcodes |
| Explore.OrderedStep | BearTLS/bearssl/T0/WordInterpreted.cs:212-224 | the target of a processed jump is processed after it |
| FlowAnalysis.Analyser.MergeSA | BearTLS/bearssl/T0/WordInterpreted.cs:127-140 | records a new height, confirms an equal one, fails on a different one or outside the array |
| FlowAnalysis.Analyser.Propagate | BearTLS/bearssl/T0/WordInterpreted.cs:212-225 | the second part of a turn on the arrays, with queue overflow and bad offsets as failures |
| FlowAnalysis.Analyser.Visit | BearTLS/bearssl/T0/WordInterpreted.cs:175-210 | the effect of the current opcode and the counters, analysing the called word first |
| FlowAnalysis.Analyser.Summarise | BearTLS/bearssl/T0/WordInterpreted.cs:154-226 | the exploration loop ends, with the exact summary or a genuine failure |
| FlowAnalysis.Analyser.AnalyseFlow | BearTLS/bearssl/T0/WordInterpreted.cs:142-268 | always ends; success records the exact summaries, accepted through the declared effect, of the word and of all it calls, and means that the exploration of each got to its end; every exception reports a real defect: two paths at different heights, a real call cycle, a really unknown effect, an exploration that really meets a full queue, or a declaration that the flow does not keep at some height with the declared inputs |
| FlowAnalysis.DeclarationKeptIff | BearTLS/bearssl/T0/WordInterpreted.cs:254-263 | a declared effect is accepted exactly when, at every height with the declared inputs, no reachable opcode lacks an item and every reachable return is at the declared height |
| FlowMeaning.RecordedIs | BearTLS/bearssl/T0/WordInterpreted.cs:229-268 | what a finished word records: least inputs and limits over its reachable opcodes, 1 cell and its locals above the limits of its callees, the height of every return; a declared effect is kept and is one that the flow keeps |
| FlowAnalysis.TurnClash | BearTLS/bearssl/T0/WordInterpreted.cs:127-140 | a stack action mismatch means two paths reach one offset at different heights |
| FlowAnalysis.CycleFound | BearTLS/bearssl/T0/WordInterpreted.cs:144-152 | a recursive call is reported only for a cycle of calls that the flow reaches |
| FlowAnalysis.CallsDescend | BearTLS/bearssl/T0/WordInterpreted.cs:192-193 | the return stack limit strictly decreases along every call of an analysed word |
| FlowAnalysis.NoCallCycle | BearTLS/bearssl/T0/WordInterpreted.cs:142-268 | the calls reachable from an analysed word never come back to a word |
| FlowAnalysis.RingNeverAnalysed | BearTLS/bearssl/T0/WordInterpreted.cs:212-224 | a word with a reachable ring of jumps is never recorded as analysed, so its analysis never succeeds |
| FlowAnalysis.OverflowNeverAnalysed | BearTLS/bearssl/T0/WordInterpreted.cs:212-224 | neither is a word whose exploration meets a full queue |
| Explore.EndsOrOverflows | BearTLS/bearssl/T0/WordInterpreted.cs:170-226 | the exploration gets to its end or meets a full queue, never both |
| QueueExample.BeginAgainNeverAnalysed | BearTLS/bearssl/T0/WordInterpreted.cs:212-224 | the word `begin again` is never recorded as analysed |
| QueueExample.TangleTyped | BearTLS/bearssl/T0/WordInterpreted.cs:170-229 | four opcodes with jumps to jumps have a summary: one height for each reachable offset |
| QueueExample.TangleJumpsEnd | BearTLS/bearssl/T0/WordInterpreted.cs:212-224 | they are well formed and have no ring of jumps |
| QueueExample.TangleOverflows | BearTLS/bearssl/T0/WordInterpreted.cs:212-224 | yet their exploration meets a full queue |
| QueueExample.TangleNeverAnalysed | BearTLS/bearssl/T0/WordInterpreted.cs:212-224 | so the queue alone makes the analysis reject words that are sound |
| FlowAnalysis.SimpleJumpsFit | BearTLS/bearssl/T0/WordInterpreted.cs:163-218 | when no jump lands on a jump the queue load is at most one entry per opcode |
| RunSafety.SafeRun | BearTLS/bearssl/T0/WordInterpreted.cs:175-268 | in every run of an analysed entry word: nothing below its inputs is touched, the CPU is never stuck at any call depth, and its return has changed the height by exactly the recorded effect |
| Called.CalledWordSafe | BearTLS/bearssl/T0/WordInterpreted.cs:175-193 | the same for every word called in the run, at any depth: its inputs are there, nothing below them changes while its frame lives, and at its return the height has changed since the call by exactly its recorded effect |
| RunSafety.BoundedRun | BearTLS/bearssl/T0/WordInterpreted.cs:191-229 | in every run the frames use at most MaxReturnStack cells, and the height stays within MaxDataStack plus the largest growth of a native or data word |
| RunSafety.DataLimitExceeded | BearTLS/bearssl/T0/Word.cs:150-162 | an analysed word whose run ends above its recorded MaxDataStack |
| Limits.WithinIff | BearTLS/bearssl/T0/WordInterpreted.cs:191-208 | the heights the flow of a word reaches respect its computed limit exactly when those after its calls do |
| Limits.DataLimitIff | BearTLS/bearssl/T0/Word.cs:150-162 | all words reachable by calls keep their heights within their MaxDataStack exactly when none of their calls of native or data words (or of words declared to return that never do) ends above it |
| Limits.TightRun | BearTLS/bearssl/T0/WordInterpreted.cs:191-208 | under that condition no run of the word, at any call depth, exceeds the entry height by more than MaxDataStack |
| Limits.NoGrowthFits | BearTLS/bearssl/T0/Word.cs:150-162 | a word whose native and data callees do not grow the stack meets the condition |
| Limits.DupExceeds | BearTLS/bearssl/T0/Word.cs:150-162 | the word that calls `dup` does not |
| EndToEnd.CheckedProgramRuns | BearTLS/bearssl/T0/T0Comp.cs:1813-1967 | analysed, compiled and run with MaxReturnStack cells (one more if a word reachable by calls calls a data word): every run of the CPU is matched, the run loop does not fault, and both leave together |
| EndToEnd.EveryByteRun | BearTLS/bearssl/T0/T0Comp.cs:1903-1967 | conversely, every run of the bytes from the entry is followed by a run of the CPU |
| EndToEnd.NeverFaults | BearTLS/bearssl/T0/T0Comp.cs:1903-1967 | no run of the bytes from the entry of an analysed word ever comes to a fault, and one that leaves the loop does so with the stack of a CPU run that leaves the word |
| EndToEnd.ReturnLimitIff | BearTLS/bearssl/T0/Word.cs:164-171 | exactly MaxReturnStack cells are enough for a run if and only if it never calls a data word from frames that fill them; otherwise the run loop faults at the first such call |
| Example.DupRuns | BearTLS/bearssl/T0/T0Comp.cs:1813-1967 | a concrete program meets every hypothesis of that theorem and leaves with the expected stack |
| Example.ReturnLimitExceeded | BearTLS/bearssl/T0/Word.cs:164-171 | an analysed program with a data word overruns a return stack of MaxReturnStack cells |
| Example.WideConstantLost | BearTLS/bearssl/T0/T0Comp.cs:1741-1746 | the constant 5, declared up to 2^31 - 1, is not read back |
| Example.ManyLocalsLost | BearTLS/bearssl/T0/T0Comp.cs:1813-1821 | a word with 128 locals in one-byte code is entered with none and runs out of the code |
| Example.FreshLocalDiffers | BearTLS/bearssl/T0/CPU.cs:175-179 | a program that reads a local it never wrote pushes 0 on the CPU and the stale cell in the run loop |
| Builder.WordBuilder.CSRoll | BearTLS/bearssl/T0/WordBuilder.cs:101-107 | succeeds exactly for a depth inside the control-flow stack, and moves that entry to the top |
| Builder.WordBuilder.CSPick | BearTLS/bearssl/T0/WordBuilder.cs:113-117 | pushes a copy of an entry; succeeds exactly when the index lies in the buffer |
| Builder.WordBuilder.CSPush | BearTLS/bearssl/T0/WordBuilder.cs:119-128 | the entry is on top, whether or not the buffer had to grow |
| Builder.WordBuilder.CSPop | BearTLS/bearssl/T0/WordBuilder.cs:130-133 | the top is removed; an empty stack fails |
| Builder.WordBuilder.Literal | BearTLS/bearssl/T0/WordBuilder.cs:182-185 | adds the constant and no name to resolve |
| Builder.WordBuilder.CallExt | BearTLS/bearssl/T0/WordBuilder.cs:227-230 | adds the call of the given word and no name to resolve |
| Builder.WordBuilder.Ret | BearTLS/bearssl/T0/WordBuilder.cs:297-300 | adds a return |
| Builder.WordBuilder.Call | BearTLS/bearssl/T0/WordBuilder.cs:201-222 | a local is read, or written after `>`; anything else becomes a call to resolve by name |
| Builder.WordBuilder.DefLocal | BearTLS/bearssl/T0/WordBuilder.cs:272-279 | the next free number; fails exactly when the name is taken |
| Builder.WordBuilder.AheadOf | BearTLS/bearssl/T0/WordBuilder.cs:306-332 | an unresolved forward jump, with its origin on the control-flow stack |
| Builder.WordBuilder.Then | BearTLS/bearssl/T0/WordBuilder.cs:338-343 | the jump at the origin on top is resolved to the end of the code; succeeds exactly when it is still unresolved |
| Builder.WordBuilder.AgainOf | BearTLS/bearssl/T0/WordBuilder.cs:358-384 | a jump back to the destination on top; fails on anything else |
| Builder.WordBuilder.Build | BearTLS/bearssl/T0/WordBuilder.cs:72-84 | fails unless the control-flow stack is empty; otherwise the word has the code, with a return appended if the end can be reached |
| Builder.Complete | BearTLS/bearssl/T0/WordBuilder.cs:72-84 | why: with no origin left, no jump is unresolved |
| Builder.AnyDefinition | BearTLS/bearssl/T0/WordBuilder.cs:60-384 | any sequence of builder calls makes a word exactly when no call fails and the control-flow stack ends empty; then every jump lands on an opcode, the last opcode never falls through, and each forward jump was resolved exactly once |
| Builder.Define | BearTLS/bearssl/T0/WordBuilder.cs:60-384 | the builder object makes exactly that word, or fails exactly then |
| Builder.Resolve | BearTLS/bearssl/T0/WordInterpreted.cs:59-72 | calls by name get their targets; fails exactly when a name is unknown |
| Builder.ResolvedWord | BearTLS/bearssl/T0/WordInterpreted.cs:59-72 | a built and resolved word is one that analysis and compilation accept |
| Builder.IfElse | BearTLS/bearssl/T0/kern.t0:10 | for branches of any builder calls that restore the control-flow stack and only add code, `else` as `ahead 1 cs-roll then` makes the first jump skip to the second branch and the second jump skip that branch |
| Definitions.LiteralWord | BearTLS/bearssl/T0/WordBuilder.cs:182-185 | a definition of literals builds their constants, in order, and a return |
| Definitions.LiteralsRun | BearTLS/bearssl/T0/OpcodeConst.cs:37-40 | and running it leaves them on the stack, each as its 32-bit pattern |
| Definitions.SkipWord | BearTLS/bearssl/T0/WordBuilder.cs:306-343 | a forward jump around literals is resolved to skip exactly their constants |
| Definitions.SkipRun | BearTLS/bearssl/T0/OpcodeJumpIf.cs:38-44 | it skips them when the popped flag is nonzero, when it is zero, or always and without popping, by its kind |
| Definitions.BranchWord | BearTLS/bearssl/T0/kern.t0:10 | `if`, `else` and `then` around literals build the two jumps over the two branches |
| Definitions.BranchRun | BearTLS/bearssl/T0/OpcodeJumpUncond.cs:28-61 | running it leaves the literals of the first branch for a nonzero flag, those of the second one for zero |
| Definitions.LoopRun | BearTLS/bearssl/T0/WordBuilder.cs:358-384 | `begin` with a conditional jump back drops flags for as long as they make the jump, and the first one that does not |
| Definitions.CallRun | BearTLS/bearssl/T0/CPU.cs:65-92 | a call of a word of literals, or of a data word, leaves its items and comes back to the opcode after the call |
| Definitions.ShuffleWord | BearTLS/bearssl/T0/WordBuilder.cs:201-279 | names declared, written and read through calls by name build the writes and reads of their numbers |
| Definitions.ShuffleRun | BearTLS/bearssl/T0/CPU.cs:154-163 | any rearrangement of the topmost items through locals: each read copies the item that its name took |
| Literals.TryParseLiteral | BearTLS/bearssl/T0/T0Comp.cs:2025-2084 | a token is quoted by its first character; it is a number exactly when it is an optional sign, an optional radix prefix and at least one digit of that radix, digits being known by their place in the alphabet; the result is plus or minus the number the digits write, modulo 2^32, and overflow is reported exactly outside -2^31 to 2^32 - 1 |
| Digits.NumInjective | BearTLS/wm_https.c:889-967 | equally many digits that write the same big-endian number are equal |
| Base64Text.Places | BearTLS/wm_https.c:868-887 | characters and sextets correspond by place in the standard and the URL-safe alphabet |
| Base64Text.EncodedText | BearTLS/wm_https.c:923-967 | the encoded text, character by character: the URL-safe characters of the base-64 digits of the bytes' number, completed by zero bits, and no more of them than needed |
| Base64Text.DecodedText | BearTLS/wm_https.c:889-921 | text up to the first `=` or NUL, in either alphabet, decodes to the leading whole bytes of the number its characters write |
| Base64Text.BadText | BearTLS/wm_https.c:889-921 | a character of neither alphabet before the end makes it undecodable |
| Base64Text.KeptText | BearTLS/wm_cert_store.c:1129-1166 | the certificate decoder gives the leading whole bytes of the number written by the characters of the standard alphabet, wherever they stand, and by no others |
| Base64.DecodeNumber | BearTLS/wm_https.c:889-921 | decoded bytes are the leading bits of the number the sextets write |
| Base64.BitBuffer | BearTLS/wm_https.c:909-919 | the wrapping 32-bit accumulator still yields the next byte and the bits left over |
| Base64.HashcashDecode | BearTLS/wm_https.c:889-921 | the bytes of the text up to `=` or the end; -1 exactly when a character is in neither alphabet or the bytes do not fit |
| Base64.CertDecode | BearTLS/wm_cert_store.c:1129-1166 | the bytes of the characters of the standard alphabet, all others dropped; 0 when they do not fit |
| Base64.DecodersAgree | BearTLS/wm_cert_store.c:1118-1166 | on text of the standard alphabet both decoders read the same sextets |
| Base64.B64Encode | BearTLS/wm_https.c:923-967 | succeeds exactly when the buffer exceeds the encoded length, and then holds the text and a NUL |
| Base64.EncodeNumber | BearTLS/wm_https.c:923-967 | the sextets write the number of the bytes followed by the padding bits |
| Base64.RoundTrip | BearTLS/wm_https.c:889-967 | decoding the encoded text returns the bytes, for every length |
| Kdf.Pbkdf2 | BearTLS/wm_https.c:1119-1205 | succeeds exactly for present arguments, positive length and iteration count and a salt of 1 to 64 bytes (so the size check in the loop never fires), and fills the output with the derived key, which `KeyBits` spells out |
| Kdf.Block | BearTLS/wm_https.c:1162-1179 | the inner loops leave the xor of the whole U chain of the block |
| Kdf.KeyBits | BearTLS/wm_https.c:1150-1198 | bit b of byte k of the key is the parity of that bit over exactly as many strings as iterations, the first hashed from the salt and the four-byte number k / 64 + 1 and each further one from the string before it |
| Kdf.ChainParity | BearTLS/wm_https.c:1166-1179 | every bit of a block is the parity of that bit over its U chain |
| Kdf.DerivedByte | BearTLS/wm_https.c:1189-1197 | byte k of the key is byte k mod 64 of block k / 64 + 1, whatever the length asked for |
| Kdf.ShorterIsPrefix | BearTLS/wm_https.c:1143-1198 | a shorter key is a prefix of a longer one |
| Digits.StoreNumber | BearTLS/wm_https.c:1156-1160 | the four bytes after the salt write the block number |
| Hashcash.Digest | BearTLS/wm_https.c:1045-1071 | the chunked updates feed the hash exactly the big-endian nonce and the token 262144 times, unless the clock runs out |
| Hashcash.Search | BearTLS/wm_https.c:1024-1092 | the loop finds the least nonce whose digest prefix is at or below the threshold, or there is none in time |
| Hashcash.Solve | BearTLS/wm_https.c:990-1095 | succeeds exactly when the arguments are right, the text fits and the least accepted nonce is reached in time, and then leaves the text of that nonce |
| Hashcash.AnswerMeans | BearTLS/wm_https.c:1042-1081 | the answer in numbers: the first four bytes of the digest of the four-byte nonce and 262144 copies of the token write a number within the threshold, no smaller nonce does as well, and the clock has not run out at any 32nd chunk below 1023 so far |
| Hashcash.ThresholdIs | BearTLS/wm_https.c:969-976 | the threshold is twice the low six bits plus one, scaled by the power of two that the high bits give |
| Hashcash.NonceTextIs | BearTLS/wm_https.c:923-967 | the six characters are the base-64 digits of the nonce followed by four zero bits |
| Hashcash.NonceTextDecodes | BearTLS/wm_https.c:1073-1077 | that text has six characters and decodes to four bytes that load back as the nonce |
| Hashcash.LeastUnique | BearTLS/wm_https.c:1042-1092 | there is at most one answer |
| Hashcash.EasierIsEarlier | BearTLS/wm_https.c:969-976 | thresholds increase with the easiness, so an easier task is answered by no later a nonce |
| CertStore.FindText | BearTLS/wm_cert_store.c:1078-1094 | the loop computes the recursive search |
| CertStore.FirstMatchIs | BearTLS/wm_cert_store.c:1078-1094 | the search gives a match with none before it, or there is none |
| PemBundle.SearchIs | BearTLS/wm_cert_store.c:1078-1094 | which is the first place from there on where the characters of the marker stand, or there is none |
| CertStore.CountPemCerts | BearTLS/wm_cert_store.c:1096-1116 | the greedy count of markers, capped at 256 |
| CertStore.GreedyIsMaximal | BearTLS/wm_cert_store.c:1096-1116 | no family of non-overlapping markers is larger than the greedy one |
| PemBundle.CountIs | BearTLS/wm_cert_store.c:1096-1116 | the count, before the cap, is the largest number of markers that stand in the text without overlapping |
| PemBundle.BodiesAre | BearTLS/wm_cert_store.c:1240-1266 | the loader takes what stands between each first marker and the first footer behind it, going on behind that footer, until a marker or footer is missing |
| PemBundle.AnchorsAre | BearTLS/wm_cert_store.c:1252-1263 | the certificates of a bundle are the bodies that decode to 1 to 8192 bytes, in order |
| PemBundle.BuiltAre | BearTLS/wm_cert_store.c:1313-1339 | appending certificates appends the anchors of the accepted ones, in order |
| CertStore.Store.Alloc | BearTLS/wm_cert_store.c:1048-1076 | both blocks or none |
| CertStore.Store.LoadPemRoots | BearTLS/wm_cert_store.c:1210-1271 | appends the anchors of the bundle's blocks in order, up to the capacity; the count equals the next free slot and stays within capacity |
| CertStore.Store.AppendBuilt | BearTLS/wm_cert_store.c:1313-1339 | appends the compiled-in roots that decode, up to the capacity |
| CertStore.Store.Init | BearTLS/wm_cert_store.c:1272-1343 | the store holds the first `capacity` of the bundle's anchors followed by the compiled-in ones, the capacity coming from the counting read; every early return leaves it as it was |
| PemBundle.StoreIs | BearTLS/wm_cert_store.c:1272-1343 | the store after any initialisation: its capacity is the compiled-in certificates and at most 256 counted markers of a file of 1 to 524288 bytes, and it holds as many as fit of the bundle's anchors followed by the compiled-in ones |
| CertStore.BodiesBound | BearTLS/wm_cert_store.c:1240-1266 | the loader never meets more blocks than the greedy count |
| CertStore.CompiledRootsAppended | BearTLS/wm_cert_store.c:1272-1343 | after an initialisation with at most 256 markers and two equal reads, the store holds all the anchors of the bundle and then every compiled-in root that decodes |
| CertStore.RootsKeptIff | BearTLS/wm_cert_store.c:1298-1339 | after any initialisation, the store holds all of them exactly when the anchors of the loading read and the compiled-in roots together fit the compiled-in certificates plus the count of the counting read; otherwise the first roots that still fit follow the bundle |
| CertStore.RootsKeptIffFew | BearTLS/wm_cert_store.c:1298-1339 | when every marker starts a block, all blocks and roots are accepted and both reads agree, that is exactly when there are at most 256 markers |
| CertStore.RootsStarved | BearTLS/wm_cert_store.c:1272-1343 | for any certificate the decoder accepts: a file within the size limit that holds it 256 times plus once for each compiled-in certificate fills every slot, and no compiled-in root is appended |
| CertStore.StarvedInit | BearTLS/wm_cert_store.c:1272-1343 | initialising from that file leaves exactly its anchors |

## Left out

* BearSSL itself: SHA-256, HMAC-SHA512 and the certificate decoder are arbitrary functions; the TLS engine, RSA, EC and
  AES are not part of this model.
* Sockets, registry, files, heap, threads and the DLL entry: what a file read, an allocation or a clock check gives is a
  parameter.
* `wm_tls_open`, `wm_tls_read`, `wm_tls_write`, `wm_tls_close`, request building and `wm_mega_rsa_decrypt_session`:
  plumbing around code that is not shown.
* Progress messages; a timeout of the hashcash search is a possible failing outcome at each clock check.
* The T0 tokenizer, string and character constants, C snippet text, the command line and the textual form of the C
  output: the bytes of the code block and the run loop are modelled directly.
* The choice of the words to compile (the closure of the entry points) and the check of the entry points against the
  declared stack sizes: the compiled table is a parameter, and every word of it is compiled.
* Words that are interpreted at compile time but have C code for the output: a word is native, data or compiled.
* Pointer-valued constants, `execute`, `co`, `roll` and `pick`: constants are integers, and native words are any relation
  between data stacks that keeps to the declared effect.
* The list building of `GenerateCodeElements` and the references set by `FixUp`: the elements of a word are a function of
  the word, and jump targets are element indices from the start.
* C strings: a password is the bytes before its terminator, and a file is the text of its bytes.
* `TPointerXT` and `TPointerBlob` constants, and the data block: a data word pushes a given address.
* Limits of the host: list capacities, 32-bit wrap-around of stack heights in the analysis and of the code length.
* Bounds of the data stack in the run loop: its memory is taken to be as large as `RunSafety.BoundedRun` asks.
* Linked `Frame` objects are a sequence of frames, code elements are parallel arrays in one object, and the analysis fields
  of all words are one sequence in one object: sharing between those objects is not modelled.
- FlowAnalysis.Analyser.AnalyseFlow: whether the exploration of a word meets a full queue is decided by its code alone only
  at both ends (never when the load of jumps is at most the number of opcodes, always on a reachable ring of jumps);
  in between it is stated by the exploration itself, as a function, because it depends on the order of the turns.
- Simulation.CompiledRun: asks that no local is read before it is written, because the machines then differ
  (`Simulation.UnwrittenLocal`), and that code addresses and local counts fit the fields that T0_ENTER packs.
