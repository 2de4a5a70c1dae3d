# Virtines, verified

A Dafny model of the parts of the virtine system where something can go subtly wrong, with
proofs that it does not, or exactly when it does.  `dafny verify dfyconfig.toml` checks all
of it.

**The runtime.**  A virtine is a small virtual machine that runs one function.  `Machine`
holds a virtine as a value (registers and a byte array), its reset state, and the address
checks.  `Hypercalls` is the loop that runs a guest and serves its hypercalls; the guest is
any function from machine to exit reason and machine, the host any function of the calls
made so far.  `Runtime` has the classes of the source (`Virtine`, `Cache`, the registry of
caches), whose methods update fields and arrays in place and are proved against those
functions.  `Pool` is the cache's lock: any number of threads, one step for each shared
access, proved to refine a deque with atomic operations.  `Snapshots` lets any number of
calls interleave while a snapshot hypercall replaces the reset state they share; its main
result is that a call on a virtine reset to a snapshot cannot be told from a call on a newly
booted one.

**The compiler pass.**  `Lang` is a small language with pointers, loops and calls, together
with the instructions the pass emits.  `Renaming` proves that runs do not depend on where
things lie in memory.  `Outline` is the pass itself: the wrapper, the main inside the
virtine, the pruning of the copied module, and the theorem that the pass preserves the
meaning of the whole program, including virtines that call virtines.  `DeadCode` is that
pruning and `TypeFinder` the worklist traversal behind the analysis.

**The C library.**  `LongLong` is the portable multi-word arithmetic, for every half-word
width.  `Leb128` has the variable-length integers of section 7.6 of the DWARF Debugging
Information Format, Version 4.  `Obstack` is the object-stack allocator in both macro
families, and `Chunks` the functions below it, over any allocator.  `GdbStub` is the
debugger stub: packets, and memory commands; `SerialLink` puts its sender and its receiver
at the two ends of a line, as processes that exchange single bytes, and `GdbSessions` spells
out a few exchanges.  `Bits` collects the facts on powers of two and bit operations that
these need, and `Common` a few shared types.

Where the source does not do what one would expect, the model follows the source and states
the exact condition:

- A use cycle that nothing else refers to survives dead-code removal.  The pass keeps only
  what is reachable if and only if every use cycle is reachable (`CompleteIffNoStrayCycle`,
  `StrayCycleSurvives`).
- A buffer that passes the length check lies inside guest memory if and only if its address
  plus length does not wrap around 64 bits (`ValidBufferIsInside`, `WrappingLengthPasses`).
- The check of `load_raw` lets an image through that does not fit if and only if address plus
  size wraps to at most the memory size (`LoadOverruns`).
- A call may be outlined, whatever function is called, if and only if its pointer arguments
  are distinct: given the same pointer twice, a function that adds one through the first loses
  the update (`UnseenIffDistinct`, `AliasLosesUpdate`).  This concerns calls from the host
  only; inside a virtine nothing is lost.
- The stub answers a memory write with OK if and only if every address is there and the write
  does not end at address 0.  So a write of nothing at address 0 is reported as a fault, and so
  is one of the last byte of the address space, which is stored (`WriteHandled`,
  `EmptyWriteAtZero`, `WriteEndingAtZero`).
- The stub acknowledges a packet whatever its checksum says (`FrameRead`), although the code
  that would compare the two is still there; and it returns an overlong packet,
  unterminated, exactly when its running sum is 255 (`PassFull`, `OverlongReturned`).

## Model

| member | source | states |
|---|---|---|
| `Pool.StepMutualExclusion` | src/Cache.cpp:77-85 | no step of any thread puts two threads into the critical section |
| `Pool.StepOwnership` | src/Cache.cpp:158-193 | no step makes a virtine pooled twice, held by two callers, or both pooled and held |
| `Pool.StepConservation` | src/Cache.cpp:87-113 | every virtine ever allocated stays pooled, held, or in the hands of exactly one thread on its way |
| `Pool.StepCounted` | src/Cache.cpp:163-170 | hits plus misses stays the number of gets performed, counting the one under way |
| `Pool.StepRefines` | src/Cache.cpp:158-193 | each step is invisible, or is one atomic operation of the deque, at the unlock: undoing the lock holder's partial work always gives the state the log replays to |
| `Pool.StepInv` | src/Cache.cpp:77-193 | all of these together are kept by every step |
| `Pool.RunInv` | src/Cache.cpp:77-193 | they hold at the end of every interleaving of any number of threads |
| `Pool.Linearizable` | src/Cache.cpp:77-193 | the history of every run replays on the atomic deque, and whenever the lock is free gives just the shared state, with hits plus misses equal to the gets and every virtine pooled or held |
| `Pool.CanStep` | src/Cache.cpp:77-193 | no thread is ever stuck, and an idle one can begin a get, an ensure, or a put of any virtine it holds |
| `Pool.HolderProgress` | src/Cache.cpp:77-193 | the thread inside the lock gives it up: each of its steps brings the unlock one closer, by a count no other thread can raise, and that many steps end its call |
| `Pool.FirstInFirstOut` | src/Cache.cpp:158-193 | in the atomic deque, two virtines put into an empty pool are got in that order and in no other |
| `Pool.EnsuredFirst` | src/Cache.cpp:176-183 | after an `ensure` that made some the pool has the count, and the next hit is the front one of those made |
| `Machine.ValidBufferIsInside` | include/wasp/Virtine.h:70-79 | a buffer that translates and passes the length check lies in guest memory if and only if its end does not wrap |
| `Machine.InsideBufferPasses` | include/wasp/Virtine.h:70-79 | every buffer inside guest memory passes and translates to its own address; one that ends outside without wrapping is refused |
| `Machine.WrappingLengthPasses` | include/wasp/Virtine.h:76-79 | a buffer that wraps passes the check and lies outside |
| `Machine.Overlay` | src/Virtine.cpp:184-188 | copying one region back changes the bytes it covers, to its data, and no others |
| `Machine.OverlaysSame` | src/Virtine.cpp:184-188 | what a covered byte held before a reset does not matter, in whatever order overlapping regions are copied |
| `Machine.OverlaysUncovered` | src/Virtine.cpp:184-188 | a reset leaves bytes that no region covers alone |
| `Machine.OverlaysTop` | src/Virtine.cpp:184-188 | a byte that several regions cover is as the last of them says |
| `Machine.ResetAgrees` | src/Virtine.cpp:176-191 | after a reset the virtine agrees with the reset state on registers and on all memory covered |
| `Machine.ResetErasesHistory` | src/Virtine.cpp:176-191 | two virtines of the same size are the same there after a reset, whatever they did before |
| `Machine.BootedIs` | src/Cache.cpp:93-110 | a newly made virtine has the boot registers, the binary at its start address, and zeros everywhere else |
| `Hypercalls.StepWhitelisted` | src/binding.cpp:140-227 | one turn of the loop adds only host operations whose whitelist bit is set |
| `Hypercalls.OnlyWhitelisted` | src/binding.cpp:39-43 | so does any number of turns, whatever the guest does, and the operations recorded stay recorded |
| `Hypercalls.AllowedIs` | src/binding.cpp:39-43 | a number below 64 is let through if and only if its bit is set, a low half of 0xFF always; the number is the low half of the register as a signed one |
| `Hypercalls.CloseServed` | src/binding.cpp:175-177 | close of the descriptor in rsi: one host call, its value in rax, nothing else changed |
| `Hypercalls.FstatServed` | src/binding.cpp:199-204 | fstat of rsi: the structure arrives at rdx and nothing else in memory changes; refused if rdx plus 144 is past the end |
| `Hypercalls.OpenServed` | src/binding.cpp:179-184 | open: the NUL-terminated name at rsi, flags in rdx, mode in rcx |
| `Hypercalls.ReadServed` | src/binding.cpp:186-190 | read from rsi: at most rcx bytes arrive at rdx, and nothing else in memory changes |
| `Hypercalls.WriteServed` | src/binding.cpp:192-197 | write to rsi: the host sees the rcx bytes from rdx on, and memory stays |
| `Hypercalls.ExitServed` | src/binding.cpp:171-173 | exit ends the call, with the machine as the guest left it |
| `Hypercalls.UnknownServed` | src/binding.cpp:205-214 | any other number let through puts 2^64 - 38 into rax and does nothing else |
| `Hypercalls.SnapshotServed` | src/binding.cpp:151-170 | a snapshot moves rip on by 2, and the reset state becomes those registers and the memory below rdx |
| `Hypercalls.OtherTurns` | src/binding.cpp:219-238 | a number whose bit is clear leaves the guest alone, a crash aborts, an exit ends the call, and other exits go on |
| `Hypercalls.RefusedChangesNothing` | src/binding.cpp:219-226 | a run whose hypercalls are all refused is the guest's own: no error code reaches its registers, no host call is made, the reset state stays |
| `Hypercalls.EmptyWhitelistRefuses` | src/binding.cpp:39-43 | with an empty whitelist that is every run of a guest that keeps to the numbers below 64 |
| `Hypercalls.BuffersInside` | src/binding.cpp:179-204 | each buffer handed to the host lies inside guest memory if and only if its end does not wrap |
| `Hypercalls.DoneStays` | src/binding.cpp:135-239 | once the loop ends nothing more happens |
| `Hypercalls.SnapshotFits` | src/binding.cpp:151-170 | a snapshot taken in any turn fits the memory of every virtine of that size |
| `Hypercalls.ResetStaysFit` | src/binding.cpp:135-239 | and so does the reset state after any run |
| `Snapshots.VersionStep` | src/Cache.cpp:87-113 | each begin, exit, finish or fill keeps every pooled virtine in agreement with the version of the shared reset state it was last reset to |
| `Snapshots.VersionsHold` | src/Cache.cpp:186-193 | this holds in every run with interleaved snapshots, for any guest |
| `Snapshots.PutAlwaysFits` | src/Virtine.cpp:176-191 | whoever took the current snapshot, it fits any virtine that any call is about to return |
| `Snapshots.CanBegin` | src/binding.cpp:119-125 | a call can always begin, with its argument in the first bytes and the rest of the virtine at the front of the pool as it was |
| `Snapshots.CanGoOn` | src/binding.cpp:134-247 | a call under way can take its next turn, one that is done can be returned, and the pool can always be filled |
| `Snapshots.BootSame` | src/binding.cpp:119-147 | until the snapshot, two cold runs with different arguments differ in the argument bytes only |
| `Snapshots.SnapshotStep` | src/binding.cpp:151-170 | the turn that takes the snapshot leaves the machine after boot with the call's own argument, an empty trace and that machine as the reset state |
| `Snapshots.WarmStep` | src/binding.cpp:135-239 | two machines that agree below the snapshot bound go on agreeing, exit alike and make the same host calls |
| `Snapshots.WarmEqualsCold` | src/binding.cpp:119-247 | after any number of exits a call on a virtine reset to a snapshot, whoever used it before, has the status, host-call trace and argument bytes of the cold run that many exits after its boot |
| `Snapshots.ColdHolds` | src/Cache.cpp:158-193 | in every interleaving each pooled virtine is fresh or warm and each call under way tracks its own cold run |
| `Snapshots.EveryCallLooksCold` | src/binding.cpp:119-247 | in every interleaving of calls sharing a cache, each result (argument bytes out, host calls) is the one a newly booted virtine gives for that argument |
| `Snapshots.CallCompletes` | src/binding.cpp:135-239 | a call whose cold run ends also ends, within as many exits, on whatever virtine it was given |
| `Snapshots.SomeSnapshotIsBoot` | src/binding.cpp:135-239 | a guest that boots, takes a snapshot of half its memory, writes its argument to a file, counts it up and exits meets the assumption of these theorems |
| `Snapshots.EchoResult` | src/binding.cpp:135-239 | that guest ends with the one host call that shows its argument, and the argument counted up |
| `Snapshots.SomeRunsEcho` | src/binding.cpp:39-43 | there are a setup and a whitelist for it |
| `Runtime.CopyIn` | src/Virtine.cpp:184-188 | the copy loop writes the region into the array and nothing else |
| `Runtime.Virtine.constructor` | src/Virtine.cpp:87-107 | a new virtine has the boot registers, no memory, and those registers as its own reset state |
| `Runtime.Virtine.SetResetMask` | include/wasp/Virtine.h:109-114 | the mask becomes the reset state in force |
| `Runtime.Virtine.SaveResetState` | src/Virtine.cpp:110-115 | the reset state in force takes the registers and no region |
| `Runtime.Virtine.SaveResetStateWith` | src/Virtine.cpp:118-123 | the reset state in force, shared or own, takes the registers and the given regions |
| `Runtime.LoadOverruns` | src/Virtine.cpp:277-281 | the check passes an image that does not fit if and only if the sum wraps to at most the memory size |
| `Runtime.Virtine.AllocateMemory` | src/Virtine.cpp:138-165 | rejects a size of 0 and one that is no multiple of 4096, leaving memory alone; otherwise memory is new and zero |
| `Runtime.Virtine.ResetToState` | src/Virtine.cpp:176-191 | the loop over regions gives the machine value `ResetVm` describes |
| `Runtime.Virtine.LoadRaw` | src/Virtine.cpp:277-290 | loads an image that fits; refuses, changing nothing, where the 64-bit sum is too large; tells where that sum wrapped and the copy would leave memory |
| `Runtime.Cache.SetBinary` | src/Cache.cpp:116-120 | any binary becomes the one that the first reset state will hold |
| `Runtime.Cache.Allocate` | src/Cache.cpp:87-113 | a new virtine reset to the shared reset state; the first one has the boot registers, the binary at its address and zeros elsewhere; an exception if the memory size cannot be mapped |
| `Runtime.Cache.Get` | src/Cache.cpp:158-174 | the front of the pool, counted as a hit, or a newly allocated virtine, counted as a miss, or the exception of that; the other virtines are untouched and share no memory with it |
| `Runtime.Cache.Put` | src/Cache.cpp:186-193 | the virtine goes to the back of the pool, reset to the shared state, and no other changes |
| `Runtime.Cache.Ensure` | src/Cache.cpp:176-183 | the pool is topped up at the front to the count, never cut, with freshly booted virtines; an exception leaves it as it was |
| `Runtime.TakeSnapshot` | src/binding.cpp:151-170 | the shared reset state becomes the machine just after the `out` instruction with memory up to the bound given |
| `Runtime.Perform` | src/binding.cpp:175-204 | one host operation: its reply in `rax`, what it stores in guest memory, its entry in the trace |
| `Runtime.ServeHypercall` | src/binding.cpp:150-218 | the switch on a virtine and its shared reset state does what `Serve` does on values |
| `Runtime.RunOnce` | src/binding.cpp:135-239 | one turn of the loop is one `LoopStep`; the copy of the registers that gets the error code of a refusal is dropped |
| `Runtime.Prepare` | src/binding.cpp:121-132 | the argument is in the first bytes, the rest of memory as it was, and both rip and rsp at 0x8000 when snapshots are off |
| `Runtime.StartedIs` | src/binding.cpp:121-132 | so starts every call: of the machine taken, only these bytes and registers are changed |
| `Runtime.StartIsBegin` | src/binding.cpp:121-125 | with snapshots that is how a call of `Snapshots` begins |
| `Runtime.RunToEnd` | src/binding.cpp:135-239 | the loop ends in the state `Iterate` gives |
| `Runtime.Execute` | src/binding.cpp:121-242 | argument in, run, argument out: copied out only when the call completes |
| `Runtime.Registry.GetCache` | src/binding.cpp:27-37 | one cache for each code: found again unchanged, or created empty, whatever its size and binary, with the binary at 0x8000 |
| `Runtime.Registry.PutBack` | src/binding.cpp:244-246 | the virtine goes back to the cache of its code |
| `Runtime.Registry.RunCached` | src/binding.cpp:119-247 | the call once the cache is there: the virtine taken from the front returns, reset, to the back of the same pool |
| `Runtime.Registry.RunVirtine` | src/binding.cpp:100-247 | a whole call, the first of its code or a later one: outcome, host calls and argument bytes are those of the loop on values, or `get` throws |
| `Runtime.FirstIsCold` | src/binding.cpp:100-239 | with snapshots the first call of a code, as `RunVirtine` gives it, is the cold call of `Snapshots`, exit by exit |
| `Runtime.LaterIsBegin` | src/binding.cpp:119-239 | a later one is the call of `Snapshots` on the virtine at the front of the pool |
| `DeadCode.Module.SingleDeadCodePass` | pass/VirtineCompiler.cpp:49-84 | erases just the functions without user, except the root, then just the globals without user left, and tells whether anything went |
| `DeadCode.Module.RemoveDeadCode` | pass/VirtineCompiler.cpp:40-43 | the passes come to an end at the largest set of items in which every item but the root has a user |
| `DeadCode.LargestUnique` | pass/VirtineCompiler.cpp:37-43 | there is only one such set, so the order of erasing does not matter |
| `DeadCode.NoDanglingUse` | pass/VirtineCompiler.cpp:49-84 | whatever a kept item uses is kept |
| `DeadCode.KeepsReachable` | pass/VirtineCompiler.cpp:37-43 | whatever the root reaches is kept |
| `DeadCode.CompleteIffNoStrayCycle` | pass/VirtineCompiler.cpp:37-43 | nothing else is kept if and only if every use cycle is reachable from the root |
| `DeadCode.AcyclicKeepsOnlyReachable` | pass/VirtineCompiler.cpp:37-43 | on acyclic uses exactly the reachable items are kept |
| `DeadCode.CycleKept` | pass/VirtineCompiler.cpp:57-59 | every item on a cycle is kept |
| `DeadCode.StrayCycleSurvives` | pass/VirtineCompiler.cpp:57-59 | any two items that only use each other are kept, though the root reaches neither |
| `TypeFinder.TypeClosureClosed` | pass/VirtineCompiler.cpp:299-316 | the reference closure holds the roots and every subtype of its members |
| `TypeFinder.TypeClosureLeast` | pass/VirtineCompiler.cpp:299-316 | and is the least set that does |
| `TypeFinder.ReachedItemsClosed` | pass/VirtineCompiler.cpp:320-359 | the constants and metadata reachable from values are closed under reference |
| `TypeFinder.ReachedIsLeast` | pass/VirtineCompiler.cpp:320-359 | they are the least set that holds the roots and follows metadata to nodes and values, nodes to nodes and constants, and constants to operands |
| `TypeFinder.ReachedIsCovered` | pass/VirtineCompiler.cpp:320-359 | everything reachable has been visited once all roots have, cycles or not |
| `TypeFinder.Finder.ProcessTop` | pass/VirtineCompiler.cpp:303-315 | one turn of the worklist keeps its invariant (each type marked is processed or waiting, once) and makes progress |
| `TypeFinder.Finder.IncorporateType` | pass/VirtineCompiler.cpp:299-316 | terminates on cyclic types with the visited set closed again and each type in it processed once; adds nothing outside any closed set that holds the type |
| `TypeFinder.Finder.IncorporateMDNode` | pass/VirtineCompiler.cpp:320-336 | terminates on cyclic metadata; everything newly visited has had its operands visited |
| `TypeFinder.Finder.IncorporateValue` | pass/VirtineCompiler.cpp:337-359 | the value, its type and all it refers to are covered, constants and metadata taking turns |
| `TypeFinder.Finder.IncorporateConstant` | pass/VirtineCompiler.cpp:345-358 | a constant is entered once, before its operands, so cycles end |
| `TypeFinder.Finder.OnModule` | pass/VirtineCompiler.cpp:362-401 | the visited types are exactly the subtype closure of the types the program mentions and of those of the constants it reaches; the visited constants and metadata are exactly those reachable; each type was processed once; the structs listed are just the named ones visited |
| `TypeFinder.RootsAreMentioned` | pass/VirtineCompiler.cpp:362-401 | the walk starts from the types of globals, aliases, functions and instructions and from initializers, aliasees, function operands, arguments and non-instruction operands, all of them and nothing else |
| `TypeFinder.RunAnalysis` | pass/VirtineCompiler.cpp:405-426 | the result is the largest integer width in that closure, or -1 if there is none |
| `TypeFinder.HiddenIntegerCounts` | pass/VirtineCompiler.cpp:320-359 | an integer type counts even below the type of an operand of a constant in a metadata node within a node |
| `Renaming.ExecSame` | pass/pass.cpp:100-114 | a statement run on two memories related by an injection of addresses ends alike, in related memories, and changes nothing outside |
| `Renaming.InvokeSame` | pass/pass.cpp:100-114 | likewise a call |
| `Outline.CreateArgumentStruct` | pass/VirtineCompiler.cpp:86-103 | one field for each parameter, its pointee type for a pointer in the surrogate form, and a last one for the result |
| `Outline.CompileFunction` | pass/pass.cpp:83-233 | the builder calls in order emit the wrapper code |
| `Outline.CreateMain` | pass/VirtineCompiler.cpp:108-186 | the builder calls in order emit the main code |
| `Outline.PruneModule` | pass/VirtineCompiler.cpp:29-46 | the functions left in the module copied for a virtine are those of the largest set in which each has a user, main being the root |
| `Outline.PrunedKeeps` | pass/VirtineCompiler.cpp:37-43 | among them are the function itself and all that any of them calls, and of the others only those that one of them calls |
| `Outline.ImagesHold` | pass/VirtineCompiler.cpp:29-46 | the image of a virtine has just these functions, as they were before the pass |
| `Outline.CompileVirtines` | pass/pass.cpp:68-72 | every virtine gets an image pruned from the module as it was before any body is replaced |
| `Outline.ReplaceBodies` | pass/pass.cpp:74-76 | every virtine's body is replaced, in whatever order |
| `Outline.RunOnModule` | pass/pass.cpp:52-80 | the pass, pruning included: every marked function becomes a stub, and every call on the new module returns the same value and leaves the same memory as on the old one, or the old one goes wrong |
| `Outline.MarshalRuns` | pass/pass.cpp:100-114 | the packing code fills a new structure with the scalars and the pointees and changes nothing else |
| `Outline.UnmarshalRuns` | pass/pass.cpp:201-213 | the unpacking code stores each pointer's field through it |
| `Outline.WrittenBackAt` | pass/pass.cpp:201-213 | with distinct pointers each cell gets the field of the pointer to it, and every other cell stays |
| `Outline.UnpackRuns` | pass/VirtineCompiler.cpp:139-158 | main hands the function the scalar fields and the addresses of the pointer fields |
| `Outline.MainRuns` | pass/VirtineCompiler.cpp:161-174 | main runs the function on the structure and leaves its result in the last field |
| `Outline.WrapperRuns` | pass/pass.cpp:83-233 | the wrapper returns the last field of what main left and writes the pointees back |
| `Outline.PruneInvoke` | pass/VirtineCompiler.cpp:40-43 | calls run alike in a module without its dead functions, as long as no kept function calls a removed one |
| `Outline.StubCorrect` | pass/pass.cpp:83-233 | one outlined function returns and leaves in the caller's memory what the original does, for scalars and distinct pointers |
| `Outline.OutlinedExec` | pass/pass.cpp:52-233 | every statement does the same in the outlined module, unless the original misuses a pointer |
| `Outline.OutlinedInvoke` | pass/pass.cpp:52-233 | every call of every function returns the same value and leaves the same memory in the outlined module, virtines calling virtines included, for any kept functions among which no call dangles |
| `Outline.UnseenIffDistinct` | pass/pass.cpp:83-233 | for any parameters and values, no function with these parameters shows that it was outlined if and only if the pointers among the values are distinct |
| `Outline.AliasLosesUpdate` | pass/pass.cpp:201-213 | for any values with an alias, a function that adds one through the first of the two pointers does something else once outlined |
| `LongLong.AddSsaaaa` | libc/include/longlong.h:1597-1605 | two-word addition, exact but for a carry out of the top word |
| `LongLong.SubDdmmss` | libc/include/longlong.h:1607-1615 | two-word subtraction, exact but for a borrow out of the top word |
| `LongLong.Estimate` | libc/include/longlong.h:1672-1675 | the estimated quotient digit is at most two too large and its product fits a word |
| `LongLong.Correct` | libc/include/longlong.h:1676-1683 | at most two corrections, with the carry test in between, give the exact digit and remainder on wrapping words |
| `LongLong.QuotientDigit` | libc/include/longlong.h:1672-1683 | one quotient digit with its remainder, exact |
| `LongLong.UdivQrnnd` | libc/include/longlong.h:1665-1700 | for a normalized divisor above the high word, quotient and remainder of the two-word dividend are exact and fit |
| `LongLong.UmulPpmm` | libc/include/longlong.h:1632-1654 | the two-word product of any two words is exact |
| `LongLong.JoinProducts` | libc/include/longlong.h:1647-1653 | the first partial sum cannot carry, and the second one's carry is found by the comparison |
| `LongLong.UmulFromSmul` | libc/include/longlong.h:1619-1628 | the unsigned product from a signed one, exact for all words |
| `LongLong.SignCorrection` | libc/include/longlong.h:1624-1626 | adding each operand where the other is negative turns the signed high word into the unsigned one |
| `LongLong.TopByte` | libc/include/longlong.h:1732-1737 | the loop ends at the byte that holds the top bit |
| `LongLong.TopQuarter` | libc/include/longlong.h:1726-1731 | so do the comparisons for words of up to 32 bits |
| `LongLong.CountLeadingZeros` | libc/include/longlong.h:1720-1742 | word size minus bit length, the word size for 0, with every table access below 256 |
| `LongLong.CountTrailingZeros` | libc/include/longlong.h:1744-1754 | the place of the lowest bit set, for every non-zero word |
| `LongLong.LowestBitDivides` | libc/include/longlong.h:88-89 | that place is the one such that its power of two divides the word and the next does not |
| `Bits.BitLengthBounds` | libc/include/longlong.h:83-86 | the bit length is the one whose powers of two enclose the number |
| `Leb128.ReadUleb128` | libc/include/leb128.h:53-76 | the bytes up to and including the first without the high bit, and their value modulo 2^64; 0 and no value if there is no such byte |
| `Leb128.ReadSleb128` | libc/include/leb128.h:86-111 | the same bytes, and the 64-bit number that agrees with their signed value modulo 2^64 |
| `Leb128.Extend` | libc/include/leb128.h:106-109 | sign extension is right at every length, at 63 bits and where 70 bits leave none to extend |
| `Leb128.SkipLeb128` | libc/include/leb128.h:119-134 | consumes just the bytes the readers do |
| `Leb128.Agree64Unique` | libc/include/leb128.h:86-111 | only one 64-bit number agrees |
| `Leb128.UnsignedRoundTrip` | libc/include/leb128.h:53-76 | the canonical encoding of any number has that value and ends where the reader stops, whatever follows |
| `Leb128.SignedRoundTrip` | libc/include/leb128.h:86-111 | likewise for signed numbers |
| `Leb128.UnsignedSize` | libc/include/leb128.h:62-72 | a number below 2^(7n) takes at most n bytes |
| `Leb128.SignedSize` | libc/include/leb128.h:95-105 | a number in the signed range of 7n bits takes at most n bytes |
| `Leb128.UnsignedStream` | libc/include/leb128.h:53-76 | any list of 64-bit numbers written one after the other is read back exactly |
| `Leb128.SignedStream` | libc/include/leb128.h:86-111 | any list of signed 64-bit numbers is read back exactly, and as nothing else |
| `Leb128.Truncated` | libc/include/leb128.h:64-65 | every proper prefix of an encoding is refused |
| `Leb128.UnsignedExamples` | libc/include/leb128.h:53-76 | the examples of the standard for unsigned numbers |
| `Leb128.SignedExamples` | libc/include/leb128.h:86-111 | and for signed ones |
| `Obstack.AlignUpIsNext` | libc/include/obstack.h:127-142 | aligning gives the next multiple, or 0 when that is past the end of the address space |
| `Obstack.AlignUpIsLeast` | libc/include/obstack.h:127-142 | it is the least multiple from there on, whenever there is one in the address space |
| `Obstack.MakeRoomOk` | libc/include/obstack.h:297-303 | afterwards there is the room asked for, the growing object has its bytes and no finished object is disturbed; if there was room before, nothing changes |
| `Obstack.GrowOk` | libc/include/obstack.h:313-321 | the data is appended to the growing object, which stays where it is if there is room |
| `Obstack.Grow0Ok` | libc/include/obstack.h:323-332 | the data and a NUL are |
| `Obstack.BlankOk` | libc/include/obstack.h:375-381 | the object grows by that many bytes and keeps those it had |
| `Obstack.FinishBase` | libc/include/obstack.h:408-415 | the next object starts at the first aligned place from the end of this one on, or at the end of the chunk if there is none before, even where the address space wraps |
| `Obstack.FinishOk` | libc/include/obstack.h:403-416 | the growing bytes become an object at the address returned, after the others in its chunk, aligned unless empty; the next one starts in the same chunk, at that first place; the flag is set if and only if it was or the object is empty |
| `Obstack.FreeOk` | libc/include/obstack.h:418-425 | exactly the objects before the freed one stay live, unharmed, and its place is where the next object starts |
| `Obstack.StepOk` | libc/include/obstack.h:285-425 | every macro keeps the invariant, does to the live and growing objects just what it is for, and puts things just where they belong |
| `Obstack.RunKeeps` | libc/include/obstack.h:62-99 | over every run live objects stay disjoint, aligned unless empty and unchanged; base, next free byte and limit stay in order; objects below every freed one never move |
| `Obstack.StepSame` | libc/include/obstack.h:447-527 | one macro does the same in both families but for the scratch field |
| `Obstack.FamiliesAgree` | libc/include/obstack.h:429-527 | so does every sequence of them: same memory, values and fields |
| `Chunks.ImplementationOk` | libc/include/obstack.h:78-81 | a larger chunk with the partly formed object copied to it, the old one given back if that object was all it held, and a walk back through the chain, keep the promise the results rest on, over every allocator |
| `Chunks.AnyFitOk` | libc/include/obstack.h:200-206 | there are allocators that fit, among them one that never refuses when memory can be had |
| `Chunks.EveryRunKeeps` | libc/include/obstack.h:62-99 | so all this holds of a new obstack after any uses of the macros, over any allocator, with nothing left to promise |
| `Chunks.ImplementationTemp` | libc/include/obstack.h:172-176 | and do not touch the scratch field |
| `Chunks.NothingBefore` | libc/include/obstack.h:191-194 | when the flag for empty objects is clear and the growing object is at the start of its chunk, no live object is in that chunk |
| `Chunks.NewChunkKeeps` | libc/include/obstack.h:78-81 | moving to a new chunk, and giving the old one back then, keeps every finished object where it was |
| `Chunks.WalkBackKeeps` | libc/include/obstack.h:96-98 | unwinding to an object in any older chunk keeps exactly the objects before it |
| `Chunks.NewChunkGivesBack` | libc/include/obstack.h:191-194 | the old chunk is given back if and only if it held nothing but the object moved |
| `Chunks.WalkBackGivesBack` | libc/include/obstack.h:96-98 | unwinding gives back all chunks after the one returned to |
| `Chunks.BeginOk` | libc/include/obstack.h:163-198 | a first chunk of sufficient size makes a valid obstack |
| `Obstack.Stack.Reserve` | libc/include/obstack.h:297-303 | `obstack_make_room` on the struct: the step of the macro, with the objects as they were |
| `Obstack.Stack.Append` | libc/include/obstack.h:313-321 | `obstack_grow` on the struct: the growing object is longer by the data |
| `Obstack.Stack.Append0` | libc/include/obstack.h:323-332 | `obstack_grow0` on the struct: and by a NUL |
| `Obstack.Stack.Skip` | libc/include/obstack.h:375-381 | `obstack_blank` on the struct |
| `Obstack.Stack.Complete` | libc/include/obstack.h:403-416 | `obstack_finish` on the struct: one more live object, at the address returned, and the next one begun at the first aligned place after it |
| `Obstack.Stack.Allocate` | libc/include/obstack.h:383-387 | `obstack_alloc` on the struct: a live object of the length asked for on top of what was growing |
| `Obstack.Stack.Copy` | libc/include/obstack.h:389-393 | `obstack_copy` on the struct: a live object that holds what was growing and the data |
| `Obstack.Stack.Release` | libc/include/obstack.h:418-425 | `obstack_free` on the struct: exactly the objects before are live |
| `GdbStub.DigitToHex` | libc/libgloss/debug.c:171-178 | a lower-case digit or numeral that reads back as the number |
| `GdbStub.DigitValues` | libc/libgloss/debug.c:149-178 | the sixteen digits are 0123456789abcdef, and each, in either case, has its value |
| `GdbStub.OnlyDigits` | libc/libgloss/debug.c:149-164 | no other character is a digit, but a NUL counts as 0 |
| `GdbStub.PackDigits` | libc/libgloss/debug.c:227-230 | two digits in either case make the byte they spell |
| `GdbStub.HexRoundTrip` | libc/libgloss/debug.c:187-238 | bytes written in hexadecimal read back |
| `GdbSessions.HexSpelled` | libc/libgloss/debug.c:187-264 | 0xab is written ab, Ab is read as 0xab, and 1a2B as 0x1a2b |
| `GdbStub.SignedIntIs` | libc/libgloss/debug.c:245-264 | the number read is the one of 32 bits, signed, that agrees with what is spelled |
| `GdbStub.ChecksumIsTotal` | libc/libgloss/debug.c:343-351 | the running checksum is the sum of all bytes modulo 256 |
| `GdbStub.FrameRead` | libc/libgloss/debug.c:269-327 | a frame is received as its data after any noise without `$`, whatever its two checksum characters are |
| `GdbStub.PacketRead` | libc/libgloss/debug.c:269-327 | so is any packet of fewer than 2048 bytes, NULs included, each byte without its top bit |
| `GdbStub.FrameReceived` | libc/libgloss/debug.c:269-358 | what `putpacket` sends is received as its data, and the checksum decoded is the running sum |
| `GdbStub.PassFull` | libc/libgloss/debug.c:288-298 | a packet that fills the buffer is returned unterminated if its running sum is 255, and dropped otherwise |
| `GdbStub.OverlongReturned` | libc/libgloss/debug.c:288-298 | 2047 letters a and a grave accent are such a packet |
| `GdbStub.Retransmits` | libc/libgloss/debug.c:332-358 | the sender repeats the whole frame for every answer before the first plus |
| `SerialLink.SendsFrame` | libc/libgloss/debug.c:340-353 | the bytes the sender puts out one by one are the frame |
| `SerialLink.ReceivesFrame` | libc/libgloss/debug.c:278-326 | each byte of a frame takes the receiver to the next place, its buffer holding the payload so far |
| `SerialLink.FeedIsReceive` | libc/libgloss/debug.c:269-327 | the receiving process, fed any bytes, ends as `Receive` says |
| `SerialLink.StepInv` | libc/libgloss/debug.c:269-358 | every step of either party keeps the bytes under way the part of the frame between the two, and leaves one step less to do |
| `SerialLink.NoDeadlock` | libc/libgloss/debug.c:269-358 | someone can move until all packets are exchanged |
| `SerialLink.Exchange` | libc/libgloss/debug.c:269-358 | for any packets of 7-bit characters other than NUL and `#` that fit the buffer, every interleaving ends, all packets are delivered in order and NUL-terminated with equal checksums, one frame was sent for each, both queues are empty, and no run stops before |
| `GdbStub.Stub.GetPacket` | libc/libgloss/debug.c:269-327 | the loops read, store, terminate and acknowledge what `Receive` says |
| `GdbStub.Stub.PutPacket` | libc/libgloss/debug.c:332-358 | the frame is sent as often as it takes until a `+` comes back |
| `GdbStub.Stub.HexToInt` | libc/libgloss/debug.c:245-264 | the longest run of digits and its value as a 32-bit signed number |
| `GdbStub.Stub.MemToHex` | libc/libgloss/debug.c:187-211 | the bytes in hexadecimal, NUL-terminated, unless an address is not there |
| `GdbStub.StoreHex` | libc/libgloss/debug.c:217-238 | succeeds if and only if every address is there; then each byte is what its two digits spell; addresses outside the range keep theirs in any case |
| `GdbStub.Stub.HexToMem` | libc/libgloss/debug.c:217-238 | the loop stores what `StoreHex` says and stops at the first fault |
| `GdbStub.Stub.MakeReturnPacket` | libc/libgloss/debug.c:499-513 | `OK`, or `E` and the number in two digits |
| `GdbStub.Stub.ReadCommand` | libc/libgloss/debug.c:396-405 | parses and answers `m`, error 1 when malformed and error 3 on a fault |
| `GdbStub.Stub.WriteCommand` | libc/libgloss/debug.c:407-417 | parses and answers `M`, error 2 when malformed and error 3 on a fault |
| `GdbStub.Stub.Turn` | libc/libgloss/debug.c:373-447 | one turn of the event loop: receive, handle, reply |
| `GdbStub.WriteHandled` | libc/libgloss/debug.c:559-567 | a well-formed write, with numbers of any size, stores just those bytes; the reply is OK if and only if every address is there and the write does not end at address 0 |
| `GdbStub.EmptyWriteAtZero` | libc/libgloss/debug.c:559-567 | a write of nothing at address 0 is answered with error 3 |
| `GdbStub.WriteEndingAtZero` | libc/libgloss/debug.c:559-567 | `Mffffffff,1:41` stores the byte and is answered with error 3 |
| `GdbStub.ReadHandled` | libc/libgloss/debug.c:543-551 | a well-formed read that fits the reply buffer is answered with the bytes in memory |
| `GdbStub.ParseExact` | libc/libgloss/debug.c:396-417 | a command is malformed if and only if it does not start with two numbers, a comma between them and, for a write, a colon behind |
| `GdbStub.DelegatedExactly` | libc/libgloss/debug.c:379-443 | just the commands ?, d, g, G, c, k and r are left to code of the target |
| `GdbStub.OneCommand` | libc/libgloss/debug.c:373-447 | a command sent and a reply acknowledged is one turn, after any noise |
| `GdbStub.HexReplySendable` | libc/libgloss/debug.c:187-211 | a reply in hexadecimal gets through like any packet |
| `GdbStub.WriteThenRead` | libc/libgloss/debug.c:396-417 | bytes written with `M` are what the next `m` replies, in lower case, for all addresses and lengths however spelled, memory elsewhere being unchanged |
| `GdbSessions.ReadSession` | libc/libgloss/debug.c:396-405 | with 0xab at address 0x1a, `$m1A,1#00+` on the line is answered by `+$ab#c3` |
| `GdbSessions.FaultSession` | libc/libgloss/debug.c:543-551 | with nothing there, by `+$E03#a8` |
| `GdbSessions.WriteSession` | libc/libgloss/debug.c:407-417 | `$M1a,1:Cd#00+` stores 0xcd there and is answered by `+$OK#9a` |
| `GdbSessions.BadReadSession` | libc/libgloss/debug.c:396-405 | `$m1a#00+` is answered by `+$E01#a6` |
| `GdbSessions.BadWriteSession` | libc/libgloss/debug.c:407-417 | `$M1a,1#00+` is answered by `+$E02#a7` |
| `GdbSessions.UnknownSession` | libc/libgloss/debug.c:379-446 | `$q#00+` is answered by `+$#00` |

## Left out

- KVM, `mmap` and its failure, CPUID filtering, reading binaries from files, register dumps: a machine is registers and bytes, and the guest any function on it.
- The classification of KVM exits in `Virtine::run`: the guest function yields the exit reason.
- `Cache::attach`, `detach`, `size` and the per-thread caches: the pool is `m_cache`, as `get_cache` has it.
- `Cache::ensure` with a negative count, and wrap-around of the hit and miss counters.
- Memory orders weaker than sequential consistency, and fairness of the spin lock: the thread inside always gets out, but which waiting one gets in next is left open.
- Races on the shared reset state: saving it and resetting to it are one step each.
- The `abort` after a crash is a final status of the call; a snapshot larger than memory, and a hypercall number that shifts by 64 or more, are undefined in C: the first ends the run, the second gets an arbitrary answer. So is copying a binary or an argument into a memory it does not fit, which `Runtime.Cache.Allocate` and `Runtime.Registry.RunVirtine` exclude.
- Runtime.Registry.RunVirtine: takes a bound on the exits of a guest that ends; the lock a throwing `get` leaves taken is not modelled.
- A NULL argument is modelled in `Runtime` only; in `Snapshots` all calls of one cache have arguments of one size.
- `VirtineCompiler::compile`, `copy_module` and the commands they run: the image is the copied module, after dead-code removal, with its main.
- In `Outline`: virtines that return nothing, pointers to pointers, buffers of several elements, mutable globals, the byte layout of the argument structure, the configuration argument. Locals start as 0.
- Instruction metadata in `TypeFinder`: the loop that would visit it is commented out.
- Inline assembly and `sdiv_qrnnd` in longlong.h; the tables and the signed multiply it uses are parameters.
- LEB128 encodings of more than ten bytes, where C leaves the shift undefined.
- Obstack.GrowOk: a length for which adding 1 wraps, and negative lengths to `obstack_blank`, are not considered, and alignment is relative to address 0.
- `_obstack_newchunk`, `_obstack_free` and `_obstack_begin` have no code in the repository: the first two are any functions that keep the promise in `ChunksOk`, and one pair that does what the header tells of them is shown to keep it. The size of a new chunk is the least that serves.
- Freeing everything with a null object, and `obstack_empty_p`.
- In `GdbStub` and `SerialLink`: commands that call target code, a failing `outbyte`, the sequence numbers after the early return, and `debuglog`. Replies that overrun the buffer, and writes that read beyond the packet, are not specified.
