# Verified core of a HotSpot slice

This project models the parts of the HotSpot sources whose correctness is hardest to see by reading
them, and proves what those parts are for. It is pure Dafny; `dafny verify dfyconfig.toml` checks all of it.
Nothing was executed.

The modules, by subject:

- **Concurrent protocols**, each a step relation over any number of threads, with an inductive invariant over every
  run. `StackLock` is the stack-lock fast path in its C2 and C1 forms. `CasUnderLock` is compare-and-swap emulated
  under a spin lock. `EdenTlab` is bump allocation in eden and in thread-local buffers. `MonitorProtocol` is the
  win32 mutex and condition variable of the debug agent; `AtomicMonitor` is the same monitor with each operation all at
  once, and `MonitorRefinement` proves that the first implements the second. `DebugRendezvous` is the hand-over of debug
  events between the two threads of the debug subprocess, on the atomic monitor.
- **Emitted code on a SPARC machine.** `SparcMachine` has registers, condition codes, the Y register, memory, delay
  slots and annulled branches (sections A.3 to A.10 and the instruction pages of the SPARC Architecture Manual,
  Version 9), for 32-bit and 64-bit registers. On it run the long shifts and compares (`LongOps`, with its arithmetic in
  `ShiftArithmetic`), integer division (`DivRem`), string comparison (`StringCompare`) and constant loading
  (`ConstantSynthesis`). `Widths` proves that code for 32-bit values does the same on registers of both widths.
  `BranchPatch` is the encoding of branch displacements. `Arithmetic`, `Words` and `Wrappers` hold what the modules share:
  facts on division with remainder, 32-bit words, and the option type.
- **Transformations and fast forms against simple forms.** `Peephole` fills delay slots in place and preserves meaning;
  `Emission` is the code emitted for the operations it may move, and proves which of them are one instruction.
  `ArgLayout` is the two-pass argument layout. `CoreReader` is the core-file reader against single-address lookup.
  `LineParse` and `LineFramer` are the resumable line reader against a parse of the whole stream. `ClosureFinder` is the
  class closure against graph reachability.

Where the code does less than one would expect, the project keeps the code and says exactly when it works:

- C1's recursion test forgets the stack bias, so on a biased stack it never succeeds; and a header word that happens to
  lie near a stack breaks mutual exclusion, which holds if and only if it does not
  (`C1NeverRecursesOnBiasedStack`, `ExclusionIffHeaderFar`).
- The free-space tests of eden and buffer allocation compare 32-bit condition codes. On all runs eden is tiled within its
  bounds, buffers are used within theirs and objects are disjoint, if and only if requests to eden are below 4 GB and
  requests to buffers below 2 GB (`AllGoodIff`, `EdenWithinIff`, `ObjectsApartIff`); larger requests give runs in which
  the eden top passes its end and in which objects overlap (`EdenOverrun`, `BufferOverrun`).
- The register checks asserted by the long shifts admit clashes that spoil the result. With registers that pass them, on
  either register width, a shift is right for all operands and counts if and only if the count is no half of the operand,
  results and scratch register are all different, and no result replaces an operand that is still needed
  (`LshlWorksIff`, `LshrWorksIff`); every clash has an operand for which the code is wrong.
- The notification counter of the monitor has 32 bits: every ticket finds a waiter that may take it, in all states with at
  most n notifications, if and only if n is below 2^32 (`TicketFoundIff`, `LostTicket`).
- A debug event released by DETACH is continued with the decision of an earlier CONTINUEEVENT (`DecisionsRespected`).
- A socket read that fills the input buffer completely is lost, and nothing else is (`LineFramer.IOBuf.Receive`,
  `AcceptedIff`); a binary frame ends if and only if its length is between 1 and 2^31 - 4 (`FrameEndsIff`).
- A class-sharing mapping next to other mappings can make a long read of the core file differ from single reads. With full
  file reads the two agree if and only if no class-sharing mapping goes on where another mapping ends inside a page, and
  no other mapping begins inside an exposed part of a class-sharing mapping (`AgreesIffClear`, `SharedTailDisagrees`,
  `SharedStartDisagrees`).
- A file read that ends early is followed by the zeros meant for the end of the mapping. However file reads end, long and
  single reads agree if and only if they do with full ones and no such read can be of a mapping that ends inside a page
  (`AlwaysRightIff`, `CutRead`).
- The delay-slot pass takes three kinds of operations for one instruction that are none or several: a null check with
  checks off, an unaligned move with an index register, and a double in a stack slot of one word. All others it takes for
  one are one (`SingleIsOne`, `PassMisjudges`).
- The printer of argument layouts gives up on a place beyond the first hundred of its kind (`PrintedIff`).
- A constant pool count of 2^15 or more ends the class closure with an exception (`ClosureFinder.Finder.Find`).

## Model

| member | source | states |
|---|---|---|
| `StackLock.C2RecursionTest` | src/cpu/sparc/vm/assembler_sparc.cpp:2962-2978 | the masked difference is zero exactly for aligned addresses in the page above the real stack pointer |
| `StackLock.C1RecursionTest` | src/cpu/sparc/vm/c1_MacroAssembler_sparc.cpp:117-125 | without a bias this is the test of C2; with one it accepts only odd words in the page shifted by the bias, never a box |
| `StackLock.RecursionOnlyByOwner` | src/cpu/sparc/vm/assembler_sparc.cpp:2947-2978 | in both forms a successful recursion test means that the thread already owns the object |
| `StackLock.StepKeepsInv` | src/cpu/sparc/vm/assembler_sparc.cpp:2904-2978 | every step of every thread, C2 or C1, lock or unlock, keeps the invariant on mark word, boxes and owner |
| `StackLock.RunKeepsInv` | src/cpu/sparc/vm/assembler_sparc.cpp:2904-2978 | the invariant holds in all states of all runs |
| `StackLock.MutualExclusion` | src/cpu/sparc/vm/assembler_sparc.cpp:2924-2945 | in every reachable state at most one thread owns the object, the BUSY mark belongs to exactly one thread in its window, and an unowned object has its original header |
| `StackLock.MarkKinds` | src/cpu/sparc/vm/assembler_sparc.cpp:2912-2932 | the mark word is BUSY, the header, or a box on a stack; it never has the monitor bit, and is odd exactly when nobody owns the object |
| `StackLock.SlowArmsUnreachable` | src/cpu/sparc/vm/assembler_sparc.cpp:3140-3144 | no run reaches the code for inflated marks, and no unlocking compare-and-swap loses |
| `StackLock.UnlockRestoresHeader` | src/cpu/sparc/vm/assembler_sparc.cpp:3052-3059 | a balanced unlock of the last box puts the displaced header back into the mark word |
| `StackLock.NearHeaderBreaksExclusion` | src/cpu/sparc/vm/assembler_sparc.cpp:2962-2978 | a run with two owners, for a header word that passes the recursion test of a stack |
| `StackLock.ExclusionIffHeaderFar` | src/cpu/sparc/vm/assembler_sparc.cpp:2962-2978 | mutual exclusion holds on all runs if and only if the header is not near any stack |
| `StackLock.C1NeverRecursesOnBiasedStack` | src/cpu/sparc/vm/c1_MacroAssembler_sparc.cpp:117-125 | with a stack bias the C1 form never takes its recursive path |
| `StackLock.RecursionIff` | src/cpu/sparc/vm/assembler_sparc.cpp:2947-2978 | a C2 thread, or a C1 thread without a bias, that has lost its compare-and-swap gets one more box, marked recursive, if and only if it holds the object and its outermost box is within the page above its stack pointer; otherwise it gets none |
| `StackLock.AloneLocks` | src/cpu/sparc/vm/assembler_sparc.cpp:2912-2945 | left alone, a thread takes a free object: its box, which displaces the header, ends in the mark word |
| `StackLock.AloneUnlocks` | src/cpu/sparc/vm/assembler_sparc.cpp:3052-3059 | an unlock pops the last box; only that of the outermost one changes the mark, back to the header |
| `CasUnderLock.LockExclusion` | src/cpu/sparc/vm/assembler_sparc.cpp:2529-2582 | the lock word reads locked if and only if exactly one thread is between its winning swap and its unlocking store |
| `CasUnderLock.Linearizable` | src/cpu/sparc/vm/assembler_sparc.cpp:2558-2579 | the history of operations is one of an atomic compare-and-swap register whose content is the word in memory; with `RequestServed` its entries are what the threads asked for |
| `CasUnderLock.RequestServed` | src/cpu/sparc/vm/assembler_sparc.cpp:2558-2579 | an operation begun to replace x by y stands in the history with this thread, x, y and the value returned, at a place after its beginning; that value is what the atomic register held just before |
| `CasUnderLock.AloneFinishes` | src/cpu/sparc/vm/assembler_sparc.cpp:2529-2582 | with the lock free and left alone, an operation ends: it returns the word found, which is replaced exactly if it is the expected one, and the lock is free again |
| `CasUnderLock.OncePerOperation` | src/cpu/sparc/vm/assembler_sparc.cpp:2558-2579 | every completed operation of a thread is in the history exactly once, and at most one more is under way |
| `CasUnderLock.ReturnTellsStore` | src/cpu/sparc/vm/assembler_sparc.cpp:2567-2579 | the value returned is the one found, and equals the expected value if and only if the new value was stored |
| `CasUnderLock.RealTimeOrder` | src/cpu/sparc/vm/assembler_sparc.cpp:2529-2582 | an operation whose thread is idle at or after the return of another, and begins then, comes after it in the history |
| `CasUnderLock.RunKeepsInv` | src/cpu/sparc/vm/assembler_sparc.cpp:2529-2582 | the invariant on lock word, holder and history holds in all states of all runs, whatever the spin count |
| `EdenTlab.EdenTestExact` | src/cpu/sparc/vm/assembler_sparc.cpp:3269-3281 | the unsigned 32-bit test lets no too large request pass if and only if the request is below 2^32 |
| `EdenTlab.TlabTestExact` | src/cpu/sparc/vm/assembler_sparc.cpp:3327-3343 | the signed 32-bit test lets no too large request pass if and only if the request is below 2^31 |
| `EdenTlab.FillerReachesEnd` | src/cpu/sparc/vm/assembler_sparc.cpp:3416-3433 | the int array put at the top of a discarded buffer ends exactly at the old end plus the alignment reserve |
| `EdenTlab.StepKeepsInv` | src/cpu/sparc/vm/assembler_sparc.cpp:3231-3465 | every step of every thread, with requests of any size, keeps eden tiled by chunks; it keeps eden's top within eden if eden requests are below 4 GB, and every chunk tiled by its contents if buffer requests are below 2 GB |
| `EdenTlab.RunKeepsInv` | src/cpu/sparc/vm/assembler_sparc.cpp:3231-3465 | the invariant holds in all states of all runs |
| `EdenTlab.EdenIsTiled` | src/cpu/sparc/vm/assembler_sparc.cpp:3255-3289 | objects and buffers tile everything below the eden top, which stays aligned, and within eden if eden requests are below 4 GB |
| `EdenTlab.BuffersAreTiled` | src/cpu/sparc/vm/assembler_sparc.cpp:3404-3465 | with buffer requests below 2 GB, a buffer in use is tiled by its objects up to its top, a replaced one by its objects and one filler up to its end plus reserve |
| `EdenTlab.ObjectsDisjoint` | src/cpu/sparc/vm/assembler_sparc.cpp:3231-3465 | with buffer requests below 2 GB and eden requests of any size, any two objects ever handed out do not overlap |
| `EdenTlab.EdenWithinIff` | src/cpu/sparc/vm/assembler_sparc.cpp:3269-3289 | the eden top stays within eden on all runs if and only if eden requests are below 4 GB |
| `EdenTlab.ObjectsApartIff` | src/cpu/sparc/vm/assembler_sparc.cpp:3327-3343 | with room for a buffer and an object, objects are disjoint on all runs if and only if buffer requests are below 2 GB |
| `EdenTlab.AllGoodIff` | src/cpu/sparc/vm/assembler_sparc.cpp:3231-3465 | eden is tiled within its bounds, buffers are tiled and used within theirs and objects are disjoint on all runs, if and only if requests are below 4 GB and 2 GB |
| `EdenTlab.EdenOverrun` | src/cpu/sparc/vm/assembler_sparc.cpp:3269-3289 | with requests of 4 GB the eden top moves up by 4 GB any number of times, past every end |
| `EdenTlab.BufferOverrun` | src/cpu/sparc/vm/assembler_sparc.cpp:3327-3343 | with requests of 2 GB, a run in which an object of a buffer overlaps an object of eden |
| `EdenTlab.LostRaceGoesSlow` | src/cpu/sparc/vm/assembler_sparc.cpp:3269-3289 | after a lost race the next test sends the thread to the slow case, since free space and end share a register, if and only if the request is not a multiple of 4 GB |
| `EdenTlab.BufferGivesIff` | src/cpu/sparc/vm/assembler_sparc.cpp:3308-3350 | a buffer with less than 2 GB free gives the object at its top exactly if there is room, and its top then is the object's end |
| `EdenTlab.EdenGivesIff` | src/cpu/sparc/vm/assembler_sparc.cpp:3231-3306 | left alone, an eden with less than 4 GB free gives the object at its top exactly if there is room |
| `EdenTlab.RefillDecides` | src/cpu/sparc/vm/assembler_sparc.cpp:3379-3402 | a refill keeps a buffer with more words free than the waste limit, and raises the limit; otherwise it goes to eden |
| `EdenTlab.RefillNotStuck` | src/cpu/sparc/vm/assembler_sparc.cpp:3385-3402 | after finitely many refills that keep the buffer, one goes to eden |
| `EdenTlab.RefillInstalls` | src/cpu/sparc/vm/assembler_sparc.cpp:3404-3465 | with room in eden, and left alone, a refill closes the old buffer by a filler up to its end and the reserve, and installs a new one at the old eden top, with the reserve behind its end |
| `MonitorProtocol.StepKeepsLockInv` | agent/src/os/win32/Monitor.cpp:46-66 | every step passes the baton between holder, signaller, lock event and waiting threads as the lock count says |
| `MonitorProtocol.BatonExclusion` | agent/src/os/win32/Monitor.cpp:46-66 | holders, threads about to signal and the pending event are at most one together, and one exactly when the count is not negative |
| `MonitorProtocol.AssertionsHold` | agent/src/os/win32/Monitor.cpp:46-71 | whoever gets the lock finds no owner, the owner field names exactly the holder, and the lock event is never set twice |
| `MonitorProtocol.TicketsAccounted` | agent/src/os/win32/Monitor.cpp:68-153 | with the lock free: the event is set exactly while tickets are left; tickets issued are wakeups plus tickets left; notified waiters are among the waiters; and tickets are at most the notified waiters in the first 2^32 - 1 notifications |
| `MonitorProtocol.TicketFindsWaiter` | agent/src/os/win32/Monitor.cpp:68-121 | in the first 2^32 - 1 notifications, while tickets are left the event is set and some waiter may take one: no wakeup is lost |
| `MonitorProtocol.TicketFoundIff` | agent/src/os/win32/Monitor.cpp:68-153 | in all reachable states with at most n notifications every ticket finds a waiter that may take it, if and only if n is below 2^32 |
| `MonitorProtocol.LostTicket` | agent/src/os/win32/Monitor.cpp:76-104 | a run whose 2^32nd notification leaves a ticket that its only waiter does not take, since the 32-bit counter is back where the wait began |
| `MonitorProtocol.WakeupIsFresh` | agent/src/os/win32/Monitor.cpp:68-121 | a waiter that takes a ticket was notified after its wait began |
| `MonitorProtocol.UntimedWaitTakesTicket` | agent/src/os/win32/Monitor.cpp:68-121 | a wait without timeout ends only by taking a ticket |
| `MonitorProtocol.RunKeepsInv` | agent/src/os/win32/Monitor.cpp:46-153 | both invariants hold in all states of all runs, timeouts included |
| `MonitorRefinement.StepRefines` | agent/src/os/win32/Monitor.cpp:46-153 | every shared operation of lock, unlock, wait, notify and notifyAll is one move of the atomic monitor, or none |
| `MonitorRefinement.RunRefines` | agent/src/os/win32/Monitor.cpp:46-153 | on every run of the implementation the callers see a run of the atomic monitor |
| `MonitorRefinement.HolderSeesFields` | agent/src/os/win32/Monitor.cpp:68-153 | a caller between operations inside the lock finds the condition variable of the atomic monitor in the fields |
| `AtomicMonitor.AllReturn` | agent/src/os/win32/Monitor.cpp:68-121 | with a ticket for each, any number of sleepers can return, in any order, and the last one resets the event |
| `AtomicMonitor.NotifyAllFreesAll` | agent/src/os/win32/Monitor.cpp:88-153 | after notifyAll all that were waiting can return, in any order, until nobody waits and no ticket is left, unless the 32-bit counter is back where one of them began |
| `AtomicMonitor.NotifyFreesOne` | agent/src/os/win32/Monitor.cpp:88-137 | after notify, one more of those waiting can return |
| `DebugRendezvous.RunKeepsInv` | agent/src/os/win32/SwDbgSub.cpp:81-107 | the invariant on monitor, flags, current event and logs holds in all states of all runs |
| `DebugRendezvous.ReleasedExactlyOnce` | agent/src/os/win32/SwDbgSub.cpp:81-107 | posted events are released in order, each exactly once, and the current event is the one not yet released |
| `DebugRendezvous.ReleaseWakesDebugThread` | agent/src/os/win32/SwDbgSub.cpp:862-875 | a release always finds the debug thread waiting and leaves a ticket it may take |
| `DebugRendezvous.ReleasedThreadFinishes` | agent/src/os/win32/SwDbgSub.cpp:96-107 | after a release the debug thread, left alone, hands the event on with the decision in force |
| `DebugRendezvous.DecisionsRespected` | agent/src/os/win32/SwDbgSub.cpp:102-105 | events are continued in order, with the decision of their own CONTINUEEVENT, or of the last one before a DETACH |
| `DebugRendezvous.DecidedAt` | agent/src/os/win32/SwDbgSub.cpp:862-870 | the decision in force at each release, from the sequence of releases |
| `DebugRendezvous.RepliesTellOutstanding` | agent/src/os/win32/SwDbgSub.cpp:808-875 | POLLEVENT reports the first event not yet released, and CONTINUEEVENT succeeds exactly when there is one |
| `DebugRendezvous.NothingPostedDetached` | agent/src/os/win32/SwDbgSub.cpp:598-616 | nothing is posted from a DETACH until the next ATTACH; that something is posted after an ATTACH is in the next rows |
| `DebugRendezvous.PostsIffAttached` | agent/src/os/win32/SwDbgSub.cpp:94-107 | on every run, an event of a kind that is posted becomes the current event, at the end of those posted, if and only if the last ATTACH or DETACH served is an ATTACH; otherwise it is handed on as it came; no other step posts |
| `DebugRendezvous.EventIsPosted` | agent/src/os/win32/SwDbgSub.cpp:81-107 | with the lock free and left alone, the debug thread posts an event if its kind is posted and the debugger is attached, and hands it on as it came otherwise |
| `DebugRendezvous.MessageIsServed` | agent/src/os/win32/SwDbgSub.cpp:598-616 | with the lock free and left alone, the main thread serves a message and reads again: ATTACH and DETACH switch posting, DETACH and CONTINUEEVENT release the current event, POLLEVENT and CONTINUEEVENT reply |
| `DebugRendezvous.ServedAsRead` | agent/src/os/win32/SwDbgSub.cpp:590-616 | a message read is the one served: no other is served until the main thread reads again |
| `DebugRendezvous.EventKept` | agent/src/os/win32/SwDbgSub.cpp:81-107 | the event that came is the one the debug thread has in hand until it waits for the next, and nothing is reported meanwhile |
| `DebugRendezvous.EventReported` | agent/src/os/win32/SwDbgSub.cpp:96-107 | when it waits again it has reported the outcome of that event, and nothing else |
| `DebugRendezvous.StepsAreMoves` | agent/src/os/win32/SwDbgSub.cpp:81-107 | both threads touch lock and condition variable only by operations of the atomic monitor: every step is at most two of its moves |
| `LongOps.LshlCorrect` | src/cpu/sparc/vm/assembler_sparc.cpp:2116-2177 | on 32-bit and 64-bit registers the code leaves the 64-bit left shift by the count modulo 64 in the lower halves of the result pair, which may replace operands or count; nothing else changes but count and scratch |
| `LongOps.LshrCorrect` | src/cpu/sparc/vm/assembler_sparc.cpp:2180-2241 | the same for the arithmetic right shift |
| `LongOps.LushrCorrect` | src/cpu/sparc/vm/assembler_sparc.cpp:2244-2303 | the same for the logical right shift |
| `LongOps.LcmpV9Correct` | src/cpu/sparc/vm/assembler_sparc.cpp:2066-2108 | on 32-bit and 64-bit registers the form with conditional moves gives -1, 0 or 1 as the interpreter's signed 64-bit compare; the result may replace an operand |
| `LongOps.LcmpV8Correct` | src/cpu/sparc/vm/assembler_sparc.cpp:2066-2108 | the same for the form with annulled branches, which is for V8 and its 32-bit registers |
| `Widths.EndsOnBoth` | src/cpu/sparc/vm/assembler_sparc.cpp:2066-2303 | code of 32-bit operations, as that of lcmp and of the shifts, ends on 64-bit registers exactly as on 32-bit ones started with the lower halves |
| `Widths.ExecLow` | src/cpu/sparc/vm/assembler_sparc.cpp:2066-2303 | one such instruction leaves the same lower halves, condition codes and Y register on both widths |
| `LongOps.LshlWorksIff` | src/cpu/sparc/vm/assembler_sparc.cpp:2116-2177 | with registers that pass the asserted checks, on either width, lshl computes every shift if and only if the count is no half of the operand, results and scratch are different, and a count that is the lower result does not meet an upper result that is the lower operand |
| `LongOps.LshrWorksIff` | src/cpu/sparc/vm/assembler_sparc.cpp:2180-2303 | with registers that pass the asserted checks, on either width, lshr and lushr compute every shift if and only if the count is no half of the operand, results and scratch are different, and the lower result is not the upper operand |
| `LongOps.LshlCountClash` | src/cpu/sparc/vm/assembler_sparc.cpp:2116-2133 | the asserted checks admit a count that is half of the operand, which taking it modulo 64 destroys |
| `LongOps.LshrCountClash` | src/cpu/sparc/vm/assembler_sparc.cpp:2180-2196 | the same for the right shifts |
| `LongOps.LshlOrderGap` | src/cpu/sparc/vm/assembler_sparc.cpp:2125-2160 | the asserted checks admit count = lower result with upper result = lower operand, which is overwritten first: 1 shifted by zero gives zero |
| `LongOps.LshlScratchGap` | src/cpu/sparc/vm/assembler_sparc.cpp:2125-2133 | the asserted checks admit scratch = upper result, which loses the carried bits: 2^31 shifted by one gives zero |
| `LongOps.LshrOverlapGap` | src/cpu/sparc/vm/assembler_sparc.cpp:2188-2196 | the asserted checks admit lower result = upper operand, which spoils the result even for a shift by zero |
| `LongOps.LshrScratchGap` | src/cpu/sparc/vm/assembler_sparc.cpp:2188-2196 | the asserted checks admit scratch = lower result, which sets a bit that should be clear even for a shift by zero |
| `DivRem.DivisionCorrect` | src/cpu/sparc/vm/c1_LIRAssembler_sparc.cpp:456-532 | for every dividend and nonzero divisor, constant or register, V8 or V9, 32-bit or 64-bit registers: the interpreter's quotient or remainder, the least int by -1 included; only result and scratch change |
| `DivRem.DivideByShifts` | src/cpu/sparc/vm/c1_LIRAssembler_sparc.cpp:474-485 | shift code for a power of two computes the truncating quotient |
| `DivRem.RemainderByShifts` | src/cpu/sparc/vm/c1_LIRAssembler_sparc.cpp:486-497 | mask code for a power of two computes the remainder with the dividend's sign |
| `DivRem.DivideByInstruction` | src/cpu/sparc/vm/c1_LIRAssembler_sparc.cpp:500-531 | sdivcc, the repaired overflow and the multiplication back agree with the interpreter |
| `DivRem.PowerOf2` | src/cpu/sparc/vm/c1_LIRAssembler_sparc.cpp:474-484 | the test on v and v - 1 finds exactly the powers of two, and the logarithm is theirs |
| `DivRem.QuotientAndRemainder` | src/cpu/sparc/vm/bytecodeInterpreter_sparc.inline.hpp:214-236 | quotient times divisor plus remainder is the dividend modulo 2^32; the remainder is smaller than the divisor and has the dividend's sign |
| `StringCompare.CompareCorrect` | src/cpu/sparc/vm/c1_LIRAssembler_sparc.cpp:220-310 | for all strings of any length the code ends with their comparison in the result register, on both register widths; memory and other registers are unchanged |
| `StringCompare.LoopEnds` | src/cpu/sparc/vm/c1_LIRAssembler_sparc.cpp:279-306 | from any round the loop, with its ordinary and its annulled delay slot, ends with the comparison |
| `StringCompare.CompareMismatch` | src/cpu/sparc/vm/c1_LIRAssembler_sparc.cpp:295-309 | at the first mismatch the result is the difference of the characters |
| `StringCompare.ComparePrefix` | src/cpu/sparc/vm/c1_LIRAssembler_sparc.cpp:300-306 | if one string is a prefix of the other the result is the difference of the lengths |
| `StringCompare.MismatchOrPrefix` | src/cpu/sparc/vm/c1_LIRAssembler_sparc.cpp:295-309 | one of the two cases always applies |
| `StringCompare.CompareAntisymmetric` | src/cpu/sparc/vm/c1_LIRAssembler_sparc.cpp:220-310 | swapping the strings negates the result, which is zero only for equal strings |
| `ConstantSynthesis.SizeOfSethi` | src/cpu/sparc/vm/assembler_sparc.cpp:1310-1334 | the predicted size is between one and seven instructions |
| `ConstantSynthesis.MacroAssembler.EmitSethi` | src/cpu/sparc/vm/assembler_sparc.cpp:1254-1308 | for every 64-bit constant the sequence loads it with its low ten bits cleared, in the predicted size, or padded to seven instructions if it will be patched; no other register changes |
| `ConstantSynthesis.SethiSequence` | src/cpu/sparc/vm/assembler_sparc.cpp:1254-1334 | the same for the sequence by itself, executed from every state |
| `ConstantSynthesis.SomeBits` | src/cpu/sparc/vm/assembler_sparc.cpp:1277-1292 | the two arms that find no bits cannot both be taken |
| `ConstantSynthesis.Assembled` | src/cpu/sparc/vm/assembler_sparc.cpp:1273-1296 | the pieces loaded, shifted and or-ed make up the constant |
| `ConstantSynthesis.MacroAssembler.EmitLower` | src/cpu/sparc/vm/assembler_sparc.cpp:1285-1292 | the last ten bits and the final shift are right whether or not the twelve bits before were skipped |
| `ConstantSynthesis.MacroAssembler.PadTo` | src/cpu/sparc/vm/assembler_sparc.cpp:1297-1303 | padding changes no register and ends exactly at the position asked for |
| `ConstantSynthesis.MacroAssembler.EmitSet` | src/cpu/sparc/vm/assembler_sparc.cpp:1340-1360 | set loads every constant exactly, with or without relocation, in at most eight instructions |
| `ConstantSynthesis.MacroAssembler.EmitSet64` | src/cpu/sparc/vm/assembler_sparc.cpp:1397-1435 | set64 loads every constant exactly, in at most six instructions, changing only the two registers |
| `ConstantSynthesis.Set64Sequence` | src/cpu/sparc/vm/assembler_sparc.cpp:1397-1435 | the same for the sequence by itself, executed from every state |
| `BranchPatch.PatchThenRead` | src/cpu/sparc/vm/assembler_sparc.cpp:85-127 | for every format the patched instruction leads to the new destination if and only if the displacement is a multiple of four in the range of the field |
| `BranchPatch.PatchKeepsOthers` | src/cpu/sparc/vm/assembler_sparc.cpp:85-106 | patching changes the displacement field only, so the format stays |
| `BranchPatch.PatchOverwrites` | src/cpu/sparc/vm/assembler_sparc.cpp:85-106 | patching again leaves nothing of the earlier destination, even of one that did not fit |
| `BranchPatch.ReadThenPatch` | src/cpu/sparc/vm/assembler_sparc.cpp:108-127 | an instruction patched with its own destination is unchanged |
| `BranchPatch.PatchMoves` | src/cpu/sparc/vm/assembler_sparc.cpp:80-127 | only the distance counts, so code and destination can move together |
| `BranchPatch.FieldInverse` | src/cpu/sparc/vm/assembler_sparc.hpp:944-960 | sign extension of a field gives the displacement back exactly when it fits |
| `BranchPatch.PatchedParts` | src/cpu/sparc/vm/assembler_sparc.hpp:925-960 | the field of a patched instruction is the one put in, also in the two parts of the 16-bit form |
| `BranchPatch.PatchedByMasks` | src/cpu/sparc/vm/assembler_sparc.cpp:85-105 | clearing the bits of the mask and or-ing the new field gives the instruction the other rows speak of, for every format |
| `BranchPatch.PatchableIff` | src/cpu/sparc/vm/assembler_sparc.cpp:85-106 | the instructions that can be patched are calls and the six kinds of branches, by their op and op2 fields |
| `BranchPatch.PatchedBits` | src/cpu/sparc/vm/assembler_sparc.cpp:85-106 | which bits change, by op and op2: the low 30 of a call, the low 19 of a branch with prediction, the low 22 of one without, and bits 20, 21 and 13 to 0 of a branch on a register |
| `Peephole.LirList.Peephole` | src/cpu/sparc/vm/c1_LIRAssembler_sparc.cpp:3135-3205 | the loop over the growing list ends, and leaves the filled list, which `SlotFilledIff` and `SlotsFollowRules` describe by the rules and `SlotsAreOne` by the code emitted |
| `Peephole.FillStep` | src/cpu/sparc/vm/c1_LIRAssembler_sparc.cpp:3148-3162 | swapping the previous operation into the slot keeps what is done and what remains |
| `Peephole.InsertStep` | src/cpu/sparc/vm/c1_LIRAssembler_sparc.cpp:3165-3169 | inserting a no-op keeps what is done and what remains |
| `Peephole.FilledWellDelayed` | src/cpu/sparc/vm/c1_LIRAssembler_sparc.cpp:3135-3205 | every branch and call is followed by one slot with its debug information, and there are no other slots |
| `Peephole.SlotFilledIff` | src/cpu/sparc/vm/c1_LIRAssembler_sparc.cpp:3139-3202 | the slot of a branch or call gets the operation before it exactly if the option is on and the operation is a single instruction without debug information, before a block branch, or a single move before a call that does not overwrite the receiver of a virtual call; otherwise a no-op |
| `Peephole.SlotsFollowRules` | src/cpu/sparc/vm/c1_LIRAssembler_sparc.cpp:3135-3205 | every slot of the result holds a no-op or an operation of the list that these rules allow there |
| `Peephole.FilledSplit` | src/cpu/sparc/vm/c1_LIRAssembler_sparc.cpp:3135-3205 | the list may be cut wherever no operation moves over the cut, and filled piece by piece |
| `Peephole.PullBackInverse` | src/cpu/sparc/vm/c1_LIRAssembler_sparc.cpp:3135-3205 | pulling the slots back and dropping inserted no-ops gives the original list |
| `Peephole.PassPreservesMeaning` | src/cpu/sparc/vm/c1_LIRAssembler_sparc.cpp:51-120 | for every list, state and machine that respects the slot rules, the filled list executed with delay slots ends exactly when the original executed in order does, in the same state and at the same exit |
| `Peephole.StepAgrees` | src/cpu/sparc/vm/c1_LIRAssembler_sparc.cpp:3135-3205 | one step of the filled list is one or two operations of the original |
| `Peephole.RegisterMachineRespects` | src/cpu/sparc/vm/c1_LIRAssembler_sparc.cpp:51-120 | a register machine whose operations write their result registers only, long moves into the receiver's register included, respects the slot rules |
| `Peephole.FromLabelFilled` | src/cpu/sparc/vm/c1_LIRAssembler_sparc.cpp:3135-3205 | branch targets start corresponding parts of both lists |
| `Emission.SingleIsOne` | src/cpu/sparc/vm/c1_LIRAssembler_sparc.cpp:51-120 | for every operation that is emitted and that the pass takes for a single instruction: the code is exactly one instruction if and only if it is none of three irregular kinds, which are told from the operation and the options |
| `Emission.PassMisjudges` | src/cpu/sparc/vm/c1_LIRAssembler_sparc.cpp:51-120 | one operation of each irregular kind: taken for one instruction, emitted as none or two |
| `Emission.OneIsSingle` | src/cpu/sparc/vm/c1_LIRAssembler_sparc.cpp:88-116 | conversely, plain moves of one instruction between a register and memory, between registers of one word, or of a small constant are taken for one |
| `Emission.WordArithIsSingle` | src/cpu/sparc/vm/c1_LIRAssembler_sparc.cpp:57-62 | every addition and shift of words is taken for one instruction and is one |
| `Emission.LargeIsMore` | src/cpu/sparc/vm/c1_LIRAssembler_sparc.cpp:1373-1432 | a load or store with a displacement that is not small takes two instructions or more, so it is right not to move it |
| `Emission.SlotsAreOne` | src/cpu/sparc/vm/c1_LIRAssembler_sparc.cpp:3135-3205 | every slot of the result of the pass is one machine instruction, unless it is irregular |
| `ArgLayout.JavaConvention` | src/cpu/sparc/vm/args.cc:84-200 | succeeds exactly in supported modes on known characters with halves behind longs and doubles, and then holds the layout in place of the signature; which places that are is in the next rows |
| `ArgLayout.JavaShape` | src/cpu/sparc/vm/args.cc:141-193 | ints, floats and 32-bit pointers get one place, longs, doubles and 64-bit pointers two side by side, halves none |
| `ArgLayout.JavaInts` | src/cpu/sparc/vm/args.cc:143-162 | the k-th argument that takes one integer register is in register k while there are any |
| `ArgLayout.JavaFloats` | src/cpu/sparc/vm/args.cc:175-188 | the k-th float is in float register k, the k-th double in the k-th pair behind all floats |
| `ArgLayout.JavaLongs` | src/cpu/sparc/vm/args.cc:153-173 | where a long takes two registers, the k-th is in the k-th pair behind all single words |
| `ArgLayout.JavaStackOrder` | src/cpu/sparc/vm/args.cc:130-193 | an argument is on the stack exactly if no register is left for it: first the words in their order, then, from an even slot, the pairs in theirs |
| `ArgLayout.CountPass` | src/cpu/sparc/vm/args.cc:105-128 | the first pass counts registers and single slots as the second pass will use them |
| `ArgLayout.PlaceOne` | src/cpu/sparc/vm/args.cc:141-193 | one argument gets its place and moves the counters, or is refused; no other element changes |
| `ArgLayout.JavaInjective` | src/cpu/sparc/vm/args.cc:84-193 | no register half and no stack slot is given to two arguments, in all three modes and for any length |
| `ArgLayout.JavaAligned` | src/cpu/sparc/vm/args.cc:130-193 | pairs start at even places and registers stay within their files |
| `ArgLayout.NativeConvention` | src/cpu/sparc/vm/args.cc:202-281 | the same for the native conventions; V9 does not ask for the half of a double |
| `ArgLayout.V8InOrder` | src/cpu/sparc/vm/args.cc:252-276 | V8: the places of all arguments, one after the other, are the argument words one after the other |
| `ArgLayout.V9DoubleSlots` | src/cpu/sparc/vm/args.cc:221-250 | V9: argument j has the double slot of words 2j and 2j + 1, in registers while j is below six, or sixteen for floats and doubles; an int takes the first word, a float the second, all others both |
| `ArgLayout.NativeHalves` | src/cpu/sparc/vm/args.cc:221-276 | the half of a long or double gets no place of its own |
| `ArgLayout.V8Pass` | src/cpu/sparc/vm/args.cc:252-276 | V8 gives every argument word its register or stack word, or fails at a bad character or a missing half |
| `ArgLayout.V9Pass` | src/cpu/sparc/vm/args.cc:221-250 | V9 gives every argument its double slot, counting arguments and not halves |
| `ArgLayout.V8Injective` | src/cpu/sparc/vm/args.cc:252-276 | V8: no word is given twice |
| `ArgLayout.V9Injective` | src/cpu/sparc/vm/args.cc:221-250 | V9: no half is given twice, and pairs start at even places |
| `ArgLayout.PackedInverse` | src/cpu/sparc/vm/args.cc:63-78 | the places of an argument can be read off the packed number, which stays a positive 32-bit number |
| `ArgLayout.PrintedIff` | src/cpu/sparc/vm/args.cc:46-78 | the printer names the places of an argument as they are if and only if each is among the first hundred of its file |
| `ArgLayout.JavaPackable` | src/cpu/sparc/vm/args.cc:172-187 | signatures that fit the array of a thousand elements can be packed |
| `CoreReader.Core.Lookup` | agent/src/os/linux/ps_core.c:149-193 | binary search agrees with a scan of the list, and the class-sharing mappings count only where no other mapping contains the address |
| `CoreReader.OnlyCandidate` | agent/src/os/linux/ps_core.c:151-169 | the mapping the search ends at is the only one that can contain the address |
| `CoreReader.Core.SortMapArray` | agent/src/os/linux/ps_core.c:409-446 | the table is a sorted permutation of the list |
| `CoreReader.Core.ReadData` | agent/src/os/linux/ps_core.c:452-498 | however the file reads end, the read loop ends, succeeds exactly if the loop over the mappings does, and fills the buffer with its bytes |
| `CoreReader.Core.ReadRound` | agent/src/os/linux/ps_core.c:466-488 | one round takes what the file read gets, up to the mapping's end, then zeros for the rest of its last page if the mapping ends inside a page; nothing if the file read fails |
| `CoreReader.Core.ReadMore` | agent/src/os/linux/ps_core.c:466-488 | a round that gets bytes leaves the loop with the rest to do; one that gets none means that the loop fails |
| `CoreReader.AgreesIffCoherent` | agent/src/os/linux/ps_core.c:452-498 | with full file reads every successful read equals reading byte by byte, if and only if reads of one round do |
| `CoreReader.AgreesIffClear` | agent/src/os/linux/ps_core.c:172-187 | for aligned mappings, each kind without overlaps: that is so if and only if no class-sharing mapping contains the end of another mapping inside a page, and where another mapping begins inside a class-sharing mapping there is another one just before |
| `CoreReader.AlwaysRightIff` | agent/src/os/linux/ps_core.c:471-488 | however file reads end, every successful read equals reading byte by byte, if and only if it does with full file reads and a mapping that ends inside a page is found at its last address only |
| `CoreReader.FullLoop` | agent/src/os/linux/ps_core.c:452-498 | with full file reads the loop is the walk over whole mappings and their last pages |
| `CoreReader.CutRead` | agent/src/os/linux/ps_core.c:471-488 | a file read of two bytes that gets one: the other byte is read as zero |
| `CoreReader.SucceedsIff` | agent/src/os/linux/ps_core.c:452-498 | a read succeeds exactly if its first address is mapped and all others are mapped or in the rest of a last page |
| `CoreReader.ReadsFile` | agent/src/os/linux/ps_core.c:466-475 | a read inside a mapping gives the bytes of its file at the mapping's offset plus the distance from its start |
| `CoreReader.ReadsPages` | agent/src/os/linux/ps_core.c:466-488 | a read of all pages of a mapping gives its part of the file and then zeros |
| `CoreReader.SeparateCoherent` | agent/src/os/linux/ps_core.c:172-187 | mappings that share no page are coherent |
| `CoreReader.DisjointSeparate` | agent/src/os/linux/ps_core.c:476-488 | mappings of both kinds that start at page boundaries and do not overlap share no page |
| `CoreReader.SharedTailDisagrees` | agent/src/os/linux/ps_core.c:172-187 | a class-sharing mapping behind the end of another: a two-byte read and a one-byte read of the same address differ |
| `CoreReader.SharedStartDisagrees` | agent/src/os/linux/ps_core.c:172-187 | a mapping that begins inside a class-sharing one: the same |
| `LineParse.FrameEndsIff` | agent/src/os/win32/IOBuf.cpp:433-454 | a frame is taken whole, whatever its bytes, if and only if its length is from 1 to 2^31 - 4 |
| `LineParse.InFrame` | agent/src/os/win32/IOBuf.cpp:433-454 | inside a frame no byte ends a line |
| `LineParse.ZeroFrameSwallows` | agent/src/os/win32/IOBuf.cpp:433-454 | a frame of length zero swallows what follows |
| `LineParse.HeaderRead` | agent/src/os/win32/IOBuf.cpp:396-440 | the length is read most significant byte first |
| `LineParse.LineEndConsumed` | agent/src/os/win32/IOBuf.cpp:417-463 | the first end-of-line character completes the line, the others are skipped |
| `LineParse.RoundTrip` | agent/src/os/win32/IOBuf.cpp:99-129 | the lines of an encoded stream of messages are the messages |
| `LineFramer.IOBuf.ProcessChar` | agent/src/os/win32/IOBuf.cpp:392-477 | the fields move as the finite-state machine of the parse does |
| `LineFramer.IOBuf.TryReadLine` | agent/src/os/win32/IOBuf.cpp:99-129 | a line handed out continues the parse of the bytes accepted so far; without a line all of them are parsed; the bytes accepted and to be accepted stay the same stream |
| `LineFramer.IOBuf.ReadOn` | agent/src/os/win32/IOBuf.cpp:110-125 | the loop ends, at a line or when nothing more has arrived, and then all accepted bytes are parsed |
| `LineFramer.IOBuf.Take` | agent/src/os/win32/IOBuf.cpp:112-123 | one byte moves the parse on, and a completed line is handed out with its terminating zero |
| `LineFramer.IOBuf.ReadChar` | agent/src/os/win32/IOBuf.cpp:192-230 | the next accepted byte in order, or none when nothing has arrived |
| `LineFramer.IOBuf.Receive` | agent/src/os/win32/IOBuf.cpp:203-225 | one socket read is kept as a whole, or lost as a whole if it fills the free space |
| `LineFramer.ReadLines` | agent/src/os/win32/IOBuf.cpp:99-129 | however what arrives is cut into reads, the lines are those of one parse of all accepted bytes, and of the whole stream if no read fills the buffer up |
| `LineFramer.AcceptedIff` | agent/src/os/win32/IOBuf.cpp:198-225 | all bytes that arrive are accepted if and only if no read returns as many bytes as there is room for |
| `LineFramer.SmallChunks` | agent/src/os/win32/IOBuf.cpp:198-202 | reads shorter than half the buffer never fill it up, since it is compacted when less than half is free |
| `LineFramer.IOBuf.Refill` | agent/src/os/win32/IOBuf.cpp:198-225 | a read moves bytes from those to come to those accepted, and none else |
| `LineFramer.Buffer.IncrFillPos` | agent/src/os/win32/Buffer.cpp:55-62 | the position moves if and only if the buffer does not become completely full |
| `LineFramer.Buffer.ReadByte` | agent/src/os/win32/Buffer.cpp:64-71 | the first byte of the contents is taken, or -1 if there is none |
| `LineFramer.Buffer.Compact` | agent/src/os/win32/Buffer.cpp:103-110 | compaction keeps the contents |
| `ClosureFinder.Finder.Find` | agent/make/ClosureFinder.java:81-97 | the result is exactly the classes reachable from the roots that are found (what refers to what is in `RefersIff`), each with the first component that holds it; it fails exactly if a root or a class in reach is malformed |
| `ClosureFinder.RefersIff` | agent/make/ClosureFinder.java:148-214 | a class refers to another exactly if it is found, its file is sane, and one of its strings spells the other |
| `ClosureFinder.SpellsIff` | agent/make/ClosureFinder.java:137-145 | the strings followed are exactly those made of words of identifier characters joined by slashes; the class is the same words joined by the platform's separator |
| `ClosureFinder.OtherCharactersSpellNothing` | agent/make/ClosureFinder.java:137-145 | a string with any other character spells no class |
| `ClosureFinder.RootNameIff` | agent/make/ClosureFinder.java:91-95 | the class of a root is what stands before the first ".class"; without one there is none, and the search fails |
| `ClosureFinder.BadIff` | agent/make/ClosureFinder.java:167-169 | reading a class ends the program exactly if its constant count is 2^15 or more |
| `ClosureFinder.PackageExample` | agent/make/ClosureFinder.java:210-214 | a class that names another in a package by slashes reaches it under the platform's separator |
| `ClosureFinder.Finder.ComputeClosure` | agent/make/ClosureFinder.java:148-221 | the recursion ends on cyclic graphs, adds reachable classes only, and leaves all it added done |
| `ClosureFinder.Finder.WalkStrings` | agent/make/ClosureFinder.java:210-214 | following all strings of a class finishes it |
| `ClosureFinder.CompleteExact` | agent/make/ClosureFinder.java:81-97 | visited classes closed under references are exactly the reachable ones |
| `ClosureFinder.ClosedChain` | agent/make/ClosureFinder.java:210-214 | a chain of references never leaves a closed set |
| `ClosureFinder.Finder.LookupClassFile` | agent/make/ClosureFinder.java:101-120 | the loop finds what the specification of the lookup says |
| `ClosureFinder.LookupFirst` | agent/make/ClosureFinder.java:101-120 | a class is found in the first component that has its file, device names never |
| `ClosureFinder.DeviceIff` | agent/make/ClosureFinder.java:106-115 | on Windows, and only there, a class is taken for a device exactly if its name behind all separators is AUX, NUL or CON in any case |
| `ClosureFinder.ReadConstants` | agent/make/ClosureFinder.java:171-207 | the strings at their indices, eight-byte constants taking two, or nothing if the pool is cut short or has an unknown constant |
| `ClosureFinder.StringsReadable` | agent/make/ClosureFinder.java:171-207 | the strings are read if and only if all constants up to the count are there and known |
| `ClosureFinder.TextIsRead` | agent/make/ClosureFinder.java:190-202 | every string constant is read, at its index, which counts eight-byte constants twice |
| `ClosureFinder.OnlyTextsAreRead` | agent/make/ClosureFinder.java:190-202 | nothing else is read |
| `ClosureFinder.ReadFile` | agent/make/ClosureFinder.java:156-207 | a negative count fails, and all strings lie below the count |

## Left out

- JNI glue, ptrace, sockets, pipes, DLL loading, ELF parsing, process lists: foreign calls only.
- Biased locking, inflation and monitor queues: they live in files that are not part of this model; a thread that would
  take a slow path gives up its attempt.
- Memory order: all protocols are modelled sequentially consistent, while the code assumes total store order.
- Liveness under interference: of the lock, the spin lock, eden, the monitor and the debug threads it is proved that they
  finish when left alone; otherwise only safety, since steps, timeouts and wakeups may come in any order.
- The owner of the Monitor is a thread identity, not a pseudo-handle; counts of threads do not wrap around.
- The single-register lcmp of 64-bit builds and the 32-bit form of sethi: one or two instructions each.
- Objects whose methods are interleaved by threads (the Monitor, the flags of the debug subprocess, mark words, eden) are
  states with steps, not classes; the order of steps is any order.
- The form of the code buffer: `LongOps`, `DivRem` and `StringCompare` give the emitted instructions as sequences; only
  `ConstantSynthesis` emits into a buffer.
- The traps of a division by zero and of a null string, relocation records, debug information, tracing, verification code,
  floating-point instructions.
- The worst-case result of size_of_sethi, which is a number of instructions where a size in bytes is expected.
- The blocking read of a line, and the output side of the line reader.
- LongOps.LshlWorksIff: no register is g0, and the operand is in two different registers.
- LongOps.LshrWorksIff: the same.
- EdenTlab.ObjectsApartIff: an eden without room for a smallest buffer and an object behind it is left out.
- CoreReader.AgreesIffClear: the class-sharing archive has a file descriptor of its own, as it is opened for itself.
- CoreReader.Core.SortMapArray: the library's sort is modelled by insertion.
- ClosureFinder.Finder.Find: file contents are given as decoded constants, and a file is not changed while it is read.
- ClosureFinder.LookupFirst: device names are compared ignoring the case of ASCII letters only.
- Peephole.PassPreservesMeaning: that an operation in a slot sets no condition codes is a rule the machine must respect;
  which operations are one instruction is in `Emission`, but what the instructions compute is not. A call returns to the
  operation behind its slot, and the condition codes read by a branch are those before its slot.
- Emission.SingleIsOne: an operation with operands that the emitting functions assert not to get has no code. Loads and
  stores of less than a word are those of a word, the test of an object under VerifyOops is one opaque instruction, and
  code of several instructions for longs, constants and floats is given by its length only.
- Emission.OneIsSingle: is on plain moves without VerifyOops and PatchALot. Moves that are patched, of longs, or between
  registers of different types are left out; the pass takes none of them for one.
- Easy members such as copying, byte swapping and the server lists.
