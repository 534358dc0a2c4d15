# A verified model of the SPARC V8 / LEON3 emulator core

A Dafny 4.11 model of the parts of the emulator that are fast forms of something simpler, or protocols
that must hold over every run, with proofs that they are. `dafny verify dfyconfig.toml` checks all of it.

Machine words are unbounded integers with every 32-bit wrap written out. Code that updates fields is a
class proved against a specification on values; interleaved threads are a state machine over their steps.

| file | models |
|---|---|
| `Words.dfy`, `Banks.dfy` | words and bitwise operators; memory banks and the linear scan |
| `Srmmu.dfy` | the reference MMU: three-level walk, permission check and fault registers on every access |
| `Tlb.dfy`, `Mmu.dfy` | the TLBs with micro-caches, the fetch, load and store caches, and the MMU built on them |
| `BankCache.dfy` | the thread-local bank lookup cache |
| `Alu.dfy` | add unit, condition codes, multiply step, multiply, divide, logic and shifts |
| `Windows.dfy` | register windows and the stack they present |
| `Isa.dfy` | the instruction set on values: the trap each instruction raises, the state it leaves, and laws of all instructions |
| `MainLoop.dfy` | turns of the main loop: polling, trap entry, fetch and one instruction |
| `Cpu.dfy` | the processor that executes them through a decode record and write-back |
| `GpTimer.dfy`, `BusClock.dfy` | the timer unit with its analytic advance; the batching loop that drives it |
| `StopController.dfy` | the debugger's stop-the-world protocol |
| `Irqmp.dfy` | the multiprocessor interrupt controller |
| `Ac97.dfy` | the AC'97 playback DMA ring |
| `Atomics.dfy` | LDSTUB, SWAP and CASA on sharded RAM |
| `GdbMemory.dfy` | the debugger's memory read and write packets |

## What the results assume, and where the code differs from its promise

- MMU. With translation on, a run must not use the context 0xFFFFFFFF, use a valid entry that has changed since
  the last flush (a newly installed one needs none), or access a page on which another buffer than its own
  could answer; the buffer that answers must be big-endian and not locked against a store. What goes wrong
  otherwise is shown by `TranslateVa` and `AllOnesContextLoads` for the context, `ThroughLineExact` and
  `PagePointerExact` for shared pages, and `HostPointerNeedsBigEndian` for the byte order. The emulator's own
  map has a half-page of RAM followed by peripherals: the RAM is served, and an access to the peripherals
  through its line goes wrong (`SmallBankServed`, `SmallBankRun`). A context above 255 and a PTE in the context
  table throw in both machines, and so does a store to a locked bank with translation off. Table words in
  device banks are read without side effects.
- Timer. The batch advance keeps ticking a one-shot timer after it has disabled itself, so it equals single
  clocks only under the exact condition of `AdvanceExact`. `SCALER + 1` is a 32-bit sum, which matters
  only for an all-ones prescaler.
- Stop protocol. `StopTheWorld` takes the swap of the state and the bump of the epoch as one step. At the
  finer grain safety is false (`EarlyResumeBreaksSafety`); it holds if and only if no bump comes late, that is,
  with the controller running again and a worker flagged (`SafetyExact`).
- Interrupt controller. The header describes the hint as the highest line (src/peripherals/IRQMP.h:47); the
  code ranks any forced line above any pending one (`ForcedHidesHigher`), and the two agree exactly under the
  condition of `HintIsHighest`.
- AC'97. Each tick has its own frame count. A descriptor of length 1 holds no frame and completes at once.
- Traps. SWAP sets its scratch register (global 8, not an r register) before it can trap. LDSTUB traps on a
  failed access even with faults switched off. WRPSR checks the window number before the privilege. A
  second trap overwrites PS, so the return theorem asks that PS be kept.
- Instructions. The answers of memory, of the floating-point unit and of the alternate spaces are parameters.
  SRA of a negative word by a non-zero multiple of 32, and the one signed division that overflows the host,
  are undefined in C++; the model stops there, as it does where the code throws or ends the run.
- Main loop. A level is polled only when no trap is pending, so one polled in the turn that enters a trap is
  not noted until it is polled again.
- Atomics. A plain store takes no lock, so the serial order covers the atomic operations only.
- Debugger packets. Two addresses may land on one guest word; the writer then behaves like byte-by-byte
  stores. What is written reads back if and only if no two bytes of the range land on one byte
  (`ReadBackExact`). With translation on that takes two pages of the range on one frame
  (`TranslatedReadBack`), which a large page with an odd frame number makes by itself (`OddFrameFails`).

## Model

| member | source | states |
|---|---|---|
| `Mmu.Unit.RunAll` | src/sparcv8/MMU.h:355-552 | Main result. On any map, for every run of fetches, loads, stores, bypass accesses, context and table-pointer switches, control writes, fault-status reads and flushes in which no translated access uses the all-ones context, a valid entry that has changed since the last flush, or a page where another buffer than its own could answer, the MMU with its TLBs, micro-caches and page-pointer caches returns the same results and leaves the same registers, fault registers and memory as one that walks the table and checks permissions on every access |
| `Mmu.Unit.Perform` | src/sparcv8/MMU.h:355-552 | Each single operation agrees with the uncached machine, keeps every cached translation true, and makes stale exactly the addresses whose valid entry it changed |
| `Mmu.Unit.MemAccess` | src/sparcv8/MMU.h:355-552 | Any access gives the uncached result, memory change and fault registers |
| `Mmu.Unit.Fetch` | src/sparcv8/MMU.h:377-390 | A fetch gives the uncached result whether it hits the fetch cache or translates and fills it |
| `Mmu.Unit.LoadData` | src/sparcv8/MMU.h:391-416 | A load gives the uncached result through the direct-mapped load cache or a fill of it |
| `Mmu.Unit.StoreData` | src/sparcv8/MMU.h:417-500 | A store makes the uncached memory change through the store cache or a fill of it |
| `Mmu.Unit.WriteThrough` | src/sparcv8/MMU.h:417-436 | Writing behind a cached host pointer is the uncached store |
| `Mmu.Unit.TranslateVa` | src/sparcv8/MMU.cpp:403-473 | Translation through the TLBs equals translation by walking and records the same fault; in the all-ones context, where the walk refuses, it answers from an unused micro-cache that happens to match, and refuses otherwise |
| `Mmu.Unit.LookupTlb` | src/sparcv8/MMU.cpp:412-419 | A TLB hit for an address whose valid entry has not changed is the walk, with a valid PTE at level 1 to 3; in the all-ones context only the micro-cache can hit |
| `Mmu.Unit.Refill` | src/sparcv8/MMU.cpp:422-433 | A miss walks the table, keeps a valid PTE and fails exactly for a PTE in the context table |
| `Mmu.Unit.FindPte` | src/sparcv8/MMU.cpp:403-433 | The PTE used is the walk's whether found in the TLB or walked; the failures are those of the uncached translation |
| `Mmu.Unit.CheckPermsByTable` | src/sparcv8/MMU.cpp:437-458 | The bit-mask shortcut decides and records as the full check does |
| `Mmu.Unit.Locate` | src/sparcv8/MMU.h:439-456 | The translating half of an access either finishes it as the uncached machine would or yields its physical address |
| `Mmu.Unit.BusFault` | src/sparcv8/MMU.h:357-372 | An access that decodes to no bank reports fault type 5 |
| `Mmu.Unit.SetControlReg` | src/sparcv8/MMU.h:186-193 | A control write keeps every cache coherent, dropping the page-pointer caches when translation is switched on or off |
| `Mmu.Unit.SetCtxTblPtr` | src/sparcv8/MMU.h:222-224 | A new context table makes stale exactly the addresses whose valid entry it changes |
| `Mmu.Unit.FlushAll` | src/sparcv8/MMU.h:258-264 | After a flush nothing is stale |
| `Mmu.Unit.Bypass` | src/sparcv8/MMU.h:274-287 | Untranslated accesses agree with the uncached machine |
| `Mmu.Unit.constructor` | src/sparcv8/MMU.h:236-253 | A reset MMU on any map has coherent, empty caches |
| `Mmu.FilledEntryTrue` | src/sparcv8/MMU.cpp:422-433 | The entry a refill makes equals the walk on its whole region |
| `Mmu.FilledLineTrue` | src/sparcv8/MMU.h:505-540 | A page pointer that is right for one address is right for every address of its page |
| `Mmu.ThroughLine` | src/sparcv8/MMU.h:377-436 | An access behind a true page pointer is the uncached access |
| `Mmu.PagePointerExact` | src/sparcv8/MMU.h:505-540 | On a page with no other buffer, every read through the line that a big-endian bank filled is the uncached read if and only if the bank covers the page |
| `Mmu.ThroughLineExact` | src/sparcv8/MMU.h:377-416 | On such a page a single read through the line is the uncached read if and only if the bank that filled it is the one to answer |
| `Mmu.UncoveredDiffers` | src/sparcv8/MMU.h:377-416 | A load or fetch through a filled line at an address of its page that no bank, or a peripheral, should answer is never the uncached access |
| `Mmu.UncoveredRun` | src/sparcv8/MMU.h:377-416 | On any map, two reads of one page through an empty line, the second at such an address: the second differs from the uncached read in state or result |
| `Mmu.SmallBankRun` | src/sparcv8_leon_smp.cpp:333-336 | That run on the emulator's own map, where 0x800 bytes of RAM at 0x24000000 are followed by the AC'97 registers: a load at the start of the RAM and one at +0x800, which differs |
| `Mmu.SmallBankServed` | src/sparcv8_leon_smp.cpp:333-336 | On that page exactly the RAM's own addresses meet the condition of the main result |
| `Mmu.ReadIsAccess` | src/sparcv8/MMU.h:377-416 | A fetch or load through a true line, or one that misses and fills it, is the uncached access and leaves a true line |
| `Mmu.Unit.Resolve` | src/sparcv8/MMU.h:439-456 | Translation and bank lookup either finish an access as the uncached machine would or name the bank and physical address it reaches |
| `Mmu.Unit.StoreMiss` | src/sparcv8/MMU.h:439-500 | A store that misses makes the uncached change, and the line it fills is true |
| `Mmu.HostPointerNeedsBigEndian` | src/sparcv8/MMU.h:385-436 | The fast paths read every buffer as the bank does if and only if the bank is big-endian |
| `Mmu.AllOnesContextLoads` | src/sparcv8/MMU.cpp:27-36 | In the all-ones context the micro-cache of a TLB not used yet hits at every address and lets every load through untranslated, where the uncached machine refuses: the reason that context is excluded |
| `Srmmu.WalkIsRegional` | src/sparcv8/MMU.cpp:207-251 | The walk ending at level L is the same for all addresses that share the level-L mask |
| `Srmmu.WalkIsPaged` | src/sparcv8/MMU.cpp:207-251 | Addresses on one 4 KiB page have the same walk |
| `Srmmu.WalkFollows` | src/sparcv8/MMU.cpp:207-251 | If the table leads from the context table through descriptors, each picked by its field of the address (8, 6 and 6 bits), to an entry at level 1, 2 or 3, the walk ends with that entry at that level (SPARC V8 manual, appendix H) |
| `Srmmu.AccessReaches` | src/sparcv8/MMU.h:439-500 | Main result on the table itself. An access its PTE permits reaches frame times 4 KiB plus what the address has below the 16 MiB, 256 KiB or 4 KiB region |
| `Srmmu.AccessDenied` | src/sparcv8/MMU.cpp:344-400 | One it does not permit changes only the fault registers, which name the address, the level, the access and the fault: invalid, protection, or privilege if the mode has no rights |
| `Srmmu.StoreThenLoad` | src/sparcv8/MMU.h:466-552 | What is stored to RAM is loaded back, and no other byte of memory changes |
| `Srmmu.TableWordIsLoad` | src/sparcv8/MMU.cpp:207-251 | A table word is what a word load at its address gives; a word no bank answers for is 0 |
| `Srmmu.BypassIsPhysical` | src/sparcv8/MMU.h:274-287 | Bypass accesses are word accesses to physical memory wherever a bank answers |
| `Srmmu.TranslateIsPaged` | src/sparcv8/MMU.cpp:460-472 | Addresses on one page translate alike, to one physical page |
| `Srmmu.MappedIsPte` | src/sparcv8/MMU.cpp:344-473 | Only a valid PTE translates |
| `Srmmu.InstallNeedsNoFlush` | src/sparcv8/MMU.cpp:62-78 | An address with no valid entry does not become stale, whatever is done: a fault can be repaired and the access retried without a flush |
| `Srmmu.PhysAddrParts` | src/sparcv8/MMU.cpp:460-472 | The physical address keeps the page offset and takes its page from PTE and level |
| `Srmmu.MaskIsRegion` | src/sparcv8/MMU.h:318-327 | Masking with the level mask identifies the 16 MiB, 256 KiB or 4 KiB region |
| `Srmmu.PermTableExact` | src/sparcv8/MMU.cpp:344-458 | For every valid PTE the bit-mask table allows exactly what the full permission check allows |
| `Srmmu.FaultTypeExact` | src/sparcv8/MMU.cpp:344-380 | A valid PTE allows exactly the accesses that its read, write and execute rights in the mode grant; a refusal is a privilege violation exactly when the mode has no rights; an entry of type 0 is an invalid address (SPARC V8 manual, appendix H) |
| `Srmmu.AccessType` | src/sparcv8/MMU.h:290-313 | Supervisor accesses are the odd types; loads, fetches and stores are types 0 and 1, 2 and 3, 4 and 5 |
| `Srmmu.FaultStatusKeepsType` | src/sparcv8/MMU.h:175-181 | The fault type can be read back from the packed fault status |
| `Srmmu.FaultStatusFields` | src/sparcv8/MMU.h:175-181 | Level, access type, fault type and valid bit each have their place in the fault status |
| `Tlb.Buffer.constructor` | src/sparcv8/MMU.cpp:19-21 | Empty, with the micro-cache marked unused |
| `Tlb.Buffer.Lookup` | src/sparcv8/MMU.cpp:27-60 | A hit names a live matching entry and a miss means there is none, except in the all-ones context; a micro-cache in use is always a copy of a live entry |
| `Tlb.Buffer.Insert` | src/sparcv8/MMU.cpp:62-78 | Replaces just the next victim, warms the micro-cache, and fails exactly on a level that has no mask |
| `Tlb.Buffer.InvalidateStrict` | src/sparcv8/MMU.cpp:85-95 | Kills exactly the live matching entries and leaves no match |
| `Tlb.Buffer.Flush` | src/sparcv8/MMU.cpp:97-101 | Everything is empty |
| `Banks.Scan` | src/peripherals/MCTRL.h:837-852 | The first bank containing the address, or none contains it |
| `Banks.UniqueBank` | src/peripherals/MCTRL.h:571-576 | Among banks kept disjoint at most one contains an address |
| `Banks.BankRoundTrip` | src/peripherals/MCTRL.h:167-200 | A bank of either byte order gives back what was stored in it and keeps every other byte |
| `Banks.ByteOrder` | src/peripherals/MCTRL.h:167-200 | A byte or half at the address of a word is its most significant part in a big-endian bank and its least significant part in a little-endian one |
| `BankCache.Controller.AttachBank` | src/peripherals/MCTRL.h:567-583 | Attaches exactly when the new bank overlaps none, so the banks stay pairwise disjoint; a cached lookup is invalidated |
| `BankCache.Controller.ClearBanks` | src/peripherals/MCTRL.h:864-867 | No banks are left and a cached lookup is invalidated |
| `BankCache.Controller.FindBankOrNull` | src/peripherals/MCTRL.h:790-857 | The cached lookup is the linear scan, and leaves a cache that is true |
| `BankCache.Thread.Perform` | src/peripherals/MCTRL.h:567-867 | One operation on any controller agrees with plain lists of banks, whichever controller the thread's cache last served |
| `BankCache.Thread.RunAll` | src/peripherals/MCTRL.h:567-867 | For any number of controllers and any interleaving of create, attach, clear and lookup on one thread, every answer is the linear scan's and all controllers' banks stay disjoint |
| `Alu.AddExact` | src/sparcv8/CPU_instructions.cpp:1004-1080 | Untagged addition is exact with the carry as next digit; N xor V is the sign of the true signed sum and V says it does not fit |
| `Alu.SubExact` | src/sparcv8/CPU_instructions.cpp:1004-1080 | The same for subtraction and borrow |
| `Alu.AddChainFrom` | src/sparcv8/CPU_instructions.cpp:1004-1080 | ADDcc or ADDXcc followed by ADDXcc up any number of words is exact addition |
| `Alu.SubChainFrom` | src/sparcv8/CPU_instructions.cpp:1004-1080 | The same for SUBcc, SUBXcc and subtraction |
| `Alu.MultiWordExact` | src/sparcv8/CPU_instructions.cpp:1004-1080 | Multi-word sums and differences of any length are exact with final carry; the final borrow is set exactly when the first number is the smaller (SPARC V8 manual sections B.13 and B.15) |
| `Alu.CompareAndBranch` | src/sparcv8/CPU.h:386-399 | After SUBcc every signed, unsigned and equality branch condition holds exactly when the operands compare that way (section B.21) |
| `Alu.AddAndBranch` | src/sparcv8/CPU.h:386-399 | After ADDcc the overflow, carry, sign and zero conditions say whether the signed and unsigned sums fit and what word is left |
| `Alu.MulsccHalves` | src/sparcv8/CPU_instructions.cpp:493-537 | One multiply step adds the operand if Y is odd and halves the 65-bit accumulator |
| `Alu.MultiplyBySteps` | src/sparcv8/CPU_instructions.cpp:493-537 | 32 multiply steps by b and one by 0, starting with Y = a, accumulator 0 and N = V, leave the exact product of unsigned a and signed b (sections B.17 and B.18) |
| `Alu.StepsAgreeWithMul` | src/sparcv8/CPU_instructions.cpp:884-943 | That product is what SMUL (a non-negative) and UMUL (b non-negative) leave in Y and rd |
| `Alu.UdivExact` | src/sparcv8/CPU_instructions.cpp:947-1000 | UDIV satisfies dividend = quotient times divisor plus Y if and only if the high word is below the divisor, that is, if the quotient fits (section B.19) |
| `Alu.SdivExact` | src/sparcv8/CPU_instructions.cpp:947-1000 | SDIV satisfies dividend = quotient times divisor plus Y, all signed, if and only if the truncated quotient fits |
| `Alu.TaggedSubtract` | src/sparcv8/CPU_instructions.cpp:1004-1080 | TSUBcc and TSUBccTV give the difference modulo 2^32, with carry set exactly when there is no borrow, the inverse of SUBcc |
| `Alu.TaggedExact` | src/sparcv8/CPU_instructions.cpp:1004-1080 | Tagged arithmetic overflows exactly if a tag is not 0 or the signed result does not fit, and then just the TV forms trap |
| `Alu.MulExact` | src/sparcv8/CPU_instructions.cpp:884-943 | The 64-bit product is exact with its high word in Y; N and Z speak of the low word |
| `Alu.DivFlags` | src/sparcv8/CPU_instructions.cpp:947-1000 | N is the sign of the quotient, and V and C are clear |
| `Alu.LogicBits` | src/sparcv8/CPU_instructions.cpp:1084-1130 | AND, OR, XOR, ANDN, ORN and XNOR work bit by bit |
| `Alu.LogicCompares` | src/sparcv8/CPU_instructions.cpp:1084-1130 | After a logical cc instruction the branch conditions compare its result with 0 |
| `Alu.ShiftBits` | src/sparcv8/CPU_instructions.cpp:102-132 | SLL and SRL move the bits and fill in zeros |
| `Alu.SraDivides` | src/sparcv8/CPU_instructions.cpp:134-147 | An arithmetic shift right divides the signed word by a power of two, rounding down |
| `Alu.UmulUdiv` | src/sparcv8/CPU_instructions.cpp:884-1000 | UMUL then UDIV through Y returns the multiplicand with Y = 0 |
| `Alu.SmulSdiv` | src/sparcv8/CPU_instructions.cpp:884-1000 | SMUL then SDIV through Y returns the multiplicand with Y = 0 |
| `GpTimer.GPTIMER.TickOnce` | src/peripherals/GPTIMER.h:160-182 | One bus clock on the registers is one clock of the reference timer |
| `GpTimer.GPTIMER.TickTimer` | src/peripherals/GPTIMER.h:53-69 | p ticks of a counter in place are p ticks of the reference counter |
| `GpTimer.GPTIMER.AdvanceScaler` | src/peripherals/GPTIMER.h:261-288 | The prescaler after n clocks and the prescaler ticks it produced, with the 32-bit sum as coded |
| `GpTimer.GPTIMER.FullPeriods` | src/peripherals/GPTIMER.h:282-288 | The full periods in what is left of the clocks |
| `GpTimer.GPTIMER.AdvanceUnlocked` | src/peripherals/GPTIMER.h:256-302 | The batch advance on the registers, and an interrupt exactly when an enabled timer was pending or may interrupt and passed 0 in the prescaler ticks of the batch |
| `GpTimer.TickNClosed` | src/peripherals/GPTIMER.h:160-182 | n single clocks in closed form, including timers that stop and the prescaler that then stands still |
| `GpTimer.AdvanceExact` | src/peripherals/GPTIMER.h:256-302 | For n < 2^32 the batch advance equals n single clocks if and only if no enabled one-shot timer is ticked past its underflow and, if all timers run out, they do so on the last clock |
| `GpTimer.AdvanceIsTicks` | src/peripherals/GPTIMER.h:256-302 | With the restart bit on every enabled timer the two are always equal, whatever n, unless the prescaler is all ones and n reaches 2^32 |
| `GpTimer.AllOnesPrescalerWraps` | src/peripherals/GPTIMER.h:275-280 | A state and n = 2^32 where the 32-bit sum wraps and the two differ |
| `GpTimer.OneShotRun` | src/peripherals/GPTIMER.h:53-69 | A one-shot counter counts down, underflows once and disables itself |
| `GpTimer.OneShotOverrun` | src/peripherals/GPTIMER.h:292-295 | Ticking it on after that keeps decrementing it: why the batch advance differs |
| `GpTimer.RestartClosed` | src/peripherals/GPTIMER.h:53-69 | A restart timer in closed form: periodic with reload + 1 ticks, and pending exactly if it was, or may interrupt and has passed 0 |
| `GpTimer.PendingAfter` | src/peripherals/GPTIMER.h:57-60 | Any timer is pending after p ticks exactly if it was, or may interrupt and p is above its count |
| `GpTimer.TickNRestart` | src/peripherals/GPTIMER.h:160-182 | With restart timers, n single clocks leave each counter where its period puts it, for every n and every prescaler value |
| `GpTimer.RestartRun` | src/peripherals/GPTIMER.h:53-69 | Restart, reload and interrupt-enable never change, and a restart counter stays enabled |
| `GpTimer.PrescaleStep` | src/peripherals/GPTIMER.h:261-288 | The analytic prescaler for n + 1 clocks is one step on from n, as long as the 32-bit sum does not wrap |
| `BusClock.Clock.Drive` | src/peripherals/BusClock.cpp:138-168 | Terminates; the batches sum to `due`; the UART is polled (start + due) div target times, at exactly the clocks where the divider comes round, and the divider ends at (start + due) mod target; with restart timers the counters end where their periods put them after `due` clocks however split, and the timer interrupt fires exactly if a timer was pending or may interrupt and passed 0 |
| `BusClock.Clock.Advance` | src/peripherals/BusClock.cpp:144-157 | One batch continues the run of single clocks |
| `BusClock.RunSuperposes` | src/peripherals/GPTIMER.h:160-182 | Pending bits never influence counting: clearing them between batches loses no count |
| `BusClock.BatchFollows` | src/peripherals/GPTIMER.h:256-302 | A batch after any number of earlier batches, cleared or not, still follows the single clocks |
| `BusClock.TickNAdds` | src/peripherals/GPTIMER.h:160-182 | a clocks and then b clocks are a + b clocks |
| `StopController.StopTheWorld` | src/gdb/DebugStopController.hpp:159-165 | Main result. In every run, when the debugger's wait returns every registered worker is parked, and stays parked through any further steps without a resume |
| `StopController.RunInv` | src/gdb/DebugStopController.hpp:59-147 | In every reachable state a worker's stopped flag is set only while it is parked, and the counter is the number of flags |
| `StopController.StepInv` | src/gdb/DebugStopController.hpp:59-147 | Every step keeps that |
| `StopController.ParkedStays` | src/gdb/DebugStopController.hpp:141-147 | A parked worker cannot leave before the next resume |
| `StopController.ResumeReleases` | src/gdb/DebugStopController.hpp:99-111 | After a resume every parked worker may leave |
| `StopController.SleeperBlocksStop` | src/gdb/DebugStopController.hpp:132-146 | A worker still asleep from an earlier stop is parked but uncounted, and until a resume the new stop cannot complete |
| `StopController.SleeperReachable` | src/gdb/DebugStopController.hpp:132-146 | Such a state is reachable |
| `StopController.FineSafety` | src/gdb/DebugStopController.hpp:69-87 | With the stop request split into its state swap and its epoch bump, every run in which no bump is late (the controller is running again and some worker is flagged) keeps the invariant and is safe |
| `StopController.FineStopTheWorld` | src/gdb/DebugStopController.hpp:69-165 | In such a run, when the wait returns every registered worker is parked, and stays parked through any further steps without a resume |
| `StopController.FineStepInv` | src/gdb/DebugStopController.hpp:69-111 | From a state with the invariant a step keeps it if and only if it is not a late bump; a late bump lets every flagged worker leave |
| `StopController.LateBumpBreaks` | src/gdb/DebugStopController.hpp:69-147 | From any late bump there is a continuation without further bumps that ends with the wait returning while a worker is not parked |
| `StopController.SafetyExact` | src/gdb/DebugStopController.hpp:69-165 | Exact condition. A run, with everything that can still happen from any point of it without further bumps, is safe if and only if none of its bumps is late |
| `StopController.EarlyResumeBreaksSafety` | src/gdb/DebugStopController.hpp:69-111 | A run of eleven steps with a late bump in which the wait returns while a worker is running |
| `StopController.DebugStopController.RegisterWorker` | src/gdb/DebugStopController.hpp:59-65 | A fresh id, counted as expected |
| `StopController.DebugStopController.RequestStopNow` | src/gdb/DebugStopController.hpp:69-96 | True exactly for the call that starts the stop |
| `StopController.DebugStopController.ResumeAll` | src/gdb/DebugStopController.hpp:99-111 | Clears flags and counter, bumps the epoch, and keeps the invariant |
| `StopController.DebugStopController.CheckpointSlow` | src/gdb/DebugStopController.hpp:123-147 | The worker ends flagged, counted once and waiting |
| `StopController.DebugStopController.PollAllStopped` | src/gdb/DebugStopController.hpp:159-165 | The wait's predicate, and that it means all workers are parked |
| `Irqmp.IRQMP.Drain` | src/peripherals/IRQMP.cpp:93-128 | Main result. Acknowledging one CPU's hint until it is 0 delivers each unmasked forced line and then each unmasked pending line, each group in descending order, and clears exactly those bits and no other CPU's |
| `Irqmp.IRQMP.AckHint` | src/peripherals/IRQMP.cpp:93-128 | Acknowledging a hint delivers the first line due, leaves the rest due, and clears no bit of another line or CPU |
| `Irqmp.HintIsHighest` | src/peripherals/IRQMP.cpp:37-50 | The hint is the highest unmasked line, as src/peripherals/IRQMP.h:47 describes it, if and only if no unmasked line is forced or no unmasked pending line is above the highest forced one |
| `Irqmp.ForcedHidesHigher` | src/peripherals/IRQMP.cpp:37-50 | With line 1 forced and line 15 pending, both unmasked, the hint is 1 |
| `Irqmp.DueCounts` | src/peripherals/IRQMP.cpp:93-128 | That takes exactly as many acknowledgements as there are unmasked forced and unmasked pending lines |
| `Irqmp.AckDelivers` | src/peripherals/IRQMP.cpp:111-116 | One acknowledgement delivers the head of what is due and leaves the tail due |
| `Irqmp.DescendingDescends` | src/peripherals/IRQMP.cpp:40-46 | Each group is strictly descending |
| `Irqmp.ScanLines` | src/peripherals/IRQMP.cpp:40-46 | The scan finds the highest unmasked line |
| `Irqmp.IRQMP.UpdateHints` | src/peripherals/IRQMP.cpp:37-50 | Every hint is the highest unmasked forced line, else the highest unmasked pending line, else 0 |
| `Irqmp.IRQMP.TriggerIrq` | src/peripherals/IRQMP.cpp:52-90 | A broadcast line is forced where unmasked, any other made pending; the hints stay true; a CPU whose hint changed is among those woken |
| `Irqmp.TriggerDelivers` | src/peripherals/IRQMP.cpp:52-90 | A triggered line becomes due to exactly the CPUs that have it unmasked, a broadcast one only among the CPUs there are; nothing else does |
| `Irqmp.BroadcastReachesAll` | src/peripherals/IRQMP.cpp:52-128 | A broadcast line acknowledged by one CPU is still due to the others |
| `Irqmp.SharedTakenOnce` | src/peripherals/IRQMP.cpp:52-128 | Any other line is due to no CPU after one acknowledgement, unless it is forced there |
| `Irqmp.WriteDelivers` | src/peripherals/IRQMP.cpp:171-293 | What each register write makes due or takes back, by CPU and line |
| `Irqmp.WriteBroadcasts` | src/peripherals/IRQMP.cpp:171-293 | The broadcast register decides which of the lines 1 to 15 are broadcast |
| `Irqmp.IRQMP.ClearIrq` | src/peripherals/IRQMP.cpp:93-128 | Clears only the source that produced the line; the hints stay true |
| `Irqmp.IRQMP.Write` | src/peripherals/IRQMP.cpp:171-293 | Every register write leaves the hints true, including the writes that do not recompute them, and fails exactly for the offsets that throw |
| `Irqmp.IRQMP.Reset` | src/peripherals/IRQMP.cpp:5-14 | Masks and forced lines are clear and the hints true |
| `Irqmp.IRQMP.constructor` | src/peripherals/IRQMP.cpp:5-33 | Starts with true hints |
| `Ac97.Playback.PlayOut` | src/peripherals/ac97.cpp:116-245 | Main result. From any running state, for any positive tick sizes, the engine plays exactly ((LVI - CIV) mod 32) + 1 buffers in ring order, hands the host exactly what remained, and halts with LVBCI and DCH set and CIV one past LVI; BCIS is set exactly if it was or a buffer asks for it, and the interrupt is up exactly if it was or is enabled |
| `Ac97.Playback.PlayRecorded` | src/peripherals/ac97.cpp:122-245 | Main result on memory. If software has put descriptors (address at +0, length at +4, control at +6) and samples in the ring from CIV to LVI, the host hears exactly their whole stereo frames in order, each sample the signed value of its 16 bits, and BCIS is set exactly if it was or a control word has bit 15 |
| `Ac97.ClipPlays` | src/peripherals/ac97.cpp:122-144 | One descriptor as software writes it is one buffer of the ring |
| `Ac97.Playback.Sustain` | src/peripherals/ac97.cpp:116-245 | If software moves LVI on by one after each buffer from a non-zero distance, the engine is still running after any number of ticks and the stream is the ring going round |
| `Ac97.Playback.Extend` | src/peripherals/ac97.cpp:853-876 | Any sequence of new LVI values written to a halted engine makes it play just the buffers each one opens up |
| `Ac97.Playback.Resume` | src/peripherals/ac97.cpp:853-876 | After clearing status bits, a new LVI resumes the engine exactly when it differs from the one it halted after |
| `Ac97.Playback.Operate` | src/peripherals/ac97.cpp:116-1009 | Every run of ticks and register writes, over guest memory that changes at will, keeps the accounts right: a loaded descriptor has offset + 4 PICB = 4 floor(len/2), a running engine has DCH clear, one that may resume has no buffer loaded, and CIV and LVI stay below 32 |
| `Ac97.Playback.Hand` | src/peripherals/ac97.cpp:164-187 | What a tick hands over is the front of the loaded buffer, and what stays loaded is the rest of it |
| `Ac97.FreshRemaining` | src/peripherals/ac97.cpp:122-144 | An engine at the start of a buffer has the ring from CIV to LVI to play: each buffer's first floor(len/2) stereo frames |
| `Ac97.TickConserves` | src/peripherals/ac97.cpp:116-245 | A tick moves samples from what remains to the stream and stops the engine only past LVI |
| `Ac97.MidwayStep` | src/peripherals/ac97.cpp:116-245 | Each tick keeps a partial run on course and brings its end closer |
| `Ac97.CirclingStep` | src/peripherals/ac97.cpp:116-245 | Each tick of a fed engine keeps it circling at the same distance |
| `Ac97.ReelAppends` | src/peripherals/ac97.cpp:199-200 | Playing a buffers and then b is playing a + b |
| `Ac97.BufferSplit` | src/peripherals/ac97.cpp:169-187 | Reading a buffer in pieces of any size is reading it whole |
| `Ac97.Playback.Tick` | src/peripherals/ac97.cpp:116-245 | Within a buffer exactly the tick's frames are handed over; at its end completion is flagged, CIV moves on, the interrupt is raised if enabled, and the next buffer is loaded or the engine halts; nothing happens if it is stopped or has no list |
| `Ac97.Playback.PlayLoaded` | src/peripherals/ac97.cpp:164-245 | The same for a loaded buffer |
| `Ac97.Playback.Load` | src/peripherals/ac97.cpp:122-144 | A good descriptor is loaded, an empty one stops the engine, an unreadable one changes nothing |
| `Ac97.Playback.Push` | src/peripherals/ac97.cpp:173-187 | The samples handed over, and the accounting of offset and PICB |
| `Ac97.Playback.Complete` | src/peripherals/ac97.cpp:190-222 | Completion flags, CIV, the halt past LVI and the interrupt |
| `Ac97.Playback.Finish` | src/peripherals/ac97.cpp:190-245 | Completion followed by the next load |
| `Ac97.Playback.WriteControl` | src/peripherals/ac97.cpp:731-836 | Reset, stop and start as coded, keeping the invariants: a loaded buffer satisfies offset + 4 PICB = 4 floor(len/2), a running engine has DCH clear, and an engine that may resume has no buffer loaded |
| `Ac97.Playback.Start` | src/peripherals/ac97.cpp:774-833 | Starts exactly when the list is set and mapped and the descriptor is not empty, at the beginning of its buffer |
| `Ac97.Playback.WriteLvi` | src/peripherals/ac97.cpp:853-876 | Auto-resume exactly after a halt by the engine itself with an index that extends the ring |
| `Ac97.Playback.WriteGlobalControl` | src/peripherals/ac97.cpp:922-945 | A cold reset stops the engine, a warm reset clears only the status; the request bits clear themselves |
| `Ac97.Playback.ColdReset` | src/peripherals/ac97.cpp:968-1009 | All engine state is cleared and DCH set |
| `Atomics.Serializable` | src/sparcv8/MMU.cpp:253-342 | Main result. For any interleaving of lock, read, write and unlock by any number of CPUs, any sharding of words over mutexes, and any mix of LDSTUB, SWAP and CASA, every reply is the one given by running the operations one at a time in the order of mutex acquisition, and when none is in progress memory is what that serial run leaves and every operation has been answered |
| `Atomics.RamSerializable` | src/peripherals/MCTRL.h:435-439 | The same for RAM's 64 mutexes by page number |
| `Atomics.ShardsByPage` | src/peripherals/MCTRL.h:435-439 | Words of RAM share a mutex exactly if their pages agree modulo 64 |
| `Atomics.RunInv` | src/sparcv8/MMU.cpp:253-342 | In every reachable state memory with the operations in flight applied is the serial memory |
| `Atomics.LockInv` | src/sparcv8/MMU.cpp:279-286 | Taking a free mutex: the word already is what the serial machine would read |
| `Atomics.StoreInv` | src/sparcv8/MMU.cpp:288-289 | The write brings memory to the serial value and touches no word of another CPU's operation |
| `Atomics.UnlockInv` | src/sparcv8/MMU.cpp:288-292 | The reply delivered is the serial one |
| `Atomics.Exclusive` | src/peripherals/MCTRL.h:437-439 | Two CPUs in operations never share a mutex |
| `Atomics.SwapsConserveFromStart` | src/sparcv8/MMU.cpp:288-289 | In a run of SWAPs memory and the CPUs' registers hold between them, at every point, the multiset of values they started with |
| `Atomics.SwapsConserve` | src/sparcv8/MMU.cpp:288-289 | The same from any reachable state |
| `Atomics.NoLostUpdate` | src/sparcv8/MMU.cpp:327-341 | In every run, with any mix of operations, whatever comes next on the word of a CASA that reported success is answered from the value the CASA stored |
| `Atomics.LastUpdateStands` | src/sparcv8/MMU.cpp:327-341 | If nothing comes next, the word holds that value once no operation is in progress |
| `Atomics.UntouchedByte` | src/peripherals/MCTRL.h:464-469 | In every run a byte that only LDSTUBs of other bytes and CASAs without success came near holds its initial value once no operation is in progress |
| `Atomics.FirstSees` | src/peripherals/MCTRL.h:464-469 | The first LDSTUB of such a byte is answered with its initial value |
| `Atomics.LastStoreStands` | src/sparcv8/MMU.cpp:288-289 | The last operation on a word decides what it holds: a SWAP its value, an LDSTUB ones in its byte |
| `Atomics.AnswersWord` | src/sparcv8/MMU.cpp:279-341 | The first operation on a word, if a SWAP or CASA, is answered with what the word held; only a CASA that compares equal is ever refused |
| `Atomics.AnsweredInTurn` | src/sparcv8/MMU.cpp:279-292 | In every run, with any mix of operations, each operation on a word is answered from what the one before it on that word left |
| `Atomics.AnsweredInOrder` | src/peripherals/MCTRL.h:437-439 | No operation on a word is answered before those that took its mutex earlier |
| `Atomics.OneWinner` | src/peripherals/MCTRL.h:464-469 | In every run, of two LDSTUBs on one byte the later sees 0xFF unless a SWAP or a successful CASA on the word came between them |
| `GdbMemory.GdbStub.HandleMemoryWrite` | src/gdb/gdb_stub.cpp:597-630 | Text of the wrong length is refused and text that does not decode throws, before anything is written; otherwise the word-caching writer leaves memory as byte-by-byte stores would, up to the first word that cannot be read and written |
| `GdbMemory.GdbStub.StoreBytes` | src/gdb/gdb_stub.cpp:607-627 | The same for decoded bytes |
| `GdbMemory.GdbStub.HandleMemoryRead` | src/gdb/gdb_stub.cpp:574-595 | The bytes of the range in lower-case hex, or an exception exactly when one is unreadable |
| `GdbMemory.GdbStub.DecodeHex` | src/gdb/gdb_stub.cpp:602-605 | The decoded bytes, or an exception exactly when some pair does not decode |
| `GdbMemory.GdbStub.WriteThenRead` | src/gdb/gdb_stub.cpp:574-630 | For hex text of any length and a reachable range no two bytes of which land on one byte, the write changes no byte outside the range and reading back gives the same text in lower case |
| `GdbMemory.ReadBackExact` | src/gdb/gdb_stub.cpp:574-630 | Exact condition. Everything written to a readable range reads back if and only if no two bytes of the range land on the same byte |
| `GdbMemory.AliasedRangeFails` | src/gdb/gdb_stub.cpp:607-627 | If two words of a readable range land on one guest word, some bytes written to it do not read back |
| `GdbMemory.TranslatedReadBack` | src/gdb/gdb_stub.cpp:634-677 | With translation on, everything written to a readable range reads back if and only if no byte of it lands where one a number of whole pages further on does |
| `GdbMemory.PageReadsBack` | src/gdb/gdb_stub.cpp:634-677 | So with translation on a range of at most a page always reads back |
| `GdbMemory.OddFramePairs` | src/sparcv8/MMU.cpp:460-472 | The page number is or-ed into the frame number, so a 16 MiB or 256 KiB page with an odd frame number puts each even page and the next on one frame |
| `GdbMemory.OddFrameFails` | src/sparcv8/MMU.cpp:460-472 | On such a page more than 0x1000 bytes written from the start of an even page on do not all read back |
| `GdbMemory.BootReadBack` | src/gdb/gdb_stub.cpp:643-653 | With translation off, where addresses land on themselves or through the two boot windows, a range of at most 0xBD14000 bytes has no clash |
| `GdbMemory.PokedLast` | src/gdb/gdb_stub.cpp:607-627 | Clash or not, byte-by-byte stores leave at each address the last byte stored to where it lands |
| `GdbMemory.PokedInside` | src/gdb/gdb_stub.cpp:607-627 | Without a clash each byte of the range is left as written |
| `GdbMemory.PokedOutside` | src/gdb/gdb_stub.cpp:607-627 | They change no byte the range does not land on |
| `GdbMemory.ChangesOnlyWithin` | src/gdb/gdb_stub.cpp:607-627 | Any byte that differs afterwards is one the range lands on |
| `GdbMemory.SpliceAt` | src/gdb/gdb_stub.cpp:619-624 | Masking a byte in changes that byte of the word and no other |
| `GdbMemory.TargetIsOn` | src/gdb/gdb_stub.cpp:610-612 | The bytes of a packet go to consecutive addresses modulo 2^32 |
| `GdbMemory.GuestByte` | src/gdb/gdb_stub.cpp:619-624 | The debugger's byte k of a word is the byte the guest loads k further on |
| `GdbMemory.DecodeRound` | src/gdb/gdb_stub.cpp:602-605 | Printing decoded hex text gives it back in lower case |
| `GdbMemory.PairValue` | src/gdb/gdb_stub.cpp:602-605 | Two hex digits, in either case, are the byte 16 times the first plus the second, and are printed so |
| `GdbMemory.DecodedAt` | src/gdb/gdb_stub.cpp:602-605 | Byte i of a packet is made of its digits 2i and 2i + 1 |
| `GdbMemory.HexTextAt` | src/gdb/gdb_stub.cpp:591-594 | And byte i of a reply is printed as its digits 2i and 2i + 1 |
| `GdbMemory.GdbStub.WriteMem32` | src/gdb/gdb_stub.cpp:657-677 | Only that word changes, or an exception and nothing changes |
| `Windows.RunRefines` | src/sparcv8/CPU_instructions.cpp:437-476 | Main result. Every trap-free run of SAVE, RESTORE and register accesses from window w with (w + 1) mod 8 marked in WIM is a run of an unbounded stack of frames: callee ins are caller outs, and every register read is what the stack promises (SPARC V8 manual section B.20) |
| `Windows.StepRefines` | src/sparcv8/CPU_instructions.cpp:437-476 | One trap-free step is a step of the stack |
| `Windows.SaveHolds` | src/sparcv8/CPU_instructions.cpp:437-454 | A SAVE that does not trap has a free window; the caller's outs become the callee's ins |
| `Windows.RestoreHolds` | src/sparcv8/CPU_instructions.cpp:458-476 | A RESTORE that does not trap has a frame to return to; the callee's ins become the caller's outs |
| `Windows.PutHolds` | src/sparcv8/CPU.h:344-352 | A register write touches the current frame and no other |
| `Windows.GetAgrees` | src/sparcv8/CPU.h:334-342 | A register read sees the current frame |
| `Windows.BuriedFramesKept` | src/sparcv8/CPU_instructions.cpp:437-476 | Frames below the current one do not change at any nesting depth |
| `Windows.CallKeepsFrame` | src/sparcv8/CPU_instructions.cpp:437-476 | After SAVE, any properly nested body and RESTORE, none of which traps, the caller is back in its window with its locals and ins as they were, except the register RESTORE names |
| `Windows.TrapsAtTheEnds` | src/sparcv8/CPU_instructions.cpp:437-476 | With just that window marked, SAVE traps exactly from the seventh frame, RESTORE exactly from the first, and nothing else does |
| `Cpu.CPU.ExecuteOne` | src/sparcv8/CPU.h:252-261 | Main result. Every instruction raises exactly the trap its operands call for, or stops the emulator where the code throws or ends the run; one that retires leaves the state the instruction set prescribes, and one that does not leaves the r registers, Y, WIM, TBR, PSR, PC and nPC unchanged, except that an unknown state register steps PC and nPC on; with traps disabled a trap stops the emulator instead |
| `Cpu.CPU.Perform` | src/sparcv8/CPU.h:256-260 | The same for execution and write-back of a decoded instruction |
| `Isa.FateInRange` | src/sparcv8/CPU.cpp:300-336 | Every trap an instruction can raise has a type between 1 and 255 |
| `Isa.UserConfined` | src/sparcv8/CPU_instructions.cpp:150-385 | No instruction of a user program changes S, PS, ET, PIL, EF, WIM or TBR |
| `MainLoop.UserStaysUser` | src/sparcv8/CPU.cpp:136-246 | Main result. Through any run that enters no trap handler a user program stays in user mode and leaves the privileged state alone: supervisor mode is reached only through the trap table |
| `Isa.PrivilegedRetire` | src/sparcv8/CPU_instructions.cpp:150-385 | In user mode RETT, LDA, STA, SWAPA, CASA outside the user-data space, and reads and writes of state registers other than Y never retire |
| `Isa.TrapNumbers` | src/sparcv8/CPU.cpp:300-336 | Every trap has the type the architecture gives it, in its order of precedence (SPARC V8 manual, section 7) |
| `Isa.AlignedAccesses` | src/sparcv8/CPU_instructions.cpp:544-880 | An instruction retires only if its address is a multiple of what it moves, and a doubleword form only with an even register |
| `Isa.Sequence` | src/sparcv8/CPU.h:252-261 | Every instruction that retires goes on to nPC unless it annuls it, and from there to the next unless it is a transfer |
| `Isa.OnlyDestination` | src/sparcv8/CPU.h:318-325 | No register changes but rd, rd + 1 for LDD and %o7 for CALL |
| `Isa.Delivered` | src/sparcv8/CPU.h:318-325 | And rd, in the window after the instruction, gets the result |
| `Isa.FlagsKept` | src/sparcv8/CPU_instructions.cpp:493-1130 | Only cc forms, MULSCC and WRPSR touch the condition codes, and only multiplication, division and WRY touch Y |
| `Isa.DoubleLoads` | src/sparcv8/CPU.cpp:463-484 | LDD puts the first word in the even register and the second in the odd one |
| `Isa.CallReturns` | src/sparcv8/CPU_instructions.cpp:35-352 | CALL goes to PC + 4 disp, and JMPL %o7 + 8 comes back behind its delay slot |
| `Isa.SpecialRoundTrip` | src/sparcv8/CPU_instructions.cpp:150-330 | What WRY, WRWIM and WRTBR write, the exclusive or of their operands, is read back; WIM keeps its eight windows of it |
| `Isa.EffectiveOperand` | src/sparcv8/CPU.h:263-316 | Control transfers, memory and alternate-space instructions work on the sum of r[rs1] and the second operand modulo 2^32; all others on the operand itself |
| `Isa.SaveThenRestore` | src/sparcv8/CPU_instructions.cpp:437-476 | SAVE moves a register by x into the new window, and RESTORE by -x gives the caller's value back |
| `Isa.ExtendedValue` | src/sparcv8/CPU_instructions.cpp:544-654 | A byte or half loaded signed is the number of that width with those bits; unsigned it is unchanged |
| `Isa.PackFields` | src/sparcv8/CPU_instructions.cpp:185-294 | Each field of the status word is at its place in the SPARC V8 layout |
| `MainLoop.RetiredOk` | src/sparcv8/CPU.h:318-352 | No instruction moves the window pointer out of range or writes %g0 |
| `Cpu.CPU.ReturnFromTrap` | src/sparcv8/CPU_instructions.cpp:334-385 | In a handler that has kept %l1, %l2, its window, PS and ET = 0, with WIM clear for the interrupted window and aligned PCs, JMPL %l1 and RETT %l2 return to the interrupted PC, nPC, CWP and S with ET = 1 and every register unchanged (section B.26) |
| `Cpu.CPU.EnterTrap` | src/sparcv8/CPU.cpp:198-216 | Trap entry leaves the registers of the reference loop's handler, and what a return from it needs |
| `Cpu.CPU.TrapAndReturn` | src/sparcv8/CPU.cpp:171-216 | A trapping instruction, entry and immediate return lead back to the instruction with PSR (but PS), Y, WIM and every visible register as before: it can be restarted |
| `Cpu.CPU.RunCycles` | src/sparcv8/CPU.cpp:136-246 | Every run of the main loop, with failed fetches and any instructions, is the run of turns of the reference loop; it keeps CWP below 8, the cached window base in step with it and %g0 at 0, and ends early only where the emulator stops |
| `MainLoop.StoppedStays` | src/sparcv8/CPU.cpp:224-233 | A stopped emulator takes no further turn |
| `MainLoop.TurnOk` | src/sparcv8/CPU.cpp:136-246 | Every turn of the reference loop keeps CWP in range, %g0 at 0 and the pending trap and interrupt level in their fields |
| `MainLoop.RestartAmidInterrupts` | src/sparcv8/CPU.cpp:136-246 | A trapped instruction, then JMPL %l1 and RETT %l2, with any interrupt levels polled on the way, leads back to the instruction with every visible register as it was; no interrupt is taken in the handler, and the highest level polled while no trap was pending is still noted |
| `MainLoop.EnteredSaves` | src/sparcv8/CPU.cpp:198-216 | In the handler %l1 and %l2 hold the interrupted PC and nPC, and the interrupted window is the next one up |
| `MainLoop.HandlerAddress` | src/sparcv8/CPU.cpp:198-216 | The handler starts 16 bytes times the trap type into the table at TBR, with traps disabled, in supervisor mode, S saved in PS and the next window down |
| `MainLoop.InterruptTaken` | src/sparcv8/CPU.cpp:146-195 | A polled level above the one noted is taken, with trap type 16 plus the level and PC and nPC saved, exactly if it is above PIL; otherwise it is only noted |
| `MainLoop.EnteredKeepsWindow` | src/sparcv8/CPU.cpp:198-216 | Trap entry changes no register the interrupted window can see |
| `Cpu.CPU.Cycle` | src/sparcv8/CPU.cpp:136-246 | One iteration is one turn of the reference loop, through polling, interrupt, trap entry, fetch and instruction, and acknowledges the interrupt that turn takes |
| `Cpu.CPU.Begin` | src/sparcv8/CPU.cpp:146-216 | Polling, interrupt and trap entry are the first half of that turn |
| `Cpu.CPU.FetchFault` | src/sparcv8/CPU.h:236-248 | A failed fetch traps, or stops the emulator with faults switched off or traps disabled |
| `Cpu.CPU.MultiplyProgram` | src/sparcv8/CPU_instructions.cpp:493-537 | 32 MULSCC instructions by r[rs2] and one by 0, from 0 in rd, N = V and the multiplier in Y, leave the product of unsigned Y and signed r[rs2] in rd and Y |
| `Isa.MultiplyThenDivide` | src/sparcv8/CPU_instructions.cpp:884-1000 | UMUL then UDIV, or SMUL then SDIV, as instructions through Y: the first factor is back in rd and Y is 0 |
| `Isa.CompareThenBranch` | src/sparcv8/CPU_instructions.cpp:54-77 | SUBcc and then Bicc, as instructions: the branch goes to its target exactly when the operands compare as its condition says, after its delay slot unless that is annulled |
| `Cpu.CPU.RunWindowOps` | src/sparcv8/CPU_instructions.cpp:437-476 | The processor's SAVE, RESTORE and register accesses run as the window machine, hence, trap-free, as the stack of frames |
| `Cpu.CPU.WindowOp` | src/sparcv8/CPU_instructions.cpp:437-476 | One of them steps as the window machine does, trapping exactly when it does |
| `Cpu.CPU.ReadReg` | src/sparcv8/CPU.h:334-342 | The register as the current window sees it |
| `Cpu.CPU.WriteReg` | src/sparcv8/CPU.h:344-352 | Just that register changes, %g0 stays 0 |
| `Cpu.CPU.WriteBack` | src/sparcv8/CPU.h:318-325 | The record is committed and the result written in the new window |
| `Cpu.CPU.DecodeInto` | src/sparcv8/CPU.h:263-316 | Operands read in the current window; the record holds nothing to write back |
| `Cpu.CPU.Execute` | src/sparcv8/CPU.h:256-257 | Any instruction meets its fate before write-back: the record holds what it prescribes if it retires, and nothing has changed if it does not |
| `Cpu.CPU.Trap` | src/sparcv8/CPU.cpp:300-336 | The trap is recorded, or the emulator stops if traps are disabled |
| `Cpu.CPU.Save` | src/sparcv8/CPU_instructions.cpp:437-454 | Window overflow exactly if the new window is marked; otherwise the sum goes to the new window |
| `Cpu.CPU.Restore` | src/sparcv8/CPU_instructions.cpp:458-476 | Window underflow exactly if the new window is marked; otherwise the sum goes to the new window |
| `Cpu.CPU.Jmpl` | src/sparcv8/CPU_instructions.cpp:334-352 | Traps on a misaligned target with nothing linked; otherwise links and jumps |
| `Cpu.CPU.Rett` | src/sparcv8/CPU_instructions.cpp:356-385 | The four traps in order, else S from PS, ET = 1 and the next window |
| `Cpu.CPU.Ticc` | src/sparcv8/CPU_instructions.cpp:417-433 | Traps with 128 + the low seven bits exactly when the condition holds |
| `Cpu.CPU.ReadSpecial` | src/sparcv8/CPU_instructions.cpp:150-236 | Privileged reads trap in user mode |
| `Cpu.CPU.WriteSpecial` | src/sparcv8/CPU_instructions.cpp:240-330 | WRPSR refuses a window number of 8 or more before it checks privilege; a refused write changes nothing |
| `Cpu.CPU.Divide` | src/sparcv8/CPU_instructions.cpp:947-1000 | Division by zero traps with Y unchanged; else quotient and remainder |
| `Cpu.CPU.LoadOne` | src/sparcv8/CPU_instructions.cpp:544-654 | Although the register is written before the instruction is known to be done, a load that traps leaves it alone |
| `Cpu.CPU.LoadDouble` | src/sparcv8/CPU.cpp:463-484 | Neither register is written unless both words could be read |
| `Cpu.CPU.StoreOne` | src/sparcv8/CPU.cpp:487-527 | The register sent to memory, and the traps |
| `Cpu.CPU.StoreDouble` | src/sparcv8/CPU.cpp:530-542 | Both registers sent to memory, and the traps in order |
| `Cpu.CPU.Swap` | src/sparcv8/CPU_instructions.cpp:741-775 | A swap that traps changes no r register although its scratch register is set first |
| `Cpu.CPU.Ldstub` | src/sparcv8/CPU_instructions.cpp:837-880 | Traps on any failed access, else the byte and the scratch register |
| `Cpu.CPU.SwapAlternate` | src/sparcv8/CPU_instructions.cpp:779-833 | SWAPA stops the emulator on an unknown space, traps in user mode, and is otherwise a SWAP; one that traps changes no r register |
| `Cpu.CPU.Casa` | src/sparcv8/CPU_instructions_Leon3_extensions.cpp:16-68 | CASA traps in user mode outside the user-data space and on a misaligned address, before it looks at the space; one that traps changes no r register, and otherwise rd gets the word the MMU reports, even if the store was refused with faults off |
| `Cpu.CPU.UnknownAsr` | src/sparcv8/CPU_instructions.cpp:150-262 | A read or write of a state register the processor does not have ends the run after stepping PC and nPC on, and changes nothing else |
| `Cpu.CPU.Reset` | src/sparcv8/CPU.cpp:45-96 | The reset state, with all registers 0 |
| `Isa.PsrRoundTrip` | src/sparcv8/CPU_instructions.cpp:185-294 | RDPSR followed by WRPSR of the same word changes nothing |

## Left out

- Display, audio output, console, sockets and packet dispatch: input and output.
- ELF loading, plug-and-play tables, disassembler, profilers and statistics: file access, constants, instrumentation.
- Floating-point arithmetic: host floating point; whether such an instruction completes, branches, traps or stops is a parameter.
- Contents of the alternate spaces: what LDA reads, and whether a space is known to LDA and STA, is a parameter; the traps and the registers are modelled.
- Opcode decoding: an instruction arrives decoded into its opcode class, registers and second operand.
- The MMU behind the processor: what the fetch gives and memory answers are parameters of the main loop; the MMU is modelled on its own.
- Software breakpoints in Ticc, and the sleep that a write to the power-down register starts.
- Overflow clamping in DIV: the code does not clamp, and neither does the model; the one host division that is undefined stops the emulator.
- Nested traps: a return theorem for a handler that is itself interrupted; PS must be kept, as described above.
- Wall-clock pacing in the AC'97 tick and the bus clock: a tick's frame count and the due clocks are arbitrary.
- The AC'97 mixer, record and microphone channels: register files without a protocol.
- Guest memory of the AC'97 engine is given by what its 16-bit and 32-bit reads yield; the bytes behind them are not modelled.
- Liveness of the stop protocol, wake hooks and the stop reason: only safety is claimed.
- Plain stores racing with atomics, and the address translation before an atomic operation takes its mutex.
- The wrap of the bank generation counter after 2^64 changes.
- MPSTAT, the active-CPU count and the wake-up on a forced-line write of the interrupt controller, and its register reads.
- The two accesses behind a debugger word (a load and a store) landing differently: one map from debugger addresses to guest words serves both.
