# piece-emu: a verified model of the CPU core and the stateful peripherals

piece-emu emulates the Aquaplus P/ECE, a handheld built around the EPSON S1C33209. The hard part
of an emulator is where it does not imitate the hardware step by step: arithmetic that comes out
right only after a whole sequence of instructions, shortcuts that replace thousands of timer
counts by one formula, state machines driven by several parties, and buffers kept in step with
device memory. This project models those parts of the C++ source and proves what they are for.

Each C++ object that updates its fields is a class here (`Cpu`, `Bus`, `Sst39vf`, `Timer16bit`,
`Timer8bit`, `InterruptController`, `SampleRing`, `Sound`, `Hsdma`, `S6b0741`, the libretro `Core`
and the frame loop `Emulator`). Every method of a class is proved to compute a function of the old
state, and the theorems are about those functions, over every input and every run.

| file | contents |
|---|---|
| `Words.dfy`, `DivMod.dfy`, `Clock.dfy` | machine words, quotient and remainder, counts of a clock in a window |
| `CpuState.dfy`, `Bus.dfy`, `Instructions.dfy`, `Cpu.dfy` | PSR and registers, memory map, decoding and control flow, one step of the core |
| `Sequencing.dfy`, `Transparency.dfy` | EXT, delay slot and deferred traps over whole runs; interrupts that leave no trace |
| `TrapEntry.dfy`, `Branches.dfy`, `DataSteps.dfy` | trap entry, compare-and-branch, calls and data instructions as the core steps them |
| `Stack.dfy`, `Division.dfy`, `MultiWord.dfy`, `Mac.dfy` | stack round trips, step division, carry chains, multiply-accumulate |
| `Flash.dfy`, `SaveMirror.dfy` | flash command protocol, dirty sectors, the SAVE_RAM mirror |
| `Timer16.dfy`, `Timer8.dfy`, `Intc.dfy` | analytical timers, interrupt controller |
| `SoundRing.dfy`, `SoundIrq.dfy` | the single-producer single-consumer sample ring, the completion schedule |
| `Arithmetic.dfy` | dispatch entries for division, adc, sbc and mac; whole division programs run from memory |
| `FrameLoop.dfy`, `LcdDma.dfy` | the CPU loop of a video frame, DMA to the LCD and pixel conversion |

`dafny verify dfyconfig.toml` checks all of it.

## Where the code and its comments differ

The model follows the code.

- Interrupt controller: the header comment gives RSTONLY = 0 as write-1-clears and RSTONLY = 1 as
  write-0-clears; in the code RSTONLY = 1 is write-1-clears and RSTONLY = 0 replaces the register
  (`InterruptControl.AcknowledgeMeans`).
- Flash: `on_dirty` is described as called when a sector first turns dirty; a chip erase calls it
  for sectors that are dirty already (`Flash.CallbackMeansFirstDirtyIff`).
- 16-bit timer: a tick that opens on the old CRB match raises CRB again, and a tick that opens at
  or past CRA and closes exactly on CRB raises CRA with no crossing (`Timer16.TickExact`). The
  cached wake point is one count later than the earliest raise (`Timer16.TickAtWakeRaises`).
- 8-bit timer: a stopped counter is described as frozen, but the schedule is not moved, so the
  pause is counted after the restart. It behaves as frozen exactly if no count fell due meanwhile,
  or it underflowed anyway and whole periods fell due (`Timer8.PauseFreezesIff`, and an input where
  it does not, `Timer8.PauseShows`). The 16-bit timer does the same
  (`Timer16.PauseFreezesCountIff`), and its PRESET moves the schedule to cycle 0
  (`Timer16.PresetCountsFromZero`).
- mac: the fast paths are described as equivalent to the bus accesses they skip. They are so
  exactly for even pointers, and for arrays that do not run past the address space (open bus) or
  pointers with a zero top nibble and arrays that fit (SRAM) (`Mac.RunRefinesSlowPathIff`). The
  guard of the SRAM path tests the array ends modulo 2^32 and lets arrays outside SRAM through,
  where the C++ indexes outside its vector (`Mac.OutOfBoundsIff`, `Mac.JustBelowSram`,
  `Mac.LengthWraps`).
- `slp` or `halt` in a delay slot outside strict mode leaves the slot open, so every later trap is
  deferred and the core never wakes (`Sequencing.HaltInsideNeverWakes`).
- A second trap asserted while EXT or a slot is open takes the one deferred slot, and nothing is
  left of the first (`Transparency.FiresAtFirstBoundary`, `Arithmetic.LostTrap`).
- The frame loop sets emulated time back to the frame's end when the instruction that halted
  overshot it, so peripherals can be ticked with a smaller time than before
  (`FrameLoop.TurnRewindsIff`, `FrameLoop.RewindHappens`); the timers lose nothing by it
  (`Timer8.ScheduleIndependent`, `Timer16.TickSchedule`).
- Loading a game that declares more than 2 MB of flash with a shorter image fills the SAVE_RAM
  buffer from beyond the end of the chip (`SaveMirror.LoadGameIff`, `SaveMirror.ShortImageOverruns`).

## Model

| member | source | states |
|---|---|---|
| Division.UnsignedDivision | src/core/cpu_class4.cpp:208-246 | for every dividend and nonzero divisor, also above 2^31, div0u and 32 div1 leave exactly the quotient in ALR and the remainder in AHR; no other register or flag but DS and N changes |
| Division.SignedDivision | src/core/cpu_class4.cpp:196-268 | div0s, 32 div1, div2s, div3s leave the quotient truncated toward zero in ALR and the remainder with the dividend's sign in AHR, both modulo 2^32, for every dividend and nonzero divisor |
| Division.QuotientOverflowsIff | src/core/cpu_class4.cpp:196-268 | read as a signed word the quotient is the true one for every input except the most negative number divided by -1 |
| Arithmetic.SignedProgramDivides | src/core/cpu_dispatch.cpp:198-206 | 35 instructions div0s, 32 div1, div2s, div3s fetched from memory, decoded and stepped by the core leave the truncated quotient and the remainder, PC past the program and memory unchanged |
| Arithmetic.UnsignedProgramDivides | src/core/cpu_dispatch.cpp:198-206 | the same for the 33 instructions of an unsigned division |
| Arithmetic.ProgramSteps | src/core/cpu_core.cpp:304-431 | after k steps exactly k instructions of the program are done, whatever implements the other instructions |
| Arithmetic.ProgramMachineIsReady | src/core/cpu_class4.cpp:196-268 | for all operands with a nonzero divisor there is a machine with the program in internal RAM to which the two results apply |
| Arithmetic.CoreTableIsSound | src/core/cpu_dispatch.cpp:158-247 | the entries for division, adc, sbc and mac keep the state invariants whenever the other data instructions do |
| Division.TryUp | src/core/cpu_class4.cpp:221-249 | shift and trial of one div1 on a remainder below 2^31 subtract the divisor's magnitude exactly when it fits |
| Division.TryDown | src/core/cpu_class4.cpp:221-249 | the same on a remainder of 1 to 2^31 held negated |
| Division.TruncMeaning | src/core/cpu_class4.cpp:251-268 | the reference quotient and remainder are the one pair with a = b*q + r, r smaller than b in magnitude and of the dividend's sign |
| Division.RunSteps | src/core/cpu_class4.cpp:219-250 | loop invariant of the step sequence: after k steps ALR holds the unread dividend bits above k quotient bits, AHR the remainder of the prefix read so far, both signs included |
| Division.RemainderFitsBeforeShift | src/core/cpu_class4.cpp:219-224 | before each of the 32 shifts of an unsigned division AHR is below 2^31, so the shift loses no bit |
| Division.StepUp | src/core/cpu_class4.cpp:219-250 | one div1 keeps the invariant for a non-negative dividend although the trial is a wrapping subtraction or addition |
| Division.StepDown | src/core/cpu_class4.cpp:219-250 | one div1 keeps the invariant for a negative dividend, whose remainder is held negated and ranges over 1..divisor |
| Division.TrialUp | src/core/cpu_class4.cpp:227-235 | the unsigned comparison after the wrapping trial succeeds exactly when the remainder is not below the divisor's magnitude |
| Division.TrialDown | src/core/cpu_class4.cpp:236-245 | for a negative dividend it succeeds exactly when the magnitude of the remainder exceeds the divisor's |
| Division.CorrectionTest | src/core/cpu_class4.cpp:251-261 | div2s finds zero exactly when the remainder left over is the whole divisor |
| Division.HandleDiv0s | src/core/cpu_class4.cpp:196-207 | the handler: zero divisor raises the zero-division trap after dropping EXT, otherwise signs go to DS and N and AHR is the sign fill |
| Division.HandleDiv0u | src/core/cpu_class4.cpp:208-218 | the handler: zero divisor traps, otherwise AHR, DS and N are cleared and nothing else |
| Division.HandleDiv1 | src/core/cpu_class4.cpp:219-250 | the handler's four sign branches compute one invariant-keeping step |
| Division.HandleDiv2s | src/core/cpu_class4.cpp:251-262 | the handler applies the remainder correction for negative dividends only |
| Division.HandleDiv3s | src/core/cpu_class4.cpp:263-268 | the handler negates the quotient exactly when the signs differ |
| Transparency.TransparentAtOnce | src/core/cpu_core.cpp:90-119 | a trap accepted while no EXT and no slot is open, on a running or a halted core, whose handler is a bare reti, resumes with every register, PC, SP, PSR, ALR/AHR and EXT/slot state as if it had not happened, halt left; memory differs in the 8 bytes below SP only |
| Transparency.TransparentWhenDeferred | src/core/cpu_core.cpp:102-107 | over any run of steps and other trap assertions, a trap asserted between EXT and target or between branch and slot changes nothing up to the first boundary where neither is open; if another trap took its slot the run goes on as if it had never been asserted, otherwise it is taken exactly there and one reti later the state is the uninterrupted run's at that boundary |
| Transparency.FiresAtFirstBoundary | src/core/cpu_core.cpp:421-428 | the deferred trap is re-evaluated at exactly the first boundary with neither EXT nor slot open: entered if it is accepted there; lost without a trace if it is not, or if an accepted trap of a device or of an instruction took its slot before |
| Transparency.ExamplesExist | src/core/cpu_core.cpp:90-119 | the premises of both transparency results are met by a concrete machine, once running and once between an EXT and its target |
| Transparency.Lockstep | src/core/cpu_core.cpp:402-428 | until then the run with a trap waiting and the run without one are the same, event by event, up to the deferred slot, and the slot is taken over exactly when some accepted trap came on the way |
| Transparency.StepWithDeferred | src/core/cpu_core.cpp:338-430 | a waiting trap changes nothing about one step except what happens at its end; if the instruction asserts a trap of its own that has to wait, not even that |
| Transparency.EnterThenReti | src/core/cpu_class0.cpp:76-81 | trap entry followed by one step of a reti handler is the identity up to the frame, the halt flag and time |
| Transparency.EnterFrame | src/core/cpu_core.cpp:108-118 | trap entry stores PC above PSR below SP, moves SP down 8 and changes no other register or memory byte |
| Transparency.RetiRestores | src/core/cpu_class0.cpp:76-81 | reti takes PSR and PC back from such a frame and leaves SP where it was before entry |
| Transparency.TableBindsReti | src/core/cpu_dispatch.cpp:24-56 | the dispatch table sends every reti opcode to the reti handler, whatever implements the data instructions |
| TrapEntry.HandlerPsr | src/core/cpu_core.cpp:113-116 | after any trap the handler starts with IE clear and, for a maskable one, IL at the trap's level; every other PSR field is the interrupted program's |
| TrapEntry.HandlerIsMasked | src/core/cpu_core.cpp:91-94 | so no maskable trap of any level nests before the handler allows it |
| TrapEntry.HandlerAddress | src/core/cpu_core.cpp:108-113 | the handler starts at the word at TTBR plus four times the trap number, modulo 2^32 |
| TrapEntry.HandlerAddressBytes | src/core/cpu_core.cpp:108-113 | in installed memory that word is the four bytes there, the first weighing least |
| TrapEntry.TrapGate | src/core/cpu_core.cpp:90-107 | a maskable trap is ignored exactly while IE is clear or IL is not below its level; any other is entered at once or put into the deferred slot while EXT or a slot is open |
| TrapEntry.SoftwareTraps | src/core/cpu_class0.cpp:55-74 | stepping int n enters trap 12 + n and brk trap 0, unmasked, with the next instruction as the return address |
| TrapEntry.HaltingSteps | src/core/cpu_class0.cpp:25-35 | stepping slp and halt stops the core behind the instruction, each in its own mode, and changes nothing else |
| TrapEntry.SlotRefusesControl | src/core/cpu_core.cpp:348-367 | an EXT, an undefined word or any class 0 instruction but nop, slp and halt in a delay slot stops the core for good before it takes effect, strict mode or not |
| TrapEntry.BusFaultStops | src/core/cpu_core.cpp:404-428 | a bus fault left by an instruction stops the core, is consumed, leaves a slot open and no waiting trap taken |
| TrapEntry.HardInSlotIff | src/core/cpu_core.cpp:237-298 | a slot refuses outright EXT, undefined words, class 0 but nop, slp and halt, and every instruction that accesses memory or takes several cycles, and nothing else |
| TrapEntry.UndefinedStops | src/core/cpu_core.cpp:65-80 | an undefined word stops the core behind itself and changes nothing else |
| TrapEntry.ZeroDivideTraps | src/core/cpu_class4.cpp:196-218 | div0s and div0u by zero, as decoded and stepped, enter trap 4 with the next instruction as the return address |
| Arithmetic.ZeroDivideInSlotDisplaces | src/core/cpu_class4.cpp:196-202 | outside strict mode a division by zero in a delay slot takes the deferred slot from a waiting trap |
| Arithmetic.LostTrap | src/core/cpu_core.cpp:102-107 | a concrete machine on which an accepted, waiting interrupt is lost that way and the run is as if it had never been asserted |
| Sequencing.RunKeepsQuiescence | src/core/cpu_core.cpp:90-119 | over every interleaving of steps and trap assertions at most two EXT prefixes are pending, and a trap waits only while EXT or a slot is open or after a fault |
| Sequencing.TableIsSound | src/core/cpu_dispatch.cpp:7-56 | the table keeps the state invariants whenever the data instructions do |
| Sequencing.TrapWakesIff | src/core/cpu_core.cpp:102-118 | a halted core leaves halt exactly when the trap is accepted and neither EXT nor a slot is open |
| Sequencing.HaltInSlotStaysOpen | src/core/cpu_core.cpp:413-419 | slp or halt in a delay slot, outside strict mode, halts without a fault and leaves the slot open |
| Sequencing.HaltInsideNeverWakes | src/core/cpu_core.cpp:102-107 | from any halt with EXT pending or a slot open, by such an instruction or by a breakpoint, no run of steps and traps changes core or memory again |
| Instructions.ExtKeepsFirstAndLast | src/core/cpu_class6.cpp:8-21 | after any run of prefixes the first and the last are pending and all between are dropped; up to two are all kept |
| DataSteps.ExtSteps | src/core/cpu_class6.cpp:8-21 | ext as decoded and stepped: its 13 bits join the pending ones, behind two they replace the second, and strict mode stops the core there |
| DataSteps.AluExtSteps | src/core/cpu_class1.cpp:79-94 | behind prefixes add, sub and cmp take rs and the prefixes' unsigned number as operands |
| Instructions.DisplacementRoundTrip | src/core/cpu_core.cpp:41-59 | every branch displacement of 8, 21 or 31 signed bits has an encoding with none, one or two EXT prefixes that decodes to it, whatever the three unused bits of the first of two |
| CpuCore.Cpu.Step | src/core/cpu_core.cpp:304-431 | the step method computes the step of the machine the theorems are about and returns the cycles the bus charged |
| CpuCore.Cpu.RunInstruction | src/core/cpu_core.cpp:338-428 | the same past the halt and breakpoint checks, with the refusals in the source's order |
| CpuCore.CostMeans | src/core/cpu_core.cpp:309-313 | the wrap-around of the bus counter does not show: an instruction costs what it charged, one cycle if nothing |
| CpuCore.Cpu.AssertTrap | src/core/cpu_core.cpp:86-119 | masked traps are ignored, others entered at once or put into the one deferred slot |
| CpuCore.Cpu.EnterTrap | src/core/cpu_core.cpp:108-118 | vector fetch, frame, handler state, in the order that matters when the vector lies on the bus |
| CpuCore.Cpu.PollFault | src/core/cpu_core.cpp:404-410 | a pending bus fault stops the core once and is consumed |
| CpuState.FlagsRoundTrip | src/core/cpu.hpp:24-43 | a PSR stored as a word and loaded back is unchanged, meaningless bits included |
| CpuState.RawRoundTrip | src/core/cpu.hpp:24-43 | every word is the image of exactly one PSR |
| CpuState.FieldsOfWord | src/core/cpu.hpp:13-43 | N, Z, V, C are bits 0 to 3 of the word, IE bit 4, DS and MO bits 6 and 7, IL bits 8 to 11 |
| BusModel.LoadOfStore32 | src/core/bus.cpp:10-17 | a word stored little-endian reads back unchanged |
| BusModel.SramRead | src/core/bus.cpp:175-193 | reading an aligned word of installed SRAM returns its bytes and changes nothing but the cycle count |
| BusModel.SramWrite | src/core/bus.cpp:307-328 | writing one changes those four bytes and the cycle count only |
| BusModel.LittleEndian | src/core/bus.cpp:10-17 | halfwords and words are their bytes, the one at the lowest address weighing least, stored and loaded |
| BusModel.ByteReads | src/core/bus.cpp:83-112 | a byte read gives the stored byte of whatever memory lies there, 0xFF on the open bus, and for I/O the addressed half of the register at the even address |
| BusModel.HalfwordReads | src/core/bus.cpp:114-173 | a halfword read joins the two bytes; a fetch gives the same in memory and 0xFFFF elsewhere, I/O included |
| BusModel.WordReads | src/core/bus.cpp:175-218 | an aligned word read joins four bytes, or gives all ones on the open bus |
| BusModel.WordCosts | src/core/bus.hpp:37-50 | a word in SRAM costs twice wait + 1 bus clocks to read and twice wait + 2 to write |
| BusModel.NarrowCosts | src/core/bus.hpp:37-50 | byte and halfword reads and fetches take wait + 1 bus clocks in SRAM and flash; elsewhere reads are free and a fetch takes one cycle |
| BusModel.WordWrites | src/core/bus.cpp:307-343 | a word write changes its four bytes and no other byte of installed memory, in internal RAM through its mirror too; I/O sees two halfwords, the lower first |
| BusModel.MisalignedFaults | src/core/bus.cpp:114-123 | a misaligned halfword or word access leaves a fault pending, no other access does |
| BusModel.Bus.Read8 | src/core/bus.cpp:83-112 | the in-place byte read: region, byte of the I/O halfword, open bus, cycles |
| BusModel.Bus.Read16 | src/core/bus.cpp:114-173 | the in-place halfword read: misalignment fault, region, open bus, cycles |
| BusModel.Bus.Read32 | src/core/bus.cpp:175-218 | the in-place word read: two I/O reads low half first, doubled cycles |
| BusModel.Bus.Write32 | src/core/bus.cpp:307-343 | the in-place word write: nothing is stored outside installed RAM, flash only costs cycles |
| BusModel.Bus.Fetch16 | src/core/bus.cpp:347-378 | the in-place fetch: no I/O, no fault, at least one cycle outside external memory |
| Stack.PushNEffect | src/core/cpu_class0.cpp:37-44 | pushn n leaves r0..rn in ascending order from the new SP up, for every n, and touches only the 4(n+1) bytes below the old SP |
| Stack.PopNEffect | src/core/cpu_class0.cpp:46-53 | popn loads exactly r0..rn from ascending words, moves SP past them and leaves memory alone |
| Stack.PushPopIdentity | src/core/cpu_class0.cpp:37-53 | pushn n, any change of all registers, PC and the cycle count, popn n: r0..rn and SP are back, the other registers keep their new values, memory differs only below SP |
| DataSteps.PushPopSteps | src/core/cpu_class0.cpp:37-53 | pushn n and popn n as decoded and stepped, one after the other: the whole core is as before behind them |
| DataSteps.RetdSteps | src/core/cpu_class0.cpp:60-67 | ret.d of class 0a takes PC from the top of the stack and PSR from the word above, the reverse of a trap frame, and opens the slot |
| Stack.CallRetIdentity | src/core/cpu_class0.cpp:83-102 | an undelayed call whose callee is ret resumes after the call with the whole core unchanged, having used four bytes below SP |
| Stack.PushRegisters | src/core/cpu_class0.cpp:37-44 | the descending loop of the handler stores what pushn is proved to store |
| Stack.PopRegisters | src/core/cpu_class0.cpp:46-53 | the ascending loop of the handler loads what popn is proved to load |
| MultiWord.AdcChainExact | src/core/cpu_class5.cpp:53-60 | for numbers of any length the words of an adc chain plus the final carry's weight equal the exact sum |
| MultiWord.SbcChainExact | src/core/cpu_class5.cpp:61-68 | the words of an sbc chain less the final borrow's weight equal the exact difference |
| MultiWord.SubChainDecides | src/core/cpu_class0.cpp:145-152 | after sub, sbc, sbc, ... jrult and jruge decide the unsigned order and jrlt and jrge the two's-complement order of the whole numbers |
| MultiWord.ZeroFlagDecidesIff | src/core/cpu_class0.cpp:153-154 | after a subtract chain jreq decides equality of the whole numbers if and only if their difference modulo the chain's range is zero or at least the weight of the top word |
| MultiWord.ZeroFlagMisses | src/core/cpu_class0.cpp:153-154 | an input where it does not: two words holding 1 and 0 |
| MultiWord.CmpDecides | src/core/cpu_class0.cpp:145-154 | after comparing two words all ten conditional branches decide the relation they are named for |
| Branches.CompareAndBranch | src/core/cpu_class0.cpp:130-154 | cmp and jr** in memory: two steps later PC is the branch's own address plus twice the displacement if the relation the branch is named for holds between the registers, and behind the branch otherwise, for all ten branches; only the arithmetic flags differ besides |
| Branches.CompareAndBranchDelayed | src/core/cpu_core.cpp:412-419 | the delayed form with an addition in the slot: the addition is done exactly once whichever way the branch goes, and PC is the target or the address behind the slot |
| Branches.BranchSteps | src/core/cpu_class0.cpp:128-143 | the same for one branch with up to two prefixes under any flags: prefixes are used up and nothing else changes |
| Branches.BranchAfterChain | src/core/cpu_class0.cpp:146-151 | after a subtract chain on numbers of any length jrult, jruge, jrlt and jrge go where the order of the whole numbers says |
| Branches.SlotSteps | src/core/cpu_core.cpp:412-419 | the step after a delayed transfer executes the slot instruction once, from behind the branch, and then stands at the target, whatever that instruction does |
| Branches.StepOutsideSlot | src/core/cpu_core.cpp:399-430 | outside a slot an instruction that asserts no trap leaves exactly what its handler left |
| Branches.StepInSlot | src/core/cpu_core.cpp:399-430 | in a slot it leaves that with PC at the delayed target and the slot closed |
| Branches.JumpSteps | src/core/cpu_class0.cpp:170-178 | jp passes control to its own address plus twice the displacement, at once or after the slot |
| Branches.JumpRegisterSteps | src/core/cpu_class0.cpp:104-122 | jp %rb goes to the register's value; its delayed form stops the core |
| Branches.CallSteps | src/core/cpu_class0.cpp:156-168 | call stores the address behind itself, or behind its slot, in the word below SP, touches no other memory and passes control to the target |
| Branches.CallRegisterSteps | src/core/cpu_class0.cpp:83-94 | the same to a register's value |
| Branches.RetSteps | src/core/cpu_class0.cpp:96-102 | ret passes control to the word on top of the stack and takes it off |
| Branches.CallAndReturn | src/core/cpu_class0.cpp:83-102 | a call whose target holds ret: two steps later the core stands behind the call as if nothing had been called |
| Branches.AluSteps | src/core/cpu_class1.cpp:79-98 | add, sub and cmp of two registers as stepped: cmp writes flags only |
| Branches.CodeFits | src/core/bus.cpp:359-368 | for any such code that fits internal RAM, and any registers, there is a machine that holds it |
| DataSteps.CarrySteps | src/core/cpu_class5.cpp:53-68 | adc and sbc as decoded and stepped: the new word and the new C are exact, the carry or borrow of weight 2^32 |
| MultiWord.SbcExact | src/core/cpu.hpp:56-62 | one subtraction step is exact once its borrow is counted; N xor V is the sign of the true difference, V says whether it leaves the signed range, and no other PSR field changes |
| MultiWord.AdcExact | src/core/cpu.hpp:49-55 | one addition step is exact once its carry is counted; Z, N and V say whether the word is zero, negative, and the signed sum out of range, and no other PSR field changes |
| MultiWord.HandleAdc | src/core/cpu_class5.cpp:53-60 | the handler writes that sum and those flags and drops EXT |
| MultiWord.HandleSbc | src/core/cpu_class5.cpp:61-68 | the handler writes that difference and those flags and drops EXT |
| Mac.RunRefinesSlowPathIff | src/core/cpu_class5.cpp:135-241 | for any registers: on every memory of the installed sizes accumulator, sticky MO, pointers, count, charged cycles, memory and faults are those of one bus access per element if and only if the registers meet a condition a caller can test; otherwise some memory gives another result or the vector is left |
| Mac.SlowRunIsDotProduct | src/core/cpu_class5.cpp:218-236 | for any count the element loop adds to the accumulator the integer dot product of the operands the bus delivers, modulo 2^64, and MO is set exactly if it was or some step's exact signed sum leaves the 64-bit range |
| Mac.RunIsDotProduct | src/core/cpu_class5.cpp:135-241 | so does the instruction on whichever path it takes, under the register condition of the row above |
| Mac.OperandsInSram | src/core/cpu_class5.cpp:190-196 | for arrays in SRAM the operands are the halfwords stored there, in order |
| DataSteps.MacSteps | src/core/cpu_class5.cpp:135-241 | mac %rs as decoded and stepped: {AHR, ALR} grows by the dot product of the r[rs] pairs at r[rs+1] and r[rs+2], MO records overflow, pointers end behind their arrays, the count at zero, nothing else changes |
| Mac.PathAExact | src/core/cpu_class5.cpp:152-179 | once the open-bus shortcut is chosen it agrees with the element loop on every memory if and only if both pointers are even and neither array runs past the 28-bit address space |
| Mac.PathAWrapsAtTop | src/core/cpu_class5.cpp:160-164 | an input at which the open-bus shortcut is chosen and wrong: two elements from 0x0FFFFFFE |
| Mac.PathBExact | src/core/cpu_class5.cpp:181-216 | once the guard of the SRAM shortcut holds, it agrees with the element loop on every memory if and only if both pointers are even with a zero top nibble and both arrays start at or above SRAM and do not wrap |
| Mac.OutOfBoundsIff | src/core/cpu_class5.cpp:183-196 | the guard lets the loop index outside its vector exactly for arrays that start below SRAM or wrap |
| Mac.JustBelowSram | src/core/cpu_class5.cpp:183-196 | an input that does: one element two bytes below SRAM |
| Mac.LengthWraps | src/core/cpu_class5.cpp:183-196 | another: a count of 2^31 from the start of SRAM |
| Mac.PathAAgrees | src/core/cpu_class5.cpp:162-178 | on open-bus arrays the one-shot sum and the one-shot overflow test equal the loop's result |
| Mac.OverflowSplits | src/core/cpu_class5.cpp:168-171 | adding n at once overflows exactly when some single step of adding 1 does |
| Mac.PathBAgrees | src/core/cpu_class5.cpp:190-216 | on SRAM arrays the direct loop equals the bus loop, cycles included |
| Mac.OddPointerFaults | src/core/cpu_class5.cpp:219-221 | with an odd pointer the element loop always leaves a misalignment fault pending, which the shortcuts do not |
| Mac.SramPath | src/core/cpu_class5.cpp:183-216 | the in-place loop over SRAM bytes with its wrapping offsets and guarded MO update, up to the first index out of bounds |
| Mac.BusPath | src/core/cpu_class5.cpp:219-236 | the in-place loop over the bus with its guarded MO update |
| Mac.Accumulate | src/core/cpu_class5.cpp:142-237 | the choice between no operation and the three paths |
| Mac.HandleMac | src/core/cpu_class5.cpp:135-241 | the handler for any registers: operands from rs, rs+1, rs+2 modulo 16 and back, a count of zero changes nothing but EXT, and a flag tells when the vector was left |
| Flash.MemoryProtected | src/board/flash_sst39vf.cpp:99-208 | over every run of writes from reset a write leaves memory and dirty bits alone unless the writes just before it are the complete program sequence, or the complete erase unlock and it is an erase command; then exactly the addressed halfword, sector, block or chip changes |
| Flash.StateSpelled | src/board/flash_sst39vf.cpp:115-155 | a state inside a command sequence is reached only by writing that sequence without a gap |
| Flash.SequencesUnlock | src/board/flash_sst39vf.cpp:115-207 | conversely the full sequences do program the next halfword and arm the next erase |
| Flash.SequencesQuery | src/board/flash_sst39vf.cpp:129-141 | the two query sequences enter ID and CFI mode without touching memory, and reads then give the mode's table entry at the halfword's address |
| Flash.DecodeMeans | src/board/flash_sst39vf.cpp:100-101 | an offset inside the chip decodes to its halfword, and so do offsets whole chip sizes away |
| Flash.EraseRangeMeans | src/board/flash_sst39vf.cpp:157-188 | the erased range is the aligned sector or block around the address or the whole chip, always inside the chip, and empty for any other sixth cycle |
| Flash.ProgramReadsBack | src/board/flash_sst39vf.cpp:64-89 | after the program sequence and a write the halfword reads back whole and every other halfword reads as before |
| Flash.EraseReadsBlank | src/board/flash_sst39vf.cpp:64-89 | after an erase the halfwords of its range read 0xFFFF and all others as before |
| Flash.QueryModesAreReadOnly | src/board/flash_sst39vf.cpp:192-198 | in ID and CFI mode no run of writes without a short exit changes anything |
| Flash.ShortExitResynchronises | src/board/flash_sst39vf.cpp:106-113 | a short exit leads to the normal state from every state, whether it is taken as command or as data |
| Flash.WriteMarks | src/board/flash_sst39vf.cpp:212-223 | a write marks every sector it changes and cleans none |
| Flash.CleanSectorsUnchanged | src/board/flash_sst39vf.cpp:157-223 | in every reachable state each clean sector holds what it held at the last clear or load |
| Flash.RunMarks | src/board/flash_sst39vf.cpp:99-223 | over a run of writes a sector clean at the end was not changed by it |
| Flash.CallbackMeansFirstDirtyIff | src/board/flash_sst39vf.cpp:159-168 | the dirty callback is called for exactly the newly dirty sectors unless a chip erase finds one dirty already |
| Flash.ChipEraseReportsAgain | src/board/flash_sst39vf.cpp:159-168 | an input where it is not: a chip erase while sector 0 is dirty |
| Flash.RunKeepsDirty | src/board/flash_sst39vf.cpp:212-223 | no run of writes cleans a sector |
| Flash.PartsArePowersOfTwo | src/board/flash_sst39vf.cpp:54-56 | both part sizes that are chosen from are powers of two, so masking an address is taking a remainder |
| Flash.Sst39vf.constructor | src/board/flash_sst39vf.cpp:33-52 | a new chip is blank, clean and in the normal state |
| Flash.Sst39vf.Write16 | src/board/flash_sst39vf.cpp:99-208 | the in-place write computes the next chip state and makes exactly the predicted callback calls, in order |
| Flash.Sst39vf.MarkDirty | src/board/flash_sst39vf.cpp:212-223 | the loop marks the sectors of the span and reports those it found clean, ascending |
| Flash.Sst39vf.SixthCycle | src/board/flash_sst39vf.cpp:157-190 | the write after the erase unlock erases its range or nothing and returns to normal |
| Flash.Sst39vf.EraseSpan | src/board/flash_sst39vf.cpp:169-184 | one range becomes 0xFF and dirty |
| Flash.Sst39vf.EraseChip | src/board/flash_sst39vf.cpp:159-168 | everything becomes 0xFF and dirty and every sector is reported |
| Flash.Sst39vf.NextState | src/board/flash_sst39vf.cpp:116-155 | the nested comparisons of the unlock states compute the transition function |
| Flash.Sst39vf.Read | src/board/flash_sst39vf.cpp:64-89 | a read returns memory outside the query modes and a table entry inside them |
| Flash.Sst39vf.Load | src/board/flash_sst39vf.cpp:290-294 | an image that fits replaces its range and turns nothing dirty; one that does not fit is rejected whole |
| Flash.Sst39vf.Clear | src/board/flash_sst39vf.cpp:305-307 | clearing makes every sector clean and changes nothing else |
| SaveMirror.FrameMirrorsIff | src/libretro/piece_libretro.cpp:405-564 | after a frame SAVE_RAM equals flash exactly when the overlay was accepted or the buffer already agreed on every byte whose sector the frame left clean |
| SaveMirror.AnyFrameMirrorsIff | src/libretro/piece_libretro.cpp:405-564 | decided before the frame: SAVE_RAM will equal flash after it whatever is written, if and only if the overlay is accepted or every byte of the buffer agrees with flash or lies in a sector that is dirty already |
| SaveMirror.EveryFrameMirrors | src/libretro/piece_libretro.cpp:538-564 | from a loaded game with the buffer left alone or replaced by an accepted overlay, SAVE_RAM equals flash after every frame of every run, whatever is written to flash |
| SaveMirror.RejectedOverlayLeavesStaleByte | src/libretro/piece_libretro.cpp:405-420 | after a rejected overlay a stale byte in a sector the frame does not touch stays wrong |
| SaveMirror.SyncCleans | src/libretro/piece_libretro.cpp:560-560 | every frame ends with no sector dirty and no overlay pending |
| SaveMirror.HeaderStays | src/libretro/piece_libretro.cpp:547-561 | no run of frames touches the header in front of the flash area |
| SaveMirror.HeaderAcceptedIff | src/libretro/piece_libretro.cpp:408-413 | an overlay is accepted exactly if its signature word spells PFI above the lowest byte and SYSTEMINFO has 32 bytes, as for a game file |
| SaveMirror.LoadGameIff | src/libretro/piece_libretro.cpp:270-352 | a game whose header and image are good is loaded with the mirror equal to flash if and only if it declares at most 2 MB of flash; otherwise the copy into the buffer reads past the chip |
| SaveMirror.LoadedHoldsImage | src/debug/pfi_loader_blob.cpp:75-80 | for every file that loads, flash holds its image from the start on and 0xFF after it, and the buffer starts with the file's own header |
| SaveMirror.SmallGamesLoad | src/debug/pfi_loader_blob.cpp:58-87 | up to that size any game with a good header and a non-empty image fits its chip |
| SaveMirror.ShortImageOverruns | src/libretro/piece_libretro.cpp:346-351 | an input beyond it: 4 MB declared, one byte of image |
| SaveMirror.Core.RetroLoadGame | src/libretro/piece_libretro.cpp:270-352 | for any file: refused, overrun, or a buffer holding the header and a full copy of flash |
| SaveMirror.Core.ApplyOverlay | src/libretro/piece_libretro.cpp:405-420 | the first frame loads the flash area if the header check passes and never asks again |
| SaveMirror.Core.SyncFlash | src/libretro/piece_libretro.cpp:547-564 | the sector loop copies exactly the bytes of dirty sectors inside the saved area and cleans the chip |
| SaveMirror.Core.CopySector | src/libretro/piece_libretro.cpp:553-559 | one sector is copied, cut off at the end of the saved area, and nothing else |
| Timer16.TickExact | src/soc/peripheral_t16.cpp:146-222 | from an in-range count the analytical tick leaves the count and schedule of a counter stepped once per count, raises every match of CRA and CRB, and raises more only in the two cases spelled out: CRB when the window opens on the old match, CRA when it opens past CRA and closes on CRB |
| Timer16.ResetTickExact | src/soc/peripheral_t16.cpp:166-200 | the same for the formula with reset at CRB, as an exact condition on each raise |
| Timer16.FreeTickExact | src/soc/peripheral_t16.cpp:201-218 | the free-running loop raises CRA exactly when the stepped counter meets it |
| Timer16.SplitTick | src/soc/peripheral_t16.cpp:158-222 | a tick on the way changes neither count nor schedule, and a match of the whole window is a match in one of its parts |
| Timer16.TickSchedule | src/soc/peripheral_t16.cpp:146-222 | however a stretch of time is cut into ticks, and in whatever order they come, the timer ends as if ticked once at the latest and no compare match goes unraised |
| Timer16.BackwardTick | src/soc/peripheral_t16.cpp:153-153 | a tick with an earlier time than the one before does nothing |
| Timer16.PauseFreezesCountIff | src/soc/peripheral_t16.cpp:146-160 | the first due tick after a restart counts the pause too; the count is that of a counter frozen meanwhile exactly if whole periods fell due in the pause |
| Timer16.PresetCountsFromZero | src/soc/peripheral_t16.cpp:126-130 | after PRESET the first tick counts all time since cycle 0; the count is that of a schedule set to the present exactly if the surplus is whole periods |
| Timer16.TickRestoresRange | src/soc/peripheral_t16.cpp:178-200 | a count left above CRB by a register write is back in range after one due tick |
| Timer16.TickRaisesIff | src/soc/peripheral_t16.cpp:146-222 | a running timer raises at a tick if and only if the tick is not before a cycle given in closed form |
| Timer16.TickAtWakeRaises | src/soc/peripheral_t16.cpp:10-44 | a tick at the cached wake point always raises, so the halt fast-forward never jumps to an empty wake; the wake point is one count after the earliest raise |
| Timer16.WakeMeans | src/soc/peripheral_t16.cpp:10-44 | below the saturation value the wake point is the nearer of the two compare distances |
| Timer16.MatchesIff | src/soc/peripheral_t16.cpp:162-183 | a compare value is met within n counts exactly when n reaches its first meeting |
| Timer16.AfterClosedForm | src/soc/peripheral_t16.cpp:178-183 | the stepped counter equals the unwrapped value modulo CRB + 1 |
| Timer16.Timer16bit.TickTo | src/soc/peripheral_t16.cpp:146-222 | the in-place tick computes the analytical tick and leaves the wake cache current |
| Timer16.Timer16bit.CountLoop | src/soc/peripheral_t16.cpp:208-217 | the count-by-count loop of the free-running case and the number of raises it makes |
| Timer16.Timer16bit.RefreshWake | src/soc/peripheral_t16.cpp:10-44 | the wake cache becomes that of the present registers |
| Timer16.Timer16bit.WriteCra | src/soc/peripheral_t16.cpp:102-105 | the write changes CRA only and keeps the wake cache current |
| Timer16.Timer16bit.WriteCrb | src/soc/peripheral_t16.cpp:108-111 | the write changes CRB only and keeps the wake cache current |
| Timer16.Timer16bit.WriteTc | src/soc/peripheral_t16.cpp:114-117 | the write changes the count only and keeps the wake cache current |
| Timer16.Timer16bit.WriteCtl | src/soc/peripheral_t16.cpp:120-137 | PRESET clears count and schedule, PRUN starts and stops, the wake cache stays current |
| Timer8.TickIsReference | src/soc/peripheral_t8.cpp:103-136 | one analytical tick equals a one-count-at-a-time down-counter in counter, schedule and whether it underflowed |
| Timer8.ScheduleIndependent | src/soc/peripheral_t8.cpp:103-136 | for any tick times in any order counter, schedule and raises are those of the stepped counter at the latest time |
| Timer8.BackwardTick | src/soc/peripheral_t8.cpp:109-109 | a tick with an earlier time than the one before does nothing |
| Timer8.WakeIsExact | src/soc/peripheral_t8.cpp:93-101 | a tick raises if and only if it is not before the wake point |
| Timer8.PauseIsCountedAfterRestart | src/soc/peripheral_t8.cpp:103-116 | ticks while stopped change nothing, and the first due tick after a restart counts the stopped time too |
| Timer8.PauseFreezesIff | src/soc/peripheral_t8.cpp:103-135 | a timer stopped at one cycle and restarted at another behaves as if frozen in between if and only if no count fell due meanwhile, or it underflowed anyway and the counts that fell due are whole periods |
| Timer8.PauseShows | src/soc/peripheral_t8.cpp:103-116 | an input where it does not: three counts fall due in the pause and the counter stands at 1 instead of 4 |
| Timer8.SplitTick | src/soc/peripheral_t8.cpp:114-135 | a tick on the way changes nothing about the outcome, raises included |
| Timer8.Timer8bit.TickTo | src/soc/peripheral_t8.cpp:103-136 | the in-place tick is the stepped counter's run to that cycle |
| Timer8.Timer8bit.OnCtlWrite | src/soc/peripheral_t8.cpp:20-34 | PSET reloads the counter, PTRUN starts and stops it, the schedule is untouched |
| InterruptControl.SkipIsSound | src/soc/peripheral_intc.cpp:242-285 | over every run of raises, register writes, level changes and polls: while the skip flag is clear every source deliverable now was deliverable at the same level at the last scan |
| InterruptControl.SkippedScanRepeats | src/soc/peripheral_intc.cpp:244-248 | so a skipped scan could find nothing if the last one found nothing, and only the same source again if that one is still deliverable |
| InterruptControl.ScanFindsBest | src/soc/peripheral_intc.cpp:250-274 | the scan finds the highest level among deliverable sources, the lowest index at that level, and nothing only if nothing is deliverable |
| InterruptControl.PriorityIsField | src/soc/peripheral_intc.cpp:260-266 | a source's level is the number its register byte stands for, divided by 2^shift, modulo 8 |
| InterruptControl.PollDelivers | src/soc/peripheral_intc.cpp:250-284 | on the register contents alone: a scan hands over the trap and level of the flagged, enabled source with the highest level above the CPU's, the lowest index among equals, and nothing exactly if there is none |
| InterruptControl.RaiseDelivers | src/soc/peripheral_intc.cpp:287-314 | raise sets the source's flag and no other, and delivers exactly if the source is enabled with a nonzero level, that of the override or of the register |
| InterruptControl.WrittenLevelIsDelivered | src/soc/peripheral_intc.cpp:134-159 | a level written to its priority register is the level raise and, without an override, poll hand to the CPU from then on |
| InterruptControl.DeliveriesAreAccepted | src/core/cpu_core.cpp:91-94 | the core takes what a scan delivers whenever IE is set and its level is the one the controller was told |
| InterruptControl.TableIsRegular | src/soc/peripheral_intc.cpp:52-93 | flags and enables lie at the same places of their groups, and trap numbers are maskable and rise with the index |
| InterruptControl.CleanOpAddsNothing | src/soc/peripheral_intc.cpp:134-159 | an operation that leaves the skip flag clear makes no source newly deliverable and changes no deliverable level |
| InterruptControl.OverridesLiveAlways | src/soc/peripheral_intc.cpp:198-209 | no run of operations leaves a level override behind a cleared flag |
| InterruptControl.ResetEstablishes | src/soc/peripheral_intc.cpp:95-106 | reset starts both invariants off |
| InterruptControl.HalfwordIsTwoBytes | src/soc/peripheral_intc.cpp:168-231 | a halfword write equals its two byte writes at every offset, skip flag included, although the two handlers test the range differently |
| InterruptControl.AcknowledgeMeans | src/soc/peripheral_intc.cpp:168-214 | RSTONLY set: exactly the flags written as 1 are cleared; RSTONLY clear: the register becomes the value; no other register changes and a cleared flag loses its override |
| InterruptControl.FlagsDistinct | src/soc/peripheral_intc.cpp:52-93 | no two sources share a flag, so acknowledging one leaves the others alone |
| InterruptControl.InterruptController.constructor | src/soc/peripheral_intc.cpp:95-106 | a reset controller: reset-only bits set, no overrides, level 0, scan due |
| InterruptControl.InterruptController.Poll | src/soc/peripheral_intc.cpp:242-285 | the scanning loop delivers the best source or nothing, and at most one trap |
| InterruptControl.InterruptController.Raise | src/soc/peripheral_intc.cpp:233-314 | the flag is set whatever the enables, delivery happens only for an enabled source with nonzero level |
| InterruptControl.InterruptController.SetCurrentIl | src/soc/peripheral_intc.hpp:88-91 | a drop of the level makes the next poll scan |
| InterruptControl.InterruptController.StoreByte | src/soc/peripheral_intc.cpp:189-213 | the override loop drops exactly the overrides of flags that went from 1 to 0 |
| InterruptControl.InterruptController.IoWriteByte | src/soc/peripheral_intc.cpp:134-159 | the byte handler changes one register and marks the scan for the relevant ranges |
| InterruptControl.InterruptController.IoWrite | src/soc/peripheral_intc.cpp:168-231 | the halfword handler, low byte before high, high byte only at an odd address |
| SoundRing.RingIsFifo | src/soc/peripheral_sound.cpp:132-170 | under every interleaving of the two threads' loads, slot accesses and stores: the popped samples followed by those in the ring are the accepted samples in order, at most 4095 are in the ring, and a finished burst's accepted plus dropped samples make up its count |
| SoundRing.NoOverwrite | src/soc/peripheral_sound.cpp:134-138 | the slot the producer is about to write holds no sample the consumer has not published past |
| SoundRing.RoomLeft | src/soc/peripheral_sound.cpp:134-137 | the full test leaves one slot free even against an out-of-date tail |
| SoundRing.StepKeepsInv | src/soc/peripheral_sound.cpp:132-154 | every atomic step of either thread keeps the ring invariant |
| SoundRing.ContentsAreUnpopped | src/soc/peripheral_sound.cpp:164-169 | the window between tail and head is the accepted samples not yet popped |
| SoundRing.SampleRing.TryPush | src/soc/peripheral_sound.cpp:132-141 | between interleavings a push appends or, with 4095 samples in, refuses and changes nothing |
| SoundRing.SampleRing.Pop | src/soc/peripheral_sound.cpp:143-162 | a pop takes the oldest samples, as many as asked for or as there are |
| SoundIrq.CadenceTelescopes | src/soc/peripheral_sound.cpp:84-123 | over any run of timely rearms the completion time advances by exactly the sum of the bursts' playing times, whatever the latency of ticks and interrupt routines |
| SoundIrq.CadenceKeepsRate | src/soc/peripheral_sound.cpp:84-87 | at a fixed clock that sum falls short of the exact playing time by less than one cycle a burst |
| SoundIrq.PeriodAdvances | src/soc/peripheral_sound.cpp:95-123 | one timely period schedules the next completion one playing time after the last, however late the tick came |
| SoundIrq.StartAnchorsIff | src/soc/peripheral_sound.cpp:95-102 | the previous completion is the anchor exactly for a rearm within one playing time of it |
| SoundIrq.Sound.StartBurst | src/soc/peripheral_sound.cpp:58-102 | the whole handler between consumer steps: the burst's halfwords are read in order, converted and pushed as far as there is room, the others counted as dropped, and the completion scheduled; an empty burst or a zero centre changes nothing |
| SoundIrq.Sound.PushSamples | src/soc/peripheral_sound.cpp:71-79 | the sample loop: the ring gets exactly the first samples that fit, in order |
| SoundIrq.PcmMeans | src/soc/peripheral_sound.cpp:72-76 | the centre duty is silence and a larger duty never gives a smaller sample, clipping included |
| SoundIrq.PcmScale | src/soc/peripheral_sound.cpp:72-76 | between the clipping points a sample is (duty - centre) * 65536 / centre rounded toward zero, outside them the nearer end of the range |
| SoundIrq.BurstFromSram | src/soc/peripheral_sound.cpp:71-72 | a burst in SRAM gives its halfwords in order, converted |
| SoundIrq.Sound.ScheduleBurst | src/soc/peripheral_sound.cpp:84-102 | the completion is set from the anchor or from now |
| SoundIrq.Sound.TickTo | src/soc/peripheral_sound.cpp:115-123 | the method fires once per pending completion and records the scheduled time, not the tick's |
| FrameLoop.FrameEnds | src/libretro/piece_libretro.cpp:461-519 | for any instruction costs of at least one and any wake points the frame ends, faulted or at the target with less than the last instruction's cost of overshoot |
| FrameLoop.TurnAdvances | src/libretro/piece_libretro.cpp:489-518 | every turn brings the target closer or leaves no tick due |
| FrameLoop.FrameKeepsSchedule | src/libretro/piece_libretro.cpp:465-487 | over every frame instructions start less than four bursts after the last tick, and due ticks keep one burst's distance |
| FrameLoop.TurnRewindsIff | src/libretro/piece_libretro.cpp:489-518 | a turn of the loop sets emulated time back if and only if its last instruction overshot the target and left the core halted past the tick that fell due |
| FrameLoop.RewindHappens | src/libretro/piece_libretro.cpp:489-518 | a frame from the initial state whose peripherals are ticked at 0, at 10 and then at 5 |
| FrameLoop.HaltStopsAtWake | src/libretro/piece_libretro.cpp:499-517 | a halted core is ticked at its own wake point, that of sleep mode if it sleeps: not past the frame's end, not later than the wake point or one burst on, and short of these only at the frame's end |
| FrameLoop.NextTickAtWake | src/libretro/piece_libretro.cpp:481-486 | the next tick is due at the peripherals' wake point where that keeps one to four bursts' distance, otherwise at the nearer limit |
| FrameLoop.Emulator.RunFrame | src/libretro/piece_libretro.cpp:489-519 | the nested loops terminate and compute the frame the lemmas are about |
| FrameLoop.Emulator.RunTurn | src/libretro/piece_libretro.cpp:490-518 | one turn of the outer loop, the due tick before the halt jump |
| FrameLoop.Emulator.RunUntil | src/libretro/piece_libretro.cpp:491-494 | the inner loop steps until the stop point, a halt or a fault |
| FrameLoop.Emulator.DoTick | src/libretro/piece_libretro.cpp:477-487 | the next tick is due no sooner than one burst and no later than four |
| LcdDma.StreamLands | src/board/s6b0741.cpp:49-53 | a data stream of any length leaves each column of the page with the last byte that landed in it, bit-reversed, and everything else as before |
| LcdDma.CommandsSetCursor | src/board/s6b0741.cpp:33-48 | the three address commands set page and column whatever they were |
| LcdDma.OtherCommandsIgnored | src/board/s6b0741.cpp:45-47 | every other command is absorbed, and no command touches video memory |
| LcdDma.ReverseTwice | src/board/s6b0741.cpp:20-29 | reversing the bits twice gives the byte back |
| LcdDma.ReverseMeans | src/board/s6b0741.cpp:20-29 | bit k of a byte on the display side is bit 7 - k of the CPU's |
| LcdDma.PixelMeans | src/board/s6b0741.cpp:74-78 | in each pixel the bit of the even column's byte weighs 2 and that of the odd column's 1 |
| LcdDma.PagePositions | src/board/s6b0741.cpp:56-72 | pages lie right to left from page 10, wrapping after 15, with bit 0 of each rightmost |
| LcdDma.ReadsSram | src/soc/peripheral_hsdma.cpp:34-36 | a source array in SRAM is delivered byte for byte |
| LcdDma.DotsCoverTheRow | src/board/s6b0741.cpp:71-77 | page and bit determine the horizontal position and it determines them: every dot is written once |
| LcdDma.ToPixels | src/board/s6b0741.cpp:69-83 | after the nested loops each of the 88 x 128 pixels is given by one formula over video memory |
| LcdDma.ConvertCell | src/board/s6b0741.cpp:74-80 | the innermost loop defines the eight dots of its page and row and no other |
| LcdDma.Hsdma.DoCh0Inline | src/soc/peripheral_hsdma.cpp:28-50 | an enabled channel with a count delivers exactly that many bytes in address order to the display, ends disabled with count 0 and signals completion once; otherwise nothing happens |
| LcdDma.Hsdma.TransferByte | src/soc/peripheral_hsdma.cpp:34-47 | one byte moves from the bus to the display, registers follow, and the last byte disables the channel |
| LcdDma.Hsdma.WriteEnable | src/soc/peripheral_hsdma.cpp:52-62 | the enable bit reloads the 24-bit count and 28-bit address from the registers |
| LcdDma.S6b0741.WriteData | src/board/s6b0741.cpp:49-53 | a data byte is stored reversed at the cursor, which moves on within the page |
| LcdDma.S6b0741.WriteCommand | src/board/s6b0741.cpp:33-48 | a command byte changes the cursor as decoded and no video memory |

## Left out

- Instruction classes 1 to 5, except add, sub and cmp of registers, step division, adc, sbc and mac: the core runs over an arbitrary function for them, so the results hold for any implementation that keeps the register file well formed.
- CpuCore.Cpu.Step: a handler asserts at most one trap, as its last action; traps a handler causes indirectly, by writing a device register that delivers an interrupt in the middle of an instruction, are not modelled.
- I/O registers behind the CPU's bus: one arbitrary deterministic function of all accesses so far; the interrupt controller, timers and DMA are modelled as objects of their own.
- Flash behind the CPU's bus: the default read-only device; the writable chip is modelled as an object of its own.
- The byte and halfword writes of the bus, watchpoints, shadow SRAM, load_flash and load_sram.
- SRAM and flash sizes on the bus: multiples of four within the decoded windows, which every hardware revision meets.
- Flash.Sst39vf.constructor: chips of 4 to 32 KB, which no caller makes (the factory knows 512 KB and 2 MB); a block erase would run past their end.
- Mac.HandleMac: what a read outside the SRAM vector does; the model says exactly when it happens and stops there.
- SaveMirror.Core.RetroLoadGame: likewise what the copy past the end of the chip reads, and memory sizes other than flash.
- The C++ memory orderings of the sample ring: each load, store and slot access is one atomic step, in program order; Sound::reset is excluded while a pop is in progress.
- The audio callback, the drop counter's reset and the audio log; the duty register the PWM centre is taken from.
- Clock control: cycles per count are a constant of each timer; a change of CKSL does not refresh the cached value in the source, and that is not modelled.
- Overflow of the 64-bit cycle counters, which are natural numbers here.
- Timer16.TickAtWakeRaises: for wake points below the saturation value 2^64 - 1, as the source saturates there.
- Interrupt delivery through PSR.IE: the controller tracks the level but not the enable bit, so eventual delivery is not claimed.
- Registers of the interrupt controller are sets of bit positions instead of bytes.
- The floating-point frame budget, which is a parameter, and the frontend's writes to SAVE_RAM between frames, except the overlay of the first frame.
- The any_dirty shortcut of the mirror, which skips a copy that would do nothing.
- HSDMA channel 1 to 3 registers and the other LCD commands.
- A round trip for h_retd: its pops are in the reverse order of a trap frame, so there is none.
- The contents of the ID and CFI tables, RTC, GDB server, the ELF and file loaders, disassembler, semihosting and the user interfaces.
