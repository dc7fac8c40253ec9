# RARS headless timer, modelled in Dafny

This project models the timer peripheral of the RARS RISC-V simulator
(`rars.tools.HeadlessTimer`). The peripheral keeps a millisecond time counter
that can be played, paused, reset and stopped. A periodic tick publishes the
counter into two memory-mapped words, TIME_LO and TIME_HI. A watcher observes
program writes to the two compare words, TIMECMP_LO and TIMECMP_HI, and keeps a
64-bit compare value and an edge-trigger flag, `postInterrupt`. A tick raises
the user timer interrupt when all of these hold:

- time has reached the compare value;
- the flag is set;
- the UTIE bit of `uie` and the UIE bit of `ustatus` are both set.

The raise clears the flag.

Layout:

- `java_num.dfy` (module `JavaNum`): Java `int` and `long` as bounded integers.
  Every operator wraps in two's complement. The casts, the 32-bit shifts and `&`
  are written out, `&` bit by bit. Splitting a long into its two words and
  joining them again is proved.
- `timer_logic.dfy` (module `TimerLogic`): the value-level logic.
  - The two compare-word writes.
  - The time fields as a `Clock` value, with one step function per lifecycle
    operation.
  - The interrupt condition.
  - Lemmas over sequences of lifecycle events and ticks.
- `headless_timer.dfy` (module `Tools`): the classes.
  - `TimeCmpDaemon` holds `value` and `postInterrupt`.
  - `HeadlessTimer` holds the time fields, the watcher, the two flags and the
    simulated memory.
  - Each method updates its fields in place and states its new state through
    the functions of `TimerLogic`.

The Java class keeps this state in static fields and an inner `Tick` task.
Here the single timer object owns the state. `Tick.run` and `Tick.reset` are
the methods `TickRun` and `TickReset`. Three things the Java code takes from
its environment become parameters or results:

- the wall clock (`System.currentTimeMillis()`) is the argument `now`;
- the CSR values `uie` and `ustatus` that a tick reads are arguments;
- the interrupt a tick registers is its boolean result.

The simulated memory is a map from word address to word. Its key set is the
set of valid addresses.

## How the compare words are combined

The code does not replace one half of the compare value on each write. The
model follows the code:

- Low word (`HeadlessTimer.java:151`). The written `int` is sign-extended before
  the addition. The low word becomes the written word. When that word is
  negative (bit 31 set), the high word also drops by one (`WriteLowWord`).
- High word (`HeadlessTimer.java:155`). The literal `0xFFFFFFFF` is the `int`
  -1, and it widens to the `long` -1, so the mask keeps all 64 bits. The write
  therefore adds the word to the high half instead of replacing it
  (`WriteHighWord`).

As a result, writing `lo` and then `hi` leaves the high word at the old high
word plus `hi`, less one when `lo` is negative (`LowThenHigh`). The pair leaves
exactly the words `lo` and `hi` when, and only when, the old high word less
that borrow is zero mod 2^32 (`LowThenHighGivesWords`). From a cleared
register and a non-negative `lo` it gives `(hi << 32) + lo`
(`LowThenHighFromZero`). `CompareWriteExamples` gives worked values: a
high write of 1 over `0x00000002_00000003` gives `0x00000003_00000003`.

## Model

| member | source | states |
|---|---|---|
| `JavaNum.LongAndMinusOne` | src/rars/tools/HeadlessTimer.java:155 | `x & 0xFFFFFFFF` with the literal read as the int -1 (widened to -1L) is x itself: all 64 bits are kept |
| `JavaNum.WordsRecombine` | src/rars/tools/HeadlessTimer.java:174-175 | the two words a tick writes, `(int) time` and `(int)(time >> 32)`, join back to exactly `time` |
| `JavaNum.IntAndSingleBit` | src/rars/tools/HeadlessTimer.java:189-190 | `(x & m) == m` for a one-bit mask m = 2^k holds exactly when bit k of x is set |
| `TimerLogic.UpperAddress` | src/rars/tools/HeadlessTimer.java:154 | `TIME_CMP_ADDRESS + 4` (int arithmetic) is never the low-word address, so a notice matches at most one branch |
| `TimerLogic.WriteLowWord` | src/rars/tools/HeadlessTimer.java:151 | after a low-word write the low word is the written int; the high word is unchanged for a non-negative int and one less (wrapping) for a negative one |
| `TimerLogic.WriteHighWord` | src/rars/tools/HeadlessTimer.java:155 | a high-word write keeps the low word and makes the value `old + (w << 32)` mod 2^64, i.e. adds w to the high word |
| `TimerLogic.LowThenHigh` | src/rars/tools/HeadlessTimer.java:150-156 | a low write of lo followed by a high write of hi gives the long with low word lo and high word old-high + hi, minus one if lo is negative |
| `TimerLogic.LowThenHighGivesWords` | src/rars/tools/HeadlessTimer.java:150-156 | a low write of lo then a high write of hi leaves exactly the words lo and hi if and only if the old high word less the borrow (1 for a negative lo) is 0 mod 2^32 |
| `TimerLogic.LowThenHighFromZero` | src/rars/tools/HeadlessTimer.java:150-156 | from value 0, a non-negative lo then hi gives `(hi << 32) + lo` |
| `TimerLogic.CompareWriteExamples` | src/rars/tools/HeadlessTimer.java:150-156 | 5 then 1 gives 0x0000000100000005; low 0x99 over 0x0000000200000003 keeps the high word; low 0x80000000 borrows from it; high 1 adds to it |
| `TimerLogic.Elapsed` | src/rars/tools/HeadlessTimer.java:98 | `savedTime + now - startTime` evaluated left to right on longs equals the exact sum wrapped once into a long |
| `TimerLogic.ReportedAdvances` | src/rars/tools/HeadlessTimer.java:171 | while time progresses, the time reported at a later instant is the earlier reported time plus the wall-clock difference (mod 2^64) |
| `TimerLogic.PlayStep` | src/rars/tools/HeadlessTimer.java:85-92 | play sets time progressing, is a no-op when already playing (no re-anchoring), keeps time and accumulator, and the reported time does not jump at the resume instant |
| `TimerLogic.PauseStep` | src/rars/tools/HeadlessTimer.java:94-101 | pause stops progress, is a no-op when already paused, folds the reported time into the accumulator with time equal to it, and the reported time stays frozen at the pause instant |
| `TimerLogic.ResetStep` | src/rars/tools/HeadlessTimer.java:104-110 | reset keeps playing/paused, zeroes time and accumulator, re-anchors the start at now, and the reported time restarts from 0 at now (stays 0 if paused) |
| `TimerLogic.StopStep` | src/rars/tools/HeadlessTimer.java:113-118 | stop leaves the clock paused at 0 with time equal to the accumulator; the reported time is 0 at every later instant |
| `TimerLogic.TickStep` | src/rars/tools/HeadlessTimer.java:166-172 | a tick sets time to the reported time when progressing and changes nothing when paused; it keeps the time-equals-accumulator-while-paused invariant |
| `TimerLogic.TickTimeAdvances` | src/rars/tools/HeadlessTimer.java:168-171 | two successive ticks while playing differ by exactly the wall-clock difference (mod 2^64) |
| `TimerLogic.TickTimeNonDecreasing` | src/rars/tools/HeadlessTimer.java:168-171 | with a non-decreasing clock and no long overflow, time never decreases across ticks |
| `TimerLogic.StepAccumulates` | src/rars/tools/HeadlessTimer.java:85-101 | one play, pause or tick adds exactly the played interval it closes to the accumulator |
| `TimerLogic.SavedTimeIsPlayedTotal` | src/rars/tools/HeadlessTimer.java:85-101 | after any sequence of plays, pauses and ticks the accumulator is the old one plus the total length of the played intervals, wrapped into a long, however many repeated plays or pauses occur |
| `TimerLogic.RunKeepsConsistent` | src/rars/tools/HeadlessTimer.java:85-101 | every such sequence preserves "time equals the accumulator while paused" |
| `TimerLogic.SavedTimeFromStart` | src/rars/tools/HeadlessTimer.java:53-101 | from the initial fields, the accumulator equals the exact played total when it fits in a long, and so does time when the sequence ends paused |
| `TimerLogic.BitsEnabled` | src/rars/tools/HeadlessTimer.java:188-193 | true exactly when bit 4 (UTIE) of `uie` and bit 0 (UIE) of `ustatus` are both set |
| `TimerLogic.AtMostOneRaisePerWrite` | src/rars/tools/HeadlessTimer.java:180-183 | ticks with no compare write in between raise at most one interrupt, and none when the register is not armed |
| `TimerLogic.RaisesOnceWhenDue` | src/rars/tools/HeadlessTimer.java:180-183 | an armed register and at least one tick at which time has reached the compare value with both bits enabled give exactly one interrupt |
| `Tools.TimeCmpDaemon.constructor` | src/rars/tools/HeadlessTimer.java:125-130 | a new watcher holds value 0 and is not armed |
| `Tools.TimeCmpDaemon.Update` | src/rars/tools/HeadlessTimer.java:141-159 | a write to the low compare word performs `WriteLowWord` and arms; to the high word `WriteHighWord` and arms; a read or any other address changes nothing |
| `Tools.HeadlessTimer.constructor` | src/rars/tools/HeadlessTimer.java:49-64 | time registers at base+0x18, compare registers at base+0x20; all counters 0, paused, not running, no watcher |
| `Tools.HeadlessTimer.StartTimeCmpDaemon` | src/rars/tools/HeadlessTimer.java:67-71 | creates a fresh, cleared watcher only if none exists, otherwise keeps the existing one |
| `Tools.HeadlessTimer.Start` | src/rars/tools/HeadlessTimer.java:75-83 | afterwards running with a watcher; a start while running changes nothing; an existing watcher is never replaced |
| `Tools.HeadlessTimer.Play` | src/rars/tools/HeadlessTimer.java:85-92 | the clock fields become `PlayStep` of the old ones; nothing else changes |
| `Tools.HeadlessTimer.Pause` | src/rars/tools/HeadlessTimer.java:94-101 | the clock fields become `PauseStep` of the old ones; nothing else changes |
| `Tools.HeadlessTimer.Reset` | src/rars/tools/HeadlessTimer.java:104-110 | the clock fields become `ResetStep` of the old ones; both time words become 0 and no other memory word changes; running, the watcher and its value and flag are unchanged |
| `Tools.HeadlessTimer.Stop` | src/rars/tools/HeadlessTimer.java:113-118 | not running and paused at 0 (`StopStep`), both time words 0, the watcher kept |
| `Tools.HeadlessTimer.TickRun` | src/rars/tools/HeadlessTimer.java:166-185 | while playing: time becomes the reported time, the two time words hold its low and high words (which join back to it) and no other word changes; the result is true exactly when time >= compare value (signed), armed and both bits set; a raise disarms; while paused nothing changes |
| `Tools.HeadlessTimer.TickReset` | src/rars/tools/HeadlessTimer.java:196-199 | both time words become 0, no other memory word changes |
| `Tools.HeadlessTimer.UpdateMMIOControlAndData` | src/rars/tools/HeadlessTimer.java:203-215 | a mapped address gets the word and nothing else changes; an unmapped address is the fatal configuration error (ok is false) and memory is unchanged |
| `Tools.CompareDeadlineScenario` | src/rars/tools/HeadlessTimer.java:141-185 | start, play at 0 ms, a low compare write of 5, then ticks at 4, 5 and 6 ms with both bits set: only the 5 ms tick raises |

## Left out

- Threads and locking are not modelled: the `java.util.Timer` that runs the tick
  every millisecond (lines 59-60, 80, 115), the `volatile` flag, `synchronized`
  and `Globals.memoryAndRegistersLock` (lines 203-213). Each tick and each
  watcher update is one atomic step that the caller invokes, so a tick racing a
  half-written compare value is not represented.
- The scheduling call in `start` (line 80) is not modelled; the model's `Start`
  stops at creating the watcher and setting `running`. A `start` after `stop`
  would in Java reschedule on a cancelled `Timer` and throw; that is not
  represented either.
- `System.currentTimeMillis()` (lines 89, 98, 107, 171) is the argument `now`.
- The watcher's subscription to memory notifications (lines 129-139), including
  its `System.exit` on an invalid address, is not modelled: notices reach the
  watcher through a direct call of `Update`.
- `System.exit` in `updateMMIOControlAndData` (lines 208-210) is the outcome
  `ok == false` with memory unchanged, not process termination.
- Tools.HeadlessTimer.constructor: requires the two time words to be mapped.
  The timer's own writes therefore never reach the exit path; the memory-map
  base address (`Memory.memoryMapBaseAddress`) is a constructor argument
  because `Memory` is not part of this model.
- Tools.HeadlessTimer.TickRun: requires the compare watcher to exist. Ticks are
  scheduled only by `start` (line 80), after it creates the watcher (line 77).
  Without the watcher, a paused tick would do nothing. A playing tick would
  write both time words (lines 174-175) and then throw `NullPointerException`
  at line 180.
- `InterruptController.registerTimerInterrupt` is the boolean result of
  `TickRun`; `ControlAndStatusRegisterFile.getValue` is the two arguments
  `uie` and `ustatus`; `Globals.memory.setRawWord` is a map update. Observer
  notifications that `setRawWord` itself may send are not modelled.
- `heading`, `version` and `Tick.updateTimecmp` (set at line 108, never read)
  carry no behaviour and are not modelled.
- `src/rars/riscv/syscalls/SyscallReadChar.java` is not part of this model: it
  only forwards console input into a register.
