# Verified model of Special K's checksum, frame pacing and key binds

This project models five parts of Special K in Dafny and proves what each is for.

* **Checksums** (`src/crc32.cpp`, `src/hash.cpp`). A reflected CRC is defined as the remainder of schoolbook
  polynomial long division, for the polynomials of section 8 of RFC 1952 and section 12.1 of RFC 3720. The
  literal-table byte loop, slicing by 16 and by 12, and the three-lane routine that merges partial CRCs with
  zero-shift tables are proved equal to it, for every register, length, content and alignment. So are the
  generators of the tables, the 256 literals of `crc32_tab`, and the chunked file hasher. A burst of up to 32
  bits is always detected. The check values of both CRCs are proved.
* **One-time initialisation** of the checksum engine (`src/crc32.cpp`), as interleaved atomic steps of any number
  of threads.
* **The framerate limiter** (`src/framerate.cpp`, called from `src/core.cpp`): an object on a counter that only
  moves forward. Its deadlines do not drift, it keeps a rate bound over whole runs, it bounds lateness when it
  skips, it keeps the phase of the vblank, and a thread is limited at most once a frame. The re-phasing of latent
  sync and the swap-time average that feeds it are included.
* **The background sorter** of frame times (`src/framerate.cpp`), as interleaved atomic steps of a client and a
  worker.
* **Key binds** (`src/config.cpp`): printing, reading back, the tables in between and the standard case of names.

`dafny verify dfyconfig.toml` checks the whole project.

## What the code does against its own description

* `Limiter::Limiter (target, false)` stores `false` and then calls `init (target)`, whose default argument sets
  `tracks_window` back to true. Every reachable limiter tracks the game window (`Limiters.Limiter.constructor`, and
  the first conjunct of `Limiter.Scheduled`).
* `Limiter::try_wait` is described as telling whether a wait would have occurred. It compares the clock with the
  deadline of the latest frame, which a completed wait has passed, instead of the next one. So once a frame has been
  limited off the latent-sync path it answers no until the next `init`. `Limiters.Limiter.TryWaitIsRight` says exactly
  when that is right, `Limiters.Limiter.TryWaitMisses` gives a state in which it is not.
* The test for missed frames leaves out the sub-ticks that the deadlines have accumulated. When these add up to more than
  the boundary, a frame that comes in before its own deadline can be skipped (`Deadlines.PunctualFramesAreKept`, exactly
  then); at 60 frames a second on a 10 MHz counter that is after 70 minutes (`Deadlines.SkipsPunctualFrame`). When they
  add up to one frame more, and exactly then, every frame is skipped (`Deadlines.EveryFrameIsSkipped`), for as long as
  the schedule lasts (`Deadlines.SkippingLasts`).
* The resync code says it moves the deadline back by 15% of a refresh and no more. The bound is enforced before the
  shift to a frame boundary and the configured offset. `Resync.SlidesBackAtMost` gives the exact condition. Accepted
  measurements put the target at most five lines past a boundary (`Resync.AcceptedTargets`), so the shift exceeds the
  bound by at most five lines (`Resync.RestartIsBounded`); a negative offset exceeds it by as much as it says.
  `Resync.SlidesBackFurther` is a case of both.
* The sorter returns a buffer chosen from an index that was read before the event was polled. The caller gets the
  buffer queued for sorting exactly when the worker changed the index in between (`Sorter.OvertakenCallsAlias`,
  `Sorter.AliasingHappens`). If reading and testing are one step this cannot happen (`Sorter.AtomicCallsAreSafe`).
* With a policy change between two call sites a frame may go without a limit (`FrameGate.PolicyChangeSkipsAFrame`).
  If latent sync forces the policy to 4 in mid-frame, and another thread completes a frame before the site of that
  policy, a frame is limited twice, on two numbers (`FrameGate.LatentSyncLimitsTwice`). `FrameGate.LimitedExactly` says
  when a thread is limited, in every run, and `FrameGate.LimitedWhenMet` when a frame is, at all and exactly once.
* A key bind need not survive printing and reading if the name of its key holds '+': reading splits the name there.
  `Keybinds.RoundTrip` is the exact condition for every bind and name, `Keybinds.OuterPlusesAreLost` and
  `Keybinds.OnlyPluses` what it comes to for a '+' at the ends and for names of nothing else, `Keybinds.NumPlusIsLost`
  the numeric plus key of an English system, `Keybinds.KeyRoundTrip` the condition on the other names of a keyboard.

## Assumptions

* The `_mm_crc32_*` instructions accumulate the bytes of their operand, low byte first, into a CRC-32C register.
* Memory is sequentially consistent. `SK_Thread_SpinUntilAtomicMin` returns once its variable has at least the given
  value. Events are the usual auto-reset events.
* The performance counter is never negative, and every reading is later than the one before. (Only termination of
  the busy loop needs readings to differ.) The loop for late frames ends: its thread is stalled for a whole refresh
  finitely often.
* For what accepted measurements amount to, the beam is steady: it passes one line in a fixed number of ticks. Each
  reading is made at some moment between the times that the source takes before and after it.
* Rates are exact fractions where the source has doubles. `modf` truncates, `round` rounds halves up. The comparison
  of two rates with a tolerance of `DBL_EPSILON` is equality.
* For the letters of the texts concerned, the system's case mappings depend on the letter and not on the case it is in,
  keep white space, and neither make nor lose a '+' (`KeyNames.LawfulFor`). Of other letters nothing is asked.

## Model

| member | source | states |
|---|---|---|
| CrcSpec.StepBit | src/crc32.cpp:453-456 | one iteration of the generator's inner loop is one shift-and-subtract of polynomial division, coefficient by coefficient |
| CrcSpec.RegisterIsRemainder | src/crc32.cpp:453-456 | the one-bit register, fed any bits, holds the remainder of long division |
| CrcSpec.CrcIsRemainder | src/crc32.cpp:97-112 | a CRC is the complement of the remainder of the message and 32 zeros, the previous CRC added in front |
| CheckValues.CastagnoliPowers | src/crc32.cpp:144 | the polynomial of the CRC-32C code has the powers of section 12.1 of RFC 3720 |
| CheckValues.IeeePowers | src/crc32.cpp:44-88 | that of the literal table has the powers of section 8 of RFC 1952 |
| CheckValues.CastagnoliCheck | src/crc32.cpp:164-242 | the reference CRC-32C of "123456789" is 0xe3069283 |
| CheckValues.IeeeCheck | src/crc32.cpp:97-112 | the reference CRC of RFC 1952 of "123456789" is 0xcbf43926 |
| CrcAlgebra.StepsLinear | src/crc32.cpp:453-456 | moving a register is linear over GF(2) |
| CrcAlgebra.StepsInjective | src/crc32.cpp:453-456 | moving a register loses nothing |
| CrcAlgebra.TableLaw | src/crc32.cpp:105-109 | one table look-up and a shift by a byte feed one byte |
| CrcAlgebra.FeedPeel | src/crc32.cpp:187-202 | in a block, the first byte may be looked up on its own in the row of its distance from the end |
| CrcAlgebra.Combine | src/crc32.cpp:319-320 | the register after A and B is that after A, moved over B, plus that of B alone |
| CrcAlgebra.BurstDetected | src/crc32.cpp:97-112 | two messages that differ only within some 32 consecutive bits have different CRCs, for either polynomial |
| CrcAlgebra.FourBytesDetected | src/crc32.cpp:164-242 | a change within four consecutive bytes always changes the CRC |
| Crc32Table.TableIsRight | src/crc32.cpp:44-88 | each of the 256 literals is its index moved over one byte by the polynomial of RFC 1952 |
| Checksum.Crc32 | src/crc32.cpp:97-112 | the literal-table loop returns the reference CRC of every buffer, continuing from any CRC |
| Checksum.CrcChains | src/crc32.cpp:97-112 | the CRC of a concatenation continues from the CRC of its first part, for both polynomials |
| Checksum.ShiftCrcFeedsZeros | src/crc32.cpp:248-254 | applying a zero-shift table is feeding that many zero bytes, for every register |
| Checksum.SlicingFeeds | src/crc32.cpp:182-235 | the sum of one look-up per byte of a block is the register after the whole block |
| Checksum.LoadRoundTrip | src/crc32.cpp:184-185 | the bytes of a little-endian load are the bytes in memory |
| Checksum.MergeLanes | src/crc32.cpp:319-320 | shifting the register of one lane and adding that of the next gives the register after both |
| Checksum.Engine.CalculateTable | src/crc32.cpp:444-461 | the nested loops fill row t, column i with i moved over t + 1 bytes |
| Checksum.Engine.FillSlicing | src/crc32.cpp:448-457 | one pass leaves one column, and the others as they were |
| Checksum.Engine.FillColumn | src/crc32.cpp:479-488 | one pass leaves one column of a zero-shift table, last row first, and the others as they were |
| Checksum.Engine.CalculateTableHw | src/crc32.cpp:466-507 | the loops fill both zero-shift tables, last row first, with the right power of the step |
| Checksum.Engine.AppendSoftware | src/crc32.cpp:164-242 | slicing by 16 or 12 returns the CRC-32C of every buffer at every address |
| Checksum.Engine.LookUpBlock | src/crc32.cpp:184-205 | one iteration of the slicing loop feeds its 16 or 12 bytes |
| Checksum.Engine.AppendHardware | src/crc32.cpp:260-428 | leading bytes, long and short triple lanes, words and tail together return the CRC-32C of every buffer at every address, in the 64-bit and the 32-bit form |
| Checksum.Engine.ThreeLanes | src/crc32.cpp:307-320 | one triple of lanes, run interleaved and merged, feeds its bytes in order |
| Checksum.Engine.Registers | src/crc32.cpp:311-317 | the interleaved inner loop leaves in each register what its lane alone would |
| Checksum.Engine.Initialize | src/crc32.cpp:528-549 | the processor test picks the routine, and the tables of that routine are complete when it is published |
| Checksum.Engine.Crc32c | src/crc32.cpp:560-590 | the value is the CRC-32C whichever routine was picked; the engine is initialised by the first call and the choice stays |
| FileHash.File.Read | src/hash.cpp:81-85 | a read of any size returns the next bytes of the file |
| FileHash.GetHash32 | src/hash.cpp:28-112 | whatever the read sizes, the hash is the one-shot CRC of the bytes read, CRC-32C for the algorithm of that name and the CRC of RFC 1952 for the other; reported totals never decrease and end at the number of bytes read, and reading stops only at the size, at the end or after a failure; invalid files and algorithms give zero |
| FileHash.HashIsOneShot | src/hash.cpp:79-104 | an unchanged file that reads without failure gets its one-shot CRC |
| OnceInit.Safe | src/crc32.cpp:509-590 | in every interleaving one thread at most fills tables, `append_func` is set only over complete tables of its routine, which is the hardware routine exactly if the processor has the instruction, no thread past initialisation finds it null, and every returned checksum is right |
| OnceInit.StepKeepsInv | src/crc32.cpp:509-590 | every atomic step of every thread keeps the invariant |
| OnceInit.NoDeadlock | src/crc32.cpp:554-555 | whenever a thread is stuck spinning, some thread is initialising and can move |
| OnceInit.WorkEnds | src/crc32.cpp:525-579 | in every run the inner spin is released exactly when the thread that fills tables has taken the steps that are left to it, and the outer one by the time that the thread inside the outer exchange has, whatever the others do |
| OnceInit.CompleteMeansReady | src/crc32.cpp:533-549 | tables whose every column is filled are the tables that the routine of the engine asks for, so that a call through the pointer returns the CRC-32C |
| Deadlines.NoDrift | src/framerate.cpp:1147-1150 | frame n is due at start + floor (n * f / t) + n * error: splitting ticks into whole and fraction loses nothing, however long it runs |
| Deadlines.SameRateIsEquality | src/framerate.cpp:1982-1992 | two rates are the same exactly if they are equal numbers |
| Deadlines.DeadlinesAreOrdered | src/framerate.cpp:1409-1413 | later frames are never due earlier |
| Deadlines.SkipBoundsLateness | src/framerate.cpp:1422-1460 | after the skip step lateness is below the boundary, a skip happens exactly when lateness reaches it, never makes a frame early, and is a multiple of it |
| Deadlines.NextFrameIsOnTime | src/framerate.cpp:1406-1460 | the lateness and the phase of the next frame of a schedule, against the deadline before sub-ticks |
| Deadlines.BoundaryIsARefresh | src/framerate.cpp:1432-1442 | with a present interval one missed frame is skipped; without, the number of frames nearest to a refresh, to within half a frame |
| Deadlines.SkipKeepsRefreshPhase | src/framerate.cpp:1432-1458 | so a skip without a present interval moves the deadline by m refreshes, to within m half frames |
| Deadlines.PunctualFramesAreKept | src/framerate.cpp:1422-1482 | a frame that comes in before its own deadline is never skipped if and only if the sub-ticks have not added up to more than the boundary |
| Deadlines.SkipsPunctualFrame | src/framerate.cpp:1422-1482 | a frame before its deadline that is skipped, at 60 frames a second after 250001 frames |
| Deadlines.EveryFrameIsSkipped | src/framerate.cpp:1422-1482 | a frame is skipped however quickly it follows the one before if and only if the sub-ticks have added up to one frame more than the boundary |
| Deadlines.SkippingLasts | src/framerate.cpp:1422-1482 | once it is so, it is so for every later frame of the schedule |
| Limiters.MoveForward | src/framerate.cpp:1201-1206 | the loop ends with the first moment at or after the limit that differs from the given one by whole refreshes |
| Limiters.Limiter.constructor | src/framerate.cpp:801-807 | a new limiter tracks the window whatever is asked for |
| Limiters.Limiter.Init | src/framerate.cpp:1140-1230 | with a vblank less than 120 refreshes old the first deadline is whole refreshes after it, at the vblank itself or within one refresh from now; otherwise one frame from now; the schedule starts one frame before it |
| Limiters.Limiter.SetLimit | src/framerate.cpp:1982-1992 | setting the limit in force changes nothing at all; another limit starts a new schedule and asks for a resync |
| Limiters.Limiter.TryWait | src/framerate.cpp:1234-1258 | it answers yes if and only if the limiter is on and the clock is before the latest frame's deadline without sub-ticks |
| Limiters.Limiter.TryWaitIsRight | src/framerate.cpp:1234-1258 | of a steady limiter the answer is right if and only if, with the limiter on, the clock is before the latest deadline or not before the next one; after a frame off the latent-sync path it is always no, and wrong exactly while the next frame would be held |
| Limiters.Limiter.TryWaitMisses | src/framerate.cpp:1234-1258 | a valid schedule in which it answers no although the next frame would be held |
| Limiters.Limiter.Retarget | src/framerate.cpp:1281-1299 | a window in front, or one without a background limit, has the target rate, another one in the background the background rate; the schedule survives exactly when the rate stays |
| Limiters.Limiter.Advance | src/framerate.cpp:1406-1482 | the frame is counted, missed frames are skipped and the deadline follows the closed form; a full restart is asked for only by a skip of two frames or more, more than 16 frames after the last request or in the first 16 |
| Limiters.AsksRestartIs | src/framerate.cpp:1460-1469 | a full restart is asked for exactly if, with a present interval, the frame is two frame times late and more than 16 frames have been drawn since the last request, or fewer than 16 in all |
| Limiters.Limiter.Rephase | src/framerate.cpp:1674-1732 | the schedule restarts at the measured scan-out moved forward in phase, shifted to a boundary, plus the offset |
| Limiters.CorrectionIs | src/framerate.cpp:1184-1188 | the correction is the configured error for each whole refresh in a frame |
| Limiters.TimingIs | src/framerate.cpp:1366-1373 | the ticks of a refresh and of a scanline are those of the reported frequencies, rounded down |
| Limiters.LatentSyncIsTaken | src/framerate.cpp:1666 | latent sync is taken exactly if there is no present interval and a scanline is reported to last two ticks or more |
| Limiters.Limiter.LatentSync | src/framerate.cpp:1666-1765 | the deadline is half a swap early; a frame that is later than the margin but not lost is moved on by whole refreshes, past now by less than one |
| Limiters.Limiter.CatchUp | src/framerate.cpp:1750-1763 | the loop that reads the clock each time ends in phase, not before the clock it started from, and less than a refresh past the clock it ends with |
| Limiters.Limiter.Spin | src/framerate.cpp:1770-1791 | the busy loop returns at or after the deadline, and at once if it has passed |
| Limiters.Limiter.Until | src/framerate.cpp:1496-1804 | on the plain path a frame returns on schedule and the schedule is unchanged; with latent sync at most half a swap before, or on a schedule restarted by a measurement; lost time moves the start so that the deadline becomes zero |
| Limiters.Limiter.Limit | src/framerate.cpp:1384-1974 | one limited frame as a whole: restarts, counting, waiting, and the second initialisation after the very first frame |
| Limiters.Limiter.Wait | src/framerate.cpp:1266-1978 | a frame is limited exactly if the limiter is on and its thread has not been limited on this frame number; in steady state the counters, the request for a restart, the deadline, the return time and what becomes of a pending measurement follow the specification on either path, and after a restart they start again; the invariant holds after every call |
| Limiters.Limiter.RateBound | src/framerate.cpp:1406-1482 | when k frames have been admitted by now, start + floor (k * f / t) + k * error has passed, or is at most the longest half swap away with latent sync |
| Limiters.PresentFrames | src/framerate.cpp:1266-1978 | over every run of waits on rising frame numbers, in any windows, configurations and measurements, every wait is limited; each whose rate stays and for which no restart was asked goes on with its schedule as specified; after any stretch of these in which latent sync meets no measurement, the rate bound holds of all of them and of what was admitted before |
| Limiters.PlainRun | src/framerate.cpp:1266-1978 | of a run in front, at one rate, without present interval and latent sync, every frame is admitted, and the rate bound holds of all of them |
| Limiters.RestartsAreApart | src/framerate.cpp:1460-1469 | over a run, two requests for a full restart are more than 16 frames apart, but among the first 16 |
| Limiters.Scanout.Measure | src/framerate.cpp:1899-1914 | a measurement is accepted exactly within the margins near the frame boundary; it takes the middle of the two readings and of their times |
| Resync.AcceptedIs | src/framerate.cpp:1897-1905 | accepted are two intervals of less than 17 lines each, with the second reading on one of the first six lines or the last 32 |
| Resync.InPhaseIsUnique | src/framerate.cpp:1697-1699 | there is only one moment the loops can end with |
| Resync.OvershootIs | src/framerate.cpp:1697-1699 | how far past the limit that moment lies, told from where it started |
| Resync.ShiftIsNearest | src/framerate.cpp:1702-1712 | the shift ends on scanline zero, at the nearer boundary if and only if the target is not the middle one of an odd number of lines; for accepted targets always, and by at most 5 lines back or 49 forward |
| Resync.SlidesBackAtMost | src/framerate.cpp:1696-1718 | the 15% bound holds for the restart if and only if the shift and the offset do not use up the overshoot |
| Resync.SlidesBackFurther | src/framerate.cpp:1696-1718 | an accepted measurement after which the restart is five lines before the bound, and with an offset of a third of the frame 380 lines |
| Resync.RestartIsBounded | src/framerate.cpp:1696-1718 | how early and how late a restart can be: for accepted targets five lines before the bound and 49 after a refresh, plus the offset |
| Resync.AcceptedTargets | src/framerate.cpp:1885-1909 | for a steady beam an accepted measurement puts the target at most 5 lines past a frame boundary or 49 before the next, 41 if the readings are made when their times are taken |
| Resync.MidpointIsHalfway | src/framerate.cpp:1906-1909 | the target line is the one halfway between the readings even if the second is in the next frame |
| Resync.LocksOn | src/framerate.cpp:1877-1912 | for a steady beam, read at any moments of the timed intervals, the restart lies past a real frame boundary by less than one and a half lines and half the delay of the readings, so by one and a half lines if the times are those of the readings, and by 18.5 lines at most |
| Resync.LocksLate | src/framerate.cpp:1877-1912 | an accepted measurement after which it lies seventeen lines past the boundary |
| Resync.StaysLocked | src/framerate.cpp:1697-1712 | moving on by k whole refreshes keeps that, but for k times what a refresh differs from the lines of a frame |
| Resync.RestartsLocked | src/framerate.cpp:1696-1718 | from measurement to restart: the same bound, but for the offset and k times that difference |
| SwapHistory.History.EndSwap | src/framerate.cpp:158-206 | the swap time is the mean of the latest 768 swaps that are young enough, in whatever order the ring holds them |
| SwapHistory.RecentCounts | src/framerate.cpp:191-206 | a duration counts as often as there are swaps of it that are younger than the age |
| SwapHistory.OverwriteOldest | src/framerate.cpp:187-190 | the ring always overwrites its oldest record |
| SwapHistory.MeanBounds | src/framerate.cpp:202-205 | the mean lies between the shortest and the longest swap that counts |
| FrameGate.AtMostOncePerFrame | src/core.cpp:2825-2862 | in every run, with any threads and policy changes, a thread advances a deadline at most once per frame number |
| FrameGate.FromTheStart | src/core.cpp:2825-2862 | the same of every run from the start |
| FrameGate.LimitedExactly | src/core.cpp:2825-3290 | in every run a thread is limited on exactly the frame numbers at which it meets the policy, once each, whatever frames other threads complete |
| FrameGate.StaysHonest | src/framerate.cpp:1378-1382 | what a thread has been limited on, and what it has claimed, stay consistent under every step |
| FrameGate.LimitedWhenMet | src/core.cpp:2825-3290 | while the policy is set at any moment and other threads complete frames, a thread is limited in its frame if and only if it meets the policy on a number it has not been limited on; in a fresh frame exactly once if and only if it meets the policy on one number |
| FrameGate.SteadyPolicyLimitsFrame | src/core.cpp:2825-3290 | with a policy from 0 to 4 that neither the user nor the latent sync of another thread sets, a frame whose sites all wait is limited, on a number counted during it, whatever other threads complete; exactly once if latent sync is not met or no other thread completes a frame; and the next one begins under the same conditions |
| FrameGate.SteadyPolicyLimitsAt | src/core.cpp:2825-3290 | policies 0 to 4 limit a frame at the first, second, fifth, fourth and third site it passes, and nowhere else |
| FrameGate.SteadyPolicyLimitsEveryFrame | src/core.cpp:2825-3290 | over a run of frames, of any length, each is limited, exactly once without latent sync; if no other thread completes a frame, on the numbers of all frames in order |
| FrameGate.EveryFrameFromTheStart | src/core.cpp:2825-3290 | the same of every run from the start, where the k-th frame of a lone thread is limited on number k |
| FrameGate.PolicyChangeSkipsAFrame | src/core.cpp:2859-2862 | a frame that slips through when the policy goes from 2 to 4 |
| FrameGate.LatentSyncLimitsTwice | src/framerate.cpp:1806-1810 | a frame that is limited twice, because latent sync forces the policy to 4 and another thread completes a frame before its site |
| Sorter.KeepsOneTurn | src/framerate.cpp:2335-2400 | event, client and worker pass on a single turn |
| Sorter.SnapshotCounts | src/framerate.cpp:2387-2396 | a hand-over holds each frame time as often as it was recorded at a time that is not negative and as a normal number |
| Sorter.SnapshotOfNormal | src/framerate.cpp:2387-2396 | nothing is dropped of samples that are all recorded and normal, and their order stays |
| Sorter.CallerIsSafe | src/framerate.cpp:2368-2406 | if no call is overtaken, a held buffer is never the one to be sorted, and holds the usable frame times of one hand-over, each as often as it was recorded, in descending order, or nothing |
| Sorter.AtomicCallsAreSafe | src/framerate.cpp:2368-2374 | reading the index and testing the event in one step is enough for that |
| Sorter.OvertakenCallsAlias | src/framerate.cpp:2368-2400 | a call hands out the buffer queued for sorting, unsorted, if and only if the worker changed the index between the reading and the poll |
| Sorter.AliasingHappens | src/framerate.cpp:2368-2406 | a run in which the caller gets unsorted values that the worker is about to sort |
| KeyNames.StandardizeNames | src/config.cpp:4888-4907 | changing the case of every suffix in turn leaves each character in the case its place asks for, and nothing else changes |
| KeyNames.TitleIsIdempotent | src/config.cpp:4888-4907 | a standard name stays as it is |
| KeyNames.TitleIgnoresCase | src/config.cpp:4888-4907 | names that differ in case only have the same standard name |
| KeyNames.NextToken | src/config.cpp:5143-5144 | one call of the tokeniser returns the next non-empty stretch between '+' characters |
| KeyNames.TokensOfJoinedName | src/config.cpp:4940-4947 | splitting undoes joining, and splits the last name further if it holds '+' |
| KeyNames.JoinQueue | src/config.cpp:4940-4947 | emptying the queue joins the words with '+' |
| Keybinds.Keyboard.Fill | src/config.cpp:4994-5097 | the tables say, for every hash, the first code entered and, for every code, the last name entered |
| Keybinds.Keyboard.CodeOf | src/config.cpp:5130-5131 | looking an unknown name up enters it as zero, which changes no other answer |
| Keybinds.Keybind.Update | src/config.cpp:4909-4951 | the text is the held modifiers and the name of the key itself; a key without a name loses its modifiers and mask but keeps its code |
| Keybinds.Keybind.Parse | src/config.cpp:4954-5149 | the bind read is what the text means under the tables, which are filled first if need be; a text that does not fit the buffer leaves it as anything |
| Keybinds.PrintedFits | src/config.cpp:5099-5100 | what is printed, whatever the tables hold, fits the buffer of 128 characters it is read in |
| Keybinds.MasksTellBindsApart | src/config.cpp:4873-4885 | comparing masks compares code and modifiers |
| Keybinds.ReadsPrinted | src/config.cpp:4927-4947 | reading a printed bind holds its modifiers and then reads the name, whatever characters the name has |
| Keybinds.RoundTrip | src/config.cpp:4909-5148 | for every bind and every name, printing and reading restore the bind if and only if the parts of the name mean its key, and no modifier that is not held |
| Keybinds.PrintAndRead | src/config.cpp:4909-5149 | an update followed by a parse leaves the object as it was if and only if its bind survives, and its mask in step |
| Keybinds.OuterPlusesAreLost | src/config.cpp:5102-5103 | for a name with '+' at either end, if and only if the rest of it denotes the key |
| Keybinds.OnlyPluses | src/config.cpp:5102-5122 | for a name of '+' characters alone, if and only if the whole name means the key, or with modifiers if there is no key |
| Keybinds.KeyRoundTrip | src/config.cpp:4984-5097 | for every keyboard and key, binds survive if and only if no earlier entry has the hash of the key's name |
| StandardKeys.SaveAndLoad | src/config.cpp:4909-5149 | a bind on any key of a filled keyboard whose name no earlier entry shadows is printed as its modifiers and that name, and is as it was when read; its mask is its code and three bits |
| StandardKeys.KeyIsCalled | src/config.cpp:4995-5097 | what each of the 255 keys is called, code by code |
| StandardKeys.StandardIsSpelled | src/config.cpp:4888-4907 | an English name is a standard name if and only if capitals begin its words and stand nowhere else |
| StandardKeys.FixedNamesAreReadable | src/config.cpp:5069-5081 | the names that are entered last are standard names |
| StandardKeys.FixedKeyRoundTrip | src/config.cpp:4984-5097 | so binds on the function keys, the lock keys, and the left and right modifiers survive if and only if no earlier entry has the hash of their names |
| Keybinds.ModifiersResolveUnlessShadowed | src/config.cpp:5071-5081 | the names of the modifiers mean the modifiers if and only if no key's name has one of their hashes |
| Keybinds.NumPlusIsLost | src/config.cpp:5102-5148 | on every keyboard whose numeric plus key is called "Num +", no bind on that key reads back |
| Keybinds.NotBoundReadsAsNothing | src/config.cpp:4916-4925 | what is printed for a key without a name reads as no key at all |
| Keybinds.ReadIgnoresCase | src/config.cpp:5124-5148 | letter case does not matter to a reader |
| Keybinds.ReadIgnoresModifierOrder | src/config.cpp:5128-5141 | nor does the order of the modifiers |

## Left out

- Sleeping on kernel timers and swap chains inside `wait`, and its vblank wait: they spend time before the busy loop.
- The control panel, the console, statistics over the history, the frame journal of the limiter, and
  `effective_ms`: output only.
- `SK_Framerate_WaitUntilQPC` and the vblank emulation thread: separate waiting code, not called by the limiter's
  deadline path.
- The resync thread's retries and sleeps between attempts: `Scanout.Measure` is one attempt, and its writes happen
  between frames.
- Floating-point rounding in the limiter: exact fractions take its place.
- A target rate that is not positive, or above the counter's frequency, or corrected by a whole frame: the source
  converts or divides out of range there, and the model leaves the frame time or the counters arbitrary. Members
  that speak of a schedule do so for frame times of at least a tick.
- 64-bit wrap-around of the limiter's counters and of the swap counter: they are unbounded integers.
- `lastFps` and `ullLastReset` are shared by all limiters of a process in the source and belong to one limiter here.
- Limiters.Limiter.Wait: after a restart it states the counter, the rate and the deadline from the new start; where
  that start lies is in the contract of Init, and where a measurement puts it in that of Rephase.
- FrameGate models the calls of the limiter and the frame counter; the rest of the swap functions does not touch them.
- Sorter keeps the values and the accepted snapshots; the frame numbers stored beside each buffer are never read.
- The localised key names and what Windows calls each key: one arbitrary text for each code.
- What a text of 128 characters or more overwrites in `parse`: it leaves the bind as anything, and nothing else.
  (What `update` prints is shorter: `Keybinds.PrintedFits`.)
- Windows handles, file attributes, `__cpuid`, and loading of the DLL.
