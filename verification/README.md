# RX888mk2 FX3 firmware: a verified model

The firmware of an RX888mk2 receiver runs on a Cypress FX3 controller. This project models the parts of it, and of the
image tool that ships with its SDK, where bits, registers, counters and hardware states interact, and proves what they
keep over every run.

| area | files | what is modelled |
|---|---|---|
| DMA buffer heap | `HeapSpec`, `LinkSpec`, `BufferHeap`, `HeapClient`, `Bits` | the bitmap of 32-byte cache lines, the search that resumes and wraps, the in-use list kept inside the heap memory, signatures, the corruption check, and clients that use it |
| overlapping copy | `MemCopy` | both unrolled loops of the memory move |
| recovery | `HealthSpec`, `Ep0Spec`, `WatchdogSpec`, `Health`, `StreamLoop` | stall sampler, recovery cap and escalation, the EP0 timeout on a wrapping clock, the heartbeat-gated watchdog, and sampler and device in one loop |
| clock synthesis | `ClockPlan`, `ClockSpec`, `ClockChip` | frequency plan, fixed-width arithmetic, register packing, the chip's register file, the guard on host I2C |
| boot image | `ImageSpec`, `ImageLoad`, `ImageWriter` | elf2img's chunk and copy loops, the image format, a parser, a loader |
| lifecycle | `LifecycleSpec`, `Lifecycle` | GPIF, DMA channel and application flag under USB events, vendor requests and recoveries |
| debug text | `DebugSpec`, `DebugConsole` | the formatter and the text queue the host polls |
| front-end pins | `ShiftBus` | two serial chips on one clock and data line, the control word and its read-back |

`Words` holds the 32-bit and 8-bit number types. Code that changes state is written as classes and loops over arrays and
fields, and each method is proved against functions of the old state; the lemmas are about those functions. Whatever the
hardware or the host may do (mutex and I2C results, GPIF states, DMA counts, time, event order) is a parameter that
ranges over everything.

## What the proofs found

* **The first-fit search is not complete.** Where it wraps it drops the run it is counting. `MissesIff` says exactly
  when allocation fails although a long enough free run is there: when every such run straddles the resume position.
  `CompleteAtTop` shows that nothing is missed after initialisation or a free, and `ReachableMiss` gives five client
  actions after which 224 bytes are refused although ten free lines in a row are there.
* **elf2img mis-copies some segments.** The count of file words left is not reduced for a chunk that is only partly in
  the file, so a chunk that follows it takes in bytes from beyond the segment's file part. A segment whose file part lies
  within the vector area is dropped whole, its zero-filled part above address 0x100 included. The file position past the
  vectors is cut to 32 bits. And where the file part ends inside a word but the segment goes on, the bytes that follow it
  in the file land where zeros belong; the tool warns of such sizes but writes the image. `SegmentLoadsIff` gives the
  exact condition, byte for byte, over all files that begin with the same headers, under which a segment loads as linked.
* **A young EP0 handler can be judged wedged**, in two ways. The evaluator reads flag, clock and entry stamp one after
  another and does not look at the flag again. A new handler may stamp after the clock was read; the unsigned difference
  then wraps (`FalseAlarmReached`). Or the handler whose flag was seen exits before the clock is read, and the clock then
  shows 2000 ms or more since its stamp, though it did not run that long (`StaleAlarmReached`: 1995 ms). `FalseAlarmIff`
  shows that these two are all. With atomic evaluation the timeout is right (`VerdictIsAge`, `JudgedInTime`). The
  comment's "about 24 days" for the clock is the signed half range; the unsigned arithmetic used covers 2^32 ms, about
  49 days.
* **A line is printed before the EP0 reset.** Where EP0 is overdue no SDK or debug call shall come before the device
  reset, say the comments at health.c:340-349 and 376-381. Evaluation and recovery keep to that (`Evaluate`, `Recover`);
  `health_tick`, which calls them, prints its line in between (`HealthTick`).
* **A forced stop strands the stream.** After `CyU3PGpifDisable(CyTrue)` the configuration is gone, and the watchdog's
  `SMStart` fails: `RecoveryIff`, `ForcedStopStrands`. Only a host request brings the stream back, and the watchdog says
  nothing more: the sampler sees no state it counts, so neither recovery nor escalation comes (`ForcedIsLast`). The reset
  that ends a cold-start wedge therefore comes exactly if the state machine was in IDLE at the end of the soft stop of
  every fifth tick before it (`WedgeResetsIff`).
* **The earliest escalation** to a device reset is sampler tick 4M+5 for a cap of M, since every stall report needs a
  sample that sets the baseline before it (`SessionBounds`); the bound is reached (`EarliestReset`).
* The allocator's comment speaks of a 20-byte header; the structure is padded to 32 bytes, and 32 is what is modelled.
* **A failed channel teardown goes unnoticed without the console.** `RunSafe` shows that a run of events keeps the
  invariant and makes no SDK call out of order, rearming aside, exactly when no event of it leaves a channel behind; with
  the console up, or while destruction succeeds, none does (`NoneLeftWhen`). After one has, the next configuration creates a channel that exists
  (`UncheckedTearDown`), or a STARTFX3 streams while the application counts as inactive (`OrphanStreams`), and then
  health.c:363 keeps the watchdog off until the next configuration (`Unwatched`).
* Rearming an active DMA channel remains possible, exactly when the reset before it failed (`StepKeeps`), with the
  console up too (`RearmedActive`).

## Model

| member | source | states |
|---|---|---|
| Bits.MaskBit | SDDC_FX3/cyfxtx.c:809-811 | the difference of two shifted masks selects exactly the bits from start to end |
| Bits.TestBit | SDDC_FX3/cyfxtx.c:909 | the and with a shifted one reads that binary digit |
| BufferHeap.SetStatus | SDDC_FX3/cyfxtx.c:797-840 | the word-by-word masked update sets or clears exactly the given range of the bitmap, across word boundaries |
| BufferHeap.FindRun | SDDC_FX3/cyfxtx.c:900-944 | the bit loop finds exactly what the search order defines: the first run from the resume word to the end, else the first run wholly before it |
| BufferHeap.CountOnes | SDDC_FX3/cyfxtx.c:1053-1066 | counts the consecutive ones from a line on |
| HeapSpec.SearchResultUnique | SDDC_FX3/cyfxtx.c:900-944 | the search order determines the result |
| HeapSpec.LiveBlockFenced | SDDC_FX3/cyfxtx.c:916-925 | a live block of n lines is n-1 set bits with a clear bit on both sides, and counting ones gives n-1 |
| HeapSpec.AllocKeeps | SDDC_FX3/cyfxtx.c:897-950 | an allocation keeps the heap invariant: blocks disjoint, inside the heap, bits set exactly for them |
| HeapSpec.FreeKeeps | SDDC_FX3/cyfxtx.c:1046-1074 | freeing a live block, its size recovered by counting ones, clears exactly that block's bits, sends the next search to the bottom, and keeps the invariant |
| HeapSpec.AllocFreeRestores | SDDC_FX3/cyfxtx.c:946-950 | allocating and then freeing restores the bitmap bit for bit |
| HeapSpec.ReachableHeap | SDDC_FX3/cyfxtx.c:852-1079 | in every reachable heap the live blocks are disjoint, inside and fenced, and every set bit belongs to exactly one of them |
| HeapSpec.FreeAllRestores | SDDC_FX3/cyfxtx.c:985-1079 | giving everything back, in any order, returns to the initial heap |
| HeapSpec.AllocFailsIff | SDDC_FX3/cyfxtx.c:906-944 | allocation fails exactly when neither part of the search order holds a run one line longer than the block |
| HeapSpec.AllocMeans | SDDC_FX3/cyfxtx.c:885-950 | for every size, in numbers: how many bytes and lines a request needs and not one more, that it fails exactly when neither part of the search order holds a run one line longer, and else which block is taken, which bits are set and where the next search begins |
| HeapSpec.ReachableNeeds | SDDC_FX3/cyfxtx.c:885-898 | in every reachable heap every live block is exactly as long as some request needed |
| HeapSpec.MissesIff | SDDC_FX3/cyfxtx.c:937-942 | allocation fails though a long enough run is there exactly when every such run straddles the resume position |
| HeapSpec.CompleteAtTop | SDDC_FX3/cyfxtx.c:1070-1072 | with the search position at 0, as after a free, no run is missed |
| HeapSpec.ReachableMiss | SDDC_FX3/cyfxtx.c:937-942 | a reachable heap with a long enough free run that the search refuses |
| BufferHeap.BufferManager.EnableChecks | SDDC_FX3/cyfxtx.c:669-684 | the checks can be switched only while there is no heap |
| BufferHeap.BufferManager.Init | SDDC_FX3/cyfxtx.c:696-745 | leaves an empty heap, or nothing changed when it exists already or a resource is missing |
| BufferHeap.BufferManager.DeInit | SDDC_FX3/cyfxtx.c:753-791 | gives the heap up, or leaves it alone without the lock |
| BufferHeap.BufferManager.Alloc | SDDC_FX3/cyfxtx.c:852-977 | the new state is the specified allocation; the pointer is the block's, 32 bytes further with checks; header, footer and list are in place, the header carries the allocation's number, and no other block's memory but its links differs |
| BufferHeap.BufferManager.PushHeader | SDDC_FX3/cyfxtx.c:952-971 | the header's fields and footer as stored, and the one link patched in the previous head |
| BufferHeap.BufferManager.LivePointer | SDDC_FX3/cyfxtx.c:113-119 | every live pointer is cache-line aligned and its bytes lie inside the heap |
| BufferHeap.BufferManager.Free | SDDC_FX3/cyfxtx.c:985-1079 | freeing a live pointer does the specified free, unlinks the block, tells the callback exactly of broken signatures, and returns 0 exactly for addresses inside the heap |
| BufferHeap.BufferManager.UnlinkHeader | SDDC_FX3/cyfxtx.c:1032-1040 | the patched links form the list without the freed block, whichever it was |
| BufferHeap.BufferManager.Store | SDDC_FX3/cyfxtx.c:955-967 | a client's stores outside a block's size and links leave list and heap in order |
| BufferHeap.BufferManager.CorruptionCheck | SDDC_FX3/cyfxtx.c:1151-1182 | terminates, succeeds exactly when every live block carries both signatures, and else reports the newest broken one |
| BufferHeap.BufferManager.ListedInBounds | SDDC_FX3/cyfxtx.c:1164-1165 | the address test in the check never refuses a listed block |
| HeapClient.SetUp | SDDC_FX3/cyfxtx.c:669-745 | with the checks switched on before it, initialisation gives an intact heap of which nobody holds anything |
| HeapClient.CheckAfter | SDDC_FX3/cyfxtx.c:1151-1182 | after any calls in any order by clients that stay inside their buffers, lock failures included, every signature is intact, the callback was never called, and the check succeeds |
| HeapClient.CheckAfterOverrun | SDDC_FX3/cyfxtx.c:1167-1175 | a store just past any one buffer makes the check fail and name that buffer |
| LinkSpec.PushKeeps | SDDC_FX3/cyfxtx.c:955-964 | pushing a block keeps the list linked and the other blocks' memory |
| LinkSpec.UnlinkKeeps | SDDC_FX3/cyfxtx.c:1032-1040 | unlinking any block keeps the list linked and the other blocks' memory |
| LinkSpec.WalkMeetsAll | SDDC_FX3/cyfxtx.c:1161-1179 | following `prev_blk` from the head meets every live block once, newest first, and ends |
| LinkSpec.LinksInverse | SDDC_FX3/cyfxtx.c:959-964 | `next_blk` and `prev_blk` undo each other and are null exactly at the two ends |
| LinkSpec.HeaderWords | SDDC_FX3/cyfxtx.c:955-967 | which word of a block holds its size, its two links and its two signatures, and what these are, in numbers |
| LinkSpec.StoreKeeps | SDDC_FX3/cyfxtx.c:1018-1028 | client stores into a block's payload keep the list and the block's signatures |
| MemCopy.MovedAt | SDDC_FX3/cyfxtx.c:551-619 | the simultaneous move, byte by byte: the destination gets the old source bytes, nothing else changes |
| MemCopy.StepDown | SDDC_FX3/cyfxtx.c:559-587 | copying downwards with the destination above, the next source byte is still unharmed |
| MemCopy.StepUp | SDDC_FX3/cyfxtx.c:589-617 | copying upwards with the destination not above, likewise |
| MemCopy.Copy | SDDC_FX3/cyfxtx.c:551-619 | both unrolled loops equal the simultaneous move for every overlap |
| HealthSpec.CountersAreRuns | SDDC_FX3/health.c:278-336 | the two counters are the lengths of the runs of same-class frozen samples, in states 5, 7, 8, 9 and 2 to 9, modulo 3 and 5 |
| HealthSpec.ReportsExactly | SDDC_FX3/health.c:278-336 | a fault is reported exactly when the run of its class has reached 3 (stall) or 5 (cold start) since the last report, reset or break |
| HealthSpec.OneCounter | SDDC_FX3/health.c:287-334 | the counters are never both in use and stay below their limits |
| HealthSpec.SessionPaced | SDDC_FX3/health.c:387-465 | what every tick of a capped session keeps, relating ticks, recoveries, escalation and counters |
| HealthSpec.SessionBounds | SDDC_FX3/health.c:387-418 | in any environment at most cap light recoveries and one reset, which needs escalation, the full cap and tick 4*cap+5 |
| HealthSpec.ResetExactly | SDDC_FX3/health.c:392-413 | a tick resets exactly on a cold start at the cap, enabled, for the first time, with a live clock |
| HealthSpec.SessionTrace | SDDC_FX3/health.c:278-336 | in any session the sampler is that of the session's trace of samples and baseline resets |
| HealthSpec.LightExactly | SDDC_FX3/health.c:387-440 | over every session and cap, told by the trace: a tick makes a light recovery exactly when it reports a fault and the cap is 0 or fewer than cap light recoveries came before |
| HealthSpec.ResetTold | SDDC_FX3/health.c:392-413 | likewise a tick resets the device exactly when it reports a cold start, the cap is used up, escalation is on, the clock is good and no reset came before |
| HealthSpec.UncappedAlwaysRecovers | SDDC_FX3/health.c:392 | with a cap of 0 as many light recoveries are made as faults are reported |
| HealthSpec.UncappedNeverResets | SDDC_FX3/health.c:392 | with a cap of 0 there is no reset in any session |
| HealthSpec.WedgeResetTick | SDDC_FX3/health.c:302-316 | while the sampler is shown a cold-start wedge with a live clock the reset comes at tick 5*(cap+1) exactly, and the light recoveries at the multiples of 5 before it |
| HealthSpec.EarliestReset | SDDC_FX3/health.c:282-336 | for every cap some session resets at tick 4*cap+5 |
| Health.HealthState.WdClear | SDDC_FX3/health.c:146-158 | the timer callback clears exactly when the heartbeat moved |
| Health.HealthState.RecordEvent | SDDC_FX3/health.c:199-215 | stamp and flag afterwards are those of the specified entry or exit of a handler, in a state a run of the EP0 machine has; nobody is judged wedged right after either |
| Health.HealthState.SetMaxRecovery | SDDC_FX3/health.c:217-220 | sets the cap and nothing else the recovery looks at |
| Health.HealthState.SetResetEscalation | SDDC_FX3/health.c:245-248 | sets the escalation switch and nothing else the recovery looks at |
| Health.HealthState.ResetRecoveryCount | SDDC_FX3/health.c:222-243 | begins a fresh session whatever went before |
| Health.HealthState.StreamingWedgeDetected | SDDC_FX3/health.c:278-336 | one sample of the detector is one step of the specified sampler |
| Health.HealthState.Evaluate | SDDC_FX3/health.c:338-368 | one evaluation of the EP0 machine: wedged is reported exactly when that machine says so, first, and with all sampler state and the SDK untouched |
| Health.HealthState.Recover | SDDC_FX3/health.c:370-477 | the remedy, counters and baseline as specified for every status; in particular a light recovery for every streaming fault while the cap is 0 or not used up |
| Health.HealthState.HealthTick | SDDC_FX3/RunApplication.c:122-133 | heartbeat, evaluation and recovery compose to one specified tick; with EP0 overdue one call, the line printed, comes before the reset |
| Ep0Spec.ElapsedIs | SDDC_FX3/health.c:351-355 | unsigned subtraction of wrapped times is the wrapped true difference, whichever came first |
| Ep0Spec.VerdictIsAge | SDDC_FX3/health.c:199-215 | in every reachable state a raised flag means the stamp is the running handler's, and the verdict is its age modulo the clock |
| Ep0Spec.JudgedInTime | SDDC_FX3/health.c:350-358 | in every run with evaluations at most P ms apart, a handler still running 2000+P ms after its entry has met an evaluation that judged it wedged, between 2000 and 2000+P ms, and none earlier did |
| Ep0Spec.FalseAlarmIff | SDDC_FX3/health.c:350-358 | interleaved, over every run, a handler that lived less than 2000 ms is judged wedged exactly when its stamp came after the clock was read, or when it had exited before and the clock shows 2000 ms or more since its stamp; that exit falls between the reads of flag and clock |
| Ep0Spec.FalseAlarmReached | SDDC_FX3/health.c:351-352 | a concrete interleaving of the first kind |
| Ep0Spec.StaleAlarmReached | SDDC_FX3/health.c:350-351 | one of the second kind, with a handler of 1995 ms |
| WatchdogSpec.NeverFiresIff | SDDC_FX3/health.c:71-72 | the 5000 ms watchdog never fires exactly when no 3000 ms window's heartbeats are a multiple of 2^32 |
| WatchdogSpec.ExpiresAfter | SDDC_FX3/health.c:146-158 | the first missed window decides the moment of expiry |
| WatchdogSpec.FiresAfterSilence | SDDC_FX3/health.c:178-191 | when heartbeats stop at t the device is reset no later than t + 8000 ms |
| StreamLoop.StrandedSilently | SDDC_FX3/health.c:287-323 | with the GPIF unprogrammed and the host silent no tick recovers or resets, and the state machine stays stopped |
| StreamLoop.SessionBegins | SDDC_FX3/health.c:222-243 | STOPFX3, and STARTFX3 with a good clock, give the sampler a fresh session, and no other host event touches it |
| StreamLoop.ForcedIsLast | SDDC_FX3/health.c:435-458 | in any host-silent run a forced light recovery is the watchdog's last remedy |
| StreamLoop.ResetNeedsIdle | SDDC_FX3/health.c:392-413 | the escalation comes only if every soft stop before it reached IDLE |
| StreamLoop.WedgeResetsIff | SDDC_FX3/health.c:278-465 | under a cold-start wedge of a streaming device with a good clock, the reset comes at tick 5*(cap+1) if and only if the state machine is in IDLE at the end of the soft stop of every fifth tick before it |
| StreamLoop.Unwatched | SDDC_FX3/health.c:360-367 | while the application counts as inactive no tick does anything, whatever the stream does, until the next configuration |
| ClockPlan.DoublingsReach | SDDC_FX3/driver/Si5351.c:265-269 | the doubling loop ends in [limit, 2*limit) |
| ClockPlan.DoublingsBound | SDDC_FX3/driver/Si5351.c:265-269 | no 32-bit request needs more than 20 doublings |
| ClockPlan.PlanMeans | SDDC_FX3/driver/Si5351.c:261-285 | the plan in numbers, with no division: fewest doublings to reach 1 MHz or, for output B, to exceed it, largest even divider with a VCO up to 900 MHz, and that VCO over 27 MHz cut to 1048575ths |
| ClockPlan.VcoBounds | SDDC_FX3/driver/Si5351.c:273-277 | the target VCO is at most 900 MHz and less than two requests below it, above 675 MHz while the divider is at least 6 |
| ClockPlan.AcceptedIff | SDDC_FX3/driver/Si5351.c:261-285 | R divider at most 128 and an even divider of 6 to 900, exactly for requests from 7813 Hz to 150 MHz |
| ClockPlan.PlanInRange | SDDC_FX3/driver/Si5351.c:273-285 | for those requests the VCO lies in (675, 900] MHz and the multiplier in 25 to 33 |
| ClockPlan.PackRoundTrip | SDDC_FX3/driver/Si5351.c:149-156 | the eight bytes lose nothing of an 18-bit P1, 20-bit P2 and P3 and the R bits |
| ClockPlan.PackedNumbers | SDDC_FX3/driver/Si5351.c:149-156 | which byte holds which part of the fields, in numbers |
| ClockPlan.PllFieldsExact | SDDC_FX3/driver/Si5351.c:145-147 | (P1+512)*P3+P2 is 128 times mult*denom+num, and the fields fit their widths |
| ClockPlan.SynthFieldsExact | SDDC_FX3/driver/Si5351.c:173-179 | P1+512 is 128 times the divider, and it fits |
| ClockPlan.OutputError | SDDC_FX3/driver/Si5351.c:243-318 | decoded from the packed bytes, the output never exceeds the request and is below it by less than 27 MHz over 1048575 times the total division |
| ClockChip.PlanFrequency | SDDC_FX3/driver/Si5351.c:261-285 | the loop and divisions in 32-bit variables compute the plan with no overflow |
| ClockChip.PllData | SDDC_FX3/driver/Si5351.c:136-156 | the eight PLL bytes for every multiplier, numerator and denominator |
| ClockChip.Clock.SetupPLL | SDDC_FX3/driver/Si5351.c:136-159 | sends the PLL ratio as one step of the specified write list |
| ClockChip.Clock.SetupMultisynth | SDDC_FX3/driver/Si5351.c:165-187 | sends the integer divider with the R bits as one step |
| ClockChip.Clock.Si5351Init | SDDC_FX3/driver/Si5351.c:74-127 | performs the eighteen writes in order up to the first that fails |
| ClockChip.Clock.SetFrequency | SDDC_FX3/driver/Si5351.c:243-318 | for either output, performs the specified writes for that frequency up to the first that fails |
| ClockChip.Clock.I2cTransfer | SDDC_FX3/i2cmodule.c:43-80 | bytes reach the clock chip's registers only from writes to its address; failures are counted |
| ClockChip.AccessBlocked | SDDC_FX3/USBHandler.c:79-88 | the loop refuses exactly the requests at the read address, and those at the write address that touch a register AN619 does not document, wrap included |
| ClockChip.Clock.HostWrite | SDDC_FX3/USBHandler.c:387-412 | a host write changes the chip exactly as its admitted write does, and is acknowledged exactly when it got through; its bytes are then in the registers it named |
| ClockChip.Clock.HostRead | SDDC_FX3/USBHandler.c:414-436 | a host read changes no register |
| ClockSpec.HostAllowed | SDDC_FX3/USBHandler.c:64-88 | a request that passes the guard addresses allowed registers only, though the chip's address wraps mod 256 |
| ClockSpec.AllowlistIs | SDDC_FX3/USBHandler.c:64-73 | the allowlist and its complement in register numbers |
| ClockSpec.BlockedIff | SDDC_FX3/USBHandler.c:79-88 | what is refused, in addresses and register numbers |
| ClockSpec.HostArrives | SDDC_FX3/USBHandler.c:387-412 | a write to documented registers only is not refused, and when the transfer succeeds its bytes are there and nothing else has changed |
| ClockSpec.IssuedAllowed | SDDC_FX3/driver/Si5351.c:74-127 | every write the firmware or an admitted host request issues is to allowed registers |
| ClockSpec.ReservedNeverWritten | SDDC_FX3/USBHandler.c:55-88 | no run of host requests and firmware programming, failed transfers included, changes a reserved register |
| ClockSpec.UndocumentedKept | SDDC_FX3/USBHandler.c:55-63 | over any run registers 4-8, 10-14, 93-148, 171-176, 178-182, 184-186 and 188-255 hold what they held |
| ClockSpec.SucceededAt | SDDC_FX3/driver/Si5351.c:74-127 | after writes that all succeed each register holds the last byte sent to it, or what it held |
| ClockSpec.StopsAtFailure | SDDC_FX3/driver/Si5351.c:74-127 | a list of writes ends with the first transfer that fails |
| ClockSpec.InitChip | SDDC_FX3/driver/Si5351.c:74-127 | what every register holds after a successful Si5351Init, in numbers |
| ClockSpec.FrequencyBytes | SDDC_FX3/driver/Si5351.c:243-390 | registers, single bytes and limits of the frequency writes for both outputs, and the power-down byte for a request of 0 |
| ClockSpec.RecoveredChip | SDDC_FX3/driver/Si5351.c:62-73 | a successful init and frequency setting make the listed registers a function of the frequency alone, whatever the host had written |
| ImageSpec.ParseEncoded | SDK/util/elf2img/elf2img.c:387-409 | parsing gives back the encoded sections, entry point and checksum |
| ImageSpec.ParseUnambiguous | SDK/util/elf2img/elf2img.c:387-409 | an image that parses has one reading, and encoding it gives the image |
| ImageSpec.OneSection | SDK/util/elf2img/elf2img.c:221-222 | a section in the image is its length in words, its address and its words |
| ImageSpec.ChunksLoad | SDK/util/elf2img/elf2img.c:197-228 | loading the chunks one by one stores their words in one go at following addresses, wrap included |
| ImageSpec.ChunkAt | SDK/util/elf2img/elf2img.c:197-228 | section k of a segment begins k times the device size on, at the following address, and has that size unless it is the last |
| ImageSpec.ChunksRight | SDK/util/elf2img/elf2img.c:199-216 | when no chunk follows a partly filled one the chunks hold the file words and then zeros |
| ImageSpec.ChunksWrong | SDK/util/elf2img/elf2img.c:210-216 | otherwise some word past the file words is the one that follows the file part in the file |
| ImageLoad.SegmentLoadsIff | SDK/util/elf2img/elf2img.c:169-255 | over every memory and every file that begins with one given header and segment table, a segment of any sizes loads as linked byte for byte, less the stripped vectors, if and only if the stated condition on its position and sizes holds |
| ImageLoad.BootsAsLinked | SDK/util/elf2img/elf2img.c:387-409 | the image parses to the entry point, the sum of all payload words mod 2^32, and sections that load as the faithful segments ask, in order, but for bytes past a segment's end in its last word |
| ImageWriter.Trim | SDK/util/elf2img/elf2img.c:169-192 | sizes in words and the vector area's removal, in 32-bit arithmetic |
| ImageWriter.SizesDouble | SDK/util/elf2img/elf2img.c:78-87 | sections have at most 0x100 * 2^k words for size code k up to 6, and 0x4000 for code 7 |
| ImageWriter.Writer.FRead | SDK/util/elf2img/elf2img.c:243 | reads whole words until the count or the end of the file |
| ImageWriter.Writer.CopyChunk | SDK/util/elf2img/elf2img.c:230-254 | the 2048-word loop writes exactly the chunk's words and adds exactly their sum |
| ImageWriter.Writer.CopySegment | SDK/util/elf2img/elf2img.c:194-255 | the chunk loop emits exactly the specified sections |
| ImageWriter.Writer.ProcessProgHeader | SDK/util/elf2img/elf2img.c:147-269 | a program header adds exactly its sections to image and checksum |
| ImageWriter.Writer.Convert | SDK/util/elf2img/elf2img.c:390-409 | the written image is the specified one; it ends with zero, the entry point and the checksum |
| LifecycleSpec.StepKeeps | SDDC_FX3/USBHandler.c:469-568 | every event keeps the invariant, and makes no call the SDK rules out but rearming an active channel, exactly when its reset failed |
| LifecycleSpec.StopFx3Does | SDDC_FX3/USBHandler.c:536-568 | STOPFX3 from any state, field by field: the configuration survives only a state machine in IDLE, the channel is reset, application and record stay |
| LifecycleSpec.StartAdcDoes | SDDC_FX3/USBHandler.c:287-308 | STARTADC from any state, field by field |
| LifecycleSpec.StartFx3Does | SDDC_FX3/USBHandler.c:480-530 | STARTFX3 from any state, field by field, each step's failure told apart |
| LifecycleSpec.RecoveryDoes | SDDC_FX3/health.c:435-458 | a watchdog recovery from any state, field by field |
| LifecycleSpec.BusResetDoes | SDDC_FX3/StartStopApplication.c:199-225 | a bus reset from any state, field by field: all torn down, or the device reset |
| LifecycleSpec.SetConfDoes | SDDC_FX3/StartStopApplication.c:119-192 | a new configuration, field by field: torn down and brought up, or the device reset, or what silent failures leave |
| LifecycleSpec.StartUnchecked | SDDC_FX3/StartStopApplication.c:119-192 | a start from any state without the console, field by field, with every call out of order recorded |
| LifecycleSpec.StartRefused | SDDC_FX3/StartStopApplication.c:119-192 | with the console a start over an existing channel or a loaded GPIF ends in a device reset, and which call was out of order |
| LifecycleSpec.InOrderIff | SDDC_FX3/StartStopApplication.c:199-214 | an event keeps the invariant and makes no call out of order, that rearming aside, exactly when it does not leave behind a channel whose failed destruction nobody notices |
| LifecycleSpec.RunSafe | SDDC_FX3/StartStopApplication.c:119-225 | every run, with or without the console, keeps the invariant and makes its calls in order, rearming aside, if and only if no event of it leaves a channel behind; then a running state machine or active channel means the application is active, and arming too is in order while resets succeed |
| LifecycleSpec.NoneLeftWhen | SDDC_FX3/Support.c:155-169 | with the console up, or while every destruction succeeds, no event of any run leaves a channel behind |
| LifecycleSpec.UncheckedTearDown | SDDC_FX3/Support.c:155-169 | without the console a failed teardown leads to creating a channel that exists |
| LifecycleSpec.OrphanStreams | SDDC_FX3/USBHandler.c:480-530 | after such a teardown a STARTFX3 streams while the application counts as inactive |
| LifecycleSpec.RearmedActive | SDDC_FX3/USBHandler.c:499-518 | a run that leaves no channel behind and still arms an active one |
| LifecycleSpec.StartFx3Iff | SDDC_FX3/USBHandler.c:480-530 | from any state STARTFX3 ends running exactly when the clock is good and every step it needs succeeds, and leaves the application as active as it was |
| LifecycleSpec.RecoveryIff | SDDC_FX3/health.c:435-458 | from any state a recovery restarts the state machine exactly when the soft stop reached IDLE on a configured GPIF and the clock is good |
| LifecycleSpec.StrandedUntilHost | SDDC_FX3/health.c:443-456 | from an unprogrammed GPIF nothing but SETCONF or STARTFX3 starts the state machine |
| LifecycleSpec.ForcedStopStrands | SDDC_FX3/health.c:441-456 | after a forced watchdog stop the stream stays down until the host acts |
| Lifecycle.Device.StartApplication | SDDC_FX3/StartStopApplication.c:130-192 | the calls in order, each under the SDK's contract, a failed checked call resetting the device |
| Lifecycle.Device.StopApplication | SDDC_FX3/StartStopApplication.c:199-225 | tears everything down and parks the ADC |
| Lifecycle.Device.StartFx3Request | SDDC_FX3/USBHandler.c:469-534 | the specified step; the trigger is raised exactly when the state machine runs, and the host is stalled exactly when not |
| Lifecycle.Device.StopFx3Request | SDDC_FX3/USBHandler.c:536-568 | from any state: trigger down, state machine stopped, ADC parked; the configuration stays only if the state read was IDLE, the channel is reset if it exists and the reset succeeds, and nothing else changes |
| Lifecycle.Device.StartAdcRequest | SDDC_FX3/USBHandler.c:287-308 | from any state: in RESET, or when no state can be read, nothing; else trigger down, a forced stop that loses the configuration, and the channel reset |
| Lifecycle.Device.LightRecovery | SDDC_FX3/health.c:419-465 | the specified step; the trigger follows the clock, restarted or not |
| Lifecycle.Device.Serve | SDDC_FX3/USBHandler.c:695-730 | from any state, any sequence of events ends where the specified run ends |
| DebugSpec.FitsIff | SDDC_FX3/DebugConsole.c:160-246 | a message fits exactly when its text leaves two places and its text before the last piece three |
| DebugSpec.TextAround | SDDC_FX3/DebugConsole.c:160-246 | the text of a message around any one item is what comes before, what the item puts out, what comes after: for %d a minus exactly when negative and the digits, for %u, %x, %X the digits, for %c the character, for %s the string, for %% a percent sign, and any other character itself |
| DebugSpec.UnknownRefused | SDDC_FX3/DebugConsole.c:233-235 | an unknown conversion, or a percent sign at the end, is an error |
| DebugSpec.RunLossless | SDDC_FX3/DebugConsole.c:255-281 | over any interleaving, delivered then waiting text is exactly the accepted messages, each whole, in order |
| DebugSpec.DrainsIn | SDDC_FX3/USBHandler.c:652-668 | a backlog of n bytes is delivered in order in exactly ceil(n/63) polls |
| DebugConsole.PutItem | SDDC_FX3/DebugConsole.c:161-246 | one character or conversion is written, or the formatter stops |
| DebugConsole.MyDebugSNPrint | SDDC_FX3/DebugConsole.c:143-253 | in the buffer's bounds, writes all of the message's text, terminated, or returns an error |
| DebugConsole.DebugBuffer.DebugPrint2USB | SDDC_FX3/DebugConsole.c:255-281 | queues a message whole or drops it whole, and only while application and debugging are on |
| DebugConsole.DebugBuffer.Drain | SDDC_FX3/USBHandler.c:652-673 | delivers the oldest 63 characters at most, moves the rest down, stalls exactly when nothing waits |
| ShiftBus.DigitsValue | SDDC_FX3/radio/rx888r2.c:91-107 | a register that took in n digits most significant first holds the value mod 2^n |
| ShiftBus.MovedUpBit | SDDC_FX3/radio/rx888r2.c:98-105 | the digit under the mask after n left shifts of the byte is the n-th from the top |
| ShiftBus.FrontEnd.GpioShiftOut | SDDC_FX3/radio/rx888r2.c:91-107 | the addressed latch ends with the value's digits and the other latch, sharing clock and data, is unchanged |
| ShiftBus.FrontEnd.SetAttenuator | SDDC_FX3/radio/rx888r2.c:110-114 | attenuator latch holds the value mod 64; gain latch and control lines unchanged |
| ShiftBus.FrontEnd.SetGain | SDDC_FX3/radio/rx888r2.c:117-121 | gain latch holds the value; attenuator latch and control lines unchanged |
| ShiftBus.FrontEnd.GpioSet | SDDC_FX3/radio/rx888r2.c:17-27 | every control line shows its digit of the word, pin by pin in numbers, PGA inverted; the latches are unchanged |
| ShiftBus.FrontEnd.ReadGpioState | SDDC_FX3/radio/rx888r2.c:43-57 | the word read has exactly the digits of the lines that are shown set, digit by digit in numbers, and no others |
| ShiftBus.FrontEnd.ReadsBack | SDDC_FX3/radio/rx888r2.c:36-57 | after any run with a control word, the read-back is the last one masked to the lines, SHDWN overridden by later standby calls |
| ShiftBus.FrontEnd.ExecuteAll | SDDC_FX3/radio/rx888r2.c:17-121 | after any run the latches hold the last attenuation mod 64 and the last gain, and the lines the last word |

## Left out

- Heap sizes that are no multiple of 32 cache lines: both shipped memory maps are multiples of 1024 bytes, and the branch that masks the tail is dead for them.
- BufferHeap.BufferManager.Free: frees of pointers that are no live block's are modelled only into free lines and without checks (`DeadLine`); into marked lines, or with a header read that is not there, their effect depends on client data.
- BufferHeap.BufferManager.Alloc: a mutex failure is a parameter; which thread waits how long is not modelled.
- The driver heap (`CyU3PMemAlloc`) and its corruption check: the same list code over the RTOS's byte pool, whose code is not part of this model.
- SDK/fw_build/fx3_fw/cyfxtx.c and SDK/fw_build/fx3_fw/cyfxtx.cpp: the same allocator again.
- MemCopy.Copy: source and destination are ranges of one memory, so that every overlap is covered; addresses do not wrap.
- Health.HealthState.Recover: the SDK calls of the light recovery are modelled in `Lifecycle`, where their results matter; here they are counted.
- Health.HealthState.HealthTick: EP0 handlers and ticks are atomic; the interleaving that breaks this for the EP0 timeout is modelled in `Ep0Spec`.
- Ep0Spec.FalseAlarmIff: its third clause speaks of readings less than one turn of the 32-bit clock apart; the second holds for any.
- StreamLoop.Step: the EP0 handler is taken not to be overdue; an overdue one resets the device before the sampler is asked.
- The second counter at the end of the main loop, which takes 7812 from the DMA count in builds without USB debugging, is an environment change of that count.
- The boot counter, the test hooks HANGFX3, HANGMAIN and HANGCOLDSTART, and the GETSTATS layout: one branch each.
- ClockPlan.OutputError: requests below 7813 Hz or above 150 MHz, for which the chip's fields overflow; `AcceptedIff` shows the range is exact.
- ClockPlan.Output: the chip's own jitter and lock behaviour; PLL lock is a result the environment gives.
- ClockSpec.ReservedNeverWritten: reads set no register; the chip's own status bits are not modelled.
- ImageLoad.SegmentLoadsIff: the memory size is at least the file size and rounds up in 32 bits, a segment that begins below 0x100 begins on a word (the System V ABI, chapter 5, Program Header, asks for the first and the last), the file is there to the last word of the segment's file part, and the given header and segment table end no later than that part.
- ImageWriter.Writer.CopySegment: file positions are plain numbers; C's `fseek` takes a `long`, and where that has 32 bits positions from 2^31 on fail.
- ImageWriter.Writer.FRead: one to three bytes left at the end of the file read as nothing; C leaves open what they leave in the buffer, and a library that stores them makes the tool write them to the image without adding them to the checksum. Writes to the image file succeed.
- ImageLoad.BootsAsLinked: for such a file the same holds of its checksum clause.
- ELF header validation, command-line parsing and the four leading image bytes: plumbing.
- LifecycleSpec.RunSafe: handlers, USB events and recoveries are atomic steps; the RTOS may in truth interleave a recovery with a vendor request.
- LifecycleSpec.StartApp: one result stands for all the other checked calls of a handler (clocks, endpoints, flush); where among them the first failure comes makes no difference to the state.
- LifecycleSpec.Create: what the SDK does on a call its documentation rules out is unknown; here the call fails and is recorded.
- GPIF waveforms, endpoints, LPM and PIB clocks: the state a GPIF query shows is an input.
- DebugConsole.MyDebugSNPrint: the digits of a number come from an SDK conversion that is not part of this model, and strings of 65536 characters and more, whose length the code truncates, are excluded.
- Console input, command parsing and trace tables.
- ShiftBus.FrontEnd.ReadGpioState: reading a configured pin succeeds.
- ShiftBus.FrontEnd.SetPin: each chip captures on the rising edge of its latch line, and may or may not ignore the clock while that line is high.
