# Verification of the emulator's core

A Dafny model of the hardest parts of a PlayStation emulator written in C, with proofs of what those
parts are built to do. `dafny verify dfyconfig.toml` checks everything.

Code that updates state in place is modelled as classes with fields, arrays and loops. Each such class
is proved against pure functions of its abstract state, and the larger claims (whole runs, round trips,
refinement of a closed form) are lemmas about those functions.

| files | what they model |
|---|---|
| `Edges`, `Coverage`, `Attributes`, `Raster` | the triangle rasteriser of `src/gpu.c`: half-plane tests with the top-left rule, fixed-point colour planes, the fill loop over video memory |
| `Lines` | the fixed-point line drawer of `src/gpu.c` |
| `VramTransfer`, `VramDevice` | uploads, downloads and copies of rectangles with wrap-around |
| `GpuClock`, `Timer`, `Scheduling`, `Slicing`, `Cycles`, `EventAccount`, `IrqAccount`, `SystemClock` | video timing, root counters, event scheduler, and the loop of `src/main.c` that slices time for all of them: what it fires, what it raises, and what that comes to cycle by cycle |
| `CdProtocol`, `CdRuns`, `CdReading`, `CdAddressing`, `CdRom` | the CD-ROM controller: commands, the event queue, deferral until acknowledge, sector delivery, and which sector a program gets |
| `MemoryCard`, `SerialPort`, `PortSessions`, `SioDevice` | the memory card's byte protocol, the serial port in front of it, and reads and writes through both |
| `DmaLists`, `Dma` | linked-list DMA and the ordering-table clear that builds such lists |
| `MdecParse`, `MdecMeaning`, `MdecEncoding`, `MdecStream`, `MdecTables`, `MdecOutput`, `MdecDevice` | the macroblock decoder: incremental run-length decoding, what a block means and how one is written, commands and tables, output ring, DMA reordering |
| `GteDivide` | the table-seeded Newton reciprocal of the geometry engine |
| `Arith`, `Iteration`, `Words`, `Interrupts` | shared arithmetic facts, iteration, integer widths, the interrupt status register |

The ideas that carry the proofs:

- The tie rule accepts a pixel exactly when it is strictly inside after the point has been nudged by an
  infinitesimal step right and a still smaller step down. Partition and vertex-order independence follow
  from that equivalence without any case analysis of ties.
- The video clock, the counters and the /8 divider are proved equal to div/mod forms of the total number of
  cycles; invariance under any split of the cycles is then arithmetic.
- What a run of the main loop does is accounted for without slices: one-shot events fire once at their times,
  and the CD-ROM controller's event at the times that its own reactions lead to (`EventAccount.CdBefore`). Every
  round extends the account, so it holds after any number of cycles.
- Every interrupt of a run is accounted for (`IrqAccount.Raised`): each source is asserted exactly as often as the
  state at the start, the cycles and the firings call for, and no other is.
- A slice that ends at or before the next blanking edge may be cut anywhere, even for counters synchronised to
  blanking. Any two such slicings of the same total therefore end alike (`Iteration.AnySlicing`).
- What a formula yields is also said without it: a colour by its three fields, a checksum by its bits, a dequantised
  coefficient by the one number in reach of the exact product, an address by its inverse, a table's entry as the
  nearest quotient, a register word by the fields it is put together from.
- The macroblock parsers take what is left of the input and return what they leave of it. A result reached
  without knowing that the input was complete survives any further input, so streaming equals batch.
- For linked-list DMA, `IsWalk` says without any loop which headers are visited, and only one sequence
  satisfies it.

Two statements found in the source do not hold of its code. The model follows the code.

- The comment at `src/gte.c:299` promises `floor(h * 0x20000 / sz)`, clamped; the routine computes an approximation
  of `h * 0x10000 / sz`. `GteDivide.CommentHoldsIff` gives all inputs for which the two agree: `h` zero, a quotient of
  2 or more, the single pair (1, 43691), and `h = 2 * sz - 1` for those `sz` between 0x4000 and 0x8000 whose
  reciprocal the table rounds up far enough. That last set follows no simpler rule than the table itself; the
  condition is one look-up; it fails for all `sz` below 18700 (`GteDivide.RoundsToCapOnlyAbove`), and further up two
  neighbouring divisors can differ (`GteDivide.SomeRoundToCap`).
- The comment at `src/cdrom.c:234` expects that the event queue is never full. Four commands in a row
  fill it, and a fifth gets no acknowledge; `CdRuns.AcknowledgeQueuedIff` gives the exact condition.
  Continuations of events already queued are never lost (`CdRuns.NoContinuationLost`).

Three consequences of the code that a caller may not expect:

- Parameters written after a command was deferred are lost exactly when the acknowledge releases that command or
  resets the FIFO (`src/cdrom.c:763-776`, `CdRuns.LaterParametersLostIff`).
- INT1 is raised by a sector delivery only, but acknowledging part of another interrupt can leave the flag
  register reading 1 (`src/cdrom.c:888`, `CdRuns.PartialAcknowledge`).
- The clip registers have ten bits and video memory 512 rows. A quad with more than 512 rows inside the clip
  can combine a cell twice; `Raster.Canvas.FillFlatQuad` says exactly which cells (`Raster.TallQuadDrawnTwice`).

A flush failure makes a memory-card write answer 0x4E although the memory has changed (`src/sio.c:436-447`);
the theorems therefore tie memory to what was sent and not to the reply.

## Model

| member | source | states |
|---|---|---|
| Edges.AcceptsIffNudgedInside | src/gpu.c:517-531 | an edge test with its tie rule accepts a pixel if and only if the pixel is strictly inside for every small enough nudge right and down, for every edge |
| Edges.ReversedEdge | src/gpu.c:517-531 | reversing an edge negates its form, and together with the opposite winding accepts the same pixels |
| Edges.ExactlyOneSide | src/gpu.c:522-531 | every pixel of the plane is accepted on exactly one of the two sides of an edge |
| Coverage.CoverageIgnoresVertexOrder | src/gpu.c:534-601 | all six vertex orders cover the same pixels and are culled alike |
| Coverage.TooLargeIff | src/gpu.c:97-116 | a triangle is refused exactly if two of its corners are 1024 columns or 512 rows apart |
| Coverage.BoundingBoxMissesNothing | src/gpu.c:534-601 | no pixel of the whole plane that passes the three edge tests lies outside the scanned box |
| Coverage.SharedEdgeDrawnOnce | src/gpu.c:517-601 | two triangles of one winding on either side of a common edge never draw the same pixel |
| Coverage.OuterEdgeAccepts | src/gpu.c:517-531 | an edge with the whole triangle on its inner side accepts every pixel the triangle covers |
| Coverage.QuadPartition | src/gpu.c:1494-1512 | a convex quad drawn as two triangles: a pixel is in one of them if and only if its four outer edges accept it, and never in both |
| Attributes.ClzNormalizes | src/gpu.c:457-472 | the leading-zero count brings the divisor's top bit to bit 31 |
| Attributes.MagnitudeWithin | src/gpu.c:457-472 | no 32-bit reciprocal and no 64-bit product overflows, and the gradient's size errs by less than 1/4096 |
| Attributes.StepWithin | src/gpu.c:457-472 | every signed gradient step errs by less than 1/4096 of a level |
| Attributes.PlaneValueWithin | src/gpu.c:474-515 | the accumulated error of a plane anywhere in the box is at most 1534/4096 |
| Attributes.SampleAccuracy | src/gpu.c:457-515 | for every drawn triangle and covered pixel a channel is within 7/8 of a level of the exact planar interpolation, and equals it wherever that is a whole level |
| Attributes.FlatColourExact | src/gpu.c:474-515 | a triangle of one colour is filled with exactly that colour |
| Attributes.VertexOrdersWithinOneLevel | src/gpu.c:474-515 | any two vertex orders give levels at most one apart |
| Attributes.DivisionSampleNearest | src/gpu.c:604-697 | the modulating colour of a textured triangle is the exact interpolation at the pixel centre rounded to nearest, without 8-bit wrap |
| Attributes.DivisionSampleIgnoresOrder | src/gpu.c:604-697 | the modulating colour does not depend on vertex order at all |
| Raster.AddressInjective | src/gpu.c:230-237 | points less than a memory apart in both directions never share a cell |
| Raster.VisibleAddressInjective | src/gpu.c:534-601 | no two pixels of one triangle share a cell |
| Raster.ToCellFields | src/gpu.c:240-245 | a colour's red, green and blue are in the low, middle and high five bits of its cell, and the mask bit is clear |
| Raster.MixMeans | src/gpu.c:390-430 | each semi-transparency mode on one channel: mean rounded down, sum or difference as far as the channel reaches, sum with a quarter |
| Raster.DrawnShows | src/gpu.c:379-441 | drawing a pixel changes each channel as a function of that channel of cell and colour alone, sets the mask bit exactly if it is forced, and leaves a protected cell alone |
| Raster.DitherIsOrdered | src/gpu.c:247-262 | the dither matrix is the ordered one: each bit of column and row, reversed in weight |
| Raster.DitherMoves | src/gpu.c:247-262 | dithering moves a level by that offset and stops at 0 and 255 |
| Raster.LevelsAccurate | src/gpu.c:457-601 | the levels of every drawn pixel are within 7/8 of the exact interpolation in all three channels |
| Raster.Canvas.DrawPixel | src/gpu.c:379-441 | one pixel changes only its own cell, subject to clip, mask bit and transparency |
| Raster.Canvas.FillTriangle | src/gpu.c:534-601 | every covered pixel inside the clip is combined with the old contents of its cell exactly once, and its cell then shows the interpolated levels, red, green and blue each in its own field; every other cell is unchanged |
| Raster.Canvas.PlotIfCovered | src/gpu.c:563-601 | one round of the scan extends the drawn region by exactly the pixel examined |
| Raster.Canvas.FillQuad | src/gpu.c:1537-1559 | for a convex shaded quad with neither half culled, under every setting of the ten-bit clip registers, each pixel its outer edges accept is combined with its cell exactly once, in the colour of the half that covers it; if the pixel 512 rows away is accepted and inside the clip too, the cell takes both, the first half's pixel first; nothing else changes |
| Raster.Canvas.FillFlatQuad | src/gpu.c:1494-1512 | a quad of one colour: each accepted pixel's cell shows that colour, channel by channel, mixed once, or twice with such a twin |
| Raster.HalvesFill | src/gpu.c:1537-1559 | the two fills in sequence have that effect on memory |
| Raster.FlatQuad | src/gpu.c:1494-1512 | corners of one colour make both halves show exactly that colour, in its three fields |
| Raster.ShortQuadDrawnOnce | src/gpu.c:379-390 | with at most 512 rows of the quad inside the clip no cell is combined twice |
| Raster.TallQuadDrawnTwice | src/gpu.c:1449-1454 | a convex quad and a clip for which two accepted pixels share a cell |
| Lines.CoordinateNearest | src/gpu.c:868-889 | the biased 32.32 walk yields the integer nearest to the exact line, ties fixed by the bias, for up to 1023 steps |
| Lines.LineShape | src/gpu.c:868-901 | exactly one pixel per step on the major axis; on both axes the nearest integer with a fixed tie direction |
| Lines.LineEnds | src/gpu.c:868-901 | the walk starts and ends exactly on the end points |
| Lines.ChannelPath | src/gpu.c:872-901 | a colour channel starts and ends on the end colours, stays between them and within 3/4 of a level of the exact ramp, without 8-bit wrap |
| Lines.LineIsExact | src/gpu.c:833-901 | a line has exactly k+1 pixels with both end points and end colours, whole major steps, nearest minor coordinates and colours between the end colours |
| Lines.DirectionIrrelevant | src/gpu.c:848-866 | swapping the end points draws the same pixels |
| Lines.DrawLine | src/gpu.c:827-901 | the loop plots exactly the spots of the closed form, in order, with truncated coordinates |
| Lines.DrawWalk | src/gpu.c:882-901 | the accumulating loop refines the closed form of every coordinate and channel |
| VramTransfer.CellsDiffer | src/gpu.c:1356-1369 | different pixels of a rectangle no larger than memory never share a cell, however it wraps |
| VramTransfer.RectFields | src/gpu.c:1898-1917 | the two words of a transfer are column and row, modulo the memory's size, and width and height |
| VramTransfer.UploadExact | src/gpu.c:1353-1372 | an upload puts pixel i of its data in pixel i of the rectangle and changes no cell outside it |
| VramTransfer.UploadThenDownload | src/gpu.c:794-825 | reading an uploaded rectangle back gives the same words, except the unused half of an odd last word |
| VramTransfer.CopyIsSimultaneous | src/gpu.c:1936-1981 | for every overlap and both mask settings a copy is the one in which all source pixels are read before any write |
| VramTransfer.CopyIsUnique | src/gpu.c:1936-1981 | only one memory satisfies that description |
| VramDevice.TransferPort.StartLoad | src/gpu.c:1898-1917 | an upload command expects ceil(w*h/2) words; an empty rectangle starts nothing |
| VramDevice.TransferPort.LoadWord | src/gpu.c:1353-1372 | each word adds two pixels; the last one leaves the rectangle complete and returns to command mode |
| VramDevice.TransferPort.Upload | src/gpu.c:1353-1372 | exactly ceil(w*h/2) words complete an upload of any size |
| VramDevice.TransferPort.StartStore | src/gpu.c:1919-1934 | a download command expects ceil(w*h/2) reads |
| VramDevice.TransferPort.ReadWord | src/gpu.c:794-825 | each read gives the next two pixels; outside a download it gives the latch |
| VramDevice.TransferPort.Download | src/gpu.c:794-825 | a download gives every word of the rectangle in order and returns to command mode |
| VramDevice.TransferPort.RoundTrip | src/gpu.c:794-825 | the two state machines in sequence return the words that were sent |
| VramDevice.CopyFields | src/gpu.c:1936-1955 | a copy's width and height count modulo the memory's, from 1 to all of it |
| VramDevice.TransferPort.Copy | src/gpu.c:1936-1981 | the two-pass loops of a copy implement the simultaneous copy |
| GpuClock.LineEndsClosed | src/gpu.c:2316-2366 | ending lines one by one equals counting scanlines, frames and blanking starts by division |
| GpuClock.VideoClock.AdvancePhase | src/gpu.c:2316-2366 | the loop over boundaries consumes exactly the phase it is given and keeps the normalised phase |
| GpuClock.VideoClock.Step | src/gpu.c:2316-2366 | one step of any length equals its div/mod closed form, state and events |
| GpuClock.WalkIsClosedForm | src/gpu.c:2285-2366 | the loop's account of lines, frames and blanking edges is that closed form |
| GpuClock.SplitInvariance | src/gpu.c:2316-2366 | any split of the cycles gives the same clock and the same events in total |
| GpuClock.StaysNormal | src/gpu.c:2285-2366 | not blanking means phase below H, blanking means phase from H to F, after every step |
| GpuClock.BoundaryIsExact | src/gpu.c:2301-2314 | nothing changes before the reported boundary, and exactly one blanking edge is passed at it |
| GpuClock.LineOfPixels | src/gpu.c:128-165 | at every resolution the dot clock's divider times the width is the 2560 video clocks until blanking (2576 at 368 pixels) |
| GpuClock.VblankReported | src/gpu.c:2316-2366 | a step up to the boundary begins at most one vertical blanking and reports exactly that |
| Timer.ResetOnTarget | src/timer.c:216-247 | with reset-on-target an aligned counter counts modulo target+1 (modulo 2^16+1 for a target of 0) and hits come at exactly the div difference |
| Timer.Settles | src/timer.c:99-101 | a counter whose target was written below its value is not aligned, and has no hit, until it has wrapped after 2^16 minus value ticks; one caught just after a hit, after one tick |
| Timer.ResetFromAnywhere | src/timer.c:216-247 | so from any state whatever: the value and the exact number of hits after any number of ticks |
| Timer.FreeRunning | src/timer.c:216-247 | otherwise it counts modulo 2^16 and hits its target once per turn, with the exact number of hits |
| Timer.FreeWraps | src/timer.c:216-247 | without reset-on-target there is one overflow for every 2^16 ticks from 0 |
| Timer.AlignedWraps | src/timer.c:216-247 | with it there is none once settled, unless the target is 0: then every hit is one |
| Timer.SettlingWraps | src/timer.c:216-247 | and one on the way to settling by wrapping |
| Timer.OneShotOnce | src/timer.c:114-142 | one-shot mode asserts at most once until the mode register is written |
| Timer.ConditionsAre | src/timer.c:216-247 | the conditions are the target hits and the overflows that the mode asks for, in number |
| Timer.OneShotFirst | src/timer.c:114-142 | after a mode write it asserts exactly at the first condition, target or overflow, that the mode asks for |
| Timer.RepeatToggle | src/timer.c:114-142 | repeat-toggle asserts on exactly every other condition, target hits and overflows together |
| Timer.RepeatPulse | src/timer.c:114-142 | repeat-pulse asserts on every condition |
| Timer.RunSplits | src/timer.c:216-247 | cutting the ticks in two changes neither the counter nor the number of interrupts |
| Timer.TicksAdd | src/timer.c:152-167 | for every clock source the ticks of two slices add up to those of one |
| Timer.StepsJoin | src/timer.c:249-268 | cutting a slice before its end changes nothing for a counter in any synchronisation mode |
| Timer.DividerLosesNothing | src/timer.c:152-167 | the /8 divider delivers (frac + sum of cycles) div 8 ticks for every split |
| Timer.TimerUnit.StoreMode | src/timer.c:82-98 | a mode write restarts the counter, re-arms one-shot mode and cancels the counter's scheduler event |
| Timer.TimerUnit.FireIrq | src/timer.c:114-142 | raises the interrupt line exactly when the mode and the one-shot state allow |
| Timer.TimerUnit.TakeTicks | src/timer.c:152-167 | ticks and remainder for each clock source |
| Timer.TimerUnit.ApplyEdge | src/timer.c:199-214 | the effect of a blanking edge in each synchronisation mode |
| Timer.TimerUnit.Advance | src/timer.c:216-247 | the tick loop reaches the iterated state and asserts exactly the interrupts counted for it |
| Timer.TimerUnit.Step | src/timer.c:249-268 | one slice: clock source, synchronisation, counting, edge |
| Scheduling.Scheduler.Schedule | src/scheduler.c:14-17 | arms one event at the given distance and touches no other |
| Scheduling.Scheduler.Cancel | src/scheduler.c:19-21 | disarms one event and touches no other |
| Scheduling.Scheduler.CyclesUntilNext | src/scheduler.c:23-39 | the exact distance to the nearest active event, zero if and only if one is due |
| Scheduling.Scheduler.Step | src/scheduler.c:41-72 | every event due by then fires once and is disarmed, no other changes, and exactly their interrupts are raised |
| SystemClock.Machine.ChooseSlice | src/main.c:546-569 | no event, blanking edge or serial event falls inside the chosen slice; a zero slice means an event is due |
| SystemClock.Machine.StepDevices | src/main.c:567-588 | the devices' share of a slice, and exactly the interrupts they assert in it |
| SystemClock.Machine.FireAndStep | src/main.c:566-589 | the scheduler fires each due event once, on time, the devices move by the slice, and exactly their interrupts are asserted, vertical blanking included |
| SystemClock.Machine.HandleFired | src/main.c:590-593 | the controller's callback completes the round and raises its interrupt exactly if its reaction says so; nothing is due after it |
| SystemClock.Machine.OneRound | src/main.c:546-595 | a round fires exactly what is due, each with the current cycle equal to its time, and asserts exactly the interrupts of its events, its devices and the controller; a zero slice removes all that was due |
| SystemClock.Machine.Advance | src/main.c:546-595 | terminates for every number of cycles; slices sum to it and none passes a blanking edge; every one-shot event due by the end has fired exactly once at its time and is disarmed, the controller's event has fired at exactly the times its own reactions lead to, and no other event has fired or changed; every interrupt source has been asserted exactly as often as the start, the cycles and the firings call for: vertical blanking as often as line 240 begins, each counter as often as its ticks and its event do, the serial port if and only if its interrupt is pending, the controller as often as its reactions do, the sound unit as often as its event fires |
| SystemClock.Machine.CdCommand | src/cdrom.c:840-854 | a command written between steps keeps the machine ready to run, with the reaction and the event armed for it |
| SystemClock.Machine.CdAcknowledge | src/cdrom.c:877-896 | so does an acknowledge, which lowers the line exactly when the flag is clear |
| SystemClock.Machine.CounterMode | src/timer.c:82-98 | so does a counter's mode write, which restarts that counter, cancels its event and touches no other |
| SystemClock.Machine.Arm | src/scheduler.c:14-17 | so does arming a one-shot event |
| EventAccount.ChainSplits | src/cdrom.c:1150-1154 | the firings of an event that re-arms itself may be cut at any time |
| EventAccount.CdAdvances | src/cdrom.c:1150-1154 | every firing of the controller's event re-arms it, if at all, for a later time and leaves the controller good |
| EventAccount.AllOnTime | src/scheduler.c:41-72 | what fires at a time no event is past fires on time |
| EventAccount.RoundExtends | src/main.c:546-595 | a round extends the account of everything due so far: each event exactly as often and exactly when it should |
| EventAccount.AccountKept | src/main.c:546-595 | so every sequence of rounds keeps it |
| EventAccount.FiringWasMeant | src/main.c:546-595 | under that account every recorded firing came at its time, before the bound, and belongs to an event armed for just that time that fires nowhere else in the record, or to the controller at one of the times its own reactions lead to |
| EventAccount.DueEventFired | src/scheduler.c:41-72 | and every armed event that was due is in the record, on time, and is disarmed: nothing fires that should not and nothing due is missed |
| EventAccount.CdRaisesSplit | src/cdrom.c:268-275 | the interrupts that the controller's own reactions call for add up over any cut of the time |
| Iteration.AnySlicing | src/main.c:549-594 | if a slice within its limit may be cut anywhere, any two slicings of a total that keep to the limit end alike |
| Slicing.VideoSeesTotal | src/main.c:546-595 | after any slicing the video clock is one step of the total |
| Slicing.SerialSeesTotal | src/main.c:546-595 | the serial countdown sees only the total and comes due at the right cycle |
| Slicing.FreeTimersSeeTotal | src/main.c:546-595 | an unsynchronised counter with any clock source sees only the total |
| Slicing.FlagsHoldThroughSlice | src/main.c:570-590 | the blanking flags sampled before a slice hold at every cycle of it but the last |
| Slicing.BoundaryCountsDown | src/gpu.c:2301-2314 | the reported distance goes down with the cycles, exactly |
| Slicing.DevicesJoin | src/main.c:566-582 | cutting a slice that keeps to the blanking edges changes no device |
| Slicing.SlicingIrrelevant | src/main.c:546-595 | any two slicings of the same total that keep to the blanking edges leave every device alike, counters in every synchronisation mode included |
| Cycles.SlicesAreCycles | src/main.c:546-595 | slices that keep to the blanking edges leave all devices where single cycles would |
| Cycles.SyncedByCycle | src/timer.c:169-247 | every counter, in every synchronisation mode and with every clock source, ends where a cycle-by-cycle account of that mode takes it: paused inside blanking, counting through and restarted, counting inside only and restarted, or waiting for the first blanking |
| IrqAccount.VblankTotal | src/main.c:577-581 | over any slices within the blanking edges the vertical blanking interrupt is asserted exactly as often as line 240 begins |
| IrqAccount.SerialTotal | src/sio.c:623-641 | the serial interrupt is asserted in a run exactly if it is pending at its end |
| IrqAccount.CounterGainsAlike | src/timer.c:114-142 | any two slicings of a total within the blanking edges make a counter assert as many interrupts and hit its target as often |
| IrqAccount.FreeCounterGain | src/timer.c:114-167 | an unsynchronised counter asserts and hits what one undivided run of its ticks would |
| IrqAccount.EventsCount | src/scheduler.c:41-72 | the scheduler asserts exactly the interrupts of the timer and sound events that are due, once each |
| IrqAccount.CountsMean | src/main.c:566-593 | the account of a run, source by source, with nothing asserted besides |
| IrqAccount.LineUp | src/irq.c:1-60 | a line is up afterwards exactly if it was before or its source has asserted it |
| CdRuns.RunGood | src/cdrom.c:231-265 | in every reachable state the queue has at most four events, the scheduler event is armed if and only if it is non-empty, a deferred command implies an unacknowledged interrupt, and sectors came in order |
| CdRuns.NoContinuationLost | src/cdrom.c:1010-1154 | handling an event removes it and appends exactly its continuation, at most one |
| CdRuns.DeliveryNeedsSilence | src/cdrom.c:935-1004 | the data FIFO is reloaded, and INT1 raised, only by a sector delivery, with nothing unacknowledged and nothing deferred; the FIFO then holds exactly the sector under the head |
| CdRuns.PartialAcknowledge | src/cdrom.c:886-888 | an acknowledge of part of INT3 leaves the flag at 1 with no sector delivered |
| CdReading.ReadingContinues | src/cdrom.c:1127-1147 | no event, register access or command other than those that read, seek, stop, pause or initialise stops the motor, moves the head, or drops or duplicates the next-sector event |
| CdReading.CommandKeepsReading | src/cdrom.c:672-745 | such a command only adds its acknowledge |
| CdReading.ReadingRuns | src/cdrom.c:935-1004 | over every run of such inputs, however long acknowledges are delayed, the history grows by consecutive sectors from the head on and the drive is still reading |
| CdRuns.DeferredSurvives | src/cdrom.c:747-761 | a deferred command stays as it is until a command is written or it is released |
| CdRuns.DeferredRunsOnce | src/cdrom.c:747-776 | the acknowledge that clears the flag runs the most recently deferred command exactly once, with exactly its own parameters, even if the same write resets the parameter FIFO |
| CdRuns.LaterParametersLostIff | src/cdrom.c:763-776 | parameters written after a deferral make no difference if and only if the acknowledge releases the command or resets the FIFO |
| CdRuns.LaterParameterLost | src/cdrom.c:763-776 | one written just before the releasing acknowledge leaves no trace |
| CdRuns.AcknowledgeQueuedIff | src/cdrom.c:231-265 | a command's acknowledge is queued exactly when the queue has room or the command empties it; otherwise it is dropped |
| CdRuns.FifthCommandLost | src/cdrom.c:231-238 | five commands in a row, and the fifth is never acknowledged |
| CdAddressing.MsfRoundTrip | src/disc.c:8-27 | the address of a sector's time on the disc is that sector, for all of them |
| CdAddressing.ReadsWhatWasAsked | src/cdrom.c:534-620 | a program writes the three bytes of a sector's time, sets the location, does what it likes that asks for no other, and reads or plays, at once or deferred: the head moves to that sector, and the first delivery before another move is that sector |
| CdAddressing.DeliveredBytes | src/cdrom.c:960-990 | a delivery loads the 2048 bytes of user data, or the 2340 after the sync pattern in whole-sector mode, byte by byte |
| CdAddressing.StatBits | src/cdrom.c:60-75 | the bits of the status byte |
| CdAddressing.SectorsPerSecond | src/cdrom.c:985-1004 | 75 sectors a second, 150 at double speed, to the cycle |
| CdAddressing.SeekGrows | src/cdrom.c:548-570 | how a seek's length grows with the distance, sector by sector |
| CdAddressing.FirstSectorTime | src/cdrom.c:597-620 | from the acknowledge of a read to its first sector: the seek and one sector's time |
| CdAddressing.IdentityText | src/cdrom.c:1072-1094 | what a disc says of itself |
| CdAddressing.AndNotBits | src/cdrom.c:886-888 | an acknowledge clears exactly the bits written |
| CdAddressing.OverlapBits | src/cdrom.c:268-275 | an interrupt reaches the line exactly if one of its bits is enabled |
| CdRom.EventRing.Push | src/cdrom.c:231-238 | adds at the end of the queue, or drops when full; tail stays (head + count) mod 4 |
| CdRom.EventRing.Pop | src/cdrom.c:240-248 | removes the oldest event |
| CdRom.Cdrom.QueueEvent | src/cdrom.c:257-265 | enqueues and arms the scheduler exactly when the queue was empty |
| CdRom.Cdrom.ExecuteCommand | src/cdrom.c:672-745 | the command methods carry out the specified reaction, state and scheduler |
| CdRom.Cdrom.WriteCommand | src/cdrom.c:747-761 | a command executes at once or is deferred with its parameters |
| CdRom.Cdrom.WriteIrqFlag | src/cdrom.c:863-896 | acknowledges, optionally drops parameters, releases a deferred command, lowers the line when the flag is clear |
| CdRom.Cdrom.WriteParam | src/cdrom.c:863-866 | adds a parameter, unless 16 are waiting |
| CdRom.Cdrom.ReadResponse | src/cdrom.c:816-820 | response bytes in order, then 0 |
| CdRom.Cdrom.ReadDataByte | src/cdrom.c:821-825 | data bytes in order, then 0 |
| CdRom.Cdrom.Deliver | src/cdrom.c:935-1004 | hands over one sector or keeps waiting, exactly as specified |
| CdRom.Cdrom.PerformEvent | src/cdrom.c:1010-1148 | every phase of the event handler |
| CdRom.Cdrom.OnSchedulerEvent | src/cdrom.c:1010-1154 | takes one event, performs it and re-arms for the next |
| MemoryCard.TracksStep | src/sio.c:358-455 | after every byte the card's registers stand for exactly the bytes received since position 0 |
| MemoryCard.BitsOfXorAndOr | src/sio.c:375-421 | exclusive and inclusive or, bit by bit |
| MemoryCard.ChecksumCloses | src/sio.c:375-421 | bytes followed by their checksum sum to zero |
| MemoryCard.ChecksumCatches | src/sio.c:375-421 | changing one byte always changes the checksum |
| MemoryCard.CorruptedWrite | src/sio.c:416-440 | a good write with any one byte of sector number, data or checksum changed is no good |
| MemoryCard.MemoryChangesOnlySo | src/sio.c:422-451 | memory changes if and only if position 137 of a 0x57 transaction is reached with a good checksum and an existing sector; the reply says whether it was saved |
| MemoryCard.SplicedSectors | src/sio.c:436-438 | the written sector then holds exactly the bytes sent and every other sector is unchanged |
| MemoryCard.AfterTracks | src/sio.c:358-455 | the same over a whole transaction |
| MemoryCard.AfterMemory | src/sio.c:358-455 | the memory after any transaction is a function of the bytes sent alone |
| MemoryCard.ReadReturnsSector | src/sio.c:386-413 | a 0x52 transaction returns the 128 bytes of the addressed sector, their checksum with the address, and 0x47 |
| MemoryCard.WriteReplies | src/sio.c:416-451 | a 0x57 transaction echoes each byte one later, acknowledges, and ends in 0x47 exactly when the write was good and saved, otherwise in 0x4E |
| MemoryCard.WriteThenRead | src/sio.c:358-455 | what one transaction writes, a later read of that sector returns; other sectors read as before |
| SerialPort.ApplyGood | src/sio.c:479-532 | every port operation keeps card and history in step, and only a completed write changes memory |
| SerialPort.AcknowledgeOnTime | src/sio.c:623-641 | the interrupt for an acknowledged byte comes exactly one byte time later, however the time is cut up |
| SerialPort.ControlGood | src/sio.c:560-614 | select, deselect, acknowledge and reset never touch memory and leave a deselected card at position 0 |
| SerialPort.StatusBits | src/sio.c:207-230 | the bits of the status register |
| SerialPort.EightBits | src/sio.c:193-205 | the time of a byte: eight bits of the baud register's cycles, 16 or 64 times as long in modes 2 and 3 |
| SerialPort.MemoryIsLastWrite | src/sio.c:457-614 | over every run each sector holds the data of the last completed write to it, or its initial contents |
| PortSessions.TurnAnswers | src/sio.c:457-532 | during a transaction each byte sent reaches the card, and the byte fetched is the card's answer to it, whatever the program polls or waits for in between |
| PortSessions.LastByteNotAcknowledged | src/sio.c:479-526 | the card acknowledges every byte of a read or a write but the last |
| PortSessions.ReadFetchesSector | src/sio.c:386-532 | a program that selects the first slot and sends a read byte by byte fetches the sector, its checksum and the success byte |
| PortSessions.ReadFetchesLastWrite | src/sio.c:386-614 | after any run of port operations that leaves the port deselected with a card present, such a read fetches what the last completed write put in the sector, or what was there at first |
| PortSessions.WriteStoresSector | src/sio.c:416-532 | a write through the port changes memory exactly if it is good, and the last reply says whether it was good and saved |
| PortSessions.CorruptedWriteRefused | src/sio.c:416-532 | with one byte corrupted on the way the card answers 0x4E and keeps its memory |
| SioDevice.CardDevice.Response | src/sio.c:358-455 | the card's method is the specified reply and state |
| SioDevice.CardDevice.CopySector | src/sio.c:436-438 | copies the staged bytes over exactly one sector |
| SioDevice.Sio.StoreTransmit | src/sio.c:479-526 | the transmit register: addressing, delivery to the card unless the receive buffer is full, reply queued, acknowledge scheduled within the protocol |
| SioDevice.Sio.LoadReceive | src/sio.c:457-471 | the receive register reads the buffer in order and gives 0xFF when it is empty |
| SioDevice.Sio.StoreControl | src/sio.c:567-606 | the control register, with the interrupt and its countdown |
| SioDevice.Sio.LoadStatus | src/sio.c:540-546 | the status bits, and the acknowledge line dropped by reading them |
| SioDevice.Sio.Step | src/sio.c:623-641 | time counts down to the interrupt, and the line is held while it is pending |
| SioDevice.Sio.ResetTransaction | src/sio.c:175-191 | what a reset clears |
| SioDevice.Sio.EjectCard | src/sio.c:350-356 | ejecting ends the transaction and keeps the memory |
| DmaLists.WalkUnique | src/interconnect.c:522-564 | one memory and one start give exactly one walk |
| DmaLists.VisitOne | src/interconnect.c:536-561 | one more header extends the walk, which never outgrows memory |
| DmaLists.WalkFits | src/interconnect.c:536-545 | distinct headers cannot outnumber the words of memory, so the walk stops |
| DmaLists.HeaderFields | src/interconnect.c:547-561 | count, end mark and next address of a header |
| DmaLists.LaidOutListSends | src/interconnect.c:522-564 | a transfer of a display list, wherever its packets lie in memory, sends exactly their words in the order of the list |
| DmaLists.ClearChangesExactly | src/interconnect.c:440-520 | a decrementing clear of n words changes exactly those n words into a chain that ends in the terminator, for every base, aligned or not |
| DmaLists.IncrementingClear | src/interconnect.c:440-520 | an incrementing clear of n words changes exactly those n words upwards from the base |
| DmaLists.ClearedTableSends | src/interconnect.c:440-564 | whatever walk a transfer makes of a cleared table is that one |
| DmaLists.ClearedTableWalk | src/interconnect.c:440-564 | the walk of a cleared table visits its n entries from the base down, sends nothing and ends at the terminator |
| Dma.DmaEngine.Walk | src/interconnect.c:522-564 | terminates for every memory, cyclic or not, having sent exactly the packets of the distinct headers in link order |
| Dma.DmaEngine.SendPacket | src/interconnect.c:549-556 | sends the words after a header in order, wrapping at the end of memory |
| Dma.DmaEngine.LinkedListTransfer | src/interconnect.c:522-564 | the same for a channel, with the refused directions and ports, and the word count |
| Dma.DmaEngine.ClearTable | src/interconnect.c:440-520 | the ordering-table path of the block transfer, any step and any length, and the word count |
| Dma.DmaEngine.ClearThenSend | src/interconnect.c:440-564 | clearing a table and sending it as a list visits every entry once, sends nothing and counts n words |
| MdecMeaning.PlaceIsPermutation | src/mdec.c:19-96 | each order of arrival is a permutation of the 64 places |
| MdecMeaning.ArrivalsIncrease | src/mdec.c:318-425 | coefficient numbers increase within a block, so none is set twice |
| MdecMeaning.LaterMeans | src/mdec.c:355-414 | a coefficient's value without division: exact at scale 0, an eighth of the product to the nearest whole for luminance, twice it less 8 to 22 and 8 off a multiple of 16 for colour, limited only beyond the range |
| MdecMeaning.FirstMeans | src/mdec.c:318-384 | the same for the first coefficient |
| MdecMeaning.MeaningUnique | src/mdec.c:318-414 | only one value has that meaning |
| MdecMeaning.BlockMeaning | src/mdec.c:318-425 | a decoded block holds, in the place of each arrival's number, the one value that its level, the table and the scale stand for, to the nearest unit for luminance and within 22 of the product for colour, and zero everywhere else |
| MdecEncoding.EncodedBlockDecodes | src/mdec.c:318-425 | every block that can be written in the run-length code is read back: exactly its halfwords are taken, each written level has its meaning in its place and all other coefficients are zero |
| MdecParse.MoreInputKeepsBlock | src/mdec.c:318-366 | a block decoded without knowing that the input was complete is decoded alike from any longer input |
| MdecParse.MoreInputKeepsUnit | src/mdec.c:631-666 | the same for a whole macroblock of six blocks |
| MdecParse.AvailableSplits | src/mdec.c:631-683 | decoding what has come and going on from what is left equals decoding it all at once |
| MdecStream.StreamPartWay | src/mdec.c:792-815 | part way through a command the buffer holds exactly the words not yet decoded and none was refused for capacity |
| MdecStream.StreamingIsBatch | src/mdec.c:631-815 | word-by-word decoding with compaction yields the units of one decode of the whole parameter stream, for every stream and depth |
| MdecStream.CommandIsBatch | src/mdec.c:713-815 | the same from the command word on, for every length, leaving decoder and tables as they were |
| MdecStream.BlockTakesTwo | src/mdec.c:318-366 | a block takes at least two halfwords unless the input ends inside it |
| MdecStream.MonoFitsRing | src/mdec.c:203-211 | no luminance-only command can fill an empty output ring |
| MdecTables.CommandFields | src/mdec.c:713-745 | the fields of a command word |
| MdecTables.QuantTablesLoaded | src/mdec.c:259-275 | after a table command each entry is the byte that was sent for it, and the second table changes only if it was sent |
| MdecTables.ScaleTableLoaded | src/mdec.c:276-290 | each entry of the scale table is the signed halfword that was sent for it |
| MdecTables.PixelBytesMean | src/mdec.c:565-629 | the bytes of a colour pixel put together are its value, lowest byte first, with bit 15 as commanded |
| MdecTables.MonoBytesMean | src/mdec.c:480-508 | four-bit pixels go two to a byte, low half first, eight-bit pixels one to a byte |
| MdecOutput.OutputRing.Push | src/mdec.c:203-211 | adds at the end of the queue across wrap-around, or drops when full |
| MdecOutput.OutputRing.Pop | src/mdec.c:817-830 | removes the oldest word across wrap-around |
| MdecOutput.NothingLostIffRoom | src/mdec.c:203-211 | output is lost exactly when it does not fit |
| MdecOutput.UnpackedIsInverse | src/mdec.c:852-860 | taking words apart undoes putting bytes together |
| MdecOutput.RasterOfSource | src/mdec.c:862-877 | the reordering loses no pixel |
| MdecOutput.SourceOfRaster | src/mdec.c:862-877 | the reordering repeats no pixel |
| MdecOutput.StagedRendered | src/mdec.c:837-886 | the words DMA makes of a whole command's output are its macroblocks in raster order, with no word left over |
| MdecOutput.StagedIsRaster | src/mdec.c:837-886 | the words DMA reads are those of the pixels in raster order, 128 or 192 of them |
| MdecDevice.Mdec.DecodeBlock | src/mdec.c:318-459 | the decoding loop finds exactly the specified block and the place where the input goes on, or that it is incomplete |
| MdecDevice.Mdec.DecodeUnit | src/mdec.c:631-666 | a unit is decoded whole or nothing is consumed |
| MdecDevice.Mdec.DecodeNow | src/mdec.c:631-683 | decodes all that is there, presents it in order and compacts the buffer to exactly the rest |
| MdecDevice.Mdec.OutputColour | src/mdec.c:565-629 | a macroblock's bytes are packed in order into whole words without padding |
| MdecDevice.Mdec.PushPacked | src/mdec.c:480-508 | a luminance block's bytes are packed in order |
| MdecDevice.Mdec.FinishCommand | src/mdec.c:685-711 | final decode, or quantisation and scale tables |
| MdecDevice.Mdec.Write | src/mdec.c:792-815 | one word to the command port |
| MdecDevice.Mdec.WriteStream | src/mdec.c:631-815 | after all parameter words the output ring has gained what one decode of the whole stream presents, as far as it has room |
| MdecDevice.Mdec.CpuRead | src/mdec.c:817-835 | reads are first in, first out, and 0 when there is nothing; taking the last word delays the empty status by one read |
| MdecDevice.Mdec.OutputEmpty | src/mdec.c:746-766 | the status bit for no output and the delay it uses up |
| MdecDevice.Mdec.StageMacroblock | src/mdec.c:837-886 | a macroblock is staged if and only if all of its words are there, and then exactly they leave the ring |
| MdecDevice.Mdec.DmaRead | src/mdec.c:888-900 | each DMA read takes the first of the words still to come, which are those staged and then the whole macroblocks of the ring in raster order; when there are none it gives 0 and leaves an incomplete macroblock alone |
| MdecDevice.Mdec.ReadStream | src/mdec.c:888-900 | a DMA transfer out takes exactly the next n of them, in order |
| MdecDevice.Mdec.StreamThenRead | src/mdec.c:792-900 | a colour command streamed in and read out gives the raster words of all macroblocks of one decode of the whole stream, in order, and leaves the ring and the staging buffer empty |
| GteDivide.SeedFits | src/gte.c:302-334 | every table entry serves every divisor of its interval to within 65279 parts in 2^24 |
| GteDivide.SeedIsNearest | src/gte.c:302-334 | every table entry but the last is 2^17 over its index, to the nearest whole; the last is the least an entry can be |
| GteDivide.NewtonIdentity | src/gte.c:349-352 | the corrected reciprocal is exact up to the square of the seed's error and two roundings |
| GteDivide.ReciprocalIsAccurate | src/gte.c:349-352 | divisor times reciprocal is 2^32 within two parts in 2^16 |
| GteDivide.ReciprocalFits | src/gte.c:352-353 | the reciprocal fits in 18 bits, so no product overflows |
| GteDivide.DivideIsAccurate | src/gte.c:300-357 | for all 16-bit inputs the result is at most 0x1FFFF; below the cap it is within half a unit and two parts in 2^16 of h*65536/sz, so exceeds it by less than 3 and falls short by less than 4.5; from a quotient of 2 on it is the cap |
| GteDivide.CommentHoldsIff | src/gte.c:299-357 | exactly the inputs for which the routine gives what its comment promises |
| GteDivide.BelowOne | src/gte.c:299-357 | for quotients between 0 and 1 that is one input |
| GteDivide.RoundsToCapOnlyAbove | src/gte.c:349-356 | no divisor below 18700 rounds up far enough |
| GteDivide.SomeRoundToCap | src/gte.c:349-356 | of two neighbouring divisors just below a quotient of 2 one rounds up far enough and the other does not |
| GteDivide.Normalise | src/gte.c:341-347 | the loop ends with a divisor in 0x8000 to 0xFFFF and both operands scaled alike |
| GteDivide.Divide | src/gte.c:300-357 | the routine computes the specified quotient |

## Left out

- GpuClock.VideoClock.Step: the video mode is fixed during a step and the clock starts normalised; a switch between PAL and NTSC can leave the phase beyond the new target, where the subtraction at src/gpu.c:2336 wraps.
- SystemClock.Machine.Advance: the 64-bit cycle counter is unbounded, and of the work done on fired events only the CD-ROM callback is modelled; finishing DMA channels, the sound unit and input polling are not. The processor's accesses come between calls.
- Coverage.QuadPartition: stated for convex quads with neither half culled, the only case in which the source intends a partition.
- CdRom.Cdrom.ExecuteCommand: the response bytes of GetTN, GetTD, GetlocL and GetlocP and of the table of contents are inputs; CD-XA and CD-DA audio are not modelled.
- SioDevice.Sio.StoreTransmit: the controller's replies, their length, its configuration mode and the outcome of saving the card image are inputs.
- Dma.DmaEngine.Walk: the visited bitmap is one flag per word rather than eight per byte, and the GPU is the sequence of words it receives.
- Dma.DmaEngine.ClearTable: the other ports of the block transfer, their cycle cost and the completion interrupt are not modelled.
- MdecDevice.Mdec.DecodeBlock: the two decoding routines share one method with a kind parameter, since they differ only in how a value and its place are computed.
- MdecDevice.Mdec.OutputColour: the inverse transform and the colour conversion are a parameter that gives each pixel a number; their numeric accuracy has no reference in this repository. The three nested loops over block, row and column are one loop over pixels.
- MdecDevice.Mdec.OutputEmpty: the other bits of the status register are plain copies of fields and are not modelled.
- VramDevice.TransferPort.Upload: GP0 words that arrive during a download, and the decoding of other commands, are not modelled.
- Timer.TimerUnit.StoreMode: the counter and target registers' read and write paths are plain assignments and add nothing.
- Texture fetch, texture windows and the colour-table cache: only the colour of textured triangles is modelled.
- Rectangles, solid fills and polylines: they repeat the pixel and line operations modelled here.
- The remaining geometry commands, the processor, the bus map, sound, the disc image reader, windows and files: wide rather than deep.
