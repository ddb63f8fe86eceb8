# Verified model of the TSN transmit path

The repository drives a network card for time-sensitive networking: a kernel driver for an XDMA-based
card, a user-space sample application for it, and a Rust library that sets up VLANs and traffic classes.
This project models the parts whose correctness is hardest to see from the code, and proves what they
are for. `dafny verify dfyconfig.toml` checks everything.

| modules | what they model |
|---|---|
| `Schedule`, `Requested`, `Planner`, `Windows` | the gate schedule of each traffic class as the kernel asks for it, the compressed form that the driver bakes from it, and the transmission windows it plans for a frame (section 8.6.8.4 of IEEE 802.1Q) |
| `Shaper`, `Bandwidth`, `CreditWidth` | the credit-based shaper (section 8.6.8.2 of IEEE 802.1Q), exactly when its bandwidth bound holds, and exactly when its 32-bit credit is the unbounded one |
| `Tracker`, `Admission`, `HardwareQueue`, `LinkClock`, `TsnDriver` | the count of packets inside the hardware queue, admission as a state machine over any run of configuration and frames, what the hardware holds and how long the link is busy over such a run, and the driver's state that follows it |
| `GateMask` | the encoding of a schedule into gate masks, and its decoding |
| `Request`, `DescriptorRing`, `Transfers`, `Prefetch`, `Submit`, `Copying`, `InFlight`, `TransferQueue`, `HardwareRun`, `Delivery` | scatter-gather requests: splitting, placing in the descriptor ring, fetching and copying by the hardware, submission, many in flight, completion over a run of the hardware |
| `QuickSort`, `BufferPool` | the pool of packet buffers, told apart by address |
| `VlanTable` | sharing a VLAN between processes that may crash |
| `Checksum`, `UserPages`, `Ticks` | two Internet checksums, the page split of a user buffer, 29-bit deadlines |
| `Arithmetic`, `Lists`, `Errors` | what the others share |

Where the source updates fields, arrays or tables in place, the model has a class or a method over an
array, proved against a function on values; what the code is for is then proved about those functions,
for all inputs and all runs. Hardware registers, clocks, results of kernel calls and of external
commands are parameters.

What the proofs show about the code beyond its intent:

- The windows come out in order for every frame exactly when every open stretch of the baked list has
  room for it (`Windows.OrderedIffFits`). A class that is closed at both ends of the cycle and open in
  between gets an empty *open* padding slot (tsn.c:252-255), which never has room.
- The planner is the earliest possible only for classes whose first and last gates differ
  (`Windows.EarliestIffNoWrap`); a frame that could run over the end of the cycle waits.
- A lower credit bound that is deep enough for the longest frame suffices for the shaper's bandwidth bound
  (`Shaper.BandwidthBound`), but is not necessary: exactly when the bound holds is
  `Bandwidth.EthernetBoundedIffTight`, and depends on how the slopes divide the range of the credit. Above minus
  the idle slope the shaper holds nothing back (`Shaper.ShallowNeverWaits`).
- `tsn_set_qav` takes any request. One that switches on a shaper with an idle slope below 1000, and a lower bound so
  low that credit can stay negative, leads to a division by zero or to frames that are refused as invalid; exactly
  which requests do not is `Admission.SensibleExact`. The library sends such a request for a class with little traffic
  (`Admission.SlowClassTraps`); the all-zero one that it sends for a class without streams is harmless. Nothing is
  asked of a shaper's running credit, so reconfiguring a busy shaper is harmless too.
- Credit is converted to 32 bits before it is cut at its upper bound. With half of a 1 Gbit/s link reserved that
  overflows after a silence of 4.3 ms (`CreditWidth.LongSilenceLosesCredit`); exactly when it does not is
  `CreditWidth.RunAgreesExactly`.
- The hardware queue never overflows, and the 32-bit counters never wrap around unseen, as long as the hardware
  finishes no more packets than it was given (`HardwareQueue.QueueNeverOverflows`).
- `xdma_xfer_submit_nowait` has two transfer records per request and does not check that they suffice;
  exactly when they do is `Submit.TwoTransfersSuffice`. Nor does the driver check `desc_used`; exactly when a
  request leaves what is in flight alone is `InFlight.FitsExactly`.
- While an engine stays busy, its service calls settle transfers rightly only if every count they read stands at the end
  of a transfer and goes beyond the one before (`HardwareRun.RunExact`). A repeated count fails the next transfer
  (`HardwareRun.RepeatFailsNext`) or, inside a transfer, completes everything that is queued
  (`HardwareRun.WrapCompletesRest`).
- The driver takes the credit bounds of a shaper as bits (`Bandwidth.RequestedRate`), as the library computes them.
- The driver reads eight bits of a gate mask. A ninth traffic class is numbered by the library but has no bit
  (`GateMask.NinthClassIsLost`), and listing a priority twice turns its gate into a carry, unless the carry leaves
  the eight bits (`GateMask.ThreeTimesTheLast`); exactly when a slice comes out right is `GateMask.SliceRoundTrip`.
- `xdma_init_request` rounds in 32 bits; an entry whose rounding overflows gets too little space, which slack from
  other entries may cover (`Request.AllReservedSuffices`).
- A failed `create` command leaves the VLAN unusable for good (`VlanTable.StuckForever`), and a process
  that opens a socket while the table is full is not recorded (`VlanTable.StepExact`).
- The two checksums put an odd last byte into different halves of a word, so they agree on odd lengths
  only if that byte is zero (`Checksum.ChecksumsAgree`); `cksum` is then the right one
  (`Checksum.InternetChecksum`).
- A deadline a few ticks behind the clock is rebuilt one block of 2^29 ticks late when the clock has
  just entered a new block (`Ticks.BehindWithinMargin`).

## Model

| member | source | states |
|---|---|---|
| `Schedule.BakingPreservesGates` | driver/XDMA/linux-kernel/xdma/tsn.c:226-257 | for every class and every instant of the cycle the run-length-encoded, padded list and the configured slots agree on open or closed, and the durations add up to the same cycle |
| `Schedule.BakedShape` | driver/XDMA/linux-kernel/xdma/tsn.c:226-257 | the baked list has even length, alternates, has only its last slot possibly empty, and never exceeds the 20-entry array; it ends in an empty slot exactly when the first and last configured gates agree |
| `Schedule.CompressMeaning` | driver/XDMA/linux-kernel/xdma/tsn.c:232-247 | merging equal neighbours changes neither the length of the cycle nor any gate |
| `Schedule.ConstantGate` | driver/XDMA/linux-kernel/xdma/tsn.c:345-346 | a single run remains exactly when the gate never changes, which is what the always-open test relies on |
| `TsnDriver.TsnConfig.BakeQosConfig` | driver/XDMA/linux-kernel/xdma/tsn.c:197-258 | the in-place tables hold, for every class, the encoding of the configured schedule, and `cycle_ns` is its length; with nothing configured a schedule is put in place first with which every class may send at every instant |
| `TsnDriver.TsnConfig.AddToRow` | driver/XDMA/linux-kernel/xdma/tsn.c:235-246 | one slot extends or follows the last run of its class and touches no other class |
| `TsnDriver.RunsMeaning` | driver/XDMA/linux-kernel/xdma/tsn.c:221-257 | the table row of a class is the baked form of that class's view of the schedule |
| `TsnDriver.RunsNext` | driver/XDMA/linux-kernel/xdma/tsn.c:232-247 | taking in one more slot is one step of the encoding, and the row still fits its array |
| `TsnDriver.TsnConfig.RowMeaning` | driver/XDMA/linux-kernel/xdma/tsn.c:221-257 | every row is well formed and sums to `cycle_ns` |
| `TsnDriver.TsnConfig.InitConfigs` | driver/XDMA/linux-kernel/xdma/tsn.c:168-195 | start-up leaves a baked schedule with which every class may send at every instant |
| `TsnDriver.TsnConfig.SetQbv` | driver/XDMA/linux-kernel/xdma/tsn.c:510-555 | too many entries and unknown commands are refused with nothing changed; a requested schedule is in force and baked, with which each class may send exactly at the instants at which the request's masks and intervals let it; switching off opens everything only if no shaper is on; the whole new state is that of one step of the admission machine, and a schedule the kernel lets through keeps a sound driver sound |
| `TsnDriver.TsnConfig.SetQav` | driver/XDMA/linux-kernel/xdma/tsn.c:492-508 | an unknown queue is refused with nothing changed; otherwise exactly one class's shaper gets the values scaled in 32 bits and keeps its running credit and times, everything is baked, and the whole new state is that of one step of the admission machine, whatever the request; a sensible one keeps a sound driver sound, whatever the running credit is |
| `Requested.OpensAsAsked` | driver/XDMA/linux-kernel/xdma/tsn.c:537-549 | at every instant, past or future, a class's gate in the decoded schedule is the bit of the class in the request's entry whose interval covers that instant of the cycle |
| `TsnDriver.DefaultNeverCloses` | driver/XDMA/linux-kernel/xdma/tsn.c:211-217 | the schedule put in place without a configuration opens every class at every instant |
| `TsnDriver.SentAsAsked` | driver/XDMA/linux-kernel/xdma/tsn.c:73-166 | with a requested schedule in force, a frame that starts anywhere in the windows written for it is on the wire, from its first bit to its last, only while the request opens its class |
| `Planner.CurrentSlot` | driver/XDMA/linux-kernel/xdma/tsn.c:360-363 | the walk stops inside the list, in the first slot whose end is not before the position |
| `Planner.ChooseSlot` | driver/XDMA/linux-kernel/xdma/tsn.c:365-384 | the chosen slot and its beginning are those of the repeated list: the current slot if open with room, otherwise the next open one |
| `Planner.FindWindows` | driver/XDMA/linux-kernel/xdma/tsn.c:360-404 | the wrap-around walk computes the windows of the endlessly repeated list, in 64-bit unsigned arithmetic |
| `Planner.GetWindows` | driver/XDMA/linux-kernel/xdma/tsn.c:338-404 | the imperative planner returns the 64-bit plan, including the always-open and never-open cases |
| `Planner.OpenInSlot` | driver/XDMA/linux-kernel/xdma/tsn.c:341-384 | during slot i of the repeated list the gate of the periodic schedule is that slot's gate |
| `Planner.PhaseExact` | driver/XDMA/linux-kernel/xdma/tsn.c:341 | the 64-bit position in the cycle is right exactly from the schedule's start on, or if the cycle divides 2^64 |
| `Planner.WidthSuffices` | driver/XDMA/linux-kernel/xdma/tsn.c:341-404 | the 64-bit plan is the plan without a width whenever the frame is ready no earlier than it takes to send it and than it is into the cycle, and three more cycles stay below 2^64 |
| `Windows.OpenAgrees` | driver/XDMA/linux-kernel/xdma/tsn.c:221-257 | at every instant, past or future, baked and configured schedule agree |
| `Windows.WindowsAreSound` | driver/XDMA/linux-kernel/xdma/tsn.c:341-404 | every start in a window or retry window keeps the whole frame inside open time of the configured schedule |
| `Windows.WindowsAreExact` | driver/XDMA/linux-kernel/xdma/tsn.c:341-404 | when first and last gates differ, the feasible starts up to the end of the retry window are exactly those in the two windows |
| `Windows.OrderedIffFits` | driver/XDMA/linux-kernel/xdma/tsn.c:338-404 | from <= window from <= to < delay_from <= delay_to for every ready time exactly when every open stretch of the baked list has room for the frame |
| `Windows.EarliestIffNoWrap` | driver/XDMA/linux-kernel/xdma/tsn.c:341-400 | the planner always picks the earliest feasible start exactly when first and last gates differ |
| `Windows.LateAtTheWrap` | driver/XDMA/linux-kernel/xdma/tsn.c:365-384 | a frame ready in the last nanosecond of a cycle that ends and begins open could start at once but waits for the next cycle |
| `Windows.ConstantGates` | driver/XDMA/linux-kernel/xdma/tsn.c:345-358 | no window is planned exactly when the gate never opens; a gate that never closes gets the marker |
| `Windows.NeverClosedIsMarked` | driver/XDMA/linux-kernel/xdma/tsn.c:346-357 | for a gate that never closes the 64-bit plan is the ready time and the time before it |
| `Windows.NarrowWindowsAreSound` | driver/XDMA/linux-kernel/xdma/tsn.c:341-404 | the windows that the driver computes in 64 bits keep the whole frame inside open time, too |
| `Windows.MarkerIffAlwaysOpen` | driver/XDMA/linux-kernel/xdma/tsn.c:134-138 | for a frame that fits, `to` equals the always-open marker only for a gate that never closes |
| `TsnDriver.TsnConfig.GetTimestamps` | driver/XDMA/linux-kernel/xdma/tsn.c:316-424 | on the driver's state the result is the 64-bit plan for the class's configured schedule; without a schedule, or while no gate ever closes, the frame may be sent from the time on at which it is ready, with the always-open marker |
| `Shaper.QavState.SpendCredit` | driver/XDMA/linux-kernel/xdma/tsn.c:266-304 | the new shaper state is that of the value-level step for any slopes, including the refusal of an early start; it divides by zero exactly where the step says so |
| `Shaper.RecoveredAtRelease` | driver/XDMA/linux-kernel/xdma/tsn.c:296-303 | at the release time the earned credit is above minus the idle slope, and one nanosecond earlier it was not |
| `Shaper.SpendKeepsValid` | driver/XDMA/linux-kernel/xdma/tsn.c:276-303 | an accepted frame keeps credit within its bounds and the release time consistent, at or after the end of the frame |
| `Shaper.SpendFromSound` | driver/XDMA/linux-kernel/xdma/tsn.c:266-304 | from any releasable configuration and any credit at all, such as that of a shaper whose bounds were changed while it ran, an accepted frame does not divide by zero and leads to a state that is released no earlier than the frame ends; with sensible bounds, one that obeys them |
| `Shaper.ReleasableExact` | driver/XDMA/linux-kernel/xdma/tsn.c:266-304 | from every state and for every frame charging does not divide by zero and releases no earlier than the frame ends, if and only if the idle slope is positive, or the lower bound is not negative, or the slope is negative and the lower bound above it |
| `Shaper.CreditConservation` | driver/XDMA/linux-kernel/xdma/tsn.c:282-303 | over every accepted run credit is conserved: gaps earn, sending costs, and the two clamps account for the rest |
| `CreditWidth.WidthKeepsSound` | driver/XDMA/linux-kernel/xdma/tsn.c:282-303 | whatever conversions to 32 bits give, a sound shaper stays sound and releases no frame before it ends |
| `CreditWidth.AgreesExactly` | driver/XDMA/linux-kernel/xdma/tsn.c:282-294 | whatever a conversion to 32 bits gives for a number that does not fit, the driver's credits before and after a frame are the unbounded ones exactly when both numbers fit |
| `CreditWidth.RunAgreesExactly` | driver/XDMA/linux-kernel/xdma/tsn.c:266-304 | the same over every accepted run: the 32-bit run is the unbounded one throughout exactly when every conversion fits |
| `CreditWidth.NarrowConservation` | driver/XDMA/linux-kernel/xdma/tsn.c:282-303 | over every run in which they fit, conservation of credit holds of the driver's 32-bit credit |
| `CreditWidth.ShortGapsFit` | driver/XDMA/linux-kernel/xdma/tsn.c:282-294 | they fit if every gap times the idle slope is at most 2^31 - 1 minus the upper bound, and the longest frame costs no more than the width leaves below the lower one |
| `CreditWidth.LongSilenceLosesCredit` | driver/XDMA/linux-kernel/xdma/tsn.c:282-294 | after a longer silence, where the conversion gives the smallest number, the next frame leaves its class at the lower bound instead of starting from the upper one |
| `Shaper.BandwidthBound` | driver/XDMA/linux-kernel/xdma/tsn.c:266-304 | over every accepted run a deep enough lower bound suffices for the cost of sending to be at most hi - lo plus what the gaps earned, also stated against elapsed time |
| `Shaper.DeepIffNeverForgives` | driver/XDMA/linux-kernel/xdma/tsn.c:292-294 | the lower clamp never bites, from any valid state, exactly when lo <= 1 - idle slope + longest x send slope |
| `Bandwidth.BoundedIffTight` | driver/XDMA/linux-kernel/xdma/tsn.c:266-304 | the bandwidth bound holds for all accepted runs from all valid states exactly when the overhang of the longest frame below lo, plus (hi - lo) mod g, is less than g, the greatest common divisor of the slopes per frame unit |
| `Bandwidth.EthernetBoundedIffTight` | driver/XDMA/linux-kernel/xdma/tsn.c:260-304 | the same for the frames that the driver charges, from 60 bytes to a given maximum |
| `Bandwidth.TightWithoutDeep` | driver/XDMA/linux-kernel/xdma/tsn.c:292-294 | a configuration whose clamp bites and whose bound holds all the same |
| `Bandwidth.DriverStaysBounded` | driver/XDMA/linux-kernel/xdma/tsn.c:73-304 | over every run of the driver that leaves a class's shaper alone, the frames charged to a tight configuration stay within the bound |
| `Bandwidth.RequestedRate` | driver/XDMA/linux-kernel/xdma/tsn.c:499-505 | in the units of the request: the bits sent over every accepted run are at most the range between the two credit bounds plus the reserved rate times the elapsed time, so the driver takes the bounds as bits |
| `Shaper.ShallowNeverWaits` | driver/XDMA/linux-kernel/xdma/tsn.c:292-303 | with a lower bound above minus the idle slope any number of frames is accepted back to back, and enough of them exceed the bound |
| `Shaper.StartsApart` | driver/XDMA/linux-kernel/xdma/tsn.c:276-303 | charged starts of one class are at least one frame duration apart |
| `TsnDriver.TsnConfig.Admit` | driver/XDMA/linux-kernel/xdma/tsn.c:106-126 | a frame is admitted exactly below its threshold; it is ready 30 microseconds after it came, when its class is released and, for best effort, when the link is free, whichever is last, and no later |
| `TsnDriver.TsnConfig.Charge` | driver/XDMA/linux-kernel/xdma/tsn.c:153-163 | charging moves the class's shaper, both clocks and the tracker by one frame and nothing else, or divides by zero exactly where the shaper's step says so |
| `TsnDriver.TsnConfig.FillMetadata` | driver/XDMA/linux-kernel/xdma/tsn.c:73-166 | a frame is admitted exactly below the threshold of its class of traffic; the whole new state, also of a refused frame, is that of one step of the admission machine; an admitted frame gets the windows of the configured schedule from the earliest time on at which it may be sent; a class from the ninth on reads past the shapers, and charging divides by zero exactly where that machine says so |
| `Admission.ReadyIsEarliest` | driver/XDMA/linux-kernel/xdma/tsn.c:102-126 | a frame is planned and charged at the earliest time that is at least 30 microseconds after it came, not before its class is released and, for best effort, not before the link is free |
| `LinkClock.ClocksCountBits` | driver/XDMA/linux-kernel/xdma/tsn.c:153-165 | over every run the clock of the link has moved by the bits of all frames sent, and each queue clock by those of its priority |
| `LinkClock.BestEffortWaitsForAll` | driver/XDMA/linux-kernel/xdma/tsn.c:112-125 | after every run a best-effort frame's window begins no earlier than all bits sent so far are through |
| `LinkClock.ChargedForItsBits` | driver/XDMA/linux-kernel/xdma/tsn.c:153-163 | a charged frame costs its class eight times its bytes, and 480 at least, at the earliest time at which it may be sent |
| `Admission.AdmissionIsAtomic` | driver/XDMA/linux-kernel/xdma/tsn.c:106-165 | an admitted frame takes its place and moves the clocks, a refused one on a scheduled class changes nothing, so the last check of the queue cannot fail there |
| `Admission.ChargedIsAccepted` | driver/XDMA/linux-kernel/xdma/tsn.c:276-280 | from a sound state every charged frame is one that its shaper accepts and that does not divide by zero |
| `Admission.RunIsSafe` | driver/XDMA/linux-kernel/xdma/tsn.c:73-555 | over every run of schedule changes, sensible shaper changes and frames, from any sound state, nothing divides by zero, the "Invalid timestamp" branch is never taken, the state stays sound and at most 128 packets are pending |
| `Admission.SensibleExact` | driver/XDMA/linux-kernel/xdma/tsn.c:266-304 | a request is sensible, which can be seen when it is made, if and only if from every sound state and before every sensible run it leads to no division by zero and no invalid frame |
| `Admission.SlowClassTraps` | src/cbs.rs:103-143 | with the values that the library asks for 500 kbit/s and frames of 512 bytes, the driver rounds the idle slope to zero and the first frame divides by it |
| `Admission.NegativeSlopeInvalid` | driver/XDMA/linux-kernel/xdma/tsn.c:492-508 | with a negative idle slope the first frame is released before it ends and the second is invalid |
| `Admission.ChargedApart` | driver/XDMA/linux-kernel/xdma/tsn.c:266-304 | over every such run the charged starts of a class are at least a frame duration apart, whatever is reconfigured in between |
| `Admission.ChargedIsAcceptedRun` | driver/XDMA/linux-kernel/xdma/tsn.c:73-304 | while a class's shaper is not reconfigured, its charged frames are an accepted run of it, so what holds of such runs holds of the driver |
| `Tracker.ReadIsExact` | driver/XDMA/linux-kernel/xdma/alinx_arch.c:78-137 | a read gives exact 64-bit totals exactly when no statistic advanced by 2^32 since the last one |
| `Tracker.SumsExactIffDense` | driver/XDMA/linux-kernel/xdma/alinx_arch.c:78-144 | over any history the totals are right after every read exactly when reads come often enough |
| `Tracker.TxCounters.GetTotalTxDropPackets` | driver/XDMA/linux-kernel/xdma/alinx_arch.c:95-144 | one call takes in the four drop counters and returns their sum |
| `Tracker.BufferTracker.Append` | driver/XDMA/linux-kernel/xdma/tsn.c:426-433 | a packet is added unless 128 are pending |
| `Tracker.BufferTracker.Update` | driver/XDMA/linux-kernel/xdma/tsn.c:435-450 | the counters are read only from 108 pending packets on, and at most what is pending is taken off |
| `Tracker.TrackerIsSafe` | driver/XDMA/linux-kernel/xdma/tsn.c:426-450 | over every run at most 128 packets are pending, and at least as many as the hardware still holds |
| `Tracker.TrackerIsExact` | driver/XDMA/linux-kernel/xdma/tsn.c:426-450 | while the hardware reports no more than it was given, pending is exact and the minimum never truncates |
| `Tracker.PolledTrackerIsExact` | driver/XDMA/linux-kernel/xdma/alinx_arch.c:78-144 | from the 32-bit registers to the pending count: over every run in which polls come in time the sums are the true totals and pending is safe, and exact if the hardware reports no more than it was given |
| `Tracker.SumsTrueIffInTime` | driver/XDMA/linux-kernel/xdma/alinx_arch.c:78-144 | over every run the sums are the true totals after every actual poll if and only if each statistic advances by less than 2^32 between polls |
| `Tracker.TruthfulIsInTime` | driver/XDMA/linux-kernel/xdma/tsn.c:426-450 | polls always come in time while the hardware finishes no more packets than it was given |
| `HardwareQueue.DriverRunIsTrackerRun` | driver/XDMA/linux-kernel/xdma/tsn.c:73-165 | every run of the driver is a run of the tracker: the same queue and the same sums |
| `HardwareQueue.QueueNeverOverflows` | driver/XDMA/linux-kernel/xdma/tsn.c:73-450 | over every run of the driver against hardware that finishes no more than it was given, what the hardware holds is at most what is pending, which is at most 128, and the sums are the true totals of the last poll |
| `HardwareQueue.RefusedExactlyWhenFull` | driver/XDMA/linux-kernel/xdma/tsn.c:106-126 | after every such run the next frame is refused exactly when the hardware then holds 108 packets or more for best effort, 126 for any other, 128 without a schedule |
| `GateMask.NumberClasses` | src/tas.rs:49-73 | classes are numbered without gap or repetition over the listed positive priorities and best effort, which comes last |
| `GateMask.NumberedInsert` | src/tas.rs:60-72 | giving a new priority the current size as its class keeps the numbering one-to-one onto 0..n-1 |
| `GateMask.SumMask` | src/tas.rs:91-93 | the mask is the sum of the shifted ones of the listed classes; it fails exactly when a priority has no class or the sum reaches 2^31, the width of the library's integer |
| `GateMask.NormaliseTas` | src/tas.rs:49-95 | normalising succeeds exactly when every listed priority is positive or -1 and every mask fits, and then has all promised parts: the numbering, the map of the 16 priorities, one queue for each class, base time 0, and the masks |
| `GateMask.ReadsBackIffDistinct` | src/tas.rs:91-93 | the sum, taken without a width and read at every bit, gives back exactly the classes added, if and only if none was added twice |
| `GateMask.OpensIffEncodable` | driver/XDMA/linux-kernel/xdma/tsn.c:546-548 | the driver's eight-bit test opens exactly the classes added, if and only if every class is below eight and the repeated listings add up to a multiple of 2^8 |
| `GateMask.SliceRoundTrip` | src/tas.rs:89-95 | the mask of a slice, decoded by the driver, opens exactly the classes of the slice's priorities, if and only if those classes are encodable in that sense |
| `GateMask.FewClassesRoundTrip` | src/tas.rs:49-95 | it does when there are at most eight classes and the slice lists no priority twice |
| `GateMask.NinthClassIsLost` | src/tas.rs:72-95 | with eight positive priorities a slice for best effort opens nothing |
| `GateMask.ThreeTimesTheLast` | src/tas.rs:89-95 | with seven, a slice that lists best effort three times still opens exactly its class |
| `Request.SplitPreservesBytes` | driver/XDMA/linux-kernel/xdma/libxdma.c:3158-3175 | the software descriptors cover the scatter list byte for byte in order, each with a length from 1 to the maximum |
| `Request.CutCount` | driver/XDMA/linux-kernel/xdma/libxdma.c:3163-3174 | an entry becomes exactly the rounded-up quotient of descriptors |
| `Request.ReservedSuffices` | driver/XDMA/linux-kernel/xdma/libxdma.c:3141-3151 | an entry longer than the maximum has room in the allocation exactly when the 32-bit rounding does not overflow |
| `Request.AllReservedSuffices` | driver/XDMA/linux-kernel/xdma/libxdma.c:3141-3182 | for any scatter list the allocation suffices, and the error branch after the loop is not taken, exactly when the shortfall of overflowing entries is covered by the slack of empty and long ones |
| `Request.NothingLacking` | driver/XDMA/linux-kernel/xdma/libxdma.c:3141-3146 | there is no shortfall when no rounding overflows |
| `Request.CountReserved` | driver/XDMA/linux-kernel/xdma/libxdma.c:3141-3150 | the counting loop computes the allocation |
| `Request.FillPieces` | driver/XDMA/linux-kernel/xdma/libxdma.c:3163-3174 | the inner loop appends the pieces of one entry in place, and runs past the array exactly when they do not fit |
| `Request.InitRequest` | driver/XDMA/linux-kernel/xdma/libxdma.c:3132-3188 | the request holds exactly the split list, its count, and the total length modulo 2^32, unless the allocation does not suffice: exactly then it is overrun and there is no request |
| `DescriptorRing.Ring.ChainDescs` | driver/XDMA/linux-kernel/xdma/libxdma.c:2327-2353 | descriptors are linked by bus address, the last ends the list, and no other is touched |
| `DescriptorRing.Ring.BuildTransfer` | driver/XDMA/linux-kernel/xdma/libxdma.c:2959-2995 | each descriptor gets its piece and endpoint address, or its result address when a stream is received, and the request moves on by as many; which address is the source is `DescFields` |
| `DescriptorRing.Ring.MarkDescs` | driver/XDMA/linux-kernel/xdma/libxdma.c:3042-3069 | control flags and adjacent counts are set as the position demands |
| `DescriptorRing.Ring.TransferInit` | driver/XDMA/linux-kernel/xdma/libxdma.c:2997-3073 | the transfer occupies one contiguous stretch from `desc_idx`, holds the next pieces with the right addresses, nothing else in the ring changes, and `desc_idx` stays below `desc_max` |
| `DescriptorRing.DescFields` | driver/XDMA/linux-kernel/xdma/libxdma.c:2449-2463 | in a transfer's descriptors the source is the host address to the card and the card address from it, a received stream names its result; length, link and the three flags are those of the position |
| `Prefetch.AlignedBlock` | driver/XDMA/linux-kernel/xdma/libxdma.c:645-661 | a count from `xdma_get_next_adj` never leads across an aligned group of 64 descriptors |
| `Prefetch.LargestBlock` | driver/XDMA/linux-kernel/xdma/libxdma.c:645-661 | nor could a larger count stay in the group and the transfer |
| `Prefetch.LayoutIsChain` | driver/XDMA/linux-kernel/xdma/libxdma.c:3034-3069 | in a finished transfer each descriptor's next and adjacent fields describe the fetch that follows |
| `Prefetch.FetchChain` | driver/XDMA/linux-kernel/xdma/libxdma.c:645-661 | a block-wise fetch from any slot of such a chain visits the rest of it in order |
| `Prefetch.PrefetchVisitsTransfer` | driver/XDMA/linux-kernel/xdma/libxdma.c:736-745 | from the address and count written at start, the fetch visits every descriptor exactly once in order, never across a group of 64, and only the last stops the engine |
| `Copying.TransferCopied` | driver/XDMA/linux-kernel/xdma/libxdma.c:736-745 | going through a started transfer copies the bytes of its pieces, in order, to or from the endpoint addresses |
| `Submit.LayoutsTile` | driver/XDMA/linux-kernel/xdma/libxdma.c:3571-3694 | the transfers partition the software descriptors in order |
| `Submit.LayoutsFit` | driver/XDMA/linux-kernel/xdma/libxdma.c:3029-3032 | every transfer is non-empty and does not wrap around the ring |
| `Submit.PieceIsPlaced` | driver/XDMA/linux-kernel/xdma/libxdma.c:2997-3060 | descriptor k of a request sits k slots further around the ring |
| `Submit.PieceIsAddressed` | driver/XDMA/linux-kernel/xdma/libxdma.c:2978-2980 | its endpoint address is the start plus all preceding lengths, or the start itself in non-incrementing mode |
| `Submit.IssueNext` | driver/XDMA/linux-kernel/xdma/libxdma.c:2997-3073 | the next transfer of the request is built and recorded, with its bus address and adjacent count, and the rest of the request is left to do |
| `Submit.XferSubmit` | driver/XDMA/linux-kernel/xdma/libxdma.c:3571-3708 | the transfers built are those of the request up to the first that does not complete, the result is the bytes done or the error, and only a transfer that the queue refuses keeps its descriptors |
| `Submit.CompleteSubmission` | driver/XDMA/linux-kernel/xdma/libxdma.c:3571-3694 | if all complete and no stream is received, every transfer was issued and the result is the total length |
| `Submit.CompleteReception` | driver/XDMA/linux-kernel/xdma/libxdma.c:3627-3634 | if all complete and a stream is received, the result is what the hardware says it received |
| `Submit.FirstFailureStops` | driver/XDMA/linux-kernel/xdma/libxdma.c:3627-3708 | when a transfer does not complete, none after it is issued; the result is the bytes before it or else -5, -512 or -16, and its descriptors stay in use exactly if the queue refused it |
| `Copying.RequestCopied` | driver/XDMA/linux-kernel/xdma/libxdma.c:3571-3694 | the transfers of a request together copy its pieces byte for byte, in order |
| `Copying.ListCopied` | driver/XDMA/linux-kernel/xdma/libxdma.c:3132-3694 | byte i of the scatter list is exchanged with the byte at the endpoint address plus i, in the direction of the engine, however the list is split and placed |
| `Copying.SubmissionCopies` | driver/XDMA/linux-kernel/xdma/libxdma.c:3558-3708 | a submission whose transfers all complete returns the length of the list and has copied just the list |
| `Submit.TwoTransfersSuffice` | driver/XDMA/linux-kernel/xdma/libxdma.c:4105-4161 | at most two transfers are needed exactly when the descriptors fit the rest of the ring plus one more round |
| `Submit.XferSubmitNowait` | driver/XDMA/linux-kernel/xdma/libxdma.c:4105-4161 | each transfer is recorded in a record of its own and written to the ring, only the last is marked last, and the counts of the ring move on by the whole request; the two records are overrun exactly when the descriptors exceed the rest of the ring plus one more round |
| `Submit.SlotsDistinct` | driver/XDMA/linux-kernel/xdma/libxdma.c:3059 | the slots of a request are pairwise different exactly when it has at most `desc_max` descriptors |
| `InFlight.TransfersApart` | driver/XDMA/linux-kernel/xdma/libxdma.c:2997-3060 | transfers laid end to end around the ring share no slot while they have no more descriptors than the ring |
| `InFlight.FitsExactly` | driver/XDMA/linux-kernel/xdma/libxdma.c:3016-3060 | from any sound state, all requests of a given number of descriptors leave every transfer in flight, and their own, in the ring if and only if that number and `desc_used` are together at most `desc_max` |
| `InFlight.RunKeepsFlights` | driver/XDMA/linux-kernel/xdma/libxdma.c:4105-4161 | over any run of requests that fit and of retirements in order, every transfer in flight stays in the ring, `desc_used` counts their descriptors, and the same equivalence holds of the next request |
| `InFlight.SubmitNowait` | driver/XDMA/linux-kernel/xdma/libxdma.c:4105-4161 | the imperative submission is that step, and one that fits keeps every transfer in flight |
| `InFlight.RetireOldest` | driver/XDMA/linux-kernel/xdma/libxdma.c:3994-3995 | giving the oldest transfer back is the other step, clears its descriptors, and leaves the others alone |
| `Delivery.StartedIsFetched` | driver/XDMA/linux-kernel/xdma/libxdma.c:736-745 | an engine started on a recorded transfer fetches exactly that transfer |
| `Delivery.BuildAndQueue` | driver/XDMA/linux-kernel/xdma/libxdma.c:3571-3605 | a transfer that is built and queued on an idle engine is what the hardware then fetches, every descriptor once, in order and aligned |
| `TransferQueue.Engine.Start` | driver/XDMA/linux-kernel/xdma/libxdma.c:679-764 | an idle engine with work is started on the head with nothing dequeued; otherwise nothing changes |
| `TransferQueue.Engine.Queue` | driver/XDMA/linux-kernel/xdma/libxdma.c:2505-2565 | a transfer joins the end of the queue and starts an idle engine; a refused one changes nothing |
| `TransferQueue.Engine.ServiceTransferList` | driver/XDMA/linux-kernel/xdma/libxdma.c:815-872 | exactly the transfers that the report goes beyond are completed and removed, in order |
| `TransferQueue.Engine.ServiceFinalTransfer` | driver/XDMA/linux-kernel/xdma/libxdma.c:904-1010 | the transfer that the engine stopped in is completed exactly when the report reaches its end, and failed otherwise; on a hardware error it fails and the engine counts as stopped |
| `TransferQueue.Engine.ServiceResume` | driver/XDMA/linux-kernel/xdma/libxdma.c:1042-1075 | a stopped engine with work left is restarted on the new head with `desc_dequeued` 0 |
| `TransferQueue.Engine.Service` | driver/XDMA/linux-kernel/xdma/libxdma.c:1086-1190 | the write-back word or, without one, the register, less what the run has settled already, in 32 bits, settles the transfers it reaches, a prefix of the queue; the others stay untouched and the engine goes on with them, started anew after a hardware error |
| `TransferQueue.TakenOffIsPrefix` | driver/XDMA/linux-kernel/xdma/libxdma.c:838-868 | the transfers taken off form a prefix, and all but the last are completed |
| `TransferQueue.SettledByStop` | driver/XDMA/linux-kernel/xdma/libxdma.c:838-1010 | the two steps together settle exactly the transfers that the report reaches |
| `TransferQueue.ReportsCompose` | driver/XDMA/linux-kernel/xdma/libxdma.c:1173-1174 | judging the rest of the queue by the rest of the count is judging the whole queue by the whole count |
| `HardwareRun.RunExact` | driver/XDMA/linux-kernel/xdma/libxdma.c:1086-1190 | over every run of non-decreasing counts from a busy engine, after each report exactly the transfers of the original queue that its count reaches are settled, if and only if every earlier count stands at the end of a transfer and every later one goes beyond it |
| `HardwareRun.RepeatFailsNext` | driver/XDMA/linux-kernel/xdma/libxdma.c:1171-1185 | a report that repeats a count at the end of a transfer fails the next transfer |
| `HardwareRun.WrapCompletesRest` | driver/XDMA/linux-kernel/xdma/libxdma.c:1171-1185 | one that repeats a count inside a transfer wraps around and completes everything that is left |
| `HardwareRun.ServiceWork` | driver/XDMA/linux-kernel/xdma/libxdma.c:1192-1230 | an interrupt of a busy engine is one step of such a run |
| `QuickSort.Partition` | driver/XDMA/linux-kernel/sample/buffer_handler.c:198-218 | the pivot loop stays in bounds, permutes, and separates the part by the pivot |
| `QuickSort.QuickSort` | driver/XDMA/linux-kernel/sample/buffer_handler.c:198-225 | the part is sorted in place and only permuted; the sort terminates |
| `QuickSort.SidesMakeWhole` | driver/XDMA/linux-kernel/sample/buffer_handler.c:219-224 | sorting both sides of a partition sorts the whole |
| `BufferPool.SplitBelow` | driver/XDMA/linux-kernel/sample/buffer_handler.c:325-327 | in sorted order exactly 2048 buffers lie below the boundary address and 4 from it on |
| `BufferPool.RoomForOutstanding` | driver/XDMA/linux-kernel/sample/buffer_handler.c:93-115 | a buffer that is out always finds room in its own stack, so the full branch is unreachable |
| `BufferPool.Conserved` | driver/XDMA/linux-kernel/sample/buffer_handler.c:87-196 | free plus lent out is always 2048 ordinary and 4 reserved buffers |
| `BufferPool.InteriorSide` | driver/XDMA/linux-kernel/sample/buffer_handler.c:88-104 | an address inside a buffer is on the same side of the boundary as the buffer |
| `BufferPool.InsideABuffer` | driver/XDMA/linux-kernel/sample/buffer_handler.c:88-104 | any of the 4096 addresses of a buffer gives that buffer |
| `BufferPool.Pool.constructor` | driver/XDMA/linux-kernel/sample/buffer_handler.c:286-334 | initialisation loads exactly 2048 ordinary and 4 reserved buffers |
| `BufferPool.Pool.Alloc` | driver/XDMA/linux-kernel/sample/buffer_handler.c:120-135 | the top ordinary buffer is lent out, or nothing if there is none |
| `BufferPool.Pool.GetReserved` | driver/XDMA/linux-kernel/sample/buffer_handler.c:61-77 | the same for the reserved buffers |
| `BufferPool.Pool.Free` | driver/XDMA/linux-kernel/sample/buffer_handler.c:87-118 | any address goes back as its buffer, to the stack of its side of the boundary, unless that is full; an address inside a buffer that was lent out gives just that buffer back to the stack it came from |
| `BufferPool.GiveBackExact` | driver/XDMA/linux-kernel/sample/buffer_handler.c:87-118 | giving a buffer back keeps the pool balanced exactly when it was lent out or finds its stack full |
| `BufferPool.RunExact` | driver/XDMA/linux-kernel/sample/buffer_handler.c:61-135 | over every run of allocations and returns the pool stays balanced throughout if and only if every return is of an address inside a lent-out buffer, or falls on the full reserved stack; then, with nothing lent out, all buffers are free again |
| `BufferPool.Pool.MultiAlloc` | driver/XDMA/linux-kernel/sample/buffer_handler.c:169-196 | up to eight buffers are lent out at once; stack and list together are the old stack |
| `BufferPool.Pool.MultiFree` | driver/XDMA/linux-kernel/sample/buffer_handler.c:137-167 | the listed buffers go back in order, those that find their stack full are passed over; addresses inside different buffers that were lent out give all of them back |
| `BufferPool.OneMoreTaken` | driver/XDMA/linux-kernel/sample/buffer_handler.c:181-190 | one round of the loop moves the top of the stack to the end of the list |
| `VlanTable.ReadAfterWrite` | src/lib.rs:506-541 | reading a written list back returns exactly that list |
| `VlanTable.CreateAppends` | src/lib.rs:66-88 | a create appends one entry to a compact table, and changes nothing when the table is full |
| `VlanTable.SharedTable.Read` | src/lib.rs:506-524 | the non-zero words of the table, in order |
| `VlanTable.SharedTable.Write` | src/lib.rs:526-541 | the list overwrites the start of the table and nothing behind it |
| `VlanTable.SharedTable.CreateVlan` | src/lib.rs:66-88 | the first user creates the VLAN; every caller is entered, even after a failed command |
| `VlanTable.SharedTable.DeleteVlan` | src/lib.rs:90-118 | one entry of the caller and all of the dead go; the VLAN is deleted when none is left |
| `VlanTable.RemainingCounts` | src/lib.rs:96-104 | a close takes out exactly one entry of its process and every entry of dead ones |
| `VlanTable.StepExact` | src/lib.rs:66-118 | a step keeps the invariant exactly when the commands it issues succeed and the table has room |
| `VlanTable.RunExact` | src/lib.rs:66-118 | over every run of opens, closes, crashes and new processes the invariant holds throughout exactly when every step does |
| `VlanTable.NeverDeletedUnderUser` | src/lib.rs:66-118 | in every good run whoever has a socket has the VLAN, and it is deleted only when no socket is left |
| `VlanTable.FailedCreateSticks` | src/lib.rs:75-87 | a failed create command leaves its process in the table without a VLAN |
| `VlanTable.StuckForever` | src/lib.rs:75-87 | after that no run ever creates the VLAN or opens a socket |
| `Checksum.IcmpChecksum` | driver/XDMA/linux-kernel/sample/icmp.c:10-34 | the header field gets the complement of the eagerly folded sum, nothing else changes, and in network byte order the field then is the Internet checksum if the length is even or the last byte zero |
| `Checksum.CksumUpdate` | driver/XDMA/linux-kernel/libcom/common.c:511-536 | the unrolled loops compute the 32-bit sum of all words plus the odd byte |
| `Checksum.CksumDone` | driver/XDMA/linux-kernel/libcom/common.c:538-545 | two folds give the one's complement value |
| `Checksum.Cksum` | driver/XDMA/linux-kernel/libcom/common.c:547-550 | the whole late-folded checksum, on top of any initial sum |
| `Checksum.OnesAdd` | driver/XDMA/linux-kernel/sample/icmp.c:14-21 | folding after every addition gives the same value as folding at the end |
| `Checksum.TwoFoldsSuffice` | driver/XDMA/linux-kernel/libcom/common.c:538-545 | two folds suffice for every 32-bit sum |
| `Checksum.ChecksumsAgree` | driver/XDMA/linux-kernel/sample/icmp.c:10-34 | for every message of at most 65535 bytes the two checksums agree exactly when its length is even or its last byte is zero |
| `Checksum.InternetChecksum` | driver/XDMA/linux-kernel/libcom/common.c:511-550 | `cksum` leaves the Internet checksum of section 1 of RFC 1071 in memory in network byte order for every message, `icmp_checksum` exactly when the length is even or the last byte is zero |
| `Checksum.CksumInParts` | driver/XDMA/linux-kernel/libcom/common.c:511-550 | on top of the sum of a first part of even length, the checksum of the rest is that of the whole |
| `Checksum.IcmpStoredVerifies` | driver/XDMA/linux-kernel/sample/icmp.c:33 | a message with its checksum stored verifies, as in section 1 of RFC 1071 |
| `Checksum.IcmpStoredVerifiesByCksum` | driver/XDMA/linux-kernel/libcom/common.c:511-550 | it verifies by the other checksum exactly when its length is even or its last byte is zero |
| `UserPages.PagesNrExact` | driver/XDMA/linux-kernel/xdma/cdev_sgdma.c:277-279 | for 0 < len < 2^32 the page count is the number of pages that the buffer's bytes lie in |
| `UserPages.NoPages` | driver/XDMA/linux-kernel/xdma/cdev_sgdma.c:277-282 | the count is zero exactly for an empty buffer on a page boundary |
| `UserPages.OneMorePage` | driver/XDMA/linux-kernel/xdma/cdev_sgdma.c:321-332 | each round takes the positive part of the buffer in the next page |
| `UserPages.Split` | driver/XDMA/linux-kernel/xdma/cdev_sgdma.c:321-332 | below 4 GiB the loop cuts at page boundaries and uses the buffer up; from 4 GiB on it never does |
| `UserPages.PiecesTile` | driver/XDMA/linux-kernel/xdma/cdev_sgdma.c:321-332 | the parts are positive, lie in one page each, follow each other, and hold every byte of the buffer in the part of its own page |
| `UserPages.IoBuffer.Map` | driver/XDMA/linux-kernel/xdma/cdev_sgdma.c:271-349 | the whole call with all its error branches; the length error is reached exactly from 4 GiB on |
| `Ticks.RebuildExact` | driver/XDMA/linux-kernel/xdma/xdma_netdev.c:210-220 | rebuilding a deadline from its 29 bits is exact if and only if it lies in the clock's block at most 100 ticks back, or in the next block more than 100 ticks short of a full block ahead |
| `Ticks.AheadIsInReach` | driver/XDMA/linux-kernel/xdma/xdma_netdev.c:210-220 | every deadline from the clock on, less than 2^29 - 100 ticks ahead, is rebuilt exactly |
| `Ticks.BehindWithinMargin` | driver/XDMA/linux-kernel/xdma/xdma_netdev.c:203-213 | a deadline at most 100 ticks back is rebuilt exactly in the same block, and one whole block late otherwise |
| `Ticks.TxWork.Schedule` | driver/XDMA/linux-kernel/xdma/xdma_netdev.c:210-220 | both deadlines are stored for one timestamp id only, exact if and only if in reach |

## Left out

- Shaper.QavState.SpendCredit: credit is an unbounded integer here; `CreditWidth` says exactly when the driver's 32-bit credit is the same. The driver's `double` is exact for every number that fits 32 bits. Where the driver divides by zero there is no next state.
- Windows.OrderedIffFits: frames of one nanosecond are excluded; the shortest Ethernet frame takes 480.
- TsnDriver.TsnConfig.FillMetadata: the conversion of times to device clock ticks uses floating point and is left out, as are the timestamp id and the packing of the metadata words.
- TsnDriver.TsnConfig.FillMetadata: what the code does is kept where it departs from its comments: a class that never opens is still admitted, with all-zero windows (tsn.c:128), the shaper is charged at the time the frame is ready, not at the start of its window (tsn.c:154), and without a schedule the retry window stays unset and the clocks move on even when the queue is full.
- TsnDriver.TsnConfig.GetTimestamps: schedules have at least one entry and positive durations, which the kernel's taprio qdisc guarantees; a cycle of length zero would divide by zero.
- TsnDriver.TsnConfig.SetQbv: the variant for kernels before 6.4, which know only on and off, is that of the commands to replace and to destroy. `tsn_set_mqprio` is left out; the traffic class of a frame is a parameter.
- GateMask.NormaliseTas: what a mask of 2^31 and more becomes is left out, since it depends on how the library is built: its sum panics, or comes out wrong. YAML, units and regular expressions are left out, and so is the `tc` command that carries the mask to the driver.
- Request.InitRequest: where the driver writes past the allocation the model stops with the result of the check that follows. Running out of memory is left out.
- DescriptorRing.Ring.MarkDescs: the control word is kept as separate fields; magic number and bit positions are left out.
- Submit.XferSubmit: running out of memory and end-of-packet flushing are not modelled; how each transfer ends and what the hardware says it received are parameters.
- Submit.XferSubmitNowait: where the driver runs past its two transfer records the model stops and says so; a refusal by the queue is left out.
- TransferQueue.Engine.ServiceFinalTransfer: end-of-packet flushing is left out.
- TransferQueue.Engine.Service: cyclic transfers, end-of-packet flushing, performance counters and interrupts are left out. A report that goes beyond the whole queue leaves nothing to mark.
- VlanTable.SharedTable.CreateVlan: each locked section is one step; failing shared-memory calls, the race between unlinking and locking, and processes that may not be signalled are left out. A socket is closed at most once.
- Checksum.CksumUpdate: a little-endian machine; the byte after an odd end, which the code reads and masks away, is not modelled, nor is a negative size.
- UserPages.IoBuffer.Map: the buffer does not extend past the end of the address space; unpinning after an error is left out.
- Ticks.TxWork.Schedule: the conditions under which a timestamp is wanted are left out.
- Locks, wait queues and interrupts: the functions modelled run under their locks, as one step each.
- `xdma_xfer_aperture`, `alinx_ptp.c`, `gptp.c`, the computation in `cbs.rs` and the queue selection of `sample/tsn.c` are not part of this model.
- The circular queues, the latency and throughput tools, the command-line programs, XVSEC and QDMA are not part of this model; they would add only easy members or input and output.
