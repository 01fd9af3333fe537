# Verified models of the EPOS EtherCAT motor controller

A Dafny model of the parts of this repository whose correctness cannot be seen by reading one function: the
EtherCAT master that the motor node is built on (SOEM), the 1 kHz control loop of the node, and the numeric and
buffer kernels around it.

| modules | what they model |
|---|---|
| `Bus`, `Topology` | a bus as a tree of slaves, the way a frame takes through it, and the scan that finds every slave's parent |
| `DistributedClock`, `EntryPorts`, `PropagationDelay`, `ClockPlacement` | the measurement of propagation delays from latched port times, slaves plugged in the other way round, and the wirings for which it is right |
| `Fmmu`, `SyncMemory`, `Segments`, `ProcessImage`, `ImageLayout`, `OverlapImage` | the allocation of the process image: mapping units and the slave memory behind them, datagram segments, the sequential, byte-aligned and overlapped layouts |
| `Frames`, `FrameWalk` | building EtherCAT frames in a buffer, and walking them |
| `Mailbox`, `Eoe`, `EoeChannel`, `EoeAnswers`, `EoeSplice`, `EoeRecv` | Ethernet over EtherCAT: fragments, reassembly, a channel that loses fragments and what is answered then, the blocking receiver |
| `Sdo`, `SdoRead` | CANopen over EtherCAT: download and upload of objects |
| `Foe`, `Soe` | file access and servo drive parameters over EtherCAT |
| `RtCycle`, `DriveStates`, `LimitTrip`, `FaultReset`, `RtHistory`, `RtLoop` | the control loop and the callbacks that run between its sections |
| `Velocity` | the slew-limited speed command |
| `GraphBuffers`, `LogAnalysis` | the live graph buffers and the analysis of recorded loops |

Code that changes things in place is modelled by methods over arrays and objects, each proved against a
specification, and the main results are lemmas about these specifications for all inputs and all runs. What comes from
outside (received messages, port times, sensor values, the clock) is a parameter: a function from turn numbers or a
sequence, about which nothing is known unless a lemma says so. Integers are unbounded; 8-, 16- and 4-bit fields wrap
explicitly where the code lets them. Speeds, areas and phases are exact reals.

Some results say where the code does not do what one would expect of it, and then exactly when it does:

- Slaves without a clock that split the line spoil delays: which wirings are measured right for all cables
  (`ClockPlacement.RightForAllCablesIffWellPlaced`), and on which times a single delay is right (`PropagationDelay.FirstDelayRightIff`).
- A slave with several branches that is plugged in by port 1 or 2 can give its ports to them in the wrong order (`EntryPorts.GivenInOrderIff`).
- The process data of a slave is mapped rightly only if it lies in at most two stretches of memory in ascending order
  (`SyncMemory.RightlyMappedIffTwoStretches`).
- A slave whose sync managers need more mapping units than it has makes the code run past the end of its table: exactly
  when is decided by the table alone (`Fmmu.CreateMappings`, `ProcessImage.MapGroup`; an example is `SyncMemory.FifthUnitIsMissing`).
- A process image of more than 64 segments loses bytes silently (`Segments.SegmentsSumIffTableSuffices`; an example is
  `Segments.SixtyFiveSharesAreTooMany`).
- Two frames whose numbers differ by a multiple of sixteen can be joined to one that nobody sent when all between them
  are lost (`EoeSplice.SafeForAllLossesIffNoneJoinable`).
- An empty object written without complete access reads back as four bytes (`SdoRead.ReadsWhatWasWritten`), and a
  download succeeds although segments in the middle were never answered (`Sdo.GoodMeansConfirmedIff`); a
  parameter write can succeed although a fragment never reached the mailbox (`Soe.GoodMeansPlacedIff`).
- A busy slave makes a file transfer stop early and report success (`Foe.BusyEndsTheTransfer`), and an empty file is
  never transferred (`Foe.FileArrivesIffItFits`).
- The count of fragments left in servo drive writes is one too many for multiples of the fragment size
  (`Soe.CountIsRightUnlessMultiple`).
- A fault reset requested while there is no fault is kept and resets the next fault at once
  (`FaultReset.OldRequestResetsNewFault`, `RtLoop.RequestedTooEarly`), and turning the force limit off between its load and
  its check leaves the motor stopped (`LimitTrip.StuckIffTrippedLate`).

## Model

| member | source | states |
|---|---|---|
| `Topology.ReadTopology` | cpp/src/soem/soem/ethercatconfig.c:407-470 | after the scan every slave's link count is that of the ports its data link status reports open, and its parent is the unique slave the scan rule designates; slave 0, the master, is not touched |
| `Topology.FindParent` | cpp/src/soem/soem/ethercatconfig.c:441-470 | the backward scan over `topoc` stops at the nearest earlier slave whose credit of open links is not used up by the slaves in between, or at slave 1 |
| `Topology.ParentIsUnique` | cpp/src/soem/soem/ethercatconfig.c:441-470 | that rule never designates two slaves |
| `Topology.BranchCredit` | cpp/src/soem/soem/ethercatconfig.c:448-461 | a complete branch uses up exactly one link, however it is built inside |
| `Topology.BranchSpent` | cpp/src/soem/soem/ethercatconfig.c:448-465 | no slave inside a complete branch is still waiting for a child when the branch ends |
| `Topology.StillWaiting` | cpp/src/soem/soem/ethercatconfig.c:462-467 | a slave is still waiting for a child exactly until its last branch has been enumerated |
| `Topology.BranchWired` | cpp/src/soem/soem/ethercatconfig.c:441-470 | for every shape of a branch, every slave in it gets the slave it is wired to |
| `Topology.CountedFromReports` | cpp/src/soem/soem/ethercatconfig.c:407-436 | link counts taken from the data link status are those of the wiring |
| `Topology.ScanRecoversWiring` | cpp/src/soem/soem/ethercatconfig.c:407-470 | main result: for every tree of slaves enumerated in frame order (ports 3, 1, 2), the scan gives every slave exactly its parent in the tree |
| `DistributedClock.FindDcParent` | cpp/src/soem/soem/ethercatdc.c:356-363 | the search upwards finds the nearest ancestor with a clock and the slave below it on the way |
| `DistributedClock.ParentPort` | cpp/src/soem/soem/ethercatdc.c:216-244 | takes the first unconsumed port in frame order 3, 1, 2, 0 and consumes it, leaving every other slave alone |
| `DistributedClock.MeasureSlave` | cpp/src/soem/soem/ethercatdc.c:293-410 | the complete effect of one clock slave on the slave list: its times are latched, its entry port is the active one with the smallest time, the first in the cycle of ports when several have it, all other active ports are unconsumed; with a clock upstream it gets the next unconsumed port of that slave and its delay, and nothing else changes |
| `DistributedClock.SkipSlave` | cpp/src/soem/soem/ethercatdc.c:411-427 | the complete effect of a slave without a clock: which port of its parent it consumes and what it holds back for the slaves behind it |
| `DistributedClock.VisitSlave` | cpp/src/soem/soem/ethercatdc.c:274-428 | one turn of the loop for either kind of slave |
| `DistributedClock.ConfigDc` | cpp/src/soem/soem/ethercatdc.c:252-431 | the whole call is the sequence of these turns in slave order, and it returns true exactly when some slave has a clock; in the end every clock slave holds its times and the entry port they tell |
| `DistributedClock.DcParentLocal` | cpp/src/soem/soem/ethercatdc.c:356-363 | the clock parent of a slave depends on the wiring alone, not on what has been measured |
| `EntryPorts.EntryFoundIff` | cpp/src/soem/soem/ethercatdc.c:311-353 | for a frame that comes in at any active port and passes the others in the order of the cycle, that port is found if and only if the frame is not back at the same time on an active port in front of it |
| `EntryPorts.PreviousIsNearest` | cpp/src/soem/soem/ethercatdc.c:172-213 | the previous port is the active one passed last before, all round the cycle |
| `EntryPorts.HalfTruncates` | cpp/src/soem/soem/ethercatdc.c:401-406 | halving rounds toward zero, for negative differences too |
| `EntryPorts.DelayOf` | cpp/src/soem/soem/ethercatdc.c:367-406 | the delay in terms of what the frame did, for any entry ports of both slaves and any times: half of the way less the stay, or of both together when the stay is longer, and the time before at the parent |
| `EntryPorts.NeighbourDelay` | cpp/src/soem/soem/ethercatdc.c:367-406 | between neighbours joined by a cable that is the time from arrival to arrival, whichever ports the frame came in at |
| `EntryPorts.NeighbourMeasured` | cpp/src/soem/soem/ethercatdc.c:293-410 | the same in one turn of the loop |
| `EntryPorts.GivenInOrderIff` | cpp/src/soem/soem/ethercatdc.c:216-244 | ports are given to branches in the order of the frame if and only if it did not come in at port 1 or 2 with unconsumed ports on both sides of the start of the cycle |
| `EntryPorts.PluggedInByPort1` | cpp/src/soem/soem/ethercatdc.c:311-406 | an example: a slave plugged in the other way round is entered at port 1 and measured right |
| `PropagationDelay.EntersAtPort0` | cpp/src/soem/soem/ethercatdc.c:311-353 | for times latched by a frame that entered at port 0, the port with the smallest time is port 0 |
| `PropagationDelay.RoundTime` | cpp/src/soem/soem/ethercatdc.c:383-390 | the difference between the port before the entry port and the entry port is the time the frame spent in the branches below |
| `PropagationDelay.BranchStamps` | cpp/src/soem/soem/ethercatdc.c:148-213 | the port before a branch's port in the cycle of active ports holds the time the frame left towards that branch, and the branch's own port the time it came back |
| `PropagationDelay.RightIffEarlyIsLate` | cpp/src/soem/soem/ethercatdc.c:367-406 | the formula for `pdelay` gives the arrival time at the next clock slave, for every position in the parent's port order, if and only if the frame spends the same time (or one unit more) in the side branches after that slave as in those before it |
| `PropagationDelay.FirstDelayRightIff` | cpp/src/soem/soem/ethercatdc.c:252-431 | the same in a run: the delay computed for the first clock slave of any branch is right if and only if those two times agree |
| `PropagationDelay.ClocklessVisited` | cpp/src/soem/soem/ethercatdc.c:411-427 | a branch without a clock consumes one port of the parent if it is a line, and none if it splits |
| `PropagationDelay.FirstClockReached` | cpp/src/soem/soem/ethercatdc.c:252-431 | whatever comes before the first clock slave of a branch, the slaves upstream of the branch are unchanged when that slave is visited, and its clock parent is the one above the branch |
| `PropagationDelay.PortMeasured` | cpp/src/soem/soem/ethercatdc.c:252-431 | the branches of a clock slave are measured one port after the other, each with the port it hangs on |
| `PropagationDelay.BranchMeasured` | cpp/src/soem/soem/ethercatdc.c:252-431 | by induction over branches of every shape: if the clocks below its parent are well placed, all slaves of the branch are measured right and exactly one port of the parent is consumed |
| `PropagationDelay.DelaysAreArrivalTimes` | cpp/src/soem/soem/ethercatdc.c:252-431 | main result: for every tree entered at port 0 with well placed clocks, all cable delays and all clock offsets, each `pdelay` is the time by which the frame reaches that slave after the first clock slave |
| `PropagationDelay.ScannedBusIsInstalled` | cpp/src/soem/soem/ethercatdc.c:252-431 | the parents recovered by the topology scan are what the measurement needs |
| `ClockPlacement.RightForAllCablesIffWellPlaced` | cpp/src/soem/soem/ethercatdc.c:252-431 | main result: a wiring gives the right delays for all cables if and only if its clocks are well placed: below the first clock slave no slave without a clock splits the way to one and no clock branch follows a clockless branch that splits, and above it at most one branch of every slave has clocks |
| `ClockPlacement.WrongClock` | cpp/src/soem/soem/ethercatdc.c:252-431 | for every other wiring below a clock slave there are cables for which some delay is wrong |
| `ClockPlacement.KeptPortWrong` | cpp/src/soem/soem/ethercatdc.c:216-244 | a clock branch behind a clockless branch that splits is measured with the wrong port of its parent |
| `ClockPlacement.SecondBranchWrong` | cpp/src/soem/soem/ethercatdc.c:356-363 | two branches with clocks on a slave without one: the first clock of the second branch keeps the delay 0 |
| `ClockPlacement.SplitWithoutClockBreaksDelay` | cpp/src/soem/soem/ethercatdc.c:356-427 | an example: a bus of four slaves on which the delay computed is 30 and the frame's arrival time is 20 |
| `ClockPlacement.SplitIsWired` | cpp/src/soem/soem/ethercatdc.c:356-427 | the slaves and port times of that example are those of a bus |
| `Fmmu.Skip` | cpp/src/soem/soem/ethercatconfig.c:920-929 | the sync manager found is of the wanted type, or the last one, and none of that type is passed over |
| `Fmmu.SkipSm` | cpp/src/soem/soem/ethercatconfig.c:920-929 | the search loop finds that sync manager |
| `Fmmu.FindRun` | cpp/src/soem/soem/ethercatconfig.c:920-958 | the run of sync managers one unit is to map: where it starts, how much it adds up to and where the search goes on; one that starts at or below the end of the one before is joined, one beyond it starts the next run |
| `Fmmu.PlaceBits` | cpp/src/soem/soem/ethercatconfig.c:960-984 | a unit for fewer than 8 bits maps exactly these bits from the cursor on, across a byte boundary where necessary, and the cursor moves by exactly as many bits |
| `Fmmu.PlaceBytes` | cpp/src/soem/soem/ethercatconfig.c:985-1008 | a unit for bytes starts at the next byte boundary and maps no more than what is left to map |
| `Fmmu.CreateMappings` | cpp/src/soem/soem/ethercatconfig.c:896-1176 | all units of one direction of a slave: together they tile exactly the slave's interval of the logical image, unit by unit they map the runs of its sync-manager table, each with the byte count of all runs so far, units in use before are kept, and the cursor ends behind the interval; the result is true if and only if the first free unit and the units the side needs stay within four, and false where the code runs past the end of the table |
| `Fmmu.UnitsCounted` | cpp/src/soem/soem/ethercatconfig.c:1065-1125 | the units needed, counted on the sync-manager table alone: the smallest number of runs that leaves no byte to map |
| `Fmmu.FreshSuffices` | cpp/src/soem/soem/ethercatconfig.c:909-917 | for a slave none of whose units is in use the condition is that outputs and inputs together need no more than four |
| `Fmmu.InputsAfterOutputs` | cpp/src/soem/soem/ethercatconfig.c:909-917 | whether the units left suffice for the inputs is known before the outputs are mapped: units used for outputs are followed by a search for a free one |
| `SyncMemory.RunHoldsData` | cpp/src/soem/soem/ethercatconfig.c:920-958 | a run holds consecutive bytes of the side's process data without a step upwards inside, and the next run starts with one |
| `SyncMemory.FirstTwoUnits` | cpp/src/soem/soem/ethercatconfig.c:985-1008 | the physical bytes the first two units map: the byte count is not reset, so the second unit is given the bytes of the first run once more |
| `SyncMemory.RightlyMappedIffTwoStretches` | cpp/src/soem/soem/ethercatconfig.c:896-1176 | main result: byte i of the image is mapped to byte i of the sync managers' memory, for all i, if and only if the sync managers hold that many bytes and these lie in one connected stretch, or in two of which the second is higher up |
| `SyncMemory.ThirdStretchIsLost` | cpp/src/soem/soem/ethercatconfig.c:1065-1125 | a table of three sync managers apart from each other: the third byte is mapped to memory of none of them |
| `SyncMemory.ThirdStretchOccurs` | cpp/src/soem/soem/ethercatconfig.c:1065-1125 | a slave with this table and the two units made for it |
| `SyncMemory.LowerStretchIsLost` | cpp/src/soem/soem/ethercatconfig.c:1081-1090 | a sync manager below the one before is joined to it, and its bytes are mapped to memory of neither |
| `SyncMemory.LowerStretchOccurs` | cpp/src/soem/soem/ethercatconfig.c:1081-1090 | a slave with this table and the unit made for it |
| `SyncMemory.EmptySyncManagerBreaksMapping` | cpp/src/soem/soem/ethercatconfig.c:1081-1090 | an empty sync manager in between makes the mapping wrong although the data lies in two stretches |
| `SyncMemory.EmptySyncManagerOccurs` | cpp/src/soem/soem/ethercatconfig.c:1081-1090 | a slave with this table and the two units made for it |
| `SyncMemory.EmptyFirstBreaksMapping` | cpp/src/soem/soem/ethercatconfig.c:920-958 | an empty sync manager in front of all data makes the mapping wrong as well |
| `SyncMemory.FifthUnitIsMissing` | cpp/src/soem/soem/ethercatconfig.c:1065-1125 | a table of five sync managers apart from each other for which the code runs past the end of the four units, whichever of them are free |
| `Segments.AddToSegment` | cpp/src/soem/soem/ethercatconfig.c:1223-1237 | the segment table after a slave's share has been added |
| `Segments.Conserved` | cpp/src/soem/soem/ethercatconfig.c:1223-1237 | what is in the segments and what is dropped at the full table together are what was added, for every list of shares |
| `Segments.SegmentsFit` | cpp/src/soem/soem/ethercatconfig.c:1223-1237 | if every share fits a datagram then so does every segment |
| `Segments.CutIsGreedy` | cpp/src/soem/soem/ethercatconfig.c:1223-1237 | a segment is only closed when the next share would not fit it any more, and nothing is dropped exactly while the table has room |
| `Segments.SegmentsSumIffTableSuffices` | cpp/src/soem/soem/ethercatconfig.c:1223-1237 | the segments add up to the whole image if and only if it needs no more than 64 of them |
| `Segments.ContributionsStayWhole` | cpp/src/soem/soem/ethercatconfig.c:1223-1237 | no share is ever divided between two segments |
| `Segments.SegmentsOnlyGrow` | cpp/src/soem/soem/ethercatconfig.c:1223-1237 | what once lay in one segment does so for ever |
| `Segments.FullShares` | cpp/src/soem/soem/ethercatconfig.c:1223-1237 | shares that fill a datagram need one segment each |
| `Segments.SixtyFiveSharesAreTooMany` | cpp/src/soem/soem/ethercatconfig.c:1223-1237 | an example: 65 of them do not add up, and bytes are dropped |
| `ProcessImage.MapSide` | cpp/src/soem/soem/ethercatconfig.c:1199-1260 | one pass over the slaves for one direction: every slave that takes part is allocated at the cursor the slaves before it left, all others are unchanged, and table, cursor and working counter follow; the result is true if and only if every slave that takes part has units enough |
| `ProcessImage.InputsDecide` | cpp/src/soem/soem/ethercatconfig.c:1264-1340 | once the outputs are mapped, the input pass succeeds if and only if every slave of the group had units enough for both directions at the start |
| `ProcessImage.MapGroup` | cpp/src/soem/soem/ethercatconfig.c:1178-1376 | the whole sequential or byte-aligned mapping: it succeeds if and only if every slave of the group has units enough for both directions, and then gives places of all slaves, group totals, segment table and position of the first input |
| `ProcessImage.PassStep` | cpp/src/soem/soem/ethercatconfig.c:1199-1260 | allocating one slave keeps what was allocated to the others |
| `ProcessImage.BothInPlace` | cpp/src/soem/soem/ethercatconfig.c:1199-1340 | the input pass does not disturb the outputs allocated before |
| `ProcessImage.ContributorsCounted` | cpp/src/soem/soem/ethercatconfig.c:1208-1240 | the working counter of a direction is the number of slaves of the group with data in it |
| `ImageLayout.ImageIsPartitioned` | cpp/src/soem/soem/ethercatconfig.c:1178-1376 | main result: the intervals of different slaves never overlap, all outputs come before all inputs, and all lie inside the image size returned |
| `ImageLayout.NoBitIsShared` | cpp/src/soem/soem/ethercatconfig.c:1178-1376 | in the final slave list the units of a slave map exactly the bits of its interval, and units of different slaves in one direction never a common bit |
| `ImageLayout.PointerIsPlace` | cpp/src/soem/soem/ethercatconfig.c:1009-1030 | a slave without a data pointer is told the place of its image: byte, and start bit below eight; a pointer set before is kept |
| `ImageLayout.UnitsSwitchedOn` | cpp/src/soem/soem/ethercatconfig.c:1139-1140 | every unit that maps a part of a slave's image is switched on, for writing on the output side and for reading on the input side |
| `ImageLayout.UnitsMapPlace` | cpp/src/soem/soem/ethercatconfig.c:1147-1169 | the bits its units map are those that pointer and start bit name |
| `ImageLayout.IoMapIsPartitioned` | cpp/src/soem/soem/ethercatconfig.c:1178-1376 | main result: in the I/O map the places told to the slaves never overlap, all outputs come before all inputs, and all lie in the group's `Obytes + Ibytes`, which begin at the beginning of the map, or at the logical start address when all groups are mapped as one |
| `ImageLayout.TableFollowsParts` | cpp/src/soem/soem/ethercatconfig.c:1223-1349 | the segment table of both passes is that of one list of contributions, which add up to the final cursor |
| `ImageLayout.SegmentsAddUp` | cpp/src/soem/soem/ethercatconfig.c:1223-1349 | main result: the segments add up to `Obytes + Ibytes` if and only if the image needs no more than 64, and each is within the datagram limit |
| `ImageLayout.InputsStartInSegment` | cpp/src/soem/soem/ethercatconfig.c:1264-1297 | the segments before `Isegment` plus `Ioffset` are the group's `Obytes` |
| `ImageLayout.AlignedImagesStayWhole` | cpp/src/soem/soem/ethercatconfig.c:1202-1347 | main result: with forced byte alignment every slave's output and input image lies wholly in one segment |
| `OverlapImage.MapBoth` | cpp/src/soem/soem/ethercatconfig.c:1437-1469 | outputs and inputs of one slave start at the same address, and the ends of both are returned; it succeeds if and only if the units suffice for both |
| `OverlapImage.MapGroupOverlap` | cpp/src/soem/soem/ethercatconfig.c:1406-1548 | the whole overlapped mapping: it succeeds if and only if every slave of the group has units enough, and then gives places of all slaves after the final shift of the inputs, group totals and segment table |
| `OverlapImage.MoveInputs` | cpp/src/soem/soem/ethercatconfig.c:1505-1535 | the final shift moves every input image behind the outputs in the I/O map and changes nothing else |
| `OverlapImage.RangesDisjoint` | cpp/src/soem/soem/ethercatconfig.c:1406-1548 | the logical ranges of different slaves never overlap, in either direction |
| `OverlapImage.SidesInRange` | cpp/src/soem/soem/ethercatconfig.c:1406-1548 | every output lies in the first `Obytes` of the logical range and every input in the first `Ibytes` |
| `OverlapImage.DataSeparateInIoMap` | cpp/src/soem/soem/ethercatconfig.c:1406-1548 | in the I/O map the outputs of every slave lie in `[0, Obytes)` of the group's part and its inputs, after the shift, in `[Obytes, Obytes + Ibytes)` |
| `OverlapImage.NoByteIsShared` | cpp/src/soem/soem/ethercatconfig.c:1406-1548 | and places of different slaves in one direction never overlap there |
| `OverlapImage.OverlapSegmentsAddUp` | cpp/src/soem/soem/ethercatconfig.c:1449-1503 | the segments add up to the larger of `Obytes` and `Ibytes` if and only if the table suffices, each within the datagram limit |
| `Frames.Frame.WriteData` | cpp/src/soem/soem/ethercatbase.c:31-54 | data of a command that writes are copied, those of a command that only reads are zeros, and nothing else is touched |
| `Frames.Frame.SetupDatagram` | cpp/src/soem/soem/ethercatbase.c:68-91 | the buffer holds exactly one datagram, marked as the last, and the Ethernet header is kept |
| `Frames.Frame.AddDatagram` | cpp/src/soem/soem/ethercatbase.c:106-146 | the buffer holds the datagrams of before, the first one now marked as followed, and the new one; the offset returned is its data's position in the list of datagrams |
| `Frames.ExtendFrame` | cpp/src/soem/soem/ethercatbase.c:106-146 | writing behind the end of a frame extends its list of datagrams by one |
| `FrameWalk.DataOfEach` | cpp/src/soem/soem/ethercatbase.c:106-146 | in every valid frame, after any number of additions, the data of each datagram stand at its position |
| `FrameWalk.PositionsStay` | cpp/src/soem/soem/ethercatbase.c:106-146 | and adding a datagram changes no position, so every offset once returned stays right |
| `FrameWalk.PositionsAre` | cpp/src/soem/soem/ethercatbase.c:106-146 | the first data stand at byte 26, all others twelve bytes behind the data before |
| `FrameWalk.BytesOfEach` | cpp/src/soem/soem/ethercatbase.c:68-146 | every byte of a frame: length and type, and for each datagram command, index, addresses, length with flag, data and a working counter of 0 |
| `FrameWalk.MetAllIffChained` | cpp/src/soem/soem/ethercatbase.c:106-146 | a walk by the follows flags meets all datagrams if and only if every one but the last is flagged |
| `FrameWalk.WalkInvertsBuild` | cpp/src/soem/soem/ethercatbase.c:68-146 | main result: walking the buffer by the length fields and follows flags yields commands, indexes, addresses and data as they were put in, all of them if and only if the `more` flags were given correctly; the frame's length field counts them all |
| `FrameWalk.LastClosesChain` | cpp/src/soem/soem/ethercatbase.c:106-146 | adding datagrams with `more` set and a last one without keeps a frame walkable to its end |
| `Mailbox.NextMbxCnt` | cpp/src/soem/soem/ethercatmain.c:912-921 | the session counter stays within 1 to 7 |
| `Eoe.Word1Fields` | cpp/src/soem/soem/ethercateoe.h:69-84 | the fields of the first header word do not disturb each other: each reads back as it was set |
| `Eoe.Word2Fields` | cpp/src/soem/soem/ethercateoe.h:91-102 | likewise for fragment number, offset and frame number in the second word |
| `Eoe.FragmentSays` | cpp/src/soem/soem/ethercateoe.c:338-381 | a fragment by its fields: type, length, data, port, last flag, number, size or offset in blocks, frame number |
| `Eoe.Sender.Cut` | cpp/src/soem/soem/ethercateoe.c:338-381 | one fragment: its number, offset or total size, data and last flag, and what becomes of the frame number and the session counter |
| `Eoe.Sender.Send` | cpp/src/soem/soem/ethercateoe.c:316-391 | whatever the transport does, what is sent is the beginning of the frame's fragments, and all of them when no send fails |
| `Eoe.Reassembly.ReadFragment` | cpp/src/soem/soem/ethercateoe.c:528-634 | the complete effect of one fragment on the reassembly state, for every header and every length, and exactly when the answer is an error |
| `Eoe.RefusedIff` | cpp/src/soem/soem/ethercateoe.c:545-590 | a negative answer comes if and only if the message is not one of EoE or a fragment with a number above 0 does not match number, offset and frame held; then nothing is copied, and a frame begun is given up |
| `Eoe.TakenUp` | cpp/src/soem/soem/ethercateoe.c:571-632 | what becomes of every other fragment, by its fields: data that do not fit are dropped without a word |
| `EoeChannel.ReadNext` | cpp/src/soem/soem/ethercateoe.c:561-632 | the fragment that was waited for is appended, and the last one hands the frame over |
| `EoeChannel.ReadBroken` | cpp/src/soem/soem/ethercateoe.c:561-632 | after a lost fragment no frame is handed over with a later fragment of it |
| `EoeChannel.FrameArrives` | cpp/src/soem/soem/ethercateoe.c:528-634 | any subset of the fragments of a frame, in order: the frame is handed over exactly when all of them arrive |
| `EoeChannel.WholeFrameArrives` | cpp/src/soem/soem/ethercateoe.c:528-634 | main result: from any reassembly state whatsoever, all fragments of a frame in order return 0 and the last one 1, hand over exactly its bytes and nothing else, and leave the state as after a reset |
| `EoeChannel.ExactlyUnharmedFramesArrive` | cpp/src/soem/soem/ethercateoe.c:528-634 | main result: for any number of frames over a channel that loses fragments, exactly the frames without a loss are handed over, byte for byte and in order, unless all frames between two that arrive at least in part are lost and these two are a multiple of sixteen apart |
| `EoeChannel.SixteenFramesAreSafe` | cpp/src/soem/soem/ethercateoe.c:528-634 | that condition holds for any losses among sixteen frames |
| `EoeAnswers.RefusedIffLost` | cpp/src/soem/soem/ethercateoe.c:528-634 | the answer to every fragment that arrives: an error if and only if a fragment before it was lost, and otherwise 0, or 1 for the last |
| `EoeAnswers.LossIsReported` | cpp/src/soem/soem/ethercateoe.c:528-634 | main result: received from idle, a fragment of a frame is refused if and only if one before it was lost |
| `EoeSplice.UnjoinableArrive` | cpp/src/soem/soem/ethercateoe.c:528-634 | if the end of no frame can complete the beginning of one a multiple of sixteen before it, exactly the unharmed frames are handed over, whatever is lost |
| `EoeSplice.RestIsJoined` | cpp/src/soem/soem/ethercateoe.c:575-632 | while it holds the first fragment of one frame, the receiver takes the others of a later frame with the same four-bit number and hands over the two joined |
| `EoeSplice.JoinedFrameArrives` | cpp/src/soem/soem/ethercateoe.c:528-634 | in a list of frames of which all others are lost: of two that can be joined, a frame is handed over that nobody sent |
| `EoeSplice.SafeForAllLossesIffNoneJoinable` | cpp/src/soem/soem/ethercateoe.c:528-634 | main result: a list of frames cut for one mailbox is safe for all losses if and only if no two frames a multiple of sixteen apart have more than one fragment each and the last fragment of the later one starts within the size announced for the earlier one |
| `EoeSplice.EqualFramesAreSafeIffSixteen` | cpp/src/soem/soem/ethercateoe.c:528-634 | frames of one size larger than a mailbox are safe for all losses if and only if there are at most sixteen |
| `EoeRecv.Recv` | cpp/src/soem/soem/ethercateoe.c:408-512 | what the blocking receiver has in its buffer and returns, for every sequence of incoming messages |
| `EoeRecv.MessageDecides` | cpp/src/soem/soem/ethercateoe.c:427-505 | what one message does in the blocking receiver, by its fields |
| `EoeRecv.LossEndsTheCall` | cpp/src/soem/soem/ethercateoe.c:408-512 | of a frame with one fragment lost the next one is refused, or nothing comes any more |
| `EoeRecv.ReceivedIffItFits` | cpp/src/soem/soem/ethercateoe.c:408-512 | main result: the blocking receiver gets exactly the frame sent if and only if its buffer covers the size rounded up to 32 |
| `Sdo.Master.MakeSegment` | cpp/src/soem/soem/ethercatcoe.c:453-500 | one turn of the segment loop: size, command with toggle and unused-byte count, length field, session counter |
| `Sdo.SegmentBytes` | cpp/src/soem/soem/ethercatcoe.c:453-500 | a segment byte by byte: type, service, length, command, data, and the bytes behind them as they were |
| `Sdo.Master.WriteSegments` | cpp/src/soem/soem/ethercatcoe.c:453-531 | the loop sends a beginning of the object's segments; it ends well if and only if none is refused and the last is confirmed, so an unanswered segment in the middle goes unnoticed |
| `Sdo.GoodMeansConfirmedIff` | cpp/src/soem/soem/ethercatcoe.c:453-531 | a good ending means that every segment was confirmed, unless one in the middle is never answered, none is refused and the last is confirmed |
| `Sdo.Master.Write` | cpp/src/soem/soem/ethercatcoe.c:330-538 | expedited, normal and segmented download: what is sent for any answers, and exactly when the call succeeds; byte by byte the first message names index and subindex (at most 1 with complete access) and holds the data, or the length and the first of the data; a good ending means a CoE response with that index and subindex and a confirmed last segment |
| `Sdo.ConfirmsIff` | cpp/src/soem/soem/ethercatcoe.c:370-446 | the answer accepted to the first message, by its fields |
| `Sdo.TogglesAndEndsOnce` | cpp/src/soem/soem/ethercatcoe.c:453-531 | the toggle bit alternates from 0 and exactly the last segment carries the last flag |
| `SdoRead.ReadSegments` | cpp/src/soem/soem/ethercatcoe.c:205-277 | what the segment loop puts into the caller's buffer and how it ends, for any answers |
| `SdoRead.HowTheLoopEnds` | cpp/src/soem/soem/ethercatcoe.c:205-277 | the segment loop writes behind the caller's buffer if and only if segments that fit and announce more are followed by one that does not fit, and is left without an answer if and only if all answers fit and announce more |
| `SdoRead.SegmentDecides` | cpp/src/soem/soem/ethercatcoe.c:205-277 | what one answer does in the segment loop, by its fields: type, service, command, length and unused bytes |
| `SdoRead.Read` | cpp/src/soem/soem/ethercatcoe.c:120-304 | likewise for the whole call: expedited, normal and segmented answers |
| `SdoRead.FirstAnswerDecides` | cpp/src/soem/soem/ethercatcoe.c:154-304 | what the first answer decides, by its fields; the subindex it repeats is not looked at |
| `SdoRead.SegmentIsUnderstood` | cpp/src/soem/soem/ethercatcoe.c:240-262 | size field, unused-byte count and last flag of every segment are read as they were cut |
| `SdoRead.SegmentsAreUnderstood` | cpp/src/soem/soem/ethercatcoe.c:205-277 | all segments of an object put together are the object |
| `SdoRead.ReadsWhatWasWritten` | cpp/src/soem/soem/ethercatcoe.c:120-538 | main result: for every object and mailbox size, the messages of a download sent back are read as exactly the object if and only if it fits the buffer and is not an empty one without complete access, which would be read as four bytes |
| `Foe.PacketsAreWellFormed` | cpp/src/soem/soem/ethercatfoe.c:256-300 | a file makes size / maxdata + 1 packets, numbered 1, 2, 3 and so on, all full but the last |
| `Foe.Write` | cpp/src/soem/soem/ethercatfoe.c:239-349 | for any answers of the slave: packets go out in order while the right acknowledgement comes, and the first other answer decides how the call ends |
| `Foe.AllSentIffAcknowledged` | cpp/src/soem/soem/ethercatfoe.c:239-349 | the whole file goes out if and only if every packet was asked for and placed |
| `Foe.EndsAsAnswered` | cpp/src/soem/soem/ethercatfoe.c:239-349 | how each answer but the one waited for ends a transfer, with its error code |
| `Foe.BusyEndsTheTransfer` | cpp/src/soem/soem/ethercatfoe.c:306-321 | a good ending means the complete file if and only if the slave is not busy after some packets that it asked for and that were placed, before all are out; and the call ends well exactly when all is sent and acknowledged or the slave is busy |
| `Foe.BusyLooksLikeSuccess` | cpp/src/soem/soem/ethercatfoe.c:306-321 | a file of three bytes of which two are sent and success is reported |
| `Foe.Read` | cpp/src/soem/soem/ethercatfoe.c:110-182 | what the receiver has put into the buffer, how many packets it has acknowledged and how it ends, for any packets |
| `Foe.ReceivedAsSent` | cpp/src/soem/soem/ethercatfoe.c:110-182 | after any number of full packets in order: which packet is kept and acknowledged, and how each other answer ends the reception |
| `Foe.NeverTooMuch` | cpp/src/soem/soem/ethercatfoe.c:120-130 | the receiver never takes more than its buffer holds |
| `Foe.TakesWhatIsSent` | cpp/src/soem/soem/ethercatfoe.c:110-182 | a receiver with enough room takes and acknowledges every packet |
| `Foe.FileArrivesIffItFits` | cpp/src/soem/soem/ethercatfoe.c:71-353 | main result: sender and receiver talking to each other both end well, with the same file on both sides, if and only if the file is not empty and fits |
| `Soe.Write` | cpp/src/soem/soem/ethercatsoe.c:200-298 | fragments go out in order until the drive answers, and which answer decides how the call ends |
| `Soe.AllSentIffNotInterrupted` | cpp/src/soem/soem/ethercatsoe.c:259-296 | all fragments go out if and only if the drive does not answer before the last one |
| `Soe.EndsAsAnswered` | cpp/src/soem/soem/ethercatsoe.c:259-298 | how the answer to the last fragment sent decides the ending |
| `Soe.GoodMeansPlacedIff` | cpp/src/soem/soem/ethercatsoe.c:259-296 | a good ending means that every fragment was placed, unless the drive confirms one before the last, or the last one although an earlier one never reached the mailbox |
| `Soe.CountIsRightUnlessMultiple` | cpp/src/soem/soem/ethercatsoe.c:228-250 | only the last fragment is marked complete; the count of fragments left is right if and only if the size is not a multiple of the fragment size, and else one too many |
| `Soe.Read` | cpp/src/soem/soem/ethercatsoe.c:78-183 | for any replies the buffer ends with exactly the first bytes of their concatenation that fit, nothing behind it is written, and the ending is decided by the first reply that does not announce another |
| `Soe.TruncatedStep` | cpp/src/soem/soem/ethercatsoe.c:132-151 | adding a fragment to a buffer that may be full keeps the first bytes of the concatenation |
| `Soe.FragmentsJoin` | cpp/src/soem/soem/ethercatsoe.c:228-250 | the fragments concatenate to the input |
| `Soe.ReadsBackWhatFits` | cpp/src/soem/soem/ethercatsoe.c:78-298 | main result: an element written and read back is the same up to the buffer's size, and complete if and only if it fits |
| `RtCycle.NextControlWord` | cpp/src/epos_control/include/ethercat/cia402_state.hpp:33-45 | the control word by the bits of the status word; a fault reset is never among them, and without enable it is always shutdown |
| `RtCycle.CheckForceLimit` | cpp/src/epos_control/include/safety/force_limit_guard.hpp:22-42 | over the limit if and only if a limit is set and a channel with a sample younger than half a second exceeds it |
| `LimitTrip.OverIffExceeds` | cpp/src/epos_control/src/epos_motor_node.cpp:1040-1050 | the check in the loop, by its numbers: half a second, both channels, each less its tare |
| `RtCycle.ApplySafety` | cpp/src/epos_control/include/safety/output_safety_guard.hpp:51-76 | a fault, no enabling, a tripped force limit, a late command or a late heartbeat each give zero speed and torque; otherwise the torque is kept and the speed cut to the limit |
| `DriveStates.BroughtIntoOperation` | cpp/src/epos_control/include/ethercat/cia402_state.hpp:33-45 | a drive that follows section 8 of CiA 402 is brought into operation within three cycles and stays there while it is to be enabled, and is out of operation from the first cycle on otherwise |
| `RtCycle.HoldIsWindow` | cpp/src/epos_control/src/epos_motor_node.cpp:1127-1139 | the reset counter is positive exactly while a request was taken up in the last twenty cycles and the fault has lasted since |
| `RtCycle.ResetIffRecentRequest` | cpp/src/epos_control/src/epos_motor_node.cpp:1127-1139 | main result: over every run, a fault reset is written in exactly the fault cycles at most twenty good cycles after a request was taken up during this fault |
| `RtCycle.TrailingIsLongest` | cpp/src/epos_control/src/epos_motor_node.cpp:894-908 | the count of failures at the end of a run is the length of its longest failing end |
| `RtCycle.NothingUnsafeIsSent` | cpp/src/epos_control/src/epos_motor_node.cpp:888-890 | every image that goes out is the empty one of the start or a completed one with velocity or torque mode and a speed within the limit |
| `RtCycle.EachReasonStops` | cpp/src/epos_control/src/epos_motor_node.cpp:1143-1164 | in every cycle of every run each of the five reasons gives zero speed and torque in the image |
| `RtCycle.StoppedIsSent` | cpp/src/epos_control/src/epos_motor_node.cpp:888-890 | and so in every image sent until the next cycle is completed |
| `RtLoop.Node.constructor` | cpp/src/epos_control/src/epos_motor_node.cpp:124-182 | the state a node starts in, from its parameters |
| `RtLoop.Node.Exchange` | cpp/src/epos_control/src/epos_motor_node.cpp:888-908 | the image is sent; a failed exchange only counts and ends the cycle with the image kept, a good one resets the count |
| `RtLoop.Node.EnterCycle` | cpp/src/epos_control/src/epos_motor_node.cpp:923-938 | on the first cycle of a fault, and only then, the targets are brought back to rest and to the actual position |
| `RtLoop.Node.SwitchMode` | cpp/src/epos_control/src/epos_motor_node.cpp:941-956 | the requested mode is taken over, with the new mode's target at rest |
| `RtLoop.Node.FollowWaveform` | cpp/src/epos_control/src/epos_motor_node.cpp:965-977 | an active waveform forces its mode, in the request as well |
| `RtLoop.Node.Compute` | cpp/src/epos_control/src/epos_motor_node.cpp:986-1019 | position mode goes to the drive as velocity mode; outputs and target by mode |
| `RtLoop.Node.CheckLimit` | cpp/src/epos_control/src/epos_motor_node.cpp:1040-1063 | with a fresh sample the motor is tripped exactly while a force is over the limit |
| `RtLoop.Node.ForceControl` | cpp/src/epos_control/src/epos_motor_node.cpp:1065-1112 | active force control overrides speed and forces velocity mode, with zero speed while tripped |
| `RtLoop.Node.DecideControl` | cpp/src/epos_control/src/epos_motor_node.cpp:1122-1141 | a reset request is consumed in fault cycles only; one made before a fault waits for it |
| `RtLoop.Node.WriteOutputs` | cpp/src/epos_control/src/epos_motor_node.cpp:1143-1164 | the image written, from the computed outputs and the safety check |
| `RtLoop.Node.HandleTarget` | cpp/src/epos_control/src/epos_motor_node.cpp:187-209 | what the target callbacks change, and that they change nothing else |
| `RtLoop.Node.HandleSwitch` | cpp/src/epos_control/src/epos_motor_node.cpp:250-335 | likewise for enable, fault reset and heartbeat |
| `RtLoop.Node.HandleMotion` | cpp/src/epos_control/src/epos_motor_node.cpp:211-289 | likewise for mode, acceleration and position speed limits, waveforms and the linear encoder |
| `RtLoop.Node.HandleForce` | cpp/src/epos_control/src/epos_motor_node.cpp:255-690 | likewise for force samples, the target force and the force commands |
| `RtLoop.Node.Run` | cpp/src/epos_control/src/epos_motor_node.cpp:848-1193 | main result: for every sequence of loop sections and callbacks in any interleaving, every completed cycle is safe (mode 9 or 10 and never 8, mode 9 under force control, zero speed and torque for each of the five reasons to stop, resets by the rule), every cycle completed while the force limit has tripped writes zero speed and torque, only completed cycles are ever sent, `consecutive_wkc_errors_` is the trailing run of failed exchanges, the motor is left held without a limit exactly when a check came too late, and a reset is pending exactly while a request is open; exchanges, images and completed cycles are those that the events give (`RtHistory.FollowAll`) |
| `RtHistory.PartsFollow` | cpp/src/epos_control/src/epos_motor_node.cpp:848-1193 | what the force limit and the fault reset make of the events are parts of that one account of a run |
| `RtHistory.CycleSees` | cpp/src/epos_control/src/epos_motor_node.cpp:1143-1157 | what a completed cycle sees: fault, enabling and trip state of that moment, and whether the last command and the last heartbeat are older than allowed |
| `RtHistory.CommandTime` | cpp/src/epos_control/src/epos_motor_node.cpp:187-209 | the time a command is late by is that of the last target callback among all events |
| `RtHistory.HeartbeatTime` | cpp/src/epos_control/src/epos_motor_node.cpp:250-255 | and likewise for the heartbeat |
| `RtLoop.StopsWhenHeld` | cpp/src/epos_control/src/epos_motor_node.cpp:1040-1164 | main result: whatever is commanded, in every cycle completed while the force limit has tripped the image asks for no speed and no torque |
| `FaultReset.PendingIffOpen` | cpp/src/epos_control/src/epos_motor_node.cpp:329-335 | main result: after any sequence of sections and callbacks a reset is pending if and only if a request came and no decision in a fault cycle has come since |
| `FaultReset.OldRequestResetsNewFault` | cpp/src/epos_control/src/epos_motor_node.cpp:1122-1141 | main result: the first decision after a fault has begun resets it if and only if a request came after it began or one made before it, however long ago, is still open |
| `RtLoop.RequestedTooEarly` | cpp/src/epos_control/src/epos_motor_node.cpp:1122-1141 | an interleaving: a reset requested without a fault outlives a whole cycle and resets the fault of the next one |
| `LimitTrip.StuckStep` | cpp/src/epos_control/src/epos_motor_node.cpp:1040-1063 | one event leaves the motor held without a limit if and only if it is a check that is over a limit turned off since its load, or it was so before and the event is no limit command |
| `LimitTrip.StuckIffTrippedLate` | cpp/src/epos_control/src/epos_motor_node.cpp:671-680 | main result: after any sequence of sections and callbacks the motor is held although no limit is set if and only if a check was over a limit turned off since its load, and no limit command has come since |
| `LimitTrip.KeptIffNotTurnedOffLate` | cpp/src/epos_control/src/epos_motor_node.cpp:671-680 | that the motor is held only while a limit is set is kept by every event except a limit command that turns the limit off between its load and its check |
| `LimitTrip.KeptUnlessTurnedOffLate` | cpp/src/epos_control/src/epos_motor_node.cpp:848-1193 | and so by every sequence of sections and callbacks without such a command at such a moment |
| `RtLoop.LimitTurnedOffTooLate` | cpp/src/epos_control/src/epos_motor_node.cpp:1040-1063 | an interleaving that does it: no later check lets go |
| `Velocity.StepIsTowards` | cpp/src/epos_control/include/control/slew_rate_limiter.hpp:9-22 | one cycle moves the filtered speed towards the target, not past it and not faster than allowed |
| `Velocity.CommandChangesSlowly` | cpp/src/epos_control/include/control/velocity_control.hpp:30-60 | the integer command stays within the limit and changes by at most accel*dt + 1 per cycle, through rounding and clamping, for changing targets too |
| `Velocity.CommandAtOnce` | cpp/src/epos_control/include/control/velocity_control.hpp:30-60 | a waveform, and a target without acceleration limit, go to the drive at once, cut to the speed limit |
| `Velocity.RunIsRamp` | cpp/src/epos_control/include/control/velocity_control.hpp:30-60 | main result: the filtered speed after any run of cycles in closed form, however the time is cut |
| `Velocity.ReachedIffTimeCoversGap` | cpp/src/epos_control/include/control/velocity_control.hpp:30-60 | the target is reached if and only if the time passed times the acceleration covers the gap; the approach is monotone, without overshoot, and final |
| `Velocity.EndsAtTarget` | cpp/src/epos_control/include/control/velocity_control.hpp:30-60 | once there, the command is the target cut to the limit |
| `GraphBuffers.WindowIsEndOfStream` | py/motor_gui_app/ui/graph_buffers.py:46-64 | main result: after any sequence of batches of any sizes the window is the end of the whole stream |
| `GraphBuffers.WindowKeepsAlignment` | py/motor_gui_app/ui/graph_buffers.py:46-64 | time, target and actual stay samples of each other when they slide |
| `GraphBuffers.TrimmingChangesNothing` | py/motor_gui_app/ui/graph_update.py:23-26 | dropping what exceeds the window beforehand cannot be seen |
| `GraphBuffers.Slide` | py/motor_gui_app/ui/graph_buffers.py:46-64 | one array, whether there is room or it has to move: its valid part is the end of what it held and the new data |
| `GraphBuffers.Buffers.CopySpeed` | py/motor_gui_app/ui/graph_buffers.py:46-64 | the three arrays show the last samples of what was shown and the batch, position by position |
| `GraphBuffers.Buffers.CopyRt` | py/motor_gui_app/ui/graph_buffers.py:66-79 | likewise for the two arrays of the timing graph |
| `GraphBuffers.Buffers.Reset` | py/motor_gui_app/ui/graph_buffers.py:38-44 | both graphs and both queues are empty again, and time starts anew |
| `GraphBuffers.Buffers.UpdateSpeedGraph` | py/motor_gui_app/ui/graph_update.py:18-50 | the queue is emptied, and the graph shows the last samples of what it showed and the whole queue, trimmed or not |
| `GraphBuffers.Buffers.UpdateRtGraph` | py/motor_gui_app/ui/graph_update.py:51-71 | likewise for the timing graph |
| `LogAnalysis.LoopArea` | py/tools/log_analysis_gui.py:75-82 | the loop computes the shoelace area, with the loop closed |
| `LogAnalysis.TriangleArea` | py/tools/log_analysis_gui.py:75-82 | the area of a triangle is half of what its sides span |
| `LogAnalysis.CutAlongChord` | py/tools/log_analysis_gui.py:75-82 | the signed sum of a loop is that of the two loops any chord cuts it into |
| `LogAnalysis.AreaIgnoresBaseline` | py/tools/log_analysis_gui.py:75-82 | the area is the same for every shift of either axis |
| `LogAnalysis.AreaIgnoresStart` | py/tools/log_analysis_gui.py:75-82 | the area is the same from whichever sample the loop is taken |
| `LogAnalysis.AreaIgnoresDirection` | py/tools/log_analysis_gui.py:75-82 | the area is the same in both directions |
| `LogAnalysis.SubtractMinimum` | py/tools/log_analysis_gui.py:68-72 | the result touches zero and is nowhere below; an empty list has no minimum |
| `LogAnalysis.SubtractBaseline` | py/tools/log_analysis_gui.py:62-66 | the baseline is the mean of the first samples, at least one and at most all |
| `LogAnalysis.ComputeStats` | py/tools/log_analysis_gui.py:894-905 | `raw_area` and `rel_area` are equal for every log and either kind of reference |
| `LogAnalysis.MovingAverage` | py/tools/log_analysis_gui.py:95-110 | the running sums give at every index the mean over the window clipped at the ends |
| `LogAnalysis.SumOfOne` | py/tools/log_analysis_gui.py:102-104 | neighbouring running sums differ by the sample between them |
| `LogAnalysis.WindowIs` | py/tools/log_analysis_gui.py:95-110 | which samples the mean is over: those within half the smallest odd width not below 3 and the one asked for |
| `LogAnalysis.SearchResumes` | py/tools/log_analysis_gui.py:1228-1230 | a search resumed where an earlier one stopped ends where a fresh one does |
| `LogAnalysis.Phases` | py/tools/log_analysis_gui.py:1223-1236 | for any times, each sample is placed in the interval of the latest time so far |
| `LogAnalysis.SortedTimesSearchAfresh` | py/tools/log_analysis_gui.py:1223-1236 | for sorted times that is a fresh search for every sample |
| `LogAnalysis.PhaseIsShareOfCycle` | py/tools/log_analysis_gui.py:1231-1235 | between sorted boundaries the phase is the share of the cycle that has passed, from 0 to below 100 |

## Left out

- Sockets, registers, mailbox transport and EEPROM access: messages and register values are parameters.
- Queries of a slave's PDO mapping, sync manager and FMMU tables: sizes and tables are inputs of the mapping.
- 32-bit wrap-around of latched times and cursors: times and addresses are unbounded.
- `DCnext`, `DCprevious` and the group's `hasdc` in `ecx_configdc`: they chain the clock slaves and do not enter the delays.
- `ecx_dcsync0` and `ecx_dcsync01`: arithmetic on the start time of the sync pulses.
- Fmmu.CreateMappings: running out of the four mapping units is the result false, exactly when the units do not suffice; the C code does not check for it, and what it then does behind the table is not described.
- SyncMemory.RightlyMappedIffTwoStretches: the sync managers in front of the last byte wanted are not empty and lie within the 16-bit address space of the slave; those behind may be anything. Empty ones between or in front of the data can make the mapping wrong although the data lies in two stretches (`SyncMemory.EmptySyncManagerBreaksMapping`, `SyncMemory.EmptyFirstBreaksMapping`).
- Fmmu.FindRun: a slave on which no sync manager of the type is found is given its last one, as in the code.
- The master's own copy of the group totals, `blockLRW`, `Ebuscurrent` and the slaves' state change after mapping.
- Frames.Frame.SetupDatagram: the interrupt field of a datagram is not described; the code never sets it.
- Eoe.Sender.Send: frames of more than 63 blocks of 32 bytes wrap the offset field in both code and model; the channel results are about frames within it, with mailbox data of at least 32 bytes and no time stamp appended.
- `ecx_EOEsetIp` and `ecx_EOEgetIp`: parameter exchange in a single message.
- SdoRead.Read: the upload requests and abort codes; an exchange that fails in the segment loop is repeated by the code until an answer comes, so only the answers are listed, and running out of them is the result Stalled.
- Foe.Read: the request with the file name, the progress hook, and mailboxes too small for any data.
- Foe.Write: the request with the file name and the progress hook.
- Soe.Read: an answer with less than a header in its length field, and error codes.
- PropagationDelay.DelaysAreArrivalTimes: every slave of the bus is entered at port 0; other entry ports are the subject of `EntryPorts`, one slave at a time.
- RtLoop.Node: the memory order of atomic accesses; callbacks come between sections of the loop body, not within one. The load of the force limit and its check are sections of their own.
- RtLoop.Node.Compute: the results of the position and velocity laws are arbitrary values here; the velocity law has its own module.
- RtLoop.Node.ForceControl: the result of the force law is an arbitrary value.
- RtLoop.Node.HandleForce: force commands that only change direction, feedback, gains, filters and waveforms of the force law.
- RtLoop.Node.HandleMotion: the log command, which does not touch the loop's state.
- Waveform generators, the PID and tanh force laws and the position law: floating-point formulas.
- Velocity.RunIsRamp: floating-point rounding; speeds are exact reals, and commands are not limited to 32 bits before the clamp.
- GraphBuffers.Buffers.UpdateSpeedGraph: the curves handed to the plot widgets, here and for the timing graph.
- LogAnalysis.Phases: rounding, and samples that are not numbers, which are filtered out before.
- Command parsing, logging, hysteresis plans, diagnostics, the user interfaces and device drivers.
