# A verified model of SOEM

SOEM is an EtherCAT master. This project models its algorithms in Dafny and proves what they are for: how the
tree of slaves and the propagation delays are derived from what slaves report, how process data is laid out in
logical memory, cut into datagrams, exchanged and collected, how threads share 16 frame buffers, how a redundant
cable hides a cut, and what the mailbox protocols (EoE, CoE SDO, FoE) and the EEPROM reader deliver.

Objects the C code updates in place are classes (`Context`, `Port`, `Stack`, `FrameBuffer`, `Master`, `Sender`,
`Receiver`); their methods follow the C functions and are proved against specification functions, about which the
lemmas state the properties. Pointers into the IO map are offsets, `NULL` plus an offset is a value of its own
(`Mapping.Stray`), the wire is a list of frames or a step of a state machine, and what slaves do to logical memory
is any function from address and byte to byte. Times are numbers of polls.

Where the code does not do what its documentation or its callers expect, the model keeps the code, and a lemma
gives the exact condition and, for a family of inputs, a concrete one. These results are listed at the end.

| files | what they model |
|---|---|
| SlaveTree, Topology, DistributedClock, PropagationDelay, HeldPorts, ClockWrap | network scan, clock configuration |
| Bytes, Datagram, Mailboxes | frames of datagrams, bytes, mailbox counter |
| FrameIndex, FrameSharing, Ring, Redundancy, CableLoss, RedundantPort | the network port |
| Mapping, MapWindows, Segments, MapGroup, MapLayout, MapSegments, MapOverlap, OverlapLayout | process data mapping |
| ProcessData, LogicalExchange, LostFrames, ReadWriteExchange, InputBits, WorkCounter, MapCounters, OverlapBlocked, OverlapOverrun, MapExchange | the cyclic exchange |
| Eoe, EoePort, EoeTransfer, EoeLoss, EoeReceive, Sdo, SdoPort, SdoTransfer, Foe | mailbox protocols |
| Sii, SiiPdo, AlState | EEPROM sections, states of slaves |

## Model

| member | source | states |
|---|---|---|
| Topology.Context.SearchParent | soem/ethercatconfig.c:446-470 | the backward scan over link counts stops at the nearest earlier slave that still has an open port |
| Topology.Context.FindParents | soem/ethercatconfig.c:372-470 | every slave of the list gets the parent the scan finds, and nothing else changes |
| Topology.SearchInvertsPreorder | soem/ethercatconfig.c:441-470 | for every tree with up to four ports a slave, listed in frame order, the parent found for each slave is its parent in the tree: the scan inverts preorder |
| DistributedClock.Context.ParentPort | soem/ethercatdc.c:216-244 | returns the first unconsumed port in the order 3, 1, 2, 0 and consumes exactly that one |
| DistributedClock.Context.FindEntryPort | soem/ethercatdc.c:311-354 | the entry port is the active port with the earliest time stamp, the one a frame visits first on a tie |
| DistributedClock.Context.ConfigDc | soem/ethercatdc.c:252-431 | the slave with the first clock becomes the clock of its group and of no other, group 0 has none unless it is that group's, all other groups stay; every slave has its receive times, each slave with a clock is chained to the next, links and parents stay; and delays are those of the run of a step function over the list |
| DistributedClock.ClockList | soem/ethercatdc.c:274-293 | for every mix of slaves, exactly those with a clock end up in the doubly linked clock list, in frame order, starting at the master record |
| PropagationDelay.DelaysAreArrivals | soem/ethercatdc.c:356-425 | for every tree in which slaves without a clock have at most one branch, all cable delays, all clock offsets: the delay derived for each slave with a clock is the time the frame takes to it from the first one, earlier sibling branches included |
| PropagationDelay.ScannedDelays | soem/ethercatdc.c:252-431 | the same with no tree given: parents found from link counts alone, then delays from latched times, give true travel times |
| HeldPorts.BranchUsesPortIff | soem/ethercatdc.c:407-425 | a branch without clocks uses up exactly one port of a slave with several branches, the one it hangs from in line, if and only if no slave of the branch has several branches itself; otherwise none; no other slave before it changes |
| HeldPorts.OwnPortIff | soem/ethercatdc.c:407-425 | so the next branch finds its own port if and only if that branch is such a chain |
| HeldPorts.ForkDelay | soem/ethercatdc.c:380-425 | behind a branch without clocks that forks, the delay of a slave with a clock is too short by half the time the frame was in that branch and by its own cable |
| ClockWrap.EntryIff | soem/ethercatdc.c:311-354 | with receive times in 32-bit registers, the port the frame came in by is taken for the entry port if and only if the counter, where it stands, does not wrap before the frame has left the slave |
| ClockWrap.WrappedDelays | soem/ethercatdc.c:252-431 | delays from 32-bit registers, whatever each counter starts from, are the true travel times whenever port 0 is the entry port found for every slave with a clock |
| Datagram.FrameBuffer.SetupDatagram | soem/ethercatbase.c:68-91 | the buffer holds a frame with this one datagram, and its length |
| Datagram.DatagramBytes | soem/ethercatbase.c:68-91 | where command, index, address, length with its follow bit, data and counter of a datagram are in the frame, byte by byte |
| Datagram.FrameBuffer.AddDatagram | soem/ethercatbase.c:106-146 | the frame holds the datagrams it had and the new one, and the offset returned is where its data lies in a received frame |
| Datagram.WalkInverts | soem/ethercatbase.c:106-146 | following the follow bits over a built frame gives back its datagrams if and only if the bits are set on all but the last |
| Datagram.ReadBackIff | soem/ethercatbase.c:106-146 | the same for the frame as received, without its Ethernet header, in terms of the `more` arguments of the calls that built it |
| Datagram.DataSlot | soem/ethercatmain.c:785-801 | in a received frame the data and counter of datagram k are at the position the builder returned |
| Datagram.WkcSlot | oshw/linux/nicdrv.c:479-487 | the working counter read at the end of a received frame is that of its last datagram |
| Mailboxes.RoundOfSeven | soem/ethercatmain.c:995-1004 | the counter of the n-th mailbox: never 0, repeating after seven and no sooner |
| FrameIndex.Port.GetIndex | oshw/linux/nicdrv.c:256-288 | the index taken is the first free one behind the last taken, round the 16 of them, or the very next when none is free; its buffer is allocated and no other changes |
| FrameSharing.RunsAreSafe | oshw/linux/nicdrv.c:424-517 | in every state of every run of any number of threads, under every schedule and order of arrival: indices held are distinct, a result and the buffer behind it are the reply to the frame last sent under the index, and no frame taken for another thread is dropped |
| FrameSharing.AbandonIff | oshw/linux/nicdrv.c:666-691 | giving up on a frame keeps the invariant behind that, in whatever state its buffer is, if and only if no frame under the index is on the wire or in another thread's hands |
| FrameSharing.SearchFinds | oshw/linux/nicdrv.c:256-288 | the search under its own mutex, step by step among other threads, never ends with an index in use when one was free at its beginning |
| FrameSharing.StaleRun | oshw/linux/nicdrv.c:666-691 | a run from the beginning in which a thread gives up while its frame is still on the way, and later takes that frame for the reply to another |
| Ring.FromPrimary | oshw/linux/nicdrv.c:337-368 | what comes out of a whole ring, or of one cut anywhere, for a frame sent into its primary side |
| Ring.FromSecondary | oshw/linux/nicdrv.c:337-368 | the same for its secondary side, where the frame goes round unprocessed |
| Redundancy.Arrives | oshw/linux/nicdrv.c:424-517 | a frame that comes is found after as many polls as frames wait before it, whatever those are |
| Redundancy.OtherBuffers | oshw/linux/nicdrv.c:459-515 | a look for one index takes at most one frame from the socket, stores it for the index that waits for it, and changes the buffer of no other |
| Redundancy.ArrivesAnyway | oshw/linux/nicdrv.c:424-517 | whoever has looked for another index before, and however often: a frame that comes is found by who waits for it |
| RedundantPort.Stack.InFrame | oshw/linux/nicdrv.c:424-517 | one look for a frame at one interface: own frame, frame of another index that waits, which is kept for it, or neither, whatever else is on the wire |
| RedundantPort.Port.OutFrameRed | oshw/linux/nicdrv.c:337-368 | after sending on both sides, with any of the two frames lost, each interface holds what the ring makes of the other on its side |
| RedundantPort.Port.WaitInFrameRed | oshw/linux/nicdrv.c:531-620 | for a whole cable and a cut anywhere, and any of the three frames lost, the primary buffer ends with the frame `Answered` tells in terms of the ring, and its counter is returned; without one the frame to send is unchanged |
| RedundantPort.Port.SrConfirm | oshw/linux/nicdrv.c:666-691 | however often frames are lost, sending and waiting end with the first answer a try gives, after as many tries as that takes |
| CableLoss.SureIff | oshw/linux/nicdrv.c:570-612 | for any cut and any losses, a try is sure to end with the frame as all slaves processed it, in order, once, if and only if none of the frames it needs is lost; without losses no one-place cut shows |
| CableLoss.TriesSureIff | oshw/linux/nicdrv.c:666-691 | trying again is sure to end so if and only if the first try that gives any answer loses nothing it needs |
| CableLoss.DummyTaken | oshw/linux/nicdrv.c:570-612 | a whole ring that loses the frame: the dummy passes for the answer, and nothing is sent again |
| Mapping.CollectSm | soem/ethercatconfig.c:1055-1084 | which sync managers one FMMU covers: those of the type, as long as data is missing and addresses connect |
| Mapping.CreateMappings | soem/ethercatconfig.c:1034-1161 | the FMMU entries of one direction of a slave follow each other without gaps, give a slave of fewer than 8 bits exactly its bits right at the cursor, any other whole bytes from the next byte edge, and reach the windows of `Windows` |
| MapWindows.ReachesOwnIff | soem/ethercatconfig.c:1064-1124 | the windows are those of the slave's own sync managers if and only if no run of them after a non-empty one leaves data missing, as the byte count is never reset |
| MapWindows.OneRun | soem/ethercatconfig.c:1055-1124 | sync managers that lie one behind the other, whatever others are listed between, and bring all the data are mapped by one entry over all of it |
| MapWindows.ThreeRunsWrong | soem/ethercatconfig.c:1064-1124 | three runs of 4, 2 and 6 bytes: the second entry maps 6 bytes of a sync manager of 2, the third 2 of 6 |
| MapWindows.EntriesFit | soem/ethercatconfig.c:1053-1160 | with at most two runs a direction a slave writes at most EC_MAXFMMU entries |
| MapWindows.EntriesFitIff | soem/ethercatconfig.c:1053-1160 | a slave writes more than EC_MAXFMMU entries if and only if, for some a, its outputs begin at least a runs and its inputs at least the rest of five, each told from the sync manager table run by run |
| MapWindows.FiveRunsOverflow | soem/ethercatconfig.c:1053-1160 | a slave whose outputs alone write more than EC_MAXFMMU entries |
| Segments.PackedIff | soem/ethercatconfig.c:1208-1220 | the greedy segment list covers everything with segments that fit a datagram if and only if there is any list of up to 64 segments that does and keeps each step of the mapping in one piece |
| Segments.EndsIff | soem/ethercatconfig.c:1208-1220 | segments end exactly where a step does not fit what its segment holds already |
| MapGroup.Context.ConfigMapGroup | soem/ethercatconfig.c:1172-1340 | the sequential map of a group: where each slave's bits lie, the pointers of each slave, the group's sizes and segments, the size returned; LRW is blocked exactly if it was or a slave of the group asks for that, and the group's clock stays |
| MapLayout.MapIsPacked | soem/ethercatconfig.c:1172-1340 | exactly the slaves of the group, or all for group 0, that have data get logical bits; those of different slaves are disjoint and increasing in slave order, outputs before inputs, inside the sizes returned |
| MapLayout.PointersLead | soem/ethercatconfig.c:1136-1155 | each slave's pointers and start bits lead to its own bits, counted from the start of its group, and from address 0 when group 0 is mapped |
| MapLayout.PointersRightIff | soem/ethercatconfig.c:1136-1155 | that is the place of the bits in the IO map exactly when another group than 0 is mapped, or group 0 starts at address 0 |
| MapSegments.ExchangeableIff | soem/ethercatconfig.c:1195-1325 | the map is one the cyclic exchange can use if and only if there is a list of up to 64 datagram-sized segments that keeps every slave's advance in one piece |
| MapSegments.SplitsOnlyBits | soem/ethercatconfig.c:1195-1325 | no segment ends inside a byte oriented slave; one of fewer than 8 bits can only be split at the byte edge it crosses |
| MapSegments.SplitIff | soem/ethercatconfig.c:1195-1325 | a slave is split if and only if it has fewer than 8 bits, crosses a byte edge, and the next step that moves on from that edge does not fit the segment it finds there |
| MapSegments.BitsAreSplit | soem/ethercatmain.h:271-272 | four slaves whose map splits such a slave, which the comment there rules out |
| MapOverlap.Context.ConfigOverlapMapGroup | soem/ethercatconfig.c:1350-1478 | the overlapped map of a group: each slave's slot in logical memory, pointers, sizes, segments, and the same about LRW and the clock |
| OverlapLayout.OverlapIsPacked | soem/ethercatconfig.c:1350-1478 | exactly the slaves of the group get a slot; slots of different slaves are disjoint, a slave's outputs and inputs start together, all outputs lie in the first Obytes and all inputs in the first Ibytes, and the larger is the length of a cycle |
| OverlapLayout.OverlapPointers | soem/ethercatconfig.c:1457-1461 | outputs are found where they are in logical memory, counted as in PointersLead, inputs Obytes further on; a slave without inputs is left with a stray pointer unless there are no outputs |
| OverlapLayout.OthersMove | soem/ethercatconfig.c:1457-1461 | mapping one group leaves each slave of another alone if and only if it has no output bytes |
| OverlapLayout.OthersStayIff | soem/ethercatconfig.c:1457-1461 | the same told before mapping, by the sizes of the group's slaves |
| OverlapLayout.PointerMoves | soem/ethercatconfig.c:1457-1461 | two groups: mapping the second moves the input pointer of the slave of the first from 0 to 2 |
| OverlapLayout.OverlapExchangeableIff | soem/ethercatconfig.c:1409-1448 | as for the sequential map, with slots in place of advances |
| OverlapLayout.OverlapNeverSplits | soem/ethercatconfig.c:1409-1448 | no segment ends inside the slot of a slave |
| OverlapLayout.CycleFitsIff | soem/ethercatmain.c:1781-1787 | what a cycle stores stays inside the size the mapping returned if and only if there are no more output than input bytes |
| OverlapLayout.LastSlaveDecides | soem/ethercatconfig.c:1450-1453 | the same told before mapping: the last slave of the list is outside the group or takes no more output than input bytes |
| OverlapLayout.OutputsOnlyOverrun | soem/ethercatconfig.c:1450-1453 | a slave with 16 output bits only: mapped to 2 bytes, a cycle stores up to byte 4 |
| ProcessData.Context.SendProcessData | soem/ethercatmain.c:1762-1929 | the frames sent and the entries stacked are those of the plan of the cycle, one each, the reference clock in the first, with distinct free indices taken |
| ProcessData.FrameBytes | soem/ethercatmain.c:1883-1925 | each frame byte by byte: the command, logical address, length and data of its segment, and with the clock a second datagram with command 14 to register 0x0910 of station dcadr |
| ProcessData.Context.ReceiveProcessData | soem/ethercatmain.c:1974-2060 | the IO map, the clock and the result are those of handling the stacked entries in order, all indices are freed, and the stack is empty; or some copy goes past the IO map, exactly when the copies told beforehand do not fit it |
| ProcessData.ReleasedTaken | soem/ethercatmain.c:1710-1747 | receiving a cycle gives back exactly the indices sending took |
| LogicalExchange.GatherAll | soem/ethercatmain.c:1991-2052 | whichever frames came back, exactly their answers are stored and their counters added, and the time is that of the clock, which only the station dcadr gives, and only from register 0x0910 |
| LogicalExchange.CycleIsOneExchange | soem/ethercatmain.c:1883-1925 | any number of segments, with or without the clock, in any order of return, for any slaves: the IO map after a cycle with LRW is that of one exchange over all logical addresses, and the result is the sum of the counters |
| LostFrames.OnlyCame | soem/ethercatmain.c:1984-2060 | a wait that was given up counts as a lost frame, whatever its buffer holds, and the result is a working counter exactly when some frame with process data came |
| LostFrames.LossIsLocal | soem/ethercatmain.c:1991-2052 | lost frames leave their piece of the IO map as it was and no other |
| LostFrames.LostFirstFrame | soem/ethercatmain.c:2005-2018 | with the clock in a first frame that is lost, the end of a longer second one is not stored |
| LostFrames.FitsIff | soem/ethercatmain.c:2005-2018 | with the clock, no copy goes past the IO map if and only if the first frame that arrives has room behind its data for the length of the first one sent |
| LostFrames.ClockMapIff | soem/ethercatmain.c:2005-2018 | then the IO map is the one a cycle without the clock leaves if and only if each byte that the wrong length adds or leaves out is the same anyway; so it is if the lengths are |
| LostFrames.LostFirstOverrun | soem/ethercatmain.c:2005-2018 | segments of 1466 and 11 bytes, the first frame lost: the copy ends 1455 bytes past the IO map |
| ReadWriteExchange.BlockedCycle | soem/ethercatmain.c:1800-1881 | with LRW blocked, the inputs are those of one read over the input area, all else in the IO map stays, and output counters count twice |
| InputBits.BlockedSameIff | soem/ethercatmain.c:1800-1925 | LRW and LRD leave the same inputs if and only if the bits of the input area no slave is mapped to were 0 in the IO map |
| InputBits.ByteInputsSame | soem/ethercatmain.c:1800-1925 | so it makes no difference for byte oriented inputs |
| InputBits.ThreeBitsDiffer | soem/ethercatmain.c:1800-1925 | a map of three input bits and a content for which the two differ |
| WorkCounter.SameCounters | soem/ethercatmain.c:2027-2044 | the counters of LRD plus twice those of LWR make up those of LRW, for any slaves whose data lie in the areas, wherever segments end |
| MapCounters.MappedCounters | soem/ethercatmain.c:2027-2044 | so they do for every group the sequential mapping maps |
| OverlapBlocked.ReadCovers | soem/ethercatmain.c:1803-1846 | with LRW blocked in an overlapped map the read datagrams cover the input bytes if a segment ends with them, and everything a cycle exchanges otherwise |
| OverlapBlocked.AmountFits | soem/ethercatmain.c:1803-1846 | they cover more than there are inputs if and only if there are inputs, more outputs, and no segment ends with the inputs |
| OverlapBlocked.BlockedInsideIff | soem/ethercatmain.c:1803-1846 | exactly then such a cycle does not stay inside the size the mapping returned |
| OverlapBlocked.OverlapBlockedCollected | soem/ethercatmain.c:1803-1846 | such a cycle stores for input byte p what slaves put at a logical address Obytes too high |
| OverlapBlocked.RightIff | soem/ethercatmain.c:1803-1846 | the inputs are those of the slaves' own addresses, whatever the slaves are, if and only if the group has no outputs or no inputs |
| OverlapOverrun.BlockedOverrun | soem/ethercatmain.c:1803-1846 | one slave with 16 output and 8 input bits: mapped to 3 bytes, a cycle stores up to byte 4, and not the right input |
| MapExchange.InputsArrive | soem/ethercatmain.c:1974-2060 | mapper and cycle together: after an exchange, byte j behind a slave's input pointer is what the slaves give for the logical address its data was mapped to |
| MapExchange.OutputsSent | soem/ethercatmain.c:1762-1929 | byte j behind a slave's output pointer goes out in a frame for the logical address its data was mapped to |
| MapExchange.OverlapInputsArrive | soem/ethercatmain.c:1974-2060 | the same for the inputs of an overlapped map |
| MapExchange.OverlapOutputsSent | soem/ethercatmain.c:1762-1929 | and for its outputs |
| MapExchange.BlockedInputsArrive | soem/ethercatmain.c:1974-2060 | with LRW blocked, byte j behind a slave's input pointer is what the slaves give for the mapped address in a read, whatever was in the IO map |
| MapExchange.BlockedOutputsSent | soem/ethercatmain.c:1800-1881 | and byte j behind its output pointer goes out in an LWR |
| EoePort.Sender.EOEsend | soem/ethercateoe.c:322-398 | the mailboxes handed out are the fragments of the frame, up to the first that fails; a frame takes a frame number, and one more for every 256 fragments |
| Eoe.FragmentFields | soem/ethercateoe.c:345-396 | every fragment of a frame field by field: which bytes, lengths, last fragment, port, numbers of fragment and frame, blocks of the frame or of its offset, mailbox counter |
| EoePort.Receiver.EOEreadfragment | soem/ethercateoe.c:534-640 | one fragment read, as a function of the caller's variables |
| Eoe.RefusedIff | soem/ethercateoe.c:553-610 | a mailbox is refused exactly when it is no EoE, or a fragment that neither begins a frame nor is the one due in number, frame and offset; nothing is stored, and a frame has to begin anew |
| EoeTransfer.DeliveredIff | soem/ethercateoe.c:534-640 | whatever was read before, a frame whose fragments all come is delivered if and only if it has at most 2016 bytes and fits the buffer |
| EoeTransfer.TimeRemoved | soem/ethercateoe.c:622-632 | a frame with the four bytes of a time behind it is delivered without them |
| EoeLoss.NothingWrongDelivered | soem/ethercateoe.c:534-640 | whatever fragments are lost, with fewer than 16 frames between two that come: every frame delivered was sent, in order, none twice |
| EoeLoss.MixedAtSixteen | soem/ethercateoe.c:578-600 | sixteen frames apart, halves of two frames are delivered as one |
| EoeLoss.SafeGapIff | soem/ethercateoe.c:534-640 | nothing but what was sent is delivered for all streams with fewer than n frames between two fragments that come, if and only if n is at most 16 |
| EoeReceive.EOErecv | soem/ethercateoe.c:415-518 | the outcome of the blocking receive: timeout, error or frame |
| EoeReceive.ReceivedIff | soem/ethercateoe.c:415-518 | a frame is received if and only if the port is one of 16, the frame and the size rounded to blocks modulo 2048 fit the buffer and the last fragment starts below 2048 |
| EoeReceive.TimeCut | soem/ethercateoe.c:495-504 | the blocking receive cuts them off too |
| SdoPort.Master.SDOwrite | soem/ethercatcoe.c:330-539 | what is handed to the slave is the beginning of a whole download, cut short only as the replies say; success is the reply to the last |
| SdoPort.DownloadFields | soem/ethercatcoe.c:363-480 | the commands, index, subindex, data and size of a download's mailboxes, by numbers, for sizes up to 32 bits |
| SdoPort.SegmentFields | soem/ethercatcoe.c:449-490 | the segments of a download of less than 65536 bytes, field by field: which bytes each holds, command with toggle, last and unused octets, length |
| SdoPort.Master.SDOread | soem/ethercatcoe.c:120-311 | data, error or a loop without end, as the answers determine, and the requests made, with alternating toggle |
| SdoPort.UploadFields | soem/ethercatcoe.c:140-231 | the commands of an upload's requests, 0x40 or 0x50 first and then 0x60 and 0x70 in turn, index and subindex, by numbers |
| Sdo.OthersRefused | soem/ethercatcoe.c:173-175 | an answer of another protocol, that is no SDO response, or for another index gives nothing, whatever comes later; one that is ours is taken |
| Sdo.HangsIff | soem/ethercatcoe.c:211-284 | the segment loop never ends if and only if no answer is a last segment or something else than a segment |
| Sdo.StaysInsideIff | soem/ethercatcoe.c:195-272 | an upload, however it ends, stores no more than the buffer holds if and only if it is not segmented or the first answer and the segments behind it bring no more than there is room for |
| Sdo.TooMuch | soem/ethercatcoe.c:195-272 | answers by which a hundred bytes go into a buffer of five |
| Sdo.TooMuchThenAbort | soem/ethercatcoe.c:195-284 | the same with an abort at the end: the upload fails with a hundred bytes stored |
| Sdo.AnnouncedSize | soem/ethercatcoe.c:195-272 | a slave that sends no more than it announces stays within the buffer |
| SdoTransfer.RoundTripIff | soem/ethercatcoe.c:330-539 | for every object, index, access and mailbox size: what a download sends, an upload reads back as the same bytes and length, if and only if it fits the buffer, has fewer than 65536 bytes, and is not empty without complete access |
| Foe.PacketsMakeUp | soem/ethercatfoe.c:256-290 | the packets of a file joined are the file, all but the last full, the last not |
| Foe.PacketCount | soem/ethercatfoe.c:256-290 | there are size / maxdata + 1 of them |
| Foe.Master.FOEwrite | soem/ethercatfoe.c:199-353 | a write request (2) and data packets (3) numbered from 1 are handed to the slave, size / maxdata + 1 of them if all are asked for, none for an empty file, and the result, as the answers determine |
| Foe.Master.FOEread | soem/ethercatfoe.c:71-186 | a read request (1) and one acknowledgement (4) for each packet whose data was stored; the file so far and the result |
| Foe.ReadEnds | soem/ethercatfoe.c:113-178 | how a read ends after any number of full packets, with result and data: silence, another protocol, an error, a packet of a wrong number or too large for the buffer, the last packet |
| Foe.RefusedAt | soem/ethercatfoe.c:246-346 | how a write ends after any number of packets, with the result by numbers |
| Foe.ReadBackIff | soem/ethercatfoe.c:117-160 | packets of a file are read back as the file if and only if it fits the buffer |
| Foe.RoundTripIff | soem/ethercatfoe.c:199-353 | what a write of a non-empty file hands out, a read makes the file again if and only if it fits the buffer |
| Foe.SuccessIff | soem/ethercatfoe.c:246-346 | a write reports success if and only if each packet is acknowledged, or the slave is busy at some point |
| Foe.BusyEnds | soem/ethercatfoe.c:246-346 | a slave busy after k packets, or at once, ends the write with success; it has the file if and only if all packets were sent, or all but an empty last one |
| Foe.WholeIff | soem/ethercatfoe.c:246-346 | success with the whole file sent, exactly when busy came no earlier than behind the last packet |
| Sii.Context.SiiGetByte | soem/ethercatmain.c:423-486 | the byte returned is the slave's EEPROM byte, cached or not, or 0xff beyond 4096; every cached byte is right; the chunk of 4 or 8 bytes that is read is cached besides what was, and what was cached of another slave is forgotten |
| Sii.Context.SiiFind | soem/ethercatmain.c:494-526 | the position the search over the slave's sections finds |
| Sii.FindsFirst | soem/ethercatmain.c:494-526 | that is the first section of the category, or 0 exactly when there is none |
| Sii.FindsInLayout | soem/ethercatmain.c:494-526 | for every list of sections stored from 0x80 on, category, number of words, words, and an end mark: the position is 0x82 and the bytes of the sections before the first of the category, or 0 when there is none |
| SiiPdo.SiiPDO | soem/ethercatmain.c:703-768 | index, sync manager and bits of every PDO of the section, and sizes as 16-bit sums |
| SiiPdo.SectionOfBytes | soem/ethercatmain.c:719-755 | the bytes of a section, from the EEPROM, by which it holds given PDOs |
| SiiPdo.SizesAddUp | soem/ethercatmain.c:736-755 | the bits of the eight sync managers make up the bits of the section, PDOs of none counting nothing |
| SiiPdo.ReturnedSizes | soem/ethercatmain.c:746-767 | the sizes returned add up to the one returned for the section modulo 65536, and exactly when they stay below it |
| AlState.BuildRequests | soem/ethercatmain.c:772-795 | one frame with a status read for each of up to 64 slaves, in order, follow bits right, and the positions of the answers |
| AlState.FPRDMulti | soem/ethercatmain.c:772-806 | the statuses the slaves put into the frame, or zeros without an answer |
| AlState.Context.ReadState | soem/ethercatmain.c:812-913 | state and code of every slave, the lowest state and the OR of all codes, through frames of up to 64 slaves or by the broadcast alone; when all slaves report one of the five states, that is what is returned and stored everywhere |
| AlState.LowestIsMinimum | soem/ethercatmain.c:887-904 | the lowest state is that of some slave, and no slave's is lower |
| AlState.ShortcutIff | soem/ethercatmain.c:824-871 | the broadcast gives each slave the status asking it would give if and only if no bits but a state are reported, no slave reports 0, and BOOT is not INIT with PRE_OP |
| AlState.ShortcutIs | soem/ethercatmain.c:824-850 | the broadcast is enough exactly when its last hexadecimal digit is 1, 2, 3, 4 or 8, its bit 4 is clear, and every slave has counted |
| AlState.SameState | soem/ethercatmain.c:832-904 | when all slaves report one of the five states, that is the lowest state and the broadcast |
| AlState.OrCodesIs | soem/ethercatmain.c:881-904 | the code left in the master record holds every slave's code and nothing else |
| AlState.BootIsAmbiguous | soem/ethercatmain.c:844-850 | a slave in INIT and one in PRE_OP pass for two in BOOT |

## Where the code falls short

- `ClockWrap.EntryIff`: a receive time counter that wraps under a frame gives its slave a wrong entry port.
- `HeldPorts.OwnPortIff`, `ForkDelay`: a branch without clocks that forks leaves its port open, and the next slave with a clock gets a wrong delay.
- `FrameSharing.AbandonIff`, `StaleRun`: giving up on a frame that is not lost lets its reply answer a later one.
- `CableLoss.SureIff`, `TriesSureIff`, `DummyTaken`: lost frames give wrong answers that are not noticed.
- `MapWindows.ReachesOwnIff`: three or more unconnected runs of sync managers are mapped to wrong windows.
- `MapWindows.EntriesFitIff`, `FiveRunsOverflow`: five runs overflow the FMMU table.
- `MapLayout.PointersRightIff`: mapping group 0 sets wrong pointers when it does not start at address 0.
- `MapSegments.SplitIff`, `BitsAreSplit`: a slave of fewer than 8 bits can be cut by a segment boundary.
- `OverlapLayout.OthersStayIff`, `PointerMoves`: overlapped mapping moves the input pointers of slaves it does not map.
- `OverlapLayout.LastSlaveDecides`: a cycle over an overlapped map can store beyond the size the mapping returned.
- `OverlapBlocked.RightIff`, `BlockedInsideIff`, `OverlapOverrun.BlockedOverrun`: an overlapped map with LRW blocked reads wrong addresses, and more than there is room for.
- `InputBits.BlockedSameIff`: unmapped input bits keep old content with LRW only.
- `LostFrames.FitsIff`, `ClockMapIff`, `LostFirstOverrun`: with the clock, a lost first frame makes the next be copied with the wrong length, also past the IO map.
- `EoeLoss.SafeGapIff`, `MixedAtSixteen`: frame numbers repeat after 16 frames.
- `EoeReceive.ReceivedIff`: the blocking receive has other limits than reading by fragments.
- `Sdo.HangsIff`, `StaysInsideIff`, `TooMuch`, `TooMuchThenAbort`: an upload loop without end, and one beyond its buffer.
- `SdoTransfer.RoundTripIff`: objects of 65536 bytes or more are cut, as sizes are kept in 16 bits; empty ones become four bytes.
- `Foe.SuccessIff`, `BusyEnds`: a busy slave ends a write with success.
- `AlState.ShortcutIff`: the broadcast hides status bits, silent slaves and BOOT.

## Left out

- ConfigDc: delays are unbounded integers, and the subtraction of two receive times does not wrap; SYSOFFSET and the other registers ecx_configdc writes are left out.
- WrappedDelays: one direction; what delays follow from a wrong entry port is not told.
- ScannedDelays: slaves without a clock that have more than one branch (OwnPortIff tells what goes wrong below them) and entry ports other than 0.
- RunsAreSafe: a thread gives up or sends again only when its frame is gone, and some index is free when a thread starts to look for one (what happens otherwise are AbandonIff and StaleRun); sends that fail are not modelled.
- GetIndex: the buffer states of the redundant interface, which the code sets the same way, are left out.
- SrConfirm: frames that are lost do not arrive late, and sends do not fail otherwise than by losing the frame. One thread at a time uses the redundant port; a poll by another thread between the two sends can find the primary frame before the secondary buffer is marked. Waiting without redundancy is covered by RunsAreSafe only. Timers are numbers of polls.
- SendProcessData: one transmit buffer stands for those of all indices; more than 16 frames in a cycle are outside the model.
- CycleIsOneExchange: expected working counters (outputsWKC, inputsWKC) are left out, and so are cycles that begin while an older frame is on its way.
- CollectSm: a sync manager that starts before the end of the one before counts as connected, as in the code; whether its bytes are reached is then not stated.
- InputsArrive, OutputsSent and the others of MapExchange: group 0, when that is mapped, has to start at address 0 (PointersRightIff tells why).
- ReceiveProcessData: nothing is said about the state after a copy past the IO map.
- CreateMappings: the FMMU table is a list that grows, so an entry behind the fourth is one more entry, not a write past the table; the writes to the slave's registers are left out.
- ConfigMapGroup: blockLRW is a flag, not a counter; logical addresses are unbounded; the copies of pointers and sizes in the master record are left out. A segment list that needs more than 64 entries loses bytes, as in the code, and is then not exchangeable.
- ConfigOverlapMapGroup: leaves out the same as ConfigMapGroup.
- EOEsend: frames of 65536 bytes or more, and frames longer than a mailbox whose data part is shorter than 32 bytes; the loop that sends them has no end.
- EOErecv: mailboxes that hold fewer bytes than their length field tells, when these fit the buffer.
- FOEread: a mailbox whose length field tells more than it holds is read on with zeros, also behind the mailbox buffer.
- EOEreadfragment: mailboxes that hold fewer bytes than their length field tells.
- SDOread: answers whose length field does not fit the mailbox, or is below that of the header, are required not to come, and sizes of 2 GiB or more.
- SDOwrite: a mailbox that cannot be sent and one that is not answered are the same to it. Answers are told apart as proper, improper and missing, not by their fields.
- FOEwrite, FOEread: begin when the request is in the slave. An empty file is never sent: the first acknowledgement ends the write.
- SiiGetByte: requires that the last chunk of the EEPROM buffer is not asked for beyond its end; EEPROM retries and control are left out.
- SiiPDO: requires a section with at least one PDO whose length field is right; section lengths with the top bit set are not modelled.
- ReadState: for an empty slave list the code sends one datagram to an address it has not set; the model sends none. The broadcast's own frame is not built.
- ecx_mbxsend and ecx_mbxreceive, the error ring, hooks, name and print functions, the CoE object dictionary, SoE, EoE IP settings: device I/O or tables, without a harder property.
- Slave state requests, register setup, recovery and reconfiguration, EEPROM writes: scripts of device I/O.
- Drivers, operating system layers and the other platforms' copies of nicdrv.c.
