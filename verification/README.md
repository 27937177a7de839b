# Verified models of the gateway's kernel drivers

Dafny models and proofs of six patched Linux 3.10 drivers and boot parsers for MediaTek gateways
(`config/mtk2/kernel/`). Each part pairs the code in its own imperative form (classes with the fields the driver
updates, arrays it works on in place, loops with invariants) with a specification, and proves what the code is for
as lemmas about all inputs or all runs.

- **USB serial engine** (`SerialWrite`, `SerialTxPort`, `SerialRead`, `SerialRxPort`): writers, the holder of the
  BUSY bit, completion callbacks, throttle and unthrottle as threads with program counters. Each spinlock section
  and each atomic bit operation is one step. The classes are the source's functions, with any other threads running
  between two steps; a ghost trace ties every method to a run of the machine, so the theorems about runs hold of the
  methods.
- **MTD partitions** (`MtdLayout`, `MtdErase`, `MtdIsolation`, `MtdScan`, with arithmetic in `Modulo`): layout with
  sentinels in 64-bit arithmetic, read-modify-write erase on a flash array, isolation of partitions, bad-block scans.
- **Ethernet receive ring** (`RxRing`, `RxIrq`, `RxDevice`): hardware fills and the receive loop, statement by
  statement, and around them the interrupt handler and the tasklet.
- **Hardware NAT** (`HnatParse`, `HnatFrame`, `HnatToken`, `HnatFlow`, `HnatFlowTable`, `HnatChecksum`): the packet
  parser against a grammar, the VLAN tag used as an interface token, the flow table against the neighbour table, the
  checksum base.
- **Boot parsers** (`RootDevice`, `FsNames`): root-device names and the in-place list of file systems.
- **QMI receive fix-up** (`QmiFixup`): raw IP packets among Ethernet frames, and the address that keeps them apart.

`dafny verify dfyconfig.toml` checks the whole project.

## Assumptions

- The hardware of the receive ring fills from its own index on and stops in front of the CPU index; it writes the
  buffer before the done bit. The initial ring is as the driver's start function leaves it.
- A frame that completes raises the receive status; only the interrupt handler lowers it.
- A master erase that fails changes at most the blocks it touches.
- The USB core gives an URB back once, and then runs its callback; the thread steps are atomic and in program order.
- The packet engine returns an unbound frame unchanged; the hardware changes a bound flow entry only by giving it up,
  and does not reuse the entry a transmit handler is filling. Transmission is serialised.
- `kfifo`, `skb_push`, `__vlan_put_tag`, `blk_lookup_devt`, `simple_strtoul` and the flash chip's driver are
  primitives with the behaviour stated beside them.

## Where the code does not do what one would expect

Each is a lemma with the exact condition, and a concrete run or input where one is needed.

- A refused submission releases BUSY outside the lock without looking at the FIFO again: bytes queued in between wait
  for the next write (`SerialWrite.LostWakeupIff`, `LostWakeupHappens`).
- The completion callback of a read URB sets the free bit before it passes the data on, so an unthrottle in between
  can submit the URB while its buffer is read (`SerialRead.ReadSafeIff`, `ReadRaceHappens`). An open or unthrottle on
  a port whose read URBs are all idle and unclaimed is safe until the next one (`QuietLoopIsReadSafe`); a throttled
  port with an URB in flight can always come to the race (`ThrottledRaces`).
- A RETAIN partition with exactly the requested room gets size 0, which is the "full size" sentinel
  (`MtdLayout.RetainTailIff`); a full-size partition with less than 0x100000 bytes left wraps (`FullTailIff`); an
  out-of-reach entry restarts the running offset at 0 (`OutOfReachOverlaps`). `LayoutOrderedIff` says for every table
  exactly when the partitions come out in order, disjoint and inside the device.
- With CONFIG_SUPPORT_OPENWRT a partition inside one block that touches neither end stays writeable, as the message
  at mtdpart.c:632 allows, but erasing it damages bytes outside (`MtdIsolation.PartialEraseExactIff`,
  `OpenWrtSelfContainedIff`); the test cuts the size to 32 bits, so one of 4 GiB and less than a block passes, too
  (`MtdLayout.OpenWrtWriteableIff`). A failing erase puts back nothing of what was saved, so it is sure to spare the
  neighbours exactly if the partition is not partial and consists of whole blocks (`FailureContainedIff`).
- The second bad-block scan looks at one good block more than the padded length covers, and the padded length itself
  covers one too many for each bad block the first scan found (`MtdScan.Splitter.PadEraseSize`).
- A failing build_skb loses a frame that no counter shows, and the new buffer (`RxRing.DiscardIsSilent`).
- A receive interrupt that comes while the transmit ring is full is acknowledged and only remembered, which strands
  the frames that wait; nothing else does (`RxIrq.PutsOffIff`, `NeverStrandedIff`, `PutOffHappens`). Room made by the
  transmit path does not wake the tasklet; the next interrupt of any kind that finds room does
  (`StrandedUntilInterrupt`; the file that changes tx_ring_full is not part of this model).
- `isSpecialTag` is never true, so only 0x8100 tags are recognised (`HnatParse.PktParseResult.IsSpecialTag`).
- With GMAC1 down the receive handler passes the frame up the stack still tagged and as one of GMAC1's
  (`HnatToken.ExtIfRxHandler`). A device can be registered twice, and then survives its unregistration
  (`DuplicateIff`, `UnregisterRemovesIff`, `SurvivorHappens`).
- A neighbour update between filling and binding of a flow entry is missed by the clean-up, and one without a device
  runs none (`HnatFlow.StaleBindHappens`); `AlwaysFreshIff` says exactly which runs keep the tables in agreement.

## Model

| member | source | states |
|---|---|---|
| `SerialWrite.FifoOrder` | config/mtk2/kernel/generic.c:172-248 | In every interleaving of writers, holders of the BUSY bit, completion callbacks and FIFO resets, the buffers handed to the hardware are, in order, the accepted bytes with whole chunks left out: the ones the USB core refused, the ones a reset threw away, and at most one that the BUSY holder has in hand. |
| `SerialWrite.FifoOrderUnbroken` | config/mtk2/kernel/generic.c:172-248 | With no refusal and no reset, URB bytes in submission order, then the buffer in hand, then the FIFO, are exactly what the writes queued: the data of each, in order, cut to the room there was. |
| `SerialWrite.WriteQueuesPrefix` | config/mtk2/kernel/generic.c:242 | A write puts the longest prefix of its data that fits behind what the FIFO holds and changes nothing else of the port; no other step accepts a byte. |
| `SerialWrite.AcceptedIsQueued` | config/mtk2/kernel/generic.c:230-248 | Over every run the accepted bytes are the data of the writes, in order, each cut to the room there was. |
| `SerialWrite.WireRecords` | config/mtk2/kernel/generic.c:202-203 | A buffer is counted as sent exactly when its URB goes into flight, and it is the buffer of that URB. |
| `SerialWrite.CompletionRecords` | config/mtk2/kernel/generic.c:434-437 | Bytes are counted as completed exactly when their URB becomes idle again. |
| `SerialWrite.NoDoubleSubmit` | config/mtk2/kernel/generic.c:192-203 | Whenever a thread is about to submit a write URB, that URB is idle, its length is the count taken, and no other thread is about to submit. |
| `SerialWrite.InFlightBufferUntouched` | config/mtk2/kernel/generic.c:188-203 | No step of any thread changes the buffer of an URB that the hardware or its callback still owns. |
| `SerialWrite.TxBytesExact` | config/mtk2/kernel/generic.c:198-210 | At every step tx_bytes is the bytes of URBs not yet accounted for plus what the BUSY holder has added and not yet turned into an URB in flight or taken back; so it is never negative. |
| `SerialWrite.CharsInBufferExact` | config/mtk2/kernel/generic.c:268-283 | chars_in_buffer is the accepted bytes neither completed nor lost, off only by the buffer the BUSY holder has in hand, and exact whenever no thread is inside. |
| `SerialWrite.LostWakeupIff` | config/mtk2/kernel/generic.c:179-217 | With no thread inside, bytes wait while a write URB is free if and only if the FIFO is not empty and BUSY was last released by the refused-submission path, outside the lock. |
| `SerialWrite.NoLostWakeup` | config/mtk2/kernel/generic.c:179-187 | In every run without a refused submission, once no thread is inside, a non-empty FIFO means that the hardware has every write URB, so a callback will come. |
| `SerialWrite.LostWakeupHappens` | config/mtk2/kernel/generic.c:204-214 | A concrete run of two threads in which a refused submission loses a wakeup: nobody inside, the only URB free, a byte queued. |
| `SerialWrite.NextKeeps` | config/mtk2/kernel/generic.c:172-248 | Every enabled step of every thread keeps the whole invariant: mutual exclusion by BUSY, URB ownership, the byte ledger, the counter and the wakeup obligation. |
| `SerialWrite.RunKeeps` | config/mtk2/kernel/generic.c:172-248 | The invariant holds after every run. |
| `SerialTxPort.TxPort.constructor` | config/mtk2/kernel/usb-serial.c:979-1011 | A new port is the initial state of the machine: all write URBs free, nothing queued. |
| `SerialTxPort.TxPort.WriteStart` | config/mtk2/kernel/generic.c:172-217 | The retry loop, between other threads, is a run of the machine; the result is what the USB core said to the last URB submitted, all earlier ones were taken and are on the wire, and a finished call has left. |
| `SerialTxPort.TxPort.PickUrb` | config/mtk2/kernel/generic.c:182-190 | In one critical section: the lowest-numbered free URB if there is one and something to send, otherwise BUSY is cleared there and then. |
| `SerialTxPort.TxPort.PrepareWriteBuffer` | config/mtk2/kernel/generic.c:160-164 | Takes the longest prefix of the FIFO that fits the URB and leaves the rest queued in order. |
| `SerialTxPort.TxPort.AddTxBytes` | config/mtk2/kernel/generic.c:198-200 | Adds the count of the buffer in hand, and only the BUSY holder is there. |
| `SerialTxPort.TxPort.SubmitUrb` | config/mtk2/kernel/generic.c:202-203 | The URB was idle; it is in flight afterwards exactly if the USB core accepted it. |
| `SerialTxPort.TxPort.BackOff` | config/mtk2/kernel/generic.c:204-214 | After a refusal the free bit and the counter are restored and BUSY is released, in that order, with other threads in between. |
| `SerialTxPort.TxPort.Write` | config/mtk2/kernel/generic.c:230-248 | The longest prefix of the data that the FIFO has room for becomes the next accepted bytes; its length is the result unless the last submission was refused, whose verdict then is. |
| `SerialTxPort.TxPort.WriteBulkCallback` | config/mtk2/kernel/generic.c:423-452 | The callback subtracts the URB length and sets its free bit in one section, then either empties the FIFO (error) or starts writing. |
| `SerialTxPort.TxPort.CharsInBufferNow` | config/mtk2/kernel/generic.c:277-283 | Reads the FIFO length plus tx_bytes under the lock: the accepted bytes neither completed nor lost, with the exact offset while a thread is sending. |
| `SerialRead.NoDoubleSubmit` | config/mtk2/kernel/generic.c:318-340 | For all interleavings of open, completions, throttle and unthrottle, a read URB about to be submitted is idle, and only one thread is about to submit it. |
| `SerialRead.ThrottledImpliesRequested` | config/mtk2/kernel/generic.c:412-419 | throttled implies throttle_req in every reachable state. |
| `SerialRead.IdleUrbsAreDropped` | config/mtk2/kernel/generic.c:318-360 | With no thread inside and the port not throttled, the read URBs that the hardware does not have are exactly the ones an error path gave up. |
| `SerialRead.NoLostResume` | config/mtk2/kernel/generic.c:387-480 | In every error-free run of an opened port with no thread inside: either the port is throttled and a throttle came after the last open and the last unthrottle, or every read URB is in flight. |
| `SerialRead.RequestedIff` | config/mtk2/kernel/generic.c:121-480 | Over every run the throttle request is set exactly if a throttle came after the last open and the last unthrottle. |
| `SerialRead.ThrottledIff` | config/mtk2/kernel/generic.c:412-419 | Over every run the port is throttled exactly if a completion callback picked up a request and neither open nor unthrottle came since. |
| `SerialRead.FlagsStep` | config/mtk2/kernel/generic.c:412-475 | Open and unthrottle clear both flags, throttle sets the request, a callback past its data copies it, and nothing else touches them. |
| `SerialRead.DroppedByErrors` | config/mtk2/kernel/generic.c:318-360 | A read URB is given up only by its own failing completion or submission or, in the loop, by the failing submission of an earlier one, and only a submission takes it back. |
| `SerialRead.ReadSafeIff` | config/mtk2/kernel/generic.c:394-410 | Over a whole run no URB is in flight while its callback still reads its buffer if and only if the USB core never accepts one then. |
| `SerialRead.GrabIff` | config/mtk2/kernel/generic.c:328-410 | The single step that breaks it is exactly the submission of an URB whose buffer is being read. |
| `SerialRead.QuietLoopIsReadSafe` | config/mtk2/kernel/generic.c:121-480 | An open or unthrottle called while every read URB is idle and no thread has claimed one is followed, up to the next of them, only by states in which no URB in flight is being read, whatever completes and throttles. |
| `SerialRead.ThrottledRaces` | config/mtk2/kernel/generic.c:318-480 | From every reachable state in which the port is throttled and a read URB is in flight, a run goes on to an URB in flight whose callback still reads it. |
| `SerialRead.OneLoopIsReadSafe` | config/mtk2/kernel/generic.c:342-410 | With one open and no unthrottle it never happens, for any number of completions and throttles in any order. |
| `SerialRead.ReadRaceHappens` | config/mtk2/kernel/generic.c:398-479 | A run of two completions, a throttle and an unthrottle that submits an URB whose data are still being passed on. |
| `SerialRead.RunKeeps` | config/mtk2/kernel/generic.c:318-480 | Ownership of free bits and the coverage of idle URBs hold after every run. |
| `SerialRxPort.RxPort.ClearFlags` | config/mtk2/kernel/generic.c:126-130 | The critical section of open: both throttle flags are false afterwards and no URB changes. |
| `SerialRxPort.RxPort.Open` | config/mtk2/kernel/generic.c:121-137 | Clears both throttle flags, so that afterwards the request is set only if a throttle came since, and runs the submission loop from URB 0; an unfinished call waits for an URB that is not idle. |
| `SerialRxPort.RxPort.SubmitReadUrb` | config/mtk2/kernel/generic.c:318-340 | One thread wins the free bit; a refusal gives it back and is reported. |
| `SerialRxPort.RxPort.SubmitReadUrbs` | config/mtk2/kernel/generic.c:342-360 | Submits every free URB in order; at the first refusal it waits for the URBs from there down to 0. |
| `SerialRxPort.RxPort.ReadBulkCallback` | config/mtk2/kernel/generic.c:387-420 | Sets the free bit; after an error it stops, otherwise it passes the data on, picks up the throttle request and resubmits unless throttled. |
| `SerialRxPort.RxPort.ProcessReadUrb` | config/mtk2/kernel/generic.c:409-410 | Passing the data on is a step of its own; the free bit is already set, and nothing of the port changes. |
| `SerialRxPort.RxPort.Throttle` | config/mtk2/kernel/generic.c:454-464 | Only the request flag changes. |
| `SerialRxPort.RxPort.Unthrottle` | config/mtk2/kernel/generic.c:467-480 | Clears both flags in one section, so that afterwards the request is set only if a throttle came since, and resubmits exactly if the port was throttled. |
| `MtdLayout.AllocatePartition` | config/mtk2/kernel/mtdpart.c:437-668 | The steps of the code compute the specified offset, size, erase size and flags for every entry and every running offset, in 64-bit arithmetic that wraps. |
| `MtdLayout.LandsWhereAsked` | config/mtk2/kernel/mtdpart.c:523-585 | An entry with an offset of its own inside the device lands there, and an appending one at the running offset; the size is what was asked, what is left, or all but the last 0x100000 bytes, with the wrapping cases given exactly. |
| `MtdLayout.LandsOnNextBlock` | config/mtk2/kernel/mtdpart.c:526-546 | NXTBLK lands on the first erase-block boundary at or after the running offset, with the size by the same rule. |
| `MtdLayout.LandsBeforeTail` | config/mtk2/kernel/mtdpart.c:547-567 | RETAIN lands at the running offset and takes what is left but the tail; with exactly the tail left it is a full-size partition, with less it is registered as it came and without an erase size. |
| `MtdLayout.OutOfReachIsDisabled` | config/mtk2/kernel/mtdpart.c:572-580 | An entry whose place is not inside the device is registered empty at 0. |
| `MtdLayout.EraseSizeIsLargest` | config/mtk2/kernel/mtdpart.c:586-610 | On a device with several erase regions the erase size is the largest of the regions that the partition has a byte in. |
| `MtdLayout.ResolveSentinels` | config/mtk2/kernel/mtdpart.c:524-546 | The offset sentinels APPEND and NXTBLK, in both configurations. |
| `MtdLayout.BiggestIsMaximum` | config/mtk2/kernel/mtdpart.c:592-605 | No erase region that overlaps the partition has a larger erase size, and one has exactly that size. |
| `MtdLayout.WriteProtect` | config/mtk2/kernel/mtdpart.c:612-650 | The write-protection decision for both settings of CONFIG_SUPPORT_OPENWRT. |
| `MtdLayout.PickEraseSize` | config/mtk2/kernel/mtdpart.c:586-610 | On ascending regions the two loops find the largest erase size among the regions that overlap the partition. |
| `MtdLayout.PartitionList.AddMtdPartitions` | config/mtk2/kernel/mtdpart.c:1063-1092 | The list afterwards holds the partitions of the table, newest first, each laid out from the end of the one before it in the table, in front of what was there. |
| `MtdLayout.LayoutOrderedIff` | config/mtk2/kernel/mtdpart.c:523-585 | For every table, fixed offsets included, the partitions are in order, pairwise disjoint and inside the master if and only if every entry fits at its running offset. |
| `MtdLayout.EntryFitsIff` | config/mtk2/kernel/mtdpart.c:523-585 | One entry lands at or after the running offset and inside the device exactly if it fits; it then leaves its own end as the running offset. |
| `MtdLayout.RetainTailIff` | config/mtk2/kernel/mtdpart.c:547-567 | RETAIN leaves exactly the requested tail if and only if there is strictly more room than requested, or exactly one megabyte was requested and is there. |
| `MtdLayout.FullTailIff` | config/mtk2/kernel/mtdpart.c:560-585 | A full-size partition leaves the last 0x100000 bytes if and only if at least that much is left. |
| `MtdLayout.OutOfReachOverlaps` | config/mtk2/kernel/mtdpart.c:572-580 | A table in which an entry does not fit: the running offset restarts at 0 after an out-of-reach entry, and the next partition overlaps the first. |
| `MtdLayout.WriteableIffAligned` | config/mtk2/kernel/mtdpart.c:634-650 | Without CONFIG_SUPPORT_OPENWRT a placed partition stays writeable exactly if it may be and starts and ends on boundaries of its erase size. |
| `MtdLayout.OpenWrtWriteableIff` | config/mtk2/kernel/mtdpart.c:612-630 | With CONFIG_SUPPORT_OPENWRT: exactly if aligned at both ends or, its size cut to 32 bits, no larger than one erase block; off the boundaries it is flagged partial and, if writeable, erased as one piece. |
| `MtdErase.PartRead` | config/mtk2/kernel/mtdpart.c:75-92 | Reads the bytes at the partition offset. |
| `MtdErase.PartWrite` | config/mtk2/kernel/mtdpart.c:190-196 | Programs the bytes at the partition offset and nothing else. |
| `MtdErase.SaveBlock` | config/mtk2/kernel/mtdpart.c:246-286 | Saves the one block whose other bytes the erase will take, and widens the request to block boundaries. |
| `MtdErase.PartErase` | config/mtk2/kernel/mtdpart.c:241-304 | On success the chip holds exactly what EraseThrough says and addr and len are back at their requested values. On a failure before the master erase the chip is unchanged, a failing master erase changes touched blocks only, and addr and len are given exactly: for a partial partition they stay lowered and widened. |
| `MtdErase.EraseCallback` | config/mtk2/kernel/mtdpart.c:306-338 | Writes back the saved bytes of the neighbours and makes addr and len relative to the partition again. |
| `MtdIsolation.PartialEraseAt` | config/mtk2/kernel/mtdpart.c:241-338 | Byte by byte, what erasing a whole partial partition leaves on the chip, wherever its ends lie. |
| `MtdIsolation.PartialEraseExactIff` | config/mtk2/kernel/mtdpart.c:241-338 | The erase leaves every outside byte unchanged and every inside byte 0xFF, whatever the chip holds, if and only if the partition starts or ends on a block boundary. |
| `MtdIsolation.ApplyAt` | config/mtk2/kernel/mtdpart.c:190-304 | What a write or an erase through a partition that is not partial does to every byte of the chip: bits cleared at its place, or every block with a byte in the range set to 0xFF. |
| `MtdIsolation.WriteReadsBack` | config/mtk2/kernel/mtdpart.c:75-196 | What is written to erased bytes through a partition reads back through it. |
| `MtdIsolation.FailureAt` | config/mtk2/kernel/mtdpart.c:241-304 | What a failing master erase leaves in every byte: torn content in the one block of a partial partition, otherwise in every block with a byte in the range. |
| `MtdIsolation.RunStaysInside` | config/mtk2/kernel/mtdpart.c:190-304 | No run of in-range writes and erases through a self-contained partition changes a byte outside it. |
| `MtdIsolation.Isolation` | config/mtk2/kernel/mtdpart.c:75-304 | So no such run changes what any disjoint partition reads. |
| `MtdIsolation.EachAsIfAlone` | config/mtk2/kernel/mtdpart.c:75-304 | In a run that interleaves operations through any number of such partitions, each one holds what its own operations alone would have left. |
| `MtdIsolation.NotSelfContainedLeaks` | config/mtk2/kernel/mtdpart.c:246-330 | The shape is necessary: for any other non-empty partition there are a chip content and an operation that change a byte outside. |
| `MtdIsolation.FailureContainedIff` | config/mtk2/kernel/mtdpart.c:241-304 | For every erasable non-empty partition: an erase that the master fails leaves every byte outside the partition alone, whatever the chip holds, the request and the content torn into the touched blocks, if and only if the partition is not partial and starts and ends on erase-block boundaries. |
| `MtdIsolation.WriteableIsSelfContained` | config/mtk2/kernel/mtdpart.c:634-650 | Without CONFIG_SUPPORT_OPENWRT every partition that stays writeable has the shape that isolates. |
| `MtdIsolation.OpenWrtSelfContainedIff` | config/mtk2/kernel/mtdpart.c:612-630 | With it, on a uniform device below 4 GiB, a writeable partition has that shape unless it lies inside one block and touches neither end of it. |
| `MtdScan.Splitter.ScanKernel` | config/mtk2/kernel/mtdpart.c:986-1001 | After k blocks bad_detected counts the bad ones among them, (k - bad) * erasesize >= len, k is the least such count, and for whole blocks rootfs starts right behind exactly len / erasesize good ones. |
| `MtdScan.BadIsMarked` | config/mtk2/kernel/mtdpart.c:989-993 | For a scan inside the device the count is the number of blocks whose own mark is bad. |
| `MtdScan.EnoughIff` | config/mtk2/kernel/mtdpart.c:986-995 | The scan ends exactly if the device holds enough good blocks or its last block reads as good. |
| `MtdScan.Splitter.PadEraseSize` | config/mtk2/kernel/mtdpart.c:851-890 | The padded length grows by the bad blocks of the second scan and by those of the first, already in bad_detected. It covers the good blocks that were asked for and one more for each bad block of the first scan, so it is right exactly if that found none; the scan itself looks at one good block beyond it. |
| `MtdScan.PaddedLenIsLeast` | config/mtk2/kernel/mtdpart.c:856-858 | The padded length is the least one of at least len that ends on an erase-block boundary. |
| `RxRing.RingOrder` | config/mtk2/kernel/raether.c:831-1316 | Under every interleaving of hardware fills, consumption and releases, each completed descriptor is consumed exactly once and in ring order: the frames handed over are the completed ones with fate Passed, in completion order. |
| `RxRing.PassedOrCountedIff` | config/mtk2/kernel/raether.c:915-1012 | Between two frames rx_packets plus rx_dropped is the number of consumed descriptors if and only if build_skb never failed. |
| `RxRing.DiscardIsSilent` | config/mtk2/kernel/raether.c:979-1012 | In any reachable state a build_skb failure consumes a frame, keeps both buffers of the slot and moves no counter. |
| `RxRing.DiscardHappens` | config/mtk2/kernel/raether.c:979-1012 | The state in which that happens is reachable: the very first frame. |
| `RxRing.SlotBuffersApart` | config/mtk2/kernel/raether.c:1293-1316 | Outside the slot being served, descriptor and driver table agree, no two slots share a buffer, and none is in the hands of the stack. |
| `RxRing.HeldFramesUntouched` | config/mtk2/kernel/raether.c:831-1316 | What the stack was handed stays as it was while it holds the buffer. |
| `RxRing.HardwareWritesFreeSlot` | config/mtk2/kernel/raether.c:784-815 | The hardware writes only into a slot that is not done and a buffer nobody holds, and turns a frame away exactly when all slots but one wait. |
| `RxRing.StopsWhenDrained` | config/mtk2/kernel/raether.c:847-857 | The loop finds its next slot not done exactly if no completed descriptor is left. |
| `RxRing.NextKeeps` | config/mtk2/kernel/raether.c:831-1316 | Every statement of the loop, every fill and every release keeps the ring invariant. |
| `RxRing.RunKeeps` | config/mtk2/kernel/raether.c:831-1316 | The ring invariant holds after every run. |
| `RxDevice.Device.Serve` | config/mtk2/kernel/raether.c:906-1316 | One turn of the loop, with the hardware acting between any two statements: with a new buffer and an skb the frame in the slot goes to the stack, is counted as received, and the slot gets another buffer; without, it is given up, counted as dropped exactly if there was no buffer, and the slot keeps its own. |
| `RxDevice.Device.RecycleSlot` | config/mtk2/kernel/raether.c:920-967 | Without a new buffer or skb the slot goes back to the hardware with its old buffer. |
| `RxDevice.Device.PassOn` | config/mtk2/kernel/raether.c:1222-1316 | The frame in the buffer, the next in ring order, goes to the stack and the slot is armed with the new buffer. |
| `RxDevice.Device.HandsOverInOrder` | config/mtk2/kernel/raether.c:831-1316 | At every moment of any execution of the driver's functions the frames handed over are the completed ones with fate Passed, in ring order. |
| `RxDevice.Device.EthRecv` | config/mtk2/kernel/raether.c:746-1352 | At most NUM_RX_MAX_PROCESS + 1 frames are consumed, their fates decided by buffer and skb; all but possibly the last are handed over in ring order. The caller is told to come back exactly if that many were consumed or the last was given up; otherwise the ring is drained. |
| `RxDevice.Device.EiReceive` | config/mtk2/kernel/raether.c:1417-1470 | With room in the transmit ring it consumes as the loop does, with memory for all NUM_RX_MAX_PROCESS + 1 frames or all that waited. Afterwards the tasklet is scheduled again or the interrupt is enabled; in the latter case every frame that waits was completed after the last test of a done bit, and its status is pending or the handler put it off. |
| `RxDevice.Device.EiInterrupt` | config/mtk2/kernel/raether.c:1977-2090 | What the handler acknowledges it acts on: it masks the interrupt and schedules the tasklet, or with a full transmit ring remembers to and changes nothing else. |
| `RxIrq.NoFrameForgotten` | config/mtk2/kernel/raether.c:1417-2090 | In every run of hardware, interrupt handler, tasklet and transmit path: when completed frames wait and the tasklet neither runs nor is scheduled, the interrupt is enabled, and its status is pending or the handler put the frames off. |
| `RxIrq.NextInterruptWakes` | config/mtk2/kernel/raether.c:2053-2080 | And the next interrupt that finds room in the transmit ring schedules the tasklet. |
| `RxIrq.UnmaskedAfterLastTest` | config/mtk2/kernel/raether.c:1427-1450 | When the tasklet is about to unmask the interrupt, the frames that wait were completed after the last test of a done bit, and for them the status is pending or the handler has acted. |
| `RxIrq.PutsOffIff` | config/mtk2/kernel/raether.c:1977-2090 | A step strands completed frames (they wait, no receive status is pending, the tasklet is neither scheduled nor going to look again) if and only if it is an interrupt with a full transmit ring that acknowledges the status of waiting frames while the tasklet is not scheduled and either idle or past its last look. |
| `RxIrq.NeverStrandedIff` | config/mtk2/kernel/raether.c:1417-2090 | Over a whole run no frame is ever stranded if and only if no interrupt ever puts one off like that. |
| `RxIrq.StrandedUntilInterrupt` | config/mtk2/kernel/raether.c:2053-2085 | Stranded frames are remembered; an interrupt that finds room schedules the tasklet, while one that finds none, or room made by the transmit path alone, leaves them stranded. |
| `RxIrq.PutOffHappens` | config/mtk2/kernel/raether.c:2082-2085 | A run of three events that strands a frame, with the transmit ring no longer full. |
| `RxIrq.OrderOfRun` | config/mtk2/kernel/raether.c:831-2090 | With interrupts and tasklet around the ring too, the frames handed over are the completed ones with fate Passed, in ring order. |
| `RxIrq.RunIsSafe` | config/mtk2/kernel/raether.c:831-2090 | The ring invariant and the watch over waiting frames hold after every run. |
| `HnatParse.PktParseResult.ParseLayerInfo` | config/mtk2/kernel/ra_nat.c:1481-1767 | Accepts exactly the frames that the recursive tag-peeling specification accepts, and then says the same: addresses, tags, session, kind, layer-3 and layer-4 starts, and the header bytes found there. |
| `HnatParse.PktParseResult.ParseLayer2` | config/mtk2/kernel/ra_nat.c:1513-1591 | The nested tests agree with peeling all 802.1Q tags; with more than two the type field stays 0x8100. |
| `HnatParse.PktParseResult.ParseLayer3` | config/mtk2/kernel/ra_nat.c:1593-1688 | Unfragmented TCP or UDP over IPv4, or any IPv6, and nothing else; 6RD and GRE are refused. |
| `HnatParse.PktParseResult.GetPppoeSid` | config/mtk2/kernel/ra_nat.c:1402-1435 | Accepts version 1, type 1 and IPv4 or IPv6 in PPP, and only then sets the session id. |
| `HnatParse.PktParseResult.IsSpecialTag` | config/mtk2/kernel/ra_nat.c:1438-1455 | Never true, because the test uses a logical "and". |
| `HnatFrame.ParseAfterPrint` | config/mtk2/kernel/ra_nat.c:1481-1767 | For every packet of the grammar, with any number of tags and any IPv4 header length, the printed frame is accepted exactly if it is unicast with at most two tags, a proper session and an eligible network header, and everything is recovered with exact offsets. |
| `HnatFrame.PrintAfterParse` | config/mtk2/kernel/ra_nat.c:1481-1767 | Every accepted frame with a whole network header is the print of the packet in it. |
| `HnatFrame.AcceptedIffPrinted` | config/mtk2/kernel/ra_nat.c:1481-1767 | The parser accepts the grammar and nothing else. |
| `HnatToken.Loop` | config/mtk2/kernel/ra_nat.c:594-841 | A frame sent around through the packet engine comes back with its bytes, length and protocol, and with its device if and only if the table slot still holds it. |
| `HnatToken.ExtIfRxHandler` | config/mtk2/kernel/ra_nat.c:594-818 | Frames of type 0x0800, 0x86DD, 0x8100, 0x8863 and 0x8864 to single hosts, of a device in the table, are redirected with the index of its first slot, all others untouched; with GMAC1 down the frame goes on up the stack still tagged. |
| `HnatToken.ExtIfPingPongHandler` | config/mtk2/kernel/ra_nat.c:824-866 | Tag removed, protocol and device restored from the frame and the table; the frame is for this host exactly if its destination is the address of a device in the table, and broadcast or multicast by the group bit and the broadcast address. |
| `HnatToken.Skb.RemoveVlanTag` | config/mtk2/kernel/ra_nat.c:166-205 | Removes the four bytes behind the addresses and returns their index, or reports 65535 and leaves the frame alone. |
| `HnatToken.Skb.PutTag` | config/mtk2/kernel/ra_nat.c:782-795 | Inserts the tag with the given index behind the addresses. |
| `HnatToken.UntaggedAfterTagged` | config/mtk2/kernel/ra_nat.c:166-205 | Untagging a tagged frame gives the frame and its index back. |
| `HnatToken.Register` | config/mtk2/kernel/ra_nat.c:3006-3021 | The device ends up in the first slot that is free or holds it. |
| `HnatToken.Unregister` | config/mtk2/kernel/ra_nat.c:3022-3033 | Frees the first slot that holds the device. |
| `HnatToken.SurvivorHappens` | config/mtk2/kernel/ra_nat.c:3006-3033 | Register a, register d, unregister a, register d, unregister d: the table still holds d. |
| `HnatToken.DuplicateIff` | config/mtk2/kernel/ra_nat.c:3006-3021 | Registering enters a device a second time exactly if a slot in front of its own is free. |
| `HnatToken.UnregisterRemovesIff` | config/mtk2/kernel/ra_nat.c:3022-3033 | Unregistering removes the device exactly if it was not entered twice. |
| `HnatFlow.FlowCacheAgrees` | config/mtk2/kernel/ra_nat.c:4729-4788 | After every orderly run of binds and neighbour events, a bound IPv4 entry whose destination has a neighbour record holds the current address of that neighbour. |
| `HnatFlow.BoundEntriesFrozen` | config/mtk2/kernel/ra_nat.c:1770-1775 | In every run a bound entry changes only when the hardware gives it up or a neighbour update contradicts it, and then only its state. |
| `HnatFlow.UpdateThenBindIff` | config/mtk2/kernel/ra_nat.c:2967-3004 | A neighbour update between filling and binding leaves an agreeing table if and only if it did not change the address of that destination. |
| `HnatFlow.StaleBindHappens` | config/mtk2/kernel/ra_nat.c:3241-3350 | A run of fill, update and bind that leaves an entry bound with the old address. |
| `HnatFlow.RunKeeps` | config/mtk2/kernel/ra_nat.c:3234-3350 | In every run the entry about to be bound is not bound yet, and every entry is well shaped. |
| `HnatFlow.OrderlyIff` | config/mtk2/kernel/ra_nat.c:2967-4788 | From a state in which the table, with the entry being filled, agrees with the neighbour table, a step leads to such a state if and only if it is orderly: a fill brings the address on record (one in another layout happens not to contradict it), no update overtakes the entry being filled, and one without a device contradicts no bound entry. |
| `HnatFlow.AlwaysFreshIff` | config/mtk2/kernel/ra_nat.c:2967-4788 | Over a whole run the table, with the entry being filled, agrees at every moment if and only if every step is orderly. |
| `HnatFlowTable.FlowTable.TxHandler` | config/mtk2/kernel/ra_nat.c:3234-3466 | Binds exactly if the frame is eligible and every fill succeeds; an entry that was bound is left alone. In the IPv4 layout the bound entry then holds the addresses, ports, type of service and protocol found in the bytes of the printed packet, its MAC addresses in the byte order of the table, its session, and the port and device index. |
| `HnatFlowTable.FilledCarries` | config/mtk2/kernel/ra_nat.c:1770-3004 | For every printed IPv4 packet that can be speeded up, the fills and the binding leave exactly those values in the entry. |
| `HnatFlowTable.FlowTable.FillInL2Info` | config/mtk2/kernel/ra_nat.c:1770-1897 | Refuses a bound entry; otherwise fills addresses, tags, number of tags and session, the destination in the byte order of the table. |
| `HnatFlowTable.FlowTable.FillInL3Info` | config/mtk2/kernel/ra_nat.c:1923-2042 | Fills the new addresses, except in a DS-Lite entry; a DS-Lite packet changes the kind of the entry. |
| `HnatFlowTable.FlowTable.FillInL4Info` | config/mtk2/kernel/ra_nat.c:2044-2112 | Fills the new ports and the protocol, except in a DS-Lite entry. |
| `HnatFlowTable.FlowTable.SetExtIfNum` | config/mtk2/kernel/ra_nat.c:2921-2965 | The index is that of the last slot that holds the device, unlike on receive. |
| `HnatFlowTable.FlowTable.SetEntryBind` | config/mtk2/kernel/ra_nat.c:2967-3004 | The entry is bound as it was filled, whatever happened since. |
| `HnatFlowTable.FlowTable.ClearEntry` | config/mtk2/kernel/ra_nat.c:4729-4788 | Invalidates exactly the bound entries with that destination and another address. |
| `HnatFlowTable.FlowTable.NeteventHandler` | config/mtk2/kernel/ra_nat.c:4790-4809 | A neighbour update with a device clears contradicting entries; one without leaves the table alone. |
| `HnatChecksum.TwoFoldsSuffice` | config/mtk2/kernel/ra_nat.c:1901-1919 | For every header two folds with the three-bit mask give the full one's complement fold; no mask cuts anything off. |
| `HnatChecksum.BaseIsRestOfSum` | config/mtk2/kernel/ra_nat.c:1901-1919 | For a valid header the base is congruent modulo 65535 to the sum of the words other than total length, identification and checksum. |
| `HnatChecksum.CompletionIsValid` | config/mtk2/kernel/ra_nat.c:1901-1919 | Adding any new length and identification, folding and complementing gives a valid IPv4 header checksum. |
| `RootDevice.NameToDevT` | config/mtk2/kernel/do_mounts.c:205-283 | The in-place code on the 32-byte buffer computes the interpretation of the name, for every name and every table of disks. |
| `RootDevice.PartitionOfDisk` | config/mtk2/kernel/do_mounts.c:259-269 | /dev/<disk><n> for a disk not ending in a digit gives that partition unless the whole name is a disk. |
| `RootDevice.PartitionOfNumberedDisk` | config/mtk2/kernel/do_mounts.c:271-277 | /dev/<disk>p<n> for a disk ending in a digit gives that partition unless an earlier interpretation exists. |
| `RootDevice.WrappedIff` | config/mtk2/kernel/do_mounts.c:265 | The partition number survives the assignment to int exactly if it is below 2^31. |
| `RootDevice.WholeDisk` | config/mtk2/kernel/do_mounts.c:248-253 | The name of a disk itself comes first, whatever it ends in. |
| `RootDevice.LeadingZeroRefused` | config/mtk2/kernel/do_mounts.c:259-262 | A partition number with a leading zero is never accepted. |
| `RootDevice.OnlyTheseNames` | config/mtk2/kernel/do_mounts.c:237-283 | Nothing else is ever found: a name that leads to a device is a disk, a disk not ending in a digit with a partition number, or a disk ending in one with p and a number, each with bangs for slashes. |
| `RootDevice.ReservedAndTooLong` | config/mtk2/kernel/do_mounts.c:237-246 | nfs and ram give their fixed numbers, and names longer than 31 characters no device. |
| `RootDevice.BackOverDigits` | config/mtk2/kernel/do_mounts.c:259-260 | The backward scan stops in front of all trailing digits. |
| `FsNames.GetFsNames` | config/mtk2/kernel/do_mounts.c:328-353 | The buffer packs exactly the names on tab-led lines, or the pieces between commas, in order and double-NUL-terminated; the walk of the caller sees them up to the first empty one. |
| `FsNames.Compact` | config/mtk2/kernel/do_mounts.c:339-351 | In-place compaction in one buffer: the write pointer never passes the read pointer, and nothing unread is overwritten. |
| `FsNames.CopyLine` | config/mtk2/kernel/do_mounts.c:347-348 | Copies one line down over the same buffer; the unread part is unchanged. |
| `FsNames.SplitInPlace` | config/mtk2/kernel/do_mounts.c:332-338 | Commas become NULs and a second NUL follows, as if each piece had been written with its own terminator. |
| `FsNames.WalkOfPack` | config/mtk2/kernel/do_mounts.c:399 | The walk over a packed list sees its names up to the first empty one, whatever follows. |
| `FsNames.UpToEmptyIff` | config/mtk2/kernel/do_mounts.c:399 | That is the whole list if and only if no name is empty. |
| `FsNames.NamesOfListing` | config/mtk2/kernel/do_mounts.c:339-351 | Of the list the kernel prints for any registered file systems the names taken are those that need a device, in order. |
| `FsNames.SplitOfJoined` | config/mtk2/kernel/do_mounts.c:332-338 | The pieces of names joined by commas are the names. |
| `QmiFixup.FixupIsRightIff` | config/mtk2/kernel/qmi_wwan.c:79-113 | With an address that does not look like IP, raw IPv4 and IPv6 packets gain a header with the right type, 0x0800 or 0x86dd, and frames keep type, source, payload and a correct destination, if and only if the frame is not to a group address whose first byte looks like IP. |
| `QmiFixup.AddressConditionNeeded` | config/mtk2/kernel/qmi_wwan.c:79-113 | An address that looked like IP would break every frame to us. |
| `QmiFixup.AddressNeverLooksLikeIp` | config/mtk2/kernel/qmi_wwan.c:122-134 | Over every run of address changes the high nibble is never 4 or 6 if it was not at first. |
| `QmiFixup.NetDev.BindTail` | config/mtk2/kernel/qmi_wwan.c:320-333 | After the bind the high nibble is not 4 or 6; only the modem default and IP-like addresses are changed. |
| `QmiFixup.NetDev.MacAddr` | config/mtk2/kernel/qmi_wwan.c:122-134 | Refuses IP-like addresses and reports why; otherwise the address is the requested one. |
| `QmiFixup.Skb.RxFixup` | config/mtk2/kernel/qmi_wwan.c:79-113 | Drops exactly the packets that are too short or lack headroom, unchanged; otherwise the first four bits and the group bit decide: header of IPv4, of IPv6, a new destination, or nothing. |
| `QmiFixup.PossiblyIff` | config/mtk2/kernel/qmi_wwan.c:116-119 | One mask recognises both high nibbles, 4 and 6, and nothing else. |
| `QmiFixup.MadeLocalIsNoIp` | config/mtk2/kernel/qmi_wwan.c:330-333 | The two bit operations leave a locally administered address that is not IP-like, and keep the multicast bit. |
| `QmiFixup.Receive` | config/mtk2/kernel/qmi_wwan.c:79-333 | From a bind through any address changes to a packet with any headroom: it is dropped exactly if it is raw and lacks room for a header, and otherwise the stack gets the right frame. |

## Left out

- SerialTxPort.TxPort.WriteStart: the endless retry loop takes a bound on its passes; a call that reaches the bound stops inside the loop and says so.
- SerialWrite.NextKeeps: a writer is one step that queues and one thread that sends; the port's close, suspend and resume are not modelled.
- SerialRxPort.RxPort.Open: a port without a bulk-in endpoint, which submits nothing, is not modelled.
- SerialRxPort.RxPort.ProcessReadUrb: which bytes arrive and the sysrq characters among them are not modelled.
- SerialRxPort.RxPort.SubmitReadUrbs: usb_kill_urb is a wait for the URB to be idle; cancelling it is the hardware's business.
- MtdLayout.AllocatePartition: allocation failure, BUG_ON, the width of mtd_div_by_eb and the bad-block statistics are not modelled; a zero erase size, a division by zero in the code, gives remainder 0. The sentinel values come from the kernel's header, which is not in the repository.
- MtdLayout.PartitionList.AddMtdPartitions: mtd_partition_split, which may register more partitions, is not part of the loop.
- MtdErase.PartErase: fail_addr is not modelled.
- MtdScan.Splitter.ScanKernel: offsets are unbounded integers instead of int, so a device above 2 GiB is not treated as the code would.
- RxRing.RingOrder: ring 0 without LRO, NAPI, DMA-mapping failure (which skips the update of rx_calc_idx) and the second GMAC; rx_bytes and the special-tag rewriting are not modelled.
- RxIrq.NoFrameForgotten: delayed interrupts, NAPI, work queues and the second interrupt line are not modelled.
- RxDevice.Device.NetdevAllocFrag: whether there is memory is a parameter; which unused buffer is returned is left open.
- HnatFlowTable.FlowTable.TxHandler: what the ports read as in a frame that ends before them is not stated.
- HnatParse.PktParseResult.ParseLayerInfo: bytes past the end of the frame read as 0, where the code reads whatever memory follows; HW VLAN transmission, multicast acceleration, PPTP and L2TP are off, and the inner IPv4 header of DS-Lite, which the code copies from a wrong place, is not modelled.
- HnatToken.Skb.RemoveVlanTag: the skb is neither cloned nor shared; __vlan_put_tag has headroom.
- HnatToken.ExtIfRxHandler: the interface ladder without CONFIG_RA_HW_NAT_WIFI_NEW_ARCH and the WLAN shortcut are not modelled.
- HnatFlowTable.FlowTable.SetForcePortInfo: which port and tags are chosen is a parameter, as is QoS.
- HnatFlowTable.FlowTable.FillInL2Info: as for FillInL3Info, what a fill in another layout leaves in the entry's words is a parameter.
- HnatFlowTable.FlowTable.FillInL3Info: entries in another layout than IPv4 share its words; what a fill in such a layout leaves there is a parameter, since the header with the layouts is not in the repository. The byte order of the address in an entry is taken from foe_clear_entry.
- HnatFlow.FlowCacheAgrees: one transmit handler at a time; `Orderly` asks for agreement of the entry being filled as well, so a run that repairs it before binding is not orderly.
- RootDevice.NameToDevT: only names that start with "/dev/"; PARTUUID, major:minor and hexadecimal numbers are not modelled.
- FsNames.GetFsNames: input whose last line has no newline, on which the copy loop runs on, is excluded.
- QmiFixup.NetDev.MacAddr: what eth_prepare_mac_addr_change checks is a parameter.
- Register programming, PHY, switch and PLL bring-up in raether.c, pci.c and init.c: hardware constants without a stated specification.
- option.c and the ID table of qmi_wwan.c: static device tables.
- ra_nat.c accounting timers, ioctl, ACL code and interface-name ladders: easy or without a specification.
- main.c, irq.c, slot-gpio.c and the watchdog files: boot sequencing and short handlers.
