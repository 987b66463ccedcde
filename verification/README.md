# kvnet: a verified model of the virtual network driver

`drivers/vpn/linux` is a virtual network interface. Packets that the network
stack sends through the interface wait in a queue until a program reads them,
in batches, from a character device; packets the program writes to the device
enter the network stack. This project models the parts of the driver with the
most state and the most arithmetic, and proves what they are for:

| files | what they model |
|---|---|
| `MachineInts.dfy` | the C integer types; shifts, masks and bit tests as division and remainder |
| `Checksum.dfy` | the Internet checksum and its incremental update, on hosts of either byte order |
| `PacketQueue.dfy` | the linked packet queue and the abstract queue it implements |
| `NetDev.dfy` | sending, flushing, opening and closing the net device |
| `TransmitMachine.dfy` | the driver under concurrency, as a state machine over atomic steps |
| `TransmitSafety.dfy`, `TransmitOwnership.dfy`, `TransmitWakeups.dfy` | what every step keeps |
| `TransmitTheorems.dfy` | what therefore holds of every run |
| `TransmitRefinement.dfy` | the code over the linked queue carries out the machine's steps |
| `Errno.dfy`, `UserMemory.dfy` | error numbers; user memory as bytes that may not be reachable |
| `BatchHeader.dfy`, `BatchRead.dfy`, `BatchWrite.dfy`, `BatchEcho.dfy` | batches read from and written to the device file |
| `Lifecycle.dfy` | loading and unloading the module, opening and closing its device file |

## How to read it

*Checksums.* `ChecksumOf` and `AdjustOf` are closed forms that the two methods
with the driver's loops are proved against. A one's complement sum is a
residue modulo 65535 with two representations of zero; `Canon` picks the one
in 1..65535, and `Residue` gives zero to the zero sum alone. `Fits` says that
the 32-bit accumulator of `checksum` does not wrap; every buffer of at most
131074 bytes fits. The subtract and add loops of `adjust_checksum` bring their
accumulator into 1..65535 and keep it there, with one exception that `AdjustOf`
states: a stored 0xffff stays 0xffff when every old word is 0xffff and every
new word is zero.

*Concurrency.* A state of the transmit machine is the shared part of
`struct vnet`, a map from threads to where each of them is, and a log of what
happened to packets. Each event is one region under the queue lock, one
counter update, one wake-up, or one call or return, so all interleavings of
any number of senders, readers, pollers and cancellers with one control thread
are runs. A poller is one that waits for input. The flag `missed` of a poller
records that a canceller woke the wait queue after this poller tested the
cancel flag and before it registered; no step looks at it. `Represents` ties
the fields of the net device to a state; each step that changes one of them has
a method that carries it out in any state other threads may have left, and
`QuietStep` covers the rest.

*User memory.* Memory is a map from addresses to bytes, in the byte order of the
host; addresses outside the map cannot be reached. The header, its pointers and
the packets they point to all lie in it, so buffers may overlap one another and
the header. `Separate` buffers share no byte.

*Kernel services.* `get_user`, `copy_to_user`, `copy_from_user`, `put_user`,
allocation and registration succeed or fail as their parameters say, and the
theorems hold for all of them unless they name the case without faults. The
model's `calls` log in `Lifecycle` records every resource the module acquires
from the kernel and gives back; it is a misuse to acquire what is held or to
release anything but the newest resource held.

## Results that differ from what one would expect

* `checksum` departs from the fold of RFC 1071, section 4.1, exactly when its
  accumulator wraps; a buffer of 131075 bytes does it (`ChecksumExactIffFits`,
  `FitBoundIsTight`).
* `adjust_checksum` gives the checksum of the edited buffer exactly unless the
  edit is not empty and leaves the buffer all zero; then it stores 0x0000,
  where `checksum` returns 0xffff (`IncrementalEqualsFull`, `BlankEditDiffers`).
* Adjusting there and back restores the stored value exactly when it was not
  0xffff or nothing was edited (`AdjustBackRestores`, `AdjustBackFails`).
* A cancel can miss a poller, because `io_dev_poll` tests the cancel flag
  before it enters the wait queue: `LostCancelHappens` is a run, and
  `LostCancelExactly` says when. A wake-up for a packet is never lost
  (`NoLostWakeup`).
* A write to the device does not return exactly when it gets to a packet whose
  length is 2^32 - 2 or more, because the size it allocates wraps and `skb_put`
  halts the kernel (`HaltsExactly`). `module_start` does so exactly when there is no memory for
  `struct vnet`, because its rollback follows a null `gs_vnet` (`ModuleStart`).

## Model

| member | source | states |
|---|---|---|
| `MachineInts.ShiftAndMaskSplit` | drivers/vpn/linux/utils.c:536-537 | a shift by k and a mask of k ones cut any number in two without loss |
| `MachineInts.BitTestIsDigit` | drivers/vpn/linux/utils.c:493 | testing bit k asks whether the number shifted by k is odd |
| `MachineInts.LowHalf` | drivers/vpn/linux/utils.c:483 | masking a possibly negative `int` with 0xffff adds or subtracts 65536 once, on the range the loops reach |
| `MachineInts.CarryBit` | drivers/vpn/linux/utils.c:493 | the tested bit is set exactly when the 16-bit addition carried |
| `UserMemory.WordOfPutWord` | drivers/vpn/linux/io_read.c:34-50 | what `put_user` stores at an address, in the byte order of the host, is what `get_user` reads there |
| `UserMemory.PutSameWord` | drivers/vpn/linux/io_write.c:119-123 | storing the word that is already at an address changes no byte of memory |
| `UserMemory.WordBytes` | drivers/vpn/linux/io_read.c:34 | which address holds which digit of an `unsigned int`, on a host of either byte order |
| `UserMemory.PointerWords` | drivers/vpn/linux/io_read.c:168 | a pointer is two such words, in the order of the host |
| `UserMemory.PointerOfPutPointer` | drivers/vpn/linux/defs.h:48 | a pointer stored in user memory reads back |
| `UserMemory.PointersOfPut` | drivers/vpn/linux/defs.h:48 | so does each of an array of pointers, eight bytes apart |
| `Checksum.FoldAndComplement` | drivers/vpn/linux/utils.c:536-538 | the three last statements, as shifts and masks on an `unsigned int`, are the complement of two folds for every accumulator |
| `Checksum.Checksum` | drivers/vpn/linux/utils.c:509-541 | for every buffer and length the loop returns the complement of the RFC 1071 section 4.1 fold of the word sum modulo 2^32, and so of the word sum itself when the accumulator holds it |
| `Checksum.FoldIsResidue` | drivers/vpn/linux/utils.c:536-538 | folding until stable computes the residue modulo 65535 in which only the zero sum gives zero |
| `Checksum.FoldClosedForm` | drivers/vpn/linux/utils.c:536-538 | that fold is 0 for 0 and 1 + (S - 1) mod 65535 otherwise |
| `Checksum.FoldTwiceIsResidue` | drivers/vpn/linux/utils.c:536-537 | two folds are enough for every 32-bit accumulator |
| `Checksum.ShortBuffersFit` | drivers/vpn/linux/utils.c:525-534 | the accumulator never wraps for 131074 bytes or fewer |
| `Checksum.FittingChecksum` | drivers/vpn/linux/utils.c:525-538 | without wrap-around the result is the complement of the residue of the word sum |
| `Checksum.WrappedChecksum` | drivers/vpn/linux/utils.c:525-538 | for every buffer, also one whose sum wraps, the result is the complement of the RFC 1071 section 4.1 fold of the sum modulo 2^32 |
| `Checksum.ChecksumExactIffFits` | drivers/vpn/linux/utils.c:509-541 | for every length an `unsigned int` holds, the result agrees with RFC 1071 if and only if the accumulator did not wrap |
| `Checksum.FitBoundIsTight` | drivers/vpn/linux/utils.c:525-538 | on either host, a buffer of 131075 bytes for which the result is different |
| `Checksum.WordSumOfConcat` | drivers/vpn/linux/utils.c:525-534 | word sums add up over a split at an even offset |
| `Checksum.WordSumSwaps` | drivers/vpn/linux/utils.c:525-534 | the sum on a little-endian host is 256 times that on a big-endian one modulo 65535 |
| `Checksum.ResidueSwaps` | drivers/vpn/linux/utils.c:525-538 | the one's complement sums of any buffer on the two hosts are byte swaps of each other |
| `Checksum.ByteOrderIndependence` | drivers/vpn/linux/utils.c:525-540 | RFC 1071 section 2(B): both hosts leave the same two bytes in memory, odd lengths included |
| `Checksum.ChecksumInNetworkOrder` | drivers/vpn/linux/utils.c:509-541 | in network order the checksum depends on the bytes alone |
| `Checksum.SubtractWord` | drivers/vpn/linux/utils.c:479-484 | one turn of the subtract loop, with its end-around borrow, is subtraction modulo 65535 into 1..65535, except that zero minus 0xffff stays zero |
| `Checksum.AddWord` | drivers/vpn/linux/utils.c:491-496 | one turn of the add loop, with its end-around carry, is addition modulo 65535 into 1..65535, except that zero plus zero stays zero |
| `Checksum.SubtractedStep` | drivers/vpn/linux/utils.c:477-487 | the subtract loop as a whole subtracts the word sum of all it has read |
| `Checksum.AddedStep` | drivers/vpn/linux/utils.c:489-499 | the add loop as a whole adds the word sum of all it has read |
| `Checksum.BothLoops` | drivers/vpn/linux/utils.c:475-501 | one loop after the other moves the complement by the difference of the word sums |
| `Checksum.AdjustChecksum` | drivers/vpn/linux/utils.c:462-502 | for every stored value: the closed form over the first `len` bytes of both arrays for an even length, over `len + 1` bytes for an odd one; an empty or negative length changes nothing |
| `Checksum.EditedSum` | drivers/vpn/linux/utils.c:462-541 | replacing an even slice changes the word sum by the difference of the slices' sums |
| `Checksum.IncrementalEqualsFull` | drivers/vpn/linux/utils.c:462-541 | RFC 3022 section 4.2: the incremental update of a checksum is the checksum of the edited buffer, on either host, if and only if the edit is empty or leaves some byte that is not zero; otherwise it is the other zero |
| `Checksum.AdjustForEdit` | drivers/vpn/linux/utils.c:462-541 | run on the checksum of a buffer and the old and new `len` bytes of it, `adjust_checksum` leaves the checksum of the edited buffer, or the other zero when that is all zero |
| `Checksum.BlankEditDiffers` | drivers/vpn/linux/utils.c:462-541 | a concrete edit, of the bytes 0 and 1 to zero, for which the incremental update gives 0x0000 and `checksum` 0xffff |
| `Checksum.AdjustTwice` | drivers/vpn/linux/utils.c:475-501 | two adjustments are one over the concatenated old and new bytes |
| `Checksum.AdjustmentsCompose` | drivers/vpn/linux/utils.c:475-501 | and so in either order, for every stored value |
| `Checksum.AdjustBackRestores` | drivers/vpn/linux/utils.c:475-501 | adjusting old to new and back restores the stored value if and only if it was not 0xffff or nothing was edited; otherwise it leaves 0 |
| `Checksum.AdjustBackFails` | drivers/vpn/linux/utils.c:475-501 | a concrete adjustment there and back that turns 0xffff into 0 |
| `Checksum.SelfVerification` | drivers/vpn/linux/utils.c:509-541 | RFC 1071 section 1: a value stored in a zeroed field makes the buffer sum to zero if and only if it is the buffer's checksum, or 0xffff where that is 0 |
| `PacketQueue.Queue.constructor` | drivers/vpn/linux/queue.c:24-40 | a fresh queue is empty and disabled |
| `PacketQueue.Queue.Close` | drivers/vpn/linux/queue.c:46-65 | the warning is given exactly when packets are left |
| `PacketQueue.Queue.Enable` | drivers/vpn/linux/queue.c:110-119 | the flag changes, the contents do not |
| `PacketQueue.Queue.IsEmpty` | drivers/vpn/linux/queue.c:135-147 | answers whether the contents are empty |
| `PacketQueue.Queue.Len` | drivers/vpn/linux/queue.c:163-175 | `size` is the number of packets in the chain |
| `PacketQueue.Queue.Insert` | drivers/vpn/linux/queue.c:182-233 | inserting a packet that is not queued appends it and keeps the chain well formed |
| `PacketQueue.Queue.Remove` | drivers/vpn/linux/queue.c:240-297 | null from an empty queue; otherwise the oldest packet, unlinked, the rest unchanged; `tail` may stay behind when the last one leaves |
| `PacketQueue.Queue.WalkReadsSuffix` | drivers/vpn/linux/queue.c:182-263 | following `next` from any packet reads the rest of the contents |
| `PacketQueue.Queue.ChainIsContents` | drivers/vpn/linux/queue.c:182-263 | from `head`, `next` visits every packet once, in order, and ends in null |
| `NetDev.NetDev.constructor` | drivers/vpn/linux/vnet.c:42-51 | a fresh `struct vnet` has an empty, disabled queue and zero statistics |
| `NetDev.NetDev.Free` | drivers/vpn/linux/net_dev.c:151 | a packet may be freed only when it is not queued and was not freed before |
| `NetDev.NetDev.Take` | drivers/vpn/linux/io_read.c:124 | the packet that leaves the queue belongs to its taker alone |
| `NetDev.NetDev.Send` | drivers/vpn/linux/net_dev.c:121-167 | a packet is queued last and readers are woken, if and only if the queue is enabled and holds fewer than `tx_queue_len` packets; otherwise it is freed and counted as dropped |
| `NetDev.NetDev.Drain` | drivers/vpn/linux/net_dev.c:41-48 | the locked loop ends, leaves the queue empty, frees each packet once, in order, and counts them |
| `NetDev.NetDev.FlushTxQueue` | drivers/vpn/linux/net_dev.c:32-53 | every queued packet is freed once, in order, and counted as dropped modulo 2^32 |
| `NetDev.NetDev.Open` | drivers/vpn/linux/net_dev.c:59-83 | the queue accepts packets again |
| `NetDev.NetDev.Close` | drivers/vpn/linux/net_dev.c:89-115 | the queue is disabled and empty, and all it held was freed and counted |
| `TransmitSafety.ControlKept` | drivers/vpn/linux/net_dev.c:72-108 | every step keeps: enabled only while opening or up, empty outside open and draining, at most `tx_queue_len` packets, no leftover at destruction |
| `TransmitSafety.QueueStep` | drivers/vpn/linux/net_dev.c:142-160 | what each kind of step does to the queue: an offer appends exactly below the limit of an enabled queue, a removal takes the first, a flush all, opening and closing set the flag, and no other step touches it |
| `TransmitSafety.SenderGoesOn` | drivers/vpn/linux/net_dev.c:147-164 | a sender whose packet was queued goes on to wake readers; a refused one is done and counts one drop |
| `TransmitSafety.HistoryStep` | drivers/vpn/linux/queue.c:182-297 | every step keeps: inserted = removed followed by the contents, and each reader's packets are those removed for it |
| `TransmitOwnership.PlacesStep` | drivers/vpn/linux/io_read.c:124-177 | every step keeps the recorded place of each packet equal to where it physically is |
| `TransmitOwnership.DistinctStep` | drivers/vpn/linux/net_dev.c:142-160 | every step keeps the queue, the insertions and the frees free of repeated packets |
| `TransmitOwnership.TotalOfStep` | drivers/vpn/linux/net_dev.c:142-166 | a step changes any sum over the threads only by what it does to its own thread; a wake-up moves pollers alone |
| `TransmitOwnership.ConservationStep` | drivers/vpn/linux/net_dev.c:142-160 | every step keeps the count of packets sent equal to entering + queued + in hand + freed |
| `TransmitOwnership.StatisticsStep` | drivers/vpn/linux/net_dev.c:43-50 | every step keeps `tx_dropped`, `tx_packets` and `tx_bytes` in agreement with the packets' fates and copied bytes modulo 2^32 |
| `TransmitOwnership.SizesStep` | drivers/vpn/linux/io_read.c:41-48 | every step keeps: no reader has copied more of a packet than there is |
| `TransmitOwnership.FatesPartition` | drivers/vpn/linux/io_read.c:168-177 | every freed packet was refused, flushed, delivered or lost to one of two faults |
| `TransmitWakeups.WakeStep` | drivers/vpn/linux/io_dev.c:181-198 | every step keeps: somebody asleep over a non-empty queue implies a sender about to wake |
| `TransmitWakeups.CancelStepInv` | drivers/vpn/linux/io_dev.c:176-191 | every step keeps: a poller past the test of a set flag is about to be woken, was woken, or was missed |
| `TransmitTheorems.InvStep` | drivers/vpn/linux/net_dev.c:32-167 | every step of every thread keeps the conjunction of all invariants |
| `TransmitTheorems.InvRun` | drivers/vpn/linux/net_dev.c:32-167 | and so does every run, of any length, with `tx_queue_len` fixed |
| `TransmitTheorems.FifoHistory` | drivers/vpn/linux/queue.c:182-297 | in every reachable state the packets ever inserted are those ever removed, in lock order, followed by the contents, and none twice |
| `TransmitTheorems.ReaderOrder` | drivers/vpn/linux/io_read.c:118-179 | what one reader takes is an in-order selection of what was inserted, without repeats |
| `TransmitTheorems.OnePlaceEach` | drivers/vpn/linux/net_dev.c:142-160 | a packet was sent if and only if it is somewhere, and no packet is in two places |
| `TransmitTheorems.FreedOnce` | drivers/vpn/linux/io_read.c:168-177 | no packet is freed twice, and a freed one is neither queued nor in a reader's hands |
| `TransmitTheorems.Conservation` | drivers/vpn/linux/net_dev.c:43-158 | sent = entering + queued + in hand + refused + flushed + delivered + faulted; all three counters agree with the packets and their copied bytes modulo 2^32; no packet counts for more bytes than it has |
| `TransmitTheorems.BoundedQueue` | drivers/vpn/linux/net_dev.c:142-160 | no run makes the queue longer than its limit |
| `TransmitTheorems.CloseDrains` | drivers/vpn/linux/net_dev.c:99-108 | from the disable step to the next open, whatever else runs, the queue only loses packets from its front; once flushed it stays empty |
| `TransmitTheorems.EmptyAtDestruction` | drivers/vpn/linux/vnet.c:68-73 | without a net device, or with one that is not up, the queue is empty and disabled; `vnet_close` never finds a packet |
| `TransmitTheorems.NoLostWakeup` | drivers/vpn/linux/io_dev.c:176-198 | a poller sleeps over a non-empty queue only while a sender is between its insert and its wake-up |
| `TransmitTheorems.WakeReachesEveryone` | drivers/vpn/linux/io_dev.c:119-129 | that wake-up triggers every registered poller, and nobody sleeps after it |
| `TransmitTheorems.CancelReachesRegistered` | drivers/vpn/linux/io_dev.c:119-129 | a canceller's wake-up triggers every poller registered by then |
| `TransmitTheorems.LostCancelExactly` | drivers/vpn/linux/io_dev.c:176-239 | with no canceller at work, a sleeping poller was cancelled if and only if a cancel's wake-up ran between its test of the flag and its registration |
| `TransmitTheorems.LostCancelHappens` | drivers/vpn/linux/io_dev.c:176-239 | a run after which a cancelled poller sleeps and nobody is left to wake it |
| `TransmitTheorems.CanceledSinceOpen` | drivers/vpn/linux/io_dev.c:237-315 | in every run the cancel flag is set if and only if a canceller set it and the file was not opened since |
| `TransmitTheorems.NobodyIsStuck` | drivers/vpn/linux/io_read.c:118-199 | in every reachable state every call in progress has its next step, faults included |
| `TransmitTheorems.CallsMayBegin` | drivers/vpn/linux/net_dev.c:121-142 | a send of a new packet may begin at any time, a read, poll or cancel while the file is open, each in its first state |
| `TransmitTheorems.ControlIsNeverStuck` | drivers/vpn/linux/io_dev.c:286-353 | the control thread has a next step until the module is gone; the file opens again exactly when no call on it is left |
| `TransmitTheorems.ControlPath` | drivers/vpn/linux/net_dev.c:59-115 | the states a device goes through from open to removal, and that they leave other threads alone |
| `TransmitTheorems.PollerResumes` | drivers/vpn/linux/io_dev.c:172-209 | a triggered poller tests everything again, still in the wait queue |
| `TransmitRefinement.QuietStep` | drivers/vpn/linux/io_dev.c:119-239 | every other step leaves the device's fields representing the machine's state |
| `TransmitRefinement.OfferStep` | drivers/vpn/linux/net_dev.c:142-160 | in every reachable state a sender may run `net_dev_send`, and that is the machine's step |
| `TransmitRefinement.RemoveStep` | drivers/vpn/linux/io_read.c:124-166 | in every reachable state a reader's `queue_remove` is the machine's step and yields the packet the machine gives it |
| `TransmitRefinement.CopyStep` | drivers/vpn/linux/io_read.c:34-45 | `get_user` and `copy_to_user`, in whatever state other threads left, are the machine's copy step, with the same number of bytes |
| `TransmitRefinement.CountStep` | drivers/vpn/linux/io_read.c:47 | the update of `tx_packets` is one machine step |
| `TransmitRefinement.MeasureStep` | drivers/vpn/linux/io_read.c:48 | the update of `tx_bytes` is one machine step |
| `TransmitRefinement.StoreStep` | drivers/vpn/linux/io_read.c:50-52 | `put_user` of the length is one machine step, whatever happened to user memory since the copy |
| `TransmitRefinement.ReleaseStep` | drivers/vpn/linux/io_read.c:170-177 | in every reachable state a reader may free its packet, and that is the machine's step |
| `TransmitRefinement.EnableStep` | drivers/vpn/linux/net_dev.c:72 | the enable region alone is the machine's step, in every state that lets it run |
| `TransmitRefinement.ConnectStep` | drivers/vpn/linux/net_dev.c:76 | so is setting `connected` |
| `TransmitRefinement.DisableStep` | drivers/vpn/linux/net_dev.c:102 | so is the disable region |
| `TransmitRefinement.FlushStep` | drivers/vpn/linux/net_dev.c:41-48 | so is the locked flush loop, whatever senders and readers did since the disable step, and it counts what the machine counts |
| `TransmitRefinement.AccountStep` | drivers/vpn/linux/net_dev.c:50 | so is the update of `tx_dropped` with that count |
| `TransmitRefinement.DisconnectStep` | drivers/vpn/linux/net_dev.c:108 | so is clearing `connected` |
| `TransmitRefinement.DestroyStep` | drivers/vpn/linux/queue.c:46-65 | so is `queue_close`, and in a reachable state it gives no warning |
| `TransmitRefinement.TurnRun` | drivers/vpn/linux/io_read.c:124-177 | the steps of one turn of a reader's loop are a run from any state that lets it take a packet; they count and free the packet, or free it uncounted, and let the reader go on exactly after a success with buffers left |
| `TransmitRefinement.TurnOfReader` | drivers/vpn/linux/io_read.c:124-177 | the source's sequential turn over the linked queue and user memory, with any faults, is that run: the reader's steps above one after the other |
| `TransmitRefinement.OpenSteps` | drivers/vpn/linux/net_dev.c:72-76 | the whole of `net_dev_open` is its two steps one after the other |
| `TransmitRefinement.CloseSteps` | drivers/vpn/linux/net_dev.c:99-108 | the whole of `net_dev_close` is its four steps one after the other |
| `TransmitRefinement.PollSteps` | drivers/vpn/linux/io_dev.c:167-209 | `io_dev_poll` is a run of one step or three; the mask is POLLPRI and POLLERR when cancelled, POLLOUT and POLLWRNORM when nothing is queued, and those two with POLLIN and POLLRDNORM otherwise; the poller goes on to wait, registered, exactly in the second case |
| `BatchHeader.AcceptedHeader` | drivers/vpn/linux/io_read.c:76-113 | a header that passes the checks has at least one pointer, and every pointer the loop uses was copied from memory that could be read |
| `BatchHeader.RefusalMeaning` | drivers/vpn/linux/io_read.c:77-113 | which error answers which cause, in the order of the checks, and that a header is accepted if and only if its count is positive and fits the length |
| `BatchHeader.HeaderRoundTrip` | drivers/vpn/linux/defs.h:46-49 | a count stored at an address and pointers stored from four bytes behind it, eight bytes each, are exactly the header that both calls read |
| `BatchHeader.SamePointers` | drivers/vpn/linux/defs.h:46-49 | the pointers of a header depend on its bytes behind the count alone |
| `BatchRead.CopyToUser` | drivers/vpn/linux/io_read.c:34-45 | what user memory and the copied length become, when the capacity cannot be read or the copy stops part way |
| `BatchRead.StoreLength` | drivers/vpn/linux/io_read.c:50-52 | the length is stored, or nothing changes |
| `BatchRead.FillNetworkPacket` | drivers/vpn/linux/io_read.c:24-55 | what user memory, both counters and the result become under any of the three faults |
| `BatchRead.CopyMeaning` | drivers/vpn/linux/io_read.c:34-45 | a byte of a packet reaches the buffer if and only if it is within the capacity and before any fault; no other byte of memory changes |
| `BatchRead.FillMeaning` | drivers/vpn/linux/io_read.c:34-54 | a packet is counted, with its bytes, if and only if it was copied, also when its length cannot be stored |
| `BatchRead.StoringBoth` | drivers/vpn/linux/io_read.c:41-52 | copying the bytes and storing their number leaves a packet that reads back as them, and changes nothing else |
| `BatchRead.ReadOne` | drivers/vpn/linux/io_read.c:124-177 | one turn of the loop takes the oldest packet, fills one buffer and frees the packet, also after a fault |
| `BatchRead.ReadTurn` | drivers/vpn/linux/io_read.c:118-179 | as one more packet of a batch: queue, frees, user memory and counters advance together |
| `BatchRead.ReadLoop` | drivers/vpn/linux/io_read.c:118-179 | the loop performs the longest batch the header, the queue and the first fault allow |
| `BatchRead.BatchGrows` | drivers/vpn/linux/io_read.c:118-179 | a batch of n + 1 packets is a batch of n and, unless that failed, one more packet into buffer n |
| `BatchRead.ReachedMeaning` | drivers/vpn/linux/io_read.c:118-179 | the packets filled and the one that failed are off the queue and freed, in order, and counted modulo 2^32 |
| `BatchRead.ResultMeaning` | drivers/vpn/linux/io_read.c:181-199 | which of -EFAULT, -EAGAIN and the header length a batch returns |
| `BatchRead.IoRead` | drivers/vpn/linux/io_read.c:61-204 | for any bytes of user memory, overlapping buffers and headers included, and any faults: a refused call changes nothing; otherwise result, queue, frees, memory with the stored count, and counters modulo 2^32 are those of the batch |
| `BatchRead.FilledOneMore` | drivers/vpn/linux/io_read.c:34-52 | filling one more separate buffer leaves the earlier ones, and all bytes outside, as they are |
| `BatchRead.FilledBuffers` | drivers/vpn/linux/io_read.c:118-179 | a batch over buffers that share no byte and that did not fail put packet i, cut to capacity, in buffer i, changed no byte outside, and counted all of it |
| `BatchRead.SoundBatchSucceeds` | drivers/vpn/linux/io_read.c:118-179 | without faults a batch over sound separate buffers does not fail |
| `BatchRead.EagainIffEmpty` | drivers/vpn/linux/io_read.c:126-166 | an accepted read answers -EAGAIN if and only if the queue was empty, whatever faults occur |
| `BatchRead.ReadMeaning` | drivers/vpn/linux/io_read.c:118-199 | without faults a read of c packets takes the first min(c, length) in order, fills that many buffers and returns the header length for them |
| `BatchWrite.FirstFailure` | drivers/vpn/linux/io_write.c:71-117 | the batch length: everything before it is accepted, and it is not, unless the batch is complete |
| `BatchWrite.RoomExactly` | drivers/vpn/linux/io_write.c:81-91 | the buffer allocated in 32-bit arithmetic holds the packet if and only if its length is below 2^32 - 2 |
| `BatchWrite.AcceptedIsSound` | drivers/vpn/linux/io_write.c:75-96 | a packet is accepted if and only if no service fails, its bytes can be read, and its buffer has room |
| `BatchWrite.OutcomeMeaning` | drivers/vpn/linux/io_write.c:75-96 | which error answers which fault, an earlier fault hiding a later one |
| `BatchWrite.WriteOne` | drivers/vpn/linux/io_write.c:73-115 | a packet is delivered and counted with its exact bytes, or nothing changes and the outcome is the first failure met; every length is covered |
| `BatchWrite.WriteLoop` | drivers/vpn/linux/io_write.c:71-117 | exactly the packets before the first failure are delivered, in order, and counted modulo 2^32 |
| `BatchWrite.LoopEndsAt` | drivers/vpn/linux/io_write.c:71-117 | the loop ends as the first packet not accepted does, with exactly those before it delivered |
| `BatchWrite.IoWrite` | drivers/vpn/linux/io_write.c:24-135 | for any user memory and faults: a refused call changes nothing; the call returns unless the packet it stopped at had no room; a positive result means that all `count` packets were delivered, and is at most the supplied length |
| `BatchWrite.HaltsExactly` | drivers/vpn/linux/io_write.c:81-91 | a write stops the kernel if and only if it gets to a packet whose allocation size wraps |
| `BatchEcho.HeaderUntouched` | drivers/vpn/linux/io_read.c:118-179 | a read over buffers apart from the header leaves the header as it was |
| `BatchEcho.ReadThenCount` | drivers/vpn/linux/io_read.c:188-192 | storing the count changes neither the pointers nor what the buffers hold |
| `BatchEcho.ReadHeaderIsWritable` | drivers/vpn/linux/io_read.c:188-199 | the count and length a successful read returns pass every check of a write, which sees the first of the same pointers |
| `BatchEcho.WriteSeesWhatReadStored` | drivers/vpn/linux/io_write.c:73-96 | buffers a read filled are accepted and delivered as its packets, cut to capacity, as far as their allocation sizes do not wrap |
| `BatchEcho.WriteBack` | drivers/vpn/linux/io_write.c:24-135 | writing a header whose buffers a read filled delivers its packets and returns the length for them |
| `BatchEcho.Echo` | drivers/vpn/linux/io_write.c:59-130 | read then write delivers exactly the packets the queue held, in order, each cut to its buffer, and both calls return the same length |
| `Lifecycle.ReleasedOnce` | drivers/vpn/linux/io_dev.c:388-499 | without misuse every resource was released as often as acquired, except those held |
| `Lifecycle.HeldOnce` | drivers/vpn/linux/io_dev.c:388-499 | without misuse no resource is held twice |
| `Lifecycle.UndoneMeaning` | drivers/vpn/linux/init.c:100-105 | a roll-back releases each resource acquired once, the newest first |
| `Lifecycle.Module.VnetInit` | drivers/vpn/linux/vnet.c:29-56 | succeeds exactly when no object exists and memory is available; otherwise nothing changes; the queue limit is 256 |
| `Lifecycle.Module.VnetClose` | drivers/vpn/linux/vnet.c:63-79 | releases the object if there is one, and never finds packets in its queue |
| `Lifecycle.SetUpStops` | drivers/vpn/linux/io_dev.c:388-447 | for each service that may fail, the error returned and the resources acquired by then |
| `Lifecycle.Module.IoDevAdd` | drivers/vpn/linux/io_dev.c:377-452 | acquires in order up to the first error, which it returns, and its fields say how far it came; 0 exactly when all four services succeed |
| `Lifecycle.Module.IoDevRemove` | drivers/vpn/linux/io_dev.c:459-504 | releases what the fields say is held, newest first, whatever part of the set-up was reached |
| `Lifecycle.Module.ModuleStop` | drivers/vpn/linux/init.c:29-51 | releases everything held, newest first, and finds no packets |
| `Lifecycle.Module.ModuleStart` | drivers/vpn/linux/init.c:58-110 | 0 exactly when all services succeed, and then all five resources are held and the queue limit is 256; for each step that may fail, its error, and the acquisitions up to it followed by their releases in reverse; without memory for `struct vnet`, and only then, the kernel halts with nothing acquired |
| `Lifecycle.Module.UnregisterNetdev` | drivers/vpn/linux/net_dev.c:360-362 | an interface that is up is stopped first, which frees all that was queued |
| `Lifecycle.Module.NetDevRemove` | drivers/vpn/linux/net_dev.c:349-376 | releases registration and net device exactly as far as acquired; all that was queued is freed |
| `Lifecycle.Module.AllocNetdev` | drivers/vpn/linux/net_dev.c:395-401 | with memory the net device is the newest resource held |
| `Lifecycle.Module.NetDevAdd` | drivers/vpn/linux/net_dev.c:383-428 | a net device is allocated and registered if and only if 0 is returned; one that cannot be registered is released again, and the error returned |
| `Lifecycle.Module.IoDevOpen` | drivers/vpn/linux/io_dev.c:286-324 | a second open is refused; a failed one keeps nothing and leaves the cancel flag; a successful one clears it and holds device and registration |
| `Lifecycle.Module.IoDevClose` | drivers/vpn/linux/io_dev.c:330-353 | registration and device are released in that order, all that was queued is freed, and the queue is empty and disabled |
| `Lifecycle.Module.InterfaceUp` | drivers/vpn/linux/net_dev.c:59-83 | bringing the registered device up enables an empty queue |
| `Lifecycle.Module.InterfaceDown` | drivers/vpn/linux/net_dev.c:89-115 | bringing it down leaves the queue empty and disabled |
| `Lifecycle.Module.Transmit` | drivers/vpn/linux/net_dev.c:121-167 | a packet sent to a registered device is appended if and only if the interface is up and the queue shorter than its limit; otherwise it counts as dropped |
| `Lifecycle.Module.ReadFile` | drivers/vpn/linux/io_dev.c:71-76 | a read of the open file does all `io_read_to_iovec` does, faults and counters included, and keeps the module's invariant |
| `Lifecycle.Module.WriteFile` | drivers/vpn/linux/io_dev.c:106-111 | a write of the open file delivers what `io_write_from_iovec` does, and keeps the module's invariant |
| `Lifecycle.Module.Serve` | drivers/vpn/linux/init.c:112-113 | every request the kernel may make keeps the module's invariant; loading, unloading, opening, closing, interface changes and sends have their effects; no unload finds packets, and only a load without memory or a write can halt the kernel |
| `Lifecycle.BetweenRequests` | drivers/vpn/linux/io_dev.c:297-346 | a valid module holds device and registration exactly while its file is open, and an unloaded one has given everything back |
| `Lifecycle.Run` | drivers/vpn/linux/io_dev.c:297-346 | over any run of requests the file is open exactly when one net device is allocated and registered, no unload finds packets, and an unloaded module has released every resource exactly as often as it acquired it |

## Left out

- Races on the statistics: each counter update of a thread is one atomic step.
- The `USE_BLOCKING_READ` branches, which the build disables.
- `Checksum.AdjustChecksum`: requires a `len` below the largest `int`, because `i += 2` would overflow; buffers must hold the whole pairs the loops read.
- `len` of a batch is not negative; a negative one is refused by the callers, which are not part of this model. The bytes of a call are one segment, not split over several `iovec` segments.
- Layouts with 4-byte pointers.
- A fault of `put_user` or of storing the count leaves memory as it was.
- Concurrent opens and module unloading during a call: one control thread, as the kernel serialises them; an interface that is being opened or closed when its device is unregistered finishes first.
- What the kernel does after it halts: the run ends there.
- `netif_start_queue`, `netif_stop_queue`, `netif_wake_queue`, time stamps, and the protocol fields that `eth_type_trans` sets.
- The configuration fields, ethtool hooks, `KVNET_IOCTL_GET_INFO`, tracing and dumping, and the user library `libkvnet`: copies and printing.
