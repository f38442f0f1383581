# semu virtio devices in Dafny

This project models the paravirtualised-device layer of the semu RISC-V
emulator and proves properties of that model. The layer has three parts:

- **The virtio-MMIO transport** shared by the block and the GPU device
  (module `Virtio`). It covers:
  - the register bank of section 4.2.2 of the VIRTIO 1.1 specification;
  - the status rule of section 2.1 of the same specification: bits accumulate, and writing 0 resets;
  - the failure path (`set_fail`);
  - the split virtqueue of its section 2.6: descriptor table, available ring
    and used ring, with their 16-bit wrapping indices.

  Guest RAM is a sequence (in the device classes an `array`) of 32-bit
  words indexed by byte address / 4. A little-endian byte view over it
  (module `GuestRam`) reads and writes request and response structures.
- **The block device.**
  - `VirtioBlk` holds the pure specification: register reads, status
    updates, chain walking, request execution, the notify batch and the
    register-write dispatch.
  - `VirtioBlkDevice.BlkDevice` is the device object. Its fields are the
    register file, the RAM array and the disk array. Its methods change
    them in place, and each is proved against the specification.
- **The GPU device.**
  - `VirtioGpu` holds the register file, reads, the status rule, scanouts,
    response headers and fencing.
  - `GpuResources` holds the 2-D resource list.
  - `Edid` builds the EDID block.
  - `GpuCommands` holds the software command handlers and their dispatch.
  - `GpuQueue` holds the notify batch, which aborts on the first rejected
    request, and the register-write dispatch.
  - `Iov` holds the scatter-gather copy.
  - `VirtioGpuDevice.GpuDevice` is the device object with in-place methods
    proved against all of the above.

  The command table is the one built without VIRGL.
- **The virgl backend's local logic** (module `Virgl`):
  - the fence queue and its completion filter;
  - the id-0 check of `resource_create_2d`;
  - the answers to `GET_CAPSET_INFO` and `GET_CAPSET`. The renderer's
    results are parameters.
- **The supporting code:**
  - the intrusive doubly linked list of list.h (`IntrusiveList`), with real
    `next`/`prev` pointers and a ghost sequence of nodes as its
    abstraction;
  - the bit and range helpers of common.h (`Common`).

Integers are unbounded in Dafny, so the model writes out the C widths:
- `u16`, `u32` and `u64` values;
- `Wrap16`, `Wrap32` and `Wrap64` for truncation;
- `Or`, `And` and `AndNot`, defined bit by bit for the C bitwise operators.

Where C promotes 16-bit operands to `int` before subtracting, the model
subtracts as integers too. The avail-overrun check is one such place.

The model follows the code as written, including where the code departs
from what the VIRTIO standard or the EDID standard describe:

- **Avail-overrun check.** A wrapped available index is never rejected.
- **Used-ring slots.** They are taken modulo any queue size, even though
  that is consistent across the 16-bit wrap only when the size divides
  65536.
- **Bad queue address.** A queue address that is out of range or
  misaligned stores 0.
- **EDID byte 9.** It holds `vendor_id && 0xff`, which is 1.
- **GPU `resource_create_2d`.** It inserts the resource before checking the
  format.
- **GPU fencing.** It overwrites the request's flags.
- **GPU reset.** It clears only the first byte of the private data.
- **`copy_iov_to_buf`.** It adds the copied count to the destination twice.
- **GPU `transfer_to_host_2d`.** Its bounds test sums in 32 bits.

Each of these has a lemma that states it.

## Model

| member | source | states |
|---|---|---|
| Common.Mask | common.h:13 | `MASK(n)` is 2^n − 1 for every n up to 31 |
| Common.MaskLowHalf | common.h:13 | `w & MASK(16)` keeps exactly the low half-word of w |
| Common.AndLowMask | common.h:13 | AND with 2^n − 1 is the remainder modulo 2^n |
| Common.ILog2IsFloorLog2 | common.h:17-21 | for positive x, ilog2(x) = r with 2^r ≤ x < 2^(r+1): the floor of log2 |
| Common.ILog2Zero | common.h:17-21 | ilog2(0) is 0, because `x \| 1` keeps clz away from 0 |
| Common.ILog2OfNegative | common.h:17-21 | a negative int has its sign bit set, so ilog2 gives 31 |
| Common.ClzLog2 | common.h:19-20 | in an n-bit word, the count of leading zeros is n − 1 − ⌊log2 v⌋ |
| Common.BitmapSetBit | common.h:23-31 | sets bit (bit mod 64) in word bit / 64 of the bitmap; every other word is unchanged |
| Common.SetBitOnly | common.h:23-26 | after OR-ing in bit j, bit k is set iff it was set before or k = j |
| Common.RangeCheckIsInterval | common.h:33-40 | `RANGE_CHECK(x, minx, size)` holds iff minx ≤ x ≤ minx + size − 1, for operands below 2^31 |
| Common.OrSignBit | common.h:39-40 | the OR of two words is non-negative as an int32 iff both words are |
| GuestRam.WordOfWordBytes | virtio-blk.c:130-133 | reading back the four little-endian bytes of a word gives the word |
| GuestRam.WordBytesWordOf | virtio-blk.c:130-133 | splitting a word read from four bytes gives those bytes back |
| GuestRam.ByteAtWithBytes | virtio-blk.c:62-80 | after storing a byte block, each in-RAM byte inside it reads as the block's byte; every byte outside it is unchanged |
| GuestRam.LoadStoreU32 | virtio-blk.c:130-133 | a 32-bit field stored at an in-RAM address reads back as the stored value |
| GuestRam.LoadStoreU64 | virtio-blk.c:130-134 | a 64-bit field stored at an in-RAM address reads back as the stored value |
| GuestRam.LoadU32Frame | virtio-blk.c:149-150 | storing a block leaves every 32-bit field that does not overlap it unchanged |
| GuestRam.StoreBytes | virtio-blk.c:77-79 | the RAM array afterwards is the old RAM with the byte block stored at the address |
| GuestRam.Paste | virtio-blk.c:62-70 | `memcpy` into a host byte buffer (the disk image, an image buffer): same length, bytes outside the buffer dropped; StoreDiskBytes, ExecuteWrite and MemCopy state its contents |
| Virtio.AddStatus | virtio-blk.c:48-50 | the nonzero-Status branch of both devices' `update_status`; StatusAccumulates states its effect |
| Virtio.StatusAccumulates | virtio-blk.c:46-60 | a nonzero Status write (in both devices, virtio-gpu.c:154-181 alike) only ORs its bits into Status: bit k is set afterwards iff it was set or is set in the value, and no other field changes |
| Virtio.SetFail | virtio-blk.c:39-44 | specification of `set_fail`, shared by both devices; SetFailBits and SetFailIdempotent state its effect |
| Virtio.PreprocessAddr | virtio-blk.c:27-29 | specification of the guest-address preprocessing; PreprocessAddrIndex states when it accepts |
| Virtio.TransportWrite | virtio-blk.c:252-298 | specification of the register writes both devices share; TransportWriteOffsets, IllegalWriteFails, QueueAddrWrite and InterruptAckClears state its cases |
| Virtio.Publish | virtio-blk.c:191-196 | specification of publishing used.idx and raising the interrupt; UsedIdxPublished and PublishEffect state its effect |
| Virtio.SetFailBits | virtio-blk.c:39-44 | `set_fail` always sets DEVICE_NEEDS_RESET (bit 6); it sets CONF_CHANGE (bit 1) iff DRIVER_OK (bit 2) was set; no other bit or field changes |
| Virtio.SetFailIdempotent | virtio-gpu.c:139-144 | failing an already failed device changes nothing more |
| Virtio.PreprocessAddrIndex | virtio-blk.c:27-29 | an address is accepted as word index i iff it is below RAM_SIZE and equals 4·i |
| Virtio.TransportWriteOffsets | virtio-blk.c:252-298 | the transport bank accepts a write exactly at offsets 5, 8, 9, 12, 14, 17, 25, 32, 33, 36, 37, 40 and 41 |
| Virtio.IllegalWriteFails | virtio-blk.c:261-298 | QueueSel ≥ 2 (ARRAY_SIZE of the two queues), QueueNum outside 1..max, or a nonzero high address word fails the device and leaves QueueSel and the queues unchanged |
| Virtio.QueueAddrWrite | virtio-blk.c:278-293 | a write to QueueDescLow, QueueDriverLow or QueueDeviceLow stores addr / 4 in the matching field (descriptor table, available ring, used ring) of the selected queue when the address is in RAM and 4-aligned; otherwise it stores 0 there and fails the device; nothing else changes |
| Virtio.InterruptAckClears | virtio-blk.c:305-307 | InterruptACK clears exactly the acknowledged bits and changes nothing else |
| Virtio.PendingCatchesUp | virtio-blk.c:171-176 | the batch consumes exactly the entries that bring last_avail to new_avail mod 2^16; no entries are pending iff the indices are equal |
| Virtio.WrappedAvailAccepted | virtio-blk.c:166-169 | when new_avail is numerically below last_avail, the int-promoted difference is negative, so the overrun check never fires and the batch runs 2^16 + new − last entries |
| Virtio.AvailOverrunDistance | virtio-gpu.c:918-921 | without a wrap, the overrun check fires iff more entries are pending than the 16-bit QueueNum |
| Virtio.UsedIdxPublished | virtio-blk.c:191-192 | republishing the used index sets its high half to new_used, keeps its low half and changes no other word |
| Virtio.PublishEffect | virtio-blk.c:191-196 | publishing sets used.idx and raises USED_RING iff avail flags bit 0 is clear (or it was already raised); no other interrupt bit or RAM word changes |
| Virtio.SlotAdvancesForDivisor | virtio-blk.c:177-185 | when the queue size divides 2^16, the ring slot of index + 1 follows the slot of index, even across the wrap |
| Virtio.SlotSkipsAtWrap | virtio-blk.c:177-185 | for queue size 3, the slot taken after index 0xFFFF is 0 where the ring order needs 1 |
| Virtio.LoadAccess | virtio-blk.c:316-337 | only a 32-bit load reads the bank and returns the register; a refused offset is a load fault, 8/16-bit loads are misaligned and other widths are illegal instructions |
| Virtio.StoreWidthTrap | virtio-blk.c:339-358 | only a 32-bit store reaches the bank; other widths trap |
| IntrusiveList.ListHead.constructor | list.h:39-41 | a new node carries its item, with no links yet |
| IntrusiveList.Items | list.h:21-22 | the items of a node sequence, position by position |
| IntrusiveList.InitListHead | list.h:43-47 | the head becomes a list with no nodes |
| IntrusiveList.ListEmpty | list.h:49-52 | answers true iff the list has no nodes |
| IntrusiveList.ListIsLast | list.h:54-58 | answers true iff the node is the final one of the list |
| IntrusiveList.ListAdd | list.h:60-66 | the node is appended at the tail, and the other nodes keep their order |
| IntrusiveList.ListDel | list.h:68-72 | exactly that node is unlinked, the others keep their order, and the removed node's own links stay as they were |
| IntrusiveList.ListDelInit | list.h:74-78 | as ListDel, and the removed node is left as an empty list |
| IntrusiveList.AddThenDel | list.h:60-72 | adding a node and then deleting it restores the original list |
| IntrusiveList.ListForEach | list.h:21-22 | the walk visits every node once, in list order |
| IntrusiveList.DeleteWhere | list.h:24-26 | a `list_for_each_safe` walk that deletes the current node when a test holds leaves exactly the nodes failing the test, in their order |
| IntrusiveList.KeptMembership | list.h:24-26 | a node survives the filter iff it was in the list and fails the test |
| IntrusiveList.KeptAppend | list.h:24-26 | filtering distributes over concatenation, so survivors keep their relative order |
| IntrusiveList.KeptLength | list.h:24-26 | filtering never adds nodes |
| IntrusiveList.KeptIdempotent | list.h:24-26 | filtering twice with the same test equals filtering once |
| IntrusiveList.Kept | list.h:24-26 | specification of a deleting `list_for_each_safe` walk; DeleteWhere, KeptMembership, KeptAppend, KeptLength and KeptIdempotent state its properties |
| Iov.CopyCount | virtio-gpu.c:480-521 | the copy reports min(bytes − done, max(0, S − offset)) more bytes, where S sums the lengths of the live entries (non-null base, nonzero length) |
| Iov.CopiedBytes | virtio-gpu.c:480-521 | `copy_iov_to_buf` returns min(bytes, max(0, S − offset)), which never exceeds bytes |
| Iov.SecondChunkDoubled | virtio-gpu.c:500-502 | with entries (1,2) and (3,2), the second chunk lands at buf + 4 instead of buf + 2, because the running count is added to the destination twice |
| Iov.MemCopy | virtio-gpu.c:502 | the buffer afterwards holds the copied host bytes at the target index and is unchanged elsewhere |
| Iov.CopyIovToBuf | virtio-gpu.c:480-521 | the loop's final buffer and count are those of the Copy specification, whose count CopiedBytes gives |
| Iov.Copy | virtio-gpu.c:480-521 | specification of `copy_iov_to_buf`'s loop from a given entry on; CopyCount and CopiedBytes state its count, SecondChunkDoubled its placement |
| VirtioBlk.CapacityIsCeiling | virtio-blk.c:388-389 | capacity is the least number of 512-byte sectors covering the image |
| VirtioBlk.ResetClears | virtio-blk.c:46-60 | writing 0 to Status zeroes every register and queue, keeps RAM and disk, and truncates capacity to 32 bits; a second reset changes nothing |
| VirtioBlk.UpdateStatus | virtio-blk.c:46-60 | specification of the Status write: reset on 0, accumulate otherwise; ResetClears and Virtio.StatusAccumulates state the two branches |
| VirtioBlk.RegRead | virtio-blk.c:199-245 | specification of the register read; RegReadValues, RegReadOffsets, CapacityLow and CapacityRegisters state its answers |
| VirtioBlk.WalkFrom | virtio-blk.c:103-127 | specification of the descriptor walk from a given index; WalkFromShape, WalkFromFault and WalkFromOverlong state its outcomes |
| VirtioBlk.WalkChain | virtio-blk.c:98-127 | the walk from the head of a chain; FaultCases states its outcomes at the head |
| VirtioBlk.Execute | virtio-blk.c:130-150 | specification of serving a decoded request; ExecuteRead, ExecuteWrite, ExecuteStatus and ExecuteOther state its effect |
| VirtioBlk.ProcessChain | virtio-blk.c:82-153 | specification of `virtio_blk_iter_desc`; ChainOutcome states its state and length |
| VirtioBlk.Consume | virtio-blk.c:177-188 | specification of one notify-loop iteration; ConsumeAdvances and UsedElemWritten state its effect |
| VirtioBlk.Notify | virtio-blk.c:155-197 | specification of a queue notification; NotifyGuards states its cases |
| VirtioBlk.Drain | virtio-blk.c:175-196 | specification of the notify loop and publication; LoopUsedCount, LoopConfig, DrainCatchesUp and DrainPublishes state its effect |
| VirtioBlk.RegWrite | virtio-blk.c:247-314 | specification of the register write; RegWriteEdges and the Virtio transport rows state its cases |
| VirtioBlk.CapacityLow | virtio-blk.c:236-237 | the low capacity register is the capacity modulo 2^32 |
| VirtioBlk.RegReadValues | virtio-blk.c:204-241 | magic 0x74726976, version 2, device id 2, QueueNumMax 1024, features 1 for selector 1 and 0 otherwise; the two config words recombine into the capacity |
| VirtioBlk.RegReadOffsets | virtio-blk.c:204-244 | a read succeeds exactly at offsets 0–4, 13, 17, 24, 28, 63, 64 and 65 |
| VirtioBlk.CapacityRegisters | virtio-blk.c:236-241 | the sector count the driver reads back from offsets 64 and 65 is ⌈image bytes / 512⌉ |
| VirtioBlk.WalkFromShape | virtio-blk.c:103-124 | a walked chain holds at most 3 descriptors, read from in-range indices and linked by their next fields; every one but the last has NEXT set |
| VirtioBlk.Decode | virtio-blk.c:130-133 | the request type is read from the first descriptor's address; the data and status descriptors are the second and third |
| VirtioBlk.WalkFromFault | virtio-blk.c:103-107 | the walk faults exactly when, within the hops it may still take, the next links lead through in-queue NEXT-flagged descriptors to an index at or beyond QueueNum |
| VirtioBlk.WalkFromOverlong | virtio-blk.c:103-127 | the walk is overlong exactly when all the hops it may take stay inside the queue with NEXT set and the index they then reach is inside the queue |
| VirtioBlk.FaultCases | virtio-blk.c:103-127 | a head index at or beyond QueueNum faults; an overlong chain visited only indices below QueueNum |
| VirtioBlk.ChainOutcome | virtio-blk.c:103-152 | an out-of-range descriptor index fails the device and reports 0 with no data moved; an overlong chain reports 0 and changes nothing; a chain reports the sum of all its descriptor lengths and keeps registers and capacity |
| VirtioBlk.ExecuteRead | virtio-blk.c:72-80 | T_IN copies each data byte from disk offset sector·512 into RAM (out-of-image bytes read as 0) and leaves the disk unchanged |
| VirtioBlk.ExecuteWrite | virtio-blk.c:62-70 | T_OUT writes the data bytes from RAM into the disk at offset sector·512 and leaves the rest of the disk unchanged |
| VirtioBlk.ExecuteStatus | virtio-blk.c:148-150 | the status byte always reads VIRTIO_BLK_S_OK (0) afterwards |
| VirtioBlk.ExecuteOther | virtio-blk.c:136-150 | any type but T_IN changes only the status byte in RAM; other types also leave the disk and registers alone |
| VirtioBlk.LoopUsedCount | virtio-blk.c:175-188 | after n iterations the local used index has advanced by n modulo 2^16 |
| VirtioBlk.LoopConfig | virtio-blk.c:176-189 | after n iterations last_avail has advanced by n modulo 2^16; queue configuration, RAM size and the other queue are unchanged |
| VirtioBlk.ConsumeAdvances | virtio-blk.c:177-188 | one iteration, failing chain or not, advances last_avail by one and keeps the queue configuration |
| VirtioBlk.UsedElemWritten | virtio-blk.c:185-187 | the used element at slot new_used mod QueueNum becomes (head index, chain length); no other RAM word changes |
| VirtioBlk.NotifyGuards | virtio-blk.c:155-197 | notify is a no-op under DEVICE_NEEDS_RESET, fails the device without DRIVER_OK or a ready queue, fails on an avail overrun, is a no-op with nothing pending, traps on a zero QueueNum, and otherwise drains the ring |
| VirtioBlk.DrainCatchesUp | virtio-blk.c:176-189 | after a batch last_avail equals new_avail and the queue configuration is unchanged |
| VirtioBlk.DrainPublishes | virtio-blk.c:175-196 | after a batch used.idx has advanced by the number of chains modulo 2^16 with its low half kept, and USED_RING is raised iff avail flags bit 0 is clear |
| VirtioBlk.RegWriteEdges | virtio-blk.c:299-313 | QueueNotify ≥ 2 fails the device and is accepted; exactly the offsets outside the handled set are refused with nothing changed |
| VirtioBlkDevice.StoreDiskBytes | virtio-blk.c:67-69 | the disk afterwards is the old disk with the block stored at the offset |
| VirtioBlkDevice.BlkDevice.constructor | virtio-blk.c:360-392 | a fresh device has zeroed registers, the given RAM and disk, and capacity ⌈image bytes / 512⌉ |
| VirtioBlkDevice.BlkDevice.SetFail | virtio-blk.c:39-44 | the device's registers become those of `set_fail`, and nothing else changes |
| VirtioBlkDevice.BlkDevice.UpdateStatus | virtio-blk.c:46-60 | the device state becomes that of the status rule (reset or accumulate) |
| VirtioBlkDevice.BlkDevice.ReadHandler | virtio-blk.c:72-80 | RAM receives len disk bytes from offset sector·512 |
| VirtioBlkDevice.BlkDevice.WriteHandler | virtio-blk.c:62-70 | the disk receives len RAM bytes at offset sector·512 |
| VirtioBlkDevice.BlkDevice.CollectChain | virtio-blk.c:103-124 | the walk's result is the chain specification's, and the device is failed iff an index was out of range |
| VirtioBlkDevice.BlkDevice.Serve | virtio-blk.c:130-150 | RAM and disk become those of executing the decoded request |
| VirtioBlkDevice.BlkDevice.IterDesc | virtio-blk.c:82-153 | state and reported length are those of the chain specification, and the queues are untouched |
| VirtioBlkDevice.BlkDevice.ConsumeOne | virtio-blk.c:177-188 | one loop iteration does what the iteration specification says and advances last_avail by one |
| VirtioBlkDevice.BlkDevice.RecordUsed | virtio-blk.c:185-189 | the used element is written and last_avail advanced; nothing else changes |
| VirtioBlkDevice.BlkDevice.RunLoop | virtio-blk.c:175-189 | the loop ends in the state and used index of Pending(new_avail, last_avail) iterations from used.idx |
| VirtioBlkDevice.BlkDevice.PublishUsed | virtio-blk.c:191-196 | RAM and the interrupt status become those of publishing new_used |
| VirtioBlkDevice.BlkDevice.Batch | virtio-blk.c:175-196 | the device state afterwards is that of the drain specification |
| VirtioBlkDevice.BlkDevice.NotifyHandler | virtio-blk.c:155-197 | the device traps iff the notify specification halts, and otherwise ends in its state |
| VirtioBlkDevice.BlkDevice.SetQueueAddr | virtio-blk.c:278-293 | the selected queue's address field becomes that of the transport rule |
| VirtioBlkDevice.BlkDevice.ConfigWrite | virtio-blk.c:252-298 | accepted iff the transport bank handles the offset; the state becomes the transport rule's, or is unchanged when refused |
| VirtioBlkDevice.BlkDevice.RegWrite | virtio-blk.c:247-314 | halts iff the write specification halts, and otherwise ends in its state and acceptance |
| VirtioBlkDevice.BlkDevice.RegRead | virtio-blk.c:199-245 | returns the register specification's answer |
| VirtioBlkDevice.BlkDevice.Read | virtio-blk.c:316-337 | a load gives the access rule applied to the register at addr / 4 |
| VirtioBlkDevice.BlkDevice.Write | virtio-blk.c:339-358 | a non-word store traps with state unchanged; a word store does what the write specification does, and a refused offset is a store fault |
| VirtioGpu.ResetClears | virtio-gpu.c:154-181 | writing 0 to Status zeroes the registers and queues and empties the resource list; it keeps RAM and num_scanouts and clears only the first private byte (the low byte of scanout 0's width); a second reset changes nothing |
| VirtioGpu.UpdateStatus | virtio-gpu.c:154-181 | specification of the Status write: reset on 0, accumulate otherwise; ResetClears and Virtio.StatusAccumulates state the two branches |
| VirtioGpu.RegRead | virtio-gpu.c:968-1056 | specification of the register read; RegReadValues and RegReadOffsets state its answers |
| VirtioGpu.ConfigRead | virtio-gpu.c:1023-1053 | specification of the config-window read; ConfigValues and ConfigOffsets state its answers |
| VirtioGpu.Respond | virtio-gpu.c:127-137 | specification of `virtio_gpu_write_response`; HeaderFields states the header it writes |
| VirtioGpu.Fence | virtio-gpu.c:183-193 | specification of `virtio_gpu_set_response_fencing`; FenceFlag and FencedResponse state its effect |
| VirtioGpu.AddScanout | virtio-gpu.c:1194-1212 | specification of `virtio_gpu_add_scanout`; GpuCommands.AddedScanoutReported states its effect |
| VirtioGpu.RegReadValues | virtio-gpu.c:974-999 | magic 0x74726976, version 2, device id 16, QueueNumMax 1024; features 2 (EDID) for selector 0 and 1 (VERSION_1) otherwise |
| VirtioGpu.ConfigValues | virtio-gpu.c:1023-1053 | config offset 0 reads 0 (events_read), offset 8 reads num_scanouts and offset 12 reads 0 (num_capsets) |
| VirtioGpu.RegReadOffsets | virtio-gpu.c:968-1056 | a read succeeds exactly at offsets 0–4, 13, 17, 24, 28, 44–47, 63, 64, 66 and 67 |
| VirtioGpu.ConfigOffsets | virtio-gpu.c:1023-1053 | in the config window only events_read, num_scanouts and num_capsets are readable; events_clear and everything past the window are refused |
| VirtioGpu.FenceFlag | virtio-gpu.c:189 | `flags &= FENCE` leaves flags mod 2 |
| VirtioGpu.FencedResponse | virtio-gpu.c:183-193 | the response header carries the kind; the request's flags are overwritten with their fence bit; the response carries FENCE and the request's fence_id iff that bit was set, and otherwise zero flags and fence_id |
| VirtioGpu.HeaderFields | virtio-gpu.c:127-137 | a written response header has the given type and zero flags and fence_id |
| GpuResources.Find | virtio-gpu.c:92-101 | `acquire` finds the earliest-created record with the id, or none iff no record has it |
| GpuResources.Without | virtio-gpu.c:116 | removing one record keeps the others in order |
| GpuResources.CreateAppends | virtio-gpu.c:79-90 | `create` appends a record with the id and no scanout at the tail; lookups of other ids are unchanged, and the id is found there unless an earlier record has it |
| GpuResources.FindUnique | virtio-gpu.c:92-101 | an index is the lookup's answer iff it is the earliest record with the id |
| GpuResources.DestroyRemovesOne | virtio-gpu.c:103-125 | `destroy` gives −1 with the list unchanged iff the id is absent; otherwise it removes exactly the earliest such record and leaves other ids' counts alone |
| GpuResources.CountAppend | virtio-gpu.c:79-90 | counts of an id add over concatenated lists |
| GpuResources.ResourceTable.constructor | virtio-gpu.c:45 | the resource list starts empty |
| GpuResources.ResourceTable.Create | virtio-gpu.c:79-90 | the list gains the new record at its tail, and its index is returned |
| GpuResources.ResourceTable.Acquire | virtio-gpu.c:92-101 | returns the lookup's answer |
| GpuResources.ResourceTable.Destroy | virtio-gpu.c:103-125 | result and new list are those of the destroy rule |
| GpuResources.ResourceTable.Clear | virtio-gpu.c:170-180 | the list becomes empty |
| Edid.PnpId | virtio-gpu.c:352-354 | the packed vendor id holds the three letters, 'A' as 1, five bits each, first letter highest |
| Edid.Checksum | virtio-gpu.c:318-326 | the checksum byte brings the byte sum to 0 modulo 256 |
| Edid.BlockIsWellFormed | virtio-gpu.c:328-409 | the block has header 00 FF FF FF FF FF FF 00, version 1, revision 4 and no extensions, and its 128 bytes sum to 0 mod 256 |
| Edid.Block | virtio-gpu.c:328-409 | specification of the generated EDID block; BlockIsWellFormed, ManufacturerBytes and Checksum state its contents |
| Edid.ManufacturerBytes | virtio-gpu.c:352-357 | byte 8 is the id's high byte 0x52, but byte 9 is 1, not the low byte 0xEE |
| Edid.GenerateChecksum | virtio-gpu.c:318-326 | the loop's 8-bit sum gives the checksum of the first size bytes |
| Edid.GenerateEdid | virtio-gpu.c:328-409 | the array's first 128 bytes become the EDID block; the rest is untouched |
| GpuCommands.Ack | virtio-gpu.c:646-692 | the cursor commands answer with length 24, change no device state but RAM, and keep RAM's size |
| GpuCommands.AckEffect | virtio-gpu.c:646-692 | for a response header inside RAM, the guest reads back type OK_NODATA with zero flags and zero fence_id, and nothing but RAM changes |
| GpuCommands.FlushEffect | virtio-gpu.c:457-477 | flush crashes iff no resource has the id; otherwise it answers as Ack: RAM gets the OK_NODATA header, length 24, nothing else changes |
| GpuCommands.DisplayInfoLayout | virtio-gpu.c:195-215 | the answer is an OK_DISPLAY_INFO header and one mode per scanout: width, height and enabled for the configured ones, zeros for the rest |
| GpuCommands.GetDisplayInfo | virtio-gpu.c:195-215 | specification of the display-info command; DisplayInfoLayout states its answer |
| GpuCommands.AddedScanoutReported | virtio-gpu.c:1194-1212 | adding a scanout fails iff all 16 exist; otherwise the new one is reported enabled at its size and the others are unchanged |
| GpuCommands.CreateEffect | virtio-gpu.c:217-294 | a record is always appended first; a supported format answers 24 bytes with the format's layout; an unsupported one fails the device, writes nothing and reports 0 |
| GpuCommands.ResourceCreate2D | virtio-gpu.c:217-294 | specification of the create command; CreateEffect states its outcomes |
| GpuCommands.UnrefEffect | virtio-gpu.c:296-316 | an existing id loses exactly one record and answers 24; a missing id fails the device and reports 0 |
| GpuCommands.ResourceUnref | virtio-gpu.c:296-316 | specification of the unref command; UnrefEffect states its outcomes |
| GpuCommands.EdidResponseLayout | virtio-gpu.c:411-429 | the answer is an OK_EDID header, size 128 and the EDID block, zero-padded to 1024 bytes |
| GpuCommands.GetEdid | virtio-gpu.c:411-429 | specification of the EDID command; EdidResponseLayout states its answer |
| GpuCommands.SetScanoutEffect | virtio-gpu.c:431-455 | a nonzero id of a missing resource crashes the process; otherwise the resource is attached to the requested scanout with nothing else changed, and the answer is 24 bytes |
| GpuCommands.SetScanout | virtio-gpu.c:431-455 | specification of the set-scanout command; SetScanoutEffect states its outcomes |
| GpuCommands.ResourceFlush | virtio-gpu.c:457-477 | specification of the flush command; FlushEffect states its outcomes |
| GpuCommands.TransferAccepts | virtio-gpu.c:556-602 | for every rectangle: the transfer passes its checks exactly when the resource exists, x, y, width and height are each within it, and each edge x + width, y + height is within it or runs past 2^32; any refusal fails the device and reports 0; a passing transfer whose clipped size is the cursor size, on a resource without pages, crashes the process in the cursor copy; every other passing transfer answers the fenced OK_NODATA header with length 24 and keeps the resources |
| GpuCommands.SumWithin | virtio-gpu.c:576-579 | for a and b within w, the 32-bit sum a + b is within w exactly when the true sum is or reaches 2^32 |
| GpuCommands.TransferBounds | virtio-gpu.c:556-602 | when neither sum wraps: the transfer crashes iff the rectangle lies inside an existing resource that has no pages and the rectangle is cursor-sized; it answers 24 iff the rectangle lies inside and that crash does not happen; a missing resource or out-of-bounds rectangle fails the device and reports 0 |
| GpuCommands.CursorSized | virtio-gpu.c:585-592 | the clipped copy size equals the cursor size, which sends the transfer into the cursor copy |
| GpuCommands.TransferToHost2D | virtio-gpu.c:556-602 | specification of the transfer command; TransferAccepts, TransferBounds and TransferWrapAccepted state its outcomes |
| GpuCommands.TransferWrapAccepted | virtio-gpu.c:574-583 | x = width = 2^31 against a resource 2^32 − 1 wide passes the check, because x + width wraps to 0 |
| GpuCommands.AttachEffect | virtio-gpu.c:604-644 | a missing resource crashes the process; otherwise the resource gets the guest's page entries as its backing, the answer is 24 bytes and nothing else changes |
| GpuCommands.AttachBacking | virtio-gpu.c:604-644 | specification of the attach-backing command; AttachEffect states its outcomes |
| GpuCommands.Dispatch | virtio-gpu.c:779-905 | a rejected request fails the device and changes nothing else; an answered one keeps the registers' configuration |
| GpuCommands.DispatchCases | virtio-gpu.c:779-905 | an unknown opcode is rejected; a known one without a handler answers length 0; only set_scanout, flush, transfer_to_host_2d (a cursor-sized copy from a resource without pages) and attach_backing can crash |
| GpuQueue.CollectShape | virtio-gpu.c:760-776 | the walk reads 1 to 3 linked descriptors from the head and stops early only at a descriptor without NEXT |
| GpuQueue.Collect | virtio-gpu.c:760-776 | specification of the descriptor walk; CollectShape states its shape |
| GpuQueue.ConsumeRecords | virtio-gpu.c:929-956 | an iteration completes iff dispatch answers, and then writes (head, length) to the used ring; it halts iff dispatch crashes |
| GpuQueue.ConsumeEffect | virtio-gpu.c:929-956 | an iteration either aborts with the device failed or advances last_avail by one with the configuration kept |
| GpuQueue.Consume | virtio-gpu.c:929-956 | specification of one notify-loop iteration; ConsumeRecords and ConsumeEffect state its effect |
| GpuQueue.RunEffect | virtio-gpu.c:928-957 | a finished batch of n advanced last_avail and the used index by n; an aborted batch leaves the device failed with its configuration kept |
| GpuQueue.Run | virtio-gpu.c:927-957 | specification of the notify loop; RunEffect states its outcomes |
| GpuQueue.NotifyGuards | virtio-gpu.c:907-966 | notify is a no-op under DEVICE_NEEDS_RESET, fails without DRIVER_OK or a ready queue or on an overrun, is a no-op with nothing pending, and otherwise drains |
| GpuQueue.Notify | virtio-gpu.c:907-966 | specification of a queue notification; NotifyGuards states its cases |
| GpuQueue.DrainCatchesUp | virtio-gpu.c:928-957 | a batch that finishes leaves last_avail = new_avail with the configuration and scanouts kept |
| GpuQueue.DrainPublishes | virtio-gpu.c:958-965 | a finished batch advances used.idx by the number of requests and raises USED_RING iff avail flags bit 0 is clear |
| GpuQueue.DrainAborted | virtio-gpu.c:944-947 | an aborted batch returns straight away: the device is failed, used.idx is not republished and no interrupt is raised |
| GpuQueue.Drain | virtio-gpu.c:927-965 | specification of the loop and publication; DrainCatchesUp, DrainPublishes and DrainAborted state its outcomes |
| GpuQueue.RegWriteEdges | virtio-gpu.c:1111-1142 | QueueNotify ≥ 2 fails the device and is accepted; a write to events_clear is accepted and changes nothing |
| GpuQueue.RegWriteRefused | virtio-gpu.c:1058-1142 | exactly the offsets outside the handled set are refused with nothing changed |
| GpuQueue.NotifyAccepted | virtio-gpu.c:1111-1116 | a QueueNotify write is always accepted unless it halts the process |
| GpuQueue.ConfigWritableWindow | virtio-gpu.c:1127-1137 | in the config window only events_clear is writable |
| GpuQueue.RegWrite | virtio-gpu.c:1058-1142 | specification of the register write; RegWriteEdges, RegWriteRefused, NotifyAccepted and ConfigWritableWindow state its cases |
| VirtioGpuDevice.WriteResponse | virtio-gpu.c:127-137 | RAM gets the zeroed header with the type, and the length is 24 |
| VirtioGpuDevice.SetResponseFencing | virtio-gpu.c:183-193 | RAM becomes that of the fencing rule |
| VirtioGpuDevice.GpuDevice.constructor | virtio-gpu.c:1188-1192 | a fresh device has zeroed registers, no resources, no scanouts and the cursor size it is given |
| VirtioGpuDevice.GpuDevice.AddScanout | virtio-gpu.c:1194-1212 | the process exits iff the scanout rule refuses; otherwise the device takes its new state |
| VirtioGpuDevice.GpuDevice.SetFail | virtio-gpu.c:139-144 | the registers become those of `set_fail`, and nothing else changes |
| VirtioGpuDevice.GpuDevice.UpdateStatus | virtio-gpu.c:154-181 | the device state becomes that of the status rule, emptying the resource list on reset |
| VirtioGpuDevice.GpuDevice.GetDisplayInfoHandler | virtio-gpu.c:195-215 | state and length are those of the display-info command |
| VirtioGpuDevice.GpuDevice.ResourceCreate2DHandler | virtio-gpu.c:217-294 | state and length are those of the create command |
| VirtioGpuDevice.GpuDevice.ResourceUnrefHandler | virtio-gpu.c:296-316 | state and length are those of the unref command |
| VirtioGpuDevice.GpuDevice.GetEdidHandler | virtio-gpu.c:411-429 | state and length are those of the EDID command |
| VirtioGpuDevice.GpuDevice.SetScanoutHandler | virtio-gpu.c:431-455 | crashes iff the set-scanout command does, and otherwise takes its state and length |
| VirtioGpuDevice.GpuDevice.ResourceFlushHandler | virtio-gpu.c:457-477 | crashes iff the flush command does (missing resource), and otherwise takes its state and length |
| VirtioGpuDevice.GpuDevice.TransferToHost2DHandler | virtio-gpu.c:556-602 | crashes iff the transfer command does (a cursor-sized copy from a resource without pages), and otherwise takes its state and length |
| VirtioGpuDevice.GpuDevice.AttachBackingHandler | virtio-gpu.c:604-644 | crashes iff the attach command does, and otherwise takes its state and length |
| VirtioGpuDevice.GpuDevice.CursorHandler | virtio-gpu.c:646-692 | the cursor commands answer as Ack |
| VirtioGpuDevice.GpuDevice.CollectDescs | virtio-gpu.c:760-776 | the loop collects the descriptors of the walk specification |
| VirtioGpuDevice.GpuDevice.DescHandler | virtio-gpu.c:754-905 | the outcome is crashed, rejected or answered exactly as dispatch decides, with dispatch's state |
| VirtioGpuDevice.GpuDevice.RecordUsed | virtio-gpu.c:950-956 | the used element is written and last_avail advanced; nothing else changes |
| VirtioGpuDevice.GpuDevice.ConsumeOne | virtio-gpu.c:929-956 | one loop iteration halts, aborts or continues as the iteration specification says, in its state |
| VirtioGpuDevice.GpuDevice.RunLoop | virtio-gpu.c:927-957 | the loop crashes, aborts or finishes as the batch specification says, in its state and used index |
| VirtioGpuDevice.GpuDevice.PublishUsed | virtio-gpu.c:958-965 | RAM and the interrupt status become those of publishing new_used |
| VirtioGpuDevice.GpuDevice.Batch | virtio-gpu.c:927-965 | crashes iff the drain specification crashes, and otherwise takes its state |
| VirtioGpuDevice.GpuDevice.NotifyHandler | virtio-gpu.c:907-966 | halts iff the notify specification halts, and otherwise takes its state |
| VirtioGpuDevice.GpuDevice.SetQueueAddr | virtio-gpu.c:1090-1110 | the selected queue's address field becomes that of the transport rule |
| VirtioGpuDevice.GpuDevice.ConfigWrite | virtio-gpu.c:1064-1110 | accepted iff the transport bank handles the offset; the state becomes the transport rule's, or is unchanged when refused |
| VirtioGpuDevice.GpuDevice.RegWrite | virtio-gpu.c:1058-1142 | halts iff the write specification halts, and otherwise ends in its state and acceptance |
| VirtioGpuDevice.GpuDevice.RegRead | virtio-gpu.c:968-1056 | returns the register specification's answer |
| VirtioGpuDevice.GpuDevice.Read | virtio-gpu.c:1144-1165 | a load gives the access rule applied to the register at addr / 4 |
| VirtioGpuDevice.GpuDevice.Write | virtio-gpu.c:1167-1186 | a non-word store traps with state unchanged; a word store does what the write specification does, and a refused offset is a store fault |
| Virgl.WriteFence | virgl.c:510-524 | the fence queue afterwards holds exactly the outstanding commands, in order; nothing but the queue's links changes |
| Virgl.Enqueue | virgl.c:535 | a new command node with the fence id is appended at the tail of the queue |
| Virgl.OutstandingMembers | virgl.c:517-518 | a command stays queued iff it was queued and its fence id exceeds the completed fence |
| Virgl.OutstandingOrder | virgl.c:514-523 | survivors keep their arrival order |
| Virgl.OutstandingShrinks | virgl.c:514-523 | resolving a fence never adds commands |
| Virgl.OutstandingTwice | virgl.c:514-523 | resolving the same fence twice equals resolving it once |
| Virgl.OutstandingTwoFences | virgl.c:514-523 | resolving fence f then g equals resolving the larger of the two |
| Virgl.Outstanding | virgl.c:514-523 | specification of the fence queue after `virgl_write_fence`; OutstandingMembers, OutstandingOrder, OutstandingShrinks, OutstandingTwice and OutstandingTwoFences state its properties |
| Virgl.Put32 | virgl.c:252-266 | a 32-bit field stored in the response buffer reads back, and every other byte is unchanged |
| Virgl.Create2DZeroId | virgl.c:38-43 | the backend answers locally iff the resource id is 0, with an ERR_INVALID_RESOURCE_ID header and length 24, creating nothing |
| Virgl.Create2DHandler | virgl.c:30-43 | for id 0 RAM and length are those of the local answer; otherwise RAM is untouched and the request is left to the renderer |
| Virgl.CapsetInfoLayout | virgl.c:248-268 | the answer is an OK_CAPSET_INFO header, then id VIRGL2 with the renderer's version and size for index 0 or 1 and zeros for any other index |
| Virgl.CapsetInfoReadBack | virgl.c:248-268 | after storing the answer, the guest reads back the type, capset id, version and size the layout gives |
| Virgl.CapsetInfoAnswer | virgl.c:245-268 | the command always answers OK_CAPSET_INFO with length 40, changes no register or resource, and reports VIRGL2 and the renderer's limits only for index 0 or 1, the index being read after the response has been cleared and typed |
| Virgl.CapsetIndexApart | virgl.c:237-250 | when the request's index field lies apart from the 40 response bytes, the index read is the one the driver wrote |
| Virgl.CapsetIndexShared | virgl.c:237-255 | a request in the same buffer as the response reads index 0 from the cleared bytes and is answered with VIRGL2 and the renderer's limits |
| Virgl.GetCapsetInfoHandler | virgl.c:233-268 | RAM and length are those of the capset-info answer: clear and type the response, read the index, fill the fields |
| Virgl.FillCapsetInfo | virgl.c:250-265 | filling the cleared, typed response by branch on the index yields the capset-info layout |
| Virgl.GetCapsetInfo | virgl.c:233-268 | specification of the capset-info command; CapsetInfoLayout, CapsetInfoReadBack, CapsetInfoAnswer, CapsetIndexApart and CapsetIndexShared state its answer |
| Virgl.CapsetAnswer | virgl.c:284-296 | the answer is ERR_INVALID_PARAMETER iff max_size is 0 and OK_CAPSET otherwise; its length is the response size (32) plus max_size; no register or resource changes |
| Virgl.GetCapset | virgl.c:270-297 | specification of the capset command; CapsetAnswer states its answer |
| Virgl.GetCapsetHandler | virgl.c:270-297 | RAM and length are those of the capset answer |

## Left out

- Host I/O is not part of this model: the file open, fstat and mmap of `virtio_blk_init`, `printf`/`fprintf`, and the `exit` paths other than the scanout limit.
- The SDL window code (window.c, window.h) is not part of this model. Its locks, renders and cursor calls are treated as no-ops. So `destroy_vgpu_resource_2d`'s read of the freed record after `free` (virtio-gpu.c:121) has no modelled effect.
- Pixel contents are not modelled: the image copies of `transfer_to_host_2d` and `resource_flush`, and the cursor image copy. Only the checks and answers around them are, and the cursor copy's crash on a resource without pages.
- `CURSOR_WIDTH` and `CURSOR_HEIGHT` are defined outside the modelled files. The GPU state carries them as a cursor size fixed when the device is built, which no command changes.
- Allocation is assumed to succeed. Image buffers have no modelled contents.
- Every `virgl_renderer_*` call is left out: resource creation by the renderer, the 3-D, context and blob commands, and `virgl_renderer_fill_caps`. The renderer's capability limits are parameters. `GET_CAPSET` passes the zeroed `capset_data` pointer field of the response to `fill_caps`, and what that writes is not modelled.
- Virgl.Create2DHandler: for a nonzero id it only reports `rendered`, because that path is the renderer's.
- Virgl.Enqueue: nothing in the code queues a fence command (the queue is only initialised at virgl.c:535), so this tail append is the model's own.
- The VIRGL build is fixed off. The command table is the software one, and feature selector 0 reports only EDID.
- Guest memory accessed out of range is undefined behaviour in C. The model reads such bytes as 0 and drops such writes.
- `virtio_blk_read_handler` and `virtio_blk_write_handler` (virtio-blk.c:62-80) never check sector·512 + len against the disk image, so C reads and writes past the mapped image. The model reads those disk bytes as 0 and drops those writes (VirtioBlk.DiskAt, GuestRam.Paste).
- The GPU chain walk never checks descriptor indices against QueueNum. Out-of-table descriptors read whatever RAM holds (0 past its end).
- Descriptor slots a short chain leaves unfilled are read as zero descriptors.
- The block chain walk checks at most four descriptor indices against QueueNum. Once a fourth in-range descriptor is reached, the model stops and reports 0 with no data moved for any chain longer than 3. The C behaves otherwise: it stores the fourth descriptor into `vq_desc[3]`, one past the three-slot array, and from there on is undefined. It keeps checking `desc_idx >= QueueNum` and writing past the array descriptor by descriptor until one lacks NEXT, and only then does the `desc_cnt > 3` test (virtio-blk.c:126) return 0. So a chain whose fifth or later index is at or beyond QueueNum fails the device in C but not in the model, and an in-range NEXT cycle never ends in C but reports 0 in the model.
- A zero QueueNum with a wrapped available index reaches `% 0` (SIGFPE). The model halts the process there.
- `set_scanout`, `resource_flush` and `resource_attach_backing` dereference a missing resource in C, and `transfer_to_host_2d`'s cursor copy (virtio-gpu.c:552) reads the `iovec` of a resource without pages: a null pointer when none was ever attached, a zero-sized allocation when zero entries were. The model reports a process crash for all of these, and the handler methods propagate it.
- The display-info, EDID and capset answers are assembled as byte blocks and stored at once (the capset-info answer in two stores: cleared and typed, then complete). The C writes them field by field; the final bytes are the same.
- Common.BitmapSetBit: requires the in-word position below 31, because `set_bit` shifts an `int` and larger shifts are undefined.
- Virgl.CapsetAnswer: states the length as 32 + max_size only when that sum fits in 32 bits, because the C sum wraps.
- `list_move` and the `list_*_entry` macros are not modelled. They are unused in the core.
- The PLIC, UART and other devices of device.h are declarations only. The model stops at the InterruptStatus bits.
