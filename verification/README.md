# Apple Neural Engine: a model of the user library and the kernel driver

The repository drives the Apple Neural Engine from user space (`src/libane`) and from a DRM
driver (`driver/src`).  This project models five of its parts and proves what they promise.

* **Half precision** (`Ieee.dfy`, `HalfFloat.dfy`).  Finite single-precision numbers are counted in
  units of 2^-149, half-precision ones in units of 2^-24.  A float operation is the exact result
  rounded to nearest, ties to even (sections 3.4, 4.3.1 and 5.4.2 of IEEE 754-2008).  The
  conversions are written with the bit tricks of the source; the theorems compare them with
  "nearest of all half-precision numbers".
* **Bit fields** (`Bits.dfy`, `Bitfield.dfy`).  The template for every 32- and 64-bit type, position
  and length, and the hand-written `set_nid` it must agree with.
* **HWX loader** (`HwxFormat.dfy`, `Platform.dfy`, `HwxCommands.dfy`, `Hwx.dfy`, `HwxEncoding.dfy`).  `HwxFormat.Accepts`
  says what an acceptable file is, without reference to how it is read; the loader is a set of
  methods with the loops and the error exits of the source.  `Platform.System` is the operating
  system: every request may fail, reads may be short or interrupted, and everything that is held is
  recorded.  Its ghost flag `faulted` says that some request failed, so "given memory and I/O" can be
  stated exactly: without a fault, opening succeeds if and only if the file is acceptable.  `HwxEncoding`
  writes a file down in the order of the C structures and proves that opening gives every field back.
* **Driver** (`AddressSpace.dfy`, `Driver.dfy`, `Engine.dfy`, `Protocol.dfy`,
  `RegisterValues.dfy`).  The buffer ioctls over
  an address allocator and a page table; a submission as a sequence of register accesses, first in
  one thread and then interleaved with any number of other submitters, of resuming threads, and of
  the hardware.
* **Network set-up and tiling** (`Tiling.dfy`, `Channels.dfy`, `Network.dfy`, `SegState.dfy`).  The strided copies in
  both directions, the all-or-nothing initialiser, and the bootstrap buffer.

`Words.dfy`, `Wrappers.dfy` and `Uapi.dfy` hold the word types, `Option` and the shared constants.

What the code does where its comments or its callers suggest something else:

* `driver/src/ane_drv.c:432` passes the limit `max_iova` as the size of the window.  The model does
  the same: the window ends at `vm_base + max_iova`, beyond the intended limit whenever `vm_base` is
  not zero (`Driver.WindowEnd`).  On H13 it still ends below 2^32.
* `driver/src/ane_drv.c:67`, `:78` and `:112` shift a 32-bit page number.  `AddressSpace.Size32` keeps
  the truncation.  The computed offsets stay inside the reserved area exactly when `npages << shift`
  fits 32 bits (`AddressSpace.PagesStayReserved`), and `AddressSpace.OversizedExample` is a size for
  which they do not.  Such a buffer is nevertheless never mapped: its page 2^(32 - shift) would go where
  its page 0 is, the mapping is refused there, and everything is rolled back.  This uses that
  `iommu_map` refuses an address that is mapped and that `drm_mm` never reserves an empty range.
* `driver/src/ane_drv.c:189` stores the number of pages of the memory object in 32 bits.  The buffer
  uses as many pages as were counted, so it holds the request exactly up to 4 GiB less one page
  (`Driver.RequestFits`, `Driver.AneDevice.BoInit`); of a larger request the call fails, as it
  does if the count does not fit, or a shorter buffer is made, as 64 TiB and one page allow
  (`Driver.TruncatedExample`).
* `driver/src/ane_drv.c:260-261` lets the tasks fill the command buffer up to its last byte, and
  `:274-275` rounds their size up to sixteen.  If fewer than sixteen bytes are left, the kernel BAR is
  the first address after the buffer (`Driver.KernelBarMappedIff`, `Driver.KernelBarUnmapped`).
* `src/libane/hwx.c:239` reads `nsects` before the length is compared: exactly if `cmdsize` is below 68
  the read leaves the buffer.  `HwxCommands.ParseSegment` makes the value arbitrary then; any value
  refuses the command.
* `src/libane/ane.c:243-246` returns without releasing the channels if the task size is zero.
  `Network.NeuralNet.ChanInit` says so; `Network.NeuralNet.ModelInit` never lets that happen.
* The task count is or-ed into TM_INFO below the task size, and neither is limited.  TM_INFO gives the
  count back exactly if it is below 2^16, and then the size in words less one exactly if
  4 <= td_size < 0x40004 (`RegisterValues.InfoWordFields`).
* `ane_model_init` leaves the tile sizes and the channel counts of the model zero, so a network it
  makes has only the bootstrap buffer.  The channel routines are modelled for arbitrary sizes and
  counts all the same.
* `ane_tile` zeroes its padding in the row loop, but its fast path copies N*C*P bytes; padding
  is zero for all data exactly when the fast path is not taken or has no padding to copy
  (`Tiling.PaddingIsZeroIff`), which even `R` dividing `P` guarantees (`Tiling.RegularPaddingIsZero`).

## Model

| member | source | states |
|---|---|---|
| HalfFloat.F32ToF16Nearest | src/libane/ane_f16.h:63-90 | for every f32 that is not a NaN, the result has its sign and is the nearest of all f16 numbers, even on ties, with infinity standing at 2^16; the magnitude bits never exceed 0x7C00 |
| HalfFloat.F32ToF16Overflow | src/libane/ane_f16.h:63-90 | the result is infinite exactly from 65520 up |
| HalfFloat.F32ToF16Subnormal | src/libane/ane_f16.h:63-90 | below 2^-14 the result is the argument rounded half-even to a multiple of 2^-24 |
| HalfFloat.F32ToF16Monotone | src/libane/ane_f16.h:63-90 | the conversion never reverses an order, across subnormals, normals and overflow |
| HalfFloat.F32ToF16Negate | src/libane/ane_f16.h:63-90 | the conversion commutes with negation, for NaNs too |
| HalfFloat.F32ToF16Nan | src/libane/ane_f16.h:63-90 | every NaN becomes sign + 0x7E00 |
| HalfFloat.F32ToF16Is | src/libane/ane_f16.h:63-90 | the bit tricks as written compute sign and magnitude of one correct rounding at 11 significant bits |
| HalfFloat.ScaledBaseExact | src/libane/ane_f16.h:73 | both scalings together are exact below 2^16: they multiply by four |
| HalfFloat.SumRounds | src/libane/ane_f16.h:78-83 | adding the bias rounds to 24 bits at exactly the last bit of the f16 result |
| HalfFloat.Round32Nearest | src/libane/ane_f16.h:73-83 | the rounding of the float operations is nearest-even among all single-precision numbers, with infinity at 2^128 |
| HalfFloat.F16ToF32Exact | src/libane/ane_f16.h:34-61 | widening keeps sign, number, infinities and the NaN class |
| HalfFloat.RoundTrip | src/libane/ane_f16.h:34-90 | narrowing what was widened gives back the bits; a NaN becomes the quiet NaN of its sign |
| HalfFloat.F16ToF32Row | src/libane/ane_f16.h:92-98 | element by element: the same sign, class and number, and nothing beyond the row changes |
| HalfFloat.F32ToF16Row | src/libane/ane_f16.h:100-106 | element by element: the nearest half-precision number, even on ties, with the sign kept, or the quiet NaN; nothing beyond the row changes |
| HalfFloat.RowRoundTrip | src/libane/ane_f16.h:92-106 | whatever row of words has the values of a row without NaNs, of any length, is narrowed to exactly that row |
| HalfFloat.NarrowedUnique | src/libane/ane_f16.h:63-90 | the promise about a narrowed element leaves one result |
| HalfFloat.WidenedUnique | src/libane/ane_f16.h:34-61 | the promise about a widened element that is not a NaN leaves one result |
| Ieee.RoundNearest | src/libane/ane_f16.h:63-90 | the rounding used for the float operations is nearest-even among all numbers of the format |
| Ieee.NearestUnique | src/libane/ane_f16.h:63-90 | there is only one nearest-even pattern, so the conversion theorem determines the result |
| Bitfields.ReadAfterWrite | src/libane/bitfield.h:41-59 | reading after a write gives the value cut to the field and, if signed, sign-extended |
| Bitfields.WriteBits | src/libane/bitfield.h:53-59 | bit by bit: inside the field the bits of the value, outside the old ones |
| Bitfields.ReadBits | src/libane/bitfield.h:41-47 | bit by bit: the field at the bottom, above it zeros or copies of the sign bit |
| Bitfields.ReadBackIffInRange | src/libane/bitfield.h:35-59 | the value written is read back exactly if the two assertions of the assignment hold for it |
| Bitfields.Bounds | src/libane/bitfield.h:35-36 | the shifted limits of the type are the limits of a field of that many bits |
| Bitfields.WriteOfRead | src/libane/bitfield.h:41-59 | writing what was read changes nothing |
| Bitfields.LastWriteWins | src/libane/bitfield.h:53-59 | of two writes to a field only the second is visible |
| Bitfields.WritePreservesOther | src/libane/bitfield.h:53-59 | a write to one field leaves every disjoint field as it was, signed ones included |
| Bitfields.WritesCommute | src/libane/bitfield.h:53-59 | writes to disjoint fields commute |
| Bitfields.Bitfield.Get | src/libane/bitfield.h:41-47 | the value read is one that may be written |
| Bitfields.Bitfield.Assign | src/libane/bitfield.h:53-59 | the value is read back, and the word changes as one field write |
| Bitfields.Bitfield.AddAssign | src/libane/bitfield.h:61-63 | the field becomes the sum, of the numbers if the type is signed or the unsigned sum does not wrap, and nothing else of the word changes; demanded are the assertions and, in a signed type, that the sum does not overflow |
| Bitfields.Bitfield.SubAssign | src/libane/bitfield.h:65-67 | the same for the difference |
| Bitfields.SumOfNumbers | src/libane/bitfield.h:61-63 | the word of the sum is then in range, and means the sum of the numbers |
| Bitfields.DifferenceOfNumbers | src/libane/bitfield.h:65-67 | the word of the difference is then in range, and means the difference of the numbers |
| Bitfields.AddThenSubtract | src/libane/bitfield.h:61-67 | after `+=` the matching `-=` is allowed and restores the whole word |
| Bitfields.SetNidIsFieldWrite | src/libane/ane.c:101-106 | `set_nid` equals assigning the (16,8) field and clearing bits 28 to 31 |
| HwxFormat.TilesUnique | src/libane/hwx.c:211-407 | a file can be cut into its commands in at most one way |
| HwxFormat.BadCommandRefuses | src/libane/hwx.c:211-322 | one malformed command refuses the file, wherever it stands |
| HwxFormat.ShortCommandsRefuse | src/libane/hwx.c:404-407 | so do commands that do not fill the declared area |
| HwxFormat.SectionsDecide | src/libane/hwx.c:415-418 | once the commands tile, the two sections alone decide |
| HwxFormat.SegmentsInFile | src/libane/hwx.c:247-301 | every declared segment and nonempty section of a well-formed file lies in the file |
| HwxFormat.RecordsTilePayload | src/libane/hwx.c:345-395 | the records of a thread command tile its payload; each holds the matching bytes, and only the last may be shorter than its count |
| HwxFormat.RecordsAddUp | src/libane/hwx.c:345-395 | eight bytes per record plus the stored bytes plus a tail below eight are the whole payload |
| HwxEncoding.FileDecodes | src/libane/hwx.c:15-58 | decoding undoes encoding for a whole file: from the bytes of a header and of any commands, written in the order of the declared structures, come back the header, the segments with their sections and the thread states; and the file is acceptable exactly if the two sections are among them |
| HwxEncoding.OpenedIsEncoded | src/libane/hwx.c:202-418 | what an open file holds is what was encoded, field by field and in order |
| HwxEncoding.OpenedTiles | src/libane/hwx.c:202-407 | an open file has `ncmds` commands in `sizeofcmds` bytes, and holds what they declare |
| HwxEncoding.HeaderDecodes | src/libane/hwx.c:175-185 | every word of the header comes from its place in the structure |
| HwxEncoding.SectionDecodes | src/libane/hwx.c:276-299 | every field of a section comes from its place in the structure |
| HwxEncoding.SegmentDecodes | src/libane/hwx.c:254-303 | every field of a segment, and all its sections, come from their places |
| HwxEncoding.RecordsDecode | src/libane/hwx.c:345-395 | every record of a thread command comes back with its flavor, count and data, the last one possibly cut short |
| HwxEncoding.OpenedVersion | src/libane/hwx.c:105-124 | the descriptor version for each named processor, and 0 for any other |
| HwxEncoding.Names | src/libane/hwx.c:572-580 | the names that are looked up, as characters |
| HwxEncoding.SmallestFile | src/libane/hwx.c:150-428 | there are acceptable files: one of 264 bytes is exhibited |
| HwxCommands.WithinFile | src/libane/hwx.c:60-69 | the two comparisons decide offset + length <= size without overflow |
| HwxCommands.TrimName | src/libane/hwx.c:71-79 | the loop finds the bytes before the first NUL |
| HwxCommands.PreadExact | src/libane/hwx.c:81-103 | success delivers exactly the file slice however the transfer is split; failure means a fault or a slice beyond the end; terminates with finitely many interruptions |
| HwxCommands.FreeSegments | src/libane/hwx.c:126-136 | releases each owned block exactly once and nothing else |
| HwxCommands.FreeThreads | src/libane/hwx.c:138-148 | the same for thread states |
| HwxCommands.LoadSections | src/libane/hwx.c:276-303 | succeeds exactly if all nonempty sections lie in the file, and yields them in order |
| HwxCommands.ParseSegment | src/libane/hwx.c:238-304 | without a fault it succeeds exactly on a well-formed segment command; a block is kept only for the sections |
| HwxCommands.LoadSegment | src/libane/hwx.c:227-317 | the declared segment is appended, or nothing of it is kept; without a fault it fails only on an ill-formed command |
| HwxCommands.ScanThread | src/libane/hwx.c:335-395 | the loop terminates and appends exactly the records of the command; it can fail only by a fault |
| HwxCommands.LoadThread | src/libane/hwx.c:318-398 | the same for the whole branch, with its buffer released |
| Hwx.ReadCommand | src/libane/hwx.c:212-225 | without a fault it fails only where the next command is malformed |
| Hwx.LoadCommand | src/libane/hwx.c:211-402 | one turn of the loop adds what the command declares, or the command is malformed, or there was a fault |
| Hwx.LoadCommands | src/libane/hwx.c:202-407 | after the loop the commands tile the area and all they declare is loaded in order; without a fault it fails only on an unacceptable file |
| Hwx.Open | src/libane/hwx.c:150-428 | all or nothing: on failure memory and descriptors are as at entry; on success the file is acceptable, its segments, sections and thread states are the declared ones in order, and exactly their blocks are held; without a fault it fails only on what is not acceptable |
| Hwx.OpenRegular | src/libane/hwx.c:174-428 | the same from the header on |
| Hwx.Close | src/libane/hwx.c:430-440 | gives back exactly the blocks and the descriptor that opening took, each once |
| Hwx.OpenThenClose | src/libane/hwx.c:150-440 | opening a file and closing it again leaves every resource as it was, whatever fails in between |
| Hwx.SectionByName | src/libane/hwx.c:544-570 | the first match in file order, or none if none matches; no segment name matches any segment |
| Hwx.FoundIffThere | src/libane/hwx.c:572-580 | a lookup by both names finds something exactly if there is something |
| Hwx.ThreadStateNext | src/libane/hwx.c:598-626 | the first state of the flavor after the cursor; none if the cursor is outside |
| Hwx.ReadPart | src/libane/hwx.c:628-699 | on any part that lies in the file, a read succeeds without a fault exactly if it is in range: the second check never fails |
| Hwx.NeverWraps | src/libane/hwx.c:658-667 | the 64-bit sum of the offsets never wraps for a part inside the file |
| Hwx.SegmentRead | src/libane/hwx.c:643-670 | for a segment of an open file: success exactly in range, and the bytes are the file slice |
| Hwx.SectionRead | src/libane/hwx.c:672-699 | the same for a section |
| AddressSpace.RunKeepsConsistent | driver/src/ane_drv.c:52-122 | after every sequence of buffer ioctls with any sizes and any failures, the page table is exactly the union of the live buffers' translations, and live ranges are not empty, aligned, inside the window and pairwise apart |
| AddressSpace.AddKeepsConsistent | driver/src/ane_drv.c:161-216 | a successful init keeps that; an init step includes that the size fits 32 bits, which `Driver.AneDevice.BoInit` proves of every init that succeeds |
| AddressSpace.FreeKeepsConsistent | driver/src/ane_drv.c:218-232 | and so does a free |
| AddressSpace.FreeUndoesAdd | driver/src/ane_drv.c:161-232 | init followed by free restores the whole address space |
| AddressSpace.LiveRangesApart | driver/src/ane_drv.c:52-102 | two live buffers never share a device address |
| AddressSpace.PagesStayReserved | driver/src/ane_drv.c:65-79 | the offsets as computed stay in the reserved area exactly if the shifted page count fits 32 bits |
| AddressSpace.OversizedExample | driver/src/ane_drv.c:65-79 | a page count for which they do not |
| Driver.AneDevice.MapPages | driver/src/ane_drv.c:52-102 | either the buffer is mapped page by page into a fresh hole, or nodes and page table are as before, whichever page failed and whatever the size; a buffer whose size does not fit 32 bits is never mapped |
| Driver.AneDevice.MapLoop | driver/src/ane_drv.c:76-92 | the loop maps all pages at their own addresses, or the page table is as before; it gets through only if the size fits |
| Driver.AneDevice.Rollback | driver/src/ane_drv.c:83-90 | the backward loop restores the page table, whichever page failed |
| Driver.AneDevice.UnmapPages | driver/src/ane_drv.c:104-122 | exactly the node and the addresses that the mapping loop computes are released |
| AddressSpace.ReachedIs | driver/src/ane_drv.c:111-114 | for a buffer whose size fits, as that of every live buffer does, these are exactly its own addresses |
| Driver.UnmapUndoes | driver/src/ane_drv.c:198-208 | unmapping after a failed handle creation restores the state before the mapping |
| Driver.AneDevice.BoInit | driver/src/ane_drv.c:161-216 | a failure at any step leaves nothing behind; success is one abstract add step; a page count, as cut to 32 bits, whose size does not fit always fails; a buffer that is made holds its request exactly if that is at most 4 GiB less one page; the address space stays consistent |
| Driver.AneDevice.BoFree | driver/src/ane_drv.c:218-232 | refused for an unknown handle or nonzero padding, otherwise one abstract free step |
| Driver.AneDevice.BuildRequest | driver/src/ane_drv.c:240-282 | a request is built exactly for accepted arguments, and every one of its fields is the declared one |
| Driver.AneDevice.Submit | driver/src/ane_drv.c:234-304 | a refused submission touches no register and returns EINVAL; on H13 exactly the inadmissible ones are refused; an accepted one leaves a known value in every register and returns 0 exactly if the poll saw the idle bit, otherwise the timeout |
| Driver.AdmissibleIff | driver/src/ane_drv.c:245-282 | on H13 the checks accept exactly: no padding; sizes, command and bootstrap buffer given, kernel buffer not; every given buffer of the first 32 live; tasks smaller than the command buffer |
| Driver.SubmittedNumbers | driver/src/ane_drv.c:251-254 | queue 4 is pushed as 0x405, its id word is 0x4001 and its status ends 0 |
| Driver.H13NothingIsLost | driver/src/ane_drv.c:256-282 | on H13 the 32-bit registers lose nothing of any BAR or the bootstrap address; the derived kernel BAR is 16-byte aligned, not before the end of the tasks and at most the end of the command buffer, which is inside the window |
| Driver.KernelBar | driver/src/ane_drv.c:269-275 | rounding up the task size does not pass the end of a page-aligned buffer that holds the tasks; it may reach it |
| Driver.BarsAreMapped | driver/src/ane_drv.c:256-282 | between ioctls every page of every buffer that an accepted request names by a handle is in the page table, at its BAR plus the offset of the page |
| Driver.BootstrapIsMapped | driver/src/ane_drv.c:277-282 | the same for the bootstrap address |
| Driver.OnMappedPageIff | driver/src/ane_drv.c:52-102 | an address is on a mapped page of a live buffer exactly if it is in the range of the buffer |
| Driver.KernelBarMappedIff | driver/src/ane_drv.c:258-275 | the derived kernel BAR is on a mapped page of the command buffer exactly if the tasks leave at least sixteen bytes of it; otherwise it is the first address after the buffer |
| Driver.KernelBarUnmapped | driver/src/ane_drv.c:258-275 | it does happen: with one live buffer on H13, a task size of one byte less than the buffer is accepted and its kernel BAR is on no mapped page |
| Driver.WindowEnd | driver/src/ane_drv.c:413-435 | as written the window is [vm_base, 2 * vm_base + vm_size - page), on H13 from 0x4000 to 0xE0008000 less a page; it ends beyond the intended limit exactly if vm_base is not zero, and below 2^32 on H13 |
| Driver.RequestFits | driver/src/ane_drv.c:179-189 | the pages of a request hold it, and their size fits 32 bits, exactly if it is at most 4 GiB less one page; then less than a page is added |
| Driver.TruncatedExample | driver/src/ane_drv.c:179-189 | a request of 64 TiB and one page makes an object of 2^32 + 1 pages that is counted as one page, which fits |
| Engine.RegistersApart | driver/src/ane_h13.c:12-51 | no two registers of the two register maps share any of their four bytes |
| RegisterValues.RegisterMap | driver/src/ane_h13.c:12-51 | the addresses of the registers that are used |
| Engine.TaskManager.TmEnable | driver/src/ane_h13.c:58-68 | the routine performs exactly the register program that the interleaving model runs |
| Engine.TaskManager.TmEnqueue | driver/src/ane_h13.c:70-85 | the same for the enqueue |
| Engine.TaskManager.TmExecute | driver/src/ane_h13.c:87-143 | the same for push, poll and acknowledgement; the result is what the poll saw |
| RegisterValues.EnableLeaves | driver/src/ane_h13.c:58-68 | from any registers, enabling leaves the priorities, the two masks and bit 12 of TM_TQ_EN, and every other register as it was |
| RegisterValues.EnqueueLeaves | driver/src/ane_h13.c:70-85 | from any registers, the enqueue leaves status 1, the 32 BARs, size, address and id in its queue, and every other register as it was |
| RegisterValues.ExecuteLeaves | driver/src/ane_h13.c:87-143 | from any registers, the execution leaves the queue's address and size with the count in the task manager, the queue and its priority in TM_PUSH, bit 1 set in TM_IRQ_ACK, status 0, and every other register as it was |
| RegisterValues.SubmissionLeaves | driver/src/ane_h13.c:70-143 | both together, in terms of the request |
| RegisterValues.SizeWordIs | driver/src/ane_h13.c:80 | the size register holds the words less one in its high half, modulo 2^16 |
| RegisterValues.InfoWordFields | driver/src/ane_h13.c:80-91 | TM_INFO gives back the task count exactly if it is below 2^16, and then the task size in words less one exactly if 4 <= td_size < 0x40004 |
| RegisterValues.NidWordFields | driver/src/ane_h13.c:82 | the id register is the low byte of the network id above a valid bit |
| RegisterValues.PushWordFields | driver/src/ane_h13.c:92 | the push word is the queue above its priority, 1 to 6 and 0x1e, 0x1f |
| Protocol.RunKeepsInvariant | driver/src/ane_drv.c:284-295 | in every interleaving the thread inside the engine holds the lock, and every queue configuration register, TM_ADDR and TM_INFO that it has written so far still holds its value |
| Protocol.PushIsCoherent | driver/src/ane_h13.c:87-93 | whenever any thread writes TM_PUSH it holds the lock, what it writes is its own queue with its priority, and TM_ADDR, TM_INFO, all 32 BARs, size, address and id of its queue hold the values of its own request |
| Protocol.StepKeepsInvariant | driver/src/ane_drv.c:599-605 | a resuming thread, which takes no lock, cannot disturb that |
| Protocol.MutualExclusion | driver/src/ane_drv.c:284-302 | never are two threads inside the engine |
| Protocol.SubmissionIsCoherent | driver/src/ane_drv.c:284-295 | one submission on its own leaves its request in the registers |
| Tiling.AneTile | src/libane/ane.c:537-567 | the routine, fast path and triple loop, computes the tile function |
| Tiling.AneUntile | src/libane/ane.c:569-599 | the same in the other direction |
| Tiling.TileElement | src/libane/ane.c:555-563 | element (n, c, h, w) arrives at the same coordinates of an array with planes of P / R rows of R / 2 elements, for every element |
| Tiling.UntileElement | src/libane/ane.c:587-595 | and comes back from there |
| Tiling.PlacesDistinct | src/libane/ane.c:558-559 | different coordinates have different places |
| Tiling.UntileTile | src/libane/ane.c:537-599 | untiling after tiling restores the data exactly, whatever the arrays held |
| Tiling.TileUntile | src/libane/ane.c:537-599 | tiling after untiling keeps every image row of the tile |
| Tiling.WritesStayInside | src/libane/ane.c:541-566 | no byte from N*C*P of the tile on, or from N*C*H*W*2 of the data on, changes |
| Tiling.PaddingIsZero | src/libane/ane.c:553-566 | every byte outside an image row ends zero in the loop, and on the fast path if the two sizes agree |
| Tiling.PaddingIsZeroIff | src/libane/ane.c:550-553 | that holds for all data exactly if the fast path is not taken or has nothing to pad |
| Tiling.PaddingIs | src/libane/ane.c:555-563 | the bytes outside image rows are exactly those of no element |
| Tiling.FastPathEqualsLoop | src/libane/ane.c:550-565 | copying everything at once gives what the loop would |
| Tiling.RegularIsExact | src/libane/ane.c:541-553 | even R dividing P with room for the image makes the tile exactly its rows, and the two sizes equal on the fast path |
| Tiling.RegularPaddingIsZero | src/libane/ane.c:537-567 | under these conditions every byte outside an image row ends zero, on both paths |
| Tiling.RegularFastPath | src/libane/ane.c:550-565 | and the fast path, whenever it is taken, gives what the loop would |
| Tiling.LoopOffsets | src/libane/ane.c:558-560 | every row read and written lies inside its array |
| Channels.AneBoInit | src/libane/ane.c:190-209 | a buffer with its mapping at full size, or neither; fails only by a fault or for size zero |
| Channels.AneBoFree | src/libane/ane.c:211-215 | gives back exactly what the buffer holds, nothing for a blank one |
| Channels.TileAlignLeast | src/libane/ane.c:33 | the mask computes the least multiple of 0x4000 that is not below the size |
| Channels.CopySizeIsMin | src/libane/ane.c:125-131 | on the aligned buffer the third clamp never acts: min(task size, section size) bytes are copied |
| Channels.SetNid | src/libane/ane.c:101-106 | for any id, in memory only the first word changes, as `set_nid` computes it |
| Channels.NamedBytes | src/libane/ane.c:101-106 | byte by byte: the third becomes the low byte of the id, of the fourth the low half is kept, all others stay |
| Channels.SetNidIs | src/libane/ane.c:101-106 | the mask expression in numbers |
| Network.FindSegState | src/libane/ane.c:383-390 | the first thread state that holds a whole segment record, or none if there is none |
| Network.NeuralNet.ModelInit | src/libane/ane.c:370-424 | a model of an open file with nonzero truncated task size, or nothing held; without a fault it fails only on a file without such a task |
| SegState.ModelOfRecord | src/libane/ane.c:383-404 | for a file whose first long enough thread state of flavor 4 encodes a segment record, the task size is four times its words, in 32 bits, and the task count is its own |
| SegState.UsableByRecord | src/libane/ane.c:385-408 | such a file can be used exactly if the number of words is not a multiple of 2^30 |
| SegState.UnusableWithout | src/libane/ane.c:392-397 | a file without such a record cannot be used |
| SegState.RecordDecodes | src/libane/hwx.h:98-111 | the words and the count come from their places in the structure of 2104 bytes |
| Network.NeuralNet.SetBtsp | src/libane/ane.c:108-140 | the buffer is the start of `__text`, zero padded, with only the network id put in; zeros and the id if the read failed |
| Network.BootImage | src/libane/ane.c:121-139 | of an initialised network, byte for byte: min(task size, section size) bytes of the section, then zeros; byte 2 is 0x40 and of byte 3 only the low half is kept |
| Network.NeuralNet.ChanFree | src/libane/ane.c:217-224 | all channels, set up or not, are released and blank |
| Network.NeuralNet.ChanInit | src/libane/ane.c:226-260 | all channels the model asks for at their sizes and the bootstrap buffer with its image, or none; only for task size zero do they stay |
| Network.NeuralNet.SetUp | src/libane/ane.c:442-463 | everything after the allocation of the network, or nothing including that allocation |
| Network.Init | src/libane/ane.c:435-464 | a complete network holding its block, its file, its device and its channels, or null and every resource as before; null only for a fault or an unusable argument |
| Network.NeuralNet.Free | src/libane/ane.c:466-472 | releases exactly what initialisation took |
| Network.SectionUnique | src/libane/hwx.c:544-570 | a lookup by name has one answer, so the image above is determined |
| Network.NeuralNet.TileSend | src/libane/ane.c:602-626 | tiles into the channel of the source index; an index out of range does nothing |
| Network.NeuralNet.TileRead | src/libane/ane.c:612-632 | untiles from the channel of the destination index |

## Left out

- Driver.BarsAreMapped: speaks of the state between ioctls; `ane_bo_free` does not take the engine lock, so a buffer may be freed while a request that names it runs.
- Driver.AneDevice.Submit: sequential; interleavings are the subject of `Protocol`, whose threads issue the same register programs.
- HalfFloat.F16ToF32Exact: NaN payloads; multiplication returns one quiet NaN in the model. Rounding mode is to nearest even, with no flush to zero and no excess precision.
- Tiling.LoopOffsets: offsets are unbounded numbers; they are bounded by the sizes of the two arrays, so they do not wrap for arrays that exist.
- Signed bit fields of 8 and 16 bits, where integer promotion changes the sign extension; no field uses them.
- GEM reference counts, file close, `mmap` and page-fault handlers of the driver; pages are abstract physical addresses, and the page size of the kernel is taken to be that of the IOMMU.
- `drm_mm` is "any free aligned hole that is not empty, or failure"; `iommu_map` is "one page where none is mapped, or failure"; one open DRM file.
- The buffer ioctls are taken one after the other. `ane_bo_free` looks a buffer up, removes its handle and unmaps it without a lock around all three, so nothing is claimed of two calls for one handle at the same time.
- The status poll returns success or a timeout; the interrupt-drain loops, which only read, are left to the hardware. The hardware may change every register except the queue configuration, TM_ADDR and TM_INFO.
- The H14 variant of the engine, whose enqueue is empty, and `ane_exec`, whose ioctl is commented out.
- Power domains, probe and remove, DRM version checks and the search among device nodes: opening the device either succeeds or fails.
- The contents and the fake offset of a fresh mapping; `ane_bo` offsets are not kept.
- `errno`, log messages, and the trivial getters of the library.
- The plain copies `__ane_send` and `__ane_read`, which are one `memcpy` each.
- A file does not change while it is open, and is shorter than 2^63 bytes, so offsets fit `off_t`.
- The lookup of a segment by name alone, which nothing in the library uses.
- The disassembler, the Python tools and bindings, and the device tree.
