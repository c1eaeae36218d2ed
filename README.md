# FramI2C in Dafny

This project models the storage core of FramI2C, a library for serial
ferroelectric RAM chips (Fujitsu MB85RC parts) on an I2C bus. The core has
three parts:

- **`FramI2C`, the storage device.** It holds the chip's address map:
  - a 128-byte control block at address 0;
  - a user area from `_bottomAddress` (128) up to the part's top address.

  `read` and `write` are bounds-checked and copy at most 128 bytes, in
  30-byte bus transfers. `allocateMemory` is a grow-only bump allocator.
  `format` zero-fills the user area.
- **`FramI2CArray`.** A fixed number of equal-sized elements, stored back to
  back in one allocation.
- **`Ring_FramArray`.** A circular queue with one slot more than requested.
  A 12-byte record (`addr_t`: check word, tail, head) follows the last slot.
  Every change of the indices rewrites the record, and `initialize` adopts
  the stored indices when the check word matches them. That is how the
  queue survives a restart.

The chip is a Dafny `array<byte>` given to the device's constructor, with
address `i` at index `i`. `_readMemory` and `_writeMemory` become copies of
at most 30 bytes between that array and the caller's buffer. Every
`uint32_t` sum, difference and product that can wrap is written out with
its wrap-around (module `Word`). The rest are plain integers, because
their checks keep them far below 2^32: the finish test of `read`/`write`
(the start is at most the top address and the length at most 128), the
`address += blockSize` steps of their transfer loops, and the
`i += _maxBufferSize` step of `format`. `myModulo` is modelled with C's signed cast and its
remainder, which truncates toward zero. The `uint16_t` truncation in
`allocateMemory` is written out as well.

Modules, from the bottom up:

| module | what it holds |
|---|---|
| `Word` | 32-bit wrap-around arithmetic and the signed cast |
| `FramTypes` | part numbers, top addresses, result codes, buffer and address constants |
| `Allocation` | the bump allocator as a function of its cursor |
| `Trailer` | the `addr_t` record, its 12-byte little-endian image, the check word |
| `Transfer` | the bounds check, the effect of `read`/`write` on chip and buffer, and the 30-byte chunk plan |
| `FramDevice` | class `FramI2C` |
| `FramArray` | class `FramI2CArray` |
| `RingIndex` | `myModulo`, the index steps, `isEmpty`/`isFull`, occupancy, and the window of live slots |
| `RingLayout` | the ring's slots on the chip, its contents as a sequence of elements, and the effect of each ring operation on them |
| `RingBuffer` | class `Ring_FramArray` |
| `Scenarios` | end-to-end uses of the ring and the array on a concrete chip |

A ring is described by three predicates:

- `Laid()`: its slots and record lie inside the chip's user area, its
  element size is 1 to 127 bytes, and its slot count is 1 to 2^31 - 1.
- `Placed()`: it is laid out and both indices name a slot.
- `Persisted()`: the chip holds the record of the current indices.

`Contents()` is the ring's live elements, oldest first. On a placed ring:

- `push` is `FifoPush`: it appends, and drops the oldest element when the
  ring already held `n - 1`.
- `popFirstElement` returns the oldest element and removes it.
- `popLastElement` does the same with the newest element.
- The peeks return the same elements without removing them.
- `clearArray` empties the ring.

A push, a successful pop and `clearArray` leave the ring placed and
persisted.

Behaviour of the code that the model keeps as written:

- **The control block is unreachable.** `readControlBlock` and
  `writeControlBlock` go through `read`/`write`, whose start check rejects
  every address below `_bottomAddress`. So they never move a byte
  (`ControlBlockUnreachable`).
- **The allocator test wraps.** `allocateMemory` compares the wrapped
  `uint32_t` sum with `_topAddress`, using a strict `<`. A request close to
  2^32 is granted and moves the cursor back
  (`WrappingRequestMovesCursorBack`). The disjointness and monotonicity
  lemmas therefore assume requests that do not wrap.
- **Push does not check the start address.** `pushElement`/`push` write at
  `_startAddress + head * size` even when the start address is 0, because
  the ring's allocation failed. When that product reaches the user area, the
  write lands there. The pops, peeks, `clearArray` and `setPointers` do check
  the start address.
- **A failed allocation still sets the ring end.** The ring constructor
  reads `_ringEndAddress` from the allocator's cursor even when its
  allocation was refused. `initialize` then looks for the record 12 bytes
  before that cursor.
- **Recovered indices are not range-checked.** `initialize` takes any record
  whose check word matches. The ring is only `Placed()` when both indices
  are below the slot count.
- **The preset in `getPointers`.** It sets tail 99 and head 100 before the
  read. A refused read leaves those values, which `StoredPointers` models.

Two properties one might expect of the library do not hold of its code,
and the model does not assume them:

- `read`/`write` do not reach the control block. The accepted range starts
  at `_bottomAddress`.
- The allocator cursor does not only increase. The wrapped test can move it
  back.

## Model

| member | source | states |
|---|---|---|
| Word.Add32 | src/FramI2C.cpp:255 | a `uint32_t` sum is the exact sum below 2^32 and the sum less 2^32 above it |
| Word.Sub32 | src/FramI2C.cpp:440 | a `uint32_t` difference is exact when no borrow occurs and wraps by 2^32 otherwise |
| Word.Mul32 | src/FramI2C.cpp:305 | a `uint32_t` product that fits is exact |
| Word.ToInt32 | src/FramI2C.cpp:374 | the `(int)` cast yields the signed 32-bit value congruent to its argument mod 2^32 |
| Word.Zeros | src/FramI2C.cpp:274-279 | the zero-filled buffer has the requested length and only zero bytes |
| FramTypes.PartIndex | src/FramI2C.h:33-45 | every part's enumerator lies below `numberOfPartNumbers` |
| FramTypes.PartFromIndex | src/FramI2C.h:33-45 | a part exists for exactly the enumerators below `numberOfPartNumbers` |
| FramTypes.PartIndexBijective | src/FramI2C.h:33-45 | parts and enumerators 0..6 correspond one to one |
| FramTypes.TopAddressForPartNumber | src/FramI2C.cpp:30-36 | every part's top address is a multiple of 8 KiB less one, between 0x1FFF and 0xFFFF, so it fits the 16-bit bus address |
| FramTypes.ResultCode | src/FramI2C.h:50-62 | only `framOK` has code 0, and the codes are 0..8 and 99 |
| FramTypes.ResultCodeInjective | src/FramI2C.h:50-62 | distinct results have distinct codes |
| Allocation.Allocate | src/FramI2C.cpp:252-267 | a request is granted iff the wrapped cursor-plus-size is below the top; a granted one returns the old cursor and advances it by the wrapped size; a refused one returns 0 with `framBadFinishAddress` and leaves the cursor alone |
| Allocation.AllocateAll | src/FramI2C.cpp:252-267 | a sequence of requests yields one step per request, and after each the cursor is below the top |
| Allocation.FinalCursor | src/FramI2C.cpp:255-258 | after any sequence of requests the cursor stays below the top address |
| Allocation.GrantedStep | src/FramI2C.cpp:255-260 | for a request that cannot wrap: granted iff cursor + size < top; the cursor never decreases; a granted request advances it by exactly the size |
| Allocation.AllocationsDisjoint | src/FramI2C.cpp:252-267 | in a sequence of non-wrapping requests, two granted ranges never overlap, lie at or after the starting cursor, and end at or before the final cursor |
| Allocation.GrantedLater | src/FramI2C.cpp:252-267 | every granted range of a non-wrapping sequence lies between the starting and the final cursor |
| Allocation.CursorMonotone | src/FramI2C.cpp:255-258 | over non-wrapping requests the cursor never moves back |
| Allocation.WrappingRequestMovesCursorBack | src/FramI2C.cpp:255-258 | a request of 2^32 - 128 from cursor 128 is granted and moves the cursor to 0, after which address 0 is handed out |
| Trailer.EncodeU32 | src/FramI2C.h:146-151 | a `uint32_t` field occupies 4 bytes |
| Trailer.DecodeEncodeU32 | src/FramI2C.h:146-151 | decoding a stored field gives the field back |
| Trailer.DecodeU32 | src/FramI2C.cpp:682 | every 4-byte pattern read back is the image of the field value it decodes to, so decoding is exact |
| Trailer.EncodePointers | src/FramI2C.h:146-151 | the record occupies 12 bytes: check word, then tail, then head |
| Trailer.DecodeEncodePointers | src/FramI2C.cpp:671-682 | a record read back after being written is the record written |
| Trailer.DecodePointers | src/FramI2C.cpp:671-682 | every 12-byte pattern decodes to the record whose image it is |
| Trailer.PointerCheck | src/FramI2C.cpp:669 | the check word is `_pointersAddress + tail + head` when that sum fits in 32 bits |
| Trailer.MakePointers | src/FramI2C.cpp:664-670 | the record `setPointers` builds carries the given indices and a matching check word |
| Trailer.Recover | src/FramI2C.cpp:446-458 | `initialize` adopts a record's indices iff its check word matches them, and otherwise starts from (0, 0) |
| Trailer.RecoverStored | src/FramI2C.cpp:446-458 | indices written by `setPointers` and read back are adopted unchanged |
| Trailer.CorruptedRecordRejected | src/FramI2C.cpp:446-458 | a record whose indices changed while its check word did not is rejected, unless the change keeps tail + head mod 2^32 |
| Transfer.TransferCheck | src/FramI2C.cpp:174-185 | OK iff start is in [bottom, top], 0 < length <= 128 and the last byte is at or below top; the errors come in the code's order: `framBadStartAddress` exactly when the start is out of range, `framBadNumberOfBytes` exactly when the start is in range and the length is 0 or above 128, and `framBadFinishAddress` otherwise |
| Transfer.WriteEffect | src/FramI2C.cpp:206-249 | an accepted write puts the first `numberOfBytes` bytes of the buffer at the start address and keeps every other byte; a refused one changes nothing |
| Transfer.ReadInto | src/FramI2C.cpp:164-203 | an accepted read fills the first `numberOfBytes` bytes of the buffer from the chip and keeps the rest; a refused one changes nothing |
| Transfer.WriteThenRead | src/FramI2C.cpp:164-249 | reading back an accepted write returns the data written |
| Transfer.ChunkPlanFits | src/FramI2C.cpp:186-202 | the transfer loops issue no bus transfer exactly when there is nothing to move, and each one moves 1 to 30 bytes |
| Transfer.ChunkPlanLength | src/FramI2C.cpp:191-201 | a transfer of `n` bytes makes n/30 full bus transfers plus one more when n % 30 > 0 |
| Transfer.ChunkPlanAt | src/FramI2C.cpp:191-201 | bus transfer `k` moves chip address `start + 30k` and buffer offset `30k`: 30 bytes, or the remainder for the last one |
| Transfer.ChunkPlanTotal | src/FramI2C.cpp:191-201 | the bus transfers together move exactly `n` bytes |
| FramDevice.FramI2C.constructor | src/FramI2C.cpp:27-44 | the device has the part's top address, bottom address 128, and its cursor at the bottom |
| FramDevice.FramI2C.ReadMemory | src/FramI2C.cpp:51-71 | a bus read copies the chip's bytes into the buffer at the given offset and keeps the rest of the buffer; it reports the transfer it made (address, offset, length) |
| FramDevice.FramI2C.WriteMemory | src/FramI2C.cpp:74-91 | a bus write copies the bytes from the given buffer offset to the chip at the given address and keeps the rest of the chip; it reports the transfer it made |
| FramDevice.FramI2C.Read | src/FramI2C.cpp:164-203 | returns the bounds check's result, leaves the buffer as `ReadInto` describes, and issues exactly the chunk plan when accepted |
| FramDevice.FramI2C.ReadChunks | src/FramI2C.cpp:186-202 | the chunking loop copies all requested bytes in order through the chunk plan |
| FramDevice.FramI2C.ReadBlock | src/FramI2C.cpp:191-197 | one full 30-byte bus read extends the copied prefix and the issued transfers by one block |
| FramDevice.FramI2C.ReadStep | src/FramI2C.cpp:191-201 | one bus read of the loop extends the copied prefix by its length and reports that transfer |
| FramDevice.FramI2C.Write | src/FramI2C.cpp:206-249 | returns the bounds check's result, leaves the chip as `WriteEffect` describes, and issues exactly the chunk plan when accepted |
| FramDevice.FramI2C.WriteChunks | src/FramI2C.cpp:231-246 | the chunking loop writes all requested bytes in order through the chunk plan |
| FramDevice.FramI2C.WriteBlock | src/FramI2C.cpp:236-242 | one full 30-byte bus write extends the written prefix and the issued transfers by one block |
| FramDevice.FramI2C.WriteStep | src/FramI2C.cpp:236-246 | one bus write of the loop extends the written prefix by its length and reports that transfer |
| FramDevice.FramI2C.AllocateMemory | src/FramI2C.cpp:252-267 | the returned base, result and new cursor are `Allocate`'s step, and the cursor stays below the top |
| FramDevice.FramI2C.Format | src/FramI2C.cpp:270-289 | format always succeeds, zeroes every byte from 128 to the top, and keeps the control block |
| FramDevice.FramI2C.WriteControlBlock | src/FramI2C.cpp:152-155 | the chip never changes |
| FramDevice.FramI2C.ReadControlBlock | src/FramI2C.cpp:158-161 | the buffer never changes |
| FramDevice.FormatStep | src/FramI2C.cpp:283-287 | each 128-byte write of the format loop is accepted and extends the zeroed range by one block |
| FramDevice.ControlBlockUnreachable | src/FramI2C.cpp:152-161 | a 128-byte transfer at the base address fails with `framBadStartAddress` on every part |
| FramArray.ElementAddress | src/FramI2C.cpp:334 | the element address is `start + index * size` when that fits in 32 bits |
| FramArray.ElementCheck | src/FramI2C.cpp:315-336 | the start-address error comes first and exactly when the start is 0; the index error comes exactly when the index is out of range; OK only for an in-range index |
| FramArray.ElementsDisjoint | src/FramI2C.cpp:305 | the elements of an array that fits below 2^32 lie back to back in their allocation, without overlap |
| FramArray.PlacedElementsAccessible | src/FramI2C.cpp:315-336 | on an array placed in the user area, an element access succeeds iff its index is in range |
| FramArray.ElementWriteIsolated | src/FramI2C.cpp:340-361 | writing one element leaves every other element's bytes unchanged |
| FramArray.FramI2CArray.Create | src/FramI2C.cpp:292-312 | an element size below 128 allocates `count * size` (a `uint32_t` product); a larger one gives `framArrayElementTooBig`, start 0, and no allocation |
| FramArray.FramI2CArray.ReadElement | src/FramI2C.cpp:315-336 | returns `ElementCheck`'s result; on success the buffer holds the element's bytes, and otherwise it is unchanged |
| FramArray.FramI2CArray.WriteElement | src/FramI2C.cpp:340-361 | returns `ElementCheck`'s result; on success the chip is `WriteEffect` at the element's address, and otherwise it is unchanged |
| RingIndex.CRem | src/FramI2C.cpp:374 | C's `%` is a remainder: the dividend less it is a multiple of the divisor, it is smaller in magnitude than the divisor, and it takes the dividend's sign (non-negative for a non-negative dividend, non-positive for a negative one) |
| RingIndex.MyModulo | src/FramI2C.cpp:371-383 | for a slot count below 2^31, `myModulo` is the mathematical remainder of the signed value |
| RingIndex.PositiveDivisor | src/FramI2C.cpp:374-382 | for a positive divisor, C's remainder is the Euclidean one or that less the divisor, which the `x + b` branch corrects |
| RingIndex.Next | src/FramI2C.cpp:473-474 | the incremented index stays in range and is (i + 1) mod n |
| RingIndex.Prev | src/FramI2C.cpp:505-507 | the decremented index stays in range, is (i - 1) mod n, and wraps from 0 to n - 1 |
| RingIndex.Occupancy | src/FramI2C.cpp:614-637 | a ring of n slots holds fewer than n elements |
| RingIndex.PushIndices | src/FramI2C.cpp:519-536 | a push always advances the head, and advances the tail exactly when the ring was full |
| RingIndex.IsFull | src/FramI2C.cpp:626-637 | a full ring's tail names a slot, and for a head in range the ring is full iff (head + 1) mod n is the tail |
| RingIndex.EmptyIffNoElements | src/FramI2C.cpp:614-624 | `isEmpty` holds iff the ring holds no element |
| RingIndex.OccupancyValue | src/FramI2C.cpp:614-637 | the element count is head - tail, or head - tail + n once the head has wrapped |
| RingIndex.FullIffCapacityReached | src/FramI2C.cpp:626-637 | `isFull` holds iff the ring holds n - 1 elements |
| RingIndex.PushOccupancy | src/FramI2C.cpp:519-536 | a push keeps the indices in range and adds one element, up to n - 1 |
| RingIndex.PopOccupancy | src/FramI2C.cpp:468-515 | either pop of a non-empty ring removes exactly one element |
| RingIndex.PushWindow | src/FramI2C.cpp:521-526 | a push into a ring that is not full appends the head slot to the live slots, and that slot was not live |
| RingIndex.PushFullWindow | src/FramI2C.cpp:527-534 | a push into a full ring appends the head slot and drops the oldest live slot |
| RingIndex.PopFirstWindow | src/FramI2C.cpp:468-482 | the oldest live slot is the tail, and `popFirstElement` drops exactly it |
| RingIndex.PopLastWindow | src/FramI2C.cpp:501-515 | the newest live slot is the one before the head, and `popLastElement` drops exactly it |
| RingLayout.PointersWrite | src/FramI2C.cpp:662-673 | `setPointers` keeps the chip's size, and changes nothing when the start is 0 or the record address is outside the user area |
| RingLayout.PointersWriteEffect | src/FramI2C.cpp:662-673 | on a ring with a start whose record lies in the user area, `setPointers` leaves 12 bytes that decode to the record of (tail, head) and keeps every other byte |
| RingLayout.StoredPointers | src/FramI2C.cpp:675-685 | `getPointers` leaves the record whose image is the stored 12 bytes when the read is accepted, and the previous record with tail 99 and head 100 when it is refused |
| RingLayout.ReadPointersRecord | src/FramI2C.cpp:675-685 | `getPointers` yields the stored record when it can be read, and the 99/100 preset otherwise |
| RingLayout.SlotTransfer | src/FramI2C.cpp:472 | every slot of a laid-out ring is accepted by the bounds check, at `start + k * size` |
| RingLayout.PersistKeepsSlots | src/FramI2C.cpp:662-673 | `setPointers` stores the record of the indices and changes no slot |
| RingLayout.PushContents | src/FramI2C.cpp:519-536 | on a placed ring, writing the head slot, moving the indices and storing the record turn the contents into `FifoPush` of the old ones |
| RingLayout.PopFirstReadsOldest | src/FramI2C.cpp:468-482 | the bytes read at the tail of a non-empty ring are its oldest element |
| RingLayout.PopFirstLeavesRest | src/FramI2C.cpp:468-482 | after the tail advances and the record is stored, the contents are the old ones without the oldest element |
| RingLayout.PopLastReadsNewest | src/FramI2C.cpp:501-515 | the bytes read before the head of a non-empty ring are its newest element |
| RingLayout.PopLastLeavesRest | src/FramI2C.cpp:501-515 | after the head moves back and the record is stored, the contents are the old ones without the newest element |
| RingLayout.ClearEffect | src/FramI2C.cpp:601-606 | the zero-fill loop keeps the chip's size and never changes the control block |
| RingLayout.ClearZeroes | src/FramI2C.cpp:601-606 | after the zero-fill loop has reached slot i, slots below i hold zeros and the others are unchanged |
| RingLayout.ClearedSlotsZero | src/FramI2C.cpp:588-611 | after `clearArray` every physical slot holds zeros |
| RingLayout.ClearedKeepsPrefix | src/FramI2C.cpp:588-611 | `clearArray` keeps every byte before the ring |
| RingLayout.ClearedKeepsSuffix | src/FramI2C.cpp:588-611 | `clearArray` keeps every byte after the ring's record |
| RingLayout.RecoverAfterPersist | src/FramI2C.cpp:431-461 | a record stored by `setPointers` is read back by `getPointers` and adopted by `initialize`, whatever `_pointers` held before |
| RingBuffer.RingBytes | src/FramI2C.cpp:395 | the ring's allocation size is slots times element size plus 12, reduced mod 2^32, and exact when it fits |
| RingBuffer.GrantedRingLaid | src/FramI2C.cpp:385-396 | a granted ring allocation that does not wrap places the slots in the user area, with the record 12 bytes before the allocator's new cursor, where `initialize` looks for it |
| RingBuffer.RingFramArray.Create | src/FramI2C.cpp:385-429 | an element size below 128 bumps the slot count by one and allocates slots plus 12 bytes, with the ring end at the cursor afterwards; a larger one gives `framArrayElementTooBig` and start 0 |
| RingBuffer.RingFramArray.SetPointers | src/FramI2C.cpp:662-673 | unless the start is 0, the record of the current indices is written at the record address, so a laid-out ring is persisted |
| RingBuffer.RingFramArray.GetPointers | src/FramI2C.cpp:675-685 | `_pointers` becomes the stored record, or the 99/100 preset when the read is refused |
| RingBuffer.RingFramArray.Initialize | src/FramI2C.cpp:431-461 | the record address is the ring end less 12; the indices are those a consistent stored record holds, else (0, 0); they are then stored again, and `_pointers` is their record (or what `getPointers` left, when the start is 0) |
| RingBuffer.RingFramArray.PushElement | src/FramI2C.cpp:519-536 | writes the head slot and moves the indices as `PushIndices`; on a placed ring the contents become `FifoPush` of the old ones and stay placed and persisted |
| RingBuffer.RingFramArray.WriteHead | src/FramI2C.cpp:521-535 | the write into the head slot, the index update of both branches, and the stored record |
| RingBuffer.RingFramArray.Push | src/FramI2C.cpp:540-557 | the same effect as `PushElement` |
| RingBuffer.RingFramArray.PopFirstElement | src/FramI2C.cpp:468-482 | succeeds iff the ring is non-empty and has a start address; on a placed ring, success returns the oldest element and leaves the rest, and failure changes nothing |
| RingBuffer.RingFramArray.Pop | src/FramI2C.cpp:485-499 | the same effect as `PopFirstElement` |
| RingBuffer.RingFramArray.PopLastElement | src/FramI2C.cpp:501-515 | succeeds iff the ring is non-empty and has a start address; on a placed ring, success returns the newest element and leaves the rest, and failure changes nothing |
| RingBuffer.RingFramArray.PeekFirstElement | src/FramI2C.cpp:559-570 | succeeds under the same condition as a pop; on a placed ring it returns the oldest element and changes nothing else |
| RingBuffer.RingFramArray.PeekLastElement | src/FramI2C.cpp:572-585 | succeeds under the same condition as a pop; on a placed ring it returns the newest element and changes nothing else |
| RingBuffer.RingFramArray.PeekSlot | src/FramI2C.cpp:559-585 | the read both peeks make: when the ring is non-empty and has a start address, one slot is read into the buffer |
| RingBuffer.RingFramArray.ClearArray | src/FramI2C.cpp:588-612 | with start 0 nothing changes; otherwise both indices become 0 and are stored, and a laid-out ring ends empty with every slot zero and no byte outside it changed |
| RingBuffer.RingFramArray.ZeroFill | src/FramI2C.cpp:593-606 | the loop writes a zero element into every physical slot, one after another |
| RingBuffer.RingFramArray.GetIndices | src/FramI2C.cpp:640-644 | returns tail and head; on a placed ring both are in range and their distance is the number of live elements |
| RingBuffer.RingFramArray.SetIndices | src/FramI2C.cpp:647-660 | adopts and stores the given indices iff both are below the slot count, and otherwise changes nothing |
| Scenarios.OpenRing | src/FramI2C.cpp:385-461 | a ring of four one-byte elements on a new default-part device has five slots at 128 and its record at 133, and adopts the stored indices |
| Scenarios.PushByteAppends | src/FramI2C.cpp:540-557 | a push into a ring with a free place appends the element |
| Scenarios.PushByteDrops | src/FramI2C.cpp:540-557 | a push into a full ring drops the oldest element and appends the new one |
| Scenarios.Clear | src/FramI2C.cpp:588-612 | a laid-out ring is empty after `clearArray` |
| Scenarios.PushFivePopOne | src/FramI2C.cpp:485-557 | pushing 1..5 into a cleared ring of capacity four evicts 1, and `pop` then returns 2 and leaves 3, 4, 5 |
| Scenarios.RingSurvivesRestart | src/FramI2C.cpp:431-461 | a new device and ring over the same chip hold, after `initialize`, the elements the first ring left |
| Scenarios.ArrayElementsIndependent | src/FramI2C.cpp:340-361 | an element written and then followed by a write to its neighbour reads back as first written |

## Left out

- The I2C bus itself (`Wire`, `WITH_LOCK`, the two-byte address phase, `begin()`, `Wire.isEnabled()`) is not modelled. The bus transfers are plain byte copies, and a bus error is not modelled.
- The `uint16_t` bus address in `_readMemory`/`_writeMemory`. Every part's top address is at most 0xFFFF, and every accepted transfer lies below it, so the truncation never changes an address.
- Trivial getters (`getPartNumber`, `getMaxBufferSize`, `getBottomAddress`, `getTopAddress`, `getNextFreeByte`, `getControlBlockSize`, `getStartAddress`) are not separate members. The model reads the corresponding fields and constants directly.
- `_numberOfBuffers` is computed by the constructor but never used, so it is not modelled.
- `framI2CAddress` (0x50) belongs to the bus and is left out.
- `FramI2C.constructor`: the chip is an argument whose length must be the part's top address plus one. The source has no such argument; the requirement is what ties the model's memory to the part.
- The `addr_t` struct cast is modelled as a 12-byte little-endian encoding with fields in declaration order (`EncodePointers`/`DecodePointers`). This is the layout on the library's ARM targets. Other byte orders or padding are not modelled.
- Power loss in the middle of a transfer is not modelled. Each `read`/`write` completes, so torn elements or records do not arise in the model.
- RingBuffer.RingFramArray: a ring of 0-byte elements is accepted by the constructor but is never `Laid()`, so the contents contracts say nothing about it. Its slots all share one address and its reads and writes of 0 bytes are refused.
- RingBuffer.RingFramArray: every ring operation requires a slot count `n` with 0 < n < 2^31 (`SlotCount`). `myModulo` divides by zero at n = 0, and its signed cast makes the divisor negative from 2^31 on. A requested count of 0xFFFFFFFF wraps to 0 slots.
- RingBuffer.RingFramArray.Create: the constructor leaves `_tailAddress`, `_headAddress`, `_pointersAddress` and `_pointers` unset, as the C++ does. The model's fields hold arbitrary values until `initialize`.
- RingIndex.MyModulo: the contract describes only divisors below 2^31. It excludes b = 0 and (0x80000000, 0xFFFFFFFF), for which the C code is undefined.
- Word.Mul32: the contract states only the product that fits in 32 bits. Above that the body reduces it mod 2^32.
- FramArray.ElementAddress: the contract states only addresses that fit in 32 bits. Above that the body wraps.
- Trailer.PointerCheck: the contract states only sums that fit in 32 bits. Above that the body wraps, and `CorruptedRecordRejected` covers the wrapped case.
- Allocation.AllocationsDisjoint: assumes that no request wraps the 32-bit sum. The code grants a wrapping request and moves the cursor back, as `WrappingRequestMovesCursorBack` shows.
- Allocation.GrantedLater: assumes non-wrapping requests, for the same reason.
- Allocation.CursorMonotone: assumes non-wrapping requests, for the same reason.
- Allocation.GrantedStep: assumes a non-wrapping request, for the same reason.
- RingBuffer.GrantedRingLaid: assumes that the ring's byte count does not wrap the allocator's sum.
- FramArray.ElementWriteIsolated: stated for an array that fits inside the chip.
- FramArray.PlacedElementsAccessible: stated for an array that fits inside the chip's user area.
