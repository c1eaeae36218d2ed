/** `Ring_FramArray`: a circular queue of elements on the storage device
    that keeps its tail and head indices in a checksummed record after the
    last slot, so that they survive a restart. The queue has one physical
    slot more than requested, so that a full ring and an empty one differ. */
module RingBuffer {
  import opened Word
  import opened FramTypes
  import opened Transfer
  import opened Trailer
  import opened RingIndex
  import opened RingLayout
  import Allocation
  import opened FramDevice
  import FramArray

  /** The bytes the constructor asks the allocator for:
      `n * size + sizeof(addr_t)`, on `uint32_t`. */
  function RingBytes(n: u32, sizeOfElement: byte): (r: u32)
    ensures n * sizeOfElement + PointersSize < MOD32 ==> r == n * sizeOfElement + PointersSize
    ensures r == (n * sizeOfElement + PointersSize) % MOD32
  {
    var product := n * sizeOfElement;
    ModAdd(product, PointersSize, MOD32);
    Add32(Mul32(n, sizeOfElement), PointersSize)
  }

  /** A granted ring allocation that does not wrap, from a cursor in the
      user area, places the slots and the pointer record inside the chip:
      the record lies at the end of the allocation less 12 bytes, which is
      where `initialize` looks for it. */
  lemma {:induction false} GrantedRingLaid(cursor: u32, top: nat, n: u32, sizeOfElement: byte)
    requires BottomAddress <= cursor < top <= 0xFFFF
    requires SlotCount(n) && 0 < sizeOfElement < MaxBufferSize
    requires n * sizeOfElement + PointersSize <= MOD32 - 0x1_0000
    ensures var s := Allocation.Allocate(cursor, top, RingBytes(n, sizeOfElement));
      s.result == FramOK ==> Geometry(top + 1, s.base, sizeOfElement, n, Sub32(s.cursor, PointersSize))
  {
    OffsetIsProduct(sizeOfElement, n);
  }

  class RingFramArray {
    /** `_f` */
    const f: FramI2C
    /** `_numberOfElements`: the physical slot count, one more than
        requested when the element size was accepted */
    const numberOfElements: u32
    /** `_sizeOfElement` */
    const sizeOfElement: byte
    /** `_startAddress`; 0 when the element size was refused or the
        allocation failed */
    const startAddress: u32
    /** `_ringEndAddress`: the allocator's cursor after the allocation */
    var ringEndAddress: u32
    /** `_pointersAddress`: where the pointer record lives */
    var pointersAddress: u32
    /** `_tailAddress`: the slot of the oldest element */
    var tailAddress: u32
    /** `_headAddress`: the slot the next element goes to */
    var headAddress: u32
    /** `_pointers`: the record last read or written */
    var pointers: Pointers

    /** The state the index arithmetic needs: a slot count that `myModulo`
        can reduce by. */
    ghost predicate Valid()
      reads this, f
    {
      f.Valid() && SlotCount(numberOfElements)
    }

    /** The ring lies inside the chip's user area with its record after the
        last slot. */
    ghost predicate Laid()
      reads this, f
    {
      Valid() && Geometry(f.mem.Length, startAddress, sizeOfElement, numberOfElements, pointersAddress)
    }

    /** Laid out, with both indices naming a slot. */
    ghost predicate Placed()
      reads this, f
    {
      Laid() && InRange(tailAddress, headAddress, numberOfElements)
    }

    /** The chip holds the record of the current indices. */
    ghost predicate Persisted()
      reads this, f, f.mem
    {
      Laid() && f.mem[pointersAddress..pointersAddress + PointersSize] == EncodePointers(MakePointers(pointersAddress, tailAddress, headAddress))
    }

    /** The live elements, oldest first. */
    ghost function Contents(): seq<seq<byte>>
      requires Placed()
      reads this, f, f.mem
    {
      RingLayout.Contents(f.mem[..], startAddress, sizeOfElement, numberOfElements, tailAddress, headAddress)
    }

    constructor Place(f: FramI2C, numberOfElements: u32, sizeOfElement: byte, startAddress: u32)
      ensures this.f == f && this.numberOfElements == numberOfElements
      ensures this.sizeOfElement == sizeOfElement && this.startAddress == startAddress
    {
      this.f := f;
      this.numberOfElements := numberOfElements;
      this.sizeOfElement := sizeOfElement;
      this.startAddress := startAddress;
    }

    /** The constructor `Ring_FramArray(f, numberOfElements, sizeOfElement,
        result)`. With an accepted element size the slot count is bumped by
        one before the allocation, and `_ringEndAddress` is the cursor
        afterwards whether or not the allocation was granted. The indices,
        the record address and the record are left unset. */
    static method Create(f: FramI2C, numberOfElements: u32, sizeOfElement: byte) returns (r: RingFramArray, result: FramResult)
      requires f.Valid()
      modifies f`nextFreeByte
      ensures f.Valid() && fresh(r)
      ensures r.f == f && r.sizeOfElement == sizeOfElement
      ensures sizeOfElement < MaxBufferSize ==>
        && r.numberOfElements == Add32(numberOfElements, 1)
        && Allocation.Step(r.startAddress, result, f.nextFreeByte)
           == Allocation.Allocate(old(f.nextFreeByte), f.topAddress, RingBytes(r.numberOfElements, sizeOfElement))
        && r.ringEndAddress == f.nextFreeByte
      ensures sizeOfElement >= MaxBufferSize ==>
        && r.numberOfElements == numberOfElements
        && result == FramArrayElementTooBig && r.startAddress == 0
        && f.nextFreeByte == old(f.nextFreeByte)
    {
      if sizeOfElement < MaxBufferSize {
        var n := Add32(numberOfElements, 1);
        var startAddress;
        startAddress, result := f.AllocateMemory(RingBytes(n, sizeOfElement));
        r := new RingFramArray.Place(f, n, sizeOfElement, startAddress);
        r.ringEndAddress := f.nextFreeByte;
      } else {
        result := FramArrayElementTooBig;
        r := new RingFramArray.Place(f, numberOfElements, sizeOfElement, 0);
      }
    }

    /** `setPointers`: stores the record of the current indices, unless the
        start address is 0. */
    method SetPointers()
      requires Valid()
      modifies this`pointers, f.mem
      ensures f.mem[..] == PointersWrite(old(f.mem[..]), startAddress, pointersAddress, tailAddress, headAddress)
      ensures pointers == if startAddress == 0 then old(pointers) else MakePointers(pointersAddress, tailAddress, headAddress)
      ensures Laid() ==> Persisted()
    {
      if !(startAddress == 0) {
        pointers := pointers.(head := headAddress, tail := tailAddress);
        pointers := pointers.(pointerCheck := PointerCheck(pointersAddress, pointers.tail, pointers.head));
        var result;
        ghost var chunks;
        result, chunks := f.Write(pointersAddress, PointersSize, EncodePointers(pointers));
        if Laid() {
          PersistKeepsSlots(old(f.mem[..]), startAddress, sizeOfElement, numberOfElements, pointersAddress, tailAddress, headAddress, []);
        }
      }
    }

    /** `getPointers`: presets tail 99 and head 100, then reads the stored
        record over `_pointers`; a failed read leaves the preset. */
    method GetPointers()
      requires Valid()
      modifies this`pointers
      ensures pointers == StoredPointers(f.mem[..], pointersAddress, old(pointers))
    {
      pointers := pointers.(tail := 99, head := 100);
      var raw := EncodePointers(pointers);
      var buffer := new byte[PointersSize](i requires 0 <= i < PointersSize => raw[i]);
      assert buffer[..] == raw;
      var checkresult;
      ghost var chunks;
      checkresult, chunks := f.Read(pointersAddress, PointersSize, buffer);
      ReadPointersRecord(f.mem[..], pointersAddress, old(pointers), raw);
      pointers := DecodePointers(buffer[..]);
    }

    /** `initialize`: the record lies 12 bytes before the ring's end; its
        indices are adopted when its check word matches them and are reset
        to (0, 0) otherwise; the record is then stored again. */
    method Initialize()
      requires Valid()
      modifies this`pointersAddress, this`pointers, this`tailAddress, this`headAddress, f.mem
      ensures Valid() && pointersAddress == Sub32(ringEndAddress, PointersSize)
      ensures (tailAddress, headAddress) == Recover(pointersAddress, StoredPointers(old(f.mem[..]), pointersAddress, old(pointers)))
      ensures f.mem[..] == PointersWrite(old(f.mem[..]), startAddress, pointersAddress, tailAddress, headAddress)
      ensures pointers == if startAddress == 0 then StoredPointers(old(f.mem[..]), pointersAddress, old(pointers))
                          else MakePointers(pointersAddress, tailAddress, headAddress)
      ensures Laid() ==> Persisted()
    {
      pointersAddress := Sub32(ringEndAddress, PointersSize);
      GetPointers();
      var check := PointerCheck(pointersAddress, pointers.tail, pointers.head);
      if check == pointers.pointerCheck {
        tailAddress := pointers.tail;
        headAddress := pointers.head;
      } else {
        tailAddress := 0;
        headAddress := 0;
      }
      SetPointers();
    }

    /** `pushElement`: writes the element into the head slot (without
        checking the start address), advances the head, and the tail too
        when the ring was full; then stores the record. On a placed ring
        this appends to the contents, dropping the oldest element when the
        ring held `n - 1`. */
    method PushElement(buffer: seq<byte>)
      requires Valid() && sizeOfElement <= |buffer|
      modifies this`tailAddress, this`headAddress, this`pointers, f.mem
      ensures (tailAddress, headAddress) == PushIndices(old(tailAddress), old(headAddress), numberOfElements)
      ensures f.mem[..] == PointersWrite(
        WriteEffect(old(f.mem[..]), FramArray.ElementAddress(startAddress, old(headAddress), sizeOfElement), sizeOfElement, buffer),
        startAddress, pointersAddress, tailAddress, headAddress)
      ensures pointers == if startAddress == 0 then old(pointers) else MakePointers(pointersAddress, tailAddress, headAddress)
      ensures old(Placed()) ==>
        && Placed() && Persisted()
        && Contents() == FifoPush(old(Contents()), buffer[..sizeOfElement], numberOfElements - 1)
    {
      ghost var m0 := f.mem[..];
      ghost var placed := Placed();
      ghost var t0, h0 := tailAddress, headAddress;
      WriteHead(buffer);
      if placed {
        PushContents(m0, startAddress, sizeOfElement, numberOfElements, pointersAddress, t0, h0, buffer);
      }
    }

    /** The steps of `pushElement`: the write into the head slot, the index
        update and `setPointers`. */
    method WriteHead(buffer: seq<byte>)
      requires Valid() && sizeOfElement <= |buffer|
      modifies this`tailAddress, this`headAddress, this`pointers, f.mem
      ensures (tailAddress, headAddress) == PushIndices(old(tailAddress), old(headAddress), numberOfElements)
      ensures f.mem[..] == PointersWrite(
        WriteEffect(old(f.mem[..]), FramArray.ElementAddress(startAddress, old(headAddress), sizeOfElement), sizeOfElement, buffer),
        startAddress, pointersAddress, tailAddress, headAddress)
      ensures pointers == if startAddress == 0 then old(pointers) else MakePointers(pointersAddress, tailAddress, headAddress)
    {
      var result;
      ghost var chunks;
      if !IsFull(tailAddress, headAddress, numberOfElements) {
        result, chunks := f.Write(FramArray.ElementAddress(startAddress, headAddress, sizeOfElement), sizeOfElement, buffer);
        headAddress := Next(headAddress, numberOfElements);
      } else {
        result, chunks := f.Write(FramArray.ElementAddress(startAddress, headAddress, sizeOfElement), sizeOfElement, buffer);
        headAddress := Next(headAddress, numberOfElements);
        tailAddress := Next(tailAddress, numberOfElements);
      }
      SetPointers();
    }

    /** `push`: the same as `pushElement`. */
    method Push(buffer: seq<byte>)
      requires Valid() && sizeOfElement <= |buffer|
      modifies this`tailAddress, this`headAddress, this`pointers, f.mem
      ensures (tailAddress, headAddress) == PushIndices(old(tailAddress), old(headAddress), numberOfElements)
      ensures f.mem[..] == PointersWrite(
        WriteEffect(old(f.mem[..]), FramArray.ElementAddress(startAddress, old(headAddress), sizeOfElement), sizeOfElement, buffer),
        startAddress, pointersAddress, tailAddress, headAddress)
      ensures pointers == if startAddress == 0 then old(pointers) else MakePointers(pointersAddress, tailAddress, headAddress)
      ensures old(Placed()) ==>
        && Placed() && Persisted()
        && Contents() == FifoPush(old(Contents()), buffer[..sizeOfElement], numberOfElements - 1)
    {
      PushElement(buffer);
    }

    /** `popFirstElement`: when the ring is not empty and has a start
        address, reads the tail slot into `buffer`, advances the tail and
        stores the record; otherwise changes nothing. On a placed ring this
        removes and returns the oldest element, and fails only when the
        ring is empty. */
    method PopFirstElement(buffer: array<byte>) returns (ok: bool)
      requires Valid() && buffer != f.mem && sizeOfElement <= buffer.Length
      modifies buffer, this`tailAddress, this`pointers, f.mem
      ensures ok == (!IsEmpty(old(tailAddress), headAddress) && startAddress != 0)
      ensures headAddress == old(headAddress)
      ensures ok ==>
        && tailAddress == Next(old(tailAddress), numberOfElements)
        && buffer[..] == ReadInto(old(buffer[..]), old(f.mem[..]),
                                  FramArray.ElementAddress(startAddress, old(tailAddress), sizeOfElement), sizeOfElement)
        && f.mem[..] == PointersWrite(old(f.mem[..]), startAddress, pointersAddress, tailAddress, headAddress)
        && pointers == MakePointers(pointersAddress, tailAddress, headAddress)
      ensures !ok ==>
        && tailAddress == old(tailAddress) && pointers == old(pointers)
        && buffer[..] == old(buffer[..]) && f.mem[..] == old(f.mem[..])
      ensures old(Placed()) ==> Placed() && (ok <==> old(Contents()) != [])
      ensures ok && old(Placed()) ==>
        && Persisted()
        && buffer[..sizeOfElement] == old(Contents())[0]
        && Contents() == old(Contents())[1..]
    {
      if !IsEmpty(tailAddress, headAddress) && !(startAddress == 0) {
        ghost var m0, b0 := f.mem[..], buffer[..];
        ghost var placed := Placed();
        ghost var t0 := tailAddress;
        var result;
        ghost var chunks;
        result, chunks := f.Read(FramArray.ElementAddress(startAddress, tailAddress, sizeOfElement), sizeOfElement, buffer);
        tailAddress := Next(tailAddress, numberOfElements);
        SetPointers();
        if placed {
          PopFirstReadsOldest(m0, startAddress, sizeOfElement, numberOfElements, pointersAddress, t0, headAddress, b0);
          PopFirstLeavesRest(m0, startAddress, sizeOfElement, numberOfElements, pointersAddress, t0, headAddress);
        }
        ok := true;
      } else {
        if Placed() {
          EmptyIffNoElements(tailAddress, headAddress, numberOfElements);
        }
        ok := false;
      }
    }

    /** `pop`: the same as `popFirstElement`. */
    method Pop(buffer: array<byte>) returns (ok: bool)
      requires Valid() && buffer != f.mem && sizeOfElement <= buffer.Length
      modifies buffer, this`tailAddress, this`pointers, f.mem
      ensures ok == (!IsEmpty(old(tailAddress), headAddress) && startAddress != 0)
      ensures headAddress == old(headAddress)
      ensures ok ==>
        && tailAddress == Next(old(tailAddress), numberOfElements)
        && buffer[..] == ReadInto(old(buffer[..]), old(f.mem[..]),
                                  FramArray.ElementAddress(startAddress, old(tailAddress), sizeOfElement), sizeOfElement)
        && f.mem[..] == PointersWrite(old(f.mem[..]), startAddress, pointersAddress, tailAddress, headAddress)
        && pointers == MakePointers(pointersAddress, tailAddress, headAddress)
      ensures !ok ==>
        && tailAddress == old(tailAddress) && pointers == old(pointers)
        && buffer[..] == old(buffer[..]) && f.mem[..] == old(f.mem[..])
      ensures old(Placed()) ==> Placed() && (ok <==> old(Contents()) != [])
      ensures ok && old(Placed()) ==>
        && Persisted()
        && buffer[..sizeOfElement] == old(Contents())[0]
        && Contents() == old(Contents())[1..]
    {
      ok := PopFirstElement(buffer);
    }

    /** `popLastElement`: when the ring is not empty and has a start
        address, reads the slot before the head into `buffer`, moves the
        head back and stores the record; otherwise changes nothing. On a
        placed ring this removes and returns the newest element. */
    method PopLastElement(buffer: array<byte>) returns (ok: bool)
      requires Valid() && buffer != f.mem && sizeOfElement <= buffer.Length
      modifies buffer, this`headAddress, this`pointers, f.mem
      ensures ok == (!IsEmpty(tailAddress, old(headAddress)) && startAddress != 0)
      ensures tailAddress == old(tailAddress)
      ensures ok ==>
        && headAddress == Prev(old(headAddress), numberOfElements)
        && buffer[..] == ReadInto(old(buffer[..]), old(f.mem[..]),
                                  FramArray.ElementAddress(startAddress, Prev(old(headAddress), numberOfElements), sizeOfElement), sizeOfElement)
        && f.mem[..] == PointersWrite(old(f.mem[..]), startAddress, pointersAddress, tailAddress, headAddress)
        && pointers == MakePointers(pointersAddress, tailAddress, headAddress)
      ensures !ok ==>
        && headAddress == old(headAddress) && pointers == old(pointers)
        && buffer[..] == old(buffer[..]) && f.mem[..] == old(f.mem[..])
      ensures old(Placed()) ==> Placed() && (ok <==> old(Contents()) != [])
      ensures ok && old(Placed()) ==>
        && Persisted()
        && buffer[..sizeOfElement] == old(Contents())[|old(Contents())| - 1]
        && Contents() == old(Contents())[..|old(Contents())| - 1]
    {
      if !IsEmpty(tailAddress, headAddress) && !(startAddress == 0) {
        ghost var m0, b0 := f.mem[..], buffer[..];
        ghost var placed := Placed();
        ghost var h0 := headAddress;
        var result;
        ghost var chunks;
        result, chunks := f.Read(FramArray.ElementAddress(startAddress, Prev(headAddress, numberOfElements), sizeOfElement),
                                 sizeOfElement, buffer);
        headAddress := Prev(headAddress, numberOfElements);
        SetPointers();
        if placed {
          PopLastReadsNewest(m0, startAddress, sizeOfElement, numberOfElements, pointersAddress, tailAddress, h0, b0);
          PopLastLeavesRest(m0, startAddress, sizeOfElement, numberOfElements, pointersAddress, tailAddress, h0);
        }
        ok := true;
      } else {
        if Placed() {
          EmptyIffNoElements(tailAddress, headAddress, numberOfElements);
        }
        ok := false;
      }
    }

    /** `peekFirstElement`: reads the tail slot without removing it. */
    method PeekFirstElement(buffer: array<byte>) returns (ok: bool)
      requires Valid() && buffer != f.mem && sizeOfElement <= buffer.Length
      modifies buffer
      ensures ok == (!IsEmpty(tailAddress, headAddress) && startAddress != 0)
      ensures ok ==> buffer[..] == ReadInto(old(buffer[..]), f.mem[..],
                                            FramArray.ElementAddress(startAddress, tailAddress, sizeOfElement), sizeOfElement)
      ensures !ok ==> buffer[..] == old(buffer[..])
      ensures Placed() ==> (ok <==> Contents() != [])
      ensures ok && Placed() ==> buffer[..sizeOfElement] == Contents()[0]
    {
      ghost var b0, m0 := buffer[..], f.mem[..];
      if Placed() {
        EmptyIffNoElements(tailAddress, headAddress, numberOfElements);
        if !IsEmpty(tailAddress, headAddress) {
          PopFirstReadsOldest(m0, startAddress, sizeOfElement, numberOfElements, pointersAddress, tailAddress, headAddress, b0);
        }
      }
      ok := PeekSlot(tailAddress, buffer);
      if Placed() {
        assert f.mem[..] == m0;
        assert Contents() == RingLayout.Contents(m0, startAddress, sizeOfElement, numberOfElements, tailAddress, headAddress);
      }
    }

    /** `peekLastElement`: reads the slot before the head without removing
        it. */
    method PeekLastElement(buffer: array<byte>) returns (ok: bool)
      requires Valid() && buffer != f.mem && sizeOfElement <= buffer.Length
      modifies buffer
      ensures ok == (!IsEmpty(tailAddress, headAddress) && startAddress != 0)
      ensures ok ==> buffer[..] == ReadInto(old(buffer[..]), f.mem[..],
                                            FramArray.ElementAddress(startAddress, Prev(headAddress, numberOfElements), sizeOfElement), sizeOfElement)
      ensures !ok ==> buffer[..] == old(buffer[..])
      ensures Placed() ==> (ok <==> Contents() != [])
      ensures ok && Placed() ==> buffer[..sizeOfElement] == Contents()[|Contents()| - 1]
    {
      ghost var b0, m0 := buffer[..], f.mem[..];
      if Placed() {
        EmptyIffNoElements(tailAddress, headAddress, numberOfElements);
        if !IsEmpty(tailAddress, headAddress) {
          PopLastReadsNewest(m0, startAddress, sizeOfElement, numberOfElements, pointersAddress, tailAddress, headAddress, b0);
        }
      }
      var last := Prev(headAddress, numberOfElements);
      ok := PeekSlot(last, buffer);
      if Placed() {
        assert f.mem[..] == m0;
        assert Contents() == RingLayout.Contents(m0, startAddress, sizeOfElement, numberOfElements, tailAddress, headAddress);
        if ok {
          assert buffer[..sizeOfElement]
              == ReadInto(b0, m0, FramArray.ElementAddress(startAddress, last, sizeOfElement), sizeOfElement)[..sizeOfElement];
        }
      }
    }

    /** The shape both peeks share: when the ring is not empty and has a
        start address, `slot` is read into `buffer` and the answer is
        true; otherwise nothing is read. */
    method PeekSlot(slot: u32, buffer: array<byte>) returns (ok: bool)
      requires Valid() && buffer != f.mem && sizeOfElement <= buffer.Length
      modifies buffer
      ensures ok == (!IsEmpty(tailAddress, headAddress) && startAddress != 0)
      ensures ok ==> buffer[..] == ReadInto(old(buffer[..]), f.mem[..],
                                            FramArray.ElementAddress(startAddress, slot, sizeOfElement), sizeOfElement)
      ensures !ok ==> buffer[..] == old(buffer[..])
    {
      if !IsEmpty(tailAddress, headAddress) && !(startAddress == 0) {
        var result;
        ghost var chunks;
        result, chunks := f.Read(FramArray.ElementAddress(startAddress, slot, sizeOfElement), sizeOfElement, buffer);
        ok := true;
      } else {
        ok := false;
      }
    }

    /** `clearArray`: unless the start address is 0, writes a zero element
        into every slot, resets both indices to 0 and stores the record. On
        a laid-out ring every slot is then zero, the ring is empty, and no
        byte before the ring changed. */
    method ClearArray()
      requires Valid()
      modifies this`tailAddress, this`headAddress, this`pointers, f.mem
      ensures startAddress == 0 ==>
        && tailAddress == old(tailAddress) && headAddress == old(headAddress)
        && pointers == old(pointers) && f.mem[..] == old(f.mem[..])
      ensures startAddress != 0 ==>
        && tailAddress == 0 && headAddress == 0
        && pointers == MakePointers(pointersAddress, 0, 0)
      ensures startAddress != 0 && !old(Laid()) ==>
        f.mem[..] == PointersWrite(ClearEffect(old(f.mem[..]), startAddress, sizeOfElement, numberOfElements),
                                   startAddress, pointersAddress, 0, 0)
      ensures old(Laid()) ==>
        && startAddress + Offset(sizeOfElement, numberOfElements) <= f.mem.Length
        && f.mem[..] == PointersWrite(ClearSlots(old(f.mem[..]), startAddress, sizeOfElement, numberOfElements),
                                      startAddress, pointersAddress, 0, 0)
        && Placed() && Persisted() && Contents() == []
        && (forall k :: 0 <= k < numberOfElements ==>
              SlotIn(f.mem[..], startAddress, sizeOfElement, numberOfElements, k) == Zeros(sizeOfElement))
        && f.mem[..startAddress] == old(f.mem[..startAddress])
        && f.mem[pointersAddress + PointersSize..] == old(f.mem[pointersAddress + PointersSize..])
    {
      if !(startAddress == 0) {
        ghost var m0 := f.mem[..];
        ZeroFill();
        tailAddress := 0;
        headAddress := 0;
        SetPointers();
        if old(Laid()) {
          ClearedSlotsZero(m0, startAddress, sizeOfElement, numberOfElements, pointersAddress);
          ClearedKeepsPrefix(m0, startAddress, sizeOfElement, numberOfElements, pointersAddress);
          ClearedKeepsSuffix(m0, startAddress, sizeOfElement, numberOfElements, pointersAddress);
          assert f.mem[pointersAddress + PointersSize..] == m0[pointersAddress + PointersSize..];
        }
      }
    }

    /** The zero-fill loop of `clearArray`: a zero element is written into
        each slot in turn. On a laid-out ring every write passes its check,
        and the loop overwrites the slots with zeros one after another. */
    method ZeroFill()
      requires Valid()
      modifies f.mem
      ensures !Laid() ==> f.mem[..] == ClearEffect(old(f.mem[..]), startAddress, sizeOfElement, numberOfElements)
      ensures Laid() ==>
        && startAddress + Offset(sizeOfElement, numberOfElements) <= f.mem.Length
        && f.mem[..] == ClearSlots(old(f.mem[..]), startAddress, sizeOfElement, numberOfElements)
    {
      ghost var m0 := f.mem[..];
      ghost var laid := Laid();
      var buffer := Zeros(sizeOfElement);
      var i: u32 := 0;
      while i < numberOfElements
        invariant i <= numberOfElements
        invariant Filled(m0, laid, i)
      {
        ZeroSlot(m0, laid, buffer, i);
        i := i + 1;
      }
    }

    /** The zero fill has covered the first `i` slots of the chip image `m0`:
        through the checked writes in general, and slot by slot on a
        laid-out ring. */
    ghost predicate Filled(m0: seq<byte>, laid: bool, i: u32)
      reads this, f, f.mem
    {
      && Valid() && |m0| == f.mem.Length
      && (!laid ==> f.mem[..] == ClearEffect(m0, startAddress, sizeOfElement, i))
      && (laid ==>
            && startAddress + Offset(sizeOfElement, i) <= f.mem.Length
            && f.mem[..] == ClearSlots(m0, startAddress, sizeOfElement, i))
    }

    /** One pass of the zero-fill loop: slot `i` is written with zeros,
        which extends the fill by one slot. */
    method ZeroSlot(ghost m0: seq<byte>, ghost laid: bool, buffer: seq<byte>, i: u32)
      requires Valid() && laid == Laid() && i < numberOfElements && buffer == Zeros(sizeOfElement)
      requires |m0| == f.mem.Length
      requires Filled(m0, laid, i)
      modifies f.mem
      ensures Filled(m0, laid, i + 1)
    {
      if laid {
        ZeroSlotStep(m0, f.mem[..], startAddress, sizeOfElement, numberOfElements, pointersAddress, i);
      }
      var result;
      ghost var chunks;
      result, chunks := f.Write(FramArray.ElementAddress(startAddress, i, sizeOfElement), sizeOfElement, buffer);
    }

    /** `getIndices`: the tail and head, as (startAdd, endAdd). On a placed
        ring their distance is the number of live elements. */
    method GetIndices() returns (startAdd: u32, endAdd: u32)
      requires Valid()
      ensures startAdd == tailAddress && endAdd == headAddress
      ensures Placed() ==> startAdd < numberOfElements && endAdd < numberOfElements
      ensures Placed() ==> Occupancy(startAdd, endAdd, numberOfElements) == |Contents()|
    {
      startAdd := tailAddress;
      endAdd := headAddress;
    }

    /** `setIndices`: adopts the given tail and head, and stores the record,
        only when both name a slot. */
    method SetIndices(tail: u32, head: u32) returns (ok: bool)
      requires Valid()
      modifies this`tailAddress, this`headAddress, this`pointers, f.mem
      ensures ok <==> tail < numberOfElements && head < numberOfElements
      ensures ok ==>
        && tailAddress == tail && headAddress == head
        && f.mem[..] == PointersWrite(old(f.mem[..]), startAddress, pointersAddress, tail, head)
        && pointers == if startAddress == 0 then old(pointers) else MakePointers(pointersAddress, tail, head)
      ensures !ok ==>
        && tailAddress == old(tailAddress) && headAddress == old(headAddress)
        && pointers == old(pointers) && f.mem[..] == old(f.mem[..])
      ensures ok && old(Laid()) ==> Placed() && Persisted()
    {
      if (tail >= 0 && tail < numberOfElements) && (head >= 0 && head < numberOfElements) {
        tailAddress := tail;
        headAddress := head;
        SetPointers();
        ok := true;
      } else {
        ok := false;
      }
    }
  }
}
