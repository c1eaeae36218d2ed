/** The storage device `FramI2C`: the chip's address map, bounds-checked
    chunked `read`/`write`, the bump allocator, `format` and the control
    block. The chip itself is the byte array `mem`, one byte per address; the
    bus transfers `_readMemory`/`_writeMemory` are plain copies of at most 30
    bytes between `mem` and the caller's buffer. */
module FramDevice {
  import opened Word
  import opened FramTypes
  import opened Transfer
  import Allocation

  class FramI2C {
    const partNumber: PartNumber
    const baseAddress: u32
    const bottomAddress: u32
    const topAddress: u32
    /** `_nextFreeByte`, the allocator's cursor */
    var nextFreeByte: u32
    /** the chip's contents, address i at index i */
    const mem: array<byte>

    ghost predicate Valid()
      reads this
    {
      && baseAddress == BaseAddress
      && bottomAddress == BottomAddress
      && topAddress == TopAddressForPartNumber(partNumber)
      && mem.Length == topAddress + 1
      && nextFreeByte < topAddress
    }

    /** `FramI2C(partNumber)` attached to the chip `chip` of that part. */
    constructor (partNumber: PartNumber, chip: array<byte>)
      requires chip.Length == TopAddressForPartNumber(partNumber) + 1
      ensures Valid()
      ensures this.partNumber == partNumber && mem == chip
      ensures nextFreeByte == BottomAddress
    {
      this.partNumber := partNumber;
      mem := chip;
      baseAddress := BaseAddress;
      bottomAddress := BaseAddress + MaxBufferSize;
      topAddress := TopAddressForPartNumber(partNumber);
      nextFreeByte := BaseAddress + MaxBufferSize;
    }

    /** `_readMemory(address, numberOfBytes, buffer + offset)`; `c` is the
        bus transfer it issues. */
    method ReadMemory(address: u32, numberOfBytes: u32, buffer: array<byte>, offset: nat)
      returns (ghost c: Chunk)
      requires Valid() && buffer != mem
      requires numberOfBytes <= BlockSize
      requires address + numberOfBytes <= mem.Length && offset + numberOfBytes <= buffer.Length
      modifies buffer
      ensures buffer[..] == Overwrite(old(buffer[..]), offset, mem[address..address + numberOfBytes])
      ensures c == Chunk(address, offset, numberOfBytes)
    {
      c := Chunk(address, offset, numberOfBytes);
      forall i | 0 <= i < numberOfBytes {
        buffer[offset + i] := mem[address + i];
      }
      assert buffer[..] == Overwrite(old(buffer[..]), offset, mem[address..address + numberOfBytes]);
    }

    /** `_writeMemory(address, numberOfBytes, buffer + offset)`; `c` is the
        bus transfer it issues. */
    method WriteMemory(address: u32, numberOfBytes: u32, buffer: seq<byte>, offset: nat)
      returns (ghost c: Chunk)
      requires Valid()
      requires numberOfBytes <= BlockSize && offset + numberOfBytes <= |buffer|
      requires address + numberOfBytes <= mem.Length
      modifies mem
      ensures mem[..] == Overwrite(old(mem[..]), address, buffer[offset..offset + numberOfBytes])
      ensures c == Chunk(address, offset, numberOfBytes)
    {
      c := Chunk(address, offset, numberOfBytes);
      forall i | 0 <= i < numberOfBytes {
        mem[address + i] := buffer[offset + i];
      }
      assert mem[..] == Overwrite(old(mem[..]), address, buffer[offset..offset + numberOfBytes]);
    }

    /** `read`: validate, then copy the range into `buffer` in 30-byte
        transfers; `chunks` records the transfers issued. */
    method Read(startAddress: u32, numberOfBytes: u32, buffer: array<byte>)
      returns (result: FramResult, ghost chunks: seq<Chunk>)
      requires Valid() && buffer != mem
      requires TransferCheck(topAddress, startAddress, numberOfBytes) == FramOK ==> numberOfBytes <= buffer.Length
      modifies buffer
      ensures result == TransferCheck(topAddress, startAddress, numberOfBytes)
      ensures buffer[..] == ReadInto(old(buffer[..]), mem[..], startAddress, numberOfBytes)
      ensures chunks == if result == FramOK then ChunkPlan(startAddress, 0, numberOfBytes) else []
    {
      chunks := [];
      if startAddress < bottomAddress || startAddress > topAddress {
        return FramBadStartAddress, chunks;
      }
      if numberOfBytes > MaxBufferSize || numberOfBytes == 0 {
        return FramBadNumberOfBytes, chunks;
      }
      if startAddress + numberOfBytes - 1 > topAddress {
        return FramBadFinishAddress, chunks;
      }
      chunks := ReadChunks(startAddress, numberOfBytes, buffer);
      result := FramOK;
    }

    /** The chunking loop of `read`, once the range has been validated. */
    method ReadChunks(startAddress: u32, numberOfBytes: u32, buffer: array<byte>)
      returns (ghost chunks: seq<Chunk>)
      requires Valid() && buffer != mem
      requires startAddress + numberOfBytes <= mem.Length && numberOfBytes <= buffer.Length
      modifies buffer
      ensures buffer[..] == Overwrite(old(buffer[..]), 0, mem[startAddress..startAddress + numberOfBytes])
      ensures chunks == ChunkPlan(startAddress, 0, numberOfBytes)
    {
      chunks := [];
      ghost var m := mem[..];
      ghost var b := buffer[..];
      var address: u32 := startAddress;
      var offset: nat := 0;
      var count: u32 := numberOfBytes;
      OverwriteNothing(b, m, startAddress);
      while count >= BlockSize
        invariant address == startAddress + offset && offset + count == numberOfBytes
        invariant chunks + ChunkPlan(address, offset, count) == ChunkPlan(startAddress, 0, numberOfBytes)
        invariant buffer[..] == Overwrite(b, 0, m[startAddress..address])
        invariant mem[..] == m
      {
        chunks, address, offset, count := ReadBlock(buffer, b, m, startAddress, numberOfBytes, chunks, address, offset, count);
      }
      ChunkPlanLast(chunks, address, offset, count, ChunkPlan(startAddress, 0, numberOfBytes));
      if count > 0 {
        var c := ReadStep(buffer, b, m, startAddress, address, offset, count);
        chunks := chunks + [c];
      }
      assert buffer[..] == Overwrite(b, 0, m[startAddress..startAddress + numberOfBytes]);
    }

    /** One pass of the `read` loop: a full 30-byte transfer, after which
        the loop's bookkeeping holds for the advanced cursors. */
    method ReadBlock(buffer: array<byte>, ghost b: seq<byte>, ghost m: seq<byte>, startAddress: u32, numberOfBytes: u32,
                     ghost chunks: seq<Chunk>, address: u32, offset: nat, count: u32)
      returns (ghost chunks': seq<Chunk>, address': u32, offset': nat, count': u32)
      requires Valid() && buffer != mem && m == mem[..]
      requires startAddress + numberOfBytes <= mem.Length && numberOfBytes <= buffer.Length == |b|
      requires address == startAddress + offset && offset + count == numberOfBytes && count >= BlockSize
      requires chunks + ChunkPlan(address, offset, count) == ChunkPlan(startAddress, 0, numberOfBytes)
      requires buffer[..] == Overwrite(b, 0, m[startAddress..address])
      modifies buffer
      ensures address' == startAddress + offset' && offset' + count' == numberOfBytes && count' < count
      ensures chunks' + ChunkPlan(address', offset', count') == ChunkPlan(startAddress, 0, numberOfBytes)
      ensures buffer[..] == Overwrite(b, 0, m[startAddress..address'])
    {
      ChunkPlanStep(chunks, Chunk(address, offset, BlockSize), address, offset, count, ChunkPlan(startAddress, 0, numberOfBytes));
      var c := ReadStep(buffer, b, m, startAddress, address, offset, BlockSize);
      chunks' := chunks + [c];
      address', offset', count' := address + BlockSize, offset + BlockSize, count - BlockSize;
    }

    /** One transfer of the `read` loop: the next `count` bytes of the chip
        follow the ones already copied. */
    method ReadStep(buffer: array<byte>, ghost b: seq<byte>, ghost m: seq<byte>, startAddress: u32, address: u32, offset: nat, count: u32)
      returns (ghost c: Chunk)
      requires Valid() && buffer != mem && m == mem[..]
      requires address == startAddress + offset && count <= BlockSize
      requires address + count <= mem.Length && offset + count <= buffer.Length == |b|
      requires buffer[..] == Overwrite(b, 0, m[startAddress..address])
      modifies buffer
      ensures buffer[..] == Overwrite(b, 0, m[startAddress..address + count])
      ensures c == Chunk(address, offset, count)
    {
      c := ReadMemory(address, count, buffer, offset);
      assert mem[address..address + count] == m[address..address + count];
      SliceGrow(b, m, startAddress, address, count);
    }

    /** `write`: validate, then copy `buffer`'s first `numberOfBytes` bytes to
        the chip in 30-byte transfers; `chunks` records the transfers issued. */
    method Write(startAddress: u32, numberOfBytes: u32, buffer: seq<byte>)
      returns (result: FramResult, ghost chunks: seq<Chunk>)
      requires Valid()
      requires TransferCheck(topAddress, startAddress, numberOfBytes) == FramOK ==> numberOfBytes <= |buffer|
      modifies mem
      ensures result == TransferCheck(topAddress, startAddress, numberOfBytes)
      ensures mem[..] == WriteEffect(old(mem[..]), startAddress, numberOfBytes, buffer)
      ensures chunks == if result == FramOK then ChunkPlan(startAddress, 0, numberOfBytes) else []
    {
      chunks := [];
      if startAddress < bottomAddress || startAddress > topAddress {
        return FramBadStartAddress, chunks;
      }
      if numberOfBytes > MaxBufferSize || numberOfBytes == 0 {
        return FramBadNumberOfBytes, chunks;
      }
      if startAddress + numberOfBytes - 1 > topAddress {
        return FramBadFinishAddress, chunks;
      }
      chunks := WriteChunks(startAddress, numberOfBytes, buffer);
      result := FramOK;
    }

    /** The chunking loop of `write`, once the range has been validated. */
    method WriteChunks(startAddress: u32, numberOfBytes: u32, buffer: seq<byte>)
      returns (ghost chunks: seq<Chunk>)
      requires Valid()
      requires startAddress + numberOfBytes <= mem.Length && numberOfBytes <= |buffer|
      modifies mem
      ensures mem[..] == Overwrite(old(mem[..]), startAddress, buffer[..numberOfBytes])
      ensures chunks == ChunkPlan(startAddress, 0, numberOfBytes)
    {
      chunks := [];
      ghost var m := mem[..];
      var address: u32 := startAddress;
      var offset: nat := 0;
      var count: u32 := numberOfBytes;
      while count >= BlockSize
        invariant address == startAddress + offset && offset + count == numberOfBytes
        invariant chunks + ChunkPlan(address, offset, count) == ChunkPlan(startAddress, 0, numberOfBytes)
        invariant mem[..] == Overwrite(m, startAddress, buffer[..offset])
      {
        chunks, address, offset, count := WriteBlock(m, startAddress, numberOfBytes, buffer, chunks, address, offset, count);
      }
      ChunkPlanLast(chunks, address, offset, count, ChunkPlan(startAddress, 0, numberOfBytes));
      if count > 0 {
        var c := WriteStep(m, startAddress, buffer, address, offset, count);
        chunks := chunks + [c];
      }
    }

    /** One pass of the `write` loop: a full 30-byte transfer, after which
        the loop's bookkeeping holds for the advanced cursors. */
    method WriteBlock(ghost m: seq<byte>, startAddress: u32, numberOfBytes: u32, buffer: seq<byte>,
                      ghost chunks: seq<Chunk>, address: u32, offset: nat, count: u32)
      returns (ghost chunks': seq<Chunk>, address': u32, offset': nat, count': u32)
      requires Valid() && |m| == mem.Length
      requires startAddress + numberOfBytes <= mem.Length && numberOfBytes <= |buffer|
      requires address == startAddress + offset && offset + count == numberOfBytes && count >= BlockSize
      requires chunks + ChunkPlan(address, offset, count) == ChunkPlan(startAddress, 0, numberOfBytes)
      requires mem[..] == Overwrite(m, startAddress, buffer[..offset])
      modifies mem
      ensures address' == startAddress + offset' && offset' + count' == numberOfBytes && count' < count
      ensures chunks' + ChunkPlan(address', offset', count') == ChunkPlan(startAddress, 0, numberOfBytes)
      ensures mem[..] == Overwrite(m, startAddress, buffer[..offset'])
    {
      ChunkPlanStep(chunks, Chunk(address, offset, BlockSize), address, offset, count, ChunkPlan(startAddress, 0, numberOfBytes));
      var c := WriteStep(m, startAddress, buffer, address, offset, BlockSize);
      chunks' := chunks + [c];
      address', offset', count' := address + BlockSize, offset + BlockSize, count - BlockSize;
    }

    /** One transfer of the `write` loop: the next `count` bytes of the
        buffer follow the ones already written. */
    method WriteStep(ghost m: seq<byte>, startAddress: u32, buffer: seq<byte>, address: u32, offset: nat, count: u32)
      returns (ghost c: Chunk)
      requires Valid() && |m| == mem.Length
      requires address == startAddress + offset && count <= BlockSize
      requires address + count <= mem.Length && offset + count <= |buffer|
      requires mem[..] == Overwrite(m, startAddress, buffer[..offset])
      modifies mem
      ensures mem[..] == Overwrite(m, startAddress, buffer[..offset + count])
      ensures c == Chunk(address, offset, count)
    {
      c := WriteMemory(address, count, buffer, offset);
      OverwriteGrow(m, startAddress, buffer, offset, count);
    }

    /** `allocateMemory`: hand out the cursor and advance it, if the wrapped
        sum stays strictly below `_topAddress`. */
    method AllocateMemory(numberOfBytes: u32) returns (base: u32, result: FramResult)
      requires Valid()
      modifies this`nextFreeByte
      ensures Valid()
      ensures Allocation.Step(base, result, nextFreeByte) == Allocation.Allocate(old(nextFreeByte), topAddress, numberOfBytes)
    {
      if Add32(nextFreeByte, numberOfBytes) < topAddress {
        base := nextFreeByte % 0x1_0000;   // uint16_t base = _nextFreeByte
        nextFreeByte := Add32(nextFreeByte, numberOfBytes);
        result := FramOK;
      } else {
        result := FramBadFinishAddress;
        base := 0;
      }
    }

    /** `format`: zero the chip from `_bottomAddress` to the top in 128-byte
        writes, stopping at the first failed write. Every write is in range,
        so it always reaches the top and never touches the control block. */
    method Format() returns (result: FramResult)
      requires Valid()
      modifies mem
      ensures result == FramOK
      ensures mem[..BottomAddress] == old(mem[..BottomAddress])
      ensures mem[BottomAddress..] == Zeros(topAddress + 1 - BottomAddress)
    {
      var buffer := Zeros(MaxBufferSize);
      result := FramOK;
      ghost var m0 := mem[..];
      var i: u32 := bottomAddress;
      while i < topAddress && result == FramOK
        invariant BottomAddress <= i <= topAddress + 1 && i % MaxBufferSize == 0
        invariant result == FramOK
        invariant mem[..] == m0[..BottomAddress] + Zeros(i - BottomAddress) + m0[i..]
      {
        result := FormatBlock(m0, buffer, i);
        i := i + MaxBufferSize;
      }
    }

    /** One pass of the `format` loop: the 128 bytes at `i` are zeroed. */
    method FormatBlock(ghost m0: seq<byte>, buffer: seq<byte>, i: u32) returns (result: FramResult)
      requires Valid() && |m0| == mem.Length && buffer == Zeros(MaxBufferSize)
      requires BottomAddress <= i < topAddress && i % MaxBufferSize == 0
      requires mem[..] == m0[..BottomAddress] + Zeros(i - BottomAddress) + m0[i..]
      modifies mem
      ensures result == FramOK
      ensures mem[..] == m0[..BottomAddress] + Zeros(i + MaxBufferSize - BottomAddress) + m0[i + MaxBufferSize..]
    {
      FormatStep(m0, mem[..], i);
      ghost var chunks;
      result, chunks := Write(i, MaxBufferSize, buffer);
    }

    /** `writeControlBlock`: a 128-byte write at `_baseAddress`. The start
        check rejects it, so the chip never changes. */
    method WriteControlBlock(buffer: seq<byte>)
      requires Valid()
      modifies mem
      ensures mem[..] == old(mem[..])
    {
      var _, _ := Write(baseAddress, MaxBufferSize, buffer);
    }

    /** `readControlBlock`: a 128-byte read at `_baseAddress`. The start
        check rejects it, so the buffer never changes. */
    method ReadControlBlock(buffer: array<byte>)
      requires Valid() && buffer != mem
      modifies buffer
      ensures buffer[..] == old(buffer[..])
    {
      var _, _ := Read(baseAddress, MaxBufferSize, buffer);
    }
  }

  /** A block-aligned address below a chip size that is a multiple of
      8 KiB leaves room for a whole block. */
  lemma {:induction false} AlignedBlockFits(i: nat, size: nat)
    requires i % MaxBufferSize == 0 && size % 0x2000 == 0 && i < size
    ensures i + MaxBufferSize <= size
  {
    var a, b := i / MaxBufferSize, size / 0x2000;
    assert i == MaxBufferSize * a;
    assert size == MaxBufferSize * (64 * b);
  }

  /** One write of the `format` loop: a zero block at the next aligned
      address passes the bounds check and extends the zeroed range by one
      block. */
  lemma {:induction false} FormatStep(m0: seq<byte>, m: seq<byte>, i: nat)
    requires 0 < |m| == |m0| <= 0x1_0000 && |m| % 0x2000 == 0
    requires BottomAddress <= i < |m| - 1 && i % MaxBufferSize == 0
    requires m == m0[..BottomAddress] + Zeros(i - BottomAddress) + m0[i..]
    ensures TransferCheck(|m| - 1, i, MaxBufferSize) == FramOK
    ensures WriteEffect(m, i, MaxBufferSize, Zeros(MaxBufferSize))
         == m0[..BottomAddress] + Zeros(i + MaxBufferSize - BottomAddress) + m0[i + MaxBufferSize..]
  {
    AlignedBlockFits(i, |m|);
    var z := Zeros(MaxBufferSize);
    assert z[..MaxBufferSize] == z;
    var l := Overwrite(m, i, z);
    var r := m0[..BottomAddress] + Zeros(i + MaxBufferSize - BottomAddress) + m0[i + MaxBufferSize..];
    assert forall k :: 0 <= k < |m| ==> l[k] == r[k];
  }

  /** The control block at `_baseAddress` lies below `_bottomAddress`, so the
      transfer the control-block helpers make always fails the start check. */
  lemma ControlBlockUnreachable(p: PartNumber)
    ensures TransferCheck(TopAddressForPartNumber(p), BaseAddress, MaxBufferSize) == FramBadStartAddress
  {
  }
}
