/** What a bounds-checked `read` or `write` of the storage device does to the
    chip and to the caller's buffer, and the 30-byte transfers it is split
    into. The methods of `FramDevice.FramI2C` are proved against these. */
module Transfer {
  import opened Word
  import opened FramTypes

  /** The largest single transport transfer (below the 32-byte limit of
      the bus library's receive buffer). */
  const BlockSize: nat := 30

  /** The validation of `read` and `write`, in the order the code makes it:
      start address, then length, then finish address. `top` is the highest
      byte address of the chip. */
  function TransferCheck(top: nat, startAddress: u32, numberOfBytes: u32): (r: FramResult)
    requires top <= 0xFFFF
    ensures r == FramOK <==>
      && BottomAddress <= startAddress <= top
      && 0 < numberOfBytes <= MaxBufferSize
      && startAddress + numberOfBytes <= top + 1
    ensures r in {FramOK, FramBadStartAddress, FramBadNumberOfBytes, FramBadFinishAddress}
    ensures r == FramBadStartAddress <==> startAddress < BottomAddress || startAddress > top
    ensures r == FramBadNumberOfBytes <==>
      && BottomAddress <= startAddress <= top
      && (numberOfBytes == 0 || numberOfBytes > MaxBufferSize)
    ensures r == FramBadFinishAddress ==> 0 < numberOfBytes <= MaxBufferSize && startAddress + numberOfBytes > top + 1
  {
    if startAddress < BottomAddress || startAddress > top then FramBadStartAddress
    else if numberOfBytes > MaxBufferSize || numberOfBytes == 0 then FramBadNumberOfBytes
    else if startAddress + numberOfBytes - 1 > top then FramBadFinishAddress
    else FramOK
  }

  /** `m` with the bytes from `at` on replaced by `d`. */
  function Overwrite(m: seq<byte>, at: nat, d: seq<byte>): (r: seq<byte>)
    requires at + |d| <= |m|
    ensures |r| == |m|
    ensures r[at..at + |d|] == d
  {
    m[..at] + d + m[at + |d|..]
  }

  /** Overwriting with an empty slice changes nothing. */
  lemma {:induction false} OverwriteNothing(m: seq<byte>, src: seq<byte>, lo: nat)
    requires lo <= |src|
    ensures Overwrite(m, 0, src[lo..lo]) == m
  {
    assert m[..0] + src[lo..lo] + m[0..] == m;
  }

  /** Two adjacent overwrites are one overwrite of the concatenation. */
  lemma {:induction false} OverwriteConcat(m: seq<byte>, at: nat, x: seq<byte>, y: seq<byte>)
    requires at + |x| + |y| <= |m|
    ensures Overwrite(Overwrite(m, at, x), at + |x|, y) == Overwrite(m, at, x + y)
  {
    var l := Overwrite(Overwrite(m, at, x), at + |x|, y);
    var r := Overwrite(m, at, x + y);
    forall i | 0 <= i < |m| ensures l[i] == r[i] {
      if at <= i < at + |x| {
        assert l[i] == Overwrite(m, at, x)[i] == x[i - at];
        assert r[i] == (x + y)[i - at];
      } else if at + |x| <= i < at + |x| + |y| {
        assert l[i] == y[i - at - |x|];
        assert r[i] == (x + y)[i - at];
      }
    }
  }

  /** Writing the next `k` bytes of `data` after its first `offset` bytes
      extends the written prefix. */
  lemma {:induction false} OverwriteGrow(m: seq<byte>, at: nat, data: seq<byte>, offset: nat, k: nat)
    requires offset + k <= |data| && at + offset + k <= |m|
    ensures Overwrite(Overwrite(m, at, data[..offset]), at + offset, data[offset..offset + k])
         == Overwrite(m, at, data[..offset + k])
  {
    OverwriteConcat(m, at, data[..offset], data[offset..offset + k]);
    assert data[..offset] + data[offset..offset + k] == data[..offset + k];
  }

  /** Copying the next `k` bytes of `m` after the range [lo, hi) already
      copied to the front of `b` extends the copied range. */
  lemma {:induction false} SliceGrow(b: seq<byte>, m: seq<byte>, lo: nat, hi: nat, k: nat)
    requires lo <= hi && hi + k <= |m| && hi - lo + k <= |b|
    ensures Overwrite(Overwrite(b, 0, m[lo..hi]), hi - lo, m[hi..hi + k]) == Overwrite(b, 0, m[lo..hi + k])
  {
    OverwriteConcat(b, 0, m[lo..hi], m[hi..hi + k]);
    assert m[lo..hi] + m[hi..hi + k] == m[lo..hi + k];
  }

  /** Overwriting leaves every range that it does not touch unchanged. */
  lemma {:induction false} OverwriteElsewhere(m: seq<byte>, at: nat, d: seq<byte>, lo: nat, hi: nat)
    requires at + |d| <= |m| && lo <= hi <= |m|
    requires hi <= at || at + |d| <= lo
    ensures Overwrite(m, at, d)[lo..hi] == m[lo..hi]
  {
    var r := Overwrite(m, at, d);
    assert forall i :: lo <= i < hi ==> r[i] == m[i];
  }

  /** The chip after `write(startAddress, numberOfBytes, data)`: the bytes
      are stored when the validation passes, and nothing changes otherwise. */
  function WriteEffect(m: seq<byte>, startAddress: u32, numberOfBytes: u32, data: seq<byte>): (r: seq<byte>)
    requires 0 < |m| <= 0x1_0000
    requires TransferCheck(|m| - 1, startAddress, numberOfBytes) == FramOK ==> numberOfBytes <= |data|
    ensures |r| == |m|
    ensures TransferCheck(|m| - 1, startAddress, numberOfBytes) == FramOK ==>
      && r[startAddress..startAddress + numberOfBytes] == data[..numberOfBytes]
      && r[..startAddress] == m[..startAddress]
      && r[startAddress + numberOfBytes..] == m[startAddress + numberOfBytes..]
    ensures TransferCheck(|m| - 1, startAddress, numberOfBytes) != FramOK ==> r == m
  {
    if TransferCheck(|m| - 1, startAddress, numberOfBytes) == FramOK
    then Overwrite(m, startAddress, data[..numberOfBytes])
    else m
  }

  /** The caller's buffer after `read(startAddress, numberOfBytes, buffer)`:
      its first bytes receive the chip's bytes when the validation passes,
      and nothing changes otherwise. */
  function ReadInto(buffer: seq<byte>, m: seq<byte>, startAddress: u32, numberOfBytes: u32): (r: seq<byte>)
    requires 0 < |m| <= 0x1_0000
    requires TransferCheck(|m| - 1, startAddress, numberOfBytes) == FramOK ==> numberOfBytes <= |buffer|
    ensures |r| == |buffer|
    ensures TransferCheck(|m| - 1, startAddress, numberOfBytes) == FramOK ==>
      && r[..numberOfBytes] == m[startAddress..startAddress + numberOfBytes]
      && r[numberOfBytes..] == buffer[numberOfBytes..]
    ensures TransferCheck(|m| - 1, startAddress, numberOfBytes) != FramOK ==> r == buffer
  {
    if TransferCheck(|m| - 1, startAddress, numberOfBytes) == FramOK
    then Overwrite(buffer, 0, m[startAddress..startAddress + numberOfBytes])
    else buffer
  }

  /** A write followed by a read of the same range returns the data written. */
  lemma {:induction false} WriteThenRead(m: seq<byte>, startAddress: u32, numberOfBytes: u32, data: seq<byte>, buffer: seq<byte>)
    requires 0 < |m| <= 0x1_0000
    requires TransferCheck(|m| - 1, startAddress, numberOfBytes) == FramOK
    requires numberOfBytes <= |data| && numberOfBytes <= |buffer|
    ensures ReadInto(buffer, WriteEffect(m, startAddress, numberOfBytes, data), startAddress, numberOfBytes)[..numberOfBytes]
         == data[..numberOfBytes]
  {
    var m' := WriteEffect(m, startAddress, numberOfBytes, data);
    assert |m'| == |m|;
  }

  /** One transport transfer: `count` bytes at chip address `address`, from
      or to the caller's buffer at `offset`. */
  datatype Chunk = Chunk(address: nat, offset: nat, count: nat)

  /** The transfers the chunking loop of `read`/`write` issues for
      `remaining` bytes: full 30-byte blocks, then the rest, if any. */
  function ChunkPlan(address: nat, offset: nat, remaining: nat): (plan: seq<Chunk>)
    decreases remaining
  {
    if remaining >= BlockSize then
      [Chunk(address, offset, BlockSize)] + ChunkPlan(address + BlockSize, offset + BlockSize, remaining - BlockSize)
    else if remaining > 0 then
      [Chunk(address, offset, remaining)]
    else
      []
  }

  /** There is a transfer exactly when there are bytes to move, and every
      transfer moves at least one byte and at most a block. */
  lemma {:induction false} ChunkPlanFits(address: nat, offset: nat, remaining: nat)
    ensures ChunkPlan(address, offset, remaining) == [] <==> remaining == 0
    ensures forall k :: 0 <= k < |ChunkPlan(address, offset, remaining)| ==>
      0 < ChunkPlan(address, offset, remaining)[k].count <= BlockSize
    decreases remaining
  {
    if remaining >= BlockSize {
      ChunkPlanFits(address + BlockSize, offset + BlockSize, remaining - BlockSize);
      var rest := ChunkPlan(address + BlockSize, offset + BlockSize, remaining - BlockSize);
      assert ChunkPlan(address, offset, remaining) == [Chunk(address, offset, BlockSize)] + rest;
    }
  }

  /** The plan has remaining/30 full transfers and, when remaining%30 is
      nonzero, one more. */
  lemma {:induction false} ChunkPlanLength(address: nat, offset: nat, remaining: nat)
    ensures |ChunkPlan(address, offset, remaining)| == remaining / BlockSize + (if remaining % BlockSize > 0 then 1 else 0)
    decreases remaining
  {
    if remaining >= BlockSize {
      ChunkPlanLength(address + BlockSize, offset + BlockSize, remaining - BlockSize);
      assert (remaining - BlockSize) / BlockSize == remaining / BlockSize - 1;
      assert (remaining - BlockSize) % BlockSize == remaining % BlockSize;
    }
  }

  /** Transfer k goes to address + 30k from buffer offset + 30k, so addresses
      increase and the buffer offset moves in step with them; the first
      remaining/30 transfers carry 30 bytes and the last one the rest. */
  lemma {:induction false} ChunkPlanAt(address: nat, offset: nat, remaining: nat, k: nat)
    requires k < remaining / BlockSize + (if remaining % BlockSize > 0 then 1 else 0)
    ensures k < |ChunkPlan(address, offset, remaining)|
    ensures ChunkPlan(address, offset, remaining)[k]
         == Chunk(address + BlockSize * k, offset + BlockSize * k,
                  if k < remaining / BlockSize then BlockSize else remaining % BlockSize)
    decreases remaining
  {
    ChunkPlanLength(address, offset, remaining);
    if k > 0 {
      assert remaining >= BlockSize;
      assert (remaining - BlockSize) / BlockSize == remaining / BlockSize - 1;
      assert (remaining - BlockSize) % BlockSize == remaining % BlockSize;
      ChunkPlanAt(address + BlockSize, offset + BlockSize, remaining - BlockSize, k - 1);
    }
  }

  /** One turn of the chunking loop: a full block moves from the plan still
      to issue to the transfers issued. */
  lemma {:induction false} ChunkPlanStep(issued: seq<Chunk>, c: Chunk, address: nat, offset: nat, count: nat, whole: seq<Chunk>)
    requires issued + ChunkPlan(address, offset, count) == whole
    requires count >= BlockSize && c == Chunk(address, offset, BlockSize)
    ensures (issued + [c]) + ChunkPlan(address + BlockSize, offset + BlockSize, count - BlockSize) == whole
  {
    var rest := ChunkPlan(address + BlockSize, offset + BlockSize, count - BlockSize);
    assert ChunkPlan(address, offset, count) == [c] + rest;
    assert (issued + [c]) + rest == issued + ([c] + rest);
  }

  /** The end of the chunking loop: the rest, if any, is the last transfer. */
  lemma {:induction false} ChunkPlanLast(issued: seq<Chunk>, address: nat, offset: nat, count: nat, whole: seq<Chunk>)
    requires issued + ChunkPlan(address, offset, count) == whole
    requires count < BlockSize
    ensures count > 0 ==> issued + [Chunk(address, offset, count)] == whole
    ensures count == 0 ==> issued == whole
  {
    if count > 0 {
      assert ChunkPlan(address, offset, count) == [Chunk(address, offset, count)];
    } else {
      assert ChunkPlan(address, offset, count) == [];
    }
  }

  /** The transfers cover exactly the `remaining` bytes. */
  function TotalCount(plan: seq<Chunk>): (n: nat)
  {
    if plan == [] then 0 else plan[0].count + TotalCount(plan[1..])
  }

  lemma {:induction false} ChunkPlanTotal(address: nat, offset: nat, remaining: nat)
    ensures TotalCount(ChunkPlan(address, offset, remaining)) == remaining
    decreases remaining
  {
    if remaining >= BlockSize {
      ChunkPlanTotal(address + BlockSize, offset + BlockSize, remaining - BlockSize);
      var plan := ChunkPlan(address, offset, remaining);
      assert plan[1..] == ChunkPlan(address + BlockSize, offset + BlockSize, remaining - BlockSize);
    } else if remaining > 0 {
      var plan := ChunkPlan(address, offset, remaining);
      assert plan[1..] == [];
    }
  }
}
