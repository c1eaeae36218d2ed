/** How a `Ring_FramArray` lies on the chip and what its operations do to
    the chip's bytes: `n` slots of `s` bytes from the start address, then the
    12-byte pointer record. The live elements are the slots of the window
    from the tail, oldest first; the lemmas here show that push, pop and
    clear act on that sequence as a bounded FIFO / deque. */
module RingLayout {
  import opened Word
  import opened FramTypes
  import opened Transfer
  import opened Trailer
  import opened RingIndex
  import FramArray

  /** A ring placed by a granted allocation: the slots lie in the user area
      and the pointer record follows the last slot inside the chip.
      `size` is the chip size, `topAddress + 1`. */
  predicate Geometry(size: nat, startAddress: u32, sizeOfElement: byte, n: u32, pointersAddress: u32)
  {
    && 0 < size <= 0x1_0000
    && SlotCount(n)
    && 0 < sizeOfElement < MaxBufferSize
    && BottomAddress <= startAddress
    && pointersAddress == startAddress + Offset(sizeOfElement, n)
    && pointersAddress + PointersSize <= size
  }

  /** The offset of slot `k` from the start address: `k` slots of `s`
      bytes each. */
  function Offset(s: nat, k: nat): (o: nat)
  {
    if k == 0 then 0 else Offset(s, k - 1) + s
  }

  lemma {:induction false} OffsetIsProduct(s: nat, k: nat)
    ensures Offset(s, k) == k * s
  {
    if k > 0 {
      OffsetIsProduct(s, k - 1);
      assert k * s == (k - 1) * s + s;
    }
  }

  /** Slot `a` ends at or before slot `b > a` starts. */
  lemma {:induction false} SlotFits(s: nat, a: nat, b: nat)
    requires a < b
    ensures Offset(s, a) + s <= Offset(s, b)
  {
    if a + 1 < b {
      SlotFits(s, a, b - 1);
    }
  }

  /** The bytes of slot `k`. */
  function SlotIn(m: seq<byte>, startAddress: nat, sizeOfElement: nat, n: nat, k: nat): (b: seq<byte>)
    requires k < n && startAddress + Offset(sizeOfElement, n) <= |m|
    ensures |b| == sizeOfElement
  {
    SlotFits(sizeOfElement, k, n);
    m[startAddress + Offset(sizeOfElement, k)..startAddress + Offset(sizeOfElement, k) + sizeOfElement]
  }

  /** The bytes of the slots `w`, in order. */
  function Elements(m: seq<byte>, startAddress: nat, sizeOfElement: nat, n: nat, w: seq<nat>): (e: seq<seq<byte>>)
    requires startAddress + Offset(sizeOfElement, n) <= |m|
    requires forall i :: 0 <= i < |w| ==> w[i] < n
    ensures |e| == |w|
  {
    seq(|w|, i requires 0 <= i < |w| => SlotIn(m, startAddress, sizeOfElement, n, w[i]))
  }

  /** The ring's live elements, oldest first. */
  function Contents(m: seq<byte>, startAddress: u32, sizeOfElement: byte, n: u32, tail: u32, head: u32): (c: seq<seq<byte>>)
    requires SlotCount(n) && startAddress + Offset(sizeOfElement, n) <= |m|
    ensures |c| == Occupancy(tail, head, n)
  {
    Elements(m, startAddress, sizeOfElement, n, Window(tail, n, Occupancy(tail, head, n)))
  }

  /** A bounded FIFO of capacity `capacity` after appending `x`: the oldest
      element is dropped when it was full. */
  function FifoPush<T>(c: seq<T>, x: T, capacity: nat): (r: seq<T>)
    requires |c| <= capacity
  {
    if |c| < capacity then c + [x] else (c + [x])[1..]
  }

  /** The chip after `setPointers`: nothing when the start address is 0,
      otherwise the record for (tail, head) written at `pointersAddress`. */
  function PointersWrite(m: seq<byte>, startAddress: u32, pointersAddress: u32, tail: u32, head: u32): (r: seq<byte>)
    requires 0 < |m| <= 0x1_0000
    ensures |r| == |m|
    ensures startAddress == 0 || pointersAddress < BottomAddress || pointersAddress + PointersSize > |m| ==> r == m
  {
    if startAddress == 0 then m
    else WriteEffect(m, pointersAddress, PointersSize, EncodePointers(MakePointers(pointersAddress, tail, head)))
  }

  /** `setPointers` on a ring with a start address, whose record lies in the
      user area: the 12 record bytes decode to the record of (tail, head)
      and every other byte of the chip is kept. */
  lemma {:induction false} PointersWriteEffect(m: seq<byte>, startAddress: u32, pointersAddress: u32, tail: u32, head: u32)
    requires 0 < |m| <= 0x1_0000
    requires startAddress != 0 && BottomAddress <= pointersAddress && pointersAddress + PointersSize <= |m|
    ensures var r := PointersWrite(m, startAddress, pointersAddress, tail, head);
      && DecodePointers(r[pointersAddress..pointersAddress + PointersSize]) == MakePointers(pointersAddress, tail, head)
      && r[..pointersAddress] == m[..pointersAddress]
      && r[pointersAddress + PointersSize..] == m[pointersAddress + PointersSize..]
  {
    var enc := EncodePointers(MakePointers(pointersAddress, tail, head));
    assert PointersWrite(m, startAddress, pointersAddress, tail, head) == Overwrite(m, pointersAddress, enc);
    OverwriteOutside(m, pointersAddress, enc, pointersAddress, pointersAddress + PointersSize);
    DecodeEncodePointers(MakePointers(pointersAddress, tail, head));
  }

  /** The record `getPointers` leaves in `_pointers`: the stored bytes when
      they can be read, otherwise the previous record with tail 99 and
      head 100. */
  function StoredPointers(m: seq<byte>, pointersAddress: u32, previous: Pointers): (p: Pointers)
    requires 0 < |m| <= 0x1_0000
    ensures TransferCheck(|m| - 1, pointersAddress, PointersSize) == FramOK ==>
      EncodePointers(p) == m[pointersAddress..pointersAddress + PointersSize]
    ensures TransferCheck(|m| - 1, pointersAddress, PointersSize) != FramOK ==>
      p == previous.(tail := 99, head := 100)
  {
    if TransferCheck(|m| - 1, pointersAddress, PointersSize) == FramOK
    then DecodePointers(m[pointersAddress..pointersAddress + PointersSize])
    else previous.(tail := 99, head := 100)
  }

  /** `getPointers` reads the record over a buffer holding the encoding of
      the preset record; decoding the buffer afterwards gives the stored
      record, or the preset when the read is refused. */
  lemma {:induction false} ReadPointersRecord(m: seq<byte>, pointersAddress: u32, previous: Pointers, preset: seq<byte>)
    requires 0 < |m| <= 0x1_0000
    requires preset == EncodePointers(previous.(tail := 99, head := 100))
    ensures DecodePointers(ReadInto(preset, m, pointersAddress, PointersSize)) == StoredPointers(m, pointersAddress, previous)
  {
    var r := ReadInto(preset, m, pointersAddress, PointersSize);
    if TransferCheck(|m| - 1, pointersAddress, PointersSize) == FramOK {
      assert r == r[..PointersSize];
    } else {
      DecodeEncodePointers(previous.(tail := 99, head := 100));
    }
  }

  /** The chip after the zero-fill loop of `clearArray` has written slots
      0 .. i-1. */
  function ClearEffect(m: seq<byte>, startAddress: u32, sizeOfElement: byte, i: u32): (r: seq<byte>)
    requires 0 < |m| <= 0x1_0000
    ensures |r| == |m|
    ensures |m| < BottomAddress ==> r == m
    ensures |m| >= BottomAddress ==> r[..BottomAddress] == m[..BottomAddress]
    decreases i
  {
    if i == 0 then m
    else
      var before := ClearEffect(m, startAddress, sizeOfElement, i - 1);
      var at := FramArray.ElementAddress(startAddress, i - 1, sizeOfElement);
      var r := WriteEffect(before, at, sizeOfElement, Zeros(sizeOfElement));
      assert TransferCheck(|m| - 1, at, sizeOfElement) == FramOK ==> r[..BottomAddress] == r[..at][..BottomAddress];
      r
  }

  /** Under the geometry, slot `k` is at `start + k * size`, and a transfer
      of one slot passes the bounds check. */
  lemma {:induction false} SlotTransfer(size: nat, startAddress: u32, sizeOfElement: byte, n: u32, pointersAddress: u32, k: u32)
    requires Geometry(size, startAddress, sizeOfElement, n, pointersAddress) && k < n
    ensures FramArray.ElementAddress(startAddress, k, sizeOfElement) == startAddress + Offset(sizeOfElement, k)
    ensures TransferCheck(size - 1, FramArray.ElementAddress(startAddress, k, sizeOfElement), sizeOfElement) == FramOK
  {
    SlotFits(sizeOfElement, k, n);
    OffsetIsProduct(sizeOfElement, k);
  }

  /** Reading slot `k` of a laid-out ring yields the bytes of that slot. */
  lemma {:induction false} ReadSlot(m: seq<byte>, startAddress: u32, sizeOfElement: byte, n: u32, pointersAddress: u32, k: u32, buffer: seq<byte>)
    requires Geometry(|m|, startAddress, sizeOfElement, n, pointersAddress) && k < n && sizeOfElement <= |buffer|
    ensures ReadInto(buffer, m, FramArray.ElementAddress(startAddress, k, sizeOfElement), sizeOfElement)[..sizeOfElement]
         == SlotIn(m, startAddress, sizeOfElement, n, k)
  {
    SlotTransfer(|m|, startAddress, sizeOfElement, n, pointersAddress, k);
    var a := FramArray.ElementAddress(startAddress, k, sizeOfElement);
    assert a == startAddress + Offset(sizeOfElement, k);
    assert ReadInto(buffer, m, a, sizeOfElement)[..sizeOfElement] == m[a..a + sizeOfElement];
  }

  /** Overwriting slot `j` changes slot `j` to the new bytes and no other
      slot. */
  lemma {:induction false} SlotOverwrite(m: seq<byte>, startAddress: nat, sizeOfElement: nat, n: nat, j: nat, d: seq<byte>, k: nat)
    requires startAddress + Offset(sizeOfElement, n) <= |m| && j < n && k < n && |d| == sizeOfElement
    ensures startAddress + Offset(sizeOfElement, j) + sizeOfElement <= |m|
    ensures SlotIn(Overwrite(m, startAddress + Offset(sizeOfElement, j), d), startAddress, sizeOfElement, n, k)
         == if k == j then d else SlotIn(m, startAddress, sizeOfElement, n, k)
  {
    SlotFits(sizeOfElement, j, n);
    SlotFits(sizeOfElement, k, n);
    var at := startAddress + Offset(sizeOfElement, j);
    var lo := startAddress + Offset(sizeOfElement, k);
    if k < j {
      SlotFits(sizeOfElement, k, j);
      OverwriteElsewhere(m, at, d, lo, lo + sizeOfElement);
    } else if j < k {
      SlotFits(sizeOfElement, j, k);
      OverwriteElsewhere(m, at, d, lo, lo + sizeOfElement);
    }
  }

  /** Writing at or past the end of the last slot changes no slot. */
  lemma {:induction false} BeyondSlots(m: seq<byte>, startAddress: nat, sizeOfElement: nat, n: nat, at: nat, d: seq<byte>, w: seq<nat>)
    requires startAddress + Offset(sizeOfElement, n) <= at && at + |d| <= |m|
    requires forall i :: 0 <= i < |w| ==> w[i] < n
    ensures Elements(Overwrite(m, at, d), startAddress, sizeOfElement, n, w) == Elements(m, startAddress, sizeOfElement, n, w)
  {
    var m' := Overwrite(m, at, d);
    forall i | 0 <= i < |w|
      ensures SlotIn(m', startAddress, sizeOfElement, n, w[i]) == SlotIn(m, startAddress, sizeOfElement, n, w[i])
    {
      SlotFits(sizeOfElement, w[i], n);
      var lo := startAddress + Offset(sizeOfElement, w[i]);
      OverwriteElsewhere(m, at, d, lo, lo + sizeOfElement);
    }
  }

  /** Overwriting slot `j`, which is not among `w`, and appending `j` to `w`
      appends the new bytes to the elements of `w`. */
  lemma {:induction false} AppendWritten(m: seq<byte>, startAddress: nat, sizeOfElement: nat, n: nat, w: seq<nat>, j: nat, d: seq<byte>)
    requires startAddress + Offset(sizeOfElement, n) <= |m| && j < n && |d| == sizeOfElement
    requires forall i :: 0 <= i < |w| ==> w[i] < n
    requires j !in w
    ensures startAddress + Offset(sizeOfElement, j) + sizeOfElement <= |m|
    ensures Elements(Overwrite(m, startAddress + Offset(sizeOfElement, j), d), startAddress, sizeOfElement, n, w + [j])
         == Elements(m, startAddress, sizeOfElement, n, w) + [d]
  {
    SlotFits(sizeOfElement, j, n);
    var m' := Overwrite(m, startAddress + Offset(sizeOfElement, j), d);
    var l := Elements(m', startAddress, sizeOfElement, n, w + [j]);
    var r := Elements(m, startAddress, sizeOfElement, n, w) + [d];
    forall i | 0 <= i < |w| + 1 ensures l[i] == r[i] {
      SlotOverwrite(m, startAddress, sizeOfElement, n, j, d, (w + [j])[i]);
    }
  }

  /** The elements of a slice of slots are that slice of the elements. */
  lemma ElementsSlice(m: seq<byte>, startAddress: nat, sizeOfElement: nat, n: nat, w: seq<nat>, lo: nat, hi: nat)
    requires startAddress + Offset(sizeOfElement, n) <= |m|
    requires forall i :: 0 <= i < |w| ==> w[i] < n
    requires lo <= hi <= |w|
    ensures Elements(m, startAddress, sizeOfElement, n, w[lo..hi]) == Elements(m, startAddress, sizeOfElement, n, w)[lo..hi]
  {
  }

  /** `setPointers` on a placed ring stores the record for (tail, head) and
      changes no slot. */
  lemma {:induction false} PersistKeepsSlots(m: seq<byte>, startAddress: u32, sizeOfElement: byte, n: u32, pointersAddress: u32,
                                             tail: u32, head: u32, w: seq<nat>)
    requires Geometry(|m|, startAddress, sizeOfElement, n, pointersAddress)
    requires forall i :: 0 <= i < |w| ==> w[i] < n
    ensures var m2 := PointersWrite(m, startAddress, pointersAddress, tail, head);
      && m2[pointersAddress..pointersAddress + PointersSize] == EncodePointers(MakePointers(pointersAddress, tail, head))
      && Elements(m2, startAddress, sizeOfElement, n, w) == Elements(m, startAddress, sizeOfElement, n, w)
  {
    var enc := EncodePointers(MakePointers(pointersAddress, tail, head));
    assert PointersWrite(m, startAddress, pointersAddress, tail, head) == Overwrite(m, pointersAddress, enc);
    BeyondSlots(m, startAddress, sizeOfElement, n, pointersAddress, enc, w);
  }

  /** `setPointers` on a placed ring changes no slot. */
  lemma {:induction false} PersistKeepsEachSlot(m: seq<byte>, startAddress: u32, sizeOfElement: byte, n: u32, pointersAddress: u32,
                                                tail: u32, head: u32)
    requires Geometry(|m|, startAddress, sizeOfElement, n, pointersAddress)
    ensures forall k :: 0 <= k < n ==>
      SlotIn(PointersWrite(m, startAddress, pointersAddress, tail, head), startAddress, sizeOfElement, n, k)
        == SlotIn(m, startAddress, sizeOfElement, n, k)
  {
    var enc := EncodePointers(MakePointers(pointersAddress, tail, head));
    var m2 := PointersWrite(m, startAddress, pointersAddress, tail, head);
    assert m2 == Overwrite(m, pointersAddress, enc);
    forall k | 0 <= k < n
      ensures SlotIn(m2, startAddress, sizeOfElement, n, k) == SlotIn(m, startAddress, sizeOfElement, n, k)
    {
      SlotFits(sizeOfElement, k, n);
      var lo := startAddress + Offset(sizeOfElement, k);
      OverwriteElsewhere(m, pointersAddress, enc, lo, lo + sizeOfElement);
    }
  }

  /** `push`, on a placed ring with tail and head in range: the element is
      appended to the contents, the oldest one is dropped when the ring held
      `n - 1` elements, and the record for the new indices is stored. */
  lemma {:induction false} PushContents(m: seq<byte>, startAddress: u32, sizeOfElement: byte, n: u32, pointersAddress: u32,
                                        tail: u32, head: u32, data: seq<byte>)
    requires Geometry(|m|, startAddress, sizeOfElement, n, pointersAddress) && InRange(tail, head, n)
    requires sizeOfElement <= |data|
    ensures var m1 := WriteEffect(m, FramArray.ElementAddress(startAddress, head, sizeOfElement), sizeOfElement, data);
      var (t', h') := PushIndices(tail, head, n);
      var m2 := PointersWrite(m1, startAddress, pointersAddress, t', h');
      && InRange(t', h', n)
      && Contents(m2, startAddress, sizeOfElement, n, t', h')
         == FifoPush(Contents(m, startAddress, sizeOfElement, n, tail, head), data[..sizeOfElement], n - 1)
      && m2[pointersAddress..pointersAddress + PointersSize] == EncodePointers(MakePointers(pointersAddress, t', h'))
  {
    SlotTransfer(|m|, startAddress, sizeOfElement, n, pointersAddress, head);
    var d := data[..sizeOfElement];
    var m1 := WriteEffect(m, FramArray.ElementAddress(startAddress, head, sizeOfElement), sizeOfElement, data);
    assert m1 == Overwrite(m, startAddress + Offset(sizeOfElement, head), d);
    var (t', h') := PushIndices(tail, head, n);
    PushOccupancy(tail, head, n);
    var k := Occupancy(tail, head, n);
    var w := Window(tail, n, k);
    var w' := Window(t', n, Occupancy(t', h', n));
    FullIffCapacityReached(tail, head, n);
    if IsFull(tail, head, n) {
      PushFullWindow(tail, head, n);
    } else {
      PushWindow(tail, head, n);
    }
    assert w' == if k < n - 1 then w + [head] else (w + [head])[1..];
    AppendBounded(m, startAddress, sizeOfElement, n, w, head, d, n - 1);
    PersistKeepsSlots(m1, startAddress, sizeOfElement, n, pointersAddress, t', h', w');
  }

  /** Overwriting slot `j`, not among the slots `w`, and appending `j` to a
      window of capacity `cap` pushes the new bytes onto the elements of `w`
      as a bounded FIFO. */
  lemma {:induction false} AppendBounded(m: seq<byte>, startAddress: nat, sizeOfElement: nat, n: nat, w: seq<nat>, j: nat,
                                         d: seq<byte>, cap: nat)
    requires startAddress + Offset(sizeOfElement, n) <= |m| && j < n && |d| == sizeOfElement
    requires forall i :: 0 <= i < |w| ==> w[i] < n
    requires j !in w && |w| <= cap
    ensures startAddress + Offset(sizeOfElement, j) + sizeOfElement <= |m|
    ensures Elements(Overwrite(m, startAddress + Offset(sizeOfElement, j), d), startAddress, sizeOfElement, n,
                     if |w| < cap then w + [j] else (w + [j])[1..])
         == FifoPush(Elements(m, startAddress, sizeOfElement, n, w), d, cap)
  {
    AppendWritten(m, startAddress, sizeOfElement, n, w, j, d);
    if |w| >= cap {
      ElementsSlice(Overwrite(m, startAddress + Offset(sizeOfElement, j), d), startAddress, sizeOfElement, n, w + [j], 1, |w| + 1);
    }
  }

  /** `setPointers` with indices whose window is the slice `lo..hi` of the
      window of (tail, head): the contents become that slice of the old
      contents, and the record for the new indices is stored. */
  lemma {:induction false} PersistSubWindow(m: seq<byte>, startAddress: u32, sizeOfElement: byte, n: u32, pointersAddress: u32,
                                            tail: u32, head: u32, tail': u32, head': u32, lo: nat, hi: nat)
    requires Geometry(|m|, startAddress, sizeOfElement, n, pointersAddress)
    requires lo <= hi <= Occupancy(tail, head, n)
    requires Window(tail', n, Occupancy(tail', head', n)) == Window(tail, n, Occupancy(tail, head, n))[lo..hi]
    ensures var m2 := PointersWrite(m, startAddress, pointersAddress, tail', head');
      && Contents(m2, startAddress, sizeOfElement, n, tail', head') == Contents(m, startAddress, sizeOfElement, n, tail, head)[lo..hi]
      && m2[pointersAddress..pointersAddress + PointersSize] == EncodePointers(MakePointers(pointersAddress, tail', head'))
  {
    var w := Window(tail, n, Occupancy(tail, head, n));
    PersistKeepsSlots(m, startAddress, sizeOfElement, n, pointersAddress, tail', head', w[lo..hi]);
    ElementsSlice(m, startAddress, sizeOfElement, n, w, lo, hi);
  }

  /** `pop` / `popFirstElement`, on a placed non-empty ring with tail and
      head in range: the bytes read at the tail are the oldest element. */
  lemma {:induction false} PopFirstReadsOldest(m: seq<byte>, startAddress: u32, sizeOfElement: byte, n: u32, pointersAddress: u32,
                                               tail: u32, head: u32, buffer: seq<byte>)
    requires Geometry(|m|, startAddress, sizeOfElement, n, pointersAddress) && InRange(tail, head, n)
    requires !IsEmpty(tail, head) && sizeOfElement <= |buffer|
    ensures var c := Contents(m, startAddress, sizeOfElement, n, tail, head);
      && |c| > 0
      && ReadInto(buffer, m, FramArray.ElementAddress(startAddress, tail, sizeOfElement), sizeOfElement)[..sizeOfElement] == c[0]
  {
    ReadSlot(m, startAddress, sizeOfElement, n, pointersAddress, tail, buffer);
    PopFirstWindow(tail, head, n);
  }

  /** `pop` / `popFirstElement`, on a placed non-empty ring with tail and
      head in range: after the tail advances and the record is stored, the
      contents are the old ones without the oldest element. */
  lemma {:induction false} PopFirstLeavesRest(m: seq<byte>, startAddress: u32, sizeOfElement: byte, n: u32, pointersAddress: u32,
                                              tail: u32, head: u32)
    requires Geometry(|m|, startAddress, sizeOfElement, n, pointersAddress) && InRange(tail, head, n)
    requires !IsEmpty(tail, head)
    ensures var c := Contents(m, startAddress, sizeOfElement, n, tail, head);
      var m2 := PointersWrite(m, startAddress, pointersAddress, Next(tail, n), head);
      && |c| > 0
      && InRange(Next(tail, n), head, n)
      && Contents(m2, startAddress, sizeOfElement, n, Next(tail, n), head) == c[1..]
      && m2[pointersAddress..pointersAddress + PointersSize] == EncodePointers(MakePointers(pointersAddress, Next(tail, n), head))
  {
    PopFirstWindow(tail, head, n);
    PersistSubWindow(m, startAddress, sizeOfElement, n, pointersAddress, tail, head, Next(tail, n), head, 1, Occupancy(tail, head, n));
  }

  /** `popLastElement`, on a placed non-empty ring with tail and head in
      range: the bytes read at the slot before the head are the newest
      element. */
  lemma {:induction false} PopLastReadsNewest(m: seq<byte>, startAddress: u32, sizeOfElement: byte, n: u32, pointersAddress: u32,
                                              tail: u32, head: u32, buffer: seq<byte>)
    requires Geometry(|m|, startAddress, sizeOfElement, n, pointersAddress) && InRange(tail, head, n)
    requires !IsEmpty(tail, head) && sizeOfElement <= |buffer|
    ensures var c := Contents(m, startAddress, sizeOfElement, n, tail, head);
      && |c| > 0
      && ReadInto(buffer, m, FramArray.ElementAddress(startAddress, Prev(head, n), sizeOfElement), sizeOfElement)[..sizeOfElement]
         == c[|c| - 1]
  {
    ReadSlot(m, startAddress, sizeOfElement, n, pointersAddress, Prev(head, n), buffer);
    PopLastWindow(tail, head, n);
  }

  /** `popLastElement`, on a placed non-empty ring with tail and head in
      range: after the head moves back and the record is stored, the
      contents are the old ones without the newest element. */
  lemma {:induction false} PopLastLeavesRest(m: seq<byte>, startAddress: u32, sizeOfElement: byte, n: u32, pointersAddress: u32,
                                             tail: u32, head: u32)
    requires Geometry(|m|, startAddress, sizeOfElement, n, pointersAddress) && InRange(tail, head, n)
    requires !IsEmpty(tail, head)
    ensures var c := Contents(m, startAddress, sizeOfElement, n, tail, head);
      var m2 := PointersWrite(m, startAddress, pointersAddress, tail, Prev(head, n));
      && |c| > 0
      && InRange(tail, Prev(head, n), n)
      && Contents(m2, startAddress, sizeOfElement, n, tail, Prev(head, n)) == c[..|c| - 1]
      && m2[pointersAddress..pointersAddress + PointersSize] == EncodePointers(MakePointers(pointersAddress, tail, Prev(head, n)))
  {
    PopLastWindow(tail, head, n);
    PersistSubWindow(m, startAddress, sizeOfElement, n, pointersAddress, tail, head, tail, Prev(head, n), 0, Occupancy(tail, head, n) - 1);
  }

  /** The zero-fill loop on the slot layout: slots 0 .. i-1 overwritten with
      zeros, one after another. */
  function ClearSlots(m: seq<byte>, startAddress: nat, sizeOfElement: nat, i: nat): (r: seq<byte>)
    requires startAddress + Offset(sizeOfElement, i) <= |m|
    ensures |r| == |m|
    decreases i
  {
    if i == 0 then m
    else Overwrite(ClearSlots(m, startAddress, sizeOfElement, i - 1), startAddress + Offset(sizeOfElement, i - 1), Zeros(sizeOfElement))
  }

  /** A zero write that passes its check is an overwrite with zeros. */
  lemma {:induction false} WriteZeros(m: seq<byte>, at: u32, sizeOfElement: byte)
    requires 0 < |m| <= 0x1_0000 && TransferCheck(|m| - 1, at, sizeOfElement) == FramOK
    ensures at + sizeOfElement <= |m|
    ensures WriteEffect(m, at, sizeOfElement, Zeros(sizeOfElement)) == Overwrite(m, at, Zeros(sizeOfElement))
  {
    assert Zeros(sizeOfElement)[..sizeOfElement] == Zeros(sizeOfElement);
  }

  /** One step of the zero-fill loop on a laid-out ring: writing zeros to
      slot `i` extends the zero fill by one slot. */
  lemma {:induction false} ZeroSlotStep(m0: seq<byte>, m: seq<byte>, startAddress: u32, sizeOfElement: byte, n: u32, pointersAddress: u32, i: u32)
    requires Geometry(|m|, startAddress, sizeOfElement, n, pointersAddress) && i < n && |m0| == |m|
    requires startAddress + Offset(sizeOfElement, i) <= |m0| && m == ClearSlots(m0, startAddress, sizeOfElement, i)
    ensures startAddress + Offset(sizeOfElement, i + 1) <= |m0|
    ensures WriteEffect(m, FramArray.ElementAddress(startAddress, i, sizeOfElement), sizeOfElement, Zeros(sizeOfElement))
         == ClearSlots(m0, startAddress, sizeOfElement, i + 1)
  {
    SlotTransfer(|m|, startAddress, sizeOfElement, n, pointersAddress, i);
    WriteZeros(m, FramArray.ElementAddress(startAddress, i, sizeOfElement), sizeOfElement);
  }

  /** After `i` steps of the zero-fill loop, those slots are zero and the
      later slots are untouched. */
  lemma {:induction false} ClearZeroes(m: seq<byte>, startAddress: nat, sizeOfElement: nat, n: nat, i: nat)
    requires startAddress + Offset(sizeOfElement, n) <= |m| && i <= n
    ensures startAddress + Offset(sizeOfElement, i) <= |m|
    ensures forall k :: 0 <= k < n ==>
      SlotIn(ClearSlots(m, startAddress, sizeOfElement, i), startAddress, sizeOfElement, n, k)
        == if k < i then Zeros(sizeOfElement) else SlotIn(m, startAddress, sizeOfElement, n, k)
    decreases i
  {
    if i > 0 {
      ClearZeroes(m, startAddress, sizeOfElement, n, i - 1);
      SlotFits(sizeOfElement, i - 1, n);
      var prev := ClearSlots(m, startAddress, sizeOfElement, i - 1);
      forall k | 0 <= k < n
        ensures SlotIn(ClearSlots(m, startAddress, sizeOfElement, i), startAddress, sizeOfElement, n, k)
             == if k < i then Zeros(sizeOfElement) else SlotIn(m, startAddress, sizeOfElement, n, k)
      {
        ClearStep(m, prev, startAddress, sizeOfElement, n, i, k);
      }
    }
  }

  /** The zero-fill loop changes no byte before the first slot. */
  lemma {:induction false} ClearKeepsBefore(m: seq<byte>, startAddress: nat, sizeOfElement: nat, i: nat)
    requires startAddress + Offset(sizeOfElement, i) <= |m|
    ensures ClearSlots(m, startAddress, sizeOfElement, i)[..startAddress] == m[..startAddress]
    decreases i
  {
    if i > 0 {
      ClearKeepsBefore(m, startAddress, sizeOfElement, i - 1);
      var at := startAddress + Offset(sizeOfElement, i - 1);
      OverwriteOutside(ClearSlots(m, startAddress, sizeOfElement, i - 1), at, Zeros(sizeOfElement), startAddress, at + sizeOfElement);
    }
  }

  /** The zero-fill loop changes no byte from `hi` on, when its slots end at
      or before `hi`. */
  lemma {:induction false} ClearKeepsAfter(m: seq<byte>, startAddress: nat, sizeOfElement: nat, i: nat, hi: nat)
    requires startAddress + Offset(sizeOfElement, i) <= hi <= |m|
    ensures ClearSlots(m, startAddress, sizeOfElement, i)[hi..] == m[hi..]
    decreases i
  {
    if i > 0 {
      ClearKeepsAfter(m, startAddress, sizeOfElement, i - 1, hi);
      var at := startAddress + Offset(sizeOfElement, i - 1);
      OverwriteOutside(ClearSlots(m, startAddress, sizeOfElement, i - 1), at, Zeros(sizeOfElement), at, hi);
    }
  }

  /** `clearArray` on a laid-out ring: after the zero-fill loop and the
      record of (0, 0), every slot holds zeros. */
  lemma {:induction false} ClearedSlotsZero(m: seq<byte>, startAddress: u32, sizeOfElement: byte, n: u32, pointersAddress: u32)
    requires Geometry(|m|, startAddress, sizeOfElement, n, pointersAddress)
    ensures startAddress + Offset(sizeOfElement, n) <= |m|
    ensures var r := PointersWrite(ClearSlots(m, startAddress, sizeOfElement, n), startAddress, pointersAddress, 0, 0);
      forall k :: 0 <= k < n ==> SlotIn(r, startAddress, sizeOfElement, n, k) == Zeros(sizeOfElement)
  {
    ClearZeroes(m, startAddress, sizeOfElement, n, n);
    PersistKeepsEachSlot(ClearSlots(m, startAddress, sizeOfElement, n), startAddress, sizeOfElement, n, pointersAddress, 0, 0);
  }

  /** `clearArray` on a laid-out ring leaves every byte below the start
      address as it was. */
  lemma {:induction false} ClearedKeepsPrefix(m: seq<byte>, startAddress: u32, sizeOfElement: byte, n: u32, pointersAddress: u32)
    requires Geometry(|m|, startAddress, sizeOfElement, n, pointersAddress)
    ensures startAddress + Offset(sizeOfElement, n) <= |m|
    ensures PointersWrite(ClearSlots(m, startAddress, sizeOfElement, n), startAddress, pointersAddress, 0, 0)[..startAddress]
         == m[..startAddress]
  {
    var c := ClearSlots(m, startAddress, sizeOfElement, n);
    ClearKeepsBefore(m, startAddress, sizeOfElement, n);
    var enc := EncodePointers(MakePointers(pointersAddress, 0, 0));
    assert PointersWrite(c, startAddress, pointersAddress, 0, 0) == Overwrite(c, pointersAddress, enc);
    OverwriteOutside(c, pointersAddress, enc, startAddress, |c|);
  }

  /** `clearArray` on a laid-out ring leaves every byte after the pointer
      record as it was. */
  lemma {:induction false} ClearedKeepsSuffix(m: seq<byte>, startAddress: u32, sizeOfElement: byte, n: u32, pointersAddress: u32)
    requires Geometry(|m|, startAddress, sizeOfElement, n, pointersAddress)
    ensures startAddress + Offset(sizeOfElement, n) <= |m|
    ensures PointersWrite(ClearSlots(m, startAddress, sizeOfElement, n), startAddress, pointersAddress, 0, 0)[pointersAddress + PointersSize..]
         == m[pointersAddress + PointersSize..]
  {
    var c := ClearSlots(m, startAddress, sizeOfElement, n);
    ClearKeepsAfter(m, startAddress, sizeOfElement, n, pointersAddress + PointersSize);
    var enc := EncodePointers(MakePointers(pointersAddress, 0, 0));
    assert PointersWrite(c, startAddress, pointersAddress, 0, 0) == Overwrite(c, pointersAddress, enc);
    OverwriteOutside(c, pointersAddress, enc, pointersAddress, pointersAddress + PointersSize);
  }

  /** Overwriting inside [lo, hi) keeps what lies before `lo` and from `hi` on. */
  lemma {:induction false} OverwriteOutside(m: seq<byte>, at: nat, d: seq<byte>, lo: nat, hi: nat)
    requires lo <= at && at + |d| <= hi <= |m|
    ensures Overwrite(m, at, d)[..lo] == m[..lo]
    ensures Overwrite(m, at, d)[hi..] == m[hi..]
  {
  }

  /** One slot after one more step of the zero-fill loop. */
  lemma {:induction false} ClearStep(m: seq<byte>, prev: seq<byte>, startAddress: nat, sizeOfElement: nat, n: nat, i: nat, k: nat)
    requires startAddress + Offset(sizeOfElement, n) <= |m| == |prev| && 0 < i <= n && k < n
    requires SlotIn(prev, startAddress, sizeOfElement, n, k)
          == if k < i - 1 then Zeros(sizeOfElement) else SlotIn(m, startAddress, sizeOfElement, n, k)
    ensures startAddress + Offset(sizeOfElement, i - 1) + sizeOfElement <= |m|
    ensures SlotIn(Overwrite(prev, startAddress + Offset(sizeOfElement, i - 1), Zeros(sizeOfElement)), startAddress, sizeOfElement, n, k)
         == if k < i then Zeros(sizeOfElement) else SlotIn(m, startAddress, sizeOfElement, n, k)
  {
    SlotOverwrite(prev, startAddress, sizeOfElement, n, i - 1, Zeros(sizeOfElement), k);
    if k == i - 1 {
      assert !(k < i - 1);
    } else {
      assert (k < i) == (k < i - 1);
    }
  }

  /** A stored record is recovered exactly: after `setPointers` wrote the
      record for (tail, head), a later `getPointers` and check yield
      (tail, head), whatever `_pointers` held before. */
  lemma {:induction false} RecoverAfterPersist(m: seq<byte>, pointersAddress: u32, tail: u32, head: u32, previous: Pointers)
    requires 0 < |m| <= 0x1_0000
    requires TransferCheck(|m| - 1, pointersAddress, PointersSize) == FramOK
    requires m[pointersAddress..pointersAddress + PointersSize] == EncodePointers(MakePointers(pointersAddress, tail, head))
    ensures StoredPointers(m, pointersAddress, previous) == MakePointers(pointersAddress, tail, head)
    ensures Recover(pointersAddress, StoredPointers(m, pointersAddress, previous)) == (tail, head)
  {
    RecoverStored(pointersAddress, tail, head);
  }
}
