/** The library's usage pattern, end to end on a concrete chip: a ring that
    overwrites its oldest element, survives a restart of the program, and an
    array whose elements are written and read independently. */
module Scenarios {
  import opened Word
  import opened FramTypes
  import opened Transfer
  import opened Trailer
  import opened RingIndex
  import opened RingLayout
  import opened FramDevice
  import opened FramArray
  import opened RingBuffer

  /** A new device object over `chip` (the default part) and a ring of
      four one-byte elements on it, initialized: its five slots lie at
      128..132 and its record at 133, and it adopts the indices of a
      consistent record found there. */
  method OpenRing(chip: array<byte>) returns (ring: RingFramArray)
    requires chip.Length == TopAddressForPartNumber(DefaultPartNumber) + 1
    modifies chip
    ensures fresh(ring) && fresh(ring.f) && ring.f.mem == chip && ring.Laid()
    ensures ring.numberOfElements == 5 && ring.sizeOfElement == 1
    ensures ring.startAddress == 128 && ring.pointersAddress == 133
    ensures (ring.tailAddress, ring.headAddress) == Recover(133, DecodePointers(old(chip[133..145])))
    ensures chip[..] == PointersWrite(old(chip[..]), 128, 133, ring.tailAddress, ring.headAddress)
  {
    var f := new FramI2C(DefaultPartNumber, chip);
    var result;
    ring, result := RingFramArray.Create(f, 4, 1);
    assert ring.numberOfElements == 5 && ring.startAddress == 128 && ring.ringEndAddress == 145;
    ring.Initialize();
    OffsetIsProduct(1, 5);
  }

  /** Push the one-byte element `[b]` into a placed ring of one-byte
      elements. */
  method PushByte(ring: RingFramArray, b: byte)
    requires ring.Placed() && ring.sizeOfElement == 1
    modifies ring`tailAddress, ring`headAddress, ring`pointers, ring.f.mem
    ensures ring.Placed() && ring.Persisted()
    ensures ring.Contents() == FifoPush(old(ring.Contents()), [b], ring.numberOfElements - 1)
  {
    var x: seq<byte> := [b];
    assert x[..1] == [b];
    ring.Push(x);
  }

  /** A push into a ring with a free place appends the element. */
  method PushByteAppends(ring: RingFramArray, b: byte)
    requires ring.Placed() && ring.sizeOfElement == 1 && |ring.Contents()| < ring.numberOfElements - 1
    modifies ring`tailAddress, ring`headAddress, ring`pointers, ring.f.mem
    ensures ring.Placed() && ring.Persisted()
    ensures ring.Contents() == old(ring.Contents()) + [[b]]
  {
    PushByte(ring, b);
  }

  /** A push into a full ring drops the oldest element and appends the new
      one. */
  method PushByteDrops(ring: RingFramArray, b: byte)
    requires ring.Placed() && ring.sizeOfElement == 1 && 1 < ring.numberOfElements
    requires |ring.Contents()| == ring.numberOfElements - 1
    modifies ring`tailAddress, ring`headAddress, ring`pointers, ring.f.mem
    ensures ring.Placed() && ring.Persisted()
    ensures ring.Contents() == old(ring.Contents())[1..] + [[b]]
  {
    ghost var c := ring.Contents();
    PushByte(ring, b);
    assert (c + [[b]])[1..] == c[1..] + [[b]];
  }

  /** `clearArray` on a laid-out ring empties it. */
  method Clear(ring: RingFramArray)
    requires ring.Laid()
    modifies ring`tailAddress, ring`headAddress, ring`pointers, ring.f.mem
    ensures ring.Placed() && ring.Persisted() && ring.Contents() == []
  {
    ring.ClearArray();
  }

  /** Clear the ring of `OpenRing` and push two elements. */
  method ClearPushTwo(ring: RingFramArray)
    requires ring.Laid() && ring.numberOfElements == 5 && ring.sizeOfElement == 1
    modifies ring`tailAddress, ring`headAddress, ring`pointers, ring.f.mem
    ensures ring.Placed() && ring.Contents() == [[1], [2]]
  {
    Clear(ring);
    PushByteAppends(ring, 1);
    PushByteAppends(ring, 2);
  }

  /** Three more pushes into the four places: the third of them drops the
      oldest element. */
  method PushThreeMore(ring: RingFramArray)
    requires ring.Placed() && ring.numberOfElements == 5 && ring.sizeOfElement == 1
    requires ring.Contents() == [[1], [2]]
    modifies ring`tailAddress, ring`headAddress, ring`pointers, ring.f.mem
    ensures ring.Placed() && ring.Contents() == [[2], [3], [4], [5]]
  {
    PushByteAppends(ring, 3);
    PushByteAppends(ring, 4);
    assert ring.Contents() == [[1], [2], [3], [4]];
    PushByteDrops(ring, 5);
  }

  /** Fill the ring of `OpenRing` with five elements and pop one: the first
      element was dropped when the fifth arrived and the second is popped. */
  method PushFivePopOne(ring: RingFramArray) returns (popped: seq<byte>)
    requires ring.Laid() && ring.numberOfElements == 5 && ring.sizeOfElement == 1
    modifies ring`tailAddress, ring`headAddress, ring`pointers, ring.f.mem
    ensures popped == [2]
    ensures ring.Placed() && ring.Persisted() && ring.Contents() == [[3], [4], [5]]
  {
    ClearPushTwo(ring);
    PushThreeMore(ring);
    var out := new byte[1];
    var ok := ring.Pop(out);
    popped := out[..];
  }

  /** The ring's contents survive a restart: a new device object and ring
      over the same chip hold, after `initialize`, the elements left by the
      first one. */
  method RingSurvivesRestart(chip: array<byte>) returns (popped: seq<byte>, restarted: RingFramArray)
    requires chip.Length == TopAddressForPartNumber(DefaultPartNumber) + 1
    modifies chip
    ensures popped == [2]
    ensures restarted.Placed() && restarted.Contents() == [[3], [4], [5]]
  {
    var ring := OpenRing(chip);
    popped := PushFivePopOne(ring);
    ghost var t, h := ring.tailAddress, ring.headAddress;
    ghost var m := chip[..];
    assert m[133..145] == EncodePointers(MakePointers(133, t, h));
    restarted := OpenRing(chip);
    RecoverStored(133, t, h);
    assert restarted.tailAddress == t && restarted.headAddress == h;
    PersistKeepsSlots(m, 128, 1, 5, 133, t, h, Window(t, 5, Occupancy(t, h, 5)));
  }

  /** An array of ten four-byte elements: an element written and then
      another one written reads back as first written. */
  method ArrayElementsIndependent(chip: array<byte>) returns (readBack: seq<byte>)
    requires chip.Length == TopAddressForPartNumber(DefaultPartNumber) + 1
    modifies chip
    ensures readBack == [9, 8, 7, 6]
  {
    var f := new FramI2C(DefaultPartNumber, chip);
    var a, result := FramI2CArray.Create(f, 10, 4);
    assert a.startAddress == 128;
    PlacedElementsAccessible(f.topAddress, 128, 10, 4, 3);
    PlacedElementsAccessible(f.topAddress, 128, 10, 4, 4);
    ghost var m0 := chip[..];
    var r1 := a.WriteElement(3, [9, 8, 7, 6]);
    ghost var m1 := chip[..];
    var r2 := a.WriteElement(4, [1, 1, 1, 1]);
    ElementWriteIsolated(m1, 128, 10, 4, 4, 3, [1, 1, 1, 1]);
    var out := new byte[4];
    var r3 := a.ReadElement(3, out);
    readBack := out[..];
  }
}
