/** `FramI2CArray`: a fixed number of equal-sized elements stored back to
    back in one allocation of the storage device. A start address of 0 marks
    an array whose allocation was refused. */
module FramArray {
  import opened Word
  import opened FramTypes
  import opened Transfer
  import Allocation
  import opened FramDevice

  /** The chip address of element `index`: `start + index * size`, computed
      on `uint32_t`. */
  function ElementAddress(startAddress: u32, index: u32, sizeOfElement: byte): (a: u32)
    ensures startAddress + index * sizeOfElement < MOD32 ==> a == startAddress + index * sizeOfElement
  {
    Add32(startAddress, Mul32(index, sizeOfElement))
  }

  /** The result of `readElement` / `writeElement`: the start address is
      checked first, then the index, and only then is the transfer made. */
  function ElementCheck(top: nat, startAddress: u32, numberOfElements: u32, sizeOfElement: byte, index: u32): (r: FramResult)
    requires top <= 0xFFFF
    ensures r == FramBadArrayStartAddress <==> startAddress == 0
    ensures r == FramBadArrayIndex <==> startAddress != 0 && index >= numberOfElements
    ensures r == FramOK ==> startAddress != 0 && index < numberOfElements
  {
    if startAddress == 0 then FramBadArrayStartAddress
    else if index >= numberOfElements then FramBadArrayIndex
    else TransferCheck(top, ElementAddress(startAddress, index, sizeOfElement), sizeOfElement)
  }

  lemma {:induction false} MulLe(a: nat, b: nat, s: nat)
    requires a <= b
    ensures a * s <= b * s
  {
    assert b * s == a * s + (b - a) * s;
  }

  /** The elements of an array that fits below 2^32 are laid out back to
      back: element `i` ends at or before element `j > i` starts, and the
      last one ends at `start + count * size`. */
  lemma {:induction false} ElementsDisjoint(startAddress: u32, numberOfElements: u32, sizeOfElement: byte, i: u32, j: u32)
    requires startAddress + numberOfElements * sizeOfElement < MOD32
    requires i < j < numberOfElements
    ensures ElementAddress(startAddress, i, sizeOfElement) == startAddress + i * sizeOfElement
    ensures ElementAddress(startAddress, i, sizeOfElement) + sizeOfElement <= ElementAddress(startAddress, j, sizeOfElement)
    ensures ElementAddress(startAddress, j, sizeOfElement) + sizeOfElement <= startAddress + numberOfElements * sizeOfElement
  {
    MulLe(i + 1, j, sizeOfElement);
    MulLe(j + 1, numberOfElements, sizeOfElement);
    MulLe(j, numberOfElements, sizeOfElement);
  }

  /** Every element of an array placed inside the chip's user area is
      accessible, and exactly those are. */
  lemma {:induction false} PlacedElementsAccessible(top: nat, startAddress: u32, numberOfElements: u32, sizeOfElement: byte, index: u32)
    requires top <= 0xFFFF
    requires BottomAddress <= startAddress && startAddress + numberOfElements * sizeOfElement <= top + 1
    requires 0 < sizeOfElement <= MaxBufferSize
    ensures ElementCheck(top, startAddress, numberOfElements, sizeOfElement, index) == FramOK <==> index < numberOfElements
  {
    if index < numberOfElements {
      MulLe(index + 1, numberOfElements, sizeOfElement);
      MulLe(index, numberOfElements, sizeOfElement);
    }
  }

  /** Writing one element of a placed array leaves the bytes of every other
      element unchanged. */
  lemma {:induction false} ElementWriteIsolated(m: seq<byte>, startAddress: u32, numberOfElements: u32, sizeOfElement: byte,
                                               i: u32, j: u32, data: seq<byte>)
    requires 0 < |m| <= 0x1_0000
    requires startAddress + numberOfElements * sizeOfElement <= |m|
    requires i < numberOfElements && j < numberOfElements && i != j && sizeOfElement <= |data|
    ensures var a := ElementAddress(startAddress, j, sizeOfElement);
      && a + sizeOfElement <= |m|
      && WriteEffect(m, ElementAddress(startAddress, i, sizeOfElement), sizeOfElement, data)[a..a + sizeOfElement] == m[a..a + sizeOfElement]
  {
    var ai := ElementAddress(startAddress, i, sizeOfElement);
    var aj := ElementAddress(startAddress, j, sizeOfElement);
    if i < j {
      ElementsDisjoint(startAddress, numberOfElements, sizeOfElement, i, j);
    } else {
      ElementsDisjoint(startAddress, numberOfElements, sizeOfElement, j, i);
    }
    if TransferCheck(|m| - 1, ai, sizeOfElement) == FramOK {
      OverwriteElsewhere(m, ai, data[..sizeOfElement], aj, aj + sizeOfElement);
    }
  }

  class FramI2CArray {
    /** `_f` */
    const f: FramI2C
    /** `_numberOfElements` */
    const numberOfElements: u32
    /** `_sizeOfElement` */
    const sizeOfElement: byte
    /** `_startAddress`; 0 when the array could not be created */
    const startAddress: u32

    constructor Place(f: FramI2C, numberOfElements: u32, sizeOfElement: byte, startAddress: u32)
      ensures this.f == f && this.numberOfElements == numberOfElements
      ensures this.sizeOfElement == sizeOfElement && this.startAddress == startAddress
    {
      this.f := f;
      this.numberOfElements := numberOfElements;
      this.sizeOfElement := sizeOfElement;
      this.startAddress := startAddress;
    }

    /** The constructor `FramI2CArray(f, numberOfElements, sizeOfElement,
        result)`: an element must be smaller than the 128-byte transfer
        limit; the array then takes `count * size` bytes (a `uint32_t`
        product) from the device's allocator. */
    static method Create(f: FramI2C, numberOfElements: u32, sizeOfElement: byte) returns (a: FramI2CArray, result: FramResult)
      requires f.Valid()
      modifies f`nextFreeByte
      ensures f.Valid() && fresh(a)
      ensures a.f == f && a.numberOfElements == numberOfElements && a.sizeOfElement == sizeOfElement
      ensures sizeOfElement < MaxBufferSize ==>
        Allocation.Step(a.startAddress, result, f.nextFreeByte)
          == Allocation.Allocate(old(f.nextFreeByte), f.topAddress, Mul32(numberOfElements, sizeOfElement))
      ensures sizeOfElement >= MaxBufferSize ==>
        result == FramArrayElementTooBig && a.startAddress == 0 && f.nextFreeByte == old(f.nextFreeByte)
    {
      var startAddress: u32;
      if sizeOfElement < MaxBufferSize {
        startAddress, result := f.AllocateMemory(Mul32(numberOfElements, sizeOfElement));
      } else {
        result := FramArrayElementTooBig;
        startAddress := 0;
      }
      a := new FramI2CArray.Place(f, numberOfElements, sizeOfElement, startAddress);
    }

    /** `readElement(index, buffer, result)` */
    method ReadElement(index: u32, buffer: array<byte>) returns (result: FramResult)
      requires f.Valid() && buffer != f.mem
      requires ElementCheck(f.topAddress, startAddress, numberOfElements, sizeOfElement, index) == FramOK ==> sizeOfElement <= buffer.Length
      modifies buffer
      ensures result == ElementCheck(f.topAddress, startAddress, numberOfElements, sizeOfElement, index)
      ensures result == FramOK ==>
        buffer[..] == ReadInto(old(buffer[..]), f.mem[..], ElementAddress(startAddress, index, sizeOfElement), sizeOfElement)
      ensures result != FramOK ==> buffer[..] == old(buffer[..])
    {
      if startAddress == 0 {
        result := FramBadArrayStartAddress;
      } else if index >= numberOfElements {
        result := FramBadArrayIndex;
      } else {
        ghost var chunks;
        result, chunks := f.Read(ElementAddress(startAddress, index, sizeOfElement), sizeOfElement, buffer);
      }
    }

    /** `writeElement(index, buffer, result)` */
    method WriteElement(index: u32, buffer: seq<byte>) returns (result: FramResult)
      requires f.Valid()
      requires ElementCheck(f.topAddress, startAddress, numberOfElements, sizeOfElement, index) == FramOK ==> sizeOfElement <= |buffer|
      modifies f.mem
      ensures result == ElementCheck(f.topAddress, startAddress, numberOfElements, sizeOfElement, index)
      ensures result == FramOK ==>
        f.mem[..] == WriteEffect(old(f.mem[..]), ElementAddress(startAddress, index, sizeOfElement), sizeOfElement, buffer)
      ensures result != FramOK ==> f.mem[..] == old(f.mem[..])
    {
      if startAddress == 0 {
        result := FramBadArrayStartAddress;
      } else if index >= numberOfElements {
        result := FramBadArrayIndex;
      } else {
        ghost var chunks;
        result, chunks := f.Write(ElementAddress(startAddress, index, sizeOfElement), sizeOfElement, buffer);
      }
    }
  }
}
