/** The declarations of the library header: supported parts, result codes
    and the transfer-buffer bound. */
module FramTypes {
  import opened Wrappers

  /** `framPartNumber`: the usable MB85RC parts (the 2KB and 128KB parts are
      commented out in the header). */
  datatype PartNumber =
    | MB85RC64      // 8KB
    | MB85RC128A    // 16KB older model
    | MB85RC128B    // 16KB newer model
    | MB85RC256A    // 32KB older model
    | MB85RC256B    // 32KB newer model
    | MB85RC256V    // 32KB
    | MB85RC512T    // 64KB

  /** `numberOfPartNumbers`, the enumerator after the last part. */
  const NumberOfPartNumbers: nat := 7

  /** The default argument of the `FramI2C` constructor. */
  const DefaultPartNumber: PartNumber := MB85RC128A

  /** The enumerator value of a part. */
  function PartIndex(p: PartNumber): (i: nat)
    ensures i < NumberOfPartNumbers
  {
    match p
    case MB85RC64 => 0
    case MB85RC128A => 1
    case MB85RC128B => 2
    case MB85RC256A => 3
    case MB85RC256B => 4
    case MB85RC256V => 5
    case MB85RC512T => 6
  }

  /** The part with a given enumerator value, if any. */
  function PartFromIndex(i: nat): (p: Option<PartNumber>)
    ensures p.Some? <==> i < NumberOfPartNumbers
  {
    if i == 0 then Some(MB85RC64)
    else if i == 1 then Some(MB85RC128A)
    else if i == 2 then Some(MB85RC128B)
    else if i == 3 then Some(MB85RC256A)
    else if i == 4 then Some(MB85RC256B)
    else if i == 5 then Some(MB85RC256V)
    else if i == 6 then Some(MB85RC512T)
    else None
  }

  /** The enumerators of the parts are exactly 0 .. numberOfPartNumbers-1,
      one per part, so `numberOfPartNumbers` sizes the top-address table. */
  lemma PartIndexBijective(p: PartNumber, i: nat)
    ensures PartFromIndex(PartIndex(p)) == Some(p)
    ensures i < NumberOfPartNumbers ==> PartIndex(PartFromIndex(i).value) == i
  {
  }

  /** `_topAddressForPartNumber`: the highest byte address of each part. */
  function TopAddressForPartNumber(p: PartNumber): (top: nat)
    ensures 0x1FFF <= top <= 0xFFFF
    ensures (top + 1) % 0x2000 == 0
  {
    match p
    case MB85RC64 => 0x001FFF
    case MB85RC128A => 0x003FFF
    case MB85RC128B => 0x003FFF
    case MB85RC256A => 0x007FFF
    case MB85RC256B => 0x007FFF
    case MB85RC256V => 0x007FFF
    case MB85RC512T => 0x00FFFF
  }

  /** `framResult`: every outcome is a returned value. */
  datatype FramResult =
    | FramOK
    | FramBadStartAddress
    | FramBadNumberOfBytes
    | FramBadFinishAddress
    | FramArrayElementTooBig
    | FramBadArrayIndex
    | FramBadArrayStartAddress
    | FramBadResponse
    | FramPartNumberMismatch
    | FramUnknownError

  /** The numeric value of a result code. */
  function ResultCode(r: FramResult): (c: nat)
    ensures c == 0 <==> r == FramOK
    ensures c <= 8 || c == 99
  {
    match r
    case FramOK => 0
    case FramBadStartAddress => 1
    case FramBadNumberOfBytes => 2
    case FramBadFinishAddress => 3
    case FramArrayElementTooBig => 4
    case FramBadArrayIndex => 5
    case FramBadArrayStartAddress => 6
    case FramBadResponse => 7
    case FramPartNumberMismatch => 8
    case FramUnknownError => 99
  }

  /** Distinct results have distinct codes. */
  lemma ResultCodeInjective(r1: FramResult, r2: FramResult)
    ensures ResultCode(r1) == ResultCode(r2) ==> r1 == r2
  {
  }

  /** `_maxBufferSize`: the largest single `read`/`write`, and the size of the
      control block. */
  const MaxBufferSize: nat := 128

  /** `_baseAddress`: the control block starts at address 0. */
  const BaseAddress: nat := 0

  /** `_bottomAddress`: the first address `read`, `write` and the allocator use. */
  const BottomAddress: nat := BaseAddress + MaxBufferSize
}

/** Option, as used for partial decodings. */
module Wrappers {
  datatype Option<+T> = None | Some(value: T)
}
