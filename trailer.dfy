/** The ring buffer's persisted pointer record `addr_t {pointerCheck, tail,
    head}`: three `uint32_t` fields, stored as the 12 bytes of the struct in
    the target's little-endian order, and the checksum rule that decides
    whether a stored record is adopted. */
module Trailer {
  import opened Word

  /** `addr_t` */
  datatype Pointers = Pointers(pointerCheck: u32, tail: u32, head: u32)

  /** `sizeof(_pointers)` */
  const PointersSize: nat := 12

  /** The four bytes of a `uint32_t`, least significant first. */
  function EncodeU32(x: u32): (b: seq<byte>)
    ensures |b| == 4
  {
    [x % 0x100, (x / 0x100) % 0x100, (x / 0x100 / 0x100) % 0x100, x / 0x100 / 0x100 / 0x100]
  }

  /** The `uint32_t` held in four little-endian bytes: every 4-byte pattern
      is the encoding of the value decoded from it. */
  function DecodeU32(b: seq<byte>): (x: u32)
    requires |b| == 4
    ensures EncodeU32(x) == b
  {
    var b0: int, b1: int, b2: int, b3: int := b[0], b[1], b[2], b[3];
    var s := b2 + 0x100 * b3;
    var r := b1 + 0x100 * s;
    DivMod256(b0 + 0x100 * r, b0, r);
    DivMod256(r, b1, s);
    DivMod256(s, b2, b3);
    b0 + 0x100 * r
  }

  /** One step of a base-256 expansion. */
  lemma DivMod256(x: int, lo: int, hi: int)
    requires 0 <= lo < 0x100 && 0 <= hi && x == lo + 0x100 * hi
    ensures x % 0x100 == lo && x / 0x100 == hi
  {
  }

  lemma {:induction false} DecodeEncodeU32(x: u32)
    ensures DecodeU32(EncodeU32(x)) == x
  {
    DivMod256(x, x % 0x100, x / 0x100);
    DivMod256(x / 0x100, (x / 0x100) % 0x100, x / 0x100 / 0x100);
    DivMod256(x / 0x100 / 0x100, (x / 0x100 / 0x100) % 0x100, x / 0x100 / 0x100 / 0x100);
  }

  /** The 12 bytes of an `addr_t`, field order pointerCheck, tail, head. */
  function EncodePointers(p: Pointers): (b: seq<byte>)
    ensures |b| == PointersSize
    ensures b[0..4] == EncodeU32(p.pointerCheck)
    ensures b[4..8] == EncodeU32(p.tail)
    ensures b[8..12] == EncodeU32(p.head)
  {
    EncodeU32(p.pointerCheck) + EncodeU32(p.tail) + EncodeU32(p.head)
  }

  /** The `addr_t` that 12 stored bytes hold: every 12-byte pattern is the
      image of the record decoded from it. */
  function DecodePointers(b: seq<byte>): (p: Pointers)
    requires |b| == PointersSize
    ensures EncodePointers(p) == b
  {
    assert b == b[0..4] + b[4..8] + b[8..12];
    Pointers(DecodeU32(b[0..4]), DecodeU32(b[4..8]), DecodeU32(b[8..12]))
  }

  /** Reading back a stored record gives the record that was stored. */
  lemma {:induction false} DecodeEncodePointers(p: Pointers)
    ensures DecodePointers(EncodePointers(p)) == p
  {
    DecodeEncodeU32(p.pointerCheck);
    DecodeEncodeU32(p.tail);
    DecodeEncodeU32(p.head);
  }

  /** The check word `_pointersAddress + tail + head`, computed on `uint32_t`. */
  function PointerCheck(pointersAddress: u32, tail: u32, head: u32): (c: u32)
    ensures pointersAddress + tail + head < MOD32 ==> c == pointersAddress + tail + head
  {
    Add32(Add32(pointersAddress, tail), head)
  }

  /** The record `setPointers` stores for the indices (tail, head). */
  function MakePointers(pointersAddress: u32, tail: u32, head: u32): (p: Pointers)
    ensures p.tail == tail && p.head == head
    ensures Consistent(pointersAddress, p)
  {
    Pointers(PointerCheck(pointersAddress, tail, head), tail, head)
  }

  /** A record whose check word matches its indices at this address. */
  predicate Consistent(pointersAddress: u32, p: Pointers)
  {
    PointerCheck(pointersAddress, p.tail, p.head) == p.pointerCheck
  }

  /** The indices `initialize` takes from a record: the stored ones if the
      check word matches, otherwise (0, 0). */
  function Recover(pointersAddress: u32, p: Pointers): (r: (u32, u32))
    ensures Consistent(pointersAddress, p) ==> r == (p.tail, p.head)
    ensures !Consistent(pointersAddress, p) ==> r == (0, 0)
  {
    if PointerCheck(pointersAddress, p.tail, p.head) == p.pointerCheck then (p.tail, p.head) else (0, 0)
  }

  /** Storing the indices and recovering them from the stored bytes gives
      back the same indices. */
  lemma {:induction false} RecoverStored(pointersAddress: u32, tail: u32, head: u32)
    ensures Recover(pointersAddress, DecodePointers(EncodePointers(MakePointers(pointersAddress, tail, head)))) == (tail, head)
  {
    DecodeEncodePointers(MakePointers(pointersAddress, tail, head));
  }

  /** A stored record whose tail or head was altered while its check word was
      not is rejected, unless the alteration leaves the sum unchanged mod 2^32. */
  lemma {:induction false} CorruptedRecordRejected(pointersAddress: u32, tail: u32, head: u32, tail': u32, head': u32)
    requires Add32(tail', head') != Add32(tail, head)
    ensures Recover(pointersAddress, Pointers(PointerCheck(pointersAddress, tail, head), tail', head')) == (0, 0)
  {
    Add32Assoc(pointersAddress, tail, head);
    Add32Assoc(pointersAddress, tail', head');
    if PointerCheck(pointersAddress, tail', head') == PointerCheck(pointersAddress, tail, head) {
      Add32Cancel(pointersAddress, Add32(tail', head'), Add32(tail, head));
    }
  }
}
