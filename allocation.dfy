/** The storage device's grow-only bump allocator, as a function of its
    cursor `_nextFreeByte`. The sum of cursor and request is a `uint32_t`
    and wraps; the allocator's guarantees hold for requests that do not. */
module Allocation {
  import opened Word
  import opened FramTypes

  /** What one `allocateMemory` call returns and leaves behind. */
  datatype Step = Step(base: u32, result: FramResult, cursor: u32)

  /** `allocateMemory(numberOfBytes)` with cursor `cursor` on a chip whose
      highest address is `top`: the request is granted when the wrapped sum
      stays strictly below `top`. */
  function Allocate(cursor: u32, top: nat, numberOfBytes: u32): (s: Step)
    requires cursor <= 0xFFFF
    ensures s.result == FramOK <==> Add32(cursor, numberOfBytes) < top
    ensures s.result == FramOK ==> s.base == cursor && s.cursor == Add32(cursor, numberOfBytes)
    ensures s.result != FramOK ==> s == Step(0, FramBadFinishAddress, cursor)
  {
    if Add32(cursor, numberOfBytes) < top
    then Step(cursor % 0x1_0000, FramOK, Add32(cursor, numberOfBytes))
    else Step(0, FramBadFinishAddress, cursor)
  }

  /** A request that cannot wrap: the cursor is a 16-bit address. */
  predicate NoWrap(numberOfBytes: u32)
  {
    numberOfBytes <= MOD32 - 0x1_0000
  }

  /** The steps of a sequence of `allocateMemory` calls from cursor `cursor`. */
  function AllocateAll(cursor: u32, top: nat, requests: seq<u32>): (steps: seq<Step>)
    requires cursor < top <= 0xFFFF
    ensures |steps| == |requests|
    ensures forall i :: 0 <= i < |steps| ==> steps[i].cursor < top
    decreases |requests|
  {
    if requests == [] then []
    else
      var s := Allocate(cursor, top, requests[0]);
      assert s.cursor < top;
      var rest := AllocateAll(s.cursor, top, requests[1..]);
      assert ([s] + rest)[1..] == rest;
      [s] + rest
  }

  /** The cursor after a sequence of `allocateMemory` calls. */
  function FinalCursor(cursor: u32, top: nat, requests: seq<u32>): (c: u32)
    requires cursor < top <= 0xFFFF
    ensures c < top
    decreases |requests|
  {
    if requests == [] then cursor
    else FinalCursor(Allocate(cursor, top, requests[0]).cursor, top, requests[1..])
  }

  /** For requests that do not wrap, a granted request returns the cursor and
      advances it by exactly the request, so the cursor never decreases and
      the granted range lies below `top`. */
  lemma {:induction false} GrantedStep(cursor: u32, top: nat, numberOfBytes: u32)
    requires cursor < top <= 0xFFFF && NoWrap(numberOfBytes)
    ensures Allocate(cursor, top, numberOfBytes).result == FramOK <==> cursor + numberOfBytes < top
    ensures cursor <= Allocate(cursor, top, numberOfBytes).cursor
    ensures Allocate(cursor, top, numberOfBytes).result == FramOK ==>
      Allocate(cursor, top, numberOfBytes).cursor == cursor + numberOfBytes
  {
  }

  /** Over any sequence of non-wrapping requests, the granted ranges
      [base, base + request) are pairwise disjoint and in increasing order,
      and all lie within [cursor, final cursor) -- so none starts at 0 when
      the cursor starts at `_bottomAddress`. */
  lemma {:induction false} AllocationsDisjoint(cursor: u32, top: nat, requests: seq<u32>, i: nat, j: nat)
    requires cursor < top <= 0xFFFF
    requires forall k :: 0 <= k < |requests| ==> NoWrap(requests[k])
    requires i < j < |requests|
    requires AllocateAll(cursor, top, requests)[i].result == FramOK
    requires AllocateAll(cursor, top, requests)[j].result == FramOK
    ensures cursor <= AllocateAll(cursor, top, requests)[i].base
    ensures AllocateAll(cursor, top, requests)[i].base + requests[i] <= AllocateAll(cursor, top, requests)[j].base
    ensures AllocateAll(cursor, top, requests)[j].base + requests[j] <= FinalCursor(cursor, top, requests)
    decreases |requests|
  {
    var s := Allocate(cursor, top, requests[0]);
    GrantedStep(cursor, top, requests[0]);
    var rest := requests[1..];
    assert forall k :: 0 <= k < |rest| ==> NoWrap(rest[k]);
    var steps, later := AllocateAll(cursor, top, requests), AllocateAll(s.cursor, top, rest);
    assert steps[1..] == later;
    assert steps[j] == later[j - 1];
    assert FinalCursor(cursor, top, requests) == FinalCursor(s.cursor, top, rest);
    if i == 0 {
      GrantedLater(s.cursor, top, rest, j - 1);
    } else {
      assert steps[i] == later[i - 1];
      AllocationsDisjoint(s.cursor, top, rest, i - 1, j - 1);
    }
  }

  /** A granted request of a non-wrapping sequence starts at or after the
      cursor the sequence starts from and ends at or before its final cursor. */
  lemma {:induction false} GrantedLater(cursor: u32, top: nat, requests: seq<u32>, j: nat)
    requires cursor < top <= 0xFFFF
    requires forall k :: 0 <= k < |requests| ==> NoWrap(requests[k])
    requires j < |requests|
    requires AllocateAll(cursor, top, requests)[j].result == FramOK
    ensures cursor <= AllocateAll(cursor, top, requests)[j].base
    ensures AllocateAll(cursor, top, requests)[j].base + requests[j] <= FinalCursor(cursor, top, requests)
    decreases |requests|
  {
    var s := Allocate(cursor, top, requests[0]);
    GrantedStep(cursor, top, requests[0]);
    var rest := requests[1..];
    assert forall k :: 0 <= k < |rest| ==> NoWrap(rest[k]);
    CursorMonotone(s.cursor, top, rest);
    if j > 0 {
      assert AllocateAll(cursor, top, requests)[j] == AllocateAll(s.cursor, top, rest)[j - 1];
      GrantedLater(s.cursor, top, rest, j - 1);
    }
  }

  /** For non-wrapping requests the cursor never decreases. */
  lemma {:induction false} CursorMonotone(cursor: u32, top: nat, requests: seq<u32>)
    requires cursor < top <= 0xFFFF
    requires forall k :: 0 <= k < |requests| ==> NoWrap(requests[k])
    ensures cursor <= FinalCursor(cursor, top, requests)
    decreases |requests|
  {
    if requests != [] {
      var s := Allocate(cursor, top, requests[0]);
      GrantedStep(cursor, top, requests[0]);
      var rest := requests[1..];
      assert forall k :: 0 <= k < |rest| ==> NoWrap(rest[k]);
      CursorMonotone(s.cursor, top, rest);
    }
  }

  /** A request whose sum with the cursor wraps past 2^32 is granted and
      moves the cursor back below `_bottomAddress`, after which a later
      request is granted address 0, the value that also means "failed". */
  lemma WrappingRequestMovesCursorBack(top: nat)
    requires BottomAddress < top <= 0xFFFF
    ensures Allocate(BottomAddress, top, MOD32 - BottomAddress) == Step(BottomAddress, FramOK, 0)
    ensures Allocate(0, top, 1) == Step(0, FramOK, 1)
  {
  }
}
