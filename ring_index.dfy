/** The index arithmetic of `Ring_FramArray`: `myModulo` as the C code
    computes it, the tail/head transitions of push and pop, and what they do
    to the occupancy and to the slots that hold the live elements. `n` is the
    physical slot count, the requested count plus one. */
module RingIndex {
  import opened Word

  function Abs(x: int): int
  {
    if x < 0 then -x else x
  }

  /** C's `x % y` on `int`: the quotient is truncated toward zero, so the
      remainder takes the sign of `x`. */
  function CRem(x: int, y: int): (r: int)
    requires y != 0
    ensures -Abs(y) < r < Abs(y)
    ensures x >= 0 ==> r >= 0
    ensures x < 0 ==> r <= 0
    ensures (x - r) % Abs(y) == 0
  {
    var n := Abs(y);
    if x >= 0 then
      ModUnique(x - x % n, n, x / n, 0);
      x % n
    else
      ModUnique(x + (-x) % n, n, -((-x) / n), 0);
      -((-x) % n)
  }

  /** `myModulo(a, b)`: `(int)a % (int)b`, plus `b` when that is negative.
      The C code divides by zero when b == 0 and overflows for INT_MIN % -1. */
  function MyModulo(a: u32, b: u32): (r: u32)
    requires b != 0
    requires !(a == 0x8000_0000 && b == 0xFFFF_FFFF)
    ensures 0 < b < 0x8000_0000 ==> r == ToInt32(a) % b
  {
    var x := CRem(ToInt32(a), ToInt32(b));
    PositiveDivisor(ToInt32(a), ToInt32(b));
    if x >= 0 then x else (x + b) % MOD32
  }

  /** For a positive divisor, C's remainder is the Euclidean one, or that
      minus the divisor when it is negative. */
  lemma PositiveDivisor(v: int, b: int)
    requires b != 0
    ensures 0 < b && CRem(v, b) >= 0 ==> CRem(v, b) == v % b
    ensures 0 < b && CRem(v, b) < 0 ==> CRem(v, b) + b == v % b
  {
    if 0 < b && v < 0 {
      var k := -v;
      var q, rem := k / b, k % b;
      assert k == q * b + rem;
      if rem == 0 {
        ModUnique(v, b, -q, 0);
      } else {
        ModUnique(v, b, -q - 1, b - rem);
      }
    }
  }

  /** Quotient and remainder are unique. */
  lemma ModUnique(x: int, n: int, q: int, r: int)
    requires n > 0 && x == q * n + r && 0 <= r < n
    ensures x % n == r && x / n == q
  {
    var q0, r0 := x / n, x % n;
    assert x == q0 * n + r0;
    assert (q - q0) * n == r0 - r;
    if q > q0 {
      MulAtLeast(q - q0, n);
    } else if q < q0 {
      assert (q0 - q) * n == r - r0;
      MulAtLeast(q0 - q, n);
    }
  }

  lemma MulAtLeast(d: int, n: int)
    requires d >= 1 && n > 0
    ensures d * n >= n
  {
    assert d * n == n + (d - 1) * n;
  }

  /** `(x % n + y) % n == (x + y) % n` */
  lemma ModAdd(x: int, y: int, n: int)
    requires n > 0
    ensures (x % n + y) % n == (x + y) % n
  {
    var q := x / n;
    assert x == q * n + x % n;
    var s := x % n + y;
    ModUnique(x + y, n, q + s / n, s % n);
  }

  /** A physical slot count the indices can be reduced by: `myModulo` is
      defined and its signed cast leaves the divisor positive. */
  predicate SlotCount(n: u32)
  {
    0 < n < 0x8000_0000
  }

  /** The index after `i`, as push and pop compute it: `myModulo(i + 1, n)`. */
  function Next(i: u32, n: u32): (r: u32)
    requires SlotCount(n)
    ensures r < n
    ensures i < n ==> r == (i + 1) % n
  {
    MyModulo(Add32(i, 1), n)
  }

  /** The index before `i`, as popLastElement computes it:
      `myModulo(i - 1, n)`, where i - 1 wraps to 0xFFFFFFFF for i == 0. */
  function Prev(i: u32, n: u32): (r: u32)
    requires SlotCount(n)
    ensures r < n
    ensures i < n ==> r == (i - 1) % n
    ensures i == 0 ==> r == n - 1
  {
    MyModulo(Sub32(i, 1), n)
  }

  /** `isEmpty` */
  predicate IsEmpty(tail: u32, head: u32)
  {
    tail == head
  }

  /** `isFull`: one step past the head is the tail. */
  predicate IsFull(tail: u32, head: u32, n: u32)
    requires SlotCount(n)
    ensures IsFull(tail, head, n) ==> tail < n
    ensures head < n ==> (IsFull(tail, head, n) <==> (head + 1) % n == tail)
  {
    MyModulo(Add32(head, 1), n) == tail
  }

  /** The number of live elements between tail and head. */
  function Occupancy(tail: u32, head: u32, n: u32): (k: nat)
    requires SlotCount(n)
    ensures k < n
  {
    (head - tail) % n
  }

  /** The indices both in range. */
  predicate InRange(tail: u32, head: u32, n: u32)
  {
    tail < n && head < n
  }

  /** (tail, head) after `push`: head always advances; if the ring was full
      the tail advances too, dropping the oldest element. */
  function PushIndices(tail: u32, head: u32, n: u32): (r: (u32, u32))
    requires SlotCount(n)
    ensures r.1 == Next(head, n)
    ensures r.0 == if IsFull(tail, head, n) then Next(tail, n) else tail
  {
    if !IsFull(tail, head, n) then (tail, Next(head, n))
    else (Next(tail, n), Next(head, n))
  }

  lemma {:induction false} EmptyIffNoElements(tail: u32, head: u32, n: u32)
    requires SlotCount(n) && InRange(tail, head, n)
    ensures IsEmpty(tail, head) <==> Occupancy(tail, head, n) == 0
  {
    if Occupancy(tail, head, n) == 0 && tail != head {
      var d := head - tail;
      if d > 0 {
        ModUnique(d, n, 0, d);
      } else {
        ModUnique(d, n, -1, d + n);
      }
    }
  }

  /** With tail and head in range, the occupancy is head - tail, or that plus
      n when the head has wrapped below the tail. */
  lemma {:induction false} OccupancyValue(tail: u32, head: u32, n: u32)
    requires SlotCount(n) && InRange(tail, head, n)
    ensures tail <= head ==> Occupancy(tail, head, n) == head - tail
    ensures head < tail ==> Occupancy(tail, head, n) == head - tail + n
  {
    if tail <= head {
      ModUnique(head - tail, n, 0, head - tail);
    } else {
      ModUnique(head - tail, n, -1, head - tail + n);
    }
  }

  lemma {:induction false} FullIffCapacityReached(tail: u32, head: u32, n: u32)
    requires SlotCount(n) && InRange(tail, head, n)
    ensures IsFull(tail, head, n) <==> Occupancy(tail, head, n) == n - 1
  {
    OccupancyValue(tail, head, n);
    assert IsFull(tail, head, n) <==> Next(head, n) == tail;
    if head + 1 < n {
      ModUnique(head + 1, n, 0, head + 1);
    } else {
      ModUnique(head + 1, n, 1, 0);
    }
  }

  /** Push keeps the indices in range and raises the occupancy by one, up to
      the logical capacity n - 1, where it stays. */
  lemma {:induction false} PushOccupancy(tail: u32, head: u32, n: u32)
    requires SlotCount(n) && InRange(tail, head, n)
    ensures InRange(PushIndices(tail, head, n).0, PushIndices(tail, head, n).1, n)
    ensures var k := Occupancy(tail, head, n);
      Occupancy(PushIndices(tail, head, n).0, PushIndices(tail, head, n).1, n) == if k + 1 < n then k + 1 else n - 1
  {
    FullIffCapacityReached(tail, head, n);
    OccupancyValue(tail, head, n);
    var (t', h') := PushIndices(tail, head, n);
    OccupancyValue(t', h', n);
    if head + 1 < n {
      ModUnique(head + 1, n, 0, head + 1);
    } else {
      ModUnique(head + 1, n, 1, 0);
    }
    if tail + 1 < n {
      ModUnique(tail + 1, n, 0, tail + 1);
    } else {
      ModUnique(tail + 1, n, 1, 0);
    }
  }

  /** Popping from a non-empty ring, at either end, keeps the indices in
      range and lowers the occupancy by one. */
  lemma {:induction false} PopOccupancy(tail: u32, head: u32, n: u32)
    requires SlotCount(n) && InRange(tail, head, n) && !IsEmpty(tail, head)
    ensures Occupancy(Next(tail, n), head, n) == Occupancy(tail, head, n) - 1
    ensures Occupancy(tail, Prev(head, n), n) == Occupancy(tail, head, n) - 1
  {
    OccupancyValue(tail, head, n);
    OccupancyValue(Next(tail, n), head, n);
    OccupancyValue(tail, Prev(head, n), n);
    if tail + 1 < n {
      ModUnique(tail + 1, n, 0, tail + 1);
    } else {
      ModUnique(tail + 1, n, 1, 0);
    }
    if head > 0 {
      ModUnique(head - 1, n, 0, head - 1);
    }
  }

  /** The slots of the first `k` elements from the tail, oldest first. */
  function Window(tail: u32, n: u32, k: nat): (w: seq<nat>)
    requires SlotCount(n)
    ensures |w| == k
    ensures forall i :: 0 <= i < k ==> w[i] < n
  {
    seq(k, i => (tail + i) % n)
  }

  /** The first `n` slots from any tail are pairwise distinct. */
  lemma {:induction false} WindowDistinct(tail: u32, n: u32, i: nat, j: nat)
    requires SlotCount(n) && i < j < n
    ensures (tail + i) % n != (tail + j) % n
  {
    var q, r := (tail + i) / n, (tail + i) % n;
    assert tail + i == q * n + r;
    if r + (j - i) < n {
      ModUnique(tail + j, n, q, r + (j - i));
    } else {
      ModUnique(tail + j, n, q + 1, r + (j - i) - n);
    }
  }

  /** The slot after the last live element is the head. */
  lemma {:induction false} HeadFollowsWindow(tail: u32, head: u32, n: u32)
    requires SlotCount(n) && InRange(tail, head, n)
    ensures (tail + Occupancy(tail, head, n)) % n == head
  {
    OccupancyValue(tail, head, n);
    if tail <= head {
      ModUnique(head, n, 0, head);
    } else {
      ModUnique(head + n, n, 1, head);
    }
  }

  /** A push into a ring that is not full appends the head slot to the live
      slots; the head slot was not live before. */
  lemma {:induction false} PushWindow(tail: u32, head: u32, n: u32)
    requires SlotCount(n) && InRange(tail, head, n) && !IsFull(tail, head, n)
    ensures var k := Occupancy(tail, head, n);
      var (t', h') := PushIndices(tail, head, n);
      && Window(t', n, Occupancy(t', h', n)) == Window(tail, n, k) + [head]
      && head !in Window(tail, n, k)
  {
    var k := Occupancy(tail, head, n);
    PushOccupancy(tail, head, n);
    FullIffCapacityReached(tail, head, n);
    HeadFollowsWindow(tail, head, n);
    var w := Window(tail, n, k);
    assert Window(tail, n, k + 1) == w + [head];
    forall i | 0 <= i < k ensures w[i] != head {
      WindowDistinct(tail, n, i, k);
    }
  }

  /** A push into a full ring drops the oldest live slot and appends the
      head slot; with a single physical slot the ring holds nothing, and the
      pushed element is dropped at once. */
  lemma {:induction false} PushFullWindow(tail: u32, head: u32, n: u32)
    requires SlotCount(n) && InRange(tail, head, n) && IsFull(tail, head, n)
    ensures var k := Occupancy(tail, head, n);
      var (t', h') := PushIndices(tail, head, n);
      && Window(t', n, Occupancy(t', h', n)) == (Window(tail, n, k) + [head])[1..]
      && head !in Window(tail, n, k)
  {
    var k := Occupancy(tail, head, n);
    PushOccupancy(tail, head, n);
    FullIffCapacityReached(tail, head, n);
    HeadFollowsWindow(tail, head, n);
    var (t', h') := PushIndices(tail, head, n);
    var w := Window(tail, n, k);
    var w' := Window(t', n, k);
    assert t' == (tail + 1) % n;
    forall i | 0 <= i < k ensures w'[i] == (w + [head])[i + 1] {
      ModAdd(tail + 1, i, n);
    }
    forall i | 0 <= i < k ensures w[i] != head {
      WindowDistinct(tail, n, i, k);
    }
  }

  /** Popping from the front drops the oldest live slot, the tail. */
  lemma {:induction false} PopFirstWindow(tail: u32, head: u32, n: u32)
    requires SlotCount(n) && InRange(tail, head, n) && !IsEmpty(tail, head)
    ensures var k := Occupancy(tail, head, n);
      && k > 0
      && Window(tail, n, k)[0] == tail
      && Window(Next(tail, n), n, Occupancy(Next(tail, n), head, n)) == Window(tail, n, k)[1..]
  {
    var k := Occupancy(tail, head, n);
    PopOccupancy(tail, head, n);
    EmptyIffNoElements(tail, head, n);
    ModUnique(tail, n, 0, tail);
    var w := Window(tail, n, k);
    var w' := Window(Next(tail, n), n, k - 1);
    forall i | 0 <= i < k - 1 ensures w'[i] == w[i + 1] {
      ModAdd(tail + 1, i, n);
    }
  }

  /** Popping from the back drops the newest live slot, the one before the
      head. */
  lemma {:induction false} PopLastWindow(tail: u32, head: u32, n: u32)
    requires SlotCount(n) && InRange(tail, head, n) && !IsEmpty(tail, head)
    ensures var k := Occupancy(tail, head, n);
      && k > 0
      && Window(tail, n, k)[k - 1] == Prev(head, n)
      && Window(tail, n, Occupancy(tail, Prev(head, n), n)) == Window(tail, n, k)[..k - 1]
  {
    var k := Occupancy(tail, head, n);
    PopOccupancy(tail, head, n);
    EmptyIffNoElements(tail, head, n);
    HeadFollowsWindow(tail, head, n);
    ModAdd(tail + k, -1, n);
    if head > 0 {
      ModUnique(head - 1, n, 0, head - 1);
    } else {
      ModUnique(-1, n, -1, n - 1);
    }
  }
}
