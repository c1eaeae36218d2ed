/** Machine words of the target (a 32-bit ARM part): bytes and `uint32_t`
    values, with C's unsigned wrap-around written out. */
module Word {

  const MOD8: int := 0x100
  const MOD32: int := 0x1_0000_0000

  /** `byte` / `uint8_t` */
  type byte = x: int | 0 <= x < MOD8

  /** `uint32_t` (and `unsigned int`, which is 32 bits wide on the target) */
  type u32 = x: int | 0 <= x < MOD32

  /** `a + b` on `uint32_t` */
  function Add32(a: u32, b: u32): (r: u32)
    ensures a + b < MOD32 ==> r == a + b
    ensures a + b >= MOD32 ==> r == a + b - MOD32
  {
    (a + b) % MOD32
  }

  /** `a - b` on `uint32_t` */
  function Sub32(a: u32, b: u32): (r: u32)
    ensures a >= b ==> r == a - b
    ensures a < b ==> r == a - b + MOD32
  {
    (a - b) % MOD32
  }

  /** `a * b` on `uint32_t` */
  function Mul32(a: u32, b: u32): (r: u32)
    ensures a * b < MOD32 ==> r == a * b
  {
    if a * b < MOD32 then a * b else (a * b) % MOD32
  }

  lemma Add32Assoc(a: u32, b: u32, c: u32)
    ensures Add32(Add32(a, b), c) == Add32(a, Add32(b, c))
  {
  }

  lemma Add32Cancel(a: u32, b: u32, c: u32)
    requires Add32(a, b) == Add32(a, c)
    ensures b == c
  {
  }

  /** The C cast `(int)a` of a `uint32_t`: two's-complement reinterpretation. */
  function ToInt32(a: u32): (r: int)
    ensures -0x8000_0000 <= r < 0x8000_0000
    ensures r % MOD32 == a
  {
    if a < 0x8000_0000 then a else a - MOD32
  }

  /** A sequence of `n` zero bytes (a zero-filled C buffer). */
  function Zeros(n: nat): (r: seq<byte>)
    ensures |r| == n
    ensures forall i :: 0 <= i < n ==> r[i] == 0
  {
    seq(n, _ => 0)
  }
}
