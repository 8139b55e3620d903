/** Machine-level vocabulary shared by the whole model: the fixed-width
    unsigned integers of a 64-bit Windows target, wrapping addition on
    `usize`, and the Option/Result shapes the Rust code returns. */
module Machine {

  const TWO_32: int := 0x1_0000_0000
  const TWO_64: int := 0x1_0000_0000_0000_0000

  /** Rust `u8`. */
  type u8 = x: int | 0 <= x < 0x100

  /** Rust `u32` (process ids, `cb_needed`, pointer-chain offsets). */
  type u32 = x: int | 0 <= x < 0x1_0000_0000

  /** Rust `usize` on a 64-bit target: addresses, sizes and pointer-sized words. */
  type u64 = x: int | 0 <= x < 0x1_0000_0000_0000_0000

  /** An opaque Win32 `HANDLE`; `HANDLE::default()` is 0. */
  type Handle = u64

  datatype Option<T> = None | Some(value: T)

  datatype Result<T, E> = Ok(value: T) | Err(error: E)

  /** `usize::wrapping_add`: the sum taken modulo 2^64. */
  function WrappingAdd(a: u64, b: u64): (r: u64)
    ensures a + b < TWO_64 ==> r == a + b
  {
    if a + b < TWO_64 then a + b else a + b - TWO_64
  }

  /** The sum reduced modulo 2^64, whatever the operands. */
  lemma WrappingAddIsModular(a: u64, b: u64)
    ensures WrappingAdd(a, b) == (a + b) % TWO_64
  {
  }

  function Min(a: nat, b: nat): (m: nat)
    ensures m <= a && m <= b && (m == a || m == b)
  {
    if a <= b then a else b
  }
}
