/** Fixed-width machine integers of the Rust source and a small Option type. */
module Units {

  /** Rust `u8`. */
  newtype u8 = x: int | 0 <= x < 0x100

  /** Rust `u16`: one UTF-16 code unit of the native wide-text encoding. */
  newtype u16 = x: int | 0 <= x < 0x1_0000

  /** Rust `u32`. */
  newtype u32 = x: int | 0 <= x < 0x1_0000_0000

  /** Rust `i64`. */
  newtype i64 = x: int | -0x8000_0000_0000_0000 <= x < 0x8000_0000_0000_0000

  const U32_MODULUS: int := 0x1_0000_0000

  /** Rust's `as u32` on a non-negative value: keep the low 32 bits. */
  function ToU32(n: nat): (r: u32)
    ensures n < U32_MODULUS ==> r as int == n
  {
    (n % U32_MODULUS) as u32
  }

  /** Rust's `+ 1` on a `u32` in a release build, where overflow wraps. */
  function IncU32(x: u32): (r: u32)
    ensures x as int < U32_MODULUS - 1 ==> r as int == x as int + 1
    ensures x as int == U32_MODULUS - 1 ==> r == 0
  {
    ToU32(x as nat + 1)
  }

  datatype Option<+T> = None | Some(value: T)

  /** A buffer of `n` zero code units, as `[0 as u16; n]` builds it. */
  function Zeros(n: nat): (z: seq<u16>)
    ensures |z| == n
    ensures forall i :: 0 <= i < n ==> z[i] == 0
  {
    seq(n, _ => 0)
  }
}
