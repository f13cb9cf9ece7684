/** Machine integers, their limits and optional values, shared by every component. */
module Machine {

  datatype Option<+T> = None | Some(value: T)

  type byte = x: nat | x < 256
  type u8 = byte
  type u16 = x: nat | x < 0x1_0000
  type u32 = x: nat | x < 0x1_0000_0000
  type u64 = x: nat | x < 0x1_0000_0000_0000_0000
  type u128 = x: nat | x < 0x1_0000_0000_0000_0000_0000_0000_0000_0000
  type i64 = x: int | I64_MIN <= x <= I64_MAX

  const U32_MAX: nat := 0xffff_ffff
  const U64_MAX: nat := 0xffff_ffff_ffff_ffff
  /** Pointer-sized integers have 64 bits. */
  const USIZE_MAX: nat := U64_MAX
  const I64_MIN: int := -0x8000_0000_0000_0000
  const I64_MAX: int := 0x7fff_ffff_ffff_ffff

  function Min(a: nat, b: nat): nat { if a < b then a else b }

  function Max(a: nat, b: nat): nat { if a < b then b else a }
}
