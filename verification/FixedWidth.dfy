/** The fixed-width integers of the C and C++ sources, as subsets of the unbounded integers,
    with their wrap-around written out. */
module FixedWidth {

  const U16_MAX: int := 0xFFFF
  const U32_MAX: int := 0xFFFF_FFFF
  const U64_MAX: int := 0xFFFF_FFFF_FFFF_FFFF

  type u8 = x: int | 0 <= x <= 0xFF
  type u16 = x: int | 0 <= x <= 0xFFFF
  type u32 = x: int | 0 <= x <= 0xFFFF_FFFF
  type u64 = x: int | 0 <= x <= 0xFFFF_FFFF_FFFF_FFFF
  type i32 = x: int | -0x8000_0000 <= x <= 0x7FFF_FFFF

  function Wrap32(x: int): u32 {
    x % 0x1_0000_0000
  }

  function Wrap64(x: int): u64 {
    x % 0x1_0000_0000_0000_0000
  }

  function AbsoluteSteps(steps: i32): (n: u64)
    ensures n <= 0x8000_0000
    ensures n == 0 <==> steps == 0
  {
    var n: int := steps;
    if n < 0 then -n else n
  }

  function Max(a: int, b: int): int {
    if a > b then a else b
  }

  function Min(a: int, b: int): int {
    if a < b then a else b
  }

  /** Wrapping an operand first does not change a wrapped sum. */
  lemma WrapAbsorbs(a: int, b: int)
    ensures Wrap64(Wrap64(a) + b) == Wrap64(a + b)
  {
  }
}
