/** Unsigned machine integers: moduli for arithmetic that wraps, and the 64-bit
    operations that saturate. `usize` is 64 bits wide on the agent's targets. */
module MachineInt {
  const U32: int := 0x1_0000_0000
  const U64: int := 0x1_0000_0000_0000_0000
  const U64_MAX: int := U64 - 1

  function SatAdd(a: nat, b: nat): nat { if a + b > U64_MAX then U64_MAX else a + b }

  function SatSub(a: nat, b: nat): nat { if a < b then 0 else a - b }

  function SatMul(a: nat, b: nat): nat { if a * b > U64_MAX then U64_MAX else a * b }
}
