/** Arithmetic that several modules need. */
module Numbers {
  function Min(a: nat, b: nat): nat {
    if a <= b then a else b
  }

  function Max(a: nat, b: nat): nat {
    if a >= b then a else b
  }

  /** 2^i. */
  function Pow2(i: nat): (p: nat)
    ensures p > 0
  {
    if i == 0 then 1 else 2 * Pow2(i - 1)
  }

  function FloorLog2(bits: nat): nat {
    if bits <= 1 then 0 else 1 + FloorLog2(bits / 2)
  }

  /** ceil_log2 of PSI/src/util/typedefs.h. */
  function CeilLog2(bits: nat): nat
    requires 0 < bits
  {
    if bits == 1 then 1 else FloorLog2(bits) + (if Pow2(FloorLog2(bits)) < bits then 1 else 0)
  }

  lemma NonNegative(a: nat, b: nat)
    ensures a * b >= 0
  {
  }
}
