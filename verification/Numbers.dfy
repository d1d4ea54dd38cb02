/** The 64-bit width of `size_t` and `uint64_t`, and the smaller and the larger of two numbers. */
module Numbers {

  const SIZE_MODULUS: nat := 0x1_0000_0000_0000_0000

  function Min(a: nat, b: nat): (m: nat)
    ensures m <= a && m <= b && (m == a || m == b)
  {
    if a < b then a else b
  }

  function Max(a: nat, b: nat): (m: nat)
    ensures a <= m && b <= m && (m == a || m == b)
  {
    if a < b then b else a
  }
}
