/** The ranges of machine words, and division with remainder. */
module MachineArithmetic {
  /** One more than the largest 32-bit and 64-bit number. */
  const U32: nat := 0x1_0000_0000
  const U64: nat := 0x1_0000_0000_0000_0000

  const U64_MAX: nat := 0xFFFF_FFFF_FFFF_FFFF

  lemma DivModUnique(n: int, u: nat, q: int, r: nat)
    requires u >= 1 && r < u && n == q * u + r
    ensures n / u == q && n % u == r
  {
    var d := n / u - q;
    assert d * u == r - n % u;
    assert d >= 1 ==> d * u >= u;
    assert d <= -1 ==> d * u + u <= 0;
  }

  lemma ModSuccessor(n: int, m: nat)
    requires m >= 1 && n % m < m - 1
    ensures (n + 1) % m == n % m + 1
  {
    DivModUnique(n + 1, m, n / m, n % m + 1);
  }

  lemma ModCongruent(x: int, k: int, s: nat)
    requires s >= 1
    ensures (x + k * s) % s == x % s
  {
    assert x + k * s == (x / s + k) * s + x % s;
    DivModUnique(x + k * s, s, x / s + k, x % s);
  }

  lemma ModOfSum(a: int, b: int, s: nat)
    requires s >= 1
    ensures (a % s + b) % s == (a + b) % s
  {
    assert a % s + b == (a + b) + (-(a / s)) * s;
    ModCongruent(a + b, -(a / s), s);
  }
}
