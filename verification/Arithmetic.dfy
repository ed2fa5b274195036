// Powers of two and residues.
module Arithmetic {
  // The number of values of uint16 and uint32.
  const UINT16_RANGE: nat := 0x1_0000
  const UINT32_RANGE: nat := 0x1_0000_0000

  function Pow2(n: nat): (p: nat)
    ensures 0 < p
  {
    if n == 0 then 1 else 2 * Pow2(n - 1)
  }

  lemma {:induction false} PowSum(a: nat, b: nat)
    ensures Pow2(a + b) == Pow2(a) * Pow2(b)
  {
    if a > 0 {
      PowSum(a - 1, b);
      Double(Pow2(a - 1), Pow2(b));
      assert Pow2(a + b) == 2 * Pow2(a + b - 1);
    }
  }

  lemma Double(x: nat, y: nat)
    ensures (2 * x) * y == 2 * (x * y)
  {
  }

  lemma SameResidue(a: int, b: int, k: int, m: int)
    requires 0 < m && a == b + k * m
    ensures a % m == b % m
  {
    var d := a / m - b / m - k;
    assert d * m == b % m - a % m;
    MultipleBound(d, m);
  }

  lemma MultipleBound(d: int, m: int)
    requires 0 < m
    ensures 1 <= d ==> m <= d * m
    ensures d <= -1 ==> d * m <= -m
  {
  }
}
