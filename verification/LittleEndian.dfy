// Integers as bytes, least significant first.
module LittleEndian {
  import opened Arithmetic
  import opened Strings

  type Bytes = seq<byte>

  function Pow256(width: nat): (p: nat)
    ensures p > 0
  {
    if width == 0 then 1 else 256 * Pow256(width - 1)
  }

  // Little-endian integers.
  function Poke(n: nat, width: nat): (s: Bytes)
    ensures |s| == width
  {
    if width == 0 then [] else [n % 256] + Poke(n / 256, width - 1)
  }

  function Peek(s: Bytes): nat {
    if s == [] then 0 else s[0] as int + 256 * Peek(s[1..])
  }

  lemma {:induction false} PeekPoke(n: nat, width: nat)
    requires n < Pow256(width)
    ensures Peek(Poke(n, width)) == n
  {
    if width > 0 {
      Quotient(n, Pow256(width - 1));
      PeekPoke(n / 256, width - 1);
      assert Poke(n, width)[1..] == Poke(n / 256, width - 1);
    }
  }

  // Bytes further on weigh more.
  lemma {:induction false} PeekJoin(a: Bytes, b: Bytes)
    ensures Peek(a + b) == Peek(a) + Pow256(|a|) * Peek(b)
    ensures forall x: byte :: Peek([x]) == x as int
  {
    if a == [] {
      assert a + b == b;
    } else {
      assert (a + b)[1..] == a[1..] + b;
      PeekJoin(a[1..], b);
      Distributed(Peek(a[1..]), Pow256(|a| - 1), Peek(b));
    }
  }

  lemma Distributed(x: nat, p: nat, y: nat)
    ensures 256 * (x + p * y) == 256 * x + 256 * p * y
  {}

  lemma Quotient(n: nat, p: nat)
    requires n < 256 * p
    ensures n / 256 < p
  {}

  lemma Pow256Values()
    ensures Pow256(1) == 256 && Pow256(2) == 65536 && Pow256(4) == UINT32_RANGE
    ensures Pow256(8) == UINT32_RANGE * UINT32_RANGE
  {
    assert Pow256(1) == 256;
    assert Pow256(2) == 65536;
    assert Pow256(3) == 16777216;
    assert Pow256(4) == UINT32_RANGE;
    assert Pow256(5) == 256 * UINT32_RANGE;
    assert Pow256(6) == 65536 * UINT32_RANGE;
    assert Pow256(7) == 16777216 * UINT32_RANGE;
  }
}
