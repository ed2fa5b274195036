// The double-hashing probe sequence of message catalogues: why a prime table size suffices.
module ProbeSequence {
  import opened Arithmetic

  predicate Prime(m: nat) {
    2 <= m && forall d :: 2 <= d < m ==> m % d != 0
  }

  // The number of the first slot, and the step, for a hash value.
  function Start(h: nat, m: nat): (i: nat)
    requires 2 < m
    ensures i < m
  {
    h % m
  }

  function Incr(h: nat, m: nat): (d: nat)
    requires 2 < m
    ensures 1 <= d < m
  {
    1 + h % (m - 2)
  }

  // The first slot is the remainder by the size, and the step one more than the remainder by the size less two.
  lemma ProbeRemainders(h: nat, m: nat) returns (q: nat, p: nat)
    requires 2 < m
    ensures h == q * m + Start(h, m) && Start(h, m) < m
    ensures h + 1 == p * (m - 2) + Incr(h, m) && 1 <= Incr(h, m) <= m - 2
  {
    q, p := h / m, h / (m - 2);
  }

  // The k-th slot that is probed.
  function Slot(h: nat, m: nat, k: nat): (i: nat)
    requires 2 < m
    ensures i < m
  {
    (Start(h, m) + k * Incr(h, m)) % m
  }

  // The wrap-around update: no intermediate value leaves the range below the table size.
  function Advance(idx: nat, incr: nat, m: nat): (i: nat)
    requires idx < m && 1 <= incr < m
    ensures i < m
  {
    if idx >= m - incr then idx - (m - incr) else idx + incr
  }

  lemma SlotZero(h: nat, m: nat)
    requires 2 < m
    ensures Slot(h, m, 0) == Start(h, m)
  {
    var s, d := Start(h, m), Incr(h, m);
    assert Slot(h, m, 0) == (s + 0 * d) % m;
    hide *;
    assert s + 0 * d == s;
    SmallMod(s, m);
  }

  lemma SlotNext(h: nat, m: nat, k: nat)
    requires 2 < m
    ensures Slot(h, m, k + 1) == Advance(Slot(h, m, k), Incr(h, m), m)
  {
    var d, a := Incr(h, m), Start(h, m) + k * Incr(h, m);
    assert Start(h, m) + (k + 1) * d == a + d;
    ModAdd(a, d, m);
    AdvanceWraps(a % m, d, m);
  }

  // From slot to slot the step is added, less the size when it leads beyond the end.
  lemma SlotSteps(h: nat, m: nat, k: nat)
    requires 2 < m
    ensures Slot(h, m, 0) == Start(h, m)
    ensures var next := Slot(h, m, k) + Incr(h, m);
      Slot(h, m, k + 1) == if next < m then next else next - m
  {
    SlotZero(h, m);
    SlotNext(h, m, k);
    hide Slot, Start, Incr;
  }

  lemma AdvanceWraps(idx: nat, incr: nat, m: nat)
    requires idx < m && 1 <= incr < m
    ensures Advance(idx, incr, m) == (idx + incr) % m
  {
    if idx >= m - incr {
      SameResidue(idx + incr, idx - (m - incr), 1, m);
      SmallMod(idx - (m - incr), m);
    } else {
      SmallMod(idx + incr, m);
    }
  }

  lemma SmallMod(x: nat, m: nat)
    requires x < m
    ensures x % m == x
  {
  }

  lemma ModAdd(a: nat, d: nat, m: nat)
    requires 0 < m
    ensures (a + d) % m == (a % m + d) % m
  {
    SameResidue(a + d, a % m + d, a / m, m);
  }

  // Euclid's lemma: a prime that divides a product divides one of the factors.
  lemma {:induction false} Euclid(p: nat, a: nat, b: nat)
    requires Prime(p) && 0 < a < p && (a * b) % p == 0
    ensures b % p == 0
    decreases a
  {
    if a > 1 {
      var r, q := p % a, p / a;
      assert r != 0;
      var n := (a * b) / p;
      assert a * b == n * p;
      RemainderProduct(p, a, b, n);
      Euclid(p, r, b);
    } else {
      assert a * b == b;
    }
  }

  lemma RemainderProduct(p: nat, a: nat, b: nat, n: nat)
    requires 0 < a < p && a * b == n * p
    ensures ((p % a) * b) % p == 0
  {
    var r, q := p % a, p / a;
    assert p == q * a + r;
    assert r * b == p * b - q * (a * b);
    assert r * b == 0 + (b - q * n) * p;
    SameResidue(r * b, 0, b - q * n, p);
  }

  lemma EqualResidues(x: nat, y: nat, m: nat)
    requires 0 < m && x <= y && x % m == y % m
    ensures (y - x) % m == 0
  {
    var q := y / m - x / m;
    assert y - x == 0 + q * m;
    SameResidue(y - x, 0, q, m);
  }

  lemma NotSameSlot(h: nat, m: nat, j: nat, k: nat)
    requires Prime(m) && 2 < m && j < k < m
    ensures Slot(h, m, j) != Slot(h, m, k)
  {
    if Slot(h, m, j) == Slot(h, m, k) {
      var d, s := Incr(h, m), Start(h, m);
      NotSameMultiple(d, s, m, j, k);
    }
  }

  lemma NotSameMultiple(d: nat, s: nat, m: nat, j: nat, k: nat)
    requires Prime(m) && 0 < d < m && j < k < m
    ensures (s + j * d) % m != (s + k * d) % m
  {
    hide Prime;
    if (s + j * d) % m == (s + k * d) % m {
      assert k * d - j * d == d * (k - j);
      assert 0 <= d * (k - j);
      EqualResidues(s + j * d, s + k * d, m);
      Euclid(m, d, k - j);
      SmallMod(k - j, m);
    }
  }

  // The slots probed in the first n steps.
  function Probed(h: nat, m: nat, n: nat): set<nat>
    requires 2 < m
  {
    set k | 0 <= k < n :: Slot(h, m, k)
  }

  lemma {:induction false} ProbedSize(h: nat, m: nat, n: nat)
    requires Prime(m) && 2 < m && n <= m
    ensures |Probed(h, m, n)| == n
  {
    if n == 0 {
      assert Probed(h, m, 0) == {};
    } else {
      ProbedSize(h, m, n - 1);
      assert Probed(h, m, n) == Probed(h, m, n - 1) + {Slot(h, m, n - 1)};
      if Slot(h, m, n - 1) in Probed(h, m, n - 1) {
        var j :| 0 <= j < n - 1 && Slot(h, m, j) == Slot(h, m, n - 1);
        NotSameSlot(h, m, j, n - 1);
      }
    }
  }

  function Range(m: nat): (r: set<nat>)
    ensures |r| == m && forall i :: i in r <==> 0 <= i < m
  {
    if m == 0 then {} else Range(m - 1) + {m - 1}
  }

  lemma SubsetOfSameSize<T>(a: set<T>, b: set<T>)
    requires a <= b && |a| == |b|
    ensures a == b
  {
    assert b == a + (b - a);
  }

  // In hash_size steps every slot is probed, and only once.
  lemma EverySlotProbed(h: nat, m: nat, i: nat)
    requires Prime(m) && 2 < m && i < m
    ensures exists k :: 0 <= k < m && Slot(h, m, k) == i
    ensures forall j, k :: 0 <= j < k < m ==> Slot(h, m, j) != Slot(h, m, k)
  {
    ProbedSize(h, m, m);
    SubsetOfSameSize(Probed(h, m, m), Range(m));
    assert i in Probed(h, m, m);
    forall j, k | 0 <= j < k < m ensures Slot(h, m, j) != Slot(h, m, k) {
      NotSameSlot(h, m, j, k);
    }
  }
}
