// Locale name masks as integers: bit operations, the population count, and the sub-masks of a mask.
module LocaleMask {
  import opened Arithmetic

  // The bits that a and b share; the bits of a that b lacks (a & ~b). Neither is ever negative here.
  function And(a: nat, b: nat): nat {
    if a == 0 then 0 else (a % 2) * (b % 2) + 2 * And(a / 2, b / 2)
  }

  function AndNot(a: nat, b: nat): nat {
    if a == 0 then 0 else (a % 2) * (1 - b % 2) + 2 * AndNot(a / 2, b / 2)
  }

  // pop of l10nflist.c, step by step; a right shift by k is a division by 2^k.
  function Pairs(x: nat): nat { AndNot(x, 0x5555) / 2 + And(x, 0x5555) }

  function Nibbles(x: nat): nat { AndNot(x, 0x3333) / 4 + And(x, 0x3333) }

  function Bytes(x: nat): nat { And(x / 16 + x, 0x0f0f) }

  function Pop(x: nat): nat {
    var x3 := Bytes(Nibbles(Pairs(x)));
    And(x3 / 256 + x3, 0xff)
  }

  function Ones(x: nat): nat {
    if x == 0 then 0 else x % 2 + Ones(x / 2)
  }

  // ---- The steps of pop on the digits of x ----

  lemma {:induction false} AndZero(a: nat)
    ensures And(a, 0) == 0 && AndNot(a, 0) == a
  {
    if a > 0 {
      AndZero(a / 2);
    }
  }

  lemma Halves(q: nat, d: nat)
    requires d < 4
    ensures (4 * q + d) / 2 == 2 * q + d / 2 && (4 * q + d) % 2 == d % 2
    ensures (2 * q + d / 2) / 2 == q && (2 * q + d / 2) % 2 == d / 2
  {}

  // One base-4 digit d over a rest q, against a digit e over a rest m.
  lemma AndDigit(q: nat, d: nat, m: nat, e: nat)
    requires d < 4 && e < 4
    ensures And(4 * q + d, 4 * m + e) == And(d, e) + 4 * And(q, m)
    ensures AndNot(4 * q + d, 4 * m + e) == AndNot(d, e) + 4 * AndNot(q, m)
  {
    var x, y := 4 * q + d, 4 * m + e;
    Halves(q, d);
    Halves(m, e);
    assert And(x, y) == (d % 2) * (e % 2) + 2 * And(2 * q + d / 2, 2 * m + e / 2);
    assert And(2 * q + d / 2, 2 * m + e / 2) == (d / 2) * (e / 2) + 2 * And(q, m);
    assert AndNot(x, y) == (d % 2) * (1 - e % 2) + 2 * AndNot(2 * q + d / 2, 2 * m + e / 2);
    assert AndNot(2 * q + d / 2, 2 * m + e / 2) == (d / 2) * (1 - e / 2) + 2 * AndNot(q, m);
    SmallAnd(d, e);
  }

  lemma SmallAnd(d: nat, e: nat)
    requires d < 4 && e < 4
    ensures And(d, e) == (d % 2) * (e % 2) + 2 * ((d / 2) * (e / 2))
    ensures AndNot(d, e) == (d % 2) * (1 - e % 2) + 2 * ((d / 2) * (1 - e / 2))
  {
    assert And(d, e) == if d == 0 then 0 else (d % 2) * (e % 2) + 2 * And(d / 2, e / 2);
    assert AndNot(d, e) == if d == 0 then 0 else (d % 2) * (1 - e % 2) + 2 * AndNot(d / 2, e / 2);
  }

  // A hexadecimal digit, given as two base-4 digits.
  lemma AndHex(q: nat, d1: nat, d0: nat, m: nat, e1: nat, e0: nat)
    requires d0 < 4 && d1 < 4 && e0 < 4 && e1 < 4
    ensures And(16 * q + 4 * d1 + d0, 16 * m + 4 * e1 + e0) == And(d0, e0) + 4 * And(d1, e1) + 16 * And(q, m)
    ensures AndNot(16 * q + 4 * d1 + d0, 16 * m + 4 * e1 + e0) ==
      AndNot(d0, e0) + 4 * AndNot(d1, e1) + 16 * AndNot(q, m)
  {
    hide And, AndNot;
    AndDigit(4 * q + d1, d0, 4 * m + e1, e0);
    AndDigit(q, d1, m, e1);
    assert 4 * (4 * q + d1) + d0 == 16 * q + 4 * d1 + d0 && 4 * (4 * m + e1) + e0 == 16 * m + 4 * e1 + e0;
  }

  lemma Digit(d: nat)
    requires d < 4
    ensures And(d, 0) == 0 && And(d, 1) == d % 2 && And(d, 3) == d
    ensures AndNot(d, 0) == d && AndNot(d, 1) == 2 * (d / 2) && AndNot(d, 3) == 0
  {
    SmallAnd(d, 0);
    SmallAnd(d, 1);
    SmallAnd(d, 3);
    hide And, AndNot;
  }

  // ---- First step: pairs of bits ----

  function Fives(k: nat): nat { if k == 0 then 0 else 4 * Fives(k - 1) + 1 }

  function TwoBits(d: nat): nat { d % 2 + d / 2 }

  function PairSums(x: nat, k: nat): nat {
    if k == 0 then 0 else 4 * PairSums(x / 4, k - 1) + TwoBits(x % 4)
  }

  function Pow4(k: nat): nat { if k == 0 then 1 else 4 * Pow4(k - 1) }

  lemma {:induction false} PairsIs(x: nat, k: nat)
    requires x < Pow4(k)
    ensures AndNot(x, Fives(k)) % 2 == 0
    ensures AndNot(x, Fives(k)) / 2 + And(x, Fives(k)) == PairSums(x, k)
  {
    if k > 0 {
      Lower(x, 4, Pow4(k - 1));
      PairsIs(x / 4, k - 1);
      PairsNext(x / 4, x % 4, k);
      hide And, AndNot, Fives, PairSums;
      Rejoin(x);
    }
  }

  // One more digit in base 4.
  lemma PairsNext(q: nat, d: nat, k: nat)
    requires 0 < k && d < 4 && AndNot(q, Fives(k - 1)) % 2 == 0
    requires AndNot(q, Fives(k - 1)) / 2 + And(q, Fives(k - 1)) == PairSums(q, k - 1)
    ensures AndNot(4 * q + d, Fives(k)) % 2 == 0
    ensures AndNot(4 * q + d, Fives(k)) / 2 + And(4 * q + d, Fives(k)) == PairSums(4 * q + d, k)
  {
    FourCompose(q, d);
    assert PairSums(4 * q + d, k) == 4 * PairSums(q, k - 1) + TwoBits(d);
    assert Fives(k) == 4 * Fives(k - 1) + 1;
    hide And, AndNot, Fives, PairSums;
    PairStep(q, d, Fives(k - 1));
    HalfSum(AndNot(q, Fives(k - 1)), d);
  }

  lemma FourCompose(q: nat, d: nat)
    requires d < 4
    ensures (4 * q + d) / 4 == q && (4 * q + d) % 4 == d
  {}

  lemma Lower(x: nat, b: nat, p: nat)
    requires 0 < b && x < b * p
    ensures x / b < p
  {
    assert x == b * (x / b) + x % b;
    if p <= x / b {
      Times(b, p, x / b);
    }
  }

  lemma Times(b: nat, p: nat, q: nat)
    requires p <= q
    ensures b * p <= b * q
  {}

  lemma Rejoin(x: nat)
    ensures x == 4 * (x / 4) + x % 4
  {}

  lemma PairStep(q: nat, d: nat, m: nat)
    requires d < 4
    ensures And(4 * q + d, 4 * m + 1) == d % 2 + 4 * And(q, m)
    ensures AndNot(4 * q + d, 4 * m + 1) == 2 * (d / 2) + 4 * AndNot(q, m)
  {
    hide And, AndNot;
    AndDigit(q, d, m, 1);
    Digit(d);
  }

  lemma HalfSum(a: nat, d: nat)
    requires a % 2 == 0
    ensures (2 * (d / 2) + 4 * a) % 2 == 0 && (2 * (d / 2) + 4 * a) / 2 == d / 2 + 4 * (a / 2)
  {}

  // ---- Second step: nibbles ----

  function Threes(k: nat): nat { if k == 0 then 0 else 16 * Threes(k - 1) + 3 }

  function NibbleSums(y: nat, k: nat): nat {
    if k == 0 then 0 else 16 * NibbleSums(y / 16, k - 1) + (y / 4 % 4 + y % 4)
  }

  function Pow16(k: nat): nat { if k == 0 then 1 else 16 * Pow16(k - 1) }

  lemma {:induction false} NibblesIs(y: nat, k: nat)
    requires y < Pow16(k)
    ensures AndNot(y, Threes(k)) % 4 == 0
    ensures AndNot(y, Threes(k)) / 4 + And(y, Threes(k)) == NibbleSums(y, k)
  {
    if k > 0 {
      Lower(y, 16, Pow16(k - 1));
      NibblesIs(y / 16, k - 1);
      NibblesNext(y / 16, y / 4 % 4, y % 4, k);
      hide And, AndNot, Threes, NibbleSums;
      HexDigits(y);
    }
  }

  // One more hexadecimal digit.
  lemma NibblesNext(q: nat, d1: nat, d0: nat, k: nat)
    requires 0 < k && d1 < 4 && d0 < 4 && AndNot(q, Threes(k - 1)) % 4 == 0
    requires AndNot(q, Threes(k - 1)) / 4 + And(q, Threes(k - 1)) == NibbleSums(q, k - 1)
    ensures var y := 16 * q + 4 * d1 + d0;
      AndNot(y, Threes(k)) % 4 == 0 && AndNot(y, Threes(k)) / 4 + And(y, Threes(k)) == NibbleSums(y, k)
  {
    var y, m := 16 * q + 4 * d1 + d0, Threes(k - 1);
    assert Threes(k) == 16 * m + 3;
    hide *;
    NibbleSumsNext(y, q, d1, d0, k);
    NibbleStep(q, d1, d0, m);
    QuarterSum(AndNot(q, m), d1);
  }

  lemma NibbleStep(q: nat, d1: nat, d0: nat, m: nat)
    requires d1 < 4 && d0 < 4
    ensures And(16 * q + 4 * d1 + d0, 16 * m + 3) == d0 + 16 * And(q, m)
    ensures AndNot(16 * q + 4 * d1 + d0, 16 * m + 3) == 4 * d1 + 16 * AndNot(q, m)
  {
    hide And, AndNot;
    AndHex(q, d1, d0, m, 0, 3);
    Digit(d1);
    Digit(d0);
  }

  lemma HexDigits(y: nat)
    ensures y == 16 * (y / 16) + 4 * (y / 4 % 4) + y % 4
  {
    assert y == 4 * (y / 4) + y % 4;
    assert y / 4 == 4 * (y / 4 / 4) + y / 4 % 4;
    assert y / 4 / 4 == y / 16;
  }

  lemma QuarterSum(a: nat, d: nat)
    requires a % 4 == 0
    ensures (4 * d + 16 * a) % 4 == 0 && (4 * d + 16 * a) / 4 == d + 4 * a && 4 * a == 16 * (a / 4)
  {}

  // ---- Counting bits digit by digit ----

  // The number of bits in each hexadecimal digit of x.
  function HexOnes(x: nat): nat { TwoBits(x / 4 % 4) + TwoBits(x % 4) }

  function DigitOnes(x: nat, k: nat): nat {
    if k == 0 then 0 else 16 * DigitOnes(x / 16, k - 1) + HexOnes(x)
  }

  lemma {:induction false} PairsOfNibbles(x: nat, k: nat)
    ensures NibbleSums(PairSums(x, 2 * k), k) == DigitOnes(x, k)
  {
    if k > 0 {
      Unfold16(x, k);
      HexOnesIs(x);
      hide *;
      var q, d1, d0 := PairSums(x / 16, 2 * k - 2), TwoBits(x / 4 % 4), TwoBits(x % 4);
      PairsOfNibbles(x / 16, k - 1);
      TwoPairs(x, k);
      FewBits(x % 4);
      FewBits(x / 4 % 4);
      NibbleSumsNext(PairSums(x, 2 * k), q, d1, d0, k);
    }
  }

  lemma NibbleSumsNext(y: nat, q: nat, d1: nat, d0: nat, k: nat)
    requires 0 < k && d1 < 4 && d0 < 4 && y == 4 * (4 * q + d1) + d0
    ensures NibbleSums(y, k) == 16 * NibbleSums(q, k - 1) + (d1 + d0)
  {
    Compose(q, d1, d0);
  }

  lemma HexOnesIs(x: nat)
    ensures HexOnes(x) == TwoBits(x / 4 % 4) + TwoBits(x % 4)
  {}

  lemma TwoPairs(x: nat, k: nat)
    requires k > 0
    ensures PairSums(x, 2 * k) == 4 * (4 * PairSums(x / 16, 2 * k - 2) + TwoBits(x / 4 % 4)) + TwoBits(x % 4)
  {
    hide TwoBits;
    Sixteenth(x);
    assert PairSums(x / 4, 2 * k - 1) == 4 * PairSums(x / 16, 2 * k - 2) + TwoBits(x / 4 % 4);
  }

  lemma Compose(q: nat, d1: nat, d0: nat)
    requires d1 < 4 && d0 < 4
    ensures var y := 4 * (4 * q + d1) + d0; y / 16 == q && y / 4 % 4 == d1 && y % 4 == d0
  {
    var y := 4 * (4 * q + d1) + d0;
    assert y / 4 == 4 * q + d1;
    assert y / 16 == y / 4 / 4;
  }

  lemma OnesSplit(x: nat)
    ensures Ones(x) == TwoBits(x % 4) + Ones(x / 4)
  {
    assert Ones(x) == x % 2 + Ones(x / 2);
    assert Ones(x / 2) == x / 2 % 2 + Ones(x / 2 / 2);
    assert x / 2 / 2 == x / 4 && x % 4 % 2 == x % 2 && x % 4 / 2 == x / 2 % 2;
  }

  lemma OnesHex(x: nat)
    ensures Ones(x) == HexOnes(x) + Ones(x / 16) && HexOnes(x) < 16
  {
    hide Ones, TwoBits;
    OnesSplit(x);
    OnesSplit(x / 4);
    Sixteenth(x);
    FewBits(x % 4);
    FewBits(x / 4 % 4);
  }

  // The digits of DigitOnes add up to the number of bits.
  function DigitSum(z: nat, k: nat): nat {
    if k == 0 then 0 else DigitSum(z / 16, k - 1) + z % 16
  }

  lemma {:induction false} DigitsAdd(x: nat, k: nat)
    requires x < Pow16(k)
    ensures DigitSum(DigitOnes(x, k), k) == Ones(x)
  {
    if k > 0 {
      Unfold16(x, k);
      hide Ones, HexOnes, DigitOnes, DigitSum, Pow16;
      var q, d := DigitOnes(x / 16, k - 1), HexOnes(x);
      Lower(x, 16, Pow16(k - 1));
      DigitsAdd(x / 16, k - 1);
      OnesHex(x);
      DigitSumNext(DigitOnes(x, k), q, d, k);
    }
  }

  lemma Unfold16(x: nat, k: nat)
    requires 0 < k
    ensures Pow16(k) == 16 * Pow16(k - 1) && DigitOnes(x, k) == 16 * DigitOnes(x / 16, k - 1) + HexOnes(x)
  {}

  lemma DigitSumNext(z: nat, q: nat, d: nat, k: nat)
    requires 0 < k && d < 16 && z == 16 * q + d
    ensures DigitSum(z, k) == DigitSum(q, k - 1) + d
  {
    HexCompose(q, d);
  }

  lemma Sixteenth(x: nat)
    ensures x / 4 / 4 == x / 16
  {}

  lemma FewBits(d: nat)
    requires d < 4
    ensures TwoBits(d) <= 2
  {}

  lemma HexCompose(q: nat, d: nat)
    requires d < 16
    ensures (16 * q + d) / 16 == q && (16 * q + d) % 16 == d
  {}

  // ---- Third and fourth step: adding up the digits ----

  lemma HexMask(q: nat, d: nat, m: nat)
    requires d < 16
    ensures And(16 * q + d, 16 * m + 15) == d + 16 * And(q, m)
    ensures And(16 * q + d, 16 * m) == 16 * And(q, m)
  {
    hide And, AndNot;
    var d1, d0 := d / 4, d % 4;
    assert d == 4 * d1 + d0;
    AndHex(q, d1, d0, m, 3, 3);
    AndHex(q, d1, d0, m, 0, 0);
    Digit(d1);
    Digit(d0);
  }

  // Adding neighbouring digits, and keeping every other sum.
  lemma BytesIs(a3: nat, a2: nat, a1: nat, a0: nat)
    requires a3 <= 4 && a2 <= 4 && a1 <= 4 && a0 <= 4
    ensures Bytes(16 * (16 * (16 * a3 + a2) + a1) + a0) == (a0 + a1) + 256 * (a2 + a3)
  {
    hide And;
    var z := 16 * (16 * (16 * a3 + a2) + a1) + a0;
    HexCompose(16 * (16 * a3 + a2) + a1, a0);
    assert z / 16 + z == 16 * (16 * (16 * a3 + (a2 + a3)) + (a1 + a2)) + (a0 + a1);
    HexMask(16 * (16 * a3 + (a2 + a3)) + (a1 + a2), a0 + a1, 0xf0);
    HexMask(16 * a3 + (a2 + a3), a1 + a2, 0xf);
    HexMask(a3, a2 + a3, 0);
    AndZero(a3);
  }

  lemma LastByte(low: nat, high: nat)
    requires low <= 8 && high <= 8
    ensures var v := low + 256 * high; And(v / 256 + v, 0xff) == low + high
  {
    hide And;
    var s := low + high;
    var v := low + 256 * high;
    assert v / 256 == high;
    assert v / 256 + v == 16 * (16 * high + s / 16) + s % 16;
    HexMask(16 * high + s / 16, s % 16, 15);
    HexMask(high, s / 16, 0);
    AndZero(high);
  }

  lemma FourDigits(x: nat) returns (a3: nat, a2: nat, a1: nat, a0: nat)
    ensures a3 <= 4 && a2 <= 4 && a1 <= 4 && a0 <= 4
    ensures DigitOnes(x, 4) == 16 * (16 * (16 * a3 + a2) + a1) + a0
  {
    a0 := TwoBits(x / 4 % 4) + TwoBits(x % 4);
    a1 := TwoBits(x / 16 / 4 % 4) + TwoBits(x / 16 % 4);
    a2 := TwoBits(x / 16 / 16 / 4 % 4) + TwoBits(x / 16 / 16 % 4);
    a3 := TwoBits(x / 16 / 16 / 16 / 4 % 4) + TwoBits(x / 16 / 16 / 16 % 4);
    hide TwoBits;
    assert DigitOnes(x / 16 / 16 / 16, 1) == a3;
    assert DigitOnes(x / 16 / 16, 2) == 16 * a3 + a2;
    assert DigitOnes(x / 16, 3) == 16 * (16 * a3 + a2) + a1;
  }

  lemma FourSum(a3: nat, a2: nat, a1: nat, a0: nat)
    requires a3 <= 4 && a2 <= 4 && a1 <= 4 && a0 <= 4
    ensures DigitSum(16 * (16 * (16 * a3 + a2) + a1) + a0, 4) == a0 + a1 + a2 + a3
  {
    HexCompose(16 * (16 * a3 + a2) + a1, a0);
    HexCompose(16 * a3 + a2, a1);
    HexCompose(a3, a2);
    HexCompose(0, a3);
    assert DigitSum(a3, 1) == a3;
    assert DigitSum(16 * a3 + a2, 2) == a3 + a2;
    assert DigitSum(16 * (16 * a3 + a2) + a1, 3) == a3 + a2 + a1;
  }

  lemma Constants()
    ensures Fives(8) == 0x5555 && Threes(4) == 0x3333 && Pow4(8) == Pow16(4) == 65536
  {
    assert Fives(2) == 5 && Fives(4) == 0x55 && Fives(6) == 0x555;
    assert Threes(2) == 0x33;
    assert Pow4(2) == 16 && Pow4(4) == 256 && Pow4(6) == 4096;
    assert Pow16(2) == 256;
  }

  lemma {:induction false} PairSumsSmall(x: nat, k: nat)
    ensures PairSums(x, k) < Pow4(k)
  {
    if k > 0 {
      PairSumsSmall(x / 4, k - 1);
    }
  }

  lemma FirstTwoSteps(x: nat)
    requires x < 65536
    ensures Nibbles(Pairs(x)) == DigitOnes(x, 4)
  {
    Constants();
    hide And, AndNot, PairSums, NibbleSums, DigitOnes, Fives, Threes, Pow4, Pow16;
    PairsIs(x, 8);
    PairSumsSmall(x, 8);
    NibblesIs(PairSums(x, 8), 4);
    PairsOfNibbles(x, 4);
  }

  // pop counts the set bits of every 16-bit number.
  lemma PopOnes(x: nat)
    requires x < 65536
    ensures Pop(x) == Ones(x)
  {
    Constants();
    hide And, Bytes, Nibbles, Pairs, DigitOnes, DigitSum, Ones, Pow16;
    FirstTwoSteps(x);
    DigitsAdd(x, 4);
    var a3, a2, a1, a0 := FourDigits(x);
    FourSum(a3, a2, a1, a0);
    BytesIs(a3, a2, a1, a0);
    LastByte(a0 + a1, a2 + a3);
  }

  // ---- Sub-masks ----

  predicate Dominated(c: nat, mask: nat) {
    AndNot(c, mask) == 0
  }

  // The number of sub-masks of `mask` below n.
  function SubMasks(mask: nat, n: nat): nat {
    if n == 0 then 0 else SubMasks(mask, n - 1) + if Dominated(n - 1, mask) then 1 else 0
  }

  lemma {:induction false} MaskDominated(mask: nat)
    ensures Dominated(mask, mask)
  {
    if mask > 0 {
      MaskDominated(mask / 2);
    }
  }

  lemma DominatedStep(c: nat, mask: nat)
    ensures Dominated(c, mask) <==> (c % 2 <= mask % 2 && Dominated(c / 2, mask / 2))
  {}

  lemma {:induction false} SubMasksDouble(mask: nat, n: nat)
    ensures SubMasks(mask, 2 * n) == if mask % 2 == 1 then 2 * SubMasks(mask / 2, n) else SubMasks(mask / 2, n)
  {
    if n > 0 {
      SubMasksDouble(mask, n - 1);
      SubMasksPair(mask, n - 1);
      SubMasksLast(mask / 2, n);
      hide Dominated, SubMasks;
    }
  }

  // Two numbers with the same upper bits.
  lemma SubMasksPair(mask: nat, n: nat)
    ensures SubMasks(mask, 2 * (n + 1)) ==
      SubMasks(mask, 2 * n) + if !Dominated(n, mask / 2) then 0 else if mask % 2 == 1 then 2 else 1
  {
    SubMasksLast(mask, 2 * n + 2);
    SubMasksLast(mask, 2 * n + 1);
    DominatedStep(2 * n, mask);
    DominatedStep(2 * n + 1, mask);
    hide Dominated, SubMasks;
    assert 2 * n / 2 == n == (2 * n + 1) / 2;
  }

  lemma SubMasksLast(mask: nat, n: nat)
    requires 0 < n
    ensures SubMasks(mask, n) == SubMasks(mask, n - 1) + if Dominated(n - 1, mask) then 1 else 0
  {}

  lemma SubMasksItself(mask: nat)
    ensures SubMasks(mask, mask + 1) == SubMasks(mask, mask) + 1
  {
    MaskDominated(mask);
    hide Dominated;
  }

  lemma PowOnes(mask: nat)
    requires 0 < mask
    ensures Pow2(Ones(mask)) == if mask % 2 == 1 then 2 * Pow2(Ones(mask / 2)) else Pow2(Ones(mask / 2))
  {
    OnesNext(mask);
    hide Ones;
    if mask % 2 == 1 {
      Pow2Next(Ones(mask), Ones(mask / 2));
    }
  }

  lemma OnesNext(x: nat)
    ensures x % 2 == 1 ==> Ones(x) == Ones(x / 2) + 1
    ensures x % 2 == 0 ==> Ones(x) == Ones(x / 2)
  {}

  lemma Pow2Next(m: nat, n: nat)
    requires m == n + 1
    ensures Pow2(m) == 2 * Pow2(n)
  {}

  // A mask has two to the number of its bits sub-masks, itself included.
  lemma {:induction false} SubMasksCount(mask: nat)
    ensures SubMasks(mask, mask + 1) == Pow2(Ones(mask))
  {
    if mask == 0 {
      assert SubMasks(0, 1) == 1;
    } else {
      PowOnes(mask);
      hide *;
      SubMasksCount(mask / 2);
      if mask % 2 == 1 {
        SubMasksDouble(mask, mask / 2 + 1);
        assert mask + 1 == 2 * (mask / 2 + 1);
      } else {
        SubMasksDouble(mask, mask / 2);
        assert mask == 2 * (mask / 2);
        SubMasksItself(mask);
        SubMasksItself(mask / 2);
      }
    }
  }
}
