// hash_string: P.J. Weinberger's hash, in a word of any width and for either signedness of char.
module HashString {
  import opened Arithmetic
  import opened Strings

  const TWO28 := 0x1000_0000

  // Bitwise exclusive or of natural numbers.
  function Xor(a: nat, b: nat): nat {
    if a == 0 && b == 0 then 0 else (a + b) % 2 + 2 * Xor(a / 2, b / 2)
  }

  // The character as `unsigned long`: plain char may be signed.
  function Extend(b: byte, signed: bool, word: nat): nat
    requires UINT32_RANGE <= word
  {
    if signed && 128 <= b then word - 256 + b else b
  }

  // One round of the loop, before and after the overflowing nibble is folded back.
  function Shifted(h: nat, b: byte, signed: bool, word: nat): (x: nat)
    requires UINT32_RANGE <= word
    ensures x < word
  {
    (h * 16 + Extend(b, signed, word)) % word
  }

  function Nibble(x: nat): (t: nat)
    ensures t < 16
  {
    (x / TWO28) % 16
  }

  function Round(h: nat, b: byte, signed: bool, word: nat): nat
    requires UINT32_RANGE <= word
  {
    var x := Shifted(h, b, signed, word);
    Xor(Xor(x, Nibble(x) * 16), Nibble(x) * TWO28)
  }

  // The value of hash_string.
  function Hash(s: seq<byte>, signed: bool, word: nat): nat
    requires UINT32_RANGE <= word
  {
    if s == [] then 0 else Round(Hash(s[..|s| - 1], signed, word), s[|s| - 1], signed, word)
  }

  // hash_string stored in an nls_uint32.
  function Hash32(s: seq<byte>, signed: bool): nat {
    Hash(s, signed, UINT32_RANGE)
  }

  method HashStringLoop(str: seq<byte>, signed: bool, word: nat) returns (hval: nat)
    requires UINT32_RANGE <= word
    ensures hval == Hash(str, signed, word)
  {
    hval := 0;
    var i := 0;
    while i < |str|
      invariant i <= |str| && hval == Hash(str[..i], signed, word)
    {
      hide Xor, Nibble, Extend, Round;
      assert str[..i + 1][..i] == str[..i];
      RoundUnfold(hval, str[i], signed, word);
      hval := (hval * 16 + Extend(str[i], signed, word)) % word;
      var g := Nibble(hval) * TWO28;
      if g != 0 {
        hval := Xor(hval, g / 0x100_0000);
        hval := Xor(hval, g);
      }
      i := i + 1;
    }
    assert str[..|str|] == str;
  }

  lemma RoundUnfold(h: nat, b: byte, signed: bool, word: nat)
    requires UINT32_RANGE <= word
    ensures var x := (h * 16 + Extend(b, signed, word)) % word; var g := Nibble(x) * TWO28;
      Round(h, b, signed, word) == if g != 0 then Xor(Xor(x, g / 0x100_0000), g) else x
  {
    hide Xor, Nibble, Extend;
    var x := Shifted(h, b, signed, word);
    var t := Nibble(x);
    assert (t * TWO28) / 0x100_0000 == t * 16;
    XorZero(x);
  }

  lemma {:induction false} XorZero(a: nat)
    ensures Xor(a, 0) == a && Xor(0, a) == a
  {
    if a != 0 {
      XorZero(a / 2);
    }
  }

  lemma {:induction false} XorSelf(a: nat)
    ensures Xor(a, a) == 0
  {
    if a != 0 {
      XorSelf(a / 2);
    }
  }

  function Shl(a: nat, k: nat): nat {
    if k == 0 then a else 2 * Shl(a, k - 1)
  }

  lemma {:induction false} ShlIsProduct(a: nat, k: nat)
    ensures Shl(a, k) == a * Pow2(k)
  {
    if k > 0 {
      ShlIsProduct(a, k - 1);
      assert a * (2 * Pow2(k - 1)) == 2 * (a * Pow2(k - 1));
    }
  }

  lemma Halves(p: nat, r: nat, q: nat, s: nat)
    ensures (2 * p + r) / 2 == p + r / 2 && (2 * q + s) / 2 == q + s / 2
    ensures (2 * p + r + (2 * q + s)) % 2 == (r + s) % 2
  {
  }

  lemma XorHalves(p: nat, r: nat, q: nat, s: nat)
    ensures Xor(2 * p + r, 2 * q + s) == (r + s) % 2 + 2 * Xor(p + r / 2, q + s / 2)
    ensures Xor(r, s) == (r + s) % 2 + 2 * Xor(r / 2, s / 2)
  {
    hide Xor;
    Halves(p, r, q, s);
    XorUnfold(2 * p + r, 2 * q + s);
    XorUnfold(r, s);
  }

  // Exclusive or works on low and high digits separately.
  lemma {:induction false} XorSplit(a: nat, r: nat, b: nat, s: nat, k: nat)
    requires r < Pow2(k) && s < Pow2(k)
    ensures Xor(r, s) < Pow2(k)
    ensures Xor(Shl(a, k) + r, Shl(b, k) + s) == Shl(Xor(a, b), k) + Xor(r, s)
  {
    hide Xor;
    if k == 0 {
      XorZero(0);
    } else {
      XorSplit(a, r / 2, b, s / 2, k - 1);
      XorHalves(Shl(a, k - 1), r, Shl(b, k - 1), s);
    }
  }

  lemma XorUnfold(a: nat, b: nat)
    ensures Xor(a, b) == (a + b) % 2 + 2 * Xor(a / 2, b / 2)
  {
  }

  lemma Constants()
    ensures Pow2(8) == 256 && Pow2(28) == TWO28 && Pow2(32) == UINT32_RANGE
  {
    assert Pow2(8) == 256;
    PowSum(8, 8);
    PowSum(16, 12);
    PowSum(16, 16);
    assert Pow2(12) == 4096;
  }

  lemma ResidueOfResidue(raw: nat, q: nat)
    requires 0 < q
    ensures (raw % (q * UINT32_RANGE)) % UINT32_RANGE == raw % UINT32_RANGE
  {
    var word := q * UINT32_RANGE;
    var p := raw / word;
    assert (p * q) * UINT32_RANGE == p * word;
    SameResidue(raw, raw % word, p * q, UINT32_RANGE);
  }

  // Dropping the bits above 32 before or after a round gives the same 32 bits.
  lemma ShiftedLow(h: nat, b: byte, signed: bool, bits: nat)
    requires 32 <= bits
    ensures UINT32_RANGE <= Pow2(bits)
    ensures Shifted(h, b, signed, Pow2(bits)) % UINT32_RANGE == Shifted(h % UINT32_RANGE, b, signed, UINT32_RANGE)
  {
    Constants();
    PowSum(bits - 32, 32);
    var q := Pow2(bits - 32);
    var word := q * UINT32_RANGE;
    assert word == Pow2(bits);
    var raw := h * 16 + Extend(b, signed, word);
    ResidueOfResidue(raw, q);
    RawResidue(h, b, signed, q);
  }

  lemma RawResidue(h: nat, b: byte, signed: bool, q: nat)
    requires 0 < q
    ensures (h * 16 + Extend(b, signed, q * UINT32_RANGE)) % UINT32_RANGE ==
      ((h % UINT32_RANGE) * 16 + Extend(b, signed, UINT32_RANGE)) % UINT32_RANGE
  {
    var raw := h * 16 + Extend(b, signed, q * UINT32_RANGE);
    var low := (h % UINT32_RANGE) * 16 + Extend(b, signed, UINT32_RANGE);
    var k := (h / UINT32_RANGE) * 16 + if signed && 128 <= b then q - 1 else 0;
    assert raw == low + k * UINT32_RANGE;
    SameResidue(raw, low, k, UINT32_RANGE);
  }

  lemma NibbleLow(x: nat)
    ensures Nibble(x) == Nibble(x % UINT32_RANGE)
  {
    var p, y := x / UINT32_RANGE, x % UINT32_RANGE;
    assert x == TWO28 * (16 * p) + y;
    assert x / TWO28 == 16 * p + y / TWO28;
  }

  lemma RoundLow(h: nat, b: byte, signed: bool, bits: nat)
    requires 32 <= bits
    ensures UINT32_RANGE <= Pow2(bits)
    ensures Round(h, b, signed, Pow2(bits)) % UINT32_RANGE == Round(h % UINT32_RANGE, b, signed, UINT32_RANGE)
    ensures Round(h % UINT32_RANGE, b, signed, UINT32_RANGE) < UINT32_RANGE
  {
    hide Xor, Shifted, Nibble, Pow2;
    ShiftedLow(h, b, signed, bits);
    var x := Shifted(h, b, signed, Pow2(bits));
    NibbleLow(x);
    FoldLow(x / UINT32_RANGE, x % UINT32_RANGE, Nibble(x));
  }

  lemma FoldLow(p: nat, y: nat, t: nat)
    requires y < UINT32_RANGE && t < 16
    ensures Xor(Xor(p * UINT32_RANGE + y, t * 16), t * TWO28) % UINT32_RANGE ==
      Xor(Xor(y, t * 16), t * TWO28) < UINT32_RANGE
  {
    hide Xor;
    XorHigh(p, y, t * 16);
    XorHigh(p, Xor(y, t * 16), t * TWO28);
  }

  lemma XorHigh(p: nat, y: nat, s: nat)
    requires y < UINT32_RANGE && s < UINT32_RANGE
    ensures Xor(p * UINT32_RANGE + y, s) == p * UINT32_RANGE + Xor(y, s) && Xor(y, s) < UINT32_RANGE
  {
    Constants();
    XorSplit(p, y, 0, s, 32);
    XorZero(p);
    ShlIsProduct(p, 32);
    ShlIsProduct(0, 32);
  }

  lemma NibbleSplit(x: nat)
    requires x < UINT32_RANGE
    ensures x == Nibble(x) * TWO28 + x % TWO28
  {
  }

  // In 32 bits a round leaves the low 28 bits of the shifted value with the nibble folded into bits 4 to 7.
  lemma RoundFolds(h: nat, b: byte, signed: bool)
    ensures var x := Shifted(h, b, signed, UINT32_RANGE);
      Round(h, b, signed, UINT32_RANGE) == Xor(x % TWO28, Nibble(x) * 16) < TWO28
  {
    hide Xor, Shifted, Nibble;
    var x := Shifted(h, b, signed, UINT32_RANGE);
    NibbleSplit(x);
    FoldTop(Nibble(x), x % TWO28);
  }

  lemma RoundIs(h: nat, b: byte, signed: bool)
    requires h < TWO28
    ensures var c := if signed && 128 <= b then b - 256 else b;
      var x := (16 * h + c) % UINT32_RANGE;
      Round(h, b, signed, UINT32_RANGE) == Xor(x % TWO28, x / TWO28 * 16)
    ensures b < 128 && 16 * h + b < TWO28 ==> Round(h, b, signed, UINT32_RANGE) == 16 * h + b
  {
    hide *;
    var c := if signed && 128 <= b then b - 256 else b;
    ShiftedIs(h, b, signed, c);
    var x := (16 * h + c) % UINT32_RANGE;
    NibbleIs(x);
    RoundFolds(h, b, signed);
    if b < 128 && 16 * h + b < TWO28 {
      BelowRange(16 * h + b);
      XorZero(16 * h + b);
    }
  }

  lemma ShiftedIs(h: nat, b: byte, signed: bool, c: int)
    requires c == if signed && 128 <= b then b - 256 else b
    ensures Shifted(h, b, signed, UINT32_RANGE) == (16 * h + c) % UINT32_RANGE
  {
    SameResidue(h * 16 + Extend(b, signed, UINT32_RANGE), 16 * h + c, if c < 0 then 1 else 0, UINT32_RANGE);
  }

  lemma NibbleIs(x: nat)
    requires x < UINT32_RANGE
    ensures Nibble(x) == x / TWO28
  {}

  lemma BelowRange(x: nat)
    requires x < TWO28
    ensures x % UINT32_RANGE == x == x % TWO28 && x / TWO28 == 0
  {}

  lemma FoldTop(t: nat, r: nat)
    requires t < 16 && r < TWO28
    ensures Xor(Xor(t * TWO28 + r, t * 16), t * TWO28) == Xor(r, t * 16) < TWO28
  {
    Constants();
    hide Xor, Pow2, Shl;
    XorSplit(t, r, 0, t * 16, 28);
    XorSplit(t, Xor(r, t * 16), t, 0, 28);
    XorZero(t);
    XorSelf(t);
    XorZero(Xor(r, t * 16));
    ShlIsProduct(t, 28);
    ShlIsProduct(0, 28);
  }

  // ---- Main results ----

  // A character more, in 32 bits: sixteen times the hash and the character, with what exceeds 28 bits folded into
  // bits 4 to 7.
  lemma HashExtended(s: seq<byte>, b: byte, signed: bool)
    ensures Hash32([], signed) == 0
    ensures var c := if signed && 128 <= b then b - 256 else b;
      var x := (16 * Hash32(s, signed) + c) % UINT32_RANGE;
      Hash32(s + [b], signed) == Xor(x % TWO28, x / TWO28 * 16)
    ensures b < 128 && 16 * Hash32(s, signed) + b < TWO28 ==> Hash32(s + [b], signed) == 16 * Hash32(s, signed) + b
  {
    WidthIndependent(s, signed, 32);
    RoundIs(Hash32(s, signed), b, signed);
    hide Round, Xor;
    assert (s + [b])[..|s|] == s;
  }

  // The low 32 bits do not depend on the width of `unsigned long`, and stay below 2^28.
  lemma {:induction false} WidthIndependent(s: seq<byte>, signed: bool, bits: nat)
    requires 32 <= bits
    ensures UINT32_RANGE <= Pow2(bits) && Hash(s, signed, Pow2(bits)) % UINT32_RANGE == Hash32(s, signed) < TWO28
  {
    Constants();
    PowSum(bits - 32, 32);
    if s != [] {
      var t, c := s[..|s| - 1], s[|s| - 1];
      WidthIndependent(t, signed, bits);
      RoundLow(Hash(t, signed, Pow2(bits)), c, signed, bits);
      RoundFolds(Hash32(t, signed), c, signed);
    }
  }

  // One more character is one more round.
  lemma HashNext(s: seq<byte>, c: byte, signed: bool)
    ensures Hash32(s + [c], signed) == Round(Hash32(s, signed), c, signed, UINT32_RANGE)
  {
    hide Round;
    assert (s + [c])[..|s|] == s;
  }

  lemma HashSmall(s: seq<byte>, signed: bool)
    ensures Hash32(s, signed) < TWO28
  {
    hide Hash, Hash32;
    WidthIndependent(s, signed, 32);
  }
}
