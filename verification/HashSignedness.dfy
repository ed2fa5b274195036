// Where plain char is signed and where it is unsigned, hash_string can give different values: when it does.
module HashSignedness {
  import opened Arithmetic
  import opened Strings
  import opened HashString

  predicate Ascii(s: seq<byte>) {
    forall i :: 0 <= i < |s| ==> s[i] < 128
  }

  // The state of the hash does not depend on the signedness of char.
  predicate Agree(s: seq<byte>) {
    Hash32(s, true) == Hash32(s, false)
  }

  predicate AgreeOnPrefixes(s: seq<byte>) {
    forall k :: 0 <= k <= |s| ==> Agree(s[..k])
  }

  // ---- One round, digit by digit ----

  function High(x: nat): nat { x % TWO28 / 256 }

  function Middle(x: nat): nat { x / 16 % 16 }

  lemma {:induction false} XorSmall(a: nat, b: nat, k: nat)
    requires a < Pow2(k) && b < Pow2(k)
    ensures Xor(a, b) < Pow2(k)
  {
    if k > 0 {
      XorSmall(a / 2, b / 2, k - 1);
    }
  }

  lemma {:induction false} XorCancel(a: nat, b: nat, c: nat)
    requires Xor(a, b) == Xor(a, c)
    ensures b == c
  {
    if b != 0 || c != 0 {
      XorUnfold(a, b);
      XorUnfold(a, c);
      hide Xor;
      Parities(a, b, c, Xor(a / 2, b / 2), Xor(a / 2, c / 2));
      XorCancel(a / 2, b / 2, c / 2);
    }
  }

  lemma Parities(a: nat, b: nat, c: nat, p: nat, q: nat)
    requires (a + b) % 2 + 2 * p == (a + c) % 2 + 2 * q
    ensures p == q && b % 2 == c % 2
  {}

  lemma Digits(x: nat)
    ensures x % TWO28 == 256 * High(x) + (16 * Middle(x) + x % 16)
  {
    var r := x % TWO28;
    assert r == 256 * (r / 256) + r % 256;
    SameLow(x);
    assert x % 256 == 16 * (x % 256 / 16) + x % 256 % 16;
    SameDigits(x);
  }

  lemma SameLow(x: nat)
    ensures x % TWO28 % 256 == x % 256
  {
    var p, r := x / TWO28, x % TWO28;
    SameResidue(x, r, p * 0x10_0000, 256);
  }

  lemma SameDigits(x: nat)
    ensures x % 256 / 16 == x / 16 % 16 && x % 256 % 16 == x % 16
  {}

  // A round keeps the low digit of the shifted value and everything from bit 8 on, and folds the top digit
  // into the middle one.
  lemma RoundDigits(h: nat, b: byte, signed: bool)
    ensures var x := Shifted(h, b, signed, UINT32_RANGE);
      Xor(Middle(x), Nibble(x)) < 16 &&
      Round(h, b, signed, UINT32_RANGE) == 256 * High(x) + (16 * Xor(Middle(x), Nibble(x)) + x % 16)
  {
    var x := Shifted(h, b, signed, UINT32_RANGE);
    RoundFolds(h, b, signed);
    Digits(x);
    hide Round, Shifted, Xor, High, Middle, Nibble;
    FoldMiddle(High(x), Middle(x), x % 16, Nibble(x));
  }

  lemma FoldMiddle(high: nat, middle: nat, low: nat, t: nat)
    requires middle < 16 && low < 16 && t < 16
    ensures Xor(middle, t) < 16
    ensures Xor(256 * high + (16 * middle + low), t * 16) == 256 * high + (16 * Xor(middle, t) + low)
  {
    assert Pow2(4) == 16 && Pow2(8) == 256;
    XorSmall(middle, t, 4);
    hide Xor, Pow2, Shl;
    XorSplit(middle, low, t, 0, 4);
    ShlIsProduct(middle, 4);
    ShlIsProduct(t, 4);
    ShlIsProduct(Xor(middle, t), 4);
    XorZero(low);
    XorSplit(high, 16 * middle + low, 0, t * 16, 8);
    ShlIsProduct(high, 8);
    ShlIsProduct(0, 8);
    XorZero(high);
    ShlIsProduct(Xor(high, 0), 8);
  }

  lemma Compose(high: nat, middle: nat, low: nat, high': nat, middle': nat, low': nat)
    requires middle < 16 && low < 16 && middle' < 16 && low' < 16
    requires 256 * high + (16 * middle + low) == 256 * high' + (16 * middle' + low')
    ensures high == high' && middle == middle' && low == low'
  {}

  // The low digit of the state is the low digit of the last character, signed or not.
  lemma LowDigit(h: nat, b: byte, signed: bool)
    ensures Round(h, b, signed, UINT32_RANGE) % 16 == b % 16
  {
    RoundDigits(h, b, signed);
    var x := Shifted(h, b, signed, UINT32_RANGE);
    ShiftedLowDigit(h, b, signed);
    hide Round, Shifted, Xor, High, Middle, Nibble;
    LowOf(256 * High(x) + (16 * Xor(Middle(x), Nibble(x)) + x % 16), High(x), Xor(Middle(x), Nibble(x)), x % 16);
  }

  lemma LowOf(v: nat, high: nat, middle: nat, low: nat)
    requires low < 16 && v == 256 * high + (16 * middle + low)
    ensures v % 16 == low
  {
    SameResidue(v, low, 16 * high + middle, 16);
  }

  lemma ShiftedLowDigit(h: nat, b: byte, signed: bool)
    ensures Shifted(h, b, signed, UINT32_RANGE) % 16 == b % 16
  {
    var raw := h * 16 + Extend(b, signed, UINT32_RANGE);
    SameResidue(raw % UINT32_RANGE, raw, -(raw / UINT32_RANGE) * 0x1000_0000, 16);
    SameResidue(raw, b, h + if signed && 128 <= b then 0xFFF_FFF0 else 0, 16);
  }

  lemma LowDigitsAgree(s: seq<byte>)
    ensures Hash32(s, true) % 16 == Hash32(s, false) % 16
  {
    if s != [] {
      var t, c := s[..|s| - 1], s[|s| - 1];
      assert s == t + [c];
      HashNext(t, c, true);
      HashNext(t, c, false);
      LowDigit(Hash32(t, true), c, true);
      LowDigit(Hash32(t, false), c, false);
    }
  }

  // ---- A round keeps different states with the same low digit different ----

  lemma UnsignedShift(h: nat, b: byte)
    ensures Shifted(h, b, false, UINT32_RANGE) == (h * 16 + b) % UINT32_RANGE
  {}

  lemma RoundInjective(h: nat, g: nat, b: byte)
    requires h < TWO28 && g < TWO28 && h % 16 == g % 16
    requires Round(h, b, false, UINT32_RANGE) == Round(g, b, false, UINT32_RANGE)
    ensures h == g
  {
    UnsignedShift(h, b);
    UnsignedShift(g, b);
    RoundDigits(h, b, false);
    RoundDigits(g, b, false);
    hide Round, Shifted, Xor, High, Middle, Nibble;
    var x, y := Shifted(h, b, false, UINT32_RANGE), Shifted(g, b, false, UINT32_RANGE);
    Compose(High(x), Xor(Middle(x), Nibble(x)), x % 16, High(y), Xor(Middle(y), Nibble(y)), y % 16);
    SameMiddle(h, g, b);
    XorCancel(Middle(x), Nibble(x), Nibble(y));
    SameShift(x, y);
    ShiftInjective(h, g, b);
  }

  // The middle digit of the shifted value comes from the low digit of the state.
  lemma SameMiddle(h: nat, g: nat, b: byte)
    requires h % 16 == g % 16
    ensures Middle((h * 16 + b) % UINT32_RANGE) == Middle((g * 16 + b) % UINT32_RANGE)
  {
    MiddleOf(h, b);
    MiddleOf(g, b);
  }

  lemma MiddleOf(h: nat, b: byte)
    ensures Middle((h * 16 + b) % UINT32_RANGE) == Middle(h % 16 * 16 + b)
  {
    var raw := h * 16 + b;
    var x, y := raw % UINT32_RANGE, h % 16 * 16 + b;
    SameResidue(x, raw, -(raw / UINT32_RANGE) * 0x100_0000, 256);
    SameResidue(raw, y, h / 16, 256);
    SameDigits(x);
    SameDigits(y);
  }

  lemma SameShift(x: nat, y: nat)
    requires x < UINT32_RANGE && y < UINT32_RANGE
    requires High(x) == High(y) && Middle(x) == Middle(y) && x % 16 == y % 16 && Nibble(x) == Nibble(y)
    ensures x == y
  {
    Digits(x);
    Digits(y);
    NibbleSplit(x);
    NibbleSplit(y);
  }

  lemma ShiftInjective(h: nat, g: nat, b: nat)
    requires h < TWO28 && g < TWO28 && (h * 16 + b) % UINT32_RANGE == (g * 16 + b) % UINT32_RANGE
    ensures h == g
  {
    var p, q := (h * 16 + b) / UINT32_RANGE, (g * 16 + b) / UINT32_RANGE;
    assert (h - g) * 16 == (p - q) * UINT32_RANGE;
    assert h - g == (p - q) * TWO28;
    MultipleBound(p - q, TWO28);
  }

  // ---- What signed extension does to a round ----

  // The state that a round with an unsigned character would have to start from.
  function Lowered(h: nat, b: byte): (g: nat)
    requires h < TWO28
    ensures g < TWO28 && g % 16 == h % 16
  {
    if b < 128 then h
    else if 16 <= h then h - 16
    else h + TWO28 - 16
  }

  lemma SignedRound(h: nat, b: byte)
    requires h < TWO28
    ensures Round(h, b, true, UINT32_RANGE) == Round(Lowered(h, b), b, false, UINT32_RANGE)
  {
    hide Xor, Nibble;
    UnsignedShift(Lowered(h, b), b);
    if 128 <= b {
      var raw := h * 16 + (UINT32_RANGE - 256 + b);
      SameResidue(raw, Lowered(h, b) * 16 + b, if 16 <= h then 1 else 0, UINT32_RANGE);
    }
  }

  // ---- Main results ----

  // When the two states agree after one more character: an ASCII character changes nothing about it, and
  // one above ASCII makes them agree exactly when the signed one was 16 ahead, modulo 2^28.
  lemma AgreeNext(s: seq<byte>, c: byte)
    ensures Agree(s + [c]) <==>
      if c < 128 then Agree(s) else Hash32(s, true) == (Hash32(s, false) + 16) % TWO28
  {
    HashNext(s, c, true);
    HashNext(s, c, false);
    HashSmall(s, true);
    HashSmall(s, false);
    LowDigitsAgree(s);
    var h, g := Hash32(s, true), Hash32(s, false);
    hide Hash32, Round;
    SignedRound(h, c);
    if Agree(s + [c]) {
      RoundInjective(Lowered(h, c), g, c);
    }
  }

  // A character above ASCII makes agreeing states disagree.
  lemma HighNext(s: seq<byte>, c: byte)
    requires 128 <= c && Agree(s)
    ensures !Agree(s + [c])
  {
    AgreeNext(s, c);
    HashSmall(s, true);
    hide Hash32;
  }

  // A difference once made, and an agreement, stay until the next character above ASCII.
  lemma {:induction false} AsciiTail(s: seq<byte>, v: seq<byte>)
    requires Ascii(v)
    ensures Agree(s + v) <==> Agree(s)
  {
    hide Agree;
    if v == [] {
      assert s + v == s;
    } else {
      var n := |v| - 1;
      AsciiTail(s, v[..n]);
      AgreeNext(s + v[..n], v[n]);
      assert s + v == s + v[..n] + [v[n]];
    }
  }

  lemma AgreeEmpty()
    ensures Agree([])
  {}

  // Plain ASCII text hashes the same.
  lemma AsciiAgrees(s: seq<byte>)
    requires Ascii(s)
    ensures Agree(s)
  {
    hide Agree;
    AgreeEmpty();
    AsciiTail([], s);
    assert [] + s == s;
  }

  // A text with exactly one character above ASCII never does, wherever it stands.
  lemma OneHighByte(u: seq<byte>, c: byte, v: seq<byte>)
    requires Ascii(u) && 128 <= c && Ascii(v)
    ensures !Agree(u + [c] + v)
  {
    hide Agree;
    AsciiAgrees(u);
    HighNext(u, c);
    AsciiTail(u + [c], v);
  }

  lemma AgreePrefixesNext(s: seq<byte>, c: byte)
    ensures AgreeOnPrefixes(s + [c]) <==> AgreeOnPrefixes(s) && Agree(s + [c])
  {
    hide Agree;
    var t := s + [c];
    assert t[..|t|] == t;
    assert forall k :: 0 <= k <= |s| ==> t[..k] == s[..k];
  }

  // A text and all its prefixes hash the same if and only if the text is plain ASCII.
  lemma {:induction false} SignednessIff(s: seq<byte>)
    ensures AgreeOnPrefixes(s) <==> Ascii(s)
  {
    hide Agree;
    if s == [] {
      AgreeEmpty();
    } else {
      var t, c := s[..|s| - 1], s[|s| - 1];
      assert s == t + [c];
      SignednessIff(t);
      AgreePrefixesNext(t, c);
      if AgreeOnPrefixes(t) {
        assert t[..|t|] == t;
        if c < 128 {
          AgreeNext(t, c);
        } else {
          HighNext(t, c);
        }
      }
    }
  }

  // The two hashes really differ for some text: the single byte 0x80.
  lemma SignednessCounterexample()
    ensures !Agree([128])
  {
    assert [] + [128] + [] == [128];
    OneHighByte([], 128, []);
  }

  // ---- Two characters above ASCII can cancel ----

  // One round on numbers: the shifted value x with its top digit t.
  lemma RoundIs(s: seq<byte>, b: byte, signed: bool, x: nat, t: nat, h: nat)
    requires x == (Hash32(s, signed) * 16 + if signed && 128 <= b then UINT32_RANGE - 256 + b else b) % UINT32_RANGE
    requires t == x / TWO28 && h == 256 * (x % TWO28 / 256) + (16 * Xor(x / 16 % 16, t) + x % 16)
    ensures Hash32(s + [b], signed) == h
  {
    HashNext(s, b, signed);
    RoundDigits(Hash32(s, signed), b, signed);
    hide Hash32, Round, Xor;
    assert t < 16;
  }

  lemma XorValues()
    ensures Xor(3, 4) == 7 && Xor(4, 6) == 2 && Xor(7, 2) == 5 && Xor(7, 3) == 4
    ensures forall a: nat :: Xor(a, 0) == a
  {
    forall a: nat ensures Xor(a, 0) == a {
      XorZero(a);
    }
    assert Xor(0, 1) == 1 && Xor(1, 0) == 1 && Xor(1, 1) == 0;
    assert Xor(1, 2) == 3 && Xor(2, 3) == 1 && Xor(3, 1) == 2;
  }

  lemma EmptyHash(signed: bool)
    ensures Hash32([], signed) == 0
  {}

  lemma SignedStart(s: seq<byte>)
    requires Hash32(s, true) == 0
    ensures Hash32(s + [63] + [108] + [102], true) == 17958
  {
    XorValues();
    hide Hash32, Xor;
    RoundIs(s, 63, true, 63, 0, 63);
    RoundIs(s + [63], 108, true, 1116, 0, 1116);
    RoundIs(s + [63] + [108], 102, true, 17958, 0, 17958);
  }

  lemma SignedMiddle(s: seq<byte>)
    requires Hash32(s, true) == 17958
    ensures Hash32(s + [161] + [80] + [110], true) == 73533038
  {
    XorValues();
    hide Hash32, Xor;
    RoundIs(s, 161, true, 287233, 0, 287233);
    RoundIs(s + [161], 80, true, 4595808, 0, 4595808);
    RoundIs(s + [161] + [80], 110, true, 73533038, 0, 73533038);
  }

  lemma SignedEnd(s: seq<byte>)
    requires Hash32(s, true) == 73533038
    ensures Hash32(s + [93] + [113] + [107], true) == 6783579
  {
    XorValues();
    hide Hash32, Xor;
    RoundIs(s, 93, true, 1176528701, 4, 102786941);
    RoundIs(s + [93], 113, true, 1644591169, 6, 33978401);
    RoundIs(s + [93] + [113], 107, true, 543654523, 2, 6783579);
  }

  lemma UnsignedStart(s: seq<byte>)
    requires Hash32(s, false) == 0
    ensures Hash32(s + [63] + [108] + [102], false) == 17958
  {
    XorValues();
    hide Hash32, Xor;
    RoundIs(s, 63, false, 63, 0, 63);
    RoundIs(s + [63], 108, false, 1116, 0, 1116);
    RoundIs(s + [63] + [108], 102, false, 17958, 0, 17958);
  }

  lemma UnsignedMiddle(s: seq<byte>)
    requires Hash32(s, false) == 17958
    ensures Hash32(s + [161] + [80] + [110], false) == 73598574
  {
    XorValues();
    hide Hash32, Xor;
    RoundIs(s, 161, false, 287489, 0, 287489);
    RoundIs(s + [161], 80, false, 4599904, 0, 4599904);
    RoundIs(s + [161] + [80], 110, false, 73598574, 0, 73598574);
  }

  lemma UnsignedEnd(s: seq<byte>)
    requires Hash32(s, false) == 73598574
    ensures Hash32(s + [93] + [113] + [107], false) == 6783563
  {
    XorValues();
    hide Hash32, Xor;
    RoundIs(s, 93, false, 1177577277, 4, 103835517);
    RoundIs(s + [93], 113, false, 1661368385, 6, 50755617);
    RoundIs(s + [93] + [113], 107, false, 812089979, 3, 6783563);
  }

  const Head: seq<byte> := [63, 108, 102, 161, 80, 110, 93, 113, 107]

  lemma HeadSplit()
    ensures Head == [] + [63] + [108] + [102] + [161] + [80] + [110] + [93] + [113] + [107]
  {}

  lemma HeadHashes()
    ensures Hash32(Head, true) == 6783579 && Hash32(Head, false) == 6783563
  {
    HeadSplit();
    EmptyHash(true);
    EmptyHash(false);
    hide Hash32, Head;
    SignedStart([]);
    UnsignedStart([]);
    SignedMiddle([] + [63] + [108] + [102]);
    UnsignedMiddle([] + [63] + [108] + [102]);
    SignedEnd([] + [63] + [108] + [102] + [161] + [80] + [110]);
    UnsignedEnd([] + [63] + [108] + [102] + [161] + [80] + [110]);
  }

  // The converse of AsciiAgrees fails: a text that is not ASCII, with a prefix that hashes differently, may
  // hash the same.
  lemma CancelCounterexample()
    ensures !Agree(Head) && Agree(Head + [144]) && !Ascii(Head + [144])
  {
    HeadHashes();
    AgreeNext(Head, 144);
    hide Hash32;
    assert (Head + [144])[9] == 144;
  }
}
