// The fallbacks of a locale file: how many there are, and where they can lead.
module LocaleFallbacks {
  import opened Arithmetic
  import opened Strings
  import opened LocaleMask
  import opened LocaleFile

  predicate Eligible(cnt: nat, mask: nat) {
    Dominated(cnt, mask) && (!Has(cnt, CEN_SPECIFIC) || !Has(cnt, XPG_SPECIFIC))
      && (!Has(cnt, XPG_CODESET) || !Has(cnt, XPG_NORM_CODESET))
  }

  // One sub-mask: a file per directory of a real list, or the one file otherwise.
  function PerDir(dirs: seq<Str>, cnt: nat, p: Parts): (r: seq<Str>)
    ensures |r| == |dirs|
  {
    if dirs == [] then [] else PerDir(dirs[..|dirs| - 1], cnt, p) + [FileName([dirs[|dirs| - 1]], cnt, p)]
  }

  function Row(dirs: seq<Str>, cnt: nat, p: Parts): seq<Str> {
    if |dirs| > 1 then PerDir(dirs, cnt, p) else [FileName(dirs, cnt, p)]
  }

  // The fallbacks for the sub-masks from hi down to lo.
  function Fallbacks(dirs: seq<Str>, mask: nat, p: Parts, hi: int, lo: nat): seq<Str>
    decreases hi - lo
  {
    if hi < lo then []
    else Fallbacks(dirs, mask, p, hi, lo + 1) + if Eligible(lo, mask) then Row(dirs, lo, p) else []
  }

  function DirCount(dirs: seq<Str>): nat {
    if dirs == [] then 1 else |dirs|
  }

  // successor[1] is part of the structure; the rest is added to the allocation.
  function Slots(dirs: seq<Str>, mask: nat): nat {
    1 + DirCount(dirs) * Pow2(Pop(mask)) + if DirCount(dirs) > 1 then 1 else 0
  }

  function Top(dirs: seq<Str>, mask: nat): int {
    if DirCount(dirs) > 1 then mask else mask - 1
  }

  // How many sub-masks the countdown uses.
  function Used(mask: nat, hi: int, lo: nat): nat
    decreases hi - lo
  {
    if hi < lo then 0 else Used(mask, hi, lo + 1) + if Eligible(lo, mask) then 1 else 0
  }

  lemma {:induction false} UsedBound(mask: nat, hi: int, lo: nat)
    requires lo <= hi + 1
    ensures Used(mask, hi, lo) <= SubMasks(mask, hi + 1) - SubMasks(mask, lo)
    decreases hi - lo
  {
    if lo <= hi {
      UsedBound(mask, hi, lo + 1);
      EligibleDominated(lo, mask);
      assert SubMasks(mask, lo + 1) == SubMasks(mask, lo) + if Dominated(lo, mask) then 1 else 0;
      hide Eligible, Dominated, SubMasks;
    }
  }

  lemma {:induction false} FallbacksLength(dirs: seq<Str>, mask: nat, p: Parts, hi: int, lo: nat)
    ensures |Fallbacks(dirs, mask, p, hi, lo)| == DirCount(dirs) * Used(mask, hi, lo)
    decreases hi - lo
  {
    hide Row, Eligible, DirCount;
    if hi >= lo {
      FallbacksLength(dirs, mask, p, hi, lo + 1);
      RowLength(dirs, lo, p);
      Distribute(DirCount(dirs), Used(mask, hi, lo + 1), 1);
    }
  }

  lemma Times(d: nat, x: int, y: int)
    requires x <= y
    ensures d * x <= d * y
  {}

  lemma Distribute(d: int, x: int, y: int)
    ensures d * (x + y) == d * x + d * y && d * 1 == d && d * 0 == 0
  {}

  lemma RowLength(dirs: seq<Str>, cnt: nat, p: Parts)
    ensures |Row(dirs, cnt, p)| == DirCount(dirs)
  {}

  lemma EligibleDominated(cnt: nat, mask: nat)
    ensures Eligible(cnt, mask) ==> Dominated(cnt, mask)
  {}

  // All fallbacks and the terminating NULL fit the array; with a single directory a slot stays free.
  lemma FallbacksFit(dirs: seq<Str>, mask: nat, p: Parts)
    requires mask < 65536
    ensures |Fallbacks(dirs, mask, p, Top(dirs, mask), 0)| + 1 <= Slots(dirs, mask)
  {
    hide Pop, Fallbacks, Dominated, Ones, Pow2;
    PopOnes(mask);
    SubMasksCount(mask);
    MaskDominated(mask);
    FallbacksLength(dirs, mask, p, Top(dirs, mask), 0);
    UsedBound(mask, Top(dirs, mask), 0);
    var d, n, used := DirCount(dirs), Pow2(Ones(mask)), Used(mask, Top(dirs, mask), 0);
    assert SubMasks(mask, mask + 1) == SubMasks(mask, mask) + 1;
    assert SubMasks(mask, 0) == 0;
    hide SubMasks, Used;
    Times(d, used, if d > 1 then n else n - 1);
    Distribute(d, n - 1, 1);
  }

  lemma {:induction false} FallbacksPrefix(dirs: seq<Str>, mask: nat, p: Parts, hi: int, lo: nat)
    ensures |Fallbacks(dirs, mask, p, hi, lo)| <= |Fallbacks(dirs, mask, p, hi, 0)|
    decreases lo
  {
    if lo > 0 {
      FallbacksPrefix(dirs, mask, p, hi, lo - 1);
      assert Fallbacks(dirs, mask, p, hi, lo - 1) ==
        if hi < lo - 1 then []
        else Fallbacks(dirs, mask, p, hi, lo) + if Eligible(lo - 1, mask) then Row(dirs, lo - 1, p) else [];
    }
  }

  lemma {:induction false} UsedIsListed(dirs: seq<Str>, mask: nat, p: Parts, hi: int, lo: nat, cnt: nat)
    requires lo <= cnt <= hi && Eligible(cnt, mask) && |dirs| <= 1
    ensures FileName(dirs, cnt, p) in Fallbacks(dirs, mask, p, hi, lo)
    decreases cnt - lo
  {
    hide Eligible, FileName;
    if lo < cnt {
      UsedIsListed(dirs, mask, p, hi, lo + 1, cnt);
    }
  }

  lemma {:induction false} FallbacksStart(dirs: seq<Str>, mask: nat, p: Parts, hi: int, lo: nat, c: nat)
    requires lo <= c
    ensures Fallbacks(dirs, mask, p, hi, c) <= Fallbacks(dirs, mask, p, hi, lo)
    decreases c - lo
  {
    hide Eligible, Row;
    if lo < c {
      FallbacksStart(dirs, mask, p, hi, lo + 1, c);
    }
  }

  lemma {:induction false} PerDirAt(dirs: seq<Str>, c: nat, p: Parts, j: nat)
    requires j < |dirs|
    ensures PerDir(dirs, c, p)[j] == FileName([dirs[j]], c, p)
  {
    hide FileName;
    if j < |dirs| - 1 {
      PerDirAt(dirs[..|dirs| - 1], c, p, j);
    }
  }

  // The order of the fallbacks: a sub-mask comes after all greater ones, and for each the directories in order.
  lemma FallbackAt(dirs: seq<Str>, mask: nat, p: Parts, hi: int, c: nat, j: nat)
    requires c <= hi && Eligible(c, mask) && j < DirCount(dirs)
    ensures var at := DirCount(dirs) * Used(mask, hi, c + 1) + j;
      at < |Fallbacks(dirs, mask, p, hi, 0)| &&
      Fallbacks(dirs, mask, p, hi, 0)[at] == FileName(if |dirs| > 1 then [dirs[j]] else dirs, c, p)
  {
    FallbacksStart(dirs, mask, p, hi, 0, c);
    FallbacksLength(dirs, mask, p, hi, c + 1);
    RowLength(dirs, c, p);
    if |dirs| > 1 {
      PerDirAt(dirs, c, p, j);
    }
    hide FileName, Used, Eligible, PerDir;
    assert Fallbacks(dirs, mask, p, hi, c) == Fallbacks(dirs, mask, p, hi, c + 1) + Row(dirs, c, p);
  }

  // ---- The bits of a mask ----

  lemma HasHalf(m: nat, bit: nat)
    ensures Has(m, 2 * bit) <==> Has(m / 2, bit)
    ensures Has(m, 1) <==> m % 2 == 1
    ensures Has(m, 2 * bit + 1) <==> m % 2 == 1 || Has(m / 2, bit)
  {
    AndUnfold(m, 2 * bit);
    AndUnfold(m, 2 * bit + 1);
    AndUnfold(m, 1);
    AndZero(m / 2);
    hide And;
  }

  lemma AndUnfold(m: nat, e: nat)
    ensures And(m, e) == (m % 2) * (e % 2) + 2 * And(m / 2, e / 2)
  {}

  // A sub-mask has no bit of its own.
  lemma {:induction false} DominatedHas(c: nat, m: nat, e: nat)
    requires Dominated(c, m) && Has(c, e)
    ensures Has(m, e)
  {
    DominatedStep(c, m);
    AndUnfold(c, e);
    AndUnfold(m, e);
    if And(c / 2, e / 2) != 0 {
      DominatedHas(c / 2, m / 2, e / 2);
    }
  }

  // Masks below 2^k with the same bits are the same.
  lemma {:induction false} SameMask(c: nat, m: nat, k: nat)
    requires c < Pow2(k) && m < Pow2(k)
    requires forall j: nat :: j < k ==> (Has(c, Pow2(j)) <==> Has(m, Pow2(j)))
    ensures c == m
  {
    if k > 0 {
      hide Has;
      forall j: nat | j < k - 1 ensures Has(c / 2, Pow2(j)) <==> Has(m / 2, Pow2(j)) {
        HasHalf(c, Pow2(j));
        HasHalf(m, Pow2(j));
        assert Pow2(j + 1) == 2 * Pow2(j);
      }
      SameMask(c / 2, m / 2, k - 1);
      HasHalf(c, 1);
      HasHalf(m, 1);
      assert Has(c, Pow2(0)) <==> Has(m, Pow2(0));
    }
  }

  // Taking one bit away.
  lemma {:induction false} WithoutBit(m: nat, k: nat)
    requires Has(m, Pow2(k))
    ensures Pow2(k) <= m && Dominated(m - Pow2(k), m)
    ensures forall j: nat :: Has(m - Pow2(k), Pow2(j)) <==> j != k && Has(m, Pow2(j))
  {
    HasHalf(m, 1);
    hide Has, Dominated;
    var c;
    if k == 0 {
      c := m - 1;
      assert c / 2 == m / 2;
      MaskDominated(m / 2);
    } else {
      var q := Pow2(k - 1);
      HasHalf(m, q);
      WithoutBit(m / 2, k - 1);
      c := m - 2 * q;
      assert c / 2 == m / 2 - q && c % 2 == m % 2;
    }
    DominatedStep(c, m);
    forall j: nat ensures Has(c, Pow2(j)) <==> j != k && Has(m, Pow2(j)) {
      HasHalf(c, if j > 0 then Pow2(j - 1) else 1);
      HasHalf(m, if j > 0 then Pow2(j - 1) else 1);
    }
  }

  lemma Powers()
    ensures Pow2(0) == 1 && Pow2(1) == 2 && Pow2(2) == 4 && Pow2(3) == 8
    ensures Pow2(4) == 16 && Pow2(5) == 32 && Pow2(6) == 64 && Pow2(7) == 128 && Pow2(8) == 256
  {
    assert Pow2(4) == 16;
  }

  // The two groups of bits that the loop tests at once.
  lemma Groups(c: nat)
    ensures Has(c, CEN_SPECIFIC) <==>
      Has(c, CEN_AUDIENCE) || Has(c, CEN_SPECIAL) || Has(c, CEN_SPONSOR) || Has(c, CEN_REVISION)
    ensures Has(c, XPG_SPECIFIC) <==> Has(c, XPG_CODESET) || Has(c, XPG_NORM_CODESET) || Has(c, XPG_MODIFIER)
  {
    hide Has;
    var c1, c2, c3 := c / 2, c / 2 / 2, c / 2 / 2 / 2;
    var c4, c5 := c3 / 2, c3 / 2 / 2;
    HasHalf(c, 35);
    HasHalf(c1, 17);
    HasHalf(c2, 8);
    HasHalf(c, 32);
    HasHalf(c1, 16);
    HasHalf(c2, 8);
    HasHalf(c, 2);
    HasHalf(c1, 1);
    HasHalf(c, 1);
    HasHalf(c2, 1);
    HasHalf(c, 76);
    HasHalf(c1, 38);
    HasHalf(c2, 19);
    HasHalf(c3, 9);
    HasHalf(c4, 4);
    HasHalf(c, 64);
    HasHalf(c1, 32);
    HasHalf(c2, 16);
    HasHalf(c3, 8);
    HasHalf(c4, 4);
    HasHalf(c, 8);
    HasHalf(c1, 4);
    HasHalf(c2, 2);
    HasHalf(c3, 1);
    HasHalf(c, 4);
    HasHalf(c1, 2);
    HasHalf(c2, 1);
    HasHalf(c3, 1);
  }

  // ---- Names of sub-masks ----

  // The name of a sub-mask is as long as the name of the mask: it has dropped nothing but one of the two
  // modifier bits and an empty sponsor in front of a revision.
  predicate SameLength(c: nat, m: nat, p: Parts) {
    && (Has(c, TERRITORY) == Has(m, TERRITORY))
    && (Has(c, XPG_CODESET) == Has(m, XPG_CODESET))
    && (Has(c, XPG_NORM_CODESET) == Has(m, XPG_NORM_CODESET))
    && (Has(c, CEN_SPECIAL) == Has(m, CEN_SPECIAL))
    && (Has(c, CEN_REVISION) == Has(m, CEN_REVISION))
    && ((Has(c, XPG_MODIFIER) || Has(c, CEN_AUDIENCE)) == (Has(m, XPG_MODIFIER) || Has(m, CEN_AUDIENCE)))
    && (Has(c, CEN_SPONSOR) == Has(m, CEN_SPONSOR) || (Has(m, CEN_REVISION) && p.sponsor == []))
  }

  ghost predicate Under(c: nat, m: nat) {
    forall e: nat :: Has(c, e) ==> Has(m, e)
  }

  lemma DominatedUnder(c: nat, m: nat)
    requires Dominated(c, m)
    ensures Under(c, m)
  {
    forall e: nat | Has(c, e) ensures Has(m, e) {
      DominatedHas(c, m, e);
    }
  }

  lemma Dropped(c: nat, m: nat, e: nat)
    requires Under(c, m)
    ensures Has(c, e) ==> Has(m, e)
  {}

  lemma SizeOfSubMask(c: nat, m: nat, p: Parts)
    requires Under(c, m)
    ensures LocaleSize(c, p) <= LocaleSize(m, p)
    ensures LocaleSize(c, p) == LocaleSize(m, p) <==> SameLength(c, m, p)
  {
    hide Has, Under;
    Dropped(c, m, TERRITORY);
    Dropped(c, m, XPG_CODESET);
    Dropped(c, m, XPG_NORM_CODESET);
    Dropped(c, m, CEN_SPECIAL);
    Dropped(c, m, XPG_MODIFIER);
    Dropped(c, m, CEN_AUDIENCE);
    Dropped(c, m, CEN_SPONSOR);
    Dropped(c, m, CEN_REVISION);
  }

  // With the same tag in front of the modifier the names are the same.
  lemma SameTag(c: nat, m: nat, p: Parts)
    requires Under(c, m) && SameLength(c, m, p) && Has(c, CEN_AUDIENCE) == Has(m, CEN_AUDIENCE)
    ensures Locale(c, p) == Locale(m, p)
  {
    hide Has;
  }

  lemma {:induction false} SharedPrefix(a: Str, x: Str, y: Str)
    ensures StrCmp(a + x, a + y) == StrCmp(x, y)
  {
    if a == [] {
      assert a + x == x && a + y == y;
    } else {
      assert (a + x)[1..] == a[1..] + x && (a + y)[1..] == a[1..] + y;
      SharedPrefix(a[1..], x, y);
    }
  }

  // What comes before the tag of the modifier, and after it.
  function Before(m: nat, p: Parts): Str {
    p.language
      + Tagged(Has(m, TERRITORY), UNDERSCORE, p.territory)
      + Tagged(Has(m, XPG_CODESET), DOT, p.codeset)
      + Tagged(Has(m, XPG_NORM_CODESET), DOT, p.normalized)
  }

  function Behind(m: nat, p: Parts): Str {
    p.modifier + Tagged(Has(m, CEN_SPECIAL), PLUS, p.special) + Tail(m, p)
  }

  lemma AroundTag(m: nat, p: Parts)
    requires Has(m, XPG_MODIFIER) || Has(m, CEN_AUDIENCE)
    ensures Locale(m, p) == Before(m, p) + ([if Has(m, CEN_AUDIENCE) then PLUS else AT] + Behind(m, p))
  {
    hide Has, Tail;
  }

  // A `+` that became a `@` makes the name greater.
  lemma OtherTag(dirs: seq<Str>, c: nat, m: nat, p: Parts)
    requires Under(c, m) && SameLength(c, m, p) && Has(m, CEN_AUDIENCE) && !Has(c, CEN_AUDIENCE)
    ensures Less(FileName(dirs, m, p), FileName(dirs, c, p))
  {
    SameBefore(c, m, p);
    NameAroundTag(dirs, c, p);
    NameAroundTag(dirs, m, p);
    hide Before, Behind, Has, FileName;
    var x, y := [PLUS] + Behind(m, p) + [SLASH] + p.filename, [AT] + Behind(c, p) + [SLASH] + p.filename;
    SharedPrefix(DirPart(dirs) + Before(m, p), x, y);
    assert x[0] == PLUS && y[0] == AT;
  }

  lemma SameBefore(c: nat, m: nat, p: Parts)
    requires Under(c, m) && SameLength(c, m, p) && Has(m, CEN_AUDIENCE) && !Has(c, CEN_AUDIENCE)
    ensures Before(c, p) == Before(m, p) && Has(c, XPG_MODIFIER)
  {}

  lemma NameAroundTag(dirs: seq<Str>, m: nat, p: Parts)
    requires Has(m, XPG_MODIFIER) || Has(m, CEN_AUDIENCE)
    ensures FileName(dirs, m, p) == (DirPart(dirs) + Before(m, p)) +
      ([if Has(m, CEN_AUDIENCE) then PLUS else AT] + Behind(m, p) + [SLASH] + p.filename)
  {
    AroundTag(m, p);
    hide Has, Locale, Before, Behind, DirPart;
  }

  lemma LengthOfName(dirs: seq<Str>, m: nat, p: Parts)
    ensures |FileName(dirs, m, p)| == |DirPart(dirs)| + LocaleSize(m, p) + 1 + |p.filename|
  {
    LocaleFits(m, p);
    hide Locale, LocaleSize;
  }

  // A sub-mask names the same file exactly if it drops nothing but the modifier bit beside the audience bit and
  // an empty sponsor in front of a revision. Otherwise the name is shorter, or it is as long and greater.
  lemma NameOfSubMask(dirs: seq<Str>, c: nat, m: nat, p: Parts)
    requires Dominated(c, m)
    ensures var x, y := FileName(dirs, m, p), FileName(dirs, c, p);
      if !SameLength(c, m, p) then |y| < |x|
      else |y| == |x| && if Has(c, CEN_AUDIENCE) == Has(m, CEN_AUDIENCE) then y == x else Less(x, y)
  {
    DominatedUnder(c, m);
    SizeOfSubMask(c, m, p);
    LengthOfName(dirs, c, p);
    LengthOfName(dirs, m, p);
    if SameLength(c, m, p) {
      Dropped(c, m, CEN_AUDIENCE);
      if Has(c, CEN_AUDIENCE) == Has(m, CEN_AUDIENCE) {
        SameTag(c, m, p);
      } else {
        OtherTag(dirs, c, m, p);
      }
    }
  }

  // ---- Where the fallbacks lead ----

  // The fallbacks are the rows of the eligible sub-masks.
  lemma {:induction false} FallbacksAre(dirs: seq<Str>, mask: nat, p: Parts, hi: int, lo: nat, n: Str)
    ensures n in Fallbacks(dirs, mask, p, hi, lo) <==>
      exists c: nat :: lo <= c <= hi && Eligible(c, mask) && n in Row(dirs, c, p)
    decreases hi - lo
  {
    hide Eligible, Row;
    if lo <= hi {
      FallbacksAre(dirs, mask, p, hi, lo + 1, n);
    }
  }

  lemma {:induction false} PerDirAre(dirs: seq<Str>, c: nat, p: Parts, n: Str)
    requires n in PerDir(dirs, c, p)
    ensures exists d :: d in dirs && n == FileName([d], c, p)
  {
    hide FileName;
    var k := |dirs| - 1;
    if n in PerDir(dirs[..k], c, p) {
      PerDirAre(dirs[..k], c, p, n);
    } else {
      assert dirs[k] in dirs && n == FileName([dirs[k]], c, p);
    }
  }

  lemma {:induction false} EachHolds(dirs: seq<Str>, d: Str, sep: byte)
    requires d in dirs
    ensures |d| + 1 <= |Each(dirs, sep)|
  {
    var k := |dirs| - 1;
    if dirs[k] != d {
      EachHolds(dirs[..k], d, sep);
    }
  }

  lemma DirPartIs(dirs: seq<Str>)
    requires dirs != []
    ensures |DirPart(dirs)| == |Each(dirs[..|dirs| - 1], COLON)| + |dirs[|dirs| - 1]| + 1
  {
    hide Each;
  }

  lemma ListIsLonger(dirs: seq<Str>, d: Str)
    requires |dirs| > 1 && d in dirs
    ensures |DirPart([d])| < |DirPart(dirs)|
  {
    var k := |dirs| - 1;
    DirPartIs(dirs);
    DirPartIs([d]);
    assert [d][..0] == [];
    assert Each([], COLON) == [];
    hide Each, DirPart;
    EachHolds(dirs[..k], if d in dirs[..k] then d else dirs[..k][0], COLON);
    assert d == dirs[k] || d in dirs[..k];
  }

  // A name comes later: it is shorter, or as long and greater.
  predicate Later(y: Str, x: Str) {
    |y| < |x| || (|y| == |x| && Less(x, y))
  }

  lemma LaterTrans(a: Str, b: Str, c: Str)
    requires Later(c, b) && Later(b, a)
    ensures Later(c, a)
  {
    hide Less;
    if |a| == |b| == |c| {
      LessTrans(a, b, c);
    }
  }

  lemma LaterIrreflexive(a: Str)
    ensures !Later(a, a)
  {
    StrCmpZero(a, a);
  }

  // Every fallback is the file itself or a later name.
  lemma FallbackLater(dirs: seq<Str>, mask: nat, p: Parts, n: Str)
    requires n in Fallbacks(dirs, mask, p, Top(dirs, mask), 0)
    ensures n == FileName(dirs, mask, p) || Later(n, FileName(dirs, mask, p))
    ensures |dirs| > 1 ==> |n| < |FileName(dirs, mask, p)|
  {
    FallbacksAre(dirs, mask, p, Top(dirs, mask), 0, n);
    hide Fallbacks, FileName, SameLength, Less;
    var c: nat :| c <= Top(dirs, mask) && Eligible(c, mask) && n in Row(dirs, c, p);
    if |dirs| > 1 {
      hide Has;
      PerDirAre(dirs, c, p, n);
      var d :| d in dirs && n == FileName([d], c, p);
      DominatedUnder(c, mask);
      SizeOfSubMask(c, mask, p);
      LengthOfName([d], c, p);
      LengthOfName(dirs, mask, p);
      ListIsLonger(dirs, d);
    } else {
      NameOfSubMask(dirs, c, mask, p);
    }
  }

  // ---- When a file is one of its own fallbacks ----

  // Neither spelling of a codeset, and either both modifier bits, or no modifier and an empty sponsor in front
  // of a revision.
  predicate LoopsBack(mask: nat, p: Parts) {
    && !Has(mask, XPG_CODESET) && !Has(mask, XPG_NORM_CODESET)
    && ((Has(mask, XPG_MODIFIER) && Has(mask, CEN_AUDIENCE)) ||
        (Has(mask, CEN_SPONSOR) && Has(mask, CEN_REVISION) && p.sponsor == [] && !Has(mask, XPG_MODIFIER)))
  }

  // The sub-mask that names the same file must have dropped the modifier bit or the sponsor.
  lemma OtherMask(c: nat, m: nat, p: Parts)
    requires c < m < 256 && Under(c, m) && SameLength(c, m, p) && Has(c, CEN_AUDIENCE) == Has(m, CEN_AUDIENCE)
    ensures Has(m, XPG_MODIFIER) != Has(c, XPG_MODIFIER) || Has(m, CEN_SPONSOR) != Has(c, CEN_SPONSOR)
  {
    Powers();
    hide Has, Under, Pow2;
    if Has(m, XPG_MODIFIER) == Has(c, XPG_MODIFIER) && Has(m, CEN_SPONSOR) == Has(c, CEN_SPONSOR) {
      forall j: nat | j < 8 ensures Has(c, Pow2(j)) <==> Has(m, Pow2(j)) {
        assert j in {0, 1, 2, 3, 4, 5, 6, 7};
      }
      SameMask(c, m, 8);
    }
  }

  lemma OwnFallbackOnly(dirs: seq<Str>, m: nat, p: Parts, c: nat)
    requires c < m < 256 && Eligible(c, m) && FileName(dirs, c, p) == FileName(dirs, m, p)
    ensures LoopsBack(m, p)
  {
    NameOfSubMask(dirs, c, m, p);
    LaterIrreflexive(FileName(dirs, m, p));
    DominatedUnder(c, m);
    Groups(c);
    hide FileName, Has, Under;
    OtherMask(c, m, p);
    Drops(c, m);
  }

  lemma Drops(c: nat, m: nat)
    requires Under(c, m)
    ensures Has(c, XPG_MODIFIER) ==> Has(m, XPG_MODIFIER)
    ensures Has(c, CEN_SPONSOR) ==> Has(m, CEN_SPONSOR)
  {}

  lemma OwnFallbackFound(dirs: seq<Str>, m: nat, p: Parts) returns (c: nat)
    requires m < 256 && LoopsBack(m, p)
    ensures c < m && Eligible(c, m) && FileName(dirs, c, p) == FileName(dirs, m, p)
  {
    Powers();
    hide Pow2;
    var k := if Has(m, XPG_MODIFIER) then 7 else 1;
    WithoutBit(m, k);
    c := m - Pow2(k);
    hide Has, FileName;
    BitsLeft(c, m, k);
    Groups(c);
    NameOfSubMask(dirs, c, m, p);
  }

  lemma BitsLeft(c: nat, m: nat, k: nat)
    requires forall j: nat :: Has(c, Pow2(j)) <==> j != k && Has(m, Pow2(j))
    requires k == 7 || k == 1
    ensures Has(c, CEN_REVISION) == Has(m, CEN_REVISION) && Has(c, CEN_SPECIAL) == Has(m, CEN_SPECIAL)
    ensures Has(c, XPG_NORM_CODESET) == Has(m, XPG_NORM_CODESET) && Has(c, XPG_CODESET) == Has(m, XPG_CODESET)
    ensures Has(c, TERRITORY) == Has(m, TERRITORY) && Has(c, CEN_AUDIENCE) == Has(m, CEN_AUDIENCE)
    ensures Has(c, CEN_SPONSOR) == (k != 1 && Has(m, CEN_SPONSOR))
    ensures Has(c, XPG_MODIFIER) == (k != 7 && Has(m, XPG_MODIFIER))
  {
    Powers();
    hide Has, Pow2;
    assert Has(c, Pow2(0)) == Has(m, Pow2(0)) && Has(c, Pow2(2)) == Has(m, Pow2(2));
    assert Has(c, Pow2(3)) == Has(m, Pow2(3)) && Has(c, Pow2(4)) == Has(m, Pow2(4));
    assert Has(c, Pow2(5)) == Has(m, Pow2(5)) && Has(c, Pow2(6)) == Has(m, Pow2(6));
    assert Has(c, Pow2(1)) == (k != 1 && Has(m, Pow2(1))) && Has(c, Pow2(7)) == (k != 7 && Has(m, Pow2(7)));
  }

  // Exactly when a file is one of its own fallbacks.
  lemma OwnFallbackIff(dirs: seq<Str>, m: nat, p: Parts)
    requires m < 256
    ensures FileName(dirs, m, p) in Fallbacks(dirs, m, p, Top(dirs, m), 0) <==> |dirs| <= 1 && LoopsBack(m, p)
  {
    var x := FileName(dirs, m, p);
    hide FileName, LoopsBack, Eligible;
    if x in Fallbacks(dirs, m, p, Top(dirs, m), 0) {
      FallbackLater(dirs, m, p, x);
      FallbacksAre(dirs, m, p, Top(dirs, m), 0, x);
      var c: nat :| c <= Top(dirs, m) && Eligible(c, m) && x in Row(dirs, c, p);
      OwnFallbackOnly(dirs, m, p, c);
    }
    if |dirs| <= 1 && LoopsBack(m, p) {
      var c := OwnFallbackFound(dirs, m, p);
      UsedIsListed(dirs, m, p, Top(dirs, m), 0, c);
    }
  }
}
