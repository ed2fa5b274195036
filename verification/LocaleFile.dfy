// The name of a locale file: its size as computed beforehand, and its construction in the buffer.
module LocaleFile {
  import opened Strings
  import opened LocaleMask

  const CEN_REVISION := 1
  const CEN_SPONSOR := 2
  const CEN_SPECIAL := 4
  const XPG_NORM_CODESET := 8
  const XPG_CODESET := 16
  const TERRITORY := 32
  const CEN_AUDIENCE := 64
  const XPG_MODIFIER := 128
  const CEN_SPECIFIC := 71    // REVISION, SPONSOR, SPECIAL, AUDIENCE
  const XPG_SPECIFIC := 152   // CODESET, NORM_CODESET, MODIFIER

  // ASCII codes of the separators.
  const UNDERSCORE: byte := 95
  const DOT: byte := 46
  const PLUS: byte := 43
  const AT: byte := 64
  const COMMA: byte := 44

  datatype Parts = Parts(
    language: Str, territory: Str, codeset: Str, normalized: Str, modifier: Str,
    special: Str, sponsor: Str, revision: Str, filename: Str)

  predicate Has(mask: nat, bit: nat) {
    And(mask, bit) != 0
  }

  lemma HasTwice(mask: nat, bit: nat)
    ensures Has(mask, 2 * bit) <==> Has(mask / 2, bit)
  {}

  lemma HasOne(mask: nat)
    ensures Has(mask, 1) <==> mask % 2 == 1
  {
    AndZero(mask / 2);
  }

  // Bit by bit: the parts are the binary digits of the mask.
  lemma HasIs(mask: nat)
    ensures Has(mask, CEN_REVISION) <==> mask % 2 == 1
    ensures Has(mask, CEN_SPONSOR) <==> mask / 2 % 2 == 1
    ensures Has(mask, CEN_SPECIAL) <==> mask / 4 % 2 == 1
    ensures Has(mask, XPG_NORM_CODESET) <==> mask / 8 % 2 == 1
    ensures Has(mask, XPG_CODESET) <==> mask / 16 % 2 == 1
    ensures Has(mask, TERRITORY) <==> mask / 32 % 2 == 1
    ensures Has(mask, CEN_AUDIENCE) <==> mask / 64 % 2 == 1
    ensures Has(mask, XPG_MODIFIER) <==> mask / 128 % 2 == 1
  {
    hide Has, BitValue, HalvedTimes;
    BitValues();
    HalvedValues(mask);
    HasBit(mask, 0);
    HasBit(mask, 1);
    HasBit(mask, 2);
    HasBit(mask, 3);
    HasBit(mask, 4);
    HasBit(mask, 5);
    HasBit(mask, 6);
    HasBit(mask, 7);
  }

  function BitValue(k: nat): nat {
    if k == 0 then 1 else 2 * BitValue(k - 1)
  }

  function HalvedTimes(x: nat, k: nat): nat {
    if k == 0 then x else HalvedTimes(x / 2, k - 1)
  }

  lemma BitValues()
    ensures BitValue(0) == 1 && BitValue(1) == 2 && BitValue(2) == 4 && BitValue(3) == 8
    ensures BitValue(4) == 16 && BitValue(5) == 32 && BitValue(6) == 64 && BitValue(7) == 128
  {}

  lemma HalvedValues(x: nat)
    ensures HalvedTimes(x, 0) == x && HalvedTimes(x, 1) == x / 2 && HalvedTimes(x, 2) == x / 4
    ensures HalvedTimes(x, 3) == x / 8 && HalvedTimes(x, 4) == x / 16 && HalvedTimes(x, 5) == x / 32
    ensures HalvedTimes(x, 6) == x / 64 && HalvedTimes(x, 7) == x / 128
  {
    HalvedAgain(x, 0);
    HalvedAgain(x, 1);
    HalvedAgain(x, 2);
    HalvedAgain(x, 3);
    HalvedAgain(x, 4);
    HalvedAgain(x, 5);
    HalvedAgain(x, 6);
    assert HalvedTimes(x, 0) == x;
    hide HalvedTimes;
  }

  lemma {:induction false} HalvedAgain(x: nat, k: nat)
    ensures HalvedTimes(x, k + 1) == HalvedTimes(x, k) / 2
  {
    if k > 0 {
      HalvedAgain(x / 2, k - 1);
    }
  }

  lemma {:induction false} HasBit(mask: nat, k: nat)
    ensures Has(mask, BitValue(k)) <==> HalvedTimes(mask, k) % 2 == 1
  {
    if k == 0 {
      HasOne(mask);
    } else {
      HasTwice(mask, BitValue(k - 1));
      HasBit(mask / 2, k - 1);
    }
  }

  // ---- The name as a string ----

  // An argz list: every element is followed by `sep`; the list itself uses NUL.
  function Each(dirs: seq<Str>, sep: byte): Str {
    if dirs == [] then [] else Each(dirs[..|dirs| - 1], sep) + dirs[|dirs| - 1] + [sep]
  }

  predicate NulFree(dirs: seq<Str>) {
    forall i :: 0 <= i < |dirs| ==> 0 !in dirs[i]
  }

  function DirPart(dirs: seq<Str>): Str {
    if dirs == [] then [] else Each(dirs[..|dirs| - 1], COLON) + dirs[|dirs| - 1] + [SLASH]
  }

  function Tagged(present: bool, tag: byte, s: Str): Str {
    if present then [tag] + s else []
  }

  function Tail(mask: nat, p: Parts): Str {
    if Has(mask, CEN_SPONSOR) || Has(mask, CEN_REVISION) then
      [COMMA] + (if Has(mask, CEN_SPONSOR) then p.sponsor else [])
        + Tagged(Has(mask, CEN_REVISION), UNDERSCORE, p.revision)
    else []
  }

  function Locale(mask: nat, p: Parts): Str {
    p.language
      + Tagged(Has(mask, TERRITORY), UNDERSCORE, p.territory)
      + Tagged(Has(mask, XPG_CODESET), DOT, p.codeset)
      + Tagged(Has(mask, XPG_NORM_CODESET), DOT, p.normalized)
      + Tagged(
          Has(mask, XPG_MODIFIER) || Has(mask, CEN_AUDIENCE), if Has(mask, CEN_AUDIENCE) then PLUS else AT, p.modifier)
      + Tagged(Has(mask, CEN_SPECIAL), PLUS, p.special)
      + Tail(mask, p)
  }

  function FileName(dirs: seq<Str>, mask: nat, p: Parts): Str {
    DirPart(dirs) + Locale(mask, p) + [SLASH] + p.filename
  }

  // A name in the syntax of X/Open, with the codeset as given or normalized.
  lemma XpgName(p: Parts)
    ensures Locale(TERRITORY + XPG_CODESET + XPG_MODIFIER, p) ==
      p.language + [UNDERSCORE] + p.territory + [DOT] + p.codeset + [AT] + p.modifier
    ensures Locale(TERRITORY + XPG_NORM_CODESET + XPG_MODIFIER, p) ==
      p.language + [UNDERSCORE] + p.territory + [DOT] + p.normalized + [AT] + p.modifier
  {
    XpgParts();
    NormParts();
    hide Has;
    Regroup(p.language, [UNDERSCORE], p.territory, [DOT], p.codeset, [AT], p.modifier);
    Regroup(p.language, [UNDERSCORE], p.territory, [DOT], p.normalized, [AT], p.modifier);
  }

  // Directories are joined by colons; the last one is followed by a slash.
  lemma DirPartIs(dirs: seq<Str>, d: Str)
    ensures DirPart([d]) == d + [47]
    ensures dirs != [] ==> DirPart(dirs + [d]) == DirPart(dirs)[..|DirPart(dirs)| - 1] + [58] + d + [47]
  {
    assert [d][..0] == [] && (dirs + [d])[..|dirs|] == dirs;
  }

  // A file in one directory.
  lemma XpgPath(d: Str, p: Parts)
    ensures FileName([d], TERRITORY + XPG_CODESET + XPG_MODIFIER, p) ==
      d + [47] + (p.language + [95] + p.territory + [46] + p.codeset + [64] + p.modifier) + [47] + p.filename
  {
    DirPartIs([], d);
    XpgName(p);
    hide Locale, DirPart;
  }

  lemma Regroup(a: Str, b: Str, c: Str, d: Str, e: Str, f: Str, g: Str)
    ensures a + (b + c) + (d + e) + [] + (f + g) + [] + [] == a + b + c + d + e + f + g
    ensures a + (b + c) + [] + (d + e) + (f + g) + [] + [] == a + b + c + d + e + f + g
  {}

  lemma XpgParts()
    ensures TERRITORY + XPG_CODESET + XPG_MODIFIER == 176
    ensures Has(176, TERRITORY) && Has(176, XPG_CODESET) && !Has(176, XPG_NORM_CODESET) && Has(176, XPG_MODIFIER)
    ensures !Has(176, CEN_AUDIENCE) && !Has(176, CEN_SPECIAL) && !Has(176, CEN_SPONSOR) && !Has(176, CEN_REVISION)
  {
    hide Has;
    HasIs(176);
  }

  lemma NormParts()
    ensures TERRITORY + XPG_NORM_CODESET + XPG_MODIFIER == 168
    ensures Has(168, TERRITORY) && !Has(168, XPG_CODESET) && Has(168, XPG_NORM_CODESET) && Has(168, XPG_MODIFIER)
    ensures !Has(168, CEN_AUDIENCE) && !Has(168, CEN_SPECIAL) && !Has(168, CEN_SPONSOR) && !Has(168, CEN_REVISION)
  {
    hide Has;
    HasIs(168);
  }

  // A name in the syntax of CEN.
  lemma CenName(p: Parts)
    ensures Locale(TERRITORY + CEN_SPECIFIC, p) ==
      p.language + ([UNDERSCORE] + p.territory) + ([PLUS] + p.modifier) + ([PLUS] + p.special) +
      ([COMMA] + p.sponsor + ([UNDERSCORE] + p.revision))
  {
    CenParts();
    hide Has;
  }

  lemma CenParts()
    ensures TERRITORY + CEN_SPECIFIC == 103
    ensures Has(103, TERRITORY) && !Has(103, XPG_CODESET) && !Has(103, XPG_NORM_CODESET) && !Has(103, XPG_MODIFIER)
    ensures Has(103, CEN_AUDIENCE) && Has(103, CEN_SPECIAL) && Has(103, CEN_SPONSOR) && Has(103, CEN_REVISION)
  {
    hide Has;
    HasIs(103);
  }

  // ---- The size that is allocated ----

  function LocaleSize(mask: nat, p: Parts): nat {
    |p.language|
      + (if Has(mask, TERRITORY) then |p.territory| + 1 else 0)
      + (if Has(mask, XPG_CODESET) then |p.codeset| + 1 else 0)
      + (if Has(mask, XPG_NORM_CODESET) then |p.normalized| + 1 else 0)
      + (if Has(mask, XPG_MODIFIER) || Has(mask, CEN_AUDIENCE) then |p.modifier| + 1 else 0)
      + (if Has(mask, CEN_SPECIAL) then |p.special| + 1 else 0)
      + (if Has(mask, CEN_SPONSOR) || Has(mask, CEN_REVISION) then
           1 + (if Has(mask, CEN_SPONSOR) then |p.sponsor| else 0) +
           (if Has(mask, CEN_REVISION) then |p.revision| + 1 else 0)
         else 0)
  }

  function Size(dirlistLen: nat, mask: nat, p: Parts): nat {
    dirlistLen + LocaleSize(mask, p) + 1 + |p.filename| + 1
  }

  lemma LocaleFits(mask: nat, p: Parts)
    ensures |Locale(mask, p)| == LocaleSize(mask, p)
  {
    hide Has;
  }

  lemma EachFits(dirs: seq<Str>, sep: byte)
    requires dirs != []
    ensures |Each(dirs, sep)| == |DirPart(dirs)|
  {
    EachLength(dirs[..|dirs| - 1], sep, COLON);
  }

  lemma {:induction false} EachLength(dirs: seq<Str>, sep: byte, other: byte)
    ensures |Each(dirs, sep)| == |Each(dirs, other)|
  {
    if dirs != [] {
      EachLength(dirs[..|dirs| - 1], sep, other);
    }
  }

  // The name and its terminating NUL fill the allocated size exactly.
  lemma NameFits(dirs: seq<Str>, mask: nat, p: Parts)
    ensures |FileName(dirs, mask, p)| + 1 == Size(|Each(dirs, 0)|, mask, p)
  {
    LocaleFits(mask, p);
    hide Locale, LocaleSize;
    if dirs != [] {
      EachFits(dirs, 0);
    }
  }

  // ---- Writing into the buffer ----

  method StpCpy(a: array<byte>, cp: nat, s: Str) returns (end: nat)
    requires cp + |s| < a.Length
    modifies a
    ensures end == cp + |s| && a[..end] == old(a[..cp]) + s && a[end] == 0
  {
    var i := 0;
    while i < |s|
      invariant 0 <= i <= |s|
      invariant a[..cp + i] == old(a[..cp]) + s[..i]
    {
      a[cp + i] := s[i];
      i := i + 1;
    }
    a[cp + i] := 0;
    end := cp + i;
    assert s[..i] == s;
  }

  method Put(a: array<byte>, cp: nat, c: byte) returns (end: nat)
    requires cp < a.Length
    modifies a
    ensures end == cp + 1 && a[..end] == old(a[..cp]) + [c]
  {
    a[cp] := c;
    end := cp + 1;
  }

  method PutTagged(a: array<byte>, cp: nat, present: bool, tag: byte, s: Str) returns (end: nat)
    requires cp + |Tagged(present, tag, s)| < a.Length
    modifies a
    ensures end == cp + |Tagged(present, tag, s)| && a[..end] == old(a[..cp]) + Tagged(present, tag, s)
  {
    end := cp;
    if present {
      end := Put(a, end, tag);
      end := StpCpy(a, end, s);
    }
  }

  // strlen from an offset of the buffer.
  method StrLen(a: array<byte>, from: nat, ghost s: Str) returns (n: nat)
    requires from + |s| < a.Length && 0 !in s
    requires a[from..from + |s|] == s && a[from + |s|] == 0
    ensures n == |s|
  {
    n := 0;
    assert forall k :: 0 <= k < |s| ==> a[from + k] == s[k];
    while a[from + n] != 0
      invariant 0 <= n <= |s|
      decreases |s| - n
    {
      n := n + 1;
    }
  }

  lemma {:induction false} EachAppend(a: seq<Str>, b: seq<Str>, sep: byte)
    ensures Each(a + b, sep) == Each(a, sep) + Each(b, sep)
  {
    if b == [] {
      assert a + b == a;
    } else {
      var n := |b| - 1;
      EachAppend(a, b[..n], sep);
      assert (a + b)[..|a + b| - 1] == a + b[..n] && (a + b)[|a + b| - 1] == b[n];
    }
  }

  // The part of the list that has not been turned into a path yet starts with element k.
  lemma EachAt(dirs: seq<Str>, k: nat)
    requires k < |dirs|
    ensures var d := Each(dirs[..k], 0);
      Each(dirs, 0) == d + (dirs[k] + [0] + Each(dirs[k + 1..], 0)) && |Each(dirs[..k + 1], 0)| == |d| + |dirs[k]| + 1
    ensures k + 1 < |dirs| <==> |Each(dirs[..k + 1], 0)| < |Each(dirs, 0)|
    ensures |Each(dirs[..k], 0)| == |Each(dirs[..k], COLON)|
  {
    EachAppend(dirs[..k + 1], dirs[k + 1..], 0);
    assert dirs[..k + 1] + dirs[k + 1..] == dirs;
    assert dirs[..k + 1][..k] == dirs[..k];
    EachLength(dirs[..k], 0, COLON);
    if k + 1 < |dirs| {
      assert |dirs[k + 1..]| > 0;
    }
  }

  lemma EachNext(dirs: seq<Str>, k: nat)
    requires k < |dirs|
    ensures Each(dirs[..k + 1], COLON) == Each(dirs[..k], COLON) + dirs[k] + [COLON]
  {
    assert dirs[..k + 1][..k] == dirs[..k];
  }

  // One element is closed: either by a separator, when there are more, or it keeps its NUL.
  lemma Closed(before: Str, d: Str, rest: Str, c: byte)
    ensures (before + (d + [0] + rest))[|before| + |d| := c] == before + d + [c] + rest
  {
    var s := before + (d + [0] + rest);
    assert s == before + d + [0] + rest;
  }

  // memcpy of the argz list, __argz_stringify, and the final '/'.
  method CopyDirs(a: array<byte>, dirs: seq<Str>) returns (cp: nat)
    requires dirs != [] && NulFree(dirs) && |Each(dirs, 0)| <= a.Length
    modifies a
    ensures cp == |DirPart(dirs)| <= a.Length && a[..cp] == DirPart(dirs)
  {
    var dirlist := Each(dirs, 0);
    var len := |dirlist|;
    forall i | 0 <= i < len {
      a[i] := dirlist[i];
    }
    assert a[..len] == dirlist;
    Stringify(a, len, dirs);
    EachFits(dirs, 0);
    cp := len;
    ghost var s := a[..len];
    a[cp - 1] := SLASH;
    assert a[..cp] == s[cp - 1 := SLASH];
  }

  method Stringify(a: array<byte>, len: nat, ghost dirs: seq<Str>)
    requires dirs != [] && NulFree(dirs) && len == |Each(dirs, 0)| <= a.Length && a[..len] == Each(dirs, 0)
    modifies a
    ensures a[..len] == Each(dirs[..|dirs| - 1], COLON) + dirs[|dirs| - 1] + [0]
  {
    HalfStart(dirs);
    hide Each, Half, Joined;
    var argz, rest := 0, len;
    ghost var k, s := 0, a[..len];
    while rest > 0
      invariant rest >= 0 && a[..len] == s
      invariant rest > 0 ==> argz + rest == len && Half(s, dirs, k, argz)
      invariant rest == 0 ==> Joined(s, dirs)
    {
      argz, rest, s := JoinOne(a, argz, rest, len, dirs, k, s);
      k := k + 1;
    }
    JoinedIs(s, dirs);
  }

  // One round of the loop: past the element, and over its separator unless it is the last.
  method JoinOne(a: array<byte>, from: nat, left: nat, len: nat, ghost dirs: seq<Str>, ghost k: nat, ghost s: Str)
    returns (argz: nat, rest: nat, ghost t: Str)
    requires len <= a.Length && a[..len] == s && NulFree(dirs) && Half(s, dirs, k, from) && from + left == len
    modifies a
    ensures a[..len] == t
    ensures rest > 0 ==> argz + rest == len && Half(t, dirs, k + 1, argz)
    ensures rest == 0 ==> Joined(t, dirs)
    ensures rest < left
  {
    HalfStep(s, dirs, k, from);
    hide Half, Joined;
    var partLen := PartLen(a, from, len, dirs[k]);
    argz := from + partLen;
    rest := left - (partLen + 1);
    t := s;
    if rest > 0 {
      Separate(a, argz, len);
      t := s[argz := COLON];
      argz := argz + 1;
    }
  }

  // Every separator is in place and the last element has kept its NUL.
  ghost predicate Joined(s: Str, dirs: seq<Str>) {
    dirs != [] && s == Each(dirs[..|dirs| - 1], COLON) + dirs[|dirs| - 1] + [0]
  }

  lemma JoinedIs(s: Str, dirs: seq<Str>)
    requires Joined(s, dirs)
    ensures dirs != [] && s == Each(dirs[..|dirs| - 1], COLON) + dirs[|dirs| - 1] + [0]
  {}

  method PartLen(a: array<byte>, argz: nat, ghost len: nat, ghost d: Str) returns (n: nat)
    requires argz + |d| < len <= a.Length && 0 !in d
    requires a[..len][argz..argz + |d|] == d && a[..len][argz + |d|] == 0
    ensures n == |d|
  {
    assert a[argz..argz + |d|] == a[..len][argz..argz + |d|];
    n := StrLen(a, argz, d);
  }

  method Separate(a: array<byte>, argz: nat, ghost len: nat)
    requires argz < len <= a.Length
    modifies a
    ensures a[..len] == old(a[..len])[argz := COLON]
  {
    a[argz] := COLON;
  }

  // The first k elements are a path already, and the rest, from argz on, is still the list.
  ghost predicate Half(s: Str, dirs: seq<Str>, k: nat, argz: nat) {
    && k < |dirs| && argz == |Each(dirs[..k], 0)| && |s| == |Each(dirs, 0)| && argz <= |s|
    && s == Each(dirs[..k], COLON) + Each(dirs, 0)[argz..]
  }

  lemma HalfStart(dirs: seq<Str>)
    requires dirs != []
    ensures Half(Each(dirs, 0), dirs, 0, 0) && Each(dirs, 0) != []
  {
    assert dirs[..0] == [];
    assert Each([], COLON) + Each(dirs, 0)[0..] == Each(dirs, 0);
  }

  lemma HalfStep(s: Str, dirs: seq<Str>, k: nat, argz: nat)
    requires Half(s, dirs, k, argz)
    ensures k < |dirs|
    ensures var end := argz + |dirs[k]|;
      end < |s| && s[argz..end] == dirs[k] && s[end] == 0 &&
      (end + 1 < |s| ==> Half(s[end := COLON], dirs, k + 1, end + 1)) && (end + 1 == |s| ==> Joined(s, dirs))
  {
    RestAt(dirs, k);
    hide Each;
    var before, d, after := Each(dirs[..k], COLON), dirs[k], Each(dirs[k + 1..], 0);
    Located(s, before, d, after);
    var end := argz + |d|;
    assert |s| == end + 1 + |after|;
    if end + 1 == |s| {
      assert after == [];
    }
  }

  lemma Located(s: Str, before: Str, d: Str, after: Str)
    requires s == before + (d + [0] + after)
    ensures var i := |before|; s[i..i + |d|] == d && s[i + |d|] == 0
    ensures s[|before| + |d| := COLON] == before + d + [COLON] + after
  {
    Closed(before, d, after, COLON);
    assert s == before + d + [0] + after;
  }

  // What is left of the list at element k, and how far the element reaches.
  lemma RestAt(dirs: seq<Str>, k: nat)
    requires k < |dirs|
    ensures var start := |Each(dirs[..k], 0)|;
      var end := start + |dirs[k]| + 1;
      && start == |Each(dirs[..k], COLON)| && end == |Each(dirs[..k + 1], 0)| <= |Each(dirs, 0)|
      && Each(dirs, 0)[start..] == dirs[k] + [0] + Each(dirs[k + 1..], 0)
      && Each(dirs, 0)[end..] == Each(dirs[k + 1..], 0)
      && (end < |Each(dirs, 0)| <==> k + 1 < |dirs|)
    ensures Each(dirs[..k + 1], COLON) == Each(dirs[..k], COLON) + dirs[k] + [COLON]
    ensures k + 1 == |dirs| ==> Each(dirs[k + 1..], 0) == [] && dirs[..k] == dirs[..|dirs| - 1]
  {
    EachAt(dirs, k);
    EachNext(dirs, k);
    LastRest(dirs);
    hide Each;
    var d := Each(dirs[..k], 0);
    assert Each(dirs, 0)[|d|..] == dirs[k] + [0] + Each(dirs[k + 1..], 0);
    assert Each(dirs, 0)[|d| + |dirs[k]| + 1..] == Each(dirs[k + 1..], 0);
  }

  lemma LastRest(dirs: seq<Str>)
    requires dirs != []
    ensures Each(dirs[|dirs|..], 0) == []
  {}

  lemma Assoc(a: Str, b: Str, c: Str)
    ensures (a + b) + c == a + (b + c)
  {}

  // Appends one tagged component to what has been written of the locale name.
  method Extend(a: array<byte>, cp: nat, present: bool, tag: byte, s: Str, ghost before: Str, ghost done: Str)
    returns (end: nat)
    requires cp + |Tagged(present, tag, s)| < a.Length && a[..cp] == before + done
    modifies a
    ensures end == cp + |Tagged(present, tag, s)| && a[..end] == before + (done + Tagged(present, tag, s))
  {
    Assoc(before, done, Tagged(present, tag, s));
    hide Tagged;
    end := PutTagged(a, cp, present, tag, s);
  }

  method WriteTail(a: array<byte>, cp: nat, mask: nat, p: Parts, ghost before: Str, ghost done: Str) returns (end: nat)
    requires cp + |Tail(mask, p)| < a.Length && a[..cp] == before + done
    modifies a
    ensures end == cp + |Tail(mask, p)| && a[..end] == before + (done + Tail(mask, p))
  {
    hide Has;
    end := cp;
    Assoc(before, done, Tail(mask, p));
    if Has(mask, CEN_SPONSOR) || Has(mask, CEN_REVISION) {
      end := Put(a, end, COMMA);
      ghost var name: Str := [COMMA];
      if Has(mask, CEN_SPONSOR) {
        end := StpCpy(a, end, p.sponsor);
        name := name + p.sponsor;
      } else {
        assert name == name + [];
      }
      assert a[..end] == (before + done) + name;
      end := Extend(a, end, Has(mask, CEN_REVISION), UNDERSCORE, p.revision, before + done, name);
    }
  }

  method WriteLocale(a: array<byte>, cp: nat, mask: nat, p: Parts) returns (end: nat)
    requires cp + |Locale(mask, p)| < a.Length
    modifies a
    ensures end == cp + |Locale(mask, p)| && a[..end] == old(a[..cp]) + Locale(mask, p)
  {
    hide Has, Tagged, Tail;
    ghost var before := a[..cp];
    end := StpCpy(a, cp, p.language);
    ghost var name := p.language;
    end := Extend(a, end, Has(mask, TERRITORY), UNDERSCORE, p.territory, before, name);
    name := name + Tagged(Has(mask, TERRITORY), UNDERSCORE, p.territory);
    end := Extend(a, end, Has(mask, XPG_CODESET), DOT, p.codeset, before, name);
    name := name + Tagged(Has(mask, XPG_CODESET), DOT, p.codeset);
    end := Extend(a, end, Has(mask, XPG_NORM_CODESET), DOT, p.normalized, before, name);
    name := name + Tagged(Has(mask, XPG_NORM_CODESET), DOT, p.normalized);
    var tag := if Has(mask, CEN_AUDIENCE) then PLUS else AT;
    end := Extend(a, end, Has(mask, XPG_MODIFIER) || Has(mask, CEN_AUDIENCE), tag, p.modifier, before, name);
    name := name + Tagged(Has(mask, XPG_MODIFIER) || Has(mask, CEN_AUDIENCE), tag, p.modifier);
    end := Extend(a, end, Has(mask, CEN_SPECIAL), PLUS, p.special, before, name);
    name := name + Tagged(Has(mask, CEN_SPECIAL), PLUS, p.special);
    end := WriteTail(a, end, mask, p, before, name);
  }

  // The name is written into a buffer of the computed size, and fills it to the last byte.
  method AbsFilename(dirs: seq<Str>, mask: nat, p: Parts) returns (a: array<byte>)
    requires NulFree(dirs)
    ensures fresh(a) && a.Length == Size(|Each(dirs, 0)|, mask, p)
    ensures a[..] == FileName(dirs, mask, p) + [0]
  {
    NameFits(dirs, mask, p);
    LocaleFits(mask, p);
    hide Locale, LocaleSize;
    a := new byte[Size(|Each(dirs, 0)|, mask, p)];
    var cp := 0;
    if dirs != [] {
      EachFits(dirs, 0);
      cp := CopyDirs(a, dirs);
    }
    assert a[..cp] == DirPart(dirs);
    hide DirPart, Each;
    cp := WriteLocale(a, cp, mask, p);
    cp := Put(a, cp, SLASH);
    cp := StpCpy(a, cp, p.filename);
    assert a[..] == a[..cp] + [a[cp]];
  }
}
