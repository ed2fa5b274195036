// _nl_make_l10nflist: the global list of locale files and the fallbacks of each.
module LocaleList {
  import opened Options
  import opened Sequences
  import opened Strings
  import opened LocaleFile
  import opened LocaleFallbacks

  // A file comes before every file with a smaller name.
  ghost predicate Decreasing(names: seq<Str>) {
    forall i, j :: 0 <= i < j < |names| ==> Less(names[j], names[i])
  }

  lemma LessIrreflexive(a: Str)
    ensures !Less(a, a)
  {
    StrCmpZero(a, a);
  }

  // Where the search stops without a match is where the name belongs.
  lemma InsertedDecreasing(names: seq<Str>, i: nat, x: Str)
    requires Decreasing(names) && i <= |names|
    requires forall k :: 0 <= k < i ==> Less(x, names[k])
    requires i < |names| ==> Less(names[i], x)
    ensures Decreasing(Inserted(names, i, x)) && x !in names
    ensures forall n :: n in Inserted(names, i, x) <==> n == x || n in names
  {
    hide Less;
    forall k | i < k < |names| ensures Less(names[k], x) {
      LessTrans(names[k], names[i], x);
    }
    LessIrreflexive(x);
    var s := Inserted(names, i, x);
    forall j, k | 0 <= j < k < |s| ensures Less(s[k], s[j]) {
    }
    forall n | n in names ensures n in s {
      var k :| 0 <= k < |names| && names[k] == n;
      assert s[if k < i then k else k + 1] == n;
    }
    assert s[i] == x;
  }

  predicate Absolute(language: Str) {
    language != [] && language[0] == SLASH
  }

  // An absolute language makes the directory list irrelevant.
  function Effective(dirs: seq<Str>, p: Parts): seq<Str> {
    if Absolute(p.language) then [] else dirs
  }

  // ---- The list ----

  // The files in list order, and for each what the structure holds: `decided`, and the fallbacks up to the
  // NULL. A file that is still being filled in has no fallbacks yet.
  datatype List = List(names: seq<Str>, decided: map<Str, bool>, successor: map<Str, seq<Str>>)

  ghost predicate Consistent(s: List) {
    && Decreasing(s.names)
    && (forall n :: n in s.decided <==> n in s.names)
    && (forall n :: n in s.successor ==> n in s.names)
  }

  ghost predicate Listed(names: seq<Str>, ns: seq<Str>) {
    forall i :: 0 <= i < |ns| ==> ns[i] in names
  }

  // Fallbacks lead to the file itself or to later names.
  ghost predicate Onward(n: Str, ns: seq<Str>) {
    forall i :: 0 <= i < |ns| ==> ns[i] == n || Later(ns[i], n)
  }

  // The fallbacks of a file are files of the list.
  ghost predicate Filed(names: seq<Str>, n: Str, ns: seq<Str>) {
    Listed(names, ns) && Onward(n, ns)
  }

  // Every file has its fallbacks.
  ghost predicate Complete(s: List) {
    forall n :: n in s.names ==> n in s.successor && Filed(s.names, n, s.successor[n])
  }

  // The list only grows; what it held stays as it was; what is new is filled in, except for `pending`.
  ghost predicate Grown(s: List, t: List, pending: set<Str>) {
    && (forall n :: n in s.names ==> n in t.names)
    && (forall n :: n in s.names && n in s.decided ==> n in t.decided && t.decided[n] == s.decided[n])
    && (forall n :: n in s.names ==> (n in t.successor <==> n in s.successor))
    && (forall n :: n in s.names && n in s.successor ==> t.successor[n] == s.successor[n])
    && (forall n :: n in t.names && n !in s.names && n !in pending ==>
          n in t.successor && Filed(t.names, n, t.successor[n]))
  }

  // Whatever is new is worth looking up as a file.
  ghost predicate Undecided(s: List, t: List, except: set<Str>) {
    forall n :: n in t.names && n !in s.names && n !in except ==> n in t.decided && !t.decided[n]
  }

  lemma GrownTrans(s: List, t: List, u: List, pending: set<Str>)
    requires Grown(s, t, pending) && Grown(t, u, {}) && Consistent(t)
    ensures Grown(s, u, pending)
  {
    forall n | n in u.names && n !in s.names && n !in pending
      ensures n in u.successor && Filed(u.names, n, u.successor[n])
    {
      if n in t.names {
        assert Filed(t.names, n, t.successor[n]);
      }
    }
  }

  lemma GrownComplete(s: List, t: List)
    requires Complete(s) && Grown(s, t, {}) && Consistent(s)
    ensures Complete(t)
  {
    forall n | n in t.names ensures n in t.successor && Filed(t.names, n, t.successor[n]) {
      if n in s.names {
        assert Filed(s.names, n, s.successor[n]);
      }
    }
  }

  // ---- The only cycles ----

  lemma FallbacksOnward(dirs: seq<Str>, mask: nat, p: Parts)
    ensures Onward(FileName(dirs, mask, p), Fallbacks(dirs, mask, p, Top(dirs, mask), 0))
  {
    var ns := Fallbacks(dirs, mask, p, Top(dirs, mask), 0);
    hide FileName, Fallbacks, Later;
    forall i | 0 <= i < |ns| ensures ns[i] == FileName(dirs, mask, p) || Later(ns[i], FileName(dirs, mask, p)) {
      assert ns[i] in ns;
      FallbackLater(dirs, mask, p, ns[i]);
    }
  }

  ghost predicate FallsBack(s: List, n: Str, to: Str) {
    n in s.successor && to in s.successor[n]
  }

  // Each file of the path is a fallback of the one before.
  ghost predicate Path(s: List, path: seq<Str>) {
    && path != [] && path[0] in s.names
    && forall i, j :: 0 <= i && j == i + 1 < |path| ==> FallsBack(s, path[i], path[j])
  }

  lemma {:induction false} PathOnward(s: List, path: seq<Str>)
    requires Complete(s) && Path(s, path)
    ensures var last := path[|path| - 1];
      last in s.names && (Later(last, path[0]) || forall i :: 0 <= i < |path| ==> path[i] == path[0])
  {
    var k := |path| - 1;
    hide Later;
    if k > 0 {
      PathOnward(s, path[..k]);
      assert FallsBack(s, path[k - 1], path[k]);
      var ns := s.successor[path[k - 1]];
      assert Filed(s.names, path[k - 1], ns);
      var j :| 0 <= j < |ns| && ns[j] == path[k];
      if Later(path[k], path[k - 1]) && Later(path[k - 1], path[0]) {
        LaterTrans(path[0], path[k - 1], path[k]);
      }
    }
  }

  // Whoever follows fallbacks and comes back to a file has never left it: the only cycles are files that are
  // their own fallbacks.
  lemma OnlyLoops(s: List, path: seq<Str>)
    requires Complete(s) && Path(s, path) && path[|path| - 1] == path[0]
    ensures forall i :: 0 <= i < |path| ==> path[i] == path[0]
  {
    PathOnward(s, path);
    LaterIrreflexive(path[0]);
  }

  function Enter(s: List, at: nat, name: Str, decided: bool): List
    requires at <= |s.names|
  {
    List(Inserted(s.names, at, name), s.decided[name := decided], s.successor)
  }

  lemma Entered(s: List, at: nat, name: Str, decided: bool)
    requires Consistent(s) && at <= |s.names| && name !in s.names && Decreasing(Inserted(s.names, at, name))
    requires forall n :: n in Inserted(s.names, at, name) <==> n == name || n in s.names
    ensures Consistent(Enter(s, at, name, decided)) && Grown(s, Enter(s, at, name, decided), {name})
    ensures Marked(Enter(s, at, name, decided), name, decided)
  {}

  lemma Filled(s: List, t: List, name: Str, ns: seq<Str>)
    requires Consistent(t) && Grown(s, t, {name}) && name in t.names && name !in s.names && Filed(t.names, name, ns)
    ensures var u := t.(successor := t.successor[name := ns]); Consistent(u) && Grown(s, u, {})
  {
    var u := t.(successor := t.successor[name := ns]);
    forall n | n in u.names && n !in s.names ensures n in u.successor && Filed(u.names, n, u.successor[n]) {
    }
  }

  // The file is listed, with its flag.
  predicate Marked(s: List, name: Str, d: bool) {
    name in s.names && name in s.decided && s.decided[name] == d
  }

  // Not looked up as a file itself: a list of directories, or both spellings of the codeset.
  function Decided(dirs: seq<Str>, mask: nat): bool {
    DirCount(dirs) > 1 || (Has(mask, XPG_CODESET) && Has(mask, XPG_NORM_CODESET))
  }

  // A fallback names one file of one directory, with at most one spelling of the codeset.
  lemma EligibleUndecided(dirs: seq<Str>, cnt: nat, mask: nat)
    requires |dirs| <= 1 && Eligible(cnt, mask)
    ensures !Decided(dirs, cnt)
  {}

  lemma FallbacksStep(dirs: seq<Str>, mask: nat, p: Parts, hi: int, lo: nat)
    requires lo <= hi
    ensures Fallbacks(dirs, mask, p, hi, lo)
      == Fallbacks(dirs, mask, p, hi, lo + 1) + if Eligible(lo, mask) then Row(dirs, lo, p) else []
    ensures |Fallbacks(dirs, mask, p, hi, lo)| <= |Fallbacks(dirs, mask, p, hi, 0)|
  {
    FallbacksPrefix(dirs, mask, p, hi, lo);
  }

  lemma PerDirStep(dirs: seq<Str>, j: nat, cnt: nat, p: Parts)
    requires j < |dirs|
    ensures PerDir(dirs[..j + 1], cnt, p) == PerDir(dirs[..j], cnt, p) + [FileName([dirs[j]], cnt, p)]
  {
    assert dirs[..j + 1][..j] == dirs[..j];
  }

  class L10nFileList {
    var list: List

    constructor ()
      ensures Consistent(list) && Complete(list) && list.names == []
    {
      list := List([], map[], map[]);
    }

    // The search loop: found, or the position at which the name belongs.
    method Search(name: Str) returns (found: bool, at: nat)
      requires Consistent(list)
      ensures found <==> name in list.names
      ensures !found ==> at <= |list.names| && Decreasing(Inserted(list.names, at, name))
      ensures !found ==> forall n :: n in Inserted(list.names, at, name) <==> n == name || n in list.names
    {
      var names := list.names;
      at := 0;
      while at < |names|
        invariant 0 <= at <= |names|
        invariant forall k :: 0 <= k < at ==> Less(name, names[k])
      {
        var compare := StrCmp(names[at], name);
        StrCmpZero(names[at], name);
        StrCmpFlip(name, names[at]);
        if compare == 0 {
          return true, at;
        }
        if compare < 0 {
          break;
        }
        at := at + 1;
      }
      InsertedDecreasing(names, at, name);
      found := false;
    }

    // _nl_make_l10nflist. A file is found or, with `allocate`, entered together with all its fallbacks: the
    // sub-masks from the mask downwards, in order, each for every directory.
    method Make(dirlist: seq<Str>, mask: nat, p: Parts, allocate: bool) returns (r: Option<Str>)
      requires Consistent(list) && NulFree(dirlist) && mask < 65536
      modifies this
      decreases if |dirlist| > 1 then 1 else 0, mask, 1
      ensures Consistent(list) && Grown(old(list), list, {})
      ensures old(Complete(list)) ==> Complete(list)
      ensures var dirs := if p.language != [] && p.language[0] == SLASH then [] else dirlist;
        var name := FileName(dirs, mask, p);
        if name in old(list).names then r == Some(name) && list == old(list)
        else if !allocate then r == None && list == old(list)
        else
          r == Some(name) && name in list.names && name in list.successor &&
          list.successor[name] == Fallbacks(dirs, mask, p, Top(dirs, mask), 0) &&
          Marked(list, name, |dirs| > 1 || (Has(mask, XPG_CODESET) && Has(mask, XPG_NORM_CODESET)))
      ensures var dirs := if p.language != [] && p.language[0] == SLASH then [] else dirlist;
        Undecided(old(list), list, {FileName(dirs, mask, p)})
    {
      EffectiveIs(dirlist, p);
      hide *;
      var dirs := dirlist;
      if p.language != [] && p.language[0] == SLASH {
        dirs := [];
      }
      var buffer := AbsFilename(dirs, mask, p);
      var name := buffer[..buffer.Length - 1];
      assert name == FileName(dirs, mask, p);
      var found, at := Search(name);
      if found {
        r := Some(name);
        Unchanged(list);
        NothingNew(list, {name});
        return;
      }
      if !allocate {
        r := None;
        Unchanged(list);
        NothingNew(list, {name});
        return;
      }
      ghost var before := list;
      Entered(list, at, name, Decided(dirs, mask));
      FirstUndecided(list, at, name, Decided(dirs, mask));
      list := Enter(list, at, name, Decided(dirs, mask));
      var fallbacks := Fill(dirs, mask, p, before, name, Decided(dirs, mask));
      FallbacksOnward(dirs, mask, p);
      ReadyToFill(list, name, Decided(dirs, mask), fallbacks);
      Filled(before, list, name, fallbacks);
      FlagIs(dirs, mask);
      MarkedStays(before, list, name, Decided(dirs, mask), fallbacks);
      list := list.(successor := list.successor[name := fallbacks]);
      r := Some(name);
      CompleteAgain(before, list);
    }

    // The countdown over the sub-masks: every store is inside the array, and so is the final NULL.
    method Fill(dirs: seq<Str>, mask: nat, p: Parts, ghost before: List, ghost name: Str, ghost d: bool)
      returns (ns: seq<Str>)
      requires Consistent(list) && NulFree(dirs) && mask < 65536 && Effective(dirs, p) == dirs
      requires Grown(before, list, {name}) && Marked(list, name, d) && Undecided(before, list, {name})
      modifies this
      decreases if |dirs| > 1 then 1 else 0, mask, 0
      ensures Consistent(list) && Grown(before, list, {name}) && Marked(list, name, d)
      ensures Undecided(before, list, {name})
      ensures ns == Fallbacks(dirs, mask, p, Top(dirs, mask), 0) && Listed(list.names, ns)
    {
      hide FileName, Fallbacks, Eligible, Consistent, Grown, Row, PerDir, Slots;
      var slots := new Option<Str>[Slots(dirs, mask)];
      FallbacksFit(dirs, mask, p);
      ns := [];
      var entries := 0;
      var cnt := Top(dirs, mask);
      ghost var hi := cnt;
      NoFallbacks(dirs, mask, p, hi);
      while cnt >= 0
        invariant -1 <= cnt <= hi && entries == |ns|
        invariant ns == Fallbacks(dirs, mask, p, hi, cnt + 1) && |ns| < slots.Length
        invariant forall i :: 0 <= i < entries ==> slots[i] == Some(ns[i])
        invariant Consistent(list) && Grown(before, list, {name}) && Marked(list, name, d) && Listed(list.names, ns)
        invariant Undecided(before, list, {name})
      {
        FallbacksStep(dirs, mask, p, hi, cnt);
        if Eligible(cnt, mask) {
          RowIs(dirs, cnt, p);
          if |dirs| > 1 {
            ns := FillRow(slots, dirs, cnt, mask, p, ns, before, name, d);
          } else {
            ghost var mid := list;
            EligibleUndecided(dirs, cnt, mask);
            FlagIs(dirs, cnt);
            var s := Make(dirs, cnt, p, true);
            Extended(before, mid, list, name, d, ns, FileName(dirs, cnt, p));
            slots[entries] := s;
            ns := ns + [s.value];
          }
          entries := |ns|;
        }
        cnt := cnt - 1;
      }
      slots[entries] := None;
    }

    // One sub-mask for every directory of a real list.
    method FillRow(slots: array<Option<Str>>, dirs: seq<Str>, cnt: nat, mask: nat, p: Parts, ns: seq<Str>,
                   ghost before: List, ghost name: Str, ghost d: bool)
      returns (all: seq<Str>)
      requires Consistent(list) && NulFree(dirs) && cnt <= mask < 65536 && |dirs| > 1 && Effective(dirs, p) == dirs
      requires Grown(before, list, {name}) && Marked(list, name, d) && Listed(list.names, ns)
      requires Undecided(before, list, {name}) && Eligible(cnt, mask)
      requires |ns| + |dirs| < slots.Length && forall i :: 0 <= i < |ns| ==> slots[i] == Some(ns[i])
      modifies this, slots
      decreases 1, mask, 0, 0
      ensures Consistent(list) && Grown(before, list, {name}) && Marked(list, name, d) && Listed(list.names, all)
      ensures Undecided(before, list, {name})
      ensures all == ns + PerDir(dirs, cnt, p) && |all| < slots.Length
      ensures forall i :: 0 <= i < |all| ==> slots[i] == Some(all[i])
    {
      hide FileName, Consistent, Grown;
      all := ns;
      var j := 0;
      assert PerDir(dirs[..0], cnt, p) == [];
      while j < |dirs|
        invariant 0 <= j <= |dirs|
        invariant all == ns + PerDir(dirs[..j], cnt, p) && |all| < slots.Length
        invariant forall i :: 0 <= i < |all| ==> slots[i] == Some(all[i])
        invariant Consistent(list) && Grown(before, list, {name}) && Marked(list, name, d) && Listed(list.names, all)
        invariant Undecided(before, list, {name})
      {
        ghost var mid := list;
        hide PerDir;
        EligibleUndecided([dirs[j]], cnt, mask);
        FlagIs([dirs[j]], cnt);
        var s := Make([dirs[j]], cnt, p, true);
        Extended(before, mid, list, name, d, all, FileName([dirs[j]], cnt, p));
        PerDirStep(dirs, j, cnt, p);
        slots[|all|] := s;
        all := all + [s.value];
        j := j + 1;
      }
      assert dirs[..j] == dirs;
    }

    // After another file has been made, everything recorded so far is still listed.
    lemma Extended(before: List, mid: List, now: List, name: Str, d: bool, ns: seq<Str>, n: Str)
      requires Grown(before, mid, {name}) && Consistent(mid) && Grown(mid, now, {})
      requires Marked(mid, name, d) && Listed(mid.names, ns) && n in now.names
      requires Undecided(before, mid, {name}) && Undecided(mid, now, {n}) && (n in mid.names || Marked(now, n, false))
      ensures Grown(before, now, {name}) && Marked(now, name, d) && Listed(now.names, ns + [n])
      ensures Undecided(before, now, {name})
    {
      GrownTrans(before, mid, now, {name});
    }

    lemma EffectiveIs(dirs: seq<Str>, p: Parts)
      ensures Effective(dirs, p) == (if p.language != [] && p.language[0] == SLASH then [] else dirs)
      ensures Effective(Effective(dirs, p), p) == Effective(dirs, p)
      ensures NulFree(dirs) ==> NulFree(Effective(dirs, p))
      ensures |Effective(dirs, p)| <= |dirs|
    {}

    lemma NothingNew(s: List, except: set<Str>)
      ensures Undecided(s, s, except)
    {}

    lemma FirstUndecided(s: List, at: nat, name: Str, d: bool)
      requires at <= |s.names|
      requires forall n :: n in Inserted(s.names, at, name) <==> n == name || n in s.names
      ensures Undecided(s, Enter(s, at, name, d), {name})
    {}

    lemma ReadyToFill(s: List, name: Str, d: bool, ns: seq<Str>)
      requires Marked(s, name, d) && Listed(s.names, ns) && Onward(name, ns)
      ensures name in s.names && Filed(s.names, name, ns)
    {}

    lemma MarkedStays(s: List, t: List, name: Str, d: bool, ns: seq<Str>)
      requires Undecided(s, t, {name}) && Marked(t, name, d)
      ensures var u := t.(successor := t.successor[name := ns]);
        Undecided(s, u, {name}) && Marked(u, name, d) && name in u.names
    {}

    lemma FlagIs(dirs: seq<Str>, mask: nat)
      ensures Decided(dirs, mask) <==> |dirs| > 1 || (Has(mask, XPG_CODESET) && Has(mask, XPG_NORM_CODESET))
    {}

    lemma NoFallbacks(dirs: seq<Str>, mask: nat, p: Parts, hi: int)
      requires -1 <= hi
      ensures Fallbacks(dirs, mask, p, hi, hi + 1) == []
    {}

    lemma RowIs(dirs: seq<Str>, cnt: nat, p: Parts)
      ensures Row(dirs, cnt, p) == if |dirs| > 1 then PerDir(dirs, cnt, p) else [FileName(dirs, cnt, p)]
      ensures |dirs| > 1 ==> |PerDir(dirs, cnt, p)| == |dirs|
    {}

    lemma Unchanged(s: List)
      ensures Grown(s, s, {})
    {}

    lemma CompleteAgain(s: List, t: List)
      requires Consistent(s) && Grown(s, t, {})
      ensures Complete(s) ==> Complete(t)
      ensures forall n :: n in s.names ==> n in t.names
    {
      if Complete(s) {
        GrownComplete(s, t);
      }
    }
  }
}
