// The open-addressing table of a message catalogue: one invariant for lookup and insertion.
module HashTable {
  import opened Arithmetic
  import opened Strings
  import opened HashString
  import opened ProbeSequence

  // Entry 0 is empty; entry i + 1 refers to string i. The hash of string i reaches its entry
  // through entries that are all in use.
  predicate PlacedAt(tab: seq<nat>, h: nat, i: nat, k: nat)
    requires 2 < |tab|
  {
    tab[Slot(h, |tab|, k)] == i + 1 && forall j :: 0 <= j < k ==> tab[Slot(h, |tab|, j)] != 0
  }

  predicate Placed(tab: seq<nat>, h: nat, i: nat)
    requires 2 < |tab|
  {
    exists k :: 0 <= k < |tab| && PlacedAt(tab, h, i, k)
  }

  predicate WellFormedTable(tab: seq<nat>, keys: seq<seq<byte>>, signed: bool) {
    && 2 < |tab| < UINT32_RANGE && Prime(|tab|)
    && (forall s :: 0 <= s < |tab| ==> tab[s] <= |keys|)
    && (forall i :: 0 <= i < |keys| ==> Placed(tab, Hash32(keys[i], signed), i))
  }

  function Empties(tab: seq<nat>): set<nat> {
    set s | 0 <= s < |tab| && tab[s] == 0
  }

  // The loader's insertion loop: string i is entered in the first empty slot of its sequence.
  method Insert(tab: array<nat>, h: nat, i: nat)
    requires 2 < tab.Length < UINT32_RANGE && Prime(tab.Length) && Empties(tab[..]) != {}
    modifies tab
    ensures exists k :: 0 <= k < tab.Length && InsertedAt(old(tab[..]), tab[..], h, i, k)
  {
    hide Slot, Prime, Start, Incr, Advance;
    var idx := Start(h, tab.Length);
    var incr := Incr(h, tab.Length);
    ghost var k := 0;
    ghost var before := tab[..];
    ghost var last := FreeProbe(before, h);
    hide Empties;
    SlotZero(h, tab.Length);
    while tab[idx] != 0
      invariant 0 <= k <= last && idx == Slot(h, tab.Length, k) && incr == Incr(h, tab.Length)
      invariant tab[..] == before && forall j :: 0 <= j < k ==> before[Slot(h, tab.Length, j)] != 0
      decreases last - k
    {
      SlotNext(h, tab.Length, k);
      idx := Advance(idx, incr, tab.Length);
      k := k + 1;
    }
    tab[idx] := 1 + i;
    assert tab[..] == before[idx := 1 + i];
    assert InsertedAt(before, tab[..], h, i, k);
  }

  lemma FreeProbe(tab: seq<nat>, h: nat) returns (k: nat)
    requires 2 < |tab| && Prime(|tab|) && Empties(tab) != {}
    ensures k < |tab| && tab[Slot(h, |tab|, k)] == 0
  {
    var free :| free in Empties(tab);
    EverySlotProbed(h, |tab|, free);
    k :| 0 <= k < |tab| && Slot(h, |tab|, k) == free;
  }

  predicate InsertedAt(before: seq<nat>, after: seq<nat>, h: nat, i: nat, k: nat) {
    && 2 < |before| && k < |before|
    && before[Slot(h, |before|, k)] == 0 && after == before[Slot(h, |before|, k) := i + 1]
    && forall j :: 0 <= j < k ==> before[Slot(h, |before|, j)] != 0
  }

  // Insertion keeps the table well formed and uses exactly one empty slot.
  lemma InsertKeeps(before: seq<nat>, after: seq<nat>, keys: seq<seq<byte>>, key: seq<byte>, signed: bool, k: nat)
    requires WellFormedTable(before, keys, signed)
    requires InsertedAt(before, after, Hash32(key, signed), |keys|, k)
    ensures WellFormedTable(after, keys + [key], signed)
    ensures |Empties(after)| == |Empties(before)| - 1
  {
    hide Prime, Hash32, Slot;
    var m, h := |before|, Hash32(key, signed);
    var all := keys + [key];
    var s := Slot(h, m, k);
    assert Empties(before) == Empties(after) + {s};
    forall i | 0 <= i < |all| ensures Placed(after, Hash32(all[i], signed), i) {
      if i < |keys| {
        var g := Hash32(keys[i], signed);
        var n :| 0 <= n < m && PlacedAt(before, g, i, n);
        assert PlacedAt(after, g, i, n);
      } else {
        assert PlacedAt(after, h, i, k);
      }
    }
  }

  lemma TableBounds(tab: seq<nat>, keys: seq<seq<byte>>, signed: bool)
    requires WellFormedTable(tab, keys, signed)
    ensures 2 < |tab| < UINT32_RANGE && forall s :: 0 <= s < |tab| ==> tab[s] <= |keys|
  {
  }

  // Some probe of the sequence decides the lookup: an empty slot, or an entry with the key.
  lemma Landmark(tab: seq<nat>, keys: seq<seq<byte>>, msgid: seq<byte>, signed: bool) returns (k: nat)
    requires WellFormedTable(tab, keys, signed) && (Empties(tab) != {} || msgid in keys)
    ensures k < |tab|
    ensures var e := tab[Slot(Hash32(msgid, signed), |tab|, k)]; e == 0 || keys[e - 1] == msgid
  {
    var h := Hash32(msgid, signed);
    if msgid in keys {
      var i :| 0 <= i < |keys| && keys[i] == msgid;
      k :| 0 <= k < |tab| && PlacedAt(tab, h, i, k);
    } else {
      var free :| free in Empties(tab);
      EverySlotProbed(h, |tab|, free);
      k :| 0 <= k < |tab| && Slot(h, |tab|, k) == free;
    }
  }

  // The first k probes for msgid met entries of other strings.
  predicate Missed(tab: seq<nat>, keys: seq<seq<byte>>, msgid: seq<byte>, h: nat, k: nat)
    requires 2 < |tab| && forall s :: 0 <= s < |tab| ==> tab[s] <= |keys|
  {
    forall j :: 0 <= j < k ==> var e := tab[Slot(h, |tab|, j)]; e != 0 && keys[e - 1] != msgid
  }

  lemma AbsentWhenEmpty(tab: seq<nat>, keys: seq<seq<byte>>, msgid: seq<byte>, signed: bool, k: nat)
    requires WellFormedTable(tab, keys, signed) && k < |tab|
    requires tab[Slot(Hash32(msgid, signed), |tab|, k)] == 0
    requires Missed(tab, keys, msgid, Hash32(msgid, signed), k)
    ensures msgid !in keys
  {
    hide Hash32, Slot, Prime;
    if msgid in keys {
      var i :| 0 <= i < |keys| && keys[i] == msgid;
      var n :| 0 <= n < |tab| && PlacedAt(tab, Hash32(msgid, signed), i, n);
    }
  }

  lemma MissNone(tab: seq<nat>, keys: seq<seq<byte>>, msgid: seq<byte>, h: nat)
    requires 2 < |tab| && forall s :: 0 <= s < |tab| ==> tab[s] <= |keys|
    ensures Missed(tab, keys, msgid, h, 0)
  {
  }

  // A probe that misses stays in front of the deciding one.
  lemma MissNext(tab: seq<nat>, keys: seq<seq<byte>>, msgid: seq<byte>, h: nat, k: nat, last: nat)
    requires 2 < |tab| && (forall s :: 0 <= s < |tab| ==> tab[s] <= |keys|)
    requires Missed(tab, keys, msgid, h, k) && k <= last
    requires var e := tab[Slot(h, |tab|, k)]; e != 0 && keys[e - 1] != msgid
    requires var e := tab[Slot(h, |tab|, last)]; e == 0 || keys[e - 1] == msgid
    ensures Missed(tab, keys, msgid, h, k + 1) && k + 1 <= last
  {
  }
}
