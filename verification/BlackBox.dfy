// CCorruptionBlackBox: receiving, verifying and judging data.
module BlackBox {
  import opened Arithmetic
  import opened Records

  const CBB_BANTHRESHOLD := 32

  // The three maps of the class: records by part, verified and corrupted bytes by sender.
  datatype Box = Box(records: map<nat, seq<Rec>>, good: map<nat, nat>, bad: map<nat, nat>)

  function Get(m: map<nat, nat>, ip: nat): nat {
    if ip in m then m[ip] else 0
  }

  function ListOf(records: map<nat, seq<Rec>>, part: nat): seq<Rec> {
    if part in records then records[part] else []
  }

  predicate ProperBox(records: map<nat, seq<Rec>>) {
    forall part :: part in records ==> AllProper(records[part])
  }

  // ---- VerifiedData ----

  function Credit(m: map<nat, nat>, ip: nat, n: nat): map<nat, nat> {
    if n == 0 then m else m[ip := Get(m, ip) + n]
  }

  function Charge(ok: bool, taken: nat): nat {
    if ok then taken else Penalty(taken)
  }

  function CreditAll(m: map<nat, nat>, list: seq<Rec>, ok: bool, lo: nat, hi: nat): map<nat, nat>
    requires lo <= hi && AllProper(list)
  {
    if list == [] then m
    else
      var n := |list| - 1;
      Credit(CreditAll(m, list[..n], ok, lo, hi), list[n].ip, Charge(ok, Taken(list[n], lo, hi)))
  }

  function Amount(list: seq<Rec>, ip: nat, ok: bool, lo: nat, hi: nat): nat
    requires lo <= hi && AllProper(list)
  {
    if ok then Removed(list, ip, lo, hi) else Penalties(list, ip, lo, hi)
  }

  function Stored(records: map<nat, seq<Rec>>, part: nat, list: seq<Rec>): map<nat, seq<Rec>> {
    if list == [] then records - {part} else records[part := list]
  }

  function Verify(b: Box, ok: bool, part: nat, lo: nat, hi: nat): Box
    requires ProperBox(b.records)
  {
    if lo > hi then b
    else
      var list := ListOf(b.records, part);
      var records := Stored(b.records, part, Carved(list, lo, hi));
      if ok then Box(records, CreditAll(b.good, list, true, lo, hi), b.bad)
      else Box(records, b.good, CreditAll(b.bad, list, false, lo, hi))
  }

  // Every sender is credited the sum over its records, and no entry without bytes is made.
  lemma {:induction false} CreditAllSums(m: map<nat, nat>, list: seq<Rec>, ok: bool, lo: nat, hi: nat, ip: nat)
    requires lo <= hi && AllProper(list)
    ensures Get(CreditAll(m, list, ok, lo, hi), ip) == Get(m, ip) + Amount(list, ip, ok, lo, hi)
    ensures ip in CreditAll(m, list, ok, lo, hi) <==> ip in m || Amount(list, ip, ok, lo, hi) > 0
  {
    if list != [] {
      var n := |list| - 1;
      CreditAllSums(m, list[..n], ok, lo, hi, ip);
      assert list == list[..n] + [list[n]];
      SumsConcat(list[..n], [list[n]], ip, lo, hi);
      Single(list[n], ip, lo, hi);
    }
  }

  lemma SameLedger(a: map<nat, nat>, b: map<nat, nat>)
    requires forall ip :: ip in a <==> ip in b
    requires forall ip :: Get(a, ip) == Get(b, ip)
    ensures a == b
  {
    forall ip | ip in a ensures a[ip] == b[ip] {
      assert Get(a, ip) == Get(b, ip);
    }
  }

  // ---- TransferredData ----

  // Join with an adjacent record of the same sender, or append.
  predicate Adjacent(r: Rec, start: nat, end: nat, ip: nat) {
    r.ip == ip && (start == r.end + 1 || end + 1 == r.start)
  }

  function Joined(r: Rec, start: nat, end: nat): Rec {
    if start == r.end + 1 then r.(end := end) else r.(start := start)
  }

  function Added(list: seq<Rec>, start: nat, end: nat, ip: nat): (r: seq<Rec>)
    ensures r != []
  {
    if list == [] then [Rec(start, end, ip)]
    else if Adjacent(list[0], start, end, ip) then [Joined(list[0], start, end)] + list[1..]
    else [list[0]] + Added(list[1..], start, end, ip)
  }

  // Part numbers and positions inside a part fit their 16 and 32 bits.
  predicate Addressable(start: nat, end: nat) {
    end / PARTSIZE < UINT16_RANGE && end - start / PARTSIZE * PARTSIZE < UINT32_RANGE
  }

  lemma PartBounds(start: nat)
    ensures start / PARTSIZE * PARTSIZE <= start < (start / PARTSIZE + 1) * PARTSIZE
    ensures (start / PARTSIZE + 1) * PARTSIZE / PARTSIZE == start / PARTSIZE + 1
  {
  }

  function Transfer(records: map<nat, seq<Rec>>, start: nat, end: nat, ip: nat): map<nat, seq<Rec>>
    decreases if start <= end then end - start + 1 else 0
  {
    if start > end then records
    else
      PartBounds(start);
      var part := start / PARTSIZE;
      var base := part * PARTSIZE;
      if end - base >= PARTSIZE then
        var later := Transfer(records, base + PARTSIZE, end, ip);
        later[part := Added(ListOf(later, part), start - base, PARTSIZE - 1, ip)]
      else records[part := Added(ListOf(records, part), start - base, end - base, ip)]
  }

  // ---- EvaluateData ----

  // nCorruptPercentage of a sender in the list of bad clients.
  function CorruptPercentage(good: nat, bad: nat): nat
    requires 0 < bad
  {
    bad * 100 / (bad + good)
  }

  predicate Banned(b: Box, ip: nat) {
    Get(b.bad, ip) != 0 && CorruptPercentage(Get(b.good, ip), Get(b.bad, ip)) > CBB_BANTHRESHOLD
  }

  class CCorruptionBlackBox {
    var m_Records: map<nat, seq<Rec>>
    var m_goodClients: map<nat, nat>
    var m_badClients: map<nat, nat>

    ghost function State(): Box
      reads this
    {
      Box(m_Records, m_goodClients, m_badClients)
    }

    constructor ()
      ensures State() == Box(map[], map[], map[])
    {
      m_Records, m_goodClients, m_badClients := map[], map[], map[];
    }

    method Free()
      modifies this
      ensures State() == Box(map[], map[], map[])
    {
      m_Records, m_goodClients, m_badClients := map[], map[], map[];
    }

    // Store a piece of received data; what crosses a part border is split.
    method TransferredData(nStartPos: nat, nEndPos: nat, senderIP: nat)
      requires Addressable(nStartPos, nEndPos)
      modifies this`m_Records
      ensures State() == old(State()).(records := Transfer(old(m_Records), nStartPos, nEndPos, senderIP))
      decreases if nStartPos <= nEndPos then nEndPos - nStartPos + 1 else 0
    {
      if nStartPos > nEndPos {
        return;
      }
      PartBounds(nStartPos);
      PartOrder(nStartPos, nEndPos);
      var nPart := nStartPos / PARTSIZE % UINT16_RANGE;
      assert nPart == nStartPos / PARTSIZE;
      var nRelStartPos := (nStartPos - nPart * PARTSIZE) % UINT32_RANGE;
      var nRelEndPos := (nEndPos - nPart * PARTSIZE) % UINT32_RANGE;
      assert nRelStartPos == nStartPos - nPart * PARTSIZE && nRelEndPos == nEndPos - nPart * PARTSIZE;
      if nRelEndPos >= PARTSIZE {
        nRelEndPos := PARTSIZE - 1;
        TransferredData((nPart + 1) * PARTSIZE, nEndPos, senderIP);
      }
      var list := Store(ListOf(m_Records, nPart), nRelStartPos, nRelEndPos, senderIP);
      m_Records := m_Records[nPart := list];
    }

    // Ban every sender whose share of corrupted data is above the threshold.
    method EvaluateData() returns (banned: set<nat>)
      ensures forall ip :: ip in banned <==> Banned(State(), ip)
    {
      banned := {};
      var todo := m_badClients.Keys;
      while todo != {}
        invariant todo <= m_badClients.Keys
        invariant forall ip :: ip in banned <==> ip in m_badClients.Keys - todo && Banned(State(), ip)
      {
        var ip :| ip in todo;
        todo := todo - {ip};
        var bad := m_badClients[ip];
        if bad != 0 {
          var good := if ip in m_goodClients then m_goodClients[ip] else 0;
          var nCorruptPercentage := bad * 100 / (bad + good);
          if nCorruptPercentage > CBB_BANTHRESHOLD {
            banned := banned + {ip};
          }
        }
      }
    }

    // Mark a piece of data as good or bad: carve it out of the records and account for it.
    method VerifiedData(ok: bool, nPart: nat, nRelStartPos: nat, nRelEndPos: nat)
      requires ProperBox(m_Records)
      modifies this
      ensures State() == Verify(old(State()), ok, nPart, nRelStartPos, nRelEndPos)
      ensures ok ==> m_badClients == old(m_badClients)
      ensures !ok ==> m_goodClients == old(m_goodClients)
      ensures !ok && nRelStartPos <= nRelEndPos ==> forall ip ::
        var hit := Touched(old(ListOf(m_Records, nPart)), ip, nRelStartPos, nRelEndPos);
        old(Get(m_badClients, ip)) + 184320 * hit <= Get(m_badClients, ip)
    {
      if nRelStartPos > nRelEndPos {
        return;
      }
      var list := ListOf(m_Records, nPart);
      ghost var was, k := list, 0;
      var it := 0;
      while it < |list|
        invariant 0 <= k <= |was| && 0 <= it <= |list|
        invariant list[..it] == Carved(was[..k], nRelStartPos, nRelEndPos) && list[it..] == was[k..]
        invariant m_Records == old(m_Records)
        invariant ok ==> m_goodClients == CreditAll(old(m_goodClients), was[..k], true, nRelStartPos, nRelEndPos)
        invariant !ok ==> m_badClients == CreditAll(old(m_badClients), was[..k], false, nRelStartPos, nRelEndPos)
        invariant if ok then m_badClients == old(m_badClients) else m_goodClients == old(m_goodClients)
        decreases |was| - k
      {
        hide Carved, CreditAll, Pieces, Taken;
        var cur := list[it];
        assert cur == was[k] && |list| - it == |was| - k;
        ghost var done, rest := list[..it], list[it..][1..];
        var data;
        list, it, data := CarveAt(list, it, nRelStartPos, nRelEndPos);
        NextRecord(was, k, nRelStartPos, nRelEndPos);
        NextCredit(if ok then old(m_goodClients) else old(m_badClients), was, k, ok, nRelStartPos, nRelEndPos);
        Account(ok, cur.ip, data);
        assert rest == was[k + 1..];
        k := k + 1;
      }
      assert list[..it] == list && was[..k] == was;
      if !ok {
        BlocksCharged(old(m_badClients), was, nRelStartPos, nRelEndPos);
      }
      if list == [] {
        m_Records := m_Records - {nPart};
      } else {
        m_Records := m_Records[nPart := list];
      }
    }

    // Bytes found for a sender; corrupt data always counts as at least a block.
    method Account(ok: bool, ip: nat, data: nat)
      modifies this`m_goodClients, this`m_badClients
      ensures m_goodClients == if ok then Credit(old(m_goodClients), ip, Charge(true, data)) else old(m_goodClients)
      ensures m_badClients == if ok then old(m_badClients) else Credit(old(m_badClients), ip, Charge(false, data))
      ensures data == 0 ==> m_goodClients == old(m_goodClients) && m_badClients == old(m_badClients)
      ensures data > 0 && ok ==> m_goodClients == old(m_goodClients)[ip := old(Get(m_goodClients, ip)) + data]
      ensures data > 0 && !ok ==>
        m_badClients == old(m_badClients)[ip := Get(m_badClients, ip)] &&
        Get(m_badClients, ip) - old(Get(m_badClients, ip)) >= 184320 &&
        Get(m_badClients, ip) - old(Get(m_badClients, ip)) >= data &&
        Get(m_badClients, ip) - old(Get(m_badClients, ip)) in {184320, data}
    {
      if data != 0 {
        if ok {
          m_goodClients := m_goodClients[ip := Get(m_goodClients, ip) + data];
        } else {
          m_badClients := m_badClients[ip := Get(m_badClients, ip) + if data > EMBLOCKSIZE then data else EMBLOCKSIZE];
        }
      }
    }
  }

  // A corrupt verification charges every sender at least a block for each of its records that it hits.
  lemma BlocksCharged(bad: map<nat, nat>, list: seq<Rec>, lo: nat, hi: nat)
    requires lo <= hi && AllProper(list)
    ensures forall ip ::
      Get(bad, ip) + 184320 * Touched(list, ip, lo, hi) <= Get(CreditAll(bad, list, false, lo, hi), ip)
  {
    forall ip: nat
      ensures Get(bad, ip) + 184320 * Touched(list, ip, lo, hi) <= Get(CreditAll(bad, list, false, lo, hi), ip)
    {
      CreditAllSums(bad, list, false, lo, hi, ip);
      PenaltiesAre(list, ip, lo, hi);
      hide Touched, Penalties, Removed, CreditAll, Get;
    }
  }

  // ---- Merging ----

  // The first record of the sender that the range touches grows by it; without one the list grows.
  lemma {:induction false} AddedJoins(list: seq<Rec>, start: nat, end: nat, ip: nat, k: nat)
    requires AllProper(list) && start <= end && k <= |list|
    requires forall j :: 0 <= j < k ==>
      !(list[j].ip == ip && (start == list[j].end + 1 || end + 1 == list[j].start))
    requires k < |list| ==> list[k].ip == ip && (start == list[k].end + 1 || end + 1 == list[k].start)
    ensures k == |list| ==> Added(list, start, end, ip) == list + [Rec(start, end, ip)]
    ensures k < |list| ==>
      Added(list, start, end, ip) ==
        list[k := if start == list[k].end + 1 then Rec(list[k].start, end, ip) else Rec(start, list[k].end, ip)]
  {
    if k > 0 {
      AddedJoins(list[1..], start, end, ip, k - 1);
      assert list == [list[0]] + list[1..];
    }
  }

  lemma PartOrder(start: nat, end: nat)
    requires start <= end
    ensures start / PARTSIZE <= end / PARTSIZE
    ensures (start / PARTSIZE + 1) * PARTSIZE <= end && Addressable(start, end) ==>
      Addressable((start / PARTSIZE + 1) * PARTSIZE, end)
  {
  }

  // The loop that tries to merge new data into a record of the list, first match first.
  method Store(list0: seq<Rec>, start: nat, end: nat, ip: nat) returns (list: seq<Rec>)
    ensures list == Added(list0, start, end, ip)
  {
    list := list0;
    var merged, it := false, 0;
    while it < |list| && !merged
      invariant 0 <= it <= |list0|
      invariant if merged then list == Added(list0, start, end, ip)
        else list == list0 && Added(list0, start, end, ip) == list0[..it] + Added(list0[it..], start, end, ip)
      decreases |list0| - it, !merged
    {
      if Adjacent(list[it], start, end, ip) {
        list := list[it := Joined(list[it], start, end)];
        merged := true;
      } else {
        assert list0[it..][1..] == list0[it + 1..];
        it := it + 1;
      }
    }
    if !merged {
      list := list + [Rec(start, end, ip)];
    }
  }

  // The body of the loop: edit, split or erase the record at the iterator.
  method CarveAt(list0: seq<Rec>, it0: nat, lo: nat, hi: nat) returns (list: seq<Rec>, it: nat, data: nat)
    requires it0 < |list0| && lo <= hi && Proper(list0[it0])
    ensures it == it0 + |Pieces(list0[it0], lo, hi)| <= |list|
    ensures list[..it] == list0[..it0] + Pieces(list0[it0], lo, hi) && list[it..] == list0[it0..][1..]
    ensures data == Taken(list0[it0], lo, hi)
  {
    list, it, data := list0, it0, 0;
    var cur := list[it];
    if lo <= cur.start <= hi {
      if cur.end > hi {
        data := hi - cur.start + 1;
        list := list[it := cur.(start := hi + 1)];
        it := it + 1;
      } else {
        data := cur.end - cur.start + 1;
        list := list[..it] + list[it + 1..];
      }
    } else if cur.start < lo && cur.end >= lo {
      if cur.end > hi {
        data := hi - lo + 1;
        list := list[..it] + [Rec(cur.start, lo - 1, cur.ip)] + [cur.(start := hi + 1)] + list[it + 1..];
        it := it + 2;
      } else {
        data := cur.end - lo + 1;
        list := list[it := cur.(end := lo - 1)];
        it := it + 1;
      }
    } else {
      it := it + 1;
    }
  }

  lemma NextRecord(was: seq<Rec>, k: nat, lo: nat, hi: nat)
    requires k < |was| && lo <= hi && Proper(was[k])
    ensures Carved(was[..k + 1], lo, hi) == Carved(was[..k], lo, hi) + Pieces(was[k], lo, hi)
    ensures was[k..][1..] == was[k + 1..]
  {
    assert was[..k + 1] == was[..k] + [was[k]];
    CarvedConcat(was[..k], [was[k]], lo, hi);
    Single(was[k], 0, lo, hi);
  }

  lemma NextCredit(m: map<nat, nat>, was: seq<Rec>, k: nat, ok: bool, lo: nat, hi: nat)
    requires k < |was| && lo <= hi && AllProper(was)
    ensures CreditAll(m, was[..k + 1], ok, lo, hi) ==
      Credit(CreditAll(m, was[..k], ok, lo, hi), was[k].ip, Charge(ok, Taken(was[k], lo, hi)))
  {
    assert was[..k + 1][..k] == was[..k];
  }
}
