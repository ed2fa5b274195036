// What the black box keeps over every run of receiving and verifying.
module BlackBoxRuns {
  import opened Records
  import opened BlackBox

  // ---- Receiving ----

  lemma JoinedFacts(r: Rec, start: nat, end: nat, ip: nat, ip': nat, p: nat)
    requires Proper(r) && start <= end < PARTSIZE && Adjacent(r, start, end, ip)
    ensures Proper(Joined(r, start, end))
    ensures Hit(Joined(r, start, end), ip', p) == Hit(r, ip', p) + Hit(Rec(start, end, ip), ip', p)
  {
  }

  // A received range raises the coverage of exactly its bytes by one, merged or appended.
  lemma {:induction false} AddedCoverage(list: seq<Rec>, start: nat, end: nat, ip: nat, ip': nat, p: nat)
    requires AllProper(list) && start <= end < PARTSIZE
    ensures AllProper(Added(list, start, end, ip))
    ensures Coverage(Added(list, start, end, ip), ip', p) == Coverage(list, ip', p) + Hit(Rec(start, end, ip), ip', p)
  {
    var new0 := Rec(start, end, ip);
    if list == [] {
      SingleCoverage(new0, ip', p);
    } else if Adjacent(list[0], start, end, ip) {
      JoinedFacts(list[0], start, end, ip, ip', p);
      var r := Added(list, start, end, ip);
      assert r[0] == Joined(list[0], start, end) && r[1..] == list[1..];
    } else {
      AddedCoverage(list[1..], start, end, ip, ip', p);
      var r := Added(list, start, end, ip);
      assert r[0] == list[0] && r[1..] == Added(list[1..], start, end, ip);
    }
  }

  lemma {:induction false} AddedSize(list: seq<Rec>, start: nat, end: nat, ip: nat, ip': nat)
    requires AllProper(list) && start <= end < PARTSIZE
    ensures AllProper(Added(list, start, end, ip))
    ensures Size(Added(list, start, end, ip), ip') == Size(list, ip') + if ip' == ip then end - start + 1 else 0
  {
    if list == [] {
      Single(Rec(start, end, ip), ip', 0, 0);
    } else if Adjacent(list[0], start, end, ip) {
      var r := Added(list, start, end, ip);
      assert r[0] == Joined(list[0], start, end) && r[1..] == list[1..];
    } else {
      AddedSize(list[1..], start, end, ip, ip');
      var r := Added(list, start, end, ip);
      assert r[0] == list[0] && r[1..] == Added(list[1..], start, end, ip);
    }
  }

  // How often the byte at a position of the file is recorded for a sender.
  function FileCoverage(records: map<nat, seq<Rec>>, ip: nat, pos: nat): nat {
    Coverage(ListOf(records, pos / PARTSIZE), ip, pos % PARTSIZE)
  }

  lemma Position(pos: nat, part: nat)
    ensures pos / PARTSIZE == part <==> part * PARTSIZE <= pos < (part + 1) * PARTSIZE
    ensures pos / PARTSIZE == part ==> pos % PARTSIZE == pos - part * PARTSIZE
  {
  }

  lemma StoreInPart(records: map<nat, seq<Rec>>, part: nat, s: nat, e: nat, ip: nat, ip': nat, pos: nat)
    requires ProperBox(records) && s <= e < PARTSIZE
    ensures ProperBox(records[part := Added(ListOf(records, part), s, e, ip)])
    ensures FileCoverage(records[part := Added(ListOf(records, part), s, e, ip)], ip', pos) ==
      FileCoverage(records, ip', pos) + if ip' == ip && part * PARTSIZE + s <= pos <= part * PARTSIZE + e then 1 else 0
  {
    AddedCoverage(ListOf(records, part), s, e, ip, ip', pos % PARTSIZE);
    Position(pos, part);
  }

  lemma StoreProper(records: map<nat, seq<Rec>>, part: nat, s: nat, e: nat, ip: nat)
    requires ProperBox(records) && s <= e < PARTSIZE
    ensures ProperBox(records[part := Added(ListOf(records, part), s, e, ip)])
  {
    AddedSize(ListOf(records, part), s, e, ip, ip);
    hide Added;
  }

  lemma {:induction false} TransferProper(records: map<nat, seq<Rec>>, start: nat, end: nat, ip: nat)
    requires ProperBox(records)
    ensures ProperBox(Transfer(records, start, end, ip))
    decreases if start <= end then end - start + 1 else 0
  {
    if start <= end {
      PartBounds(start);
      var part := start / PARTSIZE;
      var base := part * PARTSIZE;
      if end - base >= PARTSIZE {
        TransferProper(records, base + PARTSIZE, end, ip);
        StoreProper(Transfer(records, base + PARTSIZE, end, ip), part, start - base, PARTSIZE - 1, ip);
      } else {
        StoreProper(records, part, start - base, end - base, ip);
      }
    }
  }

  // TransferredData over any range that the code's 16-bit part numbers and 32-bit positions can express, also
  // across parts.
  lemma {:induction false} TransferCoverage(
    records: map<nat, seq<Rec>>, start: nat, end: nat, ip: nat, ip': nat, pos: nat)
    requires ProperBox(records) && start <= end && Addressable(start, end)
    ensures ProperBox(Transfer(records, start, end, ip))
    ensures FileCoverage(Transfer(records, start, end, ip), ip', pos) ==
      FileCoverage(records, ip', pos) + if ip' == ip && start <= pos <= end then 1 else 0
    decreases end - start
  {
    hide FileCoverage, Added, ListOf;
    PartBounds(start);
    var part := start / PARTSIZE;
    var base := part * PARTSIZE;
    if end - base >= PARTSIZE {
      PartOrder(start, end);
      TransferCoverage(records, base + PARTSIZE, end, ip, ip', pos);
      StoreInPart(Transfer(records, base + PARTSIZE, end, ip), part, start - base, PARTSIZE - 1, ip, ip', pos);
    } else {
      StoreInPart(records, part, start - base, end - base, ip, ip', pos);
    }
  }

  // ---- Verifying ----

  lemma VerifyProper(b: Box, ok: bool, part: nat, lo: nat, hi: nat)
    requires ProperBox(b.records)
    ensures ProperBox(Verify(b, ok, part, lo, hi).records)
  {
    if lo <= hi {
      CarvedProper(ListOf(b.records, part), lo, hi);
    }
  }

  // Verification removes all coverage of its range and touches no other byte.
  lemma VerifyCoverage(b: Box, ok: bool, part: nat, lo: nat, hi: nat, ip: nat, part': nat, p: nat)
    requires ProperBox(b.records) && lo <= hi
    ensures Coverage(ListOf(Verify(b, ok, part, lo, hi).records, part'), ip, p) ==
      if part' == part && lo <= p <= hi then 0 else Coverage(ListOf(b.records, part'), ip, p)
  {
    CarvedCoverage(ListOf(b.records, part), lo, hi, ip, p);
  }

  // The sender's account grows by the coverage removed, byte for byte, or by the block penalties.
  lemma VerifyAccounts(b: Box, ok: bool, part: nat, lo: nat, hi: nat, ip: nat)
    requires ProperBox(b.records) && lo <= hi
    ensures var a, list := Verify(b, ok, part, lo, hi), ListOf(b.records, part);
      && Get(a.good, ip) == Get(b.good, ip) + (if ok then CoverageSum(list, ip, lo, hi) else 0)
      && Get(a.bad, ip) == Get(b.bad, ip) + (if ok then 0 else Penalties(list, ip, lo, hi))
    ensures !ok ==>
      var list, charged := ListOf(b.records, part), Get(Verify(b, ok, part, lo, hi).bad, ip) - Get(b.bad, ip);
      && 184320 * Touched(list, ip, lo, hi) <= charged && CoverageSum(list, ip, lo, hi) <= charged
      && charged <= 184320 * Touched(list, ip, lo, hi) + CoverageSum(list, ip, lo, hi)
  {
    var list := ListOf(b.records, part);
    PenaltiesAre(list, ip, lo, hi);
    RemovedIsCoverage(list, ip, lo, hi);
    CreditAllSums(if ok then b.good else b.bad, list, ok, lo, hi, ip);
  }

  lemma CreditAllAgree(m: map<nat, nat>, list: seq<Rec>, list': seq<Rec>, ok: bool, lo: nat, hi: nat)
    requires lo <= hi && AllProper(list) && AllProper(list')
    requires forall ip :: Amount(list, ip, ok, lo, hi) == Amount(list', ip, ok, lo, hi)
    ensures CreditAll(m, list, ok, lo, hi) == CreditAll(m, list', ok, lo, hi)
  {
    var a, b := CreditAll(m, list, ok, lo, hi), CreditAll(m, list', ok, lo, hi);
    forall ip ensures (ip in a <==> ip in b) && Get(a, ip) == Get(b, ip) {
      CreditAllSums(m, list, ok, lo, hi, ip);
      CreditAllSums(m, list', ok, lo, hi, ip);
    }
    SameLedger(a, b);
  }

  lemma CreditAllCommute(m: map<nat, nat>, a: seq<Rec>, lo: nat, hi: nat, b: seq<Rec>, lo': nat, hi': nat, ok: bool)
    requires lo <= hi && lo' <= hi' && AllProper(a) && AllProper(b)
    ensures CreditAll(CreditAll(m, a, ok, lo, hi), b, ok, lo', hi') ==
      CreditAll(CreditAll(m, b, ok, lo', hi'), a, ok, lo, hi)
  {
    var x, y := CreditAll(m, a, ok, lo, hi), CreditAll(m, b, ok, lo', hi');
    var x', y' := CreditAll(x, b, ok, lo', hi'), CreditAll(y, a, ok, lo, hi);
    forall ip ensures (ip in x' <==> ip in y') && Get(x', ip) == Get(y', ip) {
      CreditAllSums(m, a, ok, lo, hi, ip);
      CreditAllSums(m, b, ok, lo', hi', ip);
      CreditAllSums(x, b, ok, lo', hi', ip);
      CreditAllSums(y, a, ok, lo, hi, ip);
    }
    SameLedger(x', y');
  }

  predicate Apart(part: nat, lo: nat, hi: nat, part': nat, lo': nat, hi': nat) {
    part != part' || Disjoint(lo, hi, lo', hi')
  }

  // What the second verification finds is what it would have found as the first.
  lemma SecondFindsSame(b: Box, ok: bool, part: nat, lo: nat, hi: nat, ok': bool, part': nat, lo': nat, hi': nat)
    requires ProperBox(b.records) && lo <= hi && lo' <= hi' && Apart(part, lo, hi, part', lo', hi')
    ensures var a := Verify(b, ok, part, lo, hi);
      ProperBox(a.records) && forall ip ::
        Amount(ListOf(a.records, part'), ip, ok', lo', hi') == Amount(ListOf(b.records, part'), ip, ok', lo', hi')
  {
    VerifyProper(b, ok, part, lo, hi);
    var list := ListOf(b.records, part);
    forall ip ensures var a := Verify(b, ok, part, lo, hi);
      Amount(ListOf(a.records, part'), ip, ok', lo', hi') == Amount(ListOf(b.records, part'), ip, ok', lo', hi')
    {
      if part == part' {
        CarvedCommute(list, lo, hi, lo', hi', ip);
      }
    }
  }

  // Verifying disjoint ranges in either order leaves the very same state.
  lemma VerifyCommutes(b: Box, ok: bool, part: nat, lo: nat, hi: nat, ok': bool, part': nat, lo': nat, hi': nat)
    requires ProperBox(b.records) && lo <= hi && lo' <= hi' && Apart(part, lo, hi, part', lo', hi')
    ensures var x, y := Verify(b, ok, part, lo, hi), Verify(b, ok', part', lo', hi');
      ProperBox(x.records) && ProperBox(y.records) && Verify(x, ok', part', lo', hi') == Verify(y, ok, part, lo, hi)
  {
    var list, list' := ListOf(b.records, part), ListOf(b.records, part');
    var x, y := Verify(b, ok, part, lo, hi), Verify(b, ok', part', lo', hi');
    SecondFindsSame(b, ok, part, lo, hi, ok', part', lo', hi');
    SecondFindsSame(b, ok', part', lo', hi', ok, part, lo, hi);
    RecordsCommute(b, ok, part, lo, hi, ok', part', lo', hi');
    CreditAllAgree(if ok' then x.good else x.bad, ListOf(x.records, part'), list', ok', lo', hi');
    CreditAllAgree(if ok then y.good else y.bad, ListOf(y.records, part), list, ok, lo, hi);
    if ok == ok' {
      CreditAllCommute(if ok then b.good else b.bad, list, lo, hi, list', lo', hi', ok);
    }
  }

  lemma StoredTwice(records: map<nat, seq<Rec>>, part: nat, x: seq<Rec>, y: seq<Rec>)
    ensures Stored(Stored(records, part, x), part, y) == Stored(records, part, y)
    ensures ListOf(Stored(records, part, x), part) == x
  {
  }

  lemma StoredApart(records: map<nat, seq<Rec>>, part: nat, x: seq<Rec>, part': nat, y: seq<Rec>)
    requires part != part'
    ensures Stored(Stored(records, part, x), part', y) == Stored(Stored(records, part', y), part, x)
    ensures ListOf(Stored(records, part, x), part') == ListOf(records, part')
  {
  }

  lemma RecordsCommute(b: Box, ok: bool, part: nat, lo: nat, hi: nat, ok': bool, part': nat, lo': nat, hi': nat)
    requires ProperBox(b.records) && lo <= hi && lo' <= hi' && Apart(part, lo, hi, part', lo', hi')
    ensures var x, y := Verify(b, ok, part, lo, hi), Verify(b, ok', part', lo', hi');
      ProperBox(x.records) && ProperBox(y.records) &&
      Verify(x, ok', part', lo', hi').records == Verify(y, ok, part, lo, hi).records
  {
    VerifyProper(b, ok, part, lo, hi);
    VerifyProper(b, ok', part', lo', hi');
    hide Stored, ListOf;
    var list, list' := ListOf(b.records, part), ListOf(b.records, part');
    var c, c' := Carved(list, lo, hi), Carved(list', lo', hi');
    if part == part' {
      CarvedCommute(list, lo, hi, lo', hi', 0);
      StoredTwice(b.records, part, c, Carved(c, lo', hi'));
      StoredTwice(b.records, part, c', Carved(c', lo, hi));
    } else {
      StoredApart(b.records, part, c, part', c');
      StoredApart(b.records, part', c', part, c);
    }
  }

  // Verifying a range again changes nothing, whatever the verdict.
  lemma VerifyAgain(b: Box, ok: bool, part: nat, lo: nat, hi: nat, ok': bool)
    requires ProperBox(b.records) && lo <= hi
    ensures var a := Verify(b, ok, part, lo, hi);
      ProperBox(a.records) && Verify(a, ok', part, lo, hi) == a
  {
    VerifyProper(b, ok, part, lo, hi);
    var a := Verify(b, ok, part, lo, hi);
    var list := ListOf(a.records, part);
    forall ip ensures Amount(list, ip, ok', lo, hi) == Amount([], ip, ok', lo, hi) {
      CarvedTwice(ListOf(b.records, part), lo, hi, ip);
    }
    CreditAllAgree(if ok' then a.good else a.bad, list, [], ok', lo, hi);
    CarvedTwice(ListOf(b.records, part), lo, hi, 0);
  }

  // ---- Whole runs ----

  datatype Op = Receive(start: nat, end: nat, ip: nat) | Judge(ok: bool, part: nat, lo: nat, hi: nat)

  function Do(b: Box, op: Op): (a: Box)
    requires ProperBox(b.records)
    ensures ProperBox(a.records)
  {
    match op
    case Receive(s, e, ip) =>
      TransferProper(b.records, s, e, ip);
      b.(records := Transfer(b.records, s, e, ip))
    case Judge(ok, part, lo, hi) =>
      VerifyProper(b, ok, part, lo, hi);
      Verify(b, ok, part, lo, hi)
  }

  function Run(b: Box, ops: seq<Op>): (a: Box)
    requires ProperBox(b.records)
    ensures ProperBox(a.records)
  {
    if ops == [] then b else Do(Run(b, ops[..|ops| - 1]), ops[|ops| - 1])
  }

  const EMPTY := Box(map[], map[], map[])

  // Recorded bytes of a sender in the parts below n.
  function Outstanding(records: map<nat, seq<Rec>>, ip: nat, n: nat): nat
    requires ProperBox(records)
  {
    if n == 0 then 0 else Outstanding(records, ip, n - 1) + Size(ListOf(records, n - 1), ip)
  }

  // Bytes received from a sender, and bytes of it found corrupt, in a run.
  function Received(ops: seq<Op>, ip: nat): nat {
    if ops == [] then 0
    else
      var op := ops[|ops| - 1];
      Received(ops[..|ops| - 1], ip) +
      if op.Receive? && op.ip == ip && op.start <= op.end then op.end - op.start + 1 else 0
  }

  function Corrupt(ops: seq<Op>, ip: nat): nat {
    if ops == [] then 0
    else
      var op, before := ops[|ops| - 1], Run(EMPTY, ops[..|ops| - 1]);
      Corrupt(ops[..|ops| - 1], ip) +
      if op.Judge? && !op.ok && op.lo <= op.hi then Removed(ListOf(before.records, op.part), ip, op.lo, op.hi) else 0
  }

  // The operation stays in the parts below n, and the code's casts leave its range intact.
  predicate Below(op: Op, n: nat) {
    match op
    case Receive(s, e, _) => e / PARTSIZE < n && Addressable(s, e)
    case Judge(_, part, _, _) => part < n
  }

  lemma {:induction false} OutstandingStore(records: map<nat, seq<Rec>>, part: nat, list: seq<Rec>, ip: nat, n: nat)
    requires ProperBox(records) && AllProper(list)
    ensures ProperBox(Stored(records, part, list))
    ensures part >= n ==> Outstanding(Stored(records, part, list), ip, n) == Outstanding(records, ip, n)
    ensures part < n ==> (Outstanding(Stored(records, part, list), ip, n) + Size(ListOf(records, part), ip)
      == Outstanding(records, ip, n) + Size(list, ip))
  {
    if n > 0 {
      OutstandingStore(records, part, list, ip, n - 1);
    }
  }

  lemma {:induction false} TransferSize(records: map<nat, seq<Rec>>, start: nat, end: nat, ip: nat, ip': nat, n: nat)
    requires ProperBox(records) && start <= end && end / PARTSIZE < n
    ensures ProperBox(Transfer(records, start, end, ip))
    ensures Outstanding(Transfer(records, start, end, ip), ip', n) ==
      Outstanding(records, ip', n) + if ip' == ip then end - start + 1 else 0
    decreases end - start
  {
    hide Added, Outstanding;
    PartBounds(start);
    PartOrder(start, end);
    var part := start / PARTSIZE;
    var base := part * PARTSIZE;
    var e := if end - base >= PARTSIZE then PARTSIZE - 1 else end - base;
    var later := if end - base >= PARTSIZE then Transfer(records, base + PARTSIZE, end, ip) else records;
    if end - base >= PARTSIZE {
      TransferSize(records, base + PARTSIZE, end, ip, ip', n);
    }
    var list := ListOf(later, part);
    AddedSize(list, start - base, e, ip, ip');
    OutstandingStore(later, part, Added(list, start - base, e, ip), ip', n);
  }

  // Conservation: every byte received from a sender is still recorded, or was verified as good,
  // or was found corrupt; and what was found corrupt is charged at least in full.
  lemma {:induction false} Conservation(ops: seq<Op>, ip: nat, n: nat)
    requires forall i :: 0 <= i < |ops| ==> Below(ops[i], n)
    ensures var b := Run(EMPTY, ops);
      && Received(ops, ip) == Outstanding(b.records, ip, n) + Get(b.good, ip) + Corrupt(ops, ip)
      && Corrupt(ops, ip) <= Get(b.bad, ip)
      && (Get(b.bad, ip) > 0 <==> Corrupt(ops, ip) > 0)
      && (Corrupt(ops, ip) > 0 ==> Get(b.bad, ip) >= 184320)
  {
    if ops == [] {
      NothingOutstanding(ip, n);
    } else {
      var before, op := ops[..|ops| - 1], ops[|ops| - 1];
      Conservation(before, ip, n);
      StepConserves(Run(EMPTY, before), op, ip, n);
    }
  }

  lemma {:induction false} NothingOutstanding(ip: nat, n: nat)
    ensures Outstanding(map[], ip, n) == 0
  {
    if n > 0 {
      NothingOutstanding(ip, n - 1);
    }
  }

  lemma StepConserves(b: Box, op: Op, ip: nat, n: nat)
    requires ProperBox(b.records) && Below(op, n)
    ensures var a := Do(b, op);
      var found := if op.Judge? && op.lo <= op.hi then Removed(ListOf(b.records, op.part), ip, op.lo, op.hi) else 0;
      var came := if op.Receive? && op.ip == ip && op.start <= op.end then op.end - op.start + 1 else 0;
      && Outstanding(a.records, ip, n) + found == Outstanding(b.records, ip, n) + came
      && Get(a.good, ip) == Get(b.good, ip) + (if op.Judge? && op.ok then found else 0)
      && Get(b.bad, ip) + (if op.Judge? && !op.ok then found else 0) <= Get(a.bad, ip)
      && (Get(a.bad, ip) > Get(b.bad, ip) <==> op.Judge? && !op.ok && found > 0)
      && (Get(a.bad, ip) > Get(b.bad, ip) ==> Get(a.bad, ip) >= Get(b.bad, ip) + 184320)
  {
    match op
    case Receive(s, e, from) =>
      if s <= e {
        TransferSize(b.records, s, e, from, ip, n);
      }
    case Judge(ok, part, lo, hi) =>
      if lo <= hi {
        var list := ListOf(b.records, part);
        CarvedSize(list, ip, lo, hi);
        PenaltiesAre(list, ip, lo, hi);
        OutstandingStore(b.records, part, Carved(list, lo, hi), ip, n);
        CreditAllSums(if ok then b.good else b.bad, list, ok, lo, hi, ip);
      }
  }

  // The ban decision, free of the rounding of the percentage: 67 parts of bad against 33 of good.
  lemma BannedIff(b: Box, ip: nat)
    ensures Banned(b, ip) <==> Get(b.bad, ip) > 0 && 33 * Get(b.good, ip) <= 67 * Get(b.bad, ip)
  {
    var bad, good := Get(b.bad, ip), Get(b.good, ip);
    if bad != 0 {
      PercentAtLeast(bad * 100, bad + good, 33);
    }
  }

  lemma PercentAtLeast(a: nat, d: nat, k: nat)
    requires 0 < d
    ensures a / d >= k <==> a >= k * d
  {
    var q, r := a / d, a % d;
    assert a == q * d + r;
    if q >= k {
      assert q * d >= k * d;
    } else {
      assert (q + 1) * d <= k * d;
    }
  }

  // A sender of corrupt data is banned unless it sent enough that was good: 67 parts of a block, however little
  // was corrupt.
  lemma CorruptBanned(ops: seq<Op>, ip: nat, n: nat)
    requires (forall i :: 0 <= i < |ops| ==> Below(ops[i], n)) && Corrupt(ops, ip) > 0
    requires 33 * Get(Run(EMPTY, ops).good, ip) <= 67 * 184320
    ensures Banned(Run(EMPTY, ops), ip)
  {
    Conservation(ops, ip, n);
    BannedIff(Run(EMPTY, ops), ip);
  }

  // A sender of which nothing was ever found corrupt is never banned.
  lemma InnocentNotBanned(ops: seq<Op>, ip: nat, n: nat)
    requires (forall i :: 0 <= i < |ops| ==> Below(ops[i], n)) && Corrupt(ops, ip) == 0
    ensures !Banned(Run(EMPTY, ops), ip)
  {
    Conservation(ops, ip, n);
  }
}
