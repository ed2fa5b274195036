// The records of the corruption black box: who sent which bytes of a part.
module Records {
  const PARTSIZE: nat := 9728000
  const EMBLOCKSIZE: nat := 184320

  datatype Rec = Rec(start: nat, end: nat, ip: nat)

  // A record of at least one byte of a part.
  predicate Proper(r: Rec) { r.start <= r.end < PARTSIZE }

  predicate AllProper(list: seq<Rec>) {
    forall i :: 0 <= i < |list| ==> Proper(list[i])
  }

  function Hit(r: Rec, ip: nat, p: nat): nat {
    if r.ip == ip && r.start <= p <= r.end then 1 else 0
  }

  // How often byte p is recorded as sent by ip.
  function Coverage(list: seq<Rec>, ip: nat, p: nat): nat {
    if list == [] then 0 else Hit(list[0], ip, p) + Coverage(list[1..], ip, p)
  }

  // What the verification of [lo, hi] leaves of one record, in order, and how much it takes.
  function Pieces(r: Rec, lo: nat, hi: nat): (ps: seq<Rec>)
    requires lo <= hi
    ensures Proper(r) ==> AllProper(ps)
  {
    if lo <= r.start <= hi then
      if r.end > hi then [Rec(hi + 1, r.end, r.ip)] else []
    else if r.start < lo && lo <= r.end then
      if r.end > hi then [Rec(r.start, lo - 1, r.ip), Rec(hi + 1, r.end, r.ip)]
      else [Rec(r.start, lo - 1, r.ip)]
    else [r]
  }

  function Taken(r: Rec, lo: nat, hi: nat): nat
    requires lo <= hi && r.start <= r.end
  {
    if lo <= r.start <= hi then
      if r.end > hi then hi - r.start + 1 else r.end - r.start + 1
    else if r.start < lo && lo <= r.end then
      if r.end > hi then hi - lo + 1 else r.end - lo + 1
    else 0
  }

  function Carved(list: seq<Rec>, lo: nat, hi: nat): (r: seq<Rec>)
    requires lo <= hi
  {
    if list == [] then [] else Pieces(list[0], lo, hi) + Carved(list[1..], lo, hi)
  }

  // Bytes taken from the records of ip, and what they count when the data is corrupt:
  // every record at least a block.
  function Removed(list: seq<Rec>, ip: nat, lo: nat, hi: nat): nat
    requires lo <= hi && AllProper(list)
  {
    if list == [] then 0
    else (if list[0].ip == ip then Taken(list[0], lo, hi) else 0) + Removed(list[1..], ip, lo, hi)
  }

  function Penalty(taken: nat): nat {
    if taken == 0 then 0 else if taken > EMBLOCKSIZE then taken else EMBLOCKSIZE
  }

  function Penalties(list: seq<Rec>, ip: nat, lo: nat, hi: nat): nat
    requires lo <= hi && AllProper(list)
  {
    if list == [] then 0
    else (if list[0].ip == ip then Penalty(Taken(list[0], lo, hi)) else 0) + Penalties(list[1..], ip, lo, hi)
  }

  // Each record that something is taken from counts as a block, or as what is taken if that is more.
  lemma PenaltyIs(taken: nat)
    ensures taken == 0 ==> Penalty(taken) == 0
    ensures taken > 0 ==> Penalty(taken) >= 184320 && Penalty(taken) >= taken
    ensures taken > 0 ==> Penalty(taken) == 184320 || Penalty(taken) == taken
  {}

  // The records of ip that something is taken from.
  function Touched(list: seq<Rec>, ip: nat, lo: nat, hi: nat): nat {
    if list == [] then 0
    else
      (if list[0].ip == ip && list[0].start <= hi && lo <= list[0].end then 1 else 0) + Touched(list[1..], ip, lo, hi)
  }

  // Corrupt data costs its sender at least a block for each record it lies in, and at least its bytes; it costs
  // no more than both together.
  lemma {:induction false} PenaltiesAre(list: seq<Rec>, ip: nat, lo: nat, hi: nat)
    requires lo <= hi && AllProper(list)
    ensures 184320 * Touched(list, ip, lo, hi) <= Penalties(list, ip, lo, hi)
    ensures Removed(list, ip, lo, hi) <= Penalties(list, ip, lo, hi)
    ensures Penalties(list, ip, lo, hi) <= 184320 * Touched(list, ip, lo, hi) + Removed(list, ip, lo, hi)
    ensures Touched(list, ip, lo, hi) > 0 <==> Removed(list, ip, lo, hi) > 0
  {
    if list != [] {
      PenaltiesAre(list[1..], ip, lo, hi);
      PenaltyIs(Taken(list[0], lo, hi));
      hide Penalty;
    }
  }

  function Size(list: seq<Rec>, ip: nat): nat
    requires AllProper(list)
  {
    if list == [] then 0
    else (if list[0].ip == ip then list[0].end - list[0].start + 1 else 0) + Size(list[1..], ip)
  }

  // The bytes of ip recorded in [lo, hi], byte by byte.
  function CoverageSum(list: seq<Rec>, ip: nat, lo: nat, hi: nat): nat
    requires lo <= hi + 1
    decreases hi + 1 - lo
  {
    if lo > hi then 0 else Coverage(list, ip, lo) + CoverageSum(list, ip, lo + 1, hi)
  }

  // ---- Concatenation ----

  lemma {:induction false} CoverageConcat(a: seq<Rec>, b: seq<Rec>, ip: nat, p: nat)
    ensures Coverage(a + b, ip, p) == Coverage(a, ip, p) + Coverage(b, ip, p)
  {
    if a == [] {
      assert a + b == b;
    } else {
      assert (a + b)[1..] == a[1..] + b;
      CoverageConcat(a[1..], b, ip, p);
    }
  }

  lemma {:induction false} CarvedConcat(a: seq<Rec>, b: seq<Rec>, lo: nat, hi: nat)
    requires lo <= hi
    ensures Carved(a + b, lo, hi) == Carved(a, lo, hi) + Carved(b, lo, hi)
  {
    if a == [] {
      assert a + b == b;
    } else {
      assert (a + b)[1..] == a[1..] + b;
      CarvedConcat(a[1..], b, lo, hi);
    }
  }

  lemma {:induction false} SumsConcat(a: seq<Rec>, b: seq<Rec>, ip: nat, lo: nat, hi: nat)
    requires lo <= hi && AllProper(a) && AllProper(b)
    ensures AllProper(a + b)
    ensures Removed(a + b, ip, lo, hi) == Removed(a, ip, lo, hi) + Removed(b, ip, lo, hi)
    ensures Penalties(a + b, ip, lo, hi) == Penalties(a, ip, lo, hi) + Penalties(b, ip, lo, hi)
    ensures Size(a + b, ip) == Size(a, ip) + Size(b, ip)
  {
    if a == [] {
      assert a + b == b;
    } else {
      assert (a + b)[1..] == a[1..] + b;
      SumsConcat(a[1..], b, ip, lo, hi);
    }
  }

  lemma {:induction false} CarvedProper(list: seq<Rec>, lo: nat, hi: nat)
    requires lo <= hi && AllProper(list)
    ensures AllProper(Carved(list, lo, hi))
  {
    if list != [] {
      CarvedProper(list[1..], lo, hi);
    }
  }

  lemma SingleCoverage(a: Rec, ip: nat, p: nat)
    ensures Coverage([a], ip, p) == Hit(a, ip, p)
  {
    assert [a][1..] == [];
  }

  lemma Single(a: Rec, ip: nat, lo: nat, hi: nat)
    requires lo <= hi && Proper(a)
    ensures Carved([a], lo, hi) == Pieces(a, lo, hi)
    ensures Removed([a], ip, lo, hi) == if a.ip == ip then Taken(a, lo, hi) else 0
    ensures Penalties([a], ip, lo, hi) == if a.ip == ip then Penalty(Taken(a, lo, hi)) else 0
    ensures Size([a], ip) == if a.ip == ip then a.end - a.start + 1 else 0
  {
    assert [a][1..] == [];
  }

  lemma Pair(a: Rec, b: Rec, ip: nat, lo: nat, hi: nat)
    requires lo <= hi && Proper(a) && Proper(b)
    ensures Carved([a, b], lo, hi) == Pieces(a, lo, hi) + Pieces(b, lo, hi)
    ensures Removed([a, b], ip, lo, hi) == Removed([a], ip, lo, hi) + Removed([b], ip, lo, hi)
    ensures Penalties([a, b], ip, lo, hi) == Penalties([a], ip, lo, hi) + Penalties([b], ip, lo, hi)
    ensures Size([a, b], ip) == Size([a], ip) + Size([b], ip)
  {
    assert [a, b] == [a] + [b];
    Single(a, ip, lo, hi);
    Single(b, ip, lo, hi);
    CarvedConcat([a], [b], lo, hi);
    SumsConcat([a], [b], ip, lo, hi);
  }

  // Carving the pieces of a record, whatever their number.
  lemma OfPieces(ps: seq<Rec>, ip: nat, lo: nat, hi: nat)
    requires lo <= hi && AllProper(ps) && |ps| <= 2
    ensures Carved(ps, lo, hi) ==
      (if |ps| > 0 then Pieces(ps[0], lo, hi) else []) + (if |ps| > 1 then Pieces(ps[1], lo, hi) else [])
    ensures Removed(ps, ip, lo, hi) == (if |ps| > 0 && ps[0].ip == ip then Taken(ps[0], lo, hi) else 0)
      + (if |ps| > 1 && ps[1].ip == ip then Taken(ps[1], lo, hi) else 0)
    ensures Penalties(ps, ip, lo, hi) == (if |ps| > 0 && ps[0].ip == ip then Penalty(Taken(ps[0], lo, hi)) else 0)
      + (if |ps| > 1 && ps[1].ip == ip then Penalty(Taken(ps[1], lo, hi)) else 0)
    ensures Size(ps, ip) == (if |ps| > 0 && ps[0].ip == ip then ps[0].end - ps[0].start + 1 else 0)
      + (if |ps| > 1 && ps[1].ip == ip then ps[1].end - ps[1].start + 1 else 0)
  {
    if |ps| == 1 {
      assert ps == [ps[0]];
      Single(ps[0], ip, lo, hi);
    } else if |ps| == 2 {
      assert ps == [ps[0], ps[1]];
      Single(ps[0], ip, lo, hi);
      Single(ps[1], ip, lo, hi);
      Pair(ps[0], ps[1], ip, lo, hi);
    }
  }

  // ---- Verification conserves bytes ----

  lemma PiecesCoverage(r: Rec, lo: nat, hi: nat, ip: nat, p: nat)
    requires lo <= hi && Proper(r)
    ensures Coverage(Pieces(r, lo, hi), ip, p) == if lo <= p <= hi then 0 else Hit(r, ip, p)
  {
    var ps := Pieces(r, lo, hi);
    if |ps| == 1 {
      SingleCoverage(ps[0], ip, p);
    } else if |ps| == 2 {
      assert ps == [ps[0]] + [ps[1]];
      CoverageConcat([ps[0]], [ps[1]], ip, p);
      SingleCoverage(ps[0], ip, p);
      SingleCoverage(ps[1], ip, p);
    }
  }

  // Inside the verified range no coverage is left; outside nothing changes.
  lemma {:induction false} CarvedCoverage(list: seq<Rec>, lo: nat, hi: nat, ip: nat, p: nat)
    requires lo <= hi && AllProper(list)
    ensures Coverage(Carved(list, lo, hi), ip, p) == if lo <= p <= hi then 0 else Coverage(list, ip, p)
  {
    if list != [] {
      PiecesCoverage(list[0], lo, hi, ip, p);
      CarvedCoverage(list[1..], lo, hi, ip, p);
      CoverageConcat(Pieces(list[0], lo, hi), Carved(list[1..], lo, hi), ip, p);
    }
  }

  // The bytes of one record inside a range.
  lemma {:induction false} TakenIsHits(r: Rec, lo: nat, hi: nat)
    requires lo <= hi && Proper(r)
    ensures CoverageSum([r], r.ip, lo, hi) == Taken(r, lo, hi)
    decreases hi - lo
  {
    SingleCoverage(r, r.ip, lo);
    if lo < hi {
      TakenIsHits(r, lo + 1, hi);
    } else {
      assert CoverageSum([r], r.ip, hi + 1, hi) == 0;
    }
  }

  lemma {:induction false} SumOther(list: seq<Rec>, ip: nat, lo: nat, hi: nat)
    requires lo <= hi + 1
    requires forall p :: lo <= p <= hi ==> Coverage(list, ip, p) == 0
    ensures CoverageSum(list, ip, lo, hi) == 0
    decreases hi + 1 - lo
  {
    if lo <= hi {
      SumOther(list, ip, lo + 1, hi);
    }
  }

  lemma {:induction false} SumSplit(list: seq<Rec>, ip: nat, lo: nat, hi: nat)
    requires lo <= hi + 1 && list != []
    ensures CoverageSum(list, ip, lo, hi) == CoverageSum([list[0]], ip, lo, hi) + CoverageSum(list[1..], ip, lo, hi)
    decreases hi + 1 - lo
  {
    if lo <= hi {
      SingleCoverage(list[0], ip, lo);
      SumSplit(list, ip, lo + 1, hi);
    }
  }

  // What is credited for a sender is the coverage that was removed, byte for byte.
  lemma {:induction false} RemovedIsCoverage(list: seq<Rec>, ip: nat, lo: nat, hi: nat)
    requires lo <= hi && AllProper(list)
    ensures Removed(list, ip, lo, hi) == CoverageSum(list, ip, lo, hi)
  {
    if list == [] {
      SumOther(list, ip, lo, hi);
    } else {
      SumSplit(list, ip, lo, hi);
      RemovedIsCoverage(list[1..], ip, lo, hi);
      if list[0].ip == ip {
        TakenIsHits(list[0], lo, hi);
      } else {
        assert [list[0]][1..] == [];
        SumOther([list[0]], ip, lo, hi);
      }
    }
  }

  lemma {:induction false} CarvedSize(list: seq<Rec>, ip: nat, lo: nat, hi: nat)
    requires lo <= hi && AllProper(list)
    ensures AllProper(Carved(list, lo, hi))
    ensures Size(Carved(list, lo, hi), ip) + Removed(list, ip, lo, hi) == Size(list, ip)
    ensures Removed(list, ip, lo, hi) <= Penalties(list, ip, lo, hi)
  {
    if list != [] {
      var ps := Pieces(list[0], lo, hi);
      CarvedSize(list[1..], ip, lo, hi);
      SumsConcat(ps, Carved(list[1..], lo, hi), ip, lo, hi);
      PiecesSize(list[0], ip, lo, hi);
    }
  }

  lemma PiecesSize(r: Rec, ip: nat, lo: nat, hi: nat)
    requires lo <= hi && Proper(r)
    ensures Size(Pieces(r, lo, hi), ip) + (if r.ip == ip then Taken(r, lo, hi) else 0) == Size([r], ip)
  {
    OfPieces(Pieces(r, lo, hi), ip, lo, hi);
    Single(r, ip, lo, hi);
  }

  // ---- Order of verification ----

  predicate Disjoint(lo: nat, hi: nat, lo': nat, hi': nat) { hi < lo' || hi' < lo }

  lemma PiecesInOrder(r: Rec, lo: nat, hi: nat, lo': nat, hi': nat)
    requires lo <= hi < lo' <= hi' && Proper(r)
    ensures Carved(Pieces(r, lo, hi), lo', hi') == Carved(Pieces(r, lo', hi'), lo, hi)
  {
    OfPieces(Pieces(r, lo, hi), r.ip, lo', hi');
    OfPieces(Pieces(r, lo', hi'), r.ip, lo, hi);
  }

  lemma PiecesTaken(r: Rec, lo: nat, hi: nat, lo': nat, hi': nat, ip: nat)
    requires lo <= hi && lo' <= hi' && Disjoint(lo, hi, lo', hi') && Proper(r)
    ensures Removed(Pieces(r, lo, hi), ip, lo', hi') == Removed([r], ip, lo', hi')
    ensures Penalties(Pieces(r, lo, hi), ip, lo', hi') == Penalties([r], ip, lo', hi')
  {
    hide Removed, Penalties;
    OfPieces(Pieces(r, lo, hi), ip, lo', hi');
    Single(r, ip, lo', hi');
  }

  // Disjoint ranges can be verified in either order: same records left, same bytes taken.
  lemma {:induction false} CarvedCommute(list: seq<Rec>, lo: nat, hi: nat, lo': nat, hi': nat, ip: nat)
    requires lo <= hi && lo' <= hi' && Disjoint(lo, hi, lo', hi') && AllProper(list)
    ensures AllProper(Carved(list, lo, hi))
    ensures Carved(Carved(list, lo, hi), lo', hi') == Carved(Carved(list, lo', hi'), lo, hi)
    ensures Removed(Carved(list, lo, hi), ip, lo', hi') == Removed(list, ip, lo', hi')
    ensures Penalties(Carved(list, lo, hi), ip, lo', hi') == Penalties(list, ip, lo', hi')
  {
    if list != [] {
      var ps, ps' := Pieces(list[0], lo, hi), Pieces(list[0], lo', hi');
      var tail, tail' := Carved(list[1..], lo, hi), Carved(list[1..], lo', hi');
      if hi < lo' {
        PiecesInOrder(list[0], lo, hi, lo', hi');
      } else {
        PiecesInOrder(list[0], lo', hi', lo, hi);
      }
      PiecesTaken(list[0], lo, hi, lo', hi', ip);
      CarvedCommute(list[1..], lo, hi, lo', hi', ip);
      CarvedConcat(ps, tail, lo', hi');
      CarvedConcat(ps', tail', lo, hi);
      SumsConcat(ps, tail, ip, lo', hi');
    }
  }

  // Verifying a range again finds nothing.
  lemma {:induction false} CarvedTwice(list: seq<Rec>, lo: nat, hi: nat, ip: nat)
    requires lo <= hi && AllProper(list)
    ensures AllProper(Carved(list, lo, hi)) && Carved(Carved(list, lo, hi), lo, hi) == Carved(list, lo, hi)
    ensures Removed(Carved(list, lo, hi), ip, lo, hi) == Penalties(Carved(list, lo, hi), ip, lo, hi) == 0
  {
    if list != [] {
      var ps := Pieces(list[0], lo, hi);
      CarvedTwice(list[1..], lo, hi, ip);
      OfPieces(ps, ip, lo, hi);
      CarvedConcat(ps, Carved(list[1..], lo, hi), lo, hi);
      SumsConcat(ps, Carved(list[1..], lo, hi), ip, lo, hi);
    }
  }
}
