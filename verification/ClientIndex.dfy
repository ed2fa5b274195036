// The client list: three multimaps that index the client objects by ID, destination and user hash.
module ClientIndex {
  import opened Options

  type Cid = nat   // the address of a CUpDownClient

  // A destination as the list sees it: the 32-bit conversion of the key, and the validity flag.
  datatype Address = Address(code: nat, valid: bool)

  datatype ClientState = CS_NEW | CS_LISTED | CS_DYING

  // A hash of 0 stands for the empty user hash.
  datatype Client = Client(
    state: ClientState, id: nat, dest: Address, hash: nat, hasValidHash: bool, port: nat, udp: nat)

  // A multimap: the entries under a key in order; a key without entries is absent.
  type Multimap = map<nat, seq<Cid>>

  function Range(m: Multimap, k: nat): seq<Cid> {
    if k in m then m[k] else []
  }

  function Count(m: Multimap, k: nat, c: Cid): nat {
    multiset(Range(m, k))[c]
  }

  function Insert(m: Multimap, k: nat, c: Cid): Multimap {
    m[k := Range(m, k) + [c]]
  }

  // The range without the first entry for c.
  function Without(s: seq<Cid>, c: Cid): seq<Cid> {
    if s == [] then [] else if s[0] == c then s[1..] else [s[0]] + Without(s[1..], c)
  }

  function Replace(m: Multimap, k: nat, s: seq<Cid>): Multimap {
    if s == [] then m - {k} else m[k := s]
  }

  function Erase(m: Multimap, k: nat, c: Cid): Multimap {
    Replace(m, k, Without(Range(m, k), c))
  }

  // ---- What the index of each kind must hold ----

  datatype Kind = ById | ByDest | ByHash

  // The key a client must be found under; none for clients that must not be in the index.
  function Key(kind: Kind, x: Client): Option<nat> {
    if x.state != CS_LISTED then None
    else match kind
      case ById => Some(x.id)
      case ByDest => if x.dest.code != 0 then Some(x.dest.code) else None
      case ByHash => if x.hash != 0 then Some(x.hash) else None
  }

  function KeyOf(kind: Kind, clients: map<Cid, Client>, c: Cid): Option<nat> {
    if c in clients then Key(kind, clients[c]) else None
  }

  ghost predicate Canonical(m: Multimap) {
    forall k: nat :: k in m ==> m[k] != []
  }

  // Exactly one entry for every client that has a key, under that key, and no other entry.
  ghost predicate Exact(m: Multimap, clients: map<Cid, Client>, kind: Kind) {
    && Canonical(m)
    && (forall k: nat, c: Cid :: Count(m, k, c) == if KeyOf(kind, clients, c) == Some(k) then 1 else 0)
  }

  // ---- Multimap facts ----

  lemma {:induction false} WithoutCounts(s: seq<Cid>, c: Cid)
    ensures multiset(Without(s, c)) == multiset(s) - multiset{c}
  {
    if s == [] {
    } else if s[0] == c {
      assert s == [s[0]] + s[1..];
    } else {
      WithoutCounts(s[1..], c);
      assert s == [s[0]] + s[1..];
    }
  }

  lemma InsertCount(m: Multimap, k: nat, c: Cid, j: nat, d: Cid)
    ensures Count(Insert(m, k, c), j, d) == Count(m, j, d) + if j == k && d == c then 1 else 0
  {}

  lemma ReplaceRange(m: Multimap, k: nat, s: seq<Cid>, j: nat)
    ensures Range(Replace(m, k, s), j) == if j == k then s else Range(m, j)
  {}

  lemma EraseCount(m: Multimap, k: nat, c: Cid, j: nat, d: Cid)
    ensures Count(Erase(m, k, c), j, d) ==
      if j == k && d == c && Count(m, k, c) > 0 then Count(m, k, c) - 1 else Count(m, j, d)
  {
    WithoutCounts(Range(m, k), c);
    ReplaceRange(m, k, Without(Range(m, k), c), j);
    hide Range, Replace, Without;
  }

  lemma EraseAbsent(m: Multimap, k: nat, c: Cid)
    requires Count(m, k, c) == 0 && (k in m ==> m[k] != [])
    ensures Erase(m, k, c) == m
  {
    WithoutAbsent(Range(m, k), c);
  }

  lemma {:induction false} WithoutAbsent(s: seq<Cid>, c: Cid)
    requires c !in s
    ensures Without(s, c) == s
  {
    if s != [] {
      WithoutAbsent(s[1..], c);
    }
  }

  // ---- Keeping an index exact ----

  lemma InsertExact(m: Multimap, clients: map<Cid, Client>, kind: Kind, c: Cid, x: Client, k: nat)
    requires Exact(m, clients, kind) && KeyOf(kind, clients, c) == None && Key(kind, x) == Some(k)
    ensures Exact(Insert(m, k, c), clients[c := x], kind)
  {
    forall j: nat, d: Cid
      ensures Count(Insert(m, k, c), j, d) == if KeyOf(kind, clients[c := x], d) == Some(j) then 1 else 0
    {
      InsertCount(m, k, c, j, d);
      hide Count, Insert;
    }
  }

  lemma EraseExact(m: Multimap, clients: map<Cid, Client>, kind: Kind, c: Cid, x: Client, k: nat)
    requires Exact(m, clients, kind) && KeyOf(kind, clients, c) == Some(k) && Key(kind, x) == None
    ensures Exact(Erase(m, k, c), clients[c := x], kind)
    ensures Count(m, k, c) == 1
  {
    forall j: nat, d: Cid
      ensures Count(Erase(m, k, c), j, d) == if KeyOf(kind, clients[c := x], d) == Some(j) then 1 else 0
    {
      EraseCount(m, k, c, j, d);
      hide Count, Erase;
    }
  }

  lemma SameExact(m: Multimap, clients: map<Cid, Client>, kind: Kind, c: Cid, x: Client)
    requires Exact(m, clients, kind) && KeyOf(kind, clients, c) == Key(kind, x)
    ensures Exact(m, clients[c := x], kind)
  {
    forall j: nat, d: Cid ensures Count(m, j, d) == if KeyOf(kind, clients[c := x], d) == Some(j) then 1 else 0 {
    }
  }

  // What RemoveIPFromList does: it looks for the entry only if the destination is flagged valid.
  function RemoveDest(m: Multimap, x: Client, c: Cid): Multimap {
    if x.dest.valid then Erase(m, x.dest.code, c) else m
  }

  function InsertKey(m: Multimap, k: Option<nat>, c: Cid): Multimap {
    if k.Some? then Insert(m, k.value, c) else m
  }

  // AddClient indexes a destination whose 32-bit conversion is nonzero; RemoveIPFromList skips one that
  // is not flagged valid.
  predicate Removable(x: Client) {
    x.dest.code == 0 || x.dest.valid
  }

  // Changing a listed client's destination key leaves the index exact if and only if the old
  // destination is removable; otherwise a stale entry stays.
  lemma DestChangeIff(m: Multimap, clients: map<Cid, Client>, c: Cid, x: Client)
    requires Exact(m, clients, ByDest) && c in clients && clients[c].state == CS_LISTED
    requires Key(ByDest, x) != Key(ByDest, clients[c])
    ensures Exact(InsertKey(RemoveDest(m, clients[c], c), Key(ByDest, x), c), clients[c := x], ByDest)
      <==> Removable(clients[c])
  {
    var was := clients[c];
    var m' := RemoveDest(m, was, c);
    if Removable(was) {
      DestRemoved(m, clients, c, x);
    } else {
      var k := was.dest.code;
      var m'' := InsertKey(m', Key(ByDest, x), c);
      assert Count(m, k, c) == 1;
      assert Count(m'', k, c) == 1;
      assert KeyOf(ByDest, clients[c := x], c) != Some(k);
    }
  }

  lemma DestRemoved(m: Multimap, clients: map<Cid, Client>, c: Cid, x: Client)
    requires Exact(m, clients, ByDest) && c in clients && clients[c].state == CS_LISTED
    requires Removable(clients[c])
    ensures Exact(InsertKey(RemoveDest(m, clients[c], c), Key(ByDest, x), c), clients[c := x], ByDest)
  {
    var m' := RemoveDest(m, clients[c], c);
    var gone := clients[c].(state := CS_DYING);
    assert Exact(m', clients[c := gone], ByDest) by {
      if clients[c].dest.code != 0 {
        EraseExact(m, clients, ByDest, c, gone, clients[c].dest.code);
      } else {
        assert Count(m, 0, c) == 0;
        EraseAbsent(m, 0, c);
        SameExact(m, clients, ByDest, c, gone);
      }
    }
    hide RemoveDest, Exact;
    assert clients[c := gone][c := x] == clients[c := x];
    if Key(ByDest, x).Some? {
      InsertExact(m', clients[c := gone], ByDest, c, x, Key(ByDest, x).value);
    } else {
      SameExact(m', clients[c := gone], ByDest, c, x);
    }
  }

  function RemoveHash(m: Multimap, x: Client, c: Cid): Multimap {
    if x.hasValidHash then Erase(m, x.hash, c) else m
  }

  lemma HashRemoved(m: Multimap, clients: map<Cid, Client>, c: Cid, x: Client)
    requires Exact(m, clients, ByHash) && c in clients && clients[c].state == CS_LISTED
    requires clients[c].hasValidHash == (clients[c].hash != 0)
    ensures Exact(InsertKey(RemoveHash(m, clients[c], c), Key(ByHash, x), c), clients[c := x], ByHash)
  {
    var m' := RemoveHash(m, clients[c], c);
    var gone := clients[c].(state := CS_DYING);
    assert Exact(m', clients[c := gone], ByHash) by {
      if clients[c].hash != 0 {
        EraseExact(m, clients, ByHash, c, gone, clients[c].hash);
      } else {
        SameExact(m, clients, ByHash, c, gone);
      }
    }
    hide RemoveHash, Exact;
    assert clients[c := gone][c := x] == clients[c := x];
    if Key(ByHash, x).Some? {
      InsertExact(m', clients[c := gone], ByHash, c, x, Key(ByHash, x).value);
    } else {
      SameExact(m', clients[c := gone], ByHash, c, x);
    }
  }

  lemma IdRemoved(m: Multimap, clients: map<Cid, Client>, c: Cid, x: Client)
    requires Exact(m, clients, ById) && c in clients && clients[c].state == CS_LISTED
    ensures Count(m, clients[c].id, c) == 1
    ensures Exact(InsertKey(Erase(m, clients[c].id, c), Key(ById, x), c), clients[c := x], ById)
  {
    var m' := Erase(m, clients[c].id, c);
    var gone := clients[c].(state := CS_DYING);
    EraseExact(m, clients, ById, c, gone, clients[c].id);
    hide Erase, Exact;
    assert clients[c := gone][c := x] == clients[c := x];
    if Key(ById, x).Some? {
      InsertExact(m', clients[c := gone], ById, c, x, Key(ById, x).value);
    } else {
      SameExact(m', clients[c := gone], ById, c, x);
    }
  }

  // An exact index lists under a key exactly the clients that have it.
  lemma Members(m: Multimap, clients: map<Cid, Client>, kind: Kind, k: nat)
    requires Exact(m, clients, kind)
    ensures forall d: Cid :: d in Range(m, k) <==> KeyOf(kind, clients, d) == Some(k)
  {
    forall d: Cid ensures d in Range(m, k) <==> KeyOf(kind, clients, d) == Some(k) {
      assert d in Range(m, k) <==> Count(m, k, d) > 0;
    }
  }

  // ---- Looking for a matching client ----

  // How well a listed client d matches q: destination and port, destination and UDP destination, ID and
  // port, ID and UDP destination, user hash; 6 is no match.
  function Rank(q: Client, d: Client): nat {
    var reachable := q.dest.code != 0 || q.udp != 0;
    var samePort := q.port != 0 && d.port == q.port;
    var sameUdp := q.udp != 0 && d.udp == q.udp;
    if d.state != CS_LISTED then 6
    else if reachable && q.dest.code != 0 && d.dest.code == q.dest.code && samePort then 1
    else if reachable && q.dest.code != 0 && d.dest.code == q.dest.code && sameUdp then 2
    else if reachable && q.id != 0 && d.id == q.id && samePort then 3
    else if reachable && q.id != 0 && d.id == q.id && sameUdp then 4
    else if q.hash != 0 && d.hash == q.hash then 5
    else 6
  }

  // The same preference way by way. Without a destination and a UDP destination the ID does not count.
  datatype Way = DestAndPort | DestAndUdp | IdAndPort | IdAndUdp | Hash

  predicate Match(way: Way, q: Client, d: Client) {
    && d.state == CS_LISTED
    && match way
       case DestAndPort => q.dest.code != 0 && d.dest.code == q.dest.code && q.port != 0 && d.port == q.port
       case DestAndUdp => q.dest.code != 0 && d.dest.code == q.dest.code && q.udp != 0 && d.udp == q.udp
       case IdAndPort =>
         q.id != 0 && d.id == q.id && q.port != 0 && d.port == q.port && (q.dest.code != 0 || q.udp != 0)
       case IdAndUdp => q.id != 0 && d.id == q.id && q.udp != 0 && d.udp == q.udp
       case Hash => q.hash != 0 && d.hash == q.hash
  }

  ghost predicate Any(way: Way, q: Client, clients: map<Cid, Client>) {
    exists d :: d in clients && Match(way, q, clients[d])
  }

  ghost predicate Picks(way: Way, q: Client, clients: map<Cid, Client>, r: Option<Cid>) {
    r.Some? && r.value in clients && Match(way, q, clients[r.value])
  }

  // The first way that any listed client matches decides.
  ghost predicate Preferred(q: Client, clients: map<Cid, Client>, r: Option<Cid>) {
    if Any(DestAndPort, q, clients) then Picks(DestAndPort, q, clients, r)
    else if Any(DestAndUdp, q, clients) then Picks(DestAndUdp, q, clients, r)
    else if Any(IdAndPort, q, clients) then Picks(IdAndPort, q, clients, r)
    else if Any(IdAndUdp, q, clients) then Picks(IdAndUdp, q, clients, r)
    else if Any(Hash, q, clients) then Picks(Hash, q, clients, r)
    else r.None?
  }

  ghost predicate RankFacts(q: Client, d: Client) {
    && (Rank(q, d) <= 1 <==> Match(DestAndPort, q, d))
    && (Rank(q, d) <= 2 <==> Rank(q, d) <= 1 || Match(DestAndUdp, q, d))
    && (Rank(q, d) <= 3 <==> Rank(q, d) <= 2 || Match(IdAndPort, q, d))
    && (Rank(q, d) <= 4 <==> Rank(q, d) <= 3 || Match(IdAndUdp, q, d))
    && (Rank(q, d) <= 5 <==> Rank(q, d) <= 4 || Match(Hash, q, d))
    && 1 <= Rank(q, d) <= 6
  }

  // A best rank is a match in the first way that any client matches.
  lemma BestPreferred(q: Client, clients: map<Cid, Client>, r: Option<Cid>)
    requires r.Some? ==> r.value in clients && Rank(q, clients[r.value]) < 6
    requires r.Some? ==> forall d :: d in clients ==> Rank(q, clients[r.value]) <= Rank(q, clients[d])
    requires r.None? ==> forall d :: d in clients ==> Rank(q, clients[d]) == 6
    ensures Preferred(q, clients, r)
  {
    assert forall d: Client :: RankFacts(q, d);
    hide Rank, Match;
  }
}
