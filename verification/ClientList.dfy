// CClientList and the client setters that keep its three indexes up to date.
module ClientList {
  import opened Options
  import opened ClientIndex

  // The valid-hash flag says exactly that the hash is not empty.
  ghost predicate Flagged(clients: map<Cid, Client>) {
    forall c: Cid :: c in clients ==> clients[c].hasValidHash == (clients[c].hash != 0)
  }

  ghost predicate AllRemovable(clients: map<Cid, Client>) {
    forall c: Cid :: c in clients ==> Removable(clients[c])
  }

  function Listed(clients: map<Cid, Client>): set<Cid> {
    set c | c in clients && clients[c].state == CS_LISTED
  }

  function Dead(x: Client): Client {
    x.(state := CS_DYING)
  }

  // One operation on the list or on a client.
  datatype Op =
    | Create(c: Cid)
    | Add(c: Cid)
    | SetID(c: Cid, id: nat)
    | SetDest(c: Cid, dest: Address)
    | SetHash(c: Cid, hash: nat)
    | SetPort(c: Cid, port: nat)
    | SetUdp(c: Cid, udp: nat)
    | Delete(c: Cid)
    | DeleteEverything

  const NULL_ADDRESS := Address(0, false)
  const NEW_CLIENT := Client(CS_NEW, 0, NULL_ADDRESS, 0, false, 0, 0)

  // What an operation does to the clients' own fields; the indexes are not mentioned.
  function After(clients: map<Cid, Client>, op: Op): map<Cid, Client> {
    match op
    case Create(c) => if c in clients then clients else clients[c := NEW_CLIENT]
    case DeleteEverything =>
      map c | c in clients :: if clients[c].state == CS_LISTED then Dead(clients[c]) else clients[c]
    case _ => if op.c in clients then clients[op.c := Changed(clients[op.c], op)] else clients
  }

  function Changed(x: Client, op: Op): Client {
    match op
    case Add(_) => if x.state == CS_NEW then x.(state := CS_LISTED) else x
    case SetID(_, id) => x.(id := id)
    case SetDest(_, dest) => x.(dest := dest)
    case SetHash(_, hash) => x.(hash := hash, hasValidHash := hash != 0)
    case SetPort(_, port) => x.(port := port)
    case SetUdp(_, udp) => x.(udp := udp)
    case Delete(_) => Dead(x)
    case _ => x
  }

  function AfterAll(clients: map<Cid, Client>, ops: seq<Op>): map<Cid, Client> {
    if ops == [] then clients else After(AfterAll(clients, ops[..|ops| - 1]), ops[|ops| - 1])
  }

  // Addresses read from packets: a nonzero conversion is always flagged valid.
  predicate Proper(op: Op) {
    op.SetDest? ==> op.dest.code == 0 || op.dest.valid
  }

  lemma AfterRemovable(clients: map<Cid, Client>, op: Op)
    requires AllRemovable(clients) && Proper(op)
    ensures AllRemovable(After(clients, op))
  {}

  lemma FirstEntry(r: seq<Cid>, i: nat, c: Cid)
    requires i < |r| && c !in r[..i] && r[i] == c
    ensures Without(r, c) == r[..i] + r[i + 1..]
    decreases i
  {
    if i > 0 {
      assert r[0] == r[..i][0];
      assert r[1..][..i - 1] == r[..i][1..];
      FirstEntry(r[1..], i - 1, c);
      assert r[..i] + r[i + 1..] == [r[0]] + (r[1..][..i - 1] + r[1..][i..]);
    }
  }

  // The loop that all three removals share: erase the first entry for the client in its range.
  method EraseFirst(m: Multimap, k: nat, c: Cid) returns (m': Multimap, found: bool)
    requires Canonical(m)
    ensures m' == Erase(m, k, c)
    ensures found <==> Count(m, k, c) > 0
  {
    var range := Range(m, k);
    var i := 0;
    while i < |range| && range[i] != c
      invariant 0 <= i <= |range|
      invariant c !in range[..i]
    {
      i := i + 1;
    }
    found := i < |range|;
    if found {
      FirstEntry(range, i, c);
      m' := Replace(m, k, range[..i] + range[i + 1..]);
    } else {
      assert range[..i] == range;
      EraseAbsent(m, k, c);
      m' := m;
    }
  }

  // The first client of a range with the given user port.
  method ScanPort(clients: map<Cid, Client>, range: seq<Cid>, port: nat) returns (r: Option<Cid>)
    requires forall d :: d in range ==> d in clients
    ensures r.Some? ==> r.value in range && clients[r.value].port == port
    ensures r.None? ==> forall d :: d in range ==> clients[d].port != port
  {
    var i := 0;
    while i < |range|
      invariant 0 <= i <= |range|
      invariant forall j :: 0 <= j < i ==> clients[range[j]].port != port
    {
      if clients[range[i]].port == port {
        return Some(range[i]);
      }
      i := i + 1;
    }
    r := None;
  }

  // The first client of a range with the given UDP destination.
  method ScanUdp(clients: map<Cid, Client>, range: seq<Cid>, udp: nat) returns (r: Option<Cid>)
    requires forall d :: d in range ==> d in clients
    ensures r.Some? ==> r.value in range && clients[r.value].udp == udp
    ensures r.None? ==> forall d :: d in range ==> clients[d].udp != udp
  {
    var i := 0;
    while i < |range|
      invariant 0 <= i <= |range|
      invariant forall j :: 0 <= j < i ==> clients[range[j]].udp != udp
    {
      if clients[range[i]].udp == udp {
        return Some(range[i]);
      }
      i := i + 1;
    }
    r := None;
  }

  predicate Same(value: nat, other: nat) {
    value != 0 && other == value
  }

  // A client of the range with the port; failing that, one with the UDP destination.
  method ScanRange(clients: map<Cid, Client>, range: seq<Cid>, port: nat, udp: nat) returns (r: Option<Cid>)
    requires forall d :: d in range ==> d in clients
    ensures r.Some? ==> r.value in range
    ensures r.Some? ==> (Same(port, clients[r.value].port) ||
      (Same(udp, clients[r.value].udp) && forall d :: d in range ==> !Same(port, clients[d].port)))
    ensures r.None? ==> forall d :: d in range ==> !Same(port, clients[d].port) && !Same(udp, clients[d].udp)
  {
    r := None;
    if port != 0 {
      r := ScanPort(clients, range, port);
      if r.Some? {
        return;
      }
    }
    if udp != 0 {
      r := ScanUdp(clients, range, udp);
    }
  }

  class CClientList {
    var clients: map<Cid, Client>
    var m_clientList: Multimap
    var m_ipList: Multimap
    var m_hashList: Multimap

    ghost predicate Valid()
      reads this
    {
      && Exact(m_clientList, clients, ById)
      && Exact(m_ipList, clients, ByDest)
      && Exact(m_hashList, clients, ByHash)
      && Flagged(clients)
    }

    constructor ()
      ensures Valid() && clients == map[]
    {
      clients, m_clientList, m_ipList, m_hashList := map[], map[], map[], map[];
    }

    method AddClient(c: Cid)
      requires Valid() && c in clients
      modifies this
      ensures Valid()
      ensures clients == if old(clients[c].state) == CS_NEW then old(clients)[c := old(clients[c]).(state := CS_LISTED)]
                         else old(clients)
    {
      var toadd := clients[c];
      if toadd.state == CS_NEW {
        ghost var before := clients;
        var x := toadd.(state := CS_LISTED);
        InsertExact(m_clientList, clients, ById, c, x, x.id);
        DestAdded(m_ipList, clients, c, x);
        HashAdded(m_hashList, clients, c, x);
        hide Exact, Insert;
        clients := clients[c := x];
        m_clientList := Insert(m_clientList, toadd.id, c);
        if toadd.dest.code != 0 {
          m_ipList := Insert(m_ipList, toadd.dest.code, c);
        }
        if toadd.hasValidHash {
          m_hashList := Insert(m_hashList, toadd.hash, c);
        }
      }
    }

    lemma DestAdded(m: Multimap, cs: map<Cid, Client>, c: Cid, x: Client)
      requires Exact(m, cs, ByDest) && c in cs && cs[c].state == CS_NEW && x == cs[c].(state := CS_LISTED)
      ensures Exact(if x.dest.code != 0 then Insert(m, x.dest.code, c) else m, cs[c := x], ByDest)
    {
      if x.dest.code != 0 {
        InsertExact(m, cs, ByDest, c, x, x.dest.code);
      } else {
        SameExact(m, cs, ByDest, c, x);
      }
    }

    lemma HashAdded(m: Multimap, cs: map<Cid, Client>, c: Cid, x: Client)
      requires Exact(m, cs, ByHash) && c in cs && cs[c].state == CS_NEW && x == cs[c].(state := CS_LISTED)
      requires x.hasValidHash == (x.hash != 0)
      ensures Exact(if x.hasValidHash then Insert(m, x.hash, c) else m, cs[c := x], ByHash)
    {
      if x.hasValidHash {
        InsertExact(m, cs, ByHash, c, x, x.hash);
      } else {
        SameExact(m, cs, ByHash, c, x);
      }
    }

    method RemoveIDFromList(c: Cid) returns (result: bool)
      requires c in clients && Canonical(m_clientList)
      modifies `m_clientList
      ensures m_clientList == Erase(old(m_clientList), clients[c].id, c)
      ensures result <==> Count(old(m_clientList), clients[c].id, c) > 0
    {
      m_clientList, result := EraseFirst(m_clientList, clients[c].id, c);
    }

    method RemoveIPFromList(c: Cid)
      requires c in clients && Canonical(m_ipList)
      modifies `m_ipList
      ensures m_ipList == RemoveDest(old(m_ipList), clients[c], c)
    {
      if !clients[c].dest.valid {
        return;
      }
      var found;
      m_ipList, found := EraseFirst(m_ipList, clients[c].dest.code, c);
    }

    method RemoveHashFromList(c: Cid)
      requires c in clients && Canonical(m_hashList)
      modifies `m_hashList
      ensures m_hashList == RemoveHash(old(m_hashList), clients[c], c)
    {
      if !clients[c].hasValidHash {
        return;
      }
      var found;
      m_hashList, found := EraseFirst(m_hashList, clients[c].hash, c);
    }

    method UpdateClientID(c: Cid, newID: nat)
      requires c in clients && Exact(m_clientList, clients, ById)
      modifies `m_clientList
      ensures Exact(m_clientList, clients[c := clients[c].(id := newID)], ById)
    {
      if clients[c].state != CS_LISTED || clients[c].id == newID {
        SameExact(m_clientList, clients, ById, c, clients[c].(id := newID));
        return;
      }
      IdRemoved(m_clientList, clients, c, clients[c].(id := newID));
      var found := RemoveIDFromList(c);
      m_clientList := Insert(m_clientList, newID, c);
    }

    // The destination index follows the new address, unless the old one cannot be removed.
    method UpdateClientIP(c: Cid, newIP: nat)
      requires c in clients && Exact(m_ipList, clients, ByDest)
      modifies `m_ipList
      ensures forall valid :: (Exact(m_ipList, clients[c := clients[c].(dest := Address(newIP, valid))], ByDest)
        <==> Removable(clients[c]) || clients[c].state != CS_LISTED || clients[c].dest.code == newIP)
    {
      ghost var m, cs := m_ipList, clients;
      if clients[c].state != CS_LISTED || clients[c].dest.code == newIP {
        forall valid: bool ensures Exact(m, cs[c := cs[c].(dest := Address(newIP, valid))], ByDest) {
          SameExact(m, cs, ByDest, c, cs[c].(dest := Address(newIP, valid)));
        }
        return;
      }
      forall valid: bool
        ensures Removable(cs[c]) <==>
          Exact(InsertKey(RemoveDest(m, cs[c], c), if newIP != 0 then Some(newIP) else None, c),
                cs[c := cs[c].(dest := Address(newIP, valid))], ByDest)
      {
        DestChangeIff(m, cs, c, cs[c].(dest := Address(newIP, valid)));
      }
      hide Exact;
      RemoveIPFromList(c);
      if newIP != 0 {
        m_ipList := Insert(m_ipList, newIP, c);
      }
    }

    method UpdateClientHash(c: Cid, newHash: nat)
      requires c in clients && Exact(m_hashList, clients, ByHash) && Flagged(clients)
      modifies `m_hashList
      ensures Exact(m_hashList, clients[c := clients[c].(hash := newHash, hasValidHash := newHash != 0)], ByHash)
    {
      ghost var x := clients[c].(hash := newHash, hasValidHash := newHash != 0);
      if clients[c].state != CS_LISTED || clients[c].hash == newHash {
        SameExact(m_hashList, clients, ByHash, c, x);
        return;
      }
      HashRemoved(m_hashList, clients, c, x);
      RemoveHashFromList(c);
      if newHash != 0 {
        m_hashList := Insert(m_hashList, newHash, c);
      }
    }

    // ---- The client's setters ----

    method SetUserIDHybrid(c: Cid, id: nat)
      requires Valid() && c in clients
      modifies this
      ensures Valid() && clients == old(clients)[c := old(clients[c]).(id := id)]
    {
      Unaffected(c, clients[c].(id := id), ByDest, m_ipList);
      Unaffected(c, clients[c].(id := id), ByHash, m_hashList);
      UpdateClientID(c, id);
      hide Exact;
      clients := clients[c := clients[c].(id := id)];
    }

    lemma Unaffected(c: Cid, x: Client, kind: Kind, m: Multimap)
      requires c in clients && Exact(m, clients, kind) && Key(kind, x) == Key(kind, clients[c])
      ensures Exact(m, clients[c := x], kind)
    {
      SameExact(m, clients, kind, c, x);
    }

    // Exact for every address if and only if the old destination could be removed.
    method SetTCPDest(c: Cid, dest: Address)
      requires Valid() && c in clients
      modifies this
      ensures clients == old(clients)[c := old(clients[c]).(dest := dest)]
      ensures Valid() <==>
        Removable(old(clients[c])) || old(clients[c].state) != CS_LISTED || old(clients[c].dest.code) == dest.code
    {
      var x := clients[c].(dest := dest);
      Unaffected(c, x, ById, m_clientList);
      Unaffected(c, x, ByHash, m_hashList);
      UpdateClientIP(c, dest.code);
      assert x == clients[c].(dest := Address(dest.code, dest.valid));
      hide Exact;
      clients := clients[c := x];
    }

    method ValidateHash(c: Cid)
      requires c in clients
      modifies `clients
      ensures clients == old(clients)[c := old(clients[c]).(hasValidHash := old(clients[c].hash) != 0)]
    {
      clients := clients[c := clients[c].(hasValidHash := clients[c].hash != 0)];
    }

    lemma HashedClient(cs: map<Cid, Client>, c: Cid, hash: nat)
      requires c in cs && Flagged(cs)
      ensures var y := cs[c := cs[c].(hash := hash)];
        y[c := y[c].(hasValidHash := y[c].hash != 0)] == cs[c := cs[c].(hash := hash, hasValidHash := hash != 0)]
      ensures Flagged(cs[c := cs[c].(hash := hash, hasValidHash := hash != 0)])
    {}

    method SetUserHash(c: Cid, hash: nat)
      requires Valid() && c in clients
      modifies this
      ensures Valid() && clients == old(clients)[c := old(clients[c]).(hash := hash, hasValidHash := hash != 0)]
    {
      ghost var x := clients[c].(hash := hash, hasValidHash := hash != 0);
      Unaffected(c, x, ById, m_clientList);
      Unaffected(c, x, ByDest, m_ipList);
      HashedClient(clients, c, hash);
      UpdateClientHash(c, hash);
      hide Exact, Flagged;
      clients := clients[c := clients[c].(hash := hash)];
      ValidateHash(c);
    }

    // ---- Removal ----

    method RemoveClient(c: Cid)
      requires c in clients && Canonical(m_clientList) && Canonical(m_ipList) && Canonical(m_hashList)
      modifies `m_clientList, `m_ipList, `m_hashList
      ensures m_clientList == Erase(old(m_clientList), clients[c].id, c)
      ensures Count(old(m_clientList), clients[c].id, c) > 0 ==>
        m_ipList == RemoveDest(old(m_ipList), clients[c], c) &&
        m_hashList == RemoveHash(old(m_hashList), clients[c], c)
      ensures Count(old(m_clientList), clients[c].id, c) == 0 ==>
        m_ipList == old(m_ipList) && m_hashList == old(m_hashList)
    {
      var found := RemoveIDFromList(c);
      if found {
        RemoveIPFromList(c);
        RemoveHashFromList(c);
      }
    }

    // The part of CUpDownClient::Safe_Delete that concerns the list.
    method SafeDelete(c: Cid)
      requires c in clients && Exact(m_clientList, clients, ById) && Flagged(clients)
      requires Canonical(m_ipList) && Canonical(m_hashList)
      modifies this
      ensures clients == old(clients)[c := Dead(old(clients[c]))]
      ensures Exact(m_clientList, clients, ById) && Flagged(clients)
      ensures old(Exact(m_hashList, clients, ByHash)) ==> Exact(m_hashList, clients, ByHash)
      ensures old(Exact(m_ipList, clients, ByDest)) ==>
        (Exact(m_ipList, clients, ByDest) <==> Removable(clients[c]) || old(clients[c].state) != CS_LISTED)
      ensures old(m_ipList) == map[] ==> m_ipList == map[]
      ensures old(m_hashList) == map[] ==> m_hashList == map[]
    {
      ghost var cs, ids, ips, hashes := clients, m_clientList, m_ipList, m_hashList;
      if clients[c].state == CS_DYING {
        assert clients == clients[c := Dead(clients[c])];
        return;
      }
      clients := clients[c := Dead(clients[c])];
      assert Count(ids, clients[c].id, c) > 0 <==> cs[c].state == CS_LISTED;
      RemoveClient(c);
      if cs[c].state == CS_LISTED {
        Delisted(ids, ips, hashes, cs, c);
      } else {
        NeverListed(ids, ips, hashes, cs, c);
      }
    }

    // ---- Search ----

    method FindByAddress(q: Client) returns (r: Option<Cid>)
      requires Valid()
      ensures r.Some? ==> r.value in clients && Rank(q, clients[r.value]) <= 4
      ensures r.Some? ==> forall d :: d in clients ==> Rank(q, clients[r.value]) <= Rank(q, clients[d])
      ensures r.None? ==> forall d :: d in clients ==> Rank(q, clients[d]) > 4
      ensures r.Some? ==> Preferred(q, clients, r)
    {
      if q.dest.code != 0 || q.udp != 0 {
        var i := 0;
        while i < 2
          invariant 0 <= i <= 2
          invariant forall d :: d in clients ==> Rank(q, clients[d]) > 2 * i
        {
          var value := if i == 0 then q.dest.code else q.id;
          if value != 0 {
            var range := Range(if i == 0 then m_ipList else m_clientList, value);
            if i == 0 {
              Members(m_ipList, clients, ByDest, value);
            } else {
              Members(m_clientList, clients, ById, value);
            }
            hide Exact;
            r := ScanRange(clients, range, q.port, q.udp);
            if r.Some? {
              BestPreferred(q, clients, r);
              return;
            }
          }
          i := i + 1;
        }
      }
      r := None;
    }

    // The result is a client of the best rank there is; there is none exactly when no listed client
    // matches at all.
    method FindMatchingClient(c: Cid) returns (r: Option<Cid>)
      requires Valid() && c in clients
      ensures r.Some? ==> r.value in clients && Rank(clients[c], clients[r.value]) < 6
      ensures r.Some? ==> forall d :: d in clients ==>
        Rank(clients[c], clients[r.value]) <= Rank(clients[c], clients[d])
      ensures r.None? ==> forall d :: d in clients ==> Rank(clients[c], clients[d]) == 6
      ensures Preferred(clients[c], clients, r)
      ensures r.None? && clients[c].hasValidHash ==>
        forall d :: d in clients && clients[d].state == CS_LISTED ==> clients[d].hash != clients[c].hash
    {
      var q := clients[c];
      r := FindByAddress(q);
      if r.Some? {
        return;
      }
      if q.hasValidHash {
        var range := Range(m_hashList, q.hash);
        Members(m_hashList, clients, ByHash, q.hash);
        if range != [] {
          assert range[0] in range;
          BestPreferred(q, clients, Some(range[0]));
          return Some(range[0]);
        }
        assert forall d: Cid :: KeyOf(ByHash, clients, d) != Some(q.hash);
        assert forall d: Cid :: d in clients && clients[d].state == CS_LISTED ==>
          KeyOf(ByHash, clients, d) == Key(ByHash, clients[d]);
      }
      r := None;
      BestPreferred(q, clients, r);
    }

    // ---- Deleting everything ----

    method DeleteAll()
      requires Valid()
      modifies this
      ensures Valid() && m_clientList == map[]
      ensures clients.Keys == old(clients).Keys
      ensures forall c :: c in clients ==>
        clients[c] == if old(clients)[c].state == CS_LISTED then Dead(old(clients)[c]) else old(clients)[c]
    {
      m_ipList := map[];
      m_hashList := map[];
      while m_clientList != map[]
        invariant Exact(m_clientList, clients, ById) && Flagged(clients)
        invariant m_ipList == map[] && m_hashList == map[]
        invariant clients.Keys == old(clients).Keys
        invariant forall c :: c in clients ==>
          clients[c] == old(clients)[c] || (old(clients)[c].state == CS_LISTED && clients[c] == Dead(old(clients)[c]))
        decreases |Listed(clients)|
      {
        var key :| key in m_clientList;
        var c := m_clientList[key][0];
        assert Count(m_clientList, key, c) > 0;
        assert c in Listed(clients);
        ghost var before := Listed(clients);
        SafeDelete(c);
        assert Listed(clients) == before - {c};
      }
      EmptyLists(clients);
    }

    // What the indexes hold of a client, field by field.
    lemma Indexed(c: Cid, k: nat)
      requires Valid() && c in clients
      ensures var x := clients[c];
        && Count(m_clientList, k, c) == (if x.state == CS_LISTED && x.id == k then 1 else 0)
        && Count(m_ipList, k, c) == (if x.state == CS_LISTED && x.dest.code != 0 && x.dest.code == k then 1 else 0)
        && Count(m_hashList, k, c) == (if x.state == CS_LISTED && x.hash != 0 && x.hash == k then 1 else 0)
    {
      hide Count;
    }

    // ---- Whole runs ----

    method CreateClient(c: Cid)
      requires Valid() && c !in clients
      modifies this
      ensures Valid() && clients == old(clients)[c := NEW_CLIENT]
    {
      SameExact(m_clientList, clients, ById, c, NEW_CLIENT);
      SameExact(m_ipList, clients, ByDest, c, NEW_CLIENT);
      SameExact(m_hashList, clients, ByHash, c, NEW_CLIENT);
      hide Exact;
      clients := clients[c := NEW_CLIENT];
    }

    // SetUserPort and SetUDPDest: not indexed.
    method SetUnindexed(c: Cid, port: nat, udp: nat)
      requires Valid() && c in clients
      modifies this
      ensures Valid() && clients == old(clients)[c := old(clients[c]).(port := port, udp := udp)]
    {
      var x := clients[c].(port := port, udp := udp);
      Unaffected(c, x, ById, m_clientList);
      Unaffected(c, x, ByDest, m_ipList);
      Unaffected(c, x, ByHash, m_hashList);
      hide Exact;
      clients := clients[c := x];
    }

    method Do(op: Op)
      requires Valid() && AllRemovable(clients) && Proper(op)
      modifies this
      ensures Valid() && AllRemovable(clients) && clients == After(old(clients), op)
    {
      AfterRemovable(clients, op);
      hide Exact, AllRemovable, Flagged;
      match op
      case Create(c) =>
        if c !in clients {
          CreateClient(c);
        }
      case DeleteEverything =>
        DeleteAll();
        assert clients == After(old(clients), op);
      case _ =>
        if op.c in clients {
          DoOne(op);
        }
    }

    method DoOne(op: Op)
      requires Valid() && AllRemovable(clients) && !op.Create? && !op.DeleteEverything? && op.c in clients
      modifies this
      ensures Valid() && clients == old(clients)[op.c := Changed(old(clients[op.c]), op)]
    {
      assert Removable(clients[op.c]);
      hide Exact, AllRemovable;
      match op
      case Add(c) =>
        assert clients == clients[c := clients[c]];
        AddClient(c);
      case SetID(c, id) => SetUserIDHybrid(c, id);
      case SetDest(c, dest) => SetTCPDest(c, dest);
      case SetHash(c, hash) => SetUserHash(c, hash);
      case SetPort(c, port) => SetUnindexed(c, port, clients[c].udp);
      case SetUdp(c, udp) => SetUnindexed(c, clients[c].port, udp);
      case Delete(c) => Delete(c);
    }

    method Delete(c: Cid)
      requires Valid() && c in clients && Removable(clients[c])
      modifies this
      ensures Valid() && clients == old(clients)[c := Dead(old(clients[c]))]
    {
      SafeDelete(c);
    }

    // Over every run the three indexes are exact for the fields the clients end up with.
    method Run(ops: seq<Op>)
      requires Valid() && AllRemovable(clients)
      requires forall op :: op in ops ==> Proper(op)
      modifies this
      ensures Valid() && clients == AfterAll(old(clients), ops)
    {
      var i := 0;
      while i < |ops|
        invariant 0 <= i <= |ops|
        invariant Valid() && AllRemovable(clients)
        invariant clients == AfterAll(old(clients), ops[..i])
      {
        hide Exact, AllRemovable, Flagged, After;
        Do(ops[i]);
        i := i + 1;
        assert ops[..i][..|ops[..i]| - 1] == ops[..i - 1];
      }
      assert ops[..i] == ops;
    }
  }

  lemma Delisted(ids: Multimap, ips: Multimap, hashes: Multimap, cs: map<Cid, Client>, c: Cid)
    requires Exact(ids, cs, ById) && Flagged(cs) && c in cs && cs[c].state == CS_LISTED
    ensures Exact(Erase(ids, cs[c].id, c), cs[c := Dead(cs[c])], ById)
    ensures Exact(hashes, cs, ByHash) ==> Exact(RemoveHash(hashes, cs[c], c), cs[c := Dead(cs[c])], ByHash)
    ensures Exact(ips, cs, ByDest) ==>
      (Exact(RemoveDest(ips, cs[c], c), cs[c := Dead(cs[c])], ByDest) <==> Removable(cs[c]))
  {
    var x := Dead(cs[c]);
    IdRemoved(ids, cs, c, x);
    if Exact(hashes, cs, ByHash) {
      HashRemoved(hashes, cs, c, x);
    }
    if Exact(ips, cs, ByDest) {
      if Key(ByDest, cs[c]) == None {
        DestRemoved(ips, cs, c, x);
      } else {
        DestChangeIff(ips, cs, c, x);
      }
    }
  }

  lemma NeverListed(ids: Multimap, ips: Multimap, hashes: Multimap, cs: map<Cid, Client>, c: Cid)
    requires Exact(ids, cs, ById) && c in cs && cs[c].state == CS_NEW
    ensures Erase(ids, cs[c].id, c) == ids && Exact(ids, cs[c := Dead(cs[c])], ById)
    ensures Exact(hashes, cs, ByHash) ==> Exact(hashes, cs[c := Dead(cs[c])], ByHash)
    ensures Exact(ips, cs, ByDest) ==> Exact(ips, cs[c := Dead(cs[c])], ByDest)
  {
    EraseAbsent(ids, cs[c].id, c);
    SameExact(ids, cs, ById, c, Dead(cs[c]));
    if Exact(hashes, cs, ByHash) {
      SameExact(hashes, cs, ByHash, c, Dead(cs[c]));
    }
    if Exact(ips, cs, ByDest) {
      SameExact(ips, cs, ByDest, c, Dead(cs[c]));
    }
  }

  // With an empty ID index nobody is listed, so the other two indexes must be empty as well.
  lemma EmptyLists(cs: map<Cid, Client>)
    requires Exact(map[], cs, ById)
    ensures forall c :: c in cs ==> cs[c].state != CS_LISTED
    ensures Exact(map[], cs, ByDest) && Exact(map[], cs, ByHash)
  {
    forall c: Cid | c in cs ensures cs[c].state != CS_LISTED {
      assert Count(map[], cs[c].id, c) == 0;
    }
  }
}
