// The entries of the client list's indexes are references: when the setters of a client and its removal are
// safe, and when they free it.
module ListReferences {
  import opened Arithmetic
  import opened Options
  import opened RefCount
  import opened Temporaries
  import Index = ClientIndex

  type Kind = Index.Kind
  type Clients = map<Client, Index.Client>

  // The reference inside the entry of a client in each index.
  type Entries = map<(Kind, Client), Ref>

  // Every entry is a reference to its client, and no two entries are the same one.
  ghost predicate Entered(h: Heap, entries: Entries) {
    && (forall kind: Kind, c: Client :: (kind, c) in entries ==>
          entries[(kind, c)] in h.refs && h.refs[entries[(kind, c)]] == Some(c))
    && (forall k: Kind, j: Kind, c: Client :: (k, c) in entries && (j, c) in entries && k != j ==>
          entries[(k, c)] != entries[(j, c)])
  }

  // There is an entry for exactly the clients that the indexes must hold.
  ghost predicate Complete(clients: Clients, entries: Entries) {
    forall kind: Kind, c: Client :: (kind, c) in entries <==> Index.KeyOf(kind, clients, c).Some?
  }

  ghost predicate Tied(h: Heap, clients: Clients, entries: Entries) {
    Sound(h) && Entered(h, entries) && Complete(clients, entries)
  }

  // The reference in one entry of a client, if it has this entry.
  function Inside(entries: Entries, kind: Kind, c: Client): (r: set<Ref>)
    ensures |r| == if (kind, c) in entries then 1 else 0
  {
    if (kind, c) in entries then {entries[(kind, c)]} else {}
  }

  // The references to a client that are not index entries.
  function Outside(h: Heap, entries: Entries, c: Client): set<Ref> {
    Pointers(h.refs, c) - Inside(entries, Index.ById, c) - Inside(entries, Index.ByDest, c)
      - Inside(entries, Index.ByHash, c)
  }

  // How many indexes a client must be in.
  function Listings(x: Index.Client): nat {
    (if Index.Key(Index.ById, x).Some? then 1 else 0) +
    (if Index.Key(Index.ByDest, x).Some? then 1 else 0) +
    (if Index.Key(Index.ByHash, x).Some? then 1 else 0)
  }

  // ---- One entry in each exact index ----

  function Places(m: Index.Multimap, c: Client): set<(nat, nat)> {
    set k, i | k in m && 0 <= i < |m[k]| && m[k][i] == c :: (k, i)
  }

  lemma {:induction false} SoleIndex(s: seq<Client>, c: Client) returns (i: nat)
    requires multiset(s)[c] == 1
    ensures i < |s| && s[i] == c && forall j :: 0 <= j < |s| && s[j] == c ==> j == i
  {
    var n := |s| - 1;
    assert s == s[..n] + [s[n]];
    if s[n] == c {
      i := n;
      assert c !in s[..n];
      assert forall j :: 0 <= j < n ==> s[j] in s[..n];
    } else {
      i := SoleIndex(s[..n], c);
      assert forall j :: 0 <= j < n ==> s[j] == s[..n][j];
    }
  }

  lemma PlacesCount(m: Index.Multimap, c: Client)
    ensures forall p :: p in Places(m, c) ==> Index.Count(m, p.0, c) > 0
  {}

  // An exact index holds as many entries of a client as it has keys: one or none.
  lemma PlacesExact(m: Index.Multimap, clients: Clients, kind: Kind, c: Client)
    requires Index.Exact(m, clients, kind)
    ensures |Places(m, c)| == if Index.KeyOf(kind, clients, c).Some? then 1 else 0
  {
    PlacesCount(m, c);
    match Index.KeyOf(kind, clients, c)
    case None =>
      assert Places(m, c) == {};
    case Some(k) =>
      assert Index.Count(m, k, c) == 1;
      var i := SoleIndex(m[k], c);
      forall p | p in Places(m, c) ensures p == (k, i) {
        assert Index.Count(m, p.0, c) > 0;
      }
      assert Places(m, c) == {(k, i)};
  }

  // ---- m_linked of a listed client ----

  lemma EntryPoints(h: Heap, entries: Entries, kind: Kind, c: Client)
    requires Entered(h, entries)
    ensures Inside(entries, kind, c) <= Pointers(h.refs, c)
  {}

  lemma Parts(h: Heap, entries: Entries, c: Client)
    requires Entered(h, entries)
    ensures Pointers(h.refs, c) == Inside(entries, Index.ById, c) +
      (Inside(entries, Index.ByDest, c) + (Inside(entries, Index.ByHash, c) + Outside(h, entries, c)))
  {
    EntryPoints(h, entries, Index.ById, c);
    EntryPoints(h, entries, Index.ByDest, c);
    EntryPoints(h, entries, Index.ByHash, c);
    hide Entered, Inside, Pointers;
  }

  lemma Disjoint(h: Heap, entries: Entries, j: Kind, k: Kind, c: Client)
    requires Entered(h, entries) && j != k
    ensures Inside(entries, j, c) !! Inside(entries, k, c) && Inside(entries, j, c) !! Outside(h, entries, c)
  {}

  lemma Sizes(a: set<Ref>, b: set<Ref>, d: set<Ref>, o: set<Ref>)
    requires a !! b && a !! d && a !! o && b !! d && b !! o && d !! o
    ensures |a + (b + (d + o))| == |a| + |b| + |d| + |o|
  {}

  lemma CountSplit(h: Heap, entries: Entries, c: Client)
    requires Entered(h, entries)
    ensures Count(h.refs, c) == |Inside(entries, Index.ById, c)| + |Inside(entries, Index.ByDest, c)| +
      |Inside(entries, Index.ByHash, c)| + |Outside(h, entries, c)|
  {
    Parts(h, entries, c);
    Disjoint(h, entries, Index.ById, Index.ByDest, c);
    Disjoint(h, entries, Index.ByDest, Index.ByHash, c);
    Disjoint(h, entries, Index.ByHash, Index.ById, c);
    var a, b, d := Inside(entries, Index.ById, c), Inside(entries, Index.ByDest, c), Inside(entries, Index.ByHash, c);
    hide Inside, Outside, Entered;
    Sizes(a, b, d, Outside(h, entries, c));
  }

  // m_linked is the number of index entries and of references held elsewhere.
  lemma LinkedSplit(h: Heap, clients: Clients, entries: Entries, c: Client)
    requires Tied(h, clients, entries) && c in clients && c in h.linked
    ensures h.linked[c] == Listings(clients[c]) + |Outside(h, entries, c)|
  {
    CountSplit(h, entries, c);
  }

  // ---- What the list does to the references ----

  // The removal loops erase the client's entry, if it has one; an insertion makes a new one.
  function Erasure(entries: Entries, kind: Kind, c: Client): seq<Op> {
    if (kind, c) in entries then [Destructor(entries[(kind, c)])] else []
  }

  function Insertion(key: Option<nat>, o: Objects, c: Client): seq<Op> {
    if key.Some? then Inserting(o, c) else []
  }

  // The objects for an entry that is made. The temporary for the client's address and the copy inside the pair
  // that is handed to `insert` are two; the library may make more.
  ghost predicate Fresh(h: Heap, key: Option<nat>, o: Objects) {
    key.Some? ==> Unused(h, o) && o.temps != []
  }

  // No freed client is used, every count stays exact, and the client is still there for its caller.
  ghost predicate Lives(h: Heap, ops: seq<Op>, c: Client) {
    Run(h, ops).Some? && Sound(Run(h, ops).value) && c in Run(h, ops).value.linked
  }

  // Erasing a reference: the client stays unless this was the last one.
  lemma Erased(h: Heap, r: Ref, c: Client)
    requires Sound(h) && r in h.refs && h.refs[r] == Some(c)
    ensures var o := Run(h, [Destructor(r)]);
      o.Some? && Sound(o.value) && o.value.refs == h.refs - {r} &&
      Count(o.value.refs, c) == Count(h.refs, c) - 1 &&
      o.value.linked.Keys == if Count(h.refs, c) == 1 then h.linked.Keys - {c} else h.linked.Keys
  {
    var u := Unlink(h, r).value;
    assert u.refs == h.refs[r := None] && h.refs[r := None] - {r} == h.refs - {r} by {
      PointedLive(h, r);
    }
    UnlinkSound(h, r);
    hide Sound, Unlink, Count;
    PointedIn(h, r, c);
    DropSound(u, r);
    assert Run(h, [Destructor(r)]) == Destroy(h, r);
  }

  lemma PointedIn(h: Heap, r: Ref, c: Client)
    requires Sound(h) && r in h.refs && h.refs[r] == Some(c)
    ensures c in h.linked
  {}

  // ---- A setter moves a client's entry from one key to another ----

  function Move(entries: Entries, kind: Kind, key: Option<nat>, o: Objects, c: Client): seq<Op> {
    Erasure(entries, kind, c) + Insertion(key, o, c)
  }

  function Moved(entries: Entries, kind: Kind, key: Option<nat>, q: Ref, c: Client): Entries {
    if key.Some? then entries[(kind, c) := q] else entries - {(kind, c)}
  }

  function RefsMoved(
    h: Heap, entries: Entries, kind: Kind, key: Option<nat>, q: Ref, c: Client): map<Ref, Option<Client>>
  {
    var erased := if (kind, c) in entries then h.refs - {entries[(kind, c)]} else h.refs;
    if key.Some? then erased[q := Some(c)] else erased
  }

  // What a caller can test: a last reference is not given up, and the counter has room for the k temporaries and
  // the entry.
  predicate Movable(h: Heap, entries: Entries, kind: Kind, key: Option<nat>, k: nat, c: Client) {
    var erased := if (kind, c) in entries then 1 else 0;
    (erased == 1 ==> Count(h.refs, c) != 1) && (key.Some? ==> Count(h.refs, c) + k < UINT16_RANGE + erased)
  }

  lemma MoveIff(h: Heap, entries: Entries, kind: Kind, key: Option<nat>, o: Objects, c: Client)
    requires Sound(h) && Entered(h, entries) && c in h.linked && Fresh(h, key, o)
    ensures Lives(h, Move(entries, kind, key, o, c), c) <==> Movable(h, entries, kind, key, |o.temps|, c)
    ensures Movable(h, entries, kind, key, |o.temps|, c) ==>
      Run(h, Move(entries, kind, key, o, c)).value.refs == RefsMoved(h, entries, kind, key, o.entry, c)
    ensures Movable(h, entries, kind, key, |o.temps|, c) ==>
      Run(h, Move(entries, kind, key, o, c)).value.linked.Keys == h.linked.Keys
  {
    RunAppend(h, Erasure(entries, kind, c), Insertion(key, o, c));
    if (kind, c) in entries {
      var r := entries[(kind, c)];
      Erased(h, r, c);
      hide Sound, Count, Inserting;
      var h' := Run(h, [Destructor(r)]).value;
      MoveEnd(h', key, o, c);
    } else {
      MoveEnd(h, key, o, c);
    }
  }

  lemma MoveEnd(h: Heap, key: Option<nat>, o: Objects, c: Client)
    requires Sound(h) && Fresh(h, key, o)
    ensures Lives(h, Insertion(key, o, c), c) <==>
      c in h.linked && (key.Some? ==> Count(h.refs, c) + |o.temps| < UINT16_RANGE)
    ensures Lives(h, Insertion(key, o, c), c) ==>
      var h' := Run(h, Insertion(key, o, c)).value;
      h'.refs == (if key.Some? then h.refs[o.entry := Some(c)] else h.refs) && h'.linked.Keys == h.linked.Keys
  {
    hide Sound, Count;
    if key.Some? {
      if c in h.linked {
        InsertingIff(h, o, c);
      } else {
        assert Inserting(o, c)[0] == PtrCtor(o.temps[0], Some(c));
        assert !WellPosed(h, PtrCtor(o.temps[0], Some(c)));
      }
    }
  }

  lemma EnteredMoved(h: Heap, h': Heap, entries: Entries, kind: Kind, key: Option<nat>, q: Ref, c: Client)
    requires Entered(h, entries) && (key.Some? ==> q !in h.refs) && h'.refs == RefsMoved(h, entries, kind, key, q, c)
    ensures Entered(h', Moved(entries, kind, key, q, c))
  {}

  lemma OutsideMoved(
    h: Heap, h': Heap, entries: Entries, kind: Kind, key: Option<nat>, q: Ref, c: Client, d: Client)
    requires Entered(h, entries) && (key.Some? ==> q !in h.refs) && h'.refs == RefsMoved(h, entries, kind, key, q, c)
    ensures Outside(h', Moved(entries, kind, key, q, c), d) == Outside(h, entries, d)
  {
    PointersMoved(h, h', entries, kind, key, q, c, d);
    InsideMoved(entries, kind, key, q, c, d, Index.ById);
    InsideMoved(entries, kind, key, q, c, d, Index.ByDest);
    InsideMoved(entries, kind, key, q, c, d, Index.ByHash);
    if d == c {
      EntryPoints(h, entries, Index.ById, c);
      EntryPoints(h, entries, Index.ByDest, c);
      EntryPoints(h, entries, Index.ByHash, c);
      NotPointing(h, key, q, c);
      hide Entered, Pointers, RefsMoved, Moved, Inside, Index.KeyOf, Index.Key;
      var n: set<Ref> := if key.Some? then {q} else {};
      var ids, dests := Inside(entries, Index.ById, c), Inside(entries, Index.ByDest, c);
      var hashes := Inside(entries, Index.ByHash, c);
      match kind
      case ById => Exchange(Pointers(h.refs, c), n, ids, dests, hashes);
      case ByDest => Exchange(Pointers(h.refs, c), n, dests, ids, hashes);
      case ByHash => Exchange(Pointers(h.refs, c), n, hashes, ids, dests);
    }
  }

  lemma NotPointing(h: Heap, key: Option<nat>, q: Ref, c: Client)
    requires key.Some? ==> q !in h.refs
    ensures (if key.Some? then {q} else {}) !! Pointers(h.refs, c)
  {}

  lemma Exchange(p: set<Ref>, n: set<Ref>, a: set<Ref>, b: set<Ref>, d: set<Ref>)
    requires n !! p && b <= p && d <= p
    ensures var p' := p - a + n;
      p' - n - b - d == p - a - b - d && p' - b - n - d == p - b - a - d && p' - b - d - n == p - b - d - a
  {}

  lemma InsideMoved(entries: Entries, kind: Kind, key: Option<nat>, q: Ref, c: Client, d: Client, j: Kind)
    ensures Inside(Moved(entries, kind, key, q, c), j, d) ==
      if j != kind || d != c then Inside(entries, j, d) else if key.Some? then {q} else {}
  {}

  lemma PointersMoved(
    h: Heap, h': Heap, entries: Entries, kind: Kind, key: Option<nat>, q: Ref, c: Client, d: Client)
    requires Entered(h, entries) && (key.Some? ==> q !in h.refs) && h'.refs == RefsMoved(h, entries, kind, key, q, c)
    ensures Pointers(h'.refs, d) == if d != c then Pointers(h.refs, d) else
      Pointers(h.refs, c) - Inside(entries, kind, c) + if key.Some? then {q} else {}
  {}

  // A safe move leaves everything else as it was.
  ghost predicate Carried(
    h: Heap, h': Heap, entries: Entries, kind: Kind, key: Option<nat>, q: Ref, c: Client)
  {
    && Sound(h') && Entered(h', Moved(entries, kind, key, q, c))
    && h'.refs == RefsMoved(h, entries, kind, key, q, c) && h'.linked.Keys == h.linked.Keys
    && forall d: Client :: Outside(h', Moved(entries, kind, key, q, c), d) == Outside(h, entries, d)
  }

  lemma MoveLinks(h: Heap, entries: Entries, kind: Kind, key: Option<nat>, o: Objects, c: Client)
    requires Sound(h) && Entered(h, entries) && c in h.linked && Fresh(h, key, o)
    requires Movable(h, entries, kind, key, |o.temps|, c)
    ensures Run(h, Move(entries, kind, key, o, c)).Some?
    ensures Carried(h, Run(h, Move(entries, kind, key, o, c)).value, entries, kind, key, o.entry, c)
  {
    MoveIff(h, entries, kind, key, o, c);
    hide Sound, Entered, Outside, Movable, Moved, Move, Run, RefsMoved;
    var h' := Run(h, Move(entries, kind, key, o, c)).value;
    EnteredMoved(h, h', entries, kind, key, o.entry, c);
    forall d: Client ensures Outside(h', Moved(entries, kind, key, o.entry, c), d) == Outside(h, entries, d) {
      OutsideMoved(h, h', entries, kind, key, o.entry, c, d);
    }
  }

  lemma CompleteMoved(clients: Clients, entries: Entries, kind: Kind, q: Ref, c: Client, x: Index.Client)
    requires Complete(clients, entries) && c in clients
    requires forall j: Kind :: j != kind ==> Index.Key(j, x) == Index.Key(j, clients[c])
    ensures Complete(clients[c := x], Moved(entries, kind, Index.Key(kind, x), q, c))
  {}

  // What a setter does to one index: nothing if the key stays the same.
  function Refile(
    entries: Entries, kind: Kind, o: Objects, c: Client, was: Index.Client, x: Index.Client): (seq<Op>, Entries)
  {
    var key := Index.Key(kind, x);
    if key == Index.Key(kind, was) then ([], entries)
    else (Move(entries, kind, key, o, c), Moved(entries, kind, key, o.entry, c))
  }

  // The setter touches no freed client, every entry is still a reference, and the references held elsewhere are
  // left alone.
  ghost predicate Refiled(
    h: Heap, clients: Clients, entries: Entries, kind: Kind, o: Objects, c: Client, x: Index.Client)
    requires c in clients
  {
    var (ops, entries') := Refile(entries, kind, o, c, clients[c], x);
    Lives(h, ops, c) && Tied(Run(h, ops).value, clients[c := x], entries') &&
    forall d: Client :: Outside(Run(h, ops).value, entries', d) == Outside(h, entries, d)
  }

  lemma RefiledIff(h: Heap, clients: Clients, entries: Entries, kind: Kind, o: Objects, c: Client, x: Index.Client)
    requires Tied(h, clients, entries) && c in clients && c in h.linked && Unused(h, o) && o.temps != []
    requires forall j: Kind :: j != kind ==> Index.Key(j, x) == Index.Key(j, clients[c])
    ensures Refiled(h, clients, entries, kind, o, c, x) <==>
      Index.Key(kind, x) == Index.Key(kind, clients[c]) ||
      Movable(h, entries, kind, Index.Key(kind, x), |o.temps|, c)
  {
    var key := Index.Key(kind, x);
    if key == Index.Key(kind, clients[c]) {
      CompleteSame(clients, entries, c, x);
    } else {
      CompleteMoved(clients, entries, kind, o.entry, c, x);
      hide Sound, Entered, Complete, Outside;
      MoveIff(h, entries, kind, key, o, c);
      hide RefsMoved, Movable, Moved, Move, Run;
      if Movable(h, entries, kind, key, |o.temps|, c) {
        MoveLinks(h, entries, kind, key, o, c);
      }
    }
  }

  lemma CompleteSame(clients: Clients, entries: Entries, c: Client, x: Index.Client)
    requires Complete(clients, entries) && c in clients
    requires forall j: Kind :: Index.Key(j, x) == Index.Key(j, clients[c])
    ensures Complete(clients[c := x], entries)
  {}

  // ---- The three setters of a listed client ----

  lemma ListedLives(h: Heap, clients: Clients, entries: Entries, c: Client)
    requires Tied(h, clients, entries) && c in clients && clients[c].state == Index.CS_LISTED
    ensures (Index.ById, c) in entries && c in h.linked
  {
    assert Index.KeyOf(Index.ById, clients, c).Some?;
  }

  // SetUserIDHybrid, with a new ID: the ID entry must not be the only reference, and the counter needs room.
  lemma SetIdSafeIff(h: Heap, clients: Clients, entries: Entries, o: Objects, c: Client, id: nat)
    requires Tied(h, clients, entries) && Unused(h, o) && o.temps != []
    requires c in clients && clients[c].state == Index.CS_LISTED
    ensures Refiled(h, clients, entries, Index.ById, o, c, clients[c].(id := id)) <==>
      id == clients[c].id ||
      ((clients[c].dest.code != 0 || clients[c].hash != 0 || Outside(h, entries, c) != {}) &&
       Count(h.refs, c) + |o.temps| <= UINT16_RANGE)
  {
    ListedLives(h, clients, entries, c);
    LinkedSplit(h, clients, entries, c);
    RefiledIff(h, clients, entries, Index.ById, o, c, clients[c].(id := id));
    hide Refiled, Entered, Complete, Outside, Unused;
  }

  // SetTCPDest, from a destination that can be removed: safe unless the counter lacks room for a new entry.
  lemma SetDestSafeIff(h: Heap, clients: Clients, entries: Entries, o: Objects, c: Client, dest: Index.Address)
    requires Tied(h, clients, entries) && Unused(h, o) && o.temps != []
    requires c in clients && clients[c].state == Index.CS_LISTED && Index.Removable(clients[c])
    ensures Refiled(h, clients, entries, Index.ByDest, o, c, clients[c].(dest := dest)) <==>
      dest.code == clients[c].dest.code || dest.code == 0 ||
      Count(h.refs, c) + |o.temps| < UINT16_RANGE + if clients[c].dest.code != 0 then 1 else 0
  {
    ListedLives(h, clients, entries, c);
    LinkedSplit(h, clients, entries, c);
    RefiledIff(h, clients, entries, Index.ByDest, o, c, clients[c].(dest := dest));
    hide Refiled, Entered, Outside, Unused;
  }

  lemma SetHashSafeIff(h: Heap, clients: Clients, entries: Entries, o: Objects, c: Client, hash: nat)
    requires Tied(h, clients, entries) && Unused(h, o) && o.temps != []
    requires c in clients && clients[c].state == Index.CS_LISTED
    ensures Refiled(h, clients, entries, Index.ByHash, o, c, clients[c].(hash := hash, hasValidHash := hash != 0)) <==>
      hash == clients[c].hash || hash == 0 ||
      Count(h.refs, c) + |o.temps| < UINT16_RANGE + if clients[c].hash != 0 then 1 else 0
  {
    ListedLives(h, clients, entries, c);
    LinkedSplit(h, clients, entries, c);
    RefiledIff(h, clients, entries, Index.ByHash, o, c, clients[c].(hash := hash, hasValidHash := hash != 0));
    hide Refiled, Entered, Outside, Unused;
  }

  // ---- Removal ----

  function RemoveAll(entries: Entries, c: Client): seq<Op> {
    Erasure(entries, Index.ById, c) + (Erasure(entries, Index.ByDest, c) + Erasure(entries, Index.ByHash, c))
  }

  function Removed(entries: Entries, c: Client): Entries {
    entries - {(Index.ById, c)} - {(Index.ByDest, c)} - {(Index.ByHash, c)}
  }

  // One entry goes; a reference held elsewhere keeps the client.
  ghost predicate Dropped(h: Heap, entries: Entries, kind: Kind, c: Client) {
    Lives(h, Erasure(entries, kind, c), c) &&
    var h' := Run(h, Erasure(entries, kind, c)).value;
    Entered(h', entries - {(kind, c)}) && h'.refs.Keys <= h.refs.Keys && h'.linked.Keys == h.linked.Keys &&
    forall d: Client :: Outside(h', entries - {(kind, c)}, d) == Outside(h, entries, d)
  }

  lemma DropEntry(h: Heap, entries: Entries, kind: Kind, c: Client)
    requires Sound(h) && Entered(h, entries) && c in h.linked && Outside(h, entries, c) != {}
    ensures Dropped(h, entries, kind, c)
  {
    var o := Objects([], 0);
    MoveIsErasure(entries, kind, o, c);
    NotTheLast(h, entries, kind, o, c);
    hide Sound, Entered, Outside, Movable, Move, Run;
    MoveLinks(h, entries, kind, None, o, c);
    hide Erasure;
  }

  lemma MoveIsErasure(entries: Entries, kind: Kind, o: Objects, c: Client)
    ensures Move(entries, kind, None, o, c) == Erasure(entries, kind, c)
  {}

  lemma NotTheLast(h: Heap, entries: Entries, kind: Kind, o: Objects, c: Client)
    requires Entered(h, entries) && Outside(h, entries, c) != {}
    ensures Movable(h, entries, kind, None, |o.temps|, c)
  {
    CountSplit(h, entries, c);
    hide Entered, Outside;
  }

  // RemoveClient, while somebody holds on to the client.
  lemma RemoveAllKeeps(h: Heap, entries: Entries, c: Client)
    requires Sound(h) && Entered(h, entries) && c in h.linked && Outside(h, entries, c) != {}
    ensures Lives(h, RemoveAll(entries, c), c)
    ensures var h' := Run(h, RemoveAll(entries, c)).value;
      Entered(h', Removed(entries, c)) && h'.refs.Keys <= h.refs.Keys && h'.linked.Keys == h.linked.Keys &&
      forall d: Client :: Outside(h', Removed(entries, c), d) == Outside(h, entries, d)
  {
    hide Sound, Entered, Outside, Run;
    DropEntry(h, entries, Index.ById, c);
    var h1, e1 := Run(h, Erasure(entries, Index.ById, c)).value, entries - {(Index.ById, c)};
    DropEntry(h1, e1, Index.ByDest, c);
    var h2, e2 := Run(h1, Erasure(e1, Index.ByDest, c)).value, e1 - {(Index.ByDest, c)};
    DropEntry(h2, e2, Index.ByHash, c);
    RunAppend(h1, Erasure(entries, Index.ByDest, c), Erasure(entries, Index.ByHash, c));
    RunAppend(
      h, Erasure(entries, Index.ById, c), Erasure(entries, Index.ByDest, c) + Erasure(entries, Index.ByHash, c));
  }

  // Safe_Delete takes a reference of its own before it touches the list.
  lemma Locked(h: Heap, entries: Entries, lock: Ref, c: Client)
    requires Sound(h) && Entered(h, entries) && c in h.linked && lock !in h.refs && Count(h.refs, c) < UINT16_RANGE - 1
    ensures Lives(h, [PtrCtor(lock, Some(c))], c)
    ensures var h' := Run(h, [PtrCtor(lock, Some(c))]).value;
      Entered(h', entries) && Outside(h', entries, c) == Outside(h, entries, c) + {lock} &&
      |Outside(h', entries, c)| == |Outside(h, entries, c)| + 1 &&
      (forall d: Client :: d != c ==> Outside(h', entries, d) == Outside(h, entries, d)) &&
      h'.refs == h.refs[lock := Some(c)] && h'.linked.Keys == h.linked.Keys
  {
    var h' := Construct(h, lock, Some(c)).value;
    ConstructSound(h, lock, Some(c));
    RunOne(h, PtrCtor(lock, Some(c)));
    assert h'.refs == h.refs[lock := Some(c)] && h'.linked.Keys == h.linked.Keys;
    hide *;
    EnteredMore(h, h', entries, lock, c);
    OutsideMore(h, h', entries, lock, c);
    LivesIs(h, [PtrCtor(lock, Some(c))], c);
    RoomIs(h, c);
    StepIs(h, lock, c);
  }

  lemma LivesIs(h: Heap, ops: seq<Op>, c: Client)
    ensures Lives(h, ops, c) <==> Run(h, ops).Some? && Sound(Run(h, ops).value) && c in Run(h, ops).value.linked
  {
    hide Run, Sound;
  }

  lemma RoomIs(h: Heap, c: Client)
    ensures Room(h, Some(c)) <==> Count(h.refs, c) < UINT16_RANGE - 1
  {}

  lemma StepIs(h: Heap, q: Ref, c: Client)
    requires q !in h.refs && c in h.linked
    ensures WellPosed(h, PtrCtor(q, Some(c))) && Step(h, PtrCtor(q, Some(c))) == Construct(h, q, Some(c))
  {
    hide Construct;
  }

  lemma OutsideMore(h: Heap, h': Heap, entries: Entries, q: Ref, c: Client)
    requires Entered(h, entries) && q !in h.refs && h'.refs == h.refs[q := Some(c)]
    ensures Outside(h', entries, c) == Outside(h, entries, c) + {q}
    ensures |Outside(h', entries, c)| == |Outside(h, entries, c)| + 1
    ensures forall d: Client :: d != c ==> Outside(h', entries, d) == Outside(h, entries, d)
  {
    PointersMore(h.refs, h'.refs, q, c);
    EntryPoints(h, entries, Index.ById, c);
    EntryPoints(h, entries, Index.ByDest, c);
    EntryPoints(h, entries, Index.ByHash, c);
    hide Inside, Entered, Pointers;
    OneMoreOutside(Pointers(h.refs, c), q, Inside(entries, Index.ById, c), Inside(entries, Index.ByDest, c),
                   Inside(entries, Index.ByHash, c));
  }

  lemma EnteredMore(h: Heap, h': Heap, entries: Entries, q: Ref, c: Client)
    requires Entered(h, entries) && q !in h.refs && h'.refs == h.refs[q := Some(c)]
    ensures Entered(h', entries)
  {}

  lemma OneMoreOutside(p: set<Ref>, q: Ref, a: set<Ref>, b: set<Ref>, d: set<Ref>)
    requires q !in p && a <= p && b <= p && d <= p
    ensures p + {q} - a - b - d == p - a - b - d + {q} && |p + {q} - a - b - d| == |p - a - b - d| + 1
  {}

  lemma PointersMore(refs: map<Ref, Option<Client>>, refs': map<Ref, Option<Client>>, q: Ref, c: Client)
    requires q !in refs && refs' == refs[q := Some(c)]
    ensures Pointers(refs', c) == Pointers(refs, c) + {q} && q !in Pointers(refs, c)
    ensures forall d: Client :: d != c ==> Pointers(refs', d) == Pointers(refs, d)
  {}

  // When the lock goes, it is the last reference unless somebody else holds one.
  lemma Unlocked(h: Heap, entries: Entries, lock: Ref, c: Client)
    requires Sound(h) && Entered(h, entries) && lock in Outside(h, entries, c)
    requires forall kind: Kind :: (kind, c) !in entries
    ensures var o := Run(h, [Destructor(lock)]);
      o.Some? && Sound(o.value) && Entered(o.value, entries) && o.value.refs == h.refs - {lock} &&
      o.value.linked.Keys == if |Outside(h, entries, c)| == 1 then h.linked.Keys - {c} else h.linked.Keys
  {
    CountSplit(h, entries, c);
    NotAnEntry(h, entries, lock, c);
    Erased(h, lock, c);
    hide Sound, Run, Outside, Count, Inside;
  }

  lemma NotAnEntry(h: Heap, entries: Entries, lock: Ref, c: Client)
    requires Entered(h, entries) && lock in Outside(h, entries, c) && forall kind: Kind :: (kind, c) !in entries
    ensures lock in h.refs && h.refs[lock] == Some(c)
    ensures forall h': Heap :: h'.refs == h.refs - {lock} ==> Entered(h', entries)
  {}

  lemma OutsideLess(h: Heap, h': Heap, entries: Entries, lock: Ref, d: Client)
    requires h'.refs == h.refs - {lock}
    ensures Outside(h', entries, d) == Outside(h, entries, d) - {lock}
  {
    assert Pointers(h'.refs, d) == Pointers(h.refs, d) - {lock};
    hide Pointers, Inside;
  }

  // The references of Safe_Delete, as far as the list is concerned.
  function Deleting(entries: Entries, lock: Ref, c: Client): seq<Op> {
    [PtrCtor(lock, Some(c))] + RemoveAll(entries, c) + [Destructor(lock)]
  }

  // The client's entries have gone and nothing else, and with them the client unless a reference is held
  // elsewhere.
  ghost predicate Deleted(h: Heap, h': Heap, entries: Entries, c: Client) {
    && Sound(h') && Entered(h', Removed(entries, c)) && h'.refs.Keys <= h.refs.Keys
    && h'.linked.Keys == (if Outside(h, entries, c) == {} then h.linked.Keys - {c} else h.linked.Keys)
    && forall d: Client :: Outside(h', Removed(entries, c), d) == Outside(h, entries, d)
  }

  lemma DeleteLinks(h: Heap, entries: Entries, lock: Ref, c: Client)
    requires Sound(h) && Entered(h, entries) && c in h.linked
    requires lock !in h.refs && Count(h.refs, c) < UINT16_RANGE - 1
    ensures Lives(h, [PtrCtor(lock, Some(c))] + RemoveAll(entries, c), c)
    ensures Run(h, Deleting(entries, lock, c)).Some? && Deleted(h, Run(h, Deleting(entries, lock, c)).value, entries, c)
  {
    var ops := RemoveAll(entries, c);
    NoneLeft(entries, c);
    hide Sound, Entered, Outside, Count, Run, RemoveAll, Removed;
    Locked(h, entries, lock, c);
    var h1 := Run(h, [PtrCtor(lock, Some(c))]).value;
    RemoveAllKeeps(h1, entries, c);
    RunAppend(h, [PtrCtor(lock, Some(c))], ops);
    var h2 := Run(h1, ops).value;
    Unlocked(h2, Removed(entries, c), lock, c);
    RunAppend(h, [PtrCtor(lock, Some(c))] + ops, [Destructor(lock)]);
    var h3 := Run(h2, [Destructor(lock)]).value;
    forall d: Client ensures Outside(h3, Removed(entries, c), d) == Outside(h, entries, d) {
      OutsideLess(h2, h3, Removed(entries, c), lock, d);
      NotOutside(h, entries, lock, d);
    }
  }

  lemma NotOutside(h: Heap, entries: Entries, q: Ref, d: Client)
    requires q !in h.refs
    ensures q !in Outside(h, entries, d)
  {}

  lemma NoneLeft(entries: Entries, c: Client)
    ensures forall kind: Kind :: (kind, c) !in Removed(entries, c)
  {
    forall kind: Kind ensures (kind, c) !in Removed(entries, c) {
      assert kind.ById? || kind.ByDest? || kind.ByHash?;
    }
  }

  // Safe_Delete of a client is safe unless the counter is full: the client is there until the method ends, and
  // is freed then if and only if nobody outside the list holds a reference.
  lemma DeleteSafe(h: Heap, clients: Clients, entries: Entries, lock: Ref, c: Client)
    requires Tied(h, clients, entries) && c in clients && c in h.linked
    requires lock !in h.refs && Count(h.refs, c) < UINT16_RANGE - 1
    ensures Lives(h, [PtrCtor(lock, Some(c))] + RemoveAll(entries, c), c)
    ensures var o := Run(h, Deleting(entries, lock, c));
      o.Some? && Tied(o.value, clients[c := clients[c].(state := Index.CS_DYING)], Removed(entries, c)) &&
      (c in o.value.linked <==> Outside(h, entries, c) != {})
  {
    CompleteRemoved(clients, entries, c);
    hide Sound, Entered, Complete, Outside, Count, Run, RemoveAll;
    DeleteLinks(h, entries, lock, c);
  }

  lemma CompleteRemoved(clients: Clients, entries: Entries, c: Client)
    requires Complete(clients, entries) && c in clients
    ensures Complete(clients[c := clients[c].(state := Index.CS_DYING)], Removed(entries, c))
  {}
}
