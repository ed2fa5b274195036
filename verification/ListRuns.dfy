// Whole runs over the client list, its entries and the references to the clients.
module ListRuns {
  import opened Arithmetic
  import opened Options
  import opened RefCount
  import opened Temporaries
  import opened ListReferences
  import Index = ClientIndex
  import List = ClientList

  datatype Links = Links(h: Heap, entries: Entries)

  // ---- What the operations do to the references ----

  function MoveStep(l: Links, kind: Kind, key: Option<nat>, o: Objects, c: Client): Option<Links> {
    match Run(l.h, Move(l.entries, kind, key, o, c))
    case None => None
    case Some(h') => Some(Links(h', Moved(l.entries, kind, key, o.entry, c)))
  }

  // AddClient: one entry for each key of x.
  function AddStep(l: Links, c: Client, x: Index.Client, objs: (Objects, Objects, Objects)): Option<Links> {
    match MoveStep(l, Index.ById, Index.Key(Index.ById, x), objs.0, c)
    case None => None
    case Some(l1) =>
      match MoveStep(l1, Index.ByDest, Index.Key(Index.ByDest, x), objs.1, c)
      case None => None
      case Some(l2) => MoveStep(l2, Index.ByHash, Index.Key(Index.ByHash, x), objs.2, c)
  }

  // A setter: the fields go from those of `was` to those of x.
  function FileStep(l: Links, kind: Kind, c: Client, was: Index.Client, x: Index.Client, o: Objects): Option<Links> {
    if Index.Key(kind, x) == Index.Key(kind, was) then Some(l) else MoveStep(l, kind, Index.Key(kind, x), o, c)
  }

  // Safe_Delete marks the client and removes it from the list.
  function DeleteStep(l: Links, c: Client, lock: Ref): Option<Links> {
    match Run(l.h.(dying := l.h.dying + {c}), Deleting(l.entries, lock, c))
    case None => None
    case Some(h') => Some(Links(h', Removed(l.entries, c)))
  }

  // m_ipList.clear() and m_hashList.clear().
  function ClearStep(l: Links, kind: Kind, cs: seq<Client>): Option<Links>
    decreases |cs|
  {
    if cs == [] then Some(l)
    else match MoveStep(l, kind, None, Objects([], 0), cs[0])
      case None => None
      case Some(l') => ClearStep(l', kind, cs[1..])
  }

  function DeleteEach(l: Links, cs: seq<Client>, lock: Ref): Option<Links>
    decreases |cs|
  {
    if cs == [] then Some(l)
    else match DeleteStep(l, cs[0], lock)
      case None => None
      case Some(l') => DeleteEach(l', cs[1..], lock)
  }

  // DeleteAll, with the listed clients in any order.
  function DeleteAllStep(l: Links, cs: seq<Client>, lock: Ref): Option<Links> {
    match ClearStep(l, Index.ByDest, cs)
    case None => None
    case Some(l1) =>
      match ClearStep(l1, Index.ByHash, cs)
      case None => None
      case Some(l2) => DeleteEach(l2, cs, lock)
  }

  // ---- They keep the links ----

  ghost predicate Linked(l: Links) {
    Sound(l.h) && Entered(l.h, l.entries)
  }

  // From l to l' the references held elsewhere have not changed.
  ghost predicate Kept(l: Links, l': Links) {
    Linked(l') && forall d: Client :: Outside(l'.h, l'.entries, d) == Outside(l.h, l.entries, d)
  }

  lemma MoveKeeps(l: Links, kind: Kind, key: Option<nat>, o: Objects, c: Client)
    requires Linked(l) && c in l.h.linked && Fresh(l.h, key, o) && Movable(l.h, l.entries, kind, key, |o.temps|, c)
    ensures var m := MoveStep(l, kind, key, o, c);
      m.Some? && Kept(l, m.value) && m.value.entries == Moved(l.entries, kind, key, o.entry, c) &&
      m.value.h.linked.Keys == l.h.linked.Keys &&
      m.value.h.refs.Keys <= l.h.refs.Keys + (if key.Some? then {o.entry} else {})
  {
    hide Sound, Entered, Outside, Run, Move, Moved, Movable, Fresh;
    MoveLinks(l.h, l.entries, kind, key, o, c);
  }

  // How many entries a client has.
  function Filed(entries: Entries, c: Client): nat {
    |Inside(entries, Index.ById, c)| + |Inside(entries, Index.ByDest, c)| + |Inside(entries, Index.ByHash, c)|
  }

  lemma CountIs(l: Links, c: Client)
    requires Linked(l)
    ensures Count(l.h.refs, c) == Filed(l.entries, c) + |Outside(l.h, l.entries, c)|
  {
    CountSplit(l.h, l.entries, c);
  }

  lemma CountKept(l: Links, l': Links, c: Client)
    requires Linked(l) && Kept(l, l')
    ensures Count(l'.h.refs, c) + Filed(l.entries, c) == Count(l.h.refs, c) + Filed(l'.entries, c)
  {
    CountIs(l, c);
    CountIs(l', c);
    hide Filed, Outside, Count;
  }

  // ---- Adding ----

  // The objects of the three insertions are different ones.
  predicate Separate(objs: (Objects, Objects, Objects)) {
    && objs.0.entry != objs.1.entry && objs.0.entry !in objs.1.temps
    && objs.0.entry != objs.2.entry && objs.0.entry !in objs.2.temps
    && objs.1.entry != objs.2.entry && objs.1.entry !in objs.2.temps
  }

  ghost predicate AddReady(l: Links, c: Client, x: Index.Client, objs: (Objects, Objects, Objects)) {
    var n, second, third := Count(l.h.refs, c), Index.Key(Index.ByDest, x), Index.Key(Index.ByHash, x);
    && c in l.h.linked && Separate(objs)
    && Fresh(l.h, Some(x.id), objs.0) && Fresh(l.h, second, objs.1) && Fresh(l.h, third, objs.2)
    && n + |objs.0.temps| < UINT16_RANGE
    && (second.Some? ==> n + 1 + |objs.1.temps| < UINT16_RANGE)
    && (third.Some? ==> n + (if second.Some? then 2 else 1) + |objs.2.temps| < UINT16_RANGE)
  }

  lemma FreshLater(h: Heap, h': Heap, key: Option<nat>, o: Objects, used: set<Ref>)
    requires Fresh(h, key, o) && h'.refs.Keys <= h.refs.Keys + used
    requires o.entry !in used && forall t :: t in o.temps ==> t !in used
    ensures Fresh(h', key, o)
  {}

  lemma NoEntries(clients: Clients, entries: Entries, c: Client)
    requires Complete(clients, entries) && c in clients && clients[c].state == Index.CS_NEW
    ensures forall kind: Kind :: (kind, c) !in entries
  {}

  lemma AddComplete(clients: Clients, entries: Entries, c: Client, x: Index.Client, q: Ref, r: Ref, t: Ref)
    requires Complete(clients, entries) && c in clients && clients[c].state == Index.CS_NEW
    ensures var e1 := Moved(entries, Index.ById, Index.Key(Index.ById, x), q, c);
      var e2 := Moved(e1, Index.ByDest, Index.Key(Index.ByDest, x), r, c);
      Complete(clients[c := x], Moved(e2, Index.ByHash, Index.Key(Index.ByHash, x), t, c))
  {
    var e1 := Moved(entries, Index.ById, Index.Key(Index.ById, x), q, c);
    var e2 := Moved(e1, Index.ByDest, Index.Key(Index.ByDest, x), r, c);
    var e3 := Moved(e2, Index.ByHash, Index.Key(Index.ByHash, x), t, c);
    forall kind: Kind, d: Client ensures (kind, d) in e3 <==> Index.KeyOf(kind, clients[c := x], d).Some? {
      assert d == c ==> kind.ById? || kind.ByDest? || kind.ByHash?;
      assert d != c ==> ((kind, d) in e3 <==> (kind, d) in entries);
    }
  }

  lemma AddKeeps(l: Links, clients: Clients, c: Client, x: Index.Client, objs: (Objects, Objects, Objects))
    requires Linked(l) && Complete(clients, l.entries) && c in clients && clients[c].state == Index.CS_NEW
    requires x == clients[c].(state := Index.CS_LISTED) && AddReady(l, c, x, objs)
    ensures var m := AddStep(l, c, x, objs);
      m.Some? && Kept(l, m.value) && Complete(clients[c := x], m.value.entries)
  {
    NoEntries(clients, l.entries, c);
    AddComplete(clients, l.entries, c, x, objs.0.entry, objs.1.entry, objs.2.entry);
    var second, third := Index.Key(Index.ByDest, x), Index.Key(Index.ByHash, x);
    hide Fresh, Count, Complete, Linked, Kept, MoveStep, Moved;
    EntryMade(l, Index.ById, Some(x.id), objs.0, c);
    var l1 := MoveStep(l, Index.ById, Some(x.id), objs.0, c).value;
    FreshLater(l.h, l1.h, second, objs.1, {objs.0.entry});
    FreshLater(l.h, l1.h, third, objs.2, {objs.0.entry});
    EntryMade(l1, Index.ByDest, second, objs.1, c);
    var l2 := MoveStep(l1, Index.ByDest, second, objs.1, c).value;
    FreshLater(l1.h, l2.h, third, objs.2, {objs.1.entry});
    EntryMade(l2, Index.ByHash, third, objs.2, c);
    KeptTrans(l, l1, l2);
    KeptTrans(l, l2, AddStep(l, c, x, objs).value);
  }

  // One of the insertions.
  lemma EntryMade(l: Links, kind: Kind, key: Option<nat>, o: Objects, c: Client)
    requires Linked(l) && c in l.h.linked && Fresh(l.h, key, o) && (kind, c) !in l.entries
    requires key.Some? ==> Count(l.h.refs, c) + |o.temps| < UINT16_RANGE
    ensures var m := MoveStep(l, kind, key, o, c);
      m.Some? && Kept(l, m.value) && Linked(m.value) && m.value.entries == Moved(l.entries, kind, key, o.entry, c) &&
      m.value.h.linked.Keys == l.h.linked.Keys && m.value.h.refs.Keys <= l.h.refs.Keys + {o.entry} &&
      Count(m.value.h.refs, c) == Count(l.h.refs, c) + (if key.Some? then 1 else 0) &&
      forall j: Kind :: j != kind ==> ((j, c) in m.value.entries <==> (j, c) in l.entries)
  {
    FiledMoved(l.entries, kind, key, o.entry, c);
    MovableIs(l, kind, key, o, c);
    hide *;
    MoveKeeps(l, kind, key, o, c);
    var l' := MoveStep(l, kind, key, o, c).value;
    KeptLinked(l, l');
    CountKept(l, l', c);
  }

  lemma MovableIs(l: Links, kind: Kind, key: Option<nat>, o: Objects, c: Client)
    requires (kind, c) !in l.entries && (key.Some? ==> Count(l.h.refs, c) + |o.temps| < UINT16_RANGE)
    ensures Movable(l.h, l.entries, kind, key, |o.temps|, c)
  {}

  lemma FiledMoved(entries: Entries, kind: Kind, key: Option<nat>, q: Ref, c: Client)
    requires (kind, c) !in entries
    ensures Filed(Moved(entries, kind, key, q, c), c) == Filed(entries, c) + if key.Some? then 1 else 0
    ensures forall j: Kind :: j != kind ==> ((j, c) in Moved(entries, kind, key, q, c) <==> (j, c) in entries)
  {}

  lemma KeptLinked(l: Links, l': Links)
    requires Kept(l, l')
    ensures Linked(l')
  {}

  lemma KeptTrans(l: Links, m: Links, n: Links)
    requires Kept(l, m) && Kept(m, n)
    ensures Kept(l, n)
  {
    hide Linked, Outside;
  }

  // ---- Setters ----

  ghost predicate FileReady(l: Links, kind: Kind, c: Client, was: Index.Client, x: Index.Client, o: Objects) {
    var key := Index.Key(kind, x);
    key == Index.Key(kind, was) ||
    (c in l.h.linked && Fresh(l.h, key, o) && Movable(l.h, l.entries, kind, key, |o.temps|, c))
  }

  lemma FileKeeps(l: Links, clients: Clients, kind: Kind, c: Client, x: Index.Client, o: Objects)
    requires Linked(l) && Complete(clients, l.entries) && c in clients && FileReady(l, kind, c, clients[c], x, o)
    requires forall j: Kind :: j != kind ==> Index.Key(j, x) == Index.Key(j, clients[c])
    ensures var m := FileStep(l, kind, c, clients[c], x, o);
      m.Some? && Kept(l, m.value) && Complete(clients[c := x], m.value.entries)
  {
    var key := Index.Key(kind, x);
    if key == Index.Key(kind, clients[c]) {
      CompleteSame(clients, l.entries, c, x);
    } else {
      CompleteMoved(clients, l.entries, kind, o.entry, c, x);
      hide Linked, Complete, Movable, Fresh, MoveStep, Moved, Outside;
      MoveKeeps(l, kind, key, o, c);
    }
  }

  // ---- Deleting ----

  lemma MarkKeeps(l: Links, c: Client)
    requires Linked(l)
    ensures Kept(l, Links(l.h.(dying := l.h.dying + {c}), l.entries))
  {}

  lemma DeleteKeeps(l: Links, c: Client, lock: Ref)
    requires Linked(l) && c in l.h.linked && lock !in l.h.refs && Count(l.h.refs, c) < UINT16_RANGE - 1
    ensures var m := DeleteStep(l, c, lock);
      m.Some? && Kept(l, m.value) && m.value.entries == Removed(l.entries, c) &&
      m.value.h.refs.Keys <= l.h.refs.Keys && l.h.linked.Keys - {c} <= m.value.h.linked.Keys
  {
    MarkKeeps(l, c);
    var marked := Links(l.h.(dying := l.h.dying + {c}), l.entries);
    hide Sound, Entered, Outside, Run, Deleting, Removed, Count;
    DeleteLinks(marked.h, l.entries, lock, c);
  }

  lemma FiledRemoved(entries: Entries, c: Client, d: Client)
    requires d != c
    ensures Filed(Removed(entries, c), d) == Filed(entries, d)
  {}

  lemma {:induction false} DeleteEachKeeps(l: Links, cs: seq<Client>, lock: Ref)
    requires Linked(l) && lock !in l.h.refs
    requires forall i, j :: 0 <= i < j < |cs| ==> cs[i] != cs[j]
    requires forall c :: c in cs ==> c in l.h.linked && Count(l.h.refs, c) < UINT16_RANGE - 1
    ensures var m := DeleteEach(l, cs, lock);
      m.Some? && Kept(l, m.value) &&
      forall kind: Kind, d: Client :: (kind, d) in m.value.entries <==> (kind, d) in l.entries && d !in cs
    decreases |cs|
  {
    if cs != [] {
      DeleteKeeps(l, cs[0], lock);
      var l' := DeleteStep(l, cs[0], lock).value;
      EntriesRemoved(l.entries, cs[0]);
      hide DeleteStep, Linked, Count, Outside, Removed;
      forall c | c in cs[1..] ensures c in l'.h.linked && Count(l'.h.refs, c) < UINT16_RANGE - 1 {
        FiledRemoved(l.entries, cs[0], c);
        CountKept(l, l', c);
      }
      KeptLinked(l, l');
      DeleteEachKeeps(l', cs[1..], lock);
      KeptTrans(l, l', DeleteEach(l', cs[1..], lock).value);
    }
  }

  lemma EntriesRemoved(entries: Entries, c: Client)
    ensures forall kind: Kind, d: Client :: (kind, d) in Removed(entries, c) <==> (kind, d) in entries && d != c
  {
    forall kind: Kind, d: Client ensures (kind, d) in Removed(entries, c) <==> (kind, d) in entries && d != c {
      assert kind.ById? || kind.ByDest? || kind.ByHash?;
    }
  }

  lemma ClearOne(l: Links, kind: Kind, c: Client)
    requires Linked(l) && c in l.h.linked && !kind.ById? && (Index.ById, c) in l.entries
    ensures var m := MoveStep(l, kind, None, Objects([], 0), c);
      m.Some? && Kept(l, m.value) && m.value.entries == l.entries - {(kind, c)} &&
      m.value.h.linked.Keys == l.h.linked.Keys && m.value.h.refs.Keys <= l.h.refs.Keys &&
      forall d: Client :: Count(m.value.h.refs, d) <= Count(l.h.refs, d)
  {
    NotItsLast(l, kind, c);
    MovedNone(l.entries, kind, c);
    hide *;
    MoveKeeps(l, kind, None, Objects([], 0), c);
    var l' := MoveStep(l, kind, None, Objects([], 0), c).value;
    forall d: Client ensures Count(l'.h.refs, d) <= Count(l.h.refs, d) {
      CountKept(l, l', d);
      FewerFiled(l.entries, kind, c, d);
    }
  }

  // A client with an ID entry has a reference beside its entry of another kind.
  lemma NotItsLast(l: Links, kind: Kind, c: Client)
    requires Linked(l) && !kind.ById? && (Index.ById, c) in l.entries
    ensures Movable(l.h, l.entries, kind, None, |Objects([], 0).temps|, c) && Fresh(l.h, None, Objects([], 0))
  {
    CountIs(l, c);
    hide Linked, Outside, Count;
  }

  lemma MovedNone(entries: Entries, kind: Kind, c: Client)
    ensures Moved(entries, kind, None, 0, c) == entries - {(kind, c)}
  {}

  lemma FewerFiled(entries: Entries, kind: Kind, c: Client, d: Client)
    ensures Filed(entries - {(kind, c)}, d) <= Filed(entries, d)
  {}

  // Clearing an index other than the ID index frees nobody.
  lemma {:induction false} ClearKeeps(l: Links, kind: Kind, cs: seq<Client>)
    requires Linked(l) && !kind.ById?
    requires forall c :: c in cs ==> c in l.h.linked && (Index.ById, c) in l.entries
    ensures var m := ClearStep(l, kind, cs);
      m.Some? && Kept(l, m.value) && m.value.h.linked.Keys == l.h.linked.Keys && m.value.h.refs.Keys <= l.h.refs.Keys &&
      (forall d: Client :: Count(m.value.h.refs, d) <= Count(l.h.refs, d)) &&
      forall j: Kind, d: Client :: (j, d) in m.value.entries <==> (j, d) in l.entries && !(j == kind && d in cs)
    decreases |cs|
  {
    if cs != [] {
      ClearOne(l, kind, cs[0]);
      var l' := MoveStep(l, kind, None, Objects([], 0), cs[0]).value;
      hide MoveStep, Linked, Count, Outside;
      KeptLinked(l, l');
      ClearKeeps(l', kind, cs[1..]);
      KeptTrans(l, l', ClearStep(l', kind, cs[1..]).value);
    }
  }

  // The listed clients, each once.
  ghost predicate Enumerates(cs: seq<Client>, clients: Clients) {
    && (forall i, j :: 0 <= i < j < |cs| ==> cs[i] != cs[j])
    && (forall c: Client :: c in cs <==> c in clients && clients[c].state == Index.CS_LISTED)
  }

  ghost predicate DeleteAllReady(l: Links, clients: Clients, cs: seq<Client>, lock: Ref) {
    && Enumerates(cs, clients) && lock !in l.h.refs
    && forall c :: c in cs ==> Count(l.h.refs, c) < UINT16_RANGE - 1
  }

  lemma AllListed(l: Links, clients: Clients, cs: seq<Client>)
    requires Linked(l) && Complete(clients, l.entries) && Enumerates(cs, clients)
    ensures forall c :: c in cs ==> c in l.h.linked && (Index.ById, c) in l.entries
    ensures forall kind: Kind, d: Client :: (kind, d) in l.entries ==> d in cs
  {
    forall c | c in cs ensures c in l.h.linked && (Index.ById, c) in l.entries {
      ListedLives(l.h, clients, l.entries, c);
    }
  }

  lemma DeleteAllKeeps(l: Links, clients: Clients, cs: seq<Client>, lock: Ref)
    requires Linked(l) && Complete(clients, l.entries) && DeleteAllReady(l, clients, cs, lock)
    ensures var m := DeleteAllStep(l, cs, lock);
      m.Some? && Kept(l, m.value) && forall kind: Kind, d: Client :: (kind, d) !in m.value.entries
  {
    AllListed(l, clients, cs);
    hide Linked, Complete, Outside, Count, ClearStep, DeleteEach;
    ClearKeeps(l, Index.ByDest, cs);
    var l1 := ClearStep(l, Index.ByDest, cs).value;
    KeptLinked(l, l1);
    ClearKeeps(l1, Index.ByHash, cs);
    var l2 := ClearStep(l1, Index.ByHash, cs).value;
    KeptLinked(l1, l2);
    KeptTrans(l, l1, l2);
    DeleteEachKeeps(l2, cs, lock);
    var l3 := DeleteEach(l2, cs, lock).value;
    KeptTrans(l, l2, l3);
  }

  // ---- References held elsewhere ----

  // Code outside the list works on references of its own. (CClientRef::Safe_Delete drops its reference here, and
  // the client's Safe_Delete is an operation of the list.)
  predicate Apart(entries: Entries, op: Op) {
    match op
    case NewClient(_) => false
    case SafeDeleteRef(_) => false
    case PtrCtor(r, _) => r !in entries.Values
    case CopyCtor(r, _) => r !in entries.Values
    case LinkTo(r, _) => r !in entries.Values
    case Assign(r, _) => r !in entries.Values
    case UnlinkRef(r) => r !in entries.Values
    case Destructor(r) => r !in entries.Values
    case SwapRefs(a, b) => a !in entries.Values && b !in entries.Values
    case GetChecked(r) => r !in entries.Values
  }

  lemma ApartStays(h: Heap, op: Op, entries: Entries, r: Ref)
    requires WellPosed(h, op) && Step(h, op).Some? && Apart(entries, op) && r in entries.Values && r in h.refs
    ensures r in Step(h, op).value.refs && Step(h, op).value.refs[r] == h.refs[r]
  {}

  lemma ElsewhereKeeps(l: Links, op: Op)
    requires Linked(l) && WellPosed(l.h, op) && Safe(l.h, op) && Apart(l.entries, op)
    ensures Step(l.h, op).Some? && Linked(Links(Step(l.h, op).value, l.entries))
  {
    StepSound(l.h, op);
    var h' := Step(l.h, op).value;
    forall kind: Kind, c: Client | (kind, c) in l.entries
      ensures l.entries[(kind, c)] in h'.refs && h'.refs[l.entries[(kind, c)]] == Some(c)
    {
      hide Step, Sound, WellPosed, Safe, Apart;
      ApartStays(l.h, op, l.entries, l.entries[(kind, c)]);
    }
    hide Step, Sound, Safe, WellPosed, Apart;
  }

  // ---- Whole runs ----

  datatype State = State(h: Heap, clients: Clients, entries: Entries)

  // An operation of the list with the reference objects it may construct and, for DeleteAll, the order in which
  // it comes across the listed clients; or an operation on references elsewhere.
  datatype Event =
    | Listing(op: List.Op, objs: (Objects, Objects, Objects), lock: Ref, order: seq<Client>)
    | Elsewhere(ref: Op)

  function LinksOf(s: State): Links {
    Links(s.h, s.entries)
  }

  // What an operation of the list does to the links.
  function ListStep(s: State, e: Event): Option<Links>
    requires e.Listing?
  {
    var l, after := LinksOf(s), List.After(s.clients, e.op);
    match e.op
    case DeleteEverything => DeleteAllStep(l, e.order, e.lock)
    case Create(c) =>
      if c in s.clients then Some(l)
      else if c in s.h.linked then None
      else Some(Links(Step(s.h, NewClient(c)).value, s.entries))
    case _ =>
      var c := e.op.c;
      if c !in s.clients then Some(l)
      else
        var was, x := s.clients[c], List.Changed(s.clients[c], e.op);
        match e.op
        case Add(_) => if was.state == Index.CS_NEW then AddStep(l, c, x, e.objs) else Some(l)
        case SetID(_, _) => FileStep(l, Index.ById, c, was, x, e.objs.0)
        case SetDest(_, _) => FileStep(l, Index.ByDest, c, was, x, e.objs.0)
        case SetHash(_, _) => FileStep(l, Index.ByHash, c, was, x, e.objs.0)
        case Delete(_) => if was.state == Index.CS_DYING then Some(l) else DeleteStep(l, c, e.lock)
        case _ => Some(l)
  }

  function Next(s: State, e: Event): Option<State> {
    match e
    case Elsewhere(op) =>
      var o := if WellPosed(s.h, op) then Step(s.h, op) else None;
      if o.None? then None else Some(s.(h := o.value))
    case Listing(op, _, _, _) =>
      var o := ListStep(s, e);
      if o.None? then None else Some(State(o.value.h, List.After(s.clients, op), o.value.entries))
  }

  // What has to hold before each event, for the counters have 16 bits and a sole reference is soon gone.
  ghost predicate Ready(s: State, e: Event) {
    match e
    case Elsewhere(op) => WellPosed(s.h, op) && Safe(s.h, op) && Apart(s.entries, op)
    case Listing(op, objs, lock, order) => List.Proper(op) && ListReady(s, e)
  }

  ghost predicate ListReady(s: State, e: Event)
    requires e.Listing?
  {
    var l := LinksOf(s);
    match e.op
    case DeleteEverything => DeleteAllReady(l, s.clients, e.order, e.lock)
    case Create(c) => c !in s.clients ==> c !in s.h.linked
    case _ =>
      var c := e.op.c;
      c in s.clients ==>
        var was, x := s.clients[c], List.Changed(s.clients[c], e.op);
        match e.op
        case Add(_) => was.state == Index.CS_NEW ==> AddReady(l, c, x, e.objs)
        case SetID(_, _) => FileReady(l, Index.ById, c, was, x, e.objs.0)
        case SetDest(_, _) => FileReady(l, Index.ByDest, c, was, x, e.objs.0)
        case SetHash(_, _) => FileReady(l, Index.ByHash, c, was, x, e.objs.0)
        case Delete(_) =>
          was.state != Index.CS_DYING ==>
            c in s.h.linked && e.lock !in s.h.refs && Count(s.h.refs, c) < UINT16_RANGE - 1
        case _ => true
  }

  lemma CreateKeeps(s: State, c: Client)
    requires Tied(s.h, s.clients, s.entries) && c !in s.clients && c !in s.h.linked
    ensures Tied(Step(s.h, NewClient(c)).value, s.clients[c := List.NEW_CLIENT], s.entries)
  {
    NewClientSound(s.h, c);
  }

  lemma DyingComplete(clients: Clients, entries: Entries, clients': Clients)
    requires forall kind: Kind, d: Client :: (kind, d) !in entries
    requires forall c :: c in clients' ==> clients'[c].state != Index.CS_LISTED
    ensures Complete(clients', entries)
  {}

  lemma ListKeeps(s: State, e: Event)
    requires e.Listing? && Tied(s.h, s.clients, s.entries) && ListReady(s, e)
    ensures ListStep(s, e).Some?
    ensures var l := ListStep(s, e).value; Tied(l.h, List.After(s.clients, e.op), l.entries)
  {
    var l := LinksOf(s);
    hide Sound, Entered, Complete, AddReady, FileReady, Count, DeleteAllReady, Outside;
    hide AddStep, FileStep, DeleteStep, DeleteAllStep, Removed;
    match e.op
    case DeleteEverything =>
      DeleteAllKeeps(l, s.clients, e.order, e.lock);
      DyingComplete(s.clients, ListStep(s, e).value.entries, List.After(s.clients, e.op));
    case Create(c) =>
      if c !in s.clients {
        CreateKeeps(s, c);
      }
    case _ =>
      var c := e.op.c;
      if c in s.clients {
        OneKeeps(s, e, c);
      }
  }

  // The operations on one client that exists.
  lemma OneKeeps(s: State, e: Event, c: Client)
    requires e.Listing? && Tied(s.h, s.clients, s.entries) && ListReady(s, e)
    requires !e.op.Create? && !e.op.DeleteEverything? && c == e.op.c && c in s.clients
    ensures ListStep(s, e).Some?
    ensures var l := ListStep(s, e).value; Tied(l.h, List.After(s.clients, e.op), l.entries)
  {
    var l, x := LinksOf(s), List.Changed(s.clients[c], e.op);
    var was := s.clients[c];
    hide Sound, Entered, Complete, AddReady, FileReady, Count, Outside;
    hide AddStep, FileStep, DeleteStep, Removed;
    match e.op
    case Add(_) =>
      if was.state == Index.CS_NEW {
        AddKeeps(l, s.clients, c, x, e.objs);
      } else {
        CompleteSame(s.clients, s.entries, c, x);
      }
    case SetID(_, _) => FileKeeps(l, s.clients, Index.ById, c, x, e.objs.0);
    case SetDest(_, _) => FileKeeps(l, s.clients, Index.ByDest, c, x, e.objs.0);
    case SetHash(_, _) => FileKeeps(l, s.clients, Index.ByHash, c, x, e.objs.0);
    case Delete(_) =>
      if was.state == Index.CS_DYING {
        CompleteSame(s.clients, s.entries, c, x);
      } else {
        DeleteKeeps(l, c, e.lock);
        CompleteRemoved(s.clients, s.entries, c);
      }
    case _ => CompleteSame(s.clients, s.entries, c, x);
  }

  function RunAll(s: State, es: seq<Event>): Option<State> {
    if es == [] then Some(s)
    else match RunAll(s, es[..|es| - 1])
      case None => None
      case Some(s') => Next(s', es[|es| - 1])
  }

  // Before every event what it needs holds.
  ghost predicate AllReady(s: State, es: seq<Event>) {
    forall i :: 0 <= i < |es| ==> RunAll(s, es[..i]).Some? ==> Ready(RunAll(s, es[..i]).value, es[i])
  }

  function ListOps(es: seq<Event>): seq<List.Op> {
    if es == [] then []
    else
      var e := es[|es| - 1];
      ListOps(es[..|es| - 1]) + if e.Listing? then [e.op] else []
  }

  // Every entry is a reference to its client; every destination can be removed again, and every hash is flagged.
  ghost predicate Good(s: State) {
    Tied(s.h, s.clients, s.entries) && List.AllRemovable(s.clients) && List.Flagged(s.clients)
  }

  lemma AfterFlagged(clients: Clients, op: List.Op)
    requires List.Flagged(clients)
    ensures List.Flagged(List.After(clients, op))
  {}

  lemma NextGood(s: State, e: Event)
    requires Good(s) && Ready(s, e)
    ensures Next(s, e).Some? && Good(Next(s, e).value)
    ensures Next(s, e).value.clients == if e.Listing? then List.After(s.clients, e.op) else s.clients
  {
    hide Sound, Entered, Complete, ListReady, ListStep, Step, Safe, WellPosed, Apart;
    hide List.AllRemovable, List.Flagged, List.After;
    if e.Listing? {
      ListKeeps(s, e);
      List.AfterRemovable(s.clients, e.op);
      AfterFlagged(s.clients, e.op);
    } else {
      ElsewhereKeeps(LinksOf(s), e.ref);
    }
  }

  lemma PrefixReady(s: State, es: seq<Event>)
    requires es != [] && AllReady(s, es)
    ensures AllReady(s, es[..|es| - 1])
    ensures RunAll(s, es[..|es| - 1]).Some? ==> Ready(RunAll(s, es[..|es| - 1]).value, es[|es| - 1])
  {
    var n := |es| - 1;
    hide RunAll, Ready;
    forall i | 0 <= i < n && RunAll(s, es[..n][..i]).Some?
      ensures Ready(RunAll(s, es[..n][..i]).value, es[..n][i])
    {
      assert es[..n][..i] == es[..i];
    }
  }

  lemma AfterNext(clients: Clients, es: seq<Event>)
    requires es != []
    ensures var e, before := es[|es| - 1], List.AfterAll(clients, ListOps(es[..|es| - 1]));
      List.AfterAll(clients, ListOps(es)) == if e.Listing? then List.After(before, e.op) else before
  {
    hide List.After;
    var e, ops := es[|es| - 1], ListOps(es[..|es| - 1]);
    if e.Listing? {
      assert (ops + [e.op])[..|ops|] == ops;
    } else {
      assert ops + [] == ops;
    }
  }

  // Over every run no freed client is used, every index entry is a reference to its client, and the fields of
  // the clients are those of the list's own runs.
  lemma {:induction false} RunGood(s: State, es: seq<Event>)
    requires Good(s) && AllReady(s, es)
    ensures RunAll(s, es).Some? && Good(RunAll(s, es).value)
    ensures RunAll(s, es).value.clients == List.AfterAll(s.clients, ListOps(es))
    decreases |es|
  {
    if es != [] {
      PrefixReady(s, es);
      AfterNext(s.clients, es);
      hide Good, AllReady, Ready, Next, ListOps, List.AfterAll;
      RunGood(s, es[..|es| - 1]);
      NextGood(RunAll(s, es[..|es| - 1]).value, es[|es| - 1]);
    } else {
      NothingDone(s);
    }
  }

  lemma NothingDone(s: State)
    ensures RunAll(s, []) == Some(s) && List.AfterAll(s.clients, ListOps([])) == s.clients
  {}

  // So every counter is the number of the client's entries and of the references held elsewhere.
  lemma RunCounts(s: State, es: seq<Event>, c: Client)
    requires Good(s) && AllReady(s, es)
    requires RunAll(s, es).Some? && c in RunAll(s, es).value.clients && c in RunAll(s, es).value.h.linked
    ensures var t := RunAll(s, es).value;
      t.h.linked[c] == Listings(t.clients[c]) + |Outside(t.h, t.entries, c)|
  {
    RunGood(s, es);
    hide RunAll;
    var t := RunAll(s, es).value;
    LinkedSplit(t.h, t.clients, t.entries, c);
  }
}
