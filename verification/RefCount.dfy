// CClientRef: reference-counted pointers to clients, on an explicit heap.
module RefCount {
  import opened Arithmetic
  import opened Options

  type Ref = nat      // a CClientRef object
  type Client = nat   // the address of a CUpDownClient

  // The live CClientRef objects and what they point to; the live clients with their m_linked;
  // the clients that are marked for deletion.
  datatype Heap = Heap(refs: map<Ref, Option<Client>>, linked: map<Client, nat>, dying: set<Client>)

  function Pointers(refs: map<Ref, Option<Client>>, c: Client): set<Ref> {
    set r | r in refs && refs[r] == Some(c)
  }

  function Count(refs: map<Ref, Option<Client>>, c: Client): nat {
    |Pointers(refs, c)|
  }

  // No live reference points to a freed client, and every count is exact.
  ghost predicate Sound(h: Heap) {
    && (forall r :: r in h.refs && h.refs[r].Some? ==> h.refs[r].value in h.linked)
    && (forall c :: c in h.linked ==> h.linked[c] == Count(h.refs, c) < UINT16_RANGE)
  }

  // m_linked++ of a 16-bit counter.
  function Increment(linked: map<Client, nat>, c: Client): map<Client, nat>
    requires c in linked
  {
    linked[c := (linked[c] + 1) % UINT16_RANGE]
  }

  // m_linked--, and `delete this` when it reaches zero.
  function Decrement(linked: map<Client, nat>, c: Client): map<Client, nat>
    requires c in linked
  {
    var n := (linked[c] + UINT16_RANGE - 1) % UINT16_RANGE;
    if n == 0 then linked - {c} else linked[c := n]
  }

  // ---- The operations; None means that a freed client is used ----

  function SetRef(h: Heap, r: Ref, c: Client): Option<Heap> {
    if c in h.linked then Some(Heap(h.refs[r := Some(c)], Increment(h.linked, c), h.dying)) else None
  }

  function Unlink(h: Heap, r: Ref): Option<Heap>
    requires r in h.refs
  {
    match h.refs[r]
    case None => Some(h)
    case Some(c) =>
      if c in h.linked then Some(Heap(h.refs[r := None], Decrement(h.linked, c), h.dying)) else None
  }

  function Link(h: Heap, r: Ref, target: Option<Client>): Option<Heap>
    requires r in h.refs
  {
    var u := Unlink(h, r);
    if u.None? then None
    else match target
      case None => u
      case Some(c) => SetRef(u.value, r, c)
  }

  function Construct(h: Heap, r: Ref, target: Option<Client>): Option<Heap>
    requires r !in h.refs
  {
    match target
    case None => Some(h.(refs := h.refs[r := None]))
    case Some(c) => SetRef(h, r, c)
  }

  function Destroy(h: Heap, r: Ref): Option<Heap>
    requires r in h.refs
  {
    var u := Unlink(h, r);
    if u.None? then None else Some(u.value.(refs := u.value.refs - {r}))
  }

  function Swap(h: Heap, a: Ref, b: Ref): Heap
    requires a in h.refs && b in h.refs
  {
    h.(refs := h.refs[a := h.refs[b]][b := h.refs[a]])
  }

  function GetClientChecked(h: Heap, r: Ref): Option<Heap>
    requires r in h.refs
  {
    if h.refs[r].Some? && h.refs[r].value in h.dying then Unlink(h, r) else Some(h)
  }

  // CClientRef::Safe_Delete: the reference is dropped first, then the client is marked.
  function SafeDelete(h: Heap, r: Ref): Option<Heap>
    requires r in h.refs
  {
    match h.refs[r]
    case None => Some(h)
    case Some(c) =>
      var u := Unlink(h, r);
      if u.None? || c !in u.value.linked then None
      else Some(u.value.(dying := u.value.dying + {c}))
  }

  // ---- Counting ----

  lemma CountWithout(refs: map<Ref, Option<Client>>, r: Ref, c: Client)
    ensures Count(refs, c) == |Pointers(refs, c) - {r}| + if r in refs && refs[r] == Some(c) then 1 else 0
  {
    var a := Pointers(refs, c);
    if r in a {
      assert a == (a - {r}) + {r};
    } else {
      assert a == a - {r};
    }
  }

  lemma CountUpdate(refs: map<Ref, Option<Client>>, r: Ref, t: Option<Client>, c: Client)
    ensures Count(refs[r := t], c) + (if r in refs && refs[r] == Some(c) then 1 else 0)
      == Count(refs, c) + (if t == Some(c) then 1 else 0)
  {
    CountWithout(refs, r, c);
    CountWithout(refs[r := t], r, c);
    assert Pointers(refs[r := t], c) - {r} == Pointers(refs, c) - {r};
  }

  lemma CountRemove(refs: map<Ref, Option<Client>>, r: Ref, c: Client)
    requires r in refs && refs[r] == None
    ensures Count(refs - {r}, c) == Count(refs, c)
  {
    assert Pointers(refs - {r}, c) == Pointers(refs, c);
  }

  lemma CountSwap(refs: map<Ref, Option<Client>>, a: Ref, b: Ref, c: Client)
    requires a in refs && b in refs
    ensures Count(refs[a := refs[b]][b := refs[a]], c) == Count(refs, c)
  {
    CountUpdate(refs, a, refs[b], c);
    CountUpdate(refs[a := refs[b]], b, refs[a], c);
  }

  lemma PointedCounts(refs: map<Ref, Option<Client>>, r: Ref, c: Client)
    requires r in refs && refs[r] == Some(c)
    ensures 0 < Count(refs, c)
  {
    assert r in Pointers(refs, c);
  }

  // ---- Every operation keeps the heap sound ----

  // Linking is sound exactly while the target has fewer than 65535 references.
  lemma SetRefSound(h: Heap, r: Ref, c: Client)
    requires Sound(h) && c in h.linked && (r in h.refs ==> h.refs[r] == None)
    ensures SetRef(h, r, c).Some?
    ensures Sound(SetRef(h, r, c).value) <==> Count(h.refs, c) < UINT16_RANGE - 1
  {
    var h' := SetRef(h, r, c).value;
    forall d: Client ensures Count(h'.refs, d) == Count(h.refs, d) + if d == c then 1 else 0 {
      CountUpdate(h.refs, r, Some(c), d);
    }
    assert h.linked[c] == Count(h.refs, c);
    if Count(h.refs, c) == UINT16_RANGE - 1 {
      assert h'.linked[c] == 0;
    }
  }

  // Unlinking never touches a freed client, and frees one exactly when its last reference goes.
  lemma UnlinkSound(h: Heap, r: Ref)
    requires Sound(h) && r in h.refs
    ensures Unlink(h, r).Some? && Sound(Unlink(h, r).value) && r in Unlink(h, r).value.refs
    ensures Unlink(h, r).value.refs[r] == None
    ensures forall c: Client ::
      c in Unlink(h, r).value.linked <==> c in h.linked && !(h.refs[r] == Some(c) && Count(h.refs, c) == 1)
    ensures forall c: Client ::
      Count(Unlink(h, r).value.refs, c) == Count(h.refs, c) - if h.refs[r] == Some(c) then 1 else 0
  {
    if h.refs[r].Some? {
      var c := h.refs[r].value;
      var h' := Unlink(h, r).value;
      PointedCounts(h.refs, r, c);
      forall d: Client ensures Count(h'.refs, d) == Count(h.refs, d) - if d == c then 1 else 0 {
        CountUpdate(h.refs, r, None, d);
      }
      forall q | q in h'.refs && h'.refs[q].Some? ensures h'.refs[q].value in h'.linked {
        PointedCounts(h'.refs, q, h'.refs[q].value);
      }
    }
  }

  // Dropping a null reference changes nothing else.
  lemma DropSound(h: Heap, r: Ref)
    requires Sound(h) && r in h.refs && h.refs[r] == None
    ensures Sound(h.(refs := h.refs - {r}))
    ensures forall c: Client :: Count(h.refs - {r}, c) == Count(h.refs, c)
  {
    forall c: Client ensures Count(h.refs - {r}, c) == Count(h.refs, c) {
      CountRemove(h.refs, r, c);
    }
  }

  lemma SwapSound(h: Heap, a: Ref, b: Ref)
    requires Sound(h) && a in h.refs && b in h.refs
    ensures Sound(Swap(h, a, b))
    ensures forall c: Client :: Count(Swap(h, a, b).refs, c) == Count(h.refs, c)
  {
    forall c: Client ensures Count(Swap(h, a, b).refs, c) == Count(h.refs, c) {
      CountSwap(h.refs, a, b, c);
    }
  }

  // ---- Runs ----

  datatype Op =
    | NewClient(c: Client)
    | PtrCtor(r: Ref, target: Option<Client>)
    | CopyCtor(r: Ref, from: Ref)
    | LinkTo(r: Ref, target: Option<Client>)
    | Assign(r: Ref, from: Ref)
    | UnlinkRef(r: Ref)
    | Destructor(r: Ref)
    | SwapRefs(a: Ref, b: Ref)
    | GetChecked(r: Ref)
    | SafeDeleteRef(r: Ref)

  // The references exist (or are new), and raw pointers handed in are live.
  predicate WellPosed(h: Heap, op: Op) {
    match op
    case NewClient(c) => c !in h.linked
    case PtrCtor(r, t) => r !in h.refs && (t.Some? ==> t.value in h.linked)
    case CopyCtor(r, from) => r !in h.refs && from in h.refs
    case LinkTo(r, t) => r in h.refs && (t.Some? ==> t.value in h.linked)
    case Assign(r, from) => r in h.refs && from in h.refs
    case UnlinkRef(r) => r in h.refs
    case Destructor(r) => r in h.refs
    case SwapRefs(a, b) => a in h.refs && b in h.refs
    case GetChecked(r) => r in h.refs
    case SafeDeleteRef(r) => r in h.refs
  }

  function Step(h: Heap, op: Op): Option<Heap>
    requires WellPosed(h, op)
  {
    match op
    case NewClient(c) => Some(h.(linked := h.linked[c := 0], dying := h.dying - {c}))
    case PtrCtor(r, t) => Construct(h, r, t)
    case CopyCtor(r, from) => Construct(h, r, h.refs[from])
    case LinkTo(r, t) => Link(h, r, t)
    case Assign(r, from) => Link(h, r, h.refs[from])
    case UnlinkRef(r) => Unlink(h, r)
    case Destructor(r) => Destroy(h, r)
    case SwapRefs(a, b) => Some(Swap(h, a, b))
    case GetChecked(r) => GetClientChecked(h, r)
    case SafeDeleteRef(r) => SafeDelete(h, r)
  }

  // Another reference can be added to the 16-bit counter.
  predicate Room(h: Heap, t: Option<Client>) {
    t.Some? ==> Count(h.refs, t.value) < UINT16_RANGE - 1
  }

  // Relinking drops the old target first, so a sole reference must not be relinked to its own client.
  predicate Relinkable(h: Heap, r: Ref, t: Option<Client>)
    requires r in h.refs
  {
    t.Some? ==> if h.refs[r] == t then Count(h.refs, t.value) != 1 else Count(h.refs, t.value) < UINT16_RANGE - 1
  }

  // What a caller has to make sure of before each operation.
  predicate Safe(h: Heap, op: Op)
    requires WellPosed(h, op)
  {
    match op
    case PtrCtor(r, t) => Room(h, t)
    case CopyCtor(r, from) => Room(h, h.refs[from])
    case LinkTo(r, t) => Relinkable(h, r, t)
    case Assign(r, from) => Relinkable(h, r, h.refs[from])
    case SafeDeleteRef(r) => h.refs[r].Some? ==> Count(h.refs, h.refs[r].value) != 1
    case _ => true
  }

  // Between two heaps: a client disappears exactly when its last reference does.
  ghost predicate FreedAtZero(h: Heap, h': Heap) {
    forall c :: c in h.linked ==>
      (c !in h'.linked <==> 0 < Count(h.refs, c) && Count(h'.refs, c) == 0)
  }

  ghost predicate Kept(h: Heap, o: Option<Heap>) {
    o.Some? && Sound(o.value) && FreedAtZero(h, o.value)
  }

  lemma NewClientSound(h: Heap, c: Client)
    requires Sound(h) && c !in h.linked
    ensures Kept(h, Step(h, NewClient(c)))
  {
    assert Pointers(h.refs, c) == {};
  }

  lemma ConstructSound(h: Heap, r: Ref, t: Option<Client>)
    requires Sound(h) && r !in h.refs && (t.Some? ==> t.value in h.linked)
    ensures Construct(h, r, t).Some?
    ensures Sound(Construct(h, r, t).value) <==> Room(h, t)
    ensures Room(h, t) ==> FreedAtZero(h, Construct(h, r, t).value)
  {
    forall d: Client ensures Count(h.refs[r := t], d) == Count(h.refs, d) + if t == Some(d) then 1 else 0 {
      CountUpdate(h.refs, r, t, d);
    }
    if t.Some? {
      SetRefSound(h, r, t.value);
    }
  }

  lemma UnlinkFreed(h: Heap, r: Ref)
    requires Sound(h) && r in h.refs
    ensures Kept(h, Unlink(h, r))
  {
    UnlinkSound(h, r);
    hide Unlink;
    if h.refs[r].Some? {
      PointedCounts(h.refs, r, h.refs[r].value);
    }
  }

  lemma LinkSound(h: Heap, r: Ref, t: Option<Client>)
    requires Sound(h) && r in h.refs && (t.Some? ==> t.value in h.linked)
    ensures (Link(h, r, t).Some? && Sound(Link(h, r, t).value)) <==> Relinkable(h, r, t)
  {
    UnlinkSound(h, r);
    hide Unlink, Sound, Count;
    if t.Some? {
      var u := Unlink(h, r).value;
      if h.refs[r] == t && Count(h.refs, t.value) == 1 {
        assert t.value !in u.linked;
      } else {
        assert t.value in u.linked;
        CountBound(h, t.value);
        SetRefSound(u, r, t.value);
      }
    }
  }

  lemma CountBound(h: Heap, c: Client)
    requires Sound(h) && c in h.linked
    ensures Count(h.refs, c) < UINT16_RANGE
  {}

  lemma LinkFreed(h: Heap, r: Ref, t: Option<Client>)
    requires Sound(h) && r in h.refs && (t.Some? ==> t.value in h.linked) && Relinkable(h, r, t)
    ensures Kept(h, Link(h, r, t))
  {
    LinkSound(h, r, t);
    UnlinkSound(h, r);
    UnlinkFreed(h, r);
    if t.Some? {
      var u := Unlink(h, r).value;
      hide Unlink, Sound, Count;
      forall d: Client ensures Count(u.refs[r := t], d) == Count(u.refs, d) + if t == Some(d) then 1 else 0 {
        CountUpdate(u.refs, r, t, d);
      }
    }
  }

  lemma DestroySound(h: Heap, r: Ref)
    requires Sound(h) && r in h.refs
    ensures Kept(h, Destroy(h, r))
  {
    UnlinkSound(h, r);
    UnlinkFreed(h, r);
    hide Unlink;
    DropSound(Unlink(h, r).value, r);
  }

  lemma SafeDeleteSound(h: Heap, r: Ref)
    requires Sound(h) && r in h.refs
    ensures SafeDelete(h, r).Some? <==> Safe(h, SafeDeleteRef(r))
    ensures Safe(h, SafeDeleteRef(r)) ==> Kept(h, SafeDelete(h, r))
  {
    UnlinkSound(h, r);
    UnlinkFreed(h, r);
    hide Unlink;
  }

  // The central step: from a sound heap, an operation uses no freed client and keeps the heap sound
  // exactly when the condition that the caller can test holds.
  lemma StepSound(h: Heap, op: Op)
    requires Sound(h) && WellPosed(h, op)
    ensures (Step(h, op).Some? && Sound(Step(h, op).value)) <==> Safe(h, op)
    ensures Safe(h, op) ==> FreedAtZero(h, Step(h, op).value)
  {
    hide Sound, FreedAtZero, Count, Construct, Link, Unlink, Destroy, Swap, SafeDelete;
    match op
    case NewClient(c) => NewClientSound(h, c);
    case PtrCtor(r, t) => ConstructSound(h, r, t);
    case CopyCtor(r, from) =>
      PointedLive(h, from);
      ConstructSound(h, r, h.refs[from]);
    case LinkTo(r, t) => LinkStep(h, r, t);
    case Assign(r, from) =>
      PointedLive(h, from);
      LinkStep(h, r, h.refs[from]);
    case UnlinkRef(r) => UnlinkFreed(h, r);
    case Destructor(r) => DestroySound(h, r);
    case SwapRefs(a, b) => SwapFreed(h, a, b);
    case GetChecked(r) => UnlinkFreed(h, r); SameFreed(h);
    case SafeDeleteRef(r) => SafeDeleteSound(h, r);
  }

  lemma PointedLive(h: Heap, r: Ref)
    requires Sound(h) && r in h.refs
    ensures h.refs[r].Some? ==> h.refs[r].value in h.linked
  {}

  lemma LinkStep(h: Heap, r: Ref, t: Option<Client>)
    requires Sound(h) && r in h.refs && (t.Some? ==> t.value in h.linked)
    ensures (Link(h, r, t).Some? && Sound(Link(h, r, t).value)) <==> Relinkable(h, r, t)
    ensures Relinkable(h, r, t) ==> FreedAtZero(h, Link(h, r, t).value)
  {
    LinkSound(h, r, t);
    if Relinkable(h, r, t) {
      LinkFreed(h, r, t);
    }
  }

  lemma SwapFreed(h: Heap, a: Ref, b: Ref)
    requires Sound(h) && a in h.refs && b in h.refs
    ensures Sound(Swap(h, a, b)) && FreedAtZero(h, Swap(h, a, b))
  {
    SwapSound(h, a, b);
  }

  lemma SameFreed(h: Heap)
    requires Sound(h)
    ensures FreedAtZero(h, h)
  {}

  function Run(h: Heap, ops: seq<Op>): Option<Heap>
    decreases |ops|
  {
    if ops == [] then Some(h)
    else if !WellPosed(h, ops[0]) then None
    else match Step(h, ops[0])
      case None => None
      case Some(h') => Run(h', ops[1..])
  }

  // Along the run every operation is well posed and meets its condition.
  predicate SafeRun(h: Heap, ops: seq<Op>)
    decreases |ops|
  {
    ops == [] ||
    (WellPosed(h, ops[0]) && Safe(h, ops[0]) &&
     match Step(h, ops[0])
     case None => true
     case Some(h') => SafeRun(h', ops[1..]))
  }

  // Over every run whose operations meet their conditions, no freed client is used, every m_linked is the
  // number of references, and no reference dangles.
  lemma {:induction false} RunSound(h: Heap, ops: seq<Op>)
    requires Sound(h) && SafeRun(h, ops)
    ensures Run(h, ops).Some? && Sound(Run(h, ops).value)
    decreases |ops|
  {
    if ops != [] {
      StepSound(h, ops[0]);
      hide Sound, Step;
      RunSound(Step(h, ops[0]).value, ops[1..]);
    }
  }

  // ---- Where the 16-bit counter gives out ----

  function Crowd(n: nat): map<Ref, Option<Client>> {
    if n == 0 then map[] else Crowd(n - 1)[n - 1 := Some(0)]
  }

  lemma {:induction false} CrowdRefs(n: nat)
    ensures forall r: Ref :: r in Crowd(n) <==> r < n
    ensures forall r: Ref :: r in Crowd(n) ==> Crowd(n)[r] == Some(0)
  {
    if n > 0 {
      CrowdRefs(n - 1);
    }
  }

  lemma {:induction false} CrowdCount(n: nat)
    ensures Count(Crowd(n), 0) == n
  {
    if n == 0 {
      assert Pointers(Crowd(0), 0) == {};
    } else {
      CrowdCount(n - 1);
      CrowdRefs(n - 1);
      CountUpdate(Crowd(n - 1), n - 1, Some(0), 0);
    }
  }

  // A client with 65535 references: sound, and one more reference than the counter can record away.
  lemma CrowdSound()
    ensures Sound(Heap(Crowd(UINT16_RANGE - 1), map[0 := UINT16_RANGE - 1], {}))
    ensures Count(Crowd(UINT16_RANGE - 1), 0) == UINT16_RANGE - 1
  {
    CrowdCount(UINT16_RANGE - 1);
    CrowdRefs(UINT16_RANGE - 1);
  }

  // With 65535 references, two more links wrap the counter to 1, and dropping one of them frees the
  // client under all the others.
  lemma Wraps(h: Heap, c: Client, r: Ref, q: Ref)
    requires Sound(h) && c in h.linked && Count(h.refs, c) == UINT16_RANGE - 1
    requires r !in h.refs && q !in h.refs && r != q
    ensures Run(h, [PtrCtor(r, Some(c)), PtrCtor(q, Some(c)), Destructor(q)]).Some?
    ensures var h' := Run(h, [PtrCtor(r, Some(c)), PtrCtor(q, Some(c)), Destructor(q)]).value;
      c !in h'.linked && r in h'.refs && h'.refs[r] == Some(c)
  {
    var h1 := Step(h, PtrCtor(r, Some(c))).value;
    assert h1.linked[c] == 0;
    var h2 := Step(h1, PtrCtor(q, Some(c))).value;
    assert h2.linked[c] == 1;
    var h3 := Step(h2, Destructor(q)).value;
    assert [PtrCtor(r, Some(c)), PtrCtor(q, Some(c)), Destructor(q)][1..] == [PtrCtor(q, Some(c)), Destructor(q)];
    assert [PtrCtor(q, Some(c)), Destructor(q)][1..] == [Destructor(q)];
    assert Run(h2, [Destructor(q)]) == Some(h3);
    assert Run(h1, [PtrCtor(q, Some(c)), Destructor(q)]) == Some(h3);
  }
}
