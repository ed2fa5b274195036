// Inserting a reference into a container: the temporaries that it passes through, on a counter that wraps.
module Temporaries {
  import opened Arithmetic
  import opened Options
  import opened RefCount

  lemma {:induction false} RunAppend(h: Heap, a: seq<Op>, b: seq<Op>)
    ensures Run(h, a + b) == match Run(h, a) case None => None case Some(h') => Run(h', b)
    decreases |a|
  {
    if a == [] {
      assert a + b == b;
    } else {
      assert (a + b)[0] == a[0] && (a + b)[1..] == a[1..] + b;
      if WellPosed(h, a[0]) && Step(h, a[0]).Some? {
        RunAppend(Step(h, a[0]).value, a[1..], b);
      }
    }
  }

  // ---- Between the steps ----

  // No live reference dangles, and every counter holds the number of references modulo its range.
  ghost predicate Modular(h: Heap) {
    && (forall r :: r in h.refs && h.refs[r].Some? ==> h.refs[r].value in h.linked)
    && (forall c :: c in h.linked ==> h.linked[c] == Count(h.refs, c) % UINT16_RANGE)
  }

  lemma SoundIsModular(h: Heap)
    ensures Sound(h) <==> Modular(h) && forall c :: c in h.linked ==> Count(h.refs, c) < UINT16_RANGE
  {
    hide Count;
  }

  // The number of references after one more or one less.
  lemma Counts(refs: map<Ref, Option<Client>>, q: Ref, c: Client, d: Client)
    requires q !in refs
    ensures Count(refs[q := Some(c)], d) == Count(refs, d) + if d == c then 1 else 0
  {
    CountUpdate(refs, q, Some(c), d);
  }

  lemma OneMore(h: Heap, q: Ref, c: Client)
    requires Modular(h) && q !in h.refs && c in h.linked
    ensures var o := Construct(h, q, Some(c));
      o.Some? && Modular(o.value) && o.value.refs == h.refs[q := Some(c)] && o.value.linked.Keys == h.linked.Keys &&
      o.value.dying == h.dying
  {
    ConstructIs(h, q, c);
    hide Construct;
    forall d: Client ensures Count(h.refs[q := Some(c)], d) == Count(h.refs, d) + if d == c then 1 else 0 {
      Counts(h.refs, q, c, d);
    }
    hide Count;
    CounterUp(Count(h.refs, c));
  }

  lemma ConstructIs(h: Heap, q: Ref, c: Client)
    requires q !in h.refs && c in h.linked
    ensures Construct(h, q, Some(c)) == Some(Heap(h.refs[q := Some(c)], Increment(h.linked, c), h.dying))
  {}

  lemma CounterUp(n: nat)
    ensures (n % UINT16_RANGE + 1) % UINT16_RANGE == (n + 1) % UINT16_RANGE
  {}

  // Dropping a reference frees its client when the counter arrives at zero, whatever the number of references.
  lemma OneLess(h: Heap, r: Ref, c: Client)
    requires Modular(h) && r in h.refs && h.refs[r] == Some(c)
    ensures var o := Destroy(h, r);
      o.Some? && o.value.refs == h.refs - {r} && o.value.dying == h.dying &&
      if Count(h.refs, c) % UINT16_RANGE == 1 then o.value.linked.Keys == h.linked.Keys - {c}
      else Modular(o.value) && o.value.linked.Keys == h.linked.Keys
  {
    DestroyIs(h, r, c);
    hide Destroy;
    var refs := h.refs - {r};
    assert refs[r := Some(c)] == h.refs;
    forall d: Client ensures Count(h.refs, d) == Count(refs, d) + if d == c then 1 else 0 {
      Counts(refs, r, c, d);
    }
    hide Count;
    CounterDown(Count(refs, c));
  }

  lemma DestroyIs(h: Heap, r: Ref, c: Client)
    requires r in h.refs && h.refs[r] == Some(c) && c in h.linked
    ensures Destroy(h, r) == Some(Heap(h.refs - {r}, Decrement(h.linked, c), h.dying))
  {
    assert h.refs[r := None] - {r} == h.refs - {r};
  }

  lemma CounterDown(n: nat)
    ensures ((n + 1) % UINT16_RANGE + UINT16_RANGE - 1) % UINT16_RANGE == n % UINT16_RANGE
    ensures n % UINT16_RANGE == 0 <==> (n + 1) % UINT16_RANGE == 1
  {}

  // ---- The insertion ----

  // The reference objects that an insertion constructs: the temporaries one after another, each a copy of the
  // one before, and the entry in the end.
  datatype Objects = Objects(temps: seq<Ref>, entry: Ref)

  ghost predicate Distinct(temps: seq<Ref>) {
    forall i, j :: 0 <= i < j < |temps| ==> temps[i] != temps[j]
  }

  ghost predicate Unused(h: Heap, o: Objects) {
    && o.entry !in h.refs && o.entry !in o.temps && Distinct(o.temps)
    && forall i :: 0 <= i < |o.temps| ==> o.temps[i] !in h.refs
  }

  // Copying on from a reference; every temporary lives until what it was copied for is there.
  function Through(from: Ref, temps: seq<Ref>, entry: Ref): seq<Op>
    decreases |temps|
  {
    if temps == [] then [CopyCtor(entry, from)]
    else [CopyCtor(temps[0], from)] + Through(temps[0], temps[1..], entry) + [Destructor(temps[0])]
  }

  // The first temporary is made from the client's address; without any, the entry itself is.
  function Inserting(o: Objects, c: Client): seq<Op> {
    if o.temps == [] then [PtrCtor(o.entry, Some(c))]
    else [PtrCtor(o.temps[0], Some(c))] + Through(o.temps[0], o.temps[1..], o.entry) + [Destructor(o.temps[0])]
  }

  // From n references: none of the k temporaries is dropped when the counter stands at one.
  predicate Roomy(n: nat, k: nat)
    decreases k
  {
    k == 0 || ((n + 1) % UINT16_RANGE != 0 && Roomy(n + 1, k - 1))
  }

  lemma {:induction false} RoomyIff(n: nat, k: nat)
    requires n < UINT16_RANGE
    ensures Roomy(n, k) <==> n + k < UINT16_RANGE
    decreases k
  {
    if k > 0 && n + 1 < UINT16_RANGE {
      RoomyIff(n + 1, k - 1);
    }
  }

  // With room, the entry has been made and nothing else has changed; without, a freed client was used or the
  // client is gone.
  ghost predicate Arrived(h: Heap, o: Option<Heap>, entry: Ref, c: Client, roomy: bool) {
    if roomy then
      o.Some? && Modular(o.value) && o.value.refs == h.refs[entry := Some(c)] && o.value.linked.Keys == h.linked.Keys
    else
      o.Some? ==> c !in o.value.linked && o.value.refs == h.refs[entry := Some(c)]
  }

  lemma RunOne(h: Heap, op: Op)
    ensures Run(h, [op]) == if WellPosed(h, op) then Step(h, op) else None
  {
    assert [op][1..] == [];
  }

  function AndThen(o: Option<Heap>, op: Op): Option<Heap> {
    if o.None? then None else Run(o.value, [op])
  }

  // A temporary is dropped: h is the heap before it was made, h1 the one with it.
  lemma TempDropped(h: Heap, h1: Heap, o: Option<Heap>, t: Ref, entry: Ref, c: Client, k: nat)
    requires 0 < k && t !in h.refs && entry !in h.refs && entry != t
    requires h1.refs == h.refs[t := Some(c)] && h1.linked.Keys == h.linked.Keys && c in h.linked
    requires Arrived(h1, o, entry, c, Roomy(Count(h.refs, c) + 1, k - 1))
    ensures Arrived(h, AndThen(o, Destructor(t)), entry, c, Roomy(Count(h.refs, c), k))
  {
    if o.Some? {
      RunOne(o.value, Destructor(t));
      assert h1.refs[entry := Some(c)] - {t} == h.refs[entry := Some(c)];
      if Roomy(Count(h.refs, c) + 1, k - 1) {
        OneLess(o.value, t, c);
        Counts(h.refs, t, c, c);
        Counts(h1.refs, entry, c, c);
        hide Count, Modular, Destroy;
        CounterDown(Count(h.refs, c) + 1);
      }
    }
  }

  lemma {:induction false} ThroughIff(h: Heap, from: Ref, temps: seq<Ref>, entry: Ref, c: Client)
    requires Modular(h) && from in h.refs && h.refs[from] == Some(c) && Unused(h, Objects(temps, entry))
    ensures Arrived(h, Run(h, Through(from, temps, entry)), entry, c, Roomy(Count(h.refs, c), |temps|))
    decreases |temps|
  {
    if temps == [] {
      OneMore(h, entry, c);
      RunOne(h, CopyCtor(entry, from));
    } else {
      var t := temps[0];
      OneMore(h, t, c);
      RunOne(h, CopyCtor(t, from));
      Counts(h.refs, t, c, c);
      var h1 := Construct(h, t, Some(c)).value;
      hide Modular, Count, Construct;
      ThroughIff(h1, t, temps[1..], entry, c);
      RunAppend(h, [CopyCtor(t, from)], Through(t, temps[1..], entry));
      RunAppend(h, [CopyCtor(t, from)] + Through(t, temps[1..], entry), [Destructor(t)]);
      hide Arrived, Roomy, Run;
      TempDropped(h, h1, Run(h1, Through(t, temps[1..], entry)), t, entry, c, |temps|);
    }
  }

  // An insertion makes its entry and leaves every count exact if and only if the references there were and the
  // temporaries stay below the counter's range; otherwise the client is freed under it.
  lemma InsertingIff(h: Heap, o: Objects, c: Client)
    requires Sound(h) && c in h.linked && Unused(h, o) && o.temps != []
    ensures var r, fits := Run(h, Inserting(o, c)), Count(h.refs, c) + |o.temps| < UINT16_RANGE;
      if fits then
        r.Some? && Sound(r.value) && r.value.refs == h.refs[o.entry := Some(c)] && r.value.linked.Keys == h.linked.Keys
      else r.Some? ==> c !in r.value.linked
  {
    hide *;
    var t := o.temps[0];
    FirstUnused(h, o);
    SoundIsModular(h);
    OneMore(h, t, c);
    FirstMade(h, t, c);
    var h1, mid := Construct(h, t, Some(c)).value, Through(t, o.temps[1..], o.entry);
    InsertingIs(o, c);
    UnusedLater(h, h1, o, c);
    Counts(h.refs, t, c, c);
    ThroughIff(h1, t, o.temps[1..], o.entry, c);
    RunAppend(h, [PtrCtor(t, Some(c))], mid);
    RunAppend(h, [PtrCtor(t, Some(c))] + mid, [Destructor(t)]);
    var r := Run(h1, mid);
    DroppedLast(r, Destructor(t));
    TempDropped(h, h1, r, t, o.entry, c, |o.temps|);
    Landed(h, Run(h, Inserting(o, c)), o, c);
  }

  lemma FirstUnused(h: Heap, o: Objects)
    requires Unused(h, o) && o.temps != []
    ensures o.temps[0] !in h.refs
  {}

  lemma InsertingIs(o: Objects, c: Client)
    requires o.temps != []
    ensures Inserting(o, c) ==
      [PtrCtor(o.temps[0], Some(c))] + Through(o.temps[0], o.temps[1..], o.entry) + [Destructor(o.temps[0])]
  {}

  lemma FirstMade(h: Heap, t: Ref, c: Client)
    requires t !in h.refs && c in h.linked
    ensures Run(h, [PtrCtor(t, Some(c))]) == Construct(h, t, Some(c))
  {
    hide Construct;
    RunOne(h, PtrCtor(t, Some(c)));
  }

  lemma UnusedLater(h: Heap, h1: Heap, o: Objects, c: Client)
    requires Unused(h, o) && o.temps != [] && h1.refs == h.refs[o.temps[0] := Some(c)]
    ensures Unused(h1, Objects(o.temps[1..], o.entry)) && o.entry !in h.refs && o.entry != o.temps[0]
  {}

  lemma DroppedLast(r: Option<Heap>, op: Op)
    ensures AndThen(r, op) == match r case None => None case Some(h) => Run(h, [op])
  {}

  lemma Landed(h: Heap, r: Option<Heap>, o: Objects, c: Client)
    requires Sound(h) && c in h.linked && Unused(h, o) && o.temps != []
    requires Arrived(h, r, o.entry, c, Roomy(Count(h.refs, c), |o.temps|))
    ensures if Count(h.refs, c) + |o.temps| < UINT16_RANGE then
        r.Some? && Sound(r.value) && r.value.refs == h.refs[o.entry := Some(c)] && r.value.linked.Keys == h.linked.Keys
      else r.Some? ==> c !in r.value.linked
  {
    RoomyIff(Count(h.refs, c), |o.temps|);
    hide Count, Modular;
    if Count(h.refs, c) + |o.temps| < UINT16_RANGE {
      SoundInserted(h, r.value, o.entry, c);
    }
  }

  lemma SoundInserted(h: Heap, h': Heap, entry: Ref, c: Client)
    requires Sound(h) && c in h.linked && entry !in h.refs && Count(h.refs, c) + 1 < UINT16_RANGE
    requires Modular(h') && h'.refs == h.refs[entry := Some(c)] && h'.linked.Keys == h.linked.Keys
    ensures Sound(h')
  {
    SoundIsModular(h);
    SoundIsModular(h');
    forall d: Client ensures Count(h'.refs, d) == Count(h.refs, d) + if d == c then 1 else 0 {
      Counts(h.refs, entry, c, d);
    }
    hide Sound, Modular, Count;
  }
}
