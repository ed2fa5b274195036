// CClientRef and the counters of CUpDownClient as they are updated in place.
module ClientRefs {
  import opened Arithmetic
  import opened Options
  import opened RefCount

  lemma DropUpdated(refs: map<Ref, Option<Client>>, r: Ref)
    requires r in refs
    ensures refs[r := None] - {r} == refs - {r}
  {}

  lemma LinkParts(before: Heap, unlinked: Heap, r: Ref, client: Option<Client>)
    requires r in before.refs && Unlink(before, r) == Some(unlinked) && unlinked.refs == before.refs[r := None]
    ensures client.None? ==> Link(before, r, client) == Some(unlinked) && unlinked.refs[r := None] == unlinked.refs
    ensures client.Some? ==> Link(before, r, client) == SetRef(unlinked, r, client.value)
    ensures unlinked.refs[r := client] == before.refs[r := client]
    ensures unlinked.linked.Keys <= before.linked.Keys
  {}

  // The references and clients of a process.
  class CClientRefs {
    var m_client: map<Ref, Option<Client>>
    var m_linked: map<Client, nat>
    var dying: set<Client>

    function State(): Heap
      reads this
    {
      Heap(m_client, m_linked, dying)
    }

    // Every m_linked is the number of references to its client, and no reference dangles.
    ghost predicate Valid()
      reads this
    {
      Sound(State())
    }

    // Nothing was freed but the clients whose last reference went, and all of those were.
    ghost predicate FreedFrom(before: Heap)
      reads this
    {
      FreedAtZero(before, State()) && m_linked.Keys <= before.linked.Keys
    }

    constructor ()
      ensures Valid() && State() == Heap(map[], map[], {})
    {
      m_client, m_linked, dying := map[], map[], {};
    }

    method NewClient(c: Client)
      requires Valid() && c !in m_linked
      modifies this
      ensures Valid() && Some(State()) == Step(old(State()), Op.NewClient(c))
      ensures m_linked.Keys == old(m_linked.Keys) + {c} && m_linked[c] == 0 && c !in dying
    {
      NewClientSound(State(), c);
      m_linked := m_linked[c := 0];
      dying := dying - {c};
    }

    // CUpDownClient::Link: m_linked++.
    method LinkClient(c: Client)
      requires c in m_linked
      modifies `m_linked
      ensures m_linked == Increment(old(m_linked), c)
    {
      m_linked := m_linked[c := (m_linked[c] + 1) % UINT16_RANGE];
    }

    // CUpDownClient::Unlink: m_linked--, and the client deletes itself at zero.
    method UnlinkClient(c: Client)
      requires c in m_linked
      modifies `m_linked
      ensures m_linked == Decrement(old(m_linked), c)
    {
      m_linked := m_linked[c := (m_linked[c] + UINT16_RANGE - 1) % UINT16_RANGE];
      if m_linked[c] == 0 {
        m_linked := m_linked - {c};
      }
      assert m_linked == Decrement(old(m_linked), c);
    }

    // The two constructors; the copy constructor passes the other reference's client.
    method Create(r: Ref, client: Option<Client>)
      requires Valid() && r !in m_client
      requires client.Some? ==> client.value in m_linked
      requires Room(State(), client)
      modifies this
      ensures Valid() && FreedFrom(old(State())) && Some(State()) == Construct(old(State()), r, client)
      ensures m_client == old(m_client)[r := client] && m_linked.Keys == old(m_linked.Keys) && dying == old(dying)
    {
      ConstructSound(State(), r, client);
      m_client := m_client[r := client];
      if client.Some? {
        LinkClient(client.value);
      }
    }

    method UnlinkRef(r: Ref)
      requires Valid() && r in m_client
      modifies this
      ensures Valid() && FreedFrom(old(State())) && Some(State()) == Unlink(old(State()), r)
      ensures m_client == old(m_client)[r := None] && dying == old(dying)
    {
      UnlinkFreed(State(), r);
      assert m_client[r].None? ==> m_client[r := None] == m_client;
      if m_client[r].Some? {
        UnlinkClient(m_client[r].value);
        m_client := m_client[r := None];
      }
    }

    // CClientRef::Link and, with the other reference's client, operator=.
    method LinkRef(r: Ref, client: Option<Client>)
      requires Valid() && r in m_client
      requires client.Some? ==> client.value in m_linked
      requires Relinkable(State(), r, client)
      modifies this
      ensures Valid() && FreedFrom(old(State())) && Some(State()) == Link(old(State()), r, client)
      ensures m_client == old(m_client)[r := client] && dying == old(dying)
    {
      ghost var before := State();
      LinkFreed(before, r, client);
      hide Sound, FreedAtZero, Relinkable;
      UnlinkRef(r);
      ghost var unlinked := State();
      LinkParts(before, unlinked, r, client);
      hide Unlink, Link;
      m_client := m_client[r := client];
      if client.Some? {
        LinkClient(client.value);
      }
    }

    method DestroyRef(r: Ref)
      requires Valid() && r in m_client
      modifies this
      ensures Valid() && FreedFrom(old(State())) && Some(State()) == Destroy(old(State()), r)
      ensures m_client == old(m_client) - {r} && dying == old(dying)
    {
      ghost var before := State();
      DestroySound(before, r);
      hide Sound, FreedAtZero;
      UnlinkRef(r);
      hide Unlink;
      DropUpdated(before.refs, r);
      m_client := m_client - {r};
      assert Some(State()) == Destroy(before, r);
    }

    method SwapRefs(a: Ref, b: Ref)
      requires Valid() && a in m_client && b in m_client
      modifies `m_client
      ensures Valid() && FreedFrom(old(State())) && State() == Swap(old(State()), a, b)
      ensures m_client.Keys == old(m_client.Keys) && m_client[a] == old(m_client[b]) && m_client[b] == old(m_client[a])
    {
      SwapFreed(State(), a, b);
      var c := m_client[a];
      m_client := m_client[a := m_client[b]];
      m_client := m_client[b := c];
    }

    method Checked(r: Ref) returns (client: Option<Client>)
      requires Valid() && r in m_client
      modifies this
      ensures Valid() && FreedFrom(old(State())) && Some(State()) == GetClientChecked(old(State()), r)
      ensures r in m_client && client == m_client[r]
      ensures client.Some? ==> client.value in m_linked && client.value !in dying
      ensures client.None? ==> old(m_client[r].Some? ==> m_client[r].value in dying)
    {
      UnlinkFreed(State(), r);
      SameFreed(State());
      if m_client[r].Some? && m_client[r].value in dying {
        UnlinkClient(m_client[r].value);
        m_client := m_client[r := None];
      }
      client := m_client[r];
    }

    // The client goes on living, marked, under its other references.
    method SafeDeleteRef(r: Ref)
      requires Valid() && r in m_client
      requires m_client[r].Some? ==> Count(m_client, m_client[r].value) != 1
      modifies this
      ensures Valid() && FreedFrom(old(State())) && Some(State()) == SafeDelete(old(State()), r)
      ensures m_client == old(m_client)[r := None] && m_linked.Keys == old(m_linked.Keys)
      ensures dying == old(dying) + if old(m_client[r]).Some? then {old(m_client[r]).value} else {}
    {
      SafeDeleteSound(State(), r);
      hide Sound, FreedAtZero, Count;
      var client := m_client[r];
      assert client.None? ==> m_client[r := None] == m_client;
      if client.Some? {
        UnlinkRef(r);
        dying := dying + {client.value};
      }
    }

    method Do(op: Op)
      requires Valid() && WellPosed(State(), op) && Safe(State(), op)
      modifies this
      ensures Valid() && Some(State()) == Step(old(State()), op)
    {
      match op
      case NewClient(c) => NewClient(c);
      case PtrCtor(r, t) => Create(r, t);
      case CopyCtor(r, from) => Create(r, m_client[from]);
      case LinkTo(r, t) => LinkRef(r, t);
      case Assign(r, from) => LinkRef(r, m_client[from]);
      case UnlinkRef(r) => UnlinkRef(r);
      case Destructor(r) => DestroyRef(r);
      case SwapRefs(a, b) => SwapRefs(a, b);
      case GetChecked(r) => var client := Checked(r);
      case SafeDeleteRef(r) => SafeDeleteRef(r);
    }

    // Over every run whose operations meet their conditions, no freed client is touched, every count is the
    // number of references, and no reference dangles.
    method Run(ops: seq<Op>)
      requires Valid() && SafeRun(State(), ops)
      modifies this
      ensures Valid() && Some(State()) == RefCount.Run(old(State()), ops)
    {
      var i := 0;
      while i < |ops|
        invariant i <= |ops| && Valid() && SafeRun(State(), ops[i..])
        invariant RefCount.Run(State(), ops[i..]) == RefCount.Run(old(State()), ops)
      {
        hide Sound, Step, Safe, WellPosed;
        assert ops[i..][0] == ops[i] && ops[i..][1..] == ops[i + 1..];
        Do(ops[i]);
        i := i + 1;
      }
    }
  }
}
