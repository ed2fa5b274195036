// The clients of one user hash, all of which share one credit record, and whole runs over them.
module IdentSessions {
  import opened LittleEndian
  import opened SecureIdent
  import opened SecureIdentRuns
  import opened ClientCredits

  class CSessions {
    var record: CClientCredits
    var clients: map<Cid, CUpDownClient>
    ghost var issued: set<nat>
    ghost var signed: set<(Bytes, Bytes)>

    // Every client object is listed once and uses the record.
    ghost predicate Shared()
      reads this, clients.Values
    {
      (forall c :: c in clients ==> clients[c].credits == record) &&
      (forall c, d :: c in clients && d in clients && c != d ==> clients[c] != clients[d])
    }

    ghost function Connections(): map<Cid, Client>
      reads this, clients.Values
    {
      map c | c in clients :: clients[c].Connection()
    }

    ghost function State(): State
      reads this, record, clients.Values
    {
      SecureIdentRuns.State(record.Record(), Connections(), issued, signed)
    }

    constructor (uploaded: nat, downloaded: nat, key: Bytes)
      ensures Shared() && State() == Initial(uploaded, downloaded, key) && fresh(record)
    {
      record := new CClientCredits(uploaded, downloaded, key);
      clients, issued, signed := map[], {}, {};
    }

    method Open(c: Cid, dest: nat, support: nat)
      requires Shared() && c !in clients
      modifies this
      ensures Shared() && record == old(record) && issued == old(issued) && signed == old(signed)
      ensures c in clients && fresh(clients[c]) && clients == old(clients)[c := clients[c]]
      ensures Connections() == old(Connections())[c := Client(IS_UNAVAILABLE, 0, dest, support)]
    {
      var client := new CUpDownClient(record, dest, support);
      clients := clients[c := client];
    }

    // Whatever a method of the client c does to the client and the record, the other clients stay as they are.
    twostate lemma OneChanged(c: Cid, new cl: Client)
      requires old(Shared()) && c in clients && clients == old(clients) && record == old(record)
      requires clients[c].Connection() == cl && clients[c].credits == record
      requires forall d :: d in clients && d != c ==> unchanged(clients[d])
      ensures Shared() && Connections() == old(Connections())[c := cl]
    {}

    // The client asks for identification; the challenge counts as issued once it has been sent.
    method Challenge(sch: Scheme, me: Local, c: Cid, random: nat)
      requires Shared() && c in clients
      modifies this, record, clients.Values
      ensures Shared() && record == old(record) && clients == old(clients)
      ensures State() == Next(sch, me, old(State()), Event.Challenge(c, random))
    {
      hide SendSecIdentState;
      ghost var o := SendSecIdentState(me, record.Record(), clients[c].Connection(), random);
      issued := issued + if o.sent != [] then {random} else {};
      clients[c].SendSecIdentStatePacket(me, random);
      OneChanged(c, o.cl);
    }

    method Deliver(sch: Scheme, me: Local, c: Cid, p: Packet)
      requires Shared() && c in clients
      modifies this, record, clients.Values
      ensures Shared() && record == old(record) && clients == old(clients)
      ensures State() == Next(sch, me, old(State()), Event.Deliver(c, p))
    {
      hide Receive;
      clients[c].ProcessExtPacket(sch, me, p);
      OneChanged(c, clients[c].Connection());
    }

    method Do(sch: Scheme, me: Local, e: Event)
      requires Shared()
      modifies this, record, clients.Values
      ensures Shared() && record == old(record) && State() == Next(sch, me, old(State()), e)
      ensures forall c :: c in clients ==> clients[c] in old(clients.Values) || fresh(clients[c])
    {
      hide SendSecIdentState, Receive, AddDownloaded, AddUploaded;
      match e
      case Open(c, dest, support) =>
        if c !in clients {
          Open(c, dest, support);
        }
      case Moved(c, dest) =>
        if c in clients {
          clients[c].m_nTCPDest := dest;
          OneChanged(c, clients[c].Connection());
        }
      case Challenge(c, random) =>
        if c in clients {
          Challenge(sch, me, c, random);
        }
      case Deliver(c, p) =>
        if c in clients {
          Deliver(sch, me, c, p);
        }
      case Signs(key, message) =>
        signed := signed + {(key, message)};
      case Download(bytes, ip, cryptoavail) =>
        record.AddDownloaded(bytes, ip, cryptoavail);
      case Upload(bytes, ip, cryptoavail) =>
        record.AddUploaded(bytes, ip, cryptoavail);
    }

    // Over every lawful run, a record that is identified was signed for by the holder of the key it stores, and
    // a stored key stays.
    method Run(sch: Scheme, me: Local, es: seq<Event>)
      requires Shared() && Authentic(me, State()) && Lawful(sch, me, State(), es)
      modifies this, record, clients.Values
      ensures Shared() && record == old(record) && State() == SecureIdentRuns.Run(sch, me, old(State()), es)
      ensures Authentic(me, State()) && KeyKept(old(record.Record()), record.Record())
      ensures old(record.abySecureIdent) == [] && record.abySecureIdent != [] ==>
        record.downloaded <= 1 + Credited(sch, me, old(State()), es)
    {
      var i := 0;
      while i < |es|
        invariant i <= |es| && Shared() && record == old(record)
        invariant forall c :: c in clients ==> clients[c] in old(clients.Values) || fresh(clients[c])
        invariant State() == SecureIdentRuns.Run(sch, me, old(State()), es[..i])
      {
        hide Next, Authentic, Lawful;
        assert es[..i + 1][..i] == es[..i];
        Do(sch, me, es[i]);
        i := i + 1;
      }
      assert es[..|es|] == es;
      hide SecureIdentRuns.Run;
      RunAuthentic(sch, me, old(State()), es);
      if old(record.abySecureIdent) == [] {
        hide Credited;
        RunResets(sch, me, old(State()), es);
      }
    }
  }
}
