// Runs of one credit record against any number of connections and an arbitrary network.
module SecureIdentRuns {
  import opened Arithmetic
  import opened LittleEndian
  import opened Strings
  import opened SecureIdent

  type Cid = nat

  // The record, the connections that use it, every challenge issued for it, and every message that the
  // holder of a key has signed so far.
  datatype State = State(cr: Credits, clients: map<Cid, Client>, issued: set<nat>, signed: set<(Bytes, Bytes)>)

  datatype Event =
    | Open(c: Cid, dest: nat, support: nat)
    | Moved(c: Cid, dest: nat)
    | Challenge(c: Cid, random: nat)
    | Deliver(c: Cid, p: Packet)
    | Signs(key: Bytes, message: Bytes)
    | Download(bytes: nat, ip: nat, cryptoavail: bool)
    | Upload(bytes: nat, ip: nat, cryptoavail: bool)

  function Next(sch: Scheme, me: Local, s: State, e: Event): State {
    match e
    case Open(c, dest, support) =>
      if c in s.clients then s else s.(clients := s.clients[c := Client(IS_UNAVAILABLE, 0, dest, support)])
    case Moved(c, dest) => if c in s.clients then s.(clients := s.clients[c := s.clients[c].(dest := dest)]) else s
    case Challenge(c, random) =>
      if c !in s.clients then s
      else
        var o := SendSecIdentState(me, s.cr, s.clients[c], random);
        s.(cr := o.cr, clients := s.clients[c := o.cl], issued := s.issued + if o.sent != [] then {random} else {})
    case Deliver(c, p) =>
      if c !in s.clients then s
      else
        var o := Receive(sch, me, s.cr, s.clients[c], p);
        s.(cr := o.cr, clients := s.clients[c := o.cl])
    case Signs(key, message) => s.(signed := s.signed + {(key, message)})
    case Download(bytes, ip, crypto) => s.(cr := AddDownloaded(s.cr, bytes, ip, crypto))
    case Upload(bytes, ip, crypto) => s.(cr := AddUploaded(s.cr, bytes, ip, crypto))
  }

  function Run(sch: Scheme, me: Local, s: State, es: seq<Event>): State {
    if es == [] then s else Next(sch, me, Run(sch, me, s, es[..|es| - 1]), es[|es| - 1])
  }

  // Ideal signatures: whatever arrives over the network, a signature that verifies for a key and a
  // message was made by the key's holder for that message.
  ghost predicate Unforgeable(sch: Scheme, s: State, e: Event) {
    e.Deliver? && e.p.op == OP_SIGNATURE && |e.p.data| > 0 && e.p.data[0] < |e.p.data| ==>
      forall key, message :: sch.verify(key, message, SignatureBytes(e.p.data)) ==> (key, message) in s.signed
  }

  predicate NonzeroChallenge(e: Event) {
    e.Challenge? ==> 0 < e.random < UINT32_RANGE
  }

  ghost predicate Lawful(sch: Scheme, me: Local, s: State, es: seq<Event>) {
    forall i :: 0 <= i < |es| ==> NonzeroChallenge(es[i]) && Unforgeable(sch, Run(sch, me, s, es[..i]), es[i])
  }

  // The holder of the stored key has signed our public key followed by a challenge issued for this record,
  // and in version 2 by the address the record was identified under.
  ghost predicate Proved(me: Local, s: State, challenge: nat, kind: byte) {
    challenge != 0 && challenge in s.issued &&
    (s.cr.stored, SignedMessage(me.publicKey, challenge, ChallengeIP(me, s.cr.identIP, kind), kind)) in s.signed
  }

  ghost predicate Authentic(me: Local, s: State) {
    && RecordSound(s.cr)
    && (s.cr.challengeFor != 0 ==> s.cr.challengeFor in s.issued)
    && (s.cr.state == IS_IDENTIFIED ==> exists challenge, kind :: Proved(me, s, challenge, kind))
  }

  predicate Grows(s: State, t: State) {
    s.issued <= t.issued && s.signed <= t.signed
  }

  lemma StaysProved(me: Local, s: State, t: State)
    requires Authentic(me, s) && Grows(s, t) && KeyKept(s.cr, t.cr)
    requires t.cr.state == IS_IDENTIFIED ==> s.cr.state == IS_IDENTIFIED && s.cr.identIP == t.cr.identIP
    requires RecordSound(t.cr) && (t.cr.challengeFor != 0 ==> t.cr.challengeFor in t.issued)
    ensures Authentic(me, t)
  {
    if t.cr.state == IS_IDENTIFIED {
      var challenge, kind :| Proved(me, s, challenge, kind);
      assert Proved(me, t, challenge, kind);
    }
  }

  // Outside of signature packets no step leads to identification.
  lemma OtherPackets(sch: Scheme, me: Local, cr: Credits, cl: Client, p: Packet)
    requires RecordSound(cr) && p.op != OP_SIGNATURE
    ensures var cr' := Receive(sch, me, cr, cl, p).cr;
      cr'.challengeFor == cr.challengeFor &&
      (cr'.state == IS_IDENTIFIED ==> cr.state == IS_IDENTIFIED && cr'.identIP == cr.identIP)
  {
    hide SendSignature;
    if p.op == OP_SECIDENTSTATE {
      var o := ProcessSecIdentState(cr, cl, p.data);
      SendSignatureKeeps(sch, me, o.cr, o.cl);
      var k := SendPublicKey(me, o.cr, o.cl);
      SendSignatureKeeps(sch, me, k.cr, k.cl);
    } else if |p.data| > 0 {
      SendSignatureKeeps(sch, me, SetSecureIdent(cr, p.data[1..]).0, cl);
    }
  }

  lemma SignatureStep(sch: Scheme, me: Local, s: State, c: Cid, p: Packet)
    requires Authentic(me, s) && c in s.clients && p.op == OP_SIGNATURE && Unforgeable(sch, s, Deliver(c, p))
    ensures Authentic(me, Next(sch, me, s, Deliver(c, p)))
  {
    var cl := s.clients[c];
    var t := Next(sch, me, s, Deliver(c, p));
    ProcessSignatureSound(sch, me, s.cr, cl, p.data);
    var kind := SignatureKind(cl, p.data);
    hide SignedMessage, ChallengeIP, SignatureKind;
    var o := ProcessSignature(sch, me, s.cr, cl, p.data);
    if o.cr.state == IS_IDENTIFIED && (s.cr.state != IS_IDENTIFIED || o.cr.identIP != s.cr.identIP) {
      VerifiedStep(sch, me, s, c, p, kind);
    } else {
      StaysProved(me, s, t);
    }
  }

  lemma VerifiedStep(sch: Scheme, me: Local, s: State, c: Cid, p: Packet, kind: int)
    requires Authentic(me, s) && c in s.clients && p.op == OP_SIGNATURE && Unforgeable(sch, s, Deliver(c, p))
    requires kind == SignatureKind(s.clients[c], p.data)
    requires var cr := ProcessSignature(sch, me, s.cr, s.clients[c], p.data).cr;
      cr.state == IS_IDENTIFIED && (s.cr.state != IS_IDENTIFIED || cr.identIP != s.cr.identIP)
    ensures Authentic(me, Next(sch, me, s, Deliver(c, p)))
  {
    var cl := s.clients[c];
    var t := Next(sch, me, s, Deliver(c, p));
    assert kind >= 0;
    var sig := SignatureBytes(p.data);
    var message := SignedMessage(me.publicKey, s.cr.challengeFor, ChallengeIP(me, cl.dest, kind), kind);
    hide SignedMessage, ChallengeIP;
    assert sch.verify(s.cr.working, message, sig);
    assert t.cr.stored == s.cr.working && t.cr.identIP == cl.dest;
    assert Proved(me, t, s.cr.challengeFor, kind);
  }

  lemma NextAuthentic(sch: Scheme, me: Local, s: State, e: Event)
    requires Authentic(me, s) && NonzeroChallenge(e) && Unforgeable(sch, s, e)
    ensures Authentic(me, Next(sch, me, s, e)) && KeyKept(s.cr, Next(sch, me, s, e).cr)
  {
    var t := Next(sch, me, s, e);
    if e.Deliver? && e.c in s.clients {
      ReceiveSound(sch, me, s.cr, s.clients[e.c], e.p);
      hide Receive;
      if e.p.op == OP_SIGNATURE {
        SignatureStep(sch, me, s, e.c, e.p);
      } else {
        OtherPackets(sch, me, s.cr, s.clients[e.c], e.p);
        StaysProved(me, s, t);
      }
    } else {
      hide Receive;
      StaysProved(me, s, t);
    }
  }

  // ---- What whoever stores a key can take over ----

  // The bytes credited while a key was stored.
  function Credited(sch: Scheme, me: Local, s: State, es: seq<Event>): nat {
    if es == [] then 0
    else
      var n := |es| - 1;
      var before, e := Run(sch, me, s, es[..n]).cr, es[n];
      Credited(sch, me, s, es[..n]) +
      if e.Download? && before.stored != [] && Trusted(before, e.ip, e.cryptoavail) then e.bytes else 0
  }

  lemma NextTotal(sch: Scheme, me: Local, s: State, e: Event)
    ensures var cr, t := s.cr, Next(sch, me, s, e).cr;
      if e.Download? then t.downloaded == cr.downloaded + if Trusted(cr, e.ip, e.cryptoavail) then e.bytes else 0
      else if e.Upload? then t.downloaded == cr.downloaded
      else CreditsReset(cr, t)
    ensures e.Download? || e.Upload? ==> Next(sch, me, s, e).cr.stored == s.cr.stored
  {
    if e.Deliver? && e.c in s.clients {
      ReceiveResets(sch, me, s.cr, s.clients[e.c], e.p);
    } else if e.Download? {
      TrustedIsNotRefused(s.cr, e.ip, e.cryptoavail);
    }
    hide Receive;
  }

  // Whatever was credited before: once a key is stored, the record holds at most a byte more than what has been
  // credited since, and with it a stored key never goes away.
  lemma {:induction false} RunResets(sch: Scheme, me: Local, s: State, es: seq<Event>)
    requires Authentic(me, s) && Lawful(sch, me, s, es) && s.cr.stored == []
    ensures var t := Run(sch, me, s, es);
      if t.cr.stored != [] then Credited(sch, me, s, es) <= t.cr.downloaded <= 1 + Credited(sch, me, s, es)
      else Credited(sch, me, s, es) == 0
    decreases |es|
  {
    if es != [] {
      var n := |es| - 1;
      LawfulPrefix(sch, me, s, es);
      RunAuthentic(sch, me, s, es[..n]);
      RunResets(sch, me, s, es[..n]);
      var t := Run(sch, me, s, es[..n]);
      hide Authentic, Lawful, Next;
      NextTotal(sch, me, t, es[n]);
      NextKeepsKey(sch, me, s, es);
    }
  }

  lemma LawfulPrefix(sch: Scheme, me: Local, s: State, es: seq<Event>)
    requires es != [] && Lawful(sch, me, s, es)
    ensures Lawful(sch, me, s, es[..|es| - 1])
  {
    var n := |es| - 1;
    forall i | 0 <= i < n
      ensures NonzeroChallenge(es[..n][i]) && Unforgeable(sch, Run(sch, me, s, es[..n][..i]), es[..n][i])
    {
      assert es[..n][..i] == es[..i];
    }
  }

  lemma NextKeepsKey(sch: Scheme, me: Local, s: State, es: seq<Event>)
    requires es != [] && Lawful(sch, me, s, es) && Authentic(me, Run(sch, me, s, es[..|es| - 1]))
    ensures KeyKept(Run(sch, me, s, es[..|es| - 1]).cr, Run(sch, me, s, es).cr)
  {
    NextAuthentic(sch, me, Run(sch, me, s, es[..|es| - 1]), es[|es| - 1]);
  }

  function Initial(uploaded: nat, downloaded: nat, stored: Bytes): State {
    State(InitalizeIdent(uploaded, downloaded, stored), map[], {}, {})
  }

  // Safety over whole runs, with any interleaving of connections, packets and key holders.
  lemma {:induction false} RunAuthentic(sch: Scheme, me: Local, s: State, es: seq<Event>)
    requires Authentic(me, s) && Lawful(sch, me, s, es)
    ensures Authentic(me, Run(sch, me, s, es)) && KeyKept(s.cr, Run(sch, me, s, es).cr)
    decreases |es|
  {
    if es != [] {
      var n := |es| - 1;
      LawfulPrefix(sch, me, s, es);
      RunAuthentic(sch, me, s, es[..n]);
      NextAuthentic(sch, me, Run(sch, me, s, es[..n]), es[n]);
    }
  }

  // From a record as it is loaded or created: identified means that the holder of the stored key, which is
  // the key the record was loaded with if it had one, answered one of our challenges.
  lemma IdentifiedMeansSigned(sch: Scheme, me: Local, uploaded: nat, downloaded: nat, stored: Bytes, es: seq<Event>)
    requires |stored| <= MAXPUBKEYSIZE && Lawful(sch, me, Initial(uploaded, downloaded, stored), es)
    ensures var s := Run(sch, me, Initial(uploaded, downloaded, stored), es);
      s.cr.state == IS_IDENTIFIED ==>
        s.cr.working == s.cr.stored != [] && (stored != [] ==> s.cr.stored == stored) &&
        exists challenge, kind :: Proved(me, s, challenge, kind)
  {
    RunAuthentic(sch, me, Initial(uploaded, downloaded, stored), es);
  }
}
