// Two processes that both run the code of this repository identify each other, whatever the timing.
module HonestExchange {
  import opened Arithmetic
  import opened LittleEndian
  import opened Strings
  import opened SecureIdent
  import Protocol = ExchangeProtocol

  // One process as far as the other is concerned: what it knows of itself, and the record and connection
  // it keeps for the other.
  datatype End = End(me: Local, cr: Credits, cl: Client)

  // The two processes, whether each has asked on this connection, and the packets on their way from x to y
  // and from y to x, oldest first.
  datatype Net = Net(x: End, y: End, askedX: bool, askedY: bool, toY: seq<Packet>, toX: seq<Packet>)

  datatype Move = StartX(random: nat) | StartY(random: nat) | DeliverX | DeliverY

  function StartEnd(e: End, random: nat): (End, seq<Packet>) {
    var o := SendSecIdentState(e.me, e.cr, e.cl, random);
    (e.(cr := o.cr, cl := o.cl), o.sent)
  }

  function ReceiveEnd(sch: Scheme, e: End, p: Packet): (End, seq<Packet>) {
    var o := Receive(sch, e.me, e.cr, e.cl, p);
    (e.(cr := o.cr, cl := o.cl), o.sent)
  }

  // Each side starts at most once per connection; otherwise the moves come in any order.
  function Next(sch: Scheme, n: Net, m: Move): Net {
    match m
    case StartX(random) =>
      if n.askedX then n
      else var (x, out) := StartEnd(n.x, random); n.(x := x, askedX := true, toY := n.toY + out)
    case StartY(random) =>
      if n.askedY then n
      else var (y, out) := StartEnd(n.y, random); n.(y := y, askedY := true, toX := n.toX + out)
    case DeliverX =>
      if n.toX == [] then n
      else var (x, out) := ReceiveEnd(sch, n.x, n.toX[0]); n.(x := x, toX := n.toX[1..], toY := n.toY + out)
    case DeliverY =>
      if n.toY == [] then n
      else var (y, out) := ReceiveEnd(sch, n.y, n.toY[0]); n.(y := y, toY := n.toY[1..], toX := n.toX + out)
  }

  function Run(sch: Scheme, n: Net, moves: seq<Move>): Net {
    if moves == [] then n else Next(sch, Run(sch, n, moves[..|moves| - 1]), moves[|moves| - 1])
  }

  // ---- The bytes of each message ----

  ghost predicate Ideal(sch: Scheme) {
    forall key, message ::
      sch.verify(key, message, sch.sign(key, message)) && 1 <= |sch.sign(key, message)| <= 248
  }

  function Kind(from: End): byte {
    if from.cl.support % 2 == 1 then 0 else CRYPT_CIP_LOCALCLIENT
  }

  function Address(from: End): nat {
    if from.cl.support % 2 == 1 then 0 else from.me.publicDest
  }

  function Signature(sch: Scheme, from: End, to: End, challenge: nat): Bytes {
    sch.sign(from.me.publicKey, SignedMessage(to.me.publicKey, challenge, Address(from), Kind(from)))
  }

  // A protocol message as `from` puts it on the wire to `to`.
  function Encode(sch: Scheme, from: End, to: End, m: Protocol.Msg): Packet
    requires Ideal(sch) && |from.me.publicKey| <= MAXPUBKEYSIZE
  {
    match m
    case MState(keyWanted, n) =>
      Packet(OP_SECIDENTSTATE, [if keyWanted then IS_KEYANDSIGNEEDED else IS_SIGNATURENEEDED] + Poke32(n))
    case MKey => Packet(OP_PUBLICKEY, [|from.me.publicKey|] + from.me.publicKey)
    case MSig(n) =>
      var sig := Signature(sch, from, to, n);
      Packet(OP_SIGNATURE, [|sig|] + sig + if Kind(from) != 0 then [Kind(from)] else [])
  }

  function EncodeAll(sch: Scheme, from: End, to: End, msgs: seq<Protocol.Msg>): (r: seq<Packet>)
    requires Ideal(sch) && |from.me.publicKey| <= MAXPUBKEYSIZE
    ensures |r| == |msgs|
  {
    if msgs == [] then [] else [Encode(sch, from, to, msgs[0])] + EncodeAll(sch, from, to, msgs[1..])
  }

  lemma {:induction false} EncodeAppend(sch: Scheme, from: End, to: End, a: seq<Protocol.Msg>, b: seq<Protocol.Msg>)
    requires Ideal(sch) && |from.me.publicKey| <= MAXPUBKEYSIZE
    ensures EncodeAll(sch, from, to, a + b) == EncodeAll(sch, from, to, a) + EncodeAll(sch, from, to, b)
  {
    if a == [] {
      assert a + b == b;
    } else {
      EncodeAppend(sch, from, to, a[1..], b);
      assert (a + b)[1..] == a[1..] + b;
    }
  }

  lemma {:induction false} EncodeSame(sch: Scheme, from: End, to: End, from': End, to': End, msgs: seq<Protocol.Msg>)
    requires Ideal(sch) && |from.me.publicKey| <= MAXPUBKEYSIZE
    requires SameEnd(from, from') && SameEnd(to, to')
    ensures EncodeAll(sch, from, to, msgs) == EncodeAll(sch, from', to', msgs)
  {
    if msgs != [] {
      EncodeSame(sch, from, to, from', to', msgs[1..]);
    }
  }

  // The setting: keys of the usual size, real addresses, and, where the signer uses version 2, a verifier
  // that takes it and sees the signer under the signer's public address.
  predicate Setting(from: End, to: End) {
    && CryptoAvailable(from.me) && 0 < |from.me.publicKey| <= MAXPUBKEYSIZE
    && from.cl.dest != 0
    && (from.cl.support % 2 != 1 ==> to.cl.support / 2 % 2 == 1 && to.cl.dest == from.me.publicDest)
  }

  // The process's fields against the protocol's view of them. Until a challenge has been issued or received
  // on this connection, the record may still hold those of earlier connections.
  ghost predicate Shows(e: End, peer: End, s: Protocol.Side) {
    && RecordSound(e.cr)
    && s.key == (e.cr.working != [])
    && (s.key ==> e.cr.working == peer.me.publicKey)
    && (s.challenge != 0 ==> s.challenge == e.cr.challengeFor)
    && (s.received != 0 ==> s.received == e.cr.challengeFrom)
    && (s.owes ==> s.received != 0)
    && s.challenge < UINT32_RANGE
    && e.cl.secState == (if s.owes then IS_SIGNATURENEEDED else IS_UNAVAILABLE)
    && s.done == (e.cl.lastSignature == e.cl.dest)
    && (s.done ==> Identified(e, peer))
  }

  // The record is identified, with the peer's key, at the address the peer is seen under.
  ghost predicate Identified(e: End, peer: End) {
    e.cr.stored == e.cr.working == peer.me.publicKey && GetCurrentIdentState(e.cr, e.cl.dest) == IS_IDENTIFIED
  }

  // The parts of a process that never change.
  predicate SameEnd(a: End, b: End) {
    a.me == b.me && a.cl.dest == b.cl.dest && a.cl.support == b.cl.support
  }

  // ---- Each handler does what the protocol says ----

  lemma StartShows(e: End, peer: End, s: Protocol.Side, sch: Scheme, random: nat)
    requires Ideal(sch) && Setting(e, peer) && Shows(e, peer, s) && !s.done && 0 < random < UINT32_RANGE
    ensures var (e', out) := StartEnd(e, random);
      var (s', msgs) := Protocol.Start(s, random);
      Shows(e', peer, s') && SameEnd(e, e') && out == EncodeAll(sch, e, peer, msgs)
  {
    assert Protocol.Start(s, random).1[1..] == [];
  }

  // What SendSignature sends is what TrySign says.
  lemma SignShows(e: End, peer: End, s: Protocol.Side, sch: Scheme)
    requires Ideal(sch) && Setting(e, peer) && Shows(e, peer, s)
    ensures var o := SendSignature(sch, e.me, e.cr, e.cl);
      var (s', msgs) := Protocol.TrySign(s);
      Shows(End(e.me, o.cr, o.cl), peer, s') && SameEnd(e, End(e.me, o.cr, o.cl)) &&
      o.sent == EncodeAll(sch, e, peer, msgs)
  {
    hide SignedMessage;
    if s.owes && s.key && s.received != 0 {
      var sig := Signature(sch, e, peer, s.received);
      assert sch.verify(e.me.publicKey, SignedMessage(peer.me.publicKey, s.received, Address(e), Kind(e)), sig);
      assert CreateSignature(sch, e.me, e.cr, Address(e), Kind(e)) == sig;
      assert [Protocol.MSig(s.received)][1..] == [];
    }
  }

  lemma StateShows(e: End, peer: End, s: Protocol.Side, sch: Scheme, m: Protocol.Msg)
    requires Ideal(sch) && Setting(e, peer) && Setting(peer, e) && Shows(e, peer, s)
    requires m.MState? && 0 < m.challenge < UINT32_RANGE
    ensures var (e', out) := ReceiveEnd(sch, e, Encode(sch, peer, e, m));
      var (s', msgs) := Protocol.Receive(s, m);
      Shows(e', peer, s') && SameEnd(e, e') && out == EncodeAll(sch, e, peer, msgs)
  {
    var p := Encode(sch, peer, e, m);
    PokePeek(m.challenge);
    assert p.data[1..] == Poke32(m.challenge);
    hide Peek32, Poke32, SendSignature;
    var o := ProcessSecIdentState(e.cr, e.cl, p.data);
    var asked := End(e.me, o.cr, o.cl.(secState := IS_SIGNATURENEEDED));
    var s1 := s.(received := m.challenge, owes := true);
    assert Shows(asked, peer, s1);
    SignShows(asked, peer, s1, sch);
    hide Protocol.TrySign, Encode;
    var msgs := Protocol.TrySign(s1).1;
    EncodeSame(sch, e, peer, asked, peer, msgs);
    if m.keyWanted {
      assert EncodeAll(sch, e, peer, [Protocol.MKey] + msgs) ==
        [Encode(sch, e, peer, Protocol.MKey)] + EncodeAll(sch, e, peer, msgs) by {
        assert ([Protocol.MKey] + msgs)[1..] == msgs;
      }
      KeyPacket(e, peer, o, sch);
    } else {
      assert [] + msgs == msgs;
    }
  }

  lemma KeyPacket(e: End, peer: End, o: Out, sch: Scheme)
    requires Ideal(sch) && Setting(e, peer) && o.cl.secState == IS_KEYANDSIGNEEDED
    ensures SendPublicKey(e.me, o.cr, o.cl) ==
      Out(o.cr, o.cl.(secState := IS_SIGNATURENEEDED), [Encode(sch, e, peer, Protocol.MKey)])
  {}

  lemma KeyShows(e: End, peer: End, s: Protocol.Side, sch: Scheme)
    requires Ideal(sch) && Setting(e, peer) && Setting(peer, e) && Shows(e, peer, s) && !s.key
    ensures var (e', out) := ReceiveEnd(sch, e, Encode(sch, peer, e, Protocol.MKey));
      var (s', msgs) := Protocol.Receive(s, Protocol.MKey);
      Shows(e', peer, s') && SameEnd(e, e') && out == EncodeAll(sch, e, peer, msgs)
  {
    var p := Encode(sch, peer, e, Protocol.MKey);
    assert p.data[1..] == peer.me.publicKey;
    hide SendSignature;
    var cr' := SetSecureIdent(e.cr, peer.me.publicKey).0;
    var keyed := End(e.me, cr', e.cl);
    var s1 := s.(key := true);
    assert Shows(keyed, peer, s1);
    SignShows(keyed, peer, s1, sch);
    EncodeSame(sch, e, peer, keyed, peer, Protocol.TrySign(s1).1);
  }

  // Both sides build the same string.
  lemma SameString(from: End, to: End, n: nat)
    requires Setting(from, to)
    ensures SignedMessage(to.me.publicKey, n, Address(from), Kind(from))
      == SignedMessage(to.me.publicKey, n, ChallengeIP(to.me, to.cl.dest, Kind(from)), Kind(from))
  {}

  lemma SignaturePacket(from: End, to: End, sch: Scheme, n: nat)
    requires Ideal(sch) && Setting(from, to)
    ensures var p := Encode(sch, from, to, Protocol.MSig(n));
      |p.data| > 0 && p.data[0] < |p.data| &&
      SignatureKind(to.cl, p.data) == Kind(from) && SignatureBytes(p.data) == Signature(sch, from, to, n)
  {
    var sig := Signature(sch, from, to, n);
    assert sch.verify(from.me.publicKey, SignedMessage(to.me.publicKey, n, Address(from), Kind(from)), sig);
    hide SignedMessage;
    var tail: Bytes := if Kind(from) != 0 then [Kind(from)] else [];
    var data := [|sig|] + sig + tail;
    assert data[1..1 + |sig|] == sig;
  }

  lemma SignatureShows(e: End, peer: End, s: Protocol.Side, sch: Scheme, n: nat)
    requires Ideal(sch) && Setting(e, peer) && Setting(peer, e) && Shows(e, peer, s)
    requires s.key && !s.done && n == s.challenge != 0
    ensures var (e', out) := ReceiveEnd(sch, e, Encode(sch, peer, e, Protocol.MSig(n)));
      var (s', msgs) := Protocol.Receive(s, Protocol.MSig(n));
      Shows(e', peer, s') && SameEnd(e, e') && out == EncodeAll(sch, e, peer, msgs)
  {
    SameString(peer, e, n);
    SignaturePacket(peer, e, sch, n);
    var p := Encode(sch, peer, e, Protocol.MSig(n));
    var sig := Signature(sch, peer, e, n);
    assert sch.verify(peer.me.publicKey, SignedMessage(e.me.publicKey, n, Address(peer), Kind(peer)), sig);
    hide SignedMessage, ChallengeIP, SignatureKind, SignatureBytes;
    assert p.op == OP_SIGNATURE;
    hide Encode;
    assert VerifyIdent(sch, e.me, e.cr, sig, e.cl.dest, Kind(peer)) == Verified(e.cr, e.cl.dest);
  }

  // ---- The whole system ----

  ghost predicate Related(sch: Scheme, n: Net, p: Protocol.Pair) {
    && Ideal(sch) && Setting(n.x, n.y) && Setting(n.y, n.x)
    && Shows(n.x, n.y, p.x) && Shows(n.y, n.x, p.y)
    && n.toY == EncodeAll(sch, n.x, n.y, p.toY) && n.toX == EncodeAll(sch, n.y, n.x, p.toX)
    && n.askedX == (p.x.challenge != 0) && n.askedY == (p.y.challenge != 0)
    && Protocol.Inv(p)
  }

  function Flip(n: Net): Net {
    Net(n.y, n.x, n.askedY, n.askedX, n.toX, n.toY)
  }

  // Replacing a process by its successor, which has sent `out`, keeps the relation.
  lemma Replace(sch: Scheme, n: Net, p: Protocol.Pair, y: End, sy: Protocol.Side,
                rest: seq<Protocol.Msg>, out: seq<Protocol.Msg>)
    requires Related(sch, n, p) && SameEnd(n.y, y) && Shows(y, n.x, sy)
    requires Protocol.Inv(Protocol.Pair(p.x, sy, rest, p.toX + out))
    ensures Related(sch,
      Net(n.x, y, n.askedX, sy.challenge != 0, EncodeAll(sch, n.x, n.y, rest), n.toX + EncodeAll(sch, n.y, n.x, out)),
      Protocol.Pair(p.x, sy, rest, p.toX + out))
  {
    EncodeSame(sch, n.x, n.y, n.x, y, rest);
    EncodeSame(sch, n.y, n.x, y, n.x, p.toX + out);
    EncodeAppend(sch, n.y, n.x, p.toX, out);
    hide EncodeAll, Protocol.Inv, RecordSound;
  }

  lemma HeadChallenge(p: Protocol.Pair)
    requires Protocol.Inv(p) && p.toY != [] && p.toY[0].MState?
    ensures p.toY[0].challenge == p.x.challenge
  {
    Protocol.DrainedGrows(p.toY[1..], Protocol.Absorb(p.y, p.toY[0]));
  }

  lemma Delivered(sch: Scheme, n: Net, p: Protocol.Pair)
    requires Related(sch, n, p) && n.toY != [] && p.toY != []
    requires n.toY[0] == Encode(sch, n.x, n.y, p.toY[0]) && n.toY[1..] == EncodeAll(sch, n.x, n.y, p.toY[1..])
    requires Protocol.Inv(Protocol.Deliver(p))
    requires var (e', out) := ReceiveEnd(sch, n.y, n.toY[0]);
      var (s', msgs) := Protocol.Receive(p.y, p.toY[0]);
      Shows(e', n.x, s') && SameEnd(n.y, e') && out == EncodeAll(sch, n.y, n.x, msgs)
    ensures Related(sch, Next(sch, n, DeliverY), Protocol.Deliver(p))
  {
    var y' := ReceiveEnd(sch, n.y, n.toY[0]).0;
    var (s', msgs) := Protocol.Receive(p.y, p.toY[0]);
    hide Receive, ReceiveEnd, Protocol.Receive, Encode, EncodeAll, Protocol.Inv, Shows;
    Replace(sch, n, p, y', s', p.toY[1..], msgs);
  }

  // The message at the head has the effect on the process that the protocol says.
  lemma HeadShows(sch: Scheme, n: Net, p: Protocol.Pair)
    requires Related(sch, n, p) && p.toY != []
    ensures var (e', out) := ReceiveEnd(sch, n.y, Encode(sch, n.x, n.y, p.toY[0]));
      var (s', msgs) := Protocol.Receive(p.y, p.toY[0]);
      Shows(e', n.x, s') && SameEnd(n.y, e') && out == EncodeAll(sch, n.y, n.x, msgs)
  {
    var m := p.toY[0];
    if m.MState? {
      HeadChallenge(p);
    }
    assert Protocol.Usable(p.y, m);
    hide Receive, ReceiveEnd, Protocol.Receive, Encode, EncodeAll, Protocol.Inv;
    match m
    case MState(_, _) =>
      assert Shows(n.x, n.y, p.x);
      StateShows(n.y, n.x, p.y, sch, m);
    case MKey =>
      KeyShows(n.y, n.x, p.y, sch);
    case MSig(k) =>
      SignatureShows(n.y, n.x, p.y, sch, k);
  }

  lemma DeliverYRelated(sch: Scheme, n: Net, p: Protocol.Pair)
    requires Related(sch, n, p) && n.toY != []
    ensures p.toY != [] && Related(sch, Next(sch, n, DeliverY), Protocol.Deliver(p))
  {
    assert p.toY != [];
    assert n.toY[0] == Encode(sch, n.x, n.y, p.toY[0]) && n.toY[1..] == EncodeAll(sch, n.x, n.y, p.toY[1..]);
    hide Receive, ReceiveEnd, Next, Protocol.Receive, Protocol.Deliver, Encode, EncodeAll, Protocol.Inv, Shows;
    Protocol.DeliverInv(p);
    HeadShows(sch, n, p);
    Delivered(sch, n, p);
  }

  lemma StartYRelated(sch: Scheme, n: Net, p: Protocol.Pair, random: nat)
    requires Related(sch, n, p) && !n.askedY && 0 < random < UINT32_RANGE
    ensures var (s', msgs) := Protocol.Start(p.y, random);
      Related(sch, Next(sch, n, StartY(random)), p.(y := s', toX := p.toX + msgs))
  {
    var q := Protocol.Flip(p);
    Protocol.StartInv(q, random);
    NotDone(p);
    StartShows(n.y, n.x, p.y, sch, random);
    var y' := StartEnd(n.y, random).0;
    var (s', msgs) := Protocol.Start(p.y, random);
    hide StartEnd, Protocol.Start, Encode, EncodeAll, Shows, Protocol.Direction;
    Replace(sch, n, p, y', s', p.toY, msgs);
  }

  // Nobody has verified anything before asking.
  lemma NotDone(p: Protocol.Pair)
    requires Protocol.Inv(p) && p.y.challenge == 0
    ensures !p.y.done
  {
    Protocol.DrainedGrows(p.toY, p.y);
    Protocol.DrainedGrows(p.toX, p.x);
  }

  lemma FlipRelated(sch: Scheme, n: Net, p: Protocol.Pair)
    requires Related(sch, n, p)
    ensures Related(sch, Flip(n), Protocol.Flip(p))
  {
    hide Shows, EncodeAll, Protocol.Direction, Setting;
  }

  function FlipMove(m: Move): Move {
    match m
    case StartX(random) => StartY(random)
    case StartY(random) => StartX(random)
    case DeliverX => DeliverY
    case DeliverY => DeliverX
  }

  lemma FlipNext(sch: Scheme, n: Net, m: Move)
    ensures Next(sch, Flip(n), FlipMove(m)) == Flip(Next(sch, n, m))
  {
    hide StartEnd, ReceiveEnd;
  }

  predicate GoodMove(m: Move) {
    match m
    case StartX(random) => 0 < random < UINT32_RANGE
    case StartY(random) => 0 < random < UINT32_RANGE
    case _ => true
  }

  lemma YMove(sch: Scheme, n: Net, p: Protocol.Pair, m: Move) returns (q: Protocol.Pair)
    requires Related(sch, n, p) && GoodMove(m) && (m.StartY? || m.DeliverY?)
    ensures Related(sch, Next(sch, n, m), q)
  {
    if m.StartY? && !n.askedY {
      StartYRelated(sch, n, p, m.random);
      var (s', msgs) := Protocol.Start(p.y, m.random);
      q := p.(y := s', toX := p.toX + msgs);
    } else if m.DeliverY? && n.toY != [] {
      DeliverYRelated(sch, n, p);
      q := Protocol.Deliver(p);
    } else {
      q := p;
    }
  }

  lemma AnyMove(sch: Scheme, n: Net, p: Protocol.Pair, m: Move) returns (q: Protocol.Pair)
    requires Related(sch, n, p) && GoodMove(m)
    ensures Related(sch, Next(sch, n, m), q)
  {
    hide Related, Next;
    if m.StartY? || m.DeliverY? {
      q := YMove(sch, n, p, m);
    } else {
      FlipRelated(sch, n, p);
      var q' := YMove(sch, Flip(n), Protocol.Flip(p), FlipMove(m));
      FlipNext(sch, n, m);
      FlipRelated(sch, Flip(Next(sch, n, m)), q');
      q := Protocol.Flip(q');
    }
  }

  lemma {:induction false} AnyRun(sch: Scheme, n: Net, p: Protocol.Pair, moves: seq<Move>) returns (q: Protocol.Pair)
    requires Related(sch, n, p) && forall m :: m in moves ==> GoodMove(m)
    ensures Related(sch, Run(sch, n, moves), q)
    decreases |moves|
  {
    hide Related, Next;
    if moves == [] {
      q := p;
    } else {
      var before := AnyRun(sch, n, p, moves[..|moves| - 1]);
      q := AnyMove(sch, Run(sch, n, moves[..|moves| - 1]), before, moves[|moves| - 1]);
    }
  }

  // A side before the exchange: it may or may not know, or have stored, the other's key, and its record may
  // hold challenges of earlier connections. On this connection it owes nothing and has verified nothing.
  ghost predicate Fresh(e: End, peer: End) {
    && RecordSound(e.cr) && (e.cr.working == [] || e.cr.working == peer.me.publicKey)
    && e.cl.secState == IS_UNAVAILABLE && e.cl.lastSignature != e.cl.dest
  }

  lemma FreshRelated(sch: Scheme, x: End, y: End)
    requires Ideal(sch) && Setting(x, y) && Setting(y, x) && Fresh(x, y) && Fresh(y, x)
    ensures Related(sch, Net(x, y, false, false, [], []),
      Protocol.Pair(Protocol.Side(x.cr.working != [], 0, 0, false, false),
                    Protocol.Side(y.cr.working != [], 0, 0, false, false), [], []))
  {
    Protocol.InitialInv(Protocol.Side(x.cr.working != [], 0, 0, false, false),
                        Protocol.Side(y.cr.working != [], 0, 0, false, false));
  }

  // However sending, delivery and the two starts interleave: once both sides have asked and nothing is
  // under way, each has identified the other and stored its key.
  lemma HonestExchange(sch: Scheme, x: End, y: End, moves: seq<Move>)
    requires Ideal(sch) && Setting(x, y) && Setting(y, x) && Fresh(x, y) && Fresh(y, x)
    requires forall m :: m in moves ==> GoodMove(m)
    ensures var n := Run(sch, Net(x, y, false, false, [], []), moves);
      n.toX == [] && n.toY == [] && n.askedX && n.askedY ==>
        Identified(n.x, n.y) && Identified(n.y, n.x)
  {
    FreshRelated(sch, x, y);
    var n := Run(sch, Net(x, y, false, false, [], []), moves);
    var p := AnyRun(sch, Net(x, y, false, false, [], []),
      Protocol.Pair(Protocol.Side(x.cr.working != [], 0, 0, false, false),
                    Protocol.Side(y.cr.working != [], 0, 0, false, false), [], []), moves);
    hide Run, Identified, RecordSound, Setting;
    if n.toX == [] && n.toY == [] && n.askedX && n.askedY {
      assert p.toX == [] && p.toY == [];
      Protocol.Finished(p);
    }
  }

  // ---- The exchange completes ----

  function PacketWeight(p: Packet): nat {
    match p.op
    case OP_SECIDENTSTATE => 4
    case OP_PUBLICKEY => 2
    case OP_SIGNATURE => 1
  }

  // The weight of a channel's packets: enough for everything that delivering them can set off.
  function Load(q: seq<Packet>): nat {
    if q == [] then 0 else PacketWeight(q[0]) + Load(q[1..])
  }

  lemma {:induction false} LoadIsWeight(sch: Scheme, from: End, to: End, msgs: seq<Protocol.Msg>)
    requires Ideal(sch) && |from.me.publicKey| <= MAXPUBKEYSIZE
    ensures Load(EncodeAll(sch, from, to, msgs)) == Protocol.Weight(msgs)
  {
    if msgs != [] {
      LoadIsWeight(sch, from, to, msgs[1..]);
      var q := EncodeAll(sch, from, to, msgs);
      assert q[1..] == EncodeAll(sch, from, to, msgs[1..]);
    }
  }

  lemma LoadOf(sch: Scheme, n: Net, p: Protocol.Pair)
    requires Related(sch, n, p)
    ensures Load(n.toX) + Load(n.toY) == Protocol.Weight(p.toX) + Protocol.Weight(p.toY)
  {
    LoadIsWeight(sch, n.x, n.y, p.toY);
    LoadIsWeight(sch, n.y, n.x, p.toX);
  }

  predicate Effective(n: Net, m: Move) {
    (m == DeliverX && n.toX != []) || (m == DeliverY && n.toY != [])
  }

  // Every delivery of a packet makes what is under way lighter, so only finitely many can follow each other.
  lemma DeliveryLightens(sch: Scheme, n: Net, p: Protocol.Pair, m: Move)
    requires Related(sch, n, p) && Effective(n, m)
    ensures var n' := Next(sch, n, m); Load(n'.toX) + Load(n'.toY) < Load(n.toX) + Load(n.toY)
  {
    LoadOf(sch, n, p);
    if m == DeliverY {
      DeliverYRelated(sch, n, p);
      hide Related, Next;
      LoadOf(sch, Next(sch, n, m), Protocol.Deliver(p));
      Protocol.DeliverShrinks(p);
    } else {
      FlipRelated(sch, n, p);
      var p' := Protocol.Flip(p);
      DeliverYRelated(sch, Flip(n), p');
      FlipNext(sch, n, m);
      hide Related, Next;
      LoadOf(sch, Next(sch, Flip(n), DeliverY), Protocol.Deliver(p'));
      Protocol.DeliverShrinks(p');
    }
  }

  lemma {:induction false} RunAppend(sch: Scheme, n: Net, a: seq<Move>, b: seq<Move>)
    ensures Run(sch, n, a + b) == Run(sch, Run(sch, n, a), b)
  {
    hide Next;
    if b == [] {
      assert a + b == a;
    } else {
      var k := |b| - 1;
      RunAppend(sch, n, a, b[..k]);
      assert (a + b)[..|a + b| - 1] == a + b[..k];
    }
  }

  predicate Delivery(m: Move) {
    m == DeliverX || m == DeliverY
  }

  lemma RunOne(sch: Scheme, n: Net, m: Move)
    ensures Run(sch, n, [m]) == Next(sch, n, m)
  {
    hide Next;
    assert [m][..0] == [];
  }

  lemma DeliveryKeepsAsked(sch: Scheme, n: Net, m: Move)
    requires Delivery(m)
    ensures Next(sch, n, m).askedX == n.askedX && Next(sch, n, m).askedY == n.askedY
  {
    hide ReceiveEnd;
  }

  // From every state of the exchange the channels drain.
  lemma {:induction false} Drain(sch: Scheme, n: Net, p: Protocol.Pair) returns (moves: seq<Move>)
    requires Related(sch, n, p)
    ensures forall m :: m in moves ==> Delivery(m)
    ensures var d := Run(sch, n, moves); d.toX == [] && d.toY == [] && d.askedX == n.askedX && d.askedY == n.askedY
    decreases Load(n.toX) + Load(n.toY)
  {
    hide Related, Next, Load;
    if n.toX == [] && n.toY == [] {
      moves := [];
    } else {
      var m := if n.toY != [] then DeliverY else DeliverX;
      DeliveryLightens(sch, n, p, m);
      DeliveryKeepsAsked(sch, n, m);
      var q := AnyMove(sch, n, p, m);
      var rest := Drain(sch, Next(sch, n, m), q);
      RunOne(sch, n, m);
      RunAppend(sch, n, [m], rest);
      moves := [m] + rest;
    }
  }

  lemma GoodDeliveries(moves: seq<Move>)
    requires forall m :: m in moves ==> Delivery(m)
    ensures forall m :: m in moves ==> GoodMove(m)
  {}

  // An exchange can never get stuck: after any run whatever, the starts that are still missing and some
  // deliveries lead to both sides having identified the other.
  lemma ExchangeCompletes(sch: Scheme, x: End, y: End, moves: seq<Move>) returns (more: seq<Move>)
    requires Ideal(sch) && Setting(x, y) && Setting(y, x) && Fresh(x, y) && Fresh(y, x)
    requires forall m :: m in moves ==> GoodMove(m)
    ensures var n := Run(sch, Net(x, y, false, false, [], []), moves + more);
      n.toX == [] && n.toY == [] && Identified(n.x, n.y) && Identified(n.y, n.x)
  {
    hide Next, Identified, Fresh, Setting, Ideal;
    var start := Net(x, y, false, false, [], []);
    var starts := [StartX(1), StartY(1)];
    var asked := moves + starts;
    var deliveries := DrainAfter(sch, x, y, asked);
    BothAsked(sch, Run(sch, start, moves));
    RunAppend(sch, start, moves, starts);
    hide Run;
    HonestExchange(sch, x, y, asked + deliveries);
    more := starts + deliveries;
    assert moves + more == asked + deliveries;
  }

  lemma DrainAfter(sch: Scheme, x: End, y: End, asked: seq<Move>) returns (deliveries: seq<Move>)
    requires Ideal(sch) && Setting(x, y) && Setting(y, x) && Fresh(x, y) && Fresh(y, x)
    requires forall m :: m in asked ==> GoodMove(m)
    ensures forall m :: m in asked + deliveries ==> GoodMove(m)
    ensures var start := Net(x, y, false, false, [], []);
      var n, d := Run(sch, start, asked), Run(sch, start, asked + deliveries);
      d.toX == [] && d.toY == [] && d.askedX == n.askedX && d.askedY == n.askedY
  {
    var start := Net(x, y, false, false, [], []);
    FreshRelated(sch, x, y);
    hide Related, Next, Fresh, Setting, Ideal, Run;
    var p0 := Protocol.Pair(Protocol.Side(x.cr.working != [], 0, 0, false, false),
                            Protocol.Side(y.cr.working != [], 0, 0, false, false), [], []);
    var p := AnyRun(sch, start, p0, asked);
    deliveries := Drain(sch, Run(sch, start, asked), p);
    GoodDeliveries(deliveries);
    RunAppend(sch, start, asked, deliveries);
  }

  lemma BothAsked(sch: Scheme, n: Net)
    ensures var d := Run(sch, n, [StartX(1), StartY(1)]); d.askedX && d.askedY
  {
    var one := [StartX(1)];
    assert [StartX(1), StartY(1)][..1] == one && one[..0] == [];
    assert Run(sch, n, one) == Next(sch, n, StartX(1));
    hide StartEnd;
  }
}
