// The order of messages when two honest clients identify themselves to each other, without the bytes.
module ExchangeProtocol {
  // What one side has: the peer's key, the challenge it issued, the challenge it received, whether it owes
  // a signature, and whether it has verified the peer.
  datatype Side = Side(key: bool, challenge: nat, received: nat, owes: bool, done: bool)

  datatype Msg = MState(keyWanted: bool, challenge: nat) | MKey | MSig(challenge: nat)

  // Both sides, and the two first-in first-out channels between them.
  datatype Pair = Pair(x: Side, y: Side, toY: seq<Msg>, toX: seq<Msg>)

  function Flip(p: Pair): Pair {
    Pair(p.y, p.x, p.toX, p.toY)
  }

  function Start(s: Side, n: nat): (Side, seq<Msg>) {
    (s.(challenge := n), [MState(!s.key, n)])
  }

  // A signature goes out as soon as it is owed and the peer's key is there.
  function TrySign(s: Side): (Side, seq<Msg>) {
    if s.owes && s.key && s.received != 0 then (s.(owes := false), [MSig(s.received)]) else (s, [])
  }

  function Receive(s: Side, m: Msg): (Side, seq<Msg>) {
    match m
    case MState(keyWanted, n) =>
      var (s', out) := TrySign(s.(received := n, owes := true));
      (s', (if keyWanted then [MKey] else []) + out)
    case MKey => TrySign(s.(key := true))
    case MSig(_) => (s.(done := true), [])
  }

  // ---- What a side will have once a channel is drained ----

  function Absorb(s: Side, m: Msg): Side {
    match m
    case MState(_, n) => s.(received := n)
    case MKey => s.(key := true)
    case MSig(_) => s.(done := true)
  }

  function Drained(q: seq<Msg>, s: Side): Side {
    if q == [] then s else Drained(q[1..], Absorb(s, q[0]))
  }

  // Each message arrives when its receiver can use it: one challenge, one key, and a signature of the
  // receiver's own challenge after the key.
  predicate Usable(s: Side, m: Msg) {
    match m
    case MState(_, n) => s.received == 0 && n != 0
    case MKey => !s.key
    case MSig(n) => s.key && !s.done && n == s.challenge && n != 0
  }

  predicate Orderly(q: seq<Msg>, s: Side) {
    q == [] || (Usable(s, q[0]) && Orderly(q[1..], Absorb(s, q[0])))
  }

  predicate Asks(q: seq<Msg>, keyWanted: bool) {
    exists i :: 0 <= i < |q| && q[i].MState? && q[i].keyWanted == keyWanted
  }

  // One direction: x's challenge on its way to y and y's answers on their way back.
  ghost predicate Direction(x: Side, y: Side, toY: seq<Msg>, toX: seq<Msg>) {
    var x' := Drained(toX, x);
    && Drained(toY, y).received == x.challenge
    && Orderly(toY, y)
    && (Asks(toY, false) ==> x.key)
    && (Asks(toY, true) ==> !x.key)
    && (y.received != 0 ==> x'.key && (x'.done || (y.owes && !y.key)))
    && (y.owes ==> y.received != 0 && !y.key && !x'.done)
    && (y.received == 0 ==> x'.key == x.key && !x'.done)
  }

  ghost predicate Inv(p: Pair) {
    Direction(p.x, p.y, p.toY, p.toX) && Direction(p.y, p.x, p.toX, p.toY)
  }

  // ---- Facts about channels ----

  lemma {:induction false} DrainedAppend(q: seq<Msg>, r: seq<Msg>, s: Side)
    ensures Drained(q + r, s) == Drained(r, Drained(q, s))
    ensures Orderly(q + r, s) <==> Orderly(q, s) && Orderly(r, Drained(q, s))
  {
    if q == [] {
      assert q + r == r;
    } else {
      DrainedAppend(q[1..], r, Absorb(s, q[0]));
      assert (q + r)[1..] == q[1..] + r;
    }
  }

  // Draining only adds, leaves the rest alone, and an orderly channel never replaces a challenge.
  lemma {:induction false} DrainedGrows(q: seq<Msg>, s: Side)
    requires Orderly(q, s)
    ensures var d := Drained(q, s);
      d.challenge == s.challenge && d.owes == s.owes && (s.key ==> d.key) && (s.done ==> d.done) &&
      (s.received != 0 ==> d.received == s.received)
  {
    if q != [] {
      DrainedGrows(q[1..], Absorb(s, q[0]));
    }
  }

  // A pending question means that the challenge has not been received.
  lemma {:induction false} AskedNotReceived(q: seq<Msg>, s: Side, i: int)
    requires Orderly(q, s) && 0 <= i < |q| && q[i].MState?
    ensures s.received == 0
  {
    if i > 0 {
      AskedNotReceived(q[1..], Absorb(s, q[0]), i - 1);
    }
  }

  // The fields that the channel does not read can change freely.
  lemma {:induction false} OwesIrrelevant(q: seq<Msg>, s: Side, owes: bool)
    ensures Orderly(q, s.(owes := owes)) == Orderly(q, s)
    ensures Drained(q, s.(owes := owes)) == Drained(q, s).(owes := owes)
  {
    if q != [] {
      OwesIrrelevant(q[1..], Absorb(s, q[0]), owes);
    }
  }

  // Before a side has issued a challenge no signature for it is under way.
  lemma {:induction false} ChallengeFirst(q: seq<Msg>, s: Side, n: nat)
    requires s.challenge == 0 && Orderly(q, s)
    ensures Orderly(q, s.(challenge := n)) && Drained(q, s.(challenge := n)) == Drained(q, s).(challenge := n)
  {
    if q != [] {
      ChallengeFirst(q[1..], Absorb(s, q[0]), n);
    }
  }

  // ---- Steps ----

  lemma StartForward(p: Pair, n: nat)
    requires Inv(p) && p.x.challenge == 0 && n != 0
    ensures var (x', out) := Start(p.x, n); Direction(x', p.y, p.toY + out, p.toX)
  {
    var (x', out) := Start(p.x, n);
    DrainedAppend(p.toY, out, p.y);
    ChallengeFirst(p.toX, p.x, n);
    DrainedGrows(p.toY, p.y);
    assert p.y.received == 0;
    assert Drained(out, Drained(p.toY, p.y)).received == n;
    assert Orderly(out[1..], Absorb(Drained(p.toY, p.y), out[0]));
    NoQuestions(p);
  }

  lemma NoQuestions(p: Pair)
    requires Inv(p) && p.x.challenge == 0
    ensures forall m :: m in p.toY ==> !m.MState?
  {
    forall i | 0 <= i < |p.toY| ensures !p.toY[i].MState? {
      if p.toY[i].MState? {
        QuestionArrives(p.toY, p.y, i);
      }
    }
  }

  lemma {:induction false} QuestionArrives(q: seq<Msg>, s: Side, i: int)
    requires Orderly(q, s) && 0 <= i < |q| && q[i].MState?
    ensures Drained(q, s).received != 0
  {
    if i > 0 {
      QuestionArrives(q[1..], Absorb(s, q[0]), i - 1);
    } else {
      DrainedGrows(q[1..], Absorb(s, q[0]));
    }
  }

  lemma StartBackward(p: Pair, n: nat)
    requires Inv(p) && p.x.challenge == 0 && n != 0
    ensures var (x', out) := Start(p.x, n); Direction(p.y, x', p.toX, p.toY + out)
  {
    var (x', out) := Start(p.x, n);
    DrainedAppend(p.toY, out, p.y);
    ChallengeFirst(p.toX, p.x, n);
    assert Drained(out, Drained(p.toY, p.y)) == Drained(p.toY, p.y).(received := n);
  }

  function Deliver(p: Pair): Pair
    requires p.toY != []
  {
    var (y', out) := Receive(p.y, p.toY[0]);
    Pair(p.x, y', p.toY[1..], p.toX + out)
  }

  // The rest of a channel asks nothing that the whole does not ask.
  lemma AsksTail(q: seq<Msg>, keyWanted: bool)
    requires q != []
    ensures Asks(q, keyWanted) <==> (q[0].MState? && q[0].keyWanted == keyWanted) || Asks(q[1..], keyWanted)
  {
    if Asks(q, keyWanted) {
      var i :| 0 <= i < |q| && q[i].MState? && q[i].keyWanted == keyWanted;
      if i > 0 {
        assert q[1..][i - 1] == q[i];
      }
    }
    if Asks(q[1..], keyWanted) {
      var i :| 0 <= i < |q[1..]| && q[1..][i].MState? && q[1..][i].keyWanted == keyWanted;
      assert q[i + 1] == q[1..][i];
    }
  }

  lemma AsksAppend(q: seq<Msg>, out: seq<Msg>, keyWanted: bool)
    requires forall m :: m in out ==> !m.MState?
    ensures Asks(q + out, keyWanted) == Asks(q, keyWanted)
  {
    forall i | |q| <= i < |q + out| ensures !(q + out)[i].MState? {
      assert (q + out)[i] in out;
    }
    if Asks(q, keyWanted) {
      var i :| 0 <= i < |q| && q[i].MState? && q[i].keyWanted == keyWanted;
      assert (q + out)[i] == q[i];
    }
  }

  // What a side still has to answer, when the challenge is the head of its channel.
  lemma StateForward(p: Pair)
    requires Inv(p) && p.toY != [] && p.toY[0].MState?
    ensures var q := Deliver(p); Direction(q.x, q.y, q.toY, q.toX)
  {
    var q := Deliver(p);
    var keyWanted := p.toY[0].keyWanted;
    var out := Receive(p.y, p.toY[0]).1;
    AsksTail(p.toY, true);
    AsksTail(p.toY, false);
    hide Asks;
    DrainedAppend(p.toX, out, p.x);
    DrainedGrows(p.toX, p.x);
    DrainedGrows(p.toY[1..], Absorb(p.y, p.toY[0]));
    OwesIrrelevant(p.toY[1..], Absorb(p.y, p.toY[0]), q.y.owes);
    assert Absorb(p.y, p.toY[0]).(owes := q.y.owes) == q.y;
    Answers(Drained(p.toX, p.x), p.y, keyWanted, p.toY[0].challenge);
  }

  // The key, if it was asked for, and then the signature, if it can be made.
  lemma Answers(x: Side, y: Side, keyWanted: bool, n: nat)
    requires n != 0 && x.challenge == n && keyWanted == !x.key && !x.done
    ensures var out := Receive(y, MState(keyWanted, n)).1;
      Orderly(out, x) && Drained(out, x) == x.(key := true, done := y.key)
  {
    var out := Receive(y, MState(keyWanted, n)).1;
    if |out| > 0 {
      assert Orderly(out[1..], Absorb(x, out[0])) <==> |out| == 1 || Usable(Absorb(x, out[0]), out[1]);
      if |out| == 2 {
        assert out[1..] == [MSig(n)];
        assert Drained([MSig(n)], Absorb(x, out[0])) == Absorb(Absorb(x, out[0]), MSig(n));
      }
    }
  }

  lemma StateBackward(p: Pair)
    requires Inv(p) && p.toY != [] && p.toY[0].MState?
    ensures var q := Deliver(p); Direction(q.y, q.x, q.toX, q.toY)
  {
    var q := Deliver(p);
    var out := Receive(p.y, p.toY[0]).1;
    AsksTail(p.toY, true);
    AsksTail(p.toY, false);
    AsksAppend(p.toX, out, true);
    AsksAppend(p.toX, out, false);
    hide Asks;
    DrainedAppend(p.toX, out, p.x);
    DrainedGrows(p.toX, p.x);
    DrainedGrows(p.toY[1..], Absorb(p.y, p.toY[0]));
    OwesIrrelevant(p.toY[1..], Absorb(p.y, p.toY[0]), q.y.owes);
    assert Absorb(p.y, p.toY[0]).(owes := q.y.owes) == q.y;
    Answers(Drained(p.toX, p.x), p.y, p.toY[0].keyWanted, p.toY[0].challenge);
  }

  // The signature that had to wait for the key.
  lemma LateAnswer(x: Side, y: Side)
    requires x.key && x.challenge == y.received != 0 && (y.owes ==> !x.done)
    ensures var out := Receive(y, MKey).1;
      Orderly(out, x) && Drained(out, x) == x.(done := x.done || y.owes)
  {
    var out := Receive(y, MKey).1;
    if |out| > 0 {
      assert out[1..] == [];
      assert Drained(out, x) == Absorb(x, out[0]);
    }
  }

  lemma EarlyKey(x: Side, y: Side)
    requires !y.owes
    ensures var out := Receive(y, MKey).1; out == [] && Orderly(out, x) && Drained(out, x) == x
  {}

  lemma KeyDelivered(p: Pair)
    requires Inv(p) && p.toY != [] && p.toY[0].MKey?
    ensures var q := Deliver(p); Direction(q.x, q.y, q.toY, q.toX)
    ensures var q := Deliver(p); Direction(q.y, q.x, q.toX, q.toY)
  {
    var q := Deliver(p);
    var out := Receive(p.y, p.toY[0]).1;
    AsksTail(p.toY, true);
    AsksTail(p.toY, false);
    AsksAppend(p.toX, out, true);
    AsksAppend(p.toX, out, false);
    KeyNotAsked(p);
    hide Asks;
    DrainedAppend(p.toX, out, p.x);
    DrainedGrows(p.toX, p.x);
    DrainedGrows(p.toY, p.y);
    DrainedGrows(p.toY[1..], Absorb(p.y, p.toY[0]));
    OwesIrrelevant(p.toY[1..], Absorb(p.y, p.toY[0]), q.y.owes);
    assert Absorb(p.y, p.toY[0]).(owes := q.y.owes) == q.y;
    if p.y.owes {
      LateAnswer(Drained(p.toX, p.x), p.y);
    } else {
      EarlyKey(Drained(p.toX, p.x), p.y);
    }
  }

  // While a key is on its way, the receiver is not asking for anything any more.
  lemma KeyNotAsked(p: Pair)
    requires Inv(p) && p.toY != [] && p.toY[0].MKey?
    ensures !Asks(p.toX, true) && !Asks(p.toX, false)
  {
    if i :| 0 <= i < |p.toX| && p.toX[i].MState? {
      AskedNotReceived(p.toX, p.x, i);
      DrainedGrows(p.toY[1..], Absorb(p.y, p.toY[0]));
    }
  }

  lemma SignatureDelivered(p: Pair)
    requires Inv(p) && p.toY != [] && p.toY[0].MSig?
    ensures var q := Deliver(p); Direction(q.x, q.y, q.toY, q.toX)
    ensures var q := Deliver(p); Direction(q.y, q.x, q.toX, q.toY)
  {
    AsksTail(p.toY, true);
    AsksTail(p.toY, false);
    hide Asks;
    assert p.toX + [] == p.toX;
  }

  lemma DeliverInv(p: Pair)
    requires Inv(p) && p.toY != []
    ensures Inv(Deliver(p))
  {
    hide Direction;
    match p.toY[0]
    case MState(_, _) => StateForward(p); StateBackward(p);
    case MKey => KeyDelivered(p);
    case MSig(_) => SignatureDelivered(p);
  }

  lemma StartInv(p: Pair, n: nat)
    requires Inv(p) && p.x.challenge == 0 && n != 0
    ensures var (x', out) := Start(p.x, n); Inv(p.(x := x', toY := p.toY + out))
  {
    StartForward(p, n);
    StartBackward(p, n);
  }

  // Once both sides have asked and everything has arrived, both have verified the other.
  lemma Finished(p: Pair)
    requires Inv(p) && p.toX == [] && p.toY == [] && p.x.challenge != 0 && p.y.challenge != 0
    ensures p.x.done && p.y.done
  {}

  lemma InitialInv(x: Side, y: Side)
    requires x.challenge == x.received == y.challenge == y.received == 0
    requires !x.owes && !y.owes && !x.done && !y.done
    ensures Inv(Pair(x, y, [], []))
  {}

  // ---- The channels drain ----

  function Weight(q: seq<Msg>): nat {
    if q == [] then 0
    else (match q[0] case MState(_, _) => 4 case MKey => 2 case MSig(_) => 1) + Weight(q[1..])
  }

  lemma {:induction false} WeightAppend(q: seq<Msg>, r: seq<Msg>)
    ensures Weight(q + r) == Weight(q) + Weight(r)
  {
    if q == [] {
      assert q + r == r;
    } else {
      WeightAppend(q[1..], r);
      assert (q + r)[1..] == q[1..] + r;
    }
  }

  // What a delivery sets off weighs less than the message delivered, so deliveries come to an end.
  lemma DeliverShrinks(p: Pair)
    requires p.toY != []
    ensures Weight(Deliver(p).toX) + Weight(Deliver(p).toY) < Weight(p.toX) + Weight(p.toY)
  {
    WeightAppend(p.toX, Receive(p.y, p.toY[0]).1);
    match p.toY[0]
    case MState(keyWanted, n) =>
      SignWeight(p.y.(received := n, owes := true));
      WeightAppend([MKey], TrySign(p.y.(received := n, owes := true)).1);
      assert [MKey][1..] == [];
    case MKey => SignWeight(p.y.(key := true));
    case MSig(_) =>
  }

  lemma SignWeight(s: Side)
    ensures Weight(TrySign(s).1) <= 1
  {
    assert TrySign(s).1 == [] || TrySign(s).1[1..] == [];
  }
}
