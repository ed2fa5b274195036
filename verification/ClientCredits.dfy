// The classes behind secure identification, with their fields updated in place.
module ClientCredits {
  import opened Arithmetic
  import opened LittleEndian
  import opened Strings
  import opened SecureIdent
  import opened SecureIdentRuns

  // ---- What a packet says to whoever receives it ----

  // Every peer that uses signatures and has not stored a key yet takes exactly this key.
  ghost predicate CarriesKey(p: Packet, key: Bytes) {
    forall sch, peer: Local, cr: Credits, cl: Client :: CryptoAvailable(peer) && cr.stored == [] ==>
      Receive(sch, peer, cr, cl, p).cr == cr.(working := key, state := IS_IDNEEDED)
  }

  // Every peer will sign this challenge, and first send its key if that is asked for.
  ghost predicate CarriesChallenge(p: Packet, challenge: nat, keyWanted: bool) {
    p.op == OP_SECIDENTSTATE &&
    forall cr: Credits, cl: Client :: ProcessSecIdentState(cr, cl, p.data) ==
      Out(cr.(challengeFrom := challenge),
          cl.(secState := if keyWanted then IS_KEYANDSIGNEEDED else IS_SIGNATURENEEDED), [])
  }

  // Every peer that takes this version reads exactly this signature and kind.
  ghost predicate CarriesSignature(p: Packet, sig: Bytes, kind: byte) {
    p.op == OP_SIGNATURE &&
    forall cl: Client :: kind == 0 || cl.support / 2 % 2 == 1 ==>
      SignatureKind(cl, p.data) == kind && SignatureBytes(p.data) == sig
  }

  lemma KeyCarried(key: Bytes)
    requires |key| <= MAXPUBKEYSIZE
    ensures CarriesKey(Packet(OP_PUBLICKEY, [|key| % 256] + key), key)
  {
    var p := Packet(OP_PUBLICKEY, [|key| % 256] + key);
    assert p.data[1..] == key;
    forall sch, peer: Local, cr: Credits, cl: Client | CryptoAvailable(peer) && cr.stored == []
      ensures Receive(sch, peer, cr, cl, p).cr == cr.(working := key, state := IS_IDNEEDED)
    {
      hide SendSignature;
      SendSignatureKeeps(sch, peer, SetSecureIdent(cr, key).0, cl);
    }
  }

  lemma ChallengeCarried(challenge: nat, value: byte)
    requires challenge < UINT32_RANGE && value in {IS_SIGNATURENEEDED, IS_KEYANDSIGNEEDED}
    ensures var p := Packet(OP_SECIDENTSTATE, [value] + Poke32(challenge));
      CarriesChallenge(p, challenge, value == IS_KEYANDSIGNEEDED)
  {
    PokePeek(challenge);
    assert ([value] + Poke32(challenge))[1..] == Poke32(challenge);
    hide Poke32, Peek32;
  }

  lemma KindRead(cl: Client, data: Bytes, kind: byte)
    requires 2 <= |data| <= 250
    requires if kind == 0 then data[0] == |data| - 1
             else data[0] == |data| - 2 && data[|data| - 1] == kind && cl.support / 2 % 2 == 1
    ensures SignatureKind(cl, data) == kind
  {}

  lemma SignatureRead(data: Bytes, sig: Bytes, kind: byte)
    requires 2 <= |data| <= 250
    requires if kind == 0 then data[0] == |data| - 1 else data[0] == |data| - 2 && data[|data| - 1] == kind
    requires data[1..1 + data[0]] == sig
    ensures CarriesSignature(Packet(OP_SIGNATURE, data), sig, kind)
  {
    forall cl: Client | kind == 0 || cl.support / 2 % 2 == 1
      ensures SignatureKind(cl, data) == kind && SignatureBytes(data) == sig
    {
      KindRead(cl, data, kind);
    }
  }

  lemma SignatureCarried(sig: Bytes, kind: byte)
    requires 0 < |sig| <= 248 && kind in {0, CRYPT_CIP_LOCALCLIENT}
    ensures CarriesSignature(Packet(OP_SIGNATURE, [|sig|] + sig + if kind != 0 then [kind] else []), sig, kind)
  {
    var data := [|sig|] + sig + if kind != 0 then [kind] else [];
    assert data[0] == |sig| && |data| == |sig| + if kind != 0 then 2 else 1;
    assert data[1..1 + data[0]] == sig;
    assert kind != 0 ==> data[|data| - 1] == kind;
    SignatureRead(data, sig, kind);
  }

  // What a version 2 signature adds: the address that the signer was seen under, or the one it sees us under, or
  // none, and which of them.
  function Suffix(me: Local, ip: nat, kind: byte): (s: Bytes)
    ensures kind == 0 ==> s == []
    ensures kind == CRYPT_CIP_LOCALCLIENT ==> s == Poke32(ip) + [kind]
    ensures kind == CRYPT_CIP_REMOTECLIENT && (me.destKnown || me.lowID) ==> s == Poke32(me.publicDest) + [kind]
    ensures kind == CRYPT_CIP_REMOTECLIENT && !me.destKnown && !me.lowID ==> s == Poke32(me.id) + [kind]
    ensures kind !in {0, CRYPT_CIP_LOCALCLIENT, CRYPT_CIP_REMOTECLIENT} ==> s == Poke32(0) + [kind]
  {
    if kind == 0 then [] else Poke32(ChallengeIP(me, ip, kind)) + [kind]
  }

  lemma MessageIs(me: Local, challenge: nat, ip: nat, kind: byte)
    ensures SignedMessage(me.publicKey, challenge, ChallengeIP(me, ip, kind), kind) ==
      me.publicKey + Poke32(challenge) + Suffix(me, ip, kind)
  {
    hide Poke32, ChallengeIP;
  }

  // ---- The credit record ----

  class CClientCredits {
    var uploaded: nat
    var downloaded: nat
    var abySecureIdent: Bytes     // up to nKeySize
    var m_abyPublicKey: Bytes     // up to m_nPublicKeyLen
    var m_identState: EIdentState
    var m_dwCryptRndChallengeFor: nat
    var m_dwCryptRndChallengeFrom: nat
    var m_dwIdentIP: nat

    function Record(): Credits
      reads this
    {
      Credits(uploaded, downloaded, abySecureIdent, m_abyPublicKey, m_identState,
              m_dwCryptRndChallengeFor, m_dwCryptRndChallengeFrom, m_dwIdentIP)
    }

    // A stored key is the working key, and only a record with a stored key is identified.
    ghost predicate Valid()
      reads this
    {
      RecordSound(Record())
    }

    constructor (up: nat, down: nat, key: Bytes)
      ensures Record() == InitalizeIdent(up, down, key)
      ensures m_identState == if key == [] then IS_NOTAVAILABLE else IS_IDNEEDED
      ensures |key| <= MAXPUBKEYSIZE ==> Valid()
    {
      uploaded, downloaded, abySecureIdent := up, down, key;
      if key == [] {
        m_abyPublicKey := [];
        m_identState := IS_NOTAVAILABLE;
      } else {
        m_abyPublicKey := key;
        m_identState := IS_IDNEEDED;
      }
      m_dwCryptRndChallengeFor, m_dwCryptRndChallengeFrom, m_dwIdentIP := 0, 0, 0;
      new;
      if |key| <= MAXPUBKEYSIZE {
        InitialSound(up, down, key);
      }
    }

    method SetSecureIdent(ident: Bytes) returns (ok: bool)
      modifies this
      ensures (Record(), ok) == SecureIdent.SetSecureIdent(old(Record()), ident)
      ensures ok <==> old(abySecureIdent) == [] && |ident| <= MAXPUBKEYSIZE
      ensures Record() == if ok then old(Record()).(working := ident, state := IS_IDNEEDED) else old(Record())
      ensures old(Valid()) ==> Valid()
    {
      if MAXPUBKEYSIZE < |ident| || abySecureIdent != [] {
        return false;
      }
      m_abyPublicKey := ident;
      m_identState := IS_IDNEEDED;
      ok := true;
    }

    method Verified(ip: nat)
      modifies this
      ensures Record() == SecureIdent.Verified(old(Record()), ip)
      ensures m_identState == IS_IDENTIFIED && m_dwIdentIP == ip && m_abyPublicKey == old(m_abyPublicKey)
      ensures abySecureIdent == if old(abySecureIdent) == [] then m_abyPublicKey else old(abySecureIdent)
      ensures if old(abySecureIdent) == [] && old(downloaded) > 0 then downloaded == 1 && uploaded == 1
              else downloaded == old(downloaded) && uploaded == old(uploaded)
      ensures old(Valid()) && |m_abyPublicKey| > 0 ==> Valid()
    {
      m_dwIdentIP := ip;
      if abySecureIdent == [] {
        abySecureIdent := m_abyPublicKey;
        if downloaded > 0 {
          downloaded := 1;
          uploaded := 1;
        }
      }
      m_identState := IS_IDENTIFIED;
    }

    // Bytes are credited to a trusted address and to no other, and nothing else changes.
    method AddDownloaded(bytes: nat, ip: nat, cryptoavail: bool)
      modifies this
      ensures Record() == old(Record()).(downloaded := downloaded) && (old(Valid()) ==> Valid())
      ensures downloaded == old(downloaded) + if old(Trusted(Record(), ip, cryptoavail)) then bytes else 0
      ensures old(Valid()) && old(abySecureIdent) != [] && cryptoavail && 0 < bytes ==>
        (downloaded != old(downloaded) <==> m_identState == IS_IDENTIFIED && ip == m_dwIdentIP)
      ensures Record() == SecureIdent.AddDownloaded(old(Record()), bytes, ip, cryptoavail)
    {
      var state := GetCurrentIdentState(Record(), ip);
      if state in {IS_IDFAILED, IS_IDBADGUY, IS_IDNEEDED} && cryptoavail {
        return;
      }
      downloaded := downloaded + bytes;
    }

    method AddUploaded(bytes: nat, ip: nat, cryptoavail: bool)
      modifies this
      ensures Record() == old(Record()).(uploaded := uploaded) && (old(Valid()) ==> Valid())
      ensures uploaded == old(uploaded) + if old(Trusted(Record(), ip, cryptoavail)) then bytes else 0
      ensures old(Valid()) && old(abySecureIdent) != [] && cryptoavail && 0 < bytes ==>
        (uploaded != old(uploaded) <==> m_identState == IS_IDENTIFIED && ip == m_dwIdentIP)
      ensures Record() == SecureIdent.AddUploaded(old(Record()), bytes, ip, cryptoavail)
    {
      var state := GetCurrentIdentState(Record(), ip);
      if state in {IS_IDFAILED, IS_IDBADGUY, IS_IDNEEDED} && cryptoavail {
        return;
      }
      uploaded := uploaded + bytes;
    }

    // CClientCreditsList::VerifyIdent.
    method VerifyIdent(sch: Scheme, me: Local, sig: Bytes, ip: nat, kind: byte) returns (ok: bool)
      modifies this
      ensures Record() == SecureIdent.VerifyIdent(sch, me, old(Record()), sig, ip, kind)
      ensures ok ==> m_identState == IS_IDENTIFIED && m_dwIdentIP == ip
      ensures ok ==> abySecureIdent == if old(abySecureIdent) == [] then m_abyPublicKey else old(abySecureIdent)
      ensures if ok && old(abySecureIdent) == [] && old(downloaded) > 0 then downloaded == 1 && uploaded == 1
              else downloaded == old(downloaded) && uploaded == old(uploaded)
      ensures !ok ==> Record() == old(Record()).(state := m_identState)
      ensures !ok && !CryptoAvailable(me) ==> m_identState == IS_NOTAVAILABLE
      ensures !ok && CryptoAvailable(me) ==>
        m_identState == if old(m_identState) == IS_IDNEEDED then IS_IDFAILED else old(m_identState)
      ensures ok <==>
        CryptoAvailable(me) &&
        sch.verify(m_abyPublicKey, me.publicKey + Poke32(m_dwCryptRndChallengeFor) + Suffix(me, ip, kind), sig)
    {
      if !CryptoAvailable(me) {
        m_identState := IS_NOTAVAILABLE;
        return false;
      }
      hide Suffix;
      var buffer := me.publicKey + Poke32(m_dwCryptRndChallengeFor);
      if kind != 0 {
        var challengeIP := 0;
        if kind == CRYPT_CIP_LOCALCLIENT {
          challengeIP := ip;
        } else if kind == CRYPT_CIP_REMOTECLIENT {
          if !me.destKnown {
            if me.lowID {
              challengeIP := me.publicDest;
            } else {
              challengeIP := me.id;
            }
          } else {
            challengeIP := me.publicDest;
          }
        }
        buffer := buffer + Poke32(challengeIP);
        buffer := buffer + [kind];
      }
      assert buffer == SignedMessage(me.publicKey, m_dwCryptRndChallengeFor, ChallengeIP(me, ip, kind), kind);
      MessageIs(me, m_dwCryptRndChallengeFor, ip, kind);
      ok := sch.verify(m_abyPublicKey, buffer, sig);
      if !ok {
        if m_identState == IS_IDNEEDED {
          m_identState := IS_IDFAILED;
        }
      } else {
        Verified(ip);
      }
    }
  }

  // ---- The connection ----

  // A signature packet whose length byte covers the rest of it, but for the kind in version 2.
  predicate WellFormed(data: Bytes, support: nat) {
    && 0 < |data| <= 250
    && (data[0] == |data| - 1 || (data[0] == |data| - 2 && support / 2 % 2 == 1))
  }

  class CUpDownClient {
    var credits: CClientCredits
    var m_SecureIdentState: byte
    var m_dwLastSignatureDest: nat
    var m_nTCPDest: nat
    var m_bySupportSecIdent: nat
    var sent: seq<Packet>         // handed to SendPacket, oldest first

    function Connection(): Client
      reads this
    {
      Client(m_SecureIdentState, m_dwLastSignatureDest, m_nTCPDest, m_bySupportSecIdent)
    }

    // The handler's outcome, appended to what was sent before.
    ghost predicate Did(o: Out, before: seq<Packet>)
      reads this, credits
    {
      credits.Record() == o.cr && Connection() == o.cl && sent == before + o.sent
    }

    // The packet sent last, after what was sent before.
    ghost predicate SentOne(before: seq<Packet>)
      reads this
    {
      |sent| == |before| + 1 && sent[..|before|] == before
    }

    constructor (record: CClientCredits, dest: nat, support: nat)
      ensures credits == record && Connection() == Client(IS_UNAVAILABLE, 0, dest, support) && sent == []
    {
      credits := record;
      m_SecureIdentState, m_dwLastSignatureDest, m_nTCPDest, m_bySupportSecIdent := IS_UNAVAILABLE, 0, dest, support;
      sent := [];
    }

    // The key goes out once for each request, and every peer reads it as it is.
    method SendPublicKeyPacket(me: Local)
      modifies this
      ensures credits == old(credits) && Did(SendPublicKey(me, old(credits.Record()), old(Connection())), old(sent))
      ensures sent == old(sent) || SentOne(old(sent))
      ensures SentOne(old(sent)) <==> old(m_SecureIdentState) == IS_KEYANDSIGNEEDED && CryptoAvailable(me)
      ensures sent != old(sent) ==> m_SecureIdentState == IS_SIGNATURENEEDED
      ensures SentOne(old(sent)) && |me.publicKey| <= MAXPUBKEYSIZE ==> CarriesKey(sent[|old(sent)|], me.publicKey)
    {
      if m_SecureIdentState != IS_KEYANDSIGNEEDED {
        return;
      }
      if !CryptoAvailable(me) {
        return;
      }
      sent := sent + [Packet(OP_PUBLICKEY, [|me.publicKey| % 256] + me.publicKey)];
      m_SecureIdentState := IS_SIGNATURENEEDED;
      if |me.publicKey| <= MAXPUBKEYSIZE {
        KeyCarried(me.publicKey);
      }
      hide CarriesKey;
    }

    // A signature goes out once for each request; it is for the peer's key and the challenge received last.
    method SendSignaturePacket(sch: Scheme, me: Local)
      modifies this
      ensures credits == old(credits)
      ensures Did(SendSignature(sch, me, old(credits.Record()), old(Connection())), old(sent))
      ensures sent == old(sent) || SentOne(old(sent))
      ensures sent != old(sent) ==> old(m_SecureIdentState) != IS_UNAVAILABLE == m_SecureIdentState
      ensures sent != old(sent) ==>
        CryptoAvailable(me) && credits.m_abyPublicKey != [] && credits.m_dwCryptRndChallengeFrom != 0
      ensures var kind := if m_bySupportSecIdent % 2 != 1 then CRYPT_CIP_LOCALCLIENT else 0;
        var sig := sch.sign(me.publicKey, SignedMessage(credits.m_abyPublicKey, credits.m_dwCryptRndChallengeFrom,
                                                        if kind != 0 then me.publicDest else 0, kind));
        SentOne(old(sent)) && |sig| <= 248 ==> CarriesSignature(sent[|old(sent)|], sig, kind)
    {
      if m_SecureIdentState == 0 || !CryptoAvailable(me) {
        return;
      }
      if |credits.m_abyPublicKey| == 0 || credits.m_dwCryptRndChallengeFrom == 0 {
        return;
      }
      var useV2 := m_bySupportSecIdent % 2 != 1;
      var kind, challengeIP := 0, 0;
      if useV2 {
        challengeIP := me.publicDest;
        kind := CRYPT_CIP_LOCALCLIENT;
      }
      var sig := CreateSignature(sch, me, credits.Record(), challengeIP, kind);
      if |sig| == 0 {
        return;
      }
      var data: Bytes := [|sig|] + sig;
      if useV2 {
        data := data + [kind];
      } else {
        assert data == data + [];
      }
      sent := sent + [Packet(OP_SIGNATURE, data)];
      m_SecureIdentState := IS_UNAVAILABLE;
      if |sig| <= 248 {
        SignatureCarried(sig, kind);
      }
      hide CarriesSignature, SignedMessage;
    }

    // A challenge goes out unless the client is known by key and was heard at this address; the record then
    // holds it, and every peer reads the same.
    method SendSecIdentStatePacket(me: Local, random: nat)
      modifies this, credits
      ensures credits == old(credits) && (old(credits.Valid()) ==> credits.Valid())
      ensures Did(SendSecIdentState(me, old(credits.Record()), old(Connection()), random), old(sent))
      ensures sent == old(sent) || SentOne(old(sent))
      ensures SentOne(old(sent)) <==>
        CryptoAvailable(me) && (credits.m_abyPublicKey == [] || m_dwLastSignatureDest != m_nTCPDest)
      ensures credits.Record() == old(credits.Record()) ||
        (credits.Record() == old(credits.Record()).(challengeFor := random) && SentOne(old(sent)))
      ensures SentOne(old(sent)) && random < UINT32_RANGE ==>
        credits.m_dwCryptRndChallengeFor == random &&
        CarriesChallenge(sent[|old(sent)|], random, credits.m_abyPublicKey == [])
    {
      var value: byte := 0;
      if CryptoAvailable(me) {
        if |credits.m_abyPublicKey| == 0 {
          value := IS_KEYANDSIGNEEDED;
        } else if m_dwLastSignatureDest != m_nTCPDest {
          value := IS_SIGNATURENEEDED;
        }
      }
      if value == 0 {
        return;
      }
      credits.m_dwCryptRndChallengeFor := random;
      sent := sent + [Packet(OP_SECIDENTSTATE, [value] + Poke32(random))];
      if random < UINT32_RANGE {
        ChallengeCarried(random, value);
      }
      hide CarriesChallenge;
    }

    // The challenge is noted and nothing is sent yet; what is malformed changes nothing.
    method ProcessSecIdentStatePacket(data: Bytes)
      modifies this, credits
      ensures credits == old(credits) && (old(credits.Valid()) ==> credits.Valid())
      ensures Did(ProcessSecIdentState(old(credits.Record()), old(Connection()), data), old(sent))
      ensures sent == old(sent)
      ensures credits.Record() == old(credits.Record()).(challengeFrom := credits.m_dwCryptRndChallengeFrom)
      ensures |data| != 5 || data[0] > 2 ==>
        credits.Record() == old(credits.Record()) && Connection() == old(Connection())
      ensures |data| == 5 && data[0] <= 2 ==> Connection() == old(Connection()).(secState := data[0])
      ensures forall challenge, keyWanted :: CarriesChallenge(Packet(OP_SECIDENTSTATE, data), challenge, keyWanted) ==>
        credits.m_dwCryptRndChallengeFrom == challenge && (m_SecureIdentState == IS_KEYANDSIGNEEDED <==> keyWanted)
    {
      if |data| != 5 {
        return;
      }
      if data[0] == 0 {
        m_SecureIdentState := IS_UNAVAILABLE;
      } else if data[0] == 1 {
        m_SecureIdentState := IS_SIGNATURENEEDED;
      } else if data[0] == 2 {
        m_SecureIdentState := IS_KEYANDSIGNEEDED;
      } else {
        return;
      }
      credits.m_dwCryptRndChallengeFrom := Peek32(data[1..]);
    }

    // A key packet changes a record only while no key is stored, and never identifies anyone.
    method ProcessPublicKeyPacket(sch: Scheme, me: Local, data: Bytes)
      modifies this, credits
      ensures credits == old(credits)
      ensures Did(ProcessPublicKey(sch, me, old(credits.Record()), old(Connection()), data), old(sent))
      ensures sent == old(sent) || SentOne(old(sent))
      ensures old(credits.Valid()) ==> credits.Valid() && KeyKept(old(credits.Record()), credits.Record())
      ensures old(credits.abySecureIdent) != [] ==> credits.Record() == old(credits.Record()) && sent == old(sent)
      ensures credits.Record() == old(credits.Record()) || credits.m_identState == IS_IDNEEDED
      ensures credits.downloaded == old(credits.downloaded) && credits.uploaded == old(credits.uploaded)
      ensures |data| == 0 || |data| > 250 || data[0] != |data| - 1 ==>
        credits.Record() == old(credits.Record()) && sent == old(sent)
      ensures CryptoAvailable(me) && old(credits.abySecureIdent) == [] ==>
        forall key :: CarriesKey(Packet(OP_PUBLICKEY, data), key) ==> credits.m_abyPublicKey == key
    {
      ghost var read := Receive(sch, me, credits.Record(), Connection(), Packet(OP_PUBLICKEY, data));
      if |data| == 0 || |data| > 250 || data[0] != |data| - 1 {
        return;
      }
      if !CryptoAvailable(me) {
        return;
      }
      var ok := credits.SetSecureIdent(data[1..]);
      if ok && m_SecureIdentState == IS_SIGNATURENEEDED {
        hide SendSignature;
        SendSignaturePacket(sch, me);
      }
    }

    // A signature packet identifies the record under this connection's address if and only if it proves the
    // holder of the key, and is looked at once for each address.
    method ProcessSignaturePacket(sch: Scheme, me: Local, data: Bytes)
      modifies this, credits
      ensures credits == old(credits) && sent == old(sent)
      ensures if old(credits.abySecureIdent) == [] && credits.abySecureIdent != [] && old(credits.downloaded) > 0
              then credits.downloaded == 1 && credits.uploaded == 1
              else credits.downloaded == old(credits.downloaded) && credits.uploaded == old(credits.uploaded)
      ensures !WellFormed(data, m_bySupportSecIdent) ==>
        credits.Record() == old(credits.Record()) && Connection() == old(Connection())
      ensures Did(ProcessSignature(sch, me, old(credits.Record()), old(Connection()), data), old(sent))
      ensures old(credits.Valid()) ==> credits.Valid() && KeyKept(old(credits.Record()), credits.Record())
      ensures old(credits.Valid() && Accepts(sch, me, credits.Record(), Connection(), data)) ==>
        credits.m_identState == IS_IDENTIFIED && credits.m_dwIdentIP == m_nTCPDest &&
        credits.abySecureIdent == old(credits.m_abyPublicKey) && m_dwLastSignatureDest == m_nTCPDest
      ensures old(credits.Valid() && !Accepts(sch, me, credits.Record(), Connection(), data)) ==>
        credits.Record() == old(credits.Record()).(state := credits.m_identState) &&
        (credits.m_identState == IS_IDENTIFIED <==> old(credits.m_identState) == IS_IDENTIFIED)
    {
      if credits.Valid() {
        IdentifiedIff(sch, me, credits.Record(), Connection(), data);
        ProcessSignatureSound(sch, me, credits.Record(), Connection(), data);
      }
      hide Accepts, RecordSound, KeyKept;
      if |data| == 0 || |data| > 250 {
        return;
      }
      var kind: byte := 0;
      if data[0] == |data| - 1 {
        kind := 0;
      } else if data[0] == |data| - 2 && m_bySupportSecIdent / 2 % 2 == 1 {
        kind := data[|data| - 1];
      } else {
        return;
      }
      if !CryptoAvailable(me) || m_dwLastSignatureDest == m_nTCPDest {
        return;
      }
      if |credits.m_abyPublicKey| == 0 || credits.m_dwCryptRndChallengeFor == 0 {
        return;
      }
      hide SecureIdent.VerifyIdent;
      var ok := credits.VerifyIdent(sch, me, data[1..1 + data[0]], m_nTCPDest, kind);
      m_dwLastSignatureDest := m_nTCPDest;
    }

    // The three cases of ProcessExtPacket. Only a signature packet can identify the record.
    method ProcessExtPacket(sch: Scheme, me: Local, p: Packet)
      modifies this, credits
      ensures credits == old(credits)
      ensures Did(Receive(sch, me, old(credits.Record()), old(Connection()), p), old(sent))
      ensures old(credits.Valid()) ==> credits.Valid() && KeyKept(old(credits.Record()), credits.Record())
      ensures old(credits.Valid()) && p.op != OP_SIGNATURE && credits.m_identState == IS_IDENTIFIED ==>
        old(credits.m_identState) == IS_IDENTIFIED && credits.m_dwIdentIP == old(credits.m_dwIdentIP)
      ensures credits.m_dwCryptRndChallengeFor == old(credits.m_dwCryptRndChallengeFor)
      ensures if old(credits.abySecureIdent) == [] && credits.abySecureIdent != [] && old(credits.downloaded) > 0
              then credits.downloaded == 1 && credits.uploaded == 1
              else credits.downloaded == old(credits.downloaded) && credits.uploaded == old(credits.uploaded)
    {
      ghost var cr, cl := credits.Record(), Connection();
      hide SendSignature, SendPublicKey, ProcessPublicKey, ProcessSignature, RecordSound;
      match p.op {
        case OP_SECIDENTSTATE =>
          ProcessSecIdentStatePacket(p.data);
          assert sent == old(sent);
          if m_SecureIdentState == IS_SIGNATURENEEDED {
            SendSignaturePacket(sch, me);
          } else if m_SecureIdentState == IS_KEYANDSIGNEEDED {
            SendPublicKeyPacket(me);
            SendSignaturePacket(sch, me);
          }
        case OP_PUBLICKEY =>
          ProcessPublicKeyPacket(sch, me, p.data);
        case OP_SIGNATURE =>
          ProcessSignaturePacket(sch, me, p.data);
      }
      assert Did(Receive(sch, me, cr, cl, p), old(sent));
      hide Receive;
      ReceiveKeeps(sch, me, cr, cl, p);
    }
  }

  lemma ReceiveKeeps(sch: Scheme, me: Local, cr: Credits, cl: Client, p: Packet)
    ensures var after := Receive(sch, me, cr, cl, p).cr;
      && after.challengeFor == cr.challengeFor && CreditsReset(cr, after)
      && (RecordSound(cr) ==>
          && RecordSound(after) && KeyKept(cr, after)
          && (p.op != OP_SIGNATURE && after.state == IS_IDENTIFIED ==>
              cr.state == IS_IDENTIFIED && after.identIP == cr.identIP))
  {
    ChallengeStays(sch, me, cr, cl, p);
    ReceiveResets(sch, me, cr, cl, p);
    hide Receive;
    if RecordSound(cr) {
      ReceiveSound(sch, me, cr, cl, p);
      if p.op != OP_SIGNATURE {
        OtherPackets(sch, me, cr, cl, p);
      }
    }
  }

  // No packet received replaces a challenge of ours.
  lemma ChallengeStays(sch: Scheme, me: Local, cr: Credits, cl: Client, p: Packet)
    ensures Receive(sch, me, cr, cl, p).cr.challengeFor == cr.challengeFor
  {
    hide SendSignature, SignedMessage;
    match p.op
    case OP_SECIDENTSTATE =>
      var o := ProcessSecIdentState(cr, cl, p.data);
      SendSignatureKeeps(sch, me, o.cr, o.cl);
      var k := SendPublicKey(me, o.cr, o.cl);
      SendSignatureKeeps(sch, me, k.cr, k.cl);
    case OP_PUBLICKEY =>
      if |p.data| > 0 {
        SendSignatureKeeps(sch, me, SetSecureIdent(cr, p.data[1..]).0, cl);
      }
    case OP_SIGNATURE =>
  }
}
