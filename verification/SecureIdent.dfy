// Secure identification: the credit record's key and identification state, and the three packets that
// change them.
module SecureIdent {
  import opened Arithmetic
  import opened LittleEndian
  import opened Strings

  const MAXPUBKEYSIZE := 80

  const CRYPT_CIP_REMOTECLIENT: byte := 10
  const CRYPT_CIP_LOCALCLIENT: byte := 20

  // IS_UNAVAILABLE and IS_ALLREQUESTSSEND are the same value.
  const IS_UNAVAILABLE: byte := 0
  const IS_SIGNATURENEEDED: byte := 1
  const IS_KEYANDSIGNEEDED: byte := 2

  datatype EIdentState = IS_NOTAVAILABLE | IS_IDNEEDED | IS_IDENTIFIED | IS_IDFAILED | IS_IDBADGUY

  // A credit record: the stored key (abySecureIdent up to nKeySize) and the working key.
  datatype Credits = Credits(
    uploaded: nat, downloaded: nat, stored: Bytes,
    working: Bytes, state: EIdentState, challengeFor: nat, challengeFrom: nat, identIP: nat)

  // A client connection: m_SecureIdentState, m_dwLastSignatureDest, GetTCPDest(), m_bySupportSecIdent.
  datatype Client = Client(secState: byte, lastSignature: nat, dest: nat, support: nat)

  // What this process knows about itself.
  datatype Local = Local(publicKey: Bytes, signer: bool, publicDest: nat, destKnown: bool, lowID: bool, id: nat)

  // Signature creation and verification; keys are named by the public key. `behind` is what lies in memory
  // behind the buffer that a signature is put into.
  datatype Scheme = Scheme(sign: (Bytes, Bytes) -> Bytes, verify: (Bytes, Bytes, Bytes) -> bool, behind: nat -> byte)

  datatype Opcode = OP_SECIDENTSTATE | OP_PUBLICKEY | OP_SIGNATURE
  datatype Packet = Packet(op: Opcode, data: Bytes)

  // A handler's outcome: the new record and connection, and the packets it sends in order.
  datatype Out = Out(cr: Credits, cl: Client, sent: seq<Packet>)

  // ---- byte strings ----

  function Poke32(n: nat): Bytes {
    Poke(n, 4)
  }

  function Peek32(s: Bytes): nat
    requires |s| == 4
  {
    Peek(s)
  }

  lemma PokePeek(n: nat)
    requires n < UINT32_RANGE
    ensures Peek32(Poke32(n)) == n
  {
    Pow256Values();
    PeekPoke(n, 4);
  }

  // The string that is signed: the verifier's public key and challenge, and in version 2 an address with
  // its kind.
  function SignedMessage(key: Bytes, challenge: nat, ip: nat, kind: byte): Bytes {
    key + Poke32(challenge) + if kind != 0 then Poke32(ip) + [kind] else []
  }

  function CryptoAvailable(me: Local): bool {
    |me.publicKey| > 0 && me.signer
  }

  // ---- The record ----

  function InitalizeIdent(uploaded: nat, downloaded: nat, stored: Bytes): Credits {
    Credits(uploaded, downloaded, stored, stored, if stored == [] then IS_NOTAVAILABLE else IS_IDNEEDED, 0, 0, 0)
  }

  function SetSecureIdent(cr: Credits, ident: Bytes): (Credits, bool) {
    if MAXPUBKEYSIZE < |ident| || cr.stored != [] then (cr, false)
    else (cr.(working := ident, state := IS_IDNEEDED), true)
  }

  function Verified(cr: Credits, ip: nat): Credits {
    var cr := cr.(identIP := ip, state := IS_IDENTIFIED);
    if cr.stored != [] then cr
    else if cr.downloaded > 0 then cr.(stored := cr.working, downloaded := 1, uploaded := 1)
    else cr.(stored := cr.working)
  }

  function GetCurrentIdentState(cr: Credits, ip: nat): EIdentState {
    if cr.state != IS_IDENTIFIED then cr.state else if ip == cr.identIP then IS_IDENTIFIED else IS_IDBADGUY
  }

  predicate Refused(cr: Credits, ip: nat, cryptoavail: bool) {
    cryptoavail && GetCurrentIdentState(cr, ip) in {IS_IDFAILED, IS_IDBADGUY, IS_IDNEEDED}
  }

  function AddDownloaded(cr: Credits, bytes: nat, ip: nat, cryptoavail: bool): Credits {
    if Refused(cr, ip, cryptoavail) then cr else cr.(downloaded := cr.downloaded + bytes)
  }

  function AddUploaded(cr: Credits, bytes: nat, ip: nat, cryptoavail: bool): Credits {
    if Refused(cr, ip, cryptoavail) then cr else cr.(uploaded := cr.uploaded + bytes)
  }

  // The address the verifier puts into a version 2 string.
  function ChallengeIP(me: Local, ip: nat, kind: byte): nat {
    if kind == CRYPT_CIP_LOCALCLIENT then ip
    else if kind == CRYPT_CIP_REMOTECLIENT then
      if !me.destKnown && !me.lowID then me.id else me.publicDest
    else 0
  }

  function VerifyIdent(sch: Scheme, me: Local, cr: Credits, sig: Bytes, ip: nat, kind: byte): Credits {
    if !CryptoAvailable(me) then cr.(state := IS_NOTAVAILABLE)
    else if sch.verify(cr.working, SignedMessage(me.publicKey, cr.challengeFor, ChallengeIP(me, ip, kind), kind), sig)
    then Verified(cr, ip)
    else if cr.state == IS_IDNEEDED then cr.(state := IS_IDFAILED)
    else cr
  }

  // ---- Sending ----

  const SIGNATURE_BUFFER := 250

  // CreateSignature signs the peer's key and its challenge. It puts what fits into the buffer and returns the
  // full length in a byte; the result is the part of the buffer that this length covers.
  function CreateSignature(sch: Scheme, me: Local, cr: Credits, ip: nat, kind: byte): Bytes {
    if !CryptoAvailable(me) then []
    else
      var sig := sch.sign(me.publicKey, SignedMessage(cr.working, cr.challengeFrom, ip, kind));
      var length := |sig| % 256;
      if length <= SIGNATURE_BUFFER then sig[..length]
      else sig[..SIGNATURE_BUFFER] + seq(length - SIGNATURE_BUFFER, i requires 0 <= i => sch.behind(i))
  }

  function SendSignature(sch: Scheme, me: Local, cr: Credits, cl: Client): Out {
    if cl.secState == 0 || !CryptoAvailable(me) || |cr.working| == 0 || cr.challengeFrom == 0 then Out(cr, cl, [])
    else
      var v2 := cl.support % 2 != 1;
      var kind := if v2 then CRYPT_CIP_LOCALCLIENT else 0;
      var sig := CreateSignature(sch, me, cr, if v2 then me.publicDest else 0, kind);
      if |sig| == 0 then Out(cr, cl, [])
      else Out(cr, cl.(secState := IS_UNAVAILABLE),
               [Packet(OP_SIGNATURE, [|sig|] + sig + if v2 then [kind] else [])])
  }

  function SendPublicKey(me: Local, cr: Credits, cl: Client): Out {
    if cl.secState != IS_KEYANDSIGNEEDED || !CryptoAvailable(me) then Out(cr, cl, [])
    else Out(cr, cl.(secState := IS_SIGNATURENEEDED),
             [Packet(OP_PUBLICKEY, [|me.publicKey| % 256] + me.publicKey)])
  }

  function SendSecIdentState(me: Local, cr: Credits, cl: Client, random: nat): Out {
    var value: byte :=
      if !CryptoAvailable(me) then 0
      else if |cr.working| == 0 then IS_KEYANDSIGNEEDED
      else if cl.lastSignature != cl.dest then IS_SIGNATURENEEDED
      else 0;
    if value == 0 then Out(cr, cl, [])
    else Out(cr.(challengeFor := random), cl, [Packet(OP_SECIDENTSTATE, [value] + Poke32(random))])
  }

  // ---- Receiving ----

  function ProcessSecIdentState(cr: Credits, cl: Client, data: Bytes): Out {
    if |data| != 5 || data[0] > 2 then Out(cr, cl, [])
    else Out(cr.(challengeFrom := Peek32(data[1..])), cl.(secState := data[0]), [])
  }

  function ProcessPublicKey(sch: Scheme, me: Local, cr: Credits, cl: Client, data: Bytes): Out {
    if |data| == 0 || |data| > 250 || data[0] != |data| - 1 || !CryptoAvailable(me) then Out(cr, cl, [])
    else
      var (cr', ok) := SetSecureIdent(cr, data[1..]);
      if ok && cl.secState == IS_SIGNATURENEEDED then SendSignature(sch, me, cr', cl) else Out(cr', cl, [])
  }

  // The kind byte of a signature packet: 0 for version 1; none when the packet is malformed.
  function SignatureKind(cl: Client, data: Bytes): int {
    if |data| == 0 || |data| > 250 then -1
    else if data[0] == |data| - 1 then 0
    else if data[0] == |data| - 2 && cl.support / 2 % 2 == 1 then data[|data| - 1]
    else -1
  }

  function SignatureBytes(data: Bytes): Bytes
    requires |data| > 0 && data[0] < |data|
  {
    data[1..1 + data[0]]
  }

  function ProcessSignature(sch: Scheme, me: Local, cr: Credits, cl: Client, data: Bytes): Out {
    var kind := SignatureKind(cl, data);
    if kind < 0 || !CryptoAvailable(me) || cl.lastSignature == cl.dest || |cr.working| == 0 || cr.challengeFor == 0
    then Out(cr, cl, [])
    else Out(VerifyIdent(sch, me, cr, SignatureBytes(data), cl.dest, kind), cl.(lastSignature := cl.dest), [])
  }

  // One handler after another.
  function Then(first: Out, next: Out): Out {
    Out(next.cr, next.cl, first.sent + next.sent)
  }

  // The dispatch of ProcessExtPacket.
  function Receive(sch: Scheme, me: Local, cr: Credits, cl: Client, p: Packet): Out {
    match p.op
    case OP_SECIDENTSTATE =>
      var o := ProcessSecIdentState(cr, cl, p.data);
      if o.cl.secState == IS_SIGNATURENEEDED then SendSignature(sch, me, o.cr, o.cl)
      else if o.cl.secState == IS_KEYANDSIGNEEDED then
        var k := SendPublicKey(me, o.cr, o.cl);
        Then(k, SendSignature(sch, me, k.cr, k.cl))
      else o
    case OP_PUBLICKEY => ProcessPublicKey(sch, me, cr, cl, p.data)
    case OP_SIGNATURE => ProcessSignature(sch, me, cr, cl, p.data)
  }

  // ---- What every step keeps ----

  // A stored key is the working key; identification requires one.
  ghost predicate RecordSound(cr: Credits) {
    && (cr.stored != [] ==> cr.working == cr.stored)
    && (cr.state == IS_IDENTIFIED ==> cr.stored != [])
    && (cr.stored != [] ==> cr.state != IS_NOTAVAILABLE)
    && |cr.working| <= MAXPUBKEYSIZE
  }

  // A stored key never changes.
  ghost predicate KeyKept(before: Credits, after: Credits) {
    before.stored != [] ==> after.stored == before.stored && after.working == before.working
  }

  lemma InitialSound(uploaded: nat, downloaded: nat, stored: Bytes)
    requires |stored| <= MAXPUBKEYSIZE
    ensures RecordSound(InitalizeIdent(uploaded, downloaded, stored))
  {}

  lemma SendSignatureKeeps(sch: Scheme, me: Local, cr: Credits, cl: Client)
    ensures SendSignature(sch, me, cr, cl).cr == cr
  {}

  lemma ProcessSignatureSound(sch: Scheme, me: Local, cr: Credits, cl: Client, data: Bytes)
    requires RecordSound(cr)
    ensures RecordSound(ProcessSignature(sch, me, cr, cl, data).cr)
    ensures KeyKept(cr, ProcessSignature(sch, me, cr, cl, data).cr)
  {
    hide SignedMessage;
  }

  lemma ReceiveSound(sch: Scheme, me: Local, cr: Credits, cl: Client, p: Packet)
    requires RecordSound(cr)
    ensures RecordSound(Receive(sch, me, cr, cl, p).cr) && KeyKept(cr, Receive(sch, me, cr, cl, p).cr)
  {
    match p.op
    case OP_SECIDENTSTATE =>
      hide SendSignature;
      var o := ProcessSecIdentState(cr, cl, p.data);
      SendSignatureKeeps(sch, me, o.cr, o.cl);
      var k := SendPublicKey(me, o.cr, o.cl);
      SendSignatureKeeps(sch, me, k.cr, k.cl);
    case OP_PUBLICKEY =>
      hide SendSignature;
      if |p.data| > 0 {
        SendSignatureKeeps(sch, me, SetSecureIdent(cr, p.data[1..]).0, cl);
      }
    case OP_SIGNATURE =>
      hide ProcessSignature;
      ProcessSignatureSound(sch, me, cr, cl, p.data);
  }

  // The signature packet shows that the holder of the record's key signed our key and the challenge issued
  // last, and in version 2 the address with its kind.
  predicate Proves(sch: Scheme, me: Local, cr: Credits, cl: Client, data: Bytes) {
    var kind := SignatureKind(cl, data);
    && kind >= 0 && |cr.working| > 0 && cr.challengeFor != 0
    && sch.verify(cr.working, SignedMessage(me.publicKey, cr.challengeFor, ChallengeIP(me, cl.dest, kind), kind),
                  SignatureBytes(data))
  }

  // One signature is looked at for each address.
  predicate Accepts(sch: Scheme, me: Local, cr: Credits, cl: Client, data: Bytes) {
    CryptoAvailable(me) && cl.lastSignature != cl.dest && Proves(sch, me, cr, cl, data)
  }

  // A signature packet identifies a record, under the address of the connection, if and only if it proves
  // the holder of the key; one that does not leaves an identified record as it is.
  lemma IdentifiedIff(sch: Scheme, me: Local, cr: Credits, cl: Client, data: Bytes)
    requires RecordSound(cr)
    ensures var after := ProcessSignature(sch, me, cr, cl, data).cr;
      if Accepts(sch, me, cr, cl, data)
      then after.state == IS_IDENTIFIED && after.identIP == cl.dest && after.stored == cr.working
      else after == cr.(state := after.state) && (after.state == IS_IDENTIFIED <==> cr.state == IS_IDENTIFIED)
  {
    hide SignedMessage, ChallengeIP;
  }

  // Credits earned before a key was stored cannot be taken over by whoever stores one: a byte is left of them.
  // Otherwise the totals stay as they are.
  predicate CreditsReset(before: Credits, after: Credits) {
    if before.stored == [] && after.stored != [] && before.downloaded > 0
    then after.downloaded == 1 && after.uploaded == 1
    else after.downloaded == before.downloaded && after.uploaded == before.uploaded
  }

  lemma ProcessSignatureResets(sch: Scheme, me: Local, cr: Credits, cl: Client, data: Bytes)
    ensures CreditsReset(cr, ProcessSignature(sch, me, cr, cl, data).cr)
  {
    hide SignedMessage, ChallengeIP;
  }

  // No packet that is received changes the totals in another way.
  lemma ReceiveResets(sch: Scheme, me: Local, cr: Credits, cl: Client, p: Packet)
    ensures CreditsReset(cr, Receive(sch, me, cr, cl, p).cr)
  {
    match p.op
    case OP_SECIDENTSTATE =>
      hide SendSignature;
      var o := ProcessSecIdentState(cr, cl, p.data);
      SendSignatureKeeps(sch, me, o.cr, o.cl);
      var k := SendPublicKey(me, o.cr, o.cl);
      SendSignatureKeeps(sch, me, k.cr, k.cl);
    case OP_PUBLICKEY =>
      hide SendSignature;
      if |p.data| > 0 {
        SendSignatureKeeps(sch, me, SetSecureIdent(cr, p.data[1..]).0, cl);
      }
    case OP_SIGNATURE =>
      hide ProcessSignature;
      ProcessSignatureResets(sch, me, cr, cl, p.data);
  }

  // Nothing can be signed twice over: keys of one length, challenges, addresses and kinds are all told apart.
  lemma MessageInjective(
    key: Bytes, challenge: nat, ip: nat, kind: byte, key': Bytes, challenge': nat, ip': nat, kind': byte)
    requires |key| == |key'| && challenge < UINT32_RANGE && challenge' < UINT32_RANGE
    requires ip < UINT32_RANGE && ip' < UINT32_RANGE
    requires SignedMessage(key, challenge, ip, kind) == SignedMessage(key', challenge', ip', kind')
    ensures key == key' && challenge == challenge' && kind == kind' && (kind != 0 ==> ip == ip')
  {
    var s, s' := SignedMessage(key, challenge, ip, kind), SignedMessage(key', challenge', ip', kind');
    var n := |key|;
    MessageParts(key, challenge, ip, kind);
    MessageParts(key', challenge', ip', kind');
    hide SignedMessage, Poke32, Peek32;
    PokePeek(challenge);
    PokePeek(challenge');
    PokePeek(ip);
    PokePeek(ip');
  }

  lemma MessageParts(key: Bytes, challenge: nat, ip: nat, kind: byte)
    ensures var s, n := SignedMessage(key, challenge, ip, kind), |key|;
      && |s| == n + 4 + (if kind != 0 then 5 else 0)
      && s[..n] == key && s[n..n + 4] == Poke32(challenge)
      && (kind != 0 ==> s[n + 4..n + 8] == Poke32(ip) && s[n + 8] == kind)
  {
    hide Poke;
  }

  // ---- What identification is for ----

  // The address may earn and spend credits: signatures are not in use, or the client has never shown a key,
  // or it has been identified at this very address.
  predicate Trusted(cr: Credits, ip: nat, cryptoavail: bool) {
    cryptoavail ==> cr.state == IS_NOTAVAILABLE || (cr.state == IS_IDENTIFIED && ip == cr.identIP)
  }

  lemma TrustedIsNotRefused(cr: Credits, ip: nat, cryptoavail: bool)
    ensures Trusted(cr, ip, cryptoavail) <==> !Refused(cr, ip, cryptoavail)
  {}

  // Once a key is stored and signatures are in use, bytes are credited exactly when they come from the
  // address that was identified.
  lemma CreditedIff(cr: Credits, bytes: nat, ip: nat)
    requires RecordSound(cr) && cr.stored != []
    ensures AddDownloaded(cr, bytes, ip, true) != cr <==> 0 < bytes && cr.state == IS_IDENTIFIED && ip == cr.identIP
    ensures AddUploaded(cr, bytes, ip, true) != cr <==> 0 < bytes && cr.state == IS_IDENTIFIED && ip == cr.identIP
  {
    var down, up := AddDownloaded(cr, bytes, ip, true), AddUploaded(cr, bytes, ip, true);
    assert down.downloaded == cr.downloaded + bytes || down == cr;
    assert up.uploaded == cr.uploaded + bytes || up == cr;
  }

  // GetScoreRatio over the reals; sqrt stands for the library's square root.
  function GetScoreRatio(sqrt: real -> real, cr: Credits, ip: nat, cryptoavail: bool): real {
    if Refused(cr, ip, cryptoavail) || cr.downloaded < 1000000 then 1.0
    else
      var ratio := if cr.uploaded == 0 then 10.0 else cr.downloaded as real * 2.0 / cr.uploaded as real;
      var root := sqrt(cr.downloaded as real / 1048576.0 + 2.0);
      var result := if ratio > root then root else ratio;
      if result < 1.0 then 1.0 else if result > 10.0 then 10.0 else result
  }

  // Where the multiplier lies: none for an address that is refused or for less than a million bytes; else ten if
  // nothing was uploaded, or twice downloaded over uploaded, cut to the square root bound, and to 1 and 10.
  lemma ScoreIs(sqrt: real -> real, cr: Credits, ip: nat, cryptoavail: bool)
    ensures var r, root := GetScoreRatio(sqrt, cr, ip, cryptoavail), sqrt(cr.downloaded as real / 1048576.0 + 2.0);
      && (cr.downloaded < 1000000 || !Trusted(cr, ip, cryptoavail) ==> r == 1.0)
      && (1000000 <= cr.downloaded && Trusted(cr, ip, cryptoavail) ==>
          && (cr.uploaded == 0 && 10.0 <= root ==> r == 10.0)
          && (cr.uploaded == 0 && 1.0 <= root < 10.0 ==> r == root)
          && (cr.uploaded > 0 && 1.0 < r < 10.0 && r < root ==>
              r * cr.uploaded as real == 2.0 * cr.downloaded as real)
          && (cr.uploaded > 0 && 1.0 < r ==> r * cr.uploaded as real <= 2.0 * cr.downloaded as real)
          && (cr.uploaded > 0 && r == 1.0 && 1.0 < root ==> 2.0 * cr.downloaded as real <= cr.uploaded as real)
          && (1.0 < r ==> r <= root))
  {
    if cr.uploaded > 0 {
      Ratio(cr.downloaded as real * 2.0, cr.uploaded as real, GetScoreRatio(sqrt, cr, ip, cryptoavail));
    }
  }

  lemma Ratio(a: real, b: real, x: real)
    requires 0.0 < b
    ensures a / b * b == a
    ensures x <= a / b ==> x * b <= a
    ensures a / b <= 1.0 ==> a <= b
  {
    var q := a / b;
    assert q * b == a;
    if x <= q {
      Scale(x, q, b);
    }
    if q <= 1.0 {
      Scale(q, 1.0, b);
    }
  }

  lemma Scale(x: real, y: real, b: real)
    requires x <= y && 0.0 < b
    ensures x * b <= y * b
  {}

  ghost predicate Monotone(f: real -> real) {
    forall x, y :: x <= y ==> f(x) <= f(y)
  }

  lemma DivideMonotone(a: real, b: real, c: real)
    requires a <= b && 0.0 < c
    ensures a / c <= b / c
  {
    assert b / c - a / c == (b - a) / c;
  }

  // The multiplier stays between 1 and 10, grows with what was downloaded from the client, and does not
  // exceed the square root bound unless that is below 1.
  lemma ScoreBounds(sqrt: real -> real, cr: Credits, more: Credits, ip: nat, cryptoavail: bool)
    requires Monotone(sqrt)
    requires more == cr.(downloaded := more.downloaded) && cr.downloaded <= more.downloaded
    ensures 1.0 <= GetScoreRatio(sqrt, cr, ip, cryptoavail) <= GetScoreRatio(sqrt, more, ip, cryptoavail) <= 10.0
    ensures GetScoreRatio(sqrt, cr, ip, cryptoavail) <= 1.0 ||
      GetScoreRatio(sqrt, cr, ip, cryptoavail) <= sqrt(cr.downloaded as real / 1048576.0 + 2.0)
  {
    var d, m := cr.downloaded as real, more.downloaded as real;
    DivideMonotone(d, m, 1048576.0);
    assert sqrt(d / 1048576.0 + 2.0) <= sqrt(m / 1048576.0 + 2.0);
    if cr.uploaded != 0 {
      DivideMonotone(d * 2.0, m * 2.0, cr.uploaded as real);
    }
  }
}
