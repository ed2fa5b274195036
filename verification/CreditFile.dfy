// clients.met: the byte format of the credit file, written with a back-patched count and read back.
module CreditFile {
  import opened Arithmetic
  import opened LittleEndian
  import opened Strings
  import SecureIdent

  const CREDITFILE_VERSION: byte := 0x12
  const RECORD_SIZE := 119
  const KEPT_SECONDS := 12960000   // 150 days

  // CreditStruct; the identity buffer is kept whole, with whatever follows the key in it.
  datatype Record = Record(
    key: Bytes, uploaded: nat, downloaded: nat, lastSeen: nat, reserved: nat, keySize: byte, ident: Bytes)

  predicate Sized(r: Record) {
    |r.key| == 16 && |r.ident| == SecureIdent.MAXPUBKEYSIZE
  }

  predicate AllSized(rs: seq<Record>) {
    forall i :: 0 <= i < |rs| ==> Sized(rs[i])
  }

  predicate AllFit(rs: seq<Record>) {
    forall i :: 0 <= i < |rs| ==> Fits(rs[i])
  }

  // The fields fit their widths in the file.
  predicate Fits(r: Record) {
    && Sized(r) && r.uploaded < Pow256(8) && r.downloaded < Pow256(8)
    && r.lastSeen < Pow256(4) && r.reserved < Pow256(2)
    && r.keySize <= SecureIdent.MAXPUBKEYSIZE
  }

  function Numbers(r: Record): (s: Bytes)
    ensures |s| == 23
  {
    Poke(r.uploaded, 8) + Poke(r.downloaded, 8) + Poke(r.lastSeen, 4) + Poke(r.reserved, 2) + [r.keySize]
  }

  function EncodeRecord(r: Record): (s: Bytes)
    requires Sized(r)
    ensures |s| == RECORD_SIZE
  {
    r.key + Numbers(r) + r.ident
  }

  function DecodeRecord(s: Bytes): Record
    requires |s| == RECORD_SIZE
  {
    Record(s[..16], Peek(s[16..24]), Peek(s[24..32]), Peek(s[32..36]), Peek(s[36..38]), s[38], s[39..])
  }

  lemma NumbersParts(r: Record)
    ensures var s := Numbers(r);
      s[0..8] == Poke(r.uploaded, 8) && s[8..16] == Poke(r.downloaded, 8) && s[16..20] == Poke(r.lastSeen, 4) &&
      s[20..22] == Poke(r.reserved, 2) && s[22] == r.keySize
  {
    hide Poke;
  }

  lemma EncodedParts(r: Record)
    requires Sized(r)
    ensures var s := EncodeRecord(r);
      s[..16] == r.key && s[16..39] == Numbers(r) && s[39..] == r.ident
  {
    hide Numbers;
  }

  lemma Slice(s: Bytes, i: nat, a: nat, b: nat)
    requires i + 23 <= |s| && a <= b <= 23
    ensures s[i..i + 23][a..b] == s[i + a..i + b]
  {
    var x, y := s[i..i + 23][a..b], s[i + a..i + b];
    forall k | 0 <= k < b - a ensures x[k] == y[k] {
    }
  }

  // Every field survives.
  lemma DecodeEncode(r: Record)
    requires Fits(r)
    ensures DecodeRecord(EncodeRecord(r)) == r
  {
    var s := EncodeRecord(r);
    EncodedParts(r);
    NumbersParts(r);
    Slice(s, 16, 0, 8);
    Slice(s, 16, 8, 16);
    Slice(s, 16, 16, 20);
    Slice(s, 16, 20, 22);
    assert s[38] == s[16..39][22];
    hide EncodeRecord, Numbers;
    PeekPoke(r.uploaded, 8);
    PeekPoke(r.downloaded, 8);
    PeekPoke(r.lastSeen, 4);
    PeekPoke(r.reserved, 2);
  }

  // Where the fields of CreditStruct lie.
  lemma RecordLayout(r: Record)
    requires Fits(r)
    ensures var s := EncodeRecord(r);
      && s[..16] == r.key && Peek(s[16..24]) == r.uploaded && Peek(s[24..32]) == r.downloaded
      && Peek(s[32..36]) == r.lastSeen && Peek(s[36..38]) == r.reserved && s[38] == r.keySize && s[39..] == r.ident
  {
    DecodeEncode(r);
    hide EncodeRecord;
  }

  // ---- The file ----

  function EncodeAll(rs: seq<Record>): (s: Bytes)
    requires AllSized(rs)
    ensures |s| == RECORD_SIZE * |rs|
  {
    if rs == [] then [] else EncodeAll(rs[..|rs| - 1]) + EncodeRecord(rs[|rs| - 1])
  }

  function FileBytes(rs: seq<Record>): Bytes
    requires AllSized(rs)
  {
    [CREDITFILE_VERSION] + Poke(|rs|, 4) + EncodeAll(rs)
  }

  // The oldest time that is still kept, in 32-bit arithmetic.
  function Expiry(now: nat): nat {
    (now + UINT32_RANGE - KEPT_SECONDS) % UINT32_RANGE
  }

  // Reading the records that follow the header. A corrupt record discards everything; the end of the file
  // stops the loop.
  function LoadRecords(s: Bytes, count: nat, expiry: nat, loaded: map<Bytes, Record>): map<Bytes, Record>
    decreases count
  {
    if count == 0 || |s| < RECORD_SIZE then loaded
    else
      var r := DecodeRecord(s[..RECORD_SIZE]);
      if r.keySize > SecureIdent.MAXPUBKEYSIZE then map[]
      else LoadRecords(s[RECORD_SIZE..], count - 1, expiry,
                       if r.lastSeen < expiry then loaded else loaded[r.key := r])
  }

  lemma Cut(s: Bytes, start: nat, n: nat)
    requires start + n <= |s|
    ensures s[start..][..n] == s[start..start + n] && s[start..][n..] == s[start + n..]
  {}

  function Load(s: Bytes, now: nat, loaded: map<Bytes, Record>): map<Bytes, Record> {
    if |s| < 5 || s[0] != CREDITFILE_VERSION then loaded
    else LoadRecords(s[5..], Peek(s[1..5]), Expiry(now), loaded)
  }

  lemma LoadIs(s: Bytes, now: nat, loaded: map<Bytes, Record>)
    ensures |s| < 5 || s[0] != CREDITFILE_VERSION ==> Load(s, now, loaded) == loaded
    ensures 5 <= |s| && s[0] == CREDITFILE_VERSION ==>
      Load(s, now, loaded) == LoadRecords(s[5..], Peek(s[1..5]), Expiry(now), loaded)
  {}

  lemma LoadAre(data: Bytes, now: nat, loaded: map<Bytes, Record>)
    ensures 5 <= |data| && data[0] == CREDITFILE_VERSION ==>
      var s, count := data[5..], Peek(data[1..5]);
      var rs := Slots(s, if RECORD_SIZE * count <= |s| then count else |s| / RECORD_SIZE);
      Load(data, now, loaded) == if KeySizesOk(rs) then Current(rs, Expiry(now), loaded) else map[]
  {
    LoadIs(data, now, loaded);
    hide Load, LoadRecords, Slots, Current, KeySizesOk, Expiry;
    if 5 <= |data| {
      var s, count := data[5..], Peek(data[1..5]);
      var n := if RECORD_SIZE * count <= |s| then count else |s| / RECORD_SIZE;
      LoadRecordsAre(s, count, Expiry(now), loaded, n);
    }
  }

  // The records that are still current, by key; a later record replaces an earlier one.
  function Current(rs: seq<Record>, expiry: nat, loaded: map<Bytes, Record>): map<Bytes, Record> {
    if rs == [] then loaded
    else Current(rs[1..], expiry, if rs[0].lastSeen < expiry then loaded else loaded[rs[0].key := rs[0]])
  }

  // The records that are read: as many as are announced and are there.
  function Slots(s: Bytes, n: nat): seq<Record>
    requires RECORD_SIZE * n <= |s|
  {
    if n == 0 then [] else [DecodeRecord(s[..RECORD_SIZE])] + Slots(s[RECORD_SIZE..], n - 1)
  }

  lemma {:induction false} SlotsAt(s: Bytes, n: nat, i: nat)
    requires RECORD_SIZE * n <= |s| && i < n
    ensures |Slots(s, n)| == n && Slots(s, n)[i] == DecodeRecord(s[RECORD_SIZE * i..RECORD_SIZE * (i + 1)])
  {
    hide DecodeRecord;
    var rest := s[RECORD_SIZE..];
    if n > 1 {
      SlotsAt(rest, n - 1, if i > 0 then i - 1 else 0);
      if i > 0 {
        assert rest[RECORD_SIZE * (i - 1)..RECORD_SIZE * i] == s[RECORD_SIZE * i..RECORD_SIZE * (i + 1)];
      }
    }
  }

  predicate KeySizesOk(rs: seq<Record>) {
    forall i :: 0 <= i < |rs| ==> rs[i].keySize <= SecureIdent.MAXPUBKEYSIZE
  }

  // One key size too large empties the map; otherwise the current records enter it.
  lemma {:induction false} LoadRecordsAre(s: Bytes, count: nat, expiry: nat, loaded: map<Bytes, Record>, n: nat)
    requires n == if RECORD_SIZE * count <= |s| then count else |s| / RECORD_SIZE
    ensures LoadRecords(s, count, expiry, loaded) ==
      if KeySizesOk(Slots(s, n)) then Current(Slots(s, n), expiry, loaded) else map[]
  {
    hide DecodeRecord;
    if n > 0 {
      var r := DecodeRecord(s[..RECORD_SIZE]);
      var rest := Slots(s[RECORD_SIZE..], n - 1);
      assert Slots(s, n) == [r] + rest && ([r] + rest)[1..] == rest;
      assert KeySizesOk([r] + rest) <==> r.keySize <= SecureIdent.MAXPUBKEYSIZE && KeySizesOk(rest);
      var next := if r.lastSeen < expiry then loaded else loaded[r.key := r];
      LoadRecordsAre(s[RECORD_SIZE..], count - 1, expiry, next, n - 1);
    }
  }

  // Of the records with a key, the last current one is loaded.
  lemma {:induction false} CurrentLast(rs: seq<Record>, expiry: nat, loaded: map<Bytes, Record>, i: nat)
    requires i < |rs| && expiry <= rs[i].lastSeen
    requires forall j :: i < j < |rs| && rs[j].key == rs[i].key ==> rs[j].lastSeen < expiry
    ensures rs[i].key in Current(rs, expiry, loaded) && Current(rs, expiry, loaded)[rs[i].key] == rs[i]
  {
    var next := if rs[0].lastSeen < expiry then loaded else loaded[rs[0].key := rs[0]];
    if i == 0 {
      CurrentOther(rs[1..], expiry, next, rs[0].key);
    } else {
      CurrentLast(rs[1..], expiry, next, i - 1);
    }
  }

  // Without a current record of a key, nothing changes for it.
  lemma {:induction false} CurrentOther(rs: seq<Record>, expiry: nat, loaded: map<Bytes, Record>, key: Bytes)
    requires forall j :: 0 <= j < |rs| && rs[j].key == key ==> rs[j].lastSeen < expiry
    ensures var m := Current(rs, expiry, loaded);
      (key in m <==> key in loaded) && (key in m ==> m[key] == loaded[key])
  {
    if rs != [] {
      CurrentOther(rs[1..], expiry, if rs[0].lastSeen < expiry then loaded else loaded[rs[0].key := rs[0]], key);
    }
  }

  lemma EncodeLast(rs: seq<Record>, r: Record)
    requires AllSized(rs) && Sized(r)
    ensures AllSized(rs + [r]) && EncodeAll(rs + [r]) == EncodeAll(rs) + EncodeRecord(r)
  {
    assert (rs + [r])[..|rs|] == rs;
  }

  lemma {:induction false} EncodeFirst(rs: seq<Record>)
    requires rs != [] && AllSized(rs)
    ensures EncodeAll(rs) == EncodeRecord(rs[0]) + EncodeAll(rs[1..])
  {
    hide EncodeRecord;
    var n := |rs| - 1;
    if n > 0 {
      EncodeFirst(rs[..n]);
      assert rs[..n][1..] == rs[1..][..n - 1];
    }
  }

  lemma {:induction false} LoadEncoded(rs: seq<Record>, expiry: nat, loaded: map<Bytes, Record>)
    requires AllFit(rs)
    ensures LoadRecords(EncodeAll(rs), |rs|, expiry, loaded) == Current(rs, expiry, loaded)
  {
    if rs != [] {
      EncodeFirst(rs);
      DecodeEncode(rs[0]);
      hide EncodeRecord, DecodeRecord, EncodeAll;
      var s := EncodeAll(rs);
      assert s[..RECORD_SIZE] == EncodeRecord(rs[0]);
      assert s[RECORD_SIZE..] == EncodeAll(rs[1..]);
      LoadEncoded(rs[1..], expiry, if rs[0].lastSeen < expiry then loaded else loaded[rs[0].key := rs[0]]);
    }
  }

  lemma LoadFile(rs: seq<Record>, now: nat, loaded: map<Bytes, Record>)
    requires |rs| < UINT32_RANGE && AllFit(rs)
    ensures Load(FileBytes(rs), now, loaded) == Current(rs, Expiry(now), loaded)
    ensures Peek(FileBytes(rs)[1..5]) == |rs|
  {
    var s := FileBytes(rs);
    Pow256Values();
    PeekPoke(|rs|, 4);
    assert s[1..5] == Poke(|rs|, 4);
    assert s[5..] == EncodeAll(rs);
    hide FileBytes, EncodeAll, LoadRecords, Current, Poke;
    LoadEncoded(rs, Expiry(now), loaded);
  }

  // ---- The credit map ----

  predicate Earned(r: Record) {
    r.uploaded != 0 || r.downloaded != 0
  }

  ghost predicate Keyed(clients: map<Bytes, Record>) {
    forall k :: k in clients ==> clients[k].key == k && Fits(clients[k])
  }

  // What is worth saving.
  function Saved(clients: map<Bytes, Record>): map<Bytes, Record> {
    map k | k in clients && Earned(clients[k]) :: clients[k]
  }

  // What a later load keeps of it.
  function Kept(clients: map<Bytes, Record>, expiry: nat): map<Bytes, Record> {
    map k | k in clients && Earned(clients[k]) && expiry <= clients[k].lastSeen :: clients[k]
  }

  lemma KeptIs(clients: map<Bytes, Record>)
    ensures forall expiry: nat, k :: k in Kept(clients, expiry) <==>
      k in clients && (clients[k].uploaded > 0 || clients[k].downloaded > 0) && expiry <= clients[k].lastSeen
    ensures forall expiry: nat, k :: k in Kept(clients, expiry) ==> Kept(clients, expiry)[k] == clients[k]
  {}

  // The written records are exactly the saved clients among `done`, in some order, each once.
  ghost predicate Wrote(rs: seq<Record>, clients: map<Bytes, Record>, done: set<Bytes>) {
    && (forall i :: 0 <= i < |rs| ==>
         rs[i].key in clients && rs[i].key in done && Earned(rs[i]) && clients[rs[i].key] == rs[i])
    && (forall k :: k in clients && k in done && Earned(clients[k]) ==> clients[k] in rs)
    && |rs| == |Saved(clients).Keys * done|
  }

  lemma WroteMore(rs: seq<Record>, clients: map<Bytes, Record>, done: set<Bytes>, k: Bytes)
    requires Keyed(clients) && Wrote(rs, clients, done) && k in clients && k !in done
    ensures Wrote(if Earned(clients[k]) then rs + [clients[k]] else rs, clients, done + {k})
  {
    WroteCount(clients, done, k);
    hide Saved;
    if Earned(clients[k]) {
      var more := rs + [clients[k]];
      assert more[|rs|] == clients[k];
      forall j | j in clients && j in done && Earned(clients[j]) ensures clients[j] in more {
      }
    }
  }

  lemma WroteCount(clients: map<Bytes, Record>, done: set<Bytes>, k: Bytes)
    requires k in clients && k !in done
    ensures |Saved(clients).Keys * (done + {k})| == |Saved(clients).Keys * done| + if Earned(clients[k]) then 1 else 0
  {
    var saved := Saved(clients).Keys;
    if Earned(clients[k]) {
      assert saved * (done + {k}) == saved * done + {k};
    } else {
      assert saved * (done + {k}) == saved * done;
    }
  }

  lemma {:induction false} CurrentIs(
    rs: seq<Record>, clients: map<Bytes, Record>, expiry: nat, loaded: map<Bytes, Record>)
    requires forall i :: 0 <= i < |rs| ==> rs[i].key in clients && clients[rs[i].key] == rs[i]
    requires forall k :: k in loaded ==> k in clients && loaded[k] == clients[k]
    ensures var m := Current(rs, expiry, loaded);
      && (forall k :: k in m ==> k in clients && m[k] == clients[k])
      && (forall k :: k in m <==>
            k in loaded || (k in clients && clients[k] in rs && clients[k].key == k && expiry <= clients[k].lastSeen))
  {
    if rs != [] {
      var loaded' := if rs[0].lastSeen < expiry then loaded else loaded[rs[0].key := rs[0]];
      CurrentIs(rs[1..], clients, expiry, loaded');
      assert forall r :: r in rs <==> r == rs[0] || r in rs[1..];
    }
  }

  // Whatever order the records were written in, reading gives the saved clients that are current.
  lemma CurrentKept(rs: seq<Record>, clients: map<Bytes, Record>, expiry: nat)
    requires Keyed(clients) && Wrote(rs, clients, clients.Keys)
    ensures Current(rs, expiry, map[]) == Kept(clients, expiry)
  {
    CurrentIs(rs, clients, expiry, map[]);
    assert forall r :: r in rs ==> Earned(r);
  }

  lemma WroteFits(rs: seq<Record>, clients: map<Bytes, Record>, done: set<Bytes>)
    requires Keyed(clients) && Wrote(rs, clients, done)
    ensures AllFit(rs)
  {}

  // Away from the wrap-around at the epoch, a record expires after 150 days.
  lemma ExpiredIff(now: nat, lastSeen: nat)
    requires KEPT_SECONDS <= now < UINT32_RANGE
    ensures lastSeen < Expiry(now) <==> now - lastSeen > KEPT_SECONDS
  {
    assert now + UINT32_RANGE - KEPT_SECONDS == (now - KEPT_SECONDS) + UINT32_RANGE;
  }

  // ---- Files ----

  class CFile {
    var data: Bytes
    var pos: nat

    constructor (bytes: Bytes)
      ensures data == bytes && pos == 0
    {
      data, pos := bytes, 0;
    }

    method Create()
      modifies this
      ensures data == [] && pos == 0
    {
      data, pos := [], 0;
    }

    method Seek(to: nat)
      modifies `pos
      ensures pos == to
    {
      pos := to;
    }

    // Overwrites from the file position and extends the file where necessary.
    method Write(s: Bytes)
      requires pos <= |data|
      modifies this
      ensures pos == old(pos) + |s|
      ensures data == old(data[..pos]) + s + if pos <= |old(data)| then old(data)[pos..] else []
    {
      var end := pos + |s|;
      data := data[..pos] + s + if end <= |data| then data[end..] else [];
      pos := end;
    }

    // A short read is the source's end-of-file exception.
    method Read(n: nat) returns (ok: bool, s: Bytes)
      requires pos <= |data|
      modifies `pos
      ensures ok <==> old(pos) + n <= |data|
      ensures ok ==> pos == old(pos) + n && s == data[old(pos)..pos]
      ensures !ok ==> pos == old(pos)
    {
      ok := pos + n <= |data|;
      s := [];
      if ok {
        s := data[pos..pos + n];
        pos := pos + n;
      }
    }

    method WriteRecord(r: Record)
      requires pos == |data| && Sized(r)
      modifies this
      ensures data == old(data) + EncodeRecord(r) && pos == |data|
    {
      hide Poke;
      Write(r.key);
      WriteNumbers(r);
      Write(r.ident);
    }

    method WriteNumbers(r: Record)
      requires pos == |data|
      modifies this
      ensures data == old(data) + Numbers(r) && pos == |data|
    {
      hide Poke;
      Write(Poke(r.uploaded, 8));
      Write(Poke(r.downloaded, 8));
      Write(Poke(r.lastSeen, 4));
      Write(Poke(r.reserved, 2));
      Write([r.keySize]);
    }

    method ReadRecord() returns (ok: bool, r: Record)
      requires pos <= |data|
      modifies `pos
      ensures pos <= |data| && (ok <==> old(pos) + RECORD_SIZE <= |data|)
      ensures ok ==> pos == old(pos) + RECORD_SIZE && r == DecodeRecord(data[old(pos)..pos])
    {
      hide Peek;
      r := Record([], 0, 0, 0, 0, 0, []);
      ghost var start := pos;
      var key, up, down, seen, reserved, size, ident;
      ok, key := Read(16);
      if !ok { return; }
      ok, up := Read(8);
      if !ok { return; }
      ok, down := Read(8);
      if !ok { return; }
      ok, seen := Read(4);
      if !ok { return; }
      ok, reserved := Read(2);
      if !ok { return; }
      ok, size := Read(1);
      if !ok { return; }
      ok, ident := Read(SecureIdent.MAXPUBKEYSIZE);
      if !ok { return; }
      r := Record(key, Peek(up), Peek(down), Peek(seen), Peek(reserved), size[0], ident);
      Fields(data, start);
    }

    // The pieces that were read one after the other are the fields of the record.
    lemma Fields(data: Bytes, start: nat)
      requires start + RECORD_SIZE <= |data|
      ensures var s := data[start..start + RECORD_SIZE];
        DecodeRecord(s) == Record(
          data[start..start + 16], Peek(data[start + 16..start + 24]), Peek(data[start + 24..start + 32]),
          Peek(data[start + 32..start + 36]), Peek(data[start + 36..start + 38]), data[start + 38],
          data[start + 39..start + 119])
    {
      hide Peek;
      Within(data, start, 0, 16);
      Within(data, start, 16, 24);
      Within(data, start, 24, 32);
      Within(data, start, 32, 36);
      Within(data, start, 36, 38);
      Within(data, start, 39, 119);
      var s := data[start..start + RECORD_SIZE];
      assert s[..16] == s[0..16] && s[39..] == s[39..119];
    }

    lemma Within(data: Bytes, start: nat, i: nat, j: nat)
      requires start + RECORD_SIZE <= |data| && i <= j <= RECORD_SIZE
      ensures data[start..start + RECORD_SIZE][i..j] == data[start + i..start + j]
    {
      var x, y := data[start..start + RECORD_SIZE][i..j], data[start + i..start + j];
      forall k | 0 <= k < j - i ensures x[k] == y[k] {
      }
    }
  }

  class CClientCreditsList {
    var m_mapClients: map<Bytes, Record>

    constructor ()
      ensures m_mapClients == map[]
    {
      m_mapClients := map[];
    }

    method GetCredit(key: Bytes, now: nat) returns (r: Record)
      modifies this
      ensures key in m_mapClients && m_mapClients[key] == r && r.lastSeen == now
      ensures key in old(m_mapClients) ==> r == old(m_mapClients)[key].(lastSeen := now)
      ensures key !in old(m_mapClients) ==> r.key == key && !Earned(r) && r.keySize == 0
      ensures m_mapClients == old(m_mapClients)[key := r]
      ensures old(Keyed(m_mapClients)) && |key| == 16 && now < UINT32_RANGE ==> Keyed(m_mapClients)
    {
      Pow256Values();
      if key !in m_mapClients {
        r := Record(key, 0, 0, 0, 0, 0, seq(SecureIdent.MAXPUBKEYSIZE, i => 0));
      } else {
        r := m_mapClients[key];
      }
      r := r.(lastSeen := now);
      m_mapClients := m_mapClients[key := r];
    }

    // What is written can be read back: every load gives the clients with a nonzero total that have not
    // expired, unchanged, and the count at offset 1 is the number of records.
    method SaveList(file: CFile)
      requires Keyed(m_mapClients) && |m_mapClients| < UINT32_RANGE
      modifies file
      ensures forall now :: Load(file.data, now, map[]) == Kept(m_mapClients, Expiry(now))
      ensures forall now, k :: k in Load(file.data, now, map[]) <==>
        k in m_mapClients && (m_mapClients[k].uploaded > 0 || m_mapClients[k].downloaded > 0) &&
        Expiry(now) <= m_mapClients[k].lastSeen
      ensures forall now, k :: k in Load(file.data, now, map[]) ==> Load(file.data, now, map[])[k] == m_mapClients[k]
      ensures |file.data| == 5 + RECORD_SIZE * |Saved(m_mapClients)| && file.data[0] == CREDITFILE_VERSION
      ensures Peek(file.data[1..5]) == |Saved(m_mapClients)|
    {
      file.Create();
      file.Write([CREDITFILE_VERSION]);
      file.Write(Poke(0, 4));
      ghost var header := file.data;
      var count; ghost var rs;
      count, rs := SaveClients(file);
      Patched(file.data, header, rs);
      SavedFile(m_mapClients, rs);
      KeptIs(m_mapClients);
      hide Keyed, Kept, Expiry, Load, EncodeAll, FileBytes, Poke, Peek, Wrote;
      file.Seek(1);
      file.Write(Poke(count, 4));
    }

    // The loop of SaveList: the records follow the header, in whatever order the map gives them.
    method SaveClients(file: CFile) returns (count: nat, ghost rs: seq<Record>)
      requires Keyed(m_mapClients) && file.pos == |file.data|
      modifies file
      ensures Wrote(rs, m_mapClients, m_mapClients.Keys) && AllSized(rs) && count == |rs|
      ensures file.data == old(file.data) + EncodeAll(rs) && file.pos == |file.data|
    {
      hide Wrote, Keyed, EncodeRecord, EncodeAll, Fits;
      count, rs := 0, [];
      var todo := m_mapClients.Keys;
      ghost var done: set<Bytes> := {};
      WroteNone(m_mapClients);
      while todo != {}
        invariant todo !! done && todo + done == m_mapClients.Keys
        invariant Wrote(rs, m_mapClients, done) && AllSized(rs)
        invariant file.data == old(file.data) + EncodeAll(rs) && file.pos == |file.data| && count == |rs|
        decreases |todo|
      {
        var key :| key in todo;
        var r := m_mapClients[key];
        KeyedAt(m_mapClients, key);
        WroteMore(rs, m_mapClients, done, key);
        todo, done := todo - {key}, done + {key};
        if r.uploaded != 0 || r.downloaded != 0 {
          EncodeLast(rs, r);
          file.WriteRecord(r);
          count := count + 1;
          rs := rs + [r];
        }
      }
    }

    lemma KeyedAt(clients: map<Bytes, Record>, k: Bytes)
      requires Keyed(clients) && k in clients
      ensures clients[k].key == k && Sized(clients[k])
    {}

    lemma WroteNone(clients: map<Bytes, Record>)
      ensures Wrote([], clients, {}) && AllSized([]) && EncodeAll([]) == []
    {
      assert Saved(clients).Keys * {} == {};
    }

    // Overwriting four bytes at offset 1 turns the placeholder into the count.
    lemma Patched(data: Bytes, header: Bytes, rs: seq<Record>)
      requires AllSized(rs) && |header| == 5 && header[0] == CREDITFILE_VERSION && data == header + EncodeAll(rs)
      ensures data[..1] + Poke(|rs|, 4) + data[5..] == FileBytes(rs)
    {
      assert data[..1] == [CREDITFILE_VERSION];
      assert data[5..] == EncodeAll(rs);
    }

    lemma SavedFile(clients: map<Bytes, Record>, rs: seq<Record>)
      requires Keyed(clients) && |clients| < UINT32_RANGE && Wrote(rs, clients, clients.Keys) && AllSized(rs)
      ensures forall now :: Load(FileBytes(rs), now, map[]) == Kept(clients, Expiry(now))
      ensures |FileBytes(rs)| == 5 + RECORD_SIZE * |Saved(clients)| && FileBytes(rs)[0] == CREDITFILE_VERSION
      ensures Peek(FileBytes(rs)[1..5]) == |Saved(clients)|
    {
      WroteFits(rs, clients, clients.Keys);
      assert Saved(clients).Keys * clients.Keys == Saved(clients).Keys;
      Subset(Saved(clients).Keys, clients.Keys);
      hide Wrote, Keyed, FileBytes, Current, Kept, Load, AllFit;
      forall now ensures Load(FileBytes(rs), now, map[]) == Kept(clients, Expiry(now)) {
        LoadFile(rs, now, map[]);
        CurrentKept(rs, clients, Expiry(now));
      }
      LoadFile(rs, 0, map[]);
    }

    lemma Subset(a: set<Bytes>, b: set<Bytes>)
      requires a <= b
      ensures |a| <= |b|
    {
      assert b == a + (b - a);
    }

    method LoadList(file: CFile, now: nat)
      requires file.pos == 0
      modifies this, file
      ensures m_mapClients == Load(file.data, now, old(m_mapClients)) && file.data == old(file.data)
      ensures |file.data| < 5 || file.data[0] != 0x12 ==> m_mapClients == old(m_mapClients)
      ensures 5 <= |file.data| && file.data[0] == 0x12 ==>
        var s, count := file.data[5..], Peek(file.data[1..5]);
        var rs := Slots(s, if RECORD_SIZE * count <= |s| then count else |s| / RECORD_SIZE);
        && (KeySizesOk(rs) ==> m_mapClients == Current(rs, Expiry(now), old(m_mapClients)))
        && (!KeySizesOk(rs) ==> m_mapClients == map[])
    {
      hide Load, Slots, KeySizesOk, Current, Expiry, Peek, DecodeRecord;
      LoadAre(file.data, now, m_mapClients);
      LoadIs(file.data, now, m_mapClients);
      var ok, bytes := file.Read(1);
      if !ok || bytes[0] != CREDITFILE_VERSION {
        return;
      }
      ok, bytes := file.Read(4);
      if !ok {
        return;
      }
      var count := Peek(bytes);
      var expired := Expiry(now);
      var i := 0;
      ghost var all := LoadRecords(file.data[5..], count, expired, m_mapClients);
      while i < count
        invariant 0 <= i <= count && file.pos <= |file.data| && file.data == old(file.data)
        invariant LoadRecords(file.data[file.pos..], count - i, expired, m_mapClients) == all
      {
        var r;
        hide DecodeRecord;
        ghost var start := file.pos;
        ok, r := file.ReadRecord();
        if !ok {
          return;
        }
        Cut(file.data, start, RECORD_SIZE);
        if r.keySize > SecureIdent.MAXPUBKEYSIZE {
          m_mapClients := map[];
          return;
        }
        if r.lastSeen >= expired {
          m_mapClients := m_mapClients[r.key := r];
        }
        i := i + 1;
      }
    }
  }
}
