// A packed bit vector with a cached answer to "are all bits set?".
module BitVectors {
  type Bits = seq<bool>

  // s_posMask and s_negMask.
  function PosMask(k: nat): bv8
    requires k < 8
  {
    match k
    case 0 => 0x01
    case 1 => 0x02
    case 2 => 0x04
    case 3 => 0x08
    case 4 => 0x10
    case 5 => 0x20
    case 6 => 0x40
    case 7 => 0x80
  }

  function NegMask(k: nat): bv8
    requires k < 8
  {
    match k
    case 0 => 0xFE
    case 1 => 0xFD
    case 2 => 0xFB
    case 3 => 0xF7
    case 4 => 0xEF
    case 5 => 0xDF
    case 6 => 0xBF
    case 7 => 0x7F
  }

  // Bit k has the weight 2^k.
  lemma MaskIs(k: nat)
    requires k < 8
    ensures PosMask(k) == 1 << k && NegMask(k) == !PosMask(k)
  {}

  predicate Bit(b: bv8, k: nat)
    requires k < 8
  {
    b & PosMask(k) != 0
  }

  // The bits below n of a packed sequence.
  function Unpack(v: seq<bv8>, n: nat): (bits: Bits)
    requires n <= 8 * |v|
    ensures |bits| == n
  {
    seq(n, i requires 0 <= i < n => Bit(v[i / 8], i % 8))
  }

  predicate AllSet(bits: Bits) {
    forall i :: 0 <= i < |bits| ==> bits[i]
  }

  lemma OrBit(b: bv8, k: nat, j: nat)
    requires k < 8 && j < 8
    ensures Bit(b | PosMask(k), j) <==> j == k || Bit(b, j)
  {
    var x, y := PosMask(k), PosMask(j);
    assert j != k ==> x & y == 0;
    assert (b | x) & y == (b & y) | (x & y);
  }

  lemma AndBit(b: bv8, k: nat, j: nat)
    requires k < 8 && j < 8
    ensures Bit(b & NegMask(k), j) <==> j != k && Bit(b, j)
  {
    var x, y := NegMask(k), PosMask(j);
    assert j != k ==> x & y == y;
    assert j == k ==> x & y == 0;
    assert (b & x) & y == b & (x & y);
  }

  lemma AllSetUpdate(bits: Bits, idx: nat)
    requires idx < |bits|
    ensures !AllSet(bits[idx := false]) && (AllSet(bits) ==> AllSet(bits[idx := true]))
  {
    assert !bits[idx := false][idx];
  }

  // A byte is 0xFF exactly when its eight bits are set.
  lemma FullByte(b: bv8)
    ensures b == 0xFF <==> forall k :: 0 <= k < 8 ==> Bit(b, k)
  {
    if forall k :: 0 <= k < 8 ==> Bit(b, k) {
      assert Bit(b, 0) && Bit(b, 1) && Bit(b, 2) && Bit(b, 3);
      assert Bit(b, 4) && Bit(b, 5) && Bit(b, 6) && Bit(b, 7);
      Ones(b);
    }
  }

  lemma Ones(b: bv8)
    requires b & 0x01 != 0 && b & 0x02 != 0 && b & 0x04 != 0 && b & 0x08 != 0
    requires b & 0x10 != 0 && b & 0x20 != 0 && b & 0x40 != 0 && b & 0x80 != 0
    ensures b == 0xFF
  {}

  lemma ZeroByte(k: nat)
    requires k < 8
    ensures !Bit(0, k)
  {}

  // A byte with one bit set by its positive mask, or cleared by its negative one.
  function Marked(b: bv8, k: nat, value: bool): bv8
    requires k < 8
  {
    if value then b | PosMask(k) else b & NegMask(k)
  }

  // Setting and clearing one bit of the packed form changes one bit of the sequence.
  lemma UnpackUpdate(v: seq<bv8>, n: nat, idx: nat, value: bool)
    requires n <= 8 * |v| && idx < n
    ensures Unpack(v[idx / 8 := Marked(v[idx / 8], idx % 8, value)], n) == Unpack(v, n)[idx := value]
  {
    hide Unpack, Bit, Marked;
    var b := v[idx / 8];
    forall j: nat | j < 8 ensures Bit(Marked(b, idx % 8, value), j) == if j == idx % 8 then value else Bit(b, j) {
      OneBit(b, idx % 8, j, value);
    }
    ByteReplaced(v, n, idx, Marked(b, idx % 8, value), value);
  }

  lemma UnpackAt(v: seq<bv8>, n: nat, i: nat)
    requires n <= 8 * |v| && i < n
    ensures Unpack(v, n)[i] == Bit(v[i / 8], i % 8)
  {}

  lemma ByteReplaced(v: seq<bv8>, n: nat, idx: nat, b': bv8, value: bool)
    requires n <= 8 * |v| && idx < n
    requires forall j: nat :: j < 8 ==> Bit(b', j) == if j == idx % 8 then value else Bit(v[idx / 8], j)
    ensures Unpack(v[idx / 8 := b'], n) == Unpack(v, n)[idx := value]
  {
    hide Unpack, Bit, PosMask, NegMask;
    var v' := v[idx / 8 := b'];
    var w, u := Unpack(v', n), Unpack(v, n)[idx := value];
    forall i | 0 <= i < n ensures w[i] == u[i] {
      SameBit(i, idx);
      UnpackAt(v', n, i);
      UnpackAt(v, n, i);
    }
  }

  lemma SameBit(i: nat, j: nat)
    ensures i == j <==> i / 8 == j / 8 && i % 8 == j % 8
  {}

  lemma OneBit(b: bv8, k: nat, j: nat, value: bool)
    requires k < 8 && j < 8
    ensures Bit(Marked(b, k, value), j) == if j == k then value else Bit(b, j)
  {
    OrBit(b, k, j);
    AndBit(b, k, j);
    hide Bit, PosMask, NegMask;
  }

  lemma UnpackUniform(v: seq<bv8>, n: nat, value: bool)
    requires n <= 8 * |v| && forall i :: 0 <= i < |v| ==> v[i] == if value then 0xFF else 0
    ensures forall i :: 0 <= i < n ==> Unpack(v, n)[i] == value
  {
    FullByte(0xFF);
    forall i | 0 <= i < n ensures Unpack(v, n)[i] == value {
      ZeroByte(i % 8);
    }
  }

  // All bits are set exactly when every whole byte is 0xFF and the bits of the ragged last byte are set.
  lemma AllSetIff(v: seq<bv8>, n: nat)
    requires n <= 8 * |v|
    ensures AllSet(Unpack(v, n)) <==>
      (forall i :: 0 <= i < n / 8 ==> v[i] == 0xFF) && (forall i :: n - n % 8 <= i < n ==> Unpack(v, n)[i])
  {
    if AllSet(Unpack(v, n)) {
      forall i | 0 <= i < n / 8 ensures v[i] == 0xFF {
        forall k | 0 <= k < 8 ensures Bit(v[i], k) {
          assert Unpack(v, n)[8 * i + k];
          assert (8 * i + k) / 8 == i && (8 * i + k) % 8 == k;
        }
        FullByte(v[i]);
      }
    }
    if (forall i :: 0 <= i < n / 8 ==> v[i] == 0xFF) && (forall i :: n - n % 8 <= i < n ==> Unpack(v, n)[i]) {
      forall i | 0 <= i < n ensures Unpack(v, n)[i] {
        if i < n - n % 8 {
          assert i / 8 < n / 8;
          FullByte(v[i / 8]);
        }
      }
    }
  }

  class BitVector {
    var m_bits: nat
    var m_bytes: nat
    var m_vector: array<bv8>
    var m_allTrue: nat       // 0: no, 1: yes, 2: unknown

    ghost predicate Valid()
      reads this
    {
      m_bytes == (m_bits + 7) / 8 == m_vector.Length && m_allTrue <= 2
    }

    ghost function Contents(): Bits
      requires Valid()
      reads this, m_vector
    {
      Unpack(m_vector[..], m_bits)
    }

    // The cache never claims more than it knows.
    ghost predicate CacheSound()
      requires Valid()
      reads this, m_vector
    {
      && (m_allTrue == 1 ==> AllSet(Contents()))
      && (m_allTrue == 0 && m_bits != 0 ==> !AllSet(Contents()))
    }

    constructor ()
      ensures Valid() && CacheSound() && Contents() == [] && m_allTrue == 0 && fresh(m_vector)
    {
      m_bits, m_bytes, m_allTrue := 0, 0, 0;
      m_vector := new bv8[0];
    }

    method Get(idx: nat) returns (r: bool)
      requires Valid()
      ensures r == (idx < m_bits && Contents()[idx])
    {
      if idx >= m_bits {
        return false;
      }
      r := m_vector[idx / 8] & PosMask(idx % 8) != 0;
    }

    method Set(idx: nat, value: bool)
      requires Valid() && CacheSound()
      modifies this`m_allTrue, m_vector
      ensures Valid() && CacheSound()
      ensures Contents() == if idx < m_bits then old(Contents())[idx := value] else old(Contents())
    {
      if idx >= m_bits {
        return;
      }
      var bidx := idx / 8;
      ghost var v, before := m_vector[..], Contents();
      UnpackUpdate(v, m_bits, idx, value);
      AllSetUpdate(before, idx);
      hide Unpack, AllSet, Marked;
      if value {
        m_vector[bidx] := Marked(m_vector[bidx], idx % 8, true);
        if m_allTrue == 0 {
          m_allTrue := 2;
        }
      } else {
        m_vector[bidx] := Marked(m_vector[bidx], idx % 8, false);
        m_allTrue := 0;
      }
      assert m_vector[..] == v[bidx := Marked(v[bidx], idx % 8, value)];
    }

    method Clear()
      modifies this
      ensures Valid() && CacheSound() && Contents() == [] && m_allTrue == 0 && fresh(m_vector)
    {
      m_bits, m_bytes, m_allTrue := 0, 0, 0;
      m_vector := new bv8[0];
    }

    method SetSize(newsize: nat, value: bool)
      modifies this
      ensures Valid() && CacheSound() && fresh(m_vector)
      ensures Contents() == seq(newsize, i => value)
    {
      if newsize == 0 {
        Clear();
        return;
      }
      m_bits := newsize;
      m_bytes := newsize / 8;
      if newsize % 8 != 0 {
        m_bytes := m_bytes + 1;
      }
      m_vector := new bv8[m_bytes](i => if value then 0xFF else 0);
      m_allTrue := if value then 1 else 0;
      UnpackUniform(m_vector[..], m_bits, value);
      assert value || !Contents()[0];
    }

    // SetBuffer copies as many bytes as the vector has.
    method SetBuffer(src: seq<bv8>)
      requires Valid() && m_bytes <= |src|
      modifies this`m_allTrue, m_vector
      ensures Valid() && CacheSound() && m_allTrue == 2
      ensures Contents() == Unpack(src[..m_bytes], m_bits)
    {
      forall i | 0 <= i < m_bytes {
        m_vector[i] := src[i];
      }
      m_allTrue := 2;
      assert m_vector[..] == src[..m_bytes];
    }

    // For a vector that is not empty the answer is exact, whatever the cache held.
    method AllTrue() returns (r: bool)
      requires Valid() && CacheSound()
      modifies `m_allTrue
      ensures Valid() && CacheSound() && m_allTrue != 2 && r == (m_allTrue == 1)
      ensures m_bits != 0 ==> (r <==> AllSet(Contents()))
      ensures m_bits == 0 ==> (r <==> old(m_allTrue) != 0)
    {
      if m_allTrue == 2 {
        var foundFalse := false;
        var lastByte := m_bytes;
        ghost var v, n, bits := m_vector[..], m_bits, Contents();
        if m_bits % 8 != 0 {
          lastByte := lastByte - 1;
          var i := m_bits - m_bits % 8;
          while !foundFalse && i < m_bits
            invariant m_bits - m_bits % 8 <= i <= m_bits
            invariant Valid() && m_allTrue == 2
            invariant !foundFalse ==> forall j :: n - n % 8 <= j < i ==> bits[j]
            invariant foundFalse ==> exists j :: n - n % 8 <= j < n && !bits[j]
          {
            var bit := Get(i);
            foundFalse := !bit;
            i := i + 1;
          }
        }
        assert lastByte == n / 8;
        var i := 0;
        while !foundFalse && i < lastByte
          invariant 0 <= i <= lastByte
          invariant Valid() && m_allTrue == 2
          invariant !foundFalse ==> forall j :: 0 <= j < i ==> v[j] == 0xFF
          invariant !foundFalse ==> forall j :: n - n % 8 <= j < n ==> bits[j]
          invariant foundFalse ==>
            (exists j :: n - n % 8 <= j < n && !bits[j]) || (exists j :: 0 <= j < n / 8 && v[j] != 0xFF)
        {
          foundFalse := m_vector[i] != 0xFF;
          i := i + 1;
        }
        AllSetIff(v, n);
        hide Unpack, AllSet;
        m_allTrue := if foundFalse then 0 else 1;
      }
      r := m_allTrue == 1;
    }

    // SetAllTrue sets the bits without telling the cache: the cache stays sound exactly when it did not say
    // "no", or the vector is empty.
    method SetAllTrue()
      requires Valid() && CacheSound()
      modifies m_vector
      ensures Valid() && AllSet(Contents()) && |Contents()| == m_bits
      ensures CacheSound() <==> m_allTrue != 0 || m_bits == 0
    {
      if m_bytes != 0 {
        forall i | 0 <= i < m_bytes {
          m_vector[i] := 0xFF;
        }
      }
      UnpackUniform(m_vector[..], m_bits, true);
    }
  }
}
