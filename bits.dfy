/** The bit packer (getBinary) and unpacker (GetString). A bit string is a
    string of '0' and '1' characters, as in the Java code; a byte is a bv8. Bit i
    of a packed byte sequence sits in byte i / 8 under the mask 0x80 >> (i % 8),
    the most significant bit first. */
module Bits {
  import opened Seqs

  /** The mask that selects bit k (0 = most significant) of a byte. */
  function Mask(k: nat): bv8
    requires k < 8
  {
    0x80 >> k
  }

  /** Whether bit i of the byte sequence is set. */
  predicate BitAt(bytes: seq<bv8>, i: nat)
    requires i < 8 * |bytes|
  {
    bytes[i / 8] & Mask(i % 8) != 0
  }

  /** How many '0' characters getBinary appends to an n-bit string. */
  function PadLength(n: nat): nat {
    (8 - n % 8) % 8
  }

  /** bytes is the MSB-first packing of bits, zero-padded: one byte per started
      group of 8 bits, bit i set exactly when bits[i] is '1', and every padding
      bit clear. */
  ghost predicate PacksTo(bits: seq<char>, bytes: seq<bv8>) {
    && |bytes| == (|bits| + 7) / 8
    && forall i :: 0 <= i < 8 * |bytes| ==> (BitAt(bytes, i) <==> i < |bits| && bits[i] == '1')
  }

  /** The bit string of a byte sequence: 8 characters per byte, '1' for a set
      bit and '0' for a clear one. */
  function Unpacked(bytes: seq<bv8>): seq<char> {
    seq(8 * |bytes|, i requires 0 <= i < 8 * |bytes| => if BitAt(bytes, i) then '1' else '0')
  }

  lemma OrMask(b: bv8, j: nat, k: nat)
    requires j < 8 && k < 8
    ensures ((b | Mask(j)) & Mask(k) != 0) <==> (b & Mask(k) != 0 || j == k)
  {
  }

  lemma ShiftedBit(b: bv8, k: nat)
    requires k < 8
    ensures ((b << k) & 0x80 == 0) <==> (b & Mask(k) == 0)
  {
  }

  /** Two bytes that agree on all eight bits are equal. */
  lemma ByteExtensionality(a: bv8, b: bv8)
    requires forall k :: 0 <= k < 8 ==> (a & Mask(k) == 0) == (b & Mask(k) == 0)
    ensures a == b
  {
    assert (a & 0x80 == 0) == (b & 0x80 == 0) by { assert Mask(0) == 0x80; }
    assert (a & 0x40 == 0) == (b & 0x40 == 0) by { assert Mask(1) == 0x40; }
    assert (a & 0x20 == 0) == (b & 0x20 == 0) by { assert Mask(2) == 0x20; }
    assert (a & 0x10 == 0) == (b & 0x10 == 0) by { assert Mask(3) == 0x10; }
    assert (a & 0x08 == 0) == (b & 0x08 == 0) by { assert Mask(4) == 0x08; }
    assert (a & 0x04 == 0) == (b & 0x04 == 0) by { assert Mask(5) == 0x04; }
    assert (a & 0x02 == 0) == (b & 0x02 == 0) by { assert Mask(6) == 0x02; }
    assert (a & 0x01 == 0) == (b & 0x01 == 0) by { assert Mask(7) == 0x01; }
  }

  /** Setting bit i sets that bit and leaves every other bit as it was. */
  lemma SetBit(bytes: seq<bv8>, i: nat, j: nat)
    requires i < 8 * |bytes| && j < 8 * |bytes|
    ensures BitAt(bytes[i / 8 := bytes[i / 8] | Mask(i % 8)], j) <==> BitAt(bytes, j) || j == i
  {
    if j / 8 == i / 8 {
      OrMask(bytes[i / 8], i % 8, j % 8);
      assert i % 8 == j % 8 <==> i == j;
    }
  }

  ghost predicate SetExactly(bytes: seq<bv8>, bits: seq<char>, n: nat)
    requires |bits| <= 8 * |bytes|
  {
    forall j :: 0 <= j < 8 * |bytes| ==> (BitAt(bytes, j) <==> j < n && j < |bits| && bits[j] == '1')
  }

  lemma SetOneMore(bytes: seq<bv8>, bits: seq<char>, i: nat)
    requires |bits| <= 8 * |bytes| && i < |bits| && bits[i] == '1'
    requires SetExactly(bytes, bits, i)
    ensures SetExactly(bytes[i / 8 := bytes[i / 8] | Mask(i % 8)], bits, i + 1)
  {
    forall j | 0 <= j < 8 * |bytes|
      ensures BitAt(bytes[i / 8 := bytes[i / 8] | Mask(i % 8)], j) <==> j < i + 1 && j < |bits| && bits[j] == '1'
    {
      SetBit(bytes, i, j);
      assert BitAt(bytes, j) <==> j < i && j < |bits| && bits[j] == '1';
    }
    assert |bytes[i / 8 := bytes[i / 8] | Mask(i % 8)]| == |bytes|;
  }

  /** getBinary: appends '0' until the length is a multiple of 8, then sets, in
      an all-zero byte array, the bit of every '1'. */
  method GetBinary(encoded: seq<char>) returns (data: seq<bv8>)
    ensures PacksTo(encoded, data)
  {
    var padded := encoded;
    while |padded| % 8 != 0
      invariant PaddedWithZeros(encoded, padded)
      decreases PadLength(|padded|)
    {
      PadOneMore(encoded, padded);
      padded := padded + ['0'];
    }
    var bytes := new bv8[|padded| / 8](_ => 0);
    for i := 0 to |padded|
      invariant SetExactly(bytes[..], padded, i)
    {
      if padded[i] == '1' {
        ghost var before := bytes[..];
        bytes[i / 8] := bytes[i / 8] | Mask(i % 8);
        assert bytes[..] == before[i / 8 := before[i / 8] | Mask(i % 8)];
        SetOneMore(before, padded, i);
      }
    }
    data := bytes[..];
    PaddedPacking(encoded, padded, data);
  }

  /** padded is encoded followed by '0' characters, and no more of them than
      reach the next multiple of 8. */
  ghost predicate PaddedWithZeros(encoded: seq<char>, padded: seq<char>) {
    && |encoded| <= |padded|
    && padded == encoded + Zeros(|padded| - |encoded|)
    && |padded| + PadLength(|padded|) == |encoded| + PadLength(|encoded|)
  }

  lemma PadOneMore(encoded: seq<char>, padded: seq<char>)
    requires PaddedWithZeros(encoded, padded) && |padded| % 8 != 0
    ensures PaddedWithZeros(encoded, padded + ['0'])
    ensures PadLength(|padded| + 1) < PadLength(|padded|)
  {
    assert Zeros(|padded| - |encoded|) + ['0'] == Zeros(|padded| + 1 - |encoded|);
    PadLengthStep(|padded|);
  }

  lemma PadLengthStep(n: nat)
    requires n % 8 != 0
    ensures PadLength(n + 1) + 1 == PadLength(n)
  {
    if n % 8 < 7 {
      assert (n + 1) % 8 == n % 8 + 1;
    } else {
      assert (n + 1) % 8 == 0;
    }
  }

  /** Packing the zero-padded string is packing the string itself. */
  lemma PaddedPacking(encoded: seq<char>, padded: seq<char>, data: seq<bv8>)
    requires PaddedWithZeros(encoded, padded) && |padded| % 8 == 0
    requires |data| == |padded| / 8
    requires forall j :: 0 <= j < 8 * |data| ==> (BitAt(data, j) <==> j < |padded| && padded[j] == '1')
    ensures PacksTo(encoded, data)
  {
    assert |padded| == |encoded| + PadLength(|encoded|);
    forall j | 0 <= j < 8 * |data|
      ensures BitAt(data, j) <==> j < |encoded| && encoded[j] == '1'
    {
      if j >= |encoded| {
        assert padded[j] == Zeros(|padded| - |encoded|)[j - |encoded|];
      }
    }
  }

  /** GetString: appends, for every bit of every byte, '0' when the bit is clear
      and '1' when it is set. */
  method GetString(bytes: seq<bv8>) returns (s: seq<char>)
    ensures s == Unpacked(bytes)
  {
    s := [];
    for i := 0 to 8 * |bytes|
      invariant s == Unpacked(bytes)[..i]
    {
      ShiftedBit(bytes[i / 8], i % 8);
      assert Unpacked(bytes)[..i + 1] == Unpacked(bytes)[..i] + [Unpacked(bytes)[i]];
      s := s + [if (bytes[i / 8] << (i % 8)) & 0x80 == 0 then '0' else '1'];
    }
  }

  /** Unpacking a packed bit string gives the bits back, followed by the
      padding zeros. */
  lemma UnpackPacked(bits: seq<char>, bytes: seq<bv8>)
    requires IsBits(bits) && PacksTo(bits, bytes)
    ensures Unpacked(bytes) == bits + Zeros(PadLength(|bits|))
  {
    var u, v := Unpacked(bytes), bits + Zeros(PadLength(|bits|));
    assert |u| == |v|;
    forall i | 0 <= i < |u|
      ensures u[i] == v[i]
    {
      if i < |bits| {
        assert bits[i] == '0' || bits[i] == '1';
      }
    }
  }

  /** A byte sequence's own bit string packs back to it. */
  lemma PackedUnpacked(bytes: seq<bv8>)
    ensures PacksTo(Unpacked(bytes), bytes)
  {
  }

  /** A bit string has only one packing. */
  lemma PackingUnique(bits: seq<char>, a: seq<bv8>, b: seq<bv8>)
    requires PacksTo(bits, a) && PacksTo(bits, b)
    ensures a == b
  {
    forall n | 0 <= n < |a|
      ensures a[n] == b[n]
    {
      SameBitsSameByte(a, b, n);
    }
  }

  lemma SameBitsSameByte(a: seq<bv8>, b: seq<bv8>, n: nat)
    requires |a| == |b| && n < |a|
    requires forall i :: 0 <= i < 8 * |a| ==> (BitAt(a, i) <==> BitAt(b, i))
    ensures a[n] == b[n]
  {
    forall k | 0 <= k < 8
      ensures (a[n] & Mask(k) == 0) == (b[n] & Mask(k) == 0)
    {
      var i := 8 * n + k;
      assert i / 8 == n && i % 8 == k;
      assert BitAt(a, i) <==> BitAt(b, i);
    }
    ByteExtensionality(a[n], b[n]);
  }
}
