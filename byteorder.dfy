/**
  The byte-order helpers of src/JPEGENC.h: big-endian ("Motorola") writers
  of 16- and 32-bit values into a byte buffer, and readers of 16- and
  32-bit values stored little-endian ("Intel") or big-endian.

  The writers first convert their argument to `uint32_t` (`l = val`),
  which is reduction modulo 2^32, then store `(unsigned char)(l >> k)`,
  which is `(l / 2^k) % 256`.
 */
module ByteOrder {
  import opened ByteStream
  import opened Register

  const TwoTo16: nat := 0x1_0000
  const TwoTo32: nat := 0x1_0000_0000

  /** `uint32_t l = val`: the value reduced modulo 2^32. */
  function AsUint32(val: int): (l: nat)
    ensures l < TwoTo32
  {
    val % TwoTo32
  }

  /** `(unsigned char)(l >> k)` for k a multiple of 8: byte k/8 of l, counting from the low end. */
  function ByteOf(l: nat, k: nat): (b: byte)
  {
    (l / Pow2(k)) % 256
  }

  /** The two bytes WRITEMOTO16 stores for `val`, in storage order. */
  function Moto16Bytes(val: int): (b: seq<byte>)
    ensures |b| == 2
  {
    var l := AsUint32(val);
    [ByteOf(l, 8), ByteOf(l, 0)]
  }

  /** The four bytes WRITEMOTO32 stores for `val`, in storage order. */
  function Moto32Bytes(val: int): (b: seq<byte>)
    ensures |b| == 4
  {
    var l := AsUint32(val);
    [ByteOf(l, 24), ByteOf(l, 16), ByteOf(l, 8), ByteOf(l, 0)]
  }

  /** INTELSHORT(p): the 16-bit little-endian value at p[i]. */
  function IntelShort(p: seq<byte>, i: nat): (v: nat)
    requires i + 2 <= |p|
    ensures v < TwoTo16
  {
    p[i] as int + p[i + 1] as int * 0x100
  }

  /** INTELLONG(p): the 32-bit little-endian value at p[i]. */
  function IntelLong(p: seq<byte>, i: nat): (v: nat)
    requires i + 4 <= |p|
    ensures v < TwoTo32
  {
    p[i] as int + p[i + 1] as int * 0x100 + p[i + 2] as int * 0x1_0000 + p[i + 3] as int * 0x100_0000
  }

  /** MOTOSHORT(p): the 16-bit big-endian value at p[i]. */
  function MotoShort(p: seq<byte>, i: nat): (v: nat)
    requires i + 2 <= |p|
    ensures v < TwoTo16
  {
    p[i] as int * 0x100 + p[i + 1]
  }

  /** MOTOLONG(p): the 32-bit big-endian value at p[i]. */
  function MotoLong(p: seq<byte>, i: nat): (v: nat)
    requires i + 4 <= |p|
    ensures v < TwoTo32
  {
    p[i] as int * 0x100_0000 + p[i + 1] as int * 0x1_0000 + p[i + 2] as int * 0x100 + p[i + 3]
  }

  /** WRITEMOTO16(p, o, val): stores the low 16 bits of val at p[o], most significant byte first. */
  method WriteMoto16(p: array<byte>, o: nat, val: int)
    requires o + 2 <= p.Length
    modifies p
    ensures p[o..o + 2] == Moto16Bytes(val)
    ensures MotoShort(p[..], o) == val % TwoTo16
    ensures forall i | 0 <= i < p.Length && !(o <= i < o + 2) :: p[i] == old(p[i])
  {
    var l := AsUint32(val);
    p[o] := ByteOf(l, 8);
    p[o + 1] := ByteOf(l, 0);
    MotoShortOf16(val);
    assert p[..][o..o + 2] == p[o..o + 2];
    MotoShortSlice(p[..], o);
  }

  /** WRITEMOTO32(p, o, val): stores the 32 bits of (uint32_t)val at p[o], most significant byte first. */
  method WriteMoto32(p: array<byte>, o: nat, val: int)
    requires o + 4 <= p.Length
    modifies p
    ensures p[o..o + 4] == Moto32Bytes(val)
    ensures MotoLong(p[..], o) == val % TwoTo32
    ensures forall i | 0 <= i < p.Length && !(o <= i < o + 4) :: p[i] == old(p[i])
  {
    var l := AsUint32(val);
    p[o] := ByteOf(l, 24);
    p[o + 1] := ByteOf(l, 16);
    p[o + 2] := ByteOf(l, 8);
    p[o + 3] := ByteOf(l, 0);
    MotoLongOf32(val);
    assert p[..][o..o + 4] == p[o..o + 4];
    MotoLongSlice(p[..], o);
  }

  // -----------------------------------------------------------------------
  // Round trips

  /** Reading back what WRITEMOTO16 stores gives the value modulo 2^16. */
  lemma MotoShortOf16(val: int)
    ensures MotoShort(Moto16Bytes(val), 0) == val % TwoTo16
  {
    var l := AsUint32(val);
    assert Pow2(8) == 0x100;
    var q := l / 0x100;
    DivModUnique(val, TwoTo32, val / TwoTo32, l);
    // val = (val / 2^32) * 2^32 + q * 256 + l % 256 and q % 256 < 256
    DivModUnique(l, TwoTo16, q / 0x100, (q % 0x100) * 0x100 + l % 0x100);
    DivModUnique(val, TwoTo16, (val / TwoTo32) * 0x1_0000 + q / 0x100, (q % 0x100) * 0x100 + l % 0x100);
  }

  /** Reading back what WRITEMOTO32 stores gives the value modulo 2^32. */
  lemma MotoLongOf32(val: int)
    ensures MotoLong(Moto32Bytes(val), 0) == val % TwoTo32
  {
    var l := AsUint32(val);
    var q1 := l / 0x100;
    var q2 := q1 / 0x100;
    var q3 := q2 / 0x100;
    ByteSplit(l, q1, q2, q3);
  }

  /** The four bytes of a 32-bit value, as the shifts of WRITEMOTO32 take them. */
  lemma ByteSplit(l: nat, q1: nat, q2: nat, q3: nat)
    requires l < TwoTo32 && q1 == l / 0x100 && q2 == q1 / 0x100 && q3 == q2 / 0x100
    ensures ByteOf(l, 0) == l % 0x100 && ByteOf(l, 8) == q1 % 0x100
    ensures ByteOf(l, 16) == q2 % 0x100 && ByteOf(l, 24) == q3 % 0x100
    ensures (q3 % 0x100) * 0x100_0000 + (q2 % 0x100) * 0x1_0000 + (q1 % 0x100) * 0x100 + l % 0x100 == l
  {
    assert Pow2(8) == 0x100 && Pow2(16) == 0x1_0000 && Pow2(24) == 0x100_0000;
    var r2 := (q1 % 0x100) * 0x100 + l % 0x100;
    DivModUnique(l, 0x1_0000, q2, r2);
    var r3 := (q2 % 0x100) * 0x1_0000 + r2;
    DivModUnique(l, 0x100_0000, q3, r3);
  }

  /** Storing the big-endian bytes of a value read big-endian gives back the bytes. */
  lemma Moto16OfMotoShort(p: seq<byte>, i: nat)
    requires i + 2 <= |p|
    ensures Moto16Bytes(MotoShort(p, i)) == p[i..i + 2]
  {
    var v := MotoShort(p, i);
    assert Pow2(8) == 0x100;
    DivModUnique(v, TwoTo32, 0, v);
    DivModUnique(v, 0x100, p[i], p[i + 1]);
  }

  /** Storing the big-endian bytes of a value read big-endian gives back the bytes. */
  lemma Moto32OfMotoLong(p: seq<byte>, i: nat)
    requires i + 4 <= |p|
    ensures Moto32Bytes(MotoLong(p, i)) == p[i..i + 4]
  {
    var v := MotoLong(p, i);
    DivModUnique(v, TwoTo32, 0, v);
    var q1, q2, q3 := v / 0x100, v / 0x100 / 0x100, v / 0x100 / 0x100 / 0x100;
    DivModUnique(v, 0x100, p[i] as int * 0x1_0000 + p[i + 1] as int * 0x100 + p[i + 2], p[i + 3]);
    DivModUnique(q1, 0x100, p[i] as int * 0x100 + p[i + 1], p[i + 2]);
    DivModUnique(q2, 0x100, p[i], p[i + 1]);
    DivModUnique(q3, 0x100, 0, p[i]);
    ByteSplit(v, q1, q2, q3);
  }

  /** The Intel readers are the Motorola readers applied to the bytes in reverse order. */
  lemma IntelIsReversedMoto(p: seq<byte>, i: nat)
    requires i + 4 <= |p|
    ensures IntelShort(p, i) == MotoShort([p[i + 1], p[i]], 0)
    ensures IntelLong(p, i) == MotoLong([p[i + 3], p[i + 2], p[i + 1], p[i]], 0)
  {
  }

  /** The value read depends only on the bytes read. */
  lemma MotoShortSlice(p: seq<byte>, o: nat)
    requires o + 2 <= |p|
    ensures MotoShort(p, o) == MotoShort(p[o..o + 2], 0)
  {
  }

  lemma MotoLongSlice(p: seq<byte>, o: nat)
    requires o + 4 <= |p|
    ensures MotoLong(p, o) == MotoLong(p[o..o + 4], 0)
  {
  }
}
