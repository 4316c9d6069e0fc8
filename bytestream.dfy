/**
  Bytes, the bits they carry, and the byte stuffing of entropy-coded data.

  In the entropy-coded segment of a JPEG stream every data byte 0xFF is
  followed by a stuffed 0x00, so that a decoder never mistakes it for the
  start of a marker (section F.1.2.3 of ITU-T T.81). `Stuffed` is that
  encoding, `Unstuff` its inverse.
 */
module ByteStream {
  import opened Register

  type byte = x: int | 0 <= x < 256

  /** The eight bits of a byte, most significant first. */
  function ByteBits(b: byte): (r: Bits)
    ensures |r| == 8 && ToNat(r) == b
  {
    ToNatFromNat(b, 8);
    assert Pow2(8) == 256;
    FromNat(b, 8)
  }

  /** The bits carried by a sequence of bytes, each most significant bit first. */
  function BytesBits(d: seq<byte>): (r: Bits)
    ensures |r| == 8 * |d|
  {
    if d == [] then [] else BytesBits(d[..|d| - 1]) + ByteBits(d[|d| - 1])
  }

  /** Byte j of a register, counting from its most significant end. */
  function RegisterByte(x: Bits, j: nat): (b: byte)
    requires 8 * j + 8 <= |x|
  {
    assert Pow2(8) == 256;
    ToNat(x[8 * j..8 * j + 8])
  }

  /** The top m bytes of a register, most significant first. */
  function TopBytes(x: Bits, m: nat): (d: seq<byte>)
    requires 8 * m <= |x|
    ensures |d| == m
  {
    seq(m, j requires 0 <= j < m => RegisterByte(x, j))
  }

  /** What is written for one data byte. */
  function StuffByte(b: byte): seq<byte>
  {
    if b == 0xFF then [0xFF, 0x00] else [b]
  }

  /** The entropy-coded bytes written for the data bytes d. */
  function Stuffed(d: seq<byte>): seq<byte>
  {
    if d == [] then [] else Stuffed(d[..|d| - 1]) + StuffByte(d[|d| - 1])
  }

  /** Removes the 0x00 that follows each 0xFF. */
  function Unstuff(s: seq<byte>): seq<byte>
  {
    if s == [] then []
    else if s[0] == 0xFF && |s| >= 2 && s[1] == 0x00 then [0xFF] + Unstuff(s[2..])
    else [s[0]] + Unstuff(s[1..])
  }

  // ---------------------------------------------------------------------
  // Bits of bytes

  lemma {:induction false} BytesBitsAppend(d: seq<byte>, e: seq<byte>)
    ensures BytesBits(d + e) == BytesBits(d) + BytesBits(e)
  {
    if e != [] {
      var de := d + e;
      assert de[..|de| - 1] == d + e[..|e| - 1];
      BytesBitsAppend(d, e[..|e| - 1]);
    } else {
      assert d + e == d;
    }
  }

  /** Different byte sequences of one length carry different bits. */
  lemma {:induction false} BytesBitsInjective(d: seq<byte>, f: seq<byte>)
    requires |d| == |f| && BytesBits(d) == BytesBits(f)
    ensures d == f
  {
    if d != [] {
      var n := |d| - 1;
      var bd, bf := BytesBits(d[..n]), BytesBits(f[..n]);
      assert BytesBits(d) == bd + ByteBits(d[n]) && BytesBits(f) == bf + ByteBits(f[n]);
      assert bd == BytesBits(d)[..8 * n] && bf == BytesBits(f)[..8 * n];
      assert ByteBits(d[n]) == BytesBits(d)[8 * n..] && ByteBits(f[n]) == BytesBits(f)[8 * n..];
      BytesBitsInjective(d[..n], f[..n]);
      assert d == d[..n] + [d[n]] && f == f[..n] + [f[n]];
    }
  }

  /** Bytes whose bits begin the bits of e are the first bytes of e. */
  lemma BytesBitsPrefix(d: seq<byte>, e: seq<byte>)
    requires |d| <= |e| && BytesBits(d) == BytesBits(e)[..8 * |d|]
    ensures d == e[..|d|]
  {
    var front := e[..|d|];
    assert front + e[|d|..] == e;
    BytesBitsAppend(front, e[|d|..]);
    BytesBitsInjective(d, front);
  }

  /** A byte read from a register carries exactly the register's bits at that place. */
  lemma RegisterByteBits(x: Bits, j: nat)
    requires 8 * j + 8 <= |x|
    ensures ByteBits(RegisterByte(x, j)) == x[8 * j..8 * j + 8]
  {
    FromNatToNat(x[8 * j..8 * j + 8]);
  }

  /** The bytes taken from the top of a register carry its top bits, in order. */
  lemma {:induction false} TopBytesBits(x: Bits, m: nat)
    requires 8 * m <= |x|
    ensures BytesBits(TopBytes(x, m)) == x[..8 * m]
  {
    if m > 0 {
      var d, front := TopBytes(x, m), TopBytes(x, m - 1);
      var b := RegisterByte(x, m - 1);
      assert d[..m - 1] == front;
      assert BytesBits(d) == BytesBits(front) + ByteBits(b);
      TopBytesBits(x, m - 1);
      RegisterByteBits(x, m - 1);
      assert x[..8 * m] == x[..8 * (m - 1)] + x[8 * (m - 1)..8 * m];
    }
  }

  /** A byte read from a register is 0xFF exactly when its eight bits are all set. */
  lemma RegisterByteIsFF(x: Bits, j: nat)
    requires 8 * j + 8 <= |x|
    ensures RegisterByte(x, j) == 0xFF <==> forall p | 8 * j <= p < 8 * j + 8 :: x[p]
  {
    var b := x[8 * j..8 * j + 8];
    AllOnesValue(b);
    assert Pow2(8) == 256;
    assert forall p | 0 <= p < 8 :: b[p] == x[8 * j + p];
    if forall p | 0 <= p < 8 :: b[p] {
      forall p | 8 * j <= p < 8 * j + 8 ensures x[p] {
        assert b[p - 8 * j];
      }
    }
  }

  // ---------------------------------------------------------------------
  // Stuffing

  lemma {:induction false} StuffedAppend(d: seq<byte>, e: seq<byte>)
    ensures Stuffed(d + e) == Stuffed(d) + Stuffed(e)
  {
    if e == [] {
      assert d + e == d;
    } else {
      var de := d + e;
      assert de[..|de| - 1] == d + e[..|e| - 1];
      StuffedAppend(d, e[..|e| - 1]);
    }
  }

  /** Every 0xFF written is immediately followed by a written 0x00. */
  lemma {:induction false} StuffedFFThenZero(d: seq<byte>, i: nat)
    requires i < |Stuffed(d)| && Stuffed(d)[i] == 0xFF
    ensures i + 1 < |Stuffed(d)| && Stuffed(d)[i + 1] == 0x00
  {
    var front := d[..|d| - 1];
    if i < |Stuffed(front)| {
      assert Stuffed(d)[i] == Stuffed(front)[i];
      StuffedFFThenZero(front, i);
      assert Stuffed(d)[i + 1] == Stuffed(front)[i + 1];
    }
  }

  /** Removing the stuffed zeros gives back the data bytes. */
  lemma {:induction false} UnstuffStuffed(d: seq<byte>)
    ensures Unstuff(Stuffed(d)) == d
  {
    if d != [] {
      StuffedAppend([d[0]], d[1..]);
      assert [d[0]] + d[1..] == d;
      assert Stuffed([d[0]]) == StuffByte(d[0]) by {
        assert [d[0]][..0] == [];
      }
      var s := Stuffed(d);
      var rest := Stuffed(d[1..]);
      assert s == StuffByte(d[0]) + rest;
      if d[0] == 0xFF {
        assert s[2..] == rest;
      } else {
        assert s[1..] == rest;
      }
      UnstuffStuffed(d[1..]);
    }
  }

  /** Exactly one byte is added per 0xFF data byte. */
  lemma {:induction false} StuffedLength(d: seq<byte>)
    ensures |Stuffed(d)| == |d| + |set i | 0 <= i < |d| && d[i] == 0xFF|
  {
    if d != [] {
      var n := |d| - 1;
      StuffedLength(d[..n]);
      var before := set i | 0 <= i < n && d[..n][i] == 0xFF;
      var all := set i | 0 <= i < |d| && d[i] == 0xFF;
      if d[n] == 0xFF {
        assert all == before + {n};
      } else {
        assert all == before;
      }
    }
  }

  /** Data without a 0xFF byte is written unchanged. */
  lemma {:induction false} StuffedWithoutFF(d: seq<byte>)
    requires forall i | 0 <= i < |d| :: d[i] != 0xFF
    ensures Stuffed(d) == d
  {
    if d != [] {
      StuffedWithoutFF(d[..|d| - 1]);
      assert d == d[..|d| - 1] + [d[|d| - 1]];
    }
  }
}
