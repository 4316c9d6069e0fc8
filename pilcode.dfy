/**
  The entropy coder's output stage: the PIL_CODE bit accumulator and the
  STORECODE operation of src/JPEGENC.h, in both of its variants (a 32-bit
  register drained one byte at a time, and a 64-bit register with an
  eight-byte fast path).

  Codes are appended most significant bit first. `ulAcc` holds the
  pending bits at its top (`iLen` of them, the rest zero); when a code
  does not fit, whole bytes leave the top of the register for the output
  buffer, and each data byte 0xFF is followed by a stuffed 0x00.

  The ghost fields give the meaning of the state: `Data` is the data
  bytes emitted so far (before stuffing) and `Stream` is every code bit
  appended since the writer was set up. The object invariant says that
  the output holds exactly `Stuffed(Data)`, and that the bits of `Data`
  followed by the pending bits are exactly `Stream`.
 */
module EntropyOutput {
  import opened Register
  import opened ByteStream

  /** The register constant 0x0101010101010101: the low bit of every byte. */
  function LowBitOfEachByte(): (m: Bits)
    ensures |m| == 64 && forall p | 0 <= p < 64 :: m[p] == (p % 8 == 7)
  {
    LowBitOfEachByteBits();
    FromNat(0x0101_0101_0101_0101, 64)
  }

  /**
    The fast-path test of the 64-bit STORECODE: ANDs each bit with the
    seven bits above it, then keeps the low bit of each byte. The result is
    zero exactly when no byte of ul2 is 0xFF (lemma FFByteFlagsZero).
   */
  function FFByteFlags(ul2: Bits): (ul1: Bits)
    requires |ul2| == 64
    ensures |ul1| == 64
  {
    var ul1 := And(ul2, Shr(ul2, 4));
    var ul1 := And(ul1, Shr(ul1, 2));
    var ul1 := And(ul1, Shr(ul1, 1));
    And(ul1, LowBitOfEachByte())
  }

  /** No byte of the register is 0xFF. */
  ghost predicate NoFFByte(x: Bits)
  {
    forall j | 0 <= j < |x| / 8 :: 8 * j + 8 <= |x| && RegisterByte(x, j) != 0xFF
  }

  /** `(unsigned char)x`: the low eight bits of a register. */
  function LowByte(x: Bits): (c: byte)
    requires |x| >= 8
    ensures c == ToNat(x) % 256
  {
    assert Pow2(8) == 256;
    ToNatSplit(x, |x| - 8);
    DivModUnique(ToNat(x), 256, ToNat(x[..|x| - 8]), ToNat(x[|x| - 8..]));
    ToNat(x[|x| - 8..])
  }

  /**
    The register the 64-bit fast path stores: the iLen pending bits of
    `acc` followed by as many leading bits of the n-bit code as fill it.
   */
  ghost function FullWord(acc: Bits, len: nat, code: Bits, n: nat): (x: Bits)
    requires len <= |acc| && n <= |code| && |acc| <= len + n
    ensures |x| == |acc|
  {
    acc[..len] + code[|code| - n..|code| - n + (|acc| - len)]
  }

  /**
    The meaning of an accumulator: the bits of the bytes emitted so far,
    followed by the `len` pending bits at the top of `acc`, are the code
    stream; every bit below the pending ones is zero.
   */
  ghost predicate Coherent(data: seq<byte>, acc: Bits, len: int, stream: Bits)
  {
    && 0 <= len <= |acc|
    && BytesBits(data) + acc[..len] == stream
    && forall p | len <= p < |acc| :: !acc[p]
  }

  /** The bytes the 64-bit STORECODE emits when it appends the n-bit `code`. */
  ghost function Emitted64(acc: Bits, len: int, code: Bits, n: nat): seq<byte>
    requires |acc| == |code| == 64 && 0 <= len <= 64 && n <= 64
    requires len + n <= 64 || len % 8 + n <= 64 || NoFFByte(FullWord(acc, len, code, n))
  {
    if len + n <= 64 then []
    else if NoFFByte(FullWord(acc, len, code, n)) then TopBytes(FullWord(acc, len, code, n), 8)
    else TopBytes(acc, len / 8)
  }

  class PilCode {
    const width: nat
    const out: array<byte>
    const start: nat
    var pOut: nat
    var iLen: int
    var ulAcc: Bits
    ghost var Data: seq<byte>
    ghost var Stream: Bits

    /**
      The register is `width` bits wide, the output from `start` up to the
      cursor holds exactly the stuffed data bytes, and the data bytes and
      the pending bits together are the code stream.
     */
    ghost predicate Valid()
      reads this, out
    {
      && (width == 32 || width == 64)
      && |ulAcc| == width
      && start <= pOut <= out.Length
      && out[start..pOut] == Stuffed(Data)
      && Coherent(Data, ulAcc, iLen, Stream)
    }

    /** An empty accumulator whose output cursor stands at buf[at]. */
    constructor (buf: array<byte>, at: nat, w: nat)
      requires w == 32 || w == 64
      requires at <= buf.Length
      ensures Valid()
      ensures width == w && out == buf && start == at
      ensures pOut == at && iLen == 0 && ulAcc == Zeros(w)
      ensures Data == [] && Stream == []
    {
      width, out, start := w, buf, at;
      pOut, iLen, ulAcc := at, 0, Zeros(w);
      Data, Stream := [], [];
    }

    /** Writes one data byte at the cursor, followed by a stuffed 0x00 when it is 0xFF. */
    method PutByte(c: byte)
      requires start <= pOut && pOut + 2 <= out.Length
      modifies this`pOut, out
      ensures pOut == old(pOut) + |StuffByte(c)|
      ensures out[start..pOut] == old(out[start..pOut]) + StuffByte(c)
      ensures forall i | 0 <= i < old(pOut) :: out[i] == old(out[i])
      ensures forall i | pOut <= i < out.Length :: out[i] == old(out[i])
    {
      out[pOut] := c;
      pOut := pOut + 1;
      if c == 0xFF {
        out[pOut] := 0;
        pOut := pOut + 1;
      }
    }

    /** Stores a 64-bit register at the cursor, most significant byte first, and advances by 8. */
    method PutWord(x: Bits)
      requires |x| == 64 && start <= pOut && pOut + 8 <= out.Length
      modifies this`pOut, out
      ensures pOut == old(pOut) + 8
      ensures out[start..pOut] == old(out[start..pOut]) + TopBytes(x, 8)
      ensures forall i | 0 <= i < old(pOut) :: out[i] == old(out[i])
      ensures forall i | pOut <= i < out.Length :: out[i] == old(out[i])
    {
      forall j | 0 <= j < 8 {
        out[pOut + j] := RegisterByte(x, j);
      }
      pOut := pOut + 8;
    }

    /** One turn of the drain loop: the top byte of the register goes out, stuffed. */
    method DrainOne()
      requires Valid() && iLen >= 8 && pOut + 2 <= out.Length
      modifies this, out
      ensures Valid()
      ensures Stream == old(Stream)
      ensures iLen == old(iLen) - 8 && ulAcc == Shl(old(ulAcc), 8)
      ensures Data == old(Data) + [RegisterByte(old(ulAcc), 0)]
      ensures old(pOut) < pOut <= old(pOut) + 2
      ensures forall i | 0 <= i < old(pOut) :: out[i] == old(out[i])
      ensures forall i | pOut <= i < out.Length :: out[i] == old(out[i])
    {
      ghost var data0, acc0, len0 := Data, ulAcc, iLen;
      var c := LowByte(Shr(ulAcc, width - 8));
      TopByteOfRegister(ulAcc);
      PutByte(c);
      ulAcc, iLen, Data := Shl(ulAcc, 8), iLen - 8, Data + [c];
      StuffedOneMore(data0, c, Data);
      DrainOneCoherent(data0, acc0, len0, Stream, Data, ulAcc, iLen);
    }

    /**
      The byte-at-a-time drain shared by both variants: moves the
      floor(iLen/8) whole bytes at the top of the register to the output,
      stuffing a 0x00 after each 0xFF.
     */
    method DrainBytes()
      requires Valid()
      requires pOut + width / 4 <= out.Length
      modifies this, out
      ensures Valid()
      ensures Stream == old(Stream)
      ensures iLen == old(iLen) % 8
      ensures Data == old(Data) + TopBytes(old(ulAcc), old(iLen) / 8)
      ensures ulAcc == Shl(old(ulAcc), 8 * (old(iLen) / 8))
      ensures old(pOut) <= pOut <= old(pOut) + width / 4
      ensures forall i | 0 <= i < old(pOut) :: out[i] == old(out[i])
      ensures forall i | pOut <= i < out.Length :: out[i] == old(out[i])
    {
      ghost var acc0, len0, data0, p0 := ulAcc, iLen, Data, pOut;
      ghost var k := 0;
      assert Shl(acc0, 0) == acc0;
      assert data0 + TopBytes(acc0, 0) == data0;
      while iLen >= 8
        invariant Valid()
        invariant Stream == old(Stream)
        invariant 0 <= k && iLen == len0 - 8 * k
        invariant ulAcc == Shl(acc0, 8 * k)
        invariant Data == data0 + TopBytes(acc0, k)
        invariant p0 <= pOut <= p0 + 2 * k
        invariant forall i | 0 <= i < p0 :: out[i] == old(out[i])
        invariant forall i | pOut <= i < out.Length :: out[i] == old(out[i])
        decreases iLen
      {
        ghost var data1, acc1 := Data, ulAcc;
        DrainOne();
        DrainStep(data0, acc0, k, data1, acc1, Data, ulAcc);
        k := k + 1;
      }
      DivModUnique(len0, 8, k, iLen);
    }

    /**
      The step that ends both variants of STORECODE: the pending length
      grows by n and the code is ORed in just below the pending bits.
     */
    method AppendBits(code: Bits, n: nat)
      requires Valid() && |code| == width && Fits(code, n) && iLen + n <= width
      modifies this`iLen, this`ulAcc, this`Stream
      ensures Valid()
      ensures Stream == old(Stream) + code[width - n..]
      ensures iLen == old(iLen) + n && ulAcc == Or(old(ulAcc), Shl(code, width - iLen))
    {
      ghost var acc0, len0, stream0 := ulAcc, iLen, Stream;
      var len := iLen + n;
      iLen, ulAcc, Stream := len, Or(ulAcc, Shl(code, width - len)), Stream + code[width - n..];
      AppendCoherent(Data, acc0, len0, stream0, code, n, ulAcc, iLen, Stream);
    }

    /**
      STORECODE as the 32-bit build has it, which is also the slow path of
      the 64-bit build: appends the n low bits of `code`; if the register
      cannot take them, the whole bytes at its top are drained first.
     */
    method StoreCodeBytewise(code: Bits, n: nat)
      requires Valid()
      requires |code| == width && Fits(code, n)
      requires iLen + n <= width || iLen % 8 + n <= width
      requires pOut + width / 4 <= out.Length
      modifies this, out
      ensures Valid()
      ensures Stream == old(Stream) + code[width - n..]
      ensures Data == old(Data) + (if old(iLen) + n <= width then [] else TopBytes(old(ulAcc), old(iLen) / 8))
      ensures iLen == (if old(iLen) + n <= width then old(iLen) else old(iLen) % 8) + n
      ensures old(iLen) + n <= width ==> pOut == old(pOut) && ulAcc == Or(old(ulAcc), Shl(code, width - iLen))
      ensures forall i | 0 <= i < old(pOut) :: out[i] == old(out[i])
      ensures forall i | pOut <= i < out.Length :: out[i] == old(out[i])
    {
      if iLen + n > width {
        DrainBytes();
      }
      AppendBits(code, n);
    }

    /**
      STORECODE, 64-bit variant: as the bytewise one, except that when the
      register overflows and the eight bytes it would complete contain no
      0xFF, those eight bytes are stored at once, most significant first,
      and the register restarts with the code's remaining low bits.
     */
    method StoreCode64(code: Bits, n: nat)
      requires Valid() && width == 64
      requires |code| == 64 && Fits(code, n)
      requires iLen + n <= 64 || iLen % 8 + n <= 64 || NoFFByte(FullWord(ulAcc, iLen, code, n))
      requires pOut + 16 <= out.Length
      modifies this, out
      ensures Valid()
      ensures Stream == old(Stream) + code[64 - n..]
      ensures Data == old(Data) + Emitted64(old(ulAcc), old(iLen), code, n)
      ensures iLen ==
        if old(iLen) + n <= 64 then old(iLen) + n
        else if NoFFByte(FullWord(old(ulAcc), old(iLen), code, n)) then old(iLen) + n - 64
        else old(iLen) % 8 + n
      ensures old(iLen) + n <= 64 ==> pOut == old(pOut) && ulAcc == Or(old(ulAcc), Shl(code, 64 - iLen))
      ensures forall i | 0 <= i < old(pOut) :: out[i] == old(out[i])
      ensures forall i | pOut <= i < out.Length :: out[i] == old(out[i])
    {
      if iLen + n > 64 {
        StoreOverflow64(code, n);
      } else {
        AppendBits(code, n);
      }
    }

    /** The 64-bit STORECODE when the code does not fit in the register. */
    method StoreOverflow64(code: Bits, n: nat)
      requires Valid() && width == 64
      requires |code| == 64 && Fits(code, n)
      requires 64 < iLen + n && (iLen % 8 + n <= 64 || NoFFByte(FullWord(ulAcc, iLen, code, n)))
      requires pOut + 16 <= out.Length
      modifies this, out
      ensures Valid()
      ensures Stream == old(Stream) + code[64 - n..]
      ensures NoFFByte(FullWord(old(ulAcc), old(iLen), code, n)) ==>
        Data == old(Data) + TopBytes(FullWord(old(ulAcc), old(iLen), code, n), 8) && iLen == old(iLen) + n - 64
      ensures !NoFFByte(FullWord(old(ulAcc), old(iLen), code, n)) ==>
        Data == old(Data) + TopBytes(old(ulAcc), old(iLen) / 8) && iLen == old(iLen) % 8 + n
      ensures forall i | 0 <= i < old(pOut) :: out[i] == old(out[i])
      ensures forall i | pOut <= i < out.Length :: out[i] == old(out[i])
    {
      ghost var stream0 := Stream;
      var ul2 := JoinWord(code, n);
      var clear := NoFFByteTest(ul2);
      assert Stream == stream0;
      if clear {
        StoreWord(ul2, code, n);
      } else {
        StoreCodeBytewise(code, n);
      }
    }

    /** ul2 of the fast path: the pending bits followed by the top bits of the code. */
    method JoinWord(code: Bits, n: nat) returns (ul2: Bits)
      requires Valid() && |code| == width && Fits(code, n) && width < iLen + n
      ensures ul2 == FullWord(ulAcc, iLen, code, n)
    {
      ul2 := Or(ulAcc, Shr(code, iLen + n - width));
      FullWordBits(ulAcc, iLen, code, n);
    }

    /**
      The fast path of the 64-bit STORECODE, followed by the step that ends
      STORECODE: the eight bytes of ul2 go out unstuffed, the register is
      cleared with the pending length lowered by 64, and then the code is
      appended, which leaves just its bits that did not fit in ul2.
     */
    method StoreWord(ul2: Bits, code: Bits, n: nat)
      requires Valid() && width == 64
      requires |code| == 64 && Fits(code, n) && 64 < iLen + n
      requires ul2 == FullWord(ulAcc, iLen, code, n) && NoFFByte(ul2)
      requires pOut + 8 <= out.Length
      modifies this, out
      ensures Valid()
      ensures Stream == old(Stream) + code[64 - n..]
      ensures Data == old(Data) + TopBytes(ul2, 8)
      ensures iLen == old(iLen) + n - 64
      ensures pOut == old(pOut) + 8
      ensures forall i | 0 <= i < old(pOut) :: out[i] == old(out[i])
      ensures forall i | pOut <= i < out.Length :: out[i] == old(out[i])
    {
      ghost var data0, acc0, len0, stream0 := Data, ulAcc, iLen, Stream;
      PutWord(ul2);
      var len, acc := iLen - 64, Zeros(64);
      len := len + n;
      acc := Or(acc, Shl(code, 64 - len));
      iLen, ulAcc, Data, Stream := len, acc, Data + TopBytes(ul2, 8), Stream + code[64 - n..];
      FastPathStuffed(data0, ul2, Data);
      FastPathCoherent(data0, acc0, len0, stream0, code, n, Data, ulAcc, iLen, Stream);
    }
  }

  /** The test of the fast path: ul1, the smeared flags of ul2, is zero. */
  method NoFFByteTest(ul2: Bits) returns (clear: bool)
    requires |ul2| == 64
    ensures clear == NoFFByte(ul2)
  {
    var ul1 := FFByteFlags(ul2);
    FFByteFlagsZero(ul2);
    clear := ul1 == Zeros(64);
  }

  // -----------------------------------------------------------------------
  // Lemmas about the register operations used by STORECODE

  lemma LowBitOfEachByteBits()
    ensures forall p | 0 <= p < 64 :: FromNat(0x0101_0101_0101_0101, 64)[p] == (p % 8 == 7)
  {
    assert RepeatedByte(8) == 0x0101_0101_0101_0101;
    RepeatedByteBits(8, 64);
  }

  function RepeatedByte(k: nat): nat
  {
    if k == 0 then 0 else RepeatedByte(k - 1) * 256 + 1
  }

  lemma {:induction false} RepeatedByteBits(k: nat, w: nat)
    requires w == 8 * k
    ensures forall p | 0 <= p < w :: FromNat(RepeatedByte(k), w)[p] == (p % 8 == 7)
  {
    if k > 0 {
      var v := RepeatedByte(k - 1);
      var front, last := FromNat(v, w - 8), FromNat(1, 8);
      RepeatedByteBits(k - 1, w - 8);
      var x := FromNat(RepeatedByte(k), w);
      AppendByteOne(v, w - 8, x);
      OneBits();
      LowBitAppended(front, last, x, k - 1);
    }
  }

  lemma AppendByteOne(v: nat, n: nat, x: Bits)
    requires x == FromNat(v * 256 + 1, n + 8)
    ensures x == FromNat(v, n) + FromNat(1, 8)
  {
    assert Pow2(8) == 256;
    FromNatConcat(v, n, 1, 8);
  }

  lemma LowBitAppended(front: Bits, last: Bits, x: Bits, k: nat)
    requires |front| == 8 * k && forall i | 0 <= i < |front| :: front[i] == (i % 8 == 7)
    requires last == [false, false, false, false, false, false, false, true]
    requires x == front + last
    ensures forall p | 0 <= p < |x| :: x[p] == (p % 8 == 7)
  {
    forall p | 0 <= p < |x|
      ensures x[p] == (p % 8 == 7)
    {
      if p >= |front| {
        DivModUnique(p, 8, k, p - |front|);
      }
    }
  }

  lemma OneBits()
    ensures FromNat(1, 8) == [false, false, false, false, false, false, false, true]
  {
  }

  /** The smear test finds a 0xFF byte exactly when there is one. */
  lemma FFByteFlagsZero(x: Bits)
    requires |x| == 64
    ensures FFByteFlags(x) == Zeros(64) <==> NoFFByte(x)
  {
    var f := FFByteFlags(x);
    forall j | 0 <= j < 8
      ensures f[8 * j + 7] == (RegisterByte(x, j) == 0xFF)
    {
      FlagOfByte(x, j);
    }
    FFByteFlagsLowBits(x);
    if NoFFByte(x) {
      forall p | 0 <= p < 64 ensures !f[p] {
        if p % 8 == 7 {
          var j := p / 8;
          assert p == 8 * j + 7;
          assert !f[8 * j + 7];
        }
      }
      assert f == Zeros(64);
    }
    if f == Zeros(64) {
      assert forall j | 0 <= j < 8 :: !f[8 * j + 7];
    }
  }

  /** The flag in the low bit of byte j says whether that byte is 0xFF. */
  lemma FlagOfByte(x: Bits, j: nat)
    requires |x| == 64 && j < 8
    ensures FFByteFlags(x)[8 * j + 7] == (RegisterByte(x, j) == 0xFF)
  {
    var a := And(x, Shr(x, 4));
    var b := And(a, Shr(a, 2));
    var c := And(b, Shr(b, 1));
    var p := 8 * j + 7;
    DivModUnique(p, 8, j, 7);
    MaskBit(c, FFByteFlags(x), p);
    SmearStep(x, a, b, c, p);
    RegisterByteIsFF(x, j);
  }

  /** The final AND keeps bit p of c exactly when p is the low bit of its byte. */
  lemma MaskBit(c: Bits, f: Bits, p: nat)
    requires |c| == 64 && f == And(c, LowBitOfEachByte()) && p < 64
    ensures f[p] == (c[p] && p % 8 == 7)
  {
  }

  /** Only the low bit of a byte can carry a flag. */
  lemma FFByteFlagsLowBits(x: Bits)
    requires |x| == 64
    ensures forall p | 0 <= p < 64 && p % 8 != 7 :: !FFByteFlags(x)[p]
  {
  }

  lemma SmearStep(x: Bits, a: Bits, b: Bits, c: Bits, p: nat)
    requires |x| == 64 && 7 <= p < 64
    requires a == And(x, Shr(x, 4)) && b == And(a, Shr(a, 2)) && c == And(b, Shr(b, 1))
    ensures c[p] == forall q | p - 7 <= q < p + 1 :: x[q]
  {
    SmearBits(x, a, b, c, p);
    EightBits(x, p);
  }

  lemma EightBits(x: Bits, p: nat)
    requires 7 <= p < |x|
    ensures (x[p] && x[p - 1] && x[p - 2] && x[p - 3] && x[p - 4] && x[p - 5] && x[p - 6] && x[p - 7])
      == forall q | p - 7 <= q < p + 1 :: x[q]
  {
    if x[p] && x[p - 1] && x[p - 2] && x[p - 3] && x[p - 4] && x[p - 5] && x[p - 6] && x[p - 7] {
      forall q | p - 7 <= q < p + 1 ensures x[q] {
        assert q == p || q == p - 1 || q == p - 2 || q == p - 3 || q == p - 4 || q == p - 5 || q == p - 6 || q == p - 7;
      }
    }
  }

  lemma SmearBits(x: Bits, a: Bits, b: Bits, c: Bits, p: nat)
    requires |x| == 64 && 7 <= p < 64
    requires a == And(x, Shr(x, 4)) && b == And(a, Shr(a, 2)) && c == And(b, Shr(b, 1))
    ensures c[p] == (x[p] && x[p - 1] && x[p - 2] && x[p - 3] && x[p - 4] && x[p - 5] && x[p - 6] && x[p - 7])
  {
    ShrBits(x, 4);
    ShrBits(a, 2);
    ShrBits(b, 1);
    assert c[p] == (b[p] && b[p - 1]);
    assert b[p] == (a[p] && a[p - 2]);
    assert b[p - 1] == (a[p - 1] && a[p - 3]);
    assert a[p] == (x[p] && x[p - 4]);
    assert a[p - 1] == (x[p - 1] && x[p - 5]);
    assert a[p - 2] == (x[p - 2] && x[p - 6]);
    assert a[p - 3] == (x[p - 3] && x[p - 7]);
  }

  /** `(unsigned char)(ulAcc >> (width - 8))` is the top byte of the register. */
  lemma TopByteOfRegister(x: Bits)
    requires |x| >= 8
    ensures LowByte(Shr(x, |x| - 8)) == RegisterByte(x, 0)
  {
    ShrBits(x, |x| - 8);
    assert Shr(x, |x| - 8)[|x| - 8..] == x[..8];
  }

  lemma ShlShl(x: Bits, a: nat, b: nat)
    requires a + b <= |x|
    ensures Shl(Shl(x, a), b) == Shl(x, a + b)
  {
    ShlBits(x, a);
    ShlBits(Shl(x, a), b);
    ShlBits(x, a + b);
  }

  /** Draining one byte keeps the meaning of the state. */
  lemma DrainOneCoherent(data: seq<byte>, acc: Bits, len: int, stream: Bits, data': seq<byte>, acc': Bits, len': int)
    requires Coherent(data, acc, len, stream) && len >= 8
    requires data' == data + [RegisterByte(acc, 0)] && acc' == Shl(acc, 8) && len' == len - 8
    ensures Coherent(data', acc', len', stream)
  {
    ShlBits(acc, 8);
    BytesBitsAppend(data, [RegisterByte(acc, 0)]);
    RegisterByteBits(acc, 0);
    assert BytesBits([RegisterByte(acc, 0)]) == ByteBits(RegisterByte(acc, 0)) by {
      assert [RegisterByte(acc, 0)][..0] == [];
    }
    assert acc'[..len'] == acc[8..len];
    assert acc[..len] == acc[..8] + acc[8..len];
  }

  /** After k + 1 turns of the drain loop the bytes out are the top k + 1 bytes of the register. */
  lemma DrainStep(data0: seq<byte>, acc0: Bits, k: nat, data: seq<byte>, acc: Bits, data': seq<byte>, acc': Bits)
    requires 8 * k + 8 <= |acc0|
    requires data == data0 + TopBytes(acc0, k) && acc == Shl(acc0, 8 * k)
    requires data' == data + [RegisterByte(acc, 0)] && acc' == Shl(acc, 8)
    ensures data' == data0 + TopBytes(acc0, k + 1) && acc' == Shl(acc0, 8 * (k + 1))
  {
    ShlShl(acc0, 8 * k, 8);
    NextTopByte(acc0, k);
  }

  /** The byte drained after m others is byte m of the original register. */
  lemma NextTopByte(acc: Bits, m: nat)
    requires 8 * m + 8 <= |acc|
    ensures RegisterByte(Shl(acc, 8 * m), 0) == RegisterByte(acc, m)
    ensures TopBytes(acc, m + 1) == TopBytes(acc, m) + [RegisterByte(acc, m)]
  {
    ShlBits(acc, 8 * m);
    assert Shl(acc, 8 * m)[0..8] == acc[8 * m..8 * m + 8];
  }

  lemma StuffedOneMore(data: seq<byte>, c: byte, data': seq<byte>)
    requires data' == data + [c]
    ensures Stuffed(data') == Stuffed(data) + StuffByte(c)
  {
    assert data'[..|data|] == data;
  }

  /** ORing an n-bit code just below the pending bits appends it to the stream. */
  lemma AppendCoherent(data: seq<byte>, acc: Bits, len: int, stream: Bits, code: Bits, n: nat,
                       acc': Bits, len': int, stream': Bits)
    requires Coherent(data, acc, len, stream)
    requires |code| == |acc| && len + n <= |acc| && Fits(code, n)
    requires len' == len + n && acc' == Or(acc, Shl(code, |acc| - len'))
    requires stream' == stream + code[|code| - n..]
    ensures Coherent(data, acc', len', stream')
  {
    var w := |acc|;
    ShlBits(code, w - len');
    forall p | 0 <= p < len'
      ensures acc'[p] == (acc[..len] + code[w - n..])[p]
    {
      if p >= len {
        assert code[w - n..][p - len] == code[w - len' + p];
      }
    }
    assert acc'[..len'] == acc[..len] + code[w - n..];
  }

  /** In the fast path the register ul2 is the full word. */
  lemma FullWordBits(acc: Bits, len: int, code: Bits, n: nat)
    requires 0 <= len <= |acc| == |code| && |acc| < len + n
    requires forall p | len <= p < |acc| :: !acc[p]
    requires Fits(code, n)
    ensures Or(acc, Shr(code, len + n - |acc|)) == FullWord(acc, len, code, n)
  {
    var w := |acc|;
    var s := len + n - w;
    ShrBits(code, s);
    var r := Or(acc, Shr(code, s));
    forall p | 0 <= p < w
      ensures r[p] == FullWord(acc, len, code, n)[p]
    {
      if p >= len {
        assert code[w - n..w - n + (w - len)][p - len] == code[p - s];
      }
    }
  }

  /** Eight bytes without a 0xFF are written as they are. */
  lemma FastPathStuffed(data: seq<byte>, x: Bits, data': seq<byte>)
    requires |x| == 64 && NoFFByte(x) && data' == data + TopBytes(x, 8)
    ensures Stuffed(data') == Stuffed(data) + TopBytes(x, 8)
  {
    StuffedWithoutFF(TopBytes(x, 8));
    StuffedAppend(data, TopBytes(x, 8));
  }

  /**
    After the fast path the eight bytes stored, followed by the code's
    remaining bits restarted at the top of an empty register, carry the
    stream.
   */
  lemma FastPathCoherent(data: seq<byte>, acc: Bits, len: int, stream: Bits, code: Bits, n: nat,
                         data': seq<byte>, acc': Bits, len': int, stream': Bits)
    requires Coherent(data, acc, len, stream)
    requires |acc| == |code| == 64 && 64 < len + n && n <= 64
    requires data' == data + TopBytes(FullWord(acc, len, code, n), 8)
    requires len' == len + n - 64 && acc' == Or(Zeros(64), Shl(code, 64 - len'))
    requires stream' == stream + code[64 - n..]
    ensures Coherent(data', acc', len', stream')
  {
    var ul2 := FullWord(acc, len, code, n);
    WordSent(data, ul2, data');
    RestartBits(code, len', acc');
    FullWordThenRest(acc, len, code, n, len');
    Regroup(BytesBits(data), ul2, code[64 - len'..], acc[..len], code[64 - n..], stream);
  }

  /** Storing a register's eight bytes sends exactly its bits. */
  lemma WordSent(data: seq<byte>, x: Bits, data': seq<byte>)
    requires |x| == 64 && data' == data + TopBytes(x, 8)
    ensures BytesBits(data') == BytesBits(data) + x
  {
    BytesBitsAppend(data, TopBytes(x, 8));
    TopBytesBits(x, 8);
    assert x[..64] == x;
  }

  lemma Regroup(sent: Bits, word: Bits, rest: Bits, pending: Bits, tail: Bits, stream: Bits)
    requires word + rest == pending + tail && stream == sent + pending
    ensures (sent + word) + rest == stream + tail
  {
    assert (sent + word) + rest == sent + (word + rest);
    assert sent + (pending + tail) == (sent + pending) + tail;
  }

  /** The stored word followed by the code's remaining bits is the pending bits followed by the whole code. */
  lemma FullWordThenRest(acc: Bits, len: int, code: Bits, n: nat, s: int)
    requires |acc| == |code| == 64 && 0 <= len <= 64 < len + n && n <= 64 && s == len + n - 64
    ensures FullWord(acc, len, code, n) + code[64 - s..] == acc[..len] + code[64 - n..]
  {
    assert code[64 - n..] == code[64 - n..64 - s] + code[64 - s..];
  }

  /** A cleared register ORed with `code << (64 - s)` holds the code's last s bits at its top. */
  lemma RestartBits(code: Bits, s: int, acc': Bits)
    requires |code| == 64 && 0 <= s <= 64 && acc' == Or(Zeros(64), Shl(code, 64 - s))
    ensures acc'[..s] == code[64 - s..]
    ensures forall p | s <= p < 64 :: !acc'[p]
  {
    ShlBits(code, 64 - s);
  }

  // -----------------------------------------------------------------------
  // What the output means

  /**
    Removing the stuffed zeros from the output and appending the pending
    bits gives back every code bit appended so far.
   */
  lemma OutputDecodes(written: seq<byte>, data: seq<byte>, acc: Bits, len: int, stream: Bits)
    requires written == Stuffed(data) && Coherent(data, acc, len, stream)
    ensures BytesBits(Unstuff(written)) + acc[..len] == stream
  {
    UnstuffStuffed(data);
  }

  /**
    The code stream fixes the data bytes: of two coherent states with
    the same stream, the one that has emitted fewer bytes has emitted a
    prefix of the other's. So the fast path and the byte-at-a-time drain
    never disagree on a byte they both emit.
   */
  lemma SameStreamSameBytes(d1: seq<byte>, a1: Bits, l1: int, d2: seq<byte>, a2: Bits, l2: int, stream: Bits)
    requires Coherent(d1, a1, l1, stream) && Coherent(d2, a2, l2, stream) && |d1| <= |d2|
    ensures d1 == d2[..|d1|]
  {
    var b1, b2 := BytesBits(d1), BytesBits(d2);
    var k := 8 * |d1|;
    assert (b1 + a1[..l1])[..k] == b1;
    assert (b2 + a2[..l2])[..k] == b2[..k];
    BytesBitsPrefix(d1, d2);
  }

  /**
    With the bytes emitted, the pending length and the stream fixed, the
    register is fixed too: its top bits are the rest of the stream and the
    bits below them are zero.
   */
  lemma CoherentRegister(data: seq<byte>, a1: Bits, a2: Bits, len: int, stream: Bits)
    requires Coherent(data, a1, len, stream) && Coherent(data, a2, len, stream) && |a1| == |a2|
    ensures a1 == a2
  {
    var b := BytesBits(data);
    assert stream[|b|..] == (b + a1[..len])[|b|..] == a1[..len];
    assert stream[|b|..] == (b + a2[..len])[|b|..] == a2[..len];
    forall p | 0 <= p < |a1|
      ensures a1[p] == a2[p]
    {
      if p < len {
        assert a1[p] == a1[..len][p] && a2[p] == a2[..len][p];
      }
    }
  }

  /**
    The capacity of the register: a code of at most width - 7 bits
    (25 for the 32-bit register) can always be stored, because after the
    drain at most seven bits are pending.
   */
  lemma CodeLengthBound(len: int, n: nat, w: nat)
    requires 0 <= len <= w && n + 7 <= w
    ensures len + n <= w || len % 8 + n <= w
  {
  }
}

