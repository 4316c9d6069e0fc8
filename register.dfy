/**
  Unsigned machine registers as sequences of bits.

  A W-bit unsigned integer (`uint32_t`, `uint64_t`, `unsigned char`) is
  modelled by its W bits, most significant bit first: index 0 is bit W-1.
  The C operators the bit accumulator uses on such registers (`<<`, `>>`,
  `|`, `&` and the truncating cast) are defined here on that
  representation, and `ToNat`/`FromNat` relate a register to the unsigned
  value it holds.
 */
module Register {

  type Bits = seq<bool>

  /** The unsigned value of a register, most significant bit first. */
  function ToNat(x: Bits): (v: nat)
    ensures v < Pow2(|x|)
  {
    if x == [] then 0
    else 2 * ToNat(x[..|x| - 1]) + (if x[|x| - 1] then 1 else 0)
  }

  /** The low w bits of v, most significant first: the register that holds v truncated to w bits. */
  function FromNat(v: nat, w: nat): (x: Bits)
    ensures |x| == w
  {
    if w == 0 then [] else FromNat(v / 2, w - 1) + [v % 2 == 1]
  }

  function Pow2(n: nat): (p: nat)
    ensures p >= 1
  {
    if n == 0 then 1 else 2 * Pow2(n - 1)
  }

  /** The register holding 0. */
  function Zeros(w: nat): (x: Bits)
    ensures |x| == w && forall p | 0 <= p < w :: !x[p]
  {
    seq(w, _ => false)
  }

  /** `x << k` for a register of width |x|: bits move towards the top, zeros enter at the bottom. */
  function Shl(x: Bits, k: nat): (r: Bits)
    requires k <= |x|
    ensures |r| == |x|
  {
    x[k..] + Zeros(k)
  }

  /** `x >> k` (logical): bits move towards the bottom, zeros enter at the top. */
  function Shr(x: Bits, k: nat): (r: Bits)
    requires k <= |x|
    ensures |r| == |x|
  {
    Zeros(k) + x[..|x| - k]
  }

  /** Bit p of `x << k` is bit p + k of x, or zero past the bottom. */
  lemma ShlBits(x: Bits, k: nat)
    requires k <= |x|
    ensures forall p | 0 <= p < |x| :: Shl(x, k)[p] == (p + k < |x| && x[p + k])
  {
  }

  /** Bit p of `x >> k` is bit p - k of x, or zero above the top. */
  lemma ShrBits(x: Bits, k: nat)
    requires k <= |x|
    ensures forall p | 0 <= p < |x| :: Shr(x, k)[p] == (p >= k && x[p - k])
  {
  }

  /** `x | y` */
  function Or(x: Bits, y: Bits): (r: Bits)
    requires |x| == |y|
    ensures |r| == |x| && forall p | 0 <= p < |x| :: r[p] == (x[p] || y[p])
  {
    seq(|x|, p requires 0 <= p < |x| => x[p] || y[p])
  }

  /** `x & y` */
  function And(x: Bits, y: Bits): (r: Bits)
    requires |x| == |y|
    ensures |r| == |x| && forall p | 0 <= p < |x| :: r[p] == (x[p] && y[p])
  {
    seq(|x|, p requires 0 <= p < |x| => x[p] && y[p])
  }

  /** A code `c` fits in its n low bits: every bit above them is zero. */
  ghost predicate Fits(c: Bits, n: nat)
  {
    n <= |c| && forall p | 0 <= p < |c| - n :: !c[p]
  }

  // ---------------------------------------------------------------------
  // Numeric meaning of the representation

  lemma {:induction false} Pow2Add(a: nat, b: nat)
    ensures Pow2(a + b) == Pow2(a) * Pow2(b)
  {
    if b > 0 {
      Pow2Add(a, b - 1);
      assert Pow2(a + b) == 2 * Pow2(a + b - 1);
    }
  }

  /** Reading back a truncated value gives it modulo 2^w. */
  lemma {:induction false} ToNatFromNat(v: nat, w: nat)
    ensures ToNat(FromNat(v, w)) == v % Pow2(w)
  {
    if w > 0 {
      var x := FromNat(v, w);
      assert x[..w - 1] == FromNat(v / 2, w - 1);
      ToNatFromNat(v / 2, w - 1);
      ModHalf(v, Pow2(w - 1));
    }
  }

  lemma ModHalf(v: nat, m: nat)
    requires m >= 1
    ensures 2 * ((v / 2) % m) + v % 2 == v % (2 * m)
  {
    var q := v / 2;
    var b := v % 2;
    assert v == 2 * q + b;
    var q1 := q / m;
    var r1 := q % m;
    assert q == q1 * m + r1;
    assert v == (2 * m) * q1 + (2 * r1 + b);
    assert 0 <= 2 * r1 + b < 2 * m;
    DivModUnique(v, 2 * m, q1, 2 * r1 + b);
  }

  lemma DivModUnique(v: int, m: int, q: int, r: int)
    requires m > 0 && 0 <= r < m && v == q * m + r
    ensures v % m == r && v / m == q
  {
    var q0 := v / m;
    var r0 := v % m;
    assert v == q0 * m + r0;
    if q0 > q {
      assert (q0 - q) * m == q0 * m - q * m;
      MulAtLeast(q0 - q, m);
    } else if q0 < q {
      assert (q - q0) * m == q * m - q0 * m;
      MulAtLeast(q - q0, m);
    }
  }

  lemma MulAtLeast(d: int, m: int)
    requires d >= 1 && m > 0
    ensures d * m >= m
  {
    assert (d - 1) * m >= 0;
    assert d * m == (d - 1) * m + m;
  }

  /** A register is determined by its value: FromNat inverts ToNat. */
  lemma {:induction false} FromNatToNat(x: Bits)
    ensures FromNat(ToNat(x), |x|) == x
  {
    if x != [] {
      var w := |x|;
      var v := ToNat(x);
      var b := if x[w - 1] then 1 else 0;
      DivModUnique(v, 2, ToNat(x[..w - 1]), b);
      FromNatToNat(x[..w - 1]);
      assert x == x[..w - 1] + [x[w - 1]];
    }
  }

  /** Splitting a register after its first i bits splits its value. */
  lemma {:induction false} ToNatSplit(x: Bits, i: nat)
    requires i <= |x|
    ensures ToNat(x) == ToNat(x[..i]) * Pow2(|x| - i) + ToNat(x[i..])
  {
    var w := |x|;
    if i == w {
      assert x[..w] == x;
      assert x[w..] == [];
    } else {
      var y := x[..w - 1];
      var t := x[i..];
      assert y[..i] == x[..i];
      assert t[..|t| - 1] == y[i..];
      ToNatSplit(y, i);
      var b := if x[w - 1] then 1 else 0;
      var hi := ToNat(x[..i]);
      var lo := ToNat(y[i..]);
      assert ToNat(t) == 2 * lo + b;
      assert ToNat(x) == 2 * ToNat(y) + b;
      assert Pow2(w - i) == 2 * Pow2(w - 1 - i);
      SplitStep(ToNat(x), ToNat(y), ToNat(t), b, hi, lo, Pow2(w - 1 - i), Pow2(w - i));
      assert ToNat(x) == hi * Pow2(w - i) + ToNat(t);
    }
  }

  lemma SplitStep(v: int, vy: int, vt: int, b: int, hi: int, lo: int, p1: int, p: int)
    requires v == 2 * vy + b && vy == hi * p1 + lo && vt == 2 * lo + b && p == 2 * p1
    ensures v == hi * p + vt
  {
    DoubleProduct(hi, p1);
  }

  lemma DoubleProduct(h: int, p: int)
    ensures 2 * (h * p) == h * (2 * p)
  {
  }

  /** `x >> k` holds the value of x divided by 2^k. */
  lemma ShrValue(x: Bits, k: nat)
    requires k <= |x|
    ensures ToNat(Shr(x, k)) == ToNat(x) / Pow2(k)
  {
    var w := |x|;
    ToNatZeroPrefix(Zeros(k), x[..w - k]);
    ToNatSplit(x, w - k);
    DivModUnique(ToNat(x), Pow2(k), ToNat(x[..w - k]), ToNat(x[w - k..]));
  }

  /** `x << k` holds the value of x times 2^k, truncated to the register width. */
  lemma ShlValue(x: Bits, k: nat)
    requires k <= |x|
    ensures ToNat(Shl(x, k)) == (ToNat(x) * Pow2(k)) % Pow2(|x|)
  {
    var w := |x|;
    var r := Shl(x, k);
    var hi := ToNat(x[..k]);
    var lo := ToNat(x[k..]);
    var pw := Pow2(w - k);
    var pk := Pow2(k);
    assert r[..w - k] == x[k..];
    assert r[w - k..] == Zeros(k);
    ToNatSplit(r, w - k);
    ZerosValue(k);
    assert ToNat(r) == lo * pk;
    ToNatSplit(x, k);
    Pow2Add(w - k, k);
    ShiftMod(ToNat(x), hi, lo, pw, pk, Pow2(w));
  }

  lemma ShiftMod(v: int, hi: int, lo: int, pw: int, pk: int, p: int)
    requires v == hi * pw + lo && 0 <= lo < pw && pk > 0 && p == pw * pk
    ensures (v * pk) % p == lo * pk
  {
    Distribute(hi, pw, lo, pk);
    MulStrict(lo, pw, pk);
    assert 0 <= lo * pk;
    DivModUnique(v * pk, p, hi, lo * pk);
  }

  lemma Distribute(h: int, p: int, l: int, q: int)
    ensures (h * p + l) * q == h * (p * q) + l * q
  {
  }

  lemma MulStrict(a: int, b: int, c: int)
    requires 0 <= a < b && c > 0
    ensures a * c < b * c
  {
    assert b * c - a * c == (b - a) * c;
    MulAtLeast(b - a, c);
  }

  lemma {:induction false} ZerosValue(w: nat)
    ensures ToNat(Zeros(w)) == 0
  {
    if w > 0 {
      assert Zeros(w)[..w - 1] == Zeros(w - 1);
      ZerosValue(w - 1);
    }
  }

  lemma {:induction false} ToNatZeroPrefix(z: Bits, y: Bits)
    requires forall p | 0 <= p < |z| :: !z[p]
    ensures ToNat(z + y) == ToNat(y)
  {
    if y == [] {
      assert z + y == z;
      assert z == Zeros(|z|);
      ZerosValue(|z|);
    } else {
      var s := z + y;
      assert s[..|s| - 1] == z + y[..|y| - 1];
      ToNatZeroPrefix(z, y[..|y| - 1]);
    }
  }

  /** Or of bit fields that do not overlap adds their values. */
  lemma {:induction false} OrDisjointValue(x: Bits, y: Bits)
    requires |x| == |y|
    requires forall p | 0 <= p < |x| :: !(x[p] && y[p])
    ensures ToNat(Or(x, y)) == ToNat(x) + ToNat(y)
  {
    if x != [] {
      var w := |x|;
      assert Or(x, y)[..w - 1] == Or(x[..w - 1], y[..w - 1]);
      OrDisjointValue(x[..w - 1], y[..w - 1]);
    }
  }

  /** A code fits in n bits exactly when its value is below 2^n. */
  lemma FitsValue(c: Bits, n: nat)
    requires n <= |c|
    ensures Fits(c, n) <==> ToNat(c) < Pow2(n)
  {
    var w := |c|;
    ToNatSplit(c, w - n);
    var hi := ToNat(c[..w - n]);
    var lo := ToNat(c[w - n..]);
    assert w - (w - n) == n;
    if Fits(c, n) {
      assert c[..w - n] == Zeros(w - n);
      ZerosValue(w - n);
      HighPart(ToNat(c), hi, lo, Pow2(n));
    } else {
      var p :| 0 <= p < w - n && c[p];
      NonZeroValue(c[..w - n], p);
      HighPart(ToNat(c), hi, lo, Pow2(n));
    }
  }

  lemma HighPart(v: int, hi: int, lo: int, p: int)
    requires v == hi * p + lo && 0 <= lo < p && hi >= 0
    ensures (v < p) == (hi == 0)
  {
    if hi > 0 {
      MulAtLeast(hi, p);
    }
  }

  /** A register holds its largest value exactly when every bit is set. */
  lemma {:induction false} AllOnesValue(x: Bits)
    ensures ToNat(x) == Pow2(|x|) - 1 <==> forall p | 0 <= p < |x| :: x[p]
  {
    if x != [] {
      var y := x[..|x| - 1];
      AllOnesValue(y);
      assert forall p | 0 <= p < |y| :: y[p] == x[p];
      if forall p | 0 <= p < |x| :: x[p] {
        assert forall p | 0 <= p < |y| :: y[p];
      } else if !x[|x| - 1] {
        assert ToNat(x) == 2 * ToNat(y);
      } else {
        var p :| 0 <= p < |x| && !x[p];
        assert !y[p];
      }
    }
  }

  lemma {:induction false} NonZeroValue(x: Bits, p: nat)
    requires p < |x| && x[p]
    ensures ToNat(x) >= 1
  {
    var w := |x|;
    if p < w - 1 {
      NonZeroValue(x[..w - 1], p);
    }
  }

  /** Writing a value as two bit fields: the high part a above the m-bit low part b. */
  lemma {:induction false} FromNatConcat(a: nat, n: nat, b: nat, m: nat)
    requires b < Pow2(m)
    ensures FromNat(a * Pow2(m) + b, n + m) == FromNat(a, n) + FromNat(b, m)
  {
    if m == 0 {
      assert b == 0;
    } else {
      var q := Pow2(m - 1);
      HalveField(a, q, b);
      FromNatConcat(a, n, b / 2, m - 1);
    }
  }

  lemma HalveField(a: nat, q: nat, b: nat)
    requires b < 2 * q
    ensures (a * (2 * q) + b) / 2 == a * q + b / 2
    ensures (a * (2 * q) + b) % 2 == b % 2
    ensures b / 2 < q
  {
    assert a * (2 * q) + b == 2 * (a * q + b / 2) + b % 2;
    DivModUnique(a * (2 * q) + b, 2, a * q + b / 2, b % 2);
  }
}
