/** Bytes, powers of two and most-significant-bit-first bit strings. */
module Bits {

  type byte = x: int | 0 <= x < 256

  type bit = x: int | 0 <= x < 2

  function Pow2(n: nat): (p: nat)
    ensures p > 0
  {
    if n == 0 then 1 else 2 * Pow2(n - 1)
  }

  /** v >> n for a non-negative v. */
  function ShiftRight(v: nat, n: nat): nat {
    if n == 0 then v else ShiftRight(v / 2, n - 1)
  }

  /** v << n. */
  function ShiftLeft(v: nat, n: nat): nat
    decreases n
  {
    if n == 0 then v else ShiftLeft(2 * v, n - 1)
  }

  /** v & ((1 << n) - 1). */
  function LowBits(v: nat, n: nat): nat {
    if n == 0 then 0 else 2 * LowBits(v / 2, n - 1) + v % 2
  }

  /** The low n bits of v, most significant first. */
  function NatBits(v: nat, n: nat): (s: seq<bit>)
    ensures |s| == n
  {
    if n == 0 then [] else NatBits(v / 2, n - 1) + [v % 2]
  }

  /** The number that a bit string denotes, most significant bit first. */
  function BitsVal(s: seq<bit>): (v: nat)
    ensures v < Pow2(|s|)
  {
    if s == [] then 0 else 2 * BitsVal(s[..|s| - 1]) + s[|s| - 1]
  }

  /** All the bits of a byte string, in reading order. */
  function ByteBits(data: seq<byte>): (s: seq<bit>)
    ensures |s| == 8 * |data|
  {
    if data == [] then [] else NatBits(data[0], 8) + ByteBits(data[1..])
  }

  lemma Pow2Add(a: nat, b: nat)
    ensures Pow2(a + b) == Pow2(a) * Pow2(b)
  {
    if a > 0 {
      Pow2Add(a - 1, b);
      assert Pow2(a + b) == 2 * (Pow2(a - 1) * Pow2(b)) == (2 * Pow2(a - 1)) * Pow2(b);
    }
  }

  lemma MulAtLeast(k: int, d: int)
    requires k >= 1 && d >= 0
    ensures k * d >= d
  {
    assert (k - 1) * d >= 0;
  }

  lemma ZeroQuotient(k: int, d: int)
    requires -d < k * d < d
    ensures k == 0
  {
    if k >= 1 {
      MulAtLeast(k, d);
    } else if k <= -1 {
      MulAtLeast(-k, d);
    }
  }

  /** Quotient and remainder are unique. */
  lemma DivUnique(v: nat, d: nat, q: nat, r: nat)
    requires r < d && v == q * d + r
    ensures v / d == q && v % d == r
  {
    assert v == (v / d) * d + v % d;
    assert (q - v / d) * d == q * d - (v / d) * d;
    ZeroQuotient(q - v / d, d);
  }

  /** Dividing by 2p is halving, then dividing by p. */
  lemma HalveThenDivide(v: nat, p: nat)
    requires p > 0
    ensures v / (2 * p) == (v / 2) / p
    ensures v % (2 * p) == 2 * ((v / 2) % p) + v % 2
  {
    var q, r := (v / 2) / p, (v / 2) % p;
    assert v / 2 == q * p + r;
    assert q * (2 * p) == 2 * (q * p);
    DivUnique(v, 2 * p, q, 2 * r + v % 2);
  }

  lemma {:induction false} ShiftRightDivides(v: nat, n: nat)
    ensures ShiftRight(v, n) == v / Pow2(n)
  {
    if n == 0 {
    } else {
      ShiftRightDivides(v / 2, n - 1);
      HalveThenDivide(v, Pow2(n - 1));
    }
  }

  lemma {:induction false} LowBitsMod(v: nat, n: nat)
    ensures LowBits(v, n) == v % Pow2(n)
  {
    if n == 0 {
    } else {
      LowBitsMod(v / 2, n - 1);
      HalveThenDivide(v, Pow2(n - 1));
    }
  }

  lemma {:induction false} ShiftLeftMultiplies(v: nat, n: nat)
    ensures ShiftLeft(v, n) == v * Pow2(n)
    decreases n
  {
    if n == 0 {
    } else {
      ShiftLeftMultiplies(2 * v, n - 1);
      MulDouble(v, Pow2(n - 1));
      assert (2 * v) * Pow2(n - 1) == 2 * (v * Pow2(n - 1));
    }
  }

  /** Reading back n bits of v gives v modulo 2^n. */
  lemma {:induction false} NatBitsVal(v: nat, n: nat)
    ensures BitsVal(NatBits(v, n)) == v % Pow2(n)
  {
    if n == 0 {
    } else {
      var s := NatBits(v, n);
      assert s[..|s| - 1] == NatBits(v / 2, n - 1);
      NatBitsVal(v / 2, n - 1);
      HalveThenDivide(v, Pow2(n - 1));
    }
  }

  lemma NatBitsPrepend(h: nat, low: bit, a: nat, b: nat, w: nat)
    requires NatBits(h, a + b) == NatBits(w, a) + NatBits(h, b)
    ensures NatBits(2 * h + low, a + (b + 1)) == NatBits(w, a) + NatBits(2 * h + low, b + 1)
  {
    assert (2 * h + low) / 2 == h;
    assert NatBits(2 * h + low, a + b + 1) == NatBits(h, a + b) + [low];
    assert NatBits(2 * h + low, b + 1) == NatBits(h, b) + [low];
  }

  /** The low a + b bits of v are the a bits above bit b, then the low b bits. */
  lemma {:induction false} NatBitsSplit(v: nat, a: nat, b: nat)
    ensures NatBits(v, a + b) == NatBits(ShiftRight(v, b), a) + NatBits(v, b)
  {
    if b == 0 {
    } else {
      NatBitsSplit(v / 2, a, b - 1);
      NatBitsPrepend(v / 2, v % 2, a, b - 1, ShiftRight(v, b));
    }
  }

  lemma MulDouble(x: nat, p: nat)
    ensures 2 * (x * p) == x * (2 * p)
  {
  }

  lemma {:induction false} BitsValConcat(a: seq<bit>, b: seq<bit>)
    ensures BitsVal(a + b) == BitsVal(a) * Pow2(|b|) + BitsVal(b)
  {
    if b == [] {
      assert a + b == a;
    } else {
      var n := |b| - 1;
      assert (a + b)[..|a + b| - 1] == a + b[..n];
      BitsValConcat(a, b[..n]);
      MulDouble(BitsVal(a), Pow2(n));
      assert Pow2(|b|) == 2 * Pow2(n);
    }
  }

  /** Two bit strings of one length that denote the same number are equal. */
  lemma {:induction false} BitsValInjective(a: seq<bit>, b: seq<bit>)
    requires |a| == |b| && BitsVal(a) == BitsVal(b)
    ensures a == b
  {
    if a == [] {
    } else {
      var n := |a| - 1;
      BitsValInjective(a[..n], b[..n]);
      assert a == a[..n] + [a[n]] && b == b[..n] + [b[n]];
    }
  }

  /** Bits packed into bytes, the last byte filled with zero bits. */
  function PackBits(s: seq<bit>): (data: seq<byte>)
    decreases |s|
  {
    if s == [] then []
    else if |s| < 8 then [ByteOf(s + Zeros(8 - |s|))]
    else [ByteOf(s[..8])] + PackBits(s[8..])
  }

  function ByteOf(s: seq<bit>): (b: byte)
    requires |s| == 8
    ensures b == BitsVal(s)
  {
    Pow2Eight();
    BitsVal(s)
  }

  function Zeros(n: nat): (s: seq<bit>)
    ensures |s| == n
  {
    seq(n, i => 0)
  }

  function ZeroBytes(n: nat): (s: seq<byte>)
    ensures |s| == n
  {
    seq(n, i => 0)
  }

  lemma Pow2Eight()
    ensures Pow2(8) == 256
  {
    assert Pow2(4) == 16;
    Pow2Add(4, 4);
  }

  lemma {:induction false} EightBits(s: seq<bit>)
    requires |s| == 8
    ensures BitsVal(s) < 256
    ensures NatBits(BitsVal(s), 8) == s
  {
    Pow2Eight();
    var v := BitsVal(s);
    NatBitsVal(v, 8);
    BitsValInjective(NatBits(v, 8), s);
  }

  /** Unpacking packed bits gives them back, followed by fewer than eight padding bits. */
  lemma {:induction false} PackBitsRoundTrip(s: seq<bit>)
    ensures s <= ByteBits(PackBits(s))
    ensures |ByteBits(PackBits(s))| < |s| + 8
    decreases |s|
  {
    if s == [] {
    } else if |s| < 8 {
      var t := s + Zeros(8 - |s|);
      EightBits(t);
      assert ByteBits(PackBits(s)) == NatBits(ByteOf(t), 8) + ByteBits([]) == t;
    } else {
      EightBits(s[..8]);
      PackBitsRoundTrip(s[8..]);
      var d := PackBits(s);
      assert d[1..] == PackBits(s[8..]);
      assert ByteBits(d) == s[..8] + ByteBits(PackBits(s[8..]));
      assert s == s[..8] + s[8..];
    }
  }
}
