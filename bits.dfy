/**
 * Bit strings as the JPEG entropy coder sees them: most significant bit
 * first, the order in which section B.1.1.5 of ITU-T T.81 packs codes into
 * bytes. Register values are unbounded naturals here; the 32-bit reservoir
 * and the 16-bit code words never exceed their width (see BitReader).
 */
module Bits {
  import opened Common

  /** The n low bits of v, most significant first. */
  function ToBits(v: nat, n: nat): (r: seq<bool>)
    ensures |r| == n
  {
    if n == 0 then [] else ToBits(v / 2, n - 1) + [v % 2 == 1]
  }

  /** The number a bit string spells, most significant bit first. */
  function FromBits(s: seq<bool>): nat
  {
    if s == [] then 0 else 2 * FromBits(s[..|s| - 1]) + (if s[|s| - 1] then 1 else 0)
  }

  /** The bits of a byte sequence, each byte most significant bit first. */
  function BytesToBits(bs: seq<byte>): (r: seq<bool>)
    ensures |r| == 8 * |bs|
  {
    if bs == [] then [] else ToBits(bs[0] as nat, 8) + BytesToBits(bs[1..])
  }

  /** v >> n, one halving at a time. */
  function Shr(v: nat, n: nat): nat
  {
    if n == 0 then v else Shr(v / 2, n - 1)
  }

  /** v << n, one doubling at a time. */
  function Shl(v: nat, n: nat): nat
  {
    if n == 0 then v else 2 * Shl(v, n - 1)
  }

  lemma {:induction false} ShlDouble(v: nat, n: nat)
    ensures Shl(2 * v, n) == 2 * Shl(v, n)
  {
    if n > 0 {
      ShlDouble(v, n - 1);
    }
  }

  lemma {:induction false} ShlMonotone(a: nat, b: nat, n: nat)
    requires a <= b
    ensures Shl(a, n) <= Shl(b, n)
  {
    if n > 0 {
      ShlMonotone(a, b, n - 1);
    }
  }

  /** Shifting left multiplies by a power of two. */
  lemma {:induction false} ShlIsMul(v: nat, n: nat)
    ensures Shl(v, n) == v * Pow2(n)
  {
    if n > 0 {
      ShlIsMul(v, n - 1);
      MulTwice(v, Pow2(n - 1));
    }
  }

  lemma MulTwice(f: nat, q: nat)
    ensures (f * q) * 2 == f * (2 * q)
  {
  }

  /** Appending d low bits to an n-bit number gives an (n+d)-bit number. */
  lemma {:induction false} ShlBound(r: nat, n: nat, c: nat, d: nat)
    requires r < Pow2(n) && c < Pow2(d)
    ensures Shl(r, d) + c < Pow2(n + d)
  {
    if d > 0 {
      ShlBound(r, n, c / 2, d - 1);
    }
  }

  /** Shifting right by d undoes shifting left by d, and is monotone. */
  lemma {:induction false} ShrAtLeast(c: nat, a: nat, d: nat)
    requires c >= Shl(a, d)
    ensures Shr(c, d) >= a
  {
    if d > 0 {
      ShrAtLeast(c / 2, a, d - 1);
    }
  }

  /** v & (2^n - 1), one bit at a time. */
  function Low(v: nat, n: nat): (r: nat)
    ensures r < Pow2(n)
  {
    if n == 0 then 0 else 2 * Low(v / 2, n - 1) + v % 2
  }

  /** The high and low parts of Shl(q, d) + r, for r below 2^d. */
  lemma {:induction false} ShrLowOf(v: nat, d: nat, q: nat, r: nat)
    requires v == Shl(q, d) + r && r < Pow2(d)
    ensures Shr(v, d) == q && Low(v, d) == r
  {
    if d > 0 {
      ShrLowOf(v / 2, d - 1, q, r / 2);
    }
  }

  /** A number below 2^n is its own n low bits. */
  lemma {:induction false} LowSmall(v: nat, n: nat)
    requires v < Pow2(n)
    ensures Low(v, n) == v
  {
    if n > 0 {
      LowSmall(v / 2, n - 1);
    }
  }

  /** Division and remainder are determined by any exact decomposition. */
  lemma DivModOf(v: nat, d: nat, q: nat, r: nat)
    requires d > 0 && r < d && v == q * d + r
    ensures v / d == q && v % d == r
  {
    var q', r' := v / d, v % d;
    assert (q' - q) * d == r - r';
    if q' > q {
      MulGrows(q' - q, d);
    } else if q' < q {
      MulGrows(q - q', d);
    }
  }

  lemma {:induction false} MulGrows(a: nat, d: nat)
    requires a >= 1
    ensures a * d >= d
  {
    if a > 1 {
      MulGrows(a - 1, d);
      assert a * d == (a - 1) * d + d;
    }
  }

  lemma {:induction false} FromBitsBound(s: seq<bool>)
    ensures FromBits(s) < Pow2(|s|)
  {
    if s != [] {
      FromBitsBound(s[..|s| - 1]);
    }
  }

  /** Reading back the bits of v gives v modulo 2^n. */
  lemma {:induction false} FromToBits(v: nat, n: nat)
    ensures FromBits(ToBits(v, n)) == Low(v, n)
  {
    if n > 0 {
      var s := ToBits(v, n);
      assert s[..n - 1] == ToBits(v / 2, n - 1);
      FromToBits(v / 2, n - 1);
    }
  }

  /** A bit string is the bits of the number it spells. */
  lemma {:induction false} ToFromBits(s: seq<bool>)
    ensures ToBits(FromBits(s), |s|) == s
  {
    if s != [] {
      var init := s[..|s| - 1];
      var b := if s[|s| - 1] then 1 else 0;
      ToFromBits(init);
      var v := 2 * FromBits(init) + b;
      DivModOf(v, 2, FromBits(init), b);
      assert s == init + [s[|s| - 1]];
    }
  }

  /** The number spelled by a concatenation. */
  lemma {:induction false} FromBitsAppend(a: seq<bool>, b: seq<bool>)
    ensures FromBits(a + b) == FromBits(a) * Pow2(|b|) + FromBits(b)
  {
    if b == [] {
      assert a + b == a;
    } else {
      var b' := b[..|b| - 1];
      assert (a + b)[..|a + b| - 1] == a + b';
      FromBitsAppend(a, b');
      var e := if b[|b| - 1] then 1 else 0;
      assert FromBits(a + b) == 2 * FromBits(a + b') + e;
      assert FromBits(b) == 2 * FromBits(b') + e;
      Regroup(FromBits(a), Pow2(|b'|), FromBits(b'), e);
    }
  }

  lemma Regroup(x: nat, p: nat, y: nat, e: nat)
    ensures 2 * (x * p + y) + e == x * (2 * p) + (2 * y + e)
  {
  }

  /** The m+n bits of v are the m bits of its high part then the n bits of its low part. */
  lemma {:induction false} ToBitsSplit(v: nat, m: nat, n: nat)
    ensures ToBits(v, m + n) == ToBits(Shr(v, n), m) + ToBits(Low(v, n), n)
  {
    if n > 0 {
      var half, low := v / 2, Low(v, n);
      ToBitsSplit(half, m, n - 1);
      assert ToBits(v, m + n) == ToBits(half, m + n - 1) + [v % 2 == 1];
      assert ToBits(low, n) == ToBits(low / 2, n - 1) + [low % 2 == 1];
      assert ToBits(half, m + n - 1) == ToBits(Shr(v, n), m) + ToBits(low / 2, n - 1);
    }
  }

  /** The first k of the n bits of v are the bits of v's top k bits. */
  lemma {:induction false} TopBitsPrefix(v: nat, n: nat, k: nat)
    requires k <= n
    ensures ToBits(v, n)[..k] == ToBits(Shr(v, n - k), k)
  {
    if k < n {
      TopBitsPrefix(v / 2, n - 1, k);
      assert ToBits(v, n)[..k] == ToBits(v / 2, n - 1)[..k];
    }
  }

  /** The first k of the n bits of v spell v's top k bits. */
  lemma TopBits(v: nat, n: nat, k: nat)
    requires k <= n && v < Pow2(n)
    ensures ToBits(v, n)[..k] == ToBits(Shr(v, n - k), k)
    ensures FromBits(ToBits(v, n)[..k]) == Shr(v, n - k)
  {
    TopBitsPrefix(v, n, k);
    var hi := Shr(v, n - k);
    FromToBits(hi, k);
    ShrBound(v, n, n - k);
    LowSmall(hi, k);
  }

  /** Shifting an n-bit number right by d leaves an (n-d)-bit number. */
  lemma {:induction false} ShrBound(v: nat, n: nat, d: nat)
    requires d <= n && v < Pow2(n)
    ensures Shr(v, d) < Pow2(n - d)
  {
    if d > 0 {
      ShrBound(v / 2, n - 1, d - 1);
    }
  }

  lemma MulMonotoneLeft(a: nat, b: nat, c: nat)
    requires a <= b
    ensures a * c <= b * c
  {
    if a < b {
      MulGrows(b - a, c);
      assert b * c == a * c + (b - a) * c;
    }
  }

  /** The bits of a concatenation of byte sequences. */
  lemma {:induction false} BytesToBitsAppend(a: seq<byte>, b: seq<byte>)
    ensures BytesToBits(a + b) == BytesToBits(a) + BytesToBits(b)
  {
    if a != [] {
      assert (a + b)[1..] == a[1..] + b;
      BytesToBitsAppend(a[1..], b);
    } else {
      assert a + b == b;
    }
  }
}
