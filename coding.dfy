/**
 * Magnitude categories and extra bits (Table F.1 and section F.1.2.1 of
 * ITU-T T.81): a nonzero coefficient n of category c is sent as c extra bits,
 * n itself when n > 0 and 2^c - 1 + n when n < 0. The decoder's DetermineSign
 * (EXTEND, section F.2.2.1) maps the c bits back to n.
 *
 * The encoder precomputes the category and the bit string of every n in
 * -32767..32767 (set_numbers_category_and_bitcode); SetNumbersCategoryAndBitcode
 * models that loop and its result is stated entry by entry.
 */
module Coding {
  import opened Common

  /** bitstring: a code of `length` bits held in the low bits of `value`. */
  datatype Bitstring = Bitstring(length: nat, value: nat)

  /** The number of significant bits of m. */
  function Magnitude(m: nat): nat
  {
    if m == 0 then 0 else 1 + Magnitude(m / 2)
  }

  function Abs(n: int): nat
  {
    if n < 0 then -n else n
  }

  /** The run/size symbols an AC table must have: EOB, ZRL and every run 0..15 with size 1..10. */
  predicate IsAcSymbol(s: int)
  {
    s == 0x00 || s == 0xF0 || (0 <= s < 256 && 1 <= s % 16 <= 10)
  }

  /** The magnitude category of n. */
  function Category(n: int): nat
  {
    Magnitude(Abs(n))
  }

  /** The extra bits of n: n itself if positive, 2^c - 1 + n if negative. */
  function BitcodeValue(n: int): int
  {
    if n >= 0 then n else Pow2(Category(n)) - 1 + n
  }

  /** bitcode[n]: the extra bits of n, Category(n) of them. */
  function Bitcode(n: int): Bitstring
  {
    var v := BitcodeValue(n);
    Bitstring(Category(n), if v >= 0 then v else 0)
  }

  /** DetermineSign(val, nBits): a raw value below 2^(t-1) stands for a negative number. */
  function Extend(v: int, t: nat): (r: int)
    requires t >= 1
  {
    if v < Pow2(t - 1) then v - Pow2(t) + 1 else v
  }

  /** A number of m's magnitude lies in [2^(c-1), 2^c). */
  lemma {:induction false} MagnitudeBounds(m: nat)
    requires m >= 1
    ensures Magnitude(m) >= 1
    ensures Pow2(Magnitude(m) - 1) <= m < Pow2(Magnitude(m))
  {
    if m > 1 {
      MagnitudeBounds(m / 2);
    }
  }

  /** The category is the only c with 2^(c-1) <= m < 2^c. */
  lemma {:induction false} MagnitudeUnique(m: nat, c: nat)
    requires c >= 1 && Pow2(c - 1) <= m < Pow2(c)
    ensures Magnitude(m) == c
  {
    if c > 1 {
      MagnitudeUnique(m / 2, c - 1);
    }
  }

  /** Category 0 is exactly the number 0. */
  lemma CategoryZero(n: int)
    ensures Category(n) == 0 <==> n == 0
  {
    if n != 0 {
      MagnitudeBounds(Abs(n));
    }
  }

  /**
   * Table F.1: for n != 0 the category c satisfies 2^(c-1) <= |n| < 2^c, and
   * the extra bits fit in c bits, at least 2^(c-1) for positive n and below
   * it for negative n.
   */
  lemma BitcodeRange(n: int)
    requires n != 0
    ensures Category(n) >= 1 && Pow2(Category(n) - 1) <= Abs(n) < Pow2(Category(n))
    ensures 0 <= BitcodeValue(n) < Pow2(Category(n))
    ensures n > 0 ==> BitcodeValue(n) >= Pow2(Category(n) - 1)
    ensures n < 0 ==> BitcodeValue(n) < Pow2(Category(n) - 1)
    ensures Bitcode(n) == Bitstring(Category(n), BitcodeValue(n))
  {
    MagnitudeBounds(Abs(n));
  }

  /** DetermineSign undoes the encoder's extra bits. */
  lemma ExtendBitcode(n: int)
    requires n != 0
    ensures Category(n) >= 1 && Extend(BitcodeValue(n), Category(n)) == n
  {
    BitcodeRange(n);
  }

  /**
   * And conversely: every t-bit value is the extra bits of exactly the number
   * DetermineSign makes of it, which has category t.
   */
  lemma BitcodeExtend(v: nat, t: nat)
    requires t >= 1 && v < Pow2(t)
    ensures Extend(v, t) != 0 && Category(Extend(v, t)) == t && BitcodeValue(Extend(v, t)) == v
  {
    var n := Extend(v, t);
    if v < Pow2(t - 1) {
      assert Abs(n) == Pow2(t) - 1 - v;
      MagnitudeUnique(Abs(n), t);
    } else {
      MagnitudeUnique(v, t);
    }
  }

  /** Numbers the 16-bit tables cover have category at most 15. */
  lemma CategoryBound(n: int)
    requires -32767 <= n <= 32767
    ensures Category(n) <= 15
  {
    if n != 0 {
      MagnitudeBounds(Abs(n));
      Pow2Values();
      if Category(n) > 15 {
        Pow2Monotone(15, Category(n) - 1);
      }
    }
  }

  // ---------------------------------------------------------------------
  // set_numbers_category_and_bitcode

  /** category[n] and bitcode[n] live at index n + 32767 of their 65535-entry arrays. */
  const Offset: int := 32767

  /** Which entries the loop has filled: |n| below lo, then [lo, posTo) and [negFrom, negTo). */
  predicate IsFilled(n: int, lo: int, posTo: int, negFrom: int, negTo: int)
  {
    (n != 0 && Abs(n) < lo) || (lo <= n < posTo) || (negFrom <= n < negTo)
  }

  /** The tables hold the Table F.1 entries where filled and their zero initialisation elsewhere. */
  ghost predicate TablesAt(category: array<int>, bitcode: array<Bitstring>, lo: int, posTo: int, negFrom: int, negTo: int)
    reads category, bitcode
    requires category.Length == 65535 && bitcode.Length == 65535
  {
    forall i :: 0 <= i < 65535 ==>
      if IsFilled(i - Offset, lo, posTo, negFrom, negTo)
      then category[i] == Category(i - Offset) && bitcode[i] == Bitcode(i - Offset)
      else category[i] == 0 && bitcode[i] == Bitstring(0, 0)
  }

  /**
   * set_numbers_category_and_bitcode on the zero-initialised static arrays:
   * afterwards entry n holds Category(n) and Bitcode(n) for every n in
   * -32767..32767 other than 0, whose entry stays zero.
   */
  method SetNumbersCategoryAndBitcode() returns (category: array<int>, bitcode: array<Bitstring>)
    ensures category.Length == 65535 && bitcode.Length == 65535
    ensures forall n :: -32767 <= n <= 32767 && n != 0 ==>
      category[n + Offset] == Category(n) && bitcode[n + Offset] == Bitcode(n)
    ensures category[Offset] == 0 && bitcode[Offset] == Bitstring(0, 0)
  {
    category := new int[65535](_ => 0);
    bitcode := new Bitstring[65535](_ => Bitstring(0, 0));
    var nrlower, nrupper := 1, 2;
    var cat := 1;
    while cat <= 15
      invariant 1 <= cat <= 16 && nrlower == Pow2(cat - 1) && nrupper == 2 * nrlower
      invariant TablesAt(category, bitcode, nrlower, 0, 0, 0)
    {
      Pow2Values();
      Pow2Monotone(cat, 15);
      FillPositive(category, bitcode, cat, nrlower, nrupper);
      FillNegative(category, bitcode, cat, nrlower, nrupper);
      nrlower, nrupper := 2 * nrlower, 2 * nrupper;
      cat := cat + 1;
    }
    Pow2Values();
    forall n | -32767 <= n <= 32767 && n != 0
      ensures category[n + Offset] == Category(n) && bitcode[n + Offset] == Bitcode(n)
    {
      assert IsFilled(n + Offset - Offset, nrlower, 0, 0, 0);
    }
    assert !IsFilled(Offset - Offset, nrlower, 0, 0, 0);
  }

  /** The positive numbers of category cat: nrlower <= nr < nrupper. */
  method FillPositive(category: array<int>, bitcode: array<Bitstring>, cat: nat, nrlower: int, nrupper: int)
    requires category.Length == 65535 && bitcode.Length == 65535 && category != bitcode as object
    requires 1 <= cat && nrlower == Pow2(cat - 1) && nrupper == 2 * nrlower <= 32768
    requires TablesAt(category, bitcode, nrlower, 0, 0, 0)
    modifies category, bitcode
    ensures TablesAt(category, bitcode, nrlower, nrupper, 0, 0)
  {
    var nr := nrlower;
    while nr < nrupper
      invariant nrlower <= nr <= nrupper
      invariant TablesAt(category, bitcode, nrlower, nr, 0, 0)
    {
      MagnitudeUnique(nr, cat);
      category[nr + Offset] := cat;
      bitcode[nr + Offset] := Bitstring(cat, nr);
      nr := nr + 1;
    }
  }

  /** The negative numbers of category cat: -(nrupper - 1) <= nr <= -nrlower. */
  method FillNegative(category: array<int>, bitcode: array<Bitstring>, cat: nat, nrlower: int, nrupper: int)
    requires category.Length == 65535 && bitcode.Length == 65535 && category != bitcode as object
    requires 1 <= cat && nrlower == Pow2(cat - 1) && nrupper == 2 * nrlower <= 32768
    requires TablesAt(category, bitcode, nrlower, nrupper, 0, 0)
    modifies category, bitcode
    ensures TablesAt(category, bitcode, nrupper, 0, 0, 0)
  {
    var nr := -(nrupper - 1);
    while nr <= -nrlower
      invariant -(nrupper - 1) <= nr <= -nrlower + 1
      invariant TablesAt(category, bitcode, nrlower, nrupper, -(nrupper - 1), nr)
    {
      MagnitudeUnique(-nr, cat);
      category[nr + Offset] := cat;
      bitcode[nr + Offset] := Bitstring(cat, nrupper - 1 + nr);
      nr := nr + 1;
    }
    forall n: int
      ensures IsFilled(n, nrlower, nrupper, -(nrupper - 1), nr) == IsFilled(n, nrupper, 0, 0, 0)
    {
    }
  }
}
