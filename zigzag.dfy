/**
 * Moving a block between natural order and the zig-zag order it is coded in.
 * The encoder scatters its quantised coefficients with DU[zigzag[i]] =
 * DU_DCT[i] (process_DU); the decoder gathers them back with out[i] =
 * in[ZigZagArray[i]] (DeZigZag). Both use the one table ZigZag(), a
 * permutation of the 64 positions of a block.
 */
module ZigZagOrder {
  // ---------------------------------------------------------------------
  // The table

  /** Entry i of ZigZagArray (jpeg-load.c) and of zigzag (jpeg-save.c), which are the same table. */
  function ZigZagAt(i: int): (r: int)
    ensures 0 <= r < 64
  {
    match i
      case 0 => 0 case 1 => 1 case 2 => 5 case 3 => 6 case 4 => 14 case 5 => 15 case 6 => 27 case 7 => 28
      case 8 => 2 case 9 => 4 case 10 => 7 case 11 => 13 case 12 => 16 case 13 => 26 case 14 => 29 case 15 => 42
      case 16 => 3 case 17 => 8 case 18 => 12 case 19 => 17 case 20 => 25 case 21 => 30 case 22 => 41 case 23 => 43
      case 24 => 9 case 25 => 11 case 26 => 18 case 27 => 24 case 28 => 31 case 29 => 40 case 30 => 44 case 31 => 53
      case 32 => 10 case 33 => 19 case 34 => 23 case 35 => 32 case 36 => 39 case 37 => 45 case 38 => 52 case 39 => 54
      case 40 => 20 case 41 => 22 case 42 => 33 case 43 => 38 case 44 => 46 case 45 => 51 case 46 => 55 case 47 => 60
      case 48 => 21 case 49 => 34 case 50 => 37 case 51 => 47 case 52 => 50 case 53 => 56 case 54 => 59 case 55 => 61
      case 56 => 35 case 57 => 36 case 58 => 48 case 59 => 49 case 60 => 57 case 61 => 58 case 62 => 62
      case _ => 63
  }

  function ZigZag(): seq<int> { seq(64, ZigZagAt) }

  /** The inverse order: the position whose zig-zag index is i. */
  function UnZigZagAt(i: int): (r: int)
    ensures 0 <= r < 64
  {
    match i
      case 0 => 0 case 1 => 1 case 2 => 8 case 3 => 16 case 4 => 9 case 5 => 2 case 6 => 3 case 7 => 10
      case 8 => 17 case 9 => 24 case 10 => 32 case 11 => 25 case 12 => 18 case 13 => 11 case 14 => 4 case 15 => 5
      case 16 => 12 case 17 => 19 case 18 => 26 case 19 => 33 case 20 => 40 case 21 => 48 case 22 => 41 case 23 => 34
      case 24 => 27 case 25 => 20 case 26 => 13 case 27 => 6 case 28 => 7 case 29 => 14 case 30 => 21 case 31 => 28
      case 32 => 35 case 33 => 42 case 34 => 49 case 35 => 56 case 36 => 57 case 37 => 50 case 38 => 43 case 39 => 36
      case 40 => 29 case 41 => 22 case 42 => 15 case 43 => 23 case 44 => 30 case 45 => 37 case 46 => 44 case 47 => 51
      case 48 => 58 case 49 => 59 case 50 => 52 case 51 => 45 case 52 => 38 case 53 => 31 case 54 => 39 case 55 => 46
      case 56 => 53 case 57 => 60 case 58 => 61 case 59 => 54 case 60 => 47 case 61 => 55 case 62 => 62
      case _ => 63
  }

  function UnZigZag(): seq<int> { seq(64, UnZigZagAt) }

  /** A permutation of 0..63. */
  predicate IsPermutation(t: seq<int>)
  {
    && |t| == 64
    && (forall i :: 0 <= i < 64 ==> 0 <= t[i] < 64)
    && (forall i, j :: 0 <= i < 64 && 0 <= j < 64 && t[i] == t[j] ==> i == j)
  }

  /** UnZigZag undoes ZigZag. */
  lemma ZigZagInverse()
    ensures |ZigZag()| == 64 && |UnZigZag()| == 64
    ensures forall i :: 0 <= i < 64 ==> 0 <= ZigZag()[i] < 64 && UnZigZag()[ZigZag()[i]] == i
  {
  }

  /** And ZigZag undoes UnZigZag. */
  lemma UnZigZagInverse()
    ensures |ZigZag()| == 64 && |UnZigZag()| == 64
    ensures forall k :: 0 <= k < 64 ==> 0 <= UnZigZag()[k] < 64 && ZigZag()[UnZigZag()[k]] == k
  {
  }

  /** A table with a left inverse on 0..63 is a permutation of 0..63. */
  lemma InverseGivesPermutation(t: seq<int>, u: seq<int>)
    requires |t| == 64 && |u| == 64
    requires forall i :: 0 <= i < 64 ==> 0 <= t[i] < 64 && u[t[i]] == i
    ensures IsPermutation(t)
  {
    forall i, j | 0 <= i < 64 && 0 <= j < 64 && t[i] == t[j]
      ensures i == j
    {
      assert u[t[i]] == i && u[t[j]] == j;
    }
  }

  /** The zig-zag order is a permutation of the 64 positions of a block, and so is its inverse. */
  lemma ZigZagIsPermutation()
    ensures IsPermutation(ZigZag()) && IsPermutation(UnZigZag())
  {
    ZigZagInverse();
    UnZigZagInverse();
    InverseGivesPermutation(ZigZag(), UnZigZag());
    InverseGivesPermutation(UnZigZag(), ZigZag());
  }


  // ---------------------------------------------------------------------
  // Scatter and gather

  /** Entries k.. of the coded block the scatter produces from x. */
  function ScatteredFrom(x: seq<int>, k: nat): (r: seq<int>)
    requires |x| == 64 && k <= 64
    ensures |r| == 64 - k
    decreases 64 - k, x
  {
    if k == 64 then [] else [x[UnZigZag()[k]]] + ScatteredFrom(x, k + 1)
  }

  /** The coded block the scatter produces from x: entry zigzag[i] is x[i]. */
  function Scattered(x: seq<int>): (r: seq<int>)
    requires |x| == 64
    ensures |r| == 64
  {
    ScatteredFrom(x, 0)
  }

  /** Entries i.. of DeZigZag's result on the coded block y. */
  function GatheredFrom(y: seq<int>, i: nat): (r: seq<int>)
    requires |y| == 64 && i <= 64
    ensures |r| == 64 - i
    decreases 64 - i, y
  {
    if i == 64 then [] else [y[ZigZag()[i]]] + GatheredFrom(y, i + 1)
  }

  /** DeZigZag's result: entry i is entry zigzag[i] of the coded block y. */
  function Gathered(y: seq<int>): (r: seq<int>)
    requires |y| == 64
    ensures |r| == 64
  {
    GatheredFrom(y, 0)
  }

  lemma {:induction false} ScatteredFromAt(x: seq<int>, k: nat, i: int)
    requires |x| == 64 && k <= i < 64
    ensures ScatteredFrom(x, k)[i - k] == x[UnZigZag()[i]]
    decreases i - k
  {
    if i > k {
      ScatteredFromAt(x, k + 1, i);
    }
  }

  lemma {:induction false} GatheredFromAt(y: seq<int>, k: nat, i: int)
    requires |y| == 64 && k <= i < 64
    ensures GatheredFrom(y, k)[i - k] == y[ZigZag()[i]]
    decreases i - k
  {
    if i > k {
      GatheredFromAt(y, k + 1, i);
    }
  }

  /** Reordering moves values without changing them: entry k of the coded block is entry unzigzag[k] of the input. */
  lemma ScatteredEntries(x: seq<int>, k: int)
    requires |x| == 64 && 0 <= k < 64
    ensures 0 <= UnZigZag()[k] < 64 && Scattered(x)[k] == x[UnZigZag()[k]]
  {
    ScatteredFromAt(x, 0, k);
  }

  /** Entry i of DeZigZag's result is entry zigzag[i] of the coded block. */
  lemma GatheredEntries(y: seq<int>, i: int)
    requires |y| == 64 && 0 <= i < 64
    ensures 0 <= ZigZag()[i] < 64 && Gathered(y)[i] == y[ZigZag()[i]]
  {
    GatheredFromAt(y, 0, i);
  }

  /** The scatter puts x[i] at position zigzag[i]. */
  lemma ScatteredAt(x: seq<int>, i: int)
    requires |x| == 64 && 0 <= i < 64
    ensures 0 <= ZigZag()[i] < 64 && Scattered(x)[ZigZag()[i]] == x[i]
  {
    ZigZagInverse();
    ScatteredEntries(x, ZigZag()[i]);
  }

  /** DeZigZag undoes the encoder's scatter. */
  lemma GatherScattered(x: seq<int>)
    requires |x| == 64
    ensures Gathered(Scattered(x)) == x
  {
    forall i | 0 <= i < 64
      ensures Gathered(Scattered(x))[i] == x[i]
    {
      GatheredEntries(Scattered(x), i);
      ScatteredAt(x, i);
    }
  }

  /** Entry k of the scatter of DeZigZag's result is entry k of the coded block. */
  lemma ScatterGatheredAt(y: seq<int>, k: int)
    requires |y| == 64 && 0 <= k < 64
    ensures Scattered(Gathered(y))[k] == y[k]
  {
    ScatteredEntries(Gathered(y), k);
    UnZigZagInverse();
    var j := UnZigZag()[k];
    assert 0 <= j < 64 && ZigZag()[j] == k;
    GatheredEntries(y, j);
  }

  /** And the scatter undoes DeZigZag. */
  lemma ScatterGathered(y: seq<int>)
    requires |y| == 64
    ensures Scattered(Gathered(y)) == y
  {
    var s := Scattered(Gathered(y));
    forall k | 0 <= k < 64
      ensures s[k] == y[k]
    {
      ScatterGatheredAt(y, k);
    }
    assert |s| == |y|;
  }
}
