/**
 * The standard Huffman tables of Annex K.3 of ITU-T T.81 on both sides of
 * the codec. The encoder runs compute_Huffman_table on the four histograms
 * and symbol lists into its zero-initialised static tables (YDC_HT, CbDC_HT,
 * YAC_HT, CbAC_HT); the decoder builds its blocks from the same histograms
 * and symbol lists, read back from the DHT segment the encoder writes.
 *
 * The lemmas here discharge the table conditions of BlockRoundTrip for those
 * four pairs, so that StdBlockRoundTrip holds for every block the encoder can
 * code with them.
 */
module StdTables {
  import opened Common
  import opened Coding
  import opened Huffman
  import opened HuffmanBuild
  import opened Tables
  import opened BlockCode

  /** A zero-initialised static table of n bitstrings. */
  function ZeroTable(n: nat): (r: seq<Bitstring>)
    ensures |r| == n && forall s :: 0 <= s < n ==> r[s].length == 0
  {
    seq(n, _ => Bitstring(0, 0))
  }

  /** The symbols of an AC list, each at its rank: every list entry is an AC symbol and every AC symbol is listed. */
  ghost predicate RankedAc(vals: seq<int>, rank: int -> int)
  {
    |vals| == 162 &&
    (forall p :: 0 <= p < 162 ==> IsAcSymbol(vals[p]) && rank(vals[p]) == p) &&
    (forall s :: IsAcSymbol(s) ==> 0 <= rank(s) < 162 && vals[rank(s)] == s)
  }

  /** compute_Huffman_table on a zeroed 12-entry DC table. */
  function DcTable(bits: seq<int>): (r: seq<Bitstring>)
    requires IsHistogram(bits) && Total(bits) == 12
    ensures |r| == 12
  {
    Assigned(ZeroTable(12), bits, DcValues(), 12)
  }

  /** compute_Huffman_table on a zeroed 256-entry AC table. */
  function AcTable(bits: seq<int>, vals: seq<int>): (r: seq<Bitstring>)
    requires IsHistogram(bits) && Total(bits) == 162 && |vals| == 162
    requires forall p :: 0 <= p < 162 ==> 0 <= vals[p] < 256
    ensures |r| == 256
  {
    Assigned(ZeroTable(256), bits, vals, 162)
  }

  /**
   * A Kraft-valid DC histogram of the 12 categories with no code of 16 bits
   * gives every category a code of 1..15 bits, and the decoder's search (up
   * to 15 bits) reads each of them back.
   */
  lemma DcTables(bits: seq<int>)
    requires IsHistogram(bits) && Fits(bits) && Total(bits) == 12 && bits[16] == 0
    ensures DcCovered(DcTable(bits)) && Agree(DcTable(bits), CanonicalBlocks(bits, DcValues()), 15)
  {
    var ht := DcTable(bits);
    assert CountBelow(bits, 17) == CountBelow(bits, 16);
    assert DistinctOn(DcValues(), 12);
    forall c | 0 <= c < 12
      ensures 1 <= ht[c].length <= 15
    {
      assert DcValues()[c] == c;
      AssignedAt(ZeroTable(12), bits, DcValues(), 12, c);
      LevelBounds(bits, c);
    }
    TablesAgree(ZeroTable(12), bits, DcValues(), 15);
  }

  /**
   * A Kraft-valid AC histogram over a list holding each AC symbol once gives
   * every AC symbol a code of 1..16 bits, and the decoder's search reads each
   * of them back.
   */
  lemma AcTables(bits: seq<int>, vals: seq<int>, rank: int -> int)
    requires IsHistogram(bits) && Fits(bits) && Total(bits) == 162 && RankedAc(vals, rank)
    ensures forall p :: 0 <= p < 162 ==> 0 <= vals[p] < 256
    ensures AcCovered(AcTable(bits, vals)) && Agree(AcTable(bits, vals), CanonicalBlocks(bits, vals), 16)
  {
    assert DistinctOn(vals, 162) by {
      forall p, q | 0 <= p < q < 162
        ensures vals[p] != vals[q]
      {
        assert rank(vals[p]) == p && rank(vals[q]) == q;
      }
    }
    Coverage(ZeroTable(256), bits, vals);
    var ht := AcTable(bits, vals);
    forall s | 0 <= s < 256 && IsAcSymbol(s)
      ensures 1 <= ht[s].length <= 16
    {
      assert vals[rank(s)] == s;
    }
    TablesAgree(ZeroTable(256), bits, vals, 16);
  }

  /** The luminance (Y) DC table. */
  lemma LuminanceDc()
    ensures IsHistogram(DcLuminanceBits()) && Total(DcLuminanceBits()) == 12
    ensures DcCovered(DcTable(DcLuminanceBits())) && Agree(DcTable(DcLuminanceBits()), CanonicalBlocks(DcLuminanceBits(), DcValues()), 15)
  {
    DcLuminanceBitsTotal();
    DcLuminanceBitsFits();
    DcTables(DcLuminanceBits());
  }

  /** The luminance (Y) AC table. */
  lemma LuminanceAc()
    ensures IsHistogram(AcLuminanceBits()) && Total(AcLuminanceBits()) == 162
    ensures forall p :: 0 <= p < 162 ==> 0 <= AcLuminanceValues()[p] < 256
    ensures AcCovered(AcTable(AcLuminanceBits(), AcLuminanceValues()))
    ensures Agree(AcTable(AcLuminanceBits(), AcLuminanceValues()), CanonicalBlocks(AcLuminanceBits(), AcLuminanceValues()), 16)
  {
    AcLuminanceBitsTotal();
    AcLuminanceBitsFits();
    AcValuesRanked();
    AcLuminanceCovers();
    AcTables(AcLuminanceBits(), AcLuminanceValues(), AcLuminanceRank);
  }

  /** The chrominance (Cb and Cr) DC table. */
  lemma ChrominanceDc()
    ensures IsHistogram(DcChrominanceBits()) && Total(DcChrominanceBits()) == 12
    ensures DcCovered(DcTable(DcChrominanceBits())) && Agree(DcTable(DcChrominanceBits()), CanonicalBlocks(DcChrominanceBits(), DcValues()), 15)
  {
    DcChrominanceBitsTotal();
    DcChrominanceBitsFits();
    DcTables(DcChrominanceBits());
  }

  /** The chrominance (Cb and Cr) AC table. */
  lemma ChrominanceAc()
    ensures IsHistogram(AcChrominanceBits()) && Total(AcChrominanceBits()) == 162
    ensures forall p :: 0 <= p < 162 ==> 0 <= AcChrominanceValues()[p] < 256
    ensures AcCovered(AcTable(AcChrominanceBits(), AcChrominanceValues()))
    ensures Agree(AcTable(AcChrominanceBits(), AcChrominanceValues()), CanonicalBlocks(AcChrominanceBits(), AcChrominanceValues()), 16)
  {
    AcChrominanceBitsTotal();
    AcChrominanceBitsFits();
    AcValuesRanked();
    AcChrominanceCovers();
    AcTables(AcChrominanceBits(), AcChrominanceValues(), AcChrominanceRank);
  }

  /** The DC and AC histograms and symbol lists of one component class. */
  function DcBits(luminance: bool): seq<int>
  {
    if luminance then DcLuminanceBits() else DcChrominanceBits()
  }

  function AcBits(luminance: bool): seq<int>
  {
    if luminance then AcLuminanceBits() else AcChrominanceBits()
  }

  function AcValues(luminance: bool): seq<int>
  {
    if luminance then AcLuminanceValues() else AcChrominanceValues()
  }

  /** The encoder's tables for one component class. */
  function EncoderDc(luminance: bool): (r: seq<Bitstring>)
    ensures |r| == 12
  {
    DcLuminanceBitsTotal();
    DcChrominanceBitsTotal();
    DcTable(DcBits(luminance))
  }

  function EncoderAc(luminance: bool): (r: seq<Bitstring>)
    ensures |r| == 256
  {
    AcLuminanceBitsTotal();
    AcChrominanceBitsTotal();
    AcValuesRanked();
    AcTable(AcBits(luminance), AcValues(luminance))
  }

  /** The decoder's blocks for one component class. */
  function DecoderDc(luminance: bool): seq<Block>
  {
    LuminanceDc();
    ChrominanceDc();
    CanonicalBlocks(DcBits(luminance), DcValues())
  }

  function DecoderAc(luminance: bool): seq<Block>
  {
    LuminanceAc();
    ChrominanceAc();
    CanonicalBlocks(AcBits(luminance), AcValues(luminance))
  }

  /**
   * The round trip with the standard tables: every block process_DU codes
   * with the luminance or the chrominance tables, whatever follows it, is
   * decoded by ProcessHuffmanDataUnit with the matching tables back to the
   * same 64 coefficients and the same new predictor.
   */
  lemma StdBlockRoundTrip(du: seq<int>, pred: int, luminance: bool, rest: seq<bool>)
    requires IsBlock(du) && IsInt16(pred)
    requires forall k :: 1 <= k < 64 ==> Category(du[k]) <= 10
    requires EncodeBlock(du, pred, EncoderDc(luminance), EncoderAc(luminance)).Ok?
    ensures DecodeBlock(Flatten(EncodeBlock(du, pred, EncoderDc(luminance), EncoderAc(luminance)).value) + rest,
                        pred, DecoderDc(luminance), DecoderAc(luminance)) == Ok((du, du[0], rest))
  {
    LuminanceDc();
    LuminanceAc();
    ChrominanceDc();
    ChrominanceAc();
    BlockRoundTrip(du, pred, EncoderDc(luminance), EncoderAc(luminance), DecoderDc(luminance), DecoderAc(luminance), rest);
  }
}
