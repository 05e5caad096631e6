/**
 * Canonical Huffman codes (Annex C of ITU-T T.81) as both halves of the
 * program build them from a DHT histogram: bits[l] codes of length l for
 * l = 1..16 (bits[0] is unused), taken in order of increasing length.
 *
 * Two descriptions of the same codes live here: the per-level one the
 * encoder's compute_Huffman_table follows (FirstCode, LevelCode), and the
 * per-entry one the decoder's GenHuffCodes follows (Code). CodeByLevel
 * proves them equal; LookupCanonical proves the decoder's search finds each
 * code exactly at its own length.
 */
module Huffman {
  import opened Common
  import opened Bits

  /** A histogram: 17 byte-sized counts, index 0 unused. */
  predicate IsHistogram(bits: seq<int>)
  {
    |bits| == 17 && forall l :: 0 <= l < 17 ==> 0 <= bits[l] < 256
  }

  /** The number of codes shorter than l. */
  function CountBelow(bits: seq<int>, l: nat): nat
    requires IsHistogram(bits) && 1 <= l <= 17
    decreases l, bits
  {
    if l == 1 then 0 else CountBelow(bits, l - 1) + bits[l - 1]
  }

  /** BuildHuffmanTable's numBlocks: the number of codes. */
  function Total(bits: seq<int>): nat
    requires IsHistogram(bits)
  {
    CountBelow(bits, 17)
  }

  /** The length of code number p, searching from length l upwards. */
  function LevelOf(bits: seq<int>, p: int, l: nat): (r: nat)
    requires IsHistogram(bits) && 1 <= l <= 16
    ensures l <= r <= 16
    decreases 16 - l, p
  {
    if l == 16 || p < CountBelow(bits, l + 1) then l else LevelOf(bits, p, l + 1)
  }

  /** The code lengths in table order: bits[1] ones, then bits[2] twos, and so on. */
  function Lengths(bits: seq<int>): (r: seq<int>)
    requires IsHistogram(bits)
    ensures |r| == Total(bits)
  {
    seq(Total(bits), p => LevelOf(bits, p, 1))
  }

  /** The first code of length l: the running code after the shorter ones, shifted once per level. */
  function FirstCode(bits: seq<int>, l: nat): nat
    requires IsHistogram(bits) && 1 <= l <= 17
  {
    if l == 1 then 0 else (FirstCode(bits, l - 1) + bits[l - 1]) * 2
  }

  /**
   * Every length's codes fit in that many bits (the Kraft inequality for this
   * construction), checked from length l up to 16.
   */
  predicate Fits(bits: seq<int>, l: nat := 1)
    requires IsHistogram(bits) && 1 <= l
    decreases 17 - l, bits
  {
    l > 16 || (FirstCode(bits, l) + bits[l] <= Pow2(l) && Fits(bits, l + 1))
  }

  lemma {:induction false} FitsAt(bits: seq<int>, k: nat, l: nat)
    requires IsHistogram(bits) && 1 <= k <= l <= 16 && Fits(bits, k)
    ensures FirstCode(bits, l) + bits[l] <= Pow2(l)
    decreases l - k
  {
    if k < l {
      FitsAt(bits, k + 1, l);
    }
  }

  /** The code of entry p, level by level: consecutive integers from the level's first code. */
  function LevelCode(bits: seq<int>, p: nat): nat
    requires IsHistogram(bits) && p < Total(bits)
  {
    var l := LevelOf(bits, p, 1);
    LevelLower(bits, p, 1);
    FirstCode(bits, l) + (p - CountBelow(bits, l))
  }

  /** How many times GenHuffCodes doubles the running code before an entry of length len. */
  function Widen(lc: int, len: int): nat
  {
    if len > lc then len - lc else 0
  }

  /** GenHuffCodes' lc when it reaches entry cc. */
  function Lc(lens: seq<int>, cc: nat): int
    requires cc <= |lens|
  {
    if cc == 0 then 1 else var prev := Lc(lens, cc - 1); if lens[cc - 1] > prev then lens[cc - 1] else prev
  }

  /** GenHuffCodes' code for entry cc, before truncation to 16 bits. */
  function Code(lens: seq<int>, cc: nat): nat
    requires cc < |lens|
  {
    var hc := if cc == 0 then 0 else Code(lens, cc - 1) + 1;
    Shl(hc, Widen(Lc(lens, cc), lens[cc]))
  }

  // ---------------------------------------------------------------------
  // Levels

  lemma {:induction false} CountBelowMonotone(bits: seq<int>, a: nat, b: nat)
    requires IsHistogram(bits) && 1 <= a <= b <= 17
    ensures CountBelow(bits, a) <= CountBelow(bits, b)
  {
    if a < b {
      CountBelowMonotone(bits, a, b - 1);
    }
  }

  /** LevelOf never answers below the level p lives in. */
  lemma {:induction false} LevelLower(bits: seq<int>, p: nat, l: nat)
    requires IsHistogram(bits) && 1 <= l <= 16 && p < Total(bits)
    ensures CountBelow(bits, LevelOf(bits, p, l)) <= p || CountBelow(bits, l) > p
    ensures p < CountBelow(bits, LevelOf(bits, p, l) + 1)
    decreases 16 - l
  {
    if l < 16 && p >= CountBelow(bits, l + 1) {
      LevelLower(bits, p, l + 1);
    }
  }

  /** Entry p has length l exactly when it lies among the entries of length l. */
  lemma {:induction false} LevelOfAt(bits: seq<int>, p: nat, k: nat, l: nat)
    requires IsHistogram(bits) && 1 <= k <= l <= 16
    requires CountBelow(bits, k) <= CountBelow(bits, l) <= p < CountBelow(bits, l + 1)
    ensures LevelOf(bits, p, k) == l
    decreases l - k
  {
    if k < l {
      CountBelowMonotone(bits, k + 1, l);
      LevelOfAt(bits, p, k + 1, l);
    }
  }

  /** The level of every entry, and where it sits inside that level. */
  lemma LevelBounds(bits: seq<int>, p: nat)
    requires IsHistogram(bits) && p < Total(bits)
    ensures 1 <= Lengths(bits)[p] <= 16
    ensures CountBelow(bits, Lengths(bits)[p]) <= p < CountBelow(bits, Lengths(bits)[p] + 1)
  {
    LevelLower(bits, p, 1);
  }

  /** Lengths are nondecreasing along the table. */
  lemma LengthsSorted(bits: seq<int>, p: nat, q: nat)
    requires IsHistogram(bits) && p <= q < Total(bits)
    ensures Lengths(bits)[p] <= Lengths(bits)[q]
  {
    LevelBounds(bits, p);
    LevelBounds(bits, q);
    var lp, lq := Lengths(bits)[p], Lengths(bits)[q];
    if lq < lp {
      CountBelowMonotone(bits, lq + 1, lp);
    }
  }

  /** Exactly bits[l] entries have length l. */
  lemma LengthsCount(bits: seq<int>, l: nat, p: nat)
    requires IsHistogram(bits) && 1 <= l <= 16 && p < Total(bits)
    ensures Lengths(bits)[p] == l <==> CountBelow(bits, l) <= p < CountBelow(bits, l) + bits[l]
  {
    LevelBounds(bits, p);
    if CountBelow(bits, l) <= p < CountBelow(bits, l + 1) {
      LevelOfAt(bits, p, 1, l);
    }
  }

  /** Levels with no codes only double the running code. */
  lemma {:induction false} EmptyLevels(bits: seq<int>, a: nat, b: nat)
    requires IsHistogram(bits) && 1 <= a <= b <= 17 && CountBelow(bits, a) == CountBelow(bits, b)
    ensures FirstCode(bits, b) == Shl(FirstCode(bits, a), b - a)
  {
    if a < b {
      CountBelowMonotone(bits, a, b - 1);
      EmptyLevels(bits, a, b - 1);
    }
  }

  /** A longer level's first code, cut down to a shorter length, is past all the shorter codes. */
  lemma {:induction false} FirstCodeGrowth(bits: seq<int>, k: nat, l: nat)
    requires IsHistogram(bits) && 1 <= k < l <= 17
    ensures FirstCode(bits, l) >= Shl(FirstCode(bits, k) + bits[k], l - k)
  {
    var a := FirstCode(bits, k) + bits[k];
    if l > k + 1 {
      FirstCodeGrowth(bits, k, l - 1);
    }
  }

  /** Under Fits, code p has at most its length in bits. */
  lemma CodeFits(bits: seq<int>, p: nat)
    requires IsHistogram(bits) && Fits(bits) && p < Total(bits)
    ensures LevelCode(bits, p) < Pow2(Lengths(bits)[p])
  {
    LevelBounds(bits, p);
    FitsAt(bits, 1, Lengths(bits)[p]);
  }

  // ---------------------------------------------------------------------
  // GenHuffCodes agrees with the level-by-level construction

  /**
   * GenHuffCodes' code for each entry is the level-by-level code, and its lc
   * after the entry is that entry's length.
   */
  lemma {:induction false} CodeByLevel(bits: seq<int>, p: nat)
    requires IsHistogram(bits) && p < Total(bits)
    ensures Code(Lengths(bits), p) == LevelCode(bits, p)
    ensures Lc(Lengths(bits), p + 1) == Lengths(bits)[p]
  {
    if p == 0 {
      FirstEntry(bits);
    } else {
      CodeByLevel(bits, p - 1);
      NextEntry(bits, p);
    }
  }

  /** The first entry gets code 0, at the shortest length in use. */
  lemma FirstEntry(bits: seq<int>)
    requires IsHistogram(bits) && 0 < Total(bits)
    ensures Code(Lengths(bits), 0) == LevelCode(bits, 0)
    ensures Lc(Lengths(bits), 1) == Lengths(bits)[0]
  {
    var lens := Lengths(bits);
    LevelBounds(bits, 0);
    var l := lens[0];
    CountBelowMonotone(bits, 1, l);
    EmptyLevels(bits, 1, l);
    assert Code(lens, 0) == Shl(0, l - 1);
  }

  /** One step of GenHuffCodes' loop keeps it in line with the level-by-level codes. */
  lemma NextEntry(bits: seq<int>, p: nat)
    requires IsHistogram(bits) && 0 < p < Total(bits)
    requires Code(Lengths(bits), p - 1) == LevelCode(bits, p - 1)
    requires Lc(Lengths(bits), p) == Lengths(bits)[p - 1]
    ensures Code(Lengths(bits), p) == LevelCode(bits, p)
    ensures Lc(Lengths(bits), p + 1) == Lengths(bits)[p]
  {
    LengthsSorted(bits, p - 1, p);
    if Lengths(bits)[p - 1] == Lengths(bits)[p] {
      SameLevel(bits, p);
    } else {
      NewLevel(bits, p);
    }
  }

  /** Within a level the codes are consecutive. */
  lemma SameLevel(bits: seq<int>, p: nat)
    requires IsHistogram(bits) && 0 < p < Total(bits)
    requires Lengths(bits)[p] == Lengths(bits)[p - 1]
    ensures LevelCode(bits, p) == LevelCode(bits, p - 1) + 1
  {
  }

  /** An entry longer than its predecessor is the first of its level. */
  lemma LevelStart(bits: seq<int>, p: nat)
    requires IsHistogram(bits) && 0 < p < Total(bits)
    requires Lengths(bits)[p - 1] < Lengths(bits)[p]
    ensures 1 <= Lengths(bits)[p - 1] < Lengths(bits)[p] <= 16
    ensures CountBelow(bits, Lengths(bits)[p - 1]) <= p - 1
    ensures CountBelow(bits, Lengths(bits)[p - 1] + 1) == p == CountBelow(bits, Lengths(bits)[p])
  {
    var l0, l := Lengths(bits)[p - 1], Lengths(bits)[p];
    LevelBounds(bits, p);
    LevelBounds(bits, p - 1);
    CountBelowMonotone(bits, l0 + 1, l);
  }

  /** The first entry of a longer length continues from the last shorter code, widened. */
  lemma NewLevel(bits: seq<int>, p: nat)
    requires IsHistogram(bits) && 0 < p < Total(bits)
    requires Lengths(bits)[p - 1] < Lengths(bits)[p]
    ensures LevelCode(bits, p) == Shl(LevelCode(bits, p - 1) + 1, Lengths(bits)[p] - Lengths(bits)[p - 1])
  {
    LevelStart(bits, p);
    LevelCodeAt(bits, p - 1);
    LevelCodeAt(bits, p);
    NewLevelCode(bits, Lengths(bits)[p - 1], Lengths(bits)[p], p, LevelCode(bits, p - 1), LevelCode(bits, p));
  }

  /** Code p is its level's first code plus its place in the level. */
  lemma LevelCodeAt(bits: seq<int>, p: nat)
    requires IsHistogram(bits) && p < Total(bits)
    ensures 1 <= Lengths(bits)[p] <= 16 && CountBelow(bits, Lengths(bits)[p]) <= p
    ensures LevelCode(bits, p) == FirstCode(bits, Lengths(bits)[p]) + (p - CountBelow(bits, Lengths(bits)[p]))
  {
    LevelBounds(bits, p);
  }

  /**
   * The first code of level l, when the levels between l0 and l are empty, is
   * the code after the last one of level l0 (entry p - 1), widened.
   */
  lemma NewLevelCode(bits: seq<int>, l0: nat, l: nat, p: nat, last: nat, first: nat)
    requires IsHistogram(bits) && 1 <= l0 < l <= 16
    requires CountBelow(bits, l0) <= p - 1 && CountBelow(bits, l0 + 1) == p == CountBelow(bits, l)
    requires last == FirstCode(bits, l0) + (p - 1 - CountBelow(bits, l0))
    requires first == FirstCode(bits, l) + (p - CountBelow(bits, l))
    ensures first == Shl(last + 1, l - l0)
  {
    EmptyLevels(bits, l0 + 1, l);
    ShlDouble(FirstCode(bits, l0) + bits[l0], l - l0 - 1);
  }

  // ---------------------------------------------------------------------
  // Prefix freedom

  /**
   * No code is a prefix of a longer one: the first k bits of a code of length
   * l > k spell a number beyond every code of length k.
   */
  lemma PrefixFree(bits: seq<int>, p: nat, q: nat)
    requires IsHistogram(bits) && p < Total(bits) && q < Total(bits)
    requires Lengths(bits)[q] < Lengths(bits)[p]
    ensures Shr(LevelCode(bits, p), Lengths(bits)[p] - Lengths(bits)[q]) > LevelCode(bits, q)
  {
    LevelBounds(bits, p);
    LevelBounds(bits, q);
    var k, l := Lengths(bits)[q], Lengths(bits)[p];
    FirstCodeGrowth(bits, k, l);
    ShrAtLeast(LevelCode(bits, p), FirstCode(bits, k) + bits[k], l - k);
  }

  /** Codes of one length are distinct. */
  lemma SameLengthDistinct(bits: seq<int>, p: nat, q: nat)
    requires IsHistogram(bits) && p < Total(bits) && q < Total(bits)
    requires Lengths(bits)[q] == Lengths(bits)[p] && LevelCode(bits, p) == LevelCode(bits, q)
    ensures p == q
  {
    LevelBounds(bits, p);
    LevelBounds(bits, q);
  }

  // ---------------------------------------------------------------------
  // The decoder's table and its search

  /** stBlock: the value a code decodes to, the code's length and the code itself (a uint16_t). */
  datatype Block = Block(value: int, length: int, code: int)

  /** m_blocks[0..m_numBlocks) as BuildHuffmanTable and GenHuffCodes leave it. */
  function CanonicalBlocks(bits: seq<int>, vals: seq<int>): (r: seq<Block>)
    requires IsHistogram(bits) && Total(bits) <= |vals|
    ensures |r| == Total(bits)
  {
    seq(Total(bits), p requires 0 <= p < Total(bits) =>
      Block(vals[p], Lengths(bits)[p], Code(Lengths(bits), p) % 65536))
  }

  predicate Matches(b: Block, code: int, len: int)
  {
    b.code == code && b.length == len
  }

  /** IsInHuffmanCodes: the value of the first block with this code and this length. */
  function Lookup(blocks: seq<Block>, code: int, len: int): (r: Option<int>)
  {
    if blocks == [] then None
    else if Matches(blocks[0], code, len) then Some(blocks[0].value)
    else Lookup(blocks[1..], code, len)
  }

  /** The search finds nothing exactly when no block matches, and otherwise a matching block's value. */
  lemma {:induction false} LookupSpec(blocks: seq<Block>, code: int, len: int)
    ensures Lookup(blocks, code, len).None? <==> forall j :: 0 <= j < |blocks| ==> !Matches(blocks[j], code, len)
    ensures Lookup(blocks, code, len).Some? ==>
      exists j :: 0 <= j < |blocks| && Matches(blocks[j], code, len) && blocks[j].value == Lookup(blocks, code, len).value
  {
    if blocks != [] && !Matches(blocks[0], code, len) {
      LookupSpec(blocks[1..], code, len);
      assert forall j :: 1 <= j < |blocks| ==> blocks[j] == blocks[1..][j - 1];
      if Lookup(blocks, code, len).Some? {
        var j :| 0 <= j < |blocks[1..]| && Matches(blocks[1..][j], code, len) && blocks[1..][j].value == Lookup(blocks, code, len).value;
        assert blocks[j + 1] == blocks[1..][j];
      }
    }
  }

  /** When exactly one block matches, the search returns its value. */
  lemma LookupUnique(blocks: seq<Block>, code: int, len: int, p: nat)
    requires p < |blocks| && Matches(blocks[p], code, len)
    requires forall j :: 0 <= j < |blocks| && Matches(blocks[j], code, len) ==> j == p
    ensures Lookup(blocks, code, len) == Some(blocks[p].value)
  {
    LookupSpec(blocks, code, len);
  }

  /**
   * The decoder's search for the next code: for k = from, from + 1, .., maxLen
   * look at the next k bits and stop at the first length with a matching block.
   * Fewer than k bits left is Truncated (the C reservoir would read past the
   * buffer); no match up to maxLen is Ok(None). Otherwise the value and the length.
   */
  function FindCode(blocks: seq<Block>, s: seq<bool>, from: nat, maxLen: nat): (r: Result<Option<(int, nat)>, Fault>)
    requires from >= 1
    ensures r.Ok? && r.value.Some? ==> from <= r.value.value.1 <= maxLen && r.value.value.1 <= |s|
    decreases maxLen + 1 - from, s
  {
    if from > maxLen then Ok(None)
    else if |s| < from then Err(Truncated)
    else match Lookup(blocks, FromBits(s[..from]), from)
      case Some(v) => Ok(Some((v, from)))
      case None => FindCode(blocks, s, from + 1, maxLen)
  }

  /**
   * What the search promises: a value found at length k is the first match,
   * with no match at any shorter length; no value found means no match at any
   * length up to maxLen; and it fails only when the bits ran out first.
   */
  lemma {:induction false} FindCodeSound(blocks: seq<Block>, s: seq<bool>, from: nat, maxLen: nat)
    requires from >= 1
    ensures var r := FindCode(blocks, s, from, maxLen);
      r.Ok? && r.value.Some? ==> (var (v, k) := r.value.value;
        from <= k <= maxLen && k <= |s| && Lookup(blocks, FromBits(s[..k]), k) == Some(v) &&
        forall j {:trigger Lookup(blocks, FromBits(s[..j]), j)} :: from <= j < k ==> Lookup(blocks, FromBits(s[..j]), j).None?)
    ensures var r := FindCode(blocks, s, from, maxLen);
      r.Ok? && r.value.None? ==> ((maxLen < from || maxLen <= |s|) &&
        forall j {:trigger Lookup(blocks, FromBits(s[..j]), j)} :: from <= j <= maxLen ==> Lookup(blocks, FromBits(s[..j]), j).None?)
    ensures FindCode(blocks, s, from, maxLen).Err? ==> |s| < maxLen
    decreases maxLen + 1 - from
  {
    if from <= maxLen && |s| >= from && Lookup(blocks, FromBits(s[..from]), from).None? {
      FindCodeSound(blocks, s, from + 1, maxLen);
    }
  }

  /**
   * The first k bits of a code of length l, looked up at length k, match
   * nothing before k reaches l and then match exactly that code's entry.
   */
  lemma LookupCanonical(bits: seq<int>, vals: seq<int>, p: nat, k: nat)
    requires IsHistogram(bits) && Fits(bits) && Total(bits) <= |vals| && p < Total(bits)
    requires 1 <= k <= Lengths(bits)[p]
    ensures Lookup(CanonicalBlocks(bits, vals), Shr(LevelCode(bits, p), Lengths(bits)[p] - k), k)
         == if k == Lengths(bits)[p] then Some(vals[p]) else None
  {
    var blocks := CanonicalBlocks(bits, vals);
    var c, l := LevelCode(bits, p), Lengths(bits)[p];
    var key := Shr(c, l - k);
    forall j | 0 <= j < |blocks| && Matches(blocks[j], key, k)
      ensures k == l && j == p
    {
      OnlyMatch(bits, vals, p, k, j);
    }
    if k == l {
      StoredCode(bits, p);
      LookupUnique(blocks, key, k, p);
    } else {
      LookupSpec(blocks, key, k);
    }
  }

  /** The one entry a code prefix can match is the code's own. */
  lemma OnlyMatch(bits: seq<int>, vals: seq<int>, p: nat, k: nat, j: nat)
    requires IsHistogram(bits) && Fits(bits) && Total(bits) <= |vals| && p < Total(bits)
    requires 1 <= k <= Lengths(bits)[p] && j < Total(bits)
    requires Matches(CanonicalBlocks(bits, vals)[j], Shr(LevelCode(bits, p), Lengths(bits)[p] - k), k)
    ensures k == Lengths(bits)[p] && j == p
  {
    BlockAt(bits, vals, j);
    OnlyPrefix(bits, p, k, j);
  }

  /** The first k bits of code p are a code of length k only when they are all of code p. */
  lemma OnlyPrefix(bits: seq<int>, p: nat, k: nat, j: nat)
    requires IsHistogram(bits) && p < Total(bits) && j < Total(bits)
    requires 1 <= k <= Lengths(bits)[p]
    requires Lengths(bits)[j] == k && LevelCode(bits, j) == Shr(LevelCode(bits, p), Lengths(bits)[p] - k)
    ensures k == Lengths(bits)[p] && j == p
  {
    var c, l := LevelCode(bits, p), Lengths(bits)[p];
    if k < l {
      PrefixFree(bits, p, j);
    } else {
      assert Shr(c, 0) == c;
      SameLengthDistinct(bits, p, j);
    }
  }

  /** Entry j of the table: its length, and its stored code is the level-by-level code. */
  lemma BlockAt(bits: seq<int>, vals: seq<int>, j: nat)
    requires IsHistogram(bits) && Fits(bits) && Total(bits) <= |vals| && j < Total(bits)
    ensures CanonicalBlocks(bits, vals)[j].length == Lengths(bits)[j]
    ensures CanonicalBlocks(bits, vals)[j].code == LevelCode(bits, j)
  {
    StoredCode(bits, j);
  }

  /** The 16-bit code GenHuffCodes stores is the level-by-level code, which fits its length. */
  lemma StoredCode(bits: seq<int>, p: nat)
    requires IsHistogram(bits) && Fits(bits) && p < Total(bits)
    ensures Code(Lengths(bits), p) % 65536 == LevelCode(bits, p) < Pow2(Lengths(bits)[p])
  {
    CodeByLevel(bits, p);
    CodeFits(bits, p);
    LevelBounds(bits, p);
    Pow2Monotone(Lengths(bits)[p], 16);
    Pow2Values();
    ModBelow(LevelCode(bits, p), 65536);
  }

  lemma ModBelow(x: nat, m: nat)
    requires x < m
    ensures x % m == x
  {
  }

  /** Reading a code of the table followed by anything finds that code's value at its length. */
  lemma FindCanonical(bits: seq<int>, vals: seq<int>, p: nat, rest: seq<bool>, maxLen: nat)
    requires IsHistogram(bits) && Fits(bits) && Total(bits) <= |vals| && p < Total(bits)
    requires Lengths(bits)[p] <= maxLen
    ensures FindCode(CanonicalBlocks(bits, vals), ToBits(LevelCode(bits, p), Lengths(bits)[p]) + rest, 1, maxLen)
         == Ok(Some((vals[p], Lengths(bits)[p])))
  {
    LevelBounds(bits, p);
    FindCanonicalFrom(bits, vals, p, rest, maxLen, 1);
  }

  lemma {:induction false} FindCanonicalFrom(bits: seq<int>, vals: seq<int>, p: nat, rest: seq<bool>, maxLen: nat, k: nat)
    requires IsHistogram(bits) && Fits(bits) && Total(bits) <= |vals| && p < Total(bits)
    requires 1 <= k <= Lengths(bits)[p] <= maxLen
    ensures FindCode(CanonicalBlocks(bits, vals), ToBits(LevelCode(bits, p), Lengths(bits)[p]) + rest, k, maxLen)
         == Ok(Some((vals[p], Lengths(bits)[p])))
    decreases Lengths(bits)[p] - k
  {
    var c, l := LevelCode(bits, p), Lengths(bits)[p];
    var w := ToBits(c, l) + rest;
    StoredCode(bits, p);
    TopBits(c, l, k);
    assert w[..k] == ToBits(c, l)[..k];
    LookupCanonical(bits, vals, p, k);
    if k < l {
      FindCanonicalFrom(bits, vals, p, rest, maxLen, k + 1);
    }
  }
}
