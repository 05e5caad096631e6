/**
 * Building the Huffman tables on both sides of the codec.
 *
 * The decoder's BuildHuffmanTable copies a DHT histogram into an
 * stHuffmanTable, gives its blocks their lengths level by level and lets
 * GenHuffCodes number them; the result is CanonicalBlocks. The encoder's
 * compute_Huffman_table writes each symbol's (code, length) into a table
 * indexed by the symbol. TablesAgree proves that for a Kraft-valid histogram
 * with distinct symbols every code the encoder writes is read back by the
 * decoder's search as the same symbol.
 */
module HuffmanBuild {
  import opened Common
  import opened Bits
  import opened Huffman
  import opened Coding

  /** stHuffmanTable: m_length[17], m_hufVal[257], m_numBlocks and m_blocks[1024]. */
  datatype HuffmanTable = HuffmanTable(length: seq<int>, hufVal: seq<int>, numBlocks: int, blocks: seq<Block>)

  predicate WellSized(t: HuffmanTable)
  {
    |t.length| == 17 && |t.hufVal| == 257 && |t.blocks| == 1024
  }

  /** A table of the zero-initialised decoder state: no codes at all. */
  function EmptyTable(): (t: HuffmanTable)
    ensures WellSized(t) && t.numBlocks == 0
  {
    HuffmanTable(seq(17, _ => 0), seq(257, _ => 0), 0, seq(1024, _ => Block(0, 0, 0)))
  }

  /** The lengths of a run of blocks, in order. */
  function LengthsOf(blocks: seq<Block>): (r: seq<int>)
    ensures |r| == |blocks| && forall j :: 0 <= j < |blocks| ==> r[j] == blocks[j].length
  {
    seq(|blocks|, j requires 0 <= j < |blocks| => blocks[j].length)
  }

  // ---------------------------------------------------------------------
  // Decoder: GenHuffCodes and BuildHuffmanTable

  /**
   * GenHuffCodes: number the first num blocks in order, doubling the running
   * code once for every length step, and store each code as a uint16_t with
   * its value from huffVal.
   */
  method GenHuffCodes(num: nat, blocks: seq<Block>, huffVal: seq<int>, ghost lens: seq<int>) returns (r: seq<Block>)
    requires num == |lens| && num <= |blocks| && num <= |huffVal|
    requires forall j :: 0 <= j < num ==> lens[j] == blocks[j].length
    ensures |r| == |blocks| && forall j :: num <= j < |blocks| ==> r[j] == blocks[j]
    ensures forall cc :: 0 <= cc < num ==> r[cc] == Block(huffVal[cc], lens[cc], Code(lens, cc) % 65536)
  {
    r := blocks;
    var cc, hc, lc := 0, 0, 1;
    while cc < num
      invariant cc <= num && |r| == |blocks|
      invariant Numbered(r, blocks, huffVal, lens, cc, hc, lc)
    {
      r, hc, lc := NumberOne(r, blocks, huffVal, lens, cc, hc, lc);
      cc := cc + 1;
    }
  }

  /** GenHuffCodes' state before entry cc: the entries before it numbered, the rest untouched. */
  ghost predicate Numbered(r: seq<Block>, blocks: seq<Block>, huffVal: seq<int>, lens: seq<int>, cc: nat, hc: int, lc: int)
    requires |r| == |blocks| && cc <= |lens| <= |blocks| && |lens| <= |huffVal|
  {
    && lc == Lc(lens, cc)
    && hc == (if cc == 0 then 0 else Code(lens, cc - 1) + 1)
    && (forall j :: cc <= j < |blocks| ==> r[j] == blocks[j])
    && (forall j :: 0 <= j < cc ==> r[j] == Block(huffVal[j], blocks[j].length, Code(lens, j) % 65536))
  }

  /** One pass of GenHuffCodes' outer loop: widen, store entry cc, step the code. */
  method NumberOne(r0: seq<Block>, blocks: seq<Block>, huffVal: seq<int>, ghost lens: seq<int>, cc: nat, hc0: int, lc0: int)
    returns (r: seq<Block>, hc: int, lc: int)
    requires |r0| == |blocks| && cc < |lens| <= |blocks| && |lens| <= |huffVal|
    requires forall j :: 0 <= j < |lens| ==> lens[j] == blocks[j].length
    requires Numbered(r0, blocks, huffVal, lens, cc, hc0, lc0)
    ensures |r| == |blocks| && Numbered(r, blocks, huffVal, lens, cc + 1, hc, lc)
  {
    CodeStep(lens, cc);
    var code;
    code, lc := WidenCode(hc0, lc0, r0[cc].length);
    r := r0[cc := Block(huffVal[cc], r0[cc].length, code % 65536)];
    hc := code + 1;
  }

  /** One entry of GenHuffCodes, unfolded. */
  lemma CodeStep(lens: seq<int>, cc: nat)
    requires cc < |lens|
    ensures Code(lens, cc) == Shl(if cc == 0 then 0 else Code(lens, cc - 1) + 1, Widen(Lc(lens, cc), lens[cc]))
    ensures Lc(lens, cc + 1) == if lens[cc] > Lc(lens, cc) then lens[cc] else Lc(lens, cc)
  {
  }

  /** GenHuffCodes' inner loop: raise lc to the entry's length, doubling hc at each step. */
  method WidenCode(hc0: nat, lc0: int, len: int) returns (hc: nat, lc: int)
    ensures hc == Shl(hc0, Widen(lc0, len))
    ensures lc == if len > lc0 then len else lc0
  {
    hc, lc := hc0, lc0;
    while len > lc
      invariant lc0 <= lc && (lc <= len || lc == lc0)
      invariant hc == Shl(hc0, lc - lc0)
      decreases len - lc
    {
      hc := hc * 2;
      lc := lc + 1;
    }
  }

  /** Entry c of the table lies at level i when it is among level i's entries. */
  lemma EntryAt(bits: seq<int>, i: nat, c: nat)
    requires IsHistogram(bits) && 1 <= i <= 16
    requires CountBelow(bits, i) <= c < CountBelow(bits, i) + bits[i]
    ensures c < Total(bits) && Lengths(bits)[c] == i
    ensures LevelCode(bits, c) == FirstCode(bits, i) + (c - CountBelow(bits, i))
  {
    CountBelowMonotone(bits, i + 1, 17);
    LengthsCount(bits, i, c);
  }

  /** BuildHuffmanTable's third loop, one level: blocks c .. c + bits[i] - 1 get length i. */
  method FillLevel(bits: seq<int>, i: nat, blocks: seq<Block>, c0: nat) returns (r: seq<Block>, c: nat)
    requires IsHistogram(bits) && 1 <= i <= 16 && Total(bits) <= |blocks|
    requires c0 == CountBelow(bits, i)
    ensures c == CountBelow(bits, i + 1) <= Total(bits) && |r| == |blocks|
    ensures forall q :: 0 <= q < |blocks| && !(c0 <= q < c) ==> r[q] == blocks[q]
    ensures forall q :: c0 <= q < c ==> r[q] == blocks[q].(length := Lengths(bits)[q])
  {
    CountBelowMonotone(bits, i + 1, 17);
    r, c := blocks, c0;
    var j := 0;
    while j < bits[i]
      invariant 0 <= j <= bits[i] && c == c0 + j && |r| == |blocks|
      invariant forall q :: 0 <= q < |blocks| && !(c0 <= q < c) ==> r[q] == blocks[q]
      invariant forall q :: c0 <= q < c ==> r[q] == blocks[q].(length := Lengths(bits)[q])
    {
      EntryAt(bits, i, c);
      r := r[c := r[c].(length := i)];
      j, c := j + 1, c + 1;
    }
  }

  /**
   * BuildHuffmanTable: the histogram is copied, numBlocks is its total, and
   * the first numBlocks blocks become the canonical code table; the rest of
   * m_blocks is untouched. ParseDHT has checked that the total is at most 256.
   */
  method BuildHuffmanTable(bits: seq<int>, ht: HuffmanTable) returns (r: HuffmanTable)
    requires IsHistogram(bits) && WellSized(ht) && Total(bits) <= 256
    ensures WellSized(r) && r.hufVal == ht.hufVal && r.numBlocks == Total(bits)
    ensures r.length[0] == ht.length[0] && r.length[1..] == bits[1..]
    ensures r.blocks[..Total(bits)] == CanonicalBlocks(bits, ht.hufVal)
    ensures r.blocks[Total(bits)..] == ht.blocks[Total(bits)..]
  {
    var length := ht.length;
    var j := 1;
    while j <= 16
      invariant 1 <= j <= 17 && |length| == 17 && length[0] == ht.length[0]
      invariant forall k :: 1 <= k < j ==> length[k] == bits[k]
    {
      length := length[j := bits[j]];
      j := j + 1;
    }
    assert length[1..] == bits[1..];
    var numBlocks := 0;
    var i := 1;
    while i <= 16
      invariant 1 <= i <= 17 && numBlocks == CountBelow(bits, i)
    {
      numBlocks := numBlocks + length[i];
      i := i + 1;
    }
    var blocks := ht.blocks;
    var c := 0;
    i := 1;
    while i <= 16
      invariant 1 <= i <= 17 && c == CountBelow(bits, i) <= Total(bits) && |blocks| == 1024
      invariant forall q :: c <= q < 1024 ==> blocks[q] == ht.blocks[q]
      invariant forall q :: 0 <= q < c ==> blocks[q] == ht.blocks[q].(length := Lengths(bits)[q])
    {
      CountBelowMonotone(bits, i + 1, 17);
      blocks, c := FillLevel(bits, i, blocks, c);
      i := i + 1;
    }
    blocks := GenHuffCodes(numBlocks, blocks, ht.hufVal, Lengths(bits));
    r := HuffmanTable(length, ht.hufVal, numBlocks, blocks);
  }

  // ---------------------------------------------------------------------
  // Encoder: compute_Huffman_table

  /** The code and length of table entry p, as the encoder stores them (uint16_t value). */
  function EntryCode(bits: seq<int>, p: nat): Bitstring
    requires IsHistogram(bits) && p < Total(bits)
  {
    Bitstring(Lengths(bits)[p], LevelCode(bits, p) % 65536)
  }

  /** A symbol-indexed table after the first n entries have been written into ht. */
  function Assigned(ht: seq<Bitstring>, bits: seq<int>, vals: seq<int>, n: nat): (r: seq<Bitstring>)
    requires IsHistogram(bits) && n <= Total(bits) && n <= |vals|
    requires forall p :: 0 <= p < n ==> 0 <= vals[p] < |ht|
    ensures |r| == |ht|
  {
    if n == 0 then ht else Assigned(ht, bits, vals, n - 1)[vals[n - 1] := EntryCode(bits, n - 1)]
  }

  /**
   * compute_Huffman_table: level by level, the running code c starts at the
   * level's first code and the symbols std_table[p] of that level receive
   * consecutive codes.
   */
  method ComputeHuffmanTable(nrcodes: seq<int>, stdTable: seq<int>, ht: array<Bitstring>)
    requires IsHistogram(nrcodes) && Total(nrcodes) <= |stdTable|
    requires forall p :: 0 <= p < Total(nrcodes) ==> 0 <= stdTable[p] < ht.Length
    modifies ht
    ensures ht[..] == Assigned(old(ht[..]), nrcodes, stdTable, Total(nrcodes))
  {
    var i, c, p := 1, 0, 0;
    while i <= 16
      invariant 1 <= i <= 17 && p == CountBelow(nrcodes, i) <= Total(nrcodes) && c == FirstCode(nrcodes, i)
      invariant ht[..] == Assigned(old(ht[..]), nrcodes, stdTable, p)
    {
      CountBelowMonotone(nrcodes, i + 1, 17);
      c, p := ComputeLevel(nrcodes, stdTable, ht, old(ht[..]), i, c, p);
      i, c := i + 1, c * 2;
    }
  }

  /** The inner loop of compute_Huffman_table: the nrcodes[i] symbols of level i. */
  method ComputeLevel(nrcodes: seq<int>, stdTable: seq<int>, ht: array<Bitstring>, ghost orig: seq<Bitstring>,
                      i: nat, c0: nat, p0: nat) returns (c: nat, p: nat)
    requires IsHistogram(nrcodes) && Total(nrcodes) <= |stdTable| && 1 <= i <= 16 && |orig| == ht.Length
    requires forall q :: 0 <= q < Total(nrcodes) ==> 0 <= stdTable[q] < ht.Length
    requires p0 == CountBelow(nrcodes, i) <= Total(nrcodes) && c0 == FirstCode(nrcodes, i)
    requires ht[..] == Assigned(orig, nrcodes, stdTable, p0)
    modifies ht
    ensures p == CountBelow(nrcodes, i + 1) <= Total(nrcodes) && c == c0 + nrcodes[i]
    ensures ht[..] == Assigned(orig, nrcodes, stdTable, p)
  {
    CountBelowMonotone(nrcodes, i + 1, 17);
    c, p := c0, p0;
    var j := 1;
    while j <= nrcodes[i]
      invariant 1 <= j <= nrcodes[i] + 1 && p == p0 + j - 1 && c == c0 + j - 1
      invariant ht[..] == Assigned(orig, nrcodes, stdTable, p)
    {
      AssignedStep(orig, nrcodes, stdTable, i, p, c);
      ghost var before := ht[..];
      ht[stdTable[p]] := Bitstring(i, c % 65536);
      assert ht[..] == before[stdTable[p] := Bitstring(i, c % 65536)];
      j, p, c := j + 1, p + 1, c + 1;
    }
  }

  /** Writing the next entry of level i extends the assignment by one entry. */
  lemma AssignedStep(orig: seq<Bitstring>, bits: seq<int>, vals: seq<int>, i: nat, p: nat, c: nat)
    requires IsHistogram(bits) && Total(bits) <= |vals| && 1 <= i <= 16
    requires forall q :: 0 <= q < Total(bits) ==> 0 <= vals[q] < |orig|
    requires CountBelow(bits, i) <= p < CountBelow(bits, i) + bits[i]
    requires c == FirstCode(bits, i) + (p - CountBelow(bits, i))
    ensures p + 1 <= Total(bits)
    ensures Assigned(orig, bits, vals, p + 1) == Assigned(orig, bits, vals, p)[vals[p] := Bitstring(i, c % 65536)]
  {
    EntryAt(bits, i, p);
  }

  // ---------------------------------------------------------------------
  // The two sides agree

  /** The symbols of the first n table entries are pairwise distinct. */
  ghost predicate DistinctOn(vals: seq<int>, n: nat)
    requires n <= |vals|
  {
    forall p, q :: 0 <= p < q < n ==> vals[p] != vals[q]
  }

  /** After n entries, the symbol of entry p < n holds that entry's code. */
  lemma {:induction false} AssignedAt(ht: seq<Bitstring>, bits: seq<int>, vals: seq<int>, n: nat, p: nat)
    requires IsHistogram(bits) && n <= Total(bits) && n <= |vals| && p < n
    requires forall q :: 0 <= q < n ==> 0 <= vals[q] < |ht|
    requires DistinctOn(vals, n)
    ensures Assigned(ht, bits, vals, n)[vals[p]] == EntryCode(bits, p)
  {
    if p < n - 1 {
      AssignedAt(ht, bits, vals, n - 1, p);
    }
  }

  /** A symbol no entry names keeps its original table entry. */
  lemma {:induction false} AssignedElsewhere(ht: seq<Bitstring>, bits: seq<int>, vals: seq<int>, n: nat, s: int)
    requires IsHistogram(bits) && n <= Total(bits) && n <= |vals| && 0 <= s < |ht|
    requires forall q :: 0 <= q < n ==> 0 <= vals[q] < |ht| && vals[q] != s
    ensures Assigned(ht, bits, vals, n)[s] == ht[s]
  {
    if n > 0 {
      AssignedElsewhere(ht, bits, vals, n - 1, s);
    }
  }

  /**
   * Every code of length 1..maxLen in the encoder's symbol-indexed table is
   * found by the decoder's search in blocks, followed by any bits, as that
   * symbol with that length.
   */
  ghost predicate Agree(ht: seq<Bitstring>, blocks: seq<Block>, maxLen: nat)
  {
    forall s, rest: seq<bool> :: 0 <= s < |ht| && 1 <= ht[s].length <= maxLen ==> FindsEntry(ht, blocks, maxLen, s, rest)
  }

  /** The search finds entry s of ht, followed by rest, as s at its length. */
  ghost predicate FindsEntry(ht: seq<Bitstring>, blocks: seq<Block>, maxLen: nat, s: int, rest: seq<bool>)
    requires 0 <= s < |ht|
  {
    FindCode(blocks, ToBits(ht[s].value, ht[s].length) + rest, 1, maxLen) == Ok(Some((s, ht[s].length)))
  }

  /** A table of the zero-initialised encoder state: no symbol has a code yet. */
  ghost predicate NoCodes(ht: seq<Bitstring>)
  {
    forall s :: 0 <= s < |ht| ==> ht[s].length == 0
  }

  /**
   * compute_Huffman_table and BuildHuffmanTable agree: for a Kraft-valid
   * histogram with distinct symbols, starting from the zeroed encoder table,
   * the decoder reads every code the encoder stored back as its symbol.
   */
  lemma TablesAgree(ht0: seq<Bitstring>, bits: seq<int>, vals: seq<int>, maxLen: nat)
    requires IsHistogram(bits) && Fits(bits) && Total(bits) <= |vals| && DistinctOn(vals, Total(bits))
    requires forall q :: 0 <= q < Total(bits) ==> 0 <= vals[q] < |ht0|
    requires NoCodes(ht0)
    ensures Agree(Assigned(ht0, bits, vals, Total(bits)), CanonicalBlocks(bits, vals), maxLen)
  {
    var ht := Assigned(ht0, bits, vals, Total(bits));
    forall s, rest: seq<bool> | 0 <= s < |ht| && 1 <= ht[s].length <= maxLen
      ensures FindsEntry(ht, CanonicalBlocks(bits, vals), maxLen, s, rest)
    {
      AgreeAt(ht0, bits, vals, maxLen, s, rest);
    }
  }

  /** TablesAgree for one symbol and one continuation. */
  lemma AgreeAt(ht0: seq<Bitstring>, bits: seq<int>, vals: seq<int>, maxLen: nat, s: int, rest: seq<bool>)
    requires IsHistogram(bits) && Fits(bits) && Total(bits) <= |vals| && DistinctOn(vals, Total(bits))
    requires forall q :: 0 <= q < Total(bits) ==> 0 <= vals[q] < |ht0|
    requires NoCodes(ht0) && 0 <= s < |ht0|
    requires 1 <= Assigned(ht0, bits, vals, Total(bits))[s].length <= maxLen
    ensures var e := Assigned(ht0, bits, vals, Total(bits))[s];
      FindCode(CanonicalBlocks(bits, vals), ToBits(e.value, e.length) + rest, 1, maxLen) == Ok(Some((s, e.length)))
  {
    var n := Total(bits);
    if p :| 0 <= p < n && vals[p] == s {
      AssignedAt(ht0, bits, vals, n, p);
      StoredLevelCode(bits, p);
      FindCanonical(bits, vals, p, rest, maxLen);
    } else {
      AssignedElsewhere(ht0, bits, vals, n, s);
      assert false;
    }
  }

  /** The encoder's uint16_t code keeps the whole level code, which fits in 16 bits. */
  lemma StoredLevelCode(bits: seq<int>, p: nat)
    requires IsHistogram(bits) && Fits(bits) && p < Total(bits)
    ensures EntryCode(bits, p).value == LevelCode(bits, p) < Pow2(Lengths(bits)[p])
  {
    CodeFits(bits, p);
    LevelBounds(bits, p);
    Pow2Monotone(Lengths(bits)[p], 16);
    Pow2Values();
    ModBelow(LevelCode(bits, p), 65536);
  }

  /**
   * The encoder's table covers exactly the histogram's symbols: each gets a
   * code of 1..16 bits, and every other symbol keeps its original entry.
   */
  lemma Coverage(ht0: seq<Bitstring>, bits: seq<int>, vals: seq<int>)
    requires IsHistogram(bits) && Total(bits) <= |vals| && DistinctOn(vals, Total(bits))
    requires forall q :: 0 <= q < Total(bits) ==> 0 <= vals[q] < |ht0|
    ensures forall p :: 0 <= p < Total(bits) ==> 1 <= Assigned(ht0, bits, vals, Total(bits))[vals[p]].length <= 16
    ensures forall s :: 0 <= s < |ht0| && (forall p :: 0 <= p < Total(bits) ==> vals[p] != s) ==>
      Assigned(ht0, bits, vals, Total(bits))[s] == ht0[s]
  {
    var n := Total(bits);
    forall p | 0 <= p < n
      ensures 1 <= Assigned(ht0, bits, vals, n)[vals[p]].length <= 16
    {
      AssignedAt(ht0, bits, vals, n, p);
      LevelBounds(bits, p);
    }
    forall s | 0 <= s < |ht0| && (forall p :: 0 <= p < n ==> vals[p] != s)
      ensures Assigned(ht0, bits, vals, n)[s] == ht0[s]
    {
      AssignedElsewhere(ht0, bits, vals, n, s);
    }
  }
}
