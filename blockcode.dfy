/**
 * One data unit of the baseline entropy code (section F.1.2 of ITU-T T.81),
 * as the encoder's process_DU writes it (jpeg-save.c) and the decoder's
 * ProcessHuffmanDataUnit reads it back (jpeg-load.c).
 *
 * A data unit is 64 quantised coefficients in zig-zag order, each an
 * int16_t. The encoder emits a list of bit strings: the DC difference's
 * category code and extra bits, then for every nonzero AC coefficient the
 * ZRL codes for each 16 zeros before it, the run/size code and the extra
 * bits, and an end-of-block code unless the last coefficient is nonzero.
 * The decoder consumes a bit sequence and rebuilds the 64 coefficients.
 *
 * The reads the C code makes outside its tables (category[-32768],
 * HTDC[12..15]) are Unsupported here. So is a DC category over 15: C reads
 * that many bits from its 32-bit reservoir and truncates them to int16_t,
 * and the model refuses such a category instead.
 *
 * BlockRoundTrip: decoding what the encoder wrote for a block gives back
 * the block and the DC predictor the encoder moved to, and leaves whatever
 * followed untouched.
 */
module BlockCode {
  import opened Common
  import opened Bits
  import opened Coding
  import opened Huffman
  import opened HuffmanBuild

  predicate IsInt16(x: int)
  {
    -32768 <= x < 32768
  }

  /** One DU[64] of int16_t coefficients. */
  predicate IsBlock(du: seq<int>)
  {
    |du| == 64 && forall k :: 0 <= k < 64 ==> IsInt16(du[k])
  }

  /** The bits writebits sends for a list of codes, in order. */
  function Flatten(codes: seq<Bitstring>): (r: seq<bool>)
  {
    if codes == [] then [] else ToBits(codes[0].value, codes[0].length) + Flatten(codes[1..])
  }

  /** n copies of the code c, as the ZRL loop writes them. */
  function Repeat(c: Bitstring, n: nat): (r: seq<Bitstring>)
    ensures |r| == n
  {
    if n == 0 then [] else Repeat(c, n - 1) + [c]
  }

  /** The copies of c read from the front: c, then the rest. */
  lemma {:induction false} RepeatFront(c: Bitstring, n: nat)
    requires n > 0
    ensures Repeat(c, n) == [c] + Repeat(c, n - 1)
  {
    if n > 1 {
      RepeatFront(c, n - 1);
      assert Repeat(c, n) == ([c] + Repeat(c, n - 2)) + [c];
    }
  }

  /** The copies of c hold nothing but c. */
  lemma {:induction false} RepeatOnly(c: Bitstring, n: nat, x: Bitstring)
    requires x in Repeat(c, n)
    ensures x == c
  {
    if x != c {
      RepeatOnly(c, n - 1, x);
    }
  }

  lemma {:induction false} FlattenAppend(a: seq<Bitstring>, b: seq<Bitstring>)
    ensures Flatten(a + b) == Flatten(a) + Flatten(b)
  {
    if a == [] {
      assert a + b == b;
    } else {
      assert (a + b)[1..] == a[1..] + b;
      FlattenAppend(a[1..], b);
    }
  }

  lemma FlattenOne(c: Bitstring)
    ensures Flatten([c]) == ToBits(c.value, c.length)
  {
    assert [c][1..] == [];
  }

  // ---------------------------------------------------------------------
  // The encoder

  /**
   * The DC part of process_DU for diff = DU[0] - *DC: HTDC[0] for a zero
   * difference, otherwise HTDC[category[diff]] and bitcode[diff].
   */
  function DcCodes(diff: int, dcT: seq<Bitstring>): (r: Result<seq<Bitstring>, Fault>)
    requires IsInt16(diff) && |dcT| == 12
    ensures r.Ok? <==> diff == 0 || (diff != -32768 && Category(diff) < 12)
    ensures r.Ok? ==> |r.value| >= 1 && r.value[0] == dcT[Category(diff)]
  {
    CategoryZero(diff);
    if diff == 0 then Ok([dcT[0]])
    else if diff == -32768 then Err(Unsupported)
    else if Category(diff) >= 12 then Err(Unsupported)
    else Ok([dcT[Category(diff)], Bitcode(diff)])
  }

  /** end0pos: the last index in 1..j whose coefficient is nonzero, or 0 if there is none. */
  function End0(du: seq<int>, j: nat): (e: nat)
    requires j < |du|
    ensures e <= j
    ensures e > 0 ==> du[e] != 0
    ensures forall k :: e < k <= j ==> du[k] == 0
  {
    if j == 0 || du[j] != 0 then j else End0(du, j - 1)
  }

  /** The inner loop of the AC pass: the first nonzero coefficient at or after i. */
  function NextNonzero(du: seq<int>, i: nat, e: nat): (j: nat)
    requires i <= e < |du| && du[e] != 0
    ensures i <= j <= e && du[j] != 0
    ensures forall k :: i <= k < j ==> du[k] == 0
    decreases e - i
  {
    if du[i] != 0 then i else NextNonzero(du, i + 1, e)
  }

  /** The run/size symbol of a coefficient after `run` zeros, run below 16. */
  function RunSize(run: nat, n: int): int
  {
    run * 16 + Category(n)
  }

  /**
   * The codes of the AC pass for the coefficients i..e (e = end0pos): for the
   * next nonzero coefficient DU[j], one ZRL per 16 zeros in front of it, then
   * HTAC[(zeros % 16 << 4) + category[DU[j]]] and bitcode[DU[j]].
   */
  function AcCodes(du: seq<int>, acT: seq<Bitstring>, i: nat, e: nat): (r: Result<seq<Bitstring>, Fault>)
    requires IsBlock(du) && |acT| == 256 && 1 <= i <= e + 1 && e <= 63 && (i <= e ==> du[e] != 0)
    ensures r.Err? ==> exists k :: i <= k <= e && du[k] == -32768
    decreases e + 1 - i
  {
    if i > e then Ok([])
    else
      var j := NextNonzero(du, i, e);
      if du[j] == -32768 then Err(Unsupported)
      else
        var run := j - i;
        CategoryBound(du[j]);
        var tail :- AcCodes(du, acT, j + 1, e);
        Ok(Repeat(acT[0xF0], run / 16) + [acT[RunSize(run % 16, du[j])], Bitcode(du[j])] + tail)
  }

  /**
   * process_DU after the zig-zag reordering and the embedding: the codes
   * written for the block du, whose DC is coded against the predictor pred,
   * with the DC table dcT (12 entries) and the AC table acT (256 entries).
   */
  function EncodeBlock(du: seq<int>, pred: int, dcT: seq<Bitstring>, acT: seq<Bitstring>): (r: Result<seq<Bitstring>, Fault>)
    requires IsBlock(du) && IsInt16(pred) && |dcT| == 12 && |acT| == 256
  {
    var dc :- DcCodes(Wrap16(du[0] - pred), dcT);
    var ac :- AcPass(du, acT);
    Ok(dc + ac)
  }

  /**
   * The AC part of process_DU: the runs up to end0pos, then EOB unless the
   * last coefficient is nonzero; just EOB when all 63 are zero.
   */
  function AcPass(du: seq<int>, acT: seq<Bitstring>): (r: Result<seq<Bitstring>, Fault>)
    requires IsBlock(du) && |acT| == 256
    ensures r.Err? ==> exists k :: 1 <= k < 64 && du[k] == -32768
  {
    var e := End0(du, 63);
    if e == 0 then Ok([acT[0x00]])
    else
      var ac :- AcCodes(du, acT, 1, e);
      Ok(ac + (if e != 63 then [acT[0x00]] else []))
  }

  /**
   * The encoder fails only on a DC difference it has no code for
   * (category 12 and above, or -32768) and on an AC coefficient of -32768.
   */
  lemma EncodeBlockOk(du: seq<int>, pred: int, dcT: seq<Bitstring>, acT: seq<Bitstring>)
    requires IsBlock(du) && IsInt16(pred) && |dcT| == 12 && |acT| == 256
    requires forall k :: 1 <= k < 64 ==> du[k] != -32768
    ensures EncodeBlock(du, pred, dcT, acT).Ok? <==> DcCodes(Wrap16(du[0] - pred), dcT).Ok?
  {
  }

  /** Every code process_DU writes is one of the tables' entries or a bitcode entry. */
  lemma {:induction false} AcCodesFrom(du: seq<int>, acT: seq<Bitstring>, i: nat, e: nat, c: Bitstring)
    requires IsBlock(du) && |acT| == 256 && 1 <= i <= e + 1 && e <= 63 && (i <= e ==> du[e] != 0)
    requires AcCodes(du, acT, i, e).Ok? && c in AcCodes(du, acT, i, e).value
    ensures c in acT || exists k :: i <= k <= e && c == Bitcode(du[k]) && IsInt16(du[k]) && du[k] != -32768
    decreases e + 1 - i
  {
    if i <= e {
      var j := NextNonzero(du, i, e);
      var run := j - i;
      CategoryBound(du[j]);
      var tail := AcCodes(du, acT, j + 1, e).value;
      assert AcCodes(du, acT, i, e).value == Repeat(acT[0xF0], run / 16) + [acT[RunSize(run % 16, du[j])], Bitcode(du[j])] + tail;
      if c in tail {
        AcCodesFrom(du, acT, j + 1, e, c);
      } else if c in Repeat(acT[0xF0], run / 16) {
        RepeatOnly(acT[0xF0], run / 16, c);
      }
    }
  }

  /** The codes are at most 16 bits long when the tables' are: writebits' limit. */
  lemma EncodeBlockLengths(du: seq<int>, pred: int, dcT: seq<Bitstring>, acT: seq<Bitstring>)
    requires IsBlock(du) && IsInt16(pred) && |dcT| == 12 && |acT| == 256
    requires forall c :: c in dcT ==> c.length <= 16
    requires forall c :: c in acT ==> c.length <= 16
    requires EncodeBlock(du, pred, dcT, acT).Ok?
    ensures forall c :: c in EncodeBlock(du, pred, dcT, acT).value ==> c.length <= 16
  {
    var diff := Wrap16(du[0] - pred);
    if diff != 0 {
      CategoryBound(diff);
    }
    var e := End0(du, 63);
    forall c | c in EncodeBlock(du, pred, dcT, acT).value
      ensures c.length <= 16
    {
      var dc := DcCodes(diff, dcT).value;
      if c !in dc && e != 0 {
        var ac := AcCodes(du, acT, 1, e).value;
        assert AcPass(du, acT).value == ac + (if e != 63 then [acT[0x00]] else []);
        if c in ac {
          AcCodesFrom(du, acT, 1, e, c);
          if c !in acT {
            var k :| 1 <= k <= e && c == Bitcode(du[k]) && IsInt16(du[k]) && du[k] != -32768;
            CategoryBound(du[k]);
          }
        }
      }
    }
  }

  // ---------------------------------------------------------------------
  // The decoder

  /**
   * The DC part of ProcessHuffmanDataUnit on the bits s, with m_previousDC =
   * pred: the first code of 1..15 bits found in the DC table gives the
   * number of extra bits, which DetermineSign turns into the difference.
   * The result is DCT_tcoeff[0], the new m_previousDC and the bits left.
   */
  function DecodeDc(s: seq<bool>, pred: int, dcB: seq<Block>): (r: Result<(int, int, seq<bool>), Fault>)
    ensures r.Ok? ==> |r.value.2| < |s|
  {
    var found :- FindCode(dcB, s, 1, 15);
    if found.None? then Err(NoDcCode)
    else DcExtra(found.value.0, s[found.value.1..], pred)
  }

  /** What follows the DC code v: v extra bits (none for v = 0) give the coefficient. */
  function DcExtra(v: int, s: seq<bool>, pred: int): (r: Result<(int, int, seq<bool>), Fault>)
    ensures r.Ok? ==> |r.value.2| <= |s|
  {
    if v == 0 then Ok((Wrap16(pred), pred, s))
    else if !(1 <= v <= 15) then Err(Unsupported)
    else if |s| < v then Err(Truncated)
    else
      var c := Wrap16(Extend(FromBits(s[..v]), v) + pred);
      Ok((c, c, s[v..]))
  }

  /** size_val: the low four bits of a run/size symbol. */
  function AcSize(v: int): (r: int)
    ensures 0 <= r < 16
  {
    v % 16
  }

  /** count_0: valCode >> 4, truncated to uint8_t. */
  function AcRun(v: int): (r: int)
    ensures 0 <= r < 256
  {
    (v / 16) % 256
  }

  function Measure(nr: int): nat
  {
    if nr <= 64 then 64 - nr else 0
  }

  /**
   * The AC loop of ProcessHuffmanDataUnit from coefficient nr, on the bits s:
   * look for a code of 1..16 bits; EOB ends the block, ZRL skips 16 zeros,
   * other size-0 symbols skip nothing; a run/size symbol skips its zeros and
   * stores DetermineSign of its extra bits; when no code matches, nr moves
   * on without consuming bits. The loop ends when nr passes 63.
   */
  function DecodeAc(s: seq<bool>, coefs: seq<int>, nr: int, acB: seq<Block>): (r: Result<(seq<int>, seq<bool>), Fault>)
    requires |coefs| == 64 && nr >= 1
    ensures r.Ok? ==> |r.value.0| == 64 && |r.value.1| <= |s|
    decreases Measure(nr), |s|, 0
  {
    if nr > 63 then Ok((coefs, s))
    else
      var found :- FindCode(acB, s, 1, 16);
      if found.None? then DecodeAc(s, coefs, nr + 1, acB)
      else AcSymbol(found.value.0, s[found.value.1..], coefs, nr, acB)
  }

  /** The rest of one pass of the AC loop once the symbol v has been decoded, on the bits after it. */
  function AcSymbol(v: int, s: seq<bool>, coefs: seq<int>, nr: int, acB: seq<Block>): (r: Result<(seq<int>, seq<bool>), Fault>)
    requires |coefs| == 64 && 1 <= nr <= 63
    ensures r.Ok? ==> |r.value.0| == 64 && |r.value.1| <= |s|
    decreases Measure(nr), |s|, 1
  {
    var size, count := AcSize(v), AcRun(v);
    if size == 0 then
      if count == 0 then Ok((coefs, s))
      else if count == 15 then DecodeAc(s, coefs, nr + 16, acB)
      else DecodeAc(s, coefs, nr, acB)
    else
      var at := nr + count;
      if at > 63 then Err(CoefficientOverrun)
      else if |s| < size then Err(Truncated)
      else DecodeAc(s[size..], coefs[at := Extend(FromBits(s[..size]), size)], at + 1, acB)
  }

  /**
   * ProcessHuffmanDataUnit: the 64 coefficients of one data unit (all zero
   * but for those decoded), the new m_previousDC and the bits left.
   */
  function DecodeBlock(s: seq<bool>, pred: int, dcB: seq<Block>, acB: seq<Block>): (r: Result<(seq<int>, int, seq<bool>), Fault>)
    ensures r.Ok? ==> |r.value.0| == 64 && |r.value.2| < |s|
  {
    var dc :- DecodeDc(s, pred, dcB);
    var ac :- DecodeAc(dc.2, seq(64, k => if k == 0 then dc.0 else 0), 1, acB);
    Ok((ac.0, dc.1, ac.1))
  }

  /** Every decoded coefficient is an int16_t: DetermineSign of at most 15 bits fits. */
  lemma ExtendFits(v: nat, t: nat)
    requires 1 <= t <= 15 && v < Pow2(t)
    ensures IsInt16(Extend(v, t))
  {
    Pow2Monotone(t, 15);
    Pow2Values();
  }

  // ---------------------------------------------------------------------
  // The round trip

  /** The encoder's DC table has a code of 1..15 bits for each of the 12 categories. */
  ghost predicate DcCovered(dcT: seq<Bitstring>)
  {
    |dcT| == 12 && forall c :: 0 <= c < 12 ==> 1 <= dcT[c].length <= 15
  }

  /** The encoder's AC table has a code of 1..16 bits for EOB, ZRL and every run/size symbol of category 1..10. */
  ghost predicate AcCovered(acT: seq<Bitstring>)
  {
    |acT| == 256 && forall s :: 0 <= s < 256 && IsAcSymbol(s) ==> 1 <= acT[s].length <= 16
  }

  /** The first coefficients n of du, then zeros: the decoder's DCT_tcoeff before coefficient n. */
  function Prefix(du: seq<int>, n: int): (r: seq<int>)
    requires |du| == 64
    ensures |r| == 64
    ensures forall k :: 0 <= k < 64 ==> r[k] == if k < n then du[k] else 0
  {
    seq(64, k requires 0 <= k < 64 => if k < n then du[k] else 0)
  }

  /** Looking up a table entry's code, followed by anything, finds that entry. */
  lemma Decodes(ht: seq<Bitstring>, blocks: seq<Block>, maxLen: nat, x: int, rest: seq<bool>)
    requires Agree(ht, blocks, maxLen) && 0 <= x < |ht| && 1 <= ht[x].length <= maxLen
    ensures FindCode(blocks, ToBits(ht[x].value, ht[x].length) + rest, 1, maxLen) == Ok(Some((x, ht[x].length)))
  {
    assert FindsEntry(ht, blocks, maxLen, x, rest);
  }

  /** *DC = DU[0] and the decoder's data + m_previousDC cancel the int16_t wrap of the difference. */
  lemma Wrap16Inverse(a: int, b: int)
    requires IsInt16(a) && IsInt16(b)
    ensures Wrap16(Wrap16(a - b) + b) == a
  {
    var d := a - b;
    var w := (d + 32768) % 65536;
    var q := (d + 32768) / 65536;
    assert d + 32768 == 65536 * q + w;
    assert Wrap16(d) + b + 32768 == a + 32768 - 65536 * q;
    DivModOf(a + 32768 - 65536 * q + 65536 * q, 65536, 0, a + 32768);
    ModShift(a + 32768, q);
  }

  lemma ModShift(v: int, q: int)
    requires 0 <= v < 65536
    ensures (v - 65536 * q) % 65536 == v
  {
  }

  lemma AppendAssoc(a: seq<bool>, b: seq<bool>, c: seq<bool>)
    ensures (a + b) + c == a + (b + c)
  {
  }

  lemma Wrap16Zero(a: int, b: int)
    requires IsInt16(a) && IsInt16(b) && Wrap16(a - b) == 0
    ensures a == b
  {
    assert (a - b) % 65536 == 0;
  }

  lemma SkipCode(c: Bitstring, x: seq<bool>)
    ensures (ToBits(c.value, c.length) + x)[c.length..] == x
  {
  }

  /** The extra bits of n read back as n. */
  lemma ExtraBits(n: int, x: seq<bool>)
    requires n != 0
    ensures Category(n) >= 1 && |ToBits(Bitcode(n).value, Category(n)) + x| >= Category(n)
    ensures Extend(FromBits((ToBits(Bitcode(n).value, Category(n)) + x)[..Category(n)]), Category(n)) == n
    ensures (ToBits(Bitcode(n).value, Category(n)) + x)[Category(n)..] == x
  {
    var c := Category(n);
    BitcodeRange(n);
    var b := ToBits(BitcodeValue(n), c);
    assert (b + x)[..c] == b;
    FromToBits(BitcodeValue(n), c);
    LowSmall(BitcodeValue(n), c);
    ExtendBitcode(n);
  }

  /** The DC code of category c, followed by anything, is found and skipped. */
  lemma DcFound(dcT: seq<Bitstring>, dcB: seq<Block>, c: int, x: seq<bool>, pred: int)
    requires DcCovered(dcT) && Agree(dcT, dcB, 15) && 0 <= c < 12
    ensures DecodeDc(ToBits(dcT[c].value, dcT[c].length) + x, pred, dcB) == DcExtra(c, x, pred)
  {
    Decodes(dcT, dcB, 15, c, x);
    SkipCode(dcT[c], x);
  }

  /** The AC code of a symbol, followed by anything, is found and skipped. */
  lemma AcFound(acT: seq<Bitstring>, acB: seq<Block>, sym: int, x: seq<bool>, coefs: seq<int>, nr: int)
    requires AcCovered(acT) && Agree(acT, acB, 16) && 0 <= sym < 256 && IsAcSymbol(sym)
    requires |coefs| == 64 && 1 <= nr <= 63
    ensures DecodeAc(ToBits(acT[sym].value, acT[sym].length) + x, coefs, nr, acB) == AcSymbol(sym, x, coefs, nr, acB)
  {
    Decodes(acT, acB, 16, sym, x);
    SkipCode(acT[sym], x);
  }

  /** The DC codes decode to the block's first coefficient, which also becomes the predictor. */
  lemma DcRoundTrip(du0: int, pred: int, dcT: seq<Bitstring>, dcB: seq<Block>, rest: seq<bool>)
    requires IsInt16(du0) && IsInt16(pred) && DcCovered(dcT) && Agree(dcT, dcB, 15)
    requires DcCodes(Wrap16(du0 - pred), dcT).Ok?
    ensures DecodeDc(Flatten(DcCodes(Wrap16(du0 - pred), dcT).value) + rest, pred, dcB) == Ok((du0, du0, rest))
  {
    var diff := Wrap16(du0 - pred);
    if diff == 0 {
      Wrap16Zero(du0, pred);
      FlattenOne(dcT[0]);
      DcFound(dcT, dcB, 0, rest, pred);
    } else {
      CategoryZero(diff);
      DcDiffRoundTrip(du0, pred, diff, dcT, dcB, rest);
    }
  }

  /** A nonzero difference: its category's code, then its extra bits. */
  lemma DcDiffRoundTrip(du0: int, pred: int, diff: int, dcT: seq<Bitstring>, dcB: seq<Block>, rest: seq<bool>)
    requires IsInt16(du0) && IsInt16(pred) && diff == Wrap16(du0 - pred) && diff != 0
    requires DcCovered(dcT) && Agree(dcT, dcB, 15)
    requires 1 <= Category(diff) < 12
    ensures DecodeDc(Flatten([dcT[Category(diff)], Bitcode(diff)]) + rest, pred, dcB) == Ok((du0, du0, rest))
  {
    var c := Category(diff);
    var a, b := ToBits(dcT[c].value, dcT[c].length), ToBits(Bitcode(diff).value, c);
    assert Flatten([dcT[c], Bitcode(diff)]) + rest == a + (b + rest) by {
      DcCodeBits(dcT[c], Bitcode(diff));
      AppendAssoc(a, b, rest);
    }
    assert DecodeDc(a + (b + rest), pred, dcB) == DcExtra(c, b + rest, pred) by {
      DcFound(dcT, dcB, c, b + rest, pred);
    }
    assert DcExtra(c, b + rest, pred) == Ok((du0, du0, rest)) by {
      ExtraBits(diff, rest);
      Wrap16Inverse(du0, pred);
    }
  }

  lemma DcCodeBits(c: Bitstring, d: Bitstring)
    ensures Flatten([c, d]) == ToBits(c.value, c.length) + ToBits(d.value, d.length)
  {
    assert [c, d] == [c] + [d];
    FlattenAppend([c], [d]);
    FlattenOne(c);
    FlattenOne(d);
  }

  /** A run/size symbol splits back into its run and its category. */
  lemma RunSizeParts(run: nat, n: int)
    requires run < 16 && 1 <= Category(n) <= 10
    ensures 0 <= RunSize(run, n) < 256 && IsAcSymbol(RunSize(run, n))
    ensures AcSize(RunSize(run, n)) == Category(n) && AcRun(RunSize(run, n)) == run
  {
    DivModOf(RunSize(run, n), 16, run, Category(n));
  }

  /** m ZRL codes move the decoder 16 m coefficients on, storing nothing. */
  lemma {:induction false} ZrlRoundTrip(acT: seq<Bitstring>, acB: seq<Block>, m: nat, x: seq<bool>, coefs: seq<int>, nr: int)
    requires AcCovered(acT) && Agree(acT, acB, 16) && |coefs| == 64 && nr >= 1 && nr + 16 * m <= 63
    ensures DecodeAc(Flatten(Repeat(acT[0xF0], m)) + x, coefs, nr, acB) == DecodeAc(x, coefs, nr + 16 * m, acB)
  {
    if m > 0 {
      ZrlStep(acT, acB, m, x, coefs, nr);
      ZrlRoundTrip(acT, acB, m - 1, x, coefs, nr + 16);
    } else {
      assert Repeat(acT[0xF0], m) == [];
      assert Flatten(Repeat(acT[0xF0], m)) + x == x;
      assert nr + 16 * m == nr;
    }
  }

  /** The first of m ZRL codes. */
  lemma ZrlStep(acT: seq<Bitstring>, acB: seq<Block>, m: nat, x: seq<bool>, coefs: seq<int>, nr: int)
    requires AcCovered(acT) && Agree(acT, acB, 16) && |coefs| == 64 && 1 <= nr <= 47 && m >= 1
    ensures DecodeAc(Flatten(Repeat(acT[0xF0], m)) + x, coefs, nr, acB)
         == DecodeAc(Flatten(Repeat(acT[0xF0], m - 1)) + x, coefs, nr + 16, acB)
  {
    var zrl := acT[0xF0];
    var y := Flatten(Repeat(zrl, m - 1)) + x;
    ZrlSplit(zrl, m, x);
    assert IsAcSymbol(0xF0);
    AcFound(acT, acB, 0xF0, y, coefs, nr);
  }

  lemma ZrlSplit(zrl: Bitstring, m: nat, x: seq<bool>)
    requires m >= 1
    ensures Flatten(Repeat(zrl, m)) + x == ToBits(zrl.value, zrl.length) + (Flatten(Repeat(zrl, m - 1)) + x)
  {
    var z' := Repeat(zrl, m - 1);
    RepeatFront(zrl, m);
    FlattenAppend([zrl], z');
    FlattenOne(zrl);
  }

  /** The run/size code and the extra bits of a nonzero coefficient n, stored at nr + run. */
  lemma ValueStep(acT: seq<Bitstring>, acB: seq<Block>, run: nat, n: int, x: seq<bool>, coefs: seq<int>, nr: int)
    requires AcCovered(acT) && Agree(acT, acB, 16) && |coefs| == 64
    requires run < 16 && n != 0 && Category(n) <= 10 && 1 <= nr && nr + run <= 63
    ensures DecodeAc(Flatten([acT[RunSize(run, n)], Bitcode(n)]) + x, coefs, nr, acB)
         == DecodeAc(x, coefs[nr + run := n], nr + run + 1, acB)
  {
    var sym := RunSize(run, n);
    CategoryZero(n);
    RunSizeParts(run, n);
    var a, b := ToBits(acT[sym].value, acT[sym].length), ToBits(Bitcode(n).value, Category(n));
    assert Flatten([acT[sym], Bitcode(n)]) + x == a + (b + x) by {
      DcCodeBits(acT[sym], Bitcode(n));
      AppendAssoc(a, b, x);
    }
    assert DecodeAc(a + (b + x), coefs, nr, acB) == AcSymbol(sym, b + x, coefs, nr, acB) by {
      AcFound(acT, acB, sym, b + x, coefs, nr);
    }
    assert AcSymbol(sym, b + x, coefs, nr, acB) == DecodeAc(x, coefs[nr + run := n], nr + run + 1, acB) by {
      ExtraBits(n, x);
    }
  }

  /** The ZRL codes of a run of 16 q + r zeros, then the codes of the coefficient n after them. */
  lemma ZrlValue(acT: seq<Bitstring>, acB: seq<Block>, q: nat, r: nat, n: int, x: seq<bool>, coefs: seq<int>, nr: int)
    requires AcCovered(acT) && Agree(acT, acB, 16) && |coefs| == 64
    requires r < 16 && n != 0 && Category(n) <= 10 && 1 <= nr && nr + 16 * q + r <= 63
    ensures DecodeAc(Flatten(Repeat(acT[0xF0], q) + [acT[RunSize(r, n)], Bitcode(n)]) + x, coefs, nr, acB)
         == DecodeAc(x, coefs[nr + 16 * q + r := n], nr + 16 * q + r + 1, acB)
  {
    var codes := [acT[RunSize(r, n)], Bitcode(n)];
    FlattenSplit(Repeat(acT[0xF0], q), codes, x);
    ZrlRoundTrip(acT, acB, q, Flatten(codes) + x, coefs, nr);
    ValueStep(acT, acB, r, n, x, coefs, nr + 16 * q);
  }

  lemma FlattenSplit(a: seq<Bitstring>, b: seq<Bitstring>, x: seq<bool>)
    ensures Flatten(a + b) + x == Flatten(a) + (Flatten(b) + x)
  {
    FlattenAppend(a, b);
    AppendAssoc(Flatten(a), Flatten(b), x);
  }

  /** The codes for one nonzero coefficient at j, after its run of zeros from i. */
  lemma ValueRoundTrip(du: seq<int>, acT: seq<Bitstring>, acB: seq<Block>, i: nat, j: nat, x: seq<bool>)
    requires IsBlock(du) && AcCovered(acT) && Agree(acT, acB, 16)
    requires 1 <= i <= j <= 63 && du[j] != 0 && Category(du[j]) <= 10
    requires forall k :: i <= k < j ==> du[k] == 0
    ensures DecodeAc(Flatten(Repeat(acT[0xF0], (j - i) / 16) + [acT[RunSize((j - i) % 16, du[j])], Bitcode(du[j])]) + x, Prefix(du, i), i, acB)
         == DecodeAc(x, Prefix(du, j + 1), j + 1, acB)
  {
    var run := j - i;
    assert i + 16 * (run / 16) + run % 16 == j;
    ZrlValue(acT, acB, run / 16, run % 16, du[j], x, Prefix(du, i), i);
    assert Prefix(du, i)[j := du[j]] == Prefix(du, j + 1);
  }

  /**
   * The AC codes for coefficients i..e decode, from coefficient i with the
   * earlier coefficients in place, to the coefficients up to e.
   */
  lemma {:induction false} AcRoundTrip(du: seq<int>, acT: seq<Bitstring>, acB: seq<Block>, i: nat, e: nat, x: seq<bool>)
    requires IsBlock(du) && AcCovered(acT) && Agree(acT, acB, 16)
    requires 1 <= i <= e + 1 && e <= 63 && (i <= e ==> du[e] != 0)
    requires forall k :: 1 <= k < 64 ==> Category(du[k]) <= 10
    requires AcCodes(du, acT, i, e).Ok?
    ensures DecodeAc(Flatten(AcCodes(du, acT, i, e).value) + x, Prefix(du, i), i, acB)
         == DecodeAc(x, Prefix(du, e + 1), e + 1, acB)
    decreases e + 1 - i
  {
    if i > e {
      assert Prefix(du, i) == Prefix(du, e + 1);
      assert Flatten(AcCodes(du, acT, i, e).value) + x == x;
    } else {
      var j := NextNonzero(du, i, e);
      AcStep(du, acT, acB, i, j, e, x);
      AcRoundTrip(du, acT, acB, j + 1, e, x);
    }
  }

  /** One run of the AC pass: its codes are the next nonzero coefficient's, then the rest. */
  lemma AcHead(du: seq<int>, acT: seq<Bitstring>, i: nat, j: nat, e: nat)
    requires IsBlock(du) && |acT| == 256 && 1 <= i <= e <= 63 && du[e] != 0
    requires AcCodes(du, acT, i, e).Ok? && j == NextNonzero(du, i, e) && Category(du[j]) <= 10
    ensures AcCodes(du, acT, j + 1, e).Ok?
    ensures AcCodes(du, acT, i, e).value
        == Repeat(acT[0xF0], (j - i) / 16) + [acT[RunSize((j - i) % 16, du[j])], Bitcode(du[j])] + AcCodes(du, acT, j + 1, e).value
  {
  }

  /** Decoding one run of the AC pass places its nonzero coefficient and moves past it. */
  lemma AcStep(du: seq<int>, acT: seq<Bitstring>, acB: seq<Block>, i: nat, j: nat, e: nat, x: seq<bool>)
    requires IsBlock(du) && AcCovered(acT) && Agree(acT, acB, 16)
    requires 1 <= i <= e <= 63 && du[e] != 0
    requires forall k :: 1 <= k < 64 ==> Category(du[k]) <= 10
    requires AcCodes(du, acT, i, e).Ok? && j == NextNonzero(du, i, e)
    ensures AcCodes(du, acT, j + 1, e).Ok?
    ensures DecodeAc(Flatten(AcCodes(du, acT, i, e).value) + x, Prefix(du, i), i, acB)
        == DecodeAc(Flatten(AcCodes(du, acT, j + 1, e).value) + x, Prefix(du, j + 1), j + 1, acB)
  {
    AcHead(du, acT, i, j, e);
    var head := Repeat(acT[0xF0], (j - i) / 16) + [acT[RunSize((j - i) % 16, du[j])], Bitcode(du[j])];
    var tail := AcCodes(du, acT, j + 1, e).value;
    FlattenSplit(head, tail, x);
    ValueRoundTrip(du, acT, acB, i, j, Flatten(tail) + x);
  }

  /** The end of the AC pass: EOB when the last coefficient is zero, nothing when it is not. */
  lemma EndRoundTrip(du: seq<int>, acT: seq<Bitstring>, acB: seq<Block>, e: nat, rest: seq<bool>)
    requires |du| == 64 && AcCovered(acT) && Agree(acT, acB, 16)
    requires e <= 63 && forall k :: e < k < 64 ==> du[k] == 0
    ensures DecodeAc(Flatten(if e != 63 then [acT[0x00]] else []) + rest, Prefix(du, e + 1), e + 1, acB) == Ok((du, rest))
  {
    assert Prefix(du, e + 1) == du;
    if e != 63 {
      FlattenOne(acT[0]);
      assert IsAcSymbol(0);
      AcFound(acT, acB, 0, rest, du, e + 1);
    } else {
      assert Flatten([]) + rest == rest;
    }
  }

  /**
   * Decoding the bits process_DU writes for a block, whatever follows them,
   * gives back the block, moves the predictor to the block's DC exactly as
   * the encoder's *DC = DU[0] does, and leaves what follows. The tables must
   * agree (the decoder's blocks find each of the encoder's codes) and cover
   * the symbols used; AC coefficients are limited to category 10, the
   * largest the AC tables of Annex K.3 have symbols for.
   */
  lemma BlockRoundTrip(du: seq<int>, pred: int, dcT: seq<Bitstring>, acT: seq<Bitstring>, dcB: seq<Block>, acB: seq<Block>, rest: seq<bool>)
    requires IsBlock(du) && IsInt16(pred)
    requires DcCovered(dcT) && Agree(dcT, dcB, 15) && AcCovered(acT) && Agree(acT, acB, 16)
    requires forall k :: 1 <= k < 64 ==> Category(du[k]) <= 10
    requires EncodeBlock(du, pred, dcT, acT).Ok?
    ensures DecodeBlock(Flatten(EncodeBlock(du, pred, dcT, acT).value) + rest, pred, dcB, acB) == Ok((du, du[0], rest))
  {
    var dc := DcCodes(Wrap16(du[0] - pred), dcT).value;
    var ac := AcPass(du, acT).value;
    FlattenSplit(dc, ac, rest);
    var s1 := Flatten(ac) + rest;
    DcRoundTrip(du[0], pred, dcT, dcB, s1);
    AcPassRoundTrip(du, acT, acB, rest);
    PrefixOne(du);
    DecodeBlockSteps(Flatten(dc) + s1, pred, dcB, acB, du[0], du[0], s1, (du, rest));
  }

  /** The AC pass decodes to the whole block from its first coefficient on. */
  lemma AcPassRoundTrip(du: seq<int>, acT: seq<Bitstring>, acB: seq<Block>, rest: seq<bool>)
    requires IsBlock(du) && AcCovered(acT) && Agree(acT, acB, 16)
    requires forall k :: 1 <= k < 64 ==> Category(du[k]) <= 10
    requires AcPass(du, acT).Ok?
    ensures DecodeAc(Flatten(AcPass(du, acT).value) + rest, Prefix(du, 1), 1, acB) == Ok((du, rest))
  {
    var e := End0(du, 63);
    var eob: seq<Bitstring> := if e != 63 then [acT[0x00]] else [];
    if e == 0 {
      assert AcPass(du, acT).value == eob;
    } else {
      var acs := AcCodes(du, acT, 1, e).value;
      assert AcPass(du, acT).value == acs + eob;
      FlattenSplit(acs, eob, rest);
      AcRoundTrip(du, acT, acB, 1, e, Flatten(eob) + rest);
    }
    EndRoundTrip(du, acT, acB, e, rest);
  }

  /** The decoder's starting coefficients are the block's DC followed by zeros. */
  lemma PrefixOne(du: seq<int>)
    requires |du| == 64
    ensures seq(64, k => if k == 0 then du[0] else 0) == Prefix(du, 1)
  {
  }

  /** ProcessHuffmanDataUnit is its DC part followed by its AC part. */
  lemma DecodeBlockSteps(s: seq<bool>, pred: int, dcB: seq<Block>, acB: seq<Block>, c0: int, p: int, s1: seq<bool>, res: (seq<int>, seq<bool>))
    requires DecodeDc(s, pred, dcB) == Ok((c0, p, s1))
    requires DecodeAc(s1, seq(64, k => if k == 0 then c0 else 0), 1, acB) == Ok(res)
    ensures DecodeBlock(s, pred, dcB, acB) == Ok((res.0, p, res.1))
  {
  }
}
