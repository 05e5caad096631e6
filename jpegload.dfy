/**
 * The decoder's entropy layer (jpeg-load.c): the code search, the decoding
 * of one data unit from the bit reservoir, the coefficient extraction of
 * DecodeSingleBlock with its static offset, bit and aloc, and the reorder
 * back to natural order.
 *
 * Every method here is proved against a function of the bits it reads:
 * ProcessHuffmanDataUnit against DecodeBlock, the extraction against
 * FindFrom (JPEG_LOAD_FIND) and CountFrom (JPEG_LOAD_READ), DeZigZag
 * against Gathered.
 */
module JpegLoad {
  import opened Common
  import opened Bits
  import opened Coding
  import opened Huffman
  import opened HuffmanBuild
  import opened BlockCode
  import opened BitReader
  import opened ByteOrder
  import opened Stego
  import opened ZigZagOrder
  import opened JpegParse

  // ---------------------------------------------------------------------
  // The code search

  /**
   * IsInHuffmanCodes: the value of the first of the first numBlocks blocks
   * whose code and length are code and numCodeBits, if there is one.
   */
  method IsInHuffmanCodes(code: int, numCodeBits: int, numBlocks: nat, blocks: seq<Block>) returns (found: bool, value: int)
    requires numBlocks <= |blocks|
    ensures Lookup(blocks[..numBlocks], code, numCodeBits) == if found then Some(value) else None
  {
    var j := 0;
    while j < numBlocks
      invariant j <= numBlocks
      invariant Lookup(blocks[..numBlocks], code, numCodeBits) == Lookup(blocks[j..numBlocks], code, numCodeBits)
    {
      if blocks[j].code == code && blocks[j].length == numCodeBits {
        return true, blocks[j].value;
      }
      assert blocks[j..numBlocks][1..] == blocks[j + 1..numBlocks];
      j := j + 1;
    }
    return false, 0;
  }

  /**
   * The loop `for (k = 1; k <= maxLen; k++)` of ProcessHuffmanDataUnit:
   * look at the next k bits, and at the first length whose code is in the
   * table skip those k bits and answer the code's value. No code up to maxLen
   * is Ok(None), with nothing consumed.
   */
  method SearchCode(r: Reservoir, t: HuffmanTable, maxLen: nat) returns (res: Result<Option<int>, Fault>)
    requires r.Valid() && TableOk(t) && maxLen <= 16
    modifies r
    ensures r.Valid()
    ensures match FindCode(Used(t), old(r.View()), 1, maxLen)
      case Err(e) => res == Err(e)
      case Ok(None) => res == Ok(None) && r.View() == old(r.View())
      case Ok(Some(p)) => res == Ok(Some(p.0)) && r.View() == old(r.View())[p.1..]
  {
    ghost var s := r.View();
    var k := 1;
    while k <= maxLen
      invariant 1 <= k <= maxLen + 1 && r.Valid() && r.View() == s
      invariant FindCode(Used(t), s, 1, maxLen) == FindCode(Used(t), s, k, maxLen)
    {
      var ok, code := r.Look(k);
      if !ok {
        return Err(Truncated);
      }
      var found, v := IsInHuffmanCodes(code, k, t.numBlocks, t.blocks);
      if found {
        ok := r.Skip(k);
        return Ok(Some(v));
      }
      k := k + 1;
    }
    return Ok(None);
  }

  // ---------------------------------------------------------------------
  // ProcessHuffmanDataUnit

  /**
   * The DC half of ProcessHuffmanDataUnit: the DC code, then its extra bits
   * through DetermineSign added to m_previousDC. The result is DCT_tcoeff[0]
   * and the new m_previousDC.
   */
  method DecodeDcPart(r: Reservoir, t: HuffmanTable, pred: int) returns (res: Result<(int, int), Fault>)
    requires r.Valid() && TableOk(t)
    modifies r
    ensures r.Valid()
    ensures match DecodeDc(old(r.View()), pred, Used(t))
      case Err(e) => res == Err(e)
      case Ok(d) => res == Ok((d.0, d.1)) && r.View() == d.2
  {
    var found := SearchCode(r, t, 15);
    if found.Err? {
      return Err(found.error);
    }
    if found.value.None? {
      return Err(NoDcCode);
    }
    var numDataBits := found.value.value;
    if numDataBits == 0 {
      return Ok((Wrap16(pred), pred));
    }
    if !(1 <= numDataBits <= 15) {
      return Err(Unsupported);
    }
    var ok, data := r.Get(numDataBits);
    if !ok {
      return Err(Truncated);
    }
    var c := Wrap16(Extend(data, numDataBits) + pred);
    return Ok((c, c));
  }

  /**
   * The AC half of ProcessHuffmanDataUnit on DCT_tcoeff, whose entry 0 is
   * already set: decode run/size symbols until EOB or until nr passes 63.
   */
  method DecodeAcPart(r: Reservoir, t: HuffmanTable, coefs: array<int>) returns (res: Result<seq<int>, Fault>)
    requires r.Valid() && TableOk(t) && coefs.Length == 64
    modifies r, coefs
    ensures r.Valid()
    ensures match DecodeAc(old(r.View()), old(coefs[..]), 1, Used(t))
      case Err(e) => res == Err(e)
      case Ok(d) => res == Ok(d.0) && r.View() == d.1
  {
    ghost var goal := DecodeAc(r.View(), coefs[..], 1, Used(t));
    var nr := 1;
    var eob := false;
    while nr <= 63 && !eob
      invariant r.Valid() && nr >= 1
      invariant goal == if eob then Ok((coefs[..], r.View())) else DecodeAc(r.View(), coefs[..], nr, Used(t))
      decreases !eob, Measure(nr), |r.View()|
    {
      var sym := SearchCode(r, t, 16);
      if sym.Err? {
        return Err(sym.error);
      }
      if sym.value.None? {
        nr := nr + 1;
      } else {
        var v := sym.value.value;
        var size, count := AcSize(v), AcRun(v);
        if size == 0 {
          if count == 0 {
            eob := true;
          } else if count == 15 {
            nr := nr + 16;
          }
        } else {
          nr := nr + count;
          if nr > 63 {
            return Err(CoefficientOverrun);
          }
          var ok, data := r.Get(size);
          if !ok {
            return Err(Truncated);
          }
          coefs[nr] := Extend(data, size);
          nr := nr + 1;
        }
      }
    }
    return Ok(coefs[..]);
  }

  /**
   * ProcessHuffmanDataUnit for a component whose m_previousDC is pred and
   * whose tables are dcT and acT: the 64 coefficients of the data unit in
   * zig-zag order (the component's new m_DCT), and its new m_previousDC.
   * Each exit(-1) of the C code is an error here.
   */
  method ProcessHuffmanDataUnit(r: Reservoir, dcT: HuffmanTable, acT: HuffmanTable, pred: int) returns (res: Result<(seq<int>, int), Fault>)
    requires r.Valid() && TableOk(dcT) && TableOk(acT)
    modifies r
    ensures r.Valid()
    ensures match DecodeBlock(old(r.View()), pred, Used(dcT), Used(acT))
      case Err(e) => res == Err(e)
      case Ok(d) => res == Ok((d.0, d.1)) && r.View() == d.2
  {
    var dc := DecodeDcPart(r, dcT, pred);
    if dc.Err? {
      return Err(dc.error);
    }
    var coefs := new int[64](_ => 0);
    coefs[0] := dc.value.0;
    assert coefs[..] == seq(64, k => if k == 0 then dc.value.0 else 0);
    var ac := DecodeAcPart(r, acT, coefs);
    if ac.Err? {
      return Err(ac.error);
    }
    return Ok((ac.value, dc.value.1));
  }

  // ---------------------------------------------------------------------
  // DecodeSingleBlock: the coefficient extraction

  /** JPEG_LOAD_FIND or JPEG_LOAD_READ. */
  datatype Action = Find | Read

  /**
   * The message read_jpeg passes in and DecodeSingleBlock's statics. bit is
   * held as its index: bit == 1 << bitIndex.
   */
  class Extractor {
    const host: Endianness
    const action: Action
    /** message->size's eight bytes in memory, while they are being filled. */
    var sizeMem: seq<byte>
    /** message->data */
    var data: seq<byte>
    /** message->size: the length once converted (FIND), the running count (READ). */
    var size: nat
    var offset: nat
    var bitIndex: nat
    var aloc: bool

    ghost function State(): Finder
      reads this
    {
      Finder(sizeMem, data, offset, bitIndex, aloc, size)
    }

    /** In FIND mode the statics are a valid extraction state; READ mode never allocates. */
    ghost predicate Valid()
      reads this
    {
      (action == Find ==> FinderValid(State())) && (action == Read ==> !aloc)
    }

    /** read_jpeg's msg = { 0x00, NULL } and the statics' initial values: offset 0, bit 1, aloc false. */
    constructor (host: Endianness, action: Action)
      ensures this.host == host && this.action == action
      ensures Valid() && State() == FinderStart()
    {
      this.host := host;
      this.action := action;
      sizeMem := seq(8, _ => 0);
      data := [];
      size := 0;
      offset := 0;
      bitIndex := 0;
      aloc := false;
    }

    /**
     * One eligible coefficient in FIND mode: OR its lowest bit into the
     * current byte, move bit on (and offset when bit wraps), and allocate the
     * message once the eight bytes of the length are complete.
     */
    method Step(lsb: bool)
      requires action == Find && Valid() && !Done(State())
      modifies this
      ensures Valid() && State() == FindStep(host, old(State()), lsb)
    {
      if lsb {
        if aloc {
          data := data[offset := SetBit(data[offset], bitIndex)];
        } else {
          sizeMem := sizeMem[offset := SetBit(sizeMem[offset], bitIndex)];
        }
      }
      if bitIndex == 7 {
        bitIndex := 0;
        offset := offset + 1;
      } else {
        bitIndex := bitIndex + 1;
      }
      assert State() == Advance(old(State()), lsb);
      if offset >= 8 && !aloc {
        Allocate();
      }
    }

    /** message->size = ntohll(message->size), then calloc(message->size + 8) and aloc = true. */
    method Allocate()
      requires |sizeMem| == 8 && bitIndex < 8 && offset >= 8
      modifies this
      ensures FinderValid(State()) && State() == Stego.Allocate(host, old(State()))
    {
      size := Ntohll(host, FromMemory(host, sizeMem)) as int;
      NtohllValue(host, sizeMem);
      data := seq(Limit(size), _ => 0);
      aloc := true;
    }

    /**
     * The extraction loop of DecodeSingleBlock over the zig-zag coefficients
     * du: every coefficient above 1 gives up its lowest bit (FIND) or is
     * counted (READ), until the message is complete.
     */
    method Extract(du: seq<int>)
      requires Valid() && |du| == 64
      modifies this
      ensures Valid()
      ensures action == Find ==> State() == FindFrom(host, du, 0, old(State()))
      ensures action == Read ==> State() == old(State()).(size := old(size) + CountFrom(du, 0))
    {
      ghost var f0 := State();
      var i := 0;
      while i < 64 && !(aloc && offset >= Limit(size))
        invariant i <= 64 && Valid()
        invariant action == Find ==> FindFrom(host, du, 0, f0) == FindFrom(host, du, i, State())
        invariant action == Read ==> State() == f0.(size := size) && size + CountFrom(du, i) == f0.size + CountFrom(du, 0)
      {
        if du[i] > 1 {
          if action == Find {
            Step(du[i] % 2 == 1);
          } else {
            size := size + 1;
          }
        }
        i := i + 1;
      }
    }
  }

  // ---------------------------------------------------------------------
  // Reordering

  /** DeZigZag: outBlock[i] = inBlock[ZigZagArray[i]]. */
  method DeZigZag(outBlock: array<int>, inBlock: seq<int>)
    requires outBlock.Length == 64 && |inBlock| == 64
    modifies outBlock
    ensures outBlock[..] == Gathered(inBlock)
  {
    for i := 0 to 64
      invariant forall j :: 0 <= j < i ==> outBlock[j] == inBlock[ZigZag()[j]]
    {
      outBlock[i] := inBlock[ZigZag()[i]];
    }
    forall j | 0 <= j < 64
      ensures outBlock[j] == Gathered(inBlock)[j]
    {
      GatheredEntries(inBlock, j);
    }
  }

  /** TransformArray: the 64 entries row by row into an 8x8 array indexed [x][y]. */
  method TransformArray(outArray: array2<int>, inArray: seq<int>)
    requires outArray.Length0 == 8 && outArray.Length1 == 8 && |inArray| == 64
    modifies outArray
    ensures forall x, y :: 0 <= x < 8 && 0 <= y < 8 ==> outArray[x, y] == inArray[8 * y + x]
  {
    var cc := 0;
    for y := 0 to 8
      invariant cc == 8 * y
      invariant forall x', y' :: 0 <= x' < 8 && 0 <= y' < y ==> outArray[x', y'] == inArray[8 * y' + x']
    {
      for x := 0 to 8
        invariant cc == 8 * y + x
        invariant forall x', y' :: 0 <= x' < 8 && 0 <= y' < y ==> outArray[x', y'] == inArray[8 * y' + x']
        invariant forall x' :: 0 <= x' < x ==> outArray[x', y] == inArray[8 * y + x']
      {
        outArray[x, y] := inArray[cc];
        cc := cc + 1;
      }
    }
  }
}
