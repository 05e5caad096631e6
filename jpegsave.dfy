/**
 * The baseline encoder of src/jpeg-save.c from the quantised coefficients
 * on: the fixed header segments, the quantisation and Huffman tables it sets
 * up, the zig-zag scatter of each data unit, the embedding of the message in
 * the coefficients above 1, the DC and AC Huffman coding of process_DU, the
 * Y, Cb, Cr order of main_encoder, and the EOI alignment of
 * jpeg_encode_data.
 *
 * The colour conversion, the forward DCT and the division by fdtbl are not
 * modelled: each MCU is given by the three quantised natural-order blocks
 * fdct_and_quantization produces for it.
 */
module JpegSave {
  import opened Common
  import opened Bits
  import opened Coding
  import opened Huffman
  import opened HuffmanBuild
  import opened Tables
  import opened StdTables
  import opened BlockCode
  import opened BitWriter
  import opened Stego
  import opened ZigZagOrder

  // ---------------------------------------------------------------------
  // Quantisation tables

  /** byte_limit: x clamped into lo..255. */
  function ByteLimit(x: int, lo: int): (r: int)
    requires 0 <= lo <= 255
    ensures lo <= r <= 255
    ensures lo <= x <= 255 ==> r == x
    ensures x < lo ==> r == lo
    ensures x > 255 ==> r == 255
  {
    if x < lo then lo else if x > 255 then 255 else x
  }

  /** One entry of set_quant_table: the base entry scaled by scale percent, rounded, at least 1. */
  function QuantEntry(b: nat, scale: nat): (r: int)
  {
    ByteLimit((b * scale + 50) / 100, 1)
  }

  /** The entry fits a byte, and with scalefactor 1 every base entry below 150 gives 1. */
  lemma QuantEntryRange(b: nat, scale: nat)
    ensures 1 <= QuantEntry(b, scale) <= 255
    ensures scale == 1 && b < 150 ==> QuantEntry(b, scale) == 1
  {
  }

  /** set_quant_table: newtable[zigzag[i]] = byte_limit((basic_table[i] * scale_factor + 50) / 100, 1). */
  method SetQuantTable(base: seq<int>, scale: nat, table: array<byte>)
    requires |base| == 64 && table.Length == 64
    requires forall i :: 0 <= i < 64 ==> 0 <= base[i]
    modifies table
    ensures forall i :: 0 <= i < 64 ==> 0 <= ZigZag()[i] < 64 && table[ZigZag()[i]] == QuantEntry(base[i], scale) as byte
  {
    ZigZagIsPermutation();
    var i := 0;
    while i < 64
      invariant 0 <= i <= 64
      invariant forall j :: 0 <= j < i ==> table[ZigZag()[j]] == QuantEntry(base[j], scale) as byte
    {
      var q := QuantEntry(base[i], scale);
      QuantEntryRange(base[i], scale);
      table[ZigZag()[i]] := q as byte;
      i := i + 1;
    }
  }

  /** The quantisation table of scalefactor 1: every entry 1, so that quantisation keeps the DCT's values. */
  function UnitQt(): (r: seq<byte>)
    ensures |r| == 64 && forall k :: 0 <= k < 64 ==> r[k] == 1
  {
    seq(64, _ => 1)
  }

  /** A zig-zag ordered table of scalefactor-1 entries over a base table below 150 is all ones. */
  lemma {:induction false} UnitTable(table: seq<byte>, base: seq<int>)
    requires |table| == 64 && |base| == 64
    requires forall i :: 0 <= i < 64 ==> 0 <= base[i] < 150
    requires forall i :: 0 <= i < 64 ==> 0 <= ZigZag()[i] < 64 && table[ZigZag()[i]] == QuantEntry(base[i], 1) as byte
    ensures table == UnitQt()
  {
    UnZigZagInverse();
    forall k | 0 <= k < 64
      ensures table[k] == 1
    {
      var i := UnZigZag()[k];
      QuantEntryRange(base[i], 1);
    }
  }

  /** set_DQTinfo: with scalefactor 1 both tables hold 1 in every entry. */
  method SetDQTinfo() returns (yTable: seq<byte>, cbTable: seq<byte>)
    ensures yTable == UnitQt() && cbTable == UnitQt()
  {
    StdQuantBounds();
    var y := new byte[64];
    SetQuantTable(StdLuminanceQt(), 1, y);
    UnitTable(y[..], StdLuminanceQt());
    var cb := new byte[64];
    SetQuantTable(StdChrominanceQt(), 1, cb);
    UnitTable(cb[..], StdChrominanceQt());
    yTable, cbTable := y[..], cb[..];
  }

  // ---------------------------------------------------------------------
  // Huffman tables

  /** Every code of a table has at most 16 bits, as writebits requires. */
  predicate Short(t: seq<Bitstring>)
  {
    forall k :: 0 <= k < |t| ==> t[k].length <= 16
  }

  /** compute_Huffman_table writes codes of 1..16 bits only. */
  lemma {:induction false} AssignedShort(ht: seq<Bitstring>, bits: seq<int>, vals: seq<int>, n: nat)
    requires IsHistogram(bits) && n <= Total(bits) && n <= |vals|
    requires forall p :: 0 <= p < n ==> 0 <= vals[p] < |ht|
    requires Short(ht)
    ensures Short(Assigned(ht, bits, vals, n))
  {
    if n > 0 {
      AssignedShort(ht, bits, vals, n - 1);
      LevelBounds(bits, n - 1);
    }
  }

  /** The encoder's standard DC tables have codes of at most 16 bits. */
  lemma DcShort(luminance: bool)
    ensures Short(EncoderDc(luminance))
  {
    DcLuminanceBitsTotal();
    DcChrominanceBitsTotal();
    AssignedShort(ZeroTable(12), DcBits(luminance), DcValues(), 12);
    assert EncoderDc(luminance) == DcTable(DcBits(luminance));
  }

  /** The encoder's standard AC tables have codes of at most 16 bits. */
  lemma AcShort(luminance: bool)
    ensures Short(EncoderAc(luminance))
  {
    AcLuminanceBitsTotal();
    AcChrominanceBitsTotal();
    AcValuesRanked();
    AssignedShort(ZeroTable(256), AcBits(luminance), AcValues(luminance), 162);
    assert EncoderAc(luminance) == AcTable(AcBits(luminance), AcValues(luminance));
  }

  /** compute_Huffman_table on a zeroed DC table. */
  method ComputeDcTable(bits: seq<int>) returns (t: seq<Bitstring>)
    requires IsHistogram(bits) && Total(bits) == 12
    ensures t == DcTable(bits)
  {
    var a := new Bitstring[12](_ => Bitstring(0, 0));
    assert a[..] == ZeroTable(12);
    ComputeHuffmanTable(bits, DcValues(), a);
    t := a[..];
  }

  /** compute_Huffman_table on a zeroed AC table. */
  method ComputeAcTable(bits: seq<int>, vals: seq<int>) returns (t: seq<Bitstring>)
    requires IsHistogram(bits) && Total(bits) == 162 && |vals| == 162
    requires forall p :: 0 <= p < 162 ==> 0 <= vals[p] < 256
    ensures t == AcTable(bits, vals)
  {
    var a := new Bitstring[256](_ => Bitstring(0, 0));
    assert a[..] == ZeroTable(256);
    ComputeHuffmanTable(bits, vals, a);
    t := a[..];
  }

  /** The histograms and symbol lists the encoder's tables are computed from. */
  lemma EncoderSources(luminance: bool)
    ensures IsHistogram(DcBits(luminance)) && Total(DcBits(luminance)) == 12
    ensures IsHistogram(AcBits(luminance)) && Total(AcBits(luminance)) == 162 && |AcValues(luminance)| == 162
    ensures forall p :: 0 <= p < 162 ==> 0 <= AcValues(luminance)[p] < 256
    ensures EncoderDc(luminance) == DcTable(DcBits(luminance))
    ensures EncoderAc(luminance) == AcTable(AcBits(luminance), AcValues(luminance))
  {
    DcLuminanceBitsTotal();
    DcChrominanceBitsTotal();
    AcLuminanceBitsTotal();
    AcChrominanceBitsTotal();
    AcValuesRanked();
  }

  /** init_Huffman_tables: compute_Huffman_table into each of the four zero-initialised static tables. */
  method InitHuffmanTables() returns (yDc: seq<Bitstring>, cbDc: seq<Bitstring>, yAc: seq<Bitstring>, cbAc: seq<Bitstring>)
    ensures yDc == EncoderDc(true) && cbDc == EncoderDc(false)
    ensures yAc == EncoderAc(true) && cbAc == EncoderAc(false)
  {
    EncoderSources(true);
    EncoderSources(false);
    yDc := ComputeDcTable(DcBits(true));
    cbDc := ComputeDcTable(DcBits(false));
    yAc := ComputeAcTable(AcBits(true), AcValues(true));
    cbAc := ComputeAcTable(AcBits(false), AcValues(false));
  }

  // ---------------------------------------------------------------------
  // Header segments

  /** The bytes of write_APP0info: JFIF 1.1, no units, density 1 by 1, no thumbnail. */
  function App0(): seq<byte>
  {
    Word(0xFFE0) + Word(16) + [0x4A, 0x46, 0x49, 0x46, 0] + [1, 1, 0] + Word(1) + Word(1) + [0, 0]
  }

  /** The bytes of write_SOF0info for an image of width w and height h (both uint16_t fields). */
  function Sof0(w: nat, h: nat): seq<byte>
    requires w < 65536 && h < 65536
  {
    Word(0xFFC0) + Word(17) + [8] + Word(h) + Word(w) + [3, 1, 0x11, 0, 2, 0x11, 1, 3, 0x11, 1]
  }

  /** The bytes of write_DQTinfo: table 0 for Y, then table 1 for Cb and Cr, each 64 bytes. */
  function Dqt(y: seq<byte>, cb: seq<byte>): seq<byte>
  {
    Word(0xFFDB) + Word(132) + [0] + y + [1] + cb
  }

  /** One table of a DHT segment: its class and number, its 16 code counts, its symbols. */
  datatype HuffSpec = HuffSpec(info: byte, counts: seq<byte>, values: seq<byte>)

  /** The counts nrcodes[1..16] as set_DHTinfo copies them. */
  function Counts(bits: seq<int>): (r: seq<byte>)
    requires IsHistogram(bits)
    ensures |r| == 16
  {
    seq(16, i requires 0 <= i < 16 => bits[i + 1] as byte)
  }

  /** A symbol list as bytes. */
  function ValueBytes(vals: seq<int>): (r: seq<byte>)
    requires forall i :: 0 <= i < |vals| ==> 0 <= vals[i] < 256
    ensures |r| == |vals|
  {
    seq(|vals|, i requires 0 <= i < |vals| => vals[i] as byte)
  }

  /** The four tables of DHTinfo: Y DC (0), Y AC (0x10), Cb DC (1), Cb AC (0x11). */
  function StdSpecs(): (r: seq<HuffSpec>)
    ensures |r| == 4
  {
    EncoderSources(true);
    EncoderSources(false);
    [ HuffSpec(0x00, Counts(DcBits(true)), ValueBytes(DcValues())),
      HuffSpec(0x10, Counts(AcBits(true)), ValueBytes(AcValues(true))),
      HuffSpec(0x01, Counts(DcBits(false)), ValueBytes(DcValues())),
      HuffSpec(0x11, Counts(AcBits(false)), ValueBytes(AcValues(false))) ]
  }

  function SpecBytes(s: HuffSpec): seq<byte>
  {
    [s.info] + s.counts + s.values
  }

  /** The bytes of write_DHTinfo. */
  function Dht(specs: seq<HuffSpec>): seq<byte>
    requires |specs| == 4
  {
    Word(0xFFC4) + Word(0x01A2) + SpecBytes(specs[0]) + SpecBytes(specs[1]) + SpecBytes(specs[2]) + SpecBytes(specs[3])
  }

  /** The counts loop of set_DHTinfo: nrcodes[i] = std_nrcodes[i + 1] for i below 16. */
  method CopyCounts(bits: seq<int>) returns (r: seq<byte>)
    requires IsHistogram(bits)
    ensures r == Counts(bits)
  {
    r := [];
    var i := 0;
    while i < 16
      invariant 0 <= i <= 16 && r == Counts(bits)[..i]
    {
      r := r + [bits[i + 1] as byte];
      i := i + 1;
    }
  }

  /** The values loop of set_DHTinfo: values[i] = std_values[i] for every symbol. */
  method CopyValues(vals: seq<int>) returns (r: seq<byte>)
    requires forall i :: 0 <= i < |vals| ==> 0 <= vals[i] < 256
    ensures r == ValueBytes(vals)
  {
    r := [];
    var i := 0;
    while i < |vals|
      invariant 0 <= i <= |vals| && r == ValueBytes(vals)[..i]
    {
      r := r + [vals[i] as byte];
      i := i + 1;
    }
  }

  /** set_DHTinfo: the four standard tables, counts and symbols, with their class and number. */
  method SetDHTinfo() returns (specs: seq<HuffSpec>)
    ensures specs == StdSpecs()
  {
    EncoderSources(true);
    EncoderSources(false);
    var ydcCounts := CopyCounts(DcBits(true));
    var ydcValues := CopyValues(DcValues());
    var yacCounts := CopyCounts(AcBits(true));
    var yacValues := CopyValues(AcValues(true));
    var cdcCounts := CopyCounts(DcBits(false));
    var cdcValues := CopyValues(DcValues());
    var cacCounts := CopyCounts(AcBits(false));
    var cacValues := CopyValues(AcValues(false));
    specs := [ HuffSpec(0x00, ydcCounts, ydcValues), HuffSpec(0x10, yacCounts, yacValues),
               HuffSpec(0x01, cdcCounts, cdcValues), HuffSpec(0x11, cacCounts, cacValues) ];
  }

  /** The bytes of write_SOSinfo: three components with tables 0/0, 1/1, 1/1, spectral range 0..63. */
  function Sos(): seq<byte>
  {
    Word(0xFFDA) + Word(12) + [3, 1, 0, 2, 0x11, 3, 0x11, 0, 0x3F, 0]
  }

  /** Everything jpeg_encode_data writes before the entropy-coded data: SOI, APP0, DQT, SOF0, DHT, SOS. */
  function Header(w: nat, h: nat): seq<byte>
    requires w < 65536 && h < 65536
  {
    Word(0xFFD8) + App0() + Dqt(UnitQt(), UnitQt()) + Sof0(w, h) + Dht(StdSpecs()) + Sos()
  }

  /** A segment's length field, after its two-byte marker, counts the bytes after the marker. */
  predicate LengthField(seg: seq<byte>)
  {
    4 <= |seg| < 65538 && seg[2..4] == Word(|seg| - 2)
  }

  /**
   * Each fixed segment's length field is right, so a reader skipping a
   * segment by its length lands on the next marker.
   */
  lemma App0Length()
    ensures |App0()| == 18 && LengthField(App0())
  {
    assert App0()[2..4] == Word(16);
  }

  lemma Sof0Length(w: nat, h: nat)
    requires w < 65536 && h < 65536
    ensures |Sof0(w, h)| == 19 && LengthField(Sof0(w, h))
  {
    assert Sof0(w, h)[2..4] == Word(17);
  }

  lemma DqtLength(y: seq<byte>, cb: seq<byte>)
    requires |y| == 64 && |cb| == 64
    ensures |Dqt(y, cb)| == 134 && LengthField(Dqt(y, cb))
  {
    assert Dqt(y, cb)[2..4] == Word(132);
  }

  lemma DhtLength()
    ensures |Dht(StdSpecs())| == 420 && LengthField(Dht(StdSpecs()))
  {
    assert Dht(StdSpecs())[2..4] == Word(0x01A2);
  }

  lemma SosLength()
    ensures |Sos()| == 14 && LengthField(Sos())
  {
    assert Sos()[2..4] == Word(12);
  }

  // ---------------------------------------------------------------------
  // The scan

  /** One MCU: the quantised Y, Cb and Cr blocks of an 8x8 square, in natural order. */
  datatype Mcu = Mcu(y: seq<int>, cb: seq<int>, cr: seq<int>)

  predicate McuValid(m: Mcu)
  {
    IsBlock(m.y) && IsBlock(m.cb) && IsBlock(m.cr)
  }

  /** DCY, DCCb and DCCr, and how many message bits process_DU has embedded. */
  datatype ScanState = ScanState(dcY: int, dcCb: int, dcCr: int, pos: nat)

  predicate StateOk(st: ScanState)
  {
    IsInt16(st.dcY) && IsInt16(st.dcCb) && IsInt16(st.dcCr)
  }

  /** What a stretch of the scan produces: its bits, its embedded blocks in coding order, the state after it. */
  datatype Scanned = Scanned(bits: seq<bool>, units: seq<seq<int>>, end: ScanState)

  /** The natural-order coefficients become the block process_DU codes. */
  lemma ScatteredBlock(x: seq<int>)
    requires IsBlock(x)
    ensures IsBlock(Scattered(x))
  {
    forall k | 0 <= k < 64
      ensures IsInt16(Scattered(x)[k])
    {
      ScatteredEntries(x, k);
    }
  }

  /** The embedding keeps a block's coefficients in int16_t and their categories. */
  lemma EmbeddedBlock(du: seq<int>, bits: seq<bool>, pos: nat)
    requires IsBlock(du)
    ensures var e := EmbedFrom(du, 0, bits, pos).0;
      IsBlock(e) && forall k :: 0 <= k < 64 ==> Category(e[k]) == Category(du[k])
  {
    var e := EmbedFrom(du, 0, bits, pos);
    EmbedKeeps(du, 0, bits, pos, e);
    forall k | 0 <= k < 64
      ensures IsInt16(e.0[k]) && Category(e.0[k]) == Category(du[k])
    {
      if du[k] > 1 {
        SameCategory(e.0[k], du[k]);
      }
    }
  }

  /** Two coefficients above 1 that differ only in their lowest bit have one category. */
  lemma SameCategory(a: int, b: int)
    requires a > 1 && b > 1 && a / 2 == b / 2
    ensures Category(a) == Category(b)
  {
    assert Abs(a) == a && Abs(b) == b;
    assert Magnitude(a) == 1 + Magnitude(a / 2);
    assert Magnitude(b) == 1 + Magnitude(b / 2);
  }

  /**
   * process_DU on the natural-order block dct with the predictor pred and the
   * tables dcT, acT, bits pos on of the message embedded: the bits written,
   * the block as coded, and the position after it.
   */
  function CodeUnit(dct: seq<int>, pred: int, dcT: seq<Bitstring>, acT: seq<Bitstring>, bits: seq<bool>, pos: nat): (r: Result<(seq<bool>, seq<int>, nat), Fault>)
    requires IsBlock(dct) && IsInt16(pred) && |dcT| == 12 && |acT| == 256
    ensures r.Ok? ==> IsBlock(r.value.1) && IsInt16(r.value.1[0]) && pos <= r.value.2
  {
    ScatteredBlock(dct);
    var e := EmbedFrom(Scattered(dct), 0, bits, pos);
    EmbeddedBlock(Scattered(dct), bits, pos);
    var codes :- EncodeBlock(e.0, pred, dcT, acT);
    Ok((Flatten(codes), e.0, e.1))
  }

  /** YDC_HT, YAC_HT, CbDC_HT and CbAC_HT (Cr shares the Cb tables). */
  datatype HuffTables = HuffTables(yDc: seq<Bitstring>, yAc: seq<Bitstring>, cDc: seq<Bitstring>, cAc: seq<Bitstring>)

  predicate Sized(t: HuffTables)
  {
    |t.yDc| == 12 && |t.yAc| == 256 && |t.cDc| == 12 && |t.cAc| == 256
  }

  /** The tables init_Huffman_tables computes. */
  function StdHuffTables(): (t: HuffTables)
    ensures Sized(t)
  {
    HuffTables(EncoderDc(true), EncoderAc(true), EncoderDc(false), EncoderAc(false))
  }

  /** The three process_DU calls of main_encoder for one MCU. */
  function McuCode(m: Mcu, st: ScanState, t: HuffTables, bits: seq<bool>): (r: Result<Scanned, Fault>)
    requires McuValid(m) && StateOk(st) && Sized(t)
    ensures r.Ok? ==> StateOk(r.value.end) && |r.value.units| == 3 && st.pos <= r.value.end.pos
    ensures r.Ok? ==> forall n :: 0 <= n < 3 ==> IsBlock(r.value.units[n])
  {
    var y :- CodeUnit(m.y, st.dcY, t.yDc, t.yAc, bits, st.pos);
    var cb :- CodeUnit(m.cb, st.dcCb, t.cDc, t.cAc, bits, y.2);
    var cr :- CodeUnit(m.cr, st.dcCr, t.cDc, t.cAc, bits, cb.2);
    Ok(Scanned(y.0 + cb.0 + cr.0, [y.1, cb.1, cr.1], ScanState(y.1[0], cb.1[0], cr.1[0], cr.2)))
  }

  /** Every MCU of the raster holds three blocks of int16_t coefficients. */
  predicate McusValid(mcus: seq<Mcu>)
  {
    forall m :: 0 <= m < |mcus| ==> McuValid(mcus[m])
  }

  /**
   * main_encoder over the MCUs mcus in raster order from state st: all the
   * bits of the scan and its blocks in coding order, or the first failure.
   */
  function Scan(mcus: seq<Mcu>, st: ScanState, t: HuffTables, bits: seq<bool>): (r: Result<Scanned, Fault>)
    requires McusValid(mcus) && StateOk(st) && Sized(t)
    ensures r.Ok? ==> StateOk(r.value.end) && |r.value.units| == 3 * |mcus| && st.pos <= r.value.end.pos
    ensures r.Ok? ==> forall n :: 0 <= n < |r.value.units| ==> IsBlock(r.value.units[n])
    decreases |mcus|
  {
    if mcus == [] then Ok(Scanned([], [], st))
    else
      var p :- Scan(mcus[..|mcus| - 1], st, t, bits);
      var h :- McuCode(mcus[|mcus| - 1], p.end, t, bits);
      Ok(Scanned(p.bits + h.bits, p.units + h.units, h.end))
  }

  /** The scan of the first k MCUs from st has produced r. */
  ghost predicate Reached(mcus: seq<Mcu>, k: nat, st: ScanState, t: HuffTables, bits: seq<bool>, r: Scanned)
  {
    k <= |mcus| && McusValid(mcus) && StateOk(st) && Sized(t) && Scan(mcus[..k], st, t, bits) == Ok(r)
  }

  /** The scan of mcus from st fails. */
  ghost predicate Stopped(mcus: seq<Mcu>, st: ScanState, t: HuffTables, bits: seq<bool>)
  {
    McusValid(mcus) && StateOk(st) && Sized(t) && Scan(mcus, st, t, bits).Err?
  }

  /** The scan of the first k + 1 MCUs: the scan of the first k, then MCU k's three blocks. */
  lemma ScanNext(mcus: seq<Mcu>, k: nat, st: ScanState, t: HuffTables, bits: seq<bool>, p: Scanned)
    requires k < |mcus| && McusValid(mcus) && StateOk(st) && Sized(t)
    requires Scan(mcus[..k], st, t, bits) == Ok(p)
    ensures StateOk(p.end) && McuValid(mcus[k])
    ensures var h := McuCode(mcus[k], p.end, t, bits);
      Scan(mcus[..k + 1], st, t, bits) ==
        if h.Err? then Err(h.error) else Ok(Scanned(p.bits + h.value.bits, p.units + h.value.units, h.value.end))
  {
    assert mcus[..k + 1][..k] == mcus[..k];
    assert mcus[..k + 1][k] == mcus[k];
  }

  /** Once a prefix of the MCUs fails to code, the whole scan fails. */
  lemma {:induction false} ScanStopped(mcus: seq<Mcu>, k: nat, st: ScanState, t: HuffTables, bits: seq<bool>)
    requires k <= |mcus| && McusValid(mcus) && StateOk(st) && Sized(t)
    requires Scan(mcus[..k], st, t, bits).Err?
    ensures Scan(mcus, st, t, bits).Err?
    decreases |mcus| - k
  {
    if k == |mcus| {
      assert mcus[..k] == mcus;
    } else {
      assert mcus[..k + 1][..k] == mcus[..k];
      ScanStopped(mcus, k + 1, st, t, bits);
    }
  }

  /** init_all, less the colour and fdtbl tables: the quantisation tables, DHTinfo and the four Huffman tables. */
  method InitAll() returns (yQt: seq<byte>, cbQt: seq<byte>, dht: seq<HuffSpec>, tables: HuffTables)
    ensures yQt == UnitQt() && cbQt == UnitQt()
    ensures dht == StdSpecs()
    ensures tables == StdHuffTables() && Sized(tables) && AllShort(tables)
  {
    yQt, cbQt := SetDQTinfo();
    dht := SetDHTinfo();
    var ydc, cdc, yac, cac := InitHuffmanTables();
    DcShort(true);
    DcShort(false);
    AcShort(true);
    AcShort(false);
    tables := HuffTables(ydc, yac, cdc, cac);
  }

  /** The zig-zag reorder of process_DU: DU[zigzag[i]] = DU_DCT[i]. */
  method Scatter(dct: seq<int>, du: array<int>)
    requires |dct| == 64 && du.Length == 64
    modifies du
    ensures du[..] == Scattered(dct)
  {
    ZigZagIsPermutation();
    var i := 0;
    while i <= 63
      invariant 0 <= i <= 64
      invariant forall j :: 0 <= j < i ==> du[ZigZag()[j]] == dct[j]
    {
      du[ZigZag()[i]] := dct[i];
      i := i + 1;
    }
    UnZigZagInverse();
    forall k | 0 <= k < 64
      ensures du[k] == Scattered(dct)[k]
    {
      ScatteredEntries(dct, k);
      assert ZigZag()[UnZigZag()[k]] == k;
    }
  }

  /** Codes of at most 16 bits in all four tables. */
  predicate AllShort(t: HuffTables)
  {
    Short(t.yDc) && Short(t.yAc) && Short(t.cDc) && Short(t.cAc)
  }

  /**
   * The encoder's statics: the output stream with writebits' bytenew and
   * bytepos, the message, the four Huffman tables, the two quantisation
   * tables, and process_DU's static offset and bit.
   */
  class Encoder {
    /** message->data and message->size. */
    const msgData: seq<byte>
    const msgSize: nat
    /** YDC_HT, YAC_HT, CbDC_HT and CbAC_HT. */
    const tables: HuffTables
    /** DQTinfo.Ytable and DQTinfo.Cbtable. */
    const yQt: seq<byte>
    const cbQt: seq<byte>
    /** DHTinfo. */
    const dht: seq<HuffSpec>
    /** process_DU's static offset: the message byte being embedded. */
    var offset: nat
    /** process_DU's static bit, as the index of its one set bit. */
    var bitIndex: nat

    /** message->size + 8, the number of message bytes embedded. */
    const lim: nat
    /** The bits the embedding loop draws on: those lim bytes, each least significant bit first. */
    ghost const bits: seq<bool>

    /** What the constructor fixes: the message bits and the tables. */
    ghost predicate Ready()
    {
      && lim == Limit(msgSize) <= |msgData|
      && bits == Stream(msgData[..lim])
      && Sized(tables) && AllShort(tables)
    }

    /** offset and bit never run past the message bits. */
    ghost predicate Valid()
      reads this
    {
      bitIndex < 8 && Pos() <= |bits|
    }

    /** How many message bits have been embedded. */
    ghost function Pos(): nat
      reads this
    {
      8 * offset + bitIndex
    }

    /**
     * The statics for the message (data, size) with the tables init_all
     * computed; offset and bit start at 0 and 1.
     */
    constructor (data: seq<byte>, size: nat, y: seq<byte>, cb: seq<byte>, d: seq<HuffSpec>, t: HuffTables)
      requires Limit(size) <= |data| && Sized(t) && AllShort(t)
      ensures Ready() && Valid() && msgData == data && msgSize == size && Pos() == 0
      ensures tables == t && yQt == y && cbQt == cb && dht == d
    {
      msgData, msgSize := data, size;
      lim := Limit(size);
      bits := Stream(data[..Limit(size)]);
      tables := t;
      yQt, cbQt, dht := y, cb, d;
      offset, bitIndex := 0, 0;
    }

    /**
     * The embedding loop of process_DU: while offset < message->size + 8,
     * every coefficient above 1 takes the next message bit as its lowest bit.
     */
    method EmbedDU(du: array<int>)
      requires Ready() && Valid() && du.Length == 64
      modifies this, du
      ensures Valid()
      ensures (du[..], Pos()) == EmbedFrom(old(du[..]), 0, bits, old(Pos()))
    {
      ghost var d0, p0 := du[..], Pos();
      var i := 0;
      while i < 64 && offset < lim
        invariant 0 <= i <= 64 && Valid()
        invariant EmbedFrom(d0, 0, bits, p0) == EmbedFrom(du[..], i, bits, Pos())
      {
        ghost var before, p := du[..], Pos();
        if du[i] > 1 {
          StreamBit(msgData[..lim], offset, bitIndex);
          var v := BitOf(msgData[offset], bitIndex);
          EmbedTakes(before, i, bits, p, v);
          du[i] := SetLsb(du[i], v);
          assert du[..] == before[i := SetLsb(before[i], v)];
          if bitIndex == 7 {
            bitIndex := 0;
            offset := offset + 1;
          } else {
            bitIndex := bitIndex + 1;
          }
          assert Pos() == p + 1;
        } else {
          EmbedSkips(before, i, bits, p);
        }
        i := i + 1;
      }
    }
  }

  /** A coefficient above 1 takes the next message bit. */
  lemma EmbedTakes(du: seq<int>, i: nat, bits: seq<bool>, p: nat, v: bool)
    requires i < |du| && du[i] > 1 && p < |bits| && v == bits[p]
    ensures EmbedFrom(du, i, bits, p) == EmbedFrom(du[i := SetLsb(du[i], v)], i + 1, bits, p + 1)
  {
  }

  /** A coefficient of 1 or less is passed over. */
  lemma EmbedSkips(du: seq<int>, i: nat, bits: seq<bool>, p: nat)
    requires i < |du| && du[i] <= 1 && p < |bits|
    ensures EmbedFrom(du, i, bits, p) == EmbedFrom(du, i + 1, bits, p)
  {
  }

  /** The DC part of process_DU for diff = DU[0] - *DC. */
  method CodeDc(w: Writer, diff: int, dcT: seq<Bitstring>) returns (ok: bool)
    requires w.Valid() && IsInt16(diff) && |dcT| == 12 && Short(dcT)
    modifies w
    ensures w.Valid() && w.head == old(w.head)
    ensures ok <==> DcCodes(diff, dcT).Ok?
    ensures ok ==> w.Sent() == old(w.Sent()) + Flatten(DcCodes(diff, dcT).value)
  {
    if diff == 0 {
      w.WriteBits(dcT[0]);
      FlattenOne(dcT[0]);
    } else {
      if diff == -32768 || Category(diff) >= 12 {
        return false;
      }
      CategoryBound(diff);
      WritePair(w, dcT[Category(diff)], Bitcode(diff));
    }
    return true;
  }

  /** The AC part of process_DU: end0pos, the runs of zeros with their ZRL markers, the coefficients, EOB. */
  method CodeAc(w: Writer, du: seq<int>, acT: seq<Bitstring>) returns (ok: bool)
    requires w.Valid() && IsBlock(du) && |acT| == 256 && Short(acT)
    modifies w
    ensures w.Valid() && w.head == old(w.head)
    ensures ok <==> AcPass(du, acT).Ok?
    ensures ok ==> w.Sent() == old(w.Sent()) + Flatten(AcPass(du, acT).value)
  {
    ghost var s0 := w.Sent();
    var e := 63;
    while e > 0 && du[e] == 0
      invariant 0 <= e <= 63 && End0(du, 63) == End0(du, e)
    {
      e := e - 1;
    }
    if e == 0 {
      w.WriteBits(acT[0x00]);
      FlattenOne(acT[0x00]);
      return true;
    }
    var runsOk := CodeRuns(w, du, acT, e);
    if !runsOk {
      return false;
    }
    ghost var done := AcCodes(du, acT, 1, e).value;
    if e != 63 {
      w.WriteBits(acT[0x00]);
      FlattenAppend(done, [acT[0x00]]);
      FlattenOne(acT[0x00]);
      AppendAssoc(s0, Flatten(done), Flatten([acT[0x00]]));
      assert AcPass(du, acT) == Ok(done + [acT[0x00]]);
    } else {
      assert AcPass(du, acT) == Ok(done + []);
      assert done + [] == done;
    }
    return true;
  }

  /** The loop over the coefficients 1..end0pos of process_DU: the ZRLs, run/size codes and bits. */
  method CodeRuns(w: Writer, du: seq<int>, acT: seq<Bitstring>, e: nat) returns (ok: bool)
    requires w.Valid() && IsBlock(du) && |acT| == 256 && Short(acT)
    requires 1 <= e <= 63 && du[e] != 0
    modifies w
    ensures w.Valid() && w.head == old(w.head)
    ensures ok <==> AcCodes(du, acT, 1, e).Ok?
    ensures ok ==> w.Sent() == old(w.Sent()) + Flatten(AcCodes(du, acT, 1, e).value)
  {
    ghost var s0 := w.Sent();
    ghost var done: seq<Bitstring> := [];
    var i := 1;
    assert Codes(done, AcCodes(du, acT, i, e)) == AcCodes(du, acT, i, e) by {
      if AcCodes(du, acT, i, e).Ok? {
        assert [] + AcCodes(du, acT, i, e).value == AcCodes(du, acT, i, e).value;
      }
    }
    while i <= e
      invariant 1 <= i <= e + 1
      invariant w.Valid() && w.head == old(w.head) && w.Sent() == s0 + Flatten(done)
      invariant AcCodes(du, acT, 1, e) == Codes(done, AcCodes(du, acT, i, e))
    {
      var ok, next, done' := CodeRunStep(w, du, acT, i, e, s0, done);
      if !ok {
        return false;
      }
      done := done';
      i := next;
    }
    assert AcCodes(du, acT, i, e) == Ok([]);
    assert done + [] == done;
    return true;
  }

  /** One pass of the AC loop, with the codes written so far (done) and those still to come. */
  method CodeRunStep(w: Writer, du: seq<int>, acT: seq<Bitstring>, i: nat, e: nat,
                     ghost s0: seq<bool>, ghost done: seq<Bitstring>)
    returns (ok: bool, next: nat, ghost done': seq<Bitstring>)
    requires w.Valid() && IsBlock(du) && |acT| == 256 && Short(acT)
    requires 1 <= i <= e <= 63 && du[e] != 0
    requires w.Sent() == s0 + Flatten(done)
    requires AcCodes(du, acT, 1, e) == Codes(done, AcCodes(du, acT, i, e))
    modifies w
    ensures w.Valid() && w.head == old(w.head)
    ensures i < next <= e + 1
    ensures !ok ==> AcCodes(du, acT, 1, e).Err?
    ensures ok ==> w.Sent() == s0 + Flatten(done')
    ensures ok ==> AcCodes(du, acT, 1, e) == Codes(done', AcCodes(du, acT, next, e))
  {
    done' := done;
    ok, next := CodeRun(w, du, acT, i, e);
    if !ok {
      AcCodesHead(du, acT, i, e);
      return;
    }
    RunAdvance(du, acT, i, e, done);
    AppendAssoc(s0, Flatten(done), Flatten(RunCodes(du, acT, i, e)));
    done' := done + RunCodes(du, acT, i, e);
  }

  /**
   * One pass of the AC loop from startpos = i: the zeros up to the next
   * nonzero coefficient, one ZRL per 16 of them, then the coefficient's
   * run/size code and its bits; the loop goes on after the coefficient.
   */
  method CodeRun(w: Writer, du: seq<int>, acT: seq<Bitstring>, i: nat, e: nat) returns (ok: bool, next: nat)
    requires w.Valid() && IsBlock(du) && |acT| == 256 && Short(acT)
    requires 1 <= i <= e <= 63 && du[e] != 0
    modifies w
    ensures w.Valid() && w.head == old(w.head)
    ensures next == NextNonzero(du, i, e) + 1
    ensures ok <==> du[next - 1] != -32768
    ensures ok ==> w.Sent() == old(w.Sent()) + Flatten(RunCodes(du, acT, i, e))
  {
    var j := i;
    while du[j] == 0 && j <= e
      invariant i <= j <= NextNonzero(du, i, e)
    {
      j := j + 1;
    }
    assert j == NextNonzero(du, i, e);
    next := j + 1;
    if du[j] == -32768 {
      return false, next;
    }
    var nrzeroes := j - i;
    CategoryBound(du[j]);
    ghost var zrls := Repeat(acT[0xF0], nrzeroes / 16);
    ghost var c, d := acT[RunSize(nrzeroes % 16, du[j])], Bitcode(du[j]);
    assert RunCodes(du, acT, i, e) == zrls + [c, d];
    ghost var s1 := w.Sent();
    if nrzeroes >= 16 {
      Zrls(w, acT[0xF0], nrzeroes / 16);
      nrzeroes := nrzeroes % 16;
    } else {
      assert zrls == [] && s1 + Flatten(zrls) == s1 && nrzeroes % 16 == nrzeroes;
    }
    WritePair(w, acT[RunSize(nrzeroes, du[j])], Bitcode(du[j]));
    AppendAssoc(s1, Flatten(zrls), Flatten([c, d]));
    FlattenAppend(zrls, [c, d]);
    return true, next;
  }

  /** Two writebits calls in a row: a code and the extra bits that follow it. */
  method WritePair(w: Writer, c: Bitstring, d: Bitstring)
    requires w.Valid() && c.length <= 16 && d.length <= 16
    modifies w
    ensures w.Valid() && w.head == old(w.head)
    ensures w.Sent() == old(w.Sent()) + Flatten([c, d])
  {
    w.WriteBits(c);
    w.WriteBits(d);
    AppendAssoc(old(w.Sent()), ToBits(c.value, c.length), ToBits(d.value, d.length));
    DcCodeBits(c, d);
  }

  /** The ZRL loop: writebits(M16zeroes) for nrmarker = 1..n. */
  method Zrls(w: Writer, zrl: Bitstring, n: nat)
    requires w.Valid() && zrl.length <= 16
    modifies w
    ensures w.Valid() && w.head == old(w.head)
    ensures w.Sent() == old(w.Sent()) + Flatten(Repeat(zrl, n))
  {
    var nrmarker := 1;
    while nrmarker <= n
      invariant 1 <= nrmarker <= n + 1
      invariant w.Valid() && w.head == old(w.head)
      invariant w.Sent() == old(w.Sent()) + Flatten(Repeat(zrl, nrmarker - 1))
    {
      w.WriteBits(zrl);
      FlattenAppend(Repeat(zrl, nrmarker - 1), [zrl]);
      FlattenOne(zrl);
      AppendAssoc(old(w.Sent()), Flatten(Repeat(zrl, nrmarker - 1)), Flatten([zrl]));
      nrmarker := nrmarker + 1;
    }
  }

  /**
   * process_DU, after fdct_and_quantization has produced dct: the zig-zag
   * reorder, the embedding, *DC = DU[0], then the DC and the AC codes. The
   * written bits, the new predictor and the embedding position are those
   * CodeUnit describes; ok is false where process_DU would index past its
   * tables (a DC category of 12 or more, a coefficient of -32768).
   */
  method ProcessDU(enc: Encoder, w: Writer, dct: seq<int>, pred: int, dcT: seq<Bitstring>, acT: seq<Bitstring>) returns (ok: bool, dc: int)
    requires enc.Ready() && enc.Valid() && w.Valid() && IsBlock(dct) && IsInt16(pred)
    requires |dcT| == 12 && |acT| == 256 && Short(dcT) && Short(acT)
    modifies enc, w
    ensures enc.Valid() && w.Valid() && w.head == old(w.head)
    ensures ok <==> CodeUnit(dct, pred, dcT, acT, enc.bits, old(enc.Pos())).Ok?
    ensures ok ==> var r := CodeUnit(dct, pred, dcT, acT, enc.bits, old(enc.Pos())).value;
      w.Sent() == old(w.Sent()) + r.0 && dc == r.1[0] && enc.Pos() == r.2
  {
    ghost var p0, s0 := enc.Pos(), w.Sent();
    var du := new int[64];
    Scatter(dct, du);
    enc.EmbedDU(du);
    var block := du[..];
    CodeUnitParts(dct, pred, dcT, acT, enc.bits, p0, block, enc.Pos());
    EncodeBlockSplit(block, pred, dcT, acT);
    var diff := Wrap16(block[0] - pred);
    dc := block[0];
    ok := CodeDc(w, diff, dcT);
    if !ok {
      return;
    }
    ok := CodeAc(w, block, acT);
    if ok {
      ghost var dcCodes, acCodes := DcCodes(diff, dcT).value, AcPass(block, acT).value;
      FlattenAppend(dcCodes, acCodes);
      AppendAssoc(s0, Flatten(dcCodes), Flatten(acCodes));
    }
  }

  /** process_DU codes the embedded block, and the embedding moves the message position. */
  lemma CodeUnitParts(dct: seq<int>, pred: int, dcT: seq<Bitstring>, acT: seq<Bitstring>, bits: seq<bool>, pos: nat, du: seq<int>, p: nat)
    requires IsBlock(dct) && IsInt16(pred) && |dcT| == 12 && |acT| == 256
    requires (du, p) == EmbedFrom(Scattered(dct), 0, bits, pos)
    ensures IsBlock(du)
    ensures var c, b := CodeUnit(dct, pred, dcT, acT, bits, pos), EncodeBlock(du, pred, dcT, acT);
      && (c.Ok? <==> b.Ok?)
      && (b.Ok? ==> c.value == (Flatten(b.value), du, p))
  {
    ScatteredBlock(dct);
    EmbeddedBlock(Scattered(dct), bits, pos);
  }

  /** A block codes when its DC difference and its AC run both code, to the DC codes followed by the AC codes. */
  lemma EncodeBlockSplit(du: seq<int>, pred: int, dcT: seq<Bitstring>, acT: seq<Bitstring>)
    requires IsBlock(du) && IsInt16(pred) && |dcT| == 12 && |acT| == 256
    ensures var dc, ac := DcCodes(Wrap16(du[0] - pred), dcT), AcPass(du, acT);
      && (EncodeBlock(du, pred, dcT, acT).Ok? <==> dc.Ok? && ac.Ok?)
      && (dc.Ok? && ac.Ok? ==> EncodeBlock(du, pred, dcT, acT).value == dc.value + ac.value)
  {
  }

  /** The three process_DU calls of main_encoder, with DCY, DCCb and DCCr. */
  method EncodeMcu(enc: Encoder, w: Writer, m: Mcu, dcY: int, dcCb: int, dcCr: int) returns (ok: bool, y: int, cb: int, cr: int)
    requires enc.Ready() && enc.Valid() && w.Valid() && McuValid(m) && StateOk(ScanState(dcY, dcCb, dcCr, 0))
    modifies enc, w
    ensures enc.Valid() && w.Valid() && w.head == old(w.head)
    ensures var r := McuCode(m, ScanState(dcY, dcCb, dcCr, old(enc.Pos())), enc.tables, enc.bits);
      && (ok <==> r.Ok?)
      && (ok ==> w.Sent() == old(w.Sent()) + r.value.bits && r.value.end == ScanState(y, cb, cr, enc.Pos()))
  {
    ghost var s0 := w.Sent();
    ghost var p0 := enc.Pos();
    y, cb, cr := dcY, dcCb, dcCr;
    ok, y := ProcessDU(enc, w, m.y, dcY, enc.tables.yDc, enc.tables.yAc);
    if !ok {
      return;
    }
    ghost var s1 := w.Sent();
    ghost var p1 := enc.Pos();
    ok, cb := ProcessDU(enc, w, m.cb, dcCb, enc.tables.cDc, enc.tables.cAc);
    if !ok {
      return;
    }
    ghost var s2 := w.Sent();
    ghost var p2 := enc.Pos();
    ok, cr := ProcessDU(enc, w, m.cr, dcCr, enc.tables.cDc, enc.tables.cAc);
    if ok {
      ghost var b0 := CodeUnit(m.y, dcY, enc.tables.yDc, enc.tables.yAc, enc.bits, p0).value.0;
      ghost var b1 := CodeUnit(m.cb, dcCb, enc.tables.cDc, enc.tables.cAc, enc.bits, p1).value.0;
      ghost var b2 := CodeUnit(m.cr, dcCr, enc.tables.cDc, enc.tables.cAc, enc.bits, p2).value.0;
      AppendAssoc(s0, b0, b1);
      AppendAssoc(s0, b0 + b1, b2);
    }
  }

  /**
   * One pass of main_encoder's inner loop: the MCU k after the scan of the
   * first k MCUs from st0 has produced sent and units in the state the
   * arguments hold.
   */
  method NextMcu(enc: Encoder, w: Writer, mcus: seq<Mcu>, k: nat, dcY0: int, dcCb0: int, dcCr0: int,
                 ghost st0: ScanState, ghost base: seq<bool>, ghost sent0: seq<bool>, ghost units0: seq<seq<int>>)
      returns (ok: bool, k': nat, dcY: int, dcCb: int, dcCr: int, ghost sent: seq<bool>, ghost units: seq<seq<int>>)
    requires enc.Ready() && enc.Valid() && w.Valid() && McusValid(mcus) && StateOk(st0)
    requires k < |mcus| && w.Sent() == base + sent0
    requires Reached(mcus, k, st0, enc.tables, enc.bits, Scanned(sent0, units0, ScanState(dcY0, dcCb0, dcCr0, enc.Pos())))
    modifies enc, w
    ensures enc.Valid() && w.Valid() && w.head == old(w.head)
    ensures k' == k + 1
    ensures !ok ==> Stopped(mcus, st0, enc.tables, enc.bits)
    ensures ok ==> w.Sent() == base + sent
    ensures ok ==> Reached(mcus, k', st0, enc.tables, enc.bits, Scanned(sent, units, ScanState(dcY, dcCb, dcCr, enc.Pos())))
  {
    k' := k + 1;
    ghost var cur := ScanState(dcY0, dcCb0, dcCr0, enc.Pos());
    ScanNext(mcus, k, st0, enc.tables, enc.bits, Scanned(sent0, units0, cur));
    ghost var h := McuCode(mcus[k], cur, enc.tables, enc.bits);
    sent, units := sent0, units0;
    ok, dcY, dcCb, dcCr := EncodeMcu(enc, w, mcus[k], dcY0, dcCb0, dcCr0);
    if !ok {
      ScanStopped(mcus, k + 1, st0, enc.tables, enc.bits);
      return;
    }
    AppendAssoc(base, sent0, h.value.bits);
    sent, units := sent + h.value.bits, units + h.value.units;
  }

  /**
   * The inner loop of main_encoder: xpos over one row of the padded image in
   * steps of 8, MCUs k0 to k0 + cols - 1 (xImage is 8 * cols), after the scan of the first
   * k0 MCUs from st0 has produced sent0 and units0 in the state the
   * arguments hold.
   */
  method EncodeRow(enc: Encoder, w: Writer, mcus: seq<Mcu>, k0: nat, xImage: nat, ghost cols: nat, dcY0: int, dcCb0: int, dcCr0: int,
                   ghost st0: ScanState, ghost base: seq<bool>, ghost sent0: seq<bool>, ghost units0: seq<seq<int>>)
      returns (ok: bool, k: nat, dcY: int, dcCb: int, dcCr: int, ghost sent: seq<bool>, ghost units: seq<seq<int>>)
    requires enc.Ready() && enc.Valid() && w.Valid() && McusValid(mcus) && StateOk(st0)
    requires xImage == 8 * cols && k0 + cols <= |mcus| && w.Sent() == base + sent0
    requires Reached(mcus, k0, st0, enc.tables, enc.bits, Scanned(sent0, units0, ScanState(dcY0, dcCb0, dcCr0, enc.Pos())))
    modifies enc, w
    ensures enc.Valid() && w.Valid() && w.head == old(w.head)
    ensures !ok ==> Stopped(mcus, st0, enc.tables, enc.bits)
    ensures ok ==> k == k0 + cols && w.Sent() == base + sent
    ensures ok ==> Reached(mcus, k, st0, enc.tables, enc.bits, Scanned(sent, units, ScanState(dcY, dcCb, dcCr, enc.Pos())))
  {
    k, dcY, dcCb, dcCr, sent, units := k0, dcY0, dcCb0, dcCr0, sent0, units0;
    ghost var col := 0;
    var xpos := 0;
    while xpos < xImage
      invariant xpos == 8 * col && col <= cols && k == k0 + col
      invariant enc.Valid() && w.Valid() && w.head == old(w.head) && w.Sent() == base + sent
      invariant Reached(mcus, k, st0, enc.tables, enc.bits, Scanned(sent, units, ScanState(dcY, dcCb, dcCr, enc.Pos())))
    {
      ok, k, dcY, dcCb, dcCr, sent, units := NextMcu(enc, w, mcus, k, dcY, dcCb, dcCr, st0, base, sent, units);
      if !ok {
        return;
      }
      col := col + 1;
      xpos := xpos + 8;
    }
    ok := true;
  }

  /**
   * main_encoder: the MCUs in raster order, ypos and xpos running over the
   * padded image in steps of 8, DCY, DCCb and DCCr starting at 0. The blocks
   * after fdct_and_quantization are given as mcus, row by row.
   */
  method MainEncoder(enc: Encoder, w: Writer, mcus: seq<Mcu>, xImage: nat, yImage: nat) returns (ok: bool)
    requires enc.Ready() && enc.Valid() && w.Valid() && McusValid(mcus)
    requires xImage % 8 == 0 && yImage % 8 == 0 && |mcus| == (yImage / 8) * (xImage / 8)
    modifies enc, w
    ensures enc.Valid() && w.Valid() && w.head == old(w.head)
    ensures var r := Scan(mcus, ScanState(0, 0, 0, old(enc.Pos())), enc.tables, enc.bits);
      && (ok <==> r.Ok?)
      && (ok ==> w.Sent() == old(w.Sent()) + r.value.bits && enc.Pos() == r.value.end.pos)
  {
    ghost var st0 := ScanState(0, 0, 0, enc.Pos());
    ghost var base := w.Sent();
    ghost var sent: seq<bool> := [];
    ghost var units: seq<seq<int>> := [];
    ghost var cols, rows, row := xImage / 8, yImage / 8, 0;
    var k: nat := 0;
    var dcY, dcCb, dcCr := 0, 0, 0;
    assert yImage == 8 * rows && xImage == 8 * cols && base + [] == base;
    var ypos := 0;
    while ypos < yImage
      invariant ypos == 8 * row && row <= rows && k == row * cols
      invariant enc.Valid() && w.Valid() && w.head == old(w.head) && w.Sent() == base + sent
      invariant Reached(mcus, k, st0, enc.tables, enc.bits, Scanned(sent, units, ScanState(dcY, dcCb, dcCr, enc.Pos())))
    {
      NextRow(row, cols, rows);
      ok, k, dcY, dcCb, dcCr, sent, units := EncodeRow(enc, w, mcus, k, xImage, cols, dcY, dcCb, dcCr, st0, base, sent, units);
      if !ok {
        return;
      }
      row := row + 1;
      ypos := ypos + 8;
    }
    assert row == rows && k == |mcus| && mcus[..k] == mcus;
    ok := true;
  }

  /** The MCUs of rows 0..row followed by a full row are those of rows 0..row + 1, no more than the raster holds. */
  lemma NextRow(row: nat, cols: nat, rows: nat)
    requires row < rows
    ensures row * cols + cols == (row + 1) * cols <= rows * cols
  {
  }

  /** The codes of one pass of the AC loop: a ZRL per 16 zeros, the run/size code, the coefficient's bits. */
  function RunCodes(du: seq<int>, acT: seq<Bitstring>, i: nat, e: nat): seq<Bitstring>
    requires IsBlock(du) && |acT| == 256 && 1 <= i <= e <= 63 && du[e] != 0
    requires du[NextNonzero(du, i, e)] != -32768
  {
    var j := NextNonzero(du, i, e);
    CategoryBound(du[j]);
    Repeat(acT[0xF0], (j - i) / 16) + [acT[RunSize((j - i) % 16, du[j])], Bitcode(du[j])]
  }

  /** After one pass of the AC loop the codes still to come are those from the next coefficient on. */
  lemma RunAdvance(du: seq<int>, acT: seq<Bitstring>, i: nat, e: nat, done: seq<Bitstring>)
    requires IsBlock(du) && |acT| == 256 && 1 <= i <= e <= 63 && du[e] != 0
    requires du[NextNonzero(du, i, e)] != -32768
    ensures Codes(done, AcCodes(du, acT, i, e)) == Codes(done + RunCodes(du, acT, i, e), AcCodes(du, acT, NextNonzero(du, i, e) + 1, e))
    ensures Flatten(done + RunCodes(du, acT, i, e)) == Flatten(done) + Flatten(RunCodes(du, acT, i, e))
  {
    AcCodesHead(du, acT, i, e);
    CodesCodes(done, RunCodes(du, acT, i, e), AcCodes(du, acT, NextNonzero(du, i, e) + 1, e));
    FlattenAppend(done, RunCodes(du, acT, i, e));
  }

  /** The codes pre followed by those r holds, or r's failure. */
  function Codes(pre: seq<Bitstring>, r: Result<seq<Bitstring>, Fault>): Result<seq<Bitstring>, Fault>
  {
    if r.Err? then r else Ok(pre + r.value)
  }

  lemma CodesCodes(a: seq<Bitstring>, b: seq<Bitstring>, r: Result<seq<Bitstring>, Fault>)
    ensures Codes(a, Codes(b, r)) == Codes(a + b, r)
  {
    if r.Ok? {
      assert a + (b + r.value) == (a + b) + r.value;
    }
  }

  /** One run of the AC pass as the loop of process_DU sees it. */
  lemma AcCodesHead(du: seq<int>, acT: seq<Bitstring>, i: nat, e: nat)
    requires IsBlock(du) && |acT| == 256 && 1 <= i <= e <= 63 && du[e] != 0
    ensures var j := NextNonzero(du, i, e);
      && (du[j] == -32768 ==> AcCodes(du, acT, i, e).Err?)
      && (du[j] != -32768 ==>
            && 0 <= RunSize((j - i) % 16, du[j]) < 256
            && AcCodes(du, acT, i, e) == Codes(Repeat(acT[0xF0], (j - i) / 16) + [acT[RunSize((j - i) % 16, du[j])], Bitcode(du[j])], AcCodes(du, acT, j + 1, e)))
  {
    var j := NextNonzero(du, i, e);
    if du[j] != -32768 {
      CategoryBound(du[j]);
    }
  }

  // ---------------------------------------------------------------------
  // The file

  /** jpeg_encode_data's Xdiv8 and Ydiv8: ((x / 8) << 3) + 8 in uint32_t unless x is a multiple of 8. */
  function Pad8(x: nat): nat
    requires x < 0x1_0000_0000
  {
    if x % 8 != 0 then (x / 8 * 8 + 8) % 0x1_0000_0000 else x
  }

  /**
   * The padded dimension is the least multiple of 8 not below x, except that
   * the uint32_t sum wraps to 0 for the seven values above 0xFFFFFFF8.
   */
  lemma Pad8Least(x: nat)
    requires x < 0x1_0000_0000
    ensures Pad8(x) % 8 == 0 && Pad8(x) < 0x1_0000_0000
    ensures x <= 0xFFFF_FFF8 ==> x <= Pad8(x) < x + 8
    ensures x > 0xFFFF_FFF8 ==> Pad8(x) == 0
  {
  }

  /** The scan's bits followed by the one bits of the EOI alignment. */
  function Aligned(bits: seq<bool>): (r: seq<bool>)
    ensures |r| % 8 == 0 && |bits| < |r| <= |bits| + 8 && r[..|bits|] == bits
    ensures forall i :: |bits| <= i < |r| ==> r[i]
  {
    bits + seq(8 - |bits| % 8, _ => true)
  }

  /** Every byte of a table through writebyte, as the loops of write_DQTinfo and write_DHTinfo do (and fputs for the JFIF signature). */
  method WriteBytes(w: Writer, bs: seq<byte>)
    modifies w
    ensures w.out == old(w.out) + bs
  {
    var i := 0;
    while i < |bs|
      invariant 0 <= i <= |bs| && w.out == old(w.out) + bs[..i]
    {
      w.WriteByte(bs[i]);
      assert bs[..i + 1] == bs[..i] + [bs[i]];
      i := i + 1;
    }
    assert bs[..|bs|] == bs;
  }

  /** write_APP0info. */
  method WriteApp0(w: Writer)
    modifies w
    ensures w.out == old(w.out) + App0()
  {
    ghost var o := w.out;
    w.WriteWord(0xFFE0);
    w.WriteWord(16);
    WriteBytes(w, [0x4A, 0x46, 0x49, 0x46]);
    w.WriteByte(0);
    w.WriteByte(1);
    w.WriteByte(1);
    w.WriteByte(0);
    w.WriteWord(1);
    w.WriteWord(1);
    w.WriteByte(0);
    w.WriteByte(0);
    App0Onto(o, w.out);
  }

  lemma App0Onto(o: seq<byte>, x: seq<byte>)
    requires x == o + Word(0xFFE0) + Word(16) + [0x4A, 0x46, 0x49, 0x46] + [0] + [1] + [1] + [0] + Word(1) + Word(1) + [0] + [0]
    ensures x == o + App0()
  {
  }

  /** write_SOF0info with the uint16_t width and height fields. */
  method WriteSof0(w: Writer, width: nat, height: nat)
    requires width < 65536 && height < 65536
    modifies w
    ensures w.out == old(w.out) + Sof0(width, height)
  {
    ghost var o := w.out;
    w.WriteWord(0xFFC0);
    w.WriteWord(17);
    w.WriteByte(8);
    w.WriteWord(height);
    w.WriteWord(width);
    WriteBytes(w, [3, 1, 0x11, 0, 2, 0x11, 1, 3, 0x11, 1]);
    Sof0Onto(o, w.out, width, height);
  }

  lemma Sof0Onto(o: seq<byte>, x: seq<byte>, width: nat, height: nat)
    requires width < 65536 && height < 65536
    requires x == o + Word(0xFFC0) + Word(17) + [8] + Word(height) + Word(width) + [3, 1, 0x11, 0, 2, 0x11, 1, 3, 0x11, 1]
    ensures x == o + Sof0(width, height)
  {
  }

  /** write_DQTinfo. */
  method WriteDqt(w: Writer, y: seq<byte>, cb: seq<byte>)
    modifies w
    ensures w.out == old(w.out) + Dqt(y, cb)
  {
    ghost var o := w.out;
    w.WriteWord(0xFFDB);
    w.WriteWord(132);
    w.WriteByte(0);
    WriteBytes(w, y);
    w.WriteByte(1);
    WriteBytes(w, cb);
    DqtOnto(o, w.out, y, cb);
  }

  lemma DqtOnto(o: seq<byte>, x: seq<byte>, y: seq<byte>, cb: seq<byte>)
    requires x == o + Word(0xFFDB) + Word(132) + [0] + y + [1] + cb
    ensures x == o + Dqt(y, cb)
  {
  }

  /** One table of write_DHTinfo: its class and number, its counts, its symbols. */
  method WriteSpec(w: Writer, spec: HuffSpec)
    modifies w
    ensures w.out == old(w.out) + SpecBytes(spec)
  {
    ghost var o := w.out;
    w.WriteByte(spec.info);
    WriteBytes(w, spec.counts);
    WriteBytes(w, spec.values);
    assert w.out == o + SpecBytes(spec);
  }

  /** write_DHTinfo. */
  method WriteDht(w: Writer, specs: seq<HuffSpec>)
    requires |specs| == 4
    modifies w
    ensures w.out == old(w.out) + Dht(specs)
  {
    ghost var o := w.out;
    w.WriteWord(0xFFC4);
    w.WriteWord(0x01A2);
    WriteSpec(w, specs[0]);
    WriteSpec(w, specs[1]);
    WriteSpec(w, specs[2]);
    WriteSpec(w, specs[3]);
    DhtOnto(o, w.out, specs);
  }

  lemma DhtOnto(o: seq<byte>, x: seq<byte>, specs: seq<HuffSpec>)
    requires |specs| == 4
    requires x == o + Word(0xFFC4) + Word(0x01A2) + SpecBytes(specs[0]) + SpecBytes(specs[1]) + SpecBytes(specs[2]) + SpecBytes(specs[3])
    ensures x == o + Dht(specs)
  {
  }

  /** write_SOSinfo. */
  method WriteSos(w: Writer)
    modifies w
    ensures w.out == old(w.out) + Sos()
  {
    ghost var o := w.out;
    w.WriteWord(0xFFDA);
    w.WriteWord(12);
    WriteBytes(w, [3, 1, 0, 2, 0x11, 3, 0x11, 0, 0x3F, 0]);
    SosOnto(o, w.out);
  }

  lemma SosOnto(o: seq<byte>, x: seq<byte>)
    requires x == o + Word(0xFFDA) + Word(12) + [3, 1, 0, 2, 0x11, 3, 0x11, 0, 0x3F, 0]
    ensures x == o + Sos()
  {
  }

  /** The SOI marker and the five segments, in the order jpeg_encode_data writes them. */
  method WriteHeader(w: Writer, width: nat, height: nat, yQt: seq<byte>, cbQt: seq<byte>, dht: seq<HuffSpec>)
    requires width < 65536 && height < 65536 && |dht| == 4
    requires yQt == UnitQt() && cbQt == UnitQt() && dht == StdSpecs()
    modifies w
    ensures w.out == old(w.out) + Header(width, height)
  {
    ghost var o := w.out;
    w.WriteWord(0xFFD8);
    WriteApp0(w);
    WriteDqt(w, yQt, cbQt);
    WriteSof0(w, width, height);
    WriteDht(w, dht);
    WriteSos(w);
    HeaderOnto(o, w.out, width, height);
  }

  lemma HeaderOnto(o: seq<byte>, x: seq<byte>, width: nat, height: nat)
    requires width < 65536 && height < 65536
    requires x == o + Word(0xFFD8) + App0() + Dqt(UnitQt(), UnitQt()) + Sof0(width, height) + Dht(StdSpecs()) + Sos()
    ensures x == o + Header(width, height)
  {
  }

  /**
   * jpeg_encode_data for the message (data, size) on an image of width by
   * height pixels whose blocks, after fdct_and_quantization, are mcus in
   * raster order over the padded image. The file is the header, the scan's
   * bits with the EOI alignment packed into bytes and stuffed, and EOI; ok
   * is false where process_DU meets a value its tables cannot code.
   */
  method JpegEncodeData(data: seq<byte>, size: nat, width: nat, height: nat, mcus: seq<Mcu>) returns (ok: bool, file: seq<byte>)
    requires Limit(size) <= |data| && width < 0x1_0000_0000 && height < 0x1_0000_0000
    requires McusValid(mcus) && |mcus| == (Pad8(height) / 8) * (Pad8(width) / 8)
    ensures var scan := Scan(mcus, ScanState(0, 0, 0, 0), StdHuffTables(), Stream(data[..Limit(size)]));
      && (ok <==> scan.Ok?)
      && (ok ==> file == Header(width % 65536, height % 65536) + Stuff(Pack(Aligned(scan.value.bits))) + Word(0xFFD9))
  {
    Pad8Least(width);
    Pad8Least(height);
    var xImage, yImage := Pad8(width), Pad8(height);
    var w, yQt, cbQt, dht, tables := StartFile(width % 65536, height % 65536);
    ok := EncodeScan(w, data, size, mcus, xImage, yImage, yQt, cbQt, dht, tables);
    if ok {
      ghost var scanned := w.out;
      w.WriteWord(0xFFD9);
      assert w.out == scanned + Word(0xFFD9);
    }
    file := w.out;
  }

  /** jpeg_encode_data up to the scan: the tables, then SOI and the header segments into a new file. */
  method StartFile(width: nat, height: nat) returns (w: Writer, yQt: seq<byte>, cbQt: seq<byte>, dht: seq<HuffSpec>, tables: HuffTables)
    requires width < 65536 && height < 65536
    ensures fresh(w) && w.Valid() && w.out == Header(width, height) && w.head == w.out && w.Sent() == []
    ensures tables == StdHuffTables() && Sized(tables) && AllShort(tables)
  {
    yQt, cbQt, dht, tables := InitAll();
    w := new Writer();
    WriteHeader(w, width, height, yQt, cbQt, dht);
    w.StartRun();
    EmptyPrefix(Header(width, height));
  }

  /**
   * The scan of jpeg_encode_data: main_encoder with every predictor at 0 and
   * the message from its start, then the one bits up to a byte boundary,
   * appended as stuffed bytes to what the writer holds.
   */
  method EncodeScan(w: Writer, data: seq<byte>, size: nat, mcus: seq<Mcu>, xImage: nat, yImage: nat,
                    yQt: seq<byte>, cbQt: seq<byte>, dht: seq<HuffSpec>, tables: HuffTables) returns (ok: bool)
    requires w.Valid() && w.head == w.out && w.Sent() == []
    requires Limit(size) <= |data| && Sized(tables) && AllShort(tables)
    requires McusValid(mcus) && xImage % 8 == 0 && yImage % 8 == 0 && |mcus| == (yImage / 8) * (xImage / 8)
    modifies w
    ensures var scan := Scan(mcus, ScanState(0, 0, 0, 0), tables, Stream(data[..Limit(size)]));
      && (ok <==> scan.Ok?)
      && (ok ==> w.out == old(w.out) + Stuff(Pack(Aligned(scan.value.bits))))
  {
    var enc := new Encoder(data, size, yQt, cbQt, dht, tables);
    ghost var head := w.out;
    ok := MainEncoder(enc, w, mcus, xImage, yImage);
    if ok {
      ghost var bits := w.Sent();
      assert bits == Scan(mcus, ScanState(0, 0, 0, 0), tables, Stream(data[..Limit(size)])).value.bits;
      AlignedLength(w);
      w.Align();
      assert w.Sent() == Aligned(bits);
      PackBytes(w.packed);
      assert w.out == head + Stuff(Pack(Aligned(bits)));
    }
  }

  lemma EmptyPrefix(x: seq<byte>)
    ensures [] + x == x
  {
  }

  /** Before the alignment, bytepos + 1 bits are missing from the last byte. */
  lemma AlignedLength(w: Writer)
    requires w.Valid()
    ensures w.bytepos + 1 == 8 - |w.Sent()| % 8
  {
    assert |w.Sent()| == 8 * |w.packed| + |w.pending|;
  }
}
