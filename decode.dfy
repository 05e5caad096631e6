/**
 * The decoder's scan loop (jpeg-load.c): DecodeMCU, JpegDecode and
 * jpeg_decode_data. JpegDecode resets every m_previousDC, then decodes the
 * image MCU by MCU, row by row; each MCU is hFactor * vFactor data units of
 * Y, then one of Cb and one of Cr, and each data unit is decoded by
 * ProcessHuffmanDataUnit and handed to DecodeSingleBlock, whose coefficient
 * extraction fills the message.
 *
 * The methods are proved against Decode, a function of the parsed header
 * and the file's bytes: DecodeScan, MCU after MCU, each MCU (DecodeMcuUnits)
 * its units of Y, Cb and Cr through DecodeUnit.
 */
module JpegDecoder {
  import opened Common
  import opened Bits
  import opened Huffman
  import opened HuffmanBuild
  import opened BlockCode
  import opened BitReader
  import opened ByteOrder
  import opened Stego
  import opened JpegParse
  import opened JpegLoad

  // ---------------------------------------------------------------------
  // The specification

  /** The scan's bits: the destuffed bytes from m_stream on, none if the SOS segment ran past the end of the file. */
  function ScanBits(buf: seq<byte>, start: nat): (r: seq<bool>)
    ensures start <= |buf| ==> r == BytesToBits(Destuff(buf[start..]))
  {
    if start <= |buf| then BytesToBits(Destuff(buf[start..])) else []
  }

  /** Where the decoder is: the data units decoded so far in decoding order, stJpegData with its m_previousDC values, the bits left. */
  datatype Progress = Progress(units: seq<seq<int>>, jd: Jdata, rest: seq<bool>)

  /**
   * The tables m_component_info[c] points to. A NULL pointer (a component
   * no SOS selector named) is Unsupported: ProcessHuffmanDataUnit would
   * dereference it.
   */
  function UnitTables(jd: Jdata, c: nat): (r: Result<(Table, Table), Fault>)
    requires JdOk(jd) && c < 4
    ensures r.Ok? <==> jd.components[c].dcTable.Some? && jd.components[c].acTable.Some?
                       && jd.components[c].dcTable.value < 4 && jd.components[c].acTable.value < 4
    ensures r.Ok? ==> r.value == (jd.htdc[jd.components[c].dcTable.value], jd.htac[jd.components[c].acTable.value])
  {
    var comp := jd.components[c];
    if comp.dcTable.None? || comp.acTable.None? || comp.dcTable.value >= 4 || comp.acTable.value >= 4 then Err(Unsupported)
    else Ok((jd.htdc[comp.dcTable.value], jd.htac[comp.acTable.value]))
  }

  /** m_component_info[c].m_previousDC = v */
  function WithPrevious(jd: Jdata, c: nat, v: int): (r: Jdata)
    requires JdOk(jd) && c < 4
    ensures JdOk(r)
  {
    jd.(components := jd.components[c := jd.components[c].(previousDC := v)])
  }

  /** A decoder state that differs from jd at most in the m_previousDC values. */
  predicate SameBut(jd: Jdata, now: Jdata)
    requires JdOk(jd)
  {
    && JdOk(now) && now == jd.(components := now.components)
    && forall c :: 0 <= c < 4 ==> now.components[c] == jd.components[c].(previousDC := now.components[c].previousDC)
  }

  /**
   * ProcessHuffmanDataUnit for component c, from the state p: one more data
   * unit, the component's new m_previousDC, the bits after the unit. There
   * are four components (m_component_info[4]).
   */
  function DecodeUnit(p: Progress, c: nat): (r: Result<Progress, Fault>)
    ensures r.Ok? ==> JdOk(p.jd) && JdOk(r.value.jd)
  {
    if !JdOk(p.jd) || c >= 4 then Err(Unsupported)
    else
      var t :- UnitTables(p.jd, c);
      var b :- DecodeBlock(p.rest, p.jd.components[c].previousDC, Used(t.0), Used(t.1));
      Ok(Progress(p.units + [b.0], WithPrevious(p.jd, c, b.1), b.2))
  }

  /**
   * A decoder of one data unit of a component: the scan below has the same
   * shape whatever decodes its units, and Decode instantiates it with
   * DecodeUnit.
   */
  type UnitStep = (Progress, nat) -> Result<Progress, Fault>

  /** unit decodes data units as ProcessHuffmanDataUnit does. */
  ghost predicate Sound(unit: UnitStep)
  {
    forall p, c {:trigger DecodeUnit(p, c)} :: unit(p, c) == DecodeUnit(p, c)
  }

  /** x data units of component cY, one after the other, from p: DecodeMCU's inner loop. The first failure stops it. */
  function DecodeLumaRow(unit: UnitStep, p: Progress, x: nat): Result<Progress, Fault>
  {
    if x == 0 then Ok(p)
    else
      var q :- DecodeLumaRow(unit, p, x - 1);
      unit(q, 1)
  }

  /** y rows of w data units of cY: DecodeMCU's outer loop. */
  function DecodeLumas(unit: UnitStep, p: Progress, y: nat, w: nat): Result<Progress, Fault>
  {
    if y == 0 then Ok(p)
    else
      var q :- DecodeLumas(unit, p, y - 1, w);
      DecodeLumaRow(unit, q, w)
  }

  /** DecodeMCU(jdata, w, h): h rows of w units of Y, then one of Cb, then one of Cr. */
  function DecodeMcuUnits(unit: UnitStep, p: Progress, w: nat, h: nat): Result<Progress, Fault>
  {
    var q :- DecodeLumas(unit, p, h, w);
    var q' :- unit(q, 2);
    unit(q', 3)
  }

  /** x MCUs of sampling factors w, h, one after the other: JpegDecode's inner loop. */
  function DecodeMcuRow(unit: UnitStep, p: Progress, x: nat, w: nat, h: nat): Result<Progress, Fault>
  {
    if x == 0 then Ok(p)
    else
      var q :- DecodeMcuRow(unit, p, x - 1, w, h);
      DecodeMcuUnits(unit, q, w, h)
  }

  /** y rows of cols MCUs: JpegDecode's outer loop. */
  function DecodeScan(unit: UnitStep, p: Progress, y: nat, cols: nat, w: nat, h: nat): Result<Progress, Fault>
  {
    if y == 0 then Ok(p)
    else
      var q :- DecodeScan(unit, p, y - 1, cols, w, h);
      DecodeMcuRow(unit, q, cols, w, h)
  }

  /** DecodeUnit decodes as itself. */
  lemma SoundUnit()
    ensures Sound(DecodeUnit)
  {
  }

  /** The number of values 0, s, 2s, ... below a: how often `for (v = 0; v < a; v += s)` runs. */
  function Strides(a: nat, s: nat): nat
    requires s > 0
  {
    (a + s - 1) / s
  }

  /** Every m_previousDC set to 0. */
  function ResetDC(jd: Jdata): (r: Jdata)
    requires JdOk(jd)
    ensures SameBut(jd, r) && forall c :: 0 <= c < 4 ==> r.components[c].previousDC == 0
  {
    var cs := jd.components;
    jd.(components := [cs[0].(previousDC := 0), cs[1].(previousDC := 0), cs[2].(previousDC := 0), cs[3].(previousDC := 0)])
  }

  /** How many MCUs of sampling factor f cover a lines (or pixels): the runs of a loop stepping by 8 * f. */
  function Across(a: nat, f: nat): nat
  {
    if f == 0 then 0 else Strides(a, 8 * f)
  }

  /** The MCUs JpegDecode's loops visit: rows of 8 * vFactor lines, columns of 8 * hFactor pixels. */
  function McuCount(jd: Jdata): nat
    requires JdOk(jd)
  {
    Across(jd.height, jd.components[1].vFactor) * Across(jd.width, jd.components[1].hFactor)
  }

  /**
   * A zero sampling factor of cY: JpegDecode sizes its output array with
   * h % (8 * hFactor) and w % (8 * vFactor) before it decodes anything, so
   * either factor being 0 is a division by zero.
   */
  predicate ZeroFactor(jd: Jdata)
    requires JdOk(jd)
  {
    jd.components[1].hFactor == 0 || jd.components[1].vFactor == 0
  }

  /**
   * JpegDecode on the parsed header jd over the file buf: every
   * m_previousDC reset, then every MCU, the sampling factors being cY's.
   */
  function Decode(jd: Jdata, buf: seq<byte>): (r: Result<Progress, Fault>)
    requires JdOk(jd)
  {
    if ZeroFactor(jd) then Err(DivisionByZero)
    else
      var hF, vF := jd.components[1].hFactor, jd.components[1].vFactor;
      DecodeScan(DecodeUnit, Progress([], ResetDC(jd), ScanBits(buf, jd.stream)), Across(jd.height, vF), Across(jd.width, hF), hF, vF)
  }

  /** jpeg_decode_data on the file buf: the header, then the scan. */
  function DecodeData(buf: seq<byte>): Result<Progress, Fault>
  {
    var jd :- ParseHeader(buf);
    Decode(jd, buf)
  }

  /**
   * What DecodeSingleBlock's extraction has made of the message after the
   * data units units: FIND fills the message from their eligible
   * coefficients, READ counts them in message->size.
   */
  function Extracted(host: Endianness, action: Action, units: seq<seq<int>>): (f: Finder)
  {
    if action == Find then FindBlocks(host, units, FinderStart()) else FinderStart().(size := |AllLsbs(units)|)
  }

  // ---------------------------------------------------------------------
  // Properties of the specification

  /**
   * q has grown from p by count data units: stJpegData differs at most in
   * the m_previousDC values, and count blocks of 64 coefficients follow the
   * units of p.
   */
  ghost predicate Grown(p: Progress, q: Progress, count: int)
    requires JdOk(p.jd)
  {
    && SameBut(p.jd, q.jd) && |q.units| == |p.units| + count && |p.units| <= |q.units| && q.units[..|p.units|] == p.units
    && forall i :: |p.units| <= i < |q.units| ==> |q.units[i]| == 64
  }

  lemma GrownTrans(p: Progress, q: Progress, r: Progress, a: int, b: int)
    requires JdOk(p.jd) && Grown(p, q, a) && Grown(q, r, b)
    ensures Grown(p, r, a + b)
  {
    assert r.units[..|p.units|] == r.units[..|q.units|][..|p.units|];
  }

  /** A data unit changes nothing of stJpegData but the component's m_previousDC, and adds one block of 64 coefficients. */
  lemma DecodeUnitGrows(p: Progress, c: nat)
    requires DecodeUnit(p, c).Ok?
    ensures JdOk(p.jd) && Grown(p, DecodeUnit(p, c).value, 1)
    ensures forall c' :: 0 <= c' < 4 && c' != c ==> DecodeUnit(p, c).value.jd.components[c'] == p.jd.components[c']
  {
    var t := UnitTables(p.jd, c).value;
    var b := DecodeBlock(p.rest, p.jd.components[c].previousDC, Used(t.0), Used(t.1)).value;
    var q := DecodeUnit(p, c).value;
    assert q.units == p.units + [b.0];
    assert q.units[..|p.units|] == p.units;
  }

  lemma {:induction false} DecodeLumaRowGrows(unit: UnitStep, p: Progress, x: nat)
    requires Sound(unit) && JdOk(p.jd) && DecodeLumaRow(unit, p, x).Ok?
    ensures Grown(p, DecodeLumaRow(unit, p, x).value, x)
    decreases x
  {
    if x == 0 {
      assert p.units[..|p.units|] == p.units;
    } else {
      DecodeLumaRowGrows(unit, p, x - 1);
      var q := DecodeLumaRow(unit, p, x - 1).value;
      DecodeUnitGrows(q, 1);
      GrownTrans(p, q, DecodeUnit(q, 1).value, x - 1, 1);
    }
  }

  lemma {:induction false} DecodeLumasGrow(unit: UnitStep, p: Progress, y: nat, w: nat)
    requires Sound(unit) && JdOk(p.jd) && DecodeLumas(unit, p, y, w).Ok?
    ensures Grown(p, DecodeLumas(unit, p, y, w).value, y * w)
    decreases y
  {
    if y == 0 {
      assert p.units[..|p.units|] == p.units;
    } else {
      DecodeLumasGrow(unit, p, y - 1, w);
      var q := DecodeLumas(unit, p, y - 1, w).value;
      DecodeLumaRowGrows(unit, q, w);
      GrownTrans(p, q, DecodeLumaRow(unit, q, w).value, (y - 1) * w, w);
      assert (y - 1) * w + w == y * w;
    }
  }

  lemma DecodeMcuGrows(unit: UnitStep, p: Progress, w: nat, h: nat)
    requires Sound(unit) && JdOk(p.jd) && DecodeMcuUnits(unit, p, w, h).Ok?
    ensures Grown(p, DecodeMcuUnits(unit, p, w, h).value, w * h + 2)
  {
    DecodeLumasGrow(unit, p, h, w);
    var q := DecodeLumas(unit, p, h, w).value;
    DecodeUnitGrows(q, 2);
    var q' := DecodeUnit(q, 2).value;
    DecodeUnitGrows(q', 3);
    GrownTrans(p, q, q', h * w, 1);
    GrownTrans(p, q', DecodeUnit(q', 3).value, h * w + 1, 1);
  }

  lemma {:induction false} DecodeMcuRowGrows(unit: UnitStep, p: Progress, x: nat, w: nat, h: nat)
    requires Sound(unit) && JdOk(p.jd) && DecodeMcuRow(unit, p, x, w, h).Ok?
    ensures Grown(p, DecodeMcuRow(unit, p, x, w, h).value, x * (w * h + 2))
    decreases x
  {
    if x == 0 {
      assert p.units[..|p.units|] == p.units;
    } else {
      DecodeMcuRowGrows(unit, p, x - 1, w, h);
      var q := DecodeMcuRow(unit, p, x - 1, w, h).value;
      DecodeMcuGrows(unit, q, w, h);
      GrownTrans(p, q, DecodeMcuUnits(unit, q, w, h).value, (x - 1) * (w * h + 2), w * h + 2);
      assert (x - 1) * (w * h + 2) + (w * h + 2) == x * (w * h + 2);
    }
  }

  /**
   * A scan of y rows of cols MCUs decodes y * cols * (w * h + 2) data units
   * of 64 coefficients, and changes stJpegData only in the m_previousDC
   * values.
   */
  lemma {:induction false} DecodeScanGrows(unit: UnitStep, p: Progress, y: nat, cols: nat, w: nat, h: nat)
    requires Sound(unit) && JdOk(p.jd) && DecodeScan(unit, p, y, cols, w, h).Ok?
    ensures Grown(p, DecodeScan(unit, p, y, cols, w, h).value, y * cols * (w * h + 2))
    decreases y
  {
    if y == 0 {
      assert p.units[..|p.units|] == p.units;
    } else {
      DecodeScanGrows(unit, p, y - 1, cols, w, h);
      var q := DecodeScan(unit, p, y - 1, cols, w, h).value;
      DecodeMcuRowGrows(unit, q, cols, w, h);
      GrownTrans(p, q, DecodeMcuRow(unit, q, cols, w, h).value, (y - 1) * cols * (w * h + 2), cols * (w * h + 2));
      assert (y - 1) * cols * (w * h + 2) + cols * (w * h + 2) == y * cols * (w * h + 2);
    }
  }

  /**
   * A decoded image is McuCount(jd) MCUs of hFactor * vFactor + 2 data
   * units of 64 coefficients each, and its stJpegData is jd's but for the
   * m_previousDC values.
   */
  lemma DecodeGrows(jd: Jdata, buf: seq<byte>)
    requires JdOk(jd) && Decode(jd, buf).Ok?
    ensures var hF, vF := jd.components[1].hFactor, jd.components[1].vFactor;
      && |Decode(jd, buf).value.units| == McuCount(jd) * (hF * vF + 2)
      && (forall i :: 0 <= i < |Decode(jd, buf).value.units| ==> |Decode(jd, buf).value.units[i]| == 64)
      && SameBut(jd, Decode(jd, buf).value.jd)
  {
    var hF, vF := jd.components[1].hFactor, jd.components[1].vFactor;
    var start := Progress([], ResetDC(jd), ScanBits(buf, jd.stream));
    var rows, cols := Across(jd.height, vF), Across(jd.width, hF);
    assert Decode(jd, buf) == DecodeScan(DecodeUnit, start, rows, cols, hF, vF);
    SoundUnit();
    DecodeScanGrows(DecodeUnit, start, rows, cols, hF, vF);
    Regrouped(|Decode(jd, buf).value.units|, McuCount(jd), rows, cols, hF * vF + 2);
  }

  lemma Regrouped(n: int, m: int, rows: int, cols: int, k: int)
    requires m == rows * cols && n == rows * cols * k
    ensures n == m * k
  {
  }

  /**
   * What jpeg_decode_data reports of a file it decodes is the header's:
   * the width and height JpegParseHeader read, and hFactor * vFactor + 2
   * data units of 64 coefficients for each MCU the header's dimensions
   * call for.
   */
  lemma DecodeDataShape(buf: seq<byte>)
    requires DecodeData(buf).Ok?
    ensures ParseHeader(buf).Ok? && Shaped(ParseHeader(buf).value, DecodeData(buf).value)
  {
    var jd := HeaderOf(buf);
    DecodeGrows(jd, buf);
  }

  /**
   * What a decoded image q holds given its header jd: the header's width
   * and height, and hFactor * vFactor + 2 data units of 64 coefficients
   * for each MCU.
   */
  ghost predicate Shaped(jd: Jdata, q: Progress)
    requires JdOk(jd)
  {
    var hF, vF := jd.components[1].hFactor, jd.components[1].vFactor;
    && q.jd.width == jd.width && q.jd.height == jd.height
    && |q.units| == McuCount(jd) * (hF * vF + 2)
    && forall i :: 0 <= i < |q.units| ==> |q.units[i]| == 64
  }

  /** The header a file that decodes was parsed into. */
  lemma HeaderOf(buf: seq<byte>) returns (jd: Jdata)
    requires DecodeData(buf).Ok?
    ensures ParseHeader(buf) == Ok(jd) && JdOk(jd) && DecodeData(buf) == Decode(jd, buf)
  {
    jd := ParseHeader(buf).value;
  }

  /** A unit of Y that fails stops the row of units of Y with that failure. */
  lemma {:induction false} LumaRowStopped(unit: UnitStep, p: Progress, x: nat, total: nat)
    requires x <= total && DecodeLumaRow(unit, p, x).Err?
    ensures DecodeLumaRow(unit, p, total) == DecodeLumaRow(unit, p, x)
    decreases total
  {
    if x < total {
      LumaRowStopped(unit, p, x, total - 1);
    }
  }

  /** A row of units of Y that fails stops the units of Y with that failure. */
  lemma {:induction false} LumasStopped(unit: UnitStep, p: Progress, y: nat, total: nat, w: nat)
    requires y <= total && DecodeLumas(unit, p, y, w).Err?
    ensures DecodeLumas(unit, p, total, w) == DecodeLumas(unit, p, y, w)
    decreases total
  {
    if y < total {
      LumasStopped(unit, p, y, total - 1, w);
    }
  }

  /** An MCU that fails stops the row of MCUs with that failure. */
  lemma {:induction false} McuRowStopped(unit: UnitStep, p: Progress, x: nat, total: nat, w: nat, h: nat)
    requires x <= total && DecodeMcuRow(unit, p, x, w, h).Err?
    ensures DecodeMcuRow(unit, p, total, w, h) == DecodeMcuRow(unit, p, x, w, h)
    decreases total
  {
    if x < total {
      McuRowStopped(unit, p, x, total - 1, w, h);
    }
  }

  /** A row of MCUs that fails ends the scan with that failure, however many rows follow. */
  lemma {:induction false} ScanStopped(unit: UnitStep, p: Progress, y: nat, total: nat, cols: nat, w: nat, h: nat)
    requires y <= total && DecodeScan(unit, p, y, cols, w, h).Err?
    ensures DecodeScan(unit, p, total, cols, w, h) == DecodeScan(unit, p, y, cols, w, h)
    decreases total
  {
    if y < total {
      ScanStopped(unit, p, y, total - 1, cols, w, h);
    }
  }

  /** The loop `for (v = 0; v < a; v += s)` runs for the k with k * s < a, and Strides(a, s) of them. */
  lemma StridesBelow(a: nat, s: nat, k: nat)
    requires s > 0
    ensures k * s < a <==> k < Strides(a, s)
  {
    var n := Strides(a, s);
    assert n * s <= a + s - 1 < n * s + s;
    if k < n {
      MulMonotoneLeft(k, n - 1, s);
    } else {
      MulMonotoneLeft(n, k, s);
    }
  }

  /** Extraction after one more unit: the extraction loop run on that unit. */
  lemma ExtractedSnoc(host: Endianness, action: Action, units: seq<seq<int>>, du: seq<int>)
    requires |du| == 64
    ensures action == Find ==> Extracted(host, action, units + [du]) == FindFrom(host, du, 0, Extracted(host, action, units))
    ensures action == Read ==> Extracted(host, action, units + [du]) == Extracted(host, action, units).(size := Extracted(host, action, units).size + CountFrom(du, 0))
  {
    AllLsbsAppend(units, du);
    if action == Find {
      var f := FindBlocks(host, units, FinderStart());
      FindBlocksBits(host, units + [du], FinderStart());
      FindBlocksBits(host, units, FinderStart());
      FindBitsAppend(host, FinderStart(), AllLsbs(units), EligibleLsbs(du, 0));
      FindFromBits(host, du, 0, f);
    }
  }

  // ---------------------------------------------------------------------
  // The decoding methods

  /** The objects hold the state q: stJpegData, the reservoir of the scan's bits, and the message. */
  ghost predicate Holds(q: Progress, jd: JpegData, r: Reservoir, ex: Extractor)
    reads jd, r, ex
  {
    && jd.Valid() && r.Valid() && ex.Valid()
    && jd.Value() == q.jd && r.View() == q.rest && ex.State() == Extracted(ex.host, ex.action, q.units)
  }

  /** A decoding method's outcome: the failure the specification names, or success in the state it gives. */
  ghost predicate Follows(spec: Result<Progress, Fault>, err: Option<Fault>, jd: JpegData, r: Reservoir, ex: Extractor)
    reads jd, r, ex
  {
    match spec
    case Err(e) => err == Some(e)
    case Ok(q) => err == None && Holds(q, jd, r, ex)
  }

  /** ProcessHuffmanDataUnit(jdata, c), then the extraction of DecodeSingleBlock on the unit it decoded. */
  method DecodeDataUnit(jd: JpegData, r: Reservoir, ex: Extractor, c: nat, ghost unit: UnitStep, ghost p: Progress) returns (err: Option<Fault>)
    requires Sound(unit) && Holds(p, jd, r, ex) && c < 4
    modifies jd, r, ex
    ensures Follows(unit(p, c), err, jd, r, ex)
  {
    assert unit(p, c) == DecodeUnit(p, c);
    var comp := jd.components[c];
    if comp.dcTable.None? || comp.acTable.None? || comp.dcTable.value >= 4 || comp.acTable.value >= 4 {
      return Some(Unsupported);
    }
    var dcT, acT := jd.htdc[comp.dcTable.value], jd.htac[comp.acTable.value];
    var res := ProcessHuffmanDataUnit(r, dcT, acT, comp.previousDC);
    if res.Err? {
      return Some(res.error);
    }
    jd.components := jd.components[c := comp.(previousDC := res.value.1)];
    ex.Extract(res.value.0);
    ExtractedSnoc(ex.host, ex.action, p.units, res.value.0);
    return None;
  }

  /** The inner loop of DecodeMCU: w data units of Y. */
  method DecodeLumaUnits(jd: JpegData, r: Reservoir, ex: Extractor, w: nat, ghost unit: UnitStep, ghost p: Progress) returns (err: Option<Fault>)
    requires Sound(unit) && Holds(p, jd, r, ex)
    modifies jd, r, ex
    ensures Follows(DecodeLumaRow(unit, p, w), err, jd, r, ex)
  {
    err := None;
    for x := 0 to w
      invariant err == None
      invariant Follows(DecodeLumaRow(unit, p, x), None, jd, r, ex)
    {
      err := DecodeDataUnit(jd, r, ex, 1, unit, DecodeLumaRow(unit, p, x).value);
      if err.Some? {
        LumaRowStopped(unit, p, x + 1, w);
        return;
      }
    }
  }

  /**
   * DecodeMCU(jdata, w, h): h rows of w data units of Y, then one of Cb and
   * one of Cr.
   */
  method DecodeMcu(jd: JpegData, r: Reservoir, ex: Extractor, w: nat, h: nat, ghost unit: UnitStep, ghost p: Progress) returns (err: Option<Fault>)
    requires Sound(unit) && Holds(p, jd, r, ex)
    modifies jd, r, ex
    ensures Follows(DecodeMcuUnits(unit, p, w, h), err, jd, r, ex)
  {
    err := None;
    for y := 0 to h
      invariant err == None
      invariant Follows(DecodeLumas(unit, p, y, w), None, jd, r, ex)
    {
      err := DecodeLumaUnits(jd, r, ex, w, unit, DecodeLumas(unit, p, y, w).value);
      if err.Some? {
        LumasStopped(unit, p, y + 1, h, w);
        return;
      }
    }
    ghost var q := DecodeLumas(unit, p, h, w).value;
    err := DecodeDataUnit(jd, r, ex, 2, unit, q);
    if err.Some? {
      return;
    }
    err := DecodeDataUnit(jd, r, ex, 3, unit, unit(q, 2).value);
  }

  /** One pass of DecodeRow's loop: the MCU after the first col of the row. */
  method NextMcu(jd: JpegData, r: Reservoir, ex: Extractor, hFactor: nat, vFactor: nat,
                 ghost unit: UnitStep, ghost p: Progress, ghost col: nat) returns (err: Option<Fault>)
    requires Sound(unit) && Follows(DecodeMcuRow(unit, p, col, hFactor, vFactor), None, jd, r, ex)
    modifies jd, r, ex
    ensures Follows(DecodeMcuRow(unit, p, col + 1, hFactor, vFactor), err, jd, r, ex)
  {
    err := DecodeMcu(jd, r, ex, hFactor, vFactor, unit, DecodeMcuRow(unit, p, col, hFactor, vFactor).value);
  }

  /**
   * The inner loop of JpegDecode: the MCUs of one row. x steps by
   * 8 * hFactor while it is below the width, which it does Across(width,
   * hFactor) times (StridesBelow); the loop counts those runs.
   */
  method DecodeRow(jd: JpegData, r: Reservoir, ex: Extractor, width: nat, hFactor: nat, vFactor: nat,
                   ghost unit: UnitStep, ghost p: Progress) returns (err: Option<Fault>)
    requires Sound(unit) && Holds(p, jd, r, ex)
    modifies jd, r, ex
    ensures Follows(DecodeMcuRow(unit, p, Across(width, hFactor), hFactor, vFactor), err, jd, r, ex)
  {
    var cols := Across(width, hFactor);
    err := None;
    for col := 0 to cols
      invariant err == None
      invariant Follows(DecodeMcuRow(unit, p, col, hFactor, vFactor), None, jd, r, ex)
    {
      err := NextMcu(jd, r, ex, hFactor, vFactor, unit, p, col);
      if err.Some? {
        McuRowStopped(unit, p, col + 1, cols, hFactor, vFactor);
        return;
      }
    }
  }

  /** One pass of DecodeRows' loop: the row of MCUs after the first row rows. */
  method NextRow(jd: JpegData, r: Reservoir, ex: Extractor, width: nat, hFactor: nat, vFactor: nat,
                 ghost unit: UnitStep, ghost start: Progress, ghost row: nat) returns (err: Option<Fault>)
    requires Sound(unit) && Follows(DecodeScan(unit, start, row, Across(width, hFactor), hFactor, vFactor), None, jd, r, ex)
    modifies jd, r, ex
    ensures Follows(DecodeScan(unit, start, row + 1, Across(width, hFactor), hFactor, vFactor), err, jd, r, ex)
  {
    err := DecodeRow(jd, r, ex, width, hFactor, vFactor, unit, DecodeScan(unit, start, row, Across(width, hFactor), hFactor, vFactor).value);
  }

  /**
   * The outer loop of JpegDecode: the rows of MCUs. y steps by 8 * vFactor
   * while it is below the height, Across(height, vFactor) times.
   */
  method DecodeRows(jd: JpegData, r: Reservoir, ex: Extractor, width: nat, height: nat, hFactor: nat, vFactor: nat,
                    ghost unit: UnitStep, ghost start: Progress) returns (err: Option<Fault>)
    requires Sound(unit) && Holds(start, jd, r, ex)
    modifies jd, r, ex
    ensures Follows(DecodeScan(unit, start, Across(height, vFactor), Across(width, hFactor), hFactor, vFactor), err, jd, r, ex)
  {
    var rows := Across(height, vFactor);
    ghost var cols := Across(width, hFactor);
    err := None;
    for row := 0 to rows
      invariant err == None
      invariant Follows(DecodeScan(unit, start, row, cols, hFactor, vFactor), None, jd, r, ex)
    {
      err := NextRow(jd, r, ex, width, hFactor, vFactor, unit, start, row);
      if err.Some? {
        ScanStopped(unit, start, row + 1, rows, cols, hFactor, vFactor);
        return;
      }
    }
  }

  /**
   * JpegDecode after JpegParseHeader filled jd from buf: reset the
   * reservoir and every m_previousDC, then decode the MCUs row by row,
   * extracting the message as the data units go by. A zero sampling factor
   * is the division by zero of the output array's sizing.
   */
  method JpegDecode(jd: JpegData, buf: seq<byte>, ex: Extractor) returns (err: Option<Fault>)
    requires jd.Valid() && ex.Valid() && ex.State() == FinderStart()
    modifies jd, ex
    ensures match Decode(old(jd.Value()), buf)
      case Err(e) => err == Some(e)
      case Ok(q) => err == None && jd.Valid() && ex.Valid() && jd.Value() == q.jd && ex.State() == Extracted(ex.host, ex.action, q.units)
  {
    ghost var jd0 := jd.Value();
    var r := new Reservoir(buf, if jd.stream <= |buf| then jd.stream else |buf|);
    assert r.View() == ScanBits(buf, jd0.stream) by {
      if jd.stream > |buf| {
        assert buf[|buf|..] == [];
      }
    }
    var hFactor, vFactor := jd.components[1].hFactor, jd.components[1].vFactor;
    var cs := jd.components;
    jd.components := [cs[0].(previousDC := 0), cs[1].(previousDC := 0), cs[2].(previousDC := 0), cs[3].(previousDC := 0)];
    var width, height := jd.width, jd.height;
    if hFactor == 0 || vFactor == 0 {
      return Some(DivisionByZero);
    }
    ghost var start := Progress([], jd.Value(), r.View());
    assert start == Progress([], ResetDC(jd0), ScanBits(buf, jd0.stream));
    assert ex.State() == Extracted(ex.host, ex.action, []);
    SoundUnit();
    err := DecodeRows(jd, r, ex, width, height, hFactor, vFactor, DecodeUnit, start);
  }

  /**
   * jpeg_decode_data(file, msg, info, action) on the file's bytes buf: a
   * zeroed stJpegData, JpegParseHeader, JpegDecode, and the image's width
   * and height. ex is the message and the action the caller passes. Every
   * failure of the parser and the decoder exits the process, so an Err
   * here is that exit: the `return false` after JpegParseHeader is never
   * reached.
   */
  method JpegDecodeData(buf: seq<byte>, ex: Extractor) returns (res: Result<(nat, nat), Fault>)
    requires ex.Valid() && ex.State() == FinderStart()
    modifies ex
    ensures match DecodeData(buf)
      case Err(e) => res == Err(e)
      case Ok(q) => res == Ok((q.jd.width, q.jd.height)) && ex.Valid() && ex.State() == Extracted(ex.host, ex.action, q.units)
  {
    var jd := new JpegData();
    var err := jd.JpegParseHeader(buf);
    if err.Some? {
      return Err(err.value);
    }
    err := JpegDecode(jd, buf, ex);
    if err.Some? {
      return Err(err.value);
    }
    return Ok((jd.width, jd.height));
  }

}
