/**
 * The decoder's header parsing (jpeg-load.c): JpegParseHeader, the segment
 * loop ParseJFIF and the segment parsers ParseSOF, ParseDQT, ParseDHT and
 * ParseSOS, over the stJpegData they fill (section B.2 of ITU-T T.81).
 *
 * Each parser works on the file buffer from the index of the segment's
 * length field, as the C code's stream pointer does. The C code reads past
 * the end of the buffer where the segment is short; that is Truncated here.
 * A component identifier of 4 or more indexes past m_component_info, which
 * is Unsupported. Every exit(-1) is the error that names its test.
 *
 * Each parsing method is proved against a function of the bytes: ParseSof,
 * ParseDqt, ParseDht, ParseSos, Segments and ParseHeader.
 */
module JpegParse {
  import opened Common
  import opened Huffman
  import opened HuffmanBuild

  // ---------------------------------------------------------------------
  // stJpegData

  /**
   * The fields of stComponent the parsers and the decoder use. The
   * quantisation and Huffman table pointers are indexes, None for NULL.
   * m_DCT is not kept: the decoder passes each unit on as a value.
   */
  datatype Component = Component(hFactor: nat, vFactor: nat, qTable: Option<nat>,
                                 acTable: Option<nat>, dcTable: Option<nat>, previousDC: int)

  /** m_width, m_height, m_stream, m_restart_interval, m_component_info, m_Q_tables, m_HTDC and m_HTAC. */
  datatype Jdata = Jdata(width: nat, height: nat, stream: nat, restartInterval: nat, components: seq<Component>,
                         qTables: seq<seq<int>>, htdc: seq<Table>, htac: seq<Table>)

  /** A table as BuildHuffmanTable leaves it: at most 256 of its 1024 blocks in use. */
  predicate TableOk(t: HuffmanTable)
  {
    WellSized(t) && 0 <= t.numBlocks <= 256
  }

  /** m_blocks[0..m_numBlocks), the blocks IsInHuffmanCodes searches. */
  function Used(t: HuffmanTable): (r: seq<Block>)
    requires TableOk(t)
    ensures |r| == t.numBlocks
  {
    t.blocks[..t.numBlocks]
  }

  /** A table of m_HTDC or m_HTAC: always as BuildHuffmanTable leaves it. */
  type Table = t: HuffmanTable | TableOk(t) witness EmptyTable()

  /** The shape of stJpegData: four components, four tables of each kind. */
  predicate JdOk(jd: Jdata)
  {
    |jd.components| == 4 && |jd.qTables| == 4 && |jd.htdc| == 4 && |jd.htac| == 4
  }

  function EmptyComponent(): Component
  {
    Component(0, 0, None, None, None, 0)
  }

  /** jpeg_decode_data's stJpegData jdec = { 0x0 }. */
  function Zeroed(): (jd: Jdata)
    ensures JdOk(jd)
  {
    Jdata(0, 0, 0, 0, seq(4, _ => EmptyComponent()), seq(4, _ => seq(64, _ => 0)),
          seq(4, _ => EmptyTable()), seq(4, _ => EmptyTable()))
  }

  // ---------------------------------------------------------------------
  // Reading bytes

  /** BYTE_TO_WORD: the big-endian 16-bit word at p. */
  function Be16(buf: seq<byte>, p: nat): (r: nat)
    requires p + 2 <= |buf|
    ensures r < 65536
  {
    buf[p] as nat * 256 + buf[p + 1] as nat
  }

  /** A run of bytes as the ints they are copied into. */
  function Ints(bs: seq<byte>): (r: seq<int>)
    ensures |r| == |bs| && forall i :: 0 <= i < |bs| ==> r[i] == bs[i] as int && 0 <= r[i] < 256
  {
    seq(|bs|, i requires 0 <= i < |bs| => bs[i] as int)
  }

  // ---------------------------------------------------------------------
  // ParseSOF

  /** The component loop of ParseSOF from byte p with n components to go. */
  function SofComponents(cs: seq<Component>, buf: seq<byte>, p: nat, n: nat): (r: Result<seq<Component>, Fault>)
    requires |cs| == 4
    ensures r.Ok? ==> |r.value| == 4
    decreases n
  {
    if n == 0 then Ok(cs)
    else if p + 3 > |buf| then Err(Truncated)
    else
      var cid, sf, q := buf[p] as nat, buf[p + 1] as nat, buf[p + 2] as nat;
      if cid >= 4 then Err(Unsupported)
      else SofComponents(cs[cid := cs[cid].(vFactor := sf % 16, hFactor := sf / 16, qTable := Some(q))], buf, p + 3, n - 1)
  }

  /**
   * ParseSOF on the segment whose length field is at `at`: the height and
   * width words at offsets 3 and 5, then for each of the Nf components its
   * sampling factors (H the high nibble, V the low one) and its table.
   */
  function ParseSof(jd: Jdata, buf: seq<byte>, at: nat): (r: Result<Jdata, Fault>)
    requires JdOk(jd)
    ensures r.Ok? ==> JdOk(r.value)
  {
    if at + 8 > |buf| then Err(Truncated)
    else
      var cs :- SofComponents(jd.components, buf, at + 8, buf[at + 7] as nat);
      Ok(jd.(components := cs, width := Be16(buf, at + 5), height := Be16(buf, at + 3)))
  }

  // ---------------------------------------------------------------------
  // ParseDQT

  /** ParseDQT's loop from byte p with length bytes of the segment left. */
  function DqtTables(qs: seq<seq<int>>, buf: seq<byte>, p: nat, length: int): (r: Result<seq<seq<int>>, Fault>)
    requires |qs| == 4
    ensures r.Ok? ==> |r.value| == 4
    decreases if length > 0 then length else 0
  {
    if length <= 0 then Ok(qs)
    else if p >= |buf| then Err(Truncated)
    else
      var qi := buf[p] as nat;
      if qi / 16 != 0 then Err(BadPrecision)
      else if qi % 16 >= 4 then Err(BadTableIndex)
      else if p + 65 > |buf| then Err(Truncated)
      else DqtTables(qs[qi % 16 := Ints(buf[p + 1..p + 65])], buf, p + 65, length - 65)
  }

  /** ParseDQT: 65-byte tables (precision and index, then 64 entries) while the segment lasts. */
  function ParseDqt(jd: Jdata, buf: seq<byte>, at: nat): (r: Result<Jdata, Fault>)
    requires JdOk(jd)
    ensures r.Ok? ==> JdOk(r.value)
  {
    if at + 2 > |buf| then Err(Truncated)
    else
      var qs :- DqtTables(jd.qTables, buf, at + 2, Be16(buf, at) - 2);
      Ok(jd.(qTables := qs))
  }

  // ---------------------------------------------------------------------
  // ParseDHT

  /** The table BuildHuffmanTable makes of t and the histogram bits. */
  function Built(bits: seq<int>, t: HuffmanTable): (r: HuffmanTable)
    requires IsHistogram(bits) && WellSized(t) && Total(bits) <= 256
    ensures TableOk(r)
  {
    HuffmanTable([t.length[0]] + bits[1..], t.hufVal, Total(bits), CanonicalBlocks(bits, t.hufVal) + t.blocks[Total(bits)..])
  }

  /** The blocks in use of a built table are the canonical blocks of its histogram and symbols. */
  lemma UsedBuilt(bits: seq<int>, t: HuffmanTable)
    requires IsHistogram(bits) && WellSized(t) && Total(bits) <= 256
    ensures Used(Built(bits, t)) == CanonicalBlocks(bits, t.hufVal)
  {
    var r := Built(bits, t);
    assert r.blocks[..Total(bits)] == CanonicalBlocks(bits, t.hufVal);
  }

  /** What BuildHuffmanTable promises determines its table. */
  lemma BuiltTable(bits: seq<int>, t: HuffmanTable, r: HuffmanTable)
    requires IsHistogram(bits) && WellSized(t) && Total(bits) <= 256
    requires WellSized(r) && r.hufVal == t.hufVal && r.numBlocks == Total(bits)
    requires r.length[0] == t.length[0] && r.length[1..] == bits[1..]
    requires r.blocks[..Total(bits)] == CanonicalBlocks(bits, t.hufVal)
    requires r.blocks[Total(bits)..] == t.blocks[Total(bits)..]
    ensures r == Built(bits, t)
  {
    assert r.length == [r.length[0]] + r.length[1..];
    assert r.blocks == r.blocks[..Total(bits)] + r.blocks[Total(bits)..];
  }

  /** The table's symbols with the first |vals| of them replaced, as ParseDHT copies them in. */
  function WithValues(t: HuffmanTable, vals: seq<int>): (r: HuffmanTable)
    requires WellSized(t) && |vals| <= 257
    ensures WellSized(r)
  {
    t.(hufVal := vals + t.hufVal[|vals|..])
  }

  /** The histogram of a DHT table: huff_bits[0] = 0, then the 16 counts. */
  function Histogram(buf: seq<byte>, p: nat): (bits: seq<int>)
    requires p + 16 <= |buf|
    ensures IsHistogram(bits) && bits[0] == 0
  {
    [0] + Ints(buf[p..p + 16])
  }

  /** Both kinds of table are the four stHuffmanTable of a stJpegData. */
  predicate TablesOk(ts: seq<Table>)
  {
    |ts| == 4
  }

  /**
   * One table of a DHT segment at byte p: the tables with it built in, and
   * the number of bytes it takes.
   */
  function DhtTable(dc: seq<Table>, ac: seq<Table>, buf: seq<byte>, p: nat)
    : (r: Result<(seq<Table>, seq<Table>, nat), Fault>)
    requires TablesOk(dc) && TablesOk(ac)
    ensures r.Ok? ==> TablesOk(r.value.0) && TablesOk(r.value.1) && r.value.2 >= 17
  {
    if p + 17 > |buf| then Err(Truncated)
    else
      var index, bits := buf[p], Histogram(buf, p + 1);
      var count := Total(bits);
      if count > 256 then Err(TooManyCodes)
      else if index & 0x0F >= 4 then Err(BadTableIndex)
      else if p + 17 + count > |buf| then Err(Truncated)
      else
        var vals, k := Ints(buf[p + 17..p + 17 + count]), (index & 0x0F) as nat;
        if index & 0xF0 != 0 then Ok((dc, ac[k := Built(bits, WithValues(ac[k], vals))], 17 + count))
        else Ok((dc[k := Built(bits, WithValues(dc[k], vals))], ac, 17 + count))
  }

  /** ParseDHT's loop from byte p with length bytes of the segment left: (m_HTDC, m_HTAC). */
  function DhtTables(dc: seq<Table>, ac: seq<Table>, buf: seq<byte>, p: nat, length: int)
    : (r: Result<(seq<Table>, seq<Table>), Fault>)
    requires TablesOk(dc) && TablesOk(ac)
    ensures r.Ok? ==> TablesOk(r.value.0) && TablesOk(r.value.1)
    decreases if length > 0 then length else 0
  {
    if length <= 0 then Ok((dc, ac))
    else
      var t :- DhtTable(dc, ac, buf, p);
      DhtTables(t.0, t.1, buf, p + t.2, length - t.2)
  }

  /** ParseDHT: tables (class and index, 16 counts, the symbols) while the segment lasts. */
  function ParseDht(jd: Jdata, buf: seq<byte>, at: nat): (r: Result<Jdata, Fault>)
    requires JdOk(jd)
    ensures r.Ok? ==> JdOk(r.value)
  {
    if at + 2 > |buf| then Err(Truncated)
    else
      var t :- DhtTables(jd.htdc, jd.htac, buf, at + 2, Be16(buf, at) - 2);
      Ok(jd.(htdc := t.0, htac := t.1))
  }

  // ---------------------------------------------------------------------
  // ParseSOS

  /** The component loop of ParseSOS from byte p with n components to go. */
  function SosBindings(cs: seq<Component>, buf: seq<byte>, p: nat, n: nat): (r: Result<seq<Component>, Fault>)
    requires |cs| == 4
    ensures r.Ok? ==> |r.value| == 4
    decreases n
  {
    if n == 0 then Ok(cs)
    else if p + 2 > |buf| then Err(Truncated)
    else
      var cid, table := buf[p] as nat, buf[p + 1] as nat;
      if table % 16 >= 4 || table / 16 >= 4 then Err(BadTableIndex)
      else if cid >= 4 then Err(Unsupported)
      else SosBindings(cs[cid := cs[cid].(acTable := Some(table % 16), dcTable := Some(table / 16))], buf, p + 2, n - 1)
  }

  /**
   * ParseSOS: exactly three components, each bound to the DC table of its
   * selector's high nibble and the AC table of its low nibble; the scan
   * starts after the three bytes of spectral selection.
   */
  function ParseSos(jd: Jdata, buf: seq<byte>, at: nat): (r: Result<Jdata, Fault>)
    requires JdOk(jd)
    ensures r.Ok? ==> JdOk(r.value)
  {
    if at + 3 > |buf| then Err(Truncated)
    else if buf[at + 2] != 3 then Err(BadComponentCount)
    else
      var cs :- SosBindings(jd.components, buf, at + 3, 3);
      Ok(jd.(components := cs, stream := at + 12))
  }

  // ---------------------------------------------------------------------
  // ParseJFIF and JpegParseHeader

  /** The first index from q on that does not hold a fill byte 0xFF. */
  function FillEnd(buf: seq<byte>, q: nat): (r: nat)
    requires q <= |buf|
    ensures q <= r <= |buf|
    decreases |buf| - q
  {
    if q == |buf| || buf[q] != 0xFF then q else FillEnd(buf, q + 1)
  }

  const SOF: byte := 0xC0
  const DHT: byte := 0xC4
  const SOI: byte := 0xD8
  const EOI: byte := 0xD9
  const SOS: byte := 0xDA
  const DQT: byte := 0xDB
  const DRI: byte := 0xDD

  /** What one pass of ParseJFIF's loop leaves: more segments from next, or the scan after SOS. */
  datatype Pass = More(jd: Jdata, next: nat, dht: bool) | Last(jd: Jdata)

  /**
   * One pass of ParseJFIF's loop at byte p, dht telling whether a DHT
   * segment has been seen: the segment starts with 0xFF, fill bytes 0xFF are
   * skipped, and the marker's handler runs on the bytes from the length
   * field, which is then skipped (SOI and EOI have none). DRI stores the word
   * at the length field. Other markers are skipped.
   */
  function SegmentPass(jd: Jdata, buf: seq<byte>, p: nat, dht: bool): (r: Result<Pass, Fault>)
    requires JdOk(jd)
    ensures r.Ok? ==> JdOk(r.value.jd) && (r.value.More? ==> p < r.value.next)
  {
    if p >= |buf| then Err(Truncated)
    else if buf[p] != 0xFF then Err(BadSegment)
    else
      var q := FillEnd(buf, p + 1);
      if q + 3 > |buf| then Err(Truncated)
      else
        var marker, at := buf[q], q + 1;
        var len := Be16(buf, at);
        if marker == SOF then
          var jd' :- ParseSof(jd, buf, at);
          Ok(More(jd', at + len, dht))
        else if marker == DQT then
          var jd' :- ParseDqt(jd, buf, at);
          Ok(More(jd', at + len, dht))
        else if marker == SOS then
          var jd' :- ParseSos(jd, buf, at);
          Ok(Last(jd'))
        else if marker == DHT then
          var jd' :- ParseDht(jd, buf, at);
          Ok(More(jd', at + len, true))
        else if marker == SOI || marker == EOI then Ok(More(jd, at, dht))
        else if marker == DRI then Ok(More(jd.(restartInterval := len), at + len, dht))
        else Ok(More(jd, at + len, dht))
  }

  /** ParseJFIF's loop from byte p: segments up to SOS, after which a DHT segment must have been seen. */
  function Segments(jd: Jdata, buf: seq<byte>, p: nat, dht: bool): (r: Result<Jdata, Fault>)
    requires JdOk(jd)
    ensures r.Ok? ==> JdOk(r.value)
    decreases if p < |buf| then |buf| - p else 0
  {
    var s :- SegmentPass(jd, buf, p, dht);
    match s
    case Last(jd') => if dht then Ok(jd') else Err(NoHuffmanTable)
    case More(jd', next, dht') => Segments(jd', buf, next, dht')
  }

  /** JpegParseHeader: the file starts with FF D8, and the segments follow. */
  function ParseHeader(buf: seq<byte>): (r: Result<Jdata, Fault>)
    ensures r.Ok? ==> JdOk(r.value)
  {
    if |buf| < 2 then Err(Truncated)
    else if buf[0] != 0xFF || buf[1] != SOI then Err(NotJpeg)
    else Segments(Zeroed(), buf, 2, false)
  }

  /** A parser's outcome: its error, or success with the state the function gives. */
  ghost predicate Outcome(spec: Result<Jdata, Fault>, err: Option<Fault>, now: Jdata)
  {
    match spec
    case Err(e) => err == Some(e)
    case Ok(v) => err == None && now == v
  }

  // ---------------------------------------------------------------------
  // The parsing methods

  class JpegData {
    var width: nat
    var height: nat
    var stream: nat
    var restartInterval: nat
    var components: seq<Component>
    var qTables: seq<seq<int>>
    var htdc: seq<Table>
    var htac: seq<Table>

    ghost function Value(): Jdata
      reads this
    {
      Jdata(width, height, stream, restartInterval, components, qTables, htdc, htac)
    }

    ghost predicate Valid()
      reads this
    {
      JdOk(Value())
    }

    /** stJpegData jdec = { 0x0 } */
    constructor ()
      ensures Valid() && Value() == Zeroed()
    {
      width, height, stream, restartInterval := 0, 0, 0, 0;
      components := seq(4, _ => EmptyComponent());
      qTables := seq(4, _ => seq(64, _ => 0));
      htdc := seq(4, _ => EmptyTable());
      htac := seq(4, _ => EmptyTable());
    }

    method ParseSOF(buf: seq<byte>, at: nat) returns (err: Option<Fault>)
      requires Valid()
      modifies this
      ensures Valid() && Outcome(ParseSof(old(Value()), buf, at), err, Value())
    {
      if at + 8 > |buf| {
        return Some(Truncated);
      }
      var h, w := Be16(buf, at + 3), Be16(buf, at + 5);
      var cs := ReadSofComponents(components, buf, at + 8, buf[at + 7] as nat);
      if cs.Err? {
        return Some(cs.error);
      }
      components, width, height := cs.value, w, h;
      return None;
    }

    method ParseDQT(buf: seq<byte>, at: nat) returns (err: Option<Fault>)
      requires Valid()
      modifies this
      ensures Valid() && Outcome(ParseDqt(old(Value()), buf, at), err, Value())
    {
      if at + 2 > |buf| {
        return Some(Truncated);
      }
      var qs := ReadDqtTables(qTables, buf, at + 2, Be16(buf, at) - 2);
      if qs.Err? {
        return Some(qs.error);
      }
      qTables := qs.value;
      return None;
    }

    method ParseDHT(buf: seq<byte>, at: nat) returns (err: Option<Fault>)
      requires Valid()
      modifies this
      ensures Valid() && Outcome(ParseDht(old(Value()), buf, at), err, Value())
    {
      if at + 2 > |buf| {
        return Some(Truncated);
      }
      var t := ReadDhtTables(htdc, htac, buf, at + 2, Be16(buf, at) - 2);
      if t.Err? {
        return Some(t.error);
      }
      htdc, htac := t.value.0, t.value.1;
      return None;
    }

    method ParseSOS(buf: seq<byte>, at: nat) returns (err: Option<Fault>)
      requires Valid()
      modifies this
      ensures Valid() && Outcome(ParseSos(old(Value()), buf, at), err, Value())
    {
      if at + 3 > |buf| {
        return Some(Truncated);
      }
      var nrComponents := buf[at + 2] as nat;
      if nrComponents != 3 {
        return Some(BadComponentCount);
      }
      var cs := ReadSosBindings(components, buf, at + 3, nrComponents);
      if cs.Err? {
        return Some(cs.error);
      }
      components := cs.value;
      stream := at + 3 + 2 * nrComponents + 3;
      return None;
    }

    /** One pass of ParseJFIF's loop: the next segment's index, whether it was SOS, whether a DHT has been seen. */
    method ParseSegment(buf: seq<byte>, p: nat, dht: bool) returns (err: Option<Fault>, next: nat, sos: bool, dht': bool)
      requires Valid()
      modifies this
      ensures Valid()
      ensures match SegmentPass(old(Value()), buf, p, dht)
              case Err(e) => err == Some(e)
              case Ok(More(jd, q, d)) => err == None && !sos && Value() == jd && next == q && dht' == d
              case Ok(Last(jd)) => err == None && sos && Value() == jd && dht' == dht
    {
      next, sos, dht' := p, false, dht;
      if p >= |buf| {
        return Some(Truncated), next, sos, dht';
      }
      if buf[p] != 0xFF {
        return Some(BadSegment), next, sos, dht';
      }
      var q := SkipFill(buf, p + 1);
      if q + 3 > |buf| {
        return Some(Truncated), next, sos, dht';
      }
      var marker, at := buf[q], q + 1;
      var chuckLen := Be16(buf, at);
      if marker == SOF {
        err := ParseSOF(buf, at);
      } else if marker == DQT {
        err := ParseDQT(buf, at);
      } else if marker == SOS {
        err := ParseSOS(buf, at);
        sos := true;
      } else if marker == DHT {
        err := ParseDHT(buf, at);
        dht' := true;
      } else if marker == SOI || marker == EOI {
        err, chuckLen := None, 0;
      } else if marker == DRI {
        err := None;
        restartInterval := Be16(buf, at);
      } else {
        err := None;
      }
      next := at + chuckLen;
    }

    method ParseJFIF(buf: seq<byte>, start: nat) returns (err: Option<Fault>)
      requires Valid()
      modifies this
      ensures Valid() && Outcome(Segments(old(Value()), buf, start, false), err, Value())
    {
      ghost var goal := Segments(Value(), buf, start, false);
      var p: nat := start;
      var sos, dht := false, false;
      while !sos
        invariant Valid()
        invariant !sos ==> goal == Segments(Value(), buf, p, dht)
        invariant sos ==> goal == if dht then Ok(Value()) else Err(NoHuffmanTable)
        decreases !sos, if p < |buf| then |buf| - p else 0
      {
        err, p, sos, dht := ParseSegment(buf, p, dht);
        if err.Some? {
          return;
        }
      }
      if !dht {
        return Some(NoHuffmanTable);
      }
      return None;
    }

    method JpegParseHeader(buf: seq<byte>) returns (err: Option<Fault>)
      requires Valid() && Value() == Zeroed()
      modifies this
      ensures Valid() && Outcome(ParseHeader(buf), err, Value())
    {
      if |buf| < 2 {
        return Some(Truncated);
      }
      if buf[0] != 0xFF || buf[1] != SOI {
        return Some(NotJpeg);
      }
      err := ParseJFIF(buf, 2);
    }
  }

  /** ParseSOF's component loop. */
  method ReadSofComponents(cs0: seq<Component>, buf: seq<byte>, p0: nat, n: nat) returns (r: Result<seq<Component>, Fault>)
    requires |cs0| == 4
    ensures r == SofComponents(cs0, buf, p0, n)
  {
    var cs, i := cs0, 0;
    var p: nat := p0;
    while i < n
      invariant i <= n && |cs| == 4 && SofComponents(cs0, buf, p0, n) == SofComponents(cs, buf, p, n - i)
    {
      if p + 3 > |buf| {
        return Err(Truncated);
      }
      var cid, samplingFactor, qTable := buf[p] as nat, buf[p + 1] as nat, buf[p + 2] as nat;
      if cid >= 4 {
        return Err(Unsupported);
      }
      cs := cs[cid := cs[cid].(vFactor := samplingFactor % 16, hFactor := samplingFactor / 16, qTable := Some(qTable))];
      p, i := p + 3, i + 1;
    }
    return Ok(cs);
  }

  /** ParseDQT's table loop. */
  method ReadDqtTables(qs0: seq<seq<int>>, buf: seq<byte>, p0: nat, length0: int) returns (r: Result<seq<seq<int>>, Fault>)
    requires |qs0| == 4
    ensures r == DqtTables(qs0, buf, p0, length0)
  {
    var qs, length := qs0, length0;
    var p: nat := p0;
    while length > 0
      invariant |qs| == 4 && DqtTables(qs0, buf, p0, length0) == DqtTables(qs, buf, p, length)
    {
      if p >= |buf| {
        return Err(Truncated);
      }
      var qi := buf[p] as nat;
      var qprecision, qindex := qi / 16, qi % 16;
      if qprecision != 0 {
        return Err(BadPrecision);
      }
      if qindex >= 4 {
        return Err(BadTableIndex);
      }
      if p + 65 > |buf| {
        return Err(Truncated);
      }
      var table := BuildQuantizationTable(buf[p + 1..p + 65]);
      qs := qs[qindex := table];
      p := p + 65;
      length := length - 65;
    }
    return Ok(qs);
  }

  /** ParseDHT's loop has the tables dc and ac and the rest of the segment from p to go. */
  ghost predicate DhtLeft(goal: Result<(seq<Table>, seq<Table>), Fault>,
                          dc: seq<Table>, ac: seq<Table>, buf: seq<byte>, p: nat, length: int)
  {
    TablesOk(dc) && TablesOk(ac) && goal == DhtTables(dc, ac, buf, p, length)
  }

  /** A pass of ParseDHT's loop: its table, then the rest of the segment. */
  lemma DhtTablesNext(goal: Result<(seq<Table>, seq<Table>), Fault>,
                      dc: seq<Table>, ac: seq<Table>, buf: seq<byte>, p: nat, length: int,
                      r: Result<(seq<Table>, seq<Table>, nat), Fault>)
    requires DhtLeft(goal, dc, ac, buf, p, length) && length > 0 && r == DhtTable(dc, ac, buf, p)
    ensures r.Err? ==> goal == Err(r.error)
    ensures r.Ok? ==> DhtLeft(goal, r.value.0, r.value.1, buf, p + r.value.2, length - r.value.2)
  {
  }

  /**
   * One pass of ParseDHT's table loop: the failure that ends it, or the
   * tables and the rest of the segment after one more table.
   */
  method NextDhtTable(dc: seq<Table>, ac: seq<Table>, buf: seq<byte>, p: nat, length: int,
                      ghost goal: Result<(seq<Table>, seq<Table>), Fault>)
    returns (err: Option<Fault>, dc': seq<Table>, ac': seq<Table>, p': nat, length': int)
    requires DhtLeft(goal, dc, ac, buf, p, length) && length > 0
    ensures err.Some? ==> goal == Err(err.value)
    ensures err.None? ==> length' < length && DhtLeft(goal, dc', ac', buf, p', length')
  {
    var t := ReadDhtTable(dc, ac, buf, p);
    DhtTablesNext(goal, dc, ac, buf, p, length, t);
    if t.Err? {
      return Some(t.error), dc, ac, p, length;
    }
    return None, t.value.0, t.value.1, p + t.value.2, length - t.value.2;
  }

  /** ParseDHT's table loop. */
  method ReadDhtTables(dc0: seq<Table>, ac0: seq<Table>, buf: seq<byte>, p0: nat, length0: int)
    returns (r: Result<(seq<Table>, seq<Table>), Fault>)
    requires TablesOk(dc0) && TablesOk(ac0)
    ensures r == DhtTables(dc0, ac0, buf, p0, length0)
  {
    var dc, ac, length := dc0, ac0, length0;
    var p: nat := p0;
    ghost var goal := DhtTables(dc0, ac0, buf, p0, length0);
    while length > 0
      invariant DhtLeft(goal, dc, ac, buf, p, length)
    {
      var err;
      err, dc, ac, p, length := NextDhtTable(dc, ac, buf, p, length, goal);
      if err.Some? {
        return Err(err.value);
      }
    }
    return Ok((dc, ac));
  }

  /** One pass of ParseDHT's loop: the class and index, the 16 counts, the symbols, BuildHuffmanTable. */
  method ReadDhtTable(dc: seq<Table>, ac: seq<Table>, buf: seq<byte>, p: nat)
    returns (r: Result<(seq<Table>, seq<Table>, nat), Fault>)
    requires TablesOk(dc) && TablesOk(ac)
    ensures r == DhtTable(dc, ac, buf, p)
  {
    if p + 17 > |buf| {
      return Err(Truncated);
    }
    var index := buf[p];
    var bits, count := HuffBits(buf, p + 1);
    if count > 256 {
      return Err(TooManyCodes);
    }
    if index & 0x0F >= 4 {
      return Err(BadTableIndex);
    }
    if p + 17 + count > |buf| {
      return Err(Truncated);
    }
    var k := (index & 0x0F) as nat;
    if index & 0xF0 != 0 {
      var t := CopyValues(ac[k], buf, p + 17, count);
      t := FillTable(bits, t);
      return Ok((dc, ac[k := t], 17 + count));
    } else {
      var t := CopyValues(dc[k], buf, p + 17, count);
      t := FillTable(bits, t);
      return Ok((dc[k := t], ac, 17 + count));
    }
  }

  /** ParseSOS's component loop. */
  method ReadSosBindings(cs0: seq<Component>, buf: seq<byte>, p0: nat, n: nat) returns (r: Result<seq<Component>, Fault>)
    requires |cs0| == 4
    ensures r == SosBindings(cs0, buf, p0, n)
  {
    var cs, i := cs0, 0;
    var p: nat := p0;
    while i < n
      invariant i <= n && |cs| == 4 && SosBindings(cs0, buf, p0, n) == SosBindings(cs, buf, p, n - i)
    {
      if p + 2 > |buf| {
        return Err(Truncated);
      }
      var cid, table := buf[p] as nat, buf[p + 1] as nat;
      if table % 16 >= 4 {
        return Err(BadTableIndex);
      }
      if table / 16 >= 4 {
        return Err(BadTableIndex);
      }
      if cid >= 4 {
        return Err(Unsupported);
      }
      cs := cs[cid := cs[cid].(acTable := Some(table % 16), dcTable := Some(table / 16))];
      p, i := p + 2, i + 1;
    }
    return Ok(cs);
  }

  /** The fill-byte loop of ParseJFIF: `while (*stream == 0xff) stream++`. */
  method SkipFill(buf: seq<byte>, q0: nat) returns (q: nat)
    requires q0 <= |buf|
    ensures q == FillEnd(buf, q0)
  {
    q := q0;
    while q < |buf| && buf[q] == 0xFF
      invariant q0 <= q <= |buf| && FillEnd(buf, q0) == FillEnd(buf, q)
    {
      q := q + 1;
    }
  }

  /** BuildQuantizationTable: the 64 entries in the order they are stored. */
  method BuildQuantizationTable(refTable: seq<byte>) returns (qtable: seq<int>)
    requires |refTable| == 64
    ensures qtable == Ints(refTable)
  {
    qtable := [];
    var c := 0;
    for i := 0 to 8
      invariant c == 8 * i && qtable == Ints(refTable[..c])
    {
      for j := 0 to 8
        invariant c == 8 * i + j && qtable == Ints(refTable[..c])
      {
        qtable := qtable + [refTable[c] as int];
        c := c + 1;
      }
    }
    assert refTable[..64] == refTable;
  }

  /** The counts loop of ParseDHT: huff_bits[0] = 0, the 16 counts and their sum. */
  method HuffBits(buf: seq<byte>, p: nat) returns (bits: seq<int>, count: nat)
    requires p + 16 <= |buf|
    ensures bits == Histogram(buf, p) && count == Total(bits)
  {
    ghost var h := Histogram(buf, p);
    bits := [0];
    count := 0;
    var i := 1;
    while i < 17
      invariant 1 <= i <= 17 && bits == h[..i] && count == CountBelow(h, i)
    {
      bits := bits + [buf[p + i - 1] as int];
      count := count + bits[i];
      i := i + 1;
    }
    assert bits == h;
  }

  /** The symbol loop of ParseDHT: the count symbols from p into the front of the table's m_hufVal. */
  method CopyValues(t: HuffmanTable, buf: seq<byte>, p: nat, count: nat) returns (r: HuffmanTable)
    requires WellSized(t) && count <= 256 && p + count <= |buf|
    ensures r == WithValues(t, Ints(buf[p..p + count]))
  {
    var huffval := t.hufVal;
    var i := 0;
    while i < count
      invariant i <= count && |huffval| == |t.hufVal|
      invariant forall k :: 0 <= k < i ==> huffval[k] == buf[p + k] as int
      invariant forall k :: i <= k < |huffval| ==> huffval[k] == t.hufVal[k]
    {
      huffval := huffval[i := buf[p + i] as int];
      i := i + 1;
    }
    ghost var vals := Ints(buf[p..p + count]);
    assert huffval == vals + t.hufVal[count..] by {
      forall k | 0 <= k < |huffval| ensures huffval[k] == (vals + t.hufVal[count..])[k] {
        if k < count {
          assert buf[p..p + count][k] == buf[p + k];
        }
      }
    }
    r := t.(hufVal := huffval);
  }

  /** BuildHuffmanTable on the histogram just read. */
  method FillTable(bits: seq<int>, t: HuffmanTable) returns (r: HuffmanTable)
    requires IsHistogram(bits) && WellSized(t) && Total(bits) <= 256
    ensures r == Built(bits, t)
  {
    r := BuildHuffmanTable(bits, t);
    BuiltTable(bits, t, r);
  }
}
