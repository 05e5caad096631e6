/**
 * The decoder's header parsing against the header the encoder writes: for
 * every width and height that fit the SOF0 fields, JpegParseHeader on the
 * file jpeg_encode_data starts with reads back the dimensions, binds the
 * three components to the tables the encoder used, loads its quantisation
 * tables and builds from its DHT segment exactly the decoder blocks of the
 * four standard Huffman tables, and leaves the scan at the first byte after
 * the header.
 */
module HeaderRoundTrip {
  import opened Common
  import opened Huffman
  import opened HuffmanBuild
  import opened Tables
  import opened StdTables
  import opened JpegSave
  import opened JpegParse

  // ---------------------------------------------------------------------
  // Bytes in a buffer

  /** The buffer holds seg from index off. */
  predicate At(buf: seq<byte>, off: nat, seg: seq<byte>)
  {
    off + |seg| <= |buf| && buf[off..off + |seg|] == seg
  }

  lemma AtByte(buf: seq<byte>, off: nat, seg: seq<byte>, i: nat)
    requires At(buf, off, seg) && i < |seg|
    ensures buf[off + i] == seg[i]
  {
    assert buf[off..off + |seg|][i] == buf[off + i];
  }

  lemma AtSplit(buf: seq<byte>, off: nat, a: seq<byte>, b: seq<byte>)
    requires At(buf, off, a + b)
    ensures At(buf, off, a) && At(buf, off + |a|, b)
  {
    assert buf[off..off + |a|] == (a + b)[..|a|];
    assert buf[off + |a|..off + |a| + |b|] == (a + b)[|a|..];
  }

  lemma ByteBack(b: byte)
    ensures (b as int) as byte == b
  {
  }

  lemma MarkerSplit(v: nat, m: nat)
    requires m < 256 && v == 0xFF00 + m
    ensures v / 256 == 255 && v % 256 == m
  {
  }

  /** A marker as a word: 0xFF, then its code. */
  lemma MarkerWord(m: byte)
    ensures Word(0xFF00 + m as nat) == [0xFF, m]
  {
    var v := 0xFF00 + m as nat;
    MarkerSplit(v, m as nat);
    ByteBack(m);
    assert Word(v) == [255 as byte, (m as nat) as byte];
  }

  /** BYTE_TO_WORD reads back Word. */
  lemma Be16Word(buf: seq<byte>, p: nat, v: nat)
    requires v < 65536 && At(buf, p, Word(v))
    ensures Be16(buf, p) == v
  {
    AtByte(buf, p, Word(v), 0);
    AtByte(buf, p, Word(v), 1);
    ByteRoundTrip(v / 256);
    ByteRoundTrip(v % 256);
  }

  /**
   * A segment that starts with marker m and the length field len: ParseJFIF
   * finds the marker, and the handler's bytes start after it.
   */
  lemma SegmentStart(buf: seq<byte>, off: nat, m: byte, len: nat)
    requires m != 0xFF && len < 65536 && At(buf, off, Word(0xFF00 + m as nat)) && At(buf, off + 2, Word(len))
    ensures off + 4 <= |buf| && buf[off] == 0xFF && buf[off + 1] == m
    ensures FillEnd(buf, off + 1) == off + 1 && Be16(buf, off + 2) == len
  {
    MarkerWord(m);
    AtByte(buf, off, Word(0xFF00 + m as nat), 0);
    AtByte(buf, off, Word(0xFF00 + m as nat), 1);
    Be16Word(buf, off + 2, len);
  }

  // ---------------------------------------------------------------------
  // One segment at a time

  lemma App0Pass(jd: Jdata, buf: seq<byte>, off: nat, dht: bool)
    requires JdOk(jd) && At(buf, off, App0())
    ensures SegmentPass(jd, buf, off, dht) == Ok(More(jd, off + 18, dht))
  {
    var head := Word(0xFFE0) + Word(16);
    assert App0() == head + (App0()[4..]);
    AtSplit(buf, off, head, App0()[4..]);
    AtSplit(buf, off, Word(0xFFE0), Word(16));
    SegmentStart(buf, off, 0xE0, 16);
    App0Length();
  }

  lemma DqtPass(jd: Jdata, buf: seq<byte>, off: nat, y: seq<byte>, cb: seq<byte>, dht: bool)
    requires JdOk(jd) && |y| == 64 && |cb| == 64 && At(buf, off, Dqt(y, cb))
    ensures SegmentPass(jd, buf, off, dht) == Ok(More(jd.(qTables := jd.qTables[0 := Ints(y)][1 := Ints(cb)]), off + 134, dht))
  {
    var x1 := Word(0xFFDB) + Word(132);
    var x2 := x1 + [0];
    var x3 := x2 + y;
    var x4 := x3 + [1];
    AtSplit(buf, off, x4, cb);
    AtSplit(buf, off, x3, [1]);
    AtSplit(buf, off, x2, y);
    AtSplit(buf, off, x1, [0]);
    AtSplit(buf, off, Word(0xFFDB), Word(132));
    SegmentStart(buf, off, 0xDB, 132);
    AtByte(buf, off + 4, [0], 0);
    AtByte(buf, off + 69, [1], 0);
    var qs1 := jd.qTables[0 := Ints(y)];
    var qs2 := qs1[1 := Ints(cb)];
    assert DqtTables(qs1, buf, off + 69, 65) == DqtTables(qs2, buf, off + 134, 0) == Ok(qs2);
    assert DqtTables(jd.qTables, buf, off + 4, 130) == Ok(qs2);
  }

  /** What SOF0 sets of each component: H = V = 1, table 0 for Y and table 1 for Cb and Cr. */
  function Sampled(cs: seq<Component>): (r: seq<Component>)
    requires |cs| == 4
  {
    cs[1 := cs[1].(vFactor := 1, hFactor := 1, qTable := Some(0))]
      [2 := cs[2].(vFactor := 1, hFactor := 1, qTable := Some(1))]
      [3 := cs[3].(vFactor := 1, hFactor := 1, qTable := Some(1))]
  }

  /** The three components of the encoder's SOF0 and SOS: Y on table 0 and Cb, Cr on table 1 throughout. */
  function Bound(cs: seq<Component>): (r: seq<Component>)
    requires |cs| == 4
  {
    cs[1 := Component(1, 1, Some(0), Some(0), Some(0), cs[1].previousDC)]
      [2 := Component(1, 1, Some(1), Some(1), Some(1), cs[2].previousDC)]
      [3 := Component(1, 1, Some(1), Some(1), Some(1), cs[3].previousDC)]
  }

  /** The component loop of ParseSOF on the encoder's three components. */
  lemma SofComponentsStd(cs: seq<Component>, buf: seq<byte>, p: nat)
    requires |cs| == 4 && At(buf, p, [1, 0x11, 0, 2, 0x11, 1, 3, 0x11, 1])
    ensures SofComponents(cs, buf, p, 3) == Ok(Sampled(cs))
  {
    var t: seq<byte> := [1, 0x11, 0, 2, 0x11, 1, 3, 0x11, 1];
    forall i | 0 <= i < 9
      ensures buf[p + i] == t[i]
    {
      AtByte(buf, p, t, i);
    }
    var c1 := cs[1 := cs[1].(vFactor := 1, hFactor := 1, qTable := Some(0))];
    var c2 := c1[2 := cs[2].(vFactor := 1, hFactor := 1, qTable := Some(1))];
    var c3 := c2[3 := cs[3].(vFactor := 1, hFactor := 1, qTable := Some(1))];
    SofStep(cs, buf, p, 3, 1, 0x11, 0, c1);
    SofStep(c1, buf, p + 3, 2, 2, 0x11, 1, c2);
    SofStep(c2, buf, p + 6, 1, 3, 0x11, 1, c3);
    assert c3 == Sampled(cs);
  }

  /** One pass of ParseSOF's component loop, on the bytes cid, sf, q of one component. */
  lemma SofStep(cs: seq<Component>, buf: seq<byte>, p: nat, n: nat, cid: nat, sf: nat, q: nat, cs': seq<Component>)
    requires |cs| == 4 && n > 0 && p + 3 <= |buf| && cid < 4
    requires buf[p] as nat == cid && buf[p + 1] as nat == sf && buf[p + 2] as nat == q
    requires cs' == cs[cid := cs[cid].(vFactor := sf % 16, hFactor := sf / 16, qTable := Some(q))]
    ensures SofComponents(cs, buf, p, n) == SofComponents(cs', buf, p + 3, n - 1)
  {
  }

  /** The component loop of ParseSOS on the encoder's three components. */
  lemma SosBindingsStd(cs: seq<Component>, buf: seq<byte>, p: nat)
    requires |cs| == 4 && At(buf, p, [1, 0, 2, 0x11, 3, 0x11])
    ensures SosBindings(Sampled(cs), buf, p, 3) == Ok(Bound(cs))
  {
    var t: seq<byte> := [1, 0, 2, 0x11, 3, 0x11];
    forall i | 0 <= i < 6
      ensures buf[p + i] == t[i]
    {
      AtByte(buf, p, t, i);
    }
    var s := Sampled(cs);
    var c1 := s[1 := s[1].(acTable := Some(0), dcTable := Some(0))];
    var c2 := c1[2 := s[2].(acTable := Some(1), dcTable := Some(1))];
    var c3 := c2[3 := s[3].(acTable := Some(1), dcTable := Some(1))];
    SosStep(s, buf, p, 3, 1, 0, c1);
    SosStep(c1, buf, p + 2, 2, 2, 0x11, c2);
    SosStep(c2, buf, p + 4, 1, 3, 0x11, c3);
    assert c3 == Bound(cs);
  }

  /** One pass of ParseSOS's component loop, on the bytes cid, table of one component. */
  lemma SosStep(cs: seq<Component>, buf: seq<byte>, p: nat, n: nat, cid: nat, table: nat, cs': seq<Component>)
    requires |cs| == 4 && n > 0 && p + 2 <= |buf| && cid < 4 && table % 16 < 4 && table / 16 < 4
    requires buf[p] as nat == cid && buf[p + 1] as nat == table
    requires cs' == cs[cid := cs[cid].(acTable := Some(table % 16), dcTable := Some(table / 16))]
    ensures SosBindings(cs, buf, p, n) == SosBindings(cs', buf, p + 2, n - 1)
  {
  }

  /** The bytes of SOF0 as ParseJFIF and ParseSOF read them. */
  lemma Sof0Bytes(buf: seq<byte>, off: nat, w: nat, h: nat)
    requires w < 65536 && h < 65536 && At(buf, off, Sof0(w, h))
    ensures off + 19 <= |buf| && buf[off] == 0xFF && buf[off + 1] == SOF
    ensures FillEnd(buf, off + 1) == off + 1 && Be16(buf, off + 2) == 17
    ensures Be16(buf, off + 5) == h && Be16(buf, off + 7) == w && buf[off + 9] == 3
    ensures At(buf, off + 10, [1, 0x11, 0, 2, 0x11, 1, 3, 0x11, 1])
  {
    var t: seq<byte> := [3, 1, 0x11, 0, 2, 0x11, 1, 3, 0x11, 1];
    var x1 := Word(0xFFC0) + Word(17);
    var x2 := x1 + [8];
    var x3 := x2 + Word(h);
    var x4 := x3 + Word(w);
    AtSplit(buf, off, x4, t);
    AtSplit(buf, off, x3, Word(w));
    AtSplit(buf, off, x2, Word(h));
    AtSplit(buf, off, x1, [8]);
    AtSplit(buf, off, Word(0xFFC0), Word(17));
    SegmentStart(buf, off, 0xC0, 17);
    Be16Word(buf, off + 5, h);
    Be16Word(buf, off + 7, w);
    assert t == [3] + t[1..];
    AtSplit(buf, off + 9, [3], t[1..]);
    AtByte(buf, off + 9, [3], 0);
  }

  lemma Sof0Pass(jd: Jdata, buf: seq<byte>, off: nat, w: nat, h: nat, dht: bool)
    requires JdOk(jd) && w < 65536 && h < 65536 && At(buf, off, Sof0(w, h))
    ensures SegmentPass(jd, buf, off, dht)
         == Ok(More(jd.(components := Sampled(jd.components), width := w, height := h), off + 19, dht))
  {
    Sof0Bytes(buf, off, w, h);
    SofComponentsStd(jd.components, buf, off + 10);
  }

  /** The bytes of SOS as ParseJFIF and ParseSOS read them. */
  lemma SosBytes(buf: seq<byte>, off: nat)
    requires At(buf, off, Sos())
    ensures off + 14 <= |buf| && buf[off] == 0xFF && buf[off + 1] == SOS
    ensures FillEnd(buf, off + 1) == off + 1 && buf[off + 4] == 3
    ensures At(buf, off + 5, [1, 0, 2, 0x11, 3, 0x11])
  {
    var t: seq<byte> := [3, 1, 0, 2, 0x11, 3, 0x11, 0, 0x3F, 0];
    var x1 := Word(0xFFDA) + Word(12);
    AtSplit(buf, off, x1, t);
    AtSplit(buf, off, Word(0xFFDA), Word(12));
    SegmentStart(buf, off, 0xDA, 12);
    assert t == [3] + t[1..7] + t[7..];
    AtSplit(buf, off + 4, [3] + t[1..7], t[7..]);
    AtSplit(buf, off + 4, [3], t[1..7]);
    AtByte(buf, off + 4, [3], 0);
  }

  lemma SosPass(jd: Jdata, buf: seq<byte>, off: nat, cs: seq<Component>, dht: bool)
    requires JdOk(jd) && |cs| == 4 && jd.components == Sampled(cs) && At(buf, off, Sos())
    ensures SegmentPass(jd, buf, off, dht) == Ok(Last(jd.(components := Bound(cs), stream := off + 14)))
  {
    SosBytes(buf, off);
    SosBindingsStd(cs, buf, off + 5);
  }

  // ---------------------------------------------------------------------
  // DHT

  /** The counts a DHT table carries read back as the histogram they came from. */
  lemma HistogramOfCounts(bits: seq<int>)
    requires IsHistogram(bits) && bits[0] == 0
    ensures [0] + Ints(Counts(bits)) == bits
  {
    var r := [0] + Ints(Counts(bits));
    forall i | 1 <= i < 17
      ensures r[i] == bits[i]
    {
      ByteRoundTrip(bits[i]);
    }
  }

  /** The symbols a DHT table carries read back as the list they came from. */
  lemma IntsOfValueBytes(vals: seq<int>)
    requires forall i :: 0 <= i < |vals| ==> 0 <= vals[i] < 256
    ensures Ints(ValueBytes(vals)) == vals
  {
    forall i | 0 <= i < |vals|
      ensures Ints(ValueBytes(vals))[i] == vals[i]
    {
      ByteRoundTrip(vals[i]);
    }
  }

  /** A table with the histogram bits and the symbols vals built in, as ParseDHT leaves it. */
  function Loaded(t: Table, bits: seq<int>, vals: seq<int>): (r: Table)
    requires IsHistogram(bits) && Total(bits) == |vals| <= 256
  {
    Built(bits, WithValues(t, vals))
  }

  /** The table ParseDHT builds decodes with the canonical blocks of the histogram and the symbols it read. */
  lemma UsedLoaded(t: Table, bits: seq<int>, vals: seq<int>)
    requires IsHistogram(bits) && Total(bits) == |vals| <= 256
    ensures Used(Loaded(t, bits, vals)) == CanonicalBlocks(bits, vals)
  {
    var vs := WithValues(t, vals).hufVal;
    UsedBuilt(bits, WithValues(t, vals));
    assert forall p :: 0 <= p < |vals| ==> vs[p] == vals[p];
  }

  /** Where a DHT table with class and number info goes. */
  function Installed(dc: seq<Table>, ac: seq<Table>, info: byte, bits: seq<int>, vals: seq<int>)
    : (r: (seq<Table>, seq<Table>, nat))
    requires TablesOk(dc) && TablesOk(ac) && info & 0x0F < 4
    requires IsHistogram(bits) && Total(bits) == |vals| <= 256
  {
    var k := (info & 0x0F) as nat;
    if info & 0xF0 != 0 then (dc, ac[k := Loaded(ac[k], bits, vals)], 17 + |vals|)
    else (dc[k := Loaded(dc[k], bits, vals)], ac, 17 + |vals|)
  }

  /** One table of a DHT segment as set_DHTinfo and write_DHTinfo lay it out, read by ParseDHT. */
  lemma SpecTable(dc: seq<Table>, ac: seq<Table>, buf: seq<byte>, p: nat, info: byte, bits: seq<int>, vals: seq<int>)
    requires TablesOk(dc) && TablesOk(ac) && info & 0x0F < 4
    requires IsHistogram(bits) && bits[0] == 0 && Total(bits) == |vals| <= 256
    requires forall i :: 0 <= i < |vals| ==> 0 <= vals[i] < 256
    requires At(buf, p, SpecBytes(HuffSpec(info, Counts(bits), ValueBytes(vals))))
    ensures DhtTable(dc, ac, buf, p) == Ok(Installed(dc, ac, info, bits, vals))
  {
    SpecFields(buf, p, info, bits, vals);
    SpecRead(dc, ac, buf, p, info, bits, vals);
  }

  /** The fields of one table in write_DHTinfo's layout: class and number, the histogram, the symbols. */
  lemma SpecFields(buf: seq<byte>, p: nat, info: byte, bits: seq<int>, vals: seq<int>)
    requires IsHistogram(bits) && bits[0] == 0 && Total(bits) == |vals| <= 256
    requires forall i :: 0 <= i < |vals| ==> 0 <= vals[i] < 256
    requires At(buf, p, SpecBytes(HuffSpec(info, Counts(bits), ValueBytes(vals))))
    ensures p + 17 + |vals| <= |buf| && buf[p] == info && Histogram(buf, p + 1) == bits
    ensures Ints(buf[p + 17..p + 17 + |vals|]) == vals
  {
    var c, v := Counts(bits), ValueBytes(vals);
    AtThree(buf, p, info, c, v);
    HistogramAt(buf, p + 1, bits);
    IntsAt(buf, p + 17, vals);
  }

  lemma AtThree(buf: seq<byte>, p: nat, x: byte, c: seq<byte>, v: seq<byte>)
    requires At(buf, p, [x] + c + v)
    ensures buf[p] == x && At(buf, p + 1, c) && At(buf, p + 1 + |c|, v)
  {
    AtSplit(buf, p, [x] + c, v);
    AtSplit(buf, p, [x], c);
    AtByte(buf, p, [x], 0);
  }

  /** The 16 counts as bytes read back as the histogram. */
  lemma HistogramAt(buf: seq<byte>, p: nat, bits: seq<int>)
    requires IsHistogram(bits) && bits[0] == 0 && At(buf, p, Counts(bits))
    ensures Histogram(buf, p) == bits
  {
    HistogramOfCounts(bits);
  }

  /** The symbols as bytes read back as the list. */
  lemma IntsAt(buf: seq<byte>, p: nat, vals: seq<int>)
    requires forall i :: 0 <= i < |vals| ==> 0 <= vals[i] < 256
    requires At(buf, p, ValueBytes(vals))
    ensures p + |vals| <= |buf| && Ints(buf[p..p + |vals|]) == vals
  {
    IntsOfValueBytes(vals);
  }

  /** ParseDHT reads a table out of those fields into the slot info names. */
  lemma SpecRead(dc: seq<Table>, ac: seq<Table>, buf: seq<byte>, p: nat, info: byte, bits: seq<int>, vals: seq<int>)
    requires TablesOk(dc) && TablesOk(ac) && info & 0x0F < 4
    requires IsHistogram(bits) && Total(bits) == |vals| <= 256
    requires p + 17 + |vals| <= |buf| && buf[p] == info && Histogram(buf, p + 1) == bits
    requires Ints(buf[p + 17..p + 17 + |vals|]) == vals
    ensures DhtTable(dc, ac, buf, p) == Ok(Installed(dc, ac, info, bits, vals))
  {
  }

  /** What set_DHTinfo needs of a histogram and its symbols for the DHT table to read back. */
  predicate Source(bits: seq<int>, vals: seq<int>)
  {
    IsHistogram(bits) && bits[0] == 0 && Total(bits) == |vals| <= 256
    && forall i :: 0 <= i < |vals| ==> 0 <= vals[i] < 256
  }

  /** The DHT table with class and number info, histogram bits and symbols vals. */
  function Spec(info: byte, bits: seq<int>, vals: seq<int>): (r: seq<byte>)
    requires Source(bits, vals)
    ensures |r| == 17 + |vals|
  {
    SpecBytes(HuffSpec(info, Counts(bits), ValueBytes(vals)))
  }

  /** One table of a DHT segment, before it is laid out. */
  datatype Piece = Piece(info: byte, bits: seq<int>, vals: seq<int>)

  predicate PiecesOk(ps: seq<Piece>)
  {
    forall i :: 0 <= i < |ps| ==> ps[i].info & 0x0F < 4 && Source(ps[i].bits, ps[i].vals)
  }

  /** The bytes of the tables ps, one after the other. */
  function Pieces(ps: seq<Piece>): (r: seq<byte>)
    requires PiecesOk(ps)
  {
    if ps == [] then [] else Spec(ps[0].info, ps[0].bits, ps[0].vals) + Pieces(ps[1..])
  }

  /** The number of those bytes, as the DHT length field counts them. */
  function PiecesLength(ps: seq<Piece>): (r: nat)
    requires PiecesOk(ps)
  {
    if ps == [] then 0 else 17 + |ps[0].vals| + PiecesLength(ps[1..])
  }

  /** The tables after installing ps one after the other. */
  function LoadAll(dc: seq<Table>, ac: seq<Table>, ps: seq<Piece>): (r: (seq<Table>, seq<Table>))
    requires TablesOk(dc) && TablesOk(ac) && PiecesOk(ps)
    ensures TablesOk(r.0) && TablesOk(r.1)
    decreases |ps|
  {
    if ps == [] then (dc, ac)
    else
      var t := Installed(dc, ac, ps[0].info, ps[0].bits, ps[0].vals);
      LoadAll(t.0, t.1, ps[1..])
  }

  /** ParseDHT's one-table step reads each of ps in turn, from p on, and installs it. */
  predicate Reads(dc: seq<Table>, ac: seq<Table>, buf: seq<byte>, p: nat, ps: seq<Piece>)
    requires TablesOk(dc) && TablesOk(ac) && PiecesOk(ps)
    decreases |ps|
  {
    ps != [] ==>
      var t := Installed(dc, ac, ps[0].info, ps[0].bits, ps[0].vals);
      DhtTable(dc, ac, buf, p) == Ok(t) && Reads(t.0, t.1, buf, p + t.2, ps[1..])
  }

  lemma PiecesTail(ps: seq<Piece>)
    requires PiecesOk(ps) && ps != []
    ensures PiecesOk(ps[1..])
  {
    forall i | 0 <= i < |ps[1..]|
      ensures ps[1..][i].info & 0x0F < 4 && Source(ps[1..][i].bits, ps[1..][i].vals)
    {
      assert ps[1..][i] == ps[i + 1];
    }
  }

  /** Tables laid out one after the other are read one after the other. */
  lemma {:induction false} PiecesRead(dc: seq<Table>, ac: seq<Table>, buf: seq<byte>, p: nat, ps: seq<Piece>)
    requires TablesOk(dc) && TablesOk(ac) && PiecesOk(ps) && At(buf, p, Pieces(ps))
    ensures Reads(dc, ac, buf, p, ps)
    decreases |ps|
  {
    if ps != [] {
      var x := ps[0];
      PiecesTail(ps);
      AtSplit(buf, p, Spec(x.info, x.bits, x.vals), Pieces(ps[1..]));
      SpecTable(dc, ac, buf, p, x.info, x.bits, x.vals);
      var t := Installed(dc, ac, x.info, x.bits, x.vals);
      PiecesRead(t.0, t.1, buf, p + t.2, ps[1..]);
    }
  }

  /** ParseDHT's table loop over tables it reads one after the other. */
  lemma {:induction false} DhtReads(dc: seq<Table>, ac: seq<Table>, buf: seq<byte>, p: nat, ps: seq<Piece>)
    requires TablesOk(dc) && TablesOk(ac) && PiecesOk(ps) && Reads(dc, ac, buf, p, ps)
    ensures DhtTables(dc, ac, buf, p, PiecesLength(ps)) == Ok(LoadAll(dc, ac, ps))
    decreases |ps|
  {
    if ps != [] {
      var t := Installed(dc, ac, ps[0].info, ps[0].bits, ps[0].vals);
      ReadsFirst(dc, ac, buf, p, ps);
      DhtReads(t.0, t.1, buf, p + t.2, ps[1..]);
      DhtChain(dc, ac, buf, p, PiecesLength(ps), t, PiecesLength(ps[1..]), Ok(LoadAll(dc, ac, ps)));
    } else {
      assert PiecesLength(ps) == 0;
      assert LoadAll(dc, ac, ps) == (dc, ac);
      DhtTablesNil(dc, ac, buf, p);
    }
  }

  /** The first of the tables Reads names, and what is left after it. */
  lemma ReadsFirst(dc: seq<Table>, ac: seq<Table>, buf: seq<byte>, p: nat, ps: seq<Piece>)
    requires TablesOk(dc) && TablesOk(ac) && PiecesOk(ps) && Reads(dc, ac, buf, p, ps) && ps != []
    ensures PiecesOk(ps[1..])
    ensures var t := Installed(dc, ac, ps[0].info, ps[0].bits, ps[0].vals);
      && TablesOk(t.0) && TablesOk(t.1)
      && DhtTable(dc, ac, buf, p) == Ok(t) && Reads(t.0, t.1, buf, p + t.2, ps[1..])
      && PiecesLength(ps[1..]) == PiecesLength(ps) - t.2
      && LoadAll(dc, ac, ps) == LoadAll(t.0, t.1, ps[1..])
  {
    PiecesTail(ps);
  }

  lemma DhtTablesNil(dc: seq<Table>, ac: seq<Table>, buf: seq<byte>, p: nat)
    requires TablesOk(dc) && TablesOk(ac)
    ensures DhtTables(dc, ac, buf, p, 0) == Ok((dc, ac))
  {
  }

  /** ParseDHT's table loop reads back any sequence of tables laid out as write_DHTinfo does. */
  lemma DhtPieces(dc: seq<Table>, ac: seq<Table>, buf: seq<byte>, p: nat, ps: seq<Piece>)
    requires TablesOk(dc) && TablesOk(ac) && PiecesOk(ps) && At(buf, p, Pieces(ps))
    ensures DhtTables(dc, ac, buf, p, PiecesLength(ps)) == Ok(LoadAll(dc, ac, ps))
  {
    PiecesRead(dc, ac, buf, p, ps);
    DhtReads(dc, ac, buf, p, ps);
  }

  /** The table loop after a first table that reads as t. */
  lemma DhtChain(dc: seq<Table>, ac: seq<Table>, buf: seq<byte>, p: nat, length: int, t: (seq<Table>, seq<Table>, nat),
                 rest: int, goal: Result<(seq<Table>, seq<Table>), Fault>)
    requires TablesOk(dc) && TablesOk(ac) && TablesOk(t.0) && TablesOk(t.1) && length > 0
    requires DhtTable(dc, ac, buf, p) == Ok(t) && rest == length - t.2
    requires DhtTables(t.0, t.1, buf, p + t.2, rest) == goal
    ensures DhtTables(dc, ac, buf, p, length) == goal
  {
    assert DhtTables(dc, ac, buf, p, length) == DhtTables(t.0, t.1, buf, p + t.2, rest);
  }

  // ---------------------------------------------------------------------
  // The four tables of DHTinfo

  lemma StdBitsStart(luminance: bool)
    ensures DcBits(luminance)[0] == 0 && AcBits(luminance)[0] == 0
  {
  }

  lemma StdDcSource(luminance: bool)
    ensures Source(DcBits(luminance), DcValues())
  {
    StdBitsStart(luminance);
    if luminance { DcLuminanceBitsTotal(); } else { DcChrominanceBitsTotal(); }
  }

  lemma StdAcSource(luminance: bool)
    ensures Source(AcBits(luminance), AcValues(luminance))
  {
    StdBitsStart(luminance);
    AcValuesRanked();
    if luminance { AcLuminanceBitsTotal(); } else { AcChrominanceBitsTotal(); }
  }

  /** Y DC (0x00), Y AC (0x10), Cb DC (0x01), Cb AC (0x11), as set_DHTinfo fills DHTinfo. */
  function StdPieces(): (r: seq<Piece>)
    ensures PiecesOk(r) && |r| == 4
  {
    var ps := [Piece(0x00, DcBits(true), DcValues()), Piece(0x10, AcBits(true), AcValues(true)),
               Piece(0x01, DcBits(false), DcValues()), Piece(0x11, AcBits(false), AcValues(false))];
    StdPiecesOk(ps);
    ps
  }

  lemma StdPiecesOk(ps: seq<Piece>)
    requires ps == [Piece(0x00, DcBits(true), DcValues()), Piece(0x10, AcBits(true), AcValues(true)),
                    Piece(0x01, DcBits(false), DcValues()), Piece(0x11, AcBits(false), AcValues(false))]
    ensures PiecesOk(ps)
  {
    forall i | 0 <= i < 4 ensures ps[i].info & 0x0F < 4 && Source(ps[i].bits, ps[i].vals) {
      if i == 0 { StdDcSource(true); }
      else if i == 1 { StdAcSource(true); }
      else if i == 2 { StdDcSource(false); }
      else { StdAcSource(false); }
    }
  }

  lemma StdPiecesBytes()
    ensures Pieces(StdPieces()) == SpecBytes(StdSpecs()[0]) + SpecBytes(StdSpecs()[1]) + SpecBytes(StdSpecs()[2]) + SpecBytes(StdSpecs()[3])
    ensures PiecesLength(StdPieces()) == 416
  {
    var ps := StdPieces();
    assert ps[1..][1..][1..][1..] == [];
  }

  /** A DC table goes to htdc[k] and an AC table to htac[k], k being the low nibble of info. */
  lemma InstalledDc(dc: seq<Table>, ac: seq<Table>, info: byte, k: nat, bits: seq<int>, vals: seq<int>)
    requires TablesOk(dc) && TablesOk(ac) && info & 0xF0 == 0 && info & 0x0F < 4 && (info & 0x0F) as nat == k
    requires Source(bits, vals)
    ensures Installed(dc, ac, info, bits, vals) == (dc[k := Loaded(dc[k], bits, vals)], ac, 17 + |vals|)
  {
  }

  lemma InstalledAc(dc: seq<Table>, ac: seq<Table>, info: byte, k: nat, bits: seq<int>, vals: seq<int>)
    requires TablesOk(dc) && TablesOk(ac) && info & 0xF0 != 0 && info & 0x0F < 4 && (info & 0x0F) as nat == k
    requires Source(bits, vals)
    ensures Installed(dc, ac, info, bits, vals) == (dc, ac[k := Loaded(ac[k], bits, vals)], 17 + |vals|)
  {
  }

  lemma LoadAllCons(dc: seq<Table>, ac: seq<Table>, ps: seq<Piece>)
    requires TablesOk(dc) && TablesOk(ac) && PiecesOk(ps) && ps != []
    ensures PiecesOk(ps[1..])
    ensures var t := Installed(dc, ac, ps[0].info, ps[0].bits, ps[0].vals);
      LoadAll(dc, ac, ps) == LoadAll(t.0, t.1, ps[1..])
  {
    PiecesTail(ps);
  }

  /**
   * After DHTinfo, htdc[0] and htac[0] decode with the luminance tables of
   * Annex K, htdc[1] and htac[1] with the chrominance ones, and slots 2 and 3
   * are as they were.
   */
  lemma StdLoaded(dc: seq<Table>, ac: seq<Table>)
    requires TablesOk(dc) && TablesOk(ac)
    ensures var l := LoadAll(dc, ac, StdPieces());
      && Used(l.0[0]) == DecoderDc(true) && Used(l.1[0]) == DecoderAc(true)
      && Used(l.0[1]) == DecoderDc(false) && Used(l.1[1]) == DecoderAc(false)
      && l.0[2..] == dc[2..] && l.1[2..] == ac[2..]
  {
    var ps := StdPieces();
    StdDcSource(true);
    StdAcSource(true);
    StdDcSource(false);
    StdAcSource(false);
    var dc1 := dc[0 := Loaded(dc[0], DcBits(true), DcValues())];
    var ac1 := ac[0 := Loaded(ac[0], AcBits(true), AcValues(true))];
    var dc2 := dc1[1 := Loaded(dc1[1], DcBits(false), DcValues())];
    var ac2 := ac1[1 := Loaded(ac1[1], AcBits(false), AcValues(false))];
    LoadAllCons(dc, ac, ps);
    InstalledDc(dc, ac, 0x00, 0, DcBits(true), DcValues());
    LoadAllCons(dc1, ac, ps[1..]);
    InstalledAc(dc1, ac, 0x10, 0, AcBits(true), AcValues(true));
    LoadAllCons(dc1, ac1, ps[2..]);
    InstalledDc(dc1, ac1, 0x01, 1, DcBits(false), DcValues());
    LoadAllCons(dc2, ac1, ps[3..]);
    InstalledAc(dc2, ac1, 0x11, 1, AcBits(false), AcValues(false));
    assert LoadAll(dc, ac, ps) == (dc2, ac2);
    UsedLoaded(dc[0], DcBits(true), DcValues());
    UsedLoaded(ac[0], AcBits(true), AcValues(true));
    UsedLoaded(dc[1], DcBits(false), DcValues());
    UsedLoaded(ac[1], AcBits(false), AcValues(false));
  }

  lemma AtJoin(buf: seq<byte>, off: nat, a: seq<byte>, b: seq<byte>)
    requires At(buf, off, a) && At(buf, off + |a|, b)
    ensures At(buf, off, a + b)
  {
    assert buf[off..off + |a| + |b|] == buf[off..off + |a|] + buf[off + |a|..off + |a| + |b|];
  }

  /** The bytes of a DHT segment: marker, length, then the tables. */
  lemma DhtSplit(buf: seq<byte>, off: nat, specs: seq<HuffSpec>)
    requires |specs| == 4 && At(buf, off, Dht(specs))
    ensures At(buf, off, Word(0xFFC4)) && At(buf, off + 2, Word(0x01A2))
    ensures At(buf, off + 4, SpecBytes(specs[0]) + SpecBytes(specs[1]) + SpecBytes(specs[2]) + SpecBytes(specs[3]))
  {
    var w0, w1 := Word(0xFFC4), Word(0x01A2);
    var s0, s1, s2, s3 := SpecBytes(specs[0]), SpecBytes(specs[1]), SpecBytes(specs[2]), SpecBytes(specs[3]);
    AtSplit(buf, off, w0 + w1 + s0 + s1 + s2, s3);
    AtSplit(buf, off, w0 + w1 + s0 + s1, s2);
    AtSplit(buf, off, w0 + w1 + s0, s1);
    AtSplit(buf, off, w0 + w1, s0);
    AtSplit(buf, off, w0, w1);
    AtJoin(buf, off + 4, s0, s1);
    AtJoin(buf, off + 4, s0 + s1, s2);
    AtJoin(buf, off + 4, s0 + s1 + s2, s3);
  }

  /** ParseJFIF finds a DHT marker at off, with a length field and the tables ps after it. */
  predicate DhtAt(buf: seq<byte>, off: nat, ps: seq<Piece>)
    requires PiecesOk(ps)
  {
    && off + 4 <= |buf| && buf[off] == 0xFF && buf[off + 1] == DHT
    && FillEnd(buf, off + 1) == off + 1 && Be16(buf, off + 2) == 2 + PiecesLength(ps)
    && At(buf, off + 4, Pieces(ps))
  }

  /** The segment write_DHTinfo writes is such a segment. */
  lemma DhtStdSplit(buf: seq<byte>, off: nat)
    requires At(buf, off, Dht(StdSpecs()))
    ensures DhtAt(buf, off, StdPieces())
  {
    DhtSplit(buf, off, StdSpecs());
    StdPiecesBytes();
    SegmentStart(buf, off, 0xC4, 0x01A2);
  }

  /** ParseJFIF hands a DHT segment to ParseDHT and goes on after it. */
  lemma DhtDispatch(jd: Jdata, buf: seq<byte>, off: nat, dht: bool, len: nat, jd': Jdata)
    requires JdOk(jd) && off + 4 <= |buf| && buf[off] == 0xFF && buf[off + 1] == DHT
    requires FillEnd(buf, off + 1) == off + 1 && Be16(buf, off + 2) == len
    requires ParseDht(jd, buf, off + 2) == Ok(jd')
    ensures SegmentPass(jd, buf, off, dht) == Ok(More(jd', off + 2 + len, true))
  {
  }

  /** A DHT segment of tables ps loads them. */
  lemma DhtPass(jd: Jdata, buf: seq<byte>, off: nat, dht: bool, ps: seq<Piece>)
    requires JdOk(jd) && PiecesOk(ps) && DhtAt(buf, off, ps)
    ensures var l := LoadAll(jd.htdc, jd.htac, ps);
      SegmentPass(jd, buf, off, dht) == Ok(More(jd.(htdc := l.0, htac := l.1), off + 4 + PiecesLength(ps), true))
  {
    DhtPieces(jd.htdc, jd.htac, buf, off + 4, ps);
    var l := LoadAll(jd.htdc, jd.htac, ps);
    DhtDispatch(jd, buf, off, dht, 2 + PiecesLength(ps), jd.(htdc := l.0, htac := l.1));
  }

  // ---------------------------------------------------------------------
  // ParseJFIF over the whole header

  /** ParseJFIF's loop goes on from the segment after one that is not SOS. */
  lemma SegmentsMore(jd: Jdata, buf: seq<byte>, p: nat, dht: bool, s: Pass, goal: Result<Jdata, Fault>)
    requires JdOk(jd) && SegmentPass(jd, buf, p, dht) == Ok(s) && s.More?
    requires Segments(s.jd, buf, s.next, s.dht) == goal
    ensures Segments(jd, buf, p, dht) == goal
  {
  }

  /** ParseJFIF's loop stops at SOS, after a DHT segment. */
  lemma SegmentsLast(jd: Jdata, buf: seq<byte>, p: nat, jd': Jdata)
    requires JdOk(jd) && SegmentPass(jd, buf, p, true) == Ok(Last(jd'))
    ensures Segments(jd, buf, p, true) == Ok(jd')
  {
  }

  /** The state ParseJFIF leaves after the encoder's header, from the state jd and the DHT tables ps. */
  function AfterHeader(jd: Jdata, w: nat, h: nat, ps: seq<Piece>): (r: Jdata)
    requires JdOk(jd) && PiecesOk(ps)
  {
    var l := LoadAll(jd.htdc, jd.htac, ps);
    jd.(qTables := jd.qTables[0 := Ints(UnitQt())][1 := Ints(UnitQt())],
        components := Bound(jd.components), width := w, height := h,
        htdc := l.0, htac := l.1, stream := 607)
  }

  /** The segments from DHT on, DHT being at 173 with the tables ps and SOS at 593. */
  lemma FromDht(jd: Jdata, buf: seq<byte>, cs: seq<Component>, ps: seq<Piece>)
    requires JdOk(jd) && |cs| == 4 && jd.components == Sampled(cs)
    requires PiecesOk(ps) && PiecesLength(ps) == 416 && DhtAt(buf, 173, ps) && At(buf, 593, Sos())
    ensures var l := LoadAll(jd.htdc, jd.htac, ps);
      Segments(jd, buf, 173, false) == Ok(jd.(htdc := l.0, htac := l.1, components := Bound(cs), stream := 607))
  {
    var l := LoadAll(jd.htdc, jd.htac, ps);
    var j4 := jd.(htdc := l.0, htac := l.1);
    DhtPass(jd, buf, 173, false, ps);
    SosPass(j4, buf, 593, cs, true);
    SegmentsLast(j4, buf, 593, j4.(components := Bound(cs), stream := 607));
    SegmentsMore(jd, buf, 173, false, More(j4, 593, true), Ok(j4.(components := Bound(cs), stream := 607)));
  }

  /** The segments from SOF0 on, SOF0 being at 154. */
  lemma FromSof0(jd: Jdata, buf: seq<byte>, w: nat, h: nat, ps: seq<Piece>)
    requires JdOk(jd) && w < 65536 && h < 65536 && At(buf, 154, Sof0(w, h))
    requires PiecesOk(ps) && PiecesLength(ps) == 416 && DhtAt(buf, 173, ps) && At(buf, 593, Sos())
    ensures var l := LoadAll(jd.htdc, jd.htac, ps);
      Segments(jd, buf, 154, false)
      == Ok(jd.(width := w, height := h, htdc := l.0, htac := l.1, components := Bound(jd.components), stream := 607))
  {
    var j3 := jd.(components := Sampled(jd.components), width := w, height := h);
    Sof0Pass(jd, buf, 154, w, h, false);
    FromDht(j3, buf, jd.components, ps);
    var l := LoadAll(jd.htdc, jd.htac, ps);
    SegmentsMore(jd, buf, 154, false, More(j3, 173, false),
                 Ok(j3.(htdc := l.0, htac := l.1, components := Bound(jd.components), stream := 607)));
  }

  /** The segments from APP0 on, APP0 being at 2. */
  lemma FromApp0(jd: Jdata, buf: seq<byte>, w: nat, h: nat, ps: seq<Piece>)
    requires JdOk(jd) && w < 65536 && h < 65536
    requires At(buf, 2, App0()) && At(buf, 20, Dqt(UnitQt(), UnitQt())) && At(buf, 154, Sof0(w, h))
    requires PiecesOk(ps) && PiecesLength(ps) == 416 && DhtAt(buf, 173, ps) && At(buf, 593, Sos())
    ensures Segments(jd, buf, 2, false) == Ok(AfterHeader(jd, w, h, ps))
  {
    var j2 := jd.(qTables := jd.qTables[0 := Ints(UnitQt())][1 := Ints(UnitQt())]);
    DqtPass(jd, buf, 20, UnitQt(), UnitQt(), false);
    FromSof0(j2, buf, w, h, ps);
    var goal := Ok(AfterHeader(jd, w, h, ps));
    SegmentsMore(jd, buf, 20, false, More(j2, 154, false), goal);
    App0Pass(jd, buf, 2, false);
    SegmentsMore(jd, buf, 2, false, More(jd, 20, false), goal);
  }

  /** Six segments one after the other, of the header's segment lengths. */
  lemma SixSegments(buf: seq<byte>, a: seq<byte>, b: seq<byte>, c: seq<byte>, d: seq<byte>, e: seq<byte>, f: seq<byte>)
    requires |a| == 2 && |b| == 18 && |c| == 134 && |d| == 19 && |e| == 420
    requires At(buf, 0, a + b + c + d + e + f)
    ensures At(buf, 0, a) && At(buf, 2, b) && At(buf, 20, c) && At(buf, 154, d) && At(buf, 173, e) && At(buf, 593, f)
  {
    AtSplit(buf, 0, a + b + c + d + e, f);
    AtSplit(buf, 0, a + b + c + d, e);
    AtSplit(buf, 0, a + b + c, d);
    AtSplit(buf, 0, a + b, c);
    AtSplit(buf, 0, a, b);
  }

  /** Where jpeg_encode_data's header puts each of its segments. */
  lemma HeaderLayout(buf: seq<byte>, w: nat, h: nat)
    requires w < 65536 && h < 65536 && At(buf, 0, Header(w, h))
    ensures |Header(w, h)| == 607
    ensures At(buf, 0, Word(0xFFD8)) && At(buf, 2, App0()) && At(buf, 20, Dqt(UnitQt(), UnitQt()))
    ensures At(buf, 154, Sof0(w, h)) && At(buf, 173, Dht(StdSpecs())) && At(buf, 593, Sos())
  {
    App0Length();
    DqtLength(UnitQt(), UnitQt());
    Sof0Length(w, h);
    DhtLength();
    SosLength();
    SixSegments(buf, Word(0xFFD8), App0(), Dqt(UnitQt(), UnitQt()), Sof0(w, h), Dht(StdSpecs()), Sos());
  }

  lemma SoiBytes(buf: seq<byte>)
    requires At(buf, 0, Word(0xFFD8))
    ensures |buf| >= 2 && buf[0] == 0xFF && buf[1] == SOI
  {
    MarkerWord(0xD8);
    AtByte(buf, 0, Word(0xFFD8), 0);
    AtByte(buf, 0, Word(0xFFD8), 1);
  }

  /** What the decoder knows after the encoder's header. */
  predicate HeaderRead(jd: Jdata, w: nat, h: nat)
    requires JdOk(jd)
  {
    && jd.width == w && jd.height == h && jd.restartInterval == 0
    && jd.components[1] == Component(1, 1, Some(0), Some(0), Some(0), 0)
    && jd.components[2] == Component(1, 1, Some(1), Some(1), Some(1), 0)
    && jd.components[3] == Component(1, 1, Some(1), Some(1), Some(1), 0)
    && |jd.qTables[0]| == 64 && |jd.qTables[1]| == 64
    && (forall k :: 0 <= k < 64 ==> jd.qTables[0][k] == 1 && jd.qTables[1][k] == 1)
    && Used(jd.htdc[0]) == DecoderDc(true) && Used(jd.htac[0]) == DecoderAc(true)
    && Used(jd.htdc[1]) == DecoderDc(false) && Used(jd.htac[1]) == DecoderAc(false)
  }

  lemma AfterHeaderRead(w: nat, h: nat)
    ensures JdOk(AfterHeader(Zeroed(), w, h, StdPieces()))
    ensures HeaderRead(AfterHeader(Zeroed(), w, h, StdPieces()), w, h)
  {
    var z := Zeroed();
    StdLoaded(z.htdc, z.htac);
    assert z.components[1] == z.components[2] == z.components[3] == EmptyComponent();
  }

  /**
   * The round trip of the header: ParseHeader on any buffer that starts with
   * the header jpeg_encode_data writes succeeds, reads back the width and
   * height, binds Y to tables 0 and Cb, Cr to tables 1 with unit sampling,
   * loads the unit quantisation tables, builds exactly the decoder blocks of
   * the four Annex K Huffman tables, and starts the scan after the header.
   */
  lemma EncodedHeaderParses(w: nat, h: nat, rest: seq<byte>)
    requires w < 65536 && h < 65536
    ensures var r := ParseHeader(Header(w, h) + rest);
      r.Ok? && HeaderRead(r.value, w, h) && r.value.stream == |Header(w, h)|
  {
    var buf := Header(w, h) + rest;
    assert buf[0..|Header(w, h)|] == Header(w, h);
    HeaderLayout(buf, w, h);
    SoiBytes(buf);
    DhtStdSplit(buf, 173);
    StdPiecesBytes();
    FromApp0(Zeroed(), buf, w, h, StdPieces());
    AfterHeaderRead(w, h);
  }
}
