/*
 * The JPEG image type of hide: is_jpeg, read_jpeg and write_jpeg. The
 * hidden message travels between the entropy layer and the pixel engine as
 * a one-row image of three-channel pixels, one pixel per message byte: the
 * byte's top three bits, its middle two and its low three.
 */

module JpegBridge {
  import opened Common
  import opened ByteOrder
  import opened Stego
  import opened JpegLoad
  import L = LsbEngine
  import BitWriter
  import S = JpegSave
  import P = JpegParse
  import D = JpegDecoder
  import HR = HeaderRoundTrip

  /** How read_jpeg and write_jpeg end when they do not return a carrier. */
  datatype JpegError =
    | OpenFailed        // fopen failed: the functions return errno
    | Died(fault: Fault) // jpeg_decode_data exited the process
    | NullMessage       // memcpy into the NULL message->data of a message never allocated
    | Overrun           // a copy past the end of message->data
    | Uncodable         // process_DU met a value its Huffman tables cannot code

  // ---------------------------------------------------------------------
  // is_jpeg

  /** The three bytes a JPEG file starts with: SOI and the first byte of the next marker. */
  function JpegMagic(): (m: seq<byte>)
    ensures |m| == 3
  {
    [0xFF, 0xD8, 0xFF]
  }

  /**
   * is_jpeg on a file whose contents are file, when fopen succeeds (opened):
   * the first three bytes are FF D8 FF.
   */
  predicate IsJpeg(isOpen: bool, file: seq<byte>)
  {
    isOpen && |file| >= 3 && file[..3] == JpegMagic()
  }

  /** A segment pass that succeeds starts on a marker byte. */
  lemma SegmentOnMarker(jd: P.Jdata, buf: seq<byte>, p: nat, dht: bool)
    requires P.JdOk(jd) && P.SegmentPass(jd, buf, p, dht).Ok?
    ensures p < |buf| && buf[p] == 0xFF
  {
  }

  /** Every file the header parser accepts is one is_jpeg recognises. */
  lemma ParsedIsJpeg(buf: seq<byte>)
    requires P.ParseHeader(buf).Ok?
    ensures IsJpeg(true, buf)
  {
    SegmentOnMarker(P.Zeroed(), buf, 2, false);
    assert buf[..3] == [buf[0], buf[1], buf[2]];
  }

  // ---------------------------------------------------------------------
  // A message byte as a pixel

  /** read_jpeg's pixel for a message byte: its bits 7..5, 4..3 and 2..0. */
  function Unpack(b: byte): (byte, byte, byte)
  {
    ((b & 0xE0) >> 5, (b & 0x18) >> 3, b & 0x07)
  }

  /** write_jpeg's message byte for a pixel: the repacking the pixel engine's extraction uses. */
  function Repack(p: (byte, byte, byte)): byte
  {
    L.ExtractByte(p.0, p.1, p.2)
  }

  /** The channels of an unpacked byte hold three, two and three bits. */
  lemma UnpackBounds(b: byte)
    ensures Unpack(b).0 <= 7 && Unpack(b).1 <= 3 && Unpack(b).2 <= 7
  {
  }

  /** Repacking an unpacked byte gives the byte back. */
  lemma RepackUnpack(b: byte)
    ensures Repack(Unpack(b)) == b
  {
  }

  /** Unpacking a repacked pixel keeps the bits repacking reads, and only those. */
  lemma UnpackRepack(p: (byte, byte, byte))
    ensures Unpack(Repack(p)) == (p.0 & 7, p.1 & 3, p.2 & 7)
  {
  }

  /** An unpacked byte is that byte embedded into a black pixel by the pixel engine. */
  lemma UnpackIsEmbedding(b: byte)
    ensures Unpack(b) == (L.EmbedChannel0(0, b), L.EmbedChannel1(0, b), L.EmbedChannel2(0, b))
  {
  }

  // ---------------------------------------------------------------------
  // read_jpeg

  /** Once the message is allocated, message->size is the big-endian value of the eight length bytes read. */
  predicate Declared(f: Finder)
  {
    f.aloc ==> |f.sizeMem| == 8 && f.size == BigEndianValue(f.sizeMem)
  }

  lemma FindStepDeclares(host: Endianness, f: Finder, lsb: bool)
    requires FinderValid(f) && !Done(f) && Declared(f)
    ensures Declared(FindStep(host, f, lsb))
  {
  }

  lemma {:induction false} FindFromDeclares(host: Endianness, du: seq<int>, i: nat, f: Finder)
    requires i <= |du| && FinderValid(f) && Declared(f)
    ensures Declared(FindFrom(host, du, i, f))
    decreases |du| - i
  {
    if i == |du| || Done(f) {
    } else if du[i] > 1 {
      FindStepDeclares(host, f, du[i] % 2 == 1);
      FindFromDeclares(host, du, i + 1, FindStep(host, f, du[i] % 2 == 1));
    } else {
      FindFromDeclares(host, du, i + 1, f);
    }
  }

  lemma {:induction false} FindBlocksDeclare(host: Endianness, blocks: seq<seq<int>>, f: Finder)
    requires FinderValid(f) && Declared(f)
    ensures Declared(FindBlocks(host, blocks, f))
    decreases |blocks|
  {
    if blocks != [] {
      FindFromDeclares(host, blocks[0], 0, f);
      FindBlocksDeclare(host, blocks[1..], FindFrom(host, blocks[0], 0, f));
    }
  }

  /** After extraction message->size is the value of the eight length bytes extraction read, if it got that far. */
  lemma ExtractedDeclares(host: Endianness, units: seq<seq<int>>)
    ensures Declared(D.Extracted(host, Find, units))
  {
    FindBlocksDeclare(host, units, FinderStart());
  }

  /** What read_jpeg hands the pixel engine: image_info->width, and the message bytes when there are any. */
  datatype Carrier = Carrier(width: nat, message: Option<seq<byte>>)

  /**
   * read_jpeg after jpeg_decode_data left the message f. FIND: the length
   * goes back, in network order, into the first eight bytes of
   * message->data, and the width is the length plus eight. READ: the width
   * is the count of usable coefficients less eight, in uint64_t, and there
   * are no message bytes.
   */
  function Received(action: Action, f: Finder): Result<Carrier, JpegError>
  {
    if action == Read then Ok(Carrier(Wrap64(f.size - 8), None))
    else if !f.aloc then Err(NullMessage)
    else if |f.data| < 8 then Err(Overrun)
    else Ok(Carrier(Limit(f.size), Some(f.sizeMem + f.data[8..])))
  }

  /**
   * read_jpeg on a file with contents file: fopen, jpeg_decode_data with
   * FIND, or READ when the caller asks for the capacity, and the message.
   */
  function Load(isOpen: bool, file: seq<byte>, host: Endianness, capacity: bool): Result<Carrier, JpegError>
  {
    if !isOpen then Err(OpenFailed)
    else match D.DecodeData(file)
      case Err(e) => Err(Died(e))
      case Ok(q) =>
        var action := if capacity then Read else Find;
        Received(action, D.Extracted(host, action, q.units))
  }

  /**
   * A message read in FIND mode is the width read_jpeg reports, declares the
   * length extraction found in its first eight bytes, big-endian, and
   * carries the extracted bytes after them; so write_jpeg reads back the
   * same length and neither runs past the pixels nor stops short of them.
   */
  lemma ReceivedMessage(f: Finder)
    requires FinderValid(f) && Declared(f) && Received(Find, f).Ok?
    ensures var c := Received(Find, f).value;
      && c.message.Some? && |c.message.value| == c.width >= 8
      && BigEndianValue(c.message.value[..8]) == f.size
      && c.message.value[8..] == f.data[8..]
      && Limit(BigEndianValue(c.message.value[..8])) == c.width
  {
    Prefixed(f.sizeMem, f.data);
  }

  /** Eight bytes put over the first eight of data. */
  lemma Prefixed(a: seq<byte>, data: seq<byte>)
    requires |a| == 8 && |data| >= 8
    ensures |a + data[8..]| == |data| && (a + data[8..])[..8] == a && (a + data[8..])[8..] == data[8..]
  {
  }

  /**
   * The steganographic round trip seen through read_jpeg: blocks carrying
   * the first lim = L + 8 bytes of data, whose first eight bytes declare L,
   * give back exactly those bytes as a one-row image of lim pixels.
   */
  lemma ReceivedEmbedded(host: Endianness, blocks: seq<seq<int>>, data: seq<byte>, L: nat, lim: nat)
    requires Framed(data, lim, L)
    requires |AllLsbs(blocks)| >= 8 * lim
    ensures var f := FindBlocks(host, EmbedBlocks(blocks, Stream(data[..lim]), 0).0, FinderStart());
      Declared(f) && Received(Find, f) == Ok(Carrier(lim, Some(data[..lim])))
  {
    StegoRoundTrip(host, blocks, data, L, lim);
    var z := seq(8, _ => 0) + data[8..lim];
    assert z[8..] == data[8..lim];
    assert data[..8] + data[8..lim] == data[..lim];
  }

  /**
   * READ mode: the width read_jpeg reports, the capacity, is the number of
   * eligible coefficients of the data units less eight, in uint64_t: a
   * picture with fewer than eight of them reports nearly 2^64.
   */
  lemma CapacityWidth(host: Endianness, units: seq<seq<int>>)
    ensures var n := |AllLsbs(units)|;
      var r := Received(Read, D.Extracted(host, Read, units));
      && r.Ok? && r.value.message.None?
      && (8 <= n <= 0x1_0000_0000_0000_0000 ==> r.value.width == n - 8)
      && (n < 8 ==> r.value.width == 0x1_0000_0000_0000_0000 + n - 8)
  {
  }

  /** read_jpeg asked for the capacity of a picture that decodes. */
  lemma LoadCapacity(file: seq<byte>, host: Endianness)
    requires D.DecodeData(file).Ok?
    ensures var n := |AllLsbs(D.DecodeData(file).value.units)|;
      var r := Load(true, file, host, true);
      && r.Ok? && r.value.message.None?
      && (8 <= n <= 0x1_0000_0000_0000_0000 ==> r.value.width == n - 8)
      && (n < 8 ==> r.value.width == 0x1_0000_0000_0000_0000 + n - 8)
  {
    CapacityWidth(host, D.DecodeData(file).value.units);
  }

  /**
   * The capacity READ mode reports is about eight times too large: a
   * message whose declared length is that capacity needs eight eligible
   * coefficients per byte, its eight length bytes included, and there are
   * fewer.
   */
  lemma CapacityOverstated(host: Endianness, units: seq<seq<int>>)
    requires 8 <= |AllLsbs(units)| <= 0x1_0000_0000_0000_0000
    ensures var n, w := |AllLsbs(units)|, Received(Read, D.Extracted(host, Read, units)).value.width;
      w == n - 8 && 8 * (w + 8) > n
  {
    CapacityWidth(host, units);
  }

  /**
   * The capacity evidently intended: the message bytes that n eligible
   * coefficients hold, one bit each, after the eight length bytes; it is
   * negative when not even the length fits.
   */
  function ByteCapacity(n: nat): (c: int)
    ensures 8 * (c + 8) <= n < 8 * (c + 9)
  {
    n / 8 - 8
  }

  /** A message of at most ByteCapacity bytes, embedded, is found again in full. */
  lemma CapacityFits(host: Endianness, blocks: seq<seq<int>>, data: seq<byte>, L: nat, lim: nat)
    requires Framed(data, lim, L) && L <= ByteCapacity(|AllLsbs(blocks)|)
    ensures var f := FindBlocks(host, EmbedBlocks(blocks, Stream(data[..lim]), 0).0, FinderStart());
      Declared(f) && Received(Find, f) == Ok(Carrier(lim, Some(data[..lim])))
  {
    assert lim <= L + 8;
    ReceivedEmbedded(host, blocks, data, L, lim);
  }

  /** The pixel at column i of the image's first row. */
  ghost function Pixel(image: array3<byte>, i: nat): (byte, byte, byte)
    requires image.Length0 >= 1 && i < image.Length1 && image.Length2 >= 3
    reads image
  {
    (image[0, i, 0], image[0, i, 1], image[0, i, 2])
  }

  /** image is read_jpeg's one-row, three-channel image of the message m. */
  ghost predicate Unpacked(image: array3<byte>, m: seq<byte>)
    reads image
  {
    && image.Length0 == 1 && image.Length1 == |m| && image.Length2 == 3
    && forall i :: 0 <= i < |m| ==> Pixel(image, i) == Unpack(m[i])
  }

  /** The copying loop of read_jpeg: bpp 3, height 1, one pixel per message byte. */
  method UnpackMessage(m: seq<byte>) returns (image: array3<byte>)
    ensures fresh(image) && Unpacked(image, m)
  {
    image := new byte[1, |m|, 3];
    for i := 0 to |m|
      invariant forall j :: 0 <= j < i ==> Pixel(image, j) == Unpack(m[j])
    {
      image[0, i, 0] := (m[i] & 0xE0) >> 5;
      image[0, i, 1] := (m[i] & 0x18) >> 3;
      image[0, i, 2] := m[i] & 0x07;
    }
  }

  /**
   * The FIND fix-up on the eight length bytes mem extraction read:
   * message->size as jpeg_decode_data left it (ntohll of those bytes), its
   * htonll copied over the first eight bytes of message->data, then ntohll
   * of it plus sizeof message->size, in uint64_t (Limit). On either host the
   * copy puts back exactly the bytes read.
   */
  method RestoreLength(host: Endianness, mem: seq<byte>, data: seq<byte>) returns (m: seq<byte>, width: nat)
    requires |mem| == 8 && |data| >= 8
    ensures m == mem + data[8..] && width == Limit(BigEndianValue(mem))
  {
    var size := Ntohll(host, FromMemory(host, mem));
    NtohllValue(host, mem);
    NtohllHtonll(host, FromMemory(host, mem));
    MemoryOfFromMemory(host, mem);
    var net := Htonll(host, size);
    m := MemoryBytes(host, net) + data[8..];
    width := Limit(Ntohll(host, net) as int);
  }

  /** image is the one read_jpeg builds for c: bpp 3, height 1, width c.width, and the message's pixels. */
  ghost predicate Delivers(c: Carrier, image: array3<byte>)
    reads image
  {
    && image.Length0 == 1 && image.Length1 == c.width && image.Length2 == 3
    && (c.message.Some? ==> Unpacked(image, c.message.value))
  }

  /**
   * read_jpeg after jpeg_decode_data: the fix-up of the message and the
   * image of it. In READ mode the pixels are not set (malloc), and only the
   * width, the capacity, matters to the caller.
   */
  method Deliver(ex: Extractor) returns (res: Result<array3<byte>, JpegError>)
    requires ex.Valid() && (ex.action == Find ==> Declared(ex.State()))
    ensures match Received(ex.action, ex.State())
      case Err(e) => res == Err(e)
      case Ok(c) => res.Ok? && fresh(res.value) && Delivers(c, res.value)
  {
    if ex.action == Find {
      if !ex.aloc {
        return Err(NullMessage);
      }
      if |ex.data| < 8 {
        return Err(Overrun);
      }
      var m, width := RestoreLength(ex.host, ex.sizeMem, ex.data);
      var image := UnpackMessage(m);
      res := Ok(image);
    } else {
      var image := new byte[1, Wrap64(ex.size - 8), 3];
      res := Ok(image);
    }
  }

  /** read_jpeg: the image the pixel engine works on, or how it fails. */
  method ReadJpeg(isOpen: bool, file: seq<byte>, host: Endianness, capacity: bool)
    returns (res: Result<array3<byte>, JpegError>)
    ensures match Load(isOpen, file, host, capacity)
      case Err(e) => res == Err(e)
      case Ok(c) => res.Ok? && fresh(res.value) && Delivers(c, res.value)
  {
    if !isOpen {
      return Err(OpenFailed);
    }
    var ex := new Extractor(host, if capacity then Read else Find);
    var dec := D.JpegDecodeData(file, ex);
    if dec.Err? {
      return Err(Died(dec.error));
    }
    ExtractedDeclares(host, D.DecodeData(file).value.units);
    res := Deliver(ex);
  }

  // ---------------------------------------------------------------------
  // write_jpeg

  /** The message bytes of the image's first row, one per pixel. */
  ghost function Packed(image: array3<byte>): (m: seq<byte>)
    requires image.Length0 >= 1 && image.Length2 >= 3
    reads image
    ensures |m| == image.Length1
  {
    seq(image.Length1, i requires 0 <= i < image.Length1 reads image => Repack(Pixel(image, i)))
  }

  /** Repacking the image read_jpeg made of a message gives the message back. */
  lemma PackedUnpacked(image: array3<byte>, m: seq<byte>)
    requires Unpacked(image, m)
    ensures Packed(image) == m
  {
    forall i | 0 <= i < |m|
      ensures Packed(image)[i] == m[i]
    {
      RepackUnpack(m[i]);
    }
  }

  /** The copying loop of write_jpeg: message->data gets one byte per pixel of the first row. */
  method PackMessage(image: array3<byte>) returns (data: seq<byte>)
    requires image.Length0 >= 1 && image.Length2 >= 3
    ensures data == Packed(image)
  {
    var buf := new byte[image.Length1];
    for i := 0 to image.Length1
      invariant forall j :: 0 <= j < i ==> buf[j] == Repack(Pixel(image, j))
    {
      buf[i] := ((image[0, i, 0] & 0x07) << 5) | ((image[0, i, 1] & 0x03) << 3) | (image[0, i, 2] & 0x07);
    }
    data := buf[..];
  }

  /**
   * jpeg_encode_data for the message bits on the carrier picture of width by
   * height pixels whose quantised blocks are mcus: the header, the scan's
   * bits with the EOI alignment packed into bytes and stuffed, and EOI; or
   * the value process_DU cannot code.
   */
  function Encoded(bits: seq<bool>, width: nat, height: nat, mcus: seq<S.Mcu>): Result<seq<byte>, JpegError>
    requires width < 0x1_0000_0000 && height < 0x1_0000_0000 && S.McusValid(mcus)
  {
    match S.Scan(mcus, S.ScanState(0, 0, 0, 0), S.StdHuffTables(), bits)
    case Err(_) => Err(Uncodable)
    case Ok(s) => Ok(S.Header(width % 65536, height % 65536) + BitWriter.Stuff(BitWriter.Pack(S.Aligned(s.bits))) + Word(0xFFD9))
  }

  /**
   * write_jpeg once the message bytes data are repacked: the length is the
   * first eight bytes read in network order, and jpeg_encode_data embeds
   * the length and the message, Limit(length) bytes.
   */
  function Sent(data: seq<byte>, width: nat, height: nat, mcus: seq<S.Mcu>): Result<seq<byte>, JpegError>
    requires width < 0x1_0000_0000 && height < 0x1_0000_0000 && S.McusValid(mcus)
  {
    if |data| < 8 then Err(Overrun)
    else
      var size := BigEndianValue(data[..8]);
      if Limit(size) > |data| then Err(Overrun)
      else Encoded(Stream(data[..Limit(size)]), width, height, mcus)
  }

  /** The encoder's header, then the scan, then EOI: the header parser accepts it, so is_jpeg does. */
  lemma FileIsJpeg(w: nat, h: nat, scan: seq<byte>, eoi: seq<byte>)
    requires w < 65536 && h < 65536
    ensures IsJpeg(true, S.Header(w, h) + scan + eoi)
  {
    HR.EncodedHeaderParses(w, h, scan + eoi);
    ParsedIsJpeg(S.Header(w, h) + (scan + eoi));
    assert S.Header(w, h) + (scan + eoi) == S.Header(w, h) + scan + eoi;
  }

  /** Every file jpeg_encode_data writes is one is_jpeg recognises. */
  lemma EncodedIsJpeg(bits: seq<bool>, width: nat, height: nat, mcus: seq<S.Mcu>)
    requires width < 0x1_0000_0000 && height < 0x1_0000_0000 && S.McusValid(mcus)
    requires Encoded(bits, width, height, mcus).Ok?
    ensures IsJpeg(true, Encoded(bits, width, height, mcus).value)
  {
    var s := S.Scan(mcus, S.ScanState(0, 0, 0, 0), S.StdHuffTables(), bits).value;
    FileIsJpeg(width % 65536, height % 65536, BitWriter.Stuff(BitWriter.Pack(S.Aligned(s.bits))), Word(0xFFD9));
  }

  /** Every file write_jpeg writes is one is_jpeg recognises. */
  lemma SentIsJpeg(data: seq<byte>, width: nat, height: nat, mcus: seq<S.Mcu>)
    requires width < 0x1_0000_0000 && height < 0x1_0000_0000 && S.McusValid(mcus)
    requires Sent(data, width, height, mcus).Ok?
    ensures IsJpeg(true, Sent(data, width, height, mcus).value)
  {
    EncodedIsJpeg(Stream(data[..Limit(BigEndianValue(data[..8]))]), width, height, mcus);
  }

  /**
   * A message read_jpeg delivered survives repacking: write_jpeg finds the
   * declared length in its first eight bytes and embeds all of the message.
   */
  lemma SentReceived(f: Finder, width: nat, height: nat, mcus: seq<S.Mcu>)
    requires FinderValid(f) && Declared(f) && Received(Find, f).Ok?
    requires width < 0x1_0000_0000 && height < 0x1_0000_0000 && S.McusValid(mcus)
    ensures var m := Received(Find, f).value.message.value;
      Sent(m, width, height, mcus) == Encoded(Stream(m), width, height, mcus)
  {
    ReceivedMessage(f);
    var m := Received(Find, f).value.message.value;
    assert m[..Limit(BigEndianValue(m[..8]))] == m;
  }

  /** jpeg_encode_data on message->data and message->size as write_jpeg leaves them. */
  method EncodeMessage(data: seq<byte>, size: nat, width: nat, height: nat, mcus: seq<S.Mcu>)
    returns (res: Result<seq<byte>, JpegError>)
    requires Limit(size) <= |data| && width < 0x1_0000_0000 && height < 0x1_0000_0000
    requires S.McusValid(mcus) && |mcus| == (S.Pad8(height) / 8) * (S.Pad8(width) / 8)
    ensures res == Encoded(Stream(data[..Limit(size)]), width, height, mcus)
  {
    var ok, file := S.JpegEncodeData(data, size, width, height, mcus);
    if !ok {
      return Err(Uncodable);
    }
    res := Ok(file);
  }

  /**
   * write_jpeg: the carrier file for the image's first row of pixels, or how
   * it fails. The image is the one read_jpeg made (height 1, bpp 3), possibly
   * changed by the pixel engine since.
   */
  method WriteJpeg(isOpen: bool, host: Endianness, image: array3<byte>, width: nat, height: nat, mcus: seq<S.Mcu>)
    returns (res: Result<seq<byte>, JpegError>)
    requires image.Length0 >= 1 && image.Length2 >= 3
    requires width < 0x1_0000_0000 && height < 0x1_0000_0000
    requires S.McusValid(mcus) && |mcus| == (S.Pad8(height) / 8) * (S.Pad8(width) / 8)
    ensures !isOpen ==> res == Err(OpenFailed)
    ensures isOpen ==> res == Sent(Packed(image), width, height, mcus)
  {
    if !isOpen {
      return Err(OpenFailed);
    }
    var data := PackMessage(image);
    if |data| < 8 {
      return Err(Overrun);
    }
    NtohllValue(host, data[..8]);
    var size := Ntohll(host, FromMemory(host, data[..8])) as int;
    if Limit(size) > |data| {
      return Err(Overrun);
    }
    res := EncodeMessage(data, size, width, height, mcus);
  }
}
