/**
 * The pixel-domain engine: every pixel of the carrier raster carries one byte
 * of the message, split 3/2/3 over the low bits of its first three channels,
 * and the message is an 8-byte big-endian length followed by the payload.
 *
 * The four copies of process_file / will_fit (src/hide.c, src/imagine.c,
 * src/main.c and main.c) run the same loop; they differ only in whether a
 * failure ends the program (src/hide.c) or is returned as an errno value.
 * The raster is `image[y, x, ch]`: row y, pixel x, channel ch.
 */
module LsbEngine {
  import opened Common
  import opened ByteOrder

  /** Which copy of the engine is running. */
  datatype Variant = Hide | Imagine | SrcMain | RootMain

  datatype Failure = OpenFailed | MapFailed | NoSpace | NullMapWrite

  /** How process_file (and the caller around it) ends. */
  datatype Status = Done | Returned(failure: Failure) | Died(failure: Failure)

  /** A failure ends the program in src/hide.c and is handed back as errno elsewhere. */
  function Fatal(v: Variant, f: Failure): (s: Status)
    ensures !s.Done? && s.failure == f
    ensures s.Died? <==> v == Hide
  {
    if v == Hide then Died(f) else Returned(f)
  }

  // ---------------------------------------------------------------------
  // One pixel

  /** Channel 0 keeps its top five bits and takes bits 7..5 of c. */
  function EmbedChannel0(was: byte, c: byte): byte
  {
    (was & 0xF8) | ((c & 0xE0) >> 5)
  }

  /** Channel 1 keeps its top six bits and takes bits 4..3 of c. */
  function EmbedChannel1(was: byte, c: byte): byte
  {
    (was & 0xFC) | ((c & 0x18) >> 3)
  }

  /** Channel 2 keeps its top five bits and takes bits 2..0 of c. */
  function EmbedChannel2(was: byte, c: byte): byte
  {
    (was & 0xF8) | (c & 0x07)
  }

  /** Embedding changes only the low 3/2/3 bits, and sets them from c. */
  lemma EmbedChannelBits(p0: byte, p1: byte, p2: byte, c: byte)
    ensures EmbedChannel0(p0, c) & 0xF8 == p0 & 0xF8 && EmbedChannel0(p0, c) & 0x07 == c >> 5
    ensures EmbedChannel1(p1, c) & 0xFC == p1 & 0xFC && EmbedChannel1(p1, c) & 0x03 == (c >> 3) & 0x03
    ensures EmbedChannel2(p2, c) & 0xF8 == p2 & 0xF8 && EmbedChannel2(p2, c) & 0x07 == c & 0x07
  {
  }

  /** What embedding c does to channel ch; a fourth channel is left alone. */
  function EmbedChannel(ch: nat, was: byte, c: byte): byte
  {
    if ch == 0 then EmbedChannel0(was, c)
    else if ch == 1 then EmbedChannel1(was, c)
    else if ch == 2 then EmbedChannel2(was, c)
    else was
  }

  /** The byte a pixel carries, read back from the low 3/2/3 bits. */
  function ExtractByte(p0: byte, p1: byte, p2: byte): byte
  {
    ((p0 & 0x07) << 5) | ((p1 & 0x03) << 3) | (p2 & 0x07)
  }

  /** Extraction reads exactly the low 3/2/3 bits of the three channels. */
  lemma ExtractByteBits(p0: byte, p1: byte, p2: byte)
    ensures ExtractByte(p0, p1, p2) >> 5 == p0 & 0x07
    ensures (ExtractByte(p0, p1, p2) >> 3) & 0x03 == p1 & 0x03
    ensures ExtractByte(p0, p1, p2) & 0x07 == p2 & 0x07
  {
  }

  /** Extraction returns the byte last embedded, whatever the pixel held before. */
  lemma ExtractInvertsEmbed(p0: byte, p1: byte, p2: byte, c: byte)
    ensures ExtractByte(EmbedChannel0(p0, c), EmbedChannel1(p1, c), EmbedChannel2(p2, c)) == c
  {
  }

  // ---------------------------------------------------------------------
  // Where each byte goes

  /** sizeof (uint64_t): the length prefix occupies this many pixels of row 0. */
  const PrefixLength: nat := 8

  predicate IsPrefix(y: nat, x: nat)
  {
    y == 0 && x < PrefixLength
  }

  /** Payload bytes consumed before row y starts. */
  function RowStart(w: nat, y: nat): nat
  {
    if y == 0 then 0
    else RowStart(w, y - 1) + (if y == 1 then (if w > PrefixLength then w - PrefixLength else 0) else w)
  }

  /**
   * The payload counter i when pixel (y, x) is reached, that is, the number of
   * non-prefix pixels before it in row-major order. x == w is allowed and
   * names the start of the next row.
   */
  function Before(w: nat, y: nat, x: nat): nat
  {
    RowStart(w, y) + (if y != 0 then x else if x > PrefixLength then x - PrefixLength else 0)
  }

  /** Some pixel has already been processed when (y, x) is reached. */
  predicate Started(w: nat, y: nat, x: nat)
  {
    x > 0 || (y > 0 && w > 0)
  }

  /** (yy, xx) comes strictly before (y, x) in row-major order. */
  predicate Visited(y: nat, x: nat, yy: nat, xx: nat)
  {
    yy < y || (yy == y && xx < x)
  }

  /**
   * The loop reaches pixel (y, x) when it is the first pixel or when the
   * counter has not yet reached the declared length L.
   */
  predicate Processed(w: nat, L: nat, y: nat, x: nat)
  {
    (y == 0 && x == 0) || Before(w, y, x) < L
  }

  /** The byte written into pixel (y, x): z[x] in the prefix, map[i] elsewhere. */
  function ByteFor(z: seq<byte>, file: seq<byte>, w: nat, y: nat, x: nat): byte
    requires |z| == PrefixLength
  {
    if IsPrefix(y, x) then z[x]
    else if Before(w, y, x) < |file| then file[Before(w, y, x)]
    else 0
  }

  lemma {:induction false} RowStartMonotone(w: nat, y1: nat, y2: nat)
    requires y1 <= y2
    ensures RowStart(w, y1) <= RowStart(w, y2)
  {
    if y1 < y2 {
      RowStartMonotone(w, y1, y2 - 1);
    }
  }

  /** The counter never decreases along the row-major order. */
  lemma BeforeMonotone(w: nat, y1: nat, x1: nat, y2: nat, x2: nat)
    requires x1 <= w
    requires y1 < y2 || (y1 == y2 && x1 <= x2)
    ensures Before(w, y1, x1) <= Before(w, y2, x2)
  {
    if y1 < y2 {
      assert Before(w, y1, x1) <= Before(w, y1, w) == RowStart(w, y1 + 1);
      RowStartMonotone(w, y1 + 1, y2);
    }
  }

  /** Processing one pixel moves the counter to the value of the next pixel. */
  lemma BeforeStep(w: nat, y: nat, x: nat)
    requires x < w
    ensures Before(w, y, x + 1) == Before(w, y, x) + (if IsPrefix(y, x) then 0 else 1)
  {
  }

  /** The row boundary: the end of row y is the start of row y + 1. */
  lemma RowEnd(w: nat, y: nat)
    ensures Before(w, y, w) == Before(w, y + 1, 0)
  {
  }

  /** When the stop test fires at (y, x), the processed pixels are exactly those up to (y, x). */
  lemma StopPoint(w: nat, L: nat, y: nat, x: nat, yy: nat, xx: nat)
    requires x < w && xx < w
    requires Started(w, y, x) ==> Before(w, y, x) < L
    requires Before(w, y, x + 1) >= L
    ensures Processed(w, L, yy, xx) <==> Visited(y, x + 1, yy, xx)
  {
    if Visited(y, x + 1, yy, xx) {
      if Started(w, y, x) {
        BeforeMonotone(w, yy, xx, y, x);
      }
    } else {
      BeforeMonotone(w, y, x + 1, yy, xx);
    }
  }

  /** Once a row has completed the payload, no pixel of a later row is processed. */
  lemma LaterRowsUntouched(w: nat, L: nat, y: nat)
    requires Before(w, y, w) >= L
    ensures forall yy: nat, xx: nat :: yy > y && xx < w ==> !Processed(w, L, yy, xx)
  {
    forall yy: nat, xx: nat | yy > y && xx < w
      ensures !Processed(w, L, yy, xx)
    {
      RowEnd(w, y);
      BeforeMonotone(w, y + 1, 0, yy, xx);
    }
  }

  /** When the loop runs to the end, every pixel was processed. */
  lemma AllProcessed(w: nat, L: nat, h: nat)
    requires Started(w, h, 0) ==> Before(w, h, 0) < L
    ensures forall yy: nat, xx: nat :: yy < h && xx < w ==> Processed(w, L, yy, xx)
  {
    forall yy: nat, xx: nat | yy < h && xx < w
      ensures Processed(w, L, yy, xx)
    {
      BeforeMonotone(w, yy, xx, h, 0);
    }
  }

  // ---------------------------------------------------------------------
  // The layout for rasters at least eight pixels wide

  lemma {:induction false} RowStartWide(w: nat, y: nat)
    requires w >= PrefixLength && y >= 1
    ensures RowStart(w, y) == y * w - PrefixLength
  {
    if y > 1 {
      RowStartWide(w, y - 1);
    }
  }

  /**
   * With w >= 8 the prefix is the first eight pixels and the payload counter
   * of any other pixel is its row-major index minus 8, so payload byte i
   * lands in pixel 8 + i.
   */
  lemma PayloadPlacement(w: nat, y: nat, x: nat)
    requires w >= PrefixLength && x < w
    ensures IsPrefix(y, x) <==> y * w + x < PrefixLength
    ensures !IsPrefix(y, x) ==> Before(w, y, x) == y * w + x - PrefixLength
  {
    if y >= 1 {
      RowStartWide(w, y);
      assert y * w >= w;
    }
  }

  /** If w >= 8, the non-prefix pixels of an h-row raster number w*h - 8. */
  lemma PayloadPixelCount(w: nat, h: nat)
    requires w >= PrefixLength && h >= 1
    ensures Before(w, h, 0) == w * h - PrefixLength
  {
    RowStartWide(w, h);
  }

  /** Every payload index below the pixel count belongs to exactly one pixel. */
  lemma PayloadPixel(w: nat, h: nat, j: nat) returns (y: nat, x: nat)
    requires w >= PrefixLength && h >= 1
    requires j < Before(w, h, 0)
    ensures y < h && x < w && !IsPrefix(y, x) && Before(w, y, x) == j
  {
    PayloadPixelCount(w, h);
    var k := j + PrefixLength;
    RowOfIndex(k, w, h);
    y, x := k / w, k % w;
    PayloadPlacement(w, y, x);
  }

  /** Pixel k of an h-row raster, counted in row-major order, lies in row k / w < h. */
  lemma RowOfIndex(k: nat, w: nat, h: nat)
    requires w > 0 && k < w * h
    ensures k / w < h && k == (k / w) * w + k % w
  {
    if k / w >= h {
      MulMonotone(h, k / w, w);
      assert false;
    }
  }

  lemma MulMonotone(a: nat, b: nat, c: nat)
    requires a <= b
    ensures a * c <= b * c
  {
  }

  /** In a wide raster the bytes written are the length prefix followed by the payload. */
  lemma {:induction false} ByteForWide(host: Endianness, L: bv64, file: seq<byte>, w: nat, y: nat, x: nat)
    requires |file| == L as int
    requires w >= PrefixLength && x < w
    requires y * w + x < PrefixLength + |file|
    ensures ByteFor(MemoryBytes(host, Htonll(host, L)), file, w, y, x) == (BigEndianBytes(L) + file)[y * w + x]
  {
    PayloadPlacement(w, y, x);
    HtonllInMemory(host, L);
  }

  // ---------------------------------------------------------------------
  // The capacity check

  /** CAPACITY: width*height - 8, computed in unsigned 64-bit arithmetic. */
  function Capacity(w: nat, h: nat): (r: nat)
    ensures r < 0x1_0000_0000_0000_0000
    ensures PrefixLength <= w * h < 0x1_0000_0000_0000_0000 ==> r == w * h - PrefixLength
  {
    Wrap64(w * h - PrefixLength)
  }

  /** An image of fewer than eight pixels reports almost 2^64 bytes of room. */
  lemma CapacityWrapsForTinyImages(w: nat, h: nat)
    requires w * h < PrefixLength
    ensures Capacity(w, h) == 0x1_0000_0000_0000_0000 - PrefixLength + w * h
  {
  }

  /** On a wide raster that fits in memory, CAPACITY is exactly the number of payload pixels. */
  lemma CapacityIsPayloadPixels(w: nat, h: nat)
    requires w >= PrefixLength && h >= 1 && w * h < 0x1_0000_0000_0000_0000
    ensures Capacity(w, h) == Before(w, h, 0)
  {
    PayloadPixelCount(w, h);
    assert w * h >= w by {
      MulMonotone(1, h, w);
    }
  }

  /** data_info_t: the file to hide or recover, its size field and the mode flag. */
  class DataInfo {
    /** data_info.size: after will_fit, the file size in network byte order. */
    var size: bv64
    var hiding: bool
    /** What stat reports as the file's size, cast to uint64_t. */
    const fileSize: bv64

    constructor (fileSize: bv64)
      ensures this.fileSize == fileSize && size == 0 && !hiding
    {
      this.fileSize := fileSize;
      size := 0;
      hiding := false;
    }

    /**
     * will_fit (and the inline check in main.c): refuse with ENOSPC when the
     * file is larger than CAPACITY, otherwise store its size big-endian and
     * switch to hiding.
     */
    method WillFit(host: Endianness, w: nat, h: nat) returns (fits: bool, errno: Option<Failure>)
      modifies this
      ensures fits <==> fileSize as int <= Capacity(w, h)
      ensures fits ==> errno == None && hiding && size == Htonll(host, fileSize)
      ensures fits ==> Ntohll(host, size) == fileSize
      ensures !fits ==> errno == Some(NoSpace) && size == old(size) && hiding == old(hiding)
    {
      if fileSize as int > Capacity(w, h) {
        return false, Some(NoSpace);
      }
      size := Htonll(host, fileSize);
      hiding := true;
      NtohllHtonll(host, fileSize);
      return true, None;
    }
  }

  // ---------------------------------------------------------------------
  // process_file

  /** A raster as a value: rows of pixels of channel bytes. */
  type Raster = seq<seq<seq<byte>>>

  /** Channel ch of pixel (y, x) of r; 0 outside r. */
  function At(r: Raster, y: nat, x: nat, ch: nat): byte
  {
    if y < |r| && x < |r[y]| && ch < |r[y][x]| then r[y][x][ch] else 0
  }

  /** The current contents of image, as a value. */
  ghost function Snapshot(image: array3<byte>): (r: Raster)
    reads image
    ensures forall y, x, ch :: 0 <= y < image.Length0 && 0 <= x < image.Length1 && 0 <= ch < image.Length2 ==>
      At(r, y, x, ch) == image[y, x, ch]
  {
    seq(image.Length0, y requires 0 <= y < image.Length0 reads image =>
      seq(image.Length1, x requires 0 <= x < image.Length1 reads image =>
        seq(image.Length2, ch requires 0 <= ch < image.Length2 reads image => image[y, x, ch])))
  }

  /**
   * The hiding loop has reached pixel (y, x) of a raster that held `orig`:
   * every earlier pixel carries its byte, every other pixel is as it was.
   */
  ghost predicate EmbeddedUpTo(image: array3<byte>, orig: Raster, z: seq<byte>, file: seq<byte>, y: nat, x: nat)
    reads image
    requires |z| == PrefixLength
  {
    forall yy, xx, ch :: 0 <= yy < image.Length0 && 0 <= xx < image.Length1 && 0 <= ch < image.Length2 ==>
      image[yy, xx, ch] ==
        if Visited(y, x, yy, xx) then EmbedChannel(ch, At(orig, yy, xx, ch), ByteFor(z, file, image.Length1, yy, xx))
        else At(orig, yy, xx, ch)
  }

  /** The hiding loop is over: exactly the processed pixels carry their bytes. */
  ghost predicate Embedded(image: array3<byte>, orig: Raster, z: seq<byte>, file: seq<byte>)
    reads image
    requires |z| == PrefixLength
  {
    forall yy, xx, ch :: 0 <= yy < image.Length0 && 0 <= xx < image.Length1 && 0 <= ch < image.Length2 ==>
      image[yy, xx, ch] ==
        if Processed(image.Length1, |file|, yy, xx)
        then EmbedChannel(ch, At(orig, yy, xx, ch), ByteFor(z, file, image.Length1, yy, xx))
        else At(orig, yy, xx, ch)
  }

  /** Overwrite the low bits of one pixel with c; nothing else changes. */
  method EmbedPixel(image: array3<byte>, y: nat, x: nat, c: byte)
    requires y < image.Length0 && x < image.Length1 && image.Length2 >= 3
    modifies image
    ensures forall yy, xx, ch :: 0 <= yy < image.Length0 && 0 <= xx < image.Length1 && 0 <= ch < image.Length2 ==>
      image[yy, xx, ch] == if yy == y && xx == x then EmbedChannel(ch, old(image[yy, xx, ch]), c) else old(image[yy, xx, ch])
  {
    image[y, x, 0] := EmbedChannel0(image[y, x, 0], c);
    image[y, x, 1] := EmbedChannel1(image[y, x, 1], c);
    image[y, x, 2] := EmbedChannel2(image[y, x, 2], c);
  }

  /** The end of row y is the start of row y + 1. */
  lemma RowEndEmbedded(image: array3<byte>, orig: Raster, z: seq<byte>, file: seq<byte>, y: nat)
    requires |z| == PrefixLength
    requires EmbeddedUpTo(image, orig, z, file, y, image.Length1)
    ensures EmbeddedUpTo(image, orig, z, file, y + 1, 0)
  {
    forall yy, xx, ch | 0 <= yy < image.Length0 && 0 <= xx < image.Length1 && 0 <= ch < image.Length2
      ensures image[yy, xx, ch] ==
        if Visited(y + 1, 0, yy, xx) then EmbedChannel(ch, At(orig, yy, xx, ch), ByteFor(z, file, image.Length1, yy, xx))
        else At(orig, yy, xx, ch)
    {
      assert Visited(y + 1, 0, yy, xx) == Visited(y, image.Length1, yy, xx);
    }
  }

  /** When the stop test fires after pixel (y, x), the visited pixels are the processed ones. */
  lemma StoppedEmbedded(image: array3<byte>, orig: Raster, z: seq<byte>, file: seq<byte>, y: nat, x: nat)
    requires |z| == PrefixLength && x < image.Length1
    requires Started(image.Length1, y, x) ==> Before(image.Length1, y, x) < |file|
    requires Before(image.Length1, y, x + 1) >= |file|
    requires EmbeddedUpTo(image, orig, z, file, y, x + 1)
    ensures Embedded(image, orig, z, file)
  {
    forall yy, xx, ch | 0 <= yy < image.Length0 && 0 <= xx < image.Length1 && 0 <= ch < image.Length2
      ensures image[yy, xx, ch] ==
        if Processed(image.Length1, |file|, yy, xx)
        then EmbedChannel(ch, At(orig, yy, xx, ch), ByteFor(z, file, image.Length1, yy, xx))
        else At(orig, yy, xx, ch)
    {
      StopPoint(image.Length1, |file|, y, x, yy, xx);
    }
  }

  /** When the hiding loop runs off the last row, every pixel was processed. */
  lemma FinishedEmbedded(image: array3<byte>, orig: Raster, z: seq<byte>, file: seq<byte>)
    requires |z| == PrefixLength
    requires Started(image.Length1, image.Length0, 0) ==> Before(image.Length1, image.Length0, 0) < |file|
    requires EmbeddedUpTo(image, orig, z, file, image.Length0, 0)
    ensures Embedded(image, orig, z, file)
  {
    AllProcessed(image.Length1, |file|, image.Length0);
  }

  /**
   * One row of the hiding loop: starting with the counter at i, embed pixel
   * after pixel until the payload is complete; `stop` says the row ended the run.
   */
  method EmbedRow(image: array3<byte>, ghost orig: Raster, y: nat, z: seq<byte>, file: seq<byte>, i0: nat)
    returns (i: nat, stop: bool)
    requires y < image.Length0 && image.Length2 >= 3 && |z| == PrefixLength
    requires i0 == Before(image.Length1, y, 0)
    requires Started(image.Length1, y, 0) ==> i0 < |file|
    requires EmbeddedUpTo(image, orig, z, file, y, 0)
    modifies image
    ensures stop ==> Embedded(image, orig, z, file)
    ensures !stop ==> i == Before(image.Length1, y + 1, 0)
    ensures !stop ==> (Started(image.Length1, y + 1, 0) ==> i < |file|)
    ensures !stop ==> EmbeddedUpTo(image, orig, z, file, y + 1, 0)
  {
    var w := image.Length1;
    i := i0;
    var x := 0;
    while x < w
      invariant 0 <= x <= w
      invariant i == Before(w, y, x)
      invariant Started(w, y, x) ==> i < |file|
      invariant EmbeddedUpTo(image, orig, z, file, y, x)
    {
      var c := if IsPrefix(y, x) then z[x] else file[i];
      EmbedPixel(image, y, x, c);
      BeforeStep(w, y, x);
      if !IsPrefix(y, x) {
        i := i + 1;
      }
      if i >= |file| {
        StoppedEmbedded(image, orig, z, file, y, x);
        return i, true;
      }
      x := x + 1;
    }
    RowEnd(w, y);
    RowEndEmbedded(image, orig, z, file, y);
    return i, false;
  }

  /**
   * The hiding half of process_file: the first pixels of row 0 take the bytes
   * of `size` as they lie in memory, every later pixel takes the next payload
   * byte, and the loop stops as soon as the whole payload has been written.
   */
  method EmbedMessage(v: Variant, host: Endianness, size: bv64, file: seq<byte>,
                      openOk: bool, mapOk: bool, image: array3<byte>)
    returns (status: Status)
    requires image.Length2 >= 3
    requires |file| == Ntohll(host, size) as int
    modifies image
    ensures !openOk ==> status == Fatal(v, OpenFailed) && unchanged(image)
    ensures openOk && !mapOk ==> status == Fatal(v, MapFailed) && unchanged(image)
    ensures openOk && mapOk ==> status == Done
    ensures openOk && mapOk ==>
      forall y, x, ch :: 0 <= y < image.Length0 && 0 <= x < image.Length1 && 0 <= ch < image.Length2 ==>
        image[y, x, ch] ==
          if Processed(image.Length1, |file|, y, x)
          then EmbedChannel(ch, old(image[y, x, ch]), ByteFor(MemoryBytes(host, size), file, image.Length1, y, x))
          else old(image[y, x, ch])
  {
    if !openOk {
      return Fatal(v, OpenFailed);
    }
    if !mapOk {
      return Fatal(v, MapFailed);
    }
    ghost var orig := Snapshot(image);
    var h := image.Length0;
    var z := MemoryBytes(host, size);
    var i: nat := 0;
    var y := 0;
    while y < h
      invariant 0 <= y <= h
      invariant i == Before(image.Length1, y, 0)
      invariant Started(image.Length1, y, 0) ==> i < |file|
      invariant EmbeddedUpTo(image, orig, z, file, y, 0)
    {
      var stop;
      i, stop := EmbedRow(image, orig, y, z, file, i);
      if stop {
        break;
      }
      y := y + 1;
    }
    if y == h {
      FinishedEmbedded(image, orig, z, file);
    }
    assert Embedded(image, orig, z, file);
    return Done;
  }

  /** The byte pixel (y, x) carries; 0 outside the raster. */
  function PixelByte(image: array3<byte>, y: nat, x: nat): byte
    reads image
  {
    if y < image.Length0 && x < image.Length1 && image.Length2 >= 3
    then ExtractByte(image[y, x, 0], image[y, x, 1], image[y, x, 2])
    else 0
  }

  /** The eight bytes carried by the prefix pixels of row 0. */
  function PrefixBytes(image: array3<byte>): (r: seq<byte>)
    reads image
    ensures |r| == PrefixLength
    ensures forall k :: 0 <= k < PrefixLength ==> r[k] == PixelByte(image, 0, k)
  {
    [PixelByte(image, 0, 0), PixelByte(image, 0, 1), PixelByte(image, 0, 2), PixelByte(image, 0, 3),
     PixelByte(image, 0, 4), PixelByte(image, 0, 5), PixelByte(image, 0, 6), PixelByte(image, 0, 7)]
  }

  /** In a raster w >= 8 pixels wide, payload byte j sits in row-major pixel 8 + j. */
  function PayloadRow(w: nat, j: nat): nat
    requires w > 0
  {
    (j + PrefixLength) / w
  }

  function PayloadColumn(w: nat, j: nat): nat
    requires w > 0
  {
    (j + PrefixLength) % w
  }

  lemma DivModUnique(y: nat, x: nat, w: nat)
    requires x < w
    ensures (y * w + x) / w == y && (y * w + x) % w == x
  {
    var k := y * w + x;
    var q, r := k / w, k % w;
    assert (q - y) * w == x - r;
    if q > y {
      MulMonotone(1, q - y, w);
    } else if q < y {
      MulMonotone(1, y - q, w);
    }
  }

  /** The payload counter of a non-prefix pixel names that pixel back. */
  lemma PayloadPixelOf(w: nat, y: nat, x: nat)
    requires w >= PrefixLength && x < w && !IsPrefix(y, x)
    ensures PayloadRow(w, Before(w, y, x)) == y && PayloadColumn(w, Before(w, y, x)) == x
  {
    PayloadPlacement(w, y, x);
    DivModUnique(y, x, w);
  }

  /** ftruncate: the file cut or zero-extended to n bytes. */
  function Truncated(file: seq<byte>, n: nat): (r: seq<byte>)
    ensures |r| == n
    ensures forall j :: 0 <= j < n ==> r[j] == if j < |file| then file[j] else 0
  {
    if |file| >= n then file[..n] else file + seq(n - |file|, _ => 0)
  }

  /** The locals of the recovering loop: the size field z, the mapping, the output file and the counter. */
  datatype Recovery = Recovery(z: seq<byte>, mapped: bool, length: nat, output: seq<byte>, i: nat)

  /** The length the prefix pixels of row 0 declare. */
  ghost function DeclaredLength(image: array3<byte>): nat
    reads image
  {
    FromBigEndian(PrefixBytes(image)) as nat
  }

  /**
   * What recovering from `image` leaves behind, for an output file that
   * held `file`: how process_file ends and what the output file then holds.
   */
  ghost predicate Recovered(v: Variant, image: array3<byte>, file: seq<byte>, mapOk: bool, status: Status, output: seq<byte>)
    reads image
  {
    RecoveredWith(v, image, file, mapOk, DeclaredLength(image), status, output)
  }

  /** Recovered, for a raster whose prefix declares the length L. */
  ghost predicate RecoveredWith(v: Variant, image: array3<byte>, file: seq<byte>, mapOk: bool, L: nat,
                                status: Status, output: seq<byte>)
    reads image
  {
    var h, w := image.Length0, image.Length1;
    if !(w >= PrefixLength && h >= 1) then
      output == file && status == (if 0 < w < PrefixLength && h > 1 then Died(NullMapWrite) else Done)
    else
      |output| == L &&
      (!mapOk ==> status == Fatal(v, MapFailed) && output == Truncated(file, L)) &&
      (mapOk ==> status == Done) &&
      (mapOk ==> forall j :: 0 <= j < L ==>
        output[j] ==
          if j + PrefixLength < h * w
          then PixelByte(image, PayloadRow(w, j), PayloadColumn(w, j))
          else Truncated(file, L)[j])
  }

  /** The loop invariant of the recovering loop when pixel (y, x) is next, for a declared length L. */
  ghost predicate RecoveryInvariant(image: array3<byte>, file: seq<byte>, mapOk: bool, L: nat, y: nat, x: nat, s: Recovery)
    reads image
  {
    var w := image.Length1;
    s.i == Before(w, y, x) &&
    |s.z| == PrefixLength &&
    (forall k :: 0 <= k < PrefixLength && k < w && Visited(y, x, 0, k) ==> s.z[k] == PixelByte(image, 0, k)) &&
    (s.mapped <==> w >= PrefixLength && Visited(y, x, 0, PrefixLength - 1)) &&
    (s.mapped ==> mapOk) &&
    (!s.mapped ==> s.output == file && (y == 0 || (y == 1 && x == 0) || w == 0)) &&
    (s.mapped ==> s.length == L && |s.output| == L && s.i < L) &&
    (s.mapped ==> forall j :: 0 <= j < s.i ==> s.output[j] == PixelByte(image, PayloadRow(w, j), PayloadColumn(w, j))) &&
    (s.mapped ==> forall j :: s.i <= j < L ==> s.output[j] == Truncated(file, L)[j])
  }

  lemma RecoveryRowEnd(image: array3<byte>, file: seq<byte>, mapOk: bool, L: nat, y: nat, s: Recovery)
    requires RecoveryInvariant(image, file, mapOk, L, y, image.Length1, s)
    ensures RecoveryInvariant(image, file, mapOk, L, y + 1, 0, s)
  {
    RowEnd(image.Length1, y);
  }

  lemma RecoveryEnd(v: Variant, image: array3<byte>, file: seq<byte>, mapOk: bool, L: nat, s: Recovery)
    requires RecoveryInvariant(image, file, mapOk, L, image.Length0, 0, s)
    ensures RecoveredWith(v, image, file, mapOk, L, Done, s.output)
  {
    if s.mapped {
      PayloadPixelCount(image.Length1, image.Length0);
    }
  }

  /** A prefix pixel before the last adds its byte to the size field. */
  lemma PrefixByteStored(image: array3<byte>, file: seq<byte>, mapOk: bool, L: nat, x: nat, s: Recovery)
    requires x < PrefixLength - 1 && x < image.Length1 && image.Length0 > 0
    requires RecoveryInvariant(image, file, mapOk, L, 0, x, s)
    ensures RecoveryInvariant(image, file, mapOk, L, 0, x + 1, s.(z := s.z[x := PixelByte(image, 0, x)]))
  {
    BeforeStep(image.Length1, 0, x);
  }

  /** After the eighth prefix pixel the size field holds the prefix bytes, and ntohll of it is the declared length. */
  lemma PrefixComplete(host: Endianness, image: array3<byte>, file: seq<byte>, mapOk: bool, s: Recovery)
    requires PrefixLength <= image.Length1 && image.Length0 > 0
    requires RecoveryInvariant(image, file, mapOk, DeclaredLength(image), 0, PrefixLength - 1, s)
    ensures s.z[PrefixLength - 1 := PixelByte(image, 0, PrefixLength - 1)] == PrefixBytes(image)
    ensures Ntohll(host, FromMemory(host, PrefixBytes(image))) as nat == DeclaredLength(image)
  {
    NtohllOfMemory(host, PrefixBytes(image));
  }

  /** Mapping the truncated output starts the payload part of the loop. */
  lemma MappedStart(image: array3<byte>, file: seq<byte>, L: nat, s: Recovery)
    requires PrefixLength <= image.Length1 && image.Length0 > 0 && L > 0
    requires RecoveryInvariant(image, file, true, L, 0, PrefixLength - 1, s)
    ensures RecoveryInvariant(image, file, true, L, 0, PrefixLength,
      Recovery(s.z[PrefixLength - 1 := PixelByte(image, 0, PrefixLength - 1)], true, L, Truncated(file, L), s.i))
  {
  }

  /** The loop body for a prefix pixel: one more byte of the size field; the eighth maps the output. */
  method RecoverPrefixPixel(v: Variant, host: Endianness, file: seq<byte>, mapOk: bool, image: array3<byte>,
                            ghost L: nat, y: nat, x: nat, s: Recovery)
    returns (next: Recovery, stop: bool, status: Status)
    requires y < image.Length0 && x < image.Length1 && image.Length2 >= 3 && IsPrefix(y, x)
    requires L == DeclaredLength(image)
    requires RecoveryInvariant(image, file, mapOk, L, y, x, s)
    ensures !stop ==> RecoveryInvariant(image, file, mapOk, L, y, x + 1, next)
    ensures stop ==> RecoveredWith(v, image, file, mapOk, L, status, next.output)
  {
    var c := ExtractByte(image[y, x, 0], image[y, x, 1], image[y, x, 2]);
    assert c == PixelByte(image, y, x);
    if x < PrefixLength - 1 {
      PrefixByteStored(image, file, mapOk, L, x, s);
      return s.(z := s.z[x := c]), false, Done;
    }
    next, stop, status := MapOutput(v, host, file, mapOk, image, L, s.(z := s.z[x := c]), s);
  }

  /**
   * After the eighth prefix pixel: the size field is read back with ntohll,
   * the output file is truncated to that length and mapped; a zero length
   * ends the loop at once.
   */
  method MapOutput(v: Variant, host: Endianness, file: seq<byte>, mapOk: bool, image: array3<byte>,
                   ghost L: nat, s: Recovery, ghost before: Recovery)
    returns (next: Recovery, stop: bool, status: Status)
    requires PrefixLength <= image.Length1 && image.Length0 > 0 && image.Length2 >= 3
    requires L == DeclaredLength(image)
    requires RecoveryInvariant(image, file, mapOk, L, 0, PrefixLength - 1, before)
    requires s == before.(z := before.z[PrefixLength - 1 := PixelByte(image, 0, PrefixLength - 1)])
    ensures !stop ==> RecoveryInvariant(image, file, mapOk, L, 0, PrefixLength, next)
    ensures stop ==> RecoveredWith(v, image, file, mapOk, L, status, next.output)
  {
    PrefixComplete(host, image, file, mapOk, before);
    var length := Ntohll(host, FromMemory(host, s.z)) as nat;
    next := s.(length := length, output := Truncated(file, length));
    status := Done;
    stop := false;
    if !mapOk {
      return next, true, Fatal(v, MapFailed);
    }
    next := next.(mapped := true);
    if length == 0 {
      return next, true, Done;
    }
    MappedStart(image, file, L, before);
  }

  /** The output after a payload pixel has been stored at map[i]. */
  function StorePayload(image: array3<byte>, y: nat, x: nat, s: Recovery): (next: Recovery)
    reads image
    requires s.i < |s.output|
  {
    s.(output := s.output[s.i := PixelByte(image, y, x)], i := s.i + 1)
  }

  lemma StorePayloadWritten(image: array3<byte>, file: seq<byte>, mapOk: bool, L: nat, y: nat, x: nat, s: Recovery)
    requires y < image.Length0 && x < image.Length1 && image.Length2 >= 3 && !IsPrefix(y, x)
    requires RecoveryInvariant(image, file, mapOk, L, y, x, s) && s.mapped
    ensures var next := StorePayload(image, y, x, s);
      next.i == Before(image.Length1, y, x + 1) &&
      forall j :: 0 <= j < next.i ==>
        next.output[j] == PixelByte(image, PayloadRow(image.Length1, j), PayloadColumn(image.Length1, j))
  {
    PayloadPixelOf(image.Length1, y, x);
    BeforeStep(image.Length1, y, x);
  }

  lemma StorePayloadContinues(image: array3<byte>, file: seq<byte>, mapOk: bool, L: nat, y: nat, x: nat, s: Recovery)
    requires y < image.Length0 && x < image.Length1 && image.Length2 >= 3 && !IsPrefix(y, x)
    requires RecoveryInvariant(image, file, mapOk, L, y, x, s) && s.mapped
    requires s.i + 1 < s.length
    ensures RecoveryInvariant(image, file, mapOk, L, y, x + 1, StorePayload(image, y, x, s))
  {
    StorePayloadWritten(image, file, mapOk, L, y, x, s);
  }

  lemma StorePayloadStops(v: Variant, image: array3<byte>, file: seq<byte>, mapOk: bool, L: nat,
                          y: nat, x: nat, s: Recovery)
    requires y < image.Length0 && x < image.Length1 && image.Length2 >= 3 && !IsPrefix(y, x)
    requires RecoveryInvariant(image, file, mapOk, L, y, x, s) && s.mapped
    requires s.i + 1 >= s.length
    ensures RecoveredWith(v, image, file, mapOk, L, Done, StorePayload(image, y, x, s).output)
  {
    var h, w := image.Length0, image.Length1;
    StorePayloadWritten(image, file, mapOk, L, y, x, s);
    BeforeMonotone(w, y, x + 1, h, 0);
    PayloadPixelCount(w, h);
  }

  /** The loop body for a payload pixel: store it at map[i] and stop once i reaches the length. */
  method RecoverPayloadPixel(v: Variant, file: seq<byte>, mapOk: bool, image: array3<byte>,
                             ghost L: nat, y: nat, x: nat, s: Recovery)
    returns (next: Recovery, stop: bool, status: Status)
    requires y < image.Length0 && x < image.Length1 && image.Length2 >= 3 && !IsPrefix(y, x)
    requires RecoveryInvariant(image, file, mapOk, L, y, x, s)
    ensures !stop ==> RecoveryInvariant(image, file, mapOk, L, y, x + 1, next)
    ensures stop ==> RecoveredWith(v, image, file, mapOk, L, status, next.output)
  {
    var c := ExtractByte(image[y, x, 0], image[y, x, 1], image[y, x, 2]);
    if !s.mapped {
      return s, true, Died(NullMapWrite);
    }
    next := s.(output := s.output[s.i := c], i := s.i + 1);
    assert next == StorePayload(image, y, x, s);
    status := Done;
    stop := next.i >= next.length;
    if stop {
      StorePayloadStops(v, image, file, mapOk, L, y, x, s);
    } else {
      StorePayloadContinues(image, file, mapOk, L, y, x, s);
    }
  }

  /** The body of the recovering loop for pixel (y, x). */
  method RecoverPixel(v: Variant, host: Endianness, file: seq<byte>, mapOk: bool, image: array3<byte>,
                      ghost L: nat, y: nat, x: nat, s: Recovery)
    returns (next: Recovery, stop: bool, status: Status)
    requires y < image.Length0 && x < image.Length1 && image.Length2 >= 3
    requires L == DeclaredLength(image)
    requires RecoveryInvariant(image, file, mapOk, L, y, x, s)
    ensures !stop ==> RecoveryInvariant(image, file, mapOk, L, y, x + 1, next)
    ensures stop ==> RecoveredWith(v, image, file, mapOk, L, status, next.output)
  {
    if IsPrefix(y, x) {
      next, stop, status := RecoverPrefixPixel(v, host, file, mapOk, image, L, y, x, s);
    } else {
      next, stop, status := RecoverPayloadPixel(v, file, mapOk, image, L, y, x, s);
    }
  }

  /** One row of the recovering loop. */
  method RecoverRow(v: Variant, host: Endianness, file: seq<byte>, mapOk: bool, image: array3<byte>,
                    ghost L: nat, y: nat, s: Recovery)
    returns (next: Recovery, stop: bool, status: Status)
    requires y < image.Length0 && image.Length2 >= 3
    requires L == DeclaredLength(image)
    requires RecoveryInvariant(image, file, mapOk, L, y, 0, s)
    ensures !stop ==> RecoveryInvariant(image, file, mapOk, L, y + 1, 0, next)
    ensures stop ==> RecoveredWith(v, image, file, mapOk, L, status, next.output)
  {
    next := s;
    status := Done;
    var x := 0;
    while x < image.Length1
      invariant 0 <= x <= image.Length1
      invariant RecoveryInvariant(image, file, mapOk, L, y, x, next)
    {
      next, stop, status := RecoverPixel(v, host, file, mapOk, image, L, y, x, next);
      if stop {
        return;
      }
      x := x + 1;
    }
    RecoveryRowEnd(image, file, mapOk, L, y, next);
    stop := false;
  }

  /** The recovering loop, from its first pixel with the locals in state s0. */
  method RecoverRows(v: Variant, host: Endianness, file: seq<byte>, mapOk: bool, image: array3<byte>,
                     ghost L: nat, s0: Recovery)
    returns (status: Status, output: seq<byte>)
    requires image.Length2 >= 3
    requires L == DeclaredLength(image)
    requires RecoveryInvariant(image, file, mapOk, L, 0, 0, s0)
    ensures RecoveredWith(v, image, file, mapOk, L, status, output)
  {
    var s := s0;
    var y := 0;
    while y < image.Length0
      invariant 0 <= y <= image.Length0
      invariant RecoveryInvariant(image, file, mapOk, L, y, 0, s)
    {
      var stop;
      s, stop, status := RecoverRow(v, host, file, mapOk, image, L, y, s);
      if stop {
        return status, s.output;
      }
      y := y + 1;
    }
    RecoveryEnd(v, image, file, mapOk, L, s);
    return Done, s.output;
  }

  /**
   * The recovering half of process_file. The prefix pixels rebuild the size
   * field in memory; after the eighth the output file is truncated to the
   * decoded length and mapped, and every later pixel fills the next byte
   * until that length is reached. Rasters narrower than eight pixels never
   * complete the prefix, so the first pixel of row 1 writes through the
   * unmapped (NULL) pointer. Output bytes beyond the raster's last pixel keep
   * what ftruncate left there.
   */
  method ExtractMessage(v: Variant, host: Endianness, size: bv64, file: seq<byte>,
                        openOk: bool, mapOk: bool, image: array3<byte>)
    returns (status: Status, output: seq<byte>)
    requires image.Length2 >= 3
    ensures !openOk ==> status == Fatal(v, OpenFailed) && output == file
    ensures openOk ==> Recovered(v, image, file, mapOk, status, output)
  {
    if !openOk {
      return Fatal(v, OpenFailed), file;
    }
    var s := Recovery(MemoryBytes(host, size), false, 0, file, 0);
    status, output := RecoverRows(v, host, file, mapOk, image, DeclaredLength(image), s);
  }

  /**
   * process_file: hide when will_fit has switched the mode on, recover
   * otherwise. `file` is the contents of data_info.file when it is opened.
   */
  method ProcessFile(v: Variant, host: Endianness, info: DataInfo, file: seq<byte>,
                     openOk: bool, mapOk: bool, image: array3<byte>)
    returns (status: Status, output: seq<byte>)
    requires image.Length2 >= 3
    requires info.hiding ==> |file| == Ntohll(host, info.size) as int
    modifies image
    ensures !info.hiding ==> unchanged(image)
    ensures info.hiding ==> output == file
    ensures !openOk ==> status == Fatal(v, OpenFailed) && unchanged(image) && output == file
    ensures info.hiding && openOk && !mapOk ==> status == Fatal(v, MapFailed) && unchanged(image)
    ensures info.hiding && openOk && mapOk ==> status == Done
    ensures info.hiding && openOk && mapOk ==>
      forall y, x, ch :: 0 <= y < image.Length0 && 0 <= x < image.Length1 && 0 <= ch < image.Length2 ==>
        image[y, x, ch] ==
          if Processed(image.Length1, |file|, y, x)
          then EmbedChannel(ch, old(image[y, x, ch]), ByteFor(MemoryBytes(host, info.size), file, image.Length1, y, x))
          else old(image[y, x, ch])
    ensures !info.hiding && openOk ==> Recovered(v, image, file, mapOk, status, output)
  {
    if info.hiding {
      status := EmbedMessage(v, host, info.size, file, openOk, mapOk, image);
      output := file;
    } else {
      status, output := ExtractMessage(v, host, info.size, file, openOk, mapOk, image);
    }
  }

  /**
   * The hiding path of main: the capacity check, then process_file. A file
   * larger than CAPACITY is refused before any pixel changes.
   */
  method Store(v: Variant, host: Endianness, info: DataInfo, file: seq<byte>,
               openOk: bool, mapOk: bool, image: array3<byte>)
    returns (status: Status)
    requires image.Length2 >= 3
    requires |file| == info.fileSize as int
    modifies image, info
    ensures |file| > Capacity(image.Length1, image.Length0) ==> status == Fatal(v, NoSpace) && unchanged(image)
    ensures |file| <= Capacity(image.Length1, image.Length0) ==>
      info.hiding && info.size == Htonll(host, info.fileSize) &&
      (!openOk ==> status == Fatal(v, OpenFailed)) &&
      (openOk && !mapOk ==> status == Fatal(v, MapFailed)) &&
      (openOk && mapOk ==> status == Done) &&
      (!(openOk && mapOk) ==> unchanged(image))
    ensures |file| <= Capacity(image.Length1, image.Length0) && openOk && mapOk ==>
      forall y, x, ch :: 0 <= y < image.Length0 && 0 <= x < image.Length1 && 0 <= ch < image.Length2 ==>
        image[y, x, ch] ==
          if Processed(image.Length1, |file|, y, x)
          then EmbedChannel(ch, old(image[y, x, ch]), ByteFor(MemoryBytes(host, Htonll(host, info.fileSize)), file, image.Length1, y, x))
          else old(image[y, x, ch])
  {
    var fits, errno := info.WillFit(host, image.Length1, image.Length0);
    if !fits {
      return Fatal(v, NoSpace);
    }
    var output;
    status, output := ProcessFile(v, host, info, file, openOk, mapOk, image);
  }

  /** What the hiding loop leaves in each processed pixel, read back as a byte. */
  lemma EmbeddedPixelBytes(image: array3<byte>, orig: Raster, z: seq<byte>, file: seq<byte>)
    requires image.Length2 >= 3 && |z| == PrefixLength
    requires forall y, x, ch :: 0 <= y < image.Length0 && 0 <= x < image.Length1 && 0 <= ch < image.Length2 ==>
      image[y, x, ch] ==
        if Processed(image.Length1, |file|, y, x)
        then EmbedChannel(ch, At(orig, y, x, ch), ByteFor(z, file, image.Length1, y, x))
        else At(orig, y, x, ch)
    ensures forall y, x :: 0 <= y < image.Length0 && 0 <= x < image.Length1 && Processed(image.Length1, |file|, y, x) ==>
      PixelByte(image, y, x) == ByteFor(z, file, image.Length1, y, x)
  {
    forall y, x | 0 <= y < image.Length0 && 0 <= x < image.Length1 && Processed(image.Length1, |file|, y, x)
      ensures PixelByte(image, y, x) == ByteFor(z, file, image.Length1, y, x)
    {
      var c := ByteFor(z, file, image.Length1, y, x);
      assert image[y, x, 0] == EmbedChannel0(At(orig, y, x, 0), c);
      assert image[y, x, 1] == EmbedChannel1(At(orig, y, x, 1), c);
      assert image[y, x, 2] == EmbedChannel2(At(orig, y, x, 2), c);
      ExtractInvertsEmbed(At(orig, y, x, 0), At(orig, y, x, 1), At(orig, y, x, 2), c);
    }
  }

  /** A raster whose processed pixels carry the prefix of L declares the length L. */
  lemma EmbeddedDeclaresLength(host: Endianness, L: bv64, payload: seq<byte>, image: array3<byte>)
    requires |payload| == L as int && |payload| >= 1
    requires image.Length1 >= PrefixLength && image.Length0 >= 1 && image.Length2 >= 3
    requires forall y, x :: 0 <= y < image.Length0 && 0 <= x < image.Length1 && Processed(image.Length1, |payload|, y, x) ==>
      PixelByte(image, y, x) == ByteFor(MemoryBytes(host, Htonll(host, L)), payload, image.Length1, y, x)
    ensures DeclaredLength(image) == |payload|
  {
    var z := MemoryBytes(host, Htonll(host, L));
    HtonllInMemory(host, L);
    assert PrefixBytes(image) == BigEndianBytes(L) by {
      forall k | 0 <= k < PrefixLength ensures PrefixBytes(image)[k] == z[k] {
        assert Processed(image.Length1, |payload|, 0, k);
      }
    }
    BigEndianRoundTrip(L);
  }

  /** Every payload byte of such a raster is recovered from its pixel. */
  lemma EmbeddedPayload(host: Endianness, L: bv64, payload: seq<byte>, image: array3<byte>, j: nat)
    requires |payload| == L as int
    requires image.Length1 >= PrefixLength && image.Length0 >= 1 && image.Length2 >= 3
    requires j < |payload| <= Before(image.Length1, image.Length0, 0)
    requires forall y, x :: 0 <= y < image.Length0 && 0 <= x < image.Length1 && Processed(image.Length1, |payload|, y, x) ==>
      PixelByte(image, y, x) == ByteFor(MemoryBytes(host, Htonll(host, L)), payload, image.Length1, y, x)
    ensures j + PrefixLength < image.Length0 * image.Length1
    ensures PixelByte(image, PayloadRow(image.Length1, j), PayloadColumn(image.Length1, j)) == payload[j]
  {
    var w, h := image.Length1, image.Length0;
    PayloadPixelCount(w, h);
    var y, x := PayloadPixel(w, h, j);
    PayloadPixelOf(w, y, x);
    assert Processed(w, |payload|, y, x);
  }

  /**
   * Hiding a payload in a raster at least eight pixels wide and recovering
   * it from the result gives the payload back, whatever the output file held.
   */
  method HideThenRecover(v: Variant, host: Endianness, L: bv64, payload: seq<byte>, existing: seq<byte>,
                         image: array3<byte>)
    returns (recovered: seq<byte>)
    requires |payload| == L as int
    requires image.Length1 >= PrefixLength && image.Length0 >= 1 && image.Length2 >= 3
    requires image.Length1 * image.Length0 < 0x1_0000_0000_0000_0000
    requires 1 <= |payload| <= Capacity(image.Length1, image.Length0)
    modifies image
    ensures recovered == payload
  {
    CapacityIsPayloadPixels(image.Length1, image.Length0);
    var size := Htonll(host, L);
    NtohllHtonll(host, L);
    ghost var orig := Snapshot(image);
    var status := EmbedMessage(v, host, size, payload, true, true, image);
    EmbeddedPixelBytes(image, orig, MemoryBytes(host, size), payload);
    EmbeddedDeclaresLength(host, L, payload, image);
    var status2;
    status2, recovered := ExtractMessage(v, host, 0, existing, true, true, image);
    RecoveredPayload(v, host, L, payload, existing, image, status2, recovered);
  }

  /**
   * main's hiding path followed by recovery: a payload that will_fit admits,
   * stored in a raster at least eight pixels wide, is what process_file in
   * recovery mode writes to the output file, whatever that file held.
   */
  method StoreThenRecover(v: Variant, host: Endianness, info: DataInfo, payload: seq<byte>, existing: seq<byte>,
                          image: array3<byte>)
    returns (recovered: seq<byte>)
    requires |payload| == info.fileSize as int
    requires image.Length1 >= PrefixLength && image.Length0 >= 1 && image.Length2 >= 3
    requires image.Length1 * image.Length0 < 0x1_0000_0000_0000_0000
    requires 1 <= |payload| <= Capacity(image.Length1, image.Length0)
    modifies image, info
    ensures recovered == payload
  {
    CapacityIsPayloadPixels(image.Length1, image.Length0);
    var L := info.fileSize;
    ghost var orig := Snapshot(image);
    var status := Store(v, host, info, payload, true, true, image);
    EmbeddedPixelBytes(image, orig, MemoryBytes(host, Htonll(host, L)), payload);
    EmbeddedDeclaresLength(host, L, payload, image);
    var status2;
    status2, recovered := ExtractMessage(v, host, 0, existing, true, true, image);
    RecoveredPayload(v, host, L, payload, existing, image, status2, recovered);
  }

  /** What recovery reads back from a raster carrying the prefix of L and the payload is the payload. */
  lemma RecoveredPayload(v: Variant, host: Endianness, L: bv64, payload: seq<byte>, existing: seq<byte>,
                         image: array3<byte>, status: Status, recovered: seq<byte>)
    requires |payload| == L as int
    requires image.Length1 >= PrefixLength && image.Length0 >= 1 && image.Length2 >= 3
    requires image.Length1 * image.Length0 < 0x1_0000_0000_0000_0000
    requires 1 <= |payload| <= Capacity(image.Length1, image.Length0)
    requires forall y, x :: 0 <= y < image.Length0 && 0 <= x < image.Length1 && Processed(image.Length1, |payload|, y, x) ==>
      PixelByte(image, y, x) == ByteFor(MemoryBytes(host, Htonll(host, L)), payload, image.Length1, y, x)
    requires DeclaredLength(image) == |payload|
    requires Recovered(v, image, existing, true, status, recovered)
    ensures recovered == payload
  {
    CapacityIsPayloadPixels(image.Length1, image.Length0);
    forall j | 0 <= j < |payload| ensures recovered[j] == payload[j] {
      EmbeddedPayload(host, L, payload, image, j);
    }
  }
}
