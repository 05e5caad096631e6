/**
 * The steganographic step of the JPEG codec: one message bit in the least
 * significant bit of every quantised coefficient above 1, in zig-zag order,
 * least significant bit of each message byte first.
 *
 * The encoder (process_DU in jpeg-save.c) embeds while its static offset is
 * below message->size + 8; its static bit is 1 << (pos % 8) and offset is
 * pos / 8 for the running bit count pos. The decoder (DecodeSingleBlock in
 * jpeg-load.c) ORs the bits it reads into the eight bytes of message->size
 * until they are complete, converts them with ntohll, allocates the message
 * and goes on ORing bits into it from byte 8 until offset reaches
 * message->size + 8.
 *
 * Both are first stated on one block and then on the stream of the eligible
 * coefficients' bits: embedding preserves which coefficients are eligible
 * and writes the message bits into them, and extraction from that stream
 * gives back the length and the message (StegoRoundTrip).
 */
module Stego {
  import opened Common
  import opened ByteOrder

  // ---------------------------------------------------------------------
  // Message bits

  /** The static bit when it stands at bit k: 1 << k. */
  function Mask(k: nat): (m: byte)
    requires k < 8
  {
    match k
    case 0 => 0x01 case 1 => 0x02 case 2 => 0x04 case 3 => 0x08
    case 4 => 0x10 case 5 => 0x20 case 6 => 0x40 case _ => 0x80
  }

  /** `byte & bit`: bit k of b. */
  function BitOf(b: byte, k: nat): bool
    requires k < 8
  {
    b & Mask(k) != 0
  }

  /** `byte |= bit` */
  function SetBit(b: byte, k: nat): byte
    requires k < 8
  {
    b | Mask(k)
  }

  /** The low k bits of b, the rest cleared. */
  function LowBits(b: byte, k: nat): byte
    requires k <= 8
  {
    if k == 8 then b else b & (Mask(k) - 1)
  }

  /** ORing bit k of b into its low k bits gives its low k + 1 bits. */
  lemma LowBitsStep(b: byte, k: nat)
    requires k < 8
    ensures LowBits(b, 0) == 0
    ensures (if BitOf(b, k) then SetBit(LowBits(b, k), k) else LowBits(b, k)) == LowBits(b, k + 1)
  {
    if k == 0 {
    } else if k == 1 {
    } else if k == 2 {
    } else if k == 3 {
    } else if k == 4 {
    } else if k == 5 {
    } else if k == 6 {
    } else {
    }
  }

  /** The bits of a byte in the order they are embedded: least significant first. */
  function ByteBits(b: byte): (r: seq<bool>)
    ensures |r| == 8
  {
    seq(8, k requires 0 <= k < 8 => BitOf(b, k))
  }

  /** The message as the stream of bits the encoder embeds, byte after byte. */
  function Stream(data: seq<byte>): (r: seq<bool>)
    ensures |r| == 8 * |data|
  {
    if data == [] then [] else ByteBits(data[0]) + Stream(data[1..])
  }

  /** Bit n of the stream is `data[offset] & bit` for offset = n / 8 and bit = 1 << (n % 8). */
  lemma {:induction false} StreamAt(data: seq<byte>, n: nat)
    requires n < 8 * |data|
    ensures Stream(data)[n] == BitOf(data[n / 8], n % 8)
  {
    if n >= 8 {
      StreamAt(data[1..], n - 8);
      assert (n - 8) / 8 == n / 8 - 1 && (n - 8) % 8 == n % 8;
    }
  }

  /** The stream of the first n bytes is the first 8 * n bits of the stream. */
  lemma {:induction false} StreamPrefix(data: seq<byte>, n: nat)
    requires n <= |data|
    ensures Stream(data[..n]) == Stream(data)[..8 * n]
  {
    if n > 0 {
      StreamPrefix(data[1..], n - 1);
      assert data[..n][1..] == data[1..][..n - 1];
    }
  }

  /** Message bits a up to b. */
  function MessageBits(data: seq<byte>, a: nat, b: nat): (r: seq<bool>)
    requires a <= b <= 8 * |data|
    ensures |r| == b - a
  {
    Stream(data)[a..b]
  }

  // ---------------------------------------------------------------------
  // The eligible coefficients

  /** The coefficients from i on that carry a bit: DU[i] > 1. What they carry: their lowest bit. */
  function EligibleLsbs(du: seq<int>, i: nat): (r: seq<bool>)
    requires i <= |du|
    ensures |r| <= |du| - i
    decreases |du| - i
  {
    if i == |du| then []
    else (if du[i] > 1 then [du[i] % 2 == 1] else []) + EligibleLsbs(du, i + 1)
  }

  /** The bits a sequence of blocks carries, block by block. */
  function AllLsbs(blocks: seq<seq<int>>): seq<bool>
  {
    if blocks == [] then [] else EligibleLsbs(blocks[0], 0) + AllLsbs(blocks[1..])
  }

  lemma AllLsbsCons(b: seq<int>, bs: seq<seq<int>>)
    ensures AllLsbs([b] + bs) == EligibleLsbs(b, 0) + AllLsbs(bs)
  {
    assert ([b] + bs)[1..] == bs;
  }

  lemma AllLsbsAppend(a: seq<seq<int>>, b: seq<int>)
    ensures AllLsbs(a + [b]) == AllLsbs(a) + EligibleLsbs(b, 0)
    decreases |a|
  {
    if a == [] {
      assert [b][1..] == [];
    } else {
      assert (a + [b])[1..] == a[1..] + [b];
      AllLsbsAppend(a[1..], b);
    }
  }

  // ---------------------------------------------------------------------
  // The encoder

  /**
   * DU[i] |= 0x0001 or DU[i] &= 0xFFFE on a coefficient above 1: its lowest
   * bit becomes b and it stays above 1.
   */
  function SetLsb(x: int, b: bool): (r: int)
    requires x > 1
    ensures r > 1 && r / 2 == x / 2 && (r % 2 == 1 <==> b)
    ensures x < 32768 ==> r < 32768
  {
    if b then x - x % 2 + 1 else x - x % 2
  }

  /**
   * The embedding loop's test offset < message->size + 8, for offset = pos / 8
   * and bits = Stream of the message's first message->size + 8 bytes.
   */
  predicate Embedding(bits: seq<bool>, pos: nat)
  {
    pos < |bits|
  }

  /**
   * The embedding loop of process_DU from coefficient i, with pos message
   * bits already embedded: the new block and the new bit count.
   */
  function EmbedFrom(du: seq<int>, i: nat, bits: seq<bool>, pos: nat): (r: (seq<int>, nat))
    requires i <= |du|
    ensures |r.0| == |du| && pos <= r.1
    ensures pos <= |bits| ==> r.1 <= |bits|
    decreases |du| - i
  {
    if i == |du| || !Embedding(bits, pos) then (du, pos)
    else if du[i] > 1 then EmbedFrom(du[i := SetLsb(du[i], bits[pos])], i + 1, bits, pos + 1)
    else EmbedFrom(du, i + 1, bits, pos)
  }

  /**
   * The embedding touches only the lowest bit of coefficients above 1 from i
   * on, and they stay above 1: the decoder's data[i] > 1 picks the same
   * coefficients out of the embedded block.
   */
  lemma {:induction false} EmbedKeeps(du: seq<int>, i: nat, bits: seq<bool>, pos: nat, r: (seq<int>, nat))
    requires i <= |du| && r == EmbedFrom(du, i, bits, pos)
    ensures forall k :: 0 <= k < |du| ==> (r.0[k] > 1 <==> du[k] > 1) && r.0[k] / 2 == du[k] / 2
    ensures forall k :: 0 <= k < |du| && (k < i || du[k] <= 1) ==> r.0[k] == du[k]
    decreases |du| - i
  {
    if i == |du| || !Embedding(bits, pos) {
    } else if du[i] > 1 {
      EmbedKeeps(du[i := SetLsb(du[i], bits[pos])], i + 1, bits, pos + 1, r);
    } else {
      EmbedKeeps(du, i + 1, bits, pos, r);
    }
  }

  /**
   * What the embedded block carries: the message bits pos..r.1, then what
   * the coefficients after the last one written carried before. The loop
   * stops short of the block's eligible coefficients only when the message
   * is exhausted.
   */
  lemma {:induction false} EmbedLsbs(du: seq<int>, i: nat, bits: seq<bool>, pos: nat, r: (seq<int>, nat))
    requires i <= |du| && pos <= |bits| && r == EmbedFrom(du, i, bits, pos)
    ensures r.1 - pos <= |EligibleLsbs(du, i)|
    ensures EligibleLsbs(r.0, i) == bits[pos..r.1] + EligibleLsbs(du, i)[r.1 - pos..]
    ensures r.1 - pos < |EligibleLsbs(du, i)| ==> r.1 == |bits|
    decreases |du| - i, 1
  {
    if i == |du| {
    } else if !Embedding(bits, pos) {
      assert EligibleLsbs(du, i)[0..] == EligibleLsbs(du, i);
    } else if du[i] > 1 {
      EmbedLsbsHit(du, i, bits, pos, r);
    } else {
      EmbedLsbsMiss(du, i, bits, pos, r);
    }
  }

  lemma {:induction false} EmbedLsbsHit(du: seq<int>, i: nat, bits: seq<bool>, pos: nat, r: (seq<int>, nat))
    requires i < |du| && pos < |bits| && du[i] > 1 && r == EmbedFrom(du, i, bits, pos)
    ensures r.1 - pos <= |EligibleLsbs(du, i)|
    ensures EligibleLsbs(r.0, i) == bits[pos..r.1] + EligibleLsbs(du, i)[r.1 - pos..]
    ensures r.1 - pos < |EligibleLsbs(du, i)| ==> r.1 == |bits|
    decreases |du| - i, 0
  {
    var b := bits[pos];
    var du' := du[i := SetLsb(du[i], b)];
    assert r == EmbedFrom(du', i + 1, bits, pos + 1);
    EmbedLsbs(du', i + 1, bits, pos + 1, r);
    SameFrom(du, du', i + 1);
    EmbedKeeps(du', i + 1, bits, pos + 1, r);
    EmbedHit(du, i, bits, pos, r, b);
  }

  lemma {:induction false} EmbedLsbsMiss(du: seq<int>, i: nat, bits: seq<bool>, pos: nat, r: (seq<int>, nat))
    requires i < |du| && pos < |bits| && du[i] <= 1 && r == EmbedFrom(du, i, bits, pos)
    ensures r.1 - pos <= |EligibleLsbs(du, i)|
    ensures EligibleLsbs(r.0, i) == bits[pos..r.1] + EligibleLsbs(du, i)[r.1 - pos..]
    ensures r.1 - pos < |EligibleLsbs(du, i)| ==> r.1 == |bits|
    decreases |du| - i, 0
  {
    assert r == EmbedFrom(du, i + 1, bits, pos);
    EmbedLsbs(du, i + 1, bits, pos, r);
    EmbedKeeps(du, i + 1, bits, pos, r);
    EmbedMiss(du, i, bits, pos, r);
  }

  /** The step of EmbedLsbs at an eligible coefficient i that receives message bit pos. */
  lemma EmbedHit(du: seq<int>, i: nat, bits: seq<bool>, pos: nat, r: (seq<int>, nat), b: bool)
    requires i < |du| == |r.0| && du[i] > 1 && pos < r.1 <= |bits|
    requires b == bits[pos] && r.0[i] == SetLsb(du[i], b)
    requires r.1 - (pos + 1) <= |EligibleLsbs(du, i + 1)|
    requires EligibleLsbs(r.0, i + 1) == bits[pos + 1..r.1] + EligibleLsbs(du, i + 1)[r.1 - (pos + 1)..]
    requires r.1 - (pos + 1) < |EligibleLsbs(du, i + 1)| ==> r.1 == |bits|
    ensures r.1 - pos <= |EligibleLsbs(du, i)|
    ensures EligibleLsbs(r.0, i) == bits[pos..r.1] + EligibleLsbs(du, i)[r.1 - pos..]
    ensures r.1 - pos < |EligibleLsbs(du, i)| ==> r.1 == |bits|
  {
    var tail := EligibleLsbs(du, i + 1);
    EligibleHead(du, i);
    EligibleHead(r.0, i);
    SliceHead(bits, pos, r.1);
    SliceCons(du[i] % 2 == 1, tail, r.1 - pos);
    ConsConcat(b, bits[pos + 1..r.1], tail[r.1 - (pos + 1)..]);
  }

  /** The step of EmbedLsbs at a coefficient i of at most 1, which it leaves alone. */
  lemma EmbedMiss(du: seq<int>, i: nat, bits: seq<bool>, pos: nat, r: (seq<int>, nat))
    requires i < |du| == |r.0| && du[i] <= 1 && r.0[i] == du[i] && pos <= r.1 <= |bits|
    requires r.1 - pos <= |EligibleLsbs(du, i + 1)|
    requires EligibleLsbs(r.0, i + 1) == bits[pos..r.1] + EligibleLsbs(du, i + 1)[r.1 - pos..]
    requires r.1 - pos < |EligibleLsbs(du, i + 1)| ==> r.1 == |bits|
    ensures r.1 - pos <= |EligibleLsbs(du, i)|
    ensures EligibleLsbs(r.0, i) == bits[pos..r.1] + EligibleLsbs(du, i)[r.1 - pos..]
    ensures r.1 - pos < |EligibleLsbs(du, i)| ==> r.1 == |bits|
  {
    EligibleSkip(du, i);
    EligibleSkip(r.0, i);
  }

  /** An eligible coefficient i contributes its lowest bit ahead of the rest. */
  lemma EligibleHead(du: seq<int>, i: nat)
    requires i < |du| && du[i] > 1
    ensures EligibleLsbs(du, i) == [du[i] % 2 == 1] + EligibleLsbs(du, i + 1)
  {
  }

  /** A coefficient of at most 1 carries nothing. */
  lemma EligibleSkip(du: seq<int>, i: nat)
    requires i < |du| && du[i] <= 1
    ensures EligibleLsbs(du, i) == EligibleLsbs(du, i + 1)
  {
  }

  lemma SliceHead<T>(s: seq<T>, a: nat, b: nat)
    requires a < b <= |s|
    ensures s[a..b] == [s[a]] + s[a + 1..b]
  {
  }

  lemma SliceCons<T>(x: T, s: seq<T>, n: nat)
    requires 1 <= n <= |s| + 1
    ensures ([x] + s)[n..] == s[n - 1..]
  {
  }

  lemma ConsConcat<T>(x: T, s: seq<T>, t: seq<T>)
    ensures [x] + (s + t) == ([x] + s) + t
  {
  }

  /** Blocks that agree from i on carry the same bits from i on. */
  lemma {:induction false} SameFrom(a: seq<int>, b: seq<int>, i: nat)
    requires i <= |a| == |b| && forall k :: i <= k < |a| ==> a[k] == b[k]
    ensures EligibleLsbs(a, i) == EligibleLsbs(b, i)
    decreases |a| - i
  {
    if i < |a| {
      SameFrom(a, b, i + 1);
    }
  }

  /** process_DU's embedding, block after block: the embedded blocks and the final bit count. */
  function EmbedBlocks(blocks: seq<seq<int>>, bits: seq<bool>, pos: nat): (r: (seq<seq<int>>, nat))
    ensures |r.0| == |blocks| && pos <= r.1
    ensures forall n :: 0 <= n < |blocks| ==> |r.0[n]| == |blocks[n]|
    decreases |blocks|
  {
    if blocks == [] then ([], pos)
    else
      var first := EmbedFrom(blocks[0], 0, bits, pos);
      var rest := EmbedBlocks(blocks[1..], bits, first.1);
      ([first.0] + rest.0, rest.1)
  }

  /**
   * The blocks out carry the message bits pos..end written over the front of
   * what the blocks carried before, and the writing stops short of their
   * eligible coefficients only at the end of the message.
   */
  ghost predicate Carries(bits: seq<bool>, pos: nat, blocks: seq<seq<int>>, out: seq<seq<int>>, end: nat)
  {
    && pos <= end <= |bits|
    && end - pos <= |AllLsbs(blocks)|
    && AllLsbs(out) == bits[pos..end] + AllLsbs(blocks)[end - pos..]
    && (end - pos < |AllLsbs(blocks)| ==> end == |bits|)
  }

  /**
   * Embedding a stream of blocks writes the message bits from pos into the
   * eligible coefficients in order, and stops early only once the message
   * is exhausted.
   */
  lemma {:induction false} EmbedBlocksLsbs(blocks: seq<seq<int>>, bits: seq<bool>, pos: nat)
    requires pos <= |bits|
    ensures var r := EmbedBlocks(blocks, bits, pos); Carries(bits, pos, blocks, r.0, r.1)
    decreases |blocks|
  {
    if blocks != [] {
      var r := EmbedBlocks(blocks, bits, pos);
      var first := EmbedFrom(blocks[0], 0, bits, pos);
      var rest := EmbedBlocks(blocks[1..], bits, first.1);
      EmbedBlocksLsbs(blocks[1..], bits, first.1);
      EmbedBlocksStep(bits, pos, blocks[0], blocks[1..], rest.0, rest.1);
      assert r.0 == [first.0] + rest.0 && r.1 == rest.1;
      assert blocks == [blocks[0]] + blocks[1..];
    }
  }

  /** One block more: the first block b0 embedded up to some bit f, then the blocks bs as rs up to bit l. */
  lemma EmbedBlocksStep(bits: seq<bool>, pos: nat, b0: seq<int>, bs: seq<seq<int>>, rs: seq<seq<int>>, l: nat)
    requires pos <= |bits|
    requires var f := EmbedFrom(b0, 0, bits, pos).1; f <= l && Carries(bits, f, bs, rs, l)
    ensures Carries(bits, pos, [b0] + bs, [EmbedFrom(b0, 0, bits, pos).0] + rs, l)
  {
    var first := EmbedFrom(b0, 0, bits, pos);
    EmbedLsbs(b0, 0, bits, pos, first);
    SpliceBlocks(bits, pos, b0, bs, first.0, first.1, rs, l);
  }

  /** The same over the embedded first block f0 and its bit count f. */
  lemma SpliceBlocks(bits: seq<bool>, pos: nat, b0: seq<int>, bs: seq<seq<int>>,
                     f0: seq<int>, f: nat, rs: seq<seq<int>>, l: nat)
    requires pos <= f <= |bits| && f - pos <= |EligibleLsbs(b0, 0)|
    requires EligibleLsbs(f0, 0) == bits[pos..f] + EligibleLsbs(b0, 0)[f - pos..]
    requires f - pos < |EligibleLsbs(b0, 0)| ==> f == |bits|
    requires Carries(bits, f, bs, rs, l)
    ensures Carries(bits, pos, [b0] + bs, [f0] + rs, l)
  {
    AllLsbsCons(f0, rs);
    AllLsbsCons(b0, bs);
    SpliceBits(bits, pos, f, l, EligibleLsbs(b0, 0), AllLsbs(bs),
      EligibleLsbs(f0, 0), AllLsbs(rs), AllLsbs([f0] + rs), AllLsbs([b0] + bs));
  }

  /**
   * x0 is e0 with the message bits pos..f written over its front, and xs is
   * es with the bits f..r written over its front; the bits run out before
   * e0 or es does only at the end of the stream.
   */
  ghost predicate Spliced(stream: seq<bool>, pos: nat, f: nat, r: nat, e0: seq<bool>, es: seq<bool>,
                          x0: seq<bool>, xs: seq<bool>)
  {
    && pos <= f <= r <= |stream| && f - pos <= |e0| && r - f <= |es|
    && (f - pos < |e0| ==> f == |stream|)
    && (r - f < |es| ==> r == |stream|)
    && x0 == stream[pos..f] + e0[f - pos..] && xs == stream[f..r] + es[r - f..]
  }

  /**
   * The message bits pos..f written into the first block's bits e0 followed
   * by the bits f..r written into the rest's bits es are the bits pos..r
   * written into both.
   */
  lemma SpliceBits(stream: seq<bool>, pos: nat, f: nat, r: nat, e0: seq<bool>, es: seq<bool>,
                   x0: seq<bool>, xs: seq<bool>, x: seq<bool>, e: seq<bool>)
    requires Spliced(stream, pos, f, r, e0, es, x0, xs) && x == x0 + xs && e == e0 + es
    ensures r - pos <= |e|
    ensures x == stream[pos..r] + e[r - pos..]
    ensures r - pos < |e| ==> r == |stream|
  {
    if f - pos < |e0| {
      assert stream[f..r] == [] && es[r - f..] == es;
      assert (e0 + es)[r - pos..] == e0[f - pos..] + es;
    } else {
      assert stream[pos..r] == stream[pos..f] + stream[f..r];
      assert (e0 + es)[r - pos..] == es[r - f..];
    }
  }

  /** Embedding leaves every block's eligible coefficients where they were. */
  lemma {:induction false} EmbedBlocksEligible(blocks: seq<seq<int>>, bits: seq<bool>, pos: nat)
    ensures var r := EmbedBlocks(blocks, bits, pos);
      forall n, k :: 0 <= n < |blocks| && 0 <= k < |blocks[n]| ==>
        (r.0[n][k] > 1 <==> blocks[n][k] > 1) && (blocks[n][k] <= 1 ==> r.0[n][k] == blocks[n][k])
    decreases |blocks|
  {
    if blocks != [] {
      var first := EmbedFrom(blocks[0], 0, bits, pos);
      EmbedKeeps(blocks[0], 0, bits, pos, first);
      EmbedBlocksEligible(blocks[1..], bits, first.1);
      var r := EmbedBlocks(blocks, bits, pos);
      forall n, k | 0 <= n < |blocks| && 0 <= k < |blocks[n]|
        ensures (r.0[n][k] > 1 <==> blocks[n][k] > 1) && (blocks[n][k] <= 1 ==> r.0[n][k] == blocks[n][k])
      {
        if n > 0 {
          assert r.0[n] == EmbedBlocks(blocks[1..], bits, first.1).0[n - 1];
          assert blocks[n] == blocks[1..][n - 1];
        }
      }
    }
  }

  // ---------------------------------------------------------------------
  // The decoder, JPEG_LOAD_FIND

  /**
   * The decoder's statics and the message it fills: the eight bytes of
   * message->size in memory (while they are being filled), message->data,
   * offset, bit = 1 << bitIndex, aloc, and message->size once converted.
   */
  datatype Finder = Finder(sizeMem: seq<byte>, data: seq<byte>, offset: nat, bitIndex: nat, aloc: bool, size: nat)

  /** message->size + sizeof message->size, in uint64_t. */
  function Limit(size: nat): nat
  {
    Wrap64(size + 8)
  }

  /** Before the allocation offset is below 8; after it, message->data has Limit(size) bytes. */
  predicate FinderValid(f: Finder)
  {
    && |f.sizeMem| == 8 && f.bitIndex < 8
    && (!f.aloc ==> f.offset < 8)
    && (f.aloc ==> f.offset >= 8 && |f.data| == Limit(f.size))
  }

  /** The extraction loop's stop test: aloc && offset >= message->size + 8. */
  predicate Done(f: Finder)
  {
    f.aloc && f.offset >= |f.data|
  }

  /** read_jpeg's msg = { 0x00, NULL } and the zero-initialised statics. */
  function FinderStart(): (f: Finder)
    ensures FinderValid(f) && !Done(f)
  {
    Finder(seq(8, _ => 0), [], 0, 0, false, 0)
  }

  /** OR an eligible coefficient's lowest bit into the current byte and move bit on. */
  function Advance(f: Finder, lsb: bool): (r: Finder)
    requires FinderValid(f) && !Done(f)
    ensures |r.sizeMem| == 8 && r.bitIndex < 8 && r.aloc == f.aloc && r.size == f.size && |r.data| == |f.data|
    ensures r.offset == if f.bitIndex == 7 then f.offset + 1 else f.offset
  {
    var f1 :=
      if !lsb then f
      else if f.aloc then f.(data := f.data[f.offset := SetBit(f.data[f.offset], f.bitIndex)])
      else f.(sizeMem := f.sizeMem[f.offset := SetBit(f.sizeMem[f.offset], f.bitIndex)]);
    if f.bitIndex == 7 then f1.(bitIndex := 0, offset := f.offset + 1) else f1.(bitIndex := f.bitIndex + 1)
  }

  /**
   * Once the eight bytes of message->size are complete: ntohll, and
   * message->size + 8 zeroed bytes. ntohll of the bytes in memory is their
   * big-endian value on either host (NtohllValue).
   */
  function Allocate(host: Endianness, f: Finder): (r: Finder)
    requires |f.sizeMem| == 8 && f.bitIndex < 8 && f.offset >= 8
    ensures FinderValid(r)
  {
    var L := BigEndianValue(f.sizeMem);
    f.(size := L, data := seq(Limit(L), _ => 0), aloc := true)
  }

  /** One eligible coefficient whose lowest bit is lsb. */
  function FindStep(host: Endianness, f: Finder, lsb: bool): (r: Finder)
    requires FinderValid(f) && !Done(f)
    ensures FinderValid(r)
  {
    var f2 := Advance(f, lsb);
    if f2.offset >= 8 && !f2.aloc then Allocate(host, f2) else f2
  }

  /** Extraction from a stream of eligible coefficients' bits. */
  function FindBits(host: Endianness, f: Finder, bits: seq<bool>): (r: Finder)
    requires FinderValid(f)
    ensures FinderValid(r)
    decreases |bits|
  {
    if bits == [] || Done(f) then f else FindBits(host, FindStep(host, f, bits[0]), bits[1..])
  }

  /** The extraction loop of DecodeSingleBlock from coefficient i. */
  function FindFrom(host: Endianness, du: seq<int>, i: nat, f: Finder): (r: Finder)
    requires i <= |du| && FinderValid(f)
    ensures FinderValid(r)
    decreases |du| - i
  {
    if i == |du| || Done(f) then f
    else if du[i] > 1 then FindFrom(host, du, i + 1, FindStep(host, f, du[i] % 2 == 1))
    else FindFrom(host, du, i + 1, f)
  }

  /** Once done, extraction reads nothing more. */
  lemma {:induction false} FindBitsDone(host: Endianness, f: Finder, bits: seq<bool>)
    requires FinderValid(f) && Done(f)
    ensures FindBits(host, f, bits) == f
  {
  }

  lemma {:induction false} FindBitsAppend(host: Endianness, f: Finder, a: seq<bool>, b: seq<bool>)
    requires FinderValid(f)
    ensures FindBits(host, f, a + b) == FindBits(host, FindBits(host, f, a), b)
    decreases |a|
  {
    if a == [] {
      assert a + b == b;
    } else if Done(f) {
      FindBitsDone(host, f, b);
    } else {
      assert (a + b)[1..] == a[1..] + b;
      FindBitsAppend(host, FindStep(host, f, a[0]), a[1..], b);
    }
  }

  /** The block loop reads exactly the bits the block's eligible coefficients carry. */
  lemma {:induction false} FindFromBits(host: Endianness, du: seq<int>, i: nat, f: Finder)
    requires i <= |du| && FinderValid(f)
    ensures FindFrom(host, du, i, f) == FindBits(host, f, EligibleLsbs(du, i))
    decreases |du| - i
  {
    if i == |du| {
    } else if Done(f) {
      FindBitsDone(host, f, EligibleLsbs(du, i));
    } else if du[i] > 1 {
      FindFromBits(host, du, i + 1, FindStep(host, f, du[i] % 2 == 1));
      assert ([du[i] % 2 == 1] + EligibleLsbs(du, i + 1))[1..] == EligibleLsbs(du, i + 1);
    } else {
      FindFromBits(host, du, i + 1, f);
      assert EligibleLsbs(du, i) == EligibleLsbs(du, i + 1);
    }
  }

  /** DecodeSingleBlock's extraction, block after block. */
  function FindBlocks(host: Endianness, blocks: seq<seq<int>>, f: Finder): (r: Finder)
    requires FinderValid(f)
    ensures FinderValid(r)
    decreases |blocks|
  {
    if blocks == [] then f else FindBlocks(host, blocks[1..], FindFrom(host, blocks[0], 0, f))
  }

  lemma {:induction false} FindBlocksBits(host: Endianness, blocks: seq<seq<int>>, f: Finder)
    requires FinderValid(f)
    ensures FindBlocks(host, blocks, f) == FindBits(host, f, AllLsbs(blocks))
    decreases |blocks|
  {
    if blocks != [] {
      FindFromBits(host, blocks[0], 0, f);
      FindBlocksBits(host, blocks[1..], FindFrom(host, blocks[0], 0, f));
      FindBitsAppend(host, f, EligibleLsbs(blocks[0], 0), AllLsbs(blocks[1..]));
    }
  }

  /** A message of lim = L + 8 bytes whose first eight bytes declare the length L, big-endian. */
  predicate Framed(data: seq<byte>, lim: nat, L: nat)
  {
    8 <= |data| && L == BigEndianValue(data[..8]) && lim == Limit(L) && 8 <= lim <= |data|
  }

  /** Bit k2 of byte q2 is the message bit after bit k of byte q. */
  predicate NextBit(q: nat, k: nat, q2: nat, k2: nat)
  {
    q2 == (if k == 7 then q + 1 else q) && k2 == (if k == 7 then 0 else k + 1)
  }

  /**
   * The first len bytes of src as the decoder holds them before bit k of
   * byte q: the bytes before q complete, byte q holding its low k bits, the
   * bytes after it and those below lo still zero.
   */
  function Built(src: seq<byte>, len: nat, lo: nat, q: nat, k: nat): (r: seq<byte>)
    requires len <= |src| && k <= 8
    ensures |r| == len
  {
    seq(len, j requires 0 <= j < len =>
      if j < lo then 0 else if j < q then src[j] else if j == q then LowBits(src[j], k) else 0)
  }

  /** ORing bit k of byte q in completes one more bit of the bytes being built. */
  lemma BuiltStep(src: seq<byte>, len: nat, lo: nat, q: nat, k: nat)
    requires len <= |src| && lo <= q < len && k < 8
    ensures var b := Built(src, len, lo, q, k);
      (if BitOf(src[q], k) then b[q := SetBit(b[q], k)] else b)
      == if k == 7 then Built(src, len, lo, q + 1, 0) else Built(src, len, lo, q, k + 1)
  {
    LowBitsStep(src[q], k);
    if q + 1 < len {
      LowBitsStep(src[q + 1], 0);
    }
  }

  /**
   * The decoder's state before bit k of message byte q, for a message whose
   * first eight bytes declare the length L and which has lim = L + 8 bytes.
   */
  function StateAt(data: seq<byte>, lim: nat, L: nat, q: nat, k: nat): (f: Finder)
    requires 8 <= lim <= |data| && q <= lim && k < 8
  {
    if q < 8 then Finder(Built(data, 8, 0, q, k), [], q, k, false, 0)
    else Finder(data[..8], Built(data, lim, 8, q, k), q, k, true, L)
  }

  /** The length bits before the last one update the byte of message->size they belong to. */
  lemma FindOneSize(host: Endianness, data: seq<byte>, lim: nat, L: nat, q: nat, k: nat)
    requires 8 <= lim <= |data| && q < 8 && k < 8 && (q < 7 || k < 7)
    ensures FinderValid(StateAt(data, lim, L, q, k)) && !Done(StateAt(data, lim, L, q, k))
    ensures FindStep(host, StateAt(data, lim, L, q, k), BitOf(data[q], k))
      == StateAt(data, lim, L, if k == 7 then q + 1 else q, if k == 7 then 0 else k + 1)
  {
    BuiltStep(data, 8, 0, q, k);
  }

  /** The last length bit completes message->size: ntohll, and the allocation of L + 8 zeroed bytes. */
  lemma FindOneAlloc(host: Endianness, data: seq<byte>, lim: nat, L: nat)
    requires Framed(data, lim, L)
    ensures FinderValid(StateAt(data, lim, L, 7, 7)) && !Done(StateAt(data, lim, L, 7, 7))
    ensures FindStep(host, StateAt(data, lim, L, 7, 7), BitOf(data[7], 7)) == StateAt(data, lim, L, 8, 0)
  {
    SizeComplete(data, lim, L);
    SizeAllocated(host, data, lim, L);
  }

  lemma SizeComplete(data: seq<byte>, lim: nat, L: nat)
    requires 8 <= lim <= |data|
    ensures FinderValid(StateAt(data, lim, L, 7, 7)) && !Done(StateAt(data, lim, L, 7, 7))
    ensures Advance(StateAt(data, lim, L, 7, 7), BitOf(data[7], 7)) == Finder(data[..8], [], 8, 0, false, 0)
  {
    BuiltStep(data, 8, 0, 7, 7);
    assert Built(data, 8, 0, 8, 0) == data[..8];
  }

  lemma SizeAllocated(host: Endianness, data: seq<byte>, lim: nat, L: nat)
    requires Framed(data, lim, L)
    ensures Allocate(host, Finder(data[..8], [], 8, 0, false, 0)) == StateAt(data, lim, L, 8, 0)
  {
    NtohllValue(host, data[..8]);
    NothingBuilt(data, lim);
  }

  /** Before the first message bit, message->data is all zeros. */
  lemma NothingBuilt(data: seq<byte>, lim: nat)
    requires 8 <= lim <= |data|
    ensures Built(data, lim, 8, 8, 0) == seq(lim, _ => 0)
  {
    if lim > 8 {
      LowBitsStep(data[8], 0);
    }
  }

  /** A message bit updates the byte of message->data it belongs to. */
  lemma FindOneData(host: Endianness, data: seq<byte>, lim: nat, L: nat, q: nat, k: nat)
    requires 8 <= lim <= |data| && lim == Limit(L) && 8 <= q < lim && k < 8
    ensures FinderValid(StateAt(data, lim, L, q, k)) && !Done(StateAt(data, lim, L, q, k))
    ensures FindStep(host, StateAt(data, lim, L, q, k), BitOf(data[q], k))
      == StateAt(data, lim, L, if k == 7 then q + 1 else q, if k == 7 then 0 else k + 1)
  {
    BuiltStep(data, lim, 8, q, k);
  }

  /** One message bit moves the decoder on by one bit, from bit k of byte q to bit k2 of byte q2. */
  lemma FindOne(host: Endianness, data: seq<byte>, lim: nat, L: nat, q: nat, k: nat, q2: nat, k2: nat)
    requires Framed(data, lim, L)
    requires q < lim && k < 8
    requires NextBit(q, k, q2, k2)
    ensures FinderValid(StateAt(data, lim, L, q, k)) && !Done(StateAt(data, lim, L, q, k))
    ensures FindStep(host, StateAt(data, lim, L, q, k), BitOf(data[q], k)) == StateAt(data, lim, L, q2, k2)
  {
    if q >= 8 {
      FindOneData(host, data, lim, L, q, k);
    } else if q < 7 || k < 7 {
      FindOneSize(host, data, lim, L, q, k);
    } else {
      FindOneAlloc(host, data, lim, L);
    }
  }

  /**
   * The decoder's state after the message bits before bit k of byte q:
   * FindBits over the first 8 * q + k bits of the stream.
   */
  lemma {:induction false} FindPrefix(host: Endianness, data: seq<byte>, lim: nat, L: nat, q: nat, k: nat)
    requires Framed(data, lim, L)
    requires (q < lim && k < 8) || (q == lim && k == 0)
    ensures FindBits(host, FinderStart(), MessageBits(data, 0, 8 * q + k)) == StateAt(data, lim, L, q, k)
    decreases 8 * q + k, 1
  {
    if q == 0 && k == 0 {
      FindPrefixStart(host, data, lim, L);
    } else if k == 0 {
      FindPrefixByte(host, data, lim, L, q);
    } else {
      FindPrefixBit(host, data, lim, L, q, k);
    }
  }

  /** The induction step onto the first bit of byte q. */
  lemma {:induction false} FindPrefixByte(host: Endianness, data: seq<byte>, lim: nat, L: nat, q: nat)
    requires Framed(data, lim, L)
    requires 0 < q <= lim
    ensures FindBits(host, FinderStart(), MessageBits(data, 0, 8 * q)) == StateAt(data, lim, L, q, 0)
    decreases 8 * q, 0
  {
    FindPrefix(host, data, lim, L, q - 1, 7);
    FindPrefixStep(host, data, lim, L, q - 1, 7, 8 * (q - 1) + 7, q, 0, 8 * q);
  }

  /** The induction step onto bit k > 0 of byte q. */
  lemma {:induction false} FindPrefixBit(host: Endianness, data: seq<byte>, lim: nat, L: nat, q: nat, k: nat)
    requires Framed(data, lim, L)
    requires q < lim && 0 < k < 8
    ensures FindBits(host, FinderStart(), MessageBits(data, 0, 8 * q + k)) == StateAt(data, lim, L, q, k)
    decreases 8 * q + k, 0
  {
    FindPrefix(host, data, lim, L, q, k - 1);
    FindPrefixStep(host, data, lim, L, q, k - 1, 8 * q + (k - 1), q, k, 8 * q + k);
  }

  /** Before any message bit the decoder is in its initial state. */
  lemma FindPrefixStart(host: Endianness, data: seq<byte>, lim: nat, L: nat)
    requires 8 <= lim <= |data|
    ensures FindBits(host, FinderStart(), MessageBits(data, 0, 0)) == StateAt(data, lim, L, 0, 0)
  {
    LowBitsStep(data[0], 0);
    assert Built(data, 8, 0, 0, 0) == seq(8, _ => 0);
  }

  /** The induction step of FindPrefix: one more message bit takes the decoder from bit k of byte q to bit k2 of byte q2. */
  lemma FindPrefixStep(host: Endianness, data: seq<byte>, lim: nat, L: nat, q: nat, k: nat, n: nat, q2: nat, k2: nat, n2: nat)
    requires Framed(data, lim, L)
    requires q < lim && k < 8 && n == 8 * q + k
    requires NextBit(q, k, q2, k2) && n2 == n + 1
    requires FindBits(host, FinderStart(), MessageBits(data, 0, n)) == StateAt(data, lim, L, q, k)
    ensures FindBits(host, FinderStart(), MessageBits(data, 0, n2)) == StateAt(data, lim, L, q2, k2)
  {
    MessageSnoc(data, q, k);
    FindOne(host, data, lim, L, q, k, q2, k2);
    FindBitsSnoc(host, FinderStart(), MessageBits(data, 0, n), BitOf(data[q], k));
  }

  /** The message bits up to bit k of byte q, and that bit. */
  lemma MessageSnoc(data: seq<byte>, q: nat, k: nat)
    requires q < |data| && k < 8
    ensures MessageBits(data, 0, 8 * q + k + 1) == MessageBits(data, 0, 8 * q + k) + [BitOf(data[q], k)]
  {
    StreamBit(data, q, k);
    SliceExtend(Stream(data), 0, 8 * q + k);
  }

  /** Extraction of one more bit is one more FindStep. */
  lemma FindBitsSnoc(host: Endianness, f: Finder, a: seq<bool>, b: bool)
    requires FinderValid(f) && !Done(FindBits(host, f, a))
    ensures FindBits(host, f, a + [b]) == FindStep(host, FindBits(host, f, a), b)
  {
    FindBitsAppend(host, f, a, [b]);
  }

  lemma SliceExtend<T>(s: seq<T>, a: nat, b: nat)
    requires a <= b < |s|
    ensures s[a..b + 1] == s[a..b] + [s[b]]
  {
  }

  /** Bit k of byte q is bit 8 * q + k of the stream. */
  lemma {:induction false} StreamBit(data: seq<byte>, q: nat, k: nat)
    requires q < |data| && k < 8
    ensures Stream(data)[8 * q + k] == BitOf(data[q], k)
  {
    if q > 0 {
      StreamBit(data[1..], q - 1, k);
    }
  }

  /**
   * Extraction from a stream that starts with the whole message: the
   * decoder takes the big-endian length L from the first eight bytes,
   * allocates L + 8 bytes and fills bytes 8.. with the message, whatever
   * follows in the stream. Bytes 0..7 of message->data stay zero; read_jpeg
   * writes the length back there.
   */
  lemma FindMessage(host: Endianness, data: seq<byte>, lim: nat, L: nat, rest: seq<bool>)
    requires Framed(data, lim, L)
    ensures FindBits(host, FinderStart(), MessageBits(data, 0, 8 * lim) + rest)
      == Finder(data[..8], seq(8, _ => 0) + data[8..lim], lim, 0, true, L)
  {
    FindPrefix(host, data, lim, L, lim, 0);
    FindBitsAppend(host, FinderStart(), MessageBits(data, 0, 8 * lim), rest);
    assert Built(data, lim, 8, lim, 0) == seq(8, _ => 0) + data[8..lim];
    FindBitsDone(host, StateAt(data, lim, L, lim, 0), rest);
  }

  /**
   * The steganographic round trip on coefficients: when the blocks have at
   * least 8 * (L + 8) eligible coefficients for the length L the message's
   * first eight bytes declare (big-endian), extracting from the embedded
   * blocks gives back L and message bytes 8..L + 8, on either host.
   */
  lemma StegoRoundTrip(host: Endianness, blocks: seq<seq<int>>, data: seq<byte>, L: nat, lim: nat)
    requires 8 <= |data| && L == BigEndianValue(data[..8]) && lim == Limit(L) && 8 <= lim <= |data|
    requires |AllLsbs(blocks)| >= 8 * lim
    ensures FindBlocks(host, EmbedBlocks(blocks, Stream(data[..lim]), 0).0, FinderStart())
      == Finder(data[..8], seq(8, _ => 0) + data[8..lim], lim, 0, true, L)
  {
    var bits := Stream(data[..lim]);
    var r := EmbedBlocks(blocks, bits, 0);
    StreamPrefix(data, lim);
    assert bits == MessageBits(data, 0, 8 * lim);
    EmbedBlocksLsbs(blocks, bits, 0);
    assert r.1 == 8 * lim;
    assert AllLsbs(r.0) == MessageBits(data, 0, 8 * lim) + AllLsbs(blocks)[8 * lim..];
    FindBlocksBits(host, r.0, FinderStart());
    FindMessage(host, data, lim, L, AllLsbs(blocks)[8 * lim..]);
  }

  // ---------------------------------------------------------------------
  // The decoder, JPEG_LOAD_READ

  /** The number of eligible coefficients from i on. */
  function CountFrom(du: seq<int>, i: nat): (n: nat)
    requires i <= |du|
    ensures n == |EligibleLsbs(du, i)|
    decreases |du| - i
  {
    if i == |du| then 0 else (if du[i] > 1 then 1 else 0) + CountFrom(du, i + 1)
  }
}
