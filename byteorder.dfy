/**
 * The 64-bit byte swap and the host/network order conversions of main.h.
 * Host byte order is a parameter: on a little-endian host htonll and ntohll
 * are the byte swap, on a big-endian host they are the identity.
 */
module ByteOrder {
  import opened Common

  datatype Endianness = LittleEndian | BigEndian

  /** Byte k of x, counting from the least significant byte. */
  function ByteOf(x: bv64, k: nat): byte
    requires k < 8
  {
    var shifted :=
      if k == 0 then x else if k == 1 then x >> 8 else if k == 2 then x >> 16
      else if k == 3 then x >> 24 else if k == 4 then x >> 32 else if k == 5 then x >> 40
      else if k == 6 then x >> 48 else x >> 56;
    (shifted & 0xFF) as byte
  }

  /** The __bswap_64 macro, mask by mask. */
  function Bswap64(x: bv64): bv64
  {
    ((x & 0xff00000000000000) >> 56)
    | ((x & 0x00ff000000000000) >> 40)
    | ((x & 0x0000ff0000000000) >> 24)
    | ((x & 0x000000ff00000000) >> 8)
    | ((x & 0x00000000ff000000) << 8)
    | ((x & 0x0000000000ff0000) << 24)
    | ((x & 0x000000000000ff00) << 40)
    | ((x & 0x00000000000000ff) << 56)
  }

  /** The byte swap reverses the order of the eight bytes. */
  lemma BswapReversesBytes(x: bv64)
    ensures forall k :: 0 <= k < 8 ==> ByteOf(Bswap64(x), k) == ByteOf(x, 7 - k)
  {
    var r := ((x & 0xff00000000000000) >> 56)
           | ((x & 0x00ff000000000000) >> 40)
           | ((x & 0x0000ff0000000000) >> 24)
           | ((x & 0x000000ff00000000) >> 8)
           | ((x & 0x00000000ff000000) << 8)
           | ((x & 0x0000000000ff0000) << 24)
           | ((x & 0x000000000000ff00) << 40)
           | ((x & 0x00000000000000ff) << 56);
    assert r == Bswap64(x);
    assert ByteOf(r, 0) == ByteOf(x, 7);
    assert ByteOf(r, 1) == ByteOf(x, 6);
    assert ByteOf(r, 2) == ByteOf(x, 5);
    assert ByteOf(r, 3) == ByteOf(x, 4);
    assert ByteOf(r, 4) == ByteOf(x, 3);
    assert ByteOf(r, 5) == ByteOf(x, 2);
    assert ByteOf(r, 6) == ByteOf(x, 1);
    assert ByteOf(r, 7) == ByteOf(x, 0);
  }

  lemma BswapInvolution(x: bv64)
    ensures Bswap64(Bswap64(x)) == x
  {
  }

  /** The eight bytes of x from the most significant down: network byte order. */
  function BigEndianBytes(x: bv64): (r: seq<byte>)
    ensures |r| == 8
  {
    seq(8, k requires 0 <= k < 8 => ByteOf(x, 7 - k))
  }

  /** The u64 whose network-order bytes are b. */
  function FromBigEndian(b: seq<byte>): bv64
    requires |b| == 8
  {
    (b[0] as bv64 << 56) | (b[1] as bv64 << 48) | (b[2] as bv64 << 40)
    | (b[3] as bv64 << 32) | (b[4] as bv64 << 24) | (b[5] as bv64 << 16)
    | (b[6] as bv64 << 8) | (b[7] as bv64)
  }

  /** Reading eight network-order bytes and writing them back gives the same bytes. */
  lemma FromBigEndianBytes(b: seq<byte>)
    requires |b| == 8
    ensures BigEndianBytes(FromBigEndian(b)) == b
  {
    var r := (b[0] as bv64 << 56) | (b[1] as bv64 << 48) | (b[2] as bv64 << 40)
           | (b[3] as bv64 << 32) | (b[4] as bv64 << 24) | (b[5] as bv64 << 16)
           | (b[6] as bv64 << 8) | (b[7] as bv64);
    assert r == FromBigEndian(b);
    forall k | 0 <= k < 8 ensures BigEndianBytes(r)[k] == b[k] {
      if k == 0 {} else if k == 1 {} else if k == 2 {} else if k == 3 {}
      else if k == 4 {} else if k == 5 {} else if k == 6 {} else {}
    }
  }

  lemma BigEndianRoundTrip(x: bv64)
    ensures FromBigEndian(BigEndianBytes(x)) == x
  {
    var y := FromBigEndian(BigEndianBytes(x));
    FromBigEndianBytes(BigEndianBytes(x));
    assert BigEndianBytes(y) == BigEndianBytes(x);
    forall k | 0 <= k < 8 ensures ByteOf(y, k) == ByteOf(x, k) {
      assert BigEndianBytes(y)[7 - k] == BigEndianBytes(x)[7 - k];
    }
    BytesDetermine(x, y);
  }

  /** A u64 is determined by its eight bytes. */
  lemma BytesDetermine(x: bv64, y: bv64)
    requires forall k :: 0 <= k < 8 ==> ByteOf(y, k) == ByteOf(x, k)
    ensures x == y
  {
    assert ByteOf(y, 0) == ByteOf(x, 0) && ByteOf(y, 1) == ByteOf(x, 1);
    assert ByteOf(y, 2) == ByteOf(x, 2) && ByteOf(y, 3) == ByteOf(x, 3);
    assert ByteOf(y, 4) == ByteOf(x, 4) && ByteOf(y, 5) == ByteOf(x, 5);
    assert ByteOf(y, 6) == ByteOf(x, 6) && ByteOf(y, 7) == ByteOf(x, 7);
  }

  /** The bytes of x as they lie in host memory, lowest address first. */
  function MemoryBytes(host: Endianness, x: bv64): (r: seq<byte>)
    ensures |r| == 8
  {
    match host
    case BigEndian => BigEndianBytes(x)
    case LittleEndian => seq(8, k requires 0 <= k < 8 => ByteOf(x, k))
  }

  /** Reading eight bytes of host memory as a u64 (the inverse of MemoryBytes). */
  function FromMemory(host: Endianness, m: seq<byte>): bv64
    requires |m| == 8
  {
    match host
    case BigEndian => FromBigEndian(m)
    case LittleEndian => FromBigEndian([m[7], m[6], m[5], m[4], m[3], m[2], m[1], m[0]])
  }

  /** Storing what was read from memory writes the same eight bytes back. */
  lemma MemoryOfFromMemory(host: Endianness, m: seq<byte>)
    requires |m| == 8
    ensures MemoryBytes(host, FromMemory(host, m)) == m
  {
    match host
    case BigEndian => FromBigEndianBytes(m);
    case LittleEndian =>
      var rev := [m[7], m[6], m[5], m[4], m[3], m[2], m[1], m[0]];
      var r := FromBigEndian(rev);
      FromBigEndianBytes(rev);
      forall k | 0 <= k < 8 ensures MemoryBytes(host, r)[k] == m[k] {
        assert BigEndianBytes(r)[7 - k] == rev[7 - k];
      }
  }

  /** htonll: to network byte order. */
  function Htonll(host: Endianness, x: bv64): bv64
  {
    match host
    case LittleEndian => Bswap64(x)
    case BigEndian => x
  }

  /** After htonll the value lies in memory most significant byte first. */
  lemma HtonllInMemory(host: Endianness, x: bv64)
    ensures MemoryBytes(host, Htonll(host, x)) == BigEndianBytes(x)
  {
    if host == LittleEndian {
      var r := Bswap64(x);
      BswapReversesBytes(x);
      assert forall k :: 0 <= k < 8 ==> MemoryBytes(host, r)[k] == BigEndianBytes(x)[k];
    }
  }

  /** ntohll: from network byte order. */
  function Ntohll(host: Endianness, x: bv64): bv64
  {
    match host
    case LittleEndian => Bswap64(x)
    case BigEndian => x
  }

  /** ntohll reads the value's memory bytes as network order. */
  lemma NtohllReadsNetworkOrder(host: Endianness, x: bv64)
    ensures Ntohll(host, x) == FromBigEndian(MemoryBytes(host, x))
  {
    var r := Ntohll(host, x);
    if host == LittleEndian {
      BswapReversesBytes(x);
      assert MemoryBytes(host, x) == BigEndianBytes(r) by {
        assert forall k :: 0 <= k < 8 ==> MemoryBytes(host, x)[k] == BigEndianBytes(r)[k];
      }
    }
    BigEndianRoundTrip(r);
  }

  /** On either host the two conversions undo each other. */
  lemma NtohllHtonll(host: Endianness, x: bv64)
    ensures Ntohll(host, Htonll(host, x)) == x
    ensures Htonll(host, Ntohll(host, x)) == x
  {
    if host == LittleEndian {
      BswapInvolution(x);
    }
  }

  /** The prefix loops read a big-endian length out of host memory. */
  lemma NtohllOfMemory(host: Endianness, m: seq<byte>)
    requires |m| == 8
    ensures Ntohll(host, FromMemory(host, m)) == FromBigEndian(m)
  {
    NtohllReadsNetworkOrder(host, FromMemory(host, m));
    MemoryOfFromMemory(host, m);
  }

  // ---------------------------------------------------------------------
  // The length as a number

  /** The number whose big-endian (network order) bytes are b. */
  function BigEndianValue(b: seq<byte>): nat
  {
    if b == [] then 0 else BigEndianValue(b[..|b| - 1]) * 256 + b[|b| - 1] as int
  }

  /** 256 to the n, for n up to 8. */
  function Radix(n: nat): nat
    requires n <= 8
  {
    match n
    case 0 => 1 case 1 => 0x100 case 2 => 0x1_0000 case 3 => 0x100_0000 case 4 => 0x1_0000_0000
    case 5 => 0x100_0000_0000 case 6 => 0x1_0000_0000_0000 case 7 => 0x100_0000_0000_0000
    case _ => 0x1_0000_0000_0000_0000
  }

  /** Shifting one byte into a u64 below 2^56 multiplies by 256 and adds the byte. */
  lemma ShiftIn(x: bv64, b: byte, n: nat)
    requires x as int < n <= 0x100_0000_0000_0000
    ensures ((x << 8) | b as bv64) as int == x as int * 256 + b as int
    ensures ((x << 8) | b as bv64) as int < n * 256
  {
  }

  /** Shifting in eight bytes, most significant first, builds the value FromBigEndian assembles. */
  lemma HornerBytes(b0: byte, b1: byte, b2: byte, b3: byte, b4: byte, b5: byte, b6: byte, b7: byte)
    ensures var x1 := (0 << 8) | b0 as bv64;
      var x2 := (x1 << 8) | b1 as bv64;
      var x3 := (x2 << 8) | b2 as bv64;
      var x4 := (x3 << 8) | b3 as bv64;
      var x5 := (x4 << 8) | b4 as bv64;
      var x6 := (x5 << 8) | b5 as bv64;
      var x7 := (x6 << 8) | b6 as bv64;
      (x7 << 8) | b7 as bv64
      == (b0 as bv64 << 56) | (b1 as bv64 << 48) | (b2 as bv64 << 40) | (b3 as bv64 << 32)
       | (b4 as bv64 << 24) | (b5 as bv64 << 16) | (b6 as bv64 << 8) | (b7 as bv64)
  {
  }

  /** The u64 built by shifting the bytes of b in, most significant first. */
  function ShiftedIn(b: seq<byte>): bv64
    requires |b| <= 8
  {
    if b == [] then 0 else (ShiftedIn(b[..|b| - 1]) << 8) | b[|b| - 1] as bv64
  }

  /** Shifting bytes in computes their big-endian value, which stays below 256^|b|. */
  lemma {:induction false} ShiftedInValue(b: seq<byte>)
    requires |b| <= 8
    ensures ShiftedIn(b) as int == BigEndianValue(b) < Radix(|b|)
  {
    if b != [] {
      var p := b[..|b| - 1];
      ShiftedInValue(p);
      RadixNext(|p|);
      ValueStep(ShiftedIn(p), ShiftedIn(b), b[|b| - 1], BigEndianValue(p), BigEndianValue(b),
        Radix(|p|), Radix(|b|));
    }
  }

  /** One step of ShiftedInValue, over plain values. */
  lemma ValueStep(x: bv64, y: bv64, d: byte, v: int, w: int, n: int, n': int)
    requires y == (x << 8) | d as bv64 && w == v * 256 + d as int
    requires x as int == v < n <= 0x100_0000_0000_0000 && n' == n * 256
    ensures y as int == w < n'
  {
    ShiftIn(x, d, n);
  }

  lemma RadixNext(n: nat)
    requires n < 8
    ensures Radix(n) * 256 == Radix(n + 1) <= 0x1_0000_0000_0000_0000
  {
  }

  /** One more byte shifted in. */
  lemma ShiftedInSnoc(b: seq<byte>, k: nat)
    requires k < |b| <= 8
    ensures ShiftedIn(b[..k + 1]) == (ShiftedIn(b[..k]) << 8) | b[k] as bv64
  {
    assert b[..k + 1][..k] == b[..k];
  }

  /** Shifting in all eight bytes assembles FromBigEndian. */
  lemma ShiftedInEight(b: seq<byte>)
    requires |b| == 8
    ensures ShiftedIn(b) == FromBigEndian(b)
  {
    assert b[..8] == b;
    assert b[..0] == [];
    ShiftedInSnoc(b, 0);
    ShiftedInSnoc(b, 1);
    ShiftedInSnoc(b, 2);
    ShiftedInSnoc(b, 3);
    ShiftedInSnoc(b, 4);
    ShiftedInSnoc(b, 5);
    ShiftedInSnoc(b, 6);
    ShiftedInSnoc(b, 7);
    HornerBytes(b[0], b[1], b[2], b[3], b[4], b[5], b[6], b[7]);
  }

  /** The u64 read from eight network-order bytes, as a number. */
  lemma FromBigEndianValue(b: seq<byte>)
    requires |b| == 8
    ensures FromBigEndian(b) as int == BigEndianValue(b)
  {
    ShiftedInEight(b);
    ShiftedInValue(b);
  }

  /**
   * ntohll of a u64 read from host memory is the big-endian value of its
   * memory bytes, on either host.
   */
  lemma NtohllValue(host: Endianness, m: seq<byte>)
    requires |m| == 8
    ensures Ntohll(host, FromMemory(host, m)) as int == BigEndianValue(m)
  {
    NtohllOfMemory(host, m);
    FromBigEndianValue(m);
  }
}
