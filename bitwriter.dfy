/**
 * The encoder's bit writer (jpeg-save.c): the globals bytenew and bytepos
 * and the output file. writebits puts the bits of a code into bytenew from
 * its most significant bit down; each completed byte is written, and a
 * completed 0xFF is followed by a stuffed 0x00 (section B.1.1.5 of
 * ITU-T T.81), which the decoder's reservoir drops again (DestuffStuff).
 *
 * The file is a sequence of bytes that only grows. While a run of bits is
 * being written the file is the bytes written before the run, followed by
 * the stuffed bytes the run has completed; the bits not yet completed sit in
 * bytenew. Sent() is every bit of the run so far.
 */
module BitWriter {
  import opened Common
  import opened Bits
  import opened Coding
  import opened BitReader

  /** What writebits emits for one completed byte. */
  function StuffByte(b: byte): (r: seq<byte>)
  {
    if b == 0xFF then [0xFF, 0x00] else [b]
  }

  /** The bytes written for a run of completed bytes. */
  function Stuff(s: seq<byte>): (r: seq<byte>)
  {
    if s == [] then [] else StuffByte(s[0]) + Stuff(s[1..])
  }

  lemma {:induction false} StuffAppend(a: seq<byte>, b: byte)
    ensures Stuff(a + [b]) == Stuff(a) + StuffByte(b)
  {
    if a == [] {
      assert a + [b] == [b];
    } else {
      assert (a + [b])[1..] == a[1..] + [b];
      StuffAppend(a[1..], b);
    }
  }

  /** The reader's destuffing undoes the writer's stuffing, whatever follows. */
  lemma {:induction false} DestuffStuff(a: seq<byte>, rest: seq<byte>)
    ensures Destuff(Stuff(a) + rest) == a + Destuff(rest)
  {
    if a == [] {
      assert Stuff(a) + rest == rest;
    } else {
      var t := Stuff(a[1..]) + rest;
      assert Stuff(a) + rest == StuffByte(a[0]) + t;
      DestuffOne(a[0], t);
      DestuffStuff(a[1..], rest);
      var d := Destuff(rest);
      assert a == [a[0]] + a[1..];
      BytesAssoc([a[0]], a[1..], d);
    }
  }

  lemma BytesAssoc(a: seq<byte>, b: seq<byte>, c: seq<byte>)
    ensures a + (b + c) == (a + b) + c
  {
  }

  /** The reader takes one stuffed byte back off the front. */
  lemma DestuffOne(x: byte, t: seq<byte>)
    ensures Destuff(StuffByte(x) + t) == [x] + Destuff(t)
  {
    var s := StuffByte(x) + t;
    if x == 0xFF {
      assert s[0] == 0xFF && s[1] == 0x00 && s[2..] == t;
    } else {
      assert s[0] == x && s[1..] == t;
    }
  }

  /** Stuffed data never holds a marker: every 0xFF is followed by 0x00. */
  lemma {:induction false} StuffHasNoMarker(a: seq<byte>, i: nat)
    requires i < |Stuff(a)| && Stuff(a)[i] == 0xFF
    ensures i + 1 < |Stuff(a)| && Stuff(a)[i + 1] == 0x00
  {
    var h := StuffByte(a[0]);
    assert Stuff(a) == h + Stuff(a[1..]);
    if i >= |h| {
      StuffHasNoMarker(a[1..], i - |h|);
    }
  }

  /** Bit k of v, the test writebits makes with mask[k]. */
  function TestBit(v: nat, k: nat): bool
  {
    Shr(v, k) % 2 == 1
  }

  /** The bits of v, most significant first, are its bits n-1 down to 0. */
  lemma {:induction false} ToBitsAt(v: nat, n: nat, i: nat)
    requires i < n
    ensures ToBits(v, n)[i] == TestBit(v, n - 1 - i)
  {
    if i < n - 1 {
      ToBitsAt(v / 2, n - 1, i);
      ShrHalf(v, n - 2 - i);
    }
  }

  lemma ShrHalf(v: nat, k: nat)
    ensures Shr(v, k + 1) == Shr(v / 2, k)
  {
  }

  lemma {:induction false} ShlAdd(a: nat, b: nat, n: nat)
    ensures Shl(a + b, n) == Shl(a, n) + Shl(b, n)
  {
    if n > 0 {
      ShlAdd(a, b, n - 1);
    }
  }

  /** Setting bit pos of bytenew appends one bit to the pending ones. */
  lemma PendingGrows(p: seq<bool>, b: bool, pos: nat)
    ensures Shl(FromBits(p), pos + 1) + (if b then Shl(1, pos) else 0) == Shl(FromBits(p + [b]), pos)
  {
    var e := if b then 1 else 0;
    assert (p + [b])[..|p + [b]| - 1] == p;
    assert FromBits(p + [b]) == 2 * FromBits(p) + e;
    ShlAdd(2 * FromBits(p), e, pos);
    ShlDouble(FromBits(p), pos);
  }

  /** The eighth pending bit completes a byte, written as its stuffed bytes. */
  lemma CompleteStep(packed: seq<byte>, p: seq<bool>, b: bool, nb: nat)
    requires |p| == 7 && nb == Shl(FromBits(p + [b]), 0)
    ensures nb < 256
    ensures BytesToBits(packed + [nb as byte]) == BytesToBits(packed) + p + [b]
    ensures Stuff(packed + [nb as byte]) == Stuff(packed) + StuffByte(nb as byte)
  {
    ByteBound(p + [b]);
    ByteRoundTrip(nb);
    CompleteByte(packed, p + [b], nb as byte);
    StuffAppend(packed, nb as byte);
  }

  /** Eight pending bits make one byte. */
  lemma CompleteByte(packed: seq<byte>, p: seq<bool>, c: byte)
    requires |p| == 8 && c as nat == FromBits(p)
    ensures BytesToBits(packed + [c]) == BytesToBits(packed) + p
  {
    BytesToBitsAppend(packed, [c]);
    OneByte(c);
    ToFromBits(p);
  }

  lemma ByteBound(p: seq<bool>)
    requires |p| == 8
    ensures FromBits(p) < 256
  {
    FromBitsBound(p);
    Pow2Values();
  }

  lemma OneByte(c: byte)
    ensures BytesToBits([c]) == ToBits(c as nat, 8)
  {
  }

  /** The fill bits of the EOI alignment: (1 << n) - 1 in n bits is n ones. */
  lemma {:induction false} OnesBits(n: nat)
    ensures Shl(1, n) >= 1
    ensures ToBits(Shl(1, n) - 1, n) == seq(n, _ => true)
  {
    ShlIsMul(1, n);
    if n > 0 {
      OnesBits(n - 1);
      ShlIsMul(1, n - 1);
      assert (Shl(1, n) - 1) / 2 == Shl(1, n - 1) - 1;
      assert (Shl(1, n) - 1) % 2 == 1;
    }
  }

  /**
   * bytepos says how many bits are pending (7 - bytepos), bytenew holds them in
   * its top bits, and the file is what came before the run followed by the
   * run's completed bytes, stuffed.
   */
  ghost predicate Consistent(out: seq<byte>, bytenew: nat, bytepos: int, head: seq<byte>, packed: seq<byte>, pending: seq<bool>)
  {
    && 0 <= bytepos <= 7
    && |pending| == 7 - bytepos
    && bytenew == Shl(FromBits(pending), bytepos + 1)
    && out == head + Stuff(packed)
  }

  /** The bit that completes bytenew: the byte is written, stuffed, and a new byte begins. */
  lemma CompletingBit(out: seq<byte>, bytenew: nat, head: seq<byte>, packed: seq<byte>, pending: seq<bool>, b: bool, nb: nat)
    requires Consistent(out, bytenew, 0, head, packed, pending)
    requires nb == bytenew + (if b then 1 else 0)
    ensures nb < 256
    ensures Consistent(out + StuffByte(nb as byte), 0, 7, head, packed + [nb as byte], [])
    ensures BytesToBits(packed + [nb as byte]) + [] == BytesToBits(packed) + pending + [b]
  {
    PendingGrows(pending, b, 0);
    CompleteStep(packed, pending, b, nb);
  }

  /** Any other bit goes into bytenew at bytepos. */
  lemma PendingBit(out: seq<byte>, bytenew: nat, bytepos: int, head: seq<byte>, packed: seq<byte>, pending: seq<bool>, b: bool, nb: nat)
    requires Consistent(out, bytenew, bytepos, head, packed, pending) && bytepos > 0
    requires nb == bytenew + (if b then Shl(1, bytepos) else 0)
    ensures Consistent(out, nb, bytepos - 1, head, packed, pending + [b])
    ensures BytesToBits(packed) + (pending + [b]) == BytesToBits(packed) + pending + [b]
  {
    PendingGrows(pending, b, bytepos);
  }

  lemma BoolsAssoc(a: seq<bool>, b: seq<bool>, c: seq<bool>)
    ensures (a + b) + c == a + (b + c)
  {
  }

  class Writer {
    /** The output file: every byte written so far. */
    var out: seq<byte>
    /** bytenew: the byte being assembled. */
    var bytenew: nat
    /** bytepos: the bit of bytenew the next bit goes to, 7 down to 0. */
    var bytepos: int
    /** The bytes of the file written before the current run of bits. */
    ghost var head: seq<byte>
    /** The bytes the run has completed, before stuffing. */
    ghost var packed: seq<byte>
    /** The bits of the run held in bytenew. */
    ghost var pending: seq<bool>

    ghost predicate Valid()
      reads this
    {
      Consistent(out, bytenew, bytepos, head, packed, pending)
    }

    /** Every bit of the current run, in the order written. */
    ghost function Sent(): seq<bool>
      reads this
    {
      BytesToBits(packed) + pending
    }

    /** An empty file, with bytenew = 0 and bytepos = 7 as the statics start. */
    constructor ()
      ensures Valid() && out == [] && head == [] && Sent() == []
    {
      out := [];
      bytenew := 0;
      bytepos := 7;
      head := [];
      packed := [];
      pending := [];
    }

    /** writebyte: one byte straight to the file. */
    method WriteByte(b: byte)
      modifies this
      ensures out == old(out) + [b]
      ensures bytenew == old(bytenew) && bytepos == old(bytepos)
    {
      out := out + [b];
    }

    /** writeword: a 16-bit word, high byte first. */
    method WriteWord(w: nat)
      requires w < 65536
      modifies this
      ensures out == old(out) + Word(w)
      ensures bytenew == old(bytenew) && bytepos == old(bytepos)
    {
      WriteByte((w / 256) as byte);
      WriteByte((w % 256) as byte);
    }

    /** jpeg_encode_data's bytenew = 0, bytepos = 7 before the scan: a new run starts here. */
    method StartRun()
      modifies this
      ensures Valid() && out == old(out) && head == out && Sent() == []
    {
      bytenew := 0;
      bytepos := 7;
      head := out;
      packed := [];
      pending := [];
    }

    /**
     * writebits: the length low bits of value, most significant first. The
     * code is at most 16 bits long (mask has 16 entries).
     */
    method WriteBits(bs: Bitstring)
      requires Valid() && bs.length <= 16
      modifies this
      ensures Valid() && head == old(head)
      ensures Sent() == old(Sent()) + ToBits(bs.value, bs.length)
    {
      ghost var sent := Sent();
      ghost var code := ToBits(bs.value, bs.length);
      var posval: int := bs.length as int - 1;
      while posval >= 0
        invariant -1 <= posval < bs.length
        invariant Valid() && head == old(head)
        invariant Sent() == sent + code[..bs.length - 1 - posval]
      {
        ghost var i := bs.length - 1 - posval;
        ToBitsAt(bs.value, bs.length, i);
        var b := TestBit(bs.value, posval);
        assert code[..i + 1] == code[..i] + [b];
        PutBit(b);
        BoolsAssoc(sent, code[..i], [b]);
        posval := posval - 1;
      }
      assert code[..bs.length] == code;
    }

    /** One pass of writebits' loop: bytenew |= mask[bytepos], then bytepos--, emitting a full byte. */
    method PutBit(b: bool)
      requires Valid()
      modifies this
      ensures Valid() && head == old(head)
      ensures Sent() == old(Sent()) + [b]
    {
      var nb := bytenew;
      if b {
        nb := nb + Shl(1, bytepos);
      }
      if bytepos == 0 {
        CompletingBit(out, bytenew, head, packed, pending, b, nb);
        var c := nb as byte;
        var o := out + [c];
        if c == 0xFF {
          o := o + [0x00];
        }
        assert o == out + StuffByte(c);
        out, packed, pending, bytepos, bytenew := o, packed + [c], [], 7, 0;
      } else {
        PendingBit(out, bytenew, bytepos, head, packed, pending, b, nb);
        pending, bytepos, bytenew := pending + [b], bytepos - 1, nb;
      }
    }

    /**
     * The EOI alignment of jpeg_encode_data: bytepos + 1 one bits, value
     * (1 << (bytepos + 1)) - 1. It completes the last byte, and when the run
     * is already byte-aligned it writes a whole 0xFF byte (stuffed as FF 00).
     */
    method Align()
      requires Valid()
      modifies this
      ensures Valid() && head == old(head) && bytepos == 7 && pending == []
      ensures Sent() == old(Sent()) + seq(old(bytepos) + 1, _ => true)
      ensures Sent() == BytesToBits(packed)
    {
      OnesBits(bytepos + 1);
      var fillbits := Bitstring(bytepos + 1, Shl(1, bytepos + 1) - 1);
      WriteBits(fillbits);
      assert |Sent()| == 8 * |old(packed)| + 8;
      Mod8Tail(|old(packed)|, |packed|, |pending|);
    }
  }

  /** A whole number of bytes of bits, eight at a time, most significant bit first. */
  function Pack(b: seq<bool>): (r: seq<byte>)
    requires |b| % 8 == 0
    ensures |r| == |b| / 8
  {
    if b == [] then []
    else
      FromBitsBound(b[..8]);
      [FromBits(b[..8]) as byte] + Pack(b[8..])
  }

  /** The completed bytes of a run are the run's bits packed. */
  lemma {:induction false} PackBytes(p: seq<byte>)
    ensures Pack(BytesToBits(p)) == p
  {
    if p != [] {
      var b := BytesToBits(p);
      assert b[..8] == ToBits(p[0] as nat, 8) && b[8..] == BytesToBits(p[1..]);
      FromToBits(p[0] as nat, 8);
      LowSmall(p[0] as nat, 8);
      PackBytes(p[1..]);
    }
  }

  /** When a whole number of bytes has been written, no bit is pending. */
  lemma Mod8Tail(x: nat, y: nat, z: nat)
    requires z < 8 && 8 * y + z == 8 * x + 8
    ensures z == 0
  {
  }
}
