/**
 * The decoder's bit reservoir (jpeg-load.c): the global g_reservoir and
 * g_nbits_in_reservoir together with the stream pointer they are filled
 * from. The reservoir is refilled a byte at a time; a 0xFF byte followed by
 * 0x00 contributes 0xFF and the stuffed 0x00 is skipped (section F.1.2.3 of
 * ITU-T T.81).
 *
 * The bits still to be read are the reservoir's nbits followed by the bits of
 * the destuffed remainder of the buffer: View() below. Every operation is
 * stated as what it does to that view.
 */
module BitReader {
  import opened Common
  import opened Bits

  /** The bytes a reader delivers from s, dropping the 0x00 stuffed after each 0xFF. */
  function Destuff(s: seq<byte>): (r: seq<byte>)
    ensures |r| <= |s|
    decreases |s|
  {
    if s == [] then []
    else if s[0] == 0xFF && |s| > 1 && s[1] == 0x00 then [0xFF] + Destuff(s[2..])
    else [s[0]] + Destuff(s[1..])
  }

  /** Where the reader stands after taking the byte at pos (and its stuffing, if any). */
  function NextPos(buf: seq<byte>, pos: nat): (next: nat)
    requires pos < |buf|
    ensures pos < next <= |buf|
  {
    if buf[pos] == 0xFF && pos + 1 < |buf| && buf[pos + 1] == 0x00 then pos + 2 else pos + 1
  }

  /** Taking one byte peels one byte off the destuffed remainder. */
  lemma DestuffStep(buf: seq<byte>, pos: nat)
    requires pos < |buf|
    ensures Destuff(buf[pos..]) == [buf[pos]] + Destuff(buf[NextPos(buf, pos)..])
  {
    var s := buf[pos..];
    assert s[0] == buf[pos];
    if buf[pos] == 0xFF && pos + 1 < |buf| && buf[pos + 1] == 0x00 {
      assert s[2..] == buf[pos + 2..];
    } else {
      assert s[1..] == buf[pos + 1..];
    }
  }

  /** Appending a byte below an n-bit register. */
  lemma ShiftInByte(r: nat, n: nat, c: byte)
    requires r < Pow2(n)
    ensures ToBits(Shl(r, 8) + c as nat, n + 8) == ToBits(r, n) + ToBits(c as nat, 8)
    ensures Shl(r, 8) + c as nat < Pow2(n + 8)
  {
    var x := Shl(r, 8) + c as nat;
    assert Pow2(8) == 256;
    ShrLowOf(x, 8, r, c as nat);
    ToBitsSplit(x, n, 8);
    ShlBound(r, n, c as nat, 8);
  }

  /** Loading a byte moves its bits from the head of the byte stream into the register. */
  lemma PrependByte(r: nat, n: nat, c: byte, rest: seq<byte>)
    requires r < Pow2(n)
    ensures ToBits(Shl(r, 8) + c as nat, n + 8) + BytesToBits(rest) == ToBits(r, n) + BytesToBits([c] + rest)
  {
    ShiftInByte(r, n, c);
    BytesToBitsAppend([c], rest);
    assert BytesToBits([c]) == ToBits(c as nat, 8);
  }

  /** Loading the byte at pos moves its bits from the buffer into the register. */
  lemma LoadByte(buf: seq<byte>, pos: nat, r: nat, n: nat)
    requires pos < |buf| && r < Pow2(n)
    ensures Shl(r, 8) + buf[pos] as nat < Pow2(n + 8)
    ensures ToBits(Shl(r, 8) + buf[pos] as nat, n + 8) + BytesToBits(Destuff(buf[NextPos(buf, pos)..]))
         == ToBits(r, n) + BytesToBits(Destuff(buf[pos..]))
  {
    DestuffStep(buf, pos);
    ShiftInByte(r, n, buf[pos]);
    PrependByte(r, n, buf[pos], Destuff(buf[NextPos(buf, pos)..]));
  }

  class Reservoir {
    /** The file buffer the scan lives in. */
    const buf: seq<byte>
    /** jdata->m_stream: index of the next byte to load. */
    var pos: nat
    /** g_reservoir: the loaded bits not yet consumed, in its low nbits bits. */
    var reservoir: nat
    /** g_nbits_in_reservoir */
    var nbits: nat

    /**
     * Requests never exceed 16 bits, so the reservoir holds at most 23 bits
     * and its 32-bit register never overflows.
     */
    ghost predicate Valid()
      reads this
    {
      pos <= |buf| && nbits <= 23 && reservoir < Pow2(nbits)
    }

    /** The bits still to be read, in order. */
    ghost function View(): seq<bool>
      reads this
      requires pos <= |buf|
    {
      ToBits(reservoir, nbits) + BytesToBits(Destuff(buf[pos..]))
    }

    /** JpegDecode's reset of the reservoir before the scan starting at start. */
    constructor (buf: seq<byte>, start: nat)
      requires start <= |buf|
      ensures Valid() && this.buf == buf
      ensures View() == BytesToBits(Destuff(buf[start..]))
    {
      this.buf := buf;
      pos := start;
      reservoir := 0;
      nbits := 0;
    }

    /**
     * FillNBits: load bytes until at least n bits are held. It fails exactly
     * when fewer than n bits are left in the buffer (the C code would read
     * past the end of the buffer).
     */
    method Fill(n: nat) returns (ok: bool)
      requires Valid() && n <= 16
      modifies this
      ensures Valid() && View() == old(View())
      ensures ok <==> n <= |View()|
      ensures ok ==> n <= nbits
    {
      while nbits < n
        invariant Valid() && View() == old(View())
        decreases n - nbits
      {
        if pos == |buf| {
          assert buf[pos..] == [];
          return false;
        }
        LoadOne();
      }
      return true;
    }

    /** One step of FillNBits: g_reservoir = (g_reservoir << 8) | the next destuffed byte. */
    method LoadOne()
      requires Valid() && pos < |buf| && nbits <= 15
      modifies this
      ensures Valid() && View() == old(View())
      ensures nbits == old(nbits) + 8
    {
      var c := buf[pos];
      LoadByte(buf, pos, reservoir, nbits);
      pos := NextPos(buf, pos);
      reservoir := Shl(reservoir, 8) + c as nat;
      nbits := nbits + 8;
    }

    /** shift_bits: drop the first n held bits. */
    method Shift(n: nat)
      requires Valid() && n <= nbits
      modifies this
      ensures Valid() && View() == old(View())[n..]
      ensures pos == old(pos) && nbits == old(nbits) - n
    {
      ToBitsSplit(reservoir, n, nbits - n);
      assert n + (nbits - n) == nbits;
      nbits := nbits - n;
      reservoir := Low(reservoir, nbits);
    }

    /** LookNBits: the next n bits as a number, without consuming them. */
    method Look(n: nat) returns (ok: bool, v: nat)
      requires Valid() && 1 <= n <= 16
      modifies this
      ensures Valid() && View() == old(View())
      ensures ok <==> n <= |View()|
      ensures ok ==> v == FromBits(View()[..n])
    {
      ok := Fill(n);
      if ok {
        v := Shr(reservoir, nbits - n);
        TopBits(reservoir, nbits, n);
        assert View()[..n] == ToBits(reservoir, nbits)[..n];
      } else {
        v := 0;
      }
    }

    /** GetNBits: the next n bits as a number, consumed. */
    method Get(n: nat) returns (ok: bool, v: nat)
      requires Valid() && n <= 15
      modifies this
      ensures Valid()
      ensures ok <==> n <= |old(View())|
      ensures ok ==> v == FromBits(old(View())[..n]) && View() == old(View())[n..]
      ensures ok ==> v < Pow2(n)
    {
      ok := Fill(n);
      if ok {
        v := Shr(reservoir, nbits - n);
        TopBits(reservoir, nbits, n);
        assert View()[..n] == ToBits(reservoir, nbits)[..n];
        FromBitsBound(View()[..n]);
        Shift(n);
      } else {
        v := 0;
      }
    }

    /** SkipNBits: consume the next n bits. */
    method Skip(n: nat) returns (ok: bool)
      requires Valid() && n <= 16
      modifies this
      ensures Valid()
      ensures ok <==> n <= |old(View())|
      ensures ok ==> View() == old(View())[n..]
    {
      ok := Fill(n);
      if ok {
        Shift(n);
      }
    }
  }
}
