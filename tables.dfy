/**
 * The encoder's constant tables: the sample quantisation tables of Annex
 * K.1 of ITU-T T.81 and the standard Huffman tables of Annex K.3 (the
 * histograms and symbol lists jpeg-save.c writes into its DHT segment).
 *
 * Long tables are functions of the index, laid out in rows of eight (or
 * sixteen) entries, collected into sequences. The facts proved about them
 * are the ones the codec relies on: every K.1 entry is below 150, and
 * every K.3 table is a Kraft-valid histogram whose symbols are distinct
 * and, for the AC tables, cover every run/size symbol the encoder can name.
 */
module Tables {
  import opened Common
  import opened Coding
  import opened Huffman

  // ---------------------------------------------------------------------
  // Annex K.1 quantisation tables

  /** std_luminance_qt, in natural (row-major) order. */
  function StdLuminanceQtAt(i: int): int
  {
    match i / 8
      case 0 => match i % 8 { case 0 => 16 case 1 => 11 case 2 => 10 case 3 => 16 case 4 => 24 case 5 => 40 case 6 => 51 case _ => 61 }
      case 1 => match i % 8 { case 0 => 12 case 1 => 12 case 2 => 14 case 3 => 19 case 4 => 26 case 5 => 58 case 6 => 60 case _ => 55 }
      case 2 => match i % 8 { case 0 => 14 case 1 => 13 case 2 => 16 case 3 => 24 case 4 => 40 case 5 => 57 case 6 => 69 case _ => 56 }
      case 3 => match i % 8 { case 0 => 14 case 1 => 17 case 2 => 22 case 3 => 29 case 4 => 51 case 5 => 87 case 6 => 80 case _ => 62 }
      case 4 => match i % 8 { case 0 => 18 case 1 => 22 case 2 => 37 case 3 => 56 case 4 => 68 case 5 => 109 case 6 => 103 case _ => 77 }
      case 5 => match i % 8 { case 0 => 24 case 1 => 35 case 2 => 55 case 3 => 64 case 4 => 81 case 5 => 104 case 6 => 113 case _ => 92 }
      case 6 => match i % 8 { case 0 => 49 case 1 => 64 case 2 => 78 case 3 => 87 case 4 => 103 case 5 => 121 case 6 => 120 case _ => 101 }
      case _ => match i % 8 { case 0 => 72 case 1 => 92 case 2 => 95 case 3 => 98 case 4 => 112 case 5 => 100 case 6 => 103 case _ => 99 }
  }

  function StdLuminanceQt(): seq<int> { seq(64, StdLuminanceQtAt) }

  /** std_chrominance_qt, in natural (row-major) order. */
  function StdChrominanceQtAt(i: int): int
  {
    match i / 8
      case 0 => match i % 8 { case 0 => 17 case 1 => 18 case 2 => 24 case 3 => 47 case 4 => 99 case 5 => 99 case 6 => 99 case _ => 99 }
      case 1 => match i % 8 { case 0 => 18 case 1 => 21 case 2 => 26 case 3 => 66 case 4 => 99 case 5 => 99 case 6 => 99 case _ => 99 }
      case 2 => match i % 8 { case 0 => 24 case 1 => 26 case 2 => 56 case 3 => 99 case 4 => 99 case 5 => 99 case 6 => 99 case _ => 99 }
      case 3 => match i % 8 { case 0 => 47 case 1 => 66 case 2 => 99 case 3 => 99 case 4 => 99 case 5 => 99 case 6 => 99 case _ => 99 }
      case 4 => match i % 8 { case 0 => 99 case 1 => 99 case 2 => 99 case 3 => 99 case 4 => 99 case 5 => 99 case 6 => 99 case _ => 99 }
      case 5 => match i % 8 { case 0 => 99 case 1 => 99 case 2 => 99 case 3 => 99 case 4 => 99 case 5 => 99 case 6 => 99 case _ => 99 }
      case 6 => match i % 8 { case 0 => 99 case 1 => 99 case 2 => 99 case 3 => 99 case 4 => 99 case 5 => 99 case 6 => 99 case _ => 99 }
      case _ => match i % 8 { case 0 => 99 case 1 => 99 case 2 => 99 case 3 => 99 case 4 => 99 case 5 => 99 case 6 => 99 case _ => 99 }
  }

  function StdChrominanceQt(): seq<int> { seq(64, StdChrominanceQtAt) }

  /** Every K.1 entry lies in 1..149. */
  lemma StdQuantBounds()
    ensures |StdLuminanceQt()| == 64 && |StdChrominanceQt()| == 64
    ensures forall i :: 0 <= i < 64 ==> 1 <= StdLuminanceQt()[i] < 150 && 1 <= StdChrominanceQt()[i] < 150
  {
  }

  // ---------------------------------------------------------------------
  // Annex K.3 Huffman tables

  /** std_dc_luminance_nrcodes: how many codes have length i (index 0 unused). */
  function DcLuminanceBitsAt(i: int): int
  {
    match i
      case 0 => 0 case 1 => 0 case 2 => 1 case 3 => 5 case 4 => 1 case 5 => 1 case 6 => 1 case 7 => 1 case 8 => 1 case 9 => 1 case 10 => 0 case 11 => 0 case 12 => 0 case 13 => 0 case 14 => 0 case 15 => 0
      case _ => 0
  }

  function DcLuminanceBits(): seq<int> { seq(17, DcLuminanceBitsAt) }

  /** std_dc_chrominance_nrcodes: how many codes have length i (index 0 unused). */
  function DcChrominanceBitsAt(i: int): int
  {
    match i
      case 0 => 0 case 1 => 0 case 2 => 3 case 3 => 1 case 4 => 1 case 5 => 1 case 6 => 1 case 7 => 1 case 8 => 1 case 9 => 1 case 10 => 1 case 11 => 1 case 12 => 0 case 13 => 0 case 14 => 0 case 15 => 0
      case _ => 0
  }

  function DcChrominanceBits(): seq<int> { seq(17, DcChrominanceBitsAt) }

  /** std_ac_luminance_nrcodes: how many codes have length i (index 0 unused). */
  function AcLuminanceBitsAt(i: int): int
  {
    match i
      case 0 => 0x00 case 1 => 0x00 case 2 => 0x02 case 3 => 0x01 case 4 => 0x03 case 5 => 0x03 case 6 => 0x02 case 7 => 0x04 case 8 => 0x03 case 9 => 0x05 case 10 => 0x05 case 11 => 0x04 case 12 => 0x04 case 13 => 0x00 case 14 => 0x00 case 15 => 0x01
      case _ => 0x7D
  }

  function AcLuminanceBits(): seq<int> { seq(17, AcLuminanceBitsAt) }

  /** std_ac_chrominance_nrcodes: how many codes have length i (index 0 unused). */
  function AcChrominanceBitsAt(i: int): int
  {
    match i
      case 0 => 0x00 case 1 => 0x00 case 2 => 0x02 case 3 => 0x01 case 4 => 0x02 case 5 => 0x04 case 6 => 0x04 case 7 => 0x03 case 8 => 0x04 case 9 => 0x07 case 10 => 0x05 case 11 => 0x04 case 12 => 0x04 case 13 => 0x00 case 14 => 0x01 case 15 => 0x02
      case _ => 0x77
  }

  function AcChrominanceBits(): seq<int> { seq(17, AcChrominanceBitsAt) }

  /** std_dc_luminance_values and std_dc_chrominance_values: the categories 0..11 in order. */
  function DcValues(): seq<int> { seq(12, i => i) }

  /** std_ac_luminance_values */
  function AcLuminanceValueAt(i: int): int
  {
    match i / 8
      case 0 => match i % 8 { case 0 => 0x01 case 1 => 0x02 case 2 => 0x03 case 3 => 0x00 case 4 => 0x04 case 5 => 0x11 case 6 => 0x05 case _ => 0x12 }
      case 1 => match i % 8 { case 0 => 0x21 case 1 => 0x31 case 2 => 0x41 case 3 => 0x06 case 4 => 0x13 case 5 => 0x51 case 6 => 0x61 case _ => 0x07 }
      case 2 => match i % 8 { case 0 => 0x22 case 1 => 0x71 case 2 => 0x14 case 3 => 0x32 case 4 => 0x81 case 5 => 0x91 case 6 => 0xA1 case _ => 0x08 }
      case 3 => match i % 8 { case 0 => 0x23 case 1 => 0x42 case 2 => 0xB1 case 3 => 0xC1 case 4 => 0x15 case 5 => 0x52 case 6 => 0xD1 case _ => 0xF0 }
      case 4 => match i % 8 { case 0 => 0x24 case 1 => 0x33 case 2 => 0x62 case 3 => 0x72 case 4 => 0x82 case 5 => 0x09 case 6 => 0x0A case _ => 0x16 }
      case 5 => match i % 8 { case 0 => 0x17 case 1 => 0x18 case 2 => 0x19 case 3 => 0x1A case 4 => 0x25 case 5 => 0x26 case 6 => 0x27 case _ => 0x28 }
      case 6 => match i % 8 { case 0 => 0x29 case 1 => 0x2A case 2 => 0x34 case 3 => 0x35 case 4 => 0x36 case 5 => 0x37 case 6 => 0x38 case _ => 0x39 }
      case 7 => match i % 8 { case 0 => 0x3A case 1 => 0x43 case 2 => 0x44 case 3 => 0x45 case 4 => 0x46 case 5 => 0x47 case 6 => 0x48 case _ => 0x49 }
      case 8 => match i % 8 { case 0 => 0x4A case 1 => 0x53 case 2 => 0x54 case 3 => 0x55 case 4 => 0x56 case 5 => 0x57 case 6 => 0x58 case _ => 0x59 }
      case 9 => match i % 8 { case 0 => 0x5A case 1 => 0x63 case 2 => 0x64 case 3 => 0x65 case 4 => 0x66 case 5 => 0x67 case 6 => 0x68 case _ => 0x69 }
      case 10 => match i % 8 { case 0 => 0x6A case 1 => 0x73 case 2 => 0x74 case 3 => 0x75 case 4 => 0x76 case 5 => 0x77 case 6 => 0x78 case _ => 0x79 }
      case 11 => match i % 8 { case 0 => 0x7A case 1 => 0x83 case 2 => 0x84 case 3 => 0x85 case 4 => 0x86 case 5 => 0x87 case 6 => 0x88 case _ => 0x89 }
      case 12 => match i % 8 { case 0 => 0x8A case 1 => 0x92 case 2 => 0x93 case 3 => 0x94 case 4 => 0x95 case 5 => 0x96 case 6 => 0x97 case _ => 0x98 }
      case 13 => match i % 8 { case 0 => 0x99 case 1 => 0x9A case 2 => 0xA2 case 3 => 0xA3 case 4 => 0xA4 case 5 => 0xA5 case 6 => 0xA6 case _ => 0xA7 }
      case 14 => match i % 8 { case 0 => 0xA8 case 1 => 0xA9 case 2 => 0xAA case 3 => 0xB2 case 4 => 0xB3 case 5 => 0xB4 case 6 => 0xB5 case _ => 0xB6 }
      case 15 => match i % 8 { case 0 => 0xB7 case 1 => 0xB8 case 2 => 0xB9 case 3 => 0xBA case 4 => 0xC2 case 5 => 0xC3 case 6 => 0xC4 case _ => 0xC5 }
      case 16 => match i % 8 { case 0 => 0xC6 case 1 => 0xC7 case 2 => 0xC8 case 3 => 0xC9 case 4 => 0xCA case 5 => 0xD2 case 6 => 0xD3 case _ => 0xD4 }
      case 17 => match i % 8 { case 0 => 0xD5 case 1 => 0xD6 case 2 => 0xD7 case 3 => 0xD8 case 4 => 0xD9 case 5 => 0xDA case 6 => 0xE1 case _ => 0xE2 }
      case 18 => match i % 8 { case 0 => 0xE3 case 1 => 0xE4 case 2 => 0xE5 case 3 => 0xE6 case 4 => 0xE7 case 5 => 0xE8 case 6 => 0xE9 case _ => 0xEA }
      case 19 => match i % 8 { case 0 => 0xF1 case 1 => 0xF2 case 2 => 0xF3 case 3 => 0xF4 case 4 => 0xF5 case 5 => 0xF6 case 6 => 0xF7 case _ => 0xF8 }
      case _ => match i % 8 { case 0 => 0xF9 case _ => 0xFA }
  }

  function AcLuminanceValues(): seq<int> { seq(162, AcLuminanceValueAt) }

  /** std_ac_chrominance_values */
  function AcChrominanceValueAt(i: int): int
  {
    match i / 8
      case 0 => match i % 8 { case 0 => 0x00 case 1 => 0x01 case 2 => 0x02 case 3 => 0x03 case 4 => 0x11 case 5 => 0x04 case 6 => 0x05 case _ => 0x21 }
      case 1 => match i % 8 { case 0 => 0x31 case 1 => 0x06 case 2 => 0x12 case 3 => 0x41 case 4 => 0x51 case 5 => 0x07 case 6 => 0x61 case _ => 0x71 }
      case 2 => match i % 8 { case 0 => 0x13 case 1 => 0x22 case 2 => 0x32 case 3 => 0x81 case 4 => 0x08 case 5 => 0x14 case 6 => 0x42 case _ => 0x91 }
      case 3 => match i % 8 { case 0 => 0xA1 case 1 => 0xB1 case 2 => 0xC1 case 3 => 0x09 case 4 => 0x23 case 5 => 0x33 case 6 => 0x52 case _ => 0xF0 }
      case 4 => match i % 8 { case 0 => 0x15 case 1 => 0x62 case 2 => 0x72 case 3 => 0xD1 case 4 => 0x0A case 5 => 0x16 case 6 => 0x24 case _ => 0x34 }
      case 5 => match i % 8 { case 0 => 0xE1 case 1 => 0x25 case 2 => 0xF1 case 3 => 0x17 case 4 => 0x18 case 5 => 0x19 case 6 => 0x1A case _ => 0x26 }
      case 6 => match i % 8 { case 0 => 0x27 case 1 => 0x28 case 2 => 0x29 case 3 => 0x2A case 4 => 0x35 case 5 => 0x36 case 6 => 0x37 case _ => 0x38 }
      case 7 => match i % 8 { case 0 => 0x39 case 1 => 0x3A case 2 => 0x43 case 3 => 0x44 case 4 => 0x45 case 5 => 0x46 case 6 => 0x47 case _ => 0x48 }
      case 8 => match i % 8 { case 0 => 0x49 case 1 => 0x4A case 2 => 0x53 case 3 => 0x54 case 4 => 0x55 case 5 => 0x56 case 6 => 0x57 case _ => 0x58 }
      case 9 => match i % 8 { case 0 => 0x59 case 1 => 0x5A case 2 => 0x63 case 3 => 0x64 case 4 => 0x65 case 5 => 0x66 case 6 => 0x67 case _ => 0x68 }
      case 10 => match i % 8 { case 0 => 0x69 case 1 => 0x6A case 2 => 0x73 case 3 => 0x74 case 4 => 0x75 case 5 => 0x76 case 6 => 0x77 case _ => 0x78 }
      case 11 => match i % 8 { case 0 => 0x79 case 1 => 0x7A case 2 => 0x82 case 3 => 0x83 case 4 => 0x84 case 5 => 0x85 case 6 => 0x86 case _ => 0x87 }
      case 12 => match i % 8 { case 0 => 0x88 case 1 => 0x89 case 2 => 0x8A case 3 => 0x92 case 4 => 0x93 case 5 => 0x94 case 6 => 0x95 case _ => 0x96 }
      case 13 => match i % 8 { case 0 => 0x97 case 1 => 0x98 case 2 => 0x99 case 3 => 0x9A case 4 => 0xA2 case 5 => 0xA3 case 6 => 0xA4 case _ => 0xA5 }
      case 14 => match i % 8 { case 0 => 0xA6 case 1 => 0xA7 case 2 => 0xA8 case 3 => 0xA9 case 4 => 0xAA case 5 => 0xB2 case 6 => 0xB3 case _ => 0xB4 }
      case 15 => match i % 8 { case 0 => 0xB5 case 1 => 0xB6 case 2 => 0xB7 case 3 => 0xB8 case 4 => 0xB9 case 5 => 0xBA case 6 => 0xC2 case _ => 0xC3 }
      case 16 => match i % 8 { case 0 => 0xC4 case 1 => 0xC5 case 2 => 0xC6 case 3 => 0xC7 case 4 => 0xC8 case 5 => 0xC9 case 6 => 0xCA case _ => 0xD2 }
      case 17 => match i % 8 { case 0 => 0xD3 case 1 => 0xD4 case 2 => 0xD5 case 3 => 0xD6 case 4 => 0xD7 case 5 => 0xD8 case 6 => 0xD9 case _ => 0xDA }
      case 18 => match i % 8 { case 0 => 0xE2 case 1 => 0xE3 case 2 => 0xE4 case 3 => 0xE5 case 4 => 0xE6 case 5 => 0xE7 case 6 => 0xE8 case _ => 0xE9 }
      case 19 => match i % 8 { case 0 => 0xEA case 1 => 0xF2 case 2 => 0xF3 case 3 => 0xF4 case 4 => 0xF5 case 5 => 0xF6 case 6 => 0xF7 case _ => 0xF8 }
      case _ => match i % 8 { case 0 => 0xF9 case _ => 0xFA }
  }

  function AcChrominanceValues(): seq<int> { seq(162, AcChrominanceValueAt) }

  /** The position of symbol i (run i / 16, size i % 16) in std_ac_luminance_values, 162 when absent. */
  function AcLuminanceRank(i: int): int
  {
    match i / 16
      case 0 => match i % 16 { case 0 => 3 case 1 => 0 case 2 => 1 case 3 => 2 case 4 => 4 case 5 => 6 case 6 => 11 case 7 => 15 case 8 => 23 case 9 => 37 case 10 => 38 case 11 => 162 case 12 => 162 case 13 => 162 case 14 => 162 case _ => 162 }
      case 1 => match i % 16 { case 0 => 162 case 1 => 5 case 2 => 7 case 3 => 12 case 4 => 18 case 5 => 28 case 6 => 39 case 7 => 40 case 8 => 41 case 9 => 42 case 10 => 43 case 11 => 162 case 12 => 162 case 13 => 162 case 14 => 162 case _ => 162 }
      case 2 => match i % 16 { case 0 => 162 case 1 => 8 case 2 => 16 case 3 => 24 case 4 => 32 case 5 => 44 case 6 => 45 case 7 => 46 case 8 => 47 case 9 => 48 case 10 => 49 case 11 => 162 case 12 => 162 case 13 => 162 case 14 => 162 case _ => 162 }
      case 3 => match i % 16 { case 0 => 162 case 1 => 9 case 2 => 19 case 3 => 33 case 4 => 50 case 5 => 51 case 6 => 52 case 7 => 53 case 8 => 54 case 9 => 55 case 10 => 56 case 11 => 162 case 12 => 162 case 13 => 162 case 14 => 162 case _ => 162 }
      case 4 => match i % 16 { case 0 => 162 case 1 => 10 case 2 => 25 case 3 => 57 case 4 => 58 case 5 => 59 case 6 => 60 case 7 => 61 case 8 => 62 case 9 => 63 case 10 => 64 case 11 => 162 case 12 => 162 case 13 => 162 case 14 => 162 case _ => 162 }
      case 5 => match i % 16 { case 0 => 162 case 1 => 13 case 2 => 29 case 3 => 65 case 4 => 66 case 5 => 67 case 6 => 68 case 7 => 69 case 8 => 70 case 9 => 71 case 10 => 72 case 11 => 162 case 12 => 162 case 13 => 162 case 14 => 162 case _ => 162 }
      case 6 => match i % 16 { case 0 => 162 case 1 => 14 case 2 => 34 case 3 => 73 case 4 => 74 case 5 => 75 case 6 => 76 case 7 => 77 case 8 => 78 case 9 => 79 case 10 => 80 case 11 => 162 case 12 => 162 case 13 => 162 case 14 => 162 case _ => 162 }
      case 7 => match i % 16 { case 0 => 162 case 1 => 17 case 2 => 35 case 3 => 81 case 4 => 82 case 5 => 83 case 6 => 84 case 7 => 85 case 8 => 86 case 9 => 87 case 10 => 88 case 11 => 162 case 12 => 162 case 13 => 162 case 14 => 162 case _ => 162 }
      case 8 => match i % 16 { case 0 => 162 case 1 => 20 case 2 => 36 case 3 => 89 case 4 => 90 case 5 => 91 case 6 => 92 case 7 => 93 case 8 => 94 case 9 => 95 case 10 => 96 case 11 => 162 case 12 => 162 case 13 => 162 case 14 => 162 case _ => 162 }
      case 9 => match i % 16 { case 0 => 162 case 1 => 21 case 2 => 97 case 3 => 98 case 4 => 99 case 5 => 100 case 6 => 101 case 7 => 102 case 8 => 103 case 9 => 104 case 10 => 105 case 11 => 162 case 12 => 162 case 13 => 162 case 14 => 162 case _ => 162 }
      case 10 => match i % 16 { case 0 => 162 case 1 => 22 case 2 => 106 case 3 => 107 case 4 => 108 case 5 => 109 case 6 => 110 case 7 => 111 case 8 => 112 case 9 => 113 case 10 => 114 case 11 => 162 case 12 => 162 case 13 => 162 case 14 => 162 case _ => 162 }
      case 11 => match i % 16 { case 0 => 162 case 1 => 26 case 2 => 115 case 3 => 116 case 4 => 117 case 5 => 118 case 6 => 119 case 7 => 120 case 8 => 121 case 9 => 122 case 10 => 123 case 11 => 162 case 12 => 162 case 13 => 162 case 14 => 162 case _ => 162 }
      case 12 => match i % 16 { case 0 => 162 case 1 => 27 case 2 => 124 case 3 => 125 case 4 => 126 case 5 => 127 case 6 => 128 case 7 => 129 case 8 => 130 case 9 => 131 case 10 => 132 case 11 => 162 case 12 => 162 case 13 => 162 case 14 => 162 case _ => 162 }
      case 13 => match i % 16 { case 0 => 162 case 1 => 30 case 2 => 133 case 3 => 134 case 4 => 135 case 5 => 136 case 6 => 137 case 7 => 138 case 8 => 139 case 9 => 140 case 10 => 141 case 11 => 162 case 12 => 162 case 13 => 162 case 14 => 162 case _ => 162 }
      case 14 => match i % 16 { case 0 => 162 case 1 => 142 case 2 => 143 case 3 => 144 case 4 => 145 case 5 => 146 case 6 => 147 case 7 => 148 case 8 => 149 case 9 => 150 case 10 => 151 case 11 => 162 case 12 => 162 case 13 => 162 case 14 => 162 case _ => 162 }
      case _ => match i % 16 { case 0 => 31 case 1 => 152 case 2 => 153 case 3 => 154 case 4 => 155 case 5 => 156 case 6 => 157 case 7 => 158 case 8 => 159 case 9 => 160 case 10 => 161 case 11 => 162 case 12 => 162 case 13 => 162 case 14 => 162 case _ => 162 }
  }

  /** The position of symbol i (run i / 16, size i % 16) in std_ac_chrominance_values, 162 when absent. */
  function AcChrominanceRank(i: int): int
  {
    match i / 16
      case 0 => match i % 16 { case 0 => 0 case 1 => 1 case 2 => 2 case 3 => 3 case 4 => 5 case 5 => 6 case 6 => 9 case 7 => 13 case 8 => 20 case 9 => 27 case 10 => 36 case 11 => 162 case 12 => 162 case 13 => 162 case 14 => 162 case _ => 162 }
      case 1 => match i % 16 { case 0 => 162 case 1 => 4 case 2 => 10 case 3 => 16 case 4 => 21 case 5 => 32 case 6 => 37 case 7 => 43 case 8 => 44 case 9 => 45 case 10 => 46 case 11 => 162 case 12 => 162 case 13 => 162 case 14 => 162 case _ => 162 }
      case 2 => match i % 16 { case 0 => 162 case 1 => 7 case 2 => 17 case 3 => 28 case 4 => 38 case 5 => 41 case 6 => 47 case 7 => 48 case 8 => 49 case 9 => 50 case 10 => 51 case 11 => 162 case 12 => 162 case 13 => 162 case 14 => 162 case _ => 162 }
      case 3 => match i % 16 { case 0 => 162 case 1 => 8 case 2 => 18 case 3 => 29 case 4 => 39 case 5 => 52 case 6 => 53 case 7 => 54 case 8 => 55 case 9 => 56 case 10 => 57 case 11 => 162 case 12 => 162 case 13 => 162 case 14 => 162 case _ => 162 }
      case 4 => match i % 16 { case 0 => 162 case 1 => 11 case 2 => 22 case 3 => 58 case 4 => 59 case 5 => 60 case 6 => 61 case 7 => 62 case 8 => 63 case 9 => 64 case 10 => 65 case 11 => 162 case 12 => 162 case 13 => 162 case 14 => 162 case _ => 162 }
      case 5 => match i % 16 { case 0 => 162 case 1 => 12 case 2 => 30 case 3 => 66 case 4 => 67 case 5 => 68 case 6 => 69 case 7 => 70 case 8 => 71 case 9 => 72 case 10 => 73 case 11 => 162 case 12 => 162 case 13 => 162 case 14 => 162 case _ => 162 }
      case 6 => match i % 16 { case 0 => 162 case 1 => 14 case 2 => 33 case 3 => 74 case 4 => 75 case 5 => 76 case 6 => 77 case 7 => 78 case 8 => 79 case 9 => 80 case 10 => 81 case 11 => 162 case 12 => 162 case 13 => 162 case 14 => 162 case _ => 162 }
      case 7 => match i % 16 { case 0 => 162 case 1 => 15 case 2 => 34 case 3 => 82 case 4 => 83 case 5 => 84 case 6 => 85 case 7 => 86 case 8 => 87 case 9 => 88 case 10 => 89 case 11 => 162 case 12 => 162 case 13 => 162 case 14 => 162 case _ => 162 }
      case 8 => match i % 16 { case 0 => 162 case 1 => 19 case 2 => 90 case 3 => 91 case 4 => 92 case 5 => 93 case 6 => 94 case 7 => 95 case 8 => 96 case 9 => 97 case 10 => 98 case 11 => 162 case 12 => 162 case 13 => 162 case 14 => 162 case _ => 162 }
      case 9 => match i % 16 { case 0 => 162 case 1 => 23 case 2 => 99 case 3 => 100 case 4 => 101 case 5 => 102 case 6 => 103 case 7 => 104 case 8 => 105 case 9 => 106 case 10 => 107 case 11 => 162 case 12 => 162 case 13 => 162 case 14 => 162 case _ => 162 }
      case 10 => match i % 16 { case 0 => 162 case 1 => 24 case 2 => 108 case 3 => 109 case 4 => 110 case 5 => 111 case 6 => 112 case 7 => 113 case 8 => 114 case 9 => 115 case 10 => 116 case 11 => 162 case 12 => 162 case 13 => 162 case 14 => 162 case _ => 162 }
      case 11 => match i % 16 { case 0 => 162 case 1 => 25 case 2 => 117 case 3 => 118 case 4 => 119 case 5 => 120 case 6 => 121 case 7 => 122 case 8 => 123 case 9 => 124 case 10 => 125 case 11 => 162 case 12 => 162 case 13 => 162 case 14 => 162 case _ => 162 }
      case 12 => match i % 16 { case 0 => 162 case 1 => 26 case 2 => 126 case 3 => 127 case 4 => 128 case 5 => 129 case 6 => 130 case 7 => 131 case 8 => 132 case 9 => 133 case 10 => 134 case 11 => 162 case 12 => 162 case 13 => 162 case 14 => 162 case _ => 162 }
      case 13 => match i % 16 { case 0 => 162 case 1 => 35 case 2 => 135 case 3 => 136 case 4 => 137 case 5 => 138 case 6 => 139 case 7 => 140 case 8 => 141 case 9 => 142 case 10 => 143 case 11 => 162 case 12 => 162 case 13 => 162 case 14 => 162 case _ => 162 }
      case 14 => match i % 16 { case 0 => 162 case 1 => 40 case 2 => 144 case 3 => 145 case 4 => 146 case 5 => 147 case 6 => 148 case 7 => 149 case 8 => 150 case 9 => 151 case 10 => 152 case 11 => 162 case 12 => 162 case 13 => 162 case 14 => 162 case _ => 162 }
      case _ => match i % 16 { case 0 => 31 case 1 => 42 case 2 => 153 case 3 => 154 case 4 => 155 case 5 => 156 case 6 => 157 case 7 => 158 case 8 => 159 case 9 => 160 case 10 => 161 case 11 => 162 case 12 => 162 case 13 => 162 case 14 => 162 case _ => 162 }
  }

  /** DcLuminanceBits holds 17 byte-sized counts. */
  lemma DcLuminanceBitsHistogram()
    ensures IsHistogram(DcLuminanceBits())
  {
  }

  /** DcLuminanceBits is a histogram of 12 codes. */
  lemma DcLuminanceBitsTotal()
    ensures IsHistogram(DcLuminanceBits()) && Total(DcLuminanceBits()) == 12
  {
    DcLuminanceBitsHistogram();
    assert CountBelow(DcLuminanceBits(), 2) == 0;
    assert CountBelow(DcLuminanceBits(), 3) == 1;
    assert CountBelow(DcLuminanceBits(), 4) == 6;
    assert CountBelow(DcLuminanceBits(), 5) == 7;
    assert CountBelow(DcLuminanceBits(), 6) == 8;
    assert CountBelow(DcLuminanceBits(), 7) == 9;
    assert CountBelow(DcLuminanceBits(), 8) == 10;
    assert CountBelow(DcLuminanceBits(), 9) == 11;
    assert CountBelow(DcLuminanceBits(), 10) == 12;
    assert CountBelow(DcLuminanceBits(), 11) == 12;
    assert CountBelow(DcLuminanceBits(), 12) == 12;
    assert CountBelow(DcLuminanceBits(), 13) == 12;
    assert CountBelow(DcLuminanceBits(), 14) == 12;
    assert CountBelow(DcLuminanceBits(), 15) == 12;
    assert CountBelow(DcLuminanceBits(), 16) == 12;
    assert CountBelow(DcLuminanceBits(), 17) == 12;
  }

  /** The first code of every level of DcLuminanceBits. */
  lemma DcLuminanceBitsFirstCodes()
    ensures IsHistogram(DcLuminanceBits())
    ensures FirstCode(DcLuminanceBits(), 2) == 0
    ensures FirstCode(DcLuminanceBits(), 3) == 2
    ensures FirstCode(DcLuminanceBits(), 4) == 14
    ensures FirstCode(DcLuminanceBits(), 5) == 30
    ensures FirstCode(DcLuminanceBits(), 6) == 62
    ensures FirstCode(DcLuminanceBits(), 7) == 126
    ensures FirstCode(DcLuminanceBits(), 8) == 254
    ensures FirstCode(DcLuminanceBits(), 9) == 510
    ensures FirstCode(DcLuminanceBits(), 10) == 1022
    ensures FirstCode(DcLuminanceBits(), 11) == 2044
    ensures FirstCode(DcLuminanceBits(), 12) == 4088
    ensures FirstCode(DcLuminanceBits(), 13) == 8176
    ensures FirstCode(DcLuminanceBits(), 14) == 16352
    ensures FirstCode(DcLuminanceBits(), 15) == 32704
    ensures FirstCode(DcLuminanceBits(), 16) == 65408
  {
    DcLuminanceBitsHistogram();
    assert FirstCode(DcLuminanceBits(), 2) == 0;
    assert FirstCode(DcLuminanceBits(), 3) == 2;
    assert FirstCode(DcLuminanceBits(), 4) == 14;
    assert FirstCode(DcLuminanceBits(), 5) == 30;
    assert FirstCode(DcLuminanceBits(), 6) == 62;
    assert FirstCode(DcLuminanceBits(), 7) == 126;
    assert FirstCode(DcLuminanceBits(), 8) == 254;
    assert FirstCode(DcLuminanceBits(), 9) == 510;
    assert FirstCode(DcLuminanceBits(), 10) == 1022;
    assert FirstCode(DcLuminanceBits(), 11) == 2044;
    assert FirstCode(DcLuminanceBits(), 12) == 4088;
    assert FirstCode(DcLuminanceBits(), 13) == 8176;
    assert FirstCode(DcLuminanceBits(), 14) == 16352;
    assert FirstCode(DcLuminanceBits(), 15) == 32704;
  }

  /** DcLuminanceBits is Kraft-valid: each level's codes fit in its length. */
  lemma DcLuminanceBitsFits()
    ensures IsHistogram(DcLuminanceBits()) && Fits(DcLuminanceBits())
  {
    DcLuminanceBitsFirstCodes();
    Pow2Values();
    assert Fits(DcLuminanceBits(), 16);
    assert Fits(DcLuminanceBits(), 15);
    assert Fits(DcLuminanceBits(), 14);
    assert Fits(DcLuminanceBits(), 13);
    assert Fits(DcLuminanceBits(), 12);
    assert Fits(DcLuminanceBits(), 11);
    assert Fits(DcLuminanceBits(), 10);
    assert Fits(DcLuminanceBits(), 9);
    assert Fits(DcLuminanceBits(), 8);
    assert Fits(DcLuminanceBits(), 7);
    assert Fits(DcLuminanceBits(), 6);
    assert Fits(DcLuminanceBits(), 5);
    assert Fits(DcLuminanceBits(), 4);
    assert Fits(DcLuminanceBits(), 3);
    assert Fits(DcLuminanceBits(), 2);
  }

  /** DcChrominanceBits holds 17 byte-sized counts. */
  lemma DcChrominanceBitsHistogram()
    ensures IsHistogram(DcChrominanceBits())
  {
  }

  /** DcChrominanceBits is a histogram of 12 codes. */
  lemma DcChrominanceBitsTotal()
    ensures IsHistogram(DcChrominanceBits()) && Total(DcChrominanceBits()) == 12
  {
    DcChrominanceBitsHistogram();
    assert CountBelow(DcChrominanceBits(), 2) == 0;
    assert CountBelow(DcChrominanceBits(), 3) == 3;
    assert CountBelow(DcChrominanceBits(), 4) == 4;
    assert CountBelow(DcChrominanceBits(), 5) == 5;
    assert CountBelow(DcChrominanceBits(), 6) == 6;
    assert CountBelow(DcChrominanceBits(), 7) == 7;
    assert CountBelow(DcChrominanceBits(), 8) == 8;
    assert CountBelow(DcChrominanceBits(), 9) == 9;
    assert CountBelow(DcChrominanceBits(), 10) == 10;
    assert CountBelow(DcChrominanceBits(), 11) == 11;
    assert CountBelow(DcChrominanceBits(), 12) == 12;
    assert CountBelow(DcChrominanceBits(), 13) == 12;
    assert CountBelow(DcChrominanceBits(), 14) == 12;
    assert CountBelow(DcChrominanceBits(), 15) == 12;
    assert CountBelow(DcChrominanceBits(), 16) == 12;
    assert CountBelow(DcChrominanceBits(), 17) == 12;
  }

  /** The first code of every level of DcChrominanceBits. */
  lemma DcChrominanceBitsFirstCodes()
    ensures IsHistogram(DcChrominanceBits())
    ensures FirstCode(DcChrominanceBits(), 2) == 0
    ensures FirstCode(DcChrominanceBits(), 3) == 6
    ensures FirstCode(DcChrominanceBits(), 4) == 14
    ensures FirstCode(DcChrominanceBits(), 5) == 30
    ensures FirstCode(DcChrominanceBits(), 6) == 62
    ensures FirstCode(DcChrominanceBits(), 7) == 126
    ensures FirstCode(DcChrominanceBits(), 8) == 254
    ensures FirstCode(DcChrominanceBits(), 9) == 510
    ensures FirstCode(DcChrominanceBits(), 10) == 1022
    ensures FirstCode(DcChrominanceBits(), 11) == 2046
    ensures FirstCode(DcChrominanceBits(), 12) == 4094
    ensures FirstCode(DcChrominanceBits(), 13) == 8188
    ensures FirstCode(DcChrominanceBits(), 14) == 16376
    ensures FirstCode(DcChrominanceBits(), 15) == 32752
    ensures FirstCode(DcChrominanceBits(), 16) == 65504
  {
    DcChrominanceBitsHistogram();
    assert FirstCode(DcChrominanceBits(), 2) == 0;
    assert FirstCode(DcChrominanceBits(), 3) == 6;
    assert FirstCode(DcChrominanceBits(), 4) == 14;
    assert FirstCode(DcChrominanceBits(), 5) == 30;
    assert FirstCode(DcChrominanceBits(), 6) == 62;
    assert FirstCode(DcChrominanceBits(), 7) == 126;
    assert FirstCode(DcChrominanceBits(), 8) == 254;
    assert FirstCode(DcChrominanceBits(), 9) == 510;
    assert FirstCode(DcChrominanceBits(), 10) == 1022;
    assert FirstCode(DcChrominanceBits(), 11) == 2046;
    assert FirstCode(DcChrominanceBits(), 12) == 4094;
    assert FirstCode(DcChrominanceBits(), 13) == 8188;
    assert FirstCode(DcChrominanceBits(), 14) == 16376;
    assert FirstCode(DcChrominanceBits(), 15) == 32752;
  }

  /** DcChrominanceBits is Kraft-valid: each level's codes fit in its length. */
  lemma DcChrominanceBitsFits()
    ensures IsHistogram(DcChrominanceBits()) && Fits(DcChrominanceBits())
  {
    DcChrominanceBitsFirstCodes();
    Pow2Values();
    assert Fits(DcChrominanceBits(), 16);
    assert Fits(DcChrominanceBits(), 15);
    assert Fits(DcChrominanceBits(), 14);
    assert Fits(DcChrominanceBits(), 13);
    assert Fits(DcChrominanceBits(), 12);
    assert Fits(DcChrominanceBits(), 11);
    assert Fits(DcChrominanceBits(), 10);
    assert Fits(DcChrominanceBits(), 9);
    assert Fits(DcChrominanceBits(), 8);
    assert Fits(DcChrominanceBits(), 7);
    assert Fits(DcChrominanceBits(), 6);
    assert Fits(DcChrominanceBits(), 5);
    assert Fits(DcChrominanceBits(), 4);
    assert Fits(DcChrominanceBits(), 3);
    assert Fits(DcChrominanceBits(), 2);
  }

  /** AcLuminanceBits holds 17 byte-sized counts. */
  lemma AcLuminanceBitsHistogram()
    ensures IsHistogram(AcLuminanceBits())
  {
  }

  /** AcLuminanceBits is a histogram of 162 codes. */
  lemma AcLuminanceBitsTotal()
    ensures IsHistogram(AcLuminanceBits()) && Total(AcLuminanceBits()) == 162
  {
    AcLuminanceBitsHistogram();
    assert CountBelow(AcLuminanceBits(), 2) == 0;
    assert CountBelow(AcLuminanceBits(), 3) == 2;
    assert CountBelow(AcLuminanceBits(), 4) == 3;
    assert CountBelow(AcLuminanceBits(), 5) == 6;
    assert CountBelow(AcLuminanceBits(), 6) == 9;
    assert CountBelow(AcLuminanceBits(), 7) == 11;
    assert CountBelow(AcLuminanceBits(), 8) == 15;
    assert CountBelow(AcLuminanceBits(), 9) == 18;
    assert CountBelow(AcLuminanceBits(), 10) == 23;
    assert CountBelow(AcLuminanceBits(), 11) == 28;
    assert CountBelow(AcLuminanceBits(), 12) == 32;
    assert CountBelow(AcLuminanceBits(), 13) == 36;
    assert CountBelow(AcLuminanceBits(), 14) == 36;
    assert CountBelow(AcLuminanceBits(), 15) == 36;
    assert CountBelow(AcLuminanceBits(), 16) == 37;
    assert CountBelow(AcLuminanceBits(), 17) == 162;
  }

  /** The first code of every level of AcLuminanceBits. */
  lemma AcLuminanceBitsFirstCodes()
    ensures IsHistogram(AcLuminanceBits())
    ensures FirstCode(AcLuminanceBits(), 2) == 0
    ensures FirstCode(AcLuminanceBits(), 3) == 4
    ensures FirstCode(AcLuminanceBits(), 4) == 10
    ensures FirstCode(AcLuminanceBits(), 5) == 26
    ensures FirstCode(AcLuminanceBits(), 6) == 58
    ensures FirstCode(AcLuminanceBits(), 7) == 120
    ensures FirstCode(AcLuminanceBits(), 8) == 248
    ensures FirstCode(AcLuminanceBits(), 9) == 502
    ensures FirstCode(AcLuminanceBits(), 10) == 1014
    ensures FirstCode(AcLuminanceBits(), 11) == 2038
    ensures FirstCode(AcLuminanceBits(), 12) == 4084
    ensures FirstCode(AcLuminanceBits(), 13) == 8176
    ensures FirstCode(AcLuminanceBits(), 14) == 16352
    ensures FirstCode(AcLuminanceBits(), 15) == 32704
    ensures FirstCode(AcLuminanceBits(), 16) == 65410
  {
    AcLuminanceBitsHistogram();
    assert FirstCode(AcLuminanceBits(), 2) == 0;
    assert FirstCode(AcLuminanceBits(), 3) == 4;
    assert FirstCode(AcLuminanceBits(), 4) == 10;
    assert FirstCode(AcLuminanceBits(), 5) == 26;
    assert FirstCode(AcLuminanceBits(), 6) == 58;
    assert FirstCode(AcLuminanceBits(), 7) == 120;
    assert FirstCode(AcLuminanceBits(), 8) == 248;
    assert FirstCode(AcLuminanceBits(), 9) == 502;
    assert FirstCode(AcLuminanceBits(), 10) == 1014;
    assert FirstCode(AcLuminanceBits(), 11) == 2038;
    assert FirstCode(AcLuminanceBits(), 12) == 4084;
    assert FirstCode(AcLuminanceBits(), 13) == 8176;
    assert FirstCode(AcLuminanceBits(), 14) == 16352;
    assert FirstCode(AcLuminanceBits(), 15) == 32704;
  }

  /** AcLuminanceBits is Kraft-valid: each level's codes fit in its length. */
  lemma AcLuminanceBitsFits()
    ensures IsHistogram(AcLuminanceBits()) && Fits(AcLuminanceBits())
  {
    AcLuminanceBitsFirstCodes();
    Pow2Values();
    assert Fits(AcLuminanceBits(), 16);
    assert Fits(AcLuminanceBits(), 15);
    assert Fits(AcLuminanceBits(), 14);
    assert Fits(AcLuminanceBits(), 13);
    assert Fits(AcLuminanceBits(), 12);
    assert Fits(AcLuminanceBits(), 11);
    assert Fits(AcLuminanceBits(), 10);
    assert Fits(AcLuminanceBits(), 9);
    assert Fits(AcLuminanceBits(), 8);
    assert Fits(AcLuminanceBits(), 7);
    assert Fits(AcLuminanceBits(), 6);
    assert Fits(AcLuminanceBits(), 5);
    assert Fits(AcLuminanceBits(), 4);
    assert Fits(AcLuminanceBits(), 3);
    assert Fits(AcLuminanceBits(), 2);
  }

  /** AcChrominanceBits holds 17 byte-sized counts. */
  lemma AcChrominanceBitsHistogram()
    ensures IsHistogram(AcChrominanceBits())
  {
  }

  /** AcChrominanceBits is a histogram of 162 codes. */
  lemma AcChrominanceBitsTotal()
    ensures IsHistogram(AcChrominanceBits()) && Total(AcChrominanceBits()) == 162
  {
    AcChrominanceBitsHistogram();
    assert CountBelow(AcChrominanceBits(), 2) == 0;
    assert CountBelow(AcChrominanceBits(), 3) == 2;
    assert CountBelow(AcChrominanceBits(), 4) == 3;
    assert CountBelow(AcChrominanceBits(), 5) == 5;
    assert CountBelow(AcChrominanceBits(), 6) == 9;
    assert CountBelow(AcChrominanceBits(), 7) == 13;
    assert CountBelow(AcChrominanceBits(), 8) == 16;
    assert CountBelow(AcChrominanceBits(), 9) == 20;
    assert CountBelow(AcChrominanceBits(), 10) == 27;
    assert CountBelow(AcChrominanceBits(), 11) == 32;
    assert CountBelow(AcChrominanceBits(), 12) == 36;
    assert CountBelow(AcChrominanceBits(), 13) == 40;
    assert CountBelow(AcChrominanceBits(), 14) == 40;
    assert CountBelow(AcChrominanceBits(), 15) == 41;
    assert CountBelow(AcChrominanceBits(), 16) == 43;
    assert CountBelow(AcChrominanceBits(), 17) == 162;
  }

  /** The first code of every level of AcChrominanceBits. */
  lemma AcChrominanceBitsFirstCodes()
    ensures IsHistogram(AcChrominanceBits())
    ensures FirstCode(AcChrominanceBits(), 2) == 0
    ensures FirstCode(AcChrominanceBits(), 3) == 4
    ensures FirstCode(AcChrominanceBits(), 4) == 10
    ensures FirstCode(AcChrominanceBits(), 5) == 24
    ensures FirstCode(AcChrominanceBits(), 6) == 56
    ensures FirstCode(AcChrominanceBits(), 7) == 120
    ensures FirstCode(AcChrominanceBits(), 8) == 246
    ensures FirstCode(AcChrominanceBits(), 9) == 500
    ensures FirstCode(AcChrominanceBits(), 10) == 1014
    ensures FirstCode(AcChrominanceBits(), 11) == 2038
    ensures FirstCode(AcChrominanceBits(), 12) == 4084
    ensures FirstCode(AcChrominanceBits(), 13) == 8176
    ensures FirstCode(AcChrominanceBits(), 14) == 16352
    ensures FirstCode(AcChrominanceBits(), 15) == 32706
    ensures FirstCode(AcChrominanceBits(), 16) == 65416
  {
    AcChrominanceBitsHistogram();
    assert FirstCode(AcChrominanceBits(), 2) == 0;
    assert FirstCode(AcChrominanceBits(), 3) == 4;
    assert FirstCode(AcChrominanceBits(), 4) == 10;
    assert FirstCode(AcChrominanceBits(), 5) == 24;
    assert FirstCode(AcChrominanceBits(), 6) == 56;
    assert FirstCode(AcChrominanceBits(), 7) == 120;
    assert FirstCode(AcChrominanceBits(), 8) == 246;
    assert FirstCode(AcChrominanceBits(), 9) == 500;
    assert FirstCode(AcChrominanceBits(), 10) == 1014;
    assert FirstCode(AcChrominanceBits(), 11) == 2038;
    assert FirstCode(AcChrominanceBits(), 12) == 4084;
    assert FirstCode(AcChrominanceBits(), 13) == 8176;
    assert FirstCode(AcChrominanceBits(), 14) == 16352;
    assert FirstCode(AcChrominanceBits(), 15) == 32706;
  }

  /** AcChrominanceBits is Kraft-valid: each level's codes fit in its length. */
  lemma AcChrominanceBitsFits()
    ensures IsHistogram(AcChrominanceBits()) && Fits(AcChrominanceBits())
  {
    AcChrominanceBitsFirstCodes();
    Pow2Values();
    assert Fits(AcChrominanceBits(), 16);
    assert Fits(AcChrominanceBits(), 15);
    assert Fits(AcChrominanceBits(), 14);
    assert Fits(AcChrominanceBits(), 13);
    assert Fits(AcChrominanceBits(), 12);
    assert Fits(AcChrominanceBits(), 11);
    assert Fits(AcChrominanceBits(), 10);
    assert Fits(AcChrominanceBits(), 9);
    assert Fits(AcChrominanceBits(), 8);
    assert Fits(AcChrominanceBits(), 7);
    assert Fits(AcChrominanceBits(), 6);
    assert Fits(AcChrominanceBits(), 5);
    assert Fits(AcChrominanceBits(), 4);
    assert Fits(AcChrominanceBits(), 3);
    assert Fits(AcChrominanceBits(), 2);
  }

  lemma AcLuminanceRanked0()
    ensures forall p :: 0 <= p < 24 ==> IsAcSymbol(AcLuminanceValueAt(p)) && AcLuminanceRank(AcLuminanceValueAt(p)) == p
  {
  }

  lemma AcLuminanceRanked24()
    ensures forall p :: 24 <= p < 48 ==> IsAcSymbol(AcLuminanceValueAt(p)) && AcLuminanceRank(AcLuminanceValueAt(p)) == p
  {
  }

  lemma AcLuminanceRanked48()
    ensures forall p :: 48 <= p < 72 ==> IsAcSymbol(AcLuminanceValueAt(p)) && AcLuminanceRank(AcLuminanceValueAt(p)) == p
  {
  }

  lemma AcLuminanceRanked72()
    ensures forall p :: 72 <= p < 96 ==> IsAcSymbol(AcLuminanceValueAt(p)) && AcLuminanceRank(AcLuminanceValueAt(p)) == p
  {
  }

  lemma AcLuminanceRanked96()
    ensures forall p :: 96 <= p < 120 ==> IsAcSymbol(AcLuminanceValueAt(p)) && AcLuminanceRank(AcLuminanceValueAt(p)) == p
  {
  }

  lemma AcLuminanceRanked120()
    ensures forall p :: 120 <= p < 144 ==> IsAcSymbol(AcLuminanceValueAt(p)) && AcLuminanceRank(AcLuminanceValueAt(p)) == p
  {
  }

  lemma AcLuminanceRanked144()
    ensures forall p :: 144 <= p < 162 ==> IsAcSymbol(AcLuminanceValueAt(p)) && AcLuminanceRank(AcLuminanceValueAt(p)) == p
  {
  }

  lemma AcChrominanceRanked0()
    ensures forall p :: 0 <= p < 24 ==> IsAcSymbol(AcChrominanceValueAt(p)) && AcChrominanceRank(AcChrominanceValueAt(p)) == p
  {
  }

  lemma AcChrominanceRanked24()
    ensures forall p :: 24 <= p < 48 ==> IsAcSymbol(AcChrominanceValueAt(p)) && AcChrominanceRank(AcChrominanceValueAt(p)) == p
  {
  }

  lemma AcChrominanceRanked48()
    ensures forall p :: 48 <= p < 72 ==> IsAcSymbol(AcChrominanceValueAt(p)) && AcChrominanceRank(AcChrominanceValueAt(p)) == p
  {
  }

  lemma AcChrominanceRanked72()
    ensures forall p :: 72 <= p < 96 ==> IsAcSymbol(AcChrominanceValueAt(p)) && AcChrominanceRank(AcChrominanceValueAt(p)) == p
  {
  }

  lemma AcChrominanceRanked96()
    ensures forall p :: 96 <= p < 120 ==> IsAcSymbol(AcChrominanceValueAt(p)) && AcChrominanceRank(AcChrominanceValueAt(p)) == p
  {
  }

  lemma AcChrominanceRanked120()
    ensures forall p :: 120 <= p < 144 ==> IsAcSymbol(AcChrominanceValueAt(p)) && AcChrominanceRank(AcChrominanceValueAt(p)) == p
  {
  }

  lemma AcChrominanceRanked144()
    ensures forall p :: 144 <= p < 162 ==> IsAcSymbol(AcChrominanceValueAt(p)) && AcChrominanceRank(AcChrominanceValueAt(p)) == p
  {
  }

  /** The AC symbol lists hold each symbol once at its rank, every one of them a byte-sized AC symbol. */
  lemma AcValuesRanked()
    ensures |AcLuminanceValues()| == 162 && |AcChrominanceValues()| == 162
    ensures forall p :: 0 <= p < 162 ==> IsAcSymbol(AcLuminanceValues()[p]) && AcLuminanceRank(AcLuminanceValues()[p]) == p
    ensures forall p :: 0 <= p < 162 ==> IsAcSymbol(AcChrominanceValues()[p]) && AcChrominanceRank(AcChrominanceValues()[p]) == p
  {
    AcLuminanceRanked0();
    AcLuminanceRanked24();
    AcLuminanceRanked48();
    AcLuminanceRanked72();
    AcLuminanceRanked96();
    AcLuminanceRanked120();
    AcLuminanceRanked144();
    AcChrominanceRanked0();
    AcChrominanceRanked24();
    AcChrominanceRanked48();
    AcChrominanceRanked72();
    AcChrominanceRanked96();
    AcChrominanceRanked120();
    AcChrominanceRanked144();
  }

  lemma AcLuminanceCovers0()
    ensures forall s :: 0 <= s < 64 && IsAcSymbol(s) ==> 0 <= AcLuminanceRank(s) < 162 && AcLuminanceValueAt(AcLuminanceRank(s)) == s
  {
  }

  lemma AcLuminanceCovers64()
    ensures forall s :: 64 <= s < 128 && IsAcSymbol(s) ==> 0 <= AcLuminanceRank(s) < 162 && AcLuminanceValueAt(AcLuminanceRank(s)) == s
  {
  }

  lemma AcLuminanceCovers128()
    ensures forall s :: 128 <= s < 192 && IsAcSymbol(s) ==> 0 <= AcLuminanceRank(s) < 162 && AcLuminanceValueAt(AcLuminanceRank(s)) == s
  {
  }

  lemma AcLuminanceCovers192()
    ensures forall s :: 192 <= s < 256 && IsAcSymbol(s) ==> 0 <= AcLuminanceRank(s) < 162 && AcLuminanceValueAt(AcLuminanceRank(s)) == s
  {
  }

  /** Every AC symbol is in the luminance list, at its rank. */
  lemma AcLuminanceCovers()
    ensures forall s :: IsAcSymbol(s) ==> 0 <= AcLuminanceRank(s) < 162 && AcLuminanceValueAt(AcLuminanceRank(s)) == s
  {
    AcLuminanceCovers0();
    AcLuminanceCovers64();
    AcLuminanceCovers128();
    AcLuminanceCovers192();
  }

  lemma AcChrominanceCovers0()
    ensures forall s :: 0 <= s < 64 && IsAcSymbol(s) ==> 0 <= AcChrominanceRank(s) < 162 && AcChrominanceValueAt(AcChrominanceRank(s)) == s
  {
  }

  lemma AcChrominanceCovers64()
    ensures forall s :: 64 <= s < 128 && IsAcSymbol(s) ==> 0 <= AcChrominanceRank(s) < 162 && AcChrominanceValueAt(AcChrominanceRank(s)) == s
  {
  }

  lemma AcChrominanceCovers128()
    ensures forall s :: 128 <= s < 192 && IsAcSymbol(s) ==> 0 <= AcChrominanceRank(s) < 162 && AcChrominanceValueAt(AcChrominanceRank(s)) == s
  {
  }

  lemma AcChrominanceCovers192()
    ensures forall s :: 192 <= s < 256 && IsAcSymbol(s) ==> 0 <= AcChrominanceRank(s) < 162 && AcChrominanceValueAt(AcChrominanceRank(s)) == s
  {
  }

  /** Every AC symbol is in the chrominance list, at its rank. */
  lemma AcChrominanceCovers()
    ensures forall s :: IsAcSymbol(s) ==> 0 <= AcChrominanceRank(s) < 162 && AcChrominanceValueAt(AcChrominanceRank(s)) == s
  {
    AcChrominanceCovers0();
    AcChrominanceCovers64();
    AcChrominanceCovers128();
    AcChrominanceCovers192();
  }

}
