/** Shared vocabulary: bytes, error results and powers of two. */
module Common {

  /** A byte of a file, a pixel channel or the entropy-coded stream. */
  type byte = bv8

  datatype Option<T> = None | Some(value: T)

  datatype Result<T, E> = Ok(value: T) | Err(error: E) {
    predicate IsFailure() { Err? }
    function PropagateFailure<U>(): Result<U, E> requires Err? { Err(error) }
    function Extract(): T requires Ok? { value }
  }

  /**
   * The ways decoding can fail. Each is a call to exit(-1) in the decoder,
   * except Truncated and Unsupported, which stand for reads past the end of
   * the buffer and for shifts the C code leaves undefined, and
   * DivisionByZero, the integer division C performs on a zero sampling
   * factor.
   */
  datatype Fault =
    | Truncated
    | NotJpeg
    | BadSegment
    | BadPrecision
    | BadTableIndex
    | TooManyCodes
    | BadComponentCount
    | NoHuffmanTable
    | NoDcCode
    | CoefficientOverrun
    | Unsupported
    | DivisionByZero

  /** A value below 256 survives the conversion to a byte and back. */
  lemma ByteRoundTrip(x: int)
    requires 0 <= x < 256
    ensures (x as byte) as int == x
  {
    // the conversion is bit-blasted: a split into quarters keeps it small
    if x < 128 {
      if x < 64 {} else {}
    } else {
      if x < 192 {} else {}
    }
  }

  /** A 16-bit word as a file stores it: the high byte, then the low byte. */
  function Word(v: nat): (r: seq<byte>)
    requires v < 65536
    ensures |r| == 2
  {
    [(v / 256) as byte, (v % 256) as byte]
  }

  /** 2^n */
  function Pow2(n: nat): (r: nat)
    ensures r >= 1
  {
    if n == 0 then 1 else 2 * Pow2(n - 1)
  }

  lemma {:induction false} Pow2Add(a: nat, b: nat)
    ensures Pow2(a + b) == Pow2(a) * Pow2(b)
  {
    if a > 0 {
      Pow2Add(a - 1, b);
      calc {
        Pow2(a + b);
        2 * Pow2(a - 1 + b);
        2 * (Pow2(a - 1) * Pow2(b));
        (2 * Pow2(a - 1)) * Pow2(b);
      }
    }
  }

  lemma {:induction false} Pow2Monotone(a: nat, b: nat)
    requires a <= b
    ensures Pow2(a) <= Pow2(b)
  {
    if a < b {
      Pow2Monotone(a, b - 1);
    }
  }

  lemma Pow2Values()
    ensures Pow2(8) == 256 && Pow2(15) == 32768 && Pow2(16) == 65536
  {
    assert Pow2(8) == 256;
    Pow2Add(8, 7);
    Pow2Add(8, 8);
  }

  /** The C conversion of an int to int16_t (two's complement wrap-around). */
  function Wrap16(x: int): (r: int)
    ensures -32768 <= r < 32768
    ensures -32768 <= x < 32768 ==> r == x
    ensures (r - x) % 65536 == 0
  {
    (x + 32768) % 65536 - 32768
  }

  /** The C conversion of a non-negative int to uint64_t. */
  function Wrap64(x: int): (r: nat)
    ensures r < 0x1_0000_0000_0000_0000
    ensures 0 <= x < 0x1_0000_0000_0000_0000 ==> r == x
  {
    x % 0x1_0000_0000_0000_0000
  }
}
