/** Java's fixed-width integers as the converters use them, and the error
    values that stand for the exceptions the modelled code can raise. */
module JavaTypes {

  /** Java's signed 8-bit `byte`. */
  newtype int8 = x: int | -128 <= x < 128

  /** Java's signed 16-bit `short`. */
  newtype int16 = x: int | -32768 <= x < 32768

  /** `b & 0xFF`: the byte read as an unsigned value, i.e. the one value in
      [0, 256) that has the same low eight bits as `b`. */
  function Unsigned(b: int8): (r: int)
    ensures 0 <= r < 256
  {
    if b < 0 then b as int + 256 else b as int
  }

  /** Unsigned(b) is the one value in [0, 256) with the low eight bits of b. */
  lemma UnsignedKeepsLowBits(b: int8)
    ensures (Unsigned(b) - b as int) % 256 == 0
  {
  }

  /** The narrowing cast `(byte) v` for v in [0, 256). */
  function ToByte(v: int): (r: int8)
    requires 0 <= v < 256
    ensures Unsigned(r) == v
  {
    if v < 128 then v as int8 else (v - 256) as int8
  }

  /** The narrowing cast `(short) v`: keeps the low 16 bits, two's complement. */
  function ToShort(v: int): (r: int16)
    ensures -32768 <= v < 32768 ==> r as int == v
  {
    var m := v % 65536;
    if m < 32768 then m as int16 else (m - 65536) as int16
  }

  /** The cast keeps the low 16 bits: the result differs from v by a
      multiple of 2^16. */
  lemma ToShortKeepsLowBits(v: int)
    ensures (ToShort(v) as int - v) % 65536 == 0
  {
  }

  function Min(a: int, b: int): (r: int)
    ensures r <= a && r <= b && (r == a || r == b)
  {
    if a <= b then a else b
  }

  /** A Java reference that may be null. */
  datatype Option<T> = None | Some(value: T)

  /** The exceptions raised by the modelled code. */
  datatype Error =
    | IndexOutOfBounds   // ByteBuffer.get(int) past the limit
    | BufferUnderflow    // ByteBuffer.get(byte[]) with too few bytes remaining
    | EncoderFailure     // an exception thrown by the external MP3 encoder

  /** A value, or the exception that was raised instead. */
  datatype Result<T> = Success(value: T) | Failure(error: Error) {
    predicate IsFailure() { Failure? }

    function PropagateFailure<U>(): Result<U>
      requires Failure?
    {
      Failure(error)
    }

    function Extract(): T
      requires Success?
    {
      value
    }
  }

  /** The value of a Java `long` accumulator after adding every short of s
      in order (no overflow: the sums here stay far below 2^63). */
  function Sum(s: seq<int16>): int
  {
    if s == [] then 0 else Sum(s[..|s| - 1]) + s[|s| - 1] as int
  }

  lemma {:induction false} SumAppend(a: seq<int16>, b: seq<int16>)
    ensures Sum(a + b) == Sum(a) + Sum(b)
  {
    if b != [] {
      assert (a + b)[..|a + b| - 1] == a + b[..|b| - 1];
      SumAppend(a, b[..|b| - 1]);
    } else {
      assert a + b == a;
    }
  }

  /** A sum of n values in [0, hi] lies in [0, n * hi]. */
  lemma {:induction false} SumBounds(s: seq<int16>, hi: int)
    requires forall i :: 0 <= i < |s| ==> 0 <= s[i] as int <= hi
    ensures 0 <= Sum(s) <= |s| * hi
  {
    if s != [] {
      SumBounds(s[..|s| - 1], hi);
    }
  }

  /** The bytes of a list of byte arrays, laid end to end. */
  function Concat(s: seq<seq<int8>>): (r: seq<int8>)
    ensures s == [] ==> r == []
  {
    if s == [] then [] else s[0] + Concat(s[1..])
  }
}
