/** ByteNativeBufferFactory: takes a buffer of unsigned 8-bit samples off a
    ByteBuffer as a defensive copy, folds the buffer's mean into the running
    DC bias, and wraps the copy, its timestamp and the updated bias. */
module ByteNative {
  import opened JavaTypes
  import opened DcFilter
  import Nio

  /** The sum of `sample & 0xFF` over s: the loop of calculateDc. */
  function UnsignedSum(s: seq<int8>): int
  {
    if s == [] then 0 else UnsignedSum(s[..|s| - 1]) + Unsigned(s[|s| - 1])
  }

  /** A sum of n unsigned bytes lies in [0, 255 * n]. */
  lemma {:induction false} UnsignedSumBounds(s: seq<int8>)
    ensures 0 <= UnsignedSum(s) <= 255 * |s|
  {
    if s != [] {
      UnsignedSumBounds(s[..|s| - 1]);
    }
  }

  /** A buffer whose bytes all equal b adds up to |s| copies of b & 0xFF. */
  lemma {:induction false} UnsignedSumConstant(s: seq<int8>, b: int8)
    requires forall i :: 0 <= i < |s| ==> s[i] == b
    ensures UnsignedSum(s) == |s| * Unsigned(b)
  {
    if s != [] {
      UnsignedSumConstant(s[..|s| - 1], b);
    }
  }

  /** The instantaneous DC of a buffer of `count` unsigned bytes adding up to
      `sum`: `(sum / count - 127) / 128`. An empty buffer divides 0 by 0 and
      yields NaN. With the mean in [0, 255] the DC lies in [-127/128, 1],
      and a buffer sitting at the level 127 has none. */
  function UnsignedByteDc(sum: int, count: nat): (r: Bias)
    ensures r.NaN? <==> count == 0
    ensures 0 < count && 0 <= sum <= 255 * count ==>
      r.Finite? && -127.0 / 128.0 <= r.value <= 1.0
    ensures 0 < count && sum == 127 * count ==> r == Finite(0.0)
  {
    if count == 0 then NaN
    else
      var mean := sum as real / count as real;
      UnsignedMeanBounds(sum, count);
      Finite((mean - 127.0) / 128.0)
  }

  /** The bounds behind UnsignedByteDc, on the mean. */
  lemma UnsignedMeanBounds(sum: int, count: nat)
    requires 0 < count
    ensures 0 <= sum <= 255 * count ==> 0.0 <= sum as real / count as real <= 255.0
    ensures sum == 127 * count ==> sum as real / count as real == 127.0
  {
    if 0 <= sum <= 255 * count {
      MeanBounds(sum as real, count as real, 255.0);
    }
    if sum == 127 * count {
      assert sum as real == 127.0 * count as real;
      MeanOfMultiple(127.0, count as real);
    }
  }

  /** Every non-empty buffer of unsigned bytes has a finite instantaneous
      DC in [-127/128, 1]. */
  lemma UnsignedByteDcRange(s: seq<int8>)
    requires s != []
    ensures var r := UnsignedByteDc(UnsignedSum(s), |s|);
      r.Finite? && -127.0 / 128.0 <= r.value <= 1.0
  {
    UnsignedSumBounds(s);
  }

  /** A buffer of constant bytes b has the DC (b & 0xFF - 127) / 128; in
      particular 127 is the zero level. */
  lemma UnsignedByteDcOfConstant(s: seq<int8>, b: int8)
    requires s != [] && forall i :: 0 <= i < |s| ==> s[i] == b
    ensures UnsignedByteDc(UnsignedSum(s), |s|) == Finite((Unsigned(b) as real - 127.0) / 128.0)
  {
    UnsignedSumConstant(s, b);
    assert UnsignedSum(s) as real / |s| as real == Unsigned(b) as real;
  }

  /** A ByteNativeBuffer: the sample copy, the timestamp and the DC bias the
      factory held when the buffer was made. */
  datatype ByteNativeBuffer = ByteNativeBuffer(samples: array<int8>, timestamp: int, averageDc: Bias)

  class ByteNativeBufferFactory {
    /** mAverageDc: the running DC bias estimate. */
    var averageDc: Bias

    constructor()
      ensures averageDc == INITIAL_BIAS
    {
      averageDc := INITIAL_BIAS;
    }

    /** getBuffer(samples, timestamp): copies capacity bytes from the
        buffer's position (a relative bulk get, so it needs the whole buffer
        remaining, i.e. position 0 and limit at capacity, and it advances
        the position to capacity), updates the DC bias from the copy once,
        and returns the copy with the updated bias. With fewer bytes
        remaining the bulk get throws BufferUnderflowException and nothing
        changes. */
    method GetBuffer(samples: Nio.ByteBuffer, timestamp: int) returns (r: Result<ByteNativeBuffer>)
      requires samples.Valid()
      modifies this`averageDc, samples`position
      ensures samples.Valid()
      ensures r.Success? <==> old(samples.position) == 0 && samples.limit == samples.Capacity()
      ensures r.Failure? ==> r.error == BufferUnderflow
      ensures r.Failure? ==> samples.position == old(samples.position) && averageDc == old(averageDc)
      ensures r.Success? ==> samples.position == samples.Capacity()
      ensures r.Success? ==> fresh(r.value.samples) && r.value.samples[..] == samples.bytes[..]
      ensures r.Success? ==> r.value.timestamp == timestamp
      ensures r.Success? ==> averageDc == Step(old(averageDc), UnsignedByteDc(UnsignedSum(samples.bytes[..]), samples.Capacity()))
      ensures r.Success? ==> r.value.averageDc == averageDc
    {
      var copy := new int8[samples.Capacity()](_ => 0);
      var got :- samples.GetInto(copy);
      CalculateDc(copy);
      r := Success(ByteNativeBuffer(copy, timestamp, averageDc));
    }

    /** calculateDc(samples): sums the unsigned bytes of the copy, which it
        only reads, and folds their mean into the DC bias once. */
    method CalculateDc(samples: array<int8>)
      modifies this`averageDc
      ensures averageDc == Step(old(averageDc), UnsignedByteDc(UnsignedSum(samples[..]), samples.Length))
    {
      var dcAccumulator := 0;
      var i := 0;
      while i < samples.Length
        invariant i <= samples.Length
        invariant dcAccumulator == UnsignedSum(samples[..i])
      {
        assert samples[..i + 1][..i] == samples[..i];
        dcAccumulator := dcAccumulator + Unsigned(samples[i]);
        i := i + 1;
      }
      assert samples[..i] == samples[..];
      averageDc := Step(averageDc, UnsignedByteDc(dcAccumulator, samples.Length));
    }
  }
}
