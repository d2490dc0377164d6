/** VectorUnpackedSampleConverter: unpacks Airspy samples stored one per two
    bytes (low byte, then a byte whose low nibble holds bits 8-11). A main
    loop handles groups of L samples with L-lane short vectors, a scalar loop
    handles the remaining samples, and the running DC bias is updated once
    per buffer. L, the preferred vector species' lane count, depends on the
    hardware, so it is a parameter of the model. */
module VectorUnpacked {
  import opened JavaTypes
  import opened DcFilter
  import Nio

  /** `((hi & 0x0F) << 8) | (lo & 0xFF)`: the low nibble of hi above the
      eight bits of lo. */
  function Sample(lo: int8, hi: int8): (r: int)
    ensures 0 <= r < 4096
  {
    (Unsigned(hi) % 16) * 256 + Unsigned(lo)
  }

  /** The bit fields of a sample: lo in bits 0-7, the low nibble of hi in
      bits 8-11. */
  lemma SampleFields(lo: int8, hi: int8)
    ensures Sample(lo, hi) % 256 == Unsigned(lo) && Sample(lo, hi) / 256 == Unsigned(hi) % 16
  {
  }

  /** Sample i of the buffer: bytes 2i and 2i + 1, after the `(short)` cast. */
  function SampleAt(bytes: seq<int8>, i: nat): int16
    requires 2 * i + 1 < |bytes|
  {
    ToShort(Sample(bytes[2 * i], bytes[2 * i + 1]))
  }

  /** Every sample of the buffer, one plain scalar step per sample; an odd
      trailing byte is ignored. This is what `convert` returns whatever the
      lane count. Sample i is a 12-bit value whose low eight bits are byte
      2i and whose top four bits are the low nibble of byte 2i + 1. */
  function UnpackedSamples(bytes: seq<int8>): (r: seq<int16>)
    ensures |r| == |bytes| / 2
    ensures forall i :: 0 <= i < |r| ==>
      0 <= r[i] < 4096 &&
      r[i] as int % 256 == Unsigned(bytes[2 * i]) &&
      r[i] as int / 256 == Unsigned(bytes[2 * i + 1]) % 16
  {
    var r := seq(|bytes| / 2, (i: int) requires 0 <= i < |bytes| / 2 => SampleAt(bytes, i));
    assert forall i :: 0 <= i < |r| ==>
      r[i] as int % 256 == Unsigned(bytes[2 * i]) &&
      r[i] as int / 256 == Unsigned(bytes[2 * i + 1]) % 16 by {
      forall i | 0 <= i < |r|
        ensures r[i] as int % 256 == Unsigned(bytes[2 * i])
        ensures r[i] as int / 256 == Unsigned(bytes[2 * i + 1]) % 16
      {
        SampleFields(bytes[2 * i], bytes[2 * i + 1]);
      }
    }
    r
  }

  /** An array holding sample i at every index i is the unpacked buffer. */
  lemma SamplesAreUnpacked(bytes: seq<int8>, samples: seq<int16>)
    requires |samples| == |bytes| / 2
    requires forall i :: 0 <= i < |samples| ==> samples[i] == SampleAt(bytes, i)
    ensures samples == UnpackedSamples(bytes)
  {
  }

  /** The exact sum of samples lo .. hi - 1. */
  function SampleSum(bytes: seq<int8>, lo: nat, hi: nat): int
    requires lo <= hi && 2 * hi <= |bytes|
    decreases hi - lo
  {
    if lo == hi then 0 else SampleSum(bytes, lo, hi - 1) + SampleAt(bytes, hi - 1) as int
  }

  lemma {:induction false} SampleSumSplit(bytes: seq<int8>, lo: nat, mid: nat, hi: nat)
    requires lo <= mid <= hi && 2 * hi <= |bytes|
    ensures SampleSum(bytes, lo, hi) == SampleSum(bytes, lo, mid) + SampleSum(bytes, mid, hi)
    decreases hi - mid
  {
    if mid < hi {
      SampleSumSplit(bytes, lo, mid, hi - 1);
    }
  }

  /** A sum of k samples lies in [0, 4095 * k]. */
  lemma {:induction false} SampleSumBounds(bytes: seq<int8>, lo: nat, hi: nat)
    requires lo <= hi && 2 * hi <= |bytes|
    ensures 0 <= SampleSum(bytes, lo, hi) <= 4095 * (hi - lo)
    decreases hi - lo
  {
    if lo < hi {
      SampleSumBounds(bytes, lo, hi - 1);
    }
  }

  /** The sum of every sample is the sum of the unpacked array. */
  lemma {:induction false} SampleSumIsSum(bytes: seq<int8>, hi: nat)
    requires 2 * hi <= |bytes|
    ensures SampleSum(bytes, 0, hi) == Sum(UnpackedSamples(bytes)[..hi])
  {
    if hi > 0 {
      SampleSumIsSum(bytes, hi - 1);
      assert UnpackedSamples(bytes)[..hi][..hi - 1] == UnpackedSamples(bytes)[..hi - 1];
    }
  }

  /** `VECTOR_SPECIES.loopBound(n)`: the largest multiple of the lane count
      not above n. */
  function LoopBound(n: nat, lanes: nat): (r: nat)
    requires 0 < lanes
    ensures r <= n < r + lanes
  {
    n - n % lanes
  }

  /** The loop bound is a whole number of lane groups. */
  lemma LoopBoundIsMultiple(n: nat, lanes: nat)
    requires 0 < lanes
    ensures LoopBound(n, lanes) == n / lanes * lanes
  {
    assert n == n / lanes * lanes + n % lanes;
  }

  /** One lane of `fromArray(bytes1).or(fromArray(bytes2).lanewise(LSHL, 8))`
      for a low byte `low` and a nibble `high`: the shifted nibble has no bit
      in the low byte, so the OR is the sum of the two. */
  function LaneValue(low: int16, high: int16): int16
    requires 0 <= low < 256 && 0 <= high < 16
  {
    ToShort(ToShort(high as int * 256) as int + low as int)
  }

  /** The vector built from the two scratch arrays, lane by lane. */
  function Vector(bytes1: seq<int16>, bytes2: seq<int16>): (r: seq<int16>)
    requires |bytes1| == |bytes2|
    requires forall j :: 0 <= j < |bytes1| ==> 0 <= bytes1[j] < 256 && 0 <= bytes2[j] < 16
    ensures |r| == |bytes1|
    ensures forall j :: 0 <= j < |r| ==>
      r[j] as int == bytes1[j] as int + 256 * bytes2[j] as int && 0 <= r[j] < 4096
  {
    seq(|bytes1|, (j: int) requires 0 <= j < |bytes1| => LaneValue(bytes1[j], bytes2[j]))
  }

  /** `reduceLanes(ADD)` on a short vector: the lanes are added in 16-bit
      arithmetic, so the result is the exact sum wrapped to a short. */
  function ReduceAdd(v: seq<int16>): (r: int16)
    ensures (r as int - Sum(v)) % 65536 == 0
  {
    ToShortKeepsLowBits(Sum(v));
    ToShort(Sum(v))
  }

  /** The scratch arrays hold the bytes of samples first .. first + |b1| - 1. */
  ghost predicate ScratchHolds(b1: seq<int16>, b2: seq<int16>, bytes: seq<int8>, first: nat)
  {
    |b1| == |b2| && 2 * (first + |b1|) <= |bytes| &&
    forall j :: 0 <= j < |b1| ==>
      b1[j] as int == Unsigned(bytes[2 * (first + j)]) &&
      b2[j] as int == Unsigned(bytes[2 * (first + j) + 1]) % 16
  }

  /** Each lane of a vector built from freshly filled scratch arrays is the
      scalar sample: the lane loop and the tail agree sample by sample. */
  lemma VectorLanesAreSamples(b1: seq<int16>, b2: seq<int16>, bytes: seq<int8>, first: nat)
    requires ScratchHolds(b1, b2, bytes, first)
    ensures forall j :: 0 <= j < |b1| ==> 0 <= b1[j] < 256 && 0 <= b2[j] < 16
    ensures forall j :: 0 <= j < |b1| ==> Vector(b1, b2)[j] == SampleAt(bytes, first + j)
  {
    forall j | 0 <= j < |b1|
      ensures 0 <= b1[j] < 256 && 0 <= b2[j] < 16
      ensures Vector(b1, b2)[j] == SampleAt(bytes, first + j)
    {
      SampleFields(bytes[2 * (first + j)], bytes[2 * (first + j) + 1]);
    }
  }

  /** The exact sum of a vector whose lanes are samples first .. */
  lemma {:induction false} LaneSum(v: seq<int16>, bytes: seq<int8>, first: nat)
    requires 2 * (first + |v|) <= |bytes|
    requires forall j :: 0 <= j < |v| ==> v[j] == SampleAt(bytes, first + j)
    ensures Sum(v) == SampleSum(bytes, first, first + |v|)
  {
    if v != [] {
      LaneSum(v[..|v| - 1], bytes, first);
    }
  }

  /** The accumulator after the lane loop has handled samples 0 .. end - 1:
      every group of `lanes` samples adds its `reduceLanes(ADD)` short. */
  function WrappedGroupSums(bytes: seq<int8>, lanes: nat, end: nat): int
    requires 0 < lanes && 2 * end <= |bytes|
    decreases end
  {
    if end < lanes then 0
    else WrappedGroupSums(bytes, lanes, end - lanes) + ToShort(SampleSum(bytes, end - lanes, end)) as int
  }

  /** The accumulator as the code computes it: wrapped group sums over the
      lane loop's range, exact samples over the tail. */
  function AsWrittenAccumulator(bytes: seq<int8>, lanes: nat): int
    requires 0 < lanes
  {
    var n := |bytes| / 2;
    var bound := LoopBound(n, lanes);
    WrappedGroupSums(bytes, lanes, bound) + SampleSum(bytes, bound, n)
  }

  /** The accumulator as evidently intended: each group's lanes added
      without wrapping (for instance widened to long before the sum). */
  function ExactGroupSums(bytes: seq<int8>, lanes: nat, end: nat): int
    requires 0 < lanes && 2 * end <= |bytes|
    decreases end
  {
    if end < lanes then 0
    else ExactGroupSums(bytes, lanes, end - lanes) + SampleSum(bytes, end - lanes, end)
  }

  function CorrectedAccumulator(bytes: seq<int8>, lanes: nat): int
    requires 0 < lanes
  {
    var n := |bytes| / 2;
    var bound := LoopBound(n, lanes);
    ExactGroupSums(bytes, lanes, bound) + SampleSum(bytes, bound, n)
  }

  /** Over whole groups, exact group sums add up to the sum of the samples. */
  lemma {:induction false} ExactGroupSumsAreSampleSum(bytes: seq<int8>, lanes: nat, g: nat)
    requires 0 < lanes && 2 * (g * lanes) <= |bytes|
    ensures ExactGroupSums(bytes, lanes, g * lanes) == SampleSum(bytes, 0, g * lanes)
  {
    if g > 0 {
      var end := g * lanes;
      assert (g - 1) * lanes == end - lanes;
      ExactGroupSumsAreSampleSum(bytes, lanes, g - 1);
      SampleSumSplit(bytes, 0, end - lanes, end);
    }
  }

  /** The corrected accumulator is the sum of all samples, whatever L. */
  lemma CorrectedAccumulatorIsSum(bytes: seq<int8>, lanes: nat)
    requires 0 < lanes
    ensures CorrectedAccumulator(bytes, lanes) == SampleSum(bytes, 0, |bytes| / 2)
    ensures CorrectedAccumulator(bytes, lanes) == Sum(UnpackedSamples(bytes))
  {
    var n := |bytes| / 2;
    var bound := LoopBound(n, lanes);
    LoopBoundIsMultiple(n, lanes);
    ExactGroupSumsAreSampleSum(bytes, lanes, n / lanes);
    SampleSumSplit(bytes, 0, bound, n);
    SampleSumIsSum(bytes, n);
    assert UnpackedSamples(bytes)[..n] == UnpackedSamples(bytes);
  }

  /** With at most 8 lanes a group sum (at most 8 * 4095 = 32760) fits in a
      short, so the wrapped group sums are exact. */
  lemma {:induction false} WrappedIsExactForNarrowVectors(bytes: seq<int8>, lanes: nat, end: nat)
    requires 0 < lanes && lanes * 4095 <= 32767 && 2 * end <= |bytes|
    ensures WrappedGroupSums(bytes, lanes, end) == ExactGroupSums(bytes, lanes, end)
    decreases end
  {
    if end >= lanes {
      WrappedIsExactForNarrowVectors(bytes, lanes, end - lanes);
      SampleSumBounds(bytes, end - lanes, end);
    }
  }

  /** For L <= 8 the accumulator as written is the sum of all samples. */
  lemma AsWrittenExactForNarrowVectors(bytes: seq<int8>, lanes: nat)
    requires 0 < lanes && lanes * 4095 <= 32767
    ensures AsWrittenAccumulator(bytes, lanes) == Sum(UnpackedSamples(bytes))
  {
    WrappedIsExactForNarrowVectors(bytes, lanes, LoopBound(|bytes| / 2, lanes));
    CorrectedAccumulatorIsSum(bytes, lanes);
  }

  /** Bytes that are all 0xFF encode samples that are all 4095. */
  lemma {:induction false} AllOnesSum(bytes: seq<int8>, lo: nat, hi: nat)
    requires lo <= hi && 2 * hi <= |bytes|
    requires forall i :: 0 <= i < |bytes| ==> bytes[i] == -1
    ensures SampleSum(bytes, lo, hi) == 4095 * (hi - lo)
    decreases hi - lo
  {
    if lo < hi {
      AllOnesSum(bytes, lo, hi - 1);
    }
  }

  /** A whole buffer of one lane group whose bytes are all 0xFF: every
      sample is 4095, the exact sum is 4095 * L, and the accumulator as
      written holds that sum wrapped to a short. */
  lemma AllOnesGroup(bytes: seq<int8>, lanes: nat)
    requires 0 < lanes && |bytes| == 2 * lanes && forall i :: 0 <= i < |bytes| ==> bytes[i] == -1
    ensures Sum(UnpackedSamples(bytes)) == 4095 * lanes
    ensures AsWrittenAccumulator(bytes, lanes) == ToShort(4095 * lanes) as int
  {
    AllOnesSum(bytes, 0, lanes);
    SampleSumIsSum(bytes, lanes);
    assert UnpackedSamples(bytes)[..lanes] == UnpackedSamples(bytes);
    assert lanes % lanes == 0 by {
      assert lanes == 1 * lanes + 0;
    }
    assert WrappedGroupSums(bytes, lanes, lanes) == ToShort(SampleSum(bytes, 0, lanes)) as int;
  }

  /** With 16 lanes (256-bit vectors) and 32 bytes of 0xFF, the 16 samples
      of 4095 add up to 65520, but the single lane group adds the wrapped
      short -16 to the accumulator. */
  lemma WrappedGroupLosesOverflow(bytes: seq<int8>, lanes: nat)
    requires lanes == 16 && |bytes| == 32 && forall i :: 0 <= i < |bytes| ==> bytes[i] == -1
    ensures Sum(UnpackedSamples(bytes)) == 65520
    ensures AsWrittenAccumulator(bytes, lanes) == -16
  {
    AllOnesGroup(bytes, lanes);
    var wrapped := AsWrittenAccumulator(bytes, lanes);
    assert wrapped == ToShort(4095 * lanes) as int;
    ToShortOf65520(4095 * lanes);
  }

  lemma ToShortOf65520(x: int)
    requires x == 65520
    ensures ToShort(x) == -16
  {
  }

  class VectorUnpackedSampleConverter {
    /** VECTOR_SPECIES.length(): the lane count of the preferred species. */
    const lanes: nat
    /** AirspyBufferIterator.SCALE_SIGNED_12_BIT_TO_FLOAT, an opaque constant. */
    const scale: real
    /** mAverageDc: the running DC bias estimate. */
    var averageDc: Bias

    constructor(lanes: nat, scale: real)
      requires 0 < lanes
      ensures this.lanes == lanes && this.scale == scale && averageDc == INITIAL_BIAS
    {
      this.lanes := lanes;
      this.scale := scale;
      averageDc := INITIAL_BIAS;
    }

    /** convert(ByteBuffer): reads bytes 0 .. 2n - 1 by absolute index in
        order (n = capacity / 2), returns a fresh array holding every sample
        whatever the lane count, and folds the accumulator as the code
        computes it into the DC bias once. A limit below 2n makes a `get`
        throw before any state changes. */
    method Convert(buffer: Nio.ByteBuffer) returns (r: Result<array<int16>>)
      requires buffer.Valid() && 0 < lanes
      modifies this`averageDc
      ensures r.Failure? <==> buffer.limit < buffer.Capacity() / 2 * 2
      ensures r.Failure? ==> r.error == IndexOutOfBounds && averageDc == old(averageDc)
      ensures r.Success? ==> fresh(r.value) && r.value[..] == UnpackedSamples(buffer.bytes[..])
      ensures r.Success? ==>
        averageDc == Step(old(averageDc), Centered12BitDc(AsWrittenAccumulator(buffer.bytes[..], lanes), r.value.Length, scale))
    {
      var samples := new int16[buffer.Capacity() / 2](_ => 0);
      var bytes1 := new int16[lanes](_ => 0);
      var bytes2 := new int16[lanes](_ => 0);
      var grouped :- LaneGroups(buffer, samples, bytes1, bytes2);
      var dcAccumulator :- Tail(buffer, samples, LoopBound(samples.Length, lanes), grouped);
      assert samples[..] == UnpackedSamples(buffer.bytes[..]) by {
        SamplesAreUnpacked(buffer.bytes[..], samples[..]);
      }
      assert dcAccumulator == AsWrittenAccumulator(buffer.bytes[..], lanes) by {
        assert |buffer.bytes[..]| / 2 == samples.Length;
      }
      averageDc := Step(averageDc, Centered12BitDc(dcAccumulator, samples.Length, scale));
      r := Success(samples);
    }

    /** The lane loop of convert: for each whole group of L samples, fill
        the scratch arrays, build the vector, add its `reduceLanes(ADD)` to
        the accumulator and store it into the samples. */
    static method LaneGroups(buffer: Nio.ByteBuffer, samples: array<int16>, bytes1: array<int16>, bytes2: array<int16>)
      returns (r: Result<int>)
      requires buffer.Valid() && samples.Length == buffer.Capacity() / 2
      requires 0 < bytes1.Length == bytes2.Length && bytes1 != bytes2 && samples != bytes1 && samples != bytes2
      modifies samples, bytes1, bytes2
      ensures r.Success? <==> 2 * LoopBound(samples.Length, bytes1.Length) <= buffer.limit
      ensures r.Failure? ==> r.error == IndexOutOfBounds
      ensures r.Success? ==> forall i :: 0 <= i < LoopBound(samples.Length, bytes1.Length) ==> samples[i] == SampleAt(buffer.bytes[..], i)
      ensures r.Success? ==>
        r.value == WrappedGroupSums(buffer.bytes[..], bytes1.Length, LoopBound(samples.Length, bytes1.Length))
    {
      ghost var bytes := buffer.bytes[..];
      var lanes := bytes1.Length;
      var bound := LoopBound(samples.Length, lanes);
      ghost var g := 0;
      ghost var groups := samples.Length / lanes;
      LoopBoundIsMultiple(samples.Length, lanes);
      var samplesOffset := 0;
      var rawPointer := 0;
      var dcAccumulator := 0;
      while samplesOffset < bound
        invariant samplesOffset == g * lanes && samplesOffset <= bound && bound == groups * lanes
        invariant rawPointer == 2 * samplesOffset && rawPointer <= buffer.limit
        invariant dcAccumulator == WrappedGroupSums(bytes, lanes, samplesOffset)
        invariant forall i :: 0 <= i < samplesOffset ==> samples[i] == SampleAt(bytes, i)
      {
        NextGroupFits(g, groups, lanes);
        var reduced :- ConvertGroup(buffer, samples, bytes1, bytes2, samplesOffset, rawPointer);
        dcAccumulator := dcAccumulator + reduced as int;
        rawPointer := rawPointer + 2 * lanes;
        samplesOffset := samplesOffset + lanes;
        g := g + 1;
      }
      assert samplesOffset == bound && buffer.bytes[..] == bytes;
      r := Success(dcAccumulator);
    }

    /** One lane group: the inner loop fills both scratch arrays (every
        lane, before any is read), then the vector is reduced and stored at
        samplesOffset. Returns the `reduceLanes(ADD)` short. */
    static method ConvertGroup(buffer: Nio.ByteBuffer, samples: array<int16>, bytes1: array<int16>, bytes2: array<int16>,
                               samplesOffset: nat, rawPointer: nat)
      returns (r: Result<int16>)
      requires buffer.Valid() && rawPointer == 2 * samplesOffset && rawPointer <= buffer.limit
      requires bytes1.Length == bytes2.Length && bytes1 != bytes2 && samples != bytes1 && samples != bytes2
      requires samplesOffset + bytes1.Length <= samples.Length && 2 * samples.Length <= buffer.Capacity()
      modifies samples, bytes1, bytes2
      ensures r.Success? <==> rawPointer + 2 * bytes1.Length <= buffer.limit
      ensures r.Failure? ==> r.error == IndexOutOfBounds && samples[..] == old(samples[..])
      ensures r.Success? ==> forall i :: samplesOffset <= i < samplesOffset + bytes1.Length ==> samples[i] == SampleAt(buffer.bytes[..], i)
      ensures r.Success? ==> forall i :: 0 <= i < samples.Length && !(samplesOffset <= i < samplesOffset + bytes1.Length) ==>
        samples[i] == old(samples[i])
      ensures r.Success? ==>
        r.value == ToShort(SampleSum(buffer.bytes[..], samplesOffset, samplesOffset + bytes1.Length))
    {
      ghost var bytes := buffer.bytes[..];
      var filled :- FillScratch(buffer, bytes1, bytes2, rawPointer, samplesOffset);
      VectorLanesAreSamples(bytes1[..], bytes2[..], bytes, samplesOffset);
      var vector := Vector(bytes1[..], bytes2[..]);
      var reduced := ReduceAdd(vector);
      assert reduced == ToShort(SampleSum(bytes, samplesOffset, samplesOffset + bytes1.Length)) by {
        LaneSum(vector, bytes, samplesOffset);
      }
      forall j | 0 <= j < |vector| {
        samples[samplesOffset + j] := vector[j];
      }
      assert buffer.bytes[..] == bytes;
      r := Success(reduced);
    }

    /** The inner while loop: lane j of bytes1 gets `get(rawPointer + 2j) &
        0xFF` and lane j of bytes2 gets `get(rawPointer + 2j + 1) & 0x0F`,
        in that order; the first index at or past the limit throws. */
    static method FillScratch(buffer: Nio.ByteBuffer, bytes1: array<int16>, bytes2: array<int16>, rawPointer: nat, ghost first: nat)
      returns (r: Result<()>)
      requires buffer.Valid() && bytes1.Length == bytes2.Length && bytes1 != bytes2 && rawPointer <= buffer.limit
      requires rawPointer == 2 * first && 2 * (first + bytes1.Length) <= buffer.Capacity()
      modifies bytes1, bytes2
      ensures r.Success? <==> rawPointer + 2 * bytes1.Length <= buffer.limit
      ensures r.Failure? ==> r.error == IndexOutOfBounds
      ensures r.Success? ==> ScratchHolds(bytes1[..], bytes2[..], buffer.bytes[..], first)
    {
      var raw := rawPointer;
      var bytesOffset := 0;
      while bytesOffset < bytes1.Length
        invariant bytesOffset <= bytes1.Length && raw == rawPointer + 2 * bytesOffset && raw <= buffer.limit
        invariant forall j :: 0 <= j < bytesOffset ==>
          bytes1[j] as int == Unsigned(buffer.bytes[2 * (first + j)]) &&
          bytes2[j] as int == Unsigned(buffer.bytes[2 * (first + j) + 1]) % 16
      {
        var lo :- buffer.Get(raw);
        raw := raw + 1;
        bytes1[bytesOffset] := ToShort(Unsigned(lo));
        var hi :- buffer.Get(raw);
        raw := raw + 1;
        bytes2[bytesOffset] := ToShort(Unsigned(hi) % 16);
        bytesOffset := bytesOffset + 1;
      }
      r := Success(());
    }

    /** The scalar tail: samples start .. n - 1 one at a time, each added
        exactly to the accumulator. */
    static method Tail(buffer: Nio.ByteBuffer, samples: array<int16>, start: nat, dcAccumulator: int)
      returns (r: Result<int>)
      requires buffer.Valid() && samples.Length == buffer.Capacity() / 2
      requires start <= samples.Length && 2 * start <= buffer.limit
      modifies samples
      ensures r.Success? <==> 2 * samples.Length <= buffer.limit
      ensures r.Failure? ==> r.error == IndexOutOfBounds
      ensures r.Success? ==> forall i :: start <= i < samples.Length ==> samples[i] == SampleAt(buffer.bytes[..], i)
      ensures r.Success? ==> forall i :: 0 <= i < start ==> samples[i] == old(samples[i])
      ensures r.Success? ==> r.value == dcAccumulator + SampleSum(buffer.bytes[..], start, samples.Length)
    {
      ghost var bytes := buffer.bytes[..];
      var samplesOffset := start;
      var rawPointer := 2 * start;
      var acc := dcAccumulator;
      while samplesOffset < samples.Length
        invariant start <= samplesOffset <= samples.Length
        invariant rawPointer == 2 * samplesOffset && rawPointer <= buffer.limit
        invariant acc == dcAccumulator + SampleSum(bytes, start, samplesOffset)
        invariant forall i :: start <= i < samplesOffset ==> samples[i] == SampleAt(bytes, i)
        invariant forall i :: 0 <= i < start ==> samples[i] == old(samples[i])
      {
        var b1 :- buffer.Get(rawPointer);
        rawPointer := rawPointer + 1;
        var b2 :- buffer.Get(rawPointer);
        rawPointer := rawPointer + 1;
        var sample := ToShort(Sample(b1, b2));
        samples[samplesOffset] := sample;
        acc := acc + sample as int;
        samplesOffset := samplesOffset + 1;
      }
      r := Success(acc);
    }

    /** getAverageDc(): the current estimate; nothing changes. */
    method GetAverageDc() returns (dc: Bias)
      ensures dc == averageDc
    {
      dc := averageDc;
    }
  }

  /** The group after g still ends within the loop bound. */
  lemma NextGroupFits(g: nat, groups: nat, lanes: nat)
    requires 0 < lanes && g * lanes < groups * lanes
    ensures g + 1 <= groups && (g + 1) * lanes <= groups * lanes
    ensures (g + 1) * lanes == g * lanes + lanes
  {
    if g >= groups {
      MulMonotone(groups, g, lanes);
      assert false;
    }
    MulMonotone(g + 1, groups, lanes);
  }

  lemma MulMonotone(a: nat, b: nat, c: nat)
    requires a <= b
    ensures a * c <= b * c
  {
    assert b * c == a * c + (b - a) * c;
  }
}
