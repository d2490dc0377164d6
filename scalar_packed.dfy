/** ScalarPackedSampleConverter: unpacks Airspy samples packed as two 12-bit
    values in three bytes, accumulates their sum and updates the running DC
    bias once per buffer. */
module ScalarPacked {
  import opened JavaTypes
  import opened DcFilter
  import Nio

  /** `((b1 & 0xFF) << 4) | ((b2 & 0xF0) >> 4)`: the eight bits of b1 above
      the top nibble of b2. */
  function FirstValue(b1: int8, b2: int8): (r: int)
    ensures 0 <= r < 4096
  {
    Unsigned(b1) * 16 + Unsigned(b2) / 16
  }

  /** `((b2 & 0xF) << 8) | (b3 & 0xFF)`: the low nibble of b2 above the
      eight bits of b3. */
  function SecondValue(b2: int8, b3: int8): (r: int)
    ensures 0 <= r < 4096
  {
    (Unsigned(b2) % 16) * 256 + Unsigned(b3)
  }

  /** The bit fields of both values: the first holds b1 in bits 4-11 and the
      top nibble of b2 in bits 0-3; the second holds the low nibble of b2 in
      bits 8-11 and b3 in bits 0-7. */
  lemma ValueFields(b1: int8, b2: int8, b3: int8)
    ensures FirstValue(b1, b2) / 16 == Unsigned(b1) && FirstValue(b1, b2) % 16 == Unsigned(b2) / 16
    ensures SecondValue(b2, b3) / 256 == Unsigned(b2) % 16 && SecondValue(b2, b3) % 256 == Unsigned(b3)
  {
  }

  /** The two 12-bit values packed in triple t (bytes 3t, 3t+1, 3t+2),
      after the `(short)` casts. */
  function TripleValues(bytes: seq<int8>, t: nat): (r: seq<int16>)
    requires 3 * t + 3 <= |bytes|
    ensures |r| == 2
    ensures r[0] as int == FirstValue(bytes[3 * t], bytes[3 * t + 1])
    ensures r[1] as int == SecondValue(bytes[3 * t + 1], bytes[3 * t + 2])
  {
    [ToShort(FirstValue(bytes[3 * t], bytes[3 * t + 1])),
     ToShort(SecondValue(bytes[3 * t + 1], bytes[3 * t + 2]))]
  }

  /** Both values of each of the first k triples, in order. */
  function Unpacked(bytes: seq<int8>, k: nat): (r: seq<int16>)
    requires 3 * k <= |bytes|
    ensures |r| == 2 * k
  {
    if k == 0 then [] else Unpacked(bytes, k - 1) + TripleValues(bytes, k - 1)
  }

  /** Every 12-bit value of the buffer; a trailing partial triple is ignored.
      The accumulator of `convert` sums exactly these values. */
  function Unpack12(bytes: seq<int8>): seq<int16>
  {
    Unpacked(bytes, |bytes| / 3)
  }

  /** Slot j of the array `convert` returns, as the code is written: both
      values of a triple are stored at the same even slot, so the second one
      stays there, and odd slots keep the 0 of a fresh short[]. */
  function AsWrittenAt(bytes: seq<int8>, j: nat): int16
    requires j < |bytes| / 3 * 2
  {
    if j % 2 == 0 then ToShort(SecondValue(bytes[3 * (j / 2) + 1], bytes[3 * (j / 2) + 2])) else 0
  }

  /** The array `convert` returns, as the code is written. */
  function ConvertedSamples(bytes: seq<int8>): seq<int16>
  {
    seq(|bytes| / 3 * 2, (j: int) requires 0 <= j < |bytes| / 3 * 2 => AsWrittenAt(bytes, j))
  }

  /** Values of Unpacked(bytes, k), triple by triple. */
  lemma {:induction false} UnpackedAt(bytes: seq<int8>, k: nat, t: nat)
    requires 3 * k <= |bytes| && t < k
    ensures Unpacked(bytes, k)[2 * t] as int == FirstValue(bytes[3 * t], bytes[3 * t + 1])
    ensures Unpacked(bytes, k)[2 * t + 1] as int == SecondValue(bytes[3 * t + 1], bytes[3 * t + 2])
  {
    if t < k - 1 {
      UnpackedAt(bytes, k - 1, t);
    }
  }

  /** The running dcAccumulator after t triples. */
  function TripleSum(bytes: seq<int8>, t: nat): int
    requires 3 * t <= |bytes|
  {
    if t == 0 then 0
    else
      TripleSum(bytes, t - 1) + FirstValue(bytes[3 * t - 3], bytes[3 * t - 2])
      + SecondValue(bytes[3 * t - 2], bytes[3 * t - 1])
  }

  /** One more triple adds both of its values, as the casts leave them. */
  lemma TripleSumStep(bytes: seq<int8>, t: nat)
    requires 3 * t + 3 <= |bytes|
    ensures TripleSum(bytes, t + 1) == TripleSum(bytes, t)
      + ToShort(FirstValue(bytes[3 * t], bytes[3 * t + 1])) as int
      + ToShort(SecondValue(bytes[3 * t + 1], bytes[3 * t + 2])) as int
  {
  }

  /** The accumulator is the sum of every value the triples hold. */
  lemma {:induction false} TripleSumIsSum(bytes: seq<int8>, t: nat)
    requires 3 * t <= |bytes|
    ensures TripleSum(bytes, t) == Sum(Unpacked(bytes, t))
  {
    if t > 0 {
      TripleSumIsSum(bytes, t - 1);
      var tv := TripleValues(bytes, t - 1);
      SumAppend(Unpacked(bytes, t - 1), tv);
      assert Sum(tv) == Sum([tv[0]]) + tv[1] as int;
    }
  }

  /** Every unpacked value is a 12-bit value. */
  lemma Unpack12Range(bytes: seq<int8>)
    ensures |Unpack12(bytes)| == |bytes| / 3 * 2
    ensures forall j :: 0 <= j < |Unpack12(bytes)| ==> 0 <= Unpack12(bytes)[j] < 4096
  {
    var k := |bytes| / 3;
    forall j | 0 <= j < 2 * k
      ensures 0 <= Unpack12(bytes)[j] < 4096
    {
      UnpackedAt(bytes, k, j / 2);
    }
  }

  /** The accumulator, the sum of all 12-bit values of the buffer, lies in
      [0, 4095 * samples.length]. */
  lemma AccumulatorBounds(bytes: seq<int8>)
    ensures 0 <= Sum(Unpack12(bytes)) <= 4095 * (|bytes| / 3 * 2)
  {
    Unpack12Range(bytes);
    SumBounds(Unpack12(bytes), 4095);
  }

  /** The two slots triple t fills in the array as written. */
  lemma AsWrittenSlots(bytes: seq<int8>, t: nat)
    requires 3 * t + 3 <= |bytes|
    ensures 2 * t + 1 < |bytes| / 3 * 2
    ensures AsWrittenAt(bytes, 2 * t) == ToShort(SecondValue(bytes[3 * t + 1], bytes[3 * t + 2]))
    ensures AsWrittenAt(bytes, 2 * t + 1) == 0
  {
  }

  /** s holds the array as written up to slot x and the initial zeros after. */
  ghost predicate FilledUpTo(s: seq<int16>, bytes: seq<int8>, x: nat)
  {
    |s| == |bytes| / 3 * 2 && x <= |s| &&
    forall j :: 0 <= j < |s| ==> s[j] == if j < x then AsWrittenAt(bytes, j) else 0
  }

  /** Storing triple t's second value at slot 2t extends FilledUpTo by two. */
  lemma FillTriple(s: seq<int16>, bytes: seq<int8>, t: nat, v: int16)
    requires 3 * t + 3 <= |bytes| && FilledUpTo(s, bytes, 2 * t)
    requires v as int == SecondValue(bytes[3 * t + 1], bytes[3 * t + 2])
    ensures FilledUpTo(s[2 * t := v], bytes, 2 * t + 2)
  {
    AsWrittenSlots(bytes, t);
  }

  lemma FilledAll(s: seq<int16>, bytes: seq<int8>)
    requires FilledUpTo(s, bytes, |s|)
    ensures s == ConvertedSamples(bytes)
  {
  }

  /** The array as written keeps only the second value of each triple, at
      the even slot, and zeros in between: compared with Unpack12, the
      first value of every triple is lost. */
  lemma AsWrittenKeepsSecondValues(bytes: seq<int8>, t: nat)
    requires 3 * t + 3 <= |bytes|
    ensures |ConvertedSamples(bytes)| == |Unpack12(bytes)| == |bytes| / 3 * 2
    ensures ConvertedSamples(bytes)[2 * t] == Unpack12(bytes)[2 * t + 1]
    ensures ConvertedSamples(bytes)[2 * t + 1] == 0
  {
    UnpackedAt(bytes, |bytes| / 3, t);
  }

  /** The bytes 0x12 0x34 0x56 pack 0x123 and 0x456; `convert` returns
      [0x456, 0]. */
  lemma AsWrittenLosesFirstValue()
    ensures Unpack12([0x12, 0x34, 0x56]) == [0x123, 0x456]
    ensures ConvertedSamples([0x12, 0x34, 0x56]) == [0x456, 0]
  {
    assert Unpack12([0x12, 0x34, 0x56]) == Unpacked([0x12, 0x34, 0x56], 1);
  }

  /** The three bytes that pack the 12-bit values a and b. */
  function PackTriple(a: int16, b: int16): (r: seq<int8>)
    requires 0 <= a < 4096 && 0 <= b < 4096
    ensures |r| == 3
  {
    [ToByte(a as int / 16), ToByte((a as int % 16) * 16 + b as int / 256), ToByte(b as int % 256)]
  }

  ghost predicate TwelveBit(vs: seq<int16>)
  {
    forall i :: 0 <= i < |vs| ==> 0 <= vs[i] < 4096
  }

  /** The packing the hardware applies: pairs of 12-bit values into triples. */
  function Pack12(vs: seq<int16>): (r: seq<int8>)
    requires |vs| % 2 == 0 && TwelveBit(vs)
    ensures |r| == |vs| / 2 * 3
  {
    if vs == [] then []
    else Pack12(vs[..|vs| - 2]) + PackTriple(vs[|vs| - 2], vs[|vs| - 1])
  }

  /** Unpacking a prefix does not look past it. */
  lemma {:induction false} UnpackedPrefix(a: seq<int8>, b: seq<int8>, k: nat)
    requires 3 * k <= |a|
    ensures Unpacked(a + b, k) == Unpacked(a, k)
  {
    if k > 0 {
      UnpackedPrefix(a, b, k - 1);
      assert TripleValues(a + b, k - 1) == TripleValues(a, k - 1);
    }
  }

  lemma TripleRoundTrip(a: int16, b: int16)
    requires 0 <= a < 4096 && 0 <= b < 4096
    ensures var p := PackTriple(a, b);
      FirstValue(p[0], p[1]) == a as int && SecondValue(p[1], p[2]) == b as int
  {
  }

  /** Unpacking data followed by one packed pair yields that pair last. */
  lemma UnpackedAppendTriple(p: seq<int8>, a: int16, b: int16)
    requires |p| % 3 == 0 && 0 <= a < 4096 && 0 <= b < 4096
    ensures Unpacked(p + PackTriple(a, b), |p| / 3 + 1) == Unpacked(p, |p| / 3) + [a, b]
  {
    var k := |p| / 3;
    var q := p + PackTriple(a, b);
    UnpackedPrefix(p, PackTriple(a, b), k);
    TripleRoundTrip(a, b);
    assert q[3 * k] == PackTriple(a, b)[0];
    assert q[3 * k + 1] == PackTriple(a, b)[1];
    assert q[3 * k + 2] == PackTriple(a, b)[2];
    var tv := TripleValues(q, k);
    assert tv[0] == a && tv[1] == b;
    assert tv == [a, b];
  }

  /** Unpack12 inverts the hardware packing. */
  lemma {:induction false} Unpack12RoundTrip(vs: seq<int16>)
    requires |vs| % 2 == 0 && TwelveBit(vs)
    ensures Unpack12(Pack12(vs)) == vs
  {
    if vs != [] {
      var init := vs[..|vs| - 2];
      var a, b := vs[|vs| - 2], vs[|vs| - 1];
      var p := Pack12(init);
      Unpack12RoundTrip(init);
      assert Pack12(vs) == p + PackTriple(a, b);
      UnpackedAppendTriple(p, a, b);
      assert |Pack12(vs)| / 3 == |p| / 3 + 1;
      assert Unpack12(Pack12(vs)) == Unpack12(p) + [a, b];
      LastPair(vs);
    }
  }

  lemma LastPair(vs: seq<int16>)
    requires 2 <= |vs|
    ensures vs == vs[..|vs| - 2] + [vs[|vs| - 2], vs[|vs| - 1]]
  {
  }

  class ScalarPackedSampleConverter {
    /** AirspyBufferIterator.SCALE_SIGNED_12_BIT_TO_FLOAT, an opaque constant. */
    const scale: real
    /** mAverageDc: the running DC bias estimate. */
    var averageDc: Bias

    constructor(scale: real)
      ensures this.scale == scale && averageDc == INITIAL_BIAS
    {
      this.scale := scale;
      averageDc := INITIAL_BIAS;
    }

    /** convert(ByteBuffer): reads the buffer by absolute index only, returns
        a fresh array of capacity / 3 * 2 shorts, and folds the buffer's
        mean into the DC bias exactly once. A limit below the last complete
        triple makes a `get` throw before any state changes. */
    method Convert(buffer: Nio.ByteBuffer) returns (r: Result<array<int16>>)
      requires buffer.Valid()
      modifies this`averageDc
      ensures r.Failure? <==> buffer.limit < buffer.Capacity() / 3 * 3
      ensures r.Failure? ==> r.error == IndexOutOfBounds && averageDc == old(averageDc)
      ensures r.Success? ==> fresh(r.value) && r.value[..] == ConvertedSamples(buffer.bytes[..])
      ensures r.Success? ==>
        averageDc == Step(old(averageDc), Centered12BitDc(TripleSum(buffer.bytes[..], buffer.Capacity() / 3), r.value.Length, scale))
    {
      var unpacked :- UnpackTriples(buffer);
      var samples := unpacked.0;
      var dcAccumulator := unpacked.1;
      averageDc := Step(averageDc, Centered12BitDc(dcAccumulator, samples.Length, scale));
      r := Success(samples);
    }

    /** The loop of convert: one pass per complete triple, each storing into
        the new array and adding both 12-bit values to the long accumulator.
        Returns the array and the accumulator's final value. */
    static method UnpackTriples(buffer: Nio.ByteBuffer) returns (r: Result<(array<int16>, int)>)
      requires buffer.Valid()
      ensures r.Failure? <==> buffer.limit < buffer.Capacity() / 3 * 3
      ensures r.Failure? ==> r.error == IndexOutOfBounds
      ensures r.Success? ==> fresh(r.value.0) && r.value.0[..] == ConvertedSamples(buffer.bytes[..])
      ensures r.Success? ==> r.value.1 == TripleSum(buffer.bytes[..], buffer.Capacity() / 3)
    {
      ghost var bytes := buffer.bytes[..];
      ghost var triples := |bytes| / 3;
      ghost var t := 0;
      var offset := 0;
      var dcAccumulator := 0;
      var samples := new int16[buffer.Capacity() / 3 * 2](_ => 0);
      var x := 0;
      while x < samples.Length
        invariant samples.Length == 2 * triples && 3 * triples <= |bytes|
        invariant x == 2 * t && offset == 3 * t && t <= triples
        invariant offset <= buffer.limit && buffer.bytes[..] == bytes
        invariant dcAccumulator == TripleSum(bytes, t)
        invariant FilledUpTo(samples[..], bytes, x)
      {
        ghost var before := samples[..];
        var added :- ConvertTriple(buffer, samples, x, offset);
        dcAccumulator := dcAccumulator + added;
        offset := offset + 3;
        FillTriple(before, bytes, t, samples[x]);
        TripleSumStep(bytes, t);
        x := x + 2;
        t := t + 1;
      }
      FilledAll(samples[..], bytes);
      r := Success((samples, dcAccumulator));
    }

    /** One pass of the loop for the triple at `offset`: three absolute gets
        (the first one at or past the limit throws), then both computed
        samples are stored at index x, the second store overwriting the
        first. Returns what the pass adds to the accumulator. */
    static method ConvertTriple(buffer: Nio.ByteBuffer, samples: array<int16>, x: nat, offset: nat)
      returns (r: Result<int>)
      requires buffer.Valid() && x < samples.Length
      modifies samples
      ensures r.Success? <==> offset + 3 <= buffer.limit
      ensures r.Failure? ==> r.error == IndexOutOfBounds && samples[..] == old(samples[..])
      ensures r.Success? ==>
        samples[..] == old(samples[..])[x := ToShort(SecondValue(buffer.bytes[offset + 1], buffer.bytes[offset + 2]))]
      ensures r.Success? ==>
        r.value == ToShort(FirstValue(buffer.bytes[offset], buffer.bytes[offset + 1])) as int
          + ToShort(SecondValue(buffer.bytes[offset + 1], buffer.bytes[offset + 2])) as int
    {
      var b1 :- buffer.Get(offset);
      var b2 :- buffer.Get(offset + 1);
      var b3 :- buffer.Get(offset + 2);

      var sample := ToShort(FirstValue(b1, b2));
      samples[x] := sample;
      var added := sample as int;

      sample := ToShort(SecondValue(b2, b3));
      samples[x] := sample;
      added := added + sample as int;
      r := Success(added);
    }

    /** getAverageDc(): the current estimate; nothing changes. */
    method GetAverageDc() returns (dc: Bias)
      ensures dc == averageDc
    {
      dc := averageDc;
    }
  }
}
