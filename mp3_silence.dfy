/** MP3SilenceGenerator: encodes silence and hands out only whole MP3
    frames of 144 bytes, carrying the bytes of a partial frame over to the
    next call. */
module Mp3Silence {
  import opened JavaTypes
  import opened Lame
  import opened Mp3Converter

  /** The length in bytes of one MP3 frame at the generator's setting. */
  const FRAME_LENGTH: nat := 144

  /** The bytes of a possibly-null byte array, none for null. */
  function Bytes(a: Option<seq<int8>>): seq<int8>
  {
    if a.Some? then a.value else []
  }

  /** merge(a, b): null when both are null, otherwise the bytes of a
      followed by the bytes of b (a null side contributes nothing). */
  function Merge(a: Option<seq<int8>>, b: Option<seq<int8>>): (r: Option<seq<int8>>)
    ensures r.None? <==> a.None? && b.None?
    ensures Bytes(r) == Bytes(a) + Bytes(b)
  {
    if a.None? && b.None? then None
    else if a.None? then b
    else if b.None? then a
    else Some(a.value + b.value)
  }

  /** What one call to generate returns, and the carry it leaves. */
  datatype Release = Release(released: Option<seq<int8>>, carry: Option<seq<int8>>)

  /** The frame alignment of generate: merges the carry with the newly
      encoded bytes and releases the longest prefix that is a whole number
      of frames, keeping the rest as the new carry. */
  function Align(carry: Option<seq<int8>>, encoded: seq<int8>): Release
  {
    var frameData := Merge(carry, Some(encoded));
    if frameData.Some? && |frameData.value| > 0 then
      var data := frameData.value;
      if |data| < FRAME_LENGTH then Release(None, frameData)
      else if |data| % FRAME_LENGTH == 0 then Release(frameData, None)
      else
        var integralFrameLength := |data| / FRAME_LENGTH * FRAME_LENGTH;
        Release(Some(data[..integralFrameLength]), Some(data[integralFrameLength..]))
    else Release(None, carry)
  }

  /** A carry is null or holds a partial frame: between 1 and 143 bytes. */
  predicate PartialFrame(carry: Option<seq<int8>>)
  {
    carry.None? || 0 < |carry.value| < FRAME_LENGTH
  }

  /** No byte is lost, duplicated or reordered: the released bytes
      followed by the new carry are the old carry followed by the encoded
      bytes. */
  lemma AlignConserves(carry: Option<seq<int8>>, encoded: seq<int8>)
    ensures var r := Align(carry, encoded);
      Bytes(r.released) + Bytes(r.carry) == Bytes(carry) + encoded
  {
    var r := Align(carry, encoded);
    var data := Bytes(carry) + encoded;
    if |data| >= FRAME_LENGTH && |data| % FRAME_LENGTH != 0 {
      var n := |data| / FRAME_LENGTH * FRAME_LENGTH;
      assert data[..n] + data[n..] == data;
    }
  }

  /** What is released is a non-empty whole number of frames, and it is
      the most that can be: all whole frames of the merged data. */
  lemma AlignReleasesWholeFrames(carry: Option<seq<int8>>, encoded: seq<int8>)
    ensures var r := Align(carry, encoded);
      var total := |Bytes(carry)| + |encoded|;
      && (r.released.Some? ==> 0 < |r.released.value| && |r.released.value| % FRAME_LENGTH == 0)
      && |Bytes(r.released)| == total / FRAME_LENGTH * FRAME_LENGTH
      && (r.released.Some? <==> total >= FRAME_LENGTH)
  {
    var total := |Bytes(carry)| + |encoded|;
    if total >= FRAME_LENGTH && total % FRAME_LENGTH != 0 {
      var n := total / FRAME_LENGTH * FRAME_LENGTH;
      assert n % FRAME_LENGTH == 0 && FRAME_LENGTH <= n <= total;
    }
  }

  /** The carry stays a partial frame: after any call it is null or holds
      1 to 143 bytes, namely the merged length modulo 144. */
  lemma AlignKeepsPartialFrame(carry: Option<seq<int8>>, encoded: seq<int8>)
    requires PartialFrame(carry)
    ensures var r := Align(carry, encoded);
      PartialFrame(r.carry) && |Bytes(r.carry)| == (|Bytes(carry)| + |encoded|) % FRAME_LENGTH
  {
    var total := |Bytes(carry)| + |encoded|;
    if total >= FRAME_LENGTH && total % FRAME_LENGTH != 0 {
      var n := total / FRAME_LENGTH * FRAME_LENGTH;
      assert total - n == total % FRAME_LENGTH;
    }
  }

  /** With nothing carried and nothing encoded, generate releases nothing
      and keeps the carry null. */
  lemma AlignOfNothing(carry: Option<seq<int8>>)
    requires PartialFrame(carry)
    ensures Align(carry, []) == Release(None, carry)
  {
    if carry.Some? {
      assert carry.value + [] == carry.value;
    }
  }

  // ---------------------------------------------------------------------
  // A run of calls

  /** The bytes released by a run of calls, one per encoded block, and the
      carry left at the end. */
  function Session(carry: Option<seq<int8>>, encoded: seq<seq<int8>>): (r: (seq<int8>, Option<seq<int8>>))
    decreases |encoded|
  {
    if encoded == [] then ([], carry)
    else
      var first := Align(carry, encoded[0]);
      var rest := Session(first.carry, encoded[1..]);
      (Bytes(first.released) + rest.0, rest.1)
  }

  /** Over any run of calls, the released bytes followed by the final
      carry are the initial carry followed by all encoded bytes. */
  lemma {:induction false} SessionConserves(carry: Option<seq<int8>>, encoded: seq<seq<int8>>)
    ensures var r := Session(carry, encoded);
      r.0 + Bytes(r.1) == Bytes(carry) + Concat(encoded)
    decreases |encoded|
  {
    if encoded != [] {
      var first := Align(carry, encoded[0]);
      var rest := Session(first.carry, encoded[1..]);
      assert Session(carry, encoded) == (Bytes(first.released) + rest.0, rest.1);
      AlignConserves(carry, encoded[0]);
      SessionConserves(first.carry, encoded[1..]);
      assert Concat(encoded) == encoded[0] + Concat(encoded[1..]);
      Regroup(Bytes(first.released), Bytes(first.carry), rest.0, Bytes(rest.1), Bytes(carry), encoded[0], Concat(encoded[1..]));
    }
  }

  /** Over any run of calls, the released bytes are whole frames and the
      final carry is a partial frame. */
  lemma {:induction false} SessionAligns(carry: Option<seq<int8>>, encoded: seq<seq<int8>>)
    requires PartialFrame(carry)
    ensures var r := Session(carry, encoded);
      |r.0| % FRAME_LENGTH == 0 && PartialFrame(r.1)
    decreases |encoded|
  {
    if encoded != [] {
      var first := Align(carry, encoded[0]);
      var rest := Session(first.carry, encoded[1..]);
      assert Session(carry, encoded) == (Bytes(first.released) + rest.0, rest.1);
      AlignReleasesWholeFrames(carry, encoded[0]);
      AlignKeepsPartialFrame(carry, encoded[0]);
      SessionAligns(first.carry, encoded[1..]);
      ModAdd(|Bytes(first.released)|, |rest.0|);
    }
  }

  /** Reassociates the two conservation equations of a step and the rest
      of a run into one. */
  lemma Regroup(released: seq<int8>, carried: seq<int8>, later: seq<int8>, final: seq<int8>,
                carry: seq<int8>, block: seq<int8>, blocks: seq<int8>)
    requires released + carried == carry + block
    requires later + final == carried + blocks
    ensures released + later + final == carry + block + blocks
  {
    calc {
      released + later + final;
      released + (carried + blocks);
      (released + carried) + blocks;
    }
  }

  lemma ModAdd(a: nat, b: nat)
    requires a % FRAME_LENGTH == 0 && b % FRAME_LENGTH == 0
    ensures (a + b) % FRAME_LENGTH == 0
  {
  }

  /** Three calls whose encoders produce 100, 50 and 200 bytes, starting
      with no carry: the first releases nothing and carries 100 bytes, the
      second releases one frame and carries 6, the third releases one frame
      and carries 62. */
  lemma ThreeCallExample(a: seq<int8>, b: seq<int8>, c: seq<int8>)
    requires |a| == 100 && |b| == 50 && |c| == 200
    ensures var r1 := Align(None, a);
      var r2 := Align(r1.carry, b);
      var r3 := Align(r2.carry, c);
      && r1.released.None? && |Bytes(r1.carry)| == 100
      && r2.released.Some? && |r2.released.value| == 144 && |Bytes(r2.carry)| == 6
      && r3.released.Some? && |r3.released.value| == 144 && |Bytes(r3.carry)| == 62
  {
  }

  // ---------------------------------------------------------------------
  // The generator

  class MP3SilenceGenerator {
    /** mGenerator */
    const generator: MP3AudioConverter
    /** mPreviousPartialFrameData: the bytes of a partial frame left over
        from the previous call, or null. */
    var previousPartialFrameData: Option<seq<int8>>

    ghost predicate Valid()
      reads this
    {
      generator.Valid() && PartialFrame(previousPartialFrameData)
    }

    /** Builds the converter for the sample rate; the LAME encoder, the
        resampler and the float-to-PCM conversion it uses are supplied. */
    constructor(audioSampleRate: AudioSampleRate, encoder: LameEncoder, resampler: RealResampler, toSigned16: Packet -> seq<int8>)
      requires encoder.Valid()
      ensures Valid() && fresh(generator) && generator.encoder == encoder
      ensures generator.resampler != null <==> audioSampleRate != SR_8000
      ensures previousPartialFrameData.None?
    {
      generator := new MP3AudioConverter(audioSampleRate, encoder, resampler, toSigned16);
      previousPartialFrameData := None;
    }

    /** generate(duration), given the duration as its sample count: encodes
        one packet of that many zero samples, then releases the whole frames
        of the carry and the encoded bytes. An encoder exception from the
        final flush of the conversion propagates and leaves the carry
        alone. */
    method Generate(length: nat) returns (r: Result<Option<seq<int8>>>)
      requires Valid()
      modifies this`previousPartialFrameData, generator.encoder`history, generator.outputFramesBuffer, generator.resampler
      ensures Valid()
      ensures var c := old(generator.ConversionOf([Silence(length)]));
        && generator.encoder.history == c.history
        && (r.Failure? <==> c.result.Failure?)
        && (r.Failure? ==> r.error == EncoderFailure && previousPartialFrameData == old(previousPartialFrameData))
        && (r.Success? ==> Release(r.value, previousPartialFrameData) == Align(old(previousPartialFrameData), Concat(c.result.value)))
    {
      var converted :- generator.Convert([Silence(length)]);
      var frameData := Merge(previousPartialFrameData, Some(Concat(converted)));
      AlignKeepsPartialFrame(previousPartialFrameData, Concat(converted));
      if frameData.Some? && |frameData.value| > 0 {
        if |frameData.value| < FRAME_LENGTH {
          previousPartialFrameData := frameData;
          return Success(None);
        } else if |frameData.value| % FRAME_LENGTH == 0 {
          previousPartialFrameData := None;
          return Success(frameData);
        } else {
          var integralFrameLength := |frameData.value| / FRAME_LENGTH * FRAME_LENGTH;
          previousPartialFrameData := Some(frameData.value[integralFrameLength..]);
          return Success(Some(frameData.value[..integralFrameLength]));
        }
      }
      r := Success(None);
    }
  }

  /** `new float[length]`: a packet of silence. */
  function Silence(length: nat): Packet
  {
    seq(length, _ => 0.0)
  }
}
