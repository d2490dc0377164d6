/** The two foreign components the MP3 converter drives: the LAME encoder
    and the resampler. Neither's internals are modelled; each is an oracle
    whose answer is an arbitrary, fixed function of every call made to it
    so far, which is how a stateful library looks from the outside. */
module Lame {
  import opened JavaTypes

  /** One packet of audio samples (a `float[]`). */
  type Packet = seq<real>

  /** A call made to the encoder, with the capacity of the output buffer it
      was handed. */
  datatype Call =
    | EncodeBufferCall(pcm: seq<int8>, capacity: nat)   // encodeBuffer(bytes, offset, length, out)
    | EncodeFinishCall(capacity: nat)                   // encodeFinish(out)

  /** What the encoder does on a call: write `frames` to the front of the
      output buffer and return their count, or throw. */
  datatype Response = Encoded(frames: seq<int8>) | Threw

  /** The encoder never writes past the output buffer it was handed. */
  ghost predicate Fits(history: seq<Call>, response: Response)
  {
    history != [] && response.Encoded? ==> |response.frames| <= history[|history| - 1].capacity
  }

  /** LameEncoder: `respond` maps the whole call history, ending with the
      current call, to the encoder's answer. */
  class LameEncoder {
    const respond: seq<Call> -> Response
    /** getPCMBufferSize() */
    const pcmBufferSize: nat
    /** getMP3BufferSize() */
    const mp3BufferSize: nat
    /** Every call made so far, oldest first. */
    var history: seq<Call>

    /** The two assumptions made of the encoder: a positive PCM buffer size
        (with 0 the chunk loop of convert would never advance) and answers
        that never write past the buffer handed over. */
    ghost predicate Valid()
    {
      0 < pcmBufferSize && forall h :: Fits(h, respond(h))
    }

    constructor(respond: seq<Call> -> Response, pcmBufferSize: nat, mp3BufferSize: nat)
      requires 0 < pcmBufferSize && forall h :: Fits(h, respond(h))
      ensures Valid() && history == []
      ensures this.respond == respond && this.pcmBufferSize == pcmBufferSize && this.mp3BufferSize == mp3BufferSize
    {
      this.respond := respond;
      this.pcmBufferSize := pcmBufferSize;
      this.mp3BufferSize := mp3BufferSize;
      history := [];
    }

    /** encodeBuffer(input, offset, length, output): encodes
        input[offset..offset + length], writing the encoded bytes to the
        front of output and returning how many there are. */
    method EncodeBuffer(input: seq<int8>, offset: nat, length: nat, output: array<int8>) returns (r: Result<nat>)
      requires Valid() && offset + length <= |input|
      modifies this`history, output
      ensures history == old(history) + [EncodeBufferCall(input[offset..offset + length], output.Length)]
      ensures r.Failure? <==> respond(history).Threw?
      ensures r.Failure? ==> r.error == EncoderFailure
      ensures r.Success? ==> r.value == |respond(history).frames| <= output.Length
      ensures r.Success? ==> output[..r.value] == respond(history).frames
    {
      history := history + [EncodeBufferCall(input[offset..offset + length], output.Length)];
      r := Answer(respond(history), output);
    }

    /** encodeFinish(output): flushes what the encoder still holds to the
        front of output and returns how many bytes that is. */
    method EncodeFinish(output: array<int8>) returns (r: Result<nat>)
      requires Valid()
      modifies this`history, output
      ensures history == old(history) + [EncodeFinishCall(output.Length)]
      ensures r.Failure? <==> respond(history).Threw?
      ensures r.Failure? ==> r.error == EncoderFailure
      ensures r.Success? ==> r.value == |respond(history).frames| <= output.Length
      ensures r.Success? ==> output[..r.value] == respond(history).frames
    {
      history := history + [EncodeFinishCall(output.Length)];
      r := Answer(respond(history), output);
    }

    /** Delivers a response that fits the output buffer. */
    static method Answer(response: Response, output: array<int8>) returns (r: Result<nat>)
      requires response.Encoded? ==> |response.frames| <= output.Length
      modifies output
      ensures r.Failure? <==> response.Threw?
      ensures r.Failure? ==> r.error == EncoderFailure
      ensures r.Success? ==> r.value == |response.frames| && output[..r.value] == response.frames
    {
      if response.Threw? {
        return Failure(EncoderFailure);
      }
      var frames := response.frames;
      forall i | 0 <= i < |frames| {
        output[i] := frames[i];
      }
      r := Success(|frames|);
    }
  }

  /** RealResampler: `respond` maps every packet list handed to it so far,
      ending with the current one, to the resampled packets. */
  class RealResampler {
    const respond: seq<seq<Packet>> -> seq<Packet>
    var history: seq<seq<Packet>>

    constructor(respond: seq<seq<Packet>> -> seq<Packet>)
      ensures this.respond == respond && history == []
    {
      this.respond := respond;
      history := [];
    }

    /** resample(packets) */
    method Resample(packets: seq<Packet>) returns (r: seq<Packet>)
      modifies this`history
      ensures history == old(history) + [packets]
      ensures r == respond(history)
    {
      history := history + [packets];
      r := respond(history);
    }
  }
}
