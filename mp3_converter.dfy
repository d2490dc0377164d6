/** MP3AudioConverter: resamples audio packets when the output rate is not
    8 kHz, feeds each packet's 16-bit PCM bytes to the LAME encoder in
    chunks no larger than the encoder's PCM buffer, collects every
    non-empty block of encoded frames, and finishes the encoder once at the
    end of each conversion. */
module Mp3Converter {
  import opened JavaTypes
  import opened Lame

  /** AudioSampleRate. */
  datatype AudioSampleRate = SR_8000 | SR_22050 | SR_44100

  // ---------------------------------------------------------------------
  // Chunking of one packet

  /** The chunks the loop hands to encodeBuffer for pcm from byte offset p
      on, with output buffer length B: each is `min(B, len - p)` bytes. */
  function Chunks(pcm: seq<int8>, B: nat, p: nat): seq<seq<int8>>
    requires 0 < B && p <= |pcm|
    decreases |pcm| - p
  {
    if p == |pcm| then []
    else
      var size := Min(B, |pcm| - p);
      [pcm[p..p + size]] + Chunks(pcm, B, p + size)
  }

  /** The chunks cover pcm[p..] exactly, in order, without gaps or
      overlaps. */
  lemma {:induction false} ChunksCover(pcm: seq<int8>, B: nat, p: nat)
    requires 0 < B && p <= |pcm|
    ensures Concat(Chunks(pcm, B, p)) == pcm[p..]
    decreases |pcm| - p
  {
    if p < |pcm| {
      var size := Min(B, |pcm| - p);
      var c := Chunks(pcm, B, p);
      ChunksCover(pcm, B, p + size);
      assert c[1..] == Chunks(pcm, B, p + size);
      assert pcm[p..] == pcm[p..p + size] + pcm[p + size..];
    }
  }

  /** Every chunk is non-empty and at most B bytes; all but the last are
      exactly B bytes. */
  lemma {:induction false} ChunkSizes(pcm: seq<int8>, B: nat, p: nat)
    requires 0 < B && p <= |pcm|
    ensures forall i :: 0 <= i < |Chunks(pcm, B, p)| ==> 0 < |Chunks(pcm, B, p)[i]| <= B
    ensures forall i :: 0 <= i < |Chunks(pcm, B, p)| - 1 ==> |Chunks(pcm, B, p)[i]| == B
    decreases |pcm| - p
  {
    if p < |pcm| {
      var size := Min(B, |pcm| - p);
      var c := Chunks(pcm, B, p);
      var rest := Chunks(pcm, B, p + size);
      ChunkSizes(pcm, B, p + size);
      assert c[0] == pcm[p..p + size];
      if size < B {
        assert rest == [];
      }
      forall i | 0 < i < |c|
        ensures 0 < |c[i]| <= B && (i < |c| - 1 ==> |c[i]| == B)
      {
        assert c[i] == rest[i - 1];
      }
    }
  }

  /** There are ceil((len - p) / B) chunks: k chunks, with k - 1 blocks of
      B bytes falling short of the input and k blocks covering it; none for
      an empty packet. */
  lemma {:induction false} ChunkCount(pcm: seq<int8>, B: nat, p: nat)
    requires 0 < B && p <= |pcm|
    ensures var k := |Chunks(pcm, B, p)|;
      (k == 0 <==> p == |pcm|) && (p < |pcm| ==> (k - 1) * B < |pcm| - p <= k * B)
    decreases |pcm| - p
  {
    var n := |pcm| - p;
    if 0 < n <= B {
      assert Chunks(pcm, B, p + n) == [];
    } else if B < n {
      ChunkCount(pcm, B, p + B);
      var k := |Chunks(pcm, B, p)|;
      assert k == |Chunks(pcm, B, p + B)| + 1;
      assert (k - 1) * B == (k - 2) * B + B;
      assert k * B == (k - 1) * B + B;
    }
  }

  /** The encodeBuffer calls the loop makes for pcm from offset p when
      none throws. */
  function ChunkCalls(pcm: seq<int8>, B: nat, p: nat): seq<Call>
    requires 0 < B && p <= |pcm|
    decreases |pcm| - p
  {
    if p == |pcm| then []
    else
      var size := Min(B, |pcm| - p);
      [EncodeBufferCall(pcm[p..p + size], B)] + ChunkCalls(pcm, B, p + size)
  }

  /** The calls hand the chunks, one each, in order, to the encoder. */
  lemma {:induction false} ChunkCallsAreChunks(pcm: seq<int8>, B: nat, p: nat)
    requires 0 < B && p <= |pcm|
    ensures var calls, c := ChunkCalls(pcm, B, p), Chunks(pcm, B, p);
      |calls| == |c| && forall i :: 0 <= i < |c| ==> calls[i] == EncodeBufferCall(c[i], B)
    decreases |pcm| - p
  {
    if p < |pcm| {
      var size := Min(B, |pcm| - p);
      ChunkCallsAreChunks(pcm, B, p + size);
      var calls, c := ChunkCalls(pcm, B, p), Chunks(pcm, B, p);
      forall i | 0 < i < |c|
        ensures calls[i] == EncodeBufferCall(c[i], B)
      {
        assert calls[i] == ChunkCalls(pcm, B, p + size)[i - 1];
        assert c[i] == Chunks(pcm, B, p + size)[i - 1];
      }
    }
  }

  // ---------------------------------------------------------------------
  // The encoding loops as functions of the encoder's history

  /** The list entry for an encoder response: a copy of its frames when
      there are any, nothing otherwise (nor when the call threw). */
  function Appended(response: Response): (r: seq<seq<int8>>)
    ensures |r| <= 1
    ensures r != [] <==> response.Encoded? && response.frames != []
    ensures r != [] ==> r[0] == response.frames
  {
    if response.Encoded? && |response.frames| > 0 then [response.frames] else []
  }

  /** The list entry keeps every encoded byte of a successful call and adds
      none, and it never holds an empty array. */
  lemma AppendedKeepsFrames(response: Response)
    ensures Concat(Appended(response)) == (if response.Encoded? then response.frames else [])
    ensures forall i :: 0 <= i < |Appended(response)| ==> Appended(response)[i] != []
  {
    if Appended(response) != [] {
      assert Appended(response)[1..] == [];
    }
  }

  /** The list entries produced by `calls`, made after `before`, in call
      order. */
  function Emitted(respond: seq<Call> -> Response, before: seq<Call>, calls: seq<Call>): seq<seq<int8>>
    decreases |calls|
  {
    if calls == [] then []
    else Appended(respond(before + [calls[0]])) + Emitted(respond, before + [calls[0]], calls[1..])
  }

  lemma {:induction false} EmittedAppend(respond: seq<Call> -> Response, before: seq<Call>, a: seq<Call>, b: seq<Call>)
    ensures Emitted(respond, before, a + b) == Emitted(respond, before, a) + Emitted(respond, before + a, b)
    decreases |a|
  {
    if a == [] {
      assert a + b == b && before + a == before;
    } else {
      assert (a + b)[0] == a[0] && (a + b)[1..] == a[1..] + b;
      assert before + [a[0]] + a[1..] == before + a;
      EmittedAppend(respond, before + [a[0]], a[1..], b);
    }
  }

  /** Every list entry holds at least one byte. */
  lemma {:induction false} EmittedNonEmpty(respond: seq<Call> -> Response, before: seq<Call>, calls: seq<Call>)
    ensures forall i :: 0 <= i < |Emitted(respond, before, calls)| ==> Emitted(respond, before, calls)[i] != []
    decreases |calls|
  {
    if calls != [] {
      EmittedNonEmpty(respond, before + [calls[0]], calls[1..]);
    }
  }

  /** The encoder's history and the list after encoding, and whether an
      encoder call threw. */
  datatype Encoding = Encoding(history: seq<Call>, outputs: seq<seq<int8>>, threw: bool)

  /** The `while` loop of convert for one packet from byte offset p inside
      its `try`, appending to the list `converted`: a throwing call ends the
      packet and keeps what was appended. */
  function EncodeFrom(respond: seq<Call> -> Response, history: seq<Call>, converted: seq<seq<int8>>, pcm: seq<int8>, B: nat, p: nat): (e: Encoding)
    requires 0 < B && p <= |pcm|
    ensures history <= e.history
    decreases |pcm| - p
  {
    if p == |pcm| then Encoding(history, converted, false)
    else
      var size := Min(B, |pcm| - p);
      var called := history + [EncodeBufferCall(pcm[p..p + size], B)];
      var response := respond(called);
      if response.Threw? then Encoding(called, converted, true)
      else EncodeFrom(respond, called, converted + Appended(response), pcm, B, p + size)
  }

  /** The `for` loop of convert over the packets' PCM bytes. */
  function EncodePackets(respond: seq<Call> -> Response, history: seq<Call>, converted: seq<seq<int8>>, pcms: seq<seq<int8>>, B: nat): (e: Encoding)
    requires 0 < B
    ensures history <= e.history
    decreases |pcms|
  {
    if pcms == [] then Encoding(history, converted, false)
    else
      var first := EncodeFrom(respond, history, converted, pcms[0], B, 0);
      var rest := EncodePackets(respond, first.history, first.outputs, pcms[1..], B);
      Encoding(rest.history, rest.outputs, first.threw || rest.threw)
  }

  /** The encoder's history after convert, and what convert returns (or
      the exception of encodeFinish, which convert does not catch). */
  datatype Conversion = Conversion(history: seq<Call>, result: Result<seq<seq<int8>>>)

  /** convert on the packets' PCM bytes: the packet loop, then one
      encodeFinish into the same buffer. */
  function ConvertRun(respond: seq<Call> -> Response, history: seq<Call>, pcms: seq<seq<int8>>, B: nat): Conversion
    requires 0 < B
  {
    var encoded := EncodePackets(respond, history, [], pcms, B);
    var finished := encoded.history + [EncodeFinishCall(B)];
    var response := respond(finished);
    if response.Threw? then Conversion(finished, Failure(EncoderFailure))
    else Conversion(finished, Success(encoded.outputs + Appended(response)))
  }

  // ---------------------------------------------------------------------
  // What the loops do to the encoder

  /** One packet's calls are a prefix of its chunk calls: all of them
      when none throws, at least the first when the packet is non-empty. */
  lemma EncodeFromCalls(respond: seq<Call> -> Response, history: seq<Call>, converted: seq<seq<int8>>, pcm: seq<int8>, B: nat, p: nat)
    requires 0 < B && p <= |pcm|
    ensures var e := EncodeFrom(respond, history, converted, pcm, B, p);
      && e.history <= history + ChunkCalls(pcm, B, p)
      && (p < |pcm| ==> |history| < |e.history|)
      && (!e.threw ==> e.history == history + ChunkCalls(pcm, B, p))
  {
    EncodeFromCallsPrefix(respond, history, converted, pcm, B, p);
    EncodeFromCallsAll(respond, history, converted, pcm, B, p);
  }

  /** The calls for pcm from p on: the first chunk's, then the rest. */
  lemma ChunkCallsUnfold(history: seq<Call>, pcm: seq<int8>, B: nat, p: nat)
    requires 0 < B && p < |pcm|
    ensures var size := Min(B, |pcm| - p);
      history + ChunkCalls(pcm, B, p)
        == (history + [EncodeBufferCall(pcm[p..p + size], B)]) + ChunkCalls(pcm, B, p + size)
  {
  }

  lemma {:induction false} EncodeFromCallsPrefix(respond: seq<Call> -> Response, history: seq<Call>, converted: seq<seq<int8>>, pcm: seq<int8>, B: nat, p: nat)
    requires 0 < B && p <= |pcm|
    ensures var e := EncodeFrom(respond, history, converted, pcm, B, p);
      e.history <= history + ChunkCalls(pcm, B, p) && (p < |pcm| ==> |history| < |e.history|)
    decreases |pcm| - p
  {
    if p < |pcm| {
      var size := Min(B, |pcm| - p);
      var called := history + [EncodeBufferCall(pcm[p..p + size], B)];
      var rest := ChunkCalls(pcm, B, p + size);
      var e := EncodeFrom(respond, history, converted, pcm, B, p);
      ChunkCallsUnfold(history, pcm, B, p);
      if respond(called).Encoded? {
        var next := converted + Appended(respond(called));
        assert e == EncodeFrom(respond, called, next, pcm, B, p + size);
        EncodeFromCallsPrefix(respond, called, next, pcm, B, p + size);
        assert |called| <= |e.history|;
      } else {
        assert e.history == called;
      }
    }
  }

  lemma {:induction false} EncodeFromCallsAll(respond: seq<Call> -> Response, history: seq<Call>, converted: seq<seq<int8>>, pcm: seq<int8>, B: nat, p: nat)
    requires 0 < B && p <= |pcm|
    ensures var e := EncodeFrom(respond, history, converted, pcm, B, p);
      !e.threw ==> e.history == history + ChunkCalls(pcm, B, p)
    decreases |pcm| - p
  {
    if p < |pcm| {
      var size := Min(B, |pcm| - p);
      var called := history + [EncodeBufferCall(pcm[p..p + size], B)];
      if respond(called).Encoded? {
        var next := converted + Appended(respond(called));
        var e, later := EncodeFrom(respond, history, converted, pcm, B, p), EncodeFrom(respond, called, next, pcm, B, p + size);
        assert e == later;
        EncodeFromCallsAll(respond, called, next, pcm, B, p + size);
        assert history + ChunkCalls(pcm, B, p) == called + ChunkCalls(pcm, B, p + size) by {
          ChunkCallsUnfold(history, pcm, B, p);
        }
      }
    } else {
      assert history + [] == history;
    }
  }

  /** A packet's calls stop at the first one that throws: every call
      before the last was answered, and the last threw exactly when the
      packet reports a throw. */
  lemma {:induction false} EncodeFromStopsAtThrow(respond: seq<Call> -> Response, history: seq<Call>, converted: seq<seq<int8>>, pcm: seq<int8>, B: nat, p: nat)
    requires 0 < B && p <= |pcm|
    ensures var e := EncodeFrom(respond, history, converted, pcm, B, p);
      && (e.threw <==> |history| < |e.history| && respond(e.history).Threw?)
      && (forall j :: |history| < j < |e.history| ==> respond(e.history[..j]).Encoded?)
    decreases |pcm| - p
  {
    if p < |pcm| {
      var size := Min(B, |pcm| - p);
      var called := history + [EncodeBufferCall(pcm[p..p + size], B)];
      if respond(called).Encoded? {
        var next := converted + Appended(respond(called));
        EncodeFromStopsAtThrow(respond, called, next, pcm, B, p + size);
        var e := EncodeFrom(respond, history, converted, pcm, B, p);
        assert e == EncodeFrom(respond, called, next, pcm, B, p + size);
        if |e.history| > |called| {
          assert e.history[..|called|] == called;
        }
      }
    }
  }

  /** One packet appends to the list the non-empty responses to its calls,
      in call order, and keeps what the list held. */
  lemma {:induction false} EncodeFromEmits(respond: seq<Call> -> Response, history: seq<Call>, converted: seq<seq<int8>>, pcm: seq<int8>, B: nat, p: nat)
    requires 0 < B && p <= |pcm|
    ensures var e := EncodeFrom(respond, history, converted, pcm, B, p);
      e.outputs == converted + Emitted(respond, history, e.history[|history|..])
    decreases |pcm| - p
  {
    var e := EncodeFrom(respond, history, converted, pcm, B, p);
    if p < |pcm| {
      var size := Min(B, |pcm| - p);
      var called := history + [EncodeBufferCall(pcm[p..p + size], B)];
      if respond(called).Threw? {
        assert e.history == called && e.outputs == converted;
        assert called[|called|..] == [] && Appended(respond(called)) == [];
        assert converted + Appended(respond(called)) + Emitted(respond, called, called[|called|..]) == converted;
        EmittedAfter(respond, history, EncodeBufferCall(pcm[p..p + size], B), called, converted, converted);
      } else {
        var next := converted + Appended(respond(called));
        assert e == EncodeFrom(respond, called, next, pcm, B, p + size);
        EncodeFromEmits(respond, called, next, pcm, B, p + size);
        EmittedAfter(respond, history, EncodeBufferCall(pcm[p..p + size], B), e.history, e.outputs, converted);
      }
    } else {
      assert e.history[|history|..] == [];
    }
  }

  /** When one call `called` follows `history` and the outputs after it are
      its entry followed by the entries of the later calls, the outputs are
      the entries of all calls after `history`. */
  lemma EmittedAfter(respond: seq<Call> -> Response, history: seq<Call>, c: Call, h: seq<Call>,
                     outputs: seq<seq<int8>>, converted: seq<seq<int8>>)
    requires history + [c] <= h
    requires outputs == converted + Appended(respond(history + [c])) + Emitted(respond, history + [c], h[|history| + 1..])
    ensures outputs == converted + Emitted(respond, history, h[|history|..])
  {
    var rest := h[|history| + 1..];
    var first := Appended(respond(history + [c]));
    var later := Emitted(respond, history + [c], rest);
    assert Emitted(respond, history, h[|history|..]) == first + later by {
      PrefixSplit(history, c, h);
      EmittedCons(respond, history, c, rest);
    }
    Associative(converted, first, later);
  }

  lemma Associative(a: seq<seq<int8>>, b: seq<seq<int8>>, c: seq<seq<int8>>)
    ensures a + b + c == a + (b + c)
  {
  }

  lemma PrefixSplit(history: seq<Call>, c: Call, h: seq<Call>)
    requires history + [c] <= h
    ensures h[|history|..] == [c] + h[|history| + 1..]
  {
    assert h[|history|] == (history + [c])[|history|];
  }

  lemma EmittedCons(respond: seq<Call> -> Response, history: seq<Call>, c: Call, rest: seq<Call>)
    ensures Emitted(respond, history, [c] + rest)
      == Appended(respond(history + [c])) + Emitted(respond, history + [c], rest)
  {
    assert ([c] + rest)[0] == c && ([c] + rest)[1..] == rest;
  }

  /** All the packets append to the list the non-empty responses to all
      their calls, in call order: packet order, then chunk order. */
  lemma {:induction false} EncodePacketsEmits(respond: seq<Call> -> Response, history: seq<Call>, converted: seq<seq<int8>>, pcms: seq<seq<int8>>, B: nat)
    requires 0 < B
    ensures var e := EncodePackets(respond, history, converted, pcms, B);
      e.outputs == converted + Emitted(respond, history, e.history[|history|..])
    decreases |pcms|
  {
    if pcms != [] {
      var first := EncodeFrom(respond, history, converted, pcms[0], B, 0);
      var e := EncodePackets(respond, history, converted, pcms, B);
      EncodeFromEmits(respond, history, converted, pcms[0], B, 0);
      EncodePacketsEmits(respond, first.history, first.outputs, pcms[1..], B);
      var a := first.history[|history|..];
      var b := e.history[|first.history|..];
      assert e.history[|history|..] == a + b;
      assert history + a == first.history;
      EmittedAppend(respond, history, a, b);
    }
  }

  /** Only encodeBuffer calls are made while the packets are encoded. */
  ghost predicate BufferCallsOnly(calls: seq<Call>)
  {
    forall j :: 0 <= j < |calls| ==> calls[j].EncodeBufferCall?
  }

  lemma {:induction false} ChunkCallsAreBufferCalls(pcm: seq<int8>, B: nat, p: nat)
    requires 0 < B && p <= |pcm|
    ensures BufferCallsOnly(ChunkCalls(pcm, B, p))
    decreases |pcm| - p
  {
    if p < |pcm| {
      ChunkCallsAreBufferCalls(pcm, B, p + Min(B, |pcm| - p));
    }
  }

  lemma {:induction false} EncodePacketsCallsOnlyBuffers(respond: seq<Call> -> Response, history: seq<Call>, converted: seq<seq<int8>>, pcms: seq<seq<int8>>, B: nat)
    requires 0 < B
    ensures BufferCallsOnly(EncodePackets(respond, history, converted, pcms, B).history[|history|..])
    decreases |pcms|
  {
    if pcms != [] {
      var first := EncodeFrom(respond, history, converted, pcms[0], B, 0);
      var e := EncodePackets(respond, history, converted, pcms, B);
      EncodeFromCalls(respond, history, converted, pcms[0], B, 0);
      ChunkCallsAreBufferCalls(pcms[0], B, 0);
      EncodePacketsCallsOnlyBuffers(respond, first.history, first.outputs, pcms[1..], B);
      var calls := ChunkCalls(pcms[0], B, 0);
      forall j | |history| <= j < |e.history|
        ensures e.history[j].EncodeBufferCall?
      {
        if j < |first.history| {
          assert e.history[j] == first.history[j] == (history + calls)[j];
          assert calls[j - |history|].EncodeBufferCall?;
        } else {
          assert e.history[j] == e.history[|first.history|..][j - |first.history|];
        }
      }
    }
  }

  /** A throw abandons only the rest of its own packet: the first chunk of
      every non-empty packet is handed to the encoder, whatever happened to
      the packets before it. */
  lemma {:induction false} EveryPacketIsStarted(respond: seq<Call> -> Response, history: seq<Call>, converted: seq<seq<int8>>, pcms: seq<seq<int8>>, B: nat, i: nat)
    requires 0 < B && i < |pcms| && pcms[i] != []
    ensures EncodeBufferCall(Chunks(pcms[i], B, 0)[0], B) in EncodePackets(respond, history, converted, pcms, B).history[|history|..]
    decreases i
  {
    var c := EncodeBufferCall(Chunks(pcms[i], B, 0)[0], B);
    var first := EncodeFrom(respond, history, converted, pcms[0], B, 0);
    var e := EncodePackets(respond, history, converted, pcms, B);
    assert first.history <= e.history by {
      assert e.history == EncodePackets(respond, first.history, first.outputs, pcms[1..], B).history;
    }
    if i == 0 {
      FirstCall(respond, history, converted, pcms[0], B);
      assert e.history[|history|..][0] == c;
    } else {
      assert pcms[1..][i - 1] == pcms[i];
      assert c in e.history[|first.history|..] by {
        assert e.history == EncodePackets(respond, first.history, first.outputs, pcms[1..], B).history;
        EveryPacketIsStarted(respond, first.history, first.outputs, pcms[1..], B, i - 1);
      }
      InSuffix(history, first.history, e.history, c);
    }
  }

  /** The first call a non-empty packet makes hands over its first chunk. */
  lemma FirstCall(respond: seq<Call> -> Response, history: seq<Call>, converted: seq<seq<int8>>, pcm: seq<int8>, B: nat)
    requires 0 < B && pcm != []
    ensures var e := EncodeFrom(respond, history, converted, pcm, B, 0);
      |history| < |e.history| && e.history[|history|] == EncodeBufferCall(Chunks(pcm, B, 0)[0], B)
  {
    var size := Min(B, |pcm|);
    var called := history + [EncodeBufferCall(pcm[0..size], B)];
    assert Chunks(pcm, B, 0)[0] == pcm[0..size];
    assert called <= EncodeFrom(respond, history, converted, pcm, B, 0).history;
    assert called[|history|] == EncodeBufferCall(pcm[0..size], B);
  }

  /** A call made after mid is a call made after any earlier point. */
  lemma InSuffix(history: seq<Call>, mid: seq<Call>, h: seq<Call>, c: Call)
    requires history <= mid <= h && c in h[|mid|..]
    ensures c in h[|history|..]
  {
    var k :| 0 <= k < |h[|mid|..]| && h[|mid|..][k] == c;
    assert h[|history|..][|mid| - |history| + k] == c;
  }

  /** When no call throws, the encoder sees every chunk of every packet,
      packet by packet. */
  lemma {:induction false} PacketsWithoutThrowsCallEveryChunk(respond: seq<Call> -> Response, history: seq<Call>, converted: seq<seq<int8>>, pcms: seq<seq<int8>>, B: nat)
    requires 0 < B
    ensures var e := EncodePackets(respond, history, converted, pcms, B);
      !e.threw ==> e.history == history + AllChunkCalls(pcms, B)
    decreases |pcms|
  {
    if pcms != [] {
      var first := EncodeFrom(respond, history, converted, pcms[0], B, 0);
      EncodeFromCalls(respond, history, converted, pcms[0], B, 0);
      PacketsWithoutThrowsCallEveryChunk(respond, first.history, first.outputs, pcms[1..], B);
    }
  }

  /** The calls for every chunk of every packet, in order. */
  function AllChunkCalls(pcms: seq<seq<int8>>, B: nat): seq<Call>
    requires 0 < B
  {
    if pcms == [] then [] else ChunkCalls(pcms[0], B, 0) + AllChunkCalls(pcms[1..], B)
  }

  /** convert makes exactly one encodeFinish call, after every
      encodeBuffer call, and fails exactly when that call throws. */
  lemma ConvertRunFinishesOnce(respond: seq<Call> -> Response, history: seq<Call>, pcms: seq<seq<int8>>, B: nat)
    requires 0 < B
    ensures var c := ConvertRun(respond, history, pcms, B);
      && |history| < |c.history| && c.history[..|history|] == history
      && c.history[|c.history| - 1] == EncodeFinishCall(B)
      && BufferCallsOnly(c.history[|history|..|c.history| - 1])
      && (c.result.Failure? <==> respond(c.history).Threw?)
  {
    var e := EncodePackets(respond, history, [], pcms, B);
    var c := ConvertRun(respond, history, pcms, B);
    EncodePacketsCallsOnlyBuffers(respond, history, [], pcms, B);
    assert c.history[|history|..|c.history| - 1] == e.history[|history|..];
  }

  /** What convert returns is the non-empty responses to all its calls, in
      call order: packet order, chunk order, then the final flush. */
  lemma ConvertRunEmits(respond: seq<Call> -> Response, history: seq<Call>, pcms: seq<seq<int8>>, B: nat)
    requires 0 < B
    ensures var c := ConvertRun(respond, history, pcms, B);
      |history| < |c.history| &&
      (c.result.Success? ==> c.result.value == Emitted(respond, history, c.history[|history|..]))
  {
    var e := EncodePackets(respond, history, [], pcms, B);
    var c := ConvertRun(respond, history, pcms, B);
    EncodePacketsEmits(respond, history, [], pcms, B);
    var a := e.history[|history|..];
    assert c.history[|history|..] == a + [EncodeFinishCall(B)];
    assert history + a == e.history;
    EmittedAppend(respond, history, a, [EncodeFinishCall(B)]);
    assert Emitted(respond, e.history, [EncodeFinishCall(B)]) == Appended(respond(c.history));
  }

  /** The PCM bytes of each packet (ConversionUtils.convertToSigned16BitSamples). */
  function Pcms(toSigned16: Packet -> seq<int8>, packets: seq<Packet>): seq<seq<int8>>
  {
    seq(|packets|, i requires 0 <= i < |packets| => toSigned16(packets[i]))
  }

  // ---------------------------------------------------------------------
  // The converter

  class MP3AudioConverter {
    /** mEncoder */
    const encoder: LameEncoder
    /** mResampler: null at 8 kHz. */
    const resampler: RealResampler?
    /** mOutputFramesBuffer, getPCMBufferSize() bytes long. */
    const outputFramesBuffer: array<int8>
    /** ConversionUtils.convertToSigned16BitSamples, a foreign conversion. */
    const toSigned16: Packet -> seq<int8>

    ghost predicate Valid()
    {
      encoder.Valid() && outputFramesBuffer.Length == encoder.pcmBufferSize
    }

    /** Sets up the encoder for the rate, and a resampler unless the rate
        is 8 kHz. The encoder and the resampler come from LameFactory. */
    constructor(audioSampleRate: AudioSampleRate, encoder: LameEncoder, resampler: RealResampler, toSigned16: Packet -> seq<int8>)
      requires encoder.Valid()
      ensures Valid() && fresh(outputFramesBuffer)
      ensures this.encoder == encoder && this.toSigned16 == toSigned16
      ensures this.resampler != null <==> audioSampleRate != SR_8000
      ensures this.resampler != null ==> this.resampler == resampler
    {
      this.encoder := encoder;
      this.resampler := if audioSampleRate != SR_8000 then resampler else null;
      this.outputFramesBuffer := new int8[encoder.pcmBufferSize];
      this.toSigned16 := toSigned16;
    }

    /** The packets handed to the encoder: the input itself without a
        resampler, else what the resampler answers to it. */
    ghost function Resampled(audioPackets: seq<Packet>): seq<Packet>
      reads this, resampler
    {
      if resampler == null then audioPackets else resampler.respond(resampler.history + [audioPackets])
    }

    /** What convert(audioPackets) does from the current state. */
    ghost function ConversionOf(audioPackets: seq<Packet>): Conversion
      reads this, encoder, resampler
      requires Valid()
    {
      ConvertRun(encoder.respond, encoder.history, Pcms(toSigned16, Resampled(audioPackets)), encoder.pcmBufferSize)
    }

    /** convert(audioPackets). */
    method Convert(audioPackets: seq<Packet>) returns (r: Result<seq<seq<int8>>>)
      requires Valid()
      modifies encoder`history, outputFramesBuffer, resampler
      ensures resampler != null ==> resampler.history == old(resampler.history) + [audioPackets]
      ensures encoder.history == old(ConversionOf(audioPackets)).history
      ensures r == old(ConversionOf(audioPackets)).result
    {
      ghost var planned := ConversionOf(audioPackets);
      ghost var start := encoder.history;
      var packets := audioPackets;
      if resampler != null {
        packets := resampler.Resample(packets);
      }
      assert packets == old(Resampled(audioPackets));
      ghost var encoded := EncodePackets(encoder.respond, encoder.history, [], Pcms(toSigned16, packets), outputFramesBuffer.Length);
      var converted := ConvertPackets(packets);
      assert encoder.history == encoded.history && converted == encoded.outputs;
      assert planned == ConvertRun(encoder.respond, start, Pcms(toSigned16, packets), outputFramesBuffer.Length);
      var finalChunkSize :- encoder.EncodeFinish(outputFramesBuffer);
      ghost var response := encoder.respond(encoder.history);
      if finalChunkSize > 0 {
        converted := converted + [outputFramesBuffer[..finalChunkSize]];
      }
      assert converted == encoded.outputs + Appended(response);
      r := Success(converted);
    }

    /** The packet loop of convert. */
    method ConvertPackets(packets: seq<Packet>) returns (converted: seq<seq<int8>>)
      requires Valid()
      modifies encoder`history, outputFramesBuffer
      ensures var e := EncodePackets(encoder.respond, old(encoder.history), [], Pcms(toSigned16, packets), outputFramesBuffer.Length);
        encoder.history == e.history && converted == e.outputs
    {
      ghost var pcms := Pcms(toSigned16, packets);
      ghost var target := EncodePackets(encoder.respond, encoder.history, [], pcms, outputFramesBuffer.Length);
      converted := [];
      var x := 0;
      while x < |packets|
        invariant x <= |packets|
        invariant var rest := EncodePackets(encoder.respond, encoder.history, converted, pcms[x..], outputFramesBuffer.Length);
          rest.history == target.history && rest.outputs == target.outputs
      {
        var bytesToEncode := toSigned16(packets[x]);
        assert pcms[x..] == [bytesToEncode] + pcms[x + 1..];
        converted := EncodePacket(bytesToEncode, converted);
        x := x + 1;
      }
      assert pcms[x..] == [];
    }

    /** One pass of the packet loop: the `try` around the chunk loop. An
        encoder exception ends this packet and keeps what was appended.
        The PCM bytes are only read, so they are passed as a value. */
    method EncodePacket(bytesToEncode: seq<int8>, converted: seq<seq<int8>>) returns (result: seq<seq<int8>>)
      requires Valid()
      modifies encoder`history, outputFramesBuffer
      ensures var e := EncodeFrom(encoder.respond, old(encoder.history), converted, bytesToEncode, outputFramesBuffer.Length, 0);
        encoder.history == e.history && result == e.outputs
    {
      ghost var target := EncodeFrom(encoder.respond, encoder.history, converted, bytesToEncode, outputFramesBuffer.Length, 0);
      var bytesToEncodePointer := 0;
      var inputChunkSize := Min(outputFramesBuffer.Length, |bytesToEncode|);
      result := converted;
      while bytesToEncodePointer < |bytesToEncode|
        invariant bytesToEncodePointer <= |bytesToEncode|
        invariant inputChunkSize == Min(outputFramesBuffer.Length, |bytesToEncode| - bytesToEncodePointer)
        invariant EncodeFrom(encoder.respond, encoder.history, result, bytesToEncode, outputFramesBuffer.Length, bytesToEncodePointer) == target
        decreases |bytesToEncode| - bytesToEncodePointer
      {
        var encoded := EncodeChunk(bytesToEncode, bytesToEncodePointer, inputChunkSize, result);
        if encoded.Failure? {
          return;
        }
        result := encoded.value;
        bytesToEncodePointer := bytesToEncodePointer + inputChunkSize;
        inputChunkSize := Min(outputFramesBuffer.Length, |bytesToEncode| - bytesToEncodePointer);
      }
    }

    /** encodeBuffer on one chunk, and the list entry for its output: a
        copy of exactly the bytes the encoder wrote, when there are any. */
    method EncodeChunk(bytesToEncode: seq<int8>, pointer: nat, inputChunkSize: nat, converted: seq<seq<int8>>)
      returns (r: Result<seq<seq<int8>>>)
      requires Valid() && pointer + inputChunkSize <= |bytesToEncode|
      modifies encoder`history, outputFramesBuffer
      ensures encoder.history == old(encoder.history) + [EncodeBufferCall(bytesToEncode[pointer..pointer + inputChunkSize], outputFramesBuffer.Length)]
      ensures r.Failure? <==> encoder.respond(encoder.history).Threw?
      ensures r.Success? ==> r.value == converted + Appended(encoder.respond(encoder.history))
    {
      var outputChunkSize :- encoder.EncodeBuffer(bytesToEncode, pointer, inputChunkSize, outputFramesBuffer);
      if outputChunkSize > 0 {
        return Success(converted + [outputFramesBuffer[..outputChunkSize]]);
      }
      r := Success(converted);
    }

    /** flush(): finishes the encoder into a fresh getMP3BufferSize() buffer
        and returns the bytes it wrote as a single entry, or nothing. */
    method Flush() returns (r: Result<seq<seq<int8>>>)
      requires Valid()
      modifies encoder`history
      ensures encoder.history == old(encoder.history) + [EncodeFinishCall(encoder.mp3BufferSize)]
      ensures r.Failure? <==> encoder.respond(encoder.history).Threw?
      ensures r.Success? ==> r.value == Appended(encoder.respond(encoder.history))
    {
      var lastPartialFrame := new int8[encoder.mp3BufferSize];
      var length :- encoder.EncodeFinish(lastPartialFrame);
      var frame := lastPartialFrame[..length];
      if |frame| == 0 {
        return Success([]);
      }
      r := Success([frame]);
    }
  }
}
