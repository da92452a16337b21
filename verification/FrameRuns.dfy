/** The receive buffer over many reads: when the payloads callers see are those of the stream. */
module FrameRuns {
  import opened Bytes
  import opened FrameBuffer
  import opened Framing

  /** What the decoder's views show over all reads. */
  function AllDelivered(rest: seq<byte>, chunks: seq<seq<byte>>): seq<seq<byte>>
    decreases |chunks|
  {
    if chunks == [] then []
    else Delivered(rest + chunks[0]) + AllDelivered(SplitStream(rest + chunks[0]).rest, chunks[1..])
  }

  /** No read leaves a tail that reaches back into a payload of the same read. */
  ghost predicate CleanReads(rest: seq<byte>, chunks: seq<seq<byte>>)
    decreases |chunks|
  {
    chunks == [] ||
    (!Exposed(rest + chunks[0]) && CleanReads(SplitStream(rest + chunks[0]).rest, chunks[1..]))
  }

  lemma {:induction false} CleanReadsExact(rest: seq<byte>, chunks: seq<seq<byte>>)
    requires CleanReads(rest, chunks)
    ensures AllDelivered(rest, chunks) == FeedAll(rest, chunks).frames
    decreases |chunks|
  {
    if chunks != [] {
      UnexposedExact(rest + chunks[0]);
      CleanReadsExact(SplitStream(rest + chunks[0]).rest, chunks[1..]);
    }
  }

  // ----- The exact condition ----------------------------------------------------------------

  /** Two runs whose reads have, one by one, the same layout. */
  ghost predicate SameLayouts(rest: seq<byte>, chunks: seq<seq<byte>>, other: seq<byte>, others: seq<seq<byte>>)
    decreases |chunks|
  {
    && |chunks| == |others|
    && (chunks != [] ==>
          var s, t := rest + chunks[0], other + others[0];
          SameLayout(s, t) && SameLayouts(SplitStream(s).rest, chunks[1..], SplitStream(t).rest, others[1..]))
  }

  lemma {:induction false} SameLayoutsSelf(rest: seq<byte>, chunks: seq<seq<byte>>)
    ensures SameLayouts(rest, chunks, rest, chunks)
    decreases |chunks|
  {
    if chunks != [] {
      SameLayoutsSelf(SplitStream(rest + chunks[0]).rest, chunks[1..]);
    }
  }

  lemma {:induction false} SameLayoutsClean(rest: seq<byte>, chunks: seq<seq<byte>>,
                                            other: seq<byte>, others: seq<seq<byte>>)
    requires SameLayouts(rest, chunks, other, others) && CleanReads(rest, chunks)
    ensures CleanReads(other, others)
    decreases |chunks|
  {
    if chunks != [] {
      var s, t := rest + chunks[0], other + others[0];
      SameLayoutSameExposure(s, t);
      SameLayoutsClean(SplitStream(s).rest, chunks[1..], SplitStream(t).rest, others[1..]);
    }
  }

  /** Views lie where the lengths of the frames put them. */
  lemma SpansByLength(f: seq<byte>, g: seq<byte>, more: seq<seq<byte>>)
    requires |f| == |g|
    ensures Spans([f] + more) == Spans([g] + more)
  {
    var a, b := [f] + more, [g] + more;
    forall k | 0 <= k < |a|
      ensures Spans(a)[k] == Spans(b)[k]
    {
      if k > 0 {
        assert a[..k] == [f] + more[..k - 1] && b[..k] == [g] + more[..k - 1];
        assert a[..k][1..] == b[..k][1..];
      }
    }
  }

  /** A byte behind the first length moves no frame, in the first frame or in an incomplete one. */
  lemma FirstFrameByte(s: seq<byte>, p: nat, v: byte)
    requires HEADER_SIZE <= p < |s|
    requires ReadInt32BE(s) > MAX_FRAME_SIZE || p < HEADER_SIZE + ReadInt32BE(s)
    ensures SameLayout(s, s[p := v])
    ensures if SplitStream(s).frames == [] then SplitStream(s) == Split([], s, SplitStream(s).valid) &&
                                                SplitStream(s[p := v]) == Split([], s[p := v], SplitStream(s).valid)
            else SplitStream(s[p := v]).rest == SplitStream(s).rest
  {
    var t := s[p := v];
    assert t[..HEADER_SIZE] == s[..HEADER_SIZE];
    var n := ReadInt32BE(s);
    if n <= MAX_FRAME_SIZE && HEADER_SIZE + n <= |s| {
      SplitStep(s, n);
      SplitStep(t, n);
      assert t[HEADER_SIZE + n..] == s[HEADER_SIZE + n..];
      SpansByLength(s[HEADER_SIZE..HEADER_SIZE + n], t[HEADER_SIZE..HEADER_SIZE + n],
                    SplitStream(s[HEADER_SIZE + n..]).frames);
    }
  }

  /** A byte of an incomplete frame changes the layout of no later read. */
  lemma {:induction false} TailByteFree(rest: seq<byte>, chunks: seq<seq<byte>>, p: nat, v: byte)
    requires SplitStream(rest).frames == [] && HEADER_SIZE <= p < |rest|
    ensures SameLayouts(rest, chunks, rest[p := v], chunks)
    decreases |chunks|
  {
    if chunks != [] {
      var s := rest + chunks[0];
      assert s[..HEADER_SIZE] == rest[..HEADER_SIZE];
      assert rest[p := v] + chunks[0] == s[p := v];
      FirstFrameByte(s, p, v);
      if SplitStream(s).frames == [] {
        TailByteFree(s, chunks[1..], p, v);
      } else {
        SameLayoutsSelf(SplitStream(s).rest, chunks[1..]);
      }
    }
  }

  /** What was left of earlier reads lies within the frames of the next read that completes any. */
  lemma RestWithinFrames(rest: seq<byte>, chunk: seq<byte>)
    requires SplitStream(rest).frames == [] && SplitStream(rest + chunk).frames != []
    ensures |rest| <= |Wire(SplitStream(rest + chunk).frames)|
  {
    var s := rest + chunk;
    var n := ReadInt32BE(s);
    if |rest| >= HEADER_SIZE {
      assert s[..HEADER_SIZE] == rest[..HEADER_SIZE];
    }
    var frames := SplitStream(s).frames;
    assert |frames[0]| == n;
    assert |Wire(frames)| >= HEADER_SIZE + n;
  }

  /** Changing the damaging byte is a change of the read that completes the frames. */
  lemma ByteInChunk(rest: seq<byte>, chunk: seq<byte>, p: nat, v: byte) returns (other: seq<byte>)
    requires SplitStream(rest).frames == [] && SplitStream(rest + chunk).frames != []
    requires p < |SplitStream(rest + chunk).rest|
    ensures var r := SplitStream(rest + chunk); rest + other == Wire(r.frames) + r.rest[p := v]
  {
    var s := rest + chunk;
    var r := SplitStream(s);
    var t := Wire(r.frames) + r.rest[p := v];
    WireInvertsSplit(s);
    RestWithinFrames(rest, chunk);
    assert t[..|rest|] == Wire(r.frames)[..|rest|] == s[..|rest|] == rest;
    other := t[|rest|..];
  }

  /** A read that exposes a payload can be changed, within its layout, so that it is read wrongly. */
  lemma ReadDamaged(rest: seq<byte>, chunk: seq<byte>, later: seq<seq<byte>>) returns (other: seq<byte>)
    requires SplitStream(rest).frames == [] && Exposed(rest + chunk)
    ensures SameLayouts(rest, [chunk] + later, rest, [other] + later)
    ensures AllDelivered(rest, [other] + later) != FeedAll(rest, [other] + later).frames
  {
    var r := SplitStream(rest + chunk);
    var p, v := DamagingByte(rest + chunk);
    WireInvertsSplit(rest + chunk);
    other := ByteInChunk(rest, chunk, p, v);
    var t := rest + other;
    TailByteFree(r.rest, later, p, v);
    DifferentFirst(Delivered(t), AllDelivered(SplitStream(t).rest, later), r.frames,
                   FeedAll(SplitStream(t).rest, later).frames);
    assert ([chunk] + later)[1..] == later && ([other] + later)[1..] == later;
  }

  /** A run with an exposed payload has one of the same layout whose callers see something else. */
  lemma {:induction false} UncleanDamaged(rest: seq<byte>, chunks: seq<seq<byte>>) returns (others: seq<seq<byte>>)
    requires SplitStream(rest).frames == [] && !CleanReads(rest, chunks)
    ensures SameLayouts(rest, chunks, rest, others)
    ensures AllDelivered(rest, others) != FeedAll(rest, others).frames
    decreases |chunks|
  {
    var s := rest + chunks[0];
    assert chunks == [chunks[0]] + chunks[1..];
    if Exposed(s) {
      var other := ReadDamaged(rest, chunks[0], chunks[1..]);
      others := [other] + chunks[1..];
    } else {
      var r := SplitStream(s);
      WireInvertsSplit(s);
      var more := UncleanDamaged(r.rest, chunks[1..]);
      others := [chunks[0]] + more;
      assert others[1..] == more;
      UnexposedExact(s);
      SameFirst(r.frames, AllDelivered(r.rest, more), FeedAll(r.rest, more).frames);
    }
  }

  lemma DifferentFirst<T>(a: seq<T>, b: seq<T>, c: seq<T>, d: seq<T>)
    requires |a| == |c| && a != c
    ensures a + b != c + d
  {
    assert (a + b)[..|a|] == a && (c + d)[..|c|] == c;
  }

  lemma SameFirst<T>(a: seq<T>, b: seq<T>, c: seq<T>)
    requires b != c
    ensures a + b != a + c
  {
    assert (a + b)[|a|..] == b && (a + c)[|a|..] == c;
  }

  /**
  Over whole runs: callers see exactly the payloads of the stream, for every
  content of the reads' layout, if and only if no read exposes a payload.
  */
  lemma RunExactIff(chunks: seq<seq<byte>>)
    ensures (forall others :: SameLayouts([], chunks, [], others) ==>
               AllDelivered([], others) == FeedAll([], others).frames) <==> CleanReads([], chunks)
  {
    if CleanReads([], chunks) {
      forall others | SameLayouts([], chunks, [], others)
        ensures AllDelivered([], others) == FeedAll([], others).frames
      {
        SameLayoutsClean([], chunks, [], others);
        CleanReadsExact([], others);
      }
    } else {
      var others := UncleanDamaged([], chunks);
    }
  }
}
