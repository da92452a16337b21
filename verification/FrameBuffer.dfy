/**
The receive buffer (FrameDecoder in protocol/framing.h, protocol/framing.cpp).
The decoder moves its unread tail to the front of the buffer before the caller
looks at the payloads, so what the caller sees is `Delivered`, not always the
frames of `SplitStream`.
*/
module FrameBuffer {
  import opened Bytes
  import opened Framing

  // ----- Payload views -------------------------------------------------------

  /** A view into the decoder's buffer. */
  datatype Span = Span(offset: nat, length: nat)

  /** Where the payloads of consecutive frames lie before compaction. */
  function Spans(frames: seq<seq<byte>>): (v: seq<Span>)
    ensures |v| == |frames|
  {
    seq(|frames|, k requires 0 <= k < |frames| => Span(|Wire(frames[..k])| + HEADER_SIZE, |frames[k]|))
  }

  lemma SpansSnoc(frames: seq<seq<byte>>, f: seq<byte>)
    ensures Spans(frames + [f]) == Spans(frames) + [Span(|Wire(frames)| + HEADER_SIZE, |f|)]
  {
    var all := frames + [f];
    assert all[..|frames|] == frames;
    forall k | 0 <= k < |frames|
      ensures Spans(all)[k] == Spans(frames)[k]
    {
      assert all[..k] == frames[..k];
    }
  }

  lemma {:induction false} WireAt(frames: seq<seq<byte>>, k: nat)
    requires k < |frames|
    ensures Wire(frames) == Wire(frames[..k]) + (Encode(frames[k]) + Wire(frames[k + 1..]))
  {
    assert frames == frames[..k] + frames[k..];
    WireAppend(frames[..k], frames[k..]);
    assert frames[k..][1..] == frames[k + 1..];
  }

  lemma {:induction false} SpanCoversFrame(frames: seq<seq<byte>>, rest: seq<byte>, k: nat)
    requires k < |frames|
    ensures var v := Spans(frames)[k];
            && v.length == |frames[k]|
            && HEADER_SIZE <= v.offset
            && v.offset + v.length <= |Wire(frames)|
            && (Wire(frames) + rest)[v.offset..v.offset + v.length] == frames[k]
  {
    var f := frames[k];
    var a, h, b := Wire(frames[..k]), Int32BE(|f| % 0x1_0000_0000), Wire(frames[k + 1..]);
    WireAt(frames, k);
    ConcatAssoc(a, h + f + b, rest);
    ConcatAssoc(h + f, b, rest);
    ConcatAssoc(h, f, b + rest);
    SliceMiddle(a, h, f, b + rest);
  }

  lemma SliceMiddle(a: seq<byte>, h: seq<byte>, f: seq<byte>, b: seq<byte>)
    requires |h| == HEADER_SIZE
    ensures (a + (h + (f + b)))[|a| + HEADER_SIZE..|a| + HEADER_SIZE + |f|] == f
  {
  }

  /** The k-th payload of a stream and where it lies before compaction. */
  lemma {:induction false} FrameSpan(s: seq<byte>, k: nat)
    requires k < |SplitStream(s).frames|
    ensures var r := SplitStream(s);
            var v := Spans(r.frames)[k];
            && v.length == |r.frames[k]|
            && HEADER_SIZE <= v.offset
            && v.offset + v.length <= |s| - |r.rest|
            && s[v.offset..v.offset + v.length] == r.frames[k]
  {
    WireInvertsSplit(s);
    SpanCoversFrame(SplitStream(s).frames, SplitStream(s).rest, k);
  }

  ghost predicate InRange(spans: seq<Span>, n: nat) {
    forall k | 0 <= k < |spans| :: spans[k].offset + spans[k].length <= n
  }

  /** The bytes the caller reads through the spans. */
  function View(buffer: seq<byte>, spans: seq<Span>): (v: seq<seq<byte>>)
    requires InRange(spans, |buffer|)
    ensures |v| == |spans|
  {
    seq(|spans|, k requires 0 <= k < |spans| =>
      buffer[spans[k].offset..spans[k].offset + spans[k].length])
  }

  /** The first |s| buffer bytes after the tail was moved to offset 0. */
  function Compacted(s: seq<byte>): (c: seq<byte>)
    ensures |c| == |s|
  {
    WireInvertsSplit(s);
    var r := SplitStream(s);
    if r.frames == [] then s else r.rest + s[|r.rest|..]
  }

  lemma {:induction false} SpansInRange(s: seq<byte>)
    ensures InRange(Spans(SplitStream(s).frames), |s|)
  {
    var spans := Spans(SplitStream(s).frames);
    forall k | 0 <= k < |spans|
      ensures spans[k].offset + spans[k].length <= |s|
    {
      FrameSpan(s, k);
    }
  }

  /** What a caller of Feed reads when the buffered stream is `s`. */
  function Delivered(s: seq<byte>): (v: seq<seq<byte>>)
    ensures |v| == |SplitStream(s).frames|
  {
    SpansInRange(s);
    View(Compacted(s), Spans(SplitStream(s).frames))
  }

  /** Some payload byte lies where the moved tail was written. */
  ghost predicate Exposed(s: seq<byte>) {
    var r := SplitStream(s);
    exists k | 0 <= k < |r.frames| :: |r.frames[k]| > 0 && Spans(r.frames)[k].offset < |r.rest|
  }

  lemma {:induction false} SliceBehind(rest: seq<byte>, s: seq<byte>, at: nat, n: nat)
    requires |rest| <= at && at + n <= |s|
    ensures (rest + s[|rest|..])[at..at + n] == s[at..at + n]
  {
  }

  /** A payload that starts at or after the tail length is read exactly. */
  lemma {:induction false} FarPayloadExact(s: seq<byte>, k: nat)
    requires k < |SplitStream(s).frames|
    requires Spans(SplitStream(s).frames)[k].offset >= |SplitStream(s).rest| || SplitStream(s).frames[k] == []
    ensures Delivered(s)[k] == SplitStream(s).frames[k]
  {
    SpansInRange(s);
    FrameSpan(s, k);
    var v := Spans(SplitStream(s).frames)[k];
    var c := Compacted(s);
    assert Delivered(s)[k] == c[v.offset..v.offset + v.length];
    if v.length > 0 {
      SliceBehind(SplitStream(s).rest, s, v.offset, v.length);
    }
  }

  /** Two streams with the same frame lengths and the same tail length. */
  ghost predicate SameLayout(s: seq<byte>, t: seq<byte>) {
    && Spans(SplitStream(s).frames) == Spans(SplitStream(t).frames)
    && |SplitStream(s).rest| == |SplitStream(t).rest|
  }

  lemma {:induction false} SameLayoutSameExposure(s: seq<byte>, t: seq<byte>)
    requires SameLayout(s, t)
    ensures Exposed(s) <==> Exposed(t)
  {
    var a, b := SplitStream(s).frames, SplitStream(t).frames;
    forall k | 0 <= k < |a|
      ensures |a[k]| == Spans(a)[k].length == Spans(b)[k].length == |b[k]|
    {
    }
  }

  lemma {:induction false} TailContentFree(r: Split, p: nat, v: byte)
    requires Sendable(r.frames) && SplitStream(r.rest) == Split([], r.rest, r.valid)
    requires HEADER_SIZE <= p < |r.rest|
    ensures SplitStream(Wire(r.frames) + r.rest[p := v]) == Split(r.frames, r.rest[p := v], r.valid)
  {
    var t := r.rest[p := v];
    assert t[..HEADER_SIZE] == r.rest[..HEADER_SIZE];
    SplitInvertsWire(r.frames, t);
    assert r.frames + [] == r.frames;
  }

  /** When a payload is exposed, some value of some tail byte behind the next length makes it read wrongly. */
  lemma {:induction false} DamagingByte(s: seq<byte>) returns (p: nat, v: byte)
    requires Exposed(s)
    ensures var r := SplitStream(s);
            && HEADER_SIZE <= p < |r.rest|
            && SplitStream(Wire(r.frames) + r.rest[p := v]) == Split(r.frames, r.rest[p := v], r.valid)
            && Delivered(Wire(r.frames) + r.rest[p := v]) != r.frames
  {
    var r := SplitStream(s);
    WireInvertsSplit(s);
    var k: nat :| k < |r.frames| && |r.frames[k]| > 0 && Spans(r.frames)[k].offset < |r.rest|;
    FrameSpan(s, k);
    p := Spans(r.frames)[k].offset;
    v := if r.frames[k][0] == 0 then 1 else 0;
    TailContentFree(r, p, v);
    DeliveredFirstByte(Wire(r.frames) + r.rest[p := v], k);
  }

  /** When a payload is exposed some stream of the same layout is read wrongly. */
  lemma {:induction false} ExposedIsDamaged(s: seq<byte>) returns (t: seq<byte>)
    requires Exposed(s)
    ensures SameLayout(s, t)
    ensures Delivered(t) != SplitStream(t).frames
  {
    var p, v := DamagingByte(s);
    t := Wire(SplitStream(s).frames) + SplitStream(s).rest[p := v];
  }

  /** An exposed payload is read starting with the tail byte at its offset. */
  lemma {:induction false} DeliveredFirstByte(s: seq<byte>, k: nat)
    requires k < |SplitStream(s).frames| && |SplitStream(s).frames[k]| > 0
    requires Spans(SplitStream(s).frames)[k].offset < |SplitStream(s).rest|
    ensures |Delivered(s)[k]| > 0
    ensures Delivered(s)[k][0] == SplitStream(s).rest[Spans(SplitStream(s).frames)[k].offset]
  {
    SpansInRange(s);
    var v := Spans(SplitStream(s).frames)[k];
    assert Delivered(s)[k] == Compacted(s)[v.offset..v.offset + v.length];
  }

  /**
  When the caller sees the payloads of the stream: for every content of a
  layout exactly when no nonempty payload starts below the tail length.
  */
  lemma {:induction false} DeliveryExactIff(s: seq<byte>)
    ensures (forall t :: SameLayout(s, t) ==> Delivered(t) == SplitStream(t).frames) <==> !Exposed(s)
  {
    if Exposed(s) {
      var t := ExposedIsDamaged(s);
    } else {
      forall t | SameLayout(s, t)
        ensures Delivered(t) == SplitStream(t).frames
      {
        SameLayoutSameExposure(s, t);
        UnexposedExact(t);
      }
    }
  }

  lemma {:induction false} UnexposedExact(s: seq<byte>)
    requires !Exposed(s)
    ensures Delivered(s) == SplitStream(s).frames
  {
    var frames := SplitStream(s).frames;
    forall k | 0 <= k < |frames|
      ensures Delivered(s)[k] == frames[k]
    {
      FarPayloadExact(s, k);
    }
  }

  /** A tail of at most four bytes never reaches a payload. */
  lemma {:induction false} ShortTailExact(s: seq<byte>)
    requires |SplitStream(s).rest| <= HEADER_SIZE
    ensures Delivered(s) == SplitStream(s).frames
  {
    UnexposedExact(s);
  }

  /** "aaaa", "bbbbbbbb" and five bytes of a third frame: the first payload is read as "c...". */
  lemma {:induction false} CompactionDamageExample()
    ensures var a: seq<byte>, b: seq<byte> := [97, 97, 97, 97], [98, 98, 98, 98, 98, 98, 98, 98];
            var s := Wire([a, b]) + [0, 0, 0, 4, 99];
            && SplitStream(s).frames == [a, b]
            && |Delivered(s)[0]| > 0
            && Delivered(s)[0][0] == 99
  {
    var a: seq<byte>, b: seq<byte> := [97, 97, 97, 97], [98, 98, 98, 98, 98, 98, 98, 98];
    var tail: seq<byte> := [0, 0, 0, 4, 99];
    ExampleTail(tail);
    SplitInvertsWire([a, b], tail);
    assert [a, b] + [] == [a, b];
    assert [a, b][..0] == [];
    DeliveredFirstByte(Wire([a, b]) + tail, 0);
  }

  lemma {:induction false} ExampleTail(tail: seq<byte>)
    requires tail == [0, 0, 0, 4, 99]
    ensures SplitStream(tail) == Split([], tail, true)
  {
    Int32Bytes(4);
    HeaderRead(4, [99]);
    assert Int32BE(4) + [99] == tail;
  }

  // ----- The decoder ----------------------------------------------------------

  lemma {:induction false} NothingMore(s: seq<byte>, done: seq<seq<byte>>, rest: seq<byte>, valid: bool)
    requires Sendable(done) && s == Wire(done) + rest
    requires SplitStream(rest) == Split([], rest, valid)
    ensures SplitStream(s) == Split(done, rest, valid)
  {
    SplitInvertsWire(done, rest);
    assert done + [] == done;
  }

  lemma {:induction false} MovedTail(s: seq<byte>, rest: seq<byte>, before: seq<byte>, after: seq<byte>)
    requires |rest| <= |s| <= |before| == |after|
    requires before[..|s|] == s && after[..|rest|] == rest && after[|rest|..] == before[|rest|..]
    ensures after[..|s|] == rest + s[|rest|..]
  {
    assert after == rest + before[|rest|..];
  }

  lemma {:induction false} TakeMore(s: seq<byte>, at: nat, n: nat, e: seq<byte>)
    requires at + n <= |s| && n <= |e|
    requires s[at..] == e + s[at..][n..]
    ensures s[..at + n] == s[..at] + e
  {
    assert |e| == n;
    assert s[at..][..n] == e;
  }

  /** One more frame is taken from the front of what is left of s. */
  lemma TakeFrame(s: seq<byte>, done: seq<seq<byte>>, at: nat, t: seq<byte>, n: nat)
    requires at <= |s| && t == s[at..] && s[..at] == Wire(done) && Sendable(done)
    requires |t| >= HEADER_SIZE + n && ReadInt32BE(t) == n <= MAX_FRAME_SIZE
    ensures var more := done + [t[HEADER_SIZE..HEADER_SIZE + n]];
            && s[..at + HEADER_SIZE + n] == Wire(more) && Sendable(more)
            && Spans(more) == Spans(done) + [Span(at + HEADER_SIZE, n)]
  {
    var f := t[HEADER_SIZE..HEADER_SIZE + n];
    SpansSnoc(done, f);
    WireSnoc(done, f);
    FirstFrameBytes(t);
    TakeMore(s, at, HEADER_SIZE + n, Encode(f));
  }

  class FrameDecoder {
    var buffer: array<byte>
    var size: nat
    var cursor: nat

    ghost predicate Valid()
      reads this, buffer
    {
      cursor == 0 && size <= buffer.Length && SplitStream(Contents()).frames == []
    }

    ghost function Contents(): seq<byte>
      reads this, buffer
      requires size <= buffer.Length
    {
      buffer[..size]
    }

    constructor ()
      ensures Valid() && Contents() == [] && fresh(buffer) && buffer.Length == 0
    {
      buffer := new byte[0];
      size := 0;
      cursor := 0;
    }

    method Reset()
      modifies this`size, this`cursor
      ensures Valid() && Contents() == []
    {
      size := 0;
      cursor := 0;
    }

    method BufferedBytes() returns (n: nat)
      requires Valid()
      ensures n == |Contents()|
    {
      n := size - cursor;
    }

    /**
    Buffers `data` and returns a view of every complete payload.  The stream
    position is always right; the views cover the buffer after compaction.
    */
    method Feed(data: seq<byte>) returns (frames: seq<Span>, valid: bool)
      requires Valid()
      modifies this, buffer
      ensures Valid() && (buffer == old(buffer) || fresh(buffer))
      ensures data == [] ==> frames == [] && valid && Contents() == old(Contents()) && buffer == old(buffer)
      ensures data != [] ==>
                var s := old(Contents()) + data;
                && valid == SplitStream(s).valid
                && Contents() == SplitStream(s).rest
                && frames == Spans(SplitStream(s).frames)
                && |s| <= buffer.Length
                && buffer[..|s|] == Compacted(s)
                && buffer.Length == if |s| <= old(buffer.Length) then old(buffer.Length)
                                    else Max(2 * old(buffer.Length), |s|)
    {
      frames, valid := [], true;
      if |data| == 0 {
        return;
      }
      ghost var s := Contents() + data;
      Append(data);
      var pending;
      pending, valid := Extract();
      WireInvertsSplit(s);
      ghost var before, rest := buffer[..], SplitStream(s).rest;
      assert before[..|s|] == s;
      if |pending| > 0 {
        Compact();
        frames := pending;
        MovedTail(s, rest, before, buffer[..]);
      }
    }

    /** Finds the complete frames in the buffer and moves the cursor behind them. */
    method Extract() returns (pending: seq<Span>, valid: bool)
      requires cursor == 0 && size <= buffer.Length
      modifies this`cursor
      ensures valid == SplitStream(Contents()).valid
      ensures pending == Spans(SplitStream(Contents()).frames)
      ensures cursor <= size && buffer[cursor..size] == SplitStream(Contents()).rest
    {
      pending, valid := [], true;
      ghost var s := Contents();
      ghost var done: seq<seq<byte>> := [];
      while size - cursor >= HEADER_SIZE
        invariant cursor <= size && valid
        invariant s[..cursor] == Wire(done) && Sendable(done)
        invariant pending == Spans(done)
        decreases size - cursor
      {
        var frameLen := ReadInt32BE(buffer[cursor..cursor + HEADER_SIZE]);
        ghost var t := s[cursor..];
        assert buffer[cursor..cursor + HEADER_SIZE][..HEADER_SIZE] == t[..HEADER_SIZE];
        assert frameLen == ReadInt32BE(t);
        if frameLen > MAX_FRAME_SIZE {
          valid := false;
          break;
        }
        var total := HEADER_SIZE + frameLen;
        if size - cursor < total {
          break;
        }
        pending := pending + [Span(cursor + HEADER_SIZE, frameLen)];
        TakeFrame(s, done, cursor, t, frameLen);
        done := done + [t[HEADER_SIZE..total]];
        cursor := cursor + total;
      }
      NothingMore(s, done, s[cursor..], valid);
    }

    /** Grows the buffer to hold `data` and copies it behind the valid bytes. */
    method Append(data: seq<byte>)
      requires size <= buffer.Length
      modifies this`buffer, this`size, buffer
      ensures size == old(size) + |data| <= buffer.Length
      ensures Contents() == old(Contents()) + data
      ensures buffer == old(buffer) || fresh(buffer)
      ensures buffer.Length == if size <= old(buffer.Length) then old(buffer.Length)
                               else Max(2 * old(buffer.Length), size)
    {
      ghost var before := Contents();
      if size + |data| > buffer.Length {
        var grown := new byte[Max(buffer.Length * 2, size + |data|)](_ => 0);
        forall i | 0 <= i < buffer.Length {
          grown[i] := buffer[i];
        }
        buffer := grown;
      }
      assert buffer[..size] == before;
      forall i | 0 <= i < |data| {
        buffer[size + i] := data[i];
      }
      size := size + |data|;
      assert buffer[..size] == before + data;
    }

    /** Moves the unread tail to the front; bytes behind it stay as they were. */
    method Compact()
      requires cursor <= size <= buffer.Length
      modifies this`size, this`cursor, buffer
      ensures cursor == 0 && size == old(size - cursor)
      ensures buffer[..][..size] == old(buffer[cursor..size])
      ensures buffer[..][size..] == old(buffer[..])[size..]
    {
      forall i | 0 <= i < size - cursor {
        buffer[i] := buffer[cursor + i];
      }
      size := size - cursor;
      cursor := 0;
    }
  }

  // ----- Memory bound over whole runs -----------------------------------------

  /** Buffer capacity after feeding chunks to a decoder that holds `rest`. */
  function CapacityAfter(rest: seq<byte>, capacity: nat, chunks: seq<seq<byte>>): nat
    decreases |chunks|
  {
    if chunks == [] then capacity
    else
      var s := rest + chunks[0];
      CapacityAfter(SplitStream(s).rest,
                    if |s| <= capacity then capacity else Max(2 * capacity, |s|), chunks[1..])
  }

  /** As long as the stream is valid, chunks of at most `c` bytes keep the buffer below a fixed size. */
  lemma {:induction false} CapacityBound(rest: seq<byte>, capacity: nat, chunks: seq<seq<byte>>, c: nat)
    requires SplitStream(rest) == Split([], rest, true)
    requires SplitStream(rest + Flatten(chunks)).valid
    requires forall k | 0 <= k < |chunks| :: |chunks[k]| <= c
    requires |rest| <= capacity < 2 * (MAX_FRAME_SIZE + 3 + c)
    ensures CapacityAfter(rest, capacity, chunks) < 2 * (MAX_FRAME_SIZE + 3 + c)
    decreases |chunks|
  {
    if chunks != [] {
      var s := rest + chunks[0];
      assert s + Flatten(chunks[1..]) == rest + Flatten(chunks);
      SplitExtends(s, Flatten(chunks[1..]));
      LeftoverBound(rest);
      WireInvertsSplit(s);
      assert forall k | 0 <= k < |chunks| - 1 :: chunks[1..][k] == chunks[k + 1];
      CapacityBound(SplitStream(s).rest,
                    if |s| <= capacity then capacity else Max(2 * capacity, |s|), chunks[1..], c);
    }
  }
}
