/**
The simulator's incremental reader (tools/sim_sender.py, FrameReader): a second
deframer that has to agree with the receiver's.
*/
module SimReader {
  import opened Bytes
  import opened Framing

  const OVERRUN := MAX_FRAME_SIZE + 8

  /** One recv: nothing in time, at least one byte, or the end of the connection. */
  datatype Recv = Timeout | Data(bytes: seq<byte>) | PeerClosed

  /** ConnectionError is `Broken`. */
  datatype Polled = Frame(payload: seq<byte>) | NoFrame | Broken

  /** A poll over what the socket is going to say; a socket that says nothing more times out. */
  function Poll(buf: seq<byte>, recvs: seq<Recv>): (r: (Polled, seq<byte>, seq<Recv>))
    ensures |r.2| <= |recvs|
    decreases |recvs|
  {
    if |buf| >= HEADER_SIZE && ReadInt32BE(buf) > MAX_FRAME_SIZE then (Broken, buf, recvs)
    else if |buf| >= HEADER_SIZE && |buf| >= HEADER_SIZE + ReadInt32BE(buf) then
      var n := HEADER_SIZE + ReadInt32BE(buf);
      (Frame(buf[HEADER_SIZE..n]), buf[n..], recvs)
    else if recvs == [] then (NoFrame, buf, recvs)
    else
      match recvs[0]
      case Timeout => (NoFrame, buf, recvs[1..])
      case PeerClosed => (Broken, buf, recvs[1..])
      case Data(chunk) =>
        if |buf + chunk| > OVERRUN then (Broken, buf + chunk, recvs[1..]) else Poll(buf + chunk, recvs[1..])
  }

  class FrameReader {
    var buf: seq<byte>

    constructor ()
      ensures buf == []
    {
      buf := [];
    }

    method PollFrame(recvs: seq<Recv>) returns (polled: Polled, used: nat)
      modifies this
      ensures used <= |recvs| && (polled, buf, recvs[used..]) == Poll(old(buf), recvs)
    {
      used := 0;
      while true
        invariant 0 <= used <= |recvs|
        invariant Poll(buf, recvs[used..]) == Poll(old(buf), recvs)
        decreases |recvs| - used
      {
        if |buf| >= HEADER_SIZE {
          var length := ReadInt32BE(buf);
          if length > MAX_FRAME_SIZE {
            return Broken, used;
          }
          if |buf| >= HEADER_SIZE + length {
            polled := Frame(buf[HEADER_SIZE..HEADER_SIZE + length]);
            buf := buf[HEADER_SIZE + length..];
            return;
          }
        }
        if used == |recvs| {
          return NoFrame, used;
        }
        assert recvs[used..][1..] == recvs[used + 1..];
        used := used + 1;
        match recvs[used - 1] {
          case Timeout => return NoFrame, used;
          case PeerClosed => return Broken, used;
          case Data(chunk) =>
            buf := buf + chunk;
            if |buf| > OVERRUN {
              return Broken, used;
            }
        }
      }
    }
  }

  function Came(r: Recv): seq<byte> { if r.Data? then r.bytes else [] }

  function Arrived(recvs: seq<Recv>): seq<byte> {
    if recvs == [] then []
    else (if recvs[0].Data? then recvs[0].bytes else []) + Arrived(recvs[1..])
  }

  ghost predicate Overran(buf: seq<byte>) { |buf| > OVERRUN }

  /** The result of a poll in terms of the stream: what it consumed of `all` and what it left. */
  ghost predicate Agrees(all: seq<byte>, polled: Polled, buf: seq<byte>, recvs: seq<Recv>, closed: bool)
  {
    match polled
    case Frame(p) => |p| <= MAX_FRAME_SIZE && all == Encode(p) + (buf + Arrived(recvs))
    case NoFrame => all == buf + Arrived(recvs) && SplitStream(buf) == Split([], buf, true)
    case Broken =>
      && all == buf + Arrived(recvs)
      && (SplitStream(buf) == Split([], buf, false) || Overran(buf) || closed)
  }

  ghost predicate Closes(recvs: seq<Recv>) {
    exists k | 0 <= k < |recvs| :: recvs[k].PeerClosed?
  }

  lemma FirstArrived(recvs: seq<Recv>)
    requires recvs != []
    ensures recvs[0].Data? ==> Arrived(recvs) == recvs[0].bytes + Arrived(recvs[1..])
    ensures !recvs[0].Data? ==> Arrived(recvs) == Arrived(recvs[1..])
    ensures recvs[0].PeerClosed? ==> Closes(recvs)
    ensures Closes(recvs[1..]) ==> Closes(recvs)
  {
    if Closes(recvs[1..]) {
      var k :| 0 <= k < |recvs| - 1 && recvs[1..][k].PeerClosed?;
      assert recvs[k + 1].PeerClosed?;
    }
    assert [] + Arrived(recvs[1..]) == Arrived(recvs[1..]);
  }

  /** A poll takes the first frame of the stream, or finds there is none yet, or breaks off. */
  lemma {:induction false} PollAgrees(buf: seq<byte>, recvs: seq<Recv>)
    ensures var (polled, buf', recvs') := Poll(buf, recvs);
            Agrees(buf + Arrived(recvs), polled, buf', recvs', Closes(recvs))
    decreases |recvs|
  {
    if |buf| >= HEADER_SIZE && ReadInt32BE(buf) > MAX_FRAME_SIZE {
    } else if |buf| >= HEADER_SIZE && |buf| >= HEADER_SIZE + ReadInt32BE(buf) {
      var n := HEADER_SIZE + ReadInt32BE(buf);
      FirstFrameBytes(buf);
      ConcatAssoc(Encode(buf[HEADER_SIZE..n]), buf[n..], Arrived(recvs));
    } else if recvs != [] {
      FirstArrived(recvs);
      if recvs[0].Data? {
        var more := buf + recvs[0].bytes;
        ConcatAssoc(buf, recvs[0].bytes, Arrived(recvs[1..]));
        if |more| <= OVERRUN {
          PollAgrees(more, recvs[1..]);
        }
      }
    }
  }

  /** The frames of some polls, what is left, and whether the connection still stands. */
  datatype Polls = Polls(frames: seq<seq<byte>>, buf: seq<byte>, recvs: seq<Recv>, ok: bool)

  /** Up to `n` polls; polling stops when the connection breaks. */
  function PollMany(buf: seq<byte>, recvs: seq<Recv>, n: nat): (r: Polls)
    ensures |r.recvs| <= |recvs|
    decreases n
  {
    if n == 0 then Polls([], buf, recvs, true)
    else
      var (polled, buf', recvs') := Poll(buf, recvs);
      if polled.Broken? then Polls([], buf', recvs', false)
      else
        var more := PollMany(buf', recvs', n - 1);
        more.(frames := Taken(polled) + more.frames)
  }

  /** The frame a poll returned, as it was on the wire. */
  function Front(polled: Polled): seq<byte> { if polled.Frame? then Encode(polled.payload) else [] }

  function Taken(polled: Polled): seq<seq<byte>> { if polled.Frame? then [polled.payload] else [] }

  /** The stream splits into these frames and then as `rest` does. */
  ghost predicate Splits(all: seq<byte>, frames: seq<seq<byte>>, rest: seq<byte>) {
    var later := SplitStream(rest);
    SplitStream(all) == Split(frames + later.frames, later.rest, later.valid)
  }

  lemma SplitsBehind(all: seq<byte>, polled: Polled, rest: seq<byte>, frames: seq<seq<byte>>, end: seq<byte>)
    requires all == Front(polled) + rest && (polled.Frame? ==> |polled.payload| <= MAX_FRAME_SIZE)
    requires Splits(rest, frames, end)
    ensures Splits(all, Taken(polled) + frames, end)
  {
    if polled.Frame? {
      SplitFirst(polled.payload, rest);
      ConcatAssoc([polled.payload], frames, SplitStream(end).frames);
    } else {
      assert [] + rest == rest && [] + frames == frames;
    }
  }

  lemma PolledFront(buf: seq<byte>, recvs: seq<Recv>)
    requires !Poll(buf, recvs).0.Broken?
    ensures var (polled, buf', recvs') := Poll(buf, recvs);
            && buf + Arrived(recvs) == Front(polled) + (buf' + Arrived(recvs'))
            && (polled.Frame? ==> |polled.payload| <= MAX_FRAME_SIZE)
  {
    var (polled, buf', recvs') := Poll(buf, recvs);
    PollAgrees(buf, recvs);
    assert [] + (buf' + Arrived(recvs')) == buf' + Arrived(recvs');
  }

  lemma PollsStep(buf: seq<byte>, recvs: seq<Recv>, polled: Polled, buf': seq<byte>, recvs': seq<Recv>, more: Polls)
    requires Poll(buf, recvs) == (polled, buf', recvs') && !polled.Broken?
    requires Splits(buf' + Arrived(recvs'), more.frames, more.buf + Arrived(more.recvs))
    ensures Splits(buf + Arrived(recvs), Taken(polled) + more.frames, more.buf + Arrived(more.recvs))
  {
    PolledFront(buf, recvs);
    SplitsBehind(buf + Arrived(recvs), polled, buf' + Arrived(recvs'), more.frames, more.buf + Arrived(more.recvs));
  }

  /** However it polls and the bytes arrive, the reader returns the frames the receiver's decoder splits off. */
  lemma {:induction false} PollsSplitStream(buf: seq<byte>, recvs: seq<Recv>, n: nat)
    ensures var r := PollMany(buf, recvs, n);
            Splits(buf + Arrived(recvs), r.frames, r.buf + Arrived(r.recvs))
    decreases n
  {
    if n == 0 || Poll(buf, recvs).0.Broken? {
      NothingPolled(buf, recvs);
    } else {
      var (polled, buf', recvs') := Poll(buf, recvs);
      PollsSplitStream(buf', recvs', n - 1);
      PollsStep(buf, recvs, polled, buf', recvs', PollMany(buf', recvs', n - 1));
    }
  }

  lemma NothingPolled(buf: seq<byte>, recvs: seq<Recv>)
    ensures Splits(buf + Arrived(recvs), [], buf + Arrived(recvs))
    ensures var (polled, buf', recvs') := Poll(buf, recvs);
            polled.Broken? ==> Splits(buf + Arrived(recvs), [], buf' + Arrived(recvs'))
  {
    PollAgrees(buf, recvs);
    var all := buf + Arrived(recvs);
    assert [] + SplitStream(all).frames == SplitStream(all).frames;
  }

  /** A stream without a complete frame: the length is missing, or its payload is. */
  lemma NoFrameYet(buf: seq<byte>)
    requires SplitStream(buf) == Split([], buf, true)
    ensures |buf| >= HEADER_SIZE ==> ReadInt32BE(buf) <= MAX_FRAME_SIZE && |buf| < HEADER_SIZE + ReadInt32BE(buf)
  {
  }

  lemma ValidNotOversize(buf: seq<byte>)
    requires SplitStream(buf).valid
    ensures |buf| >= HEADER_SIZE ==> ReadInt32BE(buf) <= MAX_FRAME_SIZE
  {
  }

  /** With no complete frame buffered and no oversize length, new data breaks the reader exactly when it overruns. */
  lemma OverrunIff(buf: seq<byte>, chunk: seq<byte>)
    requires SplitStream(buf) == Split([], buf, true)
    requires SplitStream(buf + chunk).valid
    ensures Poll(buf, [Data(chunk)]).0.Broken? <==> |buf + chunk| > OVERRUN
  {
    NoFrameYet(buf);
    ValidNotOversize(buf + chunk);
    assert [Data(chunk)][1..] == [];
    assert Poll(buf, [Data(chunk)]) ==
           if |buf + chunk| > OVERRUN then (Broken, buf + chunk, []) else Poll(buf + chunk, []);
  }

  // ----- When a run of polls overruns ------------------------------------------------------

  /** Each recv's data fit with what no complete frame before them has used up. */
  ghost predicate Fits(arrived: seq<byte>, recvs: seq<Recv>)
    decreases |recvs|
  {
    recvs == [] ||
    (|SplitStream(arrived).rest + Came(recvs[0])| <= OVERRUN && Fits(arrived + Came(recvs[0]), recvs[1..]))
  }

  lemma {:induction false} FitsAppend(arrived: seq<byte>, a: seq<Recv>, b: seq<Recv>)
    ensures Fits(arrived, a + b) <==> Fits(arrived, a) && Fits(arrived + Arrived(a), b)
    decreases |a|
  {
    if a == [] {
      assert a + b == b && arrived + [] == arrived;
    } else {
      assert (a + b)[1..] == a[1..] + b;
      FitsAppend(arrived + Came(a[0]), a[1..], b);
      ConcatAssoc(arrived, Came(a[0]), Arrived(a[1..]));
    }
  }

  /** A complete frame in front does not count. */
  lemma {:induction false} FitsBehindFrame(p: seq<byte>, arrived: seq<byte>, recvs: seq<Recv>)
    requires |p| <= MAX_FRAME_SIZE
    ensures Fits(Encode(p) + arrived, recvs) <==> Fits(arrived, recvs)
    decreases |recvs|
  {
    if recvs != [] {
      SplitFirst(p, arrived);
      ConcatAssoc(Encode(p), arrived, Came(recvs[0]));
      FitsBehindFrame(p, arrived + Came(recvs[0]), recvs[1..]);
    }
  }

  lemma ValidPrefix(a: seq<byte>, b: seq<byte>)
    requires SplitStream(a + b).valid
    ensures SplitStream(a).valid
  {
    SplitExtends(a, b);
  }

  lemma FramelessHeld(buf: seq<byte>)
    requires SplitStream(buf).valid
    requires |buf| >= HEADER_SIZE ==> |buf| < HEADER_SIZE + ReadInt32BE(buf)
    ensures SplitStream(buf) == Split([], buf, true)
  {
  }

  /** What one poll consumed of a stream without an oversize length, and whether it fitted. */
  ghost predicate Consumed(buf: seq<byte>, taken: seq<Recv>, polled: Polled, buf': seq<byte>) {
    && (!polled.Broken? <==> Fits(buf, taken))
    && (polled.Frame? ==> |polled.payload| <= MAX_FRAME_SIZE)
    && (!polled.Broken? ==> buf + Arrived(taken) == Front(polled) + buf')
  }

  lemma {:induction false} PollFits(buf: seq<byte>, recvs: seq<Recv>) returns (taken: seq<Recv>)
    requires SplitStream(buf + Arrived(recvs)).valid && !Closes(recvs)
    ensures var (polled, buf', recvs') := Poll(buf, recvs);
            recvs == taken + recvs' && Consumed(buf, taken, polled, buf')
    decreases |recvs|
  {
    ValidPrefix(buf, Arrived(recvs));
    ValidNotOversize(buf);
    taken := [];
    assert [] + recvs == recvs && buf + [] == buf && [] + buf == buf;
    if |buf| >= HEADER_SIZE && |buf| >= HEADER_SIZE + ReadInt32BE(buf) {
      FirstFrameBytes(buf);
    } else if recvs != [] {
      FramelessHeld(buf);
      FirstArrived(recvs);
      OneTaken(buf, recvs[0]);
      taken := [recvs[0]];
      assert recvs == taken + recvs[1..];
      var more := buf + Came(recvs[0]);
      if recvs[0].Data? && |more| <= OVERRUN {
        ConcatAssoc(buf, recvs[0].bytes, Arrived(recvs[1..]));
        var later := PollFits(more, recvs[1..]);
        taken := [recvs[0]] + later;
        var (polled, buf', recvs') := Poll(more, recvs[1..]);
        OneMoreTaken(buf, recvs[0], later, polled, buf');
        ConcatAssoc([recvs[0]], later, recvs');
      }
    }
  }

  lemma OneTaken(buf: seq<byte>, r: Recv)
    requires SplitStream(buf).rest == buf
    ensures Fits(buf, [r]) <==> |buf + Came(r)| <= OVERRUN
    ensures Arrived([r]) == Came(r)
  {
    assert [r][1..] == [];
    assert Came(r) + [] == Came(r);
  }

  lemma OneMoreTaken(buf: seq<byte>, r: Recv, later: seq<Recv>, polled: Polled, buf': seq<byte>)
    requires SplitStream(buf).rest == buf && |buf + Came(r)| <= OVERRUN
    requires Consumed(buf + Came(r), later, polled, buf')
    ensures Consumed(buf, [r] + later, polled, buf')
  {
    assert ([r] + later)[1..] == later;
    ConcatAssoc(buf, Came(r), Arrived(later));
  }

  /**
  On a valid stream that is not closed a run of polls breaks off if and only if
  some recv it made brought more than 16 MiB + 8 bytes together with what was
  left behind the last complete frame.
  */
  lemma {:induction false} RunBreaksIff(buf: seq<byte>, recvs: seq<Recv>, n: nat) returns (made: seq<Recv>)
    requires SplitStream(buf + Arrived(recvs)).valid && !Closes(recvs)
    ensures recvs == made + PollMany(buf, recvs, n).recvs
    ensures PollMany(buf, recvs, n).ok <==> Fits(buf, made)
    decreases n
  {
    if n == 0 {
      made := [];
    } else {
      var (polled, buf', recvs') := Poll(buf, recvs);
      made := PollFits(buf, recvs);
      if !polled.Broken? {
        AfterPoll(buf, made, polled, buf', recvs');
        var later := RunBreaksIff(buf', recvs', n - 1);
        FitsLater(buf, made, polled, buf', later);
        ConcatAssoc(made, later, PollMany(buf', recvs', n - 1).recvs);
        made := made + later;
      }
    }
  }

  lemma {:induction false} ArrivedAppend(a: seq<Recv>, b: seq<Recv>)
    ensures Arrived(a + b) == Arrived(a) + Arrived(b)
  {
    if a == [] {
      assert a + b == b;
    } else {
      assert (a + b)[1..] == a[1..] + b;
      ArrivedAppend(a[1..], b);
      ConcatAssoc(Came(a[0]), Arrived(a[1..]), Arrived(b));
    }
  }

  /** What lies behind a poll is a stream without an oversize length again. */
  lemma AfterPoll(buf: seq<byte>, taken: seq<Recv>, polled: Polled, buf': seq<byte>, recvs': seq<Recv>)
    requires Consumed(buf, taken, polled, buf') && !polled.Broken?
    requires SplitStream(buf + Arrived(taken + recvs')).valid && !Closes(taken + recvs')
    ensures SplitStream(buf' + Arrived(recvs')).valid && !Closes(recvs')
  {
    ArrivedAppend(taken, recvs');
    ConcatAssoc(buf, Arrived(taken), Arrived(recvs'));
    ConcatAssoc(Front(polled), buf', Arrived(recvs'));
    SplitsBehind(Front(polled) + (buf' + Arrived(recvs')), polled, buf' + Arrived(recvs'), [], buf' + Arrived(recvs'));
    NoCloseBehind(taken, recvs');
  }

  lemma NoCloseBehind(a: seq<Recv>, b: seq<Recv>)
    requires !Closes(a + b)
    ensures !Closes(b)
  {
    forall k | 0 <= k < |b|
      ensures !b[k].PeerClosed?
    {
      assert (a + b)[|a| + k] == b[k];
    }
  }

  lemma FitsLater(buf: seq<byte>, taken: seq<Recv>, polled: Polled, buf': seq<byte>, later: seq<Recv>)
    requires Consumed(buf, taken, polled, buf') && !polled.Broken?
    ensures Fits(buf, taken + later) <==> Fits(buf', later)
  {
    FitsAppend(buf, taken, later);
    if polled.Frame? {
      FitsBehindFrame(polled.payload, buf', later);
    } else {
      assert [] + buf' == buf';
    }
  }

  /**
  The check refuses streams the receiver accepts: it breaks off whenever the
  last byte of a frame of the largest size arrives together with a next one.
  */
  lemma {:induction false} LargestFrameOverruns(p: seq<byte>, q: seq<byte>) returns (buf: seq<byte>, chunk: seq<byte>)
    requires |p| == MAX_FRAME_SIZE && 0 < |q| <= MAX_FRAME_SIZE
    ensures buf + chunk == Wire([p, q]) && SplitStream(buf + chunk) == Split([p, q], [], true)
    ensures SplitStream(buf) == Split([], buf, true)
    ensures Poll(buf, [Data(chunk)]).0.Broken?
  {
    var n := |p| - 1;
    buf := Int32BE(|p|) + p[..n];
    chunk := p[n..] + Encode(q);
    HeaderRead(|p|, p[..n]);
    assert p[..n] + p[n..] == p;
    ConcatAssoc(Int32BE(|p|), p[..n], p[n..]);
    ConcatAssoc(buf, p[n..], Encode(q));
    assert Encode(p) == buf + p[n..];
    TwoOnWire(p, q);
    SplitInvertsWire([p, q], []);
    assert Wire([p, q]) + [] == Wire([p, q]) && [p, q] + [] == [p, q];
    OverrunIff(buf, chunk);
  }

  lemma TwoOnWire(p: seq<byte>, q: seq<byte>)
    ensures Wire([p, q]) == Encode(p) + Encode(q)
  {
    assert [p, q] == [p] + [q];
    WireSnoc([p], q);
    WireSnoc([], p);
    assert [] + [p] == [p];
    assert [] + Encode(p) == Encode(p);
  }

  /** What one more recv makes of a buffer without a complete frame. */
  lemma OneRecv(buf: seq<byte>, r: Recv)
    requires SplitStream(buf) == Split([], buf, true)
    ensures r.PeerClosed? ==> Poll(buf, [r]).0 == Broken
    ensures r.Timeout? ==> Poll(buf, [r]).0 == NoFrame
    ensures r.Data? ==> Poll(buf, [r]) == if |buf + r.bytes| > 16_777_224 then (Broken, buf + r.bytes, [])
                                          else Poll(buf + r.bytes, [])
    ensures Poll(buf, []) == (NoFrame, buf, [])
  {
    NoFrameYet(buf);
    assert [r][1..] == [];
  }

  /** A complete frame is returned before anything else is received. */
  lemma FrameFirst(p: seq<byte>, rest: seq<byte>, recvs: seq<Recv>)
    requires |p| <= MAX_FRAME_SIZE
    ensures Poll(Encode(p) + rest, recvs) == (Frame(p), rest, recvs)
  {
    FrameParts(p, rest);
  }
}
