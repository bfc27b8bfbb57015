/** A whole request on the wire: a HEADERS frame and any number of CONTINUATION frames, in reads of any size. */
module Http2Requests {
  import opened Bits
  import opened Frames
  import opened Http2Spec
  import opened Http2Invariant
  import opened Http2Limits
  import opened ReceivePath

  /** CONTINUATION frames with the parts of a header block, section 6.10 of RFC 7540; the last one ends it. */
  function Continuations(id: nat, parts: seq<seq<byte>>): (fs: seq<Frame>)
    ensures |fs| == |parts|
  {
    if parts == [] then []
    else [Frame(CONTINUATION, if |parts| == 1 then 4 else 0, id, parts[0])] + Continuations(id, parts[1..])
  }

  /** A request without a body, its header block in one part or more. */
  function Request(id: nat, pad: seq<byte>, priority: seq<byte>, first: seq<byte>, parts: seq<seq<byte>>): (fs: seq<Frame>)
    requires |pad| < 256 && |priority| in {0, 5}
  {
    [WrapFragment(id, if parts == [] then 5 else 1, pad, priority, first)] + Continuations(id, parts)
  }

  function Concat(parts: seq<seq<byte>>): (r: seq<byte>) {
    if parts == [] then [] else parts[0] + Concat(parts[1..])
  }

  function Fragments(parts: seq<seq<byte>>): (log: seq<Action>) {
    if parts == [] then [] else [Fragment(parts[0])] + Fragments(parts[1..])
  }

  /**
   * What a connection becomes with the beginning of a header block, and the end of the stream, on a new one; more:
   * the block goes on.
   */
  function Gathered(c: Conn, id: nat, got: seq<byte>, more: bool, log: seq<Action>): (r: Conn)
    requires |got| <= |c.stream.buf|
  {
    Conn(c.state, c.flags.(waitingEndHeaders := more, waitingEndStream := false), c.initialWindow, c.window,
         Stream(id, HalfClosedRemote, c.initialWindow, got + c.stream.buf[|got|..], |got|, 0), id, c.reading, log)
  }

  /** A connection on which the stream can be opened. */
  ghost predicate Accepting(cfg: Config, c: Conn, id: nat) {
    && Sized(cfg, c) && c.reading && c.state != Closing
    && c.stream.state == Idle && id > c.lastOpened && id % 2 == 1
    && !c.flags.waitingEndHeaders && !c.flags.waitingTrailers
  }

  lemma Collects(cfg: Config, c: Conn, id: nat, got: seq<byte>, part: seq<byte>, more: bool, log: seq<Action>)
    requires Sized(cfg, c) && !c.flags.waitingTrailers && |got| + |part| <= cfg.streamBuf
    ensures Collect(cfg, Gathered(c, id, got, more, log), part) == Gathered(c, id, got + part, more, log + [Fragment(part)])
  {
    var g := Gathered(c, id, got, more, log);
    assert Take(part, cfg.streamBuf - |got|) == part;
    assert g.stream.buf[..|got|] + part + g.stream.buf[|got| + |part|..] == (got + part) + c.stream.buf[|got + part|..];
  }

  /** The stream opened, with the first part of its header block and the end of the stream. */
  lemma Begins(cfg: Config, c: Conn, id: nat, first: seq<byte>, whole: bool)
    requires Sized(cfg, c) && !c.flags.waitingTrailers && |first| <= cfg.streamBuf
    ensures var log := c.log + [Opened(id), Fragment(first), GotEndStream];
            NoteFlags(Collect(cfg, OpenStream(c, id), first), true, whole) ==
            Gathered(c, id, first, !whole, if whole then log + [GotEndHeaders] else log)
  {
    var begun := OpenStream(c, id);
    var part := Take(first, cfg.streamBuf);
    assert begun.stream.buf[..0] + part + begun.stream.buf[0 + |part|..] == first + c.stream.buf[|first|..];
    assert c.log + [Opened(id), Fragment(first), GotEndStream] == ((c.log + [Opened(id)]) + [Fragment(first)]) + [GotEndStream];
  }

  /** The opening frame of a request. */
  lemma First(cfg: Config, c: Conn, id: nat, ends: byte, pad: seq<byte>, priority: seq<byte>, first: seq<byte>, app: Oracle)
    requires Accepting(cfg, c, id) && |pad| < 256 && |priority| in {0, 5} && ends in {1, 5}
    requires 0 < |first| <= cfg.streamBuf
    ensures var log := c.log + [Opened(id), Fragment(first), GotEndStream];
            OnFrame(cfg, c, WrapFragment(id, ends, pad, priority, first), app) ==
            if ends == 1 then Step(Gathered(c, id, first, true, log), 0)
            else EndStream(cfg, Gathered(c, id, first, false, log + [GotEndHeaders]), app)
  {
    var f := WrapFragment(id, ends, pad, priority, first);
    WrapRoundTrip(id, ends, pad, priority, first);
    Begins(cfg, c, id, first, ends == 5);
    hide HasFlag, BadPadding, HeadersFragment, WrapFragment, Collect, EndStream, NoteFlags;
  }

  /** The next part of the header block. */
  lemma Next(
      cfg: Config, c: Conn, id: nat, got: seq<byte>, part: seq<byte>, last: bool, log: seq<Action>, app: Oracle)
    requires Sized(cfg, c) && !c.flags.waitingTrailers && id > 0 && part != [] && |got| + |part| <= cfg.streamBuf
    ensures OnFrame(cfg, Gathered(c, id, got, true, log), Frame(CONTINUATION, if last then 4 else 0, id, part), app) ==
            if last then EndStream(cfg, Gathered(c, id, got + part, false, log + [Fragment(part), GotEndHeaders]), app)
            else Step(Gathered(c, id, got + part, true, log + [Fragment(part)]), 0)
  {
    var f := Frame(CONTINUATION, if last then 4 else 0, id, part);
    assert !HasFlag(f, END_STREAM) && (HasFlag(f, END_HEADERS) <==> last);
    hide HasFlag;
    Collects(cfg, c, id, got, part, true, log);
    hide Collect, EndStream;
    assert log + [Fragment(part), GotEndHeaders] == (log + [Fragment(part)]) + [GotEndHeaders];
  }

  ghost predicate NonEmpty(parts: seq<seq<byte>>) {
    forall i :: 0 <= i < |parts| ==> parts[i] != []
  }

  /** Reading goes on up to the last frame. */
  ghost predicate ReadsOn(cfg: Config, c: Conn, fs: seq<Frame>, app: Oracle)
    requires Sized(cfg, c)
  {
    forall k :: 0 <= k < |fs| ==> Dispatch(cfg, c, fs[..k], app).reading
  }

  /** The rest of the header block: reading goes on up to the last part, and then the request is handed over. */
  lemma {:induction false} RestHandsOver(
      cfg: Config, c: Conn, id: nat, got: seq<byte>, parts: seq<seq<byte>>, log: seq<Action>, app: Oracle)
    requires Sized(cfg, c) && !c.flags.waitingTrailers && id > 0 && c.reading
    requires parts != [] && NonEmpty(parts) && |got| + |Concat(parts)| <= cfg.streamBuf
    ensures var g, fs := Gathered(c, id, got, true, log), Continuations(id, parts);
            && Dispatch(cfg, g, fs, app) ==
               EndStream(cfg, Gathered(c, id, got + Concat(parts), false, log + Fragments(parts) + [GotEndHeaders]), app).conn
            && ReadsOn(cfg, g, fs, app)
    decreases |parts|
  {
    FirstPart(id, parts);
    hide OnFrame, Continuations, NonEmpty, EndStream;
    var g, fs, part, rest := Gathered(c, id, got, true, log), Continuations(id, parts), parts[0], parts[1..];
    JoinFirst(log, got, part, rest);
    Next(cfg, c, id, got, part, |parts| == 1, log, app);
    Unfold(cfg, g, fs[0], fs[1..], app);
    if |parts| == 1 {
      LastFragment(log, part);
      assert rest == [] && Concat(rest) == [] && got + part + [] == got + part;
      assert fs[..0] == [];
    } else {
      hide Dispatch, Concat, Fragments;
      RestHandsOver(cfg, c, id, got + part, rest, log + [Fragment(part)], app);
      OneMore(cfg, g, fs, app);
    }
  }

  lemma JoinFirst(log: seq<Action>, got: seq<byte>, part: seq<byte>, rest: seq<seq<byte>>)
    ensures |Concat([part] + rest)| == |part| + |Concat(rest)|
    ensures (got + part) + Concat(rest) == got + Concat([part] + rest)
    ensures (log + [Fragment(part)]) + Fragments(rest) == log + Fragments([part] + rest)
  {
    assert ([part] + rest)[1..] == rest;
  }

  lemma LastFragment(log: seq<Action>, part: seq<byte>)
    ensures log + Fragments([part]) + [GotEndHeaders] == log + [Fragment(part), GotEndHeaders]
  {
    assert [part][1..] == [];
    assert Fragments([part]) == [Fragment(part)];
  }

  lemma FirstPart(id: nat, parts: seq<seq<byte>>)
    requires parts != []
    ensures var fs, last := Continuations(id, parts), |parts| == 1;
            && fs[0] == Frame(CONTINUATION, if last then 4 else 0, id, parts[0]) && fs[1..] == Continuations(id, parts[1..])
            && fs == [fs[0]] + fs[1..] && parts == [parts[0]] + parts[1..]
            && (NonEmpty(parts) ==> parts[0] != [] && NonEmpty(parts[1..]))
  {
  }

  /** One frame more in front. */
  lemma OneMore(cfg: Config, c: Conn, fs: seq<Frame>, app: Oracle)
    requires Sized(cfg, c) && c.reading && fs != [] && Sized(cfg, OnFrame(cfg, c, fs[0], app).conn)
    requires ReadsOn(cfg, OnFrame(cfg, c, fs[0], app).conn, fs[1..], app)
    ensures ReadsOn(cfg, c, fs, app)
  {
    hide OnFrame;
    forall k | 0 <= k < |fs| ensures Dispatch(cfg, c, fs[..k], app).reading {
      if k > 0 {
        assert fs[..k] == [fs[0]] + fs[1..][..k - 1];
        Unfold(cfg, c, fs[0], fs[1..][..k - 1], app);
      }
    }
  }

  /** The connection with the whole request on it, before it is handed over. */
  function Requested(c: Conn, id: nat, first: seq<byte>, parts: seq<seq<byte>>): (r: Conn)
    requires |first| + |Concat(parts)| <= |c.stream.buf|
  {
    Gathered(c, id, first + Concat(parts), false,
      c.log + [Opened(id), Fragment(first), GotEndStream] + Fragments(parts) + [GotEndHeaders])
  }

  /** Every request whose header block fits the stream's buffer is handed over, with the parts put together. */
  lemma RequestHandsOver(
      cfg: Config, c: Conn, id: nat, pad: seq<byte>, priority: seq<byte>, first: seq<byte>, parts: seq<seq<byte>>, app: Oracle)
    requires Accepting(cfg, c, id) && |pad| < 256 && |priority| in {0, 5}
    requires first != [] && NonEmpty(parts) && |first| + |Concat(parts)| <= cfg.streamBuf
    ensures var fs := Request(id, pad, priority, first, parts);
            && Dispatch(cfg, c, fs, app) == EndStream(cfg, Requested(c, id, first, parts), app).conn
            && ReadsOn(cfg, c, fs, app)
  {
    hide OnFrame, WrapFragment, EndStream;
    var fs, ends := Request(id, pad, priority, first, parts), if parts == [] then 5 else 1;
    var more := Continuations(id, parts);
    First(cfg, c, id, ends, pad, priority, first, app);
    Unfold(cfg, c, fs[0], more, app);
    var log := c.log + [Opened(id), Fragment(first), GotEndStream];
    if parts == [] {
      assert first + Concat(parts) == first;
      assert log + Fragments(parts) == log;
      assert more == [] && fs[..0] == [];
    } else {
      hide Dispatch, Accepting;
      RestHandsOver(cfg, c, id, first, parts, log, app);
      assert fs[1..] == more;
      OneMore(cfg, c, fs, app);
    }
  }

  /** And from the wire: cut into reads of any sizes, enough of them, the frames of a request have the same effect. */
  lemma RequestArrives(
      cfg: Config, c: Conn, id: nat, pad: seq<byte>, priority: seq<byte>, first: seq<byte>, parts: seq<seq<byte>>,
      sizes: seq<nat>, app: Oracle)
    requires Accepting(cfg, c, id) && |pad| < 256 && |priority| in {0, 5}
    requires first != [] && NonEmpty(parts) && |first| + |Concat(parts)| <= cfg.streamBuf
    requires AllFit(cfg, Request(id, pad, priority, first, parts))
    requires 2 * |Wire(Request(id, pad, priority, first, parts))| <= |sizes| && forall i :: 0 <= i < |sizes| ==> sizes[i] > 0
    ensures var r := Reads(cfg, Link(c, []), Wire(Request(id, pad, priority, first, parts)), sizes, app);
            && r.0.conn == EndStream(cfg, Requested(c, id, first, parts), app).conn
            && (r.0.conn.reading ==> r.0.pending == [] && r.1 == [])
  {
    hide Reads, Dispatch, Wire, Request, AllFit, HandledBy, Calm, EndStream;
    var fs := Request(id, pad, priority, first, parts);
    RequestHandsOver(cfg, c, id, pad, priority, first, parts, app);
    FramesArriveInOrder(cfg, c, fs, sizes, app);
    AllFramesArrive(cfg, c, fs, sizes, app);
    assert fs[..|fs|] == fs;
  }

  // ----- The response, and the next request -----

  /** What the outcome makes of a request. */
  lemma HandsOver(cfg: Config, c: Conn, app: Oracle)
    requires Sized(cfg, c)
    ensures c.log + [Handled(c.stream.id, c.stream.buf[..c.stream.buflen])] <= EndStream(cfg, c, app).conn.log
  {
  }

  /** The connection after a number of completed writes. */
  function Completed(cfg: Config, c: Conn, writes: nat): (r: Conn) {
    if writes == 0 then c else OnStreamSent(cfg, Completed(cfg, c, writes - 1), true)
  }

  /** What is left of n octets after a number of writes. */
  function Left(n: nat, size: nat, writes: nat): (r: nat) {
    if writes * size >= n then 0 else n - writes * size
  }

  lemma LeftStep(n: nat, size: nat, writes: nat)
    ensures Left(n, size, writes + 1) == (if Left(n, size, writes) <= size then 0 else Left(n, size, writes) - size)
    ensures Left(n, size, 0) == n && (Left(n, size, writes) == 0 <==> writes * size >= n)
  {
    assert (writes + 1) * size == writes * size + size;
  }

  /** The stream, the windows and what the connection accepts, after a number of writes. */
  ghost predicate Sending(cfg: Config, c: Conn, d: Conn, writes: nat) {
    var left := Left(c.stream.buflen, cfg.writeSize, writes);
    && d.stream.buflen == left && d.window == c.window - c.stream.buflen + left
    && d.stream.window == c.stream.window - c.stream.buflen + left
    && d == c.(log := d.log, window := d.window, stream := d.stream) && d.stream.id == c.stream.id
    && d.stream.buf == c.stream.buf
    && (d.stream.state == Idle <==> writes > 0 && Left(c.stream.buflen, cfg.writeSize, writes - 1) == 0)
  }

  lemma OneWrite(cfg: Config, d: Conn)
    requires cfg.writeSize > 0 && d.stream.buflen <= d.window && d.stream.buflen <= d.stream.window
    ensures var s, n := d.stream, Min(d.stream.buflen, cfg.writeSize); var r := OnStreamSent(cfg, d, true);
            if s.buflen == 0 then r == Finish(d)
            else
              n > 0 &&
              r == d.(log := r.log, window := d.window - n,
                      stream := s.(buflen := s.buflen - n, window := s.window - n, bufpos := s.bufpos + n))
  {
  }

  lemma SendingStep(cfg: Config, c: Conn, d: Conn, writes: nat)
    requires cfg.writeSize > 0 && c.stream.buflen <= c.window && c.stream.buflen <= c.stream.window
    requires Sending(cfg, c, d, writes)
    ensures Sending(cfg, c, OnStreamSent(cfg, d, true), writes + 1)
  {
    hide OnStreamSent, Left;
    LeftStep(c.stream.buflen, cfg.writeSize, writes);
    if writes > 0 {
      LeftStep(c.stream.buflen, cfg.writeSize, writes - 1);
    }
    OneWrite(cfg, d);
  }

  lemma {:induction false} ResponseCompletes(cfg: Config, c: Conn, writes: nat)
    requires cfg.writeSize > 0 && c.stream.state != Idle
    requires c.stream.buflen <= c.window && c.stream.buflen <= c.stream.window
    ensures Sending(cfg, c, Completed(cfg, c, writes), writes)
  {
    hide OnStreamSent, Left;
    if writes == 0 {
      LeftStep(c.stream.buflen, cfg.writeSize, 0);
    } else {
      hide Sending;
      ResponseCompletes(cfg, c, writes - 1);
      SendingStep(cfg, c, Completed(cfg, c, writes - 1), writes - 1);
    }
  }

  /**
   * A stream ends with the first completed write that finds nothing left to send: with both windows as long as the
   * response, the next request is accepted if and only if the writes before that one covered it.
   */
  lemma AcceptsNextIff(cfg: Config, c: Conn, id: nat, content: seq<byte>, app: Oracle, writes: nat, next: nat)
    requires Sized(cfg, c) && c.reading && c.state != Closing && c.stream.state == HalfClosedRemote
    requires c.stream.id == c.lastOpened == id && !c.flags.waitingEndHeaders && !c.flags.waitingTrailers
    requires app(c.log + [Handled(id, c.stream.buf[..c.stream.buflen])]) == Respond(content, true)
    requires |content| <= cfg.streamBuf && |content| <= c.window && |content| <= c.stream.window && cfg.writeSize > 0
    requires next > id && next % 2 == 1
    ensures var d := Completed(cfg, EndStream(cfg, c, app).conn, writes);
            && (Accepting(cfg, d, next) <==> writes > 0 && (writes - 1) * cfg.writeSize >= |content|)
            && (Accepting(cfg, d, next) ==> d.window == c.window - |content|)
            && d.initialWindow == c.initialWindow && d.reading
  {
    var r := EndStream(cfg, c, app).conn;
    assert r.stream.buflen == |content|;
    ResponseCompletes(cfg, r, writes);
    if writes > 0 {
      LeftStep(|content|, cfg.writeSize, writes - 1);
    }
  }

  datatype Ask = Ask(id: nat, pad: seq<byte>, priority: seq<byte>, first: seq<byte>, parts: seq<seq<byte>>)

  ghost predicate Sendable(cfg: Config, a: Ask) {
    && |a.pad| < 256 && |a.priority| in {0, 5} && a.first != [] && NonEmpty(a.parts)
    && |a.first| + |Concat(a.parts)| <= cfg.streamBuf && AllFit(cfg, FramesOf(a))
  }

  function FramesOf(a: Ask): (fs: seq<Frame>)
    requires |a.pad| < 256 && |a.priority| in {0, 5}
  {
    Request(a.id, a.pad, a.priority, a.first, a.parts)
  }

  /** Enough reads, each of which may bring an octet. */
  ghost predicate Enough(sizes: seq<nat>, wire: seq<byte>) {
    2 * |wire| <= |sizes| && forall i :: 0 <= i < |sizes| ==> sizes[i] > 0
  }

  /** A whole exchange: a request arrives and is answered, its response is sent, and the next request arrives as well. */
  lemma SecondRequestArrives(
      cfg: Config, c: Conn, a: Ask, sizes: seq<nat>, content: seq<byte>, writes: nat, b: Ask, more: seq<nat>, app: Oracle)
    requires Accepting(cfg, c, a.id) && Sendable(cfg, a) && Sendable(cfg, b) && b.id > a.id && b.id % 2 == 1
    requires Enough(sizes, Wire(FramesOf(a))) && Enough(more, Wire(FramesOf(b)))
    requires var r := Requested(c, a.id, a.first, a.parts);
             app(r.log + [Handled(a.id, r.stream.buf[..r.stream.buflen])]) == Respond(content, true)
    requires |content| <= cfg.streamBuf && |content| <= c.window && |content| <= c.initialWindow
    requires cfg.writeSize > 0 && writes > 0 && (writes - 1) * cfg.writeSize >= |content|
    ensures var r := Reads(cfg, Link(c, []), Wire(FramesOf(a)), sizes, app).0;
            var d := Completed(cfg, r.conn, writes);
            && r.pending == [] && Accepting(cfg, d, b.id)
            && var log := Reads(cfg, Link(d, r.pending), Wire(FramesOf(b)), more, app).0.conn.log;
               d.log + [Opened(b.id), Fragment(b.first), GotEndStream] + Fragments(b.parts)
               + [GotEndHeaders, Handled(b.id, b.first + Concat(b.parts))] <= log
  {
    hide Reads, Dispatch, Wire, Request, AllFit, EndStream, Completed, NonEmpty, Concat, Fragments;
    var q := Requested(c, a.id, a.first, a.parts);
    RequestArrives(cfg, c, a.id, a.pad, a.priority, a.first, a.parts, sizes, app);
    AcceptsNextIff(cfg, q, a.id, content, app, writes, b.id);
    AcceptsNextIff(cfg, q, a.id, content, app, 0, b.id);
    CompletedNone(cfg, EndStream(cfg, q, app).conn);
    var d := Completed(cfg, EndStream(cfg, q, app).conn, writes);
    RequestArrives(cfg, d, b.id, b.pad, b.priority, b.first, b.parts, more, app);
    var n := Requested(d, b.id, b.first, b.parts);
    HandsOver(cfg, n, app);
    var log := d.log + [Opened(b.id), Fragment(b.first), GotEndStream] + Fragments(b.parts);
    assert n.stream.buf[..n.stream.buflen] == b.first + Concat(b.parts);
    assert (log + [GotEndHeaders]) + [Handled(b.id, b.first + Concat(b.parts))] ==
           log + [GotEndHeaders, Handled(b.id, b.first + Concat(b.parts))];
  }

  lemma CompletedNone(cfg: Config, c: Conn)
    ensures Completed(cfg, c, 0) == c
  {
  }
}
