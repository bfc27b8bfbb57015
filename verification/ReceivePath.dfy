/**
 * The receive path: bytes arrive in pieces of any size, wait in the read buffer, and the loop of
 * receiving (src/http2.c) takes complete frames out of them.
 */
module ReceivePath {
  import opened Bits
  import opened Frames
  import opened Http2Spec
  import opened Http2Invariant

  datatype Received = Received(conn: Conn, consumed: nat)

  lemma ProceedSized(cfg: Config, c: Conn, app: Oracle)
    requires Sized(cfg, c)
    ensures Sized(cfg, Proceed(cfg, c, app).conn)
  {
  }

  lemma HeaderBlockSized(cfg: Config, c: Conn, f: Frame, data: seq<byte>, app: Oracle)
    requires Sized(cfg, c)
    ensures Sized(cfg, HeaderBlock(cfg, c, f, data, app).conn)
  {
    hide Proceed, HasFlag, Take;
    ProceedSized(cfg, NoteFlags(Collect(cfg, c, data), HasFlag(f, END_STREAM), HasFlag(f, END_HEADERS)), app);
  }

  lemma OnHeadersSized(cfg: Config, c: Conn, f: Frame, app: Oracle)
    requires Sized(cfg, c)
    ensures Sized(cfg, OnHeaders(cfg, c, f, app).conn)
  {
    hide HeaderBlock, HasFlag, HeadersFragment, BadPadding;
    if !BadPadding(f) {
      HeaderBlockSized(cfg, OpenStream(c, f.streamId), f, HeadersFragment(f), app);
      HeaderBlockSized(cfg, BeginTrailers(c), f, HeadersFragment(f), app);
    }
  }

  lemma OnFrameSized(cfg: Config, c: Conn, f: Frame, app: Oracle)
    requires Sized(cfg, c)
    ensures Sized(cfg, OnFrame(cfg, c, f, app).conn)
  {
    hide UpdateSettings, U31, HasFlag, BadPadding, OnHeaders, HeaderBlock, Proceed;
    SettingsKeepStream(c, f.payload, 0);
    OnHeadersSized(cfg, c, f, app);
    HeaderBlockSized(cfg, c, f, f.payload, app);
    ProceedSized(cfg, NoteFlags(c, HasFlag(f, END_STREAM), false), app);
  }

  lemma {:induction false} SettingsKeepStream(c: Conn, data: seq<byte>, total: nat)
    ensures var s := UpdateSettings(c, data, total).0.stream; s.buf == c.stream.buf && s.buflen == c.stream.buflen
    decreases |data|
  {
    if |data| >= 6 {
      var id := Join(data[0], data[1]);
      var r := UpdateSetting(c, id, U32(data[2..6]));
      if r.1 {
        SettingsKeepStream(r.0, data[6..], if 1 <= id <= 6 then total + 1 else total);
      }
    }
  }

  /** receiving, with all the bytes of the read buffer. */
  function Receive(cfg: Config, c: Conn, buf: seq<byte>, app: Oracle): (r: Received)
    requires Sized(cfg, c)
    ensures Sized(cfg, r.conn) && r.consumed <= |buf|
    decreases |buf|
  {
    if |buf| < 9 then Received(c, 0)
    else
      var h := ParseHeader(buf);
      var n := 9 + h.length;
      if h.length > cfg.maxFrame then Received(Fail(c, FRAME_SIZE_ERROR), 0)
      else if h.length > cfg.readSize then Received(Fail(c, FLOW_CONTROL_ERROR), 0)
      else if |buf| < n then Received(c, 0)
      else if c.flags.waitingEndHeaders && h.kind != CONTINUATION then Received(Fail(c, PROTOCOL_ERROR), 9)
      else
        var f := Frame(h.kind, h.flags, h.streamId, buf[9..n]);
        var s := OnFrame(cfg, c, f, app);
        OnFrameSized(cfg, c, f, app);
        if s.rc < 0 then Received(s.conn, n)
        else
          var r := Receive(cfg, s.conn, buf[n..], app);
          Received(r.conn, n + r.consumed)
  }

  /** Frames handled one after the other. */
  function Dispatch(cfg: Config, c: Conn, fs: seq<Frame>, app: Oracle): (r: Conn)
    requires Sized(cfg, c)
    ensures Sized(cfg, r)
    decreases |fs|
  {
    if fs == [] then c
    else
      OnFrameSized(cfg, c, fs[0], app);
      Dispatch(cfg, OnFrame(cfg, c, fs[0], app).conn, fs[1..], app)
  }

  /** No frame is answered with an error, and the connection keeps reading. */
  predicate Calm(cfg: Config, c: Conn, fs: seq<Frame>, app: Oracle)
    requires Sized(cfg, c)
    decreases |fs|
  {
    if fs == [] then c.reading
    else
      OnFrameSized(cfg, c, fs[0], app);
      var r := OnFrame(cfg, c, fs[0], app);
      c.reading && r.rc >= 0 && Calm(cfg, r.conn, fs[1..], app)
  }

  function Wire(fs: seq<Frame>): (r: seq<byte>) {
    if fs == [] then [] else FrameBytes(fs[0]) + Wire(fs[1..])
  }

  /** A frame the read buffer can hold as a whole. */
  ghost predicate Fits(cfg: Config, f: Frame) {
    ValidFrame(f) && |f.payload| <= cfg.maxFrame && 9 + |f.payload| <= cfg.readSize
  }

  ghost predicate AllFit(cfg: Config, fs: seq<Frame>) {
    forall i :: 0 <= i < |fs| ==> Fits(cfg, fs[i])
  }

  /** Nothing, or the beginning of the first frame and not all of it. */
  ghost predicate Incomplete(bytes: seq<byte>, fs: seq<Frame>) {
    bytes == [] || (fs != [] && |bytes| < 9 + |fs[0].payload| && bytes <= FrameBytes(fs[0]))
  }

  lemma ParsesFrame(f: Frame, bytes: seq<byte>)
    requires ValidFrame(f) && 9 <= |bytes| && bytes[..9] == FrameBytes(f)[..9]
    ensures ParseHeader(bytes) == Header(|f.payload|, f.kind, f.flags, f.streamId)
  {
    hide HeaderBytes, ParseHeader;
    var h := Header(|f.payload|, f.kind, f.flags, f.streamId);
    assert FrameBytes(f)[..9] == HeaderBytes(h);
    assert bytes == HeaderBytes(h) + bytes[9..];
    HeaderRoundTrip(h, bytes[9..]);
  }

  /** An incomplete frame is left for later. */
  lemma LeavesIncomplete(cfg: Config, c: Conn, bytes: seq<byte>, fs: seq<Frame>, app: Oracle)
    requires Sized(cfg, c) && AllFit(cfg, fs) && Incomplete(bytes, fs)
    ensures Receive(cfg, c, bytes, app) == Received(c, 0)
  {
    hide FrameBytes, ParseHeader, OnFrame;
    if |bytes| >= 9 {
      assert bytes[..9] == FrameBytes(fs[0])[..9];
      ParsesFrame(fs[0], bytes);
    }
  }

  /** A complete frame is handled. */
  lemma TakesFrame(cfg: Config, c: Conn, f: Frame, rest: seq<byte>, app: Oracle)
    requires Sized(cfg, c) && Fits(cfg, f)
    ensures var r := Receive(cfg, c, FrameBytes(f) + rest, app); var s := OnFrame(cfg, c, f, app);
            var n := 9 + |f.payload|;
            && Sized(cfg, s.conn)
            && (s.rc < 0 ==> r.conn == s.conn && (s.conn.reading ==> r.consumed == n))
            && (s.rc >= 0 ==>
                  var t := Receive(cfg, s.conn, rest, app); r.conn == t.conn && r.consumed == n + t.consumed)
  {
    var bytes, n := FrameBytes(f) + rest, 9 + |f.payload|;
    assert bytes[9..n] == f.payload && bytes[n..] == rest;
    assert bytes[..9] == FrameBytes(f)[..9];
    ParsesFrame(f, bytes);
    OnFrameSized(cfg, c, f, app);
    if c.flags.waitingEndHeaders && f.kind != CONTINUATION {
      WaitingFails(cfg, c, f, app);
    }
    hide FrameBytes, ParseHeader, OnFrame, Sized;
    assert f == Frame(f.kind, f.flags, f.streamId, f.payload);
  }

  lemma WaitingFails(cfg: Config, c: Conn, f: Frame, app: Oracle)
    requires Sized(cfg, c) && c.flags.waitingEndHeaders && f.kind != CONTINUATION
    ensures OnFrame(cfg, c, f, app) == Step(Fail(c, PROTOCOL_ERROR), -1) && !Fail(c, PROTOCOL_ERROR).reading
  {
  }

  lemma {:induction false} DispatchConcat(cfg: Config, c: Conn, a: seq<Frame>, b: seq<Frame>, app: Oracle)
    requires Sized(cfg, c)
    ensures Dispatch(cfg, c, a + b, app) == Dispatch(cfg, Dispatch(cfg, c, a, app), b, app)
    decreases |a|
  {
    hide OnFrame;
    if a == [] {
      assert a + b == b;
    } else {
      OnFrameSized(cfg, c, a[0], app);
      assert (a + b)[1..] == a[1..] + b;
      DispatchConcat(cfg, OnFrame(cfg, c, a[0], app).conn, a[1..], b, app);
    }
  }

  lemma {:induction false} WireConcat(a: seq<Frame>, b: seq<Frame>)
    ensures Wire(a + b) == Wire(a) + Wire(b)
  {
    hide FrameBytes;
    if a == [] {
      assert a + b == b;
    } else {
      assert (a + b)[1..] == a[1..] + b;
      WireConcat(a[1..], b);
    }
  }

  /** How many of some frames one call of receiving handles: up to the first that is answered with an error. */
  function HandledAtOnce(cfg: Config, c: Conn, fs: seq<Frame>, app: Oracle): (k: nat)
    requires Sized(cfg, c)
    ensures k <= |fs| && (fs != [] ==> k > 0)
    decreases |fs|
  {
    if fs == [] then 0
    else
      OnFrameSized(cfg, c, fs[0], app);
      var r := OnFrame(cfg, c, fs[0], app);
      if r.rc < 0 then 1 else 1 + HandledAtOnce(cfg, r.conn, fs[1..], app)
  }

  /** One call of receiving on the bytes of some frames and the beginning of a next one handles exactly so many. */
  lemma {:induction false} ReceivesFrames(cfg: Config, c: Conn, fs: seq<Frame>, tail: seq<byte>, next: seq<Frame>, app: Oracle)
    requires Sized(cfg, c) && AllFit(cfg, fs) && AllFit(cfg, next) && Incomplete(tail, next)
    ensures var r, k := Receive(cfg, c, Wire(fs) + tail, app), HandledAtOnce(cfg, c, fs, app);
            && r.conn == Dispatch(cfg, c, fs[..k], app)
            && (r.conn.reading ==> r.consumed == |Wire(fs[..k])|)
    ensures Calm(cfg, c, fs[..HandledAtOnce(cfg, c, fs, app)], app) ==> HandledAtOnce(cfg, c, fs, app) == |fs|
    decreases |fs|
  {
    hide OnFrame, FrameBytes, Receive, Incomplete, Fits;
    if fs == [] {
      assert Wire(fs) + tail == tail;
      LeavesIncomplete(cfg, c, tail, next, app);
    } else {
      var f, rest := fs[0], fs[1..];
      var s := OnFrame(cfg, c, f, app);
      assert Wire(fs) + tail == FrameBytes(f) + (Wire(rest) + tail);
      TakesFrame(cfg, c, f, Wire(rest) + tail, app);
      Unfold(cfg, c, f, [], app);
      HandledCons(cfg, c, f, rest, app);
      assert fs == [f] + rest;
      hide Dispatch, Calm, Wire, HandledAtOnce;
      if s.rc < 0 {
        assert fs[..1] == [f] + [];
      } else {
        ReceivesFrames(cfg, s.conn, rest, tail, next, app);
        var m := HandledAtOnce(cfg, s.conn, rest, app);
        assert fs[..m + 1] == [f] + rest[..m];
        Unfold(cfg, c, f, rest[..m], app);
      }
    }
  }

  lemma HandledCons(cfg: Config, c: Conn, f: Frame, fs: seq<Frame>, app: Oracle)
    requires Sized(cfg, c)
    ensures var s := OnFrame(cfg, c, f, app);
            && Sized(cfg, s.conn)
            && HandledAtOnce(cfg, c, [f] + fs, app) == if s.rc < 0 then 1 else 1 + HandledAtOnce(cfg, s.conn, fs, app)
  {
    hide OnFrame;
    OnFrameSized(cfg, c, f, app);
    assert ([f] + fs)[1..] == fs;
  }

  lemma Unfold(cfg: Config, c: Conn, f: Frame, fs: seq<Frame>, app: Oracle)
    requires Sized(cfg, c)
    ensures var s := OnFrame(cfg, c, f, app);
            && Sized(cfg, s.conn)
            && Dispatch(cfg, c, [f] + fs, app) == Dispatch(cfg, s.conn, fs, app)
            && (Calm(cfg, c, [f] + fs, app) <==> c.reading && s.rc >= 0 && Calm(cfg, s.conn, fs, app))
            && Wire([f] + fs) == FrameBytes(f) + Wire(fs)
            && Dispatch(cfg, c, [], app) == c && Dispatch(cfg, s.conn, [], app) == s.conn && Wire([]) == []
  {
    hide OnFrame, FrameBytes;
    OnFrameSized(cfg, c, f, app);
    assert ([f] + fs)[1..] == fs;
  }

  /** How many whole frames the first n bytes hold. */
  function Whole(fs: seq<Frame>, n: nat): (k: nat)
    ensures k <= |fs|
  {
    if fs == [] || n < 9 + |fs[0].payload| then 0 else 1 + Whole(fs[1..], n - 9 - |fs[0].payload|)
  }

  /** Any beginning of the wire is the whole frames in it and the beginning of the next. */
  lemma {:induction false} SplitWire(fs: seq<Frame>, bytes: seq<byte>) returns (tail: seq<byte>)
    requires bytes <= Wire(fs)
    ensures var k := Whole(fs, |bytes|); bytes == Wire(fs[..k]) + tail && Incomplete(tail, fs[k..])
    decreases |fs|
  {
    hide FrameBytes;
    if fs == [] || |bytes| < 9 + |fs[0].payload| {
      tail := bytes;
    } else {
      var first, rest := FrameBytes(fs[0]), bytes[9 + |fs[0].payload|..];
      assert bytes == first + rest;
      assert rest <= Wire(fs[1..]);
      tail := SplitWire(fs[1..], rest);
      FirstOfWire(fs, Whole(fs[1..], |rest|));
      hide Whole, Wire;
    }
  }

  lemma FirstOfWire(fs: seq<Frame>, k: nat)
    requires fs != [] && k < |fs|
    ensures Wire(fs[..k + 1]) == FrameBytes(fs[0]) + Wire(fs[1..][..k]) && fs[1..][k..] == fs[k + 1..]
  {
    hide FrameBytes;
    assert fs[..k + 1][1..] == fs[1..][..k];
  }

  /** A connection and the bytes that wait in its read buffer. */
  datatype Link = Link(conn: Conn, pending: seq<byte>)

  /** Bytes arrive (event_sock_read) and are shown to receiving (event_sock_handle_read). */
  function Deliver(cfg: Config, l: Link, chunk: seq<byte>, app: Oracle): (r: Link)
    requires Sized(cfg, l.conn)
    ensures Sized(cfg, r.conn)
  {
    if !l.conn.reading then l
    else
      var buf := l.pending + chunk;
      var r := Receive(cfg, l.conn, buf, app);
      Link(r.conn, if r.conn.reading then buf[r.consumed..] else [])
  }

  /** Another byte can be received: a read with no room would be taken for the end of the connection. */
  predicate HasRoom(cfg: Config, l: Link) {
    l.pending == [] || |l.pending| < cfg.readSize
  }

  /** The first k frames were handled, in order, and the bytes of the others are still to come. */
  ghost predicate InOrder(cfg: Config, c0: Conn, fs: seq<Frame>, k: nat, l: Link, wire: seq<byte>, app: Oracle)
    requires Sized(cfg, c0)
  {
    && k <= |fs|
    && l.conn == Dispatch(cfg, c0, fs[..k], app)
    && (l.conn.reading ==> l.pending + wire == Wire(fs[k..]) && HasRoom(cfg, l))
    && (Calm(cfg, c0, fs[..k], app) ==> Incomplete(l.pending, fs[k..]))
  }

  lemma {:induction false} CalmConcat(cfg: Config, c: Conn, a: seq<Frame>, b: seq<Frame>, app: Oracle)
    requires Sized(cfg, c)
    ensures Calm(cfg, c, a + b, app) <==> Calm(cfg, c, a, app) && Calm(cfg, Dispatch(cfg, c, a, app), b, app)
    ensures Calm(cfg, c, a, app) ==> Dispatch(cfg, c, a, app).reading
    decreases |a|
  {
    hide OnFrame;
    if a == [] {
      assert a + b == b;
    } else {
      OnFrameSized(cfg, c, a[0], app);
      assert (a + b)[1..] == a[1..] + b;
      CalmConcat(cfg, OnFrame(cfg, c, a[0], app).conn, a[1..], b, app);
    }
  }

  /** How many frames one read and the call of receiving after it handle. */
  function HandledNext(cfg: Config, l: Link, fs: seq<Frame>, n: nat, app: Oracle): (k: nat)
    requires Sized(cfg, l.conn)
    ensures k <= |fs|
  {
    if l.conn.reading then HandledAtOnce(cfg, l.conn, fs[..Whole(fs, |l.pending| + n)], app) else 0
  }

  /**
   * One read keeps the order, whatever part of the wire it brings. Whatever waits afterwards is shorter than the
   * buffer: either a frame was taken out of it, or it holds no whole frame.
   */
  lemma DeliverInOrder(cfg: Config, c0: Conn, fs: seq<Frame>, k: nat, l: Link, wire: seq<byte>, n: nat, app: Oracle)
    requires Sized(cfg, c0) && Sized(cfg, l.conn) && AllFit(cfg, fs)
    requires InOrder(cfg, c0, fs, k, l, wire, app) && n <= |wire| && (n > 0 ==> |l.pending| + n <= cfg.readSize)
    ensures InOrder(cfg, c0, fs, k + HandledNext(cfg, l, fs[k..], n, app), Deliver(cfg, l, wire[..n], app), wire[n..], app)
  {
    NothingWaits(fs);
    hide Sized, Receive, Dispatch, Calm, AllFit, FrameBytes, Wire, Incomplete, HandledAtOnce, Whole;
    if l.conn.reading {
      var buf, rest := l.pending + wire[..n], fs[k..];
      assert buf + wire[n..] == Wire(rest);
      AllFitSlice(cfg, fs, k, |fs|);
      assert fs[k..|fs|] == rest;
      OneCall(cfg, l.conn, rest, buf, wire[n..], app);
      var j := HandledAtOnce(cfg, l.conn, rest[..Whole(rest, |buf|)], app);
      DispatchOn(cfg, c0, fs, k, j, app);
      assert rest[j..] == fs[k + j..];
    }
  }

  /** One call of receiving with a beginning of some frames in the buffer: the frames handled are gone from it, no others. */
  lemma SplitCall(cfg: Config, c: Conn, fs: seq<Frame>, buf: seq<byte>, wire: seq<byte>, app: Oracle)
    returns (tail: seq<byte>)
    requires Sized(cfg, c) && AllFit(cfg, fs) && buf + wire == Wire(fs)
    ensures var r := Receive(cfg, c, buf, app); var m := Whole(fs, |buf|); var j := HandledAtOnce(cfg, c, fs[..m], app);
            && r.conn == Dispatch(cfg, c, fs[..j], app)
            && AllFit(cfg, fs[..m]) && AllFit(cfg, fs[m..])
            && buf == Wire(fs[..m]) + tail && Incomplete(tail, fs[m..])
            && (r.conn.reading ==> r.consumed == |Wire(fs[..j])|)
            && (Calm(cfg, c, fs[..j], app) ==> j == m)
  {
    var m := Whole(fs, |buf|);
    tail := SplitWire(fs, buf);
    AllFitSlice(cfg, fs, 0, m);
    AllFitSlice(cfg, fs, m, |fs|);
    assert fs[0..m] == fs[..m] && fs[m..|fs|] == fs[m..];
    hide *;
    ReceivesFrames(cfg, c, fs[..m], tail, fs[m..], app);
    assert fs[..m][..HandledAtOnce(cfg, c, fs[..m], app)] == fs[..HandledAtOnce(cfg, c, fs[..m], app)];
  }

  lemma OneCall(cfg: Config, c: Conn, fs: seq<Frame>, buf: seq<byte>, wire: seq<byte>, app: Oracle)
    requires Sized(cfg, c) && AllFit(cfg, fs) && buf + wire == Wire(fs) && (|buf| <= cfg.readSize || buf == [])
    ensures var r := Receive(cfg, c, buf, app); var m := Whole(fs, |buf|); var j := HandledAtOnce(cfg, c, fs[..m], app);
            && r.conn == Dispatch(cfg, c, fs[..j], app)
            && (r.conn.reading ==>
                  var left := buf[r.consumed..]; left + wire == Wire(fs[j..]) && (left == [] || |left| < cfg.readSize))
            && (Calm(cfg, c, fs[..j], app) ==> r.conn.reading ==> Incomplete(buf[r.consumed..], fs[j..]))
  {
    var tail := SplitCall(cfg, c, fs, buf, wire, app);
    hide *;
    var m := Whole(fs, |buf|);
    var j := HandledAtOnce(cfg, c, fs[..m], app);
    SomeHandled(cfg, c, fs[..m], app);
    Taken(fs, m, j, buf, wire, tail);
    RoomAfter(cfg, fs, m, j, buf, tail);
  }

  lemma SomeHandled(cfg: Config, c: Conn, fs: seq<Frame>, app: Oracle)
    requires Sized(cfg, c)
    ensures |fs| > 0 ==> HandledAtOnce(cfg, c, fs, app) > 0
  {
  }

  lemma NothingWaits(fs: seq<Frame>)
    ensures forall k :: 0 <= k <= |fs| ==> Incomplete([], fs[k..])
  {
  }

  lemma DispatchOn(cfg: Config, c0: Conn, fs: seq<Frame>, k: nat, j: nat, app: Oracle)
    requires Sized(cfg, c0) && k <= |fs| && j <= |fs[k..]|
    ensures Dispatch(cfg, c0, fs[..k + j], app) == Dispatch(cfg, Dispatch(cfg, c0, fs[..k], app), fs[k..][..j], app)
    ensures Calm(cfg, c0, fs[..k + j], app) ==> Calm(cfg, Dispatch(cfg, c0, fs[..k], app), fs[k..][..j], app)
  {
    hide *;
    assert fs[..k + j] == fs[..k] + fs[k..][..j];
    DispatchConcat(cfg, c0, fs[..k], fs[k..][..j], app);
    CalmConcat(cfg, c0, fs[..k], fs[k..][..j], app);
  }

  /** The bytes of the frames that were handled are gone, the others are still there. */
  lemma Taken(rest: seq<Frame>, m: nat, j: nat, buf: seq<byte>, wire: seq<byte>, tail: seq<byte>)
    requires j <= m <= |rest|
    requires buf + wire == Wire(rest) && buf == Wire(rest[..m]) + tail && Incomplete(tail, rest[m..])
    ensures |Wire(rest[..j])| <= |buf|
    ensures var left := buf[|Wire(rest[..j])|..];
            && left + wire == Wire(rest[j..]) && left == Wire(rest[j..m]) + tail
            && (j == m ==> Incomplete(left, rest[j..]))
  {
    WireIsEmptyIff([]);
    hide *;
    assert rest == rest[..j] + rest[j..] && rest[..m] == rest[..j] + rest[j..m];
    WireConcat(rest[..j], rest[j..]);
    WireConcat(rest[..j], rest[j..m]);
    DropFront(buf, wire, Wire(rest[..j]), Wire(rest[j..]), Wire(rest[j..m]) + tail);
    if j == m {
      assert rest[j..m] == [] && [] + tail == tail;
    }
  }

  lemma RoomAfter(cfg: Config, rest: seq<Frame>, m: nat, j: nat, buf: seq<byte>, tail: seq<byte>)
    requires j <= m <= |rest| && (m > 0 ==> j > 0) && AllFit(cfg, rest[..m]) && AllFit(cfg, rest[m..])
    requires buf == Wire(rest[..m]) + tail && Incomplete(tail, rest[m..])
    requires |buf| <= cfg.readSize || buf == []
    ensures |Wire(rest[..j])| <= |buf|
    ensures var left := buf[|Wire(rest[..j])|..]; left == [] || |left| < cfg.readSize
  {
    hide FrameBytes;
    assert rest[..m] == rest[..j] + rest[j..m];
    WireConcat(rest[..j], rest[j..m]);
    if m == 0 {
      assert buf == tail;
      if tail != [] {
        assert Fits(cfg, rest[m..][0]);
      }
    } else {
      assert Wire(rest[..j]) == FrameBytes(rest[..j][0]) + Wire(rest[..j][1..]);
    }
  }

  lemma AllFitSlice(cfg: Config, fs: seq<Frame>, i: nat, j: nat)
    requires AllFit(cfg, fs) && i <= j <= |fs|
    ensures AllFit(cfg, fs[i..j]) && fs[i..][..j - i] == fs[i..j] && fs[i..][j - i..] == fs[j..]
  {
  }

  lemma DropFront(buf: seq<byte>, wire: seq<byte>, front: seq<byte>, back: seq<byte>, left: seq<byte>)
    requires buf + wire == front + back && buf == front + left
    ensures buf[|front|..] + wire == back && buf[|front|..] == left
  {
    assert (buf + wire)[|front|..] == back;
  }

  /** A read of at most the given size: no more than the buffer has room for and no more than has arrived. */
  function ReadSize(cfg: Config, l: Link, wire: seq<byte>, size: nat): (n: nat)
    ensures n <= |wire|
  {
    var room := if |l.pending| <= cfg.readSize then cfg.readSize - |l.pending| else 0;
    Min(size, Min(room, |wire|))
  }

  /** Reads of the given sizes, one after the other; also what is left on the wire. */
  function Reads(cfg: Config, l: Link, wire: seq<byte>, sizes: seq<nat>, app: Oracle): (r: (Link, seq<byte>))
    requires Sized(cfg, l.conn)
    decreases |sizes|
  {
    if sizes == [] then (l, wire)
    else
      var n := ReadSize(cfg, l, wire, sizes[0]);
      Reads(cfg, Deliver(cfg, l, wire[..n], app), wire[n..], sizes[1..], app)
  }

  /** How many frames have been handled after some reads. */
  function HandledBy(cfg: Config, l: Link, fs: seq<Frame>, wire: seq<byte>, sizes: seq<nat>, app: Oracle): (k: nat)
    requires Sized(cfg, l.conn)
    ensures k <= |fs|
    decreases |sizes|
  {
    if sizes == [] then 0
    else
      var n := ReadSize(cfg, l, wire, sizes[0]);
      var k := HandledNext(cfg, l, fs, n, app);
      k + HandledBy(cfg, Deliver(cfg, l, wire[..n], app), fs[k..], wire[n..], sizes[1..], app)
  }

  lemma ReadSizeFits(cfg: Config, l: Link, wire: seq<byte>, size: nat)
    ensures var n := ReadSize(cfg, l, wire, size);
            && (n > 0 ==> |l.pending| + n <= cfg.readSize)
            && (size > 0 && wire != [] && |l.pending| < cfg.readSize ==> n > 0)
  {
  }

  lemma FirstRead(cfg: Config, l: Link, fs: seq<Frame>, wire: seq<byte>, sizes: seq<nat>, app: Oracle)
    requires Sized(cfg, l.conn)
    ensures Reads(cfg, l, wire, [], app) == (l, wire) && HandledBy(cfg, l, fs, wire, [], app) == 0
    ensures sizes != [] ==>
            var n := ReadSize(cfg, l, wire, sizes[0]);
            var d, k := Deliver(cfg, l, wire[..n], app), HandledNext(cfg, l, fs, n, app);
            && Reads(cfg, l, wire, sizes, app) == Reads(cfg, d, wire[n..], sizes[1..], app)
            && HandledBy(cfg, l, fs, wire, sizes, app) == k + HandledBy(cfg, d, fs[k..], wire[n..], sizes[1..], app)
  {
    hide Deliver, ReadSize, HandledNext;
  }

  lemma {:induction false} ReadsInOrder(
      cfg: Config, c0: Conn, fs: seq<Frame>, k: nat, l: Link, wire: seq<byte>, sizes: seq<nat>, app: Oracle)
    requires Sized(cfg, c0) && Sized(cfg, l.conn) && AllFit(cfg, fs) && k <= |fs| && InOrder(cfg, c0, fs, k, l, wire, app)
    ensures var r := Reads(cfg, l, wire, sizes, app);
            InOrder(cfg, c0, fs, k + HandledBy(cfg, l, fs[k..], wire, sizes, app), r.0, r.1, app)
    decreases |sizes|
  {
    hide Sized, AllFit, InOrder, Deliver, ReadSize, HandledNext, Reads, HandledBy;
    FirstRead(cfg, l, fs[k..], wire, sizes, app);
    if sizes != [] {
      var n := ReadSize(cfg, l, wire, sizes[0]);
      ReadSizeFits(cfg, l, wire, sizes[0]);
      DeliverInOrder(cfg, c0, fs, k, l, wire, n, app);
      var j := HandledNext(cfg, l, fs[k..], n, app);
      var d, k' := Deliver(cfg, l, wire[..n], app), k + j;
      assert fs[k..][j..] == fs[k'..];
      ReadsInOrder(cfg, c0, fs, k', d, wire[n..], sizes[1..], app);
      assert k + (j + HandledBy(cfg, d, fs[k'..], wire[n..], sizes[1..], app)) == k' + HandledBy(cfg, d, fs[k'..], wire[n..], sizes[1..], app);
    }
  }

  /** A link on which nothing has arrived yet. */
  lemma StartsInOrder(cfg: Config, c: Conn, fs: seq<Frame>, app: Oracle)
    requires Sized(cfg, c)
    ensures InOrder(cfg, c, fs, 0, Link(c, []), Wire(fs), app)
  {
    assert [] + Wire(fs) == Wire(fs) && fs[0..] == fs;
  }

  /**
   * Frames that fit the read buffer, cut into reads of any sizes, are handled in order and none is lost,
   * repeated or changed, and there is room for another byte, for as long as the connection reads;
   * until a frame is answered with an error, only an incomplete frame waits.
   */
  lemma FramesArriveInOrder(cfg: Config, c: Conn, fs: seq<Frame>, sizes: seq<nat>, app: Oracle)
    requires Sized(cfg, c) && AllFit(cfg, fs)
    ensures var r, k := Reads(cfg, Link(c, []), Wire(fs), sizes, app), HandledBy(cfg, Link(c, []), fs, Wire(fs), sizes, app);
            && r.0.conn == Dispatch(cfg, c, fs[..k], app)
            && (r.0.conn.reading ==> r.0.pending + r.1 == Wire(fs[k..]) && HasRoom(cfg, r.0))
            && (Calm(cfg, c, fs[..k], app) ==> Incomplete(r.0.pending, fs[k..]))
  {
    hide Sized, Reads, HandledBy, Dispatch, Calm, Wire, Incomplete;
    StartsInOrder(cfg, c, fs, app);
    assert fs[0..] == fs;
    ReadsInOrder(cfg, c, fs, 0, Link(c, []), Wire(fs), sizes, app);
  }

  lemma WholeIsComplete(fs: seq<Frame>, tail: seq<byte>, all: seq<Frame>)
    requires fs != [] && all != [] && fs[0] == all[0]
    ensures !Incomplete(Wire(fs) + tail, all)
  {
    assert |Wire(fs)| >= 9 + |fs[0].payload|;
  }

  /** One of some frames, not the last, is answered with an error. */
  ghost predicate ErrorBefore(cfg: Config, c: Conn, fs: seq<Frame>, app: Oracle)
    requires Sized(cfg, c)
  {
    exists i :: 0 <= i < |fs| - 1 && OnFrame(cfg, Dispatch(cfg, c, fs[..i], app), fs[i], app).rc < 0
  }

  /** It stops short of them exactly at a frame that is answered with an error. */
  lemma {:induction false} StopsShortIff(cfg: Config, c: Conn, fs: seq<Frame>, app: Oracle)
    requires Sized(cfg, c)
    ensures HandledAtOnce(cfg, c, fs, app) < |fs| <==> ErrorBefore(cfg, c, fs, app)
    decreases |fs|
  {
    hide OnFrame;
    if |fs| > 0 {
      var f, rest := fs[0], fs[1..];
      assert fs == [f] + rest;
      HandledCons(cfg, c, f, rest, app);
      var s := OnFrame(cfg, c, f, app);
      StopsShortIff(cfg, s.conn, rest, app);
      forall i | 0 <= i < |rest|
        ensures Dispatch(cfg, c, fs[..i + 1], app) == Dispatch(cfg, s.conn, rest[..i], app) && fs[i + 1] == rest[i]
      {
        assert fs[..i + 1] == [f] + rest[..i];
        Unfold(cfg, c, f, rest[..i], app);
      }
      assert fs[..0] == [] && Dispatch(cfg, c, [], app) == c;
    }
  }

  /**
   * With a beginning of some frames in the buffer, whole ones or not, one call of receiving leaves a whole frame there if and
   * only if one before it was answered with an error while reading went on.
   */
  lemma WholeFrameWaitsIff(cfg: Config, c: Conn, fs: seq<Frame>, buf: seq<byte>, wire: seq<byte>, app: Oracle)
    requires Sized(cfg, c) && AllFit(cfg, fs) && buf + wire == Wire(fs)
    ensures var r := Receive(cfg, c, buf, app); var held := fs[..Whole(fs, |buf|)];
            r.conn.reading ==>
              (!Incomplete(buf[r.consumed..], fs[HandledAtOnce(cfg, c, held, app)..]) <==> ErrorBefore(cfg, c, held, app))
  {
    var tail := SplitCall(cfg, c, fs, buf, wire, app);
    var m := Whole(fs, |buf|);
    var j := HandledAtOnce(cfg, c, fs[..m], app);
    hide *;
    Taken(fs, m, j, buf, wire, tail);
    StopsShortIff(cfg, c, fs[..m], app);
    if j < m {
      assert fs[j..m][0] == fs[j..][0];
      WholeIsComplete(fs[j..m], tail, fs[j..]);
    }
  }

  /** A frame on a closed stream is such a frame: what follows it in the buffer waits for the next call. */
  lemma WaitsAfterStreamError(cfg: Config, c: Conn, rest: seq<Frame>, app: Oracle)
    requires Sized(cfg, c) && c.reading && c.stream.state == Idle && c.lastOpened > 0 && !c.flags.waitingEndHeaders
    ensures var f := Frame(DATA, 0, c.lastOpened, []);
            HandledAtOnce(cfg, c, [f] + rest, app) == 1 && Dispatch(cfg, c, [f], app).reading
  {
    var f := Frame(DATA, 0, c.lastOpened, []);
    HandledCons(cfg, c, f, rest, app);
    Unfold(cfg, c, f, [], app);
    assert [f] + [] == [f];
  }

  /** What is still to come, counting twice what is on the wire: every read and every call brings it down. */
  function Left(l: Link, wire: seq<byte>): (n: nat) {
    2 * |wire| + |l.pending|
  }

  lemma DeliverProgress(cfg: Config, c0: Conn, fs: seq<Frame>, k: nat, l: Link, wire: seq<byte>, size: nat, app: Oracle)
    requires Sized(cfg, c0) && Sized(cfg, l.conn) && AllFit(cfg, fs) && InOrder(cfg, c0, fs, k, l, wire, app)
    requires size > 0 && Left(l, wire) > 0
    ensures var n := ReadSize(cfg, l, wire, size); var d := Deliver(cfg, l, wire[..n], app);
            d.conn.reading ==> Left(d, wire[n..]) < Left(l, wire)
  {
    var n := ReadSize(cfg, l, wire, size);
    ReadSizeFits(cfg, l, wire, size);
    var d := Deliver(cfg, l, wire[..n], app);
    if d.conn.reading {
      if wire == [] {
        WholeFrameTaken(cfg, c0, fs, k, l, app);
        assert wire[..n] == [] && l.pending + [] == l.pending;
      } else if l.pending == [] {
        WireFits(cfg, fs, k, wire);
      }
    }
    hide Receive, ReadSize;
  }

  lemma WireFits(cfg: Config, fs: seq<Frame>, k: nat, wire: seq<byte>)
    requires AllFit(cfg, fs) && k <= |fs| && wire == Wire(fs[k..]) && wire != []
    ensures cfg.readSize > 0
  {
    assert fs[k..] != [] && Fits(cfg, fs[k]);
  }

  /** With nothing more on the wire a whole frame waits, and receiving takes it. */
  lemma WholeFrameTaken(cfg: Config, c0: Conn, fs: seq<Frame>, k: nat, l: Link, app: Oracle)
    requires Sized(cfg, c0) && Sized(cfg, l.conn) && AllFit(cfg, fs) && InOrder(cfg, c0, fs, k, l, [], app)
    requires l.conn.reading && l.pending != []
    ensures var r := Receive(cfg, l.conn, l.pending, app); r.conn.reading ==> r.consumed > 0
  {
    assert l.pending + [] == l.pending && fs[k..] != [];
    var f, rest := fs[k], Wire(fs[k..][1..]);
    assert l.pending == FrameBytes(f) + rest && Fits(cfg, f);
    TakesFrame(cfg, l.conn, f, rest, app);
    hide Receive, OnFrame, FrameBytes;
  }

  lemma {:induction false} ReadsProgress(
      cfg: Config, c0: Conn, fs: seq<Frame>, k: nat, l: Link, wire: seq<byte>, sizes: seq<nat>, app: Oracle)
    requires Sized(cfg, c0) && Sized(cfg, l.conn) && AllFit(cfg, fs) && InOrder(cfg, c0, fs, k, l, wire, app)
    requires Left(l, wire) <= |sizes| && forall i :: 0 <= i < |sizes| ==> sizes[i] > 0
    ensures var r := Reads(cfg, l, wire, sizes, app);
            r.0.conn.reading ==> r == (Link(Dispatch(cfg, c0, fs, app), []), [])
    decreases |sizes|
  {
    hide Sized, Dispatch, Calm, AllFit, Deliver, Incomplete, ReadSize;
    if !l.conn.reading {
      StaysStopped(cfg, l, wire, sizes, app);
    } else if Left(l, wire) == 0 {
      assert l.pending + wire == [] && fs[..|fs|] == fs;
      WireIsEmptyIff(fs[k..]);
      NoMoreReads(cfg, l, sizes, app);
    } else {
      var n := ReadSize(cfg, l, wire, sizes[0]);
      ReadSizeFits(cfg, l, wire, sizes[0]);
      DeliverInOrder(cfg, c0, fs, k, l, wire, n, app);
      DeliverProgress(cfg, c0, fs, k, l, wire, sizes[0], app);
      var d := Deliver(cfg, l, wire[..n], app);
      var j := k + HandledNext(cfg, l, fs[k..], n, app);
      hide InOrder, HandledNext;
      if d.conn.reading {
        ReadsProgress(cfg, c0, fs, j, d, wire[n..], sizes[1..], app);
      } else {
        StaysStopped(cfg, d, wire[n..], sizes[1..], app);
      }
    }
  }

  lemma {:induction false} StaysStopped(cfg: Config, l: Link, wire: seq<byte>, sizes: seq<nat>, app: Oracle)
    requires Sized(cfg, l.conn) && !l.conn.reading
    ensures Reads(cfg, l, wire, sizes, app).0 == l
    decreases |sizes|
  {
    hide ReadSize, Receive;
    if sizes != [] {
      StaysStopped(cfg, l, wire[ReadSize(cfg, l, wire, sizes[0])..], sizes[1..], app);
    }
  }

  lemma {:induction false} NoMoreReads(cfg: Config, l: Link, sizes: seq<nat>, app: Oracle)
    requires Sized(cfg, l.conn) && l.pending == [] && l.conn.reading
    ensures Reads(cfg, l, [], sizes, app) == (l, [])
    decreases |sizes|
  {
    if sizes != [] {
      LeavesIncomplete(cfg, l.conn, [], [], app);
      hide Receive;
      NoMoreReads(cfg, l, sizes[1..], app);
    }
  }

  lemma WireIsEmptyIff(fs: seq<Frame>)
    ensures Wire(fs) == [] <==> fs == []
  {
    hide FrameBytes;
  }

  /**
   * No frame gets stuck, whatever frames are answered with errors: with twice as many reads as there are bytes, every frame
   * has been handled, unless the connection has stopped reading. A read that finds nothing on the wire stands for
   * event_loop_pending, which shows the buffer again.
   */
  lemma AllFramesArrive(cfg: Config, c: Conn, fs: seq<Frame>, sizes: seq<nat>, app: Oracle)
    requires Sized(cfg, c) && AllFit(cfg, fs)
    requires 2 * |Wire(fs)| <= |sizes| && forall i :: 0 <= i < |sizes| ==> sizes[i] > 0
    ensures var r := Reads(cfg, Link(c, []), Wire(fs), sizes, app);
            r.0.conn.reading ==> r == (Link(Dispatch(cfg, c, fs, app), []), [])
  {
    hide Sized, Reads, Dispatch, Calm, Wire;
    StartsInOrder(cfg, c, fs, app);
    ReadsProgress(cfg, c, fs, 0, Link(c, []), Wire(fs), sizes, app);
  }

  /**
   * The bound is exact. A frame of no more than the two limits that receiving checks is taken out of
   * a buffer holding as much of it as can be held if and only if frame and header fit together;
   * otherwise it stays there, no error is raised and there is no room for another byte.
   */
  lemma TakenIffFits(cfg: Config, c: Conn, f: Frame, app: Oracle)
    requires Sized(cfg, c) && ValidFrame(f) && |f.payload| <= cfg.maxFrame && |f.payload| <= cfg.readSize
    requires cfg.readSize >= 9
    ensures var bytes := Take(FrameBytes(f), cfg.readSize); var r := Receive(cfg, c, bytes, app);
            && (r.consumed > 0 <==> 9 + |f.payload| <= cfg.readSize)
            && (9 + |f.payload| > cfg.readSize ==> r == Received(c, 0) && |bytes| == cfg.readSize)
  {
    var bytes := Take(FrameBytes(f), cfg.readSize);
    ParsesFrame(f, bytes);
    hide FrameBytes, ParseHeader, OnFrame;
  }
}
