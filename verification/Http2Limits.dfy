/**
 * How a HEADERS frame wraps its fragment, and runs that show why the promises of Http2Runs have the
 * conditions they have.
 */
module Http2Limits {
  import opened Bits
  import opened Frames
  import opened Http2Spec
  import opened Http2Invariant
  import opened Http2Runs

  /** A HEADERS frame around a fragment, section 6.2 of RFC 7540. */
  function WrapFragment(id: nat, ends: byte, pad: seq<byte>, priority: seq<byte>, fragment: seq<byte>): (f: Frame)
    requires |pad| < 256 && ends <= 5 && |priority| in {0, 5}
  {
    var flags := ends + (if pad != [] then 8 else 0) + (if priority != [] then 32 else 0);
    Frame(HEADERS, flags, id, (if pad != [] then [|pad|] else []) + priority + fragment + pad)
  }

  /** Pad length, priority and padding are removed, whatever they hold. */
  lemma WrapRoundTrip(id: nat, ends: byte, pad: seq<byte>, priority: seq<byte>, fragment: seq<byte>)
    requires |pad| < 256 && ends <= 5 && |priority| in {0, 5}
    ensures var f := WrapFragment(id, ends, pad, priority, fragment);
            && !BadPadding(f) && HeadersFragment(f) == fragment
            && (HasFlag(f, END_STREAM) <==> ends % 2 == 1) && (HasFlag(f, END_HEADERS) <==> ends >= 4)
  {
    var f := WrapFragment(id, ends, pad, priority, fragment);
    assert HasFlag(f, PADDED) <==> pad != [];
    assert HasFlag(f, PRIORITY) <==> priority != [];
    var start := (if pad != [] then 1 else 0) + |priority|;
    assert f.payload[start..|f.payload| - |pad|] == fragment;
  }

  /** Section 6.9.1 of RFC 7540: an update of the connection is accepted exactly when the window stays within bounds. */
  lemma ConnectionUpdateAcceptedIff(cfg: Config, c: Conn, f: Frame)
    requires Inv(cfg, c) && |f.payload| == 4 && f.streamId == 0 && U31(f.payload) > 0
    ensures OnWindowUpdate(cfg, c, f).rc == 0 <==> c.window + U31(f.payload) <= MAX_WINDOW
  {
    hide AllAllowed, Watch, Reassembled, Tracked, Identified, Fail, U31;
    UnsignedCheck(c.window, U31(f.payload));
  }

  /**
   * For a stream the comparison is unsigned: also an update that leaves the window negative is refused,
   * which section 6.9.2 of RFC 7540 allows a window to be.
   */
  lemma StreamUpdateAcceptedIff(cfg: Config, c: Conn, f: Frame)
    requires Inv(cfg, c) && |f.payload| == 4 && U31(f.payload) > 0
    requires c.stream.state != Idle && f.streamId == c.stream.id > 0
    ensures OnWindowUpdate(cfg, c, f).rc == 0 <==> 0 <= c.stream.window + U31(f.payload) <= MAX_WINDOW
  {
    hide AllAllowed, Watch, Reassembled, Tracked, Fail, U31, ContinueSend, ResetStream;
    UnsignedCheck(c.stream.window, U31(f.payload));
  }

  lemma RunSnoc(cfg: Config, events: seq<Event>, e: Event, app: Oracle)
    ensures Run(cfg, events + [e], app) == OnEvent(cfg, Run(cfg, events, app), e, app)
  {
    hide OnEvent;
    assert (events + [e])[..|events|] == events;
  }

  /** A connection whose preface and empty SETTINGS frame have arrived. */
  function Greeting(): (events: seq<Event>) {
    [Preface(true)] + [FirstFrame(Frame(SETTINGS, 0, 0, []))]
  }

  lemma Greeted(cfg: Config, app: Oracle)
    ensures Run(cfg, Greeting(), app) == NewClient(cfg).(state := Ready)
  {
    RunSnoc(cfg, [], Preface(true), app);
    RunSnoc(cfg, [Preface(true)], FirstFrame(Frame(SETTINGS, 0, 0, [])), app);
    assert [] + [Preface(true)] == [Preface(true)];
  }

  /** A HEADERS frame that opens stream id with a one-byte fragment and does not complete the request. */
  lemma Opens(cfg: Config, c: Conn, id: nat, flags: byte, x: byte, app: Oracle)
    requires Sized(cfg, c) && cfg.streamBuf > 0
    requires c.state == Ready && c.stream.state == Idle && id > c.lastOpened && id % 2 == 1
    requires !c.flags.waitingEndHeaders && !c.flags.waitingTrailers && flags in {1, 4}
    ensures var r := OnFrame(cfg, c, Frame(HEADERS, flags, id, [x]), app).conn;
            && r.state == Ready && r.window == c.window
            && r.flags == c.flags.(waitingEndHeaders := flags == 1, waitingEndStream := flags == 4)
            && r.stream.id == id == r.lastOpened && r.stream.window == c.initialWindow == r.initialWindow
            && r.stream.state == (if flags == 1 then HalfClosedRemote else Open)
            && |r.stream.buf| == cfg.streamBuf && r.stream.buflen == 1 && r.stream.bufpos == 0
            && r.stream.buf[..1] == [x]
            && r.log == c.log + [Opened(id), Fragment([x]), if flags == 1 then GotEndStream else GotEndHeaders]
  {
    var f := Frame(HEADERS, flags, id, [x]);
    assert !HasFlag(f, PADDED) && !HasFlag(f, PRIORITY);
    assert HasFlag(f, END_STREAM) <==> flags == 1;
    assert HasFlag(f, END_HEADERS) <==> flags == 4;
    assert HeadersFragment(f) == [x];
    assert OnFrame(cfg, c, f, app).conn == NoteFlags(Collect(cfg, OpenStream(c, id), [x]), flags == 1, flags == 4);
  }

  /** When nothing is awaited, any DATA frame completes the request of an open stream. */
  lemma DataCompletes(cfg: Config, c: Conn, app: Oracle)
    requires Sized(cfg, c) && c.stream.state == Open && c.stream.id == c.lastOpened > 0
    requires !c.flags.waitingEndHeaders && !c.flags.waitingEndStream
    ensures var r := OnFrame(cfg, c, Frame(DATA, 0, c.stream.id, []), app).conn;
            c.log + [Handled(c.stream.id, c.stream.buf[..c.stream.buflen])] <= r.log
  {
    var f := Frame(DATA, 0, c.stream.id, []);
    assert !HasFlag(f, PADDED) && !HasFlag(f, END_STREAM);
    assert OnFrame(cfg, c, f, app).conn == EndStream(cfg, c, app).conn;
  }

  /** Stream 1 is open and its headers have ended. */
  function OpenRequest(): (events: seq<Event>) {
    Greeting() + [Arrived(Frame(HEADERS, 4, 1, [0x82]))]
  }

  lemma OpenRequestRun(cfg: Config, app: Oracle)
    requires cfg.streamBuf > 0
    ensures var c := Run(cfg, OpenRequest(), app);
            && c.state == Ready && c.stream.state == Open && c.stream.id == c.lastOpened == 1
            && c.stream.buflen == 1 && c.stream.bufpos == 0 && c.stream.buf[..1] == [0x82] && c.window == c.stream.window == 65535
            && !c.flags.waitingEndHeaders
            && c.log == [Opened(1), Fragment([0x82]), GotEndHeaders]
  {
    hide Inv, Run, OnFrame, Greeting;
    Greeted(cfg, app);
    RunSnoc(cfg, Greeting(), Arrived(Frame(HEADERS, 4, 1, [0x82])), app);
    Opens(cfg, NewClient(cfg).(state := Ready), 1, 4, 0x82, app);
  }

  /**
   * http2_close_gracefully forgets which ends are awaited: the next DATA frame hands the request over
   * although END_STREAM never came.
   */
  lemma GracefulCloseHandlesEarly(cfg: Config, app: Oracle)
    requires cfg.streamBuf > 0
    ensures var events := OpenRequest() + [GracefulClose] + [Arrived(Frame(DATA, 0, 1, []))];
            [Opened(1), Fragment([0x82]), GotEndHeaders, Graceful, Handled(1, [0x82])] <= Run(cfg, events, app).log
  {
    hide Inv, Run, OnFrame, OpenRequest;
    OpenRequestRun(cfg, app);
    var c := Run(cfg, OpenRequest(), app);
    RunSnoc(cfg, OpenRequest(), GracefulClose, app);
    RunSnoc(cfg, OpenRequest() + [GracefulClose], Arrived(Frame(DATA, 0, 1, [])), app);
    DataCompletes(cfg, CloseGracefully(c), app);
  }

  lemma SliceOne(s: seq<byte>, at: nat)
    requires at < |s|
    ensures Slice(s, at, 1) == [s[at]]
  {
  }

  /** A credit of one for the stream takes the one byte that is in its buffer. */
  lemma CreditSendsByte(cfg: Config, c: Conn, app: Oracle)
    requires Sized(cfg, c) && cfg.writeSize > 0 && c.stream.state == Open && c.stream.id == c.lastOpened == 1
    requires c.stream.buf[..c.stream.buflen] == [0x82]
    requires c.window == c.stream.window == 65535 && c.stream.buflen == 1 && c.stream.bufpos == 0 && !c.flags.waitingEndHeaders
    ensures var r := OnFrame(cfg, c, Frame(WINDOW_UPDATE, 0, 1, [0, 0, 0, 1]), app).conn;
            && r.log == c.log + [StreamCredit(1), SentData(1, [0x82], true)]
            && Sized(cfg, r) && r.stream.state == Open && r.stream.id == r.lastOpened == 1 && r.stream.buflen == 0
            && r.stream.bufpos == 1 && r.window == 65534 && r.stream.window == 65535
            && r.flags == c.flags
  {
    var f := Frame(WINDOW_UPDATE, 0, 1, [0, 0, 0, 1]);
    CreditOfOne();
    SliceOne(c.stream.buf, 0);
    assert c.stream.buf[..1][0] == c.stream.buf[0];
    hide U31, HasFlag, OnGoaway, OnSettings, OnPing, OnHeaders, OnContinuation, OnReset, OnData, Fail, ResetStream;
    assert OnFrame(cfg, c, f, app) == OnWindowUpdate(cfg, c, f);
    hide OnFrame;
  }

  lemma CreditOfOne()
    ensures U31([0, 0, 0, 1]) == 1
  {
  }

  /** The end of the stream hands over what is left in the buffer. */
  lemma EndHandsOver(cfg: Config, c: Conn, app: Oracle)
    requires Sized(cfg, c) && c.stream.state == Open && c.stream.id == c.lastOpened > 0 && !c.flags.waitingEndHeaders
    ensures var r := OnFrame(cfg, c, Frame(DATA, 1, c.stream.id, []), app).conn;
            c.log + [GotEndStream] + [Handled(c.stream.id, c.stream.buf[..c.stream.buflen])] <= r.log
  {
    var f := Frame(DATA, 1, c.stream.id, []);
    assert !HasFlag(f, PADDED) && HasFlag(f, END_STREAM);
    var d := NoteFlags(c, true, false);
    assert OnFrame(cfg, c, f, app).conn == EndStream(cfg, d, app).conn;
  }

  /**
   * Already on the first stream of a connection a WINDOW_UPDATE between its headers and its end sends the request's own
   * header block back as DATA, and the request is handled without it.
   */
  lemma CreditLosesBlock(cfg: Config, app: Oracle)
    requires cfg.streamBuf > 0 && cfg.writeSize > 0
    ensures var events := OpenRequest() + [Arrived(Frame(WINDOW_UPDATE, 0, 1, [0, 0, 0, 1]))]
                          + [Arrived(Frame(DATA, 1, 1, []))];
            [Opened(1), Fragment([0x82]), GotEndHeaders, StreamCredit(1), SentData(1, [0x82], true), GotEndStream, Handled(1, [])]
            <= Run(cfg, events, app).log
  {
    hide Inv, Run, OnFrame, OpenRequest;
    OpenRequestRun(cfg, app);
    var credit, end := Arrived(Frame(WINDOW_UPDATE, 0, 1, [0, 0, 0, 1])), Arrived(Frame(DATA, 1, 1, []));
    RunSnoc(cfg, OpenRequest(), credit, app);
    RunSnoc(cfg, OpenRequest() + [credit], end, app);
    CreditSendsByte(cfg, Run(cfg, OpenRequest(), app), app);
    EndHandsOver(cfg, Run(cfg, OpenRequest() + [credit], app), app);
  }

  /** Whatever is asked, the response has two octets and its headers are sent. */
  function TwoOctets(log: seq<Action>): (r: Outcome) {
    Respond([0x78, 0x79], true)
  }

  /** The end of the stream, with DATA sent before: the position in the buffer stays behind the first octet. */
  lemma EndAnswersLate(cfg: Config, c: Conn)
    requires Sized(cfg, c) && cfg.streamBuf >= 2 && c.stream.bufpos == 1 && c.window == 65534 && c.stream.window == 65535
    requires c.stream.state == Open && c.stream.id == c.lastOpened == 1 && !c.flags.waitingEndHeaders
    ensures var r := OnFrame(cfg, c, Frame(DATA, 1, 1, []), TwoOctets).conn;
            && |r.log| == |c.log| + 3 && r.log[|c.log| + 2] == SentHeaders(1, false)
            && Sized(cfg, r) && r.stream.id == 1 && r.stream.bufpos == 1 && r.stream.buflen == 2
            && r.stream.buf[1] == 0x79 && r.window == 65534 && r.stream.window == 65535
  {
    var f := Frame(DATA, 1, 1, []);
    assert !HasFlag(f, PADDED) && HasFlag(f, END_STREAM);
    var d := NoteFlags(c, true, false);
    assert OnFrame(cfg, c, f, TwoOctets).conn == EndStream(cfg, d, TwoOctets).conn;
  }

  /**
   * The response to such a request loses its first octet as well, since its DATA begins where the buffer position is
   * left: the response 78 79 goes out as 79 and whatever follows it in memory.
   */
  lemma CreditCutsResponse(cfg: Config)
    requires cfg.streamBuf >= 2 && cfg.writeSize >= 2
    ensures var events := OpenRequest() + [Arrived(Frame(WINDOW_UPDATE, 0, 1, [0, 0, 0, 1]))]
                          + [Arrived(Frame(DATA, 1, 1, []))] + [StreamSent(true)];
            var log := Run(cfg, events, TwoOctets).log;
            |log| == 9 && log[7] == SentHeaders(1, false) && log[8].SentData? && |log[8].data| == 2
            && log[8].data[0] == 0x79 && log[8].last
  {
    hide Inv, Run, OnFrame, OpenRequest;
    OpenRequestRun(cfg, TwoOctets);
    var credit, end := Arrived(Frame(WINDOW_UPDATE, 0, 1, [0, 0, 0, 1])), Arrived(Frame(DATA, 1, 1, []));
    RunSnoc(cfg, OpenRequest(), credit, TwoOctets);
    RunSnoc(cfg, OpenRequest() + [credit], end, TwoOctets);
    RunSnoc(cfg, OpenRequest() + [credit] + [end], StreamSent(true), TwoOctets);
    CreditSendsByte(cfg, Run(cfg, OpenRequest(), TwoOctets), TwoOctets);
    EndAnswersLate(cfg, Run(cfg, OpenRequest() + [credit], TwoOctets));
  }

  /** Whatever is asked, the response has one byte and its headers are sent. */
  function OneByte(log: seq<Action>): (r: Outcome) {
    Respond([0x78], true)
  }

  /** A complete request in one HEADERS frame is answered. */
  lemma Answers(cfg: Config, c: Conn, id: nat, x: byte)
    requires Sized(cfg, c) && cfg.streamBuf > 0
    requires c.state == Ready && c.stream.state == Idle && id > c.lastOpened && id % 2 == 1
    requires !c.flags.waitingEndHeaders && !c.flags.waitingTrailers
    ensures var r := OnFrame(cfg, c, Frame(HEADERS, 5, id, [x]), OneByte).conn;
            && r.stream.id == id == r.lastOpened && r.stream.buflen == 1 && |r.stream.buf| == cfg.streamBuf
            && r.stream.bufpos == 0 && r.stream.buf[0] == 0x78
            && r.window == c.window && r.initialWindow == c.initialWindow == r.stream.window && r.state == Ready
            && !r.flags.waitingEndHeaders && !r.flags.waitingTrailers
            && r.log == c.log + [Opened(id), Fragment([x]), GotEndStream, GotEndHeaders, Handled(id, [x]),
                                 SentHeaders(id, false)]
  {
    var f := Frame(HEADERS, 5, id, [x]);
    assert !HasFlag(f, PADDED) && !HasFlag(f, PRIORITY) && HasFlag(f, END_STREAM) && HasFlag(f, END_HEADERS);
    assert HeadersFragment(f) == [x];
    var c1 := NoteFlags(Collect(cfg, OpenStream(c, id), [x]), true, true);
    assert c1.stream.buf[..c1.stream.buflen] == [x];
    assert OnFrame(cfg, c, f, OneByte) == EndStream(cfg, c1, OneByte);
  }

  /** The answer to stream 1 is under way, the client has reset it. */
  function ResetRequest(): (events: seq<Event>) {
    Greeting() + [Arrived(Frame(HEADERS, 5, 1, [0x82]))] + [Arrived(Frame(RST_STREAM, 0, 1, [0, 0, 0, 8]))]
  }

  lemma ResetRequestRun(cfg: Config)
    requires cfg.streamBuf > 0
    ensures var c := Run(cfg, ResetRequest(), OneByte);
            && c.state == Ready && c.stream.state == Idle && c.lastOpened == 1
            && !c.flags.waitingEndHeaders && !c.flags.waitingTrailers
            && c.window == c.initialWindow == 65535 && |c.log| == 7
            && c.stream.id == 1 && c.stream.buflen == 1 && c.stream.window == 65535
            && Sized(cfg, c) && c.stream.bufpos == 0 && c.stream.buf[0] == 0x78
  {
    hide Inv, Run, OnFrame, Greeting;
    Greeted(cfg, OneByte);
    var open := Arrived(Frame(HEADERS, 5, 1, [0x82]));
    RunSnoc(cfg, Greeting(), open, OneByte);
    RunSnoc(cfg, Greeting() + [open], Arrived(Frame(RST_STREAM, 0, 1, [0, 0, 0, 8])), OneByte);
    Answers(cfg, NewClient(cfg).(state := Ready), 1, 0x82);
    ResetsByPeer(cfg, Run(cfg, Greeting() + [open], OneByte), OneByte);
  }

  /** The completed write then sends DATA on the stream that was reset. */
  lemma SendsAfterReset(cfg: Config)
    requires cfg.streamBuf > 0 && cfg.writeSize > 0
    ensures var c, c' := Run(cfg, ResetRequest(), OneByte), Run(cfg, ResetRequest() + [StreamSent(true)], OneByte);
            c.stream.state == Idle && c'.log == c.log + [SentData(1, [0x78], true)]
  {
    hide Inv, Run, OnFrame, ResetRequest;
    ResetRequestRun(cfg);
    SliceOne(Run(cfg, ResetRequest(), OneByte).stream.buf, 0);
    RunSnoc(cfg, ResetRequest(), StreamSent(true), OneByte);
  }

  /** Then the first fragment of stream 3 arrives, and after it the completion of the answer to stream 1. */
  lemma StaleCompletionSends(cfg: Config)
    requires cfg.streamBuf >= 2 && cfg.writeSize >= 1
    ensures var c := Run(cfg, ResetRequest() + [Arrived(Frame(HEADERS, 1, 3, [0x82]))] + [StreamSent(true)], OneByte);
            && c.stream.state == HalfClosedRemote && c.stream.id == 3 && c.stream.buflen == 0
            && c.flags.waitingEndHeaders && !c.flags.waitingEndStream && !c.flags.waitingTrailers
            && |c.log| == 11 && c.log[10] == SentData(3, [0x82], true)
  {
    hide Inv, Run, OnFrame, ResetRequest;
    ResetRequestRun(cfg);
    var open := Arrived(Frame(HEADERS, 1, 3, [0x82]));
    RunSnoc(cfg, ResetRequest(), open, OneByte);
    RunSnoc(cfg, ResetRequest() + [open], StreamSent(true), OneByte);
    Opens(cfg, Run(cfg, ResetRequest(), OneByte), 3, 1, 0x82, OneByte);
    var c := Run(cfg, ResetRequest() + [open], OneByte);
    SliceOne(c.stream.buf, 0);
    assert c.stream.buf[..1][0] == c.stream.buf[0];
  }

  /**
   * The completion of an earlier response, arriving while the next header block is collected, sends that
   * block back as DATA: the request is handled with its last fragment alone.
   */
  lemma StaleCompletionLosesFragment(cfg: Config)
    requires cfg.streamBuf >= 2 && cfg.writeSize >= 1
    ensures var events := ResetRequest() + [Arrived(Frame(HEADERS, 1, 3, [0x82]))] + [StreamSent(true)]
                          + [Arrived(Frame(CONTINUATION, 4, 3, [0x84]))];
            var log := Run(cfg, events, OneByte).log;
            |log| > 13 && log[10] == SentData(3, [0x82], true) && log[12..14] == [GotEndHeaders, Handled(3, [0x84])]
  {
    hide Inv, Run, OnFrame, ResetRequest;
    StaleCompletionSends(cfg);
    var before := ResetRequest() + [Arrived(Frame(HEADERS, 1, 3, [0x82]))] + [StreamSent(true)];
    RunSnoc(cfg, before, Arrived(Frame(CONTINUATION, 4, 3, [0x84])), OneByte);
    Continues(cfg, Run(cfg, before, OneByte), 0x84, OneByte);
  }

  lemma ResetsByPeer(cfg: Config, c: Conn, app: Oracle)
    requires Sized(cfg, c) && !c.flags.waitingEndHeaders && c.lastOpened > 0
    ensures OnFrame(cfg, c, Frame(RST_STREAM, 0, c.lastOpened, [0, 0, 0, 8]), app).conn == Finish(c)
  {
  }

  lemma Continues(cfg: Config, c: Conn, x: byte, app: Oracle)
    requires Sized(cfg, c) && cfg.streamBuf > 0 && c.stream.state == HalfClosedRemote && c.stream.id > 0
    requires c.flags.waitingEndHeaders && !c.flags.waitingEndStream && !c.flags.waitingTrailers && c.stream.buflen == 0
    ensures var r := OnFrame(cfg, c, Frame(CONTINUATION, 4, c.stream.id, [x]), app).conn;
            c.log + [Fragment([x]), GotEndHeaders, Handled(c.stream.id, [x])] <= r.log
  {
    var f := Frame(CONTINUATION, 4, c.stream.id, [x]);
    assert !HasFlag(f, END_STREAM) && HasFlag(f, END_HEADERS);
    var c1 := NoteFlags(Collect(cfg, c, [x]), false, true);
    assert c1.stream.buf[..c1.stream.buflen] == [x];
    assert OnFrame(cfg, c, f, app) == EndStream(cfg, c1, app);
  }
}
