/**
 * What every run of a connection keeps. Monitor reads the log of a connection, one action after the
 * other; Allowed says when an action is correct after what came before it.
 */
module Http2Invariant {
  import opened Bits
  import opened Frames
  import opened Http2Spec

  /**
   * broken: an error, a close or a graceful close has happened. The fields from active on are about
   * the stream opened last: its credits and DATA, which ends were seen, whether its request was handled,
   * its header block fragments, and trailers on it or on an earlier stream.
   */
  datatype Monitor = Monitor(
    broken: bool, initial: nat, credit: nat, sent: nat, lastId: nat,
    active: bool, streamCredit: nat, streamSent: nat, endHeaders: bool, endStream: bool, handled: bool,
    fragments: seq<byte>, trailers: bool, earlierTrailers: bool)

  function Start(): (m: Monitor) {
    Monitor(false, 65535, 0, 0, 0, false, 0, 0, false, false, false, [], false, false)
  }

  /** The three ways a connection is given up. */
  predicate Breaks(a: Action) {
    a.ConnError? || a.ClosedNow? || a.Graceful?
  }

  function Observe(m: Monitor, a: Action): (r: Monitor) {
    var isNew := a.Opened?;
    var data := if a.SentData? then |a.data| else 0;
    Monitor(
      m.broken || Breaks(a),
      if a.InitialWindow? then a.value else m.initial,
      if a.ConnCredit? then m.credit + a.n else m.credit,
      m.sent + data,
      if isNew then a.id else m.lastId,
      isNew || (m.active && !a.Finished?),
      if isNew then 0 else if a.StreamCredit? then m.streamCredit + a.n else m.streamCredit,
      if isNew then 0 else m.streamSent + data,
      !isNew && (m.endHeaders || a.GotEndHeaders?),
      !isNew && (m.endStream || a.GotEndStream?),
      !isNew && (m.handled || a.Handled?),
      if isNew then [] else if a.Fragment? && !m.trailers then m.fragments + a.bytes else m.fragments,
      !isNew && (m.trailers || a.TrailersBegun?),
      m.earlierTrailers || (isNew && m.trailers))
  }

  function Watch(log: seq<Action>): (m: Monitor) {
    if log == [] then Start() else Observe(Watch(log[..|log| - 1]), log[|log| - 1])
  }

  /**
   * The header block of the request: nothing at all once an earlier stream had trailers; otherwise its fragments as far
   * as the buffer reaches, if no DATA was sent since the stream was opened, and without as many bytes as
   * were sent, if the fragments fit.
   */
  predicate MayHold(cfg: Config, m: Monitor, block: seq<byte>) {
    if m.earlierTrailers then block == []
    else
      && (m.streamSent == 0 ==> block == Take(m.fragments, cfg.streamBuf))
      && (|m.fragments| <= cfg.streamBuf ==> |block| == |m.fragments| - m.streamSent)
  }

  /** A request may be handled: once, for the stream opened last, after both ends, with its own block. */
  predicate MayHandle(cfg: Config, m: Monitor, id: nat, block: seq<byte>) {
    m.active && id == m.lastId && m.endHeaders && m.endStream && !m.handled && MayHold(cfg, m, block)
  }

  predicate Allowed(cfg: Config, m: Monitor, a: Action) {
    match a
    case Opened(id) => id % 2 == 1 && id > m.lastId && !m.active
    case Handled(id, block) => m.broken || MayHandle(cfg, m, id, block)
    case SentData(id, data, _) =>
      id == m.lastId && m.sent + |data| <= 65535 + m.credit &&
      (m.active ==> m.streamSent + |data| <= m.initial + m.streamCredit)
    case InitialWindow(value) => value <= MAX_WINDOW
    case ConnCredit(n) => 65535 + m.credit - m.sent + n <= MAX_WINDOW
    case StreamCredit(n) => m.active ==> m.initial + m.streamCredit - m.streamSent + n <= MAX_WINDOW
    case _ => true
  }

  /** What the monitor knows before action k. */
  function At(log: seq<Action>, k: nat): (m: Monitor)
    requires k <= |log|
  {
    Watch(log[..k])
  }

  ghost predicate AllAllowed(cfg: Config, log: seq<Action>) {
    forall k :: 0 <= k < |log| ==> Allowed(cfg, At(log, k), log[k])
  }

  lemma AtStep(log: seq<Action>, k: nat)
    requires k <= |log|
    ensures k == 0 ==> At(log, k) == Start()
    ensures k > 0 ==> At(log, k) == Observe(At(log, k - 1), log[k - 1])
  {
    hide Observe;
    if k > 0 {
      assert log[..k][..k - 1] == log[..k - 1];
    }
  }

  lemma AtEnd(log: seq<Action>)
    ensures At(log, |log|) == Watch(log)
  {
    hide Watch;
    assert log[..|log|] == log;
  }

  lemma AllowedSnoc(cfg: Config, log: seq<Action>, a: Action)
    requires AllAllowed(cfg, log) && Allowed(cfg, Watch(log), a)
    ensures AllAllowed(cfg, log + [a])
    ensures Watch(log + [a]) == Observe(Watch(log), a)
  {
    hide Allowed, Observe;
    var all := log + [a];
    assert all[..|log|] == log;
    forall k | 0 <= k < |all| ensures Allowed(cfg, At(all, k), all[k]) {
      if k < |log| {
        assert all[..k] == log[..k];
        assert Allowed(cfg, At(log, k), log[k]);
      }
    }
  }

  predicate Sized(cfg: Config, c: Conn) {
    c.stream.buflen <= |c.stream.buf| == cfg.streamBuf
  }

  /** Sections 6.9.1 and 6.9.2 of RFC 7540. */
  predicate Conserved(c: Conn, m: Monitor) {
    && c.window == 65535 + m.credit - m.sent
    && 0 <= c.window <= MAX_WINDOW
    && c.initialWindow == m.initial <= MAX_WINDOW
    && (m.active ==>
          && c.stream.window == m.initial + m.streamCredit - m.streamSent
          && -MAX_WINDOW <= c.stream.window <= MAX_WINDOW
          && -MAX_WINDOW <= m.streamCredit - m.streamSent)
  }

  predicate Identified(c: Conn, m: Monitor) {
    c.stream.id == c.lastOpened == m.lastId && (m.active <==> c.stream.state != Idle)
  }

  /** The flags of the connection agree with what was seen of the stream. */
  predicate Tracked(c: Conn, m: Monitor) {
    && (c.stream.state == Open ==> c.flags.waitingEndStream && !m.handled && !m.endStream)
    && (m.handled ==> !c.flags.waitingEndHeaders && !c.flags.waitingEndStream)
    && (m.active && !c.flags.waitingEndHeaders ==> m.endHeaders)
    && (m.active && !c.flags.waitingEndStream ==> m.endStream)
    && (c.flags.waitingTrailers <==> m.trailers || m.earlierTrailers)
  }

  predicate Reassembled(cfg: Config, c: Conn, m: Monitor)
    requires Sized(cfg, c)
  {
    m.active && !m.handled ==> MayHold(cfg, m, c.stream.buf[..c.stream.buflen])
  }

  predicate Agrees(cfg: Config, c: Conn, m: Monitor) {
    Sized(cfg, c) && Conserved(c, m) && Identified(c, m) && (!m.broken ==> Tracked(c, m) && Reassembled(cfg, c, m))
  }

  ghost predicate Inv(cfg: Config, c: Conn) {
    AllAllowed(cfg, c.log) && Agrees(cfg, c, Watch(c.log))
  }

  lemma NewClientInv(cfg: Config)
    ensures Inv(cfg, NewClient(cfg))
  {
  }

  /** One action: it is allowed, and the connection after it agrees with the monitor after it. */
  lemma Acted(cfg: Config, c: Conn, a: Action, c': Conn)
    requires Inv(cfg, c)
    requires Allowed(cfg, Watch(c.log), a)
    requires c'.log == c.log + [a]
    requires Agrees(cfg, c', Observe(Watch(c.log), a))
    ensures Inv(cfg, c')
  {
    hide Allowed, Agrees, Observe, Watch;
    AllowedSnoc(cfg, c.log, a);
  }

  /** Errors and closes: from here on only the windows and the stream's identity are claimed. */
  lemma BreakInv(cfg: Config, c: Conn, a: Action, c': Conn)
    requires Inv(cfg, c)
    requires a.ConnError? || a.ClosedNow? || a.Graceful?
    requires c'.log == c.log + [a]
    requires c'.stream == c.stream && c'.window == c.window
    requires c'.initialWindow == c.initialWindow && c'.lastOpened == c.lastOpened
    ensures Inv(cfg, c')
  {
    hide Watch, AllAllowed;
    Acted(cfg, c, a, c');
  }

  lemma FailInv(cfg: Config, c: Conn, error: nat)
    requires Inv(cfg, c)
    ensures Inv(cfg, Fail(c, error))
  {
    hide Inv;
    BreakInv(cfg, c, ConnError(error), Fail(c, error));
  }

  lemma FinishInv(cfg: Config, c: Conn)
    requires Inv(cfg, c)
    ensures Inv(cfg, Finish(c))
  {
    hide Watch, AllAllowed;
    Acted(cfg, c, Finished, Finish(c));
  }

  lemma CloseNowInv(cfg: Config, c: Conn)
    requires Inv(cfg, c)
    ensures Inv(cfg, CloseNow(c))
  {
    hide Inv;
    FinishInv(cfg, c);
    BreakInv(cfg, Finish(c), ClosedNow, CloseNow(c));
  }

  lemma LogInv(cfg: Config, c: Conn, a: Action)
    requires Inv(cfg, c)
    requires a.Replied? || a.SentReset? || a.SentHeaders?
    ensures Inv(cfg, Log(c, a))
  {
    hide Watch, AllAllowed;
    Acted(cfg, c, a, Log(c, a));
  }

  lemma ResetStreamInv(cfg: Config, c: Conn, id: nat, error: nat)
    requires Inv(cfg, c)
    ensures Inv(cfg, ResetStream(c, id, error))
  {
    hide Inv, Log, Finish;
    LogInv(cfg, c, SentReset(id, error));
    FinishInv(cfg, Log(c, SentReset(id, error)));
  }

  lemma CloseGracefullyInv(cfg: Config, c: Conn)
    requires Inv(cfg, c)
    ensures Inv(cfg, CloseGracefully(c))
  {
    hide Inv;
    if c.state != Closed && c.state != Closing {
      BreakInv(cfg, c, Graceful, CloseGracefully(c));
    }
  }

  lemma ContinueSendInv(cfg: Config, c: Conn)
    requires Inv(cfg, c)
    ensures Inv(cfg, ContinueSend(cfg, c))
  {
    hide Watch, AllAllowed;
    var s := c.stream;
    var n := Min(Min(s.buflen, Min(c.window, s.window)), cfg.writeSize);
    if Min(s.buflen, Min(c.window, s.window)) > 0 {
      Acted(cfg, c, SentData(s.id, Slice(s.buf, s.bufpos, n), s.buflen - n <= 0), ContinueSend(cfg, c));
    }
  }

  lemma UpdateSettingInv(cfg: Config, c: Conn, id: nat, value: nat)
    requires Inv(cfg, c)
    ensures Inv(cfg, UpdateSetting(c, id, value).0)
  {
    hide Watch, AllAllowed;
    var r := UpdateSetting(c, id, value);
    if !r.1 {
      FailInv(cfg, c, if id == 4 then FLOW_CONTROL_ERROR else PROTOCOL_ERROR);
    } else if id == 4 {
      Acted(cfg, c, InitialWindow(value), r.0);
    }
  }

  lemma {:induction false} UpdateSettingsInv(cfg: Config, c: Conn, data: seq<byte>, total: nat)
    requires Inv(cfg, c)
    ensures Inv(cfg, UpdateSettings(c, data, total).0)
    decreases |data|
  {
    hide Inv, UpdateSetting;
    if |data| >= 6 {
      var id := Join(data[0], data[1]);
      var r := UpdateSetting(c, id, U32(data[2..6]));
      UpdateSettingInv(cfg, c, id, U32(data[2..6]));
      if r.1 {
        UpdateSettingsInv(cfg, r.0, data[6..], if 1 <= id <= 6 then total + 1 else total);
      }
    }
  }

  /** Changes that neither the monitor nor the invariant can see. */
  lemma UnseenInv(cfg: Config, c: Conn, state: ConnState, waitingAck: bool, goawayReceived: bool)
    requires Inv(cfg, c)
    ensures Inv(cfg, c.(state := state, flags := c.flags.(waitingAck := waitingAck, goawayReceived := goawayReceived)))
  {
    hide Watch, AllAllowed;
  }

  lemma OnSettingsInv(cfg: Config, c: Conn, f: Frame)
    requires Inv(cfg, c)
    ensures Inv(cfg, OnSettings(c, f).conn)
  {
    hide Inv, Fail, Log, UpdateSettings, HasFlag;
    FailInv(cfg, c, PROTOCOL_ERROR);
    FailInv(cfg, c, FRAME_SIZE_ERROR);
    UpdateSettingsInv(cfg, c, f.payload, 0);
    LogInv(cfg, UpdateSettings(c, f.payload, 0).0, Replied);
    UnseenInv(cfg, c, c.state, false, c.flags.goawayReceived);
  }

  lemma OnGoawayInv(cfg: Config, c: Conn, f: Frame)
    requires Inv(cfg, c)
    ensures Inv(cfg, OnGoaway(c, f).conn)
  {
    hide Inv, Fail, CloseNow;
    FailInv(cfg, c, PROTOCOL_ERROR);
    FailInv(cfg, c, FRAME_SIZE_ERROR);
    CloseNowInv(cfg, c);
    FinishInv(cfg, c);
    var c1 := if |f.payload| >= 8 && c.stream.id > U31(f.payload) then Finish(c) else c;
    LogInv(cfg, c1, Replied);
    UnseenInv(cfg, Log(c1, Replied), Closing, c.flags.waitingAck, true);
  }

  lemma OnPingInv(cfg: Config, c: Conn, f: Frame)
    requires Inv(cfg, c)
    ensures Inv(cfg, OnPing(c, f).conn)
  {
    hide Inv, Fail, Log, HasFlag;
    FailInv(cfg, c, PROTOCOL_ERROR);
    FailInv(cfg, c, FRAME_SIZE_ERROR);
    LogInv(cfg, c, Replied);
  }

  /** The unsigned comparison accepts exactly the updates that leave the window within its bounds. */
  lemma UnsignedCheck(window: int, n: nat)
    requires -MAX_WINDOW <= window <= MAX_WINDOW && n <= MAX_WINDOW
    ensures (window + n) % 0x1_0000_0000 > MAX_WINDOW <==> !(0 <= window + n <= MAX_WINDOW)
  {
    if window + n < 0 {
      assert (window + n) % 0x1_0000_0000 == window + n + 0x1_0000_0000;
    }
  }

  lemma ConnCreditInv(cfg: Config, c: Conn, n: nat)
    requires Inv(cfg, c) && c.window + n <= MAX_WINDOW
    ensures Inv(cfg, Log(c, ConnCredit(n)).(window := c.window + n))
  {
    hide Watch, AllAllowed;
    Acted(cfg, c, ConnCredit(n), Log(c, ConnCredit(n)).(window := c.window + n));
  }

  lemma StreamCreditInv(cfg: Config, c: Conn, n: nat)
    requires Inv(cfg, c) && (c.stream.state != Idle ==> c.stream.window + n <= MAX_WINDOW)
    ensures Inv(cfg, Log(c, StreamCredit(n)).(stream := c.stream.(window := c.stream.window + n)))
  {
    hide Watch, AllAllowed;
    Acted(cfg, c, StreamCredit(n), Log(c, StreamCredit(n)).(stream := c.stream.(window := c.stream.window + n)));
  }

  lemma OnWindowUpdateInv(cfg: Config, c: Conn, f: Frame)
    requires Inv(cfg, c)
    ensures Inv(cfg, OnWindowUpdate(cfg, c, f).conn)
  {
    hide AllAllowed, Watch, Reassembled, Tracked, Fail, ResetStream, ContinueSend, U31;
    FailInv(cfg, c, PROTOCOL_ERROR);
    FailInv(cfg, c, FRAME_SIZE_ERROR);
    FailInv(cfg, c, STREAM_CLOSED_ERROR);
    FailInv(cfg, c, FLOW_CONTROL_ERROR);
    ResetStreamInv(cfg, c, c.stream.id, FLOW_CONTROL_ERROR);
    if |f.payload| == 4 {
      var n := U31(f.payload);
      if f.streamId == 0 {
        UnsignedCheck(c.window, n);
        if c.window + n <= MAX_WINDOW {
          ConnCreditInv(cfg, c, n);
        }
      } else {
        if c.stream.state != Idle {
          UnsignedCheck(c.stream.window, n);
        }
        if c.stream.state == Idle || c.stream.window + n <= MAX_WINDOW {
          StreamCreditInv(cfg, c, n);
          ContinueSendInv(cfg, Log(c, StreamCredit(n)).(stream := c.stream.(window := c.stream.window + n)));
        }
      }
    }
  }

  /** What holds where the request is about to be handled. */
  ghost predicate Complete(c: Conn) {
    c.stream.state != Idle && !c.flags.waitingEndHeaders && !c.flags.waitingEndStream &&
    (!Watch(c.log).broken ==> !Watch(c.log).handled)
  }

  lemma EndStreamInv(cfg: Config, c: Conn, app: Oracle)
    requires Inv(cfg, c) && Complete(c)
    ensures Inv(cfg, EndStream(cfg, c, app).conn)
  {
    hide Watch, AllAllowed;
    var s := c.stream;
    var a := Handled(s.id, s.buf[..s.buflen]);
    var c1 := Log(c, a);
    Acted(cfg, c, a, c1);
    match app(c1.log) {
      case Unusable(error) => FailInv(cfg, c1, error);
      case Respond(content, headersSent) =>
        var body := Take(content, cfg.streamBuf);
        var c2 := c1.(stream := s.(buf := body + s.buf[|body|..], buflen := |body|));
        AllowedSnoc(cfg, c.log, a);
        assert Inv(cfg, c2);
        FailInv(cfg, c2, INTERNAL_ERROR);
        LogInv(cfg, c2, SentHeaders(s.id, body == []));
    }
  }

  ghost predicate Unhandled(c: Conn) {
    c.stream.state != Idle && (!Watch(c.log).broken ==> !Watch(c.log).handled)
  }

  lemma NoteFlagsInv(cfg: Config, c: Conn, endStream: bool, endHeaders: bool)
    requires Inv(cfg, c) && Unhandled(c)
    ensures Inv(cfg, NoteFlags(c, endStream, endHeaders)) && Unhandled(NoteFlags(c, endStream, endHeaders))
    ensures Sized(cfg, NoteFlags(c, endStream, endHeaders))
  {
    hide Watch, AllAllowed;
    var c1 := NoteFlags(c, endStream, false);
    if endStream {
      Acted(cfg, c, GotEndStream, c1);
      AllowedSnoc(cfg, c.log, GotEndStream);
    }
    if endHeaders {
      Acted(cfg, c1, GotEndHeaders, NoteFlags(c, endStream, true));
      AllowedSnoc(cfg, c1.log, GotEndHeaders);
    }
  }

  lemma ProceedInv(cfg: Config, c: Conn, app: Oracle)
    requires Inv(cfg, c) && Unhandled(c)
    ensures Inv(cfg, Proceed(cfg, c, app).conn)
  {
    hide Watch, AllAllowed, Conserved, Identified, Tracked, Reassembled, EndStream;
    if !c.flags.waitingEndHeaders && !c.flags.waitingEndStream {
      EndStreamInv(cfg, c, app);
    }
  }

  lemma TakeTwice(a: seq<byte>, b: seq<byte>, n: nat)
    ensures Take(a, n) + Take(b, n - |Take(a, n)|) == Take(a + b, n)
  {
  }

  lemma TakeAll(s: seq<byte>, n: nat)
    ensures |s| <= n ==> Take(s, n) == s
    ensures |Take(s, n)| <= n
  {
  }

  lemma CollectInv(cfg: Config, c: Conn, data: seq<byte>)
    requires Inv(cfg, c) && Unhandled(c)
    ensures Inv(cfg, Collect(cfg, c, data)) && Unhandled(Collect(cfg, c, data))
  {
    hide Watch, AllAllowed, Take;
    var c' := Collect(cfg, c, data);
    var m := Watch(c.log);
    TakeTwice(m.fragments, data, cfg.streamBuf);
    var s, part := c.stream, Take(data, cfg.streamBuf - c.stream.buflen);
    TakeAll(data, cfg.streamBuf - s.buflen);
    if !c.flags.waitingTrailers {
      assert c'.stream.buf[..c'.stream.buflen] == s.buf[..s.buflen] + part;
    }
    Acted(cfg, c, Fragment(data), c');
    AllowedSnoc(cfg, c.log, Fragment(data));
  }

  lemma HeaderBlockInv(cfg: Config, c: Conn, f: Frame, data: seq<byte>, app: Oracle)
    requires Inv(cfg, c) && Unhandled(c)
    ensures Inv(cfg, HeaderBlock(cfg, c, f, data, app).conn)
  {
    hide Watch, AllAllowed, Conserved, Identified, Tracked, Reassembled, Unhandled, NoteFlags, Proceed, Fail, HasFlag;
    FailInv(cfg, c, FLOW_CONTROL_ERROR);
    CollectInv(cfg, c, data);
    var c1 := Collect(cfg, c, data);
    NoteFlagsInv(cfg, c1, HasFlag(f, END_STREAM), HasFlag(f, END_HEADERS));
    ProceedInv(cfg, NoteFlags(c1, HasFlag(f, END_STREAM), HasFlag(f, END_HEADERS)), app);
  }

  lemma OpenStreamInv(cfg: Config, c: Conn, id: nat)
    requires Inv(cfg, c) && c.stream.state == Idle && id % 2 == 1 && id > c.lastOpened
    ensures Inv(cfg, OpenStream(c, id)) && Unhandled(OpenStream(c, id))
  {
    hide Watch, AllAllowed;
    Acted(cfg, c, Opened(id), OpenStream(c, id));
    AllowedSnoc(cfg, c.log, Opened(id));
  }

  function BeginTrailers(c: Conn): (r: Conn) {
    Log(c, TrailersBegun).(flags := c.flags.(waitingTrailers := true, waitingEndHeaders := true))
  }

  lemma BeginTrailersInv(cfg: Config, c: Conn)
    requires Inv(cfg, c) && c.stream.state == Open
    ensures Inv(cfg, BeginTrailers(c)) && Unhandled(BeginTrailers(c))
  {
    hide Watch, AllAllowed;
    Acted(cfg, c, TrailersBegun, BeginTrailers(c));
    AllowedSnoc(cfg, c.log, TrailersBegun);
  }

  lemma OnHeadersInv(cfg: Config, c: Conn, f: Frame, app: Oracle)
    requires Inv(cfg, c)
    ensures Inv(cfg, OnHeaders(cfg, c, f, app).conn)
  {
    hide Watch, AllAllowed, Conserved, Tracked, Reassembled, Unhandled, HeaderBlock, Fail, HasFlag, HeadersFragment, BadPadding;
    FailInv(cfg, c, PROTOCOL_ERROR);
    FailInv(cfg, c, REFUSED_STREAM);
    FailInv(cfg, c, STREAM_CLOSED_ERROR);
    ResetStreamInv(cfg, c, f.streamId, PROTOCOL_ERROR);
    if f.streamId % 2 == 1 {
      if f.streamId == c.lastOpened && c.stream.state == Open {
        BeginTrailersInv(cfg, c);
        OpenedBlockInv(cfg, BeginTrailers(c), f, app);
      } else if f.streamId > c.lastOpened && c.stream.state == Idle {
        OpenStreamInv(cfg, c, f.streamId);
        OpenedBlockInv(cfg, OpenStream(c, f.streamId), f, app);
      }
    }
  }

  lemma OpenedBlockInv(cfg: Config, c: Conn, f: Frame, app: Oracle)
    requires Inv(cfg, c) && Unhandled(c)
    ensures Inv(cfg, Fail(c, PROTOCOL_ERROR))
    ensures !BadPadding(f) ==> Inv(cfg, HeaderBlock(cfg, c, f, HeadersFragment(f), app).conn)
  {
    hide Inv, Unhandled, HeaderBlock, Fail, HasFlag, HeadersFragment, BadPadding;
    FailInv(cfg, c, PROTOCOL_ERROR);
    if !BadPadding(f) {
      HeaderBlockInv(cfg, c, f, HeadersFragment(f), app);
    }
  }

  lemma OnContinuationInv(cfg: Config, c: Conn, f: Frame, app: Oracle)
    requires Inv(cfg, c)
    ensures Inv(cfg, OnContinuation(cfg, c, f, app).conn)
  {
    hide Watch, AllAllowed, Conserved, Reassembled, HeaderBlock, Fail;
    FailInv(cfg, c, PROTOCOL_ERROR);
    if c.stream.state != Idle && c.flags.waitingEndHeaders {
      HeaderBlockInv(cfg, c, f, f.payload, app);
    }
  }

  lemma OnDataInv(cfg: Config, c: Conn, f: Frame, app: Oracle)
    requires Inv(cfg, c)
    ensures Inv(cfg, OnData(cfg, c, f, app).conn)
  {
    hide Watch, AllAllowed, Conserved, Reassembled, Fail, ResetStream, HasFlag, BadPadding, NoteFlags, Proceed;
    FailInv(cfg, c, PROTOCOL_ERROR);
    ResetStreamInv(cfg, c, f.streamId, STREAM_CLOSED_ERROR);
    if c.stream.state == Open {
      NoteFlagsInv(cfg, c, HasFlag(f, END_STREAM), false);
      ProceedInv(cfg, NoteFlags(c, HasFlag(f, END_STREAM), false), app);
    }
  }

  lemma OnResetInv(cfg: Config, c: Conn, f: Frame)
    requires Inv(cfg, c)
    ensures Inv(cfg, OnReset(c, f).conn)
  {
    hide Inv, Fail, Finish;
    FailInv(cfg, c, PROTOCOL_ERROR);
    FailInv(cfg, c, FRAME_SIZE_ERROR);
    FinishInv(cfg, c);
  }

  lemma OnFrameInv(cfg: Config, c: Conn, f: Frame, app: Oracle)
    requires Inv(cfg, c) && Sized(cfg, c)
    ensures Inv(cfg, OnFrame(cfg, c, f, app).conn)
  {
    hide Inv, Fail, OnGoaway, OnSettings, OnPing, OnHeaders, OnContinuation, OnWindowUpdate, OnReset, OnData;
    if c.flags.waitingEndHeaders && f.kind != CONTINUATION { FailInv(cfg, c, PROTOCOL_ERROR); }
    else if f.kind == GOAWAY { OnGoawayInv(cfg, c, f); }
    else if f.kind == SETTINGS { OnSettingsInv(cfg, c, f); }
    else if f.kind == PING { OnPingInv(cfg, c, f); }
    else if f.kind == HEADERS { OnHeadersInv(cfg, c, f, app); }
    else if f.kind == CONTINUATION { OnContinuationInv(cfg, c, f, app); }
    else if f.kind == WINDOW_UPDATE { OnWindowUpdateInv(cfg, c, f); }
    else if f.kind == RST_STREAM { OnResetInv(cfg, c, f); }
    else if f.kind == DATA { OnDataInv(cfg, c, f, app); }
    else if f.kind == PUSH_PROMISE { FailInv(cfg, c, PROTOCOL_ERROR); }
  }

  lemma OnFirstFrameInv(cfg: Config, c: Conn, f: Frame)
    requires Inv(cfg, c)
    ensures Inv(cfg, OnFirstFrame(c, f).conn)
  {
    hide Inv, Fail, OnSettings;
    FailInv(cfg, c, PROTOCOL_ERROR);
    OnSettingsInv(cfg, c, f);
    var r := OnSettings(c, f).conn;
    UnseenInv(cfg, r, Ready, r.flags.waitingAck, r.flags.goawayReceived);
  }

  lemma OnStreamSentInv(cfg: Config, c: Conn, ok: bool)
    requires Inv(cfg, c)
    ensures Inv(cfg, OnStreamSent(cfg, c, ok))
  {
    hide Inv, CloseNow, Finish, ContinueSend;
    CloseNowInv(cfg, c);
    FinishInv(cfg, c);
    ContinueSendInv(cfg, c);
  }

  /** Every step keeps the invariant. */
  lemma OnEventInv(cfg: Config, c: Conn, e: Event, app: Oracle)
    requires Inv(cfg, c) && Sized(cfg, c)
    ensures Inv(cfg, OnEvent(cfg, c, e, app))
  {
    hide Inv, Fail, CloseNow, CloseGracefully, OnFrame, OnFirstFrame, OnStreamSent;
    CloseNowInv(cfg, c);
    match e
    case Preface(_) => UnseenInv(cfg, c, WaitingSettings, c.flags.waitingAck, c.flags.goawayReceived);
    case FirstFrame(f) => OnFirstFrameInv(cfg, c, f);
    case Arrived(f) => OnFrameInv(cfg, c, f, app);
    case SettingsSent(_) => UnseenInv(cfg, c, c.state, true, c.flags.goawayReceived);
    case TimerFired => FailInv(cfg, c, SETTINGS_TIMEOUT);
    case StreamSent(ok) => OnStreamSentInv(cfg, c, ok);
    case GracefulClose => CloseGracefullyInv(cfg, c);
    case _ =>
  }
}
