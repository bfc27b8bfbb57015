/** What single steps of a connection add to its log: which events send DATA, and which frames hand a request over. */
module Http2Steps {
  import opened Bits
  import opened Frames
  import opened Http2Spec
  import opened Http2Invariant
  import opened Http2Runs

  /** Neither DATA nor a request that is handed over. */
  ghost predicate Plain(c: Conn, c': Conn) {
    && c.log <= c'.log
    && forall i :: |c.log| <= i < |c'.log| ==> !c'.log[i].SentData? && !c'.log[i].Handled?
  }

  ghost predicate Sends(c: Conn, c': Conn) {
    exists i :: |c.log| <= i < |c'.log| && c'.log[i].SentData?
  }

  lemma PlainTransitive(a: Conn, b: Conn, c: Conn)
    requires Plain(a, b) && Plain(b, c)
    ensures Plain(a, c)
  {
  }

  lemma PlainSelf(c: Conn)
    ensures Plain(c, c)
  {
  }

  lemma FailPlain(c: Conn, error: nat)
    ensures Plain(c, Fail(c, error))
  {
  }

  lemma ResetPlain(c: Conn, id: nat, error: nat)
    ensures Plain(c, ResetStream(c, id, error)) && Plain(c, Finish(c)) && Plain(c, CloseNow(c))
  {
  }

  lemma {:induction false} UpdateSettingsPlain(c: Conn, data: seq<byte>, total: nat)
    ensures Plain(c, UpdateSettings(c, data, total).0)
    decreases |data|
  {
    if |data| >= 6 {
      var id := Join(data[0], data[1]);
      var r := UpdateSetting(c, id, U32(data[2..6]));
      assert Plain(c, r.0);
      hide Plain, UpdateSetting;
      if r.1 {
        var more := if 1 <= id <= 6 then total + 1 else total;
        UpdateSettingsPlain(r.0, data[6..], more);
        PlainTransitive(c, r.0, UpdateSettings(r.0, data[6..], more).0);
      }
    } else {
      PlainSelf(c);
    }
  }

  lemma OnSettingsPlain(c: Conn, f: Frame)
    ensures Plain(c, OnSettings(c, f).conn)
  {
    UpdateSettingsPlain(c, f.payload, 0);
    hide UpdateSettings, HasFlag;
  }

  lemma OthersPlain(c: Conn, f: Frame)
    ensures Plain(c, OnGoaway(c, f).conn) && Plain(c, OnPing(c, f).conn) && Plain(c, OnReset(c, f).conn)
  {
    hide HasFlag, U31;
  }

  lemma OnFirstFramePlain(c: Conn, f: Frame)
    ensures Plain(c, OnFirstFrame(c, f).conn)
  {
    OnSettingsPlain(c, f);
    FailPlain(c, PROTOCOL_ERROR);
    hide OnSettings, Fail;
  }

  /** Both windows and the buffer have something left. */
  predicate CanSend(c: Conn) {
    c.stream.buflen > 0 && c.window > 0 && c.stream.window > 0
  }

  lemma ContinueSendIs(cfg: Config, c: Conn)
    ensures var r := ContinueSend(cfg, c);
            if CanSend(c) then |r.log| == |c.log| + 1 && c.log <= r.log && r.log[|c.log|].SentData? else r == c
  {
  }

  /** A WINDOW_UPDATE frame that gives credit to the stream: any identifier up to the last one opened will do. */
  predicate GivesCredit(c: Conn, f: Frame) {
    && f.kind == WINDOW_UPDATE && |f.payload| == 4 && 0 < f.streamId <= c.lastOpened
    && !(f.streamId == c.stream.id && c.stream.state == Idle)
    && U31(f.payload) > 0 && (c.stream.window + U31(f.payload)) % 0x1_0000_0000 <= MAX_WINDOW
  }

  lemma OnWindowUpdateIs(cfg: Config, c: Conn, f: Frame)
    requires f.kind == WINDOW_UPDATE
    ensures var r := OnWindowUpdate(cfg, c, f).conn;
            && c.log <= r.log
            && (if GivesCredit(c, f) && c.stream.buflen > 0 && c.window > 0 && c.stream.window + U31(f.payload) > 0
                then Sends(c, r) else Plain(c, r))
  {
    hide U31, ContinueSend, Fail, ResetStream;
    FailPlain(c, PROTOCOL_ERROR);
    FailPlain(c, FRAME_SIZE_ERROR);
    FailPlain(c, STREAM_CLOSED_ERROR);
    FailPlain(c, FLOW_CONTROL_ERROR);
    ResetPlain(c, c.stream.id, FLOW_CONTROL_ERROR);
    if GivesCredit(c, f) {
      var n := U31(f.payload);
      var credited := Log(c, StreamCredit(n)).(stream := c.stream.(window := c.stream.window + n));
      ContinueSendIs(cfg, credited);
      var r := ContinueSend(cfg, credited);
      if CanSend(credited) {
        assert r.log[|c.log| + 1].SentData?;
        assert c.log <= credited.log;
      }
    }
  }

  // ----- Requests -----

  /** Actions that neither send, nor hand over, nor give the connection up. */
  ghost predicate Quiet(c: Conn, c': Conn) {
    c.log <= c'.log && forall i :: |c.log| <= i < |c'.log| ==>
      !c'.log[i].SentData? && !c'.log[i].Handled? && !Breaks(c'.log[i])
  }

  /** No DATA, and a request is not handed over once the connection was given up. */
  ghost predicate Tame(c: Conn, c': Conn) {
    && c.log <= c'.log
    && (forall i :: |c.log| <= i < |c'.log| ==> !c'.log[i].SentData?)
    && (forall i, j :: |c.log| <= j < i < |c'.log| && c'.log[i].Handled? ==> !Breaks(c'.log[j]))
  }

  lemma PlainIsTame(c: Conn, c': Conn)
    requires Plain(c, c')
    ensures Tame(c, c') && !Sends(c, c')
  {
  }

  lemma TameDoesNotSend(c: Conn, c': Conn)
    requires Tame(c, c')
    ensures !Sends(c, c')
  {
  }

  lemma QuietThenTame(a: Conn, b: Conn, c: Conn)
    requires Quiet(a, b) && Tame(b, c)
    ensures Tame(a, c)
  {
  }

  lemma QuietTransitive(a: Conn, b: Conn, c: Conn)
    requires Quiet(a, b) && Quiet(b, c)
    ensures Quiet(a, c)
  {
  }

  /** The request is handed over first, then answered or refused. */
  lemma EndStreamIs(cfg: Config, c: Conn, app: Oracle)
    requires Sized(cfg, c)
    ensures var r := EndStream(cfg, c, app).conn;
            && |r.log| == |c.log| + 2 && c.log + [Handled(c.stream.id, c.stream.buf[..c.stream.buflen])] <= r.log
            && (r.log[|c.log| + 1].ConnError? || r.log[|c.log| + 1].SentHeaders?)
            && Tame(c, r)
  {
    hide Take;
  }

  lemma CollectQuiet(cfg: Config, c: Conn, data: seq<byte>)
    requires Sized(cfg, c)
    ensures Quiet(c, Collect(cfg, c, data)) && Sized(cfg, Collect(cfg, c, data))
  {
    hide Take;
  }

  lemma NoteFlagsQuiet(cfg: Config, c: Conn, endStream: bool, endHeaders: bool)
    requires Sized(cfg, c)
    ensures Quiet(c, NoteFlags(c, endStream, endHeaders)) && Sized(cfg, NoteFlags(c, endStream, endHeaders))
  {
  }

  lemma ProceedTame(cfg: Config, c: Conn, app: Oracle)
    requires Sized(cfg, c)
    ensures Tame(c, Proceed(cfg, c, app).conn)
  {
    EndStreamIs(cfg, c, app);
    hide EndStream;
  }

  lemma HeaderBlockTame(cfg: Config, c: Conn, f: Frame, data: seq<byte>, app: Oracle)
    requires Sized(cfg, c)
    ensures Tame(c, HeaderBlock(cfg, c, f, data, app).conn)
  {
    FailPlain(c, FLOW_CONTROL_ERROR);
    PlainIsTame(c, Fail(c, FLOW_CONTROL_ERROR));
    CollectQuiet(cfg, c, data);
    hide Collect, NoteFlags, Proceed, Fail, Tame, Quiet, HasFlag;
    var c1 := Collect(cfg, c, data);
    var c2 := NoteFlags(c1, HasFlag(f, END_STREAM), HasFlag(f, END_HEADERS));
    NoteFlagsQuiet(cfg, c1, HasFlag(f, END_STREAM), HasFlag(f, END_HEADERS));
    ProceedTame(cfg, c2, app);
    QuietTransitive(c, c1, c2);
    QuietThenTame(c, c2, Proceed(cfg, c2, app).conn);
  }

  lemma OpenedTame(cfg: Config, c: Conn, c1: Conn, f: Frame, app: Oracle)
    requires Sized(cfg, c1) && Quiet(c, c1)
    ensures Tame(c, Fail(c1, PROTOCOL_ERROR))
    ensures !BadPadding(f) ==> Tame(c, HeaderBlock(cfg, c1, f, HeadersFragment(f), app).conn)
  {
    FailPlain(c1, PROTOCOL_ERROR);
    PlainIsTame(c1, Fail(c1, PROTOCOL_ERROR));
    QuietThenTame(c, c1, Fail(c1, PROTOCOL_ERROR));
    hide Fail, Tame, Quiet, HeaderBlock, BadPadding, HeadersFragment;
    if !BadPadding(f) {
      HeaderBlockTame(cfg, c1, f, HeadersFragment(f), app);
      QuietThenTame(c, c1, HeaderBlock(cfg, c1, f, HeadersFragment(f), app).conn);
    }
  }

  lemma RefusedTame(c: Conn, id: nat, error: nat)
    ensures Tame(c, Fail(c, error)) && Tame(c, ResetStream(c, id, error)) && Tame(c, c)
  {
    FailPlain(c, error);
    PlainIsTame(c, Fail(c, error));
    ResetPlain(c, id, error);
    PlainIsTame(c, ResetStream(c, id, error));
  }

  lemma OnHeadersTame(cfg: Config, c: Conn, f: Frame, app: Oracle)
    requires Sized(cfg, c)
    ensures Tame(c, OnHeaders(cfg, c, f, app).conn)
  {
    RefusedTame(c, f.streamId, PROTOCOL_ERROR);
    RefusedTame(c, f.streamId, REFUSED_STREAM);
    RefusedTame(c, f.streamId, STREAM_CLOSED_ERROR);
    OpenedTame(cfg, c, OpenStream(c, f.streamId), f, app);
    OpenedTame(cfg, c, BeginTrailers(c), f, app);
    hide Fail, ResetStream, Tame, HeaderBlock, BadPadding, HeadersFragment, HasFlag;
  }

  lemma OnContinuationTame(cfg: Config, c: Conn, f: Frame, app: Oracle)
    requires Sized(cfg, c)
    ensures Tame(c, OnContinuation(cfg, c, f, app).conn)
  {
    RefusedTame(c, 0, PROTOCOL_ERROR);
    hide Fail, Tame, HeaderBlock;
    HeaderBlockTame(cfg, c, f, f.payload, app);
  }

  lemma OnDataTame(cfg: Config, c: Conn, f: Frame, app: Oracle)
    requires Sized(cfg, c)
    ensures Tame(c, OnData(cfg, c, f, app).conn)
  {
    RefusedTame(c, f.streamId, PROTOCOL_ERROR);
    RefusedTame(c, f.streamId, STREAM_CLOSED_ERROR);
    var c1 := NoteFlags(c, HasFlag(f, END_STREAM), false);
    NoteFlagsQuiet(cfg, c, HasFlag(f, END_STREAM), false);
    ProceedTame(cfg, c1, app);
    QuietThenTame(c, c1, Proceed(cfg, c1, app).conn);
    hide Fail, ResetStream, Tame, Proceed, NoteFlags, BadPadding, HasFlag;
  }

  /** Every frame but a WINDOW_UPDATE. */
  lemma OnFrameTame(cfg: Config, c: Conn, f: Frame, app: Oracle)
    requires Sized(cfg, c) && (f.kind != WINDOW_UPDATE || c.flags.waitingEndHeaders)
    ensures Tame(c, OnFrame(cfg, c, f, app).conn)
  {
    RefusedTame(c, 0, PROTOCOL_ERROR);
    OthersPlain(c, f);
    OnSettingsPlain(c, f);
    PlainIsTame(c, OnGoaway(c, f).conn);
    PlainIsTame(c, OnPing(c, f).conn);
    PlainIsTame(c, OnReset(c, f).conn);
    PlainIsTame(c, OnSettings(c, f).conn);
    hide Fail, Tame, Plain, OnGoaway, OnPing, OnReset, OnSettings, OnHeaders, OnContinuation, OnData;
    if f.kind == HEADERS { OnHeadersTame(cfg, c, f, app); }
    else if f.kind == CONTINUATION { OnContinuationTame(cfg, c, f, app); }
    else if f.kind == DATA { OnDataTame(cfg, c, f, app); }
  }

  // ----- Which events send DATA -----

  predicate SendingEvent(c: Conn, e: Event) {
    match e
    case StreamSent(ok) => ok && CanSend(c)
    case Arrived(f) =>
      && !c.flags.waitingEndHeaders && GivesCredit(c, f)
      && c.stream.buflen > 0 && c.window > 0 && c.stream.window + U31(f.payload) > 0
    case _ => false
  }

  /**
   * DATA goes out on a completed write and on credit for the stream, whatever the stream's state, and on no other event:
   * also while its header block is being collected, and after it was closed.
   */
  lemma SendsIff(cfg: Config, c: Conn, e: Event, app: Oracle)
    requires Sized(cfg, c)
    ensures Sends(c, OnEvent(cfg, c, e, app)) <==> SendingEvent(c, e)
  {
    match e
    case Arrived(f) =>
      if f.kind != WINDOW_UPDATE || c.flags.waitingEndHeaders {
        OnFrameTame(cfg, c, f, app);
        TameDoesNotSend(c, OnFrame(cfg, c, f, app).conn);
      } else {
        OnWindowUpdateIs(cfg, c, f);
        var r := OnWindowUpdate(cfg, c, f).conn;
        if Plain(c, r) {
          PlainIsTame(c, r);
        }
      }
      hide OnFrame, OnWindowUpdate, U31;
    case StreamSent(ok) =>
      ContinueSendIs(cfg, c);
      ResetPlain(c, 0, 0);
      hide ContinueSend;
    case FirstFrame(f) =>
      OnFirstFramePlain(c, f);
      PlainIsTame(c, OnFirstFrame(c, f).conn);
      hide OnFirstFrame;
    case _ =>
  }

  /**
   * A stream that is no longer active still sends: what is left in its buffer when a write completes, and on credit
   * for an older stream.
   */
  lemma SendsWhenClosedIff(cfg: Config, c: Conn, e: Event, app: Oracle)
    requires Inv(cfg, c) && Sized(cfg, c) && c.stream.state == Idle
    ensures Sends(c, OnEvent(cfg, c, e, app)) <==>
            c.stream.buflen > 0 && c.window > 0 &&
            match e
            case StreamSent(ok) => ok && c.stream.window > 0
            case Arrived(f) =>
              !c.flags.waitingEndHeaders && GivesCredit(c, f) && f.streamId < c.stream.id
              && c.stream.window + U31(f.payload) > 0
            case _ => false
  {
    assert c.stream.id == c.lastOpened;
    hide Inv, OnEvent, Sends, U31;
    SendsIff(cfg, c, e, app);
  }

  // ----- What a graceful close leads to -----

  /** A request is handed over although one of the ends of its stream was not seen. */
  ghost predicate HandsOverEarly(c: Conn, c': Conn) {
    exists k :: |c.log| <= k < |c'.log| && c'.log[k].Handled? && !(At(c'.log, k).endHeaders && At(c'.log, k).endStream)
  }

  /** Before the connection is given up no frame does that. */
  lemma NotEarlyBefore(cfg: Config, c: Conn, f: Frame, app: Oracle)
    requires Inv(cfg, c) && Sized(cfg, c) && !Watch(c.log).broken
    ensures !HandsOverEarly(c, OnFrame(cfg, c, f, app).conn)
  {
    hide Watch, OnFrame, Agrees;
    var c' := OnFrame(cfg, c, f, app).conn;
    OnFrameInv(cfg, c, f, app);
    AtEnd(c.log);
    forall k | |c.log| <= k < |c'.log| && c'.log[k].Handled? ensures At(c'.log, k).endHeaders && At(c'.log, k).endStream {
      HandlesTamely(cfg, c, f, app, k);
      StaysUnbroken(c.log, c'.log, k);
      AllowedAt(cfg, c'.log, k);
    }
  }

  lemma HandlesTamely(cfg: Config, c: Conn, f: Frame, app: Oracle, k: nat)
    requires Sized(cfg, c)
    requires var c' := OnFrame(cfg, c, f, app).conn; |c.log| <= k < |c'.log| && c'.log[k].Handled?
    ensures var c' := OnFrame(cfg, c, f, app).conn;
            c.log <= c'.log && forall j :: |c.log| <= j < k ==> !Breaks(c'.log[j])
  {
    if f.kind != WINDOW_UPDATE || c.flags.waitingEndHeaders {
      OnFrameTame(cfg, c, f, app);
    } else {
      OnWindowUpdateHandles(cfg, c, f);
    }
    hide OnFrame;
  }

  lemma OnWindowUpdateHandles(cfg: Config, c: Conn, f: Frame)
    ensures var r := OnWindowUpdate(cfg, c, f).conn;
            c.log <= r.log && forall i :: |c.log| <= i < |r.log| ==> !r.log[i].Handled?
  {
    hide U31;
  }

  lemma {:induction false} StaysUnbroken(log: seq<Action>, log': seq<Action>, k: nat)
    requires log <= log' && |log| <= k <= |log'| && !Watch(log).broken
    requires forall j :: |log| <= j < k ==> !Breaks(log'[j])
    ensures !At(log', k).broken
    decreases k
  {
    hide Watch;
    if k == |log| {
      assert log'[..k] == log;
    } else {
      StaysUnbroken(log, log', k - 1);
      hide At, Observe;
      AtStep(log', k);
      UnbrokenStep(At(log', k - 1), log'[k - 1]);
    }
  }

  lemma UnbrokenStep(m: Monitor, a: Action)
    ensures Observe(m, a).broken <==> m.broken || Breaks(a)
  {
  }

  /** A DATA frame that an open stream takes. */
  predicate TakesData(c: Conn, f: Frame) {
    f.kind == DATA && c.stream.state == Open && f.streamId == c.stream.id && !BadPadding(f)
  }

  /** Nothing is awaited any more. */
  predicate Forgetful(c: Conn) {
    c.state == Closing && !c.flags.waitingEndHeaders && !c.flags.waitingEndStream
  }

  lemma ForgetfulData(cfg: Config, g: Conn, f: Frame, app: Oracle)
    requires Sized(cfg, g) && Forgetful(g) && g.stream.id == g.lastOpened > 0 && TakesData(g, f)
    ensures var d, r := NoteFlags(g, HasFlag(f, END_STREAM), false), OnFrame(cfg, g, f, app).conn;
            && g.log <= d.log && d.log + [Handled(d.stream.id, d.stream.buf[..d.stream.buflen])] <= r.log
            && |d.log| == |g.log| + (if HasFlag(f, END_STREAM) then 1 else 0)
            && |r.log| == |d.log| + 2 && !r.log[|d.log| + 1].Handled?
            && d.log == g.log + (if HasFlag(f, END_STREAM) then [GotEndStream] else [])
  {
    var d := NoteFlags(g, HasFlag(f, END_STREAM), false);
    EndStreamIs(cfg, d, app);
    assert OnFrame(cfg, g, f, app).conn == EndStream(cfg, d, app).conn by {
      hide EndStream, HasFlag;
    }
    hide EndStream, OnFrame, HasFlag;
  }

  /** Answered without the end of the stream, the connection is as forgetful as before: the next such frame does it again. */
  lemma ForgetfulStays(cfg: Config, g: Conn, f: Frame, app: Oracle)
    requires Sized(cfg, g) && Forgetful(g) && g.stream.id == g.lastOpened > 0 && TakesData(g, f) && !HasFlag(f, END_STREAM)
    requires app(g.log + [Handled(g.stream.id, g.stream.buf[..g.stream.buflen])]).Respond?
    requires app(g.log + [Handled(g.stream.id, g.stream.buf[..g.stream.buflen])]).headersSent
    ensures var r := OnFrame(cfg, g, f, app).conn;
            Sized(cfg, r) && Forgetful(r) && r.stream.id == r.lastOpened > 0 && TakesData(r, f)
  {
    hide HasFlag, BadPadding;
    assert OnFrame(cfg, g, f, app).conn == EndStream(cfg, g, app).conn by {
      hide EndStream;
    }
    hide OnFrame;
  }

  /** Once nothing is awaited, every other frame hands nothing over. */
  lemma ForgetfulOthers(cfg: Config, g: Conn, f: Frame, app: Oracle)
    requires Sized(cfg, g) && Forgetful(g) && !(TakesData(g, f) && g.stream.id == g.lastOpened > 0)
    requires g.stream.id == g.lastOpened
    ensures var r := OnFrame(cfg, g, f, app).conn;
            g.log <= r.log && forall i :: |g.log| <= i < |r.log| ==> !r.log[i].Handled?
  {
    OnSettingsPlain(g, f);
    OthersPlain(g, f);
    OnWindowUpdateHandles(cfg, g, f);
    FailPlain(g, PROTOCOL_ERROR);
    ResetPlain(g, f.streamId, STREAM_CLOSED_ERROR);
    hide OnSettings, OnGoaway, OnPing, OnReset, OnWindowUpdate, Fail, ResetStream, EndStream, HasFlag, BadPadding;
  }

  /**
   * What the monitor knows after a graceful close is what it knew before, and a DATA frame adds the end of the stream if
   * it has the flag.
   */
  lemma KnownAfterClose(log: seq<Action>, ends: bool)
    ensures var m, after := Watch(log), log + [Graceful] + (if ends then [GotEndStream] else []);
            Watch(after).endHeaders == m.endHeaders && Watch(after).endStream == (m.endStream || ends)
  {
    var g := log + [Graceful];
    WatchLast(g);
    assert g[..|g| - 1] == log;
    if ends {
      var d := g + [GotEndStream];
      WatchLast(d);
      assert d[..|d| - 1] == g;
    } else {
      assert g + [] == g;
    }
    hide Watch;
  }

  /**
   * After a graceful close of a connection that had not been given up, a frame hands over a request that lacks one of its
   * ends if and only if it is a DATA frame that the open stream takes, and the end of the headers was not
   * seen or the frame does not end the stream.
   */
  lemma GracefulHandsOverEarlyIff(cfg: Config, c: Conn, f: Frame, app: Oracle)
    requires Inv(cfg, c) && Sized(cfg, c) && !Watch(c.log).broken
    ensures Sized(cfg, CloseGracefully(c))
    ensures HandsOverEarly(CloseGracefully(c), OnFrame(cfg, CloseGracefully(c), f, app).conn) <==>
            && c.state != Closed && c.state != Closing && TakesData(c, f)
            && !(Watch(c.log).endHeaders && HasFlag(f, END_STREAM))
  {
    var g := CloseGracefully(c);
    if c.state == Closed || c.state == Closing {
      NotEarlyBefore(cfg, c, f, app);
    } else {
      assert Forgetful(g) && g.log == c.log + [Graceful] && g.stream == c.stream && g.stream.id == g.lastOpened;
      OpenHasId(cfg, c);
      if TakesData(c, f) {
        GracefulData(cfg, c, g, f, app);
      } else {
        ForgetfulOthers(cfg, g, f, app);
        hide OnFrame, Watch;
      }
    }
  }

  lemma OpenHasId(cfg: Config, c: Conn)
    requires Inv(cfg, c)
    ensures c.stream.id == c.lastOpened && (c.stream.state == Open ==> c.stream.id > 0)
    ensures !Watch(c.log).broken && c.stream.state == Open ==> !Watch(c.log).endStream
  {
    hide Watch;
    ActiveHasId(cfg, c.log, |c.log|);
    AtEnd(c.log);
  }

  lemma GracefulData(cfg: Config, c: Conn, g: Conn, f: Frame, app: Oracle)
    requires Sized(cfg, g) && Forgetful(g) && g.log == c.log + [Graceful] && g.stream.id == g.lastOpened > 0
    requires TakesData(g, f) && !Watch(c.log).endStream
    ensures HandsOverEarly(g, OnFrame(cfg, g, f, app).conn) <==> !(Watch(c.log).endHeaders && HasFlag(f, END_STREAM))
  {
    hide Watch, OnFrame, HasFlag, NoteFlags;
    ForgetfulData(cfg, g, f, app);
    var d, r := NoteFlags(g, HasFlag(f, END_STREAM), false), OnFrame(cfg, g, f, app).conn;
    KnownAfterClose(c.log, HasFlag(f, END_STREAM));
    var k := |d.log|;
    assert r.log[..k] == d.log && r.log[k].Handled?;
    assert forall i :: |g.log| <= i < |r.log| && i != k ==> !r.log[i].Handled?;
  }
}
