/**
 * Responses over whole runs: the DATA frames after the headers of a response carry its body, in order and once, and the
 * stream ends with its last octet.
 */
module Http2Response {
  import opened Bits
  import opened Frames
  import opened Http2Spec
  import opened Http2Invariant
  import opened Http2Runs

  /** One DATA frame: the least of buffer, both windows and write buffer, and the last one exactly if nothing is left. */
  lemma SendIs(cfg: Config, c: Conn)
    ensures var r, s := ContinueSend(cfg, c), c.stream;
            if s.buflen == 0 || c.window <= 0 || s.window <= 0 then r == c
            else
              exists data: seq<byte>, last: bool ::
                var n := |data|;
                && r.log == c.log + [SentData(s.id, data, last)]
                && n <= s.buflen && n <= c.window && n <= s.window && n <= cfg.writeSize
                && (n == s.buflen || n == c.window || n == s.window || n == cfg.writeSize)
                && (last <==> r.stream.buflen == 0)
                && (forall i :: 0 <= i < n && s.bufpos + i < |s.buf| ==> data[i] == s.buf[s.bufpos + i])
                && r == c.(log := r.log, window := c.window - n,
                           stream := s.(window := s.window - n, buflen := s.buflen - n, bufpos := s.bufpos + n))
  {
    var r, s := ContinueSend(cfg, c), c.stream;
    if s.buflen > 0 && c.window > 0 && s.window > 0 {
      var n: nat := Min(Min(s.buflen, Min(c.window, s.window)), cfg.writeSize);
      var data := Slice(s.buf, s.bufpos, n);
      assert r.log == c.log + [SentData(s.id, data, s.buflen - n <= 0)];
    }
  }

  /** A response under way: its body, how far into it its DATA begins, and how much of that was sent. */
  datatype Reply = NoReply | Reply(body: seq<byte>, skipped: nat, sent: nat)

  /** DATA of the current stream. */
  function OnStream(log: seq<Action>): (n: nat) {
    Announced(SinceOpened(log))
  }

  /** What one more action makes of it: a new stream, more of a header block or another request is no response yet. */
  function Next(cfg: Config, log: seq<Action>, r: Reply, a: Action, app: Oracle): (r': Reply) {
    match a
    case Opened(_) => NoReply
    case Fragment(_) => NoReply
    case Handled(_, _) => NoReply
    case SentHeaders(_, _) =>
      (match app(log)
       case Unusable(_) => NoReply
       case Respond(content, _) => Reply(Take(content, cfg.streamBuf), OnStream(log), 0))
    case SentData(_, data, _) => if r.NoReply? then NoReply else r.(sent := r.sent + |data|)
    case _ => r
  }

  /** The response that the log and the outcomes of requests say is under way. */
  function UnderWay(cfg: Config, log: seq<Action>, app: Oracle): (r: Reply)
    decreases |log|
  {
    if log == [] then NoReply
    else
      var before := log[..|log| - 1];
      Next(cfg, before, UnderWay(cfg, before, app), log[|log| - 1], app)
  }

  /**
   * Headers answer the request handed over just before, and end the stream exactly for an empty body. DATA is the next
   * part of the body, never more than is left; its last frame is the one with the last octet, and none follows.
   */
  ghost predicate Right(cfg: Config, log: seq<Action>, r: Reply, a: Action, app: Oracle) {
    match a
    case SentHeaders(id, last) =>
      && log != [] && log[|log| - 1].Handled? && log[|log| - 1].id == id == Watch(log).lastId
      && app(log).Respond? && app(log).headersSent && (last <==> Take(app(log).content, cfg.streamBuf) == [])
    case SentData(id, data, last) =>
      id == Watch(log).lastId && (r.Reply? ==> Continues(r, data, last))
    case _ => true
  }

  ghost predicate Continues(r: Reply, data: seq<byte>, last: bool)
    requires r.Reply?
  {
    && r.sent < |r.body| && r.sent + |data| <= |r.body| && (last <==> r.sent + |data| == |r.body|)
    && forall i :: 0 <= i < |data| && r.skipped + r.sent + i < |r.body| ==> data[i] == r.body[r.skipped + r.sent + i]
  }

  ghost predicate RightAt(cfg: Config, log: seq<Action>, k: nat, app: Oracle)
    requires k < |log|
  {
    Right(cfg, log[..k], UnderWay(cfg, log[..k], app), log[k], app)
  }

  ghost predicate AllRight(cfg: Config, log: seq<Action>, app: Oracle) {
    forall k :: 0 <= k < |log| ==> RightAt(cfg, log, k, app)
  }

  /** The buffer of the stream holds the body, and of it the octets from the position on are left. */
  ghost predicate Holds(c: Conn, r: Reply) {
    r.Reply? ==>
      && r.sent <= |r.body| <= |c.stream.buf| && c.stream.buf[..|r.body|] == r.body
      && c.stream.buflen == |r.body| - r.sent && c.stream.bufpos == r.skipped + r.sent
  }

  ghost predicate Answers(cfg: Config, c: Conn, app: Oracle) {
    && AllRight(cfg, c.log, app) && Holds(c, UnderWay(cfg, c.log, app))
    && c.stream.bufpos == OnStream(c.log) && c.stream.id == Watch(c.log).lastId
  }

  lemma Snoc(cfg: Config, log: seq<Action>, a: Action, app: Oracle)
    ensures UnderWay(cfg, log + [a], app) == Next(cfg, log, UnderWay(cfg, log, app), a, app)
    ensures Watch(log + [a]).lastId == if a.Opened? then a.id else Watch(log).lastId
    ensures OnStream(log + [a]) == if a.Opened? then 0 else OnStream(log) + if a.SentData? then |a.data| else 0
  {
    hide Next;
    var all := log + [a];
    assert all[..|log|] == log;
    var mine := SinceOpened(log);
    assert (mine + [a])[..|mine|] == mine;
  }

  lemma RightSnoc(cfg: Config, log: seq<Action>, a: Action, app: Oracle)
    requires AllRight(cfg, log, app) && Right(cfg, log, UnderWay(cfg, log, app), a, app)
    ensures AllRight(cfg, log + [a], app)
  {
    hide UnderWay, Right;
    var all := log + [a];
    forall k | 0 <= k < |all| ensures RightAt(cfg, all, k, app) {
      if k < |log| {
        assert all[..k] == log[..k];
        assert RightAt(cfg, log, k, app);
      } else {
        assert all[..k] == log;
      }
    }
  }

  predicate Neutral(a: Action) {
    !a.Opened? && !a.Fragment? && !a.Handled? && !a.SentHeaders? && !a.SentData?
  }

  predicate SameBuffer(s: Stream, t: Stream) {
    s.id == t.id && s.buf == t.buf && s.buflen == t.buflen && s.bufpos == t.bufpos
  }

  /** One action that has nothing to do with responses. */
  lemma NeutralAnswers(cfg: Config, c: Conn, a: Action, c': Conn, app: Oracle)
    requires Answers(cfg, c, app) && Neutral(a) && c'.log == c.log + [a] && SameBuffer(c.stream, c'.stream)
    ensures Answers(cfg, c', app)
  {
    hide UnderWay, AllRight, OnStream, Watch;
    Snoc(cfg, c.log, a, app);
    RightSnoc(cfg, c.log, a, app);
  }

  lemma SameAnswers(cfg: Config, c: Conn, c': Conn, app: Oracle)
    requires Answers(cfg, c, app) && c'.log == c.log && SameBuffer(c.stream, c'.stream)
    ensures Answers(cfg, c', app)
  {
  }

  /** One action after which no response is under way. */
  lemma BeginAnswers(cfg: Config, c: Conn, a: Action, c': Conn, app: Oracle)
    requires Answers(cfg, c, app) && c'.log == c.log + [a]
    requires if a.Opened? then c'.stream.id == a.id && c'.stream.bufpos == 0
             else (a.Fragment? || a.Handled?) && c'.stream.id == c.stream.id && c'.stream.bufpos == c.stream.bufpos
    ensures Answers(cfg, c', app)
  {
    hide UnderWay, AllRight, OnStream, Watch;
    Snoc(cfg, c.log, a, app);
    RightSnoc(cfg, c.log, a, app);
  }

  lemma ErrorsAnswer(cfg: Config, c: Conn, id: nat, error: nat, app: Oracle)
    requires Answers(cfg, c, app)
    ensures Answers(cfg, Fail(c, error), app) && Answers(cfg, Finish(c), app) && Answers(cfg, CloseNow(c), app)
    ensures Answers(cfg, ResetStream(c, id, error), app) && Answers(cfg, CloseGracefully(c), app)
    ensures Answers(cfg, Log(c, Replied), app) && Answers(cfg, Log(Finish(c), Replied), app)
  {
    hide Answers;
    NeutralAnswers(cfg, c, ConnError(error), Fail(c, error), app);
    NeutralAnswers(cfg, c, Finished, Finish(c), app);
    NeutralAnswers(cfg, Finish(c), ClosedNow, CloseNow(c), app);
    NeutralAnswers(cfg, Finish(c), Replied, Log(Finish(c), Replied), app);
    NeutralAnswers(cfg, c, Replied, Log(c, Replied), app);
    var reset := Log(c, SentReset(id, error));
    NeutralAnswers(cfg, c, SentReset(id, error), reset, app);
    NeutralAnswers(cfg, reset, Finished, Finish(reset), app);
    if c.state != Closed && c.state != Closing {
      NeutralAnswers(cfg, c, Graceful, CloseGracefully(c), app);
    }
  }

  lemma FromBuffer(c: Conn, r: Reply, data: seq<byte>, last: bool)
    requires r.Reply? && Holds(c, r) && 0 < c.stream.buflen && |data| <= c.stream.buflen
    requires last <==> |data| == c.stream.buflen
    requires var s := c.stream; forall i :: 0 <= i < |data| && s.bufpos + i < |s.buf| ==> data[i] == s.buf[s.bufpos + i]
    ensures Continues(r, data, last)
  {
    var s := c.stream;
    forall i | 0 <= i < |data| && r.skipped + r.sent + i < |r.body| ensures data[i] == r.body[r.skipped + r.sent + i] {
      assert s.buf[..|r.body|][s.bufpos + i] == s.buf[s.bufpos + i];
    }
  }

  lemma SendAnswers(cfg: Config, c: Conn, app: Oracle)
    requires Answers(cfg, c, app)
    ensures Answers(cfg, ContinueSend(cfg, c), app)
  {
    SendIs(cfg, c);
    var r, s := ContinueSend(cfg, c), c.stream;
    hide ContinueSend, UnderWay, AllRight, OnStream, Watch, Continues;
    if r != c {
      var data: seq<byte>, last: bool :|
        && r.log == c.log + [SentData(s.id, data, last)] && |data| <= s.buflen && (last <==> r.stream.buflen == 0)
        && (forall i :: 0 <= i < |data| && s.bufpos + i < |s.buf| ==> data[i] == s.buf[s.bufpos + i])
        && r.stream == s.(window := s.window - |data|, buflen := s.buflen - |data|, bufpos := s.bufpos + |data|);
      Snoc(cfg, c.log, SentData(s.id, data, last), app);
      var reply := UnderWay(cfg, c.log, app);
      if reply.Reply? {
        FromBuffer(c, reply, data, last);
      }
      RightSnoc(cfg, c.log, SentData(s.id, data, last), app);
    }
  }

  /** The headers of a response. */
  lemma HeadersAnswer(cfg: Config, c: Conn, c': Conn, app: Oracle)
    requires Answers(cfg, c, app) && c.log != [] && c.log[|c.log| - 1].Handled? && c.log[|c.log| - 1].id == c.stream.id
    requires app(c.log).Respond? && app(c.log).headersSent && |c.stream.buf| == cfg.streamBuf
    requires var body := Take(app(c.log).content, cfg.streamBuf);
             && c'.log == c.log + [SentHeaders(c.stream.id, body == [])]
             && c'.stream == c.stream.(buf := body + c.stream.buf[|body|..], buflen := |body|)
    ensures Answers(cfg, c', app)
  {
    hide UnderWay, AllRight, OnStream, Watch;
    var body := Take(app(c.log).content, cfg.streamBuf);
    Snoc(cfg, c.log, SentHeaders(c.stream.id, body == []), app);
    RightSnoc(cfg, c.log, SentHeaders(c.stream.id, body == []), app);
  }

  lemma EndAnswers(cfg: Config, c: Conn, app: Oracle)
    requires Sized(cfg, c) && Answers(cfg, c, app)
    ensures Answers(cfg, EndStream(cfg, c, app).conn, app)
  {
    hide Answers, Fail;
    var s := c.stream;
    var a := Handled(s.id, s.buf[..s.buflen]);
    var c1 := Log(c, a);
    BeginAnswers(cfg, c, a, c1, app);
    match app(c1.log)
    case Unusable(error) =>
      ErrorsAnswer(cfg, c1, 0, error, app);
    case Respond(content, headersSent) =>
      var body := Take(content, cfg.streamBuf);
      var c2 := c1.(stream := s.(buf := body + s.buf[|body|..], buflen := |body|));
      if headersSent {
        HeadersAnswer(cfg, c1, Log(c2, SentHeaders(s.id, body == [])), app);
      } else {
        BeginAnswers(cfg, c, a, c2, app);
        ErrorsAnswer(cfg, c2, 0, INTERNAL_ERROR, app);
      }
  }

  lemma NotedAnswers(cfg: Config, c: Conn, a: bool, b: bool, app: Oracle)
    requires Sized(cfg, c) && Answers(cfg, c, app)
    ensures Answers(cfg, Proceed(cfg, NoteFlags(c, a, b), app).conn, app)
  {
    hide Answers, EndStream;
    var c1 := NoteFlags(c, a, false);
    var c2 := NoteFlags(c, a, b);
    if a {
      NeutralAnswers(cfg, c, GotEndStream, c1, app);
    }
    if b {
      NeutralAnswers(cfg, c1, GotEndHeaders, c2, app);
    }
    EndAnswers(cfg, c2, app);
  }

  lemma BlockAnswers(cfg: Config, c: Conn, f: Frame, data: seq<byte>, app: Oracle)
    requires Sized(cfg, c) && Answers(cfg, c, app)
    ensures Answers(cfg, HeaderBlock(cfg, c, f, data, app).conn, app)
  {
    hide Answers, Proceed, NoteFlags, HasFlag, Take;
    ErrorsAnswer(cfg, c, 0, FLOW_CONTROL_ERROR, app);
    var c1 := Collect(cfg, c, data);
    BeginAnswers(cfg, c, Fragment(data), c1, app);
    NotedAnswers(cfg, c1, HasFlag(f, END_STREAM), HasFlag(f, END_HEADERS), app);
  }

  lemma HeadersFrameAnswers(cfg: Config, c: Conn, f: Frame, app: Oracle)
    requires Sized(cfg, c) && Answers(cfg, c, app)
    ensures Answers(cfg, OnHeaders(cfg, c, f, app).conn, app)
  {
    hide Answers, HeaderBlock, HasFlag, HeadersFragment, BadPadding;
    ErrorsAnswer(cfg, c, f.streamId, PROTOCOL_ERROR, app);
    ErrorsAnswer(cfg, c, 0, REFUSED_STREAM, app);
    ErrorsAnswer(cfg, c, 0, STREAM_CLOSED_ERROR, app);
    var c1 := OpenStream(c, f.streamId);
    var c2 := Log(c, TrailersBegun).(flags := c.flags.(waitingTrailers := true, waitingEndHeaders := true));
    BeginAnswers(cfg, c, Opened(f.streamId), c1, app);
    NeutralAnswers(cfg, c, TrailersBegun, c2, app);
    ErrorsAnswer(cfg, c1, 0, PROTOCOL_ERROR, app);
    ErrorsAnswer(cfg, c2, 0, PROTOCOL_ERROR, app);
    if !BadPadding(f) {
      BlockAnswers(cfg, c1, f, HeadersFragment(f), app);
      BlockAnswers(cfg, c2, f, HeadersFragment(f), app);
    }
  }

  lemma {:induction false} SettingsAnswer(cfg: Config, c: Conn, data: seq<byte>, total: nat, app: Oracle)
    requires Answers(cfg, c, app)
    ensures Answers(cfg, UpdateSettings(c, data, total).0, app)
    decreases |data|
  {
    hide Answers, U32, Join;
    if |data| >= 6 {
      var id, value := Join(data[0], data[1]), U32(data[2..6]);
      var r := UpdateSetting(c, id, value);
      ErrorsAnswer(cfg, c, 0, PROTOCOL_ERROR, app);
      ErrorsAnswer(cfg, c, 0, FLOW_CONTROL_ERROR, app);
      if r.1 {
        if id == 4 {
          NeutralAnswers(cfg, c, InitialWindow(value), r.0, app);
        }
        SettingsAnswer(cfg, r.0, data[6..], if 1 <= id <= 6 then total + 1 else total, app);
      }
    }
  }

  lemma UpdateAnswers(cfg: Config, c: Conn, f: Frame, app: Oracle)
    requires Answers(cfg, c, app)
    ensures Answers(cfg, OnWindowUpdate(cfg, c, f).conn, app)
  {
    hide Answers, U31, ContinueSend;
    ErrorsAnswer(cfg, c, 0, FRAME_SIZE_ERROR, app);
    ErrorsAnswer(cfg, c, 0, PROTOCOL_ERROR, app);
    ErrorsAnswer(cfg, c, 0, STREAM_CLOSED_ERROR, app);
    ErrorsAnswer(cfg, c, c.stream.id, FLOW_CONTROL_ERROR, app);
    if |f.payload| == 4 {
      var n := U31(f.payload);
      NeutralAnswers(cfg, c, ConnCredit(n), Log(c, ConnCredit(n)).(window := c.window + n), app);
      var credited := Log(c, StreamCredit(n)).(stream := c.stream.(window := c.stream.window + n));
      NeutralAnswers(cfg, c, StreamCredit(n), credited, app);
      SendAnswers(cfg, credited, app);
    }
  }

  lemma SettingsFrameAnswers(cfg: Config, c: Conn, f: Frame, app: Oracle)
    requires Answers(cfg, c, app)
    ensures Answers(cfg, OnSettings(c, f).conn, app)
  {
    hide Answers, UpdateSettings, HasFlag;
    ErrorsAnswer(cfg, c, 0, FRAME_SIZE_ERROR, app);
    ErrorsAnswer(cfg, c, 0, PROTOCOL_ERROR, app);
    SettingsAnswer(cfg, c, f.payload, 0, app);
    ErrorsAnswer(cfg, UpdateSettings(c, f.payload, 0).0, 0, 0, app);
    SameAnswers(cfg, c, c.(flags := c.flags.(waitingAck := false)), app);
  }

  lemma GoawayAnswers(cfg: Config, c: Conn, f: Frame, app: Oracle)
    requires Answers(cfg, c, app)
    ensures Answers(cfg, OnGoaway(c, f).conn, app)
  {
    hide Answers, U31;
    ErrorsAnswer(cfg, c, 0, FRAME_SIZE_ERROR, app);
    ErrorsAnswer(cfg, c, 0, PROTOCOL_ERROR, app);
    SameAnswers(cfg, Log(c, Replied), Log(c, Replied).(flags := c.flags.(goawayReceived := true), state := Closing), app);
    SameAnswers(cfg, Log(Finish(c), Replied),
      Log(Finish(c), Replied).(flags := c.flags.(goawayReceived := true), state := Closing), app);
  }

  lemma FrameAnswers(cfg: Config, c: Conn, f: Frame, app: Oracle)
    requires Sized(cfg, c) && Answers(cfg, c, app)
    ensures Answers(cfg, OnFrame(cfg, c, f, app).conn, app)
  {
    hide Answers, OnSettings, OnGoaway, OnWindowUpdate, OnHeaders, HeaderBlock, Proceed, NoteFlags, HasFlag, BadPadding,
      Fail, Finish, ResetStream;
    ErrorsAnswer(cfg, c, f.streamId, FRAME_SIZE_ERROR, app);
    ErrorsAnswer(cfg, c, f.streamId, PROTOCOL_ERROR, app);
    ErrorsAnswer(cfg, c, f.streamId, STREAM_CLOSED_ERROR, app);
    SettingsFrameAnswers(cfg, c, f, app);
    GoawayAnswers(cfg, c, f, app);
    UpdateAnswers(cfg, c, f, app);
    HeadersFrameAnswers(cfg, c, f, app);
    BlockAnswers(cfg, c, f, f.payload, app);
    NotedAnswers(cfg, c, HasFlag(f, END_STREAM), false, app);
  }

  lemma EventAnswers(cfg: Config, c: Conn, e: Event, app: Oracle)
    requires Sized(cfg, c) && Answers(cfg, c, app)
    ensures Answers(cfg, OnEvent(cfg, c, e, app), app)
  {
    hide Answers, OnFrame, OnSettings, Fail, Finish, CloseNow, CloseGracefully, ContinueSend;
    ErrorsAnswer(cfg, c, 0, PROTOCOL_ERROR, app);
    ErrorsAnswer(cfg, c, 0, SETTINGS_TIMEOUT, app);
    SendAnswers(cfg, c, app);
    SameAnswers(cfg, c, c.(state := WaitingSettings), app);
    SameAnswers(cfg, c, c.(flags := c.flags.(waitingAck := true)), app);
    match e
    case Arrived(f) => FrameAnswers(cfg, c, f, app);
    case FirstFrame(f) =>
      SettingsFrameAnswers(cfg, c, f, app);
      var r := OnSettings(c, f).conn;
      SameAnswers(cfg, r, r.(state := Ready), app);
    case _ =>
  }

  lemma {:induction false} RunAnswers(cfg: Config, events: seq<Event>, app: Oracle)
    ensures Answers(cfg, Run(cfg, events, app), app)
  {
    hide Answers, OnEvent, Inv;
    if events == [] {
      StartAnswers(cfg, app);
    } else {
      var before := events[..|events| - 1];
      RunAnswers(cfg, before, app);
      EventAnswers(cfg, Run(cfg, before, app), events[|events| - 1], app);
    }
  }

  lemma StartAnswers(cfg: Config, app: Oracle)
    ensures Answers(cfg, NewClient(cfg), app)
  {
  }

  // ----- What a response comes to -----

  /** The octets of all DATA frames of a log. */
  function Payload(log: seq<Action>): (r: seq<byte>) {
    if log == [] then []
    else Payload(log[..|log| - 1]) + if log[|log| - 1].SentData? then log[|log| - 1].data else []
  }

  /** A frame that ends the stream. */
  predicate EndsStream(a: Action) {
    (a.SentHeaders? && a.last) || (a.SentData? && a.last)
  }

  /** Response headers at i, and up to j neither a new stream or request nor more of a header block. */
  predicate Answered(log: seq<Action>, i: nat, j: nat)
    requires i < j <= |log|
  {
    && log[i].SentHeaders?
    && forall k :: i < k < j ==> !log[k].Opened? && !log[k].Fragment? && !log[k].Handled? && !log[k].SentHeaders?
  }

  predicate Ended(log: seq<Action>, i: nat, j: nat)
    requires i <= j <= |log|
  {
    exists k :: i <= k < j && EndsStream(log[k])
  }

  /** The octets sent so far are those of the body, from where the DATA of the stream begins. */
  ghost predicate PartOf(body: seq<byte>, skipped: nat, data: seq<byte>) {
    |data| <= |body| && forall m :: 0 <= m < |data| && skipped + m < |body| ==> data[m] == body[skipped + m]
  }

  lemma PayloadSnoc(log: seq<Action>, i: nat, j: nat)
    requires i < j <= |log|
    ensures i + 1 == j ==> Payload(log[i + 1..j]) == []
    ensures i + 1 < j ==>
              Payload(log[i + 1..j]) ==
              Payload(log[i + 1..j - 1]) + if log[j - 1].SentData? then log[j - 1].data else []
  {
    if i + 1 < j {
      var part := log[i + 1..j];
      assert part[..|part| - 1] == log[i + 1..j - 1];
    }
  }

  lemma UnderWayStep(cfg: Config, log: seq<Action>, k: nat, app: Oracle)
    requires k < |log|
    ensures UnderWay(cfg, log[..k + 1], app) == Next(cfg, log[..k], UnderWay(cfg, log[..k], app), log[k], app)
  {
    hide Next;
    assert log[..k + 1][..k] == log[..k];
  }

  /** One frame or other action more. */
  lemma EndedStep(log: seq<Action>, i: nat, j: nat)
    requires i < j < |log|
    ensures Ended(log, i, j + 1) <==> Ended(log, i, j) || EndsStream(log[j])
  {
    hide EndsStream;
  }

  lemma EndedFirst(log: seq<Action>, i: nat)
    requires i < |log|
    ensures Ended(log, i, i + 1) <==> EndsStream(log[i])
  {
    hide EndsStream;
  }

  lemma PartStep(r: Reply, data: seq<byte>, more: seq<byte>, last: bool)
    requires r.Reply? && r.sent == |data| && PartOf(r.body, r.skipped, data) && Continues(r, more, last)
    ensures PartOf(r.body, r.skipped, data + more) && |data| < |r.body| && (last <==> |data + more| == |r.body|)
  {
  }

  lemma PartNone(body: seq<byte>, skipped: nat)
    ensures PartOf(body, skipped, [])
  {
  }

  lemma {:induction false} SentSoFar(cfg: Config, log: seq<Action>, i: nat, j: nat, app: Oracle)
    requires AllRight(cfg, log, app) && i < j <= |log| && Answered(log, i, j)
    ensures app(log[..i]).Respond?
    ensures var body, data := Take(app(log[..i]).content, cfg.streamBuf), Payload(log[i + 1..j]);
            && UnderWay(cfg, log[..j], app) == Reply(body, OnStream(log[..i]), |data|)
            && PartOf(body, OnStream(log[..i]), data) && (Ended(log, i, j) <==> |data| == |body|)
    decreases j
  {
    hide UnderWay, OnStream, Payload, Take, Watch, PartOf, Continues, Ended;
    assert RightAt(cfg, log, i, app) && RightAt(cfg, log, j - 1, app);
    UnderWayStep(cfg, log, j - 1, app);
    PayloadSnoc(log, i, j);
    if j == i + 1 {
      EndedFirst(log, i);
      PartNone(Take(app(log[..i]).content, cfg.streamBuf), OnStream(log[..i]));
    } else {
      SentSoFar(cfg, log, i, j - 1, app);
      EndedStep(log, i, j - 1);
      if log[j - 1].SentData? {
        PartStep(UnderWay(cfg, log[..j - 1], app), Payload(log[i + 1..j - 1]), log[j - 1].data, log[j - 1].last);
      } else {
        assert Payload(log[i + 1..j - 1]) + [] == Payload(log[i + 1..j - 1]);
      }
    }
  }

  /**
   * The response of every run: the headers answer the request handed over just before. The DATA that follows carries
   * its body from the first octet, if the stream sent no DATA before, and all of it exactly once a frame ends the stream;
   * after that frame no DATA goes out.
   */
  lemma ResponseIsSent(cfg: Config, events: seq<Event>, app: Oracle, i: nat, j: nat)
    requires var log := Run(cfg, events, app).log; i < j <= |log| && Answered(log, i, j)
    ensures var log := Run(cfg, events, app).log;
            && i > 0 && log[i - 1].Handled? && log[i - 1].id == log[i].id
            && app(log[..i]).Respond? && app(log[..i]).headersSent
            && var body, data := Take(app(log[..i]).content, cfg.streamBuf), Payload(log[i + 1..j]);
               && (OnStream(log[..i]) == 0 ==> data <= body)
               && (OnStream(log[..i]) == 0 ==> (Ended(log, i, j) <==> data == body))
               && (Ended(log, i, j) <==> |data| == |body|)
               && (forall k :: i < k < j && log[k].SentData? ==> log[k].id == log[i].id && !Ended(log, i, k))
  {
    RunAnswers(cfg, events, app);
    var log := Run(cfg, events, app).log;
    hide Run, UnderWay, Payload, OnStream, Watch, Take;
    SentSoFar(cfg, log, i, j, app);
    assert RightAt(cfg, log, i, app);
    assert log[..i][|log[..i]| - 1] == log[i - 1];
    forall k | i < k < j && log[k].SentData? ensures log[k].id == log[i].id && !Ended(log, i, k) {
      SentSoFar(cfg, log, i, k, app);
      assert RightAt(cfg, log, k, app);
      SameStream(log, i, k);
    }
  }

  lemma {:induction false} SameStream(log: seq<Action>, i: nat, k: nat)
    requires i < k < |log| && !log[i].Opened? && forall m :: i < m < k ==> !log[m].Opened?
    ensures Watch(log[..i]).lastId == Watch(log[..k]).lastId
    decreases k
  {
    WatchLast(log[..k]);
    assert log[..k][..k - 1] == log[..k - 1];
    if k > i + 1 {
      hide Watch;
      SameStream(log, i, k - 1);
    }
  }

  /**
   * The buffer position is not set back for a response: if the stream sent n octets of DATA before, the response lacks
   * its first n octets.
   */
  lemma SkippedResponse(cfg: Config, events: seq<Event>, app: Oracle, i: nat, j: nat)
    requires var log := Run(cfg, events, app).log; i < j <= |log| && Answered(log, i, j) && Ended(log, i, j)
    ensures var log := Run(cfg, events, app).log;
            && app(log[..i]).Respond?
            && var body, n, data := Take(app(log[..i]).content, cfg.streamBuf), OnStream(log[..i]), Payload(log[i + 1..j]);
               |data| == |body| && (n <= |body| ==> data[..|body| - n] == body[n..])
  {
    RunAnswers(cfg, events, app);
    hide Run, UnderWay, Payload, OnStream, Take;
    SentSoFar(cfg, Run(cfg, events, app).log, i, j, app);
  }
}
