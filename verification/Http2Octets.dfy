/**
 * What the connection does with single frames, in the numbers of RFC 7540: kinds of frames from 0 to 9, flags as bits,
 * error codes of section 7; first for every frame of a kind, then for the octets on the wire.
 */
module Http2Octets {
  import opened Bits
  import opened Frames
  import opened Http2Spec
  import opened Http2Invariant
  import opened ReceivePath
  import Http2Limits
  import Http2Requests

  /** A connection error: the connection is closing, awaits nothing and reads no more. */
  function WithError(c: Conn, code: nat): (r: Conn) {
    c.(log := c.log + [ConnError(code)], state := Closing, reading := false,
       flags := Flags(false, false, false, false, c.flags.goawaySent, false))
  }

  /** The stream is reset; it is closed if it is the current one. */
  function WithReset(c: Conn, id: nat, code: nat): (r: Conn) {
    if id == c.stream.id
    then c.(log := c.log + [SentReset(id, code)] + [Finished], stream := c.stream.(state := Idle))
    else c.(log := c.log + [SentReset(id, code)])
  }

  function With(c: Conn, a: Action): (r: Conn) {
    c.(log := c.log + [a])
  }

  // ----- Frames by kind -----

  /** Between HEADERS and the end of its block only CONTINUATION (9) may come: section 6.10. */
  lemma Interrupted(cfg: Config, c: Conn, f: Frame, app: Oracle)
    requires Sized(cfg, c) && c.flags.waitingEndHeaders && f.kind != 9
    ensures OnFrame(cfg, c, f, app) == Step(WithError(c, 1), -1)
  {
  }

  /** PRIORITY (2) and unknown kinds are ignored, PUSH_PROMISE (5) is an error: sections 4.1, 6.3 and 6.6. */
  lemma OtherKinds(cfg: Config, c: Conn, f: Frame, app: Oracle)
    requires Sized(cfg, c) && !c.flags.waitingEndHeaders
    ensures f.kind == 2 || f.kind > 9 ==> OnFrame(cfg, c, f, app) == Step(c, 0)
    ensures f.kind == 5 ==> OnFrame(cfg, c, f, app) == Step(WithError(c, 1), 0)
  {
  }

  /** PING (6): section 6.7. */
  lemma Ping(cfg: Config, c: Conn, f: Frame, app: Oracle)
    requires Sized(cfg, c) && !c.flags.waitingEndHeaders && f.kind == 6
    ensures OnFrame(cfg, c, f, app) ==
            if f.streamId != 0 then Step(WithError(c, 1), -1)
            else if |f.payload| != 8 then Step(WithError(c, 6), -1)
            else Step(if f.flags % 2 == 1 then c else With(c, Replied), 0)
  {
  }

  /** GOAWAY (7): section 6.8. The stream is closed if the peer will not look at it. */
  lemma Goaway(cfg: Config, c: Conn, f: Frame, app: Oracle)
    requires Sized(cfg, c) && !c.flags.waitingEndHeaders && f.kind == 7
    ensures f.streamId != 0 ==> OnFrame(cfg, c, f, app) == Step(WithError(c, 1), -1)
    ensures f.streamId == 0 && |f.payload| < 8 ==> OnFrame(cfg, c, f, app) == Step(WithError(c, 6), -1)
    ensures f.streamId == 0 && |f.payload| >= 8 ==>
              var p := f.payload; var last := Number(p[0] % 128, p[1], p[2], p[3]); var r := OnFrame(cfg, c, f, app);
              && r.rc == 0
              && (c.flags.goawaySent ==> r.conn.state == Closed && !r.conn.reading && r.conn.stream.state == Idle)
              && (!c.flags.goawaySent && c.flags.goawayReceived ==> r.conn == c)
              && (!c.flags.goawaySent && !c.flags.goawayReceived ==>
                    && r.conn.state == Closing && r.conn.flags.goawayReceived && r.conn.reading == c.reading
                    && r.conn.stream.state == (if c.stream.id > last then Idle else c.stream.state)
                    && r.conn.log == c.log + (if c.stream.id > last then [Finished] else []) + [Replied])
  {
    hide OnSettings, OnPing, OnHeaders, OnContinuation, OnWindowUpdate, OnReset, OnData;
    if |f.payload| >= 8 {
      U31Is(f.payload);
    }
    hide U31, Number;
    assert c.log + [] == c.log;
  }

  lemma U31Is(p: seq<byte>)
    requires |p| >= 4
    ensures U31(p) == Number(p[0] % 128, p[1], p[2], p[3])
  {
  }

  /** RST_STREAM (3): section 6.4. Only the stream opened last can be reset. */
  lemma Reset(cfg: Config, c: Conn, f: Frame, app: Oracle)
    requires Sized(cfg, c) && !c.flags.waitingEndHeaders && f.kind == 3
    ensures OnFrame(cfg, c, f, app) ==
            if f.streamId == 0 then Step(WithError(c, 1), -1)
            else if |f.payload| != 4 then Step(WithError(c, 6), -1)
            else if f.streamId != c.lastOpened then Step(WithError(c, 1), -1)
            else Step(With(c, Finished).(stream := c.stream.(state := Idle)), 0)
  {
  }

  /** WINDOW_UPDATE (8) for the connection: section 6.9. */
  lemma ConnectionCredit(cfg: Config, c: Conn, f: Frame, app: Oracle)
    requires Sized(cfg, c) && !c.flags.waitingEndHeaders && f.kind == 8 && f.streamId == 0 && c.window >= 0
    ensures |f.payload| != 4 ==> OnFrame(cfg, c, f, app) == Step(WithError(c, 6), -1)
    ensures |f.payload| == 4 ==>
              var p := f.payload; var n := Number(p[0] % 128, p[1], p[2], p[3]);
              && (n == 0 ==> OnFrame(cfg, c, f, app) == Step(WithError(c, 1), -1))
              && (n > 0 && 0x7fff_ffff < c.window + n < 0x1_0000_0000 ==>
                    OnFrame(cfg, c, f, app) == Step(WithError(c, 3), -1))
              && (n > 0 && c.window + n <= 0x7fff_ffff ==>
                    OnFrame(cfg, c, f, app) == Step(With(c, ConnCredit(n)).(window := c.window + n), 0))
  {
    hide OnSettings, OnPing, OnHeaders, OnContinuation, OnGoaway, OnReset, OnData;
    if |f.payload| == 4 {
      U31Is(f.payload);
    }
    hide U31, Number;
  }

  /** WINDOW_UPDATE (8) for a stream: unknown, closed, nothing, too much, or credit for the current one, whatever its number. */
  lemma CreditOfStream(cfg: Config, c: Conn, f: Frame, app: Oracle)
    requires Sized(cfg, c) && !c.flags.waitingEndHeaders && f.kind == 8 && f.streamId != 0 && |f.payload| == 4
    ensures var p := f.payload; var n := Number(p[0] % 128, p[1], p[2], p[3]); var w := c.stream.window;
            OnFrame(cfg, c, f, app) ==
            if f.streamId > c.lastOpened then Step(WithError(c, 1), -1)
            else if f.streamId == c.stream.id && c.stream.state == Idle then Step(WithError(c, 5), -1)
            else if n == 0 then Step(WithError(c, 1), -1)
            else if (w + n) % 0x1_0000_0000 > 0x7fff_ffff then Step(WithReset(c, c.stream.id, 3), -1)
            else Step(ContinueSend(cfg, With(c, StreamCredit(n)).(stream := c.stream.(window := w + n))), 0)
  {
    hide OnSettings, OnPing, OnHeaders, OnContinuation, OnGoaway, OnReset, OnData, ContinueSend;
    U31Is(f.payload);
    hide U31, Number;
  }

  /** DATA (0): sections 5.1 and 6.1. Flag 1 ends the stream, flag 8 pads. */
  lemma Data(cfg: Config, c: Conn, f: Frame, app: Oracle)
    requires Sized(cfg, c) && !c.flags.waitingEndHeaders && f.kind == 0
    ensures var padded := f.flags / 8 % 2 == 1;
            && (f.streamId == 0 || f.streamId > c.lastOpened ==> OnFrame(cfg, c, f, app) == Step(WithError(c, 1), -1))
            && (0 < f.streamId <= c.lastOpened && (f.streamId < c.lastOpened || c.stream.state != Open) ==>
                  OnFrame(cfg, c, f, app) == Step(WithReset(c, f.streamId, 5), -1))
            && (0 < f.streamId == c.lastOpened && c.stream.state == Open && padded
                  && (f.payload == [] || f.payload[0] >= |f.payload|) ==>
                  OnFrame(cfg, c, f, app) == Step(WithError(c, 1), -1))
            && (0 < f.streamId == c.lastOpened && c.stream.state == Open && !padded
                && f.flags % 2 == 0 && c.flags.waitingEndStream ==>
                  OnFrame(cfg, c, f, app) == Step(c, 0))
  {
    hide OnSettings, OnPing, OnHeaders, OnContinuation, OnGoaway, OnReset, OnWindowUpdate, EndStream;
  }

  /** What DATA holds does not matter, nor how it is padded. */
  lemma DataIsIgnored(cfg: Config, c: Conn, f: Frame, app: Oracle)
    requires Sized(cfg, c) && !c.flags.waitingEndHeaders && f.kind == 0
    requires f.flags / 8 % 2 == 1 ==> f.payload != [] && f.payload[0] < |f.payload|
    ensures OnFrame(cfg, c, f, app) == OnFrame(cfg, c, Frame(0, f.flags % 2, f.streamId, []), app)
  {
    hide OnSettings, OnPing, OnHeaders, OnContinuation, OnGoaway, OnReset, OnWindowUpdate, EndStream;
  }

  /** HEADERS (1): sections 5.1.1 and 6.2. */
  lemma HeadersRefused(cfg: Config, c: Conn, f: Frame, app: Oracle)
    requires Sized(cfg, c) && !c.flags.waitingEndHeaders && f.kind == 1
    ensures c.state == Closing ==> OnFrame(cfg, c, f, app) == Step(c, 0)
    ensures var id := f.streamId;
            c.state != Closing ==>
            && (id == 0 || id < c.lastOpened || id % 2 == 0 ==> OnFrame(cfg, c, f, app) == Step(WithError(c, 1), -1))
            && (id > c.lastOpened && id % 2 == 1 && c.stream.state != Idle ==>
                  OnFrame(cfg, c, f, app) == Step(WithError(c, 7), -1))
            && (0 < id == c.lastOpened && id % 2 == 1 && c.stream.state != Open ==>
                  OnFrame(cfg, c, f, app) == Step(WithError(c, 5), -1))
            && (0 < id == c.lastOpened && id % 2 == 1 && c.stream.state == Open && f.flags % 2 == 0 ==>
                  OnFrame(cfg, c, f, app) == Step(WithReset(c, id, 1), -1))
  {
    hide OnSettings, OnPing, OnData, OnContinuation, OnGoaway, OnReset, OnWindowUpdate, HeaderBlock, HeadersFragment, BadPadding;
  }

  /** CONTINUATION (9) out of place: section 6.10. */
  lemma ContinuationRefused(cfg: Config, c: Conn, f: Frame, app: Oracle)
    requires Sized(cfg, c) && f.kind == 9 && (f.streamId == 0 || c.stream.state == Idle || !c.flags.waitingEndHeaders)
    ensures OnFrame(cfg, c, f, app) == Step(WithError(c, 1), -1)
  {
  }

  /** SETTINGS (4): section 6.5. Flag 1 acknowledges. */
  lemma Settings(cfg: Config, c: Conn, f: Frame, app: Oracle)
    requires Sized(cfg, c) && !c.flags.waitingEndHeaders && f.kind == 4
    ensures var ack := f.flags % 2 == 1; var u := UpdateSettings(c, f.payload, 0);
            OnFrame(cfg, c, f, app) ==
            if f.streamId != 0 then Step(WithError(c, 1), -1)
            else if (if ack then |f.payload| != 0 else |f.payload| % 6 != 0) then Step(WithError(c, 6), -1)
            else if ack then Step(c.(flags := c.flags.(waitingAck := false)), 0)
            else Step(if u.1 > 0 then With(u.0, Replied) else u.0, 0)
  {
    hide UpdateSettings;
  }

  /** One setting: section 6.5.2. ENABLE_PUSH is 2, INITIAL_WINDOW_SIZE 4, MAX_FRAME_SIZE 5; the others are just known. */
  lemma OneSetting(c: Conn, id: nat, value: nat)
    ensures id == 2 ==> UpdateSetting(c, id, value) == if value > 1 then (WithError(c, 1), false) else (c, true)
    ensures id == 5 ==> UpdateSetting(c, id, value) == if 16384 <= value <= 16777215 then (c, true) else (WithError(c, 1), false)
    ensures id !in {2, 4, 5} ==> UpdateSetting(c, id, value) == (c, true)
    ensures id == 4 && value > 0x7fff_ffff ==> UpdateSetting(c, id, value) == (WithError(c, 3), false)
    ensures id == 4 && value <= 0x7fff_ffff ==>
              var w := c.stream.window + value - c.initialWindow;
              var c' := With(c, InitialWindow(value)).(initialWindow := value);
              UpdateSetting(c, id, value) ==
              if c.stream.state == Idle then (c', true)
              else if w > 0x7fff_ffff then (WithError(c, 3), false)
              else (c'.(stream := c.stream.(window := w)), true)
  {
  }

  /** Settings are applied in order up to the first one refused; those numbered 1 to 6 are counted. */
  lemma SettingsInOrder(c: Conn, id: seq<byte>, v: seq<byte>, rest: seq<byte>, total: nat)
    requires |id| == 2 && |v| == 4
    ensures var n := 256 * id[0] as int + id[1]; var s := UpdateSetting(c, n, Number(v[0], v[1], v[2], v[3]));
            UpdateSettings(c, id + v + rest, total) ==
            if s.1 then UpdateSettings(s.0, rest, if 1 <= n <= 6 then total + 1 else total) else (s.0, 0)
    ensures UpdateSettings(c, [], total) == (c, total)
  {
    var data := id + v + rest;
    assert data[2..6] == v && data[6..] == rest;
    hide UpdateSetting;
    assert U32(v) == Number(v[0], v[1], v[2], v[3]);
  }

  // ----- The other events -----

  /** A settings timeout is error 4; failed writes, a sent GOAWAY and a peer that is gone close at once. */
  lemma OtherEvents(cfg: Config, c: Conn, app: Oracle)
    requires Sized(cfg, c)
    ensures OnEvent(cfg, c, TimerFired, app) == WithError(c, 4)
    ensures var gone := c.(log := c.log + [Finished] + [ClosedNow], stream := c.stream.(state := Idle),
                       state := Closed, reading := false);
            && OnEvent(cfg, c, PeerGone, app) == OnEvent(cfg, c, GoawaySent, app) == gone
            && OnEvent(cfg, c, WriteDone(false), app) == OnEvent(cfg, c, SettingsSent(false), app) == gone
            && OnEvent(cfg, c, Preface(false), app) == OnEvent(cfg, c, StreamSent(false), app) == gone
    ensures OnEvent(cfg, c, WriteDone(true), app) == c
    ensures OnEvent(cfg, c, SettingsSent(true), app) == c.(flags := c.flags.(waitingAck := true))
    ensures OnEvent(cfg, c, Preface(true), app) == c.(state := WaitingSettings)
  {
  }

  /** A graceful close happens once; it forgets what is awaited and whether GOAWAY was received. */
  lemma ClosesGracefully(cfg: Config, c: Conn, app: Oracle)
    requires Sized(cfg, c)
    ensures OnEvent(cfg, c, GracefulClose, app) ==
            if c.state == Closed || c.state == Closing then c
            else With(c, Graceful).(state := Closing, flags := Flags(false, false, false, false, c.flags.goawaySent, false))
  {
  }

  /** The first frame must be SETTINGS without flags: error 1 otherwise; its settings apply, and the connection is ready. */
  lemma FirstFrames(cfg: Config, c: Conn, f: Frame, app: Oracle)
    requires Sized(cfg, c)
    ensures OnEvent(cfg, c, FirstFrame(f), app) ==
            if f.kind != 4 || f.flags != 0 || f.streamId != 0 then WithError(c, 1)
            else if |f.payload| % 6 != 0 then WithError(c, 6)
            else
              var u := UpdateSettings(c, f.payload, 0);
              (if u.1 > 0 then With(u.0, Replied) else u.0).(state := Ready)
  {
    hide UpdateSettings;
  }

  // ----- Octets -----

  /** Frames of up to a hundred octets are received, and no header block is unfinished. */
  ghost predicate Takes(cfg: Config, c: Conn) {
    Sized(cfg, c) && cfg.maxFrame >= 100 && cfg.readSize >= 109 && !c.flags.waitingEndHeaders
  }

  /** The octets of a frame and nothing else, handled as the frame they stand for. */
  lemma ReceiveOne(cfg: Config, c: Conn, head: seq<byte>, f: Frame, app: Oracle)
    requires Takes(cfg, c) && |head| == 9 && |f.payload| <= 100 && head[5] < 128
    requires head[..3] == [0, 0, |f.payload|] && head[3] == f.kind && head[4] == f.flags
    requires f.streamId == Number(head[5], head[6], head[7], head[8])
    ensures Receive(cfg, c, head + f.payload, app) == Received(OnFrame(cfg, c, f, app).conn, 9 + |f.payload|)
  {
    hide ParseHeader, OnFrame, Number;
    var bytes := head + f.payload;
    ParsedOctets(bytes);
    LengthIs(head, |f.payload|);
    assert head[..3] == bytes[..3] && forall i :: 0 <= i < 9 ==> bytes[i] == head[i];
    assert bytes[9..9 + |f.payload|] == f.payload && bytes[9 + |f.payload|..] == [];
    assert f == Frame(f.kind, f.flags, f.streamId, f.payload);
    OnFrameSized(cfg, c, f, app);
    LeavesIncomplete(cfg, OnFrame(cfg, c, f, app).conn, [], [], app);
  }

  lemma LengthIs(head: seq<byte>, n: byte)
    requires |head| >= 3 && head[..3] == [0, 0, n]
    ensures Number(0, head[0], head[1], head[2]) == n
  {
    assert head[0] == head[..3][0] && head[1] == head[..3][1] && head[2] == head[..3][2];
  }

  lemma SmallNumber(a: byte)
    ensures Number(0, 0, 0, a) == a
  {
  }

  /** SETTINGS without entries: an acknowledgement, or nothing at all, to which the code does not reply. */
  lemma EmptySettingsOctets(cfg: Config, c: Conn, app: Oracle)
    requires Takes(cfg, c)
    ensures Receive(cfg, c, [0, 0, 0, 4, 1, 0, 0, 0, 0] + [], app).conn == c.(flags := c.flags.(waitingAck := false))
    ensures Receive(cfg, c, [0, 0, 0, 4, 0, 0, 0, 0, 0] + [], app).conn == c
  {
    hide Receive, OnFrame, UpdateSettings, Number;
    SmallNumber(0);
    var ack, plain := Frame(4, 1, 0, []), Frame(4, 0, 0, []);
    ReceiveOne(cfg, c, [0, 0, 0, 4, 1, 0, 0, 0, 0], ack, app);
    ReceiveOne(cfg, c, [0, 0, 0, 4, 0, 0, 0, 0, 0], plain, app);
    Settings(cfg, c, ack, app);
    Settings(cfg, c, plain, app);
    SettingsInOrder(c, [0, 0], [0, 0, 0, 0], [], 0);
  }

  /** SETTINGS with an initial window size. */
  lemma InitialWindowOctets(cfg: Config, c: Conn, v: seq<byte>, app: Oracle)
    requires Takes(cfg, c) && c.stream.state == Idle && |v| == 4 && v[0] < 128
    ensures var value := Number(v[0], v[1], v[2], v[3]);
            Receive(cfg, c, [0, 0, 6, 4, 0, 0, 0, 0, 0] + ([0, 4] + v + []), app).conn ==
            With(With(c, InitialWindow(value)), Replied).(initialWindow := value)
  {
    hide Receive, OnFrame, Number;
    SmallNumber(0);
    var f := Frame(4, 0, 0, [0, 4] + v + []);
    ReceiveOne(cfg, c, [0, 0, 6, 4, 0, 0, 0, 0, 0], f, app);
    InitialWindowFrame(cfg, c, f, v, app);
  }

  lemma InitialWindowFrame(cfg: Config, c: Conn, f: Frame, v: seq<byte>, app: Oracle)
    requires Takes(cfg, c) && c.stream.state == Idle && |v| == 4 && v[0] < 128
    requires f.kind == 4 && f.flags == 0 && f.streamId == 0 && f.payload == [0, 4] + v + []
    ensures var value := Number(v[0], v[1], v[2], v[3]);
            OnFrame(cfg, c, f, app).conn == With(With(c, InitialWindow(value)), Replied).(initialWindow := value)
  {
    hide OnFrame, UpdateSettings, UpdateSetting, Number;
    BelowHalf(v);
    var value := Number(v[0], v[1], v[2], v[3]);
    Settings(cfg, c, f, app);
    SettingsInOrder(c, [0, 4], v, [], 0);
    OneSetting(c, 4, value);
    SettingsInOrder(UpdateSetting(c, 4, value).0, [0, 4], v, [], 1);
  }

  lemma BelowHalf(v: seq<byte>)
    requires |v| == 4 && v[0] < 128
    ensures Number(v[0], v[1], v[2], v[3]) <= 0x7fff_ffff
  {
  }

  /** PING, and its acknowledgement. */
  lemma PingOctets(cfg: Config, c: Conn, data: seq<byte>, app: Oracle)
    requires Takes(cfg, c) && |data| == 8
    ensures Receive(cfg, c, [0, 0, 8, 6, 0, 0, 0, 0, 0] + data, app).conn == With(c, Replied)
    ensures Receive(cfg, c, [0, 0, 8, 6, 1, 0, 0, 0, 0] + data, app).conn == c
  {
    hide Receive, OnFrame, Number;
    SmallNumber(0);
    var ping, ack := Frame(6, 0, 0, data), Frame(6, 1, 0, data);
    ReceiveOne(cfg, c, [0, 0, 8, 6, 0, 0, 0, 0, 0], ping, app);
    ReceiveOne(cfg, c, [0, 0, 8, 6, 1, 0, 0, 0, 0], ack, app);
    Ping(cfg, c, ping, app);
    Ping(cfg, c, ack, app);
  }

  /** WINDOW_UPDATE by one for the connection. */
  lemma CreditOctets(cfg: Config, c: Conn, app: Oracle)
    requires Takes(cfg, c) && 0 <= c.window < 0x7fff_ffff
    ensures Receive(cfg, c, [0, 0, 4, 8, 0, 0, 0, 0, 0] + [0, 0, 0, 1], app).conn ==
            With(c, ConnCredit(1)).(window := c.window + 1)
  {
    hide Receive, OnFrame, Number;
    SmallNumber(0);
    SmallNumber(1);
    var f := Frame(8, 0, 0, [0, 0, 0, 1]);
    ReceiveOne(cfg, c, [0, 0, 4, 8, 0, 0, 0, 0, 0], f, app);
    ConnectionCredit(cfg, c, f, app);
  }

  /** RST_STREAM for the stream opened last, with whatever error code. */
  lemma ResetOctets(cfg: Config, c: Conn, code: seq<byte>, app: Oracle)
    requires Takes(cfg, c) && 0 < c.lastOpened < 256 && |code| == 4
    ensures Receive(cfg, c, [0, 0, 4, 3, 0, 0, 0, 0, c.lastOpened] + code, app).conn ==
            With(c, Finished).(stream := c.stream.(state := Idle))
  {
    hide Receive, OnFrame, Number;
    SmallNumber(c.lastOpened);
    var f := Frame(3, 0, c.lastOpened, code);
    ReceiveOne(cfg, c, [0, 0, 4, 3, 0, 0, 0, 0, c.lastOpened], f, app);
    Reset(cfg, c, f, app);
  }

  /** HEADERS with a whole header block on stream 1, and its end: 1 and 4 are the flags. */
  lemma HeadersOctets(cfg: Config, c: Conn, block: seq<byte>, app: Oracle)
    requires Takes(cfg, c) && c.reading && c.state != Closing
    requires c.stream.state == Idle && c.lastOpened == 0 && !c.flags.waitingTrailers
    requires 0 < |block| <= 100 && |block| <= cfg.streamBuf
    ensures c.log + [Opened(1), Fragment(block), GotEndStream] + [GotEndHeaders, Handled(1, block)] <=
            Receive(cfg, c, [0, 0, |block|, 1, 5, 0, 0, 0, 1] + block, app).conn.log
  {
    hide Receive, OnFrame, Number;
    SmallNumber(1);
    var f := Frame(1, 5, 1, block);
    ReceiveOne(cfg, c, [0, 0, |block|, 1, 5, 0, 0, 0, 1], f, app);
    WrapsNothing(f, block);
    hide Http2Limits.WrapFragment;
    Http2Requests.First(cfg, c, 1, 5, [], [], block, app);
    var log := c.log + [Opened(1), Fragment(block), GotEndStream];
    var g := Http2Requests.Gathered(c, 1, block, false, log + [GotEndHeaders]);
    assert g.stream.buf[..g.stream.buflen] == block;
    assert log + [GotEndHeaders, Handled(1, block)] == (log + [GotEndHeaders]) + [Handled(1, block)];
    Http2Requests.HandsOver(cfg, g, app);
  }

  lemma WrapsNothing(f: Frame, block: seq<byte>)
    requires f == Frame(1, 5, 1, block)
    ensures f == Http2Limits.WrapFragment(1, 5, [], [], block)
  {
    assert [] + [] + block + [] == block;
  }
}
