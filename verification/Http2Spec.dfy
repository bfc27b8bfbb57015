/**
 * The connection of src/http2.c as a value, and what each frame, completed write and timer does
 * to it. Every connection carries the log of what it did; the claims are about that log.
 */
module Http2Spec {
  import opened Bits
  import opened Frames

  const MAX_WINDOW: int := 0x7fff_ffff

  const PROTOCOL_ERROR: nat := 0x1
  const INTERNAL_ERROR: nat := 0x2
  const FLOW_CONTROL_ERROR: nat := 0x3
  const SETTINGS_TIMEOUT: nat := 0x4
  const STREAM_CLOSED_ERROR: nat := 0x5
  const FRAME_SIZE_ERROR: nat := 0x6
  const REFUSED_STREAM: nat := 0x7

  /** Sizes fixed at compile time: stream buffer, write buffer, largest frame, read buffer. */
  datatype Config = Config(streamBuf: nat, writeSize: nat, maxFrame: nat, readSize: nat)

  /** Idle also stands for closed, as the two have the same value in the source. */
  datatype StreamState = Idle | Open | HalfClosedRemote

  datatype Stream = Stream(id: nat, state: StreamState, window: int, buf: seq<byte>, buflen: nat, bufpos: nat)

  datatype ConnState = Closed | WaitingPreface | WaitingSettings | Ready | Closing

  datatype Flags = Flags(
    waitingAck: bool, waitingEndHeaders: bool, waitingEndStream: bool,
    goawayReceived: bool, goawaySent: bool, waitingTrailers: bool)

  /**
   * What a connection does, as seen by its peer and by the request handlers. Finished, TrailersBegun,
   * Fragment, GotEndHeaders, GotEndStream and StreamCredit are about the stream opened last.
   */
  datatype Action =
    | Opened(id: nat)
    | Finished
    | TrailersBegun
    | Fragment(bytes: seq<byte>)
    | GotEndHeaders
    | GotEndStream
    | Handled(id: nat, block: seq<byte>)
    | SentHeaders(id: nat, last: bool)
    | SentData(id: nat, data: seq<byte>, last: bool)
    | InitialWindow(value: nat)
    | ConnCredit(n: nat)
    | StreamCredit(n: nat)
    | Replied
    | SentReset(id: nat, error: nat)
    | ConnError(error: nat)
    | ClosedNow
    | Graceful

  datatype Conn = Conn(
    state: ConnState, flags: Flags, initialWindow: nat, window: int, stream: Stream, lastOpened: nat,
    reading: bool, log: seq<Action>)

  /** What comes of a request: its block cannot be used, or a response whose headers are sent or not. */
  datatype Outcome = Unusable(error: nat) | Respond(content: seq<byte>, headersSent: bool)

  /** Header decoding and the resource handlers, free to depend on all that happened so far. */
  type Oracle = seq<Action> -> Outcome

  datatype Step = Step(conn: Conn, rc: int)

  function Take(s: seq<byte>, n: nat): (r: seq<byte>) {
    if |s| <= n then s else s[..n]
  }

  /** Octets from a position on; those beyond the end of the buffer, which are not known, stand as 0. */
  function Slice(s: seq<byte>, at: nat, n: nat): (r: seq<byte>)
    ensures |r| == n && forall i :: 0 <= i < n ==> r[i] == if at + i < |s| then s[at + i] else 0
  {
    seq(n, i requires 0 <= i < n => if at + i < |s| then s[at + i] else 0)
  }

  function Log(c: Conn, a: Action): (r: Conn) {
    c.(log := c.log + [a])
  }

  /** http2_new_client. */
  function NewClient(cfg: Config): (c: Conn) {
    Conn(WaitingPreface, Flags(false, false, false, false, false, false), 65535, 65535,
         Stream(0, Idle, 0, seq(cfg.streamBuf, _ => 0), 0, 0), 0, true, [])
  }

  function Cleared(f: Flags): (r: Flags) {
    Flags(false, false, false, false, f.goawaySent, false)
  }

  /** http2_error. */
  function Fail(c: Conn, error: nat): (r: Conn) {
    Log(c, ConnError(error)).(state := Closing, flags := Cleared(c.flags), reading := false)
  }

  /** The stream becomes closed. */
  function Finish(c: Conn): (r: Conn) {
    Log(c, Finished).(stream := c.stream.(state := Idle))
  }

  /** http2_stream_error. */
  function ResetStream(c: Conn, id: nat, error: nat): (r: Conn) {
    var c' := Log(c, SentReset(id, error));
    if id == c.stream.id then Finish(c') else c'
  }

  /** http2_close_immediate. */
  function CloseNow(c: Conn): (r: Conn) {
    Log(Finish(c), ClosedNow).(state := Closed, reading := false)
  }

  /** http2_close_gracefully. */
  function CloseGracefully(c: Conn): (r: Conn) {
    if c.state == Closed || c.state == Closing then c
    else Log(c, Graceful).(state := Closing, flags := Cleared(c.flags))
  }

  /** http2_continue_send: as much as both windows and the write buffer allow. */
  function ContinueSend(cfg: Config, c: Conn): (r: Conn) {
    var s := c.stream;
    var length := Min(s.buflen, Min(c.window, s.window));
    if length <= 0 then c
    else
      var n := Min(length, cfg.writeSize);
      Log(c, SentData(s.id, Slice(s.buf, s.bufpos, n), s.buflen - n <= 0)).(
        stream := s.(bufpos := s.bufpos + n, buflen := s.buflen - n, window := s.window - n),
        window := c.window - n)
  }

  /** update_settings for one identifier and value; false stops the processing of the frame. */
  function UpdateSetting(c: Conn, id: nat, value: nat): (r: (Conn, bool)) {
    if id == 2 && value > 1 then (Fail(c, PROTOCOL_ERROR), false)
    else if id == 4 then
      var w := c.stream.window + value - c.initialWindow;
      if value > MAX_WINDOW || (c.stream.state != Idle && w > MAX_WINDOW) then (Fail(c, FLOW_CONTROL_ERROR), false)
      else
        var s := if c.stream.state == Idle then c.stream else c.stream.(window := w);
        (Log(c, InitialWindow(value)).(initialWindow := value, stream := s), true)
    else if id == 5 && (value < 0x4000 || value > 0xff_ffff) then (Fail(c, PROTOCOL_ERROR), false)
    else (c, true)
  }

  /** The settings of a frame in order; the result counts those with a known identifier, 0 on an error. */
  function UpdateSettings(c: Conn, data: seq<byte>, total: nat): (r: (Conn, nat))
    decreases |data|
  {
    if |data| < 6 then (c, total)
    else
      var id := Join(data[0], data[1]);
      var step := UpdateSetting(c, id, U32(data[2..6]));
      if step.1 then UpdateSettings(step.0, data[6..], if 1 <= id <= 6 then total + 1 else total)
      else (step.0, 0)
  }

  /** An acknowledgement also stops the settings timer. */
  function OnSettings(c: Conn, f: Frame): (r: Step) {
    if f.streamId != 0 then Step(Fail(c, PROTOCOL_ERROR), -1)
    else if !HasFlag(f, ACK) then
      if |f.payload| % 6 != 0 then Step(Fail(c, FRAME_SIZE_ERROR), -1)
      else
        var u := UpdateSettings(c, f.payload, 0);
        Step(if u.1 > 0 then Log(u.0, Replied) else u.0, 0)
    else if |f.payload| != 0 then Step(Fail(c, FRAME_SIZE_ERROR), -1)
    else Step(c.(flags := c.flags.(waitingAck := false)), 0)
  }

  function OnGoaway(c: Conn, f: Frame): (r: Step) {
    if f.streamId != 0 then Step(Fail(c, PROTOCOL_ERROR), -1)
    else if |f.payload| < 8 then Step(Fail(c, FRAME_SIZE_ERROR), -1)
    else if c.flags.goawaySent then Step(CloseNow(c), 0)
    else if c.flags.goawayReceived then Step(c, 0)
    else
      var c1 := if c.stream.id > U31(f.payload) then Finish(c) else c;
      Step(Log(c1, Replied).(flags := c.flags.(goawayReceived := true), state := Closing), 0)
  }

  function OnPing(c: Conn, f: Frame): (r: Step) {
    if f.streamId != 0 then Step(Fail(c, PROTOCOL_ERROR), -1)
    else if |f.payload| != 8 then Step(Fail(c, FRAME_SIZE_ERROR), -1)
    else if HasFlag(f, ACK) then Step(c, 0)
    else Step(Log(c, Replied), 0)
  }

  /** The comparison with the stream window is made in unsigned 32-bit arithmetic. */
  function OnWindowUpdate(cfg: Config, c: Conn, f: Frame): (r: Step) {
    if |f.payload| != 4 then Step(Fail(c, FRAME_SIZE_ERROR), -1)
    else if f.streamId > c.lastOpened then Step(Fail(c, PROTOCOL_ERROR), -1)
    else if f.streamId != 0 && f.streamId == c.stream.id && c.stream.state == Idle
    then Step(Fail(c, STREAM_CLOSED_ERROR), -1)
    else
      var n := U31(f.payload);
      if n == 0 then Step(Fail(c, PROTOCOL_ERROR), -1)
      else if f.streamId == 0 then
        if (c.window + n) % 0x1_0000_0000 > MAX_WINDOW then Step(Fail(c, FLOW_CONTROL_ERROR), -1)
        else Step(Log(c, ConnCredit(n)).(window := c.window + n), 0)
      else if (c.stream.window + n) % 0x1_0000_0000 > MAX_WINDOW
      then Step(ResetStream(c, c.stream.id, FLOW_CONTROL_ERROR), -1)
      else
        var credited := Log(c, StreamCredit(n)).(stream := c.stream.(window := c.stream.window + n));
        Step(ContinueSend(cfg, credited), 0)
  }

  /** handle_end_stream: the request is complete. */
  function EndStream(cfg: Config, c: Conn, app: Oracle): (r: Step)
    requires c.stream.buflen <= |c.stream.buf| == cfg.streamBuf
  {
    var s := c.stream;
    var c1 := Log(c, Handled(s.id, s.buf[..s.buflen]));
    match app(c1.log)
    case Unusable(error) => Step(Fail(c1, error), -1)
    case Respond(content, headersSent) =>
      var body := Take(content, cfg.streamBuf);
      var c2 := c1.(stream := s.(buf := body + s.buf[|body|..], buflen := |body|));
      if headersSent then Step(Log(c2, SentHeaders(s.id, body == [])), 0) else Step(Fail(c2, INTERNAL_ERROR), -1)
  }

  /** Record the end-of-stream and end-of-headers flags of a frame that belongs to the stream. */
  function NoteFlags(c: Conn, endStream: bool, endHeaders: bool): (r: Conn) {
    var c1 :=
      if endStream
      then Log(c, GotEndStream).(
        flags := c.flags.(waitingEndStream := false), stream := c.stream.(state := HalfClosedRemote))
      else c;
    if endHeaders
    then Log(c1, GotEndHeaders).(flags := c1.flags.(waitingEndHeaders := false))
    else c1
  }

  function Proceed(cfg: Config, c: Conn, app: Oracle): (r: Step)
    requires c.stream.buflen <= |c.stream.buf| == cfg.streamBuf
  {
    if !c.flags.waitingEndHeaders && !c.flags.waitingEndStream then EndStream(cfg, c, app) else Step(c, 0)
  }

  /** Append a fragment to the stream buffer, cut to what is left of it, unless trailers are awaited. */
  function Collect(cfg: Config, c: Conn, data: seq<byte>): (r: Conn)
    requires c.stream.buflen <= |c.stream.buf| == cfg.streamBuf
    ensures r.stream.buflen <= |r.stream.buf| == cfg.streamBuf
  {
    if c.flags.waitingTrailers then Log(c, Fragment(data))
    else
      var s := c.stream;
      var part := Take(data, cfg.streamBuf - s.buflen);
      Log(c, Fragment(data)).(
        stream := s.(buf := s.buf[..s.buflen] + part + s.buf[s.buflen + |part|..], buflen := s.buflen + |part|))
  }

  /** handle_header_block. */
  function HeaderBlock(cfg: Config, c: Conn, f: Frame, data: seq<byte>, app: Oracle): (r: Step)
    requires c.stream.buflen <= |c.stream.buf| == cfg.streamBuf
  {
    if data == [] || c.stream.buflen >= cfg.streamBuf then Step(Fail(c, FLOW_CONTROL_ERROR), -1)
    else Proceed(cfg, NoteFlags(Collect(cfg, c, data), HasFlag(f, END_STREAM), HasFlag(f, END_HEADERS)), app)
  }

  predicate BadPadding(f: Frame) {
    HasFlag(f, PADDED) && (f.payload == [] || f.payload[0] >= |f.payload|)
  }

  /** The header block fragment of a HEADERS frame, section 6.2 of RFC 7540; empty when nothing is left. */
  function HeadersFragment(f: Frame): (r: seq<byte>)
    requires !BadPadding(f)
  {
    var pad := if HasFlag(f, PADDED) then f.payload[0] else 0;
    var start := (if HasFlag(f, PADDED) then 1 else 0) + (if HasFlag(f, PRIORITY) then 5 else 0);
    if start + pad > |f.payload| then [] else f.payload[start..|f.payload| - pad]
  }

  /** A HEADERS frame with a new identifier opens a stream. */
  function OpenStream(c: Conn, id: nat): (r: Conn) {
    Log(c, Opened(id)).(
      stream := c.stream.(id := id, state := Open, window := c.initialWindow, buflen := 0, bufpos := 0),
      lastOpened := id,
      flags := c.flags.(waitingEndHeaders := true, waitingEndStream := true))
  }

  function OnHeaders(cfg: Config, c: Conn, f: Frame, app: Oracle): (r: Step)
    requires c.stream.buflen <= |c.stream.buf| == cfg.streamBuf
  {
    if c.state == Closing then Step(c, 0)
    else if f.streamId == 0 || f.streamId < c.lastOpened || f.streamId % 2 == 0 then Step(Fail(c, PROTOCOL_ERROR), -1)
    else if f.streamId > c.lastOpened && c.stream.state != Idle then Step(Fail(c, REFUSED_STREAM), -1)
    else if f.streamId == c.lastOpened && c.stream.state != Open then Step(Fail(c, STREAM_CLOSED_ERROR), -1)
    else if f.streamId == c.lastOpened && !HasFlag(f, END_STREAM)
    then Step(ResetStream(c, f.streamId, PROTOCOL_ERROR), -1)
    else
      var c1 :=
        if f.streamId == c.lastOpened
        then Log(c, TrailersBegun).(flags := c.flags.(waitingTrailers := true, waitingEndHeaders := true))
        else OpenStream(c, f.streamId);
      if BadPadding(f) then Step(Fail(c1, PROTOCOL_ERROR), -1)
      else HeaderBlock(cfg, c1, f, HeadersFragment(f), app)
  }

  function OnContinuation(cfg: Config, c: Conn, f: Frame, app: Oracle): (r: Step)
    requires c.stream.buflen <= |c.stream.buf| == cfg.streamBuf
  {
    if f.streamId == 0 || c.stream.state == Idle || !c.flags.waitingEndHeaders then Step(Fail(c, PROTOCOL_ERROR), -1)
    else HeaderBlock(cfg, c, f, f.payload, app)
  }

  /** The data itself is ignored, and so is the outcome of the request. */
  function OnData(cfg: Config, c: Conn, f: Frame, app: Oracle): (r: Step)
    requires c.stream.buflen <= |c.stream.buf| == cfg.streamBuf
  {
    if f.streamId == 0 || f.streamId > c.lastOpened then Step(Fail(c, PROTOCOL_ERROR), -1)
    else if f.streamId < c.lastOpened || c.stream.state != Open
    then Step(ResetStream(c, f.streamId, STREAM_CLOSED_ERROR), -1)
    else if BadPadding(f) then Step(Fail(c, PROTOCOL_ERROR), -1)
    else Step(Proceed(cfg, NoteFlags(c, HasFlag(f, END_STREAM), false), app).conn, 0)
  }

  function OnReset(c: Conn, f: Frame): (r: Step) {
    if f.streamId == 0 then Step(Fail(c, PROTOCOL_ERROR), -1)
    else if |f.payload| != 4 then Step(Fail(c, FRAME_SIZE_ERROR), -1)
    else if f.streamId != c.lastOpened then Step(Fail(c, PROTOCOL_ERROR), -1)
    else Step(Finish(c), 0)
  }

  /** One frame of the loop in receiving, once it is complete. */
  function OnFrame(cfg: Config, c: Conn, f: Frame, app: Oracle): (r: Step)
    requires c.stream.buflen <= |c.stream.buf| == cfg.streamBuf
  {
    if c.flags.waitingEndHeaders && f.kind != CONTINUATION then Step(Fail(c, PROTOCOL_ERROR), -1)
    else if f.kind == GOAWAY then OnGoaway(c, f)
    else if f.kind == SETTINGS then OnSettings(c, f)
    else if f.kind == PING then OnPing(c, f)
    else if f.kind == HEADERS then OnHeaders(cfg, c, f, app)
    else if f.kind == CONTINUATION then OnContinuation(cfg, c, f, app)
    else if f.kind == WINDOW_UPDATE then OnWindowUpdate(cfg, c, f)
    else if f.kind == RST_STREAM then OnReset(c, f)
    else if f.kind == DATA then OnData(cfg, c, f, app)
    else if f.kind == PUSH_PROMISE then Step(Fail(c, PROTOCOL_ERROR), 0)
    else Step(c, 0)
  }

  /** on_stream_send_complete. */
  function OnStreamSent(cfg: Config, c: Conn, ok: bool): (r: Conn) {
    if !ok then CloseNow(c)
    else if c.stream.buflen == 0 then Finish(c)
    else ContinueSend(cfg, c)
  }

  /** The first frame, waiting_for_settings: the connection is ready even when a setting was refused. */
  function OnFirstFrame(c: Conn, f: Frame): (r: Step) {
    if f.kind != SETTINGS || f.flags != 0 then Step(Fail(c, PROTOCOL_ERROR), -1)
    else
      var r := OnSettings(c, f);
      if r.rc < 0 then r else Step(r.conn.(state := Ready), 0)
  }

  datatype Event =
    | Preface(valid: bool)
    | FirstFrame(frame: Frame)
    | Arrived(frame: Frame)
    | SettingsSent(ok: bool)
    | TimerFired
    | WriteDone(ok: bool)
    | GoawaySent
    | StreamSent(ok: bool)
    | GracefulClose
    | PeerGone

  /** Frames, completed writes, the settings timer and the ways a connection ends. */
  function OnEvent(cfg: Config, c: Conn, e: Event, app: Oracle): (r: Conn)
    requires c.stream.buflen <= |c.stream.buf| == cfg.streamBuf
  {
    match e
    case Preface(valid) => if valid then c.(state := WaitingSettings) else CloseNow(c)
    case FirstFrame(f) => OnFirstFrame(c, f).conn
    case Arrived(f) => OnFrame(cfg, c, f, app).conn
    case SettingsSent(ok) => if ok then c.(flags := c.flags.(waitingAck := true)) else CloseNow(c)
    case TimerFired => Fail(c, SETTINGS_TIMEOUT)
    case WriteDone(ok) => if ok then c else CloseNow(c)
    case GoawaySent => CloseNow(c)
    case StreamSent(ok) => OnStreamSent(cfg, c, ok)
    case GracefulClose => CloseGracefully(c)
    case PeerGone => CloseNow(c)
  }
}
