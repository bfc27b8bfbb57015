/** The connection context of src/http2.c, updated in place. */
module Http2Context {
  import opened Bits
  import opened Frames
  import opened Http2Spec
  import opened Http2Invariant
  import opened ReceivePath
  import RingBuffer

  class Context {
    const cfg: Config
    const buf: array<byte>
    var state: ConnState
    var flags: Flags
    var initialWindow: nat
    var window: int
    var streamId: nat
    var streamState: StreamState
    var streamWindow: int
    var buflen: nat
    var bufpos: nat
    var lastOpened: nat
    var reading: bool
    var log: seq<Action>

    ghost predicate Valid()
      reads this
    {
      buflen <= buf.Length == cfg.streamBuf
    }

    ghost function State(): (c: Conn)
      reads this, buf
    {
      Conn(state, flags, initialWindow, window,
           Stream(streamId, streamState, streamWindow, buf[..], buflen, bufpos), lastOpened, reading, log)
    }

    /** http2_new_client. */
    constructor (config: Config)
      ensures Valid() && cfg == config && fresh(buf) && State() == NewClient(config)
    {
      cfg := config;
      buf := new byte[config.streamBuf](_ => 0);
      state, flags, log := WaitingPreface, Flags(false, false, false, false, false, false), [];
      initialWindow, window, lastOpened, reading := 65535, 65535, 0, true;
      streamId, streamState, streamWindow, buflen, bufpos := 0, Idle, 0, 0, 0;
    }

    /** What the peer or the request handlers get to see. */
    method Act(a: Action)
      requires Valid()
      modifies this`log
      ensures Valid() && State() == Log(old(State()), a)
    {
      log := log + [a];
    }

    /** http2_error. */
    method Error(error: nat)
      requires Valid()
      modifies this`state, this`flags, this`reading, this`log
      ensures Valid() && State() == Fail(old(State()), error)
    {
      state := Closing;
      flags := Cleared(flags);
      reading := false;
      Act(ConnError(error));
    }

    method CloseStream()
      requires Valid()
      modifies this`streamState, this`log
      ensures Valid() && State() == Finish(old(State()))
    {
      streamState := Idle;
      Act(Finished);
    }

    /** http2_stream_error. */
    method StreamError(id: nat, error: nat)
      requires Valid()
      modifies this`streamState, this`log
      ensures Valid() && State() == ResetStream(old(State()), id, error)
    {
      Act(SentReset(id, error));
      if id == streamId {
        CloseStream();
      }
    }

    /** http2_close_immediate. */
    method CloseImmediate()
      requires Valid()
      modifies this`state, this`streamState, this`reading, this`log
      ensures Valid() && State() == CloseNow(old(State()))
    {
      state := Closed;
      CloseStream();
      reading := false;
      Act(ClosedNow);
    }

    /** http2_close_gracefully. */
    method CloseAfterGoaway() returns (rc: int)
      requires Valid()
      modifies this`state, this`flags, this`log
      ensures Valid() && State() == CloseGracefully(old(State()))
      ensures rc == -1 <==> old(state) in {Closed, Closing}
    {
      if state == Closed || state == Closing {
        return -1;
      }
      state := Closing;
      flags := Cleared(flags);
      Act(Graceful);
      return 0;
    }

    /** http2_continue_send. */
    method SendMore()
      requires Valid()
      modifies this`window, this`streamWindow, this`buflen, this`bufpos, this`log
      ensures Valid() && State() == ContinueSend(cfg, old(State()))
    {
      var len := Min(buflen, Min(window, streamWindow));
      if len <= 0 {
        return;
      }
      len := Min(len, cfg.writeSize);
      Act(SentData(streamId, Slice(buf[..], bufpos, len), buflen - len <= 0));
      bufpos := bufpos + len;
      buflen := buflen - len;
      streamWindow := streamWindow - len;
      window := window - len;
    }

    /** on_stream_send_complete. */
    method StreamSendComplete(ok: bool)
      requires Valid()
      modifies this
      ensures Valid() && State() == OnStreamSent(cfg, old(State()), ok)
    {
      if !ok {
        CloseImmediate();
      } else if buflen == 0 {
        CloseStream();
      } else {
        SendMore();
      }
    }

    /** One setting of a SETTINGS frame. */
    method Update(id: nat, value: nat) returns (ok: bool)
      requires Valid()
      modifies this
      ensures Valid() && buflen == old(buflen) && (State(), ok) == UpdateSetting(old(State()), id, value)
    {
      if id == 2 && value > 1 {
        Error(PROTOCOL_ERROR);
        return false;
      } else if id == 4 {
        if value > MAX_WINDOW {
          Error(FLOW_CONTROL_ERROR);
          return false;
        }
        if streamState != Idle {
          var diff := value - initialWindow;
          if streamWindow + diff > MAX_WINDOW {
            Error(FLOW_CONTROL_ERROR);
            return false;
          }
          streamWindow := streamWindow + diff;
        }
        initialWindow := value;
        Act(InitialWindow(value));
      } else if id == 5 && (value < 0x4000 || value > 0xff_ffff) {
        Error(PROTOCOL_ERROR);
        return false;
      }
      return true;
    }

    /** update_settings. */
    method UpdateAll(data: seq<byte>) returns (total: nat)
      requires Valid() && |data| % 6 == 0
      modifies this
      ensures Valid() && (State(), total) == UpdateSettings(old(State()), data, 0)
    {
      hide UpdateSetting, U32, Join;
      total := 0;
      var i := 0;
      while i < |data|
        invariant i <= |data| && (|data| - i) % 6 == 0 && Valid()
        invariant UpdateSettings(old(State()), data, 0) == UpdateSettings(State(), data[i..], total)
      {
        var id := Join(data[i], data[i + 1]);
        assert data[i..][2..6] == data[i + 2..i + 6] && data[i..][6..] == data[i + 6..];
        var ok := Update(id, U32(data[i + 2..i + 6]));
        if !ok {
          return 0;
        }
        if 1 <= id <= 6 {
          total := total + 1;
        }
        i := i + 6;
      }
    }

    method HandleSettings(f: Frame) returns (rc: int)
      requires Valid()
      modifies this
      ensures Valid() && Step(State(), rc) == OnSettings(old(State()), f)
    {
      hide UpdateSettings;
      if f.streamId != 0 {
        Error(PROTOCOL_ERROR);
        return -1;
      }
      if !HasFlag(f, ACK) {
        if |f.payload| % 6 != 0 {
          Error(FRAME_SIZE_ERROR);
          return -1;
        }
        var total := UpdateAll(f.payload);
        if total > 0 {
          Act(Replied);
        }
      } else {
        if |f.payload| != 0 {
          Error(FRAME_SIZE_ERROR);
          return -1;
        }
        flags := flags.(waitingAck := false);
      }
      return 0;
    }

    method HandleGoaway(f: Frame) returns (rc: int)
      requires Valid()
      modifies this
      ensures Valid() && Step(State(), rc) == OnGoaway(old(State()), f)
    {
      if f.streamId != 0 {
        Error(PROTOCOL_ERROR);
        return -1;
      }
      if |f.payload| < 8 {
        Error(FRAME_SIZE_ERROR);
        return -1;
      }
      if flags.goawaySent {
        CloseImmediate();
      } else if !flags.goawayReceived {
        flags := flags.(goawayReceived := true);
        if streamId > U31(f.payload) {
          CloseStream();
        }
        state := Closing;
        Act(Replied);
      }
      return 0;
    }

    method HandlePing(f: Frame) returns (rc: int)
      requires Valid()
      modifies this
      ensures Valid() && Step(State(), rc) == OnPing(old(State()), f)
    {
      if f.streamId != 0 {
        Error(PROTOCOL_ERROR);
        return -1;
      }
      if |f.payload| != 8 {
        Error(FRAME_SIZE_ERROR);
        return -1;
      }
      if !HasFlag(f, ACK) {
        Act(Replied);
      }
      return 0;
    }

    method HandleWindowUpdate(f: Frame) returns (rc: int)
      requires Valid()
      modifies this
      ensures Valid() && Step(State(), rc) == OnWindowUpdate(cfg, old(State()), f)
    {
      hide U31, ContinueSend;
      if |f.payload| != 4 {
        Error(FRAME_SIZE_ERROR);
        return -1;
      }
      if f.streamId > lastOpened {
        Error(PROTOCOL_ERROR);
        return -1;
      }
      if f.streamId != 0 && f.streamId == streamId && streamState == Idle {
        Error(STREAM_CLOSED_ERROR);
        return -1;
      }
      var n := U31(f.payload);
      if n == 0 {
        Error(PROTOCOL_ERROR);
        return -1;
      }
      if f.streamId == 0 {
        if (window + n) % 0x1_0000_0000 > MAX_WINDOW {
          Error(FLOW_CONTROL_ERROR);
          return -1;
        }
        window := window + n;
        Act(ConnCredit(n));
      } else {
        if (streamWindow + n) % 0x1_0000_0000 > MAX_WINDOW {
          StreamError(streamId, FLOW_CONTROL_ERROR);
          return -1;
        }
        streamWindow := streamWindow + n;
        Act(StreamCredit(n));
        SendMore();
      }
      return 0;
    }

    method CopyIn(at: nat, data: seq<byte>)
      requires Valid() && at + |data| <= buf.Length
      modifies buf
      ensures buf[..] == old(buf[..])[..at] + data + old(buf[..])[at + |data|..]
    {
      forall i | 0 <= i < |data| {
        buf[at + i] := data[i];
      }
    }

    /** handle_end_stream. */
    method HandleEndStream(app: Oracle) returns (rc: int)
      requires Valid()
      modifies this, buf
      ensures Valid() && Step(State(), rc) == EndStream(cfg, old(State()), app)
    {
      Act(Handled(streamId, buf[..buflen]));
      match app(log) {
        case Unusable(error) =>
          Error(error);
          return -1;
        case Respond(content, headersSent) =>
          var body := Take(content, cfg.streamBuf);
          CopyIn(0, body);
          buflen := |body|;
          if !headersSent {
            Error(INTERNAL_ERROR);
            return -1;
          }
          Act(SentHeaders(streamId, buflen == 0));
          return 0;
      }
    }

    method EndOfStream()
      requires Valid()
      modifies this`flags, this`streamState, this`log
      ensures Valid() && State() == NoteFlags(old(State()), true, false)
    {
      flags := flags.(waitingEndStream := false);
      streamState := HalfClosedRemote;
      Act(GotEndStream);
    }

    method EndOfHeaders()
      requires Valid()
      modifies this`flags, this`log
      ensures Valid() && State() == NoteFlags(old(State()), false, true)
    {
      flags := flags.(waitingEndHeaders := false);
      Act(GotEndHeaders);
    }

    /** The fragment goes to the stream buffer, unless it belongs to trailers. */
    method Store(data: seq<byte>)
      requires Valid()
      modifies this`buflen, this`log, buf
      ensures Valid() && State() == Collect(cfg, old(State()), data)
    {
      var copylen := Min(|data|, cfg.streamBuf - buflen);
      if !flags.waitingTrailers {
        CopyIn(buflen, data[..copylen]);
        buflen := buflen + copylen;
      }
      Act(Fragment(data));
    }

    /** handle_header_block. */
    method HandleHeaderBlock(f: Frame, data: seq<byte>, app: Oracle) returns (rc: int)
      requires Valid()
      modifies this, buf
      ensures Valid() && Step(State(), rc) == HeaderBlock(cfg, old(State()), f, data, app)
    {
      hide EndStream, HasFlag, Collect;
      if Min(|data|, cfg.streamBuf - buflen) <= 0 {
        Error(FLOW_CONTROL_ERROR);
        return -1;
      }
      Store(data);
      if HasFlag(f, END_STREAM) {
        EndOfStream();
      }
      if HasFlag(f, END_HEADERS) {
        EndOfHeaders();
      }
      if !flags.waitingEndHeaders && !flags.waitingEndStream {
        rc := HandleEndStream(app);
        return rc;
      }
      return 0;
    }

    method BeginStream(id: nat)
      requires Valid()
      modifies this
      ensures Valid() && State() == OpenStream(old(State()), id)
    {
      streamId, streamState, streamWindow, lastOpened := id, Open, initialWindow, id;
      flags := flags.(waitingEndHeaders := true, waitingEndStream := true);
      buflen, bufpos := 0, 0;
      Act(Opened(id));
    }

    method AwaitTrailers()
      requires Valid()
      modifies this`flags, this`log
      ensures Valid() && State() == BeginTrailers(old(State()))
    {
      flags := flags.(waitingTrailers := true, waitingEndHeaders := true);
      Act(TrailersBegun);
    }

    /** The part of a HEADERS payload between pad length, priority and padding. */
    method Strip(f: Frame) returns (ok: bool, data: seq<byte>)
      ensures ok <==> !BadPadding(f)
      ensures ok ==> data == HeadersFragment(f)
    {
      var size, start := |f.payload|, 0;
      if HasFlag(f, PADDED) {
        if |f.payload| == 0 || f.payload[0] >= |f.payload| {
          return false, [];
        }
        size := size - 1 - f.payload[0];
        start := start + 1;
      }
      if HasFlag(f, PRIORITY) {
        size := size - 5;
        start := start + 5;
      }
      return true, if size <= 0 then [] else f.payload[start..start + size];
    }

    method HandleHeaders(f: Frame, app: Oracle) returns (rc: int)
      requires Valid()
      modifies this, buf
      ensures Valid() && Step(State(), rc) == OnHeaders(cfg, old(State()), f, app)
    {
      hide HeaderBlock, HasFlag, BadPadding, HeadersFragment;
      if state == Closing {
        return 0;
      }
      if f.streamId == 0 || f.streamId < lastOpened || f.streamId % 2 == 0 {
        Error(PROTOCOL_ERROR);
        return -1;
      }
      if f.streamId > lastOpened && streamState != Idle {
        Error(REFUSED_STREAM);
        return -1;
      }
      if f.streamId == lastOpened && streamState != Open {
        Error(STREAM_CLOSED_ERROR);
        return -1;
      }
      if f.streamId == lastOpened {
        if !HasFlag(f, END_STREAM) {
          StreamError(f.streamId, PROTOCOL_ERROR);
          return -1;
        }
        AwaitTrailers();
      } else {
        BeginStream(f.streamId);
      }
      var ok, data := Strip(f);
      if !ok {
        Error(PROTOCOL_ERROR);
        return -1;
      }
      rc := HandleHeaderBlock(f, data, app);
    }

    method HandleData(f: Frame, app: Oracle) returns (rc: int)
      requires Valid()
      modifies this, buf
      ensures Valid() && Step(State(), rc) == OnData(cfg, old(State()), f, app)
    {
      hide HasFlag, EndStream;
      if f.streamId == 0 || f.streamId > lastOpened {
        Error(PROTOCOL_ERROR);
        return -1;
      }
      if f.streamId < lastOpened || streamState != Open {
        StreamError(f.streamId, STREAM_CLOSED_ERROR);
        return -1;
      }
      if HasFlag(f, PADDED) && (|f.payload| == 0 || f.payload[0] >= |f.payload|) {
        Error(PROTOCOL_ERROR);
        return -1;
      }
      if HasFlag(f, END_STREAM) {
        EndOfStream();
      }
      if !flags.waitingEndHeaders && !flags.waitingEndStream {
        var _ := HandleEndStream(app);
      }
      return 0;
    }

    method HandleContinuation(f: Frame, app: Oracle) returns (rc: int)
      requires Valid()
      modifies this, buf
      ensures Valid() && Step(State(), rc) == OnContinuation(cfg, old(State()), f, app)
    {
      hide HeaderBlock;
      if f.streamId == 0 || streamState == Idle || !flags.waitingEndHeaders {
        Error(PROTOCOL_ERROR);
        return -1;
      }
      rc := HandleHeaderBlock(f, f.payload, app);
    }

    method HandleRstStream(f: Frame) returns (rc: int)
      requires Valid()
      modifies this
      ensures Valid() && Step(State(), rc) == OnReset(old(State()), f)
    {
      if f.streamId == 0 {
        Error(PROTOCOL_ERROR);
        return -1;
      }
      if |f.payload| != 4 {
        Error(FRAME_SIZE_ERROR);
        return -1;
      }
      if f.streamId != lastOpened {
        Error(PROTOCOL_ERROR);
        return -1;
      }
      CloseStream();
      return 0;
    }

    /** The switch of receiving; nothing but CONTINUATION may interrupt a header block. */
    method HandleFrame(f: Frame, app: Oracle) returns (rc: int)
      requires Valid() && (flags.waitingEndHeaders ==> f.kind == CONTINUATION)
      modifies this, buf
      ensures Valid() && Step(State(), rc) == OnFrame(cfg, old(State()), f, app)
    {
      hide OnGoaway, OnSettings, OnPing, OnHeaders, OnContinuation, OnWindowUpdate, OnReset, OnData;
      rc := 0;
      if f.kind == GOAWAY {
        rc := HandleGoaway(f);
      } else if f.kind == SETTINGS {
        rc := HandleSettings(f);
      } else if f.kind == PING {
        rc := HandlePing(f);
      } else if f.kind == HEADERS {
        rc := HandleHeaders(f, app);
      } else if f.kind == CONTINUATION {
        rc := HandleContinuation(f, app);
      } else if f.kind == WINDOW_UPDATE {
        rc := HandleWindowUpdate(f);
      } else if f.kind == RST_STREAM {
        rc := HandleRstStream(f);
      } else if f.kind == DATA {
        rc := HandleData(f, app);
      } else if f.kind == PUSH_PROMISE {
        Error(PROTOCOL_ERROR);
      }
    }

    /** receiving; no bytes at all is how the end of the connection is told. */
    method Receiving(bytes: seq<byte>, app: Oracle) returns (bytesRead: nat)
      requires Valid()
      modifies this, buf
      ensures Valid() && bytesRead <= |bytes|
      ensures bytes == [] ==> State() == CloseNow(old(State()))
      ensures bytes != [] ==> Received(State(), bytesRead) == Receive(cfg, old(State()), bytes, app)
    {
      hide OnFrame, ParseHeader, Fail, CloseNow;
      bytesRead := 0;
      if |bytes| == 0 {
        CloseImmediate();
        return;
      }
      assert bytes[0..] == bytes;
      while bytesRead < |bytes|
        invariant Valid() && bytesRead <= |bytes|
        invariant var r := Receive(cfg, State(), bytes[bytesRead..], app);
                  Receive(cfg, old(State()), bytes, app) == Received(r.conn, bytesRead + r.consumed)
        decreases |bytes| - bytesRead
      {
        ghost var rest := bytes[bytesRead..];
        if |bytes| - bytesRead < 9 {
          return;
        }
        var h := ParseHeader(bytes[bytesRead..]);
        if h.length > cfg.maxFrame {
          Error(FRAME_SIZE_ERROR);
          return;
        }
        if h.length > cfg.readSize {
          Error(FLOW_CONTROL_ERROR);
          return;
        }
        if |bytes| - bytesRead < 9 + h.length {
          return;
        }
        bytesRead := bytesRead + 9;
        if flags.waitingEndHeaders && h.kind != CONTINUATION {
          Error(PROTOCOL_ERROR);
          return;
        }
        var payload := bytes[bytesRead..bytesRead + h.length];
        assert payload == rest[9..9 + h.length];
        assert rest[9 + h.length..] == bytes[bytesRead + h.length..];
        var rc := HandleFrame(Frame(h.kind, h.flags, h.streamId, payload), app);
        bytesRead := bytesRead + h.length;
        if rc < 0 {
          return;
        }
      }
    }
  }

  /**
   * event_sock_read and event_sock_handle_read: the bytes received join those that wait in the ring, all of
   * them are shown to the connection, and what it used is removed; event_read_stop empties the ring. A ring that
   * has ended takes no bytes, and its connection is told of the end. If the pending bytes made the connection stop reading,
   * the callback that would be told is gone: event_read_stop has set it to NULL, and the call is made all the same.
   */
  method HandleRead(ctx: Context, ring: RingBuffer.Ring, chunk: seq<byte>, app: Oracle) returns (callsNull: bool)
    requires ctx.Valid() && ctx.reading && ring.Valid() && ctx.buf != ring.mem
    requires |chunk| <= ring.mem.Length - ring.len
    modifies ctx, ctx.buf, ring, ring.mem
    ensures ctx.Valid() && ring.Valid()
    ensures old(ring.open) ==>
              Link(ctx.State(), ring.Contents()) == Deliver(ctx.cfg, old(Link(ctx.State(), ring.Contents())), chunk, app)
    ensures !old(ring.open) ==>
              var l := Deliver(ctx.cfg, old(Link(ctx.State(), ring.Contents())), [], app);
              callsNull == !l.conn.reading && ctx.State() == if callsNull then l.conn else CloseNow(l.conn)
    ensures old(ring.open) ==> !callsNull
  {
    hide Receive, RingBuffer.Window, CloseNow;
    var _ := ring.Push(chunk);
    assert chunk[..|chunk|] == chunk;
    ShowPending(ctx, ring, app);
    callsNull := !ring.open && !ctx.reading;
    if !ring.open && ctx.reading {
      var _ := ctx.Receiving([], app);
    }
  }

  /** event_sock_close, as far as it concerns who reads: the ring ends and the connection is told at once, which stops it. */
  method EndRead(ctx: Context, ring: RingBuffer.Ring, app: Oracle)
    requires ctx.Valid() && ctx.reading && ring.Valid() && ctx.buf != ring.mem
    modifies ctx, ctx.buf, ring, ring.mem
    ensures ctx.Valid() && ring.Valid() && !ring.open
    ensures ctx.State() == CloseNow(old(ctx.State())) && !ctx.reading && ring.Contents() == []
  {
    hide RingBuffer.Window;
    ring.End();
    var _ := ctx.Receiving([], app);
    var _ := ring.MoveToFront();
  }

  /** event_sock_handle_read on the bytes in the ring. */
  method ShowPending(ctx: Context, ring: RingBuffer.Ring, app: Oracle)
    requires ctx.Valid() && ctx.reading && ring.Valid() && ctx.buf != ring.mem
    modifies ctx, ctx.buf, ring, ring.mem
    ensures ctx.Valid() && ring.Valid() && ring.open == old(ring.open)
    ensures Sized(ctx.cfg, old(ctx.State()))
    ensures var r := Receive(ctx.cfg, old(ctx.State()), old(ring.Contents()), app);
            Link(ctx.State(), ring.Contents()) ==
            Link(r.conn, if r.conn.reading then old(ring.Contents())[r.consumed..] else [])
  {
    hide Receive, RingBuffer.Window;
    if ring.len == 0 {
      NothingToReceive(ctx.cfg, ctx.State(), app);
      return;
    }
    var pending := ring.Peek(ring.len);
    assert pending == ring.Contents();
    var used := ctx.Receiving(pending, app);
    if ctx.reading {
      var front := ring.Pop(used);
      assert pending[used..] == ring.Contents();
    } else {
      var _ := ring.MoveToFront();
    }
  }

  lemma NothingToReceive(cfg: Config, c: Conn, app: Oracle)
    requires Sized(cfg, c)
    ensures Receive(cfg, c, [], app) == Received(c, 0)
  {
  }
}
