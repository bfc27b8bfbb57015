/** Whoever reads from a socket (src/event.c), over every run: an ended ring has no reader left. */
module ReadEnd {
  import opened Bits
  import opened Frames
  import opened Http2Spec
  import opened Http2Invariant
  import opened ReceivePath

  /** A connection, its read ring, and whether the read callback was called after it had been set to NULL. */
  datatype Wired = Wired(link: Link, open: bool, callsNull: bool)

  /** Bytes arrive or are shown again; the input ends or fails; anything else happens to the connection. */
  datatype Io = Bytes(chunk: seq<byte>) | Ends | Other(event: Event)

  /** Bytes as in Http2Context.HandleRead, the end as in EndRead; without a read event neither does anything. */
  function OnIo(cfg: Config, w: Wired, io: Io, app: Oracle): (r: Wired)
    requires Sized(cfg, w.link.conn)
  {
    match io
    case Bytes(chunk) =>
      if !w.link.conn.reading then w
      else
        var l := Deliver(cfg, w.link, if w.open then chunk else [], app);
        if w.open then Wired(l, true, w.callsNull)
        else if l.conn.reading then Wired(Link(CloseNow(l.conn), []), false, w.callsNull)
        else Wired(l, false, true)
    case Ends => if w.link.conn.reading then Wired(Link(CloseNow(w.link.conn), []), false, w.callsNull) else w
    case Other(e) =>
      var c := OnEvent(cfg, w.link.conn, e, app);
      Wired(Link(c, if c.reading then w.link.pending else []), w.open, w.callsNull)
  }

  function RunIo(cfg: Config, w: Wired, ios: seq<Io>, app: Oracle): (r: Wired)
    requires Sized(cfg, w.link.conn)
    decreases |ios|
  {
    if ios == [] then w
    else
      OnIoSized(cfg, w, ios[0], app);
      RunIo(cfg, OnIo(cfg, w, ios[0], app), ios[1..], app)
  }

  lemma OnEventSized(cfg: Config, c: Conn, e: Event, app: Oracle)
    requires Sized(cfg, c)
    ensures Sized(cfg, OnEvent(cfg, c, e, app))
  {
    hide OnFrame, UpdateSettings, U31;
    match e
    case Arrived(f) => OnFrameSized(cfg, c, f, app);
    case FirstFrame(f) => SettingsKeepStream(c, f.payload, 0);
    case _ =>
  }

  lemma OnIoSized(cfg: Config, w: Wired, io: Io, app: Oracle)
    requires Sized(cfg, w.link.conn)
    ensures Sized(cfg, OnIo(cfg, w, io, app).link.conn)
  {
    hide OnEvent, Deliver;
    match io
    case Other(e) => OnEventSized(cfg, w.link.conn, e, app);
    case _ =>
  }

  lemma {:induction false} SettingsKeepReading(c: Conn, data: seq<byte>, total: nat)
    requires !c.reading
    ensures !UpdateSettings(c, data, total).0.reading
    decreases |data|
  {
    hide U32;
    if |data| >= 6 {
      var id := Join(data[0], data[1]);
      var r := UpdateSetting(c, id, U32(data[2..6]));
      if r.1 {
        SettingsKeepReading(r.0, data[6..], if 1 <= id <= 6 then total + 1 else total);
      }
    }
  }

  lemma FrameKeepsReading(cfg: Config, c: Conn, f: Frame, app: Oracle)
    requires Sized(cfg, c) && !c.reading
    ensures !OnFrame(cfg, c, f, app).conn.reading
  {
    hide UpdateSettings, U31, HasFlag, BadPadding, HeadersFragment;
    SettingsKeepReading(c, f.payload, 0);
  }

  /** Nothing makes a connection read again. */
  lemma EventKeepsReading(cfg: Config, c: Conn, e: Event, app: Oracle)
    requires Sized(cfg, c) && !c.reading
    ensures !OnEvent(cfg, c, e, app).reading
  {
    hide OnFrame, UpdateSettings, U31;
    match e
    case Arrived(f) => FrameKeepsReading(cfg, c, f, app);
    case FirstFrame(f) => SettingsKeepReading(c, f.payload, 0);
    case _ =>
  }

  /**
   * The callback is never called through NULL, whatever arrives: the connection answers the end of its input by giving
   * up reading, so that an ended ring is not read any more.
   */
  lemma {:induction false} NeverCallsNull(cfg: Config, w: Wired, ios: seq<Io>, app: Oracle)
    requires Sized(cfg, w.link.conn) && !w.callsNull && (w.open || !w.link.conn.reading)
    ensures var r := RunIo(cfg, w, ios, app); !r.callsNull && (r.open || !r.link.conn.reading)
    decreases |ios|
  {
    hide OnEvent, Deliver, Sized;
    if ios != [] {
      OnIoSized(cfg, w, ios[0], app);
      if ios[0].Other? && !w.link.conn.reading {
        EventKeepsReading(cfg, w.link.conn, ios[0].event, app);
      }
      NeverCallsNull(cfg, OnIo(cfg, w, ios[0], app), ios[1..], app);
    }
  }

  /** It takes a ring that has ended with its reader still there, and bytes that make it stop. */
  lemma CallsNullIff(cfg: Config, w: Wired, io: Io, app: Oracle)
    requires Sized(cfg, w.link.conn) && !w.callsNull
    ensures OnIo(cfg, w, io, app).callsNull <==>
            io.Bytes? && !w.open && w.link.conn.reading && !Receive(cfg, w.link.conn, w.link.pending, app).conn.reading
  {
    hide OnEvent, Receive;
    assert w.link.pending + [] == w.link.pending;
  }
}
