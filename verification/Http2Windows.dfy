/**
 * Flow control over whole runs, with what the peer granted read off its frames: the increments of the WINDOW_UPDATE
 * frames that are accepted, and the last accepted SETTINGS_INITIAL_WINDOW_SIZE.
 */
module Http2Windows {
  import opened Bits
  import opened Frames
  import opened Http2Spec
  import opened Http2Invariant
  import opened Http2Runs

  // ----- What a frame grants -----

  function Increment(f: Frame): (n: nat)
    requires |f.payload| == 4
  {
    Number(f.payload[0] % 128, f.payload[1], f.payload[2], f.payload[3])
  }

  /** The increment for the connection that an event brings; 0 for one that is refused or brings none. */
  function Grant(c: Conn, e: Event): (n: nat) {
    if e.Arrived? && !c.flags.waitingEndHeaders && e.frame.kind == 8 && e.frame.streamId == 0 && |e.frame.payload| == 4
       && c.window + Increment(e.frame) <= 0x7fff_ffff
    then Increment(e.frame) else 0
  }

  /** The same for the stream: a frame for an older one counts for the current one. */
  function StreamGrant(c: Conn, e: Event): (n: nat) {
    if e.Arrived? && !c.flags.waitingEndHeaders && e.frame.kind == 8 && 0 < e.frame.streamId <= c.lastOpened
       && (e.frame.streamId != c.stream.id || c.stream.state != Idle) && |e.frame.payload| == 4
       && (c.stream.window + Increment(e.frame)) % 0x1_0000_0000 <= 0x7fff_ffff
    then Increment(e.frame) else 0
  }

  /** A HEADERS frame that opens a stream. */
  predicate Opens(c: Conn, e: Event) {
    && e.Arrived? && !c.flags.waitingEndHeaders && e.frame.kind == 1 && c.state != Closing
    && e.frame.streamId > c.lastOpened && e.frame.streamId % 2 == 1 && c.stream.state == Idle
  }

  /** The initial window after the settings of a payload, up to the first one that is refused. */
  function InitialAfter(data: seq<byte>, initial: nat, window: int, active: bool): (r: nat)
    decreases |data|
  {
    if |data| < 6 then initial
    else
      var id, v := 256 * data[0] as int + data[1], Number(data[2], data[3], data[4], data[5]);
      if id == 2 && v > 1 then initial
      else if id == 5 && (v < 16384 || v > 16777215) then initial
      else if id != 4 then InitialAfter(data[6..], initial, window, active)
      else if v > 0x7fff_ffff || (active && window + v - initial > 0x7fff_ffff) then initial
      else InitialAfter(data[6..], v, if active then window + v - initial else window, active)
  }

  /** A SETTINGS frame whose settings are looked at. */
  predicate BringsSettings(c: Conn, e: Event) {
    && ((e.Arrived? && !c.flags.waitingEndHeaders) || (e.FirstFrame? && e.frame.flags == 0))
    && e.frame.kind == 4 && e.frame.streamId == 0 && e.frame.flags % 2 == 0 && |e.frame.payload| % 6 == 0
  }

  function Initial(c: Conn, e: Event): (n: nat) {
    if BringsSettings(c, e) then InitialAfter(e.frame.payload, c.initialWindow, c.stream.window, c.stream.state != Idle)
    else c.initialWindow
  }

  // ----- Actions that grant nothing -----

  predicate Plain(a: Action) {
    !a.ConnCredit? && !a.StreamCredit? && !a.Opened?
  }

  ghost predicate AddsPlain(log: seq<Action>, log': seq<Action>) {
    log <= log' && forall i :: |log| <= i < |log'| ==> Plain(log'[i])
  }

  lemma {:induction false} SettingsAddPlain(c: Conn, data: seq<byte>, total: nat)
    ensures AddsPlain(c.log, UpdateSettings(c, data, total).0.log)
    decreases |data|
  {
    hide U32;
    if |data| >= 6 {
      var id := Join(data[0], data[1]);
      var r := UpdateSetting(c, id, U32(data[2..6]));
      if r.1 {
        SettingsAddPlain(r.0, data[6..], if 1 <= id <= 6 then total + 1 else total);
      }
    }
  }

  lemma ProceedAddsPlain(cfg: Config, c: Conn, app: Oracle)
    requires Sized(cfg, c)
    ensures AddsPlain(c.log, Proceed(cfg, c, app).conn.log)
  {
  }

  lemma NotedAddsPlain(cfg: Config, c: Conn, endStream: bool, endHeaders: bool, app: Oracle)
    requires Sized(cfg, c)
    ensures AddsPlain(c.log, Proceed(cfg, NoteFlags(c, endStream, endHeaders), app).conn.log)
  {
    hide Proceed;
    ProceedAddsPlain(cfg, NoteFlags(c, endStream, endHeaders), app);
  }

  lemma BlockAddsPlain(cfg: Config, c: Conn, f: Frame, data: seq<byte>, app: Oracle)
    requires Sized(cfg, c)
    ensures AddsPlain(c.log, HeaderBlock(cfg, c, f, data, app).conn.log)
  {
    hide Proceed, NoteFlags, HasFlag, Take;
    NotedAddsPlain(cfg, Collect(cfg, c, data), HasFlag(f, END_STREAM), HasFlag(f, END_HEADERS), app);
  }

  lemma HeadersAddPlain(cfg: Config, c: Conn, f: Frame, app: Oracle)
    requires Sized(cfg, c) && f.kind == 1 && !c.flags.waitingEndHeaders
    ensures var front := if Opens(c, Arrived(f)) then [Opened(f.streamId)] else [];
            AddsPlain(c.log + front, OnHeaders(cfg, c, f, app).conn.log)
  {
    hide HeaderBlock, HasFlag, HeadersFragment, BadPadding;
    assert c.log + [] == c.log;
    if !BadPadding(f) {
      BlockAddsPlain(cfg, OpenStream(c, f.streamId), f, HeadersFragment(f), app);
      var c1 := Log(c, TrailersBegun).(flags := c.flags.(waitingTrailers := true, waitingEndHeaders := true));
      BlockAddsPlain(cfg, c1, f, HeadersFragment(f), app);
    }
  }

  lemma IncrementIs(f: Frame)
    requires |f.payload| == 4
    ensures U31(f.payload) == Increment(f)
  {
  }

  lemma UpdateAdds(cfg: Config, c: Conn, f: Frame, app: Oracle)
    requires Sized(cfg, c) && f.kind == 8 && !c.flags.waitingEndHeaders && 0 <= c.window <= MAX_WINDOW
    ensures var n, m, log := Grant(c, Arrived(f)), StreamGrant(c, Arrived(f)), OnWindowUpdate(cfg, c, f).conn.log;
            && (n > 0 ==> AddsPlain(c.log + [ConnCredit(n)], log))
            && (m > 0 ==> AddsPlain(c.log + [StreamCredit(m)], log))
            && (n == m == 0 ==> AddsPlain(c.log, log))
  {
    hide U31, Number, Increment, ContinueSend, Fail, ResetStream, AddsPlain;
    ErrorsAddPlain(c, FRAME_SIZE_ERROR);
    ErrorsAddPlain(c, PROTOCOL_ERROR);
    ErrorsAddPlain(c, STREAM_CLOSED_ERROR);
    ErrorsAddPlain(c, FLOW_CONTROL_ERROR);
    if |f.payload| == 4 {
      IncrementIs(f);
      var n := Increment(f);
      AddsNothing(c.log + [ConnCredit(n)]);
      SendAddsPlain(cfg, Log(c, StreamCredit(n)).(stream := c.stream.(window := c.stream.window + n)));
    }
  }

  lemma AddsNothing(log: seq<Action>)
    ensures AddsPlain(log, log)
  {
  }

  lemma ErrorsAddPlain(c: Conn, error: nat)
    ensures AddsPlain(c.log, Fail(c, error).log) && AddsPlain(c.log, ResetStream(c, c.stream.id, error).log)
  {
  }

  lemma SendAddsPlain(cfg: Config, c: Conn)
    ensures AddsPlain(c.log, ContinueSend(cfg, c).log)
  {
  }

  lemma OtherFramesAddPlain(cfg: Config, c: Conn, f: Frame, app: Oracle)
    requires Sized(cfg, c) && (f.kind !in {1, 8} || c.flags.waitingEndHeaders)
    ensures AddsPlain(c.log, OnFrame(cfg, c, f, app).conn.log)
  {
    hide UpdateSettings, U31, HasFlag, BadPadding, OnHeaders, OnWindowUpdate, HeaderBlock, Proceed, NoteFlags;
    SettingsAddPlain(c, f.payload, 0);
    BlockAddsPlain(cfg, c, f, f.payload, app);
    NotedAddsPlain(cfg, c, HasFlag(f, END_STREAM), false, app);
  }

  /** What an event puts in front of such actions. */
  function Front(c: Conn, e: Event): (r: seq<Action>) {
    if Grant(c, e) > 0 then [ConnCredit(Grant(c, e))]
    else if StreamGrant(c, e) > 0 then [StreamCredit(StreamGrant(c, e))]
    else if Opens(c, e) then [Opened(e.frame.streamId)]
    else []
  }

  /** An event adds the credits it brings to the log, the opening of a stream, and otherwise nothing of the kind. */
  lemma EventAdds(cfg: Config, c: Conn, e: Event, app: Oracle)
    requires Sized(cfg, c) && 0 <= c.window <= MAX_WINDOW
    ensures AddsPlain(c.log + Front(c, e), OnEvent(cfg, c, e, app).log)
  {
    hide AddsPlain, Increment, OnFrame;
    assert c.log + [] == c.log;
    if e.Arrived? {
      FrameAdds(cfg, c, e.frame, app);
    } else {
      OthersAddPlain(cfg, c, e, app);
      hide OnEvent;
    }
  }

  lemma OthersAddPlain(cfg: Config, c: Conn, e: Event, app: Oracle)
    requires Sized(cfg, c) && !e.Arrived?
    ensures AddsPlain(c.log, OnEvent(cfg, c, e, app).log)
  {
    hide OnFrame, UpdateSettings, U31, HasFlag, ContinueSend;
    SendAddsPlain(cfg, c);
    if e.FirstFrame? {
      SettingsAddPlain(c, e.frame.payload, 0);
    }
  }

  lemma FrameAdds(cfg: Config, c: Conn, f: Frame, app: Oracle)
    requires Sized(cfg, c) && 0 <= c.window <= MAX_WINDOW
    ensures AddsPlain(c.log + Front(c, Arrived(f)), OnFrame(cfg, c, f, app).conn.log)
  {
    hide OnGoaway, OnSettings, OnPing, OnContinuation, OnReset, OnData, OnHeaders, OnWindowUpdate, AddsPlain, Increment;
    assert c.log + [] == c.log;
    if f.kind == 1 && !c.flags.waitingEndHeaders {
      HeadersAddPlain(cfg, c, f, app);
    } else if f.kind == 8 && !c.flags.waitingEndHeaders {
      UpdateAdds(cfg, c, f, app);
    } else {
      OtherFramesAddPlain(cfg, c, f, app);
    }
  }

  // ----- Sums of the log -----

  function CreditsSinceOpened(log: seq<Action>): (n: nat) {
    StreamCredits(SinceOpened(log))
  }

  lemma OneMore(log: seq<Action>, a: Action)
    ensures Credits(log + [a]) == Credits(log) + if a.ConnCredit? then a.n else 0
    ensures CreditsSinceOpened(log + [a]) == if a.Opened? then 0 else CreditsSinceOpened(log) + if a.StreamCredit? then a.n else 0
  {
    var all := log + [a];
    assert all[..|log|] == log;
    hide Credits;
    LastCredit(all);
    if !a.Opened? {
      assert SinceOpened(all) == SinceOpened(log) + [a];
      LastStreamCredit(SinceOpened(all));
    }
  }

  lemma LastCredit(log: seq<Action>)
    requires log != []
    ensures var a := log[|log| - 1]; Credits(log) == Credits(log[..|log| - 1]) + if a.ConnCredit? then a.n else 0
  {
  }

  lemma LastStreamCredit(log: seq<Action>)
    requires log != []
    ensures var a := log[|log| - 1]; StreamCredits(log) == StreamCredits(log[..|log| - 1]) + if a.StreamCredit? then a.n else 0
  {
  }

  lemma {:induction false} PlainAddsNothing(log: seq<Action>, log': seq<Action>)
    requires AddsPlain(log, log')
    ensures Credits(log') == Credits(log) && CreditsSinceOpened(log') == CreditsSinceOpened(log)
    decreases |log'|
  {
    hide Credits, CreditsSinceOpened;
    if |log'| == |log| {
      assert log' == log;
    } else {
      var before, a := log'[..|log'| - 1], log'[|log'| - 1];
      assert log' == before + [a];
      PlainAddsNothing(log, before);
      OneMore(before, a);
    }
  }

  /** The sums after an event. */
  lemma EventCredits(cfg: Config, c: Conn, e: Event, app: Oracle)
    requires Sized(cfg, c) && 0 <= c.window <= MAX_WINDOW
    ensures var log := OnEvent(cfg, c, e, app).log;
            && Credits(log) == Credits(c.log) + Grant(c, e)
            && CreditsSinceOpened(log) == if Opens(c, e) then 0 else CreditsSinceOpened(c.log) + StreamGrant(c, e)
  {
    hide OnEvent, Credits, CreditsSinceOpened, AddsPlain, Increment;
    EventAdds(cfg, c, e, app);
    PlainAddsNothing(c.log + Front(c, e), OnEvent(cfg, c, e, app).log);
    assert c.log + [] == c.log;
    if Front(c, e) != [] {
      OneMore(c.log, Front(c, e)[0]);
    }
  }

  // ----- The initial window -----

  lemma {:induction false} SettingsInitial(c: Conn, data: seq<byte>, total: nat)
    ensures UpdateSettings(c, data, total).0.initialWindow ==
            InitialAfter(data, c.initialWindow, c.stream.window, c.stream.state != Idle)
    decreases |data|
  {
    hide U32, Join, Number;
    if |data| >= 6 {
      IdAndValue(data);
      var id := Join(data[0], data[1]);
      var r := UpdateSetting(c, id, U32(data[2..6]));
      if r.1 {
        SettingsInitial(r.0, data[6..], if 1 <= id <= 6 then total + 1 else total);
      }
    }
  }

  lemma IdAndValue(data: seq<byte>)
    requires |data| >= 6
    ensures Join(data[0], data[1]) == 256 * data[0] as int + data[1]
    ensures U32(data[2..6]) == Number(data[2], data[3], data[4], data[5])
  {
  }

  lemma NotedKeepsInitial(cfg: Config, c: Conn, a: bool, b: bool, app: Oracle)
    requires Sized(cfg, c)
    ensures Proceed(cfg, NoteFlags(c, a, b), app).conn.initialWindow == c.initialWindow
  {
    hide Take;
  }

  lemma BlockKeepsInitial(cfg: Config, c: Conn, f: Frame, data: seq<byte>, app: Oracle)
    requires Sized(cfg, c)
    ensures HeaderBlock(cfg, c, f, data, app).conn.initialWindow == c.initialWindow
  {
    hide HasFlag, Take, Proceed, NoteFlags;
    NotedKeepsInitial(cfg, Collect(cfg, c, data), HasFlag(f, END_STREAM), HasFlag(f, END_HEADERS), app);
  }

  lemma HeadersKeepInitial(cfg: Config, c: Conn, f: Frame, app: Oracle)
    requires Sized(cfg, c)
    ensures OnHeaders(cfg, c, f, app).conn.initialWindow == c.initialWindow
  {
    hide HeaderBlock, HasFlag, HeadersFragment, BadPadding, Proceed, NoteFlags;
    if !BadPadding(f) {
      BlockKeepsInitial(cfg, OpenStream(c, f.streamId), f, HeadersFragment(f), app);
      var c1 := Log(c, TrailersBegun).(flags := c.flags.(waitingTrailers := true, waitingEndHeaders := true));
      BlockKeepsInitial(cfg, c1, f, HeadersFragment(f), app);
    }
  }

  lemma FrameInitial(cfg: Config, c: Conn, f: Frame, app: Oracle)
    requires Sized(cfg, c)
    ensures OnFrame(cfg, c, f, app).conn.initialWindow == Initial(c, Arrived(f))
  {
    hide UpdateSettings, InitialAfter, U31, HasFlag, BadPadding, OnHeaders, HeaderBlock, Proceed, NoteFlags, ContinueSend;
    FlagOne(f);
    SettingsInitial(c, f.payload, 0);
    HeadersKeepInitial(cfg, c, f, app);
    BlockKeepsInitial(cfg, c, f, f.payload, app);
    NotedKeepsInitial(cfg, c, HasFlag(f, END_STREAM), false, app);
    assert forall x :: ContinueSend(cfg, x).initialWindow == x.initialWindow by {
      SendKeepsInitial(cfg);
    }
  }

  lemma FlagOne(f: Frame)
    ensures HasFlag(f, ACK) <==> f.flags % 2 == 1
  {
  }

  lemma SendKeepsInitial(cfg: Config)
    ensures forall x :: ContinueSend(cfg, x).initialWindow == x.initialWindow
  {
  }

  lemma EventInitial(cfg: Config, c: Conn, e: Event, app: Oracle)
    requires Sized(cfg, c)
    ensures OnEvent(cfg, c, e, app).initialWindow == Initial(c, e)
  {
    hide UpdateSettings, InitialAfter, OnFrame, ContinueSend;
    if e.Arrived? {
      FrameInitial(cfg, c, e.frame, app);
    } else if e.FirstFrame? {
      SettingsInitial(c, e.frame.payload, 0);
    }
    SendKeepsInitial(cfg);
  }

  // ----- Whole runs -----

  function Earlier(events: seq<Event>): (r: seq<Event>)
    requires events != []
  {
    events[..|events| - 1]
  }

  /** All increments for the connection that were accepted. */
  ghost function Granted(cfg: Config, events: seq<Event>, app: Oracle): (n: nat) {
    if events == [] then 0
    else Granted(cfg, Earlier(events), app) + Grant(Run(cfg, Earlier(events), app), events[|events| - 1])
  }

  /** Those for the stream, since it was opened. */
  ghost function StreamGranted(cfg: Config, events: seq<Event>, app: Oracle): (n: nat) {
    if events == [] then 0
    else
      var c, e := Run(cfg, Earlier(events), app), events[|events| - 1];
      if Opens(c, e) then 0 else StreamGranted(cfg, Earlier(events), app) + StreamGrant(c, e)
  }

  /** The initial window that the peer set last. */
  ghost function PeerInitial(cfg: Config, events: seq<Event>, app: Oracle): (n: nat) {
    if events == [] then 65535 else Initial(Run(cfg, Earlier(events), app), events[|events| - 1])
  }

  lemma {:induction false} LogIsGranted(cfg: Config, events: seq<Event>, app: Oracle)
    ensures var c := Run(cfg, events, app);
            && Credits(c.log) == Granted(cfg, events, app)
            && CreditsSinceOpened(c.log) == StreamGranted(cfg, events, app)
            && c.initialWindow == PeerInitial(cfg, events, app)
  {
    hide OnEvent, Grant, StreamGrant, Opens, Initial, Inv;
    if events != [] {
      var c := Run(cfg, Earlier(events), app);
      LogIsGranted(cfg, Earlier(events), app);
      WindowBounds(cfg, Earlier(events), app);
      EventCredits(cfg, c, events[|events| - 1], app);
      EventInitial(cfg, c, events[|events| - 1], app);
    }
  }

  lemma WindowBounds(cfg: Config, events: seq<Event>, app: Oracle)
    ensures 0 <= Run(cfg, events, app).window <= MAX_WINDOW
  {
    hide Run, Credits, Announced;
    Http2Runs.ConnectionWindow(cfg, events, app);
  }

  /** Section 6.9.1 of RFC 7540: in every reachable state the window is 65535 plus all that was granted less all DATA. */
  lemma ConnectionWindow(cfg: Config, events: seq<Event>, app: Oracle)
    ensures var c := Run(cfg, events, app);
            c.window == 65535 + Granted(cfg, events, app) - Announced(c.log) && 0 <= c.window <= MAX_WINDOW
  {
    hide Run, Credits, Announced, Granted, CreditsSinceOpened;
    Http2Runs.ConnectionWindow(cfg, events, app);
    LogIsGranted(cfg, events, app);
  }

  /** Section 6.9.2: for an active stream, the peer's initial window plus what was granted since it was opened less its DATA. */
  lemma StreamWindow(cfg: Config, events: seq<Event>, app: Oracle)
    ensures var c := Run(cfg, events, app);
            && c.initialWindow == PeerInitial(cfg, events, app)
            && (c.stream.state != Idle ==>
                  c.stream.window == PeerInitial(cfg, events, app) + StreamGranted(cfg, events, app)
                                     - Announced(SinceOpened(c.log)) <= MAX_WINDOW)
  {
    hide Run, Credits, Announced, StreamCredits, SinceOpened, StreamGranted, PeerInitial, PeerInitialWindow;
    Http2Runs.StreamWindow(cfg, events, app);
    LogIsGranted(cfg, events, app);
  }
}
