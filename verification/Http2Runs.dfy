/** The promises of a connection over whole runs: flow control, stream lifecycle, header blocks. */
module Http2Runs {
  import opened Bits
  import opened Http2Spec
  import opened Http2Invariant

  /** A connection from its first event to the last of the given ones. */
  ghost function Run(cfg: Config, events: seq<Event>, app: Oracle): (c: Conn)
    ensures Inv(cfg, c) && Sized(cfg, c)
  {
    if events == [] then NewClientInv(cfg); NewClient(cfg)
    else
      var c := Run(cfg, events[..|events| - 1], app);
      OnEventInv(cfg, c, events[|events| - 1], app);
      OnEvent(cfg, c, events[|events| - 1], app)
  }

  // ----- Flow control -----

  /** The connection credits of a log. */
  function Credits(log: seq<Action>): (n: nat) {
    if log == [] then 0
    else
      var a := log[|log| - 1];
      Credits(log[..|log| - 1]) + if a.ConnCredit? then a.n else 0
  }

  /** The lengths of all DATA frames of a log. */
  function Announced(log: seq<Action>): (n: nat) {
    if log == [] then 0
    else
      var a := log[|log| - 1];
      Announced(log[..|log| - 1]) + if a.SentData? then |a.data| else 0
  }

  /** The actions since the last stream was opened. */
  function SinceOpened(log: seq<Action>): (r: seq<Action>) {
    if log == [] || log[|log| - 1].Opened? then []
    else SinceOpened(log[..|log| - 1]) + [log[|log| - 1]]
  }

  function StreamCredits(log: seq<Action>): (n: nat) {
    if log == [] then 0
    else
      var a := log[|log| - 1];
      StreamCredits(log[..|log| - 1]) + if a.StreamCredit? then a.n else 0
  }

  /** SETTINGS_INITIAL_WINDOW_SIZE as the peer last set it. */
  function PeerInitialWindow(log: seq<Action>): (n: nat) {
    if log == [] then 65535
    else
      var a := log[|log| - 1];
      if a.InitialWindow? then a.value else PeerInitialWindow(log[..|log| - 1])
  }

  lemma WatchLast(log: seq<Action>)
    ensures log == [] ==> Watch(log) == Start()
    ensures log != [] ==> Watch(log) == Observe(Watch(log[..|log| - 1]), log[|log| - 1])
  {
    hide Observe;
  }

  lemma {:induction false} WatchTotals(log: seq<Action>)
    ensures Watch(log).credit == Credits(log)
    ensures Watch(log).sent == Announced(log)
    ensures Watch(log).initial == PeerInitialWindow(log)
  {
    hide Watch;
    WatchLast(log);
    if log != [] {
      WatchTotals(log[..|log| - 1]);
    }
  }

  lemma SinceOpenedLast(log: seq<Action>)
    requires log != [] && !log[|log| - 1].Opened?
    ensures var mine := SinceOpened(log);
            mine != [] && mine[..|mine| - 1] == SinceOpened(log[..|log| - 1]) && mine[|mine| - 1] == log[|log| - 1]
  {
  }

  lemma {:induction false} WatchStreamTotals(log: seq<Action>)
    ensures Watch(log).streamCredit == StreamCredits(SinceOpened(log))
    ensures Watch(log).streamSent == Announced(SinceOpened(log))
  {
    WatchLast(log);
    if log != [] {
      WatchStreamTotals(log[..|log| - 1]);
      if log[|log| - 1].Opened? {
        hide Watch;
      } else {
        SinceOpenedLast(log);
        hide Watch, SinceOpened;
      }
    }
  }

  /** Section 6.9.1 of RFC 7540, in every reachable state. */
  lemma ConnectionWindow(cfg: Config, events: seq<Event>, app: Oracle)
    ensures var c := Run(cfg, events, app);
            c.window == 65535 + Credits(c.log) - Announced(c.log) && 0 <= c.window <= MAX_WINDOW
  {
    hide Run, Watch, AllAllowed, Reassembled, Tracked, Identified;
    WatchTotals(Run(cfg, events, app).log);
  }

  /** Section 6.9.2 of RFC 7540, while the stream is open or half-closed (remote). */
  lemma StreamWindow(cfg: Config, events: seq<Event>, app: Oracle)
    ensures var c := Run(cfg, events, app); var mine := SinceOpened(c.log);
            && c.initialWindow == PeerInitialWindow(c.log)
            && (c.stream.state != Idle ==>
                  c.stream.window == PeerInitialWindow(c.log) + StreamCredits(mine) - Announced(mine) <= MAX_WINDOW)
  {
    hide Run, Watch, AllAllowed, Reassembled, Tracked;
    WatchTotals(Run(cfg, events, app).log);
    WatchStreamTotals(Run(cfg, events, app).log);
  }

  /** DATA never exceeds what the peer has granted: the connection, and the stream while it is active. */
  lemma NeverOversends(cfg: Config, log: seq<Action>, k: nat)
    requires AllAllowed(cfg, log) && k < |log| && log[k].SentData?
    ensures Announced(log[..k]) + |log[k].data| <= 65535 + Credits(log[..k])
    ensures var mine := SinceOpened(log[..k]);
            At(log, k).active ==>
              Announced(mine) + |log[k].data| <= PeerInitialWindow(log[..k]) + StreamCredits(mine)
  {
    hide Watch;
    WatchTotals(log[..k]);
    WatchStreamTotals(log[..k]);
    assert Allowed(cfg, At(log, k), log[k]);
  }

  // ----- Streams -----

  /** stream.id is the identifier opened last, in every reachable state. */
  lemma StreamIsLastOpened(cfg: Config, events: seq<Event>, app: Oracle)
    ensures var c := Run(cfg, events, app); c.stream.id == c.lastOpened
  {
    hide Run, Watch, AllAllowed, Reassembled, Tracked;
    assert Identified(Run(cfg, events, app), Watch(Run(cfg, events, app).log));
  }

  /** How what is known before one action carries over to a later one. */
  ghost predicate Later(m: Monitor, n: Monitor) {
    && m.lastId <= n.lastId
    && (m.broken ==> n.broken)
    && (m.lastId == n.lastId && m.handled ==> n.handled)
  }

  lemma ObserveLater(cfg: Config, m: Monitor, a: Action)
    requires Allowed(cfg, m, a)
    ensures Later(m, Observe(m, a))
  {
  }

  lemma LaterTransitive(l: Monitor, m: Monitor, n: Monitor)
    requires Later(l, m) && Later(m, n)
    ensures Later(l, n)
  {
  }

  lemma {:induction false} WatchGrows(cfg: Config, log: seq<Action>, i: nat, j: nat)
    requires AllAllowed(cfg, log) && i <= j <= |log|
    ensures Later(At(log, i), At(log, j))
    decreases j
  {
    hide At, Allowed, Observe;
    if i < j {
      WatchGrows(cfg, log, i, j - 1);
      AtStep(log, j);
      assert Allowed(cfg, At(log, j - 1), log[j - 1]);
      ObserveLater(cfg, At(log, j - 1), log[j - 1]);
      LaterTransitive(At(log, i), At(log, j - 1), At(log, j));
    }
  }

  /** Opened identifiers are odd and strictly increasing. */
  lemma OpenedIncreasing(cfg: Config, log: seq<Action>, i: nat, j: nat)
    requires AllAllowed(cfg, log) && i < j < |log| && log[i].Opened? && log[j].Opened?
    ensures log[i].id % 2 == 1 && log[i].id < log[j].id
  {
    hide At;
    WatchGrows(cfg, log, i + 1, j);
    AtStep(log, i + 1);
    assert Allowed(cfg, At(log, i), log[i]) && Allowed(cfg, At(log, j), log[j]);
  }

  /** No error, close or graceful close before action k. */
  ghost predicate Unbroken(log: seq<Action>, k: nat)
    requires k <= |log|
  {
    forall i :: 0 <= i < k ==> !Breaks(log[i])
  }

  lemma {:induction false} UnbrokenIff(log: seq<Action>, k: nat)
    requires k <= |log|
    ensures Unbroken(log, k) <==> !At(log, k).broken
    decreases k
  {
    hide At;
    AtStep(log, k);
    if k > 0 {
      UnbrokenIff(log, k - 1);
    }
  }

  /** The request of a stream is handled at most once: later handled requests have larger identifiers. */
  lemma HandledOnce(cfg: Config, log: seq<Action>, i: nat, j: nat)
    requires AllAllowed(cfg, log) && i < j < |log| && log[i].Handled? && log[j].Handled? && Unbroken(log, j)
    ensures log[i].id < log[j].id
  {
    hide At;
    UnbrokenIff(log, i);
    UnbrokenIff(log, j);
    WatchGrows(cfg, log, i + 1, j);
    AtStep(log, i + 1);
    assert Allowed(cfg, At(log, i), log[i]) && Allowed(cfg, At(log, j), log[j]);
  }

  /** Where the stream opened last was opened. */
  lemma {:induction false} Origin(log: seq<Action>, k: nat) returns (o: nat)
    requires k <= |log| && At(log, k).lastId > 0
    ensures o < k && log[o] == Opened(At(log, k).lastId)
    ensures forall i :: o < i < k ==> !log[i].Opened?
    decreases k
  {
    hide At;
    AtStep(log, k);
    if log[k - 1].Opened? {
      o := k - 1;
    } else {
      o := Origin(log, k - 1);
    }
  }

  /** Where an end of it was seen. */
  lemma {:induction false} Ends(log: seq<Action>, o: nat, k: nat) returns (h: nat, t: nat)
    requires o < k <= |log| && log[o].Opened? && forall i :: o < i < k ==> !log[i].Opened?
    ensures At(log, k).endHeaders ==> o < h < k && log[h] == GotEndHeaders
    ensures At(log, k).endStream ==> o < t < k && log[t] == GotEndStream
    decreases k
  {
    hide At;
    AtStep(log, k);
    if k == o + 1 {
      h, t := 0, 0;
    } else {
      h, t := Ends(log, o, k - 1);
      if log[k - 1].GotEndHeaders? {
        h := k - 1;
      } else if log[k - 1].GotEndStream? {
        t := k - 1;
      }
    }
  }

  lemma {:induction false} ActiveHasId(cfg: Config, log: seq<Action>, k: nat)
    requires AllAllowed(cfg, log) && k <= |log|
    ensures At(log, k).active ==> At(log, k).lastId > 0
    decreases k
  {
    hide At;
    AtStep(log, k);
    if k > 0 {
      ActiveHasId(cfg, log, k - 1);
      assert Allowed(cfg, At(log, k - 1), log[k - 1]);
    }
  }

  /** A request is handled only for the stream opened last, after both of its ends were seen. */
  lemma HandledComplete(cfg: Config, log: seq<Action>, j: nat) returns (o: nat, h: nat, t: nat)
    requires AllAllowed(cfg, log) && j < |log| && log[j].Handled? && Unbroken(log, j)
    ensures o < h < j && o < t < j && log[o] == Opened(log[j].id)
    ensures log[h] == GotEndHeaders && log[t] == GotEndStream
    ensures forall i :: o < i < j ==> !log[i].Opened?
  {
    hide At;
    UnbrokenIff(log, j);
    assert Allowed(cfg, At(log, j), log[j]);
    ActiveHasId(cfg, log, j);
    o := Origin(log, j);
    h, t := Ends(log, o, j);
  }

  // ----- Header blocks -----

  /** Header block fragments of the stream, trailers not included. */
  function Fragments(log: seq<Action>): (r: seq<byte>) {
    if log == [] then []
    else
      var before, a := log[..|log| - 1], log[|log| - 1];
      if a.Fragment? && TrailersBegun !in before then Fragments(before) + a.bytes else Fragments(before)
  }

  lemma {:induction false} WatchFragments(log: seq<Action>)
    ensures Watch(log).fragments == Fragments(SinceOpened(log))
    ensures Watch(log).trailers <==> TrailersBegun in SinceOpened(log)
  {
    WatchLast(log);
    if log != [] {
      WatchFragments(log[..|log| - 1]);
      if log[|log| - 1].Opened? {
        hide Watch;
      } else {
        SinceOpenedLast(log);
        var mine := SinceOpened(log);
        assert mine == mine[..|mine| - 1] + [log[|log| - 1]];
        hide Watch, SinceOpened;
      }
    }
  }

  /** The actions before the last stream was opened. */
  function BeforeOpened(log: seq<Action>): (r: seq<Action>) {
    if log == [] then []
    else if log[|log| - 1].Opened? then log[..|log| - 1]
    else BeforeOpened(log[..|log| - 1])
  }

  lemma {:induction false} WatchTrailers(log: seq<Action>)
    ensures Watch(log).trailers || Watch(log).earlierTrailers <==> TrailersBegun in log
    ensures Watch(log).earlierTrailers <==> TrailersBegun in BeforeOpened(log)
  {
    WatchLast(log);
    if log != [] {
      WatchTrailers(log[..|log| - 1]);
      assert log == log[..|log| - 1] + [log[|log| - 1]];
      hide Watch;
    }
  }

  /** The monitor before an action that hands a request over. */
  lemma HandledAllowed(cfg: Config, log: seq<Action>, j: nat)
    requires AllAllowed(cfg, log) && j < |log| && log[j].Handled? && Unbroken(log, j)
    ensures MayHold(cfg, Watch(log[..j]), log[j].block)
  {
    UnbrokenIff(log, j);
    hide Watch, MayHold;
    assert Allowed(cfg, At(log, j), log[j]);
  }

  /**
   * Sections 6.2 and 6.10 of RFC 7540: the block given to the decoder is the concatenation of the
   * fragments of its stream, as far as the stream buffer reaches, when no DATA was sent since the
   * stream was opened and no earlier stream of the connection had trailers.
   */
  lemma BlockReassembled(cfg: Config, log: seq<Action>, j: nat)
    requires AllAllowed(cfg, log) && j < |log| && log[j].Handled? && Unbroken(log, j)
    requires TrailersBegun !in BeforeOpened(log[..j]) && Announced(SinceOpened(log[..j])) == 0
    ensures log[j].block == Take(Fragments(SinceOpened(log[..j])), cfg.streamBuf)
  {
    hide Watch, Take, AllAllowed, Announced, BeforeOpened;
    HandledAllowed(cfg, log, j);
    WatchTrailers(log[..j]);
    WatchFragments(log[..j]);
    WatchStreamTotals(log[..j]);
  }

  /**
   * Where the fragments fit and no earlier stream had trailers, the block is their concatenation if and only if no
   * byte of DATA was announced since the stream was opened: what is sent meanwhile is taken from it.
   */
  lemma BlockReassembledIff(cfg: Config, log: seq<Action>, j: nat)
    requires AllAllowed(cfg, log) && j < |log| && log[j].Handled? && Unbroken(log, j)
    requires TrailersBegun !in BeforeOpened(log[..j]) && |Fragments(SinceOpened(log[..j]))| <= cfg.streamBuf
    ensures log[j].block == Fragments(SinceOpened(log[..j])) <==> Announced(SinceOpened(log[..j])) == 0
  {
    hide Watch, AllAllowed, Announced, BeforeOpened;
    HandledAllowed(cfg, log, j);
    WatchTrailers(log[..j]);
    WatchFragments(log[..j]);
    WatchStreamTotals(log[..j]);
  }

  /** Trailers are never forgotten: every later request of the connection has an empty header block. */
  lemma BlocksLostAfterTrailers(cfg: Config, log: seq<Action>, j: nat)
    requires AllAllowed(cfg, log) && j < |log| && log[j].Handled? && Unbroken(log, j)
    requires TrailersBegun in BeforeOpened(log[..j])
    ensures log[j].block == []
  {
    hide Watch, AllAllowed, BeforeOpened;
    HandledAllowed(cfg, log, j);
    WatchTrailers(log[..j]);
  }

  // ----- Every run -----

  /** The stream of action j was opened before, no other since, and both its ends were seen. */
  ghost predicate EndsSeen(log: seq<Action>, j: nat)
    requires j < |log| && log[j].Handled?
  {
    exists o, h, t :: 0 <= o < h < j && o < t < j && log[o] == Opened(log[j].id)
                      && log[h] == GotEndHeaders && log[t] == GotEndStream && (forall i :: o < i < j ==> !log[i].Opened?)
  }

  ghost predicate OrderedStreams(log: seq<Action>) {
    && (forall i :: 0 <= i < |log| && log[i].Opened? ==> log[i].id % 2 == 1)
    && (forall i, j :: 0 <= i < j < |log| && log[i].Opened? && log[j].Opened? ==> log[i].id < log[j].id)
  }

  /** Until the connection is given up. */
  ghost predicate ProperRequests(log: seq<Action>) {
    && (forall j :: 0 <= j < |log| && log[j].Handled? && Unbroken(log, j) ==> EndsSeen(log, j))
    && (forall i, j :: 0 <= i < j < |log| && log[i].Handled? && log[j].Handled? && Unbroken(log, j) ==> log[i].id < log[j].id)
  }

  ghost predicate WithinCredit(log: seq<Action>) {
    forall k :: 0 <= k < |log| && log[k].SentData? ==>
      Announced(log[..k]) + |log[k].data| <= 65535 + Credits(log[..k])
  }

  lemma AllowedStreamsAreOrdered(cfg: Config, log: seq<Action>)
    requires AllAllowed(cfg, log)
    ensures OrderedStreams(log)
  {
    hide AllAllowed, Observe;
    forall i | 0 <= i < |log| && log[i].Opened? ensures log[i].id % 2 == 1 {
      AllowedAt(cfg, log, i);
    }
    forall i, j | 0 <= i < j < |log| && log[i].Opened? && log[j].Opened? ensures log[i].id < log[j].id {
      OpenedIncreasing(cfg, log, i, j);
    }
  }

  lemma AllowedAt(cfg: Config, log: seq<Action>, k: nat)
    requires AllAllowed(cfg, log) && k < |log|
    ensures Allowed(cfg, At(log, k), log[k])
  {
    hide At, Allowed;
  }

  lemma AllowedRequestsAreProper(cfg: Config, log: seq<Action>)
    requires AllAllowed(cfg, log)
    ensures ProperRequests(log)
  {
    hide AllAllowed, Unbroken;
    forall j | 0 <= j < |log| && log[j].Handled? && Unbroken(log, j) ensures EndsSeen(log, j) {
      var o, h, t := HandledComplete(cfg, log, j);
    }
    forall i, j | 0 <= i < j < |log| && log[i].Handled? && log[j].Handled? && Unbroken(log, j)
      ensures log[i].id < log[j].id
    {
      HandledOnce(cfg, log, i, j);
    }
  }

  lemma AllowedIsWithinCredit(cfg: Config, log: seq<Action>)
    requires AllAllowed(cfg, log)
    ensures WithinCredit(log)
  {
    hide AllAllowed, Announced, Credits;
    forall k | 0 <= k < |log| && log[k].SentData?
      ensures Announced(log[..k]) + |log[k].data| <= 65535 + Credits(log[..k])
    {
      NeverOversends(cfg, log, k);
    }
  }

  /**
   * Whatever frames arrive, writes complete, timers fire and requests are answered with: streams are
   * opened in order, requests are handled once and complete, and no DATA goes beyond the peer's credit.
   */
  lemma EveryRunIsProper(cfg: Config, events: seq<Event>, app: Oracle)
    ensures var log := Run(cfg, events, app).log;
            OrderedStreams(log) && ProperRequests(log) && WithinCredit(log) && AllAllowed(cfg, log)
  {
    hide Run, AllAllowed, Agrees, OrderedStreams, ProperRequests, WithinCredit;
    var log := Run(cfg, events, app).log;
    assert AllAllowed(cfg, log);
    AllowedStreamsAreOrdered(cfg, log);
    AllowedRequestsAreProper(cfg, log);
    AllowedIsWithinCredit(cfg, log);
  }
}
