/** The walk of event_loop_timers on values: whose turn it is, what a turn does, and that no timer is passed over. */
module EventTimers {
  import opened LinkedList
  import opened EventSpec
  import opened EventCalls

  /** What comes of an event when it is looked at: whether it is due, what its callback does and returns. */
  datatype Turn = Turn(due: bool, calls: seq<Call>, remove: bool)

  /** The turn of an event, given how many there were before. */
  type Reaction = (int, nat) -> Turn

  datatype Seen = Seen(sock: nat, event: nat, turn: Turn)

  /** A timer that is due calls back, and goes back to the free events when the callback says so; nothing else happens. */
  ghost function Turned(b: Books, v: Seen): (r: Books)
    requires Sound(b, NULL)
    ensures Sound(r, NULL)
  {
    if !v.turn.due || !IsReserved(b, v.sock) || !HasTimer(b, v.sock, v.event) then b
    else
      var a := After(b, v.turn.calls, NULL);
      if !v.turn.remove || !IsReserved(a, v.sock) || !HasTimer(a, v.sock, v.event) then a
      else
        DroppedSound(a, v.sock, v.event, NULL);
        Dropped(a, v.sock, v.event)
  }

  ghost function Walked(b: Books, visits: seq<Seen>): (r: Books)
    requires Sound(b, NULL)
    ensures Sound(r, NULL)
    decreases |visits|
  {
    if visits == [] then b else Turned(Walked(b, visits[..|visits| - 1]), visits[|visits| - 1])
  }

  lemma WalkedSnoc(b: Books, visits: seq<Seen>, v: Seen)
    requires Sound(b, NULL)
    ensures Walked(b, visits + [v]) == Turned(Walked(b, visits), v)
    ensures Walked(b, []) == b
  {
    hide Turned;
    assert (visits + [v])[..|visits|] == visits;
  }

  lemma {:induction false} WalkedConcat(b: Books, first: seq<Seen>, second: seq<Seen>)
    requires Sound(b, NULL)
    ensures Walked(b, first + second) == Walked(Walked(b, first), second)
    decreases |second|
  {
    hide Turned, Walked;
    if second == [] {
      assert first + second == first;
      WalkedNone(Walked(b, first));
    } else {
      var init, v := second[..|second| - 1], second[|second| - 1];
      WalkedConcat(b, first, init);
      WalkedSnoc(b, first + init, v);
      WalkedSnoc(Walked(b, first), init, v);
      assert first + second == (first + init) + [v] && second == init + [v];
    }
  }

  lemma WalkedNone(b: Books)
    requires Sound(b, NULL)
    ensures Walked(b, []) == b
  {
  }

  // ----- The nodes from one on -----

  /** A list from one of its nodes on. */
  function From(s: seq<int>, e: int): (r: seq<int>)
    ensures |r| == Rank(s, e)
  {
    if s == [] then [] else if s[0] == e then s else From(s[1..], e)
  }

  lemma {:induction false} FromMinus(s: seq<int>, n: int, e: int, d: int)
    requires n != e && n != d && d in From(s, e)
    ensures d in From(Minus(s, n), e)
  {
    if s[0] != e {
      FromMinus(s[1..], n, e, d);
    } else {
      assert Minus(s, n)[0] == e;
      MinusKeeps(s, n, d);
    }
  }

  lemma {:induction false} MinusKeeps(s: seq<int>, n: int, d: int)
    requires n != d && d in s
    ensures d in Minus(s, n)
  {
    if s[0] != n && s[0] != d {
      MinusKeeps(s[1..], n, d);
    }
  }

  lemma {:induction false} FromIn(s: seq<int>, e: int, d: int)
    requires d in From(s, e)
    ensures d in s
  {
    if s[0] != e {
      FromIn(s[1..], e, d);
    }
  }

  /** One node on, with the node itself in the list or taken out of it. */
  lemma {:induction false} FromNext(s: seq<int>, k: nat, d: int)
    requires k < |s| && Distinct(s) && d in From(s, s[k]) && d != s[k]
    ensures k + 1 < |s| && d in From(s, s[k + 1]) && d in From(Minus(s, s[k]), s[k + 1])
    decreases k
  {
    if k == 0 {
      var i :| 0 <= i < |s| && s[i] == d;
      assert s[1..][i - 1] == d;
      assert s[0] != s[1] && Minus(s, s[0]) == s[1..];
    } else {
      assert s[0] != s[k] && s[1..][k - 1] == s[k];
      assert Distinct(s[1..]);
      FromNext(s[1..], k - 1, d);
      assert s[1..][k] == s[k + 1] && s[0] != s[k + 1];
      assert Minus(s, s[k]) == [s[0]] + Minus(s[1..], s[k]);
      assert ([s[0]] + Minus(s[1..], s[k]))[1..] == Minus(s[1..], s[k]);
    }
  }

  /** Timer d of a socket is e or comes after it. */
  ghost predicate Behind(b: Books, s: int, e: int, d: int)
    requires Sized(b)
  {
    HasTimer(b, s, e) && HasTimer(b, s, d) && d in From(b.events.at[s], e)
  }

  predicate Stops(call: Call, d: int) {
    call.StopTimer? && call.timer == d
  }

  lemma AddedBehind(b: Books, t: nat, k: Kind, s: int, e: int, d: int, held: int)
    requires Sound(b, held) && MayAdd(b, t, k) && Behind(b, s, e, d)
    ensures 0 <= b.events.at[|b.state|][0] < |b.kind| && Sized(Added(b, t, k)) && Behind(Added(b, t, k), s, e, d)
  {
    FirstIsOwned(b.events, |b.state|);
    var n := b.events.at[|b.state|][0];
    InList(b.events, s, e);
    InList(b.events, s, d);
    assert ([n] + b.events.at[s])[1..] == b.events.at[s];
    hide Arranged, FirstOf;
  }

  lemma DroppedBehind(b: Books, t: nat, n: nat, s: int, e: int, d: int, held: int)
    requires Sound(b, held) && IsReserved(b, t) && n < |b.kind| && n in b.events.at[t] && b.kind[n] != Write
    requires Behind(b, s, e, d) && n != e && n != d
    ensures Sized(Dropped(b, t, n)) && Behind(Dropped(b, t, n), s, e, d)
  {
    hide Arranged, Minus, From, Rank;
    FromMinus(b.events.at[s], n, e, d);
    MinusKeeps(b.events.at[s], n, e);
    MinusKeeps(b.events.at[s], n, d);
  }

  /** Calls that stop neither of two timers leave them in their order. */
  lemma DoBehind(b: Books, call: Call, s: int, e: int, d: int, held: int)
    requires Sound(b, held) && Behind(b, s, e, d) && !Stops(call, e) && !Stops(call, d)
    ensures Sound(Do(b, call, held), held) && Behind(Do(b, call, held), s, e, d)
  {
    DoSound(b, call, held);
    Firsts(b, held);
    hide Added, Dropped, EventOf, SocketsKept, QueuesKept, HoldsOnly, Arranged, From, Rank;
    match call
    case Create =>
    case Add(t, k) => if MayAdd(b, t, k) { AddedBehind(b, t, k, s, e, d, held); }
    case StopRead(t) =>
      if IsReserved(b, t) && EventOf(b, t, Read) != NULL { DroppedBehind(b, t, EventOf(b, t, Read), s, e, d, held); }
    case StopTimer(t, n) =>
      if IsReserved(b, t) && n < |b.kind| && n in b.events.at[t] && b.kind[n] == Timer {
        DroppedBehind(b, t, n, s, e, d, held);
      }
    case QueueWrite(t) =>
    case CloseSock(t) =>
    case Accept(server, client, ok) =>
  }

  lemma {:induction false} AfterBehind(b: Books, calls: seq<Call>, s: int, e: int, d: int, held: int)
    requires Sound(b, held) && Behind(b, s, e, d)
    requires forall i :: 0 <= i < |calls| ==> !Stops(calls[i], e) && !Stops(calls[i], d)
    ensures Behind(After(b, calls, held), s, e, d)
    decreases |calls|
  {
    hide Do, Sound, Behind;
    if calls != [] {
      DoBehind(b, calls[0], s, e, d, held);
      AfterBehind(Do(b, calls[0], held), calls[1..], s, e, d, held);
    }
  }

  // ----- No timer is passed over -----

  /** The visit is to the timer, or a callback stops it. */
  ghost predicate Covers(v: Seen, s: int, d: int) {
    (v.sock == s && v.event == d) || (v.turn.due && exists i :: 0 <= i < |v.turn.calls| && Stops(v.turn.calls[i], d))
  }

  ghost predicate Covered(visits: seq<Seen>, s: int, d: int) {
    exists i :: 0 <= i < |visits| && Covers(visits[i], s, d)
  }

  lemma CoveredConcat(first: seq<Seen>, second: seq<Seen>, s: int, d: int)
    ensures Covered(first + second, s, d) <==> Covered(first, s, d) || Covered(second, s, d)
  {
    hide Covers;
    var all := first + second;
    if Covered(first, s, d) {
      var i :| 0 <= i < |first| && Covers(first[i], s, d);
      assert Covers(all[i], s, d);
    }
    if Covered(second, s, d) {
      var i :| 0 <= i < |second| && Covers(second[i], s, d);
      assert Covers(all[|first| + i], s, d);
    }
  }

  lemma CoveredOne(v: Seen, s: int, d: int)
    ensures Covered([v], s, d) <==> Covers(v, s, d)
  {
    hide Covers;
    assert [v][0] == v;
  }

  /** A timer is there until its turn comes or a callback stops it. */
  lemma TurnedKeeps(b: Books, v: Seen, s: int, d: int)
    requires Sound(b, NULL) && HasTimer(b, s, d) && !Covers(v, s, d)
    ensures HasTimer(Turned(b, v), s, d)
  {
    SoundIsSized(b);
    hide Sound, HasTimer;
    if v.turn.due && IsReserved(b, v.sock) && HasTimer(b, v.sock, v.event) {
      assert forall i :: 0 <= i < |v.turn.calls| ==> !Stops(v.turn.calls[i], d);
      AfterMild(b, v.turn.calls, s, d, NULL);
      var a := After(b, v.turn.calls, NULL);
      SoundIsSized(a);
      if v.turn.remove && IsReserved(a, v.sock) && HasTimer(a, v.sock, v.event) {
        OneOwner(a, v.sock, v.event, s, d);
        DroppedKeeps(a, v.sock, v.event, s, d);
      }
    }
  }

  lemma SoundIsSized(b: Books)
    requires Sound(b, NULL)
    ensures Sized(b)
  {
  }

  lemma OneOwner(b: Books, s: int, e: int, t: int, d: int)
    requires Sound(b, NULL) && HasTimer(b, s, e) && HasTimer(b, t, d) && (s != t || e != d)
    ensures e != d
  {
    InList(b.events, s, e);
    InList(b.events, t, d);
  }

  lemma DroppedKeeps(b: Books, s: nat, e: nat, t: int, d: int)
    requires Sound(b, NULL) && HasTimer(b, s, e) && HasTimer(b, t, d) && e != d
    ensures Sized(Dropped(b, s, e)) && HasTimer(Dropped(b, s, e), t, d)
  {
    if s == t {
      MinusKeeps(b.events.at[s], e, d);
    }
  }

  lemma {:induction false} WalkedKeeps(b: Books, visits: seq<Seen>, s: int, d: int)
    requires Sound(b, NULL) && Sized(b) && HasTimer(b, s, d) && !Covered(visits, s, d)
    ensures Sized(Walked(b, visits)) && HasTimer(Walked(b, visits), s, d)
    decreases |visits|
  {
    hide Sound, HasTimer, Turned, Covers;
    if visits != [] {
      var init, v := visits[..|visits| - 1], visits[|visits| - 1];
      assert visits == init + [v];
      CoveredOne(v, s, d);
      CoveredConcat(init, [v], s, d);
      WalkedKeeps(b, init, s, d);
      TurnedKeeps(Walked(b, init), v, s, d);
      SoundIsSized(Walked(b, visits));
    }
  }

  /** What follows a node in its list. */
  function Follower(s: seq<int>, e: int): (n: int) {
    if |From(s, e)| <= 1 then NULL else From(s, e)[1]
  }

  lemma {:induction false} FollowerAt(s: seq<int>, k: nat)
    requires k < |s| && Distinct(s)
    ensures From(s, s[k]) == s[k..] && Follower(s, s[k]) == At(s, k + 1)
    decreases k
  {
    if k > 0 {
      assert s[0] != s[k] && s[1..][k - 1] == s[k] && Distinct(s[1..]);
      FollowerAt(s[1..], k - 1);
      assert s[1..][k - 1..] == s[k..];
    }
  }

  /** The timer has its turn still to come. */
  ghost predicate Ahead(b: Books, s: int, e: int, d: int)
    requires Sized(b)
  {
    HasTimer(b, s, d) && d in From(b.events.at[s], e)
  }

  /** What follows an event once its turn is over. */
  ghost function NextEvent(b: Books, v: Seen): (n: int)
    requires Sound(b, NULL) && v.sock < |b.state|
  {
    if v.turn.due && IsReserved(b, v.sock) && HasTimer(b, v.sock, v.event)
    then
      AfterMild(b, v.turn.calls, NULL, NULL, NULL);
      Follower(After(b, v.turn.calls, NULL).events.at[v.sock], v.event)
    else Follower(b.events.at[v.sock], v.event)
  }

  lemma OneOn(b: Books, s: nat, e: nat, d: int)
    requires Sound(b, NULL) && s < |b.state| && e in b.events.at[s] && Ahead(b, s, e, d) && d != e
    ensures var n := Follower(b.events.at[s], e); n != NULL && Ahead(b, s, n, d) && d in From(Minus(b.events.at[s], e), n)
  {
    var list := b.events.at[s];
    var k := Position(list, e);
    assert Distinct(list) by { ListDistinct(b, s); }
    hide Sound, From, Rank, Minus, Distinct;
    FromNext(list, k, d);
    FollowerAt(list, k);
    AtInList(b, s, k + 1);
  }

  lemma ListDistinct(b: Books, s: nat)
    requires Sound(b, NULL) && s < |b.state|
    ensures Distinct(b.events.at[s])
  {
    assert Owned(b.events.at[s], b.events.owner, s);
  }

  lemma AtInList(b: Books, s: nat, k: nat)
    requires Sound(b, NULL) && s < |b.state| && k < |b.events.at[s]|
    ensures At(b.events.at[s], k) == b.events.at[s][k] != NULL
  {
    InList(b.events, s, b.events.at[s][k]);
  }

  /** One turn: every timer behind the event in the list of its socket is behind the next event, unless it is stopped. */
  lemma TurnAhead(b: Books, v: Seen, d: int)
    requires Sound(b, NULL) && IsReserved(b, v.sock) && v.event in b.events.at[v.sock]
    requires Ahead(b, v.sock, v.event, d) && !Covers(v, v.sock, d)
    requires forall i :: 0 <= i < |v.turn.calls| ==> !Stops(v.turn.calls[i], v.event)
    ensures NextEvent(b, v) != NULL && Sized(Turned(b, v)) && Ahead(Turned(b, v), v.sock, NextEvent(b, v), d)
  {
    SoundIsSized(b);
    assert HasTimer(b, v.sock, v.event) && v.turn.due ==> Behind(b, v.sock, v.event, d);
    TurnedKeeps(b, v, v.sock, d);
    hide Sound, From, Rank, HasTimer;
    if v.turn.due && HasTimer(b, v.sock, v.event) {
      assert forall i :: 0 <= i < |v.turn.calls| ==> !Stops(v.turn.calls[i], d);
      AfterBehind(b, v.turn.calls, v.sock, v.event, d, NULL);
      var a := After(b, v.turn.calls, NULL);
      SoundIsSized(a);
      InTimers(a, v.sock, v.event);
      OneOn(a, v.sock, v.event, d);
    } else {
      OneOn(b, v.sock, v.event, d);
    }
  }

  lemma InTimers(b: Books, s: int, e: int)
    requires Sized(b) && HasTimer(b, s, e)
    ensures 0 <= s < |b.state| && e in b.events.at[s]
  {
  }

  // ----- Whole walks -----

  /** Every turn is the reaction to its event, counted from a number on. */
  ghost predicate InTurn(seen: seq<Seen>, react: Reaction, started: nat) {
    forall i :: 0 <= i < |seen| ==> seen[i].turn == react(seen[i].event, started + i)
  }

  lemma InTurnNone(react: Reaction, started: nat)
    ensures InTurn([], react, started)
  {
  }

  lemma InTurnSnoc(seen: seq<Seen>, v: Seen, react: Reaction, started: nat)
    requires InTurn(seen, react, started) && v.turn == react(v.event, started + |seen|)
    ensures InTurn(seen + [v], react, started)
  {
  }

  lemma InTurnConcat(first: seq<Seen>, second: seq<Seen>, react: Reaction, started: nat)
    requires InTurn(first, react, started) && InTurn(second, react, started + |first|)
    ensures InTurn(first + second, react, started)
  {
    var all := first + second;
    forall i | 0 <= i < |all| ensures all[i].turn == react(all[i].event, started + i) {
      if i >= |first| {
        assert all[i] == second[i - |first|];
      }
    }
  }

  /** Every timer of the socket has had its turn, or a callback stopped it. */
  ghost predicate AllSeen(b: Books, s: int, seen: seq<Seen>)
    requires Sized(b)
  {
    forall d :: HasTimer(b, s, d) ==> Covered(seen, s, d)
  }

  ghost predicate Remaining(b: Books, s: int, seen: seq<Seen>, now: Books, e: int)
    requires Sized(b) && Sized(now)
  {
    forall d :: HasTimer(b, s, d) ==> Covered(seen, s, d) || (e != NULL && Ahead(now, s, e, d))
  }

  lemma StartsAhead(b: Books, s: nat)
    requires Sound(b, NULL) && s < |b.state|
    ensures Remaining(b, s, [], b, At(b.events.at[s], 0))
  {
    forall d | HasTimer(b, s, d) ensures At(b.events.at[s], 0) != NULL && Ahead(b, s, At(b.events.at[s], 0), d) {
      AtInList(b, s, 0);
    }
  }

  lemma RemainingStep(b: Books, seen: seq<Seen>, now: Books, v: Seen)
    requires Sound(now, NULL) && Sized(b) && Sized(now) && IsReserved(now, v.sock) && v.event in now.events.at[v.sock]
    requires Remaining(b, v.sock, seen, now, v.event)
    requires forall i :: 0 <= i < |v.turn.calls| ==> !Stops(v.turn.calls[i], v.event)
    ensures Sized(Turned(now, v)) && Remaining(b, v.sock, seen + [v], Turned(now, v), NextEvent(now, v))
  {
    SoundIsSized(Turned(now, v));
    hide Sound, HasTimer, Turned, NextEvent, Ahead, Covers;
    forall d | HasTimer(b, v.sock, d)
      ensures Covered(seen + [v], v.sock, d) || (NextEvent(now, v) != NULL && Ahead(Turned(now, v), v.sock, NextEvent(now, v), d))
    {
      CoveredConcat(seen, [v], v.sock, d);
      if !Covered(seen + [v], v.sock, d) {
        CoveredOne(v, v.sock, d);
        TurnAhead(now, v, d);
      }
    }
  }

  lemma NoneRemains(b: Books, s: int, seen: seq<Seen>, now: Books)
    requires Sized(b) && Sized(now) && Remaining(b, s, seen, now, NULL)
    ensures AllSeen(b, s, seen)
  {
  }

  /** The timers of the sockets that the walk has passed have been seen. */
  ghost predicate Unseen(b: Books, seen: seq<Seen>, reserved: seq<int>, at: int)
    requires Sized(b)
  {
    forall s :: s in b.socks.at[RESERVED] ==> AllSeen(b, s, seen) || (at != NULL && s in From(reserved, at))
  }

  lemma StartsUnseen(b: Books)
    requires Sound(b, NULL)
    ensures Unseen(b, [], b.socks.at[RESERVED], At(b.socks.at[RESERVED], 0))
  {
    var list := b.socks.at[RESERVED];
    if list != [] {
      InList(b.socks, RESERVED, list[0]);
    }
  }

  /** Nodes put in front do not change what comes from a node on. */
  lemma FromEnds(s: seq<int>, end: seq<int>, n: int)
    requires Ends(s, end) && Distinct(s) && n in end
    ensures n in s && Distinct(end) && From(s, n) == From(end, n)
  {
    var k := Position(end, n);
    var d := |s| - |end|;
    assert s[d..][k] == s[d + k];
    assert Distinct(end) by {
      forall i, j | 0 <= i < j < |end| ensures end[i] != end[j] {
        assert end[i] == s[d + i] && end[j] == s[d + j];
      }
    }
    hide Rank;
    FollowerAt(end, k);
    FollowerAt(s, d + k);
    assert s[d + k..] == s[d..][k..];
  }

  lemma SeenMore(b: Books, s: int, seen: seq<Seen>, more: seq<Seen>)
    requires Sized(b) && AllSeen(b, s, seen)
    ensures AllSeen(b, s, seen + more)
  {
    hide HasTimer, Covered;
    forall d | HasTimer(b, s, d) ensures Covered(seen + more, s, d) {
      CoveredConcat(seen, more, s, d);
    }
  }

  /** A walk over a socket after others: its timers are still there, or were seen or stopped before. */
  lemma SeenLater(b: Books, s: int, seen: seq<Seen>, more: seq<Seen>)
    requires Sound(b, NULL) && Sized(b) && Sized(Walked(b, seen)) && AllSeen(Walked(b, seen), s, more)
    ensures AllSeen(b, s, seen + more)
  {
    hide HasTimer, Covered, Walked, Sound;
    forall d | HasTimer(b, s, d) ensures Covered(seen + more, s, d) {
      CoveredConcat(seen, more, s, d);
      if !Covered(seen, s, d) {
        WalkedKeeps(b, seen, s, d);
      }
    }
  }

  /** The socket at which the walk stands has been seen; those behind it are behind the next one. */
  lemma UnseenStep(b: Books, seen: seq<Seen>, more: seq<Seen>, before: seq<int>, at: int, now: Books)
    requires Sound(b, NULL) && Sized(b) && Sized(Walked(b, seen)) && AllSeen(Walked(b, seen), at, more)
    requires Unseen(b, seen, before, at) && at in before
    requires Sound(now, NULL) && Sized(now) && Ends(now.socks.at[RESERVED], before)
    ensures Unseen(b, seen + more, now.socks.at[RESERVED], Follower(now.socks.at[RESERVED], at))
  {
    var list := now.socks.at[RESERVED];
    assert Distinct(list) && forall n :: n in list ==> n >= 0 by { SocksDistinct(now); }
    FromEnds(list, before, at);
    var k := Position(list, at);
    FollowerAt(list, k);
    hide Sound, AllSeen, From, Rank, Walked, Ends, Distinct, Follower;
    SeenLater(b, at, seen, more);
    forall s | s in b.socks.at[RESERVED]
      ensures AllSeen(b, s, seen + more) || (Follower(list, at) != NULL && s in From(list, Follower(list, at)))
    {
      if AllSeen(b, s, seen) {
        SeenMore(b, s, seen, more);
      } else if s != at {
        FromNext(list, k, s);
      }
    }
  }

  lemma SocksDistinct(b: Books)
    requires Sound(b, NULL)
    ensures Sized(b) && Distinct(b.socks.at[RESERVED]) && forall n :: n in b.socks.at[RESERVED] ==> n >= 0
  {
    assert Owned(b.socks.at[RESERVED], b.socks.owner, RESERVED);
  }

  lemma AllWereSeen(b: Books, seen: seq<Seen>, reserved: seq<int>)
    requires Sized(b) && Unseen(b, seen, reserved, NULL)
    ensures forall s: nat :: s in b.socks.at[RESERVED] ==> AllSeen(b, s, seen)
  {
    hide AllSeen;
  }
}
