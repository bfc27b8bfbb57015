/** What the calls of a callback and the turns of the timers come to, told of sockets, events and operations. */
module EventMeanings {
  import opened LinkedList
  import opened EventSpec
  import opened EventCalls
  import opened EventTimers

  /**
   * The state of every reserved socket after a call: listening, connected and closing come from event_listen, event_accept
   * and event_close alone, each under its assertion, and a created socket starts closed.
   */
  lemma StateIs(b: Books, call: Call, s: nat, held: int)
    requires Sound(b, held) && s < |b.state| && IsReserved(Do(b, call, held), s)
    ensures Do(b, call, held).state[s] ==
            if !IsReserved(b, s) then SockState.Closed
            else if call == CloseSock(s) then SockState.Closing
            else if call == Add(s, Connection) && b.state[s] == SockState.Closed && b.events.at[|b.state|] != [] then Listening
            else if call.Accept? && call.client == s && call.ok && b.state[s] == SockState.Closed
                    && IsReserved(b, call.server) && b.state[call.server] == Listening then Connected
            else b.state[s]
  {
    if b.socks.at[UNUSED] != [] {
      FirstIsOwned(b.socks, UNUSED);
    }
    hide Arranged, EventOf, FirstOf, Minus, SocketsKept, QueuesKept;
  }

  /** Which sockets are reserved: event_sock_create takes the first unused one, and no call gives one up. */
  lemma ReservedIs(b: Books, call: Call, held: int)
    requires Sound(b, held)
    ensures var at, at' := b.socks.at, Do(b, call, held).socks.at;
            if call == Create && at[UNUSED] != []
            then at[UNUSED] == [at'[RESERVED][0]] + at'[UNUSED] && at'[RESERVED] == [at[UNUSED][0]] + at[RESERVED]
            else at' == at
  {
    if b.socks.at[UNUSED] != [] {
      FirstIsOwned(b.socks, UNUSED);
    }
    hide Arranged, EventOf, FirstOf, Minus, SocketsKept, QueuesKept;
  }

  /** A new event: the first free one, in front of the others of its socket, of the kind that was asked for and open. */
  lemma AddMeans(b: Books, s: nat, k: Kind, held: int)
    requires Sound(b, held) && MayAdd(b, s, k)
    ensures var b', e := Do(b, Add(s, k), held), b.events.at[|b.state|][0];
            && 0 <= e < |b.kind| && b'.events.at[s] == [e] + b.events.at[s]
            && b'.kind[e] == k && !b'.ended[e] && b'.ops.at[e] == []
            && EventOf(b', s, k) == e
            && (forall t :: 0 <= t < |b.state| && t != s ==> b'.events.at[t] == b.events.at[t])
            && (forall d :: 0 <= d < |b.kind| && d != e ==> b'.kind[d] == b.kind[d] && b'.ended[d] == b.ended[d])
  {
    AddedSound(b, s, k, held);
    FirstIsOwned(b.events, |b.state|);
    hide Arranged, SocketsKept, QueuesKept, HoldsOnly;
  }

  /** A stopped event is taken out of the list of its socket, the others stay in order, and it is the first free one. */
  lemma StopMeans(b: Books, call: Call, s: nat, e: nat, held: int)
    requires Sound(b, held) && IsReserved(b, s) && e < |b.kind| && e in b.events.at[s]
    requires if call == StopRead(s) then e == EventOf(b, s, Read) else call == StopTimer(s, e) && b.kind[e] == Timer
    ensures var b' := Do(b, call, held);
            && b'.events.at[|b.state|] == [e] + b.events.at[|b.state|]
            && (exists k: nat :: k < |b.events.at[s]| && b.events.at[s][k] == e && b'.events.at[s] == Remove(b.events.at[s], k))
            && (forall t :: 0 <= t < |b.state| && t != s ==> b'.events.at[t] == b.events.at[t])
            && b'.state == b.state && b'.kind == b.kind && b'.ended == b.ended && b'.ops == b.ops
  {
    var list := b.events.at[s];
    var k := Position(list, e);
    assert Distinct(list) by {
      assert Owned(list, b.events.owner, s);
    }
    MinusIsRemove(list, k);
    hide Arranged, SocketsKept, QueuesKept, HoldsOnly, Minus, FirstOf, Remove;
  }

  /** A write waits behind those that came before it, with the first free operation. */
  lemma QueueMeans(b: Books, s: nat, held: int)
    requires Sound(b, held) && IsReserved(b, s)
    ensures var b', e := Do(b, QueueWrite(s), held), EventOf(b, s, Write);
            if b.state[s] == Connected && e != NULL && !b.ended[e] && b.ops.at[|b.kind|] != []
            then
              && b'.ops.at[e] == b.ops.at[e] + [b.ops.at[|b.kind|][0]]
              && b.ops.at[|b.kind|] == [b.ops.at[|b.kind|][0]] + b'.ops.at[|b.kind|]
              && (forall d :: 0 <= d < |b.kind| && d != e ==> b'.ops.at[d] == b.ops.at[d])
              && b'.state == b.state && b'.events == b.events && b'.kind == b.kind && b'.ended == b.ended
            else b' == b
  {
    Firsts(b, held);
    NoEvent(b, s, Write, held);
    hide Arranged, SocketsKept, QueuesKept, HoldsOnly, FirstOf;
  }

  /** After event_close the socket takes no more writes, whatever callbacks do. */
  lemma {:induction false} ClosedTakesNoWrites(b: Books, calls: seq<Call>, s: nat, held: int)
    requires Sound(b, held) && IsReserved(b, s)
    ensures !WritesOn(Do(b, CloseSock(s), held), calls, s, held)
  {
    DoSound(b, CloseSock(s), held);
    DoState(b, CloseSock(s), s, held);
    hide Do, Sound, IsReserved;
    StaysClosing(Do(b, CloseSock(s), held), calls, s, held);
  }

  lemma {:induction false} StaysClosing(b: Books, calls: seq<Call>, s: nat, held: int)
    requires Sound(b, held) && IsReserved(b, s) && b.state[s] == SockState.Closing
    ensures !WritesOn(b, calls, s, held)
    decreases |calls|
  {
    if calls != [] {
      DoSound(b, calls[0], held);
      DoState(b, calls[0], s, held);
      hide Do, Sound, IsReserved;
      StaysClosing(Do(b, calls[0], held), calls[1..], s, held);
    }
  }

  // ----- Timers -----

  /**
   * The callback of a timer runs exactly when the timer is due; the timer stays with its socket unless the callback says so
   * or stops it, and is the first free event otherwise.
   */
  lemma TurnMeans(b: Books, v: Seen)
    requires Sound(b, NULL) && IsReserved(b, v.sock) && HasTimer(b, v.sock, v.event)
    requires forall i :: 0 <= i < |v.turn.calls| ==> !Stops(v.turn.calls[i], v.event)
    ensures !v.turn.due ==> Turned(b, v) == b
    ensures v.turn.due && !v.turn.remove ==> Turned(b, v) == After(b, v.turn.calls, NULL)
    ensures Sized(Turned(b, v)) && (HasTimer(Turned(b, v), v.sock, v.event) <==> !(v.turn.due && v.turn.remove))
    ensures var a, r := After(b, v.turn.calls, NULL), Turned(b, v);
            v.turn.due && v.turn.remove ==>
              && |r.state| < |r.events.at| && r.events.at[|r.state|] != [] && r.events.at[|r.state|][0] == v.event
              && r.state == a.state && r.kind == a.kind && r.ended == a.ended && r.socks == a.socks && r.ops == a.ops
  {
    SoundIsSized(b);
    SoundIsSized(Turned(b, v));
    if v.turn.due {
      AfterMild(b, v.turn.calls, v.sock, v.event, NULL);
      AfterReserved(b, v.turn.calls, v.sock);
      var a := After(b, v.turn.calls, NULL);
      if v.turn.remove {
        DroppedIsGone(a, v.sock, v.event);
      }
    }
    hide Sound, HasTimer, After;
  }

  lemma {:induction false} AfterReserved(b: Books, calls: seq<Call>, s: nat)
    requires Sound(b, NULL) && IsReserved(b, s)
    ensures IsReserved(After(b, calls, NULL), s)
    decreases |calls|
  {
    if calls != [] {
      DoSound(b, calls[0], NULL);
      DoState(b, calls[0], s, NULL);
      hide Do, Sound, IsReserved;
      AfterReserved(Do(b, calls[0], NULL), calls[1..], s);
    }
  }

  lemma DroppedIsGone(b: Books, s: nat, e: nat)
    requires Sound(b, NULL) && IsReserved(b, s) && HasTimer(b, s, e)
    ensures var r := Dropped(b, s, e);
            Sized(r) && !HasTimer(r, s, e) && r.events.at[|b.state|] == [e] + b.events.at[|b.state|]
  {
    DroppedSound(b, s, e, NULL);
    InList(Dropped(b, s, e).events, s, e);
    hide Arranged, Minus;
  }

  /** When no timer is due, the walk changes nothing. */
  lemma {:induction false} NothingDue(b: Books, seen: seq<Seen>)
    requires Sound(b, NULL) && forall i :: 0 <= i < |seen| ==> !seen[i].turn.due
    ensures Walked(b, seen) == b
    decreases |seen|
  {
    if seen != [] {
      NothingDue(b, seen[..|seen| - 1]);
    }
    hide Sound;
  }
}
