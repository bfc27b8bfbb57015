/**
 * What callbacks that call back into the loop can and cannot do: to the list being walked, to a timer whose
 * callback is running, and to a socket that is being closed.
 */
module EventCalls {
  import opened LinkedList
  import opened EventSpec

  /** How far a node is from the end of its list. */
  function Rank(s: seq<int>, e: int): (r: nat)
    ensures r <= |s| && (r > 0 <==> e in s)
  {
    if s == [] then 0 else if s[0] == e then |s| else Rank(s[1..], e)
  }

  lemma Position(s: seq<int>, e: int) returns (k: nat)
    requires e in s
    ensures k < |s| && s[k] == e
  {
    k :| k < |s| && s[k] == e;
  }

  /** The rank of a node whose list has no node twice. */
  lemma {:induction false} RankAt(s: seq<int>, k: nat)
    requires k < |s| && Distinct(s)
    ensures Rank(s, s[k]) == |s| - k
    decreases |s|
  {
    if k > 0 {
      assert s[0] != s[k] && s[1..][k - 1] == s[k];
      RankAt(s[1..], k - 1);
    }
  }

  lemma EndsKeeps(s: seq<int>, end: seq<int>, n: int)
    requires Ends(s, end) && n in end
    ensures n in s
  {
    assert n in s[|s| - |end|..];
  }

  lemma EndsSelf(s: seq<int>)
    ensures Ends(s, s)
  {
  }

  lemma EndsTransitive(s: seq<int>, t: seq<int>, u: seq<int>)
    requires Ends(s, t) && Ends(t, u)
    ensures Ends(s, u)
  {
    assert s[|s| - |u|..] == s[|s| - |t|..][|t| - |u|..];
  }

  /** What follows a node is nearer to the end, also when the node is removed. */
  lemma RankNext(s: seq<int>, k: nat)
    requires k < |s| && Distinct(s)
    ensures k + 1 < |s| ==> Rank(s, s[k + 1]) < Rank(s, s[k])
    ensures k + 1 < |s| ==> s[k + 1] in Remove(s, k) && Rank(Remove(s, k), s[k + 1]) < Rank(s, s[k])
  {
    RankAt(s, k);
    if k + 1 < |s| {
      RankAt(s, k + 1);
      RemoveDistinct(s, k);
      hide Rank, Distinct, Remove;
      RankAt(Remove(s, k), k);
    }
  }

  lemma RemoveDistinct(s: seq<int>, k: nat)
    requires k < |s| && Distinct(s)
    ensures Distinct(Remove(s, k)) && |Remove(s, k)| == |s| - 1
    ensures k + 1 < |s| ==> Remove(s, k)[k] == s[k + 1]
  {
    var r := Remove(s, k);
    forall i, j | 0 <= i < j < |r| ensures r[i] != r[j] {
      assert r[i] == s[if i < k then i else i + 1] && r[j] == s[if j < k then j else j + 1];
    }
  }

  /** Nodes put in front change no rank. */
  lemma RankEnds(s: seq<int>, end: seq<int>, n: int)
    requires Ends(s, end) && Distinct(s) && n in end
    ensures n in s && Rank(s, n) == Rank(end, n)
  {
    var k := Position(end, n);
    var d := |s| - |end|;
    assert s[d..][k] == s[d + k];
    assert Distinct(end) by {
      forall i, j | 0 <= i < j < |end| ensures end[i] != end[j] {
        assert end[i] == s[d + i] && end[j] == s[d + j];
      }
    }
    hide Rank;
    RankAt(end, k);
    RankAt(s, d + k);
  }

  ghost predicate Ends(s: seq<int>, end: seq<int>) {
    |end| <= |s| && s[|s| - |end|..] == end
  }

  ghost predicate HasTimer(b: Books, s: int, e: int)
    requires Sized(b)
  {
    0 <= s < |b.state| && 0 <= e < |b.kind| && b.kind[e] == Timer && e in b.events.at[s]
  }

  /** A write event stays with its socket, and does not open again. */
  ghost predicate WritersStay(b: Books, b': Books)
    requires Sized(b) && Sized(b') && |b.kind| == |b'.kind|
  {
    forall e :: 0 <= e < |b.kind| && b.kind[e] == Write && b.events.owner[e] < |b.state| ==>
      b'.kind[e] == Write && b'.events.owner[e] == b.events.owner[e] && (b.ended[e] ==> b'.ended[e])
  }

  /** Sockets are added in front only, write events stay, and timer e of socket s is left where it is. */
  ghost predicate Mild(b: Books, b': Books, s: int, e: int) {
    && Sized(b) && Sized(b') && |b.state| == |b'.state| && |b.kind| == |b'.kind| && |b.ops.owner| == |b'.ops.owner|
    && Ends(b'.socks.at[RESERVED], b.socks.at[RESERVED]) && WritersStay(b, b')
    && (HasTimer(b, s, e) ==> HasTimer(b', s, e) && Rank(b'.events.at[s], e) <= Rank(b.events.at[s], e))
  }

  lemma MildSelf(b: Books, s: int, e: int)
    requires Sized(b)
    ensures Mild(b, b, s, e)
  {
    EndsSelf(b.socks.at[RESERVED]);
  }

  lemma MildTransitive(a: Books, b: Books, c: Books, s: int, e: int)
    requires Mild(a, b, s, e) && Mild(b, c, s, e)
    ensures Mild(a, c, s, e)
  {
    hide HasTimer, Ends;
    EndsTransitive(c.socks.at[RESERVED], b.socks.at[RESERVED], a.socks.at[RESERVED]);
  }

  lemma {:induction false} RankMinus(s: seq<int>, n: int, e: int)
    requires n != e
    ensures Rank(Minus(s, n), e) <= Rank(s, e) && (e in s ==> e in Minus(s, n))
  {
    if s != [] {
      RankMinus(s[1..], n, e);
      var m := Minus(s, n);
      if s[0] != n {
        assert m[1..] == Minus(s[1..], n);
        MinusIsShorter(s[1..], n);
      }
    }
  }

  lemma {:induction false} MinusIsShorter(s: seq<int>, n: int)
    ensures |Minus(s, n)| <= |s|
  {
    if s != [] {
      MinusIsShorter(s[1..], n);
    }
  }

  lemma CreatedMild(b: Books, s: int, e: int, held: int)
    requires Sound(b, held) && b.socks.at[UNUSED] != []
    ensures 0 <= b.socks.at[UNUSED][0] < |b.state| && Mild(b, Created(b), s, e)
  {
    FirstIsOwned(b.socks, UNUSED);
  }

  lemma AddedMild(b: Books, t: nat, k: Kind, s: int, e: int, held: int)
    requires Sound(b, held) && MayAdd(b, t, k)
    ensures 0 <= b.events.at[|b.state|][0] < |b.kind| && Mild(b, Added(b, t, k), s, e)
  {
    FirstIsOwned(b.events, |b.state|);
    var n := b.events.at[|b.state|][0];
    EndsSelf(b.socks.at[RESERVED]);
    if HasTimer(b, s, e) {
      InList(b.events, s, e);
      assert ([n] + b.events.at[s])[1..] == b.events.at[s];
    }
    hide Arranged, FirstOf;
  }

  lemma DroppedMild(b: Books, t: nat, n: nat, s: int, e: int, held: int)
    requires Sound(b, held) && IsReserved(b, t) && n < |b.kind| && n in b.events.at[t] && b.kind[n] != Write
    requires HasTimer(b, s, e) ==> n != e
    ensures Mild(b, Dropped(b, t, n), s, e)
  {
    EndsSelf(b.socks.at[RESERVED]);
    hide Arranged, Minus, Rank;
    if n != e {
      RankMinus(b.events.at[t], n, e);
    }
  }

  lemma QueuedMild(b: Books, n: nat, s: int, e: int)
    requires Sized(b) && n < |b.kind| && b.ops.at[|b.kind|] != [] && 0 <= b.ops.at[|b.kind|][0] < |b.ops.owner|
    ensures Mild(b, Queued(b, n), s, e)
  {
    EndsSelf(b.socks.at[RESERVED]);
  }

  lemma EndingMild(b: Books, t: nat, s: int, e: int)
    requires Sized(b) && t < |b.state|
    ensures Mild(b, Ending(b, t), s, e)
  {
    EndsSelf(b.socks.at[RESERVED]);
  }

  /** One call of a callback, for any timer but e of socket s. */
  lemma DoMild(b: Books, call: Call, s: int, e: int, held: int)
    requires Sound(b, held) && !(call.StopTimer? && call.timer == e)
    ensures Mild(b, Do(b, call, held), s, e)
  {
    MildSelf(b, s, e);
    Firsts(b, held);
    hide Added, Created, Dropped, Queued, Ending, EventOf, SocketsKept, QueuesKept, HoldsOnly, Arranged, Mild;
    match call
    case Create => if b.socks.at[UNUSED] != [] { CreatedMild(b, s, e, held); }
    case Add(t, k) => if MayAdd(b, t, k) { AddedMild(b, t, k, s, e, held); }
    case StopRead(t) =>
      if IsReserved(b, t) && EventOf(b, t, Read) != NULL { DroppedMild(b, t, EventOf(b, t, Read), s, e, held); }
    case StopTimer(t, n) =>
      if IsReserved(b, t) && n < |b.kind| && n in b.events.at[t] && b.kind[n] == Timer { DroppedMild(b, t, n, s, e, held); }
    case QueueWrite(t) => if MayWrite(b, t) { QueuedMild(b, EventOf(b, t, Write), s, e); }
    case CloseSock(t) => if IsReserved(b, t) { EndingMild(b, t, s, e); }
    case Accept(server, client, ok) => AcceptedMild(b, client, s, e);
  }

  lemma AcceptedMild(b: Books, client: nat, s: int, e: int)
    requires Sized(b)
    ensures client < |b.state| ==> Mild(b, b.(state := b.state[client := Connected]), s, e)
  {
    EndsSelf(b.socks.at[RESERVED]);
  }

  lemma {:induction false} AfterMild(b: Books, calls: seq<Call>, s: int, e: int, held: int)
    requires Sound(b, held) && forall i :: 0 <= i < |calls| ==> !(calls[i].StopTimer? && calls[i].timer == e)
    ensures Mild(b, After(b, calls, held), s, e)
    decreases |calls|
  {
    assert Sized(b);
    hide Do, Sound, Mild;
    MildSelf(b, s, e);
    if calls != [] {
      var b' := Do(b, calls[0], held);
      DoSound(b, calls[0], held);
      DoMild(b, calls[0], s, e, held);
      AfterMild(b', calls[1..], s, e, held);
      MildTransitive(b, b', After(b', calls[1..], held), s, e);
    }
  }

  /** An operation that is told: it is in no list while its callback runs, and free afterwards. */
  ghost function Told(b: Books, e: nat, calls: seq<Call>): (r: Books)
    requires Sound(b, NULL) && e < |b.kind| && b.ops.at[e] != []
    ensures Sound(r, NULL)
  {
    HeldSound(b, e);
    var op := b.ops.at[e][0];
    AfterMild(Held(b, e), calls, NULL, NULL, op);
    FreedSound(After(Held(b, e), calls, op), op);
    Freed(After(Held(b, e), calls, op), op)
  }

  // ----- Sockets that are being closed -----

  /** No operation waits for the socket. */
  ghost predicate Idle(b: Books, s: int)
    requires Sized(b)
  {
    forall e :: 0 <= e < |b.kind| && b.events.owner[e] == s ==> b.ops.at[e] == []
  }

  /** What event_loop_close looks for: the socket is closing and no operation waits for it. */
  ghost predicate Doomed(b: Books, s: int)
    requires Sized(b)
  {
    IsReserved(b, s) && b.state[s] == Closing && Idle(b, s)
  }

  /** The call is a write on the socket and its guard passes. */
  ghost predicate Writes(b: Books, call: Call, s: int)
    requires Sized(b)
  {
    call.QueueWrite? && call.sock == s && MayWrite(b, call.sock)
  }

  /** Some call of a callback is a write on the socket whose guard passes when its turn comes. */
  ghost predicate WritesOn(b: Books, calls: seq<Call>, s: int, held: int)
    requires Sound(b, held)
    decreases |calls|
  {
    if calls == [] then false
    else
      DoSound(b, calls[0], held);
      Writes(b, calls[0], s) || WritesOn(Do(b, calls[0], held), calls[1..], s, held)
  }

  lemma AddedIdle(b: Books, t: nat, k: Kind, s: int, held: int)
    requires Sound(b, held) && MayAdd(b, t, k) && 0 <= s < |b.state|
    ensures 0 <= b.events.at[|b.state|][0] < |b.kind| && Sized(Added(b, t, k))
    ensures Idle(Added(b, t, k), s) <==> Idle(b, s)
  {
    AddedSound(b, t, k, held);
    FirstIsOwned(b.events, |b.state|);
    var n, b' := b.events.at[|b.state|][0], Added(b, t, k);
    hide Arranged, FirstOf;
    assert forall e :: 0 <= e < |b.kind| && e != n ==> b'.events.owner[e] == b.events.owner[e];
    if Idle(b', s) {
      forall e | 0 <= e < |b.kind| && b.events.owner[e] == s ensures b.ops.at[e] == [] {
        assert b'.events.owner[e] == s;
      }
    }
  }

  lemma DroppedIdle(b: Books, t: nat, n: nat, s: int, held: int)
    requires Sound(b, held) && IsReserved(b, t) && n < |b.kind| && n in b.events.at[t] && b.kind[n] != Write
    requires 0 <= s < |b.state|
    ensures Sized(Dropped(b, t, n)) && (Idle(Dropped(b, t, n), s) <==> Idle(b, s))
  {
    var b' := Dropped(b, t, n);
    hide Arranged, Minus;
    assert b.ops.at[n] == [];
    if Idle(b', s) {
      forall e | 0 <= e < |b.kind| && b.events.owner[e] == s ensures b.ops.at[e] == [] {
        assert e != n ==> b'.events.owner[e] == s;
      }
    }
  }

  lemma QueuedIdle(b: Books, t: nat, s: int, held: int)
    requires Sound(b, held) && MayWrite(b, t) && 0 <= s < |b.state|
    ensures 0 <= b.ops.at[|b.kind|][0] < |b.ops.owner| && Sized(Queued(b, EventOf(b, t, Write)))
    ensures Idle(Queued(b, EventOf(b, t, Write)), s) <==> Idle(b, s) && s != t
  {
    Firsts(b, held);
    NoEvent(b, t, Write, held);
    var n := EventOf(b, t, Write);
    var b' := Queued(b, n);
    hide Arranged, FirstOf;
    assert b'.ops.at[n] != [] && forall e :: 0 <= e < |b.kind| && e != n ==> b'.ops.at[e] == b.ops.at[e];
    if Idle(b', s) {
      forall e | 0 <= e < |b.kind| && b.events.owner[e] == s ensures b.ops.at[e] == [] {
        assert b'.ops.at[e] == [];
      }
    }
  }

  /** Operations come to a socket by a write on it and by nothing else, and none goes away. */
  lemma DoIdleIff(b: Books, call: Call, s: int, held: int)
    requires Sound(b, held) && 0 <= s < |b.state|
    ensures Sized(Do(b, call, held)) && (Idle(Do(b, call, held), s) <==> Idle(b, s) && !Writes(b, call, s))
  {
    DoSound(b, call, held);
    hide Added, Dropped, Queued, EventOf, SocketsKept, QueuesKept, HoldsOnly, Arranged;
    match call
    case Create =>
    case Add(t, k) => if MayAdd(b, t, k) { AddedIdle(b, t, k, s, held); }
    case StopRead(t) =>
      if IsReserved(b, t) && EventOf(b, t, Read) != NULL { DroppedIdle(b, t, EventOf(b, t, Read), s, held); }
    case StopTimer(t, n) =>
      if IsReserved(b, t) && n < |b.kind| && n in b.events.at[t] && b.kind[n] == Timer { DroppedIdle(b, t, n, s, held); }
    case QueueWrite(t) => if MayWrite(b, t) { QueuedIdle(b, t, s, held); }
    case CloseSock(_) =>
    case Accept(_, _, _) =>
  }

  lemma {:induction false} AfterIdleIff(b: Books, calls: seq<Call>, s: int, held: int)
    requires Sound(b, held) && 0 <= s < |b.state|
    ensures Sized(After(b, calls, held))
    ensures Idle(After(b, calls, held), s) <==> Idle(b, s) && !WritesOn(b, calls, s, held)
    decreases |calls|
  {
    if calls != [] {
      DoSound(b, calls[0], held);
      DoIdleIff(b, calls[0], s, held);
      DoSizes(b, calls[0], held);
      hide Do, Sound, Idle, Writes;
      AfterIdleIff(Do(b, calls[0], held), calls[1..], s, held);
    }
  }

  lemma DoSizes(b: Books, call: Call, held: int)
    requires Sound(b, held)
    ensures |Do(b, call, held).state| == |b.state| && |Do(b, call, held).kind| == |b.kind|
  {
    hide Do, Sound;
    DoMild(b, call, NULL, NULL, held);
  }

  /** Only event_sock_create changes which sockets are reserved. */
  lemma {:induction false} AfterSocks(b: Books, calls: seq<Call>, held: int)
    requires Sound(b, held) && Create !in calls
    ensures After(b, calls, held).socks == b.socks && |After(b, calls, held).state| == |b.state|
    decreases |calls|
  {
    if calls != [] {
      DoSound(b, calls[0], held);
      DoSizes(b, calls[0], held);
      DoSocks(b, calls[0], held);
      hide Do, Sound;
      AfterSocks(Do(b, calls[0], held), calls[1..], held);
    }
  }

  lemma DoSocks(b: Books, call: Call, held: int)
    requires Sound(b, held) && call != Create
    ensures Do(b, call, held).socks == b.socks
  {
    hide EventOf, Minus;
  }

  /** The state of a reserved socket changes by calls that name it. */
  lemma DoState(b: Books, call: Call, s: nat, held: int)
    requires Sound(b, held) && IsReserved(b, s)
    ensures var b' := Do(b, call, held);
            && IsReserved(b', s)
            && (b'.state[s] == Closing <==> b.state[s] == Closing || call == CloseSock(s))
            && (b'.state[s] == Connected ==> b.state[s] == Connected || (call.Accept? && call.client == s && call.ok))
  {
    hide EventOf, Minus;
    if call == Create && b.socks.at[UNUSED] != [] {
      FirstIsOwned(b.socks, UNUSED);
    }
  }

  /** A socket that event_loop_close is to find stays so, whatever the callbacks of others do. */
  lemma DoDoomed(b: Books, call: Call, s: nat, held: int)
    requires Sound(b, held)
    ensures Sized(Do(b, call, held))
    ensures Doomed(b, s) ==> Doomed(Do(b, call, held), s)
    ensures IsReserved(b, s) && !Doomed(b, s) && call != CloseSock(s) ==> !Doomed(Do(b, call, held), s)
  {
    DoSound(b, call, held);
    if IsReserved(b, s) {
      DoState(b, call, s, held);
      DoIdleIff(b, call, s, held);
    }
    hide Do, Idle, EventOf;
  }

  lemma {:induction false} AfterDoomed(b: Books, calls: seq<Call>, s: nat, held: int)
    requires Sound(b, held)
    ensures Sized(After(b, calls, held))
    ensures Doomed(b, s) ==> Doomed(After(b, calls, held), s)
    ensures IsReserved(b, s) && !Doomed(b, s) && CloseSock(s) !in calls ==>
              IsReserved(After(b, calls, held), s) && !Doomed(After(b, calls, held), s)
    decreases |calls|
  {
    if calls != [] {
      DoSound(b, calls[0], held);
      DoDoomed(b, calls[0], s, held);
      if IsReserved(b, s) {
        DoState(b, calls[0], s, held);
      }
      assert Sized(b) && (Doomed(b, s) ==> IsReserved(b, s));
      hide Do, Sound, Doomed, IsReserved;
      AfterDoomed(Do(b, calls[0], held), calls[1..], s, held);
    }
  }

  /** No call accepts a connection on the socket. */
  ghost predicate NeverAccepts(calls: seq<Call>, s: int) {
    forall i :: 0 <= i < |calls| ==> !(calls[i].Accept? && calls[i].client == s && calls[i].ok)
  }

  /** A callback that accepts no connection on the socket that is being closed loses no operation. */
  lemma {:induction false} NoAcceptNoWrite(b: Books, calls: seq<Call>, s: nat, held: int)
    requires Sound(b, held) && IsReserved(b, s) && b.state[s] != Connected && NeverAccepts(calls, s)
    ensures !WritesOn(b, calls, s, held)
    decreases |calls|
  {
    if calls != [] {
      DoSound(b, calls[0], held);
      DoState(b, calls[0], s, held);
      hide Do, Sound, IsReserved;
      NoAcceptNoWrite(Do(b, calls[0], held), calls[1..], s, held);
    }
  }

  /** Nor does any callback when the socket has a write event, because event_close has ended its ring. */
  lemma {:induction false} WriterBlocks(b: Books, calls: seq<Call>, s: nat, e: nat, held: int)
    requires Sound(b, held) && IsReserved(b, s)
    requires e < |b.kind| && b.events.owner[e] == s && b.kind[e] == Write && b.ended[e]
    ensures !WritesOn(b, calls, s, held)
    decreases |calls|
  {
    if calls != [] {
      DoSound(b, calls[0], held);
      DoState(b, calls[0], s, held);
      DoMild(b, calls[0], NULL, NULL, held);
      OnlyWriter(b, s, e, held);
      hide Do, Sound, IsReserved, Ends;
      WriterBlocks(Do(b, calls[0], held), calls[1..], s, e, held);
    }
  }

  lemma OnlyWriter(b: Books, s: nat, e: nat, held: int)
    requires Sound(b, held) && s < |b.state| && e < |b.kind| && b.events.owner[e] == s && b.kind[e] == Write
    ensures EventOf(b, s, Write) == e
  {
    NoEvent(b, s, Write, held);
    hide Arranged, FirstOf;
  }

  lemma AfterOne(b: Books, call: Call, calls: seq<Call>, held: int)
    requires Sound(b, held)
    ensures Sound(Do(b, call, held), held)
    ensures After(b, [call] + calls, held) == After(Do(b, call, held), calls, held)
    ensures forall s :: WritesOn(b, [call] + calls, s, held) <==> Writes(b, call, s) || WritesOn(Do(b, call, held), calls, s, held)
  {
    DoSound(b, call, held);
    hide Do, Sound, Writes;
    assert ([call] + calls)[1..] == calls;
  }

  lemma {:induction false} FirstOfElsewhere(list: seq<int>, kind: seq<Kind>, e: nat, x: Kind, k: Kind)
    requires e < |kind| && e !in list
    ensures FirstOf(list, kind[e := x], k) == FirstOf(list, kind, k)
  {
    if list != [] {
      FirstOfElsewhere(list[1..], kind, e, x, k);
    }
  }

  /** A connected socket gets an event of a kind it did not have; its other events stay. */
  lemma AddsOne(b: Books, s: nat, k: Kind, held: int)
    requires Sound(b, held) && MayAdd(b, s, k) && k != Connection
    ensures var b', other := Do(b, Add(s, k), held), if k == Write then Read else Write;
            && Sized(b') && b'.ops.at == b.ops.at && b'.socks == b.socks && b'.state == b.state && |b'.kind| == |b.kind|
            && EventOf(b', s, k) != NULL && !b'.ended[EventOf(b', s, k)]
            && (EventOf(b, s, other) == NULL <==> EventOf(b', s, other) == NULL)
            && b'.events.at[|b.state|] == b.events.at[|b.state|][1..]
  {
    AddedSound(b, s, k, held);
    FirstIsOwned(b.events, |b.state|);
    var e, list, other := b.events.at[|b.state|][0], b.events.at[s], if k == Write then Read else Write;
    InList(b.events, s, e);
    var b' := Added(b, s, k);
    assert b'.events.at[s] == [e] + list && b'.events.at[s][0] == e && b'.kind[e] == k && b'.events.at[s][1..] == list;
    FirstOfElsewhere(list, b.kind, e, k, other);
    hide Arranged, SocketsKept, QueuesKept, HoldsOnly;
  }

  /**
   * The callback that loses an operation: it accepts a connection on the very socket that is being closed, enables
   * writing on it and writes, where the socket had no write event and the pools are not exhausted.
   */
  lemma AcceptOnClosedLosesWrite(b: Books, server: nat, s: nat, held: int)
    requires Sound(b, held) && IsReserved(b, s) && b.state[s] == Closed && EventOf(b, s, Write) == NULL
    requires IsReserved(b, server) && b.state[server] == Listening
    requires b.events.at[|b.state|] != [] && b.ops.at[|b.kind|] != []
    ensures WritesOn(b, [Accept(server, s, true)] + ([Add(s, Write)] + ([QueueWrite(s)] + [])), s, held)
  {
    var b1 := Do(b, Accept(server, s, true), held);
    AfterOne(b, Accept(server, s, true), [Add(s, Write)] + ([QueueWrite(s)] + []), held);
    assert b1 == b.(state := b.state[s := Connected]);
    AfterOne(b1, Add(s, Write), [QueueWrite(s)] + [], held);
    assert MayAdd(b1, s, Write);
    AddsOne(b1, s, Write, held);
    var b2 := Do(b1, Add(s, Write), held);
    AfterOne(b2, QueueWrite(s), [], held);
    hide Do, Sound, WritesOn, FirstOf;
  }

  /**
   * The server's own connection callback: the first unused socket is taken, the connection is accepted on it, and it
   * is read from and written to.
   */
  lemma ConnectionCallback(b: Books, server: nat, held: int)
    requires Sound(b, held) && IsReserved(b, server) && b.state[server] == Listening
    requires b.socks.at[UNUSED] != [] && |b.events.at[|b.state|]| >= 2 && b.ops.at[|b.kind|] != []
    ensures var s := b.socks.at[UNUSED][0];
            && 0 <= s < |b.state|
            && var b' := After(b, [Create] + ([Accept(server, s, true)] + ([Add(s, Read)] + ([Add(s, Write)] + []))), held);
               Sized(b') && MayWrite(b', s) && EventOf(b', s, Read) != NULL
  {
    CreatesOne(b, held);
    hide Do, Sound, FirstOf, EventOf, After, WritesOn;
    var s := b.socks.at[UNUSED][0];
    Greets(b, server, [Add(s, Read)] + ([Add(s, Write)] + []), held);
    ReadsAndWrites(Do(Do(b, Create, held), Accept(server, s, true), held), s, held);
  }

  /** A connected socket without events gets both. */
  lemma ReadsAndWrites(b: Books, s: nat, held: int)
    requires Sound(b, held) && IsReserved(b, s) && b.state[s] == Connected
    requires EventOf(b, s, Read) == NULL && EventOf(b, s, Write) == NULL
    requires |b.events.at[|b.state|]| >= 2 && b.ops.at[|b.kind|] != []
    ensures var b' := After(b, [Add(s, Read)] + ([Add(s, Write)] + []), held);
            Sized(b') && MayWrite(b', s) && EventOf(b', s, Read) != NULL
  {
    assert Sized(b);
    hide Do, Sound, FirstOf, EventOf, After, WritesOn;
    AfterOne(b, Add(s, Read), [Add(s, Write)] + [], held);
    AddsOne(b, s, Read, held);
    var b1 := Do(b, Add(s, Read), held);
    AfterOne(b1, Add(s, Write), [], held);
    AddsOne(b1, s, Write, held);
    NoMore(Do(b1, Add(s, Write), held), held);
  }

  lemma NoMore(b: Books, held: int)
    requires Sound(b, held)
    ensures After(b, [], held) == b
  {
  }

  /** A new socket with an accepted connection and no events. */
  lemma Greets(b: Books, server: nat, rest: seq<Call>, held: int)
    requires Sound(b, held) && IsReserved(b, server) && b.state[server] == Listening && b.socks.at[UNUSED] != []
    ensures var s := b.socks.at[UNUSED][0];
            && 0 <= s < |b.state| && Sound(Do(b, Create, held), held)
            && var b2 := Do(Do(b, Create, held), Accept(server, s, true), held);
               && Sound(b2, held) && IsReserved(b2, s) && b2.state[s] == Connected && |b2.state| == |b.state|
               && EventOf(b2, s, Read) == NULL && EventOf(b2, s, Write) == NULL
               && b2.events.at == b.events.at && b2.ops == b.ops && b2.kind == b.kind
               && After(b, [Create] + ([Accept(server, s, true)] + rest), held) == After(b2, rest, held)
  {
    CreatesOne(b, held);
    var s := b.socks.at[UNUSED][0];
    var b1 := Do(b, Create, held);
    StaysListening(b, server, held);
    hide Do;
    AfterOne(b, Create, [Accept(server, s, true)] + rest, held);
    AfterOne(b1, Accept(server, s, true), rest, held);
    assert Sized(b1);
    hide After, Sound, WritesOn;
    AcceptsOne(b1, server, s, held);
  }

  lemma AcceptsOne(b: Books, server: nat, s: nat, held: int)
    requires Sound(b, held) && MayAccept(b, server, s)
    ensures Do(b, Accept(server, s, true), held) == b.(state := b.state[s := Connected])
  {
  }

  lemma StaysListening(b: Books, server: nat, held: int)
    requires Sound(b, held) && IsReserved(b, server) && b.state[server] == Listening
    ensures var b' := Do(b, Create, held); IsReserved(b', server) && b'.state[server] == Listening
  {
    if b.socks.at[UNUSED] != [] {
      FirstIsOwned(b.socks, UNUSED);
    }
  }

  lemma CreatesOne(b: Books, held: int)
    requires Sound(b, held) && b.socks.at[UNUSED] != []
    ensures var s, b' := b.socks.at[UNUSED][0], Do(b, Create, held);
            && 0 <= s < |b.state| && IsReserved(b', s) && b'.state[s] == Closed && |b'.state| == |b.state|
            && b'.events.at == b.events.at && b'.events.at[s] == [] && b'.ops == b.ops && b'.kind == b.kind
  {
    FirstIsOwned(b.socks, UNUSED);
  }

  // ----- The release of a socket -----

  /** Socket s, at place k of the reserved ones, becomes the first unused one, and its events become free. */
  ghost function Released(b: Books, s: nat, k: nat): (r: Books)
    requires Sized(b) && s < |b.state| && k < |b.socks.at[RESERVED]|
    ensures Sized(r)
  {
    var sockets, o := |b.state|, b.events.owner;
    b.(socks := b.socks.(
         at := b.socks.at[RESERVED := Remove(b.socks.at[RESERVED], k)][UNUSED := [s] + b.socks.at[UNUSED]],
         owner := b.socks.owner[s := UNUSED]),
       events := Lists(
         b.events.at[s := []][sockets := Reverse(b.events.at[s]) + b.events.at[sockets]],
         seq(|o|, n requires 0 <= n < |o| => if o[n] == s then sockets else o[n]),
         b.events.live[s := false]))
  }

  lemma ReleasedIs(b: Books, b': Books, s: nat, k: nat)
    requires Sized(b) && s < |b.state| && k < |b.socks.at[RESERVED]|
    requires b' == b.(socks := b'.socks, events := b'.events)
    requires b'.socks == Lists(
               b.socks.at[RESERVED := Remove(b.socks.at[RESERVED], k)][UNUSED := [s] + b.socks.at[UNUSED]],
               b.socks.owner[s := UNUSED], b.socks.live)
    requires b'.events.at == b.events.at[s := []][|b.state| := Reverse(b.events.at[s]) + b.events.at[|b.state|]]
    requires b'.events.live == b.events.live[s := false] && |b'.events.owner| == |b.events.owner|
    requires forall n :: 0 <= n < |b.events.owner| ==>
               b'.events.owner[n] == if b.events.owner[n] == s then |b.state| else b.events.owner[n]
    ensures b' == Released(b, s, k)
  {
    assert b'.events.owner == Released(b, s, k).events.owner;
  }

  /** The books are kept if and only if no operation waited for the socket. */
  lemma ReleasedKeptIff(b: Books, s: nat, k: nat, held: int)
    requires Sound(b, held) && IsReserved(b, s) && k < |b.socks.at[RESERVED]|
    ensures Kept(Released(b, s, k), held) <==> Idle(b, s)
  {
    hide Reverse, Arranged, Remove;
    var b' := Released(b, s, k);
    if Idle(b, s) {
      assert SocketsKept(b');
      assert QueuesKept(b');
    } else {
      var e :| 0 <= e < |b.kind| && b.events.owner[e] == s && b.ops.at[e] != [];
      assert b'.ops.at[e] != [] && b'.events.owner[e] == |b.state|;
    }
  }

  lemma ReleasedDoomed(b: Books, s: nat, k: nat, t: nat)
    requires Sized(b) && s < |b.state| && k < |b.socks.at[RESERVED]| && t != s && t < |b.state|
    ensures Doomed(Released(b, s, k), t) <==> Doomed(b, t)
    ensures IsReserved(Released(b, s, k), t) <==> IsReserved(b, t)
  {
    hide Reverse, Remove;
    var b' := Released(b, s, k);
    assert forall e :: 0 <= e < |b.kind| ==> (b'.events.owner[e] == t <==> b.events.owner[e] == t);
    if Idle(b', t) {
      forall e | 0 <= e < |b.kind| && b.events.owner[e] == t ensures b.ops.at[e] == [] {
        assert b'.events.owner[e] == t;
      }
    }
  }

  /** It is enough to look at the write event of the socket. */
  lemma IdleIff(b: Books, s: nat, held: int)
    requires Sound(b, held) && s < |b.state|
    ensures var e := EventOf(b, s, Write); Idle(b, s) <==> e == NULL || b.ops.at[e] == []
  {
    NoEvent(b, s, Write, held);
    hide Arranged, FirstOf;
  }

  // ----- A pass over the reserved sockets -----

  /** A reserved socket that event_loop_close is not to find and that no callback closes. */
  ghost predicate Spared(b: Books, onClose: int -> seq<Call>, t: nat)
    requires Sized(b)
  {
    IsReserved(b, t) && !Doomed(b, t) && forall u :: CloseSock(t) !in onClose(u)
  }

  /**
   * How far a pass that began with b0 has come when k reserved sockets were left where they are: none of these was to
   * be closed, those that were are still to be found or gone, and the spared ones are there.
   */
  ghost predicate Passed(b0: Books, b: Books, k: nat, onClose: int -> seq<Call>)
    requires Sized(b0) && Sized(b)
  {
    && |b.state| == |b0.state| && k <= |b.socks.at[RESERVED]|
    && (forall t: nat :: t < |b.state| && Doomed(b0, t) && IsReserved(b, t) ==> Doomed(b, t))
    && (forall i :: 0 <= i < k ==> !Doomed(b0, b.socks.at[RESERVED][i]))
    && (forall t: nat :: t < |b.state| && Spared(b0, onClose, t) ==> IsReserved(b, t) && !Doomed(b, t))
    && (forall n :: n in b.socks.at[RESERVED] ==> n in b0.socks.at[RESERVED])
  }

  /** What one turn of event_loop_close makes of a socket it closes. */
  ghost function ClosedWith(b: Books, s: nat, calls: seq<Call>): (r: Books)
    requires Sound(b, NULL) && s < |b.state|
    ensures Sound(r, NULL)
  {
    StateSound(b, s, Closed, NULL);
    After(b.(state := b.state[s := Closed]), calls, NULL)
  }

  lemma ClosedWithOthers(b: Books, s: nat, calls: seq<Call>, t: nat)
    requires Sound(b, NULL) && s < |b.state| && t < |b.state| && t != s
    ensures Sized(ClosedWith(b, s, calls))
    ensures Doomed(b, t) ==> Doomed(ClosedWith(b, s, calls), t)
    ensures IsReserved(b, t) && !Doomed(b, t) && CloseSock(t) !in calls ==>
              IsReserved(ClosedWith(b, s, calls), t) && !Doomed(ClosedWith(b, s, calls), t)
  {
    StateSound(b, s, Closed, NULL);
    var b1 := b.(state := b.state[s := Closed]);
    assert Sized(b1) && (Idle(b1, t) <==> Idle(b, t));
    hide Idle, Sound, After;
    AfterDoomed(b1, calls, t, NULL);
  }

  lemma PassOn(b0: Books, b: Books, k: nat, onClose: int -> seq<Call>)
    requires Sized(b0) && Sized(b) && Passed(b0, b, k, onClose) && k < |b.socks.at[RESERVED]| && Arranged(b.socks)
    requires 0 <= b.socks.at[RESERVED][k] && !Doomed(b, b.socks.at[RESERVED][k])
    ensures Passed(b0, b, k + 1, onClose)
  {
    InList(b.socks, RESERVED, b.socks.at[RESERVED][k]);
    hide Idle, Arranged;
  }

  /** Closing socket s, at place k, keeps the pass in order. */
  lemma PassClosing(b0: Books, b: Books, s: nat, k: nat, onClose: int -> seq<Call>)
    requires Sized(b0) && Sound(b, NULL) && Passed(b0, b, k, onClose)
    requires k < |b.socks.at[RESERVED]| && b.socks.at[RESERVED][k] == s < |b.state| && Doomed(b, s)
    requires Create !in onClose(s)
    ensures var c := ClosedWith(b, s, onClose(s));
            && c.socks == b.socks && |c.state| == |b.state| && Sized(c)
            && Passed(b0, Released(c, s, k), k, onClose)
  {
    var c := ClosedWith(b, s, onClose(s));
    ClosedWithSocks(b, s, onClose(s));
    OthersAfterRelease(b, s, k, onClose(s));
    SelfReleased(c, s, k);
    ReservedAfter(c, s, k);
    RemoveIsPart(b.socks.at[RESERVED], k);
    hide ClosedWith, Released, Doomed, Sound, Remove;
  }

  lemma ClosedWithSocks(b: Books, s: nat, calls: seq<Call>)
    requires Sound(b, NULL) && s < |b.state| && Create !in calls
    ensures var c := ClosedWith(b, s, calls); c.socks == b.socks && |c.state| == |b.state| && Sized(c)
  {
    StateSound(b, s, Closed, NULL);
    hide After;
    AfterSocks(b.(state := b.state[s := Closed]), calls, NULL);
  }

  lemma OthersAfterRelease(b: Books, s: nat, k: nat, calls: seq<Call>)
    requires Sound(b, NULL) && s < |b.state| && k < |b.socks.at[RESERVED]| && Create !in calls
    requires ClosedWith(b, s, calls).socks == b.socks && |ClosedWith(b, s, calls).state| == |b.state|
    ensures var c := ClosedWith(b, s, calls);
            && Sized(c)
            && var r := Released(c, s, k);
               forall t: nat :: t < |b.state| && t != s ==>
                 && (Doomed(b, t) ==> Doomed(r, t))
                 && (IsReserved(b, t) && !Doomed(b, t) && CloseSock(t) !in calls ==> IsReserved(r, t) && !Doomed(r, t))
                 && (IsReserved(r, t) ==> IsReserved(b, t))
  {
    var c := ClosedWith(b, s, calls);
    var r := Released(c, s, k);
    assert forall t :: IsReserved(c, t) <==> IsReserved(b, t);
    hide ClosedWith, Released, Doomed, Arranged, SocketsKept, QueuesKept, HoldsOnly;
    forall t: nat | t < |b.state| && t != s
      ensures Doomed(b, t) ==> Doomed(r, t)
      ensures IsReserved(b, t) && !Doomed(b, t) && CloseSock(t) !in calls ==> IsReserved(r, t) && !Doomed(r, t)
      ensures IsReserved(r, t) ==> IsReserved(b, t)
    {
      ClosedWithOthers(b, s, calls, t);
      ReleasedDoomed(c, s, k, t);
    }
  }

  lemma RemoveIsPart(s: seq<int>, k: nat)
    requires k < |s|
    ensures |Remove(s, k)| == |s| - 1 && forall i :: 0 <= i < k ==> Remove(s, k)[i] == s[i]
    ensures forall n :: n in Remove(s, k) ==> n in s
  {
    forall n | n in Remove(s, k) ensures n in s {
      var i :| 0 <= i < |Remove(s, k)| && Remove(s, k)[i] == n;
      assert n == s[if i < k then i else i + 1];
    }
  }

  lemma SelfReleased(b: Books, s: nat, k: nat)
    requires Sized(b) && s < |b.state| && k < |b.socks.at[RESERVED]|
    ensures !IsReserved(Released(b, s, k), s) && |Released(b, s, k).state| == |b.state|
  {
    hide Reverse, Remove;
  }

  lemma ReservedAfter(b: Books, s: nat, k: nat)
    requires Sized(b) && s < |b.state| && k < |b.socks.at[RESERVED]|
    ensures Released(b, s, k).socks.at[RESERVED] == Remove(b.socks.at[RESERVED], k)
  {
    hide Reverse, Remove;
  }
}
