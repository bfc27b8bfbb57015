/**
 * The static pools of src/event.c as values: sockets are reserved or unused, events belong to a socket or
 * are free, write operations wait in the queue of a write event or are free. Do is what a callback may
 * do to them.
 */
module EventSpec {
  import opened LinkedList

  datatype SockState = Closed | Listening | Connected | Closing

  datatype Kind = Connection | Write | Read | Timer

  const RESERVED: nat := 0
  const UNUSED: nat := 1

  /**
   * List s of the events belongs to socket s, list e of the operations is the queue of event e; the last
   * are free. A write event has ended when its ring takes no more bytes.
   */
  datatype Books = Books(
    state: seq<SockState>, kind: seq<Kind>, ended: seq<bool>, socks: Lists, events: Lists, ops: Lists)

  // ----- Nodes that change lists -----

  ghost predicate Arranged(l: Lists) {
    |l.at| == |l.live| && Placed(l.at, l.owner)
  }

  lemma InList(l: Lists, i: nat, n: int)
    requires Arranged(l) && i < |l.at|
    ensures n in l.at[i] <==> 0 <= n < |l.owner| && l.owner[n] == i
  {
    assert Owned(l.at[i], l.owner, i);
  }

  /** A list without one of its nodes. */
  function Minus(s: seq<int>, e: int): (r: seq<int>) {
    if s == [] then [] else if s[0] == e then s[1..] else [s[0]] + Minus(s[1..], e)
  }

  lemma {:induction false} MinusIsRemove(s: seq<int>, k: nat)
    requires k < |s| && Distinct(s)
    ensures Minus(s, s[k]) == Remove(s, k)
    decreases |s|
  {
    if k > 0 {
      assert s[0] != s[k] && s[1..][k - 1] == s[k];
      MinusIsRemove(s[1..], k - 1);
      assert Remove(s, k) == [s[0]] + Remove(s[1..], k - 1);
    } else {
      assert Remove(s, 0) == s[1..];
    }
  }

  /** LL_MOVEP. */
  function ToFront(l: Lists, src: nat, dst: nat): (r: Lists)
    requires src < |l.at| && dst < |l.at| && l.at[src] != [] && 0 <= l.at[src][0] < |l.owner|
  {
    var e := l.at[src][0];
    l.(at := l.at[src := l.at[src][1..]][dst := [e] + l.at[dst]], owner := l.owner[e := dst])
  }

  /** LL_MOVE. */
  function ToEnd(l: Lists, src: nat, dst: nat): (r: Lists)
    requires src < |l.at| && dst < |l.at| && l.at[src] != [] && 0 <= l.at[src][0] < |l.owner|
  {
    var e := l.at[src][0];
    l.(at := l.at[src := l.at[src][1..]][dst := l.at[dst] + [e]], owner := l.owner[e := dst])
  }

  /** LL_DELETE and LL_PUSH. */
  function Shifted(l: Lists, src: nat, e: nat, dst: nat): (r: Lists)
    requires src < |l.at| && dst < |l.at| && e < |l.owner|
  {
    l.(at := l.at[src := Minus(l.at[src], e)][dst := [e] + l.at[dst]], owner := l.owner[e := dst])
  }

  lemma FirstIsOwned(l: Lists, src: nat)
    requires Arranged(l) && src < |l.at| && l.at[src] != []
    ensures 0 <= l.at[src][0] < |l.owner| && l.owner[l.at[src][0]] == src
  {
    InList(l, src, l.at[src][0]);
  }

  lemma MovedArranged(l: Lists, src: nat, dst: nat, k: nat, atEnd: bool)
    requires Arranged(l) && src < |l.at| && dst < |l.at| && src != dst && k < |l.at[src]|
    ensures var e := l.at[src][k];
            && 0 <= e < |l.owner|
            && Arranged(l.(at := l.at[src := Remove(l.at[src], k)][dst := if atEnd then l.at[dst] + [e] else [e] + l.at[dst]],
                           owner := l.owner[e := dst]))
  {
    var e := l.at[src][k];
    TakeOut(l.at, l.owner, src, k);
    var at, owner := l.at[src := Remove(l.at[src], k)], l.owner[e := |l.at|];
    PutIn(at, owner, dst, if atEnd then at[dst] + [e] else [e] + at[dst], e);
    assert owner[e := dst] == l.owner[e := dst];
  }

  lemma ToFrontArranged(l: Lists, src: nat, dst: nat)
    requires Arranged(l) && src < |l.at| && dst < |l.at| && src != dst && l.at[src] != []
    ensures 0 <= l.at[src][0] < |l.owner| && Arranged(ToFront(l, src, dst))
  {
    MovedArranged(l, src, dst, 0, false);
    assert Remove(l.at[src], 0) == l.at[src][1..];
  }

  lemma ToEndArranged(l: Lists, src: nat, dst: nat)
    requires Arranged(l) && src < |l.at| && dst < |l.at| && src != dst && l.at[src] != []
    ensures 0 <= l.at[src][0] < |l.owner| && Arranged(ToEnd(l, src, dst))
  {
    MovedArranged(l, src, dst, 0, true);
    assert Remove(l.at[src], 0) == l.at[src][1..];
  }

  lemma ShiftedArranged(l: Lists, src: nat, e: nat, dst: nat)
    requires Arranged(l) && src < |l.at| && dst < |l.at| && src != dst && e in l.at[src]
    ensures e < |l.owner| && Arranged(Shifted(l, src, e, dst))
  {
    var k :| 0 <= k < |l.at[src]| && l.at[src][k] == e;
    assert Owned(l.at[src], l.owner, src);
    MinusIsRemove(l.at[src], k);
    MovedArranged(l, src, dst, k, false);
  }

  // ----- What is kept -----

  ghost predicate Sized(b: Books) {
    && |b.socks.owner| == |b.state| && |b.socks.at| == |b.socks.live| == 2
    && |b.events.owner| == |b.kind| == |b.ended| && |b.events.at| == |b.events.live| == |b.state| + 1
    && |b.ops.at| == |b.ops.live| == |b.kind| + 1
  }

  predicate IsReserved(b: Books, s: int) {
    0 <= s < |b.state| && s < |b.socks.owner| && b.socks.owner[s] == RESERVED
  }

  /** A socket's event list is in use exactly as long as it must be. */
  ghost predicate SocketsKept(b: Books)
    requires Sized(b)
  {
    && b.socks.live[RESERVED] && b.socks.live[UNUSED] && b.events.live[|b.state|] && b.ops.live[|b.kind|]
    && (forall s :: 0 <= s < |b.state| && b.socks.owner[s] == RESERVED ==> b.events.live[s])
    && (forall s :: 0 <= s < |b.state| && b.socks.owner[s] == UNUSED ==> b.events.at[s] == [])
  }

  /**
   * Operations wait only for a write event of a socket, a socket has one write event at most, and that of a
   * closing socket has ended.
   */
  ghost predicate QueuesKept(b: Books)
    requires Sized(b)
  {
    var sockets := |b.state|;
    && (forall e :: 0 <= e < |b.kind| && b.ops.at[e] != [] ==> b.kind[e] == Write && b.events.owner[e] < sockets)
    && (forall e :: 0 <= e < |b.kind| && b.events.owner[e] < sockets && b.kind[e] == Write ==> b.ops.live[e])
    && (forall d, e :: 0 <= d < e < |b.kind| && b.events.owner[d] == b.events.owner[e] < sockets ==>
          b.kind[d] != Write || b.kind[e] != Write)
    && (forall e :: 0 <= e < |b.kind| && 0 <= b.events.owner[e] < sockets && b.kind[e] == Write ==>
          b.state[b.events.owner[e]] == Closing ==> b.ended[e])
  }

  /** No socket and no event is held by a step, and no operation but the given one. */
  ghost predicate HoldsOnly(b: Books, held: int)
    requires Sized(b)
  {
    && (forall s :: 0 <= s < |b.socks.owner| ==> b.socks.owner[s] != 2)
    && (forall e :: 0 <= e < |b.events.owner| ==> b.events.owner[e] != |b.state| + 1)
    && (forall n :: 0 <= n < |b.ops.owner| ==> (b.ops.owner[n] == |b.kind| + 1 <==> n == held))
  }

  ghost predicate Kept(b: Books, held: int) {
    Sized(b) && SocketsKept(b) && QueuesKept(b) && HoldsOnly(b, held)
  }

  /** Every node is in exactly one list, but for an operation that a step holds, and the books are kept. */
  ghost predicate Sound(b: Books, held: int) {
    Kept(b, held) && Arranged(b.socks) && Arranged(b.events) && Arranged(b.ops)
  }

  // ----- The operations -----

  /** The first event of a list that is of a kind. */
  function FirstOf(list: seq<int>, kind: seq<Kind>, k: Kind): (e: int)
    ensures e != NULL ==> e in list && 0 <= e < |kind| && kind[e] == k
    ensures e == NULL ==> forall d :: d in list && 0 <= d < |kind| ==> kind[d] != k
  {
    if list == [] then NULL
    else if 0 <= list[0] < |kind| && kind[list[0]] == k then list[0]
    else FirstOf(list[1..], kind, k)
  }

  ghost function EventOf(b: Books, s: nat, k: Kind): (e: int)
    requires Sized(b) && s < |b.state|
    ensures e != NULL ==> 0 <= e < |b.kind| && b.kind[e] == k && e in b.events.at[s]
  {
    FirstOf(b.events.at[s], b.kind, k)
  }

  /** The assertions of event_listen, event_read_start, event_write_enable and event_timer_set. */
  ghost predicate MayAdd(b: Books, s: nat, k: Kind)
    requires Sized(b)
  {
    && IsReserved(b, s) && b.events.at[|b.state|] != []
    && (k == Connection ==> b.state[s] == Closed)
    && (k == Read || k == Write ==> b.state[s] == Connected && EventOf(b, s, k) == NULL)
  }

  /** event_find_free, and what the caller makes of the event; the memory of a write queue is used for no other kind. */
  ghost function Added(b: Books, s: nat, k: Kind): (r: Books)
    requires Sized(b) && s < |b.state| && b.events.at[|b.state|] != [] && 0 <= b.events.at[|b.state|][0] < |b.kind|
  {
    var e := b.events.at[|b.state|][0];
    b.(kind := b.kind[e := k], ended := b.ended[e := false], events := ToFront(b.events, |b.state|, s),
       ops := b.ops.(live := b.ops.live[e := k == Write]),
       state := if k == Connection then b.state[s := Listening] else b.state)
  }

  /** event_read_stop and event_timer_stop. */
  ghost function Dropped(b: Books, s: nat, e: nat): (r: Books)
    requires Sized(b) && s < |b.state| && e < |b.kind|
  {
    b.(events := Shifted(b.events, s, e, |b.state|))
  }

  /** event_sock_create. */
  ghost function Created(b: Books): (r: Books)
    requires Sized(b) && b.socks.at[UNUSED] != [] && 0 <= b.socks.at[UNUSED][0] < |b.state|
  {
    var s := b.socks.at[UNUSED][0];
    b.(state := b.state[s := Closed], socks := ToFront(b.socks, UNUSED, RESERVED),
       events := b.events.(live := b.events.live[s := true]))
  }

  /** event_write takes bytes: the socket is connected and its ring open, and an operation is free. */
  ghost predicate MayWrite(b: Books, s: nat)
    requires Sized(b)
  {
    && IsReserved(b, s) && b.state[s] == Connected && b.ops.at[|b.kind|] != []
    && EventOf(b, s, Write) != NULL && !b.ended[EventOf(b, s, Write)]
  }

  ghost function Queued(b: Books, e: nat): (r: Books)
    requires Sized(b) && e < |b.kind| && b.ops.at[|b.kind|] != [] && 0 <= b.ops.at[|b.kind|][0] < |b.ops.owner|
  {
    b.(ops := ToEnd(b.ops, |b.kind|, e))
  }

  /** event_close. */
  ghost function Ending(b: Books, s: nat): (r: Books)
    requires Sized(b) && s < |b.state|
  {
    var e := EventOf(b, s, Write);
    b.(state := b.state[s := Closing], ended := if e == NULL then b.ended else b.ended[e := true])
  }

  /** event_accept: the server is listening and the client is closed. */
  ghost predicate MayAccept(b: Books, server: nat, client: nat)
    requires Sized(b)
  {
    IsReserved(b, server) && b.state[server] == Listening && IsReserved(b, client) && b.state[client] == Closed
  }

  /** What a callback may ask of the loop; ok says whether the operating system accepts. */
  datatype Call =
    | Create
    | Add(sock: nat, kind: Kind)
    | StopRead(sock: nat)
    | StopTimer(sock: nat, timer: nat)
    | QueueWrite(sock: nat)
    | CloseSock(sock: nat)
    | Accept(server: nat, client: nat, ok: bool)

  /** A call as far as the loop's own assertions allow it; otherwise it does nothing. */
  ghost function Do(b: Books, call: Call, held: int): (r: Books)
    requires Sound(b, held)
  {
    Firsts(b, held);
    match call
    case Create => if b.socks.at[UNUSED] != [] then Created(b) else b
    case Add(s, k) => if MayAdd(b, s, k) then Added(b, s, k) else b
    case StopRead(s) =>
      if IsReserved(b, s) && EventOf(b, s, Read) != NULL then Dropped(b, s, EventOf(b, s, Read)) else b
    case StopTimer(s, e) =>
      if IsReserved(b, s) && e < |b.kind| && e in b.events.at[s] && b.kind[e] == Timer then Dropped(b, s, e) else b
    case QueueWrite(s) => if MayWrite(b, s) then Queued(b, EventOf(b, s, Write)) else b
    case CloseSock(s) => if IsReserved(b, s) then Ending(b, s) else b
    case Accept(server, client, ok) =>
      if ok && MayAccept(b, server, client) then b.(state := b.state[client := Connected]) else b
  }

  lemma Firsts(b: Books, held: int)
    requires Sound(b, held)
    ensures b.socks.at[UNUSED] != [] ==> 0 <= b.socks.at[UNUSED][0] < |b.state|
    ensures b.events.at[|b.state|] != [] ==> 0 <= b.events.at[|b.state|][0] < |b.kind|
    ensures b.ops.at[|b.kind|] != [] ==> 0 <= b.ops.at[|b.kind|][0] < |b.ops.owner|
  {
    if b.socks.at[UNUSED] != [] { FirstIsOwned(b.socks, UNUSED); }
    if b.events.at[|b.state|] != [] { FirstIsOwned(b.events, |b.state|); }
    if b.ops.at[|b.kind|] != [] { FirstIsOwned(b.ops, |b.kind|); }
  }

  // ----- Every call keeps the books -----

  /** The events of a socket, by owner. */
  lemma NoEvent(b: Books, s: nat, k: Kind, held: int)
    requires Sound(b, held) && s < |b.state|
    ensures EventOf(b, s, k) == NULL <==> forall d :: 0 <= d < |b.kind| && b.events.owner[d] == s ==> b.kind[d] != k
    ensures EventOf(b, s, k) != NULL ==> b.events.owner[EventOf(b, s, k)] == s
  {
    forall d ensures d in b.events.at[s] <==> 0 <= d < |b.kind| && b.events.owner[d] == s {
      InList(b.events, s, d);
    }
    hide FirstOf, Placed, Owned;
  }

  lemma CreatedSound(b: Books, held: int)
    requires Sound(b, held) && b.socks.at[UNUSED] != []
    ensures 0 <= b.socks.at[UNUSED][0] < |b.state| && Sound(Created(b), held)
  {
    FirstIsOwned(b.socks, UNUSED);
    ToFrontArranged(b.socks, UNUSED, RESERVED);
    hide Arranged;
  }

  lemma AddedSound(b: Books, s: nat, k: Kind, held: int)
    requires Sound(b, held) && MayAdd(b, s, k)
    ensures 0 <= b.events.at[|b.state|][0] < |b.kind| && Sound(Added(b, s, k), held)
    ensures b.ops.at[b.events.at[|b.state|][0]] == []
  {
    FirstIsOwned(b.events, |b.state|);
    ToFrontArranged(b.events, |b.state|, s);
    NoEvent(b, s, k, held);
    hide Arranged, FirstOf;
  }

  lemma DroppedSound(b: Books, s: nat, e: nat, held: int)
    requires Sound(b, held) && IsReserved(b, s) && e < |b.kind| && e in b.events.at[s] && b.kind[e] != Write
    ensures Sound(Dropped(b, s, e), held) && b.events.owner[e] == s
  {
    InList(b.events, s, e);
    ShiftedArranged(b.events, s, e, |b.state|);
    hide Arranged, Minus;
  }

  lemma QueuedSound(b: Books, s: nat, held: int)
    requires Sound(b, held) && MayWrite(b, s)
    ensures 0 <= b.ops.at[|b.kind|][0] < |b.ops.owner| && Sound(Queued(b, EventOf(b, s, Write)), held)
    ensures b.ops.owner[b.ops.at[|b.kind|][0]] == |b.kind|
  {
    FirstIsOwned(b.ops, |b.kind|);
    NoEvent(b, s, Write, held);
    ToEndArranged(b.ops, |b.kind|, EventOf(b, s, Write));
    hide Arranged, FirstOf;
  }

  lemma EndingSound(b: Books, s: nat, held: int)
    requires Sound(b, held) && IsReserved(b, s)
    ensures Sound(Ending(b, s), held)
  {
    NoEvent(b, s, Write, held);
    hide Arranged, FirstOf;
    var b' := Ending(b, s);
    assert SocketsKept(b') && HoldsOnly(b', held);
    assert QueuesKept(b');
  }

  lemma StateSound(b: Books, s: nat, x: SockState, held: int)
    requires Sound(b, held) && s < |b.state| && x != Closing
    ensures Sound(b.(state := b.state[s := x]), held)
  {
    hide Arranged;
  }

  lemma DoSound(b: Books, call: Call, held: int)
    requires Sound(b, held)
    ensures Sound(Do(b, call, held), held)
  {
    hide Added, Created, Dropped, Queued, Ending, EventOf, SocketsKept, QueuesKept, HoldsOnly, Arranged;
    match call
    case Create => if b.socks.at[UNUSED] != [] { CreatedSound(b, held); }
    case Add(s, k) => if MayAdd(b, s, k) { AddedSound(b, s, k, held); }
    case StopRead(s) =>
      if IsReserved(b, s) && EventOf(b, s, Read) != NULL { DroppedSound(b, s, EventOf(b, s, Read), held); }
    case StopTimer(s, e) =>
      if IsReserved(b, s) && e < |b.kind| && e in b.events.at[s] && b.kind[e] == Timer { DroppedSound(b, s, e, held); }
    case QueueWrite(s) => if MayWrite(b, s) { QueuedSound(b, s, held); }
    case CloseSock(s) => if IsReserved(b, s) { EndingSound(b, s, held); }
    case Accept(server, client, ok) =>
      if ok && MayAccept(b, server, client) { StateSound(b, client, Connected, held); }
  }

  /** The calls of a callback, one after the other. */
  ghost function After(b: Books, calls: seq<Call>, held: int): (r: Books)
    requires Sound(b, held)
    ensures Sound(r, held)
    decreases |calls|
  {
    if calls == [] then b
    else
      DoSound(b, calls[0], held);
      After(Do(b, calls[0], held), calls[1..], held)
  }

  // ----- Operations that a step holds -----

  /** LL_POP of the first operation of a queue. */
  ghost function Held(b: Books, e: nat): (r: Books)
    requires Sized(b) && e < |b.kind| && b.ops.at[e] != [] && 0 <= b.ops.at[e][0] < |b.ops.owner|
  {
    b.(ops := b.ops.(at := b.ops.at[e := b.ops.at[e][1..]], owner := b.ops.owner[b.ops.at[e][0] := |b.kind| + 1]))
  }

  /** LL_PUSH of an operation on the free ones. */
  ghost function Freed(b: Books, op: nat): (r: Books)
    requires Sized(b) && op < |b.ops.owner|
  {
    b.(ops := b.ops.(at := b.ops.at[|b.kind| := [op] + b.ops.at[|b.kind|]], owner := b.ops.owner[op := |b.kind|]))
  }

  lemma HeldSound(b: Books, e: nat)
    requires Sound(b, NULL) && e < |b.kind| && b.ops.at[e] != []
    ensures 0 <= b.ops.at[e][0] < |b.ops.owner| && b.ops.owner[b.ops.at[e][0]] == e && Sound(Held(b, e), b.ops.at[e][0])
  {
    FirstIsOwned(b.ops, e);
    TakeOut(b.ops.at, b.ops.owner, e, 0);
    assert Remove(b.ops.at[e], 0) == b.ops.at[e][1..];
    hide Placed;
    HeldKept(b, Held(b, e), e, b.ops.at[e][0], b.ops.at[e][1..]);
    hide Kept;
  }

  lemma FreedSound(b: Books, op: nat)
    requires Sound(b, op) && op < |b.ops.owner|
    ensures Sound(Freed(b, op), NULL)
  {
    PutIn(b.ops.at, b.ops.owner, |b.kind|, [op] + b.ops.at[|b.kind|], op);
    hide Placed;
    FreedKept(b, Freed(b, op), op, [op] + b.ops.at[|b.kind|]);
    hide Kept;
  }

  lemma HeldKept(b: Books, b': Books, e: nat, op: nat, queue: seq<int>)
    requires Kept(b, NULL) && e < |b.kind| && b.ops.at[e] != [] && op < |b.ops.owner|
    requires b' == b.(ops := b.ops.(at := b.ops.at[e := queue], owner := b.ops.owner[op := |b.kind| + 1]))
    ensures Kept(b', op)
  {
  }

  lemma FreedKept(b: Books, b': Books, op: nat, free: seq<int>)
    requires Kept(b, op) && op < |b.ops.owner|
    requires b' == b.(ops := b.ops.(at := b.ops.at[|b.kind| := free], owner := b.ops.owner[op := |b.kind|]))
    ensures Kept(b', NULL)
  {
  }

  lemma PutBackKept(b: Books, b': Books, op: nat, e: nat, queue: seq<int>)
    requires Kept(b, op) && op < |b.ops.owner| && e < |b.kind| && b.kind[e] == Write && b.events.owner[e] < |b.state|
    requires b' == b.(ops := b.ops.(at := b.ops.at[e := queue], owner := b.ops.owner[op := e]))
    ensures Kept(b', NULL)
  {
  }
}
