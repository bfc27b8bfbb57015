/** The loop of src/event.c on its three pools; every call is proved against EventSpec. */
module EventLoop {
  import opened LinkedList
  import opened EventSpec
  import opened EventCalls
  import opened EventTimers

  /** No callback stops the timer it is called for. */
  ghost predicate KeepsOwnTimer(react: Reaction) {
    forall e, n, i :: 0 <= i < |react(e, n).calls| ==>
      !(react(e, n).calls[i].StopTimer? && react(e, n).calls[i].timer == e)
  }

  lemma KeepsOwn(react: Reaction, e: int, n: nat)
    requires KeepsOwnTimer(react)
    ensures forall i :: 0 <= i < |react(e, n).calls| ==> !Stops(react(e, n).calls[i], e)
  {
  }

  lemma StartsKept(b: Books)
    requires Sized(b) && forall l :: 0 <= l < 2 ==> b.socks.live[l]
    requires forall s :: 0 <= s < |b.state| ==> b.events.live[s] && b.events.at[s] == [] && b.socks.owner[s] == UNUSED
    requires forall e :: 0 <= e < |b.kind| ==> b.ops.at[e] == [] && b.events.owner[e] == |b.state|
    requires forall i :: 0 <= i < |b.ops.owner| ==> b.ops.owner[i] == |b.kind|
    requires b.events.live[|b.state|] && b.ops.live[|b.kind|]
    ensures Kept(b, NULL)
  {
  }

  class Loop {
    const socks: Pool
    const events: Pool
    const ops: Pool
    var state: seq<SockState>
    var kind: seq<Kind>
    var ended: seq<bool>

    ghost predicate Apart()
      reads this
    {
      && socks != events && socks != ops && events != ops
      && socks.next != events.next && socks.next != events.heads && socks.next != ops.next && socks.next != ops.heads
      && socks.heads != events.next && socks.heads != events.heads && socks.heads != ops.next && socks.heads != ops.heads
      && events.next != ops.next && events.next != ops.heads && events.heads != ops.next && events.heads != ops.heads
    }

    ghost function Now(): (b: Books)
      reads this, socks, events, ops
    {
      Books(state, kind, ended, socks.Contents(), events.Contents(), ops.Contents())
    }

    /** The linked lists are lists. */
    ghost predicate Linked()
      reads this, socks, socks.next, socks.heads, events, events.next, events.heads, ops, ops.next, ops.heads
    {
      Apart() && socks.Valid() && events.Valid() && ops.Valid() && Sized(Now())
    }

    /** Every socket, event and operation is in exactly one list, but for an operation that a step holds. */
    ghost predicate Valid(held: int)
      reads this, socks, socks.next, socks.heads, events, events.next, events.heads, ops, ops.next, ops.heads
    {
      Linked() && Kept(Now(), held)
    }

    ghost predicate Reserved(s: int)
      reads this, socks, events, ops
    {
      IsReserved(Now(), s)
    }

    lemma ValidIsSound(held: int)
      requires Valid(held)
      ensures Sound(Now(), held)
      ensures socks.heads.Length == 2 && events.heads.Length == |state| + 1 && ops.heads.Length == |kind| + 1
      ensures socks.next.Length == |state| && events.next.Length == |kind| && ops.next.Length == |ops.owner|
    {
      hide Placed, AllChainedBut, SocketsKept, QueuesKept, HoldsOnly;
    }

    /** The loop on its three pools, of which nothing has been taken yet. */
    constructor (sockPool: Pool, eventPool: Pool, opPool: Pool, sockets: nat, maxEvents: nat)
      ensures socks == sockPool && events == eventPool && ops == opPool
      ensures state == seq(sockets, _ => Closed) && kind == seq(maxEvents, _ => Connection)
      ensures ended == seq(maxEvents, _ => false)
    {
      socks, events, ops := sockPool, eventPool, opPool;
      state := seq(sockets, _ => Closed);
      kind := seq(maxEvents, _ => Connection);
      ended := seq(maxEvents, _ => false);
    }

    /**
     * Outside of a step nothing is lost or duplicated: every socket, event and operation is in exactly one
     * list and no list has a node twice; a free event has no operations waiting.
     */
    lemma Conservation()
      requires Valid(NULL)
      ensures forall s :: 0 <= s < |state| ==> InOneList(socks.lists, s)
      ensures forall e :: 0 <= e < |kind| ==> InOneList(events.lists, e)
      ensures forall n :: 0 <= n < |ops.owner| ==> InOneList(ops.lists, n)
      ensures forall e :: e in events.lists[|state|] && 0 <= e < |kind| ==> ops.lists[e] == []
    {
      forall s | 0 <= s < |state| ensures InOneList(socks.lists, s) {
        ExactlyOneList(socks.lists, socks.owner, s);
      }
      forall e | 0 <= e < |kind| ensures InOneList(events.lists, e) {
        ExactlyOneList(events.lists, events.owner, e);
      }
      forall n | 0 <= n < |ops.owner| ensures InOneList(ops.lists, n) {
        ExactlyOneList(ops.lists, ops.owner, n);
      }
      forall e | e in events.lists[|state|] && 0 <= e < |kind| ensures ops.lists[e] == [] {
        events.Whereabouts(|state|, e);
      }
    }

    // ----- One call -----

    /** The first event of a socket of a kind. */
    method FindEvent(s: nat, k: Kind, ghost held: int) returns (e: int)
      requires Valid(held) && Reserved(s)
      ensures e == EventOf(Now(), s, k)
    {
      var kinds := kind;
      e := events.Find(s, x => 0 <= x < |kinds| && kinds[x] == k);
      FoundFirst(events.lists[s], kinds, k, e);
    }

    method IsReservedSock(s: nat, ghost held: int) returns (yes: bool)
      requires Valid(held)
      ensures yes <==> Reserved(s)
    {
      var found := socks.Find(RESERVED, x => x == s);
      yes := found != NULL;
      socks.Whereabouts(RESERVED, s);
    }

    /** event_sock_create: the first unused socket becomes the first reserved one. */
    method CreateSock(ghost held: int)
      requires Valid(held) && socks.lists[UNUSED] != []
      modifies this`state, socks`lists, socks`owner, socks.next, socks.heads, events`live, events.heads
      ensures 0 <= old(Now()).socks.at[UNUSED][0] < |old(state)|
      ensures Valid(held) && Now() == Created(old(Now()))
    {
      ghost var b := Now();
      ValidIsSound(held);
      CreatedSound(b, held);
      hide Pool.Valid, SocketsKept, QueuesKept, HoldsOnly, Arranged;
      var s := socks.MoveFront(UNUSED, RESERVED);
      events.ClearHead(s, true);
      state := state[s := Closed];
      hide Kept;
      assert Now() == Created(b);
    }

    /** event_find_free and what its callers make of the event: listen, read start, write enable, timer set. */
    method AddEvent(s: nat, k: Kind, ghost held: int)
      requires Valid(held) && MayAdd(Now(), s, k)
      modifies this`state, this`kind, this`ended, events`lists, events`owner, events.next, events.heads, ops`live, ops.heads
      ensures 0 <= old(Now()).events.at[|old(state)|][0] < |old(kind)|
      ensures Valid(held) && Now() == Added(old(Now()), s, k)
    {
      ghost var b := Now();
      ValidIsSound(held);
      AddedSound(b, s, k, held);
      assert events.live[s] && events.live[|state|];
      hide Pool.Valid, SocketsKept, QueuesKept, HoldsOnly, Arranged, FirstOf;
      var e := events.MoveFront(|state|, s);
      kind, ended := kind[e := k], ended[e := false];
      ops.ClearHead(e, k == Write);
      if k == Connection {
        state := state[s := Listening];
      }
      hide Kept;
      assert Now() == Added(b, s, k);
    }

    /** An event goes back to the free ones; the result is what followed it: event_read_stop and event_timer_stop. */
    method DropEvent(s: nat, e: nat, ghost held: int) returns (after: int)
      requires Valid(held) && Reserved(s) && e in events.lists[s] && e < |kind| && kind[e] != Write
      modifies events`lists, events`owner, events.next, events.heads
      ensures Valid(held) && Now() == Dropped(old(Now()), s, e) && after == old(events.next[e])
    {
      ghost var b := Now();
      ValidIsSound(held);
      DroppedSound(b, s, e, held);
      events.ListChained(s);
      assert events.live[s] && events.live[|state|];
      hide Pool.Valid, SocketsKept, QueuesKept, HoldsOnly, Arranged, Minus;
      var _ := events.Delete(e, s);
      after := events.Push(e, |state|);
      ghost var k :| 0 <= k < |b.events.at[s]| && b.events.at[s][k] == e
                     && events.lists == b.events.at[s := Remove(b.events.at[s], k)][|state| := [e] + b.events.at[|state|]];
      MinusIsRemove(b.events.at[s], k);
      hide Kept;
      assert events.owner == b.events.owner[e := |state|];
      assert Now() == Dropped(b, s, e);
    }

    /** event_write: an operation for the write event of the socket. */
    method QueueOp(s: nat, e: nat, ghost held: int)
      requires Valid(held) && MayWrite(Now(), s) && e == EventOf(Now(), s, Write)
      modifies ops`lists, ops`owner, ops.next, ops.heads
      ensures 0 <= old(Now()).ops.at[|kind|][0] < |old(ops.owner)|
      ensures Valid(held) && Now() == Queued(old(Now()), e)
    {
      ghost var b := Now();
      ValidIsSound(held);
      QueuedSound(b, s, held);
      NoEvent(b, s, Write, held);
      assert ops.live[e] && ops.live[|kind|];
      hide Pool.Valid, SocketsKept, QueuesKept, HoldsOnly, Arranged, FirstOf;
      var _ := ops.Move(|kind|, e);
      hide Kept;
      assert Now() == Queued(b, e);
    }

    /** event_close: the socket is closing and its ring has ended. */
    method EndSock(s: nat, e: int, ghost held: int)
      requires Valid(held) && Reserved(s) && e == EventOf(Now(), s, Write)
      modifies this`state, this`ended
      ensures Valid(held) && Now() == Ending(old(Now()), s)
    {
      ghost var b := Now();
      ValidIsSound(held);
      EndingSound(b, s, held);
      ghost var b' := Ending(b, s);
      var ends := if e == NULL then ended else ended[e := true];
      assert b'.state == state[s := Closing] && b'.ended == ends && b' == b.(state := b'.state, ended := b'.ended);
      hide Pool.Valid, Kept, Sound, Ending, EventOf;
      state, ended := state[s := Closing], ends;
      assert Now() == b';
    }

    /** The assertions of event_listen, event_read_start, event_write_enable and event_timer_set. */
    method CheckAdd(s: nat, k: Kind, ghost held: int) returns (ok: bool)
      requires Valid(held)
      ensures ok <==> MayAdd(Now(), s, k)
    {
      ValidIsSound(held);
      assert events.Live(|state|);
      hide Pool.Valid, SocketsKept, QueuesKept, HoldsOnly, Arranged, EventOf;
      ok := IsReservedSock(s, held);
      if ok {
        var none := events.IsEmpty(|state|);
        var e := FindEvent(s, k, held);
        ok := !none && (k == Connection ==> state[s] == Closed)
              && (k == Read || k == Write ==> state[s] == Connected && e == NULL);
      }
    }

    /** event_read_stop. */
    method StopReading(s: nat, ghost held: int)
      requires Valid(held)
      modifies events`lists, events`owner, events.next, events.heads
      ensures Sound(old(Now()), held) && Valid(held) && Now() == Do(old(Now()), StopRead(s), held)
    {
      ValidIsSound(held);
      hide Pool.Valid, SocketsKept, QueuesKept, HoldsOnly, Arranged, EventOf, Dropped;
      var ok := IsReservedSock(s, held);
      if ok {
        var e := FindEvent(s, Read, held);
        if e != NULL {
          var _ := DropEvent(s, e, held);
        }
      }
    }

    /** event_timer_stop. */
    method StopOneTimer(s: nat, e: nat, ghost held: int)
      requires Valid(held)
      modifies events`lists, events`owner, events.next, events.heads
      ensures Sound(old(Now()), held) && Valid(held) && Now() == Do(old(Now()), StopTimer(s, e), held)
    {
      ValidIsSound(held);
      ghost var b := Now();
      var ok := IsReservedSock(s, held);
      hide Pool.Valid, Arranged, EventOf, Dropped;
      if ok && e < |kind| && kind[e] == Timer {
        var found := events.Find(s, x => x == e);
        if found != NULL {
          var _ := DropEvent(s, e, held);
        }
      }
    }

    /** event_write on a connected socket whose ring is open. */
    method WriteOn(s: nat, ghost held: int)
      requires Valid(held)
      modifies ops`lists, ops`owner, ops.next, ops.heads
      ensures Sound(old(Now()), held) && Valid(held) && Now() == Do(old(Now()), QueueWrite(s), held)
    {
      ValidIsSound(held);
      assert ops.Live(|kind|);
      hide Pool.Valid, SocketsKept, QueuesKept, HoldsOnly, Arranged, EventOf, Queued;
      var ok := IsReservedSock(s, held);
      if ok && state[s] == Connected {
        var e := FindEvent(s, Write, held);
        var none := ops.IsEmpty(|kind|);
        if e != NULL && !ended[e] && !none {
          QueueOp(s, e, held);
        }
      }
    }

    /** event_accept. */
    method AcceptOn(server: nat, client: nat, ok: bool, ghost held: int)
      requires Valid(held)
      modifies this`state
      ensures Sound(old(Now()), held) && Valid(held) && Now() == Do(old(Now()), Accept(server, client, ok), held)
    {
      ghost var b := Now();
      ValidIsSound(held);
      hide Pool.Valid, SocketsKept, QueuesKept, HoldsOnly, Arranged, EventOf;
      var first := IsReservedSock(server, held);
      var second := IsReservedSock(client, held);
      if ok && first && second && state[server] == Listening && state[client] == Closed {
        StateSound(b, client, Connected, held);
        hide Kept;
        state := state[client := Connected];
      }
    }

    /**
     * What a callback asks for, as far as the loop's own assertions allow it.
     */
    method Perform(call: Call, ghost held: int)
      requires Valid(held)
      modifies this, socks, socks.next, socks.heads, events, events.next, events.heads, ops, ops.next, ops.heads
      ensures Sound(old(Now()), held) && Valid(held) && Now() == Do(old(Now()), call, held)
    {
      ValidIsSound(held);
      Firsts(Now(), held);
      hide Pool.Valid, SocketsKept, QueuesKept, HoldsOnly, Arranged, EventOf, Created, Added, Dropped, Queued, Ending;
      match call {
        case Create =>
          var none := socks.IsEmpty(UNUSED);
          if !none {
            CreateSock(held);
          }
        case Add(s, k) =>
          var ok := CheckAdd(s, k, held);
          if ok {
            AddEvent(s, k, held);
          }
        case StopRead(s) => StopReading(s, held);
        case StopTimer(s, e) => StopOneTimer(s, e, held);
        case QueueWrite(s) => WriteOn(s, held);
        case CloseSock(s) =>
          var ok := IsReservedSock(s, held);
          if ok {
            var e := FindEvent(s, Write, held);
            EndSock(s, e, held);
          }
        case Accept(server, client, ok) => AcceptOn(server, client, ok, held);
      }
    }

    /** The calls of a callback. */
    method PerformAll(calls: seq<Call>, ghost held: int)
      requires Valid(held)
      modifies this, socks, socks.next, socks.heads, events, events.next, events.heads, ops, ops.next, ops.heads
      ensures Sound(old(Now()), held) && Valid(held) && Now() == After(old(Now()), calls, held)
    {
      ValidIsSound(held);
      hide Pool.Valid, SocketsKept, QueuesKept, HoldsOnly, Arranged, Do;
      ghost var b := Now();
      assert calls[0..] == calls;
      for i := 0 to |calls|
        invariant Valid(held) && Sound(Now(), held) && After(b, calls, held) == After(Now(), calls[i..], held)
      {
        ghost var rest := calls[i..];
        assert rest[0] == calls[i] && rest[1..] == calls[i + 1..];
        Perform(calls[i], held);
        ValidIsSound(held);
      }
    }

    // ----- event_loop_close -----

    /** A closed socket goes back to the unused ones and its events to the free ones. */
    method Release(prev: int, s: nat, ghost k: nat) returns (after: int)
      requires Valid(NULL) && k < |socks.lists[RESERVED]| && socks.lists[RESERVED][k] == s
      requires prev == if k == 0 then NULL else socks.lists[RESERVED][k - 1]
      modifies this, socks, socks.next, socks.heads, events, events.next, events.heads
      ensures after == At(old(socks.lists[RESERVED]), k + 1) && Linked() && old(IsReserved(Now(), s))
      ensures Now() == Released(old(Now()), s, k)
      ensures Valid(NULL) <==> Idle(old(Now()), s)
    {
      ghost var b := Now();
      ValidIsSound(NULL);
      socks.Whereabouts(RESERVED, s);
      ReleasedKeptIff(b, s, k, NULL);
      assert socks.Live(RESERVED) && socks.Live(UNUSED) && events.Live(s) && events.Live(|state|);
      hide Pool.Valid, Reverse, SocketsKept, QueuesKept, HoldsOnly, Arranged, Idle;
      after := socks.Relocate(prev, s, RESERVED, UNUSED, k);
      events.GiveBack(s, |state|);
      ReleasedIs(b, Now(), s, k);
      hide Kept, Sound, Released;
    }

    /** What event_loop_close looks for: the socket is closing and no operation waits. */
    method MayClose(s: nat) returns (yes: bool)
      requires Valid(NULL) && Reserved(s)
      ensures yes <==> Doomed(Now(), s)
    {
      ValidIsSound(NULL);
      IdleIff(Now(), s, NULL);
      var writer := FindEvent(s, Write, NULL);
      yes := state[s] == Closing;
      if yes && writer != NULL {
        NoEvent(Now(), s, Write, NULL);
        yes := ops.IsEmpty(writer);
      }
    }

    /**
     * One socket: the callback is called before the socket is moved. Nothing is lost if and only if no call of the
     * callback is a write on this very socket whose guard passes.
     */
    method CloseOne(prev: int, s: nat, calls: seq<Call>, ghost k: nat) returns (after: int)
      requires Valid(NULL) && k < |socks.lists[RESERVED]| && socks.lists[RESERVED][k] == s < |state|
      requires prev == if k == 0 then NULL else socks.lists[RESERVED][k - 1]
      requires Doomed(Now(), s) && Create !in calls
      modifies this, socks, socks.next, socks.heads, events, events.next, events.heads, ops, ops.next, ops.heads
      ensures Linked() && after == At(old(socks.lists[RESERVED]), k + 1)
      ensures var b := old(Now()).(state := old(state)[s := Closed]);
              && Sound(b, NULL) && After(b, calls, NULL).socks == b.socks && |After(b, calls, NULL).state| == |b.state|
              && Now() == Released(After(b, calls, NULL), s, k)
              && (Valid(NULL) <==> !WritesOn(b, calls, s, NULL))
    {
      ghost var b := Now().(state := state[s := Closed]);
      ValidIsSound(NULL);
      StateSound(Now(), s, Closed, NULL);
      AfterSocks(b, calls, NULL);
      AfterIdleIff(b, calls, s, NULL);
      assert Idle(b, s) <==> Idle(Now(), s);
      hide Pool.Valid, Kept, Arranged, Idle, After, Sound, WritesOn;
      state := state[s := Closed];
      assert Now() == b;
      PerformAll(calls, NULL);
      after := Release(prev, s, k);
    }

    /** One turn of event_loop_close: the socket is closed or left where it is. */
    method Visit(prev: int, s: nat, onClose: int -> seq<Call>, ghost b0: Books, ghost k: nat)
      returns (after: int, closed: bool)
      requires Valid(NULL) && k < |socks.lists[RESERVED]| && socks.lists[RESERVED][k] == s
      requires prev == if k == 0 then NULL else socks.lists[RESERVED][k - 1]
      requires Create !in onClose(s) && NeverAccepts(onClose(s), s)
      requires Sized(b0) && Passed(b0, Now(), k, onClose)
      modifies this, socks, socks.next, socks.heads, events, events.next, events.heads, ops, ops.next, ops.heads
      ensures Valid(NULL) && after == At(old(socks.lists[RESERVED]), k + 1)
      ensures closed <==> old(Doomed(Now(), s))
      ensures Passed(b0, Now(), if closed then k else k + 1, onClose)
      ensures closed ==> socks.lists[RESERVED] == Remove(old(socks.lists[RESERVED]), k)
      ensures !closed ==> socks.lists == old(socks.lists)
    {
      ghost var b := Now();
      ValidIsSound(NULL);
      socks.Whereabouts(RESERVED, s);
      socks.Follow(RESERVED, k);
      hide Pool.Valid, SocketsKept, QueuesKept, HoldsOnly, Placed, Passed, Idle;
      closed := MayClose(s);
      if closed {
        PassClosing(b0, b, s, k, onClose);
        StateSound(b, s, Closed, NULL);
        NoAcceptNoWrite(b.(state := b.state[s := Closed]), onClose(s), s, NULL);
        hide Released, WritesOn, After, Sound, Kept;
        after := CloseOne(prev, s, onClose(s), k);
        ReservedAfter(ClosedWith(b, s, onClose(s)), s, k);
      } else {
        PassOn(b0, b, k, onClose);
        after := socks.next[s];
      }
    }

    lemma Unused(s: nat)
      requires Valid(NULL) && s < |state| && !Reserved(s)
      ensures s in socks.lists[UNUSED] && events.lists[s] == []
    {
      socks.Whereabouts(UNUSED, s);
    }

    lemma NoNegative(s: int)
      requires Valid(NULL) && s in socks.lists[RESERVED]
      ensures s >= 0
    {
      ReservedIn(s);
    }

    lemma ReservedIn(s: int)
      requires Valid(NULL)
      ensures Reserved(s) <==> s in socks.lists[RESERVED]
    {
      socks.Whereabouts(RESERVED, s);
    }

    /**
     * event_loop_close. Every socket that was closing and had no operations waiting is unused afterwards and its events are
     * free; every other one that no callback closes is still reserved.
     */
    method CloseAll(onClose: int -> seq<Call>)
      requires Valid(NULL) && forall s :: Create !in onClose(s) && NeverAccepts(onClose(s), s)
      modifies this, socks, socks.next, socks.heads, events, events.next, events.heads, ops, ops.next, ops.heads
      ensures Valid(NULL) && |state| == |old(state)|
      ensures forall s: nat :: s < |state| && Doomed(old(Now()), s) ==> s in socks.lists[UNUSED] && events.lists[s] == []
      ensures forall s: nat :: s < |state| && Spared(old(Now()), onClose, s) ==> Reserved(s)
      ensures forall s :: s in socks.lists[RESERVED] ==> s in old(socks.lists[RESERVED])
    {
      ghost var b0 := Now();
      assert Passed(b0, Now(), 0, onClose);
      hide Pool.Valid, Apart, Kept, Doomed, Spared, Passed;
      CloseWalk(onClose, b0);
      AllPassed(b0, onClose);
    }

    /** Its loop. */
    method CloseWalk(onClose: int -> seq<Call>, ghost b0: Books)
      requires Valid(NULL) && forall s :: Create !in onClose(s) && NeverAccepts(onClose(s), s)
      requires Sized(b0) && Passed(b0, Now(), 0, onClose)
      modifies this, socks, socks.next, socks.heads, events, events.next, events.heads, ops, ops.next, ops.heads
      ensures Valid(NULL) && Passed(b0, Now(), |socks.lists[RESERVED]|, onClose)
    {
      hide Pool.Valid, Linked, Kept, Doomed, Passed, NeverAccepts;
      ghost var k := 0;
      InReservedList(0);
      var curr, prev := socks.heads[RESERVED], NULL;
      while curr != NULL
        invariant Valid(NULL) && |socks.lists| == 2 && Sized(Now()) && k <= |socks.lists[RESERVED]| && curr == At(socks.lists[RESERVED], k)
        invariant prev == if k == 0 then NULL else socks.lists[RESERVED][k - 1]
        invariant Passed(b0, Now(), k, onClose)
        decreases |socks.lists[RESERVED]| - k
      {
        InReservedList(k);
        var after, closed := Visit(prev, curr, onClose, b0, k);
        if !closed {
          prev := curr;
          k := k + 1;
        }
        curr := after;
        InReservedList(k);
      }
      InReservedList(k);
    }

    lemma InReservedList(k: nat)
      requires Valid(NULL)
      ensures |socks.lists| == 2 && Sized(Now()) && socks.heads.Length == 2
      ensures socks.heads[RESERVED] == At(socks.lists[RESERVED], 0)
      ensures k < |socks.lists[RESERVED]| ==> socks.lists[RESERVED][k] >= 0
    {
      socks.Follow(RESERVED, k);
    }

    lemma AllPassed(b0: Books, onClose: int -> seq<Call>)
      requires Valid(NULL) && Sized(b0) && Passed(b0, Now(), |socks.lists[RESERVED]|, onClose)
      ensures |state| == |b0.state|
      ensures forall s: nat :: s < |state| && Doomed(b0, s) ==> s in socks.lists[UNUSED] && events.lists[s] == []
      ensures forall s: nat :: s < |state| && Spared(b0, onClose, s) ==> Reserved(s)
      ensures forall s :: s in socks.lists[RESERVED] ==> s in b0.socks.at[RESERVED]
    {
      forall s: nat | s < |state| && Doomed(b0, s) ensures s in socks.lists[UNUSED] && events.lists[s] == [] {
        ReservedIn(s);
        Unused(s);
      }
    }

    // ----- event_loop_timers -----

    /**
     * A timer of the socket, or any other event: when it is a timer that is due, its callback is
     * called, and the timer is given back when the callback says so. What follows is looked up afterwards.
     */
    method Tick(s: nat, e: nat, turn: Turn) returns (after: int)
      requires Valid(NULL) && Reserved(s) && e in events.lists[s] && e < |kind|
      requires forall i :: 0 <= i < |turn.calls| ==> !Stops(turn.calls[i], e)
      modifies this, socks, socks.next, socks.heads, events, events.next, events.heads, ops, ops.next, ops.heads
      ensures Sound(old(Now()), NULL) && Valid(NULL) && |state| == |old(state)| && Reserved(s)
      ensures Now() == Turned(old(Now()), Seen(s, e, turn)) && after == NextEvent(old(Now()), Seen(s, e, turn))
      ensures Ends(socks.lists[RESERVED], old(socks.lists[RESERVED]))
      ensures after != NULL ==> after in events.lists[s] && Rank(events.lists[s], after) < old(Rank(events.lists[s], e))
    {
      ValidIsSound(NULL);
      hide Pool.Valid, SocketsKept, QueuesKept, HoldsOnly, Rank, Ends, Placed, After, Dropped, Follower;
      if kind[e] == Timer && turn.due {
        assert HasTimer(Now(), s, e);
        CallTimer(s, e, turn.calls);
        assert HasTimer(Now(), s, e);
        if turn.remove {
          after := TakeTimer(s, e);
          return;
        }
      } else {
        EndsSelf(socks.lists[RESERVED]);
      }
      after := Following(s, e);
    }

    /** The callback of a timer: whatever it does, the timer stays where it is. */
    method CallTimer(s: nat, e: nat, calls: seq<Call>)
      requires Valid(NULL) && Reserved(s) && e in events.lists[s] && e < |kind| && kind[e] == Timer
      requires forall i :: 0 <= i < |calls| ==> !Stops(calls[i], e)
      modifies this, socks, socks.next, socks.heads, events, events.next, events.heads, ops, ops.next, ops.heads
      ensures Sound(old(Now()), NULL) && Valid(NULL) && Now() == After(old(Now()), calls, NULL)
      ensures |state| == |old(state)| && |kind| == |old(kind)| && Reserved(s)
      ensures Ends(socks.lists[RESERVED], old(socks.lists[RESERVED]))
      ensures e in events.lists[s] && kind[e] == Timer && Rank(events.lists[s], e) <= old(Rank(events.lists[s], e))
    {
      ReservedIn(s);
      ghost var b := Now();
      ValidIsSound(NULL);
      AfterMild(b, calls, s, e, NULL);
      hide Pool.Valid, SocketsKept, QueuesKept, HoldsOnly, Rank, Ends, After, Arranged;
      PerformAll(calls, NULL);
      EndsKeeps(socks.lists[RESERVED], b.socks.at[RESERVED], s);
      ReservedIn(s);
    }

    /** The event that follows in the list of a socket. */
    method Following(s: nat, e: nat) returns (after: int)
      requires Valid(NULL) && Reserved(s) && e in events.lists[s] && e < |kind|
      ensures after == Follower(events.lists[s], e)
      ensures after != NULL ==> after in events.lists[s] && Rank(events.lists[s], after) < Rank(events.lists[s], e)
    {
      ghost var list := events.lists[s];
      ghost var k := Position(list, e);
      events.Follow(s, k);
      events.ListChained(s);
      RankNext(list, k);
      FollowerAt(list, k);
      after := events.next[e];
    }

    method TakeTimer(s: nat, e: nat) returns (after: int)
      requires Valid(NULL) && Reserved(s) && e in events.lists[s] && e < |kind| && kind[e] == Timer
      modifies events`lists, events`owner, events.next, events.heads
      ensures Valid(NULL) && Reserved(s) && Now() == Dropped(old(Now()), s, e) && after == Follower(old(events.lists[s]), e)
      ensures after != NULL ==> after in events.lists[s] && Rank(events.lists[s], after) < old(Rank(events.lists[s], e))
    {
      ghost var list := events.lists[s];
      ghost var k := Position(list, e);
      events.Follow(s, k);
      events.ListChained(s);
      RankNext(list, k);
      FollowerAt(list, k);
      MinusIsRemove(list, k);
      hide Follower, From, Pool.Valid, SocketsKept, QueuesKept, HoldsOnly, Minus, Rank;
      after := DropEvent(s, e, NULL);
    }

    /**
     * The timers of one socket; callbacks may change the very list that is being walked. Every timer of the socket gets its
     * turn, unless a callback stops it.
     */
    method TickSocket(s: nat, react: Reaction, started: nat) returns (turns: nat, ghost seen: seq<Seen>)
      requires Valid(NULL) && Reserved(s) && KeepsOwnTimer(react)
      modifies this, socks, socks.next, socks.heads, events, events.next, events.heads, ops, ops.next, ops.heads
      ensures Sound(old(Now()), NULL) && Valid(NULL) && |state| == |old(state)| && Reserved(s)
      ensures Ends(socks.lists[RESERVED], old(socks.lists[RESERVED]))
      ensures Now() == Walked(old(Now()), seen) && turns == started + |seen| && InTurn(seen, react, started)
      ensures AllSeen(old(Now()), s, seen)
    {
      hide Pool.Valid, Kept, Arranged, Ends, Rank, Turned, Walked, Remaining, NextEvent, InTurn, AllSeen, KeepsOwnTimer;
      SocketBegins(s);
      ghost var b := Now();
      turns, seen := started, [];
      InTurnNone(react, started);
      var e := events.heads[s];
      while e != NULL
        invariant Valid(NULL) && Reserved(s) && |state| == |old(state)|
        invariant Ends(socks.lists[RESERVED], old(socks.lists[RESERVED]))
        invariant e != NULL ==> e in events.lists[s]
        invariant Now() == Walked(b, seen) && turns == started + |seen| && InTurn(seen, react, started)
        invariant Remaining(b, s, seen, Now(), e)
        decreases if e == NULL then 0 else Rank(events.lists[s], e)
      {
        EventOfSocket(s, e);
        ghost var was := Now();
        KeepsOwn(react, e, turns);
        var turn := react(e, turns);
        ghost var before := socks.lists[RESERVED];
        ghost var v := Seen(s, e, turn);
        e := Tick(s, e, turn);
        EndsTransitive(socks.lists[RESERVED], before, old(socks.lists[RESERVED]));
        WalkedSnoc(b, seen, v);
        InTurnSnoc(seen, v, react, started);
        RemainingStep(b, seen, was, v);
        seen := seen + [v];
        turns := turns + 1;
      }
      NoneRemains(b, s, seen, Now());
    }

    /** Where the walk over the events of a socket begins. */
    lemma SocketBegins(s: nat)
      requires Valid(NULL) && Reserved(s)
      ensures Sound(Now(), NULL) && s < events.heads.Length
      ensures events.heads[s] != NULL ==> events.heads[s] in events.lists[s]
      ensures Remaining(Now(), s, [], Now(), events.heads[s]) && Walked(Now(), []) == Now()
      ensures Ends(socks.lists[RESERVED], socks.lists[RESERVED])
    {
      ValidIsSound(NULL);
      events.Follow(s, 0);
      hide Pool.Valid, SocketsKept, QueuesKept, HoldsOnly, Placed, Remaining, Ends;
      StartsAhead(Now(), s);
      WalkedNone(Now());
      EndsSelf(socks.lists[RESERVED]);
    }

    lemma EventOfSocket(s: nat, e: int)
      requires Valid(NULL) && Reserved(s) && e in events.lists[s]
      ensures 0 <= e < |kind| && Sized(Now()) && Sound(Now(), NULL)
    {
      events.Whereabouts(s, e);
      ValidIsSound(NULL);
    }

    /** Where the walk over the sockets begins. */
    lemma SocketsBegin()
      requires Valid(NULL)
      ensures Sound(Now(), NULL) && socks.heads.Length == 2
      ensures socks.heads[RESERVED] != NULL ==> socks.heads[RESERVED] in socks.lists[RESERVED]
      ensures Unseen(Now(), [], socks.lists[RESERVED], socks.heads[RESERVED]) && Walked(Now(), []) == Now()
      ensures Ends(socks.lists[RESERVED], socks.lists[RESERVED])
    {
      ValidIsSound(NULL);
      socks.Follow(RESERVED, 0);
      hide Pool.Valid, SocketsKept, QueuesKept, HoldsOnly, Placed, Unseen, Ends;
      StartsUnseen(Now());
      WalkedNone(Now());
      EndsSelf(socks.lists[RESERVED]);
    }

    /**
     * event_loop_timers. The loop becomes what the turns make of it, one after the other, and every timer of every
     * reserved socket has one, unless a callback stops it.
     */
    method TickAll(react: Reaction) returns (ghost seen: seq<Seen>)
      requires Valid(NULL) && KeepsOwnTimer(react)
      modifies this, socks, socks.next, socks.heads, events, events.next, events.heads, ops, ops.next, ops.heads
      ensures Sound(old(Now()), NULL) && Valid(NULL) && |state| == |old(state)|
      ensures Ends(socks.lists[RESERVED], old(socks.lists[RESERVED]))
      ensures Now() == Walked(old(Now()), seen) && InTurn(seen, react, 0)
      ensures forall s: nat :: s in old(socks.lists[RESERVED]) ==> AllSeen(old(Now()), s, seen)
    {
      hide Pool.Valid, Apart, Kept, Arranged, Ends, Rank, KeepsOwnTimer, Walked, Unseen, InTurn, AllSeen, Follower;
      SocketsBegin();
      ghost var b := Now();
      var turns := 0;
      seen := [];
      InTurnNone(react, 0);
      var s := socks.heads[RESERVED];
      while s != NULL
        invariant Valid(NULL) && |state| == |old(state)| && Ends(socks.lists[RESERVED], old(socks.lists[RESERVED]))
        invariant s != NULL ==> s in socks.lists[RESERVED]
        invariant Now() == Walked(b, seen) && turns == |seen| && InTurn(seen, react, 0)
        invariant Unseen(b, seen, socks.lists[RESERVED], s)
        decreases if s == NULL then 0 else Rank(socks.lists[RESERVED], s)
      {
        NoNegative(s);
        ghost var was, before, at := Now(), socks.lists[RESERVED], s;
        ghost var more;
        turns, s, more := TickAt(s, react, turns);
        EndsTransitive(socks.lists[RESERVED], before, old(socks.lists[RESERVED]));
        WalkedConcat(b, seen, more);
        InTurnConcat(seen, more, react, 0);
        ValidIsSound(NULL);
        UnseenStep(b, seen, more, before, at, Now());
        seen := seen + more;
      }
      AllWereSeen(b, seen, socks.lists[RESERVED]);
    }

    /** One turn of its outer loop. */
    method TickAt(s: nat, react: Reaction, started: nat) returns (turns: nat, after: int, ghost seen: seq<Seen>)
      requires Valid(NULL) && KeepsOwnTimer(react) && s in socks.lists[RESERVED]
      modifies this, socks, socks.next, socks.heads, events, events.next, events.heads, ops, ops.next, ops.heads
      ensures Sound(old(Now()), NULL) && Valid(NULL) && |state| == |old(state)|
      ensures Ends(socks.lists[RESERVED], old(socks.lists[RESERVED]))
      ensures Now() == Walked(old(Now()), seen) && turns == started + |seen| && InTurn(seen, react, started)
      ensures AllSeen(old(Now()), s, seen) && after == Follower(socks.lists[RESERVED], s)
      ensures after != NULL ==> after in socks.lists[RESERVED]
                                && Rank(socks.lists[RESERVED], after) < old(Rank(socks.lists[RESERVED], s))
    {
      ReservedIn(s);
      hide Pool.Valid, SocketsKept, QueuesKept, HoldsOnly, Ends, Rank, Walked, AllSeen, Follower, InTurn;
      ghost var before := socks.lists[RESERVED];
      turns, seen := TickSocket(s, react, started);
      after := NextReserved(s, before);
    }

    method NextReserved(s: nat, ghost before: seq<int>) returns (after: int)
      requires Valid(NULL) && Ends(socks.lists[RESERVED], before) && s in before
      ensures after == Follower(socks.lists[RESERVED], s)
      ensures after != NULL ==>
                after in socks.lists[RESERVED] && Rank(socks.lists[RESERVED], after) < Rank(before, s)
    {
      ghost var list := socks.lists[RESERVED];
      EndsKeeps(list, before, s);
      socks.ListChained(RESERVED);
      RankEnds(list, before, s);
      ghost var k := Position(list, s);
      socks.Follow(RESERVED, k);
      RankNext(list, k);
      FollowerAt(list, k);
      after := socks.next[s];
    }

    // ----- Write operations -----

    /** LL_POP of the first operation of a queue: the step holds it. */
    method HoldOp(e: nat) returns (op: nat)
      requires Valid(NULL) && e < |kind| && ops.lists[e] != []
      modifies ops`lists, ops`owner, ops.heads
      ensures op == old(ops.lists[e][0]) && op < |ops.owner| && Valid(op) && |ops.owner| == |old(ops.owner)|
      ensures ops.lists == old(ops.lists)[e := old(ops.lists[e])[1..]]
      ensures Now() == Held(old(Now()), e)
    {
      ghost var b := Now();
      ops.Whereabouts(e, ops.lists[e][0]);
      assert ops.live[e];
      hide Pool.Valid;
      op := ops.Pop(e);
      HeldKept(b, Now(), e, op, b.ops.at[e][1..]);
      hide Kept;
    }

    /** LL_PUSH on the free operations. */
    method FreeOp(op: nat)
      requires op < |ops.owner| && Valid(op)
      modifies ops`lists, ops`owner, ops.next, ops.heads
      ensures Valid(NULL) && ops.lists == old(ops.lists)[|kind| := [op] + old(ops.lists[|kind|])]
      ensures Now() == Freed(old(Now()), op)
    {
      ghost var b := Now();
      assert ops.heads.Length == |kind| + 1;
      hide Pool.Valid;
      var _ := ops.Push(op, |kind|);
      FreedKept(b, Now(), op, [op] + b.ops.at[|kind|]);
      hide Kept;
    }

    /** LL_PUSH back on the queue it was taken from. */
    method PutBackOp(op: nat, e: nat)
      requires op < |ops.owner| && Valid(op) && e < |kind| && kind[e] == Write && events.owner[e] < |state|
      modifies ops`lists, ops`owner, ops.next, ops.heads
      ensures Valid(NULL) && ops.lists == old(ops.lists)[e := [op] + old(ops.lists[e])]
      ensures ops.owner == old(ops.owner)[op := e]
    {
      ghost var b := Now();
      assert ops.heads.Length == |kind| + 1 && ops.live[e];
      hide Pool.Valid;
      var _ := ops.Push(op, e);
      PutBackKept(b, Now(), op, e, [op] + b.ops.at[e]);
      hide Kept;
    }

    /**
     * One turn of event_sock_handle_write: the first operation is complete, and its callback is called while it is in no
     * list; or it was sent in part and goes back to the front of its queue.
     */
    method HandleOp(e: nat, complete: bool, calls: seq<Call>)
      requires Valid(NULL) && e < |kind| && ops.lists[e] != []
      modifies this, socks, socks.next, socks.heads, events, events.next, events.heads, ops, ops.next, ops.heads
      ensures Sound(old(Now()), NULL) && Valid(NULL)
      ensures Now() == if complete then Told(old(Now()), e, calls) else old(Now())
    {
      hide Pool.Valid, Linked, Kept, Sound, After, Freed;
      QueueHasWriter(e);
      ValidIsSound(NULL);
      ghost var b := Now();
      var op := HoldOp(e);
      if complete {
        TellOp(e, op, calls);
        FreeOp(op);
      } else {
        PutBackOp(op, e);
        assert [op] + b.ops.at[e][1..] == b.ops.at[e];
        assert b.ops.owner[op := |kind| + 1][op := e] == b.ops.owner;
      }
    }

    lemma QueueHasWriter(e: nat)
      requires Valid(NULL) && e < |kind| && ops.lists[e] != []
      ensures kind[e] == Write && |events.owner| == |kind| && events.owner[e] < |state|
      ensures |ops.lists| == |kind| + 1 && 0 <= ops.lists[e][0] < |ops.owner| && ops.owner[ops.lists[e][0]] == e
    {
      ops.Whereabouts(e, ops.lists[e][0]);
    }

    /** event_sock_close: the first operation's callback may be told while it is in no list; then all of them are given back. */
    method GiveUpOps(e: nat, tell: bool, calls: seq<Call>)
      requires Valid(NULL) && e < |kind| && kind[e] == Write && events.owner[e] < |state|
      modifies this, socks, socks.next, socks.heads, events, events.next, events.heads, ops, ops.next, ops.heads
      ensures Valid(NULL) && |kind| == |old(kind)| && ops.lists[e] == []
    {
      hide Pool.Valid, Kept;
      var none := QueueIsEmpty(e);
      if !none {
        var op := HoldOp(e);
        if tell {
          TellOp(e, op, calls);
        }
        FreeOp(op);
        GiveUpRest(e);
      }
    }

    /** The callback of an operation that the step holds: its write event stays. */
    method TellOp(e: nat, op: nat, calls: seq<Call>)
      requires op < |ops.owner| && Valid(op) && e < |kind| && kind[e] == Write && events.owner[e] < |state|
      modifies this, socks, socks.next, socks.heads, events, events.next, events.heads, ops, ops.next, ops.heads
      ensures Valid(op) && op < |ops.owner| && |kind| == |old(kind)| && kind[e] == Write && events.owner[e] < |state|
      ensures Sound(old(Now()), op) && Now() == After(old(Now()), calls, op)
    {
      ValidIsSound(op);
      AfterMild(Now(), calls, NULL, NULL, op);
      hide Pool.Valid, SocketsKept, QueuesKept, HoldsOnly, After, Arranged, Ends;
      PerformAll(calls, op);
    }

    method QueueIsEmpty(e: nat) returns (none: bool)
      requires Valid(NULL) && e < |kind| && kind[e] == Write && events.owner[e] < |state|
      ensures none <==> ops.lists[e] == []
    {
      none := ops.IsEmpty(e);
    }

    method GiveUpRest(e: nat)
      requires Valid(NULL) && e < |kind| && kind[e] == Write && events.owner[e] < |state|
      modifies ops`lists, ops`owner, ops.next, ops.heads
      ensures Valid(NULL) && ops.lists[e] == []
      ensures |ops.lists[|kind|]| == |old(ops.lists[|kind|])| + |old(ops.lists[e])|
    {
      hide Pool.Valid, SocketsKept, QueuesKept, HoldsOnly;
      var none := QueueIsEmpty(e);
      while !none
        invariant Valid(NULL) && (none <==> ops.lists[e] == [])
        invariant |ops.lists[|kind|]| + |ops.lists[e]| == |old(ops.lists[|kind|])| + |old(ops.lists[e])|
        decreases |ops.lists[e]|
      {
        GiveUpOne(e);
        none := QueueIsEmpty(e);
      }
    }

    method GiveUpOne(e: nat)
      requires Valid(NULL) && e < |kind| && ops.lists[e] != []
      modifies ops`lists, ops`owner, ops.next, ops.heads
      ensures Valid(NULL)
      ensures |ops.lists[e]| == |old(ops.lists[e])| - 1 && |ops.lists[|kind|]| == |old(ops.lists[|kind|])| + 1
    {
      hide Pool.Valid, SocketsKept, QueuesKept, HoldsOnly;
      var op := HoldOp(e);
      FreeOp(op);
    }
  }

  /** event_loop_init. */
  method NewLoop(sockets: nat, maxEvents: nat, maxOps: nat) returns (loop: Loop)
    requires sockets > 0 && maxEvents > 0 && maxOps > 0
    ensures loop.Valid(NULL) && |loop.state| == sockets && |loop.kind| == maxEvents && |loop.ops.owner| == maxOps
    ensures loop.socks.lists == Initial(sockets, 2, UNUSED)
  {
    var socks := new Pool(sockets, 2, UNUSED);
    var events := new Pool(maxEvents, sockets + 1, sockets);
    var ops := new Pool(maxOps, maxEvents + 1, maxEvents);
    hide Pool.Valid, Initial;
    loop := new Loop(socks, events, ops, sockets, maxEvents);
    StartsKept(loop.Now());
    hide Kept;
  }

  lemma {:induction false} FoundFirst(list: seq<int>, kind: seq<Kind>, k: Kind, e: int)
    requires e == NULL ==> forall i :: 0 <= i < |list| ==> !(0 <= list[i] < |kind| && kind[list[i]] == k)
    requires e != NULL ==> IsFirst(list, x => 0 <= x < |kind| && kind[x] == k, e)
    ensures e == FirstOf(list, kind, k)
  {
    if list != [] && !(0 <= list[0] < |kind| && kind[list[0]] == k) {
      FoundFirst(list[1..], kind, k, e);
    }
  }
}
