/**
 * The bytes in the write rings of src/event.c and the operations of its pool, in one account: over every pass of the
 * loop, what the operations queued for a socket have still to send is what waits in its ring.
 */
module EventBytes {
  import opened Bits
  import opened LinkedList
  import opened EventSpec
  import opened EventCalls
  import WriteQueue

  /** Bytes of each operation, and the bytes in the write ring of each event. */
  datatype Account = Account(books: Books, bytes: seq<nat>, pending: seq<nat>, capacity: nat)

  /** A call of a callback, with the number of bytes if it is a write. */
  datatype Ask = Ask(call: Call, size: nat)

  /** What callbacks do, free to depend on everything. */
  type Reaction = Account -> seq<Ask>

  function BytesOf(n: int, bytes: seq<nat>): (r: nat) {
    if 0 <= n < |bytes| then bytes[n] else 0
  }

  /** What the operations of a queue have still to send. */
  function Owed(queue: seq<int>, bytes: seq<nat>): (n: nat) {
    if queue == [] then 0 else BytesOf(queue[0], bytes) + Owed(queue[1..], bytes)
  }

  predicate IsWriter(b: Books, e: int) {
    0 <= e < |b.kind| && e < |b.events.owner| && b.kind[e] == Write && b.events.owner[e] < |b.state|
  }

  ghost predicate Fits(a: Account) {
    Sized(a.books) && |a.bytes| == |a.books.ops.owner| && |a.pending| == |a.books.kind|
  }

  /**
   * Every node is in one list but for the operation held, every queued operation has bytes to send, and every ring has the
   * bytes its queue owes, but for that of the debtor: from there bytes were sent of which nobody has been told yet.
   */
  ghost predicate Balanced(a: Account, held: int, debtor: int, debt: nat) {
    && Fits(a) && Sound(a.books, held)
    && (debt > 0 ==> IsWriter(a.books, debtor))
    && (forall e :: IsWriter(a.books, e) ==>
          Owed(a.books.ops.at[e], a.bytes) == a.pending[e] + if e == debtor then debt else 0)
    && (forall n :: 0 <= n < |a.bytes| && a.books.ops.owner[n] < |a.books.kind| ==> a.bytes[n] > 0)
  }

  lemma BalancedIs(a: Account, held: int, debtor: int, debt: nat)
    requires Balanced(a, held, debtor, debt)
    ensures Fits(a) && Sound(a.books, held)
    ensures |a.bytes| == |a.books.ops.owner| && |a.books.ops.at| == |a.books.kind| + 1 && |a.pending| == |a.books.kind|
  {
  }

  lemma WriterIs(a: Account, e: nat)
    requires Fits(a) && IsWriter(a.books, e)
    ensures e < |a.books.kind| == |a.pending| && e < |a.books.ops.at|
  {
  }

  // ----- Sums over queues -----

  lemma {:induction false} OwedElsewhere(queue: seq<int>, bytes: seq<nat>, n: nat, x: nat)
    requires n < |bytes| && n !in queue
    ensures Owed(queue, bytes[n := x]) == Owed(queue, bytes)
  {
    if queue != [] {
      OwedElsewhere(queue[1..], bytes, n, x);
    }
  }

  lemma {:induction false} OwedSnoc(queue: seq<int>, n: int, bytes: seq<nat>)
    ensures Owed(queue + [n], bytes) == Owed(queue, bytes) + BytesOf(n, bytes)
  {
    if queue == [] {
      assert [n][1..] == [];
    } else {
      assert (queue + [n])[1..] == queue[1..] + [n];
      OwedSnoc(queue[1..], n, bytes);
    }
  }

  // ----- Calls -----

  /** What the ring takes of a write. */
  ghost function Taken(a: Account, e: nat, size: nat): (n: nat)
    requires e < |a.pending|
  {
    if a.pending[e] < a.capacity then Min(size, a.capacity - a.pending[e]) else 0
  }

  /** event_write: as many bytes as the ring takes, and one operation for them unless that is none. */
  ghost function Written(a: Account, s: nat, size: nat, held: int): (r: Account)
    requires Fits(a) && Sound(a.books, held) && MayWrite(a.books, s)
  {
    Firsts(a.books, held);
    var e, op := EventOf(a.books, s, Write), a.books.ops.at[|a.books.kind|][0];
    var n := Taken(a, e, size);
    if n == 0 then a
    else a.(books := Queued(a.books, e), bytes := a.bytes[op := n], pending := a.pending[e := a.pending[e] + n])
  }

  /** A call of a callback; event_write_enable empties the ring. */
  ghost function DoAsk(a: Account, ask: Ask, held: int): (r: Account)
    requires Fits(a) && Sound(a.books, held)
  {
    Firsts(a.books, held);
    var b := a.books;
    match ask.call
    case QueueWrite(s) => if MayWrite(b, s) then Written(a, s, ask.size, held) else a
    case Add(s, k) =>
      if MayAdd(b, s, k) then a.(books := Added(b, s, k), pending := a.pending[b.events.at[|b.state|][0] := 0]) else a
    case _ => a.(books := Do(b, ask.call, held))
  }

  /** The call that is made of it: a write of which the ring takes nothing is none. */
  ghost function Effect(a: Account, ask: Ask): (calls: seq<Call>)
    requires Fits(a)
  {
    if !ask.call.QueueWrite? then [ask.call]
    else if MayWrite(a.books, ask.call.sock) && Taken(a, EventOf(a.books, ask.call.sock, Write), ask.size) > 0 then [ask.call]
    else []
  }

  lemma DoAskIsDo(a: Account, ask: Ask, held: int)
    requires Fits(a) && Sound(a.books, held)
    ensures DoAsk(a, ask, held).books == After(a.books, Effect(a, ask), held)
  {
    hide Added, Created, Dropped, Queued, Ending, EventOf, SocketsKept, QueuesKept, HoldsOnly, Arranged;
    var calls := Effect(a, ask);
    DoSound(a.books, ask.call, held);
    if calls != [] {
      assert calls == [ask.call] && calls[1..] == [];
      assert After(a.books, calls, held) == After(Do(a.books, ask.call, held), [], held);
    }
  }

  lemma WrittenBalanced(a: Account, s: nat, size: nat, held: int, debtor: int, debt: nat)
    requires Balanced(a, held, debtor, debt) && MayWrite(a.books, s)
    ensures Balanced(Written(a, s, size, held), held, debtor, debt)
  {
    var b, a' := a.books, Written(a, s, size, held);
    QueuedSound(b, s, held);
    NoEvent(b, s, Write, held);
    var e, op := EventOf(b, s, Write), b.ops.at[|b.kind|][0];
    var n := Taken(a, e, size);
    if n > 0 {
      forall d | IsWriter(b, d)
        ensures Owed(a'.books.ops.at[d], a'.bytes) == Owed(b.ops.at[d], a.bytes) + if d == e then n else 0
      {
        InList(b.ops, d, op);
        OwedElsewhere(b.ops.at[d], a.bytes, op, n);
        OwedSnoc(b.ops.at[d], op, a'.bytes);
      }
      hide Owed, Sound, FirstOf;
    }
  }

  lemma AddedBalanced(a: Account, s: nat, k: Kind, held: int, debtor: int, debt: nat)
    requires Balanced(a, held, debtor, debt) && MayAdd(a.books, s, k)
    ensures Balanced(DoAsk(a, Ask(Add(s, k), 0), held), held, debtor, debt)
  {
    var b, a' := a.books, DoAsk(a, Ask(Add(s, k), 0), held);
    AddedSound(b, s, k, held);
    FirstIsOwned(b.events, |b.state|);
    var e0 := b.events.at[|b.state|][0];
    hide Sound, MayAdd;
    assert !IsWriter(b, e0);
    assert forall e :: e != e0 ==> (IsWriter(a'.books, e) <==> IsWriter(b, e));
    assert Owed([], a.bytes) == 0;
    hide Owed;
    assert debtor == e0 ==> debt == 0;
  }

  /** Calls that touch neither write events nor operations. */
  lemma OtherBalanced(a: Account, call: Call, held: int, debtor: int, debt: nat)
    requires Balanced(a, held, debtor, debt) && !call.QueueWrite? && !call.Add?
    ensures Balanced(a.(books := Do(a.books, call, held)), held, debtor, debt)
  {
    var b, b' := a.books, Do(a.books, call, held);
    DoSound(b, call, held);
    OtherWriters(b, call, held);
    hide Sound, Do, Owed;
  }

  lemma OtherWriters(b: Books, call: Call, held: int)
    requires Sound(b, held) && !call.QueueWrite? && !call.Add?
    ensures var b' := Do(b, call, held);
            && Sized(b') && b'.ops == b.ops && b'.kind == b.kind
            && forall e :: IsWriter(b', e) <==> IsWriter(b, e)
  {
    DoSound(b, call, held);
    match call
    case StopRead(s) =>
      if IsReserved(b, s) && EventOf(b, s, Read) != NULL { DroppedWriters(b, s, EventOf(b, s, Read), held); }
    case StopTimer(s, e) =>
      if IsReserved(b, s) && e < |b.kind| && e in b.events.at[s] && b.kind[e] == Timer { DroppedWriters(b, s, e, held); }
    case _ => hide EventOf, Minus;
  }

  lemma DroppedWriters(b: Books, s: nat, e: nat, held: int)
    requires Sound(b, held) && IsReserved(b, s) && e < |b.kind| && e in b.events.at[s] && b.kind[e] != Write
    ensures var b' := Dropped(b, s, e);
            Sized(b') && b'.ops == b.ops && b'.kind == b.kind && forall d :: IsWriter(b', d) <==> IsWriter(b, d)
  {
    hide Minus, Arranged, SocketsKept, QueuesKept, HoldsOnly;
  }

  lemma DoAskBalanced(a: Account, ask: Ask, held: int, debtor: int, debt: nat)
    requires Balanced(a, held, debtor, debt)
    ensures Balanced(DoAsk(a, ask, held), held, debtor, debt)
  {
    hide Written, Added, Do, MayAdd, MayWrite;
    match ask.call
    case QueueWrite(s) => if MayWrite(a.books, s) { WrittenBalanced(a, s, ask.size, held, debtor, debt); }
    case Add(s, k) => if MayAdd(a.books, s, k) { AddedBalanced(a, s, k, held, debtor, debt); }
    case _ => OtherBalanced(a, ask.call, held, debtor, debt);
  }

  /** All the calls of a callback. */
  ghost function AskAll(a: Account, asks: seq<Ask>, held: int): (r: Account)
    requires Fits(a) && Sound(a.books, held)
    ensures Fits(r) && Sound(r.books, held)
    decreases |asks|
  {
    if asks == [] then a
    else
      DoAskIsDo(a, asks[0], held);
      DoAskFits(a, asks[0], held);
      AskAll(DoAsk(a, asks[0], held), asks[1..], held)
  }

  lemma DoAskSizes(a: Account, ask: Ask, held: int)
    requires Fits(a) && Sound(a.books, held)
    ensures var r := DoAsk(a, ask, held); |r.bytes| == |a.bytes| && |r.pending| == |a.pending|
  {
    Firsts(a.books, held);
    hide Sound, Do, EventOf, Added, Queued, Taken;
  }

  /** No call takes a write event away, or opens its ring again. */
  lemma DoAskFits(a: Account, ask: Ask, held: int)
    requires Fits(a) && Sound(a.books, held)
    ensures var r := DoAsk(a, ask, held);
            && Fits(r) && |r.books.kind| == |a.books.kind|
            && forall e :: IsWriter(a.books, e) ==> IsWriter(r.books, e) && (a.books.ended[e] ==> r.books.ended[e])
  {
    DoAskIsDo(a, ask, held);
    DoAskSizes(a, ask, held);
    AfterMild(a.books, Effect(a, ask), NULL, NULL, held);
    hide DoAsk, After, Effect, Sound, Ends;
  }

  lemma {:induction false} AskAllBalanced(a: Account, asks: seq<Ask>, held: int, debtor: int, debt: nat)
    requires Balanced(a, held, debtor, debt)
    ensures Balanced(AskAll(a, asks, held), held, debtor, debt)
    decreases |asks|
  {
    if asks != [] {
      DoAskBalanced(a, asks[0], held, debtor, debt);
      assert Fits(a) && Sound(a.books, held);
      DoAskFits(a, asks[0], held);
      DoAskIsDo(a, asks[0], held);
      hide Balanced, DoAsk, Fits, Sound;
      AskAllBalanced(DoAsk(a, asks[0], held), asks[1..], held, debtor, debt);
    }
  }

  /** The calls that are made of all of them. */
  ghost function Effects(a: Account, asks: seq<Ask>, held: int): (calls: seq<Call>)
    requires Fits(a) && Sound(a.books, held)
    decreases |asks|
  {
    if asks == [] then []
    else
      DoAskIsDo(a, asks[0], held);
      DoAskFits(a, asks[0], held);
      Effect(a, asks[0]) + Effects(DoAsk(a, asks[0], held), asks[1..], held)
  }

  lemma {:induction false} AskAllIsAfter(a: Account, asks: seq<Ask>, held: int)
    requires Fits(a) && Sound(a.books, held)
    ensures AskAll(a, asks, held).books == After(a.books, Effects(a, asks, held), held)
    decreases |asks|
  {
    if asks != [] {
      DoAskIsDo(a, asks[0], held);
      DoAskFits(a, asks[0], held);
      var a', first := DoAsk(a, asks[0], held), Effect(a, asks[0]);
      hide DoAsk, Effect, Sound, Fits, Do;
      AskAllIsAfter(a', asks[1..], held);
      AfterConcat(a.books, first, Effects(a', asks[1..], held), held);
    }
  }

  lemma {:induction false} AfterConcat(b: Books, x: seq<Call>, y: seq<Call>, held: int)
    requires Sound(b, held)
    ensures After(b, x + y, held) == After(After(b, x, held), y, held)
    decreases |x|
  {
    hide Sound, Do;
    if x == [] {
      assert x + y == y;
    } else {
      assert (x + y)[1..] == x[1..] + y;
      DoSound(b, x[0], held);
      AfterConcat(Do(b, x[0], held), x[1..], y, held);
    }
  }

  // ----- Sending -----

  lemma HeldBalanced(a: Account, e: nat, debt: nat)
    requires Balanced(a, NULL, e, debt) && IsWriter(a.books, e) && a.books.ops.at[e] != []
    requires BytesOf(a.books.ops.at[e][0], a.bytes) <= debt
    ensures var op := a.books.ops.at[e][0];
            0 <= op < |a.bytes| && a.bytes[op] > 0 &&
            Balanced(a.(books := Held(a.books, e)), op, e, debt - a.bytes[op])
  {
    HeldSound(a.books, e);
    var b' := Held(a.books, e);
    hide Sound, Owed;
    assert Owed(a.books.ops.at[e], a.bytes) == BytesOf(a.books.ops.at[e][0], a.bytes) + Owed(b'.ops.at[e], a.bytes) by {
      OwedFirst(a.books.ops.at[e], a.bytes);
    }
    assert forall d :: IsWriter(b', d) <==> IsWriter(a.books, d);
  }

  lemma OwedFirst(queue: seq<int>, bytes: seq<nat>)
    requires queue != []
    ensures Owed(queue, bytes) == BytesOf(queue[0], bytes) + Owed(queue[1..], bytes)
  {
  }

  lemma FreedBalanced(a: Account, op: nat, e: int, debt: nat)
    requires Balanced(a, op, e, debt) && op < |a.bytes|
    ensures Balanced(a.(books := Freed(a.books, op)), NULL, e, debt)
  {
    FreedSound(a.books, op);
    hide Sound, Owed;
    assert forall d :: IsWriter(Freed(a.books, op), d) <==> IsWriter(a.books, d);
  }

  /** Callbacks take no write event away. */
  lemma AskAllKeepsWriter(a: Account, asks: seq<Ask>, held: int, e: nat)
    requires Fits(a) && Sound(a.books, held) && IsWriter(a.books, e)
    ensures var r := AskAll(a, asks, held);
            && IsWriter(r.books, e) && (a.books.ended[e] ==> r.books.ended[e])
            && |r.bytes| == |a.bytes| && |r.books.kind| == |a.books.kind|
  {
    AskAllIsAfter(a, asks, held);
    AfterMild(a.books, Effects(a, asks, held), NULL, NULL, held);
    hide After, Effects, AskAll, Sound, Ends;
  }

  lemma NoneOwed(a: Account, e: nat, debt: nat)
    requires Balanced(a, NULL, e, debt) && IsWriter(a.books, e) && a.books.ops.at[e] == []
    ensures debt == 0 && a.pending[e] == 0 && Balanced(a, NULL, NULL, 0)
  {
    assert Owed([], a.bytes) == 0;
    hide Owed, Sound;
  }

  lemma PartBalanced(a: Account, e: nat, left: nat)
    requires Balanced(a, NULL, e, left) && IsWriter(a.books, e) && a.books.ops.at[e] != []
    requires BytesOf(a.books.ops.at[e][0], a.bytes) > left
    ensures var op := a.books.ops.at[e][0];
            0 <= op < |a.bytes| && Balanced(a.(bytes := a.bytes[op := a.bytes[op] - left]), NULL, NULL, 0)
  {
    var b, op := a.books, a.books.ops.at[e][0];
    FirstIsOwned(b.ops, e);
    var bytes := a.bytes[op := a.bytes[op] - left];
    forall d | IsWriter(b, d)
      ensures Owed(b.ops.at[d], bytes) == Owed(b.ops.at[d], a.bytes) - if d == e then left else 0
    {
      InList(b.ops, d, op);
      if d == e {
        var queue := b.ops.at[e];
        assert Owned(queue, b.ops.owner, e);
        assert op !in queue[1..];
        OwedElsewhere(queue[1..], a.bytes, op, a.bytes[op] - left);
      } else {
        OwedElsewhere(b.ops.at[d], a.bytes, op, a.bytes[op] - left);
      }
    }
    hide Owed, Sound;
  }

  /** The first operation is complete: it is taken out, its callback is called, and it is free. */
  ghost function TellFirst(a: Account, e: nat, react: Reaction): (r: Account)
    requires Fits(a) && Sound(a.books, NULL) && e < |a.books.kind| && a.books.ops.at[e] != []
    ensures Fits(r) && Sound(r.books, NULL)
  {
    HeldSound(a.books, e);
    var op := a.books.ops.at[e][0];
    var a' := a.(books := Held(a.books, e));
    var r := AskAll(a', react(a'), op);
    AskAllIsAfter(a', react(a'), op);
    AfterMild(a'.books, Effects(a', react(a'), op), NULL, NULL, op);
    FreedSound(r.books, op);
    r.(books := Freed(r.books, op))
  }

  /** On the pools that is one turn of EventLoop.Loop.HandleOp, with the calls that come of what the callback asks. */
  lemma TellFirstIsTold(a: Account, e: nat, react: Reaction)
    requires Fits(a) && Sound(a.books, NULL) && e < |a.books.kind| && a.books.ops.at[e] != []
    ensures exists calls :: TellFirst(a, e, react).books == Told(a.books, e, calls)
  {
    HeldSound(a.books, e);
    var op := a.books.ops.at[e][0];
    var a' := a.(books := Held(a.books, e));
    AskAllIsAfter(a', react(a'), op);
    hide AskAll, Effects, After, Sound, Held;
    assert TellFirst(a, e, react).books == Told(a.books, e, Effects(a', react(a'), op));
  }

  lemma TellFirstBalanced(a: Account, e: nat, debt: nat, react: Reaction)
    requires Balanced(a, NULL, e, debt) && IsWriter(a.books, e) && a.books.ops.at[e] != []
    requires BytesOf(a.books.ops.at[e][0], a.bytes) <= debt
    ensures var n, r := BytesOf(a.books.ops.at[e][0], a.bytes), TellFirst(a, e, react);
            && 0 < n && Balanced(r, NULL, e, debt - n) && IsWriter(r.books, e) && |r.books.kind| == |a.books.kind|
            && (a.books.ended[e] ==> r.books.ended[e])
  {
    HeldBalanced(a, e, debt);
    var op := a.books.ops.at[e][0];
    var a' := a.(books := Held(a.books, e));
    assert IsWriter(a'.books, e);
    AskAllBalanced(a', react(a'), op, e, debt - a.bytes[op]);
    AskAllKeepsWriter(a', react(a'), op, e);
    hide Balanced, AskAll, Sound;
    FreedBalanced(AskAll(a', react(a'), op), op, e, debt - a.bytes[op]);
  }

  lemma NoDebt(a: Account, e: int)
    ensures Balanced(a, NULL, e, 0) <==> Balanced(a, NULL, NULL, 0)
  {
    hide Sound, Owed, IsWriter;
  }

  lemma FirstQueued(a: Account, e: nat)
    requires Fits(a) && Sound(a.books, NULL) && e < |a.books.kind| && a.books.ops.at[e] != []
    ensures 0 <= a.books.ops.at[e][0] < |a.bytes|
  {
    FirstIsOwned(a.books.ops, e);
  }

  /** One turn: the first operation is complete, or takes all the bytes that are left. */
  ghost function TellOnce(a: Account, e: nat, left: nat, react: Reaction): (r: (Account, nat))
    requires Fits(a) && Sound(a.books, NULL) && e < |a.books.kind| && a.books.ops.at[e] != []
    ensures Fits(r.0) && Sound(r.0.books, NULL)
  {
    FirstQueued(a, e);
    var op := a.books.ops.at[e][0];
    if a.bytes[op] > left then (a.(bytes := a.bytes[op := a.bytes[op] - left]), 0)
    else (TellFirst(a, e, react), left - a.bytes[op])
  }

  lemma TellOnceBalanced(a: Account, e: nat, left: nat, react: Reaction)
    requires Balanced(a, NULL, e, left) && IsWriter(a.books, e) && a.books.ops.at[e] != []
    ensures var r := TellOnce(a, e, left, react); Balanced(r.0, NULL, e, r.1) && IsWriter(r.0.books, e)
    ensures left > 0 ==> TellOnce(a, e, left, react).1 < left
  {
    hide Balanced, Sound, Fits, IsWriter, TellFirst;
    BalancedIs(a, NULL, e, left);
    WriterIs(a, e);
    FirstQueued(a, e);
    if BytesOf(a.books.ops.at[e][0], a.bytes) > left {
      PartBalanced(a, e, left);
      NoDebt(TellOnce(a, e, left, react).0, e);
    } else {
      TellFirstBalanced(a, e, left, react);
    }
  }

  /** event_sock_handle_write, for bytes that are no longer in the ring. */
  ghost function Tell(a: Account, e: nat, left: nat, react: Reaction): (r: Account)
    requires Balanced(a, NULL, e, left) && IsWriter(a.books, e)
    ensures Balanced(r, NULL, NULL, 0) && IsWriter(r.books, e)
    decreases left
  {
    if a.books.ops.at[e] == [] then NoneOwed(a, e, left); a
    else if left == 0 then NoDebt(a, e); a
    else
      TellOnceBalanced(a, e, left, react);
      var r := TellOnce(a, e, left, react);
      Tell(r.0, e, r.1, react)
  }

  /** event_sock_write: the socket takes n of the bytes in the ring, and the operations are told. */
  ghost function Sent(a: Account, e: nat, n: nat, react: Reaction): (r: Account)
    requires Balanced(a, NULL, NULL, 0) && IsWriter(a.books, e) && n <= a.pending[e]
    ensures Balanced(r, NULL, NULL, 0)
  {
    SendingBalanced(a, e, n);
    Tell(a.(pending := a.pending[e := a.pending[e] - n]), e, n, react)
  }

  lemma SendingBalanced(a: Account, e: nat, n: nat)
    requires Balanced(a, NULL, NULL, 0) && IsWriter(a.books, e) && e < |a.pending| && n <= a.pending[e]
    ensures Balanced(a.(pending := a.pending[e := a.pending[e] - n]), NULL, e, n)
  {
    hide Sound, Owed;
  }

  // ----- The queue of one socket -----

  /** The operations of a queue as the write queue of a socket has them. */
  function OpsOf(queue: seq<int>, bytes: seq<nat>): (ops: seq<WriteQueue.Op>)
    ensures |ops| == |queue|
  {
    seq(|queue|, i requires 0 <= i < |queue| => WriteQueue.Op(if queue[i] < 0 then 0 else queue[i], BytesOf(queue[i], bytes)))
  }

  function QueueOf(a: Account, e: nat): (ops: seq<WriteQueue.Op>) {
    if e < |a.books.ops.at| then OpsOf(a.books.ops.at[e], a.bytes) else []
  }

  /** The queue of an event has grown at its end. */
  ghost predicate Grown(a: Account, r: Account, e: nat, added: seq<WriteQueue.Op>) {
    WriteQueue.Positive(added) && QueueOf(r, e) == QueueOf(a, e) + added
  }

  lemma WrittenGrows(a: Account, s: nat, size: nat, held: int, e: nat) returns (added: seq<WriteQueue.Op>)
    requires Fits(a) && Sound(a.books, held) && IsWriter(a.books, e) && MayWrite(a.books, s)
    ensures Fits(Written(a, s, size, held)) && Grown(a, Written(a, s, size, held), e, added)
  {
    var b, r := a.books, Written(a, s, size, held);
    QueuedSound(b, s, held);
    var d, op := EventOf(b, s, Write), b.ops.at[|b.kind|][0];
    var n := Taken(a, d, size);
    InList(b.ops, e, op);
    added := if d == e && n > 0 then [WriteQueue.Op(op, n)] else [];
    hide Sound, FirstOf, EventOf;
    assert OpsOf(r.books.ops.at[e], r.bytes) == OpsOf(b.ops.at[e], a.bytes) + added;
  }

  lemma DoAskGrows(a: Account, ask: Ask, held: int, e: nat) returns (added: seq<WriteQueue.Op>)
    requires Fits(a) && Sound(a.books, held) && IsWriter(a.books, e)
    ensures var r := DoAsk(a, ask, held); Fits(r) && IsWriter(r.books, e) && Grown(a, r, e, added)
  {
    DoAskFits(a, ask, held);
    added := [];
    hide Written, Do, MayAdd, MayWrite, Sound, IsWriter, OpsOf, BytesOf, Sized;
    assert OpsOf(a.books.ops.at[e], a.bytes) + [] == OpsOf(a.books.ops.at[e], a.bytes);
    match ask.call
    case QueueWrite(s) => if MayWrite(a.books, s) { added := WrittenGrows(a, s, ask.size, held, e); }
    case Add(s, k) =>
    case _ => OtherWriters(a.books, ask.call, held);
  }

  lemma {:induction false} AskAllGrows(a: Account, asks: seq<Ask>, held: int, e: nat) returns (added: seq<WriteQueue.Op>)
    requires Fits(a) && Sound(a.books, held) && IsWriter(a.books, e)
    ensures var r := AskAll(a, asks, held); IsWriter(r.books, e) && Grown(a, r, e, added)
    decreases |asks|
  {
    added := [];
    assert e < |a.books.kind|;
    if asks != [] {
      DoAskIsDo(a, asks[0], held);
      var first := DoAskGrows(a, asks[0], held, e);
      var a' := DoAsk(a, asks[0], held);
      assert e < |a'.books.kind|;
      hide DoAsk, Sound, Grown, IsWriter, Sized;
      var rest := AskAllGrows(a', asks[1..], held, e);
      added := first + rest;
      GrownTwice(a, a', AskAll(a', asks[1..], held), e, first, rest);
    } else {
      hide OpsOf;
      assert OpsOf(a.books.ops.at[e], a.bytes) + [] == OpsOf(a.books.ops.at[e], a.bytes);
    }
  }

  lemma GrownTwice(a: Account, b: Account, c: Account, e: nat, x: seq<WriteQueue.Op>, y: seq<WriteQueue.Op>)
    requires Grown(a, b, e, x) && Grown(b, c, e, y)
    ensures Grown(a, c, e, x + y)
  {
    hide QueueOf;
    assert QueueOf(a, e) + x + y == QueueOf(a, e) + (x + y);
  }

  lemma TellFirstGrows(a: Account, e: nat, react: Reaction) returns (added: seq<WriteQueue.Op>)
    requires Fits(a) && Sound(a.books, NULL) && IsWriter(a.books, e) && a.books.ops.at[e] != []
    ensures var r := TellFirst(a, e, react);
            && WriteQueue.Positive(added)
            && QueueOf(r, e) == QueueOf(a, e)[1..] + added
  {
    hide Sound, AskAll;
    HeldSound(a.books, e);
    var op := a.books.ops.at[e][0];
    var a' := a.(books := Held(a.books, e));
    HeldQueue(a, e);
    assert IsWriter(a'.books, e);
    added := AskAllGrows(a', react(a'), op, e);
    AskAllKeepsWriter(a', react(a'), op, e);
    FreedQueue(AskAll(a', react(a'), op), op, e);
    hide Held, Freed, QueueOf, Sized, IsWriter;
  }

  lemma HeldQueue(a: Account, e: nat)
    requires Fits(a) && e < |a.books.kind| && a.books.ops.at[e] != [] && 0 <= a.books.ops.at[e][0] < |a.books.ops.owner|
    ensures QueueOf(a, e) != [] && QueueOf(a.(books := Held(a.books, e)), e) == QueueOf(a, e)[1..]
  {
  }

  lemma FreedQueue(a: Account, op: nat, e: nat)
    requires Fits(a) && op < |a.books.ops.owner| && e < |a.books.kind|
    ensures QueueOf(a.(books := Freed(a.books, op)), e) == QueueOf(a, e)
  {
    hide OpsOf;
  }

  lemma PartOps(a: Account, e: nat, left: nat)
    requires Balanced(a, NULL, e, left) && IsWriter(a.books, e) && a.books.ops.at[e] != []
    requires BytesOf(a.books.ops.at[e][0], a.bytes) > left
    ensures var op := a.books.ops.at[e][0];
            && 0 <= op < |a.bytes|
            && QueueOf(a.(bytes := a.bytes[op := a.bytes[op] - left]), e) == WriteQueue.Remaining(QueueOf(a, e), left)
  {
    hide Balanced, Fits, Sound, OpsOf, WriteQueue.Remaining;
    BalancedIs(a, NULL, e, left);
    FirstQueued(a, e);
    FirstBytes(a, e);
    QueueIsDistinct(a.books, e);
    PartQueue(a.books.ops.at[e], a.bytes, left);
    WriteQueue.Unfold(QueueOf(a, e), left);
  }

  lemma QueueIsDistinct(b: Books, e: nat)
    requires Sound(b, NULL) && e < |b.ops.at|
    ensures Distinct(b.ops.at[e])
  {
    assert Owned(b.ops.at[e], b.ops.owner, e);
  }

  lemma PartQueue(queue: seq<int>, bytes: seq<nat>, left: nat)
    requires queue != [] && Distinct(queue) && 0 <= queue[0] < |bytes| && left < bytes[queue[0]]
    ensures var ops := OpsOf(queue, bytes);
            OpsOf(queue, bytes[queue[0] := bytes[queue[0]] - left]) == [ops[0].(bytes := ops[0].bytes - left)] + ops[1..]
  {
  }

  /** One turn, in terms of the whole queue with whatever is added later. */
  lemma TellOnceIsRemaining(a: Account, e: nat, left: nat, react: Reaction) returns (added: seq<WriteQueue.Op>)
    requires Balanced(a, NULL, e, left) && IsWriter(a.books, e) && a.books.ops.at[e] != []
    ensures var r := TellOnce(a, e, left, react);
            && WriteQueue.Positive(added) && QueueOf(a, e) != []
            && (if QueueOf(a, e)[0].bytes > left then r.1 == 0 && QueueOf(r.0, e) == WriteQueue.Remaining(QueueOf(a, e), left)
                else r.1 == left - QueueOf(a, e)[0].bytes && QueueOf(r.0, e) == QueueOf(a, e)[1..] + added)
  {
    added := [];
    hide Balanced, Sound, Fits, TellFirst, QueueOf, WriteQueue.Remaining, WriteQueue.Positive, IsWriter;
    BalancedIs(a, NULL, e, left);
    WriterIs(a, e);
    FirstQueued(a, e);
    FirstBytes(a, e);
    NothingIsPositive();
    if BytesOf(a.books.ops.at[e][0], a.bytes) > left {
      PartOps(a, e, left);
    } else {
      added := TellFirstGrows(a, e, react);
    }
  }

  lemma NothingIsPositive()
    ensures WriteQueue.Positive([])
  {
  }

  lemma FirstBytes(a: Account, e: nat)
    requires e < |a.books.ops.at| && a.books.ops.at[e] != []
    ensures QueueOf(a, e) != [] && QueueOf(a, e)[0].bytes == BytesOf(a.books.ops.at[e][0], a.bytes)
  {
  }

  /** Telling operations leaves the queue that WriteQueue.Remaining says, of the old ones and those added meanwhile. */
  lemma {:induction false} TellIsRemaining(a: Account, e: nat, left: nat, react: Reaction) returns (added: seq<WriteQueue.Op>)
    requires Balanced(a, NULL, e, left) && IsWriter(a.books, e)
    ensures var r := Tell(a, e, left, react);
            && WriteQueue.Positive(added)
            && QueueOf(r, e) == WriteQueue.Remaining(QueueOf(a, e) + added, left)
    decreases left
  {
    added := [];
    hide Balanced, Sound, Fits, TellOnce, QueueOf, IsWriter, WriteQueue.Remaining;
    BalancedIs(a, NULL, e, left);
    WriterIs(a, e);
    QueueIsPositive(a, e, left);
    var ops := QueueOf(a, e);
    assert ops + [] == ops;
    if a.books.ops.at[e] == [] {
      WriteQueue.NoOps(left);
    } else if left == 0 {
      WriteQueue.RemainingNone(ops);
    } else {
      TellOnceBalanced(a, e, left, react);
      var r := TellOnce(a, e, left, react);
      var first := TellOnceIsRemaining(a, e, left, react);
      if ops[0].bytes > left {
        PartIsAll(r.0, e, react);
      } else {
        var rest := TellIsRemaining(r.0, e, r.1, react);
        added := first + rest;
        RemainingFirst(ops, first, rest, left);
      }
    }
  }

  lemma PartIsAll(a: Account, e: nat, react: Reaction)
    requires Balanced(a, NULL, e, 0) && IsWriter(a.books, e)
    ensures Tell(a, e, 0, react) == a
  {
    hide Balanced, TellOnce;
  }

  lemma QueueIsPositive(a: Account, e: nat, debt: nat)
    requires Balanced(a, NULL, e, debt) && IsWriter(a.books, e)
    ensures WriteQueue.Positive(QueueOf(a, e)) && (a.books.ops.at[e] == [] ==> QueueOf(a, e) == [])
  {
    var queue := a.books.ops.at[e];
    assert Owned(queue, a.books.ops.owner, e);
    assert forall i :: 0 <= i < |queue| ==> queue[i] in queue;
  }

  lemma RemainingFirst(ops: seq<WriteQueue.Op>, x: seq<WriteQueue.Op>, y: seq<WriteQueue.Op>, left: nat)
    requires ops != [] && ops[0].bytes <= left
    ensures WriteQueue.Remaining(ops + (x + y), left) == WriteQueue.Remaining(ops[1..] + x + y, left - ops[0].bytes)
  {
    assert (ops + (x + y))[1..] == ops[1..] + x + y && (ops + (x + y))[0] == ops[0];
  }

  /** A write of n bytes to the socket does to its queue what WriteQueue proves about one socket alone. */
  lemma SentIsRemaining(a: Account, e: nat, n: nat, react: Reaction) returns (added: seq<WriteQueue.Op>)
    requires Balanced(a, NULL, NULL, 0) && IsWriter(a.books, e) && n <= a.pending[e]
    ensures var r := Sent(a, e, n, react);
            && WriteQueue.Positive(added)
            && QueueOf(r, e) == WriteQueue.Remaining(QueueOf(a, e) + added, n)
  {
    hide Tell, Balanced, Sound, Fits, IsWriter, OpsOf, WriteQueue.Remaining, WriteQueue.Positive;
    BalancedIs(a, NULL, NULL, 0);
    WriterIs(a, e);
    var a' := a.(pending := a.pending[e := a.pending[e] - n]);
    SendingBalanced(a, e, n);
    assert QueueOf(a', e) == QueueOf(a, e);
    added := TellIsRemaining(a', e, n, react);
  }

  // ----- Failing -----

  /** The ring is ended and emptied: what the queue owes is written off. */
  ghost function Emptied(a: Account, e: nat): (r: Account)
    requires Fits(a) && e < |a.books.kind|
  {
    a.(books := a.books.(ended := a.books.ended[e := true]), pending := a.pending[e := 0])
  }

  lemma EmptiedBalanced(a: Account, e: nat)
    requires Balanced(a, NULL, NULL, 0) && IsWriter(a.books, e)
    ensures Balanced(Emptied(a, e), NULL, e, a.pending[e])
    ensures IsWriter(Emptied(a, e).books, e) && Owed(a.books.ops.at[e], a.bytes) == a.pending[e]
  {
    EndedSound(a.books, e);
    var b' := Emptied(a, e).books;
    assert forall d :: IsWriter(b', d) <==> IsWriter(a.books, d);
    hide Sound, Owed;
  }

  lemma EndedSound(b: Books, e: nat)
    requires Sound(b, NULL) && e < |b.kind|
    ensures Sound(b.(ended := b.ended[e := true]), NULL)
  {
    hide Arranged;
  }

  /** An ended ring takes nothing more. */
  lemma {:induction false} EndedStaysEmpty(a: Account, asks: seq<Ask>, held: int, e: nat)
    requires Fits(a) && Sound(a.books, held) && IsWriter(a.books, e) && a.books.ended[e] && a.pending[e] == 0
    ensures var r := AskAll(a, asks, held); e < |r.pending| && r.pending[e] == 0
    decreases |asks|
  {
    if asks != [] {
      DoAskIsDo(a, asks[0], held);
      DoAskFits(a, asks[0], held);
      DoAskStaysEmpty(a, asks[0], held, e);
      hide DoAsk, Sound;
      EndedStaysEmpty(DoAsk(a, asks[0], held), asks[1..], held, e);
    }
  }

  lemma DoAskStaysEmpty(a: Account, ask: Ask, held: int, e: nat)
    requires Fits(a) && Sound(a.books, held) && IsWriter(a.books, e) && a.books.ended[e] && a.pending[e] == 0
    ensures var r := DoAsk(a, ask, held);
            Fits(r) && IsWriter(r.books, e) && r.books.ended[e] && r.pending[e] == 0
  {
    DoAskFits(a, ask, held);
    Firsts(a.books, held);
    if ask.call.Add? && MayAdd(a.books, ask.call.sock, ask.call.kind) {
      NotNew(a.books, ask.call.sock, ask.call.kind, held, e);
    }
    hide Do, MayAdd, EventOf, Added, Queued, Sound, Sized;
  }

  lemma NotNew(b: Books, s: nat, k: Kind, held: int, e: nat)
    requires Sound(b, held) && MayAdd(b, s, k) && IsWriter(b, e)
    ensures b.events.at[|b.state|][0] != e
  {
    FirstIsOwned(b.events, |b.state|);
  }

  /** The rest of the queue goes back to the free operations. */
  ghost function GivenBack(a: Account, e: nat, debt: nat): (r: Account)
    requires Balanced(a, NULL, e, debt) && IsWriter(a.books, e) && a.pending[e] == 0
    ensures Balanced(r, NULL, NULL, 0) && IsWriter(r.books, e) && r.books.ops.at[e] == []
    decreases debt
  {
    if a.books.ops.at[e] == [] then NoneOwed(a, e, debt); a
    else
      OwedFirst(a.books.ops.at[e], a.bytes);
      HeldBalanced(a, e, debt);
      var op := a.books.ops.at[e][0];
      var n := a.bytes[op];
      FreedBalanced(a.(books := Held(a.books, e)), op, e, debt - n);
      GivenBack(a.(books := Freed(Held(a.books, e), op)), e, debt - n)
  }

  /** event_sock_close for the write event: the first operation is told if nobody reads, all are given back. */
  ghost function GivenUp(a: Account, e: nat, tell: bool, react: Reaction): (r: Account)
    requires Balanced(a, NULL, NULL, 0) && IsWriter(a.books, e)
    ensures Balanced(r, NULL, NULL, 0)
  {
    EmptiedBalanced(a, e);
    var a', debt := Emptied(a, e), a.pending[e];
    if !tell || a'.books.ops.at[e] == [] then GivenBack(a', e, debt)
    else
      OwedFirst(a'.books.ops.at[e], a'.bytes);
      TellFirstBalanced(a', e, debt, react);
      TellFirstStaysEmpty(a', e, react);
      GivenBack(TellFirst(a', e, react), e, debt - BytesOf(a'.books.ops.at[e][0], a'.bytes))
  }

  lemma TellFirstStaysEmpty(a: Account, e: nat, react: Reaction)
    requires Fits(a) && Sound(a.books, NULL) && IsWriter(a.books, e) && a.books.ops.at[e] != []
    requires a.books.ended[e] && a.pending[e] == 0
    ensures var r := TellFirst(a, e, react); e < |r.pending| && r.pending[e] == 0
  {
    HeldSound(a.books, e);
    var a' := a.(books := Held(a.books, e));
    assert IsWriter(a'.books, e);
    EndedStaysEmpty(a', react(a'), a.books.ops.at[e][0], e);
    hide AskAll, Sound;
  }

  // ----- Closing -----

  /** No call creates a socket or accepts a connection on s. */
  ghost predicate Polite(asks: seq<Ask>, s: nat) {
    forall i :: 0 <= i < |asks| ==>
      asks[i].call != Create && !(asks[i].call.Accept? && asks[i].call.client == s && asks[i].call.ok)
  }

  lemma {:induction false} PoliteEffects(a: Account, asks: seq<Ask>, held: int, s: nat)
    requires Fits(a) && Sound(a.books, held) && Polite(asks, s)
    ensures Create !in Effects(a, asks, held) && NeverAccepts(Effects(a, asks, held), s)
    decreases |asks|
  {
    if asks != [] {
      DoAskIsDo(a, asks[0], held);
      DoAskFits(a, asks[0], held);
      hide DoAsk, Sound, Fits;
      PoliteEffects(DoAsk(a, asks[0], held), asks[1..], held, s);
      assert asks[0].call != Create;
    }
  }

  /** event_loop_close for a socket it finds: nothing waits in its ring, and its events and the socket itself are released. */
  ghost function Closed(a: Account, s: nat, k: nat, asks: seq<Ask>): (r: Account)
    requires Balanced(a, NULL, NULL, 0) && Doomed(a.books, s) && Polite(asks, s)
    requires k < |a.books.socks.at[RESERVED]| && a.books.socks.at[RESERVED][k] == s
  {
    ClosingBalanced(a, s, asks);
    var a' := AskAll(Closing(a, s), asks, NULL);
    a'.(books := Released(a'.books, s, k))
  }

  /** Its state is closed before its callback is called. */
  ghost function Closing(a: Account, s: nat): (r: Account)
    requires s < |a.books.state|
  {
    a.(books := a.books.(state := a.books.state[s := SockState.Closed]))
  }

  lemma ClosingBalanced(a: Account, s: nat, asks: seq<Ask>)
    requires Balanced(a, NULL, NULL, 0) && Doomed(a.books, s) && Polite(asks, s)
    ensures s < |a.books.state| && Balanced(Closing(a, s), NULL, NULL, 0)
    ensures var r := AskAll(Closing(a, s), asks, NULL);
            && Balanced(r, NULL, NULL, 0) && Idle(r.books, s) && IsReserved(r.books, s)
            && r.books.socks == a.books.socks && |r.books.state| == |a.books.state|
  {
    var c := Closing(a, s);
    StateSound(a.books, s, SockState.Closed, NULL);
    assert Idle(c.books, s);
    assert forall e :: IsWriter(c.books, e) <==> IsWriter(a.books, e);
    assert Balanced(c, NULL, NULL, 0) by {
      hide Sound, Owed;
    }
    AskAllBalanced(c, asks, NULL, NULL, 0);
    AskAllIsAfter(c, asks, NULL);
    PoliteEffects(c, asks, NULL, s);
    var calls := Effects(c, asks, NULL);
    AfterSocks(c.books, calls, NULL);
    AfterIdleIff(c.books, calls, s, NULL);
    NoAcceptNoWrite(c.books, calls, s, NULL);
    hide AskAll, After, Effects, Sound, Balanced, Idle, WritesOn;
  }

  lemma {:induction false} DistinctReverse(s: seq<int>, t: seq<int>)
    requires Distinct(s) && Distinct(t) && forall n :: n in s ==> n !in t
    ensures Distinct(Reverse(s) + t)
    decreases |s|
  {
    if s == [] {
      assert [] + t == t;
    } else {
      var t' := [s[0]] + t;
      assert forall j :: 0 < j < |t'| ==> t'[j] in t;
      assert s[0] in s && Distinct(t');
      assert forall n :: n in s[1..] ==> n in s && n != s[0];
      DistinctReverse(s[1..], t');
      assert Reverse(s) + t == Reverse(s[1..]) + t';
    }
  }

  /** A whole list, reversed, in front of another one. */
  lemma ReversedOwned(l: Lists, l': Lists, src: nat, dst: nat)
    requires Arranged(l) && src < |l.at| && dst < |l.at| && src != dst
    requires l'.at == l.at[src := []][dst := Reverse(l.at[src]) + l.at[dst]] && |l'.live| == |l.at|
    requires |l'.owner| == |l.owner|
    requires forall n :: 0 <= n < |l.owner| ==> l'.owner[n] == if l.owner[n] == src then dst else l.owner[n]
    ensures Arranged(l')
  {
    assert Owned(l.at[src], l.owner, src) && Owned(l.at[dst], l.owner, dst);
    DistinctReverse(l.at[src], l.at[dst]);
    forall n ensures n in l'.at[dst] <==> n in l.at[src] || n in l.at[dst] {
      InReverse(l.at[src], n);
    }
    hide Reverse;
    forall m | 0 <= m < |l'.at| ensures Owned(l'.at[m], l'.owner, m) {
      assert Owned(l.at[m], l.owner, m);
    }
  }

  lemma ReleasedSound(b: Books, s: nat, k: nat)
    requires Sound(b, NULL) && IsReserved(b, s) && Idle(b, s)
    requires k < |b.socks.at[RESERVED]| && b.socks.at[RESERVED][k] == s
    ensures Sound(Released(b, s, k), NULL)
  {
    var b' := Released(b, s, k);
    ReleasedKeptIff(b, s, k, NULL);
    MovedArranged(b.socks, RESERVED, UNUSED, k, false);
    ReversedOwned(b.events, b'.events, s, |b.state|);
    hide Arranged, Reverse, Kept;
  }

  lemma ReleasedBalanced(a: Account, s: nat, k: nat)
    requires Balanced(a, NULL, NULL, 0) && IsReserved(a.books, s) && Idle(a.books, s)
    requires k < |a.books.socks.at[RESERVED]| && a.books.socks.at[RESERVED][k] == s
    ensures Balanced(a.(books := Released(a.books, s, k)), NULL, NULL, 0)
    ensures forall e :: IsWriter(a.books, e) && a.books.events.owner[e] == s ==> a.pending[e] == 0
  {
    var b, b' := a.books, Released(a.books, s, k);
    ReleasedSound(b, s, k);
    assert Owed([], a.bytes) == 0;
    hide Sound, Owed, Reverse;
    assert forall e :: IsWriter(b', e) ==> IsWriter(b, e);
  }

  /** A loop that has just been made. */
  lemma FreshIsBalanced(a: Account)
    requires Fits(a) && Sound(a.books, NULL)
    requires forall n :: 0 <= n < |a.bytes| ==> a.books.ops.owner[n] == |a.books.kind|
    requires forall e :: 0 <= e < |a.pending| ==> a.pending[e] == 0
    ensures Balanced(a, NULL, NULL, 0)
  {
    forall e | IsWriter(a.books, e) ensures a.books.ops.at[e] == [] {
      if a.books.ops.at[e] != [] {
        FirstIsOwned(a.books.ops, e);
      }
    }
    assert Owed([], a.bytes) == 0;
    hide Owed, Sound;
  }

  // ----- A pass of the loop -----

  /**
   * What the loop does, one thing after the other: callbacks of timers, connections and reads, a write of n bytes to a
   * socket, the failure of one, and the release of one that is closing. The order and the sockets are free.
   */
  datatype Move =
    | Calls(asks: seq<Ask>)
    | Sends(event: nat, n: nat)
    | Fails(event: nat, tell: bool)
    | Closes(sock: nat, place: nat, asks: seq<Ask>)

  /** Only events that write are written from, at most what is pending, and only sockets that may be closed are. */
  ghost predicate Possible(a: Account, m: Move)
    requires Fits(a)
  {
    match m
    case Calls(_) => true
    case Sends(e, n) => IsWriter(a.books, e) && n <= a.pending[e]
    case Fails(e, _) => IsWriter(a.books, e)
    case Closes(s, k, asks) =>
      && Doomed(a.books, s) && Polite(asks, s)
      && k < |a.books.socks.at[RESERVED]| && a.books.socks.at[RESERVED][k] == s
  }

  ghost function Make(a: Account, m: Move, react: Reaction): (r: Account)
    requires Balanced(a, NULL, NULL, 0) && Possible(a, m)
    ensures Balanced(r, NULL, NULL, 0)
  {
    match m
    case Calls(asks) => AskAllBalanced(a, asks, NULL, NULL, 0); AskAll(a, asks, NULL)
    case Sends(e, n) => Sent(a, e, n, react)
    case Fails(e, tell) => GivenUp(a, e, tell, react)
    case Closes(s, k, asks) =>
      ClosingBalanced(a, s, asks);
      ReleasedBalanced(AskAll(Closing(a, s), asks, NULL), s, k);
      Closed(a, s, k, asks)
  }

  /** Every move is possible when its turn comes. */
  ghost predicate AllPossible(a: Account, ms: seq<Move>, react: Reaction)
    requires Balanced(a, NULL, NULL, 0)
    decreases |ms|
  {
    ms != [] ==> Possible(a, ms[0]) && AllPossible(Make(a, ms[0], react), ms[1..], react)
  }

  ghost function Pass(a: Account, ms: seq<Move>, react: Reaction): (r: Account)
    requires Balanced(a, NULL, NULL, 0) && AllPossible(a, ms, react)
    ensures Balanced(r, NULL, NULL, 0)
    decreases |ms|
  {
    if ms == [] then a else Pass(Make(a, ms[0], react), ms[1..], react)
  }

  /**
   * After any moves: the bytes in the ring of every socket are those its queued operations have still to send, so bytes
   * wait exactly where an operation does, and every operation of the pool is in exactly one queue or free.
   */
  lemma PassIsBalanced(a: Account, ms: seq<Move>, react: Reaction)
    requires Balanced(a, NULL, NULL, 0) && AllPossible(a, ms, react)
    ensures var r := Pass(a, ms, react);
            && Fits(r)
            && (forall e :: IsWriter(r.books, e) ==>
                  r.pending[e] == Owed(r.books.ops.at[e], r.bytes) && (r.pending[e] == 0 <==> r.books.ops.at[e] == []))
            && (forall n :: 0 <= n < |r.books.ops.owner| ==> InOneList(r.books.ops.at, n))
  {
    hide Pass, AllPossible;
    var r := Pass(a, ms, react);
    assert Sound(r.books, NULL);
    forall e | IsWriter(r.books, e) ensures r.pending[e] == 0 <==> r.books.ops.at[e] == [] {
      if r.books.ops.at[e] != [] {
        FirstIsOwned(r.books.ops, e);
        OwedFirst(r.books.ops.at[e], r.bytes);
      } else {
        assert Owed([], r.bytes) == 0;
      }
    }
    forall n | 0 <= n < |r.books.ops.owner| ensures InOneList(r.books.ops.at, n) {
      assert r.books.ops.owner[n] != |r.books.kind| + 1;
      ExactlyOneList(r.books.ops.at, r.books.ops.owner, n);
    }
  }
}
