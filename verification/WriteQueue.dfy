/**
 * The write side of a socket in src/event.c: bytes wait in a ring, and a queue of write operations
 * remembers whom to tell once they are sent.
 */
module WriteQueue {
  import opened Bits
  import opened RingBuffer

  /** A write operation: its callback and the bytes of it that are still to be sent. */
  datatype Op = Op(callback: nat, bytes: nat)

  function Sum(ops: seq<Op>): (n: nat) {
    if ops == [] then 0 else ops[0].bytes + Sum(ops[1..])
  }

  ghost predicate Positive(ops: seq<Op>) {
    forall i :: 0 <= i < |ops| ==> ops[i].bytes > 0
  }

  /** How many of the operations are complete when so many bytes have been sent. */
  function Done(ops: seq<Op>, sent: nat): (k: nat)
    ensures k <= |ops|
  {
    if ops == [] || sent < ops[0].bytes then 0 else 1 + Done(ops[1..], sent - ops[0].bytes)
  }

  /** The queue that is left then: the first operation may be sent in part. */
  function Remaining(ops: seq<Op>, sent: nat): (r: seq<Op>) {
    if ops == [] then []
    else if sent < ops[0].bytes then [ops[0].(bytes := ops[0].bytes - sent)] + ops[1..]
    else Remaining(ops[1..], sent - ops[0].bytes)
  }

  function Callbacks(ops: seq<Op>): (r: seq<nat>)
    ensures |r| == |ops|
  {
    seq(|ops|, i requires 0 <= i < |ops| => ops[i].callback)
  }

  /** An operation is complete exactly when the bytes sent cover it and all before it. */
  lemma {:induction false} DoneIffCovered(ops: seq<Op>, sent: nat, k: nat)
    requires k < |ops|
    ensures k < Done(ops, sent) <==> Sum(ops[..k + 1]) <= sent
    decreases |ops|
  {
    assert ops[..k + 1][1..] == ops[1..][..k];
    if k > 0 && ops[0].bytes <= sent {
      DoneIffCovered(ops[1..], sent - ops[0].bytes, k - 1);
    }
  }

  lemma {:induction false} RemainingSum(ops: seq<Op>, sent: nat)
    requires sent <= Sum(ops)
    ensures Sum(Remaining(ops, sent)) == Sum(ops) - sent
    ensures |Remaining(ops, sent)| == |ops| - Done(ops, sent)
    ensures Positive(ops) ==> Positive(Remaining(ops, sent))
    decreases |ops|
  {
    if ops != [] {
      if sent < ops[0].bytes {
        var r := Remaining(ops, sent);
        assert r[1..] == ops[1..];
      } else {
        RemainingSum(ops[1..], sent - ops[0].bytes);
      }
    }
  }

  /** Bytes of the first operation that is left. */
  lemma {:induction false} RemainingPart(ops: seq<Op>, sent: nat, more: nat)
    requires sent <= Sum(ops) && Remaining(ops, sent) != [] && more < Remaining(ops, sent)[0].bytes
    ensures var r := Remaining(ops, sent);
            Remaining(ops, sent + more) == [r[0].(bytes := r[0].bytes - more)] + r[1..]
    ensures Done(ops, sent + more) == Done(ops, sent)
    decreases |ops|
  {
    if ops[0].bytes <= sent {
      RemainingPart(ops[1..], sent - ops[0].bytes, more);
    }
  }

  /** All of the first operation that is left: it is complete, the next one has not begun. */
  lemma {:induction false} RemainingNext(ops: seq<Op>, sent: nat)
    requires Positive(ops) && sent <= Sum(ops) && Remaining(ops, sent) != []
    ensures var r, k := Remaining(ops, sent), Done(ops, sent);
            && Remaining(ops, sent + r[0].bytes) == r[1..]
            && k < |ops| && r[0].callback == ops[k].callback
            && Done(ops, sent + r[0].bytes) == k + 1
            && sent + r[0].bytes <= Sum(ops)
    decreases |ops|
  {
    if ops[0].bytes <= sent {
      RemainingNext(ops[1..], sent - ops[0].bytes);
    } else {
      RemainingNone(ops[1..]);
    }
  }

  lemma RemainingNone(ops: seq<Op>)
    requires Positive(ops)
    ensures Remaining(ops, 0) == ops && Done(ops, 0) == 0
  {
    if ops != [] {
      assert [ops[0]] + ops[1..] == ops;
    }
  }

  lemma {:induction false} SumConcat(a: seq<Op>, b: seq<Op>)
    ensures Sum(a + b) == Sum(a) + Sum(b)
  {
    if a == [] {
      assert a + b == b;
    } else {
      assert (a + b)[1..] == a[1..] + b;
      SumConcat(a[1..], b);
    }
  }

  /** Operations added meanwhile are not affected by bytes sent before them. */
  lemma {:induction false} RemainingAppend(ops: seq<Op>, more: seq<Op>, sent: nat)
    requires Positive(more) && sent <= Sum(ops)
    ensures Remaining(ops + more, sent) == Remaining(ops, sent) + more
    ensures Done(ops + more, sent) == Done(ops, sent)
    decreases |ops|
  {
    hide Remaining, Done, Sum, Positive;
    var all := ops + more;
    if ops == [] {
      NoOps(sent);
      assert all == more && [] + more == more;
      RemainingNone(more);
    } else {
      assert all[1..] == ops[1..] + more && all[0] == ops[0];
      Unfold(ops, sent);
      Unfold(all, sent);
      if ops[0].bytes <= sent {
        RemainingAppend(ops[1..], more, sent - ops[0].bytes);
      } else {
        assert [ops[0].(bytes := ops[0].bytes - sent)] + all[1..] == Remaining(ops, sent) + more;
      }
    }
  }

  lemma NoOps(sent: nat)
    ensures Sum([]) == 0 && Remaining([], sent) == [] && Done([], sent) == 0
  {
  }

  lemma Unfold(ops: seq<Op>, sent: nat)
    requires ops != []
    ensures Sum(ops) == ops[0].bytes + Sum(ops[1..])
    ensures sent < ops[0].bytes ==>
              Remaining(ops, sent) == [ops[0].(bytes := ops[0].bytes - sent)] + ops[1..] && Done(ops, sent) == 0
    ensures ops[0].bytes <= sent ==>
              && Remaining(ops, sent) == Remaining(ops[1..], sent - ops[0].bytes)
              && Done(ops, sent) == 1 + Done(ops[1..], sent - ops[0].bytes)
  {
  }

  lemma CallbacksNext(ops: seq<Op>, k: nat)
    requires k < |ops|
    ensures Callbacks(ops[..k + 1]) == Callbacks(ops[..k]) + [ops[k].callback]
  {
  }

  lemma NoneLeft(queue: seq<Op>)
    ensures queue == [] ==> Sum(queue) == 0
  {
  }

  lemma CutFront(taken: seq<byte>, sent: nat, front: seq<byte>, rest: seq<byte>)
    requires sent <= |taken| && taken[sent..] == front + rest
    ensures sent + |front| <= |taken|
    ensures taken[sent + |front|..] == rest && taken[sent..sent + |front|] == front
  {
    assert taken[sent + |front|..] == taken[sent..][|front|..];
    assert taken[sent..sent + |front|] == taken[sent..][..|front|];
  }

  lemma SliceOfPrefix(a: seq<byte>, b: seq<byte>, i: nat, j: nat)
    requires a <= b && i <= j <= |a|
    ensures a[i..j] == b[i..j]
  {
  }

  /** What a callback may do: queue a write, or close the socket. */
  datatype Request = Write(bytes: seq<byte>, callback: nat) | Close

  /** The callbacks, free to depend on all those that were called before. */
  type Reaction = seq<nat> -> seq<Request>

  /** The write side of a socket: queue, callbacks called, what was taken up, and the room in the ring, if it takes any. */
  datatype Side = Side(queue: seq<Op>, called: seq<nat>, ops: seq<Op>, taken: seq<byte>, room: int, open: bool)

  /** One request of a callback. */
  function Asked(w: Side, r: Request): (w': Side) {
    match r
    case Close => w.(open := false)
    case Write(bytes, callback) =>
      var n := if w.open && w.room > 0 then Min(|bytes|, w.room) else 0;
      if n == 0 then w
      else
        var op := Op(callback, n);
        w.(queue := w.queue + [op], ops := w.ops + [op], taken := w.taken + bytes[..n], room := w.room - n)
  }

  function AskedAll(w: Side, requests: seq<Request>): (w': Side)
    decreases |requests|
  {
    if requests == [] then w else AskedAll(Asked(w, requests[0]), requests[1..])
  }

  /** Requests only add to what there is. */
  lemma {:induction false} AskedAllAdds(w: Side, requests: seq<Request>) returns (added: seq<Op>)
    ensures var w' := AskedAll(w, requests);
            && Positive(added) && w'.queue == w.queue + added && w'.ops == w.ops + added && w'.called == w.called
            && w.taken <= w'.taken && (w'.open ==> w.open)
    decreases |requests|
  {
    if requests == [] {
      added := [];
    } else {
      var w1 := Asked(w, requests[0]);
      ghost var first := w1.queue[|w.queue|..];
      var more := AskedAllAdds(w1, requests[1..]);
      added := first + more;
      assert w1.queue == w.queue + first && w1.ops == w.ops + first && Positive(first);
      assert w.queue + (first + more) == w.queue + first + more && w.ops + (first + more) == w.ops + first + more;
    }
  }

  /** The bytes of the writes before the socket is closed, and their operations. */
  function Wanted(requests: seq<Request>): (r: seq<byte>) {
    if requests == [] || requests[0].Close? then [] else requests[0].bytes + Wanted(requests[1..])
  }

  function WantedOps(requests: seq<Request>): (r: seq<Op>) {
    if requests == [] || requests[0].Close? then []
    else
      (if requests[0].bytes == [] then [] else [Op(requests[0].callback, |requests[0].bytes|)]) + WantedOps(requests[1..])
  }

  /** With room for all of them, the writes of a callback are taken up whole and in order, up to a close; then no more. */
  lemma {:induction false} RoomForAll(w: Side, requests: seq<Request>)
    requires w.open && |Wanted(requests)| <= w.room
    ensures var w', wanted := AskedAll(w, requests), Wanted(requests);
            && w'.taken == w.taken + wanted && w'.room == w.room - |wanted|
            && w'.ops == w.ops + WantedOps(requests) && w'.queue == w.queue + WantedOps(requests)
            && (w'.open <==> Close !in requests)
    decreases |requests|
  {
    if requests != [] {
      var w1, rest := Asked(w, requests[0]), requests[1..];
      assert requests == [requests[0]] + rest;
      if requests[0].Close? {
        NothingAfterClose(w1, rest);
      } else {
        var bytes := requests[0].bytes;
        assert bytes[..|bytes|] == bytes;
        RoomForAll(w1, rest);
        assert w.taken + (bytes + Wanted(rest)) == w.taken + bytes + Wanted(rest);
        assert bytes == [] ==> w.taken + bytes == w.taken;
      }
    }
  }

  lemma {:induction false} NothingAfterClose(w: Side, requests: seq<Request>)
    requires !w.open
    ensures AskedAll(w, requests) == w
    decreases |requests|
  {
    if requests != [] {
      NothingAfterClose(w, requests[1..]);
    }
  }

  /** Whatever the room is, the ring takes up no more than that. */
  lemma {:induction false} RoomIsKept(w: Side, requests: seq<Request>)
    requires w.room >= 0
    ensures var w' := AskedAll(w, requests); w'.room >= 0 && |w'.taken| + w'.room == |w.taken| + w.room
    decreases |requests|
  {
    if requests != [] {
      RoomIsKept(Asked(w, requests[0]), requests[1..]);
    }
  }

  /** The first operation is complete and its callback is called, or it takes all the bytes that are left. */
  function TellOne(w: Side, left: nat, react: Reaction): (r: (Side, nat))
    requires w.queue != []
  {
    var op := w.queue[0];
    if op.bytes <= left then
      var called := w.called + [op.callback];
      (AskedAll(w.(queue := w.queue[1..], called := called), react(called)), left - op.bytes)
    else (w.(queue := [op.(bytes := op.bytes - left)] + w.queue[1..]), 0)
  }

  /** So many bytes were sent. */
  ghost function TellAll(w: Side, left: nat, react: Reaction): (r: Side)
    requires Positive(w.queue)
    decreases left
  {
    if w.queue == [] || left == 0 then w
    else
      TellOneShrinks(w, left, react);
      var r := TellOne(w, left, react);
      TellAll(r.0, r.1, react)
  }

  lemma TellAllOnce(w: Side, left: nat, react: Reaction)
    requires Positive(w.queue)
    ensures w.queue == [] || left == 0 ==> TellAll(w, left, react) == w
    ensures w.queue != [] && left > 0 ==>
              var r := TellOne(w, left, react); Positive(r.0.queue) && TellAll(w, left, react) == TellAll(r.0, r.1, react)
  {
    hide TellOne;
    if w.queue != [] && left > 0 {
      TellOneShrinks(w, left, react);
    }
  }

  lemma TellOneShrinks(w: Side, left: nat, react: Reaction)
    requires Positive(w.queue) && w.queue != [] && left > 0
    ensures var r := TellOne(w, left, react); r.1 < left && Positive(r.0.queue)
  {
    if w.queue[0].bytes <= left {
      var called := w.called + [w.queue[0].callback];
      var added := AskedAllAdds(w.(queue := w.queue[1..], called := called), react(called));
    }
  }

  class Writer {
    const ring: Ring
    var queue: seq<Op>
    var called: seq<nat>
    /** Every operation taken up, in the order of event_write and with its full size. */
    ghost var ops: seq<Op>
    /** Every byte taken up, and how many of them were sent. */
    ghost var taken: seq<byte>
    ghost var sent: nat
    /** The socket has failed, all that was queued is given up. */
    var failed: bool

    ghost predicate Accounted()
      reads this, ring, ring.mem
    {
      && ring.Valid() && Positive(ops) && Sum(ops) == |taken| && sent <= |taken|
      && ring.Contents() == taken[sent..]
    }

    ghost function Now(): (w: Side)
      reads this, ring
    {
      Side(queue, called, ops, taken, ring.mem.Length - ring.len, ring.open)
    }

    /** Queue and callbacks agree with so many bytes sent. */
    ghost predicate Told(n: nat)
      reads this
    {
      queue == Remaining(ops, n) && called == Callbacks(ops[..Done(ops, n)])
    }

    ghost predicate Valid()
      reads this, ring, ring.mem
    {
      if failed then ring.Valid() && queue == [] && ring.len == 0 && !ring.open && sent <= |taken|
      else Accounted() && Told(sent)
    }

    /** event_write_enable. */
    constructor (buffer: array<byte>)
      ensures Valid() && !failed && queue == [] && called == [] && fresh(ring) && ring.mem == buffer && ring.open
    {
      ring := new Ring(buffer);
      queue, called, ops, taken, sent, failed := [], [], [], [], 0, false;
    }

    /**
     * event_write outside of a step: as many bytes as the ring takes, none once it has ended or the
     * socket has failed, and one operation unless that is none at all.
     */
    method Write(bytes: seq<byte>, callback: nat) returns (n: nat)
      requires Valid()
      modifies this`queue, this`ops, this`taken, ring, ring.mem
      ensures Valid() && ring.open == old(ring.open)
      ensures n == if ring.open then Min(|bytes|, ring.mem.Length - old(ring.len)) else 0
      ensures taken == old(taken) + bytes[..n]
      ensures var added := if n > 0 then [Op(callback, n)] else [];
              queue == old(queue) + added && ops == old(ops) + added
    {
      if failed {
        n := ring.Push(bytes);
      } else {
        n := Enqueue(bytes, callback);
        hide Remaining, Done, Callbacks, Sum;
        ghost var added := if n > 0 then [Op(callback, n)] else [];
        RemainingAppend(old(ops), added, sent);
        assert ops[..Done(ops, sent)] == old(ops)[..Done(ops, sent)];
      }
    }

    /** event_close: no more bytes are taken, those in the ring are still sent. */
    method Close()
      requires Valid()
      modifies ring
      ensures Valid() && !ring.open && ring.len == old(ring.len)
    {
      hide Remaining, Done, Callbacks, Sum;
      ring.End();
    }

    /** event_write in the middle of a step: one operation for as many bytes as the ring takes. */
    method Enqueue(bytes: seq<byte>, callback: nat) returns (n: nat)
      requires Accounted()
      modifies this`queue, this`ops, this`taken, ring, ring.mem
      ensures Accounted() && ring.open == old(ring.open)
      ensures Now() == Asked(old(Now()), Request.Write(bytes, callback))
      ensures n == if ring.open then Min(|bytes|, ring.mem.Length - old(ring.len)) else 0
      ensures taken == old(taken) + bytes[..n]
      ensures var added := if n > 0 then [Op(callback, n)] else [];
              queue == old(queue) + added && ops == old(ops) + added
    {
      n := ring.Push(bytes);
      taken := taken + bytes[..n];
      if n > 0 {
        queue := queue + [Op(callback, n)];
        ops := ops + [Op(callback, n)];
        SumConcat(old(ops), [Op(callback, n)]);
      }
    }

    /** What a callback does while its own operation is out of the queue. */
    method React(requests: seq<Request>)
      requires Accounted()
      modifies this`queue, this`ops, this`taken, ring, ring.mem
      ensures Accounted() && Now() == AskedAll(old(Now()), requests)
    {
      hide Sum, Positive, Min;
      for i := 0 to |requests|
        invariant Accounted() && AskedAll(old(Now()), requests) == AskedAll(Now(), requests[i..])
      {
        assert requests[i..][0] == requests[i] && requests[i..][1..] == requests[i + 1..];
        match requests[i] {
          case Write(bytes, callback) => var _ := Enqueue(bytes, callback);
          case Close => ring.End();
        }
      }
    }

    /** event_sock_handle_write: the bytes were sent and removed from the ring, now tell the callbacks. */
    method HandleWrite(written: nat, react: Reaction)
      requires Accounted() && written <= sent && Told(sent - written)
      modifies this`queue, this`called, this`ops, this`taken, ring, ring.mem
      ensures Accounted() && Told(sent) && old(ops) <= ops && old(taken) <= taken
      ensures Positive(old(queue)) && Now() == TellAll(old(Now()), written, react)
    {
      hide Remaining, Done, Callbacks, Sum, Positive, Asked, AskedAll, TellOne, TellAll;
      var left := written;
      RemainingSum(ops, sent - written);
      while queue != [] && left > 0
        invariant Accounted() && 0 <= left <= sent && Told(sent - left) && old(ops) <= ops && old(taken) <= taken
        invariant Positive(queue) && TellAll(old(Now()), written, react) == TellAll(Now(), left, react)
        decreases left
      {
        TellOneShrinks(Now(), left, react);
        TellAllOnce(Now(), left, react);
        left := TellFirst(left, react);
      }
      RemainingSum(ops, sent - left);
      NoneLeft(queue);
      TellAllOnce(Now(), left, react);
    }

    /** One turn of its loop: the first operation is complete, or takes all the bytes that are left. */
    method TellFirst(written: nat, react: Reaction) returns (left: nat)
      requires Accounted() && queue != [] && 0 < written <= sent && Told(sent - written)
      modifies this`queue, this`called, this`ops, this`taken, ring, ring.mem
      ensures Accounted() && left < written && Told(sent - left) && old(ops) <= ops && old(taken) <= taken
      ensures (Now(), left) == TellOne(old(Now()), written, react)
    {
      hide Remaining, Done, Callbacks, Sum, Asked, AskedAll;
      var op := queue[0];
      ghost var at := sent - written;
      RemainingSum(ops, at);
      if op.bytes <= written {
        RemainingNext(ops, at);
        CallbacksNext(ops, Done(ops, at));
        queue := queue[1..];
        called := called + [op.callback];
        ghost var added := AskedAllAdds(Now(), react(called));
        React(react(called));
        left := written - op.bytes;
        RemainingAppend(old(ops), added, sent - left);
        assert ops[..Done(ops, sent - left)] == old(ops)[..Done(ops, sent - left)];
      } else {
        RemainingPart(ops, at, written);
        queue := [op.(bytes := op.bytes - written)] + queue[1..];
        left := 0;
      }
    }

    /** event_sock_write: the socket takes the first n of the bytes in the ring. */
    method Flush(n: nat, react: Reaction) returns (bytes: seq<byte>)
      requires Valid() && n <= ring.len
      modifies this`queue, this`called, this`ops, this`taken, this`sent, ring, ring.mem
      ensures Valid() && old(ops) <= ops && old(taken) <= taken
      ensures sent == old(sent) + n && bytes == taken[old(sent)..sent]
      ensures n == 0 ==> Now() == old(Now())
      ensures n > 0 ==> Positive(old(queue)) && Now() == TellAll(old(Now()).(room := old(Now()).room + n), n, react)
    {
      hide Remaining, Done, Callbacks, Sum, Positive, Window, Slot, Asked, AskedAll, TellAll;
      if n == 0 {
        return [];
      }
      bytes := ring.Pop(n);
      CutFront(taken, sent, bytes, ring.Contents());
      sent := sent + n;
      HandleWrite(n, react);
      SliceOfPrefix(old(taken), taken, old(sent), sent);
    }

    /** Outside of a step the queued sizes add up to the bytes in the ring. */
    lemma Balanced()
      requires Valid()
      ensures Sum(queue) == ring.len
    {
      if !failed {
        RemainingSum(ops, sent);
      }
    }

    /**
     * Outside of a step the callbacks called are those of the first operations taken up, each once and
     * in the order of event_write, and an operation is among them exactly when the bytes sent cover it.
     */
    lemma CalledExactly(k: nat)
      requires Valid() && !failed && k < |ops|
      ensures k < |called| <==> Sum(ops[..k + 1]) <= sent
      ensures k < |called| ==> called[k] == ops[k].callback
    {
      DoneIffCovered(ops, sent, k);
    }

    /**
     * event_sock_close: who reads from the socket is told first and may still write; then the ring is ended and
     * emptied and every operation is given up. Only the first callback hears of the failure, and only when
     * nobody reads from the socket.
     */
    method Fail(reading: bool, onRead: seq<Request>, react: Reaction) returns (told: seq<nat>)
      requires Valid() && !failed
      modifies this, ring, ring.mem
      ensures Valid() && failed && called == old(called)
      ensures told == if reading || old(queue) == [] then [] else [old(queue)[0].callback]
    {
      hide Remaining, Done, Callbacks, Sum;
      if reading {
        React(onRead);
      }
      ring.End();
      var _ := ring.Pop(ring.len);
      // What was not sent is written off.
      sent := |taken|;
      told := GiveUp(reading, react);
      failed := true;
    }

    method GiveUp(reading: bool, react: Reaction) returns (told: seq<nat>)
      requires Accounted() && !ring.open && ring.len == 0
      modifies this`queue, this`ops, this`taken, ring, ring.mem
      ensures Accounted() && !ring.open && ring.len == 0 && queue == []
      ensures told == if reading || old(queue) == [] then [] else [old(queue)[0].callback]
    {
      told := [];
      if queue != [] {
        var op := queue[0];
        queue := queue[1..];
        if !reading {
          told := [op.callback];
          ReactEnded(react(called + told));
        }
        while queue != []
          invariant Accounted() && !ring.open && ring.len == 0
          decreases |queue|
        {
          queue := queue[1..];
        }
      }
    }

    /** Once the ring has ended, a callback cannot queue anything. */
    method ReactEnded(requests: seq<Request>)
      requires Accounted() && !ring.open && ring.len == 0
      modifies this`queue, this`ops, this`taken, ring, ring.mem
      ensures Accounted() && !ring.open && ring.len == 0 && queue == old(queue) && ops == old(ops)
    {
      for i := 0 to |requests|
        invariant Accounted() && !ring.open && ring.len == 0 && queue == old(queue) && ops == old(ops)
      {
        match requests[i] {
          case Write(bytes, callback) => var _ := Enqueue(bytes, callback);
          case Close => ring.End();
        }
      }
    }
  }
}
