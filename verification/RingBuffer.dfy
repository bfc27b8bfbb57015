/** The circular buffer of src/cbuf.c as a bounded FIFO of bytes. */
module RingBuffer {
  import opened Bits

  /** The n bytes from tail on, going round the memory. */
  ghost function Window(mem: seq<byte>, tail: nat, n: nat): (r: seq<byte>)
    requires n <= |mem| && (tail < |mem| || n == 0)
    ensures |r| == n
  {
    seq(n, i requires 0 <= i < n => mem[Slot(tail, i, |mem|)])
  }

  /** Overwriting free space after the window extends it. */
  lemma WindowGrows(mem: seq<byte>, mem': seq<byte>, tail: nat, n: nat, chunk: seq<byte>)
    requires |mem| == |mem'| && tail < |mem| && n + |chunk| <= |mem|
    requires var head := Slot(tail, n, |mem|);
             head + |chunk| <= |mem| && mem' == mem[..head] + chunk + mem[head + |chunk|..]
    ensures Window(mem', tail, n + |chunk|) == Window(mem, tail, n) + chunk
  {
    hide Slot;
    var head := Slot(tail, n, |mem|);
    forall i | 0 <= i < n + |chunk|
      ensures mem'[Slot(tail, i, |mem|)] == (Window(mem, tail, n) + chunk)[i]
    {
      if i >= n {
        assert Slot(tail, i, |mem|) == head + (i - n);
      }
    }
  }

  /** The front of the window that lies in one piece. */
  lemma WindowSplit(mem: seq<byte>, tail: nat, n: nat, m: nat)
    requires n <= |mem| && tail < |mem| && m <= n && tail + m <= |mem|
    ensures var tail' := Slot(tail, m, |mem|);
            Window(mem, tail, n) == mem[tail..tail + m] + Window(mem, tail', n - m)
  {
    hide Slot;
    var tail' := Slot(tail, m, |mem|);
    forall i | 0 <= i < n
      ensures Window(mem, tail, n)[i] == (mem[tail..tail + m] + Window(mem, tail', n - m))[i]
    {
      if i >= m {
        assert Slot(tail', i - m, |mem|) == Slot(tail, i, |mem|);
      }
    }
  }

  class Ring {
    const mem: array<byte>
    var head: nat
    var tail: nat
    var len: nat
    var open: bool

    ghost predicate Valid()
      reads this, mem
    {
      && len <= mem.Length
      && (if mem.Length == 0 then head == tail == 0 else tail < mem.Length && head == Slot(tail, len, mem.Length))
    }

    ghost function Contents(): (r: seq<byte>)
      reads this, mem
      requires Valid()
      ensures |r| == len
    {
      Window(mem[..], tail, len)
    }

    constructor (buffer: array<byte>)
      ensures Valid() && Contents() == [] && mem == buffer && open
    {
      mem := buffer;
      head, tail, len, open := 0, 0, 0, true;
    }

    method Write(at: nat, chunk: seq<byte>)
      requires at + |chunk| <= mem.Length
      modifies mem
      ensures mem[..] == old(mem[..])[..at] + chunk + old(mem[..])[at + |chunk|..]
    {
      forall i | 0 <= i < |chunk| {
        mem[at + i] := chunk[i];
      }
    }

    /** cbuf_push: the longest prefix of src that fits, nothing once the buffer has ended. */
    method Push(src: seq<byte>) returns (bytes: nat)
      requires Valid()
      modifies this, mem
      ensures Valid() && open == old(open)
      ensures bytes == if open then Min(|src|, mem.Length - old(len)) else 0
      ensures Contents() == old(Contents()) + src[..bytes]
    {
      hide Window, Slot;
      bytes := 0;
      assert Contents() == old(Contents()) + src[..0];
      while bytes < |src| && len < mem.Length && open
        invariant Valid() && open == old(open) && (!open ==> bytes == 0)
        invariant bytes <= |src| && len == old(len) + bytes
        invariant Contents() == old(Contents()) + src[..bytes]
        decreases |src| - bytes
      {
        var room := if head < tail then tail - head else mem.Length - head;
        var n := Min(|src| - bytes, room);
        var chunk := src[bytes..bytes + n];
        ghost var before := mem[..];
        Write(head, chunk);
        WindowGrows(before, mem[..], tail, len, chunk);
        assert src[..bytes] + chunk == src[..bytes + n];
        assert old(Contents()) + src[..bytes] + chunk == old(Contents()) + src[..bytes + n];
        head := Slot(head, n, mem.Length);
        len := len + n;
        bytes := bytes + n;
      }
    }

    /** cbuf_pop: remove the longest prefix of at most n bytes and hand it over. */
    method Pop(n: nat) returns (dst: seq<byte>)
      requires Valid()
      modifies this
      ensures Valid() && open == old(open)
      ensures |dst| == Min(n, old(len)) && len == old(len) - |dst|
      ensures old(Contents()) == dst + Contents()
    {
      hide Window, Slot;
      dst := [];
      assert old(Contents()) == [] + Contents();
      while |dst| < n && len > 0
        invariant Valid() && open == old(open)
        invariant |dst| <= n && len == old(len) - |dst|
        invariant old(Contents()) == dst + Contents()
        decreases len
      {
        var run := if tail < head then head - tail else mem.Length - tail;
        var m := Min(n - |dst|, run);
        var chunk := mem[tail..tail + m];
        WindowSplit(mem[..], tail, len, m);
        ghost var rest := Window(mem[..], Slot(tail, m, mem.Length), len - m);
        assert dst + (chunk + rest) == (dst + chunk) + rest;
        tail := Slot(tail, m, mem.Length);
        len := len - m;
        dst := dst + chunk;
      }
    }

    /** cbuf_peek: the longest prefix of at most n bytes, left where it is. */
    method Peek(n: nat) returns (dst: seq<byte>)
      requires Valid()
      ensures |dst| == Min(n, len) && dst == Contents()[..|dst|]
    {
      hide Window, Slot;
      dst := [];
      var at: nat, left: nat := tail, len;
      assert Contents() == [] + Contents();
      while |dst| < n && left > 0
        invariant |dst| <= n && left == len - |dst|
        invariant mem.Length == 0 || (at < mem.Length && head == Slot(at, left, mem.Length))
        invariant Contents() == dst + Window(mem[..], at, left)
        decreases left
      {
        var run := if at < head then head - at else mem.Length - at;
        var m := Min(n - |dst|, run);
        var chunk := mem[at..at + m];
        WindowSplit(mem[..], at, left, m);
        ghost var rest := Window(mem[..], Slot(at, m, mem.Length), left - m);
        assert dst + (chunk + rest) == (dst + chunk) + rest;
        at := Slot(at, m, mem.Length);
        left := left - m;
        dst := dst + chunk;
      }
    }

    /** cbuf_end. */
    method End()
      requires Valid()
      modifies this`open
      ensures Valid() && !open && Contents() == old(Contents())
    {
      open := false;
    }

    /** event_read_stop: what is pending ends up at the start of the memory. */
    method MoveToFront() returns (n: nat)
      requires Valid()
      modifies this, mem
      ensures Valid() && n == old(len) && len == 0 && open == old(open)
      ensures mem[..n] == old(Contents())
    {
      hide Window, Slot;
      n := len;
      var pending := Pop(len);
      assert pending + Contents() == pending;
      Write(0, pending);
    }
  }
}
