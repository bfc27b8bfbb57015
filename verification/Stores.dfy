/** Octets that C code stores through a pointer: before a buffer, in it, or past its end. */
module Stores {
  import opened Bits

  /** What has been stored, by the distance from the start of the buffer. */
  type Memory = map<int, byte>

  /** Exactly the n octets from at on were stored. */
  ghost predicate Changed(m: Memory, r: Memory, at: int, n: nat) {
    && (forall i :: i in r <==> i in m || at <= i < at + n)
    && (forall i :: i in m && !(at <= i < at + n) ==> r[i] == m[i])
  }

  ghost predicate Holds(m: Memory, at: int, bs: seq<byte>) {
    forall i :: at <= i < at + |bs| ==> i in m && m[i] == bs[i - at]
  }

  function Store(m: Memory, at: int, bs: seq<byte>): (r: Memory)
    ensures Changed(m, r, at, |bs|) && Holds(r, at, bs)
    decreases |bs|
  {
    if bs == [] then m else Store(m[at := bs[0]], at + 1, bs[1..])
  }

  function Load(m: Memory, at: int, n: nat): (r: seq<byte>)
    requires forall i :: at <= i < at + n ==> i in m
    ensures |r| == n && Holds(m, at, r)
  {
    seq(n, i requires 0 <= i < n => m[at + i])
  }

  lemma LoadIs(m: Memory, at: int, bs: seq<byte>)
    requires Holds(m, at, bs)
    ensures Load(m, at, |bs|) == bs
  {
    var r := Load(m, at, |bs|);
    assert forall i :: 0 <= i < |bs| ==> m[at + i] == r[i] == bs[at + i - at];
  }

  lemma StoreNothing(m: Memory, at: int)
    ensures Changed(m, m, at, 0) && Holds(m, at, [])
  {
  }

  lemma StoredAt(m: Memory, at: int, bs: seq<byte>)
    requires bs != [] && Holds(m, at, bs)
    ensures at in m && m[at] == bs[0]
  {
  }

  lemma ChangedTwice(m: Memory, m': Memory, m'': Memory, at: int, a: nat, skip: nat, b: nat)
    requires Changed(m, m', at, a) && Changed(m', m'', at + skip, b) && skip <= a
    ensures Changed(m, m'', at, Max(a, skip + b))
  {
  }

  lemma HoldsAfter(m: Memory, m': Memory, at: int, bs: seq<byte>, next: int, n: nat)
    requires Holds(m, at, bs) && Changed(m, m', next, n) && at + |bs| <= next
    ensures Holds(m', at, bs)
  {
  }

  lemma HoldsBefore(m: Memory, m': Memory, at: int, bs: seq<byte>, next: int, n: nat)
    requires Holds(m, at, bs) && Changed(m, m', next, n) && next + n <= at
    ensures Holds(m', at, bs)
  {
  }

  lemma HoldsConcat(m: Memory, at: int, a: seq<byte>, b: seq<byte>)
    requires Holds(m, at, a) && Holds(m, at + |a|, b)
    ensures Holds(m, at, a + b)
  {
  }

  lemma StoreNext(m: Memory, m': Memory, at: int, a: seq<byte>, b: seq<byte>)
    requires Changed(m, m', at, |a|) && Holds(m', at, a)
    ensures var r := Store(m', at + |a|, b); Changed(m, r, at, |a| + |b|) && Holds(r, at, a + b)
  {
    var r := Store(m', at + |a|, b);
    hide *;
    ChangedTwice(m, m', r, at, |a|, |a|, |b|);
    HoldsAfter(m', r, at, a, at + |a|, |b|);
    HoldsConcat(r, at, a, b);
    MaxOfSum(|a|, |b|);
  }

  lemma MaxOfSum(a: nat, b: nat)
    ensures Max(a, a + b) == a + b
  {
  }

  /** The first octet is stored again. */
  lemma StoreFirst(m: Memory, m': Memory, at: int, a: seq<byte>, b: seq<byte>, n: nat)
    requires 0 < |a| == |b| <= n && a[1..] == b[1..] && Changed(m, m', at, n) && Holds(m', at, a)
    ensures var r := Store(m', at, [b[0]]); Changed(m, r, at, n) && Holds(r, at, b)
  {
    var r := Store(m', at, [b[0]]);
    assert Changed(m, r, at, n) by {
      hide Changed;
      ChangedTwice(m, m', r, at, n, 0, 1);
    }
    forall i | at < i < at + |b| ensures i in r && r[i] == b[i - at] {
      assert a[1..][i - at - 1] == b[1..][i - at - 1];
    }
  }

  /** Every octet was stored in a buffer of the given size. */
  ghost predicate Inside(m: Memory, size: nat) {
    forall i :: i in m ==> 0 <= i < size
  }

  lemma InsideIff(m: Memory, m': Memory, at: int, n: nat, size: nat)
    requires n > 0 && Changed(m, m', at, n)
    ensures Inside(m', size) <==> Inside(m, size) && 0 <= at && at + n <= size
  {
    assert at in m' && at + n - 1 in m';
  }
}
