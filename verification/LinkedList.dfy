/**
 * The intrusive linked lists of src/ll.h. The nodes of a static array are spread over several lists;
 * a node that a step has taken out and not yet put back is held by that step.
 */
module LinkedList {
  const NULL: int := -1

  function At(s: seq<int>, i: nat): (r: int) {
    if i < |s| then s[i] else NULL
  }

  ghost predicate Linked(next: seq<int>, s: seq<int>, i: nat)
    requires i < |s|
  {
    0 <= s[i] < |next| && next[s[i]] == At(s, i + 1)
  }

  /** Following next from head visits exactly s and then ends. */
  ghost predicate Chained(next: seq<int>, head: int, s: seq<int>) {
    head == At(s, 0) && forall i :: 0 <= i < |s| ==> Linked(next, s, i)
  }

  ghost predicate Distinct(s: seq<int>) {
    forall i, j :: 0 <= i < j < |s| ==> s[i] != s[j]
  }

  ghost predicate Owned(s: seq<int>, owner: seq<int>, l: int) {
    Distinct(s) && forall n :: n in s ==> 0 <= n < |owner| && owner[n] == l
  }

  /** Node n lies in list owner[n] and nowhere else, or is held (owner[n] is no list). */
  ghost predicate Placed(lists: seq<seq<int>>, owner: seq<int>) {
    && (forall l :: 0 <= l < |lists| ==> Owned(lists[l], owner, l))
    && (forall n :: 0 <= n < |owner| ==> 0 <= owner[n] <= |lists|)
    && (forall n :: 0 <= n < |owner| && owner[n] < |lists| ==> n in lists[owner[n]])
  }

  function Remove(s: seq<int>, k: nat): (r: seq<int>)
    requires k < |s|
  {
    s[..k] + s[k + 1..]
  }

  lemma InRemove(s: seq<int>, k: nat, n: int)
    requires k < |s| && Distinct(s)
    ensures n in Remove(s, k) <==> n in s && n != s[k]
  {
    var r := Remove(s, k);
    if n in r {
      var i :| 0 <= i < |r| && r[i] == n;
      assert n == s[if i < k then i else i + 1];
    }
    if n in s && n != s[k] {
      var i :| 0 <= i < |s| && s[i] == n;
      assert n == r[if i < k then i else i - 1];
    }
  }

  lemma TakeOut(lists: seq<seq<int>>, owner: seq<int>, l: nat, k: nat)
    requires Placed(lists, owner) && l < |lists| && k < |lists[l]|
    ensures 0 <= lists[l][k] < |owner|
    ensures Placed(lists[l := Remove(lists[l], k)], owner[lists[l][k] := |lists|])
  {
    var e := lists[l][k];
    assert Owned(lists[l], owner, l) && e in lists[l];
    var lists', owner' := lists[l := Remove(lists[l], k)], owner[e := |lists|];
    forall n ensures n in lists'[l] <==> n in lists[l] && n != e {
      InRemove(lists[l], k, n);
    }
    assert Distinct(lists'[l]);
    forall m | 0 <= m < |lists'| ensures Owned(lists'[m], owner', m) {
      assert Owned(lists[m], owner, m);
    }
  }

  lemma PutIn(lists: seq<seq<int>>, owner: seq<int>, l: nat, s: seq<int>, e: int)
    requires Placed(lists, owner) && l < |lists| && 0 <= e < |owner| && owner[e] == |lists|
    requires s == [e] + lists[l] || s == lists[l] + [e]
    ensures Placed(lists[l := s], owner[e := l])
  {
    var lists', owner' := lists[l := s], owner[e := l];
    forall m | 0 <= m < |lists'| ensures Owned(lists'[m], owner', m) {
      assert Owned(lists[m], owner, m);
      assert e !in lists[m];
    }
  }

  /** Every node that is not held lies in exactly one list, exactly once. */
  lemma ExactlyOneList(lists: seq<seq<int>>, owner: seq<int>, n: nat)
    requires Placed(lists, owner) && n < |owner| && owner[n] < |lists|
    ensures InOneList(lists, n) && n in lists[owner[n]] && Distinct(lists[owner[n]])
  {
    assert Owned(lists[owner[n]], owner, owner[n]);
    forall l | 0 <= l < |lists| && n in lists[l] ensures l == owner[n] {
      assert Owned(lists[l], owner, l);
    }
  }

  /** The first node of a list that meets a condition. */
  ghost predicate IsFirst(s: seq<int>, condition: int -> bool, n: int) {
    exists i :: 0 <= i < |s| && s[i] == n && condition(n) && forall j :: 0 <= j < i ==> !condition(s[j])
  }

  ghost predicate InOneList(lists: seq<seq<int>>, n: int) {
    exists l :: 0 <= l < |lists| && n in lists[l] && forall m :: 0 <= m < |lists| && n in lists[m] ==> m == l
  }

  lemma ChainedElsewhere(next: seq<int>, head: int, s: seq<int>, e: nat, x: int)
    requires Chained(next, head, s) && e < |next| && e !in s
    ensures Chained(next[e := x], head, s)
  {
    var next' := next[e := x];
    forall i | 0 <= i < |s| ensures Linked(next', s, i) {
      assert Linked(next, s, i);
    }
  }

  lemma ChainedRemove(next: seq<int>, head: int, s: seq<int>, k: nat)
    requires Chained(next, head, s) && Distinct(s) && k < |s|
    ensures Linked(next, s, k) && (k > 0 ==> Linked(next, s, k - 1))
    ensures k == 0 ==> Chained(next, next[s[k]], Remove(s, k))
    ensures k > 0 ==> Chained(next[s[k - 1] := next[s[k]]], head, Remove(s, k))
  {
    AtRemove(s, k, 0);
    assert Linked(next, s, k) && (k > 0 ==> Linked(next, s, k - 1));
    var r, next' := Remove(s, k), if k == 0 then next else next[s[k - 1] := next[s[k]]];
    forall i | 0 <= i < |r| ensures Linked(next', r, i) {
      AtRemove(s, k, i);
      AtRemove(s, k, i + 1);
      var j := if i < k then i else i + 1;
      assert Linked(next, s, j) && r[i] == s[j];
    }
  }

  lemma AtRemove(s: seq<int>, k: nat, i: nat)
    requires k < |s|
    ensures |Remove(s, k)| == |s| - 1 && At(Remove(s, k), i) == At(s, if i < k then i else i + 1)
  {
  }

  lemma ChainedAppend(next: seq<int>, head: int, s: seq<int>, e: nat)
    requires Chained(next, head, s) && Distinct(s) && e < |next| && e !in s && next[e] == NULL
    ensures s == [] ==> Chained(next, e, s + [e])
    ensures s != [] ==> Linked(next, s, |s| - 1) && Chained(next[s[|s| - 1] := e], head, s + [e])
  {
    var r := s + [e];
    if s != [] {
      assert Linked(next, s, |s| - 1);
    }
    var next' := if s == [] then next else next[s[|s| - 1] := e];
    forall i | 0 <= i < |r| ensures Linked(next', r, i) {
      if i < |s| {
        assert Linked(next, s, i);
      }
    }
  }

  /** Every list in use is chained, but perhaps for list l. */
  ghost predicate AllChainedBut(next: seq<int>, heads: seq<int>, lists: seq<seq<int>>, live: seq<bool>, l: int)
    requires |heads| == |lists| == |live|
  {
    forall m :: 0 <= m < |lists| && live[m] && m != l ==> Chained(next, heads[m], lists[m])
  }

  /** Changing what follows a node of list l, or a held one, leaves the other lists alone. */
  lemma OthersChained(
      next: seq<int>, heads: seq<int>, lists: seq<seq<int>>, owner: seq<int>, live: seq<bool>, l: int, e: nat, x: int)
    requires |heads| == |lists| == |live| && |next| == |owner| && Placed(lists, owner)
    requires AllChainedBut(next, heads, lists, live, l) && e < |next| && (owner[e] == l || owner[e] == |lists|)
    ensures AllChainedBut(next[e := x], heads, lists, live, l)
  {
    hide Chained;
    forall m | 0 <= m < |lists| && live[m] && m != l ensures Chained(next[e := x], heads[m], lists[m]) {
      assert Owned(lists[m], owner, m);
      ChainedElsewhere(next, heads[m], lists[m], e, x);
    }
  }

  lemma Rejoin(next: seq<int>, heads: seq<int>, lists: seq<seq<int>>, live: seq<bool>, l: nat, head: int, s: seq<int>)
    requires |heads| == |lists| == |live| && l < |lists|
    requires AllChainedBut(next, heads, lists, live, l) && Chained(next, head, s)
    ensures AllChainedBut(next, heads[l := head], lists[l := s], live, NULL)
  {
    hide Chained;
  }

  lemma UnlinkChains(
      next: seq<int>, heads: seq<int>, lists: seq<seq<int>>, owner: seq<int>, live: seq<bool>, l: nat, k: nat)
    requires |heads| == |lists| == |live| && |next| == |owner| && Placed(lists, owner)
    requires AllChainedBut(next, heads, lists, live, NULL) && l < |lists| && live[l] && k < |lists[l]|
    ensures var s := lists[l];
            && 0 <= s[k] < |next| && (k > 0 ==> 0 <= s[k - 1] < |next|)
            && (k == 0 ==> AllChainedBut(next, heads[l := next[s[k]]], lists[l := Remove(s, k)], live, NULL))
            && (k > 0 ==> AllChainedBut(next[s[k - 1] := next[s[k]]], heads, lists[l := Remove(s, k)], live, NULL))
  {
    var s := lists[l];
    assert Chained(next, heads[l], s) && Owned(s, owner, l);
    ChainedRemove(next, heads[l], s, k);
    hide Chained, Placed;
    if k == 0 {
      Rejoin(next, heads, lists, live, l, next[s[k]], Remove(s, k));
    } else {
      OthersChained(next, heads, lists, owner, live, l, s[k - 1], next[s[k]]);
      Rejoin(next[s[k - 1] := next[s[k]]], heads, lists, live, l, heads[l], Remove(s, k));
      assert heads[l := heads[l]] == heads;
    }
  }

  lemma PushChains(
      next: seq<int>, heads: seq<int>, lists: seq<seq<int>>, owner: seq<int>, live: seq<bool>, l: nat, e: nat)
    requires |heads| == |lists| == |live| && |next| == |owner| && Placed(lists, owner)
    requires AllChainedBut(next, heads, lists, live, NULL) && l < |lists| && live[l]
    requires e < |next| && owner[e] == |lists|
    ensures AllChainedBut(next[e := heads[l]], heads[l := e], lists[l := [e] + lists[l]], live, NULL)
  {
    var s, next' := lists[l], next[e := heads[l]];
    assert Chained(next, heads[l], s) && Owned(s, owner, l);
    var r := [e] + s;
    forall i | 0 <= i < |r| ensures Linked(next', r, i) {
      if i > 0 {
        assert Linked(next, s, i - 1);
      }
    }
    OthersChained(next, heads, lists, owner, live, l, e, heads[l]);
    Rejoin(next', heads, lists, live, l, e, [e] + s);
  }

  /** A node leaves one list for the front of another. */
  lemma RelocateChains(
      next: seq<int>, heads: seq<int>, lists: seq<seq<int>>, owner: seq<int>, live: seq<bool>, from: nat, to: nat, k: nat)
    returns (lists': seq<seq<int>>, owner': seq<int>)
    requires |heads| == |lists| == |live| && |next| == |owner| && Placed(lists, owner)
    requires AllChainedBut(next, heads, lists, live, NULL)
    requires from < |lists| && to < |lists| && from != to && live[from] && live[to] && k < |lists[from]|
    ensures 0 <= lists[from][k] < |next| && (k > 0 ==> 0 <= lists[from][k - 1] < |next|)
    ensures var e := lists[from][k];
            && lists' == lists[from := Remove(lists[from], k)][to := [e] + lists[to]]
            && owner' == owner[e := to] && Placed(lists', owner')
            && AllChainedBut((if k == 0 then next else next[lists[from][k - 1] := next[e]])[e := heads[to]],
                             (if k == 0 then heads[from := next[e]] else heads)[to := e], lists', live, NULL)
  {
    TakeOut(lists, owner, from, k);
    UnlinkChains(next, heads, lists, owner, live, from, k);
    hide Placed, AllChainedBut;
    var e := lists[from][k];
    var l1, o1 := lists[from := Remove(lists[from], k)], owner[e := |lists|];
    PutIn(l1, o1, to, [e] + l1[to], e);
    PushChains(if k == 0 then next else next[lists[from][k - 1] := next[e]],
               if k == 0 then heads[from := next[e]] else heads, l1, o1, live, to, e);
    lists', owner' := l1[to := [e] + l1[to]], o1[e := to];
    assert o1[e := to] == owner[e := to];
  }

  /** All nodes of a list become held. */
  function Hold(owner: seq<int>, s: seq<int>, held: int): (r: seq<int>)
    ensures |r| == |owner|
  {
    seq(|owner|, n requires 0 <= n < |owner| => if n in s then held else owner[n])
  }

  lemma HoldPlaced(lists: seq<seq<int>>, owner: seq<int>, l: nat)
    requires Placed(lists, owner) && l < |lists|
    ensures Placed(lists[l := []], Hold(owner, lists[l], |lists|))
  {
    var lists', owner' := lists[l := []], Hold(owner, lists[l], |lists|);
    assert Owned(lists[l], owner, l);
    forall m | 0 <= m < |lists| ensures Owned(lists'[m], owner', m) {
      assert Owned(lists[m], owner, m);
    }
  }

  function Reverse(s: seq<int>): (r: seq<int>)
    ensures |r| == |s|
  {
    if s == [] then [] else Reverse(s[1..]) + [s[0]]
  }

  lemma {:induction false} ReverseSnoc(s: seq<int>, x: int)
    ensures Reverse(s + [x]) == [x] + Reverse(s)
  {
    if s == [] {
      assert s + [x] == [x];
    } else {
      assert (s + [x])[1..] == s[1..] + [x];
      ReverseSnoc(s[1..], x);
    }
  }

  lemma ReverseNone()
    ensures Reverse([]) == [] && forall s: seq<int> :: [] + s == s
  {
  }

  lemma GiveBackStep(s: seq<int>, i: nat, rest: seq<int>)
    requires i < |s|
    ensures [s[i]] + (Reverse(s[..i]) + rest) == Reverse(s[..i + 1]) + rest
  {
    assert s[..i + 1] == s[..i] + [s[i]];
    ReverseSnoc(s[..i], s[i]);
    hide Reverse;
    assert [s[i]] + (Reverse(s[..i]) + rest) == ([s[i]] + Reverse(s[..i])) + rest;
  }

  lemma {:induction false} InReverse(s: seq<int>, n: int)
    ensures n in Reverse(s) <==> n in s
  {
    if s != [] {
      InReverse(s[1..], n);
      assert s == [s[0]] + s[1..];
    }
  }

  /** The lists alone say where every node is. */
  lemma GivenBack(lists: seq<seq<int>>, owner: seq<int>, owner': seq<int>, src: nat, dst: nat)
    requires src < |lists| && dst < |lists| && src != dst && |owner| == |owner'|
    requires Placed(lists, owner) && Placed(lists[src := []][dst := Reverse(lists[src]) + lists[dst]], owner')
    ensures forall n :: 0 <= n < |owner| ==> owner'[n] == if owner[n] == src then dst else owner[n]
  {
    hide Reverse;
    var lists' := lists[src := []][dst := Reverse(lists[src]) + lists[dst]];
    forall n | 0 <= n < |owner| ensures owner'[n] == if owner[n] == src then dst else owner[n] {
      InReverse(lists[src], n);
      if owner[n] < |lists| {
        assert n in lists[owner[n]];
        var l := if owner[n] == src then dst else owner[n];
        assert n in lists'[l] && Owned(lists'[l], owner', l);
      } else {
        forall l | 0 <= l < |lists| ensures n !in lists'[l] {
          assert Owned(lists[l], owner, l) && Owned(lists[src], owner, src);
        }
      }
    }
  }

  lemma DropChained(next: seq<int>, heads: seq<int>, lists: seq<seq<int>>, live: seq<bool>, l: nat)
    requires |heads| == |lists| == |live| && l < |lists| && AllChainedBut(next, heads, lists, live, NULL)
    ensures AllChainedBut(next, heads, lists[l := []], live[l := false], NULL)
  {
    hide Chained;
  }

  function Initial(n: nat, k: nat, full: nat): (r: seq<seq<int>>)
    requires full < k
    ensures |r| == k
  {
    seq(k, l => if l == full then seq(n, i => i) else [])
  }

  lemma InitialPlaced(n: nat, k: nat, full: nat)
    requires full < k
    ensures Placed(Initial(n, k, full), seq(n, _ => full))
  {
    var lists, owner := Initial(n, k, full), seq(n, _ => full);
    forall l | 0 <= l < k ensures Owned(lists[l], owner, l) {
    }
    forall i | 0 <= i < n ensures i in lists[full] {
      assert lists[full][i] == i;
    }
  }

  /** What a pool holds: its lists, where each node is, and which heads are in use. */
  datatype Lists = Lists(at: seq<seq<int>>, owner: seq<int>, live: seq<bool>)

  /** The nodes of a static array and the heads of the lists they are in. */
  class Pool {
    const next: array<int>
    const heads: array<int>
    ghost var lists: seq<seq<int>>
    ghost var owner: seq<int>
    /** Lists whose head is in use; the head of another one is stale and the list empty. */
    ghost var live: seq<bool>

    ghost predicate Valid()
      reads this, next, heads
    {
      && next != heads
      && |lists| == |live| == heads.Length && |owner| == next.Length
      && Placed(lists, owner)
      && AllChainedBut(next[..], heads[..], lists, live, NULL)
      && (forall l :: 0 <= l < |lists| && !live[l] ==> lists[l] == [])
    }

    ghost predicate Live(l: int)
      reads this, heads
    {
      0 <= l < heads.Length && l < |live| && live[l]
    }

    ghost predicate Held(e: int)
      reads this
    {
      0 <= e < |owner| && owner[e] == |lists|
    }

    /** LL_INIT: all nodes in one list, the others empty. */
    constructor (n: nat, k: nat, full: nat)
      requires n > 0 && full < k
      ensures Valid() && fresh(next) && fresh(heads) && next.Length == n && heads.Length == k
      ensures lists == Initial(n, k, full) && forall l :: 0 <= l < k && l != full ==> lists[l] == []
      ensures |owner| == n && forall i :: 0 <= i < n ==> owner[i] == full
      ensures |live| == k && forall l :: 0 <= l < k ==> live[l]
    {
      next := new int[n](_ => NULL);
      heads := new int[k](_ => NULL);
      lists := Initial(n, k, full);
      owner := seq(n, _ => full);
      live := seq(k, _ => true);
      new;
      InitialPlaced(n, k, full);
      hide Placed;
      for i := 0 to n - 1
        modifies next
        invariant forall j :: 0 <= j < i ==> next[j] == j + 1
        invariant forall j :: i <= j < n ==> next[j] == NULL
      {
        next[i] := i + 1;
      }
      heads[full] := 0;
      hide Owned, Distinct;
      assert forall i :: 0 <= i < n ==> Linked(next[..], lists[full], i);
    }

    lemma ListChained(l: nat)
      requires Valid() && Live(l)
      ensures Chained(next[..], heads[l], lists[l]) && Owned(lists[l], owner, l)
      ensures AllChainedBut(next[..], heads[..], lists, live, l)
    {
    }

    /** The list a node is in. */
    lemma Whereabouts(l: nat, n: int)
      requires Valid() && l < |lists|
      ensures n in lists[l] <==> 0 <= n < |owner| && owner[n] == l
    {
      assert Owned(lists[l], owner, l);
    }

    ghost function Contents(): (c: Lists)
      reads this
    {
      Lists(lists, owner, live)
    }

    /** What follows node i of a list. */
    lemma Follow(l: nat, i: nat)
      requires Valid() && Live(l)
      ensures heads[l] == At(lists[l], 0)
      ensures i < |lists[l]| ==> 0 <= lists[l][i] < next.Length && next[lists[l][i]] == At(lists[l], i + 1)
      ensures forall j :: 0 <= j < |lists[l]| && j != i && i < |lists[l]| ==> lists[l][j] != lists[l][i]
    {
      ListChained(l);
      if i < |lists[l]| {
        assert Linked(next[..], lists[l], i);
      }
    }

    /** LL_POP. */
    method Pop(l: nat) returns (e: int)
      requires Valid() && Live(l)
      modifies this`lists, this`owner, heads
      ensures Valid()
      ensures old(lists[l]) == [] ==> e == NULL && lists == old(lists) && owner == old(owner)
      ensures old(lists[l]) != [] ==>
                && e == old(lists[l][0]) && lists == old(lists)[l := old(lists[l])[1..]]
                && 0 <= e < |old(owner)| && owner == old(owner)[e := |lists|]
    {
      ListChained(l);
      Follow(l, 0);
      hide Placed, AllChainedBut;
      ghost var s := lists[l];
      e := heads[l];
      if e != NULL {
        TakeOut(lists, owner, l, 0);
        assert Remove(s, 0) == s[1..];
        ChainedRemove(next[..], heads[l], s, 0);
        Rejoin(next[..], heads[..], lists, live, l, next[e], s[1..]);
        ghost var before := heads[..];
        heads[l] := next[e];
        assert heads[..] == before[l := next[e]];
        lists, owner := lists[l := s[1..]], owner[e := |lists|];
      }
    }

    /** LL_PUSH; the result is what followed the node where it was before. */
    method Push(e: nat, l: nat) returns (after: int)
      requires Valid() && Live(l) && Held(e)
      modifies this`lists, this`owner, heads, next
      ensures Valid() && after == old(next[e])
      ensures lists == old(lists)[l := [e] + old(lists[l])] && owner == old(owner)[e := l]
      ensures forall n :: 0 <= n < next.Length && n != e ==> next[n] == old(next[n])
    {
      ghost var s, before, tops := lists[l], next[..], heads[..];
      PutIn(lists, owner, l, [e] + s, e);
      PushChains(before, tops, lists, owner, live, l, e);
      hide Placed, AllChainedBut;
      after := next[e];
      next[e] := heads[l];
      heads[l] := e;
      assert next[..] == before[e := tops[l]] && heads[..] == tops[l := e];
      lists, owner := lists[l := [e] + s], owner[e := l];
    }

    /** memset on a held node. */
    method Reset(e: nat)
      requires Valid() && Held(e)
      modifies next
      ensures Valid() && next[e] == NULL
      ensures forall n :: 0 <= n < next.Length && n != e ==> next[n] == old(next[n])
    {
      ghost var before := next[..];
      OthersChained(before, heads[..], lists, owner, live, NULL, e, NULL);
      hide Placed, AllChainedBut;
      next[e] := NULL;
      assert next[..] == before[e := NULL];
    }

    /** The last node of a list, NULL when it is empty. */
    method Last(l: nat) returns (curr: int)
      requires Valid() && Live(l)
      ensures curr == if lists[l] == [] then NULL else lists[l][|lists[l]| - 1]
    {
      hide Placed, AllChainedBut;
      ghost var s := lists[l];
      curr := heads[l];
      ghost var i := 0;
      Follow(l, i);
      while curr != NULL && next[curr] != NULL
        invariant i <= |s| && curr == At(s, i) && (s != [] ==> i < |s|)
        invariant curr != NULL ==> 0 <= curr < next.Length && next[curr] == At(s, i + 1)
        decreases |s| - i
      {
        curr := next[curr];
        i := i + 1;
        Follow(l, i);
      }
      Follow(l, i);
      Follow(l, i + 1);
    }

    /** LL_APPEND of a node that nothing follows. */
    method Append(e: nat, l: nat)
      requires Valid() && Live(l) && Held(e) && next[e] == NULL
      modifies this`lists, this`owner, heads, next
      ensures Valid()
      ensures lists == old(lists)[l := old(lists[l]) + [e]] && owner == old(owner)[e := l]
    {
      ListChained(l);
      ghost var s, before, tops := lists[l], next[..], heads[..];
      var curr := Last(l);
      PutIn(lists, owner, l, s + [e], e);
      ChainedAppend(before, heads[l], s, e);
      if curr != NULL {
        OthersChained(before, tops, lists, owner, live, l, curr, e);
      }
      hide Placed, AllChainedBut, Chained;
      if curr == NULL {
        Rejoin(before, tops, lists, live, l, e, s + [e]);
        heads[l] := e;
        assert heads[..] == tops[l := e];
      } else {
        next[curr] := e;
        assert next[..] == before[curr := e] && tops[l := tops[l]] == tops;
        Rejoin(next[..], tops, lists, live, l, tops[l], s + [e]);
      }
      lists, owner := lists[l := s + [e]], owner[e := l];
    }

    /** LL_DELETE: the node leaves the list and still knows what followed it. */
    method Delete(e: nat, l: nat) returns (found: int)
      requires Valid() && Live(l) && e < next.Length
      modifies this`lists, this`owner, heads, next
      ensures Valid() && next[e] == old(next[e])
      ensures e !in old(lists[l]) ==> found == NULL && lists == old(lists) && owner == old(owner)
      ensures e in old(lists[l]) ==>
                && found == e && owner == old(owner)[e := |lists|]
                && exists k :: 0 <= k < |old(lists[l])| && old(lists[l])[k] == e
                               && lists == old(lists)[l := Remove(old(lists[l]), k)]
    {
      hide Placed, AllChainedBut;
      ghost var s := lists[l];
      var curr, prev := heads[l], NULL;
      ghost var i := 0;
      Follow(l, i);
      while curr != NULL && curr != e
        modifies {}
        invariant i <= |s| && curr == At(s, i) && prev == (if i == 0 then NULL else s[i - 1])
        invariant forall j :: 0 <= j < i ==> s[j] != e
        decreases |s| - i
      {
        Follow(l, i);
        prev := curr;
        curr := next[curr];
        i := i + 1;
      }
      Follow(l, i);
      found := curr;
      if curr != NULL {
        Unlink(prev, curr, l, i);
      }
    }

    /** Take a node out of the middle of a list. */
    method Unlink(prev: int, e: nat, l: nat, ghost k: nat)
      requires Valid() && Live(l) && k < |lists[l]| && lists[l][k] == e
      requires prev == if k == 0 then NULL else lists[l][k - 1]
      modifies this`lists, this`owner, heads, next
      ensures Valid() && e < |old(owner)| && next[e] == old(next[e])
      ensures lists == old(lists)[l := Remove(old(lists[l]), k)] && owner == old(owner)[e := |lists|]
    {
      Follow(l, k);
      if k > 0 {
        Follow(l, k - 1);
      }
      ghost var s, before, tops := lists[l], next[..], heads[..];
      assert 0 <= e < |before| && (prev == NULL || (0 <= prev < |before| && prev != e));
      TakeOut(lists, owner, l, k);
      UnlinkChains(before, tops, lists, owner, live, l, k);
      hide Placed, AllChainedBut, Chained, Owned, Distinct;
      if prev == NULL {
        heads[l] := next[e];
        assert heads[..] == tops[l := before[e]];
      } else {
        next[prev] := next[e];
        assert next[..] == before[prev := before[e]];
      }
      lists, owner := lists[l := Remove(s, k)], owner[e := |lists|];
    }

    /** LL_COUNT. */
    method Count(l: nat) returns (count: nat)
      requires Valid() && Live(l)
      ensures count == |lists[l]|
    {
      hide Placed, AllChainedBut;
      count := 0;
      var e := heads[l];
      Follow(l, 0);
      while e != NULL
        invariant count <= |lists[l]| && e == At(lists[l], count)
        decreases |lists[l]| - count
      {
        Follow(l, count);
        count := count + 1;
        e := next[e];
      }
      Follow(l, count);
    }

    /** LL_FIND: the first node that meets the condition. */
    method Find(l: nat, condition: int -> bool) returns (found: int)
      requires Valid() && Live(l)
      ensures found == NULL ==> forall i :: 0 <= i < |lists[l]| ==> !condition(lists[l][i])
      ensures found != NULL ==> found in lists[l] && condition(found) && IsFirst(lists[l], condition, found)
    {
      hide Placed, AllChainedBut;
      found := heads[l];
      ghost var i := 0;
      Follow(l, 0);
      while found != NULL && !condition(found)
        invariant i <= |lists[l]| && found == At(lists[l], i)
        invariant forall j :: 0 <= j < i ==> !condition(lists[l][j])
        decreases |lists[l]| - i
      {
        Follow(l, i);
        found := next[found];
        i := i + 1;
      }
      Follow(l, i);
    }
  
    /** LL_MOVE: from the front of one list to the end of another. */
    method Move(src: nat, dst: nat) returns (e: int)
      requires Valid() && Live(src) && Live(dst) && src != dst
      modifies this`lists, this`owner, heads, next
      ensures Valid()
      ensures old(lists[src]) == [] ==> e == NULL && lists == old(lists) && owner == old(owner)
      ensures old(lists[src]) != [] ==>
                && e == old(lists[src][0]) && 0 <= e < |old(owner)| && owner == old(owner)[e := dst]
                && lists == old(lists)[src := old(lists[src])[1..]][dst := old(lists[dst]) + [e]]
    {
      hide Placed, AllChainedBut;
      e := Pop(src);
      if e != NULL {
        Reset(e);
        Append(e, dst);
      }
    }

    /** LL_MOVEP: from the front of one list to the front of another. */
    method MoveFront(src: nat, dst: nat) returns (e: int)
      requires Valid() && Live(src) && Live(dst) && src != dst
      modifies this`lists, this`owner, heads, next
      ensures Valid()
      ensures old(lists[src]) == [] ==> e == NULL && lists == old(lists) && owner == old(owner)
      ensures old(lists[src]) != [] ==>
                && e == old(lists[src][0]) && 0 <= e < |old(owner)| && owner == old(owner)[e := dst]
                && lists == old(lists)[src := old(lists[src])[1..]][dst := [e] + old(lists[dst])]
    {
      hide Placed, AllChainedBut;
      e := Pop(src);
      if e != NULL {
        Reset(e);
        var _ := Push(e, dst);
      }
    }

    /** memset on the owner of a list head, whose memory is then used for the list or not. */
    method ClearHead(l: nat, ghost use: bool)
      requires Valid() && l < heads.Length && lists[l] == []
      modifies this`live, heads
      ensures Valid() && live == old(live)[l := use]
    {
      hide Placed;
      heads[l] := NULL;
      live := live[l := use];
    }

    /** Whether a list has a first node. */
    method IsEmpty(l: nat) returns (empty: bool)
      requires Valid() && Live(l)
      ensures empty <==> lists[l] == []
    {
      Follow(l, 0);
      empty := heads[l] == NULL;
    }

    /**
     * How event_loop_close moves a socket: it is pushed on the other list while it is still in the middle of
     * the first, and only then is the first list closed behind it.
     */
    method Relocate(prev: int, e: nat, from: nat, to: nat, ghost k: nat) returns (after: int)
      requires Valid() && Live(from) && Live(to) && from != to && k < |lists[from]| && lists[from][k] == e
      requires prev == if k == 0 then NULL else lists[from][k - 1]
      modifies this`lists, this`owner, heads, next
      ensures Valid() && after == At(old(lists[from]), k + 1) && e < |old(owner)| && owner == old(owner)[e := to]
      ensures lists == old(lists)[from := Remove(old(lists[from]), k)][to := [e] + old(lists[to])]
    {
      Follow(from, k);
      ghost var before, tops := next[..], heads[..];
      ghost var lists', owner' := RelocateChains(before, tops, lists, owner, live, from, to, k);
      hide Placed, AllChainedBut;
      after := Splice(prev, e, from, to);
      lists, owner := lists', owner';
    }

    method Splice(prev: int, e: nat, from: nat, to: nat) returns (after: int)
      requires next != heads && e < next.Length && NULL <= prev < next.Length && prev != e
      requires from < heads.Length && to < heads.Length && from != to
      modifies heads, next
      ensures after == old(next[e])
      ensures next[..] == (if prev == NULL then old(next[..]) else old(next[..])[prev := after])[e := old(heads[to])]
      ensures heads[..] == (if prev == NULL then old(heads[..])[from := after] else old(heads[..]))[to := e]
    {
      after := next[e];
      next[e] := heads[to];
      heads[to] := e;
      if prev == NULL {
        heads[from] := after;
      } else {
        next[prev] := after;
      }
    }

    /** How event_loop_close gives the nodes of a list back one by one; the head of the list is left as it is. */
    method GiveBack(src: nat, dst: nat)
      requires Valid() && Live(src) && Live(dst) && src != dst
      modifies this, heads, next
      ensures Valid() && live == old(live)[src := false]
      ensures lists == old(lists)[src := []][dst := Reverse(old(lists[src])) + old(lists[dst])]
      ensures |owner| == |old(owner)|
      ensures forall n :: 0 <= n < |owner| ==> owner[n] == if old(owner)[n] == src then dst else old(owner)[n]
    {
      Follow(src, 0);
      ghost var s := lists[src];
      var h := heads[src];
      HoldList(src);
      hide Placed, AllChainedBut, Reverse, Hold;
      PushAll(h, dst, s);
      GivenBack(old(lists), old(owner), owner, src, dst);
    }

    /** Push nodes that are held and still chained. */
    method PushAll(first: int, dst: nat, ghost s: seq<int>)
      requires Valid() && Live(dst) && first == At(s, 0) && Distinct(s)
      requires forall j :: 0 <= j < |s| ==> Held(s[j]) && Linked(next[..], s, j)
      modifies this`lists, this`owner, heads, next
      ensures Valid() && lists == old(lists)[dst := Reverse(s) + old(lists[dst])] && |owner| == |old(owner)|
    {
      hide Placed, AllChainedBut, Reverse;
      ReverseNone();
      var h := first;
      ghost var i := 0;
      assert Reverse(s[..0]) + lists[dst] == lists[dst];
      while h != NULL
        invariant i <= |s| && h == At(s, i) && Valid() && |lists| == |old(lists)|
        invariant lists[dst] == Reverse(s[..i]) + old(lists[dst])
        invariant forall m :: 0 <= m < |lists| && m != dst ==> lists[m] == old(lists)[m]
        invariant |owner| == |old(owner)|
        invariant forall j :: i <= j < |s| ==> Held(s[j]) && Linked(next[..], s, j)
        decreases |s| - i
      {
        GiveBackStep(s, i, old(lists[dst]));
        assert Linked(next[..], s, i);
        h := Push(h, dst);
        i := i + 1;
      }
      assert s[..i] == s;
    }

    /** All nodes of a list are held, each still knowing the next. */
    ghost method HoldList(src: nat)
      requires Valid() && Live(src)
      modifies this
      ensures Valid() && live == old(live)[src := false] && lists == old(lists)[src := []]
      ensures owner == Hold(old(owner), old(lists[src]), |lists|)
      ensures var s := old(lists[src]);
              Distinct(s) && forall j :: 0 <= j < |s| ==> Held(s[j]) && Linked(next[..], s, j)
    {
      ListChained(src);
      ghost var s := lists[src];
      HoldPlaced(lists, owner, src);
      DropChained(next[..], heads[..], lists, live, src);
      hide Placed, AllChainedBut;
      assert forall j :: 0 <= j < |s| ==> s[j] in s;
      lists, owner, live := lists[src := []], Hold(owner, s, |lists|), live[src := false];
    }
  }
}
