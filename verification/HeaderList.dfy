/** The packed header list of src/header_list.c: name and value strings, each followed by a NUL, as a list of pairs. */
module HeaderList {
  import opened Bits
  import opened TableSpec

  function PairBytes(e: Entry): (r: seq<byte>) {
    e.name + [0] + e.value + [0]
  }

  function Concatenated(es: seq<Entry>): (r: seq<byte>) {
    if es == [] then [] else PairBytes(es[0]) + Concatenated(es[1..])
  }

  /** The bytes of a list of pairs. */
  function Packed(es: seq<Entry>): (r: seq<byte>) {
    Concatenated(es)
  }

  lemma {:induction false} PackedConcat(a: seq<Entry>, b: seq<Entry>)
    ensures Packed(a + b) == Packed(a) + Packed(b)
  {
    if a == [] {
      assert a + b == b;
    } else {
      assert (a + b)[1..] == a[1..] + b;
      PackedConcat(a[1..], b);
      assert PairBytes(a[0]) + (Packed(a[1..]) + Packed(b)) == PairBytes(a[0]) + Packed(a[1..]) + Packed(b);
    }
  }

  lemma PackedOne(e: Entry)
    ensures Packed([e]) == PairBytes(e)
  {
    var one := [e];
    assert one[1..] == [];
    assert Concatenated(one) == PairBytes(one[0]) + Concatenated(one[1..]);
    assert PairBytes(e) + [] == PairBytes(e);
  }

  /** Where pair i starts. */
  function Offset(es: seq<Entry>, i: nat): (n: nat)
    requires i <= |es|
  {
    |Packed(es[..i])|
  }

  /** The bytes around pair i. */
  lemma PackedAt(es: seq<Entry>, i: nat)
    requires i < |es|
    ensures Packed(es) == Packed(es[..i]) + (PairBytes(es[i]) + Packed(es[i + 1..]))
    ensures Offset(es, i + 1) == Offset(es, i) + |es[i].name| + |es[i].value| + 2 <= |Packed(es)|
  {
    hide Packed;
    assert es == es[..i] + ([es[i]] + es[i + 1..]);
    PackedConcat(es[..i], [es[i]] + es[i + 1..]);
    PackedConcat([es[i]], es[i + 1..]);
    PackedOne(es[i]);
    assert es[..i + 1] == es[..i] + [es[i]];
    PackedConcat(es[..i], [es[i]]);
  }

  ghost predicate Listed(e: Entry) {
    e.name != [] && NulFreeEntry(e)
  }

  ghost predicate ListedAll(es: seq<Entry>) {
    forall i :: 0 <= i < |es| ==> Listed(es[i])
  }

  function Lower(b: byte): (r: byte) {
    if 65 <= b <= 90 then b + 32 else b
  }

  /** strncasecmp(name, stored, strlen(stored)) == 0: only as much of the name as the stored one is long. */
  predicate Begins(name: seq<byte>, stored: seq<byte>) {
    |stored| <= |name| && forall i :: 0 <= i < |stored| ==> Lower(name[i]) == Lower(stored[i])
  }

  /** The first pair from i on whose name the query begins with; the length of the list when there is none. */
  function MatchFrom(es: seq<Entry>, name: seq<byte>, i: nat): (r: nat)
    requires i <= |es|
    ensures i <= r <= |es|
    ensures r < |es| ==> Begins(name, es[r].name)
    decreases |es| - i
  {
    if i == |es| || Begins(name, es[i].name) then i else MatchFrom(es, name, i + 1)
  }

  function Without(es: seq<Entry>, i: nat): (r: seq<Entry>)
    requires i < |es|
  {
    es[..i] + es[i + 1..]
  }

  function Joined(stored: seq<byte>, value: seq<byte>): (r: seq<byte>) {
    stored + [44] + value
  }

  predicate Fits(es: seq<Entry>, e: Entry, capacity: nat) {
    |Packed(es)| + |e.name| + |e.value| + 2 <= capacity
  }

  datatype Change = Change(list: seq<Entry>, ok: bool)

  function AppendTo(es: seq<Entry>, e: Entry, capacity: nat): (r: Change) {
    if Fits(es, e, capacity) then Change(es + [e], true) else Change(es, false)
  }

  /** header_list_add as it is: a pair that is found is taken out before its successor is known to fit. */
  function AddTo(es: seq<Entry>, e: Entry, capacity: nat): (r: Change) {
    var i := MatchFrom(es, e.name, 0);
    if i == |es| then AppendTo(es, e, capacity)
    else if |Packed(es)| + 1 + |e.value| > capacity then Change(es, false)
    else AppendTo(Without(es, i), Entry(e.name, Joined(es[i].value, e.value)), capacity)
  }

  lemma WithoutSize(es: seq<Entry>, i: nat)
    requires i < |es|
    ensures |Packed(Without(es, i))| + |es[i].name| + |es[i].value| + 2 == |Packed(es)|
  {
    hide Packed;
    PackedAt(es, i);
    PackedConcat(es[..i], es[i + 1..]);
  }

  /**
   * A failing add leaves the list unchanged exactly when it does not meet a shorter stored name
   * whose pair would have to grow past the capacity by the difference of the names.
   */
  lemma FailedAddKeepsListIff(es: seq<Entry>, e: Entry, capacity: nat)
    requires !AddTo(es, e, capacity).ok
    ensures var i := MatchFrom(es, e.name, 0);
            AddTo(es, e, capacity).list == es <==>
            i == |es| || |Packed(es)| + 1 + |e.value| > capacity
  {
    var i := MatchFrom(es, e.name, 0);
    if i < |es| {
      assert |Without(es, i)| < |es|;
    }
  }

  /** With an equally long name, or none, an add that fails changes nothing and one that succeeds joins the values. */
  lemma AddAsPromised(es: seq<Entry>, e: Entry, capacity: nat)
    requires |Packed(es)| <= capacity
    requires var i := MatchFrom(es, e.name, 0); i < |es| ==> |es[i].name| == |e.name|
    ensures var i := MatchFrom(es, e.name, 0);
            var r := AddTo(es, e, capacity);
            && (!r.ok ==> r.list == es)
            && (r.ok && i == |es| ==> r.list == es + [e])
            && (r.ok && i < |es| ==>
                  r.list == Without(es, i) + [Entry(e.name, es[i].value + [44] + e.value)])
  {
    var i := MatchFrom(es, e.name, 0);
    if i < |es| {
      WithoutSize(es, i);
    }
  }

  /** Adding "ab" over a stored "a" in a full list takes the stored pair out and then fails. */
  lemma AddCanLoseAPair()
    ensures var es := [Entry([97], [120])];
            AddTo(es, Entry([97, 98], []), 5) == Change([], false)
  {
    var es := [Entry([97], [120])];
    PackedOne(es[0]);
    assert Begins([97, 98], es[0].name);
    assert Without(es, 0) == [];
  }

  // ----- Adding one header after the other -----

  /** header_list_add for each of some headers, until one of them fails. */
  function AddAll(es: seq<Entry>, hs: seq<Entry>, capacity: nat): (r: Change)
    decreases |hs|
  {
    if hs == [] then Change(es, true)
    else
      var r := AddTo(es, hs[0], capacity);
      if r.ok then AddAll(r.list, hs[1..], capacity) else r
  }

  /** From position n on, no name begins, case ignored, with an earlier one. */
  ghost predicate ApartFrom(es: seq<Entry>, n: nat) {
    forall i, j :: 0 <= i < j < |es| && n <= j ==> !Begins(es[j].name, es[i].name)
  }

  lemma {:induction false} MatchFromIff(es: seq<Entry>, name: seq<byte>, i: nat)
    requires i <= |es|
    ensures MatchFrom(es, name, i) == |es| <==> forall k :: i <= k < |es| ==> !Begins(name, es[k].name)
    decreases |es| - i
  {
    hide Begins;
    if i < |es| {
      MatchFromIff(es, name, i + 1);
    }
  }

  /** An add makes the list longer by one exactly when no stored name matches and the pair fits. */
  lemma AddLengthens(es: seq<Entry>, e: Entry, capacity: nat)
    ensures var r := AddTo(es, e, capacity);
            && |r.list| <= |es| + 1
            && (r.ok && |r.list| == |es| + 1 <==>
                (forall k :: 0 <= k < |es| ==> !Begins(e.name, es[k].name)) && |Packed(es + [e])| <= capacity)
            && (r.ok && |r.list| == |es| + 1 ==> r.list == es + [e])
  {
    hide Begins, Packed;
    MatchFromIff(es, e.name, 0);
    PackedConcat(es, [e]);
    PackedOne(e);
  }

  lemma {:induction false} AddAllIsNoLonger(es: seq<Entry>, hs: seq<Entry>, capacity: nat)
    ensures |AddAll(es, hs, capacity).list| <= |es| + |hs|
    decreases |hs|
  {
    hide AddTo;
    if hs != [] {
      AddLengthens(es, hs[0], capacity);
      if AddTo(es, hs[0], capacity).ok {
        AddAllIsNoLonger(AddTo(es, hs[0], capacity).list, hs[1..], capacity);
      }
    }
  }

  lemma ApartCons(es: seq<Entry>, e: Entry, hs: seq<Entry>)
    ensures es + ([e] + hs) == (es + [e]) + hs
    ensures ApartFrom(es + ([e] + hs), |es|) <==>
            (forall k :: 0 <= k < |es| ==> !Begins(e.name, es[k].name)) && ApartFrom((es + [e]) + hs, |es| + 1)
  {
    hide Begins;
    var all := es + ([e] + hs);
    assert all == (es + [e]) + hs && all[|es|] == e;
    assert forall k :: 0 <= k < |es| ==> all[k] == es[k];
  }

  /**
   * The headers arrive in the list as they are if and only if no name begins, case ignored, with an
   * earlier one and the pairs fit; in every other case pairs are joined, replaced or refused.
   */
  lemma {:induction false} AddAllKeepsIff(es: seq<Entry>, hs: seq<Entry>, capacity: nat)
    requires |Packed(es)| <= capacity
    ensures AddAll(es, hs, capacity) == Change(es + hs, true) <==>
            ApartFrom(es + hs, |es|) && |Packed(es + hs)| <= capacity
    decreases |hs|
  {
    if hs == [] {
      assert es + hs == es;
    } else {
      var e, rest, r := hs[0], hs[1..], AddTo(es, hs[0], capacity);
      AddLengthens(es, e, capacity);
      assert hs == [e] + rest;
      ApartCons(es, e, rest);
      PackedConcat(es + [e], rest);
      hide AddTo, Begins, Packed, ApartFrom;
      if r.ok && |r.list| == |es| + 1 {
        AddAllKeepsIff(es + [e], rest, capacity);
      } else if r.ok {
        AddAllIsNoLonger(r.list, rest, capacity);
      }
    }
  }

  /** "a" and "ab" in one block arrive as one pair. */
  lemma AddAllCanJoin(capacity: nat)
    requires capacity >= 7
    ensures var hs := [Entry([97], [120]), Entry([97, 98], [121])];
            AddAll([], hs, capacity) == Change([Entry([97, 98], [120, 44, 121])], true)
  {
    var a, b := Entry([97], [120]), Entry([97, 98], [121]);
    var joined := Entry(b.name, Joined(a.value, b.value));
    PackedOne(a);
    var none: seq<Entry> := [];
    var one, two, last := none + [a], [a, b], [b];
    assert AddTo(none, a, capacity) == Change(one, true);
    assert Begins(b.name, a.name);
    assert Without(one, 0) == none;
    assert AddTo(one, b, capacity) == Change(none + [joined], true);
    hide AddTo;
    assert two[1..] == last && last[1..] == none;
    assert AddAll(one, last, capacity) == Change(none + [joined], true);
    assert AddAll(none, two, capacity) == AddAll(one, last, capacity);
    assert Joined(a.value, b.value) == [120, 44, 121] && none + [joined] == [joined];
  }

  /** Letters compare without their case, everything else octet by octet. */
  lemma CaseIgnoredIff(x: byte, y: byte)
    ensures Begins([x], [y]) <==> x == y || (65 <= x <= 90 && y == x + 32) || (65 <= y <= 90 && x == y + 32)
  {
    assert Begins([x], [y]) <==> Lower([x][0]) == Lower([y][0]);
  }

  /** "Ab: x" and "aB: y" make one pair, with the newer spelling of the name. */
  lemma AddIgnoresCase(capacity: nat)
    requires capacity >= 7
    ensures AddTo([Entry([65, 98], [120])], Entry([97, 66], [121]), capacity) ==
            Change([Entry([97, 66], [120, 44, 121])], true)
  {
    var a, b := Entry([65, 98], [120]), Entry([97, 66], [121]);
    var none: seq<Entry> := [];
    var one, joined := [a], Entry([97, 66], [120, 44, 121]);
    PackedOne(a);
    assert Joined(a.value, b.value) == [120, 44, 121];
    assert Begins(b.name, a.name) && Without(one, 0) == none && Packed(none) == [];
    assert none + [joined] == [joined];
  }

  class List {
    const buffer: array<byte>
    var size: nat
    var count: nat
    ghost var pairs: seq<Entry>

    ghost predicate Valid()
      reads this, buffer
    {
      && size <= buffer.Length && buffer[..size] == Packed(pairs)
      && count == |pairs| && ListedAll(pairs)
    }

    constructor (capacity: nat)
      ensures Valid() && pairs == [] && buffer.Length == capacity && fresh(buffer)
    {
      buffer := new byte[capacity](_ => 0);
      size, count, pairs := 0, 0, [];
    }

    /** strnlen from pos on: up to the next NUL or the end of the list. */
    method Length(pos: nat) returns (n: nat)
      requires pos <= size <= buffer.Length
      ensures pos + n <= size && NulFree(buffer[pos..pos + n])
      ensures pos + n < size ==> buffer[pos + n] == 0
    {
      n := 0;
      while pos + n < size && buffer[pos + n] != 0
        invariant pos + n <= size && NulFree(buffer[pos..pos + n])
      {
        n := n + 1;
      }
    }

    /** The strings of pair i lie where its offset says. */
    lemma PairAt(i: nat)
      requires Valid() && i < |pairs|
      ensures var p, e := Offset(pairs, i), pairs[i];
              var v := p + |e.name| + 1;
              && v + |e.value| + 1 == Offset(pairs, i + 1) <= size
              && buffer[p..p + |e.name|] == e.name && buffer[p + |e.name|] == 0
              && buffer[v..v + |e.value|] == e.value && buffer[v + |e.value|] == 0
    {
      hide Packed;
      PackedAt(pairs, i);
      var p, e := Offset(pairs, i), pairs[i];
      var before, after := Packed(pairs[..i]), Packed(pairs[i + 1..]);
      SliceOf(buffer[..size], before, e, after);
      assert buffer[..size][p..p + |e.name|] == buffer[p..p + |e.name|];
    }

    /** What comes after pair i is the end of the list or a character of the next name. */
    lemma NextStarts(i: nat)
      requires Valid() && i < |pairs|
      ensures var q := Offset(pairs, i + 1); if i + 1 == |pairs| then q == size else q < size && buffer[q] != 0
    {
      hide Packed;
      if i + 1 < |pairs| {
        PairAt(i + 1);
        assert Listed(pairs[i + 1]);
        assert buffer[Offset(pairs, i + 1)..Offset(pairs, i + 1) + |pairs[i + 1].name|][0] == pairs[i + 1].name[0];
      } else {
        assert pairs[..i + 1] == pairs;
      }
    }

    /** Past a value, and past the NUL bytes after it. */
    method SkipValue(start: nat, ghost i: nat) returns (pos: nat)
      requires Valid() && i < |pairs| && start == Offset(pairs, i) + |pairs[i].name| + 1
      ensures pos == Offset(pairs, i + 1)
    {
      hide Packed;
      PairAt(i);
      NextStarts(i);
      ghost var end := start + |pairs[i].value|;
      assert Listed(pairs[i]);
      NoNulInside(buffer[..], start, pairs[i].value);
      pos := start;
      while pos < size && buffer[pos] != 0
        invariant start <= pos <= end
      {
        pos := pos + 1;
      }
      while pos < size && buffer[pos] == 0
        invariant end <= pos <= end + 1
      {
        pos := pos + 1;
      }
    }

    /** strncasecmp with the n stored bytes at pos. */
    method Compare(name: seq<byte>, pos: nat, n: nat) returns (equal: bool)
      requires pos + n <= size <= buffer.Length
      ensures equal <==> Begins(name, buffer[pos..pos + n])
    {
      if |name| < n {
        return false;
      }
      for k := 0 to n
        invariant forall j :: 0 <= j < k ==> Lower(name[j]) == Lower(buffer[pos + j])
      {
        if Lower(name[k]) != Lower(buffer[pos + k]) {
          assert buffer[pos..pos + n][k] == buffer[pos + k];
          return false;
        }
      }
      return true;
    }

    method NameLength(pos: nat, ghost i: nat) returns (n: nat)
      requires Valid() && i < |pairs| && pos == Offset(pairs, i)
      ensures n == |pairs[i].name|
    {
      hide Packed;
      PairAt(i);
      assert Listed(pairs[i]);
      n := Length(pos);
      SameLength(buffer[..], pos, n, |pairs[i].name|, pairs[i].name);
    }

    method ValueLength(pos: nat, ghost i: nat) returns (n: nat)
      requires Valid() && i < |pairs| && pos == Offset(pairs, i) + |pairs[i].name| + 1
      ensures n == |pairs[i].value|
    {
      hide Packed;
      PairAt(i);
      assert Listed(pairs[i]);
      n := Length(pos);
      SameLength(buffer[..], pos, n, |pairs[i].value|, pairs[i].value);
    }

    /** header_list_index. */
    method Index(name: seq<byte>) returns (pos: int)
      requires Valid()
      ensures var i := MatchFrom(pairs, name, 0); pos == if i < |pairs| then Offset(pairs, i) else -1
    {
      hide Packed, Begins;
      pos := 0;
      ghost var i := 0;
      OffsetEnds(pairs);
      while pos < size
        invariant 0 <= i <= |pairs| && pos == Offset(pairs, i)
        invariant MatchFrom(pairs, name, 0) == MatchFrom(pairs, name, i)
        decreases |pairs| - i
      {
        BeforeEnd(pairs, i);
        var n := NameLength(pos, i);
        PairAt(i);
        var equal := Compare(name, pos, n);
        if equal {
          return;
        }
        pos := SkipValue(pos + n + 1, i);
        i := i + 1;
      }
      AtEnd(pairs, i);
      return -1;
    }

    /** header_list_all. */
    method All() returns (list: seq<Entry>)
      requires Valid()
      ensures list == pairs
    {
      hide Packed;
      list := [];
      var pos := 0;
      OffsetEnds(pairs);
      while pos < size
        invariant |list| <= |pairs| && list == pairs[..|list|] && pos == Offset(pairs, |list|)
        decreases |pairs| - |list|
      {
        ghost var i := |list|;
        BeforeEnd(pairs, i);
        var n := NameLength(pos, i);
        PairAt(i);
        var v := ValueLength(pos + n + 1, i);
        var e := Entry(buffer[pos..pos + n], buffer[pos + n + 1..pos + n + 1 + v]);
        pos := SkipValue(pos + n + 1, i);
        assert pairs[..i + 1] == pairs[..i] + [pairs[i]];
        list := list + [e];
      }
      AtEnd(pairs, |list|);
    }

    /** header_list_append. */
    method Append(name: seq<byte>, value: seq<byte>) returns (ok: bool)
      requires Valid() && name != [] && NulFree(name) && NulFree(value)
      modifies this, buffer
      ensures Valid() && Change(pairs, ok) == AppendTo(old(pairs), Entry(name, value), buffer.Length)
    {
      hide Packed;
      if |name| + 1 + |value| + 1 > buffer.Length - size {
        return false;
      }
      ghost var e := Entry(name, value);
      PackedConcat(pairs, [e]);
      PackedOne(e);
      var text := name + [0] + value + [0];
      Put(size, text);
      size := size + |text|;
      count := count + 1;
      pairs := pairs + [e];
      return true;
    }

    method Put(at: nat, text: seq<byte>)
      requires at + |text| <= buffer.Length
      modifies buffer
      ensures buffer[..at + |text|] == old(buffer[..at]) + text
    {
      forall k | 0 <= k < |text| {
        buffer[at + k] := text[k];
      }
    }

    /** header_list_splice: close the gap left by n bytes. */
    method Splice(start: nat, n: nat)
      requires start + n <= size <= buffer.Length
      modifies this`size, buffer
      ensures size == old(size) - n
      ensures buffer[..size] == old(buffer[..start]) + old(buffer[start + n..size])
    {
      for k := 0 to size - start - n
        invariant size == old(size) && buffer[..start] == old(buffer[..start])
        invariant buffer[start..start + k] == old(buffer[start + n..start + n + k])
        invariant buffer[start + n + k..] == old(buffer[start + n + k..])
      {
        assert buffer[start + n + k] == old(buffer[start + n + k..])[0];
        buffer[start + k] := buffer[start + n + k];
      }
      size := size - n;
      assert buffer[..size] == buffer[..start] + buffer[start..size];
    }

    /** Take pair i out. */
    method Remove(start: nat, n: nat, ghost i: nat)
      requires Valid() && i < |pairs|
      requires start == Offset(pairs, i) && n == |pairs[i].name| + |pairs[i].value| + 2
      modifies this, buffer
      ensures Valid() && pairs == Without(old(pairs), i)
    {
      hide Packed;
      PackedAt(pairs, i);
      PackedConcat(pairs[..i], pairs[i + 1..]);
      ghost var before, after := Packed(pairs[..i]), Packed(pairs[i + 1..]);
      ghost var bytes := buffer[..size];
      assert bytes == before + (PairBytes(pairs[i]) + after);
      Splice(start, n);
      assert buffer[..size] == bytes[..start] + bytes[start + n..];
      assert bytes[..start] == before && bytes[start + n..] == after;
      count := count - 1;
      pairs := Without(pairs, i);
    }

    /** header_list_add. */
    method AddHeader(name: seq<byte>, value: seq<byte>) returns (ok: bool)
      requires Valid() && name != [] && NulFree(name) && NulFree(value)
      modifies this, buffer
      ensures Valid() && Change(pairs, ok) == AddTo(old(pairs), Entry(name, value), buffer.Length)
    {
      hide Packed, Begins;
      var start := Index(name);
      ghost var i := MatchFrom(pairs, name, 0);
      if start < 0 {
        ok := Append(name, value);
        return;
      }
      var nlen := NameLength(start, i);
      var vlen := ValueLength(start + nlen + 1, i);
      if 1 + |value| > buffer.Length - size {
        return false;
      }
      PairAt(i);
      var stored := buffer[start + nlen + 1..start + nlen + 1 + vlen];
      assert Listed(pairs[i]);
      Remove(start, nlen + vlen + 2, i);
      ok := Append(name, stored + [44] + value);
    }
  }

  lemma SliceOf(bytes: seq<byte>, before: seq<byte>, e: Entry, after: seq<byte>)
    requires bytes == before + (PairBytes(e) + after)
    ensures var p := |before|;
            var v := p + |e.name| + 1;
            && v + |e.value| < |bytes|
            && bytes[p..p + |e.name|] == e.name && bytes[p + |e.name|] == 0
            && bytes[v..v + |e.value|] == e.value && bytes[v + |e.value|] == 0
  {
  }

  lemma NoNulInside(b: seq<byte>, pos: nat, s: seq<byte>)
    requires pos + |s| <= |b| && b[pos..pos + |s|] == s && NulFree(s)
    ensures forall k :: pos <= k < pos + |s| ==> b[k] != 0
  {
    assert forall k :: pos <= k < pos + |s| ==> b[k] == s[k - pos];
  }

  /** Two NUL-free strings that start together and end at a NUL are equally long. */
  lemma SameLength(b: seq<byte>, pos: nat, n: nat, m: nat, s: seq<byte>)
    requires pos + n <= |b| && NulFree(b[pos..pos + n]) && (pos + n < |b| ==> b[pos + n] == 0 || n >= m)
    requires pos + m < |b| && b[pos..pos + m] == s && |s| == m && b[pos + m] == 0 && NulFree(s)
    ensures n == m
  {
    NoNulInside(b, pos, s);
    NoNulInside(b, pos, b[pos..pos + n]);
  }

  lemma OffsetEnds(es: seq<Entry>)
    ensures Offset(es, 0) == 0 && Offset(es, |es|) == |Packed(es)|
  {
    assert es[..0] == [] && es[..|es|] == es;
  }

  lemma BeforeEnd(es: seq<Entry>, i: nat)
    requires i <= |es| && Offset(es, i) < |Packed(es)|
    ensures i < |es|
  {
    assert es[..|es|] == es;
  }

  lemma AtEnd(es: seq<Entry>, i: nat)
    requires i <= |es| && Offset(es, i) >= |Packed(es)|
    ensures i == |es|
  {
    hide Packed;
    if i < |es| {
      PackedAt(es, i);
    }
  }
}
