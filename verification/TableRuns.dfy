/** The dynamic table over whole runs: a queue of the newest entries that were taken up. */
module TableRuns {
  import opened Bits
  import opened TableSpec
  import opened HeaderTable

  datatype Change = Insert(entry: Entry) | SetSize(newMax: nat) | SetLimit(newLimit: nat) | DropOldest

  /** One change to a table in a buffer of the given capacity, which bounds its limit. */
  function Apply(t: Table, c: Change, capacity: nat): (r: Table) {
    match c
    case Insert(e) => Add(t, e)
    case SetSize(n) => Resize(t, n)
    case SetLimit(n) => if n <= capacity then Table(Evict(t.entries, n), n, n) else t
    case DropOldest => if t.entries == [] then t else t.(entries := t.entries[1..])
  }

  function Run(t: Table, cs: seq<Change>, capacity: nat): (r: Table)
    decreases |cs|
  {
    if cs == [] then t else Run(Apply(t, cs[0], capacity), cs[1..], capacity)
  }

  /** The entries taken up in a run, oldest first: those no larger than the table was at the time. */
  function TakenUp(t: Table, cs: seq<Change>, capacity: nat): (r: seq<Entry>)
    decreases |cs|
  {
    if cs == [] then []
    else
      var rest := TakenUp(Apply(t, cs[0], capacity), cs[1..], capacity);
      if cs[0].Insert? && CanAdd(t, cs[0].entry) then [cs[0].entry] + rest else rest
  }

  ghost predicate NulFreeChanges(cs: seq<Change>) {
    forall i :: 0 <= i < |cs| && cs[i].Insert? ==> NulFreeEntry(cs[i].entry)
  }

  /** Entries whose size the table's 16-bit arithmetic can hold. */
  ghost predicate SmallChanges(cs: seq<Change>) {
    forall i :: 0 <= i < |cs| && cs[i].Insert? ==> EntrySize(cs[i].entry) < 0x1_0000
  }

  /** The last entries of a list. */
  ghost predicate Newest(part: seq<Entry>, all: seq<Entry>) {
    |part| <= |all| && part == all[|all| - |part|..]
  }

  lemma NewestAppend(part: seq<Entry>, all: seq<Entry>, more: seq<Entry>)
    requires Newest(part, all)
    ensures Newest(part + more, all + more)
  {
    var d := |all| - |part|;
    assert (all + more)[d..] == all[d..] + more;
  }

  lemma NewestTransitive(a: seq<Entry>, b: seq<Entry>, c: seq<Entry>)
    requires Newest(a, b) && Newest(b, c)
    ensures Newest(a, c)
  {
    assert c[|c| - |a|..] == c[|c| - |b|..][|b| - |a|..];
  }

  lemma EvictKeepsNewest(es: seq<Entry>, target: nat)
    ensures Newest(Evict(es, target), es)
  {
    hide Evict;
    EvictIsMinimal(es, target);
  }

  /** One change leaves the newest of the old entries, and after them what it added. */
  lemma ApplyKeepsNewest(t: Table, c: Change, capacity: nat)
    ensures Newest(Apply(t, c, capacity).entries, t.entries + (if c.Insert? && CanAdd(t, c.entry) then [c.entry] else []))
  {
    hide Evict, Newest;
    assert t.entries + [] == t.entries;
    NewestSelf(t.entries);
    match c
    case Insert(e) =>
      if CanAdd(t, e) {
        EvictKeepsNewest(t.entries, t.maxSize - EntrySize(e));
        NewestAppend(Evict(t.entries, t.maxSize - EntrySize(e)), t.entries, [e]);
      }
    case SetSize(n) => EvictKeepsNewest(t.entries, n);
    case SetLimit(n) => EvictKeepsNewest(t.entries, n);
    case DropOldest =>
      if t.entries != [] {
        NewestDrop(t.entries);
      }
  }

  lemma NewestDrop(es: seq<Entry>)
    requires es != []
    ensures Newest(es[1..], es)
  {
  }

  lemma {:induction false} RunKeepsNewest(t: Table, cs: seq<Change>, capacity: nat)
    ensures Newest(Run(t, cs, capacity).entries, t.entries + TakenUp(t, cs, capacity))
    decreases |cs|
  {
    Unfold(t, cs, capacity);
    hide Run, TakenUp, Newest, Apply;
    if cs == [] {
      NewestSelf(t.entries);
    } else {
      var t' := Apply(t, cs[0], capacity);
      var first := if cs[0].Insert? && CanAdd(t, cs[0].entry) then [cs[0].entry] else [];
      var rest := TakenUp(t', cs[1..], capacity);
      RunKeepsNewest(t', cs[1..], capacity);
      ApplyKeepsNewest(t, cs[0], capacity);
      NewestAppend(t'.entries, t.entries + first, rest);
      assert t.entries + first + rest == t.entries + (first + rest);
      NewestTransitive(Run(t, cs, capacity).entries, t'.entries + rest, t.entries + TakenUp(t, cs, capacity));
    }
  }

  lemma Unfold(t: Table, cs: seq<Change>, capacity: nat)
    ensures cs == [] ==> Run(t, cs, capacity) == t && TakenUp(t, cs, capacity) == []
    ensures cs != [] ==>
              var t' := Apply(t, cs[0], capacity);
              && Run(t, cs, capacity) == Run(t', cs[1..], capacity)
              && TakenUp(t, cs, capacity) ==
                 (if cs[0].Insert? && CanAdd(t, cs[0].entry) then [cs[0].entry] else []) + TakenUp(t', cs[1..], capacity)
  {
    hide Apply;
  }

  lemma NewestSelf(es: seq<Entry>)
    ensures Newest(es, es + [])
  {
    assert es + [] == es;
  }

  lemma {:induction false} RunKeepsWellFormed(t: Table, cs: seq<Change>, capacity: nat)
    requires WellFormed(t) && NulFreeChanges(cs)
    ensures WellFormed(Run(t, cs, capacity))
    decreases |cs|
  {
    if cs != [] {
      match cs[0] {
        case Insert(e) => AddKeepsWellFormed(t, e);
        case SetSize(n) => ResizeKeepsWellFormed(t, n);
        case SetLimit(n) => EvictKeepsNulFree(t.entries, n);
        case DropOldest =>
          if t.entries != [] {
            SizeConcat(t.entries[..1], t.entries[1..]);
            assert t.entries[..1] + t.entries[1..] == t.entries;
          }
      }
      RunKeepsWellFormed(Apply(t, cs[0], capacity), cs[1..], capacity);
    }
  }

  lemma EmptyIsWellFormed(t: Table)
    requires t.entries == []
    ensures WellFormed(t)
  {
  }

  /**
   * From an empty table, over every run: the sizes stay within the limit, and the k-th index after
   * the static ones is the k-th newest entry that was taken up.
   */
  lemma RunIsFifo(fixed: seq<Entry>, t0: Table, cs: seq<Change>, capacity: nat, k: nat)
    requires |fixed| == STATIC_SIZE && NulFreeChanges(cs) && t0.entries == []
    requires 1 <= k <= |Run(t0, cs, capacity).entries|
    ensures var t, taken := Run(t0, cs, capacity), TakenUp(t0, cs, capacity);
            && Size(t.entries) <= t.maxSize
            && k <= |taken| && EntryAt(fixed, t, STATIC_SIZE + k) == taken[|taken| - k]
  {
    hide Run, TakenUp, NulFreeEntries;
    EmptyIsWellFormed(t0);
    RunKeepsWellFormed(t0, cs, capacity);
    RunKeepsNewest(t0, cs, capacity);
    hide Size;
    assert t0.entries + TakenUp(t0, cs, capacity) == TakenUp(t0, cs, capacity);
  }

  /** One change to the circular buffer. */
  method Perform(table: DynamicTable, c: Change)
    requires table.Valid() && NulFreeChanges([c]) && SmallChanges([c])
    modifies table, table.buffer
    ensures table.Valid() && table.Abs() == Apply(old(table.Abs()), c, table.buffer.Length)
  {
    hide DynamicTable.Valid, Evict;
    assert c == [c][0];
    match c {
      case Insert(e) => var _ := table.AddEntry(e.name, e.value);
      case SetSize(n) => var _ := table.ResizeTo(n);
      case SetLimit(n) => table.ChangeMaxSize(n);
      case DropOldest => var _ := table.Pop();
    }
  }

  /** A whole run on the circular buffer. */
  method PerformAll(table: DynamicTable, cs: seq<Change>)
    requires table.Valid() && NulFreeChanges(cs) && SmallChanges(cs)
    modifies table, table.buffer
    ensures table.Valid() && table.Abs() == Run(old(table.Abs()), cs, table.buffer.Length)
  {
    hide DynamicTable.Valid, Apply;
    ghost var t, capacity := table.Abs(), table.buffer.Length;
    for i := 0 to |cs|
      invariant table.Valid() && Run(t, cs, capacity) == Run(table.Abs(), cs[i..], capacity)
    {
      assert cs[i..][0] == cs[i] && cs[i..][1..] == cs[i + 1..];
      Perform(table, cs[i]);
    }
  }

  /** A table made and changed in any way answers index 61 + k with the k-th newest entry that was taken up. */
  method LookUpAfterRun(fixed: seq<Entry>, capacity: nat, max: nat, cs: seq<Change>, k: nat)
    returns (ok: bool, name: seq<byte>, value: seq<byte>)
    requires max <= capacity <= 0x7fff && |fixed| == STATIC_SIZE && k >= 1
    requires NulFreeChanges(cs) && SmallChanges(cs)
    ensures var taken := TakenUp(Table([], max, max), cs, capacity); var held := Run(Table([], max, max), cs, capacity).entries;
            && (ok <==> k <= |held|) && Newest(held, taken)
            && (ok ==> Entry(name, value) == taken[|taken| - k])
  {
    hide DynamicTable.Valid, Run, TakenUp, NulFreeChanges, SmallChanges;
    var table := new DynamicTable(capacity, max);
    ghost var t0 := table.Abs();
    PerformAll(table, cs);
    RunKeepsNewest(t0, cs, capacity);
    assert [] + TakenUp(t0, cs, capacity) == TakenUp(t0, cs, capacity);
    ok, name, value := table.FindEntry(fixed, STATIC_SIZE + k);
  }
}
