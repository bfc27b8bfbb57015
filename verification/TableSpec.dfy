/**
 * The header tables of section 2.3 of RFC 7541 as values: a static list, and a dynamic FIFO of
 * entries with the eviction rules of section 4. Entries are kept oldest first.
 */
module TableSpec {
  import opened Bits

  datatype Entry = Entry(name: seq<byte>, value: seq<byte>)

  datatype Table = Table(entries: seq<Entry>, maxSize: nat, limit: nat)

  /** C strings hold no NUL. */
  predicate NulFree(s: seq<byte>) {
    forall i :: 0 <= i < |s| ==> s[i] != 0
  }

  predicate NulFreeEntry(e: Entry) {
    NulFree(e.name) && NulFree(e.value)
  }

  predicate NulFreeEntries(es: seq<Entry>) {
    forall i :: 0 <= i < |es| ==> NulFreeEntry(es[i])
  }

  /** Size of an entry, section 4.1 of RFC 7541. */
  function EntrySize(e: Entry): (n: nat)
    ensures n >= 32
  {
    |e.name| + |e.value| + 32
  }

  function SumOfSizes(es: seq<Entry>): (n: nat)
    ensures n >= 32 * |es|
  {
    if es == [] then 0 else EntrySize(es[0]) + SumOfSizes(es[1..])
  }

  /** Size of a table: the sum of the sizes of its entries. */
  function Size(es: seq<Entry>): (n: nat)
    ensures n >= 32 * |es|
  {
    SumOfSizes(es)
  }

  lemma {:induction false} SizeConcat(a: seq<Entry>, b: seq<Entry>)
    ensures Size(a + b) == Size(a) + Size(b)
  {
    if a == [] {
      assert a + b == b;
    } else {
      assert (a + b)[1..] == a[1..] + b;
      SizeConcat(a[1..], b);
    }
  }

  lemma SizeSnoc(a: seq<Entry>, e: Entry)
    ensures Size(a + [e]) == Size(a) + EntrySize(e)
  {
    SizeConcat(a, [e]);
    assert Size([e]) == EntrySize(e) + Size([e][1..]);
  }

  /** Drop oldest entries until the rest is no larger than target, section 4.3 of RFC 7541. */
  function Evict(es: seq<Entry>, target: nat): (r: seq<Entry>)
    ensures Size(r) <= target
  {
    if Size(es) <= target then es else Evict(es[1..], target)
  }

  /** Eviction keeps the longest run of newest entries that fits: the fewest oldest entries go. */
  lemma {:induction false} EvictIsMinimal(es: seq<Entry>, target: nat)
    ensures var r := Evict(es, target);
            && |r| <= |es|
            && r == es[|es| - |r|..]
            && forall k :: 0 <= k < |es| - |r| ==> Size(es[k..]) > target
  {
    if Size(es) > target {
      EvictIsMinimal(es[1..], target);
      var r := Evict(es, target);
      assert es[1..][|es| - 1 - |r|..] == es[|es| - |r|..];
      forall k | 0 <= k < |es| - |r|
        ensures Size(es[k..]) > target
      {
        if k == 0 {
          assert es[0..] == es;
        } else {
          assert es[1..][k - 1..] == es[k..];
        }
      }
    } else {
      assert es[0..] == es;
    }
  }

  lemma EvictKeepsNulFree(es: seq<Entry>, target: nat)
    requires NulFreeEntries(es)
    ensures NulFreeEntries(Evict(es, target))
  {
    EvictIsMinimal(es, target);
  }

  /** Section 4.4 of RFC 7541, except that an entry larger than the table leaves it unchanged. */
  function Add(t: Table, e: Entry): (r: Table)
  {
    if EntrySize(e) > t.maxSize then t
    else t.(entries := Evict(t.entries, t.maxSize - EntrySize(e)) + [e])
  }

  predicate CanAdd(t: Table, e: Entry) {
    EntrySize(e) <= t.maxSize
  }

  function Resize(t: Table, newMax: nat): (r: Table)
  {
    if newMax > t.limit then t else Table(Evict(t.entries, newMax), newMax, t.limit)
  }

  /** The newest entries that stay are as many as fit below the limit. */
  ghost predicate KeepsMost(es: seq<Entry>, kept: seq<Entry>, room: int) {
    && |kept| <= |es| && kept == es[|es| - |kept|..] && Size(kept) <= room
    && forall k :: 0 <= k < |es| - |kept| ==> Size(es[k..]) > room
  }

  /** A new entry goes behind as many of the newest ones as leave room for it; one larger than the table changes nothing. */
  lemma AddKeepsMost(t: Table, e: Entry)
    ensures var r, size := Add(t, e), |e.name| + |e.value| + 32;
            && r.maxSize == t.maxSize && r.limit == t.limit
            && (if size > t.maxSize then r.entries == t.entries
                else
                  r.entries != [] && r.entries[|r.entries| - 1] == e
                  && KeepsMost(t.entries, r.entries[..|r.entries| - 1], t.maxSize - size))
  {
    hide Size;
    if CanAdd(t, e) {
      var kept := Evict(t.entries, t.maxSize - EntrySize(e));
      EvictIsMinimal(t.entries, t.maxSize - EntrySize(e));
      assert (kept + [e])[..|kept|] == kept;
    }
  }

  /** A size within the limit is taken over, and as many of the newest entries as fit stay; a larger one changes nothing. */
  lemma ResizeKeepsMost(t: Table, newMax: nat)
    ensures var r := Resize(t, newMax);
            if newMax > t.limit then r == t
            else r.maxSize == newMax && r.limit == t.limit && KeepsMost(t.entries, r.entries, newMax)
  {
    EvictIsMinimal(t.entries, newMax);
  }

  ghost predicate WellFormed(t: Table) {
    Size(t.entries) <= t.maxSize && NulFreeEntries(t.entries)
  }

  lemma AddKeepsWellFormed(t: Table, e: Entry)
    requires WellFormed(t) && NulFreeEntry(e)
    ensures WellFormed(Add(t, e))
  {
    if CanAdd(t, e) {
      EvictKeepsNulFree(t.entries, t.maxSize - EntrySize(e));
      SizeSnoc(Evict(t.entries, t.maxSize - EntrySize(e)), e);
    }
  }

  lemma ResizeKeepsWellFormed(t: Table, newMax: nat)
    requires WellFormed(t)
    ensures WellFormed(Resize(t, newMax))
  {
    EvictKeepsNulFree(t.entries, newMax);
  }

  const STATIC_SIZE: nat := 61

  /** The entry at an HPACK index: static entries first, then dynamic ones from the newest. */
  predicate HasIndex(fixed: seq<Entry>, t: Table, index: nat)
    requires |fixed| == STATIC_SIZE
  {
    1 <= index <= STATIC_SIZE + |t.entries|
  }

  function EntryAt(fixed: seq<Entry>, t: Table, index: nat): (e: Entry)
    requires |fixed| == STATIC_SIZE && HasIndex(fixed, t, index)
  {
    if index <= STATIC_SIZE then fixed[index - 1] else t.entries[|t.entries| - (index - STATIC_SIZE)]
  }

  /**
   * What the dynamic search accepts as a match. The comparison stops at the end of the query
   * without looking for the terminator of the stored string, so a stored name that properly
   * extends the queried one matches, and the value is then compared from inside that name.
   */
  predicate Matches(e: Entry, name: seq<byte>, value: seq<byte>) {
    || (e.name == name && value <= e.value)
    || (|name| < |e.name| && name <= e.name && value <= e.name[|name| + 1..])
  }

  /** Position of the first static entry equal to the query, one past the list standing for ("", ""). */
  function StaticFrom(fixed: seq<Entry>, name: seq<byte>, value: seq<byte>, i: nat): (r: nat)
    requires i <= |fixed|
    decreases |fixed| - i
  {
    if i == |fixed| then (if name == [] && value == [] then i + 1 else 0)
    else if fixed[i].name == name && fixed[i].value == value then i + 1
    else StaticFrom(fixed, name, value, i + 1)
  }

  function StaticNameFrom(fixed: seq<Entry>, name: seq<byte>, i: nat): (r: nat)
    requires i <= |fixed|
    decreases |fixed| - i
  {
    if i == |fixed| then (if name == [] then i + 1 else 0)
    else if fixed[i].name == name then i + 1
    else StaticNameFrom(fixed, name, i + 1)
  }

  /** How far back the newest match lies, from the k-th newest entry on; 0 when there is none. */
  function DynamicFrom(es: seq<Entry>, name: seq<byte>, value: seq<byte>, k: nat): (r: nat)
    requires 1 <= k <= |es| + 1
    decreases |es| + 1 - k
  {
    if k > |es| then 0
    else if Matches(es[|es| - k], name, value) then k
    else DynamicFrom(es, name, value, k + 1)
  }

  function DynamicNameFrom(es: seq<Entry>, name: seq<byte>, k: nat): (r: nat)
    requires 1 <= k <= |es| + 1
    decreases |es| + 1 - k
  {
    if k > |es| then 0
    else if name <= es[|es| - k].name then k
    else DynamicNameFrom(es, name, k + 1)
  }

  /** hpack_tables_find_index; 0 stands for not found. */
  function FindIndex(fixed: seq<Entry>, t: Table, name: seq<byte>, value: seq<byte>): (index: nat)
  {
    var s := StaticFrom(fixed, name, value, 0);
    if s > 0 then s
    else
      var d := DynamicFrom(t.entries, name, value, 1);
      if d > 0 then STATIC_SIZE + d else 0
  }

  /** hpack_tables_find_index_name; 0 stands for not found. */
  function FindIndexName(fixed: seq<Entry>, t: Table, name: seq<byte>): (index: nat)
  {
    var s := StaticNameFrom(fixed, name, 0);
    if s > 0 then s
    else
      var d := DynamicNameFrom(t.entries, name, 1);
      if d > 0 then STATIC_SIZE + d else 0
  }
}
