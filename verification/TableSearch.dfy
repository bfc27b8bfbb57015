/** When the search of src/hpack/tables.c finds what a search by equality would find. */
module TableSearch {
  import opened Bits
  import opened TableSpec

  /** The newest entry equal to the query, counted from 1 and searched from the k-th; 0 for none. */
  function ExactFrom(es: seq<Entry>, name: seq<byte>, value: seq<byte>, k: nat): (r: nat)
    requires 1 <= k <= |es| + 1
    decreases |es| + 1 - k
  {
    if k > |es| then 0
    else if es[|es| - k] == Entry(name, value) then k
    else ExactFrom(es, name, value, k + 1)
  }

  function ExactNameFrom(es: seq<Entry>, name: seq<byte>, k: nat): (r: nat)
    requires 1 <= k <= |es| + 1
    decreases |es| + 1 - k
  {
    if k > |es| then 0
    else if es[|es| - k].name == name then k
    else ExactNameFrom(es, name, k + 1)
  }

  /** Linear search by equality: the static list, then the dynamic entries from the newest. */
  function ExactIndex(fixed: seq<Entry>, t: Table, name: seq<byte>, value: seq<byte>): (index: nat) {
    var s := StaticFrom(fixed, name, value, 0);
    if s > 0 then s
    else
      var d := ExactFrom(t.entries, name, value, 1);
      if d > 0 then STATIC_SIZE + d else 0
  }

  function ExactIndexName(fixed: seq<Entry>, t: Table, name: seq<byte>): (index: nat) {
    var s := StaticNameFrom(fixed, name, 0);
    if s > 0 then s
    else
      var d := ExactNameFrom(t.entries, name, 1);
      if d > 0 then STATIC_SIZE + d else 0
  }

  /** An entry the search takes for the query although it is another one. */
  predicate Clash(e: Entry, name: seq<byte>, value: seq<byte>) {
    Matches(e, name, value) && e != Entry(name, value)
  }

  predicate NameClash(e: Entry, name: seq<byte>) {
    name <= e.name && e.name != name
  }

  /** Among the m oldest entries, every one that clashes has a newer one that is the query itself. */
  ghost predicate Shadowed(es: seq<Entry>, m: nat, name: seq<byte>, value: seq<byte>)
    requires m <= |es|
  {
    forall i :: 0 <= i < m && Clash(es[i], name, value) ==> exists j :: i < j < m && es[j] == Entry(name, value)
  }

  ghost predicate NameShadowed(es: seq<Entry>, m: nat, name: seq<byte>)
    requires m <= |es|
  {
    forall i :: 0 <= i < m && NameClash(es[i], name) ==> exists j :: i < j < m && es[j].name == name
  }

  lemma {:induction false} DynamicIsExactIff(es: seq<Entry>, name: seq<byte>, value: seq<byte>, k: nat)
    requires 1 <= k <= |es| + 1
    ensures DynamicFrom(es, name, value, k) == ExactFrom(es, name, value, k) <==>
            Shadowed(es, |es| + 1 - k, name, value)
    decreases |es| + 1 - k
  {
    if k <= |es| {
      var m := |es| - k;
      var e := es[m];
      DynamicIsExactIff(es, name, value, k + 1);
      if e == Entry(name, value) {
        assert Matches(e, name, value);
      } else if Matches(e, name, value) {
        assert Clash(e, name, value);
        ExactIsLater(es, name, value, k + 1);
      } else {
        ShadowedNext(es, m, name, value);
      }
    }
  }

  lemma {:induction false} ExactIsLater(es: seq<Entry>, name: seq<byte>, value: seq<byte>, k: nat)
    requires 1 <= k <= |es| + 1
    ensures ExactFrom(es, name, value, k) == 0 || ExactFrom(es, name, value, k) >= k
    decreases |es| + 1 - k
  {
    if k <= |es| {
      ExactIsLater(es, name, value, k + 1);
    }
  }

  lemma ShadowedNext(es: seq<Entry>, m: nat, name: seq<byte>, value: seq<byte>)
    requires m < |es| && !Matches(es[m], name, value) && es[m] != Entry(name, value)
    ensures Shadowed(es, m + 1, name, value) <==> Shadowed(es, m, name, value)
  {
    if Shadowed(es, m, name, value) {
      forall i | 0 <= i < m + 1 && Clash(es[i], name, value)
        ensures exists j :: i < j < m + 1 && es[j] == Entry(name, value)
      {
        var j :| i < j < m && es[j] == Entry(name, value);
      }
    } else {
      var i :| 0 <= i < m && Clash(es[i], name, value) && !exists j :: i < j < m && es[j] == Entry(name, value);
      assert forall j :: i < j < m + 1 ==> es[j] != Entry(name, value);
    }
  }

  /**
   * The search agrees with search by equality exactly when the static list has the query or
   * every entry that clashes with it lies behind a newer one equal to it.
   */
  lemma FindIndexIsExactIff(fixed: seq<Entry>, t: Table, name: seq<byte>, value: seq<byte>)
    ensures FindIndex(fixed, t, name, value) == ExactIndex(fixed, t, name, value) <==>
            StaticFrom(fixed, name, value, 0) > 0 || Shadowed(t.entries, |t.entries|, name, value)
  {
    DynamicIsExactIff(t.entries, name, value, 1);
  }

  lemma {:induction false} DynamicNameIsExactIff(es: seq<Entry>, name: seq<byte>, k: nat)
    requires 1 <= k <= |es| + 1
    ensures DynamicNameFrom(es, name, k) == ExactNameFrom(es, name, k) <==> NameShadowed(es, |es| + 1 - k, name)
    decreases |es| + 1 - k
  {
    if k <= |es| {
      var m := |es| - k;
      DynamicNameIsExactIff(es, name, k + 1);
      if es[m].name == name {
      } else if name <= es[m].name {
        assert NameClash(es[m], name);
        ExactNameIsLater(es, name, k + 1);
      } else {
        NameShadowedNext(es, m, name);
      }
    }
  }

  lemma {:induction false} ExactNameIsLater(es: seq<Entry>, name: seq<byte>, k: nat)
    requires 1 <= k <= |es| + 1
    ensures ExactNameFrom(es, name, k) == 0 || ExactNameFrom(es, name, k) >= k
    decreases |es| + 1 - k
  {
    if k <= |es| {
      ExactNameIsLater(es, name, k + 1);
    }
  }

  lemma NameShadowedNext(es: seq<Entry>, m: nat, name: seq<byte>)
    requires m < |es| && !(name <= es[m].name)
    ensures NameShadowed(es, m + 1, name) <==> NameShadowed(es, m, name)
  {
    if NameShadowed(es, m, name) {
      forall i | 0 <= i < m + 1 && NameClash(es[i], name)
        ensures exists j :: i < j < m + 1 && es[j].name == name
      {
        var j :| i < j < m && es[j].name == name;
      }
    } else {
      var i :| 0 <= i < m && NameClash(es[i], name) && !exists j :: i < j < m && es[j].name == name;
      assert forall j :: i < j < m + 1 ==> es[j].name != name;
    }
  }

  /** The same for the search by name alone. */
  lemma FindIndexNameIsExactIff(fixed: seq<Entry>, t: Table, name: seq<byte>)
    ensures FindIndexName(fixed, t, name) == ExactIndexName(fixed, t, name) <==>
            StaticNameFrom(fixed, name, 0) > 0 || NameShadowed(t.entries, |t.entries|, name)
  {
    DynamicNameIsExactIff(t.entries, name, 1);
  }

  /** No stored string properly extends the queried one in its place. */
  ghost predicate NoPrefixClash(es: seq<Entry>, name: seq<byte>, value: seq<byte>) {
    forall i :: 0 <= i < |es| ==>
      && !(name < es[i].name)
      && (es[i].name == name ==> !(value < es[i].value))
  }

  lemma NoClash(es: seq<Entry>, name: seq<byte>, value: seq<byte>)
    requires NoPrefixClash(es, name, value)
    ensures forall i :: 0 <= i < |es| ==> !Clash(es[i], name, value) && !NameClash(es[i], name)
  {
  }

  /** Without a prefix clash both searches are searches by equality. */
  lemma SearchIsExact(fixed: seq<Entry>, t: Table, name: seq<byte>, value: seq<byte>)
    requires NoPrefixClash(t.entries, name, value)
    ensures FindIndex(fixed, t, name, value) == ExactIndex(fixed, t, name, value)
    ensures FindIndexName(fixed, t, name) == ExactIndexName(fixed, t, name)
  {
    NoClash(t.entries, name, value);
    FindIndexIsExactIff(fixed, t, name, value);
    FindIndexNameIsExactIff(fixed, t, name);
  }

  lemma {:induction false} StaticMisses(fixed: seq<Entry>, name: seq<byte>, value: seq<byte>, i: nat)
    requires i <= |fixed| && name != [] && Entry(name, value) !in fixed
    ensures StaticFrom(fixed, name, value, i) == 0
    decreases |fixed| - i
  {
    if i < |fixed| {
      assert fixed[i] != Entry(name, value);
      StaticMisses(fixed, name, value, i + 1);
    }
  }

  /** A stored value is found for every value it properly extends: the search is not a search by equality. */
  lemma SearchTakesPrefix(fixed: seq<Entry>, t: Table, name: seq<byte>, value: seq<byte>, rest: seq<byte>)
    requires name != [] && rest != [] && Entry(name, value) !in fixed
    requires t.entries == [Entry(name, value + rest)]
    ensures FindIndex(fixed, t, name, value) == STATIC_SIZE + 1 && ExactIndex(fixed, t, name, value) == 0
  {
    StaticMisses(fixed, name, value, 0);
    var es := t.entries;
    assert Matches(es[|es| - 1], name, value);
    assert DynamicFrom(es, name, value, 1) == 1;
    assert ExactFrom(es, name, value, 1) == ExactFrom(es, name, value, 2);
  }

  lemma {:induction false} NamedEntriesSize(es: seq<Entry>)
    requires forall i :: 0 <= i < |es| ==> es[i].name != []
    ensures Size(es) >= 33 * |es|
  {
    if es != [] {
      NamedEntriesSize(es[1..]);
    }
  }

  /** With names that are not empty, a table of 4096 bytes cannot overflow the 8-bit separator count. */
  lemma SeparatorsFitInEightBits(t: Table)
    requires WellFormed(t) && t.maxSize <= 4096
    requires forall i :: 0 <= i < |t.entries| ==> t.entries[i].name != []
    ensures 2 * |t.entries| < 256
  {
    NamedEntriesSize(t.entries);
  }
}
