/** Which representation src/hpack/encoder.c writes for a header: the shortest that its tables and its Huffman code allow. */
module HpackChoices {
  import opened Bits
  import PrefixInt
  import opened Huffman
  import opened HuffmanString
  import opened TableSpec
  import opened TableSearch
  import opened HpackString
  import opened HpackBlock
  import opened HpackFields

  // ----- The searches find what is there -----

  /** The lowest index with the header. */
  ghost predicate IsIndexOf(fixed: seq<Entry>, t: Table, e: Entry, index: nat)
    requires |fixed| == STATIC_SIZE
  {
    && HasIndex(fixed, t, index) && EntryAt(fixed, t, index) == e
    && forall j :: 1 <= j < index ==> EntryAt(fixed, t, j) != e
  }

  ghost predicate IsIndexOfName(fixed: seq<Entry>, t: Table, name: seq<byte>, index: nat)
    requires |fixed| == STATIC_SIZE
  {
    && HasIndex(fixed, t, index) && EntryAt(fixed, t, index).name == name
    && forall j :: 1 <= j < index ==> EntryAt(fixed, t, j).name != name
  }

  ghost predicate HasHeader(fixed: seq<Entry>, t: Table, e: Entry)
    requires |fixed| == STATIC_SIZE
  {
    exists i :: HasIndex(fixed, t, i) && EntryAt(fixed, t, i) == e
  }

  ghost predicate HasName(fixed: seq<Entry>, t: Table, name: seq<byte>)
    requires |fixed| == STATIC_SIZE
  {
    exists i :: HasIndex(fixed, t, i) && EntryAt(fixed, t, i).name == name
  }

  lemma {:induction false} StaticFinds(fixed: seq<Entry>, e: Entry, i: nat)
    requires i <= |fixed| && e.name != []
    ensures var s := StaticFrom(fixed, e.name, e.value, i);
            if s == 0 then forall j :: i <= j < |fixed| ==> fixed[j] != e
            else i < s <= |fixed| && fixed[s - 1] == e && forall j :: i <= j < s - 1 ==> fixed[j] != e
    ensures var s := StaticNameFrom(fixed, e.name, i);
            if s == 0 then forall j :: i <= j < |fixed| ==> fixed[j].name != e.name
            else i < s <= |fixed| && fixed[s - 1].name == e.name && forall j :: i <= j < s - 1 ==> fixed[j].name != e.name
    decreases |fixed| - i
  {
    if i < |fixed| {
      StaticFinds(fixed, e, i + 1);
    }
  }

  /** The j-th newest entry. */
  function Newest(es: seq<Entry>, j: nat): (e: Entry)
    requires 1 <= j <= |es|
  {
    es[|es| - j]
  }

  lemma {:induction false} DynamicFinds(es: seq<Entry>, e: Entry, k: nat)
    requires 1 <= k <= |es| + 1
    ensures var d := ExactFrom(es, e.name, e.value, k);
            if d == 0 then forall j :: k <= j <= |es| ==> Newest(es, j) != e
            else k <= d <= |es| && Newest(es, d) == e && forall j :: k <= j < d ==> Newest(es, j) != e
    decreases |es| + 1 - k
  {
    if k <= |es| {
      assert Newest(es, k) == es[|es| - k];
      DynamicFinds(es, e, k + 1);
    }
  }

  lemma {:induction false} DynamicFindsName(es: seq<Entry>, name: seq<byte>, k: nat)
    requires 1 <= k <= |es| + 1
    ensures var d := ExactNameFrom(es, name, k);
            if d == 0 then forall j :: k <= j <= |es| ==> Newest(es, j).name != name
            else k <= d <= |es| && Newest(es, d).name == name && forall j :: k <= j < d ==> Newest(es, j).name != name
    decreases |es| + 1 - k
  {
    if k <= |es| {
      assert Newest(es, k) == es[|es| - k];
      DynamicFindsName(es, name, k + 1);
    }
  }

  lemma AtIndex(fixed: seq<Entry>, t: Table, i: nat)
    requires |fixed| == STATIC_SIZE && HasIndex(fixed, t, i)
    ensures EntryAt(fixed, t, i) == if i <= 61 then fixed[i - 1] else Newest(t.entries, i - 61)
  {
  }

  /** Where no stored string properly begins with the queried one, the searches give the lowest index, or 0 if there is none. */
  lemma SearchFinds(fixed: seq<Entry>, t: Table, e: Entry)
    requires |fixed| == STATIC_SIZE && e.name != [] && NoPrefixClash(t.entries, e.name, e.value)
    ensures var i := FindIndex(fixed, t, e.name, e.value);
            if i > 0 then IsIndexOf(fixed, t, e, i) else !HasHeader(fixed, t, e)
    ensures var i := FindIndexName(fixed, t, e.name);
            if i > 0 then IsIndexOfName(fixed, t, e.name, i) else !HasName(fixed, t, e.name)
  {
    SearchIsExact(fixed, t, e.name, e.value);
    hide NoPrefixClash, FindIndex, FindIndexName;
    FindsHeader(fixed, t, e);
    FindsName(fixed, t, e);
  }

  lemma FindsHeader(fixed: seq<Entry>, t: Table, e: Entry)
    requires |fixed| == STATIC_SIZE && e.name != []
    ensures var i := ExactIndex(fixed, t, e.name, e.value);
            if i > 0 then IsIndexOf(fixed, t, e, i) else !HasHeader(fixed, t, e)
  {
    hide ExactFrom, StaticFrom, EntryAt, Newest;
    StaticFinds(fixed, e, 0);
    DynamicFinds(t.entries, e, 1);
    forall i: nat | HasIndex(fixed, t, i)
      ensures EntryAt(fixed, t, i) == if i <= 61 then fixed[i - 1] else Newest(t.entries, i - 61)
    {
      AtIndex(fixed, t, i);
    }
  }

  lemma FindsName(fixed: seq<Entry>, t: Table, e: Entry)
    requires |fixed| == STATIC_SIZE && e.name != []
    ensures var i := ExactIndexName(fixed, t, e.name);
            if i > 0 then IsIndexOfName(fixed, t, e.name, i) else !HasName(fixed, t, e.name)
  {
    hide ExactNameFrom, StaticNameFrom, EntryAt, Newest;
    StaticFinds(fixed, e, 0);
    DynamicFindsName(t.entries, e.name, 1);
    forall i: nat | HasIndex(fixed, t, i)
      ensures EntryAt(fixed, t, i) == if i <= 61 then fixed[i - 1] else Newest(t.entries, i - 61)
    {
      AtIndex(fixed, t, i);
    }
  }

  // ----- The representation -----

  /** Huffman coding exactly when it is no longer than the string, its length included. */
  ghost predicate IsShortest(k: Code, s: seq<byte>, raw: Raw)
    requires Canonical(k)
  {
    var coded := HuffmanBytes(k, s);
    if |coded| <= PrefixInt.MAX_INTEGER && |StringOctets(Raw(true, coded))| <= |s|
    then raw == Raw(true, coded)
    else raw == Raw(false, s)
  }

  /**
   * An indexed field for a header in the tables; otherwise a literal with the lowest index of its name, or its name. It is
   * one with incremental indexing exactly when the entry is no larger than the table, and one never to be indexed otherwise.
   */
  ghost predicate IsBest(c: Codec, t: Table, e: Entry, rep: Representation)
    requires Canonical(c.code) && |c.fixed| == STATIC_SIZE
  {
    match rep
    case IndexedField(index) => IsIndexOf(c.fixed, t, e, index)
    case LiteralField(indexing, index, name, value) =>
      && !HasHeader(c.fixed, t, e)
      && indexing == (if |e.name| + |e.value| + 32 <= t.maxSize then Incremental else Never)
      && (if index > 0 then IsIndexOfName(c.fixed, t, e.name, index) && name == Raw(false, [])
          else !HasName(c.fixed, t, e.name) && IsShortest(c.code, e.name, name))
      && IsShortest(c.code, e.value, value)
    case TableSize(_) => false
  }

  lemma MarkedIsPrefixed(n: nat, prefix: nat)
    requires n <= PrefixInt.MAX_INTEGER && prefix in {4, 6, 7}
    ensures Marked(n, prefix) == Prefixed(if prefix == 7 then 0x80 else if prefix == 6 then 0x40 else 0x10, prefix, n)
  {
    Pow2Small();
    PrefixInt.RoundTrip(n, prefix, 1, []);
    hide PrefixInt.Encode, Or;
  }

  lemma PlainIsPrefixed(n: nat)
    ensures PrefixInt.Encode(n, 7) == Prefixed(0, 7, n)
  {
    Pow2Small();
    hide PrefixInt.Encode;
  }

  /** A string literal. */
  lemma WritesString(k: Code, s: seq<byte>, raw: Raw)
    requires Canonical(k) && IsShortest(k, s, raw)
    ensures StringCode(k, s) == StringOctets(raw)
  {
    hide Canonical, PrefixInt.Encode, Prefixed, Marked, HuffmanBytes;
    if |HuffmanBytes(k, s)| <= PrefixInt.MAX_INTEGER {
      MarkedIsPrefixed(|HuffmanBytes(k, s)|, 7);
    }
    PlainIsPrefixed(|s|);
  }

  lemma OneIndex(fixed: seq<Entry>, t: Table, e: Entry, i: nat, j: nat)
    requires |fixed| == STATIC_SIZE
    ensures IsIndexOf(fixed, t, e, i) && IsIndexOf(fixed, t, e, j) ==> i == j
    ensures IsIndexOfName(fixed, t, e.name, i) && IsIndexOfName(fixed, t, e.name, j) ==> i == j
    ensures IsIndexOf(fixed, t, e, i) ==> i > 0 && HasHeader(fixed, t, e)
    ensures IsIndexOfName(fixed, t, e.name, i) ==> i > 0 && HasName(fixed, t, e.name)
  {
    hide EntryAt;
  }

  /** What the encoder writes are the octets of the best representation. */
  lemma WritesBest(c: Codec, t: Table, e: Entry, rep: Representation)
    requires Canonical(c.code) && |c.fixed| == STATIC_SIZE && Bounded(t)
    requires e.name != [] && NoPrefixClash(t.entries, e.name, e.value) && IsBest(c, t, e, rep)
    ensures FieldCode(c, t, e.name, e.value) == Octets(rep)
  {
    SearchFinds(c.fixed, t, e);
    IndexBound(c, t, e.name, e.value);
    var i, n := FindIndex(c.fixed, t, e.name, e.value), FindIndexName(c.fixed, t, e.name);
    hide Canonical, Bounded, NoPrefixClash, IsIndexOf, IsIndexOfName, HasHeader, HasName, FindIndex, FindIndexName, Prefixed,
      Marked, StringCode, StringOctets, IsShortest;
    MarkedIsPrefixed(i, 7);
    MarkedIsPrefixed(n, 6);
    MarkedIsPrefixed(n, 4);
    match rep
    case IndexedField(index) => OneIndex(c.fixed, t, e, i, index);
    case LiteralField(indexing, index, name, value) =>
      OneIndex(c.fixed, t, e, i, 0);
      OneIndex(c.fixed, t, e, n, index);
      WritesString(c.code, e.value, value);
      if index == 0 {
        WritesString(c.code, e.name, name);
      }
    case TableSize(_) =>
  }

  /** There is one for every header. */
  lemma BestExists(c: Codec, t: Table, e: Entry) returns (rep: Representation)
    requires Canonical(c.code) && |c.fixed| == STATIC_SIZE && e.name != [] && NoPrefixClash(t.entries, e.name, e.value)
    ensures IsBest(c, t, e, rep)
  {
    SearchFinds(c.fixed, t, e);
    var i, n := FindIndex(c.fixed, t, e.name, e.value), FindIndexName(c.fixed, t, e.name);
    hide Canonical, NoPrefixClash, IsIndexOf, IsIndexOfName, HasHeader, HasName, FindIndex, FindIndexName, IsShortest;
    if i > 0 {
      rep := IndexedField(i);
    } else {
      var name := Shortest(c.code, e.name);
      var value := Shortest(c.code, e.value);
      rep := LiteralField(if |e.name| + |e.value| + 32 <= t.maxSize then Incremental else Never, n,
        if n > 0 then Raw(false, []) else name, value);
    }
  }

  lemma Shortest(k: Code, s: seq<byte>) returns (raw: Raw)
    requires Canonical(k)
    ensures IsShortest(k, s, raw)
  {
    hide Canonical, HuffmanBytes, StringOctets;
    var coded := HuffmanBytes(k, s);
    raw := if |coded| <= PrefixInt.MAX_INTEGER && |StringOctets(Raw(true, coded))| <= |s| then Raw(true, coded)
           else Raw(false, s);
  }
}
