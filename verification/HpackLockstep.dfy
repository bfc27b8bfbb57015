/** Encoder and decoder in step: over every run, each block decodes to its headers and the tables stay equal. */
module HpackLockstep {
  import opened Bits
  import opened Huffman
  import opened Eos
  import opened TableSpec
  import opened TableSearch
  import opened HpackString
  import opened HpackBlock
  import opened HpackDelivery
  import HeaderList

  /** Headers of a block that the decoder hands on: it drops those with an empty value. */
  function Visible(hs: seq<Entry>): (r: seq<Entry>) {
    if hs == [] then [] else Emit(hs[0].name, hs[0].value) + Visible(hs[1..])
  }

  ghost function HeadersTable(c: Codec, t: Table, hs: seq<Entry>): (r: Table)
    decreases |hs|
  {
    if hs == [] then t else HeadersTable(c, TableAfter(c, t, hs[0].name, hs[0].value), hs[1..])
  }

  /** Headers as they come out of a header list: C strings, with names, and short enough for the table's arithmetic. */
  ghost predicate Storable(hs: seq<Entry>) {
    forall i :: 0 <= i < |hs| ==>
      NulFreeEntry(hs[i]) && hs[i].name != [] && |hs[i].name| + |hs[i].value| + 32 < 0x1_0000
  }

  /** Every header can be carried, and the encoder finds for it what it looks for. */
  ghost predicate HeadersOk(c: Codec, t: Table, hs: seq<Entry>): (ok: bool)
    requires Ready(c)
    ensures ok ==> Storable(hs)
    decreases |hs|
  {
    hs != [] ==>
      && Sendable(c, hs[0].name, hs[0].value)
      && Faithful(c, t, hs[0].name, hs[0].value)
      && HeadersOk(c, TableAfter(c, t, hs[0].name, hs[0].value), hs[1..])
  }

  /** hpack_encoder_encode. */
  ghost function HeadersCode(c: Codec, t: Table, hs: seq<Entry>): (r: seq<byte>)
    requires Ready(c) && Bounded(t) && Storable(hs)
    decreases |hs|
  {
    if hs == [] then []
    else
      NextIsBounded(c, t, hs);
      FieldCode(c, t, hs[0].name, hs[0].value) +
      HeadersCode(c, TableAfter(c, t, hs[0].name, hs[0].value), hs[1..])
  }

  lemma NextIsBounded(c: Codec, t: Table, hs: seq<Entry>)
    requires Bounded(t) && hs != [] && Storable(hs)
    ensures Bounded(TableAfter(c, t, hs[0].name, hs[0].value)) && Storable(hs[1..])
  {
    TableAfterIsBounded(c, t, hs[0].name, hs[0].value);
  }

  lemma {:induction false} HeadersRoundTrip(c: Codec, t: Table, hs: seq<Entry>, first: bool)
    requires Ready(c) && Bounded(t) && HeadersOk(c, t, hs)
    ensures DecodeBlock(c, t, HeadersCode(c, t, hs), first) == Block(Visible(hs), HeadersTable(c, t, hs))
    ensures Bounded(HeadersTable(c, t, hs))
    decreases |hs|
  {
    hide DecodeBlock, FieldCode, TableAfter, Sendable, Faithful, Ready, Bounded, Emit;
    if hs == [] {
      EmptyBlock(c, t, first);
    } else {
      var e := hs[0];
      var t' := TableAfter(c, t, e.name, e.value);
      NextIsBounded(c, t, hs);
      HeadersRoundTrip(c, t', hs[1..], false);
      HeaderRoundTrip(c, t, e.name, e.value, HeadersCode(c, t', hs[1..]), first);
    }
  }

  lemma EmptyBlock(c: Codec, t: Table, first: bool)
    requires Ready(c)
    ensures DecodeBlock(c, t, [], first) == Block([], t)
  {
  }

  ghost function UpdatesTable(t: Table, us: seq<nat>): (r: Table)
    decreases |us|
  {
    if us == [] then t else UpdatesTable(Resize(t, us[0]), us[1..])
  }

  ghost predicate UpdatesOk(t: Table, us: seq<nat>) {
    forall i :: 0 <= i < |us| ==> us[i] <= t.limit
  }

  /** hpack_encoder_encode_dynamic_size_update, once per update. */
  ghost function UpdatesCode(t: Table, us: seq<nat>): (r: seq<byte>)
    requires Bounded(t) && UpdatesOk(t, us)
    decreases |us|
  {
    if us == [] then []
    else
      assert us[0] <= t.limit;
      ResizeIsBounded(t, us[0]);
      Marked(us[0], 5) + UpdatesCode(Resize(t, us[0]), us[1..])
  }

  lemma ResizeIsBounded(t: Table, u: nat)
    requires Bounded(t) && u <= t.limit
    ensures Bounded(Resize(t, u)) && Resize(t, u).limit == t.limit
  {
    ResizeKeepsWellFormed(t, u);
  }

  lemma UpdateRoundTrip(c: Codec, t: Table, u: nat, post: seq<byte>)
    requires Ready(c) && Bounded(t) && u <= t.limit
    ensures DecodeBlock(c, t, Marked(u, 5) + post, true) == DecodeBlock(c, Resize(t, u), post, true)
  {
    hide Marked, ParseField, Resize;
    ParseMarked(u, 5, post);
    var code := Marked(u, 5);
    assert (code + post)[|code|..] == post;
    var rest := DecodeBlock(c, Resize(t, u), post, true);
    assert Before(Emit([], []), rest) == rest by {
      if rest.Block? {
        assert [] + rest.headers == rest.headers;
      }
    }
  }

  lemma {:induction false} UpdatesRoundTrip(c: Codec, t: Table, us: seq<nat>, post: seq<byte>)
    requires Ready(c) && Bounded(t) && UpdatesOk(t, us)
    ensures DecodeBlock(c, t, UpdatesCode(t, us) + post, true) == DecodeBlock(c, UpdatesTable(t, us), post, true)
    ensures Bounded(UpdatesTable(t, us))
    decreases |us|
  {
    hide DecodeBlock, Ready, Bounded, Resize, Marked;
    if us == [] {
      assert [] + post == post;
    } else {
      var t' := Resize(t, us[0]);
      assert us[0] <= t.limit;
      ResizeIsBounded(t, us[0]);
      UpdatesRoundTrip(c, t', us[1..], post);
      UpdateRoundTrip(c, t, us[0], UpdatesCode(t', us[1..]) + post);
      assert UpdatesCode(t, us) + post == Marked(us[0], 5) + (UpdatesCode(t', us[1..]) + post);
    }
  }

  /** What goes into one block: table size updates, then headers. */
  datatype Message = Message(updates: seq<nat>, headers: seq<Entry>)

  ghost predicate MessageOk(c: Codec, t: Table, m: Message)
    requires Ready(c)
  {
    UpdatesOk(t, m.updates) && HeadersOk(c, UpdatesTable(t, m.updates), m.headers)
  }

  ghost function MessageTable(c: Codec, t: Table, m: Message): (r: Table) {
    HeadersTable(c, UpdatesTable(t, m.updates), m.headers)
  }

  ghost function MessageCode(c: Codec, t: Table, m: Message): (r: seq<byte>)
    requires Ready(c) && Bounded(t) && MessageOk(c, t, m)
  {
    UpdatesRoundTrip(c, t, m.updates, []);
    UpdatesCode(t, m.updates) + HeadersCode(c, UpdatesTable(t, m.updates), m.headers)
  }

  /** One block: the same headers, and the tables again the same. */
  lemma BlockRoundTrip(c: Codec, t: Table, m: Message)
    requires Ready(c) && Bounded(t) && MessageOk(c, t, m)
    ensures DecodeBlock(c, t, MessageCode(c, t, m), true) == Block(Visible(m.headers), MessageTable(c, t, m))
    ensures Bounded(MessageTable(c, t, m))
  {
    hide DecodeBlock, Ready, Bounded, UpdatesCode, HeadersCode;
    var t' := UpdatesTable(t, m.updates);
    UpdatesRoundTrip(c, t, m.updates, []);
    HeadersRoundTrip(c, t', m.headers, true);
    UpdatesRoundTrip(c, t, m.updates, HeadersCode(c, t', m.headers));
  }

  ghost predicate RunOk(c: Codec, t: Table, ms: seq<Message>)
    requires Ready(c)
    decreases |ms|
  {
    ms != [] ==> MessageOk(c, t, ms[0]) && RunOk(c, MessageTable(c, t, ms[0]), ms[1..])
  }

  /** The blocks an encoder sends in a run, starting from table t. */
  ghost function Blocks(c: Codec, t: Table, ms: seq<Message>): (r: seq<seq<byte>>)
    requires Ready(c) && Bounded(t) && RunOk(c, t, ms)
    decreases |ms|
  {
    if ms == [] then []
    else
      BlockRoundTrip(c, t, ms[0]);
      [MessageCode(c, t, ms[0])] + Blocks(c, MessageTable(c, t, ms[0]), ms[1..])
  }

  ghost function RunTable(c: Codec, t: Table, ms: seq<Message>): (r: Table)
    decreases |ms|
  {
    if ms == [] then t else RunTable(c, MessageTable(c, t, ms[0]), ms[1..])
  }

  datatype Received = Received(lists: seq<seq<Entry>>, table: Table) | Broken

  /** A decoder that starts from table t and is given the blocks in order, each with an empty header list. */
  ghost function Receive(c: Codec, t: Table, blocks: seq<seq<byte>>, capacity: nat): (r: Received)
    requires Sized(c.code) && |c.fixed| == STATIC_SIZE
    decreases |blocks|
  {
    if blocks == [] then Received([], t)
    else
      match DecodeInto(c, t, blocks[0], true, [], capacity)
      case Undelivered(_, _, _) => Broken
      case Delivered(list, t') =>
        match Receive(c, t', blocks[1..], capacity)
        case Broken => Broken
        case Received(rest, t'') => Received([list] + rest, t'')
  }

  /** The header list that the headers of a message make: header_list_add for each that has a value. */
  function ListOf(m: Message, capacity: nat): (r: HeaderList.Change) {
    HeaderList.AddAll([], Visible(m.headers), capacity)
  }

  ghost predicate Accepted(ms: seq<Message>, capacity: nat) {
    forall i :: 0 <= i < |ms| ==> ListOf(ms[i], capacity).ok
  }

  function Lists(ms: seq<Message>, capacity: nat): (r: seq<seq<Entry>>) {
    if ms == [] then [] else [ListOf(ms[0], capacity).list] + Lists(ms[1..], capacity)
  }

  function VisibleLists(ms: seq<Message>): (r: seq<seq<Entry>>) {
    if ms == [] then [] else [Visible(ms[0].headers)] + VisibleLists(ms[1..])
  }

  /** One block and an empty header list: the headers added to it one after the other. */
  lemma MessageDelivered(c: Codec, t: Table, m: Message, capacity: nat)
    requires Ready(c) && Bounded(t) && MessageOk(c, t, m)
    ensures var d, l := DecodeInto(c, t, MessageCode(c, t, m), true, [], capacity), ListOf(m, capacity);
            if l.ok then d == Delivered(l.list, MessageTable(c, t, m)) else d.Undelivered? && d.list == l.list
  {
    assert Sized(c.code) && |c.fixed| == STATIC_SIZE;
    hide DecodeBlock, DecodeInto, Ready, Bounded, MessageCode, MessageTable, MessageOk, Visible, HeaderList.AddAll;
    BlockRoundTrip(c, t, m);
    DeliveryOfBlock(c, t, MessageCode(c, t, m), true, [], capacity);
  }

  /**
   * Lockstep: from equal tables, for every run of header lists and size updates, every block
   * decodes to the headers that were encoded, which are added to a header list one after the other, and
   * both tables end up equal; the run breaks off exactly where a header list refuses a header.
   */
  lemma {:induction false} Lockstep(c: Codec, t: Table, ms: seq<Message>, capacity: nat)
    requires Ready(c) && Bounded(t) && RunOk(c, t, ms)
    ensures Receive(c, t, Blocks(c, t, ms), capacity) ==
            if Accepted(ms, capacity) then Received(Lists(ms, capacity), RunTable(c, t, ms)) else Broken
    decreases |ms|
  {
    hide DecodeInto, Ready, Bounded, MessageCode, MessageTable, MessageOk, ListOf;
    if ms != [] {
      var m := ms[0];
      MessageDelivered(c, t, m, capacity);
      BlockRoundTrip(c, t, m);
      Lockstep(c, MessageTable(c, t, m), ms[1..], capacity);
      var blocks := Blocks(c, t, ms);
      assert blocks[0] == MessageCode(c, t, m);
      assert blocks[1..] == Blocks(c, MessageTable(c, t, m), ms[1..]);
      AcceptedCons(ms, capacity);
    }
  }

  lemma AcceptedCons(ms: seq<Message>, capacity: nat)
    requires ms != []
    ensures Accepted(ms, capacity) <==> ListOf(ms[0], capacity).ok && Accepted(ms[1..], capacity)
  {
    hide ListOf;
    assert forall i :: 1 <= i < |ms| ==> ms[i] == ms[1..][i - 1];
  }

  /** The headers of every message keep apart in a header list and fit it. */
  ghost predicate Separate(m: Message, capacity: nat) {
    HeaderList.ApartFrom(Visible(m.headers), 0) && |HeaderList.Packed(Visible(m.headers))| <= capacity
  }

  lemma ListIsVisibleIff(m: Message, capacity: nat)
    ensures ListOf(m, capacity) == HeaderList.Change(Visible(m.headers), true) <==> Separate(m, capacity)
  {
    hide Visible, HeaderList.AddAll, HeaderList.ApartFrom;
    var hs := Visible(m.headers);
    assert [] + hs == hs && |HeaderList.Packed([])| == 0;
    hide HeaderList.Packed;
    HeaderList.AddAllKeepsIff([], hs, capacity);
  }

  lemma {:induction false} ListsAreVisibleIff(ms: seq<Message>, capacity: nat)
    ensures Accepted(ms, capacity) && Lists(ms, capacity) == VisibleLists(ms) <==>
            forall i :: 0 <= i < |ms| ==> Separate(ms[i], capacity)
  {
    hide ListOf, Visible, Separate;
    if ms != [] {
      ListsAreVisibleIff(ms[1..], capacity);
      ListIsVisibleIff(ms[0], capacity);
      AcceptedCons(ms, capacity);
      assert Lists(ms, capacity)[1..] == Lists(ms[1..], capacity) && VisibleLists(ms)[1..] == VisibleLists(ms[1..]);
      assert forall i :: 1 <= i < |ms| ==> ms[i] == ms[1..][i - 1];
    }
  }

  /**
   * The peer's header lists are exactly the lists that were sent if and only if in each of them no name
   * begins, case ignored, with an earlier one, and its pairs fit.
   */
  lemma LockstepIsExactIff(c: Codec, t: Table, ms: seq<Message>, capacity: nat)
    requires Ready(c) && Bounded(t) && RunOk(c, t, ms)
    ensures Receive(c, t, Blocks(c, t, ms), capacity) == Received(VisibleLists(ms), RunTable(c, t, ms)) <==>
            forall i :: 0 <= i < |ms| ==> Separate(ms[i], capacity)
  {
    hide Receive, Blocks, Lists, VisibleLists, RunTable, Accepted, Separate, Ready, Bounded, RunOk;
    Lockstep(c, t, ms, capacity);
    ListsAreVisibleIff(ms, capacity);
  }

  /** Search by equality returns an index whose entry is the query. */
  lemma {:induction false} ExactFromHits(es: seq<Entry>, name: seq<byte>, value: seq<byte>, k: nat)
    requires 1 <= k <= |es| + 1
    ensures var d := ExactFrom(es, name, value, k); d > 0 ==> k <= d <= |es| && es[|es| - d] == Entry(name, value)
    ensures var d := ExactNameFrom(es, name, k); d > 0 ==> k <= d <= |es| && es[|es| - d].name == name
    decreases |es| + 1 - k
  {
    if k <= |es| {
      ExactFromHits(es, name, value, k + 1);
    }
  }

  lemma {:induction false} StaticFromHits(fixed: seq<Entry>, name: seq<byte>, value: seq<byte>, i: nat)
    requires i <= |fixed| && name != []
    ensures var s := StaticFrom(fixed, name, value, i); s > 0 ==> s <= |fixed| && fixed[s - 1] == Entry(name, value)
    ensures var s := StaticNameFrom(fixed, name, i); s > 0 ==> s <= |fixed| && fixed[s - 1].name == name
    decreases |fixed| - i
  {
    if i < |fixed| {
      StaticFromHits(fixed, name, value, i + 1);
    }
  }

  /** Where no stored string properly extends the header's own, the encoder finds what it looks for. */
  lemma NoPrefixClashIsFaithful(c: Codec, t: Table, name: seq<byte>, value: seq<byte>)
    requires |c.fixed| == STATIC_SIZE && name != [] && NoPrefixClash(t.entries, name, value)
    ensures Faithful(c, t, name, value)
  {
    SearchIsExact(c.fixed, t, name, value);
    ExactFromHits(t.entries, name, value, 1);
    StaticFromHits(c.fixed, name, value, 0);
  }

  /** For a name that is not empty the encoder's indices always exist. */
  lemma IndicesExist(c: Codec, t: Table, name: seq<byte>, value: seq<byte>)
    requires |c.fixed| == STATIC_SIZE && name != []
    ensures var i := FindIndex(c.fixed, t, name, value); i > 0 ==> HasIndex(c.fixed, t, i)
    ensures var i := FindIndexName(c.fixed, t, name); i > 0 ==> HasIndex(c.fixed, t, i)
  {
    StaticFromHits(c.fixed, name, value, 0);
    DynamicBound(t.entries, name, value, 1);
  }

  /** What the decoder makes of a field whose search went astray is another header, or none. */
  lemma ApplyUnfaithful(c: Codec, t: Table, name: seq<byte>, value: seq<byte>)
    requires Ready(c) && Bounded(t) && Sendable(c, name, value) && !Faithful(c, t, name, value)
    ensures var r := Apply(c, t, FieldFor(c, t, name, value)); r.Applied? ==> Entry(r.name, r.value) != Entry(name, value)
  {
    hide DecodeString, Payload, Canonical, ShortRuns, Bounded, FindIndex, FindIndexName, CanAdd, Add;
    IndicesExist(c, t, name, value);
    CarriedIsNulFree(c.code, value);
    DecodePayload(c.code, value, c.valueSize);
  }

  lemma UnfaithfulBlock(c: Codec, t: Table, name: seq<byte>, value: seq<byte>)
    requires Ready(c) && Bounded(t) && Sendable(c, name, value) && !Faithful(c, t, name, value)
    ensures var b := DecodeBlock(c, t, FieldCode(c, t, name, value), true); b.Block? ==> b.headers != [Entry(name, value)]
  {
    hide FieldFor, FieldCode, ParseField, Apply, Acceptable, Sendable, Canonical, ShortRuns, Bounded;
    var code := FieldCode(c, t, name, value);
    LengthsFit(c, name, value);
    ParseFieldCode(c, t, name, value, []);
    assert code + [] == code;
    FieldIsAcceptable(c, t, name, value);
    NotAnUpdate(c, t, name, value);
    ApplyUnfaithful(c, t, name, value);
    assert code[|code|..] == [];
    var r := Apply(c, t, FieldFor(c, t, name, value));
    if r.Applied? {
      EmptyBlock(c, r.table, false);
      assert Emit(r.name, r.value) + [] == Emit(r.name, r.value);
    }
  }

  /**
   * What the table must look like for the encoder's searches to return what they were asked for: the
   * header is a static entry, or every entry that clashes with it lies behind a newer one equal to
   * it; and unless the header itself is stored, the same for its name.
   */
  ghost predicate Findable(c: Codec, t: Table, name: seq<byte>, value: seq<byte>) {
    || StaticFrom(c.fixed, name, value, 0) > 0
    || (&& Shadowed(t.entries, |t.entries|, name, value)
        && (|| Entry(name, value) in t.entries
            || StaticNameFrom(c.fixed, name, 0) > 0
            || NameShadowed(t.entries, |t.entries|, name)))
  }

  lemma {:induction false} ExactFromIff(es: seq<Entry>, name: seq<byte>, value: seq<byte>, k: nat)
    requires 1 <= k <= |es| + 1
    ensures ExactFrom(es, name, value, k) > 0 <==> Entry(name, value) in es[..|es| + 1 - k]
    decreases |es| + 1 - k
  {
    if k <= |es| {
      ExactFromIff(es, name, value, k + 1);
      assert es[..|es| + 1 - k] == es[..|es| - k] + [es[|es| - k]];
    }
  }

  /** What the dynamic search finds is the query exactly when search by equality finds the same. */
  lemma {:induction false} FoundIsExactIff(es: seq<Entry>, name: seq<byte>, value: seq<byte>, k: nat)
    requires 1 <= k <= |es| + 1
    ensures var d := DynamicFrom(es, name, value, k);
            && (d > 0 ==> k <= d <= |es|)
            && (d == ExactFrom(es, name, value, k) <==> (d > 0 ==> es[|es| - d] == Entry(name, value)))
            && (d == 0 ==> ExactFrom(es, name, value, k) == 0)
    decreases |es| + 1 - k
  {
    if k <= |es| {
      FoundIsExactIff(es, name, value, k + 1);
      ExactFromHits(es, name, value, k + 1);
    }
  }

  lemma {:induction false} FoundNameIsExactIff(es: seq<Entry>, name: seq<byte>, k: nat)
    requires 1 <= k <= |es| + 1
    ensures var d := DynamicNameFrom(es, name, k);
            && (d > 0 ==> k <= d <= |es|)
            && (d == ExactNameFrom(es, name, k) <==> (d > 0 ==> es[|es| - d].name == name))
    decreases |es| + 1 - k
  {
    if k <= |es| {
      FoundNameIsExactIff(es, name, k + 1);
      ExactFromHits(es, name, [], k + 1);
    }
  }

  /** The searches return what they were asked for exactly when the table looks like that. */
  lemma FaithfulIff(c: Codec, t: Table, name: seq<byte>, value: seq<byte>)
    requires |c.fixed| == STATIC_SIZE && name != []
    ensures Faithful(c, t, name, value) <==> Findable(c, t, name, value)
  {
    var es := t.entries;
    StaticFromHits(c.fixed, name, value, 0);
    FoundIsExactIff(es, name, value, 1);
    FoundNameIsExactIff(es, name, 1);
    DynamicIsExactIff(es, name, value, 1);
    DynamicNameIsExactIff(es, name, 1);
    ExactFromIff(es, name, value, 1);
    assert es[..|es|] == es;
    hide StaticFrom, StaticNameFrom, DynamicFrom, DynamicNameFrom, ExactFrom, ExactNameFrom, Shadowed, NameShadowed;
  }

  /**
   * A header with a value survives the trip if and only if the table has nothing that the search takes
   * for it before it comes to the header itself: a stored string that extends it in its place, found
   * first, makes the peer read another header.
   */
  lemma HeaderSurvivesIff(c: Codec, t: Table, name: seq<byte>, value: seq<byte>)
    requires Ready(c) && Bounded(t) && Sendable(c, name, value) && value != []
    ensures DecodeBlock(c, t, FieldCode(c, t, name, value), true) ==
            Block([Entry(name, value)], TableAfter(c, t, name, value))
            <==> Findable(c, t, name, value)
  {
    hide FieldCode, TableAfter, DecodeBlock, Sendable, Bounded, Canonical, ShortRuns, Faithful, Findable;
    var code := FieldCode(c, t, name, value);
    NotEmpty(c, name, value);
    FaithfulIff(c, t, name, value);
    if Faithful(c, t, name, value) {
      HeaderRoundTrip(c, t, name, value, [], true);
      EmptyBlock(c, TableAfter(c, t, name, value), false);
      assert code + [] == code;
      assert [Entry(name, value)] + [] == [Entry(name, value)];
    } else {
      UnfaithfulBlock(c, t, name, value);
    }
  }

  lemma NotEmpty(c: Codec, name: seq<byte>, value: seq<byte>)
    requires Ready(c) && Sendable(c, name, value)
    ensures name != []
  {
  }
}
