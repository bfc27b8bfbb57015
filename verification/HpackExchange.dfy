/** Two endpoints: src/hpack/encoder.c on one table object and src/hpack/decoder.c on another. */
module HpackExchange {
  import opened Bits
  import opened HeaderTable
  import opened HpackString
  import opened HpackBlock
  import opened HpackDelivery
  import opened HpackLockstep
  import opened HpackEncoder
  import opened HpackDecoder
  import opened Stores
  import HeaderList

  /** The size updates at the start of a block. */
  method EncodeUpdates(table: DynamicTable, updates: seq<nat>) returns (out: seq<byte>)
    requires Usable(table) && UpdatesOk(table.Abs(), updates)
    modifies table, table.buffer
    ensures Usable(table) && table.Abs() == UpdatesTable(old(table.Abs()), updates)
    ensures Bounded(old(table.Abs())) && out == UpdatesCode(old(table.Abs()), updates)
  {
    hide DynamicTable.Valid, Named, Marked;
    ghost var t := table.Abs();
    out := [];
    for i := 0 to |updates|
      invariant Usable(table) && UpdatesOk(table.Abs(), updates[i..])
      invariant UpdatesTable(t, updates) == UpdatesTable(table.Abs(), updates[i..])
      invariant UpdatesCode(t, updates) == out + UpdatesCode(table.Abs(), updates[i..])
    {
      var rest := updates[i..];
      assert rest[0] == updates[i] && rest[1..] == updates[i + 1..];
      assert rest[0] <= table.Abs().limit;
      ResizeIsBounded(table.Abs(), updates[i]);
      var ok, code := EncodeSizeUpdate(table, updates[i]);
      out := out + code;
    }
  }

  /**
   * A block of size updates and headers goes from the encoder to the decoder and into a header list.
   * Whatever the two circular buffers look like, when they hold the same entries the list ends up with the
   * headers added one after the other, those without a value excepted; and if all of them were
   * accepted the two tables hold the same entries again.
   */
  method Exchange(c: Codec, sender: DynamicTable, receiver: DynamicTable, list: HeaderList.List, m: Message, bufferSize: nat)
    returns (block: seq<byte>, received: Outcome)
    requires Ready(c) && FixedOk(c) && Usable(sender) && receiver.Valid() && list.Valid() && list.pairs == []
    requires sender != receiver && sender.buffer != receiver.buffer && sender.Abs() == receiver.Abs()
    requires list.buffer != sender.buffer && list.buffer != receiver.buffer
    requires MessageOk(c, sender.Abs(), m) && HeadersFit(c, UpdatesTable(sender.Abs(), m.updates), m.headers, bufferSize)
    modifies sender, sender.buffer, receiver, receiver.buffer, list, list.buffer
    ensures Usable(sender) && receiver.Valid() && list.Valid()
    ensures HeaderList.Change(list.pairs, received.Decoded?) == ListOf(m, list.buffer.Length)
    ensures received.Decoded? ==> sender.Abs() == receiver.Abs()
  {
    hide DynamicTable.Valid, HeaderList.List.Valid, Ready, FixedOk, HeadersOk, HeadersFit, UpdatesOk, UpdatesTable, Bounded,
      Named, HeadersCode, HeadersTable, UpdatesCode, DecodeInto, ListOf;
    ghost var t := sender.Abs();
    MessageDelivered(c, t, m, list.buffer.Length);
    var updates := EncodeUpdates(sender, m.updates);
    var n, memory := EncodeHeaders(c, sender, m.headers, bufferSize);
    ghost var headers := HeadersCode(c, UpdatesTable(t, m.updates), m.headers);
    LoadIs(memory, 0, headers);
    block := updates + Load(memory, 0, n);
    received := DecodeHeaders(c, receiver, list, block);
  }
}
