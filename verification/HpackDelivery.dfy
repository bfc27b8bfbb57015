/**
 * Where decoded headers go: hpack_decoder_decode of src/hpack/decoder.c hands each one to header_list_add
 * of src/header_list.c, which may join it with another one or refuse it.
 */
module HpackDelivery {
  import opened Bits
  import opened Huffman
  import opened TableSpec
  import opened HpackString
  import opened HpackBlock
  import HeaderList

  /** What a block leaves in the header list and in the table, also when it is given up. */
  datatype Delivery =
    | Delivered(list: seq<Entry>, table: Table)
    | Undelivered(error: Error, list: seq<Entry>, table: Table)

  /** hpack_decoder_decode: the failure of header_list_add has the code of a compression error. */
  ghost function DecodeInto(c: Codec, t: Table, bs: seq<byte>, updatesAllowed: bool, list: seq<Entry>, capacity: nat)
    : (r: Delivery)
    requires Sized(c.code) && |c.fixed| == STATIC_SIZE
    decreases |bs|
  {
    if bs == [] then Delivered(list, t)
    else
      match ParseField(bs)
      case Bad => Undelivered(Compression, list, t)
      case Got(f, used) =>
        if f.SizeUpdate? && !updatesAllowed then Undelivered(Compression, list, t)
        else if !Acceptable(f) then Undelivered(Compression, list, t)
        else
          match Apply(c, t, f)
          case Refused(e) => Undelivered(e, list, t)
          case Applied(t', n, v) =>
            var r := HeaderList.AddAll(list, Emit(n, v), capacity);
            if !r.ok then Undelivered(Compression, r.list, t')
            else if used > |bs| then Undelivered(Internal, r.list, t')
            else DecodeInto(c, t', bs[used..], f.SizeUpdate?, r.list, capacity)
  }

  lemma {:induction false} AddAllConcat(es: seq<Entry>, a: seq<Entry>, b: seq<Entry>, capacity: nat)
    ensures var r := HeaderList.AddAll(es, a, capacity);
            HeaderList.AddAll(es, a + b, capacity) == if r.ok then HeaderList.AddAll(r.list, b, capacity) else r
    decreases |a|
  {
    hide HeaderList.AddTo;
    if a == [] {
      assert a + b == b;
    } else {
      assert (a + b)[1..] == a[1..] + b;
      AddAllConcat(HeaderList.AddTo(es, a[0], capacity).list, a[1..], b, capacity);
    }
  }

  /** A block that decodes leaves its headers added one after the other; one that does not is refused. */
  lemma {:induction false} DeliveryOfBlock(
      c: Codec, t: Table, bs: seq<byte>, updatesAllowed: bool, list: seq<Entry>, capacity: nat)
    requires Sized(c.code) && |c.fixed| == STATIC_SIZE
    ensures var d := DecodeInto(c, t, bs, updatesAllowed, list, capacity);
            match DecodeBlock(c, t, bs, updatesAllowed)
            case Rejected(_) => d.Undelivered?
            case Block(hs, t') =>
              var r := HeaderList.AddAll(list, hs, capacity);
              if r.ok then d == Delivered(r.list, t') else d.Undelivered? && d.error == Compression && d.list == r.list
    decreases |bs|
  {
    hide ParseField, Acceptable, Apply, Emit, HeaderList.AddAll;
    if bs == [] {
      NoneAdded(list, capacity);
    } else {
      match ParseField(bs)
      case Bad =>
      case Got(f, used) =>
        match Apply(c, t, f)
        case Refused(e) =>
        case Applied(t', n, v) =>
          var r := HeaderList.AddAll(list, Emit(n, v), capacity);
          if used <= |bs| {
            DeliveryOfBlock(c, t', bs[used..], f.SizeUpdate?, r.list, capacity);
            var rest := DecodeBlock(c, t', bs[used..], f.SizeUpdate?);
            if rest.Block? {
              AddAllConcat(list, Emit(n, v), rest.headers, capacity);
            }
          }
    }
  }

  lemma NoneAdded(list: seq<Entry>, capacity: nat)
    ensures HeaderList.AddAll(list, [], capacity) == HeaderList.Change(list, true)
  {
  }
}
