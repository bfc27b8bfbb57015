/** The dynamic table of src/hpack/tables.c: a circular byte buffer that refines the FIFO of TableSpec. */
module HeaderTable {
  import opened Bits
  import opened TableSpec
  import opened TableLayout

  /** The bytes from slot base on, going round a circle of m, are data. */
  ghost predicate Stored(b: seq<byte>, base: nat, m: nat, data: seq<byte>)
    requires base < m <= |b|
  {
    |data| <= m && forall k :: 0 <= k < |data| ==> b[Slot(base, k, m)] == data[k]
  }

  lemma StoredFrom(b: seq<byte>, base: nat, m: nat, data: seq<byte>, n: nat)
    requires base < m <= |b| && Stored(b, base, m, data) && n < |data|
    ensures Stored(b, Slot(base, n, m), m, data[n..])
  {
    hide Slot;
    forall k | 0 <= k < |data| - n
      ensures b[Slot(Slot(base, n, m), k, m)] == data[n..][k]
    {
      assert b[Slot(base, n + k, m)] == data[n + k];
    }
  }

  /** Where the bytes after a base do not fill the circle, going on from its end meets them again last. */
  lemma StoredAppend(b: seq<byte>, b': seq<byte>, base: nat, end: nat, m: nat, data: seq<byte>, more: seq<byte>)
    requires base < m <= |b| == |b'| && 1 <= |data| && 1 <= |more| && |data| + |more| <= m + 1
    requires |data| > 1 ==> Stored(b, base, m, data)
    requires data[|data| - 1] == more[0]
    requires end == Slot(base, |data| - 1, m) && Stored(b', end, m, more)
    requires forall k :: |more| <= k < m ==> b'[Slot(end, k, m)] == b[Slot(end, k, m)]
    ensures Stored(b', base, m, data + more[1..])
  {
    hide Slot;
    var n := |data| - 1;
    forall k | 0 <= k < |data + more[1..]|
      ensures b'[Slot(base, k, m)] == (data + more[1..])[k]
    {
      if k < n {
        assert Slot(base, k, m) == Slot(end, m - n + k, m);
        assert b[Slot(base, k, m)] == data[k];
      } else {
        assert Slot(base, k, m) == Slot(end, k - n, m);
        assert b'[Slot(end, k - n, m)] == more[k - n];
      }
    }
  }

  /** The n bytes from index from on, in a new buffer. */
  method CopyOut(buffer: array<byte>, from: nat, n: nat) returns (aux: array<byte>)
    requires from + n <= buffer.Length
    ensures fresh(aux) && aux[..] == buffer[from..from + n]
  {
    aux := new byte[n](_ => 0);
    for i := 0 to n
      invariant aux[..i] == buffer[from..from + i]
    {
      aux[i] := buffer[from + i];
    }
  }

  method CopyIn(aux: array<byte>, buffer: array<byte>, to: nat)
    requires aux != buffer && to + aux.Length <= buffer.Length
    modifies buffer
    ensures buffer[to..to + aux.Length] == aux[..]
    ensures buffer[..to] == old(buffer[..to]) && buffer[to + aux.Length..] == old(buffer[to + aux.Length..])
  {
    for i := 0 to aux.Length
      invariant buffer[to..to + i] == aux[..i]
      invariant buffer[..to] == old(buffer[..to]) && buffer[to + i..] == old(buffer[to + i..])
    {
      buffer[to + i] := aux[i];
    }
  }

  /** Move n bytes down by shift places, lowest first. */
  method ShiftDown(buffer: array<byte>, shift: nat, n: nat)
    requires shift + n <= buffer.Length
    modifies buffer
    ensures buffer[..n] == old(buffer[shift..shift + n])
  {
    for i := 0 to n
      invariant buffer[..i] == old(buffer[shift..shift + i]) && buffer[i..] == old(buffer[i..])
    {
      assert buffer[i + shift] == buffer[i..][shift] == old(buffer[i..])[shift];
      buffer[i] := buffer[i + shift];
    }
  }

  /** Move the first n bytes up by shift places, highest first. */
  method ShiftUp(buffer: array<byte>, shift: nat, n: nat)
    requires 0 < shift && shift + n <= buffer.Length
    modifies buffer
    ensures buffer[shift..shift + n] == old(buffer[..n])
  {
    for i := n downto 0
      invariant buffer[shift + i..shift + n] == old(buffer[i..n]) && buffer[..i] == old(buffer[..i])
    {
      assert buffer[i] == old(buffer[..i + 1])[i];
      buffer[i + shift] := buffer[i];
      assert buffer[shift + i..shift + n] == [buffer[shift + i]] + buffer[shift + i + 1..shift + n];
    }
  }

  /** Wrapped bytes, the part up to next the shorter: it waits in an auxiliary buffer. */
  method RotateByHead(buffer: array<byte>, first: nat, next: nat, m: nat)
    requires next < first < m <= buffer.Length
    modifies buffer
    ensures buffer[..m - first] == old(buffer[first..m])
    ensures buffer[m - first..m - first + next + 1] == old(buffer[..next + 1])
  {
    var aux := CopyOut(buffer, 0, next + 1);
    ShiftDown(buffer, first, m - first);
    CopyIn(aux, buffer, m - first);
  }

  /** Wrapped bytes, the part from first on the shorter: the other part moves up out of its way. */
  method RotateByTail(buffer: array<byte>, first: nat, next: nat, m: nat)
    requires next < first < m <= buffer.Length
    modifies buffer
    ensures buffer[..m - first] == old(buffer[first..m])
    ensures buffer[m - first..m - first + next + 1] == old(buffer[..next + 1])
  {
    var shift := m - first;
    var aux := CopyOut(buffer, first, shift);
    ghost var tail := aux[..];
    ShiftUp(buffer, shift, next + 1);
    ghost var moved := buffer[shift..];
    assert moved[..next + 1] == buffer[shift..shift + next + 1];
    CopyIn(aux, buffer, 0);
    assert buffer[..shift] == buffer[0..shift] == tail;
    assert buffer[shift..shift + next + 1] == moved[..next + 1] by {
      assert buffer[shift..] == moved;
      assert forall k :: 0 <= k <= next ==> buffer[shift + k] == buffer[shift..][k];
    }
  }

  /** After a rotation the bytes start at slot 0. */
  lemma Rotated(b: seq<byte>, b': seq<byte>, first: nat, next: nat, m: nat, data: seq<byte>)
    requires next < first < m <= |b| == |b'| && 1 <= |data| <= m && next == Slot(first, |data| - 1, m)
    requires Stored(b, first, m, data)
    requires b'[..m - first] == b[first..m] && b'[m - first..m - first + next + 1] == b[..next + 1]
    ensures Stored(b', 0, m, data)
  {
    hide Slot;
    forall k | 0 <= k < |data|
      ensures b'[Slot(0, k, m)] == data[k]
    {
      assert b[Slot(first, k, m)] == data[k];
      if k < m - first {
        assert b'[k] == b'[..m - first][k] == b[first..m][k];
      } else {
        var j := k - (m - first);
        assert b'[k] == b'[m - first..m - first + next + 1][j] == b[..next + 1][j];
      }
    }
  }

  lemma Shifted(b: seq<byte>, b': seq<byte>, first: nat, m: nat, data: seq<byte>)
    requires first < m <= |b| == |b'| && 1 <= |data| && first + |data| <= m
    requires Stored(b, first, m, data)
    requires b'[..|data|] == b[first..first + |data|]
    ensures Stored(b', 0, m, data)
  {
    hide Slot;
    forall k | 0 <= k < |data|
      ensures b'[Slot(0, k, m)] == data[k]
    {
      assert b[Slot(first, k, m)] == data[k];
      assert b'[k] == b'[..|data|][k] == b[first..first + |data|][k];
    }
  }

  /** Move the bytes to the start of the buffer, whichever way they lie in it. */
  method Compact(buffer: array<byte>, first: nat, next: nat, m: nat, ghost data: seq<byte>)
    requires first < m <= buffer.Length && 1 < |data| < m && next == Slot(first, |data| - 1, m)
    requires Stored(buffer[..], first, m, data)
    modifies buffer
    ensures Stored(buffer[..], 0, m, data)
  {
    hide Slot, Stored;
    ghost var b := buffer[..];
    if next <= first {
      if next <= m - first {
        RotateByHead(buffer, first, next, m);
      } else {
        RotateByTail(buffer, first, next, m);
      }
      Rotated(b, buffer[..], first, next, m, data) by {
        assert b[first..m] == old(buffer[first..m]) && b[..next + 1] == old(buffer[..next + 1]);
      }
    } else {
      ShiftDown(buffer, first, next - first + 1);
      Shifted(b, buffer[..], first, m, data);
    }
  }

  /** Bytes that start at slot 0 do not wrap, so the size of the circle does not matter to them. */
  lemma StoredInAnyCircle(b: seq<byte>, m: nat, m': nat, data: seq<byte>)
    requires 0 < m <= |b| && 0 < m' <= |b| && |data| <= m' && Stored(b, 0, m, data)
    ensures Stored(b, 0, m', data)
  {
    hide Slot;
    forall k | 0 <= k < |data|
      ensures b[Slot(0, k, m')] == data[k]
    {
      assert b[Slot(0, k, m)] == data[k];
    }
  }

  /**
   * The search of the static list runs one iteration past its 61 entries and there meets the
   * empty string that ends the literal; 0 stands for not found.
   */
  method StaticSearch(fixed: seq<Entry>, name: seq<byte>, value: seq<byte>) returns (index: nat)
    ensures index == StaticFrom(fixed, name, value, 0)
  {
    for i := 0 to |fixed| + 1
      invariant i <= |fixed| ==> StaticFrom(fixed, name, value, 0) == StaticFrom(fixed, name, value, i)
      invariant i == |fixed| + 1 ==> StaticFrom(fixed, name, value, 0) == 0
    {
      var e := if i < |fixed| then fixed[i] else Entry([], []);
      if e.name == name && e.value == value {
        return i + 1;
      }
    }
    return 0;
  }

  method StaticNameSearch(fixed: seq<Entry>, name: seq<byte>) returns (index: nat)
    ensures index == StaticNameFrom(fixed, name, 0)
  {
    for i := 0 to |fixed| + 1
      invariant i <= |fixed| ==> StaticNameFrom(fixed, name, 0) == StaticNameFrom(fixed, name, i)
      invariant i == |fixed| + 1 ==> StaticNameFrom(fixed, name, 0) == 0
    {
      var e := if i < |fixed| then fixed[i] else Entry([], []);
      if e.name == name {
        return i + 1;
      }
    }
    return 0;
  }

  lemma TakeNext<T>(s: seq<T>, i: nat)
    requires i < |s|
    ensures s[..i + 1] == s[..i] + [s[i]]
  {
  }

  class DynamicTable {
    const buffer: array<byte>
    var maxSize: nat
    var first: nat
    var next: nat
    var actualSize: nat
    var count: nat
    var limit: nat
    ghost var entries: seq<Entry>

    ghost predicate Valid()
      reads this, buffer
    {
      && maxSize <= buffer.Length && limit <= buffer.Length <= 0x7fff
      && count == |entries| && actualSize == Size(entries) <= maxSize
      && NulFreeEntries(entries)
      && (if maxSize == 0 then first == next == 0 else first < maxSize)
      && (maxSize > 0 ==> Span(entries) < maxSize && next == Slot(first, Span(entries), maxSize))
      && (entries != [] ==> Stored(buffer[..], first, maxSize, Layout(entries)))
    }

    ghost function Abs(): (t: Table)
      reads this
    {
      Table(entries, maxSize, limit)
    }

    constructor (capacity: nat, max: nat)
      requires max <= capacity <= 0x7fff
      ensures Valid() && Abs() == Table([], max, max) && fresh(buffer) && buffer.Length == capacity
    {
      buffer := new byte[capacity](_ => 0);
      maxSize, limit := max, max;
      actualSize, count, first, next := 0, 0, 0, 0;
      entries := [];
    }

    /** A non-empty table leaves room in the circle: every entry is charged 30 bytes more than it takes. */
    lemma Room()
      requires Valid()
      ensures Span(entries) + 30 * |entries| <= maxSize
    {
      SpanBelowSize(entries);
    }

    /** Bytes and separators of the oldest entry, scanned from its leading separator. */
    method ScanOldest() returns (width: nat, length: nat)
      requires Valid() && entries != []
      ensures width == Width(entries[0]) && length + 32 == EntrySize(entries[0])
    {
      hide Layout, Size, Span, NulFreeEntries, Slot;
      ghost var e := entries[0];
      Room();
      FrontBytes(entries);
      var separators := 0;
      width, length := 1, 0;
      while width < maxSize
        invariant 1 <= width <= Width(e) && separators <= 1
        invariant if separators == 0 then width <= |e.name| + 1 && length == width - 1
                  else |e.name| + 2 <= width && length == width - 2
      {
        if buffer[Slot(first, width, maxSize)] == 0 {
          separators := separators + 1;
          if separators == 2 {
            return;
          }
        } else {
          length := length + 1;
        }
        width := width + 1;
      }
    }

    /** hpack_tables_dynamic_pop. */
    method Pop() returns (ok: bool)
      requires Valid()
      modifies this
      ensures Valid() && maxSize == old(maxSize) && limit == old(limit) && next == old(next)
      ensures ok <==> old(entries) != []
      ensures entries == if ok then old(entries)[1..] else old(entries)
    {
      if count == 0 {
        return false;
      }
      hide Layout, Size, Span, NulFreeEntries, Slot, Stored;
      Room();
      SizeOfTail(entries);
      FrontBytes(entries);
      var width, length := ScanOldest();
      ghost var rest := entries[1..];
      StoredFrom(buffer[..], first, maxSize, Layout(entries), width);
      first := Slot(first, width, maxSize);
      actualSize := actualSize - (length + 32);
      count := count - 1;
      entries := rest;
      return true;
    }

    /** hpack_tables_dynamic_copy_from_ext: a string between separators, from pos places after next. */
    method CopyFromExt(pos: nat, text: seq<byte>) returns (end: nat)
      requires next < maxSize <= buffer.Length && NulFree(text) && pos + |text| + 1 < maxSize
      modifies buffer
      ensures end == pos + |text| + 1
      ensures Stored(buffer[..], Slot(next, pos, maxSize), maxSize, [0] + text + [0])
      ensures forall k :: 0 <= k < maxSize && !(pos <= k <= end) ==>
                buffer[Slot(next, k, maxSize)] == old(buffer[Slot(next, k, maxSize)])
      ensures buffer[Slot(next, end, maxSize)] == 0
    {
      hide Slot;
      ghost var all := [0] + text + [0];
      PutByte(pos, 0);
      var i := 1;
      while i < maxSize
        invariant 1 <= i <= |text| + 1
        invariant forall k :: 0 <= k < i ==> buffer[Slot(next, pos + k, maxSize)] == all[k]
        invariant forall k :: 0 <= k < maxSize && !(pos <= k < pos + i) ==>
                    buffer[Slot(next, k, maxSize)] == old(buffer[Slot(next, k, maxSize)])
      {
        if i - 1 == |text| {
          PutByte(pos + i, 0);
          end := pos + i;
          CopiedIsStored(buffer[..], next, pos, maxSize, all);
          return;
        }
        PutByte(pos + i, text[i - 1]);
        i := i + 1;
      }
    }

    /** One byte, k places after next. */
    method PutByte(k: nat, x: byte)
      requires next < maxSize <= buffer.Length && k < maxSize
      modifies buffer
      ensures buffer[Slot(next, k, maxSize)] == x
      ensures forall j :: 0 <= j < maxSize && j != k ==> buffer[Slot(next, j, maxSize)] == old(buffer[Slot(next, j, maxSize)])
    {
      buffer[Slot(next, k, maxSize)] := x;
    }

    /** Name and value after next, one string after the other. */
    method CopyEntry(name: seq<byte>, value: seq<byte>) returns (end: nat)
      requires next < maxSize <= buffer.Length && NulFree(name) && NulFree(value)
      requires |name| + |value| + 2 < maxSize
      modifies buffer
      ensures end == |name| + |value| + 2
      ensures Stored(buffer[..], next, maxSize, [0] + name + [0] + value + [0])
      ensures forall k :: end < k < maxSize ==> buffer[Slot(next, k, maxSize)] == old(buffer[Slot(next, k, maxSize)])
    {
      hide Slot;
      end := CopyFromExt(0, name);
      ghost var b := buffer[..];
      end := CopyFromExt(end, value);
      assert Slot(next, 0, maxSize) == next;
      ghost var both := [0] + name + [0] + value + [0];
      forall k | 0 <= k < |both|
        ensures buffer[Slot(next, k, maxSize)] == both[k]
      {
        if k <= |name| {
          assert b[Slot(next, k, maxSize)] == ([0] + name + [0])[k];
        } else {
          var j := k - |name| - 1;
          assert Slot(Slot(next, |name| + 1, maxSize), j, maxSize) == Slot(next, k, maxSize);
          assert buffer[..][Slot(Slot(next, |name| + 1, maxSize), j, maxSize)] == ([0] + value + [0])[j];
        }
      }
    }

    /** hpack_tables_dynamic_table_add_entry. */
    method AddEntry(name: seq<byte>, value: seq<byte>) returns (ok: bool)
      requires Valid() && NulFree(name) && NulFree(value) && |name| + |value| + 32 < 0x1_0000
      modifies this, buffer
      ensures Valid()
      ensures ok <==> CanAdd(old(Abs()), Entry(name, value))
      ensures Abs() == Add(old(Abs()), Entry(name, value))
    {
      hide Layout, Size, Span, NulFreeEntries, Slot, Stored;
      var entrySize := |name| + |value| + 32;
      if entrySize > maxSize {
        return false;
      }
      ghost var e := Entry(name, value);
      while entrySize + actualSize > maxSize
        invariant Valid() && maxSize == old(maxSize) && limit == old(limit)
        invariant buffer[..] == old(buffer[..])
        invariant Evict(entries, maxSize - entrySize) == Evict(old(entries), maxSize - entrySize)
        decreases |entries|
      {
        SizeOfNothing();
        var popped := Pop();
      }
      ghost var b := buffer[..];
      Room();
      SpanBelowSize(entries);
      var end := CopyEntry(name, value);
      LayoutSnoc(entries, e);
      AppendEntry(b, buffer[..], first, next, maxSize, entries, e);
      count := count + 1;
      actualSize := actualSize + entrySize;
      next := Slot(next, end, maxSize);
      SizeSnoc(entries, e);
      NulFreeSnoc(entries, e);
      entries := entries + [e];
      return true;
    }

    /** hpack_tables_dynamic_table_resize. */
    method ResizeTo(newMax: nat) returns (ok: bool)
      requires Valid()
      modifies this, buffer
      ensures Valid()
      ensures ok <==> newMax <= old(limit)
      ensures Abs() == Resize(old(Abs()), newMax)
      ensures ok ==> first == 0 && (entries != [] ==> next < maxSize)
    {
      hide Layout, Size, Span, NulFreeEntries, Slot, Stored;
      if newMax > limit {
        return false;
      }
      while actualSize > newMax
        invariant Valid() && maxSize == old(maxSize) && limit == old(limit)
        invariant Evict(entries, newMax) == Evict(old(entries), newMax)
        decreases |entries|
      {
        SizeOfNothing();
        var popped := Pop();
      }
      SpanBelowSize(entries);
      LastIsNul(entries);
      if count == 0 {
        first, next := 0, 0;
      } else {
        Compact(buffer, first, next, maxSize, Layout(entries));
        first, next := 0, if next <= first then maxSize - first + next else next - first;
        StoredInAnyCircle(buffer[..], maxSize, newMax, Layout(entries));
      }
      maxSize := newMax;
      return true;
    }

    /** hpack_dynamic_change_max_size: the peer's setting becomes the limit and the size. */
    method ChangeMaxSize(incoming: nat)
      requires Valid()
      modifies this, buffer
      ensures Valid()
      ensures Abs() == if incoming <= buffer.Length then Table(Evict(old(entries), incoming), incoming, incoming)
                       else old(Abs())
    {
      if incoming <= buffer.Length {
        hide Layout, Size, Span, NulFreeEntries, Slot, Stored;
        limit := incoming;
        var ok := ResizeTo(incoming);
      }
    }

    /** The byte i places back from next. */
    lemma ByteBack(i: nat)
      requires Valid() && entries != [] && i <= Span(entries)
      ensures buffer[Slot(next, maxSize - i, maxSize)] == Layout(entries)[Span(entries) - i]
    {
      hide Layout, Size, Span, NulFreeEntries, Slot;
      var k := Span(entries) - i;
      assert Slot(next, maxSize - i, maxSize) == Slot(first, k, maxSize);
      assert buffer[..][Slot(first, k, maxSize)] == Layout(entries)[k];
    }

    /** hpack_tables_dynamic_pos_of_index: how far back from next the entry starts. */
    method PosOfIndex(index: nat) returns (pos: nat)
      requires Valid() && STATIC_SIZE < index <= STATIC_SIZE + |entries|
      ensures pos == Back(entries, index - STATIC_SIZE)
    {
      hide Layout, Size, Span, NulFreeEntries, Slot, Stored, Scanned, Back;
      Room();
      ScanStart(entries);
      var separators, found := 0, 0;
      pos := 1;
      while pos < maxSize
        invariant 1 <= pos && Scanned(entries, pos - 1, separators)
        invariant found == separators / 2 < index - STATIC_SIZE
      {
        var before := separators;
        separators := CountSeparator(pos, separators);
        if separators > before && separators % 2 == 0 {
          found := found + 1;
        }
        if found == index - STATIC_SIZE {
          return;
        }
        pos := pos + 1;
      }
      ScanEnds(entries, pos - 1, separators);
    }

    /** hpack_tables_dynamic_copy_to_ext: the string that starts pos places back. */
    method CopyToExt(pos: nat) returns (end: nat, text: seq<byte>)
      requires Valid() && entries != [] && 1 <= pos <= Span(entries)
      ensures NulFree(text) && text + [0] <= StreamFrom(entries, pos)
      ensures end + |text| + 1 == pos
    {
      hide Layout, Size, Span, NulFreeEntries, Slot, Stored;
      Room();
      LastIsNul(entries);
      text := [];
      var i := 1;
      while i < maxSize
        invariant i == |text| + 1 <= pos && NulFree(text)
        invariant text == StreamFrom(entries, pos)[..i - 1]
      {
        ByteBack(pos - i);
        var b := buffer[Slot(next, maxSize - pos + i, maxSize)];
        assert b == StreamFrom(entries, pos)[i - 1];
        if b == 0 {
          assert text + [0] == StreamFrom(entries, pos)[..i];
          end := pos - i;
          return;
        }
        text := text + [b];
        i := i + 1;
      }
    }

    /** hpack_tables_find_entry_name_and_value: any index, static or dynamic. */
    method FindEntry(fixed: seq<Entry>, index: nat) returns (ok: bool, name: seq<byte>, value: seq<byte>)
      requires Valid() && |fixed| == STATIC_SIZE && index >= 1
      ensures ok <==> HasIndex(fixed, Abs(), index)
      ensures ok ==> Entry(name, value) == EntryAt(fixed, Abs(), index)
    {
      hide Layout, Size, Span, NulFreeEntries, Slot, Stored, Back, StreamFrom;
      if index <= STATIC_SIZE {
        return true, fixed[index - 1].name, fixed[index - 1].value;
      }
      if count < index - STATIC_SIZE {
        return false, [], [];
      }
      var k := index - STATIC_SIZE;
      var pos := PosOfIndex(index);
      StoredStrings(entries, k);
      pos, name := CopyToExt(pos);
      StringIs(entries, k, name);
      pos, value := CopyToExt(pos);
      ValueIs(entries, k, value);
      ok := true;
    }

    /** hpack_tables_find_entry_name. */
    method FindEntryName(fixed: seq<Entry>, index: nat) returns (ok: bool, name: seq<byte>)
      requires Valid() && |fixed| == STATIC_SIZE && index >= 1
      ensures ok <==> HasIndex(fixed, Abs(), index)
      ensures ok ==> name == EntryAt(fixed, Abs(), index).name
    {
      hide Layout, Size, Span, NulFreeEntries, Slot, Stored, Back, StreamFrom;
      if index <= STATIC_SIZE {
        return true, fixed[index - 1].name;
      }
      if count < index - STATIC_SIZE {
        return false, [];
      }
      var pos := PosOfIndex(index);
      StoredStrings(entries, index - STATIC_SIZE);
      pos, name := CopyToExt(pos);
      StringIs(entries, index - STATIC_SIZE, name);
      ok := true;
    }

    /** hpack_tables_dynamic_compare_string: whether the bytes pos places back begin with text. */
    method CompareString(pos: nat, text: seq<byte>) returns (rc: int)
      requires Valid() && entries != [] && 1 <= pos <= Span(entries) && NulFree(text)
      ensures rc == if text <= StreamFrom(entries, pos) then |text| + 1 else -1
    {
      hide Layout, Size, Span, NulFreeEntries, Slot, Stored;
      Room();
      LastIsNul(entries);
      for i := 0 to |text|
        invariant i < pos && text[..i] == StreamFrom(entries, pos)[..i]
      {
        ByteBack(pos - i - 1);
        assert StreamFrom(entries, pos)[i] == buffer[Slot(next, maxSize - pos + 1 + i, maxSize)];
        if text[i] != buffer[Slot(next, maxSize - pos + 1 + i, maxSize)] {
          return -1;
        }
        TakeNext(text, i);
        TakeNext(StreamFrom(entries, pos), i);
      }
      assert text[..|text|] == text;
      return |text| + 1;
    }

    /** One byte back: a separator found there is counted. */
    method CountSeparator(i: nat, c: nat) returns (c': nat)
      requires Valid() && 1 <= i && Scanned(entries, i - 1, c) && c < 2 * |entries|
      ensures i <= Span(entries) && Scanned(entries, i, c') && c <= c' <= c + 1
      ensures c' > c && c' % 2 == 0 ==> i == Back(entries, c' / 2)
    {
      hide Layout, Size, Span, NulFreeEntries, Slot, Stored, Scanned, Back;
      Room();
      ScanStep(entries, i - 1, c);
      ByteBack(i);
      c' := if buffer[Slot(next, maxSize - i, maxSize)] == 0 then c + 1 else c;
    }

    /** Compares the entry that starts i places back, the value from where the queried name ends. */
    method MatchHere(i: nat, ghost k: nat, name: seq<byte>, value: seq<byte>) returns (found: bool)
      requires Valid() && NulFree(name) && NulFree(value) && 1 <= k <= |entries| && i == Back(entries, k)
      ensures found <==> Matches(entries[|entries| - k], name, value)
    {
      hide Layout, Size, Span, NulFreeEntries, Slot, Stored, Back, StreamFrom, Matches;
      MatchAt(entries, k, name, value);
      var rc := CompareString(i, name);
      if rc < 0 {
        return false;
      }
      rc := CompareString(i - rc, value);
      return rc > 0;
    }

    /** The newest entry that matches name and value, counted from 1; 0 when there is none. */
    method DynamicSearch(name: seq<byte>, value: seq<byte>) returns (k: nat)
      requires Valid() && NulFree(name) && NulFree(value) && count <= 127
      ensures k == DynamicFrom(entries, name, value, 1)
    {
      hide Layout, Size, Span, NulFreeEntries, Slot, Stored, Scanned, Back, StreamFrom, Matches;
      Room();
      ScanStart(entries);
      var separators: nat := 0;
      var i: nat := 1;
      while i <= maxSize && separators / 2 < count
        invariant 1 <= i && separators <= 2 * count && Scanned(entries, i - 1, separators)
        invariant DynamicFrom(entries, name, value, 1) == DynamicFrom(entries, name, value, separators / 2 + 1)
      {
        var before := separators;
        separators := CountSeparator(i, separators);
        separators := separators % 256;
        if separators > before && separators % 2 == 0 && separators > 0 {
          var found := MatchHere(i, separators / 2, name, value);
          if found {
            return separators / 2;
          }
        }
        i := i + 1;
      }
      if i > maxSize {
        ScanEnds(entries, i - 1, separators);
      }
      return 0;
    }

    method DynamicNameSearch(name: seq<byte>) returns (k: nat)
      requires Valid() && NulFree(name) && count <= 127
      ensures k == DynamicNameFrom(entries, name, 1)
    {
      hide Layout, Size, Span, NulFreeEntries, Slot, Stored, Scanned, Back, StreamFrom, Matches;
      Room();
      ScanStart(entries);
      var separators: nat := 0;
      var i: nat := 1;
      while i <= maxSize && separators / 2 < count
        invariant 1 <= i && separators <= 2 * count && Scanned(entries, i - 1, separators)
        invariant DynamicNameFrom(entries, name, 1) == DynamicNameFrom(entries, name, separators / 2 + 1)
      {
        var before := separators;
        separators := CountSeparator(i, separators);
        separators := separators % 256;
        if separators > before && separators % 2 == 0 && separators > 0 {
          MatchAt(entries, separators / 2, name, []);
          var rc := CompareString(i, name);
          if rc > 0 {
            return separators / 2;
          }
        }
        i := i + 1;
      }
      if i > maxSize {
        ScanEnds(entries, i - 1, separators);
      }
      return 0;
    }

    /** hpack_tables_find_index: the static list, then the dynamic entries from the newest. */
    method FindIndex(fixed: seq<Entry>, name: seq<byte>, value: seq<byte>) returns (index: int)
      requires Valid() && NulFree(name) && NulFree(value) && |fixed| == STATIC_SIZE && count <= 127
      ensures var i := TableSpec.FindIndex(fixed, Abs(), name, value); index == if i > 0 then i else -2
    {
      index := StaticSearch(fixed, name, value);
      if index > 0 {
        return;
      }
      var k := DynamicSearch(name, value);
      return if k > 0 then k + STATIC_SIZE else -2;
    }

    /** hpack_tables_find_index_name. */
    method FindIndexName(fixed: seq<Entry>, name: seq<byte>) returns (index: int)
      requires Valid() && NulFree(name) && |fixed| == STATIC_SIZE && count <= 127
      ensures var i := TableSpec.FindIndexName(fixed, Abs(), name); index == if i > 0 then i else -2
    {
      index := StaticNameSearch(fixed, name);
      if index > 0 {
        return;
      }
      var k := DynamicNameSearch(name);
      return if k > 0 then k + STATIC_SIZE else -2;
    }
  }

  lemma CopiedIsStored(b: seq<byte>, next: nat, pos: nat, m: nat, data: seq<byte>)
    requires next < m <= |b| && pos < m && pos + |data| <= m
    requires forall k :: 0 <= k < |data| ==> b[Slot(next, pos + k, m)] == data[k]
    ensures Stored(b, Slot(next, pos, m), m, data)
  {
    hide Slot;
    forall k | 0 <= k < |data|
      ensures b[Slot(Slot(next, pos, m), k, m)] == data[k]
    {
      assert Slot(Slot(next, pos, m), k, m) == Slot(next, pos + k, m);
    }
  }

  lemma NulFreeSnoc(es: seq<Entry>, e: Entry)
    requires NulFreeEntries(es) && NulFreeEntry(e)
    ensures NulFreeEntries(es + [e])
  {
  }

  /** Writing an entry after the last separator extends the layout and keeps the rest of it. */
  lemma AppendEntry(b: seq<byte>, b': seq<byte>, first: nat, end: nat, m: nat, es: seq<Entry>, e: Entry)
    requires first < m <= |b| == |b'| && Span(es) + Width(e) < m
    requires es != [] ==> Stored(b, first, m, Layout(es))
    requires end == Slot(first, Span(es), m)
    requires Stored(b', end, m, [0] + e.name + [0] + e.value + [0])
    requires forall k :: Width(e) < k < m ==> b'[Slot(end, k, m)] == b[Slot(end, k, m)]
    ensures Stored(b', first, m, Layout(es + [e]))
  {
    hide Layout, Stored, Slot, Span;
    var more := [0] + e.name + [0] + e.value + [0];
    LayoutSnoc(es, e);
    LastIsNul(es);
    StoredAppend(b, b', first, end, m, Layout(es), more);
    assert Layout(es) + more[1..] == Layout(es) + e.name + [0] + e.value + [0];
  }

  lemma LastIsNul(es: seq<Entry>)
    ensures Layout(es)[Span(es)] == 0
    ensures es == [] ==> Span(es) == 0
    ensures es != [] ==> Span(es) > 0
  {
    LayoutDrop(es, |es|);
    assert es[..|es|] == es;
    assert Layout(es)[Span(es)..] == [0];
    assert Layout(es)[Span(es)..][0] == Layout(es)[Span(es)];
  }

  lemma SizeOfNothing()
    ensures Size([]) == 0
  {
  }

  lemma SizeOfTail(es: seq<Entry>)
    requires es != []
    ensures Size(es) == EntrySize(es[0]) + Size(es[1..])
    ensures Span(es) == Width(es[0]) + Span(es[1..])
    ensures NulFreeEntries(es) ==> NulFreeEntries(es[1..])
  {
  }

  /** The front of a layout: where its first separators are and what follows the oldest entry. */
  lemma FrontBytes(es: seq<Entry>)
    requires es != [] && NulFreeEntries(es)
    ensures Width(es[0]) <= Span(es)
    ensures forall i :: 1 <= i <= Width(es[0]) ==>
              (Layout(es)[i] == 0 <==> i == |es[0].name| + 1 || i == Width(es[0]))
    ensures Layout(es)[Width(es[0])..] == Layout(es[1..])
  {
    hide Layout;
    var e := es[0];
    LayoutFrom(es, 0);
    assert es[..0] == [];
    var rest := Layout(es[1..]);
    assert Layout(es)[0..] == Layout(es);
    assert NulFreeEntry(e);
    forall i | 1 <= i < Width(e)
      ensures Layout(es)[i] == 0 <==> i == |e.name| + 1
    {
      PieceZero(e, rest, i);
    }
    PieceRest(e, rest);
  }

  lemma PieceRest(e: Entry, rest: seq<byte>)
    ensures Piece(e, rest)[Width(e)..] == rest
  {
  }
}
