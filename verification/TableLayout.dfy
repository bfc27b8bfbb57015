/** How src/hpack/tables.c lays entries out in bytes: each string after a NUL, and a NUL at the end. */
module TableLayout {
  import opened Bits
  import opened TableSpec

  /** Bytes an entry takes in the buffer. */
  function Width(e: Entry): (n: nat)
  {
    |e.name| + |e.value| + 2
  }

  function SumOfWidths(es: seq<Entry>): (n: nat)
  {
    if es == [] then 0 else Width(es[0]) + SumOfWidths(es[1..])
  }

  /** Distance from the first separator to the last. */
  function Span(es: seq<Entry>): (n: nat)
  {
    SumOfWidths(es)
  }

  function Concatenated(es: seq<Entry>): (r: seq<byte>)
    ensures |r| == SumOfWidths(es) + 1 && r[0] == 0
  {
    if es == [] then [0] else [0] + es[0].name + [0] + es[0].value + Concatenated(es[1..])
  }

  /** The bytes of a list of entries, oldest first. */
  function Layout(es: seq<Entry>): (r: seq<byte>)
    ensures |r| == Span(es) + 1 && r[0] == 0
  {
    Concatenated(es)
  }

  lemma {:induction false} SpanBelowSize(es: seq<Entry>)
    ensures Span(es) + 30 * |es| == Size(es)
  {
    if es != [] {
      SpanBelowSize(es[1..]);
    }
  }

  /** The entries from i on start where the entries before i end. */
  lemma {:induction false} LayoutDrop(es: seq<Entry>, i: nat)
    requires i <= |es|
    ensures Span(es) == Span(es[..i]) + Span(es[i..])
    ensures Layout(es)[Span(es[..i])..] == Layout(es[i..])
  {
    if i == 0 {
      assert es[0..] == es;
    } else {
      LayoutDrop(es[1..], i - 1);
      assert es[1..][i - 1..] == es[i..];
      assert es[1..][..i - 1] == es[..i][1..];
      DropConcat([0] + es[0].name + [0] + es[0].value, Layout(es[1..]), Span(es[..i][1..]));
    }
  }

  lemma DropConcat<T>(a: seq<T>, b: seq<T>, n: nat)
    requires n <= |b|
    ensures (a + b)[|a| + n..] == b[n..]
  {
  }

  /** Appending an entry appends its strings and terminators. */
  lemma {:induction false} LayoutSnoc(es: seq<Entry>, e: Entry)
    ensures Layout(es + [e]) == Layout(es) + e.name + [0] + e.value + [0]
    ensures Span(es + [e]) == Span(es) + Width(e)
  {
    if es == [] {
      assert [e][1..] == [];
      assert es + [e] == [e];
    } else {
      assert (es + [e])[1..] == es[1..] + [e];
      LayoutSnoc(es[1..], e);
      Reassociate([0] + es[0].name + [0] + es[0].value, Layout(es[1..]), e.name + [0] + e.value + [0]);
      assert Layout(es[1..]) + e.name + [0] + e.value + [0] == Layout(es[1..]) + (e.name + [0] + e.value + [0]);
      assert Layout(es) + e.name + [0] + e.value + [0] == Layout(es) + (e.name + [0] + e.value + [0]);
    }
  }

  lemma Reassociate<T>(a: seq<T>, b: seq<T>, c: seq<T>)
    ensures a + (b + c) == (a + b) + c
  {
  }

  /** The bytes of an entry followed by rest. */
  function Piece(e: Entry, rest: seq<byte>): (r: seq<byte>) {
    [0] + e.name + [0] + e.value + rest
  }

  /** Zero exactly at the separators, for NUL-free strings. */
  lemma PieceZero(e: Entry, rest: seq<byte>, k: nat)
    requires NulFreeEntry(e) && k < Width(e)
    ensures Piece(e, rest)[k] == 0 <==> k == 0 || k == |e.name| + 1
  {
    var p := Piece(e, rest);
    if 0 < k <= |e.name| {
      assert p[k] == e.name[k - 1];
    } else if k > |e.name| + 1 {
      assert p[k] == e.value[k - |e.name| - 2];
    }
  }

  lemma LayoutFrom(es: seq<Entry>, i: nat)
    requires i < |es|
    ensures Span(es[..i]) + Width(es[i]) + Span(es[i + 1..]) == Span(es)
    ensures Layout(es)[Span(es[..i])..] == Piece(es[i], Layout(es[i + 1..]))
  {
    LayoutDrop(es, i);
    assert es[i..][0] == es[i] && es[i..][1..] == es[i + 1..];
  }

  lemma DropIndex<T>(s: seq<T>, a: nat, k: nat)
    requires a + k < |s|
    ensures s[a..][k] == s[a + k]
  {
  }

  /** Distance from the end of the layout back to the start of the k-th newest entry. */
  function Back(es: seq<Entry>, k: nat): (n: nat)
    requires k <= |es|
  {
    Span(es[|es| - k..])
  }

  lemma BackStep(es: seq<Entry>, k: nat)
    requires k < |es|
    ensures Back(es, k + 1) == Back(es, k) + Width(es[|es| - 1 - k])
    ensures Back(es, k + 1) <= Span(es)
  {
    var i := |es| - 1 - k;
    assert es[i..][1..] == es[i + 1..];
    LayoutDrop(es, i);
  }

  /** State of a scan back from the end: i bytes seen, c of them NUL. */
  ghost predicate Scanned(es: seq<Entry>, i: nat, c: nat) {
    var k := c / 2;
    && k <= |es|
    && (k == |es| ==> c == 2 * k && i == Span(es))
    && (k < |es| ==>
          var v := |es[|es| - 1 - k].value|;
          if c % 2 == 0 then Back(es, k) <= i <= Back(es, k) + v
          else Back(es, k) + v + 1 <= i < Back(es, k + 1))
  }

  lemma ScanStart(es: seq<Entry>)
    ensures Scanned(es, 0, 0)
  {
    assert es[|es|..] == [];
  }

  /** The byte t places back within the entry next older than the k newest ones. */
  lemma BackByte(es: seq<Entry>, k: nat, t: nat)
    requires NulFreeEntries(es) && k < |es|
    requires t < Width(es[|es| - 1 - k])
    ensures Back(es, k) + t < Span(es)
    ensures var e := es[|es| - 1 - k];
            Layout(es)[Span(es) - (Back(es, k) + t) - 1] == 0 <==> t == |e.value| || t == |e.value| + |e.name| + 1
  {
    hide Layout, Span, Piece;
    var j := |es| - 1 - k;
    var e := es[j];
    LayoutFrom(es, j);
    assert NulFreeEntry(e);
    PieceZero(e, Layout(es[j + 1..]), Width(e) - t - 1);
    DropIndex(Layout(es), Span(es[..j]), Width(e) - t - 1);
  }

  /** One more byte back: the separators of the next older entry are met exactly where they are. */
  lemma ScanStep(es: seq<Entry>, i: nat, c: nat)
    requires NulFreeEntries(es) && Scanned(es, i, c) && c < 2 * |es|
    ensures i < Span(es)
    ensures var c' := if Layout(es)[Span(es) - i - 1] == 0 then c + 1 else c;
            && Scanned(es, i + 1, c')
            && (c' % 2 == 0 && c' > c ==> i + 1 == Back(es, c' / 2))
  {
    hide Layout, Span, Back, NulFreeEntries;
    var k := c / 2;
    BackStep(es, k);
    BackByte(es, k, i - Back(es, k));
    if k + 1 == |es| {
      WholeBack(es);
    }
  }

  lemma BackIs(es: seq<Entry>, k: nat)
    requires k <= |es|
    ensures Back(es, k) + Span(es[..|es| - k]) == Span(es)
  {
    LayoutDrop(es, |es| - k);
  }

  lemma WholeBack(es: seq<Entry>)
    ensures Back(es, |es|) == Span(es)
  {
    assert es[0..] == es;
  }

  /** The bytes after the NUL that lies pos places back from the end. */
  function StreamFrom(es: seq<Entry>, pos: nat): (r: seq<byte>)
    requires 1 <= pos <= Span(es)
    ensures |r| == pos
  {
    Layout(es)[Span(es) - pos + 1..]
  }

  /** A scan that has gone the whole length has met every separator. */
  lemma ScanEnds(es: seq<Entry>, i: nat, c: nat)
    requires NulFreeEntries(es) && Scanned(es, i, c) && i >= Span(es)
    ensures c == 2 * |es|
  {
    hide Layout, Span, Back, NulFreeEntries;
    if c < 2 * |es| {
      ScanStep(es, i, c);
    }
  }

  /** What follows the separator of the k-th newest entry: its strings, each terminated. */
  lemma StreamIs(es: seq<Entry>, k: nat)
    requires 1 <= k <= |es|
    ensures 1 <= Back(es, k) <= Span(es)
    ensures StreamFrom(es, Back(es, k)) ==
            es[|es| - k].name + ([0] + es[|es| - k].value + Layout(es[|es| - k + 1..]))
  {
    hide Layout, Span, Piece, Back;
    var i := |es| - k;
    BackIs(es, k);
    LayoutFrom(es, i);
    BackStep(es, k - 1);
    DropOne(Layout(es), Span(es[..i]));
    PieceTail(es[i], Layout(es[i + 1..]));
  }

  lemma DropOne<T>(s: seq<T>, a: nat)
    requires a < |s|
    ensures s[a..][1..] == s[a + 1..]
  {
  }

  lemma PieceTail(e: Entry, rest: seq<byte>)
    ensures Piece(e, rest)[1..] == e.name + ([0] + e.value + rest)
  {
  }

  /** Reading on from inside the stream. */
  lemma StreamDrop(es: seq<Entry>, pos: nat, n: nat)
    requires 1 <= pos <= Span(es) && n < pos
    ensures StreamFrom(es, pos - n) == StreamFrom(es, pos)[n..]
  {
    hide Layout, Span;
  }

  lemma StoredStrings(es: seq<Entry>, k: nat)
    requires 1 <= k <= |es|
    ensures 1 <= Back(es, k) <= Span(es)
    ensures |es[|es| - k].name| + 2 <= Back(es, k)
  {
    BackStep(es, k - 1);
  }

  /** The string read at the start of an entry is its name. */
  lemma StringIs(es: seq<Entry>, k: nat, text: seq<byte>)
    requires NulFreeEntries(es) && 1 <= k <= |es|
    requires 1 <= Back(es, k) <= Span(es) && NulFree(text) && text + [0] <= StreamFrom(es, Back(es, k))
    ensures text == es[|es| - k].name
  {
    hide Layout, Span, Back, StreamFrom;
    StreamIs(es, k);
    assert NulFreeEntry(es[|es| - k]);
    SameString(text, es[|es| - k].name, [0] + es[|es| - k].value + Layout(es[|es| - k + 1..]));
  }

  /** The string read after the name is the value. */
  lemma ValueIs(es: seq<Entry>, k: nat, text: seq<byte>)
    requires NulFreeEntries(es) && 1 <= k <= |es| && NulFree(text)
    requires var pos := Back(es, k) - |es[|es| - k].name| - 1; 1 <= pos <= Span(es) && text + [0] <= StreamFrom(es, pos)
    ensures text == es[|es| - k].value
  {
    hide Layout, Span, Back, StreamFrom;
    var e := es[|es| - k];
    var rest := Layout(es[|es| - k + 1..]);
    StreamIs(es, k);
    StreamDrop(es, Back(es, k), |e.name| + 1);
    assert (e.name + ([0] + e.value + rest))[|e.name| + 1..] == e.value + rest;
    assert NulFreeEntry(e);
    SameString(text, e.value, rest);
  }

  lemma SameString(text: seq<byte>, s: seq<byte>, rest: seq<byte>)
    requires NulFree(text) && NulFree(s) && |rest| >= 1 && rest[0] == 0 && text + [0] <= s + rest
    ensures text == s
  {
    assert text <= s + rest by { assert text == (text + [0])[..|text|]; }
    StopsAtNul(text, s, rest);
    assert (text + [0])[|text|] == (s + rest)[|text|];
  }

  /** From the start of an entry, the byte comparisons of the search decide Matches. */
  lemma MatchAt(es: seq<Entry>, k: nat, name: seq<byte>, value: seq<byte>)
    requires NulFreeEntries(es) && NulFree(name) && NulFree(value) && 1 <= k <= |es|
    ensures var pos, e := Back(es, k), es[|es| - k];
            && 1 <= pos <= Span(es)
            && (name <= StreamFrom(es, pos) <==> name <= e.name)
            && (name <= e.name ==> |name| + 1 < pos)
            && (name <= e.name && value <= StreamFrom(es, pos - (|name| + 1)) <==> Matches(e, name, value))
  {
    hide Layout, Span, Back, StreamFrom;
    StreamIs(es, k);
    StoredStrings(es, k);
    MatchStream(es[|es| - k], Layout(es[|es| - k + 1..]), name, value);
    if name <= es[|es| - k].name {
      StreamDrop(es, Back(es, k), |name| + 1);
    }
  }

  lemma MatchStream(e: Entry, rest: seq<byte>, name: seq<byte>, value: seq<byte>)
    requires NulFree(name) && NulFree(value) && |rest| >= 1 && rest[0] == 0
    ensures var stream := e.name + ([0] + e.value + rest);
            && (name <= stream <==> name <= e.name)
            && (name <= stream && |name| + 1 <= |stream| && value <= stream[|name| + 1..] <==> Matches(e, name, value))
  {
    var after := [0] + e.value + rest;
    var stream := e.name + after;
    StopsAtNul(name, e.name, after);
    if name <= e.name {
      if |name| == |e.name| {
        assert name == e.name;
        assert stream[|name| + 1..] == e.value + rest;
        StopsAtNul(value, e.value, rest);
      } else {
        assert stream[|name| + 1..] == e.name[|name| + 1..] + after;
        StopsAtNul(value, e.name[|name| + 1..], after);
      }
    }
  }

  /** A NUL-free query that is a prefix of a terminated string is a prefix of the string itself. */
  lemma StopsAtNul(q: seq<byte>, s: seq<byte>, rest: seq<byte>)
    requires NulFree(q) && |rest| >= 1 && rest[0] == 0
    ensures q <= s + rest <==> q <= s
  {
    if |q| > |s| {
      assert (s + rest)[|s|] == 0 && q[|s|] != 0;
    } else {
      assert (s + rest)[..|q|] == s[..|q|];
    }
  }
}
