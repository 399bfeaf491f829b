/** Writing NVAR records: the reader gives back every record that is written,
    and the walk every list of records. */
module NvarFormat {
  import opened Results
  import opened Words
  import opened Ffs
  import opened NvarRecords

  /** The parts of a record behind its ten fixed bytes. A name is given without
      its terminator. */
  datatype Entry = Entry(next: Option<nat>, attributes: U8, guidField: Bytes, name: Bytes, data: Bytes, extension: Bytes)

  function Terminator(e: Entry): Bytes {
    if !Named(e.attributes) then [] else if TestBit(e.attributes, 1) then [0] else [0, 0]
  }

  function SizeOf(e: Entry): nat {
    10 + |e.guidField| + |e.name| + |Terminator(e)| + |e.data| + |e.extension|
  }

  ghost predicate NameFits(e: Entry) {
    if !Named(e.attributes) then e.guidField == [] && e.name == []
    else
      && |e.guidField| == (if TestBit(e.attributes, 2) then 16 else 1)
      && if TestBit(e.attributes, 1) then forall i :: 0 <= i < |e.name| ==> e.name[i] != 0
         else |e.name| % 2 == 0 && forall i :: 0 <= i < |e.name| / 2 ==> !(e.name[2 * i] == 0 && e.name[2 * i + 1] == 0)
  }

  function NextField(e: Entry): nat {
    if e.next.Some? then e.next.value else 0xFF_FFFF
  }

  function Head(e: Entry): (h: Bytes)
    requires SizeOf(e) < 0x1_0000
    ensures |h| == 10
  {
    SIGNATURE + [SizeOf(e) % 0x100, SizeOf(e) / 0x100] + Uint24(NextField(e)) + [e.attributes]
  }

  function EntryBytes(e: Entry): (b: Bytes)
    requires SizeOf(e) < 0x1_0000
    ensures |b| == SizeOf(e)
  {
    Head(e) + e.guidField + e.name + Terminator(e) + e.data + e.extension
  }

  /** The last two bytes of the record, as a size. */
  function TrailingSize(e: Entry): nat
    requires SizeOf(e) < 0x1_0000
  {
    var b := EntryBytes(e);
    Le16(b[|b| - 2], b[|b| - 1])
  }

  /** A record of more than 14 bytes that announces an extended header has one
      exactly if its last two bytes are a size that fits; it then has that size. */
  ghost predicate ExtensionFits(e: Entry)
    requires SizeOf(e) < 0x1_0000
  {
    if TestBit(e.attributes, 4) && SizeOf(e) > 14 && 3 <= TrailingSize(e) <= SizeOf(e) - 10
    then |e.extension| == TrailingSize(e) else e.extension == []
  }

  ghost predicate Writable(e: Entry) {
    && SizeOf(e) < 0x1_0000 && (e.next.Some? ==> e.next.value < 0xFF_FFFF)
    && NameFits(e) && ExtensionFits(e)
  }

  /** What reading the record at `off` gives. */
  function Expected(t: Texts, e: Entry, off: nat): NvarRecord {
    var named := Named(e.attributes);
    NvarRecord(off, SizeOf(e), e.attributes,
               if named && !TestBit(e.attributes, 2) && |e.guidField| == 1 then Some(e.guidField[0]) else None,
               None, e.next, |e.extension|,
               if !named then None else if TestBit(e.attributes, 1) then Some(t.utf8(e.name)) else Some(t.utf16(Units(e.name))),
               off + 10 + |e.guidField| + |e.name| + |Terminator(e)|, |e.data|)
  }

  /** `x` stands in `b` at `at`. */
  predicate Shows(b: Bytes, at: nat, x: Bytes) {
    at + |x| <= |b| && b[at..at + |x|] == x
  }

  lemma ShowsParts(b: Bytes, at: nat, x: Bytes, y: Bytes)
    requires Shows(b, at, x + y)
    ensures Shows(b, at, x) && Shows(b, at + |x|, y)
  {
    assert x == (x + y)[..|x|] && y == (x + y)[|x|..];
    assert b[at..at + |x|] == b[at..at + |x + y|][..|x|];
    assert b[at + |x|..at + |x| + |y|] == b[at..at + |x + y|][|x|..];
  }

  lemma ShowsEntry(b: Bytes, off: nat, e: Entry)
    requires SizeOf(e) < 0x1_0000 && Shows(b, off, EntryBytes(e))
    ensures var p := off + 10 + |e.guidField|; var d := p + |e.name| + |Terminator(e)|;
      && Shows(b, off, Head(e)) && Shows(b, off + 10, e.guidField) && Shows(b, p, e.name)
      && Shows(b, p + |e.name|, Terminator(e)) && Shows(b, d, e.data) && Shows(b, d + |e.data|, e.extension)
  {
    hide Head, Shows, Terminator;
    var p := off + 10 + |e.guidField|;
    ShowsParts(b, off, Head(e) + e.guidField + e.name + Terminator(e) + e.data, e.extension);
    ShowsParts(b, off, Head(e) + e.guidField + e.name + Terminator(e), e.data);
    ShowsParts(b, off, Head(e) + e.guidField + e.name, Terminator(e));
    ShowsParts(b, off, Head(e) + e.guidField, e.name);
    ShowsParts(b, off, Head(e), e.guidField);
  }

  lemma HeadParts(e: Entry)
    requires SizeOf(e) < 0x1_0000
    ensures Head(e)[..4] == SIGNATURE && Head(e)[4] == SizeOf(e) % 0x100 && Head(e)[5] == SizeOf(e) / 0x100
    ensures Head(e)[6..9] == Uint24(NextField(e)) && Head(e)[9] == e.attributes
  {
    hide Uint24, SizeOf, NextField;
  }

  lemma HeadRead(b: Bytes, off: nat, e: Entry)
    requires SizeOf(e) < 0x1_0000 && Shows(b, off, Head(e)) && (e.next.Some? ==> e.next.value < 0xFF_FFFF)
    ensures off + 10 <= |b| && b[off..off + 4] == SIGNATURE && Le16(b[off + 4], b[off + 5]) == SizeOf(e)
    ensures FromUint24(b[off + 6..off + 9]) == NextField(e) && b[off + 9] == e.attributes
  {
    hide Uint24, FromUint24, SizeOf, Head;
    var h := Head(e);
    var shown := b[off..off + 10];
    assert shown == h;
    HeadParts(e);
    PartOfPart(b, off, off + 10, 0, 4);
    PartOfPart(b, off, off + 10, 6, 9);
    Uint24RoundTrip(NextField(e));
    assert b[off + 4] == shown[4];
    assert b[off + 5] == shown[5];
    assert b[off + 9] == shown[9];
  }

  lemma {:induction false} ZeroAfter(b: Bytes, p: nat, k: nat, end: nat)
    requires p <= k < end <= |b| && b[k] == 0 && forall i :: p <= i < k ==> b[i] != 0
    ensures FirstZero(b, p, end) == Some(k)
    decreases k - p
  {
    if p < k {
      ZeroAfter(b, p + 1, k, end);
    }
  }

  lemma {:induction false} WideAfter(b: Bytes, p: nat, n: nat, end: nat)
    requires p + 2 * n + 2 <= end <= |b| && b[p + 2 * n] == 0 && b[p + 2 * n + 1] == 0
    requires forall i :: 0 <= i < n ==> !(b[p + 2 * i] == 0 && b[p + 2 * i + 1] == 0)
    ensures WideEnd(b, p, end) == p + 2 * n
    decreases n
  {
    if n > 0 {
      assert !(b[p + 2 * 0] == 0 && b[p + 2 * 0 + 1] == 0);
      forall i | 0 <= i < n - 1 ensures !(b[p + 2 + 2 * i] == 0 && b[p + 2 + 2 * i + 1] == 0) {
        assert !(b[p + 2 * (i + 1)] == 0 && b[p + 2 * (i + 1) + 1] == 0);
      }
      WideAfter(b, p + 2, n - 1, end);
    }
  }

  lemma TerminatorRead(b: Bytes, at: nat, e: Entry)
    requires Named(e.attributes) && Shows(b, at, Terminator(e))
    ensures at < |b| && b[at] == 0
    ensures !TestBit(e.attributes, 1) ==> at + 1 < |b| && b[at + 1] == 0
  {
    hide TestBit;
    var x := Terminator(e);
    var shown := b[at..at + |x|];
    assert shown == x;
    assert shown[0] == b[at] && x[0] == 0;
    if !TestBit(e.attributes, 1) {
      assert x == [0, 0];
      assert shown[1] == b[at + 1] && x[1] == 0;
    }
  }

  lemma NameRead(t: Texts, b: Bytes, p: nat, end: nat, e: Entry)
    requires NameFits(e) && p + |e.name| + |Terminator(e)| <= end <= |b|
    requires Shows(b, p, e.name) && Shows(b, p + |e.name|, Terminator(e))
    ensures NameField(t, b, e.attributes, p, end) == Some((Expected(t, e, 0).name, p + |e.name| + |Terminator(e)|))
  {
    hide TestBit, Units, FirstZero, WideEnd;
    var n := |e.name|;
    if Named(e.attributes) {
      forall i | 0 <= i < n ensures b[p + i] == e.name[i] {
        assert b[p..p + n][i] == b[p + i];
      }
      TerminatorRead(b, p + n, e);
      if TestBit(e.attributes, 1) {
        ZeroAfter(b, p, p + n, end);
      } else {
        WideAfter(b, p, n / 2, end);
      }
    }
  }

  lemma ExtensionRead(b: Bytes, off: nat, e: Entry)
    requires SizeOf(e) < 0x1_0000 && ExtensionFits(e) && Shows(b, off, EntryBytes(e))
    ensures ExtendedSize(b, e.attributes, SizeOf(e), off + SizeOf(e)) == |e.extension|
  {
    hide TestBit, Le16, EntryBytes, SizeOf;
    var n, end := SizeOf(e), off + SizeOf(e);
    var shown := b[off..end];
    assert n >= 10 by { AtLeastTen(e); }
    assert b[end - 2] == shown[n - 2];
    assert b[end - 1] == shown[n - 1];
  }

  lemma AtLeastTen(e: Entry)
    ensures SizeOf(e) >= 10
  {
  }

  /** Wherever a record is written, it is read back: geometry, attributes, GUID
      index, link, name and data. */
  lemma EntryRoundTrip(t: Texts, b: Bytes, off: nat, e: Entry)
    requires Writable(e) && Shows(b, off, EntryBytes(e))
    ensures ParseEntry(t, b, off) == Some(Expected(t, e, off))
    ensures Placed(b, Expected(t, e, off)) && DataOf(b, Expected(t, e, off)) == e.data
  {
    hide TestBit, GuidField, NameField, FromUint24, Le16, Head, EntryBytes, ExtendedSize, NameFits, ExtensionFits, Units, Terminator, Shows;
    ShowsEntry(b, off, e);
    WithinBuffer(b, off, e);
    HeadRead(b, off, e);
    var p, end := off + 10 + |e.guidField|, off + SizeOf(e);
    GuidFieldRead(b, off + 10, end, e);
    NameRead(t, b, p, end, e);
    ExtensionRead(b, off, e);
  }

  lemma WithinBuffer(b: Bytes, off: nat, e: Entry)
    requires SizeOf(e) < 0x1_0000 && Shows(b, off, EntryBytes(e))
    ensures off + SizeOf(e) <= |b|
    ensures var d := off + 10 + |e.guidField| + |e.name| + |Terminator(e)|; b[d..d + |e.data|] == e.data
  {
    hide EntryBytes, Terminator;
    ShowsEntry(b, off, e);
  }

  lemma GuidFieldRead(b: Bytes, p: nat, end: nat, e: Entry)
    requires NameFits(e) && Shows(b, p, e.guidField) && p + |e.guidField| <= end <= |b|
    ensures GuidField(b, e.attributes, p, end) == Some((Expected(Texts(_ => "", _ => "", _ => None), e, 0).guidIndex, p + |e.guidField|))
  {
    hide TestBit, Units;
    if |e.guidField| == 1 {
      assert b[p..p + 1][0] == b[p];
    }
  }

  // Every record that is read could have been written

  lemma {:induction false} WideEndMeaning(b: Bytes, p: nat, end: nat)
    requires p <= end <= |b|
    ensures var w := WideEnd(b, p, end);
      && (w + 1 < end ==> b[w] == 0 && b[w + 1] == 0)
      && forall i :: 0 <= i < (w - p) / 2 ==> !(b[p + 2 * i] == 0 && b[p + 2 * i + 1] == 0)
    decreases end - p
  {
    if p + 1 < end && !(b[p] == 0 && b[p + 1] == 0) {
      WideEndMeaning(b, p + 2, end);
      var w := WideEnd(b, p, end);
      forall i | 0 <= i < (w - p) / 2 ensures !(b[p + 2 * i] == 0 && b[p + 2 * i + 1] == 0) {
        if i > 0 {
          assert !(b[p + 2 + 2 * (i - 1)] == 0 && b[p + 2 + 2 * (i - 1) + 1] == 0);
        }
      }
    }
  }

  /** Where the name of a record ends, its terminator not included. */
  function NameEnd(b: Bytes, attributes: U8, p: nat, end: nat): (z: nat)
    requires p <= end <= |b|
    ensures p <= z <= end
  {
    if !Named(attributes) then p
    else if TestBit(attributes, 1) then (if FirstZero(b, p, end).Some? then FirstZero(b, p, end).value else end)
    else WideEnd(b, p, end)
  }

  lemma NameSplit(t: Texts, b: Bytes, p: nat, end: nat, e: Entry)
    requires p <= end <= |b| && NameField(t, b, e.attributes, p, end).Some?
    requires e.name == b[p..NameEnd(b, e.attributes, p, end)]
    requires |e.guidField| == (if !Named(e.attributes) then 0 else if TestBit(e.attributes, 2) then 16 else 1)
    ensures NameFits(e)
    ensures var z, d := NameEnd(b, e.attributes, p, end), NameField(t, b, e.attributes, p, end).value.1;
      z <= d && b[z..d] == Terminator(e)
  {
    hide TestBit, Units, FirstZero, WideEnd;
    var z := NameEnd(b, e.attributes, p, end);
    forall i | 0 <= i < |e.name| ensures e.name[i] == b[p + i] {
    }
    if Named(e.attributes) && !TestBit(e.attributes, 1) {
      WideEndMeaning(b, p, end);
      assert b[z..z + 2] == [b[z], b[z + 1]];
    } else if Named(e.attributes) {
      assert b[z..z + 1] == [b[z]];
    }
  }

  lemma HeadWritten(b: Bytes, off: nat, e: Entry)
    requires off + 10 <= |b| && b[off..off + 4] == SIGNATURE && SizeOf(e) == Le16(b[off + 4], b[off + 5])
    requires NextField(e) == FromUint24(b[off + 6..off + 9]) && e.attributes == b[off + 9]
    ensures Head(e) == b[off..off + 10]
  {
    hide Uint24, FromUint24, SizeOf, NextField;
    Uint24OfFrom(b[off + 6..off + 9]);
    assert SizeOf(e) % 0x100 == b[off + 4] && SizeOf(e) / 0x100 == b[off + 5] by { DivUnique(SizeOf(e), 0x100, b[off + 5], b[off + 4]); }
    assert b[off..off + 10] == b[off..off + 4] + [b[off + 4], b[off + 5]] + b[off + 6..off + 9] + [b[off + 9]];
  }

  /** The entry that a record in the buffer consists of. */
  function EntryOf(b: Bytes, r: NvarRecord): Entry
    requires Placed(b, r) && NameStart(r) <= EndOf(r)
  {
    var g := NameStart(r);
    Entry(r.next, r.attributes, b[r.offset + 10..g], b[g..NameEnd(b, r.attributes, g, EndOf(r))], DataOf(b, r),
          b[r.dataOffset + r.dataLen..EndOf(r)])
  }

  function NameStart(r: NvarRecord): nat {
    r.offset + 10 + if !Named(r.attributes) then 0 else if TestBit(r.attributes, 2) then 16 else 1
  }

  /** What parsing a record has looked at. */
  lemma ParsedParts(t: Texts, b: Bytes, off: nat)
    requires ParseEntry(t, b, off).Some?
    ensures var r := ParseEntry(t, b, off).value;
      && Placed(b, r) && r.offset == off && NameStart(r) <= EndOf(r)
      && b[off..off + 4] == SIGNATURE && r.size == Le16(b[off + 4], b[off + 5]) && r.attributes == b[off + 9]
      && FromUint24(b[off + 6..off + 9]) == (if r.next.Some? then r.next.value else 0xFF_FFFF)
      && (r.next.Some? ==> r.next.value < 0xFF_FFFF)
      && NameField(t, b, r.attributes, NameStart(r), EndOf(r)).Some?
      && NameField(t, b, r.attributes, NameStart(r), EndOf(r)).value.1 == r.dataOffset
      && r.extendedSize == ExtendedSize(b, r.attributes, r.size, EndOf(r))
  {
    hide TestBit, NameField, Le16, ExtendedSize;
    FromUint24Bound(b[off + 6..off + 9]);
  }

  lemma FromUint24Bound(b: Bytes)
    requires |b| == 3
    ensures FromUint24(b) <= 0xFF_FFFF
  {
  }

  lemma EntryShown(t: Texts, b: Bytes, off: nat)
    requires ParseEntry(t, b, off).Some?
    ensures var r := ParseEntry(t, b, off).value;
      && Placed(b, r) && NameStart(r) <= EndOf(r) && NameFits(EntryOf(b, r))
      && SizeOf(EntryOf(b, r)) == r.size < 0x1_0000 && EntryBytes(EntryOf(b, r)) == b[off..EndOf(r)]
  {
    hide ParseEntry, TestBit, NameField, NameEnd, NameFits, Le16, ExtendedSize, FromUint24, Terminator, Head;
    ParsedParts(t, b, off);
    var r := ParseEntry(t, b, off).value;
    var g, end := NameStart(r), EndOf(r);
    var e := EntryOf(b, r);
    NameSplit(t, b, g, end, e);
    var z := NameEnd(b, r.attributes, g, end);
    assert |Terminator(e)| == r.dataOffset - z;
    HeadWritten(b, off, e);
    SplitInSix(b, off, off + 10, g, z, r.dataOffset, r.dataOffset + r.dataLen, end);
  }

  lemma SplitInSix(b: Bytes, i: nat, j: nat, k: nat, l: nat, m: nat, n: nat, o: nat)
    requires i <= j <= k <= l <= m <= n <= o <= |b|
    ensures b[i..o] == b[i..j] + b[j..k] + b[k..l] + b[l..m] + b[m..n] + b[n..o]
  {
    SplitAt(b, i, j, k);
    SplitAt(b, i, k, l);
    SplitAt(b, i, l, m);
    SplitAt(b, i, m, n);
    SplitAt(b, i, n, o);
  }

  lemma SplitAt(b: Bytes, i: nat, j: nat, k: nat)
    requires i <= j <= k <= |b|
    ensures b[i..k] == b[i..j] + b[j..k]
  {
  }

  /** Whatever record is read, an entry like this was written there: the written
      entries are exactly the records. */
  lemma EveryRecordIsWritten(t: Texts, b: Bytes, off: nat) returns (e: Entry)
    requires ParseEntry(t, b, off).Some?
    ensures Writable(e) && Shows(b, off, EntryBytes(e)) && ParseEntry(t, b, off) == Some(Expected(t, e, off))
  {
    hide ParseEntry, TestBit, NameField, NameEnd, NameFits, FromUint24, Terminator, Head, EntryBytes, Expected;
    ParsedParts(t, b, off);
    EntryShown(t, b, off);
    var r := ParseEntry(t, b, off).value;
    e := EntryOf(b, r);
    var shown := b[off..EndOf(r)];
    assert b[EndOf(r) - 2] == shown[r.size - 2];
    assert b[EndOf(r) - 1] == shown[r.size - 1];
    EntryRoundTrip(t, b, off, e);
  }

  // Names and attributes as numbers

  /** A name of 16-bit units is read unit by unit, low byte first. */
  lemma {:induction false} UnitsMeaning(b: Bytes)
    ensures |Units(b)| == |b| / 2
    ensures forall i :: 0 <= i < |b| / 2 ==> Units(b)[i] == b[2 * i] as int + 0x100 * (b[2 * i + 1] as int)
    decreases |b|
  {
    if |b| >= 2 {
      UnitsMeaning(b[2..]);
      forall i | 1 <= i < |b| / 2 ensures Units(b)[i] == b[2 * i] as int + 0x100 * (b[2 * i + 1] as int) {
        assert Units(b)[i] == Units(b[2..])[i - 1];
        assert b[2..][2 * (i - 1)] == b[2 * i] && b[2..][2 * (i - 1) + 1] == b[2 * i + 1];
      }
    }
  }

  /** A record is named if attribute 0x80 is set and 0x08 is not. */
  lemma NamedMeaning(attributes: U8)
    ensures Named(attributes) <==> attributes >= 0x80 && (attributes / 8) % 2 == 0
  {
    ShrIsDiv(attributes, 7);
    ShrIsDiv(attributes, 3);
    assert Pow2(7) == 128 && Pow2(3) == 8;
  }

  ghost predicate AllWritable(es: seq<Entry>) {
    forall i :: 0 <= i < |es| ==> Writable(es[i])
  }

  ghost function StoreBytes(es: seq<Entry>): Bytes
    requires AllWritable(es)
  {
    if es == [] then [] else EntryBytes(es[0]) + StoreBytes(es[1..])
  }

  function ExpectedWalk(t: Texts, es: seq<Entry>, off: nat): seq<NvarRecord> {
    if es == [] then [] else [Expected(t, es[0], off)] + ExpectedWalk(t, es[1..], off + SizeOf(es[0]))
  }

  /** A store of any records is walked as exactly these records, up to the first
      place behind them where no record starts. */
  lemma {:induction false} WalkRoundTrip(t: Texts, b: Bytes, off: nat, es: seq<Entry>)
    requires AllWritable(es) && Shows(b, off, StoreBytes(es))
    requires ParseEntry(t, b, off + |StoreBytes(es)|).None?
    ensures Walk(t, b, off) == ExpectedWalk(t, es, off)
    decreases |es|
  {
    hide ParseEntry, Walk, EntryBytes, Expected, NameFits, ExtensionFits, SizeOf, Shows;
    WalkStep(t, b, off);
    if es != [] {
      assert Writable(es[0]);
      ShowsParts(b, off, EntryBytes(es[0]), StoreBytes(es[1..]));
      EntryRoundTrip(t, b, off, es[0]);
      ExpectedSize(t, es[0], off);
      WalkRoundTrip(t, b, off + SizeOf(es[0]), es[1..]);
    }
  }

  lemma ExpectedSize(t: Texts, e: Entry, off: nat)
    ensures Expected(t, e, off).size == SizeOf(e)
  {
  }
}
