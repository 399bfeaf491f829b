/** Records of an NVAR store: reading one, walking a buffer, and flattening
    stores nested in record data. */
module NvarRecords {
  import opened Results
  import opened Words
  import opened Ffs

  /** The text decoders are libraries: any functions. */
  datatype Texts = Texts(utf8: Bytes -> string, utf16: seq<U16> -> string, guid: string -> Option<Bytes>)

  const SIGNATURE: Bytes := [0x4E, 0x56, 0x41, 0x52]
  const MAX_DEPTH: nat := 4

  datatype NvarRecord = NvarRecord(
    offset: nat,
    size: nat,
    attributes: U8,
    guidIndex: Option<U8>,
    guid: Option<Bytes>,
    next: Option<nat>,
    extendedSize: nat,
    name: Option<string>,
    dataOffset: nat,
    dataLen: nat)

  /** The record is valid and has a name: attributes VALID without DATA_ONLY. */
  predicate Named(attributes: U8) {
    TestBit(attributes, 7) && !TestBit(attributes, 3)
  }

  function GuidField(buf: Bytes, attributes: U8, p: nat, end: nat): (r: Option<(Option<U8>, nat)>)
    requires p <= end <= |buf|
    ensures r.Some? ==> p <= r.value.1 <= end
  {
    if !Named(attributes) then Some((None, p))
    else if TestBit(attributes, 2) then
      if p + 16 > end then None else Some((None, p + 16))
    else if p + 1 > end then None
    else Some((Some(buf[p]), p + 1))
  }

  function FirstZero(buf: Bytes, p: nat, end: nat): (r: Option<nat>)
    requires p <= end <= |buf|
    ensures r.Some? ==> p <= r.value < end && buf[r.value] == 0 && forall k :: p <= k < r.value ==> buf[k] != 0
    ensures r.None? ==> forall k :: p <= k < end ==> buf[k] != 0
    decreases end - p
  {
    if p == end then None
    else if buf[p] == 0 then Some(p)
    else FirstZero(buf, p + 1, end)
  }

  function Le16(low: U8, high: U8): U16 {
    low as nat + 0x100 * (high as nat)
  }

  /** Where the 16-bit units from `p` end: at a zero unit or short of `end`. */
  function WideEnd(buf: Bytes, p: nat, end: nat): (e: nat)
    requires p <= end <= |buf|
    ensures p <= e <= end && (e - p) % 2 == 0
    decreases end - p
  {
    if p + 1 < end && !(buf[p] == 0 && buf[p + 1] == 0) then WideEnd(buf, p + 2, end) else p
  }

  function Units(b: Bytes): seq<U16>
    decreases |b|
  {
    if |b| < 2 then [] else [Le16(b[0], b[1])] + Units(b[2..])
  }

  function NameField(t: Texts, buf: Bytes, attributes: U8, p: nat, end: nat): (r: Option<(Option<string>, nat)>)
    requires p <= end <= |buf|
    ensures r.Some? ==> p <= r.value.1 <= end
  {
    if !Named(attributes) then Some((None, p))
    else if TestBit(attributes, 1) then
      var z :- FirstZero(buf, p, end);
      Some((Some(t.utf8(buf[p..z])), z + 1))
    else
      var e := WideEnd(buf, p, end);
      if e + 1 >= end then None else Some((Some(t.utf16(Units(buf[p..e]))), e + 2))
  }

  /** The trailing size of an extended header, if it fits the record. */
  function ExtendedSize(buf: Bytes, attributes: U8, size: nat, end: nat): (r: nat)
    requires 10 <= size <= end <= |buf|
    ensures r == 0 || 3 <= r <= size - 10
  {
    if TestBit(attributes, 4) && size > 14 then
      var esz: nat := Le16(buf[end - 2], buf[end - 1]);
      if 3 <= esz <= size - 10 then esz else 0
    else 0
  }

  function ParseEntry(t: Texts, buf: Bytes, off: nat): (r: Option<NvarRecord>)
    ensures r.Some? ==> Placed(buf, r.value) && r.value.offset == off
  {
    if off + 4 > |buf| || buf[off..off + 4] != SIGNATURE || off + 6 > |buf| then None
    else
      var size: nat := Le16(buf[off + 4], buf[off + 5]);
      if size < 10 || off + size > |buf| then None
      else
        var attributes := buf[off + 9];
        var next := FromUint24(buf[off + 6..off + 9]);
        var end := off + size;
        var g :- GuidField(buf, attributes, off + 10, end);
        var name :- NameField(t, buf, attributes, g.1, end);
        var extended := ExtendedSize(buf, attributes, size, end);
        if name.1 > end - extended then None
        else Some(NvarRecord(off, size, attributes, g.0, None, if next == 0xFF_FFFF then None else Some(next),
                             extended, name.0, name.1, end - extended - name.1))
  }

  /** The record lies in the buffer: ten fixed bytes, the name, the data, and an
      extended header at its end. */
  predicate Placed(buf: Bytes, r: NvarRecord) {
    && r.size >= 10 && r.offset + r.size <= |buf|
    && r.offset + 10 <= r.dataOffset
    && r.dataOffset + r.dataLen + r.extendedSize == r.offset + r.size
  }

  function Walk(t: Texts, buf: Bytes, off: nat): (rs: seq<NvarRecord>)
    ensures forall i :: 0 <= i < |rs| ==> Placed(buf, rs[i]) && off <= rs[i].offset
    decreases if off <= |buf| then |buf| - off else 0
  {
    match ParseEntry(t, buf, off)
    case None => []
    case Some(r) => [r] + Walk(t, buf, off + r.size)
  }

  lemma WalkStep(t: Texts, buf: Bytes, off: nat)
    ensures Walk(t, buf, off) == match ParseEntry(t, buf, off) case None => [] case Some(r) => [r] + Walk(t, buf, off + r.size)
  {
    hide ParseEntry;
  }

  function EndOf(r: NvarRecord): nat {
    r.offset + r.size
  }

  /** A walk tiles a prefix of the buffer and stops where no record starts. */
  lemma {:induction false} WalkTiles(t: Texts, buf: Bytes, off: nat)
    ensures var rs := Walk(t, buf, off);
      && (forall i :: 0 <= i < |rs| ==> ParseEntry(t, buf, rs[i].offset) == Some(rs[i]))
      && (rs != [] ==> rs[0].offset == off)
      && (forall i :: 0 < i < |rs| ==> rs[i].offset == EndOf(rs[i - 1]))
      && ParseEntry(t, buf, if rs == [] then off else EndOf(rs[|rs| - 1])).None?
    decreases if off <= |buf| then |buf| - off else 0
  {
    hide ParseEntry;
    var rs := Walk(t, buf, off);
    if rs != [] {
      WalkTiles(t, buf, off + rs[0].size);
      var rest := Walk(t, buf, off + rs[0].size);
      forall i | 0 < i < |rs| ensures rs[i].offset == EndOf(rs[i - 1]) && ParseEntry(t, buf, rs[i].offset) == Some(rs[i]) {
        assert rs[i] == rest[i - 1];
      }
    }
  }

  lemma {:induction false} WalkOrdered(t: Texts, buf: Bytes, off: nat, i: nat, j: nat)
    requires i < j < |Walk(t, buf, off)|
    ensures EndOf(Walk(t, buf, off)[i]) <= Walk(t, buf, off)[j].offset
    decreases j
  {
    hide ParseEntry;
    WalkTiles(t, buf, off);
    if i + 1 < j {
      WalkOrdered(t, buf, off, i, j - 1);
    }
  }

  // Flattening

  function ResolveGuid(buf: Bytes, index: U8): Option<Bytes> {
    if |buf| < 16 * (index + 1) then None
    else Some(buf[|buf| - 16 * (index + 1)..|buf| - 16 * index])
  }

  datatype FlatRecord = FlatRecord(record: NvarRecord, depth: nat, dataOff: nat)

  function Resolved(buf: Bytes, r: NvarRecord): NvarRecord {
    if r.guidIndex.Some? then r.(guid := ResolveGuid(buf, r.guidIndex.value)) else r
  }

  function DataOf(buf: Bytes, r: NvarRecord): Bytes
    requires Placed(buf, r)
  {
    buf[r.dataOffset..r.dataOffset + r.dataLen]
  }

  predicate IsNested(t: Texts, buf: Bytes, r: NvarRecord, depth: nat)
    requires Placed(buf, r)
  {
    depth < MAX_DEPTH && r.dataLen >= 10 && ParseEntry(t, DataOf(buf, r), 0).Some?
  }

  ghost predicate AllPlaced(buf: Bytes, rs: seq<NvarRecord>) {
    forall i :: 0 <= i < |rs| ==> Placed(buf, rs[i])
  }

  function FlattenRecords(t: Texts, buf: Bytes, rs: seq<NvarRecord>, base: nat, depth: nat): seq<FlatRecord>
    requires AllPlaced(buf, rs) && depth <= MAX_DEPTH
    decreases MAX_DEPTH - depth, |rs|
  {
    if rs == [] then []
    else
      [FlatRecord(Resolved(buf, rs[0]), depth, base + rs[0].dataOffset)]
      + FlattenNested(t, buf, rs[0], base, depth)
      + FlattenRecords(t, buf, rs[1..], base, depth)
  }

  function FlattenNested(t: Texts, buf: Bytes, r: NvarRecord, base: nat, depth: nat): seq<FlatRecord>
    requires Placed(buf, r) && depth <= MAX_DEPTH
    decreases MAX_DEPTH - depth, 0
  {
    if IsNested(t, buf, r, depth) then
      FlattenRecords(t, DataOf(buf, r), Walk(t, DataOf(buf, r), 0), base + r.dataOffset, depth + 1)
    else []
  }

  function Flatten(t: Texts, buf: Bytes): seq<FlatRecord> {
    FlattenRecords(t, buf, Walk(t, buf, 0), 0, 0)
  }

  // The flattened records are a laminar family

  function DataEnd(f: FlatRecord): nat {
    f.dataOff + f.record.dataLen
  }

  /** The place of the whole record in the top buffer. */
  function RecordStart(f: FlatRecord): int {
    f.dataOff - f.record.dataOffset + f.record.offset
  }

  function RecordEnd(f: FlatRecord): int {
    RecordStart(f) + f.record.size
  }

  /** The record lies between the two places, its data behind its fixed bytes. */
  predicate Between(f: FlatRecord, lo: int, hi: int) {
    lo <= RecordStart(f) && RecordStart(f) + 10 <= f.dataOff && DataEnd(f) <= RecordEnd(f) <= hi
  }

  predicate NestedIn(outer: FlatRecord, inner: FlatRecord) {
    inner.depth > outer.depth && Between(inner, outer.dataOff, DataEnd(outer))
  }

  predicate Precedes(f: FlatRecord, g: FlatRecord) {
    RecordEnd(f) <= RecordStart(g)
  }

  ghost predicate Laminar(fs: seq<FlatRecord>) {
    forall i, j :: 0 <= i < j < |fs| ==> Precedes(fs[i], fs[j]) || NestedIn(fs[i], fs[j])
  }

  /** Every record below `depth` has its parent before it. */
  ghost predicate HaveParents(fs: seq<FlatRecord>, depth: nat) {
    forall j :: 0 <= j < |fs| && fs[j].depth != depth ==> HasParent(fs, j)
  }

  ghost predicate Spread(fs: seq<FlatRecord>, lo: int, hi: int, depth: nat) {
    forall i :: 0 <= i < |fs| ==> Between(fs[i], lo, hi) && depth <= fs[i].depth <= MAX_DEPTH
  }

  ghost predicate Ordered(rs: seq<NvarRecord>, lo: nat, hi: nat) {
    && (forall i :: 0 <= i < |rs| ==> lo <= rs[i].offset && EndOf(rs[i]) <= hi)
    && (forall i, j :: 0 <= i < j < |rs| ==> EndOf(rs[i]) <= rs[j].offset)
  }

  lemma WalkIsOrdered(t: Texts, buf: Bytes)
    ensures AllPlaced(buf, Walk(t, buf, 0)) && Ordered(Walk(t, buf, 0), 0, |buf|)
  {
    hide ParseEntry, Walk;
    forall i, j | 0 <= i < j < |Walk(t, buf, 0)| ensures EndOf(Walk(t, buf, 0)[i]) <= Walk(t, buf, 0)[j].offset {
      WalkOrdered(t, buf, 0, i, j);
    }
  }

  lemma SpreadJoin(f: FlatRecord, nested: seq<FlatRecord>, rest: seq<FlatRecord>, lo: int, hi: int)
    requires Between(f, lo, hi) && f.depth <= MAX_DEPTH && Spread(nested, f.dataOff, DataEnd(f), f.depth + 1)
    requires Spread(rest, RecordEnd(f), hi, f.depth)
    ensures Spread([f] + nested + rest, lo, hi, f.depth)
  {
  }

  lemma LaminarJoin(f: FlatRecord, nested: seq<FlatRecord>, rest: seq<FlatRecord>, lo: int, hi: int)
    requires Between(f, lo, hi) && Spread(nested, f.dataOff, DataEnd(f), f.depth + 1)
    requires Spread(rest, RecordEnd(f), hi, f.depth) && Laminar(nested) && Laminar(rest)
    ensures Laminar([f] + nested + rest)
  {
    var fs := [f] + nested + rest;
    forall i, j | 0 <= i < j < |fs| ensures Precedes(fs[i], fs[j]) || NestedIn(fs[i], fs[j]) {
      if i > |nested| {
        assert fs[i] == rest[i - 1 - |nested|] && fs[j] == rest[j - 1 - |nested|];
      } else if 0 < i && j <= |nested| {
        assert fs[i] == nested[i - 1] && fs[j] == nested[j - 1];
      } else if j > |nested| {
        assert fs[j] == rest[j - 1 - |nested|];
      }
    }
  }

  /** The parent of record `j` is before it. */
  ghost predicate HasParent(fs: seq<FlatRecord>, j: nat)
    requires j < |fs|
  {
    exists i :: 0 <= i < j && fs[i].depth + 1 == fs[j].depth && NestedIn(fs[i], fs[j])
  }

  lemma ParentShifts(fs: seq<FlatRecord>, part: seq<FlatRecord>, d: nat, j: nat)
    requires j < |part| && d + |part| <= |fs| && fs[d..d + |part|] == part && HasParent(part, j)
    ensures HasParent(fs, d + j)
  {
    var i :| 0 <= i < j && part[i].depth + 1 == part[j].depth && NestedIn(part[i], part[j]);
    assert fs[d + i] == part[i] && fs[d + j] == part[j];
  }

  lemma FirstIsParent(fs: seq<FlatRecord>, j: nat)
    requires 0 < j < |fs| && fs[0].depth + 1 == fs[j].depth && NestedIn(fs[0], fs[j])
    ensures HasParent(fs, j)
  {
  }

  lemma SpreadAt(fs: seq<FlatRecord>, lo: int, hi: int, depth: nat, i: nat)
    requires Spread(fs, lo, hi, depth) && i < |fs|
    ensures Between(fs[i], lo, hi) && fs[i].depth >= depth
  {
  }

  lemma ParentsJoin(f: FlatRecord, nested: seq<FlatRecord>, rest: seq<FlatRecord>)
    requires Spread(nested, f.dataOff, DataEnd(f), f.depth + 1)
    requires HaveParents(nested, f.depth + 1) && HaveParents(rest, f.depth)
    ensures HaveParents([f] + nested + rest, f.depth)
  {
    hide HasParent, Spread, Between;
    var fs := [f] + nested + rest;
    assert fs[1..1 + |nested|] == nested;
    assert fs[1 + |nested|..1 + |nested| + |rest|] == rest;
    forall j | 0 <= j < |fs| && fs[j].depth != f.depth ensures HasParent(fs, j) {
      if j > |nested| {
        var k := j - 1 - |nested|;
        assert fs[j] == rest[k];
        ParentShifts(fs, rest, 1 + |nested|, k);
      } else {
        assert fs[0] == f && fs[j] == nested[j - 1];
        SpreadAt(nested, f.dataOff, DataEnd(f), f.depth + 1, j - 1);
        if fs[j].depth == f.depth + 1 {
          FirstIsParent(fs, j);
        } else {
          ParentShifts(fs, nested, 1, j - 1);
        }
      }
    }
  }

  lemma {:induction false} FlattenRecordsLaminar(t: Texts, buf: Bytes, rs: seq<NvarRecord>, base: nat, depth: nat, lo: nat, hi: nat)
    requires AllPlaced(buf, rs) && depth <= MAX_DEPTH && Ordered(rs, lo, hi)
    ensures var fs := FlattenRecords(t, buf, rs, base, depth);
      Laminar(fs) && Spread(fs, base + lo, base + hi, depth) && HaveParents(fs, depth)
    decreases MAX_DEPTH - depth, |rs|
  {
    hide ParseEntry, Walk, Laminar, Spread, HaveParents;
    if rs == [] {
      EmptyLaminar(base + lo, base + hi, depth);
    } else {
      var f := FlatRecord(Resolved(buf, rs[0]), depth, base + rs[0].dataOffset);
      var nested, rest := FlattenNested(t, buf, rs[0], base, depth), FlattenRecords(t, buf, rs[1..], base, depth);
      FlattenRecordsLaminar(t, buf, rs[1..], base, depth, EndOf(rs[0]), hi);
      EmptyLaminar(f.dataOff, DataEnd(f), depth + 1);
      if IsNested(t, buf, rs[0], depth) {
        var inner := DataOf(buf, rs[0]);
        WalkIsOrdered(t, inner);
        FlattenRecordsLaminar(t, inner, Walk(t, inner, 0), base + rs[0].dataOffset, depth + 1, 0, |inner|);
      }
      assert Between(f, base + lo, base + hi) && RecordEnd(f) == base + EndOf(rs[0]);
      SpreadJoin(f, nested, rest, base + lo, base + hi);
      LaminarJoin(f, nested, rest, base + lo, base + hi);
      ParentsJoin(f, nested, rest);
    }
  }

  lemma EmptyLaminar(lo: int, hi: int, depth: nat)
    ensures Laminar([]) && Spread([], lo, hi, depth) && HaveParents([], depth)
  {
  }

  /** All flattened data lies in the top buffer at depth at most MAX_DEPTH; two
      records are disjoint or the later one lies in the data of the earlier one;
      every nested record has a parent one level up that contains it whole. */
  lemma FlattenLaminar(t: Texts, buf: Bytes)
    ensures Laminar(Flatten(t, buf)) && Spread(Flatten(t, buf), 0, |buf|, 0) && HaveParents(Flatten(t, buf), 0)
  {
    WalkIsOrdered(t, buf);
    FlattenRecordsLaminar(t, buf, Walk(t, buf, 0), 0, 0, 0, |buf|);
  }

  // Looking a variable up

  datatype NvarError =
    | NotWritable
    | MutationBehindCompression
    | ValueOpUnsupported
    | AmbiguousName
    | OutOfBounds // the late check of the planned range
    | Panicked

  predicate Selects(f: FlatRecord, name: string, guid: Option<Bytes>) {
    f.record.name == Some(name) && (guid.Some? ==> f.record.guid == guid)
  }

  function Hits(fs: seq<FlatRecord>, name: string, guid: Option<Bytes>): seq<FlatRecord> {
    if fs == [] then []
    else (if Selects(fs[0], name, guid) then [fs[0]] else []) + Hits(fs[1..], name, guid)
  }

  function FindVar(t: Texts, buf: Bytes, name: string, guid: Option<Bytes>): Result<Option<FlatRecord>, NvarError> {
    var hits := Hits(Flatten(t, buf), name, guid);
    if |hits| == 0 then Ok(None)
    else if |hits| == 1 then Ok(Some(hits[0]))
    else Err(AmbiguousName)
  }

  ghost predicate NoMatch(fs: seq<FlatRecord>, name: string, guid: Option<Bytes>) {
    forall i :: 0 <= i < |fs| ==> !Selects(fs[i], name, guid)
  }

  ghost predicate OnlyMatch(fs: seq<FlatRecord>, name: string, guid: Option<Bytes>, i: int) {
    0 <= i < |fs| && Selects(fs[i], name, guid) && forall j :: 0 <= j < |fs| && j != i ==> !Selects(fs[j], name, guid)
  }

  lemma {:induction false} HitsNone(fs: seq<FlatRecord>, name: string, guid: Option<Bytes>)
    ensures Hits(fs, name, guid) == [] <==> NoMatch(fs, name, guid)
  {
    if fs != [] {
      HitsNone(fs[1..], name, guid);
      assert fs == [fs[0]] + fs[1..];
    }
  }

  lemma {:induction false} HitsOne(fs: seq<FlatRecord>, name: string, guid: Option<Bytes>) returns (i: int)
    requires |Hits(fs, name, guid)| == 1
    ensures OnlyMatch(fs, name, guid, i) && Hits(fs, name, guid) == [fs[i]]
  {
    assert fs == [fs[0]] + fs[1..];
    if Selects(fs[0], name, guid) {
      HitsNone(fs[1..], name, guid);
      i := 0;
    } else {
      i := HitsOne(fs[1..], name, guid);
      i := i + 1;
    }
  }

  lemma {:induction false} OneHit(fs: seq<FlatRecord>, name: string, guid: Option<Bytes>, i: int)
    requires OnlyMatch(fs, name, guid, i)
    ensures Hits(fs, name, guid) == [fs[i]]
  {
    if i == 0 {
      HitsNone(fs[1..], name, guid);
    } else {
      OneHit(fs[1..], name, guid, i - 1);
    }
  }

  /** The lookup finds a record exactly if it is the only match, finds nothing
      exactly if there is none, and otherwise fails. */
  lemma FindVarMeaning(t: Texts, buf: Bytes, name: string, guid: Option<Bytes>)
    ensures var fs, r := Flatten(t, buf), FindVar(t, buf, name, guid);
      && (r == Ok(None) <==> NoMatch(fs, name, guid))
      && (forall f :: r == Ok(Some(f)) <==> exists i :: OnlyMatch(fs, name, guid, i) && f == fs[i])
  {
    hide Flatten;
    var fs, r := Flatten(t, buf), FindVar(t, buf, name, guid);
    HitsNone(fs, name, guid);
    forall f ensures r == Ok(Some(f)) <==> exists i :: OnlyMatch(fs, name, guid, i) && f == fs[i] {
      if r == Ok(Some(f)) {
        var i := HitsOne(fs, name, guid);
      }
      if i :| OnlyMatch(fs, name, guid, i) && f == fs[i] {
        OneHit(fs, name, guid, i);
      }
    }
  }
}
