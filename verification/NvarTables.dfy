/** Flattening, told from what is written: records, stores nested in their data,
    and the GUID table at the end of every store, last GUID first. */
module NvarTables {
  import opened Results
  import opened Words
  import opened Ffs
  import opened NvarRecords
  import opened NvarFormat

  // The GUID table

  ghost predicate AllGuids(gs: seq<Bytes>) {
    forall i :: 0 <= i < |gs| ==> |gs[i]| == 16
  }

  /** The table grows towards the front: GUID 0 is at the very end. */
  function TableBytes(gs: seq<Bytes>): Bytes {
    if gs == [] then [] else TableBytes(gs[1..]) + gs[0]
  }

  /** All GUIDs that fit, counted from the end of the store. */
  function TableOf(b: Bytes): (gs: seq<Bytes>)
    decreases |b|
  {
    if |b| < 16 then [] else [b[|b| - 16..]] + TableOf(b[..|b| - 16])
  }

  /** A table that was written is read back, with whatever is in front of it. */
  lemma {:induction false} TableRoundTrip(front: Bytes, gs: seq<Bytes>)
    requires AllGuids(gs)
    ensures gs <= TableOf(front + TableBytes(gs))
    decreases |gs|
  {
    var b := front + TableBytes(gs);
    if gs != [] {
      TableRoundTrip(front, gs[1..]);
      assert b == (front + TableBytes(gs[1..])) + gs[0];
      assert b[|b| - 16..] == gs[0] && b[..|b| - 16] == front + TableBytes(gs[1..]);
      assert gs == [gs[0]] + gs[1..];
    }
  }

  lemma TableNext(b: Bytes)
    requires |b| >= 16
    ensures TableOf(b) == [b[|b| - 16..]] + TableOf(b[..|b| - 16])
  {
  }

  lemma {:induction false} TableLength(b: Bytes)
    ensures 16 * |TableOf(b)| <= |b| < 16 * (|TableOf(b)| + 1)
    decreases |b|
  {
    if |b| >= 16 {
      TableLength(b[..|b| - 16]);
    }
  }

  lemma {:induction false} TableAt(b: Bytes, k: nat)
    requires k < |TableOf(b)|
    ensures |b| >= 16 * (k + 1) && TableOf(b)[k] == b[|b| - 16 * (k + 1)..|b| - 16 * k]
    decreases k
  {
    hide TableOf;
    TableLength(b);
    TableNext(b);
    if k > 0 {
      TableAt(b[..|b| - 16], k - 1);
      PartOfPart(b, 0, |b| - 16, |b| - 16 * (k + 1), |b| - 16 * k);
      assert b[0..|b| - 16] == b[..|b| - 16];
    }
  }

  /** An index resolves to the GUID with that number in the table. */
  lemma ResolvedInTable(b: Bytes, k: nat)
    requires k < 0x100
    ensures ResolveGuid(b, k) == if k < |TableOf(b)| then Some(TableOf(b)[k]) else None
  {
    hide TableOf;
    TableLength(b);
    if k < |TableOf(b)| {
      TableAt(b, k);
    }
  }

  // Stores and what is nested in them

  /** A store: its bytes, the records in it, and for each record the store in its
      data, if there is one. */
  datatype StoreTree = StoreTree(bytes: Bytes, entries: seq<Entry>, inner: seq<Option<StoreTree>>)

  /** The records stand one behind the other in front of the store, no record
      follows, and each record's data holds the store that is said to be in it. */
  ghost predicate Describes(t: Texts, s: StoreTree, depth: nat)
    decreases s, 1
  {
    && AllWritable(s.entries) && |s.inner| == |s.entries|
    && Shows(s.bytes, 0, StoreBytes(s.entries)) && ParseEntry(t, s.bytes, |StoreBytes(s.entries)|).None?
    && forall i :: 0 <= i < |s.entries| ==> InnerFits(t, s.entries[i], s.inner[i], depth)
  }

  /** At most four levels down there is a store in the data exactly if a record
      starts there, and none further down. */
  ghost predicate InnerFits(t: Texts, e: Entry, inner: Option<StoreTree>, depth: nat)
    decreases inner, 0
  {
    match inner
    case Some(x) => depth < 4 && x.bytes == e.data && x.entries != [] && Describes(t, x, depth + 1)
    case None => depth >= 4 || ParseEntry(t, e.data, 0).None?
  }

  /** Every buffer is described by some tree of stores. */
  lemma {:induction false} EveryBufferIsDescribed(t: Texts, b: Bytes, depth: nat) returns (s: StoreTree)
    requires depth <= 4
    ensures s.bytes == b && Describes(t, s, depth)
    decreases 4 - depth, 1, 0
  {
    hide ParseEntry, InnerFits, Writable, Shows;
    var es, inner := DescribedFrom(t, b, 0, depth);
    s := StoreTree(b, es, inner);
  }

  lemma {:induction false} DescribedFrom(t: Texts, b: Bytes, off: nat, depth: nat) returns (es: seq<Entry>, inner: seq<Option<StoreTree>>)
    requires depth <= 4 && off <= |b|
    ensures AllWritable(es) && |inner| == |es| && Shows(b, off, StoreBytes(es)) && ParseEntry(t, b, off + |StoreBytes(es)|).None?
    ensures forall i :: 0 <= i < |es| ==> InnerFits(t, es[i], inner[i], depth)
    decreases 4 - depth, 0, |b| - off
  {
    hide ParseEntry, InnerFits, Writable, EntryBytes;
    if ParseEntry(t, b, off).None? {
      es, inner := [], [];
    } else {
      var e := EveryRecordIsWritten(t, b, off);
      WritableSize(e);
      WithinBuffer(b, off, e);
      var x := InnerOf(t, e, depth);
      var rest, restInner := DescribedFrom(t, b, off + SizeOf(e), depth);
      es, inner := [e] + rest, [x] + restInner;
      assert es[1..] == rest;
      assert StoreBytes(es) == EntryBytes(e) + StoreBytes(rest);
      ShowsBoth(b, off, EntryBytes(e), StoreBytes(rest));
    }
  }

  lemma ShowsBoth(b: Bytes, at: nat, x: Bytes, y: Bytes)
    requires Shows(b, at, x) && Shows(b, at + |x|, y)
    ensures Shows(b, at, x + y)
  {
    SplitAt(b, at, at + |x|, at + |x| + |y|);
  }

  lemma {:induction false} InnerOf(t: Texts, e: Entry, depth: nat) returns (x: Option<StoreTree>)
    requires depth <= 4
    ensures InnerFits(t, e, x, depth)
    decreases 4 - depth, 0, 0
  {
    hide ParseEntry, Shows, Writable;
    if depth < 4 && ParseEntry(t, e.data, 0).Some? {
      var s := EveryBufferIsDescribed(t, e.data, depth + 1);
      x := Some(s);
    } else {
      x := None;
    }
  }

  /** The index byte of a named record without a GUID of its own. */
  function IndexOf(e: Entry): Option<nat> {
    if Named(e.attributes) && !TestBit(e.attributes, 2) && |e.guidField| == 1 then Some(e.guidField[0]) else None
  }

  /** The GUID of a record: the one with its index, in the table of its own store. */
  function GuidOf(store: Bytes, e: Entry): Option<Bytes> {
    match IndexOf(e)
    case None => None
    case Some(k) => if k < |TableOf(store)| then Some(TableOf(store)[k]) else None
  }

  function PlaceOf(t: Texts, e: Entry, off: nat): nat {
    Expected(t, e, off).dataOffset
  }

  /** The record as it is flattened. */
  function FlatOf(t: Texts, store: Bytes, e: Entry, off: nat, base: nat, depth: nat): FlatRecord {
    FlatRecord(Expected(t, e, off).(guid := GuidOf(store, e)), depth, base + PlaceOf(t, e, off))
  }

  /** The records from number `i` on, the first of them at `off`: each one, then
      those of the store in its data. */
  function RecordsFrom(t: Texts, s: StoreTree, i: nat, off: nat, base: nat, depth: nat): seq<FlatRecord>
    requires i <= |s.entries|
    decreases s, |s.entries| - i, 1
  {
    if i == |s.entries| then []
    else
      var e := s.entries[i];
      [FlatOf(t, s.bytes, e, off, base, depth)] + InnerRecords(t, s, i, base + PlaceOf(t, e, off), depth)
      + RecordsFrom(t, s, i + 1, off + SizeOf(e), base, depth)
  }

  /** The records of the store in record `i`, whose data starts at `place`. */
  function InnerRecords(t: Texts, s: StoreTree, i: nat, place: nat, depth: nat): seq<FlatRecord>
    requires i < |s.entries|
    decreases s, |s.entries| - i, 0
  {
    if i < |s.inner| && s.inner[i].Some? then RecordsFrom(t, s.inner[i].value, 0, 0, place, depth + 1) else []
  }

  function AllRecords(t: Texts, s: StoreTree): seq<FlatRecord> {
    RecordsFrom(t, s, 0, 0, 0, 0)
  }

  lemma ResolvedRecord(t: Texts, b: Bytes, e: Entry, off: nat, base: nat, depth: nat)
    ensures FlatRecord(Resolved(b, Expected(t, e, off)), depth, base + Expected(t, e, off).dataOffset) == FlatOf(t, b, e, off, base, depth)
    ensures Expected(t, e, off).dataOffset == PlaceOf(t, e, off)
  {
    hide TestBit, Units, ResolveGuid, TableOf;
    if IndexOf(e).Some? {
      ResolvedInTable(b, IndexOf(e).value);
    }
  }

  lemma WritableSize(e: Entry)
    requires Writable(e)
    ensures SizeOf(e) < 0x1_0000
  {
  }

  lemma {:induction false} StoreBytesFrom(es: seq<Entry>, i: nat)
    requires AllWritable(es) && i < |es|
    ensures AllWritable(es[i..]) && StoreBytes(es[i..]) == EntryBytes(es[i]) + StoreBytes(es[i + 1..])
  {
    hide Writable, EntryBytes;
    assert es[i..][0] == es[i] && es[i..][1..] == es[i + 1..];
  }

  lemma WalkFrom(t: Texts, s: StoreTree, depth: nat, i: nat, off: nat)
    requires Describes(t, s, depth) && i <= |s.entries|
    requires Shows(s.bytes, off, StoreBytes(s.entries[i..])) && off + |StoreBytes(s.entries[i..])| == |StoreBytes(s.entries)|
    ensures Walk(t, s.bytes, off) == ExpectedWalk(t, s.entries[i..], off)
  {
    hide ParseEntry, Walk, ExpectedWalk, Writable, StoreBytes;
    WalkRoundTrip(t, s.bytes, off, s.entries[i..]);
  }

  /** The rest of a described store flattens to the records that it is made of. */
  lemma {:induction false} FlattenFrom(t: Texts, s: StoreTree, i: nat, off: nat, base: nat, depth: nat)
    requires depth <= 4 && Describes(t, s, depth) && i <= |s.entries|
    requires Shows(s.bytes, off, StoreBytes(s.entries[i..])) && off + |StoreBytes(s.entries[i..])| == |StoreBytes(s.entries)|
    ensures AllPlaced(s.bytes, Walk(t, s.bytes, off))
    ensures FlattenRecords(t, s.bytes, Walk(t, s.bytes, off), base, depth) == RecordsFrom(t, s, i, off, base, depth)
    decreases s, |s.entries| - i, 1
  {
    hide ParseEntry, Walk, Writable, StoreBytes, Shows, EntryBytes, Expected, SizeOf, Resolved, InnerFits,
      FlatOf, PlaceOf, RecordsFrom, InnerRecords, FlattenRecords, FlattenNested;
    RecordsNext(t, s, i, off, base, depth);
    WalkFrom(t, s, depth, i, off);
    WalkIsPlaced(t, s.bytes, off);
    if i < |s.entries| {
      var e := s.entries[i];
      var r := Expected(t, e, off);
      WritableSize(e);
      StoreBytesFrom(s.entries, i);
      ShowsParts(s.bytes, off, EntryBytes(e), StoreBytes(s.entries[i + 1..]));
      EntryRoundTrip(t, s.bytes, off, e);
      ExpectedSize(t, e, off);
      WalkFrom(t, s, depth, i + 1, off + SizeOf(e));
      WalkIsPlaced(t, s.bytes, off + SizeOf(e));
      assert Walk(t, s.bytes, off) == [r] + Walk(t, s.bytes, off + SizeOf(e)) by { WalkStep(t, s.bytes, off); }
      FlattenFrom(t, s, i + 1, off + SizeOf(e), base, depth);
      ResolvedRecord(t, s.bytes, e, off, base, depth);
      NestedFrom(t, s, i, off, base, depth);
      FlattenStep(t, s.bytes, r, Walk(t, s.bytes, off + SizeOf(e)), base, depth);
    } else {
      assert s.entries[i..] == [];
      assert Walk(t, s.bytes, off) == [] by { NothingExpected(t, off); }
      NothingFlattened(t, s.bytes, base, depth);
    }
  }

  lemma NothingFlattened(t: Texts, buf: Bytes, base: nat, depth: nat)
    requires depth <= MAX_DEPTH
    ensures FlattenRecords(t, buf, [], base, depth) == []
  {
  }

  lemma NothingExpected(t: Texts, off: nat)
    ensures ExpectedWalk(t, [], off) == []
  {
  }

  lemma WalkIsPlaced(t: Texts, buf: Bytes, off: nat)
    ensures AllPlaced(buf, Walk(t, buf, off))
  {
    hide ParseEntry, Walk;
  }

  lemma FlattenStep(t: Texts, buf: Bytes, r: NvarRecord, rest: seq<NvarRecord>, base: nat, depth: nat)
    requires AllPlaced(buf, [r] + rest) && depth <= MAX_DEPTH
    ensures AllPlaced(buf, rest) && Placed(buf, r)
    ensures FlattenRecords(t, buf, [r] + rest, base, depth) ==
            [FlatRecord(Resolved(buf, r), depth, base + r.dataOffset)] + FlattenNested(t, buf, r, base, depth)
            + FlattenRecords(t, buf, rest, base, depth)
  {
    hide ParseEntry, Walk, Resolved, FlattenNested;
    assert ([r] + rest)[0] == r && ([r] + rest)[1..] == rest;
    assert Placed(buf, ([r] + rest)[0]);
    forall i | 0 <= i < |rest| ensures Placed(buf, rest[i]) {
      assert rest[i] == ([r] + rest)[i + 1];
    }
  }

  /** What is nested in record `i`. */
  lemma {:induction false} NestedFrom(t: Texts, s: StoreTree, i: nat, off: nat, base: nat, depth: nat)
    requires depth <= 4 && Describes(t, s, depth) && i < |s.entries|
    requires var r := Expected(t, s.entries[i], off); Placed(s.bytes, r) && DataOf(s.bytes, r) == s.entries[i].data
    ensures FlattenNested(t, s.bytes, Expected(t, s.entries[i], off), base, depth) ==
            InnerRecords(t, s, i, base + PlaceOf(t, s.entries[i], off), depth)
    decreases s, |s.entries| - i, 0
  {
    hide ParseEntry, Walk, Writable, StoreBytes, Shows, Expected, RecordsFrom;
    var r := Expected(t, s.entries[i], off);
    if s.inner[i].Some? {
      var x := s.inner[i].value;
      assert x.entries[0..] == x.entries;
      StartsRecord(t, x, depth + 1);
      FlattenFrom(t, x, 0, 0, base + r.dataOffset, depth + 1);
    }
  }

  /** Where a store has records one starts at its front. */
  lemma StartsRecord(t: Texts, s: StoreTree, depth: nat)
    requires Describes(t, s, depth) && s.entries != []
    ensures ParseEntry(t, s.bytes, 0).Some? && |s.bytes| >= 10
  {
    hide ParseEntry, Writable, Shows, EntryBytes, Expected;
    assert s.entries[0..] == s.entries;
    WritableSize(s.entries[0]);
    StoreBytesFrom(s.entries, 0);
    ShowsParts(s.bytes, 0, EntryBytes(s.entries[0]), StoreBytes(s.entries[1..]));
    EntryRoundTrip(t, s.bytes, 0, s.entries[0]);
    ParsedIsPlaced(t, s.bytes);
  }

  lemma ParsedIsPlaced(t: Texts, b: Bytes)
    requires ParseEntry(t, b, 0).Some?
    ensures |b| >= 10
  {
    hide TestBit, NameField, GuidField, Le16, ExtendedSize, FromUint24;
  }

  /** A described store flattens to its records and, behind each, those of the store
      in its data, down to four levels; every indexed record with the GUID that the
      table at the end of its own store has under that number. */
  lemma FlattenMeaning(t: Texts, s: StoreTree)
    requires Describes(t, s, 0)
    ensures Flatten(t, s.bytes) == AllRecords(t, s)
  {
    hide ParseEntry, Walk, Writable, StoreBytes, Shows, RecordsFrom;
    assert s.entries[0..] == s.entries;
    FlattenFrom(t, s, 0, 0, 0, 0);
  }

  // Looking a variable up

  type RecordPath = seq<nat>

  /** The path leads, store by store, to a record of that name and, if a GUID is
      given, with an index that stands for it in the table of its own store. */
  predicate HasVar(t: Texts, s: StoreTree, path: RecordPath, name: string, g: Option<Bytes>)
    decreases |path|
  {
    && path != [] && path[0] < |s.entries|
    && var e := s.entries[path[0]];
      if |path| == 1 then
        && Expected(t, e, 0).name == Some(name)
        && (g.Some? ==> IndexOf(e).Some? && IndexOf(e).value < |TableOf(s.bytes)| && TableOf(s.bytes)[IndexOf(e).value] == g.value)
      else path[0] < |s.inner| && s.inner[path[0]].Some? && HasVar(t, s.inner[path[0]].value, path[1..], name, g)
  }

  /** Where record `i` starts in its store. */
  function StartOf(es: seq<Entry>, i: nat): nat
    requires i <= |es|
  {
    if i == 0 then 0 else StartOf(es, i - 1) + SizeOf(es[i - 1])
  }

  /** Where the data of the record at the path starts in the top store. */
  function DataAt(t: Texts, s: StoreTree, path: RecordPath): nat
    decreases |path|
  {
    if path == [] || path[0] >= |s.entries| then 0
    else
      PlaceOf(t, s.entries[path[0]], StartOf(s.entries, path[0]))
      + if |path| > 1 && path[0] < |s.inner| && s.inner[path[0]].Some? then DataAt(t, s.inner[path[0]].value, path[1..]) else 0
  }

  function Under(i: nat, paths: seq<RecordPath>): (r: seq<RecordPath>)
    ensures |r| == |paths| && forall j :: 0 <= j < |r| ==> r[j] == [i] + paths[j]
  {
    seq(|paths|, j requires 0 <= j < |paths| => [i] + paths[j])
  }

  /** The paths of the records, in the order of flattening. */
  function PathsFrom(s: StoreTree, i: nat): seq<RecordPath>
    requires i <= |s.entries|
    decreases s, |s.entries| - i
  {
    if i == |s.entries| then []
    else
      [[i]] + (if i < |s.inner| && s.inner[i].Some? then Under(i, PathsFrom(s.inner[i].value, 0)) else []) + PathsFrom(s, i + 1)
  }

  /** The flattened record `j` is the one at path `j`, with its GUID and place. */
  ghost predicate RecordAt(t: Texts, s: StoreTree, base: nat, f: FlatRecord, path: RecordPath) {
    && path != []
    && f.dataOff == base + DataAt(t, s, path)
    && forall name, g :: Selects(f, name, g) <==> HasVar(t, s, path, name, g)
  }

  lemma OwnRecord(t: Texts, s: StoreTree, i: nat, base: nat, depth: nat)
    requires i < |s.entries|
    ensures var e, off := s.entries[i], StartOf(s.entries, i);
      RecordAt(t, s, base, FlatOf(t, s.bytes, e, off, base, depth), [i])
  {
    hide TestBit, Units, TableOf, Expected, StartOf, PlaceOf, GuidOf, IndexOf;
    var e, off := s.entries[i], StartOf(s.entries, i);
    var f := FlatOf(t, s.bytes, e, off, base, depth);
    SameName(t, e, off);
    assert DataAt(t, s, [i]) == PlaceOf(t, e, off);
    forall name, g ensures Selects(f, name, g) <==> HasVar(t, s, [i], name, g) {
      if g.Some? {
        GuidIs(s.bytes, e, g.value);
      }
    }
  }

  lemma SameName(t: Texts, e: Entry, off: nat)
    ensures Expected(t, e, off).name == Expected(t, e, 0).name
  {
    hide TestBit, Units;
  }

  lemma GuidIs(store: Bytes, e: Entry, g: Bytes)
    ensures GuidOf(store, e) == Some(g) <==>
            IndexOf(e).Some? && IndexOf(e).value < |TableOf(store)| && TableOf(store)[IndexOf(e).value] == g
  {
    hide TableOf, IndexOf;
  }

  lemma VarInside(t: Texts, s: StoreTree, path: RecordPath, name: string, g: Option<Bytes>)
    requires |path| > 1
    ensures HasVar(t, s, path, name, g) <==>
            path[0] < |s.entries| && path[0] < |s.inner| && s.inner[path[0]].Some? && HasVar(t, s.inner[path[0]].value, path[1..], name, g)
  {
    hide Expected, TableOf, IndexOf;
  }

  lemma DataInside(t: Texts, s: StoreTree, path: RecordPath)
    requires |path| > 1 && path[0] < |s.entries| && path[0] < |s.inner| && s.inner[path[0]].Some?
    ensures DataAt(t, s, path) ==
            PlaceOf(t, s.entries[path[0]], StartOf(s.entries, path[0])) + DataAt(t, s.inner[path[0]].value, path[1..])
  {
    hide PlaceOf, StartOf;
  }

  lemma NestedRecord(t: Texts, s: StoreTree, i: nat, base: nat, f: FlatRecord, path: RecordPath)
    requires i < |s.entries| && i < |s.inner| && s.inner[i].Some?
    requires RecordAt(t, s.inner[i].value, base + PlaceOf(t, s.entries[i], StartOf(s.entries, i)), f, path)
    ensures RecordAt(t, s, base, f, [i] + path)
  {
    hide HasVar, DataAt, Selects, PlaceOf, StartOf;
    var x, more := s.inner[i].value, [i] + path;
    assert more[1..] == path;
    assert DataAt(t, s, more) == PlaceOf(t, s.entries[i], StartOf(s.entries, i)) + DataAt(t, x, path) by { DataInside(t, s, more); }
    forall name, g ensures HasVar(t, s, more, name, g) <==> HasVar(t, x, path, name, g) {
      VarInside(t, s, more, name, g);
    }
  }

  ghost predicate AllAt(t: Texts, s: StoreTree, base: nat, fs: seq<FlatRecord>, ps: seq<RecordPath>) {
    |fs| == |ps| && forall j :: 0 <= j < |fs| ==> RecordAt(t, s, base, fs[j], ps[j])
  }

  lemma AllJoined(t: Texts, s: StoreTree, base: nat, fs: seq<FlatRecord>, ps: seq<RecordPath>, gs: seq<FlatRecord>, qs: seq<RecordPath>)
    requires AllAt(t, s, base, fs, ps) && AllAt(t, s, base, gs, qs)
    ensures AllAt(t, s, base, fs + gs, ps + qs)
  {
    hide RecordAt;
  }

  lemma AllUnder(t: Texts, s: StoreTree, i: nat, base: nat, fs: seq<FlatRecord>, ps: seq<RecordPath>)
    requires i < |s.entries| && i < |s.inner| && s.inner[i].Some?
    requires AllAt(t, s.inner[i].value, base + PlaceOf(t, s.entries[i], StartOf(s.entries, i)), fs, ps)
    ensures AllAt(t, s, base, fs, Under(i, ps))
  {
    hide RecordAt, PlaceOf;
    forall j | 0 <= j < |fs| ensures RecordAt(t, s, base, fs[j], Under(i, ps)[j]) {
      NestedRecord(t, s, i, base, fs[j], ps[j]);
    }
  }

  lemma RecordsNext(t: Texts, s: StoreTree, i: nat, off: nat, base: nat, depth: nat)
    requires i <= |s.entries|
    ensures i == |s.entries| ==> RecordsFrom(t, s, i, off, base, depth) == []
    ensures i < |s.entries| ==>
              var e := s.entries[i];
              RecordsFrom(t, s, i, off, base, depth) ==
              [FlatOf(t, s.bytes, e, off, base, depth)] + InnerRecords(t, s, i, base + PlaceOf(t, e, off), depth)
              + RecordsFrom(t, s, i + 1, off + SizeOf(e), base, depth)
  {
    hide FlatOf, PlaceOf, SizeOf, InnerRecords;
  }

  lemma PathsNext(s: StoreTree, i: nat)
    requires i <= |s.entries|
    ensures i == |s.entries| ==> PathsFrom(s, i) == []
    ensures i < |s.entries| ==>
              PathsFrom(s, i) ==
              [[i]] + (if i < |s.inner| && s.inner[i].Some? then Under(i, PathsFrom(s.inner[i].value, 0)) else []) + PathsFrom(s, i + 1)
  {
  }

  lemma {:induction false} RecordsAtPaths(t: Texts, s: StoreTree, i: nat, base: nat, depth: nat)
    requires i <= |s.entries|
    ensures AllAt(t, s, base, RecordsFrom(t, s, i, StartOf(s.entries, i), base, depth), PathsFrom(s, i))
    decreases s, |s.entries| - i
  {
    hide FlatOf, RecordAt, PlaceOf, SizeOf, AllAt, RecordsFrom, PathsFrom;
    RecordsNext(t, s, i, StartOf(s.entries, i), base, depth);
    PathsNext(s, i);
    if i == |s.entries| {
      NothingAt(t, s, base);
    } else {
      var e, off := s.entries[i], StartOf(s.entries, i);
      var f := FlatOf(t, s.bytes, e, off, base, depth);
      OwnRecord(t, s, i, base, depth);
      OneAt(t, s, base, f, [i]);
      RecordsAtPaths(t, s, i + 1, base, depth);
      var rest, paths := RecordsFrom(t, s, i + 1, off + SizeOf(e), base, depth), PathsFrom(s, i + 1);
      if i < |s.inner| && s.inner[i].Some? {
        var x, place := s.inner[i].value, base + PlaceOf(t, e, off);
        RecordsAtPaths(t, x, 0, place, depth + 1);
        AllUnder(t, s, i, base, RecordsFrom(t, x, 0, 0, place, depth + 1), PathsFrom(x, 0));
        AllJoined(t, s, base, [f], [[i]], RecordsFrom(t, x, 0, 0, place, depth + 1), Under(i, PathsFrom(x, 0)));
        AllJoined(t, s, base, [f] + RecordsFrom(t, x, 0, 0, place, depth + 1), [[i]] + Under(i, PathsFrom(x, 0)), rest, paths);
      } else {
        AllJoined(t, s, base, [f], [[i]], rest, paths);
        assert [f] + [] == [f];
        assert [[i]] + [] == [[i]];
      }
    }
  }

  lemma NothingAt(t: Texts, s: StoreTree, base: nat)
    ensures AllAt(t, s, base, [], [])
  {
  }

  lemma OneAt(t: Texts, s: StoreTree, base: nat, f: FlatRecord, path: RecordPath)
    requires RecordAt(t, s, base, f, path)
    ensures AllAt(t, s, base, [f], [path])
  {
    hide RecordAt;
  }

  lemma {:induction false} PathListed(t: Texts, s: StoreTree, i: nat, path: RecordPath, name: string, g: Option<Bytes>) returns (j: nat)
    requires path != [] && i <= path[0] < |s.entries| && HasVar(t, s, path, name, g)
    ensures j < |PathsFrom(s, i)| && PathsFrom(s, i)[j] == path
    decreases s, |s.entries| - i
  {
    hide HasVar, PathsFrom;
    PathIsNotEmpty(t, s, path, name, g);
    PathsNext(s, i);
    if path == [i] {
      j := 0;
    } else if path[0] == i {
      assert path == [i] + path[1..];
      VarInside(t, s, path, name, g);
      PathIsNotEmpty(t, s.inner[i].value, path[1..], name, g);
      var k := PathListed(t, s.inner[i].value, 0, path[1..], name, g);
      j := 1 + k;
    } else {
      var k := PathListed(t, s, i + 1, path, name, g);
      j := |PathsFrom(s, i)| - |PathsFrom(s, i + 1)| + k;
    }
  }

  lemma {:induction false} PathsAreDistinct(s: StoreTree, i: nat)
    requires i <= |s.entries|
    ensures forall j :: 0 <= j < |PathsFrom(s, i)| ==> PathsFrom(s, i)[j] != [] && PathsFrom(s, i)[j][0] >= i
    ensures forall j, k :: 0 <= j < k < |PathsFrom(s, i)| ==> PathsFrom(s, i)[j] != PathsFrom(s, i)[k]
    decreases s, |s.entries| - i
  {
    if i < |s.entries| {
      PathsAreDistinct(s, i + 1);
      if i < |s.inner| && s.inner[i].Some? {
        PathsAreDistinct(s.inner[i].value, 0);
        UnderDistinct(i, PathsFrom(s.inner[i].value, 0));
      }
    }
  }

  lemma UnderDistinct(i: nat, paths: seq<RecordPath>)
    requires forall j :: 0 <= j < |paths| ==> paths[j] != []
    requires forall j, k :: 0 <= j < k < |paths| ==> paths[j] != paths[k]
    ensures forall j :: 0 <= j < |paths| ==> |Under(i, paths)[j]| > 1 && Under(i, paths)[j][0] == i
    ensures forall j, k :: 0 <= j < k < |paths| ==> Under(i, paths)[j] != Under(i, paths)[k]
  {
    forall j, k | 0 <= j < k < |paths| ensures Under(i, paths)[j] != Under(i, paths)[k] {
      assert Under(i, paths)[j][1..] == paths[j] && Under(i, paths)[k][1..] == paths[k];
    }
  }

  /** No other path leads to such a record. */
  ghost predicate OnlyVar(t: Texts, s: StoreTree, path: RecordPath, name: string, g: Option<Bytes>) {
    HasVar(t, s, path, name, g) && forall other :: HasVar(t, s, other, name, g) ==> other == path
  }

  ghost predicate NoVar(t: Texts, s: StoreTree, name: string, g: Option<Bytes>) {
    forall path :: !HasVar(t, s, path, name, g)
  }

  /** A lookup finds a variable exactly if there is one record of that name, in the
      store or nested in it, and with that GUID, if one is given: its index is that of
      the GUID in the table of its own store. What is found has that record's data.
      Nothing is found exactly if there is no such record; several are ambiguous. */
  lemma FindByRecords(t: Texts, s: StoreTree, name: string, g: Option<Bytes>)
    requires Describes(t, s, 0)
    ensures FindVar(t, s.bytes, name, g) == Ok(None) <==> NoVar(t, s, name, g)
    ensures FindVar(t, s.bytes, name, g).Err? ==> FindVar(t, s.bytes, name, g).error == AmbiguousName
    ensures forall f :: FindVar(t, s.bytes, name, g) == Ok(Some(f)) ==> exists path :: OnlyVar(t, s, path, name, g)
    ensures forall path :: OnlyVar(t, s, path, name, g) ==>
              var r := FindVar(t, s.bytes, name, g);
              r.Ok? && r.value.Some? && r.value.value.dataOff == DataAt(t, s, path)
  {
    hide HasVar, Flatten, Describes, RecordsFrom, PathsFrom, Selects, DataAt, FindVar;
    var fs, ps := AllRecords(t, s), PathsFrom(s, 0);
    FlattenMeaning(t, s);
    FindVarMeaning(t, s.bytes, name, g);
    MatchesAreVars(t, s, name, g);
    OnlyAmbiguous(t, s.bytes, name, g);
    if !NoVar(t, s, name, g) {
      var path :| HasVar(t, s, path, name, g);
      var j := VarIsMatch(t, s, path, name, g);
      assert !NoMatch(fs, name, g);
    }
    forall f | FindVar(t, s.bytes, name, g) == Ok(Some(f)) ensures exists path :: OnlyVar(t, s, path, name, g) {
      var i :| OnlyMatch(fs, name, g, i) && f == fs[i];
      forall other | HasVar(t, s, other, name, g) ensures other == ps[i] {
        var j := VarIsMatch(t, s, other, name, g);
      }
      assert OnlyVar(t, s, ps[i], name, g);
    }
    forall path | OnlyVar(t, s, path, name, g)
      ensures var r := FindVar(t, s.bytes, name, g); r.Ok? && r.value.Some? && r.value.value.dataOff == DataAt(t, s, path)
    {
      var j := VarIsMatch(t, s, path, name, g);
      PathsAreDistinct(s, 0);
      assert OnlyMatch(fs, name, g, j);
      assert FindVar(t, s.bytes, name, g) == Ok(Some(fs[j]));
    }
  }

  lemma OnlyAmbiguous(t: Texts, b: Bytes, name: string, g: Option<Bytes>)
    ensures FindVar(t, b, name, g).Err? ==> FindVar(t, b, name, g).error == AmbiguousName
  {
    hide Flatten, Hits;
  }

  lemma MatchesAreVars(t: Texts, s: StoreTree, name: string, g: Option<Bytes>)
    ensures var fs, ps := AllRecords(t, s), PathsFrom(s, 0);
      |fs| == |ps| && forall j :: 0 <= j < |fs| ==> (Selects(fs[j], name, g) <==> HasVar(t, s, ps[j], name, g)) && fs[j].dataOff == DataAt(t, s, ps[j])
  {
    hide HasVar, RecordsFrom, PathsFrom, Selects, DataAt;
    RecordsAtPaths(t, s, 0, 0, 0);
    var fs, ps := AllRecords(t, s), PathsFrom(s, 0);
    forall j | 0 <= j < |fs| ensures (Selects(fs[j], name, g) <==> HasVar(t, s, ps[j], name, g)) && fs[j].dataOff == DataAt(t, s, ps[j]) {
      assert RecordAt(t, s, 0, fs[j], ps[j]);
    }
  }

  lemma VarIsMatch(t: Texts, s: StoreTree, path: RecordPath, name: string, g: Option<Bytes>) returns (j: nat)
    requires HasVar(t, s, path, name, g)
    ensures j < |AllRecords(t, s)| == |PathsFrom(s, 0)| && PathsFrom(s, 0)[j] == path
    ensures Selects(AllRecords(t, s)[j], name, g) && AllRecords(t, s)[j].dataOff == DataAt(t, s, path)
  {
    hide HasVar, RecordsFrom, PathsFrom, Selects, DataAt;
    MatchesAreVars(t, s, name, g);
    PathIsNotEmpty(t, s, path, name, g);
    j := PathListed(t, s, 0, path, name, g);
  }

  lemma PathIsNotEmpty(t: Texts, s: StoreTree, path: RecordPath, name: string, g: Option<Bytes>)
    requires HasVar(t, s, path, name, g)
    ensures path != [] && path[0] < |s.entries|
  {
    hide Expected, TableOf, IndexOf;
  }

  // A written store

  lemma {:induction false} InnersOf(t: Texts, es: seq<Entry>, depth: nat) returns (inner: seq<Option<StoreTree>>)
    requires depth <= 4
    ensures |inner| == |es| && forall i :: 0 <= i < |es| ==> InnerFits(t, es[i], inner[i], depth)
  {
    hide InnerFits;
    if es == [] {
      inner := [];
    } else {
      var x := InnerOf(t, es[0], depth);
      var rest := InnersOf(t, es[1..], depth);
      inner := [x] + rest;
    }
  }

  /** Any records, then anything in which no record starts, then any table: a lookup
      sees the record `i` of index `k` under the name that it has and under the GUID
      that was written as number `k`. */
  lemma WrittenStore(t: Texts, es: seq<Entry>, filler: Bytes, gs: seq<Bytes>) returns (s: StoreTree)
    requires AllWritable(es) && AllGuids(gs)
    requires ParseEntry(t, StoreBytes(es) + filler + TableBytes(gs), |StoreBytes(es)|).None?
    ensures s.bytes == StoreBytes(es) + filler + TableBytes(gs) && s.entries == es && Describes(t, s, 0)
    ensures forall i, name, g :: 0 <= i < |es| && IndexOf(es[i]).Some? && IndexOf(es[i]).value < |gs| ==>
              (HasVar(t, s, [i], name, Some(g)) <==> Expected(t, es[i], 0).name == Some(name) && gs[IndexOf(es[i]).value] == g)
  {
    hide ParseEntry, InnerFits, AllWritable, Expected, IndexOf, TableOf, TableBytes, StoreBytes;
    var b := StoreBytes(es) + filler + TableBytes(gs);
    var inner := InnersOf(t, es, 0);
    s := StoreTree(b, es, inner);
    assert Shows(b, 0, StoreBytes(es));
    TableRoundTrip(StoreBytes(es) + filler, gs);
  }
}
