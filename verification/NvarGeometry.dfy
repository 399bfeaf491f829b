/** Writing into the data of a record keeps the records of every enclosing
    buffer, but for records whose extended header is announced and absent. */
module NvarGeometry {
  import opened Words
  import opened Ffs
  import opened NvarRecords

  ghost predicate Agree(a: Bytes, b: Bytes, lo: int, hi: int) {
    |a| == |b| && forall k :: 0 <= lo <= k < hi <= |a| ==> a[k] == b[k]
  }

  lemma {:induction false} FirstZeroAgrees(a: Bytes, b: Bytes, p: nat, end: nat)
    requires p <= end <= |a| == |b|
    requires Agree(a, b, p, if FirstZero(a, p, end).Some? then FirstZero(a, p, end).value + 1 else end)
    ensures FirstZero(b, p, end) == FirstZero(a, p, end)
    decreases end - p
  {
    if p < end && a[p] != 0 {
      FirstZeroAgrees(a, b, p + 1, end);
    }
  }

  lemma {:induction false} WideEndAgrees(a: Bytes, b: Bytes, p: nat, end: nat)
    requires p <= end <= |a| == |b|
    requires var e := WideEnd(a, p, end); Agree(a, b, p, if e + 2 <= end then e + 2 else end)
    ensures WideEnd(b, p, end) == WideEnd(a, p, end)
    decreases end - p
  {
    if p + 1 < end && !(a[p] == 0 && a[p + 1] == 0) {
      WideEndAgrees(a, b, p + 2, end);
    }
  }

  lemma NameAgrees(t: Texts, a: Bytes, b: Bytes, attributes: U8, p: nat, end: nat)
    requires p <= end <= |a| == |b|
    requires var n := NameField(t, a, attributes, p, end); Agree(a, b, p, if n.Some? then n.value.1 else end)
    ensures NameField(t, b, attributes, p, end) == NameField(t, a, attributes, p, end)
  {
    hide TestBit, FirstZero, WideEnd, Units;
    if Named(attributes) {
      if TestBit(attributes, 1) {
        var z := FirstZero(a, p, end);
        FirstZeroAgrees(a, b, p, end);
        if z.Some? {
          assert b[p..z.value] == a[p..z.value];
        }
      } else {
        var e := WideEnd(a, p, end);
        WideEndAgrees(a, b, p, end);
        assert b[p..e] == a[p..e];
      }
    }
  }

  /** The record announces an extended header, its size is ignored in the old
      bytes, and the new bytes make it a size that counts. */
  predicate Exposed(r: NvarRecord, b: Bytes)
    requires Placed(b, r)
  {
    && TestBit(r.attributes, 4) && r.size > 14 && r.extendedSize == 0
    && 3 <= Le16(b[EndOf(r) - 2], b[EndOf(r) - 1]) <= r.size - 10
  }

  /** No bytes of the record but its data differ. */
  ghost predicate OnlyData(a: Bytes, b: Bytes, r: NvarRecord) {
    |a| == |b| && Agree(a, b, r.offset, r.dataOffset) && Agree(a, b, r.dataOffset + r.dataLen, EndOf(r))
  }

  lemma HeadAgrees(a: Bytes, b: Bytes, off: nat)
    requires off + 10 <= |a| && Agree(a, b, off, off + 10)
    ensures b[off..off + 4] == a[off..off + 4] && b[off + 4] == a[off + 4] && b[off + 5] == a[off + 5]
    ensures b[off + 6..off + 9] == a[off + 6..off + 9] && b[off + 9] == a[off + 9]
  {
  }

  /** Changed data leaves the parsed record as it was exactly if it does not
      expose an ignored extended size. */
  lemma EntryKept(t: Texts, a: Bytes, b: Bytes, off: nat)
    requires ParseEntry(t, a, off).Some? && OnlyData(a, b, ParseEntry(t, a, off).value)
    ensures ParseEntry(t, b, off) == ParseEntry(t, a, off) <==> !Exposed(ParseEntry(t, a, off).value, b)
  {
    hide TestBit, NameField, FromUint24, Le16;
    var r := ParseEntry(t, a, off).value;
    HeadAgrees(a, b, off);
    var attributes, end := r.attributes, EndOf(r);
    var g := GuidField(a, attributes, off + 10, end);
    var name := NameField(t, a, attributes, g.value.1, end);
    assert r.dataOffset == name.value.1;
    NameAgrees(t, a, b, attributes, g.value.1, end);
    assert GuidField(b, attributes, off + 10, end) == g;
    if TestBit(attributes, 4) && r.size > 14 && r.extendedSize > 0 {
      assert b[end - 2] == a[end - 2] && b[end - 1] == a[end - 1];
    }
  }

  /** What is read at a place depends on the bytes from there on only. */
  lemma EntryLocal(t: Texts, a: Bytes, b: Bytes, off: nat)
    requires Agree(a, b, off, |a|)
    ensures ParseEntry(t, b, off) == ParseEntry(t, a, off)
  {
    hide TestBit, NameField, FromUint24, Le16;
    if off + 6 <= |a| {
      assert b[off..off + 4] == a[off..off + 4];
      var size: nat := Le16(a[off + 4], a[off + 5]);
      if 10 <= size <= |a| - off {
        HeadAgrees(a, b, off);
        var attributes, end := a[off + 9], off + size;
        var g := GuidField(a, attributes, off + 10, end);
        if g.Some? {
          NameAgrees(t, a, b, attributes, g.value.1, end);
        }
      }
    } else if off + 4 <= |a| {
      assert b[off..off + 4] == a[off..off + 4];
    }
  }

  lemma {:induction false} WalkLocal(t: Texts, a: Bytes, b: Bytes, off: nat)
    requires Agree(a, b, off, |a|)
    ensures Walk(t, b, off) == Walk(t, a, off)
    decreases if off <= |a| then |a| - off else 0
  {
    hide ParseEntry;
    EntryLocal(t, a, b, off);
    if ParseEntry(t, a, off).Some? {
      WalkLocal(t, a, b, off + ParseEntry(t, a, off).value.size);
    }
  }

  /** Nothing but the data of `r` differs. */
  ghost predicate DiffersIn(a: Bytes, b: Bytes, r: NvarRecord) {
    |a| == |b| && Agree(a, b, 0, r.dataOffset) && Agree(a, b, r.dataOffset + r.dataLen, |a|)
  }

  /** Walks from one place agree if the first records agree and what follows. */
  lemma WalksDiffer(t: Texts, a: Bytes, b: Bytes, off: nat)
    requires ParseEntry(t, a, off).Some? && |a| == |b|
    ensures var next := off + ParseEntry(t, a, off).value.size;
      Walk(t, b, off) == Walk(t, a, off) <==> ParseEntry(t, b, off) == ParseEntry(t, a, off) && Walk(t, b, next) == Walk(t, a, next)
  {
    hide ParseEntry, Walk;
    WalkStep(t, a, off);
    WalkStep(t, b, off);
    var next := off + ParseEntry(t, a, off).value.size;
    if Walk(t, b, off) == Walk(t, a, off) {
      assert Walk(t, b, off)[0] == Walk(t, a, off)[0] && Walk(t, b, off)[1..] == Walk(t, a, off)[1..];
    }
  }

  lemma {:induction false} WalkKept(t: Texts, a: Bytes, b: Bytes, off: nat, k: nat)
    requires k < |Walk(t, a, off)| && DiffersIn(a, b, Walk(t, a, off)[k])
    ensures Walk(t, b, off) == Walk(t, a, off) <==> !Exposed(Walk(t, a, off)[k], b)
    decreases k
  {
    hide ParseEntry, Walk, Exposed;
    WalkStep(t, a, off);
    WalksDiffer(t, a, b, off);
    var r, first := Walk(t, a, off)[k], Walk(t, a, off)[0];
    var next := off + first.size;
    if k == 0 {
      EntryKept(t, a, b, off);
      WalkLocal(t, a, b, next);
    } else {
      WalkOrdered(t, a, off, 0, k);
      EntrySame(t, a, b, off, r);
      WalkKept(t, a, b, next, k - 1);
    }
  }

  /** A record in front of the changed one is read as before. */
  lemma EntrySame(t: Texts, a: Bytes, b: Bytes, off: nat, r: NvarRecord)
    requires ParseEntry(t, a, off).Some? && DiffersIn(a, b, r) && Placed(a, r)
    requires EndOf(ParseEntry(t, a, off).value) <= r.offset
    ensures ParseEntry(t, b, off) == ParseEntry(t, a, off)
  {
    hide TestBit, Le16;
    var e := ParseEntry(t, a, off).value;
    EntryKept(t, a, b, off);
    NotExposed(t, a, off);
    assert b[EndOf(e) - 2] == a[EndOf(e) - 2] && b[EndOf(e) - 1] == a[EndOf(e) - 1];
  }

  lemma NotExposed(t: Texts, a: Bytes, off: nat)
    requires ParseEntry(t, a, off).Some?
    ensures !Exposed(ParseEntry(t, a, off).value, a)
  {
    hide TestBit, Le16, NameField;
  }

  // From the store down to the record

  /** `at` leads to the flattened record: record indices, one per level. */
  ghost predicate Leads(t: Texts, buf: Bytes, base: nat, depth: nat, at: seq<nat>, f: FlatRecord)
    decreases |at|
  {
    && at != [] && at[0] < |Walk(t, buf, 0)|
    && var r := Walk(t, buf, 0)[at[0]];
      if |at| == 1 then f == FlatRecord(Resolved(buf, r), depth, base + r.dataOffset)
      else IsNested(t, buf, r, depth) && Leads(t, DataOf(buf, r), base + r.dataOffset, depth + 1, at[1..], f)
  }

  /** Every flattened record is led to. */
  lemma FlatLeads(t: Texts, buf: Bytes, base: nat, depth: nat, f: FlatRecord) returns (at: seq<nat>)
    requires depth <= MAX_DEPTH && f in FlattenRecords(t, buf, Walk(t, buf, 0), base, depth)
    ensures Leads(t, buf, base, depth, at, f)
    decreases MAX_DEPTH - depth, |Walk(t, buf, 0)| + 1
  {
    var rs := Walk(t, buf, 0);
    assert rs[0..] == rs;
    at := FlatLeadsFrom(t, buf, base, depth, f, 0);
  }

  lemma FlattenUnfold(t: Texts, buf: Bytes, rs: seq<NvarRecord>, base: nat, depth: nat, k: nat)
    requires AllPlaced(buf, rs) && depth <= MAX_DEPTH && k <= |rs|
    ensures k == |rs| ==> FlattenRecords(t, buf, rs[k..], base, depth) == []
    ensures k < |rs| ==> Placed(buf, rs[k])
    ensures k < |rs| ==>
              (FlattenRecords(t, buf, rs[k..], base, depth) ==
               [FlatRecord(Resolved(buf, rs[k]), depth, base + rs[k].dataOffset)] + FlattenNested(t, buf, rs[k], base, depth)
               + FlattenRecords(t, buf, rs[k + 1..], base, depth))
  {
    hide FlattenNested, Resolved;
    if k < |rs| {
      assert rs[k..][0] == rs[k] && rs[k..][1..] == rs[k + 1..];
    }
  }

  lemma NestedUnfold(t: Texts, buf: Bytes, r: NvarRecord, base: nat, depth: nat)
    requires Placed(buf, r) && depth <= MAX_DEPTH && FlattenNested(t, buf, r, base, depth) != []
    ensures IsNested(t, buf, r, depth)
    ensures FlattenNested(t, buf, r, base, depth) ==
            FlattenRecords(t, DataOf(buf, r), Walk(t, DataOf(buf, r), 0), base + r.dataOffset, depth + 1)
  {
    hide ParseEntry, Walk, FlattenRecords;
  }

  lemma {:induction false} FlatLeadsFrom(t: Texts, buf: Bytes, base: nat, depth: nat, f: FlatRecord, k: nat) returns (at: seq<nat>)
    requires depth <= MAX_DEPTH && k <= |Walk(t, buf, 0)|
    requires f in FlattenRecords(t, buf, Walk(t, buf, 0)[k..], base, depth)
    ensures Leads(t, buf, base, depth, at, f)
    decreases MAX_DEPTH - depth, |Walk(t, buf, 0)| - k
  {
    hide ParseEntry, Walk, FlattenRecords, FlattenNested, Resolved;
    var rs := Walk(t, buf, 0);
    FlattenUnfold(t, buf, rs, base, depth, k);
    var r := rs[k];
    if f == FlatRecord(Resolved(buf, r), depth, base + r.dataOffset) {
      at := [k];
    } else if f in FlattenNested(t, buf, r, base, depth) {
      NestedUnfold(t, buf, r, base, depth);
      var rest := FlatLeads(t, DataOf(buf, r), base + r.dataOffset, depth + 1, f);
      at := [k] + rest;
      assert at[1..] == rest;
    } else {
      at := FlatLeadsFrom(t, buf, base, depth, f, k + 1);
    }
  }

  /** Every buffer on the way has the same records. */
  ghost predicate SameWalks(t: Texts, a: Bytes, b: Bytes, at: seq<nat>)
    requires |a| == |b|
    decreases |at|
  {
    && Walk(t, b, 0) == Walk(t, a, 0)
    && (|at| > 1 && at[0] < |Walk(t, a, 0)| ==>
          var r := Walk(t, a, 0)[at[0]];
          SameWalks(t, DataOf(a, r), DataOf(b, r), at[1..]))
  }

  /** No record on the way gets an extended size that it did not have. */
  ghost predicate NoneExposed(t: Texts, a: Bytes, b: Bytes, at: seq<nat>)
    requires |a| == |b|
    decreases |at|
  {
    at != [] && at[0] < |Walk(t, a, 0)| ==>
      var r := Walk(t, a, 0)[at[0]];
      !Exposed(r, b) && NoneExposed(t, DataOf(a, r), DataOf(b, r), at[1..])
  }

  /** No record on the way announces an extended header whose size is ignored. */
  ghost predicate Sturdy(t: Texts, a: Bytes, at: seq<nat>)
    decreases |at|
  {
    at != [] && at[0] < |Walk(t, a, 0)| ==>
      var r := Walk(t, a, 0)[at[0]];
      !(TestBit(r.attributes, 4) && r.size > 14 && r.extendedSize == 0) && Sturdy(t, DataOf(a, r), at[1..])
  }

  lemma {:induction false} SturdyNotExposed(t: Texts, a: Bytes, b: Bytes, at: seq<nat>)
    requires |a| == |b| && Sturdy(t, a, at)
    ensures NoneExposed(t, a, b, at)
    decreases |at|
  {
    hide TestBit, Walk;
    if at != [] && at[0] < |Walk(t, a, 0)| {
      var r := Walk(t, a, 0)[at[0]];
      SturdyNotExposed(t, DataOf(a, r), DataOf(b, r), at[1..]);
    }
  }

  /** The range `lo` to `hi` of the buffer, which lies in the data of `f`. */
  predicate InsideData(f: FlatRecord, base: nat, lo: nat, hi: nat) {
    f.dataOff <= base + lo && lo <= hi && base + hi <= DataEnd(f)
  }

  lemma {:induction false} LeadsInside(t: Texts, buf: Bytes, base: nat, depth: nat, at: seq<nat>, f: FlatRecord)
    requires Leads(t, buf, base, depth, at, f)
    ensures var r := Walk(t, buf, 0)[at[0]];
      base + r.dataOffset <= f.dataOff && DataEnd(f) <= base + r.dataOffset + r.dataLen
    decreases |at|
  {
    hide Walk, ParseEntry;
    if |at| > 1 {
      var r := Walk(t, buf, 0)[at[0]];
      LeadsInside(t, DataOf(buf, r), base + r.dataOffset, depth + 1, at[1..], f);
    }
  }

  /** A write into the data of a record keeps the records of every enclosing
      buffer exactly if it exposes no extended size on the way. */
  lemma {:induction false} GeometryKept(t: Texts, buf: Bytes, base: nat, depth: nat, at: seq<nat>, f: FlatRecord, lo: nat, x: Bytes)
    requires Leads(t, buf, base, depth, at, f)
    requires InsideData(f, base, lo, lo + |x|) && lo + |x| <= |buf|
    ensures SameWalks(t, buf, Write(buf, lo, x), at) <==> NoneExposed(t, buf, Write(buf, lo, x), at)
    decreases |at|
  {
    hide Walk, ParseEntry, Exposed, Resolved;
    var r, b := Walk(t, buf, 0)[at[0]], Write(buf, lo, x);
    LeadsInside(t, buf, base, depth, at, f);
    WalkKept(t, buf, b, 0, at[0]);
    if |at| > 1 {
      var inner := DataOf(buf, r);
      var lo' := lo - r.dataOffset;
      assert DataOf(b, r) == Write(inner, lo', x);
      GeometryKept(t, inner, base + r.dataOffset, depth + 1, at[1..], f, lo', x);
    } else {
      assert at[1..] == [];
    }
  }
}
