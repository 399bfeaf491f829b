/** The record reader as it runs: cursors stepped by loops. */
module NvarReader {
  import opened Results
  import opened Words
  import opened Ffs
  import opened NvarRecords

  lemma {:induction false} FirstZeroSkips(buf: Bytes, p: nat, k: nat, end: nat)
    requires p <= k <= end <= |buf| && forall i :: p <= i < k ==> buf[i] != 0
    ensures FirstZero(buf, p, end) == FirstZero(buf, k, end)
    decreases k - p
  {
    if p < k {
      FirstZeroSkips(buf, p + 1, k, end);
    }
  }

  method FindZero(buf: Bytes, p: nat, end: nat) returns (r: Option<nat>)
    requires p <= end <= |buf|
    ensures r == FirstZero(buf, p, end)
  {
    var k := p;
    while k < end
      invariant p <= k <= end
      invariant forall i :: p <= i < k ==> buf[i] != 0
    {
      if buf[k] == 0 {
        FirstZeroSkips(buf, p, k, end);
        return Some(k);
      }
      k := k + 1;
    }
    FirstZeroSkips(buf, p, k, end);
    return None;
  }

  method FindWideEnd(buf: Bytes, p: nat, end: nat) returns (e: nat)
    requires p <= end <= |buf|
    ensures e == WideEnd(buf, p, end)
  {
    e := p;
    while e + 1 < end && !(buf[e] == 0 && buf[e + 1] == 0)
      invariant p <= e <= end
      invariant WideEnd(buf, p, end) == WideEnd(buf, e, end)
    {
      e := e + 2;
    }
  }

  /** The name behind cursor `p`, and the cursor behind the name. */
  method ReadName(t: Texts, buf: Bytes, attributes: U8, p: nat, end: nat) returns (r: Option<(Option<string>, nat)>)
    requires p <= end <= |buf|
    ensures r == NameField(t, buf, attributes, p, end)
  {
    hide TestBit, FirstZero, WideEnd, Units;
    if !Named(attributes) {
      return Some((None, p));
    }
    if TestBit(attributes, 1) {
      var z :- FindZero(buf, p, end);
      return Some((Some(t.utf8(buf[p..z])), z + 1));
    }
    var e := FindWideEnd(buf, p, end);
    if e + 1 >= end {
      return None;
    }
    return Some((Some(t.utf16(Units(buf[p..e]))), e + 2));
  }

  method ReadEntry(t: Texts, buf: Bytes, off: nat) returns (r: Option<NvarRecord>)
    ensures r == ParseEntry(t, buf, off)
  {
    hide TestBit, NameField, FromUint24, Le16;
    if off + 4 > |buf| || buf[off..off + 4] != SIGNATURE || off + 6 > |buf| {
      return None;
    }
    var size: nat := Le16(buf[off + 4], buf[off + 5]);
    if size < 10 || off + size > |buf| {
      return None;
    }
    var attributes := buf[off + 9];
    var nextRaw := FromUint24(buf[off + 6..off + 9]);
    var next := if nextRaw == 0xFF_FFFF then None else Some(nextRaw);
    var end := off + size;
    var p := off + 10;
    var guidIndex: Option<U8> := None;
    if Named(attributes) {
      if TestBit(attributes, 2) {
        p := p + 16;
      } else {
        if p >= |buf| {
          return None;
        }
        guidIndex := Some(buf[p]);
        p := p + 1;
      }
      if p > end {
        return None;
      }
    }
    var name :- ReadName(t, buf, attributes, p, end);
    p := name.1;
    var dataEnd, extendedSize := end, 0;
    if TestBit(attributes, 4) && size > 14 {
      var esz: nat := Le16(buf[end - 2], buf[end - 1]);
      if 3 <= esz <= size - 10 {
        extendedSize := esz;
        dataEnd := dataEnd - esz;
      }
    }
    if p > dataEnd {
      return None;
    }
    return Some(NvarRecord(off, size, attributes, guidIndex, None, next, extendedSize, name.0, p, dataEnd - p));
  }

  lemma Assoc<T>(a: seq<T>, b: seq<T>, c: seq<T>)
    ensures (a + b) + c == a + (b + c)
  {
  }

  method WalkRecords(t: Texts, buf: Bytes) returns (out: seq<NvarRecord>)
    ensures out == Walk(t, buf, 0)
  {
    hide ParseEntry, Walk;
    out := [];
    var off := 0;
    var r := ReadEntry(t, buf, off);
    WalkStep(t, buf, off);
    while r.Some?
      invariant r == ParseEntry(t, buf, off)
      invariant Walk(t, buf, 0) == out + Walk(t, buf, off)
      invariant off <= |buf|
      decreases |buf| - off, if r.Some? then 1 else 0
    {
      WalkStep(t, buf, off);
      Assoc(out, [r.value], Walk(t, buf, off + r.value.size));
      off := off + r.value.size;
      out := out + [r.value];
      r := ReadEntry(t, buf, off);
    }
    WalkStep(t, buf, off);
  }

  /** Appends the records of `buf` and of the stores nested in it. */
  method FlattenInto(t: Texts, buf: Bytes, base: nat, depth: nat, out0: seq<FlatRecord>) returns (out: seq<FlatRecord>)
    requires depth <= MAX_DEPTH
    ensures out == out0 + FlattenRecords(t, buf, Walk(t, buf, 0), base, depth)
    decreases MAX_DEPTH - depth
  {
    hide ParseEntry, Walk, ResolveGuid;
    var rs := WalkRecords(t, buf);
    out := out0;
    assert rs[0..] == rs;
    for i := 0 to |rs|
      invariant out0 + FlattenRecords(t, buf, rs, base, depth) == out + FlattenRecords(t, buf, rs[i..], base, depth)
    {
      var r := rs[i];
      assert rs[i..][0] == r && rs[i..][1..] == rs[i + 1..];
      ghost var rest := FlattenRecords(t, buf, rs[i + 1..], base, depth);
      ghost var nested := FlattenNested(t, buf, r, base, depth);
      var flat := FlatRecord(Resolved(buf, r), depth, base + r.dataOffset);
      assert out + FlattenRecords(t, buf, rs[i..], base, depth) == out + [flat] + nested + rest by {
        Assoc(out, [flat] + nested, rest);
        Assoc(out, [flat], nested);
      }
      out := out + [flat];
      if depth >= MAX_DEPTH || r.dataLen < 10 {
        assert nested == [] && out + [] == out;
        continue;
      }
      var inner := DataOf(buf, r);
      var first := ReadEntry(t, inner, 0);
      if first.Some? {
        out := FlattenInto(t, inner, base + r.dataOffset, depth + 1, out);
      }
    }
    assert rs[|rs|..] == [] && out + [] == out;
  }

  /** The records with the name, and with the GUID if one is given. */
  method FindVariable(t: Texts, buf: Bytes, name: string, guid: Option<Bytes>) returns (r: Result<Option<FlatRecord>, NvarError>)
    ensures r == FindVar(t, buf, name, guid)
  {
    hide Walk, FlattenRecords;
    var fs := FlattenInto(t, buf, 0, 0, []);
    assert fs == Flatten(t, buf);
    var hits: seq<FlatRecord> := [];
    assert fs[0..] == fs;
    for i := 0 to |fs|
      invariant Hits(fs, name, guid) == hits + Hits(fs[i..], name, guid)
    {
      assert fs[i..][0] == fs[i] && fs[i..][1..] == fs[i + 1..];
      if Selects(fs[i], name, guid) {
        Assoc(hits, [fs[i]], Hits(fs[i + 1..], name, guid));
        hits := hits + [fs[i]];
      }
    }
    assert fs[|fs|..] == [] && hits + [] == hits;
    if |hits| == 0 {
      return Ok(None);
    } else if |hits| == 1 {
      return Ok(Some(hits[0]));
    }
    return Err(AmbiguousName);
  }
}
