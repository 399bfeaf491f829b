/** What setting a variable promises: agreement of all live stores, a frame
    around the written bytes, no partial edit, and unchanged record geometry. */
module NvarAgreement {
  import opened Results
  import opened Words
  import opened Ffs
  import opened FileCodec
  import opened Ops
  import opened Edits
  import opened NvarRecords
  import opened NvarGeometry
  import opened NvarEdit

  /** The path leads to a store; `blocked` tells whether a barrier is on the way,
      or was before (`barrier`). */
  predicate StoreUnder(t: Texts, n: FfsNode, path: Path, barrier: bool, blocked: bool)
    decreases |path|
  {
    if path == [] then IsNvarBody(t, n) && blocked == barrier
    else path[0] < |n.children| && StoreUnder(t, n.children[path[0]], path[1..], barrier || BlocksMutation(n), blocked)
  }

  /** A store in front of every barrier. */
  predicate LiveStore(t: Texts, root: FfsNode, path: Path) {
    StoreUnder(t, root, path, false, false)
  }

  lemma {:induction false} StoreIsThere(t: Texts, n: FfsNode, path: Path, barrier: bool, blocked: bool)
    requires StoreUnder(t, n, path, barrier, blocked)
    ensures NodeAt(n, path).Some? && IsNvarBody(t, NodeAt(n, path).value) && (barrier ==> blocked)
    decreases |path|
  {
    hide ParseEntry;
    if path != [] {
      StoreIsThere(t, n.children[path[0]], path[1..], barrier || BlocksMutation(n), blocked);
    }
  }

  predicate HitAt(t: Texts, q: Query, n: FfsNode, h: VarHit) {
    LiveStore(t, n, h.path) && NodeAt(n, h.path).Some? && StoreHit(t, q, NodeAt(n, h.path).value.body) == Ok(Some(h.dataOff))
  }

  predicate FailsAt(t: Texts, q: Query, n: FfsNode, path: Path, e: NvarError) {
    LiveStore(t, n, path) && NodeAt(n, path).Some? && StoreHit(t, q, NodeAt(n, path).value.body) == Err(e)
  }

  /** A store that holds the variable behind a barrier. */
  predicate HiddenAt(t: Texts, q: Query, n: FfsNode, path: Path, barrier: bool) {
    StoreUnder(t, n, path, barrier, true) && NodeAt(n, path).Some?
    && var r := FindVar(t, NodeAt(n, path).value.body, q.name, q.guid); r.Ok? && r.value.Some?
  }

  lemma LiveBelow(t: Texts, n: FfsNode, i: nat, path: Path)
    requires i < |n.children| && !BlocksMutation(n)
    ensures LiveStore(t, n, [i] + path) == LiveStore(t, n.children[i], path)
    ensures NodeAt(n, [i] + path) == NodeAt(n.children[i], path)
  {
    hide IsNvarBody;
    assert ([i] + path)[1..] == path;
  }

  /** Only live stores that hold the variable are hit. */
  lemma {:induction false} HitsAreLive(t: Texts, q: Query, n: FfsNode, h: VarHit)
    requires CollectHits(t, q, n, false).Ok? && h in CollectHits(t, q, n, false).value.hits
    ensures HitAt(t, q, n, h)
    decreases n, 1
  {
    hide ParseEntry, FindVar, StoreHit;
    if !IsNvarBody(t, n) {
      if BlocksMutation(n) {
        BarrierStopsAll(t, q, n.children, 0);
      } else {
        assert n.children[0..] == n.children;
        KidHitsAreLive(t, q, n, 0, h);
      }
    }
  }

  lemma {:induction false} KidHitsAreLive(t: Texts, q: Query, n: FfsNode, k: nat, h: VarHit)
    requires k <= |n.children| && !BlocksMutation(n) && CollectChildren(t, q, n.children[k..], k, false).Ok?
    requires h in CollectChildren(t, q, n.children[k..], k, false).value.hits
    ensures HitAt(t, q, n, h)
    decreases n, 0, |n.children| - k
  {
    hide ParseEntry, FindVar, StoreHit, CollectHits, LiveStore, BlocksMutation;
    assert k < |n.children|;
    var kid := n.children[k];
    assert n.children[k..][0] == kid && n.children[k..][1..] == n.children[k + 1..];
    var own := CollectHits(t, q, kid, false).value.hits;
    if h in Below([k], own) {
      var j :| 0 <= j < |own| && h == Below([k], own)[j];
      HitsAreLive(t, q, kid, own[j]);
      LiveBelow(t, n, k, own[j].path);
    } else {
      KidHitsAreLive(t, q, n, k + 1, h);
    }
  }

  /** Every live store is looked at: none of them fails, and each that holds the
      variable is hit. */
  lemma {:induction false} LiveIsHit(t: Texts, q: Query, n: FfsNode, path: Path)
    requires CollectHits(t, q, n, false).Ok? && LiveStore(t, n, path)
    ensures NodeAt(n, path).Some? && StoreHit(t, q, NodeAt(n, path).value.body).Ok?
    ensures var hit := StoreHit(t, q, NodeAt(n, path).value.body).value;
      hit.Some? ==> VarHit(path, hit.value) in CollectHits(t, q, n, false).value.hits
    decreases |path|, 1, 0
  {
    hide ParseEntry, FindVar, StoreHit;
    if path == [] {
      var hit := StoreHit(t, q, n.body).value;
      if hit.Some? {
        assert [VarHit([], hit.value)][0] == VarHit([], hit.value);
      }
    } else {
      StoreIsThere(t, n, path, false, false);
      StoreIsThere(t, n.children[path[0]], path[1..], BlocksMutation(n), false);
      assert !IsNvarBody(t, n);
      assert n.children[0..] == n.children;
      LiveKidIsHit(t, q, n, path, 0);
    }
  }

  lemma {:induction false} LiveKidIsHit(t: Texts, q: Query, n: FfsNode, path: Path, k: nat)
    requires path != [] && k <= path[0] < |n.children| && LiveStore(t, n.children[path[0]], path[1..])
    requires CollectChildren(t, q, n.children[k..], k, false).Ok?
    ensures NodeAt(n, path).Some? && StoreHit(t, q, NodeAt(n, path).value.body).Ok?
    ensures var hit := StoreHit(t, q, NodeAt(n, path).value.body).value;
      hit.Some? ==> VarHit(path, hit.value) in CollectChildren(t, q, n.children[k..], k, false).value.hits
    decreases |path|, 0, |n.children| - k
  {
    hide ParseEntry, FindVar, StoreHit, CollectHits, LiveStore;
    assert n.children[k..][0] == n.children[k] && n.children[k..][1..] == n.children[k + 1..];
    if k == path[0] {
      LiveIsHit(t, q, n.children[k], path[1..]);
      var hit := StoreHit(t, q, NodeAt(n, path).value.body).value;
      var own := CollectHits(t, q, n.children[k], false).value.hits;
      if hit.Some? {
        var j :| 0 <= j < |own| && own[j] == VarHit(path[1..], hit.value);
        assert [k] + path[1..] == path;
        assert Below([k], own)[j] == VarHit(path, hit.value);
      }
    } else {
      LiveKidIsHit(t, q, n, path, k + 1);
    }
  }

  /** A search that fails, fails in a live store. */
  lemma {:induction false} FailureIsLive(t: Texts, q: Query, n: FfsNode) returns (path: Path)
    requires CollectHits(t, q, n, false).Err?
    ensures FailsAt(t, q, n, path, CollectHits(t, q, n, false).error)
    decreases n, 1
  {
    hide ParseEntry, FindVar, StoreHit;
    if IsNvarBody(t, n) {
      path := [];
    } else {
      if BlocksMutation(n) {
        BarrierStopsAll(t, q, n.children, 0);
      }
      assert n.children[0..] == n.children;
      path := KidFailureIsLive(t, q, n, 0);
    }
  }

  lemma {:induction false} KidFailureIsLive(t: Texts, q: Query, n: FfsNode, k: nat) returns (path: Path)
    requires k <= |n.children| && !BlocksMutation(n) && CollectChildren(t, q, n.children[k..], k, false).Err?
    ensures FailsAt(t, q, n, path, CollectChildren(t, q, n.children[k..], k, false).error)
    decreases n, 0, |n.children| - k
  {
    hide ParseEntry, FindVar, StoreHit, CollectHits, LiveStore, BlocksMutation;
    assert k < |n.children|;
    var kid := n.children[k];
    assert n.children[k..][0] == kid && n.children[k..][1..] == n.children[k + 1..];
    if CollectHits(t, q, kid, false).Err? {
      var rest := FailureIsLive(t, q, kid);
      LiveBelow(t, n, k, rest);
      path := [k] + rest;
    } else {
      path := KidFailureIsLive(t, q, n, k + 1);
    }
  }

  /** The barrier flag says that a store behind a barrier holds the variable. */
  lemma {:induction false} HiddenMeaning(t: Texts, q: Query, n: FfsNode, barrier: bool)
    requires CollectHits(t, q, n, barrier).Ok?
    ensures CollectHits(t, q, n, barrier).value.behindBarrier <==> exists path :: HiddenAt(t, q, n, path, barrier)
    decreases n, 1
  {
    hide ParseEntry, FindVar, StoreHit;
    if IsNvarBody(t, n) {
      if CollectHits(t, q, n, barrier).value.behindBarrier {
        assert HiddenAt(t, q, n, [], barrier);
      }
      if path :| HiddenAt(t, q, n, path, barrier) {
        assert path == [];
      }
    } else {
      assert n.children[0..] == n.children;
      KidHiddenMeaning(t, q, n, 0, barrier);
      if path :| HiddenAt(t, q, n, path, barrier) {
        assert path != [] && path[0] >= 0;
      }
    }
  }

  lemma {:induction false} KidHiddenMeaning(t: Texts, q: Query, n: FfsNode, k: nat, barrier: bool)
    requires k <= |n.children| && CollectChildren(t, q, n.children[k..], k, barrier || BlocksMutation(n)).Ok?
    ensures CollectChildren(t, q, n.children[k..], k, barrier || BlocksMutation(n)).value.behindBarrier <==>
            exists path :: path != [] && path[0] >= k && HiddenAt(t, q, n, path, barrier)
    decreases n, 0, |n.children| - k
  {
    hide ParseEntry, FindVar, StoreHit, CollectHits, BlocksMutation;
    var b := barrier || BlocksMutation(n);
    if k < |n.children| {
      var kid := n.children[k];
      assert n.children[k..][0] == kid && n.children[k..][1..] == n.children[k + 1..];
      HiddenMeaning(t, q, kid, b);
      KidHiddenMeaning(t, q, n, k + 1, barrier);
      if CollectHits(t, q, kid, b).value.behindBarrier {
        var path :| HiddenAt(t, q, kid, path, b);
        assert ([k] + path)[1..] == path;
        assert HiddenAt(t, q, n, [k] + path, barrier);
      }
      if path :| path != [] && path[0] >= k && HiddenAt(t, q, n, path, barrier) {
        if path[0] == k {
          assert HiddenAt(t, q, kid, path[1..], b);
        }
      }
    }
  }

  // Every live store agrees, nothing else changes

  lemma {:induction false} UnchangedStore(t: Texts, q: Query, to: Bytes, n: FfsNode, path: Path)
    requires !Changes(t, q, to, n) && LiveStore(t, n, path)
    ensures NodeAt(n, path).Some? && !StoreChanges(t, q, to, NodeAt(n, path).value.body)
    decreases |path|
  {
    hide ParseEntry, StoreChanges;
    if path != [] {
      StoreIsThere(t, n.children[path[0]], path[1..], BlocksMutation(n), false);
      UnchangedStore(t, q, to, n.children[path[0]], path[1..]);
    }
  }

  lemma FitAt(n: FfsNode, path: Path)
    requires BodiesFit(n) && NodeAt(n, path).Some?
    ensures BodiesFit(NodeAt(n, path).value)
    decreases |path|
  {
    if path != [] {
      FitAt(n.children[path[0]], path[1..]);
    }
  }

  /** The body that the node at the path has after the edit. */
  function EditedBody(t: Texts, q: Query, to: Bytes, live: bool, body: Bytes): Bytes {
    if live && StoreHit(t, q, body).Ok? && StoreHit(t, q, body).value.Some? then
      var off := Target(q, StoreHit(t, q, body).value.value);
      if off + |to| <= |body| then Write(body, off, to) else body
    else body
  }

  /** The node differs in contents only, and an action only went from none to Rebuild. */
  predicate SameButContents(x: FfsNode, y: FfsNode) {
    && y == x.(body := y.body, children := y.children, action := y.action)
    && |y.children| == |x.children| && |y.body| == |x.body|
    && (y.action == x.action || (x.action == NoAction && y.action == Action.Rebuild))
  }

  lemma UnchangedBody(t: Texts, q: Query, to: Bytes, body: Bytes)
    requires !StoreChanges(t, q, to, body)
    ensures EditedBody(t, q, to, true, body) == body
  {
    hide StoreHit, Write;
    if StoreHit(t, q, body).Ok? && StoreHit(t, q, body).value.Some? {
      var off := Target(q, StoreHit(t, q, body).value.value);
      if off + |to| <= |body| {
        WriteSame(body, off, to);
      }
    }
  }

  /** Every node of the tree after the edit: the live stores that hold the variable
      have the new bytes in their data, all other bodies, all headers, tails and
      shapes are as before. */
  lemma {:induction false} SetAllAt(t: Texts, q: Query, to: Bytes, n: FfsNode, path: Path)
    requires NodeAt(n, path).Some?
    ensures NodeAt(SetAll(t, q, to, n), path).Some?
    ensures var x, y := NodeAt(n, path).value, NodeAt(SetAll(t, q, to, n), path).value;
      SameButContents(x, y) && y.body == EditedBody(t, q, to, LiveStore(t, n, path), x.body)
    decreases |path|
  {
    hide ParseEntry, StoreHit, Write;
    var x := NodeAt(n, path).value;
    if !Changes(t, q, to, n) {
      if LiveStore(t, n, path) {
        UnchangedStore(t, q, to, n, path);
        UnchangedBody(t, q, to, x.body);
      }
    } else if path != [] {
      var i := path[0];
      SetAllAt(t, q, to, n.children[i], path[1..]);
    }
  }

  /** Setting a variable hides no edit: what changed is marked up to the root. */
  lemma {:induction false} SetAllKeepsVisible(t: Texts, q: Query, to: Bytes, n: FfsNode)
    requires Visible(n)
    ensures Visible(SetAll(t, q, to, n)) && (SetAll(t, q, to, n).action == NoAction ==> SetAll(t, q, to, n) == n)
  {
    hide ParseEntry, StoreHit, Write;
    if Changes(t, q, to, n) && !IsNvarBody(t, n) {
      forall i | 0 <= i < |n.children| ensures Visible(SetAll(t, q, to, n.children[i])) {
        SetAllKeepsVisible(t, q, to, n.children[i]);
      }
    }
  }

  /** The whole outcome of the edit: it works exactly if no live store fails and
      some live store holds the variable, it then sets the variable everywhere, and
      it never ends in the late range check or in a panic. */
  lemma SetVariableMeaning(t: Texts, root: FfsNode, q: Query, to: Bytes)
    requires Widths(q, to) && BodiesFit(root)
    ensures var r := SetVariable(t, root, q, to);
      && (r.Ok? ==> r.value == SetAll(t, q, to, root))
      && (r.Ok? <==> (exists h :: HitAt(t, q, root, h)) && forall path, e :: !FailsAt(t, q, root, path, e))
      && (r.Err? ==> r.error != OutOfBounds && r.error != NvarError.Panicked)
      && (r == Err(NvarError.MutationBehindCompression) <==>
            && (forall path, e :: !FailsAt(t, q, root, path, e)) && (forall h :: !HitAt(t, q, root, h))
            && exists path :: HiddenAt(t, q, root, path, false))
  {
    hide SetAll, StoreHit, PerformAll, PlansFor, CollectHits, Changes, LiveStore, HiddenAt, SomeEffect, StoreUnder;
    var found := CollectHits(t, q, root, false);
    if found.Err? {
      var path := FailureIsLive(t, q, root);
      FailureKinds(t, q, NodeAt(root, path).value.body);
    } else {
      PlansSetAll(t, q, to, root);
      HiddenMeaning(t, q, root, false);
      forall path, e | FailsAt(t, q, root, path, e) ensures false {
        LiveIsHit(t, q, root, path);
      }
      forall h | HitAt(t, q, root, h) ensures found.value.hits != [] {
        LiveIsHit(t, q, root, h.path);
      }
      if found.value.hits != [] {
        HitsAreLive(t, q, root, found.value.hits[0]);
      }
    }
  }

  /** A store fails if the name is ambiguous in it, or if the variable that it has
      cannot be edited there. */
  lemma FailureKinds(t: Texts, q: Query, body: Bytes)
    requires StoreHit(t, q, body).Err?
    ensures StoreHit(t, q, body).error == if FindVar(t, body, q.name, q.guid).Err? then AmbiguousName else ValueOpUnsupported
  {
    hide Flatten, Hits;
  }

  // The records stay where they were

  /** After a successful edit the store at the path, the records that lead to the
      variable, and all their neighbours are read as before, exactly if the new
      bytes expose no extended size; so they are whenever no record on the way
      announces an extended header whose size is ignored. */
  lemma SetKeepsGeometry(t: Texts, root: FfsNode, q: Query, to: Bytes, h: VarHit) returns (f: FlatRecord, at: seq<nat>)
    requires Widths(q, to) && BodiesFit(root) && q.offset + q.width < TWO64
    requires SetVariable(t, root, q, to).Ok? && HitAt(t, q, root, h)
    ensures NodeAt(SetVariable(t, root, q, to).value, h.path).Some?
    ensures var a, b := NodeAt(root, h.path).value.body, NodeAt(SetVariable(t, root, q, to).value, h.path).value.body;
      && FindVar(t, a, q.name, q.guid) == Ok(Some(f)) && Leads(t, a, 0, 0, at, f)
      && f.dataOff + q.offset + |to| <= DataEnd(f) <= |a|
      && b == Write(a, f.dataOff + q.offset, to)
      && (SameWalks(t, a, b, at) <==> NoneExposed(t, a, b, at))
      && (Sturdy(t, a, at) ==> SameWalks(t, a, b, at))
  {
    hide SetAll, StoreHit, PerformAll, PlansFor, CollectHits, Changes, Flatten, FindVar, SetVariable, LiveStore, Leads,
      SameWalks, NoneExposed, Sturdy, Write, HiddenAt, FailsAt;
    SetVariableMeaning(t, root, q, to);
    SetAllAt(t, q, to, root, h.path);
    var a := NodeAt(root, h.path).value.body;
    FitAt(root, h.path);
    f := TargetRange(t, q, to, a);
    at := LeadsTo(t, a, f);
    var off := f.dataOff + q.offset;
    assert NodeAt(SetVariable(t, root, q, to).value, h.path).value.body == Write(a, off, to);
    GeometryKept(t, a, 0, 0, at, f, off, to);
    if Sturdy(t, a, at) {
      SturdyNotExposed(t, a, Write(a, off, to), at);
    }
  }

  // What is read back

  /** The arguments that are accepted: a width of 1, 2, 4 or 8 bytes that the value
      fits, and a GUID that can be read, if there is one. The bytes written spell the
      value, least significant first. */
  lemma ArgumentsMeaning(t: Texts, name: string, guid: Option<string>, offset: U64, value: U64, width: nat)
    ensures Checked(t, Writable, name, guid, offset, value, width).Ok? <==>
            && ((width == 1 && value < 0x100) || (width == 2 && value < 0x1_0000) || (width == 4 && value < 0x1_0000_0000) || width == 8)
            && (guid.Some? ==> t.guid(guid.value).Some?)
    ensures Checked(t, ReadOnly, name, guid, offset, value, width) == Err(NotWritable)
    ensures Checked(t, Writable, name, guid, offset, value, width).Ok? ==>
              var q := Checked(t, Writable, name, guid, offset, value, width).value;
              && q == Query(name, if guid.Some? then t.guid(guid.value) else None, offset, width)
              && |ValueBytes(value, width)| == width && FromLe(ValueBytes(value, width)) == value
  {
    hide Le, FromLe, Pow2;
    Pow2Of32();
    Pow2Sum(32, 32);
    if width <= 8 {
      LePrefix(value, 8, width);
      LeIsMod(value, width);
    }
  }

  /** After a successful edit every live store that holds the variable reads, at the
      offset in the variable's data, as the value. */
  lemma ValueIsRead(t: Texts, root: FfsNode, name: string, guid: Option<string>, offset: U64, value: U64, width: nat, h: VarHit)
      returns (f: FlatRecord)
    requires BodiesFit(root) && Checked(t, Writable, name, guid, offset, value, width).Ok? && offset + width < TWO64
    requires var q := Checked(t, Writable, name, guid, offset, value, width).value;
      SetVariable(t, root, q, ValueBytes(value, width)).Ok? && HitAt(t, q, root, h)
    ensures var q := Checked(t, Writable, name, guid, offset, value, width).value;
      var root' := SetVariable(t, root, q, ValueBytes(value, width)).value;
      && NodeAt(root', h.path).Some? && FindVar(t, NodeAt(root, h.path).value.body, q.name, q.guid) == Ok(Some(f))
      && var b, at := NodeAt(root', h.path).value.body, f.dataOff + offset;
        at + width <= |b| && FromLe(b[at..at + width]) == value
  {
    hide SetVariable, FindVar, Checked, ValueBytes, FromLe, LiveStore, StoreHit, Leads, SameWalks, NoneExposed, Sturdy, Write, BodiesFit;
    ArgumentsMeaning(t, name, guid, offset, value, width);
    var q := Checked(t, Writable, name, guid, offset, value, width).value;
    var to := ValueBytes(value, width);
    var g, at := SetKeepsGeometry(t, root, q, to, h);
    f := g;
    WrittenParts(NodeAt(root, h.path).value.body, f.dataOff + offset, to);
  }

  // The address arithmetic wraps

  /** A store with one record: name "A", guid index 0, one byte of data. */
  const ONE_RECORD: Bytes := [0x4E, 0x56, 0x41, 0x52, 14, 0, 0xFF, 0xFF, 0xFF, 0x82, 0, 0x41, 0, 0x55]

  lemma AttributeBits()
    ensures TestBit(0x82, 7) && !TestBit(0x82, 3) && !TestBit(0x82, 2) && TestBit(0x82, 1) && !TestBit(0x82, 4)
    ensures TestBit(0x92, 7) && !TestBit(0x92, 3) && !TestBit(0x92, 2) && TestBit(0x92, 1) && TestBit(0x92, 4)
  {
  }

  /** The front of both example records: guid index 0 and name "A". */
  lemma NameParsed(t: Texts, b: Bytes, attributes: U8)
    requires |b| >= 13 && b[10] == 0 && b[11] == 0x41 && b[12] == 0 && (attributes == 0x82 || attributes == 0x92)
    ensures GuidField(b, attributes, 10, |b|) == Some((Some(0), 11))
    ensures NameField(t, b, attributes, 11, |b|) == Some((Some(t.utf8([0x41])), 13))
  {
    hide TestBit;
    AttributeBits();
    assert FirstZero(b, 11, |b|) == FirstZero(b, 12, |b|) == Some(12);
    assert b[11..12] == [0x41];
  }

  lemma OneRecordParsed(t: Texts)
    ensures ParseEntry(t, ONE_RECORD, 0) ==
            Some(NvarRecord(0, 14, 0x82, Some(0), None, None, 0, Some(t.utf8([0x41])), 13, 1))
    ensures ParseEntry(t, ONE_RECORD, 14).None?
  {
    hide TestBit, GuidField, NameField;
    AttributeBits();
    NameParsed(t, ONE_RECORD, 0x82);
    assert ONE_RECORD[0..4] == SIGNATURE && ONE_RECORD[6..9] == [0xFF, 0xFF, 0xFF];
  }

  /** A record that announces an extended header and ends in `size`. */
  function Extended(size: U8): Bytes {
    [0x4E, 0x56, 0x41, 0x52, 16, 0, 0xFF, 0xFF, 0xFF, 0x92, 0, 0x41, 0, 0x55, size, 0]
  }

  /** A buffer that is one record without nested records. */
  lemma SingleRecord(t: Texts, b: Bytes, q: Query)
    requires ParseEntry(t, b, 0).Some? && ParseEntry(t, b, |b|).None?
    requires ParseEntry(t, b, 0).value.size == |b| && ParseEntry(t, b, 0).value.dataLen < 10
    requires ParseEntry(t, b, 0).value.name == Some(q.name) && q.guid == None
    ensures var r := ParseEntry(t, b, 0).value;
      FindVar(t, b, q.name, q.guid) == Ok(Some(FlatRecord(Resolved(b, r), 0, r.dataOffset)))
  {
    hide ParseEntry, Walk;
    var r := ParseEntry(t, b, 0).value;
    WalkStep(t, b, 0);
    WalkStep(t, b, |b|);
    assert Walk(t, b, 0) == [r];
    var f := FlatRecord(Resolved(b, r), 0, r.dataOffset);
    assert FlattenRecords(t, b, [], 0, 0) == [];
    assert [r][1..] == [];
    assert FlattenNested(t, b, r, 0, 0) == [];
    assert Flatten(t, b) == [f];
    assert [f][1..] == [] && Hits([], q.name, None) == [];
    assert Hits([f], q.name, None) == [f];
  }

  lemma ExtendedParsed(t: Texts, size: U8)
    requires size == 0 || size == 3
    ensures ParseEntry(t, Extended(size), 0) ==
            Some(NvarRecord(0, 16, 0x92, Some(0), None, None, size, Some(t.utf8([0x41])), 13, 3 - size))
    ensures ParseEntry(t, Extended(size), 16).None?
  {
    hide TestBit, GuidField, NameField;
    AttributeBits();
    NameParsed(t, Extended(size), 0x92);
    assert Extended(size)[0..4] == SIGNATURE && Extended(size)[6..9] == [0xFF, 0xFF, 0xFF];
  }

  /** A leaf of the tree that is the store. */
  function StoreOf(body: Bytes, action: Action): FfsNode {
    FfsNode(None, File, 0, 0, [], body, [], [], action, Nothing)
  }

  /** Setting data can make an ignored extended size count. The edit is accepted,
      its record loses all its data, and from then on the same edit is refused. */
  lemma ExposingWrite(t: Texts)
    ensures var q := Query(t.utf8([0x41]), None, 1, 2);
      && StoreHit(t, q, Extended(0)) == Ok(Some(13))
      && SetVariable(t, StoreOf(Extended(0), NoAction), q, [3, 0]) == Ok(StoreOf(Extended(3), Action.Rebuild))
      && ParseEntry(t, Extended(0), 0).Some? && ParseEntry(t, Extended(0), 0).value.dataLen == 3
      && ParseEntry(t, Extended(3), 0).Some? && ParseEntry(t, Extended(3), 0).value.dataLen == 0
      && StoreHit(t, q, Extended(3)) == Err(ValueOpUnsupported)
  {
    hide ParseEntry, FindVar, SetVariable;
    var q := Query(t.utf8([0x41]), None, 1, 2);
    ExtendedParsed(t, 0);
    ExtendedParsed(t, 3);
    SingleRecord(t, Extended(0), q);
    SingleRecord(t, Extended(3), q);
    assert Target(q, 13) == 14;
    assert Extended(0)[14..16] == [0, 0];
    assert Extended(0)[14..16][0] != [3, 0][0];
    SetInOneStore(t, q, [3, 0], Extended(0), 13);
    assert Write(Extended(0), 14, [3, 0]) == Extended(3);
  }

  lemma SetInOneStore(t: Texts, q: Query, to: Bytes, body: Bytes, at: nat)
    requires Widths(q, to) && |body| < 0x8000_0000_0000_0000 && ParseEntry(t, body, 0).Some?
    requires StoreHit(t, q, body) == Ok(Some(at)) && Target(q, at) + |to| <= |body|
    requires body[Target(q, at)..Target(q, at) + |to|] != to
    ensures SetVariable(t, StoreOf(body, NoAction), q, to) == Ok(StoreOf(Write(body, Target(q, at), to), Action.Rebuild))
  {
    hide ParseEntry, StoreHit, SetVariable, Write, Target, CollectHits;
    var root := StoreOf(body, NoAction);
    SetVariableMeaning(t, root, q, to);
    assert HitAt(t, q, root, VarHit([], at));
    forall path, e ensures !FailsAt(t, q, root, path, e) {
      if FailsAt(t, q, root, path, e) && path != [] {
        StoreIsThere(t, root, path, false, false);
      }
    }
    assert Changes(t, q, to, root);
  }

  /** An offset near the end of the address space passes the size test, and the
      write changes the byte in front of the data. */
  lemma WrappedOffsetEscapes(t: Texts)
    ensures var q := Query(t.utf8([0x41]), None, TWO64 - 1, 1);
      && StoreHit(t, q, ONE_RECORD) == Ok(Some(13)) && Target(q, 13) == 12
      && SetVariable(t, StoreOf(ONE_RECORD, NoAction), q, [0xAA]) == Ok(StoreOf(ONE_RECORD[12 := 0xAA], Action.Rebuild))
  {
    hide ParseEntry, FindVar, SetVariable;
    var q := Query(t.utf8([0x41]), None, TWO64 - 1, 1);
    OneRecordParsed(t);
    SingleRecord(t, ONE_RECORD, q);
    assert Target(q, 13) == 12;
    assert ONE_RECORD[12..13] == [0];
    SetInOneStore(t, q, [0xAA], ONE_RECORD, 13);
    assert Write(ONE_RECORD, 12, [0xAA]) == ONE_RECORD[12 := 0xAA];
  }

  // The report

  /** The writes that changed something, and the stores that hold the variable. */
  datatype Report = Report(applied: seq<Plan>, stores: seq<Path>)

  function Effective(plans: seq<Plan>): seq<Plan> {
    if plans == [] then []
    else (if plans[0].from == plans[0].to then [] else [plans[0]]) + Effective(plans[1..])
  }

  function PathsOf(hits: seq<VarHit>): seq<Path> {
    seq(|hits|, i requires 0 <= i < |hits| => hits[i].path)
  }

  function ReportOf(t: Texts, root: FfsNode, q: Query, to: Bytes): Report
    requires SetVariable(t, root, q, to).Ok?
  {
    var hits := CollectHits(t, q, root, false).value.hits;
    Report(Effective(PlansFor(q, to, root, hits).value), PathsOf(hits))
  }

  lemma {:induction false} EffectiveMeaning(plans: seq<Plan>, p: Plan)
    ensures p in Effective(plans) <==> p in plans && p.from != p.to
  {
    if plans != [] {
      EffectiveMeaning(plans[1..], p);
      assert plans == [plans[0]] + plans[1..];
    }
  }

  /** The writes stay in order. */
  lemma {:induction false} EffectiveInOrder(a: seq<Plan>, b: seq<Plan>)
    ensures Effective(a + b) == Effective(a) + Effective(b)
    decreases |a|
  {
    if a == [] {
      assert a + b == b;
    } else {
      assert (a + b)[0] == a[0] && (a + b)[1..] == a[1..] + b;
      EffectiveInOrder(a[1..], b);
    }
  }

  lemma {:induction false} PlansMeaning(q: Query, to: Bytes, n: FfsNode, hits: seq<VarHit>, p: Plan)
    requires PlansFor(q, to, n, hits).Ok?
    ensures p in PlansFor(q, to, n, hits).value <==> exists h :: h in hits && PlanFor(q, to, n, h) == Ok(p)
    decreases |hits|
  {
    hide PlanFor;
    if hits != [] {
      PlansMeaning(q, to, n, hits[1..], p);
      assert hits == [hits[0]] + hits[1..];
    }
  }

  /** The report names exactly the stores that hold the variable, and exactly the
      writes that changed bytes: where, from what and to what. */
  lemma ReportMeaning(t: Texts, root: FfsNode, q: Query, to: Bytes)
    requires SetVariable(t, root, q, to).Ok?
    ensures var report := ReportOf(t, root, q, to);
      && (forall path :: path in report.stores <==> exists h :: HitAt(t, q, root, h) && h.path == path)
      && (forall p :: p in report.applied <==> p.from != p.to && exists h :: HitAt(t, q, root, h) && PlanFor(q, to, root, h) == Ok(p))
  {
    hide StoreHit, PlanFor, PerformAll, PlansFor, CollectHits, LiveStore, Effective;
    var hits := CollectHits(t, q, root, false).value.hits;
    forall h ensures h in hits <==> HitAt(t, q, root, h) {
      if h in hits {
        HitsAreLive(t, q, root, h);
      }
      if HitAt(t, q, root, h) {
        LiveIsHit(t, q, root, h.path);
      }
    }
    forall path ensures path in PathsOf(hits) <==> exists h :: h in hits && h.path == path {
      if path in PathsOf(hits) {
        var i :| 0 <= i < |hits| && PathsOf(hits)[i] == path;
        assert hits[i] in hits;
      }
      if h :| h in hits && h.path == path {
        var i :| 0 <= i < |hits| && hits[i] == h;
        assert PathsOf(hits)[i] == path;
      }
    }
    var plans := PlansFor(q, to, root, hits).value;
    forall p ensures p in Effective(plans) <==> p.from != p.to && exists h :: h in hits && PlanFor(q, to, root, h) == Ok(p) {
      EffectiveMeaning(plans, p);
      PlansMeaning(q, to, root, hits, p);
    }
  }

  lemma LeadsTo(t: Texts, buf: Bytes, f: FlatRecord) returns (at: seq<nat>)
    requires f in Flatten(t, buf)
    ensures Leads(t, buf, 0, 0, at, f)
  {
    hide Leads, FlattenRecords;
    at := FlatLeads(t, buf, 0, 0, f);
  }
}
