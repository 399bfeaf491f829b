/** Setting a variable in every NVAR store of an image: the search through the
    tree, the planned writes, and what they amount to. */
module NvarEdit {
  import opened Results
  import opened Words
  import opened Ffs
  import opened Ops
  import opened NvarRecords
  import opened NvarGeometry

  const TWO64: nat := 0x1_0000_0000_0000_0000

  type U64 = x: int | 0 <= x < 0x1_0000_0000_0000_0000

  /** Addition of machine words, which wraps. */
  function Plus64(a: nat, b: nat): nat {
    (a + b) % TWO64
  }

  predicate IsNvarBody(t: Texts, n: FfsNode) {
    (n.nodeType == File || n.nodeType == Section) && n.children == [] && ParseEntry(t, n.body, 0).Some?
  }

  predicate BlocksMutation(n: FfsNode) {
    n.nodeType == Section && IsCompressedOrGuided(n) && !RecompressableGuid(n)
  }

  datatype Query = Query(name: string, guid: Option<Bytes>, offset: U64, width: nat)

  /** Where the variable's data starts in a store, if the store has it and the
      range passes the size test. */
  function StoreHit(t: Texts, q: Query, body: Bytes): Result<Option<nat>, NvarError> {
    match FindVar(t, body, q.name, q.guid)
    case Err(e) => Err(e)
    case Ok(None) => Ok(None)
    case Ok(Some(f)) =>
      if f.record.extendedSize > 0 || Plus64(q.offset, q.width) > f.record.dataLen then Err(ValueOpUnsupported)
      else Ok(Some(f.dataOff))
  }

  datatype VarHit = VarHit(path: Path, dataOff: nat)

  datatype VarHits = VarHits(hits: seq<VarHit>, behindBarrier: bool)

  function Below(path: Path, hits: seq<VarHit>): seq<VarHit> {
    seq(|hits|, k requires 0 <= k < |hits| => VarHit(path + hits[k].path, hits[k].dataOff))
  }

  function CollectHits(t: Texts, q: Query, n: FfsNode, barrier: bool): Result<VarHits, NvarError>
    decreases n, 1
  {
    if IsNvarBody(t, n) then
      if barrier then
        var found := FindVar(t, n.body, q.name, q.guid);
        Ok(VarHits([], found.Ok? && found.value.Some?))
      else
        var hit :- StoreHit(t, q, n.body);
        Ok(VarHits(if hit.Some? then [VarHit([], hit.value)] else [], false))
    else CollectChildren(t, q, n.children, 0, barrier || BlocksMutation(n))
  }

  function CollectChildren(t: Texts, q: Query, kids: seq<FfsNode>, i: nat, barrier: bool): Result<VarHits, NvarError>
    decreases kids, 0
  {
    if kids == [] then Ok(VarHits([], false))
    else
      var h :- CollectHits(t, q, kids[0], barrier);
      var rest :- CollectChildren(t, q, kids[1..], i + 1, barrier);
      Ok(VarHits(Below([i], h.hits) + rest.hits, h.behindBarrier || rest.behindBarrier))
  }

  datatype Plan = Plan(path: Path, off: nat, from: Bytes, to: Bytes)

  function PlanFor(q: Query, to: Bytes, n: FfsNode, hit: VarHit): Result<Plan, NvarError> {
    match NodeAt(n, hit.path)
    case None => Err(Panicked)
    case Some(node) =>
      var off := Plus64(hit.dataOff, q.offset);
      var end := Plus64(off, q.width);
      if off > end || end > |node.body| then Err(OutOfBounds)
      else Ok(Plan(hit.path, off, node.body[off..end], to))
  }

  function PlansFor(q: Query, to: Bytes, n: FfsNode, hits: seq<VarHit>): Result<seq<Plan>, NvarError> {
    if hits == [] then Ok([])
    else
      var p :- PlanFor(q, to, n, hits[0]);
      var rest :- PlansFor(q, to, n, hits[1..]);
      Ok([p] + rest)
  }

  /** One planned write, with the marks up to the root. */
  function Perform(n: FfsNode, p: Plan): Result<FfsNode, NvarError> {
    if p.from == p.to then Ok(n)
    else
      match NodeAt(n, p.path)
      case None => Err(Panicked)
      case Some(node) =>
        if p.off + |p.to| > |node.body| then Err(Panicked)
        else Ok(MarkPath(SetAt(n, p.path, node.(body := Write(node.body, p.off, p.to))), p.path))
  }

  function PerformAll(n: FfsNode, plans: seq<Plan>): Result<FfsNode, NvarError>
    decreases |plans|
  {
    if plans == [] then Ok(n)
    else
      var m :- Perform(n, plans[0]);
      PerformAll(m, plans[1..])
  }

  function ValueBytes(value: U64, width: nat): (b: Bytes)
    requires width <= 8
    ensures |b| == width
  {
    Le(value, 8)[..width]
  }

  /** The checked arguments of a call. */
  function Checked(t: Texts, mode: ImageMode, name: string, guid: Option<string>, offset: U64, value: U64, width: nat): Result<Query, NvarError> {
    if mode != Writable then Err(NotWritable)
    else if !(width == 1 || width == 2 || width == 4 || width == 8) then Err(ValueOpUnsupported)
    else if width < 8 && value >= Pow2(8 * width) then Err(ValueOpUnsupported)
    else if guid.Some? && t.guid(guid.value).None? then Err(ValueOpUnsupported)
    else Ok(Query(name, if guid.Some? then t.guid(guid.value) else None, offset, width))
  }

  function SetVariable(t: Texts, root: FfsNode, q: Query, to: Bytes): Result<FfsNode, NvarError> {
    var found :- CollectHits(t, q, root, false);
    if found.hits == [] then Err(if found.behindBarrier then NvarError.MutationBehindCompression else ValueOpUnsupported)
    else
      var plans :- PlansFor(q, to, root, found.hits);
      PerformAll(root, plans)
  }

  // What the edit amounts to

  /** The place that a hit writes to. */
  function Target(q: Query, dataOff: nat): nat {
    Plus64(dataOff, q.offset)
  }

  /** The store has the variable, with other bytes than the new ones. */
  predicate StoreChanges(t: Texts, q: Query, to: Bytes, body: Bytes) {
    match StoreHit(t, q, body)
    case Ok(Some(dataOff)) =>
      var off := Target(q, dataOff);
      off + |to| <= |body| && body[off..off + |to|] != to
    case _ => false
  }

  /** Some store in front of every barrier changes. */
  predicate Changes(t: Texts, q: Query, to: Bytes, n: FfsNode) {
    if IsNvarBody(t, n) then StoreChanges(t, q, to, n.body)
    else !BlocksMutation(n) && exists i :: 0 <= i < |n.children| && Changes(t, q, to, n.children[i])
  }

  /** The tree with the variable set in every store in front of the barriers, and
      with marks on the nodes that contain a change. */
  function SetAll(t: Texts, q: Query, to: Bytes, n: FfsNode): FfsNode {
    if !Changes(t, q, to, n) then n
    else if IsNvarBody(t, n) then
      n.(body := Write(n.body, Target(q, StoreHit(t, q, n.body).value.value), to), action := Touched(n.action))
    else
      n.(children := seq(|n.children|, i requires 0 <= i < |n.children| => SetAll(t, q, to, n.children[i])),
         action := Touched(n.action))
  }

  /** Buffers are smaller than half the address space. */
  ghost predicate BodiesFit(n: FfsNode) {
    |n.body| < 0x8000_0000_0000_0000 && forall i :: 0 <= i < |n.children| ==> BodiesFit(n.children[i])
  }

  predicate Widths(q: Query, to: Bytes) {
    1 <= q.width <= 8 && |to| == q.width
  }

  lemma WrapsOnce(a: nat, b: nat)
    requires a < TWO64 && b < TWO64
    ensures Plus64(a, b) == if a + b < TWO64 then a + b else a + b - TWO64
  {
  }

  lemma HitRecord(t: Texts, q: Query, body: Bytes) returns (f: FlatRecord)
    requires StoreHit(t, q, body).Ok? && StoreHit(t, q, body).value.Some?
    ensures f in Flatten(t, body) && FindVar(t, body, q.name, q.guid) == Ok(Some(f))
    ensures StoreHit(t, q, body) == Ok(Some(f.dataOff)) && f.record.extendedSize == 0
    ensures Plus64(q.offset, q.width) <= f.record.dataLen
    ensures 10 <= f.dataOff && DataEnd(f) <= |body|
  {
    hide Flatten, Plus64;
    f := FindVar(t, body, q.name, q.guid).value.value;
    FindVarMeaning(t, body, q.name, q.guid);
    FlattenLaminar(t, body);
  }

  /** The range written lies in the body and ends in the variable's data; it lies
      in the data altogether exactly if offset plus width does not wrap. */
  lemma TargetRange(t: Texts, q: Query, to: Bytes, body: Bytes) returns (f: FlatRecord)
    requires Widths(q, to) && |body| < 0x8000_0000_0000_0000
    requires StoreHit(t, q, body).Ok? && StoreHit(t, q, body).value.Some?
    ensures FindVar(t, body, q.name, q.guid) == Ok(Some(f)) && f in Flatten(t, body)
    ensures StoreHit(t, q, body) == Ok(Some(f.dataOff))
    ensures var off := Target(q, f.dataOff);
      && off + q.width <= DataEnd(f) <= |body| && Plus64(off, q.width) == off + q.width
      && (InsideData(f, 0, off, off + q.width) <==> q.offset + q.width < TWO64)
      && (q.offset + q.width < TWO64 ==> off == f.dataOff + q.offset)
  {
    hide StoreHit, FindVar, Flatten, Plus64;
    f := HitRecord(t, q, body);
    WrapsOnce(q.offset, q.width);
    WrapsOnce(f.dataOff, q.offset);
    WrapsOnce(Target(q, f.dataOff), q.width);
  }

  // Plans of a subtree

  function PlansBelow(i: nat, plans: seq<Plan>): seq<Plan> {
    seq(|plans|, k requires 0 <= k < |plans| => plans[k].(path := [i] + plans[k].path))
  }

  lemma {:induction false} PlansForBelow(q: Query, to: Bytes, n: FfsNode, i: nat, hits: seq<VarHit>)
    requires i < |n.children| && PlansFor(q, to, n.children[i], hits).Ok?
    ensures PlansFor(q, to, n, Below([i], hits)) == Ok(PlansBelow(i, PlansFor(q, to, n.children[i], hits).value))
    decreases |hits|
  {
    hide Plus64;
    if hits == [] {
      assert Below([i], hits) == [] && PlansBelow(i, []) == [];
    } else {
      PlansForBelow(q, to, n, i, hits[1..]);
      assert Below([i], hits) == [VarHit([i] + hits[0].path, hits[0].dataOff)] + Below([i], hits[1..]);
      assert ([i] + hits[0].path)[1..] == hits[0].path;
      var p := PlanFor(q, to, n.children[i], hits[0]).value;
      assert PlanFor(q, to, n, VarHit([i] + hits[0].path, hits[0].dataOff)) == Ok(p.(path := [i] + p.path));
      var ps, rest := PlansFor(q, to, n.children[i], hits).value, PlansFor(q, to, n.children[i], hits[1..]).value;
      assert ps == [p] + rest;
      assert PlansBelow(i, ps) == [p.(path := [i] + p.path)] + PlansBelow(i, rest);
    }
  }

  lemma {:induction false} PlansForJoined(q: Query, to: Bytes, n: FfsNode, a: seq<VarHit>, b: seq<VarHit>)
    requires PlansFor(q, to, n, a).Ok? && PlansFor(q, to, n, b).Ok?
    ensures PlansFor(q, to, n, a + b) == Ok(PlansFor(q, to, n, a).value + PlansFor(q, to, n, b).value)
    decreases |a|
  {
    hide PlanFor;
    if a == [] {
      assert a + b == b && [] + PlansFor(q, to, n, b).value == PlansFor(q, to, n, b).value;
    } else {
      PlansForJoined(q, to, n, a[1..], b);
      assert (a + b)[1..] == a[1..] + b && (a + b)[0] == a[0];
      var p, x, y := PlanFor(q, to, n, a[0]).value, PlansFor(q, to, n, a[1..]).value, PlansFor(q, to, n, b).value;
      assert [p] + (x + y) == ([p] + x) + y;
    }
  }

  lemma {:induction false} PerformJoined(n: FfsNode, a: seq<Plan>, b: seq<Plan>)
    requires PerformAll(n, a).Ok?
    ensures PerformAll(n, a + b) == PerformAll(PerformAll(n, a).value, b)
    decreases |a|
  {
    hide Perform;
    if a == [] {
      assert a + b == b;
    } else {
      PerformJoined(Perform(n, a[0]).value, a[1..], b);
      assert (a + b)[1..] == a[1..] + b;
    }
  }

  predicate SomeEffect(plans: seq<Plan>) {
    exists k :: 0 <= k < |plans| && plans[k].from != plans[k].to
  }

  function TouchedIf(n: FfsNode, b: bool): FfsNode {
    if b then n.(action := Touched(n.action)) else n
  }

  lemma MarkSetBelow(n: FfsNode, i: nat, path: Path, x: FfsNode)
    requires i < |n.children| && NodeAt(n.children[i], path).Some?
    ensures NodeAt(n, [i] + path) == NodeAt(n.children[i], path)
    ensures MarkPath(SetAt(n, [i] + path, x), [i] + path) ==
            TouchedIf(n.(children := n.children[i := MarkPath(SetAt(n.children[i], path, x), path)]), true)
  {
    var below := [i] + path;
    assert below[0] == i && below[1..] == path;
    var s := SetAt(n.children[i], path, x);
    assert SetAt(n, below, x) == n.(children := n.children[i := s]);
    assert n.children[i := s][i := MarkPath(s, path)] == n.children[i := MarkPath(s, path)];
  }

  lemma PerformBelow(n: FfsNode, i: nat, p: Plan)
    requires i < |n.children| && Perform(n.children[i], p).Ok?
    ensures Perform(n, p.(path := [i] + p.path)) ==
            Ok(TouchedIf(n.(children := n.children[i := Perform(n.children[i], p).value]), p.from != p.to))
  {
    hide Write, MarkPath, SetAt, NodeAt;
    if p.from == p.to {
      assert n.children[i := n.children[i]] == n.children;
    } else {
      var node := NodeAt(n.children[i], p.path).value;
      MarkSetBelow(n, i, p.path, node.(body := Write(node.body, p.off, p.to)));
    }
  }

  lemma {:induction false} PerformAllBelow(n: FfsNode, i: nat, plans: seq<Plan>)
    requires i < |n.children| && PerformAll(n.children[i], plans).Ok?
    ensures PerformAll(n, PlansBelow(i, plans)) ==
            Ok(TouchedIf(n.(children := n.children[i := PerformAll(n.children[i], plans).value]), SomeEffect(plans)))
    decreases |plans|
  {
    hide Perform, SomeEffect;
    if plans == [] {
      assert n.children[i := n.children[i]] == n.children;
      NoEffect();
    } else {
      var p := plans[0];
      PerformBelow(n, i, p);
      var m := Perform(n, p.(path := [i] + p.path)).value;
      assert PlansBelow(i, plans)[0] == p.(path := [i] + p.path);
      assert PlansBelow(i, plans)[1..] == PlansBelow(i, plans[1..]);
      PerformAllBelow(m, i, plans[1..]);
      var x := PerformAll(n.children[i], plans).value;
      assert m.children[i := x] == n.children[i := x];
      EffectOf(plans);
    }
  }

  lemma NoEffect()
    ensures !SomeEffect([])
  {
  }

  lemma EffectOf(plans: seq<Plan>)
    requires plans != []
    ensures SomeEffect(plans) <==> plans[0].from != plans[0].to || SomeEffect(plans[1..])
  {
    if SomeEffect(plans) && plans[0].from == plans[0].to {
      var k :| 0 <= k < |plans| && plans[k].from != plans[k].to;
      assert plans[1..][k - 1] == plans[k];
    }
  }

  lemma EffectJoined(a: seq<Plan>, b: seq<Plan>)
    ensures SomeEffect(a + b) <==> SomeEffect(a) || SomeEffect(b)
  {
    if k :| 0 <= k < |a| && a[k].from != a[k].to {
      assert (a + b)[k] == a[k];
    }
    if k :| 0 <= k < |b| && b[k].from != b[k].to {
      assert (a + b)[|a| + k] == b[k];
    }
  }

  lemma EffectBelow(i: nat, plans: seq<Plan>)
    ensures SomeEffect(PlansBelow(i, plans)) <==> SomeEffect(plans)
  {
    if k :| 0 <= k < |plans| && plans[k].from != plans[k].to {
      assert PlansBelow(i, plans)[k].from != PlansBelow(i, plans)[k].to;
    }
  }

  /** Behind a barrier nothing is hit and nothing fails. */
  lemma {:induction false} BarrierStops(t: Texts, q: Query, n: FfsNode)
    ensures CollectHits(t, q, n, true).Ok? && CollectHits(t, q, n, true).value.hits == []
    decreases n, 1
  {
    hide FindVar, ParseEntry;
    if !IsNvarBody(t, n) {
      BarrierStopsAll(t, q, n.children, 0);
    }
  }

  lemma {:induction false} BarrierStopsAll(t: Texts, q: Query, kids: seq<FfsNode>, i: nat)
    ensures CollectChildren(t, q, kids, i, true).Ok? && CollectChildren(t, q, kids, i, true).value.hits == []
    decreases kids, 0
  {
    hide FindVar, ParseEntry;
    if kids != [] {
      BarrierStops(t, q, kids[0]);
      BarrierStopsAll(t, q, kids[1..], i + 1);
    }
  }

  /** The plans of the hits exist, do what `SetAll` says, and have an effect
      exactly if something changes. */
  ghost predicate Planned(t: Texts, q: Query, to: Bytes, n: FfsNode, hits: seq<VarHit>) {
    && PlansFor(q, to, n, hits).Ok?
    && PerformAll(n, PlansFor(q, to, n, hits).value) == Ok(SetAll(t, q, to, n))
    && (SomeEffect(PlansFor(q, to, n, hits).value) <==> Changes(t, q, to, n))
  }

  lemma {:induction false} PlansSetAll(t: Texts, q: Query, to: Bytes, n: FfsNode)
    requires Widths(q, to) && BodiesFit(n) && CollectHits(t, q, n, false).Ok?
    ensures Planned(t, q, to, n, CollectHits(t, q, n, false).value.hits)
    decreases n, 1
  {
    hide FindVar, ParseEntry, StoreHit, SetAll, Changes;
    if IsNvarBody(t, n) {
      StorePlanned(t, q, to, n);
    } else if BlocksMutation(n) {
      BarrierStopsAll(t, q, n.children, 0);
      NothingPlanned(t, q, to, n);
    } else {
      assert n.children[0..] == n.children;
      KidsPlanned(t, q, to, n, 0);
      assert HalfSet(t, q, to, n, 0) == n by { NothingSet(t, q, to, n); }
      AllSet(t, q, to, n);
    }
  }

  lemma NothingPlanned(t: Texts, q: Query, to: Bytes, n: FfsNode)
    requires !IsNvarBody(t, n) && BlocksMutation(n)
    ensures Planned(t, q, to, n, [])
  {
    hide FindVar, ParseEntry, StoreHit;
  }

  lemma StorePlanned(t: Texts, q: Query, to: Bytes, n: FfsNode)
    requires IsNvarBody(t, n) && Widths(q, to) && BodiesFit(n) && CollectHits(t, q, n, false).Ok?
    ensures Planned(t, q, to, n, CollectHits(t, q, n, false).value.hits)
  {
    hide FindVar, ParseEntry, StoreHit, Write, Plus64, Flatten;
    var hit := StoreHit(t, q, n.body).value;
    if hit.None? {
      assert PlansFor(q, to, n, []) == Ok([]);
    } else {
      var f := TargetRange(t, q, to, n.body);
      var off := Target(q, f.dataOff);
      var hs := [VarHit([], f.dataOff)];
      var p := Plan([], off, n.body[off..off + q.width], to);
      assert PlanFor(q, to, n, hs[0]) == Ok(p);
      assert PlansFor(q, to, n, hs[1..]) == Ok([]);
      assert PlansFor(q, to, n, hs) == Ok([p] + []);
      assert [p] + [] == [p];
      assert PerformAll(n, [p]) == Perform(n, p) by {
        if Perform(n, p).Ok? {
          assert [p][1..] == [] && PerformAll(Perform(n, p).value, []) == Perform(n, p);
        }
      }
      assert SomeEffect([p]) <==> p.from != p.to by {
        assert [p][0] == p;
      }
    }
  }

  /** `n` with its first `k` children done. */
  function HalfSet(t: Texts, q: Query, to: Bytes, n: FfsNode, k: nat): FfsNode
    requires k <= |n.children|
  {
    TouchedIf(
      n.(children := seq(|n.children|, i requires 0 <= i < |n.children| =>
           if i < k then SetAll(t, q, to, n.children[i]) else n.children[i])),
      exists i :: 0 <= i < k && Changes(t, q, to, n.children[i]))
  }

  lemma NothingSet(t: Texts, q: Query, to: Bytes, n: FfsNode)
    ensures HalfSet(t, q, to, n, 0) == n
  {
    assert HalfSet(t, q, to, n, 0).children == n.children;
  }

  lemma AllSet(t: Texts, q: Query, to: Bytes, n: FfsNode)
    requires !IsNvarBody(t, n) && !BlocksMutation(n)
    ensures HalfSet(t, q, to, n, |n.children|) == SetAll(t, q, to, n)
    ensures Changes(t, q, to, n) <==> exists i :: 0 <= i < |n.children| && Changes(t, q, to, n.children[i])
  {
    hide ParseEntry, StoreHit;
    assert HalfSet(t, q, to, n, |n.children|).children == seq(|n.children|, i requires 0 <= i < |n.children| => SetAll(t, q, to, n.children[i]));
    if !Changes(t, q, to, n) {
      assert HalfSet(t, q, to, n, |n.children|).children == n.children;
    }
  }

  lemma SetNext(t: Texts, q: Query, to: Bytes, n: FfsNode, k: nat)
    requires k < |n.children|
    ensures var m := HalfSet(t, q, to, n, k);
      && |m.children| == |n.children| && m.children[k] == n.children[k]
      && HalfSet(t, q, to, n, k + 1) ==
         TouchedIf(m.(children := m.children[k := SetAll(t, q, to, n.children[k])]), Changes(t, q, to, n.children[k]))
  {
    hide SetAll, Changes;
    var m := HalfSet(t, q, to, n, k);
    assert HalfSet(t, q, to, n, k + 1).children == m.children[k := SetAll(t, q, to, n.children[k])];
  }

  /** From `k` children done to all of them done. */
  lemma {:induction false} KidsPlanned(t: Texts, q: Query, to: Bytes, n: FfsNode, k: nat)
    requires Widths(q, to) && BodiesFit(n) && k <= |n.children|
    requires CollectChildren(t, q, n.children[k..], k, false).Ok?
    ensures var hits := CollectChildren(t, q, n.children[k..], k, false).value.hits;
      && PlansFor(q, to, n, hits).Ok?
      && PerformAll(HalfSet(t, q, to, n, k), PlansFor(q, to, n, hits).value) == Ok(HalfSet(t, q, to, n, |n.children|))
      && (SomeEffect(PlansFor(q, to, n, hits).value) <==> exists i :: k <= i < |n.children| && Changes(t, q, to, n.children[i]))
    decreases n, 0, |n.children| - k
  {
    hide FindVar, ParseEntry, StoreHit, SetAll, Changes, PerformAll, PlansFor, CollectHits, HalfSet, Below, PlansBelow, SomeEffect;
    if k == |n.children| {
      assert n.children[k..] == [];
      NoPlans(q, to, n, HalfSet(t, q, to, n, k));
    } else {
      var kid := n.children[k];
      assert n.children[k..][0] == kid && n.children[k..][1..] == n.children[k + 1..];
      var h, rest := CollectHits(t, q, kid, false).value.hits, CollectChildren(t, q, n.children[k + 1..], k + 1, false).value.hits;
      PlansSetAll(t, q, to, kid);
      KidsPlanned(t, q, to, n, k + 1);
      PlansForBelow(q, to, n, k, h);
      PlansForJoined(q, to, n, Below([k], h), rest);
      var ps, qs := PlansFor(q, to, kid, h).value, PlansFor(q, to, n, rest).value;
      SetNext(t, q, to, n, k);
      PerformAllBelow(HalfSet(t, q, to, n, k), k, ps);
      PerformJoined(HalfSet(t, q, to, n, k), PlansBelow(k, ps), qs);
      EffectJoined(PlansBelow(k, ps), qs);
      EffectBelow(k, ps);
    }
  }

  lemma NoPlans(q: Query, to: Bytes, n: FfsNode, m: FfsNode)
    ensures PlansFor(q, to, n, []) == Ok([]) && PerformAll(m, []) == Ok(m) && !SomeEffect([])
  {
  }
}
