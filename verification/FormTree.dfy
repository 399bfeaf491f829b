/** The tree of forms that reference each other, as rows: what is shown for a
    cyclic graph of references, and that no form is lost. */
module FormTree {
  datatype FormInfo = FormInfo(target: string, formset: string, id: nat, title: string, visible: bool)

  datatype FormEdge = FormEdge(formset: string, parent: nat, child: nat, target: string)

  datatype FormKey = FormKey(target: string, formset: string, id: nat, title: string)

  /** Keys of expanded rows: a formset, or a form of a formset. */
  datatype RowKey = SetKey(guid: string) | ParentKey(formset: string, id: nat)

  datatype Row =
    | SetRow(guid: string, expanded: bool)
    | FormRow(key: FormKey, visible: bool, depth: nat, path: seq<string>, hasChildren: bool, open: bool)
    | DanglingRow(formId: nat, at: nat)

  /** A reference: the form's id and the GUID of its formset, empty for none. */
  datatype Ref = Ref(id: nat, target: string)

  /** What the rows of one formset are made from. */
  datatype View = View(
    guid: string,
    byId: map<nat, FormInfo>,
    kids: map<nat, seq<Ref>>,
    all: map<(string, nat), FormInfo>,
    expanded: set<RowKey>)

  /** A row together with the ids of the local forms on the way to it. A local row
      ends its own trail. */
  datatype Placed = Local(row: Row, trail: seq<nat>) | Foreign(row: Row, trail: seq<nat>)

  // Maps and lists made from the input

  function FormsOf(forms: seq<FormInfo>, guid: string): seq<FormInfo> {
    if forms == [] then []
    else
      var before, f := FormsOf(forms[..|forms| - 1], guid), forms[|forms| - 1];
      if f.formset == guid then before + [f] else before
  }

  /** Formsets in the order of their first form. */
  function Order(forms: seq<FormInfo>): seq<string> {
    if forms == [] then []
    else
      var before, guid := Order(forms[..|forms| - 1]), forms[|forms| - 1].formset;
      if guid in before then before else before + [guid]
  }

  /** Of several forms with one id the last counts. */
  function ById(list: seq<FormInfo>): map<nat, FormInfo> {
    if list == [] then map[] else ById(list[..|list| - 1])[list[|list| - 1].id := list[|list| - 1]]
  }

  function AllById(forms: seq<FormInfo>): map<(string, nat), FormInfo> {
    if forms == [] then map[]
    else
      var f := forms[|forms| - 1];
      AllById(forms[..|forms| - 1])[(f.formset, f.id) := f]
  }

  function KidsIn(m: map<nat, seq<Ref>>, parent: nat): seq<Ref> {
    if parent in m then m[parent] else []
  }

  function WithEdge(m: map<nat, seq<Ref>>, e: FormEdge): map<nat, seq<Ref>> {
    var kids, r := KidsIn(m, e.parent), Ref(e.child, e.target);
    m[e.parent := if r in kids then kids else kids + [r]]
  }

  function KidsOf(edges: seq<FormEdge>, guid: string): map<nat, seq<Ref>> {
    if edges == [] then map[]
    else
      var before, e := KidsOf(edges[..|edges| - 1], guid), edges[|edges| - 1];
      if e.formset == guid then WithEdge(before, e) else before
  }

  function Incoming(edges: seq<FormEdge>, guid: string): set<nat> {
    set e | e in edges && e.formset == guid :: e.child
  }

  function ViewOf(forms: seq<FormInfo>, edges: seq<FormEdge>, expanded: set<RowKey>, guid: string): View {
    View(guid, ById(FormsOf(forms, guid)), KidsOf(edges, guid), AllById(forms), expanded)
  }

  // Rows below one form

  function Elems(trail: seq<nat>): set<nat> {
    set x | x in trail
  }

  /** Local forms that are not on the trail: what the recursion uses up. */
  function Unvisited(v: View, trail: seq<nat>): set<nat> {
    v.byId.Keys - Elems(trail)
  }

  lemma UnvisitedShrinks(v: View, trail: seq<nat>, id: nat)
    requires id in v.byId && id !in trail
    ensures |Unvisited(v, trail + [id])| < |Unvisited(v, trail)|
  {
    assert Unvisited(v, trail + [id]) == Unvisited(v, trail) - {id};
  }

  function Titles(v: View, trail: seq<nat>): seq<string> {
    seq(|trail|, i requires 0 <= i < |trail| => if trail[i] in v.byId then v.byId[trail[i]].title else "")
  }

  function RowOf(v: View, id: nat, trail: seq<nat>): Row
    requires id in v.byId
  {
    var f := v.byId[id];
    FormRow(FormKey(f.target, v.guid, f.id, f.title), f.visible, |trail| + 1, Titles(v, trail + [id]),
            KidsIn(v.kids, id) != [], ParentKey(v.guid, id) in v.expanded)
  }

  /** The row of a reference to a form of another formset, or to none. */
  function ForeignRow(v: View, r: Ref, trail: seq<nat>): Row {
    if r.target != "" && (r.target, r.id) in v.all then
      var x := v.all[(r.target, r.id)];
      FormRow(FormKey(x.target, x.formset, x.id, x.title), x.visible, |trail| + 1, Titles(v, trail) + [x.title],
              false, ParentKey(x.formset, x.id) in v.expanded)
    else DanglingRow(r.id, |trail| + 1)
  }

  function Emit(v: View, id: nat, trail: seq<nat>): seq<Placed>
    decreases |Unvisited(v, trail)|, 0
  {
    if id in trail || id !in v.byId then []
    else
      var own := Local(RowOf(v, id, trail), trail + [id]);
      UnvisitedShrinks(v, trail, id);
      [own] + if ParentKey(v.guid, id) in v.expanded then EmitKids(v, KidsIn(v.kids, id), trail + [id]) else []
  }

  function EmitKids(v: View, kids: seq<Ref>, trail: seq<nat>): seq<Placed>
    decreases |Unvisited(v, trail)|, |kids|
  {
    if kids == [] then []
    else
      (if kids[0].id in v.byId then Emit(v, kids[0].id, trail) else [Foreign(ForeignRow(v, kids[0], trail), trail)])
      + EmitKids(v, kids[1..], trail)
  }

  /** The local forms among the rows. */
  function Shown(ps: seq<Placed>): set<nat> {
    set p | p in ps && p.Local? && p.trail != [] :: p.trail[|p.trail| - 1]
  }

  function RowsOf(ps: seq<Placed>): seq<Row> {
    seq(|ps|, i requires 0 <= i < |ps| => ps[i].row)
  }

  // Where the rows of a formset start

  /** From one local form to the next along a reference. */
  predicate Step(v: View, a: nat, b: nat) {
    b in v.byId && exists i :: 0 <= i < |KidsIn(v.kids, a)| && KidsIn(v.kids, a)[i].id == b
  }

  ghost predicate IsPath(v: View, p: seq<nat>) {
    p != [] && forall i :: 0 < i < |p| ==> Step(v, p[i - 1], p[i])
  }

  ghost predicate Reaches(v: View, roots: seq<nat>, id: nat) {
    exists p :: IsPath(v, p) && p[0] in roots && p[|p| - 1] == id
  }

  /** Forms that no edge of the formset leads to. */
  function RootsOf(list: seq<FormInfo>, incoming: set<nat>): seq<nat> {
    if list == [] then []
    else
      var before, id := RootsOf(list[..|list| - 1], incoming), list[|list| - 1].id;
      if id in incoming then before else before + [id]
  }

  /** The roots, then the forms that no root reaches, each once. */
  ghost function Queue(v: View, list: seq<FormInfo>, roots: seq<nat>): seq<nat> {
    if list == [] then roots
    else
      var before, id := Queue(v, list[..|list| - 1], roots), list[|list| - 1].id;
      if Reaches(v, roots, id) || id in before then before else before + [id]
  }

  function EmitRoots(v: View, queue: seq<nat>, emitted: set<nat>): seq<Placed>
    decreases |queue|
  {
    if queue == [] then []
    else if queue[0] in emitted then EmitRoots(v, queue[1..], emitted)
    else
      var ps := Emit(v, queue[0], []);
      ps + EmitRoots(v, queue[1..], emitted + Shown(ps))
  }

  ghost function SetQueue(forms: seq<FormInfo>, edges: seq<FormEdge>, v: View): seq<nat> {
    var list := FormsOf(forms, v.guid);
    Queue(v, list, RootsOf(list, Incoming(edges, v.guid)))
  }

  ghost function SetRows(forms: seq<FormInfo>, edges: seq<FormEdge>, expanded: set<RowKey>, guid: string): seq<Row> {
    var v := ViewOf(forms, edges, expanded, guid);
    [SetRow(guid, SetKey(guid) in expanded)]
    + if SetKey(guid) in expanded then RowsOf(EmitRoots(v, SetQueue(forms, edges, v), {})) else []
  }

  ghost function AllSetRows(forms: seq<FormInfo>, edges: seq<FormEdge>, expanded: set<RowKey>, guids: seq<string>): seq<Row> {
    if guids == [] then []
    else SetRows(forms, edges, expanded, guids[0]) + AllSetRows(forms, edges, expanded, guids[1..])
  }

  ghost function TreeRows(forms: seq<FormInfo>, edges: seq<FormEdge>, expanded: set<RowKey>): seq<Row> {
    AllSetRows(forms, edges, expanded, Order(forms))
  }

  /** All formsets, and all forms that are a parent of some edge. */
  function AllRowKeys(forms: seq<FormInfo>, edges: seq<FormEdge>): set<RowKey> {
    (set f | f in forms :: SetKey(f.formset))
    + set f | f in forms && (exists e :: e in edges && e.formset == f.formset && e.parent == f.id) :: ParentKey(f.formset, f.id)
  }

  // Every row is where the trail says, and no trail repeats a form

  ghost predicate Distinct(p: seq<nat>) {
    forall i, j :: 0 <= i < j < |p| ==> p[i] != p[j]
  }

  /** A trail of different local forms, each referring to the next; the row shows
      it, one level below it if the row is not local. */
  ghost predicate WellPlaced(v: View, p: Placed) {
    && Distinct(p.trail) && IsPath(v, p.trail) && (forall i :: 0 <= i < |p.trail| ==> p.trail[i] in v.byId)
    && match p
       case Local(row, trail) => row == RowOf(v, trail[|trail| - 1], trail[..|trail| - 1])
       case Foreign(row, trail) => exists r :: r in KidsIn(v.kids, trail[|trail| - 1]) && r.id !in v.byId && row == ForeignRow(v, r, trail)
  }

  ghost predicate GoodTrail(v: View, trail: seq<nat>) {
    Distinct(trail) && (trail != [] ==> IsPath(v, trail)) && forall i :: 0 <= i < |trail| ==> trail[i] in v.byId
  }

  lemma GoodNext(v: View, id: nat, trail: seq<nat>)
    requires GoodTrail(v, trail) && id !in trail && id in v.byId && (trail != [] ==> Step(v, trail[|trail| - 1], id))
    ensures GoodTrail(v, trail + [id]) && WellPlaced(v, Local(RowOf(v, id, trail), trail + [id]))
  {
    hide Step, RowOf;
    assert (trail + [id])[..|trail|] == trail;
  }

  lemma {:induction false} EmitPlaces(v: View, id: nat, trail: seq<nat>)
    requires GoodTrail(v, trail) && (trail != [] && id in v.byId ==> Step(v, trail[|trail| - 1], id))
    ensures forall p :: p in Emit(v, id, trail) ==> WellPlaced(v, p)
    decreases |Unvisited(v, trail)|, 0
  {
    hide Step, RowOf, ForeignRow, GoodTrail, WellPlaced, Unvisited;
    if id !in trail && id in v.byId {
      var more := trail + [id];
      UnvisitedShrinks(v, trail, id);
      GoodNext(v, id, trail);
      if ParentKey(v.guid, id) in v.expanded {
        EmitKidsPlaces(v, KidsIn(v.kids, id), more, 0);
        assert KidsIn(v.kids, id)[0..] == KidsIn(v.kids, id);
      }
    }
  }

  lemma {:induction false} EmitKidsPlaces(v: View, kids: seq<Ref>, trail: seq<nat>, k: nat)
    requires GoodTrail(v, trail) && trail != [] && kids == KidsIn(v.kids, trail[|trail| - 1]) && k <= |kids|
    ensures forall p :: p in EmitKids(v, kids[k..], trail) ==> WellPlaced(v, p)
    decreases |Unvisited(v, trail)|, |kids| - k
  {
    hide RowOf, ForeignRow, Emit;
    if k < |kids| {
      var r := kids[k];
      assert kids[k..][0] == r && kids[k..][1..] == kids[k + 1..];
      EmitKidsPlaces(v, kids, trail, k + 1);
      if r.id in v.byId {
        EmitPlaces(v, r.id, trail);
      } else {
        assert WellPlaced(v, Foreign(ForeignRow(v, r, trail), trail));
      }
    }
  }

  lemma {:induction false} RootsPlaced(v: View, queue: seq<nat>, emitted: set<nat>)
    ensures forall p :: p in EmitRoots(v, queue, emitted) ==> WellPlaced(v, p)
    decreases |queue|
  {
    hide Emit, WellPlaced;
    if queue != [] {
      if queue[0] in emitted {
        RootsPlaced(v, queue[1..], emitted);
      } else {
        EmitPlaces(v, queue[0], []);
        RootsPlaced(v, queue[1..], emitted + Shown(Emit(v, queue[0], [])));
      }
    }
  }

  // Every form in the queue is shown

  lemma ShownJoined(a: seq<Placed>, b: seq<Placed>)
    ensures Shown(a + b) == Shown(a) + Shown(b)
  {
  }

  lemma FirstIsShown(v: View, id: nat)
    requires id in v.byId
    ensures id in Shown(Emit(v, id, []))
  {
    var p := Local(RowOf(v, id, []), [id]);
    assert [] + [id] == [id];
    assert Emit(v, id, [])[0] == p;
    assert p in Emit(v, id, []) && p.trail[|p.trail| - 1] == id;
  }

  /** Whatever is collapsed below, every local form in the queue gets a row. */
  lemma {:induction false} QueueIsShown(v: View, queue: seq<nat>, emitted: set<nat>, id: nat)
    requires id in queue && id in v.byId && id !in emitted
    ensures id in Shown(EmitRoots(v, queue, emitted))
    decreases |queue|
  {
    hide Emit, Shown;
    var root := queue[0];
    if root in emitted {
      QueueIsShown(v, queue[1..], emitted, id);
    } else {
      var ps := Emit(v, root, []);
      ShownJoined(ps, EmitRoots(v, queue[1..], emitted + Shown(ps)));
      if id == root {
        FirstIsShown(v, id);
      } else if id !in Shown(ps) {
        QueueIsShown(v, queue[1..], emitted + Shown(ps), id);
      }
    }
  }

  // With everything expanded, every form that a root reaches is shown

  /** A path without repetition between the same ends. */
  lemma {:induction false} Simplified(v: View, p: seq<nat>) returns (q: seq<nat>)
    requires IsPath(v, p)
    ensures IsPath(v, q) && Distinct(q) && q[0] == p[0] && q[|q| - 1] == p[|p| - 1]
    decreases |p|
  {
    hide Step;
    if Distinct(p) {
      q := p;
    } else {
      var i, j :| 0 <= i < j < |p| && p[i] == p[j];
      var cut := p[..i] + p[j..];
      forall k | 0 < k < |cut| ensures Step(v, cut[k - 1], cut[k]) {
        if k < i {
          assert Step(v, p[k - 1], p[k]);
        } else if k == i {
          assert Step(v, p[i - 1], p[i]);
        } else {
          assert Step(v, p[k - i + j - 1], p[k - i + j]);
        }
      }
      q := Simplified(v, cut);
    }
  }

  ghost predicate AllOpen(v: View, p: seq<nat>) {
    forall i :: 0 <= i < |p| - 1 ==> ParentKey(v.guid, p[i]) in v.expanded
  }

  lemma {:induction false} KidIsEmitted(v: View, kids: seq<Ref>, trail: seq<nat>, k: nat, x: nat)
    requires k < |kids| && kids[k].id in v.byId && x in Shown(Emit(v, kids[k].id, trail))
    ensures x in Shown(EmitKids(v, kids, trail))
    decreases k
  {
    hide Emit, Shown;
    var first := if kids[0].id in v.byId then Emit(v, kids[0].id, trail) else [Foreign(ForeignRow(v, kids[0], trail), trail)];
    ShownJoined(first, EmitKids(v, kids[1..], trail));
    if k > 0 {
      KidIsEmitted(v, kids[1..], trail, k - 1, x);
    }
  }

  /** The end of every open path without repetition is shown below its start. */
  lemma {:induction false} PathIsShown(v: View, p: seq<nat>, trail: seq<nat>)
    requires IsPath(v, p) && Distinct(p) && AllOpen(v, p) && p[0] in v.byId
    requires forall i :: 0 <= i < |p| ==> p[i] !in trail
    ensures p[|p| - 1] in Shown(Emit(v, p[0], trail))
    decreases |p|
  {
    hide Shown, RowOf;
    var id, more := p[0], trail + [p[0]];
    var own := Local(RowOf(v, id, trail), more);
    OwnIsShown(own, id);
    if |p| > 1 {
      assert Step(v, p[0], p[1]);
      var kids := KidsIn(v.kids, id);
      var k :| 0 <= k < |kids| && kids[k].id == p[1];
      forall i | 0 < i < |p[1..]| ensures Step(v, p[1..][i - 1], p[1..][i]) {
        assert Step(v, p[i], p[i + 1]);
      }
      PathIsShown(v, p[1..], more);
      KidIsEmitted(v, kids, more, k, p[|p| - 1]);
      ShownJoined([own], EmitKids(v, kids, more));
    } else {
      ShownJoined([own], if ParentKey(v.guid, id) in v.expanded then EmitKids(v, KidsIn(v.kids, id), more) else []);
    }
  }

  lemma OwnIsShown(own: Placed, id: nat)
    requires own.Local? && own.trail != [] && own.trail[|own.trail| - 1] == id
    ensures id in Shown([own])
  {
    assert own in [own];
  }

  /** A root that nothing leads to starts rows of its own. */
  lemma {:induction false} RootIsEmitted(v: View, queue: seq<nat>, emitted: set<nat>, root: nat, x: nat)
    requires root in queue && root !in emitted && x in Shown(Emit(v, root, []))
    requires forall id :: id in queue && id != root ==> root !in Shown(Emit(v, id, []))
    ensures x in Shown(EmitRoots(v, queue, emitted))
    decreases |queue|
  {
    hide Emit, Shown;
    if queue[0] in emitted {
      RootIsEmitted(v, queue[1..], emitted, root, x);
    } else {
      var ps := Emit(v, queue[0], []);
      ShownJoined(ps, EmitRoots(v, queue[1..], emitted + Shown(ps)));
      if queue[0] != root {
        RootIsEmitted(v, queue[1..], emitted + Shown(ps), root, x);
      }
    }
  }

  /** A form that no edge leads to is shown at the start of rows only. */
  lemma RootNotBelow(v: View, id: nat, root: nat)
    requires id != root && forall a :: !Step(v, a, root)
    ensures root !in Shown(Emit(v, id, []))
  {
    hide Emit, Step, RowOf, ForeignRow;
    EmitPlaces(v, id, []);
    StartsWith(v, id, []);
    forall p | p in Emit(v, id, []) && p.Local? && p.trail != []
      ensures p.trail[|p.trail| - 1] != root
    {
      if |p.trail| > 1 {
        assert Step(v, p.trail[|p.trail| - 2], p.trail[|p.trail| - 1]);
      } else {
        assert [] + [id] <= p.trail;
      }
    }
  }

  lemma {:induction false} StartsWith(v: View, id: nat, trail: seq<nat>)
    ensures forall p :: p in Emit(v, id, trail) ==> trail + [id] <= p.trail
    decreases |Unvisited(v, trail)|, 0
  {
    hide RowOf, ForeignRow;
    if id !in trail && id in v.byId {
      UnvisitedShrinks(v, trail, id);
      KidsStartWith(v, KidsIn(v.kids, id), trail + [id]);
    }
  }

  lemma {:induction false} KidsStartWith(v: View, kids: seq<Ref>, trail: seq<nat>)
    ensures forall p :: p in EmitKids(v, kids, trail) ==> trail <= p.trail
    decreases |Unvisited(v, trail)|, |kids|
  {
    hide Emit, ForeignRow;
    if kids != [] {
      if kids[0].id in v.byId {
        StartsWith(v, kids[0].id, trail);
      }
      KidsStartWith(v, kids[1..], trail);
    }
  }

  // The input lists

  lemma {:induction false} FormsOfMeaning(forms: seq<FormInfo>, guid: string, f: FormInfo)
    ensures f in FormsOf(forms, guid) <==> f in forms && f.formset == guid
  {
    if forms != [] {
      FormsOfMeaning(forms[..|forms| - 1], guid, f);
      assert forms == forms[..|forms| - 1] + [forms[|forms| - 1]];
    }
  }

  lemma {:induction false} ByIdMeaning(list: seq<FormInfo>, id: nat)
    ensures id in ById(list) <==> exists f :: f in list && f.id == id
    ensures id in ById(list) ==> ById(list)[id] in list && ById(list)[id].id == id
  {
    if list != [] {
      var last := list[|list| - 1];
      ByIdMeaning(list[..|list| - 1], id);
      assert list == list[..|list| - 1] + [last];
      if last.id == id {
        assert last in list;
      }
    }
  }

  /** Of the forms with one id the last one is shown. */
  lemma {:induction false} LastCounts(list: seq<FormInfo>, i: nat)
    requires i < |list| && forall j :: i < j < |list| ==> list[j].id != list[i].id
    ensures list[i].id in ById(list) && ById(list)[list[i].id] == list[i]
    decreases |list|
  {
    if i + 1 < |list| {
      assert list[..|list| - 1][i] == list[i];
      LastCounts(list[..|list| - 1], i);
    }
  }

  /** No formset comes twice, and formsets come in the order of their first forms. */
  lemma {:induction false} OrderOfAppearance(forms: seq<FormInfo>)
    ensures forall i, j :: 0 <= i < j < |Order(forms)| ==> Order(forms)[i] != Order(forms)[j]
    ensures forall k :: 0 <= k <= |forms| ==> Order(forms[..k]) <= Order(forms)
    decreases |forms|
  {
    if forms != [] {
      var before := forms[..|forms| - 1];
      OrderOfAppearance(before);
      forall k | 0 <= k <= |forms| ensures Order(forms[..k]) <= Order(forms) {
        if k < |forms| {
          assert forms[..k] == before[..k];
          assert Order(before) <= Order(forms);
        } else {
          assert forms[..k] == forms;
        }
      }
    }
  }

  lemma {:induction false} OrderMeaning(forms: seq<FormInfo>, guid: string)
    ensures guid in Order(forms) <==> exists f :: f in forms && f.formset == guid
  {
    if forms != [] {
      var last := forms[|forms| - 1];
      OrderMeaning(forms[..|forms| - 1], guid);
      assert forms == forms[..|forms| - 1] + [last];
      if last.formset == guid {
        assert last in forms;
      }
    }
  }

  lemma WithEdgeMeaning(m: map<nat, seq<Ref>>, e: FormEdge, parent: nat, r: Ref)
    ensures r in KidsIn(WithEdge(m, e), parent) <==>
            r in KidsIn(m, parent) || (parent == e.parent && r == Ref(e.child, e.target))
  {
    if parent == e.parent {
      assert KidsIn(WithEdge(m, e), parent) == WithEdge(m, e)[parent];
    }
  }

  lemma {:induction false} KidsMeaning(edges: seq<FormEdge>, guid: string, parent: nat, r: Ref)
    ensures r in KidsIn(KidsOf(edges, guid), parent) <==> FormEdge(guid, parent, r.id, r.target) in edges
  {
    hide KidsIn, WithEdge;
    if edges != [] {
      var last := edges[|edges| - 1];
      KidsMeaning(edges[..|edges| - 1], guid, parent, r);
      WithEdgeMeaning(KidsOf(edges[..|edges| - 1], guid), last, parent, r);
      assert edges == edges[..|edges| - 1] + [last];
    } else {
      NoKids(parent);
    }
  }

  ghost predicate NoRepeat(kids: seq<Ref>) {
    forall i, j :: 0 <= i < j < |kids| ==> kids[i] != kids[j]
  }

  lemma EdgeKeepsDistinct(m: map<nat, seq<Ref>>, e: FormEdge, parent: nat)
    requires NoRepeat(KidsIn(m, parent))
    ensures NoRepeat(KidsIn(WithEdge(m, e), parent))
  {
    var kids, old', r := KidsIn(WithEdge(m, e), parent), KidsIn(m, parent), Ref(e.child, e.target);
    if parent == e.parent {
      assert kids == if r in old' then old' else old' + [r];
    } else {
      assert kids == old';
    }
  }

  /** A reference that several edges give is followed once. */
  lemma {:induction false} KidsDistinct(edges: seq<FormEdge>, guid: string, parent: nat)
    ensures NoRepeat(KidsIn(KidsOf(edges, guid), parent))
    decreases |edges|
  {
    if edges != [] {
      var before, last := KidsOf(edges[..|edges| - 1], guid), edges[|edges| - 1];
      KidsDistinct(edges[..|edges| - 1], guid, parent);
      if last.formset == guid {
        EdgeKeepsDistinct(before, last, parent);
      }
    }
  }

  lemma NoKids(parent: nat)
    ensures KidsIn(map[], parent) == []
  {
  }

  lemma {:induction false} RootsMeaning(list: seq<FormInfo>, incoming: set<nat>, id: nat)
    ensures id in RootsOf(list, incoming) <==> id !in incoming && exists f :: f in list && f.id == id
  {
    if list != [] {
      var last := list[|list| - 1];
      RootsMeaning(list[..|list| - 1], incoming, id);
      assert list == list[..|list| - 1] + [last];
      if last.id == id {
        assert last in list;
      }
    }
  }

  lemma {:induction false} QueueMeaning(v: View, list: seq<FormInfo>, roots: seq<nat>, id: nat)
    ensures id in Queue(v, list, roots) <==> id in roots || ((exists f :: f in list && f.id == id) && !Reaches(v, roots, id))
  {
    hide Reaches;
    if list != [] {
      var last := list[|list| - 1];
      QueueMeaning(v, list[..|list| - 1], roots, id);
      assert list == list[..|list| - 1] + [last];
      if last.id == id {
        assert last in list;
      }
    }
  }

  // The theorems

  lemma {:induction false} RowOfSet(forms: seq<FormInfo>, edges: seq<FormEdge>, expanded: set<RowKey>, guids: seq<string>, guid: string, row: Row)
    requires guid in guids && row in SetRows(forms, edges, expanded, guid)
    ensures row in AllSetRows(forms, edges, expanded, guids)
    decreases |guids|
  {
    hide SetRows;
    if guids[0] != guid {
      RowOfSet(forms, edges, expanded, guids[1..], guid, row);
    }
  }

  /** The formset's own rows hold a row for the form, and they are part of the
      whole. The row is the form's own, not a reference from another formset. */
  ghost predicate HasRow(forms: seq<FormInfo>, edges: seq<FormEdge>, expanded: set<RowKey>, formset: string, id: nat) {
    var v := ViewOf(forms, edges, expanded, formset);
    && formset in Order(forms) && SetKey(formset) in expanded
    && exists p: Placed :: p in EmitRoots(v, SetQueue(forms, edges, v), {}) && IsRowOf(v, p, id)
         && p.row in SetRows(forms, edges, expanded, formset) && p.row in TreeRows(forms, edges, expanded)
  }

  /** A local row for the form, at the end of a trail of different local forms. */
  ghost predicate IsRowOf(v: View, p: Placed, id: nat) {
    && p.Local? && WellPlaced(v, p) && p.trail[|p.trail| - 1] == id
    && p.row.FormRow? && p.row.key.formset == v.guid && p.row.key.id == id
  }

  lemma RowOfLocal(v: View, p: Placed, id: nat)
    requires WellPlaced(v, p) && p.Local? && p.trail != [] && p.trail[|p.trail| - 1] == id
    requires id in v.byId && v.byId[id].id == id
    ensures IsRowOf(v, p, id)
  {
    hide Step;
  }

  lemma ShownHasRow(forms: seq<FormInfo>, edges: seq<FormEdge>, expanded: set<RowKey>, f: FormInfo)
    requires f in forms && SetKey(f.formset) in expanded
    requires var v := ViewOf(forms, edges, expanded, f.formset);
      f.id in Shown(EmitRoots(v, SetQueue(forms, edges, v), {}))
    ensures HasRow(forms, edges, expanded, f.formset, f.id)
  {
    hide EmitRoots, SetQueue, ById, Order, AllSetRows, AllById, KidsOf, FormsOf, ForeignRow, WellPlaced, IsRowOf;
    var v := ViewOf(forms, edges, expanded, f.formset);
    var queue := SetQueue(forms, edges, v);
    var ps := EmitRoots(v, queue, {});
    RootsPlaced(v, queue, {});
    var p :| p in ps && p.Local? && p.trail != [] && p.trail[|p.trail| - 1] == f.id;
    var i :| 0 <= i < |ps| && ps[i] == p;
    FormsOfMeaning(forms, f.formset, f);
    ByIdMeaning(FormsOf(forms, f.formset), f.id);
    RowOfLocal(v, p, f.id);
    assert RowsOf(ps)[i] == p.row;
    assert p.row in SetRows(forms, edges, expanded, f.formset);
    OrderMeaning(forms, f.formset);
    RowOfSet(forms, edges, expanded, Order(forms), f.formset, p.row);
  }

  lemma FormIsLocal(forms: seq<FormInfo>, edges: seq<FormEdge>, expanded: set<RowKey>, f: FormInfo)
    requires f in forms
    ensures f in FormsOf(forms, f.formset) && f.id in ViewOf(forms, edges, expanded, f.formset).byId
  {
    FormsOfMeaning(forms, f.formset, f);
    ByIdMeaning(FormsOf(forms, f.formset), f.id);
  }

  ghost function RootIds(forms: seq<FormInfo>, edges: seq<FormEdge>, guid: string): seq<nat> {
    RootsOf(FormsOf(forms, guid), Incoming(edges, guid))
  }

  /** In an expanded formset, whatever else is collapsed, every form is shown that
      no edge leads to, and every form that these do not reach. */
  lemma RootsAreShown(forms: seq<FormInfo>, edges: seq<FormEdge>, expanded: set<RowKey>, f: FormInfo)
    requires f in forms && SetKey(f.formset) in expanded
    requires (forall e :: e in edges && e.formset == f.formset ==> e.child != f.id) || !Reaches(ViewOf(forms, edges, expanded, f.formset), RootIds(forms, edges, f.formset), f.id)
    ensures HasRow(forms, edges, expanded, f.formset, f.id)
  {
    hide Reaches, RootsOf, FormsOf, ById, HasRow, TreeRows, EmitRoots, Queue;
    var v := ViewOf(forms, edges, expanded, f.formset);
    FormIsLocal(forms, edges, expanded, f);
    RootsMeaning(FormsOf(forms, f.formset), Incoming(edges, f.formset), f.id);
    QueueMeaning(v, FormsOf(forms, f.formset), RootIds(forms, edges, f.formset), f.id);
    QueueIsShown(v, SetQueue(forms, edges, v), {}, f.id);
    ShownHasRow(forms, edges, expanded, f);
  }

  lemma StepHasEdge(forms: seq<FormInfo>, edges: seq<FormEdge>, expanded: set<RowKey>, guid: string, a: nat, b: nat)
    requires Step(ViewOf(forms, edges, expanded, guid), a, b)
    ensures b in Incoming(edges, guid) && exists e :: e in edges && e.formset == guid && e.parent == a
  {
    var kids := KidsIn(KidsOf(edges, guid), a);
    var i :| 0 <= i < |kids| && kids[i].id == b;
    KidsMeaning(edges, guid, a, kids[i]);
    var e := FormEdge(guid, a, kids[i].id, kids[i].target);
    assert e in edges && e.child == b;
  }

  /** All parents on a path of local forms are open if all row keys are. */
  lemma PathIsOpen(forms: seq<FormInfo>, edges: seq<FormEdge>, expanded: set<RowKey>, guid: string, p: seq<nat>)
    requires AllRowKeys(forms, edges) <= expanded
    requires var v := ViewOf(forms, edges, expanded, guid); IsPath(v, p) && p[0] in v.byId
    ensures AllOpen(ViewOf(forms, edges, expanded, guid), p)
  {
    hide Step;
    var v := ViewOf(forms, edges, expanded, guid);
    forall i | 0 <= i < |p| - 1 ensures ParentKey(guid, p[i]) in expanded {
      assert Step(v, p[i], p[i + 1]);
      StepHasEdge(forms, edges, expanded, guid, p[i], p[i + 1]);
      if i > 0 {
        assert Step(v, p[i - 1], p[i]);
        StepIsLocal(v, p[i - 1], p[i]);
      }
      ByIdMeaning(FormsOf(forms, guid), p[i]);
      var f := v.byId[p[i]];
      FormsOfMeaning(forms, guid, f);
      assert ParentKey(f.formset, f.id) in AllRowKeys(forms, edges);
    }
  }

  lemma StepIsLocal(v: View, a: nat, b: nat)
    requires Step(v, a, b)
    ensures b in v.byId
  {
  }

  lemma ReachedIsShown(forms: seq<FormInfo>, edges: seq<FormEdge>, expanded: set<RowKey>, f: FormInfo)
    requires AllRowKeys(forms, edges) <= expanded && f in forms
    requires Reaches(ViewOf(forms, edges, expanded, f.formset), RootIds(forms, edges, f.formset), f.id)
    ensures var v := ViewOf(forms, edges, expanded, f.formset);
      f.id in Shown(EmitRoots(v, SetQueue(forms, edges, v), {}))
  {
    hide Step, Incoming, RootsOf, FormsOf, ById, EmitRoots, Queue, KidsOf, AllRowKeys, Shown, Emit;
    var guid := f.formset;
    var v, list := ViewOf(forms, edges, expanded, guid), FormsOf(forms, guid);
    var roots, queue := RootIds(forms, edges, guid), SetQueue(forms, edges, v);
    var p :| IsPath(v, p) && p[0] in roots && p[|p| - 1] == f.id;
    var q := Simplified(v, p);
    var root := q[0];
    RootsMeaning(list, Incoming(edges, guid), root);
    ByIdMeaning(list, root);
    PathIsOpen(forms, edges, expanded, guid, q);
    PathIsShown(v, q, []);
    QueueMeaning(v, list, roots, root);
    forall a ensures !Step(v, a, root) {
      if Step(v, a, root) {
        StepHasEdge(forms, edges, expanded, guid, a, root);
      }
    }
    forall id | id in queue && id != root ensures root !in Shown(Emit(v, id, [])) {
      RootNotBelow(v, id, root);
    }
    RootIsEmitted(v, queue, {}, root, f.id);
  }

  /** With all row keys expanded every form of every formset has a row. */
  lemma EveryFormIsShown(forms: seq<FormInfo>, edges: seq<FormEdge>, expanded: set<RowKey>, f: FormInfo)
    requires AllRowKeys(forms, edges) <= expanded && f in forms
    ensures HasRow(forms, edges, expanded, f.formset, f.id)
  {
    hide Reaches, Incoming, EmitRoots, SetQueue, HasRow, TreeRows, Shown, ViewOf, RootIds;
    assert SetKey(f.formset) in AllRowKeys(forms, edges);
    if Reaches(ViewOf(forms, edges, expanded, f.formset), RootIds(forms, edges, f.formset), f.id) {
      ReachedIsShown(forms, edges, expanded, f);
      ShownHasRow(forms, edges, expanded, f);
    } else {
      RootsAreShown(forms, edges, expanded, f);
    }
  }

  /** A row of formset `guid`: its own row, or one with a trail of different forms. */
  ghost predicate RowOfFormset(forms: seq<FormInfo>, edges: seq<FormEdge>, expanded: set<RowKey>, guid: string, row: Row) {
    row == SetRow(guid, SetKey(guid) in expanded)
    || (SetKey(guid) in expanded && exists p: Placed :: p.row == row && WellPlaced(ViewOf(forms, edges, expanded, guid), p))
  }

  /** Every row belongs to a formset of the input, and no row has a local form
      twice on its way. */
  lemma {:induction false} NoFormTwice(forms: seq<FormInfo>, edges: seq<FormEdge>, expanded: set<RowKey>, guids: seq<string>, row: Row)
    requires row in AllSetRows(forms, edges, expanded, guids)
    ensures exists guid :: guid in guids && RowOfFormset(forms, edges, expanded, guid, row)
    decreases |guids|
  {
    hide EmitRoots, SetQueue, WellPlaced, ViewOf;
    var guid := guids[0];
    if row in SetRows(forms, edges, expanded, guid) {
      var v := ViewOf(forms, edges, expanded, guid);
      assert v.guid == guid by { ViewIsOf(forms, edges, expanded, guid); }
      RootsPlaced(v, SetQueue(forms, edges, v), {});
      assert guid in guids && RowOfFormset(forms, edges, expanded, guid, row);
    } else {
      NoFormTwice(forms, edges, expanded, guids[1..], row);
    }
  }

  lemma ViewIsOf(forms: seq<FormInfo>, edges: seq<FormEdge>, expanded: set<RowKey>, guid: string)
    ensures ViewOf(forms, edges, expanded, guid).guid == guid
  {
  }

  lemma {:induction false} DistinctSize(p: seq<nat>, s: set<nat>)
    requires Distinct(p) && forall i :: 0 <= i < |p| ==> p[i] in s
    ensures |p| <= |s|
    decreases |p|
  {
    if p != [] {
      var last := p[|p| - 1];
      DistinctSize(p[..|p| - 1], s - {last});
    }
  }

  /** So no trail is longer than there are forms in the formset. */
  lemma TrailBound(v: View, p: Placed)
    requires WellPlaced(v, p)
    ensures |p.trail| <= |v.byId|
  {
    DistinctSize(p.trail, v.byId.Keys);
  }
}
