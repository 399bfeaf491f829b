/** What the rows of the form tree show, told from the forms and edges alone: the
    row of every form, and below every expanded row one for each reference. */
module FormReferences {
  import opened FormTree

  // Forms by number

  /** The last form with that formset and id. */
  ghost predicate IsLast(forms: seq<FormInfo>, guid: string, id: nat, i: int) {
    && 0 <= i < |forms| && forms[i].formset == guid && forms[i].id == id
    && forall j :: i < j < |forms| ==> forms[j].formset != guid || forms[j].id != id
  }

  predicate HasForm(forms: seq<FormInfo>, guid: string, id: nat) {
    exists i :: 0 <= i < |forms| && forms[i].formset == guid && forms[i].id == id
  }

  lemma LastStep(forms: seq<FormInfo>, guid: string)
    requires forms != []
    ensures var before, f := forms[..|forms| - 1], forms[|forms| - 1];
      && AllById(forms) == AllById(before)[(f.formset, f.id) := f]
      && ById(FormsOf(forms, guid)) == if f.formset == guid then ById(FormsOf(before, guid))[f.id := f] else ById(FormsOf(before, guid))
  {
    var before, f := forms[..|forms| - 1], forms[|forms| - 1];
    if f.formset == guid {
      assert (FormsOf(before, guid) + [f])[..|FormsOf(before, guid)|] == FormsOf(before, guid);
    }
  }

  lemma HasFormStep(forms: seq<FormInfo>, guid: string, id: nat)
    requires forms != []
    ensures var before, f := forms[..|forms| - 1], forms[|forms| - 1];
      && (HasForm(forms, guid, id) <==> HasForm(before, guid, id) || (f.formset == guid && f.id == id))
      && (f.formset == guid && f.id == id ==> IsLast(forms, guid, id, |forms| - 1))
      && forall i :: IsLast(before, guid, id, i) && !(f.formset == guid && f.id == id) ==> IsLast(forms, guid, id, i)
  {
    var before, f := forms[..|forms| - 1], forms[|forms| - 1];
    if HasForm(before, guid, id) {
      var i :| 0 <= i < |before| && before[i].formset == guid && before[i].id == id;
      assert forms[i] == before[i];
    }
    if f.formset == guid && f.id == id {
      assert forms[|forms| - 1] == f;
    }
  }

  /** Both maps hold the last form. */
  lemma {:induction false} LastForm(forms: seq<FormInfo>, guid: string, id: nat) returns (i: int)
    ensures (guid, id) in AllById(forms) <==> HasForm(forms, guid, id)
    ensures id in ById(FormsOf(forms, guid)) <==> HasForm(forms, guid, id)
    ensures HasForm(forms, guid, id) ==>
              IsLast(forms, guid, id, i) && AllById(forms)[(guid, id)] == forms[i] && ById(FormsOf(forms, guid))[id] == forms[i]
  {
    if forms == [] {
      i := 0;
    } else {
      hide AllById, ById, FormsOf, HasForm;
      LastStep(forms, guid);
      HasFormStep(forms, guid, id);
      i := LastForm(forms[..|forms| - 1], guid, id);
      if forms[|forms| - 1].formset == guid && forms[|forms| - 1].id == id {
        i := |forms| - 1;
      }
    }
  }

  // Rows

  /** The titles of the forms on the trail. */
  ghost predicate AreTitles(forms: seq<FormInfo>, guid: string, trail: seq<nat>, titles: seq<string>) {
    |titles| == |trail| && forall k, i :: 0 <= k < |trail| && IsLast(forms, guid, trail[k], i) ==> titles[k] == forms[i].title
  }

  /** The row of a form of the formset, at the end of its trail. */
  ghost predicate ShowsForm(forms: seq<FormInfo>, edges: seq<FormEdge>, expanded: set<RowKey>, guid: string, trail: seq<nat>, row: Row) {
    && trail != []
    && var id := trail[|trail| - 1];
      exists i, titles ::
        && IsLast(forms, guid, id, i) && AreTitles(forms, guid, trail, titles)
        && row == FormRow(FormKey(forms[i].target, guid, id, forms[i].title), forms[i].visible, |trail|, titles,
                          exists e :: e in edges && e.formset == guid && e.parent == id, ParentKey(guid, id) in expanded)
  }

  /** The row of a reference to form `b` of formset `t`, below a trail of `guid`: the
      row of that form, without anything below it, if there is one, and else one that
      leads nowhere. */
  ghost predicate ShowsReference(forms: seq<FormInfo>, expanded: set<RowKey>, guid: string, trail: seq<nat>, b: nat, t: string, row: Row) {
    if t != "" && HasForm(forms, t, b) then
      exists i, titles ::
        && IsLast(forms, t, b, i) && AreTitles(forms, guid, trail, titles)
        && row == FormRow(FormKey(forms[i].target, t, b, forms[i].title), forms[i].visible, |trail| + 1,
                          titles + [forms[i].title], false, ParentKey(t, b) in expanded)
    else row == DanglingRow(b, |trail| + 1)
  }

  lemma TitlesMeaning(forms: seq<FormInfo>, edges: seq<FormEdge>, expanded: set<RowKey>, guid: string, trail: seq<nat>)
    ensures AreTitles(forms, guid, trail, Titles(ViewOf(forms, edges, expanded, guid), trail))
  {
    hide AllById, KidsOf, FormsOf, ById;
    var v := ViewOf(forms, edges, expanded, guid);
    forall k, i | 0 <= k < |trail| && IsLast(forms, guid, trail[k], i) ensures Titles(v, trail)[k] == forms[i].title {
      var l := LastForm(forms, guid, trail[k]);
    }
  }

  lemma LocalMeaning(forms: seq<FormInfo>, edges: seq<FormEdge>, expanded: set<RowKey>, guid: string, id: nat, trail: seq<nat>)
    requires id in ViewOf(forms, edges, expanded, guid).byId
    ensures ShowsForm(forms, edges, expanded, guid, trail + [id], RowOf(ViewOf(forms, edges, expanded, guid), id, trail))
  {
    hide AllById, KidsOf, FormsOf, ById, Titles, AreTitles;
    var v := ViewOf(forms, edges, expanded, guid);
    var i := LastForm(forms, guid, id);
    TitlesMeaning(forms, edges, expanded, guid, trail + [id]);
    HasKids(edges, guid, id);
    assert (trail + [id])[|trail|] == id;
    assert IsLast(forms, guid, id, i) && AreTitles(forms, guid, trail + [id], Titles(v, trail + [id]));
  }

  lemma HasKids(edges: seq<FormEdge>, guid: string, id: nat)
    ensures KidsIn(KidsOf(edges, guid), id) != [] <==> exists e :: e in edges && e.formset == guid && e.parent == id
  {
    hide KidsOf;
    var kids := KidsIn(KidsOf(edges, guid), id);
    if kids != [] {
      KidsMeaning(edges, guid, id, kids[0]);
      assert FormEdge(guid, id, kids[0].id, kids[0].target) in edges;
    }
    if e :| e in edges && e.formset == guid && e.parent == id {
      KidsMeaning(edges, guid, id, Ref(e.child, e.target));
      assert e == FormEdge(guid, id, e.child, e.target);
    }
  }

  lemma ForeignMeaning(forms: seq<FormInfo>, edges: seq<FormEdge>, expanded: set<RowKey>, guid: string, r: Ref, trail: seq<nat>)
    ensures ShowsReference(forms, expanded, guid, trail, r.id, r.target, ForeignRow(ViewOf(forms, edges, expanded, guid), r, trail))
  {
    hide AllById, KidsOf, FormsOf, ById, Titles, AreTitles, HasForm;
    var v := ViewOf(forms, edges, expanded, guid);
    var i := LastForm(forms, r.target, r.id);
    TitlesMeaning(forms, edges, expanded, guid, trail);
    if r.target != "" && HasForm(forms, r.target, r.id) {
      assert IsLast(forms, r.target, r.id, i) && AreTitles(forms, guid, trail, Titles(v, trail));
    }
  }

  // Below an expanded row

  /** What a reference adds below a trail; nothing if it leads back to the trail. */
  function Added(v: View, r: Ref, trail: seq<nat>): seq<Placed> {
    if r.id !in v.byId then [Foreign(ForeignRow(v, r, trail), trail)]
    else if r.id in trail then []
    else [Local(RowOf(v, r.id, trail), trail + [r.id])]
  }

  /** `p` comes after number `k`, with nothing but rows below `k` in between. */
  ghost predicate Below(ps: seq<Placed>, k: nat, p: Placed) {
    k < |ps| && exists j :: k < j < |ps| && ps[j] == p && forall m :: k < m <= j ==> ps[k].trail <= ps[m].trail
  }

  lemma BelowMore(ps: seq<Placed>, k: nat, p: Placed, front: seq<Placed>, rest: seq<Placed>)
    requires Below(ps, k, p)
    ensures Below(front + ps + rest, |front| + k, p)
  {
    var j :| k < j < |ps| && ps[j] == p && forall m :: k < m <= j ==> ps[k].trail <= ps[m].trail;
    var all := front + ps + rest;
    assert all[|front| + j] == p && all[|front| + k] == ps[k];
    forall m | |front| + k < m <= |front| + j ensures all[|front| + k].trail <= all[m].trail {
      assert all[m] == ps[m - |front|];
    }
  }

  lemma {:induction false} KidIsListed(v: View, kids: seq<Ref>, trail: seq<nat>, r: Ref, p: Placed)
    requires r in kids && p in Added(v, r, trail)
    ensures p in EmitKids(v, kids, trail)
    decreases |kids|
  {
    hide RowOf, ForeignRow;
    if kids[0] != r {
      KidIsListed(v, kids[1..], trail, r, p);
    } else if r.id in v.byId {
      assert Emit(v, r.id, trail)[0] == p;
    }
  }

  lemma {:induction false} BelowForm(v: View, id: nat, trail: seq<nat>, k: nat, r: Ref, p: Placed)
    requires k < |Emit(v, id, trail)| && Emit(v, id, trail)[k].Local?
    requires var own := Emit(v, id, trail)[k].trail;
      own != [] && ParentKey(v.guid, own[|own| - 1]) in v.expanded && r in KidsIn(v.kids, own[|own| - 1]) && p in Added(v, r, own)
    ensures Below(Emit(v, id, trail), k, p)
    decreases |Unvisited(v, trail)|, 0
  {
    hide RowOf, ForeignRow, EmitKids, Below, Added, Unvisited, KidsIn;
    var more, kids := trail + [id], KidsIn(v.kids, id);
    var own := Local(RowOf(v, id, trail), more);
    UnvisitedShrinks(v, trail, id);
    var below := if ParentKey(v.guid, id) in v.expanded then EmitKids(v, kids, more) else [];
    assert Emit(v, id, trail) == [own] + below;
    if k == 0 {
      KidIsListed(v, kids, more, r, p);
      KidsStartWith(v, kids, more);
      FirstBelow(own, below, p);
    } else {
      BelowKids(v, kids, more, k - 1, r, p);
      BelowMore(below, k - 1, p, [own], []);
      assert [own] + below + [] == [own] + below;
    }
  }

  lemma FirstBelow(own: Placed, below: seq<Placed>, p: Placed)
    requires p in below && forall q :: q in below ==> own.trail <= q.trail
    ensures Below([own] + below, 0, p)
  {
    var i :| 0 <= i < |below| && below[i] == p;
    var ps := [own] + below;
    assert ps[i + 1] == p;
    forall m | 0 < m <= i + 1 ensures ps[0].trail <= ps[m].trail {
      assert ps[m] in below;
    }
  }

  lemma {:induction false} BelowKids(v: View, kids: seq<Ref>, trail: seq<nat>, k: nat, r: Ref, p: Placed)
    requires k < |EmitKids(v, kids, trail)| && EmitKids(v, kids, trail)[k].Local?
    requires var own := EmitKids(v, kids, trail)[k].trail;
      own != [] && ParentKey(v.guid, own[|own| - 1]) in v.expanded && r in KidsIn(v.kids, own[|own| - 1]) && p in Added(v, r, own)
    ensures Below(EmitKids(v, kids, trail), k, p)
    decreases |Unvisited(v, trail)|, |kids|
  {
    hide RowOf, ForeignRow, Emit, Below, Added, Unvisited, KidsIn;
    var first := if kids[0].id in v.byId then Emit(v, kids[0].id, trail) else [Foreign(ForeignRow(v, kids[0], trail), trail)];
    var rest := EmitKids(v, kids[1..], trail);
    assert EmitKids(v, kids, trail) == first + rest;
    if k < |first| {
      BelowForm(v, kids[0].id, trail, k, r, p);
      BelowMore(first, k, p, [], rest);
      assert [] + first + rest == first + rest;
    } else {
      BelowKids(v, kids[1..], trail, k - |first|, r, p);
      BelowMore(rest, k - |first|, p, first, []);
      assert first + rest + [] == first + rest;
    }
  }

  lemma {:induction false} BelowRoots(v: View, queue: seq<nat>, emitted: set<nat>, k: nat, r: Ref, p: Placed)
    requires k < |EmitRoots(v, queue, emitted)| && EmitRoots(v, queue, emitted)[k].Local?
    requires var own := EmitRoots(v, queue, emitted)[k].trail;
      own != [] && ParentKey(v.guid, own[|own| - 1]) in v.expanded && r in KidsIn(v.kids, own[|own| - 1]) && p in Added(v, r, own)
    ensures Below(EmitRoots(v, queue, emitted), k, p)
    decreases |queue|
  {
    hide Emit, Below, Added, KidsIn, Shown;
    if queue[0] in emitted {
      BelowRoots(v, queue[1..], emitted, k, r, p);
    } else {
      var first := Emit(v, queue[0], []);
      var rest := EmitRoots(v, queue[1..], emitted + Shown(first));
      if k < |first| {
        BelowForm(v, queue[0], [], k, r, p);
        BelowMore(first, k, p, [], rest);
        assert [] + first + rest == first + rest;
      } else {
        BelowRoots(v, queue[1..], emitted + Shown(first), k - |first|, r, p);
        BelowMore(rest, k - |first|, p, first, []);
        assert first + rest + [] == first + rest;
      }
    }
  }

  // The theorems

  /** The rows of an expanded formset, behind its own row. */
  ghost function FormRowsOf(forms: seq<FormInfo>, edges: seq<FormEdge>, expanded: set<RowKey>, guid: string): seq<Placed> {
    var v := ViewOf(forms, edges, expanded, guid);
    EmitRoots(v, SetQueue(forms, edges, v), {})
  }

  lemma FormRowsAreShown(forms: seq<FormInfo>, edges: seq<FormEdge>, expanded: set<RowKey>, guid: string)
    requires SetKey(guid) in expanded
    ensures SetRows(forms, edges, expanded, guid) == [SetRow(guid, true)] + RowsOf(FormRowsOf(forms, edges, expanded, guid))
  {
    hide EmitRoots, SetQueue;
  }

  /** Every row of a formset is that of a form of it, or of a reference that leads to
      no form of it, by an edge from the form above. */
  lemma RowMeaning(forms: seq<FormInfo>, edges: seq<FormEdge>, expanded: set<RowKey>, guid: string, p: Placed)
    requires p in FormRowsOf(forms, edges, expanded, guid)
    ensures p.Local? ==> ShowsForm(forms, edges, expanded, guid, p.trail, p.row)
    ensures p.Foreign? ==> p.trail != [] && exists b, t ::
              FormEdge(guid, p.trail[|p.trail| - 1], b, t) in edges && !HasForm(forms, guid, b)
              && ShowsReference(forms, expanded, guid, p.trail, b, t, p.row)
  {
    hide EmitRoots, SetQueue, AllById, KidsOf, FormsOf, ById, HasForm, ShowsForm, ShowsReference, RowOf, ForeignRow, Step, KidsIn;
    var v := ViewOf(forms, edges, expanded, guid);
    RootsPlaced(v, SetQueue(forms, edges, v), {});
    match p
    case Local(row, trail) =>
      var id := trail[|trail| - 1];
      assert trail[..|trail| - 1] + [id] == trail;
      LocalMeaning(forms, edges, expanded, guid, id, trail[..|trail| - 1]);
    case Foreign(row, trail) =>
      var a := trail[|trail| - 1];
      var r :| r in KidsIn(v.kids, a) && r.id !in v.byId && row == ForeignRow(v, r, trail);
      KidsMeaning(edges, guid, a, r);
      var i := LastForm(forms, guid, r.id);
      ForeignMeaning(forms, edges, expanded, guid, r, trail);
      assert FormEdge(guid, a, r.id, r.target) in edges;
  }

  /** Below every expanded row of a form each of its edges has a row, one level deeper:
      if the edge leads to a form of the formset that is not on the way already, that
      form's row; if it leads to no form of the formset, the row of the form of the
      formset that the edge names, or one that leads nowhere if there is no such form. */
  lemma EveryReferenceIsShown(forms: seq<FormInfo>, edges: seq<FormEdge>, expanded: set<RowKey>, guid: string, k: nat, b: nat, t: string)
      returns (p: Placed)
    requires k < |FormRowsOf(forms, edges, expanded, guid)| && FormRowsOf(forms, edges, expanded, guid)[k].Local?
    requires var trail := FormRowsOf(forms, edges, expanded, guid)[k].trail;
      trail != [] && ParentKey(guid, trail[|trail| - 1]) in expanded && FormEdge(guid, trail[|trail| - 1], b, t) in edges
    requires HasForm(forms, guid, b) ==> b !in FormRowsOf(forms, edges, expanded, guid)[k].trail
    ensures Below(FormRowsOf(forms, edges, expanded, guid), k, p)
    ensures var trail := FormRowsOf(forms, edges, expanded, guid)[k].trail;
      if HasForm(forms, guid, b) then
        p.Local? && p.trail == trail + [b] && ShowsForm(forms, edges, expanded, guid, p.trail, p.row)
      else
        p.Foreign? && p.trail == trail && ShowsReference(forms, expanded, guid, trail, b, t, p.row)
  {
    hide EmitRoots, SetQueue, AllById, KidsOf, FormsOf, ById, HasForm, ShowsForm, ShowsReference, RowOf, ForeignRow, KidsIn, Below;
    var v := ViewOf(forms, edges, expanded, guid);
    var trail, r := FormRowsOf(forms, edges, expanded, guid)[k].trail, Ref(b, t);
    var i := LastForm(forms, guid, b);
    KidsMeaning(edges, guid, trail[|trail| - 1], r);
    p := Added(v, r, trail)[0];
    BelowRoots(v, SetQueue(forms, edges, v), {}, k, r, p);
    if HasForm(forms, guid, b) {
      LocalMeaning(forms, edges, expanded, guid, b, trail);
    } else {
      ForeignMeaning(forms, edges, expanded, guid, r, trail);
    }
  }

  // Nothing below a collapsed row

  /** The forms on the way to a row are all expanded. */
  ghost predicate Opened(v: View, p: Placed) {
    p.trail != [] && forall i :: 0 <= i < (if p.Local? then |p.trail| - 1 else |p.trail|) ==> ParentKey(v.guid, p.trail[i]) in v.expanded
  }

  ghost predicate OpenTrail(v: View, trail: seq<nat>) {
    forall i :: 0 <= i < |trail| ==> ParentKey(v.guid, trail[i]) in v.expanded
  }

  lemma {:induction false} FormIsOpened(v: View, id: nat, trail: seq<nat>)
    requires OpenTrail(v, trail)
    ensures forall p :: p in Emit(v, id, trail) ==> Opened(v, p)
    decreases |Unvisited(v, trail)|, 0
  {
    hide RowOf, EmitKids, Unvisited;
    if id !in trail && id in v.byId {
      UnvisitedShrinks(v, trail, id);
      if ParentKey(v.guid, id) in v.expanded {
        KidsAreOpened(v, KidsIn(v.kids, id), trail + [id]);
      }
    }
  }

  lemma {:induction false} KidsAreOpened(v: View, kids: seq<Ref>, trail: seq<nat>)
    requires OpenTrail(v, trail) && trail != []
    ensures forall p :: p in EmitKids(v, kids, trail) ==> Opened(v, p)
    decreases |Unvisited(v, trail)|, |kids|
  {
    hide Emit, ForeignRow, Unvisited;
    if kids != [] {
      if kids[0].id in v.byId {
        FormIsOpened(v, kids[0].id, trail);
      }
      KidsAreOpened(v, kids[1..], trail);
    }
  }

  lemma {:induction false} RootsAreOpened(v: View, queue: seq<nat>, emitted: set<nat>)
    ensures forall p :: p in EmitRoots(v, queue, emitted) ==> Opened(v, p)
    decreases |queue|
  {
    hide Emit, Opened;
    if queue != [] {
      FormIsOpened(v, queue[0], []);
      RootsAreOpened(v, queue[1..], if queue[0] in emitted then emitted else emitted + Shown(Emit(v, queue[0], [])));
    }
  }

  /** No row stands below a collapsed form. */
  lemma NothingBelowCollapsed(forms: seq<FormInfo>, edges: seq<FormEdge>, expanded: set<RowKey>, guid: string, p: Placed, i: nat)
    requires p in FormRowsOf(forms, edges, expanded, guid) && i < |p.trail| && (p.Local? ==> i + 1 < |p.trail|)
    ensures ParentKey(guid, p.trail[i]) in expanded
  {
    hide EmitRoots, SetQueue, AllById, KidsOf, FormsOf, ById;
    var v := ViewOf(forms, edges, expanded, guid);
    RootsAreOpened(v, SetQueue(forms, edges, v), {});
  }

  // The order of rows

  /** Forms, starting forms and further forms come in the order of the input: what a
      part of the input gives is the front of what all of it gives. */
  lemma {:induction false} FormsInOrder(forms: seq<FormInfo>, guid: string, k: nat)
    requires k <= |forms|
    ensures FormsOf(forms[..k], guid) <= FormsOf(forms, guid)
    decreases |forms|
  {
    if k < |forms| {
      FormsInOrder(forms[..|forms| - 1], guid, k);
      assert forms[..|forms| - 1][..k] == forms[..k];
    } else {
      assert forms[..k] == forms;
    }
  }

  lemma {:induction false} QueueInOrder(v: View, list: seq<FormInfo>, incoming: set<nat>, roots: seq<nat>, k: nat)
    requires k <= |list|
    ensures RootsOf(list[..k], incoming) <= RootsOf(list, incoming)
    ensures roots <= Queue(v, list[..k], roots) <= Queue(v, list, roots)
    decreases |list|
  {
    hide Reaches;
    if k < |list| {
      QueueInOrder(v, list[..|list| - 1], incoming, roots, k);
      assert list[..|list| - 1][..k] == list[..k];
    } else {
      assert list[..k] == list;
      RootsFirst(v, list, roots);
    }
  }

  lemma {:induction false} RootsFirst(v: View, list: seq<FormInfo>, roots: seq<nat>)
    ensures roots <= Queue(v, list, roots)
  {
    hide Reaches;
    if list != [] {
      RootsFirst(v, list[..|list| - 1], roots);
    }
  }

  /** References come in the order of the edges. */
  lemma {:induction false} KidsInOrder(edges: seq<FormEdge>, guid: string, parent: nat, k: nat)
    requires k <= |edges|
    ensures KidsIn(KidsOf(edges[..k], guid), parent) <= KidsIn(KidsOf(edges, guid), parent)
    decreases |edges|
  {
    if k < |edges| {
      var before := edges[..|edges| - 1];
      KidsInOrder(before, guid, parent, k);
      assert before[..k] == edges[..k];
    } else {
      assert edges[..k] == edges;
    }
  }

  /** Rows come in the order of references, of queued forms and of formsets. */
  lemma {:induction false} KidsRowsInOrder(v: View, a: seq<Ref>, b: seq<Ref>, trail: seq<nat>)
    ensures EmitKids(v, a + b, trail) == EmitKids(v, a, trail) + EmitKids(v, b, trail)
    decreases |a|
  {
    hide Emit, ForeignRow;
    if a == [] {
      assert a + b == b;
    } else {
      assert (a + b)[0] == a[0] && (a + b)[1..] == a[1..] + b;
      KidsRowsInOrder(v, a[1..], b, trail);
    }
  }

  lemma {:induction false} QueueRowsInOrder(v: View, a: seq<nat>, b: seq<nat>, emitted: set<nat>)
    ensures EmitRoots(v, a + b, emitted) == EmitRoots(v, a, emitted) + EmitRoots(v, b, emitted + Shown(EmitRoots(v, a, emitted)))
    decreases |a|
  {
    hide Emit, Shown;
    if a == [] {
      assert a + b == b;
      NoneShown();
      assert emitted + Shown(EmitRoots(v, a, emitted)) == emitted;
    } else {
      assert (a + b)[0] == a[0] && (a + b)[1..] == a[1..] + b;
      if a[0] in emitted {
        QueueRowsInOrder(v, a[1..], b, emitted);
      } else {
        var ps := Emit(v, a[0], []);
        QueueRowsInOrder(v, a[1..], b, emitted + Shown(ps));
        var rest := EmitRoots(v, a[1..], emitted + Shown(ps));
        ShownJoined(ps, rest);
        assert emitted + Shown(ps) + Shown(rest) == emitted + Shown(ps + rest);
      }
    }
  }

  lemma NoneShown()
    ensures Shown([]) == {}
  {
  }

  lemma {:induction false} SetRowsInOrder(forms: seq<FormInfo>, edges: seq<FormEdge>, expanded: set<RowKey>, a: seq<string>, b: seq<string>)
    ensures AllSetRows(forms, edges, expanded, a + b) == AllSetRows(forms, edges, expanded, a) + AllSetRows(forms, edges, expanded, b)
    decreases |a|
  {
    hide SetRows;
    if a == [] {
      assert a + b == b;
    } else {
      assert (a + b)[0] == a[0] && (a + b)[1..] == a[1..] + b;
      SetRowsInOrder(forms, edges, expanded, a[1..], b);
    }
  }
}
