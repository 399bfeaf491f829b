/** The rows as the view makes them: maps, a queue, a stack and a set of forms
    on the path, filled step by step. */
module FormRows {
  import opened FormTree

  // Maps made from the input

  method IndexForms(list: seq<FormInfo>) returns (byId: map<nat, FormInfo>)
    ensures byId == ById(list)
  {
    byId := map[];
    for i := 0 to |list|
      invariant byId == ById(list[..i])
    {
      assert list[..i + 1][..i] == list[..i];
      byId := byId[list[i].id := list[i]];
    }
    assert list[..|list|] == list;
  }

  method IndexAll(forms: seq<FormInfo>) returns (all: map<(string, nat), FormInfo>)
    ensures all == AllById(forms)
  {
    all := map[];
    for i := 0 to |forms|
      invariant all == AllById(forms[..i])
    {
      assert forms[..i + 1][..i] == forms[..i];
      all := all[(forms[i].formset, forms[i].id) := forms[i]];
    }
    assert forms[..|forms|] == forms;
  }

  /** Formsets in order of appearance, each with its forms. */
  method GroupForms(forms: seq<FormInfo>) returns (order: seq<string>, bySet: map<string, seq<FormInfo>>)
    ensures order == Order(forms)
    ensures forall g :: g in order ==> g in bySet && bySet[g] == FormsOf(forms, g)
  {
    order, bySet := [], map[];
    for i := 0 to |forms|
      invariant order == Order(forms[..i])
      invariant forall g :: g in bySet <==> g in order
      invariant forall g :: (if g in bySet then bySet[g] else []) == FormsOf(forms[..i], g)
    {
      assert forms[..i + 1][..i] == forms[..i];
      var f := forms[i];
      if f.formset !in bySet {
        order := order + [f.formset];
      }
      bySet := bySet[f.formset := (if f.formset in bySet then bySet[f.formset] else []) + [f]];
    }
    assert forms[..|forms|] == forms;
  }

  method IndexEdges(edges: seq<FormEdge>, guid: string) returns (kids: map<nat, seq<Ref>>, incoming: set<nat>)
    ensures kids == KidsOf(edges, guid) && incoming == Incoming(edges, guid)
  {
    kids, incoming := map[], {};
    for i := 0 to |edges|
      invariant kids == KidsOf(edges[..i], guid)
      invariant forall x :: x in incoming <==> x in Incoming(edges[..i], guid)
    {
      hide WithEdge, Incoming;
      assert edges[..i + 1][..i] == edges[..i];
      var e := edges[i];
      IncomingStep(edges, guid, i);
      if e.formset != guid {
        continue;
      }
      kids := WithEdge(kids, e);
      incoming := incoming + {e.child};
    }
    assert edges[..|edges|] == edges;
  }

  lemma IncomingStep(edges: seq<FormEdge>, guid: string, i: nat)
    requires i < |edges|
    ensures Incoming(edges[..i + 1], guid) == Incoming(edges[..i], guid) + if edges[i].formset == guid then {edges[i].child} else {}
  {
    assert edges[..i + 1] == edges[..i] + [edges[i]];
  }

  // The queue of starting forms

  method FindRoots(list: seq<FormInfo>, incoming: set<nat>) returns (roots: seq<nat>)
    ensures roots == RootsOf(list, incoming)
  {
    roots := [];
    for i := 0 to |list|
      invariant roots == RootsOf(list[..i], incoming)
    {
      assert list[..i + 1][..i] == list[..i];
      if list[i].id !in incoming {
        roots := roots + [list[i].id];
      }
    }
    assert list[..|list|] == list;
  }

  lemma ReachesNext(v: View, roots: seq<nat>, a: nat, b: nat)
    requires Reaches(v, roots, a) && Step(v, a, b)
    ensures Reaches(v, roots, b)
  {
    hide Step;
    var p :| IsPath(v, p) && p[0] in roots && p[|p| - 1] == a;
    var q := p + [b];
    assert IsPath(v, q) && q[0] in roots && q[|q| - 1] == b;
  }

  lemma RootReaches(v: View, roots: seq<nat>, root: nat)
    requires root in roots
    ensures Reaches(v, roots, root)
  {
    assert IsPath(v, [root]) && [root][0] in roots && [root][|[root]| - 1] == root;
  }

  /** A set that holds the roots and is closed under steps holds what they reach. */
  lemma {:induction false} ClosedHolds(v: View, roots: seq<nat>, s: set<nat>, p: seq<nat>)
    requires IsPath(v, p) && p[0] in roots && (forall r :: r in roots ==> r in s)
    requires forall a, b :: a in s && Step(v, a, b) ==> b in s
    ensures p[|p| - 1] in s
    decreases |p|
  {
    hide Step;
    if |p| > 1 {
      var q := p[..|p| - 1];
      forall i | 0 < i < |q| ensures Step(v, q[i - 1], q[i]) {
        assert Step(v, p[i - 1], p[i]);
      }
      ClosedHolds(v, roots, s, q);
      assert Step(v, p[|p| - 2], p[|p| - 1]);
    }
  }

  /** Every step out of the set ends in it or on the stack. */
  ghost predicate Pending(v: View, done: set<nat>, stack: seq<nat>) {
    forall a, b :: a in done && Step(v, a, b) ==> b in done || b in stack
  }

  /** The local kids of `cur`, pushed onto the stack. */
  method PushKids(v: View, cur: nat, stack0: seq<nat>) returns (stack: seq<nat>)
    ensures stack0 <= stack
    ensures forall b :: b in stack ==> b in stack0 || Step(v, cur, b)
    ensures forall b :: Step(v, cur, b) ==> b in stack
  {
    stack := stack0;
    var kids := KidsIn(v.kids, cur);
    for i := 0 to |kids|
      invariant stack0 <= stack
      invariant forall b :: b in stack ==> b in stack0 || Step(v, cur, b)
      invariant forall k :: 0 <= k < i && kids[k].id in v.byId ==> kids[k].id in stack
    {
      if kids[i].id in v.byId {
        assert Step(v, cur, kids[i].id);
        stack := stack + [kids[i].id];
      }
    }
  }

  method Reachable(v: View, roots: seq<nat>) returns (reachable: set<nat>)
    requires forall r :: r in roots ==> r in v.byId
    ensures forall x :: x in reachable <==> Reaches(v, roots, x)
  {
    hide Step, Reaches, IsPath;
    reachable := {};
    var stack := roots;
    forall r | r in roots ensures Reaches(v, roots, r) {
      RootReaches(v, roots, r);
    }
    while stack != []
      invariant reachable <= v.byId.Keys && forall x :: x in stack ==> x in v.byId
      invariant forall x :: x in reachable || x in stack ==> Reaches(v, roots, x)
      invariant forall r :: r in roots ==> r in reachable || r in stack
      invariant Pending(v, reachable, stack)
      decreases |v.byId.Keys - reachable|, |stack|
    {
      var cur := stack[|stack| - 1];
      ghost var before := stack;
      stack := stack[..|stack| - 1];
      assert before == stack + [cur];
      if cur in reachable {
        continue;
      }
      Fewer(v.byId.Keys, reachable, cur);
      reachable := reachable + {cur};
      ghost var rest := stack;
      stack := PushKids(v, cur, stack);
      forall b | b in stack ensures Reaches(v, roots, b) && b in v.byId {
        if b !in rest {
          ReachesNext(v, roots, cur, b);
          StepIsLocal(v, cur, b);
        }
      }
    }
    ClosedHoldsAll(v, roots, reachable);
  }

  lemma ClosedHoldsAll(v: View, roots: seq<nat>, s: set<nat>)
    requires Pending(v, s, []) && forall r :: r in roots ==> r in s
    ensures forall x :: Reaches(v, roots, x) ==> x in s
  {
    hide Step, Reaches, IsPath;
    forall x | Reaches(v, roots, x) ensures x in s {
      var p := PathTo(v, roots, x);
      ClosedHolds(v, roots, s, p);
    }
  }

  lemma PathTo(v: View, roots: seq<nat>, x: nat) returns (p: seq<nat>)
    requires Reaches(v, roots, x)
    ensures IsPath(v, p) && p != [] && p[0] in roots && p[|p| - 1] == x
  {
    p :| IsPath(v, p) && p[0] in roots && p[|p| - 1] == x;
  }

  lemma Fewer(all: set<nat>, s: set<nat>, x: nat)
    requires x in all && x !in s
    ensures |all - (s + {x})| < |all - s|
  {
    assert all - (s + {x}) == (all - s) - {x};
  }

  /** The roots, and behind them the forms that they do not reach. */
  method MakeQueue(v: View, list: seq<FormInfo>, roots: seq<nat>) returns (queue: seq<nat>)
    requires forall r :: r in roots ==> r in v.byId
    ensures queue == Queue(v, list, roots)
  {
    hide Reaches;
    var reachable := Reachable(v, roots);
    queue := roots;
    for i := 0 to |list|
      invariant queue == Queue(v, list[..i], roots)
    {
      assert list[..i + 1][..i] == list[..i];
      var id := list[i].id;
      if id !in reachable && id !in queue {
        queue := queue + [id];
      }
    }
    assert list[..|list|] == list;
  }

  // Rows

  class RowBuilder {
    const v: View
    var path: seq<string>
    var onPath: set<nat>
    var emitted: set<nat>
    var rows: seq<Row>

    constructor (v: View, rows: seq<Row>)
      ensures this.v == v && this.rows == rows && path == [] && onPath == {} && emitted == {}
    {
      this.v, this.rows, path, onPath, emitted := v, rows, [], {}, {};
    }

    /** The path and the set on it are those of the trail. */
    ghost predicate At(trail: seq<nat>)
      reads this
    {
      path == Titles(v, trail) && onPath == Elems(trail)
    }

    /** Adds the rows of the form and of what is open below it, and leaves the
        path as it found it. */
    method EmitForm(id: nat, depth: nat, ghost trail: seq<nat>)
      requires At(trail) && depth == |trail| + 1
      modifies this`path, this`onPath, this`emitted, this`rows
      ensures At(trail)
      ensures rows == old(rows) + RowsOf(Emit(v, id, trail)) && emitted == old(emitted) + Shown(Emit(v, id, trail))
      decreases |Unvisited(v, trail)|, 0
    {
      hide Unvisited, Emit, EmitKids, KidsIn, Shown, RowsOf, Titles, Elems;
      NothingEmitted();
      FormNext(v, id, trail);
      InElems(trail, id);
      if id in onPath || id !in v.byId {
        return;
      }
      UnvisitedShrinks(v, trail, id);
      var f, kids, open := v.byId[id], KidsIn(v.kids, id), ParentKey(v.guid, id) in v.expanded;
      ghost var more := trail + [id];
      ghost var below := if open then EmitKids(v, kids, more) else [];
      OneEmitted(Local(RowOf(v, id, trail), more), id, below);
      TitlesMore(v, trail, id);
      path := path + [f.title];
      rows := rows + [FormRow(FormKey(f.target, v.guid, f.id, f.title), f.visible, depth, path, kids != [], open)];
      emitted := emitted + {id};
      if kids != [] && open {
        onPath := onPath + {id};
        EmitKidsOf(kids, depth, more);
        onPath := onPath - {id};
      } else {
        NoKidsEmitted(v, more);
        assert below == [];
      }
      Regroup(old(rows), [RowOf(v, id, trail)], RowsOf(below));
      path := path[..|path| - 1];
    }

    method EmitKidsOf(kids: seq<Ref>, depth: nat, ghost trail: seq<nat>)
      requires At(trail) && depth == |trail|
      modifies this`path, this`onPath, this`emitted, this`rows
      ensures At(trail)
      ensures rows == old(rows) + RowsOf(EmitKids(v, kids, trail)) && emitted == old(emitted) + Shown(EmitKids(v, kids, trail))
      decreases |Unvisited(v, trail)|, |kids| + 1
    {
      hide Unvisited, Emit, Shown, RowsOf, EmitKids, Titles, Elems;
      ghost var done: seq<Placed> := [];
      NothingEmitted();
      assert kids[0..] == kids && [] + EmitKids(v, kids, trail) == EmitKids(v, kids, trail);
      for i := 0 to |kids|
        invariant At(trail)
        invariant EmitKids(v, kids, trail) == done + EmitKids(v, kids[i..], trail)
        invariant rows == old(rows) + RowsOf(done) && emitted == old(emitted) + Shown(done)
      {
        var r := kids[i];
        assert kids[i..][0] == r && kids[i..][1..] == kids[i + 1..];
        ghost var next := if r.id in v.byId then Emit(v, r.id, trail) else [Foreign(ForeignRow(v, r, trail), trail)];
        KidsNext(v, kids[i..], trail);
        AppendPlaced(done, next, EmitKids(v, kids[i + 1..], trail));
        if r.id in v.byId {
          EmitForm(r.id, depth + 1, trail);
        } else {
          ForeignEmitted(ForeignRow(v, r, trail), trail);
          if r.target != "" && (r.target, r.id) in v.all {
            var x := v.all[(r.target, r.id)];
            rows := rows + [FormRow(FormKey(x.target, x.formset, x.id, x.title), x.visible, depth + 1, path + [x.title],
                                    false, ParentKey(x.formset, x.id) in v.expanded)];
          } else {
            rows := rows + [DanglingRow(r.id, depth + 1)];
          }
        }
        Regroup(old(rows), RowsOf(done), RowsOf(next));
        done := done + next;
      }
      assert kids[|kids|..] == [];
      NoKidsEmitted(v, trail);
      assert done + [] == done;
    }

    method EmitQueue(queue: seq<nat>)
      requires At([]) && emitted == {}
      modifies this`path, this`onPath, this`emitted, this`rows
      ensures rows == old(rows) + RowsOf(EmitRoots(v, queue, {}))
    {
      hide Emit, Shown, RowsOf, EmitRoots, Titles, Elems;
      ghost var done: seq<Placed> := [];
      NothingEmitted();
      assert queue[0..] == queue && [] + EmitRoots(v, queue, {}) == EmitRoots(v, queue, {});
      for i := 0 to |queue|
        invariant At([])
        invariant EmitRoots(v, queue, {}) == done + EmitRoots(v, queue[i..], emitted)
        invariant rows == old(rows) + RowsOf(done)
      {
        assert queue[i..][0] == queue[i] && queue[i..][1..] == queue[i + 1..];
        RootsNext(v, queue[i..], emitted);
        if queue[i] in emitted {
          continue;
        }
        ghost var next := Emit(v, queue[i], []);
        AppendPlaced(done, next, EmitRoots(v, queue[i + 1..], emitted + Shown(next)));
        EmitForm(queue[i], 1, []);
        Regroup(old(rows), RowsOf(done), RowsOf(next));
        done := done + next;
      }
      assert queue[|queue|..] == [];
      RootsEnd(v, emitted);
      assert done + [] == done;
    }
  }

  lemma FormNext(v: View, id: nat, trail: seq<nat>)
    ensures id in trail || id !in v.byId ==> Emit(v, id, trail) == []
    ensures id !in trail && id in v.byId ==>
              Emit(v, id, trail) == [Local(RowOf(v, id, trail), trail + [id])]
                                    + if ParentKey(v.guid, id) in v.expanded then EmitKids(v, KidsIn(v.kids, id), trail + [id]) else []
  {
    hide EmitKids, RowOf, KidsIn;
  }

  lemma InElems(trail: seq<nat>, id: nat)
    ensures id in Elems(trail) <==> id in trail
    ensures id !in trail ==> Elems(trail + [id]) == Elems(trail) + {id} && Elems(trail + [id]) - {id} == Elems(trail)
  {
  }

  lemma NothingEmitted()
    ensures RowsOf([]) == [] && Shown([]) == {}
  {
  }

  lemma NoKidsEmitted(v: View, trail: seq<nat>)
    ensures EmitKids(v, [], trail) == [] && RowsOf([]) == [] && Shown([]) == {}
  {
  }

  lemma OneEmitted(own: Placed, id: nat, rest: seq<Placed>)
    requires own.Local? && own.trail != [] && own.trail[|own.trail| - 1] == id
    ensures RowsOf([own] + rest) == [own.row] + RowsOf(rest) && Shown([own] + rest) == {id} + Shown(rest)
  {
    OwnIsShown(own, id);
    ShownJoined([own], rest);
  }

  lemma ForeignEmitted(row: Row, trail: seq<nat>)
    ensures RowsOf([Foreign(row, trail)]) == [row] && Shown([Foreign(row, trail)]) == {}
  {
  }

  lemma TitlesMore(v: View, trail: seq<nat>, id: nat)
    requires id in v.byId
    ensures Titles(v, trail + [id]) == Titles(v, trail) + [v.byId[id].title]
  {
  }

  lemma KidsNext(v: View, kids: seq<Ref>, trail: seq<nat>)
    requires kids != []
    ensures EmitKids(v, kids, trail) ==
            (if kids[0].id in v.byId then Emit(v, kids[0].id, trail) else [Foreign(ForeignRow(v, kids[0], trail), trail)])
            + EmitKids(v, kids[1..], trail)
  {
    hide Emit, ForeignRow;
  }

  lemma RootsNext(v: View, queue: seq<nat>, emitted: set<nat>)
    requires queue != []
    ensures EmitRoots(v, queue, emitted) ==
            if queue[0] in emitted then EmitRoots(v, queue[1..], emitted)
            else Emit(v, queue[0], []) + EmitRoots(v, queue[1..], emitted + Shown(Emit(v, queue[0], [])))
  {
    hide Emit, Shown;
  }

  lemma RootsEnd(v: View, emitted: set<nat>)
    ensures EmitRoots(v, [], emitted) == []
  {
  }

  lemma AppendPlaced(done: seq<Placed>, next: seq<Placed>, rest: seq<Placed>)
    ensures done + (next + rest) == (done + next) + rest
    ensures RowsOf(done + next) == RowsOf(done) + RowsOf(next) && Shown(done + next) == Shown(done) + Shown(next)
  {
    ShownJoined(done, next);
  }

  lemma Regroup(a: seq<Row>, b: seq<Row>, c: seq<Row>)
    ensures (a + b) + c == a + (b + c)
  {
  }

  // All rows

  method BuildTreeRows(forms: seq<FormInfo>, edges: seq<FormEdge>, expanded: set<RowKey>) returns (rows: seq<Row>)
    ensures rows == TreeRows(forms, edges, expanded)
  {
    hide ById, Order, FormsOf, AllById, SetRows;
    var all := IndexAll(forms);
    var order, bySet := GroupForms(forms);
    rows := [];
    assert order[0..] == order;
    for i := 0 to |order|
      invariant TreeRows(forms, edges, expanded) == rows + AllSetRows(forms, edges, expanded, order[i..])
    {
      var guid := order[i];
      assert order[i..][0] == guid && order[i..][1..] == order[i + 1..];
      var own := FormsetRows(forms, edges, expanded, guid, bySet[guid], all);
      Regroup(rows, own, AllSetRows(forms, edges, expanded, order[i + 1..]));
      rows := rows + own;
    }
    assert order[|order|..] == [] && rows + [] == rows;
  }

  method FormsetRows(forms: seq<FormInfo>, edges: seq<FormEdge>, expanded: set<RowKey>, guid: string, list: seq<FormInfo>,
                     all: map<(string, nat), FormInfo>) returns (rows: seq<Row>)
    requires list == FormsOf(forms, guid) && all == AllById(forms)
    ensures rows == SetRows(forms, edges, expanded, guid)
  {
    hide ById, FormsOf, AllById, KidsOf, Incoming, Queue, EmitRoots, RootsOf, RowsOf;
    rows := [SetRow(guid, SetKey(guid) in expanded)];
    if SetKey(guid) !in expanded {
      assert rows + [] == rows;
      return;
    }
    var kids, incoming := IndexEdges(edges, guid);
    var byId := IndexForms(list);
    var v := View(guid, byId, kids, all, expanded);
    var roots := FindRoots(list, incoming);
    forall r | r in roots ensures r in v.byId {
      RootsMeaning(list, incoming, r);
      ByIdMeaning(list, r);
    }
    var queue := MakeQueue(v, list, roots);
    var builder := new RowBuilder(v, rows);
    assert builder.At([]);
    builder.EmitQueue(queue);
    rows := builder.rows;
  }

  /** The keys that expand everything. */
  method CollectRowKeys(forms: seq<FormInfo>, edges: seq<FormEdge>) returns (keys: set<RowKey>)
    ensures keys == AllRowKeys(forms, edges)
  {
    keys := set f | f in forms :: SetKey(f.formset);
    var parents := set e | e in edges :: (e.formset, e.parent);
    for i := 0 to |forms|
      invariant keys == (set f | f in forms :: SetKey(f.formset))
                        + set f | f in forms[..i] && (f.formset, f.id) in parents :: ParentKey(f.formset, f.id)
    {
      assert forms[..i + 1] == forms[..i] + [forms[i]];
      if (forms[i].formset, forms[i].id) in parents {
        keys := keys + {ParentKey(forms[i].formset, forms[i].id)};
      }
    }
    assert forms[..|forms|] == forms;
    forall f | f in forms
      ensures (f.formset, f.id) in parents <==> exists e :: e in edges && e.formset == f.formset && e.parent == f.id
    {
    }
  }
}
