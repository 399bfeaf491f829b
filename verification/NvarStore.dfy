/** Setting a variable in the image held in memory: search, plan, write. */
module NvarStore {
  import opened Results
  import opened Words
  import opened Ffs
  import opened Ops
  import opened NvarRecords
  import opened NvarReader
  import opened NvarEdit
  import opened NvarAgreement

  /** The hits so far, with those of a subtree at `path` behind them. */
  function Joined(path: Path, out: VarHits, found: Result<VarHits, NvarError>): Result<VarHits, NvarError> {
    match found
    case Ok(h) => Ok(VarHits(out.hits + Below(path, h.hits), out.behindBarrier || h.behindBarrier))
    case Err(e) => Err(e)
  }

  lemma JoinedStep(path: Path, i: nat, out: VarHits, own: VarHits, rest: Result<VarHits, NvarError>)
    ensures Joined(path, out, Joined([], VarHits(Below([i], own.hits), own.behindBarrier), rest)) ==
            Joined(path, Joined(path + [i], out, Ok(own)).value, rest)
  {
    if rest.Ok? {
      var r := rest.value.hits;
      BelowNothing(r);
      BelowJoined(path, Below([i], own.hits), r);
      BelowBelow(path, i, own.hits);
      Assoc(out.hits, Below(path + [i], own.hits), Below(path, r));
    }
  }

  lemma BelowNothing(hits: seq<VarHit>)
    ensures Below([], hits) == hits
  {
    forall k | 0 <= k < |hits| ensures Below([], hits)[k] == hits[k] {
      assert [] + hits[k].path == hits[k].path;
    }
  }

  lemma BelowJoined(path: Path, a: seq<VarHit>, b: seq<VarHit>)
    ensures Below(path, a + b) == Below(path, a) + Below(path, b)
  {
  }

  lemma BelowBelow(path: Path, i: nat, hits: seq<VarHit>)
    ensures Below(path, Below([i], hits)) == Below(path + [i], hits)
  {
    forall k | 0 <= k < |hits| ensures Below(path, Below([i], hits))[k] == Below(path + [i], hits)[k] {
      Assoc(path, [i], hits[k].path);
    }
  }

  lemma KidsStep(t: Texts, q: Query, kids: seq<FfsNode>, i: nat, barrier: bool)
    requires kids != []
    ensures var own, rest := CollectHits(t, q, kids[0], barrier), CollectChildren(t, q, kids[1..], i + 1, barrier);
      CollectChildren(t, q, kids, i, barrier) ==
      if own.Err? then Err(own.error)
      else Joined([], VarHits(Below([i], own.value.hits), own.value.behindBarrier), rest)
  {
    hide CollectHits;
    var rest := CollectChildren(t, q, kids[1..], i + 1, barrier);
    if rest.Ok? {
      BelowNothing(rest.value.hits);
    }
  }

  method CollectVarHits(t: Texts, q: Query, n: FfsNode, path: Path, barrier: bool, out: VarHits) returns (r: Result<VarHits, NvarError>)
    ensures r == Joined(path, out, CollectHits(t, q, n, barrier))
    decreases n
  {
    hide CollectChildren, FindVar, ParseEntry, Below;
    var first := ReadEntry(t, n.body, 0);
    if (n.nodeType == File || n.nodeType == Section) && n.children == [] && first.Some? {
      var found := FindVariable(t, n.body, q.name, q.guid);
      BelowOne(path, 0);
      assert out.hits + [] == out.hits;
      if barrier {
        return Ok(VarHits(out.hits, out.behindBarrier || (found.Ok? && found.value.Some?)));
      }
      var hit :- found;
      if hit.None? {
        return Ok(out);
      }
      var f := hit.value;
      if f.record.extendedSize > 0 {
        return Err(ValueOpUnsupported);
      }
      if Plus64(q.offset, q.width) > f.record.dataLen {
        return Err(ValueOpUnsupported);
      }
      BelowOne(path, f.dataOff);
      return Ok(VarHits(out.hits + [VarHit(path, f.dataOff)], out.behindBarrier));
    }
    r := CollectVarHitsBelow(t, q, n, path, barrier || BlocksMutation(n), out);
  }

  lemma BelowOne(path: Path, off: nat)
    ensures Below(path, [VarHit([], off)]) == [VarHit(path, off)] && Below(path, []) == []
  {
    assert path + [] == path;
  }

  method CollectVarHitsBelow(t: Texts, q: Query, n: FfsNode, path: Path, barrier: bool, out: VarHits) returns (r: Result<VarHits, NvarError>)
    ensures r == Joined(path, out, CollectChildren(t, q, n.children, 0, barrier))
    decreases n, 0
  {
    hide CollectHits, CollectChildren, Joined;
    ghost var kids := n.children;
    var acc := out;
    assert kids[0..] == kids;
    for i := 0 to |n.children|
      invariant Joined(path, out, CollectChildren(t, q, kids, 0, barrier)) ==
                Joined(path, acc, CollectChildren(t, q, kids[i..], i, barrier))
    {
      assert kids[i..][0] == n.children[i] && kids[i..][1..] == kids[i + 1..];
      ghost var own := CollectHits(t, q, n.children[i], barrier);
      KidsStep(t, q, kids[i..], i, barrier);
      var next := CollectVarHits(t, q, n.children[i], path + [i], barrier, acc);
      JoinedOutcome(path + [i], acc, own);
      if next.Err? {
        JoinedOutcome(path, acc, CollectChildren(t, q, kids[i..], i, barrier));
        return next;
      }
      JoinedStep(path, i, acc, own.value, CollectChildren(t, q, kids[i + 1..], i + 1, barrier));
      acc := next.value;
    }
    assert kids[|kids|..] == [];
    NothingJoined(t, q, path, acc, |kids|, barrier);
    return Ok(acc);
  }

  lemma JoinedOutcome(path: Path, out: VarHits, found: Result<VarHits, NvarError>)
    ensures found.Err? ==> Joined(path, out, found) == found
    ensures found.Ok? ==> Joined(path, out, found).Ok?
  {
  }

  lemma NothingJoined(t: Texts, q: Query, path: Path, out: VarHits, i: nat, barrier: bool)
    ensures Joined(path, out, CollectChildren(t, q, [], i, barrier)) == Ok(out)
  {
    BelowOne(path, 0);
    assert out.hits + [] == out.hits;
  }

  /** Sets the variable in every live store, or changes nothing. */
  method NvarSet(image: ImageState, t: Texts, name: string, guid: Option<string>, offset: U64, value: U64, width: nat)
    returns (r: Result<Report, NvarError>)
    requires BodiesFit(image.root)
    modifies image`root
    ensures var c := Checked(t, image.mode, name, guid, offset, value, width);
      (c.Err? ==> r == Err(c.error))
      && (c.Ok? ==> var s := SetVariable(t, old(image.root), c.value, ValueBytes(value, width)); (s.Ok? ==> r == Ok(ReportOf(t, old(image.root), c.value, ValueBytes(value, width)))) && (s.Err? ==> r == Err(s.error)))
    ensures r.Err? ==> image.root == old(image.root)
    ensures r.Ok? ==> image.root == SetAll(t, Checked(t, image.mode, name, guid, offset, value, width).value, ValueBytes(value, width), old(image.root))
  {
    hide SetAll, CollectHits, PerformAll, PlansFor, ValueBytes, BodiesFit, Pow2;
    var checked := Checked(t, image.mode, name, guid, offset, value, width);
    if checked.Err? {
      return Err(checked.error);
    }
    var q, to := checked.value, ValueBytes(value, width);
    ghost var root := image.root;
    SetVariableMeaning(t, root, q, to);
    var collected := CollectVarHits(t, q, image.root, [], false, VarHits([], false));
    JoinedAtRoot(CollectHits(t, q, root, false));
    if collected.Err? {
      return Err(collected.error);
    }
    var found := collected.value;
    if found.hits == [] {
      return Err(if found.behindBarrier then NvarError.MutationBehindCompression else ValueOpUnsupported);
    }
    var planned := MakePlans(q, to, image.root, found.hits);
    if planned.Err? {
      return Err(planned.error);
    }
    var plans := planned.value;
    assert PerformAll(root, plans) == SetVariable(t, root, q, to);
    assert PerformAll(root, plans).Ok? by {
      PlansSetAll(t, q, to, root);
    }
    var applied := RunPlans(image, plans);
    return Ok(Report(applied, PathsOf(found.hits)));
  }

  lemma JoinedAtRoot(found: Result<VarHits, NvarError>)
    ensures Joined([], VarHits([], false), found) == found
  {
    if found.Ok? {
      BelowNothing(found.value.hits);
      assert [] + found.value.hits == found.value.hits;
    }
  }

  /** The plans for all hits, made before anything is written. */
  method MakePlans(q: Query, to: Bytes, root: FfsNode, hits: seq<VarHit>) returns (r: Result<seq<Plan>, NvarError>)
    ensures r == PlansFor(q, to, root, hits)
  {
    hide PlanFor;
    var plans: seq<Plan> := [];
    assert hits[0..] == hits;
    PlansAppendedToNothing(PlansFor(q, to, root, hits));
    for i := 0 to |hits|
      invariant PlansFor(q, to, root, hits) == PlansAppended(plans, PlansFor(q, to, root, hits[i..]))
    {
      assert hits[i..][0] == hits[i] && hits[i..][1..] == hits[i + 1..];
      var p := PlanFor(q, to, root, hits[i]);
      if p.Err? {
        return Err(p.error);
      }
      if PlansFor(q, to, root, hits[i + 1..]).Ok? {
        Assoc(plans, [p.value], PlansFor(q, to, root, hits[i + 1..]).value);
      }
      plans := plans + [p.value];
    }
    assert hits[|hits|..] == [] && plans + [] == plans;
    return Ok(plans);
  }

  function PlansAppended(plans: seq<Plan>, rest: Result<seq<Plan>, NvarError>): Result<seq<Plan>, NvarError> {
    match rest
    case Ok(ps) => Ok(plans + ps)
    case Err(e) => Err(e)
  }

  lemma PlansAppendedToNothing(rest: Result<seq<Plan>, NvarError>)
    ensures PlansAppended([], rest) == rest
  {
    if rest.Ok? {
      assert [] + rest.value == rest.value;
    }
  }

  /** Performs the plans one by one; equal bytes are left alone. */
  method RunPlans(image: ImageState, plans: seq<Plan>) returns (applied: seq<Plan>)
    requires PerformAll(image.root, plans).Ok?
    modifies image`root
    ensures PerformAll(old(image.root), plans) == Ok(image.root)
    ensures applied == Effective(plans)
  {
    hide Write, MarkPath, SetAt, NodeAt;
    applied := [];
    assert plans[0..] == plans && [] + Effective(plans) == Effective(plans);
    for i := 0 to |plans|
      invariant PerformAll(old(image.root), plans) == PerformAll(image.root, plans[i..])
      invariant Effective(plans) == applied + Effective(plans[i..])
    {
      var p := plans[i];
      assert plans[i..][0] == p && plans[i..][1..] == plans[i + 1..];
      if p.from == p.to {
        continue;
      }
      Assoc(applied, [p], Effective(plans[i + 1..]));
      var node := NodeAt(image.root, p.path).value;
      image.root := MarkPath(SetAt(image.root, p.path, node.(body := Write(node.body, p.off, p.to))), p.path);
      applied := applied + [p];
    }
    assert plans[|plans|..] == [] && applied + [] == applied;
  }
}
