/** What every edit keeps: marked nodes have marked ancestors, unmarked nodes are
    unaltered, and no section that cannot be compressed again becomes dirty. */
module Edits {
  import opened Results
  import opened Words
  import opened Ffs
  import opened Compress
  import opened Builder
  import opened FileCodec
  import opened Locality
  import opened Ops

  // Marks are visible from above

  /** Every node that carries an action has only ancestors that carry one. */
  ghost predicate Visible(n: FfsNode) {
    forall i :: 0 <= i < |n.children| ==>
      Visible(n.children[i]) && (n.children[i].action != NoAction ==> n.action != NoAction)
  }

  /** In a visible tree the recursive dirtiness test is a look at one node. */
  lemma {:induction false} DirtyIsMarked(n: FfsNode)
    requires Visible(n)
    ensures SubtreeDirty(n) <==> n.action != NoAction
  {
    if n.action == NoAction {
      forall i | 0 <= i < |n.children| ensures !SubtreeDirty(n.children[i]) {
        DirtyIsMarked(n.children[i]);
      }
    }
  }

  // Unmarked nodes are unaltered

  /** Every node without an action is one of the pool, unaltered down to its leaves. */
  ghost predicate Known(n: FfsNode, pool: iset<FfsNode>) {
    (n.action == NoAction ==> n in pool) && forall i :: 0 <= i < |n.children| ==> Known(n.children[i], pool)
  }

  /** Known but for the nodes along the path, whose marks are still missing. */
  ghost predicate KnownOff(n: FfsNode, path: Path, pool: iset<FfsNode>)
    decreases |path|
  {
    if path == [] || path[0] >= |n.children| then
      forall i :: 0 <= i < |n.children| ==> Known(n.children[i], pool)
    else
      && KnownOff(n.children[path[0]], path[1..], pool)
      && forall i :: 0 <= i < |n.children| && i != path[0] ==> Known(n.children[i], pool)
  }

  lemma {:induction false} KnownIsOff(n: FfsNode, path: Path, pool: iset<FfsNode>)
    requires Known(n, pool)
    ensures KnownOff(n, path, pool)
    decreases |path|
  {
    if path != [] && path[0] < |n.children| {
      KnownIsOff(n.children[path[0]], path[1..], pool);
    }
  }

  lemma {:induction false} SetIsOff(n: FfsNode, at: Path, x: FfsNode, path: Path, pool: iset<FfsNode>)
    requires Known(n, pool) && NodeAt(n, at).Some? && KnownOff(x, path, pool)
    ensures KnownOff(SetAt(n, at, x), at + path, pool)
    decreases |at|
  {
    if at == [] {
      assert at + path == path;
    } else {
      SetIsOff(n.children[at[0]], at[1..], x, path, pool);
      assert (at + path)[1..] == at[1..] + path;
    }
  }

  /** The marks along the path make up for the change. */
  lemma {:induction false} MarkMakesKnown(n: FfsNode, path: Path, pool: iset<FfsNode>)
    requires KnownOff(n, path, pool)
    ensures Known(MarkPath(n, path), pool) && MarkPath(n, path).action != NoAction
    decreases |path|
  {
    if path != [] && path[0] < |n.children| {
      MarkMakesKnown(n.children[path[0]], path[1..], pool);
    }
  }

  lemma SetAndMark(n: FfsNode, at: Path, x: FfsNode, path: Path, pool: iset<FfsNode>)
    requires Known(n, pool) && NodeAt(n, at).Some? && KnownOff(x, path, pool)
    ensures Known(MarkPath(SetAt(n, at, x), at + path), pool)
  {
    SetIsOff(n, at, x, path, pool);
    MarkMakesKnown(SetAt(n, at, x), at + path, pool);
  }

  lemma {:induction false} KnownAt(n: FfsNode, path: Path, pool: iset<FfsNode>)
    requires Known(n, pool) && NodeAt(n, path).Some?
    ensures Known(NodeAt(n, path).value, pool)
    decreases |path|
  {
    if path != [] {
      KnownAt(n.children[path[0]], path[1..], pool);
    }
  }

  lemma {:induction false} KnownGrows(n: FfsNode, pool: iset<FfsNode>, more: iset<FfsNode>)
    requires Known(n, pool) && pool <= more
    ensures Known(n, more)
  {
    forall i | 0 <= i < |n.children| ensures Known(n.children[i], more) {
      KnownGrows(n.children[i], pool, more);
    }
  }

  lemma ParsedIsLeaf(data: Bytes)
    requires ParseFile(data, 0, 0xFF, 2).Ok?
    ensures var f := ParseFile(data, 0, 0xFF, 2).value;
      f.children == [] && f.nodeType == File && f.action == NoAction && f.parsingData.FileData?
  {
  }

  /** The file that an insertion adds. */
  function Inserted(root: FfsNode, path: Path, data: Bytes, mode: InsertMode): FfsNode
    requires ParseFile(data, 0, 0xFF, 2).Ok? && (mode != Into ==> path != [])
  {
    Adapted(root, if mode == Into then path else path[..|path| - 1], ParseFile(data, 0, 0xFF, 2).value)
  }

  lemma InsertKeepsKnown(root: FfsNode, path: Path, data: Bytes, mode: InsertMode, pool: iset<FfsNode>)
    requires Known(root, pool) && InsertNode(root, path, data, mode).Ok?
    requires Inserted(root, path, data, mode) in pool
    ensures Known(InsertNode(root, path, data, mode).value, pool)
  {
    hide EnsureMutable, ParseFile, EnclosingEmptyByte;
    ParsedIsLeaf(data);
    var f := Inserted(root, path, data, mode);
    if mode == Into {
      var parent := NodeAt(root, path).value;
      KnownAt(root, path, pool);
      WithChildOff(parent, |parent.children|, f, [], pool);
      assert parent.children[..|parent.children|] + [f] + parent.children[|parent.children|..] == parent.children + [f];
      SetAndMark(root, path, parent.(children := parent.children + [f]), [], pool);
      assert path + [] == path;
    } else {
      var up, idx := path[..|path| - 1], path[|path| - 1];
      var parent := NodeAt(root, up).value;
      KnownAt(root, up, pool);
      var at := if mode == Before then idx else idx + 1;
      WithChildOff(parent, at, f, [idx], pool);
      SetAndMark(root, up, parent.(children := parent.children[..at] + [f] + parent.children[at..]), [idx], pool);
      assert up + [idx] == path;
    }
  }

  lemma WithChildOff(n: FfsNode, at: nat, f: FfsNode, path: Path, pool: iset<FfsNode>)
    requires Known(n, pool) && at <= |n.children| && f in pool && f.children == [] && |path| <= 1
    ensures KnownOff(n.(children := n.children[..at] + [f] + n.children[at..]), path, pool)
  {
    var x := n.(children := n.children[..at] + [f] + n.children[at..]);
    forall i | 0 <= i < |x.children| ensures Known(x.children[i], pool) {
      if i > at {
        assert x.children[i] == n.children[i - 1];
      }
    }
    if path != [] && path[0] < |x.children| {
      KnownIsOff(x.children[path[0]], path[1..], pool);
    }
  }

  lemma RemoveKeepsKnown(root: FfsNode, path: Path, pool: iset<FfsNode>)
    requires Known(root, pool) && RemoveNode(root, path).Ok?
    ensures Known(RemoveNode(root, path).value, pool)
  {
    hide EnsureMutable;
    KnownAt(root, path, pool);
    assert path + [] == path;
    SetAndMark(root, path, NodeAt(root, path).value.(action := Remove), [], pool);
  }

  lemma ReplaceKeepsKnown(root: FfsNode, path: Path, data: Bytes, bodyOnly: bool, pool: iset<FfsNode>)
    requires Known(root, pool) && ReplaceNode(root, path, data, bodyOnly).Ok?
    ensures Known(ReplaceNode(root, path, data, bodyOnly).value, pool)
  {
    hide EnsureMutable, ParseFile;
    assert path + [] == path;
    var node := NodeAt(root, path).value;
    if bodyOnly {
      SetAndMark(root, path, WithBody(node, data), [], pool);
    } else {
      ParsedIsLeaf(data);
      SetAndMark(root, path, WithContents(node, ParseFile(data, 0, 0xFF, 2).value), [], pool);
    }
  }

  lemma RebuildKeepsKnown(root: FfsNode, path: Path, pool: iset<FfsNode>)
    requires Known(root, pool) && RebuildNode(root, path).Ok?
    ensures Known(RebuildNode(root, path).value, pool)
  {
    hide EnsureMutable;
    KnownAt(root, path, pool);
    assert path + [] == path;
    SetAndMark(root, path, NodeAt(root, path).value.(action := Rebuild), [], pool);
  }

  // The pool of all clean trees

  ghost function CleanTrees(): iset<FfsNode> {
    iset n: FfsNode | !SubtreeDirty(n)
  }

  /** In a visible tree, and in no other, all unmarked nodes are clean to their leaves. */
  lemma {:induction false} VisibleMeaning(n: FfsNode)
    ensures Visible(n) <==> Known(n, CleanTrees())
  {
    forall i | 0 <= i < |n.children| ensures Visible(n.children[i]) <==> Known(n.children[i], CleanTrees()) {
      VisibleMeaning(n.children[i]);
    }
    if Visible(n) {
      DirtyIsMarked(n);
    }
    if Known(n, CleanTrees()) && n.action == NoAction {
      CleanBelow(n);
    }
  }

  lemma CleanBelow(n: FfsNode)
    requires !SubtreeDirty(n)
    ensures forall i :: 0 <= i < |n.children| ==> n.children[i].action == NoAction
  {
    forall i | 0 <= i < |n.children| ensures n.children[i].action == NoAction {
      assert !SubtreeDirty(n.children[i]);
    }
  }

  // No section that cannot be compressed again becomes dirty

  /** A node whose edit the builder would refuse or, if regions count, ignore. */
  predicate Untouchable(n: FfsNode, regions: bool) {
    (regions && n.nodeType == Region) || BlockedSection(n)
  }

  ghost predicate Guarded(n: FfsNode, regions: bool) {
    (Untouchable(n, regions) ==> n.action == NoAction) && forall i :: 0 <= i < |n.children| ==> Guarded(n.children[i], regions)
  }

  /** No untouchable node lies on the path, as far as it leads. */
  ghost predicate PathFree(n: FfsNode, path: Path, regions: bool)
    decreases |path|
  {
    !Untouchable(n, regions) && (path != [] && path[0] < |n.children| ==> PathFree(n.children[path[0]], path[1..], regions))
  }

  lemma {:induction false} MutableIsFree(n: FfsNode, path: Path, checked: nat, regions: bool)
    requires !Untouchable(n, regions) && EnsureMutable(n, path, checked).Ok? && checked >= |path|
    ensures PathFree(n, path, regions)
    decreases |path|
  {
    if path != [] && path[0] < |n.children| {
      MutableIsFree(n.children[path[0]], path[1..], checked - 1, regions);
    }
  }

  lemma {:induction false} MutablePrefix(n: FfsNode, path: Path, checked: nat)
    requires EnsureMutable(n, path, checked).Ok? && path != [] && checked == |path| - 1
    ensures EnsureMutable(n, path[..|path| - 1], checked).Ok?
    decreases |path|
  {
    var up := path[..|path| - 1];
    if |path| > 1 && path[0] < |n.children| {
      MutablePrefix(n.children[path[0]], path[1..], checked - 1);
      assert up[1..] == path[1..][..|path| - 2];
    }
  }

  lemma {:induction false} MarkKeepsGuarded(n: FfsNode, path: Path, regions: bool)
    requires Guarded(n, regions) && PathFree(n, path, regions)
    ensures Guarded(MarkPath(n, path), regions)
    decreases |path|
  {
    if path != [] && path[0] < |n.children| {
      MarkKeepsGuarded(n.children[path[0]], path[1..], regions);
    }
  }

  lemma {:induction false} SetKeepsGuarded(n: FfsNode, at: Path, x: FfsNode, path: Path, regions: bool)
    requires Guarded(n, regions) && NodeAt(n, at).Some? && PathFree(n, at, regions) && Guarded(x, regions) && PathFree(x, path, regions)
    ensures Guarded(SetAt(n, at, x), regions) && PathFree(SetAt(n, at, x), at + path, regions)
    decreases |at|
  {
    if at == [] {
      assert at + path == path;
    } else {
      SetKeepsGuarded(n.children[at[0]], at[1..], x, path, regions);
      assert (at + path)[1..] == at[1..] + path;
    }
  }

  lemma GuardedEdit(n: FfsNode, at: Path, x: FfsNode, path: Path, regions: bool)
    requires Guarded(n, regions) && NodeAt(n, at).Some? && PathFree(n, at, regions) && Guarded(x, regions) && PathFree(x, path, regions)
    ensures Guarded(MarkPath(SetAt(n, at, x), at + path), regions)
  {
    SetKeepsGuarded(n, at, x, path, regions);
    MarkKeepsGuarded(SetAt(n, at, x), at + path, regions);
  }

  lemma {:induction false} GuardedAt(n: FfsNode, path: Path, regions: bool)
    requires Guarded(n, regions) && NodeAt(n, path).Some? && PathFree(n, path, regions)
    ensures Guarded(NodeAt(n, path).value, regions) && !Untouchable(NodeAt(n, path).value, regions)
    decreases |path|
  {
    if path != [] {
      GuardedAt(n.children[path[0]], path[1..], regions);
    }
  }

  lemma RemoveKeepsGuarded(root: FfsNode, path: Path, regions: bool)
    requires Guarded(root, regions) && !Untouchable(root, regions) && RemoveNode(root, path).Ok?
    ensures Guarded(RemoveNode(root, path).value, regions)
  {
    MutableIsFree(root, path, |path|, regions);
    GuardedAt(root, path, regions);
    assert path + [] == path;
    GuardedEdit(root, path, NodeAt(root, path).value.(action := Remove), [], regions);
  }

  lemma RebuildKeepsGuarded(root: FfsNode, path: Path, regions: bool)
    requires Guarded(root, regions) && !Untouchable(root, regions) && RebuildNode(root, path).Ok?
    ensures Guarded(RebuildNode(root, path).value, regions)
  {
    MutableIsFree(root, path, |path|, regions);
    GuardedAt(root, path, regions);
    assert path + [] == path;
    GuardedEdit(root, path, NodeAt(root, path).value.(action := Rebuild), [], regions);
  }

  /** Replacing keeps the guard: the target was not untouchable, and neither a
      new body nor a parsed file makes it so. */
  lemma ReplaceKeepsGuarded(root: FfsNode, path: Path, data: Bytes, bodyOnly: bool, regions: bool)
    requires Guarded(root, regions) && !Untouchable(root, regions) && ReplaceNode(root, path, data, bodyOnly).Ok?
    ensures Guarded(ReplaceNode(root, path, data, bodyOnly).value, regions)
  {
    hide ParseFile;
    MutableIsFree(root, path, |path|, regions);
    GuardedAt(root, path, regions);
    assert path + [] == path;
    var node := NodeAt(root, path).value;
    if bodyOnly {
      GuardedEdit(root, path, WithBody(node, data), [], regions);
    } else {
      ParsedIsLeaf(data);
      GuardedEdit(root, path, WithContents(node, ParseFile(data, 0, 0xFF, 2).value), [], regions);
    }
  }

  lemma WithChildGuarded(n: FfsNode, at: nat, f: FfsNode, regions: bool)
    requires Guarded(n, regions) && at <= |n.children| && Guarded(f, regions)
    ensures Guarded(n.(children := n.children[..at] + [f] + n.children[at..]), regions)
  {
    var x := n.(children := n.children[..at] + [f] + n.children[at..]);
    forall i | 0 <= i < |x.children| ensures Guarded(x.children[i], regions) {
      if i > at {
        assert x.children[i] == n.children[i - 1];
      }
    }
  }

  /** Inserting into a node or before a sibling keeps the guard. Inserting behind
      a sibling marks that sibling: it keeps the guard exactly if the sibling is
      not untouchable. */
  lemma InsertKeepsGuarded(root: FfsNode, path: Path, data: Bytes, mode: InsertMode, regions: bool)
    requires Guarded(root, regions) && !Untouchable(root, regions) && InsertNode(root, path, data, mode).Ok?
    ensures mode != After ==> Guarded(InsertNode(root, path, data, mode).value, regions)
    ensures mode == After ==> NodeAt(root, path).Some?
    ensures mode == After ==> (Guarded(InsertNode(root, path, data, mode).value, regions) <==> !Untouchable(NodeAt(root, path).value, regions))
  {
    hide ParseFile, EnclosingEmptyByte, EnsureMutable, Guarded, MarkPath, SetAt, NodeAt;
    ParsedIsLeaf(data);
    var f := Inserted(root, path, data, mode);
    FileGuarded(f, regions);
    if mode == Into {
      MutableIsFree(root, path, |path|, regions);
      GuardedAt(root, path, regions);
      var parent := NodeAt(root, path).value;
      WithChildGuarded(parent, |parent.children|, f, regions);
      assert parent.children[..|parent.children|] + [f] + parent.children[|parent.children|..] == parent.children + [f];
      assert path + [] == path;
      EndFree(parent.(children := parent.children + [f]), regions);
      GuardedEdit(root, path, parent.(children := parent.children + [f]), [], regions);
    } else {
      var up, idx := path[..|path| - 1], path[|path| - 1];
      MutablePrefix(root, path, |path| - 1);
      MutableIsFree(root, up, |path| - 1, regions);
      assert up + [idx] == path;
      var at := if mode == Before then idx else idx + 1;
      SiblingGuarded(root, up, idx, at, f, regions);
    }
  }

  lemma EndFree(n: FfsNode, regions: bool)
    requires !Untouchable(n, regions)
    ensures PathFree(n, [], regions)
  {
  }

  /** A file set next to child `idx`, and marks up to what is at `idx` then. */
  lemma SiblingGuarded(root: FfsNode, up: Path, idx: nat, at: nat, f: FfsNode, regions: bool)
    requires Guarded(root, regions) && NodeAt(root, up).Some? && PathFree(root, up, regions) && Guarded(f, regions) && !Untouchable(f, regions)
    requires idx <= at <= idx + 1 && at <= |NodeAt(root, up).value.children|
    ensures var parent := NodeAt(root, up).value;
      var x := parent.(children := parent.children[..at] + [f] + parent.children[at..]);
      && NodeAt(root, up + [idx]) == (if idx < |parent.children| then Some(parent.children[idx]) else None)
      && (Guarded(MarkPath(SetAt(root, up, x), up + [idx]), regions) <==> at == idx || !Untouchable(parent.children[idx], regions))
  {
    hide Guarded, MarkPath, SetAt, NodeAt;
    GuardedAt(root, up, regions);
    var parent := NodeAt(root, up).value;
    WithChildGuarded(parent, at, f, regions);
    var x := parent.(children := parent.children[..at] + [f] + parent.children[at..]);
    NodeAtEnd(root, up, idx);
    var there := x.children[idx];
    assert there == if at == idx then f else parent.children[idx];
    if Untouchable(there, regions) {
      SetKeepsNode(root, up, x);
      NodeAtEnd(SetAt(root, up, x), up, idx);
      MarkedOnPath(SetAt(root, up, x), up + [idx], regions);
    } else {
      ChildFree(x, idx, regions);
      GuardedEdit(root, up, x, [idx], regions);
    }
  }

  lemma ChildFree(n: FfsNode, idx: nat, regions: bool)
    requires !Untouchable(n, regions) && (idx < |n.children| ==> !Untouchable(n.children[idx], regions))
    ensures PathFree(n, [idx], regions)
  {
  }

  lemma FileGuarded(f: FfsNode, regions: bool)
    requires f.nodeType == File && f.children == []
    ensures Guarded(f, regions) && !Untouchable(f, regions)
  {
  }

  lemma {:induction false} NodeAtEnd(n: FfsNode, up: Path, idx: nat)
    requires NodeAt(n, up).Some?
    ensures var p := NodeAt(n, up).value;
      NodeAt(n, up + [idx]) == if idx < |p.children| then Some(p.children[idx]) else None
    decreases |up|
  {
    if up == [] {
      assert up + [idx] == [idx];
    } else {
      NodeAtEnd(n.children[up[0]], up[1..], idx);
      assert (up + [idx])[1..] == up[1..] + [idx];
    }
  }

  lemma {:induction false} SetKeepsNode(n: FfsNode, at: Path, x: FfsNode)
    requires NodeAt(n, at).Some?
    ensures NodeAt(SetAt(n, at, x), at) == Some(x)
    decreases |at|
  {
    if at != [] {
      SetKeepsNode(n.children[at[0]], at[1..], x);
    }
  }

  /** The last node of a marked path is dirty, so an untouchable one breaks the guard. */
  lemma {:induction false} MarkedOnPath(n: FfsNode, path: Path, regions: bool)
    requires NodeAt(n, path).Some? && Untouchable(NodeAt(n, path).value, regions)
    ensures !Guarded(MarkPath(n, path), regions)
    decreases |path|
  {
    if path != [] {
      MarkedOnPath(n.children[path[0]], path[1..], regions);
      assert MarkPath(n, path).children[path[0]] == MarkPath(n.children[path[0]], path[1..]);
    }
  }

  // What holds everywhere in the tree

  ghost predicate Everywhere(n: FfsNode, p: FfsNode -> bool) {
    p(n) && forall i :: 0 <= i < |n.children| ==> Everywhere(n.children[i], p)
  }

  /** `y` is `x` with another action and other children, if fewer then not none. */
  predicate Alike(x: FfsNode, y: FfsNode) {
    y == x.(action := y.action, children := y.children) && (x.children != [] ==> y.children != [])
  }

  /** Holds of files without children, and whatever is edited below the node. */
  ghost predicate Stable(p: FfsNode -> bool) {
    && (forall f: FfsNode :: f.nodeType == File && f.children == [] ==> p(f))
    && forall x, y :: p(x) && Alike(x, y) ==> p(y)
  }

  lemma StableAlike(p: FfsNode -> bool, x: FfsNode, y: FfsNode)
    requires Stable(p) && p(x) && Alike(x, y)
    ensures p(y)
  {
  }

  lemma {:induction false} MarkKeepsEverywhere(n: FfsNode, path: Path, p: FfsNode -> bool)
    requires Stable(p) && Everywhere(n, p)
    ensures Everywhere(MarkPath(n, path), p)
    decreases |path|
  {
    hide Stable;
    if path != [] && path[0] < |n.children| {
      MarkKeepsEverywhere(n.children[path[0]], path[1..], p);
    }
    StableAlike(p, n, MarkPath(n, path));
  }

  lemma {:induction false} SetKeepsEverywhere(n: FfsNode, at: Path, x: FfsNode, p: FfsNode -> bool)
    requires Stable(p) && Everywhere(n, p) && NodeAt(n, at).Some? && Everywhere(x, p)
    ensures Everywhere(SetAt(n, at, x), p)
    decreases |at|
  {
    hide Stable;
    if at != [] {
      SetKeepsEverywhere(n.children[at[0]], at[1..], x, p);
      StableAlike(p, n, SetAt(n, at, x));
    }
  }

  lemma {:induction false} EverywhereAt(n: FfsNode, path: Path, p: FfsNode -> bool)
    requires Everywhere(n, p) && NodeAt(n, path).Some?
    ensures Everywhere(NodeAt(n, path).value, p)
    decreases |path|
  {
    if path != [] {
      EverywhereAt(n.children[path[0]], path[1..], p);
    }
  }

  lemma WithChildEverywhere(n: FfsNode, at: nat, f: FfsNode, p: FfsNode -> bool)
    requires Stable(p) && Everywhere(n, p) && at <= |n.children| && Everywhere(f, p)
    ensures Everywhere(n.(children := n.children[..at] + [f] + n.children[at..]), p)
  {
    hide Stable;
    var x := n.(children := n.children[..at] + [f] + n.children[at..]);
    StableAlike(p, n, x);
    forall i | 0 <= i < |x.children| ensures Everywhere(x.children[i], p) {
      if i > at {
        assert x.children[i] == n.children[i - 1];
      }
    }
  }

  lemma FileEverywhere(f: FfsNode, p: FfsNode -> bool)
    requires Stable(p) && f.nodeType == File && f.children == []
    ensures Everywhere(f, p)
  {
  }

  lemma InsertKeepsEverywhere(root: FfsNode, path: Path, data: Bytes, mode: InsertMode, p: FfsNode -> bool)
    requires Stable(p) && Everywhere(root, p) && InsertNode(root, path, data, mode).Ok?
    ensures Everywhere(InsertNode(root, path, data, mode).value, p)
  {
    hide ParseFile, EnclosingEmptyByte, EnsureMutable, Everywhere;
    ParsedIsLeaf(data);
    var file := ParseFile(data, 0, 0xFF, 2).value;
    var up := if mode == Into then path else path[..|path| - 1];
    var parent, f := NodeAt(root, up).value, Adapted(root, up, file);
    var at := if mode == Into then |parent.children| else if mode == Before then path[|path| - 1] else path[|path| - 1] + 1;
    assert parent.children[..|parent.children|] + [f] + parent.children[|parent.children|..] == parent.children + [f];
    EverywhereAt(root, up, p);
    FileEverywhere(f, p);
    WithChildEverywhere(parent, at, f, p);
    var x := parent.(children := parent.children[..at] + [f] + parent.children[at..]);
    SetKeepsEverywhere(root, up, x, p);
    MarkKeepsEverywhere(SetAt(root, up, x), path, p);
  }

  lemma ActionKeepsEverywhere(n: FfsNode, a: Action, p: FfsNode -> bool)
    requires Stable(p) && Everywhere(n, p)
    ensures Everywhere(n.(action := a), p)
  {
    hide Stable;
    StableAlike(p, n, n.(action := a));
  }

  lemma RemoveKeepsEverywhere(root: FfsNode, path: Path, p: FfsNode -> bool)
    requires Stable(p) && Everywhere(root, p) && RemoveNode(root, path).Ok?
    ensures Everywhere(RemoveNode(root, path).value, p)
  {
    hide EnsureMutable, Everywhere;
    EverywhereAt(root, path, p);
    var x := NodeAt(root, path).value.(action := Remove);
    ActionKeepsEverywhere(NodeAt(root, path).value, Remove, p);
    SetKeepsEverywhere(root, path, x, p);
    MarkKeepsEverywhere(SetAt(root, path, x), path, p);
  }

  lemma RebuildKeepsEverywhere(root: FfsNode, path: Path, p: FfsNode -> bool)
    requires Stable(p) && Everywhere(root, p) && RebuildNode(root, path).Ok?
    ensures Everywhere(RebuildNode(root, path).value, p)
  {
    hide EnsureMutable, Everywhere;
    EverywhereAt(root, path, p);
    var x := NodeAt(root, path).value.(action := Rebuild);
    ActionKeepsEverywhere(NodeAt(root, path).value, Rebuild, p);
    SetKeepsEverywhere(root, path, x, p);
    MarkKeepsEverywhere(SetAt(root, path, x), path, p);
  }

  /** A full replacement keeps what holds of files; a new body alone takes, for
      one, a guided section's contents away. */
  lemma ReplaceKeepsEverywhere(root: FfsNode, path: Path, data: Bytes, p: FfsNode -> bool)
    requires Stable(p) && Everywhere(root, p) && ReplaceNode(root, path, data, false).Ok?
    ensures Everywhere(ReplaceNode(root, path, data, false).value, p)
  {
    hide EnsureMutable, Everywhere, ParseFile;
    ParsedIsLeaf(data);
    var x := WithContents(NodeAt(root, path).value, ParseFile(data, 0, 0xFF, 2).value);
    FileEverywhere(x, p);
    SetKeepsEverywhere(root, path, x, p);
    MarkKeepsEverywhere(SetAt(root, path, x), path, p);
  }

  // So the builder never meets a section it cannot compress again

  /** A section with a recompressable GUID has contents and a sound front part. */
  predicate Recompressable(n: FfsNode) {
    n.nodeType == Section && n.subtype == SECTION_GUID_DEFINED && RecompressableGuid(n) ==>
      n.children != [] && PrefixLen(n).Some?
  }

  ghost predicate Supported(c: Codec, children: seq<FfsNode>) {
    forall i :: 0 <= i < |children| ==> Build(c, children[i]) != Err(RecompressionUnsupported)
  }

  lemma {:induction false} JoinSupported(c: Codec, children: seq<FfsNode>, out: Bytes)
    requires Supported(c, children)
    ensures Join(c, children, out) != Err(RecompressionUnsupported)
    decreases |children|
  {
    hide Build;
    if children != [] && Build(c, children[0]).Ok? {
      var b := out + Build(c, children[0]).value;
      JoinSupported(c, children[1..], if |children| > 1 then PadTo(b, AlignUp(|b|, 4), 0) else b);
    }
  }

  lemma {:induction false} LayOutSupported(c: Codec, children: seq<FfsNode>, out: Bytes, empty: U8)
    requires Supported(c, children)
    ensures LayOut(c, children, out, empty) != Err(RecompressionUnsupported)
    decreases |children|
  {
    hide Build;
    if children != [] {
      if children[0].action == Remove {
        LayOutSupported(c, children[1..], out, empty);
      } else if Build(c, children[0]).Ok? {
        LayOutSupported(c, children[1..], PadTo(out, AlignUp(|out|, 8), empty) + Build(c, children[0]).value, empty);
      }
    }
  }

  lemma {:induction false} PiecesSupported(c: Codec, children: seq<FfsNode>)
    requires Supported(c, children)
    ensures BuildPieces(c, children) != Err(RecompressionUnsupported)
    decreases |children|
  {
    hide Build;
    if children != [] && Build(c, children[0]).Ok? {
      PiecesSupported(c, children[1..]);
    }
  }

  /** A visible, guarded tree never fails to build for want of an algorithm. */
  lemma {:induction false} GuardedBuilds(c: Codec, n: FfsNode)
    requires Visible(n) && Guarded(n, false) && Everywhere(n, Recompressable)
    ensures Build(c, n) != Err(RecompressionUnsupported)
    decreases n
  {
    hide SetFfsSize, SetSectionSize, RecomputeChecksums, Fit, Compose, Join, LayOut, BuildPieces, SubtreeDirty;
    forall i | 0 <= i < |n.children|
      ensures Build(c, n.children[i]) != Err(RecompressionUnsupported)
    {
      GuardedBuilds(c, n.children[i]);
    }
    assert Supported(c, n.children);
    DirtyIsMarked(n);
    JoinSupported(c, n.children, []);
    LayOutSupported(c, n.children, n.header, EmptyByte(n));
    PiecesSupported(c, n.children);
  }

  // Writing over the bodies of leaves

  /** The path leads to a leaf, and no section that cannot be compressed again is on it. */
  predicate FreeLeaf(n: FfsNode, path: Path)
    decreases |path|
  {
    && !BlockedSection(n)
    && if path == [] then n.children == [] else path[0] < |n.children| && FreeLeaf(n.children[path[0]], path[1..])
  }

  lemma {:induction false} FreeLeafFacts(n: FfsNode, path: Path)
    requires FreeLeaf(n, path)
    ensures NodeAt(n, path).Some? && PathFree(n, path, false)
    ensures NodeAt(n, path).value.children == [] && !BlockedSection(NodeAt(n, path).value)
    decreases |path|
  {
    if path != [] {
      FreeLeafFacts(n.children[path[0]], path[1..]);
    }
  }

  /** A new body of one leaf, with the marks above it. */
  function WriteLeaf(n: FfsNode, at: Path, body: Bytes): FfsNode
    requires NodeAt(n, at).Some?
  {
    MarkPath(SetAt(n, at, NodeAt(n, at).value.(body := body)), at)
  }

  lemma {:induction false} WriteKeepsFree(n: FfsNode, at: Path, body: Bytes, path: Path)
    requires NodeAt(n, at).Some? && FreeLeaf(n, at) && FreeLeaf(n, path)
    ensures FreeLeaf(WriteLeaf(n, at, body), path)
    decreases |path|
  {
    if path != [] && at != [] && path[0] == at[0] {
      WriteKeepsFree(n.children[at[0]], at[1..], body, path[1..]);
    }
  }

  lemma WriteKeepsGuarded(n: FfsNode, at: Path, body: Bytes)
    requires Guarded(n, false) && !Untouchable(n, false) && FreeLeaf(n, at) && NodeAt(n, at).Some?
    ensures Guarded(WriteLeaf(n, at, body), false) && !Untouchable(WriteLeaf(n, at, body), false)
  {
    hide SetAt, MarkPath;
    FreeLeafFacts(n, at);
    GuardedAt(n, at, false);
    assert at + [] == at;
    GuardedEdit(n, at, NodeAt(n, at).value.(body := body), [], false);
    WriteKeepsFree(n, at, body, at);
  }

  lemma WriteKeepsEverywhere(n: FfsNode, at: Path, body: Bytes, p: FfsNode -> bool)
    requires Stable(p) && Everywhere(n, p) && NodeAt(n, at).Some? && NodeAt(n, at).value.children == []
    requires p(NodeAt(n, at).value.(body := body))
    ensures Everywhere(WriteLeaf(n, at, body), p)
  {
    var x := NodeAt(n, at).value.(body := body);
    SetKeepsEverywhere(n, at, x, p);
    MarkKeepsEverywhere(SetAt(n, at, x), at, p);
  }

  // Edits inside some volumes

  /** Only the children and the action of `m` differ from `n`. */
  predicate SameShell(n: FfsNode, m: FfsNode) {
    m == n.(action := m.action, children := m.children)
  }

  /** Below these children only: they keep their shells, their siblings everything. */
  ghost predicate OnlyBelow(root: FfsNode, root': FfsNode, vs: set<nat>) {
    && SameShell(root, root') && |root'.children| == |root.children|
    && (forall j :: 0 <= j < |root.children| && j !in vs ==> root'.children[j] == root.children[j])
    && forall j :: 0 <= j < |root.children| && j in vs ==>
         SameShell(root.children[j], root'.children[j])
         && (root.children[j].action != Remove ==> root'.children[j].action != Remove)
  }

  lemma OnlyBelowTransitive(a: FfsNode, b: FfsNode, c: FfsNode, vs: set<nat>)
    requires OnlyBelow(a, b, vs) && OnlyBelow(b, c, vs)
    ensures OnlyBelow(a, c, vs)
  {
  }

  lemma SetMarkOnlyBelow(root: FfsNode, at: Path, x: FfsNode, path: Path, vs: set<nat>)
    requires NodeAt(root, at).Some? && at != [] && path != [] && path[0] == at[0] && at[0] in vs
    requires |at| == 1 ==> SameShell(NodeAt(root, at).value, x) && x.action == NodeAt(root, at).value.action
    ensures OnlyBelow(root, MarkPath(SetAt(root, at, x), path), vs)
  {
    var k := root.children[at[0]];
    var s := SetAt(root, at, x);
    assert s.children[at[0]] == SetAt(k, at[1..], x);
    if |at| == 1 {
      assert at[1..] == [];
    }
    assert SameShell(k, s.children[at[0]]);
    var m := MarkPath(s, path);
    assert m.children[at[0]] == MarkPath(s.children[at[0]], path[1..]);
  }

  /** Inserting into a node below the root, or next to one below a child of the
      root, changes nothing outside that child. */
  lemma InsertIsBelow(root: FfsNode, path: Path, data: Bytes, mode: InsertMode, vs: set<nat>)
    requires InsertNode(root, path, data, mode).Ok?
    requires |path| >= (if mode == Into then 1 else 2) && path[0] in vs
    ensures OnlyBelow(root, InsertNode(root, path, data, mode).value, vs)
  {
    hide ParseFile, EnclosingEmptyByte, EnsureMutable, OnlyBelow, MarkPath, SetAt;
    var file := ParseFile(data, 0, 0xFF, 2).value;
    var up := if mode == Into then path else path[..|path| - 1];
    var parent, f := NodeAt(root, up).value, Adapted(root, up, file);
    if mode == Into {
      SetMarkOnlyBelow(root, up, parent.(children := parent.children + [f]), path, vs);
    } else {
      var idx := path[|path| - 1];
      var at := if mode == Before then idx else idx + 1;
      SetMarkOnlyBelow(root, up, parent.(children := parent.children[..at] + [f] + parent.children[at..]), path, vs);
    }
  }

  lemma RemoveIsBelow(root: FfsNode, path: Path, vs: set<nat>)
    requires RemoveNode(root, path).Ok? && |path| >= 2 && path[0] in vs
    ensures OnlyBelow(root, RemoveNode(root, path).value, vs)
  {
    SetMarkOnlyBelow(root, path, NodeAt(root, path).value.(action := Remove), path, vs);
  }

  lemma ReplaceIsBelow(root: FfsNode, path: Path, data: Bytes, bodyOnly: bool, vs: set<nat>)
    requires ReplaceNode(root, path, data, bodyOnly).Ok? && |path| >= 2 && path[0] in vs
    ensures OnlyBelow(root, ReplaceNode(root, path, data, bodyOnly).value, vs)
  {
    hide ParseFile, OnlyBelow, MarkPath, SetAt, EnsureMutable;
    var node := NodeAt(root, path).value;
    if bodyOnly {
      SetMarkOnlyBelow(root, path, WithBody(node, data), path, vs);
    } else {
      SetMarkOnlyBelow(root, path, WithContents(node, ParseFile(data, 0, 0xFF, 2).value), path, vs);
    }
  }

  lemma RebuildIsBelow(root: FfsNode, path: Path, vs: set<nat>)
    requires RebuildNode(root, path).Ok? && |path| >= 2 && path[0] in vs
    ensures OnlyBelow(root, RebuildNode(root, path).value, vs)
  {
    var node := NodeAt(root, path).value;
    if node.action == Remove {
      assert path[0] < |root.children|;
    } else {
      SetMarkOnlyBelow(root, path, node.(action := Rebuild), path, vs);
    }
  }

  /** Whatever was edited below some volumes, the image outside them stays as it was. */
  lemma BelowIsLocal(c: Codec, root: FfsNode, root': FfsNode, vs: set<nat>)
    requires OnlyBelow(root, root', vs) && IsRootLike(root)
    requires forall i :: 0 <= i < |root.children| && i in vs ==> root.children[i].nodeType == Volume && root.children[i].action != Remove
    requires Build(c, root).Ok? && Build(c, root').Ok?
    ensures EditedBelow(root, root', vs)
    ensures var b, b' := Build(c, root).value, Build(c, root').value;
      |b'| == |b| && forall k :: 0 <= k < |b| && !InVolumes(root, vs, k) ==> b'[k] == b[k]
  {
    hide Build;
    EditLocality(c, root, root', vs);
  }
}
