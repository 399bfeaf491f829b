/** What each edit does to every node of the tree. */
module EditMeaning {
  import opened Results
  import opened Words
  import opened Ffs
  import opened Compress
  import opened Builder
  import opened FileCodec
  import opened Ops
  import opened Edits

  /** `y` is `x` with another action and, below it, other children. */
  predicate ActionIs(x: FfsNode, y: FfsNode, action: Action) {
    y == x.(action := action, children := y.children) && |y.children| == |x.children|
  }

  /** Marking touches the nodes on the path, and of them the actions only. */
  lemma {:induction false} MarkPathAt(n: FfsNode, path: Path, q: Path)
    ensures NodeAt(MarkPath(n, path), q).Some? <==> NodeAt(n, q).Some?
    ensures NodeAt(n, q).Some? ==>
              var x := NodeAt(n, q).value;
              ActionIs(x, NodeAt(MarkPath(n, path), q).value, if q <= path then Touched(x.action) else x.action)
    decreases |q|
  {
    if q != [] && q[0] < |n.children| && path != [] && path[0] < |n.children| {
      var kid := n.children[q[0]];
      if q[0] == path[0] {
        MarkPathAt(kid, path[1..], q[1..]);
        SamePrefix(q, path);
      }
    }
  }

  lemma SamePrefix(q: Path, path: Path)
    requires q != [] && path != [] && q[0] == path[0]
    ensures q <= path <==> q[1..] <= path[1..]
  {
    if q[1..] <= path[1..] {
      assert q == [q[0]] + q[1..] && path == [path[0]] + path[1..];
    }
  }

  /** Below the place only the new node counts, beside it nothing changes, and
      above it only the children. */
  lemma {:induction false} SetAtAt(n: FfsNode, at: Path, x: FfsNode, q: Path)
    requires NodeAt(n, at).Some?
    ensures at <= q ==> NodeAt(SetAt(n, at, x), q) == NodeAt(x, q[|at|..])
    ensures !(at <= q) ==>
              (NodeAt(SetAt(n, at, x), q).Some? <==> NodeAt(n, q).Some?)
              && (NodeAt(n, q).Some? ==> ActionIs(NodeAt(n, q).value, NodeAt(SetAt(n, at, x), q).value, NodeAt(n, q).value.action))
    decreases |at|
  {
    if at != [] && q != [] && q[0] == at[0] {
      SetAtAt(n.children[at[0]], at[1..], x, q[1..]);
      SamePrefix(at, q);
      if at <= q {
        assert q[|at|..] == q[1..][|at[1..]|..];
      }
    } else if at == [] {
      assert q[0..] == q;
    }
  }

  /** What an edit at `path` leaves of the nodes that are not below it. */
  ghost predicate OnlyMarked(root: FfsNode, root': FfsNode, path: Path, q: Path) {
    && (NodeAt(root', q).Some? <==> NodeAt(root, q).Some?)
    && (NodeAt(root, q).Some? ==>
          var x := NodeAt(root, q).value;
          ActionIs(x, NodeAt(root', q).value, if q <= path then Touched(x.action) else x.action))
  }

  lemma EditAt(root: FfsNode, at: Path, x: FfsNode, path: Path, q: Path)
    requires NodeAt(root, at).Some? && !(at <= q)
    ensures OnlyMarked(root, MarkPath(SetAt(root, at, x), path), path, q)
  {
    SetAtAt(root, at, x, q);
    MarkPathAt(SetAt(root, at, x), path, q);
  }

  lemma EditBelow(root: FfsNode, at: Path, x: FfsNode, q: Path)
    requires NodeAt(root, at).Some? && at <= q
    ensures NodeAt(MarkPath(SetAt(root, at, x), at), q).Some? <==> NodeAt(x, q[|at|..]).Some?
    ensures NodeAt(x, q[|at|..]).Some? ==>
              var y := NodeAt(x, q[|at|..]).value;
              ActionIs(y, NodeAt(MarkPath(SetAt(root, at, x), at), q).value, if q == at then Touched(y.action) else y.action)
  {
    SetAtAt(root, at, x, q);
    MarkPathAt(SetAt(root, at, x), at, q);
  }

  /** Removing marks the node as removed and the nodes above it as dirty; every
      other node keeps its action, and every node its contents. */
  lemma RemoveMeaning(root: FfsNode, path: Path, q: Path)
    requires RemoveNode(root, path).Ok?
    ensures var root' := RemoveNode(root, path).value;
      (NodeAt(root', q).Some? <==> NodeAt(root, q).Some?)
      && (NodeAt(root, q).Some? ==>
            var x := NodeAt(root, q).value;
            ActionIs(x, NodeAt(root', q).value, if q == path then Remove else if q <= path then Touched(x.action) else x.action))
  {
    hide MarkPath, SetAt, EnsureMutable;
    var x := NodeAt(root, path).value.(action := Remove);
    if path <= q {
      EditBelow(root, path, x, q);
      SplitNodeAt(root, path, q);
      SameBelow(NodeAt(root, path).value, Remove, q[|path|..]);
    } else {
      EditAt(root, path, x, path, q);
    }
  }

  lemma {:induction false} SplitNodeAt(n: FfsNode, at: Path, q: Path)
    requires NodeAt(n, at).Some? && at <= q
    ensures NodeAt(n, q) == NodeAt(NodeAt(n, at).value, q[|at|..])
    decreases |at|
  {
    if at == [] {
      assert q[0..] == q;
    } else {
      SplitNodeAt(n.children[at[0]], at[1..], q[1..]);
      assert q[|at|..] == q[1..][|at[1..]|..];
    }
  }

  lemma SameBelow(n: FfsNode, a: Action, q: Path)
    ensures NodeAt(n.(action := a), q) == if q == [] then Some(n.(action := a)) else NodeAt(n, q)
  {
  }

  /** Rebuilding marks the node and the nodes above it, unless it is removed. */
  lemma RebuildMeaning(root: FfsNode, path: Path, q: Path)
    requires RebuildNode(root, path).Ok?
    ensures NodeAt(root, path).Some?
    ensures var root' := RebuildNode(root, path).value;
      if NodeAt(root, path).value.action == Remove then root' == root
      else
        && (NodeAt(root', q).Some? <==> NodeAt(root, q).Some?)
        && (NodeAt(root, q).Some? ==>
              var x := NodeAt(root, q).value;
              ActionIs(x, NodeAt(root', q).value, if q == path then Rebuild else if q <= path then Touched(x.action) else x.action))
  {
    hide MarkPath, SetAt, EnsureMutable;
    var x := NodeAt(root, path).value.(action := Rebuild);
    if path <= q {
      EditBelow(root, path, x, q);
      SplitNodeAt(root, path, q);
      SameBelow(NodeAt(root, path).value, Rebuild, q[|path|..]);
    } else {
      EditAt(root, path, x, path, q);
    }
  }

  /** Replacing puts the new contents at the path, without children, and marks
      the nodes above; every other node is as before. The place in the image
      stays. */
  lemma ReplaceMeaning(root: FfsNode, path: Path, data: Bytes, bodyOnly: bool, q: Path)
    requires ReplaceNode(root, path, data, bodyOnly).Ok?
    ensures NodeAt(root, path).Some? && (!bodyOnly ==> ParseFile(data, 0, 0xFF, 2).Ok?)
    ensures var root', x := ReplaceNode(root, path, data, bodyOnly).value, NodeAt(root, path).value;
      if path <= q then
        if q != path then NodeAt(root', q).None?
        else if bodyOnly then NodeAt(root', q) == Some(WithBody(x, data))
        else
          var f := ParseFile(data, 0, 0xFF, 2).value;
          NodeAt(root', q) == Some(f.(offset := x.offset, action := Replace))
      else OnlyMarked(root, root', path, q)
  {
    hide MarkPath, SetAt, EnsureMutable, ParseFile;
    var x := NodeAt(root, path).value;
    if !bodyOnly {
      ParsedIsLeaf(data);
    }
    var y := if bodyOnly then WithBody(x, data) else WithContents(x, ParseFile(data, 0, 0xFF, 2).value);
    if path <= q {
      EditBelow(root, path, y, q);
    } else {
      EditAt(root, path, y, path, q);
    }
  }

  lemma {:induction false} MarkBelow(n: FfsNode, up: Path, tail: Path)
    requires NodeAt(n, up).Some?
    ensures NodeAt(MarkPath(n, up + tail), up) == Some(MarkPath(NodeAt(n, up).value, tail))
    decreases |up|
  {
    if up == [] {
      assert up + tail == tail;
    } else {
      MarkBelow(n.children[up[0]], up[1..], tail);
      assert (up + tail)[1..] == up[1..] + tail;
    }
  }

  /** Where an insertion puts the file, and the parent's place. */
  function InsertPlace(path: Path, mode: InsertMode, kids: nat): nat
    requires mode != Into ==> path != []
  {
    match mode
    case Into => kids
    case Before => path[|path| - 1]
    case After => path[|path| - 1] + 1
  }

  /** `y` is `x` with the file among its children at `at`. The children keep their
      order and contents; the one that then stands at `idx` is marked. */
  ghost predicate GrownBy(x: FfsNode, y: FfsNode, f: FfsNode, at: nat, idx: Option<nat>) {
    && at <= |x.children| && |y.children| == |x.children| + 1
    && y == x.(children := y.children, action := Touched(x.action))
    && forall j {:trigger y.children[j]} :: 0 <= j < |y.children| ==>
         var k := if j < at then x.children[j] else if j == at then f else x.children[j - 1];
         y.children[j] == k.(action := if idx == Some(j) then Touched(k.action) else k.action)
  }

  lemma MarkedGrowth(x: FfsNode, f: FfsNode, at: nat, tail: Path)
    requires at <= |x.children| && |tail| <= 1
    ensures var y := x.(children := x.children[..at] + [f] + x.children[at..]);
      GrownBy(x, MarkPath(y, tail), f, at, if tail == [] then None else Some(tail[0]))
  {
    var y := x.(children := x.children[..at] + [f] + x.children[at..]);
    if tail != [] && tail[0] < |y.children| {
      var k := y.children[tail[0]];
      assert tail[1..] == [];
      assert MarkPath(y, tail).children == y.children[tail[0] := k.(action := Touched(k.action))];
    }
  }

  lemma InsertShape(root: FfsNode, path: Path, data: Bytes, mode: InsertMode)
    requires InsertNode(root, path, data, mode).Ok?
    ensures ParseFile(data, 0, 0xFF, 2).Ok? && (mode != Into ==> path != [])
    ensures var up := if mode == Into then path else path[..|path| - 1];
      && NodeAt(root, up).Some?
      && var x, f := NodeAt(root, up).value, Inserted(root, path, data, mode);
      var at := InsertPlace(path, mode, |x.children|);
      && at <= |x.children|
      && InsertNode(root, path, data, mode).value ==
         MarkPath(SetAt(root, up, x.(children := x.children[..at] + [f] + x.children[at..])), path)
  {
    hide MarkPath, SetAt, EnsureMutable, ParseFile, EnclosingEmptyByte, NodeAt;
    if mode == Into {
      var x, f := NodeAt(root, path).value, Inserted(root, path, data, mode);
      assert x.children[..|x.children|] + [f] + x.children[|x.children|..] == x.children + [f];
    }
  }

  /** Inserting adds the file to the parent's children: as the last one, before
      the sibling or after it. The parent's other children keep their order and
      contents, and nodes that are not below the parent are marked at most. */
  lemma InsertMeaning(root: FfsNode, path: Path, data: Bytes, mode: InsertMode, q: Path)
    requires InsertNode(root, path, data, mode).Ok?
    ensures ParseFile(data, 0, 0xFF, 2).Ok? && (mode != Into ==> path != [])
    ensures var up := if mode == Into then path else path[..|path| - 1];
      && NodeAt(root, up).Some? && NodeAt(InsertNode(root, path, data, mode).value, up).Some?
      && var root', x := InsertNode(root, path, data, mode).value, NodeAt(root, up).value;
      && GrownBy(x, NodeAt(root', up).value, Inserted(root, path, data, mode), InsertPlace(path, mode, |x.children|),
                 if mode == Into then None else Some(path[|path| - 1]))
      && (!(up <= q) ==> OnlyMarked(root, root', path, q))
  {
    hide SetAt, NodeAt, MarkPath, InsertNode, Inserted, OnlyMarked, GrownBy;
    InsertShape(root, path, data, mode);
    var up := if mode == Into then path else path[..|path| - 1];
    var tail: Path := if mode == Into then [] else [path[|path| - 1]];
    assert path == up + tail;
    var x, f := NodeAt(root, up).value, Inserted(root, path, data, mode);
    var at := InsertPlace(path, mode, |x.children|);
    var y := x.(children := x.children[..at] + [f] + x.children[at..]);
    SetKeepsNode(root, up, y);
    MarkBelow(SetAt(root, up, y), up, tail);
    MarkedGrowth(x, f, at, tail);
    if !(up <= q) {
      EditAt(root, up, y, path, q);
    }
  }

  // The state byte of an inserted file

  /** The free-space byte of the volume that the path leads to, if it leads to one. */
  function VolumeByte(root: FfsNode, q: Path): Option<U8> {
    match NodeAt(root, q)
    case Some(n) => if n.parsingData.VolumeData? then Some(n.parsingData.emptyByte) else None
    case None => None
  }

  /** `k` steps lead to the innermost volume on the way to the end of the path. */
  ghost predicate InnermostVolume(root: FfsNode, path: Path, k: nat) {
    k <= |path| && VolumeByte(root, path[..k]).Some? && forall j :: k < j <= |path| ==> VolumeByte(root, path[..j]).None?
  }

  lemma VolumeByteBelow(n: FfsNode, path: Path, k: nat)
    requires 1 <= k <= |path| && path[0] < |n.children|
    ensures VolumeByte(n, path[..k]) == VolumeByte(n.children[path[0]], path[1..][..k - 1])
  {
    assert path[..k][1..] == path[1..][..k - 1];
  }

  /** The enclosing empty byte is that of the innermost volume. */
  lemma {:induction false} EnclosingMeaning(n: FfsNode, path: Path)
    requires NodeAt(n, path).Some?
    ensures EnclosingEmptyByte(n, path).None? ==> forall k :: 0 <= k <= |path| ==> VolumeByte(n, path[..k]).None?
    ensures EnclosingEmptyByte(n, path).Some? ==>
              exists k: nat :: InnermostVolume(n, path, k) && EnclosingEmptyByte(n, path) == VolumeByte(n, path[..k])
    decreases |path|
  {
    hide VolumeByte;
    assert VolumeByte(n, []) == (if n.parsingData.VolumeData? then Some(n.parsingData.emptyByte) else None) by { OwnVolumeByte(n); }
    assert path[..0] == [];
    if path != [] {
      var kid, rest := n.children[path[0]], path[1..];
      EnclosingMeaning(kid, rest);
      forall k | 1 <= k <= |path| ensures VolumeByte(n, path[..k]) == VolumeByte(kid, rest[..k - 1]) {
        VolumeByteBelow(n, path, k);
      }
      if EnclosingEmptyByte(kid, rest).Some? {
        var k: nat :| InnermostVolume(kid, rest, k) && EnclosingEmptyByte(kid, rest) == VolumeByte(kid, rest[..k]);
        assert InnermostVolume(n, path, k + 1);
      } else if n.parsingData.VolumeData? {
        assert InnermostVolume(n, path, 0);
      }
    }
  }

  lemma OwnVolumeByte(n: FfsNode)
    ensures VolumeByte(n, []) == if n.parsingData.VolumeData? then Some(n.parsingData.emptyByte) else None
  {
  }

  lemma InnermostUnique(root: FfsNode, path: Path, k: nat, l: nat)
    requires InnermostVolume(root, path, k) && InnermostVolume(root, path, l)
    ensures k == l
  {
  }

  /** The innermost volume on the way there has free space of 0xFF. */
  ghost predicate FreeSpaceOnes(root: FfsNode, path: Path) {
    exists k: nat :: InnermostVolume(root, path, k) && VolumeByte(root, path[..k]) == Some(0xFF)
  }

  /** What an insertion stores is the parsed file, action and state byte aside. The
      state byte 0x07 becomes 0xF8 exactly if the innermost volume around the new
      place has free space of 0xFF; every other one stays. */
  lemma InsertedFile(root: FfsNode, path: Path, data: Bytes, mode: InsertMode)
    requires InsertNode(root, path, data, mode).Ok?
    ensures ParseFile(data, 0, 0xFF, 2).Ok? && (mode != Into ==> path != [])
    ensures var up := if mode == Into then path else path[..|path| - 1];
      && NodeAt(root, up).Some? && NodeAt(InsertNode(root, path, data, mode).value, up).Some?
      && var at := InsertPlace(path, mode, |NodeAt(root, up).value.children|);
      && at < |NodeAt(InsertNode(root, path, data, mode).value, up).value.children|
      && var g, f := ParseFile(data, 0, 0xFF, 2).value, NodeAt(InsertNode(root, path, data, mode).value, up).value.children[at];
      && f == g.(header := f.header, action := f.action) && |f.header| == |g.header| >= 24
      && (forall i :: 0 <= i < |g.header| && i != 23 ==> f.header[i] == g.header[i])
      && f.header[23] == if g.header[23] == 0x07 && FreeSpaceOnes(root, up) then 0xF8 else g.header[23]
  {
    hide SetAt, NodeAt, MarkPath, InsertNode, ParseFile, FreeSpaceOnes, EnclosingEmptyByte, Inserted;
    InsertMeaning(root, path, data, mode, []);
    var up := if mode == Into then path else path[..|path| - 1];
    var g := ParseFile(data, 0, 0xFF, 2).value;
    assert |g.header| >= 24 by { HeaderParsed(data); }
    AdaptedMeaning(root, up, g);
    assert Inserted(root, path, data, mode) == Adapted(root, up, g) by { InsertedIs(root, path, data, mode); }
  }

  lemma InsertedIs(root: FfsNode, path: Path, data: Bytes, mode: InsertMode)
    requires ParseFile(data, 0, 0xFF, 2).Ok? && (mode != Into ==> path != [])
    ensures Inserted(root, path, data, mode) ==
            Adapted(root, if mode == Into then path else path[..|path| - 1], ParseFile(data, 0, 0xFF, 2).value)
  {
    hide ParseFile, EnclosingEmptyByte;
  }

  lemma HeaderParsed(data: Bytes)
    requires ParseFile(data, 0, 0xFF, 2).Ok?
    ensures |ParseFile(data, 0, 0xFF, 2).value.header| >= 24
  {
  }

  lemma AdaptedMeaning(root: FfsNode, up: Path, g: FfsNode)
    requires NodeAt(root, up).Some? && |g.header| >= 24
    ensures var f := Adapted(root, up, g);
      && f == g.(header := f.header) && |f.header| == |g.header|
      && (forall i :: 0 <= i < |g.header| && i != 23 ==> f.header[i] == g.header[i])
      && f.header[23] == if g.header[23] == 0x07 && FreeSpaceOnes(root, up) then 0xF8 else g.header[23]
  {
    hide NodeAt, EnclosingEmptyByte, VolumeByte;
    EnclosingMeaning(root, up);
    if k: nat :| InnermostVolume(root, up, k) && VolumeByte(root, up[..k]) == Some(0xFF) {
      var l: nat :| InnermostVolume(root, up, l) && EnclosingEmptyByte(root, up) == VolumeByte(root, up[..l]);
      InnermostUnique(root, up, k, l);
    }
  }

  // The guard

  /** The guard has nothing against the node that `k + 1` steps lead to. */
  predicate Passes(n: FfsNode, path: Path, checked: nat, k: nat)
    requires k < |path|
  {
    var x := NodeAt(n, path[..k + 1]);
    x.Some? ==> x.value.nodeType != Region && (k < checked ==> !BlockedSection(x.value))
  }

  ghost predicate AllPass(n: FfsNode, path: Path, checked: nat) {
    forall k: nat :: k < |path| ==> Passes(n, path, checked, k)
  }

  lemma PassesBelow(n: FfsNode, path: Path, checked: nat, k: nat)
    requires 1 <= k < |path| && path[0] < |n.children|
    ensures Passes(n, path, checked, k) <==> Passes(n.children[path[0]], path[1..], if checked > 0 then checked - 1 else 0, k - 1)
  {
    assert path[..k + 1][1..] == path[1..][..k];
  }

  /** A path is accepted exactly if no region is on it and no section that cannot
      be compressed again is among its first `checked` nodes. */
  lemma {:induction false} MutableMeaning(n: FfsNode, path: Path, checked: nat)
    ensures EnsureMutable(n, path, checked).Ok? <==> AllPass(n, path, checked)
    decreases |path|
  {
    if path != [] && path[0] < |n.children| {
      var kid, left := n.children[path[0]], if checked > 0 then checked - 1 else 0;
      MutableMeaning(kid, path[1..], left);
      assert path[..1][1..] == [] && NodeAt(n, path[..1]) == Some(kid);
      forall k: nat | 1 <= k < |path|
        ensures Passes(n, path, checked, k) <==> Passes(kid, path[1..], left, k - 1)
      {
        PassesBelow(n, path, checked, k);
      }
      if AllPass(n, path, checked) {
        assert Passes(n, path, checked, 0);
        forall k: nat | k < |path[1..]| ensures Passes(kid, path[1..], left, k) {
          assert Passes(n, path, checked, k + 1);
        }
      }
    } else {
      forall k: nat | k < |path| ensures Passes(n, path, checked, k) {
        assert path[..k + 1][0] == path[0];
      }
    }
  }

  /** A path that is not accepted is refused for its first obstacle: as read-only if
      that is a region, and else as behind a section that cannot be compressed again. */
  lemma {:induction false} ObstacleMeaning(n: FfsNode, path: Path, checked: nat, k: nat)
    requires k < |path| && !Passes(n, path, checked, k) && forall j: nat :: j < k ==> Passes(n, path, checked, j)
    ensures EnsureMutable(n, path, checked) ==
            Err(if NodeAt(n, path[..k + 1]).value.nodeType == Region then ImmutableRegion else MutationBehindCompression)
    decreases |path|
  {
    assert path[..1][1..] == [];
    if path[0] < |n.children| {
      var kid, left := n.children[path[0]], if checked > 0 then checked - 1 else 0;
      assert NodeAt(n, path[..1]) == Some(kid);
      if k > 0 {
        assert Passes(n, path, checked, 0);
        PassesBelow(n, path, checked, k);
        forall j: nat | j < k - 1 ensures Passes(kid, path[1..], left, j) {
          PassesBelow(n, path, checked, j + 1);
        }
        assert path[..k + 1][1..] == path[1..][..k];
        ObstacleMeaning(kid, path[1..], left, k - 1);
      }
    }
  }

  /** Why an insertion is refused, first reason first: the data is no file, there is no
      parent to be next to, an obstacle, the parent does not exist, the sibling is too
      far behind. */
  lemma InsertErrors(root: FfsNode, path: Path, data: Bytes, mode: InsertMode)
    ensures ParseFile(data, 0, 0xFF, 2).Err? ==> InsertNode(root, path, data, mode) == Err(InvalidFfs)
    ensures ParseFile(data, 0, 0xFF, 2).Ok? && mode != Into && path == [] ==> InsertNode(root, path, data, mode) == Err(InvalidParent)
    ensures ParseFile(data, 0, 0xFF, 2).Ok? && (mode != Into ==> path != []) ==>
              var guard := EnsureMutable(root, path, if mode == Into then |path| else |path| - 1);
              var parent := NodeAt(root, if mode == Into then path else path[..|path| - 1]);
              var r := InsertNode(root, path, data, mode);
              && (guard.Err? ==> r == Err(guard.error))
              && (guard.Ok? && parent.None? ==> r == Err(NotFound))
              && (guard.Ok? && parent.Some? && mode != Into && path[|path| - 1] > |parent.value.children| ==> r == Err(InvalidParent))
              && (guard.Ok? && parent.Some? && (mode != Into ==> path[|path| - 1] < |parent.value.children|) ==> r.Ok?)
  {
    hide ParseFile, EnsureMutable, EnclosingEmptyByte, MarkPath, SetAt, NodeAt;
  }

  /** Why another edit is refused: the node does not exist, an obstacle, or new contents
      that are no file. */
  lemma OtherErrors(root: FfsNode, path: Path, data: Bytes)
    ensures NodeAt(root, path).None? ==>
              RemoveNode(root, path) == RebuildNode(root, path) == Err(NotFound)
              && forall b :: ReplaceNode(root, path, data, b) == Err(NotFound)
    ensures NodeAt(root, path).Some? && EnsureMutable(root, path, |path|).Err? ==>
              RemoveNode(root, path) == RebuildNode(root, path) == Err(EnsureMutable(root, path, |path|).error)
              && forall b :: ReplaceNode(root, path, data, b) == Err(EnsureMutable(root, path, |path|).error)
    ensures NodeAt(root, path).Some? && EnsureMutable(root, path, |path|).Ok? ==>
              && RemoveNode(root, path).Ok? && RebuildNode(root, path).Ok? && ReplaceNode(root, path, data, true).Ok?
              && (ParseFile(data, 0, 0xFF, 2).Err? ==> ReplaceNode(root, path, data, false) == Err(InvalidFfs))
              && (ParseFile(data, 0, 0xFF, 2).Ok? ==> ReplaceNode(root, path, data, false).Ok?)
  {
    hide ParseFile, EnsureMutable, MarkPath, SetAt, NodeAt;
  }

  // Insertions after a sibling that go wrong

  /** Inserting stops the program exactly if it is to go behind a sibling that is
      one past the end of an existing, mutable parent. */
  lemma InsertPanics(root: FfsNode, path: Path, data: Bytes, mode: InsertMode)
    ensures InsertNode(root, path, data, mode) == Err(PanicOutOfBounds) <==>
            && mode == After && ParseFile(data, 0, 0xFF, 2).Ok? && path != []
            && EnsureMutable(root, path, |path| - 1).Ok? && NodeAt(root, path[..|path| - 1]).Some?
            && path[|path| - 1] == |NodeAt(root, path[..|path| - 1]).value.children|
  {
    hide ParseFile, EnclosingEmptyByte, MarkPath, SetAt, NodeAt;
    NoOtherPanic(root, path, |path|);
    if path != [] {
      NoOtherPanic(root, path, |path| - 1);
    }
  }

  lemma {:induction false} NoOtherPanic(n: FfsNode, path: Path, checked: nat)
    ensures EnsureMutable(n, path, checked) != Err(PanicOutOfBounds)
    decreases |path|
  {
    if path != [] && path[0] < |n.children| {
      NoOtherPanic(n.children[path[0]], path[1..], if checked > 0 then checked - 1 else 0);
    }
  }

  /** A file of nothing but a header. */
  const BARE_FILE: Bytes := Filled(20, 0) + [24, 0, 0, 0]

  lemma BareFileParses()
    ensures ParseFile(BARE_FILE, 0, 0xFF, 2).Ok?
  {
    assert BARE_FILE[0..] == BARE_FILE;
    assert BARE_FILE[20..23] == [24, 0, 0];
  }

  /** An empty image, and the place behind its sibling 0, which does not exist. */
  lemma EmptyImagePanics()
    ensures InsertNode(ImageOf([]), [0], BARE_FILE, After) == Err(PanicOutOfBounds)
  {
    hide ParseFile;
    BareFileParses();
    assert [0][..0] == [];
    InsertPanics(ImageOf([]), [0], BARE_FILE, After);
  }

  function PackedSection(body: Bytes): FfsNode {
    FfsNode(None, Section, SECTION_COMPRESSION, 0, [], body, [], [], NoAction, Nothing)
  }

  /** Before the insertion the image builds; the insertion after a section that
      cannot be compressed again succeeds and marks the section; then the image
      does not build any more. */
  lemma AfterPackedSectionFails(c: Codec, body: Bytes)
    ensures var root := ImageOf([PackedSection(body)]);
      && Build(c, root).Ok? && InsertNode(root, [0], BARE_FILE, After).Ok?
      && Build(c, InsertNode(root, [0], BARE_FILE, After).value) == Err(RecompressionUnsupported)
  {
    hide ParseFile, Compose, FinishFile, FinishSection, Join, LayOut;
    BareFileParses();
    var s := PackedSection(body);
    var root := ImageOf([s]);
    assert [0][..0] == [] && [0][1..] == [] && [s][1..] == [];
    assert Build(c, s) == Ok(Stored(s));
    assert BuildPieces(c, []) == Ok([]);
    var f := Inserted(root, [0], BARE_FILE, After);
    var root' := InsertNode(root, [0], BARE_FILE, After).value;
    var kids := [s.(action := Rebuild), f];
    assert [s][..1] + [f] + [s][1..] == [s, f];
    assert [s, f][0 := s.(action := Rebuild)] == kids;
    assert root' == root.(children := kids, action := Rebuild);
    assert Build(c, kids[0]) == Err(RecompressionUnsupported);
  }
}
