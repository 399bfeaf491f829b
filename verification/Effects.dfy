/** What of each edit reaches the built image, by the kinds of the nodes around
    it, and a concrete tree for every way in which it does not. */
module Effects {
  import opened Results
  import opened Words
  import opened Ffs
  import opened Compress
  import opened Builder
  import opened FileCodec
  import opened LazyRebuild
  import opened Locality
  import opened Ops
  import opened Edits
  import opened EditMeaning
  import opened Places

  // A new body

  /** A new body of the node stands in the node's build. */
  predicate CarriesBody(n: FfsNode) {
    match n.nodeType
    case Image | Capsule | Root | Volume => false
    case File => |n.header| >= 23
    case Section => !IsCompressedOrGuided(n) && |n.header| >= 3
    case Padding | FreeSpace | Region => true
  }

  /** Files, sections and volumes can be removed and have a header. */
  predicate HasHeader(n: FfsNode) {
    n.nodeType == Volume || n.nodeType == File || n.nodeType == Section
  }

  function BodyPlace(n: FfsNode): nat {
    if HasHeader(n) then |n.header| else 0
  }

  ghost predicate ShowsBody(c: Codec, n: FfsNode, data: Bytes) {
    var r := Build(c, WithBody(n, data));
    r.Ok? && StandsAt(r.value, BodyPlace(n), data)
  }

  lemma FileStands(c: Codec, f: FfsNode)
    requires f.nodeType == File && f.children == [] && |f.header| >= 23 && f.action != Remove
    ensures Build(c, f).Ok? && StandsAt(Build(c, f).value, |f.header|, f.body)
    ensures f.action == NoAction || FileHeaderValid(f.header, f.body, |f.header| + |f.body| + |f.tail|) ==> Build(c, f).value == Stored(f)
  {
    hide SetFfsSize, RecomputeChecksums, FileHeaderValid;
    if FileHeaderValid(f.header, f.body, |f.header| + |f.body| + |f.tail|) {
      ValidHeaderKept(f.header, f.body, |f.header| + |f.body| + |f.tail|);
    }
    if f.action == NoAction {
      StandsInMiddle(f.header, f.body, f.tail);
    } else {
      StandsInMiddle(RecomputeChecksums(SetFfsSize(f.header, |f.header| + |f.body| + |f.tail|), f.body), f.body, f.tail);
    }
  }

  lemma SectionStands(c: Codec, n: FfsNode)
    requires n.nodeType == Section && !IsCompressedOrGuided(n) && n.children == [] && |n.header| >= 3
    requires n.action != Remove && n.action != NoAction
    ensures Build(c, n).Ok? && StandsAt(Build(c, n).value, |n.header|, n.body)
  {
    hide SetSectionSize;
    var header := SetSectionSize(n.header, |n.header| + |n.body|);
    assert BuildBody(c, n) == Ok(n.body);
    assert Build(c, n).value == header + n.body + [];
    StandsInMiddle(header, n.body, []);
  }

  /** The build of a node that carries no body but has got one of the given length. */
  function Bodiless(n: FfsNode, len: nat): Result<Bytes, BuildError> {
    if n.nodeType == Volume then Ok(n.header + Filled(len, EmptyByte(n)) + n.tail)
    else if IsRootLike(n) then Ok([])
    else Err(if IsPacked(n) then RecompressionUnsupported else BuildError.Panicked)
  }

  /** What the builder makes of a node with a new body and nothing below it. */
  lemma NewBodyBuild(c: Codec, n: FfsNode, data: Bytes)
    ensures CarriesBody(n) ==> ShowsBody(c, n, data)
    ensures !CarriesBody(n) ==> Build(c, WithBody(n, data)) == Bodiless(n, |data|)
  {
    hide SetFfsSize, SetSectionSize, RecomputeChecksums;
    assert LayOut(c, [], n.header, EmptyByte(n)) == Ok(n.header);
    assert BuildPieces(c, []) == Ok([]) && Compose([]) == [];
    match n.nodeType
    case File =>
      if |n.header| >= 23 {
        FileStands(c, WithBody(n, data));
      }
    case Section =>
      if CarriesBody(n) {
        SectionStands(c, WithBody(n, data));
      }
    case Volume =>
      assert PadTo(n.header, |n.header| + |data|, EmptyByte(n)) == n.header + Filled(|data|, EmptyByte(n));
    case _ =>
  }

  /** The data of a body-only replacement stands in the node's build exactly if the
      node carries a body, or is a volume that is filled with such bytes anyway, or
      is on top of the tree and the data empty. */
  lemma BodyShows(c: Codec, n: FfsNode, data: Bytes)
    ensures ShowsBody(c, n, data) <==>
              || CarriesBody(n)
              || (n.nodeType == Volume && data == Filled(|data|, EmptyByte(n)))
              || (IsRootLike(n) && data == [])
  {
    hide Build, CarriesBody;
    NewBodyBuild(c, n, data);
    if !CarriesBody(n) && n.nodeType == Volume {
      StandsInMiddle(n.header, Filled(|data|, EmptyByte(n)), n.tail);
    }
    assert CarriesBody(n) ==> n.nodeType != Volume && !IsRootLike(n) by { CarriersOnly(n); }
  }

  lemma CarriersOnly(n: FfsNode)
    ensures CarriesBody(n) ==> n.nodeType != Volume && !IsRootLike(n)
  {
  }

  ghost predicate SameWith(c: Codec, n: FfsNode, data: Bytes, other: Bytes) {
    Build(c, WithBody(n, data)) == Build(c, WithBody(n, other))
  }

  /** All data stands in the build exactly if the node carries a body; otherwise
      all data of one length gives the same build. */
  lemma BodyCounts(c: Codec, n: FfsNode)
    ensures CarriesBody(n) <==> forall data :: ShowsBody(c, n, data)
    ensures !CarriesBody(n) <==> forall data, other :: |data| == |other| ==> SameWith(c, n, data, other)
  {
    hide Build, CarriesBody;
    forall data ensures CarriesBody(n) ==> ShowsBody(c, n, data) {
      NewBodyBuild(c, n, data);
    }
    forall data, other | |data| == |other| ensures !CarriesBody(n) ==> SameWith(c, n, data, other) {
      NewBodyBuild(c, n, data);
      NewBodyBuild(c, n, other);
    }
    var one: Bytes, two: Bytes := [0], [1];
    if CarriesBody(n) {
      assert ShowsBody(c, n, one) && ShowsBody(c, n, two);
      assert one[0] != two[0];
      assert !SameWith(c, n, one, two);
    } else {
      BodyShows(c, n, one);
      BodyShows(c, n, two);
      assert one[0] != two[0];
      assert Filled(1, EmptyByte(n))[0] == EmptyByte(n);
    }
  }

  lemma BodyFound(c: Codec, n: FfsNode, data: Bytes)
    requires ShowsBody(c, n, data)
    ensures Build(c, WithBody(n, data)).Ok? && Found(c, Build(c, WithBody(n, data)).value, Here(BodyPlace(n)), data)
  {
    hide Build;
  }

  lemma MarkHere(n: FfsNode)
    requires n.action != NoAction
    ensures MarkPath(n, []) == n
  {
  }

  /** Under open nodes below a clear child of the root, the replaced node's build
      is found in the image, and with it the new data if the node carries a body. */
  lemma ReplaceReaches(c: Codec, root: FfsNode, path: Path, data: Bytes, bodyOnly: bool) returns (place: Place)
    requires ReplaceNode(root, path, data, bodyOnly).Ok? && IsRootLike(root) && path != []
    requires NodeAt(root, path).Some? && OpenAlong(root.children[path[0]], path[1..])
    requires var root' := ReplaceNode(root, path, data, bodyOnly).value;
      Build(c, root').Ok? && |root'.children| == |root.children| && Clear(c, root', path[0])
    ensures NodeAt(ReplaceNode(root, path, data, bodyOnly).value, path).Some?
    ensures var root' := ReplaceNode(root, path, data, bodyOnly).value;
      var x, y := NodeAt(root, path).value, NodeAt(root', path).value;
      && Build(c, y).Ok? && Found(c, Build(c, root').value, place, Build(c, y).value)
      && (bodyOnly && CarriesBody(x) ==> Found(c, Build(c, root').value, Joined(place, Here(BodyPlace(x))), data))
      && (!bodyOnly ==>
            ParseFile(data, 0, 0xFF, 2).Ok?
            && Found(c, Build(c, root').value, Joined(place, Here(|y.header|)), ParseFile(data, 0, 0xFF, 2).value.body))
  {
    hide Build, Found, MarkPath, SetAt, EnsureMutable, ParseFile, Clear, CarriesBody, ShowsBody, NodeAt;
    var root' := ReplaceNode(root, path, data, bodyOnly).value;
    var x := NodeAt(root, path).value;
    var y := if bodyOnly then WithBody(x, data) else WithContents(x, ParseFile(data, 0, 0xFF, 2).value);
    ReplaceMeaning(root, path, data, bodyOnly, path);
    assert path + [] == path;
    MarkHere(y);
    place := ImageShows(c, root, path, y, []);
    if bodyOnly {
      NewBodyBuild(c, x, data);
      if CarriesBody(x) {
        assert Found(c, Build(c, y).value, Here(BodyPlace(x)), data) by { BodyFound(c, x, data); }
        FoundJoined(c, Build(c, root').value, place, Build(c, y).value, Here(BodyPlace(x)), data);
      }
    } else {
      ParsedIsLeaf(data);
      HeaderParsed(data);
      FileStands(c, y);
      assert Found(c, Build(c, y).value, Here(|y.header|), y.body) by { FoundHere(c, Build(c, y).value, |y.header|, y.body); }
      FoundJoined(c, Build(c, root').value, place, Build(c, y).value, Here(|y.header|), y.body);
    }
  }

  // An inserted file

  /** The node that gets the file. */
  function Parent(path: Path, mode: InsertMode): Path
    requires mode != Into ==> path != []
  {
    if mode == Into then path else path[..|path| - 1]
  }

  /** The tree after the insertion: the parent with its new child, marked. */
  lemma InsertedTree(root: FfsNode, path: Path, data: Bytes, mode: InsertMode) returns (x: FfsNode, y: FfsNode, at: nat, tail: Path)
    requires InsertNode(root, path, data, mode).Ok?
    ensures mode != Into ==> path != []
    ensures var up := Parent(path, mode);
      && NodeAt(root, up) == Some(x) && at == InsertPlace(path, mode, |x.children|) && path == up + tail && |tail| <= 1
      && at <= |x.children|
      && y == x.(children := x.children[..at] + [Inserted(root, path, data, mode)] + x.children[at..])
      && InsertNode(root, path, data, mode).value == MarkPath(SetAt(root, up, y), path)
      && NodeAt(InsertNode(root, path, data, mode).value, up) == Some(MarkPath(y, tail))
      && GrownBy(x, MarkPath(y, tail), Inserted(root, path, data, mode), at, if tail == [] then None else Some(tail[0]))
  {
    hide MarkPath, SetAt, NodeAt, InsertNode, Inserted, GrownBy;
    InsertShape(root, path, data, mode);
    var up := Parent(path, mode);
    x := NodeAt(root, up).value;
    at := InsertPlace(path, mode, |x.children|);
    tail := if mode == Into then [] else [path[|path| - 1]];
    assert path == up + tail;
    y := x.(children := x.children[..at] + [Inserted(root, path, data, mode)] + x.children[at..]);
    SetKeepsNode(root, up, y);
    MarkBelow(SetAt(root, up, y), up, tail);
    MarkedGrowth(x, Inserted(root, path, data, mode), at, tail);
  }

  lemma InsertedIsFile(root: FfsNode, path: Path, data: Bytes, mode: InsertMode)
    requires ParseFile(data, 0, 0xFF, 2).Ok? && (mode != Into ==> path != [])
    ensures var f := Inserted(root, path, data, mode);
      f.nodeType == File && f.children == [] && f.action == NoAction && f.offset == 0 && |f.header| >= 24
      && f.body == ParseFile(data, 0, 0xFF, 2).value.body
  {
    hide EnclosingEmptyByte;
  }

  /** What the build of a node shows of child `at`, a file that it has got; `x` is
      the node as it was. An open node holds the file, a node on top of the tree
      what no later child is laid over, any other node nothing of it. The own body
      of a file or plain section counts no longer. */
  ghost predicate FileShown(c: Codec, x: FfsNode, y: FfsNode, at: nat, place: Place)
    requires at < |y.children|
  {
    var b, fb := Build(c, y), Build(c, y.children[at]);
    && fb.Ok?
    && (b.Ok? && Open(x) ==> Found(c, b.value, place, fb.value) && (place.Here? <==> !IsPacked(x)))
    && (b.Ok? && IsRootLike(x) ==>
          |fb.value| <= |b.value|
          && (forall k :: 0 <= k < |fb.value| && !LaidOver(c, y.children, at, k) ==> b.value[k] == fb.value[k])
          && ((forall k :: 0 <= k < |fb.value| ==> LaidOver(c, y.children, at, k)) ==> b == Build(c, Without(y, at))))
    && (!Open(x) && !IsRootLike(x) ==> b == Build(c, y.(children := x.children)))
    && ((x.nodeType == File || (x.nodeType == Section && !IsPacked(x))) ==>
          forall body: Bytes :: Build(c, y.(body := body)) == b)
  }

  lemma GrownShows(c: Codec, x: FfsNode, y: FfsNode, f: FfsNode, at: nat, idx: Option<nat>) returns (place: Place)
    requires GrownBy(x, y, f, at, idx)
    requires f.nodeType == File && f.children == [] && f.action == NoAction && f.offset == 0 && |f.header| >= 23
    ensures FileShown(c, x, y, at, place)
  {
    hide Build, Found, LaidOver, RecomputeChecksums, SetFfsSize;
    place := Here(0);
    FileStands(c, y.children[at]);
    assert x.action == Remove ==> y.action == Remove;
    assert Open(x) <==> Open(y);
    if Open(x) && Build(c, y).Ok? {
      place := OpenShows(c, y, at);
    } else if IsRootLike(x) && Build(c, y).Ok? {
      RootShows(c, y, at);
      if forall k :: 0 <= k < |Build(c, y.children[at]).value| ==> LaidOver(c, y.children, at, k) {
        RootHides(c, y, at);
      }
    } else if !Open(x) && !IsRootLike(x) {
      ClosedHides(c, y, x.children);
    }
    if x.nodeType == File || (x.nodeType == Section && !IsPacked(x)) {
      forall body: Bytes ensures Build(c, y.(body := body)) == Build(c, y) {
        BodyDropped(c, y, body);
      }
    }
  }

  /** The own body of a file or plain section with children does not count. */
  lemma BodyDropped(c: Codec, n: FfsNode, body: Bytes)
    requires n.nodeType == File || (n.nodeType == Section && !IsPacked(n))
    requires n.children != [] && n.action != NoAction
    ensures Build(c, n.(body := body)) == Build(c, n)
  {
    hide Join, SetFfsSize, SetSectionSize, RecomputeChecksums;
  }

  /** What an insertion shows in the build of the parent, for every kind of parent. */
  lemma InsertShows(c: Codec, root: FfsNode, path: Path, data: Bytes, mode: InsertMode) returns (place: Place)
    requires InsertNode(root, path, data, mode).Ok?
    ensures mode != Into ==> path != []
    ensures var root', up := InsertNode(root, path, data, mode).value, Parent(path, mode);
      && NodeAt(root, up).Some? && NodeAt(root', up).Some?
      && var x, y := NodeAt(root, up).value, NodeAt(root', up).value;
      && |y.children| == |x.children| + 1 && InsertPlace(path, mode, |x.children|) <= |x.children|
      && FileShown(c, x, y, InsertPlace(path, mode, |x.children|), place)
  {
    hide InsertNode, NodeAt, MarkPath, SetAt, FileShown, Inserted, ParseFile;
    InsertShape(root, path, data, mode);
    var x, y, at, tail := InsertedTree(root, path, data, mode);
    InsertedIsFile(root, path, data, mode);
    place := GrownShows(c, x, MarkPath(y, tail), Inserted(root, path, data, mode), at, if tail == [] then None else Some(tail[0]));
  }

  /** Under open nodes below a clear child of the root, the inserted file's build
      is found in the image, and with it the file's body. */
  lemma InsertReaches(c: Codec, root: FfsNode, path: Path, data: Bytes, mode: InsertMode) returns (place: Place)
    requires InsertNode(root, path, data, mode).Ok? && IsRootLike(root)
    requires mode != Into ==> path != []
    requires var up := Parent(path, mode);
      && up != [] && NodeAt(root, up).Some? && Open(NodeAt(root, up).value)
      && OpenAlong(root.children[up[0]], up[1..])
    requires var root' := InsertNode(root, path, data, mode).value;
      Build(c, root').Ok? && |root'.children| == |root.children| && Clear(c, root', path[0])
    ensures ParseFile(data, 0, 0xFF, 2).Ok?
    ensures var root', up := InsertNode(root, path, data, mode).value, Parent(path, mode);
      && NodeAt(root', up).Some?
      && var x, y := NodeAt(root, up).value, NodeAt(root', up).value;
      && InsertPlace(path, mode, |x.children|) < |y.children|
      && var f := y.children[InsertPlace(path, mode, |x.children|)];
      && Build(c, f).Ok? && Found(c, Build(c, root').value, place, Build(c, f).value)
      && Found(c, Build(c, root').value, Joined(place, Here(|f.header|)), ParseFile(data, 0, 0xFF, 2).value.body)
  {
    hide InsertNode, NodeAt, MarkPath, SetAt, Inserted, ParseFile, Build, Found, Clear, GrownBy;
    InsertShape(root, path, data, mode);
    var x, y, at, tail := InsertedTree(root, path, data, mode);
    var up, root' := Parent(path, mode), InsertNode(root, path, data, mode).value;
    InsertedIsFile(root, path, data, mode);
    var n := MarkPath(y, tail);
    GrownFile(x, n, Inserted(root, path, data, mode), at, if tail == [] then None else Some(tail[0]));
    var outer := ImageShows(c, root, up, y, tail);
    var inner := GrownShows(c, x, n, Inserted(root, path, data, mode), at, if tail == [] then None else Some(tail[0]));
    var f := n.children[at];
    place := Joined(outer, inner);
    FoundJoined(c, Build(c, root').value, outer, Build(c, n).value, inner, Build(c, f).value);
    FileStands(c, f);
    assert Found(c, Build(c, f).value, Here(|f.header|), f.body) by { FoundHere(c, Build(c, f).value, |f.header|, f.body); }
    FoundJoined(c, Build(c, root').value, place, Build(c, f).value, Here(|f.header|), f.body);
  }

  /** In all other cases but that of a parent on top of the tree, the image is as
      if the parent was only marked. */
  lemma InsertHidden(c: Codec, root: FfsNode, path: Path, data: Bytes, mode: InsertMode)
    requires InsertNode(root, path, data, mode).Ok? && IsRootLike(root)
    requires mode != Into ==> path != []
    requires var up := Parent(path, mode);
      && up != [] && NodeAt(root, up).Some? && InnerAlong(root.children[up[0]], up[1..]) && !IsRootLike(NodeAt(root, up).value)
      && !(Open(NodeAt(root, up).value) && OpenAlong(root.children[up[0]], up[1..]))
    ensures Build(c, InsertNode(root, path, data, mode).value) == Build(c, MarkPath(root, Parent(path, mode)))
  {
    hide InsertNode, NodeAt, MarkPath, SetAt, Inserted, ParseFile, Build, GrownBy;
    InsertShape(root, path, data, mode);
    var x, y, at, tail := InsertedTree(root, path, data, mode);
    var up := Parent(path, mode);
    FirstStep(root, up);
    if OpenAlong(root.children[up[0]], up[1..]) {
      var n, f := MarkPath(y, tail), Inserted(root, path, data, mode);
      InsertedIsFile(root, path, data, mode);
      var _ := GrownShows(c, x, n, f, at, if tail == [] then None else Some(tail[0]));
      var z := n.(children := x.children);
      GrownFile(x, n, f, at, if tail == [] then None else Some(tail[0]));
      assert z == MarkPath(x, []) by { MarkedOnly(x, n, f, at, if tail == [] then None else Some(tail[0])); }
      MarkPathMarks(SetAt(root, up, y), up, tail);
      SameAbove(c, MarkPath(SetAt(root, up, y), path), up, z);
      SetInMarked(root, up, y, tail, z);
    } else {
      ImageHides(c, root, up, y, tail);
    }
  }

  lemma FirstStep(n: FfsNode, path: Path)
    requires path != [] && NodeAt(n, path).Some?
    ensures path[0] < |n.children|
  {
  }

  lemma MarkedOnly(x: FfsNode, y: FfsNode, f: FfsNode, at: nat, idx: Option<nat>)
    requires GrownBy(x, y, f, at, idx)
    ensures y.(children := x.children) == MarkPath(x, [])
  {
  }

  /** A file inserted into or next to a file of a volume on top of the tree, which
      no later child overlaps: the image has the file's build at a multiple of 8
      inside the volume, and all bytes outside the volume as before. */
  lemma VolumeInsertion(c: Codec, root: FfsNode, i: nat, path: Path, data: Bytes, mode: InsertMode) returns (off: nat)
    requires IsRootLike(root) && i < |root.children| && root.children[i].nodeType == Volume && root.children[i].action != Remove
    requires InsertNode(root, path, data, mode).Ok? && (mode != Into ==> path != []) && Parent(path, mode) == [i]
    requires Build(c, root).Ok? && Build(c, InsertNode(root, path, data, mode).value).Ok?
    requires var v := root.children[i];
      forall k :: v.offset <= k < v.offset + VolumeSize(v) ==> !LaidOver(c, root.children, i, k)
    ensures var root', v, at := InsertNode(root, path, data, mode).value, root.children[i], InsertPlace(path, mode, |root.children[i].children|);
      && i < |root'.children| && at < |root'.children[i].children|
      && var b, b', fb := Build(c, root).value, Build(c, root').value, Build(c, root'.children[i].children[at]);
      && fb.Ok? && off % 8 == 0 && |v.header| <= off && off + |fb.value| <= |v.header| + |v.body|
      && StandsAt(b', v.offset + off, fb.value)
      && |b'| == |b| && forall k :: 0 <= k < |b| && !(v.offset <= k < v.offset + VolumeSize(v)) ==> b'[k] == b[k]
  {
    hide InsertNode, MarkPath, SetAt, Inserted, ParseFile, Build, GrownBy, LaidOver, StandsAt, OnlyBelow;
    InsertShape(root, path, data, mode);
    var x, y, at, tail := InsertedTree(root, path, data, mode);
    var root', v, f := InsertNode(root, path, data, mode).value, root.children[i], Inserted(root, path, data, mode);
    assert [i][1..] == [];
    assert path[0] == i && x == v;
    InsertedIsFile(root, path, data, mode);
    GrownFile(v, MarkPath(y, tail), f, at, if tail == [] then None else Some(tail[0]));
    InsertIsBelow(root, path, data, mode, {i});
    BelowIsLocal(c, root, root', {i});
    forall k ensures InVolumes(root, {i}, k) <==> InRange(v, k) {
      OneVolume(root, i, k);
    }
    SameBelowTop(root, root', i);
    var w := root'.children[i];
    assert NodeAt(root', [i]) == Some(w);
    RootShows(c, root', i);
    VolumeKeepsSize(c, w);
    off := VolumeShows(c, w, at);
    forall k | v.offset <= k < v.offset + VolumeSize(v) ensures !LaidOver(c, root'.children, i, k) {
      SameLaidOver(c, root.children, root'.children, i, k);
    }
    assert Clear(c, root', i);
    var fb := Build(c, w.children[at]).value;
    FoundHere(c, Build(c, w).value, off, fb);
    FoundMoved(c, Build(c, root').value, v.offset, Build(c, w).value, Here(off), fb);
    FoundHere(c, Build(c, root').value, v.offset + off, fb);
  }

  lemma OneVolume(root: FfsNode, i: nat, k: int)
    requires i < |root.children|
    ensures InVolumes(root, {i}, k) <==> InRange(root.children[i], k)
  {
  }

  lemma SameBelowTop(root: FfsNode, root': FfsNode, i: nat)
    requires OnlyBelow(root, root', {i}) && i < |root.children|
    ensures |root.children| == |root'.children|
    ensures SameShell(root, root') && SameShell(root.children[i], root'.children[i])
    ensures forall j :: 0 <= j < |root.children| && j != i ==> root'.children[j] == root.children[j]
  {
  }

  lemma SameLaidOver(c: Codec, kids: seq<FfsNode>, kids': seq<FfsNode>, i: nat, k: int)
    requires |kids'| == |kids| && forall j :: 0 <= j < |kids| && j != i ==> kids'[j] == kids[j]
    ensures LaidOver(c, kids', i, k) <==> LaidOver(c, kids, i, k)
  {
    hide Build;
  }

  lemma GrownFile(x: FfsNode, y: FfsNode, f: FfsNode, at: nat, idx: Option<nat>)
    requires GrownBy(x, y, f, at, idx) && f.nodeType == File && f.action == NoAction
    ensures y.action == Touched(x.action) && at < |y.children|
    ensures y.children[at] == f.(action := y.children[at].action) && y.children[at].action != Remove
  {
  }

  // A removed node

  lemma {:induction false} LayOutWithout(c: Codec, kids: seq<FfsNode>, i: nat, out: Bytes, empty: U8)
    requires i < |kids| && kids[i].action == Remove
    ensures LayOut(c, kids[..i] + kids[i + 1..], out, empty) == LayOut(c, kids, out, empty)
    decreases i
  {
    hide Build, PadTo, AlignUp;
    var rest := kids[..i] + kids[i + 1..];
    if i == 0 {
      assert rest == kids[1..];
    } else {
      assert rest[1..] == kids[1..][..i - 1] + kids[1..][i..];
      if kids[0].action == Remove {
        LayOutWithout(c, kids[1..], i - 1, out, empty);
      } else if Build(c, kids[0]).Ok? {
        LayOutWithout(c, kids[1..], i - 1, PadTo(out, AlignUp(|out|, 8), empty) + Build(c, kids[0]).value, empty);
      }
    }
  }

  /** Contents padded to the next multiple of 4, as behind every child but the last. */
  function Rounded(b: Bytes): Bytes {
    PadTo(b, AlignUp(|b|, 4), 0)
  }

  lemma RoundedFacts(b: Bytes)
    ensures |Rounded(b)| % 4 == 0 && (|b| % 4 == 0 ==> Rounded(b) == b)
  {
    if |b| % 4 == 0 {
      NoRoom(|b|, AlignUp(|b|, 4), 4);
    }
  }

  lemma JoinStep(c: Codec, kids: seq<FfsNode>, out: Bytes)
    requires kids != []
    ensures var b := Build(c, kids[0]);
      Join(c, kids, out) ==
      if b.Err? then Err(b.error) else Join(c, kids[1..], if |kids| > 1 then Rounded(out + b.value) else out + b.value)
  {
    hide Build, PadTo, AlignUp;
  }

  lemma JoinEnd(c: Codec, out: Bytes)
    ensures Join(c, [], out) == Ok(out)
  {
  }

  /** A child that builds to nothing takes no room, but stays one to pad in front
      of: without it as the last one the contents lose the padding at the end. */
  lemma {:induction false} JoinWithout(c: Codec, kids: seq<FfsNode>, i: nat, out: Bytes)
    requires i < |kids| && Build(c, kids[i]) == Ok([]) && |out| % 4 == 0
    ensures var rest := Join(c, kids[..i] + kids[i + 1..], out);
      Join(c, kids, out) == if i + 1 < |kids| || rest.Err? then rest else Ok(Rounded(rest.value))
    decreases i
  {
    hide Build, Join, Rounded;
    var rest := kids[..i] + kids[i + 1..];
    JoinStep(c, kids, out);
    JoinEnd(c, out);
    RoundedFacts(out);
    if i == 0 {
      assert rest == kids[1..] && out + [] == out;
    } else if Build(c, kids[0]).Ok? {
      JoinStep(c, rest, out);
      assert rest[1..] == kids[1..][..i - 1] + kids[1..][i..];
      var next := out + Build(c, kids[0]).value;
      RoundedFacts(next);
      if |kids| == 2 {
        assert kids[1..] == [kids[1]] && rest[1..] == [] && [kids[1]][1..] == [];
        JoinStep(c, [kids[1]], Rounded(next));
        JoinEnd(c, next);
        JoinEnd(c, Rounded(next));
        assert Rounded(next) + [] == Rounded(next);
      } else {
        JoinWithout(c, kids[1..], i - 1, Rounded(next));
      }
    } else {
      JoinStep(c, rest, out);
    }
  }

  lemma ActionIgnored(c: Codec, n: FfsNode, a: Action)
    requires !HasHeader(n)
    ensures Build(c, n.(action := a)) == Build(c, n)
  {
    hide Compose;
  }

  lemma RemovedTree(root: FfsNode, path: Path) returns (x: FfsNode, y: FfsNode)
    requires RemoveNode(root, path).Ok? && path != []
    ensures NodeAt(root, path) == Some(x)
    ensures var root', up, i := RemoveNode(root, path).value, path[..|path| - 1], path[|path| - 1];
      NodeAt(root', up) == Some(y) && i < |y.children| && y.children[i] == x.(action := Remove) && MarkedAlong(root', up)
  {
    hide MarkPath, SetAt, EnsureMutable, MarkedAlong, NodeAt;
    x := NodeAt(root, path).value;
    var r, up, i := x.(action := Remove), path[..|path| - 1], path[|path| - 1];
    assert path == up + [i] && path == path + [];
    var s := SetAt(root, path, r);
    SetKeepsNode(root, path, r);
    MarkBelow(s, path, []);
    MarkHere(r);
    MarkPathMarks(s, up, [i]);
    var root' := MarkPath(s, path);
    NodeAtPrefix(root', up, [i]);
    y := NodeAt(root', up).value;
    NodeAtEnd(root', up, i);
  }

  lemma {:induction false} NodeAtPrefix(n: FfsNode, up: Path, tail: Path)
    requires NodeAt(n, up + tail).Some?
    ensures NodeAt(n, up).Some?
    decreases |up|
  {
    if up != [] {
      assert (up + tail)[1..] == up[1..] + tail;
      NodeAtPrefix(n.children[up[0]], up[1..], tail);
    }
  }

  lemma MarkedEnd(n: FfsNode, path: Path)
    requires MarkedAlong(n, path) && NodeAt(n, path).Some?
    ensures NodeAt(n, path).value.action != NoAction
    decreases |path|
  {
    if path != [] {
      MarkedEnd(n.children[path[0]], path[1..]);
    }
  }

  /** What a removal takes from the image. Below a volume the tree builds as if the
      node was not there. Elsewhere a volume, file or section builds to nothing,
      and any other node is built as before: the tree builds as if it was not
      removed. */
  lemma RemoveShows(c: Codec, root: FfsNode, path: Path) returns (x: FfsNode, y: FfsNode)
    requires RemoveNode(root, path).Ok? && path != []
    ensures NodeAt(root, path) == Some(x)
    ensures var root', up, i := RemoveNode(root, path).value, path[..|path| - 1], path[|path| - 1];
      && NodeAt(root', up) == Some(y) && i < |y.children| && y.children[i] == x.(action := Remove)
      && (y.nodeType == Volume ==> Build(c, SetAt(root', up, Without(y, i))) == Build(c, root'))
      && (y.nodeType != Volume && HasHeader(x) ==> Build(c, y.children[i]) == Ok([]))
      && (y.nodeType != Volume && !HasHeader(x) ==> Build(c, SetAt(root', up, y.(children := y.children[i := x]))) == Build(c, root'))
  {
    hide Build, MarkPath, SetAt, NodeAt, RemoveNode, LayOut;
    x, y := RemovedTree(root, path);
    var root', up, i := RemoveNode(root, path).value, path[..|path| - 1], path[|path| - 1];
    MarkedEnd(root', up);
    if y.nodeType == Volume {
      LayOutWithout(c, y.children, i, y.header, EmptyByte(y));
      VolumeWithout(c, y, i);
      SameAbove(c, root', up, Without(y, i));
    } else if HasHeader(x) {
      RemovedBuild(c, y.children[i]);
    } else {
      ActionIgnored(c, x, Remove);
      var z := y.(children := y.children[i := x]);
      assert SameBuilds(c, y.children, z.children);
      SameDirtyBuild(c, y, z);
      SameAbove(c, root', up, z);
    }
  }

  lemma VolumeWithout(c: Codec, n: FfsNode, i: nat)
    requires n.nodeType == Volume && n.action != NoAction && i < |n.children|
    requires LayOut(c, n.children[..i] + n.children[i + 1..], n.header, EmptyByte(n)) == LayOut(c, n.children, n.header, EmptyByte(n))
    ensures Build(c, Without(n, i)) == Build(c, n)
  {
    hide LayOut;
  }

  lemma RemovedBuild(c: Codec, n: FfsNode)
    requires HasHeader(n) && n.action == Remove
    ensures Build(c, n) == Ok([])
  {
  }

  // Sections that cannot be compressed again

  /** A dirty section whose children can be built, and whose contents are sound if it
      carries the GUID of an algorithm, fails for want of an algorithm exactly if it
      blocks edits. */
  lemma BlockedMeaning(c: Codec, n: FfsNode)
    requires n.nodeType == Section && n.action != NoAction && n.action != Remove
    requires Recompressable(n) && Supported(c, n.children)
    ensures Build(c, n) == Err(RecompressionUnsupported) <==> BlockedSection(n)
  {
    hide Join, Fit, SetSectionSize;
    JoinSupported(c, n.children, []);
  }

  /** Which sections these are: standard compression, and all guided ones but those
      of three algorithms. */
  lemma BlockedSections(n: FfsNode)
    ensures BlockedSection(n) <==>
            n.nodeType == Section && (n.subtype == 1 || (n.subtype == 2 && !(n.parsingData.GuidedData? && IsRecompressableLzmaGuid(n.parsingData.guid))))
  {
  }

  // A tree for every way in which an edit is not shown

  function Leaf(nodeType: FfsType, header: Bytes, body: Bytes): FfsNode {
    FfsNode(None, nodeType, 0, 0, header, body, [], [], NoAction, Nothing)
  }

  lemma OneChild(c: Codec, root: FfsNode, kid: FfsNode)
    requires IsRootLike(root) && root.children == [kid]
    ensures Build(c, root) ==
            if Build(c, kid).Ok? then Ok(Compose([Piece(kid.offset, Build(c, kid).value)])) else Err(Build(c, kid).error)
  {
    hide Compose;
    assert [kid][1..] == [] && BuildPieces(c, []) == Ok([]);
    var b := Build(c, kid);
    if b.Ok? {
      assert [Piece(kid.offset, b.value)] + [] == [Piece(kid.offset, b.value)];
    }
  }

  /** A new body of a volume is dropped, whatever it is. */
  lemma VolumeDropsBody(c: Codec, data: Bytes, other: Bytes)
    requires |data| == |other|
    ensures var root := ImageOf([Leaf(Volume, [], [])]);
      && ReplaceNode(root, [0], data, true).Ok? && ReplaceNode(root, [0], other, true).Ok?
      && Build(c, ReplaceNode(root, [0], data, true).value).Ok?
      && Build(c, ReplaceNode(root, [0], other, true).value) == Build(c, ReplaceNode(root, [0], data, true).value)
  {
    hide Build, Compose;
    var v := Leaf(Volume, [], []);
    NewBodyBuild(c, v, data);
    NewBodyBuild(c, v, other);
    ReplacedOnly(v, data);
    ReplacedOnly(v, other);
    OneChild(c, ReplaceNode(ImageOf([v]), [0], data, true).value, WithBody(v, data));
    OneChild(c, ReplaceNode(ImageOf([v]), [0], other, true).value, WithBody(v, other));
  }

  lemma ReplacedOnly(v: FfsNode, data: Bytes)
    requires v.nodeType == Volume
    ensures var root := ImageOf([v]);
      ReplaceNode(root, [0], data, true) == Ok(root.(action := Rebuild, children := [WithBody(v, data)]))
  {
    assert [0][1..] == [];
    assert [v][0 := WithBody(v, data)][0 := WithBody(v, data)] == [WithBody(v, data)];
  }

  /** A file inserted into padding is not built. */
  lemma PaddingHidesFile(c: Codec, body: Bytes)
    ensures var root := ImageOf([Leaf(Padding, [], body)]);
      && InsertNode(root, [0], BARE_FILE, Into).Ok?
      && Build(c, InsertNode(root, [0], BARE_FILE, Into).value) == Build(c, root)
  {
    hide Compose;
    var p := Leaf(Padding, [], body);
    InsertedInto(p);
    OneChild(c, ImageOf([p]), p);
    var root' := InsertNode(ImageOf([p]), [0], BARE_FILE, Into).value;
    OneChild(c, root', root'.children[0]);
  }

  lemma InsertedInto(n: FfsNode)
    requires n.nodeType != Region && n.nodeType != Section && n.parsingData == Nothing
    ensures ParseFile(BARE_FILE, 0, 0xFF, 2).Ok?
    ensures var root, m := ImageOf([n]), n.(action := Touched(n.action), children := n.children + [ParseFile(BARE_FILE, 0, 0xFF, 2).value]);
      InsertNode(root, [0], BARE_FILE, Into) == Ok(root.(action := Rebuild, children := [m]))
  {
    hide ParseFile;
    BareFileParses();
    assert [0][1..] == [];
    var x := n.(children := n.children + [ParseFile(BARE_FILE, 0, 0xFF, 2).value]);
    assert [n][0 := x][0 := x.(action := Touched(n.action))] == [x.(action := Touched(n.action))];
    assert EnclosingEmptyByte(n, []) == None;
    assert EnclosingEmptyByte(ImageOf([n]), [0]) == None;
  }

  /** Removed padding on top of the tree is built as before. */
  lemma PaddingStays(c: Codec, body: Bytes)
    ensures var root := ImageOf([Leaf(Padding, [], body)]);
      RemoveNode(root, [0]).Ok? && Build(c, RemoveNode(root, [0]).value) == Build(c, root)
  {
    hide Compose;
    var p := Leaf(Padding, [], body);
    var r := p.(action := Remove);
    assert [0][1..] == [];
    assert [p][0 := r] == [r];
    assert [r][0 := r] == [r];
    OneChild(c, ImageOf([p]), p);
    OneChild(c, ImageOf([r]).(action := Rebuild), r);
  }

  /** A file inserted into a file without children takes the place of its body. */
  lemma LeafBodyDropped(c: Codec, header: Bytes, body: Bytes, other: Bytes)
    ensures var root, root2 := ImageOf([Leaf(File, header, body)]), ImageOf([Leaf(File, header, other)]);
      && InsertNode(root, [0], BARE_FILE, Into).Ok? && InsertNode(root2, [0], BARE_FILE, Into).Ok?
      && Build(c, InsertNode(root2, [0], BARE_FILE, Into).value) == Build(c, InsertNode(root, [0], BARE_FILE, Into).value)
  {
    hide Build, Compose, InsertNode, ParseFile;
    var n, m := Leaf(File, header, body), Leaf(File, header, other);
    InsertedInto(n);
    InsertedInto(m);
    var root', root2' := InsertNode(ImageOf([n]), [0], BARE_FILE, Into).value, InsertNode(ImageOf([m]), [0], BARE_FILE, Into).value;
    OneChild(c, root', root'.children[0]);
    OneChild(c, root2', root2'.children[0]);
    BodyDropped(c, root'.children[0], other);
    assert root2'.children[0] == root'.children[0].(body := other);
  }

  /** A file inserted in front of a volume at offset 0 leaves no trace: a parsed
      file has offset 0 too, and the volume is laid over it. */
  lemma HiddenBehindVolume(c: Codec, body: Bytes)
    requires |body| >= 24
    ensures var root := ImageOf([Leaf(Volume, [], body)]);
      && InsertNode(root, [0], BARE_FILE, Before).Ok?
      && Build(c, InsertNode(root, [0], BARE_FILE, Before).value) == Build(c, root)
  {
    hide Build, Compose, InsertNode, ParseFile, LaidOver;
    var v := Leaf(Volume, [], body);
    InsertedBefore(v);
    BareFileBuild(c);
    var root' := InsertNode(ImageOf([v]), [0], BARE_FILE, Before).value;
    var f := root'.children[0];
    assert [] + body + [] == body;
    assert Build(c, v) == Ok(body) by { StoredLeaf(c, v); }
    TwoChildren(c, root', f, v);
    forall k | f.offset <= k < f.offset + |Build(c, f).value| ensures LaidOver(c, root'.children, 0, k) {
      assert root'.children[1] == v;
      LaidOverBy(c, root'.children, 0, 1, k);
    }
    RootHides(c, root', 0);
    assert Without(root', 0).children == [v];
    OneChild(c, Without(root', 0), v);
    OneChild(c, ImageOf([v]), v);
  }

  lemma LaidOverBy(c: Codec, kids: seq<FfsNode>, i: nat, j: nat, k: int)
    requires i < j < |kids| && Build(c, kids[j]).Ok?
    requires kids[j].offset <= k < kids[j].offset + |Build(c, kids[j]).value|
    ensures LaidOver(c, kids, i, k)
  {
    hide Build;
  }

  lemma StoredLeaf(c: Codec, n: FfsNode)
    requires n.nodeType == Volume && n.action == NoAction
    ensures Build(c, n) == Ok(Stored(n))
  {
  }

  lemma TwoChildren(c: Codec, root: FfsNode, a: FfsNode, b: FfsNode)
    requires IsRootLike(root) && root.children == [a, b] && Build(c, a).Ok? && Build(c, b).Ok?
    ensures Build(c, root).Ok?
  {
    hide Compose;
    assert [a, b][1..] == [b] && [b][1..] == [] && BuildPieces(c, []) == Ok([]);
    assert BuildPieces(c, [b]).Ok?;
  }

  /** The marked bare file is built as its 24 bytes of header. */
  lemma BareFileBuild(c: Codec)
    ensures ParseFile(BARE_FILE, 0, 0xFF, 2).Ok?
    ensures var f := ParseFile(BARE_FILE, 0, 0xFF, 2).value;
      f.offset == 0 && Build(c, f.(action := Rebuild)).Ok? && |Build(c, f.(action := Rebuild)).value| == 24
  {
    hide SetFfsSize, RecomputeChecksums;
    BareFileParses();
    assert BARE_FILE[0..] == BARE_FILE;
    assert BARE_FILE[20..23] == [24, 0, 0];
  }

  lemma InsertedBefore(v: FfsNode)
    requires v.nodeType == Volume
    ensures ParseFile(BARE_FILE, 0, 0xFF, 2).Ok?
    ensures var root, f := ImageOf([v]), ParseFile(BARE_FILE, 0, 0xFF, 2).value;
      InsertNode(root, [0], BARE_FILE, Before) == Ok(root.(action := Rebuild, children := [f.(action := Rebuild), v]))
  {
    hide ParseFile;
    BareFileParses();
    ParsedIsLeaf(BARE_FILE);
    var f := ParseFile(BARE_FILE, 0, 0xFF, 2).value;
    var g := f.(action := Rebuild);
    assert [0][..0] == [] && [0][1..] == [];
    assert EnclosingEmptyByte(ImageOf([v]), []) == None;
    assert [v][..0] + [f] + [v][0..] == [f, v];
    assert [f, v][0 := g] == [g, v];
  }

  /** The image builds; the insertion into a full volume succeeds; then the image
      does not build any more. */
  lemma FullVolumeFails(c: Codec)
    ensures var root := ImageOf([Leaf(Volume, [], [])]);
      && Build(c, root).Ok? && InsertNode(root, [0], BARE_FILE, Into).Ok?
      && Build(c, InsertNode(root, [0], BARE_FILE, Into).value) == Err(SizeMismatch)
  {
    hide Build, Compose, InsertNode, ParseFile, BARE_FILE;
    var v := Leaf(Volume, [], []);
    InsertedInto(v);
    OneChild(c, ImageOf([v]), v);
    StoredLeaf(c, v);
    var f := ParseFile(BARE_FILE, 0, 0xFF, 2).value;
    var root' := InsertNode(ImageOf([v]), [0], BARE_FILE, Into).value;
    OneChild(c, root', root'.children[0]);
    ParsedIsLeaf(BARE_FILE);
    HeaderParsed(BARE_FILE);
    FileStands(c, f);
    assert [] + [f] == [f];
    VolumeOverflows(c, root'.children[0], f);
  }

  lemma VolumeOverflows(c: Codec, n: FfsNode, f: FfsNode)
    requires n.nodeType == Volume && n.action == Rebuild && n.header == [] && n.body == [] && n.children == [f]
    requires f.action == NoAction && Build(c, f).Ok? && |Build(c, f).value| > 0
    ensures Build(c, n) == Err(SizeMismatch)
  {
    hide PadTo;
    assert [f][1..] == [];
    var laid := PadTo([], AlignUp(0, 8), EmptyByte(n)) + Build(c, f).value;
    assert LayOut(c, [], laid, EmptyByte(n)) == Ok(laid);
    assert LayOut(c, [f], [], EmptyByte(n)) == Ok(laid);
  }

  /** A guided section without its last child has nothing to compress. */
  lemma EmptiedSection(c: Codec, n: FfsNode)
    requires Open(n) && IsPacked(n) && n.action != NoAction && n.children != [] && PrefixLen(n).Some?
    requires Join(c, n.children, []) == Ok([])
    ensures Build(c, n) == Err(Compression(EmptyInput))
  {
    hide Join;
  }

  /** A guided section that can be compressed again, with one section in it. */
  function GuidedAround(kid: FfsNode): FfsNode {
    FfsNode(None, Section, SECTION_GUID_DEFINED, 0, [], Filled(16, 0) + [24, 0, 0, 0], [], [kid], NoAction, GuidedData(LZMA_GUID))
  }

  lemma SoleRemoved(n: FfsNode, kid: FfsNode)
    requires n.children == [kid] && n.action == NoAction
    requires n.nodeType == Section && !BlockedSection(n) && kid.nodeType == Section && !BlockedSection(kid)
    ensures RemoveNode(ImageOf([n]), [0, 0]) ==
            Ok(ImageOf([n.(action := Rebuild, children := [kid.(action := Remove)])]).(action := Rebuild))
  {
    hide BlockedSection;
    var r := kid.(action := Remove);
    var m := n.(action := Rebuild, children := [r]);
    assert [0, 0][1..] == [0] && [0][1..] == [];
    assert [kid][0 := r] == [r] && [r][0 := r] == [r];
    var s := n.(children := [r]);
    assert SetAt(n, [0], r) == s;
    assert [n][0 := s] == [s] && [s][0 := m] == [m];
    assert MarkPath(s, [0]) == m;
    assert SetAt(ImageOf([n]), [0, 0], r) == ImageOf([s]);
    assert EnsureMutable(n, [0], 1).Ok?;
    assert EnsureMutable(ImageOf([n]), [0, 0], 2).Ok?;
  }

  /** The image builds; the removal of the only section in a compressed one
      succeeds; then the image does not build any more. */
  lemma EmptiedSectionFails(c: Codec, body: Bytes)
    ensures var root := ImageOf([GuidedAround(Leaf(Section, [], body))]);
      && Build(c, root).Ok? && RemoveNode(root, [0, 0]).Ok?
      && Build(c, RemoveNode(root, [0, 0]).value) == Err(Compression(EmptyInput))
  {
    hide Compose, LaidOver, Build, RemoveNode;
    var kid := Leaf(Section, [], body);
    var n := GuidedAround(kid);
    var r := kid.(action := Remove);
    var m := n.(action := Rebuild, children := [r]);
    SoleRemoved(n, kid);
    OneChild(c, ImageOf([n]), n);
    OneChild(c, ImageOf([m]).(action := Rebuild), m);
    assert Build(c, n).Ok? by { CleanBuild(c, n); }
    RemovedBuild(c, r);
    assert [r][..0] + [r][1..] == [];
    JoinWithout(c, [r], 0, []);
    RoundedFacts([]);
    EmptiedSection(c, m);
  }
}
