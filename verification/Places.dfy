/** Where the build of a node is found in the image, and which nodes leave no
    trace in it. */
module Places {
  import opened Results
  import opened Words
  import opened Ffs
  import opened Compress
  import opened Builder
  import opened LazyRebuild
  import opened Locality
  import opened Ops

  // Places in an image

  ghost predicate StandsAt(b: Bytes, off: nat, x: Bytes) {
    off + |x| <= |b| && b[off..off + |x|] == x
  }

  /** A place in the bytes, or in what a part of them decodes to. */
  datatype Place = Here(off: nat) | Within(off: nat, len: nat, inner: Place)

  ghost predicate Found(c: Codec, b: Bytes, place: Place, x: Bytes)
    decreases place
  {
    match place
    case Here(off) => StandsAt(b, off, x)
    case Within(off, len, inner) =>
      off + len <= |b| && c.decode(b[off..off + len]).Some? && Found(c, c.decode(b[off..off + len]).value, inner, x)
  }

  function Moved(place: Place, d: nat): Place {
    match place
    case Here(off) => Here(d + off)
    case Within(off, len, inner) => Within(d + off, len, inner)
  }

  function Joined(outer: Place, inner: Place): Place {
    match outer
    case Here(off) => Moved(inner, off)
    case Within(off, len, rest) => Within(off, len, Joined(rest, inner))
  }

  lemma StandsWithin(b: Bytes, off: nat, x: Bytes, at: nat, len: nat)
    requires StandsAt(b, off, x) && at + len <= |x|
    ensures off + at + len <= |b| && b[off + at..off + at + len] == x[at..at + len]
  {
    PartOfPart(b, off, off + |x|, at, at + len);
  }

  lemma FoundMoved(c: Codec, b: Bytes, off: nat, x: Bytes, place: Place, y: Bytes)
    requires StandsAt(b, off, x) && Found(c, x, place, y)
    ensures Found(c, b, Moved(place, off), y)
  {
    match place
    case Here(at) => StandsWithin(b, off, x, at, |y|);
    case Within(at, len, _) => StandsWithin(b, off, x, at, len);
  }

  lemma FoundHere(c: Codec, b: Bytes, off: nat, x: Bytes)
    ensures Found(c, b, Here(off), x) <==> StandsAt(b, off, x)
  {
  }

  /** Found in what is found. */
  lemma {:induction false} FoundJoined(c: Codec, b: Bytes, outer: Place, x: Bytes, inner: Place, y: Bytes)
    requires Found(c, b, outer, x) && Found(c, x, inner, y)
    ensures Found(c, b, Joined(outer, inner), y)
    decreases outer
  {
    match outer
    case Here(off) => FoundMoved(c, b, off, x, inner, y);
    case Within(off, len, rest) => FoundJoined(c, c.decode(b[off..off + len]).value, rest, x, inner, y);
  }

  // Nodes that show their children

  /** A dirty node of this kind is built from its children. */
  predicate Open(n: FfsNode) {
    && (n.nodeType == Volume || n.nodeType == File || (n.nodeType == Section && !BlockedSection(n)))
    && n.action != Remove
  }

  lemma {:induction false} KeptAt(c: Codec, children: seq<FfsNode>, ps: seq<Piece>, i: nat) returns (k: nat)
    requires KeptPieces(c, children, ps) && i < |children| && children[i].action != Remove
    ensures k < |ps| && Build(c, children[i]) == Ok(ps[k].bytes)
    decreases |children|
  {
    hide Build;
    if i == 0 {
      k := 0;
    } else if children[0].action == Remove {
      k := KeptAt(c, children[1..], ps, i - 1);
    } else {
      k := KeptAt(c, children[1..], ps[1..], i - 1);
      k := k + 1;
    }
  }

  lemma {:induction false} LaidAt(b: Bytes, start: nat, ps: seq<Piece>, end: nat, empty: U8, align: nat, k: nat)
    requires align > 0 && LaidAs(b, start, ps, end, empty, align) && k < |ps|
    ensures start <= ps[k].off && ps[k].off % align == 0 && ps[k].off + |ps[k].bytes| <= end
    ensures StandsAt(b, ps[k].off, ps[k].bytes)
    decreases k
  {
    if k > 0 {
      LaidAt(b, ps[0].off + |ps[0].bytes|, ps[1..], end, empty, align, k - 1);
    }
  }

  lemma VolumeShows(c: Codec, n: FfsNode, i: nat) returns (off: nat)
    requires n.nodeType == Volume && n.action != Remove && n.action != NoAction && Build(c, n).Ok?
    requires i < |n.children| && n.children[i].action != Remove
    ensures Build(c, n.children[i]).Ok? && StandsAt(Build(c, n).value, off, Build(c, n.children[i]).value)
    ensures off % 8 == 0 && |n.header| <= off && off + |Build(c, n.children[i]).value| <= |n.header| + |n.body|
  {
    hide Build, KeptPieces, LaidAs, StandsAt;
    var ps := VolumeLayout(c, n);
    var k := KeptAt(c, n.children, ps, i);
    LaidAt(Build(c, n).value, |n.header|, ps, |n.header| + |n.body|, EmptyByte(n), 8, k);
    off := ps[k].off;
  }

  lemma JoinShows(c: Codec, children: seq<FfsNode>, i: nat) returns (off: nat)
    requires Join(c, children, []).Ok? && i < |children|
    ensures Build(c, children[i]).Ok? && StandsAt(Join(c, children, []).value, off, Build(c, children[i]).value)
    ensures off % 4 == 0
  {
    hide Build, LaidAs, StandsAt, Join;
    var ps := JoinLaid(c, children, []);
    LaidAt(Join(c, children, []).value, 0, ps, |Join(c, children, []).value|, 0, 4, i);
    off := ps[i].off;
  }

  lemma StandsInMiddle(a: Bytes, b: Bytes, z: Bytes)
    ensures StandsAt(a + b + z, |a|, b)
  {
  }

  lemma PlainShows(c: Codec, n: FfsNode, i: nat) returns (off: nat)
    requires n.nodeType == File || (n.nodeType == Section && !IsCompressedOrGuided(n))
    requires n.action != Remove && n.action != NoAction && Build(c, n).Ok? && i < |n.children|
    ensures Build(c, n.children[i]).Ok? && StandsAt(Build(c, n).value, |n.header| + off, Build(c, n.children[i]).value)
    ensures off % 4 == 0
  {
    hide Join, StandsAt, SetFfsSize, SetSectionSize, RecomputeChecksums;
    off := JoinShows(c, n.children, i);
    var body, x := Join(c, n.children, []).value, Build(c, n.children[i]).value;
    var header := if n.nodeType == File then RecomputeChecksums(SetFfsSize(n.header, |n.header| + |body| + |n.tail|), body)
                  else SetSectionSize(n.header, |n.header| + |body|);
    var tail := if n.nodeType == File then n.tail else [];
    assert Build(c, n).value == header + body + tail;
    StandsInMiddle(header, body, tail);
    FoundMoved(c, Build(c, n).value, |header|, body, Here(off), x);
  }

  /** A recompressed section holds its children in what its payload decodes to. */
  lemma PackedShows(c: Codec, n: FfsNode, i: nat) returns (off: nat)
    requires n.nodeType == Section && IsCompressedOrGuided(n) && n.action != Remove && n.action != NoAction
    requires Build(c, n).Ok? && i < |n.children|
    ensures Build(c, n.children[i]).Ok? && PrefixLen(n).Some? && off % 4 == 0
    ensures var start := |n.header| + PrefixLen(n).value;
      start <= |Build(c, n).value| && c.decode(Build(c, n).value[start..]).Some?
      && StandsAt(c.decode(Build(c, n).value[start..]).value, off, Build(c, n.children[i]).value)
  {
    hide Join, StandsAt, SetSectionSize, Fit, Shortest, Fits;
    off := JoinShows(c, n.children, i);
    var prefix, input := PrefixLen(n).value, Join(c, n.children, []).value;
    var stream := Fit(c, input, Some(|n.body| - prefix)).value;
    FitMeaning(c, input, Some(|n.body| - prefix));
    var header := SetSectionSize(n.header, |n.header| + prefix + |stream|);
    assert Build(c, n).value == header + n.body[..prefix] + stream;
    assert Build(c, n).value[|n.header| + prefix..] == stream;
  }

  /** The build of a dirty open node holds the builds of all children, but of those
      removed from a volume: as they are, or after decoding. */
  lemma OpenShows(c: Codec, n: FfsNode, i: nat) returns (place: Place)
    requires Open(n) && n.action != NoAction && Build(c, n).Ok? && i < |n.children|
    requires n.nodeType == Volume ==> n.children[i].action != Remove
    ensures Build(c, n.children[i]).Ok? && Found(c, Build(c, n).value, place, Build(c, n.children[i]).value)
    ensures place.Here? <==> !IsPacked(n)
  {
    hide Build, StandsAt;
    if n.nodeType == Volume {
      var off := VolumeShows(c, n, i);
      place := Here(off);
    } else if IsPacked(n) {
      var off := PackedShows(c, n, i);
      var b, start := Build(c, n).value, |n.header| + PrefixLen(n).value;
      assert b[start..start + (|b| - start)] == b[start..];
      place := Within(start, |b| - start, Here(off));
    } else {
      var off := PlainShows(c, n, i);
      place := Here(|n.header| + off);
    }
  }

  /** A dirty node that is neither open nor on top of the tree builds to the same
      whatever its children are. */
  lemma ClosedHides(c: Codec, n: FfsNode, kids: seq<FfsNode>)
    requires !Open(n) && !IsRootLike(n) && n.action != NoAction
    ensures Build(c, n.(children := kids)) == Build(c, n)
  {
  }

  /** A compressed or guided section is not copied if something in it is dirty: it is
      built as if it was marked itself. */
  lemma DirtyBelowPacked(c: Codec, n: FfsNode)
    requires IsPacked(n) && SubtreeDirty(n) && n.action == NoAction
    ensures Build(c, n) == Build(c, n.(action := Rebuild))
  {
    hide Join, Fit, SetSectionSize;
  }

  // The top of the tree

  /** The last piece that covers a position. */
  function Covering(ps: seq<Piece>, k: nat): (r: Option<nat>)
    ensures r.Some? ==> r.value < |ps| && Covers(ps[r.value], k) && forall j :: r.value < j < |ps| ==> !Covers(ps[j], k)
    ensures r.None? ==> forall j :: 0 <= j < |ps| ==> !Covers(ps[j], k)
  {
    if ps == [] then None
    else if Covers(ps[|ps| - 1], k) then Some(|ps| - 1)
    else Covering(ps[..|ps| - 1], k)
  }

  /** Every byte of an image is that of the last piece that covers it, or 0xFF. */
  lemma ComposeMeaning(ps: seq<Piece>, k: nat)
    requires k < |Compose(ps)|
    ensures Compose(ps)[k] == match Covering(ps, k) case None => 0xFF case Some(j) => ps[j].bytes[k - ps[j].off]
  {
    TotalSizeBounds(ps);
    var a := Filled(TotalSize(ps), 0xFF);
    match Covering(ps, k)
    case None => OverlayUncovered(a, ps, k);
    case Some(j) => OverlayInside(a, ps, j, k);
  }

  lemma {:induction false} TotalSizeLeast(ps: seq<Piece>, m: nat)
    requires forall j :: 0 <= j < |ps| ==> ps[j].off + |ps[j].bytes| <= m
    ensures TotalSize(ps) <= m
    decreases |ps|
  {
    if ps != [] {
      TotalSizeLeast(ps[..|ps| - 1], m);
    }
  }

  /** The last piece that covers a position is one. */
  lemma CoveringUnique(ps: seq<Piece>, k: nat, j: nat)
    requires j < |ps| && Covers(ps[j], k) && forall l :: j < l < |ps| ==> !Covers(ps[l], k)
    ensures Covering(ps, k) == Some(j)
  {
  }

  ghost predicate LaterCovers(ps: seq<Piece>, i: nat, k: int) {
    exists j :: i < j < |ps| && Covers(ps[j], k)
  }

  /** A piece that later ones cover leaves no trace. */
  lemma CoveredPiece(ps: seq<Piece>, i: nat)
    requires i < |ps| && ps[i].bytes != []
    requires forall k :: Covers(ps[i], k) ==> LaterCovers(ps, i, k)
    ensures Compose(ps[..i] + ps[i + 1..]) == Compose(ps)
  {
    hide Compose;
    var qs := ps[..i] + ps[i + 1..];
    SameTotal(ps, i);
    forall k | 0 <= k < |Compose(ps)| ensures Compose(qs)[k] == Compose(ps)[k] {
      ComposeMeaning(ps, k);
      ComposeMeaning(qs, k);
      CoveringWithout(ps, i, k);
    }
  }

  lemma CoveringWithout(ps: seq<Piece>, i: nat, k: nat)
    requires i < |ps| && Covering(ps, k) != Some(i)
    ensures var qs, r := ps[..i] + ps[i + 1..], Covering(ps, k);
      if r.None? then Covering(qs, k).None? else Covering(qs, k).Some? && qs[Covering(qs, k).value] == ps[r.value]
  {
    hide Covers;
    var qs, r := ps[..i] + ps[i + 1..], Covering(ps, k);
    if r.Some? {
      CoveringUnique(qs, k, if r.value < i then r.value else r.value - 1);
    }
  }

  lemma SameTotal(ps: seq<Piece>, i: nat)
    requires i < |ps| && ps[i].bytes != []
    requires forall k :: Covers(ps[i], k) ==> LaterCovers(ps, i, k)
    ensures TotalSize(ps[..i] + ps[i + 1..]) == TotalSize(ps)
  {
    hide TotalSize, LaterCovers, Covers;
    var qs := ps[..i] + ps[i + 1..];
    TotalSizeBounds(ps);
    TotalSizeBounds(qs);
    forall j | 0 <= j < |qs| ensures qs[j].off + |qs[j].bytes| <= TotalSize(ps) {
      assert qs[j] == ps[if j < i then j else j + 1];
    }
    TotalSizeLeast(qs, TotalSize(ps));
    var l := LaterEnd(ps, i);
    forall j | 0 <= j < |ps| ensures ps[j].off + |ps[j].bytes| <= TotalSize(qs) {
      var j' := if j == i then l else j;
      assert ps[j'] == qs[if j' < i then j' else j' - 1];
    }
    TotalSizeLeast(ps, TotalSize(qs));
  }

  /** Some later piece ends no earlier than a piece that later ones cover. */
  lemma LaterEnd(ps: seq<Piece>, i: nat) returns (l: nat)
    requires i < |ps| && ps[i].bytes != []
    requires forall k :: Covers(ps[i], k) ==> LaterCovers(ps, i, k)
    ensures i < l < |ps| && ps[i].off + |ps[i].bytes| <= ps[l].off + |ps[l].bytes|
  {
    var last := ps[i].off + |ps[i].bytes| - 1;
    assert Covers(ps[i], last);
    assert LaterCovers(ps, i, last);
    l :| i < l < |ps| && Covers(ps[l], last);
  }

  /** A child behind child `i` of the root is laid over position `k`. */
  ghost predicate LaidOver(c: Codec, kids: seq<FfsNode>, i: nat, k: int) {
    exists j :: i < j < |kids| && Build(c, kids[j]).Ok? && kids[j].offset <= k < kids[j].offset + |Build(c, kids[j]).value|
  }

  /** No later child of the root is laid over any byte of child `i`. */
  ghost predicate Clear(c: Codec, root: FfsNode, i: nat)
    requires i < |root.children|
  {
    var v := root.children[i];
    Build(c, v).Ok? ==>
      forall k :: v.offset <= k < v.offset + |Build(c, v).value| ==> !LaidOver(c, root.children, i, k)
  }

  lemma LaidOverIsCovered(c: Codec, root: FfsNode, ps: seq<Piece>, i: nat, k: int)
    requires IsRootLike(root) && Build(c, root).Ok? && BuildPieces(c, root.children) == Ok(ps)
    ensures LaterCovers(ps, i, k) <==> LaidOver(c, root.children, i, k)
  {
    hide Build, Compose, BuildPieces;
    AllPieces(c, root);
    if LaterCovers(ps, i, k) {
      var j :| i < j < |ps| && Covers(ps[j], k);
      assert Build(c, root.children[j]).Ok?;
    }
    if LaidOver(c, root.children, i, k) {
      var j :| i < j < |ps| && Build(c, root.children[j]).Ok?
        && root.children[j].offset <= k < root.children[j].offset + |Build(c, root.children[j]).value|;
      assert Covers(ps[j], k);
    }
  }

  /** The image shows every byte of a child of the root that no later child is
      laid over; so it holds the child's build where it is clear. */
  lemma RootShows(c: Codec, root: FfsNode, i: nat)
    requires IsRootLike(root) && Build(c, root).Ok? && i < |root.children|
    ensures Build(c, root.children[i]).Ok?
    ensures var b, x, off := Build(c, root).value, Build(c, root.children[i]).value, root.children[i].offset;
      && off + |x| <= |b|
      && (forall k :: off <= k < off + |x| && !LaidOver(c, root.children, i, k) ==> b[k] == x[k - off])
      && (Clear(c, root, i) ==> StandsAt(b, off, x))
  {
    hide Build, Compose, LaidOver, BuildPieces;
    AllPieces(c, root);
    var ps := BuildPieces(c, root.children).value;
    var b, x, off := Build(c, root).value, Build(c, root.children[i]).value, root.children[i].offset;
    TotalSizeBounds(ps);
    forall k | off <= k < off + |x| && !LaidOver(c, root.children, i, k) ensures b[k] == x[k - off] {
      LaidOverIsCovered(c, root, ps, i, k);
      ComposeMeaning(ps, k);
      CoveringUnique(ps, k, i);
    }
  }

  /** A child of the root that later children are laid over leaves no trace. */
  lemma RootHides(c: Codec, root: FfsNode, i: nat)
    requires IsRootLike(root) && Build(c, root).Ok? && i < |root.children|
    requires Build(c, root.children[i]) != Ok([])
    requires var v := root.children[i];
      Build(c, v).Ok? ==> forall k :: v.offset <= k < v.offset + |Build(c, v).value| ==> LaidOver(c, root.children, i, k)
    ensures Build(c, Without(root, i)) == Build(c, root)
  {
    hide Build, Compose, LaidOver, BuildPieces;
    AllPieces(c, root);
    var ps := BuildPieces(c, root.children).value;
    forall k | Covers(ps[i], k) ensures LaterCovers(ps, i, k) {
      LaidOverIsCovered(c, root, ps, i, k);
    }
    CoveredPiece(ps, i);
    PiecesWithout(c, root.children, i);
    RootBuild(c, Without(root, i));
  }

  lemma RootBuild(c: Codec, root: FfsNode)
    requires IsRootLike(root)
    ensures BuildPieces(c, root.children).Ok? ==> Build(c, root) == Ok(Compose(BuildPieces(c, root.children).value))
  {
  }

  /** The node without its child `i`. */
  function Without(n: FfsNode, i: nat): FfsNode
    requires i < |n.children|
  {
    n.(children := n.children[..i] + n.children[i + 1..])
  }

  lemma {:induction false} PiecesWithout(c: Codec, kids: seq<FfsNode>, i: nat)
    requires i < |kids| && BuildPieces(c, kids).Ok?
    ensures var ps := BuildPieces(c, kids).value;
      |ps| == |kids| && BuildPieces(c, kids[..i] + kids[i + 1..]) == Ok(ps[..i] + ps[i + 1..])
    decreases i
  {
    hide Build;
    PiecesAt(c, kids, i);
    var rest := kids[..i] + kids[i + 1..];
    var ps := BuildPieces(c, kids).value;
    if i == 0 {
      assert rest == kids[1..] && [] + ps[1..] == ps[1..];
    } else {
      PiecesWithout(c, kids[1..], i - 1);
      assert rest[1..] == kids[1..][..i - 1] + kids[1..][i..];
      assert ps[..i] + ps[i + 1..] == [ps[0]] + (ps[1..][..i - 1] + ps[1..][i..]);
    }
  }

  // Along a path

  /** All nodes above the end of the path are open. */
  predicate OpenAlong(n: FfsNode, path: Path)
    decreases |path|
  {
    path != [] ==> Open(n) && path[0] < |n.children| && OpenAlong(n.children[path[0]], path[1..])
  }

  lemma EditStep(n: FfsNode, at: Path, x: FfsNode, tail: Path)
    requires at != [] && NodeAt(n, at).Some?
    ensures var kid := n.children[at[0]];
      MarkPath(SetAt(n, at, x), at + tail) ==
      n.(action := Touched(n.action), children := n.children[at[0] := MarkPath(SetAt(kid, at[1..], x), at[1..] + tail)])
  {
    var kid := n.children[at[0]];
    var s := SetAt(kid, at[1..], x);
    assert (at + tail)[1..] == at[1..] + tail;
    assert n.children[at[0] := s][at[0] := MarkPath(s, at[1..] + tail)] == n.children[at[0] := MarkPath(s, at[1..] + tail)];
  }

  /** The changed node is found in the build of every open subtree around it. */
  lemma {:induction false} EditShows(c: Codec, n: FfsNode, at: Path, x: FfsNode, tail: Path) returns (place: Place)
    requires NodeAt(n, at).Some? && OpenAlong(n, at) && MarkPath(x, tail).action != Remove
    requires Build(c, MarkPath(SetAt(n, at, x), at + tail)).Ok?
    ensures MarkPath(SetAt(n, at, x), at + tail).action != Remove
    ensures Build(c, MarkPath(x, tail)).Ok?
    ensures Found(c, Build(c, MarkPath(SetAt(n, at, x), at + tail)).value, place, Build(c, MarkPath(x, tail)).value)
    decreases |at|
  {
    hide Build, Found, MarkPath, SetAt;
    if at == [] {
      assert [] + tail == tail;
      assert SetAt(n, [], x) == x by { SetHere(n, x); }
      place := Here(0);
      FoundHere(c, Build(c, MarkPath(x, tail)).value, 0, Build(c, MarkPath(x, tail)).value);
    } else {
      EditStep(n, at, x, tail);
      var m := MarkPath(SetAt(n, at, x), at + tail);
      var kid := MarkPath(SetAt(n.children[at[0]], at[1..], x), at[1..] + tail);
      assert m.children[at[0]] == kid;
      KidNotRemoved(n.children[at[0]], at[1..], x, tail);
      var outer := OpenShows(c, m, at[0]);
      var inner := EditShows(c, n.children[at[0]], at[1..], x, tail);
      place := Joined(outer, inner);
      FoundJoined(c, Build(c, m).value, outer, Build(c, kid).value, inner, Build(c, MarkPath(x, tail)).value);
    }
  }

  lemma SetHere(n: FfsNode, x: FfsNode)
    ensures SetAt(n, [], x) == x
  {
  }

  lemma KidNotRemoved(n: FfsNode, at: Path, x: FfsNode, tail: Path)
    requires NodeAt(n, at).Some? && OpenAlong(n, at) && MarkPath(x, tail).action != Remove
    ensures MarkPath(SetAt(n, at, x), at + tail).action != Remove
  {
    if at == [] {
      assert [] + tail == tail;
    }
  }

  /** Below a clear child of the root, and under open nodes only, the changed node
      is found in the image. */
  lemma ImageShows(c: Codec, root: FfsNode, at: Path, x: FfsNode, tail: Path) returns (place: Place)
    requires IsRootLike(root) && at != [] && NodeAt(root, at).Some?
    requires OpenAlong(root.children[at[0]], at[1..]) && MarkPath(x, tail).action != Remove
    requires var root' := MarkPath(SetAt(root, at, x), at + tail);
      Build(c, root').Ok? && |root'.children| == |root.children| && Clear(c, root', at[0])
    ensures Build(c, MarkPath(x, tail)).Ok?
    ensures Found(c, Build(c, MarkPath(SetAt(root, at, x), at + tail)).value, place, Build(c, MarkPath(x, tail)).value)
  {
    hide Build, Found, MarkPath, SetAt, StandsAt, Clear;
    EditStep(root, at, x, tail);
    var root' := MarkPath(SetAt(root, at, x), at + tail);
    RootShows(c, root', at[0]);
    var kid := root'.children[at[0]];
    place := EditShows(c, root.children[at[0]], at[1..], x, tail);
    FoundMoved(c, Build(c, root').value, kid.offset, Build(c, kid).value, place, Build(c, MarkPath(x, tail)).value);
    place := Moved(place, kid.offset);
  }

  /** No node above the end of the path is of a kind that stands on top only. */
  predicate InnerAlong(n: FfsNode, path: Path)
    decreases |path|
  {
    path != [] ==> !IsRootLike(n) && (path[0] < |n.children| ==> InnerAlong(n.children[path[0]], path[1..]))
  }

  /** Below a node that is not open a change leaves no trace: the tree builds as if
      it was only marked. */
  lemma {:induction false} EditHidden(c: Codec, n: FfsNode, at: Path, x: FfsNode, tail: Path)
    requires NodeAt(n, at).Some? && InnerAlong(n, at) && !OpenAlong(n, at)
    ensures Build(c, MarkPath(SetAt(n, at, x), at + tail)) == Build(c, MarkPath(n, at))
    decreases |at|
  {
    hide Build, MarkPath, SetAt;
    EditStep(n, at, x, tail);
    MarkStep(n, at);
    var m, k := MarkPath(SetAt(n, at, x), at + tail), MarkPath(n, at);
    if Open(n) {
      var kid, rest := n.children[at[0]], at[1..];
      EditHidden(c, kid, rest, x, tail);
      EditStep(kid, rest, x, tail);
      MarkStep(kid, rest);
      assert SameBuilds(c, k.children, m.children) && SameRemoved(k.children, m.children);
      SameDirtyBuild(c, k, m);
    } else {
      ClosedHides(c, k, m.children);
      assert k.(children := m.children) == m;
    }
  }

  lemma MarkStep(n: FfsNode, at: Path)
    requires at != [] && NodeAt(n, at).Some?
    ensures MarkPath(n, at) == n.(action := Touched(n.action), children := n.children[at[0] := MarkPath(n.children[at[0]], at[1..])])
  {
  }

  /** The same for the image. So the change is found in the image exactly if all
      nodes between it and the top are open. */
  lemma ImageHides(c: Codec, root: FfsNode, at: Path, x: FfsNode, tail: Path)
    requires IsRootLike(root) && at != [] && NodeAt(root, at).Some?
    requires InnerAlong(root.children[at[0]], at[1..]) && !OpenAlong(root.children[at[0]], at[1..])
    ensures Build(c, MarkPath(SetAt(root, at, x), at + tail)) == Build(c, MarkPath(root, at))
  {
    hide Build, MarkPath, SetAt;
    EditStep(root, at, x, tail);
    MarkStep(root, at);
    var kid, rest := root.children[at[0]], at[1..];
    EditHidden(c, kid, rest, x, tail);
    EditStep(kid, rest, x, tail);
    MarkStep(kid, rest);
    var m, k := MarkPath(SetAt(root, at, x), at + tail), MarkPath(root, at);
    assert SameBuilds(c, k.children, m.children);
    SameDirtyBuild(c, k, m);
  }

  /** All nodes on the path, as far as it leads, are marked. */
  predicate MarkedAlong(n: FfsNode, path: Path)
    decreases |path|
  {
    n.action != NoAction && (path != [] && path[0] < |n.children| ==> MarkedAlong(n.children[path[0]], path[1..]))
  }

  lemma {:induction false} MarkPathMarks(n: FfsNode, up: Path, tail: Path)
    ensures MarkedAlong(MarkPath(n, up + tail), up)
    decreases |up|
  {
    if up != [] && up[0] < |n.children| {
      MarkPathMarks(n.children[up[0]], up[1..], tail);
      assert (up + tail)[1..] == up[1..] + tail;
    }
  }

  /** A node with the same build in its place changes nothing above it. */
  lemma {:induction false} SameAbove(c: Codec, n: FfsNode, at: Path, x: FfsNode)
    requires NodeAt(n, at).Some? && MarkedAlong(n, at)
    requires var y := NodeAt(n, at).value; Build(c, x) == Build(c, y) && x.offset == y.offset && x.action == y.action
    ensures Build(c, SetAt(n, at, x)) == Build(c, n)
    ensures SetAt(n, at, x).offset == n.offset && SetAt(n, at, x).action == n.action
    decreases |at|
  {
    hide Build;
    if at != [] {
      SameAbove(c, n.children[at[0]], at[1..], x);
      SameDirtyBuild(c, n, SetAt(n, at, x));
    }
  }

  lemma {:induction false} SetInMarked(n: FfsNode, up: Path, y: FfsNode, tail: Path, z: FfsNode)
    requires NodeAt(n, up).Some? && NodeAt(MarkPath(SetAt(n, up, y), up + tail), up).Some?
    requires z == MarkPath(NodeAt(n, up).value, [])
    ensures SetAt(MarkPath(SetAt(n, up, y), up + tail), up, z) == MarkPath(n, up)
    decreases |up|
  {
    hide MarkPath, SetAt;
    if up == [] {
      SetHere(MarkPath(SetAt(n, up, y), up + tail), z);
    } else {
      EditStep(n, up, y, tail);
      MarkStep(n, up);
      var kid := n.children[up[0]];
      SetInMarked(kid, up[1..], y, tail, z);
      SetStep(MarkPath(SetAt(n, up, y), up + tail), up, z);
    }
  }

  lemma SetStep(n: FfsNode, at: Path, x: FfsNode)
    requires at != [] && NodeAt(n, at).Some?
    ensures SetAt(n, at, x) == n.(children := n.children[at[0] := SetAt(n.children[at[0]], at[1..], x)])
  {
  }
}
