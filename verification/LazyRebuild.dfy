/** Copying clean nodes from their stored bytes gives the same image as laying
    them out again, whenever the stored bytes agree with the children. */
module LazyRebuild {
  import opened Results
  import opened Words
  import opened Ffs
  import opened Compress
  import opened Builder
  import opened FileCodec

  // Stored bytes that agree with the children

  function JoinStored(children: seq<FfsNode>, out: Bytes): Bytes
    decreases |children|
  {
    if children == [] then out
    else
      var b := out + Stored(children[0]);
      JoinStored(children[1..], if |children| > 1 then PadTo(b, AlignUp(|b|, 4), 0) else b)
  }

  function LayStored(children: seq<FfsNode>, out: Bytes, empty: U8): Bytes
    decreases |children|
  {
    if children == [] then out
    else LayStored(children[1..], PadTo(out, AlignUp(|out|, 8), empty) + Stored(children[0]), empty)
  }

  /** The stored bytes of the node are what its children and the rules for size
      fields, checksums and padding ask for. */
  ghost predicate Settled(n: FfsNode) {
    && (!IsPacked(n) ==> forall i :: 0 <= i < |n.children| ==> !IsRootLike(n.children[i]))
    && match n.nodeType
       case Volume =>
         var laid := LayStored(n.children, n.header, EmptyByte(n));
         |laid| <= |n.header| + |n.body| && PadTo(laid, |n.header| + |n.body|, EmptyByte(n)) == n.header + n.body
       case File =>
         && FileHeaderValid(n.header, n.body, |n.header| + |n.body| + |n.tail|)
         && (n.children != [] ==> n.body == JoinStored(n.children, []))
       case Section =>
         !IsCompressedOrGuided(n) ==>
           && |n.header| >= 4 && SectionSize(n.header) == |n.header| + |n.body| && n.tail == []
           && (n.children != [] ==> n.body == JoinStored(n.children, []))
       case _ => true
  }

  /** A section whose contents are only laid out again if it is dirty. */
  predicate IsPacked(n: FfsNode) {
    n.nodeType == Section && IsCompressedOrGuided(n)
  }

  /** The node is settled and, unless it is a packed section, so are its children. */
  ghost predicate AllSettled(n: FfsNode) {
    Settled(n) && (!IsPacked(n) ==> forall i :: 0 <= i < |n.children| ==> AllSettled(n.children[i]))
  }

  /** Every clean node has a clean, settled subtree; below nodes that are laid
      out anyway the same holds of the children. */
  ghost predicate Ready(n: FfsNode) {
    if n.action == NoAction && !IsRootLike(n) then !SubtreeDirty(n) && AllSettled(n)
    else forall i :: 0 <= i < |n.children| ==> Ready(n.children[i])
  }

  /** `m` is `n` with some nodes turned from NoAction to Rebuild: any nodes but
      compressed or guided sections and, while these are clean, what is in them. */
  ghost predicate Marked(n: FfsNode, m: FfsNode) {
    && m == n.(action := m.action, children := m.children)
    && |m.children| == |n.children|
    && (if IsPacked(n) then
          m.action == n.action && (n.action == NoAction ==> m.children == n.children)
        else m.action == n.action || (n.action == NoAction && m.action == Rebuild))
    && forall i :: 0 <= i < |n.children| ==> Marked(n.children[i], m.children[i])
  }

  lemma CleanBuild(c: Codec, n: FfsNode)
    requires !SubtreeDirty(n) && !IsRootLike(n)
    ensures Build(c, n) == Ok(Stored(n))
  {
  }

  // Laying out equal parts

  ghost predicate SameBuilds(c: Codec, ns: seq<FfsNode>, ms: seq<FfsNode>) {
    |ns| == |ms| && forall i :: 0 <= i < |ns| ==> Build(c, ms[i]) == Build(c, ns[i]) && ms[i].offset == ns[i].offset
  }

  ghost predicate SameRemoved(ns: seq<FfsNode>, ms: seq<FfsNode>) {
    |ns| == |ms| && forall i :: 0 <= i < |ns| ==> (ms[i].action == Remove <==> ns[i].action == Remove)
  }

  lemma SameTail(c: Codec, ns: seq<FfsNode>, ms: seq<FfsNode>)
    requires SameBuilds(c, ns, ms) && ns != []
    ensures SameBuilds(c, ns[1..], ms[1..])
  {
    hide Build;
  }

  lemma {:induction false} JoinSame(c: Codec, ns: seq<FfsNode>, ms: seq<FfsNode>, out: Bytes)
    requires SameBuilds(c, ns, ms)
    ensures Join(c, ms, out) == Join(c, ns, out)
    decreases |ns|
  {
    hide Build;
    if ns != [] && Build(c, ns[0]).Ok? {
      SameTail(c, ns, ms);
      var b := out + Build(c, ns[0]).value;
      JoinSame(c, ns[1..], ms[1..], if |ns| > 1 then PadTo(b, AlignUp(|b|, 4), 0) else b);
    }
  }

  lemma {:induction false} LayOutSame(c: Codec, ns: seq<FfsNode>, ms: seq<FfsNode>, out: Bytes, empty: U8)
    requires SameBuilds(c, ns, ms) && SameRemoved(ns, ms)
    ensures LayOut(c, ms, out, empty) == LayOut(c, ns, out, empty)
    decreases |ns|
  {
    hide Build;
    if ns != [] {
      SameTail(c, ns, ms);
      if ns[0].action == Remove {
        LayOutSame(c, ns[1..], ms[1..], out, empty);
      } else if Build(c, ns[0]).Ok? {
        LayOutSame(c, ns[1..], ms[1..], PadTo(out, AlignUp(|out|, 8), empty) + Build(c, ns[0]).value, empty);
      }
    }
  }

  lemma {:induction false} PiecesSame(c: Codec, ns: seq<FfsNode>, ms: seq<FfsNode>)
    requires SameBuilds(c, ns, ms)
    ensures BuildPieces(c, ms) == BuildPieces(c, ns)
    decreases |ns|
  {
    hide Build;
    if ns != [] {
      SameTail(c, ns, ms);
      PiecesSame(c, ns[1..], ms[1..]);
    }
  }

  ghost predicate BuildStored(c: Codec, ms: seq<FfsNode>, ns: seq<FfsNode>) {
    |ns| == |ms| && forall i :: 0 <= i < |ns| ==> Build(c, ms[i]) == Ok(Stored(ns[i])) && ms[i].action != Remove
  }

  lemma {:induction false} JoinOfStored(c: Codec, ms: seq<FfsNode>, ns: seq<FfsNode>, out: Bytes)
    requires BuildStored(c, ms, ns)
    ensures Join(c, ms, out) == Ok(JoinStored(ns, out))
    decreases |ns|
  {
    hide Build, Stored;
    if ns != [] {
      var b := out + Stored(ns[0]);
      JoinOfStored(c, ms[1..], ns[1..], if |ns| > 1 then PadTo(b, AlignUp(|b|, 4), 0) else b);
    }
  }

  lemma {:induction false} LayOutOfStored(c: Codec, ms: seq<FfsNode>, ns: seq<FfsNode>, out: Bytes, empty: U8)
    requires BuildStored(c, ms, ns)
    ensures LayOut(c, ms, out, empty) == Ok(LayStored(ns, out, empty))
    decreases |ns|
  {
    hide Build, Stored;
    if ns != [] {
      LayOutOfStored(c, ms[1..], ns[1..], PadTo(out, AlignUp(|out|, 8), empty) + Stored(ns[0]), empty);
    }
  }

  /** Laying out a settled node from children that build to their stored bytes
      reproduces its own stored bytes. */
  lemma Relaid(c: Codec, n: FfsNode, m: FfsNode)
    requires Settled(n) && m == n.(action := Rebuild, children := m.children)
    requires !IsPacked(n) && !IsRootLike(n)
    requires BuildStored(c, m.children, n.children)
    ensures Build(c, m) == Ok(Stored(n))
  {
    hide BuildStored, FileHeaderValid, SetFfsSize, RecomputeChecksums, SetSectionSize, SectionSize, JoinStored, LayStored, Join, LayOut;
    match n.nodeType
    case Volume =>
      LayOutOfStored(c, m.children, n.children, n.header, EmptyByte(n));
    case File =>
      SameEmptiness(c, m.children, n.children);
      JoinOfStored(c, m.children, n.children, []);
      ValidHeaderKept(n.header, n.body, |n.header| + |n.body| + |n.tail|);
      assert |n.header| >= 24 by { HeaderLength(n.header, n.body, |n.header| + |n.body| + |n.tail|); }
    case Section =>
      SameEmptiness(c, m.children, n.children);
      JoinOfStored(c, m.children, n.children, []);
      ValidSectionKept(n.header, |n.header| + |n.body|);
      assert n.header + n.body + n.tail == n.header + n.body;
    case _ =>
  }

  lemma HeaderLength(header: Bytes, body: Bytes, total: nat)
    requires FileHeaderValid(header, body, total)
    ensures |header| >= 24
  {
  }

  lemma SameEmptiness(c: Codec, ms: seq<FfsNode>, ns: seq<FfsNode>)
    requires BuildStored(c, ms, ns)
    ensures ms == [] <==> ns == []
  {
  }

  lemma CleanChildren(n: FfsNode)
    requires !SubtreeDirty(n)
    ensures forall i :: 0 <= i < |n.children| ==> !SubtreeDirty(n.children[i])
  {
  }

  /** Turning any clean, uncompressed nodes from NoAction to Rebuild leaves every
      byte of the image as it was. */
  lemma {:induction false} LazyEqualsFull(c: Codec, n: FfsNode, m: FfsNode)
    requires Ready(n) && Marked(n, m)
    ensures Build(c, m) == Build(c, n)
    decreases n
  {
    hide Build, Settled, SubtreeDirty;
    if n.action == NoAction && !IsRootLike(n) {
      CleanBuild(c, n);
      MarkedCleanBuild(c, n, m);
    } else {
      forall i | 0 <= i < |n.children|
        ensures Build(c, m.children[i]) == Build(c, n.children[i])
      {
        LazyEqualsFull(c, n.children[i], m.children[i]);
      }
      assert SameBuilds(c, n.children, m.children) && SameRemoved(n.children, m.children);
      SameDirtyBuild(c, n, m);
    }
  }

  lemma {:induction false} MarkedCleanBuild(c: Codec, n: FfsNode, m: FfsNode)
    requires !SubtreeDirty(n) && AllSettled(n) && !IsRootLike(n) && Marked(n, m)
    ensures Build(c, m) == Ok(Stored(n))
    decreases n
  {
    hide Build, Settled, Stored;
    if m.action == NoAction {
      MarkedStillCopied(c, n, m);
    } else {
      CleanChildren(n);
      forall i | 0 <= i < |n.children|
        ensures Build(c, m.children[i]) == Ok(Stored(n.children[i])) && m.children[i].action != Remove
      {
        NotRootLike(n, i);
        MarkedCleanBuild(c, n.children[i], m.children[i]);
      }
      assert BuildStored(c, m.children, n.children);
      Relaid(c, n, m);
    }
  }

  lemma NotRootLike(n: FfsNode, i: nat)
    requires Settled(n) && !IsPacked(n) && i < |n.children|
    ensures !IsRootLike(n.children[i])
  {
  }

  lemma MarkedStillCopied(c: Codec, n: FfsNode, m: FfsNode)
    requires !SubtreeDirty(n) && !IsRootLike(n) && Marked(n, m) && m.action == NoAction
    ensures Build(c, m) == Ok(Stored(n))
  {
    if IsPacked(n) {
      assert m == n;
    }
  }

  /** Two nodes that are laid out from children of the same builds. */
  lemma SameDirtyBuild(c: Codec, n: FfsNode, m: FfsNode)
    requires m == n.(action := m.action, children := m.children)
    requires if n.action == NoAction then IsRootLike(n) else m.action == n.action
    requires SameBuilds(c, n.children, m.children) && (n.nodeType == Volume ==> SameRemoved(n.children, m.children))
    ensures Build(c, m) == Build(c, n)
  {
    hide SameBuilds, SameRemoved, Join, LayOut, BuildPieces, SetFfsSize, SetSectionSize, RecomputeChecksums;
    SameCount(c, n.children, m.children);
    match n.nodeType
    case Image | Capsule | Root => PiecesSame(c, n.children, m.children);
    case Volume => LayOutSame(c, n.children, m.children, n.header, EmptyByte(n));
    case File => JoinSame(c, n.children, m.children, []);
    case Section => SameDirtySection(c, n, m);
    case _ =>
  }

  lemma SameDirtySection(c: Codec, n: FfsNode, m: FfsNode)
    requires n.nodeType == Section && n.action != NoAction
    requires m == n.(action := m.action, children := m.children) && m.action == n.action
    requires SameBuilds(c, n.children, m.children)
    ensures Build(c, m) == Build(c, n)
  {
    hide SameBuilds, Join, Fit, SetSectionSize;
    SameCount(c, n.children, m.children);
    JoinSame(c, n.children, m.children, []);
  }

  lemma SameCount(c: Codec, ns: seq<FfsNode>, ms: seq<FfsNode>)
    requires SameBuilds(c, ns, ms)
    ensures ms == [] <==> ns == []
  {
  }

  // The full rebuild

  /** Every node that may be marked, marked. */
  function MarkAll(n: FfsNode): FfsNode {
    if IsPacked(n) && n.action == NoAction then n
    else n.(
      action := if n.action == NoAction && !IsPacked(n) then Rebuild else n.action,
      children := seq(|n.children|, i requires 0 <= i < |n.children| => MarkAll(n.children[i])))
  }

  lemma {:induction false} SelfMarked(n: FfsNode)
    ensures Marked(n, n)
  {
    forall i | 0 <= i < |n.children| ensures Marked(n.children[i], n.children[i]) {
      SelfMarked(n.children[i]);
    }
  }

  lemma {:induction false} MarkAllMarks(n: FfsNode)
    ensures Marked(n, MarkAll(n))
  {
    if IsPacked(n) && n.action == NoAction {
      SelfMarked(n);
    } else {
      forall i | 0 <= i < |n.children| ensures Marked(n.children[i], MarkAll(n.children[i])) {
        MarkAllMarks(n.children[i]);
      }
    }
  }

  /** In the marked tree every node counts as dirty, but for clean compressed or guided
      sections and what is in them. */
  lemma {:induction false} NothingIsCopied(n: FfsNode)
    ensures AllDirty(MarkAll(n))
  {
    if !(IsPacked(n) && n.action == NoAction) {
      forall i | 0 <= i < |n.children| ensures AllDirty(MarkAll(n).children[i]) {
        NothingIsCopied(n.children[i]);
      }
    }
  }

  ghost predicate AllDirty(n: FfsNode) {
    if n.action == NoAction then n.nodeType == Section && IsCompressedOrGuided(n)
    else forall i :: 0 <= i < |n.children| ==> AllDirty(n.children[i])
  }

  /** The lazy build of a ready tree is its full rebuild. */
  lemma FullRebuild(c: Codec, n: FfsNode)
    requires Ready(n)
    ensures Build(c, MarkAll(n)) == Build(c, n)
  {
    MarkAllMarks(n);
    LazyEqualsFull(c, n, MarkAll(n));
  }

  // Trees that meet the condition

  /** What the builder writes for a file has valid size and checksum fields. */
  lemma BuiltHeaderValid(header: Bytes, body: Bytes, total: nat)
    requires (|header| == 24 || |header| == 32) && total < SizeLimit(header)
    ensures FileHeaderValid(BuiltHeader(header, body, total), body, total)
  {
    hide Sum, HeaderSum, Checksum8, TestBit, Le, FromLe, Uint24, FromUint24, SetFfsSize, RecomputeChecksums;
    var s := SetFfsSize(header, total);
    var h := BuiltHeader(header, body, total);
    BuiltSize(header, body, total);
    ChecksumsValid(s, body);
    if |header| == 32 {
      SizeBytes(header, total);
      SameSuffix(h, s, 18, 24, 32);
      SizeFits(total);
      LeRoundTrip(total, 8);
      LargeHeader(h);
    }
  }

  lemma SizeFits(total: nat)
    requires total < 0x1_0000_0000
    ensures total < Pow2(8 * 8)
  {
    hide Pow2;
    Pow2Of32();
    Pow2Monotone(32, 64);
  }

  lemma LargeHeader(h: Bytes)
    requires |h| == 32 && h[20..23] == [0xFF, 0xFF, 0xFF]
    ensures IsLargeFfs(h)
  {
    assert h[20..23][0] == h[20] && h[20..23][1] == h[21] && h[20..23][2] == h[22];
  }

  function VolumeAround(header: Bytes, f: FfsNode): FfsNode {
    FfsNode(None, Volume, 0, 0, header, f.header + f.body + f.tail, [], [f], NoAction, VolumeData(0xFF))
  }

  /** An image of a volume that holds any built file meets the condition, and so
      does every tree made by marking its nodes. */
  lemma BuiltImageReady(header: Bytes, f: FfsNode, body: Bytes)
    requires |header| % 8 == 0 && f.nodeType == File && f.children == [] && f.action == NoAction
    requires (|f.header| == 24 || |f.header| == 32) && |f.header| + |body| + |f.tail| < SizeLimit(f.header)
    ensures var g := f.(header := BuiltHeader(f.header, body, |f.header| + |body| + |f.tail|), body := body);
      Ready(ImageOf([VolumeAround(header, g)]))
  {
    hide FileHeaderValid, BuiltHeader;
    BuiltHeaderValid(f.header, body, |f.header| + |body| + |f.tail|);
    var g := f.(header := BuiltHeader(f.header, body, |f.header| + |body| + |f.tail|), body := body);
    var v := VolumeAround(header, g);
    assert !SubtreeDirty(g) && AllSettled(g);
    assert LayStored([g], header, 0xFF) == header + Stored(g) by {
      AlreadyAligned(|header|);
      assert [g][1..] == [];
    }
    assert Settled(v);
    assert !SubtreeDirty(v) && AllSettled(v);
    assert Ready(v);
  }

  lemma AlreadyAligned(n: nat)
    requires n % 8 == 0
    ensures AlignUp(n, 8) == n
  {
  }
}
