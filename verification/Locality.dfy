/** A volume keeps its size whatever is edited in it, lays its files out in
    order, and shields the rest of the image from the edit. */
module Locality {
  import opened Results
  import opened Words
  import opened Ffs
  import opened Compress
  import opened Builder

  /** The bytes that a volume occupies in the image. */
  function VolumeSize(n: FfsNode): nat {
    |n.header| + |n.body| + |n.tail|
  }

  /** `ps` are the builds of the children that are not removed, in order. */
  ghost predicate KeptPieces(c: Codec, children: seq<FfsNode>, ps: seq<Piece>)
    decreases |children|
  {
    if children == [] then ps == []
    else if children[0].action == Remove then KeptPieces(c, children[1..], ps)
    else ps != [] && Build(c, children[0]) == Ok(ps[0].bytes) && KeptPieces(c, children[1..], ps[1..])
  }

  /** From `start` to `end` the bytes `b` are exactly the pieces, each at the next
      multiple of `align`, and `empty` everywhere else. */
  ghost predicate LaidAs(b: Bytes, start: nat, ps: seq<Piece>, end: nat, empty: U8, align: nat)
    requires align > 0
    decreases |ps|
  {
    && start <= end <= |b|
    && if ps == [] then forall k :: start <= k < end ==> b[k] == empty
       else
         var p := ps[0];
         && start <= p.off < start + align && p.off % align == 0 && p.off + |p.bytes| <= end
         && (forall k :: start <= k < p.off ==> b[k] == empty)
         && b[p.off..p.off + |p.bytes|] == p.bytes
         && LaidAs(b, p.off + |p.bytes|, ps[1..], end, empty, align)
  }

  lemma {:induction false} LaidExtends(b: Bytes, start: nat, ps: seq<Piece>, end: nat, empty: U8, align: nat, b': Bytes)
    requires align > 0 && LaidAs(b, start, ps, end, empty, align) && b <= b'
    ensures LaidAs(b', start, ps, end, empty, align)
    decreases |ps|
  {
    if ps != [] {
      var p := ps[0];
      LaidExtends(b, p.off + |p.bytes|, ps[1..], end, empty, align, b');
      assert b'[p.off..p.off + |p.bytes|] == b[p.off..p.off + |p.bytes|];
    }
  }

  /** Filling up with the empty byte extends the layout. */
  lemma {:induction false} LaidFilled(b: Bytes, start: nat, ps: seq<Piece>, end: nat, empty: U8, align: nat, end': nat)
    requires align > 0 && LaidAs(b, start, ps, end, empty, align) && end <= end' <= |b|
    requires forall k :: end <= k < end' ==> b[k] == empty
    ensures LaidAs(b, start, ps, end', empty, align)
    decreases |ps|
  {
    if ps != [] {
      LaidFilled(b, ps[0].off + |ps[0].bytes|, ps[1..], end, empty, align, end');
    }
  }

  lemma NothingLaid(b: Bytes, empty: U8, align: nat)
    requires align > 0
    ensures LaidAs(b, |b|, [], |b|, empty, align)
  {
  }

  /** A padded piece in front of what is laid out behind it. */
  lemma PieceInFront(r: Bytes, out: Bytes, off: nat, b: Bytes, rest: seq<Piece>, empty: U8, align: nat)
    requires align > 0 && |out| <= off < |out| + align && off % align == 0
    requires PadTo(out, off, empty) + b <= r && LaidAs(r, off + |b|, rest, |r|, empty, align)
    ensures out <= r && LaidAs(r, |out|, [Piece(off, b)] + rest, |r|, empty, align)
  {
    var padded, ps := PadTo(out, off, empty), [Piece(off, b)] + rest;
    assert ps[1..] == rest;
    assert |padded| == off && padded <= r;
    assert r[off..off + |b|] == b by {
      forall i | 0 <= i < |b| ensures r[off + i] == b[i] {
        assert (padded + b)[off + i] == b[i];
      }
    }
    forall k | |out| <= k < off ensures r[k] == empty {
      assert padded[k] == empty;
    }
  }

  lemma {:induction false} LayOutLaid(c: Codec, children: seq<FfsNode>, out: Bytes, empty: U8) returns (ps: seq<Piece>)
    requires LayOut(c, children, out, empty).Ok?
    ensures var r := LayOut(c, children, out, empty).value;
      out <= r && KeptPieces(c, children, ps) && LaidAs(r, |out|, ps, |r|, empty, 8)
    decreases |children|
  {
    hide Build, LaidAs, PadTo, AlignUp;
    if children == [] {
      ps := [];
      NothingLaid(out, empty, 8);
    } else if children[0].action == Remove {
      ps := LayOutLaid(c, children[1..], out, empty);
    } else {
      var b, off := Build(c, children[0]).value, AlignUp(|out|, 8);
      var padded := PadTo(out, off, empty);
      var r := LayOut(c, children, out, empty).value;
      var rest := LayOutLaid(c, children[1..], padded + b, empty);
      ps := [Piece(off, b)] + rest;
      assert ps[1..] == rest;
      PieceInFront(r, out, off, b, rest, empty, 8);
    }
  }

  /** A volume that is not removed builds to its old size or not at all. */
  lemma VolumeKeepsSize(c: Codec, n: FfsNode)
    requires n.nodeType == Volume && n.action != Remove && Build(c, n).Ok?
    ensures |Build(c, n).value| == VolumeSize(n)
  {
  }

  lemma VolumeBytes(c: Codec, n: FfsNode)
    requires n.nodeType == Volume && n.action != Remove && n.action != NoAction && Build(c, n).Ok?
    ensures var laid := LayOut(c, n.children, n.header, EmptyByte(n));
      laid.Ok? && |laid.value| <= |n.header| + |n.body|
      && Build(c, n).value == PadTo(laid.value, |n.header| + |n.body|, EmptyByte(n)) + n.tail
  {
    hide LayOut, PadTo;
  }

  /** However dirty it is, a volume builds to its header, the kept children in
      order at multiples of 8 with the empty byte in all gaps, and its tail. */
  lemma VolumeLayout(c: Codec, n: FfsNode) returns (ps: seq<Piece>)
    requires n.nodeType == Volume && n.action != Remove && n.action != NoAction && Build(c, n).Ok?
    ensures var b := Build(c, n).value;
      && |b| == VolumeSize(n) && n.header <= b && b[|n.header| + |n.body|..] == n.tail
      && KeptPieces(c, n.children, ps)
      && LaidAs(b, |n.header|, ps, |n.header| + |n.body|, if n.parsingData.VolumeData? then n.parsingData.emptyByte else 0xFF, 8)
  {
    hide Build, LayOut, AlignUp, KeptPieces;
    VolumeBytes(c, n);
    var e, end := EmptyByte(n), |n.header| + |n.body|;
    ps := LayOutLaid(c, n.children, n.header, e);
    var laid := LayOut(c, n.children, n.header, e).value;
    var padded := PadTo(laid, end, e);
    var b := Build(c, n).value;
    assert b == padded + n.tail;
    LaidExtends(laid, |n.header|, ps, |laid|, e, 8, b);
    LaidFilled(b, |n.header|, ps, |laid|, e, 8, end);
  }

  // Contents of files and sections

  /** `ps` are the builds of all children, in order. */
  ghost predicate BuiltPieces(c: Codec, children: seq<FfsNode>, ps: seq<Piece>) {
    |ps| == |children| && forall i :: 0 <= i < |ps| ==> Build(c, children[i]) == Ok(ps[i].bytes)
  }

  /** Joined children stand in order at multiples of 4, with zeros between them
      and nothing behind the last. */
  lemma {:induction false} JoinLaid(c: Codec, children: seq<FfsNode>, out: Bytes) returns (ps: seq<Piece>)
    requires Join(c, children, out).Ok? && |out| % 4 == 0
    ensures var r := Join(c, children, out).value;
      && out <= r && BuiltPieces(c, children, ps) && LaidAs(r, |out|, ps, |r|, 0, 4)
      && (ps != [] ==> |r| == ps[|ps| - 1].off + |ps[|ps| - 1].bytes|)
    decreases |children|
  {
    hide Build, AlignUp, LaidAs, PadTo;
    var r := Join(c, children, out).value;
    if children == [] {
      ps := [];
      NothingLaid(out, 0, 4);
    } else {
      var b := Build(c, children[0]).value;
      NoPadding(out, 0);
      if |children| == 1 {
        assert children[1..] == [];
        ps := [Piece(|out|, b)] + [];
        NothingLaid(r, 0, 4);
        PieceInFront(r, out, |out|, b, [], 0, 4);
      } else {
        var padded := PadTo(out + b, AlignUp(|out + b|, 4), 0);
        var rest := JoinLaid(c, children[1..], padded);
        ps := [Piece(|out|, b)] + rest;
        forall i | 0 <= i < |ps| ensures Build(c, children[i]) == Ok(ps[i].bytes) {
          if i > 0 {
            assert children[i] == children[1..][i - 1];
          }
        }
        forall k | |out + b| <= k < |padded| ensures r[k] == 0 {
          assert padded[k] == 0;
        }
        LaidBefore(r, |out| + |b|, rest, |r|, 0, 4, |padded|);
        PieceInFront(r, out, |out|, b, rest, 0, 4);
      }
    }
  }

  lemma NoPadding(out: Bytes, fill: U8)
    ensures PadTo(out, |out|, fill) == out
  {
  }

  /** Less than one unit of filling in front of a laid-out part belongs to it. */
  lemma LaidBefore(b: Bytes, start: nat, ps: seq<Piece>, end: nat, empty: U8, align: nat, start': nat)
    requires align > 0 && LaidAs(b, start', ps, end, empty, align) && ps != []
    requires start <= start' < start + align && start' % align == 0
    requires forall k :: start <= k < start' ==> b[k] == empty
    ensures LaidAs(b, start, ps, end, empty, align)
  {
    NoRoom(start', ps[0].off, align);
  }

  lemma NoRoom(a: nat, b: nat, align: nat)
    requires align > 0 && a % align == 0 && b % align == 0 && a <= b < a + align
    ensures a == b
  {
    var p, q := a / align, b / align;
    assert a == align * p && b == align * q;
    Distribute(p, 1, align);
    if p < q {
      MulMonotone(p + 1, q, align);
    } else {
      MulMonotone(q, p, align);
    }
  }

  // Pieces of an image

  predicate Covers(p: Piece, k: int) {
    p.off <= k < p.off + |p.bytes|
  }

  /** Two piece lists of equal places and lengths. */
  ghost predicate SamePlaces(ps: seq<Piece>, qs: seq<Piece>) {
    |ps| == |qs| && forall j :: 0 <= j < |ps| ==> ps[j].off == qs[j].off && |ps[j].bytes| == |qs[j].bytes|
  }

  lemma {:induction false} TotalSizeSame(ps: seq<Piece>, qs: seq<Piece>)
    requires SamePlaces(ps, qs)
    ensures TotalSize(ps) == TotalSize(qs)
    decreases |ps|
  {
    if ps != [] {
      TotalSizeSame(ps[..|ps| - 1], qs[..|qs| - 1]);
    }
  }

  /** Where only equal pieces cover a position, it gets the same byte. */
  lemma {:induction false} OverlayAgree(a: Bytes, b: Bytes, ps: seq<Piece>, qs: seq<Piece>, k: nat)
    requires SamePlaces(ps, qs) && |a| == |b| && k < |a| && a[k] == b[k]
    requires forall j :: 0 <= j < |ps| && Covers(ps[j], k) ==> ps[j] == qs[j]
    requires forall j :: 0 <= j < |ps| ==> ps[j].off + |ps[j].bytes| <= |a|
    ensures Overlay(a, ps)[k] == Overlay(b, qs)[k]
    decreases |ps|
  {
    if ps != [] {
      OverlayAgree(Write(a, ps[0].off, ps[0].bytes), Write(b, qs[0].off, qs[0].bytes), ps[1..], qs[1..], k);
    }
  }

  /** No later piece covers position `k`. */
  lemma {:induction false} OverlayUncovered(a: Bytes, ps: seq<Piece>, k: nat)
    requires k < |a| && forall j :: 0 <= j < |ps| ==> ps[j].off + |ps[j].bytes| <= |a| && !Covers(ps[j], k)
    ensures Overlay(a, ps)[k] == a[k]
    decreases |ps|
  {
    if ps != [] {
      OverlayUncovered(Write(a, ps[0].off, ps[0].bytes), ps[1..], k);
    }
  }

  lemma {:induction false} OverlayInside(a: Bytes, ps: seq<Piece>, i: nat, k: nat)
    requires i < |ps| && k < |a| && Covers(ps[i], k)
    requires forall j :: 0 <= j < |ps| ==> ps[j].off + |ps[j].bytes| <= |a|
    requires forall j :: i < j < |ps| ==> !Covers(ps[j], k)
    ensures Overlay(a, ps)[k] == ps[i].bytes[k - ps[i].off]
    decreases i
  {
    var w := Write(a, ps[0].off, ps[0].bytes);
    if i == 0 {
      OverlayUncovered(w, ps[1..], k);
    } else {
      OverlayInside(w, ps[1..], i - 1, k);
    }
  }

  lemma {:induction false} PiecesAt(c: Codec, children: seq<FfsNode>, i: nat)
    requires BuildPieces(c, children).Ok? && i < |children|
    ensures var ps := BuildPieces(c, children).value;
      |ps| == |children| && ps[i].off == children[i].offset && Build(c, children[i]) == Ok(ps[i].bytes)
    decreases |children|
  {
    hide Build;
    if i > 0 {
      PiecesAt(c, children[1..], i - 1);
    } else if |children| > 1 {
      PiecesAt(c, children[1..], 0);
    }
  }

  /** `root'` differs from `root` only in what is below some of its children, all
      of them volumes. */
  ghost predicate EditedBelow(root: FfsNode, root': FfsNode, vs: set<nat>) {
    && IsRootLike(root) && IsRootLike(root') && |root'.children| == |root.children|
    && (forall i :: 0 <= i < |root.children| && i !in vs ==> root'.children[i] == root.children[i])
    && forall i :: 0 <= i < |root.children| && i in vs ==> SameVolume(root.children[i], root'.children[i])
  }

  predicate SameVolume(v: FfsNode, v': FfsNode) {
    && v.nodeType == Volume && v'.nodeType == Volume && v.action != Remove && v'.action != Remove
    && v'.offset == v.offset && v'.header == v.header && v'.body == v.body && v'.tail == v.tail
  }

  /** The position lies in the range of one of these volumes. */
  ghost predicate InVolumes(root: FfsNode, vs: set<nat>, k: int) {
    exists i :: 0 <= i < |root.children| && i in vs && InRange(root.children[i], k)
  }

  predicate InRange(v: FfsNode, k: int) {
    v.offset <= k < v.offset + VolumeSize(v)
  }

  /** Edits inside some volumes change no byte of the image outside them, and not
      the image size; where no other child overlaps such a volume, its range holds
      exactly its own build. */
  lemma EditLocality(c: Codec, root: FfsNode, root': FfsNode, vs: set<nat>)
    requires EditedBelow(root, root', vs) && Build(c, root).Ok? && Build(c, root').Ok?
    ensures var b, b' := Build(c, root).value, Build(c, root').value;
      && |b'| == |b|
      && (forall k :: 0 <= k < |b| && !InVolumes(root, vs, k) ==> b'[k] == b[k])
      && forall i :: 0 <= i < |root.children| && i in vs ==> KeptRange(c, root, root', i)
  {
    hide Build, Compose, InRange, InVolumes, KeptRange, BuildPieces, Covers;
    AllPieces(c, root);
    AllPieces(c, root');
    var ps, qs := BuildPieces(c, root.children).value, BuildPieces(c, root'.children).value;
    EditedPieces(c, root, root', vs, ps, qs);
    forall k | 0 <= k < |Compose(ps)| && !InVolumes(root, vs, k) ensures Compose(qs)[k] == Compose(ps)[k] {
      forall j | 0 <= j < |ps| && Covers(ps[j], k) ensures ps[j] == qs[j] {
        if j in vs {
          CoversRange(c, root, ps, vs, j, k);
        } else {
          UneditedPiece(c, root, root', vs, ps, qs, j);
        }
      }
      ComposeAgree(ps, qs, k);
    }
    forall i | 0 <= i < |root.children| && i in vs ensures KeptRange(c, root, root', i) {
      RangeKept(c, root, root', vs, i);
    }
  }

  /** The range of child `i` is in the image, and no other child being in it, is its build. */
  ghost predicate KeptRange(c: Codec, root: FfsNode, root': FfsNode, i: nat)
    requires i < |root.children| == |root'.children|
  {
    var b', v, v' := Build(c, root'), root.children[i], Build(c, root'.children[i]);
    && b'.Ok? && v'.Ok? && v.offset + VolumeSize(v) <= |b'.value|
    && ((forall j :: 0 <= j < |root.children| && j != i && Build(c, root'.children[j]).Ok? ==>
           var w, size := root'.children[j], |Build(c, root'.children[j]).value|;
           w.offset + size <= v.offset || v.offset + VolumeSize(v) <= w.offset) ==>
        b'.value[v.offset..v.offset + VolumeSize(v)] == v'.value)
  }

  lemma EditedPieces(c: Codec, root: FfsNode, root': FfsNode, vs: set<nat>, ps: seq<Piece>, qs: seq<Piece>)
    requires EditedBelow(root, root', vs) && |ps| == |qs| == |root.children|
    requires forall j :: 0 <= j < |ps| ==> ps[j].off == root.children[j].offset && Build(c, root.children[j]) == Ok(ps[j].bytes)
    requires forall j :: 0 <= j < |qs| ==> qs[j].off == root'.children[j].offset && Build(c, root'.children[j]) == Ok(qs[j].bytes)
    ensures SamePlaces(ps, qs) && |Compose(ps)| == |Compose(qs)| && |root'.children| == |root.children|
  {
    hide Build, Compose;
    forall j | 0 <= j < |ps| ensures ps[j].off == qs[j].off && |ps[j].bytes| == |qs[j].bytes| {
      if j in vs {
        VolumeKeepsSize(c, root.children[j]);
        VolumeKeepsSize(c, root'.children[j]);
      }
    }
    TotalSizeSame(ps, qs);
  }

  lemma CoversRange(c: Codec, root: FfsNode, ps: seq<Piece>, vs: set<nat>, j: nat, k: nat)
    requires j < |root.children| == |ps| && j in vs && root.children[j].nodeType == Volume && root.children[j].action != Remove
    requires ps[j].off == root.children[j].offset && Build(c, root.children[j]) == Ok(ps[j].bytes) && Covers(ps[j], k)
    ensures InVolumes(root, vs, k)
  {
    hide Build;
    VolumeKeepsSize(c, root.children[j]);
    assert InRange(root.children[j], k);
  }

  lemma ComposeAgree(ps: seq<Piece>, qs: seq<Piece>, k: nat)
    requires SamePlaces(ps, qs) && k < |Compose(ps)|
    requires forall j :: 0 <= j < |ps| && Covers(ps[j], k) ==> ps[j] == qs[j]
    ensures k < |Compose(qs)| && Compose(qs)[k] == Compose(ps)[k]
  {
    hide Overlay, TotalSize;
    TotalSizeSame(ps, qs);
    TotalSizeBounds(ps);
    TotalSizeBounds(qs);
    OverlayAgree(Filled(TotalSize(ps), 0xFF), Filled(TotalSize(ps), 0xFF), ps, qs, k);
  }

  lemma AllPieces(c: Codec, root: FfsNode)
    requires IsRootLike(root) && Build(c, root).Ok?
    ensures BuildPieces(c, root.children).Ok?
    ensures var ps := BuildPieces(c, root.children).value;
      && Build(c, root) == Ok(Compose(ps)) && |ps| == |root.children|
      && forall j :: 0 <= j < |ps| ==> ps[j].off == root.children[j].offset && Build(c, root.children[j]) == Ok(ps[j].bytes)
  {
    hide Compose;
    var ps := BuildPieces(c, root.children).value;
    if root.children != [] {
      PiecesAt(c, root.children, 0);
    }
    forall j | 0 <= j < |ps| ensures ps[j].off == root.children[j].offset && Build(c, root.children[j]) == Ok(ps[j].bytes) {
      PiecesAt(c, root.children, j);
    }
  }

  /** Where no other piece overlaps, the image has the piece. */
  lemma ComposeHolds(qs: seq<Piece>, i: nat)
    requires i < |qs|
    ensures qs[i].off + |qs[i].bytes| <= |Compose(qs)|
    ensures (forall j :: 0 <= j < |qs| && j != i ==> qs[j].off + |qs[j].bytes| <= qs[i].off || qs[i].off + |qs[i].bytes| <= qs[j].off)
        ==> Compose(qs)[qs[i].off..qs[i].off + |qs[i].bytes|] == qs[i].bytes
  {
    hide Overlay, TotalSize;
    TotalSizeBounds(qs);
    var a := Filled(TotalSize(qs), 0xFF);
    if forall j :: 0 <= j < |qs| && j != i ==> qs[j].off + |qs[j].bytes| <= qs[i].off || qs[i].off + |qs[i].bytes| <= qs[j].off {
      forall k | qs[i].off <= k < qs[i].off + |qs[i].bytes|
        ensures Compose(qs)[k] == qs[i].bytes[k - qs[i].off]
      {
        OverlayInside(a, qs, i, k);
      }
    }
  }

  lemma RangeKept(c: Codec, root: FfsNode, root': FfsNode, vs: set<nat>, i: nat)
    requires EditedBelow(root, root', vs) && i < |root.children| == |root'.children| && i in vs && Build(c, root').Ok?
    ensures KeptRange(c, root, root', i)
  {
    hide Build, Compose;
    AllPieces(c, root');
    var qs := BuildPieces(c, root'.children).value;
    VolumeKeepsSize(c, root'.children[i]);
    ComposeHolds(qs, i);
  }

  lemma UneditedPiece(c: Codec, root: FfsNode, root': FfsNode, vs: set<nat>, ps: seq<Piece>, qs: seq<Piece>, j: nat)
    requires EditedBelow(root, root', vs) && |ps| == |qs| == |root.children| && j < |ps| && j !in vs
    requires ps[j].off == root.children[j].offset && Build(c, root.children[j]) == Ok(ps[j].bytes)
    requires qs[j].off == root'.children[j].offset && Build(c, root'.children[j]) == Ok(qs[j].bytes)
    ensures ps[j] == qs[j]
  {
    hide Build;
  }

  /** Recompressing a guided section keeps its header and body length exactly if
      some candidate of the sweep fits into the old payload. */
  lemma GuidedKeepsSize(c: Codec, n: FfsNode)
    requires BuildRecompressed(c, n).Ok?
    ensures PrefixLen(n).Some? && Join(c, n.children, []).Ok?
    ensures var budget, input := |n.body| - PrefixLen(n).value, Join(c, n.children, []).value;
      (|BuildRecompressed(c, n).value| == |n.header| + |n.body|) <==> (exists k :: 0 <= k < GRID && Fits(c, input, budget, k))
  {
    hide Join, Fit, SetSectionSize, Fits;
    var budget, input := |n.body| - PrefixLen(n).value, Join(c, n.children, []).value;
    FitMeaning(c, input, Some(budget));
  }
}
