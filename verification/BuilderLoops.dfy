/** The builder as it runs: every step appends to an output buffer. */
module BuilderLoops {
  import opened Results
  import opened Words
  import opened Ffs
  import opened Compress
  import opened Builder

  function Appended(out: Bytes, built: Result<Bytes, BuildError>): Result<Bytes, BuildError> {
    match built
    case Ok(b) => Ok(out + b)
    case Err(e) => Err(e)
  }

  /** Only the top of the tree is an image, capsule or root: such a node is built
      into an empty buffer. */
  ghost predicate RootsOnTop(n: FfsNode) {
    && (!IsRootLike(n) ==> forall i :: 0 <= i < |n.children| ==> !IsRootLike(n.children[i]))
    && forall i :: 0 <= i < |n.children| ==> RootsOnTop(n.children[i])
  }

  lemma AppendedToNothing(built: Result<Bytes, BuildError>)
    ensures Appended([], built) == built
  {
    if built.Ok? {
      assert [] + built.value == built.value;
    }
  }

  lemma PadShifted(out: Bytes, laid: Bytes, target: nat, fill: U8)
    ensures PadTo(out + laid, |out| + target, fill) == out + PadTo(laid, target, fill)
  {
  }

  method BuildImage(c: Codec, root: FfsNode) returns (r: Result<Bytes, BuildError>)
    requires RootsOnTop(root)
    ensures r == Build(c, root)
  {
    r := BuildNode(c, root, []);
    AppendedToNothing(Build(c, root));
  }

  method BuildNode(c: Codec, n: FfsNode, out: Bytes) returns (r: Result<Bytes, BuildError>)
    requires RootsOnTop(n) && (IsRootLike(n) ==> out == [])
    ensures r == Appended(out, Build(c, n))
    decreases n, 3
  {
    hide Build;
    match n.nodeType
    case Image | Capsule | Root =>
      r := BuildTop(c, n);
      AppendedToNothing(Build(c, n));
    case Volume => r := BuildVolume(c, n, out);
    case File => r := BuildFile(c, n, out);
    case Section => r := BuildSection(c, n, out);
    case Padding | FreeSpace | Region =>
      RawOf(c, n);
      r := Ok(out + n.body);
  }

  lemma RawOf(c: Codec, n: FfsNode)
    requires n.nodeType == Padding || n.nodeType == FreeSpace || n.nodeType == Region
    ensures Build(c, n) == Ok(n.body)
  {
  }

  /** Builds every child into its own buffer and writes the buffers at the
      children's offsets, over 0xFF. */
  method BuildTop(c: Codec, n: FfsNode) returns (r: Result<Bytes, BuildError>)
    requires RootsOnTop(n) && IsRootLike(n)
    ensures r == Build(c, n)
    decreases n, 2
  {
    hide Build, Compose, TotalSize;
    var placed: seq<Piece> := [];
    var total := 0;
    ghost var kids := n.children;
    assert kids[0..] == kids;
    PrefixedByNothing(BuildPieces(c, kids));
    TotalOfNothing();
    for i := 0 to |n.children|
      invariant total == TotalSize(placed)
      invariant BuildPieces(c, kids) == Prefixed(placed, BuildPieces(c, kids[i..]))
    {
      var child := n.children[i];
      var buf := BuildNode(c, child, []);
      assert kids[i..][0] == child && kids[i..][1..] == kids[i + 1..];
      if buf.Err? {
        TopOf(c, n);
        return buf;
      }
      AppendedToNothing(Build(c, child));
      var b := buf.value;
      PrefixedMore(placed, Piece(child.offset, b), BuildPieces(c, kids[i + 1..]));
      TotalMore(placed, Piece(child.offset, b));
      total := if total < child.offset + |b| then child.offset + |b| else total;
      placed := placed + [Piece(child.offset, b)];
    }
    assert kids[|kids|..] == [];
    assert placed + [] == placed;
    var out := WritePieces(total, placed);
    TopOf(c, n);
    return Ok(out);
  }

  function Prefixed(placed: seq<Piece>, rest: Result<seq<Piece>, BuildError>): Result<seq<Piece>, BuildError> {
    match rest
    case Ok(ps) => Ok(placed + ps)
    case Err(e) => Err(e)
  }

  lemma PrefixedByNothing(rest: Result<seq<Piece>, BuildError>)
    ensures Prefixed([], rest) == rest
  {
    if rest.Ok? {
      assert [] + rest.value == rest.value;
    }
  }

  lemma PrefixedMore(placed: seq<Piece>, p: Piece, rest: Result<seq<Piece>, BuildError>)
    ensures Prefixed(placed + [p], rest) == Prefixed(placed, Prefixed([p], rest))
  {
    if rest.Ok? {
      assert (placed + [p]) + rest.value == placed + ([p] + rest.value);
    }
  }

  lemma TotalOfNothing()
    ensures TotalSize([]) == 0
  {
  }

  lemma TotalMore(placed: seq<Piece>, p: Piece)
    ensures TotalSize(placed + [p]) == if TotalSize(placed) < p.off + |p.bytes| then p.off + |p.bytes| else TotalSize(placed)
  {
    assert (placed + [p])[..|placed|] == placed;
  }

  lemma TopOf(c: Codec, n: FfsNode)
    requires IsRootLike(n)
    ensures Build(c, n) == match BuildPieces(c, n.children) case Ok(ps) => Ok(Compose(ps)) case Err(e) => Err(e)
  {
  }

  method WritePieces(total: nat, placed: seq<Piece>) returns (out: Bytes)
    requires total == TotalSize(placed)
    ensures out == Compose(placed)
  {
    TotalSizeBounds(placed);
    out := Filled(total, 0xFF);
    assert placed[0..] == placed;
    for i := 0 to |placed|
      invariant |out| == total
      invariant Compose(placed) == Overlay(out, placed[i..])
    {
      assert placed[i..][0] == placed[i] && placed[i..][1..] == placed[i + 1..];
      out := Write(out, placed[i].off, placed[i].bytes);
    }
  }

  method BuildVolume(c: Codec, n: FfsNode, out0: Bytes) returns (r: Result<Bytes, BuildError>)
    requires RootsOnTop(n) && n.nodeType == Volume
    ensures r == Appended(out0, Build(c, n))
    decreases n, 2
  {
    if n.action == Remove {
      return Ok(out0 + []);
    }
    if n.action == NoAction {
      return Ok(out0 + Stored(n));
    }
    r := LayOutVolume(c, n, out0);
  }

  method LayOutVolume(c: Codec, n: FfsNode, out0: Bytes) returns (r: Result<Bytes, BuildError>)
    requires RootsOnTop(n) && n.nodeType == Volume && n.action != Remove && n.action != NoAction
    ensures r == Appended(out0, Build(c, n))
    decreases n, 1
  {
    hide Build, PadTo, AlignUp, FinishVolume;
    var volStart, empty, out := |out0|, EmptyByte(n), out0 + n.header;
    ghost var kids, laid := n.children, n.header;
    assert kids[0..] == kids;
    for i := 0 to |n.children|
      invariant out == out0 + laid
      invariant LayOut(c, kids, n.header, empty) == LayOut(c, kids[i..], laid, empty)
    {
      var child := n.children[i];
      assert kids[i..][0] == child && kids[i..][1..] == kids[i + 1..];
      if child.action == Remove {
        continue;
      }
      PadShifted(out0, laid, AlignUp(|laid|, 8), empty);
      out := PadTo(out, volStart + AlignUp(|out| - volStart, 8), empty);
      laid := PadTo(laid, AlignUp(|laid|, 8), empty);
      var next := BuildNode(c, child, out);
      if next.Err? {
        VolumeOf(c, n);
        return next;
      }
      out := next.value;
      laid := laid + Build(c, child).value;
    }
    assert kids[|kids|..] == [];
    VolumeOf(c, n);
    var oldTotal := volStart + |n.header| + |n.body|;
    Finished(n, out0, laid);
    if |out| > oldTotal {
      return Err(SizeMismatch);
    }
    PadShifted(out0, laid, |n.header| + |n.body|, empty);
    return Ok(PadTo(out, oldTotal, empty) + n.tail);
  }

  lemma Finished(n: FfsNode, out0: Bytes, laid: Bytes)
    ensures |laid| > |n.header| + |n.body| ==> FinishVolume(n, laid) == Err(SizeMismatch)
    ensures |laid| <= |n.header| + |n.body| ==>
              Appended(out0, FinishVolume(n, laid)) == Ok(out0 + PadTo(laid, |n.header| + |n.body|, EmptyByte(n)) + n.tail)
  {
    hide PadTo;
    var p := PadTo(laid, |n.header| + |n.body|, EmptyByte(n));
    assert out0 + (p + n.tail) == (out0 + p) + n.tail;
  }

  lemma VolumeOf(c: Codec, n: FfsNode)
    requires n.nodeType == Volume && n.action != Remove && n.action != NoAction
    ensures Build(c, n) == match LayOut(c, n.children, n.header, EmptyByte(n)) case Ok(laid) => FinishVolume(n, laid) case Err(e) => Err(e)
  {
  }

  /** The contents of a file or section: own body, or the children joined. */
  method JoinChildren(c: Codec, n: FfsNode) returns (r: Result<Bytes, BuildError>)
    requires RootsOnTop(n) && !IsRootLike(n)
    ensures r == Join(c, n.children, [])
    decreases n, 0
  {
    hide Build, PadTo;
    var body: Bytes := [];
    ghost var kids := n.children;
    assert kids[0..] == kids;
    for i := 0 to |n.children|
      invariant Join(c, kids, []) == Join(c, kids[i..], body)
    {
      assert kids[i..][0] == n.children[i] && kids[i..][1..] == kids[i + 1..];
      var next := BuildNode(c, n.children[i], body);
      if next.Err? {
        return next;
      }
      body := next.value;
      if i + 1 < |n.children| {
        body := PadTo(body, AlignUp(|body|, 4), 0);
      }
    }
    assert kids[|kids|..] == [];
    return Ok(body);
  }

  lemma FileOf(c: Codec, n: FfsNode, out: Bytes)
    requires n.nodeType == File && n.action != Remove && n.action != NoAction
    ensures BuildBody(c, n).Err? ==> Appended(out, Build(c, n)) == Err(BuildBody(c, n).error)
    ensures BuildBody(c, n).Ok? ==> Appended(out, Build(c, n)) == Appended(out, FinishFile(n, BuildBody(c, n).value))
  {
    hide FinishFile;
  }

  method BuildFile(c: Codec, n: FfsNode, out: Bytes) returns (r: Result<Bytes, BuildError>)
    requires RootsOnTop(n) && n.nodeType == File
    ensures r == Appended(out, Build(c, n))
    decreases n, 2
  {
    if n.action == Remove {
      return Ok(out + []);
    }
    if n.action == NoAction {
      return Ok(out + Stored(n));
    }
    hide Build, FinishFile, Join;
    FileOf(c, n, out);
    var body := n.body;
    if n.children != [] {
      var joined := JoinChildren(c, n);
      if joined.Err? {
        return joined;
      }
      body := joined.value;
    }
    r := CloseFile(n, body, out);
  }

  /** The file header with its size and checksums for the new body, and the rest. */
  method CloseFile(n: FfsNode, body: Bytes, out: Bytes) returns (r: Result<Bytes, BuildError>)
    ensures r == Appended(out, FinishFile(n, body))
  {
    hide SetFfsSize, RecomputeChecksums;
    if |n.header| < 23 {
      return Err(Panicked);
    }
    var header := SetFfsSize(n.header, |n.header| + |body| + |n.tail|);
    header := RecomputeChecksums(header, body);
    return Ok(out + (header + body + n.tail));
  }

  method BuildSection(c: Codec, n: FfsNode, out: Bytes) returns (r: Result<Bytes, BuildError>)
    requires RootsOnTop(n) && n.nodeType == Section
    ensures r == Appended(out, Build(c, n))
    decreases n, 2
  {
    hide RootsOnTop, SetSectionSize;
    if n.action == Remove {
      return Ok(out + []);
    }
    if IsCompressedOrGuided(n) {
      if n.action == NoAction && !SubtreeDirty(n) {
        return Ok(out + Stored(n));
      }
      if n.subtype == SECTION_GUID_DEFINED && RecompressableGuid(n) && n.children != [] {
        r := BuildRecompressedGuided(c, n, out);
        return r;
      }
      return Err(RecompressionUnsupported);
    }
    if n.action == NoAction {
      return Ok(out + Stored(n));
    }
    var body := n.body;
    if n.children != [] {
      body :- JoinChildren(c, n);
    }
    if |n.header| < 3 {
      return Err(Panicked);
    }
    return Ok(out + (SetSectionSize(n.header, |n.header| + |body|) + body));
  }

  method BuildRecompressedGuided(c: Codec, n: FfsNode, out: Bytes) returns (r: Result<Bytes, BuildError>)
    requires RootsOnTop(n) && n.nodeType == Section
    ensures r == Appended(out, BuildRecompressed(c, n))
    decreases n, 1
  {
    hide RootsOnTop, SetSectionSize, Fit;
    var prefix := PrefixLen(n);
    if prefix.None? {
      return Err(RecompressionUnsupported);
    }
    var children :- JoinChildren(c, n);
    var fit := CompressLzmaFit(c, children, Some(|n.body| - prefix.value));
    if fit.Err? {
      return Err(Compression(fit.error));
    }
    if |n.header| < 3 {
      return Err(Panicked);
    }
    var header := SetSectionSize(n.header, |n.header| + prefix.value + |fit.value|);
    return Ok(out + (header + n.body[..prefix.value] + fit.value));
  }
}
