/** Rebuilding an image from its tree: clean nodes are copied from their stored
    bytes, dirty ones are laid out again from their children. */
module Builder {
  import opened Results
  import opened Words
  import opened Ffs
  import opened Compress

  datatype BuildError =
    | SizeMismatch
    | RecompressionUnsupported
    | Compression(e: CompressError)
    | Panicked // a header too short for its size field

  // Alignment

  function AlignUp(offset: nat, align: nat): (r: nat)
    requires align > 0
    ensures offset <= r < offset + align && r % align == 0
  {
    AlignFacts(offset, align);
    (offset + align - 1) / align * align
  }

  lemma AlignFacts(offset: nat, align: nat)
    requires align > 0
    ensures var r := (offset + align - 1) / align * align;
      offset <= r < offset + align && r % align == 0
  {
    var q := (offset + align - 1) / align;
    DivInterval(offset + align - 1, align, q);
    DivUnique(q * align, align, q, 0);
  }

  function Filled(n: nat, fill: U8): (r: Bytes)
    ensures |r| == n && forall i :: 0 <= i < n ==> r[i] == fill
  {
    seq(n, _ => fill)
  }

  function PadTo(buf: Bytes, target: nat, fill: U8): (r: Bytes)
    ensures |r| == (if |buf| < target then target else |buf|) && buf <= r
    ensures forall i :: |buf| <= i < |r| ==> r[i] == fill
  {
    if |buf| < target then buf + Filled(target - |buf|, fill) else buf
  }

  // Building

  predicate IsRootLike(n: FfsNode) {
    n.nodeType == Image || n.nodeType == Capsule || n.nodeType == Root
  }

  function ImageOf(children: seq<FfsNode>): FfsNode {
    FfsNode(None, Image, 0, 0, [], [], [], children, NoAction, Nothing)
  }

  /** The bytes that a clean node is copied from. */
  function Stored(n: FfsNode): Bytes {
    if n.nodeType == Volume || n.nodeType == File || n.nodeType == Section then n.header + n.body + n.tail
    else n.body
  }

  function EmptyByte(n: FfsNode): U8 {
    if n.parsingData.VolumeData? then n.parsingData.emptyByte else 0xFF
  }

  datatype Piece = Piece(off: nat, bytes: Bytes)

  function TotalSize(placed: seq<Piece>): nat {
    if placed == [] then 0
    else
      var last := placed[|placed| - 1];
      var before := TotalSize(placed[..|placed| - 1]);
      if before < last.off + |last.bytes| then last.off + |last.bytes| else before
  }

  /** `out` with the pieces written over it in order. */
  function Overlay(out: Bytes, placed: seq<Piece>): (r: Bytes)
    requires forall i :: 0 <= i < |placed| ==> placed[i].off + |placed[i].bytes| <= |out|
    ensures |r| == |out|
    decreases |placed|
  {
    if placed == [] then out
    else Overlay(Write(out, placed[0].off, placed[0].bytes), placed[1..])
  }

  lemma {:induction false} TotalSizeBounds(placed: seq<Piece>)
    ensures forall i :: 0 <= i < |placed| ==> placed[i].off + |placed[i].bytes| <= TotalSize(placed)
    decreases |placed|
  {
    if placed != [] {
      TotalSizeBounds(placed[..|placed| - 1]);
    }
  }

  function Compose(placed: seq<Piece>): (r: Bytes)
    ensures |r| == TotalSize(placed)
  {
    TotalSizeBounds(placed);
    Overlay(Filled(TotalSize(placed), 0xFF), placed)
  }

  function Build(c: Codec, n: FfsNode): Result<Bytes, BuildError>
    decreases n, 2
  {
    match n.nodeType
    case Image | Capsule | Root =>
      var placed :- BuildPieces(c, n.children);
      Ok(Compose(placed))
    case Volume =>
      if n.action == Remove then Ok([])
      else if n.action == NoAction then Ok(Stored(n))
      else
        var laid :- LayOut(c, n.children, n.header, EmptyByte(n));
        FinishVolume(n, laid)
    case File =>
      if n.action == Remove then Ok([])
      else if n.action == NoAction then Ok(Stored(n))
      else
        var body :- BuildBody(c, n);
        FinishFile(n, body)
    case Section =>
      if n.action == Remove then Ok([])
      else if IsCompressedOrGuided(n) then
        if n.action == NoAction && !SubtreeDirty(n) then Ok(Stored(n))
        else if n.subtype == SECTION_GUID_DEFINED && RecompressableGuid(n) && n.children != [] then
          BuildRecompressed(c, n)
        else Err(RecompressionUnsupported)
      else if n.action == NoAction then Ok(Stored(n))
      else
        var body :- BuildBody(c, n);
        FinishSection(n, body)
    case Padding | FreeSpace | Region => Ok(n.body)
  }

  function BuildPieces(c: Codec, children: seq<FfsNode>): Result<seq<Piece>, BuildError>
    decreases children, 0
  {
    if children == [] then Ok([])
    else
      var b :- Build(c, children[0]);
      var rest :- BuildPieces(c, children[1..]);
      Ok([Piece(children[0].offset, b)] + rest)
  }

  /** Volume contents: kept children at multiples of 8 from the volume start. */
  function LayOut(c: Codec, children: seq<FfsNode>, out: Bytes, empty: U8): Result<Bytes, BuildError>
    decreases children, 0
  {
    if children == [] then Ok(out)
    else if children[0].action == Remove then LayOut(c, children[1..], out, empty)
    else
      var b :- Build(c, children[0]);
      LayOut(c, children[1..], PadTo(out, AlignUp(|out|, 8), empty) + b, empty)
  }

  /** File and section contents: children at multiples of 4, none after the last. */
  function Join(c: Codec, children: seq<FfsNode>, out: Bytes): Result<Bytes, BuildError>
    decreases children, 0
  {
    if children == [] then Ok(out)
    else
      var b :- Build(c, children[0]);
      Join(c, children[1..], if |children| > 1 then PadTo(out + b, AlignUp(|out + b|, 4), 0) else out + b)
  }

  function BuildBody(c: Codec, n: FfsNode): Result<Bytes, BuildError>
    decreases n, 1
  {
    if n.children == [] then Ok(n.body) else Join(c, n.children, [])
  }

  function FinishVolume(n: FfsNode, laid: Bytes): Result<Bytes, BuildError> {
    if |laid| > |n.header| + |n.body| then Err(SizeMismatch)
    else Ok(PadTo(laid, |n.header| + |n.body|, EmptyByte(n)) + n.tail)
  }

  function FinishFile(n: FfsNode, body: Bytes): Result<Bytes, BuildError> {
    if |n.header| < 23 then Err(Panicked)
    else
      var header := SetFfsSize(n.header, |n.header| + |body| + |n.tail|);
      Ok(RecomputeChecksums(header, body) + body + n.tail)
  }

  function FinishSection(n: FfsNode, body: Bytes): Result<Bytes, BuildError> {
    if |n.header| < 3 then Err(Panicked)
    else Ok(SetSectionSize(n.header, |n.header| + |body|) + body)
  }

  /** Length of the uncompressed front part of a guided section's body. */
  function PrefixLen(n: FfsNode): Option<nat> {
    if |n.body| < 18 then None
    else
      var dataOffset: int := n.body[16] as int + 0x100 * (n.body[17] as int);
      if 20 <= dataOffset - 4 <= |n.body| then Some(dataOffset - 4) else None
  }

  function BuildRecompressed(c: Codec, n: FfsNode): Result<Bytes, BuildError>
    decreases n, 1
  {
    match PrefixLen(n)
    case None => Err(RecompressionUnsupported)
    case Some(prefix) =>
      var children :- Join(c, n.children, []);
      match Fit(c, children, Some(|n.body| - prefix))
      case Err(e) => Err(Compression(e))
      case Ok(stream) =>
        if |n.header| < 3 then Err(Panicked)
        else Ok(SetSectionSize(n.header, |n.header| + prefix + |stream|) + n.body[..prefix] + stream)
  }
}
