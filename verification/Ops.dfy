/** Edits of the firmware tree. Paths are lists of child indices from the root. */
module Ops {
  import opened Results
  import opened Words
  import opened Ffs
  import opened FileCodec

  datatype OpsError =
    | NotFound
    | InvalidParent
    | InvalidFfs
    | MutationBehindCompression
    | ImmutableRegion
    | PanicOutOfBounds // inserting behind a sibling that does not exist

  datatype InsertMode = Into | Before | After

  type Path = seq<nat>

  /** A section whose contents cannot be compressed again. */
  predicate BlockedSection(n: FfsNode) {
    n.nodeType == Section &&
    (n.subtype == SECTION_COMPRESSION || (n.subtype == SECTION_GUID_DEFINED && !RecompressableGuid(n)))
  }

  function NodeAt(n: FfsNode, path: Path): Option<FfsNode>
    decreases |path|
  {
    if path == [] then Some(n)
    else if path[0] >= |n.children| then None
    else NodeAt(n.children[path[0]], path[1..])
  }

  function SetAt(n: FfsNode, path: Path, x: FfsNode): FfsNode
    requires NodeAt(n, path).Some?
    decreases |path|
  {
    if path == [] then x
    else n.(children := n.children[path[0] := SetAt(n.children[path[0]], path[1..], x)])
  }

  function Touched(a: Action): Action {
    if a == NoAction then Rebuild else a
  }

  /** The root and every node along the path marked for rebuilding, as far as
      the path leads. */
  function MarkPath(n: FfsNode, path: Path): FfsNode
    decreases |path|
  {
    var marked := n.(action := Touched(n.action));
    if path == [] || path[0] >= |n.children| then marked
    else marked.(children := n.children[path[0] := MarkPath(n.children[path[0]], path[1..])])
  }

  /** No region on the path, and no blocked section among its first `checked` nodes. */
  function EnsureMutable(n: FfsNode, path: Path, checked: nat): Result<(), OpsError>
    decreases |path|
  {
    if path == [] || path[0] >= |n.children| then Ok(())
    else
      var child := n.children[path[0]];
      if child.nodeType == Region then Err(ImmutableRegion)
      else if checked > 0 && BlockedSection(child) then Err(MutationBehindCompression)
      else EnsureMutable(child, path[1..], if checked > 0 then checked - 1 else 0)
  }

  /** The empty byte of the innermost volume on the path. */
  function EnclosingEmptyByte(n: FfsNode, path: Path): Option<U8>
    decreases |path|
  {
    var own := if n.parsingData.VolumeData? then Some(n.parsingData.emptyByte) else None;
    if path == [] then own
    else if path[0] >= |n.children| then None
    else
      var inner := EnclosingEmptyByte(n.children[path[0]], path[1..]);
      if inner.Some? then inner else if NodeAt(n, path).None? then None else own
  }

  /** A parsed file, its state byte adapted to a volume whose free space is 0xFF. */
  function Adapted(root: FfsNode, volPath: Path, file: FfsNode): FfsNode {
    if EnclosingEmptyByte(root, volPath) == Some(0xFF) && |file.header| > 23 && file.header[23] == 0x07
    then file.(header := file.header[23 := 0xF8])
    else file
  }

  function InsertNode(root: FfsNode, path: Path, data: Bytes, mode: InsertMode): Result<FfsNode, OpsError> {
    match ParseFile(data, 0, 0xFF, 2)
    case Err(_) => Err(InvalidFfs)
    case Ok(file) =>
      if mode == Into then
        var _ :- EnsureMutable(root, path, |path|);
        match NodeAt(root, path)
        case None => Err(NotFound)
        case Some(parent) =>
          var x := parent.(children := parent.children + [Adapted(root, path, file)]);
          Ok(MarkPath(SetAt(root, path, x), path))
      else if path == [] then Err(InvalidParent)
      else
        var up, idx := path[..|path| - 1], path[|path| - 1];
        var _ :- EnsureMutable(root, path, |path| - 1);
        match NodeAt(root, up)
        case None => Err(NotFound)
        case Some(parent) =>
          var at := if mode == Before then idx else idx + 1;
          if idx > |parent.children| then Err(InvalidParent)
          else if at > |parent.children| then Err(PanicOutOfBounds)
          else
            var x := parent.(children := parent.children[..at] + [Adapted(root, up, file)] + parent.children[at..]);
            Ok(MarkPath(SetAt(root, up, x), path))
  }

  function RemoveNode(root: FfsNode, path: Path): Result<FfsNode, OpsError> {
    match NodeAt(root, path)
    case None => Err(NotFound)
    case Some(node) =>
      var _ :- EnsureMutable(root, path, |path|);
      Ok(MarkPath(SetAt(root, path, node.(action := Remove)), path))
  }

  /** The node with the given body and nothing below it. */
  function WithBody(node: FfsNode, data: Bytes): FfsNode {
    node.(children := [], body := data, action := Replace)
  }

  /** The node with the contents of the parsed file. */
  function WithContents(node: FfsNode, file: FfsNode): FfsNode {
    node.(header := file.header, body := file.body, tail := file.tail, children := file.children,
          guid := file.guid, nodeType := file.nodeType, subtype := file.subtype,
          parsingData := file.parsingData, action := Replace)
  }

  function ReplaceNode(root: FfsNode, path: Path, data: Bytes, bodyOnly: bool): Result<FfsNode, OpsError> {
    match NodeAt(root, path)
    case None => Err(NotFound)
    case Some(node) =>
      var _ :- EnsureMutable(root, path, |path|);
      if bodyOnly then
        Ok(MarkPath(SetAt(root, path, WithBody(node, data)), path))
      else
        match ParseFile(data, 0, 0xFF, 2)
        case Err(_) => Err(InvalidFfs)
        case Ok(file) => Ok(MarkPath(SetAt(root, path, WithContents(node, file)), path))
  }

  function RebuildNode(root: FfsNode, path: Path): Result<FfsNode, OpsError> {
    match NodeAt(root, path)
    case None => Err(NotFound)
    case Some(node) =>
      var _ :- EnsureMutable(root, path, |path|);
      if node.action == Remove then Ok(root)
      else Ok(MarkPath(SetAt(root, path, node.(action := Rebuild)), path))
  }

  // The operations on the image held in memory

  datatype ImageMode = ReadOnly | Writable

  class ImageState {
    var root: FfsNode
    var mode: ImageMode

    constructor (root: FfsNode, mode: ImageMode)
      ensures this.root == root && this.mode == mode
    {
      this.root, this.mode := root, mode;
    }

    /** Walks the path and stops at the first missing child. */
    method CheckMutable(path: Path, includeTarget: bool) returns (r: Result<(), OpsError>)
      ensures r == EnsureMutable(root, path, if includeTarget || path == [] then |path| else |path| - 1)
    {
      var n := if includeTarget || path == [] then |path| else |path| - 1;
      var node := root;
      var depth := 0;
      while depth < |path|
        invariant depth <= |path|
        invariant EnsureMutable(root, path, n) == EnsureMutable(node, path[depth..], if n > depth then n - depth else 0)
      {
        var i := path[depth];
        if i >= |node.children| {
          break;
        }
        var child := node.children[i];
        if child.nodeType == Region {
          return Err(ImmutableRegion);
        }
        if depth < n && BlockedSection(child) {
          return Err(MutationBehindCompression);
        }
        assert path[depth..][1..] == path[depth + 1..];
        node := child;
        depth := depth + 1;
      }
      return Ok(());
    }

    method Insert(path: Path, data: Bytes, mode: InsertMode) returns (r: Result<(), OpsError>)
      modifies `root
      ensures InsertNode(old(root), path, data, mode).Ok? ==> r.Ok? && root == InsertNode(old(root), path, data, mode).value
      ensures InsertNode(old(root), path, data, mode).Err? ==>
                r == Err(InsertNode(old(root), path, data, mode).error) && root == old(root)
    {
      var parsed := ParseFile(data, 0, 0xFF, 2);
      if parsed.Err? {
        return Err(InvalidFfs);
      }
      if mode != Into && path == [] {
        return Err(InvalidParent);
      }
      var _ :- CheckMutable(path, mode == Into);
      var volPath := if mode == Into then path else path[..|path| - 1];
      var parent := NodeAt(root, volPath);
      if parent.None? {
        return Err(NotFound);
      }
      var file := Adapted(root, volPath, parsed.value);
      var kids := parent.value.children;
      if mode == Into {
        kids := kids + [file];
      } else {
        var idx := path[|path| - 1];
        if idx > |kids| {
          return Err(InvalidParent);
        }
        var at := if mode == Before then idx else idx + 1;
        if at > |kids| {
          return Err(PanicOutOfBounds);
        }
        kids := kids[..at] + [file] + kids[at..];
      }
      root := MarkPath(SetAt(root, volPath, parent.value.(children := kids)), path);
      return Ok(());
    }

    method Remove(path: Path) returns (r: Result<(), OpsError>)
      modifies `root
      ensures RemoveNode(old(root), path).Ok? ==> r.Ok? && root == RemoveNode(old(root), path).value
      ensures RemoveNode(old(root), path).Err? ==> r == Err(RemoveNode(old(root), path).error) && root == old(root)
    {
      var node := NodeAt(root, path);
      if node.None? {
        return Err(NotFound);
      }
      var _ :- CheckMutable(path, true);
      root := MarkPath(SetAt(root, path, node.value.(action := Action.Remove)), path);
      return Ok(());
    }

    method Replace(path: Path, data: Bytes, bodyOnly: bool) returns (r: Result<(), OpsError>)
      modifies `root
      ensures ReplaceNode(old(root), path, data, bodyOnly).Ok? ==> r.Ok? && root == ReplaceNode(old(root), path, data, bodyOnly).value
      ensures ReplaceNode(old(root), path, data, bodyOnly).Err? ==>
                r == Err(ReplaceNode(old(root), path, data, bodyOnly).error) && root == old(root)
    {
      var node := NodeAt(root, path);
      if node.None? {
        return Err(NotFound);
      }
      var _ :- CheckMutable(path, true);
      var x := node.value;
      if bodyOnly {
        x := WithBody(x, data);
      } else {
        var parsed := ParseFile(data, 0, 0xFF, 2);
        if parsed.Err? {
          return Err(InvalidFfs);
        }
        x := WithContents(x, parsed.value);
      }
      root := MarkPath(SetAt(root, path, x), path);
      return Ok(());
    }

    method Rebuild(path: Path) returns (r: Result<(), OpsError>)
      modifies `root
      ensures RebuildNode(old(root), path).Ok? ==> r.Ok? && root == RebuildNode(old(root), path).value
      ensures RebuildNode(old(root), path).Err? ==> r == Err(RebuildNode(old(root), path).error) && root == old(root)
    {
      var node := NodeAt(root, path);
      if node.None? {
        return Err(NotFound);
      }
      var _ :- CheckMutable(path, true);
      if node.value.action == Action.Remove {
        return Ok(());
      }
      root := MarkPath(SetAt(root, path, node.value.(action := Action.Rebuild)), path);
      return Ok(());
    }
  }
}
