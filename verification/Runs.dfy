/** Runs of edits: what holds after any number of them. */
module Runs {
  import opened Results
  import opened Words
  import opened Ffs
  import opened Compress
  import opened Builder
  import opened FileCodec
  import opened LazyRebuild
  import opened Locality
  import opened Ops
  import opened Edits
  import opened EditMeaning
  import opened Effects
  import opened NvarRecords
  import opened NvarEdit
  import opened NvarAgreement

  datatype Edit =
    | InsertEdit(path: Path, data: Bytes, mode: InsertMode)
    | RemoveEdit(path: Path)
    | ReplaceEdit(path: Path, data: Bytes, bodyOnly: bool)
    | RebuildEdit(path: Path)
    | SetEdit(name: string, guid: Option<string>, offset: U64, value: U64, width: nat)

  function OrKept<E>(r: Result<FfsNode, E>, root: FfsNode): FfsNode {
    if r.Ok? then r.value else root
  }

  /** One edit of a writable image; a refused one changes nothing. */
  function Apply(t: Texts, root: FfsNode, e: Edit): FfsNode {
    match e
    case InsertEdit(path, data, mode) => OrKept(InsertNode(root, path, data, mode), root)
    case RemoveEdit(path) => OrKept(RemoveNode(root, path), root)
    case ReplaceEdit(path, data, bodyOnly) => OrKept(ReplaceNode(root, path, data, bodyOnly), root)
    case RebuildEdit(path) => OrKept(RebuildNode(root, path), root)
    case SetEdit(name, guid, offset, value, width) =>
      var q := Checked(t, Writable, name, guid, offset, value, width);
      if q.Err? then root else OrKept(SetVariable(t, root, q.value, ValueBytes(value, width)), root)
  }

  function Run(t: Texts, root: FfsNode, edits: seq<Edit>): FfsNode
    decreases |edits|
  {
    if edits == [] then root else Run(t, Apply(t, root, edits[0]), edits[1..])
  }

  /** A run is one edit after the other: each leads to the tree that it gives if it is
      accepted, and to the same tree if it is refused. */
  lemma {:induction false} RunJoined(t: Texts, root: FfsNode, a: seq<Edit>, b: seq<Edit>)
    ensures Run(t, root, a + b) == Run(t, Run(t, root, a), b)
    decreases |a|
  {
    hide Apply;
    if a == [] {
      assert a + b == b;
    } else {
      assert (a + b)[0] == a[0] && (a + b)[1..] == a[1..] + b;
      RunJoined(t, Apply(t, root, a[0]), a[1..], b);
    }
  }

  lemma RunOfOne(t: Texts, root: FfsNode, path: Path, data: Bytes)
    ensures forall mode :: Run(t, root, [InsertEdit(path, data, mode)]) ==
              if InsertNode(root, path, data, mode).Ok? then InsertNode(root, path, data, mode).value else root
    ensures forall b :: Run(t, root, [ReplaceEdit(path, data, b)]) ==
              if ReplaceNode(root, path, data, b).Ok? then ReplaceNode(root, path, data, b).value else root
    ensures Run(t, root, [RemoveEdit(path)]) == if RemoveNode(root, path).Ok? then RemoveNode(root, path).value else root
    ensures Run(t, root, [RebuildEdit(path)]) == if RebuildNode(root, path).Ok? then RebuildNode(root, path).value else root
  {
    hide InsertNode, ReplaceNode, RemoveNode, RebuildNode;
    forall mode ensures Run(t, root, [InsertEdit(path, data, mode)]) == if InsertNode(root, path, data, mode).Ok? then InsertNode(root, path, data, mode).value else root {
      RunOne(t, root, InsertEdit(path, data, mode));
    }
    forall b ensures Run(t, root, [ReplaceEdit(path, data, b)]) == if ReplaceNode(root, path, data, b).Ok? then ReplaceNode(root, path, data, b).value else root {
      RunOne(t, root, ReplaceEdit(path, data, b));
    }
    RunOne(t, root, RemoveEdit(path));
    RunOne(t, root, RebuildEdit(path));
  }

  lemma RunOne(t: Texts, root: FfsNode, e: Edit)
    ensures Run(t, root, [e]) == Apply(t, root, e)
  {
    hide Apply;
    assert [e][1..] == [];
  }

  lemma RunOfSetting(t: Texts, root: FfsNode, name: string, guid: Option<string>, offset: U64, value: U64, width: nat)
    ensures var q := Checked(t, Writable, name, guid, offset, value, width);
      Run(t, root, [SetEdit(name, guid, offset, value, width)]) ==
      if q.Ok? && SetVariable(t, root, q.value, ValueBytes(value, width)).Ok? then SetVariable(t, root, q.value, ValueBytes(value, width)).value
      else root
  {
    hide SetVariable, Pow2, ValueBytes;
    RunOne(t, root, SetEdit(name, guid, offset, value, width));
  }

  // What stands without a mark is unaltered

  ghost function Subtrees(root: FfsNode): iset<FfsNode> {
    iset n: FfsNode | exists path :: NodeAt(root, path) == Some(n)
  }

  /** The file that the edit adds to the tree. */
  ghost function Added(root: FfsNode, e: Edit): iset<FfsNode> {
    if e.InsertEdit? && InsertNode(root, e.path, e.data, e.mode).Ok? then iset{Inserted(root, e.path, e.data, e.mode)} else iset{}
  }

  ghost function AddedBy(t: Texts, root: FfsNode, edits: seq<Edit>): iset<FfsNode>
    decreases |edits|
  {
    if edits == [] then iset{} else Added(root, edits[0]) + AddedBy(t, Apply(t, root, edits[0]), edits[1..])
  }

  /** A planned write and its marks keep the pool invariant, whatever the plans. */
  lemma {:induction false} PerformKeepsKnown(n: FfsNode, plans: seq<Plan>, pool: iset<FfsNode>)
    requires Known(n, pool) && PerformAll(n, plans).Ok?
    ensures Known(PerformAll(n, plans).value, pool)
    decreases |plans|
  {
    hide Write, MarkPath, SetAt, NodeAt;
    if plans != [] {
      var p := plans[0];
      if p.from != p.to {
        var node := NodeAt(n, p.path).value;
        KnownAt(n, p.path, pool);
        assert p.path + [] == p.path;
        SetAndMark(n, p.path, node.(body := Write(node.body, p.off, p.to)), [], pool);
      }
      PerformKeepsKnown(Perform(n, p).value, plans[1..], pool);
    }
  }

  lemma ApplyKeepsKnown(t: Texts, root: FfsNode, e: Edit, pool: iset<FfsNode>)
    requires Known(root, pool) && Added(root, e) <= pool
    ensures Known(Apply(t, root, e), pool)
  {
    hide InsertNode, RemoveNode, ReplaceNode, RebuildNode, PerformAll, PlansFor, CollectHits, Pow2, ValueBytes, Known, Inserted;
    match e
    case InsertEdit(path, data, mode) =>
      if InsertNode(root, path, data, mode).Ok? {
        InsertParsed(root, path, data, mode);
        InsertKeepsKnown(root, path, data, mode, pool);
      }
    case RemoveEdit(path) =>
      if RemoveNode(root, path).Ok? {
        RemoveKeepsKnown(root, path, pool);
      }
    case ReplaceEdit(path, data, bodyOnly) =>
      if ReplaceNode(root, path, data, bodyOnly).Ok? {
        ReplaceKeepsKnown(root, path, data, bodyOnly, pool);
      }
    case RebuildEdit(path) =>
      if RebuildNode(root, path).Ok? {
        RebuildKeepsKnown(root, path, pool);
      }
    case SetEdit(name, guid, offset, value, width) =>
      var q := Checked(t, Writable, name, guid, offset, value, width);
      if q.Ok? && SetVariable(t, root, q.value, ValueBytes(value, width)).Ok? {
        PerformKeepsKnown(root, PlansFor(q.value, ValueBytes(value, width), root, CollectHits(t, q.value, root, false).value.hits).value, pool);
      }
  }

  lemma InsertParsed(root: FfsNode, path: Path, data: Bytes, mode: InsertMode)
    requires InsertNode(root, path, data, mode).Ok?
    ensures ParseFile(data, 0, 0xFF, 2).Ok? && (mode != Into ==> path != [])
  {
    hide ParseFile, EnsureMutable, EnclosingEmptyByte, MarkPath;
  }

  lemma {:induction false} RunKeepsKnown(t: Texts, root: FfsNode, edits: seq<Edit>, pool: iset<FfsNode>)
    requires Known(root, pool) && AddedBy(t, root, edits) <= pool
    ensures Known(Run(t, root, edits), pool)
    decreases |edits|
  {
    hide Known, Added, Apply;
    if edits != [] {
      ApplyKeepsKnown(t, root, edits[0], pool);
      RunKeepsKnown(t, Apply(t, root, edits[0]), edits[1..], pool);
    }
  }

  lemma {:induction false} KnownToItself(root: FfsNode, n: FfsNode, path: Path)
    requires NodeAt(root, path) == Some(n)
    ensures Known(n, Subtrees(root))
    decreases n
  {
    forall i | 0 <= i < |n.children| ensures Known(n.children[i], Subtrees(root)) {
      NodeAtEnd(root, path, i);
      KnownToItself(root, n.children[i], path + [i]);
    }
  }

  /** After any run of edits, every node without an action, which the builder may
      copy from its stored bytes, is an unaltered node of the tree before the run
      or one of the inserted files. */
  lemma UnmarkedIsUnaltered(t: Texts, root: FfsNode, edits: seq<Edit>, path: Path)
    requires NodeAt(Run(t, root, edits), path).Some? && NodeAt(Run(t, root, edits), path).value.action == NoAction
    ensures var n := NodeAt(Run(t, root, edits), path).value;
      n in Subtrees(root) || n in AddedBy(t, root, edits)
  {
    hide Run, AddedBy, Subtrees;
    var pool := Subtrees(root) + AddedBy(t, root, edits);
    KnownToItself(root, root, []);
    KnownGrows(root, Subtrees(root), pool);
    RunKeepsKnown(t, root, edits, pool);
    KnownAt(Run(t, root, edits), path, pool);
  }

  lemma {:induction false} AddedAreClean(t: Texts, root: FfsNode, edits: seq<Edit>)
    ensures AddedBy(t, root, edits) <= CleanTrees()
    decreases |edits|
  {
    hide Apply, InsertNode, ParseFile, EnclosingEmptyByte;
    if edits != [] {
      var e := edits[0];
      if e.InsertEdit? && InsertNode(root, e.path, e.data, e.mode).Ok? {
        InsertParsed(root, e.path, e.data, e.mode);
        ParsedIsLeaf(e.data);
      }
      AddedAreClean(t, Apply(t, root, e), edits[1..]);
    }
  }

  /** After any run of edits on a clean tree a node is marked exactly if something
      in its subtree is: the recursive test of the builder is a look at one node. */
  lemma MarksAreVisible(t: Texts, root: FfsNode, edits: seq<Edit>, path: Path)
    requires Visible(root) && NodeAt(Run(t, root, edits), path).Some?
    ensures Visible(Run(t, root, edits))
    ensures SubtreeDirty(NodeAt(Run(t, root, edits), path).value) <==> NodeAt(Run(t, root, edits), path).value.action != NoAction
  {
    hide Run, AddedBy, SubtreeDirty;
    var r := Run(t, root, edits);
    VisibleMeaning(root);
    AddedAreClean(t, root, edits);
    RunKeepsKnown(t, root, edits, CleanTrees());
    VisibleMeaning(r);
    KnownAt(r, path, CleanTrees());
    VisibleMeaning(NodeAt(r, path).value);
    DirtyIsMarked(NodeAt(r, path).value);
  }

  /** A tree without actions is visible. */
  lemma {:induction false} CleanIsVisible(n: FfsNode)
    requires !SubtreeDirty(n)
    ensures Visible(n)
  {
    forall i | 0 <= i < |n.children| ensures Visible(n.children[i]) {
      CleanIsVisible(n.children[i]);
    }
    CleanBelow(n);
  }

  // After any run of edits the lazy build is the full rebuild

  /** Clean nodes whose stored bytes agree with their children. */
  ghost function SettledTrees(): iset<FfsNode> {
    iset n: FfsNode | !SubtreeDirty(n) && AllSettled(n)
  }

  lemma {:induction false} KnownIsReady(n: FfsNode)
    requires Known(n, SettledTrees())
    ensures Ready(n)
  {
    hide SubtreeDirty, AllSettled;
    forall i | 0 <= i < |n.children| ensures Ready(n.children[i]) {
      KnownIsReady(n.children[i]);
    }
  }

  /** From a tree whose unmarked nodes are settled, and with inserted files that
      are, any run of edits leaves a tree whose lazy build is its full rebuild. */
  lemma LazyAfterEdits(c: Codec, t: Texts, root: FfsNode, edits: seq<Edit>)
    requires Known(root, SettledTrees()) && AddedBy(t, root, edits) <= SettledTrees()
    ensures Ready(Run(t, root, edits))
    ensures Build(c, MarkAll(Run(t, root, edits))) == Build(c, Run(t, root, edits))
  {
    hide Build, Run, Known, Ready, AddedBy, SettledTrees;
    RunKeepsKnown(t, root, edits, SettledTrees());
    KnownIsReady(Run(t, root, edits));
    FullRebuild(c, Run(t, root, edits));
  }

  /** An inserted file is settled if its header is valid. */
  lemma ValidFileIsSettled(f: FfsNode)
    requires f.nodeType == File && f.children == [] && f.action == NoAction
    requires FileHeaderValid(f.header, f.body, |f.header| + |f.body| + |f.tail|)
    ensures f in SettledTrees()
  {
    hide FileHeaderValid;
  }

  // No run of guarded edits makes the builder fail for want of an algorithm

  /** All edits but insertions behind a sibling and body-only replacements. */
  predicate GuardedEditKind(e: Edit) {
    match e
    case InsertEdit(_, _, mode) => mode != After
    case ReplaceEdit(_, _, bodyOnly) => !bodyOnly
    case _ => true
  }

  /** A section that cannot be compressed again is no store, and hides those in it. */
  predicate Settable(t: Texts, n: FfsNode) {
    BlockedSection(n) ==> BlocksMutation(n) && !IsNvarBody(t, n)
  }

  function Sound(t: Texts): FfsNode -> bool {
    (n: FfsNode) => Recompressable(n) && Settable(t, n)
  }

  lemma SoundIsStable(t: Texts)
    ensures Stable(Sound(t))
  {
    hide ParseEntry, PrefixLen;
    forall x, y | Sound(t)(x) && Alike(x, y) ensures Sound(t)(y) {
      assert PrefixLen(y) == PrefixLen(x) by { SamePrefixLen(x, y); }
    }
  }

  lemma SamePrefixLen(x: FfsNode, y: FfsNode)
    requires x.body == y.body
    ensures PrefixLen(y) == PrefixLen(x)
  {
  }

  ghost predicate Buildable(t: Texts, root: FfsNode) {
    Guarded(root, false) && !Untouchable(root, false) && Everywhere(root, Sound(t))
  }

  lemma RootKept(root: FfsNode, at: Path, x: FfsNode, path: Path)
    requires NodeAt(root, at).Some? && !Untouchable(root, false) && (at == [] ==> !Untouchable(x, false))
    ensures !Untouchable(MarkPath(SetAt(root, at, x), path), false)
  {
  }

  lemma ApplyKeepsBuildable(t: Texts, root: FfsNode, e: Edit)
    requires Buildable(t, root) && GuardedEditKind(e)
    ensures Buildable(t, Apply(t, root, e))
  {
    hide Guarded, Everywhere, EnsureMutable, ParseFile, EnclosingEmptyByte, MarkPath, SetAt, Sound, Stable, SetVariable, Pow2, ValueBytes;
    SoundIsStable(t);
    match e
    case InsertEdit(path, data, mode) =>
      if InsertNode(root, path, data, mode).Ok? {
        InsertKeepsGuarded(root, path, data, mode, false);
        InsertKeepsEverywhere(root, path, data, mode, Sound(t));
        InsertKeepsRoot(root, path, data, mode);
      }
    case RemoveEdit(path) =>
      if RemoveNode(root, path).Ok? {
        RemoveKeepsGuarded(root, path, false);
        RemoveKeepsEverywhere(root, path, Sound(t));
        RootKept(root, path, NodeAt(root, path).value.(action := Remove), path);
      }
    case ReplaceEdit(path, data, _) =>
      if ReplaceNode(root, path, data, false).Ok? {
        ReplaceKeepsGuarded(root, path, data, false, false);
        ReplaceKeepsEverywhere(root, path, data, Sound(t));
        ParsedIsLeaf(data);
        RootKept(root, path, WithContents(NodeAt(root, path).value, ParseFile(data, 0, 0xFF, 2).value), path);
      }
    case RebuildEdit(path) =>
      if RebuildNode(root, path).Ok? {
        RebuildKeepsGuarded(root, path, false);
        RebuildKeepsEverywhere(root, path, Sound(t));
        RootKept(root, path, NodeAt(root, path).value.(action := Rebuild), path);
      }
    case SetEdit(name, guid, offset, value, width) =>
      var q := Checked(t, Writable, name, guid, offset, value, width);
      if q.Ok? && SetVariable(t, root, q.value, ValueBytes(value, width)).Ok? {
        SetKeepsBuildable(t, root, q.value, ValueBytes(value, width));
      }
  }

  /** The way to a live store is free. */
  lemma {:induction false} LiveIsFree(t: Texts, n: FfsNode, path: Path)
    requires LiveStore(t, n, path) && Everywhere(n, Sound(t))
    ensures FreeLeaf(n, path)
    decreases |path|
  {
    hide ParseEntry, Recompressable;
    if path != [] {
      StoreIsThere(t, n.children[path[0]], path[1..], BlocksMutation(n), false);
      LiveIsFree(t, n.children[path[0]], path[1..]);
    }
  }

  lemma {:induction false} PerformKeepsBuildable(t: Texts, n: FfsNode, plans: seq<Plan>)
    requires Buildable(t, n) && PerformAll(n, plans).Ok? && forall k :: 0 <= k < |plans| ==> FreeLeaf(n, plans[k].path)
    ensures Buildable(t, PerformAll(n, plans).value)
    decreases |plans|
  {
    hide Write, MarkPath, SetAt, NodeAt, FreeLeaf, Guarded, Everywhere, Sound, Stable, Untouchable;
    if plans != [] {
      var p := plans[0];
      var m := Perform(n, p).value;
      if p.from != p.to {
        FreeLeafFacts(n, p.path);
        var x := NodeAt(n, p.path).value;
        var body := Write(x.body, p.off, p.to);
        WriteKeepsGuarded(n, p.path, body);
        EverywhereAt(n, p.path, Sound(t));
        assert Sound(t)(x.(body := body)) by { SoundLeaf(t, x, body); }
        SoundIsStable(t);
        WriteKeepsEverywhere(n, p.path, body, Sound(t));
        forall k | 0 <= k < |plans| ensures FreeLeaf(m, plans[k].path) {
          WriteKeepsFree(n, p.path, body, plans[k].path);
        }
      }
      PerformKeepsBuildable(t, m, plans[1..]);
    }
  }

  lemma SoundLeaf(t: Texts, n: FfsNode, body: Bytes)
    requires Everywhere(n, Sound(t)) && n.children == [] && !BlockedSection(n)
    ensures Sound(t)(n.(body := body))
  {
    hide ParseEntry, PrefixLen;
  }

  lemma SetKeepsBuildable(t: Texts, root: FfsNode, q: Query, to: Bytes)
    requires Buildable(t, root) && SetVariable(t, root, q, to).Ok?
    ensures Buildable(t, SetVariable(t, root, q, to).value)
  {
    hide PerformAll, CollectHits, PlansFor, PlanFor, Guarded, Everywhere, Sound, Untouchable, FreeLeaf, StoreHit, LiveStore;
    var hits := CollectHits(t, q, root, false).value.hits;
    var plans := PlansFor(q, to, root, hits).value;
    forall k | 0 <= k < |plans| ensures FreeLeaf(root, plans[k].path) {
      PlansMeaning(q, to, root, hits, plans[k]);
      var h :| h in hits && PlanFor(q, to, root, h) == Ok(plans[k]);
      PlanAtHit(q, to, root, h);
      HitsAreLive(t, q, root, h);
      LiveIsFree(t, root, h.path);
    }
    PerformKeepsBuildable(t, root, plans);
  }

  lemma PlanAtHit(q: Query, to: Bytes, n: FfsNode, h: VarHit)
    requires PlanFor(q, to, n, h).Ok?
    ensures PlanFor(q, to, n, h).value.path == h.path
  {
  }

  lemma InsertKeepsRoot(root: FfsNode, path: Path, data: Bytes, mode: InsertMode)
    requires InsertNode(root, path, data, mode).Ok? && !Untouchable(root, false)
    ensures !Untouchable(InsertNode(root, path, data, mode).value, false)
  {
    hide EnsureMutable, ParseFile, EnclosingEmptyByte;
  }

  lemma {:induction false} RunKeepsBuildable(t: Texts, root: FfsNode, edits: seq<Edit>)
    requires Buildable(t, root) && forall i :: 0 <= i < |edits| ==> GuardedEditKind(edits[i])
    ensures Buildable(t, Run(t, root, edits))
    decreases |edits|
  {
    hide Buildable, Apply;
    if edits != [] {
      ApplyKeepsBuildable(t, root, edits[0]);
      RunKeepsBuildable(t, Apply(t, root, edits[0]), edits[1..]);
    }
  }

  lemma {:induction false} SoundIsRecompressable(t: Texts, n: FfsNode)
    requires Everywhere(n, Sound(t))
    ensures Everywhere(n, Recompressable)
  {
    hide Recompressable, Settable;
    forall i | 0 <= i < |n.children| ensures Everywhere(n.children[i], Recompressable) {
      SoundIsRecompressable(t, n.children[i]);
    }
  }

  /** From a visible tree in which nothing that cannot be compressed again is dirty
      or a store, no run of such edits brings the builder to such a section. */
  lemma GuardedRunBuilds(c: Codec, t: Texts, root: FfsNode, edits: seq<Edit>)
    requires Visible(root) && Buildable(t, root) && forall i :: 0 <= i < |edits| ==> GuardedEditKind(edits[i])
    ensures Build(c, Run(t, root, edits)) != Err(RecompressionUnsupported)
  {
    hide Visible, Run, Build;
    MarksAreVisible(t, root, edits, []);
    RunKeepsBuildable(t, root, edits);
    SoundIsRecompressable(t, Run(t, root, edits));
    GuardedBuilds(c, Run(t, root, edits));
  }

  /** An image of one store, with the variable set. */
  lemma SetInOnlyChild(t: Texts, q: Query, to: Bytes, n: FfsNode, at: nat)
    requires IsNvarBody(t, n) && n.action == NoAction && Widths(q, to) && |n.body| < 0x8000_0000_0000_0000
    requires StoreHit(t, q, n.body) == Ok(Some(at)) && Target(q, at) + |to| <= |n.body|
    requires n.body[Target(q, at)..Target(q, at) + |to|] != to
    ensures SetVariable(t, ImageOf([n]), q, to) ==
            Ok(ImageOf([n.(body := Write(n.body, Target(q, at), to), action := Rebuild)]).(action := Rebuild))
  {
    hide ParseEntry, StoreHit, SetVariable, Write, Target, CollectHits;
    var root := ImageOf([n]);
    SetVariableMeaning(t, root, q, to);
    assert [0][1..] == [] && NodeAt(root, [0]) == Some(n);
    assert LiveStore(t, root, [0]);
    assert HitAt(t, q, root, VarHit([0], at));
    forall path, e ensures !FailsAt(t, q, root, path, e) {
      if FailsAt(t, q, root, path, e) {
        assert path != [] && path[0] == 0;
        if path[1..] != [] {
          StoreIsThere(t, n, path[1..], false, false);
        }
      }
    }
    assert Changes(t, q, to, n);
    assert root.children[0] == n;
    assert Changes(t, q, to, root);
    assert SetAll(t, q, to, root).children == [SetAll(t, q, to, n)];
  }

  /** Without the condition on stores the failure can be reached: the image builds;
      setting the variable in a store that is itself a compressed section succeeds;
      then the image does not build any more. */
  lemma PackedStoreFails(c: Codec, t: Texts)
    ensures var root, q := ImageOf([PackedSection(ONE_RECORD)]), Query(t.utf8([0x41]), None, 0, 1);
      && Build(c, root).Ok? && SetVariable(t, root, q, [0xAA]).Ok?
      && Build(c, SetVariable(t, root, q, [0xAA]).value) == Err(RecompressionUnsupported)
  {
    hide ParseEntry, FindVar, SetVariable, Build, Compose;
    var n := PackedSection(ONE_RECORD);
    var q := Query(t.utf8([0x41]), None, 0, 1);
    OneRecordParsed(t);
    SingleRecord(t, ONE_RECORD, q);
    assert Target(q, 13) == 13;
    assert ONE_RECORD[13..14] == [0x55];
    assert ONE_RECORD[13..14][0] != [0xAA][0];
    SetInOnlyChild(t, q, [0xAA], n, 13);
    OneChild(c, ImageOf([n]), n);
    CleanBuild(c, n);
    var m := n.(body := Write(ONE_RECORD, 13, [0xAA]), action := Rebuild);
    OneChild(c, ImageOf([m]).(action := Rebuild), m);
    PackedFails(c, m);
  }

  lemma PackedFails(c: Codec, n: FfsNode)
    requires n.nodeType == Section && n.subtype == SECTION_COMPRESSION && n.action == Rebuild
    ensures Build(c, n) == Err(RecompressionUnsupported)
  {
  }

  // Runs inside some volumes

  /** The edit works below these children of the root; one that sets a variable
      would change no live store in the others. */
  ghost predicate Inside(t: Texts, root: FfsNode, e: Edit, vs: set<nat>) {
    match e
    case InsertEdit(path, _, mode) => |path| >= (if mode == Into then 1 else 2) && path[0] in vs
    case SetEdit(name, guid, offset, value, width) =>
      var q := Checked(t, Writable, name, guid, offset, value, width);
      q.Ok? ==> ChangesOnly(t, q.value, ValueBytes(value, width), root, vs)
    case _ => |e.path| >= 2 && e.path[0] in vs
  }

  ghost predicate ChangesOnly(t: Texts, q: Query, to: Bytes, root: FfsNode, vs: set<nat>) {
    forall j :: 0 <= j < |root.children| && j !in vs ==> !Changes(t, q, to, root.children[j])
  }

  /** These children of the root are volumes and not removed. */
  ghost predicate AreVolumes(root: FfsNode, vs: set<nat>) {
    forall i :: 0 <= i < |root.children| && i in vs ==> root.children[i].nodeType == Volume && root.children[i].action != Remove
  }

  /** A write that has an effect is below one of these children of the root. */
  ghost predicate EffectsBelow(plans: seq<Plan>, vs: set<nat>) {
    forall k :: 0 <= k < |plans| && plans[k].from != plans[k].to ==> |plans[k].path| >= 2 && plans[k].path[0] in vs
  }

  lemma {:induction false} PerformIsBelow(n: FfsNode, plans: seq<Plan>, vs: set<nat>)
    requires EffectsBelow(plans, vs) && PerformAll(n, plans).Ok?
    ensures OnlyBelow(n, PerformAll(n, plans).value, vs)
    decreases |plans|
  {
    hide Write, MarkPath, SetAt, NodeAt, OnlyBelow;
    SameIsBelow(n, vs);
    if plans != [] {
      var p := plans[0];
      var m := Perform(n, p).value;
      if p.from != p.to {
        var x := NodeAt(n, p.path).value;
        SetMarkOnlyBelow(n, p.path, x.(body := Write(x.body, p.off, p.to)), p.path, vs);
      }
      PerformIsBelow(m, plans[1..], vs);
      OnlyBelowTransitive(n, m, PerformAll(n, plans).value, vs);
    }
  }

  lemma SameIsBelow(n: FfsNode, vs: set<nat>)
    ensures OnlyBelow(n, n, vs)
  {
  }

  /** A planned write that has an effect changes the live store that it goes to. */
  lemma EffectChanges(t: Texts, q: Query, to: Bytes, n: FfsNode, h: VarHit)
    requires Widths(q, to) && HitAt(t, q, n, h) && PlanFor(q, to, n, h).Ok?
    requires PlanFor(q, to, n, h).value.from != PlanFor(q, to, n, h).value.to
    ensures StoreChanges(t, q, to, NodeAt(n, h.path).value.body)
  {
    hide StoreHit, LiveStore, FindVar;
    WrapsOnce(Plus64(h.dataOff, q.offset), q.width);
  }

  /** A subtree changes exactly if a live store in it does. */
  lemma {:induction false} ChangesMeaning(t: Texts, q: Query, to: Bytes, n: FfsNode)
    ensures Changes(t, q, to, n) <==> exists path :: LiveChange(t, q, to, n, path)
  {
    hide ParseEntry, StoreChanges;
    if IsNvarBody(t, n) && Changes(t, q, to, n) {
      assert LiveChange(t, q, to, n, []);
    } else if Changes(t, q, to, n) {
      var i :| 0 <= i < |n.children| && Changes(t, q, to, n.children[i]);
      ChangesMeaning(t, q, to, n.children[i]);
      var path :| LiveChange(t, q, to, n.children[i], path);
      LiveBelow(t, n, i, path);
      assert LiveChange(t, q, to, n, [i] + path);
    }
    if path :| LiveChange(t, q, to, n, path) {
      if !Changes(t, q, to, n) {
        UnchangedStore(t, q, to, n, path);
        assert false;
      }
    }
  }

  /** The path leads to a live store that the edit changes. */
  predicate LiveChange(t: Texts, q: Query, to: Bytes, n: FfsNode, path: Path) {
    LiveStore(t, n, path) && NodeAt(n, path).Some? && StoreChanges(t, q, to, NodeAt(n, path).value.body)
  }

  lemma LiveChangeBelow(t: Texts, q: Query, to: Bytes, root: FfsNode, path: Path, vs: set<nat>)
    requires IsRootLike(root) && AreVolumes(root, vs) && ChangesOnly(t, q, to, root, vs) && LiveChange(t, q, to, root, path)
    ensures |path| >= 2 && path[0] in vs
  {
    hide ParseEntry, StoreChanges, Changes;
    assert path != [] && path[0] < |root.children|;
    assert path == [path[0]] + path[1..];
    LiveBelow(t, root, path[0], path[1..]);
    assert LiveChange(t, q, to, root.children[path[0]], path[1..]);
    ChangesMeaning(t, q, to, root.children[path[0]]);
  }

  lemma SetIsBelow(t: Texts, root: FfsNode, q: Query, to: Bytes, vs: set<nat>)
    requires SetVariable(t, root, q, to).Ok? && Widths(q, to)
    requires IsRootLike(root) && AreVolumes(root, vs) && ChangesOnly(t, q, to, root, vs)
    ensures OnlyBelow(root, SetVariable(t, root, q, to).value, vs)
  {
    hide PerformAll, CollectHits, PlansFor, PlanFor, StoreHit, LiveStore, StoreChanges, Changes, AreVolumes, ChangesOnly, OnlyBelow;
    var hits := CollectHits(t, q, root, false).value.hits;
    var plans := PlansFor(q, to, root, hits).value;
    forall k | 0 <= k < |plans| && plans[k].from != plans[k].to ensures |plans[k].path| >= 2 && plans[k].path[0] in vs {
      PlansMeaning(q, to, root, hits, plans[k]);
      var h :| h in hits && PlanFor(q, to, root, h) == Ok(plans[k]);
      PlanAtHit(q, to, root, h);
      HitsAreLive(t, q, root, h);
      EffectChanges(t, q, to, root, h);
      LiveChangeBelow(t, q, to, root, h.path, vs);
    }
    PerformIsBelow(root, plans, vs);
  }

  lemma ApplyIsBelow(t: Texts, root: FfsNode, e: Edit, vs: set<nat>)
    requires IsRootLike(root) && AreVolumes(root, vs) && Inside(t, root, e, vs)
    ensures OnlyBelow(root, Apply(t, root, e), vs)
  {
    hide InsertNode, RemoveNode, ReplaceNode, RebuildNode, SetVariable, OnlyBelow, AreVolumes, ChangesOnly, Pow2;
    SameIsBelow(root, vs);
    match e
    case InsertEdit(path, data, mode) =>
      if InsertNode(root, path, data, mode).Ok? {
        InsertIsBelow(root, path, data, mode, vs);
      }
    case RemoveEdit(path) =>
      if RemoveNode(root, path).Ok? {
        RemoveIsBelow(root, path, vs);
      }
    case ReplaceEdit(path, data, bodyOnly) =>
      if ReplaceNode(root, path, data, bodyOnly).Ok? {
        ReplaceIsBelow(root, path, data, bodyOnly, vs);
      }
    case RebuildEdit(path) =>
      if RebuildNode(root, path).Ok? {
        RebuildIsBelow(root, path, vs);
      }
    case SetEdit(name, guid, offset, value, width) =>
      var q := Checked(t, Writable, name, guid, offset, value, width);
      if q.Ok? && SetVariable(t, root, q.value, ValueBytes(value, width)).Ok? {
        SetIsBelow(t, root, q.value, ValueBytes(value, width), vs);
      }
  }

  ghost predicate AllInside(t: Texts, root: FfsNode, edits: seq<Edit>, vs: set<nat>) {
    forall k :: 0 <= k < |edits| ==> Inside(t, root, edits[k], vs)
  }

  /** An edit inside some volumes leaves the conditions as they are. */
  lemma StillInside(t: Texts, root: FfsNode, root': FfsNode, edits: seq<Edit>, vs: set<nat>)
    requires IsRootLike(root) && AreVolumes(root, vs) && AllInside(t, root, edits, vs) && OnlyBelow(root, root', vs)
    ensures IsRootLike(root') && AreVolumes(root', vs) && AllInside(t, root', edits, vs)
  {
    hide Changes, Checked, ValueBytes;
    forall k | 0 <= k < |edits| ensures Inside(t, root', edits[k], vs) {
      assert Inside(t, root, edits[k], vs);
    }
  }

  lemma {:induction false} RunIsBelow(t: Texts, root: FfsNode, edits: seq<Edit>, vs: set<nat>)
    requires IsRootLike(root) && AreVolumes(root, vs) && AllInside(t, root, edits, vs)
    ensures OnlyBelow(root, Run(t, root, edits), vs)
    decreases |edits|
  {
    hide Apply, OnlyBelow, AreVolumes, Inside;
    SameIsBelow(root, vs);
    if edits != [] {
      ApplyIsBelow(t, root, edits[0], vs);
      StillInside(t, root, Apply(t, root, edits[0]), edits[1..], vs);
      RunIsBelow(t, Apply(t, root, edits[0]), edits[1..], vs);
      OnlyBelowTransitive(root, Apply(t, root, edits[0]), Run(t, root, edits), vs);
    }
  }

  /** Whatever run of edits works inside some volumes: the image, if it still builds,
      has its size and every byte outside these volumes as before. */
  lemma RunIsLocal(c: Codec, t: Texts, root: FfsNode, edits: seq<Edit>, vs: set<nat>)
    requires IsRootLike(root) && AreVolumes(root, vs) && AllInside(t, root, edits, vs)
    requires Build(c, root).Ok? && Build(c, Run(t, root, edits)).Ok?
    ensures var b, b' := Build(c, root).value, Build(c, Run(t, root, edits)).value;
      |b'| == |b| && forall k :: 0 <= k < |b| && !InVolumes(root, vs, k) ==> b'[k] == b[k]
  {
    hide Build, Run, AllInside, OnlyBelow, InVolumes;
    RunIsBelow(t, root, edits, vs);
    BelowIsLocal(c, root, Run(t, root, edits), vs);
  }

  /** The children of the root with a live store that the edit changes. */
  function ChangingChildren(t: Texts, q: Query, to: Bytes, root: FfsNode): set<nat> {
    set j: nat | j < |root.children| && Changes(t, q, to, root.children[j])
  }

  /** Setting a variable changes no byte of the image outside the volumes on top of
      the tree that hold a live store that it changes. */
  lemma SetIsLocal(c: Codec, t: Texts, root: FfsNode, q: Query, to: Bytes)
    requires IsRootLike(root) && Widths(q, to) && SetVariable(t, root, q, to).Ok?
    requires AreVolumes(root, ChangingChildren(t, q, to, root))
    requires Build(c, root).Ok? && Build(c, SetVariable(t, root, q, to).value).Ok?
    ensures var b, b' := Build(c, root).value, Build(c, SetVariable(t, root, q, to).value).value;
      && |b'| == |b|
      && forall k :: 0 <= k < |b| && b'[k] != b[k] ==>
           exists i, path :: 0 <= i < |root.children| && LiveChange(t, q, to, root.children[i], path) && InRange(root.children[i], k)
  {
    hide Build, SetVariable, OnlyBelow, Changes, InRange, LiveChange;
    var vs := ChangingChildren(t, q, to, root);
    SetIsBelow(t, root, q, to, vs);
    BelowIsLocal(c, root, SetVariable(t, root, q, to).value, vs);
    var b, b' := Build(c, root).value, Build(c, SetVariable(t, root, q, to).value).value;
    forall k | 0 <= k < |b| && b'[k] != b[k]
      ensures exists i, path :: 0 <= i < |root.children| && LiveChange(t, q, to, root.children[i], path) && InRange(root.children[i], k)
    {
      assert InVolumes(root, vs, k);
      var i :| 0 <= i < |root.children| && i in vs && InRange(root.children[i], k);
      ChangesMeaning(t, q, to, root.children[i]);
    }
  }
}
