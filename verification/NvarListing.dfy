/** The stores that listings and edits see: all stores in front of the barriers. */
module NvarListing {
  import opened Ffs
  import opened Ops
  import opened NvarRecords
  import opened NvarReader
  import opened NvarEdit
  import opened NvarAgreement

  function Under(path: Path, paths: seq<Path>): seq<Path> {
    seq(|paths|, k requires 0 <= k < |paths| => path + paths[k])
  }

  function CollectStores(t: Texts, n: FfsNode, barrier: bool): seq<Path>
    decreases n, 1
  {
    if IsNvarBody(t, n) then if barrier then [] else [[]]
    else CollectStoresOf(t, n.children, 0, barrier || BlocksMutation(n))
  }

  function CollectStoresOf(t: Texts, kids: seq<FfsNode>, i: nat, barrier: bool): seq<Path>
    decreases kids, 0
  {
    if kids == [] then []
    else Under([i], CollectStores(t, kids[0], barrier)) + CollectStoresOf(t, kids[1..], i + 1, barrier)
  }

  lemma UnderMeaning(i: nat, paths: seq<Path>, p: Path)
    ensures p in Under([i], paths) <==> p != [] && p[0] == i && p[1..] in paths
  {
    if p in Under([i], paths) {
      var k :| 0 <= k < |paths| && Under([i], paths)[k] == p;
      assert p[1..] == paths[k];
    }
    if p != [] && p[0] == i && p[1..] in paths {
      var k :| 0 <= k < |paths| && paths[k] == p[1..];
      assert [i] + p[1..] == p && Under([i], paths)[k] == p;
    }
  }

  /** The search finds exactly the stores that no barrier hides. */
  lemma {:induction false} StoresMeaning(t: Texts, n: FfsNode, barrier: bool, p: Path)
    ensures p in CollectStores(t, n, barrier) <==> StoreUnder(t, n, p, barrier, false)
    decreases n, 1
  {
    hide ParseEntry;
    if IsNvarBody(t, n) {
      assert n.children == [];
    } else {
      assert n.children[0..] == n.children;
      KidStoresMeaning(t, n, 0, barrier || BlocksMutation(n), p);
    }
  }

  lemma {:induction false} KidStoresMeaning(t: Texts, n: FfsNode, k: nat, barrier: bool, p: Path)
    requires k <= |n.children|
    ensures p in CollectStoresOf(t, n.children[k..], k, barrier) <==>
            p != [] && k <= p[0] < |n.children| && StoreUnder(t, n.children[p[0]], p[1..], barrier, false)
    decreases n, 0, |n.children| - k
  {
    hide ParseEntry, CollectStores, StoreUnder;
    if k < |n.children| {
      var kid := n.children[k];
      assert n.children[k..][0] == kid && n.children[k..][1..] == n.children[k + 1..];
      KidStoresMeaning(t, n, k + 1, barrier, p);
      UnderMeaning(k, CollectStores(t, kid, barrier), p);
      if p != [] && p[0] == k {
        StoresMeaning(t, kid, barrier, p[1..]);
      }
    }
  }

  /** A section that is compressed or guided, but not under the GUID of an algorithm
      that the builder has. */
  ghost predicate IsBarrier(n: FfsNode) {
    && n.nodeType == Section && (n.subtype == 1 || n.subtype == 2)
    && (n.parsingData.GuidedData? ==> !IsRecompressableLzmaGuid(n.parsingData.guid))
  }

  /** A file or section without children whose body starts with a record. */
  ghost predicate IsStore(t: Texts, n: FfsNode) {
    (n.nodeType == File || n.nodeType == Section) && |n.children| == 0 && ParseEntry(t, n.body, 0).Some?
  }

  /** There is a node after the first `k` steps, and it is a barrier. */
  ghost predicate BarrierAfter(n: FfsNode, p: Path, k: nat)
    requires k <= |p|
  {
    NodeAt(n, p[..k]).Some? && IsBarrier(NodeAt(n, p[..k]).value)
  }

  lemma BarrierBelow(n: FfsNode, p: Path, k: nat)
    requires 1 <= k <= |p| && p[0] < |n.children|
    ensures BarrierAfter(n, p, k) <==> BarrierAfter(n.children[p[0]], p[1..], k - 1)
  {
    assert p[..k][1..] == p[1..][..k - 1];
  }

  /** A path is listed exactly if it leads to a store and to no barrier before. */
  lemma {:induction false} ListingMeaning(t: Texts, n: FfsNode, p: Path)
    ensures LiveStore(t, n, p) <==>
            NodeAt(n, p).Some? && IsStore(t, NodeAt(n, p).value) && forall k :: 0 <= k < |p| ==> !BarrierAfter(n, p, k)
    decreases |p|
  {
    hide ParseEntry, IsBarrier;
    if p != [] {
      BarrierIs(n, p);
      if p[0] < |n.children| {
        var kid := n.children[p[0]];
        ListingMeaning(t, kid, p[1..]);
        if forall k :: 0 <= k < |p| ==> !BarrierAfter(n, p, k) {
          assert !BarrierAfter(n, p, 0);
          forall k | 0 <= k < |p[1..]| ensures !BarrierAfter(kid, p[1..], k) {
            BarrierBelow(n, p, k + 1);
            assert !BarrierAfter(n, p, k + 1);
          }
        }
        if LiveStore(t, n, p) {
          StoreIsThere(t, kid, p[1..], BlocksMutation(n), false);
          forall k | 0 <= k < |p| ensures !BarrierAfter(n, p, k) {
            if k > 0 {
              BarrierBelow(n, p, k);
              assert !BarrierAfter(kid, p[1..], k - 1);
            }
          }
        }
      }
    }
  }

  lemma BarrierIs(n: FfsNode, p: Path)
    ensures BlocksMutation(n) <==> IsBarrier(n)
    ensures BarrierAfter(n, p, 0) <==> IsBarrier(n)
  {
    assert p[..0] == [];
  }

  /** A variable is only ever edited in stores that the listing shows. */
  lemma HitsAreListed(t: Texts, q: Query, root: FfsNode, h: VarHit)
    requires CollectHits(t, q, root, false).Ok? && h in CollectHits(t, q, root, false).value.hits
    ensures h.path in CollectStores(t, root, false)
  {
    hide CollectHits, CollectStores, StoreUnder;
    HitsAreLive(t, q, root, h);
    StoresMeaning(t, root, false, h.path);
  }

  /** The first difference decides. */
  predicate Earlier(p: Path, q: Path)
    decreases |p|
  {
    p != [] && q != [] && (p[0] < q[0] || (p[0] == q[0] && Earlier(p[1..], q[1..])))
  }

  ghost predicate InTreeOrder(paths: seq<Path>) {
    forall i, j :: 0 <= i < j < |paths| ==> Earlier(paths[i], paths[j])
  }

  lemma OrderUnder(i: nat, paths: seq<Path>)
    requires InTreeOrder(paths)
    ensures InTreeOrder(Under([i], paths))
  {
    forall j, k | 0 <= j < k < |paths| ensures Earlier(Under([i], paths)[j], Under([i], paths)[k]) {
      assert ([i] + paths[j])[1..] == paths[j] && ([i] + paths[k])[1..] == paths[k];
    }
  }

  /** The paths of stores are listed in tree order. */
  lemma {:induction false} StoresInOrder(t: Texts, n: FfsNode, barrier: bool)
    ensures InTreeOrder(CollectStores(t, n, barrier))
    decreases n, 1
  {
    hide ParseEntry;
    if !IsNvarBody(t, n) {
      KidStoresInOrder(t, n.children, 0, barrier || BlocksMutation(n));
    }
  }

  lemma {:induction false} KidStoresInOrder(t: Texts, kids: seq<FfsNode>, i: nat, barrier: bool)
    ensures InTreeOrder(CollectStoresOf(t, kids, i, barrier))
    ensures forall j :: 0 <= j < |CollectStoresOf(t, kids, i, barrier)| ==>
              CollectStoresOf(t, kids, i, barrier)[j] != [] && CollectStoresOf(t, kids, i, barrier)[j][0] >= i
    decreases kids, 0
  {
    hide CollectStores;
    if kids != [] {
      StoresInOrder(t, kids[0], barrier);
      OrderUnder(i, CollectStores(t, kids[0], barrier));
      KidStoresInOrder(t, kids[1..], i + 1, barrier);
    }
  }

  /** Hits come in tree order too, and so do the writes and the report. */
  lemma {:induction false} HitsInOrder(t: Texts, q: Query, n: FfsNode, barrier: bool)
    requires CollectHits(t, q, n, barrier).Ok?
    ensures InTreeOrder(PathsOf(CollectHits(t, q, n, barrier).value.hits))
    decreases n, 1
  {
    hide ParseEntry, StoreHit, FindVar;
    if !IsNvarBody(t, n) {
      KidHitsInOrder(t, q, n.children, 0, barrier || BlocksMutation(n));
    }
  }

  lemma {:induction false} KidHitsInOrder(t: Texts, q: Query, kids: seq<FfsNode>, i: nat, barrier: bool)
    requires CollectChildren(t, q, kids, i, barrier).Ok?
    ensures InTreeOrder(PathsOf(CollectChildren(t, q, kids, i, barrier).value.hits))
    ensures forall j :: 0 <= j < |CollectChildren(t, q, kids, i, barrier).value.hits| ==>
              CollectChildren(t, q, kids, i, barrier).value.hits[j].path != [] && CollectChildren(t, q, kids, i, barrier).value.hits[j].path[0] >= i
    decreases kids, 0
  {
    hide CollectHits;
    if kids != [] {
      HitsInOrder(t, q, kids[0], barrier);
      var own := CollectHits(t, q, kids[0], barrier).value.hits;
      OrderUnder(i, PathsOf(own));
      assert PathsOf(Below([i], own)) == Under([i], PathsOf(own));
      KidHitsInOrder(t, q, kids[1..], i + 1, barrier);
      var rest := CollectChildren(t, q, kids[1..], i + 1, barrier).value.hits;
      assert PathsOf(Below([i], own) + rest) == PathsOf(Below([i], own)) + PathsOf(rest);
    }
  }

  lemma UnderTwice(path: Path, i: nat, paths: seq<Path>)
    ensures Under(path, Under([i], paths)) == Under(path + [i], paths)
  {
    forall k | 0 <= k < |paths| ensures Under(path, Under([i], paths))[k] == Under(path + [i], paths)[k] {
      Assoc(path, [i], paths[k]);
    }
  }

  lemma UnderJoined(path: Path, a: seq<Path>, b: seq<Path>)
    ensures Under(path, a + b) == Under(path, a) + Under(path, b)
  {
  }

  /** Pushes the paths of the stores below `n`; `path` is the stack of indices. */
  method CollectStoresInto(t: Texts, n: FfsNode, path: Path, barrier: bool, out0: seq<Path>) returns (out: seq<Path>)
    ensures out == out0 + Under(path, CollectStores(t, n, barrier))
    decreases n
  {
    hide ParseEntry, BlocksMutation;
    out := out0;
    var first := ReadEntry(t, n.body, 0);
    if (n.nodeType == File || n.nodeType == Section) && n.children == [] && first.Some? {
      if !barrier {
        assert path + [] == path && Under(path, [[]]) == [path];
        out := out + [path];
      }
      return;
    }
    var blocked := barrier || BlocksMutation(n);
    ghost var kids := n.children;
    assert kids[0..] == kids;
    for i := 0 to |n.children|
      invariant out0 + Under(path, CollectStoresOf(t, kids, 0, blocked)) == out + Under(path, CollectStoresOf(t, kids[i..], i, blocked))
    {
      hide CollectStores, Under;
      assert kids[i..][0] == n.children[i] && kids[i..][1..] == kids[i + 1..];
      ghost var own, rest := CollectStores(t, n.children[i], blocked), CollectStoresOf(t, kids[i + 1..], i + 1, blocked);
      UnderJoined(path, Under([i], own), rest);
      UnderTwice(path, i, own);
      Assoc(out, Under(path + [i], own), Under(path, rest));
      out := CollectStoresInto(t, n.children[i], path + [i], blocked, out);
    }
    assert kids[|kids|..] == [] && Under(path, []) == [] && out + [] == out;
  }
}
