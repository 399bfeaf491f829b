/** The decoding table of a prefix code: a flat table over the first `bits` bits,
    continued by a binary tree that lives in the shared arrays left and right.
    A key (d, v) names the d-bit string v; its slot is the cell that the string
    leads to. This module knows nothing of how the codewords are chosen: `inner`
    is any set of strings that codewords continue. */
module CodeTree {
  import opened Words

  const NODES := 2 * 510 - 1

  type Key = (nat, nat)

  datatype Slot = InTable(i: nat) | InLeft(i: nat) | InRight(i: nat)

  datatype Cells = Cells(table: seq<U16>, left: seq<U16>, right: seq<U16>) {
    predicate Has(slot: Slot) {
      match slot
      case InTable(i) => i < |table|
      case InLeft(i) => i < |left|
      case InRight(i) => i < |right|
    }

    function Get(slot: Slot): U16
      requires Has(slot)
    {
      match slot
      case InTable(i) => table[i]
      case InLeft(i) => left[i]
      case InRight(i) => right[i]
    }

    function Put(slot: Slot, v: U16): (r: Cells)
      requires Has(slot)
    {
      match slot
      case InTable(i) => this.(table := table[i := v])
      case InLeft(i) => this.(left := left[i := v])
      case InRight(i) => this.(right := right[i := v])
    }
  }

  /** Width of the flat table, number of symbols (and first node number), and
      the strings of at least `bits` bits that some codeword continues. */
  datatype Shape = Shape(bits: nat, n: nat, inner: set<Key>)

  /** The cells, the node number of every inner string entered so far, the
      symbol of every long codeword entered so far, and the next node number. */
  datatype Tree = Tree(cells: Cells, nodes: map<Key, nat>, leaves: map<Key, nat>, avail: nat)

  function Parent(k: Key): Key
    requires k.0 > 0
  {
    (k.0 - 1, k.1 / 2)
  }

  predicate Reached(h: Shape, nodes: map<Key, nat>, k: Key) {
    if k.0 == h.bits then k in h.inner else k.0 > h.bits && Parent(k) in nodes
  }

  function SlotOf(h: Shape, nodes: map<Key, nat>, k: Key): Slot
    requires Reached(h, nodes, k)
  {
    if k.0 == h.bits then InTable(k.1)
    else if k.1 % 2 == 1 then InRight(nodes[Parent(k)])
    else InLeft(nodes[Parent(k)])
  }

  function Expected(nodes: map<Key, nat>, leaves: map<Key, nat>, k: Key): nat {
    if k in nodes then nodes[k] else if k in leaves then leaves[k] else 0
  }

  ghost predicate Sized(h: Shape, cells: Cells) {
    && 1 <= h.n && h.n + |h.inner| <= NODES
    && |cells.left| == |cells.right| == NODES
    && forall k :: k in h.inner && k.0 == h.bits ==> k.1 < |cells.table|
  }

  /** Nodes have different numbers in order of allocation. */
  ghost predicate Numbered(h: Shape, nodes: map<Key, nat>, avail: nat) {
    && h.n <= avail && |nodes| == avail - h.n
    && nodes.Keys <= h.inner
    && (forall k :: k in nodes ==> h.bits <= k.0 && h.n <= nodes[k] < avail)
    && (forall a, b :: a in nodes && b in nodes && nodes[a] == nodes[b] ==> a == b)
  }

  ghost predicate NodesOk(h: Shape, nodes: map<Key, nat>, avail: nat) {
    Numbered(h, nodes, avail) && forall k {:trigger Reached(h, nodes, k)} :: k in nodes ==> Reached(h, nodes, k)
  }

  ghost predicate LeavesOk(h: Shape, nodes: map<Key, nat>, leaves: map<Key, nat>) {
    forall k :: k in leaves ==> k.0 > h.bits && k !in h.inner && leaves[k] < h.n && Parent(k) in nodes
  }

  /** The cells hold exactly the nodes and leaves entered so far, and zero in
      every other slot that the tree can reach. */
  ghost predicate ContentOk(h: Shape, t: Tree) {
    forall k: Key {:trigger Reached(h, t.nodes, k)} :: Reached(h, t.nodes, k) ==>
      && t.cells.Has(SlotOf(h, t.nodes, k))
      && t.cells.Get(SlotOf(h, t.nodes, k)) == Expected(t.nodes, t.leaves, k)
  }

  ghost predicate Grown(h: Shape, t: Tree) {
    && Sized(h, t.cells) && t.avail <= NODES
    && NodesOk(h, t.nodes, t.avail) && LeavesOk(h, t.nodes, t.leaves) && ContentOk(h, t)
  }

  lemma SlotHas(h: Shape, cells: Cells, nodes: map<Key, nat>, avail: nat, k: Key)
    requires Sized(h, cells) && avail <= NODES && NodesOk(h, nodes, avail) && Reached(h, nodes, k)
    ensures cells.Has(SlotOf(h, nodes, k))
  {
  }

  /** Different keys have different slots. */
  lemma SlotInjective(h: Shape, nodes: map<Key, nat>, avail: nat, a: Key, b: Key)
    requires NodesOk(h, nodes, avail) && Reached(h, nodes, a) && Reached(h, nodes, b)
    requires SlotOf(h, nodes, a) == SlotOf(h, nodes, b)
    ensures a == b
  {
    if a.0 != h.bits {
      assert Parent(a) == Parent(b);
      assert a.1 == 2 * (a.1 / 2) + a.1 % 2;
      assert b.1 == 2 * (b.1 / 2) + b.1 % 2;
    }
  }

  /** Node numbers never run out. */
  lemma RoomForNode(h: Shape, t: Tree, k: Key)
    requires Grown(h, t) && k in h.inner && k !in t.nodes
    ensures t.avail < h.n + |h.inner| <= NODES
  {
    SubsetSize(t.nodes.Keys + {k}, h.inner);
    assert |t.nodes.Keys + {k}| == |t.nodes| + 1;
  }

  lemma SubsetSize<T>(a: set<T>, b: set<T>)
    requires a <= b
    ensures |a| <= |b|
  {
    if a != {} {
      var x :| x in a;
      SubsetSize(a - {x}, b - {x});
    }
  }

  function WithNode(h: Shape, t: Tree, k: Key): Tree
    requires Reached(h, t.nodes, k) && t.avail < NODES
    requires |t.cells.left| == |t.cells.right| == NODES && t.cells.Has(SlotOf(h, t.nodes, k))
  {
    var cleared := t.cells.(left := t.cells.left[t.avail := 0], right := t.cells.right[t.avail := 0]);
    t.(cells := cleared.Put(SlotOf(h, t.nodes, k), t.avail), nodes := t.nodes[k := t.avail], avail := t.avail + 1)
  }

  lemma NewNumber(h: Shape, nodes: map<Key, nat>, avail: nat, k: Key)
    requires Numbered(h, nodes, avail) && k in h.inner && h.bits <= k.0 && k !in nodes
    ensures Numbered(h, nodes[k := avail], avail + 1)
  {
    assert nodes[k := avail].Keys == nodes.Keys + {k};
  }

  lemma NewNodeOk(h: Shape, nodes: map<Key, nat>, avail: nat, k: Key)
    requires NodesOk(h, nodes, avail) && Reached(h, nodes, k) && k in h.inner && h.bits <= k.0 && k !in nodes
    ensures NodesOk(h, nodes[k := avail], avail + 1)
  {
    hide Numbered;
    var nodes' := nodes[k := avail];
    NewNumber(h, nodes, avail, k);
    forall q {:trigger Reached(h, nodes', q)} | q in nodes' ensures Reached(h, nodes', q) {
      assert Reached(h, nodes, q);
    }
  }

  lemma LeavesStay(h: Shape, nodes: map<Key, nat>, leaves: map<Key, nat>, avail: nat, k: Key)
    requires LeavesOk(h, nodes, leaves)
    ensures LeavesOk(h, nodes[k := avail], leaves)
  {
  }

  lemma OccupiedReached(h: Shape, t: Tree, q: Key)
    requires Grown(h, t) && (q in t.nodes || q in t.leaves)
    ensures Reached(h, t.nodes, q)
  {
    if q in t.leaves {
      assert t.leaves[q] < h.n;
    } else {
      assert Reached(h, t.nodes, q) by {
        assert q in t.nodes;
      }
    }
  }

  /** The slots below a new node hold zero. */
  lemma NewSlotZero(h: Shape, t: Tree, k: Key, q: Key)
    requires Grown(h, t) && Reached(h, t.nodes, k) && k in h.inner && k !in t.nodes && t.avail < NODES
    requires !Reached(h, t.nodes, q) && Reached(h, t.nodes[k := t.avail], q)
    ensures var t' := WithNode(h, t, k);
      && t'.cells.Has(SlotOf(h, t'.nodes, q))
      && t'.cells.Get(SlotOf(h, t'.nodes, q)) == Expected(t'.nodes, t'.leaves, q)
  {
    if q in t.nodes || q in t.leaves {
      OccupiedReached(h, t, q);
    }
    assert Parent(q) == k;
    SlotHas(h, t.cells, t.nodes, t.avail, k);
  }

  /** Entering a new inner node keeps the tree in order. */
  lemma AddNode(h: Shape, t: Tree, k: Key)
    requires Grown(h, t) && Reached(h, t.nodes, k) && k in h.inner && k !in t.nodes && t.avail < NODES
    ensures Grown(h, WithNode(h, t, k))
  {
    var t' := WithNode(h, t, k);
    NewNodeOk(h, t.nodes, t.avail, k);
    LeavesStay(h, t.nodes, t.leaves, t.avail, k);
    forall q: Key {:trigger Reached(h, t'.nodes, q)} | Reached(h, t'.nodes, q)
      ensures t'.cells.Has(SlotOf(h, t'.nodes, q))
      ensures t'.cells.Get(SlotOf(h, t'.nodes, q)) == Expected(t'.nodes, t'.leaves, q)
    {
      if Reached(h, t.nodes, q) {
        OldSlotKept(h, t, k, q);
      } else {
        NewSlotZero(h, t, k, q);
      }
    }
  }

  lemma OldSlotKept(h: Shape, t: Tree, k: Key, q: Key)
    requires Grown(h, t) && Reached(h, t.nodes, k) && k in h.inner && k !in t.nodes && t.avail < NODES
    requires Reached(h, t.nodes, q)
    ensures var t' := WithNode(h, t, k);
      && Reached(h, t'.nodes, q) && t'.cells.Has(SlotOf(h, t'.nodes, q))
      && t'.cells.Get(SlotOf(h, t'.nodes, q)) == Expected(t'.nodes, t'.leaves, q)
  {
    SlotHas(h, t.cells, t.nodes, t.avail, q);
    var t' := WithNode(h, t, k);
    assert SlotOf(h, t'.nodes, q) == SlotOf(h, t.nodes, q);
    if q != k && SlotOf(h, t.nodes, q) == SlotOf(h, t.nodes, k) {
      SlotInjective(h, t.nodes, t.avail, q, k);
    }
  }

  function WithLeaf(h: Shape, t: Tree, k: Key, c: U16): Tree
    requires Reached(h, t.nodes, k) && t.cells.Has(SlotOf(h, t.nodes, k))
  {
    t.(cells := t.cells.Put(SlotOf(h, t.nodes, k), c), leaves := t.leaves[k := c])
  }

  /** Planting a codeword keeps the tree in order. */
  lemma AddLeaf(h: Shape, t: Tree, k: Key, c: U16)
    requires Grown(h, t) && Reached(h, t.nodes, k) && k !in h.inner && c < h.n
    ensures Grown(h, WithLeaf(h, t, k, c))
  {
    var t' := WithLeaf(h, t, k, c);
    forall q: Key | Reached(h, t.nodes, q)
      ensures t'.cells.Has(SlotOf(h, t.nodes, q))
      ensures t'.cells.Get(SlotOf(h, t.nodes, q)) == Expected(t.nodes, t'.leaves, q)
    {
      if q != k && SlotOf(h, t.nodes, q) == SlotOf(h, t.nodes, k) {
        SlotInjective(h, t.nodes, t.avail, q, k);
      }
    }
  }

  /** Writing flat entries that no long codeword starts with keeps the tree in order. */
  lemma AddShort(h: Shape, t: Tree, cells: Cells)
    requires Grown(h, t) && cells.left == t.cells.left && cells.right == t.cells.right
    requires |cells.table| == |t.cells.table|
    requires forall i {:trigger cells.table[i]} :: 0 <= i < |cells.table| && (h.bits, i) in h.inner ==> cells.table[i] == t.cells.table[i]
    ensures Grown(h, t.(cells := cells))
  {
  }

  /** Walking from `node` along the low `k` bits of `code` meets inner nodes
      (numbers from `n` on) only, and ends at the symbol `c`. */
  ghost predicate Leads(left: seq<U16>, right: seq<U16>, n: nat, node: nat, code: nat, k: nat, c: nat)
    decreases k
  {
    if k == 0 then node == c && c < n
    else
      && n <= node < |left| && node < |right|
      && Leads(left, right, n, if TestBit(code, k - 1) then right[node] else left[node], code, k - 1, c)
  }

  /** Every planted codeword is found by following its bits from its flat entry. */
  lemma LeafFound(h: Shape, t: Tree, k: Key)
    requires Grown(h, t) && k in t.leaves
    ensures var i := Shr(k.1, k.0 - h.bits);
      i < |t.cells.table| && Leads(t.cells.left, t.cells.right, h.n, t.cells.table[i], k.1, k.0 - h.bits, t.leaves[k])
  {
    LeadsFrom(h, t, k, k.0 - h.bits);
  }

  lemma {:induction false} LeadsFrom(h: Shape, t: Tree, k: Key, m: nat)
    requires Grown(h, t) && k in t.leaves && m <= k.0 - h.bits
    ensures var q := (k.0 - m, Shr(k.1, m));
      && Reached(h, t.nodes, q) && (m > 0 ==> q in t.nodes) && t.cells.Has(SlotOf(h, t.nodes, q))
      && Leads(t.cells.left, t.cells.right, h.n, t.cells.Get(SlotOf(h, t.nodes, q)), k.1, m, t.leaves[k])
    decreases m
  {
    if m == 0 {
      assert k == (k.0 - 0, Shr(k.1, 0));
      OccupiedReached(h, t, k);
      assert t.leaves[k] < h.n;
    } else {
      LeadsFrom(h, t, k, m - 1);
      HalfOfShift(k.1, m);
      LeadsStep(h, t, (k.0 - m, Shr(k.1, m)), (k.0 - (m - 1), Shr(k.1, m - 1)), k.1, m, t.leaves[k]);
    }
  }

  lemma LeadsStep(h: Shape, t: Tree, q: Key, child: Key, code: nat, m: nat, c: nat)
    requires Grown(h, t) && m > 0 && child.0 > h.bits && Parent(child) == q
    requires Reached(h, t.nodes, child) && t.cells.Has(SlotOf(h, t.nodes, child))
    requires child.1 % 2 == 1 <==> TestBit(code, m - 1)
    requires Leads(t.cells.left, t.cells.right, h.n, t.cells.Get(SlotOf(h, t.nodes, child)), code, m - 1, c)
    ensures q in t.nodes && Reached(h, t.nodes, q) && t.cells.Has(SlotOf(h, t.nodes, q))
    ensures Leads(t.cells.left, t.cells.right, h.n, t.cells.Get(SlotOf(h, t.nodes, q)), code, m, c)
  {
    assert q in t.nodes;
    assert Reached(h, t.nodes, q);
    assert t.cells.Get(SlotOf(h, t.nodes, q)) == t.nodes[q];
  }

  lemma HalfOfShift(x: nat, m: nat)
    requires m > 0
    ensures Shr(x, m - 1) / 2 == Shr(x, m)
  {
    ShrSum(x, m - 1, 1);
    assert Shr(Shr(x, m - 1), 1) == Shr(x, m - 1) / 2;
  }

  /** A walk is untouched by writes to cells outside the node range it uses. */
  lemma {:induction false} LeadsFrame(left: seq<U16>, right: seq<U16>, left': seq<U16>, right': seq<U16>, n: nat, node: nat, code: nat, k: nat, c: nat)
    requires Leads(left, right, n, node, code, k, c) && |left| == |left'| && |right| == |right'|
    requires forall i :: n <= i < |left| ==> left[i] == left'[i]
    requires forall i :: n <= i < |right| ==> right[i] == right'[i]
    ensures Leads(left', right', n, node, code, k, c)
    decreases k
  {
    if k > 0 {
      LeadsFrame(left, right, left', right', n, if TestBit(code, k - 1) then right[node] else left[node], code, k - 1, c);
    }
  }

  /** Outside the flat entries of inner strings and the node numbers of the
      shape, the cells `b` are those of `a`. */
  ghost predicate Extends(h: Shape, a: Cells, b: Cells) {
    && |a.table| == |b.table| && |a.left| == |b.left| && |a.right| == |b.right|
    && (forall i {:trigger b.table[i]} :: 0 <= i < |a.table| && (h.bits, i) !in h.inner ==> b.table[i] == a.table[i])
    && (forall i {:trigger b.left[i]} :: 0 <= i < |a.left| && !(h.n <= i < h.n + |h.inner|) ==> b.left[i] == a.left[i])
    && (forall i {:trigger b.right[i]} :: 0 <= i < |a.right| && !(h.n <= i < h.n + |h.inner|) ==> b.right[i] == a.right[i])
  }

  lemma ExtendsTransitive(h: Shape, a: Cells, b: Cells, c: Cells)
    requires Extends(h, a, b) && Extends(h, b, c)
    ensures Extends(h, a, c)
  {
  }

  lemma PutExtends(h: Shape, t: Tree, k: Key, v: U16)
    requires Grown(h, t) && Reached(h, t.nodes, k)
    ensures t.cells.Has(SlotOf(h, t.nodes, k)) && Extends(h, t.cells, t.cells.Put(SlotOf(h, t.nodes, k), v))
  {
    SlotHas(h, t.cells, t.nodes, t.avail, k);
    if k.0 != h.bits {
      var p := Parent(k);
      assert p in t.nodes && t.nodes[p] < t.avail;
      SubsetSize(t.nodes.Keys, h.inner);
    }
  }

  lemma WithNodeExtends(h: Shape, t: Tree, k: Key)
    requires Grown(h, t) && Reached(h, t.nodes, k) && k in h.inner && k !in t.nodes && t.avail < NODES
    ensures t.cells.Has(SlotOf(h, t.nodes, k)) && Extends(h, t.cells, WithNode(h, t, k).cells)
  {
    RoomForNode(h, t, k);
    PutExtends(h, t, k, t.avail);
  }

  // The walk that enters one long codeword

  datatype Walk = Walk(code: nat, len: nat, c: nat)

  /** The string that the walk stands at when `depth` bits are still to go. */
  function KeyAt(w: Walk, depth: nat): Key
    requires depth <= w.len
  {
    (w.len - depth, Shr(w.code, depth))
  }

  /** The tree of the shape may hold the codeword. */
  ghost predicate Fits(h: Shape, w: Walk) {
    && h.bits < w.len && w.c < h.n && KeyAt(w, 0) !in h.inner
    && forall depth {:trigger KeyAt(w, depth)} :: 0 < depth <= w.len - h.bits ==> KeyAt(w, depth) in h.inner
  }

  /** The walk stands at `slot`, with `depth` bits to go. */
  ghost predicate WalkAt(h: Shape, t: Tree, w: Walk, depth: nat, slot: Slot) {
    && Grown(h, t) && depth + h.bits <= w.len
    && Reached(h, t.nodes, KeyAt(w, depth))
    && slot == SlotOf(h, t.nodes, KeyAt(w, depth))
  }

  lemma WalkStart(h: Shape, t: Tree, w: Walk)
    requires Grown(h, t) && Fits(h, w)
    ensures WalkAt(h, t, w, w.len - h.bits, InTable(Shr(w.code, w.len - h.bits)))
  {
    assert KeyAt(w, w.len - h.bits) in h.inner;
  }

  /** An empty slot on the way is exactly a missing node, and there is room for it. */
  lemma WalkCell(h: Shape, t: Tree, w: Walk, depth: nat, slot: Slot)
    requires Fits(h, w) && WalkAt(h, t, w, depth, slot) && 0 < depth <= w.len
    ensures t.cells.Has(slot) && KeyAt(w, depth) in h.inner
    ensures Reached(h, t.nodes, KeyAt(w, depth)) && slot == SlotOf(h, t.nodes, KeyAt(w, depth))
    ensures t.cells.Get(slot) == 0 <==> KeyAt(w, depth) !in t.nodes
    ensures t.cells.Get(slot) == 0 ==> t.avail < NODES
    ensures t.cells.Get(slot) != 0 ==> t.cells.Get(slot) == t.nodes[KeyAt(w, depth)]
  {
    if KeyAt(w, depth) !in t.nodes {
      RoomForNode(h, t, KeyAt(w, depth));
    }
  }

  lemma WalkAdds(h: Shape, t: Tree, w: Walk, depth: nat, slot: Slot)
    requires Fits(h, w) && WalkAt(h, t, w, depth, slot) && 0 < depth <= w.len
    requires KeyAt(w, depth) !in t.nodes && t.avail < NODES && t.cells.Has(slot)
    ensures var t' := WithNode(h, t, KeyAt(w, depth));
      && WalkAt(h, t', w, depth, slot) && KeyAt(w, depth) in t'.nodes && t'.cells.Has(slot)
      && t'.cells.Get(slot) == t'.nodes[KeyAt(w, depth)] && Extends(h, t.cells, t'.cells)
  {
    hide Grown, Extends;
    var k := KeyAt(w, depth);
    AddNode(h, t, k);
    WithNodeExtends(h, t, k);
    OldSlotKept(h, t, k, k);
  }

  /** Following the next bit of the codeword leads to the next slot. */
  lemma WalkDown(h: Shape, t: Tree, w: Walk, depth: nat, slot: Slot)
    requires WalkAt(h, t, w, depth, slot) && depth > 0 && KeyAt(w, depth) in t.nodes
    ensures var node := t.nodes[KeyAt(w, depth)];
      && var next := if TestBit(w.code, depth - 1) then InRight(node) else InLeft(node);
      WalkAt(h, t, w, depth - 1, next) && t.cells.Has(next)
  {
    HalfOfShift(w.code, depth);
    assert Parent(KeyAt(w, depth - 1)) == KeyAt(w, depth);
  }

  lemma WalkEnd(h: Shape, t: Tree, w: Walk, slot: Slot)
    requires Fits(h, w) && WalkAt(h, t, w, 0, slot) && w.c < NODES
    ensures t.cells.Has(slot) && Reached(h, t.nodes, (w.len, w.code))
    ensures SlotOf(h, t.nodes, (w.len, w.code)) == slot
    ensures Grown(h, WithLeaf(h, t, (w.len, w.code), w.c))
    ensures WithLeaf(h, t, (w.len, w.code), w.c).cells == t.cells.Put(slot, w.c)
    ensures Extends(h, t.cells, t.cells.Put(slot, w.c))
  {
    assert KeyAt(w, 0) == (w.len, w.code);
    AddLeaf(h, t, (w.len, w.code), w.c);
    PutExtends(h, t, (w.len, w.code), w.c);
  }
}
