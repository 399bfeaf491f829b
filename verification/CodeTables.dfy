/** What a filled decoding table means for a complete canonical code, and why
    entering the codewords one by one in symbol order produces it. */
module CodeTables {
  import opened Words
  import opened BitStreams
  import opened Canonical
  import opened CodeTree

  ghost predicate Usable(lens: seq<U8>, bits: nat) {
    && 1 <= bits < 16 && 1 <= |lens| <= 510 && Complete(lens)
    && |lens| * Share(bits + 1) < 0x1_0000
  }

  ghost function Inners(lens: seq<U8>, bits: nat): (ks: set<Key>)
    requires Complete(lens) && 1 <= bits <= 16 && lens != []
    ensures |ks| < |lens|
    ensures forall k :: k in ks <==> bits <= k.0 < 16 && LongFrom(lens, k.0) <= k.1 < Pow2(k.0)
  {
    assert forall e :: bits <= e < 16 ==> LongFrom(lens, e) <= Pow2(e) by {
      forall e | bits <= e < 16 ensures LongFrom(lens, e) <= Pow2(e) {
        LongFromBound(lens, e);
      }
    }
    FewInnerNodes(lens, bits);
    Levels(lens, bits)
  }

  /** `h` is the shape of the table of the code `lens`. */
  ghost predicate ShapeFor(h: Shape, lens: seq<U8>) {
    Usable(lens, h.bits) && h.n == |lens| && h.inner == Inners(lens, h.bits)
  }

  lemma ShapeFacts(h: Shape, lens: seq<U8>)
    requires ShapeFor(h, lens)
    ensures 1 <= h.bits < 16 && 1 <= h.n == |lens| <= 510 && |h.inner| < h.n
  {
  }

  lemma PrefixInner(h: Shape, lens: seq<U8>, c: nat, d: nat)
    requires ShapeFor(h, lens) && HasCode(lens, c) && h.bits <= d < lens[c]
    ensures (d, Shr(Codeword(lens, c), lens[c] - d)) in h.inner
  {
    hide KraftSum, FirstCode, Codeword, Count;
    PrefixRange(lens, c, d);
  }

  lemma LeafOuter(h: Shape, lens: seq<U8>, c: nat)
    requires ShapeFor(h, lens) && HasCode(lens, c)
    ensures (lens[c] as nat, Codeword(lens, c)) !in h.inner
  {
    hide KraftSum, FirstCode, Count;
    CountStep(lens, c, lens[c]);
    CountMonotone(lens, c + 1, lens[c]);
  }

  /** The flat entries of a short codeword lie below those of all long ones. */
  lemma ShortBelow(lens: seq<U8>, bits: nat, c: nat, i: nat)
    requires HasCode(lens, c) && lens[c] <= bits <= 16
    requires Shr(i, bits - lens[c]) == Codeword(lens, c)
    ensures i < LongFrom(lens, bits)
  {
    hide KraftSum, FirstCode, Codeword, Count, LongFrom, Cum, Share, Shr;
    ShareNested(Codeword(lens, c), i, bits - lens[c], bits);
    StartCeiling(lens, c);
    CumMonotone(lens, lens[c] + 1, bits + 1);
    CumLong(lens, bits);
    Distribute(i, 1, Share(bits));
    LessByScale(i + 1, LongFrom(lens, bits), Share(bits));
  }

  lemma ShortOuter(h: Shape, lens: seq<U8>, c: nat, i: nat)
    requires ShapeFor(h, lens) && HasCode(lens, c) && lens[c] <= h.bits
    requires Shr(i, h.bits - lens[c]) == Codeword(lens, c)
    ensures i < Pow2(h.bits) && (h.bits, i) !in h.inner
  {
    hide KraftSum, FirstCode, Codeword, Count;
    ShortBelow(lens, h.bits, c, i);
    LongFromBound(lens, h.bits);
  }

  lemma StartCeiling(lens: seq<U8>, c: nat)
    requires HasCode(lens, c)
    ensures Codeword(lens, c) * Share(lens[c]) + Share(lens[c]) <= Cum(lens, lens[c] + 1)
  {
    StartWithin(lens, c);
  }

  /** Flat entries of different short codewords differ. */
  lemma ShortApart(lens: seq<U8>, bits: nat, a: nat, b: nat, i: nat)
    requires HasCode(lens, a) && HasCode(lens, b) && lens[a] <= bits && lens[b] <= bits
    requires Shr(i, bits - lens[a]) == Codeword(lens, a) && Shr(i, bits - lens[b]) == Codeword(lens, b)
    ensures a == b
  {
    if a != b {
      if lens[a] <= lens[b] {
        ShrSum(i, bits - lens[b], lens[b] - lens[a]);
        PrefixFree(lens, a, b);
      } else {
        ShrSum(i, bits - lens[a], lens[a] - lens[b]);
        PrefixFree(lens, b, a);
      }
    }
  }

  /** Looking up any bits that start with the codeword of `c` finds `c`. */
  ghost predicate Finds(lens: seq<U8>, bits: nat, cells: Cells, c: nat)
    requires c < |lens|
  {
    HasCode(lens, c) ==>
      if lens[c] <= bits then ShortFilled(lens, bits, cells.table, c)
      else
        var i := Shr(Codeword(lens, c), lens[c] - bits);
        i < |cells.table|
        && Leads(cells.left, cells.right, |lens|, cells.table[i], Codeword(lens, c), lens[c] - bits, c)
  }

  ghost predicate ShortFilled(lens: seq<U8>, bits: nat, table: seq<U16>, c: nat)
    requires HasCode(lens, c) && lens[c] <= bits
  {
    forall i {:trigger table[i]} :: 0 <= i < |table| && Shr(i, bits - lens[c]) == Codeword(lens, c) ==> table[i] == c
  }

  ghost predicate Decodes(lens: seq<U8>, bits: nat, cells: Cells) {
    forall c: nat {:trigger Finds(lens, bits, cells, c)} :: c < |lens| ==> Finds(lens, bits, cells, c)
  }

  /** The character tree, whose nodes start at `|lens|`, survives every rebuild
      of a position table whose nodes stay below. */
  lemma DecodesFrame(lens: seq<U8>, bits: nat, cells: Cells, left': seq<U16>, right': seq<U16>)
    requires Decodes(lens, bits, cells) && |cells.left| == |left'| && |cells.right| == |right'|
    requires forall i :: |lens| <= i < |left'| ==> cells.left[i] == left'[i]
    requires forall i :: |lens| <= i < |right'| ==> cells.right[i] == right'[i]
    ensures Decodes(lens, bits, Cells(cells.table, left', right'))
  {
    forall c: nat {:trigger Finds(lens, bits, Cells(cells.table, left', right'), c)} | c < |lens|
      ensures Finds(lens, bits, Cells(cells.table, left', right'), c)
    {
      assert Finds(lens, bits, cells, c);
      if HasCode(lens, c) && lens[c] > bits {
        LeadsFrame(cells.left, cells.right, left', right', |lens|,
          cells.table[Shr(Codeword(lens, c), lens[c] - bits)], Codeword(lens, c), lens[c] - bits, c);
      }
    }
  }

  // Looking up a symbol

  /** Walking from `node` along the `m` stream bits at `p` ends at the symbol `c`. */
  ghost predicate Descends(cells: Cells, n: nat, node: nat, s: seq<bool>, p: int, m: nat, c: nat)
    decreases m
  {
    if m == 0 then node == c && c < n
    else
      && n <= node < |cells.left| && node < |cells.right|
      && Descends(cells, n, if Bit(s, p) then cells.right[node] else cells.left[node], s, p + 1, m - 1, c)
  }

  lemma {:induction false} LeadsDescends(cells: Cells, n: nat, node: nat, s: seq<bool>, pos: int, l: nat, k: nat, c: nat)
    requires k <= l && Leads(cells.left, cells.right, n, node, BitsAt(s, pos, l), k, c)
    ensures Descends(cells, n, node, s, pos + l - k, k, c)
    decreases k
  {
    if k > 0 {
      BitsAtBit(s, pos, l, k - 1);
      LeadsDescends(cells, n, if Bit(s, pos + l - k) then cells.right[node] else cells.left[node], s, pos, l, k - 1, c);
    }
  }

  lemma LookupShort(lens: seq<U8>, bits: nat, cells: Cells, s: seq<bool>, pos: int, c: nat)
    requires Matches(lens, c, s, pos) && lens[c] <= bits && Finds(lens, bits, cells, c)
    requires BitsAt(s, pos, bits) < |cells.table|
    ensures cells.table[BitsAt(s, pos, bits)] == c
  {
    hide BitsAt, Codeword, Leads;
    BitsAtPrefix(s, pos, lens[c], bits - lens[c]);
  }

  lemma LookupLong(lens: seq<U8>, bits: nat, cells: Cells, s: seq<bool>, pos: int, c: nat)
    requires Matches(lens, c, s, pos) && lens[c] > bits && Finds(lens, bits, cells, c)
    ensures BitsAt(s, pos, bits) < |cells.table|
    ensures Descends(cells, |lens|, cells.table[BitsAt(s, pos, bits)], s, pos + bits, lens[c] - bits, c)
  {
    hide BitsAt, Codeword, Leads, Descends, Shr;
    BitsAtPrefix(s, pos, bits, lens[c] - bits);
    LeadsDescends(cells, |lens|, cells.table[BitsAt(s, pos, bits)], s, pos, lens[c], lens[c] - bits, c);
  }

  /** The flat cell of the next `bits` stream bits is where the walk to the
      symbol shown by the stream starts. */
  lemma LookupStart(lens: seq<U8>, bits: nat, cells: Cells, s: seq<bool>, pos: int, c: nat)
    requires Decodes(lens, bits, cells) && Matches(lens, c, s, pos)
    requires |cells.table| == Pow2(bits)
    ensures BitsAt(s, pos, bits) < |cells.table|
    ensures Descends(cells, |lens|, cells.table[BitsAt(s, pos, bits)], s, pos + bits,
              if lens[c] <= bits then 0 else lens[c] - bits, c)
  {
    hide Pow2, BitsAt, Codeword, Finds;
    BitsAtBound(s, pos, bits);
    assert Finds(lens, bits, cells, c);
    if lens[c] <= bits {
      LookupShort(lens, bits, cells, s, pos, c);
    } else {
      LookupLong(lens, bits, cells, s, pos, c);
    }
  }

  lemma DescendStep(cells: Cells, n: nat, node: nat, s: seq<bool>, p: int, m: nat, c: nat)
    requires Descends(cells, n, node, s, p, m, c)
    ensures node < n ==> m == 0 && node == c
    ensures node >= n ==> m > 0 && node < |cells.left| && node < |cells.right|
    ensures node >= n ==> Descends(cells, n, if Bit(s, p) then cells.right[node] else cells.left[node], s, p + 1, m - 1, c)
  {
  }

  // The state of the table while the codewords are being entered

  /** The symbol `c` has been entered. */
  ghost predicate Planted(lens: seq<U8>, bits: nat, t: Tree, c: nat)
    requires HasCode(lens, c)
  {
    if lens[c] <= bits then ShortFilled(lens, bits, t.cells.table, c)
    else (lens[c] as nat, Codeword(lens, c)) in t.leaves && t.leaves[(lens[c] as nat, Codeword(lens, c))] == c
  }

  ghost predicate PlantedBelow(lens: seq<U8>, bits: nat, t: Tree, k: nat) {
    forall c: nat {:trigger HasCode(lens, c)} :: c < k && HasCode(lens, c) ==> Planted(lens, bits, t, c)
  }

  /** All symbols below `k` have been entered. */
  ghost predicate Entered(h: Shape, lens: seq<U8>, t: Tree, k: nat) {
    ShapeFor(h, lens) && Grown(h, t) && PlantedBelow(lens, h.bits, t, k)
  }

  lemma PlantedFinds(h: Shape, lens: seq<U8>, t: Tree, c: nat)
    requires Grown(h, t) && h.n == |lens| && c < |lens|
    requires HasCode(lens, c) ==> Planted(lens, h.bits, t, c)
    ensures Finds(lens, h.bits, t.cells, c)
  {
    if HasCode(lens, c) && lens[c] > h.bits {
      LeafFound(h, t, (lens[c] as nat, Codeword(lens, c)));
    }
  }

  /** Once all symbols are entered the table decodes the code. */
  lemma PlantedDecodes(h: Shape, lens: seq<U8>, t: Tree)
    requires Grown(h, t) && h.n == |lens| && PlantedBelow(lens, h.bits, t, |lens|)
    ensures Decodes(lens, h.bits, t.cells)
  {
    forall c: nat {:trigger Finds(lens, h.bits, t.cells, c)} | c < |lens|
      ensures Finds(lens, h.bits, t.cells, c)
    {
      PlantedFinds(h, lens, t, c);
    }
  }

  /** Zero cells above the short codewords are the empty tree. */
  lemma EmptyTree(h: Shape, lens: seq<U8>, cells: Cells)
    requires ShapeFor(h, lens)
    requires |cells.table| == Pow2(h.bits) && |cells.left| == |cells.right| == NODES
    requires forall i :: LongFrom(lens, h.bits) <= i < Pow2(h.bits) ==> cells.table[i] == 0
    ensures Entered(h, lens, Tree(cells, map[], map[], |lens|), 0)
  {
    hide KraftSum, FirstCode, Count, LongFrom, Complete;
    var t := Tree(cells, map[], map[], |lens|);
    forall k: Key {:trigger Reached(h, t.nodes, k)} | Reached(h, t.nodes, k)
      ensures t.cells.Has(SlotOf(h, t.nodes, k)) && t.cells.Get(SlotOf(h, t.nodes, k)) == 0
    {
    }
  }

  /** The flat entries of the short codeword of `c` are filled, the rest is kept. */
  ghost predicate ShortStep(lens: seq<U8>, bits: nat, a: Cells, b: Cells, c: nat)
    requires HasCode(lens, c) && lens[c] <= bits
  {
    && b.left == a.left && b.right == a.right && |b.table| == |a.table|
    && forall i {:trigger b.table[i]} :: 0 <= i < |a.table| ==>
         b.table[i] == if Shr(i, bits - lens[c]) == Codeword(lens, c) then c else a.table[i]
  }

  lemma EnterShortKeeps(h: Shape, lens: seq<U8>, t: Tree, cells: Cells, c: nat)
    requires Entered(h, lens, t, c) && HasCode(lens, c) && lens[c] <= h.bits
    requires ShortStep(lens, h.bits, t.cells, cells, c)
    ensures Entered(h, lens, t.(cells := cells), c + 1)
  {
    hide ShapeFor, Grown, Codeword;
    forall i | 0 <= i < |cells.table| && (h.bits, i) in h.inner
      ensures cells.table[i] == t.cells.table[i]
    {
      if Shr(i, h.bits - lens[c]) == Codeword(lens, c) {
        ShortOuter(h, lens, c, i);
      }
    }
    AddShort(h, t, cells);
    forall a: nat {:trigger HasCode(lens, a)} | a < c && HasCode(lens, a)
      ensures Planted(lens, h.bits, t.(cells := cells), a)
    {
      assert Planted(lens, h.bits, t, a);
      if lens[a] <= h.bits {
        forall i | 0 <= i < |cells.table| && Shr(i, h.bits - lens[a]) == Codeword(lens, a)
          ensures cells.table[i] == a
        {
          if Shr(i, h.bits - lens[c]) == Codeword(lens, c) {
            ShortApart(lens, h.bits, a, c, i);
          }
        }
      }
    }
  }

  /** A long codeword fits the shape of its code. */
  lemma LongFits(h: Shape, lens: seq<U8>, c: nat)
    requires ShapeFor(h, lens) && HasCode(lens, c) && lens[c] > h.bits
    ensures Fits(h, Walk(Codeword(lens, c), lens[c], c))
  {
    hide ShapeFor, Codeword;
    ShapeFacts(h, lens);
    var w := Walk(Codeword(lens, c), lens[c], c);
    LeafOuter(h, lens, c);
    forall depth {:trigger KeyAt(w, depth)} | 0 < depth <= w.len - h.bits
      ensures KeyAt(w, depth) in h.inner
    {
      PrefixInner(h, lens, c, w.len - depth);
    }
  }

  lemma EnterLongKeeps(h: Shape, lens: seq<U8>, t: Tree, t': Tree, c: nat)
    requires Entered(h, lens, t, c) && HasCode(lens, c) && lens[c] > h.bits
    requires Grown(h, t') && Extends(h, t.cells, t'.cells)
    requires t'.leaves == t.leaves[(lens[c] as nat, Codeword(lens, c)) := c]
    ensures Entered(h, lens, t', c + 1)
  {
    hide ShapeFor, Grown, Codeword;
    forall a: nat {:trigger HasCode(lens, a)} | a < c && HasCode(lens, a)
      ensures Planted(lens, h.bits, t', a)
    {
      assert Planted(lens, h.bits, t, a);
      if lens[a] <= h.bits {
        forall i | 0 <= i < |t'.cells.table| && Shr(i, h.bits - lens[a]) == Codeword(lens, a)
          ensures t'.cells.table[i] == a
        {
          ShortOuter(h, lens, a, i);
        }
      } else if lens[a] == lens[c] {
        PrefixFree(lens, a, c);
      }
    }
  }

  // The numbers that drive the entering

  /** Cells of the flat table, or points of the code space, per codeword. */
  function Weight(bits: nat, l: nat): (w: nat)
    requires 1 <= l <= 16
    ensures w >= 1
  {
    if l <= bits then Pow2(bits - l) else Pow2(16 - l)
  }

  /** Where the next codeword of length `l` goes after `k` symbols. */
  function NextEntry(lens: seq<U8>, bits: nat, k: nat, l: nat): nat
    requires 1 <= l <= 16 && k <= |lens|
  {
    var q := FirstCode(lens, l) + Count(lens[..k], l);
    MulMonotone(0, q, Weight(bits, l));
    q * Weight(bits, l)
  }

  /** `start` is right for every length that still has symbols to come. */
  ghost predicate StartsAt(lens: seq<U8>, bits: nat, k: nat, start: seq<U16>)
    requires k <= |lens|
  {
    |start| == 18 && forall l {:trigger start[l]} :: 1 <= l <= 16 && Count(lens[..k], l) < Count(lens, l) ==>
      start[l] == NextEntry(lens, bits, k, l)
  }

  lemma EntryBound(lens: seq<U8>, bits: nat, k: nat, l: nat)
    requires Complete(lens) && bits < 16 && 1 <= l <= 16 && k <= |lens| && Count(lens[..k], l) < Count(lens, l)
    ensures NextEntry(lens, bits, k, l) + Weight(bits, l) <= Pow2(if l <= bits then bits else 16)
  {
    hide KraftSum, FirstCode, Count, Complete, Pow2;
    LongFromBound(lens, l);
    var q := FirstCode(lens, l) + Count(lens[..k], l);
    Distribute(q, 1, Weight(bits, l));
    MulMonotone(q + 1, Pow2(l), Weight(bits, l));
    Pow2Sum(l, (if l <= bits then bits else 16) - l);
  }

  lemma StartsStep(lens: seq<U8>, bits: nat, k: nat, start: seq<U16>)
    requires Complete(lens) && bits < 16 && k < |lens| && HasCode(lens, k) && StartsAt(lens, bits, k, start)
    ensures var l := lens[k];
      StartsAt(lens, bits, k + 1, start[l := (start[l] + Weight(bits, l)) % 0x1_0000])
  {
    hide KraftSum, FirstCode, Complete, Pow2, Weight, NextEntry;
    var l := lens[k];
    var start' := start[l := (start[l] + Weight(bits, l)) % 0x1_0000];
    forall m {:trigger start'[m]} | 1 <= m <= 16 && Count(lens[..k + 1], m) < Count(lens, m)
      ensures start'[m] == NextEntry(lens, bits, k + 1, m)
    {
      CountStep(lens, k, m);
      EntryStep(lens, bits, k, m);
      if m == l {
        EntryBound(lens, bits, k + 1, m);
        Pow2Monotone(bits, 15);
        Pow2Of32();
        assert Pow2(15) <= 0x1_0000 by { Pow2Monotone(15, 16); }
      }
    }
  }

  lemma EntryStep(lens: seq<U8>, bits: nat, k: nat, l: nat)
    requires 1 <= l <= 16 && k < |lens|
    ensures NextEntry(lens, bits, k + 1, l) == NextEntry(lens, bits, k, l) + if lens[k] == l then Weight(bits, l) else 0
  {
    hide FirstCode, Count, Weight;
    CountStep(lens, k, l);
    Distribute(FirstCode(lens, l) + Count(lens[..k], l), 1, Weight(bits, l));
  }

  /** Symbol `c` goes where its codeword says. */
  lemma EntryOfSymbol(lens: seq<U8>, bits: nat, c: nat, start: seq<U16>)
    requires Complete(lens) && bits < 16 && HasCode(lens, c) && StartsAt(lens, bits, c, start)
    ensures start[lens[c]] == Codeword(lens, c) * Weight(bits, lens[c])
    ensures lens[c] <= bits ==> start[lens[c]] + Weight(bits, lens[c]) <= Pow2(bits)
    ensures lens[c] > bits ==> Shr(start[lens[c]], 16 - lens[c]) == Codeword(lens, c)
  {
    hide KraftSum, FirstCode, Complete, Pow2, Count, Weight, NextEntry, Codeword;
    var l := lens[c];
    CountStep(lens, c, l);
    CountMonotone(lens, c + 1, l);
    EntryBound(lens, bits, c, l);
    assert start[l] == NextEntry(lens, bits, c, l);
    EntryIsCodeword(lens, bits, c);
  }

  lemma EntryIsCodeword(lens: seq<U8>, bits: nat, c: nat)
    requires HasCode(lens, c)
    ensures NextEntry(lens, bits, c, lens[c]) == Codeword(lens, c) * Weight(bits, lens[c])
    ensures lens[c] > bits ==> Shr(NextEntry(lens, bits, c, lens[c]), 16 - lens[c]) == Codeword(lens, c)
  {
    hide FirstCode, Count, Pow2;
    if lens[c] > bits {
      ShrInterval(NextEntry(lens, bits, c, lens[c]), 16 - lens[c], Codeword(lens, c));
    }
  }

  /** The start values before any symbol is entered. */
  lemma StartsInit(lens: seq<U8>, bits: nat, cum: seq<U16>, start: seq<U16>)
    requires Complete(lens) && 1 <= bits < 16 && |cum| == |start| == 18
    requires forall l {:trigger cum[l]} :: 1 <= l <= 17 ==> cum[l] == Cum(lens, l) % 0x1_0000
    requires forall l {:trigger start[l]} :: 1 <= l <= 16 ==> start[l] == if l <= bits then Shr(cum[l], 16 - bits) else cum[l]
    ensures StartsAt(lens, bits, 0, start)
  {
    hide KraftSum, FirstCode, Complete, Pow2, Weight, NextEntry, Cum, Shr;
    forall l {:trigger start[l]} | 1 <= l <= 16 && Count(lens[..0], l) < Count(lens, l)
      ensures start[l] == NextEntry(lens, bits, 0, l)
    {
      CumBound(lens, l);
      assert cum[l] == Cum(lens, l);
      FirstEntry(lens, bits, l);
    }
  }

  lemma CumBound(lens: seq<U8>, l: nat)
    requires Complete(lens) && 1 <= l <= 16 && Count(lens, l) > 0
    ensures Cum(lens, l) < 0x1_0000
  {
    hide KraftSum, FirstCode, Count, Share;
    CumMonotone(lens, l + 1, 17);
    CumKraft(lens);
    MulMonotone(1, Count(lens, l), Share(l));
  }

  lemma FirstEntry(lens: seq<U8>, bits: nat, l: nat)
    requires 1 <= l <= 16 && 1 <= bits < 16
    ensures NextEntry(lens, bits, 0, l) == if l <= bits then Shr(Cum(lens, l), 16 - bits) else Cum(lens, l)
  {
    hide FirstCode, Pow2, Cum;
    var f := FirstCode(lens, l);
    assert Count(lens[..0], l) == 0;
    FirstCodeCum(lens, l);
    if l <= bits {
      Pow2Sum(bits - l, 16 - bits);
      Reassociate(f, Pow2(bits - l), Pow2(16 - bits));
      ShrInterval(Cum(lens, l), 16 - bits, f * Pow2(bits - l));
    }
  }

  lemma FirstCodeCum(lens: seq<U8>, l: nat)
    requires 1 <= l <= 16
    ensures Cum(lens, l) == FirstCode(lens, l) * Pow2(16 - l)
  {
    CumFirstCode(lens, l);
  }

  /** Filling the cells of a short codeword is a step of the entering. */
  lemma FilledIsShortStep(lens: seq<U8>, bits: nat, a: Cells, b: Cells, c: nat, lo: nat, hi: nat)
    requires HasCode(lens, c) && lens[c] <= bits
    requires lo == Codeword(lens, c) * Weight(bits, lens[c]) && hi == lo + Weight(bits, lens[c])
    requires b.left == a.left && b.right == a.right && |b.table| == |a.table|
    requires forall i {:trigger b.table[i]} :: 0 <= i < |a.table| ==> b.table[i] == if lo <= i < hi then c else a.table[i]
    ensures ShortStep(lens, bits, a, b, c)
  {
    hide Codeword, Pow2;
    forall i {:trigger b.table[i]} | 0 <= i < |a.table|
      ensures b.table[i] == if Shr(i, bits - lens[c]) == Codeword(lens, c) then c else a.table[i]
    {
      ShrInterval(i, bits - lens[c], Codeword(lens, c));
    }
  }
}
