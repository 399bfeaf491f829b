/** Canonical prefix codes as the UEFI Specification, version 2.10, section 19.2
    defines them: a code set is given by one length per symbol (0 for a symbol
    without a codeword), codewords of one length are consecutive in symbol
    order, and all shorter codewords precede them. */
module Canonical {
  import opened Words
  import opened BitStreams

  /** The share of the code space (2^16 points) that a codeword of `l` bits takes. */
  function Share(l: nat): (w: nat)
    requires l <= 16
    ensures w >= 1
  {
    Pow2(16 - l)
  }

  function Count(lens: seq<U8>, l: nat): nat {
    if lens == [] then 0
    else Count(lens[..|lens| - 1], l) + (if lens[|lens| - 1] == l then 1 else 0)
  }

  /** The first codeword of length `l`. */
  function FirstCode(lens: seq<U8>, l: nat): nat
    requires l >= 1
  {
    if l == 1 then 0 else 2 * (FirstCode(lens, l - 1) + Count(lens, l - 1))
  }

  /** The codeword of symbol `c`, as a number of `lens[c]` bits. */
  function Codeword(lens: seq<U8>, c: nat): nat
    requires c < |lens| && lens[c] >= 1
  {
    FirstCode(lens, lens[c]) + Count(lens[..c], lens[c])
  }

  function KraftSum(lens: seq<U8>): nat {
    if lens == [] then 0
    else
      var l := lens[|lens| - 1];
      KraftSum(lens[..|lens| - 1]) + (if 1 <= l <= 16 then Share(l) else 0)
  }

  /** The codewords use the whole code space, exactly once. */
  predicate Complete(lens: seq<U8>) {
    (forall c :: 0 <= c < |lens| ==> lens[c] <= 16) && KraftSum(lens) == 0x1_0000
  }

  predicate HasCode(lens: seq<U8>, c: nat) {
    c < |lens| && 1 <= lens[c] <= 16
  }

  /** The first point of the code space that belongs to symbol `c`. */
  function Start(lens: seq<U8>, c: nat): nat
    requires HasCode(lens, c)
  {
    Codeword(lens, c) * Share(lens[c])
  }

  /** The stream shows the codeword of `c` at `pos`. */
  ghost predicate Matches(lens: seq<U8>, c: nat, s: seq<bool>, pos: int) {
    HasCode(lens, c) && BitsAt(s, pos, lens[c]) == Codeword(lens, c)
  }

  /** Points taken by the codewords shorter than `l`. */
  function Cum(lens: seq<U8>, l: nat): nat
    requires 1 <= l <= 17
  {
    if l == 1 then 0 else Cum(lens, l - 1) + Count(lens, l - 1) * Share(l - 1)
  }

  /** Number of symbols whose length is from `l` to 16. */
  function CountFrom(lens: seq<U8>, l: nat): nat
    requires l <= 17
    decreases 17 - l
  {
    if l == 17 then 0 else Count(lens, l) + CountFrom(lens, l + 1)
  }

  /** The first `d`-bit prefix that no codeword of at most `d` bits takes. */
  function LongFrom(lens: seq<U8>, d: nat): nat
    requires d >= 1
  {
    FirstCode(lens, d) + Count(lens, d)
  }

  /** Number of `d`-bit strings that are proper prefixes of codewords. */
  function Inner(lens: seq<U8>, d: nat): int
    requires d >= 1
  {
    Pow2(d) - LongFrom(lens, d)
  }

  function InnerSum(lens: seq<U8>, d: nat): int
    requires 1 <= d <= 16
    decreases 16 - d
  {
    if d == 16 then 0 else Inner(lens, d) + InnerSum(lens, d + 1)
  }

  lemma ShareHalf(l: nat)
    requires l < 16
    ensures Share(l) == 2 * Share(l + 1)
  {
  }

  lemma {:induction false} CumFirstCode(lens: seq<U8>, l: nat)
    requires 1 <= l <= 16
    ensures Cum(lens, l) == FirstCode(lens, l) * Share(l)
    ensures Cum(lens, l + 1) == LongFrom(lens, l) * Share(l)
  {
    if l > 1 {
      CumFirstCode(lens, l - 1);
      ShareHalf(l - 1);
      Halve(LongFrom(lens, l - 1), Share(l));
    }
    Distribute(FirstCode(lens, l), Count(lens, l), Share(l));
  }

  lemma {:induction false} CumAppend(lens: seq<U8>, x: U8, l: nat)
    requires 1 <= l <= 17
    ensures Cum(lens + [x], l) == Cum(lens, l) + if 1 <= x < l then Share(x) else 0
  {
    if l > 1 {
      CumAppend(lens, x, l - 1);
      CountAppend(lens, x, l - 1);
      Distribute(Count(lens, l - 1), 1, Share(l - 1));
    }
  }

  lemma CountAppend(lens: seq<U8>, x: U8, l: nat)
    ensures Count(lens + [x], l) == Count(lens, l) + if x == l then 1 else 0
  {
    assert (lens + [x])[..|lens|] == lens;
  }

  lemma {:induction false} CumKraft(lens: seq<U8>)
    ensures Cum(lens, 17) == KraftSum(lens)
  {
    if lens == [] {
      CumEmpty(17);
    } else {
      var n := |lens| - 1;
      CumKraft(lens[..n]);
      CumAppend(lens[..n], lens[n], 17);
      assert lens == lens[..n] + [lens[n]];
    }
  }

  lemma {:induction false} CumEmpty(l: nat)
    requires 1 <= l <= 17
    ensures Cum([], l) == 0
  {
    if l > 1 {
      CumEmpty(l - 1);
    }
  }

  lemma {:induction false} CumMonotone(lens: seq<U8>, a: nat, b: nat)
    requires 1 <= a <= b <= 17
    ensures Cum(lens, a) <= Cum(lens, b)
    decreases b
  {
    hide Share, Count;
    if a < b {
      CumMonotone(lens, a, b - 1);
      MulMonotone(0, Count(lens, b - 1), Share(b - 1));
    }
  }

  lemma {:induction false} CountMonotone(lens: seq<U8>, k: nat, l: nat)
    requires k <= |lens|
    ensures Count(lens[..k], l) <= Count(lens, l)
    decreases |lens|
  {
    if k < |lens| {
      var n := |lens| - 1;
      CountMonotone(lens[..n], k, l);
      assert lens[..n][..k] == lens[..k];
    } else {
      assert lens[..k] == lens;
    }
  }

  lemma CountStep(lens: seq<U8>, k: nat, l: nat)
    requires k < |lens|
    ensures Count(lens[..k + 1], l) == Count(lens[..k], l) + if lens[k] == l then 1 else 0
  {
    assert lens[..k + 1] == lens[..k] + [lens[k]];
    CountAppend(lens[..k], lens[k], l);
  }

  /** Where the points of symbol `c` lie. */
  lemma StartWithin(lens: seq<U8>, c: nat)
    requires HasCode(lens, c)
    ensures Start(lens, c) == Cum(lens, lens[c]) + Count(lens[..c], lens[c]) * Share(lens[c])
    ensures Start(lens, c) + Share(lens[c]) <= Cum(lens, lens[c] + 1)
    ensures Complete(lens) ==> Start(lens, c) + Share(lens[c]) <= 0x1_0000
  {
    hide KraftSum, Pow2;
    var l := lens[c];
    CumFirstCode(lens, l);
    Distribute(FirstCode(lens, l), Count(lens[..c], l), Share(l));
    CountStep(lens, c, l);
    CountMonotone(lens, c + 1, l);
    Distribute(Count(lens[..c], l), 1, Share(l));
    MulMonotone(Count(lens[..c], l) + 1, Count(lens, l), Share(l));
    CumMonotone(lens, l + 1, 17);
    CumKraft(lens);
  }

  /** Different symbols own disjoint parts of the code space, in the order of
      (length, symbol). */
  lemma StartDisjoint(lens: seq<U8>, a: nat, b: nat)
    requires HasCode(lens, a) && HasCode(lens, b)
    requires lens[a] < lens[b] || (lens[a] == lens[b] && a < b)
    ensures Start(lens, a) + Share(lens[a]) <= Start(lens, b)
  {
    hide Start, Cum, Count, KraftSum, Share;
    StartWithin(lens, a);
    StartWithin(lens, b);
    if lens[a] < lens[b] {
      CumMonotone(lens, lens[a] + 1, lens[b]);
    } else {
      var l := lens[a];
      CountStep(lens, a, l);
      CountMonotone(lens[..b], a + 1, l);
      assert lens[..b][..a + 1] == lens[..a + 1];
      Distribute(Count(lens[..a], l), 1, Share(l));
      MulMonotone(Count(lens[..a], l) + 1, Count(lens[..b], l), Share(l));
    }
  }

  /** A codeword is on the stream exactly if the next 16 bits lie in its share. */
  lemma MatchesByPoint(lens: seq<U8>, c: nat, s: seq<bool>, pos: int)
    requires HasCode(lens, c)
    ensures Matches(lens, c, s, pos)
       <==> Start(lens, c) <= BitsAt(s, pos, 16) < Start(lens, c) + Share(lens[c])
  {
    var l, w := lens[c], BitsAt(s, pos, 16);
    BitsAtPrefix(s, pos, l, 16 - l);
    ShrInterval(w, 16 - l, Codeword(lens, c));
  }

  /** No stream position shows two codewords. */
  lemma MatchUnique(lens: seq<U8>, a: nat, b: nat, s: seq<bool>, pos: int)
    requires Matches(lens, a, s, pos) && Matches(lens, b, s, pos)
    ensures a == b
  {
    MatchesByPoint(lens, a, s, pos);
    MatchesByPoint(lens, b, s, pos);
    if a != b {
      if lens[a] < lens[b] || (lens[a] == lens[b] && a < b) {
        StartDisjoint(lens, a, b);
      } else {
        StartDisjoint(lens, b, a);
      }
    }
  }

  /** Every stream position shows a codeword of a complete code. */
  lemma MatchExists(lens: seq<U8>, s: seq<bool>, pos: int) returns (c: nat)
    requires Complete(lens)
    ensures Matches(lens, c, s, pos)
  {
    hide KraftSum, Count, Share, Codeword, BitsAt, FirstCode, Cum;
    var w := BitsAt(s, pos, 16);
    BitsAtBound(s, pos, 16);
    Pow2Of32();
    CumKraft(lens);
    assert Cum(lens, 1) == 0 by { CumStart(lens); }
    var l := LengthAt(lens, w, 1);
    var r := (w - Cum(lens, l)) / Share(l);
    RankAt(w - Cum(lens, l), Count(lens, l), Share(l));
    c := SymbolOfRank(lens, l, r);
    StartWithin(lens, c);
    MatchesByPoint(lens, c, s, pos);
  }

  lemma CumStart(lens: seq<U8>)
    ensures Cum(lens, 1) == 0
  {
  }

  /** The codeword length at a point of the code space. */
  lemma {:induction false} LengthAt(lens: seq<U8>, w: nat, from: nat) returns (l: nat)
    requires 1 <= from <= 16 && Cum(lens, from) <= w < Cum(lens, 17)
    ensures from <= l <= 16 && Cum(lens, l) <= w < Cum(lens, l) + Count(lens, l) * Share(l)
    decreases 17 - from
  {
    hide Count, Share;
    if w < Cum(lens, from + 1) {
      l := from;
    } else {
      l := LengthAt(lens, w, from + 1);
    }
  }

  lemma RankAt(x: nat, n: nat, w: nat)
    requires w > 0 && x < n * w
    ensures 0 <= x / w < n && (x / w) * w <= x < (x / w) * w + w
  {
    DivInterval(x, w, x / w);
    if x / w >= n {
      MulMonotone(n, x / w, w);
    }
  }

  /** The symbol with a given rank among those of its length. */
  lemma {:induction false} SymbolOfRank(lens: seq<U8>, l: nat, r: nat) returns (c: nat)
    requires r < Count(lens, l)
    ensures c < |lens| && lens[c] == l && Count(lens[..c], l) == r
    decreases |lens|
  {
    var n := |lens| - 1;
    if lens[n] == l && r == Count(lens[..n], l) {
      c := n;
    } else {
      c := SymbolOfRank(lens[..n], l, r);
      assert lens[..n][..c] == lens[..c];
    }
  }

  lemma CodewordBound(lens: seq<U8>, c: nat)
    requires Complete(lens) && HasCode(lens, c)
    ensures Codeword(lens, c) < Pow2(lens[c])
  {
    StartWithin(lens, c);
    var l, q := lens[c], Codeword(lens, c);
    Pow2Sum(l, 16 - l);
    Pow2Of32();
    Distribute(q, 1, Share(l));
    if q >= Pow2(l) {
      MulMonotone(Pow2(l) + 1, q + 1, Share(l));
      Distribute(Pow2(l), 1, Share(l));
    }
  }

  lemma ShareOfPrefix(n: nat, d: nat)
    requires n <= d <= 16
    ensures Share(d - n) == Pow2(n) * Share(d)
  {
    hide Pow2;
    Pow2Sum(n, 16 - d);
  }

  /** Points of the code space: the share of `y`, a string of `d` bits, lies
      inside that of its prefix `x` of `d - n` bits. */
  lemma ShareNested(x: nat, y: nat, n: nat, d: nat)
    requires n <= d <= 16 && Shr(y, n) == x
    ensures x * Share(d - n) <= y * Share(d) && y * Share(d) + Share(d) <= x * Share(d - n) + Share(d - n)
  {
    hide Pow2, Shr, Share;
    ShrInterval(y, n, x);
    ShareOfPrefix(n, d);
    Scale(x, y, Pow2(n), Share(d));
  }

  lemma Scale(x: nat, y: nat, p: nat, w: nat)
    requires x * p <= y < x * p + p
    ensures x * (p * w) <= y * w && y * w + w <= x * (p * w) + p * w
  {
    Reassociate(x, p, w);
    MulMonotone(x * p, y, w);
    MulMonotone(y + 1, x * p + p, w);
    Distribute(x * p, p, w);
    Distribute(y, 1, w);
  }

  /** No codeword continues another one. */
  lemma PrefixFree(lens: seq<U8>, a: nat, b: nat)
    requires HasCode(lens, a) && HasCode(lens, b) && a != b && lens[a] <= lens[b]
    ensures Shr(Codeword(lens, b), lens[b] - lens[a]) != Codeword(lens, a)
  {
    if Shr(Codeword(lens, b), lens[b] - lens[a]) == Codeword(lens, a) {
      ShareNested(Codeword(lens, a), Codeword(lens, b), lens[b] - lens[a], lens[b]);
      if lens[a] < lens[b] || a < b {
        StartDisjoint(lens, a, b);
      } else {
        StartDisjoint(lens, b, a);
      }
    }
  }

  /** Every proper prefix of a codeword lies above all codewords of its own length. */
  lemma PrefixRange(lens: seq<U8>, c: nat, d: nat)
    requires Complete(lens) && HasCode(lens, c) && 1 <= d < lens[c]
    ensures LongFrom(lens, d) <= Shr(Codeword(lens, c), lens[c] - d) < Pow2(d)
  {
    var l := lens[c];
    CodewordBound(lens, c);
    ShrLess(Codeword(lens, c), l - d, d);
    PrefixFloor(lens, d, c);
  }

  lemma PrefixFloor(lens: seq<U8>, d: nat, c: nat)
    requires HasCode(lens, c) && 1 <= d < lens[c]
    ensures LongFrom(lens, d) <= Shr(Codeword(lens, c), lens[c] - d)
  {
    var l, q := lens[c], Shr(Codeword(lens, c), lens[c] - d);
    StartAbove(lens, d, c);
    ShareNested(q, Codeword(lens, c), l - d, l);
    LessByScale(LongFrom(lens, d), q, Share(d));
  }

  lemma LessByScale(a: nat, b: nat, w: nat)
    requires w > 0 && a * w < b * w + w
    ensures a <= b
  {
    if a > b {
      MulMonotone(b + 1, a, w);
      Distribute(b, 1, w);
    }
  }

  lemma StartAbove(lens: seq<U8>, d: nat, c: nat)
    requires HasCode(lens, c) && 1 <= d < lens[c]
    ensures LongFrom(lens, d) * Share(d) <= Codeword(lens, c) * Share(lens[c])
  {
    CumLong(lens, d);
    CumMonotone(lens, d + 1, lens[c]);
    StartFloor(lens, c);
  }

  lemma StartFloor(lens: seq<U8>, c: nat)
    requires HasCode(lens, c)
    ensures Cum(lens, lens[c]) <= Codeword(lens, c) * Share(lens[c])
  {
    hide Cum, Count, KraftSum, Share, Codeword;
    StartWithin(lens, c);
  }

  lemma CumLong(lens: seq<U8>, d: nat)
    requires 1 <= d <= 16
    ensures Cum(lens, d + 1) == LongFrom(lens, d) * Share(d)
  {
    CumFirstCode(lens, d);
  }

  // Counting the inner nodes of the code tree

  lemma {:induction false} CountFromAppend(lens: seq<U8>, x: U8, l: nat)
    requires l <= 17
    ensures CountFrom(lens + [x], l) == CountFrom(lens, l) + if l <= x <= 16 then 1 else 0
    decreases 17 - l
  {
    if l < 17 {
      CountFromAppend(lens, x, l + 1);
      CountAppend(lens, x, l);
    }
  }

  lemma {:induction false} CountFromBound(lens: seq<U8>, l: nat)
    requires l <= 17
    ensures CountFrom(lens, l) <= |lens|
    decreases |lens|, 17 - l
  {
    if lens == [] {
      if l < 17 {
        CountFromBound(lens, l + 1);
      }
    } else {
      var n := |lens| - 1;
      CountFromBound(lens[..n], l);
      assert lens == lens[..n] + [lens[n]];
      CountFromAppend(lens[..n], lens[n], l);
    }
  }

  lemma {:induction false} LongFromBound(lens: seq<U8>, d: nat)
    requires Complete(lens) && 1 <= d <= 16
    ensures LongFrom(lens, d) <= Pow2(d)
    ensures d == 16 ==> LongFrom(lens, d) == 0x1_0000
    decreases 16 - d
  {
    if d == 16 {
      CumFirstCode(lens, 16);
      CumKraft(lens);
      Pow2Of32();
    } else {
      LongFromBound(lens, d + 1);
    }
  }

  /** A full tree has one inner node less than leaves; here for the part of the
      tree from depth `d` down. */
  lemma {:induction false} InnerSumExact(lens: seq<U8>, d: nat)
    requires Complete(lens) && 1 <= d <= 16
    ensures InnerSum(lens, d) == CountFrom(lens, d + 1) - Inner(lens, d)
    decreases 16 - d
  {
    if d == 16 {
      LongFromBound(lens, 16);
      Pow2Of32();
    } else {
      InnerSumExact(lens, d + 1);
    }
  }

  lemma {:induction false} CumUpper(lens: seq<U8>, l: nat)
    requires 1 <= l <= 16
    ensures Cum(lens, 17) <= Cum(lens, l) + CountFrom(lens, l) * Share(l)
    decreases 17 - l
  {
    if l < 16 {
      CumUpper(lens, l + 1);
      ScaleMonotone(CountFrom(lens, l + 1), Share(l + 1), Share(l));
    }
    Distribute(Count(lens, l), CountFrom(lens, l + 1), Share(l));
  }

  /** A complete code over few symbols has a codeword of at most `d` bits. */
  lemma ShortCodeExists(lens: seq<U8>, d: nat)
    requires Complete(lens) && 1 <= d < 16 && |lens| * Share(d + 1) < 0x1_0000
    ensures LongFrom(lens, d) > 0
  {
    CumKraft(lens);
    CumFirstCode(lens, d);
    CumUpper(lens, d + 1);
    CountFromBound(lens, d + 1);
    MulMonotone(CountFrom(lens, d + 1), |lens|, Share(d + 1));
  }

  // All inner nodes from one depth down, as a finite set

  function Level(d: nat, lo: int, hi: int): (ks: set<(nat, nat)>)
    requires 0 <= lo <= hi
    ensures |ks| == hi - lo
    ensures forall k :: k in ks <==> k.0 == d && lo <= k.1 < hi
    decreases hi - lo
  {
    if lo == hi then {} else Level(d, lo, hi - 1) + {(d, (hi - 1) as nat)}
  }

  function Levels(lens: seq<U8>, d: nat): (ks: set<(nat, nat)>)
    requires 1 <= d <= 16
    requires forall e :: d <= e < 16 ==> LongFrom(lens, e) <= Pow2(e)
    ensures |ks| == InnerSum(lens, d)
    ensures forall k :: k in ks <==> d <= k.0 < 16 && LongFrom(lens, k.0) <= k.1 < Pow2(k.0)
    decreases 16 - d
  {
    if d == 16 then {}
    else
      var top, rest := Level(d, LongFrom(lens, d), Pow2(d)), Levels(lens, d + 1);
      assert top !! rest;
      top + rest
  }

  /** There are fewer inner nodes than symbols. */
  lemma FewInnerNodes(lens: seq<U8>, d: nat)
    requires Complete(lens) && 1 <= d <= 16 && lens != []
    requires forall e :: d <= e < 16 ==> LongFrom(lens, e) <= Pow2(e)
    ensures |Levels(lens, d)| < |lens|
  {
    hide Levels, LongFrom, Pow2, InnerSum, CountFrom, KraftSum;
    var ks := Levels(lens, d);
    if ks != {} {
      var k :| k in ks;
      InnerGrows(lens, d, k.0);
      InnerSumExact(lens, d);
      CountFromBound(lens, d + 1);
    }
  }

  /** An inner node at depth `e` has an ancestor at every smaller depth. */
  lemma {:induction false} InnerGrows(lens: seq<U8>, d: nat, e: nat)
    requires 1 <= d <= e && Inner(lens, e) > 0
    ensures Inner(lens, d) > 0
    decreases e - d
  {
    if d < e {
      InnerGrows(lens, d + 1, e);
    }
  }
}
