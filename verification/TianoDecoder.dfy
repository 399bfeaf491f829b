/** The EFI 1.1 / Tiano decompressor: a 32-bit window over the input, decoding
    tables that are rebuilt for every block in shared storage, and the LZ77
    copy loop. The ghost fields record what the concrete state stands for. */
module TianoDecoder {
  import opened Results
  import opened Words
  import opened BitStreams
  import opened BitWindow
  import opened Canonical
  import opened CodeTree
  import opened CodeTables
  import opened TianoFormat

  const BITBUF := 32

  datatype DecompressError = Corrupted

  datatype Which = Pt | Cl

  lemma ShrTable(start: U16, bits: nat)
    requires bits <= 16
    ensures Shr(start, 16 - bits) < Pow2(bits)
  {
    Pow2Of32();
    ShrLess(start, 16 - bits, bits);
  }

  lemma Shl0(x: U16)
    ensures Shl(x, 0) == x
  {
  }

  lemma ShlStep(x: nat, k: nat)
    ensures Shl(Shl(x, k), 1) == Shl(x, k + 1)
  {
    assert Double(x, k + 1) == 2 * Double(x, k);
    DoubleWrap(Double(x, k));
    assert Double(Shl(x, k), 1) == 2 * Double(Shl(x, k), 0) == 2 * Shl(x, k);
  }

  lemma DoubleWrap(x: nat)
    ensures (2 * (x % 0x1_0000_0000)) % 0x1_0000_0000 == (2 * x) % 0x1_0000_0000
  {
    var q, r := x / 0x1_0000_0000, x % 0x1_0000_0000;
    if 2 * r < 0x1_0000_0000 {
      DivUnique(2 * x, 0x1_0000_0000, 2 * q, 2 * r);
    } else {
      DivUnique(2 * x, 0x1_0000_0000, 2 * q + 1, 2 * r - 0x1_0000_0000);
    }
  }

  /** The bit that the mask picks is the next bit of the codeword. */
  lemma NextBit(start: U16, len: nat, bits: nat, depth: nat)
    requires bits < len <= 16 && 0 < depth <= len - bits
    ensures And(Pow2(15 - bits), Shl(start, len - bits - depth)) != 0 <==> TestBit(Shr(start, 16 - len), depth - 1)
  {
    AndMask(Shl(start, len - bits - depth), 15 - bits);
    ShlBit(start, len - bits - depth, 15 - bits);
    ShrBit(start, 16 - len, depth - 1);
  }

  lemma MaskedDown(h: Shape, t: Tree, w: Walk, depth: nat, slot: Slot, start: U16, cur: U16)
    requires WalkAt(h, t, w, depth, slot) && depth > 0 && KeyAt(w, depth) in t.nodes
    requires t.nodes[KeyAt(w, depth)] == cur && w.len <= 16 && w.code == Shr(start, 16 - w.len)
    ensures var next := if And(Pow2(15 - h.bits), Shl(start, w.len - h.bits - depth)) != 0 then InRight(cur) else InLeft(cur);
      WalkAt(h, t, w, depth - 1, next) && t.cells.Has(next)
  {
    WalkDown(h, t, w, depth, slot);
    NextBit(start, w.len, h.bits, depth);
  }

  ghost predicate NodesKept(h: Shape, a: Cells, b: Cells) {
    && |a.left| == |b.left| && |a.right| == |b.right|
    && (forall i {:trigger b.left[i]} :: 0 <= i < |a.left| && !(h.n <= i < h.n + |h.inner|) ==> b.left[i] == a.left[i])
    && (forall i {:trigger b.right[i]} :: 0 <= i < |a.right| && !(h.n <= i < h.n + |h.inner|) ==> b.right[i] == a.right[i])
  }

  lemma NothingMoved(h: Shape, a: Cells)
    ensures NodesKept(h, a, a)
  {
  }

  lemma ExtendsKept(h: Shape, a: Cells, b: Cells, c: Cells)
    requires NodesKept(h, a, b) && Extends(h, b, c)
    ensures NodesKept(h, a, c)
  {
  }

  lemma CompleteOf(h: Shape, lens: seq<U8>)
    requires ShapeFor(h, lens)
    ensures Complete(lens) && Usable(lens, h.bits)
  {
  }

  /** What is known of the running entry of symbol `c` and of the next one. */
  lemma SymbolReady(h: Shape, lens: seq<U8>, t: Tree, c: nat, start: seq<U16>)
    requires Entered(h, lens, t, c) && HasCode(lens, c) && h.bits < 16 && StartsAt(lens, h.bits, c, start)
    ensures var l, w := lens[c], Weight(h.bits, lens[c]);
      && start[l] == Codeword(lens, c) * w
      && (l <= h.bits ==> start[l] + w < 0x1_0000)
      && StartsAt(lens, h.bits, c + 1, start[l := (start[l] + w) % 0x1_0000])
      && (l > h.bits ==> Shr(start[l], 16 - l) == Codeword(lens, c) && Grown(h, t) && Fits(h, Walk(Codeword(lens, c), l, c)))
  {
    hide Grown, Fits, Complete, Codeword, Weight, StartsAt, Pow2, Shr, PlantedBelow;
    CompleteOf(h, lens);
    EntryOfSymbol(lens, h.bits, c, start);
    StartsStep(lens, h.bits, c, start);
    if lens[c] <= h.bits {
      PowFits(h.bits);
    } else {
      LongFits(h, lens, c);
    }
  }

  lemma SymbolRoom(h: Shape, lens: seq<U8>, t: Tree, c: nat, start: seq<U16>)
    requires Entered(h, lens, t, c) && HasCode(lens, c) && lens[c] <= h.bits < 16 && StartsAt(lens, h.bits, c, start)
    ensures start[lens[c]] + Weight(h.bits, lens[c]) <= Pow2(h.bits)
  {
    hide Grown, Complete, Codeword, Weight, StartsAt, Pow2, Shr, PlantedBelow;
    CompleteOf(h, lens);
    EntryOfSymbol(lens, h.bits, c, start);
  }

  lemma ShortEntered(h: Shape, lens: seq<U8>, t: Tree, first: Cells, cells: Cells, c: nat, lo: nat, hi: nat)
    requires Entered(h, lens, t, c) && NodesKept(h, first, t.cells) && HasCode(lens, c) && lens[c] <= h.bits
    requires lo == Codeword(lens, c) * Weight(h.bits, lens[c]) && hi == lo + Weight(h.bits, lens[c])
    requires cells.left == t.cells.left && cells.right == t.cells.right && |cells.table| == |t.cells.table|
    requires forall i {:trigger cells.table[i]} :: 0 <= i < |cells.table| ==> cells.table[i] == if lo <= i < hi then c else t.cells.table[i]
    ensures Entered(h, lens, t.(cells := cells), c + 1) && NodesKept(h, first, cells)
  {
    hide Entered, ShortStep, Codeword, Weight;
    FilledIsShortStep(lens, h.bits, t.cells, cells, c, lo, hi);
    EnterShortKeeps(h, lens, t, cells, c);
  }

  lemma LongEntered(h: Shape, lens: seq<U8>, t: Tree, first: Cells, t': Tree, c: nat)
    requires Entered(h, lens, t, c) && NodesKept(h, first, t.cells) && HasCode(lens, c) && lens[c] > h.bits
    requires Grown(h, t') && Extends(h, t.cells, t'.cells)
    requires t'.leaves == t.leaves[(lens[c] as nat, Codeword(lens, c)) := c]
    ensures Entered(h, lens, t', c + 1) && NodesKept(h, first, t'.cells)
  {
    hide Entered, Grown, Extends, NodesKept, Codeword;
    EnterLongKeeps(h, lens, t, t', c);
    ExtendsKept(h, first, t.cells, t'.cells);
  }

  lemma SkipSymbol(h: Shape, lens: seq<U8>, t: Tree, c: nat, start: seq<U16>)
    requires c < |lens| && !HasCode(lens, c)
    requires Entered(h, lens, t, c) && StartsAt(lens, h.bits, c, start)
    ensures Entered(h, lens, t, c + 1) && StartsAt(lens, h.bits, c + 1, start)
  {
    hide Grown, ShapeFor;
    forall l {:trigger start[l]} | 1 <= l <= 16 && Count(lens[..c + 1], l) < Count(lens, l)
      ensures start[l] == NextEntry(lens, h.bits, c + 1, l)
    {
      CountStep(lens, c, l);
    }
  }

  lemma FinishTable(h: Shape, lens: seq<U8>, a: Cells, t: Tree)
    requires Entered(h, lens, t, |lens|) && NodesKept(h, a, t.cells)
    ensures Decodes(lens, h.bits, t.cells) && OnlyFrom(|lens|, a, t.cells)
  {
    hide Grown, Decodes, PlantedBelow;
    ShapeFacts(h, lens);
    PlantedDecodes(h, lens, t);
  }

  /** No symbol has a codeword. */
  predicate NoLengths(lens: seq<U8>) {
    forall i :: 0 <= i < |lens| ==> lens[i] == 0
  }

  lemma HasLength(lens: seq<U8>, c: nat)
    requires c < |lens| && lens[c] != 0
    ensures !NoLengths(lens)
  {
  }

  /** Without codewords no points are taken, so the sums are zero. */
  lemma NothingTaken(lens: seq<U8>)
    requires NoLengths(lens)
    ensures forall l {:trigger Cum(lens, l)} :: 1 <= l <= 17 ==> Cum(lens, l) == 0
  {
    forall l {:trigger Cum(lens, l)} | 1 <= l <= 17 ensures Cum(lens, l) == 0 {
      NothingTakenTo(lens, l);
    }
  }

  lemma {:induction false} NothingTakenTo(lens: seq<U8>, l: nat)
    requires NoLengths(lens) && 1 <= l <= 17
    ensures Cum(lens, l) == 0
    decreases l
  {
    hide Share;
    if l > 1 {
      NothingTakenTo(lens, l - 1);
      NoneOfLength(lens, l - 1);
    }
  }

  lemma {:induction false} NoneOfLength(lens: seq<U8>, l: nat)
    requires NoLengths(lens) && l >= 1
    ensures Count(lens, l) == 0
    decreases |lens|
  {
    if lens != [] {
      NoneOfLength(lens[..|lens| - 1], l);
    }
  }

  /** A table that shows a code set shows a symbol at every place. */
  lemma ShownIsValid(codes: Codes, n: nat, bits: nat, cells: Cells)
    requires TableShows(codes, n, bits, cells)
    ensures ValidCodes(codes, n)
  {
  }

  /** The cells decode the code set `codes` of `n` symbols. */
  ghost predicate TableShows(codes: Codes, n: nat, bits: nat, cells: Cells) {
    match codes
    case Single(c) => c < n && forall i :: 0 <= i < |cells.table| ==> cells.table[i] == c
    case Prefix(lens) => |lens| == n && Usable(lens, bits) && Decodes(lens, bits, cells)
  }

  /** The length array holds the lengths of `codes`. */
  ghost predicate LensShow(codes: Codes, n: nat, lens: seq<U8>) {
    n <= |lens| &&
    match codes
    case Single(c) => c < n && lens[c] == 0
    case Prefix(l) => l == lens[..n]
  }

  /** Number of bits of the symbol `c`. */
  ghost function Width(codes: Codes, c: nat): nat
    requires codes.Prefix? ==> c < |codes.lens|
  {
    match codes
    case Single(_) => 0
    case Prefix(lens) => lens[c]
  }

  /** A lookup that is to succeed starts a walk of at most 16 bits in all. */
  lemma LookupWalk(codes: Codes, n: nat, bits: nat, cells: Cells, s: seq<bool>, pos: nat) returns (c: nat, m: nat)
    requires TableShows(codes, n, bits, cells) && ReadSymbol(codes, s, pos).Some?
    requires |cells.table| == Pow2(bits) && bits < 16
    ensures BitsAt(s, pos, bits) < |cells.table|
    ensures ReadSymbol(codes, s, pos).value.0 == c && (codes.Prefix? ==> c < |codes.lens|)
    ensures ReadSymbol(codes, s, pos).value.1 == pos + Width(codes, c)
    ensures bits + m <= 16 && Descends(cells, n, cells.table[BitsAt(s, pos, bits)], s, pos + bits, m, c)
  {
    hide Pow2, Decodes;
    BitsAtBound(s, pos, bits);
    match codes
    case Single(sym) =>
      c, m := sym, 0;
    case Prefix(lens) =>
      c := ReadSymbol(codes, s, pos).value.0;
      SymbolMatches(lens, s, pos);
      LookupStart(lens, bits, cells, s, pos, c);
      m := if lens[c] <= bits then 0 else lens[c] - bits;
  }

  lemma SymbolMatches(lens: seq<U8>, s: seq<bool>, pos: nat)
    requires ReadSymbol(Prefix(lens), s, pos).Some?
    ensures var r := ReadSymbol(Prefix(lens), s, pos).value;
      Matches(lens, r.0, s, pos) && r.1 == pos + lens[r.0]
  {
    hide Codeword, BitsAt;
  }

  /** The nodes of the character tree are as before. */
  ghost predicate HighNodesKept(left: seq<U16>, right: seq<U16>, left': seq<U16>, right': seq<U16>) {
    && |left'| == |left| && |right'| == |right|
    && (forall i {:trigger left'[i]} :: NC <= i < |left| ==> left'[i] == left[i])
    && (forall i {:trigger right'[i]} :: NC <= i < |right| ==> right'[i] == right[i])
  }

  /** The mask selects the window bit that shows stream bit `pos + 31 - k`. */
  lemma WindowBit(s: seq<bool>, pos: int, buf: U32, k: nat)
    requires Window(s, pos, buf) && k <= 31
    ensures And(Pow2(k), buf) != 0 <==> Bit(s, pos + 31 - k)
  {
    hide Pow2, And, Bit;
    AndMask(buf, k);
  }

  lemma SmallBits(s: seq<bool>, pos: int, n: nat)
    requires n <= 5
    ensures BitsAt(s, pos, n) <= 31
  {
    BitsAtBound(s, pos, n);
    Pow2Monotone(n, 5);
    assert Pow2(5) == 32;
  }

  lemma SingleShows(c: nat, n: nat, cells: Cells, lens: seq<U8>)
    requires c < n <= |lens| && lens[..n] == Zeros(n)
    requires forall i :: 0 <= i < |cells.table| ==> cells.table[i] == c
    ensures TableShows(Single(c), n, 8, cells) && LensShow(Single(c), n, lens)
  {
    assert lens[c] == lens[..n][c];
  }

  /** A complete code over at most 31 symbols: the rebuilt table shows it and
      no node from 510 on was touched. */
  lemma PrefixShows(code: seq<U8>, before: Cells, after: Cells, lens: seq<U8>)
    requires 1 <= |code| <= NPT && |code| <= |lens| && lens[..|code|] == code && Complete(code)
    requires Usable(code, 8) ==> Decodes(code, 8, after) && OnlyFrom(|code|, before, after)
    ensures Usable(code, 8)
    ensures TableShows(Prefix(code), |code|, 8, after) && LensShow(Prefix(code), |code|, lens)
    ensures HighNodesKept(before.left, before.right, after.left, after.right)
  {
    hide Decodes, Complete;
    assert Share(9) == 128;
  }

  lemma TwelveBits()
    ensures Pow2(12) == 4096
  {
  }

  lemma CharBits(s: seq<bool>, pos: int)
    ensures BitsAt(s, pos, CBIT) < 512
  {
    BitsAtBound(s, pos, CBIT);
    assert Pow2(9) == 512;
  }

  lemma CharSingleShows(c: nat, cells: Cells, lens: seq<U8>)
    requires c < NC == |lens| && lens[..NC] == Zeros(NC)
    requires forall i :: 0 <= i < |cells.table| ==> cells.table[i] == c
    ensures TableShows(Single(c), NC, 12, cells) && LensShow(Single(c), NC, lens)
  {
    assert lens[c] == lens[..NC][c];
  }

  lemma CharPrefixShows(code: seq<U8>, after: Cells, lens: seq<U8>)
    requires |code| == NC == |lens| && lens[..NC] == code && Complete(code)
    requires Usable(code, 12) ==> Decodes(code, 12, after)
    ensures Usable(code, 12)
    ensures TableShows(Prefix(code), NC, 12, after) && LensShow(Prefix(code), NC, lens)
  {
    hide Decodes, Complete;
    assert Share(13) == 8;
  }

  lemma SymbolWidth(codes: Codes, n: nat, bits: nat, cells: Cells, lens: seq<U8>, s: seq<bool>, pos: nat)
    requires TableShows(codes, n, bits, cells) && LensShow(codes, n, lens) && ReadSymbol(codes, s, pos).Some?
    ensures var r := ReadSymbol(codes, s, pos).value;
      r.0 < n && r.1 == pos + lens[r.0]
  {
    hide Decodes, Usable;
    match codes
    case Single(_) =>
    case Prefix(l) =>
      SymbolMatches(l, s, pos);
      var c := ReadSymbol(codes, s, pos).value.0;
      assert lens[..n][c] == lens[c];
  }

  lemma LiteralRun(s: seq<bool>, c: nat, pos: nat)
    requires 3 <= c < NT
    ensures ReadRun(s, c, pos) == ([c - 2], pos)
  {
  }

  /** Rebuilding the position table leaves the character table as it was. */
  lemma ChShowFrame(codes: Codes, cells: Cells, left': seq<U16>, right': seq<U16>)
    requires TableShows(codes, NC, 12, cells) && HighNodesKept(cells.left, cells.right, left', right')
    ensures TableShows(codes, NC, 12, Cells(cells.table, left', right'))
  {
    hide Decodes, Usable;
    match codes
    case Single(_) =>
    case Prefix(lens) =>
      DecodesFrame(lens, 12, cells, left', right');
  }

  lemma PositionBound(s: seq<bool>, pos: int, extra: nat)
    requires extra <= 29
    ensures Pow2(extra) + BitsAt(s, pos, extra) < 0x4000_0000
  {
    hide BitsAt;
    BitsAtBound(s, pos, extra);
    Pow2Monotone(extra, 29);
    Pow2Sum(13, 16);
    assert Pow2(13) == 8192 && Pow2(16) == 65536;
  }

  lemma CopyUnfold(x: seq<U8>, dist: nat, len: nat)
    requires 1 <= dist <= |x| && len >= 1
    ensures Copy(x, dist, len) == Copy(x + [x[|x| - dist]], dist, len - 1)
  {
  }

  class Decoder {
    const src: seq<U8>
    const total: nat
    var inBuf: nat
    var compSize: nat
    const origSize: nat
    const out: array<U8>
    var outPos: nat
    var bitCount: U16
    var bitBuf: U32
    var subBitBuf: U32
    var blockSize: U16
    const left: array<U16>
    const right: array<U16>
    const cLen: array<U8>
    const ptLen: array<U8>
    const cTable: array<U16>
    const ptTable: array<U16>
    const pBit: U16

    /** Bits consumed so far (negative before the first fill), and bytes
        fetched, padding included. */
    ghost var pos: int
    ghost var fetched: nat

    /** Where the format says reading stands, as long as the input has a meaning. */
    ghost var cursor: Option<Cursor>

    ghost function Stream(): seq<bool> {
      BytesBits(src, Min(total, |src|))
    }

    /** The window shows the next 32 bits of the stream. */
    ghost predicate WindowOk()
      reads `inBuf, `compSize, `bitCount, `bitBuf, `subBitBuf, `pos, `fetched
    {
      && total <= |src|
      && bitCount <= 8
      && inBuf == Min(fetched, total) && compSize == total - inBuf
      && pos + 32 == 8 * fetched - bitCount
      && ByteInHand(Stream(), fetched, subBitBuf)
      && Window(Stream(), pos, bitBuf)
    }

    method FillBuf(numBits: U16)
      requires WindowOk() && numBits < 64
      modifies `inBuf, `compSize, `bitCount, `bitBuf, `subBitBuf, `pos, `fetched
      ensures WindowOk() && pos == old(pos) + numBits
    {
      hide ByteInHand, Partial, Window, BytesBits, Shl, Shr, Or;
      var n: U16 := numBits;
      ghost var s, end := Stream(), pos + 32 + numBits;
      ShiftOut(s, pos, bitBuf, n);
      bitBuf := Shl(bitBuf, n);
      while n > bitCount
        invariant bitCount <= 8
        invariant inBuf == Min(fetched, total) && compSize == total - inBuf
        invariant 8 * fetched - bitCount == end - n
        invariant ByteInHand(s, fetched, subBitBuf)
        invariant Partial(s, end, n, bitBuf)
        decreases n, if bitCount == 0 then 1 else 0
      {
        TakeByte(s, end, n, bitCount, bitBuf, fetched, subBitBuf);
        n := n - bitCount;
        bitBuf := Or(bitBuf, Shl(subBitBuf, n));
        if compSize > 0 {
          FetchedByte(src, total, fetched);
          compSize := compSize - 1;
          subBitBuf := src[inBuf];
          inBuf := inBuf + 1;
          bitCount := 8;
        } else {
          PaddingByte(src, total, fetched);
          subBitBuf := 0;
          bitCount := 8;
        }
        fetched := fetched + 1;
      }
      TakeTop(s, end, n, bitCount, bitBuf, fetched, subBitBuf);
      bitCount := bitCount - n;
      bitBuf := Or(bitBuf, Shr(subBitBuf, bitCount));
      pos := end - 32;
    }

    method GetBits(numBits: U16) returns (bits: U32)
      requires WindowOk() && numBits <= 32
      modifies `inBuf, `compSize, `bitCount, `bitBuf, `subBitBuf, `pos, `fetched
      ensures WindowOk() && pos == old(pos) + numBits
      ensures bits == BitsAt(Stream(), old(pos), numBits)
    {
      if numBits == 0 {
        return 0;
      }
      WindowTop(Stream(), pos, bitBuf, numBits);
      ShrShrinks(bitBuf, BITBUF - numBits);
      bits := Shr(bitBuf, BITBUF - numBits);
      FillBuf(numBits);
    }

    /** Every cell is an index into the node arrays, whatever the input was. */
    ghost predicate CellsOk()
      reads left, right, cTable, ptTable
    {
      && left.Length == right.Length == NODES && left != right
      && cTable.Length == 4096 && ptTable.Length == 256
      && (forall i :: 0 <= i < NODES ==> left[i] < NODES)
      && (forall i :: 0 <= i < NODES ==> right[i] < NODES)
      && (forall i :: 0 <= i < 4096 ==> cTable[i] < NODES)
      && (forall i :: 0 <= i < 256 ==> ptTable[i] < NODES)
    }

    function Table(which: Which): array<U16> {
      if which == Pt then ptTable else cTable
    }

    ghost function View(which: Which): Cells
      reads left, right, Table(which)
    {
      Cells(Table(which)[..], left[..], right[..])
    }

    function SlotGet(slot: Slot, which: Which): U16
      requires View(which).Has(slot)
      reads left, right, Table(which)
      ensures SlotGet(slot, which) == View(which).Get(slot)
    {
      match slot
      case InTable(i) => Table(which)[i]
      case InLeft(i) => left[i]
      case InRight(i) => right[i]
    }

    method SlotSet(slot: Slot, which: Which, value: U16)
      requires CellsOk() && View(which).Has(slot) && value < NODES
      modifies left, right, Table(which)
      ensures CellsOk() && View(which) == old(View(which)).Put(slot, value)
    {
      match slot
      case InTable(i) => Table(which)[i] := value;
      case InLeft(i) => left[i] := value;
      case InRight(i) => right[i] := value;
    }

    /** The node at `pointer`, allocated if the cell is empty and numbers are left. */
    method EnterNode(which: Which, pointer: Slot, avail: U16,
        ghost good: bool, ghost h: Shape, ghost t: Tree, ghost w: Walk, ghost depth: nat)
      returns (cur: U16, avail': U16, ghost t': Tree)
      requires CellsOk() && View(which).Has(pointer) && avail <= NODES
      requires good ==> t.cells == View(which) && t.avail == avail && 0 < depth <= w.len
      requires good ==> Fits(h, w) && WalkAt(h, t, w, depth, pointer)
      modifies left, right, Table(which)
      ensures CellsOk() && avail <= avail' <= NODES && cur < NODES
      ensures View(which).Has(pointer)
      ensures good ==> t'.cells == View(which) && t'.avail == avail' && t'.leaves == t.leaves
      ensures good ==> WalkAt(h, t', w, depth, pointer) && Extends(h, t.cells, t'.cells)
      ensures good ==> KeyAt(w, depth) in t'.nodes && t'.nodes[KeyAt(w, depth)] == cur
    {
      hide Grown, Fits, WalkAt, Reached, KeyAt;
      cur := SlotGet(pointer, which);
      avail' := avail;
      t' := t;
      if good {
        WalkCell(h, t, w, depth, pointer);
      }
      if cur == 0 && avail < NODES {
        right[avail] := 0;
        left[avail] := 0;
        SlotSet(pointer, which, avail);
        if good {
          WalkAdds(h, t, w, depth, pointer);
          t' := WithNode(h, t, KeyAt(w, depth));
        }
        avail' := avail + 1;
      }
      cur := SlotGet(pointer, which);
    }

    /** Enters the codeword `start >> (16 - len)` of symbol `c`, longer than the
        flat table is wide. The ghost tree is followed only if `good`. */
    method EnterLong(which: Which, start: U16, len: U16, bits: U16, c: U16, avail: U16,
        ghost good: bool, ghost h: Shape, ghost t: Tree)
      returns (avail': U16, ghost t': Tree)
      requires CellsOk() && bits < len <= 16 && Pow2(bits) == Table(which).Length
      requires c < 510 && avail <= NODES
      requires good ==> Grown(h, t) && t.cells == View(which) && t.avail == avail && h.bits == bits
      requires good ==> Fits(h, Walk(Shr(start, 16 - len), len, c))
      modifies left, right, Table(which)
      ensures CellsOk() && avail <= avail' <= NODES
      ensures good ==> Grown(h, t') && t'.cells == View(which) && t'.avail == avail'
      ensures good ==> t'.leaves == t.leaves[(len as nat, Shr(start, 16 - len)) := c]
      ensures good ==> Extends(h, t.cells, t'.cells)
    {
      hide Grown, Fits, WalkAt, Reached, SlotOf, KeyAt, Shl, And, TestBit, Pow2;
      ghost var w := Walk(Shr(start, 16 - len), len, c);
      var juBits := 16 - bits;
      var mask := Pow2(15 - bits);
      var index3: U32 := start;
      avail' := avail;
      t' := t;
      ShrTable(start, bits);
      var pointer := InTable(Shr(index3, juBits));
      var depth: U16 := len - bits;
      ghost var k := 0;
      if good {
        ShrSum(start, 16 - len, len - bits);
        WalkStart(h, t, w);
      }
      Shl0(start);
      while depth != 0
        invariant 0 <= depth <= len - bits && k == len - bits - depth
        invariant CellsOk() && View(which).Has(pointer)
        invariant avail <= avail' <= NODES
        invariant index3 == Shl(start, k)
        invariant good ==> t'.cells == View(which) && t'.avail == avail'
        invariant good ==> WalkAt(h, t', w, depth, pointer)
        invariant good ==> t'.leaves == t.leaves
        invariant good ==> Extends(h, t.cells, t'.cells)
        decreases depth
      {
        var cur;
        ghost var before := t'.cells;
        cur, avail', t' := EnterNode(which, pointer, avail', good, h, t', w, depth);
        if cur < NODES {
          if good {
            ExtendsTransitive(h, t.cells, before, t'.cells);
            MaskedDown(h, t', w, depth, pointer, start, cur);
          }
          pointer := if And(mask, index3) != 0 then InRight(cur) else InLeft(cur);
        }
        ShlStep(start, k);
        index3 := Shl(index3, 1);
        depth := depth - 1;
        k := k + 1;
      }
      if good {
        WalkEnd(h, t', w, pointer);
        ExtendsTransitive(h, t.cells, t'.cells, WithLeaf(h, t', (len as nat, w.code), c).cells);
        t' := WithLeaf(h, t', (len as nat, w.code), c);
      }
      SlotSet(pointer, which, c);
    }

    /** Fills the flat cells `lo <= i < hi` with `c`. */
    method EnterShort(which: Which, lo: nat, hi: nat, c: U16) returns (r: Result<(), DecompressError>)
      requires CellsOk() && c < 510
      modifies Table(which)
      ensures CellsOk() && View(which).left == old(View(which)).left && View(which).right == old(View(which)).right
      ensures r.Ok? <==> hi <= Table(which).Length || hi <= lo
      ensures r.Ok? ==> forall i {:trigger Table(which)[i]} :: 0 <= i < Table(which).Length ==>
                Table(which)[i] == if lo <= i < hi then c else old(Table(which)[i])
    {
      var idx := lo;
      while idx < hi
        invariant lo <= idx && (idx <= hi || idx == lo)
        invariant idx <= Table(which).Length || idx == lo
        invariant CellsOk()
        invariant forall i {:trigger Table(which)[i]} :: 0 <= i < Table(which).Length ==>
                    Table(which)[i] == if lo <= i < idx then c else old(Table(which)[i])
      {
        if idx >= Table(which).Length {
          return Err(Corrupted);
        }
        Table(which)[idx] := c;
        idx := idx + 1;
      }
      return Ok(());
    }

    /** Zeroes the flat table from `lo` on. */
    method ClearFrom(which: Which, lo: nat)
      requires CellsOk() && lo <= Table(which).Length
      modifies Table(which)
      ensures CellsOk() && View(which).left == old(View(which)).left && View(which).right == old(View(which)).right
      ensures forall i {:trigger Table(which)[i]} :: 0 <= i < Table(which).Length ==>
                Table(which)[i] == if i < lo then old(Table(which)[i]) else 0
    {
      for i := lo to Table(which).Length
        invariant CellsOk()
        invariant forall j {:trigger Table(which)[j]} :: 0 <= j < Table(which).Length ==>
                    Table(which)[j] == if lo <= j < i then 0 else old(Table(which)[j])
      {
        Table(which)[i] := 0;
      }
    }

    /** Enters the codeword of symbol `c`. */
    method EnterSymbol(which: Which, lens: seq<U8>, c: nat, start: seq<U16>, weight: seq<U16>, bits: U16, avail: U16,
        ghost good: bool, ghost h: Shape, ghost t: Tree, ghost first: Cells)
      returns (r: Result<(), DecompressError>, start': seq<U16>, avail': U16, ghost t': Tree)
      requires CellsOk() && 1 <= bits < 16 && c < |lens| <= 510 && 1 <= lens[c] <= 16 && Table(which).Length == Pow2(bits)
      requires |start| == 18 && |weight| == 17 && weight[lens[c]] == Weight(bits, lens[c]) && avail <= NODES
      requires good ==> h.bits == bits && StartsAt(lens, bits, c, start) && Entered(h, lens, t, c)
      requires good ==> t.cells == View(which) && t.avail == avail && NodesKept(h, first, t.cells)
      modifies left, right, Table(which)
      ensures CellsOk() && |start'| == 18 && avail' <= NODES
      ensures good ==> r.Ok? && StartsAt(lens, bits, c + 1, start') && Entered(h, lens, t', c + 1)
      ensures good ==> t'.cells == View(which) && t'.avail == avail' && NodesKept(h, first, t'.cells)
    {
      hide StartsAt, Weight, Entered, NodesKept, Grown, Fits, Extends, Codeword, Pow2, Shr;
      start', avail', t' := start, avail, t;
      var len: nat := lens[c];
      var nextCode: U16 := (start[len] as int + weight[len] as int) % 0x1_0000;
      if good {
        SymbolReady(h, lens, t, c, start);
      }
      if len <= bits {
        var filled := EnterShort(which, start[len], nextCode, c);
        if good {
          SymbolRoom(h, lens, t, c, start);
        }
        if filled.Err? {
          r := Err(Corrupted);
          return;
        }
        if good {
          ShortEntered(h, lens, t, first, View(which), c, start[len], nextCode);
          t' := t.(cells := View(which));
        }
      } else {
        avail', t' := EnterLong(which, start[len], len, bits, c, avail, good, h, t);
        if good {
          LongEntered(h, lens, t, first, t', c);
        }
      }
      start' := start[len := nextCode];
      r := Ok(());
    }

    /** Enters the codewords of all symbols, in symbol order. */
    method EnterAll(which: Which, lens: seq<U8>, start0: seq<U16>, weight: seq<U16>, bits: U16,
        ghost good: bool, ghost h: Shape, ghost t0: Tree)
      returns (r: Result<(), DecompressError>)
      requires CellsOk() && 1 <= bits < 16 && 1 <= |lens| <= 510 && Table(which).Length == Pow2(bits)
      requires forall i :: 0 <= i < |lens| ==> lens[i] <= 16
      requires |start0| == 18 && |weight| == 17
      requires forall l {:trigger weight[l]} :: 1 <= l <= 16 ==> weight[l] == Weight(bits, l)
      requires good ==> h.bits == bits && StartsAt(lens, bits, 0, start0)
      requires good ==> Entered(h, lens, t0, 0) && t0.cells == View(which) && t0.avail == |lens|
      modifies left, right, Table(which)
      ensures CellsOk()
      ensures good ==> r.Ok? && Decodes(lens, bits, View(which)) && OnlyFrom(|lens|, t0.cells, View(which))
      ensures NoLengths(lens) ==> r.Ok? && View(which) == old(View(which))
    {
      hide StartsAt, Decodes, OnlyFrom, Weight, Entered, NodesKept, NoLengths, Pow2;
      var start: seq<U16> := start0;
      var avail: U16 := |lens|;
      ghost var t := t0;
      NothingMoved(h, t0.cells);
      for c := 0 to |lens|
        invariant CellsOk() && |start| == 18 && avail <= NODES
        invariant good ==> StartsAt(lens, bits, c, start) && Entered(h, lens, t, c)
        invariant good ==> t.cells == View(which) && t.avail == avail && NodesKept(h, t0.cells, t.cells)
        invariant NoLengths(lens) ==> View(which) == old(View(which))
      {
        var len := lens[c];
        if len == 0 || len >= 17 {
          if good {
            SkipSymbol(h, lens, t, c, start);
          }
          continue;
        }
        HasLength(lens, c);
        assert weight[len] == Weight(bits, len);
        r, start, avail, t := EnterSymbol(which, lens, c, start, weight, bits, avail, good, h, t, t0.cells);
        if r.Err? {
          return r;
        }
      }
      if good {
        FinishTable(h, lens, t0.cells, t);
      }
      return Ok(());
    }

    function Lens(which: Which): array<U8> {
      if which == Pt then ptLen else cLen
    }

    /** Clears the flat cells that long codewords will use. */
    method ClearLong(which: Which, startLong: U16, bits: U16, ghost good: bool, ghost lens: seq<U8>, ghost cum: seq<U16>, ghost start: seq<U16>)
      returns (ghost h: Shape, ghost t: Tree)
      requires CellsOk() && 1 <= bits < 16 && Table(which).Length == Pow2(bits)
      requires good ==> Usable(lens, bits) && |cum| == |start| == 18
      requires good ==> cum[bits + 1] == Cum(lens, bits + 1) % 0x1_0000 && startLong == start[bits + 1] == cum[bits + 1]
      modifies Table(which)
      ensures CellsOk()
      ensures View(which).left == old(View(which)).left && View(which).right == old(View(which)).right
      ensures startLong == 0 ==> View(which) == old(View(which))
      ensures good ==> h.bits == bits && Entered(h, lens, t, 0) && t.cells == View(which) && t.avail == |lens|
    {
      hide KraftSum, FirstCode, Count, LongFrom, Cum, Shr, Pow2, Entered, Complete, Inners;
      var zeroFrom := Shr(startLong, 16 - bits);
      ShrTable(startLong, bits);
      ShrShrinks(startLong, 16 - bits);
      if zeroFrom != 0 && zeroFrom < Table(which).Length {
        ClearFrom(which, zeroFrom);
      }
      h, t := Shape(bits, |lens|, {}), Tree(View(which), map[], map[], |lens|);
      if good {
        ClearedEnough(lens, bits, cum, start, zeroFrom);
        h := h.(inner := Inners(lens, bits));
        EmptyTree(h, lens, View(which));
      }
    }

    /** Builds the decoding table of the first `numOfChar` code lengths. Whatever
        the lengths and the leftovers of earlier tables are, the cells stay
        usable; for a complete code the table decodes it. */
    method MakeTable(numOfChar: U16, tableBits: U16, which: Which) returns (r: Result<(), DecompressError>)
      requires CellsOk() && 1 <= tableBits && 1 <= numOfChar <= 510 && numOfChar <= Lens(which).Length
      requires tableBits < 16 ==> Table(which).Length == Pow2(tableBits)
      modifies left, right, Table(which)
      ensures CellsOk()
      ensures var lens := old(Lens(which)[..numOfChar]);
        (Usable(lens, tableBits) ==> r.Ok? && Decodes(lens, tableBits, View(which)) && OnlyFrom(numOfChar, old(View(which)), View(which)))
        && (r.Ok? ==> (forall i :: 0 <= i < |lens| ==> lens[i] <= 16) && KraftSum(lens) % 0x1_0000 == 0)
        && (tableBits < 16 && NoLengths(lens) ==> r.Ok? && View(which) == old(View(which)))
    {
      hide KraftSum, FirstCode, Count, LongFrom, Cum, Pow2, Shr, Decodes, OnlyFrom, StartsAt, Weight, Entered;
      if tableBits >= 16 {
        return Err(Corrupted);
      }
      var lens := Lens(which)[..numOfChar];
      ghost var good := Usable(lens, tableBits);
      var count :- CountLengths(lens);
      var cum := FirstPoints(count, lens);
      CumKraft(lens);
      if NoLengths(lens) {
        NothingTaken(lens);
      }
      if cum[17] != 0 {
        return Err(Corrupted);
      }
      var start, weight := ScaleStarts(cum, tableBits);
      if good {
        StartsInit(lens, tableBits, cum, start);
      }
      ghost var h, t := ClearLong(which, start[tableBits + 1], tableBits, good, lens, cum, start);
      ghost var before := View(which);
      r := EnterAll(which, lens, start, weight, tableBits, good, h, t);
      if good {
        OnlyFromSame(numOfChar, old(View(which)), before, View(which));
      }
    }

    /** The symbol whose codeword the window shows: a flat cell, then one branch
        per bit of the mask. */
    method Lookup(which: Which, bits: U16, limit: U16, ghost codes: Codes) returns (r: Result<U16, DecompressError>)
      requires WindowOk() && CellsOk() && pos >= 0
      requires 1 <= bits < 16 && Table(which).Length == Pow2(bits)
      ensures r.Ok? ==> r.value < limit
      ensures TableShows(codes, limit, bits, View(which)) && ReadSymbol(codes, Stream(), pos).Some? ==>
                r == Ok(ReadSymbol(codes, Stream(), pos).value.0)
    {
      hide TableShows, ReadSymbol, Shr, Pow2, BitsAt, Descends, ByteInHand, BytesBits, Window;
      ghost var good := TableShows(codes, limit, bits, View(which)) && ReadSymbol(codes, Stream(), pos).Some?;
      ghost var c: nat, m: nat := 0, 0;
      WindowTop(Stream(), pos, bitBuf, bits);
      BitsAtBound(Stream(), pos, bits);
      var val: U16 := Table(which)[Shr(bitBuf, BITBUF - bits)];
      if good {
        c, m := LookupWalk(codes, limit, bits, View(which), Stream(), pos);
        DescendStep(View(which), limit, val, Stream(), pos + bits, m, c);
      }
      if val >= limit {
        r := WalkDown(which, bits, limit, val, good, c, m);
        return r;
      }
      return Ok(val);
    }

    /** From the node `val` on, one branch per window bit behind the first `bits`. */
    method WalkDown(which: Which, bits: U16, limit: U16, val0: U16, ghost good: bool, ghost c: nat, ghost m0: nat) returns (r: Result<U16, DecompressError>)
      requires WindowOk() && CellsOk() && 1 <= bits < 16 && limit <= val0 < NODES
      requires good ==> Descends(View(which), limit, val0, Stream(), pos + bits, m0, c) && 0 < m0 <= 16 - bits
      ensures r.Ok? ==> r.value < limit
      ensures good ==> r == Ok(c)
    {
      hide Pow2, Descends, And, ByteInHand, BytesBits, Window;
      ghost var m: nat := m0;
      var val := val0;
      var mask := Pow2(BITBUF - 1 - bits);
      ghost var k := BITBUF - 1 - bits;
      while true
        invariant limit <= val < NODES
        invariant 0 <= k <= 31 && mask == Pow2(k)
        invariant good ==> Descends(View(which), limit, val, Stream(), pos + 31 - k, m, c) && 0 < m <= k - 15
        decreases k
      {
        WindowBit(Stream(), pos, bitBuf, k);
        if good {
          DescendStep(View(which), limit, val, Stream(), pos + 31 - k, m, c);
        }
        val := if And(mask, bitBuf) != 0 then right[val] else left[val];
        HalfMask(k);
        mask := mask / 2;
        if good {
          m := m - 1;
          DescendStep(View(which), limit, val, Stream(), pos + 32 - k, m, c);
        }
        if val < limit {
          return Ok(val);
        }
        if mask == 0 {
          return Err(Corrupted);
        }
        k := k - 1;
      }
    }

    /** Code lengths never exceed what one refill can drop. */
    ghost predicate LensOk()
      reads cLen, ptLen
    {
      && cLen.Length == NC && ptLen.Length == NPT
      && (forall i :: 0 <= i < NC ==> cLen[i] < 64)
      && (forall i :: 0 <= i < NPT ==> ptLen[i] < 64)
    }

    /** One code length of the 3-bit/unary form. */
    method ReadOneLen() returns (len: U16)
      requires WindowOk() && pos >= 0
      modifies `inBuf, `compSize, `bitCount, `bitBuf, `subBitBuf, `pos, `fetched
      ensures WindowOk() && pos >= old(pos) && len < 64
      ensures ReadLen(Stream(), old(pos)).Some? ==> ReadLen(Stream(), old(pos)).value == (len as U8, pos as nat)
      ensures ReadLen(Stream(), old(pos)).None? ==> len > 16
    {
      hide Shr, ByteInHand, BytesBits, BitsAt, Bit, Window, ReadUnary;
      WindowTop(Stream(), pos, bitBuf, 3);
      BitsAtBound(Stream(), pos, 3);
      assert Pow2(3) == 8;
      len := Shr(bitBuf, BITBUF - 3);
      if len == 7 {
        len := CountOnes(bitBuf, Stream(), pos);
      }
      FillBuf(if len < 7 then 3 else len - 3);
    }

    /** Sets the entries `lo <= i < hi` of a length array to zero. */
    method ClearLens(which: Which, lo: nat, hi: nat)
      requires LensOk() && lo <= hi <= Lens(which).Length
      modifies Lens(which)
      ensures LensOk()
      ensures Lens(which)[..hi] == old(Lens(which)[..lo]) + Zeros(hi - lo)
      ensures forall i :: hi <= i < Lens(which).Length ==> Lens(which)[i] == old(Lens(which)[i])
    {
      for i := lo to hi
        invariant LensOk()
        invariant forall j :: 0 <= j < Lens(which).Length ==> Lens(which)[j] == if lo <= j < i then 0 else old(Lens(which)[j])
      {
        Lens(which)[i] := 0;
      }
    }

    /** Fills the flat table with one symbol. */
    method FillTable(which: Which, c: U16)
      requires CellsOk() && c < NODES
      modifies Table(which)
      ensures CellsOk() && View(which).left == old(View(which)).left && View(which).right == old(View(which)).right
      ensures forall i :: 0 <= i < Table(which).Length ==> Table(which)[i] == c
    {
      for i := 0 to Table(which).Length
        invariant CellsOk()
        invariant forall j :: 0 <= j < i ==> Table(which)[j] == c
      {
        Table(which)[i] := c;
      }
    }

    /** Reads one code length of the list and, behind the special one, the zeros
        that two bits announce. */
    method ReadListedLen(index: nat, special: U16) returns (next: nat)
      requires WindowOk() && LensOk() && pos >= 0 && index < NPT
      modifies `inBuf, `compSize, `bitCount, `bitBuf, `subBitBuf, `pos, `fetched, ptLen
      ensures WindowOk() && LensOk() && pos >= old(pos) && index < next <= NPT
      ensures forall i :: 0 <= i < index ==> ptLen[i] == old(ptLen[i])
      ensures ReadLen(Stream(), old(pos)).None? ==> ptLen[index] > 16
      ensures ReadLen(Stream(), old(pos)).Some? && (special == 3 || special == NEVER) ==>
        var (l, p) := ReadLen(Stream(), old(pos)).value;
        if index + 1 == special then
          ptLen[..next] == old(ptLen[..index]) + [l] + Zeros(BitsAt(Stream(), p, 2)) && pos == p + 2
        else ptLen[..next] == old(ptLen[..index]) + [l] && pos == p
    {
      hide ReadLen, WindowOk, Stream, BitsAt;
      ghost var acc := ptLen[..index];
      var len := ReadOneLen();
      ptLen[index] := len;
      next := index + 1;
      assert ptLen[..next] == acc + [len as U8];
      if next == special {
        var zeros := GetBits(2);
        assert Pow2(2) == 4;
        BitsAtBound(Stream(), pos - 2, 2);
        var stop := if next + zeros <= NPT then next + zeros else NPT;
        ghost var before := ptLen[..next];
        ClearLens(Pt, next, stop);
        assert ptLen[..stop] == before + Zeros(stop - next);
        assert forall i :: 0 <= i < next ==> ptLen[..stop][i] == before[i];
        assert special == 3 ==> stop == next + zeros;
        next := stop;
      }
    }

    /** Reads `number` code lengths into the position table's lengths. */
    method ReadPtLengths(number: nat, special: U16) returns (index: nat)
      requires WindowOk() && LensOk() && pos >= 0 && number <= NPT
      modifies `inBuf, `compSize, `bitCount, `bitBuf, `subBitBuf, `pos, `fetched, ptLen
      ensures WindowOk() && LensOk() && pos >= old(pos) && number <= index <= NPT
      ensures special == 3 || special == NEVER ==>
        var ref := ReadLens(Stream(), old(pos), number, special, []);
        (ref.Some? ==> ref.value == (ptLen[..index], pos as nat))
        && (ref.None? ==> var f := FirstBad(Stream(), old(pos), number, special, []); f < index && ptLen[f] > 16)
    {
      hide ReadLen, ReadLens, FirstBad, WindowOk, LensOk, Stream, BitsAt;
      ghost var s, ref := Stream(), ReadLens(Stream(), pos, number, special, []);
      ghost var f := FirstBad(s, pos, number, special, []);
      ghost var good := special == 3 || special == NEVER;
      assert ptLen.Length == NPT by { LensSizes(); }
      assert ptLen[..0] == [];
      index := 0;
      while index < number && index < NPT
        invariant WindowOk() && LensOk() && pos >= old(pos) && index <= NPT
        invariant good ==> (ref.None? && f < index && ptLen[f] > 16)
                           || (ReadLens(s, pos, number, special, ptLen[..index]) == ref
                               && FirstBad(s, pos, number, special, ptLen[..index]) == f)
        decreases NPT - index
      {
        LensNext(s, pos, number, special, ptLen[..index]);
        index := ReadListedLen(index, special);
      }
      LensEnd(s, pos, number, special, ptLen[..index]);
    }

    lemma LensSizes()
      requires LensOk()
      ensures cLen.Length == NC && ptLen.Length == NPT
    {
    }

    /** A code set of one symbol: every cell holds it and it takes no bits. */
    method SetPtSingle(nn: U16, nbit: U16, ghost keep: Codes)
      requires WindowOk() && CellsOk() && LensOk() && pos >= 0 && 1 <= nn <= NPT && 1 <= nbit <= 5
      modifies `inBuf, `compSize, `bitCount, `bitBuf, `subBitBuf, `pos, `fetched, ptTable, ptLen
      ensures WindowOk() && CellsOk() && LensOk() && pos == old(pos) + nbit
      ensures var c := BitsAt(Stream(), old(pos), nbit); c < nn ==> PtShow(Single(c), nn)
      ensures old(ChShow(keep)) ==> ChShow(keep)
    {
      hide WindowOk, Stream, TableShows, LensShow, BitsAt, Pow2, ChShow;
      SmallBits(Stream(), pos, nbit);
      var c := GetBits(nbit);
      FillTable(Pt, c);
      ClearLens(Pt, 0, nn);
      if c < nn {
        SingleShows(c, nn, View(Pt), ptLen[..]);
      }
    }

    /** Reads the code set of the extra set or of the position set, and leaves
        every character-tree node alone. */
    method ReadPtLen(nn: U16, nbit: U16, special: U16, ghost keep: Codes) returns (r: Result<(), DecompressError>)
      requires WindowOk() && CellsOk() && LensOk() && pos >= 0 && 1 <= nn && 1 <= nbit <= 5
      modifies `inBuf, `compSize, `bitCount, `bitBuf, `subBitBuf, `pos, `fetched, left, right, ptTable, ptLen
      ensures WindowOk() && CellsOk() && LensOk() && pos >= old(pos)
      ensures nn <= NPT && (special == 3 || special == NEVER) ==>
        var ref := ReadPtCodes(Stream(), old(pos), nn, nbit, special);
        (ref.Some? ==> (r.Ok? && pos == ref.value.1 && PtShow(ref.value.0, nn)
                        && (old(ChShow(keep)) ==> ChShow(keep))))
        && (ref.None? && !PtDoubtful(Stream(), old(pos), nn, nbit, special) ==> r.Err?)
    {
      hide ReadPtCodes, PtDoubtful, ReadLens, FirstBad, KraftSum, Complete, Passable, WindowOk, Stream, TableShows, LensShow,
        HighNodesKept, Decodes, Usable, OnlyFrom, NoLengths, BitsAt, Pow2;
      ghost var s, p0: nat := Stream(), pos;
      var number := GetBits(nbit);
      SmallBits(s, p0, nbit);
      if number > NPT || nn > NPT {
        return Err(Corrupted);
      }
      if number == 0 {
        PtUnlisted(s, p0, nn, nbit, special);
        SetPtSingle(nn, nbit, keep);
        return Ok(());
      }
      PtListed(s, p0, nn, nbit, special);
      var index := ReadPtLengths(number, special);
      ghost var f, bad := FirstBad(s, p0 + nbit, number, special, []), ReadLens(s, p0 + nbit, number, special, []).None?;
      ghost var acc := ptLen[..index];
      if index < nn {
        ClearLens(Pt, index, nn);
      }
      assert ptLen[..nn] == Fit(acc, nn);
      r := FinishPtLen(nn, Fit(acc, nn), keep);
      assert r.Ok? ==> (forall i :: 0 <= i < nn ==> Fit(acc, nn)[i] <= 16);
      if (special == 3 || special == NEVER) && bad && f < nn {
        assert Fit(acc, nn)[f] > 16;
      }
    }

    /** Builds the position table from its lengths, which are `lens`. */
    method FinishPtLen(nn: U16, ghost lens: seq<U8>, ghost keep: Codes) returns (r: Result<(), DecompressError>)
      requires CellsOk() && LensOk() && 1 <= nn <= NPT && ptLen[..nn] == lens
      modifies left, right, ptTable
      ensures CellsOk()
      ensures Complete(lens) ==> r.Ok? && PtShow(Prefix(lens), nn) && (old(ChShow(keep)) ==> ChShow(keep))
      ensures r.Ok? ==> (forall i :: 0 <= i < nn ==> lens[i] <= 16) && (Complete(lens) || Passable(lens))
    {
      hide KraftSum, Complete, Passable, TableShows, LensShow, HighNodesKept, Decodes, Usable, OnlyFrom, NoLengths, Pow2;
      ghost var before := View(Pt);
      Pow2Of32();
      r := MakeTable(nn, 8, Pt);
      if r.Ok? {
        CompleteOrPassable(lens);
      }
      if Complete(lens) {
        PrefixShows(lens, before, View(Pt), ptLen[..]);
        if old(ChShow(keep)) {
          ChShowFrame(keep, old(View(Cl)), left[..], right[..]);
        }
      }
    }

    lemma PtShowIsValid(codes: Codes, n: nat)
      requires PtShow(codes, n)
      ensures ValidCodes(codes, n)
    {
      hide TableShows, LensShow, ValidCodes;
      ShownIsValid(codes, n, 8, View(Pt));
    }

    lemma ChShowIsValid(codes: Codes)
      requires ChShow(codes)
      ensures ValidCodes(codes, NC)
    {
      hide TableShows, LensShow, ValidCodes;
      ShownIsValid(codes, NC, 12, View(Cl));
    }

    ghost predicate PtShow(codes: Codes, n: nat)
      reads left, right, ptTable, ptLen
    {
      TableShows(codes, n, 8, View(Pt)) && LensShow(codes, n, ptLen[..])
    }

    ghost predicate ChShow(codes: Codes)
      reads left, right, cTable, cLen
    {
      TableShows(codes, NC, 12, View(Cl)) && LensShow(codes, NC, cLen[..])
    }

    /** Reads one symbol with the position table and drops its bits. */
    method ReadPtSymbol(limit: U16, ghost pt: Codes) returns (r: Result<U16, DecompressError>)
      requires WindowOk() && CellsOk() && LensOk() && pos >= 0 && limit <= NPT
      modifies `inBuf, `compSize, `bitCount, `bitBuf, `subBitBuf, `pos, `fetched
      ensures WindowOk() && pos >= old(pos)
      ensures r.Ok? ==> r.value < limit
      ensures PtShow(pt, limit) && ReadSymbol(pt, Stream(), old(pos)).Some? ==>
                r == Ok(ReadSymbol(pt, Stream(), old(pos)).value.0) && pos == ReadSymbol(pt, Stream(), old(pos)).value.1
    {
      hide WindowOk, Stream, TableShows, Matches;
      assert Pow2(8) == 256 by { Pow2Of32(); }
      var c :- Lookup(Pt, 8, limit, pt);
      if PtShow(pt, limit) && ReadSymbol(pt, Stream(), pos).Some? {
        SymbolWidth(pt, limit, 8, View(Pt), ptLen[..], Stream(), pos);
      }
      FillBuf(ptLen[c]);
      return Ok(c);
    }

    /** Reads one symbol with the character table and drops its bits. */
    method ReadChSymbol(ghost codes: Codes) returns (r: Result<U16, DecompressError>)
      requires WindowOk() && CellsOk() && LensOk() && pos >= 0
      modifies `inBuf, `compSize, `bitCount, `bitBuf, `subBitBuf, `pos, `fetched
      ensures WindowOk() && pos >= old(pos)
      ensures r.Ok? ==> r.value < NC
      ensures ChShow(codes) && ReadSymbol(codes, Stream(), old(pos)).Some? ==>
                r == Ok(ReadSymbol(codes, Stream(), old(pos)).value.0) && pos == ReadSymbol(codes, Stream(), old(pos)).value.1
    {
      hide WindowOk, Stream, TableShows, Matches;
      TwelveBits();
      var c :- Lookup(Cl, 12, NC, codes);
      if ChShow(codes) && ReadSymbol(codes, Stream(), pos).Some? {
        SymbolWidth(codes, NC, 12, View(Cl), cLen[..], Stream(), pos);
      }
      FillBuf(cLen[c]);
      return Ok(c);
    }

    /** The length of a run of zeros. */
    method ReadZeroRun(c: U16) returns (zeros: nat)
      requires WindowOk() && pos >= 0 && c <= 2
      modifies `inBuf, `compSize, `bitCount, `bitBuf, `subBitBuf, `pos, `fetched
      ensures WindowOk() && pos >= old(pos) && zeros >= 1
      ensures ReadRun(Stream(), c, old(pos)) == (Zeros(zeros), pos as nat)
    {
      hide ByteInHand, BytesBits, Window, BitsAt;
      if c == 0 {
        zeros := 1;
      } else if c == 1 {
        var bits := GetBits(4);
        zeros := bits as nat + 3;
      } else {
        var bits := GetBits(CBIT);
        zeros := bits as nat + 20;
      }
    }

    /** Reads one entry of the run-length form: a run of zeros or one length. */
    method ReadRunEntry(index: nat, ghost pt: Codes) returns (r: Result<nat, DecompressError>)
      requires WindowOk() && CellsOk() && LensOk() && pos >= 0 && index < NC
      modifies `inBuf, `compSize, `bitCount, `bitBuf, `subBitBuf, `pos, `fetched, cLen
      ensures WindowOk() && CellsOk() && LensOk() && pos >= old(pos)
      ensures r.Ok? ==> index < r.value <= NC
      ensures PtShow(pt, NT) ==>
        r.Ok? && ReadSymbol(pt, Stream(), old(pos)).Some?
        && var (c, p) := ReadSymbol(pt, Stream(), old(pos)).value;
          c < NT && cLen[..r.value] == Cap(old(cLen[..index]) + ReadRun(Stream(), c, p).0) && pos == ReadRun(Stream(), c, p).1
    {
      hide WindowOk, Stream, CellsOk, TableShows, ReadSymbol, PtShow, BitsAt, LensShow, ReadRun, ValidCodes;
      ghost var acc := cLen[..index];
      if PtShow(pt, NT) {
        PtShowIsValid(pt, NT);
        SymbolShown(pt, NT, Stream(), pos);
      }
      var c :- ReadPtSymbol(NT, pt);
      if c <= 2 {
        var zeros := ReadZeroRun(c);
        var stop := if index + zeros <= NC then index + zeros else NC;
        ClearLens(Cl, index, stop);
        assert cLen[..stop] == Cap(acc + Zeros(zeros));
        return Ok(stop);
      }
      LiteralRun(Stream(), c, pos);
      cLen[index] := c - 2;
      assert cLen[..index + 1] == Cap(acc + [c as int - 2]);
      return Ok(index + 1);
    }

    /** Reads the run-length form of `number` character code lengths. */
    method ReadCLengths(number: nat, ghost pt: Codes) returns (r: Result<nat, DecompressError>)
      requires WindowOk() && CellsOk() && LensOk() && pos >= 0
      modifies `inBuf, `compSize, `bitCount, `bitBuf, `subBitBuf, `pos, `fetched, cLen
      ensures WindowOk() && CellsOk() && LensOk() && pos >= old(pos)
      ensures r.Ok? ==> r.value <= NC
      ensures PtShow(pt, NT) ==> r.Ok? && ReadCLens(Stream(), old(pos), pt, number, []) == Some((cLen[..r.value], pos as nat))
    {
      hide WindowOk, Stream, CellsOk, LensOk, ReadSymbol, ReadCLens, PtShow, ReadRun;
      ghost var s, ref, good := Stream(), ReadCLens(Stream(), pos, pt, number, []), PtShow(pt, NT);
      assert cLen.Length == NC && cLen != ptLen by { LensSizes(); }
      assert cLen[..0] == [];
      var index := 0;
      while index < number && index < NC
        invariant WindowOk() && CellsOk() && LensOk() && pos >= old(pos) && index <= NC
        invariant good ==> PtShow(pt, NT) && ReadCLens(s, pos, pt, number, cLen[..index]) == ref
        decreases NC - index
      {
        ghost var acc, p0: nat := cLen[..index], pos;
        index :- ReadRunEntry(index, pt);
        if good {
          var (c, p) := ReadSymbol(pt, s, p0).value;
          RunNext(s, p0, pt, number, acc, c, p);
        }
      }
      RunsEnd(s, pos, pt, number, cLen[..index]);
      return Ok(index);
    }

    /** Reads the code set of the character set, coded with the extra set. */
    method ReadClen(ghost pt: Codes) returns (r: Result<(), DecompressError>)
      requires WindowOk() && CellsOk() && LensOk() && pos >= 0
      modifies `inBuf, `compSize, `bitCount, `bitBuf, `subBitBuf, `pos, `fetched, left, right, cTable, cLen
      ensures WindowOk() && CellsOk() && LensOk() && pos >= old(pos)
      ensures old(PtShow(pt, NT)) ==>
        var ref := ReadCCodes(Stream(), old(pos), pt);
        (ref.Some? ==> r.Ok? && pos == ref.value.1 && ChShow(ref.value.0))
        && (ref.None? && !ChDoubtful(Stream(), old(pos), pt) ==> r.Err?)
    {
      hide ReadCCodes, ReadCLens, ChDoubtful, Complete, Passable, WindowOk, Stream, BitsAt, PtShow, ChShow;
      ghost var s, p0: nat, good := Stream(), pos, PtShow(pt, NT);
      var number := GetBits(CBIT);
      if number == 0 {
        ChUnlisted(s, p0, pt);
        SetChSingle();
        return Ok(());
      }
      var index :- ReadCLengths(number, pt);
      if good {
        ChListed(s, p0, pt);
      }
      ghost var acc := cLen[..index];
      ClearLens(Cl, index, NC);
      assert cLen[..NC] == Fit(acc, NC);
      r := FinishClen(Fit(acc, NC));
    }

    /** A character set of one symbol. */
    method SetChSingle()
      requires WindowOk() && CellsOk() && LensOk() && pos >= 0
      modifies `inBuf, `compSize, `bitCount, `bitBuf, `subBitBuf, `pos, `fetched, cTable, cLen
      ensures WindowOk() && CellsOk() && LensOk() && pos == old(pos) + CBIT
      ensures var c := BitsAt(Stream(), old(pos), CBIT); c < NC ==> ChShow(Single(c))
    {
      hide WindowOk, Stream, TableShows, LensShow, BitsAt, Pow2;
      CharBits(Stream(), pos);
      var c := GetBits(CBIT);
      ClearLens(Cl, 0, NC);
      FillTable(Cl, c);
      if c < NC {
        CharSingleShows(c, View(Cl), cLen[..]);
      }
    }

    /** Builds the character table from its lengths, which are `lens`. */
    method FinishClen(ghost lens: seq<U8>) returns (r: Result<(), DecompressError>)
      requires CellsOk() && LensOk() && cLen[..NC] == lens
      modifies left, right, cTable
      ensures CellsOk()
      ensures Complete(lens) ==> r.Ok? && ChShow(Prefix(lens))
      ensures r.Ok? ==> Complete(lens) || Passable(lens)
    {
      hide KraftSum, Complete, Passable, TableShows, LensShow, Decodes, Usable, OnlyFrom, NoLengths, Pow2;
      assert Pow2(12) == 4096 by { TwelveBits(); }
      r := MakeTable(NC, 12, Cl);
      if r.Ok? {
        CompleteOrPassable(lens);
      }
      if Complete(lens) {
        CharPrefixShows(lens, View(Cl), cLen[..]);
      }
    }

    ghost predicate CursorOk()
      reads `cursor, `pos, `blockSize, left, right, cTable, ptTable, cLen, ptLen
    {
      cursor.Some? ==>
        && pos == cursor.value.pos && blockSize == cursor.value.left
        && (cursor.value.left > 0 ==> pos > 0)
        && (pos > 0 ==> ChShow(cursor.value.chars) && PtShow(cursor.value.points, MAXNP))
    }

    ghost predicate Valid()
      reads this, left, right, cTable, ptTable, cLen, ptLen
    {
      WindowOk() && StorageOk() && CursorOk() && pos >= 0
    }

    ghost predicate StorageOk()
      reads `outPos, left, right, cTable, ptTable, cLen, ptLen
    {
      && CellsOk() && LensOk() && 4 <= pBit <= 5
      && origSize == out.Length <= MAX_ORIG_SIZE && outPos <= origSize
      && out != cLen && out != ptLen
    }

    /** Reads a block header: size, extra set, character set, position set. The
        position table is built last and leaves the character table intact. */
    method ReadBlockHeader() returns (r: Result<(), DecompressError>)
      requires WindowOk() && CellsOk() && LensOk() && pos >= 0 && 4 <= pBit <= 5
      modifies `inBuf, `compSize, `bitCount, `bitBuf, `subBitBuf, `pos, `fetched, `blockSize,
        left, right, cTable, cLen, ptTable, ptLen
      ensures WindowOk() && CellsOk() && LensOk() && pos >= old(pos) + 16
      ensures var ref := ReadHeader(Stream(), old(pos), pBit);
        (ref.Some? ==> (r.Ok? && pos == ref.value.pos && blockSize == ref.value.left
                        && ChShow(ref.value.chars) && PtShow(ref.value.points, MAXNP)))
        && (ref.None? && !HeaderDoubtful(Stream(), old(pos), pBit) ==> r.Err?)
    {
      hide WindowOk, CellsOk, LensOk, Stream, ChShow, PtShow, ReadPtCodes, ReadCCodes, PtDoubtful, ChDoubtful, BitsAt, Pow2;
      ghost var s, ref := Stream(), ReadHeader(Stream(), pos, pBit);
      ghost var pt, chars := Single(0), Single(0);
      if ReadPtCodes(s, pos + 16, NT, TBIT, 3).Some? {
        pt := ReadPtCodes(s, pos + 16, NT, TBIT, 3).value.0;
      }
      if ref.Some? {
        chars := ref.value.chars;
      }
      BitsAtBound(s, pos, 16);
      Pow2Of32();
      blockSize := GetBits(16);
      var _ :- ReadPtLen(NT, TBIT, 3, chars);
      var _ :- ReadClen(pt);
      var _ :- ReadPtLen(MAXNP, pBit, NEVER, chars);
      return Ok(());
    }

    /** The next symbol of the character set. */
    method DecodeC() returns (r: Result<U16, DecompressError>)
      requires Valid()
      modifies `inBuf, `compSize, `bitCount, `bitBuf, `subBitBuf, `pos, `fetched, `blockSize, `cursor,
        left, right, cTable, cLen, ptTable, ptLen
      ensures Valid() && (r.Ok? ==> r.value < NC)
      ensures old(cursor).Some? ==>
        var ref := NextSymbol(Stream(), old(cursor.value), pBit);
        (ref.Some? ==> r == Ok(ref.value.0) && cursor == Some(ref.value.1) && ref.value.1.pos > 0)
        && (ref.None? && !(old(cursor.value.left) == 0 && HeaderDoubtful(Stream(), old(cursor.value.pos), pBit)) ==> r.Err?)
    {
      hide WindowOk, CellsOk, LensOk, Stream, ChShow, PtShow, ReadHeader, ReadSymbol, HeaderDoubtful, ValidCodes;
      ghost var s, ref := Stream(), None;
      if cursor.Some? {
        ref := NextSymbol(s, cursor.value, pBit);
      }
      ghost var chars := if ref.Some? then ref.value.1.chars else Single(0);
      ghost var start: nat := pos;
      if cursor.Some? && blockSize > 0 {
        ChShowIsValid(cursor.value.chars);
        SymbolShown(cursor.value.chars, NC, s, pos);
      }
      cursor := None;
      if blockSize == 0 {
        var _ :- ReadBlockHeader();
        ghost var header := ReadHeader(s, start, pBit);
        if header.Some? {
          ChShowIsValid(header.value.chars);
          SymbolShown(header.value.chars, NC, s, pos);
        }
      }
      blockSize := (blockSize as int + 0xFFFF) % 0x1_0000;
      var c :- ReadChSymbol(chars);
      cursor := if ref.Some? then Some(ref.value.1) else None;
      return Ok(c);
    }

    /** A match position. */
    method DecodeP() returns (r: Result<U32, DecompressError>)
      requires Valid()
      modifies `inBuf, `compSize, `bitCount, `bitBuf, `subBitBuf, `pos, `fetched, `cursor
      ensures Valid() && (r.Ok? ==> r.value < 0x4000_0000)
      ensures old(cursor).Some? && old(cursor.value.pos) > 0 ==>
        var ref := ReadPosition(old(cursor.value.points), Stream(), old(cursor.value.pos));
        ref.Some? && r == Ok(ref.value.0) && cursor == Some(old(cursor.value).(pos := ref.value.1))
    {
      hide WindowOk, CellsOk, LensOk, Stream, ChShow, PtShow, ReadSymbol, BitsAt, Pow2, ValidCodes;
      ghost var s, cur := Stream(), cursor;
      if cursor.Some? && cursor.value.pos > 0 {
        PtShowIsValid(cursor.value.points, MAXNP);
        SymbolShown(cursor.value.points, MAXNP, s, pos);
      }
      ghost var good := cursor.Some? && cursor.value.pos > 0 && ReadPosition(cursor.value.points, s, cursor.value.pos).Some?;
      ghost var points := if good then cursor.value.points else Single(0);
      cursor := None;
      var val :- ReadPtSymbol(MAXNP, points);
      if val > 1 {
        var extra := val - 1;
        PositionBound(s, pos, extra);
        var bits := GetBits(extra);
        r := Ok(Pow2(extra) + bits);
      } else {
        r := Ok(val);
      }
      if good {
        cursor := Some(cur.value.(pos := pos));
      }
    }

    /** Copies a match of `len` bytes from `v + 1` places back, as far as the
        output is long; a source before the output is refused, because the
        32-bit index wraps to beyond the end. Ok(true) means the output is full. */
    method CopyMatch(v: U32, len: nat) returns (r: Result<bool, DecompressError>)
      requires origSize == out.Length <= MAX_ORIG_SIZE && outPos <= origSize && v < 0x4000_0000 && len >= 1
      modifies out, `outPos
      ensures old(outPos) <= outPos <= origSize
      ensures r.Err? <==> old(outPos) < origSize && v + 1 > old(outPos)
      ensures r.Ok? ==> r.value == (outPos == origSize) && (old(outPos) < origSize ==> old(outPos) < outPos)
      ensures r.Ok? ==> out[..outPos] == if old(outPos) == origSize then old(out[..outPos])
                          else Copy(old(out[..outPos]), v + 1, Min(len, origSize - old(outPos)))
    {
      hide Copy;
      ghost var out0, ok := out[..outPos], v + 1 <= outPos;
      ghost var n := Min(len, origSize - outPos);
      var dataIdx: U32 := (outPos - v - 1) % 0x1_0000_0000;
      var i := 0;
      while i < len
        invariant 0 <= i <= len && outPos == old(outPos) + i <= origSize
        invariant if ok then dataIdx == outPos - v - 1 else i == 0 && dataIdx >= MAX_ORIG_SIZE
        invariant ok ==> Copy(out[..outPos], v + 1, n - i) == Copy(out0, v + 1, n)
        invariant i == 0 ==> out[..outPos] == out0
      {
        if outPos >= origSize {
          return Ok(true);
        }
        if dataIdx >= origSize {
          return Err(Corrupted);
        }
        CopyUnfold(out[..outPos], v + 1, n - i);
        ghost var before := out[..outPos];
        out[outPos] := out[dataIdx];
        outPos := outPos + 1;
        assert out[..outPos] == before + [before[|before| - (v + 1)]];
        i := i + 1;
        dataIdx := (dataIdx as int + 1) % 0x1_0000_0000;
      }
      return Ok(outPos >= origSize);
    }

    constructor (src: seq<U8>, compSize: nat, origSize: nat, pBit: U16)
      requires compSize <= |src| && origSize <= MAX_ORIG_SIZE && 4 <= pBit <= 5
      ensures WindowOk() && StorageOk() && pos == -32 && outPos == 0 && blockSize == 0
      ensures this.origSize == origSize && this.pBit == pBit
      ensures Stream() == BytesBits(src, compSize) && cursor == Some(AtStart)
      ensures fresh(left) && fresh(right) && fresh(cTable) && fresh(ptTable) && fresh(cLen) && fresh(ptLen) && fresh(out)
    {
      hide Window, ByteInHand, BytesBits;
      this.src, this.total, this.inBuf, this.compSize := src, compSize, 0, compSize;
      this.origSize, this.out, this.outPos := origSize, new U8[origSize](_ => 0), 0;
      this.bitCount, this.bitBuf, this.subBitBuf, this.blockSize := 0, 0, 0, 0;
      this.left, this.right := new U16[NODES](_ => 0), new U16[NODES](_ => 0);
      this.cLen, this.ptLen := new U8[NC](_ => 0), new U8[NPT](_ => 0);
      this.cTable, this.ptTable := new U16[4096](_ => 0), new U16[256](_ => 0);
      this.pBit := pBit;
      pos, fetched, cursor := -32, 0, Some(AtStart);
      new;
      EmptyWindow(Stream());
      assert CellsOk() by { hide WindowOk, LensOk, StorageOk, Stream; }
      assert LensOk() by { hide WindowOk, CellsOk, StorageOk, Stream; }
      assert StorageOk() by { hide WindowOk, CellsOk, LensOk, Stream; }
      assert WindowOk() by { hide CellsOk, LensOk, StorageOk; }
    }

    /** One turn of the decoding loop: a literal or a match. Ok(true) means that
        the output is full. */
    method DecodeToken(ghost good: bool, ghost ref: Option<seq<U8>>) returns (r: Result<bool, DecompressError>)
      requires Valid()
      requires good ==> cursor.Some? && Tracks(Stream(), cursor.value, out[..outPos], origSize, pBit, ref)
      modifies `inBuf, `compSize, `bitCount, `bitBuf, `subBitBuf, `pos, `fetched, `blockSize, `cursor, `outPos,
        left, right, cTable, cLen, ptTable, ptLen, out
      ensures Valid() && outPos >= old(outPos)
      ensures r == Ok(false) ==> outPos > old(outPos) && (good ==> cursor.Some? && Tracks(Stream(), cursor.value, out[..outPos], origSize, pBit, ref))
      ensures r == Ok(true) ==> outPos == origSize && (good ==> ref == Some(out[..]))
      ensures r.Err? && good ==> ref.None?
    {
      hide WindowOk, CellsOk, LensOk, CursorOk, Stream, NextSymbol, ReadPosition, Copy, HeaderDoubtful, Tracks;
      ghost var s, out0, cur := Stream(), out[..outPos], if cursor.Some? then cursor.value else AtStart;
      if good && NextSymbol(s, cur, pBit).None? {
        StepNone(s, cur, out0, origSize, pBit, ref);
      }
      var c :- DecodeC();
      ghost var next := if cursor.Some? then cursor.value else AtStart;
      if c < 256 {
        if good {
          StepLiteral(s, cur, out0, origSize, pBit, ref, c, next);
        }
        if outPos >= origSize {
          assert out[..] == out0;
          return Ok(true);
        }
        out[outPos] := c;
        outPos := outPos + 1;
        assert out[..outPos] == out0 + [c as U8];
        return Ok(false);
      }
      var len := c - 253;
      var v :- DecodeP();
      if good {
        StepMatch(s, cur, out0, origSize, pBit, ref, c, next, v, cursor.value.pos);
      }
      var full :- CopyMatch(v, len);
      if full {
        assert out[..] == out[..outPos];
      }
      return Ok(full);
    }

    /** Decodes until the output is full. */
    method DecodeAll() returns (r: Result<(), DecompressError>)
      requires Valid() && outPos == 0
      modifies this, left, right, cTable, cLen, ptTable, ptLen, out
      ensures Valid() && (r.Ok? ==> outPos == origSize)
      ensures old(cursor).Some? ==>
        var ref := Decode(Stream(), old(cursor.value), [], origSize, pBit);
        (ref.Some? ==> r.Ok? && out[..] == ref.value)
        && (ref.None? && !Doubtful(Stream(), old(cursor.value), [], origSize, pBit) ==> r.Err?)
    {
      hide WindowOk, CellsOk, LensOk, CursorOk, Stream, Decode, Doubtful;
      ghost var s, good, ref := Stream(), false, None;
      if cursor.Some? {
        ref := Decode(s, cursor.value, [], origSize, pBit);
        good := ref.Some? || !Doubtful(s, cursor.value, [], origSize, pBit);
      }
      assert out[..0] == [];
      var full := false;
      while !full
        invariant Valid()
        invariant if full then outPos == origSize && (good ==> ref == Some(out[..]))
                  else good ==> cursor.Some? && Tracks(s, cursor.value, out[..outPos], origSize, pBit, ref)
        decreases origSize - outPos, if full then 0 else 1
      {
        full :- DecodeToken(good, ref);
      }
      return Ok(());
    }
  }

  /** From here on decoding gives `ref`, and none only if the input is refused. */
  ghost predicate Tracks(s: seq<bool>, cur: Cursor, out: seq<U8>, orig: nat, pbit: nat, ref: Option<seq<U8>>) {
    && |out| <= orig && Decode(s, cur, out, orig, pbit) == ref
    && (ref.None? ==> !Doubtful(s, cur, out, orig, pbit))
  }

  lemma StepNone(s: seq<bool>, cur: Cursor, out: seq<U8>, orig: nat, pbit: nat, ref: Option<seq<U8>>)
    requires Tracks(s, cur, out, orig, pbit, ref) && NextSymbol(s, cur, pbit).None?
    ensures ref.None? && !(cur.left == 0 && HeaderDoubtful(s, cur.pos, pbit))
  {
    hide NextSymbol, HeaderDoubtful, ReadPosition, Copy;
  }

  lemma StepLiteral(s: seq<bool>, cur: Cursor, out: seq<U8>, orig: nat, pbit: nat, ref: Option<seq<U8>>, c: nat, next: Cursor)
    requires Tracks(s, cur, out, orig, pbit, ref) && NextSymbol(s, cur, pbit) == Some((c, next)) && c < 256
    ensures if |out| == orig then ref == Some(out) else Tracks(s, next, out + [c as U8], orig, pbit, ref)
  {
    hide NextSymbol, HeaderDoubtful, ReadPosition, Copy;
  }

  lemma StepMatch(s: seq<bool>, cur: Cursor, out: seq<U8>, orig: nat, pbit: nat, ref: Option<seq<U8>>, c: nat, next: Cursor, v: nat, p: nat)
    requires Tracks(s, cur, out, orig, pbit, ref) && NextSymbol(s, cur, pbit) == Some((c, next)) && c >= 256
    requires ReadPosition(next.points, s, next.pos) == Some((v, p))
    ensures
      if |out| == orig then ref == Some(out)
      else if v + 1 > |out| then ref.None?
      else
        var out' := Copy(out, v + 1, Min(c - 253, orig - |out|));
        if |out'| == orig then ref == Some(out') else Tracks(s, next.(pos := p), out', orig, pbit, ref)
  {
    hide NextSymbol, HeaderDoubtful, ReadPosition, Copy;
  }

  /** The unary part of a code length: 7 plus the ones after the first three bits. */
  method CountOnes(buf: U32, ghost s: seq<bool>, ghost pos: nat) returns (len: U16)
    requires Window(s, pos, buf)
    ensures 7 <= len <= 36
    ensures ReadUnary(s, pos + 3, 7).Some? ==> ReadUnary(s, pos + 3, 7).value == (len as U8, pos + len - 3)
    ensures ReadUnary(s, pos + 3, 7).None? ==> len > 16
  {
    hide Bit, And, Window, OneMask, Pow2;
    var mask := Pow2(BITBUF - 1 - 3);
    len := 7;
    ghost var j: nat := 0;
    OneMaskBit(s, pos, buf, 0);
    while And(mask, buf) != 0
      invariant 0 <= j <= 29 && len == 7 + j && mask == OneMask(j)
      invariant And(mask, buf) != 0 <==> j < 29 && Bit(s, pos + 3 + j)
      invariant j <= 10 ==> ReadUnary(s, pos + 3, 7) == ReadUnary(s, pos + 3 + j, 7 + j)
      invariant j > 10 ==> ReadUnary(s, pos + 3, 7).None?
      decreases 29 - j
    {
      OneMaskBit(s, pos, buf, j + 1);
      mask := mask / 2;
      len := len + 1;
      j := j + 1;
    }
  }

  /** The mask after `j` shifts from bit 28. */
  function OneMask(j: nat): nat
    requires j <= 29
  {
    if j == 29 then 0 else Pow2(28 - j)
  }

  lemma OneMaskBit(s: seq<bool>, pos: int, buf: U32, j: nat)
    requires Window(s, pos, buf) && j <= 29
    ensures And(OneMask(j), buf) != 0 <==> j < 29 && Bit(s, pos + 3 + j)
    ensures OneMask(0) == Pow2(28) && (j > 0 ==> OneMask(j - 1) / 2 == OneMask(j))
  {
    hide Bit;
    if j > 0 {
      HalfMask(29 - j);
    }
    if j < 29 {
      AndMask(buf, 28 - j);
    }
  }

  /** How many symbols have each length; fails on a length above 16. */
  method CountLengths(bitLen: seq<U8>) returns (r: Result<seq<U16>, DecompressError>)
    requires |bitLen| <= 510
    ensures r.Ok? <==> forall i :: 0 <= i < |bitLen| ==> bitLen[i] <= 16
    ensures r.Ok? ==> |r.value| == 17 && forall l {:trigger r.value[l]} :: 0 <= l <= 16 ==> r.value[l] == Count(bitLen, l)
  {
    var count: seq<U16> := seq(17, _ => 0);
    for i := 0 to |bitLen|
      invariant |count| == 17
      invariant forall j :: 0 <= j < i ==> bitLen[j] <= 16
      invariant forall l {:trigger count[l]} :: 0 <= l <= 16 ==> count[l] == Count(bitLen[..i], l) <= i
    {
      var len := bitLen[i];
      if len > 16 {
        return Err(Corrupted);
      }
      forall l | 0 <= l <= 16
        ensures Count(bitLen[..i + 1], l) == Count(bitLen[..i], l) + if len == l then 1 else 0
      {
        CountStep(bitLen, i, l);
      }
      count := count[len := count[len] + 1];
    }
    assert bitLen[..|bitLen|] == bitLen;
    return Ok(count);
  }

  /** The left-aligned first codeword of every length, modulo 2^16. */
  method FirstPoints(count: seq<U16>, ghost lens: seq<U8>) returns (start: seq<U16>)
    requires |count| == 17 && forall l {:trigger count[l]} :: 1 <= l <= 16 ==> count[l] == Count(lens, l)
    ensures |start| == 18 && forall l {:trigger start[l]} :: 1 <= l <= 17 ==> start[l] == Cum(lens, l) % 0x1_0000
  {
    hide Count, Double;
    start := seq(18, _ => 0);
    for index := 1 to 17
      invariant |start| == 18
      invariant forall l {:trigger start[l]} :: 1 <= l <= index ==> start[l] == Cum(lens, l) % 0x1_0000
    {
      NextPoint(lens, index);
      assert count[index] == Count(lens, index);
      start := start[index + 1 := (start[index] + Double(count[index], 16 - index) % 0x1_0000) % 0x1_0000];
    }
  }

  lemma NextPoint(lens: seq<U8>, l: nat)
    requires 1 <= l <= 16
    ensures (Cum(lens, l) % 0x1_0000 + Double(Count(lens, l), 16 - l) % 0x1_0000) % 0x1_0000 == Cum(lens, l + 1) % 0x1_0000
  {
    DoubleIsMul(Count(lens, l), 16 - l);
    AddWrapped(Cum(lens, l), Double(Count(lens, l), 16 - l));
  }

  lemma AddWrapped(a: nat, b: nat)
    ensures (a % 0x1_0000 + b % 0x1_0000) % 0x1_0000 == (a + b) % 0x1_0000
  {
  }

  /** Start values scaled to the flat table, and the weight of each length. */
  method ScaleStarts(cum: seq<U16>, tableBits: U16) returns (start: seq<U16>, weight: seq<U16>)
    requires |cum| == 18 && 1 <= tableBits < 16
    ensures |start| == 18 && |weight| == 17
    ensures forall l {:trigger start[l]} :: 1 <= l <= 17 ==> start[l] == if l <= tableBits then Shr(cum[l], 16 - tableBits) else cum[l]
    ensures forall l {:trigger weight[l]} :: 1 <= l <= 16 ==> weight[l] == Weight(tableBits, l)
  {
    var juBits := 16 - tableBits;
    start := cum;
    weight := seq(17, _ => 0);
    for index := 1 to tableBits + 1
      invariant |start| == 18 && |weight| == 17
      invariant forall l {:trigger start[l]} :: 0 <= l < 18 ==> start[l] == if 1 <= l < index then Shr(cum[l], juBits) else cum[l]
      invariant forall l {:trigger weight[l]} :: 1 <= l < index ==> weight[l] == Weight(tableBits, l)
    {
      ShrShrinks(start[index], juBits);
      PowFits(tableBits - index);
      start := start[index := Shr(start[index], juBits)];
      weight := weight[index := Pow2(tableBits - index)];
    }
    for index := tableBits + 1 to 17
      invariant |weight| == 17
      invariant forall l {:trigger weight[l]} :: 1 <= l < index ==> weight[l] == Weight(tableBits, l)
    {
      PowFits(16 - index);
      weight := weight[index := Pow2(16 - index)];
    }
  }

  lemma PowFits(n: nat)
    requires n < 16
    ensures Pow2(n) < 0x1_0000
  {
    Pow2Of32();
    Pow2Monotone(n + 1, 16);
  }

  /** Only nodes from `n` on, and fewer than `n` of them, changed. */
  ghost predicate OnlyFrom(n: nat, a: Cells, b: Cells) {
    && |a.left| == |b.left| && |a.right| == |b.right|
    && (forall i {:trigger b.left[i]} :: 0 <= i < |a.left| && !(n <= i < 2 * n) ==> b.left[i] == a.left[i])
    && (forall i {:trigger b.right[i]} :: 0 <= i < |a.right| && !(n <= i < 2 * n) ==> b.right[i] == a.right[i])
  }

  lemma OnlyFromSame(n: nat, a: Cells, b: Cells, c: Cells)
    requires a.left == b.left && a.right == b.right && OnlyFrom(n, b, c)
    ensures OnlyFrom(n, a, c)
  {
  }

  /** The cells of all long codewords are zero once the table is cleared: the
      start value is the first of them, unless it has wrapped to zero because
      there are none. */
  lemma ClearedEnough(lens: seq<U8>, bits: nat, cum: seq<U16>, start: seq<U16>, zeroFrom: nat)
    requires Usable(lens, bits) && |cum| == |start| == 18
    requires cum[bits + 1] == Cum(lens, bits + 1) % 0x1_0000 && start[bits + 1] == cum[bits + 1]
    requires zeroFrom == Shr(start[bits + 1], 16 - bits)
    ensures LongFrom(lens, bits) == Pow2(bits) || (0 < zeroFrom == LongFrom(lens, bits) < Pow2(bits))
  {
    hide KraftSum, FirstCode, LongFrom, Count, Pow2, Cum, Complete;
    CumLong(lens, bits);
    LongFromBound(lens, bits);
    ShortCodeExists(lens, bits);
    Pow2Sum(bits, 16 - bits);
    Pow2Of32();
    if LongFrom(lens, bits) < Pow2(bits) {
      MulMonotone(LongFrom(lens, bits) + 1, Pow2(bits), Pow2(16 - bits));
      Distribute(LongFrom(lens, bits), 1, Pow2(16 - bits));
      ShrInterval(start[bits + 1], 16 - bits, LongFrom(lens, bits));
    }
  }

  lemma HalfMask(k: nat)
    ensures Pow2(k) / 2 == if k == 0 then 0 else Pow2(k - 1)
  {
  }

  /** Unpacks a section payload: whenever the format gives the payload a meaning,
      the result is that meaning. Every other payload is refused, but for those that
      lead to a doubtful block header; so are payloads that are too short for their
      header or for what it announces, or that announce too much. */
  method Decompress(data: seq<U8>, pBit: U16) returns (r: Result<seq<U8>, DecompressError>)
    requires 4 <= pBit <= 5
    ensures |data| < 8 ==> r.Err?
    ensures |data| >= 8 ==>
      var comp, orig := Le32(data[..4]), Le32(data[4..8]);
      && (orig == 0 ==> r == Ok([]))
      && (orig > 536870912 ==> r.Err?)
      && (orig != 0 && (comp + 8 > |data| || comp + 8 > 0xFFFF_FFFF) ==> r.Err?)
      && (r.Ok? ==> |r.value| == orig)
    ensures Decompressed(data, pBit).Some? ==> r == Ok(Decompressed(data, pBit).value)
    ensures Decompressed(data, pBit).None? && !DoubtfulPayload(data, pBit) ==> r.Err?
  {
    hide Decode, Doubtful, Le32;
    if |data| < 8 {
      return Err(Corrupted);
    }
    var compSize, origSize := Le32(data[..4]), Le32(data[4..8]);
    if origSize == 0 {
      return Ok([]);
    }
    if origSize > MAX_ORIG_SIZE {
      return Err(Corrupted);
    }
    if compSize + 8 >= 0x1_0000_0000 || compSize + 8 > |data| {
      return Err(Corrupted);
    }
    var decoder := new Decoder(data[8..], compSize, origSize, pBit);
    decoder.FillBuf(BITBUF);
    var _ :- decoder.DecodeAll();
    return Ok(decoder.out[..]);
  }
}
