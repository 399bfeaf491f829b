/** The widths of the compressed format: the sizes of the code sets, and a payload
    byte by byte. */
module TianoSample {
  import opened Results
  import opened Words
  import opened BitStreams
  import opened Canonical
  import opened TianoFormat
  import opened TianoEncoding
  import opened TianoReach

  /** The sets of a block have 510 characters and 31 positions, and the set that the
      character lengths are written in has 19 symbols. */
  lemma HeaderShape(s: seq<bool>, pos: nat, pbit: nat)
    requires ReadHeader(s, pos, pbit).Some?
    ensures var cur := ReadHeader(s, pos, pbit).value;
      && ValidCodes(cur.chars, 510) && ValidCodes(cur.points, 31)
      && ReadPtCodes(s, pos + 16, 19, 5, 3).Some? && ValidCodes(ReadPtCodes(s, pos + 16, 19, 5, 3).value.0, 19)
  {
    hide BitsAt, ReadLens, ReadCLens, Complete, Fit;
  }

  /** The lengths have a Kraft sum that only a sum of 16 bits takes for one. */
  ghost predicate FalseSum(lens: seq<U8>) {
    KraftSum(lens) % 65536 == 0 && KraftSum(lens) != 65536
  }

  /** The single symbol is not in the set, or the first length above 16 is behind those
      of the set, or the lengths have a false sum. */
  ghost predicate PtFlawed(s: seq<bool>, p: nat, size: nat, width: nat, special: nat) {
    if BitsAt(s, p, width) == 0 then BitsAt(s, p + width, width) >= size
    else
      match ReadLens(s, p + width, BitsAt(s, p, width), special, [])
      case None => FirstBad(s, p + width, BitsAt(s, p, width), special, []) >= size
      case Some((acc, _)) => FalseSum(Fit(acc, size))
  }

  ghost predicate ChFlawed(s: seq<bool>, p: nat, pt: Codes) {
    if BitsAt(s, p, 9) == 0 then BitsAt(s, p + 9, 9) >= 510
    else
      match ReadCLens(s, p + 9, pt, BitsAt(s, p, 9), [])
      case None => false
      case Some((acc, _)) => FalseSum(Fit(acc, 510))
  }

  /** A doubtful header has no meaning, because of a set with one of these flaws. */
  lemma DoubtfulHeader(s: seq<bool>, pos: nat, pbit: nat)
    requires HeaderDoubtful(s, pos, pbit)
    ensures ReadHeader(s, pos, pbit).None?
    ensures PtFlawed(s, pos + 16, 19, 5, 3) || (exists p, pt :: ChFlawed(s, p, pt)) || exists p :: PtFlawed(s, p, 31, pbit, 0xFFFF)
  {
    hide BitsAt, ReadLens, ReadCLens, FirstBad, KraftSum, Fit;
    match ReadPtCodes(s, pos + 16, 19, 5, 3)
    case None =>
    case Some((pt, p1)) =>
      match ReadCCodes(s, p1, pt)
      case None =>
        assert ChFlawed(s, p1, pt);
      case Some((_, p2)) =>
        assert PtFlawed(s, p2, 31, pbit, 0xFFFF);
  }

  /** Only payloads that lead to such a header are doubtful. */
  lemma {:induction false} DoubtfulReading(s: seq<bool>, cur: Cursor, out: seq<U8>, orig: nat, pbit: nat) returns (pos: nat)
    requires |out| <= orig && Doubtful(s, cur, out, orig, pbit)
    ensures HeaderDoubtful(s, pos, pbit)
    decreases orig - |out|
  {
    hide NextSymbol, ReadPosition, HeaderDoubtful, Copy;
    match NextSymbol(s, cur, pbit)
    case None => pos := cur.pos;
    case Some((c, next)) =>
      if c < 256 {
        pos := DoubtfulReading(s, next, out + [c], orig, pbit);
      } else {
        var (v, p) := ReadPosition(next.points, s, next.pos).value;
        pos := DoubtfulReading(s, next.(pos := p), Copy(out, v + 1, Min(c - 253, orig - |out|)), orig, pbit);
      }
  }

  /** Three times the letter A: one block of 3 characters, all sets of one symbol. */
  const SAMPLE: seq<U8> := [7, 0, 0, 0, 3, 0, 0, 0, 0, 3, 0, 0, 4, 0x10, 0]

  function SampleBlock(c: nat, n: nat): Block
    requires c < 0x100 && n == 3
  {
    Block(Single(0), Layout(0, 0), Single(c), RunForm(0, []), Single(0), Layout(0, 0), Literals(Rep(n, c)))
  }

  lemma SampleBlockOk(c: nat, n: nat)
    requires c < 0x100 && n == 3
    ensures var b := SampleBlock(c, n); BlockOk(b, 4) && BlocksOk([b], 4)
  {
    hide Literals, Rep;
    assert Pow2(5) == 32 && Pow2(4) == 16;
    var b := SampleBlock(c, n);
    forall i | 0 <= i < |b.tokens| ensures TokenOk(b.tokens[i], Single(c), Single(0)) {
      SampleToken(c, n, i);
    }
  }

  lemma SampleToken(c: nat, n: nat, i: nat)
    requires c < 0x100 && i < n
    ensures Literals(Rep(n, c))[i] == Literal(c)
  {
  }

  lemma SampleHeader(c: nat, n: nat)
    requires c < 0x100 && n == 3 && BlocksOk([SampleBlock(c, n)], 4)
    ensures EncodeBlocks([SampleBlock(c, n)], 4) ==
            ToBits(n, 16) + (ToBits(0, 5) + ToBits(0, 5) + (ToBits(0, 9) + ToBits(c, 9) + (ToBits(0, 4) + ToBits(0, 4))))
  {
    hide ToBits, Literals, Rep;
    var b := SampleBlock(c, n);
    assert [b][1..] == [];
    assert EncodeBlocks([], 4) == [];
    assert BlockOk([b][0], 4);
    NoBits(b.tokens, c);
  }

  lemma {:induction false} NoBits(tokens: seq<Token>, c: nat)
    requires TokensOk(tokens, Single(c), Single(0)) && forall i :: 0 <= i < |tokens| ==> tokens[i].Literal?
    ensures EncodeTokens(tokens, Single(c), Single(0)) == []
  {
    if tokens != [] {
      NoBits(tokens[1..], c);
    }
  }

  lemma SampleBits(e: seq<bool>)
    requires e == ToBits(3, 16) + (ToBits(0, 5) + ToBits(0, 5) + (ToBits(0, 9) + ToBits(0x41, 9) + (ToBits(0, 4) + ToBits(0, 4))))
    ensures |e| == 52 && forall k :: 0 <= k < 52 ==> (e[k] <==> k == 14 || k == 15 || k == 37 || k == 43)
  {
    hide ToBits;
    ThreeBits();
    LetterBits();
    ZeroIsZeros(5);
    ZeroIsZeros(9);
    ZeroIsZeros(4);
    var tail := ToBits(0, 9) + ToBits(0x41, 9) + (ToBits(0, 4) + ToBits(0, 4));
    assert forall k :: 0 <= k < 26 ==> (tail[k] <==> k == 11 || k == 17);
  }

  lemma ThreeBits()
    ensures forall k :: 0 <= k < 16 ==> (ToBits(3, 16)[k] <==> k >= 14)
  {
    hide ToBits;
    HalfBits(3, 16);
    HalfBits(1, 15);
    ZeroIsZeros(14);
  }

  lemma LetterBits()
    ensures forall k :: 0 <= k < 9 ==> (ToBits(0x41, 9)[k] <==> k == 2 || k == 8)
  {
    hide ToBits;
    HalfBits(0x41, 9);
    HalfBits(0x20, 8);
    HalfBits(0x10, 7);
    HalfBits(8, 6);
    HalfBits(4, 5);
    HalfBits(2, 4);
    HalfBits(1, 3);
    ZeroIsZeros(2);
  }

  lemma HalfBits(v: nat, n: nat)
    requires n > 0
    ensures ToBits(v, n) == ToBits(v / 2, n - 1) + [v % 2 == 1]
  {
  }

  lemma {:induction false} ZeroIsZeros(n: nat)
    ensures forall k :: 0 <= k < n ==> !ToBits(0, n)[k]
  {
    if n > 0 {
      ZeroIsZeros(n - 1);
    }
  }

  lemma SampleBytes(e: seq<bool>)
    requires |e| == 52 && forall k :: 0 <= k < 52 ==> (e[k] <==> k == 14 || k == 15 || k == 37 || k == 43)
    ensures Pack(e) == [0, 3, 0, 0, 4, 0x10, 0]
  {
    hide ToBits, Pow2;
    var f, t := false, true;
    HalfBits(3, 8);
    HalfBits(1, 7);
    HalfBits(4, 8);
    HalfBits(2, 7);
    HalfBits(1, 6);
    HalfBits(0x10, 8);
    HalfBits(8, 7);
    HalfBits(4, 6);
    HalfBits(2, 5);
    HalfBits(1, 4);
    ZeroIsZeros(3);
    ZeroIsZeros(5);
    ZeroIsZeros(6);
    ZeroIsZeros(8);
    assert ToBits(3, 8) == ToBits(0, 6) + [t, t] && ToBits(4, 8) == ToBits(0, 5) + [t, f, f];
    assert ToBits(0x10, 8) == ToBits(0, 3) + [t, f, f, f, f];
    Pow2Of32();
    ReadToBits(e, 0, 0, 8);
    ReadToBits(e, 8, 3, 8);
    ReadToBits(e, 16, 0, 8);
    ReadToBits(e, 24, 0, 8);
    ReadToBits(e, 32, 4, 8);
    ReadToBits(e, 40, 0x10, 8);
    ReadToBits(e, 48, 0, 8);
  }

  lemma SampleDecodes()
    ensures Decompressed(SAMPLE, 4) == Some([0x41, 0x41, 0x41])
  {
    hide ToBits, Decompressed, Pack, BlockOk, BlocksOk, EncodeBlocks, SampleBlock, Plays, Text;
    var c, n := 0x41, 3;
    var blocks := [SampleBlock(c, n)];
    SampleBlockOk(c, n);
    SampleHeader(c, n);
    SampleBits(EncodeBlocks(blocks, 4));
    SampleBytes(EncodeBlocks(blocks, 4));
    SampleText(c, n);
    assert ToLe32(7) == [7, 0, 0, 0] && ToLe32(3) == [3, 0, 0, 0];
    assert Payload(blocks, 4, []) == SAMPLE;
    RoundTrip(blocks, 4, []);
  }

  lemma SampleText(c: nat, n: nat)
    requires c < 0x100 && n == 3
    ensures var tokens := AllTokens([SampleBlock(c, n)]); Plays([], tokens) && Text([], tokens) == [c, c, c]
  {
    hide Plays, Text, Literals;
    var b := SampleBlock(c, n);
    assert [b][1..] == [] && AllTokens([]) == [];
    assert AllTokens([b]) == b.tokens + [] == Literals(Rep(n, c));
    LiteralsText([], Rep(n, c));
    assert [] + Rep(n, c) == [c, c, c];
  }
}
