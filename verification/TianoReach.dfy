/** Every token list within the limits of the format has a payload: literals,
    matches of 3 to 256 bytes, and positions up to 2^14 or 2^30, under one choice
    of complete code sets over all symbols. */
module TianoReach {
  import opened Results
  import opened Words
  import opened BitStreams
  import opened Canonical
  import opened TianoFormat
  import opened TianoEncoding

  // Complete sets of two lengths

  function Rep(n: nat, l: U8): (lens: seq<U8>)
    ensures |lens| == n && forall i :: 0 <= i < n ==> lens[i] == l
  {
    seq(n, _ => l)
  }

  lemma {:induction false} KraftOfRep(n: nat, l: U8)
    requires 1 <= l <= 16
    ensures KraftSum(Rep(n, l)) == n * Share(l)
  {
    hide Share;
    if n > 0 {
      assert Rep(n, l)[..n - 1] == Rep(n - 1, l);
      KraftOfRep(n - 1, l);
      Distribute(n - 1, 1, Share(l));
    }
  }

  lemma {:induction false} KraftJoined(x: seq<U8>, y: seq<U8>)
    ensures KraftSum(x + y) == KraftSum(x) + KraftSum(y)
    decreases |y|
  {
    hide Share;
    if y == [] {
      assert x + y == x;
    } else {
      var n := |y| - 1;
      assert (x + y)[..|x + y| - 1] == x + y[..n];
      KraftJoined(x, y[..n]);
    }
  }

  lemma {:induction false} KraftOfZeros(lens: seq<U8>, n: nat)
    ensures KraftSum(lens + Zeros(n)) == KraftSum(lens)
  {
    if n == 0 {
      assert lens + Zeros(0) == lens;
    } else {
      assert (lens + Zeros(n))[..|lens| + n - 1] == lens + Zeros(n - 1);
      KraftOfZeros(lens, n - 1);
    }
  }

  /** `a` symbols of length `l`, then `b` of length `l + 1`, then none up to `n`. */
  function Tiers(a: nat, l: U8, b: nat, n: nat): (lens: seq<U8>)
    requires l < 16 && a + b <= n
    ensures |lens| == n
    ensures forall i :: 0 <= i < n ==> lens[i] == if i < a then l else if i < a + b then l + 1 else 0
  {
    Rep(a, l) + Rep(b, l + 1) + Zeros(n - a - b)
  }

  lemma TiersComplete(a: nat, l: U8, b: nat, n: nat)
    requires 1 <= l < 16 && a + b <= n && a * Share(l) + b * Share(l + 1) == 0x1_0000
    ensures Complete(Tiers(a, l, b, n))
  {
    hide KraftSum, Share;
    KraftOfRep(a, l);
    KraftOfRep(b, l + 1);
    KraftJoined(Rep(a, l), Rep(b, l + 1));
    KraftOfZeros(Rep(a, l) + Rep(b, l + 1), n - a - b);
  }

  // The code sets of all blocks

  /** Two characters of eight bits and 508 of nine. */
  function Chars(n: nat): (lens: seq<U8>)
    requires n >= 2
    ensures |lens| == n && forall i :: 0 <= i < n ==> lens[i] == if i < 2 then 8 else 9
  {
    Tiers(2, 8, n - 2, n)
  }

  /** One position symbol one bit shorter than the other 2^pbit - 2. */
  function Points(m: nat, pbit: nat): (lens: seq<U8>)
    requires 1 <= m <= MAXNP && 4 <= pbit <= 5
    ensures |lens| == MAXNP
    ensures forall i :: 0 <= i < MAXNP ==> lens[i] == if i < 1 then pbit - 1 else if i < m then pbit else 0
  {
    Tiers(1, pbit - 1, m - 1, MAXNP)
  }

  /** The extra set has the symbols of the lengths 8 and 9 only, one bit each. */
  function Extras(n: nat): (lens: seq<U8>)
    requires n == 10
    ensures |lens| == NT && forall i :: 0 <= i < NT ==> lens[i] == if i == n || i == n + 1 then 1 else 0
  {
    Zeros(n) + Rep(2, 1) + Zeros(NT - 2 - n)
  }

  lemma Shares()
    ensures Share(1) == 0x8000 && Share(3) == 8192 && Share(4) == 4096 && Share(5) == 2048 && Share(8) == 256 && Share(9) == 128
  {
    assert Pow2(7) == 128 && Pow2(8) == 256 && Pow2(11) == 2048 && Pow2(12) == 4096;
    assert Pow2(13) == 8192 && Pow2(14) == 16384 && Pow2(15) == 32768;
  }

  lemma {:induction false} ZerosFirst(n: nat, y: seq<U8>)
    ensures KraftSum(Zeros(n) + y) == KraftSum(y)
  {
    KraftJoined(Zeros(n), y);
    KraftOfZeros([], n);
    assert [] + Zeros(n) == Zeros(n);
  }

  lemma ExtrasComplete(n: nat)
    requires n == 10
    ensures Complete(Extras(n))
  {
    hide KraftSum, Share;
    Shares();
    KraftOfRep(2, 1);
    ZerosFirst(n, Rep(2, 1));
    KraftOfZeros(Zeros(n) + Rep(2, 1), NT - 2 - n);
  }

  lemma CharsComplete(n: nat)
    requires n == 510
    ensures Complete(Chars(n))
  {
    hide Share;
    Shares();
    TiersComplete(2, 8, n - 2, n);
  }

  lemma PointsComplete(m: nat, pbit: nat)
    requires (pbit == 4 && m == 15) || (pbit == 5 && m == 31)
    ensures m <= MAXNP && Complete(Points(m, pbit))
  {
    hide Share;
    Shares();
    TiersComplete(1, pbit - 1, m - 1, MAXNP);
  }

  function PointCount(pbit: nat): (m: nat)
    ensures 1 <= m <= MAXNP
  {
    if pbit == 4 then 15 else 31
  }

  function TokenBlock(n: nat, x: nat, pbit: nat, tokens: seq<Token>): Block
    requires n == 510 && x == 10 && 4 <= pbit <= 5
  {
    Block(Prefix(Extras(x)), Layout(x + 2, 0), Prefix(Chars(n)), RunForm(NC, PlainRuns(Chars(n))),
          Prefix(Points(PointCount(pbit), pbit)), Layout(PointCount(pbit), 0), tokens)
  }

  /** Lengths and distances that the format can express. */
  predicate InLimits(t: Token, pbit: nat) {
    t.Match? ==> 3 <= t.len <= 256 && t.pos < if pbit == 4 then 0x4000 else 0x4000_0000
  }

  ghost predicate AllInLimits(tokens: seq<Token>, pbit: nat) {
    forall i :: 0 <= i < |tokens| ==> InLimits(tokens[i], pbit)
  }

  lemma {:induction false} Log2Below(p: nat, k: nat)
    requires 1 <= p < Pow2(k)
    ensures Log2(p) < k
  {
    Log2Bounds(p);
    if Log2(p) >= k {
      Pow2Monotone(k, Log2(p));
    }
  }

  lemma PositionBound(p: nat, pbit: nat)
    requires 4 <= pbit <= 5 && p < if pbit == 4 then 0x4000 else 0x4000_0000
    ensures PositionSymbol(p) < PointCount(pbit) && |PositionBits(p)| <= 29
  {
    assert Pow2(14) == 0x4000;
    assert Pow2(30) == 0x4000_0000 by {
      Pow2Sum(14, 16);
      Pow2Of32();
    }
    if p > 1 {
      Log2Below(p, if pbit == 4 then 14 else 30);
    }
  }

  lemma TokenFits(t: Token, n: nat, pbit: nat)
    requires n == 510 && 4 <= pbit <= 5 && InLimits(t, pbit)
    ensures var chars, points := Prefix(Chars(n)), Prefix(Points(PointCount(pbit), pbit));
      TokenOk(t, chars, points) && |EncodeToken(t, chars, points)| <= if t.Match? then 43 else 9
  {
    hide ToBits, Codeword, PositionBits, PositionSymbol, Chars, Points;
    if t.Match? {
      PositionBound(t.pos, pbit);
    }
  }

  // Every block is well-formed, and short

  lemma CharsWritten(n: nat, x: nat)
    requires n == 510 && x == 10
    ensures CharsOk(Prefix(Extras(x)), Prefix(Chars(n)), RunForm(NC, PlainRuns(Chars(n))))
  {
    hide KraftSum, Chars, Extras, PlainRuns;
    CharsComplete(n);
    ExtrasComplete(x);
    PlainForm(Prefix(Extras(x)), Chars(n));
  }

  lemma TokenBlockOk(n: nat, x: nat, pbit: nat, tokens: seq<Token>)
    requires n == 510 && x == 10 && 4 <= pbit <= 5 && 1 <= |tokens| <= 0x1_0000 && AllInLimits(tokens, pbit)
    ensures BlockOk(TokenBlock(n, x, pbit, tokens), pbit)
  {
    hide KraftSum, Chars, Extras, Points, PlainRuns, CharsOk, TokenOk, InLimits;
    assert Pow2(4) == 16 && Pow2(5) == 32;
    CharsWritten(n, x);
    ExtrasComplete(x);
    PointsComplete(PointCount(pbit), pbit);
    forall i | 0 <= i < |tokens| ensures TokenOk(tokens[i], Prefix(Chars(n)), Prefix(Points(PointCount(pbit), pbit))) {
      TokenFits(tokens[i], n, pbit);
    }
  }

  lemma {:induction false} LensBits(lens: seq<U8>, i: nat, n: nat, special: nat)
    requires i <= n <= |lens| && forall k :: 0 <= k < |lens| ==> lens[k] < 7
    ensures |EncodeLens(lens, i, n, special, 0)| <= 5 * (n - i)
    decreases n - i
  {
    hide ToBits;
    if i < n {
      LensBits(lens, i + 1, n, special);
    }
  }

  lemma {:induction false} RunsBits(n: nat, lens: seq<U8>)
    requires n == 10 && forall i :: 0 <= i < |lens| ==> 8 <= lens[i] <= 9
    ensures RunsOk(Prefix(Extras(n)), PlainRuns(lens)) && |EncodeRuns(Prefix(Extras(n)), PlainRuns(lens))| == |lens|
  {
    hide Extras, ToBits, Codeword;
    if lens != [] {
      RunsBits(n, lens[1..]);
      assert PlainRuns(lens)[1..] == PlainRuns(lens[1..]);
    }
  }

  lemma HeaderBound(n: nat, x: nat, pbit: nat, tokens: seq<Token>)
    requires n == 510 && x == 10 && 4 <= pbit <= 5 && BlockOk(TokenBlock(n, x, pbit, tokens), pbit)
    ensures |EncodeHeader(TokenBlock(n, x, pbit, tokens), pbit)| <= 800
  {
    hide KraftSum, Chars, Extras, Points, PlainRuns, TokensOk, ToBits, EncodeRuns, EncodeLens, RunsOk, Pow2;
    RunsBits(x, Chars(n));
    LensBits(Extras(x), 0, x + 2, 3);
    LensBits(Points(PointCount(pbit), pbit), 0, PointCount(pbit), NEVER);
  }

  /** Fifteen bits for every byte of output are enough. */
  lemma {:induction false} TokensBits(out: seq<U8>, tokens: seq<Token>, n: nat, pbit: nat)
    requires n == 510 && 4 <= pbit <= 5 && AllInLimits(tokens, pbit) && Plays(out, tokens)
    ensures var chars, points := Prefix(Chars(n)), Prefix(Points(PointCount(pbit), pbit));
      TokensOk(tokens, chars, points) && |EncodeTokens(tokens, chars, points)| <= 15 * (|Text(out, tokens)| - |out|)
    ensures |Text(out, tokens)| >= |out| + |tokens|
    decreases |tokens|
  {
    hide Chars, Points, EncodeToken, TokenOk, InLimits, Copy;
    if tokens != [] {
      var t := tokens[0];
      TokenFits(t, n, pbit);
      assert |Play(out, t)| >= |out| + 1 && (t.Match? ==> |Play(out, t)| >= |out| + 3) by { MatchGrows(out, t, pbit); }
      TokensBits(Play(out, t), tokens[1..], n, pbit);
      forall i | 0 <= i < |tokens| ensures TokenOk(tokens[i], Prefix(Chars(n)), Prefix(Points(PointCount(pbit), pbit))) {
        TokenFits(tokens[i], n, pbit);
      }
    }
  }

  lemma MatchGrows(out: seq<U8>, t: Token, pbit: nat)
    requires InLimits(t, pbit) && (t.Match? ==> t.pos < |out|)
    ensures |Play(out, t)| >= |out| + if t.Match? then 3 else 1
  {
  }

  function Cut(n: nat, x: nat, pbit: nat, tokens: seq<Token>): seq<Block>
    requires n == 510 && x == 10 && 4 <= pbit <= 5
    decreases |tokens|
  {
    if tokens == [] then []
    else if |tokens| <= 0x1_0000 then [TokenBlock(n, x, pbit, tokens)]
    else [TokenBlock(n, x, pbit, tokens[..0x1_0000])] + Cut(n, x, pbit, tokens[0x1_0000..])
  }

  lemma {:induction false} TextJoined(out: seq<U8>, a: seq<Token>, b: seq<Token>)
    requires Plays(out, a + b)
    ensures Plays(out, a) && Plays(Text(out, a), b) && Text(out, a + b) == Text(Text(out, a), b)
    decreases |a|
  {
    hide Play;
    if a == [] {
      assert a + b == b;
    } else {
      assert (a + b)[1..] == a[1..] + b && (a + b)[0] == a[0];
      TextJoined(Play(out, a[0]), a[1..], b);
    }
  }

  lemma BlockBound(out: seq<U8>, tokens: seq<Token>, n: nat, x: nat, pbit: nat)
    requires n == 510 && x == 10 && 4 <= pbit <= 5 && 1 <= |tokens| <= 0x1_0000
    requires AllInLimits(tokens, pbit) && Plays(out, tokens)
    ensures var b := TokenBlock(n, x, pbit, tokens);
      BlockOk(b, pbit) && |EncodeBlock(b, pbit)| <= 800 + 15 * (|Text(out, tokens)| - |out|)
    ensures |Text(out, tokens)| >= |out| + |tokens|
  {
    hide BlockOk, EncodeTokens, EncodeHeader, TokensOk, Text, Plays, AllInLimits, Extras, Chars, Points, PlainRuns;
    TokenBlockOk(n, x, pbit, tokens);
    HeaderBound(n, x, pbit, tokens);
    TokensBits(out, tokens, n, pbit);
  }

  lemma CutStep(n: nat, x: nat, pbit: nat, tokens: seq<Token>, k: nat)
    requires n == 510 && x == 10 && 4 <= pbit <= 5
    requires tokens != [] && k == if |tokens| <= 0x1_0000 then |tokens| else 0x1_0000
    ensures Cut(n, x, pbit, tokens) == [TokenBlock(n, x, pbit, tokens[..k])] + Cut(n, x, pbit, tokens[k..])
  {
    hide TokenBlock;
    if k == |tokens| {
      assert tokens[..k] == tokens && tokens[k..] == [];
      assert [TokenBlock(n, x, pbit, tokens)] + [] == [TokenBlock(n, x, pbit, tokens)];
      NothingCut(n, x, pbit);
    }
  }

  lemma NothingCut(n: nat, x: nat, pbit: nat)
    requires n == 510 && x == 10 && 4 <= pbit <= 5
    ensures Cut(n, x, pbit, []) == []
  {
  }

  lemma LimitsSplit(tokens: seq<Token>, k: nat, pbit: nat)
    requires AllInLimits(tokens, pbit) && k <= |tokens|
    ensures AllInLimits(tokens[..k], pbit) && AllInLimits(tokens[k..], pbit) && tokens == tokens[..k] + tokens[k..]
  {
    hide InLimits;
  }

  lemma {:induction false} CutIsShort(out: seq<U8>, tokens: seq<Token>, n: nat, x: nat, pbit: nat)
    requires n == 510 && x == 10 && 4 <= pbit <= 5 && AllInLimits(tokens, pbit) && Plays(out, tokens)
    ensures var blocks := Cut(n, x, pbit, tokens);
      && BlocksOk(blocks, pbit) && AllTokens(blocks) == tokens
      && |EncodeBlocks(blocks, pbit)| <= 800 + 16 * (|Text(out, tokens)| - |out|)
    decreases |tokens|
  {
    if tokens == [] {
      NothingCut(n, x, pbit);
    } else {
      hide TokenBlock, BlockOk, BlocksOk, EncodeBlock, EncodeBlocks, Cut, AllTokens, Text, Plays, AllInLimits;
      var k := if |tokens| <= 0x1_0000 then |tokens| else 0x1_0000;
      var head, rest := tokens[..k], tokens[k..];
      LimitsSplit(tokens, k, pbit);
      TextJoined(out, head, rest);
      BlockBound(out, head, n, x, pbit);
      CutStep(n, x, pbit, tokens, k);
      CutIsShort(Text(out, head), rest, n, x, pbit);
      TokensOf(n, x, pbit, head);
      OneMoreBlock(TokenBlock(n, x, pbit, head), Cut(n, x, pbit, rest), pbit);
      if rest == [] {
        NothingCut(n, x, pbit);
        NothingEncoded(pbit);
      }
    }
  }

  lemma OneMoreBlock(b: Block, rest: seq<Block>, pbit: nat)
    requires BlockOk(b, pbit) && BlocksOk(rest, pbit)
    ensures BlocksOk([b] + rest, pbit) && AllTokens([b] + rest) == b.tokens + AllTokens(rest)
    ensures |EncodeBlocks([b] + rest, pbit)| == |EncodeBlock(b, pbit)| + |EncodeBlocks(rest, pbit)|
  {
    hide BlockOk, EncodeBlock;
    assert ([b] + rest)[1..] == rest;
  }

  lemma TokensOf(n: nat, x: nat, pbit: nat, tokens: seq<Token>)
    requires n == 510 && x == 10 && 4 <= pbit <= 5
    ensures TokenBlock(n, x, pbit, tokens).tokens == tokens
  {
  }

  lemma NothingEncoded(pbit: nat)
    ensures BlocksOk([], pbit) && EncodeBlocks([], pbit) == []
  {
  }

  /** Whatever literals and matches within the limits of the format a text is made
      of, some payload is read as exactly that text: lengths from 3 to 256, and
      positions below 2^14 under EFI compression or 2^30 under Tiano. */
  lemma EveryTokenListHasPayload(tokens: seq<Token>, pbit: nat) returns (data: seq<U8>)
    requires (pbit == 4 || pbit == 5) && Plays([], tokens) && |Text([], tokens)| <= 536870912
    requires forall i :: 0 <= i < |tokens| && tokens[i].Match? ==>
               3 <= tokens[i].len <= 256 && tokens[i].pos < if pbit == 4 then 0x4000 else 0x4000_0000
    ensures Decompressed(data, pbit) == Some(Text([], tokens))
  {
    hide Cut, BlocksOk, EncodeBlocks, Plays, Text, Decompressed, Pack, Payload;
    var n, x := 510, 10;
    CutIsShort([], tokens, n, x, pbit);
    var blocks := Cut(n, x, pbit, tokens);
    assert |Pack(EncodeBlocks(blocks, pbit))| == (|EncodeBlocks(blocks, pbit)| + 7) / 8;
    data := Payload(blocks, pbit, []);
    RoundTrip(blocks, pbit, []);
  }

  function Literals(text: seq<U8>): (ts: seq<Token>)
    ensures |ts| == |text|
  {
    seq(|text|, i requires 0 <= i < |text| => Literal(text[i]))
  }

  lemma {:induction false} LiteralsText(out: seq<U8>, text: seq<U8>)
    ensures Plays(out, Literals(text)) && Text(out, Literals(text)) == out + text
    decreases |text|
  {
    if text == [] {
      assert out + text == out;
    } else {
      LiteralsText(out + [text[0]], text[1..]);
      assert Literals(text)[1..] == Literals(text[1..]);
      assert out + [text[0]] + text[1..] == out + text;
    }
  }

  /** So every text up to the size limit is what some payload stands for. */
  lemma EveryTextHasPayload(text: seq<U8>, pbit: nat) returns (data: seq<U8>)
    requires |text| <= 536870912 && (pbit == 4 || pbit == 5)
    ensures Decompressed(data, pbit) == Some(text)
  {
    hide Plays, Text, Decompressed;
    LiteralsText([], text);
    assert [] + text == text;
    data := EveryTokenListHasPayload(Literals(text), pbit);
  }
}
