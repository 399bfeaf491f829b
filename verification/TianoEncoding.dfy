/** Writing the format: every way to cut a token list into blocks with valid
    code sets, and the theorem that reading it back gives the tokens' text. */
module TianoEncoding {
  import opened Results
  import opened Words
  import opened BitStreams
  import opened Canonical
  import opened TianoFormat

  // Symbols

  ghost predicate Encodable(codes: Codes, c: nat) {
    match codes
    case Single(sym) => c == sym
    case Prefix(lens) => HasCode(lens, c)
  }

  function EncodeSymbol(codes: Codes, c: nat): seq<bool>
    requires codes.Prefix? ==> HasCode(codes.lens, c)
  {
    match codes
    case Single(_) => []
    case Prefix(lens) => ToBits(Codeword(lens, c), lens[c])
  }

  lemma SymbolRoundTrip(codes: Codes, n: nat, c: nat, s: seq<bool>, pos: nat)
    requires ValidCodes(codes, n) && Encodable(codes, c) && At(s, pos, EncodeSymbol(codes, c))
    ensures ReadSymbol(codes, s, pos) == Some((c, pos + |EncodeSymbol(codes, c)|)) && c < n
  {
    hide Codeword, BitsAt, Complete, ToBits, At;
    match codes
    case Single(_) =>
    case Prefix(lens) =>
      CodewordBound(lens, c);
      ReadToBits(s, pos, Codeword(lens, c), lens[c]);
      assert Matches(lens, c, s, pos);
      var a: nat :| Matches(lens, a, s, pos) && ReadSymbol(codes, s, pos) == Some((a, pos + lens[a]));
      MatchUnique(lens, a, c, s, pos);
  }

  // Code lengths

  function Ones(n: nat): (x: seq<bool>)
    ensures |x| == n
  {
    seq(n, _ => true)
  }

  function EncodeLen(l: U8): seq<bool>
    requires l <= 16
  {
    if l < 7 then ToBits(l, 3) else ToBits(7, 3) + Ones(l - 7) + [false]
  }

  lemma LenRoundTrip(l: U8, s: seq<bool>, pos: nat)
    requires l <= 16 && At(s, pos, EncodeLen(l))
    ensures ReadLen(s, pos) == Some((l, pos + |EncodeLen(l)|))
  {
    hide BitsAt, At, ToBits, ReadUnary;
    assert Pow2(3) == 8;
    if l < 7 {
      ReadToBits(s, pos, l, 3);
    } else {
      AtConcat(s, pos, ToBits(7, 3) + Ones(l - 7), [false]);
      AtConcat(s, pos, ToBits(7, 3), Ones(l - 7));
      ReadToBits(s, pos, 7, 3);
      UnaryRoundTrip(l, 7, s, pos + 3);
    }
  }

  lemma {:induction false} UnaryRoundTrip(l: U8, v: nat, s: seq<bool>, pos: nat)
    requires 7 <= v <= l <= 16 && At(s, pos, Ones(l - v)) && At(s, pos + (l - v), [false])
    ensures ReadUnary(s, pos, v) == Some((l, pos + (l - v) + 1))
    decreases l - v
  {
    if v == l {
      assert [false][0] == false;
    } else {
      assert Ones(l - v)[0];
      assert Ones(l - v) == [true] + Ones(l - v - 1);
      AtConcat(s, pos, [true], Ones(l - v - 1));
      UnaryRoundTrip(l, v + 1, s, pos + 1);
    }
  }

  /** The lengths from index `i` up to `n`; after the third one, if `special`,
      two bits say how many zero lengths are skipped. */
  function EncodeLens(lens: seq<U8>, i: nat, n: nat, special: nat, skip: nat): seq<bool>
    requires n <= |lens| && forall k :: 0 <= k < |lens| ==> lens[k] <= 16
    decreases n - i
  {
    if i >= n then []
    else if i + 1 == special then EncodeLen(lens[i]) + ToBits(skip, 2) + EncodeLens(lens, i + 1 + skip, n, special, skip)
    else EncodeLen(lens[i]) + EncodeLens(lens, i + 1, n, special, skip)
  }

  ghost predicate SkipOk(lens: seq<U8>, n: nat, special: nat, skip: nat) {
    special <= n ==> skip <= 3 && special + skip <= |lens| && forall k :: special <= k < special + skip ==> lens[k] == 0
  }

  /** Index at which reading `n` lengths stops. */
  function StopIndex(i: nat, n: nat, special: nat, skip: nat): nat {
    if i < special <= n && special + skip > n then special + skip else if i >= n then i else n
  }

  lemma {:induction false} LensRoundTrip(lens: seq<U8>, i: nat, n: nat, special: nat, skip: nat, s: seq<bool>, pos: nat)
    requires n <= |lens| && (forall k :: 0 <= k < |lens| ==> lens[k] <= 16) && i <= |lens|
    requires SkipOk(lens, n, special, skip) && At(s, pos, EncodeLens(lens, i, n, special, skip))
    ensures StopIndex(i, n, special, skip) <= |lens|
    ensures ReadLens(s, pos, n, special, lens[..i])
         == Some((lens[..StopIndex(i, n, special, skip)], pos + |EncodeLens(lens, i, n, special, skip)|))
    decreases n - i
  {
    hide BitsAt, At, ToBits, ReadLen, EncodeLen;
    if i < n {
      var l, e := lens[i], EncodeLen(lens[i]);
      if i + 1 == special {
        var rest := EncodeLens(lens, i + 1 + skip, n, special, skip);
        AtConcat(s, pos, e + ToBits(skip, 2), rest);
        AtConcat(s, pos, e, ToBits(skip, 2));
        LenRoundTrip(l, s, pos);
        assert Pow2(2) == 4;
        ReadToBits(s, pos + |e|, skip, 2);
        LensRoundTrip(lens, i + 1 + skip, n, special, skip, s, pos + |e| + 2);
        assert lens[..i + 1 + skip] == lens[..i] + [l] + Zeros(skip);
      } else {
        AtConcat(s, pos, e, EncodeLens(lens, i + 1, n, special, skip));
        LenRoundTrip(l, s, pos);
        LensRoundTrip(lens, i + 1, n, special, skip, s, pos + |e|);
        assert lens[..i + 1] == lens[..i] + [l];
      }
    }
  }

  /** How the writer puts down a code set: the number of lengths and the skip. */
  datatype Layout = Layout(number: nat, skip: nat)

  ghost predicate LayoutOk(codes: Codes, nn: nat, nbit: nat, special: nat, y: Layout) {
    && ValidCodes(codes, nn) && nn <= NPT
    && match codes
       case Single(c) => c < Pow2(nbit)
       case Prefix(lens) =>
         && 1 <= y.number <= nn && y.number < Pow2(nbit) && SkipOk(lens, y.number, special, y.skip)
         && forall k :: y.number <= k < nn ==> lens[k] == 0
  }

  ghost function EncodePt(codes: Codes, nn: nat, nbit: nat, special: nat, y: Layout): seq<bool>
    requires LayoutOk(codes, nn, nbit, special, y)
  {
    match codes
    case Single(c) => ToBits(0, nbit) + ToBits(c, nbit)
    case Prefix(lens) => ToBits(y.number, nbit) + EncodeLens(lens, 0, y.number, special, y.skip)
  }

  /** The header of the extra set and of the position set reads back. */
  lemma PtRoundTrip(codes: Codes, nn: nat, nbit: nat, special: nat, y: Layout, s: seq<bool>, pos: nat)
    requires LayoutOk(codes, nn, nbit, special, y) && At(s, pos, EncodePt(codes, nn, nbit, special, y))
    ensures ReadPtCodes(s, pos, nn, nbit, special) == Some((codes, pos + |EncodePt(codes, nn, nbit, special, y)|))
  {
    hide BitsAt, At, ToBits, KraftSum, EncodeLens, ReadLens, Pow2;
    match codes
    case Single(c) =>
      AtConcat(s, pos, ToBits(0, nbit), ToBits(c, nbit));
      ReadToBits(s, pos, 0, nbit);
      ReadToBits(s, pos + nbit, c, nbit);
    case Prefix(lens) =>
      AtConcat(s, pos, ToBits(y.number, nbit), EncodeLens(lens, 0, y.number, special, y.skip));
      ReadToBits(s, pos, y.number, nbit);
      LensRoundTrip(lens, 0, y.number, special, y.skip, s, pos + nbit);
      var k := StopIndex(0, y.number, special, y.skip);
      assert lens[..0] == [];
      assert Fit(lens[..k], nn) == lens;
  }

  // The run-length form of the character lengths

  datatype Run = OneZero | FewZeros(k: nat) | ManyZeros(k: nat) | Length(l: U8)

  predicate RunOk(r: Run) {
    match r
    case OneZero => true
    case FewZeros(k) => 3 <= k < 19
    case ManyZeros(k) => 20 <= k < 532
    case Length(l) => 1 <= l <= 16
  }

  function RunSymbol(r: Run): nat {
    match r
    case OneZero => 0
    case FewZeros(_) => 1
    case ManyZeros(_) => 2
    case Length(l) => l as nat + 2
  }

  function RunBits(r: Run): seq<bool>
    requires RunOk(r)
  {
    match r
    case OneZero => []
    case FewZeros(k) => ToBits(k - 3, 4)
    case ManyZeros(k) => ToBits(k - 20, CBIT)
    case Length(_) => []
  }

  function RunText(r: Run): (x: seq<U8>)
    requires RunOk(r)
    ensures |x| >= 1
  {
    match r
    case OneZero => Zeros(1)
    case FewZeros(k) => Zeros(k)
    case ManyZeros(k) => Zeros(k)
    case Length(l) => [l]
  }

  ghost predicate RunsOk(pt: Codes, runs: seq<Run>) {
    forall i :: 0 <= i < |runs| ==> RunOk(runs[i]) && Encodable(pt, RunSymbol(runs[i]))
  }

  ghost function RunsText(pt: Codes, runs: seq<Run>): seq<U8>
    requires RunsOk(pt, runs)
  {
    if runs == [] then [] else RunText(runs[0]) + RunsText(pt, runs[1..])
  }

  ghost function EncodeRuns(pt: Codes, runs: seq<Run>): seq<bool>
    requires RunsOk(pt, runs)
  {
    if runs == [] then []
    else EncodeSymbol(pt, RunSymbol(runs[0])) + (RunBits(runs[0]) + EncodeRuns(pt, runs[1..]))
  }

  lemma RunRoundTrip(r: Run, s: seq<bool>, pos: nat)
    requires RunOk(r) && At(s, pos, RunBits(r))
    ensures RunSymbol(r) < NT && ReadRun(s, RunSymbol(r), pos) == (RunText(r), pos + |RunBits(r)|)
  {
    hide BitsAt, At, ToBits;
    assert Pow2(4) == 16 && Pow2(9) == 512;
    match r
    case OneZero =>
    case FewZeros(k) => ReadToBits(s, pos, k - 3, 4);
    case ManyZeros(k) => ReadToBits(s, pos, k - 20, CBIT);
    case Length(_) =>
  }

  /** A reader that asks for `number` lengths and has `have` of them takes all of
      the runs, no more and no less. */
  ghost predicate Fills(runs: seq<Run>, number: nat, have: nat)
    requires forall i :: 0 <= i < |runs| ==> RunOk(runs[i])
    decreases |runs|
  {
    if runs == [] then have >= number || have >= NC
    else have < number && have < NC && Fills(runs[1..], number, have + |RunText(runs[0])|)
  }

  lemma CapTwice(acc: seq<U8>, run: seq<U8>, rest: seq<U8>)
    ensures |acc + run| <= NC ==> Cap(Cap(acc + run) + rest) == Cap(acc + (run + rest))
    ensures |acc + run| > NC && rest == [] ==> Cap(Cap(acc + run) + rest) == Cap(acc + (run + rest))
    ensures |Cap(acc + run)| == if |acc| + |run| > NC then NC else |acc| + |run|
  {
    assert acc + run + rest == acc + (run + rest);
    if rest == [] {
      assert Cap(acc + run) + rest == Cap(acc + run);
      assert run + rest == run;
    }
  }

  /** The run-length form reads back, cut to 510 lengths if the last run is longer. */
  lemma {:induction false} RunsRoundTrip(pt: Codes, runs: seq<Run>, number: nat, acc: seq<U8>, s: seq<bool>, pos: nat)
    requires ValidCodes(pt, NT) && RunsOk(pt, runs) && At(s, pos, EncodeRuns(pt, runs))
    requires |acc| <= NC && Fills(runs, number, |acc|)
    ensures ReadCLens(s, pos, pt, number, acc) == Some((Cap(acc + RunsText(pt, runs)), pos + |EncodeRuns(pt, runs)|))
    decreases |runs|
  {
    hide BitsAt, At, ToBits, ValidCodes, EncodeSymbol, ReadSymbol, ReadCLens, ReadRun, RunBits, RunText, RunSymbol, RunOk, Cap;
    if runs == [] {
      RunsEnd(s, pos, pt, number, acc);
      NotCut(acc);
    } else {
      var r := runs[0];
      var e := EncodeSymbol(pt, RunSymbol(r));
      var rest := RunsText(pt, runs[1..]);
      AtConcat(s, pos, e, RunBits(r) + EncodeRuns(pt, runs[1..]));
      AtConcat(s, pos + |e|, RunBits(r), EncodeRuns(pt, runs[1..]));
      SymbolRoundTrip(pt, NT, RunSymbol(r), s, pos);
      RunRoundTrip(r, s, pos + |e|);
      RunNext(s, pos, pt, number, acc, RunSymbol(r), pos + |e|);
      CapTwice(acc, RunText(r), rest);
      LastIsCut(runs[1..], number, |acc| + |RunText(r)|);
      RunsRoundTrip(pt, runs[1..], number, Cap(acc + RunText(r)), s, pos + |e| + |RunBits(r)|);
    }
  }

  lemma NotCut(acc: seq<U8>)
    requires |acc| <= NC
    ensures Cap(acc + []) == acc
  {
    assert acc + [] == acc;
  }

  /** Behind a cut run there is nothing to read. */
  lemma LastIsCut(runs: seq<Run>, number: nat, have: nat)
    requires (forall i :: 0 <= i < |runs| ==> RunOk(runs[i])) && Fills(runs, number, have)
    ensures have >= NC ==> runs == [] && Fills(runs, number, NC)
  {
  }

  /** How the writer puts down the character lengths: how many it announces, and
      the runs. */
  datatype RunForm = RunForm(number: nat, runs: seq<Run>)

  ghost predicate CharsOk(pt: Codes, codes: Codes, form: RunForm) {
    && ValidCodes(pt, NT) && ValidCodes(codes, NC)
    && match codes
       case Single(_) => true
       case Prefix(lens) =>
         && RunsOk(pt, form.runs) && 1 <= form.number < 512 && Fills(form.runs, form.number, 0)
         && lens == Fit(RunsText(pt, form.runs), NC)
  }

  ghost function EncodeChars(pt: Codes, codes: Codes, form: RunForm): seq<bool>
    requires CharsOk(pt, codes, form)
  {
    match codes
    case Single(c) => ToBits(0, CBIT) + ToBits(c, CBIT)
    case Prefix(lens) => ToBits(form.number, CBIT) + EncodeRuns(pt, form.runs)
  }

  lemma CutFits(x: seq<U8>)
    ensures Fit(Cap([] + x), NC) == Fit(x, NC)
  {
    assert [] + x == x;
  }

  /** The header of the character set reads back. */
  lemma CharsRoundTrip(pt: Codes, codes: Codes, form: RunForm, s: seq<bool>, pos: nat)
    requires CharsOk(pt, codes, form) && At(s, pos, EncodeChars(pt, codes, form))
    ensures ReadCCodes(s, pos, pt) == Some((codes, pos + |EncodeChars(pt, codes, form)|))
  {
    hide BitsAt, At, ToBits, Complete, EncodeRuns, ReadCLens, ReadCCodes, Fit, Cap;
    assert Pow2(9) == 512;
    match codes
    case Single(c) =>
      AtConcat(s, pos, ToBits(0, CBIT), ToBits(c, CBIT));
      ReadToBits(s, pos, 0, CBIT);
      ReadToBits(s, pos + CBIT, c, CBIT);
      ChUnlisted(s, pos, pt);
    case Prefix(lens) =>
      AtConcat(s, pos, ToBits(form.number, CBIT), EncodeRuns(pt, form.runs));
      ReadToBits(s, pos, form.number, CBIT);
      RunsRoundTrip(pt, form.runs, form.number, [], s, pos + CBIT);
      CutFits(RunsText(pt, form.runs));
      ChListed(s, pos, pt);
  }

  /** Every length array has a run-length form. */
  function PlainRuns(lens: seq<U8>): seq<Run> {
    if lens == [] then [] else [if lens[0] == 0 then OneZero else Length(lens[0])] + PlainRuns(lens[1..])
  }

  lemma {:induction false} PlainRunsText(pt: Codes, lens: seq<U8>)
    requires forall i :: 0 <= i < |lens| ==> lens[i] <= 16 && Encodable(pt, if lens[i] == 0 then 0 else lens[i] as nat + 2)
    ensures RunsOk(pt, PlainRuns(lens)) && RunsText(pt, PlainRuns(lens)) == lens
  {
    hide Encodable;
    if lens != [] {
      PlainRunsText(pt, lens[1..]);
      assert PlainRuns(lens)[1..] == PlainRuns(lens[1..]);
      assert Zeros(1) == [0];
    }
  }

  /** So every complete character set can be written with an extra set that has
      the symbols for its lengths. */
  lemma PlainForm(pt: Codes, lens: seq<U8>)
    requires ValidCodes(pt, NT) && |lens| == NC && Complete(lens)
    requires forall i :: 0 <= i < |lens| ==> Encodable(pt, if lens[i] == 0 then 0 else lens[i] as nat + 2)
    ensures CharsOk(pt, Prefix(lens), RunForm(NC, PlainRuns(lens)))
  {
    hide KraftSum, Encodable, Fills, PlainRuns;
    PlainRunsText(pt, lens);
    PlainFills(lens, 0);
    assert lens[0..] == lens;
  }

  lemma {:induction false} PlainFills(lens: seq<U8>, k: nat)
    requires k <= |lens| == NC && forall i :: 0 <= i < |lens| ==> lens[i] <= 16
    ensures var runs := PlainRuns(lens[k..]);
      (forall i :: 0 <= i < |runs| ==> RunOk(runs[i])) && Fills(runs, NC, k)
    decreases NC - k
  {
    if k < NC {
      PlainFills(lens, k + 1);
      assert lens[k..][1..] == lens[k + 1..];
      var runs, rest := PlainRuns(lens[k..]), PlainRuns(lens[k + 1..]);
      assert runs[1..] == rest;
      assert forall i :: 0 < i < |runs| ==> runs[i] == rest[i - 1];
    }
  }

  // Tokens

  /** A literal byte, or a match of `len` bytes from `pos + 1` places back. */
  datatype Token = Literal(b: U8) | Match(len: nat, pos: nat)

  function Log2(n: nat): nat {
    if n <= 1 then 0 else 1 + Log2(n / 2)
  }

  lemma {:induction false} Log2Bounds(n: nat)
    requires n >= 1
    ensures Pow2(Log2(n)) <= n < 2 * Pow2(Log2(n))
  {
    if n > 1 {
      Log2Bounds(n / 2);
    }
  }

  function PositionSymbol(p: nat): nat {
    if p <= 1 then p else 1 + Log2(p)
  }

  function PositionBits(p: nat): seq<bool> {
    if p <= 1 then []
    else
      Log2Bounds(p);
      ToBits(p - Pow2(Log2(p)), Log2(p))
  }

  function TokenSymbol(t: Token): nat {
    match t
    case Literal(b) => b
    case Match(len, _) => len + 253
  }

  ghost predicate TokenOk(t: Token, chars: Codes, points: Codes) {
    && Encodable(chars, TokenSymbol(t))
    && (t.Match? ==> t.len >= 3 && Encodable(points, PositionSymbol(t.pos)))
  }

  ghost function EncodeToken(t: Token, chars: Codes, points: Codes): seq<bool>
    requires TokenOk(t, chars, points)
  {
    match t
    case Literal(b) => EncodeSymbol(chars, b)
    case Match(len, p) => EncodeSymbol(chars, len + 253) + (EncodeSymbol(points, PositionSymbol(p)) + PositionBits(p))
  }

  lemma PositionRoundTrip(points: Codes, p: nat, s: seq<bool>, pos: nat)
    requires ValidCodes(points, MAXNP) && Encodable(points, PositionSymbol(p))
    requires At(s, pos, EncodeSymbol(points, PositionSymbol(p)) + PositionBits(p))
    ensures ReadPosition(points, s, pos) == Some((p, pos + |EncodeSymbol(points, PositionSymbol(p)) + PositionBits(p)|))
  {
    hide BitsAt, At, ToBits, ValidCodes, EncodeSymbol, ReadSymbol;
    var e := EncodeSymbol(points, PositionSymbol(p));
    AtConcat(s, pos, e, PositionBits(p));
    SymbolRoundTrip(points, MAXNP, PositionSymbol(p), s, pos);
    if p > 1 {
      Log2Bounds(p);
      ReadToBits(s, pos + |e|, p - Pow2(Log2(p)), Log2(p));
    }
  }

  /** What the token adds to the output. */
  function Play(out: seq<U8>, t: Token): seq<U8>
    requires t.Match? ==> t.pos < |out|
  {
    match t
    case Literal(b) => out + [b]
    case Match(len, p) => Copy(out, p + 1, len)
  }

  predicate Plays(out: seq<U8>, tokens: seq<Token>)
    decreases |tokens|
  {
    tokens != [] ==>
      && (tokens[0].Match? ==> tokens[0].pos < |out| && tokens[0].len >= 1)
      && Plays(Play(out, tokens[0]), tokens[1..])
  }

  /** The text of a token list. */
  function Text(out: seq<U8>, tokens: seq<Token>): (r: seq<U8>)
    requires Plays(out, tokens)
    ensures |r| >= |out| && (tokens != [] ==> |r| > |out|)
    decreases |tokens|
  {
    if tokens == [] then out else Text(Play(out, tokens[0]), tokens[1..])
  }

  /** Reading one token plays it. `h` is the cursor after the block header, if
      one is due, and the cursor itself otherwise. */
  lemma TokenRoundTrip(t: Token, s: seq<bool>, cur: Cursor, h: Cursor, out: seq<U8>, orig: nat, pbit: nat)
    requires if cur.left == 0 then ReadHeader(s, cur.pos, pbit) == Some(h) else h == cur
    requires ValidCodes(h.chars, NC) && ValidCodes(h.points, MAXNP) && TokenOk(t, h.chars, h.points)
    requires At(s, h.pos, EncodeToken(t, h.chars, h.points))
    requires (t.Match? ==> t.pos < |out|) && |out| < |Play(out, t)| <= orig
    ensures var next := h.(pos := h.pos + |EncodeToken(t, h.chars, h.points)|, left := (h.left + 0xFFFF) % 0x1_0000);
      Decode(s, cur, out, orig, pbit) ==
        if t.Match? && |Play(out, t)| == orig then Some(Play(out, t)) else Decode(s, next, Play(out, t), orig, pbit)
  {
    hide BitsAt, At, ValidCodes, EncodeSymbol, ReadSymbol, ReadHeader, ReadPosition, PositionBits, PositionSymbol, Copy;
    var c := TokenSymbol(t);
    var e := EncodeSymbol(h.chars, c);
    if t.Match? {
      AtConcat(s, h.pos, e, EncodeSymbol(h.points, PositionSymbol(t.pos)) + PositionBits(t.pos));
      SymbolRoundTrip(h.chars, NC, c, s, h.pos);
      PositionRoundTrip(h.points, t.pos, s, h.pos + |e|);
    } else {
      SymbolRoundTrip(h.chars, NC, c, s, h.pos);
    }
  }

  // Blocks

  datatype Block = Block(
    extra: Codes, extraLayout: Layout, chars: Codes, runs: RunForm,
    points: Codes, pointsLayout: Layout, tokens: seq<Token>)

  ghost predicate BlockOk(b: Block, pbit: nat) {
    && LayoutOk(b.extra, NT, TBIT, 3, b.extraLayout)
    && CharsOk(b.extra, b.chars, b.runs)
    && LayoutOk(b.points, MAXNP, pbit, NEVER, b.pointsLayout)
    && 1 <= |b.tokens| <= 0x1_0000 && TokensOk(b.tokens, b.chars, b.points)
  }

  ghost predicate TokensOk(tokens: seq<Token>, chars: Codes, points: Codes) {
    forall i :: 0 <= i < |tokens| ==> TokenOk(tokens[i], chars, points)
  }

  ghost function EncodeTokens(tokens: seq<Token>, chars: Codes, points: Codes): seq<bool>
    requires TokensOk(tokens, chars, points)
  {
    if tokens == [] then []
    else EncodeToken(tokens[0], chars, points) + EncodeTokens(tokens[1..], chars, points)
  }

  ghost function EncodeHeader(b: Block, pbit: nat): seq<bool>
    requires BlockOk(b, pbit)
  {
    ToBits(|b.tokens| % 0x1_0000, 16)
    + (EncodePt(b.extra, NT, TBIT, 3, b.extraLayout)
       + (EncodeChars(b.extra, b.chars, b.runs)
          + EncodePt(b.points, MAXNP, pbit, NEVER, b.pointsLayout)))
  }

  ghost function EncodeBlock(b: Block, pbit: nat): seq<bool>
    requires BlockOk(b, pbit)
  {
    EncodeHeader(b, pbit) + EncodeTokens(b.tokens, b.chars, b.points)
  }

  lemma HeaderRoundTrip(b: Block, pbit: nat, s: seq<bool>, pos: nat)
    requires BlockOk(b, pbit) && At(s, pos, EncodeHeader(b, pbit))
    ensures ReadHeader(s, pos, pbit)
         == Some(Cursor(pos + |EncodeHeader(b, pbit)|, |b.tokens| % 0x1_0000, b.chars, b.points))
  {
    hide BitsAt, At, ToBits, LayoutOk, CharsOk, EncodePt, EncodeChars, ReadPtCodes, ReadCCodes, TokensOk;
    var e1, e2, e3 := EncodePt(b.extra, NT, TBIT, 3, b.extraLayout), EncodeChars(b.extra, b.chars, b.runs),
      EncodePt(b.points, MAXNP, pbit, NEVER, b.pointsLayout);
    Pow2Of32();
    AtConcat(s, pos, ToBits(|b.tokens| % 0x1_0000, 16), e1 + (e2 + e3));
    AtConcat(s, pos + 16, e1, e2 + e3);
    AtConcat(s, pos + 16 + |e1|, e2, e3);
    ReadToBits(s, pos, |b.tokens| % 0x1_0000, 16);
    PtRoundTrip(b.extra, NT, TBIT, 3, b.extraLayout, s, pos + 16);
    CharsRoundTrip(b.extra, b.chars, b.runs, s, pos + 16 + |e1|);
    PtRoundTrip(b.points, MAXNP, pbit, NEVER, b.pointsLayout, s, pos + 16 + |e1| + |e2|);
  }

  ghost predicate BlocksOk(blocks: seq<Block>, pbit: nat) {
    forall i :: 0 <= i < |blocks| ==> BlockOk(blocks[i], pbit)
  }

  ghost function EncodeBlocks(blocks: seq<Block>, pbit: nat): seq<bool>
    requires BlocksOk(blocks, pbit)
  {
    if blocks == [] then [] else EncodeBlock(blocks[0], pbit) + EncodeBlocks(blocks[1..], pbit)
  }

  function AllTokens(blocks: seq<Block>): seq<Token> {
    if blocks == [] then [] else blocks[0].tokens + AllTokens(blocks[1..])
  }

  /** Behind the last token only zeros follow: they read as a block of one-symbol
      code sets, whose literal 0 is dropped. */
  lemma PhantomSymbol(s: seq<bool>, cur: Cursor, out: seq<U8>, pbit: nat)
    requires cur.left == 0 && ZerosFrom(s, cur.pos)
    ensures Decode(s, cur, out, |out|, pbit) == Some(out)
  {
    hide BitsAt, Bit;
    ZeroBits(s, cur.pos, 16);
    var p := cur.pos + 16;
    ZeroBits(s, p, TBIT);
    ZeroBits(s, p + TBIT, TBIT);
    assert ReadPtCodes(s, p, NT, TBIT, 3) == Some((Single(0), p + TBIT + TBIT));
    p := p + TBIT + TBIT;
    ZeroBits(s, p, CBIT);
    ZeroBits(s, p + CBIT, CBIT);
    assert ReadCCodes(s, p, Single(0)) == Some((Single(0), p + CBIT + CBIT));
    p := p + CBIT + CBIT;
    ZeroBits(s, p, pbit);
    ZeroBits(s, p + pbit, pbit);
    assert ReadPtCodes(s, p, MAXNP, pbit, NEVER) == Some((Single(0), p + pbit + pbit));
    assert NextSymbol(s, cur, pbit).Some? && NextSymbol(s, cur, pbit).value.0 == 0;
  }

  ghost function EncodeRest(tokens: seq<Token>, chars: Codes, points: Codes, blocks: seq<Block>, pbit: nat): seq<bool>
    requires TokensOk(tokens, chars, points) && BlocksOk(blocks, pbit)
  {
    EncodeTokens(tokens, chars, points) + EncodeBlocks(blocks, pbit)
  }

  /** The stream holds, at the cursor, the tokens in the cursor's code sets, then
      the blocks, then zeros. */
  ghost predicate Holds(s: seq<bool>, h: Cursor, tokens: seq<Token>, blocks: seq<Block>, pbit: nat) {
    && BlocksOk(blocks, pbit) && ValidCodes(h.chars, NC) && ValidCodes(h.points, MAXNP)
    && TokensOk(tokens, h.chars, h.points)
    && At(s, h.pos, EncodeRest(tokens, h.chars, h.points, blocks, pbit))
    && ZerosFrom(s, h.pos + |EncodeRest(tokens, h.chars, h.points, blocks, pbit)|)
  }

  lemma HoldsTail(s: seq<bool>, h: Cursor, tokens: seq<Token>, blocks: seq<Block>, pbit: nat, left: nat)
    requires tokens != [] && Holds(s, h, tokens, blocks, pbit)
    ensures TokenOk(tokens[0], h.chars, h.points)
    ensures At(s, h.pos, EncodeToken(tokens[0], h.chars, h.points))
    ensures Holds(s, h.(pos := h.pos + |EncodeToken(tokens[0], h.chars, h.points)|, left := left), tokens[1..], blocks, pbit)
  {
    hide At, ValidCodes, BlockOk, ZerosFrom, EncodeToken, TokenOk, EncodeBlocks;
    var e := EncodeToken(tokens[0], h.chars, h.points);
    assert EncodeTokens(tokens, h.chars, h.points) == e + EncodeTokens(tokens[1..], h.chars, h.points);
    var more := EncodeRest(tokens[1..], h.chars, h.points, blocks, pbit);
    assert EncodeRest(tokens, h.chars, h.points, blocks, pbit) == e + more;
    AtConcat(s, h.pos, e, more);
  }

  /** At the end of a block the next block's header reads, and its tokens follow. */
  lemma HoldsBlock(s: seq<bool>, cur: Cursor, blocks: seq<Block>, pbit: nat) returns (h: Cursor)
    requires blocks != [] && Holds(s, cur, [], blocks, pbit)
    ensures ReadHeader(s, cur.pos, pbit) == Some(h) && h.left == |blocks[0].tokens| % 0x1_0000
    ensures Holds(s, h, blocks[0].tokens, blocks[1..], pbit)
  {
    hide At, LayoutOk, CharsOk, ZerosFrom, EncodeTokens, EncodeHeader, ReadHeader;
    var b := blocks[0];
    var e, more := EncodeHeader(b, pbit), EncodeRest(b.tokens, b.chars, b.points, blocks[1..], pbit);
    assert EncodeTokens([], cur.chars, cur.points) == [] by {
      NoTokens(cur.chars, cur.points);
    }
    assert EncodeRest([], cur.chars, cur.points, blocks, pbit) == e + more;
    AtConcat(s, cur.pos, e, more);
    HeaderRoundTrip(b, pbit, s, cur.pos);
    h := Cursor(cur.pos + |e|, |b.tokens| % 0x1_0000, b.chars, b.points);
    BlockCodes(b, pbit);
  }

  lemma NoTokens(chars: Codes, points: Codes)
    ensures EncodeTokens([], chars, points) == []
  {
  }

  lemma BlockCodes(b: Block, pbit: nat)
    requires BlockOk(b, pbit)
    ensures ValidCodes(b.chars, NC) && ValidCodes(b.points, MAXNP)
  {
  }

  lemma PlaysTail(out: seq<U8>, t: Token, rest: seq<Token>)
    requires Plays(out, [t] + rest)
    ensures (t.Match? ==> t.pos < |out|) && |Play(out, t)| > |out|
    ensures Plays(Play(out, t), rest) && Text(out, [t] + rest) == Text(Play(out, t), rest)
  {
    assert ([t] + rest)[1..] == rest;
  }

  /** From any place in the token list on, reading yields the rest of the text. */
  lemma {:induction false} RestRoundTrip(s: seq<bool>, cur: Cursor, tokens: seq<Token>, blocks: seq<Block>, out: seq<U8>, orig: nat, pbit: nat)
    requires Holds(s, cur, tokens, blocks, pbit) && cur.left == |tokens| < 0x1_0000
    requires Plays(out, tokens + AllTokens(blocks)) && orig == |Text(out, tokens + AllTokens(blocks))|
    ensures Decode(s, cur, out, orig, pbit) == Some(Text(out, tokens + AllTokens(blocks)))
    decreases |blocks|, |tokens|, 1
  {
    hide Decode, Plays, Text, ReadHeader, Holds;
    if tokens != [] {
      TokensRoundTrip(s, cur, cur, tokens, blocks, out, orig, pbit);
    } else if blocks == [] {
      assert tokens + AllTokens(blocks) == [];
      EmptyText(out);
      HoldsNothing(s, cur, pbit);
      PhantomSymbol(s, cur, out, pbit);
    } else {
      assert tokens + AllTokens(blocks) == blocks[0].tokens + AllTokens(blocks[1..]);
      var h := HoldsBlock(s, cur, blocks, pbit);
      BlockSize(s, cur, blocks, pbit);
      TokensRoundTrip(s, cur, h, blocks[0].tokens, blocks[1..], out, orig, pbit);
    }
  }

  lemma EmptyText(out: seq<U8>)
    ensures Plays(out, []) && Text(out, []) == out
  {
  }

  lemma HoldsNothing(s: seq<bool>, cur: Cursor, pbit: nat)
    requires Holds(s, cur, [], [], pbit)
    ensures ZerosFrom(s, cur.pos)
  {
    hide ZerosFrom, At, ValidCodes;
    assert EncodeRest([], cur.chars, cur.points, [], pbit) == [];
  }

  lemma BlockSize(s: seq<bool>, cur: Cursor, blocks: seq<Block>, pbit: nat)
    requires blocks != [] && Holds(s, cur, [], blocks, pbit)
    ensures 1 <= |blocks[0].tokens| <= 0x1_0000
  {
    hide ZerosFrom, At, ValidCodes, LayoutOk, CharsOk, TokensOk, EncodeRest;
  }

  lemma {:induction false} TokensRoundTrip(s: seq<bool>, cur: Cursor, h: Cursor, tokens: seq<Token>, blocks: seq<Block>, out: seq<U8>, orig: nat, pbit: nat)
    requires if cur.left == 0 then ReadHeader(s, cur.pos, pbit) == Some(h) else h == cur
    requires Holds(s, h, tokens, blocks, pbit) && 1 <= |tokens| <= 0x1_0000 && h.left == |tokens| % 0x1_0000
    requires Plays(out, tokens + AllTokens(blocks)) && orig == |Text(out, tokens + AllTokens(blocks))|
    ensures Decode(s, cur, out, orig, pbit) == Some(Text(out, tokens + AllTokens(blocks)))
    decreases |blocks|, |tokens|, 0
  {
    hide Decode, Plays, Text, ReadHeader, At, ZerosFrom, EncodeRest, EncodeToken, TokenOk, TokensOk, BlocksOk, Play;
    var t, rest := tokens[0], tokens[1..] + AllTokens(blocks);
    assert tokens + AllTokens(blocks) == [t] + rest;
    PlaysTail(out, t, rest);
    HoldsTail(s, h, tokens, blocks, pbit, |tokens| - 1);
    TokenRoundTrip(t, s, cur, h, out, orig, pbit);
    if t.Match? && |Play(out, t)| == orig {
      assert rest == [];
      EmptyText(Play(out, t));
    } else {
      var next := h.(pos := h.pos + |EncodeToken(t, h.chars, h.points)|, left := |tokens| - 1);
      RestRoundTrip(s, next, tokens[1..], blocks, Play(out, t), orig, pbit);
    }
  }

  // The payload

  function Pack(bits: seq<bool>): (b: seq<U8>)
    ensures |b| == (|bits| + 7) / 8
  {
    seq((|bits| + 7) / 8, k requires 0 <= k => PackByte(bits, k))
  }

  function PackByte(bits: seq<bool>, k: nat): U8 {
    BitsAtBound(bits, 8 * k, 8);
    Pow2Of32();
    BitsAt(bits, 8 * k, 8)
  }

  /** Packing into bytes pads with zero bits and changes nothing else. */
  lemma PackBits(bits: seq<bool>, tail: seq<U8>, k: int)
    ensures Bit(BytesBits(Pack(bits) + tail, |Pack(bits)|), k) <==> Bit(bits, k)
  {
    var b := Pack(bits);
    if 0 <= k < 8 * |b| {
      var i, j := k / 8, 7 - k % 8;
      assert (b + tail)[i] == b[i] == BitsAt(bits, 8 * i, 8);
      BitsAtBit(bits, 8 * i, 8, j);
      assert 8 * i + 8 - 1 - j == k;
    }
  }

  function ToLe32(v: U32): (b: seq<U8>)
    ensures |b| == 4 && Le32(b) == v
  {
    [v % 0x100, (v / 0x100) % 0x100, ((v / 0x100) / 0x100) % 0x100, ((v / 0x100) / 0x100) / 0x100]
  }

  /** The payload of a block list, with anything behind it. */
  ghost function Payload(blocks: seq<Block>, pbit: nat, tail: seq<U8>): seq<U8>
    requires BlocksOk(blocks, pbit) && Plays([], AllTokens(blocks))
    requires |Pack(EncodeBlocks(blocks, pbit))| < 0x1_0000_0000 && |Text([], AllTokens(blocks))| < 0x1_0000_0000
  {
    var packed := Pack(EncodeBlocks(blocks, pbit));
    ToLe32(|packed|) + ToLe32(|Text([], AllTokens(blocks))|) + packed + tail
  }

  /** Whole-stream round trip: the payload of any token list, cut into blocks
      with any valid code sets, stands for exactly the text of the tokens. */
  lemma RoundTrip(blocks: seq<Block>, pbit: nat, tail: seq<U8>)
    requires BlocksOk(blocks, pbit) && Plays([], AllTokens(blocks))
    requires |Pack(EncodeBlocks(blocks, pbit))| + 8 < 0x1_0000_0000
    requires |Text([], AllTokens(blocks))| <= MAX_ORIG_SIZE
    ensures Decompressed(Payload(blocks, pbit, tail), pbit) == Some(Text([], AllTokens(blocks)))
  {
    hide BlocksOk, EncodeBlocks, Plays, Text, Decode, Pack, ToLe32, Le32, BytesBits, At;
    var e := EncodeBlocks(blocks, pbit);
    var packed, text := Pack(e), Text([], AllTokens(blocks));
    var data := Payload(blocks, pbit, tail);
    assert data[..4] == ToLe32(|packed|) && data[4..8] == ToLe32(|text|) && data[8..] == packed + tail;
    if text == [] {
      return;
    }
    var s := BytesBits(packed + tail, |packed|);
    StreamOf(e, tail);
    StartHolds(s, blocks, pbit);
    assert [] + AllTokens(blocks) == AllTokens(blocks);
    RestRoundTrip(s, AtStart, [], blocks, [], |text|, pbit);
  }

  lemma StreamOf(e: seq<bool>, tail: seq<U8>)
    ensures var s := BytesBits(Pack(e) + tail, |Pack(e)|);
      At(s, 0, e) && ZerosFrom(s, |e|)
  {
    var s := BytesBits(Pack(e) + tail, |Pack(e)|);
    forall k ensures Bit(s, k) <==> Bit(e, k) {
      PackBits(e, tail, k);
    }
  }

  lemma StartHolds(s: seq<bool>, blocks: seq<Block>, pbit: nat)
    requires BlocksOk(blocks, pbit)
    requires At(s, 0, EncodeBlocks(blocks, pbit)) && ZerosFrom(s, |EncodeBlocks(blocks, pbit)|)
    ensures Holds(s, AtStart, [], blocks, pbit)
  {
    hide BlocksOk, At, ZerosFrom, EncodeBlocks;
    assert EncodeRest([], Single(0), Single(0), blocks, pbit) == EncodeBlocks(blocks, pbit);
  }
}
