/** The compressed data format of the UEFI Specification, version 2.10,
    section 19.2, read directly off the bit stream: code sets are sets of
    canonical codewords and a symbol is read by finding the codeword that the
    stream shows. This is the meaning that the table-driven decoder must have. */
module TianoFormat {
  import opened Results
  import opened Words
  import opened BitStreams
  import opened Canonical

  const NC := 510
  const NT := 19
  const MAXNP := 31
  const NPT := 31
  const CBIT := 9
  const TBIT := 5
  const MAX_ORIG_SIZE := 512 * 1024 * 1024
  const NEVER := 0xFFFF

  /** A code set of one symbol takes no bits; any other is a complete prefix code. */
  datatype Codes = Single(sym: nat) | Prefix(lens: seq<U8>)

  ghost predicate ValidCodes(codes: Codes, n: nat) {
    match codes
    case Single(c) => c < n
    case Prefix(lens) => |lens| == n && Complete(lens)
  }

  function Zeros(n: nat): (z: seq<U8>)
    ensures |z| == n && forall i :: 0 <= i < n ==> z[i] == 0
  {
    seq(n, _ => 0)
  }

  /** `x` cut or zero-filled to `n` entries. */
  function Fit(x: seq<U8>, n: nat): (y: seq<U8>)
    ensures |y| == n
  {
    if |x| >= n then x[..n] else x + Zeros(n - |x|)
  }

  ghost function ReadSymbol(codes: Codes, s: seq<bool>, pos: nat): Option<(nat, nat)> {
    match codes
    case Single(c) => Some((c, pos))
    case Prefix(lens) =>
      if exists c: nat :: Matches(lens, c, s, pos) then
        var c: nat :| Matches(lens, c, s, pos);
        Some((c, pos + lens[c]))
      else None
  }

  /** One code length: three bits below 7, else a run of ones closed by a zero. */
  function ReadLen(s: seq<bool>, pos: nat): Option<(U8, nat)> {
    var v := BitsAt(s, pos, 3);
    if v < 7 then Some((v, pos + 3)) else ReadUnary(s, pos + 3, 7)
  }

  function ReadUnary(s: seq<bool>, pos: nat, v: nat): Option<(U8, nat)>
    decreases 17 - v
  {
    if v > 16 then None
    else if Bit(s, pos) then ReadUnary(s, pos + 1, v + 1)
    else Some((v, pos + 1))
  }

  function ReadLens(s: seq<bool>, pos: nat, number: nat, special: nat, acc: seq<U8>): Option<(seq<U8>, nat)>
    decreases number - |acc|
  {
    if |acc| >= number then Some((acc, pos))
    else
      var (l, p) :- ReadLen(s, pos);
      if |acc| + 1 == special then
        ReadLens(s, p + 2, number, special, acc + [l] + Zeros(BitsAt(s, p, 2)))
      else
        ReadLens(s, p, number, special, acc + [l])
  }

  /** The code set of the extra set (nn = NT) or the position set (nn = MAXNP). */
  ghost function ReadPtCodes(s: seq<bool>, pos: nat, nn: nat, nbit: nat, special: nat): Option<(Codes, nat)> {
    var number := BitsAt(s, pos, nbit);
    if number == 0 then
      var c := BitsAt(s, pos + nbit, nbit);
      if c < nn then Some((Single(c), pos + nbit + nbit)) else None
    else
      var (acc, p) :- ReadLens(s, pos + nbit, number, special, []);
      if Complete(Fit(acc, nn)) then Some((Prefix(Fit(acc, nn)), p)) else None
  }

  function Cap(x: seq<U8>): seq<U8> {
    if |x| > NC then x[..NC] else x
  }

  /** One entry of the run-length form: what it stands for and where it ends. */
  function ReadRun(s: seq<bool>, c: nat, pos: nat): (r: (seq<U8>, nat))
    requires c < NT
    ensures |r.0| >= 1
  {
    if c == 0 then (Zeros(1), pos)
    else if c == 1 then (Zeros(BitsAt(s, pos, 4) + 3), pos + 4)
    else if c == 2 then (Zeros(BitsAt(s, pos, CBIT) + 20), pos + CBIT)
    else ([c - 2], pos)
  }

  ghost function ReadCLens(s: seq<bool>, pos: nat, pt: Codes, number: nat, acc: seq<U8>): Option<(seq<U8>, nat)>
    decreases NC - |acc|
  {
    if |acc| >= number || |acc| >= NC then Some((acc, pos))
    else
      var (c, p) :- ReadSymbol(pt, s, pos);
      if c >= NT then None
      else
        var (run, p') := ReadRun(s, c, p);
        ReadCLens(s, p', pt, number, Cap(acc + run))
  }

  ghost function ReadCCodes(s: seq<bool>, pos: nat, pt: Codes): Option<(Codes, nat)> {
    var number := BitsAt(s, pos, CBIT);
    if number == 0 then
      var c := BitsAt(s, pos + CBIT, CBIT);
      if c < NC then Some((Single(c), pos + CBIT + CBIT)) else None
    else
      var (acc, p) :- ReadCLens(s, pos + CBIT, pt, number, []);
      if Complete(Fit(acc, NC)) then Some((Prefix(Fit(acc, NC)), p)) else None
  }

  /** A position: symbols 0 and 1 stand for themselves, symbol v > 1 for
      2^(v-1) plus the next v-1 bits. */
  ghost function ReadPosition(codes: Codes, s: seq<bool>, pos: nat): Option<(nat, nat)> {
    var (v, p) :- ReadSymbol(codes, s, pos);
    if v > 1 then Some((Pow2(v - 1) + BitsAt(s, p, v - 1), p + (v - 1))) else Some((v, p))
  }

  /** Where reading stands: bit position, symbols left in the block, and the
      code sets of the block. */
  datatype Cursor = Cursor(pos: nat, left: nat, chars: Codes, points: Codes)

  const AtStart := Cursor(0, 0, Single(0), Single(0))

  ghost function ReadHeader(s: seq<bool>, pos: nat, pbit: nat): Option<Cursor> {
    var left := BitsAt(s, pos, 16);
    var (pt, p1) :- ReadPtCodes(s, pos + 16, NT, TBIT, 3);
    var (chars, p2) :- ReadCCodes(s, p1, pt);
    var (points, p3) :- ReadPtCodes(s, p2, MAXNP, pbit, NEVER);
    Some(Cursor(p3, left, chars, points))
  }

  /** The next symbol of the character set; a spent block first gives way to
      the next one. The size field 0 stands for 2^16 symbols. */
  ghost function NextSymbol(s: seq<bool>, cur: Cursor, pbit: nat): Option<(nat, Cursor)> {
    var cur1 :- if cur.left == 0 then ReadHeader(s, cur.pos, pbit) else Some(cur);
    var (c, p) :- ReadSymbol(cur1.chars, s, cur1.pos);
    Some((c, cur1.(pos := p, left := (cur1.left + 0xFFFF) % 0x1_0000)))
  }

  /** `len` times the byte that lies `dist` places before the end. */
  function Copy(out: seq<U8>, dist: nat, len: nat): (r: seq<U8>)
    requires 1 <= dist <= |out|
    ensures |r| == |out| + len && out <= r
    decreases len
  {
    if len == 0 then out else Copy(out + [out[|out| - dist]], dist, len - 1)
  }

  /** Every copied byte is the one `dist` places earlier, which was there before it. */
  lemma {:induction false} CopyAt(out: seq<U8>, dist: nat, len: nat, k: nat)
    requires 1 <= dist <= |out| && |out| <= k < |out| + len
    ensures Copy(out, dist, len)[k] == Copy(out, dist, len)[k - dist]
    decreases len
  {
    var out' := out + [out[|out| - dist]];
    var r := Copy(out', dist, len - 1);
    assert r == Copy(out, dist, len) && out' <= r;
    if k == |out| {
      assert r[k] == out'[k] && r[k - dist] == out'[k - dist];
    } else {
      CopyAt(out', dist, len - 1, k);
    }
  }

  function Min(a: nat, b: nat): nat {
    if a < b then a else b
  }

  /** The output of `orig` bytes that continues `out`. After a final literal one
      more symbol is read and dropped; its block header must be readable. */
  ghost function Decode(s: seq<bool>, cur: Cursor, out: seq<U8>, orig: nat, pbit: nat): (r: Option<seq<U8>>)
    requires |out| <= orig
    ensures r.Some? ==> |r.value| == orig
    decreases orig - |out|
  {
    var (c, next) :- NextSymbol(s, cur, pbit);
    if c < 256 then
      if |out| == orig then Some(out) else Decode(s, next, out + [c], orig, pbit)
    else
      var (v, p) :- ReadPosition(next.points, s, next.pos);
      if |out| == orig then Some(out)
      else if v + 1 > |out| then None
      else
        var out' := Copy(out, v + 1, Min(c - 253, orig - |out|));
        if |out'| == orig then Some(out') else Decode(s, next.(pos := p), out', orig, pbit)
  }

  function Le32(b: seq<U8>): U32
    requires |b| == 4
  {
    b[0] as int + 0x100 * (b[1] as int) + 0x1_0000 * (b[2] as int) + 0x100_0000 * (b[3] as int)
  }

  /** What a payload (two little-endian size words and the stream) stands for. */
  ghost function Decompressed(data: seq<U8>, pbit: nat): Option<seq<U8>> {
    if |data| < 8 then None
    else
      var comp, orig := Le32(data[..4]), Le32(data[4..8]);
      if orig == 0 then Some([])
      else if orig > MAX_ORIG_SIZE || comp + 8 >= 0x1_0000_0000 || comp + 8 > |data| then None
      else Decode(BytesBits(data[8..], comp), AtStart, [], orig, pbit)
  }

  // Streams without a meaning

  /** In a valid code set every place of the stream shows a symbol. */
  lemma SymbolShown(codes: Codes, n: nat, s: seq<bool>, pos: nat)
    requires ValidCodes(codes, n)
    ensures ReadSymbol(codes, s, pos).Some? && ReadSymbol(codes, s, pos).value.0 < n
  {
    hide Complete, Codeword, BitsAt;
    if codes.Prefix? {
      var c := MatchExists(codes.lens, s, pos);
    }
  }

  lemma {:induction false} RunsShown(s: seq<bool>, pos: nat, pt: Codes, number: nat, acc: seq<U8>)
    requires ValidCodes(pt, NT)
    ensures ReadCLens(s, pos, pt, number, acc).Some?
    decreases NC - |acc|
  {
    hide ValidCodes, ReadSymbol, ReadRun;
    if |acc| < number && |acc| < NC {
      SymbolShown(pt, NT, s, pos);
      var (c, p) := ReadSymbol(pt, s, pos).value;
      var (run, p') := ReadRun(s, c, p);
      RunsShown(s, p', pt, number, Cap(acc + run));
    }
  }

  /** Code sets that the format does not know and that a decoder with 16-bit sums
      cannot tell from complete ones. */
  ghost predicate Passable(lens: seq<U8>) {
    KraftSum(lens) % 0x1_0000 == 0 && KraftSum(lens) != 0x1_0000
  }

  /** Index of the first code length above 16 among those read. */
  ghost function FirstBad(s: seq<bool>, pos: nat, number: nat, special: nat, acc: seq<U8>): nat
    decreases number - |acc|
  {
    if |acc| >= number || ReadLen(s, pos).None? then |acc|
    else
      var (l, p) := ReadLen(s, pos).value;
      if |acc| + 1 == special then
        FirstBad(s, p + 2, number, special, acc + [l] + Zeros(BitsAt(s, p, 2)))
      else
        FirstBad(s, p, number, special, acc + [l])
  }

  /** The header gives no code set of the format, but nothing that a decoder must
      notice: a single symbol outside the set, a passable code, or a length above
      16 behind those of the set. */
  ghost predicate PtDoubtful(s: seq<bool>, pos: nat, nn: nat, nbit: nat, special: nat) {
    var number := BitsAt(s, pos, nbit);
    if number == 0 then BitsAt(s, pos + nbit, nbit) >= nn
    else
      match ReadLens(s, pos + nbit, number, special, [])
      case None => FirstBad(s, pos + nbit, number, special, []) >= nn
      case Some((acc, _)) => Passable(Fit(acc, nn))
  }

  ghost predicate ChDoubtful(s: seq<bool>, pos: nat, pt: Codes) {
    var number := BitsAt(s, pos, CBIT);
    if number == 0 then BitsAt(s, pos + CBIT, CBIT) >= NC
    else
      match ReadCLens(s, pos + CBIT, pt, number, [])
      case None => false
      case Some((acc, _)) => Passable(Fit(acc, NC))
  }

  // One reading step at a time

  lemma LensNext(s: seq<bool>, pos: nat, number: nat, special: nat, acc: seq<U8>)
    requires |acc| < number
    ensures ReadLen(s, pos).None? ==> ReadLens(s, pos, number, special, acc).None? && FirstBad(s, pos, number, special, acc) == |acc|
    ensures ReadLen(s, pos).Some? ==>
              var (l, p) := ReadLen(s, pos).value;
              var acc', p' := if |acc| + 1 == special then acc + [l] + Zeros(BitsAt(s, p, 2)) else acc + [l], if |acc| + 1 == special then p + 2 else p;
              && ReadLens(s, pos, number, special, acc) == ReadLens(s, p', number, special, acc')
              && FirstBad(s, pos, number, special, acc) == FirstBad(s, p', number, special, acc')
  {
    hide ReadLen, BitsAt;
  }

  lemma LensEnd(s: seq<bool>, pos: nat, number: nat, special: nat, acc: seq<U8>)
    requires |acc| >= number
    ensures ReadLens(s, pos, number, special, acc) == Some((acc, pos))
  {
  }

  lemma RunNext(s: seq<bool>, pos: nat, pt: Codes, number: nat, acc: seq<U8>, c: nat, p: nat)
    requires |acc| < number && |acc| < NC && ReadSymbol(pt, s, pos) == Some((c, p)) && c < NT
    ensures var (run, p') := ReadRun(s, c, p);
      ReadCLens(s, pos, pt, number, acc) == ReadCLens(s, p', pt, number, Cap(acc + run))
  {
    hide ReadSymbol, ReadRun;
  }

  lemma RunsEnd(s: seq<bool>, pos: nat, pt: Codes, number: nat, acc: seq<U8>)
    requires |acc| >= number || |acc| >= NC
    ensures ReadCLens(s, pos, pt, number, acc) == Some((acc, pos))
  {
  }

  /** A header with a list of lengths: what the list decides. */
  lemma PtListed(s: seq<bool>, pos: nat, nn: nat, nbit: nat, special: nat)
    requires BitsAt(s, pos, nbit) != 0
    ensures var list := ReadLens(s, pos + nbit, BitsAt(s, pos, nbit), special, []);
      var ref, doubtful := ReadPtCodes(s, pos, nn, nbit, special), PtDoubtful(s, pos, nn, nbit, special);
      match list
      case None => ref.None? && (doubtful <==> FirstBad(s, pos + nbit, BitsAt(s, pos, nbit), special, []) >= nn)
      case Some((acc, p)) =>
        && (Complete(Fit(acc, nn)) ==> ref == Some((Prefix(Fit(acc, nn)), p)))
        && (!Complete(Fit(acc, nn)) ==> ref.None? && (doubtful <==> Passable(Fit(acc, nn))))
  {
    hide BitsAt, ReadLens, FirstBad, Complete, Passable, Fit;
  }

  lemma PtUnlisted(s: seq<bool>, pos: nat, nn: nat, nbit: nat, special: nat)
    requires BitsAt(s, pos, nbit) == 0
    ensures var c := BitsAt(s, pos + nbit, nbit);
      && (c < nn ==> ReadPtCodes(s, pos, nn, nbit, special) == Some((Single(c), pos + nbit + nbit)))
      && (c >= nn ==> ReadPtCodes(s, pos, nn, nbit, special).None? && PtDoubtful(s, pos, nn, nbit, special))
  {
    hide BitsAt;
  }

  lemma ChListed(s: seq<bool>, pos: nat, pt: Codes)
    requires BitsAt(s, pos, CBIT) != 0 && ReadCLens(s, pos + CBIT, pt, BitsAt(s, pos, CBIT), []).Some?
    ensures var (acc, p) := ReadCLens(s, pos + CBIT, pt, BitsAt(s, pos, CBIT), []).value;
      && (Complete(Fit(acc, NC)) ==> ReadCCodes(s, pos, pt) == Some((Prefix(Fit(acc, NC)), p)))
      && (!Complete(Fit(acc, NC)) ==> ReadCCodes(s, pos, pt).None? && (ChDoubtful(s, pos, pt) <==> Passable(Fit(acc, NC))))
  {
    hide BitsAt, ReadCLens, Complete, Passable, Fit;
  }

  lemma ChUnlisted(s: seq<bool>, pos: nat, pt: Codes)
    requires BitsAt(s, pos, CBIT) == 0
    ensures var c := BitsAt(s, pos + CBIT, CBIT);
      && (c < NC ==> ReadCCodes(s, pos, pt) == Some((Single(c), pos + CBIT + CBIT)))
      && (c >= NC ==> ReadCCodes(s, pos, pt).None? && ChDoubtful(s, pos, pt))
  {
    hide BitsAt;
  }

  /** Code lengths whose 16-bit sum is that of a complete code are one or passable. */
  lemma CompleteOrPassable(lens: seq<U8>)
    requires (forall c :: 0 <= c < |lens| ==> lens[c] <= 16) && KraftSum(lens) % 0x1_0000 == 0
    ensures Complete(lens) || Passable(lens)
  {
    hide KraftSum;
  }

  /** The first code set of the header that has no meaning is doubtful. */
  ghost predicate HeaderDoubtful(s: seq<bool>, pos: nat, pbit: nat) {
    match ReadPtCodes(s, pos + 16, NT, TBIT, 3)
    case None => PtDoubtful(s, pos + 16, NT, TBIT, 3)
    case Some((pt, p1)) =>
      match ReadCCodes(s, p1, pt)
      case None => ChDoubtful(s, p1, pt)
      case Some((_, p2)) => ReadPtCodes(s, p2, MAXNP, pbit, NEVER).None? && PtDoubtful(s, p2, MAXNP, pbit, NEVER)
  }

  /** Reading comes to a block header that is doubtful. */
  ghost predicate Doubtful(s: seq<bool>, cur: Cursor, out: seq<U8>, orig: nat, pbit: nat)
    requires |out| <= orig
    decreases orig - |out|
  {
    match NextSymbol(s, cur, pbit)
    case None => cur.left == 0 && HeaderDoubtful(s, cur.pos, pbit)
    case Some((c, next)) =>
      if |out| == orig then false
      else if c < 256 then Doubtful(s, next, out + [c], orig, pbit)
      else
        match ReadPosition(next.points, s, next.pos)
        case None => false
        case Some((v, p)) =>
          if v + 1 > |out| then false
          else
            var out' := Copy(out, v + 1, Min(c - 253, orig - |out|));
            |out'| < orig && Doubtful(s, next.(pos := p), out', orig, pbit)
  }

  /** Decoding the payload comes to a doubtful block header. */
  ghost predicate DoubtfulPayload(data: seq<U8>, pbit: nat) {
    |data| >= 8
    && var comp, orig := Le32(data[..4]), Le32(data[4..8]);
      0 < orig <= MAX_ORIG_SIZE && comp + 8 <= |data| && Doubtful(BytesBits(data[8..], comp), AtStart, [], orig, pbit)
  }
}
