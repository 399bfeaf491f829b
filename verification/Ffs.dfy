/** Firmware tree nodes, and the size and checksum fields of file and section
    headers (PI Specification, volume 3, sections 3.2.3 and 3.2.4). */
module Ffs {
  import opened Results
  import opened Words

  type Bytes = seq<U8>

  datatype FfsType = Root | Capsule | Image | Region | Padding | Volume | File | Section | FreeSpace

  datatype Action = NoAction | Create | Insert | Replace | Remove | Rebuild | Rebase

  /** The parsed facts that editing and building look at. */
  datatype ParsingData =
    | Nothing
    | VolumeData(emptyByte: U8)
    | FileData(fileEmptyByte: U8, fileGuid: Bytes)
    | GuidedData(guid: Bytes)

  datatype FfsNode = FfsNode(
    guid: Option<Bytes>,
    nodeType: FfsType,
    subtype: U8,
    offset: U32,
    header: Bytes,
    body: Bytes,
    tail: Bytes,
    children: seq<FfsNode>,
    action: Action,
    parsingData: ParsingData)

  const SECTION_COMPRESSION: U8 := 0x01
  const SECTION_GUID_DEFINED: U8 := 0x02

  const LZMA_GUID: Bytes := [0x98, 0x58, 0x4E, 0xEE, 0x14, 0x39, 0x59, 0x42, 0x9D, 0x6E, 0xDC, 0x7B, 0xD7, 0x94, 0x03, 0xCF]
  const LZMA_HP_GUID: Bytes := [0x23, 0x5E, 0xD8, 0x0E, 0x53, 0xF2, 0x3F, 0x41, 0xA0, 0x3C, 0x90, 0x19, 0x87, 0xB0, 0x43, 0x97]
  const LZMA_MS_GUID: Bytes := [0xEA, 0x21, 0x99, 0xBD, 0x91, 0xED, 0x4A, 0x40, 0x8B, 0x2F, 0xB4, 0xD7, 0x24, 0x74, 0x7C, 0x8C]

  predicate IsRecompressableLzmaGuid(g: Bytes) {
    g == LZMA_GUID || g == LZMA_HP_GUID || g == LZMA_MS_GUID
  }

  predicate RecompressableGuid(n: FfsNode) {
    n.parsingData.GuidedData? && IsRecompressableLzmaGuid(n.parsingData.guid)
  }

  predicate IsCompressedOrGuided(n: FfsNode) {
    n.subtype == SECTION_COMPRESSION || n.subtype == SECTION_GUID_DEFINED
  }

  /** Some node of the subtree carries an action. */
  predicate SubtreeDirty(n: FfsNode) {
    n.action != NoAction || exists i :: 0 <= i < |n.children| && SubtreeDirty(n.children[i])
  }

  // Byte-wise sums and little-endian sizes

  function Sum(b: Bytes): nat {
    if b == [] then 0 else Sum(b[..|b| - 1]) + b[|b| - 1]
  }

  lemma SumOne(x: U8)
    ensures Sum([x]) == x
  {
  }

  lemma {:induction false} SumJoined(a: Bytes, b: Bytes)
    ensures Sum(a + b) == Sum(a) + Sum(b)
    decreases |b|
  {
    if b == [] {
      assert a + b == a;
    } else {
      assert (a + b)[..|a + b| - 1] == a + b[..|b| - 1];
      SumJoined(a, b[..|b| - 1]);
    }
  }

  /** The byte that makes the sum of `b` and itself zero modulo 256. */
  function Checksum8(b: Bytes): U8 {
    (0x100 - Sum(b) % 0x100) % 0x100
  }

  function Uint24(size: nat): (b: Bytes)
    ensures |b| == 3
  {
    [size % 0x100, (size / 0x100) % 0x100, ((size / 0x100) / 0x100) % 0x100]
  }

  function FromUint24(b: Bytes): nat
    requires |b| == 3
  {
    b[0] as nat + 0x100 * (b[1] as nat) + 0x1_0000 * (b[2] as nat)
  }

  /** `n` bytes of `v`, least significant first. */
  function Le(v: nat, n: nat): (b: Bytes)
    ensures |b| == n
  {
    if n == 0 then [] else [v % 0x100] + Le(v / 0x100, n - 1)
  }

  function FromLe(b: Bytes): nat {
    if b == [] then 0 else b[0] as nat + 0x100 * FromLe(b[1..])
  }

  lemma {:induction false} LeRoundTrip(v: nat, n: nat)
    requires v < Pow2(8 * n)
    ensures FromLe(Le(v, n)) == v
  {
    if n > 0 {
      assert Pow2(8 * n) == 0x100 * Pow2(8 * (n - 1)) by { Pow2Sum(8, 8 * (n - 1)); Pow2Of32(); }
      LeRoundTrip(v / 0x100, n - 1);
      assert Le(v, n)[1..] == Le(v / 0x100, n - 1);
    }
  }

  lemma {:induction false} LeOfMod(v: nat, n: nat)
    ensures Le(v, n) == Le(v % Pow2(8 * n), n)
  {
    if n > 0 {
      var m := Pow2(8 * (n - 1));
      Pow2Sum(8, 8 * (n - 1));
      Pow2Of32();
      assert Pow2(8 * n) == 0x100 * m;
      ModSplit(v, m);
      LeOfMod(v / 0x100, n - 1);
    }
  }

  lemma ModSplit(v: nat, m: nat)
    requires m > 0
    ensures (v % (0x100 * m)) % 0x100 == v % 0x100 && (v % (0x100 * m)) / 0x100 == (v / 0x100) % m
  {
    var q, r := (v / 0x100) / m, (v / 0x100) % m;
    assert v / 0x100 == m * q + r;
    assert 0x100 * (m * q) == (0x100 * m) * q;
    DivUnique(v, 0x100 * m, q, 0x100 * r + v % 0x100);
  }

  lemma LeIsMod(v: nat, n: nat)
    ensures FromLe(Le(v, n)) == v % Pow2(8 * n)
  {
    LeOfMod(v, n);
    LeRoundTrip(v % Pow2(8 * n), n);
  }

  /** Writing back the number that bytes spell writes the same bytes. */
  lemma {:induction false} LeOfFromLe(b: Bytes)
    ensures Le(FromLe(b), |b|) == b
  {
    if b != [] {
      LeOfFromLe(b[1..]);
      assert b == [b[0]] + b[1..];
      assert FromLe(b) % 0x100 == b[0] && FromLe(b) / 0x100 == FromLe(b[1..]);
    }
  }

  lemma Uint24RoundTrip(size: nat)
    ensures FromUint24(Uint24(size)) == size % 0x100_0000
  {
    var a, b, c := size % 0x100, (size / 0x100) % 0x100, ((size / 0x100) / 0x100) % 0x100;
    var q := ((size / 0x100) / 0x100) / 0x100;
    assert size == 0x100_0000 * q + (0x1_0000 * c + 0x100 * b + a);
    DivUnique(size, 0x100_0000, q, 0x1_0000 * c + 0x100 * b + a);
  }

  lemma Uint24OfFrom(b: Bytes)
    requires |b| == 3
    ensures Uint24(FromUint24(b)) == b
  {
    var v := FromUint24(b);
    var r := b[1] as nat + 0x100 * (b[2] as nat);
    assert v == 0x100 * r + b[0];
    DivUnique(v, 0x100, r, b[0]);
    DivUnique(r, 0x100, b[2], b[1]);
  }

  // GUIDs

  /** The bytes of a GUID whose text is `a-b-c-...`: the first three groups least
      significant byte first, the others as written. */
  function GuidBytes(a: U32, b: U16, c: U16, rest: Bytes): Bytes {
    Le(a, 4) + Le(b, 2) + Le(c, 2) + rest
  }

  /** The algorithms that the builder can compress with, by the texts of their GUIDs. */
  lemma AlgorithmGuids(g: Bytes)
    ensures IsRecompressableLzmaGuid(g) <==>
            || g == GuidBytes(0xEE4E5898, 0x3914, 0x4259, [0x9D, 0x6E, 0xDC, 0x7B, 0xD7, 0x94, 0x03, 0xCF])
            || g == GuidBytes(0x0ED85E23, 0xF253, 0x413F, [0xA0, 0x3C, 0x90, 0x19, 0x87, 0xB0, 0x43, 0x97])
            || g == GuidBytes(0xBD9921EA, 0xED91, 0x404A, [0x8B, 0x2F, 0xB4, 0xD7, 0x24, 0x74, 0x7C, 0x8C])
  {
    hide GuidBytes;
    FirstAlgorithm();
    SecondAlgorithm();
    ThirdAlgorithm();
  }

  lemma FirstAlgorithm()
    ensures GuidBytes(0xEE4E5898, 0x3914, 0x4259, [0x9D, 0x6E, 0xDC, 0x7B, 0xD7, 0x94, 0x03, 0xCF]) == LZMA_GUID
  {
    hide Le;
    FourBytes(0xEE4E5898, 0xEE, 0x4E, 0x58, 0x98);
    TwoBytes(0x3914, 0x39, 0x14);
    TwoBytes(0x4259, 0x42, 0x59);
  }

  lemma SecondAlgorithm()
    ensures GuidBytes(0x0ED85E23, 0xF253, 0x413F, [0xA0, 0x3C, 0x90, 0x19, 0x87, 0xB0, 0x43, 0x97]) == LZMA_HP_GUID
  {
    hide Le;
    FourBytes(0x0ED85E23, 0x0E, 0xD8, 0x5E, 0x23);
    TwoBytes(0xF253, 0xF2, 0x53);
    TwoBytes(0x413F, 0x41, 0x3F);
  }

  lemma ThirdAlgorithm()
    ensures GuidBytes(0xBD9921EA, 0xED91, 0x404A, [0x8B, 0x2F, 0xB4, 0xD7, 0x24, 0x74, 0x7C, 0x8C]) == LZMA_MS_GUID
  {
    hide Le;
    FourBytes(0xBD9921EA, 0xBD, 0x99, 0x21, 0xEA);
    TwoBytes(0xED91, 0xED, 0x91);
    TwoBytes(0x404A, 0x40, 0x4A);
  }

  lemma TwoBytes(v: nat, b: U8, a: U8)
    requires v == 0x100 * b + a
    ensures Le(v, 2) == [a, b]
  {
    assert Le(v, 2) == [a] + Le(b, 1);
  }

  lemma FourBytes(v: nat, d: U8, c: U8, b: U8, a: U8)
    requires v == 0x100_0000 * d + 0x1_0000 * c + 0x100 * b + a
    ensures Le(v, 4) == [a, b, c, d]
  {
    hide Le;
    LeNext(v, 3, 0x1_0000 * d + 0x100 * c + b, a);
    LeNext(0x1_0000 * d + 0x100 * c + b, 2, 0x100 * d + c, b);
    TwoBytes(0x100 * d + c, d, c);
  }

  lemma LeNext(v: nat, n: nat, w: nat, a: U8)
    requires v == 0x100 * w + a
    ensures Le(v, n + 1) == [a] + Le(w, n)
  {
    DivUnique(v, 0x100, w, a);
  }

  // Header fields

  predicate IsLargeSection(header: Bytes) {
    |header| >= 8 && header[0] == 0xFF && header[1] == 0xFF && header[2] == 0xFF
  }

  predicate IsLargeFfs(header: Bytes) {
    |header| >= 32 && header[20] == 0xFF && header[21] == 0xFF && header[22] == 0xFF
  }

  function SectionSize(header: Bytes): nat
    requires |header| >= 4
  {
    if IsLargeSection(header) then FromLe(header[4..8]) else FromUint24(header[..3])
  }

  function FfsFileSize(header: Bytes): nat
    requires |header| >= 24
  {
    if IsLargeFfs(header) then FromLe(header[24..28]) else FromUint24(header[20..23])
  }

  /** `b` with `x` written over it at `at`. */
  function Write(b: Bytes, at: nat, x: Bytes): (r: Bytes)
    requires at + |x| <= |b|
    ensures |r| == |b|
  {
    b[..at] + x + b[at + |x|..]
  }

  function SetFfsSize(header: Bytes, total: nat): (r: Bytes)
    requires |header| >= 23
    ensures |r| == |header|
  {
    if |header| >= 32 then Write(Write(header, 24, Le(total, 8)), 20, [0xFF, 0xFF, 0xFF])
    else Write(header, 20, Uint24(total % 0x1_0000_0000))
  }

  function SetSectionSize(header: Bytes, total: nat): (r: Bytes)
    requires |header| >= 3
    ensures |r| == |header|
  {
    if IsLargeSection(header) then Write(header, 4, Le(total % 0x1_0000_0000, 4))
    else Write(header, 0, Uint24(total % 0x1_0000_0000))
  }

  /** The header sum without its own checksum, the file checksum and the state. */
  function HeaderSum(header: Bytes): (s: nat)
    requires |header| >= 24
    ensures s < 0x100
  {
    (Sum(header) + 3 * 0x100 - header[16] - header[17] - header[23]) % 0x100
  }

  function RecomputeChecksums(header: Bytes, body: Bytes): (r: Bytes)
    ensures |r| == |header|
  {
    if |header| < 24 then header
    else
      var h := header[16 := (0x100 - HeaderSum(header)) % 0x100];
      if TestBit(header[19], 6) then h[17 := Checksum8(body)] else h
  }

  /** The size and checksum fields of a file header are those of its contents. */
  predicate FileHeaderValid(header: Bytes, body: Bytes, total: nat) {
    && |header| >= 24
    && (if |header| >= 32 then IsLargeFfs(header) && FromLe(header[24..32]) == total
        else FromUint24(header[20..23]) == total)
    && (HeaderSum(header) + header[16]) % 0x100 == 0
    && (TestBit(header[19], 6) ==> header[17] == Checksum8(body))
  }

  /** Sequences that agree up to `n` agree on every part before it. */
  lemma SamePrefix(a: Bytes, b: Bytes, n: nat, k: nat, l: nat)
    requires k <= l <= n <= |a| && n <= |b| && a[..n] == b[..n]
    ensures a[k..l] == b[k..l]
  {
    forall i | 0 <= i < l - k ensures a[k..l][i] == b[k..l][i] {
      assert a[k + i] == a[..n][k + i];
      assert b[k + i] == b[..n][k + i];
    }
  }

  /** Sequences that agree from `n` on agree on every part behind it. */
  lemma SameSuffix(a: Bytes, b: Bytes, n: nat, k: nat, l: nat)
    requires n <= k <= l <= |a| && |a| == |b| && a[n..] == b[n..]
    ensures a[k..l] == b[k..l]
  {
    forall i | 0 <= i < l - k ensures a[k..l][i] == b[k..l][i] {
      assert a[k + i] == a[n..][k + i - n];
      assert b[k + i] == b[n..][k + i - n];
    }
  }

  /** A part of a part. */
  lemma PartOfPart(a: Bytes, n: nat, m: nat, k: nat, l: nat)
    requires n <= m <= |a| && k <= l <= m - n
    ensures a[n..m][k..l] == a[n + k..n + l]
  {
    forall i | 0 <= i < l - k ensures a[n..m][k..l][i] == a[n + k..n + l][i] {
      assert a[n..m][k + i] == a[n + (k + i)];
    }
  }

  lemma WriteSame(b: Bytes, at: nat, x: Bytes)
    requires at + |x| <= |b| && b[at..at + |x|] == x
    ensures Write(b, at, x) == b
  {
    assert b == b[..at] + b[at..at + |x|] + b[at + |x|..];
  }

  lemma ValidSizeKept(header: Bytes, body: Bytes, total: nat)
    requires FileHeaderValid(header, body, total)
    ensures SetFfsSize(header, total) == header
  {
    hide Sum, FromLe, Le, TestBit, Checksum8, HeaderSum;
    if |header| >= 32 {
      LeOfFromLe(header[24..32]);
      WriteSame(header, 24, Le(total, 8));
      WriteSame(header, 20, [0xFF, 0xFF, 0xFF]);
    } else {
      Uint24OfFrom(header[20..23]);
      assert total < 0x100_0000;
      WriteSame(header, 20, Uint24(total % 0x1_0000_0000));
    }
  }

  /** Valid fields are written back unchanged. */
  lemma ValidHeaderKept(header: Bytes, body: Bytes, total: nat)
    requires FileHeaderValid(header, body, total)
    ensures RecomputeChecksums(SetFfsSize(header, total), body) == header
  {
    hide Sum, FromLe, FromUint24, TestBit, Checksum8, HeaderSum, SetFfsSize;
    ValidSizeKept(header, body, total);
    ChecksumOfSum(HeaderSum(header), header[16]);
  }

  lemma ChecksumOfSum(s: nat, c: U8)
    requires s < 0x100 && (s + c) % 0x100 == 0
    ensures (0x100 - s) % 0x100 == c
  {
  }

  lemma ValidSectionKept(header: Bytes, total: nat)
    requires |header| >= 4 && SectionSize(header) == total
    ensures SetSectionSize(header, total) == header
  {
    hide FromLe, Le;
    if IsLargeSection(header) {
      LeOfFromLe(header[4..8]);
      FromLeBound(header[4..8]);
      Pow2Of32();
      WriteSame(header, 4, Le(total % 0x1_0000_0000, 4));
    } else {
      Uint24OfFrom(header[..3]);
      assert header[0..3] == header[..3];
      WriteSame(header, 0, Uint24(total % 0x1_0000_0000));
    }
  }

  lemma {:induction false} FromLeBound(b: Bytes)
    ensures FromLe(b) < Pow2(8 * |b|)
  {
    if b != [] {
      FromLeBound(b[1..]);
      assert Pow2(8 * |b|) == 0x100 * Pow2(8 * (|b| - 1)) by { Pow2Sum(8, 8 * (|b| - 1)); Pow2Of32(); }
    }
  }
}
