/** The header fields that the builder writes into files and sections, as a reader
    sees them at the front of what was built. */
module HeaderFields {
  import opened Results
  import opened Words
  import opened Ffs
  import opened Compress
  import opened Builder
  import opened FileCodec

  // Sections

  /** What is read of a section before its contents are looked at. */
  datatype SectionFront = SectionFront(subtype: U8, header: Bytes, body: Bytes)

  function ReadSection(buf: Bytes, off: nat): Result<SectionFront, ParseError> {
    if off + 4 > |buf| then Err(EndOfBuffer)
    else
      var rest := buf[off..];
      var hdrLen, size := if IsLargeSection(rest) then 8 else 4, SectionSize(rest);
      if size < hdrLen || off + size > |buf| then Err(InvalidHeader)
      else Ok(SectionFront(rest[3], rest[..hdrLen], rest[hdrLen..size]))
  }

  /** The header of `n` with its size field rewritten: three bytes in front, or
      under a large mark the four bytes behind the type. */
  ghost predicate SizeWritten(header: Bytes, h: Bytes, total: nat) {
    && |h| == |header| >= 4
    && (forall i :: 3 <= i < |h| && !(IsLargeSection(header) && 4 <= i < 8) ==> h[i] == header[i])
    && (if IsLargeSection(header) then IsLargeSection(h) && FromLe(h[4..8]) == total % 0x1_0000_0000
        else FromUint24(h[..3]) == total % 0x100_0000)
  }

  lemma SectionSizeWritten(header: Bytes, total: nat)
    requires |header| >= 4
    ensures SizeWritten(header, SetSectionSize(header, total), total)
  {
    hide FromLe, Le, Uint24, FromUint24, Write;
    var h := SetSectionSize(header, total);
    if IsLargeSection(header) {
      var size := Le(total % 0x1_0000_0000, 4);
      WrittenParts(header, 4, size);
      assert h[..4] == header[..4];
      assert h[8..] == header[8..];
      forall i | 0 <= i < 4 ensures h[i] == header[i] {
        assert h[..4][i] == header[..4][i];
      }
      forall i | 8 <= i < |h| ensures h[i] == header[i] {
        assert h[8..][i - 8] == header[8..][i - 8];
      }
      LeWraps(total % 0x1_0000_0000);
    } else {
      var size := Uint24(total % 0x1_0000_0000);
      WrittenParts(header, 0, size);
      forall i | 3 <= i < |h| ensures h[i] == header[i] {
        assert h[3..][i - 3] == header[3..][i - 3];
      }
      assert h[0..3] == h[..3];
      Uint24RoundTrip(total % 0x1_0000_0000);
      WrapTwice(total);
    }
  }

  /** Whether the build of a section goes through its size field. */
  predicate DirtySection(n: FfsNode) {
    n.nodeType == Section && n.action != NoAction && n.action != Remove
  }

  /** The contents of a dirty section: its children or its own body or, for one
      that is compressed again, the front part of its body and a stream that
      decodes to the children. */
  ghost predicate SectionContents(c: Codec, n: FfsNode, x: Bytes) {
    if IsCompressedOrGuided(n) then
      PrefixLen(n).Some? && Join(c, n.children, []).Ok?
      && var p := PrefixLen(n).value;
        p <= |x| && x[..p] == n.body[..p] && c.decode(x[p..]) == Some(Join(c, n.children, []).value)
    else BuildBody(c, n) == Ok(x)
  }

  lemma SectionForm(c: Codec, n: FfsNode) returns (x: Bytes)
    requires DirtySection(n) && Build(c, n).Ok?
    ensures |n.header| >= 3 && Build(c, n).value == SetSectionSize(n.header, |n.header| + |x|) + x
    ensures SectionContents(c, n, x)
  {
    hide Join, Fit, SetSectionSize, Shortest, Fits;
    if IsCompressedOrGuided(n) {
      var p := PrefixLen(n).value;
      var budget := |n.body| - p;
      var stream := Fit(c, Join(c, n.children, []).value, Some(budget)).value;
      FitMeaning(c, Join(c, n.children, []).value, Some(budget));
      x := n.body[..p] + stream;
      assert x[..p] == n.body[..p] && x[p..] == stream;
      var h := SetSectionSize(n.header, |n.header| + |x|);
      assert h + n.body[..p] + stream == h + x;
    } else {
      x := BuildBody(c, n).value;
    }
  }

  /** The size from which on the field cannot carry it. */
  function SectionLimit(header: Bytes): nat {
    if IsLargeSection(header) then 0x1_0000_0000 else 0xFF_FFFF
  }

  lemma SectionInFront(header: Bytes, h: Bytes, x: Bytes, post: Bytes)
    requires SizeWritten(header, h, |h| + |x|) && |h| == (if IsLargeSection(header) then 8 else 4)
    ensures var b, total := h + x + post, |h| + |x|;
      && b[3] == header[3]
      && (total < SectionLimit(header) ==> SectionSize(b) == total && IsLargeSection(b) == IsLargeSection(header))
      && (total >= SectionLimit(header) ==> SectionSize(b) < total || IsLargeSection(b) != IsLargeSection(header))
  {
    hide FromLe, FromUint24;
    var b := h + x + post;
    assert b[..3] == h[..3];
    assert h[..3][0] == h[0] && h[..3][1] == h[1] && h[..3][2] == h[2];
    AllOnes(h[..3]);
    if IsLargeSection(header) {
      assert b[4..8] == h[4..8];
    }
  }

  /** A dirty section, plain or compressed again: its build reads back at any place
      of any buffer with its type, its contents and its other header bytes, and the
      size read is its length, exactly if the size fits the field. */
  lemma SectionRoundTrip(c: Codec, n: FfsNode, pre: Bytes, post: Bytes) returns (x: Bytes)
    requires DirtySection(n) && Build(c, n).Ok? && |n.header| == (if IsLargeSection(n.header) then 8 else 4)
    ensures SectionContents(c, n, x)
    ensures var b := Build(c, n).value;
      && |b| == |n.header| + |x| && b[|n.header|..] == x
      && SizeWritten(n.header, b[..|n.header|], |b|)
      && var r := ReadSection(pre + b + post, |pre|);
        if |b| < SectionLimit(n.header) then r == Ok(SectionFront(n.header[3], b[..|n.header|], x))
        else r.Err? || r.value.header != b[..|n.header|] || r.value.body != x
  {
    hide Build, FromLe, FromUint24, SectionSize, SizeWritten, SectionContents, IsLargeSection, SetSectionSize;
    x := SectionForm(c, n);
    var h := SetSectionSize(n.header, |n.header| + |x|);
    SectionSizeWritten(n.header, |h| + |x|);
    SectionInFront(n.header, h, x, post);
    var b := h + x;
    assert b[..|h|] == h && b[|h|..] == x;
    assert (pre + b + post)[|pre|..] == h + x + post;
    var rest := h + x + post;
    assert rest[..|h|] == h && rest[|h|..|h| + |x|] == x;
  }

  /** The data offset behind the GUID counts from the start of a section with a short
      header. What is in front of the data is kept if it covers offset and attributes. */
  lemma FrontPart(n: FfsNode, guid: Bytes, d: nat, rest: Bytes)
    requires |guid| == 16 && d < 0x1_0000 && n.body == guid + Le(d, 2) + rest
    ensures PrefixLen(n) == if 24 <= d <= |n.body| + 4 then Some(d - 4) else None
  {
    assert Le(d, 2) == [d % 0x100, d / 0x100];
    assert n.body[16] == d % 0x100 && n.body[17] == d / 0x100;
  }

  // Files

  /** The header of a built file: only its size, its two checksums and, under a
      long header, the long size are rewritten. */
  ghost predicate FieldsWritten(header: Bytes, h: Bytes, body: Bytes, total: nat) {
    && |h| == |header| >= 24
    && (forall i :: 0 <= i < |h| && i != 16 && i != 17 && !(20 <= i < 23) && !(|h| >= 32 && 24 <= i < 32) ==> h[i] == header[i])
    && (if |h| >= 32 then IsLargeFfs(h) && FromLe(h[24..32]) == total % Pow2(64)
        else FromUint24(h[20..23]) == total % 0x100_0000)
    && Sum(h[17 := 0][23 := 0]) % 0x100 == 0
    && (if TestBit(header[19], 6) then Sum(body + [h[17]]) % 0x100 == 0 else h[17] == header[17])
  }

  /** The header sums to zero once the file checksum and the state are left out. */
  lemma HeaderSumMeaning(h: Bytes)
    requires |h| >= 24
    ensures HeaderSum(h) == Sum(h[16 := 0][17 := 0][23 := 0]) % 0x100
    ensures (HeaderSum(h) + h[16]) % 0x100 == 0 <==> Sum(h[17 := 0][23 := 0]) % 0x100 == 0
  {
    hide Sum;
    SumUpdate(h, 17, 0);
    SumUpdate(h[17 := 0], 23, 0);
    SumUpdate(h, 16, 0);
    SumUpdate(h[16 := 0], 17, 0);
    SumUpdate(h[16 := 0][17 := 0], 23, 0);
  }

  lemma ChecksumMeaning(body: Bytes)
    ensures Sum(body + [Checksum8(body)]) % 0x100 == 0
  {
    SumJoined(body, [Checksum8(body)]);
    SumOne(Checksum8(body));
  }

  lemma FileFields(c: Codec, n: FfsNode) returns (h: Bytes, x: Bytes)
    requires n.nodeType == File && n.action != NoAction && n.action != Remove && |n.header| >= 24 && Build(c, n).Ok?
    ensures Build(c, n).value == h + x + n.tail && BuildBody(c, n) == Ok(x)
    ensures FieldsWritten(n.header, h, x, |Build(c, n).value|)
  {
    hide Join, Sum, HeaderSum, Checksum8, TestBit, FromLe, FromUint24, Le, Uint24, SetFfsSize, RecomputeChecksums, FieldsWritten;
    x := BuildBody(c, n).value;
    var total := |n.header| + |x| + |n.tail|;
    h := BuiltHeader(n.header, x, total);
    HeaderWritten(n.header, x, total);
  }

  lemma HeaderWritten(header: Bytes, body: Bytes, total: nat)
    requires |header| >= 24
    ensures FieldsWritten(header, BuiltHeader(header, body, total), body, total)
  {
    hide Sum, HeaderSum, Checksum8, TestBit, FromLe, FromUint24, Le, Uint24, SetFfsSize, Write, Pow2;
    var s := SetFfsSize(header, total);
    var h := BuiltHeader(header, body, total);
    SizeWrittenFile(header, total);
    ChecksumsValid(s, body);
    HeaderSumMeaning(h);
    ChecksumMeaning(body);
    forall i | 18 <= i < |h| ensures h[i] == s[i] {
      assert h[18..][i - 18] == s[18..][i - 18];
    }
    forall i | 0 <= i < 16 ensures h[i] == s[i] {
      assert h[..16][i] == s[..16][i];
    }
    assert h[20..23] == s[20..23];
    if |h| >= 32 {
      assert h[24..32] == s[24..32];
    }
  }

  lemma SizeWrittenFile(header: Bytes, total: nat)
    requires |header| >= 24
    ensures var s := SetFfsSize(header, total);
      && (forall i :: 0 <= i < |s| && !(20 <= i < 23) && !(|s| >= 32 && 24 <= i < 32) ==> s[i] == header[i])
      && (if |s| >= 32 then IsLargeFfs(s) && FromLe(s[24..32]) == total % Pow2(64)
          else FromUint24(s[20..23]) == total % 0x100_0000)
  {
    hide FromLe, FromUint24, Le, Uint24, Pow2;
    var s := SetFfsSize(header, total);
    SizeBytes(header, total);
    if |header| >= 32 {
      LeIsMod(total, 8);
      assert s[20..23][0] == s[20] && s[20..23][1] == s[21] && s[20..23][2] == s[22];
    } else {
      Uint24RoundTrip(total % 0x1_0000_0000);
      WrapTwice(total);
    }
  }
}
