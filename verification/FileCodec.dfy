/** Reading a file from a buffer, and reading back what the builder writes. */
module FileCodec {
  import opened Results
  import opened Words
  import opened Ffs
  import opened Builder

  datatype ParseError = EndOfBuffer | InvalidHeader

  function ParseFile(buf: Bytes, offset: U32, erasePolarity: U8, revision: U8): Result<FfsNode, ParseError> {
    var off: nat := offset;
    if off + 24 > |buf| then Err(EndOfBuffer)
    else
      var rest := buf[off..];
      var hdrLen := if IsLargeFfs(rest) then 32 else 24;
      if off + hdrLen > |buf| then Err(EndOfBuffer)
      else
        var guid, total := rest[..16], FfsFileSize(rest);
        if off + total > |buf| then Err(EndOfBuffer)
        else if total < hdrLen then Err(InvalidHeader)
        else
          var tailLen := if revision == 1 then 2 else 0;
          var bodyEnd := total - tailLen;
          Ok(FfsNode(
            Some(guid), File, rest[18], offset,
            rest[..hdrLen],
            if bodyEnd > hdrLen then rest[hdrLen..bodyEnd] else [],
            if tailLen > 0 then rest[bodyEnd..total] else [],
            [], NoAction, FileData(erasePolarity, guid)))
  }

  // Header sums

  lemma {:induction false} SumUpdate(b: Bytes, i: nat, x: U8)
    requires i < |b|
    ensures Sum(b[i := x]) == Sum(b) - b[i] + x
    decreases |b|
  {
    var n := |b| - 1;
    if i < n {
      SumUpdate(b[..n], i, x);
      assert b[i := x][..n] == b[..n][i := x];
    } else {
      assert b[i := x][..n] == b[..n];
    }
  }

  /** The header sum does not see the two checksums and the state byte. */
  lemma HeaderSumIgnores(header: Bytes, i: nat, x: U8)
    requires |header| >= 24 && (i == 16 || i == 17 || i == 23)
    ensures HeaderSum(header[i := x]) == HeaderSum(header)
  {
    hide Sum;
    SumUpdate(header, i, x);
  }

  /** Flipping the state byte, as inserting does, keeps a valid header valid. */
  lemma StateFlipKeepsValid(header: Bytes, body: Bytes, total: nat, state: U8)
    requires FileHeaderValid(header, body, total)
    ensures FileHeaderValid(header[23 := state], body, total)
  {
    hide Sum, HeaderSum, FromLe, FromUint24, Checksum8, TestBit;
    HeaderSumIgnores(header, 23, state);
    var h := header[23 := state];
    assert h[20..23] == header[20..23];
    if |header| >= 32 {
      assert h[24..32] == header[24..32];
    }
  }

  /** The header that the builder writes for a file of `total` bytes. */
  function BuiltHeader(header: Bytes, body: Bytes, total: nat): (r: Bytes)
    requires |header| >= 24
    ensures |r| == |header|
  {
    RecomputeChecksums(SetFfsSize(header, total), body)
  }

  lemma ChecksumsValid(h: Bytes, body: Bytes)
    requires |h| >= 24
    ensures var r := RecomputeChecksums(h, body);
      && (HeaderSum(r) + r[16]) % 0x100 == 0
      && (TestBit(r[19], 6) ==> r[17] == Checksum8(body))
      && r[..16] == h[..16] && r[18..] == h[18..]
  {
    hide Sum, HeaderSum, Checksum8, TestBit;
    var y: U8 := (0x100 - HeaderSum(h)) % 0x100;
    HeaderSumIgnores(h, 16, y);
    HeaderSumIgnores(h[16 := y], 17, Checksum8(body));
  }

  /** The three parts of a sequence that was written over. */
  lemma WrittenParts(b: Bytes, at: nat, x: Bytes)
    requires at + |x| <= |b|
    ensures Write(b, at, x)[..at] == b[..at] && Write(b, at, x)[at..at + |x|] == x
    ensures Write(b, at, x)[at + |x|..] == b[at + |x|..]
  {
  }

  lemma SizeBytes(header: Bytes, total: nat)
    requires |header| >= 24
    ensures var r := SetFfsSize(header, total);
      && r[..20] == header[..20]
      && (|header| >= 32 ==> r[20..23] == [0xFF, 0xFF, 0xFF] && r[24..32] == Le(total, 8))
      && (|header| < 32 ==> r[20..23] == Uint24(total % 0x1_0000_0000))
  {
    hide Le, Uint24, Write;
    if |header| >= 32 {
      LargeSizeBytes(header, Le(total, 8));
    } else {
      WrittenParts(header, 20, Uint24(total % 0x1_0000_0000));
    }
  }

  lemma LargeSizeBytes(header: Bytes, size: Bytes)
    requires |header| >= 32 && |size| == 8
    ensures var r := Write(Write(header, 24, size), 20, [0xFF, 0xFF, 0xFF]);
      r[..20] == header[..20] && r[20..23] == [0xFF, 0xFF, 0xFF] && r[24..32] == size
  {
    hide Write;
    var s := Write(header, 24, size);
    var r := Write(s, 20, [0xFF, 0xFF, 0xFF]);
    WrittenParts(header, 24, size);
    WrittenParts(s, 20, [0xFF, 0xFF, 0xFF]);
    SamePrefix(s, header, 24, 0, 20);
    SameSuffix(r, s, 23, 24, 32);
  }

  lemma {:induction false} LePrefix(v: nat, n: nat, k: nat)
    requires k <= n
    ensures Le(v, n)[..k] == Le(v, k)
    decreases k
  {
    if k > 0 {
      LePrefix(v / 0x100, n - 1, k - 1);
      assert Le(v, n)[..k] == [v % 0x100] + Le(v / 0x100, n - 1)[..k - 1];
    }
  }

  /** The size field that a reader finds in a built header. */
  lemma BuiltSize(header: Bytes, body: Bytes, total: nat)
    requires |header| == 24 || |header| == 32
    ensures var h := BuiltHeader(header, body, total);
      && h[..16] == header[..16] && h[18..20] == header[18..20]
      && (|header| == 32 ==> h[20..23] == [0xFF, 0xFF, 0xFF] && FromLe(h[24..28]) == total % 0x1_0000_0000)
      && (|header| == 24 ==> h[20..23] == Uint24(total % 0x1_0000_0000) && FromUint24(h[20..23]) == total % 0x100_0000)
  {
    hide Sum, HeaderSum, Checksum8, TestBit, Le, FromLe, Uint24, FromUint24, SetFfsSize, RecomputeChecksums;
    var s := SetFfsSize(header, total);
    var h := BuiltHeader(header, body, total);
    SizeBytes(header, total);
    ChecksumsValid(s, body);
    SamePrefix(s, header, 20, 0, 16);
    SamePrefix(s, header, 20, 18, 20);
    SameSuffix(h, s, 18, 18, 20);
    SameSuffix(h, s, 18, 20, 23);
    if |header| == 32 {
      SameSuffix(h, s, 18, 24, 28);
      PartOfPart(s, 24, 32, 0, 4);
      LePrefix(total, 8, 4);
      LeWraps(total);
    } else {
      Uint24RoundTrip(total % 0x1_0000_0000);
      WrapTwice(total);
    }
  }

  lemma LeWraps(total: nat)
    ensures FromLe(Le(total, 4)) == total % 0x1_0000_0000
  {
    LeIsMod(total, 4);
    Pow2Of32();
  }

  lemma WrapTwice(total: nat)
    ensures (total % 0x1_0000_0000) % 0x100_0000 == total % 0x100_0000
  {
  }

  /** The largest size that the header can carry, plus one. */
  function SizeLimit(header: Bytes): nat {
    if |header| == 32 then 0x1_0000_0000 else 0xFF_FFFF
  }

  /** What a reader sees of a header that other bytes follow. */
  lemma HeaderInFront(h: Bytes, rest: Bytes)
    requires |h| == 24 || |h| == 32
    ensures var b := h + rest;
      && b[..16] == h[..16] && b[18] == h[18] && b[20..23] == h[20..23]
      && (|h| == 32 ==> b[24..28] == h[24..28] && IsLargeFfs(b) == (h[20..23] == [0xFF, 0xFF, 0xFF]))
      && (|h| == 24 ==> IsLargeFfs(b) == (|b| >= 32 && h[20..23] == [0xFF, 0xFF, 0xFF]))
  {
    var b := h + rest;
    assert h[20..23][0] == h[20] && h[20..23][1] == h[21] && h[20..23][2] == h[22];
  }

  lemma AllOnes(b: Bytes)
    requires |b| == 3
    ensures b == [0xFF, 0xFF, 0xFF] <==> FromUint24(b) == 0xFF_FFFF
  {
  }

  /** The parse of a buffer in terms of what follows the offset. */
  lemma ParseAt(pre: Bytes, b: Bytes, erasePolarity: U8, revision: U8)
    requires |pre| < 0x1_0000_0000 && |b| >= 24
    ensures var r, hl, tl := ParseFile(pre + b, |pre|, erasePolarity, revision), if IsLargeFfs(b) then 32 else 24, if revision == 1 then 2 else 0;
      var size := FfsFileSize(b);
      if |b| < hl || |b| < size || size < hl then r.Err?
      else
        && r.Ok? && r.value.header == b[..hl]
        && r.value == FfsNode(Some(b[..16]), File, b[18], |pre|, b[..hl], r.value.body, r.value.tail, [], NoAction, FileData(erasePolarity, b[..16]))
        && (size >= hl + tl ==> r.value.body == b[hl..size - tl] && r.value.tail == b[size - tl..size])
        && (size < hl + tl ==> r.value.body == [])
  {
    hide FfsFileSize, IsLargeFfs;
    assert (pre + b)[|pre|..] == b;
  }

  /** A file is refused for its size if that is less than its header, and as cut off
      if the header or the size goes beyond the buffer. */
  lemma ParseErrors(pre: Bytes, b: Bytes, erasePolarity: U8, revision: U8)
    requires |pre| < 0x1_0000_0000
    ensures var r, hl := ParseFile(pre + b, |pre|, erasePolarity, revision), if IsLargeFfs(b) then 32 else 24;
      && (r == Err(EndOfBuffer) <==> |b| < 24 || |b| < hl || |b| < FfsFileSize(b))
      && (r == Err(InvalidHeader) <==> |b| >= hl && FfsFileSize(b) < hl)
  {
    hide FfsFileSize, IsLargeFfs;
    assert |b| >= 24 ==> (pre + b)[|pre|..] == b;
    assert |b| < 24 ==> !IsLargeFfs(b) by { ShortIsSmall(b); }
  }

  lemma ShortIsSmall(b: Bytes)
    ensures |b| < 32 ==> !IsLargeFfs(b)
  {
  }

  lemma FinishBytes(n: FfsNode, body: Bytes)
    requires |n.header| >= 24
    ensures FinishFile(n, body).Ok?
    ensures FinishFile(n, body).value == BuiltHeader(n.header, body, |n.header| + |body| + |n.tail|) + body + n.tail
  {
    hide SetFfsSize, RecomputeChecksums;
  }

  lemma Slices(h: Bytes, body: Bytes, tail: Bytes, post: Bytes)
    ensures var b, k := h + (body + tail + post), |h| + |body|;
      b[..|h|] == h && b[|h|..k] == body && b[k..k + |tail|] == tail
  {
  }

  /** The header tells a reader the size, as far as its field can hold it. */
  predicate SizeRead(h: Bytes, total: nat) {
    && (|h| == 24 || |h| == 32)
    && (|h| == 32 ==> h[20..23] == [0xFF, 0xFF, 0xFF] && FromLe(h[24..28]) == total % 0x1_0000_0000)
    && (|h| == 24 ==> FromUint24(h[20..23]) == total % 0x100_0000)
  }

  /** The header length and the size that a reader takes from the bytes. */
  lemma SizeInFront(h: Bytes, rest: Bytes, total: nat)
    requires SizeRead(h, total) && |h| + |rest| >= total
    ensures var b := h + rest;
      && b[..16] == h[..16] && b[18] == h[18]
      && (total < SizeLimit(h) ==> FfsFileSize(b) == total && IsLargeFfs(b) == (|h| == 32))
      && (total >= SizeLimit(h) ==> FfsFileSize(b) < total || IsLargeFfs(b) != (|h| == 32))
  {
    hide FromLe, FromUint24;
    HeaderInFront(h, rest);
    AllOnes(h[20..23]);
  }

  lemma BuiltSizeRead(header: Bytes, body: Bytes, total: nat)
    requires |header| == 24 || |header| == 32
    ensures SizeRead(BuiltHeader(header, body, total), total)
  {
    hide BuiltHeader, FromLe, FromUint24, Uint24;
    BuiltSize(header, body, total);
  }

  /** Reading a built file at any place of any buffer gives back its header,
      body and tail, its GUID and its type, exactly if the size fits the header. */
  lemma FileRoundTrip(n: FfsNode, body: Bytes, pre: Bytes, post: Bytes, erasePolarity: U8, revision: U8)
    requires (|n.header| == 24 || |n.header| == 32) && |n.tail| == (if revision == 1 then 2 else 0)
    requires |pre| < 0x1_0000_0000
    ensures FinishFile(n, body).Ok?
    ensures var total := |n.header| + |body| + |n.tail|;
      var h, r := BuiltHeader(n.header, body, total), ParseFile(pre + (FinishFile(n, body).value + post), |pre|, erasePolarity, revision);
      if total < SizeLimit(n.header) then
        r == Ok(FfsNode(Some(n.header[..16]), File, n.header[18], |pre|, h, body, n.tail, [], NoAction, FileData(erasePolarity, n.header[..16])))
      else r.Err? || r.value.header != h || r.value.body != body
  {
    hide Sum, HeaderSum, Checksum8, TestBit, Le, FromLe, Uint24, FromUint24, BuiltHeader, FinishFile, ParseFile, IsLargeFfs, FfsFileSize, SizeRead;
    var total := |n.header| + |body| + |n.tail|;
    var h := BuiltHeader(n.header, body, total);
    FinishBytes(n, body);
    var rest := body + n.tail + post;
    var b := h + rest;
    assert FinishFile(n, body).value + post == b;
    BuiltSize(n.header, body, total);
    assert SizeRead(h, total) by { BuiltSizeRead(n.header, body, total); }
    SizeInFront(h, rest, total);
    ParseAt(pre, b, erasePolarity, revision);
    Slices(h, body, n.tail, post);
    assert n.header[18] == n.header[18..20][0] == h[18..20][0] == h[18];
  }
}
