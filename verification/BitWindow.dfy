/** Why refilling the bit window is right: every step of the refill leaves, in
    each bit of the buffer, either the stream bit that belongs there or, below
    the part already supplied, a zero. Bits of the byte in hand that were
    consumed before are written a second time, onto themselves. */
module BitWindow {
  import opened Words
  import opened BitStreams

  /** The buffer that is to end at stream position `end` still lacks its low `n` bits. */
  ghost predicate Partial(s: seq<bool>, end: int, n: nat, buf: nat) {
    forall i {:trigger TestBit(buf, i)} :: 0 <= i < 32 ==> (TestBit(buf, i) <==> i >= n && Bit(s, end - 1 - i))
  }

  /** `sub` is the byte number `fetched - 1` of the stream. */
  ghost predicate ByteInHand(s: seq<bool>, fetched: nat, sub: nat) {
    sub < 0x100 &&
    forall j {:trigger TestBit(sub, j)} :: 0 <= j < 8 ==> (TestBit(sub, j) <==> Bit(s, 8 * fetched - 1 - j))
  }

  lemma ShiftOut(s: seq<bool>, pos: int, buf: U32, n: nat)
    requires Window(s, pos, buf)
    ensures Partial(s, pos + 32 + n, n, Shl(buf, n))
  {
    forall i | 0 <= i < 32
      ensures TestBit(Shl(buf, n), i) <==> i >= n && Bit(s, pos + 32 + n - 1 - i)
    {
      ShlBit(buf, n, i);
    }
  }

  lemma ByteBits(s: seq<bool>, fetched: nat, sub: nat, j: nat)
    requires ByteInHand(s, fetched, sub)
    ensures TestBit(sub, j) <==> j < 8 && Bit(s, 8 * fetched - 1 - j)
  {
    Pow2Of32();
    if j >= 8 {
      HighBit(sub, 8, j);
    }
  }

  /** The byte in hand, of which `have` bits are still unused, supplies `have` bits. */
  lemma TakeByte(s: seq<bool>, end: int, n: nat, have: nat, buf: U32, fetched: nat, sub: nat)
    requires Partial(s, end, n, buf) && ByteInHand(s, fetched, sub)
    requires have <= 8 && have <= n && 8 * fetched == end - (n - have)
    ensures Or(buf, Shl(sub, n - have)) < 0x1_0000_0000
    ensures Partial(s, end, n - have, Or(buf, Shl(sub, n - have)))
  {
    var k := n - have;
    Pow2Of32();
    OrBound(buf, Shl(sub, k), 32);
    forall i | 0 <= i < 32
      ensures TestBit(Or(buf, Shl(sub, k)), i) <==> i >= k && Bit(s, end - 1 - i)
    {
      OrBit(buf, Shl(sub, k), i);
      ShlBit(sub, k, i);
      if i >= k {
        ByteBits(s, fetched, sub, i - k);
      }
    }
  }

  /** The top of the byte in hand supplies the last `n` bits. */
  lemma TakeTop(s: seq<bool>, end: int, n: nat, have: nat, buf: U32, fetched: nat, sub: nat)
    requires Partial(s, end, n, buf) && ByteInHand(s, fetched, sub)
    requires n <= have <= 8 && 8 * fetched - have == end - n
    ensures Or(buf, Shr(sub, have - n)) < 0x1_0000_0000
    ensures Window(s, end - 32, Or(buf, Shr(sub, have - n)))
  {
    var k := have - n;
    Pow2Of32();
    ShrShrinks(sub, k);
    OrBound(buf, Shr(sub, k), 32);
    forall i | 0 <= i < 32
      ensures TestBit(Or(buf, Shr(sub, k)), i) <==> Bit(s, end - 32 + 31 - i)
    {
      OrBit(buf, Shr(sub, k), i);
      ShrBit(sub, k, i);
      ByteBits(s, fetched, sub, i + k);
    }
  }

  /** A freshly fetched byte is the next byte of the stream. */
  lemma FetchedByte(src: seq<U8>, total: nat, k: nat)
    requires k < total <= |src|
    ensures ByteInHand(BytesBits(src, total), k + 1, src[k])
  {
    var s := BytesBits(src, total);
    forall j | 0 <= j < 8
      ensures TestBit(src[k], j) <==> Bit(s, 8 * (k + 1) - 1 - j)
    {
      var p := 8 * (k + 1) - 1 - j;
      assert p / 8 == k && p % 8 == 7 - j;
      assert s[p] == TestBit(src[k], j);
    }
  }

  lemma PaddingByte(src: seq<U8>, total: nat, k: nat)
    requires total <= |src| && total <= k
    ensures ByteInHand(BytesBits(src, total), k + 1, 0)
  {
    forall j | 0 <= j < 8
      ensures TestBit(0, j) <==> Bit(BytesBits(src, total), 8 * (k + 1) - 1 - j)
    {
      HighBit(0, 0, j);
    }
  }

  /** Before the first fetch nothing is in hand and the stream has not begun. */
  lemma EmptyWindow(s: seq<bool>)
    ensures Window(s, -32, 0) && ByteInHand(s, 0, 0)
  {
    forall i: nat ensures !TestBit(0, i) {
      HighBit(0, 0, i);
    }
  }
}
