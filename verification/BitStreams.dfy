/** A compressed payload seen as a stream of bits, most significant bit of each
    byte first, continued by zero bits on both sides. */
module BitStreams {
  import opened Words

  /** Bit `k` of the stream `s`; every position outside `s` holds a zero. */
  predicate Bit(s: seq<bool>, k: int) {
    0 <= k < |s| && s[k]
  }

  /** The number spelled by the `n` bits at `pos`, most significant first. */
  function BitsAt(s: seq<bool>, pos: int, n: nat): nat {
    if n == 0 then 0 else 2 * BitsAt(s, pos, n - 1) + (if Bit(s, pos + n - 1) then 1 else 0)
  }

  /** The stream of the first `n` bytes of `src`. */
  function BytesBits(src: seq<U8>, n: nat): (s: seq<bool>)
    requires n <= |src|
    ensures |s| == 8 * n
  {
    seq(8 * n, k requires 0 <= k < 8 * n => TestBit(src[k / 8], 7 - k % 8))
  }

  /** `buf` shows the 32 bits of the stream at `pos`. */
  ghost predicate Window(s: seq<bool>, pos: int, buf: nat) {
    forall i {:trigger TestBit(buf, i)} :: 0 <= i < 32 ==> (TestBit(buf, i) <==> Bit(s, pos + 31 - i))
  }

  /** The stream carries the bits `x` at `pos`. */
  ghost predicate At(s: seq<bool>, pos: int, x: seq<bool>) {
    forall i {:trigger x[i]} :: 0 <= i < |x| ==> (Bit(s, pos + i) <==> x[i])
  }

  /** The stream is all zero from `pos` on. */
  ghost predicate ZerosFrom(s: seq<bool>, pos: int) {
    forall k {:trigger Bit(s, k)} :: k >= pos ==> !Bit(s, k)
  }

  /** The low `n` bits of `v`, most significant first. */
  function ToBits(v: nat, n: nat): (x: seq<bool>)
    ensures |x| == n
  {
    if n == 0 then [] else ToBits(v / 2, n - 1) + [v % 2 == 1]
  }

  lemma {:induction false} BitsAtBound(s: seq<bool>, pos: int, n: nat)
    ensures BitsAt(s, pos, n) < Pow2(n)
  {
    if n > 0 {
      BitsAtBound(s, pos, n - 1);
    }
  }

  /** Cutting the last `b` of `a + b` bits is shifting them out. */
  lemma {:induction false} BitsAtPrefix(s: seq<bool>, pos: int, a: nat, b: nat)
    ensures Shr(BitsAt(s, pos, a + b), b) == BitsAt(s, pos, a)
  {
    if b > 0 {
      BitsAtPrefix(s, pos, a, b - 1);
      assert BitsAt(s, pos, a + b) / 2 == BitsAt(s, pos, a + b - 1);
    }
  }

  lemma BitsAtBit(s: seq<bool>, pos: int, n: nat, i: nat)
    requires i < n
    ensures TestBit(BitsAt(s, pos, n), i) <==> Bit(s, pos + n - 1 - i)
  {
    BitsAtPrefix(s, pos, n - i, i);
  }

  /** The top bits of the window are the next bits of the stream. */
  lemma {:induction false} WindowTop(s: seq<bool>, pos: int, buf: U32, n: nat)
    requires Window(s, pos, buf) && n <= 32
    ensures Shr(buf, 32 - n) == BitsAt(s, pos, n)
  {
    if n == 0 {
      Pow2Of32();
      ShrLess(buf, 32, 0);
    } else {
      WindowTop(s, pos, buf, n - 1);
      var k := 32 - n;
      ShrSum(buf, k, 1);
      assert Shr(buf, k + 1) == Shr(Shr(buf, k), 1) == Shr(buf, k) / 2;
      assert TestBit(buf, k) <==> Bit(s, pos + 31 - k);
    }
  }

  lemma {:induction false} ReadToBits(s: seq<bool>, pos: int, v: nat, n: nat)
    requires v < Pow2(n) && At(s, pos, ToBits(v, n))
    ensures BitsAt(s, pos, n) == v
  {
    if n > 0 {
      AtConcat(s, pos, ToBits(v / 2, n - 1), [v % 2 == 1]);
      assert [v % 2 == 1][0] == (v % 2 == 1);
      ReadToBits(s, pos, v / 2, n - 1);
    }
  }

  lemma AtConcat(s: seq<bool>, pos: int, x: seq<bool>, y: seq<bool>)
    ensures At(s, pos, x + y) <==> At(s, pos, x) && At(s, pos + |x|, y)
  {
    if At(s, pos, x + y) {
      forall i | 0 <= i < |x| ensures Bit(s, pos + i) <==> x[i] {
        assert (x + y)[i] == x[i];
      }
      forall i | 0 <= i < |y| ensures Bit(s, pos + |x| + i) <==> y[i] {
        assert (x + y)[|x| + i] == y[i];
      }
    }
    if At(s, pos, x) && At(s, pos + |x|, y) {
      forall i | 0 <= i < |x + y| ensures Bit(s, pos + i) <==> (x + y)[i] {
        if i >= |x| {
          assert (x + y)[i] == y[i - |x|];
        }
      }
    }
  }

  lemma {:induction false} ZeroBits(s: seq<bool>, pos: int, n: nat)
    requires ZerosFrom(s, pos)
    ensures BitsAt(s, pos, n) == 0
  {
    if n > 0 {
      ZeroBits(s, pos, n - 1);
    }
  }
}
