/** Machine words of the engine as bounded integers, with the shifts, the
    bitwise "or" and the mask tests that the decompressor performs on them.
    Bit 0 is the least significant bit. */
module Words {
  type U8 = x: int | 0 <= x < 0x100
  type U16 = x: int | 0 <= x < 0x1_0000
  type U32 = x: int | 0 <= x < 0x1_0000_0000

  function Pow2(n: nat): (p: nat)
    ensures p >= 1
  {
    if n == 0 then 1 else 2 * Pow2(n - 1)
  }

  /** `x >> n`. */
  function Shr(x: nat, n: nat): nat
    decreases n
  {
    if n == 0 then x else Shr(x / 2, n - 1)
  }

  /** Whether bit `i` of `x` is set. */
  predicate TestBit(x: nat, i: nat) {
    Shr(x, i) % 2 == 1
  }

  /** `x << n` without a word size. */
  function Double(x: nat, n: nat): nat {
    if n == 0 then x else 2 * Double(x, n - 1)
  }

  /** `x << n` on 64 bits, kept in 32 bits. */
  function Shl(x: nat, n: nat): U32 {
    Double(x, n) % 0x1_0000_0000
  }

  function Or(a: nat, b: nat): nat {
    if a == 0 && b == 0 then 0
    else 2 * Or(a / 2, b / 2) + (if a % 2 == 1 || b % 2 == 1 then 1 else 0)
  }

  function And(a: nat, b: nat): nat {
    if a == 0 || b == 0 then 0
    else 2 * And(a / 2, b / 2) + (if a % 2 == 1 && b % 2 == 1 then 1 else 0)
  }

  lemma Pow2Sum(a: nat, b: nat)
    ensures Pow2(a + b) == Pow2(a) * Pow2(b)
  {
    if b > 0 {
      Pow2Sum(a, b - 1);
      assert Pow2(a + b) == 2 * (Pow2(a) * Pow2(b - 1));
      assert Pow2(b) == 2 * Pow2(b - 1);
    }
  }

  lemma Pow2Monotone(a: nat, b: nat)
    requires a <= b
    ensures Pow2(a) <= Pow2(b)
  {
    if a < b {
      Pow2Monotone(a, b - 1);
    }
  }

  lemma Halve(a: int, w: int)
    ensures a * (2 * w) == (2 * a) * w
  {
  }

  lemma Distribute(a: int, b: int, w: int)
    ensures (a + b) * w == a * w + b * w
  {
  }

  lemma MulMonotone(a: int, b: int, w: nat)
    requires a <= b
    ensures a * w <= b * w
  {
  }

  lemma ScaleMonotone(w: nat, a: int, b: int)
    requires a <= b
    ensures w * a <= w * b
  {
  }

  lemma Reassociate(a: int, b: int, w: int)
    ensures (a * b) * w == a * (b * w)
  {
  }

  /** Dividing twice is dividing by the product. */
  lemma DivDiv(x: nat, a: nat, b: nat)
    requires a > 0 && b > 0
    ensures a * b > 0 && x / (a * b) == (x / a) / b
  {
    var q, r := x / a, x % a;
    var q2, r2 := q / b, q % b;
    assert x == a * (b * q2 + r2) + r;
    assert x == (a * b) * q2 + (a * r2 + r);
    ScaleMonotone(a, r2 + 1, b);
    assert a * (r2 + 1) == a * r2 + a;
    DivUnique(x, a * b, q2, a * r2 + r);
  }

  lemma MulAtLeast(d: int, k: int)
    requires d > 0 && k >= 1
    ensures d * k >= d
  {
  }

  lemma DivUnique(x: int, d: int, q: int, r: int)
    requires d > 0 && 0 <= r < d && x == d * q + r
    ensures x / d == q && x % d == r
  {
    var q', r' := x / d, x % d;
    assert x == d * q' + r';
    assert d * (q - q') == d * q - d * q';
    if q > q' {
      MulAtLeast(d, q - q');
    } else if q < q' {
      assert d * (q' - q) == d * q' - d * q;
      MulAtLeast(d, q' - q);
    }
  }

  lemma {:induction false} DoubleIsMul(x: nat, n: nat)
    ensures Double(x, n) == x * Pow2(n)
  {
    if n > 0 {
      DoubleIsMul(x, n - 1);
      Halve(x, Pow2(n - 1));
    }
  }

  lemma {:induction false} ShrIsDiv(x: nat, n: nat)
    ensures Shr(x, n) == x / Pow2(n)
    decreases n
  {
    if n > 0 {
      ShrIsDiv(x / 2, n - 1);
      DivDiv(x, 2, Pow2(n - 1));
    }
  }

  lemma {:induction false} ShrSum(x: nat, a: nat, b: nat)
    ensures Shr(Shr(x, a), b) == Shr(x, a + b)
    decreases a
  {
    if a > 0 {
      ShrSum(x / 2, a - 1, b);
    }
  }

  lemma {:induction false} ShrShrinks(x: nat, n: nat)
    ensures Shr(x, n) <= x
    decreases n
  {
    if n > 0 {
      ShrShrinks(x / 2, n - 1);
    }
  }

  lemma {:induction false} ShrLess(x: nat, n: nat, k: nat)
    requires x < Pow2(n + k)
    ensures Shr(x, n) < Pow2(k)
    decreases n
  {
    if n > 0 {
      ShrLess(x / 2, n - 1, k);
    }
  }

  /** The numbers whose top part is `q`. */
  lemma {:induction false} ShrInterval(x: nat, n: nat, q: nat)
    ensures Shr(x, n) == q <==> q * Pow2(n) <= x < q * Pow2(n) + Pow2(n)
    decreases n
  {
    ShrIsDiv(x, n);
    DivInterval(x, Pow2(n), q);
  }

  lemma DivInterval(w: nat, d: nat, q: nat)
    requires d > 0
    ensures w / d == q <==> q * d <= w < q * d + d
  {
    if q * d <= w < q * d + d {
      DivUnique(w, d, q, w - q * d);
    }
  }

  lemma BitHalf(x: nat, i: nat)
    ensures TestBit(x, i) <==> if i == 0 then x % 2 == 1 else TestBit(x / 2, i - 1)
  {
  }

  lemma OrHalf(a: nat, b: nat)
    ensures Or(a, b) / 2 == Or(a / 2, b / 2)
    ensures Or(a, b) % 2 == 1 <==> a % 2 == 1 || b % 2 == 1
  {
    if a == 0 && b == 0 {
      assert Or(0, 0) == 0;
    }
  }

  lemma {:induction false} OrBit(a: nat, b: nat, i: nat)
    ensures TestBit(Or(a, b), i) <==> TestBit(a, i) || TestBit(b, i)
    decreases i
  {
    hide TestBit, Or;
    OrHalf(a, b);
    BitHalf(Or(a, b), i);
    BitHalf(a, i);
    BitHalf(b, i);
    if i > 0 {
      OrBit(a / 2, b / 2, i - 1);
    }
  }

  lemma {:induction false} OrBound(a: nat, b: nat, n: nat)
    requires a < Pow2(n) && b < Pow2(n)
    ensures Or(a, b) < Pow2(n)
    decreases n
  {
    if n > 0 && (a != 0 || b != 0) {
      OrBound(a / 2, b / 2, n - 1);
    }
  }

  /** A one-bit mask selects exactly that bit. */
  lemma {:induction false} AndMask(x: nat, k: nat)
    ensures And(Pow2(k), x) != 0 <==> TestBit(x, k)
    decreases k
  {
    if x == 0 {
      ShrShrinks(0, k);
    } else if k > 0 {
      assert Pow2(k) / 2 == Pow2(k - 1);
      AndMask(x / 2, k - 1);
    } else {
      assert And(1, x) == 2 * And(0, x / 2) + (if x % 2 == 1 then 1 else 0);
    }
  }

  lemma ShrBit(x: nat, n: nat, i: nat)
    ensures TestBit(Shr(x, n), i) <==> TestBit(x, i + n)
  {
    ShrSum(x, n, i);
  }

  lemma {:induction false} DoubleBit(x: nat, n: nat, i: nat)
    ensures TestBit(Double(x, n), i) <==> i >= n && TestBit(x, i - n)
    decreases n
  {
    if n > 0 && i > 0 {
      assert Double(x, n) / 2 == Double(x, n - 1);
      DoubleBit(x, n - 1, i - 1);
    }
  }

  /** Keeping the low `n` bits keeps exactly those bits. */
  lemma {:induction false} ModBit(x: nat, n: nat, i: nat)
    ensures TestBit(x % Pow2(n), i) <==> i < n && TestBit(x, i)
    decreases n
  {
    if n == 0 {
      ShrShrinks(0, i);
    } else {
      ModHalf(x, Pow2(n - 1));
      if i > 0 {
        ModBit(x / 2, n - 1, i - 1);
      }
    }
  }

  lemma ModHalf(x: nat, h: nat)
    requires h > 0
    ensures (x % (2 * h)) / 2 == (x / 2) % h && (x % (2 * h)) % 2 == x % 2
  {
    var q, r := (x / 2) / h, (x / 2) % h;
    assert x / 2 == h * q + r;
    assert 2 * (h * q) == (2 * h) * q;
    DivUnique(x, 2 * h, q, 2 * r + x % 2);
  }

  lemma HighBit(x: nat, n: nat, i: nat)
    requires x < Pow2(n) && i >= n
    ensures !TestBit(x, i)
  {
    Pow2Monotone(n, i);
    assert x < Pow2(i + 0);
    ShrLess(x, i, 0);
  }

  lemma Pow2Of32()
    ensures Pow2(32) == 0x1_0000_0000 && Pow2(16) == 0x1_0000 && Pow2(8) == 0x100
  {
    Pow2Sum(8, 8);
    Pow2Sum(16, 16);
  }

  lemma ShlBit(x: nat, n: nat, i: nat)
    ensures TestBit(Shl(x, n), i) <==> i < 32 && i >= n && TestBit(x, i - n)
  {
    Pow2Of32();
    ModBit(Double(x, n), 32, i);
    DoubleBit(x, n, i);
  }
}
