/** Unsigned machine words as natural numbers: shifts are division and
  * multiplication by powers of two, and the bitwise operators work bit by bit. */
module Bits {

  function Pow2(n: nat): (p: nat)
    ensures p > 0
  {
    if n == 0 then 1 else 2 * Pow2(n - 1)
  }

  /** Bit `i` of `x`, the least significant bit being bit 0. */
  predicate Bit(x: nat, i: nat) {
    if i == 0 then x % 2 == 1 else Bit(x / 2, i - 1)
  }

  function Or(a: nat, b: nat): nat {
    if a == 0 && b == 0 then 0
    else (if a % 2 == 1 || b % 2 == 1 then 1 else 0) + 2 * Or(a / 2, b / 2)
  }

  function And(a: nat, b: nat): nat {
    if a == 0 && b == 0 then 0
    else (if a % 2 == 1 && b % 2 == 1 then 1 else 0) + 2 * And(a / 2, b / 2)
  }

  function Shr(x: nat, k: nat): nat
    decreases k
  {
    if k == 0 then x else Shr(x / 2, k - 1)
  }

  function Shl(x: nat, k: nat): nat {
    if k == 0 then x else 2 * Shl(x, k - 1)
  }

  lemma {:induction false} Pow2Add(a: nat, b: nat)
    ensures Pow2(a + b) == Pow2(a) * Pow2(b)
  {
    if a > 0 {
      Pow2Add(a - 1, b);
      assert Pow2(a + b) == 2 * (Pow2(a - 1) * Pow2(b));
    }
  }

  lemma {:induction false} Pow2Less(a: nat, b: nat)
    requires a < b
    ensures 2 * Pow2(a) <= Pow2(b)
  {
    if a + 1 < b {
      Pow2Less(a, b - 1);
    }
  }

  lemma MulAtLeast(d: nat, k: nat)
    requires k >= 1
    ensures d * k >= d
  {
  }

  lemma MulLe(a: nat, b: nat, c: nat)
    requires a <= b
    ensures a * c <= b * c
  {
  }

  lemma OneQuotient(d: nat, q: int, r: nat, q': int, r': nat)
    requires r < d && r' < d && d * q + r == d * q' + r'
    ensures q == q'
  {
    if q > q' {
      MulAtLeast(d, q - q');
    } else if q < q' {
      MulAtLeast(d, q' - q);
    }
  }

  /** Euclidean division has one quotient and one remainder. */
  lemma DivUnique(x: int, d: nat, q: int, r: nat)
    requires r < d && x == d * q + r
    ensures x / d == q && x % d == r
  {
    OneQuotient(d, q, r, x / d, x % d);
  }

  lemma DivDiv(x: nat, a: nat, b: nat)
    requires a > 0 && b > 0
    ensures a * b > 0 && x / a / b == x / (a * b)
  {
    var q := x / a;
    var q2, r2 := q / b, q % b;
    MulAtLeast(a, b);
    DivDivStep(x, a, b, q, x % a, q2, r2);
    DivUnique(x, a * b, q2, a * r2 + x % a);
  }

  lemma DivDivStep(x: nat, a: nat, b: nat, q: nat, r: nat, q2: nat, r2: nat)
    requires x == a * q + r && r < a && q == b * q2 + r2 && r2 < b
    ensures x == (a * b) * q2 + (a * r2 + r) && a * r2 + r < a * b
  {
    assert a * (b * q2 + r2) == (a * b) * q2 + a * r2;
    MulAtLeast(a, b - r2);
    assert a * (b - r2) == a * b - a * r2;
  }

  lemma {:induction false} ShrDiv(x: nat, k: nat)
    ensures Shr(x, k) == x / Pow2(k)
    decreases k
  {
    if k > 0 {
      ShrDiv(x / 2, k - 1);
      DivDiv(x, 2, Pow2(k - 1));
    }
  }

  lemma MulTwice(x: nat, p: nat)
    ensures x * (2 * p) == 2 * (x * p)
  {
  }

  lemma {:induction false} ShlMul(x: nat, k: nat)
    ensures Shl(x, k) == x * Pow2(k)
  {
    if k > 0 {
      ShlMul(x, k - 1);
      MulTwice(x, Pow2(k - 1));
    }
  }

  lemma {:induction false} ShlAdd(x: nat, y: nat, k: nat)
    ensures Shl(x + y, k) == Shl(x, k) + Shl(y, k)
  {
    if k > 0 {
      ShlAdd(x, y, k - 1);
    }
  }

  lemma {:induction false} ShlShl(x: nat, j: nat, k: nat)
    ensures Shl(Shl(x, j), k) == Shl(x, j + k)
    decreases k
  {
    if k > 0 {
      ShlShl(x, j, k - 1);
    }
  }

  lemma {:induction false} ShlZero(k: nat)
    ensures Shl(0, k) == 0
  {
    if k > 0 {
      ShlZero(k - 1);
    }
  }

  lemma {:induction false} ShlOne(k: nat)
    ensures Shl(1, k) == Pow2(k)
  {
    if k > 0 {
      ShlOne(k - 1);
    }
  }

  lemma {:induction false} ShlAtLeast(x: nat, k: nat)
    requires x > 0
    ensures Shl(x, k) >= Pow2(k)
  {
    if k > 0 {
      ShlAtLeast(x, k - 1);
    }
  }

  lemma {:induction false} ShrShr(x: nat, j: nat, k: nat)
    ensures Shr(Shr(x, j), k) == Shr(x, j + k)
    decreases j
  {
    if j > 0 {
      ShrShr(x / 2, j - 1, k);
    }
  }

  lemma {:induction false} ShrBound(x: nat, k: nat, b: nat)
    requires x < Pow2(k + b)
    ensures Shr(x, k) < Pow2(b)
    decreases k
  {
    if k > 0 {
      ShrBound(x / 2, k - 1, b);
    }
  }

  lemma {:induction false} ShlBound(d: nat, k: nat, b: nat, rest: nat)
    requires d < Pow2(b) && rest < Pow2(k)
    ensures Shl(d, k) + rest < Pow2(k + b)
    decreases k
  {
    if k > 0 {
      ShlBound(d, k - 1, b, rest / 2);
    }
  }

  /** The low bits of a word whose high part is shifted in. */
  lemma {:induction false} ShrOfShl(h: nat, k: nat, low: nat)
    requires low < Pow2(k)
    ensures Shr(Shl(h, k) + low, k) == h && (Shl(h, k) + low) % Pow2(k) == low
    decreases k
  {
    if k > 0 {
      var x := Shl(h, k) + low;
      assert x / 2 == Shl(h, k - 1) + low / 2;
      ShrOfShl(h, k - 1, low / 2);
      ModHalf(x, Pow2(k - 1));
    }
  }

  lemma {:induction false} BitShr(x: nat, k: nat, i: nat)
    ensures Bit(Shr(x, k), i) == Bit(x, i + k)
    decreases k
  {
    if k > 0 {
      BitShr(x / 2, k - 1, i);
    }
  }

  lemma {:induction false} BitOr(a: nat, b: nat, i: nat)
    ensures Bit(Or(a, b), i) == (Bit(a, i) || Bit(b, i))
    decreases i
  {
    if a == 0 && b == 0 {
      BitZero(i);
    } else if i > 0 {
      BitOr(a / 2, b / 2, i - 1);
    }
  }

  lemma {:induction false} BitAnd(a: nat, b: nat, i: nat)
    ensures Bit(And(a, b), i) == (Bit(a, i) && Bit(b, i))
    decreases i
  {
    if a == 0 && b == 0 {
      BitZero(i);
    } else if i > 0 {
      BitAnd(a / 2, b / 2, i - 1);
    }
  }

  lemma {:induction false} BitZero(i: nat)
    ensures !Bit(0, i)
  {
    if i > 0 {
      BitZero(i - 1);
    }
  }

  lemma {:induction false} BitPow2(k: nat, i: nat)
    ensures Bit(Pow2(k), i) == (i == k)
  {
    if k == 0 && i > 0 {
      BitZero(i - 1);
    } else if k > 0 && i > 0 {
      BitPow2(k - 1, i - 1);
    }
  }

  /** A number below 2^t has no bit at or above t. */
  lemma {:induction false} BitAbove(x: nat, t: nat, i: nat)
    requires x < Pow2(t) && t <= i
    ensures !Bit(x, i)
    decreases i
  {
    if t == 0 {
      BitZero(i);
    } else {
      BitAbove(x / 2, t - 1, i - 1);
    }
  }

  /** The number whose bits below t are all set, and none above, is 2^t - 1. */
  lemma {:induction false} AllOnes(x: nat, t: nat)
    requires x < Pow2(t)
    requires forall i :: 0 <= i < t ==> Bit(x, i)
    ensures x == Pow2(t) - 1
    decreases t
  {
    if t > 0 {
      assert Bit(x, 0);
      forall i | 0 <= i < t - 1 ensures Bit(x / 2, i) {
        assert Bit(x, i + 1);
      }
      AllOnes(x / 2, t - 1);
    }
  }

  /** A word is zero exactly when none of its bits is set. */
  lemma {:induction false} NonZeroBit(x: nat) returns (i: nat)
    requires x > 0
    ensures Bit(x, i)
  {
    if x % 2 == 1 {
      i := 0;
    } else {
      var j := NonZeroBit(x / 2);
      i := j + 1;
    }
  }

  lemma {:induction false} OrBelow(a: nat, b: nat, t: nat)
    requires a < Pow2(t) && b < Pow2(t)
    ensures Or(a, b) < Pow2(t)
    decreases t
  {
    if t > 0 && (a != 0 || b != 0) {
      OrBelow(a / 2, b / 2, t - 1);
    }
  }

  /** Or of words without a common bit is their sum. */
  lemma {:induction false} OrDisjoint(a: nat, b: nat, k: nat)
    requires b < Pow2(k)
    ensures Or(Shl(a, k), b) == Shl(a, k) + b
    decreases k
  {
    if k == 0 {
      OrZero(a);
    } else {
      OrDisjoint(a, b / 2, k - 1);
    }
  }

  lemma {:induction false} OrCommutes(a: nat, b: nat)
    ensures Or(a, b) == Or(b, a)
    decreases a + b
  {
    if a != 0 || b != 0 {
      OrCommutes(a / 2, b / 2);
    }
  }

  lemma {:induction false} OrZero(a: nat)
    ensures Or(a, 0) == a
  {
    if a > 0 {
      OrZero(a / 2);
    }
  }

  /** Masking with 2^k - 1 keeps the remainder modulo 2^k. */
  lemma {:induction false} AndMask(x: nat, k: nat)
    ensures And(x, Pow2(k) - 1) == x % Pow2(k)
    decreases k
  {
    if k == 0 {
      AndZero(x);
    } else {
      AndMask(x / 2, k - 1);
      ModHalf(x, Pow2(k - 1));
    }
  }

  lemma ModHalf(x: nat, p: nat)
    requires p > 0
    ensures x % (2 * p) == 2 * (x / 2 % p) + x % 2
  {
    var h := x / 2;
    assert h == p * (h / p) + h % p;
    assert (2 * p) * (h / p) == 2 * (p * (h / p));
    DivUnique(x, 2 * p, h / p, 2 * (h % p) + x % 2);
  }

  lemma {:induction false} AndZero(a: nat)
    ensures And(a, 0) == 0
  {
    if a > 0 {
      AndZero(a / 2);
    }
  }

  /** A single-bit word meets a mask exactly where the mask has that bit. */
  lemma AndPow2(k: nat, mask: nat)
    ensures And(Pow2(k), mask) != 0 <==> Bit(mask, k)
  {
    BitAnd(Pow2(k), mask, k);
    BitPow2(k, k);
    if And(Pow2(k), mask) != 0 {
      var i := NonZeroBit(And(Pow2(k), mask));
      BitAnd(Pow2(k), mask, i);
      BitPow2(k, i);
    } else {
      BitZero(k);
    }
  }

  /** Bits of a word made of a low part and a high part. */
  lemma {:induction false} BitConcat(lo: nat, hi: nat, k: nat, i: nat)
    requires lo < Pow2(k)
    ensures Bit(lo + Shl(hi, k), i) == if i < k then Bit(lo, i) else Bit(hi, i - k)
    decreases k
  {
    if k > 0 {
      assert (lo + Shl(hi, k)) / 2 == lo / 2 + Shl(hi, k - 1) && (lo + Shl(hi, k)) % 2 == lo % 2;
      if i > 0 {
        BitConcat(lo / 2, hi, k - 1, i - 1);
      }
    }
  }

  lemma Pow2Square(k: nat, v: nat, j: nat)
    requires Pow2(k) == v && j == k + k
    ensures Pow2(j) == v * v
  {
    Pow2Add(k, k);
  }

  lemma Pow2Of8()
    ensures Pow2(8) == 0x100
  {
    assert Pow2(4) == 0x10;
    Pow2Square(4, 0x10, 8);
  }

  lemma Pow2Of16()
    ensures Pow2(16) == 0x1_0000
  {
    Pow2Of8();
    Pow2Square(8, 0x100, 16);
  }

  lemma Pow2Of32()
    ensures Pow2(32) == 0x1_0000_0000
  {
    Pow2Of16();
    Pow2Square(16, 0x1_0000, 32);
  }

  lemma Pow2Of64()
    ensures Pow2(64) == 0x1_0000_0000_0000_0000
    ensures Pow2(63) == 0x8000_0000_0000_0000
  {
    Pow2Of32();
    Pow2Square(32, 0x1_0000_0000, 64);
  }

  lemma ShlBy4(x: nat)
    ensures Shl(x, 4) == 0x10 * x && Pow2(4) == 0x10
  {
    ShlMul(x, 4);
  }

  lemma ShlBy8(x: nat)
    ensures Shl(x, 8) == 0x100 * x && Pow2(8) == 0x100
  {
    ShlMul(x, 8);
    Pow2Of8();
  }

  lemma ShlBy16(x: nat)
    ensures Shl(x, 16) == 0x1_0000 * x && Pow2(16) == 0x1_0000
  {
    ShlMul(x, 16);
    Pow2Of16();
  }

  lemma ShlBy32(x: nat)
    ensures Shl(x, 32) == 0x1_0000_0000 * x && Pow2(32) == 0x1_0000_0000
  {
    ShlMul(x, 32);
    Pow2Of32();
  }
}
