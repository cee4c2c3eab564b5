/** Conversion of IEEE 754 bit patterns to signed integers of a given width. */
module FixInt {
  import opened Bits

  /** Number of fraction bits and of exponent bits. */
  datatype Format = Format(sig: nat, exp: nat)

  predicate Wide(f: Format, width: nat) {
    f.exp >= 2 && f.sig + 2 <= width
  }

  function Bias(f: Format): nat
    requires f.exp >= 1
  {
    Pow2(f.exp - 1) - 1
  }

  predicate Pattern(f: Format, a: nat) {
    a < Pow2(f.sig + f.exp + 1)
  }

  // -------------------------------------------------------------- the conversion

  /** Reading an integer as a two's complement word. */
  function Wrap(x: int, width: nat): int
    requires width >= 1
  {
    (x + Pow2(width - 1)) % Pow2(width) - Pow2(width - 1)
  }

  /** The shifts and masks of the conversion routines. */
  function Fix(f: Format, width: nat, a: nat): int
    requires Wide(f, width)
  {
    var signBit := Shl(1, f.sig + f.exp);
    var implicitBit := Shl(1, f.sig);
    ShlOne(f.sig + f.exp);
    ShlOne(f.sig);
    var abs := And(a, signBit - 1);
    var sign := if And(a, signBit) != 0 then -1 else 1;
    var exponent := Shr(abs, f.sig) - Bias(f);
    var significand := Or(And(abs, implicitBit - 1), implicitBit);
    if exponent < 0 then 0
    else if exponent >= width then (if sign == 1 then Pow2(width - 1) - 1 else 0 - Pow2(width - 1))
    else if exponent < f.sig then sign * Shr(significand, f.sig - exponent)
    else Wrap(sign * Wrap(Shl(significand, exponent - f.sig), width), width)
  }

  // ------------------------------------------------------- what a pattern stands for

  function Negative(f: Format, a: nat): bool {
    a >= Pow2(f.sig + f.exp)
  }

  function Biased(f: Format, a: nat): nat {
    Shr(a % Pow2(f.sig + f.exp), f.sig)
  }

  function Fraction(f: Format, a: nat): nat {
    a % Pow2(f.sig)
  }

  function Exponent(f: Format, a: nat): int
    requires f.exp >= 1
  {
    Biased(f, a) - Bias(f)
  }

  /** The significand of a normal number. */
  function Significand(f: Format, a: nat): nat {
    Pow2(f.sig) + Fraction(f, a)
  }

  datatype Ratio = Ratio(num: nat, den: nat)

  /** The absolute value, subnormal numbers having no implicit bit. */
  function Magnitude(f: Format, a: nat): (r: Ratio)
    requires f.exp >= 2
    ensures r.den > 0
  {
    if Biased(f, a) == 0 then Ratio(Fraction(f, a), Pow2(Bias(f) - 1 + f.sig))
    else if Exponent(f, a) >= f.sig then Ratio(Shl(Significand(f, a), Exponent(f, a) - f.sig), 1)
    else Ratio(Significand(f, a), Pow2(f.sig - Exponent(f, a)))
  }

  predicate IsFloor(t: nat, r: Ratio) {
    t * r.den <= r.num < (t + 1) * r.den
  }

  function Signed(neg: bool, t: nat): int {
    if neg then 0 - t else t
  }

  /** The result is the value truncated toward zero. */
  predicate Truncates(f: Format, a: nat, x: int)
    requires f.exp >= 2
  {
    var t := if x < 0 then -x else x;
    IsFloor(t, Magnitude(f, a)) && (x != 0 ==> (x < 0) == Negative(f, a))
  }

  // ------------------------------------------------------------ reading the fields

  lemma TopBitSet(a: nat, k: nat)
    requires a < Pow2(k + 1)
    ensures Bit(a, k) <==> a >= Pow2(k)
    ensures a % Pow2(k) == if a >= Pow2(k) then a - Pow2(k) else a
    decreases k
  {
    if a >= Pow2(k) {
      DivUnique(a, Pow2(k), 1, a - Pow2(k));
      ShlOne(k);
      BitConcat(a - Pow2(k), 1, k, k);
    } else {
      DivUnique(a, Pow2(k), 0, a);
      BitAbove(a, k, k);
    }
  }

  lemma {:induction false} AndCommutes(a: nat, b: nat)
    ensures And(a, b) == And(b, a)
    decreases a + b
  {
    if a != 0 || b != 0 {
      AndCommutes(a / 2, b / 2);
    }
  }

  lemma {:induction false} ModMod(x: nat, j: nat, k: nat)
    requires j <= k
    ensures x % Pow2(k) % Pow2(j) == x % Pow2(j)
  {
    if j > 0 {
      var y := x % Pow2(k);
      ModHalf(x, Pow2(k - 1));
      ModHalf(x, Pow2(j - 1));
      ModHalf(y, Pow2(j - 1));
      assert y / 2 == x / 2 % Pow2(k - 1) && y % 2 == x % 2;
      ModMod(x / 2, j - 1, k - 1);
    }
  }

  /** The masks pick out sign, exponent and fraction. */
  lemma Fields(f: Format, width: nat, a: nat)
    requires Wide(f, width) && Pattern(f, a)
    ensures Shl(1, f.sig + f.exp) == Pow2(f.sig + f.exp) && Shl(1, f.sig) == Pow2(f.sig)
    ensures And(a, Pow2(f.sig + f.exp)) != 0 <==> Negative(f, a)
    ensures And(a, Pow2(f.sig + f.exp) - 1) == a % Pow2(f.sig + f.exp)
    ensures Or(And(a % Pow2(f.sig + f.exp), Pow2(f.sig) - 1), Pow2(f.sig)) == Significand(f, a)
  {
    var top := f.sig + f.exp;
    ShlOne(top);
    ShlOne(f.sig);
    AndCommutes(a, Pow2(top));
    AndPow2(top, a);
    TopBitSet(a, top);
    AndMask(a, top);
    AndMask(a % Pow2(top), f.sig);
    ModMod(a, f.sig, top);
    OrCommutes(Fraction(f, a), Pow2(f.sig));
    OrDisjoint(1, Fraction(f, a), f.sig);
  }

  /** The conversion of a number given by sign, exponent and significand. */
  function ByFields(sig: nat, width: nat, neg: bool, e: int, s: nat): int
    requires width >= 1
  {
    if e < 0 then 0
    else if e >= width then (if neg then 0 - Pow2(width - 1) else Pow2(width - 1) - 1)
    else if e < sig then Signed(neg, Shr(s, sig - e))
    else
      var m := Wrap(Shl(s, e - sig), width);
      Wrap(if neg then -m else m, width)
  }

  lemma FixByFields(f: Format, width: nat, a: nat)
    requires Wide(f, width) && Pattern(f, a)
    ensures Fix(f, width, a) == ByFields(f.sig, width, Negative(f, a), Exponent(f, a), Significand(f, a))
  {
    Fields(f, width, a);
  }

  // ------------------------------------------------------------------- ranges

  lemma Pow2Le(a: nat, b: nat)
    requires a <= b
    ensures Pow2(a) <= Pow2(b)
  {
    if a < b {
      Pow2Less(a, b);
    }
  }

  lemma WrapInside(x: int, width: nat)
    requires width >= 1 && 0 - Pow2(width - 1) <= x < Pow2(width - 1)
    ensures Wrap(x, width) == x
  {
    WrapOnce(x + Pow2(width - 1), Pow2(width), 0);
  }

  lemma WrapAbove(x: int, width: nat)
    requires width >= 1 && Pow2(width - 1) <= x < Pow2(width) + Pow2(width - 1)
    ensures Wrap(x, width) == x - Pow2(width)
  {
    WrapOnce(x + Pow2(width - 1), Pow2(width), 1);
  }

  lemma WrapOnce(y: int, m: nat, q: int)
    requires m > 0 && 0 <= y - m * q < m
    ensures y % m == y - m * q
  {
    DivUnique(y, m, q, y - m * q);
  }

  /** Below exponent 0 the value is below 1. */
  lemma BelowOne(f: Format, a: nat)
    requires f.exp >= 2 && Exponent(f, a) < 0
    ensures IsFloor(0, Magnitude(f, a))
  {
    if Biased(f, a) == 0 {
      assert Pow2(1) == 2;
      Pow2Le(1, f.exp - 1);
      Pow2Le(f.sig, Bias(f) - 1 + f.sig);
    } else {
      Pow2Le(f.sig + 1, f.sig - Exponent(f, a));
    }
  }

  lemma FloorOfQuotient(s: nat, p: nat)
    requires p > 0
    ensures IsFloor(s / p, Ratio(s, p))
  {
    assert s == p * (s / p) + s % p;
    assert (s / p + 1) * p == p * (s / p) + p;
  }

  lemma RightShifted(f: Format, width: nat, a: nat)
    requires Wide(f, width) && 0 <= Exponent(f, a) < f.sig
    ensures var t := Shr(Significand(f, a), f.sig - Exponent(f, a)); IsFloor(t, Magnitude(f, a)) && t < Pow2(width - 1)
  {
    var e, s := Exponent(f, a), Significand(f, a);
    PositiveBias(f);
    ShrDiv(s, f.sig - e);
    FloorOfQuotient(s, Pow2(f.sig - e));
    ShrBound(s, f.sig - e, e + 1);
    Pow2Le(e + 1, width - 1);
  }

  lemma PositiveBias(f: Format)
    requires f.exp >= 2
    ensures Bias(f) >= 1
  {
    assert Pow2(1) == 2;
    Pow2Le(1, f.exp - 1);
  }

  lemma LeftShifted(f: Format, a: nat)
    requires f.exp >= 2 && f.sig <= Exponent(f, a)
    ensures var e, m := Exponent(f, a), Shl(Significand(f, a), Exponent(f, a) - f.sig);
            && Magnitude(f, a) == Ratio(m, 1) && IsFloor(m, Ratio(m, 1))
            && Pow2(e) <= m < Pow2(e + 1) && (m == Pow2(e) <==> Fraction(f, a) == 0)
  {
    var e, k := Exponent(f, a), Exponent(f, a) - f.sig;
    PositiveBias(f);
    ShlAdd(Pow2(f.sig), Fraction(f, a), k);
    ShlPow2(f.sig, k);
    ShlBound(Significand(f, a), k, f.sig + 1, 0);
    if Fraction(f, a) == 0 {
      ShlZero(k);
    } else {
      ShlAtLeast(Fraction(f, a), k);
    }
  }

  lemma {:induction false} ShlPow2(j: nat, k: nat)
    ensures Shl(Pow2(j), k) == Pow2(j + k)
  {
    if k > 0 {
      ShlPow2(j, k - 1);
    }
  }

  // ------------------------------------------------------------------ main results

  /** Every value below 2^(width-1) is truncated toward zero. */
  lemma FixTruncates(f: Format, width: nat, a: nat)
    requires Wide(f, width) && Pattern(f, a) && Exponent(f, a) < width - 1
    ensures Truncates(f, a, Fix(f, width, a)) && 0 - Pow2(width - 1) < Fix(f, width, a) < Pow2(width - 1)
  {
    FixByFields(f, width, a);
    var e := Exponent(f, a);
    if e < 0 {
      BelowOne(f, a);
      FloorTruncates(f, a, 0);
    } else if e < f.sig {
      RightShifted(f, width, a);
      FloorTruncates(f, a, Shr(Significand(f, a), f.sig - e));
    } else {
      var m: int := Shl(Significand(f, a), e - f.sig);
      LeftShifted(f, a);
      Pow2Le(e + 1, width - 1);
      WrapInside(m, width);
      WrapInside(0 - m, width);
      FloorTruncates(f, a, m);
    }
  }

  lemma FloorTruncates(f: Format, a: nat, t: nat)
    requires f.exp >= 2 && IsFloor(t, Magnitude(f, a))
    ensures Truncates(f, a, Signed(Negative(f, a), t))
  {
  }

  /** From 2^width on, infinities and not-a-number patterns included, the result is
    * the extreme of the value's sign. */
  lemma FixSaturates(f: Format, width: nat, a: nat)
    requires Wide(f, width) && Pattern(f, a) && Exponent(f, a) >= width
    ensures Fix(f, width, a) == if Negative(f, a) then 0 - Pow2(width - 1) else Pow2(width - 1) - 1
    ensures Magnitude(f, a).num >= Pow2(width) && Magnitude(f, a).den == 1
  {
    FixByFields(f, width, a);
    LeftShifted(f, a);
    Pow2Le(width, Exponent(f, a));
  }

  /** In between, the test for saturation passes and the shift runs into the sign
    * bit: the result is the value modulo 2^width. */
  lemma FixWraps(f: Format, width: nat, a: nat)
    requires Wide(f, width) && Pattern(f, a) && Exponent(f, a) == width - 1
    ensures var m := Magnitude(f, a).num;
            && Magnitude(f, a).den == 1 && Pow2(width - 1) <= m < Pow2(width)
            && (m == Pow2(width - 1) <==> Fraction(f, a) == 0)
            && Fix(f, width, a) == if !Negative(f, a) then m - Pow2(width) else if m == Pow2(width - 1) then 0 - m else Pow2(width) - m
  {
    FixByFields(f, width, a);
    LeftShifted(f, a);
    var m := Magnitude(f, a).num;
    WrapAbove(m, width);
    if !Negative(f, a) {
      WrapInside(m - Pow2(width), width);
    } else if m == Pow2(width - 1) {
      WrapAbove(Pow2(width) - m, width);
    } else {
      WrapInside(Pow2(width) - m, width);
    }
  }

  /** The result is the truncated value exactly when that fits the integer type. */
  lemma FixExactIff(f: Format, width: nat, a: nat)
    requires Wide(f, width) && Pattern(f, a)
    ensures Truncates(f, a, Fix(f, width, a)) <==>
            Exponent(f, a) < width - 1 || (Exponent(f, a) == width - 1 && Negative(f, a) && Fraction(f, a) == 0)
  {
    if Exponent(f, a) < width - 1 {
      FixTruncates(f, width, a);
    } else if Exponent(f, a) == width - 1 {
      FixWraps(f, width, a);
    } else {
      FixSaturates(f, width, a);
    }
  }
}
