/** Conversion of integers to binary floating point, rounding to nearest even. */
module FloatInt {
  import opened Bits
  import opened FixInt
  import opened FloatWiden

  /** Number of significant binary digits: the width less the leading zeros. */
  function Digits(a: nat): nat {
    if a == 0 then 0 else 1 + LeadingBit(a)
  }

  // ---------------------------------------------------------------- the conversion

  /** An integer with k digits too many, scaled to two too many; the last digit tells
    * whether anything was cut off. */
  function Scaled(a: nat, k: nat): nat
    requires k > 0
  {
    if k == 1 then Shl(a, 1)
    else if k == 2 then a
    else Or(Shr(a, k - 2), if And(a, Pow2(k - 2) - 1) != 0 then 1 else 0)
  }

  /** Rounds on the last two digits and drops them. */
  function RoundOff(c: nat): nat {
    Shr(Or(c, if And(c, 4) != 0 then 1 else 0) + 1, 2)
  }

  function FloatUnsigned(f: Format, a: nat): nat
    requires f.exp >= 2
  {
    if a == 0 then 0
    else
      var digits := f.sig + 1;
      var sd := Digits(a);
      var e := sd - 1;
      if sd > digits then
        var m := RoundOff(Scaled(a, sd - digits));
        if And(m, Pow2(digits)) != 0 then Pack(f, e + 1, Shr(m, 1)) else Pack(f, e, m)
      else Pack(f, e, Shl(a, digits - sd))
  }

  /** Exponent field and the fraction bits of the significand. */
  function Pack(f: Format, e: nat, m: nat): nat
    requires f.exp >= 2
  {
    Or(Shl(e + Bias(f), f.sig), And(m, Pow2(f.sig) - 1))
  }

  /** The sign goes to the top bit. */
  function FloatSigned(f: Format, x: int): nat
    requires f.exp >= 2
  {
    if x < 0 then Or(Pow2(f.sig + f.exp), FloatUnsigned(f, -x)) else FloatUnsigned(f, x)
  }

  // ---------------------------------------------------------------- what it rounds to

  /** a / 2^k rounded to the nearest integer, halves to the even one. */
  function NearestEven(a: nat, k: nat): nat
    requires k > 0
  {
    var m, r, half := Shr(a, k), a % Pow2(k), Pow2(k - 1);
    if r > half || (r == half && m % 2 == 1) then m + 1 else m
  }

  /** The integer rounded to the digits of the format. */
  function Rounded(f: Format, a: nat): nat {
    var sd := Digits(a);
    if sd <= f.sig + 1 then a else Shl(NearestEven(a, sd - f.sig - 1), sd - f.sig - 1)
  }

  /** No multiple of 2^k is nearer. */
  lemma NearestIsNearest(a: nat, k: nat, n: nat)
    requires k > 0
    ensures var d, d' := Shl(NearestEven(a, k), k) - a, Shl(n, k) - a;
            (if d < 0 then -d else d) <= (if d' < 0 then -d' else d')
    ensures var d := Shl(NearestEven(a, k), k) - a; 2 * (if d < 0 then -d else d) <= Pow2(k)
  {
    var m := Shr(a, k);
    SplitAt(a, k);
    ShlAdd(m, 1, k);
    ShlOne(k);
    if n <= m {
      ShlMonotone(n, m, k);
    } else {
      ShlMonotone(m + 1, n, k);
    }
  }

  lemma {:induction false} SplitAt(a: nat, k: nat)
    ensures a == Shl(Shr(a, k), k) + a % Pow2(k)
    decreases k
  {
    if k > 0 {
      SplitAt(a / 2, k - 1);
      ModHalf(a, Pow2(k - 1));
    }
  }

  lemma {:induction false} ShlMonotone(x: nat, y: nat, k: nat)
    requires x <= y
    ensures Shl(x, k) <= Shl(y, k)
  {
    if k > 0 {
      ShlMonotone(x, y, k - 1);
    }
  }

  // ------------------------------------------------------------------ the bit tricks

  lemma AndFour(c: nat)
    ensures And(c, 4) != 0 <==> c / 4 % 2 == 1
  {
    assert Pow2(2) == 4;
    AndCommutes(c, 4);
    AndPow2(2, c);
    assert Bit(c, 2) == Bit(c / 2, 1) == Bit(c / 2 / 2, 0);
  }

  lemma OrOne(c: nat)
    ensures Or(c, 1) == if c % 2 == 1 then c else c + 1
  {
    assert Or(c, 1) == 1 + 2 * Or(c / 2, 0);
    OrZero(c / 2);
  }

  /** Four times the quotient plus two rounding digits is rounded to nearest even. */
  lemma RoundTrick(m: nat, d: nat)
    requires d < 4
    ensures RoundOff(4 * m + d) == if d == 3 || (d == 2 && m % 2 == 1) then m + 1 else m
  {
    var c := 4 * m + d;
    AndFour(c);
    OrOne(c);
    OrZero(c);
    assert c / 4 == m;
    var s := Or(c, if And(c, 4) != 0 then 1 else 0);
    assert Shr(s + 1, 2) == (s + 1) / 2 / 2;
  }

  /** A digit of base four times p. */
  function Quarter(t: nat, p: nat): nat {
    if t == 0 then 0 else if t == 1 then p else if t == 2 then 2 * p else 3 * p
  }

  /** The last k + 2 digits are two digits above the last k. */
  lemma {:induction false} LowDigits(a: nat, k: nat)
    ensures a % Pow2(k + 2) == Quarter(Shr(a, k) % 4, Pow2(k)) + a % Pow2(k)
    decreases k
  {
    if k == 0 {
      assert Pow2(2) == 4 && Pow2(0) == 1;
    } else {
      LowDigits(a / 2, k - 1);
      ModHalf(a, Pow2(k + 1));
      ModHalf(a, Pow2(k - 1));
    }
  }

  /** How the cut off part compares with one half. */
  function Remains(r: nat, half: nat): nat {
    if r == 0 then 0 else if r < half then 1 else if r == half then 2 else 3
  }

  /** The two rounding digits say just that. */
  lemma TwoDigits(a: nat, k: nat)
    requires k > 0
    ensures Scaled(a, k) == 4 * Shr(a, k) + Remains(a % Pow2(k), Pow2(k - 1))
  {
    if k == 1 {
      DoubledDigits(a, k);
    } else {
      StickyDigits(a, k, a % Pow2(k), a % Pow2(k - 2));
    }
  }

  lemma StickyDigits(a: nat, k: nat, r: nat, low: nat)
    requires k >= 2 && r == a % Pow2(k) && low == a % Pow2(k - 2)
    ensures Scaled(a, k) == 4 * Shr(a, k) + Remains(r, Pow2(k - 1))
  {
    QuarterShift(a, k);
    LowDigits(a, k - 2);
    ScaledDigits(a, k);
    Sticky(Scaled(a, k), Shr(a, k - 2), Shr(a, k), low, r, Pow2(k - 2), Pow2(k - 1));
  }

  lemma DoubledDigits(a: nat, k: nat)
    requires k == 1
    ensures Scaled(a, k) == 4 * Shr(a, k) + Remains(a % Pow2(k), Pow2(k - 1))
  {
    assert Pow2(1) == 2 && Pow2(0) == 1;
    assert Shr(a, 1) == a / 2 && Shl(a, 1) == 2 * a;
  }

  lemma QuarterShift(a: nat, k: nat)
    requires k >= 2
    ensures Shr(a, k) == Shr(a, k - 2) / 4
  {
    ShrShr(a, k - 2, 2);
    ShrDiv(Shr(a, k - 2), 2);
    assert Pow2(2) == 4;
  }

  lemma ScaledDigits(a: nat, k: nat)
    requires k >= 2
    ensures var x := Shr(a, k - 2); Scaled(a, k) == if a % Pow2(k - 2) != 0 && x % 2 == 0 then x + 1 else x
  {
    if k == 2 {
      assert Pow2(0) == 1;
    } else {
      AndMask(a, k - 2);
      OrOne(Shr(a, k - 2));
      OrZero(Shr(a, k - 2));
    }
  }

  lemma Sticky(c: nat, x: nat, y: nat, low: nat, r: nat, p: nat, half: nat)
    requires low < p && half == 2 * p && y == x / 4 && r == Quarter(x % 4, p) + low
    requires c == if low != 0 && x % 2 == 0 then x + 1 else x
    ensures c == 4 * y + Remains(r, half)
  {
  }

  /** Scaling and rounding off together round to nearest even. */
  lemma RoundsToNearest(a: nat, k: nat)
    requires k > 0
    ensures RoundOff(Scaled(a, k)) == NearestEven(a, k)
  {
    TwoDigits(a, k);
    RoundTrick(Shr(a, k), Remains(a % Pow2(k), Pow2(k - 1)));
  }

  // --------------------------------------------------------- the value of the result

  /** Numbers with so many digits stay finite after rounding. */
  predicate Holds(f: Format, a: nat) {
    f.exp >= 2 && Digits(a) + Bias(f) < Pow2(f.exp)
  }

  lemma PackFields(f: Format, e: nat, m: nat)
    requires f.exp >= 2 && e + Bias(f) < Pow2(f.exp) && Pow2(f.sig) <= m < Pow2(f.sig + 1)
    ensures Pack(f, e, m) == Assemble(f, false, e + Bias(f), m - Pow2(f.sig))
  {
    AndMask(m, f.sig);
    TopBitSet(m, f.sig);
    OrDisjoint(e + Bias(f), m - Pow2(f.sig), f.sig);
  }

  /** A significand and exponent that the pattern is made of. */
  ghost predicate MadeOf(f: Format, b: nat, e: nat, m: nat)
    requires f.exp >= 2
  {
    e + Bias(f) < Pow2(f.exp) && Pow2(f.sig) <= m < Pow2(f.sig + 1) && b == Assemble(f, false, e + Bias(f), m - Pow2(f.sig))
  }

  lemma DigitBounds(a: nat)
    requires a > 0
    ensures Digits(a) > 0 && Pow2(Digits(a) - 1) <= a < Pow2(Digits(a))
  {
  }

  lemma {:induction false} ShrAtLeast(a: nat, j: nat, k: nat)
    requires a >= Pow2(j + k)
    ensures Shr(a, k) >= Pow2(j)
    decreases k
  {
    if k > 0 {
      ShrAtLeast(a / 2, j, k - 1);
    }
  }

  /** Few digits: nothing is cut off. */
  lemma FloatShort(f: Format, a: nat)
    requires a > 0 && Holds(f, a) && Digits(a) <= f.sig + 1
    ensures MadeOf(f, FloatUnsigned(f, a), Digits(a) - 1, Shl(a, f.sig + 1 - Digits(a)))
  {
    var k := f.sig + 1 - Digits(a);
    DigitBounds(a);
    ShlBound(a, k, Digits(a), 0);
    ShlMonotone(Pow2(Digits(a) - 1), a, k);
    ShlPow2(Digits(a) - 1, k);
    PackFields(f, Digits(a) - 1, Shl(a, k));
  }

  lemma NearestRange(f: Format, a: nat)
    requires a > 0 && Digits(a) > f.sig + 1
    ensures var k := Digits(a) - f.sig - 1; Pow2(f.sig) <= NearestEven(a, k) <= Pow2(f.sig + 1)
  {
    var k := Digits(a) - f.sig - 1;
    DigitBounds(a);
    ShrAtLeast(a, f.sig, k);
    ShrBound(a, k, f.sig + 1);
  }

  /** Many digits: the significand is the nearest one, or the next power of two. */
  lemma FloatLong(f: Format, a: nat)
    requires a > 0 && Holds(f, a) && Digits(a) > f.sig + 1
    ensures var m := NearestEven(a, Digits(a) - f.sig - 1);
            if m == Pow2(f.sig + 1) then MadeOf(f, FloatUnsigned(f, a), Digits(a), Pow2(f.sig))
            else MadeOf(f, FloatUnsigned(f, a), Digits(a) - 1, m)
  {
    var m := NearestEven(a, Digits(a) - f.sig - 1);
    LongPacked(f, a, m);
    NearestRange(f, a);
    if m == Pow2(f.sig + 1) {
      PackFields(f, Digits(a), Pow2(f.sig));
    } else {
      PackFields(f, Digits(a) - 1, m);
    }
  }

  lemma LongPacked(f: Format, a: nat, m: nat)
    requires f.exp >= 2 && a > 0 && Digits(a) > f.sig + 1 && m == NearestEven(a, Digits(a) - f.sig - 1)
    ensures FloatUnsigned(f, a) == if m == Pow2(f.sig + 1) then Pack(f, Digits(a), Pow2(f.sig)) else Pack(f, Digits(a) - 1, m)
  {
    RoundsToNearest(a, Digits(a) - f.sig - 1);
    NearestRange(f, a);
    CarryTest(m, f.sig + 1);
    assert Shr(m, 1) == m / 2;
  }

  lemma CarryTest(m: nat, k: nat)
    requires m <= Pow2(k)
    ensures And(m, Pow2(k)) != 0 <==> m == Pow2(k)
  {
    AndCommutes(m, Pow2(k));
    AndPow2(k, m);
    TopBitSet(m, k);
  }

  /** The value of a pattern made of e and m, which has e - sig zeros at its end or
    * sig - e binary places. */
  lemma MadeValue(f: Format, neg: bool, b: nat, e: nat, m: nat)
    requires f.exp >= 2 && e + Bias(f) < Pow2(f.exp) && Pow2(f.sig) <= m < Pow2(f.sig + 1)
    requires b == Assemble(f, neg, e + Bias(f), m - Pow2(f.sig))
    ensures Pattern(f, b) && Negative(f, b) == neg && Exponent(f, b) == e && Fraction(f, b) == m - Pow2(f.sig)
    ensures Magnitude(f, b) == if e >= f.sig then Ratio(Shl(m, e - f.sig), 1) else Ratio(m, Pow2(f.sig - e))
  {
    AssembleFields(f, neg, e + Bias(f), m - Pow2(f.sig));
    PositiveBias(f);
  }

  /** Exponent and significand of the rounded integer. */
  ghost predicate Represents(f: Format, a: nat, e: nat, m: nat) {
    && Pow2(f.sig) <= m < Pow2(f.sig + 1) && Digits(a) - 1 <= e <= Digits(a)
    && (if e >= f.sig then Rounded(f, a) == Shl(m, e - f.sig) else m == Shl(Rounded(f, a), f.sig - e))
    && Pow2(e) <= Rounded(f, a) < Pow2(e + 1)
  }

  lemma FloatRepresents(f: Format, a: nat) returns (e: nat, m: nat)
    requires a > 0 && Holds(f, a)
    ensures MadeOf(f, FloatUnsigned(f, a), e, m) && Represents(f, a, e, m)
  {
    DigitBounds(a);
    if Digits(a) <= f.sig + 1 {
      FloatShort(f, a);
      e, m := Digits(a) - 1, Shl(a, f.sig + 1 - Digits(a));
    } else {
      e, m := LongRepresents(f, a);
    }
  }

  lemma LongRepresents(f: Format, a: nat) returns (e: nat, m: nat)
    requires a > 0 && Holds(f, a) && Digits(a) > f.sig + 1
    ensures MadeOf(f, FloatUnsigned(f, a), e, m) && Represents(f, a, e, m)
  {
    FloatLong(f, a);
    NearestRange(f, a);
    var n := NearestEven(a, Digits(a) - f.sig - 1);
    if n == Pow2(f.sig + 1) {
      e, m := Digits(a), Pow2(f.sig);
      ShlPow2(f.sig, e - f.sig);
      ShlPow2(f.sig + 1, e - f.sig - 1);
    } else {
      e, m := Digits(a) - 1, n;
      ShlBound(m, e - f.sig, f.sig + 1, 0);
      ShlMonotone(Pow2(f.sig), m, e - f.sig);
      ShlPow2(f.sig, e - f.sig);
    }
  }

  // ------------------------------------------------------------------- there and back

  function Abs(x: int): nat {
    if x < 0 then -x else x
  }

  lemma SignedAssembled(f: Format, x: int, e: nat, m: nat)
    requires f.exp >= 2 && x != 0 && MadeOf(f, FloatUnsigned(f, Abs(x)), e, m)
    ensures FloatSigned(f, x) == Assemble(f, x < 0, e + Bias(f), m - Pow2(f.sig))
  {
    if x < 0 {
      var b, top := FloatUnsigned(f, Abs(x)), f.sig + f.exp;
      ShlBound(e + Bias(f), f.sig, f.exp, m - Pow2(f.sig));
      ShlOne(top);
      OrDisjoint(1, b, top);
    }
  }

  lemma FloorIs(t: nat, r: Ratio, n: nat)
    requires r.den > 0 && IsFloor(t, r) && r.num == n * r.den
    ensures t == n
  {
    DivUnique(r.num, r.den, n, 0);
    DivUnique(r.num, r.den, t, r.num - t * r.den);
  }

  /** The rounded number is one of the integer type, the smallest one included. */
  predicate Fits(f: Format, width: nat, x: int)
    requires width > 0
  {
    Rounded(f, Abs(x)) < Pow2(width - 1) || (x < 0 && Rounded(f, Abs(x)) == Pow2(width - 1))
  }

  /** Converting to floating point and back rounds to the format's digits, as long
    * as the rounded number fits the integer type. */
  lemma FixOfFloat(f: Format, width: nat, x: int)
    requires Wide(f, width) && Holds(f, Abs(x)) && Fits(f, width, x)
    ensures Fix(f, width, FloatSigned(f, x)) == if x < 0 then 0 - Rounded(f, Abs(x)) else Rounded(f, Abs(x))
  {
    if x == 0 {
      FixOfZero(f, width);
    } else {
      var e, m := FloatRepresents(f, Abs(x));
      SignedAssembled(f, x, e, m);
      if Rounded(f, Abs(x)) < Pow2(width - 1) {
        FixOfMade(f, width, x < 0, FloatSigned(f, x), e, m, Rounded(f, Abs(x)));
      } else {
        MadeValue(f, true, FloatSigned(f, x), e, m);
        SamePower(e, width - 1);
        FixWraps(f, width, FloatSigned(f, x));
      }
    }
  }

  lemma FixOfZero(f: Format, width: nat)
    requires Wide(f, width)
    ensures Fix(f, width, 0) == 0
  {
    PositiveBias(f);
    ShlZero(f.sig);
    AssembleFields(f, false, 0, 0);
    FixByFields(f, width, 0);
  }

  lemma FixOfMade(f: Format, width: nat, neg: bool, b: nat, e: nat, m: nat, r: nat)
    requires Wide(f, width) && e + Bias(f) < Pow2(f.exp) && Pow2(f.sig) <= m < Pow2(f.sig + 1)
    requires b == Assemble(f, neg, e + Bias(f), m - Pow2(f.sig)) && Pow2(e) <= r < Pow2(width - 1)
    requires if e >= f.sig then r == Shl(m, e - f.sig) else m == Shl(r, f.sig - e)
    ensures Fix(f, width, b) == if neg then 0 - r else r
  {
    MadeValue(f, neg, b, e, m);
    if e >= width - 1 {
      Pow2Le(width - 1, e);
    }
    FixTruncates(f, width, b);
    var y := Fix(f, width, b);
    if e < f.sig {
      ShlMul(r, f.sig - e);
    }
    FloorIs(Abs(y), Magnitude(f, b), r);
  }

  /** A number just below 2^(width-1) that rounds up to it comes back as the
    * smallest integer of the type. */
  lemma RoundsOutOfRange(f: Format, width: nat, x: nat)
    requires Wide(f, width) && Holds(f, x) && x < Pow2(width - 1) == Rounded(f, x)
    ensures Fix(f, width, FloatSigned(f, x)) == 0 - Pow2(width - 1)
  {
    var e, m := FloatRepresents(f, x);
    SignedAssembled(f, x, e, m);
    MadeValue(f, false, FloatSigned(f, x), e, m);
    SamePower(e, width - 1);
    FixWraps(f, width, FloatSigned(f, x));
  }

  /** Rounding does not go beyond the next power of two. */
  lemma RoundedAtMost(f: Format, a: nat)
    requires a > 0
    ensures Rounded(f, a) <= Pow2(Digits(a))
  {
    DigitBounds(a);
    var d := Digits(a);
    if d > f.sig + 1 {
      NearestRange(f, a);
      ShlMonotone(NearestEven(a, d - f.sig - 1), Pow2(f.sig + 1), d - f.sig - 1);
      ShlPow2(f.sig + 1, d - f.sig - 1);
    }
  }

  /** A multiple of the last place is not rounded. */
  lemma MultipleStays(a: nat, j: nat, n: nat)
    requires j > 0 && a == Shl(n, j)
    ensures Shl(NearestEven(a, j), j) == a
  {
    NearestIsNearest(a, j, n);
  }

  lemma DigitsOfPow2(a: nat, k: nat)
    requires a == Pow2(k)
    ensures Digits(a) == k + 1
  {
    DigitBounds(a);
    SamePower(Digits(a) - 1, k);
  }

  lemma RoundedPow2(f: Format, a: nat, k: nat)
    requires a == Pow2(k)
    ensures Rounded(f, a) == a
  {
    DigitsOfPow2(a, k);
    if k > f.sig {
      ShlPow2(f.sig, k - f.sig);
      MultipleStays(a, k - f.sig, Pow2(f.sig));
    }
  }

  /** An integer of the type comes back unchanged if and only if it is not rounded, as it
    * is not when it has no more digits than the format keeps. */
  lemma RoundTrip(f: Format, width: nat, x: int)
    requires Wide(f, width) && Holds(f, Abs(x)) && 0 - Pow2(width - 1) <= x < Pow2(width - 1)
    ensures Fix(f, width, FloatSigned(f, x)) == x <==> Rounded(f, Abs(x)) == Abs(x)
    ensures Digits(Abs(x)) <= f.sig + 1 ==> Fix(f, width, FloatSigned(f, x)) == x
  {
    if Abs(x) == Pow2(width - 1) {
      RoundedPow2(f, Abs(x), width - 1);
    } else if x != 0 {
      DigitBounds(Abs(x));
      RoundedAtMost(f, Abs(x));
      if Digits(Abs(x)) > width - 1 {
        Pow2Le(width - 1, Digits(Abs(x)) - 1);
      }
      Pow2Le(Digits(Abs(x)), width - 1);
    }
    if Fits(f, width, x) {
      FixOfFloat(f, width, x);
    } else {
      RoundsOutOfRange(f, width, x);
    }
  }

  lemma SamePower(e: nat, k: nat)
    requires Pow2(e) <= Pow2(k) < Pow2(e + 1)
    ensures e == k
  {
    if e < k {
      Pow2Le(e + 1, k);
    } else if k < e {
      Pow2Less(k, e);
    }
  }

  /** For binary64 and 128-bit integers: every integer below 2^53 in size. */
  lemma DoubleThereAndBack(x: int, width: nat)
    requires width == 128 && Abs(x) < Pow2(DOUBLE.sig + 1)
    ensures Fix(DOUBLE, width, FloatSigned(DOUBLE, x)) == x
  {
    Formats();
    var d := Digits(Abs(x));
    if d > DOUBLE.sig + 1 {
      DigitBounds(Abs(x));
      Pow2Le(DOUBLE.sig + 1, d - 1);
    }
    assert Pow2(11) == 2048;
    Pow2Le(DOUBLE.sig + 1, width - 1);
    RoundTrip(DOUBLE, width, x);
  }

  /** The conversion in figures: sign, exponent and significand m of the number made from
    * an integer of d + 1 binary digits, which stands for q times 2^k. Nothing is lost of a
    * short integer; the number made from a long one is at most half of 2^k away, and exactly
    * half only when q is even. */
  lemma FloatInFigures(f: Format, x: int, a: nat, d: nat) returns (e: nat, m: nat, q: nat)
    requires f.exp >= 2 && a == (if x < 0 then -x else x) && Pow2(d) <= a < Pow2(d + 1) && d + Pow2(f.exp - 1) < Pow2(f.exp)
    ensures Pow2(f.sig) <= m < Pow2(f.sig + 1)
    ensures FloatSigned(f, x) == (if x < 0 then Pow2(f.sig + f.exp) else 0) + (e + Pow2(f.exp - 1) - 1) * Pow2(f.sig) + m - Pow2(f.sig)
    ensures d <= f.sig ==> e == d && m == a * Pow2(f.sig - d)
    ensures d > f.sig ==> d <= e <= d + 1 && m * Pow2(e - f.sig) == q * Pow2(d - f.sig)
    ensures d > f.sig ==> Pow2(d - f.sig) * (2 * q - 1) <= 2 * a <= Pow2(d - f.sig) * (2 * q + 1)
    ensures d > f.sig && q % 2 == 1 ==> Pow2(d - f.sig) * (2 * q - 1) < 2 * a < Pow2(d - f.sig) * (2 * q + 1)
  {
    DigitBounds(a);
    OneLength(a, Digits(a) - 1, d);
    if d <= f.sig {
      FloatShort(f, a);
      e, m, q := d, Shl(a, f.sig - d), 0;
      ShlMul(a, f.sig - d);
    } else {
      e, m, q := LongFigures(f, a, d, Pow2(d - f.sig));
    }
    SignedAssembled(f, x, e, m);
    ShlMul(e + Bias(f), f.sig);
  }

  lemma LongFigures(f: Format, a: nat, d: nat, p: nat) returns (e: nat, m: nat, q: nat)
    requires Holds(f, a) && f.sig < d == Digits(a) - 1 && p == Pow2(d - f.sig)
    ensures MadeOf(f, FloatUnsigned(f, a), e, m) && d <= e <= d + 1 && m * Pow2(e - f.sig) == q * p
    ensures p * (2 * q - 1) <= 2 * a <= p * (2 * q + 1)
    ensures q % 2 == 1 ==> p * (2 * q - 1) < 2 * a < p * (2 * q + 1)
  {
    FloatLong(f, a);
    q := NearestEven(a, d - f.sig);
    NearestFigures(a, d - f.sig, p, q);
    NearestRange(f, a);
    if q == Pow2(f.sig + 1) {
      e, m := d + 1, Pow2(f.sig);
      SamePlace(m, d - f.sig);
    } else {
      e, m := d, q;
    }
  }

  lemma SamePlace(p: nat, k: nat)
    ensures p * Pow2(k + 1) == 2 * p * Pow2(k)
  {
    assert Pow2(k + 1) == 2 * Pow2(k);
  }

  lemma OneLength(a: nat, d: nat, d': nat)
    requires Pow2(d) <= a < Pow2(d + 1) && Pow2(d') <= a < Pow2(d' + 1)
    ensures d == d'
  {
    if d < d' {
      Pow2Le(d + 1, d');
    } else if d' < d {
      Pow2Le(d' + 1, d);
    }
  }

  lemma NearestFigures(a: nat, k: nat, p: nat, q: nat)
    requires k > 0 && p == Pow2(k) && q == NearestEven(a, k)
    ensures p * (2 * q - 1) <= 2 * a <= p * (2 * q + 1)
    ensures q % 2 == 1 ==> p * (2 * q - 1) < 2 * a < p * (2 * q + 1)
  {
    var half, m, r := NearestParts(a, k, p, q);
    HalfWay(a, p, half, m, r, q);
  }

  lemma NearestParts(a: nat, k: nat, p: nat, q: nat) returns (half: nat, m: nat, r: nat)
    requires k > 0 && p == Pow2(k) && q == NearestEven(a, k)
    ensures a == m * p + r && r < p && p == 2 * half
    ensures q == if r > half || (r == half && m % 2 == 1) then m + 1 else m
  {
    half, m, r := Pow2(k - 1), Shr(a, k), a % Pow2(k);
    SplitAt(a, k);
    ShlMul(m, k);
  }

  lemma HalfWay(a: nat, p: nat, half: nat, m: nat, r: nat, q: nat)
    requires a == m * p + r && r < p && p == 2 * half
    requires q == if r > half || (r == half && m % 2 == 1) then m + 1 else m
    ensures p * (2 * q - 1) <= 2 * a <= p * (2 * q + 1)
    ensures q % 2 == 1 ==> p * (2 * q - 1) < 2 * a < p * (2 * q + 1)
  {
    Spread(p, q);
    if q == m + 1 {
      assert q * p == m * p + p;
    }
  }

  lemma Spread(p: nat, q: nat)
    ensures p * (2 * q - 1) == 2 * (q * p) - p && p * (2 * q + 1) == 2 * (q * p) + p
  {
  }
}
