/** Widening a pattern to a larger format, and comparing converted values. */
module FloatWiden {
  import opened Bits
  import opened FixInt

  // --------------------------------------------------------- assembling a pattern

  function Assemble(f: Format, neg: bool, biased: nat, fraction: nat): nat {
    (if neg then Pow2(f.sig + f.exp) else 0) + Shl(biased, f.sig) + fraction
  }

  lemma AssembleFields(f: Format, neg: bool, biased: nat, fraction: nat)
    requires biased < Pow2(f.exp) && fraction < Pow2(f.sig)
    ensures var a := Assemble(f, neg, biased, fraction);
            && Pattern(f, a) && Negative(f, a) == neg && Biased(f, a) == biased && Fraction(f, a) == fraction
  {
    var a, abs, top := Assemble(f, neg, biased, fraction), Shl(biased, f.sig) + fraction, f.sig + f.exp;
    ShlBound(biased, f.sig, f.exp, fraction);
    TopBitSet(a, top);
    ShrOfShl(biased, f.sig, fraction);
    ModMod(a, f.sig, top);
  }

  // ------------------------------------------------------------------- widening

  /** Position of the leading bit. */
  function LeadingBit(x: nat): (p: nat)
    requires x > 0
    ensures Pow2(p) <= x < Pow2(p + 1)
  {
    if x == 1 then 0 else 1 + LeadingBit(x / 2)
  }

  /** Every value of the smaller format has a normal pattern in the larger one. */
  predicate Roomy(f: Format, g: Format) {
    && 2 <= f.exp < g.exp && f.sig < g.sig && Bias(f) + f.sig < Bias(g)
  }

  /** The pattern of the same value in the larger format; a not-a-number pattern
    * keeps its sign and its fraction bits. */
  function Widen(f: Format, g: Format, a: nat): nat
    requires Roomy(f, g)
  {
    var neg, e, m := Negative(f, a), Biased(f, a), Fraction(f, a);
    if e == 0 && m == 0 then Assemble(g, neg, 0, 0)
    else if e == 0 then
      var p := LeadingBit(m);
      ShortFraction(f, g, a);
      Assemble(g, neg, p + 1 + Bias(g) - Bias(f) - f.sig, Shl(m - Pow2(p), g.sig - p))
    else if e == Pow2(f.exp) - 1 then Assemble(g, neg, Pow2(g.exp) - 1, Shl(m, g.sig - f.sig))
    else Assemble(g, neg, e + Bias(g) - Bias(f), Shl(m, g.sig - f.sig))
  }

  lemma ShortFraction(f: Format, g: Format, a: nat)
    requires Roomy(f, g) && Fraction(f, a) > 0
    ensures LeadingBit(Fraction(f, a)) < f.sig
  {
    var p := LeadingBit(Fraction(f, a));
    if p >= f.sig {
      Pow2Le(f.sig, p);
    }
  }

  lemma BiasedBound(f: Format, a: nat)
    ensures Biased(f, a) < Pow2(f.exp)
  {
    ShrBound(a % Pow2(f.sig + f.exp), f.sig, f.exp);
  }

  /** How the fields of a pattern and its widening are related. */
  predicate Widened(f: Format, g: Format, a: nat, b: nat)
    requires Roomy(f, g)
  {
    && Pattern(g, b) && Negative(g, b) == Negative(f, a)
    && if Biased(f, a) > 0 then
         && (Exponent(g, b) == Exponent(f, a) || (Exponent(g, b) >= Exponent(f, a) == Bias(f) + 1))
         && Significand(g, b) == Shl(Significand(f, a), g.sig - f.sig)
       else
         Exponent(g, b) < 0
  }

  /** The fields of a widened normal number or not-a-number pattern. */
  lemma WidenedNormal(f: Format, g: Format, a: nat)
    requires Roomy(f, g) && Biased(f, a) > 0
    ensures var b := Widen(f, g, a);
            && Pattern(g, b) && Negative(g, b) == Negative(f, a) && Biased(g, b) > 0
            && (Biased(f, a) < Pow2(f.exp) - 1 ==> Exponent(g, b) == Exponent(f, a))
            && (Biased(f, a) == Pow2(f.exp) - 1 ==> Exponent(f, a) == Bias(f) + 1 && Exponent(g, b) == Bias(g) + 1)
            && Significand(g, b) == Shl(Significand(f, a), g.sig - f.sig)
    ensures Widened(f, g, a, Widen(f, g, a))
  {
    var e, m, d := Biased(f, a), Fraction(f, a), g.sig - f.sig;
    BiasedBound(f, a);
    ShlBound(m, d, f.sig, 0);
    Pow2Less(f.exp - 1, g.exp - 1);
    var e' := if e == Pow2(f.exp) - 1 then Pow2(g.exp) - 1 else e + Bias(g) - Bias(f);
    AssembleFields(g, Negative(f, a), e', Shl(m, d));
    ShlAdd(Pow2(f.sig), m, d);
    ShlPow2(f.sig, d);
  }

  lemma WidenedSubnormal(f: Format, g: Format, a: nat)
    requires Roomy(f, g) && Biased(f, a) == 0 && Fraction(f, a) > 0
    ensures var b, p := Widen(f, g, a), LeadingBit(Fraction(f, a));
            && p < f.sig && Pattern(g, b) && Negative(g, b) == Negative(f, a) && Biased(g, b) > 0
            && Exponent(g, b) == p + 1 - Bias(f) - f.sig < 0
            && Significand(g, b) == Shl(Fraction(f, a), g.sig - p)
    ensures Widened(f, g, a, Widen(f, g, a))
  {
    var m, p := Fraction(f, a), LeadingBit(Fraction(f, a));
    ShortFraction(f, g, a);
    PositiveBias(f);
    ShlBound(m - Pow2(p), g.sig - p, p, 0);
    Pow2Le(g.exp - 1, g.exp);
    AssembleFields(g, Negative(f, a), p + 1 + Bias(g) - Bias(f) - f.sig, Shl(m - Pow2(p), g.sig - p));
    ShlAdd(Pow2(p), m - Pow2(p), g.sig - p);
    ShlPow2(p, g.sig - p);
  }

  lemma WidenedZero(f: Format, g: Format, a: nat)
    requires Roomy(f, g) && Biased(f, a) == 0 && Fraction(f, a) == 0
    ensures var b := Widen(f, g, a); Pattern(g, b) && Negative(g, b) == Negative(f, a) && Biased(g, b) == 0 && Fraction(g, b) == 0
    ensures Widened(f, g, a, Widen(f, g, a))
  {
    PositiveBias(f);
    AssembleFields(g, Negative(f, a), 0, 0);
  }

  // ----------------------------------------------------- the conversions agree

  lemma ShrShl(s: nat, d: nat, n: nat)
    ensures Shr(Shl(s, d), d + n) == Shr(s, n)
  {
    ShrShr(Shl(s, d), d, n);
    ShrOfShl(s, d, 0);
  }

  lemma ShrPart(s: nat, j: nat, n: nat)
    ensures Shr(Shl(s, j + n), n) == Shl(s, j)
  {
    ShlShl(s, j, n);
    ShrOfShl(Shl(s, j), n, 0);
  }

  /** More fraction bits change nothing. */
  lemma SameShift(sig: nat, sig': nat, width: nat, neg: bool, e: int, s: nat)
    requires sig < sig' && sig' + 2 <= width && Pow2(sig) <= s < Pow2(sig + 1)
    ensures ByFields(sig, width, neg, e, s) == ByFields(sig', width, neg, e, Shl(s, sig' - sig))
  {
    if 0 <= e < sig {
      ShrShl(s, sig' - sig, sig - e);
    } else if sig' <= e < width {
      ShlShl(s, sig' - sig, e - sig');
    } else if sig <= e < sig' {
      BetweenShifts(sig, sig', width, neg, e, s);
    }
  }

  lemma BetweenShifts(sig: nat, sig': nat, width: nat, neg: bool, e: nat, s: nat)
    requires sig <= e < sig' && sig' + 2 <= width && Pow2(sig) <= s < Pow2(sig + 1)
    ensures ByFields(sig, width, neg, e, s) == Signed(neg, Shr(Shl(s, sig' - sig), sig' - e))
  {
    ShrPart(s, e - sig, sig' - e);
    ShlBound(s, e - sig, sig + 1, 0);
    Pow2Le(e + 1, width - 1);
    WrapBoth(Shl(s, e - sig), width);
  }

  lemma WrapBoth(m: nat, width: nat)
    requires width >= 1 && m < Pow2(width - 1)
    ensures Wrap(m, width) == m && Wrap(0 - m, width) == 0 - m
  {
    WrapInside(m, width);
    WrapInside(0 - m, width);
  }

  lemma WidenIsWidened(f: Format, g: Format, a: nat)
    requires Roomy(f, g)
    ensures Widened(f, g, a, Widen(f, g, a))
  {
    if Biased(f, a) > 0 {
      WidenedNormal(f, g, a);
    } else if Fraction(f, a) > 0 {
      WidenedSubnormal(f, g, a);
    } else {
      WidenedZero(f, g, a);
    }
  }

  lemma SameFields(f: Format, g: Format, width: nat, a: nat, b: nat)
    requires Roomy(f, g) && Wide(f, width) && Wide(g, width) && Bias(f) + 1 >= width && Widened(f, g, a, b)
    ensures ByFields(f.sig, width, Negative(f, a), Exponent(f, a), Significand(f, a)) ==
            ByFields(g.sig, width, Negative(g, b), Exponent(g, b), Significand(g, b))
  {
    PositiveBias(f);
    if Biased(f, a) > 0 {
      SameShift(f.sig, g.sig, width, Negative(f, a), Exponent(f, a), Significand(f, a));
    }
  }

  /** Converting from the smaller format is converting the widened pattern. */
  lemma FixOfWiden(f: Format, g: Format, width: nat, a: nat)
    requires Roomy(f, g) && Wide(f, width) && Wide(g, width) && Pattern(f, a) && Bias(f) + 1 >= width
    ensures Fix(f, width, a) == Fix(g, width, Widen(f, g, a))
  {
    var b := Widen(f, g, a);
    WidenIsWidened(f, g, a);
    SameFields(f, g, width, a, b);
    FixByFields(f, width, a);
    FixByFields(g, width, b);
  }

  // ----------------------------------------------------------------- same value

  predicate SameRatio(r: Ratio, q: Ratio) {
    r.num * q.den == q.num * r.den
  }

  predicate Finite(f: Format, a: nat) {
    Biased(f, a) < Pow2(f.exp) - 1
  }

  lemma ShlTimes(s: nat, j: nat, k: nat)
    ensures Shl(s, j) * Pow2(k) == Shl(s, j + k)
  {
    ShlShl(s, j, k);
    ShlMul(Shl(s, j), k);
  }

  /** A widened pattern stands for the same number. */
  lemma WidenExact(f: Format, g: Format, a: nat)
    requires Roomy(f, g) && Finite(f, a)
    ensures Negative(g, Widen(f, g, a)) == Negative(f, a)
    ensures SameRatio(Magnitude(f, a), Magnitude(g, Widen(f, g, a)))
  {
    if Biased(f, a) > 0 {
      WidenedNormal(f, g, a);
      NormalSame(f, g, a, Widen(f, g, a));
    } else if Fraction(f, a) > 0 {
      WidenedSubnormal(f, g, a);
      SubnormalSame(f, g, a, Widen(f, g, a), LeadingBit(Fraction(f, a)));
    } else {
      WidenedZero(f, g, a);
    }
  }

  lemma NormalSame(f: Format, g: Format, a: nat, b: nat)
    requires Roomy(f, g) && Biased(f, a) > 0 && Biased(g, b) > 0 && Exponent(g, b) == Exponent(f, a)
    requires Significand(g, b) == Shl(Significand(f, a), g.sig - f.sig)
    ensures SameRatio(Magnitude(f, a), Magnitude(g, b))
  {
    var e, s, d := Exponent(f, a), Significand(f, a), g.sig - f.sig;
    if e < f.sig {
      ShlTimes(s, 0, g.sig - e);
      ShlTimes(s, d, f.sig - e);
    } else if e < g.sig {
      ShlTimes(s, e - f.sig, g.sig - e);
    } else {
      ShlShl(s, d, e - g.sig);
    }
  }

  lemma SubnormalSame(f: Format, g: Format, a: nat, b: nat, p: nat)
    requires Roomy(f, g) && Biased(f, a) == 0 && Biased(g, b) > 0 && p < f.sig
    requires Exponent(g, b) == p + 1 - Bias(f) - f.sig < 0 && Significand(g, b) == Shl(Fraction(f, a), g.sig - p)
    ensures SameRatio(Magnitude(f, a), Magnitude(g, b))
  {
    var m := Fraction(f, a);
    PositiveBias(f);
    ShlTimes(m, 0, g.sig - Exponent(g, b));
    ShlTimes(m, g.sig - p, Bias(f) - 1 + f.sig);
  }

  // ------------------------------------------------------------------ monotonicity

  predicate RatioLe(r: Ratio, q: Ratio) {
    r.num * q.den <= q.num * r.den
  }

  /** One represented value is at most the other. */
  predicate ValueLe(f: Format, a: nat, b: nat)
    requires f.exp >= 2
  {
    var r, q := Magnitude(f, a), Magnitude(f, b);
    if Negative(f, a) then (Negative(f, b) ==> RatioLe(q, r))
    else if Negative(f, b) then r.num == 0 && q.num == 0
    else RatioLe(r, q)
  }

  lemma FloorMonotone(t: nat, r: Ratio, u: nat, q: Ratio)
    requires r.den > 0 && q.den > 0 && IsFloor(t, r) && IsFloor(u, q) && RatioLe(r, q)
    ensures t <= u
  {
    if t > u {
      var x, y := r.den, q.den;
      MulLe(u + 1, t, y);
      MulStrict(q.num, t * y, x);
      MulLe(t * x, r.num, y);
      MulSwap(t, x, y);
    }
  }

  lemma MulSwap(a: nat, b: nat, c: nat)
    ensures (a * b) * c == (a * c) * b
  {
  }

  lemma MulStrict(a: nat, b: nat, c: nat)
    requires a < b && c > 0
    ensures a * c < b * c
  {
  }

  lemma FloorOfZero(t: nat, r: Ratio)
    requires r.num == 0 && r.den > 0 && IsFloor(t, r)
    ensures t == 0
  {
    if t > 0 {
      MulAtLeast(r.den, t);
    }
  }

  /** Within range the conversion keeps the order of the values. */
  lemma FixMonotone(f: Format, width: nat, a: nat, b: nat)
    requires Wide(f, width) && Pattern(f, a) && Pattern(f, b)
    requires Exponent(f, a) < width - 1 && Exponent(f, b) < width - 1 && ValueLe(f, a, b)
    ensures Fix(f, width, a) <= Fix(f, width, b)
  {
    FixTruncates(f, width, a);
    FixTruncates(f, width, b);
    TruncatedOrder(f, a, b, Fix(f, width, a), Fix(f, width, b));
  }

  lemma TruncatedOrder(f: Format, a: nat, b: nat, x: int, y: int)
    requires f.exp >= 2 && Truncates(f, a, x) && Truncates(f, b, y) && ValueLe(f, a, b)
    ensures x <= y
  {
    var r, q := Magnitude(f, a), Magnitude(f, b);
    var t, u := if x < 0 then -x else x, if y < 0 then -y else y;
    if Negative(f, a) && Negative(f, b) {
      FloorMonotone(u, q, t, r);
    } else if !Negative(f, a) && Negative(f, b) {
      FloorOfZero(t, r);
      FloorOfZero(u, q);
    } else if !Negative(f, a) {
      FloorMonotone(t, r, u, q);
    }
  }

  // ------------------------------------------------------------ the two conversions

  const DOUBLE := Format(52, 11)
  const SINGLE := Format(23, 8)

  /** The binary32 conversion to 128 bits is the binary64 one of the same value. */
  lemma SingleByDouble(a: nat, width: nat)
    requires Pattern(SINGLE, a) && width == 128
    ensures Fix(SINGLE, width, a) == Fix(DOUBLE, width, Widen(SINGLE, DOUBLE, a))
  {
    Formats();
    FixOfWiden(SINGLE, DOUBLE, width, a);
  }

  lemma Formats()
    ensures Roomy(SINGLE, DOUBLE) && Bias(SINGLE) == 127 && Bias(DOUBLE) == 1023
  {
    Pow2Of8();
    assert Pow2(7) == 128;
    assert Pow2(10) == 1024;
  }

  /** The conversion in figures: a number of sign neg, exponent field biased and fraction
    * bits m, given by the pattern's number itself. */
  lemma FixInFigures(f: Format, width: nat, neg: bool, biased: nat, m: nat, a: nat, e: int)
    requires Wide(f, width) && biased < Pow2(f.exp) && m < Pow2(f.sig)
    requires a == (if neg then Pow2(f.sig + f.exp) else 0) + biased * Pow2(f.sig) + m
    requires e == biased - Pow2(f.exp - 1) + 1
    ensures e < 0 ==> Fix(f, width, a) == 0
    ensures 0 <= e < f.sig ==>
              Fix(f, width, a) == if neg then 0 - (Pow2(f.sig) + m) / Pow2(f.sig - e) else (Pow2(f.sig) + m) / Pow2(f.sig - e)
    ensures f.sig <= e < width - 1 ==>
              Fix(f, width, a) == if neg then 0 - (Pow2(f.sig) + m) * Pow2(e - f.sig) else (Pow2(f.sig) + m) * Pow2(e - f.sig)
    ensures e >= width ==> Fix(f, width, a) == if neg then 0 - Pow2(width - 1) else Pow2(width - 1) - 1
  {
    ShlMul(biased, f.sig);
    AssembleFields(f, neg, biased, m);
    FixByFields(f, width, a);
    if 0 <= e < f.sig {
      ShrDiv(Pow2(f.sig) + m, f.sig - e);
    } else if f.sig <= e < width - 1 {
      ShlMul(Pow2(f.sig) + m, e - f.sig);
      LeftShifted(f, a);
      Pow2Le(e + 1, width - 1);
      WrapInside((Pow2(f.sig) + m) * Pow2(e - f.sig), width);
      WrapInside(0 - (Pow2(f.sig) + m) * Pow2(e - f.sig), width);
    }
  }
}
