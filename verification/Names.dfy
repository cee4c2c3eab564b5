/** Account names: thirteen symbols packed into a 64-bit word, twelve of five
  * bits and a last one of four, the first symbol in the highest bits. */
module Names {
  import opened Bits

  const NAME_LIMIT: nat := 0x1_0000_0000_0000_0000
  const CHARMAP := ".12345abcdefghijklmnopqrstuvwxyz"

  datatype NameError = TooLong | InvalidCharacter(c: char) | InvalidThirteenth(c: char)
  datatype Result<T> = Ok(value: T) | Err(error: NameError)

  // ----------------------------------------------------- digits of a name word

  /** Number of values of symbol i. */
  function Base(i: nat): nat {
    if i == 12 then 16 else 32
  }

  /** Number of bits below symbol i in the packed word. */
  function Place(i: nat): nat
    requires i <= 12
  {
    if i == 12 then 0 else 59 - 5 * i
  }

  function Width(i: nat): nat {
    if i == 12 then 4 else 5
  }

  predicate IsDigits(ds: seq<nat>) {
    |ds| == 13 && forall i :: 0 <= i < 13 ==> ds[i] < Base(i)
  }

  /** The word of the first k symbols alone, the last of them in the lowest bits. */
  function Horner(ds: seq<nat>, k: nat): nat
    requires k <= |ds|
  {
    if k == 0 then 0 else Horner(ds, k - 1) * Base(k - 1) + ds[k - 1]
  }

  function Pack(ds: seq<nat>): nat
    requires |ds| == 13
  {
    Horner(ds, 13)
  }

  function Digit(v: nat, i: nat): nat
    requires i <= 12
  {
    Shr(v, Place(i)) % Base(i)
  }

  function Digits(v: nat): (ds: seq<nat>)
    ensures IsDigits(ds)
  {
    seq(13, i requires 0 <= i < 13 => Digit(v, i))
  }

  lemma BaseIsPow2(i: nat)
    ensures Base(i) == Pow2(Width(i))
  {
    assert Pow2(4) == 16 && Pow2(5) == 32;
  }

  lemma ShiftOfBase(x: nat, i: nat)
    ensures Shr(x, Width(i)) == x / Base(i) && Shl(x, Width(i)) == x * Base(i)
    ensures x / Base(i) * Base(i) + x % Base(i) == x
  {
    BaseIsPow2(i);
    ShrDiv(x, Width(i));
    ShlMul(x, Width(i));
  }

  lemma HornerStep(ds: seq<nat>, k: nat, x: nat)
    requires 0 < k <= |ds| && ds[k - 1] == x % Base(k - 1) && Horner(ds, k - 1) == Shr(x, Width(k - 1))
    ensures Horner(ds, k) == x
  {
    ShiftOfBase(x, k - 1);
  }

  lemma NothingAbove(v: nat, k: nat, b: nat, total: nat)
    requires total == k + b && v < Pow2(total)
    ensures Shr(Shr(v, k), b) == 0
  {
    ShrShr(v, k, b);
    ShrBound(v, total, 0);
  }

  /** The leading symbols of a word are the word shifted right. */
  lemma {:induction false} HornerOfDigits(v: nat, k: nat)
    requires v < Pow2(64) && 0 < k <= 13
    ensures Horner(Digits(v), k) == Shr(v, Place(k - 1))
  {
    var x := Shr(v, Place(k - 1));
    if k == 1 {
      NothingAbove(v, Place(0), Width(0), 64);
    } else {
      HornerOfDigits(v, k - 1);
      ShrShr(v, Place(k - 1), Width(k - 1));
    }
    HornerStep(Digits(v), k, x);
  }

  /** Unpacking and packing again gives back every 64-bit word. */
  lemma PackDigits(v: nat)
    requires v < NAME_LIMIT
    ensures Pack(Digits(v)) == v
  {
    Pow2Of64();
    HornerOfDigits(v, 13);
  }

  /** Symbols from i on, each in its own slot of the word. */
  function Slots(ds: seq<nat>, i: nat): nat
    requires |ds| == 13 && i <= 13
    decreases 13 - i
  {
    if i == 13 then 0 else Shl(ds[i], Place(i)) + Slots(ds, i + 1)
  }

  /** Number of bits the symbols from i on take. */
  function BitsFrom(i: nat): nat
    requires i <= 13
  {
    if i == 13 then 0 else Place(i) + Width(i)
  }

  lemma {:induction false} SlotsBound(ds: seq<nat>, i: nat)
    requires IsDigits(ds) && i <= 13
    ensures Slots(ds, i) < Pow2(BitsFrom(i))
    decreases 13 - i
  {
    if i < 13 {
      SlotsBound(ds, i + 1);
      BaseIsPow2(i);
      ShlBound(ds[i], Place(i), Width(i), Slots(ds, i + 1));
    }
  }

  lemma {:induction false} SlotsBelow(ds: seq<nat>, k: nat)
    requires |ds| == 13 && 0 < k <= 13
    ensures Shl(Horner(ds, k), Place(k - 1)) + Slots(ds, k) == Pack(ds)
    decreases 13 - k
  {
    if k < 13 {
      SlotsBelow(ds, k + 1);
      var h := Horner(ds, k);
      ShiftOfBase(h, k);
      ShlAdd(Shl(h, Width(k)), ds[k], Place(k));
      ShlShl(h, Width(k), Place(k));
    }
  }

  lemma SlotsArePack(ds: seq<nat>, first: nat)
    requires |ds| == 13 && first == 0
    ensures Slots(ds, first) == Pack(ds)
  {
    SlotsBelow(ds, first + 1);
    assert Horner(ds, first + 1) == ds[first];
  }

  lemma PackBound(ds: seq<nat>)
    requires IsDigits(ds)
    ensures Pack(ds) < NAME_LIMIT
  {
    Pow2Of64();
    SlotsBound(ds, 0);
    SlotsArePack(ds, 0);
  }

  lemma {:induction false} HornerInjective(ds: seq<nat>, es: seq<nat>, k: nat)
    requires IsDigits(ds) && IsDigits(es) && k <= 13
    requires Horner(ds, k) == Horner(es, k)
    ensures ds[..k] == es[..k]
  {
    if k > 0 {
      OneQuotient(Base(k - 1), Horner(ds, k - 1), ds[k - 1], Horner(es, k - 1), es[k - 1]);
      HornerInjective(ds, es, k - 1);
      assert ds[..k] == ds[..k - 1] + [ds[k - 1]] && es[..k] == es[..k - 1] + [es[k - 1]];
    }
  }

  /** Packing and unpacking again gives back every list of symbols. */
  lemma DigitsPack(ds: seq<nat>)
    requires IsDigits(ds)
    ensures Digits(Pack(ds)) == ds
  {
    PackBound(ds);
    PackDigits(Pack(ds));
    HornerInjective(Digits(Pack(ds)), ds, 13);
    assert Digits(Pack(ds))[..13] == Digits(Pack(ds)) && ds[..13] == ds;
  }

  /** The word order is the order of the first differing symbol. */
  lemma {:induction false} HornerLess(ds: seq<nat>, es: seq<nat>, i: nat, k: nat)
    requires IsDigits(ds) && IsDigits(es) && i < k <= 13
    requires ds[..i] == es[..i] && ds[i] < es[i]
    ensures Horner(ds, k) < Horner(es, k)
    decreases k
  {
    if k == i + 1 {
      HornerEqual(ds, es, i);
    } else {
      HornerLess(ds, es, i, k - 1);
      var h, g, b := Horner(ds, k - 1), Horner(es, k - 1), Base(k - 1);
      MulLe(h + 1, g, b);
    }
  }

  lemma {:induction false} HornerEqual(ds: seq<nat>, es: seq<nat>, k: nat)
    requires k <= |ds| && k <= |es| && ds[..k] == es[..k]
    ensures Horner(ds, k) == Horner(es, k)
  {
    if k > 0 {
      assert ds[..k - 1] == ds[..k][..k - 1] && es[..k - 1] == es[..k][..k - 1];
      assert ds[k - 1] == ds[..k][k - 1] && es[k - 1] == es[..k][k - 1];
      HornerEqual(ds, es, k - 1);
    }
  }

  // -------------------------------------------------------------- characters

  predicate ValidChar(c: char) {
    'a' <= c <= 'z' || '1' <= c <= '5' || c == '.'
  }

  function Symbol(c: char): (s: nat)
    requires ValidChar(c)
    ensures s < 32
  {
    if 'a' <= c <= 'z' then (c as int - 'a' as int) + 6
    else if '1' <= c <= '5' then (c as int - '1' as int) + 1
    else 0
  }

  function CharToSymbol(c: char): (r: Result<nat>)
    ensures r == if ValidChar(c) then Ok(Symbol(c)) else Err(InvalidCharacter(c))
  {
    if 'a' <= c <= 'z' then Ok((c as int - 'a' as int) + 6)
    else if '1' <= c <= '5' then Ok((c as int - '1' as int) + 1)
    else if c == '.' then Ok(0)
    else Err(InvalidCharacter(c))
  }

  lemma CharmapSymbols(d: nat)
    requires d < 32
    ensures ValidChar(CHARMAP[d]) && Symbol(CHARMAP[d]) == d
  {
  }

  lemma SymbolChars(c: char)
    requires ValidChar(c)
    ensures CHARMAP[Symbol(c)] == c
  {
    CharmapSymbols(Symbol(c));
  }

  // ------------------------------------------------------------------ strings

  predicate ValidName(s: string) {
    && |s| <= 13
    && (forall i :: 0 <= i < |s| ==> ValidChar(s[i]))
    && (|s| == 13 ==> Symbol(s[12]) < 16)
  }

  /** Symbol i of a string: positions past its end read as dots. */
  function Sym(s: string, i: nat): (d: nat)
    ensures d < Base(i)
  {
    if i < |s| && ValidChar(s[i]) && Symbol(s[i]) < Base(i) then Symbol(s[i]) else 0
  }

  function Syms(s: string): (ds: seq<nat>)
    ensures IsDigits(ds)
  {
    seq(13, i requires 0 <= i < 13 => Sym(s, i))
  }

  /** The word a string denotes. */
  function Value(s: string): (v: nat)
    ensures v < NAME_LIMIT
  {
    PackBound(Syms(s));
    Pack(Syms(s))
  }

  function TrimDots(s: string): string {
    if |s| > 0 && s[|s| - 1] == '.' then TrimDots(s[..|s| - 1]) else s
  }

  function Chars(v: nat): (cs: string)
    ensures |cs| == 13
  {
    seq(13, i requires 0 <= i < 13 => assert Digit(v, i) == Digits(v)[i]; CHARMAP[Digit(v, i)])
  }

  /** The text a word denotes. */
  function Text(v: nat): string {
    TrimDots(Chars(v))
  }

  method StringToUint64(str: string) returns (r: Result<nat>)
    ensures r.Ok? <==> ValidName(str)
    ensures r.Ok? <==>
              && |str| <= 13 && (|str| == 13 ==> str[12] <= 'j')
              && (forall i :: 0 <= i < |str| ==> str[i] == '.' || '1' <= str[i] <= '5' || 'a' <= str[i] <= 'z')
    ensures r.Ok? ==> r.value == Value(str)
    ensures r == Err(TooLong) <==> |str| > 13
  {
    if |str| > 13 {
      return Err(TooLong);
    }
    var n := 0;
    var i := |str|;
    if i >= 13 {
      i := 12;
      var last := CharToSymbol(str[12]);
      if last.Err? {
        return Err(last.error);
      }
      n := last.value;
      if n > 0x0F {
        return Err(InvalidThirteenth(str[12]));
      }
    }
    SlotsStart(str, i);
    ValidSplit(str, i);
    r := EncodeFullRange(str, i, n);
    SlotsArePack(Syms(str), 0);
  }

  /** The thirteenth character is looked at apart. */
  lemma ValidSplit(str: string, i: nat)
    requires |str| <= 13 && i == if |str| == 13 then 12 else |str|
    requires |str| == 13 ==> ValidChar(str[12]) && Symbol(str[12]) < 16
    ensures ValidName(str) <==> forall j :: 0 <= j < i ==> ValidChar(str[j])
  {
  }

  /** Places characters i - 1 down to 0 above the ones already in n. */
  method EncodeFullRange(str: string, i: nat, n: nat) returns (r: Result<nat>)
    requires i <= 12 && i <= |str| && n == Slots(Syms(str), i)
    ensures r.Ok? <==> forall j :: 0 <= j < i ==> ValidChar(str[j])
    ensures if r.Ok? then r.value == Slots(Syms(str), 0) else r.error.InvalidCharacter?
  {
    var word := n;
    var k := i;
    while k > 0
      invariant 0 <= k <= i
      invariant forall j :: k <= j < i ==> ValidChar(str[j])
      invariant word == Slots(Syms(str), k)
    {
      k := k - 1;
      var symbol := CharToSymbol(str[k]);
      if symbol.Err? {
        return Err(symbol.error);
      }
      assert ValidChar(str[k]);
      word := PlaceSymbol(str, k, word, symbol.value);
    }
    assert k == 0;
    r := Ok(word);
  }

  method PlaceSymbol(str: string, k: nat, n: nat, symbol: nat) returns (word: nat)
    requires k < 12 && k < |str| && CharToSymbol(str[k]) == Ok(symbol) && n == Slots(Syms(str), k + 1)
    ensures word == Slots(Syms(str), k)
  {
    var place := 64 - 5 * (k + 1);
    SlotStep(Syms(str), k, place, n);
    word := Or(n, Shl(symbol, place));
  }

  lemma SlotStep(ds: seq<nat>, i: nat, place: nat, n: nat)
    requires IsDigits(ds) && i < 12 && place == Place(i) && n == Slots(ds, i + 1)
    ensures Or(n, Shl(ds[i], place)) == Slots(ds, i)
  {
    SlotsBound(ds, i + 1);
    OrDisjoint(ds[i], n, place);
    OrCommutes(n, Shl(ds[i], place));
  }

  lemma {:induction false} SlotsZero(ds: seq<nat>, i: nat)
    requires |ds| == 13 && i <= 13 && forall j :: i <= j < 13 ==> ds[j] == 0
    ensures Slots(ds, i) == 0
    decreases 13 - i
  {
    if i < 13 {
      SlotsZero(ds, i + 1);
      ShlZero(Place(i));
    }
  }

  lemma SlotsStart(str: string, i: nat)
    requires i == if |str| >= 13 then 12 else |str|
    ensures Slots(Syms(str), i) == if |str| >= 13 then Sym(str, 12) else 0
  {
    var ds := Syms(str);
    if |str| < 13 {
      SlotsZero(ds, i);
    } else {
      SlotsZero(ds, i + 1);
    }
  }

  method ToString(value: nat) returns (str: string)
    requires value < NAME_LIMIT
    ensures str == Text(value)
  {
    str := seq(13, _ => '.');
    var tmp := value;
    var i := 0;
    while i <= 12
      invariant 0 <= i <= 13 && |str| == 13
      invariant i <= 12 ==> tmp == Shr(value, Place(12 - i))
      invariant forall j :: 12 - i < j < 13 ==> str[j] == Chars(value)[j]
    {
      var mask, shift := if i == 0 then 0x0F else 0x1F, if i == 0 then 4 else 5;
      MaskDigit(tmp, i);
      assert Digit(value, 12 - i) == Digits(value)[12 - i];
      var c := CHARMAP[And(tmp, mask)];
      str := str[12 - i := c];
      if i < 12 {
        ShrShr(value, Place(12 - i), Width(12 - i));
      }
      tmp := Shr(tmp, shift);
      i := i + 1;
    }
    assert str == Chars(value);
    while |str| > 0 && str[|str| - 1] == '.'
      invariant TrimDots(str) == Text(value)
    {
      str := str[..|str| - 1];
    }
  }

  lemma MaskDigit(tmp: nat, i: nat)
    requires i <= 12
    ensures And(tmp, if i == 0 then 0x0F else 0x1F) == tmp % Base(12 - i)
  {
    assert Pow2(4) == 16 && Pow2(5) == 32;
    AndMask(tmp, if i == 0 then 4 else 5);
  }

  method IsStringValidName(str: string) returns (valid: bool)
    ensures valid == ValidName(str)
  {
    if |str| > 13 {
      return false;
    }
    var len := if |str| <= 12 then |str| else 12;
    for i := 0 to len
      invariant forall j :: 0 <= j < i ==> ValidChar(str[j])
    {
      var c := str[i];
      if !('a' <= c <= 'z' || '1' <= c <= '5' || c == '.') {
        return false;
      }
    }
    if |str| == 13 {
      var c := str[12];
      return 'a' <= c <= 'j' || '1' <= c <= '5' || c == '.';
    }
    return true;
  }

  // -------------------------------------------------------------- round trips

  lemma {:induction false} TrimShape(s: string)
    ensures |TrimDots(s)| <= |s| && TrimDots(s) == s[..|TrimDots(s)|]
    ensures forall j :: |TrimDots(s)| <= j < |s| ==> s[j] == '.'
    ensures TrimDots(s) != [] ==> TrimDots(s)[|TrimDots(s)| - 1] != '.'
  {
    if |s| > 0 && s[|s| - 1] == '.' {
      TrimShape(s[..|s| - 1]);
    }
  }

  /** Trailing dots do not change the word. */
  lemma TrimKeepsSyms(s: string)
    ensures Syms(TrimDots(s)) == Syms(s)
  {
    TrimShape(s);
  }

  lemma CharsSyms(v: nat)
    ensures ValidName(Chars(v)) && Syms(Chars(v)) == Digits(v)
  {
    forall i | 0 <= i < 13
      ensures ValidChar(Chars(v)[i]) && Symbol(Chars(v)[i]) == Digits(v)[i]
    {
      CharmapSymbols(Digits(v)[i]);
    }
    assert Base(12) == 16;
  }

  /** Printing a word and parsing the text gives the word back. */
  lemma WordRoundTrip(v: nat)
    requires v < NAME_LIMIT
    ensures ValidName(Text(v)) && Value(Text(v)) == v
  {
    CharsSyms(v);
    TrimKeepsSyms(Chars(v));
    TrimShape(Chars(v));
    PackDigits(v);
  }

  lemma {:induction false} TrimAppended(s: string, dots: string)
    requires forall j :: 0 <= j < |dots| ==> dots[j] == '.'
    ensures TrimDots(s + dots) == TrimDots(s)
    decreases |dots|
  {
    if dots == [] {
      assert s + dots == s;
    } else {
      var shorter := dots[..|dots| - 1];
      assert (s + dots)[..|s + dots| - 1] == s + shorter;
      TrimAppended(s, shorter);
    }
  }

  /** Parsing a valid string and printing the word drops trailing dots only. */
  lemma TextRoundTrip(s: string)
    requires ValidName(s)
    ensures Text(Value(s)) == TrimDots(s)
  {
    DigitsPack(Syms(s));
    var cs := Chars(Value(s));
    forall i | 0 <= i < 13
      ensures cs[i] == if i < |s| then s[i] else '.'
    {
      assert Digits(Value(s))[i] == Sym(s, i);
      if i < |s| {
        SymbolChars(s[i]);
      }
    }
    assert cs == s + cs[|s|..];
    TrimAppended(s, cs[|s|..]);
  }

  // -------------------------------------------------------------------- order

  predicate LexLess(s: string, t: string) {
    |t| > 0 && (|s| == 0 || s[0] < t[0] || (s[0] == t[0] && LexLess(s[1..], t[1..])))
  }

  predicate NoTrailingDot(s: string) {
    |s| > 0 ==> s[|s| - 1] != '.'
  }

  lemma {:induction false} LexWitness(s: string, t: string) returns (i: nat)
    requires LexLess(s, t)
    ensures i <= |s| && i < |t| && s[..i] == t[..i]
    ensures i < |s| ==> s[i] < t[i]
  {
    if |s| == 0 || s[0] < t[0] {
      i := 0;
    } else {
      var j := LexWitness(s[1..], t[1..]);
      i := j + 1;
      assert s[..i] == [s[0]] + s[1..][..j] && t[..i] == [t[0]] + t[1..][..j];
    }
  }

  lemma {:induction false} LexTrichotomy(s: string, t: string)
    ensures s == t || LexLess(s, t) || LexLess(t, s)
  {
    if |s| > 0 && |t| > 0 && s[0] == t[0] {
      LexTrichotomy(s[1..], t[1..]);
      assert s == [s[0]] + s[1..] && t == [t[0]] + t[1..];
    }
  }

  lemma LexImpliesValue(s: string, t: string)
    requires ValidName(s) && ValidName(t) && NoTrailingDot(s) && NoTrailingDot(t)
    requires LexLess(s, t)
    ensures Value(s) < Value(t)
  {
    var i := LexWitness(s, t);
    var ds, es := Syms(s), Syms(t);
    if i < |s| {
      SamePrefix(s, t, i);
      HornerLess(ds, es, i, 13);
    } else {
      // s is a proper prefix of t: compare at the first symbol of t that is not a dot
      var k := i;
      while t[k] == '.'
        invariant i <= k < |t| && forall j :: i <= j < k ==> t[j] == '.'
        decreases |t| - k
      {
        k := k + 1;
      }
      assert ds[..k] == es[..k] by {
        forall j | 0 <= j < k ensures ds[j] == es[j] {
          if j < i {
            assert s[..i][j] == t[..i][j];
          }
        }
      }
      HornerLess(ds, es, k, 13);
    }
  }

  lemma SamePrefix(s: string, t: string, i: nat)
    requires i <= |s| && i <= |t| && i <= 13 && s[..i] == t[..i]
    ensures Syms(s)[..i] == Syms(t)[..i]
  {
    forall j | 0 <= j < i ensures Syms(s)[j] == Syms(t)[j] {
      assert s[..i][j] == t[..i][j];
    }
  }

  /** On strings without trailing dots the word order is the alphabetic order. */
  lemma OrderAgrees(s: string, t: string)
    requires ValidName(s) && ValidName(t) && NoTrailingDot(s) && NoTrailingDot(t)
    ensures LexLess(s, t) <==> Value(s) < Value(t)
  {
    LexTrichotomy(s, t);
    if LexLess(s, t) {
      LexImpliesValue(s, t);
    } else if LexLess(t, s) {
      LexImpliesValue(t, s);
    }
  }

  // --------------------------------------------------------------------- in plain figures

  /** The word in figures. A dot is 0, the digits 1 to 5 are themselves, the letters follow
    * from 6 on, and a missing character is 0. The first stands in the highest five bits, and
    * so on down; the thirteenth has the lowest four. */
  lemma WordLayout(s: string, d: seq<nat>)
    requires ValidName(s) && |d| == 13
    requires forall i :: |s| <= i < 13 ==> d[i] == 0
    requires forall i :: 0 <= i < |s| ==>
                           d[i] == if s[i] == '.' then 0 else if s[i] <= '5' then s[i] as int - '0' as int
                                   else s[i] as int - 'a' as int + 6
    ensures Value(s) ==
              d[0] * 0x800_0000_0000_0000 + d[1] * 0x40_0000_0000_0000 + d[2] * 0x2_0000_0000_0000 + d[3] * 0x1000_0000_0000 +
              d[4] * 0x80_0000_0000 + d[5] * 0x4_0000_0000 + d[6] * 0x2000_0000 + d[7] * 0x100_0000 +
              d[8] * 0x8_0000 + d[9] * 0x4000 + d[10] * 0x200 + d[11] * 0x10 +
              d[12]
  {
    assert d == Syms(s);
    HornerOfTwelve(d);
  }

  lemma HornerOfTwelve(d: seq<nat>)
    requires |d| == 13
    ensures Pack(d) ==
              d[0] * 0x800_0000_0000_0000 + d[1] * 0x40_0000_0000_0000 + d[2] * 0x2_0000_0000_0000 + d[3] * 0x1000_0000_0000 +
              d[4] * 0x80_0000_0000 + d[5] * 0x4_0000_0000 + d[6] * 0x2000_0000 + d[7] * 0x100_0000 +
              d[8] * 0x8_0000 + d[9] * 0x4000 + d[10] * 0x200 + d[11] * 0x10 +
              d[12]
  {
    assert Horner(d, 0) == 0;
    assert Horner(d, 1) == Horner(d, 0) * 32 + d[0];
    assert Horner(d, 2) == Horner(d, 1) * 32 + d[1];
    assert Horner(d, 3) == Horner(d, 2) * 32 + d[2];
    assert Horner(d, 4) == Horner(d, 3) * 32 + d[3];
    assert Horner(d, 5) == Horner(d, 4) * 32 + d[4];
    assert Horner(d, 6) == Horner(d, 5) * 32 + d[5];
    assert Horner(d, 7) == Horner(d, 6) * 32 + d[6];
    assert Horner(d, 8) == Horner(d, 7) * 32 + d[7];
    assert Horner(d, 9) == Horner(d, 8) * 32 + d[8];
    assert Horner(d, 10) == Horner(d, 9) * 32 + d[9];
    assert Horner(d, 11) == Horner(d, 10) * 32 + d[10];
    assert Horner(d, 12) == Horner(d, 11) * 32 + d[11];
    assert Horner(d, 13) == Horner(d, 12) * 16 + d[12];
  }
}
