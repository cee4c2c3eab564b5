/** The suffix of an account name: what follows the last dot of its text. */
module NameSuffix {
  import opened Bits
  import opened Names

  // ------------------------------------------------------- the suffix of a text

  function LastDotIndex(s: string): (k: int)
    ensures -1 <= k < |s|
    ensures k >= 0 ==> s[k] == '.'
    ensures forall j :: k < j < |s| ==> s[j] != '.'
  {
    if |s| == 0 then -1
    else if s[|s| - 1] == '.' then |s| - 1
    else LastDotIndex(s[..|s| - 1])
  }

  function AfterLastDot(s: string): string {
    s[LastDotIndex(s) + 1..]
  }

  /** The word of the text after the last dot. */
  function Suffix(n: nat): nat {
    Value(AfterLastDot(Text(n)))
  }

  // ------------------------------------------------------- the suffix of symbols

  /** Position of the last dot among the first i symbols, or -1. */
  function LastZero(ds: seq<nat>, i: nat): (k: int)
    requires i <= |ds|
    ensures -1 <= k < i
    ensures k >= 0 ==> ds[k] == 0
    ensures forall j :: k < j < i ==> ds[j] != 0
  {
    if i == 0 then -1 else if ds[i - 1] == 0 then i - 1 else LastZero(ds, i - 1)
  }

  /** Position of the last dot that some later symbol among the first i is not, or -1. */
  function LastActualDot(ds: seq<nat>, i: nat): (k: int)
    requires i <= |ds|
    ensures -1 <= k < i
  {
    if i == 0 then -1
    else if ds[i - 1] != 0 then LastZero(ds, i - 1)
    else LastActualDot(ds, i - 1)
  }

  /** Dropping the first k symbols. */
  function Shifted(ds: seq<nat>, k: nat): (es: seq<nat>)
    requires IsDigits(ds) && 0 < k
    ensures IsDigits(es)
  {
    seq(13, j requires 0 <= j < 13 => if j + k < 13 then ds[j + k] else 0)
  }

  /** Number of bits below the symbol in position k. */
  function BitsBelow(k: int): nat
    requires k <= 11
  {
    if k < 0 then 0 else 59 - 5 * k
  }

  // ------------------------------------------------------------- the bit loop

  method NameSuffix(n: nat) returns (suffix: nat)
    requires n < NAME_LIMIT
    ensures suffix == Suffix(n)
  {
    var remainingBitsAfterLastActualDot := FindLastActualDot(n);
    ghost var k := LastActualDot(Digits(n), 13);
    WholeName(n, k);
    if remainingBitsAfterLastActualDot == 0 {
      return n;
    }
    ThirteenthIsDigit(n);
    var thirteenthCharacter := And(n, 0x0F);
    var shift := 64 - remainingBitsAfterLastActualDot;
    FinalShift(n, k, remainingBitsAfterLastActualDot, shift, thirteenthCharacter);
    var mask := Pow2(remainingBitsAfterLastActualDot) - 16;
    suffix := Add64(Shl(And(n, mask), shift), Shl(thirteenthCharacter, shift - 1));
  }

  /** The scan for the last dot that some later symbol is not. */
  method FindLastActualDot(n: nat) returns (remainingBitsAfterLastActualDot: nat)
    requires n < NAME_LIMIT
    ensures var k := LastActualDot(Digits(n), 13);
            k <= 11 && remainingBitsAfterLastActualDot == BitsBelow(k)
  {
    ghost var ds := Digits(n);
    remainingBitsAfterLastActualDot := 0;
    var tmp := 0;
    var remainingBits := 59;
    ghost var i := 0;
    while remainingBits >= 4
      invariant 0 <= i <= 12 && remainingBits == 59 - 5 * i
      invariant tmp == BitsBelow(LastZero(ds, i))
      invariant remainingBitsAfterLastActualDot == BitsBelow(LastActualDot(ds, i))
    {
      CharacterIsDigit(n, i);
      var c := And(Shr(n, remainingBits), 0x1F);
      if c == 0 {
        tmp := remainingBits;
      } else {
        remainingBitsAfterLastActualDot := tmp;
      }
      remainingBits := remainingBits - 5;
      i := i + 1;
    }
    ThirteenthIsDigit(n);
    var thirteenthCharacter := And(n, 0x0F);
    if thirteenthCharacter != 0 {
      remainingBitsAfterLastActualDot := tmp;
    }
    ActualDotBound(ds, 13);
  }

  lemma CharacterIsDigit(n: nat, i: nat)
    requires i < 12
    ensures And(Shr(n, 59 - 5 * i), 0x1F) == Digits(n)[i]
  {
    assert Pow2(5) == 32;
    AndMask(Shr(n, 59 - 5 * i), 5);
  }

  lemma ThirteenthIsDigit(n: nat)
    ensures And(n, 0x0F) == Digits(n)[12]
  {
    assert Pow2(4) == 16;
    AndMask(n, 4);
  }

  // -------------------------------------------------- what the final shifts build

  /** Masking out the low k bits of the low r bits. */
  lemma {:induction false} AndBand(x: nat, r: nat, k: nat)
    requires k <= r
    ensures Pow2(k) <= Pow2(r) && And(x, Pow2(r) - Pow2(k)) == x % Pow2(r) - x % Pow2(k)
    decreases k
  {
    if k == 0 {
      AndMask(x, r);
    } else {
      AndBand(x / 2, r - 1, k - 1);
      AndEven(x, Pow2(r - 1) - Pow2(k - 1));
      ModHalf(x, Pow2(r - 1));
      ModHalf(x, Pow2(k - 1));
    }
  }

  lemma AndEven(x: nat, m: nat)
    ensures And(x, 2 * m) == 2 * And(x / 2, m)
  {
  }

  /** The slots of the symbols from i on, all but the last symbol. */
  function FullSlots(ds: seq<nat>, i: nat): nat
    requires |ds| == 13 && i <= 12
    decreases 12 - i
  {
    if i == 12 then 0 else Shl(ds[i], 59 - 5 * i) + FullSlots(ds, i + 1)
  }

  lemma {:induction false} SplitSlots(ds: seq<nat>, i: nat)
    requires |ds| == 13 && i <= 12
    ensures Slots(ds, i) == FullSlots(ds, i) + ds[12]
    decreases 12 - i
  {
    if i == 12 {
      SlotsZero(ds, i + 1);
    } else {
      SplitSlots(ds, i + 1);
    }
  }

  ghost predicate IsShift(ds: seq<nat>, es: seq<nat>, k: nat) {
    && |ds| == |es| == 13 && 0 < k
    && forall j :: 0 <= j < 13 ==> es[j] == if j + k < 13 then ds[j + k] else 0
  }

  /** The symbols from i on, moved up k places: the last one changes slot width. */
  lemma {:induction false} ShiftedSlots(ds: seq<nat>, es: seq<nat>, k: nat, i: nat)
    requires IsShift(ds, es, k) && k <= i <= 12
    ensures Slots(es, i - k) == Shl(FullSlots(ds, i), 5 * k) + Shl(ds[12], 5 * k - 1)
    decreases 12 - i
  {
    if i == 12 {
      SlotsZero(es, i - k + 1);
      ShlZero(5 * k);
    } else {
      ShiftedSlots(ds, es, k, i + 1);
      ShiftStep(ds[i], 59 - 5 * i, FullSlots(ds, i + 1), 5 * k);
    }
  }

  lemma ShiftStep(d: nat, place: nat, rest: nat, k: nat)
    ensures Shl(Shl(d, place) + rest, k) == Shl(d, place + k) + Shl(rest, k)
  {
    ShlAdd(Shl(d, place), rest, k);
    ShlShl(d, place, k);
  }

  /** The low bits of a word are the slots of its last symbols. */
  lemma LowSymbols(ds: seq<nat>, k: nat)
    requires IsDigits(ds) && 0 < k <= 13
    ensures Pack(ds) % Pow2(Place(k - 1)) == Slots(ds, k)
  {
    SlotsBelow(ds, k);
    SlotsBound(ds, k);
    LowPart(Pack(ds), Horner(ds, k), Place(k - 1), Slots(ds, k));
  }

  lemma LowPart(x: nat, h: nat, place: nat, low: nat)
    requires x == Shl(h, place) + low && low < Pow2(place)
    ensures x % Pow2(place) == low
  {
    ShrOfShl(h, place, low);
  }

  lemma LastSymbol(ds: seq<nat>, twelve: nat)
    requires IsDigits(ds) && twelve == 12
    ensures Pack(ds) % 16 == ds[12]
  {
    LowSymbols(ds, twelve);
    SplitSlots(ds, twelve);
    assert Pow2(4) == 16;
  }

  lemma MaskedSymbols(ds: seq<nat>, k: nat, rem: nat)
    requires IsDigits(ds) && 0 < k <= 12 && rem == 64 - 5 * k
    ensures Pow2(rem) >= 16
    ensures And(Pack(ds), Pow2(rem) - 16) == FullSlots(ds, k)
  {
    LowSymbols(ds, k);
    SplitSlots(ds, k);
    LastSymbol(ds, 12);
    assert Pow2(4) == 16;
    AndBand(Pack(ds), rem, 4);
  }

  function Add64(a: nat, b: nat): nat {
    (a % NAME_LIMIT + b % NAME_LIMIT) % NAME_LIMIT
  }

  lemma NoWrap(a: nat, b: nat)
    requires a + b < NAME_LIMIT
    ensures Add64(a, b) == a + b
  {
  }

  lemma ShiftedWord(ds: seq<nat>, n: nat, k: nat, rem: nat, shift: nat)
    requires IsDigits(ds) && n == Pack(ds) && 0 < k <= 12 && shift == 5 * k && rem == 64 - shift
    ensures Pow2(rem) >= 16
    ensures Add64(Shl(And(n, Pow2(rem) - 16), shift), Shl(ds[12], shift - 1)) == Pack(Shifted(ds, k))
  {
    MaskedSymbols(ds, k, rem);
    PlacedSymbols(ds, Shifted(ds, k), k, shift, 0);
  }

  lemma PlacedSymbols(ds: seq<nat>, es: seq<nat>, k: nat, shift: nat, first: nat)
    requires IsDigits(ds) && 0 < k <= 12 && shift == 5 * k && es == Shifted(ds, k) && first == 0
    ensures Add64(Shl(FullSlots(ds, k), shift), Shl(ds[12], shift - 1)) == Pack(es)
  {
    ShiftedSlots(ds, es, k, k);
    SlotsArePack(es, first);
    PackBound(es);
    NoWrap(Shl(FullSlots(ds, k), shift), Shl(ds[12], shift - 1));
  }

  // ----------------------------------------------------------- symbols and text

  /** The text of a word has a dot exactly where its symbols have one before
    * their last non-dot. */
  lemma LastDotOfText(n: nat)
    requires n < NAME_LIMIT
    ensures LastDotIndex(Text(n)) == LastActualDot(Digits(n), 13)
  {
    var s, ds := Text(n), Digits(n);
    TextSymbols(n);
    TrailingZeros(ds, 13, |s|);
    if |s| > 0 {
      assert LastActualDot(ds, |s|) == LastZero(ds, |s| - 1);
    }
  }

  lemma TextSymbols(n: nat)
    requires n < NAME_LIMIT
    ensures |Text(n)| <= 13
    ensures forall j :: 0 <= j < |Text(n)| ==> ValidChar(Text(n)[j]) && (Text(n)[j] == '.' <==> Digits(n)[j] == 0)
    ensures forall j :: 0 <= j < |Text(n)| ==> Symbol(Text(n)[j]) == Digits(n)[j]
    ensures forall j :: |Text(n)| <= j < 13 ==> Digits(n)[j] == 0
    ensures Text(n) != [] ==> Text(n)[|Text(n)| - 1] != '.'
  {
    TrimShape(Chars(n));
    CharsSyms(n);
    assert forall j :: 0 <= j < 13 ==> Syms(Chars(n))[j] == Digits(n)[j];
  }

  lemma {:induction false} TrailingZeros(ds: seq<nat>, i: nat, len: nat)
    requires len <= i <= |ds| && forall j :: len <= j < i ==> ds[j] == 0
    ensures LastActualDot(ds, i) == LastActualDot(ds, len)
    decreases i
  {
    if len < i {
      TrailingZeros(ds, i - 1, len);
    }
  }

  lemma TailSymbols(n: nat, k: nat)
    requires n < NAME_LIMIT && k < |Text(n)|
    ensures |Text(n)| <= 13 && Syms(Text(n)[k + 1..]) == Shifted(Digits(n), k + 1)
  {
    TextSymbols(n);
    var tail := Text(n)[k + 1..];
    forall j | 0 <= j < 13 ensures Sym(tail, j) == Shifted(Digits(n), k + 1)[j] {
      if j < |tail| {
        assert tail[j] == Text(n)[j + k + 1];
        assert Digits(n)[j + k + 1] < Base(j);
      }
    }
  }

  lemma SuffixOfSymbols(n: nat, k: int)
    requires n < NAME_LIMIT && k == LastActualDot(Digits(n), 13)
    ensures k <= 11 && Suffix(n) == if k < 0 then n else Pack(Shifted(Digits(n), k + 1))
  {
    LastDotOfText(n);
    ActualDotBound(Digits(n), 13);
    if k < 0 {
      WordRoundTrip(n);
      assert AfterLastDot(Text(n)) == Text(n);
    } else {
      TailSymbols(n, k);
    }
  }

  lemma {:induction false} ActualDotBound(ds: seq<nat>, i: nat)
    requires 0 < i <= |ds|
    ensures LastActualDot(ds, i) <= i - 2
  {
    if i > 1 && ds[i - 1] == 0 {
      ActualDotBound(ds, i - 1);
    }
  }

  lemma WholeName(n: nat, k: int)
    requires n < NAME_LIMIT && k == LastActualDot(Digits(n), 13)
    ensures k <= 11 && (k < 0 ==> Suffix(n) == n)
  {
    SuffixOfSymbols(n, k);
  }

  lemma FinalShift(n: nat, k: int, rem: nat, shift: nat, last: nat)
    requires n < NAME_LIMIT && 0 <= k <= 11 && k == LastActualDot(Digits(n), 13)
    requires shift == 5 * (k + 1) && rem == 64 - shift && last == Digits(n)[12]
    ensures Pow2(rem) >= 16
    ensures Add64(Shl(And(n, Pow2(rem) - 16), shift), Shl(last, shift - 1)) == Suffix(n)
  {
    SuffixOfSymbols(n, k);
    PackDigits(n);
    ShiftedWord(Digits(n), n, k + 1, rem, shift);
  }

  // ------------------------------------------------------------- consequences

  lemma SuffixText(n: nat)
    requires n < NAME_LIMIT
    ensures Text(Suffix(n)) == AfterLastDot(Text(n))
    ensures Text(n) != [] ==> AfterLastDot(Text(n)) != []
  {
    var tail := AfterLastDot(Text(n));
    TextSymbols(n);
    WordRoundTrip(n);
    assert ValidName(tail);
    assert TrimDots(tail) == tail;
    TextRoundTrip(tail);
  }

  /** Taking the suffix twice changes nothing more. */
  lemma SuffixIdempotent(n: nat)
    requires n < NAME_LIMIT
    ensures Suffix(Suffix(n)) == Suffix(n)
  {
    var v := Suffix(n);
    assert AfterLastDot(Text(v)) == Text(v) by {
      SuffixText(n);
    }
    WordRoundTrip(v);
  }

  /** Only the empty name has an empty suffix. */
  lemma SuffixZero(n: nat)
    requires n < NAME_LIMIT
    ensures Suffix(n) == 0 <==> n == 0
  {
    SuffixText(n);
    EmptyText(n);
    EmptyText(Suffix(n));
  }

  lemma EmptyText(n: nat)
    requires n < NAME_LIMIT
    ensures n == 0 <==> Text(n) == []
  {
    ZeroHorner(Syms([]), 13);
    WordRoundTrip(n);
    TextRoundTrip([]);
  }

  lemma {:induction false} ZeroHorner(ds: seq<nat>, k: nat)
    requires k <= |ds| && forall j :: 0 <= j < k ==> ds[j] == 0
    ensures Horner(ds, k) == 0
  {
    if k > 0 {
      ZeroHorner(ds, k - 1);
    }
  }
}
