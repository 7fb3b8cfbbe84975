/** The power-of-two and alignment functions of src/common/align.h on unsigned words of any width: bit
    smearing and masks against arithmetic. A word is its bits, the least significant first. */
module AlignBits {
  type Word = seq<bool>

  function Pow2(n: nat): (p: nat)
    ensures p > 0
  {
    if n == 0 then 1 else 2 * Pow2(n - 1)
  }

  function Num(bits: Word): nat {
    if bits == [] then 0 else (if bits[0] then 1 else 0) + 2 * Num(bits[1..])
  }

  function WordOf(value: nat, width: nat): (bits: Word)
    ensures |bits| == width
    decreases width
  {
    if width == 0 then [] else [value % 2 == 1] + WordOf(value / 2, width - 1)
  }

  lemma {:induction false} NumFits(bits: Word)
    ensures Num(bits) < Pow2(|bits|)
  {
    if bits != [] {
      NumFits(bits[1..]);
    }
  }

  lemma {:induction false} NumOfWord(value: nat, width: nat)
    requires value < Pow2(width)
    ensures Num(WordOf(value, width)) == value
    decreases width
  {
    if width > 0 {
      NumOfWord(value / 2, width - 1);
      assert WordOf(value, width)[1..] == WordOf(value / 2, width - 1);
    }
  }

  lemma Halved(b: bool, n: nat)
    ensures var m := (if b then 1 else 0) + 2 * n; (m % 2 == 1 <==> b) && m / 2 == n
  {
  }

  lemma {:induction false} WordOfNum(bits: Word)
    ensures WordOf(Num(bits), |bits|) == bits
  {
    if bits != [] {
      WordOfNum(bits[1..]);
      Halved(bits[0], Num(bits[1..]));
      WordOfCons(bits[0], Num(bits[1..]), |bits|);
    }
  }

  lemma WordOfCons(b: bool, n: nat, width: nat)
    requires width > 0
    ensures WordOf((if b then 1 else 0) + 2 * n, width) == [b] + WordOf(n, width - 1)
  {
    Halved(b, n);
  }

  // ---------------------------------------------------------------- operations of the machine

  function ShiftRight(a: Word, s: nat): (r: Word)
    ensures |r| == |a|
  {
    seq(|a|, i requires 0 <= i => i + s < |a| && a[i + s])
  }

  function Or(a: Word, b: Word): (r: Word)
    requires |a| == |b|
    ensures |r| == |a|
  {
    seq(|a|, i requires 0 <= i < |a| => a[i] || b[i])
  }

  function And(a: Word, b: Word): (r: Word)
    requires |a| == |b|
    ensures |r| == |a|
  {
    seq(|a|, i requires 0 <= i < |a| => a[i] && b[i])
  }

  function Not(a: Word): (r: Word)
    ensures |r| == |a|
  {
    seq(|a|, i requires 0 <= i < |a| => !a[i])
  }

  /** Addition and subtraction wrap around. */
  function Plus(a: Word, n: nat): (r: Word)
    ensures |r| == |a|
  {
    WordOf(Wrapped(Num(a) + n, |a|), |a|)
  }

  function Wrapped(x: nat, w: nat): (r: nat)
    ensures r < Pow2(w)
  {
    x % Pow2(w)
  }

  function MinusOne(a: Word): (r: Word)
    ensures |r| == |a|
  {
    WordOf(if Num(a) == 0 then Pow2(|a|) - 1 else Num(a) - 1, |a|)
  }

  lemma PlusIs(a: Word, n: nat)
    ensures Num(Plus(a, n)) == Wrapped(Num(a) + n, |a|)
  {
    hide Num;
    hide WordOf;
    hide Pow2;
    hide Wrapped;
    NumOfWord(Wrapped(Num(a) + n, |a|), |a|);
  }

  lemma MinusOneIs(a: Word)
    ensures Num(a) > 0 ==> Num(MinusOne(a)) == Num(a) - 1
  {
    NumFits(a);
    NumOfWord(if Num(a) == 0 then Pow2(|a|) - 1 else Num(a) - 1, |a|);
  }

  // ---------------------------------------------------------------- smearing

  /** Each bit says whether one of the next s bits, from itself up, is set. */
  ghost function Smeared(a: Word, s: nat): (r: Word)
    ensures |r| == |a|
  {
    seq(|a|, i requires 0 <= i < |a| => exists j :: i <= j < i + s && j < |a| && a[j])
  }

  lemma SmearStart(a: Word)
    ensures Smeared(a, 1) == a
  {
    assert forall i :: 0 <= i < |a| ==> Smeared(a, 1)[i] == a[i];
  }

  lemma SmearStep(a: Word, s: nat)
    requires s > 0
    ensures Or(Smeared(a, s), ShiftRight(Smeared(a, s), s)) == Smeared(a, 2 * s)
  {
    var once, twice := Smeared(a, s), Smeared(a, 2 * s);
    forall i | 0 <= i < |a|
      ensures twice[i] == (once[i] || ShiftRight(once, s)[i])
    {
      if twice[i] {
        var j :| i <= j < i + 2 * s && j < |a| && a[j];
        assert j < i + s ==> once[i];
        assert j >= i + s ==> once[i + s];
      }
    }
  }

  ghost predicate Any(a: Word) {
    true in a
  }

  lemma SmearTail(a: Word, s: nat)
    requires a != [] && s >= |a|
    ensures Smeared(a, s)[0] == Any(a) && Smeared(a, s)[1..] == Smeared(a[1..], s)
  {
    if Any(a) {
      var j :| 0 <= j < |a| && a[j];
      assert Smeared(a, s)[0];
    }
    var rest := a[1..];
    forall i | 0 <= i < |rest|
      ensures Smeared(a, s)[i + 1] == Smeared(rest, s)[i]
    {
      if Smeared(a, s)[i + 1] {
        var j :| i + 1 <= j < i + 1 + s && j < |a| && a[j];
        assert rest[j - 1];
      }
      if Smeared(rest, s)[i] {
        var j :| i <= j < i + s && j < |rest| && rest[j];
        assert a[j + 1];
      }
    }
  }

  ghost predicate IsPower(p: nat) {
    exists k: nat :: Pow2(k) == p
  }

  lemma {:induction false} NoneIsZero(a: Word)
    ensures Any(a) <==> Num(a) > 0
  {
    if a != [] {
      NoneIsZero(a[1..]);
      assert Any(a) <==> a[0] || Any(a[1..]);
    }
  }

  lemma TwicePower(p: nat)
    requires IsPower(p)
    ensures IsPower(2 * p)
  {
    var k: nat :| Pow2(k) == p;
    assert Pow2(k + 1) == 2 * p;
  }

  /** Fully smeared, a number is one less than the next power of two above it. */
  ghost predicate IsSmeared(n: nat, m: nat) {
    if n == 0 then m == 0 else n <= m < 2 * n && IsPower(m + 1) && m % 2 == 1 && IsPower((m + 1) / 2)
  }

  lemma SmearedCons(b: bool, n: nat, m: nat)
    requires IsSmeared(n, m)
    ensures IsSmeared((if b then 1 else 0) + 2 * n, (if b || n > 0 then 1 else 0) + 2 * m)
  {
    if n > 0 {
      hide IsPower;
      TwicePower(m + 1);
      assert (1 + 2 * m + 1) / 2 == m + 1;
    } else {
      assert Pow2(0) == 1 && Pow2(1) == 2 * Pow2(0);
      assert IsPower(1) && IsPower(2);
    }
  }

  lemma {:induction false} SmearedIs(a: Word, s: nat)
    requires s >= |a|
    ensures IsSmeared(Num(a), Num(Smeared(a, s)))
  {
    hide Smeared;
    hide IsPower;
    hide Any;
    if a == [] {
    } else {
      SmearTail(a, s);
      SmearedIs(a[1..], s);
      NoneIsZero(a);
      SmearedCons(a[0], Num(a[1..]), Num(Smeared(a[1..], s)));
    }
  }

  // ---------------------------------------------------------------- NextPow2, PreviousPow2

  predicate IsWidth(w: nat) {
    w == 8 || w == 16 || w == 32 || w == 64
  }

  method Smear(value: Word) returns (r: Word)
    requires IsWidth(|value|)
    ensures r == Smeared(value, |value|)
  {
    hide Smeared;
    hide Or;
    hide ShiftRight;
    SmearStart(value);
    r := value;
    SmearStep(value, 1);
    r := Or(r, ShiftRight(r, 1));
    SmearStep(value, 2);
    r := Or(r, ShiftRight(r, 2));
    SmearStep(value, 4);
    r := Or(r, ShiftRight(r, 4));
    if |value| >= 16 {
      SmearStep(value, 8);
      r := Or(r, ShiftRight(r, 8));
    }
    if |value| >= 32 {
      SmearStep(value, 16);
      r := Or(r, ShiftRight(r, 16));
    }
    if |value| >= 64 {
      SmearStep(value, 32);
      r := Or(r, ShiftRight(r, 32));
    }
  }

  lemma SmearedNumber(a: Word)
    ensures var n, m := Num(a), Num(Smeared(a, |a|));
            if n == 0 then m == 0 else n <= m < 2 * n && IsPower(m + 1) && m % 2 == 1 && IsPower((m + 1) / 2)
  {
    hide IsPower;
    hide Smeared;
    hide Num;
    SmearedIs(a, |a|);
  }

  /** The greatest power of two that is at most n. */
  ghost predicate GreatestPower(p: nat, n: nat) {
    IsPower(p) && p <= n && forall q: nat | IsPower(q) && q <= n :: q <= p
  }

  /** The least power of two that is at least n. */
  ghost predicate LeastPower(p: nat, n: nat) {
    IsPower(p) && n <= p && forall q: nat | IsPower(q) && n <= q :: p <= q
  }

  lemma {:induction false} PowersGrow(a: nat, b: nat)
    requires a < b
    ensures 2 * Pow2(a) <= Pow2(b)
  {
    if a < b - 1 {
      PowersGrow(a, b - 1);
    }
  }

  lemma PowersApart(p: nat, q: nat)
    requires IsPower(p) && IsPower(q) && p < q
    ensures 2 * p <= q
  {
    var a: nat :| Pow2(a) == p;
    var b: nat :| Pow2(b) == q;
    if b <= a {
      if b < a {
        PowersGrow(b, a);
      }
    } else {
      PowersGrow(a, b);
    }
  }

  lemma IsGreatest(p: nat, n: nat)
    requires IsPower(p) && p <= n < 2 * p
    ensures GreatestPower(p, n)
  {
    forall q: nat | IsPower(q) && q <= n
      ensures q <= p
    {
      if p < q {
        PowersApart(p, q);
      }
    }
  }

  lemma IsLeast(p: nat, n: nat)
    requires IsPower(p) && n <= p && p < 2 * n
    ensures LeastPower(p, n)
  {
    forall q: nat | IsPower(q) && n <= q
      ensures p <= q
    {
      if q < p {
        PowersApart(q, p);
      }
    }
  }

  lemma {:induction false} HalfIs(a: Word)
    requires a != []
    ensures Num(ShiftRight(a, 1)) == Num(a) / 2
  {
    ShiftedTail(a[1..]);
    assert ShiftRight(a, 1) == a[1..] + [false];
  }

  lemma {:induction false} ShiftedTail(a: Word)
    ensures Num(a + [false]) == Num(a)
  {
    if a != [] {
      ShiftedTail(a[1..]);
      assert (a + [false])[1..] == a[1..] + [false];
    }
  }

  method PreviousPow2(value: Word) returns (r: Word)
    requires IsWidth(|value|)
    ensures |r| == |value|
    ensures if Num(value) == 0 then Num(r) == 0 else GreatestPower(Num(r), Num(value))
  {
    hide *;
    IsWidthIs(|value|);
    if Num(value) == 0 {
      return value;
    }
    var smeared := Smear(value);
    SmearedNumber(value);
    HalfIs(smeared);
    NumFits(value);
    PlusIs(ShiftRight(smeared, 1), 1);
    r := Plus(ShiftRight(smeared, 1), 1);
    WrappedSmall(Num(smeared) / 2 + 1, |value|);
    IsGreatest(Num(r), Num(value));
  }

  lemma IsWidthIs(w: nat)
    requires IsWidth(w)
    ensures w >= 8 && Pow2(w) == 2 * Pow2(w - 1)
  {
  }

  lemma WrappedSmall(x: nat, w: nat)
    ensures x < Pow2(w) ==> Wrapped(x, w) == x
    ensures x == Pow2(w) ==> Wrapped(x, w) == 0
  {
    hide Pow2;
  }

  lemma OneIsPower()
    ensures IsPower(1)
  {
    assert Pow2(0) == 1;
  }

  /** Above the top power of two the result wraps around to 0; the source calls it undefined there. */
  method NextPow2(value: Word) returns (r: Word)
    requires IsWidth(|value|)
    ensures |r| == |value|
    ensures if Num(value) == 0 || Num(value) > Pow2(|value| - 1) then Num(r) == 0 else LeastPower(Num(r), Num(value))
  {
    hide *;
    var w := |value|;
    IsWidthIs(w);
    if Num(value) == 0 {
      return value;
    }
    MinusOneIs(value);
    var smeared := Smear(MinusOne(value));
    SmearedNumber(MinusOne(value));
    PlusIs(smeared, 1);
    r := Plus(smeared, 1);
    ghost var p := Num(smeared) + 1;
    OneIsPower();
    NumFits(smeared);
    WrappedSmall(p, w);
    IsLeast(p, Num(value));
    if Num(value) > Pow2(w - 1) {
      AboveTop(p, w);
    } else {
      BelowTop(p, w, Num(value));
    }
  }

  lemma AboveTop(p: nat, w: nat)
    requires w > 0 && IsPower(p) && Pow2(w - 1) < p <= Pow2(w)
    ensures p == Pow2(w)
  {
    assert IsPower(Pow2(w - 1));
    PowersApart(Pow2(w - 1), p);
  }

  lemma BelowTop(p: nat, w: nat, n: nat)
    requires w > 0 && LeastPower(p, n) && n <= Pow2(w - 1)
    ensures p < Pow2(w)
  {
    assert IsPower(Pow2(w - 1));
  }

  // ---------------------------------------------------------------- masks

  /** The low bits, k of them. */
  function Mask(k: nat, w: nat): (m: Word)
    ensures |m| == w
  {
    WordOf(Pow2(k) - 1, w)
  }

  lemma MaskTail(k: nat, w: nat)
    requires k <= w && w > 0
    ensures Mask(k, w)[0] == (k > 0) && Mask(k, w)[1..] == Mask(if k > 0 then k - 1 else 0, w - 1)
  {
    if k > 0 {
      assert (Pow2(k) - 1) / 2 == Pow2(k - 1) - 1;
    }
  }

  lemma {:induction false} MaskOf(k: nat, w: nat)
    requires k <= w
    ensures forall i :: 0 <= i < w ==> (Mask(k, w)[i] <==> i < k)
    decreases w
  {
    hide Mask;
    if w > 0 {
      var l := if k > 0 then k - 1 else 0;
      MaskTail(k, w);
      MaskOf(l, w - 1);
      forall i | 0 < i < w
        ensures Mask(k, w)[i] <==> i < k
      {
        assert Mask(k, w)[i] == Mask(k, w)[1..][i - 1];
      }
    }
  }

  ghost predicate Multiple(x: nat, m: nat) {
    exists q: nat :: x == Times(q, m)
  }

  function Times(q: nat, m: nat): nat {
    q * m
  }

  lemma TimesOne(q: nat)
    ensures Times(q, 1) == q
  {
  }

  lemma DoubleTimes(q: nat, m: nat)
    ensures Times(q, 2 * m) == 2 * Times(q, m)
  {
  }

  /** Clearing the low bits leaves a multiple, keeping them leaves the rest. */
  lemma {:induction false} ClearLow(a: Word, k: nat, high: Word, low: Word)
    requires k <= |a| == |high| == |low|
    requires forall i :: 0 <= i < |a| ==> (high[i] <==> a[i] && i >= k) && (low[i] <==> a[i] && i < k)
    ensures Num(high) + Num(low) == Num(a) && Num(low) < Pow2(k) && Multiple(Num(high), Pow2(k))
  {
    hide Times;
    if k == 0 {
      assert high == a;
      AllFalse(low);
      NoneIsZero(low);
      TimesOne(Num(high));
    } else {
      ClearLow(a[1..], k - 1, high[1..], low[1..]);
      var q: nat :| Num(high[1..]) == Times(q, Pow2(k - 1));
      DoubleTimes(q, Pow2(k - 1));
      assert Num(high) == Times(q, Pow2(k));
    }
  }

  lemma AllFalse(a: Word)
    requires forall i :: 0 <= i < |a| ==> !a[i]
    ensures !Any(a)
  {
  }

  lemma {:induction false} TimesGrow(p: nat, q: nat, m: nat)
    requires p < q
    ensures Times(p, m) + m <= Times(q, m)
  {
    TimesStep(q - 1, m);
    if p < q - 1 {
      TimesGrow(p, q - 1, m);
    }
  }

  lemma TimesStep(q: nat, m: nat)
    ensures Times(q + 1, m) == Times(q, m) + m
  {
  }

  lemma MultiplesApart(x: nat, y: nat, m: nat)
    requires Multiple(x, m) && Multiple(y, m) && x < y
    ensures x + m <= y
  {
    hide Times;
    var p: nat :| x == Times(p, m);
    var q: nat :| y == Times(q, m);
    if q < p {
      TimesGrow(q, p, m);
    } else if p < q {
      TimesGrow(p, q, m);
    }
  }

  function RoundedDown(n: nat, m: nat): nat
    requires m > 0
  {
    n / m * m
  }

  lemma DivisionIs(n: nat, m: nat)
    requires m > 0
    ensures RoundedDown(n, m) <= n < RoundedDown(n, m) + m && Multiple(RoundedDown(n, m), m)
    ensures n % m == n - RoundedDown(n, m)
  {
    assert n / m * m == Times(n / m, m);
    assert n == n / m * m + n % m;
  }

  /** The multiple below and the rest are those of the division. */
  lemma Divided(n: nat, m: nat, high: nat, low: nat)
    requires m > 0 && n == high + low && low < m && Multiple(high, m)
    ensures high == RoundedDown(n, m) && low == n % m
  {
    hide *;
    DivisionIs(n, m);
    SameMultiple(n, m, high, RoundedDown(n, m));
  }

  lemma SameMultiple(n: nat, m: nat, x: nat, y: nat)
    requires Multiple(x, m) && Multiple(y, m) && x <= n < x + m && y <= n < y + m
    ensures x == y
  {
    hide *;
    if x < y {
      MultiplesApart(x, y, m);
    } else if y < x {
      MultiplesApart(y, x, m);
    }
  }

  // ---------------------------------------------------------------- aligning

  function AlignDown(a: Word, alignment: nat): Word
    requires alignment > 0
  {
    WordOf(RoundedDown(Num(a), alignment), |a|)
  }

  function AlignUp(a: Word, alignment: nat): Word
    requires alignment > 0
  {
    AlignDown(Plus(a, alignment - 1), alignment)
  }

  function AlignDownPow2(a: Word, alignment: nat): Word
    requires alignment > 0
  {
    And(a, Not(WordOf(alignment - 1, |a|)))
  }

  function AlignUpPow2(a: Word, alignment: nat): Word
    requires alignment > 0
  {
    AlignDownPow2(Plus(a, alignment - 1), alignment)
  }

  predicate IsAligned(a: Word, alignment: nat)
    requires alignment > 0
  {
    Num(a) % alignment == 0
  }

  predicate IsAlignedPow2(a: Word, alignment: nat)
    requires alignment > 0
  {
    Num(And(a, WordOf(alignment - 1, |a|))) == 0
  }

  predicate IsPow2(a: Word) {
    Num(And(a, MinusOne(a))) == 0
  }

  /** What the masks compute. */
  lemma MaskedIs(a: Word, k: nat)
    requires k < |a|
    ensures Num(AlignDownPow2(a, Pow2(k))) == RoundedDown(Num(a), Pow2(k))
    ensures Num(And(a, WordOf(Pow2(k) - 1, |a|))) == Num(a) % Pow2(k)
  {
    hide Num;
    hide Multiple;
    hide WordOf;
    var mask := WordOf(Pow2(k) - 1, |a|);
    assert mask == Mask(k, |a|);
    MaskOf(k, |a|);
    var high, low := And(a, Not(mask)), And(a, mask);
    ClearLow(a, k, high, low);
    Divided(Num(a), Pow2(k), Num(high), Num(low));
  }

  /** For an alignment that is a power of two, the masks do what the divisions do, even where the sum
      wraps around. */
  lemma MasksAlign(a: Word, k: nat)
    requires k < |a|
    ensures AlignDownPow2(a, Pow2(k)) == AlignDown(a, Pow2(k))
    ensures AlignUpPow2(a, Pow2(k)) == AlignUp(a, Pow2(k))
    ensures IsAlignedPow2(a, Pow2(k)) == IsAligned(a, Pow2(k))
  {
    hide Num;
    hide WordOf;
    hide Plus;
    hide Pow2;
    var sum := Plus(a, Pow2(k) - 1);
    MaskedIs(a, k);
    MaskedIs(sum, k);
    WordOfNum(AlignDownPow2(a, Pow2(k)));
    WordOfNum(AlignDownPow2(sum, Pow2(k)));
  }

  ghost predicate LeastMultiple(x: nat, m: nat, n: nat) {
    Multiple(x, m) && n <= x && forall y: nat | Multiple(y, m) && n <= y :: x <= y
  }

  lemma AlignUpDef(a: Word, m: nat)
    requires m > 0
    ensures AlignUp(a, m) == WordOf(RoundedDown(Num(Plus(a, m - 1)), m), |a|)
  {
  }

  lemma AlignUpIs(a: Word, m: nat)
    requires m > 0
    ensures Num(AlignUp(a, m)) == RoundedDown(Wrapped(Num(a) + (m - 1), |a|), m)
  {
    hide *;
    AlignUpDef(a, m);
    PlusIs(a, m - 1);
    NumFits(Plus(a, m - 1));
    DivisionIs(Num(Plus(a, m - 1)), m);
    NumOfWord(RoundedDown(Num(Plus(a, m - 1)), m), |a|);
  }

  /** Aligning up gives the least multiple of the alignment that is not below the value, exactly if
      there is one in a word: otherwise the sum wraps around. */
  lemma AlignUpIsLeast(a: Word, k: nat)
    requires k < |a|
    ensures LeastMultiple(Num(AlignUp(a, Pow2(k))), Pow2(k), Num(a)) <==> Num(a) + Pow2(k) - 1 < Pow2(|a|)
  {
    hide *;
    var n, m, top := Num(a), Pow2(k), Pow2(|a|);
    AlignUpIs(a, m);
    NumFits(a);
    PowersOrdered(k, |a|);
    if n + m - 1 < top {
      WrappedSmall(n + m - 1, |a|);
      LeastAbove(n, m);
    } else {
      WrapAround(n + m - 1, |a|);
      NotLeast(n, m, top);
    }
  }

  lemma LeastAbove(n: nat, m: nat)
    requires m > 0
    ensures LeastMultiple(RoundedDown(n + m - 1, m), m, n)
  {
    hide Multiple;
    var x := RoundedDown(n + m - 1, m);
    DivisionIs(n + m - 1, m);
    forall y: nat | Multiple(y, m) && n <= y
      ensures x <= y
    {
      if y < x {
        MultiplesApart(y, x, m);
      }
    }
  }

  lemma WrapAround(x: nat, w: nat)
    requires Pow2(w) <= x < 2 * Pow2(w)
    ensures Wrapped(x, w) == x - Pow2(w)
  {
    hide Pow2;
    hide Times;
    TimesOneLeft(Pow2(w));
    Divided(x, Pow2(w), Pow2(w), x - Pow2(w));
  }

  lemma TimesOneLeft(m: nat)
    ensures Times(1, m) == m
  {
  }

  lemma {:induction false} PowersOrdered(k: nat, w: nat)
    requires k <= w
    ensures Pow2(k) <= Pow2(w)
  {
    if k < w {
      PowersOrdered(k, w - 1);
    }
  }

  lemma NotLeast(n: nat, m: nat, top: nat)
    requires 0 < m <= top && n < top <= n + m - 1
    ensures !LeastMultiple(RoundedDown(n + m - 1 - top, m), m, n)
  {
    DivisionIs(n + m - 1 - top, m);
  }

  // ---------------------------------------------------------------- IsPow2

  lemma MinusOneBits(a: Word)
    requires Num(a) > 0
    ensures MinusOne(a) == [!a[0]] + if a[0] then a[1..] else MinusOne(a[1..])
  {
    var rest := a[1..];
    WordOfNum(rest);
    if a[0] {
      assert (Num(a) - 1) / 2 == Num(rest);
    } else {
      assert Num(a) - 1 == 2 * (Num(rest) - 1) + 1;
      assert (Num(a) - 1) / 2 == Num(rest) - 1;
    }
  }

  lemma PowerIs(n: nat, b: bool)
    ensures var m := (if b then 1 else 0) + 2 * n; IsPower(m) <==> if b then n == 0 else IsPower(n)
  {
    OneIsPower();
    var m := (if b then 1 else 0) + 2 * n;
    if IsPower(m) {
      var k: nat :| Pow2(k) == m;
      if k > 0 {
        assert m == 2 * Pow2(k - 1);
      }
    }
    if !b && IsPower(n) {
      TwicePower(n);
    }
  }

  /** The test finds the powers of two, and zero. */
  lemma {:induction false} IsPow2Exactly(a: Word)
    ensures IsPow2(a) <==> Num(a) == 0 || IsPower(Num(a))
  {
    if Num(a) == 0 {
      NoneIsZero(a);
      NoneIsZero(And(a, MinusOne(a)));
    } else {
      var rest := a[1..];
      MinusOneBits(a);
      PowerIs(Num(rest), a[0]);
      if a[0] {
        assert And(a, MinusOne(a)) == [false] + rest;
      } else {
        IsPow2Exactly(rest);
        assert And(a, MinusOne(a)) == [false] + And(rest, MinusOne(rest));
      }
    }
  }
}
