/** How the ALU prepares a division (rtl/cv32e40p_alu.sv): it counts the leading bits of the divisor, derives the
    number of divide steps from the count, and shifts the divisor left so that its leading bit comes first. */
module Normaliser {
  import opened Words
  import opened FindFirstOne
  import opened Shifter

  /** Width of the shift count, enough to hold `w` itself: 6 bits when `w` is 32. */
  function LogWidth(w: nat): nat {
    Clog2(w + 1)
  }

  predicate Negative(w: nat, signed: bool, a: nat)
    requires w >= 1
  {
    signed && Bit(a, w - 1)
  }

  /** The size of the number an operand stands for. */
  function Magnitude(w: nat, signed: bool, a: nat): nat
    requires w >= 1 && IsWord(w, a)
  {
    if Negative(w, signed, a) then Pow2(w) - a else a
  }

  function FfInput(w: nat, signed: bool, a: nat): (f: nat)
    requires w >= 1 && IsWord(w, a)
    ensures IsWord(w, f)
  {
    if Negative(w, signed, a) then Rev(w, Not(w, a)) else Rev(w, a)
  }

  /** `clb_result`, which wraps around to all ones when the first one is at index 0. */
  function ClbResult(w: nat, first: nat): nat {
    Low(LogWidth(w), first + Pow2(LogWidth(w)) - 1)
  }

  /** `div_shift`. */
  function DivShift(w: nat, signed: bool, a: nat): nat
    requires w >= 2 && IsWord(w, a)
  {
    var ff := FfInput(w, signed, a);
    var shiftInt := if NoOnes(w, ff) then w - 1 else ClbResult(w, FirstOne(w, ff));
    Low(LogWidth(w), shiftInt + (if Negative(w, signed, a) then 0 else 1))
  }

  /** `shift_left_result` when the shifter serves the divider; there is one lane of the full width. */
  function ShiftedDivisor(w: nat, signed: bool, a: nat): nat
    requires w >= 2 && IsWord(w, a)
  {
    ShiftLeftResult(w, 1, a, DivShift(w, signed, a))
  }

  /** The word for a number of size `m` whose sign is already known. */
  function Enc(w: nat, neg: bool, m: nat): nat
    requires m <= Pow2(w)
  {
    if neg && m > 0 then Pow2(w) - m else m
  }

  /** The sizes that `Enc` represents faithfully for a given sign. */
  predicate Fits(w: nat, neg: bool, m: nat)
    requires w >= 1
  {
    if neg then m <= Pow2(w - 1) else m < Pow2(w)
  }

  // ---------------------------------------------------------------- the shift count

  lemma MirrorClearBit(w: nat, x: nat, r: nat, n: nat, i: nat)
    requires r == Rev(w, x) && NoBitBelow(r, n) && i < w && w - 1 - i < n
    ensures !Bit(x, i)
  {
    RevBit(w, x, w - 1 - i);
  }

  lemma MirrorBound(w: nat, x: nat, r: nat, n: nat)
    requires IsWord(w, x) && r == Rev(w, x) && NoBitBelow(r, n) && n <= w
    ensures x < Pow2(w - n)
  {
    forall i: nat | w - n <= i < w
      ensures !Bit(x, i)
    {
      MirrorClearBit(w, x, r, n, i);
    }
    ClearBitsBound(w, x, w - n);
  }

  lemma MirrorFirstBit(w: nat, x: nat, r: nat, f: nat)
    requires IsWord(w, x) && r == Rev(w, x) && f < w && Bit(r, f) && NoBitBelow(r, f)
    ensures Pow2(w - 1 - f) <= x < Pow2(w - f)
  {
    MirrorSetBit(w, x, r, f, w - 1 - f);
    MirrorBound(w, x, r, f);
  }

  lemma MirrorSetBit(w: nat, x: nat, r: nat, f: nat, i: nat)
    requires r == Rev(w, x) && f < w && Bit(r, f) && i == w - 1 - f
    ensures Pow2(i) <= x
  {
    RevBit(w, x, f);
    SetBitBound(x, i);
  }

  /** What the two outputs of the tree, `none` and `f`, say about the mirror image says this about the word. */
  lemma MirrorOutputs(w: nat, x: nat, r: nat, none: bool, f: nat)
    requires IsWord(w, x) && r == Rev(w, x) && (none <==> NoBitBelow(r, w))
    requires !none ==> f < w && Bit(r, f) && NoBitBelow(r, f)
    ensures none <==> x == 0
    ensures x > 0 ==> f < w && Pow2(w - 1 - f) <= x < Pow2(w - f)
  {
    if none {
      MirrorBound(w, x, r, w);
    } else {
      MirrorFirstBit(w, x, r, f);
    }
  }

  /** Leading bits by find-first-one on the mirror image. */
  lemma LeadingZeros(w: nat, x: nat, r: nat)
    requires w >= 2 && IsWord(w, x) && r == Rev(w, x)
    ensures NoOnes(w, r) <==> x == 0
    ensures x > 0 ==> FirstOne(w, r) < w && Pow2(w - 1 - FirstOne(w, r)) <= x < Pow2(w - FirstOne(w, r))
  {
    TreeIsLinearScan(w, r);
    MirrorOutputs(w, x, r, NoOnes(w, r), FirstOne(w, r));
  }

  lemma LowOfWrapped(k: nat, x: nat, r: nat)
    requires IsWord(k, r) && x == r + Pow2(k)
    ensures Low(k, x) == r
  {
    ShlOne(k);
    LowAddMultiple(k, r, 1);
    LowOfWord(k, r);
  }

  lemma ClbWraps(w: nat, first: nat, k: nat, clb: nat)
    requires w >= 2 && first < w && k == LogWidth(w) && clb == ClbResult(w, first)
    ensures clb == if first == 0 then Pow2(k) - 1 else first - 1
    ensures Low(k, clb + 1) == first
    ensures first > 0 ==> Low(k, clb) == first - 1
  {
    if first == 0 {
      LowOfWord(k, Pow2(k) - 1);
      LowOfWrapped(k, Pow2(k), 0);
    } else {
      LowOfWrapped(k, first + Pow2(k) - 1, first - 1);
      LowOfWord(k, first);
      LowOfWord(k, first - 1);
    }
  }

  lemma ScaledRange(x: nat, e: nat, k: nat)
    requires Pow2(e) <= x < Pow2(e + 1)
    ensures Pow2(e + k) <= Shl(x, k) < Pow2(e + k + 1)
  {
    ShlOne(e);
    ShlOne(e + 1);
    ShlShl(1, e, k);
    ShlShl(1, e + 1, k);
    ShlOne(e + k);
    ShlOne(e + k + 1);
    ShlMonotone(Pow2(e), x, k);
    ShlMonotone(x, Pow2(e + 1), k);
  }

  /** A negative divisor of size `c + 1`, whose complement `c` has `f` leading zeros. */
  lemma NegativeShift(w: nat, c: nat, f: nat)
    requires w >= 2 && 1 <= f < w && Pow2(w - 1 - f) <= c < Pow2(w - f)
    ensures Pow2(w - 2) < Shl(c + 1, f - 1) <= Pow2(w - 1)
  {
    NegativeShiftBy(w, c, w - 1 - f, f - 1);
  }

  lemma NegativeShiftBy(w: nat, c: nat, e: nat, k: nat)
    requires w >= 2 && e + k == w - 2 && Pow2(e) <= c < Pow2(e + 1)
    ensures Pow2(w - 2) < Shl(c + 1, k) <= Pow2(w - 1)
  {
    ScaledRange(c, e, k);
    ShlMonotone(c, c + 1, k);
    ShlMonotone(c + 1, Pow2(e + 1), k);
    PowerShift(e + 1, k);
  }

  /** The shift count from the outputs of the tree. */
  lemma DivShiftFrom(w: nat, signed: bool, a: nat, none: bool, f: nat, k: nat, clb: nat)
    requires w >= 2 && IsWord(w, a) && k == LogWidth(w) && clb == ClbResult(w, f)
    requires none == NoOnes(w, FfInput(w, signed, a)) && f == FirstOne(w, FfInput(w, signed, a))
    ensures DivShift(w, signed, a)
            == Low(k, (if none then w - 1 else clb) + (if Negative(w, signed, a) then 0 else 1))
  {
  }

  lemma DivShiftOfPositive(w: nat, signed: bool, a: nat, f: nat)
    requires w >= 2 && IsWord(w, a) && !Negative(w, signed, a) && f == FirstOne(w, Rev(w, a))
    ensures if a == 0 then DivShift(w, signed, a) == w
            else f < w && DivShift(w, signed, a) == f && Pow2(w - 1 - f) <= a < Pow2(w - f)
  {
    var k, clb := LogWidth(w), ClbResult(w, f);
    LeadingZeros(w, a, Rev(w, a));
    DivShiftFrom(w, signed, a, a == 0, f, k, clb);
    if a == 0 {
      LowOfWord(k, w);
    } else {
      ClbWraps(w, f, k, clb);
    }
  }

  lemma DivShiftOfNegative(w: nat, a: nat, c: nat, f: nat)
    requires w >= 2 && IsWord(w, a) && Negative(w, true, a) && c == Not(w, a) && f == FirstOne(w, Rev(w, c))
    ensures c < Pow2(w - 1)
    ensures if c == 0 then DivShift(w, true, a) == w - 1
            else 1 <= f < w && DivShift(w, true, a) == f - 1 && Pow2(w - 1 - f) <= c < Pow2(w - f)
  {
    var k, clb := LogWidth(w), ClbResult(w, f);
    TopBitIsSign(w, a);
    LeadingZeros(w, c, Rev(w, c));
    DivShiftFrom(w, true, a, c == 0, f, k, clb);
    if c == 0 {
      LowOfWord(k, w - 1);
    } else {
      if f == 0 {
        assert false;
      }
      ClbWraps(w, f, k, clb);
    }
  }

  lemma NegativeShiftCount(w: nat, signed: bool, a: nat, c: nat, s: nat)
    requires w >= 2 && IsWord(w, a) && Negative(w, signed, a) && c == Not(w, a) && s == DivShift(w, signed, a)
    ensures a > 0 && s < w && Pow2(w - 2) < Shl(c + 1, s) <= Pow2(w - 1)
  {
    TopBitIsSign(w, a);
    var f := FirstOne(w, Rev(w, c));
    DivShiftOfNegative(w, a, c, f);
    if c == 0 {
      ShlOne(w - 1);
      Pow2Monotone(w - 2, w - 1);
    } else {
      NegativeShift(w, c, f);
    }
  }

  lemma PositiveShiftCount(w: nat, signed: bool, a: nat, s: nat)
    requires w >= 2 && IsWord(w, a) && !Negative(w, signed, a) && s == DivShift(w, signed, a)
    ensures if a == 0 then s == w else s < w && Pow2(w - 1) <= Shl(a, s) < Pow2(w)
  {
    var f := FirstOne(w, Rev(w, a));
    DivShiftOfPositive(w, signed, a, f);
    if a > 0 {
      ScaledRange(a, w - 1 - f, f);
    }
  }

  /** What the number of steps is: for a zero divisor the full width, otherwise the number of leading zeros of the
      divisor (of its complement, less one, when it is negative). */
  lemma ShiftCount(w: nat, signed: bool, a: nat)
    requires w >= 2 && IsWord(w, a)
    ensures var s := DivShift(w, signed, a);
            var d := Magnitude(w, signed, a);
            if a == 0 then s == w
            else if Negative(w, signed, a) then s < w && Pow2(w - 2) < Shl(d, s) <= Pow2(w - 1)
            else s < w && Pow2(w - 1) <= Shl(d, s) < Pow2(w)
  {
    if Negative(w, signed, a) {
      NegativeShiftCount(w, signed, a, Not(w, a), DivShift(w, signed, a));
    } else {
      PositiveShiftCount(w, signed, a, DivShift(w, signed, a));
    }
  }

  lemma PositiveShifted(w: nat, a: nat, s: nat)
    requires IsWord(w, Shl(a, s))
    ensures Times2(w, a, s) == Shl(a, s)
  {
    ShlIsMul(a, s);
    SmallMod(Shl(a, s), Pow2(w));
  }

  lemma MulDiff(q: int, d: int, p: int)
    ensures (q - d) * p == (q - d * p) + (p - 1) * q
  {
  }

  lemma NegativeShifted(w: nat, d: nat, s: nat)
    requires 0 < d <= Pow2(w) && 0 < Shl(d, s) <= Pow2(w)
    ensures Times2(w, Pow2(w) - d, s) == Pow2(w) - Shl(d, s)
  {
    ShlIsMul(d, s);
    var p, q, m := Pow2(s), Pow2(w), Shl(d, s);
    MulDiff(q, d, p);
    ModAddMultiple(q - m, p - 1, q);
    SmallMod(q - m, q);
  }

  lemma AmountOfShift(w: nat, s: nat)
    requires w >= 2 && s < w
    ensures Amount(w, Low(w, s)) == s
  {
    Pow2AboveExponent(w);
    LowOfWord(w, s);
    LowOfWord(Clog2(w), s);
  }

  /** The divider receives the divisor times 2^s exactly, sign included: no bit is lost by the shift. */
  lemma DivisorIsNormalised(w: nat, signed: bool, a: nat)
    requires w >= 2 && IsWord(w, a)
    ensures var neg := Negative(w, signed, a);
            var m := Shl(Magnitude(w, signed, a), DivShift(w, signed, a));
            Fits(w, neg, m) && ShiftedDivisor(w, signed, a) == Enc(w, neg, m)
  {
    var s := DivShift(w, signed, a);
    var d := Magnitude(w, signed, a);
    ShiftCount(w, signed, a);
    LeftShiftWhole(w, a, s);
    if a == 0 {
      TopBitIsSign(w, a);
      ShlOne(s);
      ShlOne(Amount(w, Low(w, s)));
      PositiveShifted(w, 0, Amount(w, Low(w, s)));
    } else {
      AmountOfShift(w, s);
      if Negative(w, signed, a) {
        NegativeShifted(w, d, s);
      } else {
        PositiveShifted(w, a, s);
      }
    }
  }

  /** A word with its top bit set has no leading zeros. */
  lemma TopBitHasNoZeros(w: nat, x: nat, f: nat)
    requires w >= 2 && Pow2(w - 1) <= x < Pow2(w) && f == FirstOne(w, Rev(w, x))
    ensures f == 0
  {
    LeadingZeros(w, x, Rev(w, x));
    if f > 0 {
      Pow2Monotone(w - f, w - 1);
    }
  }

  lemma ExponentBetween(s: nat, w: nat)
    requires w >= 2 && Pow2(w - 2) < Pow2(s) && s < w
    ensures s == w - 1
  {
    if s < w - 1 {
      Pow2Monotone(s, w - 2);
    }
  }

  /** The word for -1 as a divisor of a signed operation gets the largest shift but one. */
  lemma AllOnesShift(w: nat, x: nat)
    requires w >= 2 && x == Pow2(w) - 1
    ensures DivShift(w, true, x) == w - 1
  {
    var s := DivShift(w, true, x);
    AllOnesAreNegative(w, x);
    ShiftCount(w, true, x);
    ShlOne(s);
    ExponentBetween(s, w);
  }

  lemma AllOnesAreNegative(w: nat, x: nat)
    requires w >= 2 && x == Pow2(w) - 1
    ensures x != 0 && Negative(w, true, x) && Magnitude(w, true, x) == 1
  {
    TopBitIsSign(w, x);
  }
}
