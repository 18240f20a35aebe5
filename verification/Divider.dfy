/** The serial divider (rtl/cv32e40p_alu_div.sv) fed by the ALU's normalisation. The registers refine long division
    on magnitudes: the view of the machine is a job, the number of steps to go, the quotient collected so far and
    the remaining dividend. */
module Divider {
  import opened Words
  import opened Normaliser

  // ---------------------------------------------------------------- combinational datapath

  /** The main comparator: an unsigned comparison, inverted for a negative divisor. */
  predicate ABComp(a: nat, b: nat, compInv: bool, bIsZero: bool) {
    (a == b || ((a > b) != compInv)) && (a != 0 || bIsZero)
  }

  /** The main adder. */
  function AddOut(w: nat, plus: bool, tmp: nat, mux: nat): (r: nat)
    ensures IsWord(w, r)
  {
    if plus then (tmp + mux) % Pow2(w) else (tmp - mux) % Pow2(w)
  }

  /** The divisor register shifted right; ones come in from the left when the divisor is negative. */
  function BShift(w: nat, compInv: bool, b: nat): nat
    requires w >= 1
  {
    Place(compInv, w - 1) + b / 2
  }

  /** The quotient register: the new bit enters at the top. */
  function ResShift(w: nat, bit: bool, res: nat): nat
    requires w >= 1
  {
    Place(bit, w - 1) + res / 2
  }

  /** `Res_DO`. */
  function ResDO(w: nat, remSel: bool, resInv: bool, areg: nat, res: nat): nat {
    var out := if remSel then areg else Rev(w, res);
    if resInv then (0 - out) % Pow2(w) else out
  }

  // ---------------------------------------------------------------- long division on magnitudes

  /** One step of schoolbook division: the scaled divisor is `d` times 2^cnt. */
  function LongDivisionStep(d: nat, cnt: nat, q: nat, r: nat): (nat, nat) {
    var m := Shl(d, cnt);
    if r >= m then (2 * q + 1, r - m) else (2 * q, r)
  }

  /** What holds before the step with scale 2^cnt: the dividend is split between the quotient bits collected so far,
      at their weight, and the rest, which is below twice the scaled divisor. */
  predicate LongDivisionInvariant(w: nat, a: nat, d: nat, cnt: nat, q: nat, r: nat) {
    if d > 0 then
      var m := Shl(d, cnt);
      a == q * (2 * m) + r && r < 2 * m
    else
      cnt <= w && q == Pow2(w - cnt) - 1 && r == a
  }

  lemma DoubleWeight(q: nat, m: nat)
    ensures q * (2 * m) == (2 * q) * m
    ensures (2 * q + 1) * m == (2 * q) * m + m
  {
  }

  /** After a step the rest is below the scaled divisor itself; halving the scale restores the invariant. */
  lemma LongDivisionKeepsInvariant(w: nat, a: nat, d: nat, cnt: nat, q: nat, r: nat)
    requires LongDivisionInvariant(w, a, d, cnt, q, r)
    ensures var (q', r') := LongDivisionStep(d, cnt, q, r);
            && (d > 0 ==> a == q' * Shl(d, cnt) + r' && r' < Shl(d, cnt))
            && (cnt > 0 ==> LongDivisionInvariant(w, a, d, cnt - 1, q', r'))
            && (d == 0 ==> q' == 2 * q + 1 && r' == r)
  {
    var m := Shl(d, cnt);
    DoubleWeight(q, m);
    if d == 0 {
      ShlOne(cnt);
    }
  }

  /** The last step leaves quotient and remainder. */
  lemma LongDivisionResult(w: nat, a: nat, d: nat, q: nat, r: nat)
    requires LongDivisionInvariant(w, a, d, 0, q, r)
    ensures var (q', r') := LongDivisionStep(d, 0, q, r);
            if d > 0 then q' == a / d && r' == a % d else q' == 2 * Pow2(w) - 1 && r' == a
  {
    LongDivisionKeepsInvariant(w, a, d, 0, q, r);
    if d > 0 {
      var (q', r') := LongDivisionStep(d, 0, q, r);
      DivModUnique(a, d, q', r');
    }
  }

  // ---------------------------------------------------------------- the datapath on signed encodings

  /** The comparator decides which magnitude is larger, even when both registers hold negative numbers. */
  lemma ComparatorDecides(w: nat, neg: bool, r: nat, m: nat, bIsZero: bool)
    requires w >= 1 && Fits(w, neg, r) && Fits(w, neg, m)
    requires (m == 0 <==> bIsZero) && (neg ==> m > 0)
    ensures ABComp(Enc(w, neg, r), Enc(w, neg, m), neg, bIsZero) <==> r >= m
  {
  }

  lemma SubtractorSubtracts(w: nat, neg: bool, r: nat, m: nat)
    requires w >= 1 && Fits(w, neg, r) && Fits(w, neg, m) && m <= r
    ensures AddOut(w, false, Enc(w, neg, r), Enc(w, neg, m)) == Enc(w, neg, r - m)
  {
    var x: int := Enc(w, neg, r) - Enc(w, neg, m);
    var p := Pow2(w);
    if neg && m > 0 && r > m {
      ModAddMultiple(x, 1, p);
      SmallMod(p - (r - m), p);
    } else {
      SmallMod(Enc(w, neg, r - m), p);
      ModAddMultiple(x, 1, p);
    }
  }

  /** Halving the scale: the divisor register keeps the divisor's sign. */
  lemma DivisorHalves(w: nat, neg: bool, h: nat)
    requires w >= 1 && Fits(w, neg, 2 * h) && (neg ==> h > 0)
    ensures Fits(w, neg, h) && BShift(w, neg, Enc(w, neg, 2 * h)) == Enc(w, neg, h)
  {
  }

  lemma {:induction false} LowOfDoubleLow(w: nat, q: nat, c: nat)
    requires c <= 1
    ensures Low(w, 2 * Low(w, q) + c) == Low(w, 2 * q + c)
  {
    if w > 0 {
      LowOfOdd(w - 1, Low(w, q), c);
      LowOfOdd(w - 1, q, c);
      LowOfLow(w - 1, q);
    }
  }

  lemma LowOfOdd(v: nat, q: nat, c: nat)
    requires c <= 1
    ensures Low(v + 1, 2 * q + c) == 2 * Low(v, q) + c
  {
    var x := 2 * q + c;
    assert x % 2 == c && x / 2 == q;
  }

  lemma {:induction false} LowOfLow(v: nat, q: nat)
    ensures Low(v, Low(v + 1, q)) == Low(v, q)
  {
    if v > 0 {
      LowOfOdd(v, Low(v, q / 2), q % 2);
      LowOfOdd(v - 1, Low(v, q / 2), q % 2);
      LowOfLow(v - 1, q / 2);
    }
  }

  lemma LowAfterAppend(v: nat, odd: bool, y: nat, x: nat, c: nat)
    requires IsWord(v, y) && x == Place(odd, v) + y && c <= 1
    ensures Low(v + 1, 2 * x + c) == 2 * y + c
  {
    LowOfOdd(v, x, c);
    LowBelowTop(v, odd, y, x);
  }

  lemma RevBottomBit(v: nat, odd: bool, h: nat)
    ensures Rev(v + 1, 2 * h + Place(odd, 0)) == Place(odd, v) + Rev(v, h)
  {
    var x := 2 * h + Place(odd, 0);
    assert x % 2 == Place(odd, 0) && x / 2 == h;
  }

  lemma QuotientBitAppended(v: nat, bit: bool, odd: bool, h: nat, x: nat, c: nat)
    requires IsWord(v, h) && x == Place(odd, v) + Rev(v, h) && c == Place(bit, 0)
    ensures Rev(v + 1, Place(bit, v) + h) == Low(v + 1, 2 * x + c)
  {
    LowAfterAppend(v, odd, Rev(v, h), x, c);
    RevTopBit(v, bit, h);
  }

  /** The register collects the quotient in mirror image: a bit entering at the top is appended at the bottom of the
      reversed word. */
  lemma QuotientBitEnters(w: nat, bit: bool, res: nat, x: nat, c: nat)
    requires w >= 1 && IsWord(w, res) && x == Rev(w, res) && c == Place(bit, 0)
    ensures IsWord(w, ResShift(w, bit, res))
    ensures Rev(w, ResShift(w, bit, res)) == Low(w, 2 * x + c)
  {
    var v, h, odd := w - 1, res / 2, res % 2 == 1;
    assert x == Place(odd, v) + Rev(v, h) by {
      RevBottomBit(v, odd, h);
    }
    QuotientBitAppended(v, bit, odd, h, x, c);
  }
}
