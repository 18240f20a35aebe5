/** Loading the dividend and reading the result (rtl/cv32e40p_alu_div.sv): the sign rules around long division. */
module DivisionResult {
  import opened Words
  import opened Normaliser
  import opened DivisionSpec
  import opened Divider

  /** `OpBSign_SI`: the divisor is a negative number. */
  predicate DivisorNegative(w: nat, job: Job)
    requires w >= 1
  {
    Negative(w, job.op.signed, job.divisor)
  }

  /** The adder adds the dividend to zero, or subtracts it when its sign differs from the divisor's. */
  predicate PmSelAtLoad(w: nat, job: Job)
    requires w >= 1
  {
    !(job.op.signed && Bit(job.dividend, w - 1) != DivisorNegative(w, job))
  }

  /** `ResInv_SN` at load. */
  predicate ResInvAtLoad(w: nat, job: Job)
    requires w >= 1
  {
    (job.divisor != 0 || job.op.rem) && job.op.signed && Bit(job.dividend, w - 1) != DivisorNegative(w, job)
  }

  predicate JobFits(w: nat, job: Job) {
    w >= 2 && IsWord(w, job.dividend) && IsWord(w, job.divisor)
  }

  function DividendSize(w: nat, job: Job): nat
    requires JobFits(w, job)
  {
    Magnitude(w, job.op.signed, job.dividend)
  }

  function DivisorSize(w: nat, job: Job): nat
    requires JobFits(w, job)
  {
    Magnitude(w, job.op.signed, job.divisor)
  }

  lemma NegateWord(w: nat, x: nat)
    requires x <= Pow2(w)
    ensures (0 - x) % Pow2(w) == if 0 < x < Pow2(w) then Pow2(w) - x else 0
  {
    var p := Pow2(w);
    if 0 < x < p {
      ModAddMultiple(0 - x, 1, p);
      SmallMod(p - x, p);
    } else {
      ModAddMultiple(0 - x, 1, p);
      SmallMod(0, p);
    }
  }

  lemma MagnitudeOfSigned(w: nat, x: nat)
    requires w >= 2 && IsWord(w, x)
    ensures Magnitude(w, true, x) == Abs(Signed(w, x)) <= Pow2(w - 1)
    ensures Bit(x, w - 1) <==> Signed(w, x) < 0
  {
    TopBitIsSign(w, x);
  }

  /** At load the dividend's size enters the remainder register under the divisor's sign. */
  lemma DividendIsLoaded(w: nat, job: Job)
    requires JobFits(w, job)
    ensures var neg, a := DivisorNegative(w, job), DividendSize(w, job);
            && Fits(w, neg, a)
            && AddOut(w, PmSelAtLoad(w, job), 0, job.dividend) == Enc(w, neg, a)
  {
    TopBitIsSign(w, job.dividend);
    NegateWord(w, job.dividend);
    SmallMod(job.dividend, Pow2(w));
  }

  // ---------------------------------------------------------------- the result multiplexer

  /** Quotient and remainder of the magnitudes. */
  function Quotient(w: nat, job: Job): nat
    requires JobFits(w, job)
  {
    var a, d := DividendSize(w, job), DivisorSize(w, job);
    if d > 0 then a / d else 2 * Pow2(w) - 1
  }

  function Remainder(w: nat, job: Job): (r: nat)
    requires JobFits(w, job)
    ensures r <= Pow2(w)
  {
    var a, d := DividendSize(w, job), DivisorSize(w, job);
    if d > 0 then QuotientBelow(a, d); a % d else a
  }

  /** What the registers hold after the last step: quotient `q`, mirrored, and remainder `r` under the divisor's
      sign. */
  predicate Divided(w: nat, job: Job, q: nat, r: nat)
    requires JobFits(w, job)
  {
    q == Quotient(w, job) && r == Remainder(w, job)
  }

  /** `Res_DO` for a quotient and a remainder register. */
  function Output(w: nat, job: Job, q: nat, r: nat): nat
    requires w >= 1
  {
    var out := if job.op.rem then r else q;
    if ResInvAtLoad(w, job) then (0 - out) % Pow2(w) else out
  }

  lemma QuotientBelow(a: nat, d: nat)
    requires d > 0
    ensures 0 <= a / d <= a && 0 <= a % d <= a && a % d < d
  {
    var q, r := a / d, a % d;
    assert a == q * d + r;
    if q > 0 {
      MulQuotient(q, d);
    }
  }

  lemma MulQuotient(q: nat, d: nat)
    requires d > 0
    ensures q <= q * d
  {
    assert q * d == q * (d - 1) + q;
  }

  lemma ZeroDivisorOutput(w: nat, job: Job, q: nat, r: nat)
    requires JobFits(w, job) && job.divisor == 0 && Divided(w, job, q, r)
    ensures Output(w, job, Low(w, q), Enc(w, DivisorNegative(w, job), r)) == Expected(w, job)
  {
    TopBitIsSign(w, 0);
    TopBitIsSign(w, job.dividend);
    NegateWord(w, r);
    ShlOne(w);
    LowAddMultiple(w, Pow2(w) - 1, 1);
    LowOfWord(w, Pow2(w) - 1);
  }

  lemma UnsignedOutput(w: nat, job: Job, q: nat, r: nat)
    requires JobFits(w, job) && job.divisor > 0 && !job.op.signed && Divided(w, job, q, r)
    ensures Output(w, job, Low(w, q), Enc(w, DivisorNegative(w, job), r)) == Expected(w, job)
  {
    QuotientBelow(job.dividend, job.divisor);
    LowOfWord(w, q);
  }

  lemma SignedQuotientOutput(w: nat, job: Job, q: nat, r: nat)
    requires JobFits(w, job) && job.divisor > 0 && job.op.signed && !job.op.rem && Divided(w, job, q, r)
    ensures Output(w, job, Low(w, q), Enc(w, DivisorNegative(w, job), r)) == Expected(w, job)
  {
    var a, d := DividendSize(w, job), DivisorSize(w, job);
    MagnitudeOfSigned(w, job.dividend);
    MagnitudeOfSigned(w, job.divisor);
    QuotientBelow(a, d);
    LowOfWord(w, q);
    SmallMod(q, Pow2(w));
    if d == 1 {
      DivModUnique(a, 1, a, 0);
    }
  }

  lemma SignedRemainderOutput(w: nat, job: Job, q: nat, r: nat)
    requires JobFits(w, job) && job.divisor > 0 && job.op.signed && job.op.rem && Divided(w, job, q, r)
    ensures Output(w, job, Low(w, q), Enc(w, DivisorNegative(w, job), r)) == Expected(w, job)
  {
    var a, d := DividendSize(w, job), DivisorSize(w, job);
    MagnitudeOfSigned(w, job.dividend);
    MagnitudeOfSigned(w, job.divisor);
    QuotientBelow(a, d);
    SmallMod(r, Pow2(w));
    NegateWord(w, r);
    NegateWord(w, Enc(w, DivisorNegative(w, job), r));
  }

  /** The value offered at the end is the one the manual prescribes, special cases included. */
  lemma OutputIsExpected(w: nat, job: Job, q: nat, r: nat)
    requires JobFits(w, job) && Divided(w, job, q, r)
    ensures r <= Pow2(w)
    ensures Output(w, job, Low(w, q), Enc(w, DivisorNegative(w, job), r)) == Expected(w, job)
  {
    TopBitIsSign(w, job.divisor);
    if job.divisor == 0 {
      ZeroDivisorOutput(w, job, q, r);
    } else {
      QuotientBelow(DividendSize(w, job), DivisorSize(w, job));
      if !job.op.signed {
        UnsignedOutput(w, job, q, r);
      } else if job.op.rem {
        SignedRemainderOutput(w, job, q, r);
      } else {
        SignedQuotientOutput(w, job, q, r);
      }
    }
  }
}
