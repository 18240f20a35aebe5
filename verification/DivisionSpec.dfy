/** What DIV, DIVU, REM and REMU must return: section 7.2 of the RISC-V Unprivileged ISA (20191213). */
module DivisionSpec {
  import opened Words

  /** The two low operator bits: bit 0 selects the signed forms, bit 1 the remainder. */
  datatype Opcode = Opcode(signed: bool, rem: bool)

  /** A division request: `dividend` is operand b of the ALU and `divisor` is operand a. */
  datatype Job = Job(op: Opcode, dividend: nat, divisor: nat)

  function Abs(x: int): nat {
    if x < 0 then -x else x
  }

  /** Signed quotient, rounded towards zero. */
  function TruncDiv(a: int, b: int): int
    requires b != 0
  {
    var q := Abs(a) / Abs(b);
    if (a < 0) == (b < 0) then q else -q
  }

  /** Signed remainder, with the sign of the dividend. */
  function TruncRem(a: int, b: int): int
    requires b != 0
  {
    var r := Abs(a) % Abs(b);
    if a < 0 then -r else r
  }

  /** The result the manual's text and its table of special cases prescribe. */
  function Expected(w: nat, job: Job): nat
    requires w >= 1 && IsWord(w, job.dividend) && IsWord(w, job.divisor)
  {
    var Job(op, x, y) := job;
    if y == 0 then
      if op.rem then x else Pow2(w) - 1
    else if !op.signed then
      if op.rem then x % y else x / y
    else
      var a, b := Signed(w, x), Signed(w, y);
      if a == 0 - Pow2(w - 1) && b == -1 then
        if op.rem then 0 else x
      else
        ToWord(w, if op.rem then TruncRem(a, b) else TruncDiv(a, b))
  }

  /** `q` and `r` divide `a` by `b` with rounding towards zero. */
  predicate DividesTowardsZero(a: int, b: int, q: int, r: int) {
    a == q * b + r && Abs(r) < Abs(b) && (r != 0 ==> (r < 0 <==> a < 0))
  }

  lemma MulSigns(x: int, y: int)
    ensures (-x) * y == -(x * y) == x * (-y)
    ensures (-x) * (-y) == x * y
  {
  }

  lemma SignOfQuotient(a: int, b: int, q: int, r: int)
    requires b != 0 && DividesTowardsZero(a, b, q, r) && q != 0
    ensures (q < 0) <==> ((a < 0) != (b < 0))
  {
    MulSigns(q, b);
    if q > 0 && b > 0 {
      MulAtLeast(q, b);
    } else if q > 0 {
      MulAtLeast(q, -b);
    } else if b > 0 {
      MulAtLeast(-q, b);
    } else {
      MulAtLeast(-q, -b);
    }
  }

  lemma TruncationDivides(a: int, b: int)
    requires b != 0
    ensures DividesTowardsZero(a, b, TruncDiv(a, b), TruncRem(a, b))
  {
    var n := Abs(b);
    var q, r := Abs(a) / n, Abs(a) % n;
    assert Abs(a) == q * n + r;
    MulSigns(q, n);
    MulSigns(q, b);
  }

  lemma TruncationUnique(a: int, b: int, q: int, r: int)
    requires b != 0 && DividesTowardsZero(a, b, q, r)
    ensures q == TruncDiv(a, b) && r == TruncRem(a, b)
  {
    if q != 0 {
      SignOfQuotient(a, b, q, r);
    }
    MulSigns(q, b);
    assert Abs(a) == Abs(q) * Abs(b) + Abs(r);
    DivModUnique(Abs(a), Abs(b), Abs(q), Abs(r));
  }

  /** Rounding towards zero determines quotient and remainder, and `TruncDiv` and `TruncRem` are those two. */
  lemma TruncationIsTheDivision(a: int, b: int, q: int, r: int)
    requires b != 0
    ensures DividesTowardsZero(a, b, q, r) <==> q == TruncDiv(a, b) && r == TruncRem(a, b)
  {
    TruncationDivides(a, b);
    if DividesTowardsZero(a, b, q, r) {
      TruncationUnique(a, b, q, r);
    }
  }
}
