/** The registers of the divider (rtl/cv32e40p_alu_div.sv inside rtl/cv32e40p_alu.sv) and what they take at a clock
    edge. They hold two's complement numbers and a mirrored quotient; the view is long division on magnitudes, and
    `Represents` says how the one stands for the other. */
module DividerRegisters {
  import opened Words
  import opened Normaliser
  import opened DivisionSpec
  import opened Divider
  import opened DivisionResult
  import opened PopCount

  /** What the ALU presents in one cycle; `divValid` is the gated enable. */
  datatype In = In(divValid: bool, op: Opcode, operandA: nat, operandB: nat, exReady: bool)

  datatype State = IDLE | DIVIDE | FINISH

  /** The machine seen as long division: steps to go, quotient so far, what is left of the dividend. */
  datatype View =
    | Idle
    | Dividing(job: Job, cnt: nat, quot: nat, rest: nat)
    | Finished(job: Job)

  /** The registers of the divider. */
  datatype Regs = Regs(state: State, areg: nat, breg: nat, resreg: nat, cnt: nat,
                       remSel: bool, compInv: bool, resInv: bool)

  predicate InFits(w: nat, i: In) {
    w >= 2 && IsWord(w, i.operandA) && IsWord(w, i.operandB)
  }

  /** The operands are exchanged on the way in. */
  function JobOf(i: In): Job {
    Job(i.op, i.operandB, i.operandA)
  }

  /** The divide steps after the first. */
  function Steps(w: nat, job: Job): nat
    requires JobFits(w, job)
  {
    DivShift(w, job.op.signed, job.divisor)
  }

  function Loaded(w: nat, job: Job): View
    requires JobFits(w, job)
  {
    Dividing(job, Steps(w, job), 0, DividendSize(w, job))
  }

  predicate ViewOk(w: nat, v: View) {
    match v
    case Idle => true
    case Finished(job) => JobFits(w, job)
    case Dividing(job, cnt, q, r) =>
      JobFits(w, job) &&
      var neg, d := DivisorNegative(w, job), DivisorSize(w, job);
      && (d == 0 <==> job.divisor == 0) && (neg ==> d > 0)
      && LongDivisionInvariant(w, DividendSize(w, job), d, cnt, q, r)
      && Fits(w, neg, Shl(d, cnt)) && Fits(w, neg, r)
  }

  /** The divisor's zero test is taken from the operand while the machine is busy, so it must not change. */
  predicate Stable(v: View, i: In) {
    v.Dividing? ==> (i.operandA == 0 <==> v.job.divisor == 0)
  }

  function NextView(w: nat, v: View, i: In): (v': View)
    requires ViewOk(w, v) && InFits(w, i)
    ensures ViewOk(w, v')
  {
    match v
    case Idle =>
      if i.divValid then LoadedIsOk(w, JobOf(i)); Loaded(w, JobOf(i)) else Idle
    case Dividing(job, cnt, q, r) =>
      if cnt == 0 then Finished(job)
      else
        var (q', r') := LongDivisionStep(DivisorSize(w, job), cnt, q, r);
        StepIsOk(w, job, cnt, q, r);
        Dividing(job, cnt - 1, q', r')
    case Finished(_) => if i.exReady then Idle else v
  }

  lemma LoadedIsOk(w: nat, job: Job)
    requires JobFits(w, job)
    ensures ViewOk(w, Loaded(w, job))
  {
    var s, a, d := Steps(w, job), DividendSize(w, job), DivisorSize(w, job);
    ShiftCount(w, job.op.signed, job.divisor);
    DivisorIsNormalised(w, job.op.signed, job.divisor);
    DividendIsLoaded(w, job);
    TopBitIsSign(w, job.divisor);
    ShlOne(s);
    if d > 0 {
      assert a < 2 * Shl(d, s);
      assert a == 0 * (2 * Shl(d, s)) + a;
    }
  }

  lemma StepIsOk(w: nat, job: Job, cnt: nat, q: nat, r: nat)
    requires cnt > 0 && ViewOk(w, Dividing(job, cnt, q, r))
    ensures var (q', r') := LongDivisionStep(DivisorSize(w, job), cnt, q, r);
            ViewOk(w, Dividing(job, cnt - 1, q', r'))
  {
    LongDivisionKeepsInvariant(w, DividendSize(w, job), DivisorSize(w, job), cnt, q, r);
  }

  /** The outputs of the state machine. */
  datatype Control = Control(next: State, outVld: bool, loadEn: bool, aRegEn: bool, bRegEn: bool, resRegEn: bool)

  /** `p_fsm`. */
  function Fsm(g: Regs, i: In, abComp: bool): Control {
    match g.state
    case IDLE =>
      if i.divValid then Control(DIVIDE, false, true, true, true, false)
      else Control(IDLE, true, false, false, false, false)
    case DIVIDE =>
      Control(if g.cnt == 0 then FINISH else DIVIDE, false, false, abComp, true, true)
    case FINISH =>
      Control(if i.exReady then IDLE else FINISH, true, false, false, false, false)
  }

  /** The comparator sees the divisor's zero test of this cycle. */
  predicate AbComp(w: nat, g: Regs, i: In)
    requires InFits(w, i)
  {
    ABComp(g.areg, g.breg, g.compInv, Ones(w, i.operandA) == 0)
  }

  /** The multiplexers around the adder and in front of the registers: what every register takes at the edge. */
  function NextRegs(w: nat, g: Regs, i: In): Regs
    requires InFits(w, i)
  {
    var abComp := AbComp(w, g, i);
    var c := Fsm(g, i, abComp);
    var opBSign := Negative(w, i.op.signed, i.operandA);
    var signsDiffer := Bit(i.operandB, w - 1) != opBSign;
    var pmSel := c.loadEn && !(i.op.signed && signsDiffer);
    var addMux := if c.loadEn then i.operandB else g.breg;
    var addTmp := if c.loadEn then 0 else g.areg;
    var bMux := if c.loadEn then ShiftedDivisor(w, i.op.signed, i.operandA) else BShift(w, g.compInv, g.breg);
    Regs(
      c.next,
      if c.aRegEn then AddOut(w, pmSel, addTmp, addMux) else g.areg,
      if c.bRegEn then bMux else g.breg,
      if c.loadEn then 0 else if c.resRegEn then ResShift(w, abComp, g.resreg) else g.resreg,
      if c.loadEn then DivShift(w, i.op.signed, i.operandA) else if g.cnt != 0 then g.cnt - 1 else g.cnt,
      if c.loadEn then i.op.rem else g.remSel,
      if c.loadEn then opBSign else g.compInv,
      if c.loadEn then (Ones(w, i.operandA) != 0 || i.op.rem) && i.op.signed && signsDiffer else g.resInv)
  }

  /** How the registers stand for a view. */
  predicate Represents(w: nat, g: Regs, v: View) {
    && ViewOk(w, v) && w >= 2 && IsWord(w, g.resreg)
    && match v
       case Idle => g.state == IDLE
       case Finished(job) =>
         && g.state == FINISH && g.remSel == job.op.rem && g.resInv == ResInvAtLoad(w, job)
         && g.areg == Enc(w, DivisorNegative(w, job), Remainder(w, job))
         && Rev(w, g.resreg) == Low(w, Quotient(w, job))
       case Dividing(job, c, q, r) =>
         var neg := DivisorNegative(w, job);
         && g.state == DIVIDE && g.cnt == c
         && g.remSel == job.op.rem && g.compInv == neg && g.resInv == ResInvAtLoad(w, job)
         && g.breg == Enc(w, neg, Shl(DivisorSize(w, job), c))
         && g.areg == Enc(w, neg, r)
         && Rev(w, g.resreg) == Low(w, q)
  }

  // ---------------------------------------------------------------- one step of the registers

  lemma {:induction false} ZeroWord(w: nat)
    ensures Rev(w, 0) == 0 && Low(w, 0) == 0
  {
    if w > 0 {
      ZeroWord(w - 1);
    }
  }

  lemma LoadRefines(w: nat, g: Regs, i: In)
    requires InFits(w, i) && i.divValid && Represents(w, g, Idle)
    ensures Represents(w, NextRegs(w, g, i), NextView(w, Idle, i))
  {
    ZeroOnlyOfZero(w, i.operandA);
    DivisorIsNormalised(w, i.op.signed, i.operandA);
    DividendIsLoaded(w, JobOf(i));
    ZeroWord(w);
  }

  /** The new bit, the new rest and the new quotient of a divide step, in the registers. */
  lemma DivideRefines(w: nat, job: Job, cnt: nat, q: nat, r: nat, res: nat)
    requires ViewOk(w, Dividing(job, cnt, q, r)) && IsWord(w, res) && Rev(w, res) == Low(w, q)
    ensures var neg, m := DivisorNegative(w, job), Shl(DivisorSize(w, job), cnt);
            var (q', r') := LongDivisionStep(DivisorSize(w, job), cnt, q, r);
            var bit := ABComp(Enc(w, neg, r), Enc(w, neg, m), neg, job.divisor == 0);
            && Fits(w, neg, r')
            && Enc(w, neg, r') == (if bit then AddOut(w, false, Enc(w, neg, r), Enc(w, neg, m)) else Enc(w, neg, r))
            && IsWord(w, ResShift(w, bit, res)) && Rev(w, ResShift(w, bit, res)) == Low(w, q')
  {
    var neg, m := DivisorNegative(w, job), Shl(DivisorSize(w, job), cnt);
    ShlOne(cnt);
    ShlMonotone(0, DivisorSize(w, job), cnt);
    ComparatorDecides(w, neg, r, m, job.divisor == 0);
    if r >= m {
      SubtractorSubtracts(w, neg, r, m);
    }
    var c := Place(r >= m, 0);
    QuotientBitEnters(w, r >= m, res, Rev(w, res), c);
    LowOfDoubleLow(w, q, c);
  }

  lemma ScaleHalves(w: nat, job: Job, cnt: nat, q: nat, r: nat)
    requires cnt > 0 && ViewOk(w, Dividing(job, cnt, q, r))
    ensures var neg, d := DivisorNegative(w, job), DivisorSize(w, job);
            BShift(w, neg, Enc(w, neg, Shl(d, cnt))) == Enc(w, neg, Shl(d, cnt - 1))
  {
    var neg, d := DivisorNegative(w, job), DivisorSize(w, job);
    ShlMonotone(0, d, cnt - 1);
    DivisorHalves(w, neg, Shl(d, cnt - 1));
  }

  /** The last step leaves quotient and remainder of the magnitudes. */
  lemma LastStep(w: nat, job: Job, q: nat, r: nat)
    requires ViewOk(w, Dividing(job, 0, q, r))
    ensures LongDivisionStep(DivisorSize(w, job), 0, q, r) == (Quotient(w, job), Remainder(w, job))
  {
    LongDivisionResult(w, DividendSize(w, job), DivisorSize(w, job), q, r);
  }

  lemma InnerStepRefines(w: nat, g: Regs, v: View, i: In)
    requires InFits(w, i) && v.Dividing? && v.cnt > 0 && Represents(w, g, v) && Stable(v, i)
    ensures Represents(w, NextRegs(w, g, i), NextView(w, v, i))
  {
    ZeroOnlyOfZero(w, i.operandA);
    DivideRefines(w, v.job, v.cnt, v.quot, v.rest, g.resreg);
    ScaleHalves(w, v.job, v.cnt, v.quot, v.rest);
  }

  lemma LastStepRefines(w: nat, g: Regs, v: View, i: In)
    requires InFits(w, i) && v.Dividing? && v.cnt == 0 && Represents(w, g, v) && Stable(v, i)
    ensures Represents(w, NextRegs(w, g, i), NextView(w, v, i))
  {
    ZeroOnlyOfZero(w, i.operandA);
    DivideRefines(w, v.job, 0, v.quot, v.rest, g.resreg);
    LastStep(w, v.job, v.quot, v.rest);
  }

  /** Every clock edge takes the registers for a view to the registers for the next view. */
  lemma StepRefines(w: nat, g: Regs, v: View, i: In)
    requires InFits(w, i) && Represents(w, g, v) && Stable(v, i)
    ensures Represents(w, NextRegs(w, g, i), NextView(w, v, i))
  {
    match v {
      case Idle =>
        if i.divValid {
          LoadRefines(w, g, i);
        }
      case Dividing(_, cnt, _, _) =>
        if cnt > 0 {
          InnerStepRefines(w, g, v, i);
        } else {
          LastStepRefines(w, g, v, i);
        }
      case Finished(_) =>
    }
  }

  /** `OutVld_SO` in terms of the view: low from the load cycle until the result is there. */
  predicate Ready(v: View, i: In) {
    v.Finished? || (v.Idle? && !i.divValid)
  }

  lemma OutputsRefine(w: nat, g: Regs, v: View, i: In)
    requires InFits(w, i) && Represents(w, g, v)
    ensures Fsm(g, i, AbComp(w, g, i)).outVld <==> Ready(v, i)
    ensures v.Finished? ==> ResDO(w, g.remSel, g.resInv, g.areg, g.resreg) == Expected(w, v.job)
  {
    if v.Finished? {
      OutputIsExpected(w, v.job, Quotient(w, v.job), Remainder(w, v.job));
    }
  }
}
