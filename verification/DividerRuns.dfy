/** Whole runs of the divider: back-to-back divisions under arbitrary stalls of the consumer. */
module DividerTrace {
  import opened Words
  import opened FindFirstOne
  import opened Normaliser
  import opened DivisionSpec
  import opened DivisionResult
  import opened DividerRegisters
  import opened Sequences

  /** The environment's part: operands fit, and while the machine divides the divisor operand does not become or
      cease to be zero. Everything else may change in every cycle. */
  predicate StableRun(w: nat, v: View, ins: seq<In>)
    requires ViewOk(w, v)
    decreases |ins|
  {
    ins != [] ==>
      InFits(w, ins[0]) && Stable(v, ins[0]) && StableRun(w, NextView(w, v, ins[0]), ins[1..])
  }

  function ViewAfter(w: nat, v: View, ins: seq<In>): (v': View)
    requires ViewOk(w, v) && StableRun(w, v, ins)
    ensures ViewOk(w, v')
    decreases |ins|
  {
    if ins == [] then v else ViewAfter(w, NextView(w, v, ins[0]), ins[1..])
  }

  /** The request the machine loads in a cycle, if any. */
  function Loads(v: View, i: In): seq<Job> {
    if v.Idle? && i.divValid then [JobOf(i)] else []
  }

  /** The job whose result the consumer takes in a cycle, if any. */
  function Completes(v: View, i: In): seq<Job> {
    if v.Finished? && i.exReady then [v.job] else []
  }

  function InProgress(v: View): seq<Job> {
    if v.Idle? then [] else [v.job]
  }

  function Requests(w: nat, v: View, ins: seq<In>): seq<Job>
    requires ViewOk(w, v) && StableRun(w, v, ins)
    decreases |ins|
  {
    if ins == [] then [] else Loads(v, ins[0]) + Requests(w, NextView(w, v, ins[0]), ins[1..])
  }

  function Completions(w: nat, v: View, ins: seq<In>): seq<Job>
    requires ViewOk(w, v) && StableRun(w, v, ins)
    decreases |ins|
  {
    if ins == [] then [] else Completes(v, ins[0]) + Completions(w, NextView(w, v, ins[0]), ins[1..])
  }

  lemma CycleConserves(w: nat, v: View, i: In)
    requires ViewOk(w, v) && InFits(w, i)
    ensures InProgress(v) + Loads(v, i) == Completes(v, i) + InProgress(NextView(w, v, i))
  {
  }

  /** No request is lost, repeated or reordered; at most one is in progress. */
  lemma {:induction false} RequestsComplete(w: nat, v: View, ins: seq<In>)
    requires ViewOk(w, v) && StableRun(w, v, ins)
    ensures InProgress(v) + Requests(w, v, ins) == Completions(w, v, ins) + InProgress(ViewAfter(w, v, ins))
    decreases |ins|
  {
    if ins != [] {
      var v' := NextView(w, v, ins[0]);
      CycleConserves(w, v, ins[0]);
      RequestsComplete(w, v', ins[1..]);
      Regroup(InProgress(v), Loads(v, ins[0]), Requests(w, v', ins[1..]), Completes(v, ins[0]), InProgress(v'),
              Completions(w, v', ins[1..]), InProgress(ViewAfter(w, v', ins[1..])));
    }
  }

  // ---------------------------------------------------------------- latency

  /** From the load cycle on, `cnt` more divide steps and one more cycle pass, whatever the inputs do. */
  lemma {:induction false} DividesFor(w: nat, v: View, later: seq<In>)
    requires v.Dividing? && ViewOk(w, v) && StableRun(w, v, later)
    ensures |later| <= v.cnt ==> ViewAfter(w, v, later).Dividing?
    ensures |later| == v.cnt + 1 ==> ViewAfter(w, v, later) == Finished(v.job)
    decreases |later|
  {
    if later != [] {
      var v' := NextView(w, v, later[0]);
      if v.cnt > 0 {
        DividesFor(w, v', later[1..]);
      } else {
        assert v' == Finished(v.job);
        assert |later| == 1 ==> ViewAfter(w, v', later[1..]) == v';
      }
    }
  }

  /** The result waits, unchanged, for as long as it is not taken. */
  lemma {:induction false} ResultWaits(w: nat, job: Job, later: seq<In>)
    requires JobFits(w, job) && StableRun(w, Finished(job), later)
    requires forall k :: 0 <= k < |later| ==> !later[k].exReady
    ensures ViewAfter(w, Finished(job), later) == Finished(job)
    decreases |later|
  {
    if later != [] {
      ResultWaits(w, job, later[1..]);
    }
  }

  /** FINISH is reached exactly `Steps + 2` cycles after the load cycle, and not a cycle earlier. */
  lemma {:induction false} Latency(w: nat, load: In, later: seq<In>)
    requires InFits(w, load) && load.divValid
    requires StableRun(w, Idle, [load] + later)
    ensures var n := Steps(w, JobOf(load));
            var v := ViewAfter(w, Idle, [load] + later);
            && (|later| <= n ==> v.Dividing?)
            && (|later| == n + 1 ==> v == Finished(JobOf(load)))
  {
    assert ([load] + later)[1..] == later;
    LoadedIsOk(w, JobOf(load));
    DividesFor(w, Loaded(w, JobOf(load)), later);
  }

  lemma {:induction false} ShlAtLeastDouble(d: nat, s: nat)
    requires s > 0
    ensures Shl(d, s) >= 2 * d
  {
    if s > 1 {
      ShlAtLeastDouble(d, s - 1);
    }
  }

  /** Counting load and finish, a division takes `Steps + 3` cycles. The longest is a division by zero, and only
      that one takes all of `w + 3`; the shortest takes three, for a divisor with no redundant leading bit. */
  lemma StepsRange(w: nat, job: Job)
    requires JobFits(w, job)
    ensures Steps(w, job) <= w
    ensures Steps(w, job) == w <==> job.divisor == 0
    ensures Steps(w, job) == 0 <==>
            if DivisorNegative(w, job) then DivisorSize(w, job) > Pow2(w - 2) else DivisorSize(w, job) >= Pow2(w - 1)
  {
    var s, d := Steps(w, job), DivisorSize(w, job);
    ShiftCount(w, job.op.signed, job.divisor);
    TopBitIsSign(w, job.divisor);
    if s > 0 {
      ShlAtLeastDouble(d, s);
    }
  }

  /** The documentation counts leading zeros of the divisor. They are the number of steps exactly when the divisor is
      not negative, or is negative with no sign bit to spare. */
  lemma StepsCountZerosIff(w: nat, job: Job, zeros: nat)
    requires JobFits(w, job)
    requires zeros == if job.divisor == 0 then w else FirstOne(w, Rev(w, job.divisor))
    ensures Steps(w, job) == zeros <==> !DivisorNegative(w, job) || DivisorSize(w, job) > Pow2(w - 2)
  {
    if DivisorNegative(w, job) {
      TopBitIsSign(w, job.divisor);
      TopBitHasNoZeros(w, job.divisor, zeros);
      StepsRange(w, job);
    } else {
      DivShiftOfPositive(w, job.op.signed, job.divisor, FirstOne(w, Rev(w, job.divisor)));
    }
  }

  /** The documentation counts leading zeros of the divisor, of which -1 has none. A signed division by -1 nevertheless
      takes all but one of the steps: it is the leading ones of a negative divisor that cost time. */
  lemma MinusOneTakesLong(w: nat, job: Job, first: nat)
    requires JobFits(w, job) && job.op.signed && job.divisor == Pow2(w) - 1
    requires first == FirstOne(w, Rev(w, job.divisor))
    ensures first == 0 && Steps(w, job) == w - 1
  {
    TopBitHasNoZeros(w, job.divisor, first);
    AllOnesShift(w, job.divisor);
  }
}

/** The clocked divider over whole runs. */
module DividerRuns {
  import opened DivisionSpec
  import opened DivisionResult
  import opened DividerRegisters
  import opened DividerTrace
  import opened AluDiv

  predicate Answers(w: nat, jobs: seq<Job>, taken: seq<nat>) {
    && |jobs| == |taken|
    && forall k :: 0 <= k < |jobs| ==> JobFits(w, jobs[k]) && taken[k] == Expected(w, jobs[k])
  }

  /** One cycle as an observer at the ports sees it. */
  method Cycle(d: AluDiv, i: In) returns (loads: seq<Job>, results: seq<nat>)
    requires d.Valid() && InFits(d.w, i) && Stable(d.view, i)
    modifies d
    ensures d.Valid() && d.view == NextView(d.w, old(d.view), i)
    ensures loads == Loads(old(d.view), i)
    ensures Answers(d.w, Completes(old(d.view), i), results)
  {
    loads := if d.state == IDLE && i.divValid then [JobOf(i)] else [];
    var finish := d.state == FINISH;
    var outVld, res := d.Step(i);
    results := if finish && i.exReady then [res] else [];
  }

  lemma AnswersExtend(w: nat, done: seq<Job>, taken: seq<nat>, c: seq<Job>, r: seq<nat>)
    requires Answers(w, done, taken) && Answers(w, c, r)
    ensures Answers(w, done + c, taken + r)
  {
  }

  /** The machine over the remaining cycles of a run. */
  method Continue(d: AluDiv, ins: seq<In>) returns (loaded: seq<Job>, taken: seq<nat>)
    requires d.Valid() && StableRun(d.w, d.view, ins)
    modifies d
    ensures loaded == Requests(d.w, old(d.view), ins)
    ensures Answers(d.w, Completions(d.w, old(d.view), ins), taken)
    decreases |ins|
  {
    loaded, taken := [], [];
    if ins != [] {
      ghost var v := d.view;
      var loads, results := Cycle(d, ins[0]);
      ghost var done := Completions(d.w, d.view, ins[1..]);
      var l, t := Continue(d, ins[1..]);
      AnswersExtend(d.w, Completes(v, ins[0]), results, done, t);
      loaded, taken := loads + l, results + t;
    }
  }

  lemma {:induction false} CompletedFirst(w: nat, ins: seq<In>, loaded: seq<Job>, completed: seq<Job>)
    requires StableRun(w, Idle, ins)
    requires loaded == Requests(w, Idle, ins) && completed == Completions(w, Idle, ins)
    ensures |completed| <= |loaded| <= |completed| + 1 && loaded[..|completed|] == completed
  {
    RequestsComplete(w, Idle, ins);
    assert InProgress(Idle) + loaded == loaded;
  }

  /** Run the machine from reset: the k-th result taken is the prescribed result of the k-th request loaded. */
  method Run(w: nat, ins: seq<In>) returns (loaded: seq<Job>, taken: seq<nat>)
    requires w >= 2 && StableRun(w, Idle, ins)
    ensures loaded == Requests(w, Idle, ins)
    ensures |taken| <= |loaded| <= |taken| + 1
    ensures forall k :: 0 <= k < |taken| ==> JobFits(w, loaded[k]) && taken[k] == Expected(w, loaded[k])
  {
    var d := new AluDiv(w);
    loaded, taken := Continue(d, ins);
    CompletedFirst(w, ins, loaded, Completions(w, Idle, ins));
  }
}
