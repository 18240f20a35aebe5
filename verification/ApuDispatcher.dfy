/** The APU dispatcher (rtl/cv32e40p_apu_disp.sv): up to two outstanding operations of an auxiliary processing unit,
    their destination registers, and the hazards they raise. */
module ApuLogic {
  import opened Sequences

  /** The two-bit latency class of an operation. */
  type Latency = n: nat | n < 4

  datatype Regs = Regs(
    validInflight: bool,
    validWaiting: bool,
    addrInflight: nat,
    addrWaiting: nat,
    apuLat: Latency)

  /** A register number on a read or write port of the decoding instruction. */
  datatype Port = Port(reg: nat, valid: bool)

  datatype In = In(
    enable: bool,
    lat: Latency,
    waddr: nat,
    decoding: bool,
    readRegs: seq<Port>,
    writeRegs: seq<Port>,
    gnt: bool,
    rvalid: bool)

  const RESET := Regs(false, false, 0, 0, 0)

  // ---------------------------------------------------------------- combinational logic

  predicate Active(g: Regs) {
    g.validInflight || g.validWaiting
  }

  predicate StallFull(g: Regs) {
    g.validInflight && g.validWaiting
  }

  predicate StallType(g: Regs, i: In) {
    i.enable && Active(g) && (i.lat == 1 || (i.lat == 2 && g.apuLat == 3) || i.lat == 3)
  }

  predicate ValidReq(g: Regs, i: In) {
    i.enable && !(StallFull(g) || StallType(g, i))
  }

  predicate ReqAccepted(g: Regs, i: In) {
    ValidReq(g, i) && i.gnt
  }

  predicate StallNack(g: Regs, i: In) {
    ValidReq(g, i) && !i.gnt
  }

  predicate Stall(g: Regs, i: In) {
    StallFull(g) || StallType(g, i) || StallNack(g, i)
  }

  predicate ReturnedReq(g: Regs, i: In) {
    ValidReq(g, i) && i.rvalid && !g.validInflight && !g.validWaiting
  }

  predicate ReturnedInflight(g: Regs, i: In) {
    g.validInflight && i.rvalid && !g.validWaiting
  }

  predicate ReturnedWaiting(g: Regs, i: In) {
    g.validWaiting && i.rvalid
  }

  /** The in-flight and waiting registers after the edge. */
  function NextRegs(g: Regs, i: In): Regs {
    var lat := if ValidReq(g, i) then i.lat else g.apuLat;
    if ReqAccepted(g, i) && !ReturnedReq(g, i) then
      var shift := (g.validInflight && !ReturnedInflight(g, i)) || ReturnedWaiting(g, i);
      Regs(true, if shift then true else g.validWaiting, i.waddr, if shift then g.addrInflight else g.addrWaiting, lat)
    else if ReturnedInflight(g, i) then
      Regs(false, false, 0, 0, lat)
    else if ReturnedWaiting(g, i) then
      Regs(g.validInflight, false, g.addrInflight, 0, lat)
    else
      g.(apuLat := lat)
  }

  /** `apu_waddr_o`. */
  function WriteAddress(g: Regs, i: In): nat {
    if ReturnedWaiting(g, i) then g.addrWaiting
    else if ReturnedInflight(g, i) then g.addrInflight
    else if ReturnedReq(g, i) then i.waddr
    else 0
  }

  /** A valid port names the register. */
  predicate Hits(ports: seq<Port>, reg: nat) {
    exists k :: 0 <= k < |ports| && ports[k].valid && ports[k].reg == reg
  }

  /** The dependency signal for a group of ports; `read_dep_o` and `write_dep_o` are this for their ports. */
  predicate Dependency(g: Regs, i: In, ports: seq<Port>) {
    && i.decoding
    && (|| (Hits(ports, i.waddr) && ValidReq(g, i) && !ReturnedReq(g, i))
        || (Hits(ports, g.addrInflight) && g.validInflight && !ReturnedInflight(g, i))
        || (Hits(ports, g.addrWaiting) && g.validWaiting && !ReturnedWaiting(g, i)))
  }

  /** `read_dep_for_jalr_o`, which does not wait for the response. */
  predicate JalrDependency(g: Regs, i: In) {
    && i.decoding
    && (|| (Hits(i.readRegs, i.waddr) && i.enable)
        || (Hits(i.readRegs, g.addrInflight) && g.validInflight)
        || (Hits(i.readRegs, g.addrWaiting) && g.validWaiting))
  }

  // ---------------------------------------------------------------- the queue of outstanding destinations

  predicate Valid(g: Regs) {
    g.validWaiting ==> g.validInflight
  }

  /** Oldest first: the waiting entry is the older one. */
  function Outstanding(g: Regs): seq<nat> {
    (if g.validWaiting then [g.addrWaiting] else []) + (if g.validInflight then [g.addrInflight] else [])
  }

  /** A response takes the oldest entry, if there is one. */
  function Respond(q: seq<nat>, rvalid: bool): seq<nat> {
    if rvalid && q != [] then q[1..] else q
  }

  function Request(g: Regs, i: In): seq<nat> {
    if ValidReq(g, i) then [i.waddr] else []
  }

  function Accept(g: Regs, i: In): seq<nat> {
    if ReqAccepted(g, i) then [i.waddr] else []
  }

  /** The registers are a first-in, first-out queue of at most two destinations. */
  lemma RegistersAreQueue(g: Regs, i: In)
    requires Valid(g)
    ensures Valid(NextRegs(g, i))
    ensures Outstanding(NextRegs(g, i)) == Respond(Outstanding(g) + Accept(g, i), i.rvalid)
    ensures |Outstanding(g)| <= 2
  {
  }

  /** The branch that refills the waiting entry while it returns cannot be taken: a full queue accepts nothing. */
  lemma RefillIsUnreachable(g: Regs, i: In)
    requires Valid(g)
    ensures !(ReqAccepted(g, i) && !ReturnedReq(g, i) && ReturnedWaiting(g, i))
  {
  }

  /** A response is written to the oldest outstanding destination, or to the request of the same cycle. */
  lemma ResponseGoesToOldest(g: Regs, i: In)
    requires Valid(g) && i.rvalid && (ValidReq(g, i) || Active(g))
    ensures WriteAddress(g, i) == (Outstanding(g) + Request(g, i))[0]
  {
  }

  /** Without an operation to answer there is no write address. */
  lemma NoResponseNoAddress(g: Regs, i: In)
    requires Valid(g) && (i.rvalid ==> Outstanding(g) + Request(g, i) == [])
    ensures WriteAddress(g, i) == 0
  {
  }

  // ---------------------------------------------------------------- requests and stalls

  /** An operation of class `lat` may be requested: always when none is outstanding; beside one of class `last` only
      with class 0, or class 2 when that one is not of class 3; and never beside two. */
  predicate MayIssue(outstanding: nat, last: Latency, lat: Latency) {
    match outstanding
    case 0 => true
    case 1 => lat == 0 || (lat == 2 && last <= 2)
    case _ => false
  }

  lemma RequestIff(g: Regs, i: In)
    requires Valid(g)
    ensures ValidReq(g, i) <==> i.enable && MayIssue(|Outstanding(g)|, g.apuLat, i.lat)
  {
  }

  /** The pipeline is held exactly while an enabled operation is not accepted or two operations are outstanding; while
      it is held nothing is accepted. */
  lemma StallIff(g: Regs, i: In)
    requires Valid(g)
    ensures i.enable ==> (Stall(g, i) <==> Accept(g, i) == [])
    ensures !i.enable ==> (Stall(g, i) <==> |Outstanding(g)| == 2)
    ensures Stall(g, i) ==> Accept(g, i) == []
  {
  }

  // ---------------------------------------------------------------- hazards

  /** Destinations not written back by the end of the cycle, with the request on offer. */
  function Pending(g: Regs, i: In): seq<nat> {
    Respond(Outstanding(g) + Request(g, i), i.rvalid)
  }

  /** A valid port names one of the registers. */
  predicate Overlaps(ports: seq<Port>, regs: seq<nat>) {
    exists j, k :: 0 <= j < |ports| && 0 <= k < |regs| && ports[j].valid && ports[j].reg == regs[k]
  }

  lemma OverlapsHits(ports: seq<Port>, regs: seq<nat>)
    ensures Overlaps(ports, regs) <==> exists k :: 0 <= k < |regs| && Hits(ports, regs[k])
  {
  }

  /** The dependency is raised exactly when a valid port names a destination that is still pending. */
  lemma DependencyIsExact(g: Regs, i: In, ports: seq<Port>)
    requires Valid(g)
    ensures Dependency(g, i, ports) <==> i.decoding && Overlaps(ports, Pending(g, i))
  {
    var p := Pending(g, i);
    OverlapsHits(ports, p);
    if |p| > 0 { assert Hits(ports, p[0]) ==> Overlaps(ports, p); }
    if |p| > 1 { assert Hits(ports, p[1]) ==> Overlaps(ports, p); }
  }

  /** Without a dependency no register of the decoding instruction is outstanding in the next cycle. */
  lemma NoHazard(g: Regs, i: In, ports: seq<Port>)
    requires Valid(g) && i.decoding && !Dependency(g, i, ports)
    ensures !Overlaps(ports, Outstanding(NextRegs(g, i)))
  {
    DependencyIsExact(g, i, ports);
    RegistersAreQueue(g, i);
    var n, p := Outstanding(NextRegs(g, i)), Pending(g, i);
    assert n <= p;
    assert forall k :: 0 <= k < |n| ==> n[k] == p[k];
  }

  /** The jalr dependency does not wait for grants or responses: a valid read port names an outstanding destination or
      that of the operation in hand. */
  lemma JalrIsExact(g: Regs, i: In)
    requires Valid(g)
    ensures JalrDependency(g, i)
            <==> i.decoding && Overlaps(i.readRegs, Outstanding(g) + if i.enable then [i.waddr] else [])
  {
    var p := Outstanding(g) + if i.enable then [i.waddr] else [];
    OverlapsHits(i.readRegs, p);
    if |p| > 0 { assert Hits(i.readRegs, p[0]) ==> Overlaps(i.readRegs, p); }
    if |p| > 1 { assert Hits(i.readRegs, p[1]) ==> Overlaps(i.readRegs, p); }
    if |p| > 2 { assert Hits(i.readRegs, p[2]) ==> Overlaps(i.readRegs, p); }
  }

  lemma JalrIsConservative(g: Regs, i: In)
    requires Dependency(g, i, i.readRegs)
    ensures JalrDependency(g, i)
  {
  }

  // ---------------------------------------------------------------- whole runs

  function RegsAfter(g: Regs, ins: seq<In>): Regs
    decreases |ins|
  {
    if ins == [] then g else RegsAfter(NextRegs(g, ins[0]), ins[1..])
  }

  /** Destinations accepted in a run, and destinations written back, in order. */
  function Accepts(g: Regs, ins: seq<In>): seq<nat>
    decreases |ins|
  {
    if ins == [] then [] else Accept(g, ins[0]) + Accepts(NextRegs(g, ins[0]), ins[1..])
  }

  function Written(g: Regs, i: In): seq<nat> {
    if i.rvalid then [WriteAddress(g, i)] else []
  }

  function WriteBacks(g: Regs, ins: seq<In>): seq<nat>
    decreases |ins|
  {
    if ins == [] then [] else Written(g, ins[0]) + WriteBacks(NextRegs(g, ins[0]), ins[1..])
  }

  /** A response answers an operation that is outstanding or accepted in the same cycle. */
  predicate AnswersOnly(g: Regs, ins: seq<In>)
    decreases |ins|
  {
    ins != [] ==>
      (ins[0].rvalid ==> Active(g) || ReqAccepted(g, ins[0])) && AnswersOnly(NextRegs(g, ins[0]), ins[1..])
  }

  /** Every accepted destination is written back exactly once, in the order of acceptance. */
  lemma {:induction false} WriteBacksInOrder(g: Regs, ins: seq<In>)
    requires Valid(g) && AnswersOnly(g, ins)
    ensures Outstanding(g) + Accepts(g, ins) == WriteBacks(g, ins) + Outstanding(RegsAfter(g, ins))
    decreases |ins|
  {
    if ins != [] {
      var i, g' := ins[0], NextRegs(g, ins[0]);
      RegistersAreQueue(g, i);
      if i.rvalid {
        ResponseGoesToOldest(g, i);
      }
      WriteBacksInOrder(g', ins[1..]);
      Regroup(Outstanding(g), Accept(g, i), Accepts(g', ins[1..]), Written(g, i), Outstanding(g'),
              WriteBacks(g', ins[1..]), Outstanding(RegsAfter(g', ins[1..])));
    }
  }

  /** The module's own assertion: a response comes only with an operation outstanding or requested, granted or not. */
  predicate Asserted(g: Regs, ins: seq<In>)
    decreases |ins|
  {
    ins != [] ==>
      (ins[0].rvalid ==> Active(g) || ValidReq(g, ins[0])) && Asserted(NextRegs(g, ins[0]), ins[1..])
  }

  /** Requests answered without a grant: written back, but not accepted. */
  function Ungranted(g: Regs, ins: seq<In>): nat
    decreases |ins|
  {
    if ins == [] then 0
    else
      (if ins[0].rvalid && !Active(g) && !ReqAccepted(g, ins[0]) then 1 else 0)
      + Ungranted(NextRegs(g, ins[0]), ins[1..])
  }

  lemma {:induction false} UngrantedCounts(g: Regs, ins: seq<In>)
    requires Valid(g) && Asserted(g, ins)
    ensures |Outstanding(g)| + |Accepts(g, ins)| + Ungranted(g, ins)
            == |WriteBacks(g, ins)| + |Outstanding(RegsAfter(g, ins))|
    ensures Ungranted(g, ins) == 0 <==> AnswersOnly(g, ins)
    decreases |ins|
  {
    if ins != [] {
      RegistersAreQueue(g, ins[0]);
      UngrantedCounts(NextRegs(g, ins[0]), ins[1..]);
    }
  }

  /** Given the module's assertion, write-backs match acceptances exactly when no request is answered without a grant:
      such an answer is written back although nothing has been accepted. */
  lemma {:induction false} WriteBacksInOrderIff(g: Regs, ins: seq<In>)
    requires Valid(g) && Asserted(g, ins)
    ensures Outstanding(g) + Accepts(g, ins) == WriteBacks(g, ins) + Outstanding(RegsAfter(g, ins))
            <==> AnswersOnly(g, ins)
  {
    UngrantedCounts(g, ins);
    if AnswersOnly(g, ins) {
      WriteBacksInOrder(g, ins);
    } else {
      assert |Outstanding(g) + Accepts(g, ins)| != |WriteBacks(g, ins) + Outstanding(RegsAfter(g, ins))|;
    }
  }

  /** Such an answer: a request of class 3 for register 5, answered in a cycle without a grant. */
  lemma UngrantedAnswerExample()
    ensures var ins := [In(true, 3, 5, false, [], [], false, true)];
            && Asserted(RESET, ins) && !AnswersOnly(RESET, ins)
            && Accepts(RESET, ins) == [] && WriteBacks(RESET, ins) == [5]
  {
  }

  // ---------------------------------------------------------------- latency classes: no overtaking

  /** An accepted operation and the number of cycles since. */
  datatype Op = Op(addr: nat, cls: nat, age: nat)

  /** Class 1 completes in its accept cycle, class 2 one cycle later, class 3 any two or more cycles later, at a time
      of the unit's choosing. */
  predicate IsDue(op: Op, unitDone: bool) {
    || (op.cls == 1 && op.age == 0)
    || (op.cls == 2 && op.age == 1)
    || (op.cls == 3 && op.age >= 2 && unitDone)
  }

  function Due(ops: seq<Op>, unitDone: bool): seq<Op> {
    if ops == [] then []
    else (if IsDue(ops[0], unitDone) then [ops[0]] else []) + Due(ops[1..], unitDone)
  }

  /** What remains, one cycle older. */
  function Remaining(ops: seq<Op>, unitDone: bool): seq<Op> {
    if ops == [] then []
    else (if IsDue(ops[0], unitDone) then [] else [ops[0].(age := ops[0].age + 1)]) + Remaining(ops[1..], unitDone)
  }

  function AcceptedOps(g: Regs, i: In): seq<Op> {
    if ReqAccepted(g, i) then [Op(i.waddr, i.lat, 0)] else []
  }

  /** The unit answers when and only when an operation is due. */
  predicate UnitAnswers(ops: seq<Op>, g: Regs, i: In, unitDone: bool) {
    && (i.enable ==> 1 <= i.lat <= 3)
    && (i.rvalid <==> Due(ops + AcceptedOps(g, i), unitDone) != [])
  }

  /** At most one operation is in progress, it is the one in flight, and the stored latency is its class. */
  predicate InOrder(ops: seq<Op>, g: Regs) {
    && !g.validWaiting && |ops| <= 1 && (g.validInflight <==> ops != [])
    && (ops != [] ==>
          && ops[0].addr == g.addrInflight && ops[0].cls == g.apuLat
          && ((ops[0].cls == 2 && ops[0].age == 1) || (ops[0].cls == 3 && ops[0].age >= 1)))
  }

  lemma DueOfOne(op: Op, d: bool)
    ensures Due([op], d) == (if IsDue(op, d) then [op] else [])
    ensures Remaining([op], d) == (if IsDue(op, d) then [] else [op.(age := op.age + 1)])
  {
  }

  lemma DueOfTwo(op: Op, op': Op, d: bool)
    ensures Due([op] + [op'], d) == (if IsDue(op, d) then [op] else []) + (if IsDue(op', d) then [op'] else [])
    ensures Remaining([op] + [op'], d) == (if IsDue(op, d) then [] else [op.(age := op.age + 1)])
                                          + (if IsDue(op', d) then [] else [op'.(age := op'.age + 1)])
  {
    assert ([op] + [op'])[0] == op && ([op] + [op'])[1..] == [op'];
    DueOfOne(op', d);
  }

  /** In every cycle at most one operation is due, its destination is the one written, it was the oldest, and the
      waiting entry stays unused. */
  lemma CycleKeepsOrder(ops: seq<Op>, g: Regs, i: In, unitDone: bool)
    requires InOrder(ops, g) && UnitAnswers(ops, g, i, unitDone)
    ensures var all := ops + AcceptedOps(g, i);
            && |Due(all, unitDone)| <= 1
            && all == Due(all, unitDone) + all[|Due(all, unitDone)|..]
            && (Due(all, unitDone) != [] ==> WriteAddress(g, i) == Due(all, unitDone)[0].addr)
            && InOrder(Remaining(all, unitDone), NextRegs(g, i))
  {
    var all := ops + AcceptedOps(g, i);
    if ops == [] {
      if ReqAccepted(g, i) {
        assert all == [Op(i.waddr, i.lat, 0)];
        DueOfOne(all[0], unitDone);
      }
    } else if ReqAccepted(g, i) {
      assert all == [ops[0]] + [Op(i.waddr, i.lat, 0)];
      DueOfTwo(ops[0], Op(i.waddr, i.lat, 0), unitDone);
    } else {
      assert all == [ops[0]];
      DueOfOne(ops[0], unitDone);
    }
  }

  predicate UnitRun(ops: seq<Op>, g: Regs, ins: seq<In>, unitDone: seq<bool>)
    requires |ins| == |unitDone|
    decreases |ins|
  {
    ins != [] ==>
      && UnitAnswers(ops, g, ins[0], unitDone[0])
      && UnitRun(Remaining(ops + AcceptedOps(g, ins[0]), unitDone[0]), NextRegs(g, ins[0]), ins[1..], unitDone[1..])
  }

  /** In a run with fixed latency classes the second register is never used, so no more than one operation is ever
      outstanding, and what comes back comes back in the order of acceptance. */
  lemma {:induction false} NoOvertaking(ops: seq<Op>, g: Regs, ins: seq<In>, unitDone: seq<bool>)
    requires |ins| == |unitDone| && InOrder(ops, g) && UnitRun(ops, g, ins, unitDone)
    ensures !RegsAfter(g, ins).validWaiting && AnswersOnly(g, ins)
    ensures Outstanding(g) + Accepts(g, ins) == WriteBacks(g, ins) + Outstanding(RegsAfter(g, ins))
    decreases |ins|
  {
    if ins != [] {
      CycleKeepsOrder(ops, g, ins[0], unitDone[0]);
      NoOvertaking(Remaining(ops + AcceptedOps(g, ins[0]), unitDone[0]), NextRegs(g, ins[0]), ins[1..], unitDone[1..]);
    }
    WriteBacksInOrder(g, ins);
  }
}

module ApuDispatcher {
  import opened ApuLogic

  datatype Out = Out(waddr: nat, req: bool, stall: bool, readDep: bool, writeDep: bool, readDepForJalr: bool,
                     active: bool)

  class ApuDispatcher {
    var validInflight: bool
    var validWaiting: bool
    var addrInflight: nat
    var addrWaiting: nat
    var apuLat: Latency

    function Registers(): Regs
      reads this
    {
      Regs(validInflight, validWaiting, addrInflight, addrWaiting, apuLat)
    }

    /** Reset. */
    constructor ()
      ensures Registers() == RESET && Valid(Registers()) && Outstanding(Registers()) == []
    {
      validInflight, validWaiting, addrInflight, addrWaiting, apuLat := false, false, 0, 0, 0;
    }

    /** One clock cycle. */
    method Step(i: In) returns (o: Out)
      requires Valid(Registers())
      modifies this
      ensures Valid(Registers()) && Registers() == NextRegs(old(Registers()), i)
      ensures Outstanding(Registers()) ==
              Respond(old(Outstanding(Registers())) + (if o.req && i.gnt then [i.waddr] else []), i.rvalid)
      ensures o.active <==> old(Outstanding(Registers())) != []
      ensures o.req <==> i.enable && MayIssue(|old(Outstanding(Registers()))|, old(apuLat), i.lat)
      ensures apuLat == if o.req then i.lat else old(apuLat)
      ensures i.enable ==> (o.stall <==> !(o.req && i.gnt))
      ensures !i.enable ==> (o.stall <==> |old(Outstanding(Registers()))| == 2)
      ensures i.rvalid && (o.req || o.active) ==>
                o.waddr == (old(Outstanding(Registers())) + (if o.req then [i.waddr] else []))[0]
      ensures !i.rvalid || !(o.req || o.active) ==> o.waddr == 0
      ensures i.decoding && !o.readDep ==> !Overlaps(i.readRegs, Outstanding(Registers()))
      ensures i.decoding && !o.writeDep ==> !Overlaps(i.writeRegs, Outstanding(Registers()))
      ensures var pending := Respond(old(Outstanding(Registers())) + (if o.req then [i.waddr] else []), i.rvalid);
              && (o.readDep <==> i.decoding && Overlaps(i.readRegs, pending))
              && (o.writeDep <==> i.decoding && Overlaps(i.writeRegs, pending))
      ensures o.readDepForJalr <==>
                i.decoding && old(Overlaps(i.readRegs, Outstanding(Registers()) + if i.enable then [i.waddr] else []))
    {
      var g := Registers();
      RegistersAreQueue(g, i);
      if i.rvalid && (ValidReq(g, i) || Active(g)) {
        ResponseGoesToOldest(g, i);
      } else {
        NoResponseNoAddress(g, i);
      }
      o := Out(WriteAddress(g, i), ValidReq(g, i), Stall(g, i), Dependency(g, i, i.readRegs),
               Dependency(g, i, i.writeRegs), JalrDependency(g, i), Active(g));
      RequestIff(g, i);
      StallIff(g, i);
      DependencyIsExact(g, i, i.readRegs);
      DependencyIsExact(g, i, i.writeRegs);
      JalrIsExact(g, i);
      if i.decoding && !o.readDep {
        NoHazard(g, i, i.readRegs);
      }
      if i.decoding && !o.writeDep {
        NoHazard(g, i, i.writeRegs);
      }

      // next state of the in-flight and waiting registers
      var reqAccepted, returnedReq := ReqAccepted(g, i), ReturnedReq(g, i);
      var returnedInflight, returnedWaiting := ReturnedInflight(g, i), ReturnedWaiting(g, i);
      if ValidReq(g, i) {
        apuLat := i.lat;
      }
      if reqAccepted && !returnedReq {
        if (g.validInflight && !returnedInflight) || returnedWaiting {
          validWaiting, addrWaiting := true, addrInflight;
        }
        validInflight, addrInflight := true, i.waddr;
      } else if returnedInflight {
        validInflight, validWaiting, addrInflight, addrWaiting := false, false, 0, 0;
      } else if returnedWaiting {
        validWaiting, addrWaiting := false, 0;
      }
    }
  }
}
