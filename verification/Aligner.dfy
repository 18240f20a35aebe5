/** The instruction aligner (rtl/cv32e40p_aligner.sv): it recovers a stream of 16- and 32-bit instructions from
    aligned 32-bit words, under stalls, branches and hardware-loop redirects. */
module AlignerLogic {
  import opened InstructionStream

  datatype State = ALIGNED32 | MISALIGNED32 | MISALIGNED16 | BRANCH_MISALIGNED

  datatype Regs = Regs(
    state: State,
    rInstrH: bv16,
    hwlpAddrQ: Addr,
    pcQ: Addr,
    alignerReadyQ: bool,
    hwlpUpdateQ: bool)

  datatype In = In(
    fetchValid: bool,
    fetchRdata: Word,
    ifValid: bool,
    branch: bool,
    branchAddr: Addr,
    hwlpUpdate: bool,
    hwlpAddr: Addr)

  datatype Out = Out(
    pcN: Addr,
    instrValid: bool,
    instr: Word,
    alignerReady: bool,
    updateState: bool,
    nextState: State)

  /** The outputs before a branch takes precedence, by state. */
  function Decode(g: Regs, i: In): Out {
    var step := i.fetchValid && i.ifValid;
    match g.state
    case ALIGNED32 =>
      if Is32(i.fetchRdata.lo) then
        var pcN := if i.hwlpUpdate then i.hwlpAddr else if g.hwlpUpdateQ then g.hwlpAddrQ else Plus(g.pcQ, 4);
        Out(pcN, i.fetchValid, i.fetchRdata, true, step, ALIGNED32)
      else
        Out(Plus(g.pcQ, 2), i.fetchValid, i.fetchRdata, true, step, MISALIGNED32)
    case MISALIGNED32 =>
      if Is32(g.rInstrH) then
        Out(Plus(g.pcQ, 4), i.fetchValid, Word(g.rInstrH, i.fetchRdata.lo), true, step, MISALIGNED32)
      else
        Out(Plus(g.pcQ, 2), true, Word(g.rInstrH, i.fetchRdata.hi), !i.fetchValid, i.ifValid, MISALIGNED16)
    case MISALIGNED16 =>
      var held := !g.alignerReadyQ || i.fetchValid;
      if Is32(i.fetchRdata.lo) then
        Out(Plus(g.pcQ, 4), held, i.fetchRdata, true, held && i.ifValid, ALIGNED32)
      else
        Out(Plus(g.pcQ, 2), held, i.fetchRdata, true, held && i.ifValid, MISALIGNED32)
    case BRANCH_MISALIGNED =>
      if Is32(i.fetchRdata.hi) then
        Out(g.pcQ, false, i.fetchRdata, true, step, MISALIGNED32)
      else
        Out(Plus(g.pcQ, 2), i.fetchValid, Word(i.fetchRdata.hi, i.fetchRdata.hi), true, step, ALIGNED32)
  }

  function Outputs(g: Regs, i: In): Out {
    var o := Decode(g, i);
    if i.branch then
      o.(updateState := true, pcN := i.branchAddr,
         nextState := if Misaligned(i.branchAddr) then BRANCH_MISALIGNED else ALIGNED32)
    else o
  }

  function NextRegs(g: Regs, i: In): Regs {
    var o := Outputs(g, i);
    if o.updateState then
      Regs(o.nextState, i.fetchRdata.hi, g.hwlpAddrQ, o.pcN, o.alignerReady, false)
    else if i.hwlpUpdate then
      g.(hwlpAddrQ := i.hwlpAddr, hwlpUpdateQ := true)
    else g
  }

  const RESET := Regs(ALIGNED32, 0, 0, 0, false, false)

  /** An instruction enters the decode stage; a branch cycle delivers nothing. */
  predicate Delivers(g: Regs, i: In) {
    i.ifValid && Outputs(g, i).instrValid && !i.branch
  }

  /** The offered word leaves the prefetcher. */
  predicate Consumes(g: Regs, i: In) {
    i.fetchValid && Outputs(g, i).alignerReady && i.ifValid && !i.branch
  }

  // ---------------------------------------------------------------- the prefetcher's side

  function Pending(detour: Option<Addr>, i: In): Option<Addr> {
    if i.hwlpUpdate then Some(i.hwlpAddr) else detour
  }

  function NextFeed(f: Feed, g: Regs, i: In): Feed {
    var d := Pending(f.detour, i);
    if i.branch then Feed(WordBase(i.branchAddr), false, None)
    else if Consumes(g, i) then Feed(if d.Some? then d.value else Plus(f.next, 4), false, None)
    else Feed(f.next, i.fetchValid && d.None?, d)
  }

  /** What the aligner may rely on: offered words are the next of the stream and, while no loop redirect is pending,
      stay on offer; targets are halfword aligned; a loop redirect comes while a 32-bit instruction of the aligned
      stream is held, goes to a word-aligned target, and not while another is pending. */
  predicate Contract(mem: Memory, f: Feed, g: Regs, i: In) {
    && (i.fetchValid ==> i.fetchRdata == WordAt(mem, f.next))
    && (f.offered && !i.branch ==> i.fetchValid)
    && (i.branch ==> HalfwordAligned(i.branchAddr))
    && (i.hwlpUpdate ==>
          g.state == ALIGNED32 && Is32(mem(g.pcQ)) && WordAligned(i.hwlpAddr) && !g.hwlpUpdateQ)
  }

  // ---------------------------------------------------------------- refinement

  /** The inductive invariant: how state, program counter, held halfword, held word and the next word's address
      belong together at a cursor of sequential execution. */
  predicate Represents(mem: Memory, g: Regs, f: Feed, c: Cursor) {
    && c.pc == g.pcQ && c.detour == f.detour
    && g.hwlpUpdateQ == c.detour.Some?
    && (c.detour.Some? ==>
          g.state == ALIGNED32 && Is32(mem(c.pc)) && c.detour.value == g.hwlpAddrQ && WordAligned(g.hwlpAddrQ))
    && match g.state
       case ALIGNED32 => WordAligned(c.pc) && f.next == c.pc
       case MISALIGNED32 => Misaligned(c.pc) && f.next == Plus(c.pc, 2) && g.rInstrH == mem(c.pc)
       case MISALIGNED16 => WordAligned(c.pc) && f.next == c.pc && (!g.alignerReadyQ ==> f.offered)
       case BRANCH_MISALIGNED => Misaligned(c.pc) && f.next == c.pc - 2
  }

  /** The events of one cycle. */
  function Events(g: Regs, i: In): seq<Event> {
    if i.branch then [Redirect(i.branchAddr)]
    else
      (if i.hwlpUpdate then [LoopBack(i.hwlpAddr)] else [])
      + (if Delivers(g, i) then [Deliver(g.pcQ, Outputs(g, i).instr)] else [])
  }

  lemma PlusWraps(a: Addr, k: nat)
    requires k <= 6
    ensures Plus(a, k) == if a + k < ADDRESSES then a + k else a + k - ADDRESSES
    ensures Plus(a, k) % 4 == (a + k) % 4
  {
    var n, s := a + k, Plus(a, k);
    if n >= ADDRESSES {
      assert s == n - ADDRESSES;
    }
  }

  lemma Parity(a: Addr)
    ensures WordAligned(a) ==> Misaligned(Plus(a, 2)) && WordAligned(Plus(a, 4))
    ensures Misaligned(a) ==> WordAligned(Plus(a, 2)) && Misaligned(Plus(a, 4))
  {
    PlusWraps(a, 2);
    PlusWraps(a, 4);
  }

  lemma Halves(a: Addr)
    ensures Misaligned(a) ==> WordAligned(a - 2) && Plus(a - 2, 2) == a && Plus(a - 2, 4) == Plus(a, 2)
    ensures Plus(Plus(a, 2), 2) == Plus(a, 4)
    ensures Plus(Plus(a, 2), 4) == Plus(Plus(a, 4), 2)
  {
    PlusWraps(a, 2);
    PlusWraps(a, 4);
    PlusWraps(Plus(a, 2), 2);
    PlusWraps(Plus(a, 2), 4);
    PlusWraps(Plus(a, 4), 2);
    if Misaligned(a) {
      PlusWraps(a - 2, 2);
      PlusWraps(a - 2, 4);
    }
  }

  lemma TargetParity(a: Addr)
    requires HalfwordAligned(a)
    ensures if Misaligned(a) then WordBase(a) == a - 2 else WordAligned(a) && WordBase(a) == a
  {
  }

  /** Where sequential execution stands after the cycle. */
  function NextCursor(mem: Memory, c: Cursor, g: Regs, i: In): Cursor {
    var held := c.(detour := Pending(c.detour, i));
    if i.branch then Cursor(i.branchAddr, None)
    else if Delivers(g, i) then AfterDelivery(mem, held)
    else held
  }

  lemma EventsAdvance(mem: Memory, c: Cursor, g: Regs, i: In)
    requires Delivers(g, i) ==> g.pcQ == c.pc && Carries(mem, c.pc, Outputs(g, i).instr)
    ensures Follows(mem, c, Events(g, i))
    ensures CursorAfter(mem, c, Events(g, i)) == NextCursor(mem, c, g, i)
  {
    if !i.branch {
      var loops := if i.hwlpUpdate then [LoopBack(i.hwlpAddr)] else [];
      var delivers := if Delivers(g, i) then [Deliver(g.pcQ, Outputs(g, i).instr)] else [];
      var held := c.(detour := Pending(c.detour, i));
      FollowsAppend(mem, c, loops, delivers);
      assert CursorAfter(mem, c, loops) == held && Follows(mem, c, loops);
      assert CursorAfter(mem, held, delivers) == NextCursor(mem, c, g, i) && Follows(mem, held, delivers);
    } else {
      assert Events(g, i)[1..] == [];
    }
  }

  /** A branch establishes the invariant, whatever the state before it. */
  lemma BranchRefines(mem: Memory, g: Regs, f: Feed, c: Cursor, i: In)
    requires i.branch && HalfwordAligned(i.branchAddr)
    ensures Represents(mem, NextRegs(g, i), NextFeed(f, g, i), NextCursor(mem, c, g, i))
  {
    TargetParity(i.branchAddr);
  }

  lemma Aligned32Refines(mem: Memory, g: Regs, f: Feed, c: Cursor, i: In)
    requires Represents(mem, g, f, c) && Contract(mem, f, g, i) && !i.branch && g.state == ALIGNED32
    ensures Delivers(g, i) ==> Carries(mem, c.pc, Outputs(g, i).instr)
    ensures Represents(mem, NextRegs(g, i), NextFeed(f, g, i), NextCursor(mem, c, g, i))
  {
    Parity(c.pc);
    Halves(c.pc);
  }

  lemma Misaligned32Refines(mem: Memory, g: Regs, f: Feed, c: Cursor, i: In)
    requires Represents(mem, g, f, c) && Contract(mem, f, g, i) && !i.branch && g.state == MISALIGNED32
    ensures Delivers(g, i) ==> Carries(mem, c.pc, Outputs(g, i).instr)
    ensures Represents(mem, NextRegs(g, i), NextFeed(f, g, i), NextCursor(mem, c, g, i))
  {
    Parity(c.pc);
    Halves(c.pc);
  }

  lemma Misaligned16Refines(mem: Memory, g: Regs, f: Feed, c: Cursor, i: In)
    requires Represents(mem, g, f, c) && Contract(mem, f, g, i) && !i.branch && g.state == MISALIGNED16
    ensures Delivers(g, i) ==> Carries(mem, c.pc, Outputs(g, i).instr)
    ensures Represents(mem, NextRegs(g, i), NextFeed(f, g, i), NextCursor(mem, c, g, i))
  {
    Parity(c.pc);
    Halves(c.pc);
  }

  lemma BranchMisalignedRefines(mem: Memory, g: Regs, f: Feed, c: Cursor, i: In)
    requires Represents(mem, g, f, c) && Contract(mem, f, g, i) && !i.branch && g.state == BRANCH_MISALIGNED
    ensures Delivers(g, i) ==> Carries(mem, c.pc, Outputs(g, i).instr)
    ensures Represents(mem, NextRegs(g, i), NextFeed(f, g, i), NextCursor(mem, c, g, i))
  {
    Parity(c.pc);
    Halves(c.pc);
  }

  /** Every clock edge keeps the invariant, and what is delivered is the instruction at the cursor. */
  lemma StepRefines(mem: Memory, g: Regs, f: Feed, c: Cursor, i: In)
    requires Represents(mem, g, f, c) && Contract(mem, f, g, i)
    ensures Follows(mem, c, Events(g, i))
    ensures Represents(mem, NextRegs(g, i), NextFeed(f, g, i), CursorAfter(mem, c, Events(g, i)))
  {
    if i.branch {
      BranchRefines(mem, g, f, c, i);
    } else {
      match g.state {
        case ALIGNED32 => Aligned32Refines(mem, g, f, c, i);
        case MISALIGNED32 => Misaligned32Refines(mem, g, f, c, i);
        case MISALIGNED16 => Misaligned16Refines(mem, g, f, c, i);
        case BRANCH_MISALIGNED => BranchMisalignedRefines(mem, g, f, c, i);
      }
    }
    EventsAdvance(mem, c, g, i);
  }

  // ---------------------------------------------------------------- whole runs

  predicate ContractRun(mem: Memory, f: Feed, g: Regs, ins: seq<In>)
    decreases |ins|
  {
    ins != [] ==>
      Contract(mem, f, g, ins[0]) && ContractRun(mem, NextFeed(f, g, ins[0]), NextRegs(g, ins[0]), ins[1..])
  }

  /** Everything seen at the ports during a run. */
  function Log(g: Regs, ins: seq<In>): seq<Event>
    decreases |ins|
  {
    if ins == [] then [] else Events(g, ins[0]) + Log(NextRegs(g, ins[0]), ins[1..])
  }

  /** For every memory image, stall schedule and sequence of branches and loop redirects, the deliveries are those
      of sequential execution. */
  lemma {:induction false} RunFollows(mem: Memory, g: Regs, f: Feed, c: Cursor, ins: seq<In>)
    requires Represents(mem, g, f, c) && ContractRun(mem, f, g, ins)
    ensures Follows(mem, c, Log(g, ins))
    decreases |ins|
  {
    if ins != [] {
      StepRefines(mem, g, f, c, ins[0]);
      var e := Events(g, ins[0]);
      RunFollows(mem, NextRegs(g, ins[0]), NextFeed(f, g, ins[0]), CursorAfter(mem, c, e), ins[1..]);
      FollowsAppend(mem, c, e, Log(NextRegs(g, ins[0]), ins[1..]));
    }
  }

  function Deliveries(g: Regs, ins: seq<In>): nat
    decreases |ins|
  {
    if ins == [] then 0 else (if Delivers(g, ins[0]) then 1 else 0) + Deliveries(NextRegs(g, ins[0]), ins[1..])
  }

  /** The aligner keeps up: while a word is on offer and the pipeline accepts, it delivers in every cycle, except for
      one cycle after a branch into the middle of a word that holds the first half of a 32-bit instruction. */
  lemma {:induction false} DeliversEveryCycle(g: Regs, ins: seq<In>)
    requires forall k :: 0 <= k < |ins| ==> ins[k].fetchValid && ins[k].ifValid && !ins[k].branch
    ensures Deliveries(g, ins) == if ins != [] && g.state == BRANCH_MISALIGNED && Is32(ins[0].fetchRdata.hi)
                                  then |ins| - 1 else |ins|
    decreases |ins|
  {
    if ins != [] {
      DeliversEveryCycle(NextRegs(g, ins[0]), ins[1..]);
    }
  }

  // ---------------------------------------------------------------- hardware loops

  function RegsAfter(g: Regs, ins: seq<In>): Regs
    decreases |ins|
  {
    if ins == [] then g else RegsAfter(NextRegs(g, ins[0]), ins[1..])
  }

  /** No instruction leaves, no branch is taken and no further redirect comes. */
  predicate Stalled(g: Regs, ins: seq<In>)
    decreases |ins|
  {
    ins != [] ==>
      && !ins[0].branch && !ins[0].hwlpUpdate && !Outputs(g, ins[0]).updateState
      && Stalled(NextRegs(g, ins[0]), ins[1..])
  }

  lemma {:induction false} StallKeepsTarget(g: Regs, stall: seq<In>)
    requires Stalled(g, stall)
    ensures RegsAfter(g, stall) == g
    decreases |stall|
  {
    if stall != [] {
      StallKeepsTarget(g, stall[1..]);
    }
  }

  /** A target raised while a 32-bit instruction is held in the aligned state, at any point of a stall of any length,
      is the program counter right after that instruction and is then forgotten. */
  lemma LoopTargetIsApplied(g: Regs, raise: In, stall: seq<In>, go: In)
    requires g.state == ALIGNED32 && raise.hwlpUpdate && !raise.branch && !Outputs(g, raise).updateState
    requires Stalled(NextRegs(g, raise), stall)
    requires !go.branch && !go.hwlpUpdate && go.fetchValid && go.ifValid && Is32(go.fetchRdata.lo)
    ensures var held := RegsAfter(NextRegs(g, raise), stall);
            var after := NextRegs(held, go);
            && held.pcQ == g.pcQ && Delivers(held, go)
            && after.pcQ == raise.hwlpAddr && !after.hwlpUpdateQ && after.state == ALIGNED32
  {
    StallKeepsTarget(NextRegs(g, raise), stall);
  }

  /** A redirect that is pending or raised when the state is updated takes effect exactly in the aligned state with a
      32-bit instruction; anywhere else it is dropped and the program counter moves on as if it had not been there. */
  lemma LoopTargetTakenIff(g: Regs, i: In)
    requires !i.branch && Outputs(g, i).updateState && (i.hwlpUpdate || g.hwlpUpdateQ)
    ensures var target := if i.hwlpUpdate then i.hwlpAddr else g.hwlpAddrQ;
            var plain := Outputs(g.(hwlpUpdateQ := false), i.(hwlpUpdate := false)).pcN;
            && !NextRegs(g, i).hwlpUpdateQ
            && NextRegs(g, i).pcQ == (if g.state == ALIGNED32 && Is32(i.fetchRdata.lo) then target else plain)
  {
  }
}

module Aligner {
  import opened InstructionStream
  import opened AlignerLogic

  /** The aligner as a clocked machine, with the prefetcher's side of the interface and the cursor of sequential
      execution as ghosts. */
  class Aligner {
    ghost const mem: Memory

    var state: State
    var rInstrH: bv16
    var hwlpAddrQ: Addr
    var pcQ: Addr
    var alignerReadyQ: bool
    var hwlpUpdateQ: bool

    ghost var feed: Feed
    ghost var cursor: Cursor

    function Registers(): Regs
      reads this
    {
      Regs(state, rInstrH, hwlpAddrQ, pcQ, alignerReadyQ, hwlpUpdateQ)
    }

    ghost predicate Valid()
      reads this
    {
      Represents(mem, Registers(), feed, cursor)
    }

    /** Reset; the prefetcher starts as after a branch to address 0. */
    constructor (ghost mem: Memory)
      ensures Valid() && this.mem == mem && Registers() == RESET
      ensures feed == Feed(0, false, None) && cursor == Cursor(0, None)
    {
      this.mem := mem;
      state, rInstrH, hwlpAddrQ, pcQ, alignerReadyQ, hwlpUpdateQ := ALIGNED32, 0, 0, 0, false, false;
      feed, cursor := Feed(0, false, None), Cursor(0, None);
    }

    /** The clocked process. */
    method Edge(i: In)
      modifies `state, `rInstrH, `hwlpAddrQ, `pcQ, `alignerReadyQ, `hwlpUpdateQ
      ensures Registers() == NextRegs(old(Registers()), i)
    {
      var o := Outputs(Registers(), i);
      if o.updateState {
        pcQ := o.pcN;
        state := o.nextState;
        rInstrH := i.fetchRdata.hi;
        alignerReadyQ := o.alignerReady;
        hwlpUpdateQ := false;
      } else if i.hwlpUpdate {
        hwlpAddrQ := i.hwlpAddr;
        hwlpUpdateQ := true;
      }
    }

    /** One clock cycle: what the ports show in it, and the registers after the edge. */
    method Step(i: In) returns (events: seq<Event>)
      requires Valid() && Contract(mem, feed, Registers(), i)
      modifies this
      ensures Valid()
      ensures Registers() == NextRegs(old(Registers()), i)
      ensures feed == NextFeed(old(feed), old(Registers()), i)
      ensures events == Events(old(Registers()), i)
      ensures Follows(mem, old(cursor), events) && cursor == CursorAfter(mem, old(cursor), events)
    {
      ghost var g := Registers();
      StepRefines(mem, g, feed, cursor, i);
      events := Events(Registers(), i);
      Edge(i);
      feed, cursor := NextFeed(feed, g, i), CursorAfter(mem, cursor, events);
    }
  }

  /** Run the aligner from reset. */
  method Run(ghost mem: Memory, ins: seq<In>) returns (log: seq<Event>)
    requires ContractRun(mem, Feed(0, false, None), RESET, ins)
    ensures log == Log(RESET, ins)
    ensures Follows(mem, Cursor(0, None), log)
  {
    var a := new Aligner(mem);
    log := [];
    for k := 0 to |ins|
      invariant a.Valid() && fresh(a) && a.mem == mem
      invariant ContractRun(mem, a.feed, a.Registers(), ins[k..])
      invariant Log(RESET, ins) == log + Log(a.Registers(), ins[k..])
    {
      assert ins[k..][0] == ins[k] && ins[k..][1..] == ins[k + 1..];
      var events := a.Step(ins[k]);
      log := log + events;
    }
    RunFollows(mem, RESET, Feed(0, false, None), Cursor(0, None), ins);
  }
}
