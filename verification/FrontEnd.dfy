/** The instruction fetch stage (rtl/cv32e40p_if_stage.sv): prefetch controller, FIFO, OBI adapter, aligner and
    decompressor wired together, against an instruction memory behind the OBI bus. */
module FrontEndLogic {
  import opened InstructionStream
  import FifoLogic
  import AlignerLogic
  import FetchDecode
  import P = PrefetchLogic
  import O = ObiLogic

  datatype Regs = Regs(pre: P.Regs, fifo: seq<Word>, obi: O.Regs, ali: AlignerLogic.Regs)

  datatype In = In(
    req: bool,
    idReady: bool,
    haltIf: bool,
    pcSet: bool,
    branchAddr: Addr,
    jump: bool,
    jumpTarget: Addr,
    gnt: bool,
    rvalid: bool,
    rdata: Word)

  const RESET := Regs(P.RESET, [], O.RESET, AlignerLogic.RESET)

  // ---------------------------------------------------------------- wiring

  /** Branch targets have their lowest bit cleared. */
  function Target(i: In): Addr {
    i.branchAddr - i.branchAddr % 2
  }

  function PrefetchIn(g: Regs, i: In, fetchReady: bool): P.In {
    P.In(i.req, i.pcSet, Target(i), i.jump, i.jumpTarget, O.TransReady(g.obi), i.rvalid, fetchReady, |g.fifo|)
  }

  predicate FetchValid(g: Regs, i: In) {
    P.FetchValid(g.pre, PrefetchIn(g, i, false))
  }

  /** The FIFO is bypassed when it is empty. */
  function FetchRdata(g: Regs, i: In): Word {
    if g.fifo == [] then i.rdata else g.fifo[0]
  }

  predicate IfValid(g: Regs, i: In) {
    !i.haltIf && FetchValid(g, i) && i.idReady
  }

  function AlignerIn(g: Regs, i: In): AlignerLogic.In {
    AlignerLogic.In(FetchValid(g, i), FetchRdata(g, i), IfValid(g, i), i.pcSet, Target(i), i.jump, i.jumpTarget)
  }

  predicate FetchReady(g: Regs, i: In) {
    && !i.pcSet && FetchValid(g, i) && i.req && IfValid(g, i)
    && AlignerLogic.Outputs(g.ali, AlignerIn(g, i)).alignerReady
  }

  function FrontIn(g: Regs, i: In): P.In {
    PrefetchIn(g, i, FetchReady(g, i))
  }

  function ObiIn(p: P.Config, g: Regs, i: In): O.In {
    O.In(P.TransValid(p, g.pre, FrontIn(g, i)), WordBase(P.TransAddr(g.pre, FrontIn(g, i))), i.gnt)
  }

  /** All registers after the clock edge. */
  function NextRegs(p: P.Config, g: Regs, i: In): Regs
    requires p.depth >= 1 && P.Protocol(g.pre, FrontIn(g, i))
  {
    Regs(
      P.NextRegs(p, g.pre, FrontIn(g, i)),
      FifoLogic.NextQueue(p.depth, false, g.fifo, P.FifoControls(g.pre, FrontIn(g, i), i.rdata)),
      O.NextRegs(g.obi, ObiIn(p, g, i)),
      AlignerLogic.NextRegs(g.ali, AlignerIn(g, i)))
  }

  function Events(g: Regs, i: In): seq<Event> {
    AlignerLogic.Events(g.ali, AlignerIn(g, i))
  }

  // ---------------------------------------------------------------- the system with its memory

  /** What the registers stand for: requests on the bus without a response, addresses of the prefetched words, the
      words to come, the cursor of sequential execution, and whether a word has been taken since the last redirect. */
  datatype History = History(bus: seq<Addr>, view: P.View, feed: Feed, cursor: Cursor, taken: bool)

  predicate Loaded(mem: Memory, words: seq<Word>, addresses: seq<Addr>) {
    |words| == |addresses| && forall k :: 0 <= k < |words| ==> words[k] == WordAt(mem, addresses[k])
  }

  predicate Inv(mem: Memory, p: P.Config, g: Regs, h: History) {
    && P.Inv(p, g.pre, h.view, h.feed)
    && O.Tracks(g.obi, h.bus, h.view.pending)
    && Loaded(mem, g.fifo, h.view.words)
    && TakenMeansSafe(g, h)
  }

  /** Once a word has been taken, nothing is being dropped and the next word is requested. */
  predicate TakenMeansSafe(g: Regs, h: History) {
    h.taken ==> h.feed.detour.None? && P.JumpSafe(g.pre, h.view)
  }

  predicate Represents(mem: Memory, p: P.Config, g: Regs, h: History) {
    Inv(mem, p, g, h) && AlignerLogic.Represents(mem, g.ali, h.feed, h.cursor)
  }

  /** Memory answers granted requests in order, a cycle later at the earliest. The pipeline takes nothing while it does
      not ask for instructions. A loop jump comes while the aligned 32-bit instruction that ends the body is next, not
      while another jump is pending, and after a word has been taken since the last redirect, as it is when the
      instruction before is being decoded; otherwise the prefetcher's guard must hold. */
  predicate Env(mem: Memory, g: Regs, h: History, i: In) {
    && (i.rvalid ==> h.bus != [] && i.rdata == WordAt(mem, h.bus[0]))
    && (IfValid(g, i) ==> i.req)
    && (i.jump ==>
          && !i.pcSet && WordAligned(i.jumpTarget)
          && g.ali.state == AlignerLogic.ALIGNED32 && Is32(mem(g.ali.pcQ)) && !g.ali.hwlpUpdateQ
          && h.feed.detour.None? && (h.taken || P.JumpSafe(g.pre, h.view)))
  }

  function NextHistory(mem: Memory, p: P.Config, g: Regs, h: History, i: In): History
    requires p.depth >= 1 && (i.rvalid ==> h.bus != [] && h.view.pending != [])
  {
    History(
      O.NextBus(g.obi, h.bus, ObiIn(p, g, i), i.rvalid),
      P.NextView(p, g.pre, h.view, FrontIn(g, i)),
      AlignerLogic.NextFeed(h.feed, g.ali, AlignerIn(g, i)),
      CursorAfter(mem, h.cursor, Events(g, i)),
      !(i.pcSet || i.jump || h.feed.detour.Some?) && (h.taken || FetchReady(g, i)))
  }

  // ---------------------------------------------------------------- the parts meet each other's assumptions

  lemma MemoryAnswers(mem: Memory, p: P.Config, g: Regs, h: History, i: In)
    requires Inv(mem, p, g, h) && Env(mem, g, h, i) && i.rvalid
    ensures h.view.pending != [] && h.view.pending[0] == h.bus[0] && i.rdata == WordAt(mem, h.view.pending[0])
  {
  }

  lemma PrefetcherAssumptions(mem: Memory, p: P.Config, g: Regs, h: History, i: In)
    requires Inv(mem, p, g, h) && Env(mem, g, h, i)
    ensures P.Env(g.pre, h.view, h.feed, FrontIn(g, i))
  {
    if i.rvalid {
      MemoryAnswers(mem, p, g, h, i);
    }
  }

  /** The prefetcher gives the aligner what the aligner relies on. */
  lemma AlignerAssumptions(mem: Memory, p: P.Config, g: Regs, h: History, i: In)
    requires Inv(mem, p, g, h) && Env(mem, g, h, i)
    ensures AlignerLogic.Contract(mem, h.feed, g.ali, AlignerIn(g, i))
  {
    PrefetcherAssumptions(mem, p, g, h, i);
    if i.rvalid {
      MemoryAnswers(mem, p, g, h, i);
    }
    if FetchValid(g, i) {
      P.OfferIsNext(p, g.pre, h.view, h.feed, FrontIn(g, i));
    }
    if h.feed.offered && !i.pcSet {
      P.OfferStays(p, g.pre, h.view, h.feed, FrontIn(g, i));
    }
  }

  /** Both sides agree on which word is taken and what comes next. */
  lemma FeedsAgree(mem: Memory, p: P.Config, g: Regs, h: History, i: In)
    requires Env(mem, g, h, i)
    ensures FetchReady(g, i) == AlignerLogic.Consumes(g.ali, AlignerIn(g, i))
    ensures AlignerLogic.NextFeed(h.feed, g.ali, AlignerIn(g, i)) == P.NextFeed(h.feed, FrontIn(g, i), FetchValid(g, i))
  {
  }

  lemma FifoStaysLoaded(mem: Memory, depth: nat, words: seq<Word>, addresses: seq<Addr>,
                        c: FifoLogic.In<Word>, d: FifoLogic.In<Addr>)
    requires depth >= 1 && Loaded(mem, words, addresses)
    requires d.flush == c.flush && d.flushButFirst == c.flushButFirst && d.push == c.push && d.pop == c.pop
    requires c.push ==> c.data == WordAt(mem, d.data)
    ensures Loaded(mem, FifoLogic.NextQueue(depth, false, words, c), FifoLogic.NextQueue(depth, false, addresses, d))
  {
  }

  // ---------------------------------------------------------------- one cycle of the whole stage

  lemma ObiStep(mem: Memory, p: P.Config, g: Regs, h: History, i: In)
    requires Inv(mem, p, g, h) && Env(mem, g, h, i) && p.depth >= 1 && (i.rvalid ==> h.view.pending != [])
    ensures O.Tracks(O.NextRegs(g.obi, ObiIn(p, g, i)), O.NextBus(g.obi, h.bus, ObiIn(p, g, i), i.rvalid),
                     P.NextView(p, g.pre, h.view, FrontIn(g, i)).pending)
  {
    PrefetcherAssumptions(mem, p, g, h, i);
    P.RequestsAreAligned(p, g.pre, h.view, h.feed, FrontIn(g, i));
    O.StepTracks(g.obi, h.bus, h.view.pending, ObiIn(p, g, i), i.rvalid);
  }

  lemma FifoStep(mem: Memory, p: P.Config, g: Regs, h: History, i: In)
    requires Inv(mem, p, g, h) && Env(mem, g, h, i) && p.depth >= 1 && (i.rvalid ==> h.view.pending != [])
    ensures Loaded(mem, FifoLogic.NextQueue(p.depth, false, g.fifo, P.FifoControls(g.pre, FrontIn(g, i), i.rdata)),
                   P.NextWords(p, g.pre, h.view, FrontIn(g, i)))
  {
    if i.rvalid {
      MemoryAnswers(mem, p, g, h, i);
    }
    FifoStaysLoaded(mem, p.depth, g.fifo, h.view.words, P.FifoControls(g.pre, FrontIn(g, i), i.rdata),
                    P.FifoControls(g.pre, FrontIn(g, i), if i.rvalid then h.view.pending[0] else 0));
  }

  /** A word that is taken leaves the next one stored, requested or accepted in the same cycle: the FIFO holds two words
      or more. */
  lemma TakenStep(mem: Memory, p: P.Config, g: Regs, h: History, i: In)
    requires Inv(mem, p, g, h) && Env(mem, g, h, i)
    requires p.depth >= 1 && P.Protocol(g.pre, FrontIn(g, i)) && (i.rvalid ==> h.view.pending != [])
    ensures TakenMeansSafe(NextRegs(p, g, i), NextHistory(mem, p, g, h, i))
  {
  }

  /** Once a word has been taken, the assertion of the prefetch controller holds: the next word, the last instruction of
      the body when a loop jump comes, has been requested. */
  lemma BodyEndAlreadyGranted(mem: Memory, p: P.Config, g: Regs, h: History)
    requires Inv(mem, p, g, h) && h.taken
    ensures g.pre.cnt > 0 || g.fifo != []
  {
  }

  lemma StepInv(mem: Memory, p: P.Config, g: Regs, h: History, i: In)
    requires Inv(mem, p, g, h) && Env(mem, g, h, i)
    ensures p.depth >= 1 && P.Protocol(g.pre, FrontIn(g, i)) && (i.rvalid ==> h.view.pending != [])
    ensures Inv(mem, p, NextRegs(p, g, i), NextHistory(mem, p, g, h, i))
  {
    PrefetcherAssumptions(mem, p, g, h, i);
    P.StepKeeps(p, g.pre, h.view, h.feed, FrontIn(g, i));
    FeedsAgree(mem, p, g, h, i);
    ObiStep(mem, p, g, h, i);
    FifoStep(mem, p, g, h, i);
    TakenStep(mem, p, g, h, i);
  }

  /** The aligner's part of the cycle. A branch establishes its invariant from any state. */
  lemma AlignerStep(mem: Memory, f: Feed, c: Cursor, g: AlignerLogic.Regs, i: AlignerLogic.In)
    requires if i.branch then HalfwordAligned(i.branchAddr)
             else AlignerLogic.Represents(mem, g, f, c) && AlignerLogic.Contract(mem, f, g, i)
    ensures Follows(mem, c, AlignerLogic.Events(g, i))
    ensures AlignerLogic.Represents(mem, AlignerLogic.NextRegs(g, i), AlignerLogic.NextFeed(f, g, i),
                                    CursorAfter(mem, c, AlignerLogic.Events(g, i)))
  {
    if i.branch {
      AlignerLogic.BranchRefines(mem, g, f, c, i);
      AlignerLogic.EventsAdvance(mem, c, g, i);
    } else {
      AlignerLogic.StepRefines(mem, g, f, c, i);
    }
  }

  /** Every cycle of the stage delivers what sequential execution has reached. */
  lemma StepRefines(mem: Memory, p: P.Config, g: Regs, h: History, i: In)
    requires Inv(mem, p, g, h) && Env(mem, g, h, i)
    requires i.pcSet || AlignerLogic.Represents(mem, g.ali, h.feed, h.cursor)
    ensures p.depth >= 1 && P.Protocol(g.pre, FrontIn(g, i)) && (i.rvalid ==> h.view.pending != [])
    ensures Represents(mem, p, NextRegs(p, g, i), NextHistory(mem, p, g, h, i))
    ensures Follows(mem, h.cursor, Events(g, i))
  {
    StepInv(mem, p, g, h, i);
    AlignerAssumptions(mem, p, g, h, i);
    AlignerStep(mem, h.feed, h.cursor, g.ali, AlignerIn(g, i));
  }

  /** The pipeline takes an instruction. */
  predicate Accepting(i: In) {
    !i.haltIf && i.idReady
  }

  /** An instruction leaves exactly in a cycle without a branch in which a word is on offer and the pipeline takes it,
      but not while only the first half of a 32-bit branch target is there. */
  lemma DeliversIff(mem: Memory, p: P.Config, g: Regs, h: History, i: In)
    requires Represents(mem, p, g, h) && Env(mem, g, h, i)
    ensures AlignerLogic.Delivers(g.ali, AlignerIn(g, i))
            <==> && FetchValid(g, i) && Accepting(i) && !i.pcSet
                 && !(g.ali.state == AlignerLogic.BRANCH_MISALIGNED && Is32(mem(h.cursor.pc)))
  {
    AlignerAssumptions(mem, p, g, h, i);
    AlignerLogic.Halves(h.cursor.pc);
  }

  /** The stage's states before and after a cycle. */
  predicate Stepped(mem: Memory, p: P.Config, g: Regs, h: History, i: In, g': Regs, h': History) {
    && p.depth >= 1 && P.Protocol(g.pre, FrontIn(g, i)) && (i.rvalid ==> h.view.pending != [])
    && (i.rvalid ==> h.bus != [])
    && g' == NextRegs(p, g, i) && h' == NextHistory(mem, p, g, h, i)
  }

  // ---------------------------------------------------------------- whole runs

  predicate EnvRun(mem: Memory, p: P.Config, g: Regs, h: History, ins: seq<In>)
    requires Inv(mem, p, g, h)
    decreases |ins|
  {
    ins != [] ==>
      Env(mem, g, h, ins[0]) && (
        StepInv(mem, p, g, h, ins[0]);
        EnvRun(mem, p, NextRegs(p, g, ins[0]), NextHistory(mem, p, g, h, ins[0]), ins[1..]))
  }

  function Log(mem: Memory, p: P.Config, g: Regs, h: History, ins: seq<In>): seq<Event>
    requires Inv(mem, p, g, h) && EnvRun(mem, p, g, h, ins)
    decreases |ins|
  {
    if ins == [] then []
    else
      StepInv(mem, p, g, h, ins[0]);
      Events(g, ins[0]) + Log(mem, p, NextRegs(p, g, ins[0]), NextHistory(mem, p, g, h, ins[0]), ins[1..])
  }

  /** For every memory image, every schedule of bus grants and responses and of pipeline stalls, every sequence of
      branches and loop jumps: what the stage delivers follows sequential execution. */
  lemma {:induction false} StageFollows(mem: Memory, p: P.Config, g: Regs, h: History, ins: seq<In>)
    requires Inv(mem, p, g, h) && EnvRun(mem, p, g, h, ins)
    requires AlignerLogic.Represents(mem, g.ali, h.feed, h.cursor) || (ins != [] && ins[0].pcSet)
    ensures Follows(mem, h.cursor, Log(mem, p, g, h, ins))
    decreases |ins|
  {
    if ins != [] {
      StepRefines(mem, p, g, h, ins[0]);
      var g', h' := NextRegs(p, g, ins[0]), NextHistory(mem, p, g, h, ins[0]);
      StageFollows(mem, p, g', h', ins[1..]);
      FollowsAppend(mem, h.cursor, Events(g, ins[0]), Log(mem, p, g', h', ins[1..]));
    }
  }

  // ---------------------------------------------------------------- redirects

  /** What a cycle shows besides deliveries is what the ports ask for: a branch goes to the given address without its
      lowest bit and delivers nothing, a loop jump goes to the given target. */
  predicate Steered(events: seq<Event>, i: In) {
    if i.pcSet then |events| == 1 && events[0].Redirect? && EvenPart(events[0].target, i.branchAddr)
    else Steering(events) == if i.jump then [LoopBack(i.jumpTarget)] else []
  }

  /** What the ports ask for in a cycle, and in a run. */
  function Asked(i: In): seq<Event> {
    if i.pcSet then [Redirect(i.branchAddr - i.branchAddr % 2)] else if i.jump then [LoopBack(i.jumpTarget)] else []
  }

  function AskedFor(ins: seq<In>): seq<Event> {
    if ins == [] then [] else Asked(ins[0]) + AskedFor(ins[1..])
  }

  lemma CycleIsSteered(g: Regs, i: In)
    ensures Steered(Events(g, i), i)
  {
    if !i.pcSet {
      var a := AlignerIn(g, i);
      var delivers := if AlignerLogic.Delivers(g.ali, a) then [Deliver(g.ali.pcQ, AlignerLogic.Outputs(g.ali, a).instr)]
                      else [];
      SteeringAppend(if i.jump then [LoopBack(i.jumpTarget)] else [], delivers);
    }
  }

  lemma SteeredAsAsked(events: seq<Event>, i: In)
    requires Steered(events, i)
    ensures Steering(events) == Asked(i)
  {
    if i.pcSet {
      EvenPartIff(events[0].target, i.branchAddr);
      assert events[1..] == [];
    }
  }

  /** Over every run the redirects in the log are those the ports ask for, one for one and in order. */
  lemma {:induction false} RunObeys(mem: Memory, p: P.Config, g: Regs, h: History, ins: seq<In>)
    requires Inv(mem, p, g, h) && EnvRun(mem, p, g, h, ins)
    ensures Steering(Log(mem, p, g, h, ins)) == AskedFor(ins)
    decreases |ins|
  {
    if ins != [] {
      StepInv(mem, p, g, h, ins[0]);
      var g', h' := NextRegs(p, g, ins[0]), NextHistory(mem, p, g, h, ins[0]);
      RunObeys(mem, p, g', h', ins[1..]);
      CycleIsSteered(g, ins[0]);
      SteeredAsAsked(Events(g, ins[0]), ins[0]);
      SteeringAppend(Events(g, ins[0]), Log(mem, p, g', h', ins[1..]));
    }
  }

  // ---------------------------------------------------------------- from reset

  const START := History([], P.View([], []), Feed(4, false, None), Cursor(0, None), false)

  lemma ResetInv(mem: Memory, p: P.Config)
    requires p.depth >= 2
    ensures Inv(mem, p, RESET, START)
  {
  }

  /** The core does not ask for instructions and redirects nothing. */
  predicate Idle(i: In) {
    !i.req && !i.pcSet && !i.jump
  }

  /** Any number of idle cycles, then the jump to the boot address. */
  predicate StartsIdle(ins: seq<In>)
    decreases |ins|
  {
    ins != [] ==> ins[0].pcSet || (Idle(ins[0]) && StartsIdle(ins[1..]))
  }

  /** A run from reset. */
  predicate Boots(mem: Memory, p: P.Config, ins: seq<In>) {
    p.depth >= 2 && StartsIdle(ins) && (ResetInv(mem, p); EnvRun(mem, p, RESET, START, ins))
  }

  function BootLog(mem: Memory, p: P.Config, ins: seq<In>): seq<Event>
    requires Boots(mem, p, ins)
  {
    ResetInv(mem, p);
    Log(mem, p, RESET, START, ins)
  }

  /** An idle cycle leaves the stage in reset and shows nothing. */
  lemma IdleStays(mem: Memory, p: P.Config, i: In)
    requires p.depth >= 2 && Env(mem, RESET, START, i) && Idle(i)
    ensures P.Protocol(RESET.pre, FrontIn(RESET, i)) && !i.rvalid
    ensures NextRegs(p, RESET, i) == RESET && NextHistory(mem, p, RESET, START, i) == START
    ensures Events(RESET, i) == []
  {
  }

  /** Before the boot jump the stage is as reset left it; afterwards the aligner's view of the words to come, `f`, is
      the prefetcher's. */
  predicate Phase(booted: bool, f: Feed, g: Regs, h: History) {
    if booted then f == h.feed else g == RESET && h == START && !f.offered
  }

  /** What a state of the stage satisfies, before and after the boot jump. */
  predicate Good(mem: Memory, p: P.Config, g: Regs, h: History, booted: bool, f: Feed) {
    Inv(mem, p, g, h) && Phase(booted, f, g, h)
  }

  /** A cycle of a good state: the aligner's assumptions hold in it, and the next state `g'` with its history `h'` is
      good. */
  lemma GoodStep(mem: Memory, p: P.Config, g: Regs, h: History, i: In, booted: bool, f: Feed)
    returns (g': Regs, h': History)
    requires Good(mem, p, g, h, booted, f) && Env(mem, g, h, i) && (booted || i.pcSet || Idle(i))
    ensures Stepped(mem, p, g, h, i, g', h') && g' == NextRegs(p, g, i)
    ensures h'.cursor == CursorAfter(mem, h.cursor, Events(g, i))
    ensures AlignerLogic.Contract(mem, f, g.ali, AlignerIn(g, i))
    ensures Good(mem, p, g', h', booted || i.pcSet, AlignerLogic.NextFeed(f, g.ali, AlignerIn(g, i)))
  {
    StepInv(mem, p, g, h, i);
    AlignerAssumptions(mem, p, g, h, i);
    if !booted && !i.pcSet {
      IdleStays(mem, p, i);
    }
    g', h' := NextRegs(p, g, i), NextHistory(mem, p, g, h, i);
  }

  lemma {:induction false} BootFollows(mem: Memory, p: P.Config, ins: seq<In>)
    requires Boots(mem, p, ins)
    ensures Follows(mem, START.cursor, BootLog(mem, p, ins))
    decreases |ins|
  {
    ResetInv(mem, p);
    if ins != [] {
      if ins[0].pcSet {
        StageFollows(mem, p, RESET, START, ins);
      } else {
        IdleStays(mem, p, ins[0]);
        BootFollows(mem, p, ins[1..]);
        assert BootLog(mem, p, ins) == [] + BootLog(mem, p, ins[1..]) == BootLog(mem, p, ins[1..]);
      }
    }
  }

  /** From reset on, the decoder receives exactly the operations of the program in memory, in the order of sequential
      execution, each with its own address. */
  lemma {:induction false} ProgramIsExecuted(mem: Memory, p: P.Config, ins: seq<In>)
    requires Boots(mem, p, ins)
    ensures FetchDecode.Executes(mem, START.cursor, BootLog(mem, p, ins))
    ensures Steering(BootLog(mem, p, ins)) == AskedFor(ins)
  {
    ResetInv(mem, p);
    RunObeys(mem, p, RESET, START, ins);
    BootFollows(mem, p, ins);
    FetchDecode.FollowingExecutes(mem, START.cursor, BootLog(mem, p, ins));
  }

  // ---------------------------------------------------------------- progress

  /** The core asks for instructions, and the bus is as fast as it can be. */
  predicate Fast(h: History, i: In) {
    i.req && i.gnt && (i.rvalid <==> h.bus != [])
  }

  /** A fast cycle without a redirect. */
  predicate Eager(h: History, i: In) {
    Fast(h, i) && !i.pcSet && !i.jump
  }

  predicate EagerRun(mem: Memory, p: P.Config, g: Regs, h: History, ins: seq<In>)
    requires Inv(mem, p, g, h) && EnvRun(mem, p, g, h, ins)
    decreases |ins|
  {
    ins != [] ==>
      Eager(h, ins[0]) && (
        StepInv(mem, p, g, h, ins[0]);
        EagerRun(mem, p, NextRegs(p, g, ins[0]), NextHistory(mem, p, g, h, ins[0]), ins[1..]))
  }

  predicate Offers(mem: Memory, p: P.Config, g: Regs, h: History, ins: seq<In>)
    requires Inv(mem, p, g, h) && EnvRun(mem, p, g, h, ins)
    decreases |ins|
  {
    ins != [] && (
      FetchValid(g, ins[0]) || (
        StepInv(mem, p, g, h, ins[0]);
        Offers(mem, p, NextRegs(p, g, ins[0]), NextHistory(mem, p, g, h, ins[0]), ins[1..])))
  }

  /** How many cycles it can take until a word is on offer: two for every response to drop, and one for a request. */
  function Patience(g: Regs, h: History): nat {
    2 * g.pre.flushCnt + (if h.bus == [] then 1 else 0)
  }

  lemma PatienceDecreases(mem: Memory, p: P.Config, g: Regs, h: History, i: In)
    requires Inv(mem, p, g, h) && Env(mem, g, h, i) && Eager(h, i) && !FetchValid(g, i)
    requires p.depth >= 1 && P.Protocol(g.pre, FrontIn(g, i)) && (i.rvalid ==> h.view.pending != [])
    ensures Patience(NextRegs(p, g, i), NextHistory(mem, p, g, h, i)) < Patience(g, h)
  {
    if h.bus == [] && !g.obi.registered {
      assert h.view.pending == [];
      assert P.TransValid(p, g.pre, FrontIn(g, i));
    }
  }

  /** The stage cannot starve: on a fast bus a word is on offer after at most `Patience` cycles, from every state it
      can be in, whatever it still has to drop. */
  lemma {:induction false} OfferArrives(mem: Memory, p: P.Config, g: Regs, h: History, ins: seq<In>)
    requires Inv(mem, p, g, h) && EnvRun(mem, p, g, h, ins) && EagerRun(mem, p, g, h, ins)
    requires |ins| > Patience(g, h)
    ensures Offers(mem, p, g, h, ins)
    decreases |ins|
  {
    if !FetchValid(g, ins[0]) {
      StepInv(mem, p, g, h, ins[0]);
      PatienceDecreases(mem, p, g, h, ins[0]);
      OfferArrives(mem, p, NextRegs(p, g, ins[0]), NextHistory(mem, p, g, h, ins[0]), ins[1..]);
    }
  }

  // ---------------------------------------------------------------- throughput

  /** Nothing to drop, no request held up on the bus, and a word stored or about to arrive. */
  predicate Streaming(g: Regs, h: History) {
    && g.pre.flushCnt == 0 && !g.obi.registered && h.feed.detour.None?
    && (h.view.words != [] || h.bus != [])
  }

  lemma StreamingOffers(mem: Memory, p: P.Config, g: Regs, h: History, i: In)
    requires Inv(mem, p, g, h) && Env(mem, g, h, i) && Eager(h, i) && Streaming(g, h)
    ensures h.view.pending == h.bus && FetchValid(g, i)
  {
  }

  /** A stage that has used up its last word requests the next one. */
  lemma StreamingRequests(mem: Memory, p: P.Config, g: Regs, h: History, i: In)
    requires Inv(mem, p, g, h) && Env(mem, g, h, i) && Eager(h, i) && Streaming(g, h) && h.view.pending == h.bus
    requires |g.fifo| + |h.bus| == 1
    ensures O.Granted(g.obi, ObiIn(p, g, i))
  {
    PrefetcherAssumptions(mem, p, g, h, i);
    P.RequestsIff(p, g.pre, h.view, h.feed, FrontIn(g, i));
  }

  /** A streaming stage offers a word and is still streaming a cycle later, whether or not the word is taken. */
  lemma StreamingStays(mem: Memory, p: P.Config, g: Regs, h: History, i: In)
    requires Inv(mem, p, g, h) && Env(mem, g, h, i) && Eager(h, i) && Streaming(g, h)
    requires p.depth >= 1 && P.Protocol(g.pre, FrontIn(g, i)) && (i.rvalid ==> h.view.pending != [])
    ensures FetchValid(g, i)
    ensures Streaming(NextRegs(p, g, i), NextHistory(mem, p, g, h, i))
  {
    StreamingOffers(mem, p, g, h, i);
    if |g.fifo| + |h.bus| == 1 {
      StreamingRequests(mem, p, g, h, i);
    }
  }

  /** What the aligner sees in a run. */
  function AlignerIns(mem: Memory, p: P.Config, g: Regs, h: History, ins: seq<In>): (r: seq<AlignerLogic.In>)
    requires Inv(mem, p, g, h) && EnvRun(mem, p, g, h, ins)
    ensures |r| == |ins|
    decreases |ins|
  {
    if ins == [] then []
    else
      StepInv(mem, p, g, h, ins[0]);
      [AlignerIn(g, ins[0])] + AlignerIns(mem, p, NextRegs(p, g, ins[0]), NextHistory(mem, p, g, h, ins[0]), ins[1..])
  }

  /** With at least two FIFO entries, on a fast bus and without redirects, a word is on offer in every cycle. */
  lemma {:induction false} OffersEveryCycle(mem: Memory, p: P.Config, g: Regs, h: History, ins: seq<In>)
    requires Inv(mem, p, g, h) && EnvRun(mem, p, g, h, ins) && EagerRun(mem, p, g, h, ins) && Streaming(g, h)
    ensures forall k :: 0 <= k < |ins| ==>
              var a := AlignerIns(mem, p, g, h, ins)[k];
              a.fetchValid && !a.branch && a.ifValid == (!ins[k].haltIf && ins[k].idReady)
    decreases |ins|
  {
    if ins != [] {
      StepInv(mem, p, g, h, ins[0]);
      StreamingStays(mem, p, g, h, ins[0]);
      OffersEveryCycle(mem, p, NextRegs(p, g, ins[0]), NextHistory(mem, p, g, h, ins[0]), ins[1..]);
    }
  }

  /** The stage keeps up with a pipeline that accepts in every cycle: one instruction per cycle, whatever the mix of
      lengths, but for the one cycle a target in the middle of a word can cost. */
  lemma {:induction false} OneInstructionPerCycle(mem: Memory, p: P.Config, g: Regs, h: History, ins: seq<In>)
    requires Inv(mem, p, g, h) && EnvRun(mem, p, g, h, ins) && EagerRun(mem, p, g, h, ins) && Streaming(g, h)
    requires forall k :: 0 <= k < |ins| ==> Accepting(ins[k])
    ensures AlignerLogic.Deliveries(g.ali, AlignerIns(mem, p, g, h, ins)) >= |ins| - 1
    ensures g.ali.state != AlignerLogic.BRANCH_MISALIGNED ==>
              AlignerLogic.Deliveries(g.ali, AlignerIns(mem, p, g, h, ins)) == |ins|
  {
    OffersEveryCycle(mem, p, g, h, ins);
    AlignerLogic.DeliversEveryCycle(g.ali, AlignerIns(mem, p, g, h, ins));
  }

  // ---------------------------------------------------------------- from any state into the stream

  /** A bound on the cycles until the stage streams: two for every response to drop, now or after a loop's last
      instruction, one for a request that is missing or held up, and one to take that instruction. */
  function Settling(g: Regs, h: History): nat {
    if Streaming(g, h) then 0
    else
      var missing := if h.bus == [] then 1 else 0;
      if g.pre.afterResp then 2 * g.pre.delayed + 3 + missing else 2 * g.pre.flushCnt + 1 + missing
  }

  lemma SettlingIsBounded(mem: Memory, p: P.Config, g: Regs, h: History)
    requires Inv(mem, p, g, h)
    ensures Settling(g, h) <= 2 * p.depth + 2
  {
  }

  lemma PlainSettles(mem: Memory, p: P.Config, g: Regs, h: History, i: In)
    requires Inv(mem, p, g, h) && Env(mem, g, h, i) && Eager(h, i) && h.feed.detour.None? && !Streaming(g, h)
    requires p.depth >= 1 && P.Protocol(g.pre, FrontIn(g, i)) && (i.rvalid ==> h.view.pending != [])
    ensures Settling(NextRegs(p, g, i), NextHistory(mem, p, g, h, i)) < Settling(g, h)
  {
  }

  /** While a loop redirect is pending, the word on offer is the last instruction of the body, and the aligner takes
      it. */
  lemma DetourIsTaken(mem: Memory, p: P.Config, g: Regs, h: History, i: In)
    requires Represents(mem, p, g, h) && Env(mem, g, h, i) && Eager(h, i) && Accepting(i) && h.feed.detour.Some?
    requires FetchValid(g, i)
    ensures FetchReady(g, i)
  {
    AlignerAssumptions(mem, p, g, h, i);
  }

  lemma DetourSettles(mem: Memory, p: P.Config, g: Regs, h: History, i: In)
    requires Represents(mem, p, g, h) && Env(mem, g, h, i) && Eager(h, i) && Accepting(i) && h.feed.detour.Some?
    requires p.depth >= 1 && P.Protocol(g.pre, FrontIn(g, i)) && (i.rvalid ==> h.view.pending != [])
    ensures Settling(NextRegs(p, g, i), NextHistory(mem, p, g, h, i)) < Settling(g, h)
  {
    if FetchValid(g, i) {
      DetourIsTaken(mem, p, g, h, i);
    }
  }

  /** The pipeline may stall as it likes, unless a loop redirect is pending: then the last instruction of the body must
      leave before the stage can stream. */
  predicate CanSettle(mem: Memory, p: P.Config, g: Regs, h: History, ins: seq<In>) {
    h.feed.detour.Some? ==> Represents(mem, p, g, h) && forall k :: 0 <= k < |ins| ==> Accepting(ins[k])
  }

  lemma {:induction false} Settles(mem: Memory, p: P.Config, g: Regs, h: History, ins: seq<In>)
    requires Inv(mem, p, g, h) && ins != [] && Env(mem, g, h, ins[0]) && Eager(h, ins[0])
    requires CanSettle(mem, p, g, h, ins) && !Streaming(g, h)
    requires p.depth >= 1 && P.Protocol(g.pre, FrontIn(g, ins[0])) && (ins[0].rvalid ==> h.view.pending != [])
    ensures Settling(NextRegs(p, g, ins[0]), NextHistory(mem, p, g, h, ins[0])) < Settling(g, h)
    ensures CanSettle(mem, p, NextRegs(p, g, ins[0]), NextHistory(mem, p, g, h, ins[0]), ins[1..])
  {
    if h.feed.detour.Some? {
      StepRefines(mem, p, g, h, ins[0]);
      DetourSettles(mem, p, g, h, ins[0]);
    } else {
      PlainSettles(mem, p, g, h, ins[0]);
    }
  }

  /** The stage streams after at most `n` cycles of the run. */
  predicate StreamsWithin(mem: Memory, p: P.Config, g: Regs, h: History, ins: seq<In>, n: nat)
    requires Inv(mem, p, g, h) && EnvRun(mem, p, g, h, ins)
    decreases n
  {
    Streaming(g, h) || (n > 0 && ins != [] && (
      StepInv(mem, p, g, h, ins[0]);
      StreamsWithin(mem, p, NextRegs(p, g, ins[0]), NextHistory(mem, p, g, h, ins[0]), ins[1..], n - 1)))
  }

  /** On a fast bus the stage streams after a bounded number of cycles, from every state it can be in. */
  lemma {:induction false} StreamingIsReached(mem: Memory, p: P.Config, g: Regs, h: History, ins: seq<In>, n: nat)
    requires Inv(mem, p, g, h) && EnvRun(mem, p, g, h, ins) && EagerRun(mem, p, g, h, ins)
    requires CanSettle(mem, p, g, h, ins) && Settling(g, h) <= n <= |ins|
    ensures StreamsWithin(mem, p, g, h, ins, n)
    decreases n
  {
    if !Streaming(g, h) {
      StepInv(mem, p, g, h, ins[0]);
      Settles(mem, p, g, h, ins);
      StreamingIsReached(mem, p, NextRegs(p, g, ins[0]), NextHistory(mem, p, g, h, ins[0]), ins[1..], n - 1);
    }
  }

  function Delivered(mem: Memory, p: P.Config, g: Regs, h: History, ins: seq<In>): nat
    requires Inv(mem, p, g, h) && EnvRun(mem, p, g, h, ins)
  {
    AlignerLogic.Deliveries(g.ali, AlignerIns(mem, p, g, h, ins))
  }

  /** A run from a state of sequential execution on a fast bus, with a pipeline that accepts in every cycle. */
  predicate FastRun(mem: Memory, p: P.Config, g: Regs, h: History, ins: seq<In>) {
    && Represents(mem, p, g, h) && EnvRun(mem, p, g, h, ins) && EagerRun(mem, p, g, h, ins)
    && forall k :: 0 <= k < |ins| ==> Accepting(ins[k])
  }

  /** A cycle that does not stream: what holds of the rest of the run. */
  lemma {:induction false} SettlingStep(mem: Memory, p: P.Config, g: Regs, h: History, ins: seq<In>)
    returns (g': Regs, h': History)
    requires FastRun(mem, p, g, h, ins) && ins != [] && !Streaming(g, h)
    ensures FastRun(mem, p, g', h', ins[1..]) && Settling(g', h') < Settling(g, h)
    ensures Delivered(mem, p, g, h, ins) >= Delivered(mem, p, g', h', ins[1..])
  {
    StepRefines(mem, p, g, h, ins[0]);
    Settles(mem, p, g, h, ins);
    g', h' := NextRegs(p, g, ins[0]), NextHistory(mem, p, g, h, ins[0]);
    assert AlignerIns(mem, p, g, h, ins)[1..] == AlignerIns(mem, p, g', h', ins[1..]);
  }

  /** From every state of sequential execution, with responses to drop, a redirect pending or a request held up: a
      pipeline that accepts in every cycle gets an instruction in every cycle but a bounded number. */
  lemma {:induction false} AllButAFewCycles(mem: Memory, p: P.Config, g: Regs, h: History, ins: seq<In>)
    requires FastRun(mem, p, g, h, ins)
    ensures Delivered(mem, p, g, h, ins) >= |ins| - Settling(g, h) - 1
    decreases |ins|
  {
    if Streaming(g, h) {
      OneInstructionPerCycle(mem, p, g, h, ins);
    } else if ins != [] {
      var rest := ins[1..];
      var g', h' := SettlingStep(mem, p, g, h, ins);
      AllButAFewCycles(mem, p, g', h', rest);
    }
  }

  /** The bound depends on nothing but the depth of the FIFO. */
  lemma {:induction false} Throughput(mem: Memory, p: P.Config, g: Regs, h: History, ins: seq<In>)
    requires FastRun(mem, p, g, h, ins)
    ensures Delivered(mem, p, g, h, ins) >= |ins| - (2 * p.depth + 3)
  {
    AllButAFewCycles(mem, p, g, h, ins);
    SettlingIsBounded(mem, p, g, h);
  }

  // ---------------------------------------------------------------- what redirects cost

  /** The exact number of instructions from a streaming state. */
  lemma {:induction false} StreamDelivers(mem: Memory, p: P.Config, g: Regs, h: History, ins: seq<In>)
    requires FastRun(mem, p, g, h, ins) && Streaming(g, h)
    ensures Delivered(mem, p, g, h, ins)
            == if ins != [] && g.ali.state == AlignerLogic.BRANCH_MISALIGNED && Is32(mem(h.cursor.pc))
               then |ins| - 1 else |ins|
  {
    var a := AlignerIns(mem, p, g, h, ins);
    OffersEveryCycle(mem, p, g, h, ins);
    AlignerLogic.DeliversEveryCycle(g.ali, a);
    if ins != [] {
      AlignerAssumptions(mem, p, g, h, ins[0]);
      AlignerLogic.Halves(h.cursor.pc);
    }
  }

  /** A branch on a fast bus leaves the stage streaming from its target exactly when no request is held up and no more
      than one is outstanding. */
  lemma BranchStreamsIff(mem: Memory, p: P.Config, g: Regs, h: History, i: In)
    requires Inv(mem, p, g, h) && Env(mem, g, h, i) && Fast(h, i) && i.pcSet
    requires p.depth >= 1 && P.Protocol(g.pre, FrontIn(g, i)) && (i.rvalid ==> h.view.pending != [])
    ensures Streaming(NextRegs(p, g, i), NextHistory(mem, p, g, h, i)) <==> !g.obi.registered && |h.bus| <= 1
  {
  }

  /** A loop jump in a streaming state costs nothing: the last instruction of the body is delivered in the cycle of the
      jump, and the stage streams from the loop's target exactly when no more than one request is outstanding. */
  lemma LoopJumpStreamsIff(mem: Memory, p: P.Config, g: Regs, h: History, i: In)
    requires Represents(mem, p, g, h) && Env(mem, g, h, i) && Fast(h, i) && Accepting(i) && i.jump && Streaming(g, h)
    requires p.depth >= 1 && P.Protocol(g.pre, FrontIn(g, i)) && (i.rvalid ==> h.view.pending != [])
    ensures AlignerLogic.Delivers(g.ali, AlignerIn(g, i))
    ensures Streaming(NextRegs(p, g, i), NextHistory(mem, p, g, h, i)) <==> |h.bus| <= 1
  {
    AlignerAssumptions(mem, p, g, h, i);
    assert h.view.pending == h.bus;
  }

  /** The penalty of a branch, counted in fetch cycles: the cycle of the branch, and one more when the target is the
      first half of a 32-bit instruction in the upper half of a word. From then on one instruction per cycle. */
  lemma {:induction false} BranchPenalty(mem: Memory, p: P.Config, g: Regs, h: History, i: In, g': Regs, h': History,
                                         ins: seq<In>)
    requires Inv(mem, p, g, h) && Env(mem, g, h, i) && Fast(h, i) && i.pcSet && Stepped(mem, p, g, h, i, g', h')
    requires !g.obi.registered && |h.bus| <= 1 && FastRun(mem, p, g', h', ins)
    ensures !AlignerLogic.Delivers(g.ali, AlignerIn(g, i))
    ensures EvenPart(h'.cursor.pc, i.branchAddr)
    ensures var t := h'.cursor.pc;
            Delivered(mem, p, g', h', ins)
            == if ins != [] && Misaligned(t) && Is32(mem(t)) then |ins| - 1 else |ins|
  {
    BranchStreamsIff(mem, p, g, h, i);
    BranchLands(mem, p, g, h, i, g', h');
    StreamDelivers(mem, p, g', h', ins);
  }

  lemma BranchLands(mem: Memory, p: P.Config, g: Regs, h: History, i: In, g': Regs, h': History)
    requires i.pcSet && Stepped(mem, p, g, h, i, g', h')
    ensures EvenPart(h'.cursor.pc, i.branchAddr) && g'.ali.pcQ == h'.cursor.pc
    ensures g'.ali.state
            == if Misaligned(h'.cursor.pc) then AlignerLogic.BRANCH_MISALIGNED else AlignerLogic.ALIGNED32
  {
    var a := AlignerIn(g, i);
    TargetIsEven(i);
    AlignerLogic.EventsAdvance(mem, h.cursor, g.ali, a);
    assert h'.cursor == AlignerLogic.NextCursor(mem, h.cursor, g.ali, a) && g'.ali == AlignerLogic.NextRegs(g.ali, a);
  }

  lemma TargetIsEven(i: In)
    ensures EvenPart(Target(i), i.branchAddr)
  {
  }

  /** Zero stall cycles for a loop: with no more than one request outstanding an instruction is delivered in the cycle
      of the jump and in every cycle after it. */
  lemma {:induction false} LoopJumpIsFree(mem: Memory, p: P.Config, g: Regs, h: History, i: In, g': Regs, h': History,
                                          ins: seq<In>)
    requires Represents(mem, p, g, h) && Env(mem, g, h, i) && Fast(h, i) && Accepting(i) && i.jump && Streaming(g, h)
    requires Stepped(mem, p, g, h, i, g', h') && |h.bus| <= 1 && FastRun(mem, p, g', h', ins)
    ensures AlignerLogic.Delivers(g.ali, AlignerIn(g, i)) && Delivered(mem, p, g', h', ins) == |ins|
  {
    LoopJumpStreamsIff(mem, p, g, h, i);
    StreamDelivers(mem, p, g', h', ins);
  }
}
