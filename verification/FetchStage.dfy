/** The instruction fetch stage as a clocked machine: one object per module instance. */
module FetchStage {
  import opened InstructionStream
  import opened FrontEndLogic
  import FifoLogic
  import AlignerLogic
  import P = PrefetchLogic
  import O = ObiLogic
  import Fifo
  import Aligner
  import PrefetchController
  import ObiInterface

  class FetchStage {
    ghost const mem: Memory
    const prefetch: PrefetchController.PrefetchController
    const fifo: Fifo.Fifo<Word>
    const obi: ObiInterface.ObiInterface
    const aligner: Aligner.Aligner

    ghost var bus: seq<Addr>
    ghost var view: P.View
    ghost var feed: Feed
    ghost var taken: bool
    ghost var booted: bool

    ghost predicate Shape()
      reads this, fifo
    {
      && fifo.Valid() && !fifo.fallThrough
      && fifo.depth == prefetch.config.depth >= 2 && FifoLogic.PowerOfTwo(fifo.depth)
      && aligner.mem == mem
    }

    ghost function Registers(): (g: Regs)
      requires Shape()
      reads this, prefetch, fifo, fifo.mem, obi, aligner
    {
      Regs(prefetch.Registers(), fifo.Queue(), obi.Registers(), aligner.Registers())
    }

    ghost function History(): History
      reads this, aligner
    {
      FrontEndLogic.History(bus, view, feed, aligner.cursor, taken)
    }

    ghost predicate Valid()
      reads this, prefetch, fifo, fifo.mem, obi, aligner
    {
      && Shape() && aligner.Valid()
      && Good(mem, prefetch.config, Registers(), History(), booted, aligner.feed)
    }

    /** Reset. */
    constructor (ghost mem: Memory, config: P.Config)
      requires 2 <= config.depth < 0x1_0000_0000 && FifoLogic.PowerOfTwo(config.depth)
      ensures Valid() && !booted && this.mem == mem && prefetch.config == config
      ensures Registers() == RESET && History() == START
      ensures fresh(prefetch) && fresh(fifo) && fresh(fifo.mem) && fresh(obi) && fresh(aligner)
    {
      this.mem := mem;
      prefetch := new PrefetchController.PrefetchController(config);
      fifo := new Fifo.Fifo<Word>(config.depth, false);
      obi := new ObiInterface.ObiInterface();
      aligner := new Aligner.Aligner(mem);
      bus, view, feed, taken, booted := [], P.View([], []), Feed(4, false, None), false, false;
      new;
      ResetInv(mem, config);
    }

    /** The word on offer to the aligner. */
    method Offer(i: In) returns (toAligner: AlignerLogic.In)
      requires Shape()
      ensures toAligner == AlignerIn(Registers(), i)
    {
      var fetchValid := P.FetchValid(prefetch.Registers(), P.In(i.req, i.pcSet, Target(i), i.jump, i.jumpTarget,
                                     O.TransReady(obi.Registers()), i.rvalid, false, fifo.statusCnt));
      var rdata := if fifo.statusCnt == 0 then i.rdata else fifo.mem[fifo.readPointer];
      var ifValid := !i.haltIf && fetchValid && i.idReady;
      toAligner := AlignerLogic.In(fetchValid, rdata, ifValid, i.pcSet, Target(i), i.jump, i.jumpTarget);
    }

    /** The combinational signals of a cycle. */
    method Signals(i: In) returns (toAligner: AlignerLogic.In, toPrefetch: P.In, toObi: O.In)
      requires Shape()
      ensures toAligner == AlignerIn(Registers(), i)
      ensures toPrefetch == FrontIn(Registers(), i)
      ensures toObi == ObiIn(prefetch.config, Registers(), i)
      ensures toAligner.branch == i.pcSet && EvenPart(toAligner.branchAddr, i.branchAddr)
      ensures toPrefetch.branch == i.pcSet && toPrefetch.branchAddr == toAligner.branchAddr
    {
      toAligner := Offer(i);
      var alignerReady := AlignerLogic.Outputs(aligner.Registers(), toAligner).alignerReady;
      var fetchReady := !i.pcSet && toAligner.fetchValid && i.req && toAligner.ifValid && alignerReady;
      toPrefetch := P.In(i.req, i.pcSet, Target(i), i.jump, i.jumpTarget, O.TransReady(obi.Registers()), i.rvalid,
                         fetchReady, fifo.statusCnt);
      toObi := O.In(P.TransValid(prefetch.config, prefetch.Registers(), toPrefetch),
                    WordBase(P.TransAddr(prefetch.Registers(), toPrefetch)), i.gnt);
    }

    /** The clock edge of all instances. */
    method Clock(toAligner: AlignerLogic.In, toPrefetch: P.In, toObi: O.In, rdata: Word) returns (events: seq<Event>)
      requires Shape() && P.Protocol(prefetch.Registers(), toPrefetch)
      requires aligner.Valid() && AlignerLogic.Contract(mem, aligner.feed, aligner.Registers(), toAligner)
      modifies prefetch, fifo, fifo.mem, obi, aligner
      ensures Shape() && fifo.mem == old(fifo.mem)
      ensures prefetch.Registers() == P.NextRegs(prefetch.config, old(prefetch.Registers()), toPrefetch)
      ensures fifo.Queue() == FifoLogic.NextQueue(prefetch.config.depth, false, old(fifo.Queue()),
                                                  P.FifoControls(old(prefetch.Registers()), toPrefetch, rdata))
      ensures obi.Registers() == O.NextRegs(old(obi.Registers()), toObi)
      ensures aligner.Registers() == AlignerLogic.NextRegs(old(aligner.Registers()), toAligner)
      ensures aligner.Valid()
      ensures aligner.feed == AlignerLogic.NextFeed(old(aligner.feed), old(aligner.Registers()), toAligner)
      ensures events == AlignerLogic.Events(old(aligner.Registers()), toAligner)
      ensures Follows(mem, old(aligner.cursor), events)
      ensures aligner.cursor == CursorAfter(mem, old(aligner.cursor), events)
    {
      var controls := P.FifoControls(prefetch.Registers(), toPrefetch, rdata);
      var _, _, _, _ := fifo.Step(controls);
      prefetch.Step(toPrefetch);
      obi.Step(toObi);
      events := aligner.Step(toAligner);
    }

    /** A cycle as the registers and the ports see it; `c` is where sequential execution stands after it. */
    method Edge(i: In, ghost c: Cursor) returns (events: seq<Event>)
      requires Shape() && P.Protocol(prefetch.Registers(), FrontIn(Registers(), i))
      requires aligner.Valid()
      requires AlignerLogic.Contract(mem, aligner.feed, aligner.Registers(), AlignerIn(Registers(), i))
      requires c == CursorAfter(mem, aligner.cursor, Events(Registers(), i))
      modifies prefetch, fifo, fifo.mem, obi, aligner
      ensures Shape() && fifo.mem == old(fifo.mem) && aligner.Valid()
      ensures Registers() == NextRegs(prefetch.config, old(Registers()), i)
      ensures aligner.feed
              == AlignerLogic.NextFeed(old(aligner.feed), old(aligner.Registers()), AlignerIn(old(Registers()), i))
      ensures events == Events(old(Registers()), i)
      ensures Follows(mem, old(aligner.cursor), events)
      ensures aligner.cursor == c
    {
      var toAligner, toPrefetch, toObi := Signals(i);
      events := Clock(toAligner, toPrefetch, toObi, i.rdata);
    }

    /** One clock cycle: what the ports show in it, and all registers after the edge. */
    method Step(i: In) returns (events: seq<Event>)
      requires Valid() && Env(mem, Registers(), History(), i)
      requires booted || i.pcSet || Idle(i)
      modifies this, prefetch, fifo, fifo.mem, obi, aligner
      ensures Valid() && booted == (old(booted) || i.pcSet) && fifo.mem == old(fifo.mem)
      ensures events == Events(old(Registers()), i)
      ensures Follows(mem, old(aligner.cursor), events) && Steered(events, i)
      ensures Stepped(mem, prefetch.config, old(Registers()), old(History()), i, Registers(), History())
    {
      ghost var g', h' := GoodStep(mem, prefetch.config, Registers(), History(), i, booted, aligner.feed);
      CycleIsSteered(Registers(), i);
      events := Edge(i, h'.cursor);
      Remember(h', booted || i.pcSet);
    }

    /** The ghost fields take the history `h`, whose cursor the aligner has reached. */
    ghost method Remember(h: History, b: bool)
      requires aligner.cursor == h.cursor
      modifies `bus, `view, `feed, `taken, `booted
      ensures History() == h && booted == b
    {
      bus, view, feed, taken, booted := h.bus, h.view, h.feed, h.taken, b;
    }
  }
}

/** The fetch stage over whole runs. */
module FetchRuns {
  import opened InstructionStream
  import opened FrontEndLogic
  import FifoLogic
  import FetchDecode
  import P = PrefetchLogic
  import FetchStage

  /** The rest of a run, from any state the stage can be in. */
  method Continue(d: FetchStage.FetchStage, ins: seq<In>) returns (log: seq<Event>)
    requires d.Valid() && (d.booted || StartsIdle(ins))
    requires EnvRun(d.mem, d.prefetch.config, d.Registers(), d.History(), ins)
    modifies d, d.prefetch, d.fifo, d.fifo.mem, d.obi, d.aligner
    ensures log == Log(d.mem, d.prefetch.config, old(d.Registers()), old(d.History()), ins)
    decreases |ins|
  {
    log := [];
    if ins != [] {
      var events := d.Step(ins[0]);
      var rest := Continue(d, ins[1..]);
      log := events + rest;
    }
  }

  /** Run the stage from reset on a program in memory: what it delivers is the program, instruction by instruction. */
  method Run(ghost mem: Memory, config: P.Config, ins: seq<In>) returns (log: seq<Event>)
    requires 2 <= config.depth < 0x1_0000_0000 && FifoLogic.PowerOfTwo(config.depth)
    requires Boots(mem, config, ins)
    ensures log == BootLog(mem, config, ins)
    ensures FetchDecode.Executes(mem, START.cursor, log)
    ensures Steering(log) == AskedFor(ins)
  {
    var d := new FetchStage.FetchStage(mem, config);
    log := Continue(d, ins);
    ProgramIsExecuted(mem, config, ins);
  }
}
