/** The OBI adapter of the instruction side (rtl/cv32e40p_obi_interface.sv, TRANS_STABLE = 0): requests may change
    until they are accepted, but on the bus they may not. */
module ObiLogic {
  import opened InstructionStream

  /** `state_q` is REGISTERED exactly when `registered` holds. */
  datatype Regs = Regs(registered: bool, addr: Addr)

  const RESET := Regs(false, 0)

  datatype In = In(transValid: bool, transAddr: Addr, gnt: bool)

  predicate TransReady(g: Regs) {
    !g.registered
  }

  predicate ObiReq(g: Regs, i: In) {
    g.registered || i.transValid
  }

  function ObiAddr(g: Regs, i: In): Addr {
    if g.registered then g.addr else i.transAddr
  }

  function NextRegs(g: Regs, i: In): Regs {
    if g.registered then g.(registered := !i.gnt)
    else if i.transValid && !i.gnt then Regs(true, i.transAddr)
    else g
  }

  predicate Granted(g: Regs, i: In) {
    ObiReq(g, i) && i.gnt
  }

  predicate Accepted(g: Regs, i: In) {
    i.transValid && TransReady(g)
  }

  /** A request stays on the bus with its address until it is granted. */
  lemma RequestIsStable(g: Regs, now: In, later: In)
    requires ObiReq(g, now) && !now.gnt
    ensures ObiReq(NextRegs(g, now), later) && ObiAddr(NextRegs(g, now), later) == ObiAddr(g, now)
  {
  }

  /** The accepted requests without a response are those granted on the bus, then the one that waits for a grant. */
  predicate Tracks(g: Regs, bus: seq<Addr>, pending: seq<Addr>) {
    pending == bus + (if g.registered then [g.addr] else [])
  }

  function NextBus(g: Regs, bus: seq<Addr>, i: In, rvalid: bool): seq<Addr>
    requires rvalid ==> bus != []
  {
    (if rvalid then bus[1..] else bus) + (if Granted(g, i) then [ObiAddr(g, i)] else [])
  }

  /** Accepted requests reach the bus once each and in order. */
  lemma StepTracks(g: Regs, bus: seq<Addr>, pending: seq<Addr>, i: In, rvalid: bool)
    requires Tracks(g, bus, pending) && (rvalid ==> bus != [])
    ensures rvalid ==> pending != [] && pending[0] == bus[0]
    ensures Tracks(NextRegs(g, i), NextBus(g, bus, i, rvalid),
                   (if rvalid then pending[1..] else pending) + (if Accepted(g, i) then [i.transAddr] else []))
  {
    var left := if rvalid then bus[1..] else bus;
    if g.registered {
      assert rvalid ==> pending[1..] == left + [g.addr];
    } else {
      assert pending == bus;
    }
  }
}
