/** The prefetch controller as a clocked machine. */
module PrefetchController {
  import opened InstructionStream
  import opened PrefetchLogic

  class PrefetchController {
    const config: Config

    var state: State
    var cnt: nat
    var flushCnt: nat
    var transAddr: Addr
    var hwlpFlushAfterResp: bool
    var hwlpFlushCntDelayed: nat

    function Registers(): Regs
      reads this
    {
      Regs(state, cnt, flushCnt, transAddr, hwlpFlushAfterResp, hwlpFlushCntDelayed)
    }

    constructor (config: Config)
      ensures this.config == config && Registers() == RESET
    {
      this.config := config;
      state, cnt, flushCnt, transAddr := IDLE, 0, 0, 0;
      hwlpFlushAfterResp, hwlpFlushCntDelayed := false, 0;
    }

    /** One clock edge. */
    method Step(i: In)
      requires Protocol(Registers(), i)
      modifies this
      ensures Registers() == NextRegs(config, old(Registers()), i)
    {
      var accepts := Accepts(config, Registers(), i);
      var address := TransAddr(Registers(), i);
      var outstanding := if i.respValid then cnt - 1 else cnt;
      var delayedFlush := hwlpFlushAfterResp && i.respValid;

      // cnt_q, flush_cnt_q
      var flush := flushCnt;
      if i.branch || JumpFlushes(i) {
        flush := outstanding;
      } else if delayedFlush {
        flush := hwlpFlushCntDelayed;
      } else if i.respValid && flushCnt > 0 {
        flush := flushCnt - 1;
      }

      // hwlp_flush_after_resp, hwlp_flush_cnt_delayed_q
      if i.branch {
        hwlpFlushAfterResp, hwlpFlushCntDelayed := false, 0;
      } else if JumpWaits(i) {
        hwlpFlushAfterResp, hwlpFlushCntDelayed := true, cnt - 1;
      } else if delayedFlush {
        hwlpFlushAfterResp, hwlpFlushCntDelayed := false, 0;
      }

      // state_q
      if state == IDLE && (i.branch || i.jump) && !accepts {
        state := BRANCH_WAIT;
      } else if state == BRANCH_WAIT && accepts {
        state := IDLE;
      }

      // trans_addr_q
      if i.branch || i.jump || accepts {
        transAddr := address;
      }
      cnt := if accepts then outstanding + 1 else outstanding;
      flushCnt := flush;
    }
  }
}

/** The OBI adapter as a clocked machine. */
module ObiInterface {
  import opened InstructionStream
  import opened ObiLogic

  class ObiInterface {
    var registered: bool
    var obiAddr: Addr

    function Registers(): Regs
      reads this
    {
      Regs(registered, obiAddr)
    }

    constructor ()
      ensures Registers() == RESET
    {
      registered, obiAddr := false, 0;
    }

    method Step(i: In)
      modifies this
      ensures Registers() == NextRegs(old(Registers()), i)
    {
      if !registered && i.transValid && !i.gnt {
        registered, obiAddr := true, i.transAddr;
      } else if registered && i.gnt {
        registered := false;
      }
    }
  }
}
