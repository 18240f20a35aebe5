/** The divider as a clocked machine: `Step` is one clock cycle, and the ghost view follows the long division. */
module AluDiv {
  import opened DivisionSpec
  import opened Divider
  import opened DividerRegisters

  class AluDiv {
    const w: nat

    var state: State
    var areg: nat
    var breg: nat
    var resreg: nat
    var cnt: nat
    var remSel: bool
    var compInv: bool
    var resInv: bool

    ghost var view: View

    function Registers(): Regs
      reads this
    {
      Regs(state, areg, breg, resreg, cnt, remSel, compInv, resInv)
    }

    ghost predicate Valid()
      reads this
    {
      w >= 2 && Represents(w, Registers(), view)
    }

    /** Reset. */
    constructor (width: nat)
      requires width >= 2
      ensures Valid() && view == Idle && w == width
    {
      w := width;
      state, areg, breg, resreg, cnt := IDLE, 0, 0, 0, 0;
      remSel, compInv, resInv := false, false, false;
      view := Idle;
    }

    /** The clocked process. */
    method Edge(i: In)
      requires InFits(w, i)
      modifies `state, `areg, `breg, `resreg, `cnt, `remSel, `compInv, `resInv
      ensures Registers() == NextRegs(w, old(Registers()), i)
    {
      var n := NextRegs(w, Registers(), i);
      state, areg, breg, resreg, cnt := n.state, n.areg, n.breg, n.resreg, n.cnt;
      remSel, compInv, resInv := n.remSel, n.compInv, n.resInv;
    }

    /** One clock cycle: the outputs of the cycle, and the registers after the edge. */
    method Step(i: In) returns (outVld: bool, res: nat)
      requires Valid() && InFits(w, i) && Stable(view, i)
      modifies this
      ensures Valid() && view == NextView(w, old(view), i)
      ensures Registers() == NextRegs(w, old(Registers()), i)
      ensures outVld == Ready(old(view), i)
      ensures old(view).Finished? ==> res == Expected(w, old(view).job)
    {
      var g := Registers();
      StepRefines(w, g, view, i);
      OutputsRefine(w, g, view, i);
      outVld := Fsm(g, i, AbComp(w, g, i)).outVld;
      res := ResDO(w, g.remSel, g.resInv, g.areg, g.resreg);
      Edge(i);
      view := NextView(w, view, i);
    }
  }
}
