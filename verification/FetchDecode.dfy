/** Aligner and decompressor together: what reaches the decoder is the reference decode of the memory image along
    sequential execution. */
module FetchDecode {
  import opened InstructionStream
  import AlignerLogic
  import opened CompressedDecoder

  /** The operation that the halfwords at `pc` encode: section 16.8 of the RISC-V Unprivileged ISA (20191213) for
      16-bit encodings; `None` for a reserved one. The halfword at the higher address is the upper half. */
  function OperationAt(mem: Memory, pc: Addr): Option<Operation> {
    if Is32(mem(pc)) then Some(Decode32(Halves(mem(pc), mem(Plus(pc, 2)))))
    else Compressed(mem(pc) as bv32)
  }

  /** What the decoder receives for the instruction at `pc`: the operation there, and a 32-bit instruction as it stands
      in memory. */
  predicate Receives(mem: Memory, pc: Addr, e: Expansion) {
    && Reads(e, OperationAt(mem, pc))
    && (Is32(mem(pc)) ==> e == Expansion(Halves(mem(pc), mem(Plus(pc, 2))), false))
  }

  /** A delivered instruction expands to the operation at its address and is flagged compressed by its length. */
  lemma DeliveryReads(mem: Memory, pc: Addr, i: Word)
    requires Carries(mem, pc, i)
    ensures Receives(mem, pc, Expand(i))
    ensures Following(mem, pc) == Plus(pc, if IsCompressed(i) then 2 else 4)
  {
    CompressedIffNot32(i);
    if IsCompressed(i) {
      ExpansionReads(i);
    } else {
      FullWordPasses(i.lo, i.hi);
    }
  }

  lemma CompressedIffNot32(i: Word)
    ensures IsCompressed(i) <==> !Is32(i.lo)
  {
  }

  /** The log read by a decoder that knows lengths only from `is_compressed_o`: every delivery stands at the address
      reached so, and its expansion is the operation there. */
  predicate Executes(mem: Memory, c: Cursor, log: seq<Event>)
    decreases |log|
  {
    log != [] ==>
      match log[0]
      case Deliver(pc, i) =>
        && pc == c.pc && Receives(mem, pc, Expand(i))
        && var next := if c.detour.Some? then c.detour.value else Plus(pc, if IsCompressed(i) then 2 else 4);
           Executes(mem, Cursor(next, None), log[1..])
      case Redirect(t) => Executes(mem, Cursor(t, None), log[1..])
      case LoopBack(t) => Executes(mem, c.(detour := Some(t)), log[1..])
  }

  /** What that means delivery by delivery, between redirects. */
  lemma {:induction false} ExecutesAt(mem: Memory, c: Cursor, log: seq<Event>, n: nat, pc: Addr, i: Word)
    requires Executes(mem, c, log) && forall k :: 0 <= k < |log| ==> log[k].Deliver?
    requires n < |log| && log[n] == Deliver(pc, i)
    ensures Receives(mem, pc, Expand(i)) && (n == 0 ==> pc == c.pc)
    ensures n + 1 < |log| && (c.detour.None? || n > 0) ==> log[n + 1].pc == Plus(pc, if IsCompressed(i) then 2 else 4)
    decreases n
  {
    if n > 0 {
      var first := log[0].instr;
      var next := if c.detour.Some? then c.detour.value else Plus(log[0].pc, if IsCompressed(first) then 2 else 4);
      ExecutesAt(mem, Cursor(next, None), log[1..], n - 1, pc, i);
    } else if |log| > 1 {
      assert log[1..][0] == log[1];
    }
  }

  /** Either kind of instruction, in full. */
  lemma ReceivesIff(mem: Memory, pc: Addr, e: Expansion)
    ensures Receives(mem, pc, e)
            <==> if Is32(mem(pc)) then e == Expansion(Halves(mem(pc), mem(Plus(pc, 2))), false)
                 else Reads(e, Compressed(mem(pc) as bv32))
  {
  }

  lemma {:induction false} FollowingExecutes(mem: Memory, c: Cursor, log: seq<Event>)
    requires Follows(mem, c, log)
    ensures Executes(mem, c, log)
    decreases |log|
  {
    if log != [] {
      FollowingExecutes(mem, Advance(mem, c, log[0]), log[1..]);
      if log[0].Deliver? {
        DeliveryReads(mem, c.pc, log[0].instr);
      }
    }
  }

  /** For every memory image, stall schedule, branches and loop redirects, aligner and decompressor together yield
      the reference decode of the stream. */
  lemma {:induction false} RunExecutes(mem: Memory, g: AlignerLogic.Regs, f: Feed, c: Cursor, ins: seq<AlignerLogic.In>)
    requires AlignerLogic.Represents(mem, g, f, c) && AlignerLogic.ContractRun(mem, f, g, ins)
    ensures Executes(mem, c, AlignerLogic.Log(g, ins))
  {
    AlignerLogic.RunFollows(mem, g, f, c, ins);
    FollowingExecutes(mem, c, AlignerLogic.Log(g, ins));
  }
}
