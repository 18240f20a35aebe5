/** Instruction memory and what it means to execute along it: a stream of 16- and 32-bit instructions at halfword
    addresses, parsed one after the other from a redirect target. */
module InstructionStream {

  datatype Option<T> = None | Some(value: T)

  /** A 32-bit word by its halves; `lo` is at the lower address. */
  datatype Word = Word(lo: bv16, hi: bv16)

  /** Byte addresses are 32 bits wide and wrap around. */
  const ADDRESSES := 0x1_0000_0000

  type Addr = a: nat | a < ADDRESSES

  function Plus(a: Addr, k: nat): Addr {
    (a + k) % ADDRESSES
  }

  /** The halfword at every even byte address. */
  type Memory = Addr -> bv16

  predicate WordAligned(a: Addr) {
    a % 4 == 0
  }

  /** The word an address lies in. */
  function WordBase(a: Addr): Addr {
    a - a % 4
  }

  /** In the upper half of a word. */
  predicate Misaligned(a: Addr) {
    a % 4 == 2
  }

  predicate HalfwordAligned(a: Addr) {
    a % 2 == 0
  }

  function WordAt(mem: Memory, a: Addr): Word {
    Word(mem(a), mem(Plus(a, 2)))
  }

  /** The two low bits of its first halfword tell the length of an instruction. */
  predicate Is32(h: bv16) {
    h & 3 == 3
  }

  /** `i` carries the instruction at `pc`; of a 16-bit instruction only the low half matters. */
  predicate Carries(mem: Memory, pc: Addr, i: Word) {
    i.lo == mem(pc) && (Is32(mem(pc)) ==> i.hi == mem(Plus(pc, 2)))
  }

  function Following(mem: Memory, pc: Addr): Addr {
    Plus(pc, if Is32(mem(pc)) then 4 else 2)
  }

  /** Where execution stands: the next instruction to deliver, and a hardware-loop target that replaces the address
      following it. */
  datatype Cursor = Cursor(pc: Addr, detour: Option<Addr>)

  /** The words to come between prefetcher and aligner: the address of the next one, whether it is already on offer,
      and a hardware-loop target that replaces its successor. */
  datatype Feed = Feed(next: Addr, offered: bool, detour: Option<Addr>)

  function AfterDelivery(mem: Memory, c: Cursor): Cursor {
    Cursor(if c.detour.Some? then c.detour.value else Following(mem, c.pc), None)
  }

  /** What can be seen at the fetch stage's ports, in order of time. */
  datatype Event =
    | Deliver(pc: Addr, instr: Word)
    | Redirect(target: Addr)
    | LoopBack(target: Addr)

  function Advance(mem: Memory, c: Cursor, e: Event): Cursor {
    match e
    case Deliver(_, _) => AfterDelivery(mem, c)
    case Redirect(t) => Cursor(t, None)
    case LoopBack(t) => c.(detour := Some(t))
  }

  /** The event agrees with sequential execution at the cursor. */
  predicate Agrees(mem: Memory, c: Cursor, e: Event) {
    e.Deliver? ==> e.pc == c.pc && Carries(mem, c.pc, e.instr)
  }

  /** Every delivery in the log is the instruction sequential execution has reached. */
  predicate Follows(mem: Memory, c: Cursor, log: seq<Event>)
    decreases |log|
  {
    log != [] ==> Agrees(mem, c, log[0]) && Follows(mem, Advance(mem, c, log[0]), log[1..])
  }

  function CursorAfter(mem: Memory, c: Cursor, log: seq<Event>): Cursor
    decreases |log|
  {
    if log == [] then c else CursorAfter(mem, Advance(mem, c, log[0]), log[1..])
  }

  lemma {:induction false} FollowsAppend(mem: Memory, c: Cursor, log: seq<Event>, more: seq<Event>)
    ensures Follows(mem, c, log + more) <==> Follows(mem, c, log) && Follows(mem, CursorAfter(mem, c, log), more)
    ensures CursorAfter(mem, c, log + more) == CursorAfter(mem, CursorAfter(mem, c, log), more)
    decreases |log|
  {
    if log == [] {
      assert log + more == more;
    } else {
      assert (log + more)[1..] == log[1..] + more;
      FollowsAppend(mem, Advance(mem, c, log[0]), log[1..], more);
    }
  }

  // ---------------------------------------------------------------- redirects

  /** `t` is `a` without its lowest bit. */
  predicate EvenPart(t: Addr, a: Addr) {
    t % 2 == 0 && t <= a <= t + 1
  }

  lemma EvenPartIff(t: Addr, a: Addr)
    ensures EvenPart(t, a) <==> t == a - a % 2
  {
  }

  /** A log without its deliveries. */
  function Steering(log: seq<Event>): seq<Event> {
    if log == [] then [] else (if log[0].Deliver? then [] else [log[0]]) + Steering(log[1..])
  }

  lemma {:induction false} SteeringAppend(log: seq<Event>, more: seq<Event>)
    ensures Steering(log + more) == Steering(log) + Steering(more)
  {
    if log == [] {
      assert log + more == more;
    } else {
      assert (log + more)[1..] == log[1..] + more;
      SteeringAppend(log[1..], more);
    }
  }

  // ---------------------------------------------------------------- the parse from a target

  /** Address of instruction number `n` counted from `start`. */
  function ParseAddress(mem: Memory, start: Addr, n: nat): Addr
    decreases n
  {
    if n == 0 then start else ParseAddress(mem, Following(mem, start), n - 1)
  }

  /** A log that starts with a redirect and then only delivers is the sequential parse from the target: none
      skipped, none repeated, each with its own address. */
  lemma {:induction false} FollowsIsParse(mem: Memory, start: Addr, log: seq<Event>, n: nat)
    requires Follows(mem, Cursor(start, None), log) && n < |log|
    requires forall k :: 0 <= k < |log| ==> log[k].Deliver?
    ensures log[n].pc == ParseAddress(mem, start, n) && Carries(mem, log[n].pc, log[n].instr)
    decreases n
  {
    if n > 0 {
      var next := Following(mem, start);
      assert Advance(mem, Cursor(start, None), log[0]) == Cursor(next, None);
      FollowsIsParse(mem, next, log[1..], n - 1);
    }
  }
}
