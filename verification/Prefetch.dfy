/** The prefetch controller (rtl/cv32e40p_prefetch_controller.sv) with its FIFO: it requests words ahead of execution,
    drops the responses that a branch or a hardware loop has made useless, and offers the rest in order. */
module PrefetchLogic {
  import opened InstructionStream
  import FifoLogic

  datatype State = IDLE | BRANCH_WAIT

  datatype Regs = Regs(
    state: State,
    cnt: nat,            // accepted requests without a response
    flushCnt: nat,       // responses still to be dropped
    transAddr: Addr,
    afterResp: bool,     // a loop jump waits for the last instruction of its body
    delayed: nat)        // responses to drop after that instruction

  datatype In = In(
    req: bool,
    branch: bool,
    branchAddr: Addr,
    jump: bool,
    jumpTarget: Addr,
    transReady: bool,
    respValid: bool,
    fetchReady: bool,
    fifoCnt: nat)

  /** `DEPTH` and `PULP_OBI`. */
  datatype Config = Config(depth: nat, pulpObi: bool)

  const RESET := Regs(IDLE, 0, 0, 0, false, 0)

  // ---------------------------------------------------------------- outputs

  predicate TransValid(p: Config, g: Regs, i: In) {
    var masked := if i.branch || i.jump then 0 else i.fifoCnt;
    i.req && masked + g.cnt < p.depth && (p.pulpObi ==> g.cnt == 0 || i.respValid)
  }

  predicate Accepts(p: Config, g: Regs, i: In) {
    TransValid(p, g, i) && i.transReady
  }

  function TransAddr(g: Regs, i: In): Addr {
    if i.branch then WordBase(i.branchAddr)
    else
      match g.state
      case IDLE => if i.jump then i.jumpTarget else Plus(WordBase(g.transAddr), 4)
      case BRANCH_WAIT => g.transAddr
  }

  predicate FetchValid(g: Regs, i: In) {
    (i.fifoCnt > 0 || i.respValid) && !(i.branch || g.flushCnt > 0)
  }

  /** The controls of the FIFO; `x` is the response. */
  function FifoControls<T>(g: Regs, i: In, x: T): FifoLogic.In<T> {
    var pop := i.fifoCnt > 0 && i.fetchReady;
    FifoLogic.In(
      i.branch || (i.jump && i.fifoCnt > 0 && pop),
      i.jump && i.fifoCnt > 0 && !pop,
      i.respValid && (i.fifoCnt > 0 || !i.fetchReady) && !(i.branch || g.flushCnt > 0),
      pop,
      x)
  }

  // ---------------------------------------------------------------- next state

  /** A response answers an outstanding request, and a loop jump comes when the last instruction of the body has been
      requested: what the OBI protocol and the controller's own assertion demand. */
  predicate Protocol(g: Regs, i: In) {
    (i.respValid ==> g.cnt > 0) && (i.jump ==> i.fifoCnt > 0 || g.cnt > 0)
  }

  function Outstanding(g: Regs, i: In): nat
    requires Protocol(g, i)
  {
    if i.respValid then g.cnt - 1 else g.cnt
  }

  predicate JumpFlushes(i: In) {
    i.jump && (i.fifoCnt > 0 || i.respValid)
  }

  predicate JumpWaits(i: In) {
    i.jump && i.fifoCnt == 0 && !i.respValid
  }

  function NextFlushCnt(g: Regs, i: In): nat
    requires Protocol(g, i)
  {
    if i.branch || JumpFlushes(i) then Outstanding(g, i)
    else if g.afterResp && i.respValid then g.delayed
    else if i.respValid && g.flushCnt > 0 then g.flushCnt - 1
    else g.flushCnt
  }

  function NextState(p: Config, g: Regs, i: In): State {
    match g.state
    case IDLE => if (i.branch || i.jump) && !Accepts(p, g, i) then BRANCH_WAIT else IDLE
    case BRANCH_WAIT => if Accepts(p, g, i) then IDLE else BRANCH_WAIT
  }

  function NextRegs(p: Config, g: Regs, i: In): Regs
    requires Protocol(g, i)
  {
    var clears := i.branch || (!JumpWaits(i) && g.afterResp && i.respValid);
    Regs(
      NextState(p, g, i),
      if Accepts(p, g, i) then Outstanding(g, i) + 1 else Outstanding(g, i),
      NextFlushCnt(g, i),
      if i.branch || i.jump || Accepts(p, g, i) then TransAddr(g, i) else g.transAddr,
      if clears then false else JumpWaits(i) || g.afterResp,
      if clears then 0 else if JumpWaits(i) then g.cnt - 1 else g.delayed)
  }

  // ---------------------------------------------------------------- the addresses behind the registers

  /** Addresses of the words in the FIFO and of the requests without a response. */
  datatype View = View(words: seq<Addr>, pending: seq<Addr>)

  function Answered(v: View, i: In): seq<Addr>
    requires i.respValid ==> v.pending != []
  {
    if i.respValid then v.pending[1..] else v.pending
  }

  function Requested(p: Config, g: Regs, i: In): seq<Addr> {
    if Accepts(p, g, i) then [TransAddr(g, i)] else []
  }

  function NextWords(p: Config, g: Regs, v: View, i: In): seq<Addr>
    requires p.depth >= 1 && (i.respValid ==> v.pending != [])
  {
    FifoLogic.NextQueue(p.depth, false, v.words, FifoControls(g, i, if i.respValid then v.pending[0] else 0))
  }

  function NextView(p: Config, g: Regs, v: View, i: In): View
    requires p.depth >= 1 && (i.respValid ==> v.pending != [])
  {
    View(NextWords(p, g, v, i), Answered(v, i) + Requested(p, g, i))
  }

  /** The address of the word on offer. */
  function Offered(v: View): Addr
    requires v.words != [] || v.pending != []
  {
    if v.words != [] then v.words[0] else v.pending[0]
  }

  /** `s` are the word addresses from `a` up to but without `b`. */
  predicate Leads(s: seq<Addr>, a: Addr, b: Addr) {
    if s == [] then a == b else s[0] == a && Leads(s[1..], Plus(a, 4), b)
  }

  lemma {:induction false} LeadsOn(s: seq<Addr>, a: Addr, b: Addr)
    requires Leads(s, a, b)
    ensures Leads(s + [b], a, Plus(b, 4))
  {
    if s == [] {
      assert (s + [b])[1..] == [];
    } else {
      LeadsOn(s[1..], Plus(a, 4), b);
      assert (s + [b])[1..] == s[1..] + [b];
    }
  }

  /** The next address the controller requests of its own accord. */
  function NextRequest(g: Regs): Addr {
    if g.state == IDLE then Plus(g.transAddr, 4) else g.transAddr
  }

  /** `s` is requested and not dropped, from `a` on; the next request continues it. */
  predicate Continues(g: Regs, s: seq<Addr>, a: Addr) {
    Leads(s, a, NextRequest(g)) && (g.state == BRANCH_WAIT ==> s == [])
  }

  predicate Sized(p: Config, g: Regs, v: View) {
    && p.depth >= 2 && g.cnt == |v.pending| <= p.depth && g.flushCnt <= g.cnt
    && WordAligned(g.transAddr) && (p.pulpObi ==> g.cnt <= 1)
  }

  predicate Roomy(p: Config, g: Regs, v: View) {
    |v.words| + (g.cnt - g.flushCnt) <= p.depth
  }

  /** No loop redirect pending. */
  predicate PlainForm(p: Config, g: Regs, v: View, f: Feed) {
    && Sized(p, g, v) && f.detour.None? && !g.afterResp && Roomy(p, g, v)
    && (g.flushCnt > 0 ==> v.words == [])
    && (f.offered ==> v.words != [] && g.flushCnt == 0)
  }

  /** After the responses to drop comes the stream. */
  predicate Plain(p: Config, g: Regs, v: View, f: Feed) {
    PlainForm(p, g, v, f) && Continues(g, v.words + v.pending[g.flushCnt..], f.next)
  }

  /** The last instruction of a loop body is in the FIFO. */
  predicate HeldForm(p: Config, g: Regs, v: View, f: Feed) {
    && Sized(p, g, v) && f.detour.Some? && !f.offered && !g.afterResp && Roomy(p, g, v)
    && v.words != [] && v.words[0] == f.next
    && (g.flushCnt > 0 ==> v.words[1..] == [])
  }

  /** Behind it comes the stream from the loop's target. */
  predicate Held(p: Config, g: Regs, v: View, f: Feed) {
    HeldForm(p, g, v, f) && Continues(g, v.words[1..] + v.pending[g.flushCnt..], f.detour.value)
  }

  /** The last instruction of a loop body is the next response. */
  predicate WaitingForm(p: Config, g: Regs, v: View, f: Feed) {
    && Sized(p, g, v) && f.detour.Some? && !f.offered && g.afterResp && g.flushCnt == 0
    && v.words == [] && g.delayed < g.cnt && v.pending[0] == f.next
  }

  /** After it, and after the responses to drop then, comes the stream from the loop's target. */
  predicate Waiting(p: Config, g: Regs, v: View, f: Feed) {
    WaitingForm(p, g, v, f) && Continues(g, v.pending[g.delayed + 1..], f.detour.value)
  }

  /** What every cycle keeps. */
  predicate Inv(p: Config, g: Regs, v: View, f: Feed) {
    Plain(p, g, v, f) || Held(p, g, v, f) || Waiting(p, g, v, f)
  }

  // ---------------------------------------------------------------- one cycle

  /** The consumer's view of the cycle. */
  function NextFeed(f: Feed, i: In, fetchValid: bool): Feed {
    var d: Option<Addr> := if i.jump then Some(i.jumpTarget) else f.detour;
    if i.branch then Feed(WordBase(i.branchAddr), false, None)
    else if i.fetchReady then Feed(if d.Some? then d.value else Plus(f.next, 4), false, None)
    else Feed(f.next, fetchValid && d.None?, d)
  }

  /** What holds of the ports in every cycle. */
  predicate Ports(g: Regs, v: View, i: In) {
    && i.fifoCnt == |v.words|
    && (i.respValid ==> v.pending != [])
    && (i.fetchReady ==> FetchValid(g, i))
  }

  /** The guard of a loop jump: no responses are being dropped, and the last instruction of the body is requested. */
  predicate JumpSafe(g: Regs, v: View) {
    g.flushCnt == 0 && (v.words != [] || v.pending != [])
  }

  /** A loop jump comes alone, to an aligned target, and not while another one is pending. */
  predicate JumpAlone(f: Feed, i: In) {
    i.jump && !i.branch && f.detour.None? && WordAligned(i.jumpTarget)
  }

  /** What the rest of the core promises. */
  predicate Env(g: Regs, v: View, f: Feed, i: In) {
    Ports(g, v, i) && (i.jump ==> JumpAlone(f, i) && JumpSafe(g, v))
  }

  /** The word on offer is the next one of the stream. */
  lemma OfferIsNext(p: Config, g: Regs, v: View, f: Feed, i: In)
    requires Inv(p, g, v, f) && Env(g, v, f, i) && FetchValid(g, i)
    ensures !i.branch && (v.words != [] || v.pending != [])
    ensures Offered(v) == f.next
  {
  }

  /** It stays on offer until it is taken or a redirect comes. */
  lemma OfferStays(p: Config, g: Regs, v: View, f: Feed, i: In)
    requires Inv(p, g, v, f) && Env(g, v, f, i) && f.offered && !i.branch
    ensures FetchValid(g, i)
  {
  }

  // ---------------------------------------------------------------- the invariant is kept, case by case

  /** Without a redirect, an accepted request continues the stream. */
  lemma RequestContinues(p: Config, g: Regs, s: seq<Addr>, a: Addr, i: In)
    requires Continues(g, s, a) && WordAligned(g.transAddr) && Protocol(g, i) && !i.branch && !i.jump
    ensures Continues(NextRegs(p, g, i), s + Requested(p, g, i), a)
  {
    if Accepts(p, g, i) {
      assert TransAddr(g, i) == NextRequest(g);
      LeadsOn(s, a, NextRequest(g));
    } else {
      assert s + Requested(p, g, i) == s;
    }
  }

  /** At a redirect the stream restarts with the redirect's request. */
  lemma RequestRestarts(p: Config, g: Regs, i: In)
    requires Protocol(g, i) && (i.branch || (i.jump && g.state == IDLE))
    ensures Continues(NextRegs(p, g, i), Requested(p, g, i), TransAddr(g, i))
  {
    assert Requested(p, g, i) != [] ==> Requested(p, g, i)[1..] == [];
  }

  lemma Aligned(a: Addr)
    ensures WordAligned(WordBase(a)) && WordAligned(Plus(WordBase(a), 4))
  {
  }

  /** The three next states of a cycle belong together. */
  predicate Stepped(p: Config, g: Regs, v: View, f: Feed, i: In, g': Regs, v': View, f': Feed)
    requires p.depth >= 1 && Protocol(g, i) && (i.respValid ==> v.pending != [])
  {
    g' == NextRegs(p, g, i) && v' == NextView(p, g, v, i) && f' == NextFeed(f, i, FetchValid(g, i))
  }

  /** `s` is what is left of the stream that ends in the pending requests from `n` on; new requests come behind. */
  lemma StreamAfter(p: Config, g: Regs, words: seq<Addr>, answered: seq<Addr>, n: nat, s: seq<Addr>, i: In)
    requires n <= |answered| && words + answered[n..] == s
    ensures words + (answered + Requested(p, g, i))[n..] == s + Requested(p, g, i)
  {
    assert (answered + Requested(p, g, i))[n..] == answered[n..] + Requested(p, g, i);
  }

  // ------------------------------------------------ no redirect

  /** What the FIFO and the answered requests make of the stream when no redirect comes. */
  lemma ResponseDropped(p: Config, g: Regs, v: View, f: Feed, i: In)
    requires Plain(p, g, v, f) && Env(g, v, f, i) && !i.branch && !i.jump && g.flushCnt > 0
    ensures NextWords(p, g, v, i) == [] && NextFlushCnt(g, i) <= |Answered(v, i)|
    ensures Answered(v, i)[NextFlushCnt(g, i)..] == v.pending[g.flushCnt..]
  {
  }

  lemma ResponseUsed(p: Config, g: Regs, v: View, f: Feed, i: In)
    requires Plain(p, g, v, f) && Env(g, v, f, i) && !i.branch && !i.jump && g.flushCnt == 0
    ensures NextFlushCnt(g, i) == 0
    ensures NextWords(p, g, v, i) + Answered(v, i)
            == if i.fetchReady then (v.words + v.pending)[1..] else v.words + v.pending
  {
    if i.respValid {
      assert v.pending == [v.pending[0]] + v.pending[1..];
    }
  }

  /** The stream of requested words: its head leaves when it is taken. */
  lemma PlainStream(p: Config, g: Regs, v: View, f: Feed, i: In)
    requires Plain(p, g, v, f) && Env(g, v, f, i) && !i.branch && !i.jump
    ensures var s, n := v.words + v.pending[g.flushCnt..], NextFlushCnt(g, i);
            && n <= |Answered(v, i)|
            && NextWords(p, g, v, i) + Answered(v, i)[n..] == if i.fetchReady then s[1..] else s
  {
    if g.flushCnt > 0 {
      ResponseDropped(p, g, v, f, i);
    } else {
      ResponseUsed(p, g, v, f, i);
      assert v.pending[0..] == v.pending && Answered(v, i)[0..] == Answered(v, i);
    }
  }

  lemma PlainFormStays(p: Config, g: Regs, v: View, f: Feed, i: In, g': Regs, v': View, f': Feed)
    requires PlainForm(p, g, v, f) && Env(g, v, f, i) && !i.branch && !i.jump && Stepped(p, g, v, f, i, g', v', f')
    ensures PlainForm(p, g', v', f')
  {
    Aligned(g.transAddr);
  }

  lemma PlainKeeps(p: Config, g: Regs, v: View, f: Feed, i: In, g': Regs, v': View, f': Feed)
    requires Plain(p, g, v, f) && Env(g, v, f, i) && !i.branch && !i.jump && Stepped(p, g, v, f, i, g', v', f')
    ensures Plain(p, g', v', f')
  {
    var s := v.words + v.pending[g.flushCnt..];
    var s' := if i.fetchReady then s[1..] else s;
    PlainFormStays(p, g, v, f, i, g', v', f');
    PlainStream(p, g, v, f, i);
    StreamAfter(p, g, v'.words, Answered(v, i), g'.flushCnt, s', i);
    RequestContinues(p, g, s', f'.next, i);
  }

  // ------------------------------------------------ a branch

  lemma BranchKeeps(p: Config, g: Regs, v: View, f: Feed, i: In, g': Regs, v': View, f': Feed)
    requires Inv(p, g, v, f) && Env(g, v, f, i) && i.branch && Stepped(p, g, v, f, i, g', v', f')
    ensures Plain(p, g', v', f')
  {
    Aligned(i.branchAddr);
    StreamAfter(p, g, [], Answered(v, i), g'.flushCnt, [], i);
    RequestRestarts(p, g, i);
  }

  // ------------------------------------------------ a loop jump

  /** The jump finds the last instruction of the body at the head of the stream, and the controller idle. */
  lemma JumpFinds(p: Config, g: Regs, v: View, f: Feed, i: In)
    requires Inv(p, g, v, f) && Env(g, v, f, i) && i.jump
    ensures Plain(p, g, v, f) && g.flushCnt == 0 && g.state == IDLE && Offered(v) == f.next
  {
    var s := v.words + v.pending[g.flushCnt..];
    assert s != [] && s[0] == Offered(v);
  }

  /** It is taken in the same cycle. */
  lemma JumpTaken(p: Config, g: Regs, v: View, f: Feed, i: In, g': Regs, v': View, f': Feed)
    requires Plain(p, g, v, f) && Env(g, v, f, i) && i.jump && g.flushCnt == 0 && g.state == IDLE
    requires i.fetchReady && Stepped(p, g, v, f, i, g', v', f')
    ensures Plain(p, g', v', f')
  {
    StreamAfter(p, g, [], Answered(v, i), g'.flushCnt, [], i);
    RequestRestarts(p, g, i);
  }

  /** It is in the FIFO, or arrives and is put there. */
  lemma JumpHolds(p: Config, g: Regs, v: View, f: Feed, i: In, g': Regs, v': View, f': Feed)
    requires Plain(p, g, v, f) && Env(g, v, f, i) && i.jump && g.flushCnt == 0 && g.state == IDLE
    requires Offered(v) == f.next && !i.fetchReady && JumpFlushes(i) && Stepped(p, g, v, f, i, g', v', f')
    ensures Held(p, g', v', f')
  {
    assert v'.words == [f.next];
    StreamAfter(p, g, [], Answered(v, i), g'.flushCnt, [], i);
    RequestRestarts(p, g, i);
  }

  /** It has not arrived: the requests behind it will be dropped after it. */
  lemma JumpDelays(p: Config, g: Regs, v: View, f: Feed, i: In, g': Regs, v': View, f': Feed)
    requires Plain(p, g, v, f) && Env(g, v, f, i) && i.jump && g.flushCnt == 0 && g.state == IDLE
    requires Offered(v) == f.next && JumpWaits(i) && Stepped(p, g, v, f, i, g', v', f')
    ensures Waiting(p, g', v', f')
  {
    StreamAfter(p, g, [], v.pending, g.cnt, [], i);
    RequestRestarts(p, g, i);
  }

  // ------------------------------------------------ a loop redirect is pending

  lemma HeldStream(p: Config, g: Regs, v: View, f: Feed, i: In)
    requires Held(p, g, v, f) && Env(g, v, f, i) && !i.branch && !i.jump
    ensures var s, n, w := v.words[1..] + v.pending[g.flushCnt..], NextFlushCnt(g, i), NextWords(p, g, v, i);
            && n <= |Answered(v, i)|
            && if i.fetchReady then w + Answered(v, i)[n..] == s
               else w != [] && w[0] == f.next && w[1..] + Answered(v, i)[n..] == s
  {
    if i.respValid && g.flushCnt == 0 {
      assert v.pending == [v.pending[0]] + v.pending[1..];
      assert v.words == [v.words[0]] + v.words[1..];
    }
  }

  lemma HeldFormStays(p: Config, g: Regs, v: View, f: Feed, i: In, g': Regs, v': View, f': Feed)
    requires HeldForm(p, g, v, f) && Env(g, v, f, i) && !i.branch && !i.jump && Stepped(p, g, v, f, i, g', v', f')
    ensures if i.fetchReady then PlainForm(p, g', v', f') else HeldForm(p, g', v', f')
  {
    Aligned(g.transAddr);
  }

  lemma HeldKeeps(p: Config, g: Regs, v: View, f: Feed, i: In, g': Regs, v': View, f': Feed)
    requires Held(p, g, v, f) && Env(g, v, f, i) && !i.branch && !i.jump && Stepped(p, g, v, f, i, g', v', f')
    ensures if i.fetchReady then Plain(p, g', v', f') else Held(p, g', v', f')
  {
    var s := v.words[1..] + v.pending[g.flushCnt..];
    HeldFormStays(p, g, v, f, i, g', v', f');
    HeldStream(p, g, v, f, i);
    StreamAfter(p, g, if i.fetchReady then v'.words else v'.words[1..], Answered(v, i), g'.flushCnt, s, i);
    RequestContinues(p, g, s, f.detour.value, i);
  }

  lemma WaitingFormStays(p: Config, g: Regs, v: View, f: Feed, i: In, g': Regs, v': View, f': Feed)
    requires WaitingForm(p, g, v, f) && Env(g, v, f, i) && !i.branch && !i.jump && Stepped(p, g, v, f, i, g', v', f')
    ensures if !i.respValid then WaitingForm(p, g', v', f')
            else if i.fetchReady then PlainForm(p, g', v', f') && v'.words == []
            else HeldForm(p, g', v', f') && v'.words == [f.next]
  {
    Aligned(g.transAddr);
  }

  lemma WaitingAnswered(p: Config, g: Regs, v: View, f: Feed, i: In, g': Regs, v': View, f': Feed)
    requires Waiting(p, g, v, f) && Env(g, v, f, i) && !i.branch && !i.jump && Stepped(p, g, v, f, i, g', v', f')
    requires i.respValid
    ensures if i.fetchReady then Plain(p, g', v', f') else Held(p, g', v', f')
  {
    var s := v.pending[g.delayed + 1..];
    assert v.pending[1..][g.delayed..] == s;
    WaitingFormStays(p, g, v, f, i, g', v', f');
    StreamAfter(p, g, [], Answered(v, i), g.delayed, s, i);
    RequestContinues(p, g, s, f.detour.value, i);
  }

  lemma WaitingOn(p: Config, g: Regs, v: View, f: Feed, i: In, g': Regs, v': View, f': Feed)
    requires Waiting(p, g, v, f) && Env(g, v, f, i) && !i.branch && !i.jump && Stepped(p, g, v, f, i, g', v', f')
    requires !i.respValid
    ensures Waiting(p, g', v', f')
  {
    var s := v.pending[g.delayed + 1..];
    WaitingFormStays(p, g, v, f, i, g', v', f');
    StreamAfter(p, g, [], v.pending, g.delayed + 1, s, i);
    RequestContinues(p, g, s, f.detour.value, i);
    assert v'.pending[g'.delayed + 1..] == s + Requested(p, g, i);
  }

  /** Every cycle keeps the invariant, for every schedule of grants, responses, stalls, branches and loop jumps. */
  lemma StepKeeps(p: Config, g: Regs, v: View, f: Feed, i: In)
    requires Inv(p, g, v, f) && Env(g, v, f, i)
    ensures p.depth >= 1 && Protocol(g, i)
    ensures Inv(p, NextRegs(p, g, i), NextView(p, g, v, i), NextFeed(f, i, FetchValid(g, i)))
  {
    var g', v', f' := NextRegs(p, g, i), NextView(p, g, v, i), NextFeed(f, i, FetchValid(g, i));
    if i.branch {
      BranchKeeps(p, g, v, f, i, g', v', f');
    } else if i.jump {
      JumpFinds(p, g, v, f, i);
      if i.fetchReady {
        JumpTaken(p, g, v, f, i, g', v', f');
      } else if JumpFlushes(i) {
        JumpHolds(p, g, v, f, i, g', v', f');
      } else {
        JumpDelays(p, g, v, f, i, g', v', f');
      }
    } else if Plain(p, g, v, f) {
      PlainKeeps(p, g, v, f, i, g', v', f');
    } else if Held(p, g, v, f) {
      HeldKeeps(p, g, v, f, i, g', v', f');
    } else if i.respValid {
      WaitingAnswered(p, g, v, f, i, g', v', f');
    } else {
      WaitingOn(p, g, v, f, i, g', v', f');
    }
  }

  /** The promise behind requesting ahead: a response that has to be stored always finds room in the FIFO. */
  lemma FifoNeverOverflows(p: Config, g: Regs, v: View, f: Feed, i: In)
    requires Inv(p, g, v, f) && Env(g, v, f, i) && FifoControls(g, i, 0).push
    ensures !FifoLogic.Full(p.depth, v.words)
  {
  }

  /** The controller never runs further ahead than the FIFO is deep: no more than `depth` requests are outstanding, with
      `PULP_OBI` no more than one, and no more than `depth` words that will be used are stored or requested. */
  lemma AtMostDepthAhead(p: Config, g: Regs, v: View, f: Feed)
    requires Inv(p, g, v, f)
    ensures p.pulpObi ==> |v.pending| <= 1
    ensures |v.pending| <= p.depth && |v.words| + (|v.pending| - g.flushCnt) <= p.depth
  {
  }

  /** A word is requested exactly when the core asks for instructions and the FIFO has room for it besides what is
      stored and requested; a redirect empties the FIFO. With `PULP_OBI` nothing else may be outstanding then. */
  lemma RequestsIff(p: Config, g: Regs, v: View, f: Feed, i: In)
    requires Inv(p, g, v, f) && Env(g, v, f, i)
    ensures TransValid(p, g, i)
            <==> && i.req
                 && (if i.branch || i.jump then |v.pending| < p.depth else |v.words| + |v.pending| < p.depth)
                 && (p.pulpObi ==> Answered(v, i) == [])
  {
  }

  /** Every request is for a whole word. */
  lemma RequestsAreAligned(p: Config, g: Regs, v: View, f: Feed, i: In)
    requires Inv(p, g, v, f) && Env(g, v, f, i)
    ensures WordBase(TransAddr(g, i)) == TransAddr(g, i)
  {
    Aligned(i.branchAddr);
    Aligned(g.transAddr);
  }

  // ---------------------------------------------------------------- a loop jump that comes too early

  /** Given the controller's own assertion, a loop jump keeps the relation to the stream exactly when no responses are
      being dropped. */
  lemma JumpKeepsIff(p: Config, g: Regs, v: View, f: Feed, i: In)
    requires Inv(p, g, v, f) && Ports(g, v, i) && JumpAlone(f, i) && (v.words != [] || v.pending != [])
    ensures Protocol(g, i) && p.depth >= 1
    ensures Inv(p, NextRegs(p, g, i), NextView(p, g, v, i), NextFeed(f, i, FetchValid(g, i))) <==> g.flushCnt == 0
  {
    if g.flushCnt == 0 {
      StepKeeps(p, g, v, f, i);
    }
  }

  /** The next `n` responses will be dropped, the last of them that of `end`, and nothing is stored that could be
      offered in the meantime. A delayed flush that was armed while responses were being dropped takes effect with the
      first of them. */
  predicate Dropping(g: Regs, v: View, n: nat, end: Addr) {
    && v.words == [] && g.cnt == |v.pending| && n <= g.cnt
    && (n > 0 ==>
          && v.pending[n - 1] == end && g.flushCnt > 0
          && if g.afterResp then n <= g.delayed + 1 else n <= g.flushCnt)
  }

  lemma BodyEndIsBehind(p: Config, g: Regs, v: View, f: Feed)
    requires Plain(p, g, v, f) && 0 < g.flushCnt < g.cnt
    ensures v.pending[g.flushCnt] == f.next
  {
    assert v.words + v.pending[g.flushCnt..] == v.pending[g.flushCnt..];
  }

  lemma EarlyJumpAnswered(p: Config, g: Regs, v: View, f: Feed, i: In)
    requires PlainForm(p, g, v, f) && Ports(g, v, i) && JumpAlone(f, i) && 0 < g.flushCnt < g.cnt && i.respValid
    ensures Protocol(g, i) && Dropping(NextRegs(p, g, i), NextView(p, g, v, i), g.flushCnt, v.pending[g.flushCnt])
  {
  }

  lemma EarlyJumpUnanswered(p: Config, g: Regs, v: View, f: Feed, i: In)
    requires PlainForm(p, g, v, f) && Ports(g, v, i) && JumpAlone(f, i) && 0 < g.flushCnt < g.cnt && !i.respValid
    ensures Protocol(g, i) && Dropping(NextRegs(p, g, i), NextView(p, g, v, i), g.flushCnt + 1, v.pending[g.flushCnt])
  {
  }

  /** With responses to drop, the jump takes the response in front for the last instruction of the body, whether it
      arrives in the same cycle or later. The body's last instruction is the one behind those to drop, and will be
      dropped as well. */
  lemma EarlyJumpDropsBodyEnd(p: Config, g: Regs, v: View, f: Feed, i: In)
    requires Inv(p, g, v, f) && Ports(g, v, i) && JumpAlone(f, i) && 0 < g.flushCnt < g.cnt
    ensures v.pending[g.flushCnt] == f.next && !FetchValid(g, i)
    ensures p.depth >= 1 && Protocol(g, i)
    ensures Dropping(NextRegs(p, g, i), NextView(p, g, v, i),
                     if i.respValid then g.flushCnt else g.flushCnt + 1, f.next)
  {
    BodyEndIsBehind(p, g, v, f);
    if i.respValid {
      EarlyJumpAnswered(p, g, v, f, i);
    } else {
      EarlyJumpUnanswered(p, g, v, f, i);
    }
  }

  /** The remaining case: the body's last instruction has not been requested. If the controller is idle it never will
      be, since the loop's target takes its place; if an earlier redirect still waits for its own request, that request
      is the last instruction, and the loop's target is forgotten instead. */
  lemma EarlyJumpBeforeRequest(p: Config, g: Regs, v: View, f: Feed, i: In)
    requires Inv(p, g, v, f) && Ports(g, v, i) && JumpAlone(f, i) && 0 < g.flushCnt == g.cnt
    ensures NextRequest(g) == f.next && v.words == [] && !FetchValid(g, i) && Protocol(g, i)
    ensures TransAddr(g, i) == (if g.state == IDLE then i.jumpTarget else f.next) == NextRegs(p, g, i).transAddr
  {
    assert v.words + v.pending[g.flushCnt..] == [];
  }

  lemma DroppingStep(p: Config, g: Regs, v: View, i: In, n: nat, end: Addr)
    requires p.depth >= 1 && Dropping(g, v, n, end) && Ports(g, v, i) && !i.branch && !i.jump
    requires i.respValid ==> n > 0
    ensures !FetchValid(g, i) && Protocol(g, i)
    ensures Dropping(NextRegs(p, g, i), NextView(p, g, v, i), if i.respValid then n - 1 else n, end)
  {
  }

  /** A run without a redirect in which no more than `n` responses arrive. */
  predicate QuietRun(p: Config, g: Regs, v: View, ins: seq<In>, n: nat)
    requires p.depth >= 1
    decreases |ins|
  {
    ins != [] ==>
      && Ports(g, v, ins[0]) && Protocol(g, ins[0]) && !ins[0].branch && !ins[0].jump
      && (ins[0].respValid ==> n > 0)
      && QuietRun(p, NextRegs(p, g, ins[0]), NextView(p, g, v, ins[0]), ins[1..],
                  if ins[0].respValid then n - 1 else n)
  }

  predicate NeverOffers(p: Config, g: Regs, v: View, ins: seq<In>, n: nat)
    requires p.depth >= 1 && QuietRun(p, g, v, ins, n)
    decreases |ins|
  {
    ins != [] ==>
      && !FetchValid(g, ins[0])
      && NeverOffers(p, NextRegs(p, g, ins[0]), NextView(p, g, v, ins[0]), ins[1..],
                     if ins[0].respValid then n - 1 else n)
  }

  lemma {:induction false} DroppingOffersNothing(p: Config, g: Regs, v: View, ins: seq<In>, n: nat, end: Addr)
    requires p.depth >= 1 && Dropping(g, v, n, end) && QuietRun(p, g, v, ins, n)
    ensures NeverOffers(p, g, v, ins, n)
    decreases |ins|
  {
    if ins != [] {
      DroppingStep(p, g, v, ins[0], n, end);
      DroppingOffersNothing(p, NextRegs(p, g, ins[0]), NextView(p, g, v, ins[0]), ins[1..],
                            if ins[0].respValid then n - 1 else n, end);
    }
  }

  /** So the instruction is lost: whatever the timing, no word is on offer from the jump until the response that brings
      it has gone by. */
  lemma {:induction false} EarlyJumpLosesBodyEnd(p: Config, g: Regs, v: View, f: Feed, i: In, later: seq<In>, n: nat)
    requires Inv(p, g, v, f) && Ports(g, v, i) && JumpAlone(f, i) && 0 < g.flushCnt < g.cnt
    requires p.depth >= 1 && Protocol(g, i) && n == if i.respValid then g.flushCnt else g.flushCnt + 1
    requires QuietRun(p, NextRegs(p, g, i), NextView(p, g, v, i), later, n)
    ensures v.pending[g.flushCnt] == f.next == NextView(p, g, v, i).pending[n - 1]
    ensures !FetchValid(g, i) && NeverOffers(p, NextRegs(p, g, i), NextView(p, g, v, i), later, n)
  {
    EarlyJumpDropsBodyEnd(p, g, v, f, i);
    DroppingOffersNothing(p, NextRegs(p, g, i), NextView(p, g, v, i), later, n, f.next);
  }

  /** Such a state: with two requests outstanding, the first to be dropped after a branch to 100, a jump that comes with
      the first response leaves 100 as the next response to drop. */
  lemma EarlyJumpExample()
    ensures var p, g, v := Config(2, false), Regs(IDLE, 2, 1, 100, false, 0), View([], [40, 100]);
            var f, i := Feed(100, false, None), In(true, false, 0, true, 64, true, true, false, 0);
            && Inv(p, g, v, f) && Ports(g, v, i) && JumpAlone(f, i) && 0 < g.flushCnt < g.cnt
            && NextView(p, g, v, i) == View([], [100]) && NextRegs(p, g, i).flushCnt == 1
  {
    var g, v := Regs(IDLE, 2, 1, 100, false, 0), View([], [40, 100]);
    assert v.words + v.pending[g.flushCnt..] == [100];
    assert [100][1..] == [];
    assert Leads([100], 100, 104);
  }
}
