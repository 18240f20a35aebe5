/** The FIFO (rtl/cv32e40p_fifo.sv) for any depth of at least one, with and without fall-through, refined to a bounded
    sequence. */
module FifoLogic {
  import opened Words
  import opened Sequences

  datatype In<T> = In(flush: bool, flushButFirst: bool, push: bool, pop: bool, data: T)

  /** `ADDR_DEPTH`: the width of the pointers. */
  function AddrDepth(depth: nat): (k: nat)
    requires depth >= 1
    ensures k >= 1 && depth <= Pow2(k)
  {
    if depth > 1 then Clog2(depth) else 1
  }

  predicate PowerOfTwo(depth: nat)
    requires depth >= 1
  {
    depth == Pow2(AddrDepth(depth))
  }

  /** `FIFO_DEPTH[ADDR_DEPTH-1:0] - 1`, computed in 32 bits: for a power of two the cut-off depth is zero and the
      difference wraps around to a value no pointer has. */
  function WrapIndex(depth: nat): nat
    requires depth >= 1
  {
    (depth % Pow2(AddrDepth(depth)) + 0xFFFF_FFFF) % 0x1_0000_0000
  }

  /** A pointer register after an increment; the sum is cut to the width of the register. */
  function Increment(depth: nat, p: nat): (r: nat)
    requires depth >= 1
    ensures r < Pow2(AddrDepth(depth))
  {
    if p == WrapIndex(depth) then 0 else (p + 1) % Pow2(AddrDepth(depth))
  }

  /** The pointer arithmetic is cyclic in both regimes: by the comparison when the depth is not a power of two (or is
      one), by truncation when it is. */
  lemma IncrementIsCyclic(depth: nat, p: nat)
    requires 1 <= depth < 0x1_0000_0000 && p < depth
    ensures Increment(depth, p) == if p + 1 == depth then 0 else p + 1
  {
    if PowerOfTwo(depth) {
      TruncationWraps(depth, p);
    } else {
      ComparisonWraps(depth, p);
    }
  }

  lemma TruncationWraps(depth: nat, p: nat)
    requires 1 <= depth < 0x1_0000_0000 && p < depth && PowerOfTwo(depth)
    ensures WrapIndex(depth) == 0xFFFF_FFFF
    ensures (p + 1) % Pow2(AddrDepth(depth)) == if p + 1 == depth then 0 else p + 1
  {
    DivModUnique(depth, depth, 1, 0);
    if p + 1 < depth {
      SmallMod(p + 1, depth);
    }
  }

  lemma ComparisonWraps(depth: nat, p: nat)
    requires 1 <= depth < 0x1_0000_0000 && p < depth && !PowerOfTwo(depth)
    ensures WrapIndex(depth) == depth - 1
    ensures (p + 1) % Pow2(AddrDepth(depth)) == p + 1
  {
    SmallMod(depth, Pow2(AddrDepth(depth)));
    SmallMod(p + 1, Pow2(AddrDepth(depth)));
  }

  /** Position `k` places behind `p` in the ring. */
  function Around(depth: nat, p: nat, k: nat): nat
    requires depth >= 1
  {
    if p + k < depth then p + k else p + k - depth
  }

  /** The `n` memory cells from `p` on, around the ring. */
  function Ring<T>(m: seq<T>, p: nat, n: nat): (q: seq<T>)
    requires p < |m| && n <= |m|
    ensures |q| == n
    ensures forall k :: 0 <= k < n ==> q[k] == m[Around(|m|, p, k)]
  {
    seq(n, k requires 0 <= k < n => m[Around(|m|, p, k)])
  }

  /** Writing behind the last element appends it and leaves the others alone. */
  lemma RingPush<T>(m: seq<T>, p: nat, n: nat, x: T)
    requires p < |m| && n < |m|
    ensures var m' := m[Around(|m|, p, n) := x];
            && Ring(m', p, n + 1) == Ring(m, p, n) + [x]
            && forall j :: 0 <= j <= n ==> Ring(m', p, j) == Ring(m, p, n)[..j]
  {
  }

  lemma RingPop<T>(m: seq<T>, p: nat, n: nat)
    requires p < |m| && 0 < n <= |m|
    ensures Around(|m|, p, 1) < |m|
    ensures Ring(m, Around(|m|, p, 1), n - 1) == Ring(m, p, n)[1..]
  {
  }

  // ---------------------------------------------------------------- the abstract queue

  predicate Full<T>(depth: nat, q: seq<T>) {
    |q| == depth
  }

  predicate Empty<T>(fallThrough: bool, q: seq<T>, i: In<T>) {
    q == [] && !(fallThrough && i.push)
  }

  /** The queue with the word that is being pushed. */
  function Pushed<T>(depth: nat, q: seq<T>, i: In<T>): seq<T> {
    if i.push && !Full(depth, q) then q + [i.data] else q
  }

  /** A push into a full queue and a pop from an empty one do nothing; the flushes win over both. */
  function NextQueue<T>(depth: nat, fallThrough: bool, q: seq<T>, i: In<T>): seq<T>
    requires depth >= 1
  {
    if i.flush then []
    else if i.flushButFirst then (if q == [] then [] else q[..1])
    else
      var p := Pushed(depth, q, i);
      if i.pop && !Empty(fallThrough, q, i) then p[1..] else p
  }

  // ---------------------------------------------------------------- the registers

  datatype Pointers = Pointers(read: nat, write: nat, cnt: nat)

  predicate FullFlag(depth: nat, g: Pointers) {
    g.cnt == depth
  }

  predicate EmptyFlag<T>(fallThrough: bool, g: Pointers, i: In<T>) {
    g.cnt == 0 && !(fallThrough && i.push)
  }

  predicate Writes<T>(depth: nat, g: Pointers, i: In<T>) {
    i.push && !FullFlag(depth, g)
  }

  /** `read_write_comb`. */
  function NextPointers<T>(depth: nat, fallThrough: bool, g: Pointers, i: In<T>): Pointers
    requires depth >= 1
  {
    var push, pop := i.push && !FullFlag(depth, g), i.pop && !EmptyFlag(fallThrough, g, i);
    if fallThrough && g.cnt == 0 && i.push && i.pop then g
    else
      Pointers(
        if pop then Increment(depth, g.read) else g.read,
        if push then Increment(depth, g.write) else g.write,
        if push && pop then g.cnt else if pop then g.cnt - 1 else if push then g.cnt + 1 else g.cnt)
  }

  /** The clocked process. */
  function Clocked<T>(depth: nat, fallThrough: bool, g: Pointers, i: In<T>): Pointers
    requires depth >= 1
  {
    if i.flush then Pointers(0, 0, 0)
    else if i.flushButFirst then
      if g.cnt > 0 then Pointers(g.read, (g.read + 1) % Pow2(AddrDepth(depth)), 1) else Pointers(0, 0, 0)
    else NextPointers(depth, fallThrough, g, i)
  }

  /** What the registers always satisfy, even after a partial flush that upsets the write pointer. */
  predicate Shaped(depth: nat, g: Pointers) {
    1 <= depth < 0x1_0000_0000 && g.read < depth && g.write < Pow2(AddrDepth(depth)) && g.cnt <= depth
  }

  /** The pointers agree with the count. */
  predicate Consistent(depth: nat, g: Pointers) {
    Shaped(depth, g) && g.write == Around(depth, g.read, g.cnt)
  }

  /** The memory after the edge. */
  function NextMem<T>(depth: nat, m: seq<T>, g: Pointers, i: In<T>): (m': seq<T>)
    requires |m| == depth && Consistent(depth, g)
    ensures |m'| == depth
  {
    if Writes(depth, g, i) then m[g.write := i.data] else m
  }

  lemma PointersStayConsistent<T>(depth: nat, fallThrough: bool, g: Pointers, i: In<T>)
    requires Consistent(depth, g)
    ensures Consistent(depth, NextPointers(depth, fallThrough, g, i))
    ensures NextPointers(depth, fallThrough, g, i).read ==
            if i.pop && g.cnt > 0 then Around(depth, g.read, 1) else g.read
  {
    IncrementIsCyclic(depth, g.read);
    if Writes(depth, g, i) {
      IncrementIsCyclic(depth, g.write);
    }
  }

  /** Without a flush. */
  lemma PushPopRefine<T>(depth: nat, fallThrough: bool, m: seq<T>, g: Pointers, i: In<T>)
    requires |m| == depth && Consistent(depth, g) && !i.flush && !i.flushButFirst
    ensures var g' := NextPointers(depth, fallThrough, g, i);
            Consistent(depth, g') && Ring(NextMem(depth, m, g, i), g'.read, g'.cnt)
                                     == NextQueue(depth, fallThrough, Ring(m, g.read, g.cnt), i)
  {
    var q, m' := Ring(m, g.read, g.cnt), NextMem(depth, m, g, i);
    PointersStayConsistent(depth, fallThrough, g, i);
    if Writes(depth, g, i) {
      RingPush(m, g.read, g.cnt, i.data);
    }
    var p := Pushed(depth, q, i);
    assert Ring(m', g.read, |p|) == p;
    if i.pop && g.cnt > 0 {
      RingPop(m', g.read, |p|);
    }
  }

  /** A partial flush leaves the write pointer right exactly when the place behind the first element is not beyond a
      boundary that only a comparison would notice: the pointer wraps by truncation there. */
  predicate FlushSafe<T>(depth: nat, g: Pointers, i: In<T>)
    requires depth >= 1
  {
    KeepsFirst(i) ==> g.cnt == 0 || g.read + 1 < depth || AlwaysSafe(depth)
  }

  /** A flush that takes effect and keeps the first word. */
  predicate KeepsFirst<T>(i: In<T>) {
    i.flushButFirst && !i.flush
  }

  /** The depths at which a partial flush is safe in every state. */
  predicate AlwaysSafe(depth: nat)
    requires depth >= 1
  {
    depth > 1 && PowerOfTwo(depth)
  }

  /** After a partial flush the pointers agree with the count exactly when it is safe. */
  lemma PartialFlushPointers<T>(depth: nat, fallThrough: bool, g: Pointers, i: In<T>)
    requires Consistent(depth, g) && KeepsFirst(i)
    ensures var g' := Clocked(depth, fallThrough, g, i);
            Shaped(depth, g') && (Consistent(depth, g') <==> FlushSafe(depth, g, i))
  {
    if PowerOfTwo(depth) {
      TruncationWraps(depth, g.read);
    } else {
      ComparisonWraps(depth, g.read);
    }
  }

  /** The depths at which a partial flush never upsets the pointers are the powers of two above one; at any other it
      does when the only word lies in the last cell. */
  lemma AlwaysSafeIff<T>(depth: nat, fallThrough: bool, i: In<T>)
    requires 1 <= depth < 0x1_0000_0000 && KeepsFirst(i)
    ensures (forall g :: Consistent(depth, g) ==> Consistent(depth, Clocked(depth, fallThrough, g, i)))
            <==> AlwaysSafe(depth)
  {
    forall g | Consistent(depth, g)
      ensures Consistent(depth, Clocked(depth, fallThrough, g, i)) <==> FlushSafe(depth, g, i)
    {
      PartialFlushPointers(depth, fallThrough, g, i);
    }
    if !AlwaysSafe(depth) {
      var last := Pointers(depth - 1, 0, 1);
      assert Consistent(depth, last) && !FlushSafe(depth, last, i);
      assert !Consistent(depth, Clocked(depth, fallThrough, last, i));
    }
  }

  lemma PartialFlushRefines<T>(depth: nat, fallThrough: bool, m: seq<T>, g: Pointers, i: In<T>)
    requires |m| == depth && Consistent(depth, g) && KeepsFirst(i)
    ensures var g' := Clocked(depth, fallThrough, g, i);
            && Shaped(depth, g') && (Consistent(depth, g') <==> FlushSafe(depth, g, i))
            && Ring(NextMem(depth, m, g, i), g'.read, g'.cnt)
               == NextQueue(depth, fallThrough, Ring(m, g.read, g.cnt), i)
  {
    if Writes(depth, g, i) {
      RingPush(m, g.read, g.cnt, i.data);
    }
    PartialFlushPointers(depth, fallThrough, g, i);
  }

  /** Every clock edge takes the ring for a queue to the ring for the next queue. The queue is right even after an
      unsafe partial flush; from then on it is no longer maintained. */
  lemma StepRefines<T>(depth: nat, fallThrough: bool, m: seq<T>, g: Pointers, i: In<T>)
    requires |m| == depth && Consistent(depth, g)
    ensures var g' := Clocked(depth, fallThrough, g, i);
            && Shaped(depth, g') && (Consistent(depth, g') <==> FlushSafe(depth, g, i))
            && Ring(NextMem(depth, m, g, i), g'.read, g'.cnt)
               == NextQueue(depth, fallThrough, Ring(m, g.read, g.cnt), i)
  {
    if !i.flush {
      if i.flushButFirst {
        PartialFlushRefines(depth, fallThrough, m, g, i);
      } else {
        PushPopRefine(depth, fallThrough, m, g, i);
      }
    }
  }

  /** `data_o`. */
  function DataOut<T>(fallThrough: bool, m: seq<T>, g: Pointers, i: In<T>): T
    requires g.read < |m|
  {
    if fallThrough && g.cnt == 0 && i.push then i.data else m[g.read]
  }

  lemma OutputsRefine<T>(depth: nat, fallThrough: bool, m: seq<T>, g: Pointers, i: In<T>)
    requires |m| == depth && Consistent(depth, g)
    ensures var q := Ring(m, g.read, g.cnt);
            && FullFlag(depth, g) == Full(depth, q) && EmptyFlag(fallThrough, g, i) == Empty(fallThrough, q, i)
            && (!Empty(fallThrough, q, i) ==> DataOut(fallThrough, m, g, i) == Pushed(depth, q, i)[0])
  {
  }

  /** The unsafe case exists: with depth 3, keeping the first of three elements when it lies in the last cell puts
      the write pointer outside the memory. */
  lemma PartialFlushCanFail()
    ensures var g := Pointers(2, 2, 3);
            var i := In(false, true, false, false, 0);
            Consistent(3, g) && Clocked(3, false, g, i) == Pointers(2, 3, 1) && !Consistent(3, Pointers(2, 3, 1))
  {
    assert Pow2(2) == 4 && AddrDepth(3) == 2 by {
      assert Clog2From(3, 2) == 2 && Clog2From(3, 1) == 2 && Clog2From(3, 0) == 2;
    }
  }

  // ---------------------------------------------------------------- runs of the abstract queue

  function QueueAfter<T>(depth: nat, fallThrough: bool, q: seq<T>, ins: seq<In<T>>): seq<T>
    requires depth >= 1
    decreases |ins|
  {
    if ins == [] then q else QueueAfter(depth, fallThrough, NextQueue(depth, fallThrough, q, ins[0]), ins[1..])
  }

  /** The word accepted, and the word handed out, in a cycle. */
  function Takes<T>(depth: nat, q: seq<T>, i: In<T>): seq<T> {
    if i.push && !Full(depth, q) then [i.data] else []
  }

  function Gives<T>(depth: nat, fallThrough: bool, q: seq<T>, i: In<T>): seq<T>
    requires depth >= 1
  {
    if i.pop && !Empty(fallThrough, q, i) then [Pushed(depth, q, i)[0]] else []
  }

  function Accepted<T>(depth: nat, fallThrough: bool, q: seq<T>, ins: seq<In<T>>): seq<T>
    requires depth >= 1
    decreases |ins|
  {
    if ins == [] then []
    else Takes(depth, q, ins[0]) + Accepted(depth, fallThrough, NextQueue(depth, fallThrough, q, ins[0]), ins[1..])
  }

  function HandedOut<T>(depth: nat, fallThrough: bool, q: seq<T>, ins: seq<In<T>>): seq<T>
    requires depth >= 1
    decreases |ins|
  {
    if ins == [] then []
    else
      Gives(depth, fallThrough, q, ins[0])
      + HandedOut(depth, fallThrough, NextQueue(depth, fallThrough, q, ins[0]), ins[1..])
  }

  lemma CycleConserves<T>(depth: nat, fallThrough: bool, q: seq<T>, i: In<T>)
    requires depth >= 1 && |q| <= depth && !i.flush && !i.flushButFirst
    ensures q + Takes(depth, q, i) == Gives(depth, fallThrough, q, i) + NextQueue(depth, fallThrough, q, i)
    ensures |NextQueue(depth, fallThrough, q, i)| <= depth
  {
  }

  /** First in, first out: without flushes what was stored and accepted is what was handed out and is still stored. */
  lemma {:induction false} FirstInFirstOut<T>(depth: nat, fallThrough: bool, q: seq<T>, ins: seq<In<T>>)
    requires depth >= 1 && |q| <= depth
    requires forall k :: 0 <= k < |ins| ==> !ins[k].flush && !ins[k].flushButFirst
    ensures q + Accepted(depth, fallThrough, q, ins) ==
            HandedOut(depth, fallThrough, q, ins) + QueueAfter(depth, fallThrough, q, ins)
    ensures |QueueAfter(depth, fallThrough, q, ins)| <= depth
    decreases |ins|
  {
    if ins != [] {
      var q' := NextQueue(depth, fallThrough, q, ins[0]);
      CycleConserves(depth, fallThrough, q, ins[0]);
      FirstInFirstOut(depth, fallThrough, q', ins[1..]);
      Regroup(q, Takes(depth, q, ins[0]), Accepted(depth, fallThrough, q', ins[1..]),
              Gives(depth, fallThrough, q, ins[0]), q',
              HandedOut(depth, fallThrough, q', ins[1..]), QueueAfter(depth, fallThrough, q', ins[1..]));
    }
  }
}

module Fifo {
  import opened FifoLogic

  class Fifo<T(0)> {
    const depth: nat
    const fallThrough: bool

    var mem: array<T>
    var readPointer: nat
    var writePointer: nat
    var statusCnt: nat

    function Registers(): Pointers
      reads this
    {
      Pointers(readPointer, writePointer, statusCnt)
    }

    ghost predicate Shape()
      reads this
    {
      mem.Length == depth && Shaped(depth, Registers())
    }

    ghost predicate Valid()
      reads this
    {
      mem.Length == depth && Consistent(depth, Registers())
    }

    /** The abstract queue, oldest first. */
    ghost function Queue(): (q: seq<T>)
      requires Shape()
      reads this, mem
      ensures |q| == statusCnt
    {
      Ring(mem[..], readPointer, statusCnt)
    }

    constructor (depth: nat, fallThrough: bool)
      requires 1 <= depth < 0x1_0000_0000
      ensures Valid() && Queue() == [] && fresh(mem)
      ensures this.depth == depth && this.fallThrough == fallThrough
    {
      this.depth, this.fallThrough := depth, fallThrough;
      mem := new T[depth];
      readPointer, writePointer, statusCnt := 0, 0, 0;
    }

    /** One clock cycle: the flags and the output word, and the queue after the edge. */
    method Step(i: In<T>) returns (full: bool, empty: bool, cnt: nat, data: T)
      requires Valid()
      modifies this, mem
      ensures Shape() && mem == old(mem)
      ensures full == Full(depth, old(Queue())) && empty == Empty(fallThrough, old(Queue()), i)
      ensures cnt == |old(Queue())|
      ensures !empty ==> data == Pushed(depth, old(Queue()), i)[0]
      ensures Queue() == NextQueue(depth, fallThrough, old(Queue()), i)
      ensures Valid() <==> FlushSafe(depth, old(Registers()), i)
    {
      ghost var g, m := Registers(), mem[..];
      StepRefines(depth, fallThrough, m, g, i);
      OutputsRefine(depth, fallThrough, m, g, i);
      full, empty, cnt := FullFlag(depth, Registers()), EmptyFlag(fallThrough, Registers(), i), statusCnt;
      data := if fallThrough && statusCnt == 0 && i.push then i.data else mem[readPointer];
      var n := Clocked(depth, fallThrough, Registers(), i);
      if Writes(depth, Registers(), i) {
        mem[writePointer] := i.data;
      }
      assert mem[..] == NextMem(depth, m, g, i);
      readPointer, writePointer, statusCnt := n.read, n.write, n.cnt;
    }
  }

  /** One cycle as the consumer sees it. */
  method Cycle<T(0)>(f: Fifo<T>, i: In<T>) returns (given: seq<T>)
    requires f.Valid() && (KeepsFirst(i) ==> AlwaysSafe(f.depth))
    modifies f, f.mem
    ensures f.Valid() && f.mem == old(f.mem)
    ensures f.Queue() == NextQueue(f.depth, f.fallThrough, old(f.Queue()), i)
    ensures given == Gives(f.depth, f.fallThrough, old(f.Queue()), i)
  {
    var full, empty, cnt, data := f.Step(i);
    given := if i.pop && !empty then [data] else [];
  }

  /** Run the FIFO from reset, with partial flushes where the depth makes them safe in every state: the words handed out
      are those of the abstract queue. */
  method Run<T(0)>(depth: nat, fallThrough: bool, ins: seq<In<T>>) returns (out: seq<T>)
    requires 1 <= depth < 0x1_0000_0000
    requires forall k :: 0 <= k < |ins| ==> (KeepsFirst(ins[k]) ==> AlwaysSafe(depth))
    ensures out == HandedOut(depth, fallThrough, [], ins)
  {
    var f := new Fifo<T>(depth, fallThrough);
    out := [];
    for k := 0 to |ins|
      invariant f.Valid() && fresh(f) && fresh(f.mem) && f.depth == depth && f.fallThrough == fallThrough
      invariant HandedOut(depth, fallThrough, [], ins) == out + HandedOut(depth, fallThrough, f.Queue(), ins[k..])
    {
      ghost var q, rest := f.Queue(), ins[k..];
      assert rest[0] == ins[k] && rest[1..] == ins[k + 1..];
      assert HandedOut(depth, fallThrough, q, rest) == Gives(depth, fallThrough, q, ins[k])
             + HandedOut(depth, fallThrough, NextQueue(depth, fallThrough, q, ins[k]), ins[k + 1..]);
      var given := Cycle(f, ins[k]);
      out := out + given;
    }
  }
}
