/** The in-order release of traced instructions (bhv/cv32e40p_rvfi.sv, `send_rvfi` and `empty_fifo`): instructions
    complete out of order, and are passed on in program order through a bypass queue. */
module ReorderLogic {

  /** A traced instruction: its place in program order, the floating-point state field of mstatus, the rest. */
  datatype Trace = Trace(order: int, fs: int, payload: int)

  /** What release may not change. */
  datatype Core = Core(order: int, payload: int)

  function Strip(t: Trace): Core {
    Core(t.order, t.payload)
  }

  /** How often an instruction occurs in a sequence of traces. */
  function Count(q: seq<Trace>, c: Core): nat {
    if q == [] then 0 else (if Strip(q[0]) == c then 1 else 0) + Count(q[1..], c)
  }

  lemma {:induction false} CountAppend(p: seq<Trace>, q: seq<Trace>, c: Core)
    ensures Count(p + q, c) == Count(p, c) + Count(q, c)
  {
    if p == [] {
      assert p + q == q;
    } else {
      assert (p + q)[1..] == p[1..] + q;
      CountAppend(p[1..], q, c);
    }
  }

  /** The second and third sequences together are a permutation of the first, as far as release may not change. */
  ghost predicate Splits(whole: seq<Trace>, part: seq<Trace>, rest: seq<Trace>) {
    forall c :: Count(whole, c) == Count(part, c) + Count(rest, c)
  }

  predicate Present(q: seq<Trace>, order: int) {
    exists k :: 0 <= k < |q| && q[k].order == order
  }

  /** Orders `from`, `from + 1`, ... in this sequence. */
  predicate Consecutive(q: seq<Trace>, from: int) {
    forall k :: 0 <= k < |q| ==> q[k].order == from + k
  }

  /** Of the orders `next` to `next + n - 1`, the smaller come before the larger. */
  predicate Ascends(q: seq<Trace>, next: int, n: nat) {
    forall j, k :: 0 <= j < k < |q| && next <= q[j].order < next + n && next <= q[k].order < next + n ==>
      q[j].order < q[k].order
  }

  // ---------------------------------------------------------------- one pass over the bypass queue

  /** What a pass that starts at `next` releases, in order. */
  function Released(q: seq<Trace>, next: int): seq<Trace> {
    if q == [] then []
    else if q[0].order == next then [q[0]] + Released(q[1..], next + 1)
    else Released(q[1..], next)
  }

  /** What it leaves. */
  function Kept(q: seq<Trace>, next: int): seq<Trace> {
    if q == [] then []
    else if q[0].order == next then Kept(q[1..], next + 1)
    else [q[0]] + Kept(q[1..], next)
  }

  lemma {:induction false} PassAppend(p: seq<Trace>, q: seq<Trace>, next: int)
    ensures var mid := next + |Released(p, next)|;
            && Released(p + q, next) == Released(p, next) + Released(q, mid)
            && Kept(p + q, next) == Kept(p, next) + Kept(q, mid)
  {
    if p == [] {
      assert p + q == q;
    } else {
      assert (p + q)[1..] == p[1..] + q;
      PassAppend(p[1..], q, if p[0].order == next then next + 1 else next);
    }
  }

  /** A pass releases consecutive orders. */
  lemma {:induction false} PassIsConsecutive(q: seq<Trace>, next: int)
    ensures Consecutive(Released(q, next), next)
  {
    if q != [] {
      PassIsConsecutive(q[1..], if q[0].order == next then next + 1 else next);
    }
  }

  /** A pass loses nothing and repeats nothing. */
  lemma {:induction false} PassConserves(q: seq<Trace>, next: int, c: Core)
    ensures Count(q, c) == Count(Released(q, next), c) + Count(Kept(q, next), c)
  {
    if q != [] {
      if q[0].order == next {
        PassConserves(q[1..], next + 1, c);
        CountAppend([q[0]], Released(q[1..], next + 1), c);
      } else {
        PassConserves(q[1..], next, c);
        CountAppend([q[0]], Kept(q[1..], next), c);
      }
      CountAppend([q[0]], q[1..], c);
      assert [q[0]] + q[1..] == q;
    }
  }

  /** A pass that starts with the next order in the queue releases it. */
  lemma {:induction false} PassMakesProgress(q: seq<Trace>, next: int)
    ensures Present(q, next) <==> Released(q, next) != []
  {
    if q != [] && q[0].order != next {
      PassMakesProgress(q[1..], next);
      if Present(q, next) {
        var k :| 0 <= k < |q| && q[k].order == next;
        assert q[1..][k - 1].order == next;
      }
      if Present(q[1..], next) {
        var k :| 0 <= k < |q[1..]| && q[1..][k].order == next;
        assert q[k + 1].order == next;
      }
    }
  }

  lemma PresentAppend(q: seq<Trace>, t: Trace, order: int)
    ensures Present(q + [t], order) <==> Present(q, order) || t.order == order
  {
    if Present(q, order) {
      var k :| 0 <= k < |q| && q[k].order == order;
      assert (q + [t])[k].order == order;
    }
    assert (q + [t])[|q|] == t;
  }

  // ---------------------------------------------------------------- how far one pass gets

  /** Positions, one behind the other, of orders `next`, `next + 1`, ... in the queue. */
  ghost predicate Chain(q: seq<Trace>, next: int, positions: seq<nat>) {
    && (forall k :: 0 <= k < |positions| ==> positions[k] < |q| && q[positions[k]].order == next + k)
    && (forall j, k :: 0 <= j < k < |positions| ==> positions[j] < positions[k])
  }

  /** All positions moved one place to the front. */
  function Forward(positions: seq<nat>): (r: seq<nat>)
    requires forall k :: 0 <= k < |positions| ==> positions[k] > 0
    ensures |r| == |positions| && forall k :: 0 <= k < |r| ==> r[k] == positions[k] - 1
  {
    seq(|positions|, k requires 0 <= k < |positions| => positions[k] - 1)
  }

  function Backward(positions: seq<nat>): (r: seq<nat>)
    ensures |r| == |positions| && forall k :: 0 <= k < |r| ==> r[k] == positions[k] + 1
  {
    seq(|positions|, k requires 0 <= k < |positions| => positions[k] + 1)
  }

  lemma {:induction false} ChainIsReleased(q: seq<Trace>, next: int, positions: seq<nat>)
    requires Chain(q, next, positions)
    ensures |positions| <= |Released(q, next)|
    decreases |q|
  {
    if positions != [] {
      assert positions[0] < |q| && q[positions[0]].order == next;
      if q[0].order == next {
        ChainIsReleased(q[1..], next + 1, Forward(positions[1..]));
      } else {
        ChainIsReleased(q[1..], next, Forward(positions));
      }
    }
  }

  lemma {:induction false} ReleasedIsChain(q: seq<Trace>, next: int) returns (positions: seq<nat>)
    ensures Chain(q, next, positions) && |positions| == |Released(q, next)|
    decreases |q|
  {
    positions := [];
    if q != [] {
      if q[0].order == next {
        var rest := ReleasedIsChain(q[1..], next + 1);
        positions := [0] + Backward(rest);
      } else {
        var rest := ReleasedIsChain(q[1..], next);
        positions := Backward(rest);
      }
    }
  }

  /** One pass releases `n` traces or more exactly when the next `n` orders lie in the queue one behind the other. */
  lemma PassReleasesIff(q: seq<Trace>, next: int, n: nat)
    ensures |Released(q, next)| >= n <==> exists positions :: Chain(q, next, positions) && |positions| == n
  {
    var longest := ReleasedIsChain(q, next);
    if |Released(q, next)| >= n {
      assert Chain(q, next, longest[..n]) && |longest[..n]| == n;
    } else if exists positions :: Chain(q, next, positions) && |positions| == n {
      var positions :| Chain(q, next, positions) && |positions| == n;
      ChainIsReleased(q, next, positions);
    }
  }

  function PositionOf(q: seq<Trace>, order: int): (k: nat)
    requires Present(q, order)
    ensures k < |q| && q[k].order == order
  {
    if q[0].order == order then 0
    else
      assert Present(q[1..], order) by {
        var k :| 0 <= k < |q| && q[k].order == order;
        assert q[1..][k - 1].order == order;
      }
      1 + PositionOf(q[1..], order)
  }

  predicate AllPresent(q: seq<Trace>, next: int, n: nat) {
    forall order :: next <= order < next + n ==> Present(q, order)
  }

  function Positions(q: seq<Trace>, next: int, n: nat): (r: seq<nat>)
    requires AllPresent(q, next, n)
    ensures |r| == n && forall k :: 0 <= k < n ==> r[k] < |q| && q[r[k]].order == next + k
    decreases n
  {
    if n == 0 then [] else Positions(q, next, n - 1) + [PositionOf(q, next + n - 1)]
  }

  /** A queue in which the next `n` orders come one behind the other, whatever else it holds, releases them all in one
      pass. */
  lemma AscendingQueueDrains(q: seq<Trace>, next: int, n: nat)
    requires Ascends(q, next, n) && AllPresent(q, next, n)
    ensures |Released(q, next)| >= n
  {
    var positions := Positions(q, next, n);
    forall j, k | 0 <= j < k < n
      ensures positions[j] < positions[k]
    {
      assert q[positions[j]].order == next + j && q[positions[k]].order == next + k;
    }
    ChainIsReleased(q, next, positions);
  }

  /** In general one pass is not enough: order 1 arriving before [3, 2] leaves 3 although 2 has gone. */
  lemma OnePassNeedNotDrain()
    ensures var q := [Trace(3, 0, 0), Trace(2, 0, 0)];
            Released(q, 2) == [q[1]] && Kept(q, 2) == [q[0]] && Present(Kept(q, 2), 3)
  {
    var q := [Trace(3, 0, 0), Trace(2, 0, 0)];
    assert q[1..] == [q[1]];
    assert Kept(q, 2)[0].order == 3;
  }

  // ---------------------------------------------------------------- the field that release refreshes

  /** Traces leaving the bypass queue take the current floating-point state. */
  function Refresh(q: seq<Trace>, fs: int): (r: seq<Trace>)
    ensures |r| == |q| && forall k :: 0 <= k < |q| ==> r[k] == q[k].(fs := fs)
  {
    seq(|q|, k requires 0 <= k < |q| => q[k].(fs := fs))
  }

  lemma RefreshSnoc(q: seq<Trace>, t: Trace, fs: int)
    ensures Refresh(q + [t], fs) == Refresh(q, fs) + [t.(fs := fs)]
  {
  }

  lemma {:induction false} RefreshKeepsCounts(q: seq<Trace>, fs: int, c: Core)
    ensures Count(Refresh(q, fs), c) == Count(q, c)
  {
    if q != [] {
      RefreshKeepsCounts(q[1..], fs, c);
      assert Refresh(q, fs)[1..] == Refresh(q[1..], fs);
    }
  }

  // ---------------------------------------------------------------- the loop of a pass

  /** One more entry examined. */
  lemma PassStep(q: seq<Trace>, i: nat, next: int)
    requires i < |q|
    ensures var goes := q[i].order == next + |Released(q[..i], next)|;
            && Released(q[..i + 1], next) == Released(q[..i], next) + (if goes then [q[i]] else [])
            && Kept(q[..i + 1], next) == Kept(q[..i], next) + (if goes then [] else [q[i]])
  {
    var t := [q[i]];
    assert q[..i + 1] == q[..i] + t;
    PassAppend(q[..i], t, next);
    assert t[1..] == [];
  }

  /** A pass keeps the output in order. */
  lemma PassExtendsOutput(before: seq<Trace>, q: seq<Trace>, next: int, fs: int)
    requires Consecutive(before, 1) && next == 1 + |before|
    ensures Consecutive(before + Refresh(Released(q, next), fs), 1)
  {
    PassIsConsecutive(q, next);
  }

  lemma PassKeepsSplit(whole: seq<Trace>, before: seq<Trace>, q: seq<Trace>, next: int, fs: int)
    requires Splits(whole, before, q)
    ensures Splits(whole, before + Refresh(Released(q, next), fs), Kept(q, next))
  {
    var r := Released(q, next);
    forall c
      ensures Count(whole, c) == Count(before + Refresh(r, fs), c) + Count(Kept(q, next), c)
    {
      PassConserves(q, next, c);
      RefreshKeepsCounts(r, fs, c);
      CountAppend(before, Refresh(r, fs), c);
    }
  }

  // ---------------------------------------------------------------- the bypass queue keeps the order of arrival

  /** Strictly increasing positions in `whole` of the elements of `q`. */
  ghost predicate Places(q: seq<Trace>, whole: seq<Trace>, positions: seq<nat>) {
    && |positions| == |q|
    && (forall k :: 0 <= k < |q| ==> positions[k] < |whole| && whole[positions[k]] == q[k])
    && (forall j, k :: 0 <= j < k < |q| ==> positions[j] < positions[k])
  }

  ghost predicate InArrivalOrder(q: seq<Trace>, arrived: seq<Trace>) {
    exists positions :: Places(q, arrived, positions)
  }

  lemma {:induction false} KeptPlaces(q: seq<Trace>, next: int, whole: seq<Trace>, positions: seq<nat>)
    returns (kept: seq<nat>)
    requires Places(q, whole, positions)
    ensures Places(Kept(q, next), whole, kept)
    ensures forall k :: 0 <= k < |kept| ==> q != [] && kept[k] >= positions[0]
  {
    kept := [];
    if q != [] {
      PlacesTail(q, whole, positions);
      kept := KeptPlaces(q[1..], if q[0].order == next then next + 1 else next, whole, positions[1..]);
      if q[0].order != next {
        PlacesCons(q[0], Kept(q[1..], next), whole, positions[0], kept);
        kept := [positions[0]] + kept;
      }
    }
  }

  lemma PlacesTail(q: seq<Trace>, whole: seq<Trace>, positions: seq<nat>)
    requires Places(q, whole, positions) && q != []
    ensures positions != [] && Places(q[1..], whole, positions[1..])
    ensures forall k :: 0 <= k < |positions[1..]| ==> positions[1..][k] > positions[0]
  {
  }

  lemma PlacesCons(t: Trace, q: seq<Trace>, whole: seq<Trace>, first: nat, positions: seq<nat>)
    requires Places(q, whole, positions) && first < |whole| && whole[first] == t
    requires forall k :: 0 <= k < |positions| ==> positions[k] > first
    ensures Places([t] + q, whole, [first] + positions)
  {
  }

  lemma PassKeepsOrder(q: seq<Trace>, next: int, arrived: seq<Trace>)
    requires InArrivalOrder(q, arrived)
    ensures InArrivalOrder(Kept(q, next), arrived)
  {
    var positions :| Places(q, arrived, positions);
    var kept := KeptPlaces(q, next, arrived, positions);
  }

  lemma ArrivalKeepsOrder(q: seq<Trace>, arrived: seq<Trace>, t: Trace)
    requires InArrivalOrder(q, arrived)
    ensures InArrivalOrder(q, arrived + [t]) && InArrivalOrder(q + [t], arrived + [t])
  {
    var positions :| Places(q, arrived, positions);
    var last: nat := |arrived|;
    assert Places(q, arrived + [t], positions);
    assert Places(q + [t], arrived + [t], positions + [last]);
  }

  lemma {:induction false} Occurs(q: seq<Trace>, k: nat)
    requires k < |q|
    ensures Count(q, Strip(q[k])) > 0
  {
    if k > 0 {
      Occurs(q[1..], k - 1);
    }
  }

  lemma {:induction false} Occurrence(q: seq<Trace>, c: Core) returns (k: nat)
    requires Count(q, c) > 0
    ensures k < |q| && Strip(q[k]) == c
  {
    k := 0;
    if Strip(q[0]) != c {
      var j := Occurrence(q[1..], c);
      k := 1 + j;
    }
  }

  /** An order that has arrived and is not yet due waits in the bypass queue. */
  lemma ArrivedWaits(arrived: seq<Trace>, released: seq<Trace>, bypass: seq<Trace>, order: int)
    requires Splits(arrived, released, bypass) && Consecutive(released, 1)
    requires Present(arrived, order) && order > |released|
    ensures Present(bypass, order)
  {
    var k :| 0 <= k < |arrived| && arrived[k].order == order;
    var c := Strip(arrived[k]);
    Occurs(arrived, k);
    NotReleased(released, c);
    var j := Occurrence(bypass, c);
  }

  lemma NotReleased(released: seq<Trace>, c: Core)
    requires Consecutive(released, 1) && c.order > |released|
    ensures Count(released, c) == 0
  {
    if Count(released, c) > 0 {
      var j := Occurrence(released, c);
    }
  }

  /** The next `n` orders have arrived, in ascending order. */
  predicate LateInOrder(arrived: seq<Trace>, next: int, n: nat) {
    AllPresent(arrived, next, n) && Ascends(arrived, next, n)
  }

  /** `count` covers every run of orders from `next` on that has arrived in ascending order. */
  ghost predicate CoversLate(arrived: seq<Trace>, next: int, count: int) {
    forall n: nat :: LateInOrder(arrived, next, n) ==> count >= n
  }

  lemma LateArrivalsAllDrain(arrived: seq<Trace>, released: seq<Trace>, bypass: seq<Trace>, next: int)
    requires Splits(arrived, released, bypass) && Consecutive(released, 1) && InArrivalOrder(bypass, arrived)
    requires next == |released| + 2
    ensures CoversLate(arrived, next, |Released(bypass, next)|)
  {
    forall n: nat | LateInOrder(arrived, next, n)
      ensures |Released(bypass, next)| >= n
    {
      LateArrivalsDrain(arrived, released, bypass, n);
    }
  }

  /** Late arrivals that came in ascending order all leave in the pass that follows the one they waited for. */
  lemma LateArrivalsDrain(arrived: seq<Trace>, released: seq<Trace>, bypass: seq<Trace>, n: nat)
    requires Splits(arrived, released, bypass) && Consecutive(released, 1) && InArrivalOrder(bypass, arrived)
    requires LateInOrder(arrived, |released| + 2, n)
    ensures |Released(bypass, |released| + 2)| >= n
  {
    var next := |released| + 2;
    forall order | next <= order < next + n
      ensures Present(bypass, order)
    {
      ArrivedWaits(arrived, released, bypass, order);
    }
    var positions :| Places(bypass, arrived, positions);
    forall j, k | 0 <= j < k < |bypass|
                  && next <= bypass[j].order < next + n && next <= bypass[k].order < next + n
      ensures bypass[j].order < bypass[k].order
    {
      assert positions[j] < positions[k];
    }
    AscendingQueueDrains(bypass, next, n);
  }

  /** Orders 2 and 3 arrive before order 1, and leave with it. */
  lemma LateArrivalsExample()
    ensures var q := [Trace(2, 0, 0), Trace(3, 0, 0)];
            Released(q, 2) == q && Kept(q, 2) == []
  {
    var q := [Trace(2, 0, 0), Trace(3, 0, 0)];
    assert q[1..] == [q[1]];
    assert q[1..][1..] == [];
  }

  /** Before order 1 has arrived nothing is released. */
  lemma NothingReleased(arrived: seq<Trace>, released: seq<Trace>, bypass: seq<Trace>)
    requires Splits(arrived, released, bypass) && Consecutive(released, 1)
    ensures released != [] ==> Present(arrived, 1)
  {
    if released != [] {
      Occurs(released, 0);
      var k := Occurrence(arrived, Strip(released[0]));
    }
  }

  /** An arrival joins one of the two parts. */
  lemma ArrivalKeepsSplit(whole: seq<Trace>, part: seq<Trace>, rest: seq<Trace>, t: Trace)
    requires Splits(whole, part, rest)
    ensures Splits(whole + [t], part + [t], rest) && Splits(whole + [t], part, rest + [t])
  {
    forall c
      ensures Count(whole + [t], c) == Count(part + [t], c) + Count(rest, c)
      ensures Count(whole + [t], c) == Count(part, c) + Count(rest + [t], c)
    {
      CountAppend(whole, [t], c);
      CountAppend(part, [t], c);
      CountAppend(rest, [t], c);
    }
  }
}

module ReorderQueue {
  import opened ReorderLogic

  class ReorderQueue {
    var released: seq<Trace>  // rvfi_trace_q, never shortened here: all that was ever passed on
    var bypass: seq<Trace>    // wb_bypass_trace_q
    var nextSend: int

    /** Everything that arrived so far. */
    ghost var arrived: seq<Trace>

    ghost predicate Valid()
      reads this
    {
      && Consecutive(released, 1) && nextSend == 1 + |released| && Splits(arrived, released, bypass)
      && InArrivalOrder(bypass, arrived)
    }

    constructor ()
      ensures Valid() && released == [] && bypass == [] && arrived == []
    {
      released, bypass, nextSend, arrived := [], [], 1, [];
      assert Places([], [], []);
    }

    /** One pass over the bypass queue. */
    method EmptyFifo(fs: int)
      requires Valid()
      modifies this
      ensures Valid() && arrived == old(arrived)
      ensures released == old(released) + Refresh(Released(old(bypass), old(nextSend)), fs)
      ensures bypass == Kept(old(bypass), old(nextSend))
    {
      ghost var q, next, before := bypass, nextSend, released;
      var size := |bypass|;
      for i := 0 to size
        invariant bypass == q[i..] + Kept(q[..i], next)
        invariant released == before + Refresh(Released(q[..i], next), fs)
        invariant nextSend == next + |Released(q[..i], next)|
        invariant arrived == old(arrived)
      {
        PassStep(q, i, next);
        RefreshSnoc(Released(q[..i], next), q[i], fs);
        ghost var kept := Kept(q[..i], next);
        var t := bypass[0];
        bypass := bypass[1..];
        assert t == q[i] && bypass == q[i + 1..] + kept;
        if nextSend == t.order {
          released := released + [t.(fs := fs)];
          nextSend := nextSend + 1;
        } else {
          bypass := bypass + [t];
          assert bypass == q[i + 1..] + (kept + [t]);
        }
      }
      assert q[..size] == q && q[size..] == [];
      assert bypass == Kept(q, next);
      assert released == before + Refresh(Released(q, next), fs);
      PassExtendsOutput(before, q, next, fs);
      PassKeepsSplit(arrived, before, q, next, fs);
      PassKeepsOrder(q, next, arrived);
    }

    /** A completed instruction arrives. */
    method SendRvfi(t: Trace, fs: int)
      requires Valid()
      modifies this
      ensures Valid() && arrived == old(arrived) + [t]
      ensures var q, n := old(bypass), old(nextSend) + 1;
              t.order == old(nextSend) ==>
                released == old(released) + [t] + Refresh(Released(q, n), fs) && bypass == Kept(q, n)
      ensures var q, n := old(bypass) + [t], old(nextSend);
              t.order != old(nextSend) ==>
                released == old(released) + Refresh(Released(q, n), fs) && bypass == Kept(q, n)
      ensures old(released) <= released
      ensures t.order == old(nextSend) || Present(old(bypass), old(nextSend)) ==> |released| > |old(released)|
      ensures t.order == old(nextSend) ==>
                CoversLate(old(arrived), old(nextSend) + 1, |released| - |old(released)| - 1)
    {
      LateArrivalsAllDrain(arrived, released, bypass, nextSend + 1);
      ArrivalKeepsOrder(bypass, arrived, t);
      ArrivalKeepsSplit(arrived, released, bypass, t);
      if nextSend == t.order {
        released := released + [t];
        nextSend := nextSend + 1;
      } else {
        PresentAppend(bypass, t, nextSend);
        bypass := bypass + [t];
      }
      arrived := arrived + [t];
      PassMakesProgress(bypass, nextSend);
      EmptyFifo(fs);
    }
  }

  /** An arrival: the trace, and the floating-point state at that time. */
  datatype Arrival = Arrival(trace: Trace, fs: int)

  function Traces(a: seq<Arrival>): (r: seq<Trace>)
    ensures |r| == |a| && forall k :: 0 <= k < |a| ==> r[k] == a[k].trace
  {
    seq(|a|, k requires 0 <= k < |a| => a[k].trace)
  }

  method Continue(r: ReorderQueue, a: seq<Arrival>)
    requires r.Valid()
    modifies r
    ensures r.Valid() && r.arrived == old(r.arrived) + Traces(a)
  {
    for k := 0 to |a|
      invariant r.Valid() && r.arrived == old(r.arrived) + Traces(a)[..k]
    {
      Arrive(r, a[k]);
    }
  }

  method Arrive(r: ReorderQueue, x: Arrival)
    requires r.Valid()
    modifies r
    ensures r.Valid() && r.arrived == old(r.arrived) + [x.trace]
  {
    r.SendRvfi(x.trace, x.fs);
  }

  /** If the last arrival is the first instruction in program order, it takes with it all that has come before it in
      ascending order. */
  ghost predicate FirstReleases(t: seq<Trace>, count: int) {
    t != [] && t[|t| - 1].order == 1 && !Present(t[..|t| - 1], 1) ==> CoversLate(t[..|t| - 1], 2, count - 1)
  }

  /** After any sequence of arrivals the output is exactly orders 1, 2, ..., next_send - 1, output and bypass queue
      together are a permutation of the arrivals, and the bypass queue is in order of arrival. */
  method Run(a: seq<Arrival>) returns (released: seq<Trace>, bypass: seq<Trace>, nextSend: int)
    ensures Consecutive(released, 1) && nextSend == 1 + |released|
    ensures Splits(Traces(a), released, bypass) && InArrivalOrder(bypass, Traces(a))
    ensures FirstReleases(Traces(a), |released|)
  {
    var r := new ReorderQueue();
    if a != [] {
      var n := |a| - 1;
      Continue(r, a[..n]);
      ghost var before, out, q := r.arrived, r.released, r.bypass;
      r.SendRvfi(a[n].trace, a[n].fs);
      FirstReleasesLate(before, a[n].trace, out, q, |r.released|);
      TracesSnoc(a, before);
    }
    assert r.arrived == Traces(a);
    released, bypass, nextSend := r.released, r.bypass, r.nextSend;
  }

  lemma TracesSnoc(a: seq<Arrival>, before: seq<Trace>)
    requires a != [] && before == [] + Traces(a[..|a| - 1])
    ensures Traces(a) == before + [a[|a| - 1].trace]
  {
  }

  lemma FirstReleasesLate(before: seq<Trace>, t: Trace, released: seq<Trace>, bypass: seq<Trace>, count: nat)
    requires Splits(before, released, bypass) && Consecutive(released, 1)
    requires t.order == 1 + |released| ==> CoversLate(before, t.order + 1, count - |released| - 1)
    ensures FirstReleases(before + [t], count)
  {
    assert (before + [t])[..|before|] == before;
    NothingReleased(before, released, bypass);
  }
}
