/** The partitioned adder of the ALU (rtl/cv32e40p_alu.sv): one wide addition with a guard bit in front of every byte
    serves as one adder per lane. A lane has `k` bytes: 4, 2 or 1; the number of lanes is arbitrary. */
module SimdAdder {
  import opened Words
  import opened Lanes

  /** The guard bits in front of byte `p` of a lane. */
  function GuardA(minus: bool, p: nat, start: bool): nat {
    if !minus && p == 0 && !start then 0 else 1
  }

  function GuardB(minus: bool, p: nat): nat {
    if minus && p == 0 then 1 else 0
  }

  /** `adder_in_a` from slot `p` of a lane on: nine bits per byte, the guard bit lowest. `minus` stands for the
      operations that inject a carry into every lane; `start` marks slot 0 of the whole word. */
  function ExpandA(minus: bool, k: nat, p: nat, start: bool, bytes: seq<nat>): nat
    requires p < k
    decreases |bytes|
  {
    if bytes == [] then 0
    else
      GuardA(minus, p, start) + 2 * bytes[0] + 512 * ExpandA(minus, k, Next(k, p), false, bytes[1..])
  }

  /** `adder_in_b`. */
  function ExpandB(minus: bool, k: nat, p: nat, bytes: seq<nat>): nat
    requires p < k
    decreases |bytes|
  {
    if bytes == [] then 0
    else
      GuardB(minus, p) + 2 * bytes[0] + 512 * ExpandB(minus, k, Next(k, p), bytes[1..])
  }

  /** The slot after slot `p` in its lane, or slot 0 of the next lane. */
  function Next(k: nat, p: nat): (q: nat)
    requires p < k
    ensures q < k
  {
    if p + 1 == k then 0 else p + 1
  }

  /** The byte fields of the sum. */
  function Extract(n: nat, sum: nat): (r: seq<nat>)
    ensures |r| == n
  {
    if n == 0 then [] else [(sum / 2) % 256] + Extract(n - 1, sum / 512)
  }

  /** `adder_result` for operands given by their bytes, least significant first. */
  function AdderBytes(minus: bool, k: nat, a: seq<nat>, b: seq<nat>): seq<nat>
    requires k >= 1
  {
    Extract(|a|, ExpandA(minus, k, 0, true, a) + ExpandB(minus, k, 0, b))
  }

  // ---------------------------------------------------------------- what the guard bits do to the carry

  function Inject(minus: bool): nat {
    if minus then 1 else 0
  }

  /** The carry into byte `p` of a lane when the byte before it produced `c`. */
  function CarryIn(minus: bool, p: nat, c: nat): nat {
    if p == 0 then Inject(minus) else c
  }

  /** Byte-wise addition with the carry passed on inside a lane and replaced at every lane boundary. */
  function Ripple(minus: bool, k: nat, p: nat, c: nat, a: seq<nat>, b: seq<nat>): (r: seq<nat>)
    requires p < k && |a| == |b|
    ensures |r| == |a|
    decreases |a|
  {
    if a == [] then []
    else
      var t := CarryIn(minus, p, c) + a[0] + b[0];
      [t % 256] + Ripple(minus, k, Next(k, p), t / 256, a[1..], b[1..])
  }

  predicate Bytes(a: seq<nat>) {
    forall i :: 0 <= i < |a| ==> a[i] < 256
  }

  lemma SlotSum(g: nat, h: nat, c: nat, x: nat, y: nat, s: nat, t: nat)
    requires c <= 1 && g <= 1 && h <= 1 && x < 256 && y < 256
    requires s == c + (g + 2 * x) + (h + 2 * y) && t == (if g + h + c >= 2 then 1 else 0) + x + y
    ensures (s / 2) % 256 == t % 256 && s / 512 == t / 256 <= 1
  {
    assert s / 2 == t;
  }

  lemma SlotCarry(s: nat, rest: nat, u: nat)
    requires u == s + 512 * rest
    ensures u / 512 == s / 512 + rest
  {
  }

  lemma SlotField(s: nat, rest: nat, u: nat)
    requires u == s + 512 * rest
    ensures (u / 2) % 256 == (s / 2) % 256
  {
    assert u / 2 == s / 2 + 256 * rest;
  }

  /** The carry that enters a byte: its guard position blocks, passes or injects as the lane boundary requires. */
  lemma SlotPasses(minus: bool, p: nat, start: bool, c: nat, x: nat, y: nat, s: nat, t: nat)
    requires x < 256 && y < 256 && c <= 1 && (start ==> p == 0 && c == 0)
    requires s == c + (GuardA(minus, p, start) + 2 * x) + (GuardB(minus, p) + 2 * y)
    requires t == CarryIn(minus, p, c) + x + y
    ensures (s / 2) % 256 == t % 256 && s / 512 == t / 256 <= 1
  {
    SlotSum(GuardA(minus, p, start), GuardB(minus, p), c, x, y, s, t);
  }

  lemma RippleStep(minus: bool, k: nat, p: nat, c: nat, a: seq<nat>, b: seq<nat>, t: nat)
    requires p < k && |a| == |b| && a != [] && t == CarryIn(minus, p, c) + a[0] + b[0]
    ensures Ripple(minus, k, p, c, a, b) == [t % 256] + Ripple(minus, k, Next(k, p), t / 256, a[1..], b[1..])
  {
  }

  /** The wide sum from slot `p` on: the slot itself and the slots above it. */
  lemma ExpandStep(minus: bool, k: nat, p: nat, start: bool, c: nat, a: seq<nat>, b: seq<nat>, s: nat, ra: nat, rb: nat)
    requires p < k && |a| == |b| && a != []
    requires s == c + (GuardA(minus, p, start) + 2 * a[0]) + (GuardB(minus, p) + 2 * b[0])
    requires ra == ExpandA(minus, k, Next(k, p), false, a[1..]) && rb == ExpandB(minus, k, Next(k, p), b[1..])
    ensures c + ExpandA(minus, k, p, start, a) + ExpandB(minus, k, p, b) == s + 512 * (ra + rb)
  {
  }

  /** One byte of the wide sum: its field, and what is left for the slots above it. */
  lemma ByteOfSum(minus: bool, k: nat, p: nat, start: bool, c: nat, a: seq<nat>, b: seq<nat>, u: nat)
    returns (t: nat, ra: nat, rb: nat)
    requires p < k && |a| == |b| && a != [] && Bytes(a) && Bytes(b) && c <= 1 && (start ==> p == 0 && c == 0)
    requires u == c + ExpandA(minus, k, p, start, a) + ExpandB(minus, k, p, b)
    ensures t == CarryIn(minus, p, c) + a[0] + b[0] && t / 256 <= 1
    ensures ra == ExpandA(minus, k, Next(k, p), false, a[1..]) && rb == ExpandB(minus, k, Next(k, p), b[1..])
    ensures (u / 2) % 256 == t % 256 && u / 512 == t / 256 + ra + rb
  {
    ra, rb := ExpandA(minus, k, Next(k, p), false, a[1..]), ExpandB(minus, k, Next(k, p), b[1..]);
    t := CarryIn(minus, p, c) + a[0] + b[0];
    var s := c + (GuardA(minus, p, start) + 2 * a[0]) + (GuardB(minus, p) + 2 * b[0]);
    ExpandStep(minus, k, p, start, c, a, b, s, ra, rb);
    SlotPasses(minus, p, start, c, a[0], b[0], s, t);
    SlotCarry(s, ra + rb, u);
    SlotField(s, ra + rb, u);
  }

  /** The extracted bytes of the wide sum are the rippled bytes. */
  lemma {:induction false} GuardsSteerCarry(minus: bool, k: nat, p: nat, start: bool, c: nat, a: seq<nat>, b: seq<nat>,
                                            u: nat)
    requires p < k && |a| == |b| && Bytes(a) && Bytes(b) && c <= 1
    requires start ==> p == 0 && c == 0
    requires u == c + ExpandA(minus, k, p, start, a) + ExpandB(minus, k, p, b)
    ensures Extract(|a|, u) == Ripple(minus, k, p, c, a, b)
    decreases |a|
  {
    if a != [] {
      var t, ra, rb := ByteOfSum(minus, k, p, start, c, a, b, u);
      RippleStep(minus, k, p, c, a, b, t);
      GuardsSteerCarry(minus, k, Next(k, p), false, t / 256, a[1..], b[1..], t / 256 + ra + rb);
    }
  }

  // ---------------------------------------------------------------- one lane

  /** Addition of two lanes byte by byte. */
  function LaneBytes(c: nat, a: seq<nat>, b: seq<nat>): (r: seq<nat>)
    requires |a| == |b|
    ensures |r| == |a|
    decreases |a|
  {
    if a == [] then []
    else
      var t := c + a[0] + b[0];
      [t % 256] + LaneBytes(t / 256, a[1..], b[1..])
  }

  /** The carry out of that addition. */
  function LaneCarry(c: nat, a: seq<nat>, b: seq<nat>): nat
    requires |a| == |b|
    decreases |a|
  {
    if a == [] then c else LaneCarry((c + a[0] + b[0]) / 256, a[1..], b[1..])
  }

  lemma {:induction false} LaneBytesShape(c: nat, a: seq<nat>, b: seq<nat>)
    requires |a| == |b| && Bytes(a) && Bytes(b) && c <= 1
    ensures Bytes(LaneBytes(c, a, b)) && LaneCarry(c, a, b) <= 1
    decreases |a|
  {
    if a != [] {
      LaneBytesShape((c + a[0] + b[0]) / 256, a[1..], b[1..]);
    }
  }

  lemma ByteShift(x: nat)
    ensures Shl(x, 8) == 256 * x
  {
    ShlIsMul(x, 8);
    assert Pow2(4) == 16;
    assert Pow2(8) == 256;
  }

  /** The bytes and the carry out are the integer sum. */
  lemma {:induction false} LaneBytesAdd(c: nat, a: seq<nat>, b: seq<nat>)
    requires |a| == |b| && Bytes(a) && Bytes(b) && c <= 1
    ensures Join(8, LaneBytes(c, a, b)) + Shl(LaneCarry(c, a, b), Width(8, |a|)) == Join(8, a) + Join(8, b) + c
    decreases |a|
  {
    if a != [] {
      var t := c + a[0] + b[0];
      var r, c' := LaneBytes(t / 256, a[1..], b[1..]), LaneCarry(t / 256, a[1..], b[1..]);
      var u := Width(8, |a| - 1);
      LaneBytesAdd(t / 256, a[1..], b[1..]);
      assert ([t % 256] + r)[1..] == r;
      ByteShift(Join(8, r));
      ByteShift(Join(8, a[1..]));
      ByteShift(Join(8, b[1..]));
      ByteShift(Shl(c', u));
      ShlShl(c', u, 8);
      assert Width(8, |a|) == u + 8;
      assert t == 256 * (t / 256) + t % 256;
    }
  }

  /** A lane computes the sum of its operands and the injected carry, modulo the lane. */
  lemma LaneIsModularSum(c: nat, a: seq<nat>, b: seq<nat>)
    requires |a| == |b| && Bytes(a) && Bytes(b) && c <= 1
    ensures Join(8, LaneBytes(c, a, b)) == (Join(8, a) + Join(8, b) + c) % Pow2(Width(8, |a|))
  {
    var r, c' := LaneBytes(c, a, b), LaneCarry(c, a, b);
    LaneBytesAdd(c, a, b);
    LaneBytesShape(c, a, b);
    assert Pow2(8) == 256 by {
      ByteShift(1);
      ShlOne(8);
    }
    JoinIsWord(8, r);
    ShlIsMul(c', Width(8, |a|));
    DivModUnique(Join(8, a) + Join(8, b) + c, Pow2(Width(8, |a|)), c', Join(8, r));
  }

  /** Inside a lane the carry ripples on; at its end the next lane starts afresh. */
  lemma {:induction false} RippleLane(minus: bool, k: nat, p: nat, c: nat, a: seq<nat>, b: seq<nat>,
                                      a': seq<nat>, b': seq<nat>)
    requires p < k && |a| == |b| == k - p && |a'| == |b'|
    ensures var r, c' := LaneBytes(CarryIn(minus, p, c), a, b), LaneCarry(CarryIn(minus, p, c), a, b);
            Ripple(minus, k, p, c, a + a', b + b') == r + Ripple(minus, k, 0, c', a', b')
    decreases k - p
  {
    var t := CarryIn(minus, p, c) + a[0] + b[0];
    var x, y := a + a', b + b';
    assert x[0] == a[0] && y[0] == b[0] && x[1..] == a[1..] + a' && y[1..] == b[1..] + b';
    RippleStep(minus, k, p, c, x, y, t);
    LaneStep(CarryIn(minus, p, c), a, b, t);
    if p + 1 < k {
      RippleLane(minus, k, p + 1, t / 256, a[1..], b[1..], a', b');
    } else {
      assert [] + a' == a' && [] + b' == b';
    }
  }

  lemma LaneStep(c: nat, a: seq<nat>, b: seq<nat>, t: nat)
    requires |a| == |b| && a != [] && t == c + a[0] + b[0]
    ensures LaneBytes(c, a, b) == [t % 256] + LaneBytes(t / 256, a[1..], b[1..])
    ensures LaneCarry(c, a, b) == LaneCarry(t / 256, a[1..], b[1..])
    ensures |a| == 1 ==> a[1..] == b[1..] == [] && LaneBytes(c, a, b) == [t % 256] && LaneCarry(c, a, b) == t / 256
  {
  }

  // ---------------------------------------------------------------- lanes of a word

  /** The bytes of the lanes of a word, in order. */
  function Flatten(k: nat, x: seq<nat>): (r: seq<nat>)
    ensures Bytes(r)
  {
    if x == [] then [] else BytesOf(k, x[0]) + Flatten(k, x[1..])
  }

  function BytesOf(k: nat, x: nat): (r: seq<nat>)
    ensures |r| == k && Bytes(r) && AreWords(8, r)
  {
    ByteWords(Split(8, k, x));
    Split(8, k, x)
  }

  lemma ByteWords(s: seq<nat>)
    ensures AreWords(8, s) <==> Bytes(s)
  {
    ByteShift(1);
    ShlOne(8);
  }

  lemma {:induction false} FlattenLength(k: nat, x: seq<nat>)
    ensures |Flatten(k, x)| == Width(k, |x|)
  {
    if x != [] {
      FlattenLength(k, x[1..]);
    }
  }

  lemma {:induction false} JoinAppend(w: nat, s: seq<nat>, t: seq<nat>)
    ensures Join(w, s + t) == Join(w, s) + Shl(Join(w, t), Width(w, |s|))
  {
    if s == [] {
      assert s + t == t;
    } else {
      assert (s + t)[1..] == s[1..] + t;
      JoinAppend(w, s[1..], t);
      ShlAdd(Join(w, s[1..]), Shl(Join(w, t), Width(w, |s| - 1)), w);
      ShlShl(Join(w, t), Width(w, |s| - 1), w);
    }
  }

  /** The bytes of a word are the bytes of its lanes. */
  lemma {:induction false} JoinFlatten(k: nat, x: seq<nat>)
    requires AreWords(Width(8, k), x)
    ensures Join(8, Flatten(k, x)) == Join(Width(8, k), x)
  {
    if x != [] {
      JoinFlatten(k, x[1..]);
      JoinAppend(8, BytesOf(k, x[0]), Flatten(k, x[1..]));
      JoinSplit(8, k, x[0]);
    }
  }

  /** `adder_result` as a word of `n` lanes of `k` bytes. */
  function AdderResult(minus: bool, k: nat, n: nat, a: nat, b: nat): nat
    requires k >= 1
  {
    var bytes := Width(k, n);
    Join(8, AdderBytes(minus, k, Split(8, bytes, a), Split(8, bytes, b)))
  }

  /** What each lane must compute. */
  function LaneSum(minus: bool, k: nat, x: nat, y: nat): (r: nat)
    ensures IsWord(Width(8, k), r)
  {
    (x + y + Inject(minus)) % Pow2(Width(8, k))
  }

  function LaneSums(minus: bool, k: nat, x: seq<nat>, y: seq<nat>): (r: seq<nat>)
    requires |x| == |y|
    ensures |r| == |x| && AreWords(Width(8, k), r)
  {
    if x == [] then [] else [LaneSum(minus, k, x[0], y[0])] + LaneSums(minus, k, x[1..], y[1..])
  }

  lemma BytesOfJoin(k: nat, r: seq<nat>)
    requires |r| == k && Bytes(r)
    ensures BytesOf(k, Join(8, r)) == r
  {
    ByteWords(r);
    SplitJoin(8, r);
  }

  lemma JoinBytesOf(k: nat, x: nat)
    requires IsWord(Width(8, k), x)
    ensures Join(8, BytesOf(k, x)) == x
  {
    JoinSplit(8, k, x);
  }

  lemma LaneBytesOfSum(c: nat, k: nat, a: seq<nat>, b: seq<nat>, x: nat, y: nat)
    requires |a| == |b| == k && Bytes(a) && Bytes(b) && c <= 1 && x == Join(8, a) && y == Join(8, b)
    ensures LaneBytes(c, a, b) == BytesOf(k, (x + y + c) % Pow2(Width(8, k)))
  {
    LaneBytesShape(c, a, b);
    LaneIsModularSum(c, a, b);
    BytesOfJoin(k, LaneBytes(c, a, b));
  }

  lemma FlattenSums(minus: bool, k: nat, x: seq<nat>, y: seq<nat>)
    requires |x| == |y| && x != []
    ensures Flatten(k, LaneSums(minus, k, x, y))
            == BytesOf(k, LaneSum(minus, k, x[0], y[0])) + Flatten(k, LaneSums(minus, k, x[1..], y[1..]))
  {
    var r := LaneSums(minus, k, x, y);
    assert r[0] == LaneSum(minus, k, x[0], y[0]) && r[1..] == LaneSums(minus, k, x[1..], y[1..]);
  }

  lemma {:induction false} RippleLanes(minus: bool, k: nat, c: nat, x: seq<nat>, y: seq<nat>)
    requires k >= 1 && |x| == |y| && AreWords(Width(8, k), x) && AreWords(Width(8, k), y)
    requires |Flatten(k, x)| == |Flatten(k, y)|
    ensures Ripple(minus, k, 0, c, Flatten(k, x), Flatten(k, y)) == Flatten(k, LaneSums(minus, k, x, y))
    decreases |x|
  {
    if x != [] {
      var a, b := BytesOf(k, x[0]), BytesOf(k, y[0]);
      var c' := LaneCarry(Inject(minus), a, b);
      FlattenLength(k, x[1..]);
      FlattenLength(k, y[1..]);
      JoinBytesOf(k, x[0]);
      JoinBytesOf(k, y[0]);
      FirstLaneRipples(minus, k, c, a, b, x[0], y[0], c', Flatten(k, x[1..]), Flatten(k, y[1..]));
      RippleLanes(minus, k, c', x[1..], y[1..]);
      FlattenSums(minus, k, x, y);
    }
  }

  /** The first lanes `x` and `y` of two words yield their sum; the carry out `c'` does not reach the lanes behind. */
  lemma FirstLaneRipples(minus: bool, k: nat, c: nat, a: seq<nat>, b: seq<nat>, x: nat, y: nat, c': nat,
                         a': seq<nat>, b': seq<nat>)
    requires k >= 1 && |a| == |b| == k && Bytes(a) && Bytes(b) && |a'| == |b'|
    requires x == Join(8, a) && y == Join(8, b) && c' == LaneCarry(Inject(minus), a, b)
    ensures Ripple(minus, k, 0, c, a + a', b + b')
            == BytesOf(k, LaneSum(minus, k, x, y)) + Ripple(minus, k, 0, c', a', b')
  {
    RippleLane(minus, k, 0, c, a, b, a', b');
    LaneBytesOfSum(Inject(minus), k, a, b, x, y);
  }

  lemma AdderRipples(minus: bool, k: nat, a: seq<nat>, b: seq<nat>)
    requires k >= 1 && |a| == |b| && Bytes(a) && Bytes(b)
    ensures AdderBytes(minus, k, a, b) == Ripple(minus, k, 0, 0, a, b)
  {
    GuardsSteerCarry(minus, k, 0, true, 0, a, b, ExpandA(minus, k, 0, true, a) + ExpandB(minus, k, 0, b));
  }

  lemma AdderBytesLaneWise(minus: bool, k: nat, x: seq<nat>, y: seq<nat>)
    requires k >= 1 && |x| == |y| && AreWords(Width(8, k), x) && AreWords(Width(8, k), y)
    ensures AdderBytes(minus, k, Flatten(k, x), Flatten(k, y)) == Flatten(k, LaneSums(minus, k, x, y))
  {
    FlattenLength(k, x);
    FlattenLength(k, y);
    AdderRipples(minus, k, Flatten(k, x), Flatten(k, y));
    RippleLanes(minus, k, 0, x, y);
  }

  lemma SplitIntoBytes(k: nat, x: seq<nat>)
    requires AreWords(Width(8, k), x)
    ensures Split(8, Width(k, |x|), Join(Width(8, k), x)) == Flatten(k, x)
  {
    var a := Flatten(k, x);
    FlattenLength(k, x);
    JoinFlatten(k, x);
    ByteWords(a);
    SplitJoin(8, a);
  }

  /** The single wide addition is an addition in every lane, modulo the lane, plus one where a carry is injected. */
  lemma AdderIsLaneWise(minus: bool, k: nat, x: seq<nat>, y: seq<nat>)
    requires k >= 1 && |x| == |y| && AreWords(Width(8, k), x) && AreWords(Width(8, k), y)
    ensures AdderResult(minus, k, |x|, Join(Width(8, k), x), Join(Width(8, k), y))
            == Join(Width(8, k), LaneSums(minus, k, x, y))
  {
    SplitIntoBytes(k, x);
    SplitIntoBytes(k, y);
    AdderBytesLaneWise(minus, k, x, y);
    JoinFlatten(k, LaneSums(minus, k, x, y));
  }

  // ---------------------------------------------------------------- subtraction

  function NotEach(w: nat, y: seq<nat>): (r: seq<nat>)
    requires AreWords(w, y)
    ensures |r| == |y| && AreWords(w, r)
    ensures forall i :: 0 <= i < |y| ==> r[i] == Not(w, y[i])
  {
    seq(|y|, i requires 0 <= i < |y| => Not(w, y[i]))
  }

  lemma NotPaste(w: nat, m: nat, x: nat, j: nat, u: nat)
    requires IsWord(w, x) && IsWord(m, j) && u == m + w && IsWord(u, x + Shl(j, w))
    ensures Not(u, x + Shl(j, w)) == Not(w, x) + Shl(Not(m, j), w)
  {
    ShlAdd(Not(m, j), j, w);
    ShlAdd(Not(m, j) + j, 1, w);
    PowerShift(m, w);
    ShlOne(w);
  }

  lemma NotEachTail(w: nat, y: seq<nat>, z: seq<nat>)
    requires AreWords(w, y) && AreWords(w, z) && y != [] && z == y[1..]
    ensures NotEach(w, y)[0] == Not(w, y[0]) && NotEach(w, y)[1..] == NotEach(w, z)
  {
  }

  lemma JoinCons(w: nat, s: seq<nat>, head: nat, tail: seq<nat>)
    requires s != [] && s[0] == head && s[1..] == tail
    ensures Join(w, s) == head + Shl(Join(w, tail), w)
  {
  }

  /** One lane `head` in front of the lanes that make up `j`; `r` is its complement in front of theirs, `t`. */
  lemma NotJoinStep(w: nat, m: nat, u: nat, head: nat, j: nat, x: nat, r: seq<nat>, t: seq<nat>)
    requires IsWord(w, head) && IsWord(m, j) && IsWord(u, x) && u == m + w && x == head + Shl(j, w)
    requires r != [] && r[0] == Not(w, head) && r[1..] == t && Not(m, j) == Join(w, t)
    ensures Not(u, x) == Join(w, r)
  {
    NotPaste(w, m, head, j, u);
  }

  /** Complementing a word complements its lanes. */
  lemma {:induction false} NotJoin(w: nat, y: seq<nat>)
    requires AreWords(w, y)
    ensures IsWord(Width(w, |y|), Join(w, y)) && Not(Width(w, |y|), Join(w, y)) == Join(w, NotEach(w, y))
  {
    JoinIsWord(w, y);
    if y != [] {
      var z := y[1..];
      NotJoin(w, z);
      JoinCons(w, y, y[0], z);
      NotEachTail(w, y, z);
      NotJoinStep(w, Width(w, |z|), Width(w, |y|), y[0], Join(w, z), Join(w, y), NotEach(w, y), NotEach(w, z));
    }
  }

  function LaneDifferences(k: nat, x: seq<nat>, y: seq<nat>): (r: seq<nat>)
    requires |x| == |y|
  {
    if x == [] then []
    else
      var u: int, v: int := x[0], y[0];
      [(u - v) % Pow2(Width(8, k))] + LaneDifferences(k, x[1..], y[1..])
  }

  lemma {:induction false} ComplementSums(k: nat, x: seq<nat>, y: seq<nat>)
    requires |x| == |y| && AreWords(Width(8, k), y)
    ensures LaneSums(true, k, x, NotEach(Width(8, k), y)) == LaneDifferences(k, x, y)
  {
    if x != [] {
      var u: int, v: int := x[0], y[0];
      ModAddMultiple(u - v, 1, Pow2(Width(8, k)));
      assert NotEach(Width(8, k), y)[1..] == NotEach(Width(8, k), y[1..]);
      ComplementSums(k, x[1..], y[1..]);
    }
  }

  /** With operand b complemented and a carry injected into every lane, every lane subtracts, modulo the lane. */
  lemma SubtractionIsLaneWise(k: nat, x: seq<nat>, y: seq<nat>)
    requires k >= 1 && |x| == |y| && AreWords(Width(8, k), x) && AreWords(Width(8, k), y)
    ensures var w := Width(8, k);
            && IsWord(Width(w, |y|), Join(w, y))
            && AdderResult(true, k, |x|, Join(w, x), Not(Width(w, |y|), Join(w, y)))
               == Join(w, LaneDifferences(k, x, y))
  {
    NotJoin(Width(8, k), y);
    AdderIsLaneWise(true, k, x, NotEach(Width(8, k), y));
    ComplementSums(k, x, y);
  }
}
