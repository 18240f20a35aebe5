/** Clipping in the ALU (rtl/cv32e40p_alu.sv): the adder's sign bit, an equality and the minimum decide a clamp. */
module Clip {
  import opened Words
  import opened Lanes
  import opened SimdAdder
  import opened Comparator

  // ---------------------------------------------------------------- the sign of the wide sum

  /** `x` placed above `n` slots of nine bits. */
  function Above(n: nat, x: nat): nat {
    if n == 0 then x else 512 * Above(n - 1, x)
  }

  /** What lies above `n` slots. */
  function Drop(n: nat, s: nat): nat {
    if n == 0 then s else Drop(n - 1, s / 512)
  }

  function SignBit(a: seq<nat>): nat
    requires a != []
  {
    if a[|a| - 1] >= 128 then 1 else 0
  }

  /** The bit above all slots of the sign-extended sum, a carry injected: bit 36 for four bytes. Operand b enters as
      it is, not complemented. */
  predicate SumSign(a: seq<nat>, b: seq<nat>)
    requires |a| == |b| && a != []
  {
    var n := |a|;
    SignExtendedSum(n, ExpandA(true, n, 0, true, a), ExpandB(true, n, 0, b), SignBit(a), SignBit(b)) % 2 == 1
  }

  /** What lies above `n` slots of a sum whose operands carry `sa` and `sb` above theirs. */
  function SignExtendedSum(n: nat, ea: nat, eb: nat, sa: nat, sb: nat): (r: nat)
    ensures r == Drop(n, ea + eb) + sa + sb
  {
    DropAbove(n, ea + eb, sa);
    DropAbove(n, ea + eb + Above(n, sa), sb);
    assert (ea + Above(n, sa)) + (eb + Above(n, sb)) == (ea + eb + Above(n, sa)) + Above(n, sb);
    Drop(n, (ea + Above(n, sa)) + (eb + Above(n, sb)))
  }

  lemma {:induction false} DropAbove(n: nat, s: nat, x: nat)
    ensures Drop(n, s + Above(n, x)) == Drop(n, s) + x
  {
    if n > 0 {
      DropAbove(n - 1, s / 512, x);
      assert (s + 512 * Above(n - 1, x)) / 512 == s / 512 + Above(n - 1, x);
    }
  }

  /** The carry out of a lane appears above its slots. */
  lemma {:induction false} WideCarry(k: nat, p: nat, c: nat, a: seq<nat>, b: seq<nat>, u: nat)
    requires p < k && |a| == |b| == k - p && Bytes(a) && Bytes(b) && c <= 1 && (p == 0 ==> c == 0)
    requires u == c + ExpandA(true, k, p, p == 0, a) + ExpandB(true, k, p, b)
    ensures Drop(k - p, u) == LaneCarry(CarryIn(true, p, c), a, b)
    decreases k - p
  {
    var t, ra, rb := ByteOfSum(true, k, p, p == 0, c, a, b, u);
    LaneStep(CarryIn(true, p, c), a, b, t);
    if p + 1 < k {
      WideCarry(k, p + 1, t / 256, a[1..], b[1..], t / 256 + ra + rb);
    }
  }

  lemma SumSignIsParity(a: seq<nat>, b: seq<nat>)
    requires |a| == |b| && a != [] && Bytes(a) && Bytes(b)
    ensures SumSign(a, b) <==> (LaneCarry(1, a, b) + SignBit(a) + SignBit(b)) % 2 == 1
  {
    var n := |a|;
    WideCarry(n, 0, 0, a, b, ExpandA(true, n, 0, true, a) + ExpandB(true, n, 0, b));
  }

  /** The top bit of the top byte is the sign of the word. */
  lemma SignBitIsSign(a: seq<nat>)
    requires a != [] && Bytes(a)
    ensures SignBit(a) == 1 <==> Join(8, a) >= Pow2(Width(8, |a|) - 1)
  {
    var n := |a| - 1;
    var m := Width(8, n);
    JoinTopByte(a);
    BytePower(m);
    ShlIsMul(a[n], m);
    ScaleBound(a[n], Join(8, a[..n]), Pow2(m));
  }

  /** Parity of carry and signs against the sign of a sum plus one, in a word with half range `h`. */
  lemma ParityIsSign(x: int, y: int, r: int, c: nat, sx: nat, sy: nat, h: int)
    requires 0 <= x < 2 * h && 0 <= y < 2 * h && 0 <= r < 2 * h && c <= 1
    requires r + (if c == 1 then 2 * h else 0) == x + y + 1
    requires sx == (if x >= h then 1 else 0) && sy == (if y >= h then 1 else 0)
    ensures (c + sx + sy) % 2 == 1
            <==> (if x >= h then x - 2 * h else x) + (if y >= h then y - 2 * h else y) + 1 < 0
  {
  }

  /** Bit 36 tells whether a + b + 1 is negative, without overflow: that is, whether a is below -(b + 1). */
  lemma SumSignIsSign(a: seq<nat>, b: seq<nat>, w: nat, x: nat, y: nat)
    requires |a| == |b| && a != [] && Bytes(a) && Bytes(b)
    requires w == Width(8, |a|) && x == Join(8, a) && y == Join(8, b)
    ensures SumSign(a, b) <==> Signed(w, x) + Signed(w, y) + 1 < 0
  {
    var z, c, h := LaneTotal(a, b, w, x, y);
    SumSignIsParity(a, b);
    SignBitIsSign(a);
    SignBitIsSign(b);
    ParityIsSign(x, y, z, c, SignBit(a), SignBit(b), h);
    SignedByHalf(w, x, h);
    SignedByHalf(w, y, h);
  }

  lemma SignedByHalf(w: nat, x: nat, h: nat)
    requires w > 0 && h == Pow2(w - 1)
    ensures Signed(w, x) == if x >= h then x - 2 * h else x
  {
  }

  /** The lane's sum `z` and carry out `c`, with half the range of the lane. */
  lemma LaneTotal(a: seq<nat>, b: seq<nat>, w: nat, x: nat, y: nat) returns (z: nat, c: nat, h: nat)
    requires |a| == |b| && a != [] && Bytes(a) && Bytes(b)
    requires w == Width(8, |a|) && x == Join(8, a) && y == Join(8, b)
    ensures w > 0 && h == Pow2(w - 1) && c == LaneCarry(1, a, b) <= 1
    ensures x < 2 * h && y < 2 * h && z < 2 * h && z + (if c == 1 then 2 * h else 0) == x + y + 1
  {
    var r := LaneBytes(1, a, b);
    z, c, h := Join(8, r), LaneCarry(1, a, b), Pow2(w - 1);
    LaneBytesShape(1, a, b);
    LaneBytesAdd(1, a, b);
    WordOfBytes(r, w);
    WordOfBytes(a, w);
    WordOfBytes(b, w);
    CarryWeight(z, c, w, x + y + 1, h);
  }

  lemma CarryWeight(z: nat, c: nat, w: nat, sum: nat, h: nat)
    requires w > 0 && h == Pow2(w - 1) && c <= 1 && IsWord(w, z) && z + Shl(c, w) == sum
    ensures z < 2 * h && z + (if c == 1 then 2 * h else 0) == sum
  {
    ShlIsMul(c, w);
  }

  lemma WordOfBytes(a: seq<nat>, w: nat)
    requires Bytes(a) && w == Width(8, |a|)
    ensures IsWord(w, Join(8, a))
  {
    ByteWords(a);
    JoinIsWord(8, a);
  }

  // ---------------------------------------------------------------- clipping in 32-bit mode

  /** `clip_result` for the two clipping operators. */
  function ClipResult(op: Operator, a: seq<nat>, b: seq<nat>): (r: seq<nat>)
    requires IsWord4(a) && IsWord4(b)
    ensures |r| == 4
  {
    ByteWords(b);
    var notB := NotEach(8, b);
    if op == CLIPU then
      if a[3] >= 128 || a == ZERO then ZERO else MinMaxResult(op, Mode32, a, b)
    else if SumSign(a, b) || a == notB then notB
    else MinMaxResult(op, Mode32, a, b)
  }

  /** The 32-bit integer that four bytes stand for. */
  function Int32(a: seq<nat>): int
    requires |a| == 4
  {
    Signed(32, Join(8, a))
  }

  lemma Int32IsValue(a: seq<nat>, v: nat)
    requires IsWord4(a) && v == Join(8, a)
    ensures IsWord(32, v) && Width(8, 4) == 32
  {
    WordOfBytes(a, 32);
  }

  lemma OneLane(a: seq<nat>)
    requires |a| == 4
    ensures Lane(Mode32, a, 0) == Join(8, a) && Width(8, LaneSize(Mode32)) == 32
  {
    assert LaneAt(Mode32, a, 0) == a;
  }

  lemma MinimumOf(op: Operator, a: seq<nat>, b: seq<nat>)
    requires IsWord4(a) && IsWord4(b) && op in {CLIP, CLIPU}
    ensures Int32(MinMaxResult(op, Mode32, a, b)) == Extremum(true, Int32(a), Int32(b))
  {
    var r := MinMaxResult(op, Mode32, a, b);
    SelectsExtremum(op, Mode32, a, b, 0);
    OneLane(a);
    OneLane(b);
    OneLane(r);
  }

  lemma ComplementOf(b: seq<nat>, v: nat)
    requires IsWord4(b) && AreWords(8, b) && v == Join(8, b)
    ensures IsWord4(NotEach(8, b)) && IsWord(32, v) && Join(8, NotEach(8, b)) == Not(32, v)
  {
    ByteWords(NotEach(8, b));
    Int32IsValue(b, v);
    NotJoin(8, b);
  }

  lemma SignedNot(v: nat)
    requires IsWord(32, v)
    ensures Signed(32, Not(32, v)) == -Signed(32, v) - 1
  {
  }

  lemma SignedInjective(x: nat, y: nat)
    requires IsWord(32, x) && IsWord(32, y)
    ensures Signed(32, x) == Signed(32, y) <==> x == y
  {
  }

  lemma EqualsComplement(a: seq<nat>, b: seq<nat>)
    requires IsWord4(a) && IsWord4(b) && AreWords(8, b)
    ensures Int32(NotEach(8, b)) == -Int32(b) - 1
    ensures a == NotEach(8, b) <==> Int32(a) == -Int32(b) - 1
  {
    var x, y := Join(8, a), Join(8, b);
    ComplementOf(b, y);
    Int32IsValue(a, x);
    SignedNot(y);
    SignedInjective(x, Not(32, y));
    EqualBytes(a, NotEach(8, b));
  }

  /** What the documentation promises for a signed clip against a bound `b`, applied to any two integers. */
  function ClipTo(v: int, b: int): (r: int)
    ensures b >= 0 ==> -(b + 1) <= r <= b && (-(b + 1) <= v <= b ==> r == v)
  {
    if v <= -(b + 1) then -(b + 1) else if v >= b then b else v
  }

  /** And for an unsigned clip. */
  function ClipUnsignedTo(v: int, b: int): (r: int)
    ensures b >= 0 ==> 0 <= r <= b && (0 <= v <= b ==> r == v)
  {
    if v <= 0 then 0 else if v >= b then b else v
  }

  /** CLIP is the documented formula for every pair of operands, negative bounds included. */
  lemma ClipIsDocumented(a: seq<nat>, b: seq<nat>)
    requires IsWord4(a) && IsWord4(b)
    ensures Int32(ClipResult(CLIP, a, b)) == ClipTo(Int32(a), Int32(b))
  {
    ByteWords(b);
    EqualsComplement(a, b);
    MinimumOf(CLIP, a, b);
    Int32IsValue(a, Join(8, a));
    SumSignIsSign(a, b, 32, Join(8, a), Join(8, b));
  }

  lemma SignOfInt32(a: seq<nat>)
    requires IsWord4(a)
    ensures a[3] >= 128 <==> Int32(a) < 0
    ensures a == ZERO <==> Int32(a) == 0
  {
    Int32IsValue(a, Join(8, a));
    SignBitIsSign(a);
    ZeroLane(Mode32, 0);
    OneLane(ZERO);
    EqualBytes(a, ZERO);
    SignedInjective(Join(8, a), 0);
  }

  /** CLIPU likewise. */
  lemma ClipUnsignedIsDocumented(a: seq<nat>, b: seq<nat>)
    requires IsWord4(a) && IsWord4(b)
    ensures Int32(ClipResult(CLIPU, a, b)) == ClipUnsignedTo(Int32(a), Int32(b))
  {
    SignOfInt32(a);
    ZeroLane(Mode32, 0);
    SignOfInt32(ZERO);
    MinimumOf(CLIPU, a, b);
  }

  /** The value nearest to `v` between two bounds, the upper one taking precedence when they cross. */
  function Clamp(lo: int, hi: int, v: int): (r: int)
    ensures lo <= hi ==> lo <= r <= hi && (lo <= v <= hi ==> r == v)
    ensures hi < lo ==> r == hi
  {
    Extremum(true, hi, Extremum(false, lo, v))
  }

  /** Both are the clamp for every bound that is not negative. For a negative one the bounds cross, and the lower bound
      is still returned for the values at or below it: the results are the clamp exactly elsewhere. */
  lemma ClipIsClampIff(a: seq<nat>, b: seq<nat>)
    requires IsWord4(a) && IsWord4(b)
    ensures var v, bound := Int32(a), Int32(b);
            && (Int32(ClipResult(CLIP, a, b)) == Clamp(-(bound + 1), bound, v) <==> bound >= 0 || v > -(bound + 1))
            && (Int32(ClipResult(CLIPU, a, b)) == Clamp(0, bound, v) <==> bound >= 0 || v > 0)
    ensures var v, bound := Int32(a), Int32(b);
            bound < 0 ==>
              && Int32(ClipResult(CLIP, a, b)) == (if v <= -(bound + 1) then -(bound + 1) else bound)
              && Int32(ClipResult(CLIPU, a, b)) == (if v <= 0 then 0 else bound)
  {
    ClipIsDocumented(a, b);
    ClipUnsignedIsDocumented(a, b);
  }

  // ---------------------------------------------------------------- the bounds the instruction decode stage supplies

  function ClipWord(op: Operator, a: nat, b: nat): nat {
    Join(8, ClipResult(op, BytesOf(4, a), BytesOf(4, b)))
  }

  /** The bound of cv.clipr and cv.clipur: the register without its top bit (rtl/cv32e40p_id_stage.sv). */
  function RegisterBound(rs2: nat): nat {
    Low(31, rs2)
  }

  /** The bound of cv.clip and cv.clipu: half of 2^is2 - 1 (rtl/cv32e40p_id_stage.sv). */
  function ImmediateBound(is2: nat): nat
    requires is2 < 32
  {
    ShlOne(is2);
    (Shl(1, is2) - 1) / 2
  }

  function HalfRange(is2: nat): nat {
    if is2 == 0 then 1 else Pow2(is2 - 1)
  }

  lemma ImmediateBoundValue(is2: nat)
    requires is2 < 32
    ensures ImmediateBound(is2) == HalfRange(is2) - 1
  {
    ShlOne(is2);
  }

  lemma HalfRangeBound(is2: nat)
    requires is2 < 32
    ensures HalfRange(is2) <= Pow2(31)
  {
    Pow2Monotone(if is2 == 0 then 0 else is2 - 1, 31);
  }

  lemma NonNegativeBound(b: nat)
    requires b < Pow2(31)
    ensures IsWord(32, b) && Signed(32, b) == b
  {
    assert Pow2(32) == 2 * Pow2(31);
  }

  lemma ClipWordIsDocumented(a: nat, b: nat)
    requires IsWord(32, a) && b < Pow2(31)
    ensures Signed(32, ClipWord(CLIP, a, b)) == ClipTo(Signed(32, a), b)
    ensures Signed(32, ClipWord(CLIPU, a, b)) == ClipUnsignedTo(Signed(32, a), b)
  {
    NonNegativeBound(b);
    assert Width(8, 4) == 32;
    JoinBytesOf(4, a);
    JoinBytesOf(4, b);
    ClipIsDocumented(BytesOf(4, a), BytesOf(4, b));
    ClipUnsignedIsDocumented(BytesOf(4, a), BytesOf(4, b));
  }

  /** cv.clipr and cv.clipur clamp to [-(b + 1), b] and [0, b] with b = rs2 & 0x7FFFFFFF, for every rs1 and rs2. */
  lemma RegisterClip(rs1: nat, rs2: nat)
    requires IsWord(32, rs1)
    ensures var b := rs2 % Pow2(31);
            && Signed(32, ClipWord(CLIP, rs1, RegisterBound(rs2))) == ClipTo(Signed(32, rs1), b)
            && Signed(32, ClipWord(CLIPU, rs1, RegisterBound(rs2))) == ClipUnsignedTo(Signed(32, rs1), b)
  {
    LowIsMod(31, rs2);
    ClipWordIsDocumented(rs1, RegisterBound(rs2));
  }

  /** cv.clip clamps to [-2^(is2-1), 2^(is2-1) - 1], or to [-1, 0] when is2 is 0; cv.clipu to the part from 0 up. */
  lemma ImmediateClip(rs1: nat, is2: nat)
    requires IsWord(32, rs1) && is2 < 32
    ensures var b := ImmediateBound(is2);
            && Signed(32, ClipWord(CLIP, rs1, b)) == ClipTo(Signed(32, rs1), HalfRange(is2) - 1)
            && Signed(32, ClipWord(CLIPU, rs1, b)) == ClipUnsignedTo(Signed(32, rs1), HalfRange(is2) - 1)
  {
    ImmediateBoundValue(is2);
    HalfRangeBound(is2);
    ClipWordIsDocumented(rs1, ImmediateBound(is2));
  }
}
