/** The shifter of the ALU (rtl/cv32e40p_alu.sv): a right shifter that also serves left shifts by reversing
    the operand before and the result after. A vector word has `n` lanes of `w` bits: 1 x 32, 2 x 16 or 4 x 8. */
module Shifter {
  import opened Words
  import opened Lanes

  /** The part of a lane's shift amount the shifters look at: 5 bits of a 32-bit lane, 4 of 16, 3 of 8. */
  function Amount(w: nat, amt: nat): nat
    requires w >= 1
  {
    Low(Clog2(w), amt)
  }

  /** `shift_right_result` for logical shifts: every lane by its own amount. */
  function ShiftRightLanes(w: nat, x: seq<nat>, amts: seq<nat>): (r: seq<nat>)
    requires w >= 1 && |x| == |amts| && AreWords(w, x)
    ensures |r| == |x|
  {
    seq(|x|, i requires 0 <= i < |x| => Shr(x[i], Amount(w, amts[i])))
  }

  /** `shift_left_result`: reverse the whole word, exchange the lanes of the amount, shift right, reverse back. */
  function ShiftLeftResult(w: nat, n: nat, a: nat, amt: nat): nat
    requires w >= 1
  {
    var aRev := Rev(Width(w, n), a);
    var amtLeft := Reverse(Split(w, n, amt));
    Rev(Width(w, n), Join(w, ShiftRightLanes(w, Split(w, n, aRev), amtLeft)))
  }

  /** A word multiplied by 2^k, modulo its width. */
  function Times2(w: nat, x: nat, k: nat): nat {
    (x * Pow2(k)) % Pow2(w)
  }

  /** Every lane shifted left by the amount in that same lane, modulo the lane width. */
  function ShiftLeftLanes(w: nat, x: seq<nat>, amts: seq<nat>): (r: seq<nat>)
    requires w >= 1 && |x| == |amts|
    ensures |r| == |x|
  {
    seq(|x|, i requires 0 <= i < |x| => Times2(w, x[i], Amount(w, amts[i])))
  }

  /** The right shifter at work on the mirrored operand. */
  function MirrorShift(w: nat, x: seq<nat>, amts: seq<nat>): (r: seq<nat>)
    requires w >= 1 && |x| == |amts|
    ensures |r| == |x|
  {
    ShiftRightLanes(w, Reverse(RevEach(w, x)), Reverse(amts))
  }

  lemma MirroredLane(w: nat, x: seq<nat>, amts: seq<nat>, i: nat)
    requires w >= 1 && |x| == |amts| && AreWords(w, x) && i < |x|
    ensures var lane := MirrorShift(w, x, amts)[|x| - 1 - i];
            IsWord(w, lane) && Rev(w, lane) == ShiftLeftLanes(w, x, amts)[i]
  {
    var k := Amount(w, amts[i]);
    assert MirrorShift(w, x, amts)[|x| - 1 - i] == Shr(Rev(w, x[i]), k);
    LeftShiftByReversal(w, x[i], k);
  }

  /** Lane by lane, the mirrored right shift is the left shift. */
  lemma MirroredLanes(w: nat, x: seq<nat>, amts: seq<nat>)
    requires w >= 1 && |x| == |amts| && AreWords(w, x)
    ensures AreWords(w, MirrorShift(w, x, amts))
    ensures Reverse(RevEach(w, MirrorShift(w, x, amts))) == ShiftLeftLanes(w, x, amts)
  {
    var m, r, n := MirrorShift(w, x, amts), ShiftLeftLanes(w, x, amts), |x|;
    forall i | 0 <= i < n
      ensures IsWord(w, m[i])
    {
      MirroredLane(w, x, amts, n - 1 - i);
    }
    forall i | 0 <= i < n
      ensures Rev(w, m[n - 1 - i]) == r[i]
    {
      MirroredLane(w, x, amts, i);
    }
  }

  /** In every vector mode the reversal trick shifts each lane left by its own amount. */
  lemma LeftShiftPerLane(w: nat, n: nat, a: nat, amt: nat)
    requires w >= 1 && IsWord(Width(w, n), a)
    ensures Split(w, n, ShiftLeftResult(w, n, a, amt)) == ShiftLeftLanes(w, Split(w, n, a), Split(w, n, amt))
  {
    var x, k := Split(w, n, a), Split(w, n, amt);
    JoinSplit(w, n, a);
    MirroredWord(w, n, x, a);
    MirroredLanes(w, x, k);
    MirroredWord(w, n, MirrorShift(w, x, k), Join(w, MirrorShift(w, x, k)));
  }

  /** Lanes of 2^k bits are shifted by the amount modulo their width. */
  lemma LeftShiftModWidth(k: nat, w: nat, n: nat, a: nat, amt: nat, i: nat)
    requires w == Pow2(k) && i < n && IsWord(Width(w, n), a)
    ensures Split(w, n, ShiftLeftResult(w, n, a, amt))[i]
            == (Split(w, n, a)[i] * Pow2(Split(w, n, amt)[i] % w)) % Pow2(w)
  {
    LeftShiftPerLane(w, n, a, amt);
    AmountOfPower(k, w, Split(w, n, amt)[i]);
  }

  lemma AmountOfPower(k: nat, w: nat, amt: nat)
    requires w == Pow2(k)
    ensures Amount(w, amt) == amt % w
  {
    var c := Clog2(w);
    if c < k {
      Pow2Monotone(c, k - 1);
    } else if c > k {
      Pow2Monotone(k, c - 1);
    }
    LowIsMod(k, amt);
  }

  /** The lanes of a reversed word are the reversed lanes in reverse order. */
  lemma MirroredWord(w: nat, n: nat, x: seq<nat>, a: nat)
    requires |x| == n && AreWords(w, x) && a == Join(w, x)
    ensures Split(w, n, Rev(Width(w, n), a)) == Reverse(RevEach(w, x))
  {
    RevJoin(w, x);
    SplitJoin(w, Reverse(RevEach(w, x)));
  }

  /** The single-lane case, as the divider uses it. */
  lemma LeftShiftWhole(w: nat, a: nat, amt: nat)
    requires w >= 1 && IsWord(w, a)
    ensures ShiftLeftResult(w, 1, a, amt) == Times2(w, a, Amount(w, Low(w, amt)))
  {
    assert Width(w, 1) == w;
    LeftShiftPerLane(w, 1, a, amt);
    var r := ShiftLeftResult(w, 1, a, amt);
    LowOfWord(w, a);
    LowOfWord(w, r);
    assert Split(w, 1, r)[0] == r && Split(w, 1, a)[0] == a && Split(w, 1, amt)[0] == Low(w, amt);
  }
}
