/** The population-count adder tree (rtl/cv32e40p_popcnt.sv), which tells the divider that its divisor is zero. */
module PopCount {
  import opened Words
  import opened FindFirstOne

  /** Adder `i` of a level; level 0 is the input bits. */
  function Count(x: nat, level: nat, i: nat): (c: nat)
    ensures c <= Pow2(level)
    decreases level
  {
    if level == 0 then (if Bit(x, i) then 1 else 0)
    else Count(x, level - 1, 2 * i) + Count(x, level - 1, 2 * i + 1)
  }

  /** `result_o`. */
  function Ones(w: nat, x: nat): nat
    requires w >= 1
  {
    Count(x, Clog2(w), 0)
  }

  ghost predicate Clear(x: nat, lo: nat, hi: nat) {
    forall j: nat :: lo <= j < hi ==> !Bit(x, j)
  }

  lemma {:induction false} ZeroCount(x: nat, level: nat, i: nat)
    ensures Count(x, level, i) == 0 <==> Clear(x, BlockStart(i, level), BlockStart(i, level) + Pow2(level))
    decreases level
  {
    if level > 0 {
      ZeroCount(x, level - 1, 2 * i);
      ZeroCount(x, level - 1, 2 * i + 1);
      BlocksAreAdjacent(2 * i, level - 1);
    }
  }

  lemma ZeroOnlyOfZero(w: nat, x: nat)
    requires w >= 1 && IsWord(w, x)
    ensures Ones(w, x) == 0 <==> x == 0
  {
    ZeroCount(x, Clog2(w), 0);
    BlocksAreAdjacent(0, Clog2(w));
    if Ones(w, x) == 0 {
      ClearBitsBound(w, x, 0);
    } else if x == 0 {
      forall j: nat
        ensures !Bit(0, j)
      {
        BitsOfZero(j);
      }
    }
  }
}
