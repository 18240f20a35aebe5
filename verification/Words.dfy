/** Fixed-width machine words as natural numbers below a power of two: bits, complement, bit reversal
    and shifts. The width is a parameter throughout; the core instantiates it with 32, 16 and 8. */
module Words {

  function Pow2(n: nat): (p: nat)
    ensures p >= 1
  {
    if n == 0 then 1 else 2 * Pow2(n - 1)
  }

  /** The values a register of `w` bits can hold. */
  predicate IsWord(w: nat, x: nat) {
    x < Pow2(w)
  }

  /** Bit `i` of `x`, bit 0 being the least significant. */
  predicate Bit(x: nat, i: nat) {
    if i == 0 then x % 2 == 1 else Bit(x / 2, i - 1)
  }

  /** The contribution of bit `b` at position `i` to the value of a word. */
  function Place(b: bool, i: nat): nat {
    if b then Pow2(i) else 0
  }

  /** The word of `w` bits whose bit `i` is bit `w-1-i` of `x`. */
  function Rev(w: nat, x: nat): (r: nat)
    ensures IsWord(w, r)
  {
    if w == 0 then 0 else Place(x % 2 == 1, w - 1) + Rev(w - 1, x / 2)
  }

  /** `x` shifted right by `k` bits, zeros coming in from the left. */
  function Shr(x: nat, k: nat): (r: nat)
    ensures r <= x
  {
    if k == 0 then x else Shr(x / 2, k - 1)
  }

  /** `x` shifted left by `k` bits, without a bound on the width. */
  function Shl(x: nat, k: nat): nat {
    if k == 0 then x else 2 * Shl(x, k - 1)
  }

  /** The `w` low bits of `x`. */
  function Low(w: nat, x: nat): (r: nat)
    ensures IsWord(w, r)
  {
    if w == 0 then 0 else x % 2 + 2 * Low(w - 1, x / 2)
  }

  /** Bitwise complement in `w` bits. */
  function Not(w: nat, x: nat): (r: nat)
    requires IsWord(w, x)
    ensures IsWord(w, r)
  {
    Pow2(w) - 1 - x
  }

  /** Two's complement reading of a word. */
  function Signed(w: nat, x: nat): int {
    if w > 0 && x >= Pow2(w - 1) then x - Pow2(w) else x
  }

  /** The word that represents the integer `v` in `w` bits. */
  function ToWord(w: nat, v: int): (x: nat)
    ensures IsWord(w, x)
  {
    v % Pow2(w)
  }

  /** Smallest `k` with 2^k at least `n`. */
  function Clog2(n: nat): (k: nat)
    requires n >= 1
    ensures n <= Pow2(k)
    ensures k > 0 ==> Pow2(k - 1) < n
  {
    Clog2From(n, 0)
  }

  function Clog2From(n: nat, k: nat): (r: nat)
    requires k > 0 ==> Pow2(k - 1) < n
    ensures n <= Pow2(r)
    ensures r > 0 ==> Pow2(r - 1) < n
    decreases n - Pow2(k)
  {
    if n <= Pow2(k) then k else Clog2From(n, k + 1)
  }

  // ---------------------------------------------------------------- arithmetic

  lemma {:induction false} Pow2Add(a: nat, b: nat)
    ensures Pow2(a + b) == Pow2(a) * Pow2(b)
  {
    if a > 0 {
      Pow2Add(a - 1, b);
    }
  }

  lemma {:induction false} Pow2Monotone(a: nat, b: nat)
    requires a <= b
    ensures Pow2(a) <= Pow2(b)
    ensures a < b ==> Pow2(a) < Pow2(b)
    decreases b - a
  {
    if a < b {
      Pow2Monotone(a + 1, b);
    }
  }

  lemma {:induction false} Pow2AboveExponent(n: nat)
    ensures n < Pow2(n)
  {
    if n > 0 {
      Pow2AboveExponent(n - 1);
    }
  }

  lemma MulAtLeast(k: int, d: int)
    requires k >= 1 && d >= 0
    ensures k * d >= d
  {
    assert k * d == (k - 1) * d + d;
  }

  lemma MulAtMost(k: int, d: int)
    requires k <= -1 && d >= 0
    ensures k * d <= -d
  {
    assert k * d == (k + 1) * d - d;
  }

  /** Quotient and remainder are determined by their defining equation. */
  lemma DivModUnique(a: int, d: int, q: int, r: int)
    requires d > 0 && a == q * d + r && 0 <= r < d
    ensures a / d == q && a % d == r
  {
    var q', r' := a / d, a % d;
    assert (q - q') * d == r' - r by {
      assert a == q' * d + r';
    }
    if q > q' {
      MulAtLeast(q - q', d);
      assert false;
    } else if q < q' {
      MulAtMost(q - q', d);
      assert false;
    }
  }

  lemma ModAddMultiple(x: int, k: int, m: int)
    requires m > 0
    ensures (x + k * m) % m == x % m
  {
    var q, r := x / m, x % m;
    assert x + k * m == (q + k) * m + r;
    DivModUnique(x + k * m, m, q + k, r);
  }

  lemma SmallMod(x: int, m: int)
    requires 0 <= x < m
    ensures x % m == x
  {
    DivModUnique(x, m, 0, x);
  }

  lemma ToWordOfWord(w: nat, x: nat)
    requires IsWord(w, x)
    ensures ToWord(w, x) == x
    ensures ToWord(w, Signed(w, x)) == x
  {
    SmallMod(x, Pow2(w));
    ModAddMultiple(x, -1, Pow2(w));
  }

  // ---------------------------------------------------------------- bits and reversal

  /** Splitting off the most significant bit commutes with reversal: it becomes the least significant one. */
  lemma {:induction false} RevTopBit(w: nat, b: bool, x: nat)
    requires IsWord(w, x)
    ensures Rev(w + 1, Place(b, w) + x) == 2 * Rev(w, x) + Place(b, 0)
  {
    var y := Place(b, w) + x;
    if w == 0 {
      assert Rev(0, y / 2) == 0;
    } else {
      var low := x % 2 == 1;
      assert y % 2 == x % 2 && y / 2 == Place(b, w - 1) + x / 2 by {
        assert y == 2 * Place(b, w - 1) + x;
      }
      RevTopBit(w - 1, b, x / 2);
      assert Rev(w, x) == Place(low, w - 1) + Rev(w - 1, x / 2);
      assert Rev(w + 1, y) == 2 * Place(low, w - 1) + Rev(w, y / 2);
    }
  }

  lemma {:induction false} RevInvolution(w: nat, x: nat)
    requires IsWord(w, x)
    ensures Rev(w, Rev(w, x)) == x
  {
    if w > 0 {
      RevTopBit(w - 1, x % 2 == 1, Rev(w - 1, x / 2));
      RevInvolution(w - 1, x / 2);
    }
  }

  // ---------------------------------------------------------------- shifts

  lemma {:induction false} ShlIsMul(x: nat, k: nat)
    ensures Shl(x, k) == x * Pow2(k)
  {
    if k > 0 {
      ShlIsMul(x, k - 1);
      assert x * Pow2(k) == 2 * (x * Pow2(k - 1));
    }
  }

  lemma {:induction false} ShlAdd(x: nat, y: nat, k: nat)
    ensures Shl(x + y, k) == Shl(x, k) + Shl(y, k)
  {
    if k > 0 {
      ShlAdd(x, y, k - 1);
    }
  }

  lemma {:induction false} ShlShl(x: nat, j: nat, k: nat)
    ensures Shl(Shl(x, j), k) == Shl(x, j + k)
  {
    if k > 0 {
      ShlShl(x, j, k - 1);
    }
  }

  lemma {:induction false} ShlOne(k: nat)
    ensures Shl(1, k) == Pow2(k) && Shl(0, k) == 0
  {
    if k > 0 {
      ShlOne(k - 1);
    }
  }

  lemma PowerShift(e: nat, k: nat)
    ensures Shl(Pow2(e), k) == Pow2(e + k)
  {
    ShlOne(e);
    ShlShl(1, e, k);
    ShlOne(e + k);
  }

  lemma {:induction false} ShlMonotone(x: nat, y: nat, k: nat)
    requires x <= y
    ensures Shl(x, k) <= Shl(y, k)
    ensures x < y ==> Shl(x, k) + Pow2(k) <= Shl(y, k)
  {
    if k > 0 {
      ShlMonotone(x, y, k - 1);
    }
  }

  /** Cutting a word into its `k` low bits and the rest, and back. */
  lemma {:induction false} LowShrCut(x: nat, k: nat)
    ensures x == Low(k, x) + Shl(Shr(x, k), k)
  {
    if k > 0 {
      LowShrCut(x / 2, k - 1);
    }
  }

  lemma {:induction false} LowShrPaste(lo: nat, hi: nat, k: nat)
    requires IsWord(k, lo)
    ensures Low(k, lo + Shl(hi, k)) == lo
    ensures Shr(lo + Shl(hi, k), k) == hi
  {
    if k > 0 {
      var x := lo + Shl(hi, k);
      assert x / 2 == lo / 2 + Shl(hi, k - 1) && x % 2 == lo % 2;
      LowShrPaste(lo / 2, hi, k - 1);
    }
  }

  lemma LowIsMod(w: nat, x: nat)
    ensures Low(w, x) == x % Pow2(w)
    ensures Shr(x, w) == x / Pow2(w)
  {
    LowShrCut(x, w);
    ShlIsMul(Shr(x, w), w);
    DivModUnique(x, Pow2(w), Shr(x, w), Low(w, x));
  }

  lemma LowOfWord(w: nat, x: nat)
    requires IsWord(w, x)
    ensures Low(w, x) == x
  {
    ShlOne(w);
    LowShrPaste(x, 0, w);
  }

  lemma {:induction false} ShrIsWord(x: nat, k: nat, m: nat)
    requires IsWord(k + m, x)
    ensures IsWord(m, Shr(x, k))
  {
    if k > 0 {
      ShrIsWord(x / 2, k - 1, m);
    }
  }

  lemma {:induction false} ShlIsWord(x: nat, k: nat, m: nat)
    requires IsWord(m, x)
    ensures IsWord(k + m, Shl(x, k))
  {
    if k > 0 {
      ShlIsWord(x, k - 1, m);
    }
  }

  lemma {:induction false} LowOfShl(w: nat, x: nat, k: nat)
    ensures Low(w, Shl(Low(w, x), k)) == Low(w, Shl(x, k))
  {
    LowShrCut(x, w);
    var h := Shr(x, w);
    ShlAdd(Low(w, x), Shl(h, w), k);
    ShlShl(h, w, k);
    ShlShl(h, k, w);
    LowAddMultiple(w, Shl(Low(w, x), k), Shl(h, k));
  }

  lemma {:induction false} LowAddMultiple(w: nat, x: nat, h: nat)
    ensures Low(w, x + Shl(h, w)) == Low(w, x)
  {
    LowShrCut(x, w);
    ShlAdd(Shr(x, w), h, w);
    LowShrPaste(Low(w, x), Shr(x, w) + h, w);
  }

  lemma RevHalf(v: nat, b: bool, y: nat)
    requires IsWord(v, y)
    ensures Rev(v + 1, Place(b, v) + y) / 2 == Rev(v, y)
    ensures Rev(v + 1, Rev(v, y)) == 2 * y
  {
    RevTopBit(v, b, y);
    var r := Rev(v, y);
    RevTopBit(v, false, r);
    RevInvolution(v, y);
  }

  lemma LowBelowTop(v: nat, b: bool, y: nat, x: nat)
    requires IsWord(v, y) && x == Place(b, v) + y
    ensures Low(v, x) == y
  {
    ShlOne(v);
    LowAddMultiple(v, y, if b then 1 else 0);
    LowOfWord(v, y);
  }

  lemma LowOfEven(v: nat, x: nat)
    ensures Low(v + 1, 2 * x) == 2 * Low(v, x)
  {
    var d := 2 * x;
    assert d % 2 == 0 && d / 2 == x;
  }

  /** One step of shifting right in the mirror is one step of shifting left. */
  lemma RevHalfRev(w: nat, x: nat)
    requires IsWord(w, x)
    ensures Rev(w, Rev(w, x) / 2) == Low(w, 2 * x)
    ensures IsWord(w, Rev(w, x) / 2)
  {
    if w > 0 {
      var v := w - 1;
      var b := x >= Pow2(v);
      var y: nat := x - Place(b, v);
      RevHalf(v, b, y);
      LowBelowTop(v, b, y, x);
      LowOfEven(v, x);
    }
  }

  /** Reversing, shifting right and reversing back is a left shift modulo 2^w, for every width and amount. */
  lemma {:induction false} LeftShiftByReversal(w: nat, x: nat, k: nat)
    requires IsWord(w, x)
    ensures Rev(w, Shr(Rev(w, x), k)) == Low(w, Shl(x, k)) == (x * Pow2(k)) % Pow2(w)
    decreases k
  {
    if k == 0 {
      RevInvolution(w, x);
      LowOfWord(w, x);
    } else {
      RevHalfRev(w, x);
      var y := Low(w, 2 * x);
      RevInvolution(w, Rev(w, x) / 2);
      LeftShiftByReversal(w, y, k - 1);
      LowOfShl(w, 2 * x, k - 1);
      ShlShl(x, 1, k - 1);
      assert Shl(x, 1) == 2 * x;
    }
    ShlIsMul(x, k);
    LowIsMod(w, Shl(x, k));
  }

  // ---------------------------------------------------------------- single bits

  lemma {:induction false} BitOfTop(w: nat, b: bool, x: nat, i: nat)
    requires IsWord(w, x)
    ensures Bit(Place(b, w) + x, i) == (if i < w then Bit(x, i) else i == w && b)
  {
    var y := Place(b, w) + x;
    if w == 0 {
      if i > 0 {
        BitsOfZero(i - 1);
      }
    } else {
      assert y % 2 == x % 2 && y / 2 == Place(b, w - 1) + x / 2;
      if i > 0 {
        BitOfTop(w - 1, b, x / 2, i - 1);
      }
    }
  }

  lemma {:induction false} BitsOfZero(i: nat)
    ensures !Bit(0, i)
  {
    if i > 0 {
      BitsOfZero(i - 1);
    }
  }

  /** Reversal moves bit `i` to position `w-1-i`, as the bit-swapping generate loops do. */
  lemma {:induction false} RevBit(w: nat, x: nat, i: nat)
    requires i < w
    ensures Bit(Rev(w, x), i) == Bit(x, w - 1 - i)
  {
    BitOfTop(w - 1, x % 2 == 1, Rev(w - 1, x / 2), i);
    if i < w - 1 {
      RevBit(w - 1, x / 2, i);
    }
  }

  /** A set bit bounds the word from below; clear high bits bound it from above. */
  lemma {:induction false} SetBitBound(x: nat, i: nat)
    requires Bit(x, i)
    ensures x >= Pow2(i)
  {
    if i > 0 {
      SetBitBound(x / 2, i - 1);
    }
  }

  lemma {:induction false} ClearBitsBound(w: nat, x: nat, j: nat)
    requires IsWord(w, x)
    requires forall i: nat :: j <= i < w ==> !Bit(x, i)
    ensures x < Pow2(j)
  {
    if w == 0 {
      Pow2Monotone(0, j);
    } else if j == 0 {
      assert !Bit(x, 0);
      forall i: nat | 0 <= i < w - 1
        ensures !Bit(x / 2, i)
      {
        assert !Bit(x, i + 1);
      }
      ClearBitsBound(w - 1, x / 2, 0);
    } else {
      forall i: nat | j - 1 <= i < w - 1
        ensures !Bit(x / 2, i)
      {
        assert !Bit(x, i + 1);
      }
      ClearBitsBound(w - 1, x / 2, j - 1);
    }
  }

  /** A word with the sign bit clear, or set. */
  lemma TopBitIsSign(w: nat, x: nat)
    requires w > 0 && IsWord(w, x)
    ensures Bit(x, w - 1) <==> x >= Pow2(w - 1)
  {
    if Bit(x, w - 1) {
      SetBitBound(x, w - 1);
    } else {
      ClearBitsBound(w, x, w - 1);
    }
  }
}
