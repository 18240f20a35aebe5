/** The find-first-one tree (rtl/cv32e40p_ff_one.sv) for a vector of any length of at least two. */
module FindFirstOne {
  import opened Words

  function NumLevels(len: nat): (n: nat)
    requires len >= 2
    ensures n >= 1 && len <= Pow2(n)
  {
    Clog2(len)
  }

  /** Number of nodes on the levels above the leaves, which is also the heap index of the leftmost leaf node. */
  function FirstLeaf(len: nat): nat
    requires len >= 2
  {
    Pow2(NumLevels(len) - 1) - 1
  }

  /** The constant `j` in the width of the index vector. */
  function IndexLut(len: nat, j: nat): nat
    requires len >= 2
  {
    j % Pow2(NumLevels(len))
  }

  /** `sel_nodes[n]`. Node `n` of the heap has children `2n+1` and `2n+2`; a leaf node looks at two input bits. */
  predicate SelNode(len: nat, x: nat, n: nat)
    requires len >= 2
    decreases FirstLeaf(len) - n
  {
    if n < FirstLeaf(len) then
      SelNode(len, x, 2 * n + 1) || SelNode(len, x, 2 * n + 2)
    else
      var k := n - FirstLeaf(len);
      if k * 2 < len - 1 then Bit(x, k * 2) || Bit(x, k * 2 + 1)
      else if k * 2 == len - 1 then Bit(x, k * 2)
      else false
  }

  /** `index_nodes[n]`. */
  function IndexNode(len: nat, x: nat, n: nat): nat
    requires len >= 2
    decreases FirstLeaf(len) - n
  {
    if n < FirstLeaf(len) then
      if SelNode(len, x, 2 * n + 1) then IndexNode(len, x, 2 * n + 1) else IndexNode(len, x, 2 * n + 2)
    else
      var k := n - FirstLeaf(len);
      if k * 2 < len - 1 then
        if Bit(x, k * 2) then IndexLut(len, k * 2) else IndexLut(len, k * 2 + 1)
      else if k * 2 == len - 1 then IndexLut(len, k * 2)
      else 0
  }

  function FirstOne(len: nat, x: nat): nat
    requires len >= 2
  {
    IndexNode(len, x, 0)
  }

  predicate NoOnes(len: nat, x: nat)
    requires len >= 2
  {
    !SelNode(len, x, 0)
  }

  // ---------------------------------------------------------------- the linear scan

  /** The least set index in `[lo, hi)`, or `hi` when there is none. */
  function Scan(x: nat, lo: nat, hi: nat): (i: nat)
    requires lo <= hi
    ensures lo <= i <= hi
    ensures i < hi ==> Bit(x, i)
    ensures forall j: nat :: lo <= j < i ==> !Bit(x, j)
    decreases hi - lo
  {
    if lo == hi || Bit(x, lo) then lo else Scan(x, lo + 1, hi)
  }

  lemma {:induction false} ScanSplit(x: nat, lo: nat, mid: nat, hi: nat)
    requires lo <= mid <= hi
    ensures Scan(x, lo, hi) == if Scan(x, lo, mid) < mid then Scan(x, lo, mid) else Scan(x, mid, hi)
    decreases mid - lo
  {
    if lo < mid && !Bit(x, lo) {
      ScanSplit(x, lo + 1, mid, hi);
    }
  }

  lemma {:induction false} BitsAboveWord(w: nat, x: nat, i: nat)
    requires IsWord(w, x) && i >= w
    ensures !Bit(x, i)
  {
    if Bit(x, i) {
      SetBitBound(x, i);
      Pow2Monotone(w, i);
    }
  }

  /** Node `n` summarises the input block `[lo, hi)`: whether a bit is set there, and which is the first. */
  ghost predicate Summarises(len: nat, x: nat, n: nat, lo: nat, hi: nat)
    requires len >= 2 && lo <= hi
  {
    && (SelNode(len, x, n) <==> Scan(x, lo, hi) < hi)
    && (SelNode(len, x, n) ==> IndexNode(len, x, n) == Scan(x, lo, hi))
  }

  lemma ScanPair(x: nat, lo: nat, hi: nat)
    requires hi == lo + 2
    ensures Scan(x, lo, hi) == if Bit(x, lo) then lo else if Bit(x, lo + 1) then lo + 1 else hi
  {
    assert Scan(x, hi, hi) == hi;
    assert Scan(x, lo + 1, hi) == if Bit(x, lo + 1) then lo + 1 else hi;
  }

  /** A leaf node looks at inputs `lo` and `lo + 1`; those past the end of the vector count as clear. */
  lemma LeafNode(len: nat, x: nat, n: nat, lo: nat)
    requires len >= 2 && IsWord(len, x) && n >= FirstLeaf(len) && lo == 2 * (n - FirstLeaf(len))
    ensures SelNode(len, x, n) <==> Bit(x, lo) || Bit(x, lo + 1)
    ensures Bit(x, lo) ==> IndexNode(len, x, n) == IndexLut(len, lo)
    ensures !Bit(x, lo) && Bit(x, lo + 1) ==> IndexNode(len, x, n) == IndexLut(len, lo + 1)
  {
    if lo >= len {
      BitsAboveWord(len, x, lo);
    }
    if lo + 1 >= len {
      BitsAboveWord(len, x, lo + 1);
    }
  }

  lemma LeafSummarises(len: nat, x: nat, k: nat)
    requires len >= 2 && IsWord(len, x) && k < Pow2(NumLevels(len) - 1)
    ensures Summarises(len, x, FirstLeaf(len) + k, 2 * k, 2 * k + 2)
  {
    ScanPair(x, 2 * k, 2 * k + 2);
    LeafNode(len, x, FirstLeaf(len) + k, 2 * k);
    SmallMod(2 * k, Pow2(NumLevels(len)));
    SmallMod(2 * k + 1, Pow2(NumLevels(len)));
  }

  lemma InnerSummarises(len: nat, x: nat, n: nat, lo: nat, mid: nat, hi: nat)
    requires len >= 2 && n < FirstLeaf(len) && lo <= mid <= hi
    requires Summarises(len, x, 2 * n + 1, lo, mid) && Summarises(len, x, 2 * n + 2, mid, hi)
    ensures Summarises(len, x, n, lo, hi)
  {
    ScanSplit(x, lo, mid, hi);
  }

  /** First input bit under node `l` of a level that is `k` levels above the input bits: `l` times 2^k. */
  function BlockStart(l: nat, k: nat): nat
    decreases k
  {
    if k == 0 then l else BlockStart(2 * l, k - 1)
  }

  lemma {:induction false} BlocksAreAdjacent(l: nat, k: nat)
    ensures BlockStart(l + 1, k) == BlockStart(l, k) + Pow2(k)
    ensures BlockStart(0, k) == 0
    decreases k
  {
    if k > 0 {
      BlocksAreAdjacent(2 * l, k - 1);
      BlocksAreAdjacent(2 * l + 1, k - 1);
    }
  }

  /** Node `n` is number `l` of the level that lies `k` levels above the input bits, and `lo` is its first bit. */
  ghost predicate AtLevel(len: nat, level: nat, k: nat, l: nat, n: nat, lo: nat)
    requires len >= 2
  {
    && k >= 1 && level + k == NumLevels(len)
    && l < Pow2(level) && n == Pow2(level) - 1 + l
    && lo == BlockStart(l, k)
  }

  lemma ChildrenAtNextLevel(len: nat, level: nat, k: nat, l: nat, n: nat, lo: nat, mid: nat, hi: nat)
    requires len >= 2 && k >= 2 && AtLevel(len, level, k, l, n, lo) && mid == lo + Pow2(k - 1) && hi == lo + Pow2(k)
    ensures n < FirstLeaf(len) && hi == mid + Pow2(k - 1)
    ensures AtLevel(len, level + 1, k - 1, 2 * l, 2 * n + 1, lo)
    ensures AtLevel(len, level + 1, k - 1, 2 * l + 1, 2 * n + 2, mid)
  {
    assert Pow2(level + 1) == 2 * Pow2(level);
    Pow2Monotone(level + 1, NumLevels(len) - 1);
    BlocksAreAdjacent(2 * l, k - 1);
  }

  lemma LeafAtLevel(len: nat, level: nat, l: nat, n: nat, lo: nat)
    requires len >= 2 && AtLevel(len, level, 1, l, n, lo)
    ensures l < Pow2(NumLevels(len) - 1) && n == FirstLeaf(len) + l && lo == 2 * l && Pow2(1) == 2
  {
    assert lo == BlockStart(2 * l, 0);
  }

  /** Every node summarises its own aligned block of the input, by induction from the leaves to the root. */
  lemma {:induction false} NodeSummarises(len: nat, x: nat, level: nat, k: nat, l: nat, n: nat, lo: nat)
    requires len >= 2 && IsWord(len, x) && AtLevel(len, level, k, l, n, lo)
    ensures Summarises(len, x, n, lo, lo + Pow2(k))
    decreases k, 1
  {
    if k == 1 {
      LeafAtLevel(len, level, l, n, lo);
      LeafSummarises(len, x, l);
    } else {
      InnerNode(len, x, level, k, l, n, lo);
    }
  }

  lemma {:induction false} InnerNode(len: nat, x: nat, level: nat, k: nat, l: nat, n: nat, lo: nat)
    requires len >= 2 && IsWord(len, x) && k >= 2 && AtLevel(len, level, k, l, n, lo)
    ensures Summarises(len, x, n, lo, lo + Pow2(k))
    decreases k, 0
  {
    var mid, hi := lo + Pow2(k - 1), lo + Pow2(k);
    ChildrenAtNextLevel(len, level, k, l, n, lo, mid, hi);
    NodeSummarises(len, x, level + 1, k - 1, 2 * l, 2 * n + 1, lo);
    NodeSummarises(len, x, level + 1, k - 1, 2 * l + 1, 2 * n + 2, mid);
    InnerSummarises(len, x, n, lo, mid, hi);
  }

  ghost predicate NoBitBelow(x: nat, n: nat) {
    forall i: nat :: i < n ==> !Bit(x, i)
  }

  /** The tree is the linear scan: `no_ones_o` exactly when no bit is set, and otherwise `first_one_o` is the
      least index of a set bit. */
  lemma TreeIsLinearScan(len: nat, x: nat)
    requires len >= 2 && IsWord(len, x)
    ensures NoOnes(len, x) <==> NoBitBelow(x, len)
    ensures !NoOnes(len, x) ==>
              var f := FirstOne(len, x); f < len && Bit(x, f) && NoBitBelow(x, f)
  {
    var size := Pow2(NumLevels(len));
    BlocksAreAdjacent(0, NumLevels(len));
    NodeSummarises(len, x, 0, NumLevels(len), 0, 0, 0);
    var s := Scan(x, 0, size);
    if s < size && s >= len {
      BitsAboveWord(len, x, s);
    }
  }
}
