/** Vector words: a word of several lanes of `w` bits each, lane 0 in the least significant position. */
module Lanes {
  import opened Words

  /** Total width of `n` lanes of `w` bits. */
  function Width(w: nat, n: nat): nat {
    if n == 0 then 0 else w + Width(w, n - 1)
  }

  predicate AreWords(w: nat, s: seq<nat>) {
    forall i :: 0 <= i < |s| ==> IsWord(w, s[i])
  }

  function Join(w: nat, s: seq<nat>): nat {
    if s == [] then 0 else s[0] + Shl(Join(w, s[1..]), w)
  }

  function Split(w: nat, n: nat, x: nat): (s: seq<nat>)
    ensures |s| == n && AreWords(w, s)
  {
    if n == 0 then [] else [Low(w, x)] + Split(w, n - 1, Shr(x, w))
  }

  function Reverse<T>(s: seq<T>): (r: seq<T>)
    ensures |r| == |s|
    ensures forall i :: 0 <= i < |s| ==> r[i] == s[|s| - 1 - i]
  {
    if s == [] then [] else Reverse(s[1..]) + [s[0]]
  }

  lemma {:induction false} SplitJoin(w: nat, s: seq<nat>)
    requires AreWords(w, s)
    ensures Split(w, |s|, Join(w, s)) == s
  {
    if s != [] {
      LowShrPaste(s[0], Join(w, s[1..]), w);
      SplitJoin(w, s[1..]);
    }
  }

  lemma {:induction false} JoinSplit(w: nat, n: nat, x: nat)
    requires IsWord(Width(w, n), x)
    ensures Join(w, Split(w, n, x)) == x
  {
    if n > 0 {
      LowShrCut(x, w);
      ShrIsWord(x, w, Width(w, n - 1));
      JoinSplit(w, n - 1, Shr(x, w));
    }
  }

  lemma {:induction false} JoinIsWord(w: nat, s: seq<nat>)
    requires AreWords(w, s)
    ensures IsWord(Width(w, |s|), Join(w, s))
  {
    if s != [] {
      var j, m := Join(w, s[1..]), Width(w, |s| - 1);
      JoinIsWord(w, s[1..]);
      ShlMonotone(j, j + 1, w);
      ShlMonotone(j + 1, Pow2(m), w);
      PowerShift(m, w);
    }
  }

  lemma {:induction false} JoinSnoc(w: nat, s: seq<nat>, t: nat)
    ensures Join(w, s + [t]) == Join(w, s) + Shl(t, Width(w, |s|))
  {
    if s == [] {
      ShlOne(w);
      assert [t][1..] == [] && s + [t] == [t];
    } else {
      var u := s[1..];
      assert (s + [t])[1..] == u + [t];
      JoinSnoc(w, u, t);
      ShlAdd(Join(w, u), Shl(t, Width(w, |u|)), w);
      ShlShl(t, Width(w, |u|), w);
    }
  }

  lemma {:induction false} PlaceShift(b: bool, i: nat, m: nat)
    ensures Shl(Place(b, i), m) == Place(b, i + m)
  {
    if m > 0 {
      PlaceShift(b, i, m - 1);
    }
  }

  lemma HalfOfPaste(w: nat, lo: nat, hi: nat, x: nat)
    requires w > 0 && x == lo + Shl(hi, w)
    ensures x % 2 == lo % 2 && x / 2 == lo / 2 + Shl(hi, w - 1)
  {
  }

  lemma RevStep(w: nat, x: nat, b: bool, y: nat)
    requires w > 0 && b == (x % 2 == 1) && y == x / 2
    ensures Rev(w, x) == Place(b, w - 1) + Rev(w - 1, y)
  {
  }

  /** Reversing two fields side by side reverses each and exchanges them. */
  lemma {:induction false} RevAppend(w: nat, m: nat, lo: nat, hi: nat, x: nat)
    requires IsWord(w, lo) && x == lo + Shl(hi, w)
    ensures Rev(w + m, x) == Rev(m, hi) + Shl(Rev(w, lo), m)
    decreases w
  {
    if w == 0 {
      ShlOne(m);
    } else {
      var b := lo % 2 == 1;
      HalfOfPaste(w, lo, hi, x);
      RevAppend(w - 1, m, lo / 2, hi, x / 2);
      RevStep(w + m, x, b, x / 2);
      RevStep(w, lo, b, lo / 2);
      PlaceShift(b, w - 1, m);
      ShlAdd(Place(b, w - 1), Rev(w - 1, lo / 2), m);
    }
  }

  function RevEach(w: nat, s: seq<nat>): (r: seq<nat>)
    ensures |r| == |s| && AreWords(w, r)
    ensures forall i :: 0 <= i < |s| ==> r[i] == Rev(w, s[i])
  {
    seq(|s|, i requires 0 <= i < |s| => Rev(w, s[i]))
  }

  /** Reversing a whole vector word reverses every lane and the order of the lanes. */
  lemma {:induction false} RevJoin(w: nat, s: seq<nat>)
    requires AreWords(w, s)
    ensures Rev(Width(w, |s|), Join(w, s)) == Join(w, Reverse(RevEach(w, s)))
  {
    if s != [] {
      var u, m := s[1..], Width(w, |s| - 1);
      RevJoin(w, u);
      var r := Reverse(RevEach(w, u));
      RevAppend(w, m, s[0], Join(w, u), Join(w, s));
      assert Rev(Width(w, |s|), Join(w, s)) == Join(w, r) + Shl(Rev(w, s[0]), m);
      JoinSnoc(w, r, Rev(w, s[0]));
      assert Reverse(RevEach(w, s)) == r + [Rev(w, s[0])] by {
        assert RevEach(w, s)[1..] == RevEach(w, u);
      }
    }
  }
}
