/** The byte-composed comparator of the ALU and the results selected with it: comparisons, minimum, maximum and
    absolute value in every lane (rtl/cv32e40p_alu.sv). Operands are given by their bytes, least significant first. */
module Comparator {
  import opened Words
  import opened Lanes
  import opened SimdAdder

  // ---------------------------------------------------------------- comparing one lane of any number of bytes

  /** A byte behind a ninth bit that repeats its top bit exactly when the byte is compared as signed. */
  function ByteValue(signed: bool, x: nat): int {
    if signed && x >= 128 then x - 256 else x
  }

  predicate GreaterByte(signed: bool, x: nat, y: nat) {
    ByteValue(signed, x) > ByteValue(signed, y)
  }

  /** The nested formula: only the most significant byte may be compared as signed. */
  predicate Greater(signed: bool, a: seq<nat>, b: seq<nat>)
    requires |a| == |b|
  {
    a != [] &&
    var n := |a| - 1;
    GreaterByte(signed, a[n], b[n]) || (a[n] == b[n] && Greater(false, a[..n], b[..n]))
  }

  /** What a word of `w` bits stands for in a signed or unsigned comparison. */
  function Value(signed: bool, w: nat, x: nat): int {
    if signed then Signed(w, x) else x
  }

  lemma BytePower(m: nat)
    ensures Pow2(m + 8) == 256 * Pow2(m) && Pow2(m + 7) == 128 * Pow2(m)
  {
    assert Pow2(m + 8) == 2 * Pow2(m + 7) && Pow2(m + 7) == 2 * Pow2(m + 6) && Pow2(m + 6) == 2 * Pow2(m + 5);
    assert Pow2(m + 5) == 2 * Pow2(m + 4) && Pow2(m + 4) == 2 * Pow2(m + 3) && Pow2(m + 3) == 2 * Pow2(m + 2);
    assert Pow2(m + 2) == 2 * Pow2(m + 1);
  }

  lemma ScaleBound(t: int, lo: nat, p: nat)
    requires lo < p
    ensures t >= 128 ==> lo + t * p >= 128 * p
    ensures t < 128 ==> lo + t * p < 128 * p
  {
    if t >= 128 {
      MulAtLeast(t - 127, p);
      assert t * p == (t - 127) * p + 127 * p;
    } else {
      MulAtMost(t - 128, p);
      assert t * p == (t - 128) * p + 128 * p;
    }
  }

  /** The value of a word through the value of its top byte. */
  lemma TopByteValue(signed: bool, m: nat, lo: nat, t: nat, p: nat, x: nat)
    requires p == Pow2(m) && lo < p && t < 256 && x == lo + Shl(t, m)
    ensures Value(signed, m + 8, x) == lo + ByteValue(signed, t) * p
  {
    BytePower(m);
    ShlIsMul(t, m);
    ScaleBound(t, lo, p);
    assert (t - 256) * p == t * p - 256 * p;
  }

  lemma LexicographicOrder(lo: nat, lo': nat, h: int, h': int, p: nat)
    requires lo < p && lo' < p
    ensures lo + h * p > lo' + h' * p <==> h > h' || (h == h' && lo > lo')
  {
    if h > h' {
      MulAtLeast(h - h', p);
      assert h * p == (h - h') * p + h' * p;
    } else if h < h' {
      MulAtLeast(h' - h, p);
      assert h' * p == (h' - h) * p + h * p;
    }
  }

  lemma JoinTopByte(a: seq<nat>)
    requires a != [] && Bytes(a)
    ensures var n := |a| - 1;
            && Join(8, a) == Join(8, a[..n]) + Shl(a[n], Width(8, n))
            && Join(8, a[..n]) < Pow2(Width(8, n))
  {
    var n := |a| - 1;
    assert a == a[..n] + [a[n]];
    JoinSnoc(8, a[..n], a[n]);
    ByteWords(a[..n]);
    JoinIsWord(8, a[..n]);
  }

  lemma LaneValue(signed: bool, a: seq<nat>)
    requires a != [] && Bytes(a)
    ensures var n := |a| - 1;
            && Join(8, a[..n]) < Pow2(Width(8, n))
            && Value(signed, Width(8, |a|), Join(8, a))
               == Join(8, a[..n]) + ByteValue(signed, a[n]) * Pow2(Width(8, n))
  {
    var n := |a| - 1;
    JoinTopByte(a);
    LaneValueOf(signed, Width(8, n), Width(8, |a|), Join(8, a[..n]), a[n], Join(8, a));
  }

  lemma LaneValueOf(signed: bool, m: nat, w: nat, lo: nat, t: nat, x: nat)
    requires w == m + 8 && lo < Pow2(m) && t < 256 && x == lo + Shl(t, m)
    ensures Value(signed, w, x) == lo + ByteValue(signed, t) * Pow2(m)
  {
    TopByteValue(signed, m, lo, t, Pow2(m), x);
  }

  lemma ByteValueInjective(signed: bool, x: nat, y: nat)
    requires x < 256 && y < 256
    ensures ByteValue(signed, x) == ByteValue(signed, y) <==> x == y
  {
  }

  /** The nested formula decides the integer order of the two lanes. */
  lemma {:induction false} GreaterIsOrder(signed: bool, a: seq<nat>, b: seq<nat>)
    requires |a| == |b| && Bytes(a) && Bytes(b)
    ensures Greater(signed, a, b)
            <==> Value(signed, Width(8, |a|), Join(8, a)) > Value(signed, Width(8, |b|), Join(8, b))
    decreases |a|
  {
    if a != [] {
      var n := |a| - 1;
      LaneValue(signed, a);
      LaneValue(signed, b);
      GreaterIsOrder(false, a[..n], b[..n]);
      ByteValueInjective(signed, a[n], b[n]);
      LexicographicOrder(Join(8, a[..n]), Join(8, b[..n]), ByteValue(signed, a[n]), ByteValue(signed, b[n]),
                         Pow2(Width(8, n)));
    } else {
      assert b == [];
    }
  }

  lemma EqualBytes(a: seq<nat>, b: seq<nat>)
    requires |a| == |b| && Bytes(a) && Bytes(b)
    ensures a == b <==> Join(8, a) == Join(8, b)
  {
    ByteWords(a);
    ByteWords(b);
    SplitJoin(8, a);
    SplitJoin(8, b);
  }

  // ---------------------------------------------------------------- the three vector modes of a 32-bit word

  datatype VecMode = Mode32 | Mode16 | Mode8

  function LaneSize(mode: VecMode): nat {
    match mode
    case Mode32 => 4
    case Mode16 => 2
    case Mode8 => 1
  }

  /** The first byte of the lane that byte `i` belongs to. */
  function Start(mode: VecMode, i: nat): nat {
    match mode
    case Mode32 => 0
    case Mode16 => if i < 2 then 0 else 2
    case Mode8 => i
  }

  predicate IsWord4(a: seq<nat>) {
    |a| == 4 && Bytes(a)
  }

  /** The bytes of the lane that byte `i` belongs to. */
  function LaneAt<T>(mode: VecMode, a: seq<T>, i: nat): (r: seq<T>)
    requires |a| == 4 && i < 4
    ensures |r| == LaneSize(mode)
  {
    a[Start(mode, i)..Start(mode, i) + LaneSize(mode)]
  }

  /** The lane that byte `i` belongs to, as a word. */
  function Lane(mode: VecMode, a: seq<nat>, i: nat): nat
    requires |a| == 4 && i < 4
  {
    Join(8, LaneAt(mode, a, i))
  }

  /** `cmp_signed`: the bytes whose top bit is a sign. */
  function CmpSigned(signed: bool, mode: VecMode): (r: seq<bool>)
    ensures |r| == 4
  {
    if !signed then [false, false, false, false]
    else
      match mode
      case Mode32 => [false, false, false, true]
      case Mode16 => [false, true, false, true]
      case Mode8 => [true, true, true, true]
  }

  /** `is_equal_vec`. */
  function EqualVec(a: seq<nat>, b: seq<nat>): (r: seq<bool>)
    requires |a| == |b| == 4
    ensures |r| == 4
  {
    [a[0] == b[0], a[1] == b[1], a[2] == b[2], a[3] == b[3]]
  }

  /** `is_greater_vec`. */
  function GreaterVec(s: seq<bool>, a: seq<nat>, b: seq<nat>): (r: seq<bool>)
    requires |s| == |a| == |b| == 4
    ensures |r| == 4
  {
    [GreaterByte(s[0], a[0], b[0]), GreaterByte(s[1], a[1], b[1]),
     GreaterByte(s[2], a[2], b[2]), GreaterByte(s[3], a[3], b[3])]
  }

  /** `is_equal` from the byte-wise signals. */
  function IsEqual(mode: VecMode, eq: seq<bool>): (r: seq<bool>)
    requires |eq| == 4
    ensures |r| == 4
  {
    match mode
    case Mode32 =>
      var all := eq[3] && eq[2] && eq[1] && eq[0];
      [all, all, all, all]
    case Mode16 => [eq[0] && eq[1], eq[0] && eq[1], eq[2] && eq[3], eq[2] && eq[3]]
    case Mode8 => eq
  }

  /** `is_greater` from the byte-wise signals. */
  function IsGreater(mode: VecMode, eq: seq<bool>, gt: seq<bool>): (r: seq<bool>)
    requires |eq| == |gt| == 4
    ensures |r| == 4
  {
    match mode
    case Mode32 =>
      var all := gt[3] || (eq[3] && (gt[2] || (eq[2] && (gt[1] || (eq[1] && gt[0])))));
      [all, all, all, all]
    case Mode16 =>
      var lo, hi := gt[1] || (eq[1] && gt[0]), gt[3] || (eq[3] && gt[2]);
      [lo, lo, hi, hi]
    case Mode8 => gt
  }

  function Equals(mode: VecMode, a: seq<nat>, b: seq<nat>): (r: seq<bool>)
    requires |a| == |b| == 4
    ensures |r| == 4
  {
    IsEqual(mode, EqualVec(a, b))
  }

  function Greaters(signed: bool, mode: VecMode, a: seq<nat>, b: seq<nat>): (r: seq<bool>)
    requires |a| == |b| == 4
    ensures |r| == 4
  {
    IsGreater(mode, EqualVec(a, b), GreaterVec(CmpSigned(signed, mode), a, b))
  }

  lemma GreaterOne(signed: bool, a: seq<nat>, b: seq<nat>)
    requires |a| == |b| == 1
    ensures Greater(signed, a, b) <==> GreaterByte(signed, a[0], b[0])
  {
  }

  lemma GreaterTwo(signed: bool, a: seq<nat>, b: seq<nat>)
    requires |a| == |b| == 2
    ensures Greater(signed, a, b)
            <==> GreaterByte(signed, a[1], b[1]) || (a[1] == b[1] && GreaterByte(false, a[0], b[0]))
  {
    GreaterOne(false, a[..1], b[..1]);
  }

  lemma GreaterFour(signed: bool, a: seq<nat>, b: seq<nat>)
    requires |a| == |b| == 4
    ensures Greater(signed, a, b)
            <==> GreaterByte(signed, a[3], b[3]) || (a[3] == b[3] && (GreaterByte(false, a[2], b[2])
                   || (a[2] == b[2] && (GreaterByte(false, a[1], b[1])
                     || (a[1] == b[1] && GreaterByte(false, a[0], b[0]))))))
  {
    var c, d := a[..3], b[..3];
    GreaterTwo(false, c[..2], d[..2]);
    assert Greater(false, c, d) <==> GreaterByte(false, c[2], d[2]) || (c[2] == d[2] && Greater(false, c[..2], d[..2]));
  }

  /** In every mode, every bit of `is_greater` is the nested formula of the lane its byte belongs to. */
  lemma GreaterPerLane(signed: bool, mode: VecMode, a: seq<nat>, b: seq<nat>, i: nat)
    requires |a| == |b| == 4 && i < 4
    ensures Greaters(signed, mode, a, b)[i] <==> Greater(signed, LaneAt(mode, a, i), LaneAt(mode, b, i))
  {
    var x, y := LaneAt(mode, a, i), LaneAt(mode, b, i);
    match mode
    case Mode32 => GreaterFour(signed, x, y);
    case Mode16 => GreaterTwo(signed, x, y);
    case Mode8 => GreaterOne(signed, x, y);
  }

  lemma EqualPerLane(mode: VecMode, a: seq<nat>, b: seq<nat>, i: nat)
    requires |a| == |b| == 4 && i < 4
    ensures Equals(mode, a, b)[i] <==> LaneAt(mode, a, i) == LaneAt(mode, b, i)
  {
    var x, y := LaneAt(mode, a, i), LaneAt(mode, b, i);
    match mode
    case Mode32 => assert x == y <==> x[0] == y[0] && x[1] == y[1] && x[2] == y[2] && x[3] == y[3];
    case Mode16 => assert x == y <==> x[0] == y[0] && x[1] == y[1];
    case Mode8 => assert x == y <==> x[0] == y[0];
  }

  /** In every mode, every bit of the two comparator outputs states the order of the lanes its byte belongs to. */
  lemma ComparatorIsLaneWise(signed: bool, mode: VecMode, a: seq<nat>, b: seq<nat>, i: nat)
    requires IsWord4(a) && IsWord4(b) && i < 4
    ensures var w := Width(8, LaneSize(mode));
            && (Greaters(signed, mode, a, b)[i]
                <==> Value(signed, w, Lane(mode, a, i)) > Value(signed, w, Lane(mode, b, i)))
            && (Equals(mode, a, b)[i] <==> Lane(mode, a, i) == Lane(mode, b, i))
  {
    GreaterPerLane(signed, mode, a, b, i);
    EqualPerLane(mode, a, b, i);
    GreaterIsOrder(signed, LaneAt(mode, a, i), LaneAt(mode, b, i));
    EqualBytes(LaneAt(mode, a, i), LaneAt(mode, b, i));
  }

  // ---------------------------------------------------------------- comparison operators

  datatype Operator =
    | EQ | NE | GTS | GTU | GES | GEU | LTS | LTU | SLTS | SLTU | LES | LEU | SLETS | SLETU
    | MIN | MINU | MAX | MAXU | ABS | CLIP | CLIPU

  /** The operators that compare as signed. */
  predicate ComparesSigned(op: Operator) {
    op in {GTS, GES, LTS, LES, SLTS, SLETS, MIN, MAX, ABS, CLIP, CLIPU}
  }

  /** One bit of `cmp_result`. */
  predicate CmpBit(op: Operator, eq: bool, gt: bool) {
    match op
    case EQ => eq
    case NE => !eq
    case GTS | GTU => gt
    case GES | GEU => gt || eq
    case LTS | SLTS | LTU | SLTU => !(gt || eq)
    case SLETS | SLETU | LES | LEU => !gt
    case _ => eq
  }

  /** `cmp_result`. */
  function CmpResult(op: Operator, mode: VecMode, a: seq<nat>, b: seq<nat>): (r: seq<bool>)
    requires |a| == |b| == 4
    ensures |r| == 4
  {
    CmpBits(op, Equals(mode, a, b), Greaters(ComparesSigned(op), mode, a, b))
  }

  function CmpBits(op: Operator, eq: seq<bool>, gt: seq<bool>): (r: seq<bool>)
    requires |eq| == |gt| == 4
    ensures |r| == 4
  {
    [CmpBit(op, eq[0], gt[0]), CmpBit(op, eq[1], gt[1]), CmpBit(op, eq[2], gt[2]), CmpBit(op, eq[3], gt[3])]
  }

  lemma CmpBitsAt(op: Operator, eq: seq<bool>, gt: seq<bool>, i: nat)
    requires |eq| == |gt| == 4 && i < 4
    ensures CmpBits(op, eq, gt)[i] == CmpBit(op, eq[i], gt[i])
  {
  }

  /** What a comparison operator asks of two integers. */
  predicate Relation(op: Operator, x: int, y: int) {
    match op
    case NE => x != y
    case GTS | GTU => x > y
    case GES | GEU => x >= y
    case LTS | SLTS | LTU | SLTU => x < y
    case SLETS | SLETU | LES | LEU => x <= y
    case _ => x == y
  }

  /** Every lane's comparison bit is the operator's relation on the integers in the lane: signed for the operators
      whose name ends in S, unsigned for those that end in U. */
  lemma ComparisonIsLaneWise(op: Operator, mode: VecMode, a: seq<nat>, b: seq<nat>, i: nat)
    requires IsWord4(a) && IsWord4(b) && i < 4
    ensures var x, y := Lane(mode, a, i), Lane(mode, b, i);
            && (op == EQ ==> (CmpResult(op, mode, a, b)[i] <==> x == y))
            && (op == NE ==> (CmpResult(op, mode, a, b)[i] <==> x != y))
            && (op == GTU ==> (CmpResult(op, mode, a, b)[i] <==> x > y))
            && (op == GEU ==> (CmpResult(op, mode, a, b)[i] <==> x >= y))
            && (op in {LTU, SLTU} ==> (CmpResult(op, mode, a, b)[i] <==> x < y))
            && (op in {LEU, SLETU} ==> (CmpResult(op, mode, a, b)[i] <==> x <= y))
    ensures var w := Width(8, LaneSize(mode));
            var x, y := Signed(w, Lane(mode, a, i)), Signed(w, Lane(mode, b, i));
            && (op == GTS ==> (CmpResult(op, mode, a, b)[i] <==> x > y))
            && (op == GES ==> (CmpResult(op, mode, a, b)[i] <==> x >= y))
            && (op in {LTS, SLTS} ==> (CmpResult(op, mode, a, b)[i] <==> x < y))
            && (op in {LES, SLETS} ==> (CmpResult(op, mode, a, b)[i] <==> x <= y))
  {
    CmpResultRelates(op, mode, a, b, i);
    LaneInjective(ComparesSigned(op), mode, a, b, i);
  }

  lemma LaneInjective(s: bool, mode: VecMode, a: seq<nat>, b: seq<nat>, i: nat)
    requires IsWord4(a) && IsWord4(b) && i < 4
    ensures var w := Width(8, LaneSize(mode));
            Value(s, w, Lane(mode, a, i)) == Value(s, w, Lane(mode, b, i)) <==> Lane(mode, a, i) == Lane(mode, b, i)
  {
    LaneIsWord(mode, a, i);
    LaneIsWord(mode, b, i);
    ValueInjective(s, Width(8, LaneSize(mode)), Lane(mode, a, i), Lane(mode, b, i));
  }

  /** The bit is the relation in the order the operator compares in. */
  lemma CmpResultRelates(op: Operator, mode: VecMode, a: seq<nat>, b: seq<nat>, i: nat)
    requires IsWord4(a) && IsWord4(b) && i < 4
    ensures var s, w := ComparesSigned(op), Width(8, LaneSize(mode));
            CmpResult(op, mode, a, b)[i]
            <==> Relation(op, Value(s, w, Lane(mode, a, i)), Value(s, w, Lane(mode, b, i)))
  {
    var s, w := ComparesSigned(op), Width(8, LaneSize(mode));
    var eq, gt := Equals(mode, a, b)[i], Greaters(s, mode, a, b)[i];
    LaneOrder(s, mode, a, b, i, eq, gt);
    CmpBitsAt(op, Equals(mode, a, b), Greaters(s, mode, a, b), i);
    OperatorRelation(op, eq, gt, Value(s, w, Lane(mode, a, i)), Value(s, w, Lane(mode, b, i)));
  }

  lemma LaneOrder(s: bool, mode: VecMode, a: seq<nat>, b: seq<nat>, i: nat, eq: bool, gt: bool)
    requires IsWord4(a) && IsWord4(b) && i < 4
    requires eq == Equals(mode, a, b)[i] && gt == Greaters(s, mode, a, b)[i]
    ensures var w := Width(8, LaneSize(mode));
            var x, y := Value(s, w, Lane(mode, a, i)), Value(s, w, Lane(mode, b, i));
            eq == (x == y) && gt == (x > y)
  {
    ComparatorIsLaneWise(s, mode, a, b, i);
    LaneInjective(s, mode, a, b, i);
  }

  lemma OperatorRelation(op: Operator, eq: bool, gt: bool, x: int, y: int)
    requires eq == (x == y) && gt == (x > y)
    ensures CmpBit(op, eq, gt) <==> Relation(op, x, y)
  {
  }

  lemma LaneIsWord(mode: VecMode, a: seq<nat>, i: nat)
    requires IsWord4(a) && i < 4
    ensures IsWord(Width(8, LaneSize(mode)), Lane(mode, a, i))
  {
    ByteWords(LaneAt(mode, a, i));
    JoinIsWord(8, LaneAt(mode, a, i));
  }

  lemma ValueInjective(signed: bool, w: nat, x: nat, y: nat)
    requires IsWord(w, x) && IsWord(w, y)
    ensures Value(signed, w, x) == Value(signed, w, y) <==> x == y
  {
  }

  // ---------------------------------------------------------------- minimum, maximum and absolute value

  predicate DoMin(op: Operator) {
    op in {MIN, MINU, CLIP, CLIPU}
  }

  function Select(sel: seq<bool>, a: seq<nat>, b: seq<nat>): (r: seq<nat>)
    requires |sel| == |a| == |b| == 4
    ensures |r| == 4 && (IsWord4(a) && IsWord4(b) ==> IsWord4(r))
  {
    [if sel[0] then a[0] else b[0], if sel[1] then a[1] else b[1],
     if sel[2] then a[2] else b[2], if sel[3] then a[3] else b[3]]
  }

  /** `adder_result` of the absolute value: the complement of operand a plus operand b, a carry injected. */
  function Negated(mode: VecMode, a: seq<nat>, b: seq<nat>): (r: seq<nat>)
    requires IsWord4(a) && |b| == 4
    ensures |r| == 4
  {
    ByteWords(a);
    AdderBytes(true, LaneSize(mode), NotEach(8, a), b)
  }

  function MinMaxB(op: Operator, mode: VecMode, a: seq<nat>, b: seq<nat>): (r: seq<nat>)
    requires IsWord4(a) && |b| == 4
    ensures |r| == 4
  {
    if op == ABS then Negated(mode, a, b) else b
  }

  /** `result_minmax`. */
  function MinMaxResult(op: Operator, mode: VecMode, a: seq<nat>, b: seq<nat>): (r: seq<nat>)
    requires IsWord4(a) && IsWord4(b)
    ensures |r| == 4
  {
    var gt := Greaters(ComparesSigned(op), mode, a, b);
    var sel := if DoMin(op) then [!gt[0], !gt[1], !gt[2], !gt[3]] else gt;
    Select(sel, a, MinMaxB(op, mode, a, b))
  }

  /** The comparator bit is the same for all bytes of a lane, so the selection takes whole lanes. */
  lemma SelectTakesLanes(op: Operator, mode: VecMode, a: seq<nat>, b: seq<nat>, i: nat)
    requires IsWord4(a) && IsWord4(b) && i < 4
    ensures LaneAt(mode, MinMaxResult(op, mode, a, b), i)
            == if Greaters(ComparesSigned(op), mode, a, b)[i] != DoMin(op) then LaneAt(mode, a, i)
               else LaneAt(mode, MinMaxB(op, mode, a, b), i)
  {
    var gt := Greaters(ComparesSigned(op), mode, a, b);
    var sel := if DoMin(op) then [!gt[0], !gt[1], !gt[2], !gt[3]] else gt;
    GreatersUniform(ComparesSigned(op), mode, a, b);
    LaneOfSelect(mode, sel, a, MinMaxB(op, mode, a, b), i);
  }

  predicate Uniform(mode: VecMode, sel: seq<bool>)
    requires |sel| == 4
  {
    match mode
    case Mode32 => sel[0] == sel[1] == sel[2] == sel[3]
    case Mode16 => sel[0] == sel[1] && sel[2] == sel[3]
    case Mode8 => true
  }

  lemma GreatersUniform(signed: bool, mode: VecMode, a: seq<nat>, b: seq<nat>)
    requires |a| == |b| == 4
    ensures Uniform(mode, Greaters(signed, mode, a, b))
  {
  }

  lemma SliceOfOne(s: seq<nat>, i: nat)
    requires i < |s|
    ensures s[i..i + 1] == [s[i]]
  {
    var t := s[i..i + 1];
    assert |t| == 1 && t[0] == s[i];
  }

  lemma LaneOfSelect(mode: VecMode, sel: seq<bool>, a: seq<nat>, b: seq<nat>, i: nat)
    requires |sel| == |a| == |b| == 4 && i < 4 && Uniform(mode, sel)
    ensures LaneAt(mode, Select(sel, a, b), i) == if sel[i] then LaneAt(mode, a, i) else LaneAt(mode, b, i)
  {
    var r := Select(sel, a, b);
    match mode
    case Mode32 => assert LaneAt(mode, r, i) == r && LaneAt(mode, a, i) == a && LaneAt(mode, b, i) == b;
    case Mode16 =>
      if i < 2 {
        assert r[0..2] == if sel[i] then a[0..2] else b[0..2];
      } else {
        assert r[2..4] == if sel[i] then a[2..4] else b[2..4];
      }
    case Mode8 =>
      assert r[i] == if sel[i] then a[i] else b[i];
      SliceOfOne(r, i);
      SliceOfOne(a, i);
      SliceOfOne(b, i);
  }

  function Extremum(min: bool, x: int, y: int): (r: int)
    ensures r == x || r == y
    ensures if min then r <= x && r <= y else r >= x && r >= y
  {
    if min == (x < y) then x else y
  }

  /** Minimum and maximum work in every lane, signed and unsigned. */
  lemma MinMaxIsLaneWise(mode: VecMode, a: seq<nat>, b: seq<nat>, i: nat)
    requires IsWord4(a) && IsWord4(b) && i < 4
    ensures var x, y := Lane(mode, a, i), Lane(mode, b, i);
            && Lane(mode, MinMaxResult(MINU, mode, a, b), i) == Extremum(true, x, y)
            && Lane(mode, MinMaxResult(MAXU, mode, a, b), i) == Extremum(false, x, y)
    ensures var w := Width(8, LaneSize(mode));
            var x, y := Signed(w, Lane(mode, a, i)), Signed(w, Lane(mode, b, i));
            && Signed(w, Lane(mode, MinMaxResult(MIN, mode, a, b), i)) == Extremum(true, x, y)
            && Signed(w, Lane(mode, MinMaxResult(MAX, mode, a, b), i)) == Extremum(false, x, y)
  {
    UnsignedExtremum(MINU, mode, a, b, i);
    UnsignedExtremum(MAXU, mode, a, b, i);
    SignedExtremum(MIN, mode, a, b, i, Width(8, LaneSize(mode)));
    SignedExtremum(MAX, mode, a, b, i, Width(8, LaneSize(mode)));
  }

  lemma UnsignedExtremum(op: Operator, mode: VecMode, a: seq<nat>, b: seq<nat>, i: nat)
    requires IsWord4(a) && IsWord4(b) && i < 4 && op in {MINU, MAXU}
    ensures Lane(mode, MinMaxResult(op, mode, a, b), i)
            == Extremum(op == MINU, Lane(mode, a, i), Lane(mode, b, i))
  {
    SelectsExtremum(op, mode, a, b, i);
  }

  lemma SignedExtremum(op: Operator, mode: VecMode, a: seq<nat>, b: seq<nat>, i: nat, w: nat)
    requires IsWord4(a) && IsWord4(b) && i < 4 && op in {MIN, MAX} && w == Width(8, LaneSize(mode))
    ensures Signed(w, Lane(mode, MinMaxResult(op, mode, a, b), i))
            == Extremum(op == MIN, Signed(w, Lane(mode, a, i)), Signed(w, Lane(mode, b, i)))
  {
    SelectsExtremum(op, mode, a, b, i);
  }

  /** The selection in the order the operator compares in. */
  lemma SelectsExtremum(op: Operator, mode: VecMode, a: seq<nat>, b: seq<nat>, i: nat)
    requires IsWord4(a) && IsWord4(b) && i < 4 && op != ABS
    ensures var s, w := ComparesSigned(op), Width(8, LaneSize(mode));
            Value(s, w, Lane(mode, MinMaxResult(op, mode, a, b), i))
            == Extremum(DoMin(op), Value(s, w, Lane(mode, a, i)), Value(s, w, Lane(mode, b, i)))
  {
    ComparatorIsLaneWise(ComparesSigned(op), mode, a, b, i);
    SelectTakesLanes(op, mode, a, b, i);
  }

  /** The lanes of a word, least significant first. */
  function LanesOf(mode: VecMode, a: seq<nat>): (x: seq<nat>)
    requires |a| == 4
  {
    match mode
    case Mode32 => [Lane(mode, a, 0)]
    case Mode16 => [Lane(mode, a, 0), Lane(mode, a, 2)]
    case Mode8 => [Lane(mode, a, 0), Lane(mode, a, 1), Lane(mode, a, 2), Lane(mode, a, 3)]
  }

  /** Which of them byte `i` belongs to. */
  function LaneIndex(mode: VecMode, i: nat): nat {
    match mode
    case Mode32 => 0
    case Mode16 => if i < 2 then 0 else 1
    case Mode8 => i
  }

  lemma FlattenOne(k: nat, a: seq<nat>)
    requires |a| == k && Bytes(a)
    ensures Flatten(k, [Join(8, a)]) == a
  {
    BytesOfJoin(k, a);
    assert [Join(8, a)][1..] == [];
  }

  lemma FlattenCons(k: nat, a: seq<nat>, x: seq<nat>)
    requires |a| == k && Bytes(a)
    ensures Flatten(k, [Join(8, a)] + x) == a + Flatten(k, x)
  {
    BytesOfJoin(k, a);
    assert ([Join(8, a)] + x)[1..] == x;
  }

  lemma FlattenFourLanes(a: seq<nat>)
    requires IsWord4(a)
    ensures Flatten(1, LanesOf(Mode8, a)) == a
  {
    var x := LanesOf(Mode8, a);
    FlattenOne(1, a[3..4]);
    FlattenCons(1, a[2..3], x[3..]);
    assert x[2..] == [x[2]] + x[3..];
    FlattenCons(1, a[1..2], x[2..]);
    assert x[1..] == [x[1]] + x[2..];
    FlattenCons(1, a[0..1], x[1..]);
    assert x == [x[0]] + x[1..];
    assert a == a[0..1] + (a[1..2] + (a[2..3] + a[3..4]));
  }

  /** A word is made of its lanes. */
  lemma FlattenLanes(mode: VecMode, a: seq<nat>)
    requires IsWord4(a)
    ensures Flatten(LaneSize(mode), LanesOf(mode, a)) == a
  {
    var x := LanesOf(mode, a);
    match mode
    case Mode32 =>
      assert LaneAt(mode, a, 0) == a;
      FlattenOne(4, a);
    case Mode16 =>
      FlattenOne(2, a[2..4]);
      FlattenCons(2, a[0..2], x[1..]);
      assert x == [x[0]] + x[1..] && a == a[0..2] + a[2..4];
    case Mode8 => FlattenFourLanes(a);
  }

  lemma LanesAreWords(mode: VecMode, a: seq<nat>)
    requires IsWord4(a)
    ensures AreWords(Width(8, LaneSize(mode)), LanesOf(mode, a))
  {
    LaneIsWord(mode, a, 0);
    LaneIsWord(mode, a, 1);
    LaneIsWord(mode, a, 2);
    LaneIsWord(mode, a, 3);
  }

  lemma LanesOfAt(mode: VecMode, a: seq<nat>, i: nat)
    requires |a| == 4 && i < 4
    ensures LaneIndex(mode, i) < |LanesOf(mode, a)| && LanesOf(mode, a)[LaneIndex(mode, i)] == Lane(mode, a, i)
  {
  }

  lemma LanesOfFlatten(mode: VecMode, r: seq<nat>, z: seq<nat>)
    requires IsWord4(r) && r == Flatten(LaneSize(mode), z)
    requires |z| == |LanesOf(mode, r)| && AreWords(Width(8, LaneSize(mode)), z)
    ensures LanesOf(mode, r) == z
  {
    var w := Width(8, LaneSize(mode));
    LanesAreWords(mode, r);
    FlattenLanes(mode, r);
    JoinFlatten(LaneSize(mode), z);
    JoinFlatten(LaneSize(mode), LanesOf(mode, r));
    SplitJoin(w, z);
    SplitJoin(w, LanesOf(mode, r));
  }

  lemma {:induction false} LaneSumsAt(minus: bool, k: nat, x: seq<nat>, y: seq<nat>, j: nat)
    requires |x| == |y| && j < |x|
    ensures LaneSums(minus, k, x, y)[j] == LaneSum(minus, k, x[j], y[j])
  {
    if j > 0 {
      LaneSumsAt(minus, k, x[1..], y[1..], j - 1);
    }
  }

  lemma {:induction false} ExtractBytes(n: nat, sum: nat)
    ensures Bytes(Extract(n, sum))
  {
    if n > 0 {
      ExtractBytes(n - 1, sum / 512);
    }
  }

  /** The adder's result, lane by lane of a 32-bit word. */
  lemma AdderLane(minus: bool, mode: VecMode, a: seq<nat>, b: seq<nat>, r: seq<nat>, i: nat)
    requires IsWord4(a) && IsWord4(b) && i < 4 && r == AdderBytes(minus, LaneSize(mode), a, b)
    ensures |r| == 4
    ensures Lane(mode, r, i) == LaneSum(minus, LaneSize(mode), Lane(mode, a, i), Lane(mode, b, i))
  {
    var k, x, y := LaneSize(mode), LanesOf(mode, a), LanesOf(mode, b);
    var z := LaneSums(minus, k, x, y);
    FlattenLanes(mode, a);
    FlattenLanes(mode, b);
    LanesAreWords(mode, a);
    LanesAreWords(mode, b);
    AdderBytesLaneWise(minus, k, x, y);
    ExtractBytes(4, ExpandA(minus, k, 0, true, a) + ExpandB(minus, k, 0, b));
    LanesOfFlatten(mode, r, z);
    LanesOfAt(mode, r, i);
    LanesOfAt(mode, a, i);
    LanesOfAt(mode, b, i);
    LaneSumsAt(minus, k, x, y, LaneIndex(mode, i));
  }

  lemma NotEachSlice(s: seq<nat>, p: nat, q: nat)
    requires p <= q <= |s| && AreWords(8, s)
    ensures AreWords(8, s[p..q]) && NotEach(8, s)[p..q] == NotEach(8, s[p..q])
  {
  }

  lemma ComplementLane(mode: VecMode, a: seq<nat>, i: nat)
    requires IsWord4(a) && i < 4 && AreWords(8, a)
    ensures IsWord4(NotEach(8, a)) && IsWord(Width(8, LaneSize(mode)), Lane(mode, a, i))
    ensures Lane(mode, NotEach(8, a), i) == Not(Width(8, LaneSize(mode)), Lane(mode, a, i))
  {
    ByteWords(NotEach(8, a));
    NotEachSlice(a, Start(mode, i), Start(mode, i) + LaneSize(mode));
    NotJoin(8, LaneAt(mode, a, i));
  }

  const ZERO: seq<nat> := [0, 0, 0, 0]

  lemma ZeroLane(mode: VecMode, i: nat)
    requires i < 4
    ensures IsWord4(ZERO) && Lane(mode, ZERO, i) == 0
  {
    JoinZeros(LaneAt(mode, ZERO, i));
  }

  lemma NegatedSum(mode: VecMode, a: seq<nat>, i: nat, w: nat, x: nat)
    requires IsWord4(a) && i < 4 && w == Width(8, LaneSize(mode)) && x == Lane(mode, a, i)
    ensures IsWord(w, x) && Lane(mode, Negated(mode, a, ZERO), i) == LaneSum(true, LaneSize(mode), Not(w, x), 0)
  {
    ByteWords(a);
    ComplementLane(mode, a, i);
    ZeroLane(mode, i);
    AdderLane(true, mode, NotEach(8, a), ZERO, Negated(mode, a, ZERO), i);
  }

  /** Two's complement negation, as the ALU forms it for the absolute value: operand b is the zero register. */
  lemma NegatedLane(mode: VecMode, a: seq<nat>, i: nat, w: nat, x: nat)
    requires IsWord4(a) && i < 4 && w == Width(8, LaneSize(mode)) && x == Lane(mode, a, i)
    ensures Lane(mode, Negated(mode, a, ZERO), i) == ToWord(w, -Signed(w, x))
  {
    var k := LaneSize(mode);
    NegatedSum(mode, a, i, w, x);
    NegateWord(k, x, LaneSum(true, k, Not(w, x), 0));
  }

  lemma NegateWord(k: nat, x: nat, s: nat)
    requires IsWord(Width(8, k), x) && s == LaneSum(true, k, Not(Width(8, k), x), 0)
    ensures s == ToWord(Width(8, k), -Signed(Width(8, k), x))
  {
    NegationWraps(x, Pow2(Width(8, k)));
  }

  lemma NegationWraps(x: int, p: nat)
    requires p > 0
    ensures (p - 1 - x + 0 + 1) % p == (-x) % p == (-(x - p)) % p
  {
    ModAddMultiple(-x, 1, p);
  }

  lemma {:induction false} JoinZeros(s: seq<nat>)
    requires forall j :: 0 <= j < |s| ==> s[j] == 0
    ensures Join(8, s) == 0
  {
    if s != [] {
      JoinZeros(s[1..]);
      ShlIsMul(0, 8);
    }
  }

  function Magnitude(v: int): nat {
    if v < 0 then -v else v
  }

  lemma AbsoluteOfWord(w: nat, x: nat, negated: nat, r: nat)
    requires IsWord(w, x) && negated == ToWord(w, -Signed(w, x))
    requires r == if Signed(w, x) > 0 then x else negated
    ensures r == ToWord(w, Magnitude(Signed(w, x)))
  {
    ToWordOfWord(w, x);
  }

  lemma ZeroValue(w: nat)
    ensures Value(true, w, 0) == 0
  {
  }

  lemma AbsSelects(mode: VecMode, a: seq<nat>, i: nat, w: nat, x: nat)
    requires IsWord4(a) && i < 4 && w == Width(8, LaneSize(mode)) && x == Lane(mode, a, i)
    ensures IsWord4(ZERO)
    ensures Lane(mode, MinMaxResult(ABS, mode, a, ZERO), i)
            == if Signed(w, x) > 0 then x else Lane(mode, Negated(mode, a, ZERO), i)
  {
    ZeroLane(mode, i);
    ZeroValue(w);
    LaneOrder(true, mode, a, ZERO, i, Equals(mode, a, ZERO)[i], Greaters(true, mode, a, ZERO)[i]);
    SelectTakesLanes(ABS, mode, a, ZERO, i);
  }

  lemma AbsLane(mode: VecMode, a: seq<nat>, i: nat, w: nat, x: nat)
    requires IsWord4(a) && i < 4 && w == Width(8, LaneSize(mode)) && x == Lane(mode, a, i)
    ensures IsWord4(ZERO) && Lane(mode, MinMaxResult(ABS, mode, a, ZERO), i) == ToWord(w, Magnitude(Signed(w, x)))
  {
    AbsSelects(mode, a, i, w, x);
    var negated, r := Lane(mode, Negated(mode, a, ZERO), i), Lane(mode, MinMaxResult(ABS, mode, a, ZERO), i);
    NegatedLane(mode, a, i, w, x);
    LaneIsWord(mode, a, i);
    AbsoluteOfWord(w, x, negated, r);
  }

  /** The absolute value works in every lane; the most negative lane wraps to itself. */
  lemma AbsIsLaneWise(mode: VecMode, a: seq<nat>, i: nat)
    requires IsWord4(a) && i < 4
    ensures IsWord4(ZERO)
    ensures var w := Width(8, LaneSize(mode));
            Lane(mode, MinMaxResult(ABS, mode, a, ZERO), i) == ToWord(w, Magnitude(Signed(w, Lane(mode, a, i))))
  {
    AbsLane(mode, a, i, Width(8, LaneSize(mode)), Lane(mode, a, i));
  }
}
