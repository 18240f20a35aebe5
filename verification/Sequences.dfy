/** Conservation along a run: what goes in and what comes out, cycle by cycle. */
module Sequences {

  /** Two conserving steps in a row conserve. */
  lemma Regroup<T>(before: seq<T>, in1: seq<T>, in2: seq<T>, out1: seq<T>, between: seq<T>, out2: seq<T>, after: seq<T>)
    requires before + in1 == out1 + between
    requires between + in2 == out2 + after
    ensures before + (in1 + in2) == (out1 + out2) + after
  {
    calc {
      before + (in1 + in2);
      (before + in1) + in2;
      (out1 + between) + in2;
      out1 + (between + in2);
      out1 + (out2 + after);
      (out1 + out2) + after;
    }
  }
}
