/**
  What matching with the two sample programs returns, on every input.
 */
module SampleMatches {
  import opened Words
  import opened Machine
  import opened Captures
  import opened Matching
  import opened SampleCode
  import opened Samples

  /** A capture nothing was recorded for. */
  const NOTHING: Capture := Capture(false, Pair(0, 0), [])

  /** `.*ana$`: capture 0 is the whole input. */
  method MatchFirst(input: Bytes) returns (res: Result)
    ensures res.success <==> EndsInAna(input)
    ensures res.captures
         == [if EndsInAna(input) then Capture(true, Pair(0, |input|), [Pair(0, |input|)]) else NOTHING]
  {
    hide Run, Events, Reports;
    ghost var n, t := Sample1Language(input);
    UnsuccessfulReportsNothing(PROGRAM1, input, Start(), n, 0);
    var r := Match(PROGRAM1, input, n);
    res := r.value;
  }

  /** What capture 1 of the second program is after "an" `k` times: each of them, and alone the last. */
  function Ans(k: nat): (c: Capture)
    requires 2 * k + 1 < HIGHBIT
  {
    if k == 0 then NOTHING else Capture(true, Pair(2 * k - 1, 2 * k + 1), Pairs(k))
  }

  /** `^b(an)*a$`: capture 0 is the whole input, capture 1 each "an". */
  method MatchSecond(input: Bytes) returns (res: Result)
    ensures res.success <==> exists k: nat :: input == Banana(k)
    ensures !res.success ==> res.captures == [NOTHING, NOTHING]
    ensures forall k: nat :: input == Banana(k) ==>
              2 * k + 1 < HIGHBIT && res.captures == [Capture(true, Pair(0, |input|), [Pair(0, |input|)]), Ans(k)]
  {
    hide Run, Events, Reports, Banana;
    ghost var n, t := Sample2Language(input);
    UnsuccessfulReportsNothing(PROGRAM2, input, Start(), n, 0);
    UnsuccessfulReportsNothing(PROGRAM2, input, Start(), n, 1);
    var r := Match(PROGRAM2, input, n);
    res := r.value;
  }
}
