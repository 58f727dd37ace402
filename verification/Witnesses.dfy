/**
  Small programs, run to their end: two on which the machine does not do what a reader of its
  description would expect, and one each for backtracking out of a call, giving up, counting,
  capturing and looking ahead.
 */
module Witnesses {
  import opened Words
  import opened Immediates
  import opened Instructions
  import opened Machine
  import opened Equivalences
  import opened Semantics
  import opened Recording
  import opened Lookahead
  import opened Captures
  import opened ByteCode
  import opened SampleCode
  import opened Samples

  // ---- captures and rewinding

  /** `ANYB; BCAP 0; RWNDB 1; ECAP 0`. */
  const REWINDING_CODE: Bytes := [0x40, 0xac, 0x40, 0x00, 0xa8, 0x40, 0x01, 0xae, 0x40, 0x00]
  const REWINDING: Program := Program(REWINDING_CODE, [], [], 1)

  lemma DecodesRewinding()
    ensures DecodeOp(REWINDING_CODE, 0) == Decoded0(0, ANYB, 1)
    ensures DecodeOp(REWINDING_CODE, 1) == Decoded1(1, BCAP, 0, 3)
    ensures DecodeOp(REWINDING_CODE, 4) == Decoded1(4, RWNDB, 1, 3)
    ensures DecodeOp(REWINDING_CODE, 7) == Decoded1(7, ECAP, 0, 3)
  {
    hide DecodeOp, DecodeImm;
    OneByte0(REWINDING_CODE, 0, ANYB);
    TwoByte1(REWINDING_CODE, 1, BCAP);
    TwoByte1(REWINDING_CODE, 4, RWNDB);
    TwoByte1(REWINDING_CODE, 7, ECAP);
  }

  lemma RewindStep(p: Program, input: Bytes, s: State)
    requires s.r.Running? && s.xp < 0x100 && 1 <= s.dp && DecodeOp(p.code, s.xp) == Decoded1(s.xp, RWNDB, 1, 3)
    ensures Run(p, input, s, 1) == Next(s.(xp := s.xp + 3, dp := s.dp - 1))
  {
    hide DecodeOp, Step, Run;
    StepAt(p, input, s, Op(s.xp, RWNDB, 1, 0, 0, 3), s.xp + 3);
  }

  lemma CodeEnds(p: Program, input: Bytes, s: State)
    requires s.r.Running? && s.xp == |p.code|
    ensures Run(p, input, s, 1) == Next(s.(r := Success))
  {
    RunFrom(p, input, s, s.(r := Success), 0);
  }

  /** With a rewind between the two, a capture can end before it starts. */
  lemma RewindBreaksPairs(b: byte) returns (n: nat, t: State)
    ensures Run(REWINDING, [b], Start(), n) == Next(t) && t.r.Success? && Events(t.ks, 0) == [Pair(1, 0)]
  {
    hide DecodeOp, Decoded0, Decoded1, Step, Run, Fail;
    DecodesRewinding();
    var p, input := REWINDING, [b];
    AnyStep(p, input, Start());
    var s1 := State(1, 1, [], [], Running);
    CaptureStep(p, input, s1, false);
    var started := Assignment(1, 0, false);
    assert [] + [started] == [started];
    var s2 := State(1, 4, [started], [], Running);
    Then(p, input, Start(), 1, s1, 1, Next(s2));
    RewindStep(p, input, s2);
    var s3 := s2.(xp := 7, dp := 0);
    Then(p, input, Start(), 2, s2, 1, Next(s3));
    CaptureStep(p, input, s3, true);
    var s4 := s3.(xp := 10, ks := [started] + [Assignment(0, 0, true)]);
    Then(p, input, Start(), 3, s3, 1, Next(s4));
    t := s4.(r := Success);
    CodeEnds(p, input, s4);
    Then(p, input, Start(), 4, s4, 1, Next(t));
    n := 5;
    BackwardPair(started, Assignment(0, 0, true));
  }

  lemma BackwardPair(a: Assignment, e: Assignment)
    requires a.index == 0 == e.index && !a.isEnd && e.isEnd
    ensures Events([a] + [e], 0) == [Pair(a.dp, e.dp)]
  {
    hide Events, OpenStart;
    NothingRecorded();
    assert [] + [a] == [a];
    RecordOne([], a, 0);
    RecordOne([a], e, 0);
  }

  // ---- calling and returning

  /** `CALL f; f: RET`. */
  const CALLING_CODE: Bytes := [0x94, 0x40, 0x00, 0x96, 0x00]
  const CALLING: Program := Program(CALLING_CODE, [], [], 0)

  lemma DecodesCalling()
    ensures DecodeOp(CALLING_CODE, 0) == Decoded1(0, CALL, 0, 3)
    ensures DecodeOp(CALLING_CODE, 3) == Decoded0(3, RET, 2)
  {
    hide DecodeOp, DecodeImm;
    TwoByte1(CALLING_CODE, 0, CALL);
    TwoByte0(CALLING_CODE, 3, RET);
  }

  /** A call to a `RET` is an error, on every input. */
  lemma ReturningFaults(input: Bytes) returns (n: nat)
    ensures var o := Run(CALLING, input, Start(), n); o.Fault? && o.err.ChoiceFailFrame?
  {
    hide DecodeOp, U2S, AddOffset, Step, Run;
    DecodesCalling();
    var s := Start();
    OffsetTo(3, 0, 0);
    StepAt(CALLING, input, s, Op(0, CALL, 0, 0, 0, 3), 3);
    var s1 := s.(xp := 3, cs := s.cs + [Call(3)]);
    StepOn(CALLING, input, s, 1, s1, Op(3, RET, 0, 0, 0, 2), 5);
    n := 2;
  }

  // ---- peeking

  /** `CHOICE alt; ANYB; BCOMMIT after; alt: FAIL; after:`. */
  const PEEKING_CODE: Bytes := [0x14, 0x04, 0x40, 0xa2, 0x40, 0x01, 0x30]
  const PEEKING: Program := Program(PEEKING_CODE, [], [], 0)

  lemma DecodesPeeking()
    ensures DecodeOp(PEEKING_CODE, 0) == Decoded1(0, CHOICE, 4, 2)
    ensures DecodeOp(PEEKING_CODE, 2) == Decoded0(2, ANYB, 1)
    ensures DecodeOp(PEEKING_CODE, 3) == Decoded1(3, BCOMMIT, 1, 3)
    ensures DecodeOp(PEEKING_CODE, 6) == Decoded0(6, FAIL, 1)
  {
    hide DecodeOp, DecodeImm;
    OneByte1(PEEKING_CODE, 0, CHOICE);
    OneByte0(PEEKING_CODE, 2, ANYB);
    TwoByte1(PEEKING_CODE, 3, BCOMMIT);
    OneByte0(PEEKING_CODE, 6, FAIL);
  }

  /** A positive lookahead for one byte fails on the empty input, and on any other consumes nothing. */
  lemma PeekConsumesNothing(input: Bytes) returns (n: nat, t: State)
    ensures Run(PEEKING, input, Start(), n) == Next(t)
    ensures if input == [] then t.r.Failure? else t == Start().(xp := 7)
  {
    hide DecodeOp, U2S, AddOffset, Step, Run, Finishes, Matched;
    DecodesPeeking();
    OffsetTo(2, 4, 4);
    OffsetTo(6, 1, 1);
    AnyBody(PEEKING, input, Start(), 2, 6);
    n, t := PositiveLookahead(PEEKING, input, Start(), Op(0, CHOICE, 4, 0, 0, 2), 2, 6,
                              Op(3, BCOMMIT, 1, 0, 0, 3), 3, 6, 7, Op(6, FAIL, 0, 0, 0, 1), 7, 1);
  }

  // ---- backtracking out of a call

  /** `CHOICE l; CALL f; f: FAIL; l: END`. */
  const BACKTRACKING_CODE: Bytes := [0x14, 0x04, 0x94, 0x40, 0x00, 0x30, 0xfe, 0x00]
  const BACKTRACKING: Program := Program(BACKTRACKING_CODE, [], [], 0)

  lemma DecodesBacktracking()
    ensures DecodeOp(BACKTRACKING_CODE, 0) == Decoded1(0, CHOICE, 4, 2)
    ensures DecodeOp(BACKTRACKING_CODE, 2) == Decoded1(2, CALL, 0, 3)
    ensures DecodeOp(BACKTRACKING_CODE, 5) == Decoded0(5, FAIL, 1)
    ensures DecodeOp(BACKTRACKING_CODE, 6) == Decoded0(6, END, 2)
  {
    hide DecodeOp, DecodeImm;
    OneByte1(BACKTRACKING_CODE, 0, CHOICE);
    TwoByte1(BACKTRACKING_CODE, 2, CALL);
    OneByte0(BACKTRACKING_CODE, 5, FAIL);
    TwoByte0(BACKTRACKING_CODE, 6, END);
  }

  /** A failure in a called rule takes the caller's alternative: this succeeds on every input. */
  lemma CalleeBacktracks(input: Bytes) returns (n: nat, t: State)
    ensures Run(BACKTRACKING, input, Start(), n) == Next(t) && t == State(0, 8, [], [], Success)
  {
    hide DecodeOp, Step, Run, Fail;
    DecodesBacktracking();
    var p, s := BACKTRACKING, Start();
    ChoiceLaw(p, input, s, Op(0, CHOICE, 4, 0, 0, 2), 2);
    var s1 := State(0, 2, [], [] + [Choice(0, 6, [])], Running);
    RunFrom(p, input, s, s1, 0);
    CallLaw(p, input, s1, Op(2, CALL, 0, 0, 0, 3), 5);
    var s2 := s1.(xp := 5, cs := s1.cs + [Call(5)]);
    RunFrom(p, input, s1, s2, 0);
    Then(p, input, s, 1, s1, 1, Next(s2));
    StopLaw(p, input, s2, Op(5, FAIL, 0, 0, 0, 1), 6);
    FailBacktracks(s2.(xp := 6), 0);
    var s3 := State(0, 6, [], [], Running);
    assert s2.cs[..0] == [];
    RunFrom(p, input, s2, s3, 0);
    Then(p, input, s, 2, s2, 1, Next(s3));
    EndStep(p, input, s3);
    t := s3.(xp := 8, r := Success);
    Then(p, input, s, 3, s3, 1, Next(t));
    n := 4;
  }

  // ---- giving up

  /** `GIVEUP`. */
  const GIVING_UP_CODE: Bytes := [0xfc, 0x00]
  const GIVING_UP: Program := Program(GIVING_UP_CODE, [], [], 0)

  /** Fails on every input, over any stack and whatever has been recorded. */
  lemma GivesUpAnywhere(input: Bytes, s: State)
    requires s.r.Running? && s.xp == 0 && s.dp <= |input|
    ensures Run(GIVING_UP, input, s, 1) == Next(s.(xp := 2, r := Failure, ks := []))
  {
    hide DecodeOp, Step, Run;
    TwoByte0(GIVING_UP_CODE, 0, GIVEUP);
    StopLaw(GIVING_UP, input, s, Op(0, GIVEUP, 0, 0, 0, 2), 2);
    RunFrom(GIVING_UP, input, s, s.(xp := 2, r := Failure, ks := []), 0);
    RunHalts(GIVING_UP, input, s.(xp := 2, r := Failure, ks := []));
  }

  lemma RunHalts(p: Program, input: Bytes, s: State)
    ensures Run(p, input, s, 0) == Next(s)
  {
  }

  // ---- counting

  /** `ANYB 3`. */
  const COUNTING_CODE: Bytes := [0x44, 0x03]
  const COUNTING: Program := Program(COUNTING_CODE, [], [], 0)

  lemma DecodesCounting()
    ensures DecodeOp(COUNTING_CODE, 0) == Decoded(Op(0, ANYB, 3, 0, 0, 2))
  {
    hide DecodeOp;
    AnyBytes(3);
  }

  /** Goes past exactly three bytes, and fails where there are fewer. */
  lemma ThreeAreThree(input: Bytes) returns (n: nat, t: State)
    ensures Run(COUNTING, input, Start(), n) == Next(t)
    ensures if |input| >= 3 then t.r.Success? && t.dp == 3 else t.r.Failure?
  {
    hide DecodeOp, Step, Run, Fail;
    DecodesCounting();
    var p, s := COUNTING, Start();
    AnyLaw(p, input, s, Op(0, ANYB, 3, 0, 0, 2), 2);
    FailGivesUp(s.(xp := 2));
    t := Step(p, input, s).s;
    RunFrom(p, input, s, t, 0);
    n := 1;
    if |input| >= 3 {
      CodeEnds(p, input, t);
      Then(p, input, s, 1, t, 1, Next(t.(r := Success)));
      n, t := 2, t.(r := Success);
    }
  }

  // ---- capturing

  /** `BCAP 1; ANYB; ECAP 1`. */
  const CAPTURING_CODE: Bytes := [0xac, 0x40, 0x01, 0x40, 0xae, 0x40, 0x01]
  const CAPTURING: Program := Program(CAPTURING_CODE, [], [], 2)

  lemma DecodesCapturing()
    ensures DecodeOp(CAPTURING_CODE, 0) == Decoded1(0, BCAP, 1, 3)
    ensures DecodeOp(CAPTURING_CODE, 3) == Decoded0(3, ANYB, 1)
    ensures DecodeOp(CAPTURING_CODE, 4) == Decoded1(4, ECAP, 1, 3)
  {
    hide DecodeOp, DecodeImm;
    TwoByte1(CAPTURING_CODE, 0, BCAP);
    OneByte0(CAPTURING_CODE, 3, ANYB);
    TwoByte1(CAPTURING_CODE, 4, ECAP);
  }

  /** On any input of a byte or more, capture 1 is the first byte and capture 0 is nothing. */
  lemma CapturesItsOwn(input: Bytes) returns (n: nat, t: State)
    requires input != []
    ensures Run(CAPTURING, input, Start(), n) == Next(t) && t.r.Success?
    ensures Events(t.ks, 1) == [Pair(0, 1)] && Events(t.ks, 0) == []
  {
    hide DecodeOp, Step, Run, Fail, Events;
    DecodesCapturing();
    var p, s := CAPTURING, Start();
    var v := s.(xp := 3, ks := s.ks + [Assignment(0, 1, false)]);
    AnyStep(p, input, v);
    StepAt(p, input, v, Op(3, ANYB, 1, 0, 0, 1), 4);
    assert Stays(p, input, Step(p, input, v).s, 0, 0);
    var u;
    u, t := CapturesOnce(p, input, s, Op(0, BCAP, 1, 0, 0, 3), 3, Op(4, ECAP, 1, 0, 0, 3), 4, 7, 1);
    CapturedFirst(p, input, s, v);
    RunOn(p, input, s, v, 1, 1);
    NothingRecorded();
    CodeEnds(p, input, t);
    Then(p, input, s, 3, t, 1, Next(t.(r := Success)));
    n, t := 4, t.(r := Success);
  }

  lemma CapturedFirst(p: Program, input: Bytes, s: State, v: State)
    requires p == CAPTURING && s == Start() && v == s.(xp := 3, ks := s.ks + [Assignment(0, 1, false)])
    requires DecodeOp(p.code, 0) == Decoded1(0, BCAP, 1, 3)
    ensures Run(p, input, s, 1) == Next(v)
  {
    hide DecodeOp, Step, Run;
    EdgeLaw(p, input, s, Op(0, BCAP, 1, 0, 0, 3), 3);
    RunFrom(p, input, s, v, 0);
    RunHalts(p, input, v);
  }
}
