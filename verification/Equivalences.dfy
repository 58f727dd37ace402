/**
  Instruction sequences that come to the same thing, over any stack and any input: greedy
  loops and test-and-jump instructions.
 */
module Equivalences {
  import opened Words
  import opened Immediates
  import opened Instructions
  import opened Machine
  import opened MachineInvariants

  /** The instruction `op` stands at `xp` and ends at `next`. */
  ghost predicate At(p: Program, xp: u64, op: Op, next: u64) {
    DecodeOp(p.code, xp) == Decoded(op) && xp + op.len == next
  }

  /** The instruction `op` stands at `xp`, ends at `next`, and its offset leads to `target`. */
  ghost predicate Branch(p: Program, xp: u64, op: Op, next: u64, target: u64) {
    At(p, xp, op, next) && AddOffset(next, U2S(op.imm0)) == Some(target)
  }

  /** One step at an instruction whose place is known. */
  lemma StepAt(p: Program, input: Bytes, s: State, op: Op, next: u64)
    requires s.r.Running? && At(p, s.xp, op, next)
    ensures Step(p, input, s) == Execute(p, input, op, s.(xp := next))
    ensures Run(p, input, s, 1) == Execute(p, input, op, s.(xp := next))
  {
    hide Execute, DecodeOp;
    var o := Step(p, input, s);
    assert Run(p, input, s, 1) == match o case Next(t) => Run(p, input, t, 0) case _ => o;
  }

  /** One more step at the end of a run. */
  lemma StepOn(p: Program, input: Bytes, s: State, n: nat, t: State, op: Op, next: u64)
    requires Run(p, input, s, n) == Next(t)
    requires t.r.Running? && At(p, t.xp, op, next)
    ensures Run(p, input, s, n + 1) == Execute(p, input, op, t.(xp := next))
  {
    hide Execute, DecodeOp, Step;
    RunOn(p, input, s, t, n, 1);
    StepAt(p, input, t, op, next);
  }

  lemma FailRestores(s: State, cs: seq<Frame>, fr: Frame)
    requires s.cs == cs + [fr] && fr.Choice?
    ensures Fail(s) == s.(dp := fr.dp, xp := fr.xp, ks := fr.ks, cs := cs)
  {
    assert s.cs[..|s.cs| - 1] == cs;
  }

  // ---- greedy loops

  /** `CHOICE l2; l1: MATCHB m; PCOMMIT l2; JMP l1; l2:` stands at `a`. */
  datatype Loop = Loop(a: u64, l1: u64, b: u64, c: u64, l2: u64, choice: Op, body: Op, commit: Op, jump: Op)

  ghost predicate GreedyLoop(p: Program, l: Loop) {
    && Branch(p, l.a, l.choice, l.l1, l.l2) && l.choice.code.CHOICE?
    && At(p, l.l1, l.body, l.b) && l.body.code.MATCHB? && l.body.imm1 == 1
    && Branch(p, l.b, l.commit, l.c, l.l2) && l.commit.code.PCOMMIT?
    && Branch(p, l.c, l.jump, l.l2, l.l1) && l.jump.code.JMP?
  }

  /** The state inside the loop, about to try the body at `dp`. */
  function InLoop(s: State, l: Loop, dp: u64): (t: State) {
    s.(dp := dp, xp := l.l1, cs := s.cs + [Choice(dp, l.l2, s.ks)])
  }

  lemma NoWrap(x: nat)
    ensures x < TWO64 ==> ToU64(x) == x
  {
  }

  lemma MatchOneByte(p: Program, input: Bytes, s: State, op: Op)
    requires op.code.MATCHB? && op.imm0 < |p.byteSets| && op.imm1 == 1 && s.dp <= |input|
    ensures Execute(p, input, op, s)
         == if s.dp < |input| && input[s.dp] in p.byteSets[op.imm0] then Next(s.(dp := s.dp + 1)) else Next(Fail(s))
  {
    hide MatchN, Fail, ToU64;
    MatchNExact(input, s.dp, p.byteSets[op.imm0], 1);
    NoWrap(s.dp + 1);
    assert s.dp < |input| ==> ((forall k :: s.dp <= k < s.dp + 1 ==> input[k] in p.byteSets[op.imm0])
                          <==> input[s.dp] in p.byteSets[op.imm0]);
  }

  /** One turn of the loop when the body matches. */
  lemma LoopTurn(p: Program, input: Bytes, s: State, l: Loop, dp: u64)
    requires GreedyLoop(p, l) && s.r.Running? && l.body.imm0 < |p.byteSets|
    requires dp < |input| && input[dp] in p.byteSets[l.body.imm0]
    ensures Run(p, input, InLoop(s, l, dp), 3) == Next(InLoop(s, l, dp + 1))
  {
    hide DecodeOp, U2S, AddOffset, Step, Run;
    var s0 := InLoop(s, l, dp);
    MatchOneByte(p, input, s0.(xp := l.b), l.body);
    StepAt(p, input, s0, l.body, l.b);
    var s1 := s0.(xp := l.b, dp := dp + 1);
    StepOn(p, input, s0, 1, s1, l.commit, l.c);
    assert s1.cs[..|s1.cs| - 1] == s.cs;
    var s2 := InLoop(s, l, dp + 1).(xp := l.c);
    assert Execute(p, input, l.commit, s1.(xp := l.c)) == Next(s2);
    StepOn(p, input, s0, 2, s2, l.jump, l.l2);
  }

  /** From inside the loop the machine gets out where the span ends, in finitely many steps. */
  lemma {:induction false} LoopRuns(p: Program, input: Bytes, s: State, l: Loop, dp: u64) returns (n: nat)
    requires GreedyLoop(p, l) && s.r.Running? && l.body.imm0 < |p.byteSets| && dp <= |input|
    ensures Run(p, input, InLoop(s, l, dp), n)
         == Next(s.(dp := SpanEnd(input, dp, p.byteSets[l.body.imm0]), xp := l.l2))
    decreases |input| - dp
  {
    hide DecodeOp, U2S, AddOffset, Step, Run;
    var s0 := InLoop(s, l, dp);
    if dp < |input| && input[dp] in p.byteSets[l.body.imm0] {
      LoopTurn(p, input, s, l, dp);
      var k := LoopRuns(p, input, s, l, dp + 1);
      RunOn(p, input, s0, InLoop(s, l, dp + 1), 3, k);
      n := 3 + k;
    } else {
      MatchOneByte(p, input, s0.(xp := l.b), l.body);
      StepAt(p, input, s0, l.body, l.b);
      FailRestores(s0.(xp := l.b), s.cs, Choice(dp, l.l2, s.ks));
      n := 1;
    }
  }

  /**
    A greedy loop over a one-byte match ends, for every input and over every stack, in the
    very state that the single instruction `SPANB` ends in, but for the place in the code;
    the `SPANB` may stand anywhere, in any program with the same byte sets.  A loop over a
    byte set that does not exist is the same error.
   */
  lemma GreedyLoopIsSpan(p: Program, q: Program, input: Bytes, s: State, l: Loop, at: u64, span: Op, end: u64)
    returns (n: nat)
    requires GreedyLoop(p, l) && s.r.Running? && s.dp <= |input| && s.xp == l.a
    requires At(q, at, span, end) && span.code.SPANB? && span.imm0 == l.body.imm0 && q.byteSets == p.byteSets
    ensures var r, o := Run(p, input, s, n), Step(q, input, s.(xp := at));
      if l.body.imm0 < |p.byteSets|
      then r.Next? && r.s.xp == l.l2 && o == Next(r.s.(xp := end))
      else r.Fault? && o.Fault? && r.err == o.err
  {
    hide DecodeOp, U2S, AddOffset, Step, Run;
    StepAt(p, input, s, l.choice, l.l1);
    StepAt(q, input, s.(xp := at), span, end);
    if l.body.imm0 < |p.byteSets| {
      var k := LoopRuns(p, input, s, l, s.dp);
      RunOn(p, input, s, InLoop(s, l, s.dp), 1, k);
      n := 1 + k;
    } else {
      StepOn(p, input, s, 1, InLoop(s, l, s.dp), l.body, l.b);
      n := 2;
    }
  }

  // ---- test-and-jump

  /** `CHOICE miss; <plain match>; COMMIT hit` stands at `a`. */
  datatype Guarded = Guarded(a: u64, b: u64, c: u64, d: u64, miss: u64, hit: u64, choice: Op, plain: Op, commit: Op)

  ghost predicate GuardedMatch(p: Program, g: Guarded) {
    && Branch(p, g.a, g.choice, g.b, g.miss) && g.choice.code.CHOICE?
    && At(p, g.b, g.plain, g.c)
    && Branch(p, g.c, g.commit, g.d, g.hit) && g.commit.code.COMMIT?
  }

  /** `test` tests for what `plain` matches: its operands are those of `plain`, after the offset. */
  predicate TestsFor(test: Op, plain: Op) {
    match test.code
    case TANYB => plain.code.ANYB? && test.imm1 == plain.imm0
    case TSAMEB => plain.code.SAMEB? && test.imm1 == plain.imm0 && test.imm2 == plain.imm1
    case TLITB => plain.code.LITB? && test.imm1 == plain.imm0
    case TMATCHB => plain.code.MATCHB? && test.imm1 == plain.imm0 && test.imm2 == plain.imm1
    case _ => false
  }

  /**
    Each test-and-jump instruction does what its plain match does between a `CHOICE` and a
    `COMMIT`: the same next state when it returns, and the same error when it does not.
   */
  lemma TestIsGuardedMatch(p: Program, input: Bytes, s: State, g: Guarded, at: u64, test: Op) returns (n: nat)
    requires GuardedMatch(p, g) && s.r.Running? && s.dp <= |input| && s.xp == g.a
    requires Branch(p, at, test, g.hit, g.miss) && TestsFor(test, g.plain)
    ensures var o, q := Step(p, input, s.(xp := at)), Run(p, input, s, n);
      if o.Next? then q == o else o.Fault? && q.Fault? && q.err == o.err
  {
    hide DecodeOp, U2S, AddOffset, Step, Run, Try;
    StepAt(p, input, s.(xp := at), test, g.hit);
    var how := MatchingOf(test).value;
    var probe := Try(p, input, s.dp, how);
    TryInBounds(p, input, s.dp, how);
    StepAt(p, input, s, g.choice, g.b);
    var fr := Choice(s.dp, g.miss, s.ks);
    var s1 := s.(xp := g.b, cs := s.cs + [fr]);
    StepOn(p, input, s, 1, s1, g.plain, g.c);
    n := 2;
    match probe {
      case Hit(k) =>
        var s2 := s1.(xp := g.c, dp := ToU64(s.dp + k));
        StepOn(p, input, s, 2, s2, g.commit, g.d);
        assert s2.cs[..|s2.cs| - 1] == s.cs;
        n := 3;
      case Miss =>
        FailRestores(s1.(xp := g.c), s.cs, fr);
      case BadIndex =>
    }
  }
}
