/**
  How a run comes to its end: the step that ends it, and exactly when that step is a success
  or a failure.
 */
module Endings {
  import opened Words
  import opened Immediates
  import opened Instructions
  import opened Machine
  import opened MachineInvariants
  import opened Equivalences
  import opened Semantics

  /** A run that has ended was brought to its end by one step, taken from a running state. */
  lemma {:induction false} LastStep(p: Program, input: Bytes, s: State, n: nat) returns (j: nat, u: State)
    requires s.r.Running? && (Run(p, input, s, n).Next? ==> !Run(p, input, s, n).s.r.Running?)
    ensures j < n && Run(p, input, s, j) == Next(u) && u.r.Running? && Step(p, input, u) == Run(p, input, s, n)
    decreases n
  {
    hide Step;
    var o := Step(p, input, s);
    if o.Next? && o.s.r.Running? {
      j, u := LastStep(p, input, o.s, n - 1);
      RunOnce(p, input, s, o.s, j);
      j := j + 1;
    } else {
      j, u := 0, s;
      if o.Next? { RunHalted(p, input, o.s, n - 1); }
    }
  }

  lemma RunOnce(p: Program, input: Bytes, s: State, t: State, j: nat)
    requires s.r.Running? && Step(p, input, s) == Next(t)
    ensures Run(p, input, s, j + 1) == Run(p, input, t, j)
  {
    hide Step;
  }

  lemma RunHalted(p: Program, input: Bytes, s: State, n: nat)
    requires !s.r.Running?
    ensures Run(p, input, s, n) == Next(s)
  {
  }

  // ---- success

  /** At the end of the code, or at an `END`. */
  ghost predicate AtEnd(p: Program, u: State) {
    u.xp >= |p.code| || (DecodeOp(p.code, u.xp).Decoded? && DecodeOp(p.code, u.xp).op.code.END?)
  }

  // ---- failure

  ghost predicate NoChoice(cs: seq<Frame>) {
    forall i :: 0 <= i < |cs| ==> cs[i].Call?
  }

  /** The instruction fails: `FAIL` itself, or a plain match of what is not there. */
  ghost predicate Misses(p: Program, input: Bytes, u: State, op: Op) {
    match op.code
    case FAIL => true
    case ANYB => u.dp + op.imm0 > |input|
    case SAMEB => !Members(input, u.dp, op.imm1, {op.imm0 % 0x100})
    case LITB => op.imm0 < |p.literals| && !Spells(input, u.dp, p.literals[op.imm0])
    case MATCHB => op.imm0 < |p.byteSets| && !Members(input, u.dp, op.imm1, p.byteSets[op.imm0])
    case _ => false
  }

  /** The next step gives the match up: of its own accord, or by failing with no choice left. */
  ghost predicate GivesUp(p: Program, input: Bytes, u: State) {
    var d := DecodeOp(p.code, u.xp);
    && d.Decoded?
    && (|| d.op.code.GIVEUP?
        || (Misses(p, input, u, d.op) && NoChoice(u.cs))
        || (d.op.code.FAIL2X? && u.cs != [] && u.cs[|u.cs| - 1].Choice? && NoChoice(u.cs[..|u.cs| - 1])))
  }

  lemma {:induction false} FailureIffNoChoice(s: State)
    requires s.r.Running?
    ensures !Fail(s).r.Success? && !Fail(s).r.Broken?
    ensures Fail(s).r.Failure? <==> NoChoice(s.cs)
    decreases |s.cs|
  {
    if s.cs != [] {
      var m := |s.cs| - 1;
      if s.cs[m].Call? {
        FailureIffNoChoice(s.(cs := s.cs[..m]));
        assert NoChoice(s.cs) <==> NoChoice(s.cs[..m]);
      }
    }
  }

  /** The status after a step that matches or fails. */
  lemma MatchingEnds(p: Program, input: Bytes, u: State, op: Op, next: u64)
    requires About(p, input, u, op, next)
    requires op.code.ANYB? || op.code.SAMEB? || op.code.LITB? || op.code.MATCHB? || op.code.FAIL?
    ensures var o := Step(p, input, u);
      o.Next? ==> !o.s.r.Success? && (o.s.r.Failure? <==> Misses(p, input, u, op) && NoChoice(u.cs))
  {
    hide DecodeOp, Step, Fail, NoChoice, Members, Spells;
    FailureIffNoChoice(u.(xp := next));
    match op.code {
      case ANYB => AnyLaw(p, input, u, op, next);
      case SAMEB => SameLaw(p, input, u, op, next);
      case LITB => LitLaw(p, input, u, op, next);
      case MATCHB => MatchLaw(p, input, u, op, next);
      case _ => StopLaw(p, input, u, op, next);
    }
  }

  lemma PoppingEnds(u: State, op: Op)
    requires u.r.Running?
    requires op.code.COMMIT? || op.code.PCOMMIT? || op.code.BCOMMIT? || op.code.FAIL2X? || op.code.RET?
    ensures var o := Popping(u, op);
      && (o.Next? ==> !o.s.r.Success?)
      && (o.Next? && o.s.r.Failure?
          <==> op.code.FAIL2X? && u.cs != [] && u.cs[|u.cs| - 1].Choice? && NoChoice(u.cs[..|u.cs| - 1]))
  {
    hide Fail, NoChoice, Target;
    if u.cs != [] {
      FailureIffNoChoice(u.(cs := u.cs[..|u.cs| - 1]));
    }
  }

  /** Everything else goes on, but for `GIVEUP` and `END`. */
  lemma OthersGoOn(p: Program, input: Bytes, u: State, op: Op)
    requires u.r.Running?
    requires !op.code.ANYB? && !op.code.SAMEB? && !op.code.LITB? && !op.code.MATCHB? && !op.code.FAIL?
    requires !op.code.COMMIT? && !op.code.PCOMMIT? && !op.code.BCOMMIT? && !op.code.FAIL2X? && !op.code.RET?
    ensures var o := Execute(p, input, op, u);
      o.Next? ==> (o.s.r.Success? <==> op.code.END?) && (o.s.r.Failure? <==> op.code.GIVEUP?)
  {
    hide Try, Target, ToU64, SpanEnd;
  }

  /** A step ends the match in success exactly at an end, and in failure exactly where it is given up. */
  lemma StepEnds(p: Program, input: Bytes, u: State)
    requires u.r.Running? && u.dp <= |input|
    ensures var o := Step(p, input, u);
      o.Next? ==> (o.s.r.Success? <==> AtEnd(p, u)) && (o.s.r.Failure? <==> GivesUp(p, input, u))
  {
    hide DecodeOp, Step, Execute, Misses, NoChoice, Popping;
    OffLaw(p, input, u);
    match DecodeOp(p.code, u.xp) {
      case Decoded(op) =>
        var next := u.xp + op.len;
        StepAt(p, input, u, op, next);
        if op.code.ANYB? || op.code.SAMEB? || op.code.LITB? || op.code.MATCHB? || op.code.FAIL? {
          MatchingEnds(p, input, u, op, next);
        } else if op.code.COMMIT? || op.code.PCOMMIT? || op.code.BCOMMIT? || op.code.FAIL2X? || op.code.RET? {
          NotMissed(p, input, u, op);
          ExecutePops(p, input, op, u.(xp := next));
          PoppingEnds(u.(xp := next), op);
        } else {
          NotMissed(p, input, u, op);
          OthersGoOn(p, input, u.(xp := next), op);
        }
      case _ =>
    }
  }

  lemma NotMissed(p: Program, input: Bytes, u: State, op: Op)
    requires !op.code.ANYB? && !op.code.SAMEB? && !op.code.LITB? && !op.code.MATCHB? && !op.code.FAIL?
    ensures !Misses(p, input, u, op)
  {
  }

  lemma ExecutePops(p: Program, input: Bytes, op: Op, u: State)
    requires op.code.COMMIT? || op.code.PCOMMIT? || op.code.BCOMMIT? || op.code.FAIL2X? || op.code.RET?
    ensures Execute(p, input, op, u) == Popping(u, op)
  {
    hide Popping;
  }

  /**
    A match that halts was halted by its last step: it has succeeded exactly if that step
    stood at an `END` or at the end of the code, and failed exactly if that step was a
    `GIVEUP` or a failure with no choice on the stack.
   */
  lemma RunEnds(p: Program, input: Bytes, n: nat, t: State) returns (j: nat, u: State)
    requires Run(p, input, Start(), n) == Next(t) && !t.r.Running?
    ensures j < n && Run(p, input, Start(), j) == Next(u) && u.r.Running? && Step(p, input, u) == Next(t)
    ensures t.r.Success? <==> AtEnd(p, u)
    ensures t.r.Failure? <==> GivesUp(p, input, u)
  {
    hide Step, Run, AtEnd, GivesUp;
    j, u := LastStep(p, input, Start(), n);
    EveryRunInBounds(p, input, j);
    StepEnds(p, input, u);
  }
}
