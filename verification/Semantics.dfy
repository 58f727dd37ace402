/**
  What each instruction does, in one step, in terms of its operands, the input and the stack;
  what a failure restores; and how a run comes to its end.
 */
module Semantics {
  import opened Words
  import opened Immediates
  import opened Instructions
  import opened Machine
  import opened MachineInvariants
  import opened Equivalences

  // ---- failing

  /** A failure drops the call frames above the topmost choice, and restores that. */
  lemma {:induction false} FailBacktracks(s: State, i: nat)
    requires i < |s.cs| && s.cs[i].Choice? && forall j :: i < j < |s.cs| ==> s.cs[j].Call?
    ensures Fail(s) == s.(dp := s.cs[i].dp, xp := s.cs[i].xp, ks := s.cs[i].ks, cs := s.cs[..i])
    decreases |s.cs|
  {
    var m := |s.cs| - 1;
    if i < m {
      FailBacktracks(s.(cs := s.cs[..m]), i);
      assert s.cs[..m][..i] == s.cs[..i];
    }
  }

  /** A failure without any choice on the stack is the failure of the match. */
  lemma {:induction false} FailGivesUp(s: State)
    requires forall j :: 0 <= j < |s.cs| ==> s.cs[j].Call?
    ensures Fail(s) == s.(cs := [], ks := [], r := Failure)
    decreases |s.cs|
  {
    if s.cs != [] {
      FailGivesUp(s.(cs := s.cs[..|s.cs| - 1]));
    }
  }

  // ---- the state after an instruction

  /** `op` is the next instruction, and ends at `next`; the data pointer is where runs keep it. */
  ghost predicate About(p: Program, input: Bytes, s: State, op: Op, next: u64) {
    s.r.Running? && s.dp <= |input| && At(p, s.xp, op, next)
  }

  /** The error return: the execution is broken and its captures are gone. */
  function Broken(s: State, err: Error): (o: Outcome) {
    Fault(s.(r := Status.Broken, ks := []), err)
  }

  /** Go to the address `off` away from `s.xp`; there may be no such address. */
  function Going(s: State, off: u64): (o: Outcome) {
    var to := s.xp + (if off >= HIGHBIT then off - TWO64 else off);
    if 0 <= to < TWO64 then Next(s.(xp := to)) else Panic(CodeOffsetRange)
  }

  lemma GoingIsJump(s: State, op: Op)
    ensures Going(s, op.imm0) == Machine.Jump(s, op)
    ensures Target(s, op) == match Going(s, op.imm0) case Next(t) => Some(t.xp) case _ => None
  {
    hide U2S, AddOffset;
    U2SValue(op.imm0);
    AddOffsetExact(s.xp, U2S(op.imm0));
  }

  // ---- matching

  /** The next `n` bytes are there, and all of them in `m`. */
  ghost predicate Members(input: Bytes, dp: u64, n: u64, m: set<byte>) {
    dp + n <= |input| && forall k :: dp <= k < dp + n ==> input[k] in m
  }

  /** The next bytes are those of `lit`. */
  ghost predicate Spells(input: Bytes, dp: u64, lit: Bytes) {
    dp + |lit| <= |input| && input[dp..dp + |lit|] == lit
  }

  /** What a probe that came to `hit`, or not, over `n` bytes does to a plain and to a testing instruction. */
  lemma ProbeOutcome(v: State, input: Bytes, op: Op, hit: bool, n: u64)
    requires hit ==> v.dp + n <= |input|
    ensures Plain(v, if hit then Hit(n) else Miss) == if hit then Next(v.(dp := v.dp + n)) else Next(Fail(v))
    ensures Test(v, if hit then Hit(n) else Miss, op) == if hit then Next(v.(dp := v.dp + n)) else Going(v, op.imm0)
  {
    hide Fail, Machine.Jump, ToU64, Going;
    GoingIsJump(v, op);
    if hit { Fitted(v.dp + n); }
  }

  /** `ANYB n`: go past the next `n` bytes. */
  lemma AnyLaw(p: Program, input: Bytes, s: State, op: Op, next: u64)
    requires About(p, input, s, op, next) && op.code.ANYB?
    ensures var v := s.(xp := next);
      Step(p, input, s) == if s.dp + op.imm0 <= |input| then Next(v.(dp := s.dp + op.imm0)) else Next(Fail(v))
  {
    hide DecodeOp, Step, Fail, Plain, Available;
    StepAt(p, input, s, op, next);
    AvailableExact(input, s.dp);
    ProbeOutcome(s.(xp := next), input, op, s.dp + op.imm0 <= |input|, op.imm0);
  }

  /** `SAMEB b, n`: go past the next `n` bytes, all of them `b`. */
  lemma SameLaw(p: Program, input: Bytes, s: State, op: Op, next: u64)
    requires About(p, input, s, op, next) && op.code.SAMEB?
    ensures var v := s.(xp := next);
      Step(p, input, s)
      == if Members(input, s.dp, op.imm1, {op.imm0 % 0x100}) then Next(v.(dp := s.dp + op.imm1)) else Next(Fail(v))
  {
    hide DecodeOp, Step, Fail, Plain, Machine.MatchN;
    StepAt(p, input, s, op, next);
    MatchNExact(input, s.dp, {op.imm0 % 0x100}, op.imm1);
    ProbeOutcome(s.(xp := next), input, op, Members(input, s.dp, op.imm1, {op.imm0 % 0x100}), op.imm1);
  }

  /** `LITB l`: go past the literal. */
  lemma LitLaw(p: Program, input: Bytes, s: State, op: Op, next: u64)
    requires About(p, input, s, op, next) && op.code.LITB?
    ensures var v := s.(xp := next);
      Step(p, input, s)
      == if op.imm0 >= |p.literals| then Broken(v, IndexRange)
         else if Spells(input, s.dp, p.literals[op.imm0]) then Next(v.(dp := s.dp + |p.literals[op.imm0]|))
         else Next(Fail(v))
  {
    hide DecodeOp, Step, Fail, Machine.MatchLit;
    StepAt(p, input, s, op, next);
    if op.imm0 < |p.literals| {
      var lit := p.literals[op.imm0];
      MatchLitExact(input, s.dp, lit);
      ProbeOutcome(s.(xp := next), input, op, Spells(input, s.dp, lit), |lit|);
    }
  }

  /** `MATCHB m, n`: go past the next `n` bytes, all of them in the byte set. */
  lemma MatchLaw(p: Program, input: Bytes, s: State, op: Op, next: u64)
    requires About(p, input, s, op, next) && op.code.MATCHB?
    ensures var v := s.(xp := next);
      Step(p, input, s)
      == if op.imm0 >= |p.byteSets| then Broken(v, IndexRange)
         else if Members(input, s.dp, op.imm1, p.byteSets[op.imm0]) then Next(v.(dp := s.dp + op.imm1)) else Next(Fail(v))
  {
    hide DecodeOp, Step, Fail, Machine.MatchN;
    StepAt(p, input, s, op, next);
    if op.imm0 < |p.byteSets| {
      MatchNExact(input, s.dp, p.byteSets[op.imm0], op.imm1);
      ProbeOutcome(s.(xp := next), input, op, Members(input, s.dp, op.imm1, p.byteSets[op.imm0]), op.imm1);
    }
  }

  /** `TANYB off, n`: go past the next `n` bytes, or else to `off`. */
  lemma TestAnyLaw(p: Program, input: Bytes, s: State, op: Op, next: u64)
    requires About(p, input, s, op, next) && op.code.TANYB?
    ensures var v := s.(xp := next);
      Step(p, input, s) == if s.dp + op.imm1 <= |input| then Next(v.(dp := s.dp + op.imm1)) else Going(v, op.imm0)
  {
    hide DecodeOp, Step, Test, Available, Going;
    StepAt(p, input, s, op, next);
    AvailableExact(input, s.dp);
    ProbeOutcome(s.(xp := next), input, op, s.dp + op.imm1 <= |input|, op.imm1);
  }

  /** `TSAMEB off, b, n`: go past the next `n` bytes, all of them `b`, or else to `off`. */
  lemma TestSameLaw(p: Program, input: Bytes, s: State, op: Op, next: u64)
    requires About(p, input, s, op, next) && op.code.TSAMEB?
    ensures var v := s.(xp := next);
      Step(p, input, s)
      == if Members(input, s.dp, op.imm2, {op.imm1 % 0x100}) then Next(v.(dp := s.dp + op.imm2)) else Going(v, op.imm0)
  {
    hide DecodeOp, Step, Test, Machine.MatchN, Going;
    StepAt(p, input, s, op, next);
    MatchNExact(input, s.dp, {op.imm1 % 0x100}, op.imm2);
    ProbeOutcome(s.(xp := next), input, op, Members(input, s.dp, op.imm2, {op.imm1 % 0x100}), op.imm2);
  }

  /** `TLITB off, l`: go past the literal, or else to `off`. */
  lemma TestLitLaw(p: Program, input: Bytes, s: State, op: Op, next: u64)
    requires About(p, input, s, op, next) && op.code.TLITB?
    ensures var v := s.(xp := next);
      Step(p, input, s)
      == if op.imm1 >= |p.literals| then Broken(v, IndexRange)
         else if Spells(input, s.dp, p.literals[op.imm1]) then Next(v.(dp := s.dp + |p.literals[op.imm1]|))
         else Going(v, op.imm0)
  {
    hide DecodeOp, Step, Machine.MatchLit, Going, Machine.Jump;
    StepAt(p, input, s, op, next);
    if op.imm1 < |p.literals| {
      var lit := p.literals[op.imm1];
      MatchLitExact(input, s.dp, lit);
      ProbeOutcome(s.(xp := next), input, op, Spells(input, s.dp, lit), |lit|);
    }
  }

  /** `TMATCHB off, m, n`: go past the next `n` bytes, all of them in the byte set, or else to `off`. */
  lemma TestMatchLaw(p: Program, input: Bytes, s: State, op: Op, next: u64)
    requires About(p, input, s, op, next) && op.code.TMATCHB?
    ensures var v := s.(xp := next);
      Step(p, input, s)
      == if op.imm1 >= |p.byteSets| then Broken(v, IndexRange)
         else if Members(input, s.dp, op.imm2, p.byteSets[op.imm1]) then Next(v.(dp := s.dp + op.imm2))
         else Going(v, op.imm0)
  {
    hide DecodeOp, Step, Machine.MatchN, Going, Machine.Jump;
    StepAt(p, input, s, op, next);
    if op.imm1 < |p.byteSets| {
      MatchNExact(input, s.dp, p.byteSets[op.imm1], op.imm2);
      ProbeOutcome(s.(xp := next), input, op, Members(input, s.dp, op.imm2, p.byteSets[op.imm1]), op.imm2);
    }
  }

  /** `SPANB m`: go to the first byte, from here on, that is not in the byte set, or to the end. */
  lemma SpanLaw(p: Program, input: Bytes, s: State, op: Op, next: u64) returns (e: u64)
    requires About(p, input, s, op, next) && op.code.SPANB?
    ensures op.imm0 >= |p.byteSets| ==> Step(p, input, s) == Broken(s.(xp := next), IndexRange)
    ensures op.imm0 < |p.byteSets| ==>
              && Step(p, input, s) == Next(s.(xp := next, dp := e))
              && s.dp <= e <= |input| && Members(input, s.dp, e - s.dp, p.byteSets[op.imm0])
              && (e < |input| ==> input[e] !in p.byteSets[op.imm0])
  {
    hide DecodeOp, Step;
    StepAt(p, input, s, op, next);
    e := 0;
    if op.imm0 < |p.byteSets| {
      e := SpanEnd(input, s.dp, p.byteSets[op.imm0]);
      SpanExact(input, s.dp, p.byteSets[op.imm0]);
    }
  }

  lemma {:induction false} SpanExact(input: Bytes, dp: u64, m: set<byte>)
    requires dp <= |input|
    ensures var e := SpanEnd(input, dp, m);
      (forall k :: dp <= k < e ==> input[k] in m) && (e < |input| ==> input[e] !in m)
    decreases |input| - dp
  {
    if dp < |input| && input[dp] in m {
      SpanExact(input, dp + 1, m);
    }
  }

  // ---- going and pushing

  /** `JMP off`. */
  lemma JumpLaw(p: Program, input: Bytes, s: State, op: Op, next: u64)
    requires About(p, input, s, op, next) && op.code.JMP?
    ensures Step(p, input, s) == Going(s.(xp := next), op.imm0)
  {
    hide DecodeOp, Step, Going, Machine.Jump;
    StepAt(p, input, s, op, next);
    GoingIsJump(s.(xp := next), op);
  }

  /** `CHOICE off`: remember where to go on, and with what, should the rest fail. */
  lemma ChoiceLaw(p: Program, input: Bytes, s: State, op: Op, next: u64)
    requires About(p, input, s, op, next) && op.code.CHOICE?
    ensures var v := s.(xp := next);
      Step(p, input, s)
      == match Going(v, op.imm0)
         case Next(t) => Next(v.(cs := s.cs + [Choice(s.dp, t.xp, s.ks)]))
         case o => o
  {
    hide DecodeOp, Step, Target;
    StepAt(p, input, s, op, next);
    GoingIsJump(s.(xp := next), op);
  }

  /** `CALL off`: remember the address after the call, and go. */
  lemma CallLaw(p: Program, input: Bytes, s: State, op: Op, next: u64)
    requires About(p, input, s, op, next) && op.code.CALL?
    ensures Step(p, input, s) == Going(s.(xp := next, cs := s.cs + [Call(next)]), op.imm0)
  {
    hide DecodeOp, Step, Target;
    StepAt(p, input, s, op, next);
    GoingIsJump(s.(xp := next), op);
  }

  // ---- popping

  /** Every instruction that pops a frame is an error on the empty stack. */
  lemma PopEmptyLaw(p: Program, input: Bytes, s: State, op: Op, next: u64)
    requires About(p, input, s, op, next) && s.cs == []
    requires op.code.COMMIT? || op.code.PCOMMIT? || op.code.BCOMMIT? || op.code.FAIL2X? || op.code.RET?
    ensures Step(p, input, s) == Broken(s.(xp := next), EmptyStack)
  {
    hide DecodeOp, Step;
    StepAt(p, input, s, op, next);
  }

  /** And on a call frame, which it drops. */
  lemma PopCallLaw(p: Program, input: Bytes, s: State, op: Op, next: u64, cs: seq<Frame>, fr: Frame)
    requires About(p, input, s, op, next) && s.cs == cs + [fr] && fr.Call?
    requires op.code.COMMIT? || op.code.PCOMMIT? || op.code.BCOMMIT? || op.code.FAIL2X? || op.code.RET?
    ensures Step(p, input, s)
         == Broken(s.(xp := next, cs := cs), if op.code.RET? then ChoiceFailFrame else CallRetFrame)
  {
    hide DecodeOp, Step;
    StepAt(p, input, s, op, next);
    assert s.cs[..|s.cs| - 1] == cs;
  }

  /** On a choice: `COMMIT` forgets it, keeping what was matched and recorded, and goes. */
  lemma CommitLaw(p: Program, input: Bytes, s: State, op: Op, next: u64, cs: seq<Frame>, fr: Frame)
    requires About(p, input, s, op, next) && s.cs == cs + [fr] && fr.Choice? && op.code.COMMIT?
    ensures Step(p, input, s) == Going(s.(xp := next, cs := cs), op.imm0)
  {
    hide DecodeOp, Step, Target;
    StepAt(p, input, s, op, next);
    assert s.cs[..|s.cs| - 1] == cs;
    GoingIsJump(s.(xp := next, cs := cs), op);
  }

  /** `PCOMMIT` replaces it by one made here, and falls through. */
  lemma PartialCommitLaw(p: Program, input: Bytes, s: State, op: Op, next: u64, cs: seq<Frame>, fr: Frame)
    requires About(p, input, s, op, next) && s.cs == cs + [fr] && fr.Choice? && op.code.PCOMMIT?
    ensures var v := s.(xp := next);
      Step(p, input, s)
      == match Going(v, op.imm0)
         case Next(t) => Next(v.(cs := cs + [Choice(s.dp, t.xp, s.ks)]))
         case o => o
  {
    hide DecodeOp, Step, Target;
    StepAt(p, input, s, op, next);
    assert s.cs[..|s.cs| - 1] == cs;
    GoingIsJump(s.(xp := next, cs := cs), op);
  }

  /** `BCOMMIT` forgets it, goes back to the data and captures it holds, and goes. */
  lemma BackCommitLaw(p: Program, input: Bytes, s: State, op: Op, next: u64, cs: seq<Frame>, fr: Frame)
    requires About(p, input, s, op, next) && s.cs == cs + [fr] && fr.Choice? && op.code.BCOMMIT?
    ensures Step(p, input, s) == Going(s.(xp := next, dp := fr.dp, ks := fr.ks, cs := cs), op.imm0)
  {
    hide DecodeOp, Step, Target;
    StepAt(p, input, s, op, next);
    assert s.cs[..|s.cs| - 1] == cs;
    GoingIsJump(s.(xp := next, cs := cs), op);
  }

  /** `FAIL2X` forgets it, and fails. */
  lemma FailTwiceLaw(p: Program, input: Bytes, s: State, op: Op, next: u64, cs: seq<Frame>, fr: Frame)
    requires About(p, input, s, op, next) && s.cs == cs + [fr] && fr.Choice? && op.code.FAIL2X?
    ensures Step(p, input, s) == Next(Fail(s.(xp := next, cs := cs)))
  {
    hide DecodeOp, Step, Fail;
    StepAt(p, input, s, op, next);
    assert s.cs[..|s.cs| - 1] == cs;
  }

  /** `RET` goes to the address a choice holds, keeping everything else. */
  lemma ReturnLaw(p: Program, input: Bytes, s: State, op: Op, next: u64, cs: seq<Frame>, fr: Frame)
    requires About(p, input, s, op, next) && s.cs == cs + [fr] && fr.Choice? && op.code.RET?
    ensures Step(p, input, s) == Next(s.(xp := fr.xp, cs := cs))
  {
    hide DecodeOp, Step;
    StepAt(p, input, s, op, next);
    assert s.cs[..|s.cs| - 1] == cs;
  }

  // ---- rewinding and recording

  /** `RWNDB n`: go back `n` bytes, if there are as many. */
  lemma RewindLaw(p: Program, input: Bytes, s: State, op: Op, next: u64)
    requires About(p, input, s, op, next) && op.code.RWNDB?
    ensures var v := s.(xp := next);
      Step(p, input, s) == if op.imm0 > s.dp then Broken(v, CountRange) else Next(v.(dp := s.dp - op.imm0))
  {
    hide DecodeOp, Step;
    StepAt(p, input, s, op, next);
  }

  /** `BCAP c` and `ECAP c`: record where capture `c` starts or ends. */
  lemma EdgeLaw(p: Program, input: Bytes, s: State, op: Op, next: u64)
    requires About(p, input, s, op, next) && (op.code.BCAP? || op.code.ECAP?)
    ensures var v := s.(xp := next);
      Step(p, input, s)
      == if op.imm0 >= p.captures then Broken(v, IndexRange)
         else Next(v.(ks := s.ks + [Assignment(s.dp, op.imm0, op.code == ECAP)]))
  {
    hide DecodeOp, Step;
    StepAt(p, input, s, op, next);
  }

  /** `FCAP c, n`: record the last `n` bytes as capture `c`. */
  lemma FullLaw(p: Program, input: Bytes, s: State, op: Op, next: u64)
    requires About(p, input, s, op, next) && op.code.FCAP?
    ensures var v := s.(xp := next);
      Step(p, input, s)
      == if op.imm0 >= p.captures then Broken(v, IndexRange)
         else if op.imm1 > s.dp then Broken(v, CountRange)
         else Next(v.(ks := s.ks + [Assignment(s.dp - op.imm1, op.imm0, false), Assignment(s.dp, op.imm0, true)]))
  {
    hide DecodeOp, Step;
    StepAt(p, input, s, op, next);
    if op.imm1 <= s.dp {
      var a, b := Assignment(s.dp - op.imm1, op.imm0, false), Assignment(s.dp, op.imm0, true);
      assert s.ks + [a] + [b] == s.ks + [a, b];
    }
  }

  // ---- stopping

  /** `FAIL`, `GIVEUP`, `END` and `NOP`. */
  lemma StopLaw(p: Program, input: Bytes, s: State, op: Op, next: u64)
    requires About(p, input, s, op, next)
    ensures var v, o := s.(xp := next), Step(p, input, s);
      && (op.code.FAIL? ==> o == Next(Fail(v)))
      && (op.code.GIVEUP? ==> o == Next(v.(r := Failure, ks := [])))
      && (op.code.END? ==> o == Next(v.(r := Success)))
      && (op.code.NOP? ==> o == Next(v))
  {
    hide DecodeOp, Step, Fail;
    StepAt(p, input, s, op, next);
  }

  /** The end of the code is success, bytes that do not decode an error, and a halted execution stays. */
  lemma OffLaw(p: Program, input: Bytes, s: State)
    ensures var d, o := DecodeOp(p.code, s.xp), Step(p, input, s);
      && (!s.r.Running? ==> o == Fault(s, ExecutionHalted))
      && (s.r.Running? && s.xp >= |p.code| ==> o == Next(s.(r := Success)))
      && (s.r.Running? && d.Malformed? ==> o == Broken(s, d.err))
  {
    hide DecodeOp, Execute;
  }
}
