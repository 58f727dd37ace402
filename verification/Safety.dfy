/**
  Control-flow safety: a program whose code offsets all lead to instruction boundaries never
  leaves them, on any run over any input.
 */
module Safety {
  import opened Words
  import opened Immediates
  import opened Instructions
  import opened Machine
  import opened MachineInvariants

  /** `xp` is the address of an instruction of `ops`, or the end of the code. */
  ghost predicate Boundary(ops: seq<Instr>, xp: int) {
    exists k: nat :: k <= |ops| && Address(ops, k) == xp
  }

  /** Every code offset of `ops` leads from the end of its instruction to a boundary. */
  ghost predicate Closed(ops: seq<Instr>) {
    && |EncodeAll(ops)| < HIGHBIT
    && forall k :: 0 <= k < |ops| && HasOffset(ops[k].code) ==>
         Boundary(ops, Address(ops, k + 1) + U2S(ops[k].imm0))
  }

  /** The current point and every point saved on the stack are boundaries. */
  ghost predicate OnBoundaries(ops: seq<Instr>, s: State) {
    Boundary(ops, s.xp) && forall fr :: fr in s.cs ==> Boundary(ops, fr.xp)
  }

  predicate DecodeError(e: Error) {
    e.UnexpectedEOF? || e.UnknownOpcode? || e.BadImmediateLen? || e.MissingImmediate? || e.UnexpectedImmediate?
  }

  /** No panic, no undecodable instruction, and still on boundaries. */
  ghost predicate Safe(ops: seq<Instr>, o: Outcome) {
    && !(o.Panic? && o.why.CodeOffsetRange?)
    && (o.Next? ==> OnBoundaries(ops, o.s))
    && (o.Fault? ==> !DecodeError(o.err))
  }

  lemma BoundaryInRange(ops: seq<Instr>, xp: int)
    requires Boundary(ops, xp) && |EncodeAll(ops)| < HIGHBIT
    ensures 0 <= xp <= |EncodeAll(ops)|
  {
    var k: nat :| k <= |ops| && Address(ops, k) == xp;
    AddressInCode(ops, k);
  }

  lemma {:induction false} AddressInCode(ops: seq<Instr>, k: nat)
    requires k <= |ops|
    ensures Address(ops, k) <= |EncodeAll(ops)|
    decreases |ops| - k
  {
    hide EncodeOp;
    if k == |ops| {
      AddressOfEnd(ops);
    } else {
      var pre, post := SplitAt(ops, k);
    }
  }

  /** The target of a decoded instruction whose offset leads to a boundary. */
  lemma TargetSafe(ops: seq<Instr>, s: State, op: Op)
    requires |EncodeAll(ops)| < HIGHBIT && Boundary(ops, s.xp + U2S(op.imm0))
    ensures Target(s, op) == Some(s.xp + U2S(op.imm0))
  {
    hide EncodeAll, Boundary;
    BoundaryInRange(ops, s.xp + U2S(op.imm0));
    AddOffsetExact(s.xp, U2S(op.imm0));
  }

  lemma {:induction false} FailSafe(ops: seq<Instr>, s: State)
    requires OnBoundaries(ops, s)
    ensures OnBoundaries(ops, Fail(s))
    decreases |s.cs|
  {
    hide Boundary;
    if s.cs != [] {
      var fr := s.cs[|s.cs| - 1];
      assert fr in s.cs;
      if fr.Call? { FailSafe(ops, s.(cs := s.cs[..|s.cs| - 1])); }
    }
  }

  lemma PoppingSafe(ops: seq<Instr>, s: State, op: Op)
    requires OnBoundaries(ops, s) && |EncodeAll(ops)| < HIGHBIT
    requires !op.code.RET? && !op.code.FAIL2X? ==> Boundary(ops, s.xp + U2S(op.imm0))
    ensures Safe(ops, Popping(s, op))
  {
    hide Boundary, Fail, AddOffset, U2S, EncodeAll;
    if s.cs != [] {
      var fr, t := s.cs[|s.cs| - 1], s.(cs := s.cs[..|s.cs| - 1]);
      assert fr in s.cs;
      FailSafe(ops, t);
      if !op.code.RET? && !op.code.FAIL2X? {
        TargetSafe(ops, t, op);
      }
    }
  }

  lemma JumpSafe(ops: seq<Instr>, s: State, op: Op)
    requires OnBoundaries(ops, s) && |EncodeAll(ops)| < HIGHBIT && Boundary(ops, s.xp + U2S(op.imm0))
    ensures Safe(ops, Jump(s, op)) && Safe(ops, Push(s, op))
  {
    hide Boundary, AddOffset, U2S, EncodeAll;
    TargetSafe(ops, s, op);
  }

  lemma ExecuteSafe(p: Program, input: Bytes, ops: seq<Instr>, op: Op, s: State)
    requires OnBoundaries(ops, s) && |EncodeAll(ops)| < HIGHBIT
    requires HasOffset(op.code) ==> Boundary(ops, s.xp + U2S(op.imm0))
    ensures Safe(ops, Execute(p, input, op, s))
  {
    hide Boundary, AddOffset, U2S, EncodeAll, Fail, Push, Jump, Popping, Try;
    FailSafe(ops, s);
    if HasOffset(op.code) {
      JumpSafe(ops, s, op);
    }
    if op.code.COMMIT? || op.code.PCOMMIT? || op.code.BCOMMIT? || op.code.FAIL2X? || op.code.RET? {
      PoppingSafe(ops, s, op);
    }
  }

  /** From a boundary, one step decodes exactly one instruction of the program and ends on a boundary. */
  lemma StepSafe(p: Program, input: Bytes, ops: seq<Instr>, s: State)
    requires p.code == EncodeAll(ops) && Closed(ops) && OnBoundaries(ops, s) && s.r.Running?
    ensures Safe(ops, Step(p, input, s))
  {
    hide EncodeAll, EncodeOp, Execute, U2S, DecodeOp;
    var k: nat :| k <= |ops| && Address(ops, k) == s.xp;
    DecodesAtEveryAddress(ops, k);
    if k < |ops| {
      var op := Recovered(ops[k], Address(ops, k));
      OffsetReadsBack(ops[k], Address(ops, k));
      var s1 := s.(xp := s.xp + op.len);
      assert s1.xp == Address(ops, k + 1);
      assert Boundary(ops, s1.xp);
      ExecuteSafe(p, input, ops, op, s1);
    }
  }

  lemma OffsetReadsBack(op: Instr, xp: nat)
    ensures HasOffset(op.code) ==> Recovered(op, xp).imm0 == op.imm0
    ensures Recovered(op, xp).code == op.code && Recovered(op, xp).len == |EncodeOp(op)|
  {
    hide EncodeOp;
    if HasOffset(op.code) {
      RequiredReadsBack(Meta(op.code).imm0, op.imm0);
    }
  }

  /**
    On every run of a closed program, over every input, the machine stays on instruction
    boundaries, meets no undecodable instruction and never panics.
   */
  lemma {:induction false} RunSafe(p: Program, input: Bytes, ops: seq<Instr>, s: State, n: nat)
    requires p.code == EncodeAll(ops) && Closed(ops) && OnBoundaries(ops, s) && InBounds(p, input, s)
    ensures Safe(ops, Run(p, input, s, n)) && !Run(p, input, s, n).Panic?
    decreases n
  {
    hide EncodeAll, Step, Closed, OnBoundaries;
    if n > 0 && s.r.Running? {
      StepSafe(p, input, ops, s);
      StepInBounds(p, input, s);
      var o := Step(p, input, s);
      if o.Next? {
        RunSafe(p, input, ops, o.s, n - 1);
      }
    }
  }

  lemma StartSafe(p: Program, input: Bytes, ops: seq<Instr>, n: nat)
    requires p.code == EncodeAll(ops) && Closed(ops)
    ensures Safe(ops, Run(p, input, Start(), n)) && !Run(p, input, Start(), n).Panic?
  {
    assert Address(ops, 0) == 0;
    RunSafe(p, input, ops, Start(), n);
  }
}
