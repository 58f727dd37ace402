/**
  Programs without backward offsets halt on every input.  The measure of a state adds up
  3^(bytes of code left) for the current point and for every frame that can still be resumed.
 */
module Termination {
  import opened Words
  import opened Immediates
  import opened Instructions
  import opened Machine
  import opened MachineInvariants

  /** No instruction that decodes anywhere in the code has a negative code offset. */
  ghost predicate ForwardOnly(p: Program) {
    forall xp: nat :: Forward(DecodeOp(p.code, xp))
  }

  ghost predicate Forward(d: Decoded) {
    d.Decoded? && HasOffset(d.op.code) ==> U2S(d.op.imm0) >= 0
  }

  function Pow3(k: nat): (r: nat)
    ensures r >= 1
  {
    if k == 0 then 1 else 3 * Pow3(k - 1)
  }

  lemma {:induction false} Pow3Monotone(a: nat, b: nat)
    requires a <= b
    ensures Pow3(a) <= Pow3(b)
    decreases b
  {
    if a < b { Pow3Monotone(a, b - 1); }
  }

  /** The weight of a point in code of `n` bytes. */
  function Weight(n: nat, xp: nat): (r: nat)
    ensures r >= 1
  {
    Pow3(if xp < n then n - xp else 0)
  }

  function FramesWeight(n: nat, cs: seq<Frame>): (r: nat) {
    if cs == [] then 0
    else FramesWeight(n, cs[..|cs| - 1]) + Weight(n, cs[|cs| - 1].xp)
  }

  function Measure(n: nat, s: State): (r: nat) {
    Weight(n, s.xp) + FramesWeight(n, s.cs)
  }

  lemma WeightFalls(n: nat, a: nat, b: nat)
    requires a <= b
    ensures Weight(n, b) <= Weight(n, a)
    ensures a < b && a < n ==> 3 * Weight(n, b) <= Weight(n, a)
  {
    var ka, kb := if a < n then n - a else 0, if b < n then n - b else 0;
    Pow3Monotone(kb, ka);
    if a < b && a < n {
      Pow3Monotone(kb, ka - 1);
    }
  }

  lemma PushWeight(n: nat, cs: seq<Frame>, fr: Frame)
    ensures FramesWeight(n, cs + [fr]) == FramesWeight(n, cs) + Weight(n, fr.xp)
  {
    assert (cs + [fr])[..|cs|] == cs;
  }

  lemma {:induction false} FailWeight(n: nat, s: State)
    ensures Fail(s).r.Failure? || Measure(n, Fail(s)) <= FramesWeight(n, s.cs)
    decreases |s.cs|
  {
    hide Weight;
    if s.cs != [] && s.cs[|s.cs| - 1].Call? {
      FailWeight(n, s.(cs := s.cs[..|s.cs| - 1]));
    }
  }

  /** Offsets that are not negative never leave the range of addresses. */
  lemma ForwardTarget(s: State, op: Op)
    requires s.xp < HIGHBIT && U2S(op.imm0) >= 0
    ensures Target(s, op).Some? && Target(s, op).value >= s.xp
  {
    AddOffsetExact(s.xp, U2S(op.imm0));
  }

  /** What one instruction may leave behind: at most two points at or after where it ended. */
  ghost predicate Cheap(n: nat, s: State, o: Outcome) {
    && (o.Panic? ==> o.why.InputRange?)
    && (o.Next? && o.s.r.Running? ==> Measure(n, o.s) <= 2 * Weight(n, s.xp) + FramesWeight(n, s.cs))
  }

  lemma JumpCheap(n: nat, s: State, op: Op)
    requires s.xp < HIGHBIT && U2S(op.imm0) >= 0
    ensures Cheap(n, s, Jump(s, op)) && Cheap(n, s, Push(s, op))
  {
    hide Weight, AddOffset, U2S;
    ForwardTarget(s, op);
    var t := Target(s, op).value;
    WeightFalls(n, s.xp, t);
    PushWeight(n, s.cs, Choice(s.dp, t, s.ks));
    PushWeight(n, s.cs, Call(s.xp));
  }

  lemma PoppingCheap(n: nat, s: State, op: Op)
    requires s.xp < HIGHBIT
    requires !op.code.RET? && !op.code.FAIL2X? ==> U2S(op.imm0) >= 0
    ensures Cheap(n, s, Popping(s, op))
  {
    hide Weight, AddOffset, U2S, Fail;
    if s.cs != [] {
      var t := s.(cs := s.cs[..|s.cs| - 1]);
      FailWeight(n, t);
      if !op.code.RET? && !op.code.FAIL2X? {
        ForwardTarget(t, op);
        var x := Target(t, op).value;
        WeightFalls(n, s.xp, x);
        PushWeight(n, t.cs, Choice(s.dp, x, s.ks));
      }
    }
  }

  lemma ExecuteCheap(p: Program, input: Bytes, op: Op, s: State, n: nat)
    requires s.xp < HIGHBIT && s.r.Running?
    requires HasOffset(op.code) ==> U2S(op.imm0) >= 0
    ensures Cheap(n, s, Execute(p, input, op, s))
  {
    hide Weight, AddOffset, U2S, Fail, Push, Popping, Jump, Try;
    FailWeight(n, s);
    if HasOffset(op.code) {
      JumpCheap(n, s, op);
    }
    if op.code.COMMIT? || op.code.PCOMMIT? || op.code.BCOMMIT? || op.code.FAIL2X? || op.code.RET? {
      PoppingCheap(n, s, op);
    }
  }

  /** Every step of a forward-only program that goes on makes the measure smaller, and none panics. */
  lemma StepShrinks(p: Program, input: Bytes, s: State)
    requires ForwardOnly(p) && s.r.Running? && InBounds(p, input, s)
    ensures var o := Step(p, input, s);
      !o.Panic? && (o.Next? && o.s.r.Running? ==> Measure(|p.code|, o.s) < Measure(|p.code|, s))
  {
    hide Weight, Execute, DecodeOp, U2S, HasOffset;
    StepInBounds(p, input, s);
    var n := |p.code|;
    assert Forward(DecodeOp(p.code, s.xp));
    match DecodeOp(p.code, s.xp) {
      case Decoded(op) =>
        var s1 := s.(xp := s.xp + op.len);
        ExecuteCheap(p, input, op, s1, n);
        WeightFalls(n, s.xp, s1.xp);
      case _ =>
    }
  }

  /** A forward-only program halts on every input, within as many steps as its measure, and without a panic. */
  lemma {:induction false} ForwardProgramsHalt(p: Program, input: Bytes, s: State, n: nat)
    requires ForwardOnly(p) && InBounds(p, input, s) && n >= Measure(|p.code|, s)
    ensures var o := Run(p, input, s, n); !o.Panic? && !o.s.r.Running?
    decreases n
  {
    hide Step, Measure, ForwardOnly;
    if s.r.Running? {
      MeasurePositive(|p.code|, s);
      StepShrinks(p, input, s);
      StepInBounds(p, input, s);
      var o := Step(p, input, s);
      if o.Next? {
        if o.s.r.Running? {
          ForwardProgramsHalt(p, input, o.s, n - 1);
        }
      } else {
        FaultsHalt(p, input, s);
      }
    }
  }

  lemma MeasurePositive(n: nat, s: State)
    ensures Measure(n, s) >= 1
  {
  }

  /** An error return leaves the execution stopped. */
  lemma FaultsHalt(p: Program, input: Bytes, s: State)
    ensures var o := Step(p, input, s); o.Fault? ==> !o.s.r.Running?
  {
    hide Fail, Try, DecodeOp, AddOffset, U2S;
  }
}
