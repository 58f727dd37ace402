/**
  Calls and returns.  `RET` insists on the wrong kind of frame, so that the address a call
  leaves on the stack is never gone back to.
 */
module Returns {
  import opened Words
  import opened Immediates
  import opened Instructions
  import opened Machine
  import opened Equivalences

  /** `RET` as it is described: pop a call frame, and go on where the call was made from. */
  function DescribedRet(s: State): (o: Outcome) {
    if s.cs == [] then Stop(s, EmptyStack)
    else
      var fr, t := s.cs[|s.cs| - 1], s.(cs := s.cs[..|s.cs| - 1]);
      if fr.Choice? then Stop(t, ChoiceFailFrame) else Next(t.(xp := fr.xp))
  }

  /** The machine's `RET` does what is described exactly when the stack is empty. */
  lemma RetAsDescribed(p: Program, input: Bytes, op: Op, s: State)
    requires op.code.RET? && s.r.Running?
    ensures Execute(p, input, op, s) == DescribedRet(s) <==> s.cs == []
  {
    hide AddOffset, U2S, Fail;
    assert Execute(p, input, op, s) == Popping(s, op);
  }

  // ---- return addresses

  /** The same frame, but for the address a call frame holds. */
  ghost predicate FramesAlike(a: Frame, b: Frame) {
    a == b || (a.Call? && b.Call?)
  }

  ghost predicate StacksAlike(a: seq<Frame>, b: seq<Frame>) {
    |a| == |b| && forall i :: 0 <= i < |a| ==> FramesAlike(a[i], b[i])
  }

  /** The same state, but for the addresses in its call frames. */
  ghost predicate Alike(s: State, t: State) {
    t == s.(cs := t.cs) && StacksAlike(s.cs, t.cs)
  }

  ghost predicate OutcomesAlike(a: Outcome, b: Outcome) {
    match a
    case Next(s) => b.Next? && Alike(s, b.s)
    case Fault(s, e) => b.Fault? && Alike(s, b.s) && b.err == e
    case Panic(w) => b == a
  }

  lemma {:induction false} FailAlike(s: State, t: State)
    requires Alike(s, t)
    ensures Alike(Fail(s), Fail(t))
    decreases |s.cs|
  {
    if s.cs != [] {
      var m := |s.cs| - 1;
      assert FramesAlike(s.cs[m], t.cs[m]);
      if s.cs[m].Call? {
        FailAlike(s.(cs := s.cs[..m]), t.(cs := t.cs[..m]));
      }
    }
  }

  lemma PopAlike(s: State, t: State, op: Op)
    requires Alike(s, t)
    ensures OutcomesAlike(Popping(s, op), Popping(t, op))
  {
    hide Fail, AddOffset, U2S;
    if s.cs != [] {
      var m := |s.cs| - 1;
      assert FramesAlike(s.cs[m], t.cs[m]);
      FailAlike(s.(cs := s.cs[..m]), t.(cs := t.cs[..m]));
    }
  }

  lemma PushAlike(s: State, t: State, op: Op)
    requires Alike(s, t)
    ensures OutcomesAlike(Push(s, op), Push(t, op)) && OutcomesAlike(Jump(s, op), Jump(t, op))
  {
    hide AddOffset, U2S;
  }

  lemma ProbeAlike(s: State, t: State, probe: Probe, op: Op)
    requires Alike(s, t)
    ensures OutcomesAlike(Plain(s, probe), Plain(t, probe)) && OutcomesAlike(Test(s, probe, op), Test(t, probe, op))
  {
    hide Fail, ToU64, Jump;
    FailAlike(s, t);
    PushAlike(s, t, op);
  }

  lemma RecordAlike(p: Program, s: State, t: State, op: Op)
    requires Alike(s, t)
    ensures OutcomesAlike(Record(p, s, op), Record(p, t, op))
  {
  }

  lemma ExecuteAlike(p: Program, input: Bytes, op: Op, s: State, t: State)
    requires Alike(s, t)
    ensures OutcomesAlike(Execute(p, input, op, s), Execute(p, input, op, t))
  {
    hide Fail, Try, Popping, SpanEnd, Plain, Test, Push, Jump, Record, StacksAlike;
    FailAlike(s, t);
    PopAlike(s, t, op);
    PushAlike(s, t, op);
    RecordAlike(p, s, t, op);
    if MatchingOf(op).Some? {
      ProbeAlike(s, t, Try(p, input, s.dp, MatchingOf(op).value), op);
    }
  }

  lemma StepAlike(p: Program, input: Bytes, s: State, t: State)
    requires Alike(s, t)
    ensures OutcomesAlike(Step(p, input, s), Step(p, input, t))
  {
    hide Execute, DecodeOp;
    match DecodeOp(p.code, s.xp) {
      case Decoded(op) => ExecuteAlike(p, input, op, s.(xp := s.xp + op.len), t.(xp := s.xp + op.len));
      case _ =>
    }
  }

  /** No run of any program depends on the addresses in its call frames. */
  lemma {:induction false} ReturnsUnused(p: Program, input: Bytes, s: State, t: State, n: nat)
    requires Alike(s, t)
    ensures OutcomesAlike(Run(p, input, s, n), Run(p, input, t, n))
    decreases n
  {
    hide Step;
    if n > 0 && s.r.Running? {
      StepAlike(p, input, s, t);
      if Step(p, input, s).Next? {
        ReturnsUnused(p, input, Step(p, input, s).s, Step(p, input, t).s, n - 1);
      }
    }
  }

  /**
    A call never returns: whatever runs after it, for however long, comes out as it would
    had the call been made from any other place.
   */
  lemma CallNeverReturns(p: Program, input: Bytes, s: State, call: Op, next: u64, target: u64, other: u64, n: nat)
    requires s.r.Running? && Branch(p, s.xp, call, next, target) && call.code.CALL?
    ensures OutcomesAlike(Run(p, input, s, 1 + n),
                          Run(p, input, s.(xp := target, cs := s.cs + [Call(other)]), n))
  {
    hide DecodeOp, U2S, AddOffset, Step, Run;
    StepAt(p, input, s, call, next);
    var t := s.(xp := target, cs := s.cs + [Call(next)]);
    RunOn(p, input, s, t, 1, n);
    ReturnsUnused(p, input, t, s.(xp := target, cs := s.cs + [Call(other)]), n);
  }
}
