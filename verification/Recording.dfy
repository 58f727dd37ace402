/**
  What a capture's instructions leave behind: `BCAP c; body; ECAP c` records exactly one event
  of capture `c`, from where the first stood to where the second stands, whatever the body
  does, tries and takes back in between.
 */
module Recording {
  import opened Words
  import opened Immediates
  import opened Instructions
  import opened Machine
  import opened MachineInvariants
  import opened Equivalences
  import opened Semantics
  import opened Captures

  /** The machine runs for `n` steps and never gives up a frame below depth `d`. */
  ghost predicate Stays(p: Program, input: Bytes, u: State, d: nat, n: nat)
    decreases n
  {
    && u.r.Running? && |u.cs| >= d
    && (n == 0 || (Step(p, input, u).Next? && Stays(p, input, Step(p, input, u).s, d, n - 1)))
  }

  /** `base` is the beginning of what is recorded, now and in every frame from depth `d` on. */
  ghost predicate Extends(u: State, d: nat, base: seq<Assignment>) {
    base <= u.ks && forall i :: d <= i < |u.cs| && u.cs[i].Choice? ==> base <= u.cs[i].ks
  }

  lemma {:induction false} FailExtends(u: State, d: nat, base: seq<Assignment>)
    requires u.r.Running? && Extends(u, d, base) && Fail(u).r.Running? && |Fail(u).cs| >= d
    ensures Extends(Fail(u), d, base)
    decreases |u.cs|
  {
    if u.cs != [] && u.cs[|u.cs| - 1].Call? {
      FailExtends(u.(cs := u.cs[..|u.cs| - 1]), d, base);
    }
  }

  lemma PopExtends(u: State, op: Op, d: nat, base: seq<Assignment>)
    requires u.r.Running? && Extends(u, d, base)
    ensures var o := Popping(u, op); o.Next? && o.s.r.Running? && |o.s.cs| >= d ==> Extends(o.s, d, base)
  {
    hide Fail, Target;
    if u.cs != [] {
      var t := u.(cs := u.cs[..|u.cs| - 1]);
      if Fail(t).r.Running? && |Fail(t).cs| >= d {
        FailExtends(t, d, base);
      }
    }
  }

  lemma RecordExtends(p: Program, u: State, op: Op, d: nat, base: seq<Assignment>)
    requires Extends(u, d, base)
    ensures var o := Record(p, u, op); o.Next? ==> Extends(o.s, d, base)
    ensures var o := Push(u, op); o.Next? ==> Extends(o.s, d, base)
  {
    hide Target;
  }

  lemma ExecuteExtends(p: Program, input: Bytes, u: State, op: Op, d: nat, base: seq<Assignment>)
    requires u.r.Running? && Extends(u, d, base)
    ensures var o := Execute(p, input, op, u); o.Next? && o.s.r.Running? && |o.s.cs| >= d ==> Extends(o.s, d, base)
  {
    hide Fail, Target, Try, Popping, ToU64, SpanEnd, Record, Push;
    PopExtends(u, op, d, base);
    RecordExtends(p, u, op, d, base);
    if Fail(u).r.Running? && |Fail(u).cs| >= d {
      FailExtends(u, d, base);
    }
  }

  lemma StepExtends(p: Program, input: Bytes, u: State, d: nat, base: seq<Assignment>)
    requires u.r.Running? && Extends(u, d, base)
    ensures var o := Step(p, input, u); o.Next? && o.s.r.Running? && |o.s.cs| >= d ==> Extends(o.s, d, base)
  {
    hide DecodeOp, Execute;
    match DecodeOp(p.code, u.xp) {
      case Decoded(op) => ExecuteExtends(p, input, u.(xp := u.xp + op.len), op, d, base);
      case _ =>
    }
  }

  /** What was recorded before the body stays recorded. */
  lemma {:induction false} BodyExtends(p: Program, input: Bytes, u: State, d: nat, base: seq<Assignment>, n: nat)
    requires Stays(p, input, u, d, n) && Extends(u, d, base)
    ensures Run(p, input, u, n).Next? && Run(p, input, u, n).s.r.Running? && Extends(Run(p, input, u, n).s, d, base)
    decreases n
  {
    hide Step, Extends;
    if n > 0 {
      var t := Step(p, input, u).s;
      StepExtends(p, input, u, d, base);
      assert t.r.Running? && |t.cs| >= d;
      BodyExtends(p, input, t, d, base, n - 1);
    }
  }

  // ---- events

  /** None of the assignments from position `i` on is one of capture `c`. */
  ghost predicate Silent(ks: seq<Assignment>, i: nat, c: nat) {
    forall k :: i <= k < |ks| ==> ks[k].index != c
  }

  lemma {:induction false} SilentEvents(ks: seq<Assignment>, i: nat, c: nat)
    requires i <= |ks| && Silent(ks, i, c)
    ensures Events(ks, c) == Events(ks[..i], c) && OpenStart(ks, c) == OpenStart(ks[..i], c)
    decreases |ks|
  {
    if i == |ks| {
      assert ks[..i] == ks;
    } else {
      var m := |ks| - 1;
      SilentEvents(ks[..m], i, c);
      assert ks[..m][..i] == ks[..i];
    }
  }

  /**
    `BCAP c; body; ECAP c`: if the body neither gives up a frame it did not push nor records
    capture `c` itself, exactly one event of `c` is added, and none of any capture the body
    does not record.
   */
  lemma CapturesOnce(p: Program, input: Bytes, s: State, begin: Op, next: u64, end: Op, at: u64, after: u64, k: nat)
    returns (u: State, t: State)
    requires s.r.Running? && InBounds(p, input, s)
    requires At(p, s.xp, begin, next) && begin.code.BCAP? && begin.imm0 < p.captures
    requires At(p, at, end, after) && end.code.ECAP? && end.imm0 == begin.imm0
    requires var v := s.(xp := next, ks := s.ks + [Assignment(s.dp, begin.imm0, false)]);
      && Stays(p, input, v, |s.cs|, k)
      && var o := Run(p, input, v, k); o.Next? ==> o.s.xp == at && Silent(o.s.ks, |s.ks| + 1, begin.imm0)
    ensures u.xp == at && Run(p, input, s, k + 1) == Next(u) && Run(p, input, s, k + 2) == Next(t)
    ensures t == u.(xp := after, ks := t.ks) && s.ks <= u.ks <= t.ks
    ensures Events(t.ks, begin.imm0) == Events(s.ks, begin.imm0) + [Pair(s.dp, u.dp)]
    ensures forall c :: c != begin.imm0 && Silent(u.ks, |s.ks|, c) ==> Events(t.ks, c) == Events(s.ks, c)
  {
    hide DecodeOp, Step, Run, Events, OpenStart, Stays, Silent;
    var c, a := begin.imm0, Assignment(s.dp, begin.imm0, false);
    var v := s.(xp := next, ks := s.ks + [a]);
    EdgeLaw(p, input, s, begin, next);
    StepAt(p, input, s, begin, next);
    BodyExtends(p, input, v, |s.cs|, s.ks + [a], k);
    u := Run(p, input, v, k).s;
    RunOn(p, input, s, v, 1, k);
    RunInBounds(p, input, s, k + 1);
    EdgeLaw(p, input, u, end, after);
    StepAt(p, input, u, end, after);
    t := u.(xp := after, ks := u.ks + [Assignment(u.dp, c, true)]);
    RunOn(p, input, s, u, k + 1, 1);
    EventsOnce(s.ks, a, u.ks, Assignment(u.dp, c, true), c);
    forall d | d != c && Silent(u.ks, |s.ks|, d) ensures Events(t.ks, d) == Events(s.ks, d) {
      SilentEvents(u.ks, |s.ks|, d);
      assert u.ks[..|s.ks|] == s.ks;
      RecordOne(u.ks, Assignment(u.dp, c, true), d);
    }
  }

  lemma EventsOnce(before: seq<Assignment>, a: Assignment, ks: seq<Assignment>, z: Assignment, c: nat)
    requires before + [a] <= ks && Silent(ks, |before| + 1, c)
    requires a.index == c == z.index && !a.isEnd && z.isEnd
    ensures Events(ks + [z], c) == Events(before, c) + [Pair(a.dp, z.dp)]
  {
    hide Events, OpenStart;
    SilentEvents(ks, |before| + 1, c);
    assert ks[..|before| + 1] == before + [a];
    RecordOne(before, a, c);
    RecordOne(ks, z, c);
  }

  /** `FCAP c, n`: one event of capture `c`, over the last `n` bytes, and none of any other. */
  lemma FullCapture(p: Program, input: Bytes, s: State, op: Op, next: u64) returns (t: State)
    requires About(p, input, s, op, next) && op.code.FCAP? && op.imm0 < p.captures && op.imm1 <= s.dp
    ensures Step(p, input, s) == Next(t) && t == s.(xp := next, ks := t.ks)
    ensures Events(t.ks, op.imm0) == Events(s.ks, op.imm0) + [Pair(s.dp - op.imm1, s.dp)]
    ensures forall c :: c != op.imm0 ==> Events(t.ks, c) == Events(s.ks, c)
  {
    hide DecodeOp, Step, Events, OpenStart;
    FullLaw(p, input, s, op, next);
    t := Step(p, input, s).s;
    var a, z := Assignment(s.dp - op.imm1, op.imm0, false), Assignment(s.dp, op.imm0, true);
    assert t.ks == s.ks + [a] + [z];
    forall c: nat ensures Events(t.ks, c) == Events(s.ks, c) + if c == op.imm0 then [Pair(s.dp - op.imm1, s.dp)] else [] {
      RecordOne(s.ks, a, c);
      RecordOne(s.ks + [a], z, c);
    }
  }
}
