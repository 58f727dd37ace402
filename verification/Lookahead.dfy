/**
  Lookahead: `CHOICE alt; body; FAIL2X` and `CHOICE alt; body; BCOMMIT`.  Whatever the body
  does with frames of its own, the frame that guards it stays below them until the body
  fails, and failing restores the state the lookahead began in.
 */
module Lookahead {
  import opened Words
  import opened Immediates
  import opened Instructions
  import opened Machine
  import opened Equivalences

  // ---- failure
  /** Two states with one stack fail alike: the stack alone decides where to. */
  lemma {:induction false} FailForgets(s: State, t: State)
    requires s.cs == t.cs && s.r == t.r && s.r.Running?
    ensures Fail(s).r == Fail(t).r && Fail(s).cs == Fail(t).cs && Fail(s).ks == Fail(t).ks
    ensures Fail(s).r.Running? ==> Fail(s) == Fail(t)
    decreases |s.cs|
  {
    if s.cs != [] && s.cs[|s.cs| - 1].Call? {
      var rest := s.cs[..|s.cs| - 1];
      FailForgets(s.(cs := rest), t.(cs := rest));
    }
  }

  /** The same failure: equal, or both have given up with nothing recorded. */
  ghost predicate SameFailure(s: State, t: State) {
    s == t || (s.r.Failure? && t.r.Failure? && s.cs == t.cs && s.ks == t.ks == [])
  }

  lemma FailuresAgree(s: State, t: State)
    requires s.cs == t.cs && s.r == t.r && s.r.Running?
    ensures SameFailure(Fail(s), Fail(t))
  {
    FailForgets(s, t);
    GaveUp(s);
  }

  lemma {:induction false} GaveUp(s: State)
    requires s.r.Running?
    ensures Fail(s).r.Running? || (Fail(s).r.Failure? && Fail(s).ks == [])
    decreases |s.cs|
  {
    if s.cs != [] && s.cs[|s.cs| - 1].Call? {
      GaveUp(s.(cs := s.cs[..|s.cs| - 1]));
    }
  }

  /** The state a lookahead's body starts in. */
  function Looking(s: State, body: u64, alt: u64): (t: State) {
    s.(xp := body, cs := s.cs + [Choice(s.dp, alt, s.ks)])
  }

  /** The frame that guards the body. */
  function Guard(s: State, alt: u64): (fr: Frame) {
    Choice(s.dp, alt, s.ks)
  }

  /** The guard lies on the stack the lookahead began with, and the body's frames on the guard. */
  ghost predicate Guarding(s: State, alt: u64, u: State) {
    s.cs + [Guard(s, alt)] <= u.cs
  }

  // ---- the body

  /** The instructions that pop a frame of their own accord. */
  predicate Pops(c: OpCode) {
    c.COMMIT? || c.PCOMMIT? || c.BCOMMIT? || c.FAIL2X? || c.RET?
  }

  /** The instruction to come does not pop a frame when just `d` of them are left. */
  ghost predicate Tame(p: Program, u: State, d: nat) {
    var o := DecodeOp(p.code, u.xp);
    |u.cs| == d && o.Decoded? ==> !Pops(o.op.code)
  }

  /** No instruction among the next `n` pops the frame at depth `d`, unless a failure took it first. */
  ghost predicate Behaved(p: Program, input: Bytes, u: State, d: nat, n: nat)
    decreases n
  {
    n == 0 || |u.cs| < d
    || (Tame(p, u, d) && (u.r.Running? && Step(p, input, u).Next? ==> Behaved(p, input, Step(p, input, u).s, d, n - 1)))
  }

  /** The next `n` steps are the body's: it goes on, pops nothing at depth `d`, and has not failed. */
  ghost predicate InBody(p: Program, input: Bytes, u: State, d: nat, n: nat)
    decreases n
  {
    n == 0
    || (u.r.Running? && |u.cs| >= d && Tame(p, u, d) && Step(p, input, u).Next?
        && InBody(p, input, Step(p, input, u).s, d, n - 1))
  }

  // ---- one step

  /** A failure above the guard stays above it, or restores the state the lookahead began in. */
  lemma {:induction false} FailAtGuard(s: State, alt: u64, u: State)
    requires s.r.Running? && u.r.Running? && Guarding(s, alt, u)
    ensures Guarding(s, alt, Fail(u)) || Fail(u) == s.(xp := alt)
    decreases |u.cs|
  {
    var fr, rest := u.cs[|u.cs| - 1], u.cs[..|u.cs| - 1];
    if |u.cs| == |s.cs| + 1 {
      assert u.cs == s.cs + [Guard(s, alt)];
      FailRestores(u, s.cs, Guard(s, alt));
    } else if fr.Call? {
      FailAtGuard(s, alt, u.(cs := rest));
    }
  }

  lemma PopAboveGuard(s: State, alt: u64, op: Op, u: State)
    requires s.r.Running? && u.r.Running? && Guarding(s, alt, u) && |u.cs| > |s.cs| + 1
    ensures var o := Popping(u, op); o.Next? ==> Guarding(s, alt, o.s) || o.s == s.(xp := alt)
  {
    hide Fail, AddOffset, U2S;
    var t := u.(cs := u.cs[..|u.cs| - 1]);
    assert Guarding(s, alt, t);
    FailAtGuard(s, alt, t);
  }

  lemma ExecuteAtGuard(p: Program, input: Bytes, s: State, alt: u64, op: Op, u: State)
    requires s.r.Running? && u.r.Running? && Guarding(s, alt, u)
    requires |u.cs| == |s.cs| + 1 ==> !Pops(op.code)
    ensures var o := Execute(p, input, op, u); o.Next? ==> Guarding(s, alt, o.s) || o.s == s.(xp := alt)
  {
    hide Fail, AddOffset, U2S, Try, Popping, ToU64, SpanEnd;
    FailAtGuard(s, alt, u);
    if Pops(op.code) {
      PopAboveGuard(s, alt, op, u);
    }
  }

  lemma StepAtGuard(p: Program, input: Bytes, s: State, alt: u64, u: State)
    requires s.r.Running? && u.r.Running? && Guarding(s, alt, u) && Tame(p, u, |s.cs| + 1)
    ensures var o := Step(p, input, u); o.Next? ==> Guarding(s, alt, o.s) || o.s == s.(xp := alt)
  {
    hide Execute, DecodeOp, Pops;
    match DecodeOp(p.code, u.xp) {
      case Decoded(op) => ExecuteAtGuard(p, input, s, alt, op, u.(xp := u.xp + op.len));
      case _ =>
    }
  }

  // ---- whole bodies

  lemma RunFrom(p: Program, input: Bytes, u: State, t: State, j: nat)
    requires u.r.Running? && Step(p, input, u) == Next(t)
    ensures Run(p, input, u, j + 1) == Run(p, input, t, j) && Run(p, input, t, 0) == Next(t)
  {
    hide Step;
  }

  lemma RunNone(p: Program, input: Bytes, u: State, n: nat)
    ensures n == 0 || !u.r.Running? ==> Run(p, input, u, n) == Next(u)
    ensures n > 0 && u.r.Running? && !Step(p, input, u).Next? ==> !Run(p, input, u, n).Next?
  {
    hide Step;
  }

  lemma GuardDeep(s: State, alt: u64, u: State)
    requires Guarding(s, alt, u)
    ensures |u.cs| >= |s.cs| + 1
  {
  }

  /** Within `n` steps the machine stood at `alt`, all else as it was at `s`. */
  ghost predicate FailedBy(p: Program, input: Bytes, s: State, alt: u64, u: State, n: nat) {
    exists j :: 0 <= j <= n && Run(p, input, u, j) == Next(s.(xp := alt))
  }

  lemma FailedLater(p: Program, input: Bytes, s: State, alt: u64, u: State, t: State, n: nat)
    requires u.r.Running? && Step(p, input, u) == Next(t) && FailedBy(p, input, s, alt, t, n)
    ensures FailedBy(p, input, s, alt, u, n + 1)
  {
    hide Step, Run;
    var j :| 0 <= j <= n && Run(p, input, t, j) == Next(s.(xp := alt));
    RunFrom(p, input, u, t, j);
  }

  /**
    However long the body runs, and whatever it pushes, pops, matches and records, either
    the guard still lies below its frames, or at some point the body failed and the machine
    stood at `alt` with everything else as it was when the lookahead began.
   */
  lemma {:induction false} GuardHolds(p: Program, input: Bytes, s: State, alt: u64, u: State, n: nat)
    requires s.r.Running? && Guarding(s, alt, u) && Behaved(p, input, u, |s.cs| + 1, n)
    ensures var o := Run(p, input, u, n);
      (o.Next? ==> Guarding(s, alt, o.s)) || FailedBy(p, input, s, alt, u, n)
    decreases n
  {
    hide Step, Tame, Run, Guarding;
    RunNone(p, input, u, n);
    if n > 0 && u.r.Running? && Step(p, input, u).Next? {
      GuardDeep(s, alt, u);
      StepAtGuard(p, input, s, alt, u);
      var t := Step(p, input, u).s;
      if t == s.(xp := alt) {
        RunFrom(p, input, u, t, 0);
      } else {
        GuardHolds(p, input, s, alt, t, n - 1);
        RunFrom(p, input, u, t, n - 1);
        if FailedBy(p, input, s, alt, t, n - 1) {
          FailedLater(p, input, s, alt, u, t, n - 1);
        }
      }
    }
  }

  lemma {:induction false} BodyBehaves(p: Program, input: Bytes, u: State, d: nat, n: nat)
    requires InBody(p, input, u, d, n)
    ensures Behaved(p, input, u, d, n)
    decreases n
  {
    hide Step, Tame;
    if n > 0 {
      BodyBehaves(p, input, Step(p, input, u).s, d, n - 1);
    }
  }

  /** Until the end of the body's run the guard has not been taken. */
  lemma {:induction false} BodyIsDeep(p: Program, input: Bytes, u: State, d: nat, n: nat, j: nat)
    requires InBody(p, input, u, d, n) && j < n
    ensures var o := Run(p, input, u, j); o.Next? && |o.s.cs| >= d
    decreases n
  {
    hide Step, Tame;
    if j > 0 {
      BodyIsDeep(p, input, Step(p, input, u).s, d, n - 1, j - 1);
    }
  }

  /** The state a lookahead's body ends in is decided by its depth alone. */
  lemma BodyEnds(p: Program, input: Bytes, s: State, body: u64, alt: u64, k: nat)
    requires s.r.Running? && InBody(p, input, Looking(s, body, alt), |s.cs| + 1, k)
    ensures var o := Run(p, input, Looking(s, body, alt), k);
      && (o.Next? && |o.s.cs| <= |s.cs| ==> o.s == s.(xp := alt))
      && (o.Next? && |o.s.cs| == |s.cs| + 1 ==> o.s.cs == s.cs + [Guard(s, alt)])
  {
    hide Run, InBody, Behaved;
    var u := Looking(s, body, alt);
    BodyBehaves(p, input, u, |s.cs| + 1, k);
    GuardHolds(p, input, s, alt, u, k);
    forall j | 0 <= j <= k && Run(p, input, u, j) == Next(s.(xp := alt)) ensures j == k {
      if j < k { BodyIsDeep(p, input, u, |s.cs| + 1, k, j); }
    }
  }

  // ---- the two lookaheads

  /**
    The body's first `k` steps bring it to its end: below the guard, that is, failed; or to
    the instruction at `end` with just the guard left, that is, matched.
   */
  ghost predicate Finishes(p: Program, input: Bytes, s: State, body: u64, alt: u64, k: nat, end: u64) {
    var u, d := Looking(s, body, alt), |s.cs| + 1;
    && InBody(p, input, u, d, k)
    && var o := Run(p, input, u, k);
       o.Next? && o.s.r.Running? && (|o.s.cs| < d || (|o.s.cs| == d && o.s.xp == end))
  }

  /** The body matched: the guard is still there. */
  ghost predicate Matched(p: Program, input: Bytes, s: State, body: u64, alt: u64, k: nat, end: u64)
    requires Finishes(p, input, s, body, alt, k, end)
  {
    |Run(p, input, Looking(s, body, alt), k).s.cs| > |s.cs|
  }

  /**
    `CHOICE alt; body; FAIL2X; alt:` — when the body does not match, execution goes on at
    `alt` with data pointer, captures and stack as they were; when it matches, the whole is a
    failure of the starting state.
   */
  lemma NegativeLookahead(p: Program, input: Bytes, s: State, choice: Op, body: u64, alt: u64,
                          f2x: Op, f2xAt: u64, f2xEnd: u64, k: nat) returns (n: nat, t: State)
    requires s.r.Running? && Branch(p, s.xp, choice, body, alt) && choice.code.CHOICE?
    requires At(p, f2xAt, f2x, f2xEnd) && f2x.code.FAIL2X?
    requires Finishes(p, input, s, body, alt, k, f2xAt)
    ensures Run(p, input, s, n) == Next(t)
    ensures if Matched(p, input, s, body, alt, k, f2xAt) then SameFailure(t, Fail(s)) else t == s.(xp := alt)
  {
    hide DecodeOp, U2S, AddOffset, Step, Run, Fail, InBody;
    StepAt(p, input, s, choice, body);
    var s1 := Looking(s, body, alt);
    RunOn(p, input, s, s1, 1, k);
    BodyEnds(p, input, s, body, alt, k);
    n, t := 1 + k, Run(p, input, s1, k).s;
    if Matched(p, input, s, body, alt, k, f2xAt) {
      StepOn(p, input, s, 1 + k, t, f2x, f2xEnd);
      assert t.cs[..|t.cs| - 1] == s.cs;
      var u := t.(xp := f2xEnd, cs := s.cs);
      n, t := 2 + k, Fail(u);
      FailuresAgree(u, s);
    }
  }

  /**
    `CHOICE alt; body; BCOMMIT after; alt: FAIL; after:` — when the body matches, execution
    goes on at `after` with data pointer, captures and stack as they were; when it does not,
    the whole is a failure of the starting state.
   */
  lemma PositiveLookahead(p: Program, input: Bytes, s: State, choice: Op, body: u64, alt: u64,
                          commit: Op, commitAt: u64, commitEnd: u64, after: u64, fail: Op, failEnd: u64,
                          k: nat) returns (n: nat, t: State)
    requires s.r.Running? && Branch(p, s.xp, choice, body, alt) && choice.code.CHOICE?
    requires Branch(p, commitAt, commit, commitEnd, after) && commit.code.BCOMMIT?
    requires At(p, alt, fail, failEnd) && fail.code.FAIL?
    requires Finishes(p, input, s, body, alt, k, commitAt)
    ensures Run(p, input, s, n) == Next(t)
    ensures if Matched(p, input, s, body, alt, k, commitAt) then t == s.(xp := after) else SameFailure(t, Fail(s))
  {
    hide DecodeOp, U2S, AddOffset, Step, Run, Fail, InBody;
    StepAt(p, input, s, choice, body);
    var s1 := Looking(s, body, alt);
    RunOn(p, input, s, s1, 1, k);
    BodyEnds(p, input, s, body, alt, k);
    var u := Run(p, input, s1, k).s;
    n := 2 + k;
    if Matched(p, input, s, body, alt, k, commitAt) {
      StepOn(p, input, s, 1 + k, u, commit, commitEnd);
      assert u.cs[..|u.cs| - 1] == s.cs;
      t := s.(xp := after);
    } else {
      StepOn(p, input, s, 1 + k, u, fail, failEnd);
      t := Fail(s.(xp := failEnd));
      FailuresAgree(s.(xp := failEnd), s);
    }
  }
}
