/**
  What every run of the machine keeps, from the start state on, for every program and input.
 */
module MachineInvariants {
  import opened Words
  import opened Immediates
  import opened Instructions
  import opened Machine

  // ---- data stays in range

  ghost predicate AssignmentsOk(p: Program, input: Bytes, ks: seq<Assignment>) {
    forall a :: a in ks ==> a.dp <= |input| && a.index < p.captures
  }

  ghost predicate FrameOk(p: Program, input: Bytes, fr: Frame) {
    fr.Choice? ==> fr.dp <= |input| && AssignmentsOk(p, input, fr.ks)
  }

  /** The data pointer, every saved one and every recorded one lie within the input. */
  ghost predicate InBounds(p: Program, input: Bytes, s: State) {
    && s.dp <= |input|
    && AssignmentsOk(p, input, s.ks)
    && forall fr :: fr in s.cs ==> FrameOk(p, input, fr)
  }

  /** With the data pointer in range the wrapping subtraction is the plain one. */
  lemma AvailableExact(input: Bytes, dp: u64)
    requires dp <= |input|
    ensures Available(input, dp) == |input| - dp
  {
  }

  lemma {:induction false} ScanSetExact(input: Bytes, dp: u64, m: set<byte>, n: u64, i: nat)
    requires i <= n && dp + n <= |input|
    ensures ScanSet(input, dp, m, n, i)
         == if forall k :: dp + i <= k < dp + n ==> input[k] in m then Hit(n) else Miss
    decreases n - i
  {
    if i < n {
      assert ToU64(dp + i) == dp + i;
      ScanSetExact(input, dp, m, n, i + 1);
      if input[dp + i] in m {
        assert (forall k :: dp + i <= k < dp + n ==> input[k] in m)
          <==> (forall k :: dp + (i + 1) <= k < dp + n ==> input[k] in m);
      } else {
        assert !(forall k :: dp + i <= k < dp + n ==> input[k] in m);
      }
    }
  }

  lemma {:induction false} ScanLitExact(input: Bytes, dp: u64, lit: Bytes, i: nat)
    requires i <= |lit| && dp + |lit| <= |input|
    ensures ScanLit(input, dp, lit, i)
         == if input[dp + i..dp + |lit|] == lit[i..] then Hit(|lit|) else Miss
    decreases |lit| - i
  {
    if i < |lit| {
      assert ToU64(dp + i) == dp + i;
      ScanLitExact(input, dp, lit, i + 1);
      var a, b := input[dp + i..dp + |lit|], lit[i..];
      assert a == [input[dp + i]] + input[dp + (i + 1)..dp + |lit|];
      assert b == [lit[i]] + lit[i + 1..];
      assert a == b ==> a[0] == b[0] && a[1..] == b[1..];
    }
  }

  /** `matchN`: enough bytes are left and every one of them is in the set. */
  lemma MatchNExact(input: Bytes, dp: u64, m: set<byte>, n: u64)
    requires dp <= |input|
    ensures MatchN(input, dp, m, n)
         == if dp + n <= |input| && forall k :: dp <= k < dp + n ==> input[k] in m then Hit(n) else Miss
  {
    AvailableExact(input, dp);
    if dp + n <= |input| {
      ScanSetExact(input, dp, m, n, 0);
    }
  }

  /** `matchLit`: the literal stands at the data pointer. */
  lemma MatchLitExact(input: Bytes, dp: u64, lit: Bytes)
    requires dp <= |input|
    ensures MatchLit(input, dp, lit)
         == if dp + |lit| <= |input| && input[dp..dp + |lit|] == lit then Hit(|lit|) else Miss
  {
    AvailableExact(input, dp);
    if dp + |lit| <= |input| {
      ScanLitExact(input, dp, lit, 0);
      assert lit[0..] == lit;
    }
  }

  /** A match attempt reads only inside the input and consumes no more than is there. */
  lemma TryInBounds(p: Program, input: Bytes, dp: u64, how: Matching)
    requires dp <= |input|
    ensures var r := Try(p, input, dp, how); !r.BadRead? && (r.Hit? ==> dp + r.n <= |input|)
  {
    match how
    case AnyB(n) => AvailableExact(input, dp);
    case SameB(b, n) => MatchNExact(input, dp, {b % 0x100}, n);
    case LitB(l) => if l < |p.literals| { MatchLitExact(input, dp, p.literals[l]); }
    case MatchB(m, n) => if m < |p.byteSets| { MatchNExact(input, dp, p.byteSets[m], n); }
  }

  lemma {:induction false} FailInBounds(p: Program, input: Bytes, s: State)
    requires InBounds(p, input, s)
    ensures InBounds(p, input, Fail(s))
    decreases |s.cs|
  {
    if s.cs != [] {
      var fr, rest := s.cs[|s.cs| - 1], s.cs[..|s.cs| - 1];
      assert FrameOk(p, input, fr);
      if fr.Call? {
        FailInBounds(p, input, s.(cs := rest));
      }
    }
  }

  lemma PoppingInBounds(p: Program, input: Bytes, s: State, op: Op)
    requires InBounds(p, input, s)
    ensures var o := Popping(s, op); o.Panic? || InBounds(p, input, o.s)
    ensures var o := Popping(s, op); o.Panic? ==> o.why.CodeOffsetRange?
  {
    if s.cs != [] {
      var fr, t := s.cs[|s.cs| - 1], s.(cs := s.cs[..|s.cs| - 1]);
      assert FrameOk(p, input, fr);
      FailInBounds(p, input, t);
    }
  }

  /** Good outcomes: the invariant holds of the state, and nothing read outside the input. */
  ghost predicate OutcomeInBounds(p: Program, input: Bytes, o: Outcome) {
    if o.Panic? then o.why.CodeOffsetRange? else InBounds(p, input, o.s)
  }

  lemma MatchingInBounds(p: Program, input: Bytes, s: State, op: Op, how: Matching)
    requires InBounds(p, input, s)
    ensures OutcomeInBounds(p, input, Plain(s, Try(p, input, s.dp, how)))
    ensures OutcomeInBounds(p, input, Test(s, Try(p, input, s.dp, how), op))
  {
    hide Try, Fail;
    TryInBounds(p, input, s.dp, how);
    FailInBounds(p, input, s);
  }

  lemma PushInBounds(p: Program, input: Bytes, s: State, op: Op)
    requires InBounds(p, input, s)
    ensures OutcomeInBounds(p, input, Push(s, op))
  {
    hide AddOffset, U2S;
  }

  lemma RecordInBounds(p: Program, input: Bytes, s: State, op: Op)
    requires InBounds(p, input, s)
    ensures OutcomeInBounds(p, input, Record(p, s, op))
  {
  }

  lemma ExecuteInBounds(p: Program, input: Bytes, op: Op, s: State)
    requires InBounds(p, input, s)
    ensures OutcomeInBounds(p, input, Execute(p, input, op, s))
  {
    hide Push, Plain, Test, Popping, Record, Fail, Try, AddOffset, U2S;
    FailInBounds(p, input, s);
    PushInBounds(p, input, s, op);
    PoppingInBounds(p, input, s, op);
    RecordInBounds(p, input, s, op);
    if MatchingOf(op).Some? {
      MatchingInBounds(p, input, s, op, MatchingOf(op).value);
    }
  }

  lemma StepInBounds(p: Program, input: Bytes, s: State)
    requires InBounds(p, input, s)
    ensures OutcomeInBounds(p, input, Step(p, input, s))
  {
    hide Execute, DecodeOp;
    match DecodeOp(p.code, s.xp) {
      case Decoded(op) => ExecuteInBounds(p, input, op, s.(xp := s.xp + op.len));
      case _ =>
    }
  }

  /**
    On every run of every program over every input the data pointers stay in range, so the
    number of available bytes never underflows, no read is out of range, and every capture
    index recorded names a capture.
   */
  lemma {:induction false} RunInBounds(p: Program, input: Bytes, s: State, n: nat)
    requires InBounds(p, input, s)
    ensures OutcomeInBounds(p, input, Run(p, input, s, n))
    decreases n
  {
    hide Step;
    if n > 0 && s.r.Running? {
      StepInBounds(p, input, s);
      var o := Step(p, input, s);
      if o.Next? {
        RunInBounds(p, input, o.s, n - 1);
      }
    }
  }

  lemma EveryRunInBounds(p: Program, input: Bytes, n: nat)
    ensures OutcomeInBounds(p, input, Run(p, input, Start(), n))
  {
    RunInBounds(p, input, Start(), n);
  }

  // ---- capture snapshots

  /** Snapshots of the live choice frames are prefixes of one another, bottom to top, up to `ks`. */
  ghost predicate Chained(s: State) {
    && (forall i :: 0 <= i < |s.cs| && s.cs[i].Choice? ==> s.cs[i].ks <= s.ks)
    && (forall i, j :: 0 <= i < j < |s.cs| && s.cs[i].Choice? && s.cs[j].Choice? ==> s.cs[i].ks <= s.cs[j].ks)
  }

  /** The chain can only be cut by giving up or by an error, which drop the assignments. */
  ghost predicate OutcomeChained(o: Outcome) {
    o.Next? && (o.s.r.Running? || o.s.r.Success?) ==> Chained(o.s)
  }

  lemma PrefixTrans(a: seq<Assignment>, b: seq<Assignment>, c: seq<Assignment>)
    requires a <= b && b <= c
    ensures a <= c
  {
  }

  lemma PoppedChained(s: State)
    requires Chained(s) && s.cs != []
    ensures Chained(s.(cs := s.cs[..|s.cs| - 1]))
    ensures var fr := s.cs[|s.cs| - 1];
      fr.Choice? ==> Chained(s.(cs := s.cs[..|s.cs| - 1], ks := fr.ks))
  {
  }

  lemma {:induction false} FailChained(s: State)
    requires Chained(s)
    ensures Fail(s).r == s.r || Fail(s).r.Failure?
    ensures Fail(s).r.Failure? || Chained(Fail(s))
    decreases |s.cs|
  {
    if s.cs != [] {
      PoppedChained(s);
      var fr, rest := s.cs[|s.cs| - 1], s.cs[..|s.cs| - 1];
      if fr.Call? {
        FailChained(s.(cs := rest));
      } else {
        assert Chained(s.(cs := rest, ks := fr.ks));
      }
    }
  }

  lemma PushChained(s: State, op: Op)
    requires Chained(s)
    ensures OutcomeChained(Push(s, op))
  {
    hide AddOffset, U2S;
  }

  lemma PoppingChained(s: State, op: Op)
    requires Chained(s)
    ensures OutcomeChained(Popping(s, op))
  {
    hide AddOffset, U2S, Fail;
    if s.cs != [] {
      PoppedChained(s);
      var fr, t := s.cs[|s.cs| - 1], s.(cs := s.cs[..|s.cs| - 1]);
      FailChained(t);
      if fr.Choice? && op.code.BCOMMIT? {
        assert Chained(t.(ks := fr.ks));
      }
    }
  }

  lemma RecordChained(p: Program, s: State, op: Op)
    requires Chained(s)
    ensures OutcomeChained(Record(p, s, op))
  {
    var o := Record(p, s, op);
    if o.Next? {
      assert s.ks <= o.s.ks;
      forall i | 0 <= i < |s.cs| && s.cs[i].Choice? ensures s.cs[i].ks <= o.s.ks {
        PrefixTrans(s.cs[i].ks, s.ks, o.s.ks);
      }
    }
  }

  lemma StepChained(p: Program, input: Bytes, s: State)
    requires Chained(s)
    ensures OutcomeChained(Step(p, input, s))
  {
    hide Push, Popping, Record, Fail, Try, DecodeOp, AddOffset, U2S;
    match DecodeOp(p.code, s.xp) {
      case Decoded(op) =>
        var s1 := s.(xp := s.xp + op.len);
        assert Chained(s1);
        FailChained(s1);
        PushChained(s1, op);
        PoppingChained(s1, op);
        RecordChained(p, s1, op);
      case _ =>
    }
  }

  /** On every run the snapshots of the live choice frames form a chain of prefixes. */
  lemma {:induction false} RunChained(p: Program, input: Bytes, s: State, n: nat)
    requires Chained(s)
    ensures OutcomeChained(Run(p, input, s, n))
    decreases n
  {
    hide Step, Chained;
    if n > 0 && s.r.Running? {
      StepChained(p, input, s);
      var o := Step(p, input, s);
      if o.Next? {
        if o.s.r.Running? {
          RunChained(p, input, o.s, n - 1);
        } else {
          assert Run(p, input, o.s, n - 1) == o;
        }
      }
    }
  }
}
