/**
  What the two sample programs of the test suite accept, on every input, and what they
  capture.
 */
module Samples {
  import opened Words
  import opened Immediates
  import opened Instructions
  import opened Machine
  import opened MachineInvariants
  import opened Equivalences
  import opened Lookahead
  import opened Captures
  import opened SampleCode

  // ---- one step at a time

  lemma ChoiceStep(p: Program, input: Bytes, s: State, n: int, v: u64, len: nat)
    requires s.r.Running? && s.xp < 0x100 && DecodeOp(p.code, s.xp) == Decoded1(s.xp, CHOICE, v, len) && len < 0x10
    requires 0 <= n < 0x100 && v == n
    ensures Run(p, input, s, 1)
         == Next(s.(xp := s.xp + len, cs := s.cs + [Choice(s.dp, s.xp + len + n, s.ks)]))
  {
    hide DecodeOp, U2S, AddOffset, Step, Run;
    StepAt(p, input, s, Op(s.xp, CHOICE, v, 0, 0, len), s.xp + len);
    OffsetTo(s.xp + len, n, v);
  }

  lemma SameStep(p: Program, input: Bytes, s: State, b: byte)
    requires s.r.Running? && s.xp < 0x100 && DecodeOp(p.code, s.xp) == Decoded1(s.xp, SAMEB, b, 2) && s.dp <= |input|
    ensures Run(p, input, s, 1)
         == Next(if s.dp < |input| && input[s.dp] == b then s.(xp := s.xp + 2, dp := s.dp + 1) else Fail(s.(xp := s.xp + 2)))
  {
    hide DecodeOp, Step, Run, Fail, Machine.MatchN, ToU64;
    StepAt(p, input, s, Op(s.xp, SAMEB, b, 1, 0, 2), s.xp + 2);
    MatchNExact(input, s.dp, {b}, 1);
    NoWrap(s.dp + 1);
    SameByte(b);
    assert s.dp < |input| ==> ((forall k :: s.dp <= k < s.dp + 1 ==> input[k] in {b}) <==> input[s.dp] == b);
  }

  lemma SameByte(b: byte)
    ensures b % 0x100 == b
  {
  }

  lemma AnyStep(p: Program, input: Bytes, s: State)
    requires s.r.Running? && s.xp < 0x100 && DecodeOp(p.code, s.xp) == Decoded0(s.xp, ANYB, 1) && s.dp <= |input|
    ensures Run(p, input, s, 1)
         == Next(if s.dp < |input| then s.(xp := s.xp + 1, dp := s.dp + 1) else Fail(s.(xp := s.xp + 1)))
  {
    hide DecodeOp, Step, Run, Fail, ToU64, Available;
    StepAt(p, input, s, Op(s.xp, ANYB, 1, 0, 0, 1), s.xp + 1);
    AvailableExact(input, s.dp);
    NoWrap(s.dp + 1);
  }

  lemma CaptureStep(p: Program, input: Bytes, s: State, end: bool)
    requires s.r.Running? && s.xp < 0x100 && p.captures > 0
    requires DecodeOp(p.code, s.xp) == Decoded1(s.xp, if end then ECAP else BCAP, 0, 3)
    ensures Run(p, input, s, 1) == Next(s.(xp := s.xp + 3, ks := s.ks + [Assignment(s.dp, 0, end)]))
  {
    hide DecodeOp, Step, Run;
    StepAt(p, input, s, Op(s.xp, if end then ECAP else BCAP, 0, 0, 0, 3), s.xp + 3);
  }

  lemma EndStep(p: Program, input: Bytes, s: State)
    requires s.r.Running? && s.xp < 0x100 && DecodeOp(p.code, s.xp) == Decoded0(s.xp, END, 2)
    ensures Run(p, input, s, 1) == Next(s.(xp := s.xp + 2, r := Success))
  {
    hide DecodeOp, Step, Run;
    StepAt(p, input, s, Op(s.xp, END, 0, 0, 0, 2), s.xp + 2);
  }

  /** Two runs in a row. */
  lemma Then(p: Program, input: Bytes, s: State, n: nat, t: State, m: nat, o: Outcome)
    requires Run(p, input, s, n) == Next(t) && Run(p, input, t, m) == o
    ensures Run(p, input, s, n + m) == o
  {
    RunOn(p, input, s, t, n, m);
  }

  // ---- the end of the input, as both programs test for it

  /** The capture stack's first entry: the whole match begins at zero. */
  const BEGUN: Assignment := Assignment(0, 0, false)

  /** A lookahead's body may be a single `ANYB`: it matches unless the input has ended. */
  lemma AnyBody(p: Program, input: Bytes, s: State, body: u64, alt: u64)
    requires s.r.Running? && body < 0x100 && s.dp <= |input| && DecodeOp(p.code, body) == Decoded0(body, ANYB, 1)
    ensures Finishes(p, input, s, body, alt, 1, body + 1)
    ensures Matched(p, input, s, body, alt, 1, body + 1) <==> s.dp < |input|
  {
    hide DecodeOp, Step, Run, Fail;
    var u := Looking(s, body, alt);
    AnyStep(p, input, u);
    FailRestores(u.(xp := body + 1), s.cs, Guard(s, alt));
    StepAt(p, input, u, Op(body, ANYB, 1, 0, 0, 1), body + 1);
    assert InBody(p, input, Step(p, input, u).s, |s.cs| + 1, 0);
  }

  /**
    `CHOICE l; ANYB; FAIL2X; l: ECAP 0; END`: at the end of the input the match succeeds,
    anywhere else it fails back to what `cs` holds.
   */
  lemma EndOfInput(p: Program, input: Bytes, s: State, l: u64, v: u64) returns (n: nat, t: State)
    requires s.r.Running? && s.xp < 0x80 && l < 0x80 && s.dp <= |input| && p.captures > 0
    requires l == s.xp + 2 + v && v < 0x80
    requires DecodeOp(p.code, s.xp) == Decoded1(s.xp, CHOICE, v, 2)
    requires DecodeOp(p.code, s.xp + 2) == Decoded0(s.xp + 2, ANYB, 1)
    requires DecodeOp(p.code, s.xp + 3) == Decoded0(s.xp + 3, FAIL2X, 2)
    requires DecodeOp(p.code, l) == Decoded1(l, ECAP, 0, 3)
    requires DecodeOp(p.code, l + 3) == Decoded0(l + 3, END, 2)
    ensures Run(p, input, s, n) == Next(t)
    ensures if s.dp == |input| then t == s.(xp := l + 5, ks := s.ks + [Assignment(s.dp, 0, true)], r := Success)
            else SameFailure(t, Fail(s))
  {
    hide DecodeOp, Step, Run, Fail, U2S, AddOffset, Finishes, Matched;
    var body := s.xp + 2;
    AnyBody(p, input, s, body, l);
    OffsetTo(body, v, v);
    n, t := NegativeLookahead(p, input, s, Op(s.xp, CHOICE, v, 0, 0, 2), body, l,
                              Op(body + 1, FAIL2X, 0, 0, 0, 2), body + 1, body + 3, 1);
    if s.dp == |input| {
      CaptureStep(p, input, t, true);
      var s3 := t.(xp := l + 3, ks := s.ks + [Assignment(s.dp, 0, true)]);
      Then(p, input, s, n, t, 1, Next(s3));
      EndStep(p, input, s3);
      t := s3.(xp := l + 5, r := Success);
      Then(p, input, s, n + 1, s3, 1, Next(t));
      n := n + 2;
    }
  }

  // ---- the first program: `.*ana$`

  ghost predicate EndsInAna(input: Bytes) {
    |input| >= 3 && input[|input| - 3..] == [A, N, A]
  }

  /** At the head of the loop, with `d` bytes skipped. */
  function Head1(d: u64): (s: State) { State(d, 3, [BEGUN], [], Running) }

  /** About to skip a byte. */
  function Skip1(d: u64): (s: State) { State(d, 12, [BEGUN], [], Running) }

  /** The outcome of a match that ended in success, with the whole input captured. */
  ghost predicate Accepted1(input: Bytes, t: State) {
    t.r.Success? && t.ks == [BEGUN, Assignment(|input|, 0, true)]
  }

  /** What the first program is made of. */
  ghost predicate Shape1(p: Program) {
    && p.literals == [[A, N, A]] && p.captures == 1
    && DecodeOp(p.code, 0) == Decoded1(0, BCAP, 0, 3)
    && DecodeOp(p.code, 3) == Decoded1(3, CHOICE, 7, 2)
    && DecodeOp(p.code, 5) == Decoded(Op(5, LITB, 0, 0, 0, 2))
    && DecodeOp(p.code, 7) == Decoded1(7, CHOICE, 7, 2)
    && DecodeOp(p.code, 9) == Decoded0(9, ANYB, 1)
    && DecodeOp(p.code, 10) == Decoded0(10, FAIL2X, 2)
    && DecodeOp(p.code, 12) == Decoded0(12, ANYB, 1)
    && DecodeOp(p.code, 13) == Decoded(Op(13, JMP, TWO64 - 13, 0, 0, 3))
    && DecodeOp(p.code, 16) == Decoded1(16, ECAP, 0, 3)
    && DecodeOp(p.code, 19) == Decoded0(19, END, 2)
  }

  lemma Program1Shape()
    ensures Shape1(PROGRAM1)
  {
    hide DecodeOp;
    DecodesLoop1();
    DecodesTail1();
  }

  lemma LitStep1(p: Program, input: Bytes, d: u64) returns (n: nat)
    requires d <= |input| && Shape1(p)
    ensures var hit := d + 3 <= |input| && input[d..d + 3] == [A, N, A];
      Run(p, input, Head1(d), n)
      == Next(if hit then State(d + 3, 7, [BEGUN], [Choice(d, 12, [BEGUN])], Running) else Skip1(d))
  {
    hide DecodeOp, Decoded0, Decoded1, Step, Run, Fail, Machine.MatchLit, ToU64, U2S, AddOffset;
    var s, fr := Head1(d), Choice(d, 12, [BEGUN]);
    ChoiceStep(p, input, s, 7, 7, 2);
    var s1 := s.(xp := 5, cs := [fr]);
    assert s.cs + [fr] == [fr];
    MatchLitExact(input, d, [A, N, A]);
    StepAt(p, input, s1, Op(5, LITB, 0, 0, 0, 2), 7);
    NoWrap(d + 3);
    FailRestores(s1.(xp := 7), [], fr);
    Then(p, input, s, 1, s1, 1, Run(p, input, s1, 1));
    n := 2;
  }

  lemma SkipStep1(p: Program, input: Bytes, d: u64) returns (n: nat)
    requires d < |input| && Shape1(p)
    ensures Run(p, input, Skip1(d), n) == Next(Head1(d + 1))
  {
    hide DecodeOp, Decoded0, Decoded1, Step, Run, Fail, U2S, AddOffset;
    var s := Skip1(d);
    AnyStep(p, input, s);
    var s1 := s.(xp := 13, dp := d + 1);
    StepAt(p, input, s1, Op(13, JMP, TWO64 - 13, 0, 0, 3), 16);
    OffsetTo(16, -13, TWO64 - 13);
    Then(p, input, s, 1, s1, 1, Next(Head1(d + 1)));
    n := 2;
  }

  lemma GiveUp1(p: Program, input: Bytes)
    requires Shape1(p)
    ensures var o := Run(p, input, Skip1(|input|), 1); o.Next? && o.s.r.Failure?
  {
    hide DecodeOp, Decoded0, Decoded1, Step, Run;
    AnyStep(p, input, Skip1(|input|));
  }

  /** From the head of the loop: accept here, or go on to skip a byte. */
  lemma Turn1(p: Program, input: Bytes, d: u64) returns (n: nat, t: State)
    requires d <= |input| && Shape1(p)
    ensures Run(p, input, Head1(d), n) == Next(t)
    ensures if d + 3 == |input| && input[d..] == [A, N, A] then Accepted1(input, t) else t == Skip1(d)
  {
    hide DecodeOp, Decoded0, Decoded1, Step, Run, Fail;
    n := LitStep1(p, input, d);
    if d + 3 <= |input| && input[d..d + 3] == [A, N, A] {
      var fr := Choice(d, 12, [BEGUN]);
      var s := State(d + 3, 7, [BEGUN], [fr], Running);
      var k;
      k, t := EndOfInput(p, input, s, 16, 7);
      FailRestores(s, [], fr);
      Then(p, input, Head1(d), n, s, k, Next(t));
      n := n + k;
      assert input[d..] == input[d..|input|];
    } else {
      t := Skip1(d);
    }
  }

  lemma {:induction false} Loop1(p: Program, input: Bytes, d: u64) returns (n: nat, t: State)
    requires d <= |input| && Shape1(p)
    ensures Run(p, input, Head1(d), n) == Next(t)
    ensures if d + 3 <= |input| && EndsInAna(input) then Accepted1(input, t) else t.r.Failure?
    decreases |input| - d
  {
    hide DecodeOp, Decoded0, Decoded1, Step, Run;
    n, t := Turn1(p, input, d);
    if t == Skip1(d) {
      if d < |input| {
        var k := SkipStep1(p, input, d);
        var m, u := Loop1(p, input, d + 1);
        Then(p, input, Head1(d), n, t, k, Next(Head1(d + 1)));
        Then(p, input, Head1(d), n + k, Head1(d + 1), m, Next(u));
        n, t := n + k + m, u;
      } else {
        GiveUp1(p, input);
        var u := Run(p, input, t, 1).s;
        Then(p, input, Head1(d), n, t, 1, Next(u));
        n, t := n + 1, u;
      }
    }
  }

  /**
    The first sample program halts on every input.  It succeeds exactly on inputs ending in
    "ana", with capture 0 the whole input.
   */
  lemma Sample1Language(input: Bytes) returns (n: nat, t: State)
    ensures Run(PROGRAM1, input, Start(), n) == Next(t)
    ensures t.r == if EndsInAna(input) then Success else Failure
    ensures EndsInAna(input) ==> Events(t.ks, 0) == [Pair(0, |input|)]
  {
    hide Step, Run, Shape1;
    Program1Shape();
    n, t := Match1(PROGRAM1, input);
    WholeMatch(|input|);
  }

  lemma Match1(p: Program, input: Bytes) returns (n: nat, t: State)
    requires Shape1(p)
    ensures Run(p, input, Start(), n) == Next(t)
    ensures if EndsInAna(input) then Accepted1(input, t) else t.r.Failure?
  {
    hide DecodeOp, Decoded0, Decoded1, Step, Run;
    CaptureStep(p, input, Start(), false);
    assert Start().ks + [BEGUN] == [BEGUN];
    n, t := Loop1(p, input, 0);
    Then(p, input, Start(), 1, Head1(0), n, Next(t));
    n := 1 + n;
  }

  lemma WholeMatch(e: u64)
    ensures Events([BEGUN, Assignment(e, 0, true)], 0) == [Pair(0, e)]
  {
    hide Events, OpenStart;
    NothingRecorded();
    assert [] + [BEGUN] == [BEGUN] && [BEGUN] + [Assignment(e, 0, true)] == [BEGUN, Assignment(e, 0, true)];
    RecordOne([], BEGUN, 0);
    RecordOne([BEGUN], Assignment(e, 0, true), 0);
  }

  // ---- the second program: `^b(an)*a$`

  function An(k: nat): (s: seq<byte>)
    ensures |s| == 2 * k
  {
    if k == 0 then [] else An(k - 1) + [A, N]
  }

  /** "b", then "an" `k` times, then "a". */
  function Banana(k: nat): (s: seq<byte>) {
    [B] + An(k) + [A]
  }

  /** The same, position by position. */
  ghost predicate Spelled(input: seq<byte>, k: nat) {
    && |input| == 2 * k + 2 && input[0] == B && input[2 * k + 1] == A
    && SpelledUpTo(input, k)
  }

  ghost predicate SpelledUpTo(input: seq<byte>, k: nat)
    requires 2 * k < |input|
  {
    forall j :: 0 <= j < k ==> PairAt(input, j)
  }

  ghost predicate PairAt(input: seq<byte>, j: nat) {
    2 * j + 2 < |input| && input[2 * j + 1] == A && input[2 * j + 2] == N
  }

  lemma {:induction false} AnSpelled(k: nat, j: nat)
    requires j < k
    ensures An(k)[2 * j] == A && An(k)[2 * j + 1] == N
    decreases k
  {
    if j < k - 1 { AnSpelled(k - 1, j); }
  }

  lemma {:induction false} SpelledIsAn(s: seq<byte>, k: nat)
    requires |s| == 2 * k && forall j :: 0 <= j < k ==> s[2 * j] == A && s[2 * j + 1] == N
    ensures s == An(k)
    decreases k
  {
    if k > 0 {
      var t := s[..2 * k - 2];
      forall j | 0 <= j < k - 1 ensures t[2 * j] == A && t[2 * j + 1] == N {
        assert s[2 * j] == A && s[2 * j + 1] == N;
      }
      SpelledIsAn(t, k - 1);
      assert s[2 * (k - 1)] == A && s[2 * (k - 1) + 1] == N;
      assert s == t + [A, N];
    }
  }

  lemma BananaIsSpelled(input: seq<byte>, k: nat)
    ensures input == Banana(k) <==> Spelled(input, k)
  {
    if input == Banana(k) {
      forall j | 0 <= j < k ensures PairAt(input, j) { AnSpelled(k, j); }
    }
    if Spelled(input, k) {
      var s := input[1..2 * k + 1];
      forall j | 0 <= j < k ensures s[2 * j] == A && s[2 * j + 1] == N { assert PairAt(input, j); }
      SpelledIsAn(s, k);
      assert input == [input[0]] + s + [input[2 * k + 1]];
    }
  }

  /** How the second program's loop ends. */
  ghost predicate LoopEnd2(p: Program) {
    && p.captures == 2
    && DecodeOp(p.code, 11) == Decoded(Op(11, FCAP, 1, 2, 0, 4))
    && DecodeOp(p.code, 15) == Decoded(Op(15, COMMIT, TWO64 - 12, 0, 0, 2))
  }

  /** What the second program is made of. */
  ghost predicate Shape2(p: Program) {
    && LoopEnd2(p)
    && DecodeOp(p.code, 0) == Decoded1(0, BCAP, 0, 3)
    && DecodeOp(p.code, 3) == Decoded1(3, SAMEB, B, 2)
    && DecodeOp(p.code, 5) == Decoded1(5, CHOICE, 10, 2)
    && DecodeOp(p.code, 7) == Decoded1(7, SAMEB, A, 2)
    && DecodeOp(p.code, 9) == Decoded1(9, SAMEB, N, 2)
    && DecodeOp(p.code, 17) == Decoded1(17, SAMEB, A, 2)
    && DecodeOp(p.code, 19) == Decoded1(19, CHOICE, 3, 2)
    && DecodeOp(p.code, 21) == Decoded0(21, ANYB, 1)
    && DecodeOp(p.code, 22) == Decoded0(22, FAIL2X, 2)
    && DecodeOp(p.code, 24) == Decoded1(24, ECAP, 0, 3)
    && DecodeOp(p.code, 27) == Decoded0(27, END, 2)
  }

  lemma Program2Shape()
    ensures Shape2(PROGRAM2)
  {
    hide DecodeOp;
    DecodesEntry2();
    DecodesLoop2();
    DecodesTail2();
  }

  /** The assignments recorded after `i` turns of the loop. */
  function Recorded(i: nat): (ks: seq<Assignment>)
    requires 2 * i + 1 < HIGHBIT
  {
    if i == 0 then [BEGUN]
    else Recorded(i - 1) + [Assignment(2 * i - 1, 1, false)] + [Assignment(2 * i + 1, 1, true)]
  }

  /** At the head of the loop, and after it, with the data pointer at `d`. */
  function Head2(d: u64, ks: seq<Assignment>): (s: State) { State(d, 5, ks, [], Running) }
  function Tail2(d: u64, ks: seq<Assignment>): (s: State) { State(d, 17, ks, [], Running) }

  /** Inside the loop, at `xp`, the data pointer having moved from `d` to `e`. */
  function Body2(xp: u64, d: u64, e: u64, ks: seq<Assignment>): (s: State) {
    State(e, xp, ks, [Choice(d, 17, ks)], Running)
  }

  function Noted(d: u64, ks: seq<Assignment>): (r: seq<Assignment>)
    requires d + 2 < TWO64
  {
    ks + [Assignment(d, 1, false)] + [Assignment(d + 2, 1, true)]
  }

  /** The end of a turn: record the two bytes and commit. */
  lemma CommitTurn2(p: Program, input: Bytes, d: u64, ks: seq<Assignment>) returns (n: nat)
    requires d + 2 <= |input| && LoopEnd2(p)
    ensures Run(p, input, Body2(11, d, d + 2, ks), n) == Next(Head2(d + 2, Noted(d, ks)))
  {
    hide DecodeOp, Step, Run, Noted;
    var s := Body2(11, d, d + 2, ks);
    RecordStep2(p, input, s);
    var s1 := s.(xp := 15, ks := Noted(d, ks));
    CommitStep2(p, input, s1);
    Then(p, input, s, 1, s1, 1, Next(Head2(d + 2, Noted(d, ks))));
    n := 2;
  }

  lemma RecordStep2(p: Program, input: Bytes, s: State)
    requires LoopEnd2(p)
    requires s.r.Running? && s.xp == 11 && 2 <= s.dp
    ensures Run(p, input, s, 1) == Next(s.(xp := 15, ks := Noted(s.dp - 2, s.ks)))
  {
    hide DecodeOp, Step, Run, Plain, Test, Push, Popping, Try, Fail, Jump, SpanEnd;
    StepAt(p, input, s, Op(11, FCAP, 1, 2, 0, 4), 15);
  }

  lemma CommitStep2(p: Program, input: Bytes, s: State)
    requires LoopEnd2(p) && s.r.Running? && s.xp == 15 && |s.cs| == 1 && s.cs[0].Choice?
    ensures Run(p, input, s, 1) == Next(s.(xp := 5, cs := []))
  {
    hide DecodeOp, Decoded0, Decoded1, Step, Run, U2S, AddOffset;
    StepAt(p, input, s, Op(15, COMMIT, TWO64 - 12, 0, 0, 2), 17);
    OffsetTo(17, -12, TWO64 - 12);
    assert s.cs[..0] == [];
  }

  /** A turn's two matches: both hit, or the loop's frame is restored. */
  lemma MatchTurn2(p: Program, input: Bytes, xp: u64, d: u64, e: u64, ks: seq<Assignment>, b: byte)
    requires Shape2(p) && d <= e <= |input| && ((xp == 7 && b == A) || (xp == 9 && b == N))
    ensures Run(p, input, Body2(xp, d, e, ks), 1)
         == Next(if e < |input| && input[e] == b then Body2(xp + 2, d, e + 1, ks) else Tail2(d, ks))
  {
    hide DecodeOp, Decoded0, Decoded1, Step, Run, Fail;
    var s := Body2(xp, d, e, ks);
    SameStep(p, input, s, b);
    FailRestores(s.(xp := xp + 2), [], Choice(d, 17, ks));
  }

  lemma EnterLoop2(p: Program, input: Bytes, d: u64, ks: seq<Assignment>)
    requires Shape2(p)
    ensures Run(p, input, Head2(d, ks), 1) == Next(Body2(7, d, d, ks))
  {
    hide DecodeOp, Decoded0, Decoded1, Step, Run;
    ChoiceStep(p, input, Head2(d, ks), 10, 10, 2);
    assert [] + [Choice(d, 17, ks)] == [Choice(d, 17, ks)];
  }

  lemma ShapeLoopEnd2(p: Program)
    requires Shape2(p)
    ensures LoopEnd2(p)
  {
  }

  /** One turn: another "an", or on to the tail with nothing changed. */
  lemma Turn2(p: Program, input: Bytes, d: u64, ks: seq<Assignment>) returns (n: nat)
    requires Shape2(p) && d <= |input|
    ensures Run(p, input, Head2(d, ks), n)
         == Next(if d + 1 < |input| && input[d] == A && input[d + 1] == N then Head2(d + 2, Noted(d, ks)) else Tail2(d, ks))
  {
    hide DecodeOp, Decoded0, Decoded1, Step, Run, Fail, Shape2, Head2, Tail2, Body2, Noted;
    var s := Head2(d, ks);
    EnterLoop2(p, input, d, ks);
    MatchTurn2(p, input, 7, d, d, ks, A);
    Then(p, input, s, 1, Body2(7, d, d, ks), 1, Run(p, input, Body2(7, d, d, ks), 1));
    n := 2;
    if d < |input| && input[d] == A {
      MatchTurn2(p, input, 9, d, d + 1, ks, N);
      Then(p, input, s, 2, Body2(9, d, d + 1, ks), 1, Run(p, input, Body2(9, d, d + 1, ks), 1));
      n := 3;
      if d + 1 < |input| && input[d + 1] == N {
        ShapeLoopEnd2(p);
        var m := CommitTurn2(p, input, d, ks);
        Then(p, input, s, 3, Body2(11, d, d + 2, ks), m, Next(Head2(d + 2, Noted(d, ks))));
        n := 3 + m;
      }
    }
  }

  ghost predicate Accepted2(input: Bytes, k: nat, t: State) {
    Spelled(input, k) && t.r.Success? && 2 * k + 1 < HIGHBIT && t.ks == Recorded(k) + [Assignment(|input|, 0, true)]
  }

  lemma FailEmpty(s: State)
    requires s.cs == []
    ensures Fail(s).r.Failure?
  {
  }

  /** After the loop: one "a", and nothing more. */
  lemma Finish2(p: Program, input: Bytes, d: u64, ks: seq<Assignment>) returns (n: nat, t: State)
    requires Shape2(p) && d <= |input|
    ensures Run(p, input, Tail2(d, ks), n) == Next(t)
    ensures if |input| == d + 1 && input[d] == A
            then t.r.Success? && t.ks == ks + [Assignment(|input|, 0, true)] else t.r.Failure?
  {
    hide DecodeOp, Decoded0, Decoded1, Step, Run, Fail;
    var s := Tail2(d, ks);
    SameStep(p, input, s, A);
    FailEmpty(s.(xp := 19));
    if d < |input| && input[d] == A {
      var s1 := s.(xp := 19, dp := d + 1);
      var k;
      k, t := EndOfInput(p, input, s1, 24, 3);
      FailEmpty(s1);
      Then(p, input, s, 1, s1, k, Next(t));
      n := 1 + k;
    } else {
      n, t := 1, Fail(s.(xp := 19));
    }
  }

  lemma NoneSpelled(input: Bytes, i: nat)
    requires 2 * i + 1 <= |input| && SpelledUpTo(input, i) && !PairAt(input, i)
    requires !(|input| == 2 * i + 2 && input[2 * i + 1] == A)
    ensures forall j: nat :: !Spelled(input, j)
  {
    forall j: nat ensures !Spelled(input, j) {
      if j > i && |input| == 2 * j + 2 {
        assert !SpelledUpTo(input, j);
      }
    }
  }

  /** From the loop's end: this is the only turn the input can end after. */
  lemma Ending2(p: Program, input: Bytes, i: nat) returns (n: nat, t: State)
    requires Shape2(p) && 2 * i + 1 <= |input| && input[0] == B && SpelledUpTo(input, i) && !PairAt(input, i)
    ensures Run(p, input, Tail2(2 * i + 1, Recorded(i)), n) == Next(t)
    ensures Accepted2(input, i, t) || (t.r.Failure? && forall j: nat :: !Spelled(input, j))
  {
    hide Run, Shape2, Tail2;
    n, t := Finish2(p, input, 2 * i + 1, Recorded(i));
    if !(|input| == 2 * i + 2 && input[2 * i + 1] == A) {
      NoneSpelled(input, i);
    }
  }

  lemma {:induction false} Loop2(p: Program, input: Bytes, i: nat) returns (n: nat, t: State, k: nat)
    requires Shape2(p) && 2 * i + 1 <= |input| && input[0] == B && SpelledUpTo(input, i)
    ensures Run(p, input, Head2(2 * i + 1, Recorded(i)), n) == Next(t)
    ensures Accepted2(input, k, t) || (t.r.Failure? && forall j: nat :: !Spelled(input, j))
    decreases |input| - i
  {
    hide DecodeOp, Decoded0, Decoded1, Step, Run, Fail, Shape2, Head2, Tail2;
    var s := Head2(2 * i + 1, Recorded(i));
    n := Turn2(p, input, 2 * i + 1, Recorded(i));
    if PairAt(input, i) {
      assert Noted(2 * i + 1, Recorded(i)) == Recorded(i + 1);
      var m;
      m, t, k := Loop2(p, input, i + 1);
      Then(p, input, s, n, Head2(2 * i + 3, Recorded(i + 1)), m, Next(t));
      n := n + m;
    } else {
      var m;
      m, t := Ending2(p, input, i);
      Then(p, input, s, n, Tail2(2 * i + 1, Recorded(i)), m, Next(t));
      n, k := n + m, i;
    }
  }

  lemma Match2(p: Program, input: Bytes) returns (n: nat, t: State, k: nat)
    requires Shape2(p)
    ensures Run(p, input, Start(), n) == Next(t)
    ensures Accepted2(input, k, t) || (t.r.Failure? && forall j: nat :: !Spelled(input, j))
  {
    hide DecodeOp, Decoded0, Decoded1, Step, Run, Fail;
    CaptureStep(p, input, Start(), false);
    var s1 := State(0, 3, [BEGUN], [], Running);
    assert Start().ks + [BEGUN] == [BEGUN];
    SameStep(p, input, s1, B);
    FailEmpty(s1.(xp := 5));
    if 0 < |input| && input[0] == B {
      Then(p, input, Start(), 1, s1, 1, Next(Head2(1, Recorded(0))));
      n, t, k := Loop2(p, input, 0);
      Then(p, input, Start(), 2, Head2(1, Recorded(0)), n, Next(t));
      n := 2 + n;
    } else {
      Then(p, input, Start(), 1, s1, 1, Next(Fail(s1.(xp := 5))));
      n, t, k := 2, Fail(s1.(xp := 5)), 0;
    }
  }

  // ---- what the second program captures

  /** The pairs of capture 1 after `k` turns. */
  function Pairs(k: nat): (r: seq<Pair>)
    requires 2 * k + 1 < HIGHBIT
    ensures |r| == k && forall i :: 0 <= i < k ==> r[i] == Pair(1 + 2 * i, 3 + 2 * i)
  {
    if k == 0 then [] else Pairs(k - 1) + [Pair(2 * k - 1, 2 * k + 1)]
  }

  lemma {:induction false} RecordedEvents(k: nat)
    requires 2 * k + 1 < HIGHBIT
    ensures Events(Recorded(k), 0) == [] && OpenStart(Recorded(k), 0) == 0
    ensures Events(Recorded(k), 1) == Pairs(k)
  {
    hide Events, OpenStart;
    if k == 0 {
      NothingRecorded();
      assert [] + [BEGUN] == [BEGUN];
      RecordOne([], BEGUN, 0);
      RecordOne([], BEGUN, 1);
    } else {
      RecordedEvents(k - 1);
      var before, s, e := Recorded(k - 1), Assignment(2 * k - 1, 1, false), Assignment(2 * k + 1, 1, true);
      RecordOne(before, s, 0);
      RecordOne(before, s, 1);
      RecordOne(before + [s], e, 0);
      RecordOne(before + [s], e, 1);
    }
  }

  lemma NothingRecorded()
    ensures forall c: nat :: Events([], c) == [] && OpenStart([], c) == 0
  {
  }

  lemma AcceptedEvents(k: nat, e: u64)
    requires 2 * k + 1 < HIGHBIT
    ensures var ks := Recorded(k) + [Assignment(e, 0, true)];
      Events(ks, 0) == [Pair(0, e)] && Events(ks, 1) == Pairs(k)
  {
    hide Events, OpenStart;
    RecordedEvents(k);
    RecordOne(Recorded(k), Assignment(e, 0, true), 0);
    RecordOne(Recorded(k), Assignment(e, 0, true), 1);
  }

  /**
    The second sample program halts on every input.  It succeeds exactly on "b", "an" any
    number of times, "a"; capture 0 is then the whole input, and capture 1 has one event for
    each "an", in order.
   */
  lemma Sample2Language(input: Bytes) returns (n: nat, t: State)
    ensures Run(PROGRAM2, input, Start(), n) == Next(t)
    ensures t.r == if exists k: nat :: input == Banana(k) then Success else Failure
    ensures forall k: nat :: input == Banana(k) ==>
              2 * k + 1 < HIGHBIT && Events(t.ks, 0) == [Pair(0, |input|)] && Events(t.ks, 1) == Pairs(k)
  {
    hide Step, Run, Shape2, Banana;
    Program2Shape();
    var k;
    n, t, k := Match2(PROGRAM2, input);
    forall j: nat ensures input == Banana(j) <==> Spelled(input, j) { BananaIsSpelled(input, j); }
    if Accepted2(input, k, t) {
      AcceptedEvents(k, |input|);
    }
  }
}
