/**
  From the stack of capture assignments to the captures a match reports (`peggyvm/program.go`).
 */
module Captures {
  import opened Words
  import opened Immediates
  import opened Instructions
  import opened Machine
  import opened MachineInvariants

  datatype Pair = Pair(s: u64, e: u64)

  datatype Capture = Capture(exists_: bool, solo: Pair, multi: seq<Pair>)

  // ---- what is reported

  /** The start that an end assignment of capture `c` would close after `ks`: zero if none is open. */
  function OpenStart(ks: seq<Assignment>, c: nat): (r: u64) {
    if ks == [] then 0
    else
      var a := ks[|ks| - 1];
      if a.index != c then OpenStart(ks[..|ks| - 1], c)
      else if a.isEnd then 0 else a.dp
  }

  /** Every event of capture `c`, oldest first. */
  function Events(ks: seq<Assignment>, c: nat): (r: seq<Pair>) {
    if ks == [] then []
    else
      var a, before := ks[|ks| - 1], ks[..|ks| - 1];
      if a.index == c && a.isEnd then Events(before, c) + [Pair(OpenStart(before, c), a.dp)]
      else Events(before, c)
  }

  /** What one more assignment adds. */
  lemma RecordOne(ks: seq<Assignment>, a: Assignment, c: nat)
    ensures OpenStart(ks + [a], c) == if a.index != c then OpenStart(ks, c) else if a.isEnd then 0 else a.dp
    ensures Events(ks + [a], c)
         == if a.index == c && a.isEnd then Events(ks, c) + [Pair(OpenStart(ks, c), a.dp)] else Events(ks, c)
  {
    assert (ks + [a])[..|ks|] == ks;
  }

  /** The capture reported for a list of events. */
  function Summary(events: seq<Pair>): (r: Capture) {
    if events == [] then Capture(false, Pair(0, 0), [])
    else Capture(true, events[|events| - 1], events)
  }

  // ---- the same, by position

  predicate EndsHere(a: Assignment, c: nat) { a.index == c && a.isEnd }
  predicate StartsHere(a: Assignment, c: nat) { a.index == c && !a.isEnd }

  /** `pos` lists, in order, the positions of all end assignments of capture `c`. */
  ghost predicate EndsAt(ks: seq<Assignment>, c: nat, pos: seq<nat>) {
    && (forall j :: 0 <= j < |pos| ==> pos[j] < |ks| && EndsHere(ks[pos[j]], c))
    && (forall i, j :: 0 <= i < j < |pos| ==> pos[i] < pos[j])
    && (forall i :: 0 <= i < |ks| && EndsHere(ks[i], c) ==> i in pos)
  }

  /** `v` is the last start of capture `c` recorded from `lo` up to `hi`, or zero if there is none. */
  ghost predicate StartedAt(ks: seq<Assignment>, c: nat, lo: nat, hi: nat, v: u64)
    requires hi <= |ks|
  {
    if exists q :: lo <= q < hi && StartsHere(ks[q], c)
    then exists q :: lo <= q < hi && StartsHere(ks[q], c) && ks[q].dp == v
                     && forall r :: q < r < hi ==> !StartsHere(ks[r], c)
    else v == 0
  }

  /** The position after the end before the `j`-th. */
  function After(pos: seq<nat>, j: nat): (r: nat)
    requires j <= |pos|
  {
    if j == 0 then 0 else pos[j - 1] + 1
  }

  /** The `j`-th pair ends at the `j`-th end, and starts at the last start since the end before. */
  ghost predicate PairAt(ks: seq<Assignment>, c: nat, pos: seq<nat>, j: nat, pair: Pair)
    requires j < |pos|
  {
    pos[j] < |ks| && pair.e == ks[pos[j]].dp && StartedAt(ks, c, After(pos, j), pos[j], pair.s)
  }

  ghost predicate PairsAt(ks: seq<Assignment>, c: nat, pos: seq<nat>, pairs: seq<Pair>) {
    |pairs| == |pos| && forall j :: 0 <= j < |pos| ==> PairAt(ks, c, pos, j, pairs[j])
  }

  /** One pair for each end assignment. */
  ghost predicate Paired(ks: seq<Assignment>, c: nat, pos: seq<nat>, pairs: seq<Pair>) {
    EndsAt(ks, c, pos) && PairsAt(ks, c, pos, pairs)
  }

  /**
    What a capture must report: whether any end was recorded, a pair for each, and by itself
    the last of them.
   */
  ghost predicate Reports(ks: seq<Assignment>, c: nat, cap: Capture) {
    && (cap.exists_ <==> exists i :: 0 <= i < |ks| && EndsHere(ks[i], c))
    && (exists pos :: Paired(ks, c, pos, cap.multi))
    && cap.solo == if cap.multi == [] then Pair(0, 0) else cap.multi[|cap.multi| - 1]
  }

  lemma StartedSnoc(ks: seq<Assignment>, a: Assignment, c: nat, lo: nat, v: u64)
    requires StartedAt(ks, c, lo, |ks|, v) && lo <= |ks|
    ensures StartedAt(ks + [a], c, lo, |ks| + 1, if StartsHere(a, c) then a.dp else v)
  {
    var all := ks + [a];
    assert forall r :: 0 <= r < |ks| ==> all[r] == ks[r];
    if StartsHere(a, c) {
      assert StartsHere(all[|ks|], c);
    }
  }

  lemma StartedPrefix(ks: seq<Assignment>, a: Assignment, c: nat, lo: nat, hi: nat, v: u64)
    requires hi <= |ks| && StartedAt(ks, c, lo, hi, v)
    ensures StartedAt(ks + [a], c, lo, hi, v)
  {
    var all := ks + [a];
    assert forall r :: 0 <= r < |ks| ==> all[r] == ks[r];
  }

  lemma EndsSnoc(ks: seq<Assignment>, a: Assignment, c: nat, pos: seq<nat>)
    requires EndsAt(ks, c, pos)
    ensures EndsAt(ks + [a], c, if EndsHere(a, c) then pos + [|ks|] else pos)
  {
    var all := ks + [a];
    assert forall r :: 0 <= r < |ks| ==> all[r] == ks[r];
    var p := if EndsHere(a, c) then pos + [|ks|] else pos;
    forall i | 0 <= i < |all| && EndsHere(all[i], c) ensures i in p {
      if i < |ks| { assert i in pos; } else { assert p[|pos|] == i; }
    }
  }

  /** The events are the pairs, one for each end assignment. */
  lemma {:induction false} EventsPaired(ks: seq<Assignment>, c: nat) returns (pos: seq<nat>)
    ensures Paired(ks, c, pos, Events(ks, c))
    ensures After(pos, |pos|) <= |ks| && StartedAt(ks, c, After(pos, |pos|), |ks|, OpenStart(ks, c))
    decreases |ks|
  {
    hide EndsAt, StartedAt;
    if ks == [] {
      pos := [];
      NothingPaired(c);
    } else {
      var before, a := ks[..|ks| - 1], ks[|ks| - 1];
      pos := EventsPaired(before, c);
      assert before + [a] == ks;
      PairedNext(before, a, c, pos);
      if EndsHere(a, c) { pos := pos + [|before|]; }
    }
  }

  lemma NothingPaired(c: nat)
    ensures EndsAt([], c, []) && StartedAt([], c, 0, 0, 0)
  {
  }

  lemma PairsPrefix(ks: seq<Assignment>, a: Assignment, c: nat, pos: seq<nat>, pairs: seq<Pair>)
    requires PairsAt(ks, c, pos, pairs)
    ensures PairsAt(ks + [a], c, pos, pairs)
  {
    hide StartedAt;
    forall j | 0 <= j < |pos| ensures PairAt(ks + [a], c, pos, j, pairs[j]) {
      assert PairAt(ks, c, pos, j, pairs[j]);
      StartedPrefix(ks, a, c, After(pos, j), pos[j], pairs[j].s);
    }
  }

  lemma PairsSnoc(ks: seq<Assignment>, c: nat, pos: seq<nat>, pairs: seq<Pair>, h: nat, pair: Pair)
    requires PairsAt(ks, c, pos, pairs) && h < |ks| && pair.e == ks[h].dp
    requires StartedAt(ks, c, After(pos, |pos|), h, pair.s)
    ensures PairsAt(ks, c, pos + [h], pairs + [pair])
  {
    hide StartedAt;
    forall j | 0 <= j < |pos| ensures PairAt(ks, c, pos + [h], j, pairs[j]) {
      assert PairAt(ks, c, pos, j, pairs[j]);
    }
    assert PairAt(ks, c, pos + [h], |pos|, pair);
  }

  lemma PairedNext(ks: seq<Assignment>, a: Assignment, c: nat, pos: seq<nat>)
    requires Paired(ks, c, pos, Events(ks, c)) && After(pos, |pos|) <= |ks|
    requires StartedAt(ks, c, After(pos, |pos|), |ks|, OpenStart(ks, c))
    ensures var all, p := ks + [a], if EndsHere(a, c) then pos + [|ks|] else pos;
      && Paired(all, c, p, Events(all, c)) && After(p, |p|) <= |all|
      && StartedAt(all, c, After(p, |p|), |all|, OpenStart(all, c))
  {
    hide EndsAt, StartedAt, Events, OpenStart, PairsAt;
    var all, events := ks + [a], Events(ks, c);
    RecordOne(ks, a, c);
    EndsSnoc(ks, a, c, pos);
    PairsPrefix(ks, a, c, pos, events);
    if EndsHere(a, c) {
      StartedPrefix(ks, a, c, After(pos, |pos|), |ks|, OpenStart(ks, c));
      PairsSnoc(all, c, pos, events, |ks|, Pair(OpenStart(ks, c), a.dp));
      NoneStarted(all, c, |all|);
    } else {
      StartedSnoc(ks, a, c, After(pos, |pos|), OpenStart(ks, c));
    }
  }

  lemma NoneStarted(ks: seq<Assignment>, c: nat, lo: nat)
    requires lo == |ks|
    ensures StartedAt(ks, c, lo, |ks|, 0)
  {
  }

  lemma SomeEnd(ks: seq<Assignment>, c: nat, pos: seq<nat>)
    requires EndsAt(ks, c, pos)
    ensures pos != [] <==> exists i :: 0 <= i < |ks| && EndsHere(ks[i], c)
  {
    if pos != [] {
      assert EndsHere(ks[pos[0]], c);
    }
  }

  lemma SummaryReports(ks: seq<Assignment>, c: nat)
    ensures Reports(ks, c, Summary(Events(ks, c)))
  {
    hide StartedAt, EndsAt, Events;
    var pos := EventsPaired(ks, c);
    SomeEnd(ks, c, pos);
    assert Paired(ks, c, pos, Summary(Events(ks, c)).multi);
  }

  // ---- and there is only one way to report them

  lemma {:induction false} EndsAgree(ks: seq<Assignment>, c: nat, p: seq<nat>, q: seq<nat>, j: nat)
    requires EndsAt(ks, c, p) && EndsAt(ks, c, q) && j < |p|
    ensures j < |q| && q[j] == p[j]
    decreases j
  {
    forall i | 0 <= i < j ensures i < |q| && q[i] == p[i] { EndsAgree(ks, c, p, q, i); }
    assert EndsHere(ks[p[j]], c);
    assert p[j] in q;
    var m :| 0 <= m < |q| && q[m] == p[j];
    assert m >= j;
    assert EndsHere(ks[q[j]], c);
    assert q[j] in p;
    var l :| 0 <= l < |p| && p[l] == q[j];
    assert l >= j;
  }

  lemma EndsUnique(ks: seq<Assignment>, c: nat, p: seq<nat>, q: seq<nat>)
    requires EndsAt(ks, c, p) && EndsAt(ks, c, q)
    ensures p == q
  {
    hide EndsAt;
    forall j | 0 <= j < |p| ensures j < |q| && q[j] == p[j] { EndsAgree(ks, c, p, q, j); }
    forall j | 0 <= j < |q| ensures j < |p| && p[j] == q[j] { EndsAgree(ks, c, q, p, j); }
    if |p| > 0 { EndsAgree(ks, c, p, q, |p| - 1); }
    if |q| > 0 { EndsAgree(ks, c, q, p, |q| - 1); }
  }

  lemma StartUnique(ks: seq<Assignment>, c: nat, lo: nat, hi: nat, v: u64, w: u64)
    requires hi <= |ks| && StartedAt(ks, c, lo, hi, v) && StartedAt(ks, c, lo, hi, w)
    ensures v == w
  {
  }

  /** What is recorded decides what is reported. */
  lemma ReportsUnique(ks: seq<Assignment>, c: nat, x: Capture, y: Capture)
    requires Reports(ks, c, x) && Reports(ks, c, y)
    ensures x == y
  {
    hide EndsAt, StartedAt, After;
    var p :| Paired(ks, c, p, x.multi);
    var q :| Paired(ks, c, q, y.multi);
    EndsUnique(ks, c, p, q);
    forall j | 0 <= j < |p| ensures x.multi[j] == y.multi[j] {
      assert PairAt(ks, c, p, j, x.multi[j]) && PairAt(ks, c, p, j, y.multi[j]);
      StartUnique(ks, c, After(p, j), p[j], x.multi[j].s, y.multi[j].s);
    }
  }

  // ---- the loop

  /** `Match`'s loop over the assignments; `None` is the panic "capture out of range". */
  method Collect(ks: seq<Assignment>, count: nat) returns (r: Option<seq<Capture>>)
    ensures r.Some? <==> forall a :: a in ks ==> a.index < count
    ensures r.Some? ==> |r.value| == count
                        && forall c :: 0 <= c < count ==>
                             r.value[c] == Summary(Events(ks, c)) && Reports(ks, c, r.value[c])
  {
    hide Reports;
    var captures := seq(count, _ => Capture(false, Pair(0, 0), []));
    var pending: seq<u64> := seq(count, _ => 0);
    for i := 0 to |ks|
      invariant |captures| == |pending| == count
      invariant forall a :: a in ks[..i] ==> a.index < count
      invariant forall c :: 0 <= c < count ==> pending[c] == OpenStart(ks[..i], c)
      invariant forall c :: 0 <= c < count ==> captures[c] == Summary(Events(ks[..i], c))
    {
      var a := ks[i];
      assert ks[..i + 1][..i] == ks[..i];
      if a.index >= count {
        assert a in ks;
        return None;
      }
      if a.isEnd {
        var pair := Pair(pending[a.index], a.dp);
        captures := captures[a.index := Capture(true, pair, captures[a.index].multi + [pair])];
        pending := pending[a.index := 0];
      } else {
        pending := pending[a.index := a.dp];
      }
    }
    assert ks[..|ks|] == ks;
    forall c | 0 <= c < count ensures Reports(ks, c, captures[c]) { SummaryReports(ks, c); }
    r := Some(captures);
  }

  // ---- captures are well formed

  /** An end is recorded at or after every position recorded before it. */
  ghost predicate EndsOrdered(ks: seq<Assignment>) {
    forall i, j :: 0 <= i < j < |ks| && ks[j].isEnd ==> ks[i].dp <= ks[j].dp
  }

  ghost predicate UpTo(ks: seq<Assignment>, dp: u64) {
    forall a :: a in ks ==> a.dp <= dp
  }

  ghost predicate FrameOrdered(fr: Frame) {
    fr.Choice? ==> EndsOrdered(fr.ks) && UpTo(fr.ks, fr.dp)
  }

  /** No live assignment lies beyond the data pointer it was saved with. */
  ghost predicate Ordered(s: State) {
    && EndsOrdered(s.ks)
    && UpTo(s.ks, s.dp)
    && forall fr :: fr in s.cs ==> FrameOrdered(fr)
  }

  lemma {:induction false} OpenStartBelow(ks: seq<Assignment>, c: nat, dp: u64)
    requires UpTo(ks, dp)
    ensures OpenStart(ks, c) <= dp
    decreases |ks|
  {
    if ks != [] {
      assert ks[|ks| - 1] in ks;
      assert forall a :: a in ks[..|ks| - 1] ==> a in ks;
      OpenStartBelow(ks[..|ks| - 1], c, dp);
    }
  }

  /** Ordered assignments report pairs that start no later than they end, inside the input. */
  lemma {:induction false} EventsWellFormed(ks: seq<Assignment>, c: nat, limit: u64)
    requires EndsOrdered(ks) && UpTo(ks, limit)
    ensures forall e :: e in Events(ks, c) ==> e.s <= e.e <= limit
    decreases |ks|
  {
    if ks != [] {
      var a, before := ks[|ks| - 1], ks[..|ks| - 1];
      assert forall b :: b in before ==> b in ks;
      EventsWellFormed(before, c, limit);
      if a.isEnd {
        assert UpTo(before, a.dp) by {
          forall b | b in before ensures b.dp <= a.dp {
            var i :| 0 <= i < |before| && before[i] == b;
            assert ks[i] == b;
          }
        }
        OpenStartBelow(before, c, a.dp);
      }
    }
  }

  ghost predicate OutcomeOrdered(o: Outcome) {
    o.Panic? || Ordered(o.s)
  }

  lemma UpToGrows(ks: seq<Assignment>, a: u64, b: u64)
    requires UpTo(ks, a) && a <= b
    ensures UpTo(ks, b)
  {
  }

  lemma {:induction false} FailOrdered(s: State)
    requires Ordered(s)
    ensures Ordered(Fail(s))
    decreases |s.cs|
  {
    if s.cs != [] {
      var fr, rest := s.cs[|s.cs| - 1], s.cs[..|s.cs| - 1];
      assert fr in s.cs;
      if fr.Call? {
        FailOrdered(s.(cs := rest));
      }
    }
  }

  lemma PoppingOrdered(s: State, op: Op)
    requires Ordered(s)
    ensures OutcomeOrdered(Popping(s, op))
  {
    hide Fail, AddOffset, U2S;
    if s.cs != [] {
      var fr, t := s.cs[|s.cs| - 1], s.(cs := s.cs[..|s.cs| - 1]);
      assert fr in s.cs;
      FailOrdered(t);
    }
  }

  lemma RecordOrdered(p: Program, s: State, op: Op)
    requires Ordered(s)
    ensures OutcomeOrdered(Record(p, s, op))
  {
    var o := Record(p, s, op);
    if o.Next? {
      forall i, j | 0 <= i < j < |o.s.ks| && o.s.ks[j].isEnd
        ensures o.s.ks[i].dp <= o.s.ks[j].dp
      {
        if j < |s.ks| {
          assert o.s.ks[i] == s.ks[i] && o.s.ks[j] == s.ks[j];
        } else if i < |s.ks| {
          assert o.s.ks[i] == s.ks[i] && s.ks[i] in s.ks;
        }
      }
    }
  }

  lemma PushOrdered(s: State, op: Op)
    requires Ordered(s)
    ensures OutcomeOrdered(Push(s, op))
  {
    hide AddOffset, U2S;
  }

  lemma MatchingOrdered(p: Program, input: Bytes, s: State, op: Op, how: Matching)
    requires Ordered(s) && s.dp <= |input|
    ensures OutcomeOrdered(Plain(s, Try(p, input, s.dp, how)))
    ensures OutcomeOrdered(Test(s, Try(p, input, s.dp, how), op))
  {
    hide Try, Fail, AddOffset, U2S;
    TryInBounds(p, input, s.dp, how);
    FailOrdered(s);
    var r := Try(p, input, s.dp, how);
    if r.Hit? {
      UpToGrows(s.ks, s.dp, s.dp + r.n);
      assert ToU64(s.dp + r.n) == s.dp + r.n;
    }
  }

  lemma StepOrdered(p: Program, input: Bytes, s: State)
    requires Ordered(s) && s.dp <= |input|
    requires var d := DecodeOp(p.code, s.xp); d.Decoded? ==> !d.op.code.RWNDB?
    ensures OutcomeOrdered(Step(p, input, s))
  {
    hide Push, Plain, Test, Popping, Record, Fail, Try, DecodeOp, AddOffset, U2S;
    match DecodeOp(p.code, s.xp) {
      case Decoded(op) =>
        var s1 := s.(xp := s.xp + op.len);
        assert Ordered(s1);
        FailOrdered(s1);
        PushOrdered(s1, op);
        PoppingOrdered(s1, op);
        RecordOrdered(p, s1, op);
        if MatchingOf(op).Some? {
          MatchingOrdered(p, input, s1, op, MatchingOf(op).value);
        }
        if op.code.SPANB? && op.imm0 < |p.byteSets| {
          UpToGrows(s1.ks, s1.dp, SpanEnd(input, s1.dp, p.byteSets[op.imm0]));
        }
      case _ =>
    }
  }

  /** None of the first `n` steps from `s` executes `RWNDB`. */
  ghost predicate NoRewind(p: Program, input: Bytes, s: State, n: nat)
    decreases n
  {
    n > 0 && s.r.Running? ==>
      && (var d := DecodeOp(p.code, s.xp); d.Decoded? ==> !d.op.code.RWNDB?)
      && (Step(p, input, s).Next? ==> NoRewind(p, input, Step(p, input, s).s, n - 1))
  }

  lemma {:induction false} RunOrdered(p: Program, input: Bytes, s: State, n: nat)
    requires Ordered(s) && InBounds(p, input, s) && NoRewind(p, input, s, n)
    ensures OutcomeOrdered(Run(p, input, s, n))
    decreases n
  {
    hide Step, Ordered, DecodeOp;
    if n > 0 && s.r.Running? {
      StepOrdered(p, input, s);
      StepInBounds(p, input, s);
      var o := Step(p, input, s);
      if o.Next? {
        RunOrdered(p, input, o.s, n - 1);
      }
    }
  }

  /**
    Whatever a run that never rewinds has recorded, every reported pair starts no later than
    it ends and lies inside the input.
   */
  lemma CapturesWellFormed(p: Program, input: Bytes, n: nat, t: State, c: nat)
    requires NoRewind(p, input, Start(), n)
    requires Run(p, input, Start(), n) == Next(t)
    ensures forall a :: a in t.ks ==> a.index < p.captures
    ensures forall e :: e in Events(t.ks, c) ==> 0 <= e.s <= e.e <= |input|
  {
    RunOrdered(p, input, Start(), n);
    RunInBounds(p, input, Start(), n);
    EventsWellFormed(t.ks, c, |input|);
  }

  /** A run that ends in failure or in an error reports no capture at all. */
  ghost predicate NothingUnlessSuccess(s: State) {
    s.r.Failure? || s.r.Broken? ==> s.ks == []
  }

  lemma {:induction false} FailReportsNothing(s: State)
    requires s.r.Running?
    ensures NothingUnlessSuccess(Fail(s))
    decreases |s.cs|
  {
    if s.cs != [] && s.cs[|s.cs| - 1].Call? {
      FailReportsNothing(s.(cs := s.cs[..|s.cs| - 1]));
    }
  }

  lemma StepReportsNothing(p: Program, input: Bytes, s: State)
    requires s.r.Running?
    ensures var o := Step(p, input, s); o.Panic? || NothingUnlessSuccess(o.s)
  {
    hide Fail, Try, DecodeOp, AddOffset, U2S;
    match DecodeOp(p.code, s.xp) {
      case Decoded(op) =>
        var s1 := s.(xp := s.xp + op.len);
        FailReportsNothing(s1);
        if s1.cs != [] {
          FailReportsNothing(s1.(cs := s1.cs[..|s1.cs| - 1]));
        }
      case _ =>
    }
  }

  lemma {:induction false} UnsuccessfulReportsNothing(p: Program, input: Bytes, s: State, n: nat, c: nat)
    requires NothingUnlessSuccess(s)
    ensures var o := Run(p, input, s, n);
      !o.Panic? && (o.s.r.Failure? || o.s.r.Broken?) ==> Summary(Events(o.s.ks, c)) == Capture(false, Pair(0, 0), [])
    decreases n
  {
    hide Step;
    if n > 0 && s.r.Running? {
      StepReportsNothing(p, input, s);
      var o := Step(p, input, s);
      if o.Next? {
        UnsuccessfulReportsNothing(p, input, o.s, n - 1, c);
      }
    }
  }
}
