/**
  The assembler's last-resort pass over the branches relaxation left pending, and exactly
  when every branch then lands on its label.
 */
module LastResort {
  import opened Words
  import opened Immediates
  import opened Instructions
  import opened Assembly
  import opened Relaxation

  /** Every pending item is exactly as long as its distance needs. */
  ghost predicate Settled(src: seq<Line>, items: seq<Item>) {
    && Relaxing(src, items)
    && AllExact(src, items)
    && forall p :: 0 <= p < |src| && Pending(items[p]) ==> SettledAt(src, items, p)
  }

  ghost predicate SettledAt(src: seq<Line>, items: seq<Item>, p: nat)
    requires p < |src| == |items|
  {
    src[p].OpLine? && src[p].ref.Some? && src[p].ref.value < |src|
    && Need(src[p].instr, Offset64(DistanceOf(src, items, p))) == items[p].maxLength
  }

  /** The item as the last resort leaves it, given the distance it measured. */
  function Forced(it: Item, backward: bool, n: i64): (r: Item) {
    var aimed := ApplyFixup(it, n);
    var bumped := ApplyFixup(it, Offset64(n + 1));
    if backward && |EncodeOp(bumped.instr)| != |EncodeOp(aimed.instr)| then Generate(bumped) else Generate(aimed)
  }

  /** One iteration of the pass: item `i`, if it is still pending, is given its final offset. */
  function Visit(items: seq<Item>, i: nat): (r: seq<Item>)
    requires i < |items|
    ensures |r| == |items|
  {
    var it := items[i];
    if it.fixed || it.blockedBy.None? || it.blockedBy.value >= |items| then items
    else
      var q := it.blockedBy.value;
      items[i := Forced(it, i > q, Offset64(Distance(items, i, q)))]
  }

  /** The items when the pass is about to visit item `i`. */
  function Pass(items: seq<Item>, i: nat): (r: seq<Item>)
    requires i <= |items|
    ensures |r| == |items|
  {
    if i == 0 then items else Visit(Pass(items, i - 1), i - 1)
  }

  /** The branch at `p` carries the distance to its label. */
  ghost predicate Lands(src: seq<Line>, items: seq<Item>, p: nat)
    requires p < |src| == |items| && src[p].OpLine? && src[p].ref.Some? && src[p].ref.value < |src|
  {
    U2S(items[p].instr.imm0) == DistanceOf(src, items, p)
  }

  ghost predicate AllLand(src: seq<Line>, items: seq<Item>)
    requires WellReferenced(src) && |items| == |src|
  {
    forall p :: 0 <= p < |src| && src[p].OpLine? && src[p].ref.Some? ==> Lands(src, items, p)
  }

  /** Some forward branch of the listing jumps over item `r`. */
  predicate JumpedOver(src: seq<Line>, r: nat) {
    exists p :: 0 <= p < |src| && p < r && src[p].OpLine? && src[p].ref.Some? && r < src[p].ref.value
  }

  /**
    The pass treats a backward branch rightly: at its visit the branch needs the length it
    was measured with, and one step towards zero saves nothing, or saves the one byte that
    the step is for while no forward branch has already counted it.
   */
  ghost predicate CleanVisit(src: seq<Line>, items: seq<Item>, r: nat)
    requires r < |src| == |items| && src[r].OpLine? && src[r].ref.Some? && src[r].ref.value < |src|
  {
    var n := Offset64(DistanceOf(src, items, r));
    && Need(src[r].instr, n) == items[r].maxLength
    && n != -0x8001 && n != -0x8000_0001
    && (n == -0x81 ==> !JumpedOver(src, r))
  }

  ghost predicate CleanVisits(src: seq<Line>, items: seq<Item>)
    requires WellReferenced(src) && |items| == |src|
  {
    forall r :: 0 <= r < |src| && src[r].OpLine? && src[r].ref.Some? && Pending(items[r]) && src[r].ref.value < r ==>
      CleanVisit(src, Pass(items, r), r)
  }

  // ---- what the pass leaves alone

  /** Items not yet visited are untouched; visited ones are fixed and no longer than before. */
  ghost predicate Passing(src: seq<Line>, start: seq<Item>, items: seq<Item>, i: nat)
    requires i <= |src|
  {
    && |items| == |start| == |src|
    && (forall k :: i <= k < |src| ==> items[k] == start[k])
    && (forall k :: 0 <= k < i ==> items[k].fixed)
    && Carries(src, items)
    && Evolves(start, items)
    && (forall k :: 0 <= k < |src| ==> items[k].knownXP == start[k].knownXP && items[k].blocking == start[k].blocking)
  }

  /** The measure taken at a visit: a forward one is still the settled one. */
  lemma VisitDistance(src: seq<Line>, start: seq<Item>, items: seq<Item>, i: nat)
    requires Settled(src, start) && i < |src| && Passing(src, start, items, i) && !start[i].fixed
    ensures src[i].OpLine? && src[i].ref.Some? && src[i].ref.value < |src| && src[i].ref.value != i
    ensures HasOffset(src[i].instr.code) && items[i] == start[i] && start[i].blockedBy == src[i].ref
    ensures WithOffset(start[i].instr, 0) == WithOffset(src[i].instr, 0)
    ensures var n := DistanceOf(src, items, i);
      Offset64(n) == n && -HIGHBIT < n < HIGHBIT - 1
      && Need(src[i].instr, n) <= start[i].maxLength
      && (src[i].ref.value < i ==> n <= -2)
      && (src[i].ref.value > i ==> n >= 0 && n == DistanceOf(src, start, i) && Need(src[i].instr, n) == start[i].maxLength)
  {
    hide Need, RoomyAt, S2U;
    PendingFacts(src, start, i);
    assert Pending(start[i]) && SettledAt(src, start, i);
    assert items[i] == start[i];
    var q := src[i].ref.value;
    DistanceInRange(src, items, i);
    DistanceShrinks(start, items, i, q);
    ToI64OfRange(DistanceOf(src, items, i));
    NeedMonotone(src[i].instr, DistanceOf(src, items, i), DistanceOf(src, start, i));
    if q > i {
      SpanSame(start, items, i + 1, q);
    }
  }

  /** What a visit writes into a pending item. */
  lemma VisitOutcome(src: seq<Line>, start: seq<Item>, items: seq<Item>, i: nat)
    requires Settled(src, start) && i < |src| && Passing(src, start, items, i) && !start[i].fixed
    ensures src[i].OpLine? && src[i].ref.Some? && src[i].ref.value < |src| && HasOffset(src[i].instr.code)
    ensures var n, it := DistanceOf(src, items, i), Visit(items, i)[i];
      var bump := src[i].ref.value < i && (n == -0x81 || n == -0x8001 || n == -0x8000_0001);
      && -HIGHBIT < n < HIGHBIT - 1
      && U2S(it.instr.imm0) == (if bump then n + 1 else n)
      && it.fixed && Size(it) == Need(src[i].instr, if bump then n + 1 else n) <= start[i].maxLength
      && ItemOk(src[i], it)
      && it.blocking == start[i].blocking && it.knownXP == start[i].knownXP && it.xp == start[i].xp
      && Visit(items, i) == items[i := it]
  {
    hide EncodeOp, S2U, U2S, RoomyAt, Settled, Passing, Distance;
    VisitDistance(src, start, items, i);
    PassingLength(src, start, items, i);
    var q, n := src[i].ref.value, DistanceOf(src, items, i);
    SettledRelaxing(src, start);
    PendingFacts(src, start, i);
    NeedIs(src[i].instr, start[i].instr, n);
    GeneratedOk(src, start, i, n);
    SignedConversionsInverse(n, 0);
    if q < i {
      NeedSteps(src[i].instr, n);
      ToI64OfRange(n + 1);
      NeedIs(src[i].instr, start[i].instr, n + 1);
      GeneratedOk(src, start, i, n + 1);
      SignedConversionsInverse(n + 1, 0);
    }
  }

  lemma PassingLength(src: seq<Line>, start: seq<Item>, items: seq<Item>, i: nat)
    requires i <= |src| && Passing(src, start, items, i)
    ensures |items| == |start| == |src|
  {
  }

  lemma SettledRelaxing(src: seq<Line>, items: seq<Item>)
    requires Settled(src, items)
    ensures Relaxing(src, items) && AllExact(src, items) && WellReferenced(src) && |items| == |src| && Carries(src, items)
  {
  }

  lemma NeedIs(a: Instr, b: Instr, n: i64)
    requires WithOffset(a, 0) == WithOffset(b, 0)
    ensures Need(a, n) == |EncodeOp(WithOffset(b, n))|
  {
    hide EncodeOp, S2U;
  }

  lemma {:induction false} PassKeeps(src: seq<Line>, start: seq<Item>, i: nat)
    requires Settled(src, start) && i <= |src| == |start|
    ensures Passing(src, start, Pass(start, i), i)
    decreases i
  {
    hide Visit, Settled, ItemOk;
    SettledRelaxing(src, start);
    if i == 0 {
      RelaxingEvolvesSelf(start);
    } else {
      var x := Pass(start, i - 1);
      PassKeeps(src, start, i - 1);
      VisitKeeps(src, start, x, i - 1);
    }
  }

  lemma VisitKeeps(src: seq<Line>, start: seq<Item>, x: seq<Item>, i: nat)
    requires Settled(src, start) && i < |src| && Passing(src, start, x, i)
    ensures Passing(src, start, Visit(x, i), i + 1)
  {
    hide Settled, ItemOk, Need, Visit, Distance, U2S, Size, Relaxing, Carries;
    SettledRelaxing(src, start);
    if start[i].fixed {
      FixedVisit(x, i);
    } else {
      VisitOutcome(src, start, x, i);
      var it := Visit(x, i)[i];
      BlockingInRange(src, start, i);
      CarriesUpdate(src, x, i, it);
      PendingSize(start, i);
      EvolvesReplaced(start, x, i, it);
    }
  }

  lemma EvolvesReplaced(x: seq<Item>, y: seq<Item>, i: nat, it: Item)
    requires Evolves(x, y) && i < |x| && ItemEvolves(x[i], it)
    ensures Evolves(x, y[i := it])
  {
    hide ItemEvolves;
    forall k | 0 <= k < |x| ensures ItemEvolves(x[k], y[i := it][k]) {
      assert ItemEvolves(x[k], y[k]);
    }
  }

  lemma PendingSize(items: seq<Item>, i: nat)
    requires i < |items| && !items[i].fixed
    ensures Size(items[i]) == items[i].maxLength
  {
  }

  lemma PassStep(items: seq<Item>, i: nat)
    requires i < |items|
    ensures Pass(items, i + 1) == Visit(Pass(items, i), i)
  {
  }

  /** Later visits leave an earlier item alone. */
  lemma {:induction false} PassStable(items: seq<Item>, i: nat, j: nat, k: nat)
    requires k < i <= j <= |items|
    ensures Pass(items, j)[k] == Pass(items, i)[k]
    decreases j
  {
    hide Visit;
    if i < j {
      PassStable(items, i, j - 1, k);
      VisitElsewhere(Pass(items, j - 1), j - 1, k);
    }
  }

  lemma VisitElsewhere(items: seq<Item>, i: nat, k: nat)
    requires i < |items| && k < |items| && k != i
    ensures Visit(items, i)[k] == items[k]
  {
    hide Forced, Offset64, Distance;
  }

  // ---- landing, branch by branch

  /** The distance of a backward branch once it has been visited. */
  lemma BackwardFinal(src: seq<Line>, start: seq<Item>, p: nat)
    requires Settled(src, start) && p < |src| == |start| && !start[p].fixed
    requires src[p].OpLine? && src[p].ref.Some? && src[p].ref.value < p
    ensures var x, f := Pass(start, p), Pass(start, |src|);
      DistanceOf(src, f, p) == DistanceOf(src, x, p) + (start[p].maxLength - Size(f[p]))
  {
    hide Visit, Settled, Size;
    SettledRelaxing(src, start);
    var q, x, f := src[p].ref.value, Pass(start, p), Pass(start, |src|);
    PassKeeps(src, start, p);
    forall k | q <= k < p ensures Size(x[k]) == Size(f[k]) {
      PassStable(start, p, |src|, k);
    }
    SpanSame(x, f, q, p);
    PendingSize(start, p);
  }

  /** What the finished pass holds at a branch it had to force. */
  lemma ForcedFinal(src: seq<Line>, start: seq<Item>, p: nat)
    requires Settled(src, start) && p < |src| == |start| && !start[p].fixed
    ensures src[p].OpLine? && src[p].ref.Some? && src[p].ref.value < |src| && HasOffset(src[p].instr.code)
    ensures var n, it := DistanceOf(src, Pass(start, p), p), Pass(start, |src|)[p];
      var bump := src[p].ref.value < p && (n == -0x81 || n == -0x8001 || n == -0x8000_0001);
      && -HIGHBIT < n < HIGHBIT - 1
      && U2S(it.instr.imm0) == (if bump then n + 1 else n)
      && Size(it) == Need(src[p].instr, if bump then n + 1 else n) <= start[p].maxLength
  {
    hide Visit, Settled, Need, U2S, Pass, Distance, Size, ItemOk, Passing;
    PassKeeps(src, start, p);
    VisitOutcome(src, start, Pass(start, p), p);
    PassStep(start, p);
    PassStable(start, p + 1, |src|, p);
  }

  /** A backward branch that lands was visited cleanly, and the other way round, but for what it is jumped over by. */
  lemma BackwardLands(src: seq<Line>, start: seq<Item>, p: nat)
    requires Settled(src, start) && p < |src| == |start| && !start[p].fixed
    requires src[p].OpLine? && src[p].ref.Some? && src[p].ref.value < p
    ensures var n := DistanceOf(src, Pass(start, p), p);
      && -HIGHBIT < n < HIGHBIT - 1 && Offset64(n) == n && HasOffset(src[p].instr.code)
      && (Lands(src, Pass(start, |src|), p)
         <==> Need(src[p].instr, n) == start[p].maxLength && n != -0x8001 && n != -0x8000_0001)
      && (Lands(src, Pass(start, |src|), p) ==>
            Size(Pass(start, |src|)[p]) == start[p].maxLength - (if n == -0x81 then 1 else 0))
  {
    hide Visit, Settled, Need, U2S, Pass, Distance;
    PassKeeps(src, start, p);
    VisitDistance(src, start, Pass(start, p), p);
    ForcedFinal(src, start, p);
    BackwardFinal(src, start, p);
    NeedSteps(src[p].instr, DistanceOf(src, Pass(start, p), p));
  }

  /** A forward branch lands exactly when nothing it jumps over got shorter. */
  lemma ForwardLands(src: seq<Line>, start: seq<Item>, p: nat)
    requires Settled(src, start) && p < |src| == |start|
    requires src[p].OpLine? && src[p].ref.Some? && p < src[p].ref.value < |src|
    ensures var f := Pass(start, |src|);
      Lands(src, f, p) <==> forall k :: p < k < src[p].ref.value ==> Size(f[k]) == Size(start[k])
    ensures Size(Pass(start, |src|)[p]) == Size(start[p])
  {
    hide Visit, Settled, Need, U2S, Pass, Carries;
    SettledRelaxing(src, start);
    var q, f := src[p].ref.value, Pass(start, |src|);
    PassKeeps(src, start, |src|);
    forall k | 0 <= k < |f| ensures Size(f[k]) <= Size(start[k]) {
      assert ItemEvolves(start[k], f[k]);
    }
    assert ItemEvolves(start[p], f[p]);
    SpanShrinks(start, f, p + 1, q);
    if start[p].fixed {
      assert ExactAt(src, start, p);
    } else {
      PassKeeps(src, start, p);
      VisitDistance(src, start, Pass(start, p), p);
      ForcedFinal(src, start, p);
      PendingSize(start, p);
    }
    if forall k :: p < k < q ==> Size(f[k]) == Size(start[k]) {
      SpanSame(start, f, p + 1, q);
    }
  }

  /** Relaxation never fixes a backward branch. */
  lemma BackwardPending(src: seq<Line>, start: seq<Item>, p: nat)
    requires Settled(src, start) && p < |src| == |start|
    requires src[p].OpLine? && src[p].ref.Some? && src[p].ref.value < p
    ensures !start[p].fixed && Pending(start[p])
  {
    hide Need;
    assert ItemOk(src[p], start[p]);
  }

  // ---- the theorem

  lemma CleanVisitsLand(src: seq<Line>, start: seq<Item>)
    requires Settled(src, start) && WellReferenced(src) && |start| == |src| && CleanVisits(src, start)
    ensures AllLand(src, Pass(start, |src|))
  {
    hide Visit, Settled, Need, U2S, Pass, Distance, Lands;
    var f := Pass(start, |src|);
    forall p | 0 <= p < |src| && src[p].OpLine? && src[p].ref.Some? ensures Lands(src, f, p) {
      var q := src[p].ref.value;
      if q < p {
        BackwardPending(src, start, p);
        PassKeeps(src, start, p);
        assert CleanVisit(src, Pass(start, p), p);
        BackwardLands(src, start, p);
      } else {
        NotSelf(src, p);
        forall k | p < k < q ensures Size(f[k]) == Size(start[k]) {
          CleanSize(src, start, p, k);
        }
        ForwardLands(src, start, p);
      }
    }
  }

  lemma NotSelf(src: seq<Line>, p: nat)
    requires WellReferenced(src) && p < |src| && src[p].OpLine? && src[p].ref.Some?
    ensures src[p].ref.value != p
  {
  }

  /** In a clean pass nothing a forward branch jumps over gets shorter. */
  lemma CleanSize(src: seq<Line>, start: seq<Item>, p: nat, k: nat)
    requires Settled(src, start) && WellReferenced(src) && |start| == |src| && CleanVisits(src, start)
    requires p < |src| && src[p].OpLine? && src[p].ref.Some? && p < k < src[p].ref.value
    ensures Size(Pass(start, |src|)[k]) == Size(start[k])
  {
    hide Visit, Settled, Need, U2S, Pass, Distance, Carries;
    PassKeeps(src, start, |src|);
    assert ItemEvolves(start[k], Pass(start, |src|)[k]);
    if !start[k].fixed {
      ForcedFinal(src, start, k);
      if src[k].ref.value < k {
        BackwardPending(src, start, k);
        PassKeeps(src, start, k);
        assert CleanVisit(src, Pass(start, k), k);
        BackwardLands(src, start, k);
        assert JumpedOver(src, k);
        PendingSize(start, k);
      } else {
        NotSelf(src, k);
        ForwardLands(src, start, k);
      }
    }
  }

  lemma LandingIsClean(src: seq<Line>, start: seq<Item>)
    requires Settled(src, start) && WellReferenced(src) && |start| == |src|
    requires AllLand(src, Pass(start, |src|))
    ensures CleanVisits(src, start)
  {
    hide Visit, Settled, Need, U2S, Pass, Distance, Lands, Carries;
    var f := Pass(start, |src|);
    forall r | 0 <= r < |src| && src[r].OpLine? && src[r].ref.Some? && Pending(start[r]) && src[r].ref.value < r
      ensures CleanVisit(src, Pass(start, r), r)
    {
      PassKeeps(src, start, r);
      assert Lands(src, f, r);
      BackwardLands(src, start, r);
      if DistanceOf(src, Pass(start, r), r) == -0x81 && JumpedOver(src, r) {
        var p :| 0 <= p < |src| && p < r && src[p].OpLine? && src[p].ref.Some? && r < src[p].ref.value;
        assert Lands(src, f, p);
        ForwardLands(src, start, p);
        PendingSize(start, r);
        assert false;
      }
    }
  }

  /**
    After the last-resort pass every branch carries the distance to its label if and only if
    the pass visited every backward branch cleanly.
   */
  lemma LandsIffVisitsClean(src: seq<Line>, start: seq<Item>)
    requires Settled(src, start) && WellReferenced(src) && |start| == |src|
    ensures AllLand(src, Pass(start, |src|)) <==> CleanVisits(src, start)
  {
    hide Settled, AllLand, CleanVisits, Pass;
    if CleanVisits(src, start) { CleanVisitsLand(src, start); }
    if AllLand(src, Pass(start, |src|)) { LandingIsClean(src, start); }
  }

  /** No settled backward distance is one where the step towards zero saves bytes. */
  ghost predicate RuleSleeps(src: seq<Line>, items: seq<Item>)
    requires WellReferenced(src) && |items| == |src|
  {
    forall r :: 0 <= r < |src| && src[r].OpLine? && src[r].ref.Some? && Pending(items[r]) && src[r].ref.value < r ==>
      DistanceOf(src, items, r) !in {-0x81, -0x8001, -0x8000_0001}
  }

  /** Where the rule finds nothing to shorten, the pass changes no length at all. */
  lemma {:induction false} QuietPass(src: seq<Line>, start: seq<Item>, i: nat)
    requires Settled(src, start) && WellReferenced(src) && |start| == |src| && RuleSleeps(src, start) && i <= |src|
    ensures forall k :: 0 <= k < |src| ==> Size(Pass(start, i)[k]) == Size(start[k])
    decreases i
  {
    hide Visit, Settled, Need, U2S, Distance, Size, Carries;
    if i > 0 {
      var p, x := i - 1, Pass(start, i - 1);
      QuietPass(src, start, p);
      PassKeeps(src, start, p);
      if start[p].fixed {
        FixedVisit(x, p);
      } else {
        VisitOutcome(src, start, x, p);
        VisitDistance(src, start, x, p);
        SameDistance(src, start, x, p);
        PendingSize(start, p);
        SettledNeed(src, start, p);
      }
    }
  }

  lemma FixedVisit(x: seq<Item>, p: nat)
    requires p < |x| && x[p].fixed
    ensures Visit(x, p) == x
  {
  }

  lemma SameDistance(src: seq<Line>, x: seq<Item>, y: seq<Item>, p: nat)
    requires |x| == |y| == |src| && p < |src| && src[p].OpLine? && src[p].ref.Some? && src[p].ref.value < |src|
    requires forall k :: 0 <= k < |src| ==> Size(x[k]) == Size(y[k])
    ensures DistanceOf(src, x, p) == DistanceOf(src, y, p)
  {
    var q := src[p].ref.value;
    SpanSame(x, y, Low(p, q), High(p, q));
  }

  lemma SettledNeed(src: seq<Line>, start: seq<Item>, p: nat)
    requires Settled(src, start) && p < |src| == |start| && !start[p].fixed
    ensures src[p].OpLine? && src[p].ref.Some? && src[p].ref.value < |src| && Pending(start[p])
    ensures var n := DistanceOf(src, start, p);
      -HIGHBIT < n < HIGHBIT - 1 && Need(src[p].instr, n) == start[p].maxLength
  {
    hide Need, RoomyAt;
    PendingFacts(src, start, p);
    assert SettledAt(src, start, p);
  }

  /**
    If no settled backward distance is one of the three at which a step towards zero saves
    bytes, the pass keeps every length and every branch lands.
   */
  lemma QuietPassLands(src: seq<Line>, start: seq<Item>)
    requires Settled(src, start) && WellReferenced(src) && |start| == |src| && RuleSleeps(src, start)
    ensures AllLand(src, Pass(start, |src|))
    ensures forall k :: 0 <= k < |src| ==> Size(Pass(start, |src|)[k]) == Size(start[k])
  {
    hide Visit, Settled, Need, U2S, Distance, Size, Pass, Carries;
    QuietPass(src, start, |src|);
    forall r | 0 <= r < |src| && src[r].OpLine? && src[r].ref.Some? && Pending(start[r]) && src[r].ref.value < r
      ensures CleanVisit(src, Pass(start, r), r)
    {
      QuietPass(src, start, r);
      PassKeeps(src, start, r);
      SameDistance(src, start, Pass(start, r), r);
      VisitDistance(src, start, Pass(start, r), r);
      SettledNeed(src, start, r);
    }
    CleanVisitsLand(src, start);
  }

  // ---- before and after the pass

  /** When every item is stuck, relaxation has settled. */
  lemma StuckMeansSettled(src: seq<Line>, items: seq<Item>)
    requires Relaxing(src, items) && AllExact(src, items) && |items| == |src|
    requires forall i :: 0 <= i < |src| ==> StuckAt(src, items, i)
    ensures Settled(src, items)
  {
    hide Need, Relaxing, AllExact;
    forall p | 0 <= p < |src| && Pending(items[p]) ensures SettledAt(src, items, p) {
      assert StuckAt(src, items, p);
    }
  }

  /** After the pass everything is fixed, and addresses already handed out are still right. */
  lemma PassRelaxed(src: seq<Line>, start: seq<Item>)
    requires Settled(src, start)
    ensures |start| == |src| && Relaxing(src, Pass(start, |src|))
    ensures AllFixed(Pass(start, |src|), 0, |src|) && Evolves(start, Pass(start, |src|))
  {
    hide Pass, RoomyAt;
    SettledRelaxing(src, start);
    PassKeeps(src, start, |src|);
    var f := Pass(start, |src|);
    forall i | 0 <= i < |f| && f[i].knownXP ensures AllFixed(f, 0, i) && f[i].xp == Span(f, 0, i) {
      PlacedEvolves(start, f, i);
    }
  }

  /** With every item fixed and stuck, every item has its address. */
  lemma {:induction false} StuckMeansPlaced(src: seq<Line>, items: seq<Item>, i: nat)
    requires |items| == |src| && AllFixed(items, 0, |src|)
    requires forall k :: 0 <= k < |src| ==> StuckAt(src, items, k)
    requires i < |src|
    ensures items[i].knownXP
  {
    assert StuckAt(src, items, i);
    if i > 0 { StuckMeansPlaced(src, items, i - 1); }
  }

  /** Placing fixed items changes nothing that landing depends on. */
  lemma LandsEvolves(src: seq<Line>, x: seq<Item>, y: seq<Item>)
    requires WellReferenced(src) && |x| == |y| == |src| && Evolves(x, y) && AllFixed(x, 0, |x|)
    ensures AllLand(src, y) <==> AllLand(src, x)
    ensures forall k :: 0 <= k < |x| ==> Size(y[k]) == Size(x[k])
  {
    forall k | 0 <= k < |x| ensures Size(y[k]) == Size(x[k]) && y[k].instr == x[k].instr {
      assert ItemEvolves(x[k], y[k]);
    }
    forall p | 0 <= p < |src| && src[p].OpLine? && src[p].ref.Some?
      ensures Lands(src, y, p) == Lands(src, x, p)
    {
      SameDistance(src, x, y, p);
    }
  }
}
