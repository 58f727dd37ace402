/**
  Whether the last-resort pass will be clean, read off the settled lengths before the pass
  begins.  A clean pass shortens nothing but backward branches 129 away, each by one byte, so
  the distance a branch will be visited at is its settled distance less those bytes.
 */
module Foresight {
  import opened Words
  import opened Immediates
  import opened Instructions
  import opened Assembly
  import opened Relaxation
  import opened LastResort

  predicate Backward(src: seq<Line>, r: nat)
    requires r < |src|
  {
    src[r].OpLine? && src[r].ref.Some? && src[r].ref.value < r
  }

  function Sum(saved: seq<nat>, a: nat, b: nat): (n: nat)
    requires b <= |saved|
    decreases b
  {
    if b <= a then 0 else Sum(saved, a, b - 1) + saved[b - 1]
  }

  /** The distance branch `r` will be visited at, given the bytes saved by the items before it. */
  function Foreseen(src: seq<Line>, items: seq<Item>, saved: seq<nat>, r: nat): (n: int)
    requires r < |src| == |items| && Backward(src, r) && r <= |saved|
  {
    DistanceOf(src, items, r) + Sum(saved, src[r].ref.value, r)
  }

  /** The bytes each of the first `i` items will save. */
  function Saved(src: seq<Line>, items: seq<Item>, i: nat): (saved: seq<nat>)
    requires i <= |src| == |items|
    ensures |saved| == i
    decreases i
  {
    if i == 0 then []
    else
      var saved := Saved(src, items, i - 1);
      saved + [if Backward(src, i - 1) && Foreseen(src, items, saved, i - 1) == -0x81 then 1 else 0]
  }

  /**
    At the distance it will be visited at, a backward branch needs its settled length; a step
    towards zero saves nothing, or one byte that no forward branch has counted.
   */
  predicate CleanAt(src: seq<Line>, items: seq<Item>, r: nat)
    requires r < |src| == |items| && Backward(src, r)
  {
    var n := Offset64(Foreseen(src, items, Saved(src, items, r), r));
    && Need(src[r].instr, n) == items[r].maxLength
    && n != -0x8001 && n != -0x8000_0001
    && (n == -0x81 ==> !JumpedOver(src, r))
  }

  predicate CleanUpTo(src: seq<Line>, items: seq<Item>, i: nat)
    requires i <= |src| == |items|
  {
    forall r :: 0 <= r < i && Backward(src, r) ==> CleanAt(src, items, r)
  }

  predicate CleanPass(src: seq<Line>, items: seq<Item>)
    requires |items| == |src|
  {
    CleanUpTo(src, items, |src|)
  }

  // ---- the scan foresees the pass

  ghost predicate VisitsUpTo(src: seq<Line>, start: seq<Item>, i: nat)
    requires i <= |src| == |start|
  {
    forall r :: 0 <= r < i && Backward(src, r) ==> CleanVisit(src, Pass(start, r), r)
  }

  /** The lengths in `x` are those in `start` less what was to be saved. */
  ghost predicate Spared(start: seq<Item>, x: seq<Item>, saved: seq<nat>) {
    |saved| <= |x| == |start| && forall k :: 0 <= k < |saved| ==> Size(x[k]) + saved[k] == Size(start[k])
  }

  lemma {:induction false} SpanSpared(start: seq<Item>, x: seq<Item>, saved: seq<nat>, a: nat, b: nat)
    requires Spared(start, x, saved) && b <= |saved|
    ensures Span(x, a, b) + Sum(saved, a, b) == Span(start, a, b)
    decreases b
  {
    hide Size;
    if a < b {
      SpanSpared(start, x, saved, a, b - 1);
    }
  }

  /** With the lengths as foreseen, so is the distance. */
  lemma DistanceForeseen(src: seq<Line>, start: seq<Item>, x: seq<Item>, saved: seq<nat>, r: nat)
    requires Spared(start, x, saved) && r < |src| == |start| && |saved| == r && Backward(src, r) && x[r] == start[r]
    ensures DistanceOf(src, x, r) == Foreseen(src, start, saved, r)
  {
    hide Size, Spared;
    SpanSpared(start, x, saved, src[r].ref.value, r);
  }

  lemma VisitForeseen(src: seq<Line>, start: seq<Item>, i: nat)
    requires Settled(src, start) && i < |src| == |start| && Backward(src, i)
    requires Spared(start, Pass(start, i), Saved(src, start, i))
    ensures CleanVisit(src, Pass(start, i), i) <==> CleanAt(src, start, i)
    ensures DistanceOf(src, Pass(start, i), i) == Foreseen(src, start, Saved(src, start, i), i)
  {
    hide Settled, Pass, Saved, Spared, Need, Distance, Foreseen, Carries;
    PassKeeps(src, start, i);
    DistanceForeseen(src, start, Pass(start, i), Saved(src, start, i), i);
  }

  /** What a visit saves is what the scan says, if the visit is clean. */
  lemma SavedAt(src: seq<Line>, start: seq<Item>, i: nat)
    requires Settled(src, start) && i < |src| == |start|
    requires Spared(start, Pass(start, i), Saved(src, start, i))
    requires Backward(src, i) ==> CleanVisit(src, Pass(start, i), i)
    ensures Size(Pass(start, i + 1)[i]) + Saved(src, start, i + 1)[i] == Size(start[i])
  {
    hide Settled, Pass, Spared, Need, Distance, Foreseen, Carries, Size, U2S;
    PassStable(start, i + 1, |src|, i);
    if Backward(src, i) {
      BackwardPending(src, start, i);
      PassKeeps(src, start, i);
      VisitForeseen(src, start, i);
      BackwardLands(src, start, i);
      PendingSize(start, i);
    } else {
      ForwardSize(src, start, i);
    }
  }

  /** A label, an instruction without label, or a forward branch keeps its length. */
  lemma ForwardSize(src: seq<Line>, start: seq<Item>, i: nat)
    requires Settled(src, start) && i < |src| == |start| && !Backward(src, i)
    ensures Size(Pass(start, |src|)[i]) == Size(start[i])
  {
    hide Settled, Pass, Need, Distance, Carries, Size;
    SettledRelaxing(src, start);
    if src[i].OpLine? && src[i].ref.Some? {
      NotSelf(src, i);
      ForwardLands(src, start, i);
    } else {
      UnreferringFixed(src, start, i);
      PassKeeps(src, start, |src|);
      assert ItemEvolves(start[i], Pass(start, |src|)[i]);
      FixedSize(start[i], Pass(start, |src|)[i]);
    }
  }

  lemma UnreferringFixed(src: seq<Line>, start: seq<Item>, i: nat)
    requires Settled(src, start) && i < |src| == |start| && !(src[i].OpLine? && src[i].ref.Some?)
    ensures start[i].fixed
  {
    hide Need;
    assert ItemOk(src[i], start[i]);
  }

  lemma FixedSize(x: Item, y: Item)
    requires x.fixed && ItemEvolves(x, y)
    ensures Size(y) == Size(x)
  {
  }

  /** Up to any item, the scan finds everything clean exactly when the pass does, and then foresees every length. */
  lemma {:induction false} ScanForesees(src: seq<Line>, start: seq<Item>, i: nat)
    requires Settled(src, start) && i <= |src| == |start|
    ensures CleanUpTo(src, start, i) <==> VisitsUpTo(src, start, i)
    ensures CleanUpTo(src, start, i) ==> Spared(start, Pass(start, i), Saved(src, start, i))
    decreases i
  {
    hide Settled, Pass, Saved, CleanAt, CleanVisit, Size;
    if i > 0 {
      ScanForesees(src, start, i - 1);
      assert CleanUpTo(src, start, i) ==> CleanUpTo(src, start, i - 1);
      if CleanUpTo(src, start, i - 1) {
        if Backward(src, i - 1) {
          VisitForeseen(src, start, i - 1);
        }
        if CleanUpTo(src, start, i) {
          SavedAt(src, start, i - 1);
          SparedNext(src, start, i - 1);
        }
      }
    }
  }

  lemma SparedNext(src: seq<Line>, start: seq<Item>, i: nat)
    requires i < |src| == |start| && Spared(start, Pass(start, i), Saved(src, start, i))
    requires Size(Pass(start, i + 1)[i]) + Saved(src, start, i + 1)[i] == Size(start[i])
    ensures Spared(start, Pass(start, i + 1), Saved(src, start, i + 1))
  {
    hide Pass, Size, Saved;
    SavedPrefix(src, start, i);
    forall k | 0 <= k < i ensures Pass(start, i + 1)[k] == Pass(start, i)[k] {
      PassStable(start, i, i + 1, k);
    }
  }

  lemma SavedPrefix(src: seq<Line>, start: seq<Item>, i: nat)
    requires i < |src| == |start|
    ensures forall k :: 0 <= k < i ==> Saved(src, start, i + 1)[k] == Saved(src, start, i)[k]
  {
    hide Foreseen;
  }

  /**
    After the last-resort pass every branch carries the distance to its label if and only if
    the scan of the settled lengths finds every backward branch clean.
   */
  lemma LandsIffClean(src: seq<Line>, start: seq<Item>)
    requires Settled(src, start) && WellReferenced(src) && |start| == |src|
    ensures AllLand(src, Pass(start, |src|)) <==> CleanPass(src, start)
  {
    hide Settled, AllLand, Pass, CleanUpTo, CleanVisit;
    ScanForesees(src, start, |src|);
    LandsIffVisitsClean(src, start);
    forall r | 0 <= r < |src| && Backward(src, r) ensures Pending(start[r]) {
      BackwardPending(src, start, r);
    }
  }
}
