/**
  Why the worklist drains.  Processing an item puts back on the queue whatever it was
  blocking, and an item that must wait parks itself with its predecessor, so the queue can
  grow for a while.  But parked and queued entries together never get more, and an entry is
  only ever replaced by entries of later items, except for the branches first parked with
  their labels, which are released once and for all.
 */
module Worklist {
  import opened Assembly
  import opened Relaxation

  type Lists = seq<seq<nat>>

  function Blocking(items: seq<Item>): (r: Lists)
    ensures |r| == |items|
    ensures forall k :: 0 <= k < |items| ==> r[k] == items[k].blocking
  {
    seq(|items|, k requires 0 <= k < |items| => items[k].blocking)
  }

  /** Entries of `bs` that do not come after item `q`. */
  function Backward(bs: seq<nat>, q: nat): (r: nat) {
    if bs == [] then 0
    else Backward(bs[..|bs| - 1], q) + if bs[|bs| - 1] <= q then 1 else 0
  }

  function TotalBackward(ls: Lists): (r: nat) {
    if ls == [] then 0
    else TotalBackward(ls[..|ls| - 1]) + Backward(ls[|ls| - 1], |ls| - 1)
  }

  function Total(ls: Lists): (r: nat) {
    if ls == [] then 0 else Total(ls[..|ls| - 1]) + |ls[|ls| - 1]|
  }

  function Pow(b: nat, k: nat): (r: nat)
    requires b >= 1
    ensures r >= 1
  {
    if k == 0 then 1 else MulAtLeastOne(b, Pow(b, k - 1)); b * Pow(b, k - 1)
  }

  lemma MulAtLeastOne(a: nat, b: nat)
    requires a >= 1 && b >= 1
    ensures a * b >= 1
  {
  }

  /** The queue's weight: an entry for an early item weighs more than any number of later ones. */
  function Weigh(base: nat, n: nat, queue: seq<nat>): (r: nat)
    requires base >= 1
    requires forall k :: 0 <= k < |queue| ==> queue[k] < n
  {
    if queue == [] then 0
    else Weigh(base, n, queue[..|queue| - 1]) + Pow(base, n - queue[|queue| - 1])
  }

  ghost predicate InRange(ls: Lists) {
    forall i, k :: 0 <= i < |ls| && 0 <= k < |ls[i]| ==> ls[i][k] < |ls|
  }

  /** What processing item `i` does to the lists: perhaps it parks itself, then its list is emptied. */
  function Parked(ls: Lists, i: nat, parks: bool): (r: Lists)
    requires i < |ls| && (parks ==> i > 0)
    ensures |r| == |ls|
  {
    if parks then ls[i - 1 := ls[i - 1] + [i]] else ls
  }

  // ---- sums

  lemma {:induction false} TotalUpdate(ls: Lists, i: nat, l: seq<nat>)
    requires i < |ls|
    ensures Total(ls[i := l]) + |ls[i]| == Total(ls) + |l|
    ensures TotalBackward(ls[i := l]) + Backward(ls[i], i) == TotalBackward(ls) + Backward(l, i)
    decreases |ls|
  {
    var k := |ls| - 1;
    var m := ls[i := l];
    if i == k {
      assert m[..k] == ls[..k];
    } else {
      assert m[..k] == ls[..k][i := l];
      TotalUpdate(ls[..k], i, l);
    }
  }

  lemma {:induction false} TotalContains(ls: Lists, i: nat)
    requires i < |ls|
    ensures |ls[i]| <= Total(ls)
    decreases |ls|
  {
    if i < |ls| - 1 {
      TotalContains(ls[..|ls| - 1], i);
      assert ls[..|ls| - 1][i] == ls[i];
    }
  }

  lemma BackwardSnoc(bs: seq<nat>, b: nat, q: nat)
    ensures Backward(bs + [b], q) == Backward(bs, q) + if b <= q then 1 else 0
  {
    assert (bs + [b])[..|bs|] == bs;
  }

  lemma {:induction false} NoneBackward(bs: seq<nat>, q: nat)
    requires Backward(bs, q) == 0
    ensures forall k :: 0 <= k < |bs| ==> bs[k] > q
    decreases |bs|
  {
    if bs != [] {
      var m := |bs| - 1;
      NoneBackward(bs[..m], q);
      forall k | 0 <= k < |bs| ensures bs[k] > q {
        if k < m { assert bs[..m][k] == bs[k]; }
      }
    }
  }

  lemma {:induction false} WeighConcat(base: nat, n: nat, a: seq<nat>, b: seq<nat>)
    requires base >= 1
    requires forall k :: 0 <= k < |a| ==> a[k] < n
    requires forall k :: 0 <= k < |b| ==> b[k] < n
    ensures forall k :: 0 <= k < |a + b| ==> (a + b)[k] < n
    ensures Weigh(base, n, a + b) == Weigh(base, n, a) + Weigh(base, n, b)
    decreases |b|
  {
    if b == [] {
      assert a + b == a;
    } else {
      var m := |b| - 1;
      assert (a + b)[..|a + b| - 1] == a + b[..m];
      WeighConcat(base, n, a, b[..m]);
    }
  }

  lemma {:induction false} PowMonotone(b: nat, j: nat, k: nat)
    requires b >= 1 && j <= k
    ensures Pow(b, j) <= Pow(b, k)
    decreases k
  {
    if j < k {
      PowMonotone(b, j, k - 1);
      assert Pow(b, k) == b * Pow(b, k - 1) >= Pow(b, k - 1);
    }
  }

  /** Entries of later items together weigh at most their number times the next weight down. */
  lemma {:induction false} WeighLater(base: nat, n: nat, bs: seq<nat>, i: nat)
    requires base >= 1 && i < n
    requires forall k :: 0 <= k < |bs| ==> i < bs[k] < n
    ensures Weigh(base, n, bs) <= |bs| * Pow(base, n - i - 1)
    decreases |bs|
  {
    hide Pow;
    if bs != [] {
      var m := |bs| - 1;
      WeighLater(base, n, bs[..m], i);
      PowMonotone(base, n - bs[m], n - i - 1);
      OneMore(m, Pow(base, n - i - 1));
    }
  }

  lemma OneMore(m: nat, w: nat)
    ensures (m + 1) * w == m * w + w
  {
  }

  lemma FewerThanBase(count: nat, base: nat, w: nat)
    requires count < base && w >= 1
    ensures count * w < base * w
  {
    MulMonotone(count + 1, base, w);
    OneMore(count, w);
  }

  lemma {:induction false} MulMonotone(a: nat, b: nat, w: nat)
    requires a <= b
    ensures a * w <= b * w
    decreases b
  {
    if a < b {
      MulMonotone(a, b - 1, w);
      assert b * w == (b - 1) * w + w;
    }
  }

  // ---- one turn of the worklist

  /** The queue after processing its first entry. */
  function Requeued(ls: Lists, queue: seq<nat>): (r: seq<nat>)
    requires queue != [] && queue[0] < |ls|
  {
    queue[1..] + ls[queue[0]]
  }

  lemma ParkedTotals(ls: Lists, i: nat, parks: bool)
    requires i < |ls| && (parks ==> i > 0) && InRange(ls)
    ensures var m := Parked(ls, i, parks);
      Total(m) <= Total(ls) + 1 && TotalBackward(m) == TotalBackward(ls) && m[i] == ls[i] && InRange(m)
  {
    hide Total, TotalBackward, Backward, InRange;
    if parks {
      TotalUpdate(ls, i - 1, ls[i - 1] + [i]);
      BackwardSnoc(ls[i - 1], i, i - 1);
      ParkedInRange(ls, i);
    }
  }

  lemma ParkedInRange(ls: Lists, i: nat)
    requires 0 < i < |ls| && InRange(ls)
    ensures InRange(ls[i - 1 := ls[i - 1] + [i]])
  {
  }

  /**
    Each turn keeps the number of entries, parked or queued, within its bound, and makes the
    pair of backward entries and queue weight smaller.
   */
  lemma TurnShrinks(ls: Lists, queue: seq<nat>, parks: bool, bound: nat)
    requires queue != [] && InRange(ls)
    requires forall k :: 0 <= k < |queue| ==> queue[k] < |ls|
    requires parks ==> queue[0] > 0
    requires |queue| + Total(ls) <= bound
    ensures var i, q := queue[0], Requeued(ls, queue);
      var m := Parked(ls, i, parks)[i := []];
      && InRange(m)
      && (forall k :: 0 <= k < |q| ==> q[k] < |ls|)
      && |q| + Total(m) <= bound
      && (TotalBackward(m) < TotalBackward(ls)
          || (TotalBackward(m) == TotalBackward(ls)
              && Weigh(bound + 1, |ls|, q) < Weigh(bound + 1, |ls|, queue)))
  {
    hide Total, TotalBackward, Weigh, Pow;
    var i, n, base := queue[0], |ls|, bound + 1;
    var l := Parked(ls, i, parks);
    ParkedTotals(ls, i, parks);
    TotalUpdate(l, i, []);
    TotalContains(ls, i);
    if Backward(ls[i], i) == 0 {
      NoneBackward(ls[i], i);
      WeighLater(base, n, ls[i], i);
      assert queue == [i] + queue[1..];
      WeighConcat(base, n, [i], queue[1..]);
      WeighConcat(base, n, queue[1..], ls[i]);
      WeighOne(base, n, i);
      FewerThanBase(|ls[i]|, base, Pow(base, n - i - 1));
    }
  }

  lemma WeighOne(base: nat, n: nat, i: nat)
    requires base >= 1 && i < n
    ensures Weigh(base, n, [i]) == base * Pow(base, n - i - 1)
  {
    assert [i][..0] == [];
  }

  // ---- the turn, on items

  predicate Parks(items: seq<Item>, i: nat)
    requires i < |items|
  {
    !items[i].knownXP && i > 0 && !(items[i - 1].knownXP && items[i - 1].fixed)
  }

  lemma AttemptBlocking(items: seq<Item>, i: nat)
    requires i < |items|
    ensures Blocking(Attempt(items, i).items) == Parked(Blocking(items), i, Parks(items, i))
  {
    hide TrySetXP, TryFix;
    SetBlocking(items, i);
    FixBlocking(TrySetXP(items, i).items, i);
  }

  lemma SetBlocking(items: seq<Item>, i: nat)
    requires i < |items|
    ensures Blocking(TrySetXP(items, i).items) == Parked(Blocking(items), i, Parks(items, i))
  {
  }

  lemma FixBlocking(items: seq<Item>, i: nat)
    requires i < |items|
    ensures Blocking(TryFix(items, i).items) == Blocking(items)
  {
    hide Offset64, Distance, IsExact;
  }

  lemma ReleaseBlocking(items: seq<Item>, i: nat)
    requires i < |items|
    ensures Blocking(Released(items, i)) == Blocking(items)[i := []]
  {
  }
}
