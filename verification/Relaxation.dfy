/**
  One step of branch relaxation, as a function of the items, and what it keeps.
 */
module Relaxation {
  import opened Words
  import opened Immediates
  import opened Instructions
  import opened Assembly

  /** The items after a step, and whether the step made progress. */
  datatype Stepped = Stepped(items: seq<Item>, progress: bool)

  /** Go's `int64` of a length: exact for every listing that fits in memory. */
  function Offset64(n: int): (r: i64) {
    ToI64(ToU64(n))
  }

  /** `trySetXP`. */
  function TrySetXP(items: seq<Item>, i: nat): (r: Stepped)
    requires i < |items|
    ensures |r.items| == |items|
  {
    if items[i].knownXP then Stepped(items, false)
    else if i == 0 then Stepped(items[0 := items[0].(xp := 0, knownXP := true)], true)
    else
      var prev := items[i - 1];
      if prev.knownXP && prev.fixed
      then Stepped(items[i := items[i].(xp := prev.xp + |prev.bytes|, knownXP := true)], true)
      else Stepped(items[i - 1 := prev.(blocking := prev.blocking + [i])], false)
  }

  function ApplyFixup(it: Item, n: i64): (r: Item) {
    it.(instr := WithOffset(it.instr, n))
  }

  function Generate(it: Item): (r: Item) {
    it.(bytes := EncodeOp(it.instr), maxLength := |EncodeOp(it.instr)|, fixed := true, blockedBy := None)
  }

  /** Every item the distance measures is fixed. */
  predicate IsExact(items: seq<Item>, p: nat, q: nat)
    requires p < |items| && q < |items|
  {
    forall k :: Low(p, q) <= k < High(p, q) ==> items[k].fixed
  }

  /** `tryFix`. */
  function TryFix(items: seq<Item>, i: nat): (r: Stepped)
    requires i < |items|
    ensures |r.items| == |items|
  {
    var it := items[i];
    if it.fixed || it.blockedBy.None? || it.blockedBy.value >= |items| then Stepped(items, false)
    else
      var q := it.blockedBy.value;
      var aimed := ApplyFixup(it, Offset64(Distance(items, i, q)));
      var ml := |EncodeOp(aimed.instr)|;
      if IsExact(items, i, q) then Stepped(items[i := Generate(aimed)], true)
      else if ml < it.maxLength then Stepped(items[i := aimed.(maxLength := ml)], true)
      else Stepped(items[i := aimed], false)
  }

  /** The part of `processItem` before it releases what the item blocks. */
  function Attempt(items: seq<Item>, i: nat): (r: Stepped)
    requires i < |items|
    ensures |r.items| == |items|
  {
    if items[i].knownXP && items[i].fixed then Stepped(items, false)
    else
      var a := TrySetXP(items, i);
      var b := TryFix(a.items, i);
      Stepped(b.items, a.progress || b.progress)
  }

  function Released(items: seq<Item>, i: nat): (r: seq<Item>)
    requires i < |items|
    ensures |r| == |items|
  {
    items[i := items[i].(blocking := [])]
  }

  // ---- progress

  function ItemWork(it: Item): (r: nat) {
    (if it.knownXP then 0 else 1) + (if it.fixed then 0 else 1) + it.maxLength
  }

  /** Items without an address, items not fixed, and lengths, all added up. */
  function Work(items: seq<Item>): (r: nat) {
    if items == [] then 0 else Work(items[..|items| - 1]) + ItemWork(items[|items| - 1])
  }

  lemma {:induction false} WorkUpdate(items: seq<Item>, i: nat, it: Item)
    requires i < |items|
    ensures Work(items[i := it]) + ItemWork(items[i]) == Work(items) + ItemWork(it)
    decreases |items|
  {
    var k := |items| - 1;
    var y := items[i := it];
    if i == k {
      assert y[..k] == items[..k];
    } else {
      assert y[..k] == items[..k][i := it];
      WorkUpdate(items[..k], i, it);
    }
  }

  /** Nothing relaxation measures has changed. */
  ghost predicate Same(x: seq<Item>, y: seq<Item>) {
    && |x| == |y|
    && forall i :: 0 <= i < |x| ==> ItemSame(x[i], y[i])
  }

  ghost predicate ItemSame(a: Item, b: Item) {
    a.(blocking := b.blocking, instr := b.instr) == b && (a.fixed ==> a.instr == b.instr)
  }

  lemma SameTrans(x: seq<Item>, y: seq<Item>, z: seq<Item>)
    requires Same(x, y) && Same(y, z)
    ensures Same(x, z)
  {
    forall i | 0 <= i < |x| ensures ItemSame(x[i], z[i]) {
      assert ItemSame(x[i], y[i]) && ItemSame(y[i], z[i]);
    }
  }

  lemma SameUpdate(items: seq<Item>, i: nat, it: Item)
    requires i < |items| && ItemSame(items[i], it)
    ensures Same(items, items[i := it])
  {
  }

  /** Progress lowers the work; no progress leaves everything measured as it was. */
  ghost predicate Advances(items: seq<Item>, r: Stepped) {
    && (r.progress ==> Work(r.items) < Work(items))
    && (!r.progress ==> Same(items, r.items) && Work(r.items) == Work(items))
  }

  // ---- replacing one item

  lemma EvolvesUpdate(items: seq<Item>, i: nat, it: Item)
    requires i < |items| && ItemEvolves(items[i], it)
    ensures Evolves(items, items[i := it])
  {
  }

  lemma CarriesUpdate(src: seq<Line>, items: seq<Item>, i: nat, it: Item)
    requires Carries(src, items) && i < |items| && ItemOk(src[i], it)
    requires forall k :: 0 <= k < |it.blocking| ==> it.blocking[k] < |items|
    ensures Carries(src, items[i := it])
  {
    hide ItemOk;
  }

  /** Replacing one item by one further along keeps the invariant, if it is right about itself. */
  lemma UpdateKeeps(src: seq<Line>, items: seq<Item>, i: nat, it: Item)
    requires Relaxing(src, items) && i < |items|
    requires ItemOk(src[i], it) && ItemEvolves(items[i], it)
    requires forall k :: 0 <= k < |it.blocking| ==> it.blocking[k] < |items|
    requires Carries(src, items[i := it])
    requires Pending(it) ==> RoomyAt(src, items[i := it], i)
    requires !items[i].knownXP && it.knownXP ==>
               AllFixed(items[i := it], 0, i) && it.xp == Span(items[i := it], 0, i)
    ensures Relaxing(src, items[i := it])
    ensures Evolves(items, items[i := it])
  {
    hide ItemOk, RoomyAt;
    var y := items[i := it];
    EvolvesUpdate(items, i, it);
    forall p | 0 <= p < |src| && Pending(y[p]) ensures RoomyAt(src, y, p) {
      if p != i {
        RoomyEvolves(src, items, y, p);
      }
    }
    forall k | 0 <= k < |y| && y[k].knownXP ensures AllFixed(y, 0, k) && y[k].xp == Span(y, 0, k) {
      if items[k].knownXP {
        PlacedEvolves(items, y, k);
      }
    }
  }

  /** A change of address or of the blocking list alone. */
  lemma BookkeepingKeeps(src: seq<Line>, items: seq<Item>, i: nat, it: Item)
    requires Relaxing(src, items) && i < |items|
    requires it == items[i].(blocking := it.blocking, knownXP := it.knownXP, xp := it.xp)
    requires forall k :: 0 <= k < |it.blocking| ==> it.blocking[k] < |items|
    requires items[i].knownXP ==> it.knownXP && it.xp == items[i].xp
    requires !items[i].knownXP && it.knownXP ==> AllFixed(items, 0, i) && it.xp == Span(items, 0, i)
    ensures Relaxing(src, items[i := it])
    ensures Evolves(items, items[i := it])
  {
    hide RoomyAt;
    var y := items[i := it];
    assert ItemOk(src[i], items[i]);
    assert ItemOk(src[i], it);
    CarriesUpdate(src, items, i, it);
    EvolvesUpdate(items, i, it);
    if Pending(it) {
      RoomyEvolves(src, items, y, i);
    }
    SpanSame(items, y, 0, i);
    UpdateKeeps(src, items, i, it);
  }

  // ---- trySetXP

  /** Addresses are only handed out to items all of whose predecessors are fixed. */
  lemma TrySetXPKeeps(src: seq<Line>, items: seq<Item>, i: nat)
    requires Relaxing(src, items) && i < |items|
    ensures var r := TrySetXP(items, i); Relaxing(src, r.items) && Evolves(items, r.items)
    ensures Advances(items, TrySetXP(items, i))
  {
    hide Relaxing, Work, ItemOk;
    var it := items[i];
    BlockingInRange(src, items, i);
    if it.knownXP {
      RelaxingEvolvesSelf(items);
    } else if i == 0 {
      BookkeepingKeeps(src, items, 0, it.(xp := 0, knownXP := true));
      WorkUpdate(items, 0, it.(xp := 0, knownXP := true));
    } else {
      var prev := items[i - 1];
      if prev.knownXP && prev.fixed {
        PreviousPlaced(src, items, i - 1);
        BookkeepingKeeps(src, items, i, it.(xp := prev.xp + |prev.bytes|, knownXP := true));
        WorkUpdate(items, i, it.(xp := prev.xp + |prev.bytes|, knownXP := true));
      } else {
        var b := prev.(blocking := prev.blocking + [i]);
        BlockingInRange(src, items, i - 1);
        BookkeepingKeeps(src, items, i - 1, b);
        WorkUpdate(items, i - 1, b);
        SameUpdate(items, i - 1, b);
      }
    }
  }

  lemma RelaxingEvolvesSelf(items: seq<Item>)
    ensures Evolves(items, items) && Same(items, items)
  {
  }

  lemma BlockingInRange(src: seq<Line>, items: seq<Item>, i: nat)
    requires Relaxing(src, items) && i < |items|
    ensures forall k :: 0 <= k < |items[i].blocking| ==> items[i].blocking[k] < |items|
  {
  }

  lemma PreviousPlaced(src: seq<Line>, items: seq<Item>, j: nat)
    requires Relaxing(src, items) && j < |items| && items[j].knownXP && items[j].fixed
    ensures AllFixed(items, 0, j + 1) && items[j].xp + |items[j].bytes| == Span(items, 0, j + 1)
  {
  }

  // ---- tryFix

  /** A pending item and the label it waits for. */
  lemma PendingFacts(src: seq<Line>, items: seq<Item>, i: nat)
    requires Relaxing(src, items) && i < |items| && !items[i].fixed
    ensures |src| == |items|
    ensures src[i].OpLine? && src[i].ref.Some? && src[i].ref.value < |items| && HasOffset(src[i].instr.code)
    ensures items[i].isOp && items[i].blockedBy == src[i].ref && 2 <= items[i].maxLength <= MAX_OP
    ensures items[i].instr.code == src[i].instr.code
            && items[i].instr.imm1 == src[i].instr.imm1 && items[i].instr.imm2 == src[i].instr.imm2
    ensures RoomyAt(src, items, i)
    ensures var n := DistanceOf(src, items, i);
      -HIGHBIT < n < HIGHBIT - 1 && Offset64(n) == n && Need(src[i].instr, n) <= items[i].maxLength
      && (src[i].ref.value < i ==> n <= -2) && (src[i].ref.value > i ==> n >= 0)
    ensures src[i].ref.value != i
  {
    hide Need;
    assert ItemOk(src[i], items[i]);
    assert Pending(items[i]);
    DistanceInRange(src, items, i);
    ToI64OfRange(DistanceOf(src, items, i));
  }

  lemma ToI64OfRange(n: int)
    requires -HIGHBIT <= n < HIGHBIT
    ensures Offset64(n) == n
  {
    if n < 0 {
      assert ToU64(n) == n + TWO64;
    }
  }

  /** The length tried never exceeds the length held: the assertion "max length grew" never fires. */
  lemma MaxLengthNeverGrows(src: seq<Line>, items: seq<Item>, i: nat)
    requires Relaxing(src, items) && i < |items| && !items[i].fixed
    ensures src[i].OpLine? && items[i].blockedBy.Some? && items[i].blockedBy.value < |items|
    ensures !items[items[i].blockedBy.value].isOp
    ensures var aimed := ApplyFixup(items[i], Offset64(Distance(items, i, items[i].blockedBy.value)));
      |EncodeOp(aimed.instr)| == Need(src[i].instr, Offset64(DistanceOf(src, items, i)))
      && |EncodeOp(aimed.instr)| <= items[i].maxLength
  {
    hide EncodeOp, RoomyAt, S2U, Relaxing;
    PendingFacts(src, items, i);
    AwaitsLabel(src, items, i);
  }

  lemma AwaitsLabel(src: seq<Line>, items: seq<Item>, i: nat)
    requires Relaxing(src, items) && i < |items| == |src| && src[i].OpLine? && src[i].ref.Some?
    ensures src[i].ref.value < |items| && !items[src[i].ref.value].isOp
  {
    hide EncodeOp, Need;
    assert ItemOk(src[src[i].ref.value], items[src[i].ref.value]);
  }

  /** A pending item counts itself when it branches back, so an exact distance is a forward one. */
  lemma ExactIsForward(items: seq<Item>, p: nat, q: nat)
    requires p < |items| && q < |items| && q != p && !items[p].fixed && IsExact(items, p, q)
    ensures q > p
  {
  }

  lemma GeneratedOk(src: seq<Line>, items: seq<Item>, i: nat, n: i64)
    requires Relaxing(src, items) && i < |items| && !items[i].fixed
    ensures i < |src| && ItemOk(src[i], Generate(ApplyFixup(items[i], n)))
  {
    hide EncodeOp, RoomyAt, S2U, U2S, Relaxing;
    PendingFacts(src, items, i);
    EncodedNonEmpty(ApplyFixup(items[i], n).instr);
  }

  /** Fixing an item whose distance is exact. */
  lemma FixExactKeeps(src: seq<Line>, items: seq<Item>, i: nat)
    requires Relaxing(src, items) && i < |items| && !items[i].fixed
    requires items[i].blockedBy.Some? && items[i].blockedBy.value < |items|
    requires IsExact(items, i, items[i].blockedBy.value)
    ensures var r := TryFix(items, i); r.progress && Relaxing(src, r.items) && Evolves(items, r.items)
    ensures Work(TryFix(items, i).items) < Work(items)
    ensures ExactAt(src, TryFix(items, i).items, i)
  {
    hide EncodeOp, RoomyAt, S2U, U2S, Relaxing, Work, ItemOk;
    PendingFacts(src, items, i);
    MaxLengthNeverGrows(src, items, i);
    var q, n := src[i].ref.value, DistanceOf(src, items, i);
    var it := Generate(ApplyFixup(items[i], n));
    ExactIsForward(items, i, q);
    GeneratedOk(src, items, i, n);
    BlockingInRange(src, items, i);
    var y := items[i := it];
    UpdateCarries(src, items, i, it);
    SpanSame(items, y, i + 1, q);
    SignedConversionsInverse(n, 0);
    assert ExactAt(src, y, i);
    UpdateKeeps(src, items, i, it);
    WorkUpdate(items, i, it);
  }

  lemma UpdateCarries(src: seq<Line>, items: seq<Item>, i: nat, it: Item)
    requires Relaxing(src, items) && i < |items| && ItemOk(src[i], it)
    requires forall k :: 0 <= k < |it.blocking| ==> it.blocking[k] < |items|
    ensures WellReferenced(src) && Carries(src, items[i := it])
  {
    hide ItemOk;
    CarriesUpdate(src, items, i, it);
  }

  /** Re-aiming an item that stays pending: its length drops to what the distance needs. */
  lemma ReaimKeeps(src: seq<Line>, items: seq<Item>, i: nat)
    requires Relaxing(src, items) && i < |items| && !items[i].fixed
    requires items[i].blockedBy.Some? && items[i].blockedBy.value < |items|
    requires !IsExact(items, i, items[i].blockedBy.value)
    ensures var r := TryFix(items, i); Relaxing(src, r.items) && Evolves(items, r.items) && Advances(items, r)
  {
    hide EncodeOp, RoomyAt, S2U, U2S, Relaxing, Work;
    PendingFacts(src, items, i);
    MaxLengthNeverGrows(src, items, i);
    var q, n := src[i].ref.value, DistanceOf(src, items, i);
    var aimed := ApplyFixup(items[i], n);
    var ml := |EncodeOp(aimed.instr)|;
    NeedBounds(src[i].instr, n);
    var it := aimed.(maxLength := ml);
    BlockingInRange(src, items, i);
    assert ItemOk(src[i], it);
    UpdateCarries(src, items, i, it);
    EvolvesUpdate(items, i, it);
    ReaimRoomy(src, items, i, it);
    UpdateKeeps(src, items, i, it);
    WorkUpdate(items, i, it);
    if ml == items[i].maxLength {
      SameUpdate(items, i, it);
    }
  }

  lemma ReaimRoomy(src: seq<Line>, items: seq<Item>, i: nat, it: Item)
    requires Relaxing(src, items) && i < |items| && !items[i].fixed
    requires Carries(src, items[i := it]) && Evolves(items, items[i := it]) && Pending(it)
    requires src[i].OpLine? && src[i].ref.Some? && src[i].ref.value < |items|
    requires Need(src[i].instr, Offset64(DistanceOf(src, items, i))) <= it.maxLength
    ensures RoomyAt(src, items[i := it], i)
  {
    hide Need;
    var y := items[i := it];
    PendingFacts(src, items, i);
    DistanceInRange(src, y, i);
    DistanceShrinks(items, y, i, src[i].ref.value);
    NeedMonotone(src[i].instr, DistanceOf(src, y, i), DistanceOf(src, items, i));
  }

  lemma TryFixKeeps(src: seq<Line>, items: seq<Item>, i: nat)
    requires Relaxing(src, items) && i < |items|
    ensures var r := TryFix(items, i); Relaxing(src, r.items) && Evolves(items, r.items)
    ensures Advances(items, TryFix(items, i))
  {
    hide EncodeOp, RoomyAt, S2U, U2S, Relaxing, Work;
    if items[i].fixed {
      RelaxingEvolvesSelf(items);
    } else {
      PendingFacts(src, items, i);
      if IsExact(items, i, items[i].blockedBy.value) {
        FixExactKeeps(src, items, i);
      } else {
        ReaimKeeps(src, items, i);
      }
    }
  }

  /** Phase one only fixes branches whose distance can no longer change. */
  lemma TryFixExact(src: seq<Line>, items: seq<Item>, i: nat)
    requires Relaxing(src, items) && i < |items| && AllExact(src, items)
    ensures AllExact(src, TryFix(items, i).items)
  {
    hide EncodeOp, RoomyAt, S2U, U2S, Relaxing, Work, ExactAt;
    TryFixKeeps(src, items, i);
    RelaxingLength(src, items);
    if !items[i].fixed {
      PendingFacts(src, items, i);
      if IsExact(items, i, items[i].blockedBy.value) {
        FixExactKeeps(src, items, i);
      }
    }
    ExactKept(src, items, TryFix(items, i).items);
  }

  lemma RelaxingLength(src: seq<Line>, items: seq<Item>)
    requires Relaxing(src, items)
    ensures WellReferenced(src) && Carries(src, items) && |items| == |src|
  {
  }

  lemma AttemptExact(src: seq<Line>, items: seq<Item>, i: nat)
    requires Relaxing(src, items) && i < |items| && AllExact(src, items)
    ensures AllExact(src, Attempt(items, i).items)
  {
    hide Relaxing, TryFix, AllExact, Evolves;
    RelaxingLength(src, items);
    var a := TrySetXP(items, i);
    TrySetXPKeeps(src, items, i);
    RelaxingLength(src, a.items);
    ExactKept(src, items, a.items);
    TryFixExact(src, a.items, i);
  }

  lemma ReleaseExact(src: seq<Line>, items: seq<Item>, i: nat)
    requires Relaxing(src, items) && i < |items| && AllExact(src, items)
    ensures AllExact(src, Released(items, i))
  {
    hide Relaxing, AllExact, Evolves;
    RelaxingLength(src, items);
    ReleaseKeeps(src, items, i);
    ExactKept(src, items, Released(items, i));
  }

  // ---- processItem

  /** An item nothing more can be done about for now. */
  ghost predicate StuckAt(src: seq<Line>, items: seq<Item>, i: nat)
    requires i < |items| == |src|
  {
    && (items[i].knownXP || (i > 0 && !(items[i - 1].knownXP && items[i - 1].fixed)))
    && (items[i].fixed ||
        (src[i].OpLine? && src[i].ref.Some? && src[i].ref.value < |src|
         && Need(src[i].instr, Offset64(DistanceOf(src, items, i))) == items[i].maxLength
         && !IsExact(items, i, src[i].ref.value)))
  }

  lemma AttemptKeeps(src: seq<Line>, items: seq<Item>, i: nat)
    requires Relaxing(src, items) && i < |items|
    ensures var r := Attempt(items, i); Relaxing(src, r.items) && Evolves(items, r.items)
    ensures Advances(items, Attempt(items, i))
  {
    hide TrySetXP, TryFix, Relaxing, Work;
    if items[i].knownXP && items[i].fixed {
      RelaxingEvolvesSelf(items);
    } else {
      var a := TrySetXP(items, i);
      TrySetXPKeeps(src, items, i);
      var b := TryFix(a.items, i);
      TryFixKeeps(src, a.items, i);
      EvolvesTrans(items, a.items, b.items);
      if !a.progress && !b.progress {
        SameTrans(items, a.items, b.items);
      }
    }
  }

  lemma ReleaseKeeps(src: seq<Line>, items: seq<Item>, i: nat)
    requires Relaxing(src, items) && i < |items|
    ensures Relaxing(src, Released(items, i)) && Evolves(items, Released(items, i))
    ensures Same(items, Released(items, i)) && Work(Released(items, i)) == Work(items)
  {
    hide Relaxing, Work;
    var it := items[i].(blocking := []);
    BookkeepingKeeps(src, items, i, it);
    SameUpdate(items, i, it);
    WorkUpdate(items, i, it);
  }

  /** An attempt without progress means the item is stuck. */
  lemma NoProgressMeansStuck(src: seq<Line>, items: seq<Item>, i: nat)
    requires Relaxing(src, items) && i < |items| == |src|
    requires !Attempt(items, i).progress
    ensures StuckAt(src, items, i)
  {
    hide Relaxing, EncodeOp, RoomyAt, S2U;
    var a := TrySetXP(items, i);
    TrySetXPKeeps(src, items, i);
    if !items[i].fixed {
      assert ItemSame(items[i], a.items[i]);
      PendingFacts(src, a.items, i);
      MaxLengthNeverGrows(src, a.items, i);
      StuckSame(src, a.items, items, i);
    }
  }

  /** Whether an item's distance is settled depends only on what `Same` preserves. */
  lemma StuckSame(src: seq<Line>, x: seq<Item>, y: seq<Item>, p: nat)
    requires |x| == |y| == |src| && p < |src| && src[p].OpLine? && src[p].ref.Some? && src[p].ref.value < |src|
    requires Same(x, y) || Same(y, x)
    ensures DistanceOf(src, x, p) == DistanceOf(src, y, p)
    ensures IsExact(x, p, src[p].ref.value) == IsExact(y, p, src[p].ref.value)
  {
    var q := src[p].ref.value;
    forall k | 0 <= k < |x| ensures Size(x[k]) == Size(y[k]) && x[k].fixed == y[k].fixed {
      assert ItemSame(x[k], y[k]) || ItemSame(y[k], x[k]);
    }
    SpanSame(x, y, Low(p, q), High(p, q));
  }

  lemma StuckStays(src: seq<Line>, x: seq<Item>, y: seq<Item>, i: nat)
    requires i < |x| == |y| == |src| && StuckAt(src, x, i) && Same(x, y)
    ensures StuckAt(src, y, i)
  {
    hide Need;
    assert ItemSame(x[i], y[i]);
    if i > 0 { assert ItemSame(x[i - 1], y[i - 1]); }
    if !x[i].fixed {
      StuckSame(src, x, y, i);
    }
  }

  /** `processItem` on the items: an attempt, after which nothing is parked with the item. */
  function Turn(items: seq<Item>, i: nat): (r: Stepped)
    requires i < |items|
    ensures |r.items| == |items|
  {
    var a := Attempt(items, i);
    Stepped(Released(a.items, i), a.progress)
  }

  /** Everything a turn keeps, and what it means when it makes no progress. */
  lemma TurnKeeps(src: seq<Line>, items: seq<Item>, i: nat)
    requires Relaxing(src, items) && i < |items| == |src|
    ensures var r := Turn(items, i); Relaxing(src, r.items) && Evolves(items, r.items)
    ensures Advances(items, Turn(items, i))
    ensures WellReferenced(src)
    ensures AllExact(src, items) ==> AllExact(src, Turn(items, i).items)
    ensures !Turn(items, i).progress ==> StuckAt(src, Turn(items, i).items, i)
  {
    hide Attempt, Released, Relaxing, Work, AllExact, Evolves, StuckAt;
    var a := Attempt(items, i);
    RelaxingLength(src, items);
    AttemptKeeps(src, items, i);
    ReleaseKeeps(src, a.items, i);
    EvolvesTrans(items, a.items, Released(a.items, i));
    if AllExact(src, items) {
      AttemptExact(src, items, i);
      ReleaseExact(src, a.items, i);
    }
    if !a.progress {
      NoProgressMeansStuck(src, items, i);
      SameTrans(items, a.items, Released(a.items, i));
      StuckStays(src, items, Released(a.items, i), i);
    }
  }
}
