/**
  What relaxation starts from, and what it settles on: the greatest lengths that are
  consistent with the distances they give rise to.
 */
module Optimality {
  import opened Words
  import opened Immediates
  import opened Instructions
  import opened Assembly
  import opened Relaxation
  import opened LastResort

  const PLACEHOLDER: i64 := 0x7fff_ffff_ffff_ffff

  /** An item as emission leaves it: a branch holds the placeholder offset and the length that needs. */
  ghost predicate EmittedItem(l: Line, it: Item) {
    && !it.knownXP
    && (if l.LabelLine? then !it.isOp && it.fixed && it.bytes == [] && it.maxLength == 0 && it.blockedBy.None?
        else if l.ref.None? then
          it.isOp && it.instr == l.instr && it.fixed && it.bytes == EncodeOp(l.instr)
          && it.maxLength == |it.bytes| && it.blockedBy.None?
        else
          it.isOp && it.instr == WithOffset(l.instr, PLACEHOLDER) && !it.fixed
          && it.maxLength == Need(l.instr, PLACEHOLDER) && it.blockedBy == l.ref)
  }

  ghost predicate Emitted(src: seq<Line>, items: seq<Item>) {
    && |items| == |src|
    && (forall i :: 0 <= i < |src| ==> EmittedItem(src[i], items[i]))
    && (forall i, k :: 0 <= i < |items| && 0 <= k < |items[i].blocking| ==> items[i].blocking[k] < |items|)
  }

  lemma EmittedOk(src: seq<Line>, i: nat, it: Item)
    requires WellReferenced(src) && i < |src| && EmittedItem(src[i], it)
    ensures ItemOk(src[i], it)
  {
    hide Need, EncodeOp;
    var l := src[i];
    if l.OpLine? {
      EncodedNonEmpty(l.instr);
      if l.ref.Some? {
        NeedBounds(l.instr, PLACEHOLDER);
      }
    }
  }

  lemma EmittedCarries(src: seq<Line>, items: seq<Item>)
    requires WellReferenced(src) && Emitted(src, items)
    ensures Carries(src, items)
  {
    hide EmittedItem, ItemOk;
    forall i | 0 <= i < |src| ensures ItemOk(src[i], items[i]) {
      EmittedOk(src, i, items[i]);
    }
  }

  /** Emission establishes everything relaxation maintains. */
  lemma EmittedRelaxes(src: seq<Line>, items: seq<Item>)
    requires WellReferenced(src) && Emitted(src, items)
    ensures Relaxing(src, items) && AllExact(src, items)
  {
    hide Need, EncodeOp;
    EmittedCarries(src, items);
    forall p | 0 <= p < |src| && Pending(items[p]) ensures RoomyAt(src, items, p) {
      assert EmittedItem(src[p], items[p]);
      DistanceInRange(src, items, p);
      NeedBounds(src[p].instr, DistanceOf(src, items, p));
    }
    assert forall i :: 0 <= i < |src| ==> EmittedItem(src[i], items[i]);
  }

  // ---- consistent lengths

  /** Lengths some layout could have: no branch is longer than the distance it then has needs. */
  ghost predicate Consistent(src: seq<Line>, g: seq<Item>) {
    && WellReferenced(src)
    && Carries(src, g)
    && forall p :: 0 <= p < |src| && src[p].OpLine? && src[p].ref.Some? ==>
         Size(g[p]) <= Need(src[p].instr, Offset64(DistanceOf(src, g, p)))
  }

  ghost predicate AtLeast(items: seq<Item>, g: seq<Item>) {
    |items| == |g| && forall k :: 0 <= k < |g| ==> Size(g[k]) <= Size(items[k])
  }

  /** No consistent lengths exceed these. */
  ghost predicate Dominates(src: seq<Line>, items: seq<Item>) {
    forall g :: Consistent(src, g) ==> AtLeast(items, g)
  }

  lemma EmittedDominates(src: seq<Line>, items: seq<Item>)
    requires WellReferenced(src) && Emitted(src, items)
    ensures Dominates(src, items)
  {
    hide Need, EncodeOp, Offset64, Distance;
    forall g | Consistent(src, g) ensures AtLeast(items, g) {
      forall k | 0 <= k < |g| ensures Size(g[k]) <= Size(items[k]) {
        assert EmittedItem(src[k], items[k]);
        assert ItemOk(src[k], g[k]);
        if src[k].OpLine? && src[k].ref.Some? {
          NeedBounds(src[k].instr, Offset64(DistanceOf(src, g, k)));
        }
      }
    }
  }

  lemma PlacingKeepsSizes(items: seq<Item>, i: nat)
    requires i < |items|
    ensures var y := TrySetXP(items, i).items;
      forall k :: 0 <= k < |items| ==> Size(y[k]) == Size(items[k]) && y[k].fixed == items[k].fixed
  {
  }

  /** A turn changes at most its own item's length, and then to what its distance needs. */
  lemma TurnSizes(src: seq<Line>, items: seq<Item>, i: nat)
    requires Relaxing(src, items) && i < |items| == |src|
    ensures var y := Turn(items, i).items;
      && (forall k :: 0 <= k < |items| && k != i ==> Size(y[k]) == Size(items[k]))
      && (Size(y[i]) == Size(items[i]) ||
          (src[i].OpLine? && src[i].ref.Some? && src[i].ref.value < |src|
           && Size(y[i]) == Need(src[i].instr, Offset64(DistanceOf(src, items, i)))))
  {
    hide Relaxing, EncodeOp, S2U, Offset64, RoomyAt, TrySetXP, Evolves, Advances, Distance;
    var a := TrySetXP(items, i);
    TrySetXPKeeps(src, items, i);
    PlacingKeepsSizes(items, i);
    if !items[i].fixed {
      PendingFacts(src, a.items, i);
      MaxLengthNeverGrows(src, a.items, i);
      SameDistance(src, items, a.items, i);
    }
  }

  /** The length a branch is cut to is still no less than any consistent one. */
  lemma CutDominates(src: seq<Line>, items: seq<Item>, g: seq<Item>, i: nat)
    requires Relaxing(src, items) && Consistent(src, g) && AtLeast(items, g) && i < |src|
    requires |items| == |src| == |g| && src[i].OpLine? && src[i].ref.Some? && src[i].ref.value < |src|
    ensures Size(g[i]) <= Need(src[i].instr, Offset64(DistanceOf(src, items, i)))
  {
    hide Need;
    DistanceInRange(src, items, i);
    DistanceInRange(src, g, i);
    ToI64OfRange(DistanceOf(src, items, i));
    ToI64OfRange(DistanceOf(src, g, i));
    var q := src[i].ref.value;
    SpanShrinks(items, g, Low(i, q), High(i, q));
    NeedMonotone(src[i].instr, DistanceOf(src, g, i), DistanceOf(src, items, i));
  }

  /** Relaxation never undershoots. */
  lemma TurnDominates(src: seq<Line>, items: seq<Item>, i: nat)
    requires Relaxing(src, items) && i < |items| == |src| && Dominates(src, items)
    ensures Dominates(src, Turn(items, i).items)
  {
    hide Relaxing, Need, Offset64, Distance, Turn, Consistent;
    TurnSizes(src, items, i);
    var y := Turn(items, i).items;
    forall g | Consistent(src, g) ensures AtLeast(y, g) {
      assert AtLeast(items, g);
      forall k | 0 <= k < |g| ensures Size(g[k]) <= Size(y[k]) {
        if k == i && Size(y[i]) != Size(items[i]) {
          CutDominates(src, items, g, i);
        }
      }
    }
  }

  /** The lengths relaxation settles on are themselves consistent. */
  lemma SettledConsistent(src: seq<Line>, items: seq<Item>)
    requires Settled(src, items)
    ensures Consistent(src, items)
  {
    hide Need, Offset64, Distance, Relaxing, EncodeOp;
    SettledRelaxing(src, items);
    forall p | 0 <= p < |src| && src[p].OpLine? && src[p].ref.Some?
      ensures Size(items[p]) <= Need(src[p].instr, Offset64(DistanceOf(src, items, p)))
    {
      assert ItemOk(src[p], items[p]);
      if items[p].fixed {
        ExactNeed(src, items, p);
      } else {
        assert SettledAt(src, items, p);
        PendingSize(items, p);
      }
    }
  }

  lemma ExactNeed(src: seq<Line>, items: seq<Item>, p: nat)
    requires Relaxing(src, items) && AllExact(src, items) && p < |src| == |items| && WellReferenced(src)
    requires src[p].OpLine? && src[p].ref.Some? && items[p].fixed && ItemOk(src[p], items[p])
    ensures Size(items[p]) == Need(src[p].instr, Offset64(DistanceOf(src, items, p)))
  {
    hide EncodeOp, S2U, U2S, RoomyAt;
    assert ExactAt(src, items, p);
    DistanceInRange(src, items, p);
    ToI64OfRange(DistanceOf(src, items, p));
    SignedConversionsInverse(0, items[p].instr.imm0);
    SettledInstr(src, items, p);
  }

  lemma SettledInstr(src: seq<Line>, items: seq<Item>, p: nat)
    requires p < |src| == |items| && src[p].OpLine? && items[p].isOp
    requires items[p].instr.code == src[p].instr.code
    requires items[p].instr.imm1 == src[p].instr.imm1 && items[p].instr.imm2 == src[p].instr.imm2
    requires S2U(U2S(items[p].instr.imm0)) == items[p].instr.imm0
    ensures items[p].instr == WithOffset(src[p].instr, U2S(items[p].instr.imm0))
  {
  }
}
