/**
  The assembler's items as values: what each step of branch relaxation does to them, and the
  facts about encoded lengths and distances that relaxation rests on (`peggyvm/assembler.go`).

  A listing is a sequence of labels and instructions.  An instruction may refer to a label;
  its code offset is then the distance from its end to that label, and its length depends on
  that distance.  All referenced labels are part of the listing.
 */
module Assembly {
  import opened Words
  import opened Immediates
  import opened Instructions

  datatype Line = LabelLine | OpLine(instr: Instr, ref: Option<nat>)

  const MAX_OP: nat := 26

  /** References name labels of the listing, and only from a code-offset slot. */
  ghost predicate WellReferenced(src: seq<Line>) {
    && (forall i :: 0 <= i < |src| && src[i].OpLine? && src[i].ref.Some? ==>
          HasOffset(src[i].instr.code) && src[i].ref.value < |src| && src[src[i].ref.value].LabelLine?)
    && MAX_OP * |src| < HIGHBIT
  }

  datatype Item = Item(
    isOp: bool, instr: Instr, fixed: bool, bytes: seq<byte>, maxLength: nat, blockedBy: Option<nat>,
    knownXP: bool, xp: nat, blocking: seq<nat>)

  // ---- how long an instruction is with a given offset

  function WithOffset(instr: Instr, n: i64): (r: Instr) {
    Instr(instr.code, S2U(n), instr.imm1, instr.imm2)
  }

  function Need(instr: Instr, n: i64): (r: nat) {
    |EncodeOp(WithOffset(instr, n))|
  }

  lemma NeedFormula(instr: Instr, n: i64)
    requires HasOffset(instr.code)
    ensures var w1, w2 := |Field1(instr)|, |Field2(instr)|;
      w1 <= 8 && w2 <= 8 &&
      Need(instr, n) == SignedWidth(n) + w1 + w2
        + if Number(instr.code) > 7 || SignedWidth(n) == 8 || w1 == 8 || w2 > 0 then 2 else 1
  {
    hide EncodeOp, EncodeImm, Number, EncodedWidth, U2S, S2U;
    var op := WithOffset(instr, n);
    EncodedLength(op);
    FieldLength(Meta(op.code).imm0, op.imm0);
    OffsetSlot(instr.code);
    WidthThresholds(true, S2U(n));
    SignedConversionsInverse(n, 0);
  }

  /** The table's code-offset slots are required, so an offset is always encoded. */
  lemma OffsetSlot(c: OpCode)
    requires HasOffset(c)
    ensures Meta(c).imm0 == Required(ImmCodeOffset)
  {
  }

  /** An offset closer to zero, of the same sign, never needs a longer instruction. */
  lemma NeedMonotone(instr: Instr, a: i64, b: i64)
    requires HasOffset(instr.code)
    requires 0 <= a <= b || b <= a < 0
    ensures Need(instr, a) <= Need(instr, b)
  {
    hide Need;
    NeedFormula(instr, a);
    NeedFormula(instr, b);
  }

  /** The placeholder offset gives the greatest length there is. */
  lemma NeedBounds(instr: Instr, n: i64)
    requires HasOffset(instr.code)
    ensures 2 <= Need(instr, n) <= Need(instr, 0x7fff_ffff_ffff_ffff) <= MAX_OP
  {
    hide Need;
    NeedFormula(instr, n);
    NeedFormula(instr, 0x7fff_ffff_ffff_ffff);
  }

  /** Where one step towards zero saves bytes, and where it saves exactly one. */
  lemma NeedSteps(instr: Instr, n: i64)
    requires HasOffset(instr.code) && n < -1
    ensures Need(instr, n + 1) <= Need(instr, n)
    ensures Need(instr, n + 1) < Need(instr, n) <==> n == -0x81 || n == -0x8001 || n == -0x8000_0001
    ensures Need(instr, n + 1) == Need(instr, n) - 1 <==> n == -0x81
  {
    hide Need;
    NeedFormula(instr, n);
    NeedFormula(instr, n + 1);
  }

  // ---- distances

  function Size(it: Item): (r: nat) {
    if it.fixed then |it.bytes| else it.maxLength
  }

  /** The length of items `a` up to but not including `b`. */
  function Span(items: seq<Item>, a: nat, b: nat): (r: nat)
    requires b <= |items|
    decreases b
  {
    if b <= a then 0 else Span(items, a, b - 1) + Size(items[b - 1])
  }

  ghost predicate AllFixed(items: seq<Item>, a: nat, b: nat)
    requires b <= |items|
  {
    forall k :: a <= k < b ==> items[k].fixed
  }

  /** The distance from the end of item `p` to the start of item `q`. */
  function Distance(items: seq<Item>, p: nat, q: nat): (n: int)
    requires p < |items| && q < |items|
  {
    if q <= p then 0 - Span(items, q, p + 1) else Span(items, p + 1, q)
  }

  /** The items measured by `Distance`: the instruction itself is among them when it branches back. */
  function Low(p: nat, q: nat): (r: nat) { if q <= p then q else p + 1 }
  function High(p: nat, q: nat): (r: nat) { if q <= p then p + 1 else q }

  lemma {:induction false} SpanSplit(items: seq<Item>, a: nat, b: nat, c: nat)
    requires a <= b <= c <= |items|
    ensures Span(items, a, c) == Span(items, a, b) + Span(items, b, c)
    decreases c
  {
    if b < c { SpanSplit(items, a, b, c - 1); }
  }

  lemma {:induction false} SpanSame(x: seq<Item>, y: seq<Item>, a: nat, b: nat)
    requires b <= |x| && b <= |y|
    requires forall k :: a <= k < b ==> Size(x[k]) == Size(y[k])
    ensures Span(x, a, b) == Span(y, a, b)
    decreases b
  {
    if a < b { SpanSame(x, y, a, b - 1); }
  }

  lemma {:induction false} SpanShrinks(x: seq<Item>, y: seq<Item>, a: nat, b: nat)
    requires b <= |x| && b <= |y|
    requires forall k :: a <= k < b ==> Size(y[k]) <= Size(x[k])
    ensures Span(y, a, b) <= Span(x, a, b)
    ensures Span(y, a, b) == Span(x, a, b) ==> forall k :: a <= k < b ==> Size(y[k]) == Size(x[k])
    decreases b
  {
    if a < b { SpanShrinks(x, y, a, b - 1); }
  }

  lemma {:induction false} SpanBound(items: seq<Item>, a: nat, b: nat)
    requires b <= |items|
    requires forall k :: 0 <= k < |items| ==> Size(items[k]) <= MAX_OP
    ensures Span(items, a, b) <= MAX_OP * b
    decreases b
  {
    if a < b { SpanBound(items, a, b - 1); }
  }

  lemma {:induction false} SpanContains(items: seq<Item>, a: nat, b: nat, k: nat)
    requires a <= k < b <= |items|
    ensures Size(items[k]) <= Span(items, a, b)
    decreases b
  {
    if k < b - 1 { SpanContains(items, a, b - 1, k); }
  }

  // ---- the listing and its items

  /** An item carries out its line: what is settled about it agrees with the line. */
  ghost predicate ItemOk(l: Line, it: Item) {
    if l.LabelLine? then !it.isOp && it.fixed && it.bytes == [] && it.maxLength == 0 && it.blockedBy.None?
    else
      && it.isOp
      && it.instr.code == l.instr.code && it.instr.imm1 == l.instr.imm1 && it.instr.imm2 == l.instr.imm2
      && (l.ref.None? ==> it.fixed && it.instr == l.instr)
      && (if it.fixed then it.bytes == EncodeOp(it.instr) && it.maxLength == |it.bytes| && it.blockedBy.None?
          else it.blockedBy == l.ref && 2 <= it.maxLength)
      && it.maxLength <= MAX_OP
  }

  ghost predicate Carries(src: seq<Line>, items: seq<Item>) {
    && |items| == |src|
    && (forall i :: 0 <= i < |src| ==> ItemOk(src[i], items[i]))
    && (forall i, k :: 0 <= i < |items| && 0 <= k < |items[i].blocking| ==> items[i].blocking[k] < |items|)
  }

  predicate Pending(it: Item) {
    it.isOp && !it.fixed
  }

  /** The distance item `p` is waiting for. */
  function DistanceOf(src: seq<Line>, items: seq<Item>, p: nat): (n: int)
    requires p < |src| == |items| && src[p].OpLine? && src[p].ref.Some? && src[p].ref.value < |src|
  {
    Distance(items, p, src[p].ref.value)
  }

  /** Every distance is an `int64`, and its sign is that of the branch. */
  lemma DistanceInRange(src: seq<Line>, items: seq<Item>, p: nat)
    requires WellReferenced(src) && Carries(src, items)
    requires p < |src| && src[p].OpLine? && src[p].ref.Some?
    ensures var q, n := src[p].ref.value, DistanceOf(src, items, p);
      q != p && -HIGHBIT < n < HIGHBIT - 1
      && (q < p ==> n + Size(items[p]) <= 0 && n < 0) && (q > p ==> n >= 0)
      && (q < p && !items[p].fixed ==> n <= -2)
  {
    hide Need;
    var q := src[p].ref.value;
    assert forall k :: 0 <= k < |items| ==> ItemOk(src[k], items[k]);
    assert forall k :: 0 <= k < |items| ==> Size(items[k]) <= MAX_OP;
    SpanBound(items, Low(p, q), High(p, q));
    if q < p {
      SpanContains(items, q, p + 1, p);
      assert ItemOk(src[p], items[p]);
      if items[p].fixed {
        EncodedNonEmpty(items[p].instr);
      }
    }
  }

  lemma EncodedNonEmpty(op: Instr)
    ensures 1 <= |EncodeOp(op)| <= MAX_OP
  {
    EncodedLength(op);
  }

  /** The relaxation invariant: no pending item's length is below what its distance now needs. */
  ghost predicate Roomy(src: seq<Line>, items: seq<Item>)
    requires WellReferenced(src) && Carries(src, items)
  {
    forall p :: 0 <= p < |src| && Pending(items[p]) ==> RoomyAt(src, items, p)
  }

  ghost predicate RoomyAt(src: seq<Line>, items: seq<Item>, p: nat)
    requires WellReferenced(src) && Carries(src, items) && p < |src| && Pending(items[p])
  {
    assert ItemOk(src[p], items[p]);
    DistanceInRange(src, items, p);
    Need(src[p].instr, DistanceOf(src, items, p)) <= items[p].maxLength
  }

  /** A fixed forward branch measured a stretch that can no longer change. */
  ghost predicate ExactAt(src: seq<Line>, items: seq<Item>, p: nat)
    requires p < |src| == |items| && src[p].OpLine? && src[p].ref.Some? && src[p].ref.value < |src|
  {
    var q := src[p].ref.value;
    p < q && AllFixed(items, p + 1, q) && U2S(items[p].instr.imm0) == Span(items, p + 1, q)
  }

  ghost predicate AllExact(src: seq<Line>, items: seq<Item>)
    requires WellReferenced(src) && |items| == |src|
  {
    forall p :: 0 <= p < |src| && src[p].OpLine? && src[p].ref.Some? && items[p].fixed ==> ExactAt(src, items, p)
  }

  /** A known address is the length of everything before it, all of which is fixed. */
  ghost predicate Placed(items: seq<Item>) {
    forall i :: 0 <= i < |items| && items[i].knownXP ==> AllFixed(items, 0, i) && items[i].xp == Span(items, 0, i)
  }

  // ---- how items may change

  /** Lengths shrink, what is fixed or placed stays so, and nothing about the line is lost. */
  ghost predicate Evolves(x: seq<Item>, y: seq<Item>) {
    && |x| == |y|
    && forall i :: 0 <= i < |x| ==> ItemEvolves(x[i], y[i])
  }

  ghost predicate ItemEvolves(a: Item, b: Item) {
    && Size(b) <= Size(a)
    && (a.fixed ==> b.fixed && b.bytes == a.bytes && b.instr == a.instr)
    && (a.knownXP ==> b.knownXP && b.xp == a.xp)
  }

  lemma EvolvesTrans(x: seq<Item>, y: seq<Item>, z: seq<Item>)
    requires Evolves(x, y) && Evolves(y, z)
    ensures Evolves(x, z)
  {
    forall i | 0 <= i < |x| ensures ItemEvolves(x[i], z[i]) {
      assert ItemEvolves(x[i], y[i]) && ItemEvolves(y[i], z[i]);
    }
  }

  /** A distance only gets closer to zero. */
  lemma DistanceShrinks(x: seq<Item>, y: seq<Item>, p: nat, q: nat)
    requires Evolves(x, y) && p < |x| && q < |x|
    ensures if q <= p then Distance(x, p, q) <= Distance(y, p, q) <= 0 else 0 <= Distance(y, p, q) <= Distance(x, p, q)
  {
    forall k | 0 <= k < |x| ensures Size(y[k]) <= Size(x[k]) {
      assert ItemEvolves(x[k], y[k]);
    }
    SpanShrinks(x, y, Low(p, q), High(p, q));
  }

  /** Shrinking elsewhere leaves a pending item room enough. */
  lemma RoomyEvolves(src: seq<Line>, x: seq<Item>, y: seq<Item>, p: nat)
    requires WellReferenced(src) && Carries(src, x) && Carries(src, y) && Evolves(x, y)
    requires p < |src| && Pending(x[p]) && Pending(y[p]) && RoomyAt(src, x, p)
    requires y[p].maxLength == x[p].maxLength
    ensures RoomyAt(src, y, p)
  {
    hide Need;
    assert ItemOk(src[p], x[p]);
    DistanceInRange(src, x, p);
    DistanceInRange(src, y, p);
    DistanceShrinks(x, y, p, src[p].ref.value);
    NeedMonotone(src[p].instr, DistanceOf(src, y, p), DistanceOf(src, x, p));
  }

  lemma ExactEvolves(src: seq<Line>, x: seq<Item>, y: seq<Item>, p: nat)
    requires WellReferenced(src) && |x| == |src| && Evolves(x, y)
    requires p < |src| && src[p].OpLine? && src[p].ref.Some? && x[p].fixed && ExactAt(src, x, p)
    ensures ExactAt(src, y, p)
  {
    var q := src[p].ref.value;
    assert ItemEvolves(x[p], y[p]);
    forall k | p + 1 <= k < q ensures y[k].fixed && Size(y[k]) == Size(x[k]) {
      assert ItemEvolves(x[k], y[k]);
    }
    SpanSame(x, y, p + 1, q);
  }

  /** Fixed branches stay exact, provided the newly fixed ones are. */
  lemma ExactKept(src: seq<Line>, x: seq<Item>, y: seq<Item>)
    requires WellReferenced(src) && |x| == |src| && Evolves(x, y) && AllExact(src, x)
    requires forall p :: 0 <= p < |src| && src[p].OpLine? && src[p].ref.Some? && !x[p].fixed && y[p].fixed ==>
               ExactAt(src, y, p)
    ensures AllExact(src, y)
  {
    hide ExactAt;
    forall p | 0 <= p < |src| && src[p].OpLine? && src[p].ref.Some? && y[p].fixed ensures ExactAt(src, y, p) {
      if x[p].fixed {
        ExactEvolves(src, x, y, p);
      }
    }
  }

  lemma PlacedEvolves(x: seq<Item>, y: seq<Item>, i: nat)
    requires Evolves(x, y) && i < |x| && x[i].knownXP
    requires AllFixed(x, 0, i) && x[i].xp == Span(x, 0, i)
    ensures AllFixed(y, 0, i) && y[i].xp == Span(y, 0, i)
  {
    assert ItemEvolves(x[i], y[i]);
    forall k | 0 <= k < i ensures y[k].fixed && Size(y[k]) == Size(x[k]) {
      assert ItemEvolves(x[k], y[k]);
    }
    SpanSame(x, y, 0, i);
  }

  /** Everything relaxation maintains. */
  ghost predicate Relaxing(src: seq<Line>, items: seq<Item>) {
    && WellReferenced(src)
    && Carries(src, items)
    && Roomy(src, items)
    && Placed(items)
  }
}
