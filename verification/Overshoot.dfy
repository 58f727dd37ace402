/**
  A listing on which the assembler's step towards zero goes wrong: a backward jump over
  32763 one-byte instructions.  It settles at six bytes and distance -32769; one step nearer
  would need only four bytes, so the step is taken; but the instruction then shrinks by two,
  and the jump misses its label by one.
 */
module Overshoot {
  import opened Words
  import opened Immediates
  import opened Instructions
  import opened Assembly
  import opened Relaxation
  import opened LastResort
  import opened Foresight
  import opened Optimality
  import A = Assembler

  const PADDING: nat := 32763
  const PAD: Instr := Instr(NOP, 0, 0, 0)
  const BACK: Instr := Instr(JMP, 0, 0, 0)

  /** A label, the padding, and a jump back to the label. */
  function Listing(): (src: seq<Line>)
    ensures |src| == PADDING + 2
    ensures src[0] == LabelLine && src[PADDING + 1] == OpLine(BACK, Some(0))
    ensures forall i :: 1 <= i <= PADDING ==> src[i] == OpLine(PAD, None)
  {
    [LabelLine] + seq(PADDING, _ => OpLine(PAD, None)) + [OpLine(BACK, Some(0))]
  }

  lemma ListingWellReferenced()
    ensures WellReferenced(Listing())
  {
    hide Listing;
    assert HasOffset(JMP);
  }

  lemma NopIsOneByte()
    ensures |EncodeOp(PAD)| == 1
  {
    hide EncodeOp, EncodeImm;
    EncodedLength(PAD);
    FieldLength(Unused(), 0);
  }

  /** The label and the first `k - 1` instructions of padding. */
  lemma {:induction false} PaddingSpan(items: seq<Item>, k: nat)
    requires Carries(Listing(), items) && 1 <= k <= PADDING + 1
    ensures Span(items, 0, k) == k - 1
    decreases k
  {
    hide Listing, EncodeOp;
    assert ItemOk(Listing()[k - 1], items[k - 1]);
    if k == 1 {
      assert Span(items, 0, 0) == 0;
    } else {
      PaddingSpan(items, k - 1);
      NopIsOneByte();
    }
  }

  /** The jump's distance, and its need, at any length it may have. */
  lemma JumpDistance(items: seq<Item>)
    requires Carries(Listing(), items)
    ensures var j := PADDING + 1;
      DistanceOf(Listing(), items, j) == -32763 - Size(items[j])
  {
    hide Listing, ItemOk, Size;
    PaddingSpan(items, PADDING + 1);
  }

  lemma JumpNeed(n: i64)
    ensures HasOffset(BACK.code) && Need(BACK, n) == SignedWidth(n) + 2
  {
    hide Need, EncodeImm;
    assert HasOffset(JMP);
    NeedFormula(BACK, n);
    FieldLength(Unused(), 0);
  }

  /** Six bytes for the jump are consistent, so relaxation does not go below. */
  lemma SixIsConsistent(items: seq<Item>)
    requires Settled(Listing(), items) && |items| == PADDING + 2 && !items[PADDING + 1].fixed
    ensures Consistent(Listing(), items[PADDING + 1 := items[PADDING + 1].(maxLength := 6)])
  {
    hide Need, Settled, Listing;
    var src, j := Listing(), PADDING + 1;
    SettledRelaxing(src, items);
    var it := items[j].(maxLength := 6);
    var g := items[j := it];
    assert ItemOk(src[j], items[j]);
    CarriesUpdate(src, items, j, it);
    JumpDistance(g);
    JumpNeed(-32769);
    ToI64OfRange(-32769);
    assert forall p :: 0 <= p < |src| && src[p].OpLine? && src[p].ref.Some? ==> p == j;
  }

  /** However it got there, relaxation from above settles the jump at six bytes, 32769 away. */
  lemma SettlesAtSix(items: seq<Item>)
    requires Settled(Listing(), items) && Dominates(Listing(), items)
    ensures |items| == PADDING + 2 && Pending(items[PADDING + 1])
    ensures DistanceOf(Listing(), items, PADDING + 1) == -0x8001
  {
    hide Need, Settled, Listing;
    var src, j := Listing(), PADDING + 1;
    SettledRelaxing(src, items);
    BackwardPending(src, items, j);
    SixIsConsistent(items);
    var g := items[j := items[j].(maxLength := 6)];
    assert AtLeast(items, g);
    assert Size(g[j]) <= Size(items[j]);
    PendingFacts(src, items, j);
    SettledNeed(src, items, j);
    JumpDistance(items);
    JumpNeed(DistanceOf(src, items, j));
  }

  lemma {:induction false} FixedPass(items: seq<Item>, i: nat)
    requires i <= |items| && AllFixed(items, 0, i)
    ensures Pass(items, i) == items
  {
    hide Visit;
    if i > 0 {
      FixedPass(items, i - 1);
      FixedVisit(items, i - 1);
    }
  }

  /** Assembled as `Fix` assembles it, this listing's one branch does not land on its label. */
  lemma JumpMisses(settled: seq<Item>)
    requires Settled(Listing(), settled) && Dominates(Listing(), settled)
    ensures |settled| == |Listing()| && WellReferenced(Listing())
    ensures !CleanPass(Listing(), settled)
    ensures !AllLand(Listing(), Pass(settled, |Listing()|))
  {
    hide Need, Settled, Listing, Pass, Distance, CleanPass;
    var src, j := Listing(), PADDING + 1;
    ListingWellReferenced();
    SettledRelaxing(src, settled);
    SettlesAtSix(settled);
    PaddingFixed(settled);
    FixedPass(settled, j);
    ToI64OfRange(-0x8001);
    assert !CleanVisit(src, Pass(settled, j), j);
    LandsIffVisitsClean(src, settled);
    LandsIffClean(src, settled);
  }

  lemma PaddingFixed(items: seq<Item>)
    requires Carries(Listing(), items)
    ensures AllFixed(items, 0, PADDING + 1)
  {
    hide Listing;
    forall k | 0 <= k < PADDING + 1 ensures items[k].fixed {
      assert ItemOk(Listing()[k], items[k]);
    }
  }

  // ---- the same listing, assembled

  /** What is emitted: the label, `n` instructions of padding. */
  ghost function Padded(n: nat): (r: seq<A.Stmt>)
    ensures |r| == n + 1 && r[0] == A.LabelStmt("back")
    ensures forall i :: 1 <= i <= n ==> r[i] == A.OpStmt(PAD, None)
  {
    [A.LabelStmt("back")] + seq(n, _ => A.OpStmt(PAD, None))
  }

  lemma PadMore(n: nat)
    ensures Padded(n) + [A.OpStmt(PAD, None)] == Padded(n + 1)
  {
  }

  ghost function Emitted(): (r: seq<A.Stmt>) {
    Padded(PADDING) + [A.OpStmt(BACK, Some("back"))]
  }

  lemma EmittedResolves()
    ensures A.Resolve(Emitted()) == Listing() && A.Complete(Emitted())
  {
    hide Listing, Padded;
    var st := Emitted();
    assert st[0] == A.LabelStmt("back");
    assert A.Position(st, "back") == 0;
    forall i | 0 <= i < |st| ensures A.Resolve(st)[i] == Listing()[i] {
      assert i == PADDING + 1 || st[i] == Padded(PADDING)[i];
    }
    assert forall i :: 0 <= i < |st| && st[i].OpStmt? && st[i].ref.Some? ==> i == PADDING + 1;
  }

  /**
    Emit the label, the padding and the jump, and finish: the program that comes out has a
    jump that does not lead to its label.
   */
  method Assemble() returns (a: A.Assembler, code: seq<byte>, labels: seq<A.Label>)
    ensures fresh(a) && a.stmts == Emitted() && A.Resolve(a.stmts) == Listing()
    ensures code == A.Y.CodeOf(a.items, |a.items|) && |a.items| == |a.stmts| && WellReferenced(Listing())
    ensures labels == [A.Label("back", true, 0)]
    ensures !AllLand(Listing(), a.items)
  {
    hide Listing, Padded, A.Assembler.Building, AllLand, CleanPass, A.LabelsIn, A.Complete, A.Resolve;
    a := EmitAll();
    EmittedResolves();
    ghost var settled;
    var byName;
    code, labels, byName, settled := a.Finish();
    JumpMisses(settled);
    OneLabel(a.items, PADDING + 1);
    ListingWellReferenced();
  }

  lemma {:induction false} OneLabel(items: seq<Item>, n: nat)
    requires |items| == PADDING + 2 && 1 <= n <= PADDING + 1
    ensures |Emitted()| == |items| && A.LabelsIn(Emitted(), items, n) == [A.Label("back", true, 0)]
    ensures A.LabelsIn(Emitted(), items, PADDING + 2) == A.LabelsIn(Emitted(), items, PADDING + 1)
  {
    hide Padded;
    var st := Emitted();
    if n == 1 {
      assert st[0] == A.LabelStmt("back");
      assert A.LabelsIn(st, items, 0) == [];
      assert "back"[0] == 'b' && A.IsPublic("back");
    } else {
      OneLabel(items, n - 1);
      assert st[n - 1] == Padded(PADDING)[n - 1];
    }
    assert st[PADDING + 1] == A.OpStmt(BACK, Some("back"));
  }

  method EmitAll() returns (a: A.Assembler)
    ensures fresh(a) && fresh(a.list) && a.Building() && a.stmts == Emitted()
  {
    hide Padded, A.Assembler.Building;
    a := new A.Assembler();
    a.EmitLabel("back");
    ghost var m := a.labelsByName;
    assert a.stmts == Padded(0);
    for i := 0 to PADDING
      invariant fresh(a) && a.Building() && a.stmts == Padded(i) && |a.list| == i + 1
      invariant a.labelsByName == m
      invariant fresh(a.list) && fresh(m.Values)
    {
      ghost var before := a.list;
      a.EmitOp(PAD, null);
      assert a.list == before + [a.list[i + 1]];
      PadMore(i);
    }
    var goal := a.GrabLabel("back");
    assert HasOffset(BACK.code);
    ghost var before := a.list;
    a.EmitOp(BACK, goal);
    assert a.list == before + [a.list[PADDING + 1]];
  }
}
