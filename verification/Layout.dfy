/**
  From placed items to a program: the code is the items' bytes end to end, item addresses are
  instruction addresses, and branches that land make the program closed.
 */
module Layout {
  import opened Words
  import opened Immediates
  import opened Instructions
  import opened Assembly
  import opened LastResort
  import opened Machine
  import opened Safety

  /** The instructions among the first `n` items. */
  function OpsOf(items: seq<Item>, n: nat): (r: seq<Instr>)
    requires n <= |items|
  {
    if n == 0 then []
    else OpsOf(items, n - 1) + if items[n - 1].isOp then [items[n - 1].instr] else []
  }

  /** The bytes of the instructions among the first `n` items. */
  function CodeOf(items: seq<Item>, n: nat): (r: seq<byte>)
    requires n <= |items|
  {
    if n == 0 then []
    else CodeOf(items, n - 1) + if items[n - 1].isOp then items[n - 1].bytes else []
  }

  lemma {:induction false} EncodeAllSnoc(ops: seq<Instr>, op: Instr)
    ensures EncodeAll(ops + [op]) == EncodeAll(ops) + EncodeOp(op)
  {
    hide EncodeOp;
    if ops == [] {
      assert ops + [op] == [op];
      assert EncodeAll([op]) == EncodeOp(op) + EncodeAll([]);
    } else {
      EncodeAllSnoc(ops[1..], op);
      assert (ops + [op])[1..] == ops[1..] + [op];
      assert EncodeAll(ops + [op]) == EncodeOp(ops[0]) + (EncodeAll(ops[1..]) + EncodeOp(op));
    }
  }

  lemma {:induction false} AddressIsLength(ops: seq<Instr>, k: nat)
    requires k <= |ops|
    ensures Address(ops, k) == |EncodeAll(ops[..k])|
  {
    hide EncodeOp;
    if k > 0 {
      AddressIsLength(ops[1..], k - 1);
      assert ops[..k][1..] == ops[1..][..k - 1];
    }
  }

  lemma EncodeNothing()
    ensures EncodeAll([]) == []
  {
  }

  lemma PlacedItem(src: seq<Line>, items: seq<Item>, i: nat)
    requires Carries(src, items) && AllFixed(items, 0, |items|) && i < |items|
    ensures items[i].fixed && Size(items[i]) == |items[i].bytes|
    ensures if items[i].isOp then items[i].bytes == EncodeOp(items[i].instr) else items[i].bytes == []
  {
    hide EncodeOp;
    assert ItemOk(src[i], items[i]);
  }

  /** The code of placed items is the encoding of their instructions, as long as their span. */
  lemma {:induction false} CodeIsEncoding(src: seq<Line>, items: seq<Item>, n: nat)
    requires Carries(src, items) && AllFixed(items, 0, |items|) && n <= |items|
    ensures CodeOf(items, n) == EncodeAll(OpsOf(items, n)) && |CodeOf(items, n)| == Span(items, 0, n)
  {
    hide EncodeOp;
    hide EncodeAll, Carries, AllFixed;
    if n > 0 {
      CodeIsEncoding(src, items, n - 1);
      PlacedItem(src, items, n - 1);
      if items[n - 1].isOp {
        EncodeAllSnoc(OpsOf(items, n - 1), items[n - 1].instr);
      } else {
        assert CodeOf(items, n) == CodeOf(items, n - 1) && OpsOf(items, n) == OpsOf(items, n - 1);
      }
    } else {
      EncodeNothing();
    }
  }

  lemma {:induction false} OpsPrefix(items: seq<Item>, m: nat, n: nat)
    requires m <= n <= |items|
    ensures |OpsOf(items, m)| <= |OpsOf(items, n)| && OpsOf(items, n)[..|OpsOf(items, m)|] == OpsOf(items, m)
    decreases n
  {
    if m < n { OpsPrefix(items, m, n - 1); }
  }

  /** The address of an item is the address of the first instruction not before it. */
  lemma ItemAddress(src: seq<Line>, items: seq<Item>, i: nat)
    requires Carries(src, items) && AllFixed(items, 0, |items|) && i <= |items|
    ensures var ops, k := OpsOf(items, |items|), |OpsOf(items, i)|;
      k <= |ops| && Address(ops, k) == Span(items, 0, i)
  {
    OpsPrefix(items, i, |items|);
    AddressIsLength(OpsOf(items, |items|), |OpsOf(items, i)|);
    CodeIsEncoding(src, items, i);
  }

  /** At the address of an instruction's item the decoder finds that instruction. */
  lemma DecodesAtItem(src: seq<Line>, items: seq<Item>, i: nat)
    requires Carries(src, items) && AllFixed(items, 0, |items|) && i < |items| && items[i].isOp
    ensures DecodeOp(CodeOf(items, |items|), Span(items, 0, i)) == Decoded(Recovered(items[i].instr, Span(items, 0, i)))
    ensures src[i].OpLine? && items[i].instr.code == src[i].instr.code
            && items[i].instr.imm1 == src[i].instr.imm1 && items[i].instr.imm2 == src[i].instr.imm2
            && (src[i].ref.None? ==> items[i].instr == src[i].instr)
  {
    hide EncodeOp, DecodeOp, EncodeAll, Address, CodeOf, Recovered;
    assert ItemOk(src[i], items[i]);
    var ops, k := OpsOf(items, |items|), |OpsOf(items, i)|;
    OpsPrefix(items, i + 1, |items|);
    assert OpsOf(items, i + 1)[k] == items[i].instr;
    ItemAddress(src, items, i);
    CodeIsEncoding(src, items, |items|);
    DecodesAtEveryAddress(ops, k);
  }

  /** The item an instruction of the program comes from. */
  lemma {:induction false} ItemOfOp(items: seq<Item>, n: nat, k: nat) returns (p: nat)
    requires n <= |items| && k < |OpsOf(items, n)|
    ensures p < n && items[p].isOp && |OpsOf(items, p)| == k && OpsOf(items, n)[k] == items[p].instr
    ensures |OpsOf(items, p + 1)| == k + 1
  {
    if k < |OpsOf(items, n - 1)| {
      p := ItemOfOp(items, n - 1, k);
    } else {
      p := n - 1;
    }
  }

  /** Every code offset of the listing is a reference to a label. */
  ghost predicate OffsetsAreLabels(src: seq<Line>) {
    forall i :: 0 <= i < |src| && src[i].OpLine? && HasOffset(src[i].instr.code) ==> src[i].ref.Some?
  }

  /** A branch that lands leads from its end to the address of its label. */
  lemma LandingAddress(src: seq<Line>, items: seq<Item>, p: nat)
    requires WellReferenced(src) && |items| == |src| && p < |src| && src[p].OpLine? && src[p].ref.Some?
    requires Lands(src, items, p)
    ensures Span(items, 0, p + 1) + U2S(items[p].instr.imm0) == Span(items, 0, src[p].ref.value)
  {
    hide U2S;
    var q := src[p].ref.value;
    if q <= p {
      SpanSplit(items, 0, q, p + 1);
    } else {
      SpanSplit(items, 0, p + 1, q);
    }
  }

  /** A listing whose branches all land, and whose offsets are all labels, makes a closed program. */
  lemma LandingIsClosed(src: seq<Line>, items: seq<Item>)
    requires WellReferenced(src) && Carries(src, items) && AllFixed(items, 0, |items|)
    requires OffsetsAreLabels(src) && AllLand(src, items)
    ensures Closed(OpsOf(items, |items|))
    ensures CodeOf(items, |items|) == EncodeAll(OpsOf(items, |items|))
  {
    hide U2S, EncodeOp, EncodeAll, Address, OpsOf, Span, Lands;
    var ops := OpsOf(items, |items|);
    CodeIsEncoding(src, items, |items|);
    SizesBounded(src, items);
    SpanBound(items, 0, |items|);
    forall k | 0 <= k < |ops| && HasOffset(ops[k].code)
      ensures Boundary(ops, Address(ops, k + 1) + U2S(ops[k].imm0))
    {
      OffsetLeadsToBoundary(src, items, k);
    }
  }

  lemma OffsetLeadsToBoundary(src: seq<Line>, items: seq<Item>, k: nat)
    requires WellReferenced(src) && Carries(src, items) && AllFixed(items, 0, |items|)
    requires OffsetsAreLabels(src) && AllLand(src, items)
    requires k < |OpsOf(items, |items|)| && HasOffset(OpsOf(items, |items|)[k].code)
    ensures var ops := OpsOf(items, |items|); Boundary(ops, Address(ops, k + 1) + U2S(ops[k].imm0))
  {
    hide U2S, EncodeOp, EncodeAll, Address, OpsOf, Span, Lands;
    var p := ItemOfOp(items, |items|, k);
    assert ItemOk(src[p], items[p]);
    assert Lands(src, items, p);
    LandingAddress(src, items, p);
    ItemAddress(src, items, p + 1);
    ItemAddress(src, items, src[p].ref.value);
  }

  lemma SizesBounded(src: seq<Line>, items: seq<Item>)
    requires Carries(src, items)
    ensures forall k :: 0 <= k < |items| ==> Size(items[k]) <= MAX_OP
  {
    hide EncodeOp;
    forall k | 0 <= k < |items| ensures Size(items[k]) <= MAX_OP {
      assert ItemOk(src[k], items[k]);
    }
  }

  /**
    End to end: assemble a listing whose code offsets are all labels, with a clean last-resort
    pass, and run the result on any input, for any number of steps.  The machine stays on
    instruction boundaries, meets nothing it cannot decode, and never panics.
   */
  lemma AssembledProgramsAreSafe(src: seq<Line>, items: seq<Item>, p: Program, input: Bytes, n: nat)
    requires WellReferenced(src) && Carries(src, items) && AllFixed(items, 0, |items|)
    requires OffsetsAreLabels(src) && AllLand(src, items)
    requires p.code == CodeOf(items, |items|)
    ensures Safe(OpsOf(items, |items|), Run(p, input, Start(), n)) && !Run(p, input, Start(), n).Panic?
  {
    hide Closed, EncodeAll, CodeOf, OpsOf, Run, Safe;
    LandingIsClosed(src, items);
    StartSafe(p, input, OpsOf(items, |items|), n);
  }
}
