/**
  The assembler as it runs: item objects updated in place, a worklist of references to them,
  and the loops that relax, force and place them (`peggyvm/assembler.go`).

  The ghost field `items` holds the value of every listed item, references replaced by
  positions in the list; each method is proved to do to it what the step functions say.
 */
module Assembler {
  import opened Words
  import opened Immediates
  import opened Instructions
  import opened Assembly
  import R = Relaxation
  import W = Worklist
  import L = LastResort
  import F = Foresight
  import O = Optimality
  import Y = Layout
  import Safety

  /** The index of an item that is not in the list. */
  const UNLINKED: nat := 0xffff_ffff_ffff_ffff

  /** What has been emitted, references by name. */
  datatype Stmt = LabelStmt(name: string) | OpStmt(instr: Instr, ref: Option<string>)

  /** The position of a label's statement. */
  function Position(stmts: seq<Stmt>, name: string): (r: nat)
    ensures LabelStmt(name) in stmts ==> r < |stmts| && stmts[r] == LabelStmt(name)
  {
    if stmts == [] || stmts[0] == LabelStmt(name) then 0 else 1 + Position(stmts[1..], name)
  }

  /** The listing with references by position. */
  function ResolveOne(stmts: seq<Stmt>, st: Stmt): (r: Line) {
    match st
    case LabelStmt(_) => LabelLine
    case OpStmt(instr, None) => OpLine(instr, None)
    case OpStmt(instr, Some(name)) => OpLine(instr, Some(Position(stmts, name)))
  }

  function Resolve(stmts: seq<Stmt>): (r: seq<Line>)
    ensures |r| == |stmts|
    ensures forall i :: 0 <= i < |stmts| ==> r[i] == ResolveOne(stmts, stmts[i])
  {
    seq(|stmts|, i requires 0 <= i < |stmts| => ResolveOne(stmts, stmts[i]))
  }

  /** Every label referred to has been emitted, and the listing fits in memory. */
  ghost predicate Complete(stmts: seq<Stmt>) {
    && MAX_OP * |stmts| < HIGHBIT
    && forall i :: 0 <= i < |stmts| && stmts[i].OpStmt? && stmts[i].ref.Some? ==>
         LabelStmt(stmts[i].ref.value) in stmts
  }

  /** A label is public unless its name begins with a dot. */
  predicate IsPublic(name: string) {
    !("." <= name)
  }

  /** A label of the finished program. */
  datatype Label = Label(name: string, isPublic: bool, offset: nat)

  /** The labels among the first `n` statements, in order, each at the length of what precedes it. */
  function LabelsIn(stmts: seq<Stmt>, items: seq<Item>, n: nat): (r: seq<Label>)
    requires n <= |stmts| == |items|
  {
    if n == 0 then []
    else
      var r := LabelsIn(stmts, items, n - 1);
      match stmts[n - 1]
      case LabelStmt(name) => r + [Label(name, IsPublic(name), Span(items, 0, n - 1))]
      case OpStmt(_, _) => r
  }

  /** The index of a program's labels: one entry per label, under its name. */
  ghost predicate Indexes(byName: map<string, Label>, labels: seq<Label>) {
    && (forall l :: l in labels ==> l.name in byName && byName[l.name] == l)
    && (forall name :: name in byName ==> byName[name].name == name && byName[name] in labels)
  }

  /** No label is emitted twice. */
  ghost predicate Distinct(stmts: seq<Stmt>) {
    forall i, j :: 0 <= i < j < |stmts| && stmts[i].LabelStmt? ==> stmts[j] != stmts[i]
  }

  /** Where a label of the program comes from. */
  lemma {:induction false} LabelOrigin(stmts: seq<Stmt>, items: seq<Item>, n: nat, l: Label)
    requires n <= |stmts| == |items| && l in LabelsIn(stmts, items, n)
    ensures exists i :: 0 <= i < n && stmts[i] == LabelStmt(l.name) && l.offset == Span(items, 0, i)
    ensures l.isPublic <==> l.name == "" || l.name[0] != '.'
    decreases n
  {
    if l in LabelsIn(stmts, items, n - 1) {
      LabelOrigin(stmts, items, n - 1, l);
    }
  }

  /** Every label emitted comes out, at the length of what precedes it. */
  lemma {:induction false} LabelKept(stmts: seq<Stmt>, items: seq<Item>, n: nat, i: nat)
    requires i < n <= |stmts| == |items| && stmts[i].LabelStmt?
    ensures exists l :: l in LabelsIn(stmts, items, n) && l.name == stmts[i].name && l.offset == Span(items, 0, i)
    decreases n
  {
    if i < n - 1 {
      LabelKept(stmts, items, n - 1, i);
    } else {
      var l := Label(stmts[i].name, IsPublic(stmts[i].name), Span(items, 0, i));
      assert l in LabelsIn(stmts, items, n);
    }
  }

  /** And none of them twice. */
  lemma {:induction false} LabelsOnce(stmts: seq<Stmt>, items: seq<Item>, n: nat)
    requires n <= |stmts| == |items| && Distinct(stmts)
    ensures NamesDiffer(LabelsIn(stmts, items, n))
    decreases n
  {
    if n > 0 {
      LabelsOnce(stmts, items, n - 1);
      var q := LabelsIn(stmts, items, n - 1);
      forall l | l in q && stmts[n - 1].LabelStmt? ensures l.name != stmts[n - 1].name {
        LabelOrigin(stmts, items, n - 1, l);
      }
      assert forall j :: 0 <= j < |q| ==> q[j] in q;
    }
  }

  ghost predicate NamesDiffer(labels: seq<Label>) {
    forall j, k :: 0 <= j < k < |labels| ==> labels[j].name != labels[k].name
  }

  ghost predicate ByAddress(labels: seq<Label>) {
    forall j, k :: 0 <= j < k < |labels| ==> labels[j].offset <= labels[k].offset
  }

  /** Labels come out in order of address, as searching them by address presumes. */
  lemma {:induction false} LabelsAscend(stmts: seq<Stmt>, items: seq<Item>, n: nat)
    requires n <= |stmts| == |items|
    ensures ByAddress(LabelsIn(stmts, items, n))
    decreases n
  {
    if n > 0 {
      LabelsAscend(stmts, items, n - 1);
      var q, r := LabelsIn(stmts, items, n - 1), LabelsIn(stmts, items, n);
      forall j, k | 0 <= j < k < |r| ensures r[j].offset <= r[k].offset {
        if k < |q| {
          assert r[j] == q[j] && r[k] == q[k];
        } else {
          LabelsBefore(stmts, items, n - 1, j);
        }
      }
    }
  }

  lemma LabelsBefore(stmts: seq<Stmt>, items: seq<Item>, n: nat, j: nat)
    requires n <= |stmts| == |items| && j < |LabelsIn(stmts, items, n)|
    ensures LabelsIn(stmts, items, n)[j].offset <= Span(items, 0, n)
  {
    var l := LabelsIn(stmts, items, n)[j];
    LabelOrigin(stmts, items, n, l);
    var i :| 0 <= i < n && stmts[i] == LabelStmt(l.name) && l.offset == Span(items, 0, i);
    SpanSplit(items, 0, i, n);
  }

  lemma IndexNext(stmts: seq<Stmt>, items: seq<Item>, n: nat, byName: map<string, Label>)
    requires n < |stmts| == |items| && Distinct(stmts) && Indexes(byName, LabelsIn(stmts, items, n))
    requires stmts[n].LabelStmt?
    ensures var l := Label(stmts[n].name, IsPublic(stmts[n].name), Span(items, 0, n));
      Indexes(byName[l.name := l], LabelsIn(stmts, items, n + 1))
  {
    hide Span;
    if stmts[n].name in byName {
      LabelOrigin(stmts, items, n, byName[stmts[n].name]);
    }
  }

  class AsmItem {
    var index: nat
    const isOp: bool
    const name: string
    const isPublic: bool
    var seen: bool
    var knownXP: bool
    var xp: nat
    var instr: Instr
    var fixed: bool
    var bytes: seq<byte>
    var maxLength: nat
    var blocking: seq<AsmItem>
    var fixBlockedBy: AsmItem?

    /** A label nobody has emitted yet. */
    constructor Label(name: string)
      requires name != ""
      ensures !isOp && this.name == name && isPublic == IsPublic(name) && !seen && !knownXP && index == UNLINKED
      ensures fixed && bytes == [] && maxLength == 0 && blocking == [] && fixBlockedBy == null
    {
      isOp, this.name, isPublic, seen := false, name, name[0] != '.', false;
      index, knownXP, xp, instr := UNLINKED, false, 0, Instr(NOP, 0, 0, 0);
      fixed, bytes, maxLength, blocking, fixBlockedBy := true, [], 0, [], null;
    }

    /** An instruction, waiting for its label if it has one. */
    constructor Op(instr: Instr, goal: AsmItem?)
      ensures isOp && this.instr == instr && !knownXP && index == UNLINKED
      ensures !fixed && blocking == [] && fixBlockedBy == goal
    {
      isOp, name, isPublic, seen := true, "", false, false;
      index, knownXP, xp, this.instr := UNLINKED, false, 0, instr;
      fixed, bytes, maxLength, blocking, fixBlockedBy := false, [], MAX_OP, [], goal;
    }

    /** This object holds the value `v`, references read as positions in `list`. */
    ghost predicate Holds(list: seq<AsmItem>, v: Item)
      reads this
    {
      && isOp == v.isOp && instr == v.instr
      && fixed == v.fixed && bytes == v.bytes && maxLength == v.maxLength
      && knownXP == v.knownXP && xp == v.xp
      && (fixBlockedBy == null ==> v.blockedBy.None?)
      && (v.blockedBy.Some? ==> v.blockedBy.value < |list| && fixBlockedBy == list[v.blockedBy.value])
      && |blocking| == |v.blocking|
      && forall k :: 0 <= k < |blocking| ==> v.blocking[k] < |list| && blocking[k] == list[v.blocking[k]]
    }

    method ApplyFixup(s: i64)
      modifies this`instr
      ensures instr == WithOffset(old(instr), s)
    {
      instr := Instr(instr.code, S2U(s), instr.imm1, instr.imm2);
    }

    method Generate()
      modifies this`bytes, this`maxLength, this`fixed, this`fixBlockedBy
      ensures bytes == EncodeOp(instr) && maxLength == |bytes| && fixed && fixBlockedBy == null
    {
      bytes := EncodeOp(instr);
      maxLength := |bytes|;
      fixed := true;
      fixBlockedBy := null;
    }
  }

  class Assembler {
    var list: seq<AsmItem>
    var labelsByName: map<string, AsmItem>
    var queue: seq<AsmItem>
    ghost var stmts: seq<Stmt>
    ghost var items: seq<Item>
    ghost var order: seq<nat>

    constructor ()
      ensures Building() && stmts == [] && list == [] && labelsByName == map[]
    {
      list, labelsByName, queue, items, order, stmts := [], map[], [], [], [], [];
    }

    ghost predicate Valid()
      reads this, list
    {
      && |items| == |list|
      && forall i :: 0 <= i < |list| ==>
           list[i].index == i && list[i].Holds(list, items[i]) && (list[i].isOp || list[i].seen)
    }

    ghost predicate Listed(item: AsmItem)
      reads this, item
    {
      item.index < |list| && list[item.index] == item
    }

    // ---- single updates, each mirrored in `items`

    method Place(item: AsmItem, at: nat)
      requires Valid() && Listed(item)
      modifies this`items, item`xp, item`knownXP
      ensures Valid() && items == old(items)[item.index := old(items)[item.index].(xp := at, knownXP := true)]
    {
      item.xp := at;
      item.knownXP := true;
      items := items[item.index := items[item.index].(xp := at, knownXP := true)];
    }

    method Park(prev: AsmItem, item: AsmItem)
      requires Valid() && Listed(prev) && Listed(item)
      modifies this`items, prev`blocking
      ensures Valid()
      ensures var v := old(items)[prev.index];
        items == old(items)[prev.index := v.(blocking := v.blocking + [item.index])]
    {
      prev.blocking := prev.blocking + [item];
      ghost var v := items[prev.index];
      items := items[prev.index := v.(blocking := v.blocking + [item.index])];
    }

    method Unpark(item: AsmItem) returns (released: seq<AsmItem>)
      requires Valid() && Listed(item)
      modifies this`items, item`blocking
      ensures Valid() && items == R.Released(old(items), item.index)
      ensures released == old(item.blocking)
    {
      released := item.blocking;
      item.blocking := [];
      items := items[item.index := items[item.index].(blocking := [])];
    }

    method Reaim(item: AsmItem, n: i64)
      requires Valid() && Listed(item)
      modifies this`items, item`instr
      ensures Valid() && items == old(items)[item.index := R.ApplyFixup(old(items)[item.index], n)]
    {
      hide S2U;
      item.ApplyFixup(n);
      items := items[item.index := R.ApplyFixup(items[item.index], n)];
    }

    method Shorten(item: AsmItem, ml: nat)
      requires Valid() && Listed(item)
      modifies this`items, item`maxLength
      ensures Valid() && items == old(items)[item.index := old(items)[item.index].(maxLength := ml)]
    {
      item.maxLength := ml;
      items := items[item.index := items[item.index].(maxLength := ml)];
    }

    method Seal(item: AsmItem)
      requires Valid() && Listed(item)
      modifies this`items, item`bytes, item`maxLength, item`fixed, item`fixBlockedBy
      ensures Valid() && items == old(items)[item.index := R.Generate(old(items)[item.index])]
    {
      hide EncodeOp;
      item.Generate();
      items := items[item.index := R.Generate(items[item.index])];
    }

    lemma Held(i: nat)
      requires Valid() && i < |list|
      ensures list[i].index == i && Listed(list[i]) && list[i].Holds(list, items[i]) && (list[i].isOp || list[i].seen)
    {
    }

    // ---- trySetXP, distance, tryFix

    method TrySetXP(item: AsmItem) returns (progress: bool)
      requires Valid() && Listed(item)
      modifies this`items, list
      ensures Valid() && Listed(item) && item.index == old(item.index)
      ensures R.Stepped(items, progress) == R.TrySetXP(old(items), item.index)
    {
      Held(item.index);
      if item.knownXP {
        return false;
      }
      if item.index == 0 {
        Place(item, 0);
        return true;
      }
      var prev := list[item.index - 1];
      Held(item.index - 1);
      if prev.knownXP && prev.fixed {
        Place(item, prev.xp + |prev.bytes|);
        return true;
      }
      Park(prev, item);
      return false;
    }

    method Measure(k: nat) returns (size: nat, fixed: bool)
      requires Valid() && k < |list|
      ensures size == Size(items[k]) && fixed == items[k].fixed
    {
      Held(k);
      var item := list[k];
      if item.fixed {
        return |item.bytes|, true;
      } else {
        return item.maxLength, false;
      }
    }

    /** The distance from the end of `p` to the start of `q`, and whether it can still change. */
    method Distance(p: AsmItem, q: AsmItem) returns (n: i64, exact: bool)
      requires Valid() && Listed(p) && Listed(q)
      ensures n == R.Offset64(Assembly.Distance(items, p.index, q.index))
      ensures exact == R.IsExact(items, p.index, q.index)
    {
      hide R.Offset64, AsmItem.Holds;
      var i, j := p.index + 1, q.index;
      var total: int := 0;
      exact := true;
      if i > j {
        while i != j
          invariant j <= i <= p.index + 1
          invariant total == Span(items, i, p.index + 1)
          invariant exact == forall k :: i <= k < p.index + 1 ==> items[k].fixed
        {
          SpanSplit(items, i - 1, i, p.index + 1);
          i := i - 1;
          var size, fixed := Measure(i);
          total := total + size;
          exact := exact && fixed;
        }
        n := R.Offset64(0 - total);
      } else {
        while i != j
          invariant p.index + 1 <= i <= j
          invariant total == Span(items, p.index + 1, i)
          invariant exact == forall k :: p.index + 1 <= k < i ==> items[k].fixed
        {
          var size, fixed := Measure(i);
          total := total + size;
          exact := exact && fixed;
          i := i + 1;
        }
        n := R.Offset64(total);
      }
    }

    /**
      A pending item waits for a label; once that is emitted, the item would be no longer at
      its present distance than the length it holds.
     */
    ghost predicate Roomy(item: AsmItem)
      requires Valid() && Listed(item)
      reads this, list, item, item.fixBlockedBy
    {
      var v := items[item.index];
      v.fixed
      || (item.fixBlockedBy != null
          && if item.fixBlockedBy.seen
             then v.blockedBy.Some? && v.blockedBy.value < |items| && Fitting(items, item.index)
             else v.blockedBy.None?)
    }

    static ghost predicate Fitting(items: seq<Item>, i: nat)
      requires i < |items| && items[i].blockedBy.Some? && items[i].blockedBy.value < |items|
    {
      var v := items[i];
      |EncodeOp(WithOffset(v.instr, R.Offset64(Assembly.Distance(items, i, v.blockedBy.value))))| <= v.maxLength
    }

    method TryFix(item: AsmItem) returns (progress: bool)
      requires Valid() && Listed(item) && Roomy(item)
      modifies this`items, list
      ensures Valid() && Listed(item) && item.index == old(item.index)
      ensures R.Stepped(items, progress) == R.TryFix(old(items), item.index)
    {
      hide R.Offset64, EncodeOp, S2U, Assembly.Distance, R.IsExact;
      Held(item.index);
      if item.fixed {
        return false;
      }
      var goal := item.fixBlockedBy;
      if !goal.seen {
        return false;
      }
      Held(items[item.index].blockedBy.value);
      var n, exact := Distance(item, goal);
      Reaim(item, n);
      if exact {
        Seal(item);
        return true;
      }
      Held(item.index);
      var ml := |EncodeOp(item.instr)|;
      if ml < item.maxLength {
        Shorten(item, ml);
        return true;
      }
      // The program asserts here that the length has not grown.
      assert ml == item.maxLength;
      return false;
    }

    // ---- the worklist

    /** The queue holds the listed items at the positions in `order`. */
    ghost predicate Queued()
      reads this
    {
      |queue| == |order| && forall k :: 0 <= k < |queue| ==> order[k] < |list| && queue[k] == list[order[k]]
    }

    method Attempt(item: AsmItem, ghost src: seq<Line>) returns (progress: bool)
      requires Valid() && Listed(item) && Relaxing(src, items)
      modifies this`items, list
      ensures Valid() && Listed(item) && item.index == old(item.index)
      ensures R.Stepped(items, progress) == R.Attempt(old(items), item.index)
    {
      hide Relaxing, EncodeOp, R.Offset64, R.TrySetXP, R.TryFix;
      Held(item.index);
      if item.knownXP && item.fixed {
        return false;
      }
      R.TrySetXPKeeps(src, items, item.index);
      var prog0 := TrySetXP(item);
      ghost var mid := items;
      if !items[item.index].fixed {
        R.MaxLengthNeverGrows(src, items, item.index);
        Held(item.index);
        Held(items[item.index].blockedBy.value);
      }
      var prog1 := TryFix(item);
      progress := prog0 || prog1;
    }

    /** Put everything parked with an item on the queue. */
    method Requeue(item: AsmItem)
      requires Valid() && Listed(item) && Queued()
      modifies this`items, this`queue, this`order, item`blocking
      ensures Valid() && Queued()
      ensures items == R.Released(old(items), item.index)
      ensures order == old(order) + old(items)[item.index].blocking
    {
      hide AsmItem.Holds;
      HeldBlocking(item.index);
      ghost var parked := items[item.index].blocking;
      var released := Unpark(item);
      queue := queue + released;
      order := order + parked;
    }

    lemma HeldBlocking(i: nat)
      requires Valid() && i < |list|
      ensures |list[i].blocking| == |items[i].blocking|
      ensures forall k :: 0 <= k < |list[i].blocking| ==>
                items[i].blocking[k] < |list| && list[i].blocking[k] == list[items[i].blocking[k]]
    {
    }

    method ProcessItem(item: AsmItem, ghost src: seq<Line>) returns (progress: bool)
      requires Valid() && Listed(item) && Queued() && Relaxing(src, items)
      modifies this`items, this`queue, this`order, list
      ensures Valid() && Listed(item) && item.index == old(item.index) && Queued()
      ensures R.Stepped(items, progress) == R.Turn(old(items), item.index)
      ensures order == old(order) + R.Attempt(old(items), item.index).items[item.index].blocking
    {
      hide Relaxing, R.Attempt;
      progress := Attempt(item, src);
      if |item.blocking| != 0 {
        Requeue(item);
      } else {
        Held(item.index);
        assert items[item.index].blocking == [];
        assert R.Released(items, item.index) == items;
      }
    }

    /** What one drain of the worklist does to the items. */
    static ghost predicate Drained(src: seq<Line>, x: seq<Item>, y: seq<Item>, progress: bool) {
      && Relaxing(src, y) && Evolves(x, y) && |y| == |src| && WellReferenced(src)
      && (AllExact(src, x) ==> AllExact(src, y))
      && (O.Dominates(src, x) ==> O.Dominates(src, y))
      && (progress ==> R.Work(y) < R.Work(x))
      && (!progress ==> R.Same(x, y) && R.Work(y) == R.Work(x))
    }

    static lemma DrainedStep(src: seq<Line>, x: seq<Item>, y: seq<Item>, i: nat, progress: bool)
      requires |x| == |src| && Drained(src, x, y, progress) && i < |y|
      ensures var r := R.Turn(y, i); Drained(src, x, r.items, progress || r.progress)
    {
      hide Relaxing, Evolves, R.Work, R.Turn, AllExact, O.Dominates, R.Same, WellReferenced;
      R.TurnKeeps(src, y, i);
      if O.Dominates(src, y) {
        O.TurnDominates(src, y, i);
      }
      var r := R.Turn(y, i);
      EvolvesTrans(x, y, r.items);
      if !progress && !r.progress {
        R.SameTrans(x, y, r.items);
      }
    }

    static lemma DrainedSelf(src: seq<Line>, x: seq<Item>)
      requires Relaxing(src, x)
      ensures |x| == |src| && Drained(src, x, x, false)
    {
      R.RelaxingEvolvesSelf(x);
    }

    static lemma BlockingOk(src: seq<Line>, x: seq<Item>)
      requires Relaxing(src, x)
      ensures W.InRange(W.Blocking(x))
    {
    }

    /** The entry at the head of the queue, and the worklist's measure after it is processed. */
    static lemma QueueShrinks(src: seq<Line>, x: seq<Item>, q: seq<nat>, bound: nat)
      requires Relaxing(src, x) && q != [] && (forall k :: 0 <= k < |q| ==> q[k] < |x|)
      requires |q| + W.Total(W.Blocking(x)) <= bound
      ensures var y, p := R.Turn(x, q[0]).items, q[1..] + R.Attempt(x, q[0]).items[q[0]].blocking;
        && (forall k :: 0 <= k < |p| ==> p[k] < |x|)
        && |p| + W.Total(W.Blocking(y)) <= bound
        && (W.TotalBackward(W.Blocking(y)) < W.TotalBackward(W.Blocking(x))
            || (W.TotalBackward(W.Blocking(y)) == W.TotalBackward(W.Blocking(x))
                && W.Weigh(bound + 1, |x|, p) < W.Weigh(bound + 1, |x|, q)))
    {
      hide Relaxing, R.Attempt, R.Released, W.Total, W.TotalBackward, W.Weigh;
      var i := q[0];
      BlockingOk(src, x);
      W.AttemptBlocking(x, i);
      W.ReleaseBlocking(R.Attempt(x, i).items, i);
      W.TurnShrinks(W.Blocking(x), q, W.Parks(x, i), bound);
      assert W.Blocking(R.Attempt(x, i).items)[i] == R.Attempt(x, i).items[i].blocking;
    }

    /** Every queued item has been processed, to no avail, or is still to come. */
    static ghost predicate Covered(src: seq<Line>, first: seq<nat>, q: seq<nat>, done: set<nat>,
                                   y: seq<Item>, progress: bool)
    {
      && (forall k :: 0 <= k < |first| ==> first[k] in q || first[k] in done)
      && (!progress ==> forall i :: i in done ==> i < |y| == |src| && R.StuckAt(src, y, i))
    }

    static lemma CoveredStep(src: seq<Line>, first: seq<nat>, q: seq<nat>, done: set<nat>, y: seq<Item>, progress: bool)
      requires Relaxing(src, y) && Covered(src, first, q, done, y, progress) && q != [] && q[0] < |y|
      ensures var r := R.Turn(y, q[0]);
        var p := q[1..] + R.Attempt(y, q[0]).items[q[0]].blocking;
        Covered(src, first, p, done + {q[0]}, r.items, progress || r.progress)
    {
      hide Relaxing, R.Turn, R.Attempt, R.StuckAt, R.Same, R.Work, Evolves, AllExact;
      R.RelaxingLength(src, y);
      R.TurnKeeps(src, y, q[0]);
      var r := R.Turn(y, q[0]);
      var p := q[1..] + R.Attempt(y, q[0]).items[q[0]].blocking;
      forall k | 0 <= k < |first| ensures first[k] in p || first[k] in done + {q[0]} {
        if first[k] in q { assert first[k] == q[0] || first[k] in q[1..]; }
      }
      if !progress && !r.progress {
        forall i | i in done + {q[0]} ensures i < |r.items| == |src| && R.StuckAt(src, r.items, i) {
          if i != q[0] { R.StuckStays(src, y, r.items, i); }
        }
      }
    }

    /** Take the first entry off the queue. */
    method Dequeue() returns (item: AsmItem)
      requires Valid() && Queued() && queue != []
      modifies this`queue, this`order
      ensures Valid() && Queued() && Listed(item) && item.index == old(order)[0] && order == old(order)[1..]
    {
      item := queue[0];
      Held(order[0]);
      queue := queue[1..];
      order := order[1..];
    }

    /** Drain the worklist: it always ends, and without progress every queued item is stuck. */
    method Process(ghost src: seq<Line>) returns (progress: bool)
      requires Valid() && Queued() && Relaxing(src, items)
      modifies this`items, this`queue, this`order, list
      ensures Valid() && Queued() && queue == []
      ensures |old(items)| == |src| && Drained(src, old(items), items, progress)
      ensures !progress ==> forall k :: 0 <= k < |old(order)| ==>
                old(order)[k] < |items| && R.StuckAt(src, items, old(order)[k])
    {
      hide Relaxing, R.Turn, R.Attempt, R.StuckAt, W.Total, W.TotalBackward, W.Weigh, W.Blocking, Drained, Covered,
           AsmItem.Holds;
      progress := false;
      ghost var start, first, done := items, order, {};
      ghost var bound := |order| + W.Total(W.Blocking(items));
      DrainedSelf(src, items);
      CoveredStart(src, order, items);
      while |queue| != 0
        invariant Valid() && Queued() && |items| == |list|
        invariant Drained(src, start, items, progress)
        invariant |order| + W.Total(W.Blocking(items)) <= bound
        invariant Covered(src, first, order, done, items, progress)
        decreases W.TotalBackward(W.Blocking(items)), W.Weigh(bound + 1, |items|, order)
      {
        ghost var x, q := items, order;
        DrainedRelaxing(src, start, x, progress);
        QueueShrinks(src, x, q, bound);
        DrainedStep(src, start, x, q[0], progress);
        CoveredStep(src, first, q, done, x, progress);
        var item := Dequeue();
        var p := ProcessItem(item, src);
        if p {
          progress := true;
        }
        done := done + {q[0]};
      }
      CoveredEnd(src, first, done, items, progress);
    }

    static lemma DrainedRelaxing(src: seq<Line>, x: seq<Item>, y: seq<Item>, progress: bool)
      requires Drained(src, x, y, progress)
      ensures Relaxing(src, y) && |y| == |src|
    {
    }

    static lemma CoveredStart(src: seq<Line>, first: seq<nat>, y: seq<Item>)
      ensures Covered(src, first, first, {}, y, false)
    {
    }

    static lemma CoveredEnd(src: seq<Line>, first: seq<nat>, done: set<nat>, y: seq<Item>, progress: bool)
      requires Covered(src, first, [], done, y, progress) && |y| == |src|
      ensures !progress ==> forall k :: 0 <= k < |first| ==> first[k] < |y| && R.StuckAt(src, y, first[k])
    {
    }

    // ---- Fix

    static ghost function Positions(n: nat): (r: seq<nat>)
      ensures |r| == n && forall k :: 0 <= k < n ==> r[k] == k
    {
      seq(n, k => k)
    }

    method EnqueueAll()
      requires Queued()
      modifies this`queue, this`order
      ensures Queued() && order == old(order) + Positions(|list|)
    {
      queue := queue + list;
      order := order + Positions(|list|);
    }

    static lemma AllCovered(src: seq<Line>, y: seq<Item>, o: seq<nat>)
      requires o == Positions(|src|) && |y| == |src|
      requires forall k :: 0 <= k < |o| ==> o[k] < |y| && R.StuckAt(src, y, o[k])
      ensures forall i :: 0 <= i < |src| ==> R.StuckAt(src, y, i)
    {
      hide R.StuckAt;
      forall i | 0 <= i < |src| ensures R.StuckAt(src, y, i) {
        assert o[i] == i;
      }
    }

    static lemma DrainedFacts(src: seq<Line>, start: seq<Item>, x: seq<Item>, y: seq<Item>, progress: bool)
      requires Drained(src, x, y, progress) && Evolves(start, x)
      ensures Relaxing(src, y) && Evolves(start, y) && |y| == |src| && WellReferenced(src)
      ensures AllExact(src, x) ==> AllExact(src, y)
      ensures O.Dominates(src, x) ==> O.Dominates(src, y)
      ensures progress ==> R.Work(y) < R.Work(x)
    {
      hide Relaxing, Evolves, R.Work, AllExact, O.Dominates, R.Same, WellReferenced;
      EvolvesTrans(start, x, y);
    }

    /** Process everything, again and again, until a whole round makes no progress. */
    method Relax(ghost src: seq<Line>)
      requires Valid() && Queued() && queue == [] && Relaxing(src, items)
      modifies this`items, this`queue, this`order, list
      ensures Valid() && Queued() && queue == []
      ensures |old(items)| == |items| == |src| && Relaxing(src, items) && Evolves(old(items), items) && WellReferenced(src)
      ensures AllExact(src, old(items)) ==> AllExact(src, items)
      ensures O.Dominates(src, old(items)) ==> O.Dominates(src, items)
      ensures forall i :: 0 <= i < |src| ==> R.StuckAt(src, items, i)
    {
      hide Relaxing, R.StuckAt, AllExact, O.Dominates, Evolves, AsmItem.Holds, WellReferenced, Drained, R.Work;
      ghost var start := items;
      R.RelaxingEvolvesSelf(items);
      R.RelaxingLength(src, items);
      var progress := true;
      while progress
        invariant Valid() && Queued() && queue == []
        invariant |items| == |src| && Relaxing(src, items) && Evolves(start, items) && WellReferenced(src)
        invariant AllExact(src, start) ==> AllExact(src, items)
        invariant O.Dominates(src, start) ==> O.Dominates(src, items)
        invariant !progress ==> forall i :: 0 <= i < |src| ==> R.StuckAt(src, items, i)
        decreases progress, R.Work(items)
      {
        ghost var x := items;
        EnqueueAll();
        ghost var o := order;
        assert o == Positions(|list|);
        progress := Process(src);
        DrainedFacts(src, start, x, items, progress);
        if !progress {
          AllCovered(src, items, o);
        }
      }
    }

    /** The last resort for one item: take its present distance, mended if that saves length. */
    method Force(item: AsmItem)
      requires Valid() && Listed(item)
      requires !item.fixed ==> items[item.index].blockedBy.Some? && items[item.index].blockedBy.value < |items|
      modifies this`items, list
      ensures Valid() && Listed(item) && item.index == old(item.index)
      ensures items == L.Visit(old(items), item.index)
    {
      hide R.Offset64, EncodeOp, S2U, Assembly.Distance, R.IsExact;
      Held(item.index);
      if item.fixed {
        return;
      }
      ghost var v := items[item.index];
      var goal := item.fixBlockedBy;
      Held(v.blockedBy.value);
      var n, _ := Distance(item, goal);
      Reaim(item, n);
      if item.index > goal.index {
        StepNearer(item, n, v);
      }
      Seal(item);
    }

    /** Take one step towards zero if that changes the length. */
    method StepNearer(item: AsmItem, n: i64, ghost v: Item)
      requires Valid() && Listed(item) && items[item.index] == R.ApplyFixup(v, n)
      modifies this`items, item`instr
      ensures Valid()
      ensures var aimed, bumped := R.ApplyFixup(v, n), R.ApplyFixup(v, R.Offset64(n + 1));
        items == old(items)[item.index := if |EncodeOp(bumped.instr)| != |EncodeOp(aimed.instr)| then bumped else aimed]
    {
      hide R.Offset64, EncodeOp, S2U;
      ReaimedTwice(v, n);
      Held(item.index);
      var first := EncodeOp(item.instr);
      var nearer: int := n;
      Reaim(item, R.Offset64(nearer + 1));
      Held(item.index);
      var second := EncodeOp(item.instr);
      if |second| == |first| {
        Reaim(item, n);
      }
    }

    static lemma ReaimedTwice(v: Item, n: i64)
      ensures R.ApplyFixup(R.ApplyFixup(v, n), R.Offset64(n + 1)) == R.ApplyFixup(v, R.Offset64(n + 1))
      ensures R.ApplyFixup(R.ApplyFixup(R.ApplyFixup(v, n), R.Offset64(n + 1)), n) == R.ApplyFixup(v, n)
    {
    }

    /** The last-resort pass over the whole list. */
    method ForceAll(ghost src: seq<Line>)
      requires Valid() && L.Settled(src, items)
      modifies this`items, list
      ensures Valid() && |src| == |old(items)| && items == L.Pass(old(items), |src|)
    {
      hide L.Settled, L.Visit, AsmItem.Holds, L.Pass;
      ghost var start := items;
      PassBegins(src, start);
      for i := 0 to |list|
        invariant Valid() && items == L.Pass(start, i)
      {
        Held(i);
        PassPending(src, start, i);
        FixedAgrees(i);
        Force(list[i]);
      }
    }

    lemma FixedAgrees(i: nat)
      requires Valid() && i < |list|
      ensures list[i].fixed == items[i].fixed
    {
    }

    static lemma PassBegins(src: seq<Line>, start: seq<Item>)
      requires L.Settled(src, start)
      ensures |src| == |start| && L.Pass(start, 0) == start
    {
      hide L.Settled;
      L.SettledRelaxing(src, start);
    }

    static lemma PassPending(src: seq<Line>, start: seq<Item>, i: nat)
      requires L.Settled(src, start) && i < |src| == |start|
      ensures |L.Pass(start, i)| == |start| && L.Pass(start, i + 1) == L.Visit(L.Pass(start, i), i)
      ensures var v := L.Pass(start, i)[i]; !v.fixed ==> v.blockedBy.Some? && v.blockedBy.value < |start|
    {
      hide L.Settled, L.Pass, L.Visit;
      L.SettledRelaxing(src, start);
      L.PassKeeps(src, start, i);
      L.PassStep(start, i);
      if !start[i].fixed {
        R.PendingFacts(src, start, i);
      }
    }

    /**
      `Fix`: relax, force what is left, then place.  It ends with every item fixed and every
      address the length of what precedes it; the lengths settled on before the last resort
      are the greatest consistent ones; and every branch lands on its label exactly when the
      last-resort pass was clean.
     */
    method Fix(ghost src: seq<Line>) returns (ghost settled: seq<Item>)
      requires Valid() && WellReferenced(src) && O.Emitted(src, items)
      modifies this`items, this`queue, this`order, list
      ensures Valid() && |items| == |settled| == |src|
      ensures L.Settled(src, settled) && O.Consistent(src, settled) && O.Dominates(src, settled)
      ensures Carries(src, items) && AllFixed(items, 0, |src|)
      ensures forall i :: 0 <= i < |src| ==> items[i].knownXP && items[i].xp == Span(items, 0, i)
      ensures L.AllLand(src, items) <==> F.CleanPass(src, settled)
      ensures L.RuleSleeps(src, settled) ==> L.AllLand(src, items)
    {
      hide L.Settled, Relaxing, AllExact, O.Dominates, Evolves, AsmItem.Holds, WellReferenced, R.StuckAt, L.AllLand,
           F.CleanPass, L.Pass, L.RuleSleeps, O.Consistent, AllFixed, Span, O.Emitted, Carries;
      queue, order := [], [];
      O.EmittedRelaxes(src, items);
      O.EmittedDominates(src, items);
      Relax(src);
      settled := items;
      L.StuckMeansSettled(src, items);
      O.SettledConsistent(src, items);
      ForceAll(src);
      ghost var forced := items;
      L.PassRelaxed(src, settled);
      Relax(src);
      PlacedAll(src, forced, items);
      L.LandsEvolves(src, forced, items);
      F.LandsIffClean(src, settled);
      if L.RuleSleeps(src, settled) {
        L.QuietPassLands(src, settled);
      }
    }

    static lemma PlacedAll(src: seq<Line>, x: seq<Item>, y: seq<Item>)
      requires |x| == |y| == |src| && AllFixed(x, 0, |src|) && Evolves(x, y) && Relaxing(src, y)
      requires forall i :: 0 <= i < |src| ==> R.StuckAt(src, y, i)
      ensures AllFixed(y, 0, |src|) && Carries(src, y)
      ensures forall i :: 0 <= i < |src| ==> y[i].knownXP && y[i].xp == Span(y, 0, i)
    {
      hide R.StuckAt, Carries, Assembly.Roomy;
      forall i | 0 <= i < |src| ensures y[i].fixed {
        assert ItemEvolves(x[i], y[i]);
      }
      forall i | 0 <= i < |src| ensures y[i].knownXP {
        L.StuckMeansPlaced(src, y, i);
      }
    }

    // ---- emission

    /** An item holds what its statement says, references apart. */
    static ghost predicate StmtHeld(it: AsmItem, st: Stmt)
      reads it
    {
      && !it.knownXP
      && match st
         case LabelStmt(name) =>
           !it.isOp && it.name == name && it.isPublic == IsPublic(name) && it.seen
           && it.fixed && it.bytes == [] && it.maxLength == 0 && it.fixBlockedBy == null
         case OpStmt(instr, None) =>
           it.isOp && it.instr == instr && it.fixed && it.bytes == EncodeOp(instr)
           && it.maxLength == |it.bytes| && it.fixBlockedBy == null && it.blocking == []
         case OpStmt(instr, Some(name)) =>
           it.isOp && HasOffset(instr.code) && it.instr == WithOffset(instr, O.PLACEHOLDER) && !it.fixed
           && it.maxLength == Need(instr, O.PLACEHOLDER) && it.fixBlockedBy != null && it.blocking == []
    }

    /** A label nobody has emitted yet. */
    static ghost predicate Unlinked(it: AsmItem, name: string)
      reads it
    {
      && !it.isOp && it.name == name && !it.knownXP && !it.seen && it.index == UNLINKED
      && it.fixed && it.bytes == [] && it.maxLength == 0 && it.fixBlockedBy == null
    }

    /** Statements and names agree on which object is which label. */
    ghost predicate NamesAgree(it: AsmItem, st: Stmt)
      reads this, it
    {
      match st
      case LabelStmt(name) => name in labelsByName && labelsByName[name] == it
      case OpStmt(_, None) => true
      case OpStmt(_, Some(name)) => name in labelsByName && it.fixBlockedBy == labelsByName[name]
    }

    ghost predicate LabelHeld(it: AsmItem, name: string)
      reads this, it
    {
      && it.name == name && it.isPublic == IsPublic(name) && !it.isOp
      && (if it.seen then it.index < |list| && list[it.index] == it else Unlinked(it, name))
      && forall k :: 0 <= k < |it.blocking| ==> it.blocking[k] in list
    }

    ghost predicate Building()
      reads this, list, labelsByName.Values
    {
      && |list| == |stmts| < UNLINKED
      && (forall i :: 0 <= i < |list| ==> list[i].index == i && StmtHeld(list[i], stmts[i]) && NamesAgree(list[i], stmts[i]))
      && (forall name :: name in labelsByName ==> LabelHeld(labelsByName[name], name))
    }

    method GrabLabel(name: string) returns (item: AsmItem)
      requires Building() && name != ""
      modifies this`labelsByName
      ensures Building() && name in labelsByName && labelsByName[name] == item && item.name == name
      ensures name in old(labelsByName) ==> labelsByName == old(labelsByName)
      ensures name !in old(labelsByName) ==> !item.seen && fresh(item) && labelsByName == old(labelsByName)[name := item]
    {
      hide EncodeOp, Need, HasOffset, StmtHeld;
      if name in labelsByName {
        return labelsByName[name];
      }
      item := new AsmItem.Label(name);
      labelsByName := labelsByName[name := item];
    }

    /** Put a label, so far only referred to, into the list. */
    method LinkLabel(item: AsmItem)
      requires Building() && item.name in labelsByName && labelsByName[item.name] == item && !item.seen
      requires |list| + 1 < UNLINKED
      modifies this`list, this`stmts, item`seen, item`index
      ensures Building() && stmts == old(stmts) + [LabelStmt(item.name)] && list == old(list) + [item]
    {
      hide EncodeOp, Need, HasOffset, StmtHeld;
      assert LabelHeld(item, item.name);
      assert item.index == UNLINKED && item !in list;
      item.seen := true;
      item.index := |list|;
      LinkedHeld(item);
      list := list + [item];
      stmts := stmts + [LabelStmt(item.name)];
      forall name | name in labelsByName ensures LabelHeld(labelsByName[name], name) {
        assert old(LabelHeld(labelsByName[name], name));
        assert labelsByName[name] == item <==> name == item.name;
      }
    }

    static lemma LinkedHeld(it: AsmItem)
      requires !it.isOp && it.isPublic == IsPublic(it.name) && !it.knownXP && it.seen
      requires it.fixed && it.bytes == [] && it.maxLength == 0 && it.fixBlockedBy == null
      ensures StmtHeld(it, LabelStmt(it.name))
    {
    }

    method EmitLabel(name: string)
      requires Building() && name != "" && (name in labelsByName ==> !labelsByName[name].seen)
      requires |list| + 1 < UNLINKED
      modifies this`list, this`stmts, this`labelsByName, labelsByName.Values
      ensures Building() && stmts == old(stmts) + [LabelStmt(name)]
      ensures name in labelsByName && list == old(list) + [labelsByName[name]]
      ensures name in old(labelsByName) ==> labelsByName == old(labelsByName)
      ensures name !in old(labelsByName) ==>
                fresh(labelsByName[name]) && labelsByName == old(labelsByName)[name := labelsByName[name]]
    {
      var item := GrabLabel(name);
      LinkLabel(item);
    }

    /** Append an instruction that is ready to be listed. */
    method LinkOp(item: AsmItem, ghost st: Stmt)
      requires Building() && item.index == UNLINKED && st.OpStmt? && StmtHeld(item, st) && NamesAgree(item, st)
      requires item !in list && item !in labelsByName.Values && |list| + 1 < UNLINKED
      modifies this`list, this`stmts, item`index
      ensures Building() && stmts == old(stmts) + [st] && list == old(list) + [item]
    {
      hide EncodeOp, Need, HasOffset, WithOffset;
      item.index := |list|;
      list := list + [item];
      stmts := stmts + [st];
    }

    /** Remember with a label who waits for it. */
    method Await(goal: AsmItem, item: AsmItem)
      requires Building() && goal in labelsByName.Values && item in list && !goal.isOp
      modifies goal`blocking
      ensures Building() && goal.blocking == old(goal.blocking) + [item]
    {
      hide EncodeOp, Need, HasOffset, WithOffset;
      goal.blocking := goal.blocking + [item];
    }

    method EmitOp(instr: Instr, goal: AsmItem?)
      requires Building() && |list| + 1 < UNLINKED
      requires goal != null ==> HasOffset(instr.code) && goal.name in labelsByName && labelsByName[goal.name] == goal
      modifies this`list, this`stmts, labelsByName.Values
      ensures Building() && labelsByName == old(labelsByName)
      ensures stmts == old(stmts) + [OpStmt(instr, if goal == null then None else Some(goal.name))]
      ensures |list| == |old(list)| + 1 && list[..|old(list)|] == old(list) && fresh(list[|old(list)|])
      ensures goal != null ==> goal.blocking == old(goal.blocking) + [list[|old(list)|]]
    {
      hide EncodeOp, Need, HasOffset;
      var item := new AsmItem.Op(instr, goal);
      if goal == null {
        item.Generate();
        LinkOp(item, OpStmt(instr, None));
        return;
      }
      item.ApplyFixup(O.PLACEHOLDER);
      item.maxLength := |EncodeOp(item.instr)|;
      LengthIsNeed(instr);
      LinkOp(item, OpStmt(instr, Some(goal.name)));
      LabelIsNoOp(goal);
      Await(goal, item);
    }

    static lemma LengthIsNeed(instr: Instr)
      ensures |EncodeOp(WithOffset(instr, O.PLACEHOLDER))| == Need(instr, O.PLACEHOLDER)
    {
    }

    lemma LabelIsNoOp(goal: AsmItem)
      requires Building() && goal.name in labelsByName && labelsByName[goal.name] == goal
      ensures !goal.isOp
    {
      assert LabelHeld(goal, goal.name);
    }

    // ---- Finish

    lemma {:induction false} IndicesOf(bs: seq<AsmItem>) returns (r: seq<nat>)
      requires forall k :: 0 <= k < |bs| ==> bs[k] in list
      ensures |r| == |bs| && forall k :: 0 <= k < |bs| ==> r[k] < |list| && bs[k] == list[r[k]]
      decreases |bs|
    {
      if bs == [] {
        r := [];
      } else {
        var m := |bs| - 1;
        r := IndicesOf(bs[..m]);
        var i :| 0 <= i < |list| && list[i] == bs[m];
        r := r + [i];
      }
    }

    /** The label an emitted branch waits for is the one at the position its name resolves to. */
    lemma ReferenceFound(i: nat)
      requires Building() && Complete(stmts) && i < |list| && stmts[i].OpStmt? && stmts[i].ref.Some?
      ensures var q := Position(stmts, stmts[i].ref.value);
        q < |list| && stmts[q].LabelStmt? && list[i].fixBlockedBy == list[q]
      ensures HasOffset(stmts[i].instr.code)
    {
      hide EncodeOp, Need, HasOffset, Position;
      var q := Position(stmts, stmts[i].ref.value);
      assert StmtHeld(list[i], stmts[i]) && NamesAgree(list[i], stmts[i]);
      assert NamesAgree(list[q], stmts[q]);
    }

    /** The value of one emitted item. */
    lemma SnapOne(i: nat) returns (v: Item)
      requires Building() && Complete(stmts) && i < |list|
      ensures list[i].Holds(list, v) && O.EmittedItem(Resolve(stmts)[i], v)
      ensures forall k :: 0 <= k < |v.blocking| ==> v.blocking[k] < |list|
    {
      hide EncodeOp, Need, HasOffset, Position;
      var it := list[i];
      assert StmtHeld(it, stmts[i]) && NamesAgree(it, stmts[i]);
      var indices := [];
      if stmts[i].LabelStmt? {
        assert LabelHeld(it, stmts[i].name);
        indices := IndicesOf(it.blocking);
      }
      var awaited := None;
      if stmts[i].OpStmt? && stmts[i].ref.Some? {
        ReferenceFound(i);
        awaited := Some(Position(stmts, stmts[i].ref.value));
      }
      v := Item(it.isOp, it.instr, it.fixed, it.bytes, it.maxLength, awaited, it.knownXP, it.xp, indices);
    }

    lemma {:induction false} Snapshot(n: nat) returns (vs: seq<Item>)
      requires Building() && Complete(stmts) && n <= |list|
      ensures |vs| == n
      ensures forall i :: 0 <= i < n ==> list[i].Holds(list, vs[i]) && O.EmittedItem(Resolve(stmts)[i], vs[i])
      ensures forall i, k :: 0 <= i < n && 0 <= k < |vs[i].blocking| ==> vs[i].blocking[k] < |list|
    {
      hide Building, Complete, Resolve, AsmItem.Holds, O.EmittedItem;
      if n == 0 {
        vs := [];
      } else {
        vs := Snapshot(n - 1);
        BuildingLength();
        var v := SnapOne(n - 1);
        vs := vs + [v];
      }
    }

    lemma BuildingLength()
      requires Building()
      ensures |list| == |stmts|
    {
    }

    lemma ResolvesWell()
      requires Building() && Complete(stmts)
      ensures WellReferenced(Resolve(stmts))
    {
      hide Building, EncodeOp, Need, HasOffset, Position;
      BuildingLength();
      var src := Resolve(stmts);
      forall i | 0 <= i < |src| && src[i].OpLine? && src[i].ref.Some?
        ensures HasOffset(src[i].instr.code) && src[i].ref.value < |src| && src[src[i].ref.value].LabelLine?
      {
        ReferenceFound(i);
      }
    }

    lemma LabelsSeen()
      requires Building()
      ensures forall i :: 0 <= i < |list| ==> list[i].isOp || list[i].seen
    {
      hide EncodeOp, Need, HasOffset, LabelHeld, NamesAgree;
      forall i | 0 <= i < |list| ensures list[i].isOp || list[i].seen {
        assert StmtHeld(list[i], stmts[i]);
      }
    }

    /** Take stock of what has been emitted. */
    method Seize()
      requires Building() && Complete(stmts)
      modifies this`items
      ensures Valid() && WellReferenced(Resolve(stmts)) && O.Emitted(Resolve(stmts), items)
    {
      hide Complete, Resolve, O.EmittedItem, StmtHeld, LabelHeld, NamesAgree, AsmItem.Holds, WellReferenced;
      ResolvesWell();
      LabelsSeen();
      ghost var vs := Snapshot(|list|);
      BuildingLength();
      items := vs;
    }

    /**
      `Finish`: fix everything, then lay the bytes end to end.  Together with the facts about
      the settled lengths, the code returned is that of items all fixed and placed, and every
      branch lands on its label exactly when the last-resort pass was clean; the program is
      then closed, if its code offsets are all labels.
     */
    method Finish()
      returns (code: seq<byte>, labels: seq<Label>, byName: map<string, Label>, ghost settled: seq<Item>)
      requires Building() && Complete(stmts)
      modifies this`items, this`queue, this`order, list
      ensures var src := Resolve(stmts);
        && |items| == |settled| == |src| && WellReferenced(src)
        && L.Settled(src, settled) && O.Consistent(src, settled) && O.Dominates(src, settled)
        && Carries(src, items) && AllFixed(items, 0, |items|)
        && (L.AllLand(src, items) <==> F.CleanPass(src, settled))
        && (L.RuleSleeps(src, settled) ==> L.AllLand(src, items))
      ensures code == Y.CodeOf(items, |items|) && stmts == old(stmts) && list == old(list)
      ensures F.CleanPass(Resolve(stmts), settled) && Y.OffsetsAreLabels(Resolve(stmts)) ==>
                code == EncodeAll(Y.OpsOf(items, |items|)) && Safety.Closed(Y.OpsOf(items, |items|))
      ensures |stmts| == |items| && labels == LabelsIn(stmts, items, |items|) && Indexes(byName, labels)
    {
      hide Named, Building, Complete, Resolve, L.Settled, O.Consistent, O.Dominates, Carries, L.AllLand, F.CleanPass,
           L.RuleSleeps, WellReferenced, O.Emitted, AsmItem.Holds, EncodeAll, Safety.Closed, Y.OpsOf,
           Y.OffsetsAreLabels;
      BuildingNamed();
      Seize();
      settled := Fix(Resolve(stmts));
      NamedLength();
      code, labels, byName := Emit();
      if F.CleanPass(Resolve(stmts), settled) && Y.OffsetsAreLabels(Resolve(stmts)) {
        Y.LandingIsClosed(Resolve(stmts), items);
      }
    }

    /** Which listed items are labels, and what they are called. */
    ghost predicate Named()
      reads this`list, this`stmts
    {
      && |list| == |stmts| && Distinct(stmts)
      && forall i :: 0 <= i < |list| ==> Called(list[i], stmts[i])
    }

    static ghost predicate Called(it: AsmItem, st: Stmt) {
      match st
      case LabelStmt(name) => !it.isOp && it.name == name && it.isPublic == IsPublic(name)
      case OpStmt(_, _) => it.isOp
    }

    lemma NamedLength()
      requires Named()
      ensures |list| == |stmts|
    {
    }

    lemma BuildingNamed()
      requires Building()
      ensures Named()
    {
      hide EncodeOp, Need, HasOffset, LabelHeld;
      forall i | 0 <= i < |list| ensures Called(list[i], stmts[i]) {
        assert StmtHeld(list[i], stmts[i]);
      }
      forall i, j | 0 <= i < j < |stmts| && stmts[i].LabelStmt? ensures stmts[j] != stmts[i] {
        assert NamesAgree(list[i], stmts[i]) && NamesAgree(list[j], stmts[j]);
      }
    }

    /** The bytes of every instruction and the address of every label, in list order. */
    method Emit() returns (code: seq<byte>, labels: seq<Label>, byName: map<string, Label>)
      requires Valid() && Named() && forall i :: 0 <= i < |items| ==> items[i].xp == Span(items, 0, i)
      ensures code == Y.CodeOf(items, |items|) && labels == LabelsIn(stmts, items, |items|) && Indexes(byName, labels)
    {
      hide AsmItem.Holds, Span, Indexes, Distinct;
      code, labels, byName := [], [], map[];
      NothingIndexed();
      for i := 0 to |list|
        invariant code == Y.CodeOf(items, i) && labels == LabelsIn(stmts, items, i) && Indexes(byName, labels)
      {
        HeldBytes(i);
        assert Called(list[i], stmts[i]);
        if list[i].isOp {
          code := code + list[i].bytes;
        } else {
          IndexNext(stmts, items, i, byName);
          var l := Label(list[i].name, list[i].isPublic, list[i].xp);
          labels := labels + [l];
          byName := byName[l.name := l];
        }
      }
    }

    static lemma NothingIndexed()
      ensures Indexes(map[], [])
    {
    }

    lemma HeldBytes(i: nat)
      requires Valid() && i < |list|
      ensures list[i].isOp == items[i].isOp && list[i].bytes == items[i].bytes && list[i].xp == items[i].xp
    {
    }
  }
}
