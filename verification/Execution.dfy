/**
  The execution as it runs (`peggyvm/execution.go`): fields updated in place, and a capture
  stack held as a slice of an array that saved frames share.

  The ghost field `view` is the state of the transition function.  Saving a snapshot copies
  only the slice, so appending after a rollback writes into an array that frames still refer
  to; that this never disturbs what a live frame can see is what `Chain` is for.
 */
module Execution {
  import opened Words
  import opened Immediates
  import opened Instructions
  import opened Machine
  import MachineInvariants
  import T = Termination
  import D = Decoder

  /** A slice: the first `len` elements of an array whose length is the capacity. */
  datatype Slice = Slice(arr: array<Assignment>, len: nat)

  datatype HeapFrame =
    | HeapChoice(dp: u64, xp: u64, ks: Slice)
    | HeapCall(xp: u64)

  /** `append`: in place when there is room, into a larger array when there is not. */
  method Append(s: Slice, a: Assignment) returns (t: Slice)
    requires s.len <= s.arr.Length
    modifies s.arr
    ensures t.len == s.len + 1 <= t.arr.Length
    ensures t.arr[..t.len] == old(s.arr[..s.len]) + [a]
    ensures t.arr == s.arr || fresh(t.arr)
    ensures forall k :: 0 <= k < s.arr.Length && k != s.len ==> s.arr[k] == old(s.arr[k])
    ensures t.arr != s.arr ==> s.arr[..] == old(s.arr[..])
  {
    if s.len < s.arr.Length {
      s.arr[s.len] := a;
      t := Slice(s.arr, s.len + 1);
    } else {
      var bigger := new Assignment[2 * s.len + 1];
      for i := 0 to s.len
        invariant forall k :: 0 <= k < i ==> bigger[k] == s.arr[k]
        invariant s.arr[..] == old(s.arr[..])
      {
        bigger[i] := s.arr[i];
      }
      bigger[s.len] := a;
      t := Slice(bigger, s.len + 1);
    }
  }

  /** What a step returned. */
  datatype Return = Nil | Err(err: Error) | Panicked(why: PanicReason)

  class Execution {
    const p: Program
    const input: Bytes
    var dp: u64
    var xp: u64
    var ks: Slice
    var cs: seq<HeapFrame>
    var r: Status
    ghost var view: State
    ghost var Repr: set<object>

    ghost predicate SliceHolds(s: Slice, v: seq<Assignment>)
      reads s.arr
    {
      s.len <= s.arr.Length && s.arr[..s.len] == v
    }

    ghost predicate FrameHolds(fr: HeapFrame, v: Frame)
      reads if fr.HeapChoice? then {fr.ks.arr} else {}
    {
      match fr
      case HeapCall(x) => v == Call(x)
      case HeapChoice(d, x, k) => v.Choice? && v.dp == d && v.xp == x && SliceHolds(k, v.ks)
    }

    /** `a` was saved before `b` was current: if they share an array, `a` ends no later. */
    static predicate Before(a: HeapFrame, b: Slice) {
      a.HeapChoice? && a.ks.arr == b.arr ==> a.ks.len <= b.len
    }

    /** Slices that share an array are ordered by age, up to the current one. */
    ghost predicate Chain()
      reads this
    {
      && (forall i :: 0 <= i < |cs| ==> Before(cs[i], ks))
      && (forall i, j :: 0 <= i < j < |cs| && cs[j].HeapChoice? ==> Before(cs[i], cs[j].ks))
    }

    ghost predicate Valid()
      reads this, Repr
    {
      && this in Repr && ks.arr in Repr
      && (forall i :: 0 <= i < |cs| && cs[i].HeapChoice? ==> cs[i].ks.arr in Repr)
      && view.dp == dp && view.xp == xp && view.r == r
      && SliceHolds(ks, view.ks)
      && |view.cs| == |cs|
      && (forall i :: 0 <= i < |cs| ==> FrameHolds(cs[i], view.cs[i]))
      && Chain()
    }

    /** `Exec`. */
    constructor (p: Program, input: Bytes)
      ensures Valid() && fresh(Repr) && view == Start() && this.p == p && this.input == input
    {
      this.p, this.input := p, input;
      dp, xp, cs, r := 0, 0, [], Running;
      var arr := new Assignment[2 * p.captures];
      ks := Slice(arr, 0);
      view := Start();
      Repr := {this, arr};
    }

    // ---- single updates, each mirrored in `view`

    method SetDP(d: u64)
      requires Valid()
      modifies this`dp, this`view
      ensures Valid() && view == old(view).(dp := d)
    {
      dp := d;
      view := view.(dp := d);
    }

    method SetXP(x: u64)
      requires Valid()
      modifies this`xp, this`view
      ensures Valid() && view == old(view).(xp := x)
    {
      xp := x;
      view := view.(xp := x);
    }

    method SetR(status: Status)
      requires Valid()
      modifies this`r, this`view
      ensures Valid() && view == old(view).(r := status)
    {
      r := status;
      view := view.(r := status);
    }

    /** `KS = nil`. */
    method DropKS()
      requires Valid()
      modifies this`ks, this`view, this`Repr
      ensures Valid() && view == old(view).(ks := []) && fresh(Repr - old(Repr))
    {
      var none := new Assignment[0];
      ks := Slice(none, 0);
      view := view.(ks := []);
      Repr := Repr + {none};
    }

    method PushFrame(fr: HeapFrame)
      requires Valid() && (fr.HeapChoice? ==> fr.ks == ks)
      modifies this`cs, this`view
      ensures Valid()
      ensures view == old(view).(cs := old(view).cs + [if fr.HeapChoice? then Choice(fr.dp, fr.xp, view.ks) else Call(fr.xp)])
    {
      cs := cs + [fr];
      view := view.(cs := view.cs + [if fr.HeapChoice? then Choice(fr.dp, fr.xp, view.ks) else Call(fr.xp)]);
    }

    /** `popCS`. */
    method PopCS() returns (fr: HeapFrame, ok: bool)
      requires Valid()
      modifies this`cs, this`view
      ensures Valid() && ok == (old(cs) != [])
      ensures ok ==> fr == old(cs)[|old(cs)| - 1] && cs == old(cs)[..|old(cs)| - 1]
                     && view == old(view).(cs := old(view).cs[..|old(cs)| - 1])
                     && FrameHolds(fr, old(view).cs[|old(cs)| - 1])
      ensures ok && fr.HeapChoice? ==> fr.ks.arr in Repr && (forall i :: 0 <= i < |cs| ==> Before(cs[i], fr.ks))
      ensures !ok ==> view == old(view) && cs == old(cs)
    {
      if |cs| == 0 {
        return HeapCall(0), false;
      }
      var i := |cs| - 1;
      fr, ok := cs[i], true;
      cs := cs[..i];
      view := view.(cs := view.cs[..i]);
    }

    /** Go back to a saved capture stack. */
    method RestoreKS(s: Slice, ghost v: seq<Assignment>)
      requires Valid() && s.arr in Repr && SliceHolds(s, v) && forall i :: 0 <= i < |cs| ==> Before(cs[i], s)
      modifies this`ks, this`view
      ensures Valid() && view == old(view).(ks := v)
    {
      ks := s;
      view := view.(ks := v);
    }

    /** Record an assignment, in place where the array has room. */
    method Assign(a: Assignment)
      requires Valid()
      modifies this`ks, this`view, this`Repr, ks.arr
      ensures Valid() && view == old(view).(ks := old(view).ks + [a]) && fresh(Repr - old(Repr))
      ensures ks.arr == old(ks.arr) || fresh(ks.arr)
    {
      var t := Append(ks, a);
      ks := t;
      view := view.(ks := view.ks + [a]);
      Repr := Repr + {t.arr};
    }

    // ---- matching

    method AvailableBytes() returns (n: u64)
      ensures n == Available(input, dp)
    {
      n := ToU64(|input| - dp);
    }

    method MatchN(m: set<byte>, n: u64) returns (probe: Probe)
      ensures probe == Machine.MatchN(input, dp, m, n)
    {
      var available := AvailableBytes();
      if available < n {
        return Miss;
      }
      var i: nat := 0;
      while i < n
        invariant i <= n && ScanSet(input, dp, m, n, 0) == ScanSet(input, dp, m, n, i)
      {
        var k := ToU64(dp + i);
        if k >= |input| {
          return BadRead;
        }
        if input[k] !in m {
          return Miss;
        }
        i := i + 1;
      }
      return Hit(n);
    }

    method MatchLit(lit: Bytes) returns (probe: Probe)
      ensures probe == Machine.MatchLit(input, dp, lit)
    {
      var available := AvailableBytes();
      if available < |lit| {
        return Miss;
      }
      var i: nat := 0;
      while i < |lit|
        invariant i <= |lit| && ScanLit(input, dp, lit, 0) == ScanLit(input, dp, lit, i)
      {
        var k := ToU64(dp + i);
        if k >= |input| {
          return BadRead;
        }
        if input[k] != lit[i] {
          return Miss;
        }
        i := i + 1;
      }
      return Hit(|lit|);
    }

    method Attempt(how: Matching) returns (probe: Probe)
      ensures probe == Try(p, input, dp, how)
    {
      hide Machine.MatchN, Machine.MatchLit;
      match how {
        case AnyB(n) =>
          var available := AvailableBytes();
          probe := if available >= n then Hit(n) else Miss;
        case SameB(b, n) => probe := MatchN({b % 0x100}, n);
        case LitB(l) =>
          if l >= |p.literals| { return BadIndex; }
          probe := MatchLit(p.literals[l]);
        case MatchB(m, n) =>
          if m >= |p.byteSets| { return BadIndex; }
          probe := MatchN(p.byteSets[m], n);
      }
    }

    // ---- failing and stopping

    /** `fail`. */
    method Fail()
      requires Valid()
      modifies this
      ensures Valid() && view == Machine.Fail(old(view)) && fresh(Repr - old(Repr))
    {
      hide FrameHolds, SliceHolds;
      ghost var start := view;
      while true
        invariant Valid() && Repr == old(Repr) && Machine.Fail(start) == Machine.Fail(view)
        decreases |cs|
      {
        ghost var before := view;
        var fr, ok := PopCS();
        if !ok {
          SetR(Failure);
          DropKS();
          return;
        }
        ChoiceHeld(fr, before.cs[|before.cs| - 1]);
        if fr.HeapChoice? {
          SetDP(fr.dp);
          SetXP(fr.xp);
          RestoreKS(fr.ks, before.cs[|before.cs| - 1].ks);
          return;
        }
      }
    }

    lemma ChoiceHeld(fr: HeapFrame, v: Frame)
      requires FrameHolds(fr, v)
      ensures fr.HeapChoice? == v.Choice? && fr.xp == v.xp
      ensures fr.HeapChoice? ==> fr.dp == v.dp && SliceHolds(fr.ks, v.ks)
    {
    }

    /** An error: the execution is broken and records nothing. */
    method Stop(e: Error) returns (ret: Return)
      requires Valid()
      modifies this`r, this`ks, this`view, this`Repr
      ensures Valid() && fresh(Repr - old(Repr)) && Agrees(Machine.Stop(old(view), e), ret)
    {
      SetR(Broken);
      DropKS();
      ret := Err(e);
    }

    /** The step's return and the state it left agree with the transition function. */
    ghost predicate Agrees(o: Outcome, ret: Return)
      reads this
    {
      match o
      case Next(t) => ret == Nil && view == t
      case Fault(t, e) => ret == Err(e) && view == t
      case Panic(w) => ret == Panicked(w)
    }

    method Jump(op: Op) returns (ret: Return)
      requires Valid()
      modifies this`xp, this`view
      ensures (ret.Panicked? || Valid()) && Agrees(Machine.Jump(old(view), op), ret)
    {
      hide AddOffset, U2S;
      var t := AddOffset(xp, U2S(op.imm0));
      if t.None? {
        return Panicked(CodeOffsetRange);
      }
      SetXP(t.value);
      ret := Nil;
    }

    // ---- the instructions, in groups

    method DoMatch(op: Op, how: Matching) returns (ret: Return)
      requires Valid()
      modifies this
      ensures (ret.Panicked? || Valid()) && fresh(Repr - old(Repr))
      ensures Agrees(Plain(old(view), Try(p, input, old(view).dp, how)), ret)
    {
      hide Try, FrameHolds, SliceHolds;
      var probe := Attempt(how);
      match probe {
        case Hit(n) => SetDP(ToU64(dp + n)); ret := Nil;
        case Miss => Fail(); ret := Nil;
        case BadIndex => ret := Stop(IndexRange);
        case BadRead => ret := Panicked(InputRange);
      }
    }

    method DoTest(op: Op, how: Matching) returns (ret: Return)
      requires Valid()
      modifies this
      ensures (ret.Panicked? || Valid()) && fresh(Repr - old(Repr))
      ensures Agrees(Test(old(view), Try(p, input, old(view).dp, how), op), ret)
    {
      hide Try, FrameHolds, SliceHolds, AddOffset, U2S;
      var probe := Attempt(how);
      match probe {
        case Hit(n) => SetDP(ToU64(dp + n)); ret := Nil;
        case Miss => ret := Jump(op);
        case BadIndex => ret := Stop(IndexRange);
        case BadRead => ret := Panicked(InputRange);
      }
    }

    method DoPush(op: Op) returns (ret: Return)
      requires Valid()
      modifies this
      ensures (ret.Panicked? || Valid()) && fresh(Repr - old(Repr))
      ensures Agrees(Push(old(view), op), ret)
    {
      hide FrameHolds, SliceHolds, AddOffset, U2S;
      var t := AddOffset(xp, U2S(op.imm0));
      if op.code.CHOICE? {
        if t.None? { return Panicked(CodeOffsetRange); }
        PushFrame(HeapChoice(dp, t.value, ks));
      } else {
        PushFrame(HeapCall(xp));
        if t.None? { return Panicked(CodeOffsetRange); }
        SetXP(t.value);
      }
      ret := Nil;
    }

    method DoPop(op: Op) returns (ret: Return)
      requires Valid()
      modifies this
      ensures (ret.Panicked? || Valid()) && fresh(Repr - old(Repr))
      ensures Agrees(Popping(old(view), op), ret)
    {
      hide FrameHolds, SliceHolds, AddOffset, U2S, Machine.Fail;
      ghost var before := view;
      var fr, ok := PopCS();
      if !ok {
        ret := Stop(EmptyStack);
        return;
      }
      ChoiceHeld(fr, before.cs[|before.cs| - 1]);
      if fr.HeapCall? {
        ret := Stop(if op.code.RET? then ChoiceFailFrame else CallRetFrame);
        return;
      }
      if op.code.RET? {
        SetXP(fr.xp);
      } else if op.code.FAIL2X? {
        Fail();
      } else {
        var t := AddOffset(xp, U2S(op.imm0));
        if t.None? { return Panicked(CodeOffsetRange); }
        if op.code.PCOMMIT? {
          PushFrame(HeapChoice(dp, t.value, ks));
        } else {
          if op.code.BCOMMIT? {
            SetDP(fr.dp);
            RestoreKS(fr.ks, before.cs[|before.cs| - 1].ks);
          }
          SetXP(t.value);
        }
      }
      ret := Nil;
    }

    method DoRecord(op: Op) returns (ret: Return)
      requires Valid()
      modifies this, ks.arr
      ensures Valid() && fresh(Repr - old(Repr))
      ensures Agrees(Record(p, old(view), op), ret)
    {
      hide FrameHolds, SliceHolds;
      if op.imm0 >= p.captures {
        ret := Stop(IndexRange);
        return;
      }
      if op.code.FCAP? {
        if op.imm1 > dp {
          ret := Stop(CountRange);
          return;
        }
        Assign(Assignment(dp - op.imm1, op.imm0, false));
        Assign(Assignment(dp, op.imm0, true));
      } else {
        Assign(Assignment(dp, op.imm0, op.code.ECAP?));
      }
      ret := Nil;
    }

    method DoSpan(op: Op) returns (ret: Return)
      requires Valid()
      modifies this
      ensures Valid() && fresh(Repr - old(Repr))
      ensures Agrees(if op.imm0 >= |p.byteSets| then Machine.Stop(old(view), IndexRange)
                     else Next(old(view).(dp := SpanEnd(input, old(view).dp, p.byteSets[op.imm0]))), ret)
    {
      hide FrameHolds, SliceHolds;
      if op.imm0 >= |p.byteSets| {
        ret := Stop(IndexRange);
        return;
      }
      var m := p.byteSets[op.imm0];
      ghost var start := view;
      while dp < |input| && input[dp] in m
        invariant Valid() && Repr == old(Repr) && view == start.(dp := dp)
        invariant SpanEnd(input, start.dp, m) == SpanEnd(input, dp, m)
        decreases |input| - dp
      {
        SetDP(dp + 1);
      }
      ret := Nil;
    }

    // ---- Step and Run

    /** The switch over the opcode; `xp` already points past the instruction. */
    method Dispatch(op: Op) returns (ret: Return)
      requires Valid()
      modifies this, ks.arr
      ensures (ret.Panicked? || Valid()) && fresh(Repr - old(Repr))
      ensures Agrees(Execute(p, input, op, old(view)), ret)
    {
      hide FrameHolds, SliceHolds, Try, Plain, Test, Push, Popping, Record, Machine.Fail, Machine.Stop, Machine.Jump,
           SpanEnd;
      ret := Nil;
      match op.code {
        case ANYB | SAMEB | LITB | MATCHB => ret := DoMatch(op, MatchingOf(op).value);
        case TANYB | TSAMEB | TLITB | TMATCHB => ret := DoTest(op, MatchingOf(op).value);
        case CHOICE | CALL => ret := DoPush(op);
        case COMMIT | PCOMMIT | BCOMMIT | FAIL2X | RET => ret := DoPop(op);
        case FAIL => Fail();
        case JMP => ret := Jump(op);
        case SPANB => ret := DoSpan(op);
        case RWNDB =>
          if op.imm0 > dp {
            ret := Stop(CountRange);
          } else {
            SetDP(dp - op.imm0);
          }
        case FCAP | BCAP | ECAP => ret := DoRecord(op);
        case GIVEUP =>
          SetR(Failure);
          DropKS();
        case END => SetR(Success);
        case NOP | Reserved(_) =>
      }
    }

    /** `Step`: on shared storage it does exactly what the transition function does on values. */
    method Step() returns (ret: Return)
      requires Valid()
      modifies this, ks.arr
      ensures (ret.Panicked? || Valid()) && fresh(Repr - old(Repr))
      ensures Agrees(Machine.Step(p, input, old(view)), ret)
    {
      hide FrameHolds, SliceHolds, Execute, DecodeOp, Machine.Stop;
      if r != Running {
        return Err(ExecutionHalted);
      }
      var op := new D.Op();
      var status := op.Decode(p.code, xp);
      match status {
        case EOF =>
          SetR(Success);
          ret := Nil;
        case Bad(e) =>
          ret := Stop(e);
        case Good =>
          var decoded := Instructions.Op(op.xp, op.code, op.imm0, op.imm1, op.imm2, op.len);
          SetXP(xp + op.len);
          ret := Dispatch(decoded);
      }
    }

    /** At most `n` iterations of `Run`'s loop. */
    method RunFor(n: nat) returns (ret: Return)
      requires Valid()
      modifies Repr
      ensures (ret.Panicked? || Valid()) && fresh(Repr - old(Repr))
      ensures Agrees(Machine.Run(p, input, old(view), n), ret)
    {
      hide FrameHolds, SliceHolds, Machine.Step;
      ghost var start := view;
      var i := 0;
      ret := Nil;
      while i < n && r == Running
        invariant i <= n && Valid() && fresh(Repr - old(Repr))
        invariant Machine.Run(p, input, start, n) == Machine.Run(p, input, view, n - i)
      {
        ret := Step();
        if ret != Nil {
          return;
        }
        i := i + 1;
      }
      ret := Nil;
    }

    /** The run came to an end: it halted, returned an error, or panicked. */
    static ghost predicate Ended(o: Outcome) {
      o.Next? ==> !o.s.r.Running?
    }

    /** `Run`, on any program and input on which it ends at all, however late. */
    method Run(ghost n: nat) returns (ret: Return)
      requires Valid() && Ended(Machine.Run(p, input, view, n))
      modifies Repr
      ensures (ret.Panicked? || Valid()) && fresh(Repr - old(Repr))
      ensures Agrees(Machine.Run(p, input, old(view), n), ret)
    {
      hide FrameHolds, SliceHolds, Machine.Step;
      ghost var start, left := view, n;
      ret := Nil;
      while r == Running
        invariant Valid() && fresh(Repr - old(Repr))
        invariant Machine.Run(p, input, start, n) == Machine.Run(p, input, view, left)
        decreases left
      {
        ret := Step();
        if ret != Nil {
          return;
        }
        left := left - 1;
      }
      ret := Nil;
    }

    /** `Run`, for a program without backward offsets: it always ends, and never in a panic. */
    method RunForward() returns (ret: Return)
      requires Valid() && T.ForwardOnly(p) && MachineInvariants.InBounds(p, input, view)
      modifies Repr
      ensures Valid() && fresh(Repr - old(Repr)) && !ret.Panicked? && r != Running
      ensures Agrees(Machine.Run(p, input, old(view), T.Measure(|p.code|, old(view))), ret)
    {
      hide FrameHolds, SliceHolds, T.Measure, MachineInvariants.InBounds, T.ForwardOnly, Machine.Run;
      T.ForwardProgramsHalt(p, input, view, T.Measure(|p.code|, view));
      ret := Run(T.Measure(|p.code|, view));
    }
  }
}
