/**
  A match from beginning to end (`peggyvm/program.go`): make an execution, run it, and report
  what it captured.
 */
module Matching {
  import opened Words
  import opened Machine
  import opened MachineInvariants
  import opened Captures
  import E = Execution

  datatype Result = Result(success: bool, captures: seq<Capture>)

  /**
    `Match`, on any program and input on which the run ends; `None` is a panic.  It panics
    exactly when the run panics or returns an error: an assignment the run leaves behind
    never has an index out of range.  Otherwise it reports success or failure, and for each
    capture exactly its events.
   */
  method Match(p: Program, input: Bytes, ghost n: nat) returns (res: Option<Result>)
    requires E.Execution.Ended(Run(p, input, Start(), n))
    ensures var o := Run(p, input, Start(), n);
      if o.Next?
      then && res.Some? && res.value.success == o.s.r.Success? && |res.value.captures| == p.captures
           && forall c :: 0 <= c < p.captures ==>
                res.value.captures[c] == Summary(Events(o.s.ks, c)) && Reports(o.s.ks, c, res.value.captures[c])
      else res.None?
  {
    hide Run, Events, Summary, Reports;
    var x := new E.Execution(p, input);
    var ret := x.Run(n);
    if ret != E.Nil {
      return None;
    }
    EveryRunInBounds(p, input, n);
    var collected := Collect(x.ks.arr[..x.ks.len], p.captures);
    res := Some(Result(x.r == Success, collected.value));
  }
}
