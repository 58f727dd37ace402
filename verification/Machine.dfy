/**
  The virtual machine as a transition function on values (`peggyvm/execution.go`).

  A step takes the whole state of an execution to the next one, to an error return, or to a
  panic.  `uint64` arithmetic wraps where the program's would; that it never does on any run
  is proved in `MachineInvariants`.
 */
module Machine {
  import opened Words
  import opened Immediates
  import opened Instructions

  /** A byte slice: its length is a non-negative `int`. */
  type Bytes = s: seq<byte> | |s| < 0x8000_0000_0000_0000

  /** A compiled program.  A byte set stands for the bytes its matcher matches. */
  datatype Program = Program(code: Bytes, literals: seq<Bytes>, byteSets: seq<set<byte>>, captures: nat)

  datatype Assignment = Assignment(dp: u64, index: u64, isEnd: bool)

  datatype Frame =
    | Choice(dp: u64, xp: u64, ks: seq<Assignment>)
    | Call(xp: u64)

  datatype Status = Running | Success | Failure | Broken

  datatype State = State(dp: u64, xp: u64, ks: seq<Assignment>, cs: seq<Frame>, r: Status)

  datatype PanicReason = CodeOffsetRange | InputRange

  /** `Next`: returned nil.  `Fault`: returned an error.  `Panic`: did not return. */
  datatype Outcome = Next(s: State) | Fault(s: State, err: Error) | Panic(why: PanicReason)

  // ---- matching

  /** What trying to match at the data pointer came to. */
  datatype Probe = Hit(n: u64) | Miss | BadIndex | BadRead

  function Available(input: Bytes, dp: u64): (r: u64) {
    ToU64(|input| - dp)
  }

  function MatchAny(input: Bytes, dp: u64, n: u64): (r: Probe) {
    if Available(input, dp) >= n then Hit(n) else Miss
  }

  /** `matchN`'s loop, from position `i` on. */
  function ScanSet(input: Bytes, dp: u64, m: set<byte>, n: u64, i: nat): (r: Probe)
    requires i <= n
    decreases n - i
  {
    if i == n then Hit(n)
    else
      var k := ToU64(dp + i);
      if k >= |input| then BadRead
      else if input[k] in m then ScanSet(input, dp, m, n, i + 1)
      else Miss
  }

  function MatchN(input: Bytes, dp: u64, m: set<byte>, n: u64): (r: Probe) {
    if Available(input, dp) < n then Miss else ScanSet(input, dp, m, n, 0)
  }

  /** `matchLit`'s loop, from position `i` on. */
  function ScanLit(input: Bytes, dp: u64, lit: Bytes, i: nat): (r: Probe)
    requires i <= |lit|
    decreases |lit| - i
  {
    if i == |lit| then Hit(|lit|)
    else
      var k := ToU64(dp + i);
      if k >= |input| then BadRead
      else if input[k] == lit[i] then ScanLit(input, dp, lit, i + 1)
      else Miss
  }

  function MatchLit(input: Bytes, dp: u64, lit: Bytes): (r: Probe) {
    if Available(input, dp) < |lit| then Miss else ScanLit(input, dp, lit, 0)
  }

  /** Where `SPANB` leaves the data pointer. */
  function SpanEnd(input: Bytes, dp: u64, m: set<byte>): (r: u64)
    ensures dp <= r && (dp <= |input| ==> r <= |input|)
    decreases |input| - dp
  {
    if dp < |input| && input[dp] in m then SpanEnd(input, dp + 1, m) else dp
  }

  /** The four ways of matching, each shared by a plain and a test-and-jump instruction. */
  datatype Matching = AnyB(n: u64) | SameB(b: u64, n: u64) | LitB(lit: u64) | MatchB(m: u64, n: u64)

  function Try(p: Program, input: Bytes, dp: u64, how: Matching): (r: Probe) {
    match how
    case AnyB(n) => MatchAny(input, dp, n)
    case SameB(b, n) => MatchN(input, dp, {b % 0x100}, n)
    case LitB(lit) => if lit >= |p.literals| then BadIndex else MatchLit(input, dp, p.literals[lit])
    case MatchB(m, n) => if m >= |p.byteSets| then BadIndex else MatchN(input, dp, p.byteSets[m], n)
  }

  // ---- one instruction

  /** `fail`: drop call frames, then restore the topmost choice frame, or give up. */
  function Fail(s: State): (t: State)
    decreases |s.cs|
  {
    if s.cs == [] then s.(r := Failure, ks := [])
    else
      var fr, rest := s.cs[|s.cs| - 1], s.cs[..|s.cs| - 1];
      if fr.Choice? then s.(dp := fr.dp, xp := fr.xp, ks := fr.ks, cs := rest)
      else Fail(s.(cs := rest))
  }

  function Stop(s: State, err: Error): (o: Outcome) {
    Fault(s.(r := Broken, ks := []), err)
  }

  function Target(s: State, op: Op): (t: Option<u64>) {
    AddOffset(s.xp, U2S(op.imm0))
  }

  function Jump(s: State, op: Op): (o: Outcome) {
    match Target(s, op)
    case None => Panic(CodeOffsetRange)
    case Some(xp) => Next(s.(xp := xp))
  }

  function Plain(s: State, probe: Probe): (o: Outcome) {
    match probe
    case Hit(n) => Next(s.(dp := ToU64(s.dp + n)))
    case Miss => Next(Fail(s))
    case BadIndex => Stop(s, IndexRange)
    case BadRead => Panic(InputRange)
  }

  function Test(s: State, probe: Probe, op: Op): (o: Outcome) {
    match probe
    case Hit(n) => Next(s.(dp := ToU64(s.dp + n)))
    case Miss => Jump(s, op)
    case BadIndex => Stop(s, IndexRange)
    case BadRead => Panic(InputRange)
  }

  /** The instructions that pop a frame and insist that it is a choice. */
  function Popping(s: State, op: Op): (o: Outcome) {
    if s.cs == [] then Stop(s, EmptyStack)
    else
      var fr, t := s.cs[|s.cs| - 1], s.(cs := s.cs[..|s.cs| - 1]);
      if fr.Call? then Stop(t, if op.code.RET? then ChoiceFailFrame else CallRetFrame)
      else if op.code.RET? then Next(t.(xp := fr.xp))
      else if op.code.FAIL2X? then Next(Fail(t))
      else
        match Target(t, op)
        case None => Panic(CodeOffsetRange)
        case Some(xp) =>
          if op.code.PCOMMIT? then Next(s.(cs := t.cs + [Choice(s.dp, xp, s.ks)]))
          else if op.code.BCOMMIT? then Next(t.(dp := fr.dp, ks := fr.ks, xp := xp))
          else Next(t.(xp := xp))
  }

  function Record(p: Program, s: State, op: Op): (o: Outcome) {
    if op.imm0 >= p.captures then Stop(s, IndexRange)
    else if op.code.FCAP? then
      if op.imm1 > s.dp then Stop(s, CountRange)
      else Next(s.(ks := s.ks + [Assignment(s.dp - op.imm1, op.imm0, false)] + [Assignment(s.dp, op.imm0, true)]))
    else Next(s.(ks := s.ks + [Assignment(s.dp, op.imm0, op.code.ECAP?)]))
  }

  function Push(s: State, op: Op): (o: Outcome) {
    match Target(s, op)
    case None => Panic(CodeOffsetRange)
    case Some(xp) =>
      if op.code.CHOICE? then Next(s.(cs := s.cs + [Choice(s.dp, xp, s.ks)]))
      else Next(s.(cs := s.cs + [Call(s.xp)], xp := xp))
  }

  /** How a matching instruction matches. */
  function MatchingOf(op: Op): (r: Option<Matching>) {
    match op.code
    case ANYB => Some(AnyB(op.imm0))
    case SAMEB => Some(SameB(op.imm0, op.imm1))
    case LITB => Some(LitB(op.imm0))
    case MATCHB => Some(MatchB(op.imm0, op.imm1))
    case TANYB => Some(AnyB(op.imm1))
    case TSAMEB => Some(SameB(op.imm1, op.imm2))
    case TLITB => Some(LitB(op.imm1))
    case TMATCHB => Some(MatchB(op.imm1, op.imm2))
    case _ => None
  }

  /** One decoded instruction; `s.xp` already points past it. */
  function Execute(p: Program, input: Bytes, op: Op, s: State): (o: Outcome) {
    match op.code
    case ANYB | SAMEB | LITB | MATCHB => Plain(s, Try(p, input, s.dp, MatchingOf(op).value))
    case TANYB | TSAMEB | TLITB | TMATCHB => Test(s, Try(p, input, s.dp, MatchingOf(op).value), op)
    case CHOICE | CALL => Push(s, op)
    case COMMIT | PCOMMIT | BCOMMIT | FAIL2X | RET => Popping(s, op)
    case FAIL => Next(Fail(s))
    case JMP => Jump(s, op)
    case SPANB =>
      if op.imm0 >= |p.byteSets| then Stop(s, IndexRange)
      else Next(s.(dp := SpanEnd(input, s.dp, p.byteSets[op.imm0])))
    case RWNDB => if op.imm0 > s.dp then Stop(s, CountRange) else Next(s.(dp := s.dp - op.imm0))
    case FCAP | BCAP | ECAP => Record(p, s, op)
    case GIVEUP => Next(s.(r := Failure, ks := []))
    case END => Next(s.(r := Success))
    case NOP | Reserved(_) => Next(s)
  }

  /** `Step`. */
  function Step(p: Program, input: Bytes, s: State): (o: Outcome) {
    if !s.r.Running? then Fault(s, ExecutionHalted)
    else
      match DecodeOp(p.code, s.xp)
      case EndOfCode => Next(s.(r := Success))
      case Malformed(e) => Stop(s, e)
      case Decoded(op) => Execute(p, input, op, s.(xp := s.xp + op.len))
  }

  /** `Exec`: the state a match starts in. */
  function Start(): (s: State) {
    State(0, 0, [], [], Running)
  }

  /** `Run`, cut off after `n` steps. */
  function Run(p: Program, input: Bytes, s: State, n: nat): (o: Outcome)
    decreases n
  {
    if n == 0 || !s.r.Running? then Next(s)
    else
      match Step(p, input, s)
      case Next(t) => Run(p, input, t, n - 1)
      case Fault(t, e) => Fault(t, e)
      case Panic(w) => Panic(w)
  }

  /** Running further from where a run stands is running longer. */
  lemma {:induction false} RunOn(p: Program, input: Bytes, s: State, t: State, n: nat, m: nat)
    requires Run(p, input, s, n) == Next(t)
    ensures Run(p, input, s, n + m) == Run(p, input, t, m)
    decreases n
  {
    hide Step;
    if n > 0 && s.r.Running? {
      RunOn(p, input, Step(p, input, s).s, t, n - 1, m);
    }
  }
}
