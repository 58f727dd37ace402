/**
  Byte matchers and their optimizer (`byteset/`).

  A negation is an object whose inner matcher `Optimize` replaces in place, and it may be
  shared between matchers.  Each negation therefore carries, as ghost constants, the bytes it
  was built to exclude and a rank above everything inside it.  What a matcher stands for is
  read off those constants, so it cannot depend on who has been optimized in the meantime;
  `Valid` says that the objects live up to them.
 */
module Matchers {
  import opened Words
  import B = Bitmaps
  import R = RangeSets
  import U = UnionMerge

  datatype Matcher =
    | All
    | Nothing
    | Exact(b: byte)
    | Dense(bits: B.Bitmap)
    | Sparse(elems: set<byte>)
    | Ranges(rs: seq<R.Range>)
    | Not(node: Negation)
    | And(list: seq<Matcher>)
    | Or(list: seq<Matcher>)

  class Negation {
    var inner: Matcher
    ghost const excluded: set<byte>
    ghost const rank: nat

    constructor (m: Matcher, ghost rank: nat)
      ensures inner == m && this.rank == rank
      ensures forall b: byte :: b in excluded <==> Has(m, b)
    {
      inner := m;
      this.rank := rank;
      excluded := set b: byte | 0 <= b < 0x100 && Has(m, b);
    }
  }

  /** The bytes a matcher stands for. */
  ghost predicate Has(m: Matcher, b: byte)
    decreases m
  {
    match m
    case All => true
    case Nothing => false
    case Exact(c) => b == c
    case Dense(bits) => B.Member(bits, b)
    case Sparse(elems) => b in elems
    case Ranges(rs) => R.Covers(rs, b)
    case Not(node) => b !in node.excluded
    case And(list) => forall i :: 0 <= i < |list| ==> Has(list[i], b)
    case Or(list) => exists i :: 0 <= i < |list| && Has(list[i], b)
  }

  ghost predicate SameBytes(m: Matcher, n: Matcher) {
    forall b: byte :: Has(m, b) <==> Has(n, b)
  }

  /** Every negation in `m` is one of `s`, ranked below `k`, and its ranges are searchable. */
  ghost predicate Ok(m: Matcher, s: set<Negation>, k: nat)
    decreases m
  {
    match m
    case Ranges(rs) => R.Separated(rs)
    case Not(node) => node in s && node.rank < k
    case And(list) => forall i :: 0 <= i < |list| ==> Ok(list[i], s, k)
    case Or(list) => forall i :: 0 <= i < |list| ==> Ok(list[i], s, k)
    case _ => true
  }

  /** Each negation's inner matcher is what it was built to exclude, and ranked below it. */
  ghost predicate Valid(s: set<Negation>)
    reads s
  {
    forall node :: node in s ==>
      Ok(node.inner, s, node.rank) && forall b: byte :: Has(node.inner, b) <==> b in node.excluded
  }

  // ---- constructors

  lemma {:induction false} OkGrows(m: Matcher, s: set<Negation>, t: set<Negation>, j: nat, k: nat)
    requires Ok(m, s, j) && s <= t && j <= k
    ensures Ok(m, t, k)
    decreases m
  {
    match m
    case And(list) =>
      forall i | 0 <= i < |list| ensures Ok(list[i], t, k) { OkGrows(list[i], s, t, j, k); }
    case Or(list) =>
      forall i | 0 <= i < |list| ensures Ok(list[i], t, k) { OkGrows(list[i], s, t, j, k); }
    case _ =>
  }

  /** `Not`. */
  method Negate(m: Matcher, ghost s: set<Negation>, ghost k: nat) returns (r: Matcher, ghost t: set<Negation>)
    requires Valid(s) && Ok(m, s, k)
    ensures s <= t && fresh(t - s) && Valid(t) && Ok(r, t, k + 1)
    ensures forall b: byte :: Has(r, b) <==> !Has(m, b)
  {
    var node := new Negation(m, k);
    t := s + {node};
    OkGrows(m, s, t, k, k);
    forall n | n in s ensures Ok(n.inner, t, n.rank) { OkGrows(n.inner, s, t, n.rank, n.rank); }
    r := Not(node);
  }

  /** `Ranges`. */
  method MakeRanges(given: seq<R.Range>) returns (r: Matcher)
    ensures Ok(r, {}, 0)
    ensures forall b: byte :: Has(r, b) <==> R.Covers(given, b)
  {
    var rs := R.Coalesce(given);
    r := Ranges(rs);
  }

  /** `DenseSet`. */
  method MakeDense(given: seq<byte>) returns (r: Matcher)
    ensures Ok(r, {}, 0)
    ensures forall b: byte :: Has(r, b) <==> b in given
  {
    var bits := B.DenseSet(given);
    r := Dense(bits);
  }

  // ---- Match

  /** `Match`, for every kind of matcher. */
  method Match(m: Matcher, b: byte, ghost s: set<Negation>, ghost k: nat) returns (r: bool)
    requires Valid(s) && Ok(m, s, k)
    ensures r <==> Has(m, b)
    decreases k, m
  {
    match m {
      case All => return true;
      case Nothing => return false;
      case Exact(c) => return b == c;
      case Dense(bits) => return B.Match(bits, b);
      case Sparse(elems) => return b in elems;
      case Ranges(rs) => r := R.Match(rs, b);
      case Not(node) =>
        var hit := Match(node.inner, b, s, node.rank);
        return !hit;
      case And(list) =>
        for i := 0 to |list|
          invariant forall j :: 0 <= j < i ==> Has(list[j], b)
        {
          var hit := Match(list[i], b, s, k);
          if !hit { return false; }
        }
        return true;
      case Or(list) =>
        for i := 0 to |list|
          invariant forall j :: 0 <= j < i ==> !Has(list[j], b)
        {
          var hit := Match(list[i], b, s, k);
          if hit { return true; }
        }
        return false;
    }
  }

  // ---- ForEach

  /** `out` lists the bytes of `m`, each once, in ascending order. */
  ghost predicate Lists(out: seq<byte>, m: Matcher) {
    B.Ascending(out) && forall b: byte :: b in out <==> Has(m, b)
  }

  /** `genericForEach`. */
  method TryEveryByte(m: Matcher, ghost s: set<Negation>, ghost k: nat) returns (out: seq<byte>)
    requires Valid(s) && Ok(m, s, k)
    ensures Lists(out, m)
  {
    hide Ok, Has;
    out := [];
    for i := 0 to 256
      invariant B.Ascending(out) && forall b: byte :: b in out <==> Has(m, b) && b < i
    {
      var hit := Match(m, i, s, k);
      if hit {
        B.AscendingSnoc(out, i);
        out := out + [i];
      }
    }
  }

  /** The bytes of a map's key set, collected and then sorted. */
  method SortedKeys(elems: set<byte>) returns (out: seq<byte>)
    ensures B.Ascending(out) && forall b: byte :: b in out <==> b in elems
  {
    out := [];
    var rest := elems;
    while rest != {}
      invariant rest <= elems && B.Ascending(out)
      invariant forall b: byte :: b in out <==> b in elems && b !in rest
      decreases rest
    {
      var b :| b in rest;
      out := InsertByte(out, b);
      rest := rest - {b};
    }
  }

  method InsertByte(s: seq<byte>, b: byte) returns (t: seq<byte>)
    requires B.Ascending(s) && b !in s
    ensures B.Ascending(t) && forall c: byte :: c in t <==> c in s || c == b
  {
    var i := |s|;
    while i > 0 && s[i - 1] > b
      invariant 0 <= i <= |s| && forall j :: i <= j < |s| ==> s[j] > b
    {
      i := i - 1;
    }
    t := s[..i] + [b] + s[i..];
    InsertedAscending(s, i, b);
  }

  lemma InsertedAscending(s: seq<byte>, i: nat, b: byte)
    requires B.Ascending(s) && i <= |s| && b !in s
    requires (forall j :: i <= j < |s| ==> s[j] > b) && (i > 0 ==> s[i - 1] <= b)
    ensures var t := s[..i] + [b] + s[i..]; B.Ascending(t) && forall c: byte :: c in t <==> c in s || c == b
  {
    hide B.Ascending;
    assert s == s[..i] + s[i..];
    BelowBefore(s, i, b);
    JoinAscending(s, i, b);
  }

  lemma BelowBefore(s: seq<byte>, i: nat, b: byte)
    requires B.Ascending(s) && i <= |s| && b !in s && (i > 0 ==> s[i - 1] <= b)
    ensures forall j :: 0 <= j < i ==> s[j] < b
  {
    forall j | 0 <= j < i ensures s[j] < b {
      assert s[j] in s;
      if j < i - 1 { assert s[j] < s[i - 1]; }
    }
  }

  lemma JoinAscending(s: seq<byte>, i: nat, b: byte)
    requires B.Ascending(s) && i <= |s|
    requires (forall j :: i <= j < |s| ==> s[j] > b) && (forall j :: 0 <= j < i ==> s[j] < b)
    ensures B.Ascending(s[..i] + [b] + s[i..])
  {
    var t := s[..i] + [b] + s[i..];
    forall x, y | 0 <= x < y < |t| ensures t[x] < t[y] {
      if y < i {
        assert t[x] == s[x] && t[y] == s[y];
      } else if x > i {
        assert t[x] == s[x - 1] && t[y] == s[y - 1];
      }
    }
  }

  /** `ForEach`, for every kind of matcher: it agrees with `Match`, in ascending order. */
  method ForEach(m: Matcher, ghost s: set<Negation>, ghost k: nat) returns (out: seq<byte>)
    requires Valid(s) && Ok(m, s, k)
    ensures Lists(out, m)
    decreases k, m
  {
    match m {
      case All => out := TryEveryByte(m, s, k);
      case Nothing => out := [];
      case Exact(c) => out := [c];
      case Dense(bits) => out := B.ForEach(bits);
      case Sparse(elems) => out := SortedKeys(elems);
      case Ranges(rs) => out := R.ForEach(rs);
      case Not(_) => out := TryEveryByte(m, s, k);
      case And(list) =>
        if |list| == 0 {
          out := TryEveryByte(m, s, k);
        } else {
          var first := ForEach(list[0], s, k);
          out := KeepMatching(list, first, s, k);
        }
      case Or(list) =>
        var streams: seq<seq<byte>> := [];
        for i := 0 to |list|
          invariant |streams| == i && forall j :: 0 <= j < i ==> Lists(streams[j], list[j])
        {
          var stream := ForEach(list[i], s, k);
          streams := streams + [stream];
        }
        out := U.ForEachUnion(streams);
        UnionLists(list, streams, out);
    }
  }

  lemma UnionLists(list: seq<Matcher>, streams: seq<seq<byte>>, out: seq<byte>)
    requires |streams| == |list| && forall j :: 0 <= j < |list| ==> Lists(streams[j], list[j])
    requires B.Ascending(out) && forall b: byte :: b in out <==> U.Sent(streams, b)
    ensures Lists(out, Or(list))
  {
    forall b: byte ensures U.Sent(streams, b) <==> Has(Or(list), b) {
      if Has(Or(list), b) {
        var i :| 0 <= i < |list| && Has(list[i], b);
        assert Lists(streams[i], list[i]);
      }
    }
  }

  /** The bytes of the first member that every other member matches. */
  method KeepMatching(list: seq<Matcher>, first: seq<byte>, ghost s: set<Negation>, ghost k: nat) returns (out: seq<byte>)
    requires Valid(s) && list != [] && Lists(first, list[0])
    requires forall i :: 0 <= i < |list| ==> Ok(list[i], s, k)
    ensures Lists(out, And(list))
  {
    out := [];
    for i := 0 to |first|
      invariant B.Ascending(out) && forall b: byte :: b in out <==> b in first[..i] && Has(And(list), b)
    {
      assert first[..i + 1] == first[..i] + [first[i]];
      var keep := true;
      var j := 1;
      while j < |list| && keep
        invariant 1 <= j <= |list|
        invariant keep ==> forall l :: 1 <= l < j ==> Has(list[l], first[i])
        invariant !keep ==> !Has(And(list), first[i])
      {
        keep := Match(list[j], first[i], s, k);
        j := j + 1;
      }
      if keep {
        assert first[i] in first;
        AllBefore(first, i);
        B.AscendingSnoc(out, first[i]);
        out := out + [first[i]];
      }
    }
    assert first[..|first|] == first;
  }

  lemma AllBefore(first: seq<byte>, i: nat)
    requires B.Ascending(first) && i < |first|
    ensures forall c :: c in first[..i] ==> c < first[i]
  {
  }

  // ---- asDense

  /** Set a bit for each byte listed. */
  method AddAll(bytes: seq<byte>) returns (bits: B.Bitmap)
    ensures forall b: byte :: B.Member(bits, b) <==> b in bytes
  {
    hide B.Member;
    bits := B.EMPTY;
    B.EmptyHasNone();
    for i := 0 to |bytes|
      invariant forall b: byte :: B.Member(bits, b) <==> b in bytes[..i]
    {
      assert bytes[..i + 1] == bytes[..i] + [bytes[i]];
      bits := B.Add(bits, bytes[i]);
    }
    assert bytes[..|bytes|] == bytes;
  }

  /** Set a bit for each key of a map, in whatever order they come. */
  method AddKeys(elems: set<byte>) returns (bits: B.Bitmap)
    ensures forall b: byte :: B.Member(bits, b) <==> b in elems
  {
    hide B.Member;
    bits := B.EMPTY;
    B.EmptyHasNone();
    var rest := elems;
    while rest != {}
      invariant rest <= elems
      invariant forall b: byte :: B.Member(bits, b) <==> b in elems && b !in rest
      decreases rest
    {
      var b :| b in rest;
      bits := B.Add(bits, b);
      rest := rest - {b};
    }
  }

  /** `asDense`: a bitmap of the same bytes, from whichever representation. */
  method AsDense(m: Matcher, ghost s: set<Negation>, ghost k: nat) returns (bits: B.Bitmap)
    requires Valid(s) && Ok(m, s, k)
    ensures forall b: byte :: B.Member(bits, b) <==> Has(m, b)
  {
    hide B.Member;
    match m {
      case Dense(d) => bits := d;
      case Exact(c) =>
        B.EmptyHasNone();
        bits := B.Add(B.EMPTY, c);
      case Ranges(rs) => bits := R.AsDense(rs);
      case Sparse(elems) => bits := AddKeys(elems);
      case _ =>
        var bytes := ForEach(m, s, k);
        bits := AddAll(bytes);
    }
  }

  // ---- Optimize

  /**
    Nothing is left to simplify: no union or intersection, no set that is empty or full by
    listing, and of negations only those of single bytes, sparse sets and ranges.
   */
  ghost predicate Lean(m: Matcher)
    reads if m.Not? then {m.node} else {}
  {
    match m
    case Dense(bits) => (exists b: byte :: B.Member(bits, b)) && (exists b: byte :: !B.Member(bits, b))
    case Not(node) => node.inner.Exact? || LeanSet(node.inner)
    case And(_) => false
    case Or(_) => false
    case All => true
    case Nothing => true
    case Exact(_) => true
    case _ => LeanSet(m)
  }

  ghost predicate LeanSet(m: Matcher) {
    (m.Sparse? && |m.elems| >= 2) || (m.Ranges? && m.rs != [])
  }

  /** `(*mDense).Optimize`: by the number of bytes in the set. */
  method OptimizeDense(bits: B.Bitmap) returns (r: Matcher)
    ensures SameBytes(r, Dense(bits)) && Ok(r, {}, 0) && Lean(r)
    ensures r.Dense? ==> exists a: byte, b: byte :: a != b && B.Member(bits, a) && B.Member(bits, b)
  {
    hide B.Member;
    var bytes := B.ForEach(bits);
    B.CountLimits(bytes);
    if |bytes| == 0 {
      r := Nothing;
    } else if |bytes| == 256 {
      r := All;
    } else if |bytes| == 1 {
      r := Exact(bytes[0]);
    } else {
      r := Dense(bits);
      assert bytes[0] in bytes && bytes[1] in bytes && bytes[0] != bytes[1];
      ghost var absent: byte :| absent !in bytes;
    }
  }

  /** `(*mSparse).Optimize`. */
  method OptimizeSparse(elems: set<byte>) returns (r: Matcher)
    ensures SameBytes(r, Sparse(elems)) && Ok(r, {}, 0) && Lean(r)
  {
    if |elems| == 0 {
      r := Nothing;
    } else if |elems| == 1 {
      var b :| b in elems;
      assert |elems - {b}| == 0;
      assert elems == {b};
      r := Exact(b);
    } else {
      r := Sparse(elems);
    }
  }

  /** The end of `(*mNegation).Optimize`: what the negation of an optimized matcher becomes. */
  method OptimizeNegation(node: Negation, ghost s: set<Negation>, ghost k: nat) returns (r: Matcher)
    requires Valid(s) && node in s && node.rank < k
    ensures SameBytes(r, Not(node)) && Ok(r, s, k)
    ensures Lean(node.inner) ==> Lean(r)
  {
    hide B.Member;
    match node.inner {
      case All => r := Nothing;
      case Nothing => r := All;
      case Not(sub) =>
        OkGrows(sub.inner, s, s, sub.rank, k);
        r := sub.inner;
      case Dense(bits) =>
        var flipped := B.Invert(bits);
        r := Dense(flipped);
      case _ => r := Not(node);
    }
    assert forall b: byte :: Has(node.inner, b) <==> b in node.excluded;
  }

  /**
    `Optimize`: the result matches the same bytes, and so, although negations have been
    rewritten in place, does every matcher that shares them; and nothing is left to simplify.
   */
  method Optimize(m: Matcher, ghost s: set<Negation>, ghost k: nat) returns (r: Matcher)
    requires Valid(s) && Ok(m, s, k)
    modifies s
    ensures Valid(s) && SameBytes(r, m) && Ok(r, s, k) && Lean(r)
    decreases k, m
  {
    match m {
      case All => r := All;
      case Nothing => r := Nothing;
      case Exact(_) => r := m;
      case Dense(bits) =>
        r := OptimizeDense(bits);
        OkGrows(r, {}, s, 0, k);
      case Sparse(elems) =>
        r := OptimizeSparse(elems);
        OkGrows(r, {}, s, 0, k);
      case Ranges(rs) => r := if |rs| == 0 then Nothing else m;
      case Not(node) =>
        var inner := Optimize(node.inner, s, node.rank);
        Rewrite(node, inner, s);
        r := OptimizeNegation(node, s, k);
      case And(list) =>
        if |list| == 0 {
          r := All;
        } else if |list| == 1 {
          r := Optimize(list[0], s, k);
          OneOfOne(list);
        } else {
          r := OptimizeMany(m, s, k);
        }
      case Or(list) =>
        if |list| == 0 {
          r := Nothing;
        } else if |list| == 1 {
          r := Optimize(list[0], s, k);
          OneOfOne(list);
        } else {
          r := OptimizeMany(m, s, k);
        }
    }
  }

  lemma OneOfOne(list: seq<Matcher>)
    requires |list| == 1
    ensures SameBytes(And(list), list[0]) && SameBytes(Or(list), list[0])
  {
  }

  /** `m.Inner = m.Inner.Optimize()`: nobody can tell the difference. */
  method Rewrite(node: Negation, inner: Matcher, ghost s: set<Negation>)
    requires Valid(s) && node in s && Ok(inner, s, node.rank) && SameBytes(inner, node.inner)
    modifies node
    ensures Valid(s) && node.inner == inner
  {
    hide Ok, Has;
    ghost var before := node.inner;
    assert forall b: byte :: Has(before, b) <==> b in node.excluded;
    node.inner := inner;
    assert forall b: byte :: Has(inner, b) <==> b in node.excluded;
  }

  method OptimizeMany(m: Matcher, ghost s: set<Negation>, ghost k: nat) returns (r: Matcher)
    requires Valid(s) && Ok(m, s, k)
    ensures SameBytes(r, m) && Ok(r, s, k) && Lean(r)
  {
    hide B.Member;
    var bits := AsDense(m, s, k);
    r := OptimizeDense(bits);
    OkGrows(r, {}, s, 0, k);
  }
}
