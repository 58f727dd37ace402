/**
  The byte set held as sorted, disjoint ranges (`byteset/range.go`).
 */
module RangeSets {
  import opened Words
  import B = Bitmaps

  datatype Range = Range(lo: byte, hi: byte)

  predicate Within(r: Range, b: int) {
    r.lo <= b <= r.hi
  }

  /** Some range holds `b`. */
  ghost predicate Covers(rs: seq<Range>, b: int) {
    exists r :: r in rs && Within(r, b)
  }

  /** Some range holds both `x` and the byte after it. */
  ghost predicate Joins(rs: seq<Range>, x: int) {
    exists r :: r in rs && Within(r, x) && Within(r, x + 1)
  }

  /** The same bytes, and the same neighbours held together. */
  ghost predicate SameSets(a: seq<Range>, c: seq<Range>) {
    forall x: int :: (Covers(a, x) <==> Covers(c, x)) && (Joins(a, x) <==> Joins(c, x))
  }

  /** What the binary search relies on: no range is empty, and each ends before the next begins. */
  ghost predicate Separated(rs: seq<Range>) {
    && (forall i :: 0 <= i < |rs| ==> rs[i].lo <= rs[i].hi)
    && (forall i, j :: 0 <= i < j < |rs| ==> rs[i].hi < rs[j].lo)
  }

  // ---- filtering and sorting

  ghost predicate SortedByLo(rs: seq<Range>) {
    forall i, j :: 0 <= i < j < |rs| ==> rs[i].lo <= rs[j].lo
  }

  ghost predicate NoneEmpty(rs: seq<Range>) {
    forall r :: r in rs ==> r.lo <= r.hi
  }

  method DropEmpty(a: seq<Range>) returns (b: seq<Range>)
    ensures NoneEmpty(b) && SameSets(a, b)
    ensures forall r :: r in b <==> r in a && r.lo <= r.hi
  {
    b := [];
    for i := 0 to |a|
      invariant forall r :: r in b <==> r in a[..i] && r.lo <= r.hi
    {
      assert a[..i + 1] == a[..i] + [a[i]];
      if a[i].hi >= a[i].lo {
        b := b + [a[i]];
      }
    }
    assert a[..|a|] == a;
    SameMembers(a, b);
  }

  lemma SameMembers(a: seq<Range>, b: seq<Range>)
    requires forall r :: r in b <==> r in a && r.lo <= r.hi
    ensures SameSets(a, b)
  {
    forall x: int ensures (Covers(a, x) <==> Covers(b, x)) && (Joins(a, x) <==> Joins(b, x)) {
      if Covers(a, x) {
        var r :| r in a && Within(r, x);
        assert r in b;
      }
      if Joins(a, x) {
        var r :| r in a && Within(r, x) && Within(r, x + 1);
        assert r in b;
      }
    }
  }

  /** `sort.Sort(rangeSlice(b))`. */
  method SortByLo(a: seq<Range>) returns (b: seq<Range>)
    ensures SortedByLo(b) && multiset(b) == multiset(a)
  {
    b := [];
    for i := 0 to |a|
      invariant SortedByLo(b) && multiset(b) == multiset(a[..i])
    {
      assert a[..i + 1] == a[..i] + [a[i]];
      b := Insert(b, a[i]);
    }
    assert a[..|a|] == a;
  }

  method Insert(s: seq<Range>, r: Range) returns (t: seq<Range>)
    requires SortedByLo(s)
    ensures SortedByLo(t) && multiset(t) == multiset(s) + multiset{r}
  {
    hide SortedByLo;
    var i := |s|;
    while i > 0 && s[i - 1].lo > r.lo
      invariant 0 <= i <= |s| && forall k :: i <= k < |s| ==> s[k].lo > r.lo
    {
      i := i - 1;
    }
    InsertedSorted(s, i, r);
    assert s == s[..i] + s[i..];
    t := s[..i] + [r] + s[i..];
  }

  lemma InsertedSorted(s: seq<Range>, i: nat, r: Range)
    requires SortedByLo(s) && i <= |s|
    requires (forall k :: i <= k < |s| ==> s[k].lo > r.lo) && (i > 0 ==> s[i - 1].lo <= r.lo)
    ensures SortedByLo(s[..i] + [r] + s[i..])
  {
    var t := s[..i] + [r] + s[i..];
    assert forall k :: 0 <= k < i ==> s[k].lo <= r.lo;
    assert forall k :: 0 <= k < |t| ==> t[k] == if k < i then s[k] else if k == i then r else s[k - 1];
  }

  // ---- coalescing

  /** The merge loop's state: `c` stands for what has been read, and ends at or before what is to come. */
  ghost predicate Merging(c: seq<Range>, read: seq<Range>, rest: seq<Range>) {
    && Separated(c) && SameSets(read, c)
    && (c != [] ==> forall r :: r in rest ==> c[|c| - 1].lo <= r.lo)
    && (c == [] ==> read == [])
  }

  lemma CoversSnoc(rs: seq<Range>, r: Range, x: int)
    ensures Covers(rs + [r], x) <==> Covers(rs, x) || Within(r, x)
    ensures Joins(rs + [r], x) <==> Joins(rs, x) || (Within(r, x) && Within(r, x + 1))
  {
    if Covers(rs, x) { var q :| q in rs && Within(q, x); assert q in rs + [r]; }
    if Joins(rs, x) { var q :| q in rs && Within(q, x) && Within(q, x + 1); assert q in rs + [r]; }
    assert r in rs + [r];
  }

  /** Replacing the last range by one that also takes in `r`, which it touches or contains. */
  lemma LastAbsorbs(c: seq<Range>, r: Range, read: seq<Range>)
    requires c != [] && Separated(c) && SameSets(read, c)
    requires c[|c| - 1].lo <= r.lo <= c[|c| - 1].hi && r.lo <= r.hi
    ensures var l := c[|c| - 1];
      SameSets(read + [r], c[..|c| - 1] + [Range(l.lo, if r.hi > l.hi then r.hi else l.hi)])
  {
    var l, init := c[|c| - 1], c[..|c| - 1];
    var m := Range(l.lo, if r.hi > l.hi then r.hi else l.hi);
    assert c == init + [l];
    forall x: int
      ensures Covers(read + [r], x) <==> Covers(init + [m], x)
      ensures Joins(read + [r], x) <==> Joins(init + [m], x)
    {
      CoversSnoc(read, r, x);
      CoversSnoc(init, l, x);
      CoversSnoc(init, m, x);
      assert (Covers(read, x) <==> Covers(c, x)) && (Joins(read, x) <==> Joins(c, x));
    }
  }

  lemma Appended(c: seq<Range>, r: Range, read: seq<Range>)
    requires SameSets(read, c)
    ensures SameSets(read + [r], c + [r])
  {
    forall x: int
      ensures Covers(read + [r], x) <==> Covers(c + [r], x)
      ensures Joins(read + [r], x) <==> Joins(c + [r], x)
    {
      CoversSnoc(read, r, x);
      CoversSnoc(c, r, x);
      assert (Covers(read, x) <==> Covers(c, x)) && (Joins(read, x) <==> Joins(c, x));
    }
  }

  /** One step of the merge loop. */
  method MergeNext(c: seq<Range>, have: bool, lastHi: byte, r: Range, ghost read: seq<Range>, ghost rest: seq<Range>)
    returns (d: seq<Range>, hi: byte)
    requires Merging(c, read, [r] + rest) && have == (c != []) && (have ==> lastHi == c[|c| - 1].hi)
    requires r.lo <= r.hi && forall q :: q in rest ==> r.lo <= q.lo
    ensures d != [] && hi == d[|d| - 1].hi && Merging(d, read + [r], rest)
  {
    assert r in [r] + rest;
    assert forall q :: q in rest ==> q in [r] + rest;
    if have && lastHi >= r.hi {
      LastAbsorbs(c, r, read);
      assert c == c[..|c| - 1] + [c[|c| - 1]];
      d, hi := c, lastHi;
    } else if have && lastHi >= r.lo {
      LastAbsorbs(c, r, read);
      d, hi := c[|c| - 1 := Range(c[|c| - 1].lo, r.hi)], r.hi;
      assert d == c[..|c| - 1] + [Range(c[|c| - 1].lo, r.hi)];
    } else {
      Appended(c, r, read);
      d, hi := c + [r], r.hi;
    }
  }

  /**
    `coalesceRanges`: the result holds the same bytes in separated ranges, and two
    neighbouring bytes end up in one range exactly when one of the given ranges held both.
   */
  method Coalesce(a: seq<Range>) returns (c: seq<Range>)
    ensures Separated(c) && SameSets(a, c)
  {
    hide SameSets, Separated, SortedByLo;
    var f := DropEmpty(a);
    var b := SortByLo(f);
    SameMultiset(f, b);
    SameSetsTrans(a, f, b);
    if |b| < 2 {
      ShortSeparated(b);
      return b;
    }
    c := [];
    var have, lastHi := false, 0;
    NothingMerged(b);
    for i := 0 to |b|
      invariant have == (c != []) && (have ==> lastHi == c[|c| - 1].hi)
      invariant Merging(c, b[..i], b[i..])
    {
      assert b[i..] == [b[i]] + b[i + 1..] && b[..i + 1] == b[..i] + [b[i]];
      LowestFirst(b, i);
      c, lastHi := MergeNext(c, have, lastHi, b[i], b[..i], b[i + 1..]);
      have := true;
    }
    assert b[..|b|] == b;
    MergingSame(c, b);
    SameSetsTrans(a, b, c);
  }

  lemma SameMultiset(f: seq<Range>, b: seq<Range>)
    requires multiset(b) == multiset(f) && NoneEmpty(f)
    ensures NoneEmpty(b) && SameSets(f, b)
  {
    assert forall r :: r in b <==> r in multiset(b);
    assert forall r :: r in f <==> r in multiset(f);
    SameMembers(f, b);
  }

  lemma SameSetsTrans(a: seq<Range>, b: seq<Range>, c: seq<Range>)
    requires SameSets(a, b) && SameSets(b, c)
    ensures SameSets(a, c)
  {
    forall x: int
      ensures (Covers(a, x) <==> Covers(c, x)) && (Joins(a, x) <==> Joins(c, x))
    {
      assert Covers(a, x) <==> Covers(b, x);
      assert Joins(a, x) <==> Joins(b, x);
    }
  }

  lemma ShortSeparated(b: seq<Range>)
    requires |b| < 2 && NoneEmpty(b)
    ensures Separated(b)
  {
  }

  lemma NothingMerged(b: seq<Range>)
    ensures Merging([], b[..0], b[0..])
  {
  }

  lemma LowestFirst(b: seq<Range>, i: nat)
    requires i < |b| && SortedByLo(b) && NoneEmpty(b)
    ensures b[i].lo <= b[i].hi && forall q :: q in b[i + 1..] ==> b[i].lo <= q.lo
  {
    assert b[i] in b;
  }

  lemma MergingSame(c: seq<Range>, b: seq<Range>)
    requires Merging(c, b, b[|b|..])
    ensures Separated(c) && SameSets(b, c)
  {
  }

  lemma GapBetween(c: seq<Range>, i: nat, j: nat)
    requires Separated(c) && i + 1 < j < |c|
    ensures c[i].hi + 1 < c[j].lo
  {
    assert c[i].hi < c[i + 1].lo <= c[i + 1].hi < c[j].lo;
  }

  /** Two ranges that touch without overlapping are kept apart. */
  lemma AdjacentStayApart(a: seq<Range>, c: seq<Range>, x: byte)
    requires Separated(c) && SameSets(a, c) && Covers(a, x) && Covers(a, x + 1)
    ensures (exists i :: 0 <= i < |c| - 1 && c[i].hi == x && c[i + 1].lo == x + 1) <==> !Joins(a, x)
  {
    assert Covers(c, x) && Covers(c, x + 1) && (Joins(a, x) <==> Joins(c, x));
    var p :| p in c && Within(p, x);
    var q :| q in c && Within(q, x + 1);
    var i :| 0 <= i < |c| && c[i] == p;
    var j :| 0 <= j < |c| && c[j] == q;
    if !Joins(c, x) {
      assert i != j && !Within(p, x + 1) && !Within(q, x);
      assert i < j;
      if i + 1 < j { GapBetween(c, i, j); }
    } else {
      var r :| r in c && Within(r, x) && Within(r, x + 1);
      var k :| 0 <= k < |c| && c[k] == r;
      forall m | 0 <= m < |c| - 1 ensures !(c[m].hi == x && c[m + 1].lo == x + 1) {
        if m < k { assert c[m].hi < c[k].lo; }
        if k < m { assert c[k].hi < c[m].lo; }
      }
    }
  }

  // ---- using the ranges

  /** `Match`: binary search for the first range that does not end before `b`. */
  method Match(rs: seq<Range>, b: byte) returns (found: bool)
    requires Separated(rs)
    ensures found <==> Covers(rs, b)
    ensures found <==> exists i :: 0 <= i < |rs| && rs[i].lo <= b <= rs[i].hi
  {
    var lo, hi := 0, |rs|;
    while lo < hi
      invariant 0 <= lo <= hi <= |rs|
      invariant forall i :: 0 <= i < lo ==> rs[i].hi < b
      invariant forall i :: hi <= i < |rs| ==> rs[i].hi >= b
    {
      var mid := (lo + hi) / 2;
      SeparatedHis(rs, mid);
      if rs[mid].hi >= b { hi := mid; } else { lo := mid + 1; }
    }
    if lo >= |rs| {
      return false;
    }
    found := rs[lo].lo <= b <= rs[lo].hi;
    SearchFinds(rs, b, lo);
  }

  lemma SeparatedHis(rs: seq<Range>, m: nat)
    requires Separated(rs) && m < |rs|
    ensures forall i :: 0 <= i <= m ==> rs[i].hi <= rs[m].hi
    ensures forall i :: m <= i < |rs| ==> rs[m].hi <= rs[i].hi
  {
    forall i | 0 <= i < m ensures rs[i].hi <= rs[m].hi { assert rs[i].hi < rs[m].lo; }
    forall i | m < i < |rs| ensures rs[m].hi <= rs[i].hi { assert rs[m].hi < rs[i].lo; }
  }

  lemma SearchFinds(rs: seq<Range>, b: byte, k: nat)
    requires Separated(rs) && k < |rs|
    requires (forall i :: 0 <= i < k ==> rs[i].hi < b) && rs[k].hi >= b
    ensures Within(rs[k], b) <==> Covers(rs, b)
  {
    if Covers(rs, b) {
      var r :| r in rs && Within(r, b);
      var i :| 0 <= i < |rs| && rs[i] == r;
      if k < i { assert rs[k].hi < rs[i].lo; }
    }
  }

  /** `ForEach`: range by range, byte by byte. */
  method ForEach(rs: seq<Range>) returns (out: seq<byte>)
    requires Separated(rs)
    ensures B.Ascending(out)
    ensures forall b: byte :: b in out <==> Covers(rs, b)
  {
    out := [];
    for i := 0 to |rs|
      invariant B.Ascending(out)
      invariant forall b: byte :: b in out <==> Covers(rs[..i], b)
    {
      AllBelow(rs, i);
      var x: int := rs[i].lo;
      while x <= rs[i].hi
        invariant rs[i].lo <= x <= rs[i].hi + 1
        invariant B.Ascending(out)
        invariant forall b: byte :: b in out <==> Covers(rs[..i], b) || rs[i].lo <= b < x
      {
        B.AscendingSnoc(out, x);
        out := out + [x];
        x := x + 1;
      }
      assert rs[..i + 1] == rs[..i] + [rs[i]];
      forall b: byte ensures b in out <==> Covers(rs[..i + 1], b) { CoversSnoc(rs[..i], rs[i], b); }
    }
    assert rs[..|rs|] == rs;
  }

  lemma AllBelow(rs: seq<Range>, i: nat)
    requires Separated(rs) && i < |rs|
    ensures forall b: int :: Covers(rs[..i], b) ==> b < rs[i].lo
  {
    forall b: int | Covers(rs[..i], b) ensures b < rs[i].lo {
      var r :| r in rs[..i] && Within(r, b);
      var k :| 0 <= k < i && rs[..i][k] == r;
      assert rs[k].hi < rs[i].lo;
    }
  }

  /** `asDense`: the same bytes as a bitmap. */
  method AsDense(rs: seq<Range>) returns (m: B.Bitmap)
    ensures forall b: byte :: B.Member(m, b) <==> Covers(rs, b)
  {
    hide B.Member;
    m := B.EMPTY;
    B.EmptyHasNone();
    for i := 0 to |rs|
      invariant forall b: byte :: B.Member(m, b) <==> Covers(rs[..i], b)
    {
      var x: int := rs[i].lo;
      while x <= rs[i].hi
        invariant rs[i].lo <= x <= 256 && (rs[i].lo <= rs[i].hi ==> x <= rs[i].hi + 1)
        invariant forall b: byte :: B.Member(m, b) <==> Covers(rs[..i], b) || (Within(rs[i], b) && b < x)
      {
        m := B.Add(m, x);
        x := x + 1;
      }
      assert rs[..i + 1] == rs[..i] + [rs[i]];
      forall b: byte ensures B.Member(m, b) <==> Covers(rs[..i + 1], b) { CoversSnoc(rs[..i], rs[i], b); }
    }
    assert rs[..|rs|] == rs;
  }
}
