/**
  Enumerating a union of byte sets by merging the enumerations of its members
  (`byteset/util.go`).  A channel with one writer and one reader is the sequence of what is
  sent on it and the number of bytes received so far.
 */
module UnionMerge {
  import opened Words
  import opened B = Bitmaps

  type Streams = seq<seq<byte>>

  ghost predicate AllAscending(streams: Streams) {
    forall i :: 0 <= i < |streams| ==> Ascending(streams[i])
  }

  ghost predicate Received(streams: Streams, pos: seq<nat>)
  {
    |pos| == |streams| && forall i :: 0 <= i < |streams| ==> pos[i] <= |streams[i]|
  }

  /** `b` has been received on some channel. */
  ghost predicate Read(streams: Streams, pos: seq<nat>, b: byte)
    requires Received(streams, pos)
  {
    exists i :: 0 <= i < |streams| && b in streams[i][..pos[i]]
  }

  /** `b` is sent on some channel. */
  ghost predicate Sent(streams: Streams, b: byte) {
    exists i :: 0 <= i < |streams| && b in streams[i]
  }

  /** Nothing still to come on channel `i` is as small as anything emitted. */
  ghost predicate Ahead(s: seq<byte>, at: nat, out: seq<byte>) {
    forall k, o :: at <= k < |s| && o in out ==> o < s[k]
  }

  ghost predicate Unique(data: seq<byte>) {
    forall b :: b in data ==> multiset(data)[b] == 1
  }

  /** The merge's invariant. */
  ghost predicate Merging(streams: Streams, pos: seq<nat>, data: seq<byte>, seen: set<byte>, out: seq<byte>) {
    && Received(streams, pos) && AllAscending(streams)
    && (forall b: byte :: b in seen <==> Read(streams, pos, b))
    && (forall b: byte :: b in seen <==> b in data || b in out)
    && Unique(data) && Ascending(out)
    && (forall d, o :: d in data && o in out ==> o < d)
    && (forall i :: 0 <= i < |streams| ==> Ahead(streams[i], pos[i], out))
  }

  /** Channel `i` is exhausted, or the last byte received on it is waiting in `data`. */
  ghost predicate Contributed(streams: Streams, pos: seq<nat>, data: seq<byte>, i: nat)
    requires Received(streams, pos) && i < |streams|
  {
    pos[i] == |streams[i]| || (pos[i] > 0 && streams[i][pos[i] - 1] in data)
  }

  // ---- receiving

  lemma ReadNext(streams: Streams, pos: seq<nat>, i: nat, b: byte)
    requires Received(streams, pos) && i < |streams| && pos[i] < |streams[i]|
    ensures Received(streams, pos[i := pos[i] + 1])
    ensures Read(streams, pos[i := pos[i] + 1], b) <==> Read(streams, pos, b) || b == streams[i][pos[i]]
  {
    var next := pos[i := pos[i] + 1];
    assert streams[i][..pos[i] + 1] == streams[i][..pos[i]] + [streams[i][pos[i]]];
    if Read(streams, pos, b) {
      var k :| 0 <= k < |streams| && b in streams[k][..pos[k]];
      assert b in streams[k][..next[k]];
    }
    if b == streams[i][pos[i]] { assert b in streams[i][..next[i]]; }
    if Read(streams, next, b) {
      var k :| 0 <= k < |streams| && b in streams[k][..next[k]];
      assert k != i ==> b in streams[k][..pos[k]];
    }
  }

  lemma UniqueSnoc(data: seq<byte>, b: byte)
    requires Unique(data) && b !in data
    ensures Unique(data + [b])
  {
    assert multiset(data + [b]) == multiset(data) + multiset{b};
    assert b !in multiset(data);
  }

  /** Receiving one byte keeps the invariant, whether it is new or not. */
  lemma ReceiveKeeps(streams: Streams, pos: seq<nat>, data: seq<byte>, seen: set<byte>, out: seq<byte>, i: nat)
    requires Merging(streams, pos, data, seen, out) && i < |streams| && pos[i] < |streams[i]|
    ensures var b, next := streams[i][pos[i]], pos[i := pos[i] + 1];
      && (b in seen ==> Merging(streams, next, data, seen, out))
      && (b !in seen ==> Merging(streams, next, data + [b], seen + {b}, out))
  {
    hide Read, Unique, Ascending;
    var b, next := streams[i][pos[i]], pos[i := pos[i] + 1];
    forall c: byte ensures Read(streams, next, c) <==> Read(streams, pos, c) || c == b {
      ReadNext(streams, pos, i, c);
    }
    assert Ahead(streams[i], pos[i], out);
    if b !in seen {
      UniqueSnoc(data, b);
    }
  }

  /**
    What receiving on channel `i` comes to: everything up to the new position was known
    already, but for the last byte, which is now waiting; or all of it, and the channel ended.
   */
  ghost predicate Filled(s: seq<byte>, at0: nat, at: nat, data0: seq<byte>, data: seq<byte>,
                         seen0: set<byte>, seen: set<byte>)
  {
    && at0 <= at <= |s|
    && if data == data0 then at == |s| && seen == seen0 && forall k :: at0 <= k < at ==> s[k] in seen0
       else at0 < at && s[at - 1] !in seen0 && data == data0 + [s[at - 1]] && seen == seen0 + {s[at - 1]}
            && forall k :: at0 <= k < at - 1 ==> s[k] in seen0
  }

  /** The inner loop: receive on channel `i` until a new byte comes, or the end. */
  method Fill(streams: Streams, pos0: seq<nat>, data0: seq<byte>, seen0: set<byte>, ghost out: seq<byte>, i: nat)
    returns (pos: seq<nat>, data: seq<byte>, seen: set<byte>)
    requires Merging(streams, pos0, data0, seen0, out) && i < |streams|
    ensures Merging(streams, pos, data, seen, out) && Contributed(streams, pos, data, i)
    ensures Received(streams, pos0) && Filled(streams[i], pos0[i], pos[i], data0, data, seen0, seen)
    ensures forall k :: 0 <= k < |streams| && k != i ==> pos[k] == pos0[k]
  {
    hide Merging;
    pos, data, seen := pos0, data0, seen0;
    MergingReceived(streams, pos, data, seen, out);
    while pos[i] < |streams[i]|
      invariant Merging(streams, pos, data, seen, out) && Received(streams, pos) && data == data0
      invariant forall k :: 0 <= k < |streams| && k != i ==> pos[k] == pos0[k]
      invariant pos0[i] <= pos[i] && seen == seen0 && forall k :: pos0[i] <= k < pos[i] ==> streams[i][k] in seen0
      decreases |streams[i]| - pos[i]
    {
      ReceiveKeeps(streams, pos, data, seen, out, i);
      var b := streams[i][pos[i]];
      pos := pos[i := pos[i] + 1];
      if b !in seen {
        data := data + [b];
        seen := seen + {b};
        MergingReceived(streams, pos, data, seen, out);
        return;
      }
      MergingReceived(streams, pos, data, seen, out);
    }
  }

  lemma MergingReceived(streams: Streams, pos: seq<nat>, data: seq<byte>, seen: set<byte>, out: seq<byte>)
    requires Merging(streams, pos, data, seen, out)
    ensures Received(streams, pos)
  {
  }

  // ---- emitting

  ghost predicate Descending(s: seq<byte>) {
    forall i, j :: 0 <= i < j < |s| ==> s[i] >= s[j]
  }

  /** `sort.Sort(byteSliceReverse(data))`. */
  method SortDescending(a: seq<byte>) returns (b: seq<byte>)
    ensures Descending(b) && multiset(b) == multiset(a)
  {
    b := [];
    for i := 0 to |a|
      invariant Descending(b) && multiset(b) == multiset(a[..i])
    {
      assert a[..i + 1] == a[..i] + [a[i]];
      b := InsertDescending(b, a[i]);
    }
    assert a[..|a|] == a;
  }

  method InsertDescending(s: seq<byte>, b: byte) returns (t: seq<byte>)
    requires Descending(s)
    ensures Descending(t) && multiset(t) == multiset(s) + multiset{b}
  {
    hide Descending;
    var i := |s|;
    while i > 0 && s[i - 1] < b
      invariant 0 <= i <= |s| && forall k :: i <= k < |s| ==> s[k] < b
    {
      i := i - 1;
    }
    InsertedDescending(s, i, b);
    assert s == s[..i] + s[i..];
    t := s[..i] + [b] + s[i..];
  }

  lemma InsertedDescending(s: seq<byte>, i: nat, b: byte)
    requires Descending(s) && i <= |s|
    requires (forall k :: i <= k < |s| ==> s[k] < b) && (i > 0 ==> s[i - 1] >= b)
    ensures Descending(s[..i] + [b] + s[i..])
  {
    var t := s[..i] + [b] + s[i..];
    assert forall k :: 0 <= k < |t| ==> t[k] == if k < i then s[k] else if k == i then b else s[k - 1];
  }

  /** The last byte of the sorted data is smaller than every other and than all still to come. */
  lemma EmitKeeps(streams: Streams, pos: seq<nat>, data: seq<byte>, sorted: seq<byte>, seen: set<byte>, out: seq<byte>)
    requires Merging(streams, pos, data, seen, out) && data != []
    requires multiset(sorted) == multiset(data) && Descending(sorted) && |sorted| == |data|
    requires forall i :: 0 <= i < |streams| ==> Contributed(streams, pos, data, i)
    ensures var m, rest := sorted[|sorted| - 1], sorted[..|sorted| - 1];
      Merging(streams, pos, rest, seen, out + [m])
  {
    hide Read;
    var m, rest := sorted[|sorted| - 1], sorted[..|sorted| - 1];
    assert sorted == rest + [m];
    SameData(data, sorted);
    RestUnique(rest, m);
    forall d | d in rest ensures m < d { SmallestLast(rest, m, d); }
    assert m in sorted && m in data;
    AscendingSnoc(out, m);
    forall i | 0 <= i < |streams| ensures Ahead(streams[i], pos[i], out + [m]) {
      AheadEmit(streams, pos, data, sorted, out, i);
    }
  }

  lemma SameData(data: seq<byte>, sorted: seq<byte>)
    requires multiset(sorted) == multiset(data)
    ensures forall b :: b in sorted <==> b in data
    ensures Unique(data) ==> Unique(sorted)
  {
    assert forall b :: b in sorted <==> b in multiset(sorted);
    assert forall b :: b in data <==> b in multiset(data);
  }

  lemma RestUnique(rest: seq<byte>, m: byte)
    requires Unique(rest + [m])
    ensures Unique(rest) && m !in rest
  {
    var all := rest + [m];
    assert multiset(all) == multiset(rest) + multiset{m};
    forall b | b in rest ensures multiset(rest)[b] == 1 && b != m {
      assert b in all && b in multiset(rest);
      assert m in all;
    }
  }

  lemma SmallestLast(rest: seq<byte>, m: byte, d: byte)
    requires Descending(rest + [m]) && d in rest && m !in rest
    ensures m < d
  {
    var k :| 0 <= k < |rest| && rest[k] == d;
    assert (rest + [m])[k] >= (rest + [m])[|rest|];
  }

  lemma AheadEmit(streams: Streams, pos: seq<nat>, data: seq<byte>, sorted: seq<byte>, out: seq<byte>, i: nat)
    requires Received(streams, pos) && AllAscending(streams) && i < |streams| && sorted != []
    requires Descending(sorted) && forall b :: b in data ==> b in sorted
    requires Contributed(streams, pos, data, i) && Ahead(streams[i], pos[i], out)
    ensures Ahead(streams[i], pos[i], out + [sorted[|sorted| - 1]])
  {
    var m, s := sorted[|sorted| - 1], streams[i];
    if pos[i] < |s| {
      var last := s[pos[i] - 1];
      var k :| 0 <= k < |sorted| && sorted[k] == last;
      assert m <= last;
      assert Ascending(s);
      forall j | pos[i] <= j < |s| ensures m < s[j] { assert s[pos[i] - 1] < s[j]; }
    }
  }

  // ---- the merge

  /** One round: receive on every channel in turn. */
  method FillAll(streams: Streams, pos0: seq<nat>, data0: seq<byte>, seen0: set<byte>, ghost out: seq<byte>)
    returns (pos: seq<nat>, data: seq<byte>, seen: set<byte>)
    requires Merging(streams, pos0, data0, seen0, out)
    ensures Merging(streams, pos, data, seen, out) && Received(streams, pos)
    ensures forall i :: 0 <= i < |streams| ==> Contributed(streams, pos, data, i)
  {
    hide Merging;
    pos, data, seen := pos0, data0, seen0;
    MergingReceived(streams, pos, data, seen, out);
    for i := 0 to |streams|
      invariant Merging(streams, pos, data, seen, out) && Received(streams, pos)
      invariant forall k :: 0 <= k < i ==> Contributed(streams, pos, data, k)
    {
      ghost var pos1, data1 := pos, data;
      pos, data, seen := Fill(streams, pos, data, seen, out, i);
      MergingReceived(streams, pos, data, seen, out);
      forall k | 0 <= k < i ensures Contributed(streams, pos, data, k) {
        assert Contributed(streams, pos1, data1, k);
      }
    }
  }

  lemma MergeStart(streams: Streams)
    requires AllAscending(streams)
    ensures Merging(streams, seq(|streams|, _ => 0), [], {}, [])
  {
    var pos := seq(|streams|, _ => 0);
    forall b: byte ensures !Read(streams, pos, b) {
      assert forall i :: 0 <= i < |streams| ==> streams[i][..pos[i]] == [];
    }
  }

  lemma MergeEnd(streams: Streams, pos: seq<nat>, seen: set<byte>, out: seq<byte>)
    requires Merging(streams, pos, [], seen, out)
    requires forall i :: 0 <= i < |streams| ==> Contributed(streams, pos, [], i)
    ensures Ascending(out) && forall b: byte :: b in out <==> Sent(streams, b)
  {
    forall i | 0 <= i < |streams| ensures pos[i] == |streams[i]| {
      assert Contributed(streams, pos, [], i);
    }
    assert forall i :: 0 <= i < |streams| ==> streams[i][..pos[i]] == streams[i];
    forall b: byte ensures Read(streams, pos, b) <==> Sent(streams, b) {
      if Sent(streams, b) {
        var i :| 0 <= i < |streams| && b in streams[i];
        assert b in streams[i][..pos[i]];
      }
    }
  }

  /**
    `forEachUnion`: given members enumerated in ascending order, it ends, having emitted
    exactly the bytes some member has, each once, in strictly ascending order.
   */
  method ForEachUnion(streams: Streams) returns (out: seq<byte>)
    requires AllAscending(streams)
    ensures Ascending(out)
    ensures forall b: byte :: b in out <==> Sent(streams, b)
  {
    hide Merging, Unique, Descending, Ascending;
    out := [];
    if |streams| == 0 {
      NothingSent(streams);
      return;
    }
    var pos: seq<nat>, data: seq<byte>, seen: set<byte> := seq(|streams|, _ => 0), [], {};
    MergeStart(streams);
    while true
      invariant Merging(streams, pos, data, seen, out) && |out| <= 256
      decreases 256 - |out|
    {
      pos, data, seen := FillAll(streams, pos, data, seen, out);
      if |data| == 0 {
        break;
      }
      var sorted := SortDescending(data);
      assert |sorted| == |multiset(sorted)| == |data|;
      EmitKeeps(streams, pos, data, sorted, seen, out);
      var i := |sorted| - 1;
      out := out + [sorted[i]];
      data := sorted[..i];
      EmittedFew(streams, pos, data, seen, out);
    }
    MergeEnd(streams, pos, seen, out);
  }

  lemma NothingSent(streams: Streams)
    requires streams == []
    ensures Ascending([]) && forall b: byte :: !Sent(streams, b)
  {
  }

  lemma EmittedFew(streams: Streams, pos: seq<nat>, data: seq<byte>, seen: set<byte>, out: seq<byte>)
    requires Merging(streams, pos, data, seen, out)
    ensures |out| <= 256
  {
    CountLimits(out);
  }
}
