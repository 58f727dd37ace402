/**
  The dense byte set: 256 bits in eight 32-bit words (`byteset/dense.go`).
 */
module Bitmaps {
  import opened Words

  type u32 = x: int | 0 <= x < 0x1_0000_0000

  type Bitmap = w: seq<u32> | |w| == 8 witness [0, 0, 0, 0, 0, 0, 0, 0]

  const EMPTY: Bitmap := [0, 0, 0, 0, 0, 0, 0, 0]

  /** Strictly ascending: in order, and each byte once. */
  ghost predicate Ascending(s: seq<byte>) {
    forall i, j :: 0 <= i < j < |s| ==> s[i] < s[j]
  }

  // ---- single bits

  function Mask(j: nat): (r: u32)
    requires j < 32
  {
    Pow2Below(j, 32);
    Pow2(j)
  }

  lemma WordSize()
    ensures Pow2(32) == 0x1_0000_0000
  {
    assert Pow2(8) == 0x100;
    assert Pow2(16) == 0x1_0000;
    assert Pow2(24) == 0x100_0000;
  }

  lemma {:induction false} Pow2Below(j: nat, k: nat)
    requires j < k <= 32
    ensures 2 * Pow2(j) <= Pow2(k) <= 0x1_0000_0000
  {
    WordSize();
    if j < k - 1 {
      Pow2Below(j, k - 1);
    }
    Pow2Grows(k, 32);
  }

  lemma {:induction false} Pow2Grows(a: nat, b: nat)
    requires a <= b
    ensures Pow2(a) <= Pow2(b)
    decreases b
  {
    if a < b { Pow2Grows(a, b - 1); }
  }

  lemma {:induction false} BitOfPow2(j: nat, k: nat)
    ensures Bit(Pow2(j), k) <==> j == k
    decreases k
  {
    if j == 0 {
      if k > 0 { ZeroHasNoBit(k - 1); }
    } else if k > 0 {
      assert Pow2(j) / 2 == Pow2(j - 1);
      BitOfPow2(j - 1, k - 1);
    }
  }

  /** Testing a word against a one-bit mask is testing the bit. */
  lemma {:induction false} MaskTest(w: nat, j: nat)
    ensures BitAnd(w, Pow2(j)) == (if Bit(w, j) then Pow2(j) else 0)
    decreases j
  {
    if w == 0 {
      ZeroHasNoBit(j);
    } else if j > 0 {
      assert Pow2(j) / 2 == Pow2(j - 1) && Pow2(j) % 2 == 0;
      MaskTest(w / 2, j - 1);
    } else {
      assert BitAnd(w / 2, 0) == 0;
    }
  }

  /** Complement within `n` bits flips each of them. */
  lemma {:induction false} ComplementBit(w: nat, n: nat, j: nat)
    requires w < Pow2(n) && j < n
    ensures Bit(Pow2(n) - 1 - w, j) <==> !Bit(w, j)
    decreases n
  {
    var c := Pow2(n) - 1 - w;
    assert c % 2 == 1 - w % 2 && c / 2 == Pow2(n - 1) - 1 - w / 2;
    if j > 0 {
      ComplementBit(w / 2, n - 1, j - 1);
    }
  }

  // ---- whole bitmaps

  /** `b` is in the set. */
  predicate Member(m: Bitmap, b: byte) {
    Bit(m[b / 32], b % 32)
  }

  /** `denseIM`, and the test `Match` makes with it. */
  function Match(m: Bitmap, b: byte): (r: bool)
    ensures r <==> Member(m, b)
  {
    var index, mask := b / 32, Mask(b % 32);
    MaskTest(m[index], b % 32);
    BitAnd(m[index], mask) == mask
  }

  /** `m.Set[index] |= mask`. */
  function Add(m: Bitmap, b: byte): (r: Bitmap)
    ensures forall c: byte :: Member(r, c) <==> c == b || Member(m, c)
  {
    AddMembers(m, b);
    Added(m, b)
  }

  function Added(m: Bitmap, b: byte): (r: Bitmap) {
    OrWord(m[b / 32], Mask(b % 32));
    m[b / 32 := BitOr(m[b / 32], Mask(b % 32))]
  }

  lemma OrWord(x: u32, y: u32)
    ensures BitOr(x, y) < 0x1_0000_0000
  {
    WordSize();
    BitOrBelow(x, y, 32);
  }

  lemma AddMembers(m: Bitmap, b: byte)
    ensures forall c: byte :: Member(Added(m, b), c) <==> c == b || Member(m, c)
  {
    forall c: byte ensures Member(Added(m, b), c) <==> c == b || Member(m, c) {
      BitOfOr(m[b / 32], Mask(b % 32), c % 32);
      BitOfPow2(b % 32, c % 32);
      assert c == 32 * (c / 32) + c % 32 && b == 32 * (b / 32) + b % 32;
    }
  }

  lemma EmptyHasNone()
    ensures forall b: byte :: !Member(EMPTY, b)
  {
    forall b: byte ensures !Member(EMPTY, b) { ZeroHasNoBit(b % 32); }
  }

  /** `DenseSet`. */
  method DenseSet(given: seq<byte>) returns (m: Bitmap)
    ensures forall b: byte :: Member(m, b) <==> b in given
  {
    hide Member;
    m := EMPTY;
    EmptyHasNone();
    for i := 0 to |given|
      invariant forall b: byte :: Member(m, b) <==> b in given[..i]
    {
      assert given[..i + 1] == given[..i] + [given[i]];
      if !Match(m, given[i]) {
        m := Add(m, given[i]);
      }
    }
    assert given[..|given|] == given;
  }

  /** `ForEach`: word by word, bit by bit. */
  method ForEach(m: Bitmap) returns (out: seq<byte>)
    ensures Ascending(out)
    ensures forall b: byte :: b in out <==> Member(m, b)
  {
    hide Member;
    out := [];
    for i := 0 to 8
      invariant Ascending(out)
      invariant forall b: byte :: b in out <==> Member(m, b) && b < 32 * i
    {
      for j := 0 to 32
        invariant Ascending(out)
        invariant forall b: byte :: b in out <==> Member(m, b) && b < 32 * i + j
      {
        var b: byte := 32 * i + j;
        BytePosition(i, j);
        BitIsMember(m, b);
        MaskTest(m[i], j);
        if BitAnd(m[i], Mask(j)) == Mask(j) {
          AscendingSnoc(out, b);
          out := out + [b];
        }
      }
    }
  }

  lemma BytePosition(i: int, j: int)
    requires 0 <= i < 8 && 0 <= j < 32
    ensures (32 * i + j) / 32 == i && (32 * i + j) % 32 == j
  {
  }

  lemma BitIsMember(m: Bitmap, b: byte)
    ensures Member(m, b) <==> Bit(m[b / 32], b % 32)
  {
  }

  lemma AscendingSnoc(s: seq<byte>, b: byte)
    requires Ascending(s) && forall c :: c in s ==> c < b
    ensures Ascending(s + [b])
  {
    assert forall i :: 0 <= i < |s| ==> s[i] in s;
  }

  /** The bitmap of all bytes not in `m`. */
  method Invert(m: Bitmap) returns (r: Bitmap)
    ensures forall b: byte :: Member(r, b) <==> !Member(m, b)
  {
    r := EMPTY;
    for i := 0 to 8
      invariant forall k :: 0 <= k < i ==> r[k] == 0xffff_ffff - m[k]
    {
      r := r[i := 0xffff_ffff - m[i]];
    }
    Inverted(m, r);
  }

  lemma Inverted(m: Bitmap, r: Bitmap)
    requires forall k :: 0 <= k < 8 ==> r[k] == 0xffff_ffff - m[k]
    ensures forall b: byte :: Member(r, b) <==> !Member(m, b)
  {
    forall b: byte ensures Member(r, b) <==> !Member(m, b) {
      WordSize();
      ComplementBit(m[b / 32], 32, b % 32);
    }
  }

  // ---- counting

  /** A strictly ascending list of bytes is at most as long as its last element allows. */
  lemma {:induction false} AscendingAt(s: seq<byte>, i: nat)
    requires Ascending(s) && i < |s|
    ensures i <= s[i]
    decreases i
  {
    if i > 0 { AscendingAt(s, i - 1); }
  }

  lemma {:induction false} AscendingFromEnd(s: seq<byte>, i: nat)
    requires Ascending(s) && i < |s|
    ensures s[i] + (|s| - 1 - i) <= 0xff
    decreases |s| - i
  {
    if i + 1 < |s| { AscendingFromEnd(s, i + 1); }
  }

  /** Where every byte is listed, each has all smaller ones before it. */
  lemma {:induction false} ListedFrom(s: seq<byte>, b: byte, i: nat)
    requires Ascending(s) && (forall c: byte :: c in s) && i < |s| && s[i] == b
    ensures i >= b
    decreases b
  {
    if b > 0 {
      var c: byte := b - 1;
      assert c in s;
      var j :| 0 <= j < |s| && s[j] == c;
      ListedFrom(s, c, j);
      assert j < i;
    }
  }

  /** At most 256 bytes, and 256 exactly when every byte is there. */
  lemma CountLimits(s: seq<byte>)
    requires Ascending(s)
    ensures |s| <= 256
    ensures |s| == 256 <==> forall b: byte :: b in s
  {
    if |s| > 0 {
      AscendingAt(s, |s| - 1);
      if |s| == 256 {
        forall b: byte ensures b in s {
          AscendingAt(s, b);
          AscendingFromEnd(s, b);
          assert s[b] == b;
        }
      }
    }
    if forall b: byte :: b in s {
      var last: byte := 255;
      assert last in s;
      var i :| 0 <= i < |s| && s[i] == last;
      ListedFrom(s, last, i);
    }
  }
}
