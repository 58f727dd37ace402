/**
  Fixed-width integers and bit operations, written out over unbounded integers.

  The program computes with `byte`, `uint64` and `int64`.  Here each is a range of
  `int`, and every operation that can wrap says so.  Bitwise "or" is defined bit by bit
  so that what it does to a whole number can be proved by induction.
 */
module Words {
  type byte = x: int | 0 <= x < 0x100
  type u64 = x: int | 0 <= x < 0x1_0000_0000_0000_0000
  type i64 = x: int | -0x8000_0000_0000_0000 <= x < 0x8000_0000_0000_0000

  const TWO64: int := 0x1_0000_0000_0000_0000
  const HIGHBIT: int := 0x8000_0000_0000_0000
  const ALLBITS: int := 0xffff_ffff_ffff_ffff

  datatype Option<+T> = None | Some(value: T)

  /** Go's conversion to `uint64`, and its wrap-around. */
  function ToU64(x: int): (r: u64) {
    x % TWO64
  }

  /** Go's conversion of a `uint64` to `int64`. */
  function ToI64(x: u64): (r: i64) {
    if x < HIGHBIT then x else x - TWO64
  }

  /** Negation of an `int64`; the least value is its own negation. */
  function Negate(v: i64): (r: i64) {
    if v == -HIGHBIT then v else -v
  }

  /** Bitwise complement of a `uint64`. */
  function Complement(x: u64): (r: u64) {
    ALLBITS - x
  }

  /** `s2u`: two's complement image of a signed value. */
  function S2U(v: i64): (r: u64) {
    if v < 0 then Complement(ToU64(ToU64(Negate(v)) - 1)) else ToU64(v)
  }

  /** `u2s`: the signed value a two's complement image stands for. */
  function U2S(v: u64): (r: i64) {
    if v >= HIGHBIT then Negate(ToI64(ToU64(Complement(v) + 1))) else ToI64(v)
  }

  /** `addOffset`: `None` is the panic "code offset out of range". */
  function AddOffset(xp: u64, s: i64): (r: Option<u64>) {
    if s < 0 then
      if ToU64(Negate(s)) > xp then None else Some(xp - ToU64(Negate(s)))
    else
      if ToU64(s) > ALLBITS - xp then None else Some(xp + ToU64(s))
  }

  lemma Fitted(x: int)
    requires 0 <= x < TWO64
    ensures ToU64(x) == x
  {
  }

  lemma FittedBelow(x: int)
    requires -TWO64 <= x < 0
    ensures ToU64(x) == x + TWO64
  {
  }

  lemma S2UValue(v: i64)
    ensures S2U(v) == if v < 0 then v + TWO64 else v
  {
    hide ToU64;
    if v == -HIGHBIT {
      FittedBelow(v);
      Fitted(v + TWO64 - 1);
    } else if v < 0 {
      Fitted(-v);
      Fitted(-v - 1);
    } else {
      Fitted(v);
    }
  }

  lemma U2SValue(v: u64)
    ensures U2S(v) == if v >= HIGHBIT then v - TWO64 else v
  {
    hide ToU64;
    if v >= HIGHBIT {
      Fitted(Complement(v) + 1);
    }
  }

  /** The two conversions are inverse bijections, the least value included. */
  lemma SignedConversionsInverse(v: i64, u: u64)
    ensures U2S(S2U(v)) == v && S2U(U2S(u)) == u
    ensures S2U(v) == v % TWO64
    ensures (U2S(u) - u) % TWO64 == 0
  {
    hide S2U, U2S;
    S2UValue(v);
    U2SValue(S2U(v));
    U2SValue(u);
    S2UValue(U2S(u));
    SameResidue(v);
    assert U2S(u) - u == 0 || U2S(u) - u == -TWO64;
  }

  lemma SameResidue(v: i64)
    ensures v % TWO64 == if v < 0 then v + TWO64 else v
  {
    if v < 0 { FittedBelow(v); } else { Fitted(v); }
  }

  /** `addOffset` is exact whenever the sum is an address, and panics exactly when it is not. */
  lemma AddOffsetExact(xp: u64, s: i64)
    ensures AddOffset(xp, s) == if 0 <= xp + s < TWO64 then Some(xp + s) else None
  {
    if s < 0 {
      assert ToU64(Negate(s)) + s == 0;
    } else {
      assert ToU64(s) == s;
    }
  }

  function Pow2(k: nat): (r: nat)
    ensures r >= 1
  {
    if k == 0 then 1 else 2 * Pow2(k - 1)
  }

  /** Bit `k` of `x`. */
  predicate Bit(x: nat, k: nat)
    decreases k
  {
    if k == 0 then x % 2 == 1 else Bit(x / 2, k - 1)
  }

  /** Bitwise or. */
  function BitOr(x: nat, y: nat): (r: nat)
    ensures x <= r && y <= r
    decreases x + y
  {
    if x == 0 then y
    else if y == 0 then x
    else 2 * BitOr(x / 2, y / 2) + (if x % 2 == 1 || y % 2 == 1 then 1 else 0)
  }

  /** Bitwise and. */
  function BitAnd(x: nat, y: nat): (r: nat)
    ensures r <= x && r <= y
    decreases x + y
  {
    if x == 0 || y == 0 then 0
    else 2 * BitAnd(x / 2, y / 2) + (if x % 2 == 1 && y % 2 == 1 then 1 else 0)
  }

  lemma ZeroHasNoBit(k: nat)
    ensures !Bit(0, k)
    decreases k
  {
    if k > 0 { ZeroHasNoBit(k - 1); }
  }

  lemma {:induction false} BitOfOr(x: nat, y: nat, k: nat)
    ensures Bit(BitOr(x, y), k) == (Bit(x, k) || Bit(y, k))
    decreases k
  {
    if x == 0 || y == 0 {
      ZeroHasNoBit(k);
    } else if k > 0 {
      BitOfOr(x / 2, y / 2, k - 1);
    }
  }

  /** Or works on each half of the number separately. */
  lemma BitOrHalves(x: nat, y: nat)
    ensures BitOr(x, y) / 2 == BitOr(x / 2, y / 2)
    ensures BitOr(x, y) % 2 == if x % 2 == 1 || y % 2 == 1 then 1 else 0
  {
  }

  lemma {:induction false} BitOrAssoc(x: nat, y: nat, z: nat)
    ensures BitOr(BitOr(x, y), z) == BitOr(x, BitOr(y, z))
    decreases x + y + z
  {
    if x != 0 && y != 0 && z != 0 {
      var l, r := BitOr(BitOr(x, y), z), BitOr(x, BitOr(y, z));
      BitOrHalves(x, y);
      BitOrHalves(y, z);
      BitOrHalves(BitOr(x, y), z);
      BitOrHalves(x, BitOr(y, z));
      BitOrAssoc(x / 2, y / 2, z / 2);
      assert l / 2 == r / 2 && l % 2 == r % 2;
    }
  }

  lemma {:induction false} BitOrBelow(x: nat, y: nat, k: nat)
    requires x < Pow2(k) && y < Pow2(k)
    ensures BitOr(x, y) < Pow2(k)
    decreases k
  {
    if x != 0 && y != 0 {
      BitOrBelow(x / 2, y / 2, k - 1);
    }
  }

  /** Shift left by `k` bits, nothing lost. */
  function Shl(x: nat, k: nat): (r: nat) {
    if k == 0 then x else 2 * Shl(x, k - 1)
  }

  /** Or of two numbers that share no bit is their sum. */
  lemma {:induction false} BitOrDisjoint(lo: nat, hi: nat, k: nat)
    requires lo < Pow2(k)
    ensures BitOr(lo, Shl(hi, k)) == lo + Shl(hi, k)
    decreases k
  {
    if k > 0 {
      BitOrHalves(lo, Shl(hi, k));
      BitOrDisjoint(lo / 2, hi, k - 1);
    }
  }

  lemma ShlByte(x: nat, k: nat)
    ensures Shl(x, k + 8) == 256 * Shl(x, k)
  {
    assert Shl(x, k + 2) == 4 * Shl(x, k);
    assert Shl(x, k + 4) == 4 * Shl(x, k + 2);
    assert Shl(x, k + 6) == 4 * Shl(x, k + 4);
    assert Shl(x, k + 8) == 4 * Shl(x, k + 6);
  }
}
