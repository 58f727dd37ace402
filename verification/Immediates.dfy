/**
  Immediate operands: their descriptions, their minimal little-endian encoding, and the
  decoder that reads them back (`peggyvm/opcode.go`).
 */
module Immediates {
  import opened Words

  datatype Error =
    | UnexpectedEOF | UnknownOpcode | BadImmediateLen | MissingImmediate | UnexpectedImmediate
    | ExecutionHalted | EmptyStack | CallRetFrame | ChoiceFailFrame | IndexRange | CountRange

  datatype ImmType =
    | ImmNone | ImmUint | ImmSint | ImmByte | ImmRune | ImmCount
    | ImmCodeOffset | ImmLiteralIdx | ImmMatcherIdx | ImmCaptureIdx

  predicate Signed(t: ImmType) {
    t.ImmSint? || t.ImmCodeOffset?
  }

  datatype ImmMeta = ImmMeta(typ: ImmType, required: bool, packedDefault: byte)

  /** The default, unpacked: a signed slot sign-extends its packed byte. */
  function Default(m: ImmMeta): (r: u64) {
    if Signed(m.typ) && m.packedDefault >= 0x80
    then m.packedDefault + (TWO64 - 0x100)
    else m.packedDefault
  }

  predicate IsPresent(m: ImmMeta, v: u64) {
    !m.typ.ImmNone? && (m.required || Default(m) != v)
  }

  // ---- little-endian numbers

  function Pow256(n: nat): (r: nat)
    ensures r >= 1
  {
    if n == 0 then 1 else 256 * Pow256(n - 1)
  }

  /** `b` shifted up `i` bytes. */
  function ShlBytes(b: nat, i: nat): (r: nat) {
    if i == 0 then b else 256 * ShlBytes(b, i - 1)
  }

  /** The number a little-endian byte string stands for. */
  function LittleEndian(s: seq<byte>): (r: nat) {
    if s == [] then 0 else s[0] + 256 * LittleEndian(s[1..])
  }

  function Digits(v: nat, n: nat): (s: seq<byte>)
    ensures |s| == n
  {
    if n == 0 then [] else [v % 256] + Digits(v / 256, n - 1)
  }

  lemma {:induction false} ShiftsAgree(b: nat, i: nat)
    ensures ShlBytes(b, i) == Shl(b, 8 * i)
    ensures Pow256(i) == Pow2(8 * i)
  {
    if i > 0 {
      ShiftsAgree(b, i - 1);
      ShlByte(b, 8 * (i - 1));
      ShlByte(1, 8 * (i - 1));
      Pow2IsShl(8 * i);
      Pow2IsShl(8 * (i - 1));
    }
  }

  lemma {:induction false} Pow2IsShl(k: nat)
    ensures Pow2(k) == Shl(1, k)
  {
    if k > 0 { Pow2IsShl(k - 1); }
  }

  lemma Pow256Values()
    ensures Pow256(1) == 0x100 && Pow256(2) == 0x1_0000 && Pow256(4) == 0x1_0000_0000
    ensures Pow256(8) == TWO64 == Pow2(64)
  {
    assert Pow256(3) == 0x100_0000;
    assert Pow256(4) == 0x1_0000_0000;
    assert Pow256(6) == 0x1_0000_0000_0000;
    ShiftsAgree(0, 8);
  }

  lemma {:induction false} LittleEndianBelow(s: seq<byte>)
    ensures LittleEndian(s) < Pow256(|s|)
  {
    if s != [] { LittleEndianBelow(s[1..]); }
  }

  lemma {:induction false} LittleEndianSnoc(s: seq<byte>, b: byte)
    ensures LittleEndian(s + [b]) == LittleEndian(s) + ShlBytes(b, |s|)
  {
    if s == [] {
      assert s + [b] == [b];
      assert LittleEndian([b]) == b + 256 * LittleEndian([]);
    } else {
      LittleEndianSnoc(s[1..], b);
      assert (s + [b])[1..] == s[1..] + [b];
    }
  }

  /** A shifted byte, against the power it is a multiple of. */
  lemma {:induction false} ShlBytesBounds(b: nat, i: nat)
    ensures b < 256 ==> ShlBytes(b, i) <= 255 * Pow256(i)
    ensures b >= 0x80 ==> ShlBytes(b, i) >= 0x80 * Pow256(i)
    ensures b < 0x80 ==> ShlBytes(b, i) <= 0x7f * Pow256(i)
  {
    if i > 0 { ShlBytesBounds(b, i - 1); }
  }

  /** The last byte's high bit says which half of the range the number lies in. */
  lemma TopBit(s: seq<byte>)
    requires s != []
    ensures s[|s| - 1] >= 0x80 <==> 2 * LittleEndian(s) >= Pow256(|s|)
  {
    var t, b := s[..|s| - 1], s[|s| - 1];
    assert s == t + [b];
    LittleEndianSnoc(t, b);
    LittleEndianBelow(t);
    ShlBytesBounds(b, |t|);
  }

  /** The digits of a number that has no more than `n` of them stand for it. */
  lemma {:induction false} DigitsValue(v: nat, n: nat)
    requires v < Pow256(n)
    ensures LittleEndian(Digits(v, n)) == v
  {
    if n > 0 {
      DigitsValue(v / 256, n - 1);
      assert Digits(v, n)[1..] == Digits(v / 256, n - 1);
    }
  }

  /** Digits of a number short of `256^n` by less than `256^k`: all ones above the lowest `k`. */
  lemma {:induction false} LowDigits(v: nat, n: nat, k: nat)
    requires k <= n && Pow256(n) - Pow256(k) <= v < Pow256(n)
    ensures LittleEndian(Digits(v, k)) == v - (Pow256(n) - Pow256(k))
  {
    if k > 0 {
      LowDigits(v / 256, n - 1, k - 1);
      assert Digits(v, k)[1..] == Digits(v / 256, k - 1);
    }
  }

  lemma {:induction false} DigitsPrefix(v: nat, n: nat, k: nat)
    requires k <= n
    ensures Digits(v, n)[..k] == Digits(v, k)
  {
    if k > 0 {
      DigitsPrefix(v / 256, n - 1, k - 1);
      assert Digits(v, n)[..k] == [v % 256] + Digits(v / 256, n - 1)[..k - 1];
    }
  }

  // ---- encoding

  /** The eight bytes of a `uint64`, least significant first. */
  function Raw(v: u64): (s: seq<byte>)
    ensures |s| == 8
  {
    Digits(v, 8)
  }

  /** The width the encoder picks: 1, 2, 4 or 8, found by looking at the raw bytes. */
  function EncodedWidth(signed: bool, v: u64): (n: nat) {
    var raw := Raw(v);
    var x: byte := if signed && v >= HIGHBIT then 0xff else 0x00;
    if raw[7] == x && raw[6] == x && raw[5] == x && raw[4] == x && SignAgrees(signed, v, raw[3]) then
      if raw[3] == x && raw[2] == x && SignAgrees(signed, v, raw[1]) then
        if raw[1] == x && SignAgrees(signed, v, raw[0]) then 1 else 2
      else 4
    else 8
  }

  predicate SignAgrees(signed: bool, v: u64, b: byte) {
    signed ==> (b >= 0x80 <==> v >= HIGHBIT)
  }

  function EncodeImm(m: ImmMeta, v: u64): (s: seq<byte>) {
    if IsPresent(m, v) then Raw(v)[..EncodedWidth(Signed(m.typ), v)] else []
  }

  /** `n` bytes can hold `v`: as an unsigned number, or in two's complement. */
  predicate Fits(signed: bool, v: u64, n: nat) {
    if signed then 0 <= 2 * U2S(v) + Pow256(n) < 2 * Pow256(n) else v < Pow256(n)
  }

  function Word16(lo: byte, hi: byte): (r: int)
    ensures 0 <= r < 0x1_0000
    ensures r == 0 <==> lo == 0 && hi == 0
    ensures r == 0xffff <==> lo == 0xff && hi == 0xff
    ensures r >= 0x8000 <==> hi >= 0x80
    ensures r < 0x100 <==> hi == 0
    ensures r < 0x80 <==> hi == 0 && lo < 0x80
    ensures r >= 0xff80 <==> hi == 0xff && lo >= 0x80
  {
    var h: int := hi;
    lo + 0x100 * h
  }

  lemma DigitOne(v: nat, n: nat)
    ensures Digits(v, n + 1) == [v % 0x100] + Digits(v / 0x100, n)
  {
  }

  /** The lowest two digits of a number, and what is left of it. */
  lemma DigitPair(v: nat, n: nat) returns (lo: byte, hi: byte, rest: nat)
    ensures Digits(v, n + 2) == [lo, hi] + Digits(rest, n)
    ensures v == Word16(lo, hi) + 0x1_0000 * rest
  {
    hide Digits;
    DigitOne(v, n + 1);
    DigitOne(v / 0x100, n);
    lo, hi, rest := v % 0x100, v / 0x100 % 0x100, v / 0x100 / 0x100;
    assert v == lo + 0x100 * (v / 0x100);
    assert v / 0x100 == hi + 0x100 * rest;
  }

  /** A number is the weighted sum of its bytes. */
  lemma RawSum(v: u64)
    ensures var r := Raw(v);
      v == Word16(r[0], r[1]) + 0x1_0000 * Word16(r[2], r[3])
         + 0x1_0000_0000 * (Word16(r[4], r[5]) + 0x1_0000 * Word16(r[6], r[7]))
  {
    hide Digits, Word16;
    var b0, b1, a := DigitPair(v, 6);
    var b2, b3, b := DigitPair(a, 4);
    var b4, b5, c := DigitPair(b, 2);
    var b6, b7, d := DigitPair(c, 0);
    assert Raw(v)[..2] == [b0, b1] && Raw(v)[2..4] == [b2, b3];
    assert Raw(v)[4..6] == [b4, b5] && Raw(v)[6..8] == [b6, b7];
  }

  function SignedWidth(s: int): (n: nat) {
    if -0x80 <= s < 0x80 then 1
    else if -0x8000 <= s < 0x8000 then 2
    else if -0x8000_0000 <= s < 0x8000_0000 then 4 else 8
  }

  function UnsignedWidth(v: int): (n: nat) {
    if v < 0x100 then 1 else if v < 0x1_0000 then 2 else if v < 0x1_0000_0000 then 4 else 8
  }

  /** What the byte tests of the encoder come to, as thresholds on the value. */
  lemma WidthThresholds(signed: bool, v: u64)
    ensures EncodedWidth(signed, v) == if signed then SignedWidth(U2S(v)) else UnsignedWidth(v)
  {
    hide EncodedWidth, U2S;
    U2SValue(v);
    if signed && v >= HIGHBIT {
      WidthBelowZero(v);
    } else {
      WidthFromZero(signed, v);
    }
  }

  lemma WidthFromZero(signed: bool, v: u64)
    requires !signed || v < HIGHBIT
    ensures EncodedWidth(signed, v) == if signed then SignedWidth(v) else UnsignedWidth(v)
  {
    hide Word16, Raw;
    RawSum(v);
    var r := Raw(v);
    WordThresholds(v, Word16(r[0], r[1]), Word16(r[2], r[3]), Word16(r[4], r[5]), Word16(r[6], r[7]));
  }

  lemma WidthBelowZero(v: u64)
    requires v >= HIGHBIT
    ensures EncodedWidth(true, v) == SignedWidth(v - TWO64)
  {
    hide Word16, Raw;
    RawSum(v);
    var r := Raw(v);
    WordThresholds(v, Word16(r[0], r[1]), Word16(r[2], r[3]), Word16(r[4], r[5]), Word16(r[6], r[7]));
  }

  /** The same thresholds, read off the four 16-bit words of the value. */
  lemma WordThresholds(v: u64, a: int, b: int, c: int, d: int)
    requires 0 <= a < 0x1_0000 && 0 <= b < 0x1_0000 && 0 <= c < 0x1_0000 && 0 <= d < 0x1_0000
    requires v == a + 0x1_0000 * b + 0x1_0000_0000 * (c + 0x1_0000 * d)
    ensures v >= HIGHBIT <==> d >= 0x8000
    ensures v < 0x1_0000_0000 <==> c == 0 && d == 0
    ensures v < 0x1_0000 <==> b == 0 && c == 0 && d == 0
    ensures v < 0x8000_0000 <==> b < 0x8000 && c == 0 && d == 0
    ensures v >= TWO64 - 0x8000_0000 <==> b >= 0x8000 && c == 0xffff && d == 0xffff
    ensures v >= TWO64 - 0x1_0000 <==> b == 0xffff && c == 0xffff && d == 0xffff
    ensures b == 0 && c == 0 && d == 0 ==> v == a
    ensures b == 0xffff && c == 0xffff && d == 0xffff ==> v == TWO64 - 0x1_0000 + a
  {
  }

  /** The width chosen holds the value and no smaller permitted width does. */
  lemma WidthCorrectAndMinimal(signed: bool, v: u64)
    ensures var w := EncodedWidth(signed, v);
      w in {1, 2, 4, 8} && forall n :: n in {1, 2, 4, 8} ==> (Fits(signed, v, n) <==> w <= n)
  {
    hide EncodedWidth, U2S, Pow256;
    WidthThresholds(signed, v);
    Pow256Values();
  }

  /** For a fixed sign, a value closer to zero never needs a wider form. */
  lemma WidthMonotone(a: i64, b: i64)
    requires 0 <= a <= b || b <= a < 0
    ensures EncodedWidth(true, S2U(a)) <= EncodedWidth(true, S2U(b))
  {
    SignedConversionsInverse(a, 0);
    SignedConversionsInverse(b, 0);
    WidthThresholds(true, S2U(a));
    WidthThresholds(true, S2U(b));
  }

  // ---- decoding

  datatype ImmResult = ImmResult(value: u64, err: Option<Error>)

  /** The number a present immediate stands for: zero- or sign-extended to 64 bits. */
  function Extend(signed: bool, data: seq<byte>): (r: u64) {
    LittleEndianBelow(data);
    if signed && 0 < |data| < 8 && data[|data| - 1] >= 0x80 then
      Pow256LessThan(|data|);
      LittleEndian(data) + (TWO64 - Pow256(|data|))
    else
      LittleEndian(data) % TWO64
  }

  lemma Pow256LessThan(n: nat)
    requires n <= 8
    ensures Pow256(n) <= TWO64
    decreases 8 - n
  {
    if n == 8 {
      Pow256Values();
    } else {
      Pow256LessThan(n + 1);
    }
  }

  /** What the decoder returns.  A present immediate is merged into the default with "or". */
  function DecodeImm(m: ImmMeta, data: seq<byte>): (r: ImmResult) {
    if data == [] then
      ImmResult(Default(m), if !m.typ.ImmNone? && m.required then Some(MissingImmediate) else None)
    else if m.typ.ImmNone? then
      ImmResult(Default(m), Some(UnexpectedImmediate))
    else
      ImmResult(Or64(Default(m), Extend(Signed(m.typ), data)), None)
  }

  function Or64(x: u64, y: u64): (r: u64)
    ensures r == BitOr(x, y)
  {
    Pow256Values();
    BitOrBelow(x, y, 64);
    BitOr(x, y)
  }

  /** Extension undoes the encoder, for either signedness and every 64-bit value. */
  lemma ExtendInvertsEncode(signed: bool, v: u64)
    ensures Extend(signed, Raw(v)[..EncodedWidth(signed, v)]) == v
  {
    var n := EncodedWidth(signed, v);
    WidthCorrectAndMinimal(signed, v);
    DigitsPrefix(v, 8, n);
    ExtendInvertsDigits(signed, v, n);
  }

  lemma ExtendInvertsDigits(signed: bool, v: u64, n: nat)
    requires n in {1, 2, 4, 8} && Fits(signed, v, n)
    ensures Extend(signed, Digits(v, n)) == v
  {
    hide Extend, U2S, LittleEndian, Pow256, Digits;
    var data := Digits(v, n);
    ExtendValue(signed, data);
    Pow256Values();
    U2SValue(v);
    TopBit(data);
    if signed && v >= HIGHBIT {
      LowDigits(v, 8, n);
    } else {
      DigitsValue(v, n);
    }
  }

  /** What a present immediate decodes to: the value merged with the slot's default. */
  lemma PresentImmediateDecodes(m: ImmMeta, v: u64)
    requires IsPresent(m, v)
    ensures DecodeImm(m, EncodeImm(m, v)) == ImmResult(Or64(Default(m), v), None)
  {
    WidthCorrectAndMinimal(Signed(m.typ), v);
    ExtendInvertsEncode(Signed(m.typ), v);
  }

  /**
    An immediate survives the round trip exactly when it has every bit of its default; an
    unused slot, exactly at its default.
   */
  lemma ImmediateRoundTrip(m: ImmMeta, v: u64)
    ensures DecodeImm(m, EncodeImm(m, v)).err == None
    ensures DecodeImm(m, EncodeImm(m, v)).value == v
            <==> if m.typ.ImmNone? then v == Default(m) else BitOr(Default(m), v) == v
  {
    if IsPresent(m, v) {
      PresentImmediateDecodes(m, v);
    } else {
      OrSelf(v);
    }
  }

  lemma {:induction false} OrSelf(v: nat)
    ensures BitOr(v, v) == v
  {
    if v != 0 {
      OrSelf(v / 2);
    }
  }

  /** With default 1 an explicit even count comes back one larger. */
  lemma EvenCountGainsOne(m: ImmMeta, v: u64)
    requires m.typ.ImmCount? && m.packedDefault == 1 && v != 1
    ensures DecodeImm(m, EncodeImm(m, v)).value == if v % 2 == 0 then v + 1 else v
  {
    PresentImmediateDecodes(m, v);
    OrWithOne(v);
  }

  lemma OrWithOne(v: u64)
    ensures BitOr(1, v) == if v % 2 == 0 then v + 1 else v
  {
    assert BitOr(0, v / 2) == v / 2;
  }

  /** An encoding that decodes is never made longer by encoding what it decoded to. */
  lemma ReencodingNoLonger(m: ImmMeta, data: seq<byte>)
    requires |data| in {0, 1, 2, 4, 8}
    requires DecodeImm(m, data).err == None
    ensures |EncodeImm(m, DecodeImm(m, data).value)| <= |data|
  {
    if data != [] {
      var signed, n := Signed(m.typ), |data|;
      var e, r := Extend(signed, data), DecodeImm(m, data).value;
      ExtendFits(signed, data);
      Pow256Values();
      U2SValue(Default(m));
      OrKeepsFit(signed, Default(m), e, n);
      WidthCorrectAndMinimal(signed, r);
    }
  }

  lemma ExtendFits(signed: bool, data: seq<byte>)
    requires |data| in {1, 2, 4, 8}
    ensures Fits(signed, Extend(signed, data), |data|)
  {
    hide Extend, U2S, LittleEndian, Pow256;
    ExtendValue(signed, data);
    Pow256Values();
    LittleEndianBelow(data);
    TopBit(data);
    U2SValue(Extend(signed, data));
  }

  lemma ExtendValue(signed: bool, data: seq<byte>)
    requires |data| in {1, 2, 4, 8}
    ensures Extend(signed, data)
         == LittleEndian(data) + if signed && data[|data| - 1] >= 0x80 then TWO64 - Pow256(|data|) else 0
  {
    hide LittleEndian, Pow256;
    Pow256Values();
    LittleEndianBelow(data);
    Fitted(LittleEndian(data));
  }

  function Halve(x: nat, k: nat): (r: nat) {
    if k == 0 then x else Halve(x / 2, k - 1)
  }

  lemma {:induction false} OrHalved(d: nat, e: nat, k: nat)
    requires d < Pow2(k)
    ensures Halve(BitOr(d, e), k) == Halve(e, k)
  {
    if k > 0 {
      BitOrHalves(d, e);
      OrHalved(d / 2, e / 2, k - 1);
    }
  }

  lemma HalveSeven(x: nat)
    ensures Halve(x, 7) == x / 0x80
  {
    hide Halve;
    var a := HalveOnce(x, 6);
    var b := HalveOnce(a, 5);
    var c := HalveOnce(b, 4);
    var d := HalveOnce(c, 3);
    var e := HalveOnce(d, 2);
    var f := HalveOnce(e, 1);
    var g := HalveOnce(f, 0);
    HalveNot(g);
    Quotient(x, g);
  }

  lemma HalveOnce(x: nat, k: nat) returns (q: nat)
    ensures 2 * q <= x <= 2 * q + 1 && Halve(x, k + 1) == Halve(q, k)
  {
    q := x / 2;
  }

  lemma HalveNot(x: nat)
    ensures Halve(x, 0) == x
  {
  }

  lemma Quotient(x: nat, q: nat)
    requires 0x80 * q <= x < 0x80 * q + 0x80
    ensures x / 0x80 == q
  {
  }

  /** Merging in a number below 0x80 only touches the low seven bits. */
  lemma OrLowBits(d: nat, e: nat)
    requires d < 0x80
    ensures BitOr(d, e) / 0x80 == e / 0x80
  {
    assert Pow2(7) == 0x80;
    OrHalved(d, e, 7);
    HalveSeven(e);
    HalveSeven(BitOr(d, e));
  }

  lemma OrLowByte(d: nat, e: nat)
    requires d < 0x100
    ensures BitOr(d, e) / 0x100 == e / 0x100
  {
    hide BitOr;
    BitOrHalves(d, e);
    OrLowBits(d / 2, e / 2);
    HalfThenSeven(e);
    HalfThenSeven(BitOr(d, e));
  }

  lemma HalfThenSeven(x: nat)
    ensures x / 2 / 0x80 == x / 0x100
  {
  }

  /** A number of one byte, sign-extended or not, merges into any encodable one without widening it. */
  lemma OrKeepsFit(signed: bool, d: u64, e: u64, n: nat)
    requires n in {1, 2, 4, 8} && Fits(signed, e, n) && Fits(signed, d, 1)
    ensures Fits(signed, Or64(d, e), n)
  {
    Pow256Values();
    U2SValue(d);
    U2SValue(Or64(d, e));
    if !signed {
      OrLowByte(d, e);
    } else if d < 0x80 {
      OrLowBits(d, e);
      SameBlockFits(signed, e, Or64(d, e), n);
    }
  }

  lemma SameBlockFits(signed: bool, e: u64, r: u64, n: nat)
    requires n in {1, 2, 4, 8} && Fits(signed, e, n) && e / 0x80 == r / 0x80
    ensures Fits(signed, r, n)
  {
    hide U2S, Pow256;
    Pow256Values();
    U2SValue(e);
    U2SValue(r);
  }

  // ---- the decoder's loops

  /** `uint64(b) << (8*i)`: bits shifted past the 64th are lost. */
  function ShiftedByte(b: byte, i: nat): (r: u64) {
    ToU64(ShlBytes(b, i))
  }

  lemma MergeLow(lo: nat, b: byte, i: nat)
    requires i < 8 && lo < Pow256(i)
    ensures lo + ShlBytes(b, i) < TWO64
    ensures BitOr(lo, ShlBytes(b, i)) == lo + ShlBytes(b, i)
  {
    ShiftsAgree(b, i);
    BitOrDisjoint(lo, b, 8 * i);
    ShlBytesBounds(b, i);
    Pow256LessThan(i + 1);
    assert Pow256(i + 1) == 256 * Pow256(i);
  }

  lemma {:induction false} ShiftedOut(b: nat, i: nat) returns (q: nat)
    requires i >= 8
    ensures ShlBytes(b, i) == TWO64 * q
  {
    if i == 8 {
      assert ShlBytes(b, 1) == 0x100 * b;
      assert ShlBytes(b, 2) == 0x100 * ShlBytes(b, 1);
      assert ShlBytes(b, 4) == 0x1_0000 * ShlBytes(b, 2);
      assert ShlBytes(b, 6) == 0x1_0000 * ShlBytes(b, 4);
      q := b;
    } else {
      var r := ShiftedOut(b, i - 1);
      q := 256 * r;
    }
  }

  lemma MergeByte(lo: nat, b: byte, i: nat)
    requires lo < Pow256(i)
    ensures BitOr(ToU64(lo), ShiftedByte(b, i)) == ToU64(lo + ShlBytes(b, i))
  {
    if i < 8 {
      MergeLow(lo, b, i);
      SmallUnchanged(lo);
      SmallUnchanged(ShlBytes(b, i));
      SmallUnchanged(lo + ShlBytes(b, i));
    } else {
      var q := ShiftedOut(b, i);
      MultipleVanishes(lo, q);
    }
  }

  lemma SmallUnchanged(x: int)
    ensures 0 <= x < TWO64 ==> ToU64(x) == x
  {
  }

  /** Merging the next byte, shifted into place, extends the number read so far. */
  lemma NextByte(data: seq<byte>, i: nat)
    requires i < |data|
    ensures BitOr(ToU64(LittleEndian(data[..i])), ShiftedByte(data[i], i))
         == ToU64(LittleEndian(data[..i + 1]))
  {
    var lo := LittleEndian(data[..i]);
    assert data[..i + 1] == data[..i] + [data[i]];
    LittleEndianSnoc(data[..i], data[i]);
    LittleEndianBelow(data[..i]);
    MergeByte(lo, data[i], i);
  }

  lemma MultipleVanishes(x: nat, q: nat)
    ensures ToU64(TWO64 * q) == 0 && ToU64(x + TWO64 * q) == ToU64(x)
  {
  }

  /** The number read, with ones in every byte from the end of the data up to the `i`-th. */
  ghost function SignFilled(data: seq<byte>, i: nat): (r: nat)
    requires |data| <= i
  {
    Pow256Increases(|data|, i);
    LittleEndian(data) + (Pow256(i) - Pow256(|data|))
  }

  /** One more byte of sign, merged in above what has been read. */
  lemma NextSignByte(data: seq<byte>, i: nat)
    requires |data| <= i < 8
    ensures BitOr(SignFilled(data, i), ShiftedByte(0xff, i)) == SignFilled(data, i + 1)
  {
    var lo := SignFilled(data, i);
    assert lo < Pow256(i) by { LittleEndianBelow(data); }
    MergeLow(lo, 0xff, i);
    SmallUnchanged(ShlBytes(0xff, i));
    AllOnes(i);
  }

  lemma {:induction false} AllOnes(i: nat)
    ensures ShlBytes(0xff, i) == Pow256(i + 1) - Pow256(i)
  {
    if i > 0 { AllOnes(i - 1); }
  }

  lemma Pow256Increases(a: nat, b: nat)
    requires a <= b
    ensures Pow256(a) <= Pow256(b)
    decreases b - a
  {
    if a < b { Pow256Increases(a + 1, b); }
  }

  /** The decoder's second loop: ones in every byte above the data. */
  method FillSign(data: seq<byte>, ghost d: u64, start: u64) returns (value: u64)
    requires |data| < 8 && start == BitOr(d, LittleEndian(data))
    ensures value == BitOr(d, SignFilled(data, 8))
  {
    value := start;
    var i := |data|;
    while i < 8
      invariant |data| <= i <= 8
      invariant value == BitOr(d, SignFilled(data, i))
    {
      NextSignByte(data, i);
      BitOrAssoc(d, SignFilled(data, i), ShiftedByte(0xff, i));
      value := Or64(value, ShiftedByte(0xff, i));
      i := i + 1;
    }
  }

  /** The decoder's first loop: the default, with byte after byte merged in. */
  method MergeBytes(data: seq<byte>, d: u64) returns (value: u64)
    ensures value == BitOr(d, ToU64(LittleEndian(data)))
  {
    value := d;
    for i := 0 to |data|
      invariant value == BitOr(d, ToU64(LittleEndian(data[..i])))
    {
      NextByte(data, i);
      BitOrAssoc(d, ToU64(LittleEndian(data[..i])), ShiftedByte(data[i], i));
      value := Or64(value, ShiftedByte(data[i], i));
    }
    assert data[..|data|] == data;
  }

  lemma SignedExtension(data: seq<byte>)
    requires 0 < |data| < 8 && data[|data| - 1] >= 0x80
    ensures ToU64(LittleEndian(data)) == LittleEndian(data)
    ensures Extend(true, data) == SignFilled(data, 8)
  {
    LittleEndianBelow(data);
    Pow256LessThan(|data|);
    Pow256Values();
  }

  /** The decoder as it runs: it merges byte after byte, then fills in the sign. */
  method ReadImm(m: ImmMeta, data: seq<byte>) returns (value: u64, err: Option<Error>)
    ensures ImmResult(value, err) == DecodeImm(m, data)
  {
    value := Default(m);
    err := None;
    if |data| == 0 {
      if !m.typ.ImmNone? && m.required {
        err := Some(MissingImmediate);
      }
      return;
    }
    if m.typ.ImmNone? {
      err := Some(UnexpectedImmediate);
      return;
    }
    value := MergeBytes(data, value);
    var b := data[|data| - 1];
    if Signed(m.typ) && b >= 0x80 && |data| < 8 {
      SignedExtension(data);
      value := FillSign(data, Default(m), value);
    }
  }
}
