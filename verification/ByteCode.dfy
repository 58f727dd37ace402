/**
  The bytecode, byte by byte: what the shortest form of every instruction looks like, how
  operands of each width are laid out, and which bytes are no instruction.
 */
module ByteCode {
  import opened Words
  import opened Immediates
  import opened Instructions

  // ---- operands

  /** An offset of one byte. */
  function Signed8(b: byte): (r: u64) {
    if b >= 0x80 then b + (TWO64 - 0x100) else b
  }

  /** A number of two bytes, the low one first. */
  function Word(lo: byte, hi: byte): (r: u64) {
    var h: int := hi;
    lo + 0x100 * h
  }

  /** A count merged into its default of one. */
  function Odd(b: byte): (r: u64) {
    if b % 2 == 0 then b + 1 else b
  }

  lemma OptionalCount(b: byte)
    ensures DecodeImm(Optional(ImmCount, 1), []) == ImmResult(1, None)
    ensures DecodeImm(Optional(ImmCount, 1), [b]) == ImmResult(Odd(b), None)
  {
    hide Extend, BitOr;
    ExtendOne(b);
    OrWithOne(b);
  }

  lemma ExtendOne(b: byte)
    ensures Extend(false, [b]) == b
  {
    ExtendValue(false, [b]);
    assert LittleEndian([b]) == b + 256 * LittleEndian([]);
  }

  lemma ExtendWord(signed: bool, lo: byte, hi: byte)
    ensures Extend(signed, [lo, hi]) == Word(lo, hi) + if signed && hi >= 0x80 then TWO64 - 0x1_0000 else 0
  {
    hide Extend;
    ExtendValue(signed, [lo, hi]);
    Pow256Values();
    assert [lo, hi][1..] == [hi] && [hi][1..] == [];
    assert LittleEndian([hi]) == hi + 256 * LittleEndian([]);
  }

  lemma ExtendLong(a: byte, b: byte, c: byte, d: byte)
    ensures Extend(false, [a, b, c, d]) == Word(a, b) + 0x1_0000 * Word(c, d)
  {
    hide Extend;
    var s := [a, b, c, d];
    ExtendValue(false, s);
    assert s[1..] == [b, c, d] && s[1..][1..] == [c, d] && [c, d][1..] == [d] && [d][1..] == [];
    assert LittleEndian([d]) == d + 256 * LittleEndian([]);
    assert LittleEndian([c, d]) == c + 256 * LittleEndian([d]);
    assert LittleEndian([b, c, d]) == b + 256 * LittleEndian([c, d]);
  }

  lemma OrNothing(v: u64)
    ensures Or64(0, v) == v
  {
  }

  // ---- the two forms of a header

  lemma ShortForm(b0: byte, f0: seq<byte>, f1: seq<byte>, rest: seq<byte>)
    requires b0 < 0x80 && CodeLength(b0 / 4 % 4) == Some(|f0|) && CodeLength(b0 % 4) == Some(|f1|)
    ensures DecodeOp([b0] + f0 + f1 + rest, 0) == DecodeFields(0, FromNumber(b0 / 0x10), f0, f1, [], 1 + |f0| + |f1|)
  {
    hide DecodeFields, FromNumber, DecodeShaped, CodeLength;
    var shape := Shape(1, b0 / 0x10, b0 / 4 % 4, b0 % 4, 0);
    NoLength();
    DecodeShapedLaidOut([], shape, [b0], f0, f1, [], rest);
    var e := [b0] + f0 + f1 + rest;
    assert [] + ([b0] + f0 + f1 + []) + rest == e && e[0] == b0;
    assert HeaderAt(e, 0) == shape;
  }

  lemma NoLength()
    ensures CodeLength(0) == Some(0)
  {
  }

  lemma LongForm(b0: byte, b1: byte, f0: seq<byte>, f1: seq<byte>, f2: seq<byte>, rest: seq<byte>)
    requires b0 >= 0x80 && CodeLength(b0 % 2 * 4 + b1 / 0x40) == Some(|f0|)
    requires CodeLength(b1 / 8 % 8) == Some(|f1|) && CodeLength(b1 % 8) == Some(|f2|)
    ensures DecodeOp([b0, b1] + f0 + f1 + f2 + rest, 0)
         == DecodeFields(0, FromNumber(b0 % 0x80 / 2), f0, f1, f2, 2 + |f0| + |f1| + |f2|)
  {
    hide DecodeFields, FromNumber, DecodeShaped, CodeLength;
    var shape := Shape(2, b0 % 0x80 / 2, b0 % 2 * 4 + b1 / 0x40, b1 / 8 % 8, b1 % 8);
    DecodeShapedLaidOut([], shape, [b0, b1], f0, f1, f2, rest);
    var e := [b0, b1] + f0 + f1 + f2 + rest;
    assert [] + ([b0, b1] + f0 + f1 + f2) + rest == e && e[0] == b0 && e[1] == b1;
    assert HeaderAt(e, 0) == shape;
  }

  // ---- instructions without operands

  lemma Absent()
    ensures DecodeImm(Unused(), []) == ImmResult(0, None)
  {
  }

  lemma BareShort(b0: byte, c: OpCode, rest: seq<byte>)
    requires b0 < 0x80 && b0 % 0x10 == 0 && FromNumber(b0 / 0x10) == c && Legal(c)
    requires Meta(c) == OpMeta(Unused(), Unused(), Unused())
    ensures DecodeOp([b0] + rest, 0) == Decoded(Op(0, c, 0, 0, 0, 1))
  {
    hide DecodeOp, DecodeImm, FromNumber;
    Absent();
    ShortForm(b0, [], [], rest);
    assert [b0] + [] + [] + rest == [b0] + rest;
  }

  lemma BareLong(b0: byte, c: OpCode, rest: seq<byte>)
    requires b0 >= 0x80 && b0 % 2 == 0 && FromNumber(b0 % 0x80 / 2) == c && Legal(c)
    requires Meta(c) == OpMeta(Unused(), Unused(), Unused())
    ensures DecodeOp([b0, 0x00] + rest, 0) == Decoded(Op(0, c, 0, 0, 0, 2))
  {
    hide DecodeOp, DecodeImm, FromNumber;
    Absent();
    LongForm(b0, 0x00, [], [], [], rest);
    assert [b0, 0x00] + [] + [] + [] + rest == [b0, 0x00] + rest;
  }

  /** `NOP`, `FAIL`, `RET`, `FAIL2X`, `GIVEUP`, `END`. */
  lemma BareBytes(rest: seq<byte>)
    ensures DecodeOp([0x00] + rest, 0) == Decoded(Op(0, NOP, 0, 0, 0, 1))
    ensures DecodeOp([0x30] + rest, 0) == Decoded(Op(0, FAIL, 0, 0, 0, 1))
    ensures DecodeOp([0x96, 0x00] + rest, 0) == Decoded(Op(0, RET, 0, 0, 0, 2))
    ensures DecodeOp([0xa6, 0x00] + rest, 0) == Decoded(Op(0, FAIL2X, 0, 0, 0, 2))
    ensures DecodeOp([0xfc, 0x00] + rest, 0) == Decoded(Op(0, GIVEUP, 0, 0, 0, 2))
    ensures DecodeOp([0xfe, 0x00] + rest, 0) == Decoded(Op(0, END, 0, 0, 0, 2))
  {
    hide DecodeOp;
    BareShort(0x00, NOP, rest);
    BareShort(0x30, FAIL, rest);
    BareLong(0x96, RET, rest);
    BareLong(0xa6, FAIL2X, rest);
    BareLong(0xfc, GIVEUP, rest);
    BareLong(0xfe, END, rest);
  }

  // ---- one operand

  function Read8(t: ImmType, b: byte): (r: u64) {
    if Signed(t) then Signed8(b) else b
  }

  lemma OneShort(b0: byte, c: OpCode, t: ImmType, b: byte)
    requires b0 < 0x80 && b0 % 0x10 == 4 && FromNumber(b0 / 0x10) == c && Legal(c)
    requires Meta(c) == OpMeta(Required(t), Unused(), Unused()) && !t.ImmNone?
    ensures DecodeOp([b0, b], 0) == Decoded(Op(0, c, Read8(t, b), 0, 0, 2))
  {
    hide DecodeOp, DecodeImm, FromNumber;
    Absent();
    OneByteOperand(t, b);
    ShortForm(b0, [b], [], []);
    assert [b0] + [b] + [] + [] == [b0, b];
  }

  lemma OneLong(b0: byte, c: OpCode, t: ImmType, b: byte)
    requires b0 >= 0x80 && b0 % 2 == 0 && FromNumber(b0 % 0x80 / 2) == c && Legal(c)
    requires Meta(c) == OpMeta(Required(t), Unused(), Unused()) && !t.ImmNone?
    ensures DecodeOp([b0, 0x40, b], 0) == Decoded(Op(0, c, Read8(t, b), 0, 0, 3))
  {
    hide DecodeOp, DecodeImm, FromNumber;
    Absent();
    OneByteOperand(t, b);
    LongForm(b0, 0x40, [b], [], [], []);
    assert [b0, 0x40] + [b] + [] + [] + [] == [b0, 0x40, b];
  }

  /** `CHOICE`, `COMMIT`, `LITB`. */
  lemma ShortBytes(b: byte)
    ensures DecodeOp([0x14, b], 0) == Decoded(Op(0, CHOICE, Signed8(b), 0, 0, 2))
    ensures DecodeOp([0x24, b], 0) == Decoded(Op(0, COMMIT, Signed8(b), 0, 0, 2))
    ensures DecodeOp([0x64, b], 0) == Decoded(Op(0, LITB, b, 0, 0, 2))
  {
    hide DecodeOp;
    OneShort(0x14, CHOICE, ImmCodeOffset, b);
    OneShort(0x24, COMMIT, ImmCodeOffset, b);
    OneShort(0x64, LITB, ImmLiteralIdx, b);
  }

  /** `JMP`, `CALL`, `PCOMMIT`, `BCOMMIT`. */
  lemma BranchBytes(b: byte)
    ensures DecodeOp([0x90, 0x40, b], 0) == Decoded(Op(0, JMP, Signed8(b), 0, 0, 3))
    ensures DecodeOp([0x94, 0x40, b], 0) == Decoded(Op(0, CALL, Signed8(b), 0, 0, 3))
    ensures DecodeOp([0xa0, 0x40, b], 0) == Decoded(Op(0, PCOMMIT, Signed8(b), 0, 0, 3))
    ensures DecodeOp([0xa2, 0x40, b], 0) == Decoded(Op(0, BCOMMIT, Signed8(b), 0, 0, 3))
  {
    hide DecodeOp;
    OneLong(0x90, JMP, ImmCodeOffset, b);
    OneLong(0x94, CALL, ImmCodeOffset, b);
    OneLong(0xa0, PCOMMIT, ImmCodeOffset, b);
    OneLong(0xa2, BCOMMIT, ImmCodeOffset, b);
  }

  /** `SPANB`, `RWNDB`, `BCAP`, `ECAP`. */
  lemma IndexBytes(b: byte)
    ensures DecodeOp([0xa4, 0x40, b], 0) == Decoded(Op(0, SPANB, b, 0, 0, 3))
    ensures DecodeOp([0xa8, 0x40, b], 0) == Decoded(Op(0, RWNDB, b, 0, 0, 3))
    ensures DecodeOp([0xac, 0x40, b], 0) == Decoded(Op(0, BCAP, b, 0, 0, 3))
    ensures DecodeOp([0xae, 0x40, b], 0) == Decoded(Op(0, ECAP, b, 0, 0, 3))
  {
    hide DecodeOp;
    OneLong(0xa4, SPANB, ImmMatcherIdx, b);
    OneLong(0xa8, RWNDB, ImmCount, b);
    OneLong(0xac, BCAP, ImmCaptureIdx, b);
    OneLong(0xae, ECAP, ImmCaptureIdx, b);
  }

  // ---- counts

  /** `ANYB`, with and without its count. */
  lemma AnyBytes(n: byte)
    ensures DecodeOp([0x40], 0) == Decoded(Op(0, ANYB, 1, 0, 0, 1))
    ensures DecodeOp([0x44, n], 0) == Decoded(Op(0, ANYB, Odd(n), 0, 0, 2))
  {
    hide DecodeOp, DecodeImm;
    Absent();
    OptionalCount(n);
    ShortForm(0x40, [], [], []);
    assert [0x40] + [] + [] + [] == [0x40];
    ShortForm(0x44, [n], [], []);
    assert [0x44] + [n] + [] + [] == [0x44, n];
  }

  /** `SAMEB` and `MATCHB`, with and without their counts. */
  lemma RepeatBytes(b: byte, n: byte)
    ensures DecodeOp([0x54, b], 0) == Decoded(Op(0, SAMEB, b, 1, 0, 2))
    ensures DecodeOp([0x55, b, n], 0) == Decoded(Op(0, SAMEB, b, Odd(n), 0, 3))
    ensures DecodeOp([0x74, b], 0) == Decoded(Op(0, MATCHB, b, 1, 0, 2))
    ensures DecodeOp([0x75, b, n], 0) == Decoded(Op(0, MATCHB, b, Odd(n), 0, 3))
  {
    hide DecodeOp, DecodeImm;
    Absent();
    OptionalCount(n);
    OneByteOperand(ImmByte, b);
    OneByteOperand(ImmMatcherIdx, b);
    ShortForm(0x54, [b], [], []);
    assert [0x54] + [b] + [] + [] == [0x54, b];
    ShortForm(0x55, [b], [n], []);
    assert [0x55] + [b] + [n] + [] == [0x55, b, n];
    ShortForm(0x74, [b], [], []);
    assert [0x74] + [b] + [] + [] == [0x74, b];
    ShortForm(0x75, [b], [n], []);
    assert [0x75] + [b] + [n] + [] == [0x75, b, n];
  }

  // ---- tests, and three operands

  /** `TANYB`, with and without its count. */
  lemma TestAnyBytes(o: byte, n: byte)
    ensures DecodeOp([0x98, 0x40, o], 0) == Decoded(Op(0, TANYB, Signed8(o), 1, 0, 3))
    ensures DecodeOp([0x98, 0x48, o, n], 0) == Decoded(Op(0, TANYB, Signed8(o), Odd(n), 0, 4))
  {
    hide DecodeOp, DecodeImm;
    Absent();
    OptionalCount(n);
    OneByteOperand(ImmCodeOffset, o);
    LongForm(0x98, 0x40, [o], [], [], []);
    assert [0x98, 0x40] + [o] + [] + [] + [] == [0x98, 0x40, o];
    LongForm(0x98, 0x48, [o], [n], [], []);
    assert [0x98, 0x48] + [o] + [n] + [] + [] == [0x98, 0x48, o, n];
  }

  /** `TLITB`. */
  lemma TestLitBytes(o: byte, l: byte)
    ensures DecodeOp([0x9c, 0x48, o, l], 0) == Decoded(Op(0, TLITB, Signed8(o), l, 0, 4))
  {
    hide DecodeOp, DecodeImm;
    Absent();
    OneByteOperand(ImmCodeOffset, o);
    OneByteOperand(ImmLiteralIdx, l);
    LongForm(0x9c, 0x48, [o], [l], [], []);
    assert [0x9c, 0x48] + [o] + [l] + [] + [] == [0x9c, 0x48, o, l];
  }

  /** `FCAP`. */
  lemma FullCaptureBytes(c: byte, n: byte)
    ensures DecodeOp([0xaa, 0x48, c, n], 0) == Decoded(Op(0, FCAP, c, n, 0, 4))
  {
    hide DecodeOp, DecodeImm;
    Absent();
    OneByteOperand(ImmCaptureIdx, c);
    OneByteOperand(ImmCount, n);
    LongForm(0xaa, 0x48, [c], [n], [], []);
    assert [0xaa, 0x48] + [c] + [n] + [] + [] == [0xaa, 0x48, c, n];
  }

  /** `TSAMEB`, with two operands and with three. */
  lemma TestSameBytes(o: byte, x: byte, n: byte)
    ensures DecodeOp([0x9a, 0x48, o, x], 0) == Decoded(Op(0, TSAMEB, Signed8(o), x, 1, 4))
    ensures DecodeOp([0x9a, 0x49, o, x, n], 0) == Decoded(Op(0, TSAMEB, Signed8(o), x, Odd(n), 5))
  {
    hide DecodeOp, DecodeImm;
    OptionalCount(n);
    OneByteOperand(ImmCodeOffset, o);
    OneByteOperand(ImmByte, x);
    LongForm(0x9a, 0x48, [o], [x], [], []);
    assert [0x9a, 0x48] + [o] + [x] + [] + [] == [0x9a, 0x48, o, x];
    LongForm(0x9a, 0x49, [o], [x], [n], []);
    assert [0x9a, 0x49] + [o] + [x] + [n] + [] == [0x9a, 0x49, o, x, n];
  }

  /** `TMATCHB`, with two operands and with three. */
  lemma TestMatchBytes(o: byte, x: byte, n: byte)
    ensures DecodeOp([0x9e, 0x48, o, x], 0) == Decoded(Op(0, TMATCHB, Signed8(o), x, 1, 4))
    ensures DecodeOp([0x9e, 0x49, o, x, n], 0) == Decoded(Op(0, TMATCHB, Signed8(o), x, Odd(n), 5))
  {
    hide DecodeOp, DecodeImm;
    OptionalCount(n);
    OneByteOperand(ImmCodeOffset, o);
    OneByteOperand(ImmMatcherIdx, x);
    LongForm(0x9e, 0x48, [o], [x], [], []);
    assert [0x9e, 0x48] + [o] + [x] + [] + [] == [0x9e, 0x48, o, x];
    LongForm(0x9e, 0x49, [o], [x], [n], []);
    assert [0x9e, 0x49] + [o] + [x] + [n] + [] == [0x9e, 0x49, o, x, n];
  }

  // ---- wider operands

  /** An offset of two bytes, the low one first. */
  lemma WideOffsetBytes(a: byte, b: byte)
    ensures DecodeOp([0x90, 0x80, a, b], 0)
         == Decoded(Op(0, JMP, if b >= 0x80 then Word(a, b) + (TWO64 - 0x1_0000) else Word(a, b), 0, 0, 4))
  {
    hide DecodeOp, DecodeImm, Word;
    Absent();
    WideOperands(a, b, 0, 0);
    LongForm(0x90, 0x80, [a, b], [], [], []);
    assert [0x90, 0x80] + [a, b] + [] + [] + [] == [0x90, 0x80, a, b];
  }

  /** An index of two bytes. */
  lemma WideIndexBytes(a: byte, b: byte)
    ensures DecodeOp([0x68, a, b], 0) == Decoded(Op(0, LITB, Word(a, b), 0, 0, 3))
  {
    hide DecodeOp, DecodeImm, Word;
    Absent();
    WideOperands(a, b, 0, 0);
    ShortForm(0x68, [a, b], [], []);
    assert [0x68] + [a, b] + [] + [] == [0x68, a, b];
  }

  /** And of four. */
  lemma LongIndexBytes(a: byte, b: byte, c: byte, d: byte)
    ensures Word(a, b) + 0x1_0000 * Word(c, d) < TWO64
    ensures DecodeOp([0x6c, a, b, c, d], 0) == Decoded(Op(0, LITB, Word(a, b) + 0x1_0000 * Word(c, d), 0, 0, 5))
  {
    hide DecodeOp, DecodeImm, Word;
    Absent();
    WideOperands(a, b, c, d);
    ShortForm(0x6c, [a, b, c, d], [], []);
    assert [0x6c] + [a, b, c, d] + [] + [] == [0x6c, a, b, c, d];
  }

  lemma WideOperands(a: byte, b: byte, c: byte, d: byte)
    ensures DecodeImm(Required(ImmCodeOffset), [a, b])
         == ImmResult(if b >= 0x80 then Word(a, b) + (TWO64 - 0x1_0000) else Word(a, b), None)
    ensures DecodeImm(Required(ImmLiteralIdx), [a, b]) == ImmResult(Word(a, b), None)
    ensures Word(a, b) + 0x1_0000 * Word(c, d) < TWO64
    ensures DecodeImm(Required(ImmLiteralIdx), [a, b, c, d]) == ImmResult(Word(a, b) + 0x1_0000 * Word(c, d), None)
  {
    hide Extend, BitOr;
    ExtendWord(true, a, b);
    ExtendWord(false, a, b);
    ExtendLong(a, b, c, d);
    OrNothing(Extend(true, [a, b]));
    OrNothing(Extend(false, [a, b]));
    OrNothing(Extend(false, [a, b, c, d]));
  }

  // ---- what is no instruction

  /** Nothing at all; half a header; an operand missing its bytes; one that is required, or not there to have. */
  lemma BadBytes(b: byte)
    ensures DecodeOp([], 0) == EndOfCode
    ensures b >= 0x80 ==> DecodeOp([b], 0) == Malformed(UnexpectedEOF)
    ensures DecodeOp([0x14], 0) == Malformed(UnexpectedEOF)
    ensures DecodeOp([0x10], 0) == Malformed(MissingImmediate)
    ensures DecodeOp([0x04, b], 0) == Malformed(UnexpectedImmediate)
  {
    hide DecodeImm;
    Absent();
    Refused(b);
    ShortForm(0x10, [], [], []);
    assert [0x10] + [] + [] + [] == [0x10];
    ShortForm(0x04, [b], [], []);
    assert [0x04] + [b] + [] + [] == [0x04, b];
  }

  lemma Refused(b: byte)
    ensures DecodeImm(Required(ImmCodeOffset), []).err == Some(MissingImmediate)
    ensures DecodeImm(Unused(), [b]).err == Some(UnexpectedImmediate)
  {
  }

  /** A length code above four. */
  lemma BadLengthBytes()
    ensures DecodeOp([0x80, 0x05], 0) == Malformed(BadImmediateLen)
  {
    hide DecodeFields, FromNumber;
    assert HeaderAt([0x80, 0x05], 0) == Shape(2, 0, 0, 0, 5);
  }

  /** An opcode that is reserved, whatever its number. */
  lemma ReservedBytes(n: byte)
    requires n == 0x09 || 0x18 <= n <= 0x3d
    ensures DecodeOp([0x80 + 2 * n, 0x00], 0) == Malformed(UnknownOpcode)
  {
    hide DecodeOp, DecodeImm;
    LongForm(0x80 + 2 * n, 0x00, [], [], [], []);
    assert [0x80 + 2 * n, 0x00] + [] + [] + [] + [] == [0x80 + 2 * n, 0x00];
  }
}
