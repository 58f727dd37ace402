/**
  The two sample programs of the test suite (`peggyvm/peggyvm_test.go`), as bytecode, and
  what stands at each of their addresses; then a greedy loop and a guarded match, the
  smallest code that `Equivalences` speaks of.
 */
module SampleCode {
  import opened Words
  import opened Immediates
  import opened Instructions
  import opened Machine
  import opened Equivalences

  const A: byte := 0x61
  const B: byte := 0x62
  const N: byte := 0x6e

  const CODE1: Bytes :=
    [0xac, 0x40, 0x00, 0x14, 0x07, 0x64, 0x00, 0x14, 0x07, 0x40, 0xa6, 0x00,
     0x40, 0x90, 0x40, 0xf3, 0xae, 0x40, 0x00, 0xfe, 0x00]

  const PROGRAM1: Program := Program(CODE1, [[A, N, A]], [], 1)

  const CODE2: Bytes :=
    [0xac, 0x40, 0x00, 0x54, 0x62, 0x14, 0x0a, 0x54, 0x61, 0x54, 0x6e, 0xaa, 0x48, 0x01, 0x02,
     0x24, 0xf4, 0x54, 0x61, 0x14, 0x03, 0x40, 0xa6, 0x00, 0xae, 0x40, 0x00, 0xfe, 0x00]

  const PROGRAM2: Program := Program(CODE2, [], [], 2)

  // ---- decoding small instructions

  /** A one-byte header without operands, or with a single one-byte first operand. */
  lemma OneByteForm(code: Bytes, xp: nat, n: nat)
    requires xp + 1 + n <= |code| && code[xp] < 0x80 && n <= 1
    requires code[xp] / 4 % 4 == n && code[xp] % 4 == 0
    ensures DecodeOp(code, xp) == DecodeFields(xp, FromNumber(code[xp] / 0x10), code[xp + 1..xp + 1 + n], [], [], 1 + n)
  {
    hide DecodeFields, FromNumber;
    assert code[xp + 1 + n..xp + 1 + n] == [];
  }

  /** A two-byte header with `n0` and `n1` bytes of operands, none of them wider than a byte. */
  lemma TwoByteForm(code: Bytes, xp: nat, n0: nat, n1: nat)
    requires xp + 2 + n0 + n1 <= |code| && code[xp] >= 0x80 && n0 <= 1 && n1 <= 1
    requires code[xp] % 2 == 0 && code[xp + 1] == n0 * 0x40 + n1 * 8
    ensures DecodeOp(code, xp)
         == DecodeFields(xp, FromNumber(code[xp] % 0x80 / 2), code[xp + 2..xp + 2 + n0],
                         code[xp + 2 + n0..xp + 2 + n0 + n1], [], 2 + n0 + n1)
  {
    hide DecodeFields, FromNumber, ReadHeader;
    var l := xp + 2 + n0 + n1;
    assert code[l..l] == [];
    ReadTwoBytes(code[xp], n0, n1);
  }

  lemma ReadTwoBytes(b: byte, n0: nat, n1: nat)
    requires b >= 0x80 && b % 2 == 0 && n0 <= 1 && n1 <= 1
    ensures ReadHeader(b, n0 * 0x40 + n1 * 8) == Shape(2, b % 0x80 / 2, n0, n1, 0)
  {
    LowByte(n0, n1, 0);
  }

  function Decoded0(xp: nat, code: OpCode, len: nat): (d: Decoded) {
    Decoded(Op(xp, code, Default(Meta(code).imm0), Default(Meta(code).imm1), 0, len))
  }

  function Decoded1(xp: nat, code: OpCode, v: u64, len: nat): (d: Decoded) {
    Decoded(Op(xp, code, v, Default(Meta(code).imm1), 0, len))
  }

  /** What stands at each address of the first program, up to its loop's end. */
  lemma DecodesLoop1()
    ensures DecodeOp(CODE1, 0) == Decoded1(0, BCAP, 0, 3)
    ensures DecodeOp(CODE1, 3) == Decoded1(3, CHOICE, 7, 2)
    ensures DecodeOp(CODE1, 5) == Decoded1(5, LITB, 0, 2)
    ensures DecodeOp(CODE1, 7) == Decoded1(7, CHOICE, 7, 2)
    ensures DecodeOp(CODE1, 9) == Decoded0(9, ANYB, 1)
  {
    hide DecodeOp, DecodeImm;
    TwoByte1(CODE1, 0, BCAP); OneByte1(CODE1, 3, CHOICE); OneByte1(CODE1, 5, LITB); OneByte1(CODE1, 7, CHOICE);
    OneByte0(CODE1, 9, ANYB);
  }

  /** And from there on. */
  lemma DecodesTail1()
    ensures DecodeOp(CODE1, 10) == Decoded0(10, FAIL2X, 2)
    ensures DecodeOp(CODE1, 12) == Decoded0(12, ANYB, 1)
    ensures DecodeOp(CODE1, 13) == Decoded1(13, JMP, TWO64 - 13, 3)
    ensures DecodeOp(CODE1, 16) == Decoded1(16, ECAP, 0, 3)
    ensures DecodeOp(CODE1, 19) == Decoded0(19, END, 2)
  {
    hide DecodeOp, DecodeImm;
    TwoByte0(CODE1, 10, FAIL2X); OneByte0(CODE1, 12, ANYB);
    TwoByte1(CODE1, 13, JMP); TwoByte1(CODE1, 16, ECAP); TwoByte0(CODE1, 19, END);
  }

  lemma OneByte0(code: Bytes, xp: nat, op: OpCode)
    requires xp + 1 <= |code| && Legal(op) && Number(op) <= 7 && code[xp] == Number(op) * 0x10
    requires !Meta(op).imm0.required && !Meta(op).imm1.required && Meta(op).imm2 == Unused()
    ensures DecodeOp(code, xp) == Decoded0(xp, op, 1)
  {
    hide DecodeOp, FromNumber, Number;
    OneByteForm(code, xp, 0);
    assert code[xp + 1..xp + 1] == [];
    NumberRoundTrip(op);
  }

  lemma OneByte1(code: Bytes, xp: nat, op: OpCode)
    requires xp + 2 <= |code| && Legal(op) && Number(op) <= 7 && code[xp] == Number(op) * 0x10 + 4
    requires Meta(op).imm0 == Required(Meta(op).imm0.typ) && !Meta(op).imm0.typ.ImmNone?
    requires !Meta(op).imm1.required && Meta(op).imm2 == Unused()
    ensures DecodeOp(code, xp) == Decoded1(xp, op, SignedByte(op, code[xp + 1]), 2)
  {
    hide DecodeOp, FromNumber, Number;
    OneByteForm(code, xp, 1);
    assert code[xp + 1..xp + 2] == [code[xp + 1]];
    OneByteOperand(Meta(op).imm0.typ, code[xp + 1]);
    NumberRoundTrip(op);
  }

  lemma TwoByte0(code: Bytes, xp: nat, op: OpCode)
    requires xp + 2 <= |code| && Legal(op) && code[xp] == 0x80 + Number(op) * 2 && code[xp + 1] == 0
    requires !Meta(op).imm0.required && !Meta(op).imm1.required && Meta(op).imm2 == Unused()
    ensures DecodeOp(code, xp) == Decoded0(xp, op, 2)
  {
    hide DecodeOp, FromNumber, Number;
    TwoByteForm(code, xp, 0, 0);
    assert code[xp + 2..xp + 2] == [];
    NumberRoundTrip(op);
  }

  lemma TwoByte1(code: Bytes, xp: nat, op: OpCode)
    requires xp + 3 <= |code| && Legal(op) && code[xp] == 0x80 + Number(op) * 2 && code[xp + 1] == 0x40
    requires Meta(op).imm0 == Required(Meta(op).imm0.typ) && !Meta(op).imm0.typ.ImmNone?
    requires !Meta(op).imm1.required && Meta(op).imm2 == Unused()
    ensures DecodeOp(code, xp) == Decoded1(xp, op, SignedByte(op, code[xp + 2]), 3)
  {
    hide DecodeOp, FromNumber, Number;
    TwoByteForm(code, xp, 1, 0);
    assert code[xp + 2..xp + 3] == [code[xp + 2]];
    assert code[xp + 3..xp + 3] == [];
    OneByteOperand(Meta(op).imm0.typ, code[xp + 2]);
    NumberRoundTrip(op);
  }

  function SignedByte(op: OpCode, b: byte): (r: u64) {
    if Signed(Meta(op).imm0.typ) && b >= 0x80 then b + (TWO64 - 0x100) else b
  }

  /** What stands at each address of the second program, up to its loop. */
  lemma DecodesEntry2()
    ensures DecodeOp(CODE2, 0) == Decoded1(0, BCAP, 0, 3)
    ensures DecodeOp(CODE2, 3) == Decoded1(3, SAMEB, 0x62, 2)
    ensures DecodeOp(CODE2, 5) == Decoded1(5, CHOICE, 10, 2)
  {
    hide DecodeOp, DecodeImm;
    TwoByte1(CODE2, 0, BCAP); OneByte1(CODE2, 3, SAMEB); OneByte1(CODE2, 5, CHOICE);
  }

  /** In its loop. */
  lemma DecodesLoop2()
    ensures DecodeOp(CODE2, 7) == Decoded1(7, SAMEB, 0x61, 2)
    ensures DecodeOp(CODE2, 9) == Decoded1(9, SAMEB, 0x6e, 2)
    ensures DecodeOp(CODE2, 11) == Decoded(Op(11, FCAP, 1, 2, 0, 4))
    ensures DecodeOp(CODE2, 15) == Decoded1(15, COMMIT, TWO64 - 12, 2)
  {
    hide DecodeOp, DecodeImm;
    OneByte1(CODE2, 7, SAMEB); OneByte1(CODE2, 9, SAMEB); DecodesFCAP(); OneByte1(CODE2, 15, COMMIT);
  }

  /** And after the loop. */
  lemma DecodesTail2()
    ensures DecodeOp(CODE2, 17) == Decoded1(17, SAMEB, 0x61, 2)
    ensures DecodeOp(CODE2, 19) == Decoded1(19, CHOICE, 3, 2)
    ensures DecodeOp(CODE2, 21) == Decoded0(21, ANYB, 1)
    ensures DecodeOp(CODE2, 22) == Decoded0(22, FAIL2X, 2)
    ensures DecodeOp(CODE2, 24) == Decoded1(24, ECAP, 0, 3)
    ensures DecodeOp(CODE2, 27) == Decoded0(27, END, 2)
  {
    hide DecodeOp, DecodeImm;
    OneByte1(CODE2, 17, SAMEB); OneByte1(CODE2, 19, CHOICE); OneByte0(CODE2, 21, ANYB);
    TwoByte0(CODE2, 22, FAIL2X); TwoByte1(CODE2, 24, ECAP); TwoByte0(CODE2, 27, END);
  }

  lemma DecodesFCAP()
    ensures DecodeOp(CODE2, 11) == Decoded(Op(11, FCAP, 1, 2, 0, 4))
  {
    hide DecodeOp, DecodeImm;
    TwoByteForm(CODE2, 11, 1, 1);
    assert CODE2[13..14] == [1] && CODE2[14..15] == [2];
    OneByteOperand(ImmCaptureIdx, 1);
    OneByteOperand(ImmCount, 2);
    NothingThere();
  }

  lemma NothingThere()
    ensures DecodeImm(Unused(), []) == ImmResult(0, None)
  {
  }

  // ---- what each instruction does

  lemma OffsetTo(from: u64, n: int, v: u64)
    requires -0x100 < n < 0x100 && v == (if n < 0 then n + TWO64 else n) && 0 <= from + n < 0x1000 && from < 0x1000
    ensures AddOffset(from, U2S(v)) == Some(from + n)
  {
    SignedConversionsInverse(n, v);
    U2SValue(v);
    AddOffsetExact(from, U2S(v));
  }

  // ---- one greedy loop, written out

  /** `CHOICE l2; l1: MATCHB 0; PCOMMIT l2; JMP l1; l2: SPANB 0`. */
  const LOOP_CODE: Bytes := [0x14, 0x08, 0x74, 0x00, 0xa0, 0x40, 0x03, 0x90, 0x40, 0xf8, 0xa4, 0x40, 0x00]

  lemma DecodesLoop()
    ensures DecodeOp(LOOP_CODE, 0) == Decoded1(0, CHOICE, 8, 2)
    ensures DecodeOp(LOOP_CODE, 2) == Decoded1(2, MATCHB, 0, 2)
    ensures DecodeOp(LOOP_CODE, 4) == Decoded1(4, PCOMMIT, 3, 3)
    ensures DecodeOp(LOOP_CODE, 7) == Decoded1(7, JMP, TWO64 - 8, 3)
    ensures DecodeOp(LOOP_CODE, 10) == Decoded1(10, SPANB, 0, 3)
  {
    hide DecodeOp, DecodeImm;
    OneByte1(LOOP_CODE, 0, CHOICE); OneByte1(LOOP_CODE, 2, MATCHB);
    TwoByte1(LOOP_CODE, 4, PCOMMIT); TwoByte1(LOOP_CODE, 7, JMP); TwoByte1(LOOP_CODE, 10, SPANB);
  }

  /** These bytes are a greedy loop followed by the span it comes to. */
  lemma LoopStands(m: set<byte>)
    ensures var p := Program(LOOP_CODE, [], [m], 0);
      GreedyLoop(p, Loop(0, 2, 4, 7, 10, Op(0, CHOICE, 8, 0, 0, 2), Op(2, MATCHB, 0, 1, 0, 2),
                         Op(4, PCOMMIT, 3, 0, 0, 3), Op(7, JMP, TWO64 - 8, 0, 0, 3)))
      && At(p, 10, Op(10, SPANB, 0, 0, 0, 3), 13)
  {
    hide DecodeOp;
    DecodesLoop();
  }

  // ---- one guarded match, written out

  /** `miss: CHOICE miss; ANYB; COMMIT hit; TANYB miss; hit:`. */
  const TEST_CODE: Bytes := [0x14, 0xfe, 0x40, 0x24, 0x03, 0x98, 0x40, 0xf8]

  lemma DecodesTest()
    ensures DecodeOp(TEST_CODE, 0) == Decoded1(0, CHOICE, TWO64 - 2, 2)
    ensures DecodeOp(TEST_CODE, 2) == Decoded0(2, ANYB, 1)
    ensures DecodeOp(TEST_CODE, 3) == Decoded1(3, COMMIT, 3, 2)
    ensures DecodeOp(TEST_CODE, 5) == Decoded1(5, TANYB, TWO64 - 8, 3)
  {
    hide DecodeOp, DecodeImm;
    OneByte1(TEST_CODE, 0, CHOICE); OneByte0(TEST_CODE, 2, ANYB);
    OneByte1(TEST_CODE, 3, COMMIT); TwoByte1(TEST_CODE, 5, TANYB);
  }

  /** These bytes are a guarded match followed by the test it comes to. */
  lemma TestStands()
    ensures var p := Program(TEST_CODE, [], [], 0);
      GuardedMatch(p, Guarded(0, 2, 3, 5, 0, 8, Op(0, CHOICE, TWO64 - 2, 0, 0, 2), Op(2, ANYB, 1, 0, 0, 1),
                              Op(3, COMMIT, 3, 0, 0, 2)))
      && Branch(p, 5, Op(5, TANYB, TWO64 - 8, 1, 0, 3), 8, 0)
      && TestsFor(Op(5, TANYB, TWO64 - 8, 1, 0, 3), Op(2, ANYB, 1, 0, 0, 1))
  {
    hide DecodeOp;
    DecodesTest();
  }
}
