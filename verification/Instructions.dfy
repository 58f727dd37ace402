/**
  The instruction set, its variable-width encoding and its decoder
  (`peggyvm/opcode.go`, `peggyvm/op.go`, `peggyvm/data.go`).
 */
module Instructions {
  import opened Words
  import opened Immediates

  datatype OpCode =
    | NOP | CHOICE | COMMIT | FAIL | ANYB | SAMEB | LITB | MATCHB
    | JMP | CALL | RET | TANYB | TSAMEB | TLITB | TMATCHB
    | PCOMMIT | BCOMMIT | SPANB | FAIL2X | RWNDB | FCAP | BCAP | ECAP
    | GIVEUP | END
    | Reserved(n: byte)

  /** The number an opcode is encoded as. */
  function Number(c: OpCode): (a: byte)
    ensures Legal(c) ==> a < 0x40
  {
    match c
    case NOP => 0x00 case CHOICE => 0x01 case COMMIT => 0x02 case FAIL => 0x03
    case ANYB => 0x04 case SAMEB => 0x05 case LITB => 0x06 case MATCHB => 0x07
    case JMP => 0x08 case CALL => 0x0a case RET => 0x0b
    case TANYB => 0x0c case TSAMEB => 0x0d case TLITB => 0x0e case TMATCHB => 0x0f
    case PCOMMIT => 0x10 case BCOMMIT => 0x11 case SPANB => 0x12 case FAIL2X => 0x13
    case RWNDB => 0x14 case FCAP => 0x15 case BCAP => 0x16 case ECAP => 0x17
    case GIVEUP => 0x3e case END => 0x3f
    case Reserved(n) => n
  }

  /** The opcode a number stands for. */
  function FromNumber(a: byte): (c: OpCode)
    ensures Number(c) == a
  {
    match a
    case 0x00 => NOP case 0x01 => CHOICE case 0x02 => COMMIT case 0x03 => FAIL
    case 0x04 => ANYB case 0x05 => SAMEB case 0x06 => LITB case 0x07 => MATCHB
    case 0x08 => JMP case 0x0a => CALL case 0x0b => RET
    case 0x0c => TANYB case 0x0d => TSAMEB case 0x0e => TLITB case 0x0f => TMATCHB
    case 0x10 => PCOMMIT case 0x11 => BCOMMIT case 0x12 => SPANB case 0x13 => FAIL2X
    case 0x14 => RWNDB case 0x15 => FCAP case 0x16 => BCAP case 0x17 => ECAP
    case 0x3e => GIVEUP case 0x3f => END
    case _ => Reserved(a)
  }

  predicate Legal(c: OpCode) {
    !c.Reserved?
  }

  function Unused(): (m: ImmMeta) { ImmMeta(ImmNone, false, 0) }
  function Required(t: ImmType): (m: ImmMeta) { ImmMeta(t, true, 0) }
  function Optional(t: ImmType, d: byte): (m: ImmMeta) { ImmMeta(t, false, d) }

  datatype OpMeta = OpMeta(imm0: ImmMeta, imm1: ImmMeta, imm2: ImmMeta)

  /** The operand table.  A reserved code is described by three optional numbers. */
  function Meta(c: OpCode): (m: OpMeta) {
    match c
    case CHOICE | COMMIT | JMP | CALL | PCOMMIT | BCOMMIT =>
      OpMeta(Required(ImmCodeOffset), Unused(), Unused())
    case ANYB => OpMeta(Optional(ImmCount, 1), Unused(), Unused())
    case SAMEB => OpMeta(Required(ImmByte), Optional(ImmCount, 1), Unused())
    case LITB => OpMeta(Required(ImmLiteralIdx), Unused(), Unused())
    case MATCHB => OpMeta(Required(ImmMatcherIdx), Optional(ImmCount, 1), Unused())
    case TANYB => OpMeta(Required(ImmCodeOffset), Optional(ImmCount, 1), Unused())
    case TSAMEB => OpMeta(Required(ImmCodeOffset), Required(ImmByte), Optional(ImmCount, 1))
    case TLITB => OpMeta(Required(ImmCodeOffset), Required(ImmLiteralIdx), Unused())
    case TMATCHB => OpMeta(Required(ImmCodeOffset), Required(ImmMatcherIdx), Optional(ImmCount, 1))
    case SPANB => OpMeta(Required(ImmMatcherIdx), Unused(), Unused())
    case RWNDB => OpMeta(Required(ImmCount), Unused(), Unused())
    case FCAP => OpMeta(Required(ImmCaptureIdx), Required(ImmCount), Unused())
    case BCAP | ECAP => OpMeta(Required(ImmCaptureIdx), Unused(), Unused())
    case Reserved(_) => OpMeta(Optional(ImmUint, 0), Optional(ImmUint, 0), Optional(ImmUint, 0))
    case NOP | FAIL | RET | FAIL2X | GIVEUP | END => OpMeta(Unused(), Unused(), Unused())
  }

  /** Instructions whose first operand is a code offset. */
  predicate HasOffset(c: OpCode) {
    Meta(c).imm0.typ.ImmCodeOffset?
  }

  // ---- encoding

  function LengthCode(n: nat): (b: byte)
    requires n in {0, 1, 2, 4, 8}
  {
    if n == 4 then 3 else if n == 8 then 4 else n
  }

  function CodeLength(b: byte): (r: Option<nat>) {
    if b == 3 then Some(4) else if b == 4 then Some(8) else if b <= 2 then Some(b) else None
  }

  datatype RawInstr = Instr(code: OpCode, imm0: u64, imm1: u64, imm2: u64)

  /** An instruction of the table, with its three operand values. */
  type Instr = i: RawInstr | Legal(i.code) witness Instr(NOP, 0, 0, 0)

  function Field0(op: Instr): (s: seq<byte>) { EncodeImm(Meta(op.code).imm0, op.imm0) }
  function Field1(op: Instr): (s: seq<byte>) { EncodeImm(Meta(op.code).imm1, op.imm1) }
  function Field2(op: Instr): (s: seq<byte>) { EncodeImm(Meta(op.code).imm2, op.imm2) }

  /** The one- or two-byte header for an opcode and three length codes. */
  function Header(a: byte, b: byte, c: byte, d: byte): (s: seq<byte>)
    requires a < 0x40 && b <= 4 && c <= 4 && d <= 4
  {
    if a > 0x07 || b > 3 || c > 3 || d > 0
    then [0x80 + a * 2 + b / 4, b % 4 * 0x40 + c * 8 + d]
    else [a * 0x10 + b * 4 + c]
  }

  function EncodeOp(op: Instr): (s: seq<byte>)
  {
    FieldLength(Meta(op.code).imm0, op.imm0);
    FieldLength(Meta(op.code).imm1, op.imm1);
    FieldLength(Meta(op.code).imm2, op.imm2);
    Header(Number(op.code), LengthCode(|Field0(op)|), LengthCode(|Field1(op)|), LengthCode(|Field2(op)|))
    + Field0(op) + Field1(op) + Field2(op)
  }

  lemma FieldLength(m: ImmMeta, v: u64)
    ensures |EncodeImm(m, v)| in {0, 1, 2, 4, 8}
    ensures |EncodeImm(m, v)| == if IsPresent(m, v) then EncodedWidth(Signed(m.typ), v) else 0
  {
    WidthCorrectAndMinimal(Signed(m.typ), v);
  }

  // ---- decoding

  datatype Op = Op(xp: nat, code: OpCode, imm0: u64, imm1: u64, imm2: u64, len: nat)
  datatype Decoded = EndOfCode | Malformed(err: Error) | Decoded(op: Op)

  datatype Shape = Shape(hlen: nat, a: byte, b: byte, c: byte, d: byte)

  /** What the header bytes say, whichever of the two forms they take. */
  function ReadHeader(byte0: byte, byte1: byte): (h: Shape)
    ensures h.a < 0x40 && h.b < 8 && h.c < 8 && h.d < 8 && 1 <= h.hlen <= 2
  {
    if byte0 >= 0x80
    then Shape(2, byte0 % 0x80 / 2, byte0 % 2 * 4 + byte1 / 0x40, byte1 / 8 % 8, byte1 % 8)
    else Shape(1, byte0 / 0x10, byte0 / 4 % 4, byte0 % 4, 0)
  }

  function DecodeOp(stream: seq<byte>, xp: nat): (r: Decoded)
    ensures r.Decoded? ==> r.op.xp == xp && 0 < r.op.len && xp + r.op.len <= |stream|
    ensures r.Decoded? ==> Legal(r.op.code)
    ensures r.EndOfCode? <==> xp >= |stream|
  {
    if xp >= |stream| then EndOfCode
    else if stream[xp] >= 0x80 && xp + 1 >= |stream| then Malformed(UnexpectedEOF)
    else
      DecodeShaped(stream, xp, HeaderAt(stream, xp))
  }

  /** The header at `xp`; a missing second byte reads as 0xaa. */
  function HeaderAt(stream: seq<byte>, xp: nat): (h: Shape)
    requires xp < |stream|
    ensures 1 <= h.hlen <= 2
  {
    ReadHeader(stream[xp], if xp + 1 < |stream| then stream[xp + 1] else 0xaa)
  }

  function DecodeShaped(stream: seq<byte>, xp: nat, h: Shape): (r: Decoded)
    requires 1 <= h.hlen
    ensures r.Decoded? ==> r.op.xp == xp && 0 < r.op.len && xp + r.op.len <= |stream| && Legal(r.op.code)
    ensures !r.EndOfCode?
  {
    var len0, len1, len2 := CodeLength(h.b), CodeLength(h.c), CodeLength(h.d);
    if len0.None? || len1.None? || len2.None? then Malformed(BadImmediateLen)
    else
      var i := xp + h.hlen;
      var j := i + len0.value;
      var k := j + len1.value;
      var l := k + len2.value;
      if l > |stream| then Malformed(UnexpectedEOF)
      else DecodeFields(xp, FromNumber(h.a), stream[i..j], stream[j..k], stream[k..l], l - xp)
  }

  function DecodeFields(xp: nat, code: OpCode, f0: seq<byte>, f1: seq<byte>, f2: seq<byte>, len: nat): (r: Decoded)
    ensures r.Decoded? ==> r.op.xp == xp && r.op.len == len && Legal(r.op.code)
    ensures !r.EndOfCode?
  {
    var m := Meta(code);
    var r0, r1, r2 := DecodeImm(m.imm0, f0), DecodeImm(m.imm1, f1), DecodeImm(m.imm2, f2);
    if !Legal(code) then Malformed(UnknownOpcode)
    else if r0.err.Some? then Malformed(r0.err.value)
    else if r1.err.Some? then Malformed(r1.err.value)
    else if r2.err.Some? then Malformed(r2.err.value)
    else Decoded(Op(xp, code, r0.value, r1.value, r2.value, len))
  }

  // ---- short operands

  /** A required one-byte operand, sign-extended where the slot is signed. */
  lemma OneByteOperand(t: ImmType, b: byte)
    requires !t.ImmNone?
    ensures DecodeImm(Required(t), [b]) == ImmResult(if Signed(t) && b >= 0x80 then b + (TWO64 - 0x100) else b, None)
  {
    assert LittleEndian([b]) == b + 256 * LittleEndian([]);
    assert Pow256(1) == 256;
  }

  // ---- round trip of one instruction

  /** The value a slot reads back as after being written. */
  function ReadBack(m: ImmMeta, v: u64): (r: u64) {
    if IsPresent(m, v) then Or64(Default(m), v) else Default(m)
  }

  lemma ReadBackDecodes(m: ImmMeta, v: u64)
    ensures DecodeImm(m, EncodeImm(m, v)) == ImmResult(ReadBack(m, v), None)
  {
    if IsPresent(m, v) {
      PresentImmediateDecodes(m, v);
    }
  }

  /** A required slot of the table has default zero, so it reads back unchanged. */
  lemma RequiredReadsBack(m: ImmMeta, v: u64)
    requires m.required && !m.typ.ImmNone? && m.packedDefault == 0
    ensures ReadBack(m, v) == v
  {
  }

  lemma OneByteHeader(a: int, b: int, c: int)
    requires 0 <= a <= 7 && 0 <= b <= 3 && 0 <= c <= 3
    ensures var h := a * 0x10 + b * 4 + c; h / 0x10 == a && h / 4 % 4 == b && h % 4 == c && h < 0x80
  {
  }

  lemma TwoByteHeader(a: int, b: int, c: int, d: int)
    requires 0 <= a < 0x40 && 0 <= b <= 4 && 0 <= c <= 4 && 0 <= d <= 4
    ensures var h := 0x80 + a * 2 + b / 4; 0x80 <= h < 0x100 && h % 0x80 / 2 == a && h % 2 == b / 4
    ensures var l := b % 4 * 0x40 + c * 8 + d; l < 0x100 && l / 0x40 == b % 4 && l / 8 % 8 == c && l % 8 == d
  {
    HighByte(a, b / 4);
    LowByte(b % 4, c, d);
  }

  lemma HighByte(a: int, e: int)
    requires 0 <= a < 0x40 && 0 <= e <= 1
    ensures var h := 0x80 + a * 2 + e; 0x80 <= h < 0x100 && h % 0x80 / 2 == a && h % 2 == e
  {
    assert (0x80 + a * 2 + e) % 0x80 == a * 2 + e;
  }

  lemma LowByte(b: int, c: int, d: int)
    requires 0 <= b < 4 && 0 <= c < 8 && 0 <= d < 8
    ensures var l := b * 0x40 + c * 8 + d; l < 0x100 && l / 0x40 == b && l / 8 % 8 == c && l % 8 == d
  {
    var l := b * 0x40 + c * 8 + d;
    Eighths(b * 8 + c, d);
    Eighths(b, c);
    assert l / 0x40 == l / 8 / 8;
  }

  lemma Eighths(q: int, r: int)
    requires 0 <= r < 8
    ensures (q * 8 + r) / 8 == q && (q * 8 + r) % 8 == r
  {
  }

  lemma HeaderRoundTrip(a: byte, b: byte, c: byte, d: byte, next: byte)
    requires a < 0x40 && b <= 4 && c <= 4 && d <= 4
    ensures var s := Header(a, b, c, d);
      ReadHeader(s[0], if |s| == 2 then s[1] else next) == Shape(|s|, a, b, c, d)
      && (s[0] >= 0x80 <==> |s| == 2)
  {
    if a > 0x07 || b > 3 || c > 3 || d > 0 {
      TwoByteHeader(a, b, c, d);
    } else {
      OneByteHeader(a, b, c);
    }
  }

  lemma LengthRoundTrip(n: nat)
    requires n in {0, 1, 2, 4, 8}
    ensures CodeLength(LengthCode(n)) == Some(n) && LengthCode(n) <= 4
  {
  }

  /** What decoding gives back for an instruction encoded at address `xp`. */
  function Recovered(op: Instr, xp: nat): (r: Op)
  {
    var m := Meta(op.code);
    Op(xp, op.code, ReadBack(m.imm0, op.imm0), ReadBack(m.imm1, op.imm1), ReadBack(m.imm2, op.imm2), |EncodeOp(op)|)
  }

  /** Decoding a legal instruction inside any surrounding bytes gives it back. */
  lemma InstructionRoundTrip(pre: seq<byte>, op: Instr, post: seq<byte>)
    ensures DecodeOp(pre + EncodeOp(op) + post, |pre|) == Decoded(Recovered(op, |pre|))
  {
    var m := Meta(op.code);
    var f0, f1, f2 := Field0(op), Field1(op), Field2(op);
    FieldLength(m.imm0, op.imm0);
    FieldLength(m.imm1, op.imm1);
    FieldLength(m.imm2, op.imm2);
    ReadBackDecodes(m.imm0, op.imm0);
    ReadBackDecodes(m.imm1, op.imm1);
    ReadBackDecodes(m.imm2, op.imm2);
    DecodeLaidOut(pre, op.code, f0, f1, f2, post);
  }

  /** A header followed by three fields, wherever it stands, decodes as those fields. */
  lemma DecodeLaidOut(pre: seq<byte>, code: OpCode, f0: seq<byte>, f1: seq<byte>, f2: seq<byte>, post: seq<byte>)
    requires Legal(code)
    requires |f0| in {0, 1, 2, 4, 8} && |f1| in {0, 1, 2, 4, 8} && |f2| in {0, 1, 2, 4, 8}
    ensures LengthCode(|f0|) <= 4 && LengthCode(|f1|) <= 4 && LengthCode(|f2|) <= 4
    ensures var e := Header(Number(code), LengthCode(|f0|), LengthCode(|f1|), LengthCode(|f2|)) + f0 + f1 + f2;
      DecodeOp(pre + e + post, |pre|) == DecodeFields(|pre|, code, f0, f1, f2, |e|)
  {
    hide Header, HeaderAt, DecodeShaped, LengthCode, CodeLength, Number, FromNumber, DecodeFields;
    LengthRoundTrip(|f0|);
    LengthRoundTrip(|f1|);
    LengthRoundTrip(|f2|);
    var a, b, c, d := Number(code), LengthCode(|f0|), LengthCode(|f1|), LengthCode(|f2|);
    var h := Header(a, b, c, d);
    NumberRoundTrip(code);
    HeaderFound(pre, a, b, c, d, f0 + f1 + f2 + post);
    DecodeShapedLaidOut(pre, Shape(|h|, a, b, c, d), h, f0, f1, f2, post);
    Reassociate(pre, h, f0, f1, f2, post);
  }

  lemma Reassociate(pre: seq<byte>, h: seq<byte>, f0: seq<byte>, f1: seq<byte>, f2: seq<byte>, post: seq<byte>)
    ensures pre + h + (f0 + f1 + f2 + post) == pre + (h + f0 + f1 + f2) + post
  {
    assert h + f0 + f1 + f2 + post == h + (f0 + f1 + f2 + post);
  }

  lemma HeaderFound(pre: seq<byte>, a: byte, b: byte, c: byte, d: byte, rest: seq<byte>)
    requires a < 0x40 && b <= 4 && c <= 4 && d <= 4
    ensures 1 <= |Header(a, b, c, d)|
    ensures var h := Header(a, b, c, d);
      HeaderAt(pre + h + rest, |pre|) == Shape(|h|, a, b, c, d)
      && ((pre + h + rest)[|pre|] >= 0x80 ==> |pre| + 1 < |pre + h + rest|)
  {
    hide Header, ReadHeader;
    var h := Header(a, b, c, d);
    HeaderLength(a, b, c, d);
    var s, xp := pre + h + rest, |pre|;
    assert s[xp] == h[0];
    assert |h| == 2 ==> s[xp + 1] == h[1];
    HeaderRoundTrip(a, b, c, d, if xp + 1 < |s| then s[xp + 1] else 0xaa);
  }

  lemma DecodeShapedLaidOut(pre: seq<byte>, shape: Shape, h: seq<byte>,
                            f0: seq<byte>, f1: seq<byte>, f2: seq<byte>, post: seq<byte>)
    requires 1 <= |h| == shape.hlen
    requires CodeLength(shape.b) == Some(|f0|) && CodeLength(shape.c) == Some(|f1|) && CodeLength(shape.d) == Some(|f2|)
    ensures var e := h + f0 + f1 + f2;
      DecodeShaped(pre + e + post, |pre|, shape) == DecodeFields(|pre|, FromNumber(shape.a), f0, f1, f2, |e|)
  {
    hide CodeLength, DecodeFields, FromNumber;
    FieldSlices(pre, h, f0, f1, f2, post);
  }

  lemma NumberRoundTrip(code: OpCode)
    requires Legal(code)
    ensures FromNumber(Number(code)) == code
  {
  }

  lemma HeaderLength(a: byte, b: byte, c: byte, d: byte)
    requires a < 0x40 && b <= 4 && c <= 4 && d <= 4
    ensures 1 <= |Header(a, b, c, d)| <= 2
  {
  }

  lemma FieldSlices(pre: seq<byte>, h: seq<byte>, f0: seq<byte>, f1: seq<byte>, f2: seq<byte>, post: seq<byte>)
    ensures var s, i := pre + (h + f0 + f1 + f2) + post, |pre| + |h|;
      s[i..i + |f0|] == f0
      && s[i + |f0|..i + |f0| + |f1|] == f1
      && s[i + |f0| + |f1|..i + |f0| + |f1| + |f2|] == f2
  {
  }

  // ---- what survives a round trip

  function Reencode(op: Op): (i: Instr)
    requires Legal(op.code)
  {
    Instr(op.code, op.imm0, op.imm1, op.imm2)
  }

  /** The optional slots of the table are counts with default one; an even count loses to it. */
  predicate SlotSurvives(m: ImmMeta, v: u64) {
    if m.typ.ImmNone? then v == 0 else m.required || v % 2 == 1
  }

  lemma SlotReadsBack(m: ImmMeta, v: u64)
    requires m == Unused() || m == Required(m.typ) || m == Optional(ImmCount, 1)
    ensures ReadBack(m, v) == v <==> SlotSurvives(m, v)
  {
    OrWithOne(v);
  }

  /** An instruction decodes to itself exactly when its optional counts are odd and its unused slots zero. */
  lemma InstructionSurvives(op: Instr, xp: nat)
    ensures var m := Meta(op.code);
      Reencode(Recovered(op, xp)) == op
      <==> SlotSurvives(m.imm0, op.imm0) && SlotSurvives(m.imm1, op.imm1) && SlotSurvives(m.imm2, op.imm2)
  {
    hide EncodeOp, ReadBack, SlotSurvives;
    var m := Meta(op.code);
    SlotReadsBack(m.imm0, op.imm0);
    SlotReadsBack(m.imm1, op.imm1);
    SlotReadsBack(m.imm2, op.imm2);
  }

  // ---- re-encoding

  /** The pieces a decodable instruction is made of. */
  lemma DecodedParts(stream: seq<byte>, xp: nat) returns (h: Shape, f0: seq<byte>, f1: seq<byte>, f2: seq<byte>)
    requires DecodeOp(stream, xp).Decoded?
    ensures h == HeaderAt(stream, xp)
    ensures CodeLength(h.b) == Some(|f0|) && CodeLength(h.c) == Some(|f1|) && CodeLength(h.d) == Some(|f2|)
    ensures DecodeOp(stream, xp) == DecodeFields(xp, FromNumber(h.a), f0, f1, f2, h.hlen + |f0| + |f1| + |f2|)
  {
    hide DecodeFields, FromNumber, HeaderAt, CodeLength;
    h := HeaderAt(stream, xp);
    var i := xp + h.hlen;
    var j := i + CodeLength(h.b).value;
    var k := j + CodeLength(h.c).value;
    f0, f1, f2 := stream[i..j], stream[j..k], stream[k..k + CodeLength(h.d).value];
  }

  lemma EncodedLength(op: Instr)
    ensures |Field0(op)| in {0, 1, 2, 4, 8} && |Field1(op)| in {0, 1, 2, 4, 8} && |Field2(op)| in {0, 1, 2, 4, 8}
    ensures |EncodeOp(op)| == |Field0(op)| + |Field1(op)| + |Field2(op)|
            + |Header(Number(op.code), LengthCode(|Field0(op)|), LengthCode(|Field1(op)|), LengthCode(|Field2(op)|))|
  {
    hide EncodeImm;
    FieldLength(Meta(op.code).imm0, op.imm0);
    FieldLength(Meta(op.code).imm1, op.imm1);
    FieldLength(Meta(op.code).imm2, op.imm2);
  }

  /** Bytes that decode, re-encoded from what they decoded to, never get longer. */
  lemma ReencodingNeverGrows(stream: seq<byte>, xp: nat)
    requires DecodeOp(stream, xp).Decoded?
    ensures |EncodeOp(Reencode(DecodeOp(stream, xp).op))| <= DecodeOp(stream, xp).op.len
  {
    hide DecodeOp, EncodeOp, Field0, Field1, Field2, Header, LengthCode, HeaderAt;
    var h, f0, f1, f2 := DecodedParts(stream, xp);
    var r := Reencode(DecodeOp(stream, xp).op);
    HeaderForm(stream, xp);
    FieldsNeverGrow(xp, FromNumber(h.a), f0, f1, f2, h.hlen + |f0| + |f1| + |f2|);
    EncodedLength(r);
    HeaderNeverGrows(h.a, |Field0(r)|, |Field1(r)|, |Field2(r)|, h);
  }

  lemma HeaderForm(stream: seq<byte>, xp: nat)
    requires xp < |stream|
    ensures var h := HeaderAt(stream, xp);
      h.a < 0x40 && (h.hlen == 1 ==> h.a <= 7 && h.b <= 3 && h.c <= 3 && h.d == 0)
  {
  }

  lemma FieldsNeverGrow(xp: nat, code: OpCode, f0: seq<byte>, f1: seq<byte>, f2: seq<byte>, len: nat)
    requires |f0| in {0, 1, 2, 4, 8} && |f1| in {0, 1, 2, 4, 8} && |f2| in {0, 1, 2, 4, 8}
    requires DecodeFields(xp, code, f0, f1, f2, len).Decoded?
    ensures var r := Reencode(DecodeFields(xp, code, f0, f1, f2, len).op);
      |Field0(r)| <= |f0| && |Field1(r)| <= |f1| && |Field2(r)| <= |f2|
  {
    hide DecodeImm, EncodeImm;
    var m := Meta(code);
    ReencodingNoLonger(m.imm0, f0);
    ReencodingNoLonger(m.imm1, f1);
    ReencodingNoLonger(m.imm2, f2);
  }

  lemma HeaderNeverGrows(a: byte, n0: nat, n1: nat, n2: nat, h: Shape)
    requires a < 0x40 && a == h.a && 1 <= h.hlen <= 2
    requires h.hlen == 1 ==> a <= 7 && h.b <= 3 && h.c <= 3 && h.d == 0
    requires n0 in {0, 1, 2, 4, 8} && n1 in {0, 1, 2, 4, 8} && n2 in {0, 1, 2, 4, 8}
    requires CodeLength(h.b).Some? && CodeLength(h.c).Some? && CodeLength(h.d).Some?
    requires n0 <= CodeLength(h.b).value && n1 <= CodeLength(h.c).value && n2 <= CodeLength(h.d).value
    ensures |Header(a, LengthCode(n0), LengthCode(n1), LengthCode(n2))| <= h.hlen
  {
  }

  // ---- whole programs

  /** Legal instructions laid end to end. */
  function EncodeAll(ops: seq<Instr>): (s: seq<byte>)
  {
    if ops == [] then [] else EncodeOp(ops[0]) + EncodeAll(ops[1..])
  }

  /** The address of instruction `i`; `i == |ops|` is the end of the code. */
  function Address(ops: seq<Instr>, i: nat): (r: nat)
    requires i <= |ops|
  {
    if i == 0 then 0 else |EncodeOp(ops[0])| + Address(ops[1..], i - 1)
  }

  /** The code splits at every instruction's address. */
  lemma {:induction false} SplitAt(ops: seq<Instr>, i: nat) returns (pre: seq<byte>, post: seq<byte>)
    requires i < |ops|
    ensures EncodeAll(ops) == pre + EncodeOp(ops[i]) + post
    ensures |pre| == Address(ops, i)
    ensures Address(ops, i + 1) == Address(ops, i) + |EncodeOp(ops[i])|
  {
    hide EncodeOp;
    if i == 0 {
      pre, post := [], EncodeAll(ops[1..]);
      assert EncodeAll(ops) == [] + EncodeOp(ops[0]) + post;
    } else {
      var p;
      p, post := SplitAt(ops[1..], i - 1);
      pre := EncodeOp(ops[0]) + p;
      assert ops[1..][i - 1] == ops[i];
      assert EncodeAll(ops) == EncodeOp(ops[0]) + (p + EncodeOp(ops[i]) + post);
    }
  }

  lemma {:induction false} AddressOfEnd(ops: seq<Instr>)
    ensures Address(ops, |ops|) == |EncodeAll(ops)|
  {
    if ops != [] {
      AddressOfEnd(ops[1..]);
    }
  }

  /** At every instruction's address the decoder finds exactly that instruction; at the end, the end. */
  lemma DecodesAtEveryAddress(ops: seq<Instr>, i: nat)
    requires i <= |ops|
    ensures i < |ops| ==>
              DecodeOp(EncodeAll(ops), Address(ops, i)) == Decoded(Recovered(ops[i], Address(ops, i)))
              && Address(ops, i + 1) == Address(ops, i) + |EncodeOp(ops[i])|
    ensures i == |ops| ==> DecodeOp(EncodeAll(ops), Address(ops, i)) == EndOfCode
  {
    hide EncodeOp;
    if i < |ops| {
      var pre, post := SplitAt(ops, i);
      InstructionRoundTrip(pre, ops[i], post);
    } else {
      AddressOfEnd(ops);
    }
  }

  /** A linear sweep: decode, step over, repeat; `None` when something does not decode. */
  function Sweep(stream: seq<byte>, xp: nat): (r: Option<seq<Op>>)
    decreases |stream| - xp
  {
    match DecodeOp(stream, xp)
    case EndOfCode => Some([])
    case Malformed(_) => None
    case Decoded(op) =>
      match Sweep(stream, xp + op.len)
      case None => None
      case Some(rest) => Some([op] + rest)
  }

  function RecoveredFrom(ops: seq<Instr>, i: nat): (r: seq<Op>)
    requires i <= |ops|
    decreases |ops| - i
  {
    if i == |ops| then [] else [Recovered(ops[i], Address(ops, i))] + RecoveredFrom(ops, i + 1)
  }

  /** Sweeping a program from any instruction's address recovers the rest of its instructions, in order. */
  lemma {:induction false} SweepRecoversProgram(ops: seq<Instr>, i: nat)
    requires i <= |ops|
    ensures Sweep(EncodeAll(ops), Address(ops, i)) == Some(RecoveredFrom(ops, i))
    decreases |ops| - i
  {
    hide EncodeOp, DecodeOp, EncodeAll, Address, Sweep;
    DecodesAtEveryAddress(ops, i);
    if i < |ops| {
      SweepRecoversProgram(ops, i + 1);
      SweepStep(EncodeAll(ops), Address(ops, i), Recovered(ops[i], Address(ops, i)), RecoveredFrom(ops, i + 1));
    } else {
      SweepEnd(EncodeAll(ops), Address(ops, i));
    }
  }

  lemma SweepStep(stream: seq<byte>, xp: nat, op: Op, rest: seq<Op>)
    requires DecodeOp(stream, xp) == Decoded(op) && Sweep(stream, xp + op.len) == Some(rest)
    ensures Sweep(stream, xp) == Some([op] + rest)
  {
    hide DecodeOp;
  }

  lemma SweepEnd(stream: seq<byte>, xp: nat)
    requires DecodeOp(stream, xp) == EndOfCode
    ensures Sweep(stream, xp) == Some([])
  {
    hide DecodeOp;
  }
}
