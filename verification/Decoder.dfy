/**
  The instruction decoder as it runs: an `Op` object overwritten field by field
  (`peggyvm/op.go`), proved against the decoding function.
 */
module Decoder {
  import opened Words
  import opened Immediates
  import I = Instructions

  /** `Decode`'s error result: none, `io.EOF`, or a `DisassembleError`. */
  datatype Status = Good | EOF | Bad(err: Error)

  class Op {
    var xp: u64
    var imm0: u64
    var imm1: u64
    var imm2: u64
    var code: I.OpCode
    var len: nat

    constructor ()
    {
      xp, imm0, imm1, imm2, code, len := 0, 0, 0, 0, I.NOP, 1;
    }

    ghost function Value(): (op: I.Op)
      reads this
    {
      I.Op(xp, code, imm0, imm1, imm2, len)
    }

    /** The status and the object agree with the decoding function. */
    ghost predicate Holds(d: I.Decoded, status: Status)
      reads this
    {
      match d
      case EndOfCode => status == EOF
      case Malformed(e) => status == Bad(e)
      case Decoded(op) => status == Good && Value() == op
    }

    method Decode(stream: seq<byte>, at: u64) returns (status: Status)
      modifies this
      ensures Holds(I.DecodeOp(stream, at), status)
      ensures xp == at
      ensures status != Good && status != EOF ==> status.Bad?
    {
      xp, imm0, imm1, imm2, code, len := at, 0, 0, 0, I.NOP, 1;
      if at >= |stream| {
        return EOF;
      }
      var byte0, byte1, hasByte1 := stream[at], 0xaa, false;
      if at + 1 < |stream| {
        byte1, hasByte1 := stream[at + 1], true;
      }
      var a: byte, b: byte, c: byte, d: byte := 0, 0, 0, 0;
      if byte0 >= 0x80 {
        if !hasByte1 {
          return Bad(UnexpectedEOF);
        }
        len := 2;
        a, b, c, d := byte0 % 0x80 / 2, byte0 % 2 * 4 + byte1 / 0x40, byte1 / 8 % 8, byte1 % 8;
      } else {
        a, b, c, d := byte0 / 0x10, byte0 / 4 % 4, byte0 % 4, 0;
      }
      assert I.HeaderAt(stream, at) == I.Shape(len, a, b, c, d);
      status := DecodeBody(stream, at, a, b, c, d);
    }

    /** The part after the header: operand lengths, operands, and the verdict. */
    method DecodeBody(stream: seq<byte>, at: u64, a: byte, b: byte, c: byte, d: byte) returns (status: Status)
      requires at < |stream| && 1 <= len && xp == at
      modifies this
      ensures Holds(I.DecodeShaped(stream, at, I.Shape(old(len), a, b, c, d)), status)
      ensures xp == at && status != EOF
    {
      hide I.DecodeFields, I.FromNumber, I.CodeLength;
      var len0, len1, len2 := I.CodeLength(b), I.CodeLength(c), I.CodeLength(d);
      if len0.None? || len1.None? || len2.None? {
        return Bad(BadImmediateLen);
      }
      var i := at + len;
      var j := i + len0.value;
      var k := j + len1.value;
      var l := k + len2.value;
      len := len + len0.value + len1.value + len2.value;
      if l > |stream| {
        return Bad(UnexpectedEOF);
      }
      var opcode := I.FromNumber(a);
      status := DecodeOperands(opcode, stream[i..j], stream[j..k], stream[k..l]);
    }

    method DecodeOperands(opcode: I.OpCode, f0: seq<byte>, f1: seq<byte>, f2: seq<byte>) returns (status: Status)
      modifies this
      ensures Holds(I.DecodeFields(xp, opcode, f0, f1, f2, len), status)
      ensures xp == old(xp) && len == old(len) && status != EOF
    {
      var meta := I.Meta(opcode);
      var v0, err0 := ReadImm(meta.imm0, f0);
      var v1, err1 := ReadImm(meta.imm1, f1);
      var v2, err2 := ReadImm(meta.imm2, f2);
      code, imm0, imm1, imm2 := opcode, v0, v1, v2;
      if !I.Legal(opcode) {
        status := Bad(UnknownOpcode);
      } else if err0.Some? {
        status := Bad(err0.value);
      } else if err1.Some? {
        status := Bad(err1.value);
      } else if err2.Some? {
        status := Bad(err2.value);
      } else {
        status := Good;
      }
    }
  }
}
