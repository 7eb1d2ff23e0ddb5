/** The words of the instruction set: Decode of machine/mipssim.cc and its tables against an assembler. */
module Encodings {
  import opened Bytes
  import opened Instructions

  /** The function number of an instruction of the register format, or -1. */
  ghost function FunctOf(op: Op): (n: int)
    ensures -1 <= n < 64
  {
    match op
    case SLL => 0
    case SRL => 2
    case SRA => 3
    case SLLV => 4
    case SRLV => 6
    case SRAV => 7
    case JR => 8
    case JALR => 9
    case SYSCALL => 12
    case MFHI => 16
    case MTHI => 17
    case MFLO => 18
    case MTLO => 19
    case MULT => 24
    case MULTU => 25
    case DIV => 26
    case DIVU => 27
    case ADD => 32
    case ADDU => 33
    case SUB => 34
    case SUBU => 35
    case AND => 36
    case OR => 37
    case XOR => 38
    case NOR => 39
    case SLT => 42
    case SLTU => 43
    case _ => -1
  }

  /** The number of a branch that compares with zero, in the place of rt, or -1. */
  ghost function ConditionOf(op: Op): (n: int)
    ensures -1 <= n < 32
  {
    match op
    case BLTZ => 0
    case BGEZ => 1
    case BLTZAL => 16
    case BGEZAL => 17
    case _ => -1
  }

  /** The operation number of an instruction of the other formats, or -1. */
  ghost function CodeOf(op: Op): (n: int)
    ensures -1 <= n < 64
  {
    match op
    case J => 2
    case JAL => 3
    case BEQ => 4
    case BNE => 5
    case BLEZ => 6
    case BGTZ => 7
    case ADDI => 8
    case ADDIU => 9
    case SLTI => 10
    case SLTIU => 11
    case ANDI => 12
    case ORI => 13
    case XORI => 14
    case LUI => 15
    case LB => 32
    case LH => 33
    case LWL => 34
    case LW => 35
    case LBU => 36
    case LHU => 37
    case LWR => 38
    case SB => 40
    case SH => 41
    case SWL => 42
    case SW => 43
    case SWR => 46
    case _ => -1
  }

  ghost predicate Known(op: Op)
  {
    op != UNIMP && op != RES
  }

  /** The extra field fits the format. */
  ghost predicate Fits(i: Instr)
  {
    if FunctOf(i.op) >= 0 then 0 <= i.extra < 32
    else if i.op in {J, JAL} then 0 <= i.extra < 0x400_0000
    else -0x8000 <= i.extra < 0x8000
  }

  lemma EveryOpHasNumber(op: Op)
    ensures Known(op) <==> FunctOf(op) >= 0 || ConditionOf(op) >= 0 || CodeOf(op) >= 0
  {
  }

  ghost function Assemble(i: Instr): (w: word)
    requires Known(i.op) && Fits(i)
  {
    EveryOpHasNumber(i.op);
    if FunctOf(i.op) >= 0 then EncodeR(0, i.rs, i.rt, i.rd, i.extra, FunctOf(i.op))
    else if ConditionOf(i.op) >= 0 then EncodeI(1, i.rs, ConditionOf(i.op), i.extra)
    else if i.op in {J, JAL} then EncodeJ(CodeOf(i.op), i.extra)
    else EncodeI(CodeOf(i.op), i.rs, i.rt, i.extra)
  }

  /** The instructions agree in the fields that their format has. */
  ghost predicate SameFields(i: Instr, j: Instr)
  {
    && i.op == j.op && i.extra == j.extra
    && (i.op !in {J, JAL} ==> i.rs == j.rs)
    && (i.op !in {J, JAL} && ConditionOf(i.op) < 0 ==> i.rt == j.rt)
    && (FunctOf(i.op) >= 0 ==> i.rd == j.rd)
  }

  /** Every instruction is decoded from its word. */
  lemma DecodeAssembled(i: Instr)
    requires Known(i.op) && Fits(i)
    ensures SameFields(Decode(Assemble(i)), i)
  {
    hide Decode, EncodeR, EncodeI, EncodeJ;
    EveryOpHasNumber(i.op);
    if FunctOf(i.op) >= 0 {
      SpecialNumbered(i.op);
      DecodeR(i.rs, i.rt, i.rd, i.extra, FunctOf(i.op));
    } else if ConditionOf(i.op) >= 0 {
      ConditionNumbered(i.op);
      DecodeCondition(i.rs, ConditionOf(i.op), i.extra);
    } else if i.op in {J, JAL} {
      CodeNumbered(i.op);
      DecodeJ(CodeOf(i.op), i.extra);
    } else {
      CodeNumbered(i.op);
      DecodeI(CodeOf(i.op), i.rs, i.rt, i.extra);
    }
  }

  /** The tables give back the operation with the number. */
  lemma SpecialNumbered(op: Op)
    requires FunctOf(op) >= 0
    ensures SpecialOp(FunctOf(op)) == op
  {
  }

  lemma ConditionNumbered(op: Op)
    requires ConditionOf(op) >= 0
    ensures BranchOp(ConditionOf(op)) == op
  {
  }

  lemma CodeNumbered(op: Op)
    requires CodeOf(op) >= 0
    ensures OpInfo(CodeOf(op)) == Plain(op, if op in {J, JAL} then JFMT else IFMT)
  {
  }

  lemma DecodeCondition(rs: RegNum, condition: RegNum, imm: int)
    requires -0x8000 <= imm < 0x8000
    ensures var i := Decode(EncodeI(1, rs, condition, imm));
            i.op == BranchOp(condition) && i.rs == rs && i.extra == imm
  {
    hide OpInfo, SpecialOp, BranchOp;
    FieldsI(1, rs, condition, imm % 0x1_0000);
    assert OpInfo(1) == Bcond by { TableOne(); }
  }

  lemma TableOne()
    ensures OpInfo(1) == Bcond && OpInfo(0) == Special
  {
  }

  /** And every word that is decoded to a known instruction is the word of that instruction, bit for bit. */
  lemma AssembleDecoded(w: word)
    requires Known(Decode(w).op)
    ensures Fits(Decode(w)) && Assemble(Decode(w)) == w
  {
    hide OpInfo, SpecialOp, BranchOp, FunctOf, ConditionOf, CodeOf;
    var i, k := Decode(w), w / 0x400_0000;
    FormatBack(k);
    if OpInfo(k).Plain? {
      CodeBack(k);
    }
    SpecialBack(w % 64);
    ConditionBack(w / 0x1_0000 % 32);
    OneNumber(i.op);
    WordParts(w);
  }

  lemma SpecialBack(funct: nat)
    requires funct < 64
    ensures Known(SpecialOp(funct)) ==> FunctOf(SpecialOp(funct)) == funct
  {
  }

  lemma ConditionBack(condition: nat)
    ensures var op := BranchOp(condition); Known(op) ==> FunctOf(op) < 0 && ConditionOf(op) == condition && op !in {J, JAL}
  {
  }

  lemma CodeBack(k: nat)
    requires k < 64 && OpInfo(k).Plain? && Known(OpInfo(k).op)
    ensures CodeOf(OpInfo(k).op) == k
  {
  }

  lemma FormatBack(k: nat)
    requires k < 64
    ensures OpInfo(k).Special? <==> k == 0
    ensures OpInfo(k).Bcond? <==> k == 1
    ensures OpInfo(k).Plain? ==> OpInfo(k).format == if OpInfo(k).op in {J, JAL} then JFMT else IFMT
  {
  }

  lemma OneNumber(op: Op)
    ensures CodeOf(op) >= 0 ==> FunctOf(op) < 0 && ConditionOf(op) < 0
  {
  }

  /** A word in the fields of each format. */
  lemma WordParts(w: word)
    ensures var k, rs, rt, low := w / 0x400_0000, w / 0x20_0000 % 32, w / 0x1_0000 % 32, w % 0x1_0000;
            && w == ((k * 32 + rs) * 32 + rt) * 0x1_0000 + low
            && low == (w / 0x800 % 32 * 32 + w / 64 % 32) * 64 + w % 64
            && w == k * 0x400_0000 + w % 0x400_0000
            && Immediate(w) % 0x1_0000 == low && -0x8000 <= Immediate(w) < 0x8000
  {
    assert w / 0x1_0000 / 32 == w / 0x20_0000 && w / 0x20_0000 / 32 == w / 0x400_0000;
    assert w / 64 / 32 == w / 0x800 && w / 0x800 / 32 == w / 0x1_0000;
  }
}
