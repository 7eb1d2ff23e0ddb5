/**
 * machine/mipssim.cc (Decode and the switch of OneInstruction) and machine/mipssim.h: what
 * an instruction does to the registers, and which memory access it asks for.
 */
module Instructions {
  import opened Bytes
  import opened Words
  import opened Multiplier
  import opened Shifts

  const HI_REG := 32
  const LO_REG := 33
  const PC_REG := 34
  const NEXT_PC_REG := 35
  const PREV_PC_REG := 36
  const LOAD_REG := 37
  const LOAD_VALUE_REG := 38
  const BAD_VADDR_REG := 39
  const NUM_TOTAL_REGS := 40

  type Regs = r: seq<int32> | |r| == NUM_TOTAL_REGS witness seq<int32>(NUM_TOTAL_REGS, i => 0)
  type RegNum = n: nat | n < 32
  type Size = n: int | n == 1 || n == 2 || n == 4 witness 1

  datatype Exception = Syscall | PageFault | ReadOnly | BusError | AddressError | Overflow | IllegalInstr

  datatype Op =
    | ADD | ADDI | ADDIU | ADDU | AND | ANDI | BEQ | BGEZ | BGEZAL | BGTZ | BLEZ | BLTZ | BLTZAL | BNE
    | DIV | DIVU | J | JAL | JALR | JR | LB | LBU | LH | LHU | LUI | LW | LWL | LWR
    | MFHI | MFLO | MTHI | MTLO | MULT | MULTU | NOR | OR | ORI | SB | SH | SLL | SLLV | SLT | SLTI
    | SLTIU | SLTU | SRA | SRAV | SRL | SRLV | SUB | SUBU | SW | SWL | SWR | XOR | XORI
    | SYSCALL | UNIMP | RES

  datatype Instr = Instr(op: Op, rs: RegNum, rt: RegNum, rd: RegNum, extra: int32)

  // ----- decoding -----

  datatype Format = IFMT | JFMT | RFMT

  datatype Info = Plain(op: Op, format: Format) | Special | Bcond

  /** opTable */
  function OpInfo(k: nat): (i: Info)
    requires k < 64
  {
    match k
    case 0 => Special
    case 1 => Bcond
    case 2 => Plain(J, JFMT)
    case 3 => Plain(JAL, JFMT)
    case 4 => Plain(BEQ, IFMT)
    case 5 => Plain(BNE, IFMT)
    case 6 => Plain(BLEZ, IFMT)
    case 7 => Plain(BGTZ, IFMT)
    case 8 => Plain(ADDI, IFMT)
    case 9 => Plain(ADDIU, IFMT)
    case 10 => Plain(SLTI, IFMT)
    case 11 => Plain(SLTIU, IFMT)
    case 12 => Plain(ANDI, IFMT)
    case 13 => Plain(ORI, IFMT)
    case 14 => Plain(XORI, IFMT)
    case 15 => Plain(LUI, IFMT)
    case 32 => Plain(LB, IFMT)
    case 33 => Plain(LH, IFMT)
    case 34 => Plain(LWL, IFMT)
    case 35 => Plain(LW, IFMT)
    case 36 => Plain(LBU, IFMT)
    case 37 => Plain(LHU, IFMT)
    case 38 => Plain(LWR, IFMT)
    case 40 => Plain(SB, IFMT)
    case 41 => Plain(SH, IFMT)
    case 42 => Plain(SWL, IFMT)
    case 43 => Plain(SW, IFMT)
    case 46 => Plain(SWR, IFMT)
    case _ => Plain(if 16 <= k < 20 || 48 <= k < 52 || 56 <= k < 60 then UNIMP else RES, IFMT)
  }

  /** specialTable */
  function SpecialOp(k: nat): (op: Op)
    requires k < 64
  {
    match k
    case 0 => SLL
    case 2 => SRL
    case 3 => SRA
    case 4 => SLLV
    case 6 => SRLV
    case 7 => SRAV
    case 8 => JR
    case 9 => JALR
    case 12 => SYSCALL
    case 13 => UNIMP
    case 16 => MFHI
    case 17 => MTHI
    case 18 => MFLO
    case 19 => MTLO
    case 24 => MULT
    case 25 => MULTU
    case 26 => DIV
    case 27 => DIVU
    case 32 => ADD
    case 33 => ADDU
    case 34 => SUB
    case 35 => SUBU
    case 36 => AND
    case 37 => OR
    case 38 => XOR
    case 39 => NOR
    case 42 => SLT
    case 43 => SLTU
    case _ => RES
  }

  function BranchOp(k: nat): (op: Op)
  {
    if k == 0 then BLTZ else if k == 1 then BGEZ else if k == 16 then BLTZAL else if k == 17 then BGEZAL else UNIMP
  }

  /** The 16-bit immediate, with its sign. */
  function Immediate(w: word): (x: int32)
  {
    var low := w % 0x1_0000;
    if low >= 0x8000 then low - 0x1_0000 else low
  }

  function Decode(w: word): (i: Instr)
  {
    var rs, rt, rd := w / 0x20_0000 % 32, w / 0x1_0000 % 32, w / 0x800 % 32;
    match OpInfo(w / 0x400_0000)
    case Special => Instr(SpecialOp(w % 64), rs, rt, rd, w / 64 % 32)
    case Bcond => Instr(BranchOp(rt), rs, rt, rd, Immediate(w))
    case Plain(op, JFMT) => Instr(op, rs, rt, rd, w % 0x400_0000)
    case Plain(op, RFMT) => Instr(op, rs, rt, rd, w / 64 % 32)
    case Plain(op, IFMT) => Instr(op, rs, rt, rd, Immediate(w))
  }

  /** The word of an instruction in the register format. */
  function EncodeR(code: nat, rs: RegNum, rt: RegNum, rd: RegNum, shift: nat, funct: nat): (w: word)
    requires code < 64 && shift < 32 && funct < 64
  {
    ((((code * 32 + rs) * 32 + rt) * 32 + rd) * 32 + shift) * 64 + funct
  }

  function EncodeI(code: nat, rs: RegNum, rt: RegNum, imm: int): (w: word)
    requires code < 64 && -0x8000 <= imm < 0x8000
  {
    ((code * 32 + rs) * 32 + rt) * 0x1_0000 + imm % 0x1_0000
  }

  function EncodeJ(code: nat, target: nat): (w: word)
    requires code < 64 && target < 0x400_0000
  {
    code * 0x400_0000 + target
  }

  /** Decoding gives back the fields that were put into the word. */
  lemma DecodeR(rs: RegNum, rt: RegNum, rd: RegNum, shift: nat, funct: nat)
    requires shift < 32 && funct < 64
    ensures Decode(EncodeR(0, rs, rt, rd, shift, funct)) == Instr(SpecialOp(funct), rs, rt, rd, shift)
  {
    hide SpecialOp, BranchOp;
    var w := EncodeR(0, rs, rt, rd, shift, funct);
    assert w / 64 == ((rs * 32 + rt) * 32 + rd) * 32 + shift && w % 64 == funct;
    assert w / 64 / 32 == (rs * 32 + rt) * 32 + rd == w / 0x800;
    assert w / 0x800 / 32 == rs * 32 + rt == w / 0x1_0000;
    assert w / 0x1_0000 / 32 == rs == w / 0x20_0000;
    assert w / 0x400_0000 == 0;
  }

  lemma DecodeI(code: nat, rs: RegNum, rt: RegNum, imm: int)
    requires code < 64 && -0x8000 <= imm < 0x8000 && OpInfo(code).Plain? && OpInfo(code).format.IFMT?
    ensures var i := Decode(EncodeI(code, rs, rt, imm));
            i.op == OpInfo(code).op && i.rs == rs && i.rt == rt && i.extra == imm
  {
    hide OpInfo, SpecialOp, BranchOp;
    FieldsI(code, rs, rt, imm % 0x1_0000);
  }

  lemma FieldsI(code: nat, rs: nat, rt: nat, low: nat)
    requires code < 64 && rs < 32 && rt < 32 && low < 0x1_0000
    ensures var w := ((code * 32 + rs) * 32 + rt) * 0x1_0000 + low;
            && w % 0x1_0000 == low && w / 0x1_0000 % 32 == rt && w / 0x20_0000 % 32 == rs && w / 0x400_0000 == code
  {
    var w := ((code * 32 + rs) * 32 + rt) * 0x1_0000 + low;
    assert w / 0x1_0000 == (code * 32 + rs) * 32 + rt;
    assert w / 0x20_0000 == code * 32 + rs;
  }

  lemma DecodeJ(code: nat, target: nat)
    requires code < 64 && target < 0x400_0000 && OpInfo(code).Plain? && OpInfo(code).format.JFMT?
    ensures var i := Decode(EncodeJ(code, target)); i.op == OpInfo(code).op && i.extra == target
  {
    hide OpInfo, SpecialOp, BranchOp;
    var w := EncodeJ(code, target);
    assert w / 0x400_0000 == code && w % 0x400_0000 == target;
  }

  // ----- execution on the registers -----

  datatype Effect =
    | Done(regs: Regs, pcAfter: int32)
    | Load(op: Op, addr: int32, size: Size, rt: RegNum)
    | Store(addr: int32, size: Size, value: int32)
    | Merge(op: Op, addr: int32, value: int32)     // SWL and SWR: read the word, change it, write it back
    | Raise(e: Exception, badVAddr: int32)
    | Abort                                        // a failed assertion, or a fault of the host

  datatype Kind = Alu | Checked | Branch | Double | Memory | Kernel

  function KindOf(op: Op): (k: Kind)
  {
    match op
    case ADD => Checked
    case ADDI => Checked
    case SUB => Checked
    case BEQ => Branch
    case BGEZ => Branch
    case BGEZAL => Branch
    case BGTZ => Branch
    case BLEZ => Branch
    case BLTZ => Branch
    case BLTZAL => Branch
    case BNE => Branch
    case J => Branch
    case JAL => Branch
    case JALR => Branch
    case JR => Branch
    case DIV => Double
    case DIVU => Double
    case MULT => Double
    case MULTU => Double
    case MTHI => Double
    case MTLO => Double
    case LB => Memory
    case LBU => Memory
    case LH => Memory
    case LHU => Memory
    case LW => Memory
    case LWL => Memory
    case LWR => Memory
    case SB => Memory
    case SH => Memory
    case SW => Memory
    case SWL => Memory
    case SWR => Memory
    case SYSCALL => Kernel
    case UNIMP => Kernel
    case RES => Kernel
    case _ => Alu
  }

  function Flag(b: bool): (x: int32)
  {
    if b then 1 else 0
  }

  /** The program counter after the next instruction, unless there is a branch. */
  function PcAfter(regs: Regs): (pc: int32)
  {
    var next: int := regs[NEXT_PC_REG];
    Wrap(next + 4)
  }

  /** The instructions that only compute a value. OR reads rs twice, and SRL and SRLV shift an int. */
  function AluValue(regs: Regs, i: Instr): (x: int32)
  {
    var rs: int, rt: int, extra: int, imm: int := regs[i.rs], regs[i.rt], i.extra, i.extra % 0x1_0000;
    match i.op
    case ADDIU => Wrap(rs + extra)
    case ADDU => Wrap(rs + rt)
    case AND => And(rs, rt)
    case ANDI => And(rs, imm)
    case LUI => Wrap(extra * 0x1_0000)
    case MFHI => regs[HI_REG]
    case MFLO => regs[LO_REG]
    case NOR => Nor(rs, rt)
    case OR => Or(rs, rs)
    case ORI => Or(rs, imm)
    case SLL => Shl(rt, extra)
    case SLLV => Shl(rt, rs)
    case SLT => Flag(rs < rt)
    case SLTI => Flag(rs < extra)
    case SLTIU => Flag(Unsigned(rs) < Unsigned(extra))
    case SLTU => Flag(Unsigned(rs) < Unsigned(rt))
    case SRA => Sar(rt, extra)
    case SRAV => Sar(rt, rs)
    case SRL => Sar(rt, extra)
    case SRLV => Sar(rt, rs)
    case SUBU => Wrap(rs - rt)
    case XOR => Xor(rs, rt)
    case XORI => Xor(rs, imm)
    case _ => 0
  }

  function AluTarget(i: Instr): (r: RegNum)
  {
    match i.op
    case ADDIU => i.rt
    case ANDI => i.rt
    case LUI => i.rt
    case ORI => i.rt
    case SLTI => i.rt
    case SLTIU => i.rt
    case XORI => i.rt
    case _ => i.rd
  }

  /** `(x ^ y) & SIGN_BIT` */
  predicate SignsDiffer(x: int32, y: int32)
  {
    (x < 0) != (y < 0)
  }

  /** ADD, ADDI and SUB, with the overflow tests on the signs. */
  function CheckedSum(regs: Regs, i: Instr): (e: Effect)
  {
    var rs: int, rt: int, extra: int, pcAfter := regs[i.rs], regs[i.rt], i.extra, PcAfter(regs);
    match i.op
    case ADD =>
      var sum := Wrap(rs + rt);
      if !SignsDiffer(rs, rt) && SignsDiffer(rs, sum) then Raise(Overflow, 0) else Done(regs[i.rd := sum], pcAfter)
    case ADDI =>
      var sum := Wrap(rs + extra);
      if !SignsDiffer(rs, extra) && SignsDiffer(extra, sum) then Raise(Overflow, 0)
      else Done(regs[i.rt := sum], pcAfter)
    case _ =>
      var diff := Wrap(rs - rt);
      if SignsDiffer(rs, rt) && SignsDiffer(rs, diff) then Raise(Overflow, 0) else Done(regs[i.rd := diff], pcAfter)
  }

  /** BGEZAL, BLTZAL, JAL and JALR write the return address before anything is tested. */
  function Linked(regs: Regs, i: Instr): (r: Regs)
  {
    var link := PcAfter(regs);
    match i.op
    case BGEZAL => regs[31 := link]
    case BLTZAL => regs[31 := link]
    case JAL => regs[31 := link]
    case JALR => regs[i.rd := link]
    case _ => regs
  }

  predicate Taken(regs: Regs, i: Instr)
  {
    match i.op
    case BEQ => regs[i.rs] == regs[i.rt]
    case BNE => regs[i.rs] != regs[i.rt]
    case BGEZ => regs[i.rs] >= 0
    case BGEZAL => regs[i.rs] >= 0
    case BGTZ => regs[i.rs] > 0
    case BLEZ => regs[i.rs] <= 0
    case BLTZ => regs[i.rs] < 0
    case BLTZAL => regs[i.rs] < 0
    case _ => true
  }

  function BranchTarget(regs: Regs, i: Instr): (pc: int32)
  {
    var pcAfter, nextPc: int, offset: int := PcAfter(regs), regs[NEXT_PC_REG], i.extra;
    if i.op == JR || i.op == JALR then regs[i.rs]
    else if i.op == J || i.op == JAL then
      Signed(Unsigned(pcAfter) / 0x1000_0000 * 0x1000_0000 + i.extra % 0x400_0000 * 4)
    else if Taken(regs, i) then Wrap(nextPc + Wrap(offset * 4))
    else pcAfter
  }

  /** C++ division truncates toward zero. */
  function Quotient(a: int, b: int): (q: int)
    requires b != 0
  {
    if a >= 0 then a / b else 0 - (0 - a) / b
  }

  function Remainder(a: int, b: int): (r: int)
    requires b != 0
  {
    a - Quotient(a, b) * b
  }

  function DivLo(a: int32, b: int32): (q: int32)
    requires !(a == -0x8000_0000 && b == -1)
  {
    if b == 0 then 0 else DivisionBounds(a, b); Quotient(a, b)
  }

  function DivHi(a: int32, b: int32): (r: int32)
    requires !(a == -0x8000_0000 && b == -1)
  {
    if b == 0 then 0 else DivisionBounds(a, b); Remainder(a, b)
  }

  function DivuLo(a: int32, b: int32): (q: int32)
  {
    if b == 0 then 0 else DivisionBoundsU(Unsigned(a), Unsigned(b)); Signed(Unsigned(a) / Unsigned(b))
  }

  function DivuHi(a: int32, b: int32): (r: int32)
  {
    if b == 0 then 0 else DivisionBoundsU(Unsigned(a), Unsigned(b)); Signed(Unsigned(a) % Unsigned(b))
  }

  /** The instructions that write HI and LO; the host cannot divide the most negative int by -1. */
  function DoubleEffect(regs: Regs, i: Instr): (e: Effect)
  {
    if i.op == DIV && regs[i.rs] == -0x8000_0000 && regs[i.rt] == -1 then Abort
    else Done(regs[HI_REG := HiValue(regs, i)][LO_REG := LoValue(regs, i)], PcAfter(regs))
  }

  function HiValue(regs: Regs, i: Instr): (x: int32)
    requires !(i.op == DIV && regs[i.rs] == -0x8000_0000 && regs[i.rt] == -1)
  {
    match i.op
    case DIV => DivHi(regs[i.rs], regs[i.rt])
    case DIVU => DivuHi(regs[i.rs], regs[i.rt])
    case MULT => High(Exact(regs[i.rs], regs[i.rt], true))
    case MULTU => High(Exact(regs[i.rs], regs[i.rt], false))
    case MTHI => regs[i.rs]
    case _ => regs[HI_REG]
  }

  function LoValue(regs: Regs, i: Instr): (x: int32)
    requires !(i.op == DIV && regs[i.rs] == -0x8000_0000 && regs[i.rt] == -1)
  {
    match i.op
    case DIV => DivLo(regs[i.rs], regs[i.rt])
    case DIVU => DivuLo(regs[i.rs], regs[i.rt])
    case MULT => Low(Exact(regs[i.rs], regs[i.rt], true))
    case MULTU => Low(Exact(regs[i.rs], regs[i.rt], false))
    case MTLO => regs[i.rs]
    case _ => regs[LO_REG]
  }

  lemma DivisionBounds(a: int32, b: int32)
    requires b != 0 && !(a == -0x8000_0000 && b == -1)
    ensures -0x8000_0000 <= Quotient(a, b) < 0x8000_0000
    ensures -0x8000_0000 <= Remainder(a, b) < 0x8000_0000
  {
    DivisionLaw(a, b);
  }

  lemma DivisionBoundsU(a: word, b: word)
    requires b != 0
    ensures 0 <= a / b <= a && 0 <= a % b < b
  {
    HalfOrLess(a, b);
  }

  /** LO and HI after DIV: quotient and remainder, the remainder having the sign of the dividend. */
  lemma DivisionLaw(a: int, b: int)
    requires b != 0
    ensures Quotient(a, b) * b + Remainder(a, b) == a
    ensures if a >= 0 then 0 <= Remainder(a, b) else Remainder(a, b) <= 0
    ensures if b > 0 then -b < Remainder(a, b) < b else b < Remainder(a, b) < -b
    ensures if a >= 0 then -a <= Quotient(a, b) <= a else a <= Quotient(a, b) <= -a
    ensures b != 1 && b != -1 && a < 0 ==> Quotient(a, b) < -a
  {
    hide Quotient;
    var m: int, n: int := Absolute(a), Absolute(b);
    var q := m / n;
    HalfOrLess(m, n);
    QuotientSize(a, b);
    SignedProduct(q, n);
    assert m == q * n + m % n && 0 <= m % n < n;
    assert Quotient(a, b) * b == if a >= 0 then q * n else 0 - q * n;
  }

  function Absolute(a: int): (m: nat)
  {
    if a < 0 then 0 - a else a
  }

  lemma QuotientSize(a: int, b: int)
    requires b != 0
    ensures var q := Absolute(a) / Absolute(b); Quotient(a, b) == if (a < 0) == (b < 0) then q else 0 - q
  {
    if b < 0 {
      NegativeDivisor(Absolute(a), Absolute(b));
    }
  }

  lemma SignedProduct(q: int, n: int)
    ensures (0 - q) * n == 0 - q * n && q * (0 - n) == 0 - q * n && (0 - q) * (0 - n) == q * n
  {
  }

  lemma NegativeDivisor(m: nat, n: nat)
    requires n > 0
    ensures m / (0 - n) == 0 - m / n
  {
    assert m == (m / n) * n + m % n;
    assert (0 - m / n) * (0 - n) == (m / n) * n;
  }

  /** Loads and stores; the four partial-word instructions assert that their address is aligned. */
  function MemoryEffect(regs: Regs, i: Instr): (e: Effect)
  {
    var rs: int, extra: int := regs[i.rs], i.extra;
    var addr := Wrap(rs + extra);
    match i.op
    case LB => Load(i.op, addr, 1, i.rt)
    case LBU => Load(i.op, addr, 1, i.rt)
    case LH => if addr % 2 != 0 then Raise(AddressError, addr) else Load(i.op, addr, 2, i.rt)
    case LHU => if addr % 2 != 0 then Raise(AddressError, addr) else Load(i.op, addr, 2, i.rt)
    case LW => if addr % 4 != 0 then Raise(AddressError, addr) else Load(i.op, addr, 4, i.rt)
    case LWL => if addr % 4 != 0 then Abort else Load(i.op, addr, 4, i.rt)
    case LWR => if addr % 4 != 0 then Abort else Load(i.op, addr, 4, i.rt)
    case SB => Store(addr, 1, regs[i.rt])
    case SH => Store(addr, 2, regs[i.rt])
    case SW => Store(addr, 4, regs[i.rt])
    case _ => if addr % 4 != 0 then Abort else Merge(i.op, addr, regs[i.rt])
  }

  function Execute(regs: Regs, i: Instr): (e: Effect)
  {
    match KindOf(i.op)
    case Alu => Done(regs[AluTarget(i) := AluValue(regs, i)], PcAfter(regs))
    case Checked => CheckedSum(regs, i)
    case Branch => var linked := Linked(regs, i); Done(linked, BranchTarget(linked, i))
    case Double => DoubleEffect(regs, i)
    case Memory => MemoryEffect(regs, i)
    case Kernel => Raise(if i.op == SYSCALL then Syscall else IllegalInstr, 0)
  }

  /** What the delayed load is to put into the register, given the value read and the register's value to be. */
  function Loaded(op: Op, value: int32, before: int32): (x: int32)
  {
    match op
    case LB => if value % 0x100 >= 0x80 then value % 0x100 - 0x100 else value % 0x100
    case LBU => value % 0x100
    case LH => if value % 0x1_0000 >= 0x8000 then value % 0x1_0000 - 0x1_0000 else value % 0x1_0000
    case LHU => value % 0x1_0000
    case LWR => Or(And(before, -0x100), And(Sar(value, 24), 0xff))
    case _ => value
  }

  /** What SWL and SWR write over the aligned word that they have read. */
  function Merged(op: Op, value: int32, rt: int32): (x: int32)
  {
    if op == SWL then rt else Or(And(value, 0xff_ffff), Wrap((rt as int) * 0x100_0000))
  }

  /** Machine::DelayedLoad; the pending load goes to a general register. */
  function DelayedLoad(regs: Regs, nextReg: RegNum, nextValue: int32): (r: Regs)
    requires 0 <= regs[LOAD_REG] < 32
    ensures r[0] == 0 && r[LOAD_REG] == nextReg && r[LOAD_VALUE_REG] == nextValue
    ensures forall k | 0 < k < LOAD_REG || k == BAD_VADDR_REG :: r[k] == if k == regs[LOAD_REG] then regs[LOAD_VALUE_REG] else regs[k]
  {
    regs[regs[LOAD_REG] := regs[LOAD_VALUE_REG]][LOAD_REG := nextReg][LOAD_VALUE_REG := nextValue][0 := 0]
  }

  /** The program counters move on. */
  function Advance(regs: Regs, pcAfter: int32): (r: Regs)
  {
    regs[PREV_PC_REG := regs[PC_REG]][PC_REG := regs[NEXT_PC_REG]][NEXT_PC_REG := pcAfter]
  }

  // ----- properties -----

  /** OR copies rs; it is the bitwise or exactly when rt adds no bit to rs. */
  lemma OrIff(regs: Regs, i: Instr)
    requires i.op == OR
    ensures AluValue(regs, i) == regs[i.rs]
    ensures AluValue(regs, i) == Or(regs[i.rs], regs[i.rt]) <==> Covers(regs[i.rs], regs[i.rt])
  {
    hide Or, BitOf;
    OrAbsorbs(regs[i.rs], regs[i.rs]);
    OrAbsorbs(regs[i.rs], regs[i.rt]);
  }

  /** SRL and SRLV are the logical shift exactly when rt is not negative or is not shifted at all. */
  lemma SrlIff(regs: Regs, i: Instr)
    requires i.op == SRL || i.op == SRLV
    ensures var k: int := if i.op == SRL then i.extra else regs[i.rs];
            AluValue(regs, i) == Logical(regs[i.rt], k) <==> regs[i.rt] >= 0 || k % 32 == 0
  {
    hide Sar, Logical;
    LogicalIff(regs[i.rt], if i.op == SRL then i.extra else regs[i.rs]);
  }

  lemma LinkKeepsPc(regs: Regs, i: Instr)
    ensures PcAfter(Linked(regs, i)) == PcAfter(regs)
  {
  }

  lemma JumpRegion(after: word, target: nat)
    requires target < 0x400_0000
    ensures var w := after / 0x1000_0000 * 0x1000_0000 + target * 4;
            w < 0x1_0000_0000 && w / 0x1000_0000 == after / 0x1000_0000 && w % 0x1000_0000 == target * 4
  {
  }

  /** A jump stays in the 256-megabyte region of the instruction after it and goes to the word it names there. */
  lemma JumpTarget(regs: Regs, i: Instr)
    requires (i.op == J || i.op == JAL) && 0 <= i.extra < 0x400_0000
    ensures var pc := Unsigned(BranchTarget(Linked(regs, i), i));
            pc % 0x1000_0000 == i.extra * 4 && pc / 0x1000_0000 == Unsigned(PcAfter(regs)) / 0x1000_0000
  {
    hide Wrap, PcAfter, Linked;
    LinkKeepsPc(regs, i);
    JumpRegion(Unsigned(PcAfter(regs)), i.extra);
  }

  /** No instruction writes the program counters or the pending load by itself. */
  lemma ExecuteKeepsPipeline(regs: Regs, i: Instr, k: nat)
    requires Execute(regs, i).Done? && PC_REG <= k < NUM_TOTAL_REGS
    ensures Execute(regs, i).regs[k] == regs[k]
  {
    hide AluValue, BranchTarget, Taken, Quotient, Remainder, Exact, High, Low;
  }

  /** ADD, ADDI and SUB trap exactly when the true result is not a 32-bit int, and otherwise give it. */
  lemma OverflowIff(regs: Regs, i: Instr)
    requires KindOf(i.op) == Checked
    ensures var rs: int, rt: int, extra: int := regs[i.rs], regs[i.rt], i.extra;
            var exact := if i.op == ADD then rs + rt else if i.op == ADDI then rs + extra else rs - rt;
            var target := if i.op == ADDI then i.rt else i.rd;
            if -0x8000_0000 <= exact < 0x8000_0000
            then Execute(regs, i) == Done(regs[target := exact], PcAfter(regs))
            else Execute(regs, i) == Raise(Overflow, 0)
  {
    hide Wrap;
    WrappedSum(regs[i.rs], regs[i.rt]);
    WrappedSum(regs[i.rs], i.extra);
    WrappedDifference(regs[i.rs], regs[i.rt]);
  }

  lemma WrappedSum(a: int32, b: int32)
    ensures var exact: int := a as int + b as int;
            if -0x8000_0000 <= exact < 0x8000_0000 then Wrap(exact) == exact
            else (a < 0) == (b < 0) && (Wrap(exact) < 0) != (a < 0)
    ensures -0x8000_0000 <= a as int + b as int < 0x8000_0000 && (a < 0) == (b < 0) ==> (a as int + b as int < 0) == (a < 0)
  {
  }

  lemma WrappedDifference(a: int32, b: int32)
    ensures var exact: int := a as int - b as int;
            if -0x8000_0000 <= exact < 0x8000_0000 then Wrap(exact) == exact
            else (a < 0) != (b < 0) && (Wrap(exact) < 0) != (a < 0)
    ensures -0x8000_0000 <= a as int - b as int < 0x8000_0000 && (a < 0) != (b < 0) ==> (a as int - b as int < 0) == (a < 0)
  {
  }
}
