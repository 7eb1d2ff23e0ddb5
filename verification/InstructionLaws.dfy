/**
 * The instruction set, operation by operation: the registers, the program counters and the memory after an
 * instruction in terms of those before it, in plain arithmetic.
 */
module InstructionLaws {
  import opened Bytes
  import opened Words
  import opened Shifts
  import opened Multiplier
  import opened Instructions
  import opened Translations
  import opened Machines

  /** Equal in the low 32 bits. */
  ghost predicate Same(x: int, y: int)
  {
    (x - y) % 0x1_0000_0000 == 0
  }

  lemma WrapSame(x: int)
    ensures Same(Wrap(x), x)
  {
  }

  lemma SignedSame(w: word)
    ensures Same(Signed(w), w)
  {
  }

  /**
   * The instruction is complete: it wrote these registers, unless the load that was pending came after it, the
   * program counters moved on to `next`, and a new load is pending, or one of 0 to R0.
   */
  ghost predicate Completes(c: Cpu, o: Outcome, next: int, written: map<nat, int>, load: nat, value: int)
  {
    && o.Completed?
    && var r, r' := c.regs, o.c.regs;
       && r'[PC_REG] == r[NEXT_PC_REG] && Same(r'[NEXT_PC_REG], next) && r'[PREV_PC_REG] == r[PC_REG]
       && r'[LOAD_REG] == load && Same(r'[LOAD_VALUE_REG], value) && r'[BAD_VADDR_REG] == r[BAD_VADDR_REG]
       && r'[0] == 0
       && forall k | 0 < k < 34 ::
            if k == r[LOAD_REG] then r'[k] == r[LOAD_VALUE_REG]
            else if k in written then Same(r'[k], written[k]) else r'[k] == r[k]
  }

  /** An instruction on registers: it goes on at `next` and neither touches memory nor loads. */
  ghost predicate Goes(c: Cpu, o: Outcome, next: int, written: map<nat, int>)
  {
    Completes(c, o, next, written, 0, 0) && o.c.mem == c.mem && o.c.mmu == c.mmu
  }

  /** The value of a register, as a number. */
  ghost function Val(c: Cpu, k: nat): (x: int)
    requires k < NUM_TOTAL_REGS
  {
    c.regs[k]
  }

  /** The address after the next instruction, before it is cut off at 32 bits. */
  ghost function Following(c: Cpu): (pc: int)
  {
    Val(c, NEXT_PC_REG) + 4
  }

  /** It writes one register and does not branch. */
  ghost predicate Writes(c: Cpu, o: Outcome, k: nat, x: int)
  {
    Goes(c, o, Following(c), map[k := x])
  }

  ghost predicate Traps(c: Cpu, o: Outcome, e: Exception, badVAddr: int32)
    requires Sound(c)
  {
    && o.Trap? && o.e == e && o.c.regs[BAD_VADDR_REG] == badVAddr
    && Retired(c.regs, o.c.regs) && o.c.mem == c.mem && SameMap(c.mmu, o.c.mmu)
  }

  lemma DoneGoes(c: Cpu, i: Instr, next: int, written: map<nat, int>)
    requires Sound(c) && Execute(c.regs, i).Done? && Same(Execute(c.regs, i).pcAfter, next)
    requires forall k | 0 < k < 34 ::
      if k in written then Same(Execute(c.regs, i).regs[k], written[k]) else Execute(c.regs, i).regs[k] == c.regs[k]
    ensures Goes(c, Apply(c, i), next, written)
  {
    hide Execute, Same;
    forall k | PC_REG <= k < NUM_TOTAL_REGS
      ensures Execute(c.regs, i).regs[k] == c.regs[k]
    {
      ExecuteKeepsPipeline(c.regs, i, k);
    }
    ItselfSame(0);
  }

  // ----- branches and jumps -----

  /** The low 32 bits are a negative int. */
  ghost predicate Negative(x: int)
  {
    x % 0x1_0000_0000 >= 0x8000_0000
  }

  /** Where a conditional branch goes: by `extra` words from the next instruction, or to the one after it. */
  ghost function Target(c: Cpu, i: Instr, taken: bool): (next: int)
  {
    Val(c, NEXT_PC_REG) + 4 * if taken then i.extra as int else 1
  }

  lemma BranchExecutes(regs: Regs, i: Instr)
    requires KindOf(i.op) == Branch
    ensures Execute(regs, i) == Done(Linked(regs, i), BranchTarget(Linked(regs, i), i))
  {
  }

  /** A conditional branch is taken exactly on its condition. */
  lemma BranchLaw(c: Cpu, i: Instr)
    requires Sound(c)
    ensures var o, rs, rt := Apply(c, i), Val(c, i.rs), Val(c, i.rt);
            match i.op
            case BEQ => Goes(c, o, Target(c, i, rs == rt), map[])
            case BNE => Goes(c, o, Target(c, i, rs != rt), map[])
            case BGEZ => Goes(c, o, Target(c, i, rs >= 0), map[])
            case BGTZ => Goes(c, o, Target(c, i, rs > 0), map[])
            case BLEZ => Goes(c, o, Target(c, i, rs <= 0), map[])
            case BLTZ => Goes(c, o, Target(c, i, rs < 0), map[])
            case _ => true
  {
    hide Apply, Execute, Goes, Same, BranchTarget;
    if i.op in {BEQ, BNE, BGEZ, BGTZ, BLEZ, BLTZ} {
      BranchExecutes(c.regs, i);
      BranchedTo(c.regs, i);
      DoneGoes(c, i, Target(c, i, Taken(c.regs, i)), map[]);
    }
  }

  lemma BranchedTo(regs: Regs, i: Instr)
    requires KindOf(i.op) == Branch && i.op !in {J, JAL, JR, JALR}
    ensures Same(BranchTarget(regs, i), regs[NEXT_PC_REG] as int + 4 * if Taken(regs, i) then i.extra as int else 1)
  {
    hide Wrap, Taken, Same;
    var next: int, extra: int := regs[NEXT_PC_REG], i.extra;
    WrapSame(next + 4);
    WrapSame(extra * 4);
    WrapSame(next + Wrap(extra * 4));
    SameSum(Wrap(next + Wrap(extra * 4)), next, Wrap(extra * 4), extra * 4);
  }

  lemma SameSum(x: int, a: int, b: int, c: int)
    requires Same(x, a + b) && Same(b, c)
    ensures Same(x, a + c)
  {
  }

  /** A branch with link writes R31 first, so that its condition on R31 is one on the return address. */
  lemma LinkLaw(c: Cpu, i: Instr)
    requires Sound(c)
    ensures var o, link := Apply(c, i), Following(c);
            var rs := if i.rs == 31 then link else Val(c, i.rs);
            match i.op
            case BGEZAL => Goes(c, o, Target(c, i, !Negative(rs)), map[31 := link])
            case BLTZAL => Goes(c, o, Target(c, i, Negative(rs)), map[31 := link])
            case _ => true
  {
    hide Apply, Execute, Goes, Same, BranchTarget, Wrap;
    if i.op in {BGEZAL, BLTZAL} {
      BranchExecutes(c.regs, i);
      var linked := Linked(c.regs, i);
      BranchedTo(linked, i);
      WrapSame(Following(c));
      Signs(Following(c));
      Signs(Val(c, i.rs));
      DoneGoes(c, i, Target(c, i, Taken(linked, i)), map[31 := Following(c)]);
    }
  }

  lemma Signs(x: int)
    ensures Wrap(x) < 0 <==> Negative(x)
    ensures -0x8000_0000 <= x < 0x8000_0000 ==> Wrap(x) == x
  {
  }

  /** The address of word `extra` in the 256-megabyte region of the address x. */
  ghost function InRegion(x: int, extra: int): (next: int)
  {
    x % 0x1_0000_0000 / 0x1000_0000 * 0x1000_0000 + extra * 4
  }

  /** Jumps to a named word or through a register; JALR links first. */
  lemma JumpLaw(c: Cpu, i: Instr)
    requires Sound(c) && (i.op in {J, JAL} ==> 0 <= i.extra < 0x400_0000)
    ensures var o, link := Apply(c, i), Following(c);
            match i.op
            case J => Goes(c, o, InRegion(link, i.extra), map[])
            case JAL => Goes(c, o, InRegion(link, i.extra), map[31 := link])
            case JR => Goes(c, o, Val(c, i.rs), map[])
            case JALR => Goes(c, o, if i.rs == i.rd then link else Val(c, i.rs), map[i.rd := link])
            case _ => true
  {
    hide Apply, Execute, Goes, Same, Wrap;
    if i.op in {J, JAL, JR, JALR} {
      BranchExecutes(c.regs, i);
      var link := Following(c);
      WrapSame(link);
      ItselfSame(Val(c, i.rs));
      if i.op in {J, JAL} {
        JumpsTo(c, i);
        DoneGoes(c, i, InRegion(link, i.extra), if i.op == J then map[] else map[31 := link]);
      } else if i.op == JR {
        DoneGoes(c, i, Val(c, i.rs), map[]);
      } else {
        DoneGoes(c, i, if i.rs == i.rd then link else Val(c, i.rs), map[i.rd := link]);
      }
    }
  }

  lemma ItselfSame(x: int)
    ensures Same(x, x)
  {
  }

  lemma JumpsTo(c: Cpu, i: Instr)
    requires i.op in {J, JAL} && 0 <= i.extra < 0x400_0000
    ensures Same(BranchTarget(Linked(c.regs, i), i), InRegion(Following(c), i.extra))
  {
    hide Wrap, Linked, Same, Signed;
    LinkKeepsPc(c.regs, i);
    UnsignedWrap(Following(c));
    var w, n: int := Following(c) % 0x1_0000_0000, i.extra;
    assert n % 0x400_0000 == n;
    JumpRegion(w, n);
    SignedSame(w / 0x1000_0000 * 0x1000_0000 + n * 4);
  }

  // ----- values -----

  ghost function Flagged(b: bool): (x: int)
  {
    if b then 1 else 0
  }

  lemma AluWrites(c: Cpu, i: Instr, x: int)
    requires Sound(c) && KindOf(i.op) == Alu && Same(AluValue(c.regs, i), x)
    ensures Writes(c, Apply(c, i), AluTarget(i), x)
  {
    hide Apply, AluValue, AluTarget, Wrap, Same, Goes;
    WrapSame(Following(c));
    DoneGoes(c, i, Following(c), map[AluTarget(i) := x]);
  }

  /** Sums and differences modulo 2^32, comparisons signed and unsigned, and copies. */
  lemma ArithmeticLaw(c: Cpu, i: Instr)
    requires Sound(c)
    ensures var o, rs, rt, extra: int := Apply(c, i), Val(c, i.rs), Val(c, i.rt), i.extra;
            match i.op
            case ADDU => Writes(c, o, i.rd, rs + rt)
            case ADDIU => Writes(c, o, i.rt, rs + extra)
            case SUBU => Writes(c, o, i.rd, rs - rt)
            case LUI => Writes(c, o, i.rt, extra * 0x1_0000)
            case SLT => Writes(c, o, i.rd, Flagged(rs < rt))
            case SLTI => Writes(c, o, i.rt, Flagged(rs < extra))
            case SLTU => Writes(c, o, i.rd, Flagged(rs % 0x1_0000_0000 < rt % 0x1_0000_0000))
            case SLTIU => Writes(c, o, i.rt, Flagged(rs % 0x1_0000_0000 < extra % 0x1_0000_0000))
            case MFHI => Writes(c, o, i.rd, Val(c, HI_REG))
            case MFLO => Writes(c, o, i.rd, Val(c, LO_REG))
            case OR => Writes(c, o, i.rd, rs)
            case _ => true
  {
    if i.op in {ADDU, ADDIU, SUBU, LUI, SLT, SLTI, SLTU, SLTIU, MFHI, MFLO, OR} {
      var x := Arithmetic(c, i);
      hide Apply, Writes, AluValue;
      AluWrites(c, i, x);
    }
  }

  lemma Arithmetic(c: Cpu, i: Instr) returns (x: int)
    requires i.op in {ADDU, ADDIU, SUBU, LUI, SLT, SLTI, SLTU, SLTIU, MFHI, MFLO, OR}
    ensures Same(AluValue(c.regs, i), x)
    ensures var rs, rt, extra: int := Val(c, i.rs), Val(c, i.rt), i.extra;
            x == match i.op
                 case ADDU => rs + rt
                 case ADDIU => rs + extra
                 case SUBU => rs - rt
                 case LUI => extra * 0x1_0000
                 case SLT => Flagged(rs < rt)
                 case SLTI => Flagged(rs < extra)
                 case SLTU => Flagged(rs % 0x1_0000_0000 < rt % 0x1_0000_0000)
                 case SLTIU => Flagged(rs % 0x1_0000_0000 < extra % 0x1_0000_0000)
                 case MFHI => Val(c, HI_REG)
                 case MFLO => Val(c, LO_REG)
                 case _ => rs
  {
    hide Wrap, Same, Or;
    var rs, rt, extra: int := Val(c, i.rs), Val(c, i.rt), i.extra;
    x := match i.op
      case ADDU => rs + rt
      case ADDIU => rs + extra
      case SUBU => rs - rt
      case LUI => extra * 0x1_0000
      case SLT => Flagged(rs < rt)
      case SLTI => Flagged(rs < extra)
      case SLTU => Flagged(rs % 0x1_0000_0000 < rt % 0x1_0000_0000)
      case SLTIU => Flagged(rs % 0x1_0000_0000 < extra % 0x1_0000_0000)
      case MFHI => Val(c, HI_REG)
      case MFLO => Val(c, LO_REG)
      case _ => rs;
    WrapSame(x);
    ItselfSame(x);
    UnsignedIs(c.regs[i.rs]);
    UnsignedIs(c.regs[i.rt]);
    UnsignedIs(i.extra);
    if i.op == OR {
      OrIff(c.regs, i);
    }
  }

  lemma UnsignedIs(x: int32)
    ensures Unsigned(x) == x % 0x1_0000_0000
  {
  }

  /** Bit k of a number's low 32 bits. */
  ghost predicate Bit(x: int32, k: nat)
  {
    BitOf(Unsigned(x), k)
  }

  ghost predicate Combined(op: Op, a: bool, b: bool)
  {
    if op in {AND, ANDI} then a && b else if op == ORI then a || b else if op == NOR then !(a || b) else a != b
  }

  /** The logical operations, bit by bit; an immediate operand has 16 bits. */
  lemma LogicLaw(c: Cpu, i: Instr) returns (x: int32)
    requires Sound(c) && i.op in {AND, NOR, XOR, ANDI, ORI, XORI}
    ensures Writes(c, Apply(c, i), if i.op in {AND, NOR, XOR} then i.rd else i.rt, x)
    ensures var y: int32 := if i.op in {AND, NOR, XOR} then c.regs[i.rt] else i.extra % 0x1_0000;
            forall k | 0 <= k < 32 :: Bit(x, k) <==> Combined(i.op, Bit(c.regs[i.rs], k), Bit(y, k))
  {
    hide Apply, Writes, Same, And, Or, Xor, Nor, BitOf;
    x := AluValue(c.regs, i);
    ItselfSame(x);
    AluWrites(c, i, x);
    var y: int32 := if i.op in {AND, NOR, XOR} then c.regs[i.rt] else i.extra % 0x1_0000;
    forall k | 0 <= k < 32
      ensures Bit(x, k) <==> Combined(i.op, Bit(c.regs[i.rs], k), Bit(y, k))
    {
      LogicBits(c.regs[i.rs], y, k);
    }
  }

  /** The shifts, bit by bit: all those to the right repeat the sign. */
  lemma ShiftLaw(c: Cpu, i: Instr) returns (x: int32)
    requires Sound(c) && i.op in {SLL, SLLV, SRA, SRAV, SRL, SRLV}
    ensures Writes(c, Apply(c, i), i.rd, x)
    ensures var n := (if i.op in {SLL, SRA, SRL} then i.extra else c.regs[i.rs]) % 32;
            forall k | 0 <= k < 32 ::
              Bit(x, k) <==> if i.op in {SLL, SLLV} then k >= n && Bit(c.regs[i.rt], k - n)
                             else Bit(c.regs[i.rt], if k + n < 32 then k + n else 31)
  {
    hide Apply, Writes, Same, Shl, Sar, BitOf;
    x := AluValue(c.regs, i);
    ItselfSame(x);
    AluWrites(c, i, x);
    var n := if i.op in {SLL, SRA, SRL} then i.extra else c.regs[i.rs];
    SameAmount(c.regs[i.rt], n);
    forall k | 0 <= k < 32
      ensures Bit(x, k) <==> if i.op in {SLL, SLLV} then k >= n % 32 && Bit(c.regs[i.rt], k - n % 32)
                             else Bit(c.regs[i.rt], if k + n % 32 < 32 then k + n % 32 else 31)
    {
      ShlBits(c.regs[i.rt], n, k);
      SarBits(c.regs[i.rt], n % 32, k);
    }
  }

  lemma RaiseTraps(c: Cpu, i: Instr)
    requires Sound(c) && Execute(c.regs, i).Raise?
    ensures Traps(c, Apply(c, i), Execute(c.regs, i).e, Execute(c.regs, i).badVAddr)
  {
    hide Execute;
  }

  /** ADD, ADDI and SUB give the exact result, or trap when it is not an int. */
  lemma CheckedLaw(c: Cpu, i: Instr)
    requires Sound(c) && i.op in {ADD, ADDI, SUB}
    ensures var rs, rt, extra: int := Val(c, i.rs), Val(c, i.rt), i.extra;
            var x := if i.op == ADD then rs + rt else if i.op == ADDI then rs + extra else rs - rt;
            if -0x8000_0000 <= x < 0x8000_0000 then Writes(c, Apply(c, i), if i.op == ADDI then i.rt else i.rd, x)
            else Traps(c, Apply(c, i), Overflow, 0)
  {
    hide Execute, Apply, Wrap, Same, Goes, Traps;
    OverflowIff(c.regs, i);
    WrapSame(Following(c));
    var e := Execute(c.regs, i);
    if e.Raise? {
      RaiseTraps(c, i);
    } else {
      var k, x := if i.op == ADDI then i.rt else i.rd, e.regs[if i.op == ADDI then i.rt else i.rd];
      ItselfSame(x);
      DoneGoes(c, i, Following(c), map[k := x]);
    }
  }

  // ----- HI and LO -----

  lemma DoubleGoes(c: Cpu, i: Instr, hi: int, lo: int)
    requires Sound(c) && DoubleEffect(c.regs, i).Done? && KindOf(i.op) == Double
    requires Same(HiValue(c.regs, i), hi) && Same(LoValue(c.regs, i), lo)
    ensures Goes(c, Apply(c, i), Following(c), map[HI_REG := hi, LO_REG := lo])
  {
    hide Apply, Wrap, Same, Goes, HiValue, LoValue;
    WrapSame(Following(c));
    DoneGoes(c, i, Following(c), map[HI_REG := hi, LO_REG := lo]);
  }

  /** MTHI and MTLO copy rs; what MFHI or MFLO then gives is rs. */
  lemma MoveLaw(c: Cpu, i: Instr)
    requires Sound(c) && i.op in {MTHI, MTLO}
    ensures Goes(c, Apply(c, i), Following(c),
              if i.op == MTHI then map[HI_REG := Val(c, i.rs), LO_REG := Val(c, LO_REG)]
              else map[HI_REG := Val(c, HI_REG), LO_REG := Val(c, i.rs)])
  {
    hide Apply, Goes, Same;
    ItselfSame(Val(c, i.rs));
    ItselfSame(Val(c, HI_REG));
    ItselfSame(Val(c, LO_REG));
    DoubleGoes(c, i, HiValue(c.regs, i), LoValue(c.regs, i));
  }

  /** HI and LO together hold the exact product. */
  lemma ProductLaw(c: Cpu, i: Instr) returns (hi: int, lo: word)
    requires Sound(c) && i.op in {MULT, MULTU}
    ensures hi * 0x1_0000_0000 + lo == if i.op == MULT then Val(c, i.rs) * Val(c, i.rt)
                                       else Val(c, i.rs) % 0x1_0000_0000 * (Val(c, i.rt) % 0x1_0000_0000)
    ensures Goes(c, Apply(c, i), Following(c), map[HI_REG := hi, LO_REG := lo])
  {
    hide Apply, Goes, Same, Wrap;
    UnsignedIs(c.regs[i.rs]);
    UnsignedIs(c.regs[i.rt]);
    var p := Exact(c.regs[i.rs], c.regs[i.rt], i.op == MULT);
    hi, lo := p / 0x1_0000_0000, p % 0x1_0000_0000;
    WrapSame(hi);
    LowSame(p);
    DoubleGoes(c, i, hi, lo);
  }

  lemma LowSame(p: int)
    ensures Same(Wrap(p), p % 0x1_0000_0000)
  {
  }

  /** q and r are quotient and remainder of a by b, rounded toward zero; both are 0 when b is. */
  ghost predicate Divided(a: int, b: int, q: int, r: int)
  {
    if b == 0 then q == 0 && r == 0
    else a == q * b + r && (if b > 0 then -b < r < b else b < r < -b) && (if a >= 0 then r >= 0 else r <= 0)
  }

  /** LO and HI are quotient and remainder of rs by rt; the host fails for the most negative int by -1. */
  lemma QuotientLaw(c: Cpu, i: Instr) returns (q: int, r: int)
    requires Sound(c) && i.op == DIV
    ensures Divided(Val(c, i.rs), Val(c, i.rt), q, r)
    ensures if Val(c, i.rs) == -0x8000_0000 && Val(c, i.rt) == -1 then Apply(c, i).Aborted?
            else Goes(c, Apply(c, i), Following(c), map[HI_REG := r, LO_REG := q])
  {
    hide Apply, Goes, Same, Quotient, Remainder;
    var x, y := c.regs[i.rs], c.regs[i.rt];
    q, r := 0, 0;
    if y != 0 {
      DivisionLaw(x, y);
      q, r := Quotient(x, y), Remainder(x, y);
    }
    ItselfSame(q);
    ItselfSame(r);
    if x == -0x8000_0000 && y == -1 {
      HostFails(c, i);
    } else {
      DoubleGoes(c, i, r, q);
    }
  }

  /** The same for the unsigned numbers. */
  lemma UnsignedQuotientLaw(c: Cpu, i: Instr) returns (q: int, r: int)
    requires Sound(c) && i.op == DIVU
    ensures Divided(Val(c, i.rs) % 0x1_0000_0000, Val(c, i.rt) % 0x1_0000_0000, q, r)
    ensures Goes(c, Apply(c, i), Following(c), map[HI_REG := r, LO_REG := q])
  {
    hide Apply, Goes, Same, DivuLo, DivuHi, Divided;
    UnsignedIs(c.regs[i.rs]);
    UnsignedIs(c.regs[i.rt]);
    q, r := DividedUnsigned(c.regs[i.rs], c.regs[i.rt]);
    DoubleGoes(c, i, r, q);
  }

  lemma DividedUnsigned(a: int32, b: int32) returns (q: int, r: int)
    ensures Divided(Unsigned(a), Unsigned(b), q, r)
    ensures Same(DivuLo(a, b), q) && Same(DivuHi(a, b), r)
  {
    hide Same, Signed;
    var x, y := Unsigned(a), Unsigned(b);
    ItselfSame(0);
    if b == 0 {
      return 0, 0;
    }
    DivisionBoundsU(x, y);
    q, r := x / y, x % y;
    SignedSame(q);
    SignedSame(r);
  }

  lemma HostFails(c: Cpu, i: Instr)
    requires Sound(c) && i.op == DIV && c.regs[i.rs] == -0x8000_0000 && c.regs[i.rt] == -1
    ensures Apply(c, i).Aborted?
  {
  }

  /** System calls and unknown instructions trap to the kernel. */
  lemma KernelLaw(c: Cpu, i: Instr)
    requires Sound(c) && i.op in {SYSCALL, UNIMP, RES}
    ensures Traps(c, Apply(c, i), if i.op == SYSCALL then Syscall else IllegalInstr, 0)
  {
    hide Apply, Traps;
    RaiseTraps(c, i);
  }

  // ----- loads and stores -----

  /** The number whose bytes, least significant first, stand at the address. */
  ghost function Number(mem: Memory, pa: nat, size: Size): (x: int)
    requires pa + size <= MEMORY_SIZE
  {
    mem[pa]
      + (if size >= 2 then 0x100 * mem[pa + 1] as int else 0)
      + (if size == 4 then 0x1_0000 * mem[pa + 2] as int + 0x100_0000 * mem[pa + 3] as int else 0)
  }

  ghost function Width(op: Op): (size: Size)
  {
    if op in {LB, LBU, SB} then 1 else if op in {LH, LHU, SH} then 2 else 4
  }

  /** What a load makes of the bytes at the address: with the sign, without it, or, for LWR, the last byte only. */
  ghost predicate Extended(op: Op, mem: Memory, pa: nat, before: int32, x: int32)
    requires pa + Width(op) <= MEMORY_SIZE
  {
    var n := Number(mem, pa, Width(op));
    match op
    case LB => x == if n >= 0x80 then n - 0x100 else n
    case LBU => x == n
    case LH => x == if n >= 0x8000 then n - 0x1_0000 else n
    case LHU => x == n
    case LWR => forall k | 0 <= k < 32 :: Bit(x, k) <==> if k < 8 then BitOf(n, k + 24) else Bit(before, k)
    case _ => Same(x, n)
  }

  /** An access that the processor refuses before it looks at the mapping. */
  ghost predicate Refused(c: Cpu, o: Outcome, op: Op, a: int32)
    requires Sound(c)
  {
    if op in {LWL, LWR, SWL, SWR} then o.Aborted? else Traps(c, o, AddressError, a)
  }

  /** What a load of rt would have found in it. */
  ghost function Before(c: Cpu, rt: RegNum): (x: int32)
  {
    if c.regs[LOAD_REG] == rt then c.regs[LOAD_VALUE_REG] else c.regs[rt]
  }

  /** Loads: from rs + extra, of their size, to rt one instruction later. */
  lemma LoadLaw(c: Cpu, i: Instr) returns (a: int32, x: int32)
    requires Sound(c) && i.op in {LB, LBU, LH, LHU, LW, LWL, LWR}
    ensures Same(a, Val(c, i.rs) + i.extra)
    ensures var o, size := Apply(c, i), Width(i.op);
            if a % size != 0 then Refused(c, o, i.op, a)
            else match Translate(c.mmu, a, size, false)
                 case Fault(e) => Traps(c, o, e, a)
                 case Physical(pa, entry) =>
                   && Completes(c, o, Following(c), map[], i.rt, x)
                   && o.c.mem == c.mem && o.c.mmu == Touch(c.mmu, entry, false)
                   && pa + size <= MEMORY_SIZE && Extended(i.op, c.mem, pa, Before(c, i.rt), x)
  {
    hide Apply, DoLoad, Completes, Extended, Traps, Translate, Wrap, Same;
    a := Wrap(Val(c, i.rs) + i.extra);
    WrapSame(Val(c, i.rs) + i.extra);
    x := 0;
    LoadEffect(c.regs, i, a);
    if a % Width(i.op) != 0 {
      if i.op in {LWL, LWR} {
        AbortAborts(c, i);
      } else {
        RaiseTraps(c, i);
      }
    } else {
      ApplyLoads(c, i);
      x := LoadsFrom(c, i.op, a, i.rt);
    }
  }

  lemma LoadEffect(regs: Regs, i: Instr, a: int32)
    requires i.op in {LB, LBU, LH, LHU, LW, LWL, LWR} && a == Wrap(regs[i.rs] as int + i.extra)
    ensures Execute(regs, i) == if a % Width(i.op) == 0 then Load(i.op, a, Width(i.op), i.rt)
                                else if i.op in {LWL, LWR} then Abort else Raise(AddressError, a)
  {
    hide Wrap;
  }

  lemma AbortAborts(c: Cpu, i: Instr)
    requires Sound(c) && Execute(c.regs, i) == Abort
    ensures Apply(c, i).Aborted?
  {
    hide Execute;
  }

  lemma ApplyLoads(c: Cpu, i: Instr)
    requires Sound(c) && Execute(c.regs, i).Load?
    ensures var e := Execute(c.regs, i); Apply(c, i) == DoLoad(c, e.op, e.addr, e.size, e.rt)
  {
    hide Execute, DoLoad;
  }

  lemma LoadsFrom(c: Cpu, op: Op, a: int32, rt: RegNum) returns (x: int32)
    requires Sound(c) && op in {LB, LBU, LH, LHU, LW, LWL, LWR}
    ensures var o, size := DoLoad(c, op, a, Width(op), rt), Width(op);
            match Translate(c.mmu, a, size, false)
            case Fault(e) => Traps(c, o, e, a)
            case Physical(pa, entry) =>
              && Completes(c, o, Following(c), map[], rt, x)
              && o.c.mem == c.mem && o.c.mmu == Touch(c.mmu, entry, false)
              && pa + size <= MEMORY_SIZE && Extended(op, c.mem, pa, Before(c, rt), x)
  {
    hide Translate, Fetch, Extended, Loaded, Same, Wrap;
    x := 0;
    var t := Translate(c.mmu, a, Width(op), false);
    if t.Physical? {
      InsideFrame(c.mmu, a, Width(op), false);
      x := Loaded(op, Fetch(c.mem, t.addr, Width(op)), Before(c, rt));
      ItselfSame(x);
      WrapSame(Following(c));
      LoadedExtends(op, c.mem, t.addr, Before(c, rt));
    }
  }

  lemma LoadedExtends(op: Op, mem: Memory, pa: nat, before: int32)
    requires op in {LB, LBU, LH, LHU, LW, LWL, LWR} && pa + Width(op) <= MEMORY_SIZE
    ensures Extended(op, mem, pa, before, Loaded(op, Fetch(mem, pa, Width(op)), before))
  {
    hide And, Or, Sar, Same, BitOf;
    if Width(op) == 4 {
      NumberSame(mem, pa);
      forall k | 0 <= k < 32
        ensures op == LWR ==> (Bit(Loaded(op, Fetch(mem, pa, 4), before), k)
                          <==> if k < 8 then BitOf(Number(mem, pa, 4), k + 24) else Bit(before, k))
      {
        LastByte(Fetch(mem, pa, 4), before, k);
      }
    }
  }

  lemma NumberSame(mem: Memory, pa: nat)
    requires pa + 4 <= MEMORY_SIZE
    ensures Same(Fetch(mem, pa, 4), Number(mem, pa, 4))
    ensures Unsigned(Fetch(mem, pa, 4)) == Number(mem, pa, 4)
  {
    var s := mem[pa..pa + 4];
    assert s[0] == mem[pa] && s[1] == mem[pa + 1] && s[2] == mem[pa + 2] && s[3] == mem[pa + 3];
  }

  lemma {:induction false} Ones(n: nat, k: nat)
    ensures BitOf(Pow2(n) - 1, k) <==> k < n
  {
    if n > 0 {
      assert (Pow2(n) - 1) / 2 == Pow2(n - 1) - 1 && (Pow2(n) - 1) % 2 == 1;
      if k > 0 {
        Ones(n - 1, k - 1);
      }
    } else if k > 0 {
      Ones(0, k - 1);
    }
  }

  /** The masks of LWR and SWR. */
  lemma MaskBits(k: nat)
    requires k < 32
    ensures Bit(0xff, k) <==> k < 8
    ensures Bit(-0x100, k) <==> k >= 8
    ensures Bit(0xff_ffff, k) <==> k < 24
  {
    hide BitOf;
    Ones(8, k);
    Ones(24, k);
    Powers();
    TimesPower(0xff_ffff, 8, k);
    if k >= 8 {
      Ones(24, k - 8);
    }
  }

  lemma Powers()
    ensures Pow2(8) == 0x100 && Pow2(24) == 0x100_0000
  {
    assert Pow2(4) == 16;
    assert Pow2(12) == 0x1000;
    assert Pow2(16) == 0x1_0000;
    assert Pow2(20) == 0x10_0000;
  }

  lemma LastByte(v: int32, before: int32, k: nat)
    requires k < 32
    ensures Bit(Loaded(LWR, v, before), k) <==> if k < 8 then Bit(v, k + 24) else Bit(before, k)
  {
    hide And, Or, Sar, BitOf;
    var high, low := And(before, -0x100), And(Sar(v, 24), 0xff);
    LogicBits(high, low, k);
    LogicBits(before, -0x100, k);
    LogicBits(Sar(v, 24), 0xff, k);
    MaskBits(k);
    SarBits(v, 24, k);
  }

  // ----- stores -----

  /** Byte k of a number. */
  ghost function ByteOf(x: int, k: nat): (b: int)
  {
    (if k == 0 then x else if k == 1 then x / 0x100 else if k == 2 then x / 0x1_0000 else x / 0x100_0000) % 0x100
  }

  /** The low bytes of x stand at the address, and every other byte is as it was. */
  ghost predicate Stored(mem: Memory, mem': Memory, pa: nat, size: Size, x: int)
  {
    && pa + size <= MEMORY_SIZE
    && forall k | 0 <= k < MEMORY_SIZE :: mem'[k] == if pa <= k < pa + size then ByteOf(x, k - pa) else mem[k]
  }

  /** What is stored: rt, but for SWR, which puts its last byte over the last byte of the word. */
  ghost predicate Written(op: Op, mem: Memory, pa: nat, rt: int32, x: int32)
    requires pa + Width(op) <= MEMORY_SIZE
  {
    if op != SWR then x == rt
    else forall k | 0 <= k < 32 :: Bit(x, k) <==> if k < 24 then BitOf(Number(mem, pa, 4), k) else Bit(rt, k - 24)
  }

  /** The translation that decides: SWL and SWR read the word before they write it. */
  ghost function Reached(mmu: Mmu, op: Op, a: int32): (t: Translation)
  {
    if op in {SWL, SWR} && Translate(mmu, a, 4, false).Fault? then Translate(mmu, a, 4, false)
    else Translate(mmu, a, Width(op), true)
  }

  /** Stores: to rs + extra, of their size, from rt. */
  lemma StoreLaw(c: Cpu, i: Instr) returns (a: int32, x: int32)
    requires Sound(c) && i.op in {SB, SH, SW, SWL, SWR}
    ensures Same(a, Val(c, i.rs) + i.extra)
    ensures var o, size := Apply(c, i), Width(i.op);
            if a % size != 0 then Refused(c, o, i.op, a)
            else match Reached(c.mmu, i.op, a)
                 case Fault(e) => Traps(c, o, e, a)
                 case Physical(pa, entry) =>
                   && Completes(c, o, Following(c), map[], 0, 0)
                   && Stored(c.mem, o.c.mem, pa, size, x) && SameMap(c.mmu, o.c.mmu)
                   && o.c.mmu.entries[entry].use && o.c.mmu.entries[entry].dirty
                   && Written(i.op, c.mem, pa, c.regs[i.rt], x)
  {
    hide Apply, DoStore, DoMerge, Completes, Written, Stored, Traps, Translate, Wrap, Same;
    a := Wrap(Val(c, i.rs) + i.extra);
    WrapSame(Val(c, i.rs) + i.extra);
    x := c.regs[i.rt];
    StoreEffect(c.regs, i, a);
    if i.op in {SB, SH, SW} {
      ApplyStores(c, i);
      StoresTo(c, a, Width(i.op), x);
      Unaligned(c.mmu, a, Width(i.op));
      WrittenPlain(c, i, a);
    } else if a % 4 != 0 {
      AbortAborts(c, i);
    } else {
      ApplyMerges(c, i);
      x := MergesTo(c, i.op, a, c.regs[i.rt]);
    }
  }

  lemma StoreEffect(regs: Regs, i: Instr, a: int32)
    requires i.op in {SB, SH, SW, SWL, SWR} && a == Wrap(regs[i.rs] as int + i.extra)
    ensures Execute(regs, i) == if i.op in {SB, SH, SW} then Store(a, Width(i.op), regs[i.rt])
                                else if a % 4 != 0 then Abort else Merge(i.op, a, regs[i.rt])
  {
    hide Wrap;
  }

  lemma ApplyStores(c: Cpu, i: Instr)
    requires Sound(c) && Execute(c.regs, i).Store?
    ensures var e := Execute(c.regs, i); Apply(c, i) == DoStore(c, e.addr, e.size, e.value)
  {
    hide Execute, DoStore;
  }

  lemma ApplyMerges(c: Cpu, i: Instr)
    requires Sound(c) && Execute(c.regs, i).Merge?
    ensures var e := Execute(c.regs, i); Apply(c, i) == DoMerge(c, e.op, e.addr, e.value)
  {
    hide Execute, DoMerge;
  }

  lemma Unaligned(mmu: Mmu, a: int32, size: Size)
    ensures a % size != 0 ==> Translate(mmu, a, size, true) == Fault(AddressError)
  {
    MisalignedIff(a, size);
  }

  lemma WrittenPlain(c: Cpu, i: Instr, a: int32)
    requires i.op in {SB, SH, SW}
    ensures match Translate(c.mmu, a, Width(i.op), true)
            case Fault(_) => true
            case Physical(pa, _) => pa + Width(i.op) <= MEMORY_SIZE && Written(i.op, c.mem, pa, c.regs[i.rt], c.regs[i.rt])
  {
    hide Translate;
    if Translate(c.mmu, a, Width(i.op), true).Physical? {
      InsideFrame(c.mmu, a, Width(i.op), true);
    }
  }

  lemma StoresTo(c: Cpu, a: int32, size: Size, x: int32)
    requires Sound(c)
    ensures var o := DoStore(c, a, size, x);
            match Translate(c.mmu, a, size, true)
            case Fault(e) => Traps(c, o, e, a)
            case Physical(pa, entry) =>
              && Completes(c, o, Following(c), map[], 0, 0)
              && Stored(c.mem, o.c.mem, pa, size, x) && SameMap(c.mmu, o.c.mmu)
              && o.c.mmu.entries[entry].use && o.c.mmu.entries[entry].dirty
  {
    hide Translate, Put, Same, Wrap, Stored;
    var t := Translate(c.mmu, a, size, true);
    if t.Physical? {
      InsideFrame(c.mmu, a, size, true);
      ItselfSame(0);
      WrapSame(Following(c));
      PutStores(c.mem, t.addr, size, x);
      TouchKeepsMap(c.mmu, t.entry, true);
    }
  }

  lemma PutStores(mem: Memory, pa: nat, size: Size, x: int32)
    requires pa + size <= MEMORY_SIZE
    ensures Stored(mem, Put(mem, pa, size, x), pa, size, x)
  {
    hide Put, EncodeInt, ByteOf;
    forall k | 0 <= k < MEMORY_SIZE
      ensures Put(mem, pa, size, x)[k] == if pa <= k < pa + size then ByteOf(x, k - pa) else mem[k]
    {
      PutFrame(mem, pa, size, x, k);
      if pa <= k < pa + size {
        EncodedByte(x, k - pa);
      }
    }
  }

  lemma EncodedByte(x: int32, k: nat)
    requires k < 4
    ensures EncodeInt(x)[k] == ByteOf(x, k)
  {
    hide EncodeWord, ByteOf;
    WordByte(if x < 0 then x + 0x1_0000_0000 else x, k);
    if x < 0 {
      ByteAbove(x, k);
    }
  }

  lemma WordByte(w: word, k: nat)
    requires k < 4
    ensures EncodeWord(w)[k] == ByteOf(w, k)
  {
    NestedBytes(w);
  }

  /** Adding 2^32 changes none of the four bytes. */
  lemma ByteAbove(x: int, k: nat)
    requires k < 4
    ensures ByteOf(x + 0x1_0000_0000, k) == ByteOf(x, k)
  {
    match k
    case 0 => SameByte(x, 1, 0x100_0000);
    case 1 => SameByte(x, 0x100, 0x1_0000);
    case 2 => SameByte(x, 0x1_0000, 0x100);
    case _ => SameByte(x, 0x100_0000, 1);
  }

  lemma SameByte(x: int, p: nat, c: int)
    requires p >= 1
    ensures (x + p * (0x100 * c)) / p % 0x100 == x / p % 0x100
  {
    var d := 0x100 * c;
    assert p * (x / p + d) == p * (x / p) + p * d;
    UniqueQuotient(x + p * d, p, x / p + d, x % p);
    SameRemainder(x / p, 0x100, c);
  }

  lemma NestedBytes(w: nat)
    ensures w / 0x100 / 0x100 == w / 0x1_0000 && w / 0x100 / 0x100 / 0x100 == w / 0x100_0000
  {
  }

  lemma MergesTo(c: Cpu, op: Op, a: int32, rt: int32) returns (x: int32)
    requires Sound(c) && op in {SWL, SWR}
    ensures var o := DoMerge(c, op, a, rt);
            match Reached(c.mmu, op, a)
            case Fault(e) => Traps(c, o, e, a)
            case Physical(pa, entry) =>
              && Completes(c, o, Following(c), map[], 0, 0)
              && Stored(c.mem, o.c.mem, pa, 4, x) && SameMap(c.mmu, o.c.mmu)
              && o.c.mmu.entries[entry].use && o.c.mmu.entries[entry].dirty
              && Written(op, c.mem, pa, rt, x)
  {
    hide Translate, DoStore, DoMerge, Completes, Traps, Written, Stored, Same, Fetch, Merged, SameMap;
    x := 0;
    var t := Translate(c.mmu, a, 4, false);
    ReadTraps(c, op, a, rt);
    if t.Physical? {
      InsideFrame(c.mmu, a, 4, false);
      var c1 := c.(mmu := Touch(c.mmu, t.entry, false));
      x := Merged(op, Fetch(c.mem, t.addr, 4), rt);
      TouchKeepsMap(c.mmu, t.entry, false);
      SameTranslation(c.mmu, c1.mmu, a, 4, true);
      SameFrame(c.mmu, a);
      StoresTo(c1, a, 4, x);
      MergedWrites(op, c.mem, t.addr, rt);
      AfterTouch(c, c1, DoStore(c1, a, 4, x));
    }
  }

  lemma ReadTraps(c: Cpu, op: Op, a: int32, rt: int32)
    requires Sound(c)
    ensures var t := Translate(c.mmu, a, 4, false);
            if t.Fault? then Traps(c, DoMerge(c, op, a, rt), t.e, a)
            else && t.addr + 4 <= MEMORY_SIZE
                 && DoMerge(c, op, a, rt)
                 == DoStore(c.(mmu := Touch(c.mmu, t.entry, false)), a, 4, Merged(op, Fetch(c.mem, t.addr, 4), rt))
  {
    hide Translate, DoStore, Merged, Fetch;
    if Translate(c.mmu, a, 4, false).Physical? {
      InsideFrame(c.mmu, a, 4, false);
    }
  }

  /** A word that can be written can be read, and is in the same place. */
  lemma SameFrame(mmu: Mmu, a: int32)
    ensures Translate(mmu, a, 4, true).Physical? ==> Translate(mmu, a, 4, true) == Translate(mmu, a, 4, false)
  {
  }

  /** What has been said of the processor after the read holds before it. */
  lemma AfterTouch(c: Cpu, c1: Cpu, o: Outcome)
    requires Sound(c) && c1 == c.(mmu := c1.mmu) && SameMap(c.mmu, c1.mmu)
    ensures !o.Aborted? && SameMap(c1.mmu, o.c.mmu) ==> SameMap(c.mmu, o.c.mmu)
    ensures forall e, a: int32 | Traps(c1, o, e, a) :: Traps(c, o, e, a)
    ensures Completes(c1, o, Following(c1), map[], 0, 0) ==> Completes(c, o, Following(c), map[], 0, 0)
  {
    if !o.Aborted? && SameMap(c1.mmu, o.c.mmu) {
      SameMapTransitive(c.mmu, c1.mmu, o.c.mmu);
    }
  }

  lemma MergedWrites(op: Op, mem: Memory, pa: nat, rt: int32)
    requires op in {SWL, SWR} && pa + 4 <= MEMORY_SIZE
    ensures Written(op, mem, pa, rt, Merged(op, Fetch(mem, pa, 4), rt))
  {
    hide And, Or, BitOf, Fetch, Wrap;
    var v := Fetch(mem, pa, 4);
    NumberSame(mem, pa);
    forall k | 0 <= k < 32
      ensures op == SWR ==> (Bit(Merged(op, v, rt), k) <==> if k < 24 then BitOf(Number(mem, pa, 4), k) else Bit(rt, k - 24))
    {
      FirstByte(v, rt, k);
    }
  }

  lemma FirstByte(v: int32, rt: int32, k: nat)
    requires k < 32
    ensures Bit(Merged(SWR, v, rt), k) <==> if k < 24 then Bit(v, k) else Bit(rt, k - 24)
  {
    hide And, Or, BitOf, Wrap;
    Powers();
    var low, high := And(v, 0xff_ffff), Shl(rt, 24);
    LogicBits(low, high, k);
    LogicBits(v, 0xff_ffff, k);
    MaskBits(k);
    ShlBits(rt, 24, k);
  }
}
