/** The instruction tables (MIPS Convertor/src/instr_table.c, include/instruction.h). */
module MipsTables {

  /** Opcode values 0 to 63 are rows of the instruction table. */
  type Opcode = nat

  const OP_ADD: Opcode := 1
  const OP_ADDI: Opcode := 2
  const OP_ADDIU: Opcode := 3
  const OP_ADDU: Opcode := 4
  const OP_AND: Opcode := 5
  const OP_ANDI: Opcode := 6
  const OP_BEQ: Opcode := 7
  const OP_BGEZ: Opcode := 8
  const OP_BGEZAL: Opcode := 9
  const OP_BGTZ: Opcode := 10
  const OP_BLEZ: Opcode := 11
  const OP_BLTZ: Opcode := 12
  const OP_BLTZAL: Opcode := 13
  const OP_BNE: Opcode := 14
  const OP_DIV: Opcode := 16
  const OP_DIVU: Opcode := 17
  const OP_J: Opcode := 18
  const OP_JAL: Opcode := 19
  const OP_JALR: Opcode := 20
  const OP_JR: Opcode := 21
  const OP_LB: Opcode := 22
  const OP_LBU: Opcode := 23
  const OP_LH: Opcode := 24
  const OP_LHU: Opcode := 25
  const OP_LUI: Opcode := 26
  const OP_LW: Opcode := 27
  const OP_LWL: Opcode := 28
  const OP_LWR: Opcode := 29
  const OP_MFHI: Opcode := 31
  const OP_MFLO: Opcode := 32
  const OP_MTHI: Opcode := 34
  const OP_MTLO: Opcode := 35
  const OP_MULT: Opcode := 36
  const OP_MULTU: Opcode := 37
  const OP_NOR: Opcode := 38
  const OP_OR: Opcode := 39
  const OP_ORI: Opcode := 40
  const OP_RFE: Opcode := 41
  const OP_SB: Opcode := 42
  const OP_SH: Opcode := 43
  const OP_SLL: Opcode := 44
  const OP_SLLV: Opcode := 45
  const OP_SLT: Opcode := 46
  const OP_SLTI: Opcode := 47
  const OP_SLTIU: Opcode := 48
  const OP_SLTU: Opcode := 49
  const OP_SRA: Opcode := 50
  const OP_SRAV: Opcode := 51
  const OP_SRL: Opcode := 52
  const OP_SRLV: Opcode := 53
  const OP_SUB: Opcode := 54
  const OP_SUBU: Opcode := 55
  const OP_SW: Opcode := 56
  const OP_SWL: Opcode := 57
  const OP_SWR: Opcode := 58
  const OP_XOR: Opcode := 59
  const OP_XORI: Opcode := 60
  const OP_SYSCALL: Opcode := 61
  const OP_BREAK: Opcode := 62
  const OP_UNIMP: Opcode := 63
  const SPECIAL: Opcode := 64
  const BCOND: Opcode := 65
  const ILLEGL: Opcode := 66

  /** Not a type, immediate, jump, register. */
  datatype Type = NTYP | ITYP | JTYP | RTYP

  datatype Source = NSRC | RS | RT | RD | EXTRA

  /** A row of the instruction table, without its text template. */
  datatype InstrInfo = InstrInfo(opcode: Opcode, typ: Type, src0: Source, src1: Source, src2: Source) {
    function Src(i: nat): Source
      requires i < 3
    {
      if i == 0 then src0 else if i == 1 then src1 else src2
    }
  }

  /** Opcode by bits 31:26 of the word. */
  function OpcodeTable(i: nat): Opcode
    requires i < 64
  {
    match i
    case 0 => SPECIAL   case 1 => BCOND     case 2 => OP_J      case 3 => OP_JAL
    case 4 => OP_BEQ    case 5 => OP_BNE    case 6 => OP_BLEZ   case 7 => OP_BGTZ
    case 8 => OP_ADDI   case 9 => OP_ADDIU  case 10 => OP_SLTI  case 11 => OP_SLTIU
    case 12 => OP_ANDI  case 13 => OP_ORI   case 14 => OP_XORI  case 15 => OP_LUI
    case 16 => OP_UNIMP case 17 => OP_UNIMP case 18 => OP_UNIMP case 19 => OP_UNIMP
    case 32 => OP_LB    case 33 => OP_LH    case 34 => OP_LWL   case 35 => OP_LW
    case 36 => OP_LBU   case 37 => OP_LHU   case 38 => OP_LWR
    case 40 => OP_SB    case 41 => OP_SH    case 42 => OP_SWL   case 43 => OP_SW
    case 46 => OP_SWR
    case 48 => OP_UNIMP case 49 => OP_UNIMP case 50 => OP_UNIMP case 51 => OP_UNIMP
    case 56 => OP_UNIMP case 57 => OP_UNIMP case 58 => OP_UNIMP case 59 => OP_UNIMP
    case _ => ILLEGL
  }

  /** Opcode by bits 5:0 of a SPECIAL word. */
  function SpecialTable(i: nat): Opcode
    requires i < 64
  {
    match i
    case 0 => OP_SLL    case 2 => OP_SRL    case 3 => OP_SRA    case 4 => OP_SLLV
    case 6 => OP_SRLV   case 7 => OP_SRAV
    case 8 => OP_JR     case 9 => OP_JALR   case 12 => OP_SYSCALL case 13 => OP_BREAK
    case 16 => OP_MFHI  case 17 => OP_MTHI  case 18 => OP_MFLO  case 19 => OP_MTLO
    case 24 => OP_MULT  case 25 => OP_MULTU case 26 => OP_DIV   case 27 => OP_DIVU
    case 32 => OP_ADD   case 33 => OP_ADDU  case 34 => OP_SUB   case 35 => OP_SUBU
    case 36 => OP_AND   case 37 => OP_OR    case 38 => OP_XOR   case 39 => OP_NOR
    case 42 => OP_SLT   case 43 => OP_SLTU
    case _ => ILLEGL
  }

  const ILLEGAL_ROW := InstrInfo(ILLEGL, NTYP, NSRC, NSRC, NSRC)

  /** The instruction table. */
  function InstrTable(i: nat): InstrInfo
    requires i < 64
  {
    match i
    case 1 => InstrInfo(OP_ADD, RTYP, RD, RS, RT)
    case 2 => InstrInfo(OP_ADDI, ITYP, RT, RS, EXTRA)
    case 3 => InstrInfo(OP_ADDIU, ITYP, RT, RS, EXTRA)
    case 4 => InstrInfo(OP_ADDU, RTYP, RD, RS, RT)
    case 5 => InstrInfo(OP_AND, RTYP, RD, RS, RT)
    case 6 => InstrInfo(OP_ANDI, ITYP, RT, RS, EXTRA)
    case 7 => InstrInfo(OP_BEQ, ITYP, RS, RT, EXTRA)
    case 8 => InstrInfo(OP_BGEZ, ITYP, RS, EXTRA, NSRC)
    case 9 => InstrInfo(OP_BGEZAL, ITYP, RS, EXTRA, NSRC)
    case 10 => InstrInfo(OP_BGTZ, ITYP, RS, EXTRA, NSRC)
    case 11 => InstrInfo(OP_BLEZ, ITYP, RS, EXTRA, NSRC)
    case 12 => InstrInfo(OP_BLTZ, ITYP, RS, EXTRA, NSRC)
    case 13 => InstrInfo(OP_BLTZAL, ITYP, RS, EXTRA, NSRC)
    case 14 => InstrInfo(OP_BNE, ITYP, RS, RT, EXTRA)
    case 16 => InstrInfo(OP_DIV, RTYP, RS, RT, NSRC)
    case 17 => InstrInfo(OP_DIVU, RTYP, RS, RT, NSRC)
    case 18 => InstrInfo(OP_J, JTYP, EXTRA, NSRC, NSRC)
    case 19 => InstrInfo(OP_JAL, JTYP, EXTRA, NSRC, NSRC)
    case 20 => InstrInfo(OP_JALR, RTYP, RD, RS, NSRC)
    case 21 => InstrInfo(OP_JR, RTYP, RS, NSRC, NSRC)
    case 22 => InstrInfo(OP_LB, ITYP, RT, EXTRA, RS)
    case 23 => InstrInfo(OP_LBU, ITYP, RT, EXTRA, RS)
    case 24 => InstrInfo(OP_LH, ITYP, RT, EXTRA, RS)
    case 25 => InstrInfo(OP_LHU, ITYP, RT, EXTRA, RS)
    case 26 => InstrInfo(OP_LUI, ITYP, RT, EXTRA, NSRC)
    case 27 => InstrInfo(OP_LW, ITYP, RT, EXTRA, RS)
    case 28 => InstrInfo(OP_LWL, ITYP, RT, EXTRA, RS)
    case 29 => InstrInfo(OP_LWR, ITYP, RT, EXTRA, RS)
    case 31 => InstrInfo(OP_MFHI, RTYP, RD, NSRC, NSRC)
    case 32 => InstrInfo(OP_MFLO, RTYP, RD, NSRC, NSRC)
    case 34 => InstrInfo(OP_MTHI, RTYP, RS, NSRC, NSRC)
    case 35 => InstrInfo(OP_MTLO, RTYP, RS, NSRC, NSRC)
    case 36 => InstrInfo(OP_MULT, RTYP, RS, RT, NSRC)
    case 37 => InstrInfo(OP_MULTU, RTYP, RS, RT, NSRC)
    case 38 => InstrInfo(OP_NOR, RTYP, RD, RS, RT)
    case 39 => InstrInfo(OP_OR, RTYP, RD, RS, RT)
    case 40 => InstrInfo(OP_ORI, ITYP, RT, RS, EXTRA)
    case 41 => InstrInfo(OP_RFE, NTYP, NSRC, NSRC, NSRC)
    case 42 => InstrInfo(OP_SB, ITYP, RT, EXTRA, RS)
    case 43 => InstrInfo(OP_SH, ITYP, RT, EXTRA, RS)
    case 44 => InstrInfo(OP_SLL, RTYP, RD, RT, EXTRA)
    case 45 => InstrInfo(OP_SLLV, RTYP, RD, RT, RS)
    case 46 => InstrInfo(OP_SLT, RTYP, RD, RS, RT)
    case 47 => InstrInfo(OP_SLTI, ITYP, RT, RS, EXTRA)
    case 48 => InstrInfo(OP_SLTIU, ITYP, RT, RS, EXTRA)
    case 49 => InstrInfo(OP_SLTU, RTYP, RD, RS, RT)
    case 50 => InstrInfo(OP_SRA, RTYP, RD, RT, EXTRA)
    case 51 => InstrInfo(OP_SRAV, RTYP, RD, RT, RS)
    case 52 => InstrInfo(OP_SRL, RTYP, RD, RT, EXTRA)
    case 53 => InstrInfo(OP_SRLV, RTYP, RD, RT, RS)
    case 54 => InstrInfo(OP_SUB, RTYP, RD, RS, RT)
    case 55 => InstrInfo(OP_SUBU, RTYP, RD, RS, RT)
    case 56 => InstrInfo(OP_SW, ITYP, RT, EXTRA, RS)
    case 57 => InstrInfo(OP_SWL, ITYP, RT, EXTRA, RS)
    case 58 => InstrInfo(OP_SWR, ITYP, RT, EXTRA, RS)
    case 59 => InstrInfo(OP_XOR, RTYP, RD, RS, RT)
    case 60 => InstrInfo(OP_XORI, ITYP, RT, RS, EXTRA)
    case 61 => InstrInfo(OP_SYSCALL, RTYP, NSRC, NSRC, NSRC)
    case 62 => InstrInfo(OP_BREAK, RTYP, EXTRA, NSRC, NSRC)
    case 63 => InstrInfo(OP_UNIMP, NTYP, NSRC, NSRC, NSRC)
    case _ => ILLEGAL_ROW
  }

  predicate IsBcond(op: Opcode) {
    op == OP_BLTZ || op == OP_BGEZ || op == OP_BLTZAL || op == OP_BGEZAL
  }

  predicate IsBranch(op: Opcode) {
    op == OP_BEQ || op == OP_BGTZ || op == OP_BLEZ || op == OP_BNE || IsBcond(op)
  }

  /** The arguments of every instruction, by kind: three registers, variable and constant shifts, the HI and LO
      instructions, jumps, immediates, branches, loads and stores. */
  lemma RowsByKind(op: Opcode)
    requires op < 64
    ensures op in {OP_ADD, OP_ADDU, OP_AND, OP_NOR, OP_OR, OP_SLT, OP_SLTU, OP_SUB, OP_SUBU, OP_XOR} ==>
              InstrTable(op) == InstrInfo(op, RTYP, RD, RS, RT)
    ensures op in {OP_SLLV, OP_SRAV, OP_SRLV} ==> InstrTable(op) == InstrInfo(op, RTYP, RD, RT, RS)
    ensures op in {OP_SLL, OP_SRA, OP_SRL} ==> InstrTable(op) == InstrInfo(op, RTYP, RD, RT, EXTRA)
    ensures op in {OP_DIV, OP_DIVU, OP_MULT, OP_MULTU} ==> InstrTable(op) == InstrInfo(op, RTYP, RS, RT, NSRC)
    ensures op in {OP_MFHI, OP_MFLO} ==> InstrTable(op) == InstrInfo(op, RTYP, RD, NSRC, NSRC)
    ensures op in {OP_MTHI, OP_MTLO, OP_JR} ==> InstrTable(op) == InstrInfo(op, RTYP, RS, NSRC, NSRC)
    ensures op == OP_JALR ==> InstrTable(op) == InstrInfo(op, RTYP, RD, RS, NSRC)
    ensures op == OP_SYSCALL ==> InstrTable(op) == InstrInfo(op, RTYP, NSRC, NSRC, NSRC)
    ensures op == OP_BREAK ==> InstrTable(op) == InstrInfo(op, RTYP, EXTRA, NSRC, NSRC)
    ensures op in {OP_ADDI, OP_ADDIU, OP_ANDI, OP_ORI, OP_SLTI, OP_SLTIU, OP_XORI} ==>
              InstrTable(op) == InstrInfo(op, ITYP, RT, RS, EXTRA)
    ensures op == OP_LUI ==> InstrTable(op) == InstrInfo(op, ITYP, RT, EXTRA, NSRC)
    ensures op in {OP_BEQ, OP_BNE} ==> InstrTable(op) == InstrInfo(op, ITYP, RS, RT, EXTRA)
    ensures op in {OP_BGEZ, OP_BGEZAL, OP_BGTZ, OP_BLEZ, OP_BLTZ, OP_BLTZAL} ==>
              InstrTable(op) == InstrInfo(op, ITYP, RS, EXTRA, NSRC)
    ensures op in {OP_LB, OP_LBU, OP_LH, OP_LHU, OP_LW, OP_LWL, OP_LWR, OP_SB, OP_SH, OP_SW, OP_SWL, OP_SWR} ==>
              InstrTable(op) == InstrInfo(op, ITYP, RT, EXTRA, RS)
    ensures op in {OP_J, OP_JAL} ==> InstrTable(op) == InstrInfo(op, JTYP, EXTRA, NSRC, NSRC)
  {
  }

  /** The codes of the instructions, in rows of eight as the tables list them. */
  lemma CodesInRows(i: nat)
    requires i < 8
    ensures OpcodeTable(i) == [SPECIAL, BCOND, OP_J, OP_JAL, OP_BEQ, OP_BNE, OP_BLEZ, OP_BGTZ][i]
    ensures OpcodeTable(8 + i) == [OP_ADDI, OP_ADDIU, OP_SLTI, OP_SLTIU, OP_ANDI, OP_ORI, OP_XORI, OP_LUI][i]
    ensures OpcodeTable(32 + i) == [OP_LB, OP_LH, OP_LWL, OP_LW, OP_LBU, OP_LHU, OP_LWR, ILLEGL][i]
    ensures OpcodeTable(40 + i) == [OP_SB, OP_SH, OP_SWL, OP_SW, ILLEGL, ILLEGL, OP_SWR, ILLEGL][i]
    ensures SpecialTable(i) == [OP_SLL, ILLEGL, OP_SRL, OP_SRA, OP_SLLV, ILLEGL, OP_SRLV, OP_SRAV][i]
    ensures SpecialTable(8 + i) == [OP_JR, OP_JALR, ILLEGL, ILLEGL, OP_SYSCALL, OP_BREAK, ILLEGL, ILLEGL][i]
    ensures SpecialTable(16 + i) == [OP_MFHI, OP_MTHI, OP_MFLO, OP_MTLO, ILLEGL, ILLEGL, ILLEGL, ILLEGL][i]
    ensures SpecialTable(24 + i) == [OP_MULT, OP_MULTU, OP_DIV, OP_DIVU, ILLEGL, ILLEGL, ILLEGL, ILLEGL][i]
    ensures SpecialTable(32 + i) == [OP_ADD, OP_ADDU, OP_SUB, OP_SUBU, OP_AND, OP_OR, OP_XOR, OP_NOR][i]
    ensures SpecialTable(40 + i) == [ILLEGL, ILLEGL, OP_SLT, OP_SLTU, ILLEGL, ILLEGL, ILLEGL, ILLEGL][i]
    ensures OpcodeTable(24 + i) == SpecialTable(48 + i) == SpecialTable(56 + i) == ILLEGL
  {
  }

  /** Row i is the row of opcode i, or no row at all. */
  lemma RowsAreKeyed(i: nat)
    requires i < 64
    ensures InstrTable(i) == ILLEGAL_ROW || InstrTable(i).opcode == i
  {
  }

  /** Whatever the opcode table names, other than the escapes, is the opcode of an immediate, jump or
      unimplemented row, and not one of the four BCOND instructions. */
  lemma OpcodeTableRows(k: nat)
    requires k < 64
    ensures OpcodeTable(k) == SPECIAL <==> k == 0
    ensures OpcodeTable(k) == BCOND <==> k == 1
    ensures var op := OpcodeTable(k);
      op != SPECIAL && op != BCOND && op != ILLEGL ==>
        op < 64 && InstrTable(op).opcode == op && InstrTable(op).typ != RTYP && !IsBcond(op)
  {
  }

  /** Whatever the special table names is the opcode of a register row. */
  lemma SpecialTableRows(k: nat)
    requires k < 64
    ensures var op := SpecialTable(k);
      op != ILLEGL ==> op < 64 && InstrTable(op).opcode == op && InstrTable(op).typ == RTYP
  {
  }

  /** No opcode is named twice by a table, unimplemented ones apart. */
  lemma OpcodeTableInjective(k: nat, m: nat)
    requires k < 64 && m < 64 && OpcodeTable(k) == OpcodeTable(m)
    requires OpcodeTable(k) != ILLEGL && OpcodeTable(k) != OP_UNIMP
    ensures k == m
  {
  }

  lemma SpecialTableInjective(k: nat, m: nat)
    requires k < 64 && m < 64 && SpecialTable(k) == SpecialTable(m) && SpecialTable(k) != ILLEGL
    ensures k == m
  {
  }

  /** Where each opcode stands in its table, read the other way round. */
  ghost function CodeOf(op: Opcode): nat {
    match op
    case 1 => 32  case 2 => 8  case 3 => 9  case 4 => 33  case 5 => 36  case 6 => 12
    case 7 => 4  case 10 => 7  case 11 => 6  case 14 => 5  case 16 => 26  case 17 => 27
    case 18 => 2  case 19 => 3  case 20 => 9  case 21 => 8  case 22 => 32  case 23 => 36
    case 24 => 33  case 25 => 37  case 26 => 15  case 27 => 35  case 28 => 34  case 29 => 38
    case 31 => 16  case 32 => 18  case 34 => 17  case 35 => 19  case 36 => 24  case 37 => 25
    case 38 => 39  case 39 => 37  case 40 => 13  case 42 => 40  case 43 => 41  case 44 => 0
    case 45 => 4  case 46 => 42  case 47 => 10  case 48 => 11  case 49 => 43  case 50 => 3
    case 51 => 7  case 52 => 2  case 53 => 6  case 54 => 34  case 55 => 35  case 56 => 43
    case 57 => 42  case 58 => 46  case 59 => 38  case 60 => 14  case 61 => 12  case 62 => 13
    case _ => 0
  }

  /** Every encodable row other than the four BCOND instructions has its opcode in one of the tables. */
  lemma RowsHaveCodes(op: Opcode)
    requires op < 64 && InstrTable(op).opcode == op && InstrTable(op).typ != NTYP && !IsBcond(op)
    ensures CodeOf(op) < 64
    ensures if InstrTable(op).typ == RTYP then SpecialTable(CodeOf(op)) == op else OpcodeTable(CodeOf(op)) == op
  {
  }
}
