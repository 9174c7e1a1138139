/** Encoding and decoding one instruction word, as functions (MIPS Convertor/src/hw1.c). */
module MipsCodec {
  import opened Bytes
  import opened MipsTables
  import opened MipsWords
  import opened Sequences

  /** The three arguments of an instruction. */
  datatype Args = Args(a0: int32, a1: int32, a2: int32) {
    function Arg(i: nat): int32
      requires i < 3
    {
      if i == 0 then a0 else if i == 1 then a1 else a2
    }

    function With(i: nat, a: int32): Args
      requires i < 3
    {
      if i == 0 then Args(a, a1, a2) else if i == 1 then Args(a0, a, a2) else Args(a0, a1, a)
    }
  }

  // ---------------------------------------------------------------------------------------------
  // Encoding
  // ---------------------------------------------------------------------------------------------

  /** The first index of the special table, from k on, that holds op. */
  function SpecialIndex(op: Opcode, k: nat): Option<nat>
    requires k <= 64
    decreases 64 - k
  {
    if k == 64 then None else if SpecialTable(k) == op then Some(k) else SpecialIndex(op, k + 1)
  }

  function OpcodeIndex(op: Opcode, k: nat): Option<nat>
    requires k <= 64
    decreases 64 - k
  {
    if k == 64 then None else if OpcodeTable(k) == op then Some(k) else OpcodeIndex(op, k + 1)
  }

  /** The bits that name the instruction, or None for an opcode in neither table. */
  function OpcodeBits(op: Opcode): Option<nat> {
    if op == OP_BGEZ then Some(0x0401_0000)
    else if op == OP_BLTZAL then Some(0x0410_0000)
    else if op == OP_BGEZAL then Some(0x0411_0000)
    else if op == OP_BLTZ then Some(0x0400_0000)
    else match SpecialIndex(op, 0)
      case Some(k) => Some(k)
      case None =>
        match OpcodeIndex(op, 0)
        case Some(k) => Some(k * 0x400_0000)
        case None => None
  }

  /** How many words a branch at addr jumps to reach its target, as the encoder computes it. */
  function BranchOffset(target: int32, addr: word): int32 {
    Wrap(target - (addr + 4)) / 4
  }

  /** The 256 MB region an address is in. */
  function Region(addr: int): nat {
    Word(addr) / 0x1000_0000
  }

  /** The bits one argument contributes, or None if it is refused. `extra` is the extra field that the
      instruction structure holds beside its arguments. */
  function Place(info: InstrInfo, src: Source, arg: int32, extra: int32, addr: word): Option<word> {
    match src
    case EXTRA =>
      if info.opcode == OP_BREAK then Some(Word(Wrap(arg * 0x1000) / 0x40))
      else if info.typ == RTYP then Some((arg % 32) * 0x40)
      else if info.typ == ITYP then
        var e := if IsBranch(info.opcode) then BranchOffset(arg, addr) else arg;
        if e != extra then None else Some(e % 0x1_0000)
      else if info.typ == JTYP then
        if Region(extra) != Region(addr) then None
        else Some((Wrap(arg - Region(addr - 4) * 0x1000_0000) / 4) % 0x400_0000)
      else Some(Word(arg))
    case RS => if arg > 31 || arg < 0 then None else Some(arg * 0x20_0000)
    case RT => if arg > 31 || arg < 0 then None else Some(arg * 0x1_0000)
    case RD => if arg > 31 || arg < 0 then None else Some(arg * 0x800)
    case NSRC => if arg != 0 then None else Some(0)
  }

  /** The loop over the arguments: whether it went through, and the value built. */
  function PlaceFrom(info: InstrInfo, args: Args, extra: int32, addr: word, i: nat, value: nat): (bool, nat)
    requires i <= 3
    decreases 3 - i
  {
    if i == 3 then (true, value)
    else match Place(info, info.Src(i), args.Arg(i), extra, addr)
      case None => (false, value)
      case Some(f) => PlaceFrom(info, args, extra, addr, i + 1, Or(value, f))
  }

  function Encode(info: InstrInfo, args: Args, extra: int32, addr: word): Option<nat> {
    if info.typ == NTYP then None
    else match OpcodeBits(info.opcode)
      case None => None
      case Some(bits) =>
        var (ok, value) := PlaceFrom(info, args, extra, addr, 0, bits);
        if ok then Some(value) else None
  }

  // ---------------------------------------------------------------------------------------------
  // Decoding
  // ---------------------------------------------------------------------------------------------

  function OpcodeOf(value: word): Option<Opcode> {
    var op := OpcodeTable(value / 0x400_0000);
    if op == SPECIAL then
      var special := SpecialTable(value % 64);
      if special == ILLEGL then None else Some(special)
    else if op == BCOND then
      var rt := (value / 0x1_0000) % 32;
      if rt == 0 then Some(OP_BLTZ)
      else if rt == 1 then Some(OP_BGEZ)
      else if rt == 16 then Some(OP_BLTZAL)
      else if rt == 17 then Some(OP_BGEZAL)
      else None
    else if op != ILLEGL then Some(op)
    else None
  }

  /** The first row, from i on, with the given opcode. */
  function RowOf(op: Opcode, i: nat): Option<InstrInfo>
    requires i <= 64
    decreases 64 - i
  {
    if i == 64 then None else if InstrTable(i).opcode == op then Some(InstrTable(i)) else RowOf(op, i + 1)
  }

  /** Sign extension of 16 bits. */
  function Signed16(x: nat): int32
    requires x < 0x1_0000
  {
    if x >= 0x8000 then x - 0x1_0000 else x
  }

  /** The extra field decoded from a word, or None where an instruction has none to decode. */
  function ExtraOf(info: InstrInfo, value: word, addr: word): Option<int32> {
    if info.opcode == OP_BREAK then Some((value / 0x40) % 0x10_0000)
    else if info.typ == RTYP then Some((value / 0x40) % 32)
    else if info.typ == ITYP then
      var e := Signed16(value % 0x1_0000);
      Some(if IsBranch(info.opcode) then Wrap(e * 4 + addr + 4) else e)
    else if info.typ == JTYP then Some(Wrap((value % 0x400_0000) * 4 + Region(addr + 4) * 0x1000_0000))
    else None
  }

  function Extract(info: InstrInfo, src: Source, value: word, addr: word): Option<int32> {
    match src
    case EXTRA => ExtraOf(info, value, addr)
    case RS => Some((value / 0x20_0000) % 32)
    case RT => Some((value / 0x1_0000) % 32)
    case RD => Some((value / 0x800) % 32)
    case NSRC => Some(0)
  }

  /** A decoded instruction. */
  datatype Instr = Instr(info: InstrInfo, args: Args)

  function DecodeArgs(info: InstrInfo, value: word, addr: word): Option<Args> {
    match (Extract(info, info.src0, value, addr), Extract(info, info.src1, value, addr),
           Extract(info, info.src2, value, addr))
    case (Some(a), Some(b), Some(c)) => Some(Args(a, b, c))
    case _ => None
  }

  function Decode(value: word, addr: word): Option<Instr> {
    match OpcodeOf(value)
    case None => None
    case Some(op) =>
      match RowOf(op, 0)
      case None => None
      case Some(info) =>
        match DecodeArgs(info, value, addr)
        case None => None
        case Some(args) => Some(Instr(info, args))
  }

  // ---------------------------------------------------------------------------------------------
  // Rows
  // ---------------------------------------------------------------------------------------------

  /** An encodable row of the table. */
  predicate IsRow(info: InstrInfo) {
    info.opcode < 64 && InstrTable(info.opcode) == info && info.typ != NTYP
  }

  /** The argument shapes in use, by kind of row. */
  predicate KnownShape(info: InstrInfo) {
    var srcs := (info.src0, info.src1, info.src2);
    if info.typ == JTYP || info.opcode == OP_BREAK then srcs == (EXTRA, NSRC, NSRC)
    else if IsBcond(info.opcode) then srcs == (RS, EXTRA, NSRC)
    else if info.typ == ITYP then
      || srcs == (RT, RS, EXTRA) || srcs == (RS, RT, EXTRA) || srcs == (RT, EXTRA, RS)
      || srcs == (RS, EXTRA, NSRC) || srcs == (RT, EXTRA, NSRC)
    else
      || srcs == (RD, RS, RT) || srcs == (RD, RT, RS) || srcs == (RD, RT, EXTRA) || srcs == (RD, RS, NSRC)
      || srcs == (RS, RT, NSRC) || srcs == (RS, NSRC, NSRC) || srcs == (RD, NSRC, NSRC) || srcs == (NSRC, NSRC, NSRC)
  }

  /** The kinds of row there are. */
  predicate KnownKind(info: InstrInfo) {
    && (info.typ == JTYP ==> !IsBranch(info.opcode) && info.opcode != OP_BREAK)
    && (info.opcode == OP_BREAK ==> info.typ == RTYP)
    && (IsBranch(info.opcode) ==> info.typ == ITYP)
    && info.typ != NTYP
  }

  lemma RowShapes(info: InstrInfo)
    requires IsRow(info)
    ensures KnownShape(info) && KnownKind(info)
  {
  }

  lemma {:induction false} RowOfOpcode(op: Opcode, i: nat)
    requires i <= op < 64 && InstrTable(op).opcode == op
    ensures RowOf(op, i) == Some(InstrTable(op))
    decreases op - i
  {
    RowsAreKeyed(i);
    hide InstrTable;
    if i < op {
      RowOfOpcode(op, i + 1);
    }
  }

  lemma {:induction false} RowOfFinds(op: Opcode, i: nat)
    requires i <= 64 && RowOf(op, i).Some? && op != ILLEGL
    ensures op < 64 && RowOf(op, i) == Some(InstrTable(op)) && InstrTable(op).opcode == op
    decreases 64 - i
  {
    RowsAreKeyed(i);
    hide InstrTable;
    if InstrTable(i).opcode != op {
      RowOfFinds(op, i + 1);
    }
  }

  // ---------------------------------------------------------------------------------------------
  // The opcode survives
  // ---------------------------------------------------------------------------------------------

  lemma {:induction false} SpecialIndexFirst(op: Opcode, k: nat)
    requires k <= 64
    ensures match SpecialIndex(op, k)
      case Some(m) => k <= m < 64 && SpecialTable(m) == op
      case None => forall j: nat | k <= j < 64 :: SpecialTable(j) != op
    decreases 64 - k
  {
    hide SpecialTable;
    if k < 64 {
      SpecialIndexFirst(op, k + 1);
    }
  }

  lemma {:induction false} OpcodeIndexFirst(op: Opcode, k: nat)
    requires k <= 64
    ensures match OpcodeIndex(op, k)
      case Some(m) => k <= m < 64 && OpcodeTable(m) == op
      case None => forall j: nat | k <= j < 64 :: OpcodeTable(j) != op
    decreases 64 - k
  {
    hide OpcodeTable;
    if k < 64 {
      OpcodeIndexFirst(op, k + 1);
    }
  }

  /** The tables have an opcode in one place at most: under its special code, or as an opcode. */
  lemma OpcodeHome(op: Opcode)
    requires op < 64 && InstrTable(op).opcode == op && InstrTable(op).typ != NTYP && !IsBcond(op)
    ensures match SpecialIndex(op, 0)
      case Some(k) => k < 64 && SpecialTable(k) == op && InstrTable(op).typ == RTYP
      case None => forall j: nat | j < 64 :: SpecialTable(j) != op
    ensures match OpcodeIndex(op, 0)
      case Some(k) => 2 <= k < 64 && OpcodeTable(k) == op && InstrTable(op).typ != RTYP
      case None => forall j: nat | j < 64 :: OpcodeTable(j) != op
  {
    hide OpcodeTable, SpecialTable, InstrTable;
    SpecialIndexFirst(op, 0);
    OpcodeIndexFirst(op, 0);
    if SpecialIndex(op, 0).Some? {
      SpecialTableRows(SpecialIndex(op, 0).value);
    }
    if OpcodeIndex(op, 0).Some? {
      OpcodeTableRows(OpcodeIndex(op, 0).value);
    }
  }

  /** The parts of the word that name an instruction of this row. */
  function OpcodePart(info: InstrInfo, value: nat): nat {
    var op := (value / 0x400_0000) * 0x400_0000;
    if info.typ == RTYP then op + value % 64
    else if IsBcond(info.opcode) then op + ((value / 0x1_0000) % 32) * 0x1_0000
    else op
  }

  /** A word whose opcode part is that of a row decodes to that row. */
  lemma OpcodeSurvives(info: InstrInfo, value: word, bits: nat)
    requires IsRow(info) && OpcodeBits(info.opcode) == Some(bits)
    requires OpcodePart(info, value) == bits
    ensures OpcodeOf(value) == Some(info.opcode) && RowOf(info.opcode, 0) == Some(info)
  {
    var op := info.opcode;
    RowOfOpcode(op, 0);
    RowShapes(info);
    OpcodeTableRows(0);
    OpcodeTableRows(1);
    hide OpcodeTable, SpecialTable, InstrTable, SpecialIndex, OpcodeIndex, KnownShape, RowOf;
    if !IsBcond(op) {
      OpcodeHome(op);
      if SpecialIndex(op, 0).Some? {
        assert value / 0x400_0000 == 0 && value % 64 == bits;
      } else {
        var m := OpcodeIndex(op, 0).value;
        OpcodeTableRows(m);
        assert value / 0x400_0000 == m;
      }
    }
  }

  lemma BcondPartNames(info: InstrInfo, value: word)
    requires IsBcond(info.opcode) && info.typ == ITYP && OpcodeOf(value) == Some(info.opcode)
    ensures OpcodeBits(info.opcode) == Some(OpcodePart(info, value))
  {
    OpcodeTableRows(value / 0x400_0000);
    SpecialTableRows(value % 64);
  }

  /** The bits that name an instruction are the opcode part of its word. */
  lemma OpcodePartNames(info: InstrInfo, value: word)
    requires IsRow(info) && OpcodeOf(value) == Some(info.opcode)
    ensures OpcodeBits(info.opcode) == Some(OpcodePart(info, value))
  {
    var op, k, m := info.opcode, value / 0x400_0000, value % 64;
    RowShapes(info);
    if IsBcond(op) {
      BcondPartNames(info, value);
    } else {
      OpcodeTableRows(k);
      SpecialTableRows(m);
      OpcodeHome(op);
      hide OpcodeTable, SpecialTable, InstrTable, SpecialIndex, OpcodeIndex, KnownShape;
      if OpcodeTable(k) == SPECIAL {
        SpecialTableInjective(SpecialIndex(op, 0).value, m);
      } else {
        OpcodeTableInjective(OpcodeIndex(op, 0).value, k);
      }
    }
  }
}
