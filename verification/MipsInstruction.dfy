/** The instruction structure with the encoder and the decoder as they fill it in
    (MIPS Convertor/src/hw1.c, MIPS Convertor/include/instruction.h). */
module MipsInstruction {
  import opened Bytes
  import opened MipsTables
  import opened MipsWords
  import opened MipsCodec
  import opened MipsRoundTrip
  import opened Sequences

  /** The value the encoder leaves behind, whether or not it succeeds. */
  function ValueLeft(info: InstrInfo, args: Args, extra: int32, addr: word, was: nat): nat {
    if info.typ == NTYP then was
    else match OpcodeBits(info.opcode)
      case None => 0
      case Some(bits) => PlaceFrom(info, args, extra, addr, 0, bits).1
  }

  /** Every opcode the tables name has its row. */
  lemma DecodedOpcodeHasRow(value: word)
    requires OpcodeOf(value).Some?
    ensures var op := OpcodeOf(value).value;
      op < 64 && InstrTable(op).opcode == op && RowOf(op, 0) == Some(InstrTable(op))
  {
    var op := OpcodeOf(value).value;
    OpcodeTableRows(value / 0x400_0000);
    SpecialTableRows(value % 64);
    BcondRows();
    hide OpcodeTable, SpecialTable, InstrTable;
    RowOfOpcode(op, 0);
  }

  lemma BcondRows()
    ensures forall op | IsBcond(op) :: InstrTable(op).opcode == op
  {
  }

  /** No row asks for an argument that cannot be decoded. */
  lemma RowsDecode(op: Opcode, i: nat, value: word, addr: word)
    requires op < 64 && i < 3
    ensures Extract(InstrTable(op), InstrTable(op).Src(i), value, addr).Some?
  {
    hide IsBranch, Wrap, Region, Signed16;
  }

  class Instruction {
    var value: word
    var info: InstrInfo
    var regs: seq<nat>
    var extra: int32
    var args: Args

    constructor ()
      ensures value == 0 && info == ILLEGAL_ROW && extra == 0 && args == Args(0, 0, 0)
    {
      value, info, regs, extra, args := 0, ILLEGAL_ROW, [0, 0, 0], 0, Args(0, 0, 0);
    }

    /** Looks the opcode up in the special table and puts its code into the value. */
    method IsSpecial() returns (found: bool)
      requires value == 0
      modifies this`value
      ensures found <==> SpecialIndex(info.opcode, 0).Some?
      ensures value == if found then SpecialIndex(info.opcode, 0).value else 0
    {
      var i := 0;
      while i < 64
        invariant 0 <= i <= 64 && value == 0
        invariant SpecialIndex(info.opcode, 0) == SpecialIndex(info.opcode, i)
      {
        if SpecialTable(i) == info.opcode {
          OrNothing(i);
          value := Or(value, i);
          return true;
        }
        i := i + 1;
      }
      return false;
    }

    /** Looks the opcode up in the opcode table and puts its code into the value. */
    method IsNotSpecial() returns (found: bool)
      modifies this`value
      ensures found <==> OpcodeIndex(info.opcode, 0).Some?
      ensures value == if found then OpcodeIndex(info.opcode, 0).value * 0x400_0000 else old(value)
    {
      var i := 0;
      while i < 64
        invariant 0 <= i <= 64 && value == old(value)
        invariant OpcodeIndex(info.opcode, 0) == OpcodeIndex(info.opcode, i)
      {
        if OpcodeTable(i) == info.opcode {
          value := i * 0x400_0000;
          return true;
        }
        i := i + 1;
      }
      return false;
    }

    /** Puts the code of BCOND, and the condition in 20:16, into the value. */
    method FindBcond(rt: nat)
      requires value == 0 && rt < 32
      modifies this`value
      ensures value == Or(0x400_0000, rt * 0x1_0000)
    {
      var i := 0;
      BcondIsSecond();
      OrNothing(0x400_0000);
      BcondBits(rt);
      hide OpcodeTable, Or;
      while i < 64 && OpcodeTable(i) != BCOND
        invariant 0 <= i <= 1
        decreases 64 - i
      {
        i := i + 1;
      }
      assert i == 1;
      value := Or(value, 0x400_0000 * i);
      value := Or(value, rt * 0x1_0000);
    }

    /** Encodes the instruction. An argument refused half way leaves the bits gathered so far. */
    method Encode(addr: word) returns (ok: bool)
      modifies this`value
      ensures value == ValueLeft(info, args, extra, addr, old(value))
      ensures ok <==> MipsCodec.Encode(info, args, extra, addr).Some?
      ensures ok ==> MipsCodec.Encode(info, args, extra, addr) == Some(value)
    {
      if info.typ == NTYP {
        return false;
      }
      value := 0;
      var named := NameInstruction();
      if !named {
        return false;
      }
      ok := PlaceArguments(addr);
    }

    /** Puts the bits that name the instruction into a zero value. */
    method NameInstruction() returns (named: bool)
      requires value == 0
      modifies this`value
      ensures named <==> OpcodeBits(info.opcode).Some?
      ensures value == if named then OpcodeBits(info.opcode).value else 0
    {
      if info.opcode == OP_BGEZ {
        FindBcond(1);
      } else if info.opcode == OP_BLTZAL {
        FindBcond(16);
      } else if info.opcode == OP_BGEZAL {
        FindBcond(17);
      } else if info.opcode == OP_BLTZ {
        FindBcond(0);
      } else {
        var special := IsSpecial();
        if !special {
          var plain := IsNotSpecial();
          if !plain {
            return false;
          }
        }
      }
      BcondConstants();
      return true;
    }

    method PlaceArguments(addr: word) returns (ok: bool)
      modifies this`value
      ensures (ok, value as nat) == PlaceFrom(info, args, extra, addr, 0, old(value))
    {
      var i := 0;
      while i < 3
        invariant 0 <= i <= 3
        invariant PlaceFrom(info, args, extra, addr, i, value) == PlaceFrom(info, args, extra, addr, 0, old(value))
      {
        var f := Place(info, info.Src(i), args.Arg(i), extra, addr);
        if f.None? {
          return false;
        }
        OrOfWords(value, f.value);
        value := Or(value, f.value);
        i := i + 1;
      }
      return true;
    }

    /** Decodes the value. On failure nothing has changed. */
    method Decode(addr: word) returns (ok: bool)
      modifies this`info, this`regs, this`extra, this`args
      ensures ok <==> MipsCodec.Decode(value, addr).Some?
      ensures ok ==> MipsCodec.Decode(value, addr) == Some(Instr(info, args))
      ensures ok ==>
          extra == (if info.src2 == EXTRA then args.a2 else if info.src1 == EXTRA then args.a1
                    else if info.src0 == EXTRA then args.a0 else old(extra))
      ensures ok ==> regs == [(value / 0x20_0000) % 32, (value / 0x1_0000) % 32, (value / 0x800) % 32]
      ensures !ok ==> info == old(info) && regs == old(regs) && extra == old(extra) && args == old(args)
    {
      var opcode := OpcodeOf(value);
      if opcode.None? {
        return false;
      }
      DecodedOpcodeHasRow(value);
      FindRow(opcode.value);
      regs := [(value / 0x20_0000) % 32, (value / 0x1_0000) % 32, (value / 0x800) % 32];
      ExtractArguments(addr);
      return true;
    }

    method FindRow(op: Opcode)
      requires RowOf(op, 0).Some?
      modifies this`info
      ensures Some(info) == RowOf(op, 0)
    {
      var i := 0;
      while i < 64
        invariant 0 <= i <= 64 && RowOf(op, 0) == RowOf(op, i)
      {
        if InstrTable(i).opcode == op {
          info := InstrTable(i);
          return;
        }
        i := i + 1;
      }
    }

    method ExtractArguments(addr: word)
      requires info.opcode < 64 && info == InstrTable(info.opcode)
      modifies this`extra, this`args
      ensures DecodeArgs(info, value, addr) == Some(args)
      ensures extra ==
          if info.src2 == EXTRA then args.a2 else if info.src1 == EXTRA then args.a1
          else if info.src0 == EXTRA then args.a0 else old(extra)
    {
      var i := 0;
      while i < 3
        invariant 0 <= i <= 3
        invariant extra ==
          if i > 2 && info.src2 == EXTRA then args.a2 else if i > 1 && info.src1 == EXTRA then args.a1
          else if i > 0 && info.src0 == EXTRA then args.a0 else old(extra)
        invariant forall k | 0 <= k < i :: Extract(info, info.Src(k), value, addr) == Some(args.Arg(k))
      {
        RowsDecode(info.opcode, i, value, addr);
        var a := Extract(info, info.Src(i), value, addr).value;
        if info.Src(i) == EXTRA {
          extra := a;
        }
        args := args.With(i, a);
        i := i + 1;
      }
      assert info.Src(0) == info.src0 && info.Src(1) == info.src1 && info.Src(2) == info.src2;
    }
  }

  lemma BcondIsSecond()
    ensures OpcodeTable(0) != BCOND && OpcodeTable(1) == BCOND
  {
  }

  lemma BcondBits(rt: nat)
    requires rt < 32
    ensures rt * 0x1_0000 < TWO32 && Or(0x400_0000, rt * 0x1_0000) < TWO32
  {
    Powers();
    OrBounded(0x400_0000, rt * 0x1_0000, 32);
  }

  lemma OrOfWords(a: word, b: word)
    ensures Or(a, b) < TWO32
  {
    Powers();
    OrBounded(a, b, 32);
  }

  lemma BcondConstants()
    ensures Or(0x400_0000, 0) == 0x400_0000 && Or(0x400_0000, 0x1_0000) == 0x401_0000
    ensures Or(0x400_0000, 0x10_0000) == 0x410_0000 && Or(0x400_0000, 0x11_0000) == 0x411_0000
  {
    Powers();
    OrBelow(1, 0, 26);
    OrBelow(1, 0x1_0000, 26);
    OrBelow(1, 0x10_0000, 26);
    OrBelow(1, 0x11_0000, 26);
    hide Or, Pow2;
  }
}
