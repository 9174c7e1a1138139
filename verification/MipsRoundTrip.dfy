/** What survives encoding and decoding: exactly the arguments a word can carry
    (MIPS Convertor/src/hw1.c, MIPS Convertor/README.md). */
module MipsRoundTrip {
  import opened Bytes
  import opened MipsTables
  import opened MipsWords
  import opened MipsCodec
  import opened Sequences

  // ---------------------------------------------------------------------------------------------
  // Fields of a word
  // ---------------------------------------------------------------------------------------------

  /** The field of an argument in the word. */
  function FieldOf(info: InstrInfo, src: Source, value: nat): nat {
    match src
    case EXTRA =>
      if info.opcode == OP_BREAK then (value / 0x40) % 0x10_0000
      else if info.typ == RTYP then (value / 0x40) % 32
      else if info.typ == ITYP then value % 0x1_0000
      else value % 0x400_0000
    case RS => (value / 0x20_0000) % 32
    case RT => (value / 0x1_0000) % 32
    case RD => (value / 0x800) % 32
    case NSRC => 0
  }

  lemma Powers()
    ensures Pow2(0) == 1 && Pow2(5) == 32 && Pow2(6) == 64 && Pow2(8) == 0x100 && Pow2(11) == 0x800
    ensures Pow2(16) == 0x1_0000
    ensures Pow2(20) == 0x10_0000 && Pow2(21) == 0x20_0000 && Pow2(24) == 0x100_0000 && Pow2(26) == 0x400_0000
    ensures Pow2(32) == TWO32
  {
  }

  /** Fields of an or, field by field. */
  lemma FieldOfOr(info: InstrInfo, src: Source, a: nat, b: nat)
    ensures FieldOf(info, src, Or(a, b)) == Or(FieldOf(info, src, a), FieldOf(info, src, b))
  {
    Powers();
    hide Pow2;
    match src {
      case EXTRA =>
        if info.opcode == OP_BREAK {
          OrField(a, b, 0x40, 0x10_0000, 6, 20);
        } else if info.typ == RTYP {
          OrField(a, b, 0x40, 32, 6, 5);
        } else if info.typ == ITYP {
          OrField(a, b, 1, 0x1_0000, 0, 16);
        } else {
          OrField(a, b, 1, 0x400_0000, 0, 26);
        }
      case RS => OrField(a, b, 0x20_0000, 32, 21, 5);
      case RT => OrField(a, b, 0x1_0000, 32, 16, 5);
      case RD => OrField(a, b, 0x800, 32, 11, 5);
      case NSRC =>
    }
  }

  lemma OrTop(a: word, b: word)
    ensures Or(a, b) < TWO32 && Or(a, b) / 0x400_0000 == Or(a / 0x400_0000, b / 0x400_0000)
  {
    Powers();
    hide Pow2;
    OrBounded(a, b, 32);
    OrShr(a, b, 26);
    ShrIsDivision(a, 0x400_0000, 26);
    ShrIsDivision(b, 0x400_0000, 26);
    ShrIsDivision(Or(a, b), 0x400_0000, 26);
  }

  lemma OrNothing(a: nat)
    ensures Or(a, 0) == a && Or(0, a) == a
  {
  }

  lemma OrLowSix(a: nat, b: nat)
    ensures Or(a, b) % 64 == Or(a % 64, b % 64)
  {
    Powers();
    OrLow(a, b, 6);
    ShrIsDivision(a, 64, 6);
    ShrIsDivision(b, 64, 6);
    ShrIsDivision(Or(a, b), 64, 6);
  }

  lemma OrRt(a: nat, b: nat)
    ensures (Or(a, b) / 0x1_0000) % 32 == Or((a / 0x1_0000) % 32, (b / 0x1_0000) % 32)
  {
    Powers();
    OrField(a, b, 0x1_0000, 32, 16, 5);
  }

  /** A word without opcode bits leaves the opcode part of an or alone. */
  lemma OpcodePartOfOr(info: InstrInfo, a: word, b: word)
    requires OpcodePart(info, b) == 0
    ensures Or(a, b) < TWO32 && OpcodePart(info, Or(a, b)) == OpcodePart(info, a)
  {
    OrTop(a, b);
    OrLowSix(a, b);
    OrRt(a, b);
    OrNothing(a / 0x400_0000);
    OrNothing(a % 64);
    OrNothing((a / 0x1_0000) % 32);
    hide Or;
  }

  // ---------------------------------------------------------------------------------------------
  // One argument
  // ---------------------------------------------------------------------------------------------

  /** The arguments an instruction word can carry: registers 0 to 31, shift amounts 0 to 31, break codes below
      2^19, 16-bit signed immediates, word-aligned branches of up to 2^15 words either way, and word-aligned
      jump targets in the 256 MB region of the next instruction. */
  predicate Representable(info: InstrInfo, src: Source, arg: int32, addr: word) {
    match src
    case EXTRA =>
      if info.opcode == OP_BREAK then 0 <= arg < 0x8_0000
      else if info.typ == RTYP then 0 <= arg < 32
      else if info.typ == ITYP then
        if IsBranch(info.opcode) then
          var d := Wrap(arg - (addr + 4));
          d % 4 == 0 && -0x2_0000 <= d < 0x2_0000
        else -0x8000 <= arg < 0x8000
      else arg % 4 == 0 && Region(arg) == Region(addr + 4)
    case RS => 0 <= arg <= 31
    case RT => 0 <= arg <= 31
    case RD => 0 <= arg <= 31
    case NSRC => arg == 0
  }

  predicate AllRepresentable(info: InstrInfo, args: Args, addr: word) {
    && Representable(info, info.src0, args.a0, addr)
    && Representable(info, info.src1, args.a1, addr)
    && Representable(info, info.src2, args.a2, addr)
  }

  /** A break code with bit 19 set spills over the opcode when its sign is extended. */
  predicate Spills(info: InstrInfo, src: Source, arg: int32) {
    src == EXTRA && info.opcode == OP_BREAK && (arg / 0x8_0000) % 2 == 1
  }

  /** A branch distance that is a whole number of words comes back from its low 16 bits if it fits. */
  lemma OffsetBack(d: int32)
    ensures Signed16((d / 4) % 0x1_0000) * 4 == d <==> d % 4 == 0 && -0x2_0000 <= d < 0x2_0000
  {
  }

  lemma BranchBack(target: int32, addr: word)
    ensures Wrap(Signed16(BranchOffset(target, addr) % 0x1_0000) * 4 + addr + 4) == target
       <==> var d := Wrap(target - (addr + 4)); d % 4 == 0 && -0x2_0000 <= d < 0x2_0000
  {
    var d := Wrap(target - (addr + 4));
    OffsetBack(d);
    var e := Signed16((d / 4) % 0x1_0000) * 4;
    WrapAcross(e, addr + 4, target);
  }

  /** Adding the program counter back undoes subtracting it. */
  lemma WrapAcross(e: int32, pc: int, target: int32)
    ensures Wrap(e + pc) == target <==> e == Wrap(target - pc)
  {
  }

  lemma JumpBack(target: int32, before: nat, after: nat)
    requires before < 16 && after < 16
    ensures Wrap(((Wrap(target - before * 0x1000_0000) / 4) % 0x400_0000) * 4 + after * 0x1000_0000) == target
       <==> target % 4 == 0 && Word(target) / 0x1000_0000 == after
  {
    var w := Word(target);
    var low := w % 0x1000_0000;
    QuarterOfLow(target, before);
    TargetWord(w, after);
    WordOfWrap((low / 4) * 4 + after * 0x1000_0000, target);
    WordModFour(target);
    hide Wrap, Word;
  }

  lemma WordModFour(x: int)
    ensures Word(x) % 4 == x % 4
  {
  }

  lemma TargetWord(w: word, after: nat)
    requires after < 16
    ensures 0 <= ((w % 0x1000_0000) / 4) * 4 + after * 0x1000_0000 < TWO32
    ensures ((w % 0x1000_0000) / 4) * 4 + after * 0x1000_0000 == w <==> w % 4 == 0 && w / 0x1000_0000 == after
  {
  }

  lemma WordOfWrap(t: word, x: int32)
    ensures Wrap(t) == x <==> t == Word(x)
  {
  }

  lemma QuarterThenLow(z: int)
    ensures (z / 4) % 0x400_0000 == (z % 0x1000_0000) / 4
  {
  }

  lemma LowUnmoved(x: int, m: int)
    ensures (x + m * 0x1000_0000) % 0x1000_0000 == x % 0x1000_0000
  {
  }

  lemma QuarterOfLow(target: int32, before: nat)
    ensures (Wrap(target - before * 0x1000_0000) / 4) % 0x400_0000 == (Word(target) % 0x1000_0000) / 4
  {
    var x := target - before * 0x1000_0000;
    QuarterThenLow(Wrap(x));
    LowUnmoved(target, 0 - before - 16 * ((x + 0x8000_0000) / TWO32));
    LowUnmoved(target, -16 * (target / TWO32));
  }

  /** Extracting a placed argument gives it back exactly when it is representable. */
  lemma ExtractPlaced(info: InstrInfo, src: Source, arg: int32, extra: int32, addr: word, f: word, value: word)
    requires KnownKind(info)
    requires Place(info, src, arg, extra, addr) == Some(f) && !Spills(info, src, arg)
    requires FieldOf(info, src, value) == FieldOf(info, src, f)
    ensures Extract(info, src, value, addr) == Some(arg) <==> Representable(info, src, arg, addr)
  {
    if src != EXTRA {
      RegisterPlaced(info, src, arg, extra, addr, f, value);
    } else if info.typ == ITYP {
      ImmediatePlaced(info, arg, extra, addr, f, value);
    } else if info.typ == JTYP {
      TargetPlaced(info, arg, extra, addr, f, value);
    } else {
      CodePlaced(info, arg, extra, addr, f, value);
    }
  }

  lemma RegisterPlaced(info: InstrInfo, src: Source, arg: int32, extra: int32, addr: word, f: word, value: word)
    requires src != EXTRA && Place(info, src, arg, extra, addr) == Some(f)
    requires FieldOf(info, src, value) == FieldOf(info, src, f)
    ensures Extract(info, src, value, addr) == Some(arg) <==> Representable(info, src, arg, addr)
  {
    if 0 <= arg < 32 {
      RegisterFields(arg);
    }
    hide Wrap, Region, BranchOffset, Signed16, IsBranch;
  }

  lemma CodePlaced(info: InstrInfo, arg: int32, extra: int32, addr: word, f: word, value: word)
    requires KnownKind(info) && info.typ == RTYP
    requires Place(info, EXTRA, arg, extra, addr) == Some(f) && !Spills(info, EXTRA, arg)
    requires FieldOf(info, EXTRA, value) == FieldOf(info, EXTRA, f)
    ensures Extract(info, EXTRA, value, addr) == Some(arg) <==> Representable(info, EXTRA, arg, addr)
  {
    if info.opcode == OP_BREAK {
      BreakField(arg);
      AtSix(arg % 0x8_0000);
    } else {
      AtSix(arg % 32);
    }
    hide Wrap, Word, Region, BranchOffset, Signed16, IsBranch;
  }

  lemma AtSix(x: nat)
    ensures (x * 0x40) / 0x40 == x
    ensures x < 32 ==> x % 32 == x
    ensures x < 0x10_0000 ==> x % 0x10_0000 == x
  {
  }

  /** Register numbers in each of the three register fields, seen from the others. */
  lemma RegisterFields(r: int)
    requires 0 <= r < 32
    ensures var f := r * 0x20_0000;
      && (f / 0x20_0000) % 32 == r && (f / 0x1_0000) % 32 == 0
      && (f / 0x800) % 32 == 0 && (f / 0x40) % 32 == 0 && f % 0x1_0000 == 0
      && f / 0x400_0000 == 0 && f % 64 == 0
    ensures var f := r * 0x1_0000;
      && (f / 0x20_0000) % 32 == 0 && (f / 0x1_0000) % 32 == r
      && (f / 0x800) % 32 == 0 && (f / 0x40) % 32 == 0 && f % 0x1_0000 == 0
      && f / 0x400_0000 == 0 && f % 64 == 0
    ensures var f := r * 0x800;
      (f / 0x20_0000) % 32 == 0 && (f / 0x1_0000) % 32 == 0 && (f / 0x800) % 32 == r && (f / 0x40) % 32 == 0
      && f / 0x400_0000 == 0 && f % 64 == 0
  {
  }

  lemma ImmediatePlaced(info: InstrInfo, arg: int32, extra: int32, addr: word, f: word, value: word)
    requires KnownKind(info) && info.typ == ITYP
    requires Place(info, EXTRA, arg, extra, addr) == Some(f)
    requires FieldOf(info, EXTRA, value) == FieldOf(info, EXTRA, f)
    ensures Extract(info, EXTRA, value, addr) == Some(arg) <==> Representable(info, EXTRA, arg, addr)
  {
    assert value % 0x1_0000 == f % 0x1_0000 == f;
    if IsBranch(info.opcode) {
      BranchBack(arg, addr);
      hide Wrap, Signed16, BranchOffset;
    }
  }

  lemma TargetPlaced(info: InstrInfo, arg: int32, extra: int32, addr: word, f: word, value: word)
    requires KnownKind(info) && info.typ == JTYP
    requires Place(info, EXTRA, arg, extra, addr) == Some(f)
    requires FieldOf(info, EXTRA, value) == FieldOf(info, EXTRA, f)
    ensures Extract(info, EXTRA, value, addr) == Some(arg) <==> Representable(info, EXTRA, arg, addr)
  {
    assert value % 0x400_0000 == f % 0x400_0000 == f;
    JumpBack(arg, Region(addr - 4), Region(addr + 4));
    hide Wrap, Signed16;
  }

  lemma WrapTurns(q: int, x: int)
    ensures Wrap(q * TWO32 + x) == Wrap(x)
  {
  }

  lemma HalfOf20Bits(arg: int)
    ensures (arg / 0x8_0000) % 2 == 1 <==> arg % 0x10_0000 >= 0x8_0000
    ensures (arg / 0x8_0000) % 2 == 0 ==> arg % 0x10_0000 == arg % 0x8_0000
  {
  }

  /** Shifting a break code up by 12 keeps its low 20 bits, with bit 19 as the sign. */
  lemma BreakShifted(arg: int32)
    ensures var low := arg % 0x10_0000;
      Wrap(arg * 0x1000) == if low >= 0x8_0000 then low * 0x1000 - TWO32 else low * 0x1000
  {
    var q, low := arg / 0x10_0000, arg % 0x10_0000;
    assert arg * 0x1000 == q * TWO32 + low * 0x1000;
    WrapTurns(q, low * 0x1000);
  }

  /** A break code that does not spill takes 25:6 with its low 20 bits, the top one clear. */
  lemma BreakField(arg: int32)
    requires (arg / 0x8_0000) % 2 == 0
    ensures Word(Wrap(arg * 0x1000) / 0x40) == (arg % 0x8_0000) * 0x40
  {
    BreakShifted(arg);
    HalfOf20Bits(arg);
    hide Wrap;
    var low := arg % 0x8_0000;
    assert (low * 0x1000) / 0x40 == low * 0x40;
  }

  /** One that does sets all six bits of 31:26. */
  lemma BreakSpills(arg: int32)
    requires (arg / 0x8_0000) % 2 == 1
    ensures Word(Wrap(arg * 0x1000) / 0x40) / 0x400_0000 == 63
  {
    BreakShifted(arg);
    HalfOf20Bits(arg);
    hide Wrap;
    var low := arg % 0x10_0000;
    assert (low * 0x1000 - TWO32) / 0x40 == low * 0x40 - 0x400_0000;
  }

  // ---------------------------------------------------------------------------------------------
  // Fields do not overlap
  // ---------------------------------------------------------------------------------------------

  predicate Uses(info: InstrInfo, src: Source) {
    src == info.src0 || src == info.src1 || src == info.src2
  }

  /** An argument's bits lie outside every other argument's field and outside the opcode part. */
  lemma PlacedApart(info: InstrInfo, src: Source, other: Source, arg: int32, extra: int32, addr: word, f: word)
    requires KnownShape(info) && KnownKind(info) && Uses(info, src) && Uses(info, other) && other != src
    requires Place(info, src, arg, extra, addr) == Some(f) && !Spills(info, src, arg)
    ensures FieldOf(info, other, f) == 0
  {
    if src == EXTRA {
      if info.opcode == OP_BREAK {
        BreakField(arg);
      }
      ExtraApart(info, other, arg, extra, addr, f);
    } else if 0 <= arg < 32 {
      RegisterFields(arg);
      hide BranchOffset, Wrap, Region;
    }
  }

  lemma ExtraApart(info: InstrInfo, other: Source, arg: int32, extra: int32, addr: word, f: word)
    requires KnownShape(info) && KnownKind(info) && Uses(info, EXTRA) && Uses(info, other) && other != EXTRA
    requires Place(info, EXTRA, arg, extra, addr) == Some(f) && !Spills(info, EXTRA, arg)
    ensures FieldOf(info, other, f) == 0
  {
    hide BranchOffset, Wrap, Region;
  }

  lemma PlacedOffOpcode(info: InstrInfo, src: Source, arg: int32, extra: int32, addr: word, f: word)
    requires KnownShape(info) && KnownKind(info) && Uses(info, src)
    requires Place(info, src, arg, extra, addr) == Some(f) && !Spills(info, src, arg)
    ensures OpcodePart(info, f) == 0
  {
    if src == EXTRA {
      if info.opcode == OP_BREAK {
        BreakField(arg);
      }
      ExtraOffOpcode(info, arg, extra, addr, f);
    } else if 0 <= arg < 32 {
      RegisterFields(arg);
      hide BranchOffset, Wrap, Region, IsBranch;
    }
  }

  lemma ExtraOffOpcode(info: InstrInfo, arg: int32, extra: int32, addr: word, f: word)
    requires KnownShape(info) && KnownKind(info) && Uses(info, EXTRA)
    requires Place(info, EXTRA, arg, extra, addr) == Some(f) && !Spills(info, EXTRA, arg)
    requires info.opcode == OP_BREAK ==> f == (arg % 0x8_0000) * 0x40
    ensures OpcodePart(info, f) == 0
  {
    assert IsBcond(info.opcode) ==> info.typ == ITYP;
    hide BranchOffset, Wrap, Word, Region, IsBranch;
    if info.typ == RTYP {
      if info.opcode == OP_BREAK {
        AboveSix(arg % 0x8_0000);
      } else {
        AboveSix(arg % 32);
      }
    } else {
      BelowOpcode(f);
    }
  }

  lemma AboveSix(x: nat)
    requires x < 0x10_0000
    ensures (x * 0x40) % 64 == 0 && (x * 0x40) / 0x400_0000 == 0
  {
  }

  lemma BelowOpcode(f: nat)
    ensures f < 0x400_0000 ==> f / 0x400_0000 == 0
    ensures f < 0x1_0000 ==> f / 0x1_0000 == 0
  {
  }

  lemma OpcodeBitsApart(info: InstrInfo, src: Source, bits: nat)
    requires IsRow(info) && Uses(info, src) && OpcodeBits(info.opcode) == Some(bits)
    ensures FieldOf(info, src, bits) == 0 && OpcodePart(info, bits) == bits && bits < TWO32
  {
    RowShapes(info);
    if !IsBcond(info.opcode) {
      OpcodeHome(info.opcode);
      hide InstrTable, SpecialTable, OpcodeTable, SpecialIndex, OpcodeIndex, FieldOf, OpcodePart;
      if info.typ == RTYP {
        RegisterBitsApart(info, src, bits);
      } else {
        OtherBitsApart(info, src, OpcodeIndex(info.opcode, 0).value);
      }
    } else {
      hide InstrTable, SpecialTable, OpcodeTable, SpecialIndex, OpcodeIndex;
    }
  }

  lemma RegisterBitsApart(info: InstrInfo, src: Source, k: nat)
    requires info.typ == RTYP && k < 64
    ensures FieldOf(info, src, k) == 0 && OpcodePart(info, k) == k
  {
    SpecialBits(k);
  }

  lemma OtherBitsApart(info: InstrInfo, src: Source, k: nat)
    requires KnownShape(info) && KnownKind(info) && info.typ != RTYP && !IsBcond(info.opcode)
    requires Uses(info, src) && k < 64
    ensures FieldOf(info, src, k * 0x400_0000) == 0 && OpcodePart(info, k * 0x400_0000) == k * 0x400_0000
  {
    TopOnly(k);
  }

  lemma SpecialBits(k: nat)
    requires k < 64
    ensures k / 0x40 == 0 && k / 0x800 == 0 && k / 0x1_0000 == 0 && k / 0x20_0000 == 0 && k / 0x400_0000 == 0
    ensures k % 64 == k
  {
  }

  lemma TopOnly(k: nat)
    requires k < 64
    ensures var b := k * 0x400_0000;
      && b % 0x1_0000 == 0 && b % 0x400_0000 == 0 && b / 0x400_0000 == k
      && (b / 0x20_0000) % 32 == 0 && (b / 0x1_0000) % 32 == 0
  {
  }

  // ---------------------------------------------------------------------------------------------
  // Decoding an encoded instruction
  // ---------------------------------------------------------------------------------------------

  /** The three contributions to an encoded word. */
  lemma EncodeParts(info: InstrInfo, args: Args, extra: int32, addr: word, value: nat)
    returns (bits: nat, f0: word, f1: word, f2: word)
    requires Encode(info, args, extra, addr) == Some(value)
    ensures OpcodeBits(info.opcode) == Some(bits) && value == Or(Or(Or(bits, f0), f1), f2)
    ensures Place(info, info.src0, args.a0, extra, addr) == Some(f0)
    ensures Place(info, info.src1, args.a1, extra, addr) == Some(f1)
    ensures Place(info, info.src2, args.a2, extra, addr) == Some(f2)
  {
    hide OpcodeBits, Place, Or;
    bits := OpcodeBits(info.opcode).value;
    var p0 := Place(info, info.Src(0), args.Arg(0), extra, addr);
    assert p0.Some?;
    f0 := p0.value;
    assert PlaceFrom(info, args, extra, addr, 1, Or(bits, f0)) == (true, value);
    var p1 := Place(info, info.Src(1), args.Arg(1), extra, addr);
    assert p1.Some?;
    f1 := p1.value;
    assert PlaceFrom(info, args, extra, addr, 2, Or(Or(bits, f0), f1)) == (true, value);
    var p2 := Place(info, info.Src(2), args.Arg(2), extra, addr);
    assert p2.Some?;
    f2 := p2.value;
    assert PlaceFrom(info, args, extra, addr, 3, Or(Or(Or(bits, f0), f1), f2)) == (true, value);
  }

  predicate AnySpills(info: InstrInfo, args: Args) {
    Spills(info, info.src0, args.a0) || Spills(info, info.src1, args.a1) || Spills(info, info.src2, args.a2)
  }

  /** Each argument's field in the encoded word is what the argument contributed, and the opcode part is the
      opcode's. */
  lemma EncodedFields(info: InstrInfo, args: Args, extra: int32, addr: word, value: nat)
    returns (bits: nat, f0: word, f1: word, f2: word)
    requires IsRow(info) && Encode(info, args, extra, addr) == Some(value) && !AnySpills(info, args)
    ensures value < TWO32 && OpcodeBits(info.opcode) == Some(bits) && OpcodePart(info, value) == bits
    ensures Place(info, info.src0, args.a0, extra, addr) == Some(f0)
    ensures FieldOf(info, info.src0, value) == FieldOf(info, info.src0, f0)
    ensures Place(info, info.src1, args.a1, extra, addr) == Some(f1)
    ensures FieldOf(info, info.src1, value) == FieldOf(info, info.src1, f1)
    ensures Place(info, info.src2, args.a2, extra, addr) == Some(f2)
    ensures FieldOf(info, info.src2, value) == FieldOf(info, info.src2, f2)
  {
    bits, f0, f1, f2 := EncodeParts(info, args, extra, addr, value);
    RowShapes(info);
    OpcodeBitsApart(info, info.src0, bits);
    PlacedOffOpcode(info, info.src0, args.a0, extra, addr, f0);
    PlacedOffOpcode(info, info.src1, args.a1, extra, addr, f1);
    PlacedOffOpcode(info, info.src2, args.a2, extra, addr, f2);
    OpcodePartOfOr(info, bits, f0);
    OpcodePartOfOr(info, Or(bits, f0), f1);
    OpcodePartOfOr(info, Or(Or(bits, f0), f1), f2);
    OneField(info, info.src0, bits, args, extra, addr, f0, f1, f2);
    OneField(info, info.src1, bits, args, extra, addr, f0, f1, f2);
    OneField(info, info.src2, bits, args, extra, addr, f0, f1, f2);
  }

  /** The field of one source in the or of the opcode and all three arguments. */
  lemma OneField(info: InstrInfo, src: Source, bits: nat, args: Args, extra: int32, addr: word,
                 f0: word, f1: word, f2: word)
    requires IsRow(info) && OpcodeBits(info.opcode) == Some(bits) && !AnySpills(info, args) && Uses(info, src)
    requires Place(info, info.src0, args.a0, extra, addr) == Some(f0)
    requires Place(info, info.src1, args.a1, extra, addr) == Some(f1)
    requires Place(info, info.src2, args.a2, extra, addr) == Some(f2)
    ensures var value := Or(Or(Or(bits, f0), f1), f2);
      && (src == info.src0 ==> FieldOf(info, src, value) == FieldOf(info, src, f0))
      && (src == info.src1 ==> FieldOf(info, src, value) == FieldOf(info, src, f1))
      && (src == info.src2 ==> FieldOf(info, src, value) == FieldOf(info, src, f2))
  {
    RowShapes(info);
    OpcodeBitsApart(info, src, bits);
    FieldOfOr(info, src, bits, f0);
    FieldOfOr(info, src, Or(bits, f0), f1);
    FieldOfOr(info, src, Or(Or(bits, f0), f1), f2);
    if info.src0 != src { PlacedApart(info, info.src0, src, args.a0, extra, addr, f0); }
    if info.src1 != src { PlacedApart(info, info.src1, src, args.a1, extra, addr, f1); }
    if info.src2 != src { PlacedApart(info, info.src2, src, args.a2, extra, addr, f2); }
    OrNothing(FieldOf(info, src, f0));
    OrNothing(FieldOf(info, src, f1));
    OrNothing(FieldOf(info, src, f2));
    OrNothing(0);
    hide InstrTable, Place, Or, OpcodeBits;
  }

  /** The round trip, in both directions: an instruction the encoder accepts is decoded back, at the same
      address, exactly when its arguments are ones a word can carry. */
  lemma DecodeEncoded(info: InstrInfo, args: Args, extra: int32, addr: word, value: nat)
    requires IsRow(info) && Encode(info, args, extra, addr) == Some(value)
    ensures value < TWO32
    ensures Decode(value, addr) == Some(Instr(info, args)) <==> AllRepresentable(info, args, addr)
  {
    if AnySpills(info, args) {
      SpilledIsIllegal(info, args, extra, addr, value);
    } else {
      var bits, f0, f1, f2 := EncodedFields(info, args, extra, addr, value);
      OpcodeSurvives(info, value, bits);
      RowShapes(info);
      ExtractPlaced(info, info.src0, args.a0, extra, addr, f0, value);
      ExtractPlaced(info, info.src1, args.a1, extra, addr, f1, value);
      ExtractPlaced(info, info.src2, args.a2, extra, addr, f2, value);
      hide InstrTable, Place, OpcodeBits, OpcodeOf, RowOf, Extract, Representable, FieldOf, OpcodePart, IsRow, Encode;
    }
  }

  lemma SpilledTop(bits: nat, f: word)
    requires bits < 64 && f / 0x400_0000 == 63
    ensures Or(bits, f) < TWO32 && Or(bits, f) / 0x400_0000 == 63
  {
    OrTop(bits, f);
    SpecialBits(bits);
    OrNothing(63);
  }

  lemma TopOnesIllegal(value: word)
    requires value / 0x400_0000 == 63
    ensures forall addr :: Decode(value, addr).None?
  {
    assert OpcodeOf(value).None?;
  }

  /** The one row whose code can spill, and where its code goes. */
  lemma BreakRow(info: InstrInfo, args: Args)
    requires IsRow(info) && AnySpills(info, args)
    ensures info == InstrInfo(OP_BREAK, RTYP, EXTRA, NSRC, NSRC) && Spills(info, EXTRA, args.a0)
    ensures forall addr :: !AllRepresentable(info, args, addr)
  {
    RowShapes(info);
  }

  /** A break code that spills makes the word illegal. */
  lemma SpilledIsIllegal(info: InstrInfo, args: Args, extra: int32, addr: word, value: nat)
    requires IsRow(info) && Encode(info, args, extra, addr) == Some(value) && AnySpills(info, args)
    ensures value < TWO32 && value / 0x400_0000 == 63
    ensures Decode(value, addr).None? && !AllRepresentable(info, args, addr)
  {
    var bits, f0, f1, f2 := EncodeParts(info, args, extra, addr, value);
    BreakRow(info, args);
    OpcodeHome(OP_BREAK);
    assert SpecialTable(13) == OP_BREAK;
    hide InstrTable, SpecialTable, OpcodeTable, SpecialIndex, OpcodeIndex, Encode;
    assert bits < 64 && f1 == 0 && f2 == 0 && f0 == Word(Wrap(args.a0 * 0x1000) / 0x40);
    BreakSpills(args.a0);
    assert f0 / 0x400_0000 == 63;
    hide *;
    OrNothing(Or(bits, f0));
    SpilledTop(bits, f0);
    TopOnesIllegal(value);
  }

  // ---------------------------------------------------------------------------------------------
  // Where the arguments are put
  // ---------------------------------------------------------------------------------------------

  /** The word has the argument where the instruction format says: registers in 25:21, 20:16 and 15:11, a break code
      in 25:6, a shift amount in 10:6, an immediate in 15:0, there too the distance of a branch from the next
      instruction in words, and in 25:0 the word a jump goes to. Too large a number is cut off. */
  predicate HasArgument(info: InstrInfo, src: Source, arg: int32, addr: word, value: nat) {
    match src
    case RS => (value / 0x20_0000) % 32 == arg
    case RT => (value / 0x1_0000) % 32 == arg
    case RD => (value / 0x800) % 32 == arg
    case NSRC => arg == 0
    case EXTRA =>
      if info.opcode == OP_BREAK then (value / 0x40) % 0x10_0000 == arg % 0x10_0000
      else if info.typ == RTYP then (value / 0x40) % 32 == arg % 32
      else if info.typ == JTYP then value % 0x400_0000 == (arg / 4) % 0x400_0000
      else value % 0x1_0000 == (if IsBranch(info.opcode) then (arg - (addr + 4)) / 4 else arg) % 0x1_0000
  }

  lemma WrappedQuarter(d: int)
    ensures (Wrap(d) / 4) % 0x1_0000 == (d / 4) % 0x1_0000
    ensures (Wrap(d) / 4) % 0x400_0000 == (d / 4) % 0x400_0000
  {
    var q, x := (d + 0x8000_0000) / TWO32, Wrap(d);
    assert d == x + q * TWO32;
    QuarterTurns(x, q);
  }

  lemma QuarterTurns(x: int, q: int)
    ensures ((x + q * TWO32) / 4) % 0x1_0000 == (x / 4) % 0x1_0000
    ensures ((x + q * TWO32) / 4) % 0x400_0000 == (x / 4) % 0x400_0000
  {
    assert (x + q * TWO32) / 4 == x / 4 + q * 0x4000_0000;
    FullTurns(x / 4, q * 0x4000, 0x1_0000);
    FullTurns(x / 4, q * 0x10, 0x400_0000);
  }

  lemma FullTurns(x: int, q: int, m: int)
    requires m == 0x1_0000 || m == 0x400_0000
    ensures (x + q * m) % m == x % m
  {
  }

  lemma BreakCodePlaced(arg: int32)
    ensures (Word(Wrap(arg * 0x1000) / 0x40) / 0x40) % 0x10_0000 == arg % 0x10_0000
  {
    var x := Wrap(arg * 0x1000);
    var q := (arg * 0x1000 + 0x8000_0000) / TWO32;
    assert x == arg * 0x1000 - q * TWO32 == (arg - q * 0x10_0000) * 0x1000;
    var y := arg - q * 0x10_0000;
    assert x / 0x40 == y * 0x40;
    assert -0x8_0000 <= y < 0x8_0000;
    assert Word(y * 0x40) / 0x40 == if y < 0 then y + 0x400_0000 else y;
    assert arg % 0x10_0000 == y % 0x10_0000 by { TwentyBits(y, q); }
  }

  lemma TwentyBits(y: int, q: int)
    ensures (y + q * 0x10_0000) % 0x10_0000 == y % 0x10_0000
  {
  }

  lemma JumpPlaced(arg: int32, region: nat)
    requires region < 16
    ensures (Wrap(arg - region * 0x1000_0000) / 4) % 0x400_0000 == (arg / 4) % 0x400_0000
  {
    WrappedQuarter(arg - region * 0x1000_0000);
    assert (arg - region * 0x1000_0000) / 4 == arg / 4 - region * 0x400_0000;
    FullTurns(arg / 4, 0 - region as int, 0x400_0000);
    hide Wrap;
  }

  lemma PlacedRegister(arg: int32, unit: nat)
    requires 0 <= arg < 32 && (unit == 0x20_0000 || unit == 0x1_0000 || unit == 0x800)
    ensures ((arg * unit) / unit) % 32 == arg
  {
  }

  lemma PlacedImmediate(info: InstrInfo, arg: int32, extra: int32, addr: word, f: word)
    requires info.typ == ITYP && info.opcode != OP_BREAK && Place(info, EXTRA, arg, extra, addr) == Some(f)
    ensures f % 0x1_0000 == (if IsBranch(info.opcode) then (arg - (addr + 4)) / 4 else arg) % 0x1_0000
  {
    WrappedQuarter(arg - (addr + 4));
    hide Wrap;
  }

  lemma PlacedExtra(info: InstrInfo, arg: int32, extra: int32, addr: word, f: word, value: nat)
    requires KnownKind(info) && Place(info, EXTRA, arg, extra, addr) == Some(f)
    requires FieldOf(info, EXTRA, value) == FieldOf(info, EXTRA, f)
    ensures HasArgument(info, EXTRA, arg, addr, value)
  {
    if info.opcode == OP_BREAK {
      BreakCodePlaced(arg);
      hide Wrap;
    } else if info.typ == JTYP {
      JumpPlaced(arg, Region(addr - 4));
      hide Wrap, Region;
    } else if info.typ == ITYP {
      PlacedImmediate(info, arg, extra, addr, f);
      hide Place;
    }
  }

  lemma PlacedArgument(info: InstrInfo, src: Source, arg: int32, extra: int32, addr: word, f: word, value: nat)
    requires KnownKind(info) && Place(info, src, arg, extra, addr) == Some(f)
    requires FieldOf(info, src, value) == FieldOf(info, src, f)
    ensures HasArgument(info, src, arg, addr, value)
  {
    match src {
      case EXTRA =>
        hide *;
        PlacedExtra(info, arg, extra, addr, f, value);
      case RS => PlacedRegister(arg, 0x20_0000);
      case RT => PlacedRegister(arg, 0x1_0000);
      case RD => PlacedRegister(arg, 0x800);
      case NSRC =>
    }
  }

  /** Whatever is encoded has all its arguments in their places, cut off where they are too large; the break codes
      that spill excepted. */
  lemma EncodedLayout(info: InstrInfo, args: Args, extra: int32, addr: word, value: nat)
    requires IsRow(info) && Encode(info, args, extra, addr) == Some(value)
    requires info.opcode == OP_BREAK ==> (args.a0 / 0x8_0000) % 2 == 0
    ensures forall i | 0 <= i < 3 :: HasArgument(info, info.Src(i), args.Arg(i), addr, value)
  {
    RowShapes(info);
    assert !AnySpills(info, args);
    var bits, f0, f1, f2 := EncodedFields(info, args, extra, addr, value);
    hide Place, FieldOf, InstrTable, Encode, HasArgument;
    PlacedArgument(info, info.src0, args.a0, extra, addr, f0, value);
    PlacedArgument(info, info.src1, args.a1, extra, addr, f1, value);
    PlacedArgument(info, info.src2, args.a2, extra, addr, f2, value);
  }

  /** The conditions of BCOND: 00000, 00001, 10000 and 10001 in 20:16. */
  lemma BcondConditions(value: word)
    requires value / 0x400_0000 == 1
    ensures var rt := (value / 0x1_0000) % 32;
      OpcodeOf(value) ==
        if rt == 0 then Some(OP_BLTZ) else if rt == 1 then Some(OP_BGEZ)
        else if rt == 16 then Some(OP_BLTZAL) else if rt == 17 then Some(OP_BGEZAL) else None
  {
  }

  const ADD_ROW := InstrInfo(OP_ADD, RTYP, RD, RS, RT)
  const LW_ROW := InstrInfo(OP_LW, ITYP, RT, EXTRA, RS)
  const BEQ_ROW := InstrInfo(OP_BEQ, ITYP, RS, RT, EXTRA)
  const J_ROW := InstrInfo(OP_J, JTYP, EXTRA, NSRC, NSRC)

  lemma ExampleOpcodes()
    ensures OpcodeOf(0x00c7_2820) == Some(OP_ADD) && OpcodeOf(0x8cc5_0007) == Some(OP_LW)
    ensures OpcodeOf(0x10ef_fc1f) == Some(OP_BEQ) && OpcodeOf(0x0800_0400) == Some(OP_J)
  {
  }

  lemma ExampleRows()
    ensures RowOf(OP_ADD, 0) == Some(ADD_ROW) && RowOf(OP_LW, 0) == Some(LW_ROW)
    ensures RowOf(OP_BEQ, 0) == Some(BEQ_ROW) && RowOf(OP_J, 0) == Some(J_ROW)
  {
    RowOfOpcode(OP_ADD, 0);
    RowOfOpcode(OP_LW, 0);
    RowOfOpcode(OP_BEQ, 0);
    RowOfOpcode(OP_J, 0);
    hide RowOf;
  }

  lemma ExampleArguments(addr: word)
    ensures DecodeArgs(ADD_ROW, 0x00c7_2820, addr) == Some(Args(5, 6, 7))
    ensures DecodeArgs(LW_ROW, 0x8cc5_0007, addr) == Some(Args(5, 7, 6))
    ensures DecodeArgs(BEQ_ROW, 0x10ef_fc1f, 0x1000) == Some(Args(7, 15, 128))
    ensures DecodeArgs(J_ROW, 0x0800_0400, 0x4000_0000) == Some(Args(0x4000_1000, 0, 0))
  {
  }

  /** The four worked examples of the instruction format: add $5,$6,$7 and lw $5,7($6) anywhere, beq $7,$15,128 at
      1000 and j 0x40001000 at 40000000. */
  lemma WorkedExamples(addr: word)
    ensures Decode(0x00c7_2820, addr) == Some(Instr(ADD_ROW, Args(5, 6, 7)))
    ensures Decode(0x8cc5_0007, addr) == Some(Instr(LW_ROW, Args(5, 7, 6)))
    ensures Decode(0x10ef_fc1f, 0x1000) == Some(Instr(BEQ_ROW, Args(7, 15, 128)))
    ensures Decode(0x0800_0400, 0x4000_0000) == Some(Instr(J_ROW, Args(0x4000_1000, 0, 0)))
  {
    ExampleOpcodes();
    ExampleRows();
    ExampleArguments(addr);
    hide OpcodeOf, RowOf, DecodeArgs;
  }

  /** Whether the extra field fits the extra argument: the encoder compares them for immediates (as a word
      offset for branches) and takes the region of a jump from it. */
  predicate ExtraFits(info: InstrInfo, arg: int32, extra: int32, addr: word) {
    if info.typ == ITYP then extra == if IsBranch(info.opcode) then BranchOffset(arg, addr) else arg
    else info.typ == JTYP ==> Region(extra) == Region(addr)
  }

  predicate AllExtraFits(info: InstrInfo, args: Args, extra: int32, addr: word) {
    && (info.src0 == EXTRA ==> ExtraFits(info, args.a0, extra, addr))
    && (info.src1 == EXTRA ==> ExtraFits(info, args.a1, extra, addr))
    && (info.src2 == EXTRA ==> ExtraFits(info, args.a2, extra, addr))
  }

  lemma PlaceAccepts(info: InstrInfo, src: Source, arg: int32, extra: int32, addr: word)
    requires KnownKind(info) && Representable(info, src, arg, addr)
    ensures Place(info, src, arg, extra, addr).Some? <==> (src == EXTRA ==> ExtraFits(info, arg, extra, addr))
  {
    hide BranchOffset, Wrap, Region;
  }

  lemma RowHasBits(info: InstrInfo)
    requires IsRow(info)
    ensures OpcodeBits(info.opcode).Some?
  {
    var op := info.opcode;
    if !IsBcond(op) {
      RowsHaveCodes(op);
      SpecialIndexFirst(op, 0);
      OpcodeIndexFirst(op, 0);
      hide InstrTable, SpecialTable, OpcodeTable, CodeOf, SpecialIndex, OpcodeIndex;
    }
  }

  lemma EncodeIff(info: InstrInfo, args: Args, extra: int32, addr: word)
    requires IsRow(info)
    ensures Encode(info, args, extra, addr).Some? <==>
      && Place(info, info.src0, args.a0, extra, addr).Some?
      && Place(info, info.src1, args.a1, extra, addr).Some?
      && Place(info, info.src2, args.a2, extra, addr).Some?
  {
    RowHasBits(info);
    hide Place, InstrTable;
    PlaceFromAccepts(info, args, extra, addr, OpcodeBits(info.opcode).value);
  }

  /** Arguments a word can carry are accepted exactly when the extra field fits them. */
  lemma EncodeAccepts(info: InstrInfo, args: Args, extra: int32, addr: word)
    requires IsRow(info) && AllRepresentable(info, args, addr)
    ensures Encode(info, args, extra, addr).Some? <==> AllExtraFits(info, args, extra, addr)
  {
    RowShapes(info);
    EncodeIff(info, args, extra, addr);
    PlaceAccepts(info, info.src0, args.a0, extra, addr);
    PlaceAccepts(info, info.src1, args.a1, extra, addr);
    PlaceAccepts(info, info.src2, args.a2, extra, addr);
    hide Encode, Place, Representable, ExtraFits;
  }

  lemma PlaceFromAccepts(info: InstrInfo, args: Args, extra: int32, addr: word, bits: nat)
    ensures PlaceFrom(info, args, extra, addr, 0, bits).0 <==>
      && Place(info, info.src0, args.a0, extra, addr).Some?
      && Place(info, info.src1, args.a1, extra, addr).Some?
      && Place(info, info.src2, args.a2, extra, addr).Some?
    ensures PlaceFrom(info, args, extra, addr, 0, bits).0 ==>
      PlaceFrom(info, args, extra, addr, 0, bits).1
        == Or(Or(Or(bits, Place(info, info.src0, args.a0, extra, addr).value),
                 Place(info, info.src1, args.a1, extra, addr).value),
              Place(info, info.src2, args.a2, extra, addr).value)
  {
    hide Place, Or;
    assert info.Src(0) == info.src0 && info.Src(1) == info.src1 && info.Src(2) == info.src2;
    if p0 :| p0 == Place(info, info.src0, args.a0, extra, addr) && p0.Some? {
      var v1 := Or(bits, p0.value);
      assert PlaceFrom(info, args, extra, addr, 0, bits) == PlaceFrom(info, args, extra, addr, 1, v1);
      if p1 :| p1 == Place(info, info.src1, args.a1, extra, addr) && p1.Some? {
        var v2 := Or(v1, p1.value);
        assert PlaceFrom(info, args, extra, addr, 1, v1) == PlaceFrom(info, args, extra, addr, 2, v2);
        if p2 :| p2 == Place(info, info.src2, args.a2, extra, addr) && p2.Some? {
          assert PlaceFrom(info, args, extra, addr, 2, v2) == PlaceFrom(info, args, extra, addr, 3, Or(v2, p2.value));
        }
      }
    }
  }

  /** The round trip as the instruction format promises it: arguments a word can carry, with a fitting extra
      field, are encoded, and decoding at the same address gives back the same row and the same arguments. */
  lemma RoundTrip(info: InstrInfo, args: Args, extra: int32, addr: word)
    requires IsRow(info) && AllRepresentable(info, args, addr) && AllExtraFits(info, args, extra, addr)
    ensures Encode(info, args, extra, addr).Some? && Encode(info, args, extra, addr).value < TWO32
    ensures Decode(Encode(info, args, extra, addr).value, addr) == Some(Instr(info, args))
  {
    EncodeAccepts(info, args, extra, addr);
    DecodeEncoded(info, args, extra, addr, Encode(info, args, extra, addr).value);
  }

  /** The assembler leaves the argument itself in the extra field, not the word offset. A branch is then
      accepted only if the two are equal, so `beq $0,$0,4` at address 0 is refused although a word can carry
      it. */
  lemma BranchNeedsOffset(info: InstrInfo, args: Args, target: int32, addr: word)
    requires IsRow(info) && IsBranch(info.opcode) && AllRepresentable(info, args, addr)
    requires target == if info.src1 == EXTRA then args.a1 else args.a2
    ensures Encode(info, args, target, addr).Some? <==> BranchOffset(target, addr) == target
  {
    RowShapes(info);
    EncodeAccepts(info, args, target, addr);
    hide InstrTable, Encode, BranchOffset, Representable;
  }

  lemma BranchRefused()
    ensures var beq := InstrTable(OP_BEQ);
      IsRow(beq) && AllRepresentable(beq, Args(0, 0, 4), 0) && Encode(beq, Args(0, 0, 4), 4, 0).None?
  {
    assert BranchOffset(4, 0) == 0;
    BranchNeedsOffset(InstrTable(OP_BEQ), Args(0, 0, 4), 4, 0);
  }

  /** `break 0x80000` is encoded, but not decoded back: its bit 19 spills over the opcode. */
  lemma BreakIsLost() returns (value: word)
    ensures IsRow(InstrTable(OP_BREAK)) && Encode(InstrTable(OP_BREAK), Args(0x8_0000, 0, 0), 0, 0) == Some(value)
    ensures Decode(value, 0) != Some(Instr(InstrTable(OP_BREAK), Args(0x8_0000, 0, 0)))
  {
    var info, args := InstrTable(OP_BREAK), Args(0x8_0000, 0, 0);
    assert info == InstrInfo(OP_BREAK, RTYP, EXTRA, NSRC, NSRC) && !AllRepresentable(info, args, 0);
    EncodeIff(info, args, 0, 0);
    hide Encode, Decode, AllRepresentable, InstrTable;
    DecodeEncoded(info, args, 0, 0, Encode(info, args, 0, 0).value);
    value := Encode(info, args, 0, 0).value;
  }

  /** `j 0x100` in the last word of a 256 MB region is encoded, but decoded as a jump into the next region. */
  lemma JumpIsLost() returns (value: word)
    ensures IsRow(InstrTable(OP_J)) && Encode(InstrTable(OP_J), Args(0x100, 0, 0), 0, 0x0fff_fffc) == Some(value)
    ensures Decode(value, 0x0fff_fffc) != Some(Instr(InstrTable(OP_J), Args(0x100, 0, 0)))
  {
    var info, args, addr := InstrTable(OP_J), Args(0x100, 0, 0), 0x0fff_fffc;
    assert info == InstrInfo(OP_J, JTYP, EXTRA, NSRC, NSRC);
    assert Region(0x100) == 0 && Region(addr + 4) == 1 && Region(addr) == Region(0) == 0;
    EncodeIff(info, args, 0, addr);
    hide Encode, Decode, InstrTable;
    DecodeEncoded(info, args, 0, addr, Encode(info, args, 0, addr).value);
    value := Encode(info, args, 0, addr).value;
  }

  // ---------------------------------------------------------------------------------------------
  // Encoding a decoded word
  // ---------------------------------------------------------------------------------------------

  /** An argument's field of the word, in place. */
  function FieldBits(info: InstrInfo, src: Source, value: nat): nat {
    var f := FieldOf(info, src, value);
    match src
    case EXTRA => if info.opcode == OP_BREAK || info.typ == RTYP then f * 0x40 else f
    case RS => f * 0x20_0000
    case RT => f * 0x1_0000
    case RD => f * 0x800
    case NSRC => 0
  }

  /** The word with every field its row does not use set to zero. */
  function Canonical(info: InstrInfo, value: nat): nat {
    Or(Or(Or(OpcodePart(info, value), FieldBits(info, info.src0, value)), FieldBits(info, info.src1, value)),
       FieldBits(info, info.src2, value))
  }

  lemma DecodedRow(value: word, addr: word, instr: Instr)
    requires Decode(value, addr) == Some(instr) && instr.info.typ != NTYP
    ensures IsRow(instr.info) && OpcodeOf(value) == Some(instr.info.opcode)
    ensures Extract(instr.info, instr.info.src0, value, addr) == Some(instr.args.a0)
    ensures Extract(instr.info, instr.info.src1, value, addr) == Some(instr.args.a1)
    ensures Extract(instr.info, instr.info.src2, value, addr) == Some(instr.args.a2)
  {
    hide OpcodeOf, Extract, InstrTable, OpcodeTable, SpecialTable;
    var op := OpcodeOf(value).value;
    OpcodeIsLegal(value);
    RowOfFinds(op, 0);
  }

  lemma OpcodeIsLegal(value: word)
    requires OpcodeOf(value).Some?
    ensures OpcodeOf(value).value != ILLEGL
  {
    hide OpcodeTable, SpecialTable;
  }

  /** What is extracted is representable, break codes with bit 19 set excepted. */
  lemma ExtractedIsRepresentable(info: InstrInfo, src: Source, value: word, addr: word, arg: int32)
    requires KnownKind(info) && Extract(info, src, value, addr) == Some(arg)
    ensures Representable(info, src, arg, addr) <==> !Spills(info, src, arg)
  {
    if src == EXTRA {
      if info.typ == ITYP && IsBranch(info.opcode) {
        BranchExtracted(info, value, addr, arg);
      } else if info.typ == JTYP {
        JumpExtracted(info, value, addr, arg);
      } else {
        hide Wrap, Word, BranchOffset;
      }
    } else {
      hide Wrap, Word, BranchOffset, IsBranch;
    }
  }

  lemma BranchExtracted(info: InstrInfo, value: word, addr: word, arg: int32)
    requires KnownKind(info) && info.typ == ITYP && IsBranch(info.opcode)
    requires Extract(info, EXTRA, value, addr) == Some(arg)
    ensures Representable(info, EXTRA, arg, addr) && !Spills(info, EXTRA, arg)
  {
    WrapAcross(Signed16(value % 0x1_0000) * 4, addr + 4, arg);
    hide Wrap;
  }

  lemma JumpExtracted(info: InstrInfo, value: word, addr: word, arg: int32)
    requires KnownKind(info) && info.typ == JTYP && Extract(info, EXTRA, value, addr) == Some(arg)
    ensures Representable(info, EXTRA, arg, addr) <==> !Spills(info, EXTRA, arg)
  {
    JumpTarget(value % 0x400_0000, Region(addr + 4), arg);
    hide Wrap, Word;
  }

  lemma JumpTarget(low: nat, region: nat, arg: int32)
    requires low < 0x400_0000 && region < 16 && arg == Wrap(low * 4 + region * 0x1000_0000)
    ensures arg % 4 == 0 && Word(arg) / 0x1000_0000 == region && (Word(arg) % 0x1000_0000) / 4 == low
  {
    WordOfWrap(low * 4 + region * 0x1000_0000, arg);
  }

  /** Placing what was extracted gives the field back. */
  lemma PlaceExtracted(info: InstrInfo, src: Source, value: word, addr: word, arg: int32, extra: int32)
    requires KnownKind(info) && Extract(info, src, value, addr) == Some(arg)
    requires Representable(info, src, arg, addr) && (src == EXTRA ==> ExtraFits(info, arg, extra, addr))
    ensures Place(info, src, arg, extra, addr) == Some(FieldBits(info, src, value))
  {
    if src == EXTRA {
      if info.typ == ITYP {
        ImmediateExtracted(info, value, addr, arg, extra);
      } else if info.typ == JTYP {
        JumpTarget(value % 0x400_0000, Region(addr + 4), arg);
        QuarterOfLow(arg, Region(addr - 4));
        hide Wrap, Word, BranchOffset;
      } else if info.opcode == OP_BREAK {
        BreakField(arg);
        hide Wrap, Word, BranchOffset;
      } else {
        hide Wrap, Word, BranchOffset;
      }
    } else {
      hide Wrap, Word, BranchOffset, IsBranch;
    }
  }

  lemma ImmediateExtracted(info: InstrInfo, value: word, addr: word, arg: int32, extra: int32)
    requires KnownKind(info) && info.typ == ITYP && Extract(info, EXTRA, value, addr) == Some(arg)
    requires ExtraFits(info, arg, extra, addr)
    ensures Place(info, EXTRA, arg, extra, addr) == Some(FieldBits(info, EXTRA, value))
  {
    if IsBranch(info.opcode) {
      WrapAcross(Signed16(value % 0x1_0000) * 4, addr + 4, arg);
      assert BranchOffset(arg, addr) == Signed16(value % 0x1_0000);
      hide Wrap, BranchOffset;
    }
  }

  /** Re-encoding a decoded word gives its canonical form exactly when no break code spills and the extra field
      fits. */
  lemma EncodeDecoded(value: word, addr: word, instr: Instr, extra: int32)
    requires Decode(value, addr) == Some(instr) && instr.info.typ != NTYP
    ensures Encode(instr.info, instr.args, extra, addr) == Some(Canonical(instr.info, value))
       <==> !AnySpills(instr.info, instr.args) && AllExtraFits(instr.info, instr.args, extra, addr)
  {
    var info, args := instr.info, instr.args;
    DecodedRow(value, addr, instr);
    RowShapes(info);
    ExtractedIsRepresentable(info, info.src0, value, addr, args.a0);
    ExtractedIsRepresentable(info, info.src1, value, addr, args.a1);
    ExtractedIsRepresentable(info, info.src2, value, addr, args.a2);
    OpcodePartNames(info, value);
    if AnySpills(info, args) {
      SpilledIsNotCanonical(info, args, extra, addr, value);
    } else {
      EncodeAccepts(info, args, extra, addr);
      if AllExtraFits(info, args, extra, addr) {
        PlaceExtracted(info, info.src0, value, addr, args.a0, extra);
        PlaceExtracted(info, info.src1, value, addr, args.a1, extra);
        PlaceExtracted(info, info.src2, value, addr, args.a2, extra);
        PlaceFromAccepts(info, args, extra, addr, OpcodePart(info, value));
        hide InstrTable, Place, PlaceFrom, OpcodeBits, OpcodeOf, Extract, Representable, FieldBits, OpcodePart, Or;
      }
    }
  }

  lemma SpilledIsNotCanonical(info: InstrInfo, args: Args, extra: int32, addr: word, value: word)
    requires IsRow(info) && AnySpills(info, args) && OpcodeOf(value) == Some(info.opcode)
    requires OpcodeBits(info.opcode) == Some(OpcodePart(info, value))
    ensures Encode(info, args, extra, addr) != Some(Canonical(info, value))
  {
    BreakRow(info, args);
    OpcodeHome(OP_BREAK);
    assert SpecialTable(13) == OP_BREAK;
    hide InstrTable, SpecialTable, OpcodeTable, SpecialIndex, OpcodeIndex, Encode, Or;
    var part, f := OpcodePart(info, value), FieldBits(info, EXTRA, value);
    assert part < 64 && f < 0x400_0000;
    OrNothing(Or(part, f));
    OrTop(part, f);
    OrNothing(0);
    assert Canonical(info, value) / 0x400_0000 == 0;
    if Encode(info, args, extra, addr).Some? {
      SpilledIsIllegal(info, args, extra, addr, Encode(info, args, extra, addr).value);
    }
  }

  /** The canonical form means the same and is its own canonical form. */
  lemma CanonicalMeansTheSame(value: word, addr: word, instr: Instr)
    requires Decode(value, addr) == Some(instr) && instr.info.typ != NTYP && !AnySpills(instr.info, instr.args)
    ensures var c := Canonical(instr.info, value);
      c < TWO32 && Decode(c, addr) == Some(instr) && Canonical(instr.info, c) == c
  {
    var info, args := instr.info, instr.args;
    DecodedRow(value, addr, instr);
    RowShapes(info);
    ExtractedIsRepresentable(info, info.src0, value, addr, args.a0);
    ExtractedIsRepresentable(info, info.src1, value, addr, args.a1);
    ExtractedIsRepresentable(info, info.src2, value, addr, args.a2);
    var extra := FittingExtra(info, args, addr);
    var c := Canonical(info, value);
    hide Canonical, InstrTable, Extract, Representable, OpcodeOf;
    EncodeDecoded(value, addr, instr, extra);
    DecodeEncoded(info, args, extra, addr, c);
    EncodeDecoded(c, addr, instr, extra);
  }

  /** An extra field that fits every extra argument of a row: there is at most one. */
  lemma FittingExtra(info: InstrInfo, args: Args, addr: word) returns (extra: int32)
    requires IsRow(info)
    ensures AllExtraFits(info, args, extra, addr)
  {
    RowShapes(info);
    var arg := if info.src0 == EXTRA then args.a0 else if info.src1 == EXTRA then args.a1 else args.a2;
    extra := if info.typ == JTYP then Wrap(addr) else if IsBranch(info.opcode) then BranchOffset(arg, addr) else arg;
    WordOfWrap(addr, Wrap(addr));
    hide InstrTable, BranchOffset, Wrap;
  }
}
