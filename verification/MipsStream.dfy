/** Assembling a program to bytes and disassembling it again, in either byte order
    (MIPS Convertor/src/main.c, MIPS Convertor/src/hw1.c). */
module MipsStream {
  import opened Bytes
  import opened MipsTables
  import opened MipsWords
  import opened MipsCodec
  import opened MipsRoundTrip
  import opened MipsInstruction
  import opened Sequences

  // ---------------------------------------------------------------------------------------------
  // Byte order
  // ---------------------------------------------------------------------------------------------

  /** The first two shifts: the outer bytes change places. */
  function SwapOuter(num: word): nat {
    Or(Or(((num / 0x100) % 0x1_0000) * 0x100, (num * 0x100_0000) % TWO32), num / 0x100_0000)
  }

  /** The next two: the inner bytes change places. */
  function SwapInner(outer: nat): nat {
    var third, second := ((outer / 0x100) / 0x100 % 0x100) * 0x100, ((outer * 0x100) / 0x1_0000 % 0x100) * 0x1_0000;
    Or(Or((outer / 0x100_0000) * 0x100_0000 + outer % 0x100, third), second)
  }

  /** The byte swap. */
  function BigEndian(num: word): nat {
    SwapInner(SwapOuter(num))
  }

  /** Three parts of a word that do not overlap. */
  lemma OrOfThree(top: nat, middle: nat, low: nat)
    requires top < 0x100 && middle < 0x1_0000 && low < 0x100
    ensures Or(Or(middle * 0x100, top * 0x100_0000), low) == top * 0x100_0000 + middle * 0x100 + low
  {
    Powers();
    OrByte(top, middle * 0x100, 24);
    OrBelow(top * 0x1_0000 + middle, low, 8);
    hide Or, Pow2;
    assert (top * 0x1_0000 + middle) * 0x100 == top * 0x100_0000 + middle * 0x100;
  }

  lemma {:induction false} OrCommutes(a: nat, b: nat)
    ensures Or(a, b) == Or(b, a)
    decreases a
  {
    if a != 0 && b != 0 {
      OrCommutes(a / 2, b / 2);
    }
  }

  /** Bytes set to zero, filled in again. */
  lemma FillBytes(b0: byte, b1: byte, b2: byte, b3: byte)
    ensures Or(Or((b3 as int) * 0x100_0000 + b0 as int, (b1 as int) * 0x100), (b2 as int) * 0x1_0000)
         == Packed(b0, b1, b2, b3)
  {
    FillOne(b3, b0, b1);
    FillTwo(b3, b0 as int + (b1 as int) * 0x100, b2);
    hide Or;
  }

  lemma FillOne(top: byte, low: byte, b: byte)
    ensures Or((top as int) * 0x100_0000 + low as int, (b as int) * 0x100)
         == (top as int) * 0x100_0000 + (low as int + (b as int) * 0x100)
  {
    Powers();
    OrOntoTop(top, low, (b as int) * 0x100);
    OrByte(b, low, 8);
    hide *;
  }

  lemma FillTwo(top: byte, low: nat, b: byte)
    requires low < 0x1_0000
    ensures Or((top as int) * 0x100_0000 + low, (b as int) * 0x1_0000)
         == (top as int) * 0x100_0000 + (low + (b as int) * 0x1_0000)
  {
    Powers();
    OrOntoTop(top, low, (b as int) * 0x1_0000);
    OrByte(b, low, 16);
    hide *;
  }

  lemma OrByte(h: nat, x: nat, n: nat)
    requires x < Pow2(n)
    ensures Or(x, h * Pow2(n)) == x + h * Pow2(n)
  {
    OrBelow(h, x, n);
    OrCommutes(x, h * Pow2(n));
  }

  lemma TopByte(top: nat, x: nat)
    requires x < 0x100_0000
    ensures (top * 0x100_0000 + x) / 0x100_0000 == top && (top * 0x100_0000 + x) % 0x100_0000 == x
  {
  }

  lemma OrByBytes(a: nat, b: nat)
    ensures Or(a, b) / 0x100_0000 == Or(a / 0x100_0000, b / 0x100_0000)
    ensures Or(a, b) % 0x100_0000 == Or(a % 0x100_0000, b % 0x100_0000)
  {
    Powers();
    OrShr(a, b, 24);
    OrLow(a, b, 24);
    ShrIsDivision(a, 0x100_0000, 24);
    ShrIsDivision(b, 0x100_0000, 24);
    ShrIsDivision(Or(a, b), 0x100_0000, 24);
    hide Or, Pow2, Shr, Low;
  }

  /** Or below the top byte leaves the top byte alone. */
  lemma OrOntoTop(top: nat, x: nat, y: nat)
    requires top < 256 && x < 0x100_0000 && y < 0x100_0000
    ensures Or(top * 0x100_0000 + x, y) == top * 0x100_0000 + Or(x, y)
  {
    TopByte(top, x);
    TopByte(0, y);
    OrNothing(top);
    OrByBytes(top * 0x100_0000 + x, y);
    hide *;
    Rejoin(Or(top * 0x100_0000 + x, y), top, Or(x, y));
  }

  lemma Rejoin(o: nat, q: nat, r: nat)
    requires o / 0x100_0000 == q && o % 0x100_0000 == r
    ensures o == q * 0x100_0000 + r
  {
  }

  /** The swap reverses the bytes, so doing it twice does nothing. */
  lemma BigEndianReverses(num: word)
    ensures BigEndian(num) < TWO32
    ensures WordBytes(BigEndian(num)) == Reversed(WordBytes(num))
    ensures BigEndian(BigEndian(num)) == num
  {
    var b := WordBytes(num);
    SwapBytes(num);
    WordOfBytes(Reversed(b));
    var swapped := BigEndian(num);
    SwapBytes(swapped);
    BytesOfWord(num);
    hide BigEndian, WordBytes, FromBytes;
    assert Reversed(Reversed(b)) == b;
  }

  lemma SwapOuterBytes(num: word)
    ensures SwapOuter(num) == (num % 256) * 0x100_0000 + ((num / 0x100) % 0x1_0000) * 0x100 + num / 0x100_0000
  {
    ShiftedToTop(num);
    OrOfThree(num % 256, (num / 0x100) % 0x1_0000, num / 0x100_0000);
    hide Or;
  }

  lemma SwapInnerBytes(b0: byte, b1: byte, b2: byte, b3: byte, outer: nat)
    requires outer == (b0 as int) * 0x100_0000 + (b1 as int + (b2 as int) * 0x100) * 0x100 + b3 as int
    ensures SwapInner(outer) == Packed(b3, b2, b1, b0)
  {
    OuterParts(b0, b1, b2, b3);
    FillBytes(b3, b2, b1, b0);
    hide Or, Packed;
  }

  lemma SwapBytes(num: word)
    ensures BigEndian(num) == FromBytes(Reversed(WordBytes(num)))
  {
    var b := WordBytes(num);
    SwapOuterBytes(num);
    MiddleBytes(num);
    hide SwapOuter, SwapInner, Packed;
    SwapInnerBytes(b[0], b[1], b[2], b[3], SwapOuter(num));
  }

  lemma ShiftedToTop(num: word)
    ensures (num * 0x100_0000) % TWO32 == (num % 256) * 0x100_0000
  {
    var q, x := num / 256, (num % 256) * 0x100_0000;
    assert num * 0x100_0000 == q * TWO32 + x && 0 <= x < TWO32;
    WholeTurns(q, x);
  }

  lemma WholeTurns(q: int, x: int)
    requires 0 <= x < TWO32
    ensures (q * TWO32 + x) % TWO32 == x
  {
  }

  lemma MiddleBytes(num: word)
    ensures (num / 0x100) % 0x1_0000 == (num / 0x100) % 256 + ((num / 0x1_0000) % 256) * 0x100
  {
    TwoSteps(num);
    TwoBytes(num / 0x100);
  }

  lemma TwoBytes(q: nat)
    ensures q % 0x1_0000 == q % 256 + ((q / 0x100) % 256) * 0x100
  {
    var h, x := q / 0x100, q % 256 + ((q / 0x100) % 256) * 0x100;
    assert q == (h / 0x100) * 0x1_0000 + x;
    ShortTurns(h / 0x100, x);
  }

  lemma ShortTurns(t: int, x: int)
    requires 0 <= x < 0x1_0000
    ensures (t * 0x1_0000 + x) % 0x1_0000 == x
  {
  }

  lemma OuterParts(b0: byte, b1: byte, b2: byte, b3: byte)
    ensures var outer := (b0 as int) * 0x100_0000 + (b1 as int + (b2 as int) * 0x100) * 0x100 + b3 as int;
      && outer / 0x100_0000 == b0 && outer % 0x100 == b3
      && (outer / 0x100) / 0x100 % 0x100 == b2 && (outer * 0x100) / 0x1_0000 % 0x100 == b1
  {
  }

  // ---------------------------------------------------------------------------------------------
  // The two loops
  // ---------------------------------------------------------------------------------------------

  function Emitted(w: word, big: bool): seq<byte> {
    var v := if big then BigEndian(w) else w;
    if v < TWO32 then WordBytes(v) else []
  }

  function Fetched(b: seq<byte>, big: bool): nat
    requires |b| == 4
  {
    if big then BigEndian(FromBytes(b)) else FromBytes(b)
  }

  lemma FetchEmitted(w: word, big: bool)
    ensures |Emitted(w, big)| == 4 && Fetched(Emitted(w, big), big) == w
  {
    BigEndianReverses(w);
    BytesOfWord(w);
    if big {
      BytesOfWord(BigEndian(w));
    }
    hide BigEndian, WordBytes, FromBytes;
  }

  /** The value of the extra argument, if the instruction has one; otherwise the extra field stays. */
  function ExtraArgument(instr: Instr, was: int32): int32 {
    if instr.info.src2 == EXTRA then instr.args.a2
    else if instr.info.src1 == EXTRA then instr.args.a1
    else if instr.info.src0 == EXTRA then instr.args.a0
    else was
  }

  /** Addresses wrap around. */
  function NextAddr(addr: word): word {
    Word(addr + 4)
  }

  function After<T>(first: seq<T>, r: (bool, seq<T>)): (bool, seq<T>) {
    (r.0, first + r.1)
  }

  lemma AfterEnds<T>(a: seq<T>, r: (bool, seq<T>))
    ensures After([], r) == r
    ensures r.1 == [] ==> After(a, r) == (r.0, a)
  {
    assert [] + r.1 == r.1;
    assert a + [] == a;
  }

  lemma AfterTwice<T>(a: seq<T>, b: seq<T>, r: (bool, seq<T>))
    ensures After(a, After(b, r)) == After(a + b, r)
  {
    assert a + (b + r.1) == (a + b) + r.1;
  }

  /** The arguments once a line has been read: those the row does not have are not on the line and stay. */
  function OnLine(instr: Instr, was: Args): Args {
    Args(if instr.info.src0 == NSRC then was.a0 else instr.args.a0,
         if instr.info.src1 == NSRC then was.a1 else instr.args.a1,
         if instr.info.src2 == NSRC then was.a2 else instr.args.a2)
  }

  const NO_ARGS := Args(0, 0, 0)

  /** Assembling from an address: whether everything was accepted, and the bytes put out. The extra field and the
      arguments carry over from instruction to instruction, and assembling stops at the first refusal. */
  function Assemble(prog: seq<Instr>, addr: word, big: bool, extra: int32, was: Args): (bool, seq<byte>) {
    if prog == [] then (true, [])
    else
      var e, args := ExtraArgument(prog[0], extra), OnLine(prog[0], was);
      match Encode(prog[0].info, args, e, addr)
      case None => (false, [])
      case Some(value) =>
        if value >= TWO32 then (false, [])
        else After(Emitted(value, big), Assemble(prog[1..], NextAddr(addr), big, e, args))
  }

  /** Disassembling from an address: whether every word was decoded, and the instructions up to the first that
      was not. A last piece of fewer than four bytes is not read. */
  function Disassemble(bytes: seq<byte>, addr: word, big: bool): (bool, seq<Instr>) {
    if |bytes| < 4 then (true, [])
    else
      var value := Fetched(bytes[..4], big);
      if value >= TWO32 then (false, []) else
      match Decode(value, addr)
      case None => (false, [])
      case Some(instr) => After([instr], Disassemble(bytes[4..], NextAddr(addr), big))
  }

  ghost predicate AllRows(prog: seq<Instr>) {
    forall k | 0 <= k < |prog| :: IsRow(prog[k].info)
  }

  /** Every instruction's arguments can be carried by a word at the address it goes to. */
  ghost predicate AllCarried(prog: seq<Instr>, addr: word) {
    prog == [] || (AllRepresentable(prog[0].info, prog[0].args, addr) && AllCarried(prog[1..], NextAddr(addr)))
  }

  /** Whether one argument on a line is accepted: a register by its number, a branch target if it equals the word
      offset to it, a jump target in the region of the instruction, and any other extra argument. */
  predicate Acceptable(info: InstrInfo, src: Source, arg: int32, addr: word) {
    match src
    case EXTRA => ExtraFits(info, arg, arg, addr)
    case NSRC => true
    case _ => 0 <= arg <= 31
  }

  ghost predicate AllAcceptable(prog: seq<Instr>, addr: word) {
    prog == []
    || (var (info, args) := (prog[0].info, prog[0].args);
        && Acceptable(info, info.src0, args.a0, addr)
        && Acceptable(info, info.src1, args.a1, addr)
        && Acceptable(info, info.src2, args.a2, addr)
        && AllAcceptable(prog[1..], NextAddr(addr)))
  }

  /** The arguments a row does not have were left at zero. */
  predicate NothingLeft(was: Args, info: InstrInfo) {
    && (info.src0 == NSRC ==> was.a0 == 0)
    && (info.src1 == NSRC ==> was.a1 == 0)
    && (info.src2 == NSRC ==> was.a2 == 0)
  }

  /** Each line finds the arguments it does not have unused, or zero, on the line before. */
  ghost predicate NothingLeftOver(prog: seq<Instr>, was: Args) {
    prog == [] || (NothingLeft(was, prog[0].info) && NothingLeftOver(prog[1..], OnLine(prog[0], NO_ARGS)))
  }

  lemma PlaceOnLine(info: InstrInfo, src: Source, arg: int32, was: int32, e: int32, addr: word)
    requires KnownKind(info) && (src == EXTRA ==> e == arg)
    ensures Place(info, src, if src == NSRC then was else arg, e, addr).Some?
       <==> Acceptable(info, src, arg, addr) && (src == NSRC ==> was == 0)
  {
    hide BranchOffset, Wrap, Region;
  }

  /** One line is accepted exactly when its arguments are, and nothing is left of the line before. */
  lemma LineAccepted(instr: Instr, was: Args, extra: int32, addr: word)
    requires IsRow(instr.info)
    ensures Encode(instr.info, OnLine(instr, was), ExtraArgument(instr, extra), addr).Some? <==>
      && Acceptable(instr.info, instr.info.src0, instr.args.a0, addr)
      && Acceptable(instr.info, instr.info.src1, instr.args.a1, addr)
      && Acceptable(instr.info, instr.info.src2, instr.args.a2, addr)
      && NothingLeft(was, instr.info)
  {
    var info, args, e := instr.info, instr.args, ExtraArgument(instr, extra);
    RowShapes(info);
    EncodeIff(info, OnLine(instr, was), e, addr);
    hide IsRow, Encode, Place, Acceptable;
    PlaceOnLine(info, info.src0, args.a0, was.a0, e, addr);
    PlaceOnLine(info, info.src1, args.a1, was.a1, e, addr);
    PlaceOnLine(info, info.src2, args.a2, was.a2, e, addr);
  }

  /** The assembler accepts a program exactly when it accepts the arguments of every line, and every line finds
      nothing left of the one before. */
  lemma {:induction false} AssemblesIff(prog: seq<Instr>, addr: word, big: bool, extra: int32, was: Args)
    requires AllRows(prog)
    ensures Assemble(prog, addr, big, extra, was).0 <==> AllAcceptable(prog, addr) && NothingLeftOver(prog, was)
    decreases |prog|
  {
    if prog != [] {
      var first, e, args := prog[0], ExtraArgument(prog[0], extra), OnLine(prog[0], was);
      assert IsRow(first.info);
      LineAccepted(first, was, extra, addr);
      hide IsRow, Encode, Acceptable, Emitted, NextAddr;
      if Encode(first.info, args, e, addr).Some? {
        assert args == OnLine(first, NO_ARGS);
        DecodeEncoded(first.info, args, e, addr, Encode(first.info, args, e, addr).value);
        AssemblesIff(prog[1..], NextAddr(addr), big, e, args);
      }
    }
  }

  const JR_ROW := InstrInfo(OP_JR, RTYP, RS, NSRC, NSRC)

  lemma AddAndJrRows()
    ensures IsRow(ADD_ROW) && IsRow(JR_ROW)
  {
    assert InstrTable(OP_ADD) == ADD_ROW && InstrTable(OP_JR) == JR_ROW;
  }

  lemma AddAndJrCarried(addr: word)
    ensures AllRepresentable(ADD_ROW, Args(1, 2, 3), addr) && AllRepresentable(JR_ROW, Args(1, 0, 0), addr)
  {
  }

  lemma OneLine(instr: Instr, addr: word)
    ensures AllCarried([instr], addr) <==> AllRepresentable(instr.info, instr.args, addr)
    ensures AllAcceptable([instr], addr) <==>
      && Acceptable(instr.info, instr.info.src0, instr.args.a0, addr)
      && Acceptable(instr.info, instr.info.src1, instr.args.a1, addr)
      && Acceptable(instr.info, instr.info.src2, instr.args.a2, addr)
    ensures forall was :: NothingLeftOver([instr], was) <==> NothingLeft(was, instr.info)
  {
    assert [instr][1..] == [];
    assert AllAcceptable([], NextAddr(addr)) && AllCarried([], NextAddr(addr));
  }

  /** `jr $1` is accepted as the first line, and refused after `add $1,$2,$3`, which leaves its arguments. */
  lemma LeftOverIsRefused()
    ensures var add, jr := Instr(ADD_ROW, Args(1, 2, 3)), Instr(JR_ROW, Args(1, 0, 0));
      && AllRows([add, jr]) && AllCarried([add, jr], 0)
      && Assemble([jr], 0, false, 0, NO_ARGS).0 && !Assemble([add, jr], 0, false, 0, NO_ARGS).0
  {
    var add, jr := Instr(ADD_ROW, Args(1, 2, 3)), Instr(JR_ROW, Args(1, 0, 0));
    AddAndJrRows();
    assert AllRows([add, jr]) && AllRows([jr]);
    AddAndJrCarried(0);
    AddAndJrCarried(NextAddr(0));
    OneLine(jr, 0);
    OneLine(jr, NextAddr(0));
    assert [add, jr][1..] == [jr];
    hide AllRepresentable, IsRow, Assemble, NextAddr;
    AssemblesIff([jr], 0, false, 0, NO_ARGS);
    AssemblesIff([add, jr], 0, false, 0, NO_ARGS);
  }

  /** What an accepted line does not have came out as zero, so the line is what was encoded exactly when it has
      zeros there. */
  lemma LineIsEncoded(instr: Instr, was: Args, addr: word)
    requires NothingLeft(was, instr.info)
    ensures AllRepresentable(instr.info, instr.args, addr) <==>
      AllRepresentable(instr.info, OnLine(instr, was), addr) && OnLine(instr, was) == instr.args
  {
    hide BranchOffset, Wrap, Region;
  }

  /** One word: it is decoded to its line exactly when it can carry what is on the line. */
  lemma LineDecoded(instr: Instr, was: Args, extra: int32, addr: word, value: nat)
    requires IsRow(instr.info)
    requires Encode(instr.info, OnLine(instr, was), ExtraArgument(instr, extra), addr) == Some(value)
    ensures value < TWO32
    ensures Decode(value, addr) == Some(instr) <==> AllRepresentable(instr.info, instr.args, addr)
  {
    var args, e := OnLine(instr, was), ExtraArgument(instr, extra);
    LineAccepted(instr, was, extra, addr);
    DecodeEncoded(instr.info, args, e, addr, value);
    LineIsEncoded(instr, was, addr);
    hide Encode, IsRow, Acceptable, OnLine, AllRepresentable, NothingLeft;
    if Decode(value, addr) == Some(instr) {
      DecodedUnused(value, addr, instr);
      UnusedStay(instr, was);
    }
  }

  lemma DecodedUnused(value: word, addr: word, instr: Instr)
    requires Decode(value, addr) == Some(instr)
    ensures NothingLeft(instr.args, instr.info)
  {
    hide OpcodeOf, RowOf, ExtraOf;
  }

  lemma UnusedStay(instr: Instr, was: Args)
    requires NothingLeft(was, instr.info) && NothingLeft(instr.args, instr.info)
    ensures OnLine(instr, was) == instr.args
  {
  }

  /** A program the assembler accepts is disassembled to itself, at the same addresses and in the same byte
      order, exactly when every argument is one a word can carry. */
  lemma {:induction false} DisassembleAssembled(prog: seq<Instr>, addr: word, big: bool, extra: int32, was: Args)
    requires AllRows(prog) && Assemble(prog, addr, big, extra, was).0
    ensures Disassemble(Assemble(prog, addr, big, extra, was).1, addr, big) == (true, prog) <==> AllCarried(prog, addr)
    decreases |prog|
  {
    if prog != [] {
      var first, e, args := prog[0], ExtraArgument(prog[0], extra), OnLine(prog[0], was);
      assert IsRow(first.info);
      hide IsRow, Encode, Decode, AllRepresentable, Emitted, Fetched, NextAddr, OnLine, ExtraArgument;
      var value := Encode(first.info, args, e, addr).value;
      LineDecoded(first, was, extra, addr, value);
      FetchEmitted(value, big);
      var bytes := Assemble(prog, addr, big, extra, was).1;
      var rest := Assemble(prog[1..], NextAddr(addr), big, e, args).1;
      assert bytes[..4] == Emitted(value, big) && bytes[4..] == rest;
      DisassembleAssembled(prog[1..], NextAddr(addr), big, e, args);
      if Decode(value, addr).Some? {
        var tail := Disassemble(rest, NextAddr(addr), big);
        assert Disassemble(bytes, addr, big) == (tail.0, [Decode(value, addr).value] + tail.1);
        assert prog == [first] + prog[1..];
        HeadTail(Decode(value, addr).value, tail.1, first, prog[1..]);
      }
    }
  }

  // ---------------------------------------------------------------------------------------------
  // Word by word
  // ---------------------------------------------------------------------------------------------

  /** Four bytes as a word, most significant first or last. */
  function FourBytes(b0: byte, b1: byte, b2: byte, b3: byte, big: bool): word {
    if big then (b0 as int) * 0x100_0000 + (b1 as int) * 0x1_0000 + (b2 as int) * 0x100 + b3 as int
    else (b3 as int) * 0x100_0000 + (b2 as int) * 0x1_0000 + (b1 as int) * 0x100 + b0 as int
  }

  /** Word k of a stream of bytes. */
  function WordAt(b: seq<byte>, k: nat, big: bool): word
    requires 4 * k + 4 <= |b|
  {
    FourBytes(b[4 * k], b[4 * k + 1], b[4 * k + 2], b[4 * k + 3], big)
  }

  /** And its address. */
  function AddrAt(base: word, k: nat): word {
    (base + 4 * k) % TWO32
  }

  lemma AddrFurther(base: word, k: nat)
    ensures AddrAt(base, 0) == base && AddrAt(NextAddr(base), k) == AddrAt(base, k + 1)
  {
    if base + 4 >= TWO32 {
      assert NextAddr(base) == base + 4 - TWO32;
      WholeTurns(1, NextAddr(base));
      Turn(NextAddr(base) + 4 * k);
    } else {
      assert NextAddr(base) == base + 4;
    }
  }

  lemma Turn(x: int)
    ensures (x + TWO32) % TWO32 == x % TWO32
  {
  }

  lemma FetchedWord(b: seq<byte>, big: bool)
    requires |b| == 4
    ensures Fetched(b, big) == FourBytes(b[0], b[1], b[2], b[3], big)
  {
    var w := FromBytes(b);
    BigEndianReverses(w);
    WordOfBytes(b);
    if big {
      BytesOfWord(BigEndian(w));
      assert Fetched(b, big) == FromBytes(Reversed(b));
    }
    hide BigEndian, WordBytes;
  }

  lemma WordFurther(b: seq<byte>, first: seq<byte>, k: nat, big: bool)
    requires |first| == 4 && 4 * k + 4 <= |b|
    ensures WordAt(first + b, k + 1, big) == WordAt(b, k, big)
  {
    hide FourBytes;
  }

  lemma WordFirst(b: seq<byte>, first: seq<byte>, big: bool)
    requires |first| == 4
    ensures WordAt(first + b, 0, big) == FourBytes(first[0], first[1], first[2], first[3], big)
  {
  }

  /** Disassembling decodes the words of the input, each at its address, up to the first that is not one; and it
      fails exactly if there is such a word. */
  ghost predicate DecodedWords(bytes: seq<byte>, base: word, big: bool, ok: bool, prog: seq<Instr>) {
    && |prog| <= |bytes| / 4 && (ok <==> |prog| == |bytes| / 4)
    && (forall k | 0 <= k < |prog| :: Decode(WordAt(bytes, k, big), AddrAt(base, k)) == Some(prog[k]))
    && (!ok ==> Decode(WordAt(bytes, |prog|, big), AddrAt(base, |prog|)) == None)
  }

  lemma DecodedFurther(first: seq<byte>, rest: seq<byte>, base: word, big: bool, one: Instr, ok: bool, prog: seq<Instr>)
    requires |first| == 4 && DecodedWords(rest, NextAddr(base), big, ok, prog)
    requires Decode(FourBytes(first[0], first[1], first[2], first[3], big), base) == Some(one)
    ensures DecodedWords(first + rest, base, big, ok, [one] + prog)
  {
    var bytes := first + rest;
    hide Decode, AddrAt, NextAddr, FourBytes;
    AddrFurther(base, 0);
    AddrFurther(base, |prog|);
    forall k | 0 <= k < |[one] + prog|
      ensures Decode(WordAt(bytes, k, big), AddrAt(base, k)) == Some(([one] + prog)[k])
    {
      if k == 0 {
        WordFirst(rest, first, big);
      } else {
        AddrFurther(base, k - 1);
        WordFurther(rest, first, k - 1, big);
        assert Decode(WordAt(rest, k - 1, big), AddrAt(NextAddr(base), k - 1)) == Some(prog[k - 1]);
      }
    }
    if !ok {
      WordFurther(rest, first, |prog|, big);
    }
  }

  lemma {:induction false} DisassembleByIndex(bytes: seq<byte>, base: word, big: bool)
    ensures var r := Disassemble(bytes, base, big); DecodedWords(bytes, base, big, r.0, r.1)
    decreases |bytes|
  {
    if |bytes| >= 4 {
      var first, rest := bytes[..4], bytes[4..];
      var value := Fetched(first, big);
      FetchedWord(first, big);
      AddrFurther(base, 0);
      assert bytes == first + rest && WordAt(bytes, 0, big) == value;
      DisassembleByIndex(rest, NextAddr(base), big);
      hide Decode, AddrAt, NextAddr, FourBytes, Fetched;
      if Decode(value, base).Some? {
        hide DecodedWords;
        var tail := Disassemble(rest, NextAddr(base), big);
        DecodedFurther(first, rest, base, big, Decode(value, base).value, tail.0, tail.1);
      }
    }
  }

  /** The encoding of a line that has nothing left over. */
  function LineWord(line: Instr, addr: word): Option<nat> {
    Encode(line.info, OnLine(line, NO_ARGS), ExtraArgument(line, 0), addr)
  }

  lemma PlaceIgnoresExtra(info: InstrInfo, src: Source, arg: int32, e: int32, f: int32, addr: word)
    requires src != EXTRA
    ensures Place(info, src, arg, e, addr) == Place(info, src, arg, f, addr)
  {
  }

  /** The extra field that an instruction without an extra argument is left with does not matter. */
  lemma EncodeIgnoresExtra(info: InstrInfo, args: Args, e: int32, f: int32, addr: word)
    requires info.src0 != EXTRA && info.src1 != EXTRA && info.src2 != EXTRA
    ensures Encode(info, args, e, addr) == Encode(info, args, f, addr)
  {
    PlaceIgnoresExtra(info, info.src0, args.a0, e, f, addr);
    PlaceIgnoresExtra(info, info.src1, args.a1, e, f, addr);
    PlaceIgnoresExtra(info, info.src2, args.a2, e, f, addr);
    if OpcodeBits(info.opcode).Some? {
      PlaceFromAccepts(info, args, e, addr, OpcodeBits(info.opcode).value);
      PlaceFromAccepts(info, args, f, addr, OpcodeBits(info.opcode).value);
    }
    hide Place, PlaceFrom, OpcodeBits;
  }

  lemma LineIsItsWord(line: Instr, was: Args, extra: int32, addr: word)
    requires NothingLeft(was, line.info)
    ensures Encode(line.info, OnLine(line, was), ExtraArgument(line, extra), addr) == LineWord(line, addr)
  {
    hide Encode;
    assert OnLine(line, was) == OnLine(line, NO_ARGS);
    if line.info.src0 != EXTRA && line.info.src1 != EXTRA && line.info.src2 != EXTRA {
      EncodeIgnoresExtra(line.info, OnLine(line, was), ExtraArgument(line, extra), ExtraArgument(line, 0), addr);
    }
  }

  /** The output is the words of the first m lines, each encoded at its address. */
  ghost predicate WordsOfLines(prog: seq<Instr>, base: word, big: bool, m: nat, out: seq<byte>) {
    && |out| == 4 * m && m <= |prog|
    && forall k | 0 <= k < m :: LineWord(prog[k], AddrAt(base, k)) == Some(WordAt(out, k, big))
  }

  /** Line m is refused: its arguments are not accepted where it stands, or something is left over from the line
      before. */
  ghost predicate RefusedAt(prog: seq<Instr>, base: word, was: Args, m: nat) {
    && m < |prog|
    && (|| LineWord(prog[m], AddrAt(base, m)) == None
        || !NothingLeft(if m == 0 then was else OnLine(prog[m - 1], NO_ARGS), prog[m].info))
  }

  /** Assembling puts out the words of the lines up to the first that is refused, and fails exactly if there is one. */
  ghost predicate EncodedLines(prog: seq<Instr>, base: word, big: bool, was: Args, ok: bool, out: seq<byte>) {
    var m := |out| / 4;
    WordsOfLines(prog, base, big, m, out) && if ok then m == |prog| else RefusedAt(prog, base, was, m)
  }

  /** The four bytes are the word of the line. */
  ghost predicate LinePutOut(line: Instr, addr: word, b: seq<byte>, big: bool) {
    |b| == 4 && LineWord(line, addr) == Some(FourBytes(b[0], b[1], b[2], b[3], big))
  }

  lemma WordsFurther(prog: seq<Instr>, base: word, big: bool, m: nat, first: seq<byte>, out: seq<byte>)
    requires prog != [] && LinePutOut(prog[0], base, first, big)
    requires WordsOfLines(prog[1..], NextAddr(base), big, m, out)
    ensures WordsOfLines(prog, base, big, m + 1, first + out)
  {
    hide LineWord, AddrAt, NextAddr, FourBytes;
    AddrFurther(base, 0);
    forall k | 0 <= k < m + 1
      ensures LineWord(prog[k], AddrAt(base, k)) == Some(WordAt(first + out, k, big))
    {
      if k == 0 {
        WordFirst(out, first, big);
      } else {
        AddrFurther(base, k - 1);
        WordFurther(out, first, k - 1, big);
        assert prog[1..][k - 1] == prog[k];
        assert LineWord(prog[1..][k - 1], AddrAt(NextAddr(base), k - 1)) == Some(WordAt(out, k - 1, big));
      }
    }
  }

  lemma RefusedFurther(prog: seq<Instr>, base: word, was: Args, m: nat)
    requires prog != [] && RefusedAt(prog[1..], NextAddr(base), OnLine(prog[0], NO_ARGS), m)
    ensures RefusedAt(prog, base, was, m + 1)
  {
    AddrFurther(base, m);
    hide LineWord, AddrAt, NextAddr, OnLine, NothingLeft;
    assert prog[1..][m] == prog[m + 1] && (m > 0 ==> prog[1..][m - 1] == prog[m]);
  }

  lemma EncodedFurther(prog: seq<Instr>, base: word, big: bool, was: Args, first: seq<byte>, ok: bool, out: seq<byte>)
    requires prog != [] && LinePutOut(prog[0], base, first, big)
    requires EncodedLines(prog[1..], NextAddr(base), big, OnLine(prog[0], NO_ARGS), ok, out)
    ensures EncodedLines(prog, base, big, was, ok, first + out)
  {
    hide WordsOfLines, RefusedAt, LineWord, FourBytes, NextAddr, OnLine;
    var m := |out| / 4;
    WordsFurther(prog, base, big, m, first, out);
    WordsAreWhole(prog[1..], NextAddr(base), big, m, out);
    if !ok {
      RefusedFurther(prog, base, was, m);
    }
  }

  lemma WordsAreWhole(prog: seq<Instr>, base: word, big: bool, m: nat, out: seq<byte>)
    requires WordsOfLines(prog, base, big, m, out)
    ensures |out| == 4 * m && m <= |prog|
  {
  }

  lemma EmittedWord(w: word, big: bool)
    ensures var b := Emitted(w, big); |b| == 4 && FourBytes(b[0], b[1], b[2], b[3], big) == w
  {
    FetchEmitted(w, big);
    FetchedWord(Emitted(w, big), big);
    hide Emitted, FourBytes;
  }

  /** One line: what is put out is its word, or it is refused. */
  lemma LineByIndex(line: Instr, was: Args, extra: int32, addr: word, big: bool)
    requires IsRow(line.info)
    ensures match Encode(line.info, OnLine(line, was), ExtraArgument(line, extra), addr)
      case None => LineWord(line, addr) == None || !NothingLeft(was, line.info)
      case Some(value) =>
        value < TWO32 && OnLine(line, was) == OnLine(line, NO_ARGS) && LinePutOut(line, addr, Emitted(value, big), big)
  {
    var args, e := OnLine(line, was), ExtraArgument(line, extra);
    LineAccepted(line, was, extra, addr);
    if NothingLeft(was, line.info) {
      LineIsItsWord(line, was, extra, addr);
    }
    hide IsRow, Encode, Acceptable, Emitted, FourBytes, LineWord;
    if Encode(line.info, args, e, addr).Some? {
      DecodeEncoded(line.info, args, e, addr, Encode(line.info, args, e, addr).value);
      EmittedWord(Encode(line.info, args, e, addr).value, big);
    }
  }

  lemma {:induction false} AssembleByIndex(prog: seq<Instr>, base: word, big: bool, extra: int32, was: Args)
    requires AllRows(prog)
    ensures var r := Assemble(prog, base, big, extra, was); EncodedLines(prog, base, big, was, r.0, r.1)
    decreases |prog|
  {
    hide IsRow, Encode, Emitted, NextAddr, AddrAt, LinePutOut, LineWord, OnLine, ExtraArgument, NothingLeft;
    if prog != [] {
      var first, e, args := prog[0], ExtraArgument(prog[0], extra), OnLine(prog[0], was);
      assert IsRow(first.info);
      LineByIndex(first, was, extra, base, big);
      AddrFurther(base, 0);
      if Encode(first.info, args, e, base).Some? {
        var value := Encode(first.info, args, e, base).value;
        AssembleByIndex(prog[1..], NextAddr(base), big, e, args);
        hide EncodedLines;
        var tail := Assemble(prog[1..], NextAddr(base), big, e, args);
        EncodedFurther(prog, base, big, was, Emitted(value, big), tail.0, tail.1);
      }
    }
  }

  /** So a program goes through the assembler and back exactly when its arguments are accepted and can be carried,
      and nothing is left over between its lines. */
  lemma ListingRoundTrip(prog: seq<Instr>, base: word, big: bool)
    requires AllRows(prog)
    ensures var r := Assemble(prog, base, big, 0, NO_ARGS);
      r.0 && Disassemble(r.1, base, big) == (true, prog) <==>
      AllCarried(prog, base) && AllAcceptable(prog, base) && NothingLeftOver(prog, NO_ARGS)
  {
    hide Assemble, Disassemble, AllCarried, AllAcceptable, NothingLeftOver;
    AssemblesIff(prog, base, big, 0, NO_ARGS);
    if Assemble(prog, base, big, 0, NO_ARGS).0 {
      DisassembleAssembled(prog, base, big, 0, NO_ARGS);
    }
  }

  /** The assembler loop over parsed instructions. */
  method AssembleAll(prog: seq<Instr>, base: word, big: bool) returns (ok: bool, out: seq<byte>)
    requires AllRows(prog)
    ensures (ok, out) == Assemble(prog, base, big, 0, NO_ARGS)
  {
    var instr := new Instruction();
    var addr := base;
    out := [];
    var k := 0;
    hide IsRow, Encode, Emitted, NextAddr, OnLine;
    assert prog[0..] == prog;
    AfterEnds([], Assemble(prog, base, big, 0, NO_ARGS));
    while k < |prog|
      invariant 0 <= k <= |prog|
      invariant After(out, Assemble(prog[k..], addr, big, instr.extra, instr.args))
             == Assemble(prog, base, big, 0, NO_ARGS)
    {
      assert prog[k..][0] == prog[k] && prog[k..][1..] == prog[k + 1..];
      instr.info, instr.args := prog[k].info, OnLine(prog[k], instr.args);
      instr.extra := ExtraArgument(prog[k], instr.extra);
      var encoded := instr.Encode(addr);
      if !encoded {
        AfterEnds<byte>(out, (false, []));
        return false, out;
      }
      var bytes := Emit(instr.value, big);
      AfterTwice(out, bytes, Assemble(prog[k + 1..], NextAddr(addr), big, instr.extra, instr.args));
      out := out + bytes;
      addr := NextAddr(addr);
      k := k + 1;
    }
    AfterEnds<byte>(out, (true, []));
    return true, out;
  }

  /** A word after i of its bytes have been put out. */
  function Shifted(v: word, i: nat): word {
    if i == 0 then v else Shifted(v, i - 1) / 256
  }

  lemma ShiftedBytes(v: word, i: nat)
    requires i < 4
    ensures Shifted(v, i) % 256 == WordBytes(v)[i]
  {
    assert Shifted(v, 1) == v / 0x100;
    assert Shifted(v, 2) == Shifted(v, 1) / 0x100 == v / 0x1_0000;
    assert Shifted(v, 3) == Shifted(v, 2) / 0x100 == v / 0x100_0000;
  }

  /** Puts out the four bytes of a word, lowest first, after swapping them if asked to. */
  method Emit(w: word, big: bool) returns (bytes: seq<byte>)
    ensures bytes == Emitted(w, big)
  {
    BigEndianReverses(w);
    var value := w;
    if big {
      value := BigEndian(value);
    }
    ghost var v := value;
    hide BigEndian, WordBytes;
    bytes := [];
    for i := 0 to 4
      invariant bytes == WordBytes(v)[..i] && value == Shifted(v, i)
    {
      ShiftedBytes(v, i);
      bytes := bytes + [value % 256];
      value := value / 256;
    }
  }

  /** The disassembler loop. */
  method DisassembleAll(bytes: seq<byte>, base: word, big: bool) returns (ok: bool, prog: seq<Instr>)
    ensures (ok, prog) == Disassemble(bytes, base, big)
  {
    var instr := new Instruction();
    var addr, k := base, 0;
    prog := [];
    hide Decode, NextAddr;
    assert bytes[0..] == bytes;
    AfterEnds([], Disassemble(bytes, base, big));
    while k + 4 <= |bytes|
      invariant 0 <= k <= |bytes|
      invariant After(prog, Disassemble(bytes[k..], addr, big)) == Disassemble(bytes, base, big)
    {
      assert bytes[k..][..4] == bytes[k..k + 4] && bytes[k..][4..] == bytes[k + 4..];
      instr.value := Fetch(bytes[k..k + 4], big);
      var decoded := instr.Decode(addr);
      if !decoded {
        AfterEnds<Instr>(prog, (false, []));
        return false, prog;
      }
      var one := Instr(instr.info, instr.args);
      AfterTwice(prog, [one], Disassemble(bytes[k + 4..], NextAddr(addr), big));
      prog := prog + [one];
      addr := NextAddr(addr);
      k := k + 4;
    }
    AfterEnds<Instr>(prog, (true, []));
    return true, prog;
  }

  method Fetch(b: seq<byte>, big: bool) returns (value: word)
    requires |b| == 4
    ensures value == Fetched(b, big)
  {
    value := FromBytes(b);
    if big {
      BigEndianReverses(value);
      hide BigEndian, FromBytes;
      value := BigEndian(value);
    }
  }
}
