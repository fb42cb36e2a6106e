/**
 project_2/main.c: the RV32I simulator, refining the reference step of `Rv32`. The masks, shifts, comparisons
 and array indices are those of the C code, written out here once more, and lemmas connect each of them to what
 the reference takes from the ISA manual. Bit vectors are kept to one small fact a lemma: fields that are masked
 before they are shifted, sign extension by shifting up and down, and the shift that copies the sign.
 */
module Simulator {
  import opened Bytes
  import opened Riscv
  import opened Rv32

  // C's `<<` and `>>` on an `unsigned int`, the amount masked.

  function ShiftUp(v: bv32, n: bv32): bv32 { v << (n & 0x1f) }
  function ShiftUnsigned(v: bv32, n: bv32): bv32 { v >> (n & 0x1f) }

  /** C's `>>` on an `int`: copies of the sign come in from the left. */
  function ShiftInt(v: bv32, n: bv32): bv32 { if Negative(v) then !ShiftUnsigned(!v, n) else ShiftUnsigned(v, n) }

  /** `sign(val, bit)`. */
  function Sign(val: bv32, bit: bv32): bv32
    requires 0 < bit <= 32
  {
    ShiftInt(val << (32 - bit), 32 - bit)
  }

  /** C's comparison of two values as `int`. */
  predicate LessInt(a: bv32, b: bv32) { if Negative(a) != Negative(b) then Negative(a) else a < b }

  lemma LessAgrees(a: bv32, b: bv32)
    ensures LessInt(a, b) <==> LessSigned(a, b)
  {
  }

  // The reference keeps the low bits of the shifted word and sets the others. A shift distributes over
  // exclusive or, and negation is an exclusive or with ones.

  lemma XorShift(a: bv32, b: bv32, n: bv32)
    ensures ShiftUnsigned(a ^ b, n) == ShiftUnsigned(a, n) ^ ShiftUnsigned(b, n)
  {
  }

  lemma NotIsXor(a: bv32)
    ensures !a == a ^ 0xffff_ffff
  {
  }

  lemma NotShift(v: bv32, n: bv32)
    ensures ShiftUnsigned(!v, n) == ShiftUnsigned(v, n) ^ ShiftUnsigned(0xffff_ffff, n)
  {
    hide *;
    XorShift(v, 0xffff_ffff, n);
    NotIsXor(v);
  }

  lemma LowBits(v: bv32, n: bv32)
    ensures ShiftUnsigned(v, n) & ShiftUnsigned(0xffff_ffff, n) == ShiftUnsigned(v, n)
  {
  }

  lemma NotShiftOf(v: bv32, n: bv32, x: bv32, y: bv32, m: bv32)
    requires x == ShiftUnsigned(v, n) && y == ShiftUnsigned(!v, n) && m == ShiftUnsigned(0xffff_ffff, n)
    ensures y == x ^ m
  {
    hide *;
    NotShift(v, n);
  }

  lemma LowBitsOf(v: bv32, n: bv32, x: bv32, m: bv32)
    requires x == ShiftUnsigned(v, n) && m == ShiftUnsigned(0xffff_ffff, n)
    ensures x & m == x
  {
    hide *;
    LowBits(v, n);
  }

  lemma OnesAbove(x: bv32, m: bv32, y: bv32)
    requires y == x ^ m
    requires x & m == x
    ensures !y == x | !m
  {
  }

  lemma OnesShifted(v: bv32, n: bv32, x: bv32, y: bv32, m: bv32)
    requires x == ShiftUnsigned(v, n) && y == ShiftUnsigned(!v, n) && m == ShiftUnsigned(0xffff_ffff, n)
    ensures !y == x | !m
  {
    hide *;
    NotShiftOf(v, n, x, y, m);
    LowBitsOf(v, n, x, m);
    OnesAbove(x, m, y);
  }

  lemma SameShift(v: bv32, n: bv32)
    ensures ShiftUnsigned(v, n) == ShiftRight(v, n) && ShiftUp(v, n) == ShiftLeft(v, n)
  {
  }

  lemma NegativeShift(v: bv32, n: bv32)
    requires Negative(v)
    ensures ShiftInt(v, n) == !ShiftUnsigned(!v, n)
      && ShiftRightSigned(v, n) == ShiftRight(v, n) | !ShiftRight(0xffff_ffff, n)
  {
    hide Negative, ShiftUnsigned, ShiftRight;
  }

  lemma OrNothing(v: bv32)
    ensures v | 0 == v
  {
  }

  lemma PositiveShift(v: bv32, n: bv32)
    requires !Negative(v)
    ensures ShiftInt(v, n) == ShiftUnsigned(v, n) && ShiftRightSigned(v, n) == ShiftRight(v, n)
  {
    hide Negative, ShiftUnsigned, ShiftRight;
    OrNothing(ShiftRight(v, n));
  }

  /** The signed shift of the simulator is that of the reference. */
  lemma ShiftAgrees(v: bv32, n: bv32)
    ensures ShiftInt(v, n) == ShiftRightSigned(v, n)
  {
    hide *;
    SameShift(v, n);
    if Negative(v) {
      SameShift(0xffff_ffff, n);
      OnesShifted(v, n, ShiftUnsigned(v, n), ShiftUnsigned(!v, n), ShiftUnsigned(0xffff_ffff, n));
      NegativeShift(v, n);
    } else {
      PositiveShift(v, n);
    }
  }

  function FieldS(w: bv32): bv32 { ((w & 0xfe00_0000) >> 20) | ((w >> 7) & 0x1f) }
  function FieldB(w: bv32): bv32 {
    ((w & 0x8000_0000) >> 19) | ((w & 0x7e00_0000) >> 20) | ((w & 0xf00) >> 7) | ((w & 0x80) << 4)
  }
  function FieldJ(w: bv32): bv32 {
    ((w & 0x8000_0000) >> 11) | ((w & 0x7fe0_0000) >> 20) | ((w & 0x10_0000) >> 9) | (w & 0xf_f000)
  }

  function HostImmI(w: bv32): bv32 { Sign(w >> 20, 12) }
  function HostImmS(w: bv32): bv32 { Sign(FieldS(w), 12) }
  function HostImmB(w: bv32): bv32 { Sign(FieldB(w), 13) }
  function HostImmJ(w: bv32): bv32 { Sign(FieldJ(w), 21) }

  // The simulator's immediates are those of the ISA manual, for every instruction word.

  lemma Negative12(v: bv32)
    requires v & 0x800 != 0
    ensures Sign(v, 12) == v | 0xffff_f000
  {
  }

  lemma Positive12(v: bv32)
    requires v & 0x800 == 0
    ensures Sign(v, 12) == v & 0x7ff
  {
  }

  lemma Negative13(v: bv32)
    requires v & 0x1000 != 0
    ensures Sign(v, 13) == v | 0xffff_e000
  {
  }

  lemma Positive13(v: bv32)
    requires v & 0x1000 == 0
    ensures Sign(v, 13) == v & 0xfff
  {
  }

  lemma Negative21(v: bv32)
    requires v & 0x10_0000 != 0
    ensures Sign(v, 21) == v | 0xffe0_0000
  {
  }

  lemma Positive21(v: bv32)
    requires v & 0x10_0000 == 0
    ensures Sign(v, 21) == v & 0xf_ffff
  {
  }

  lemma NegativeI(w: bv32)
    requires w & 0x8000_0000 != 0
    ensures HostImmI(w) == ImmI(w)
  {
    Negative12(w >> 20);
  }

  lemma PositiveI(w: bv32)
    requires w & 0x8000_0000 == 0
    ensures HostImmI(w) == ImmI(w)
  {
    Positive12(w >> 20);
  }

  lemma ImmIAgrees(w: bv32)
    ensures HostImmI(w) == ImmI(w)
  {
    hide *;
    if w & 0x8000_0000 != 0 {
      NegativeI(w);
    } else {
      PositiveI(w);
    }
  }

  lemma NegativeS(w: bv32)
    requires w & 0x8000_0000 != 0
    ensures FieldS(w) | 0xffff_f000 == ImmS(w)
  {
  }

  function LowS(w: bv32): bv32 { ((w >> 20) & 0x7e0) | ((w >> 7) & 0x1f) }

  lemma LowBitsS(w: bv32)
    ensures FieldS(w) & 0x7ff == LowS(w)
  {
  }

  lemma PositiveS(w: bv32)
    requires w & 0x8000_0000 == 0
    ensures ImmS(w) == LowS(w)
  {
  }

  lemma SignBitS(w: bv32)
    ensures FieldS(w) & 0x800 == 0 <==> w & 0x8000_0000 == 0
  {
  }

  lemma NegativeCaseS(w: bv32)
    requires w & 0x8000_0000 != 0
    ensures HostImmS(w) == ImmS(w)
  {
    hide ImmS, FieldS, Sign;
    SignBitS(w);
    NegativeS(w);
    Negative12(FieldS(w));
  }

  lemma PositiveCaseS(w: bv32)
    requires w & 0x8000_0000 == 0
    ensures HostImmS(w) == ImmS(w)
  {
    hide ImmS, FieldS, LowS, Sign;
    SignBitS(w);
    LowBitsS(w);
    PositiveS(w);
    Positive12(FieldS(w));
  }

  lemma ImmSAgrees(w: bv32)
    ensures HostImmS(w) == ImmS(w)
  {
    hide *;
    if w & 0x8000_0000 != 0 {
      NegativeCaseS(w);
    } else {
      PositiveCaseS(w);
    }
  }

  lemma NegativeB(w: bv32)
    requires w & 0x8000_0000 != 0
    ensures FieldB(w) | 0xffff_e000 == ImmB(w)
  {
  }

  function LowB(w: bv32): bv32 { ((w << 4) & 0x800) | ((w >> 20) & 0x7e0) | ((w >> 7) & 0x1e) }

  lemma LowBitsB(w: bv32)
    ensures FieldB(w) & 0xfff == LowB(w)
  {
  }

  lemma PositiveB(w: bv32)
    requires w & 0x8000_0000 == 0
    ensures ImmB(w) == LowB(w)
  {
  }

  lemma SignBitB(w: bv32)
    ensures FieldB(w) & 0x1000 == 0 <==> w & 0x8000_0000 == 0
  {
  }

  lemma NegativeCaseB(w: bv32)
    requires w & 0x8000_0000 != 0
    ensures HostImmB(w) == ImmB(w)
  {
    hide ImmB, FieldB, Sign;
    SignBitB(w);
    NegativeB(w);
    Negative13(FieldB(w));
  }

  lemma PositiveCaseB(w: bv32)
    requires w & 0x8000_0000 == 0
    ensures HostImmB(w) == ImmB(w)
  {
    hide ImmB, FieldB, LowB, Sign;
    SignBitB(w);
    LowBitsB(w);
    PositiveB(w);
    Positive13(FieldB(w));
  }

  lemma ImmBAgrees(w: bv32)
    ensures HostImmB(w) == ImmB(w)
  {
    hide *;
    if w & 0x8000_0000 != 0 {
      NegativeCaseB(w);
    } else {
      PositiveCaseB(w);
    }
  }

  lemma NegativeJ(w: bv32)
    requires w & 0x8000_0000 != 0
    ensures FieldJ(w) | 0xffe0_0000 == ImmJ(w)
  {
  }

  function LowJ(w: bv32): bv32 { (w & 0xff000) | ((w >> 9) & 0x800) | ((w >> 20) & 0x7fe) }

  lemma LowBitsJ(w: bv32)
    ensures FieldJ(w) & 0xf_ffff == LowJ(w)
  {
  }

  lemma PositiveJ(w: bv32)
    requires w & 0x8000_0000 == 0
    ensures ImmJ(w) == LowJ(w)
  {
  }

  lemma SignBitJ(w: bv32)
    ensures FieldJ(w) & 0x10_0000 == 0 <==> w & 0x8000_0000 == 0
  {
  }

  lemma NegativeCaseJ(w: bv32)
    requires w & 0x8000_0000 != 0
    ensures HostImmJ(w) == ImmJ(w)
  {
    hide ImmJ, FieldJ, Sign;
    SignBitJ(w);
    NegativeJ(w);
    Negative21(FieldJ(w));
  }

  lemma PositiveCaseJ(w: bv32)
    requires w & 0x8000_0000 == 0
    ensures HostImmJ(w) == ImmJ(w)
  {
    hide ImmJ, FieldJ, LowJ, Sign;
    SignBitJ(w);
    LowBitsJ(w);
    PositiveJ(w);
    Positive21(FieldJ(w));
  }

  lemma ImmJAgrees(w: bv32)
    ensures HostImmJ(w) == ImmJ(w)
  {
    hide *;
    if w & 0x8000_0000 != 0 {
      NegativeCaseJ(w);
    } else {
      PositiveCaseJ(w);
    }
  }

  // The other fields are masked before they are shifted.

  function OpcodeField(w: bv32): bv32 { w & 0x7f }
  function Func3Field(w: bv32): bv32 { (w & 0x7000) >> 12 }
  function Func7Field(w: bv32): bv32 { (w & 0xfe00_0000) >> 25 }
  function RdField(w: bv32): bv5 { ((w & 0xf80) >> 7) as bv5 }
  function Rs1Field(w: bv32): bv5 { ((w & 0xf_8000) >> 15) as bv5 }
  function Rs2Field(w: bv32): bv5 { ((w & 0x1f0_0000) >> 20) as bv5 }
  function UpperField(w: bv32): bv32 { w & 0xffff_f000 }

  lemma Func3Agrees(w: bv32)
    ensures Func3Field(w) == Funct3(w)
  {
  }

  lemma Func7Agrees(w: bv32)
    ensures Func7Field(w) == Funct7(w)
  {
  }

  lemma RdAgrees(w: bv32)
    ensures RdField(w) == RdOf(w)
  {
  }

  lemma Rs1Agrees(w: bv32)
    ensures Rs1Field(w) == Rs1Of(w)
  {
  }

  lemma Rs2Agrees(w: bv32)
    ensures Rs2Field(w) == Rs2Of(w)
  {
  }

  lemma WholeAgrees(w: bv32)
    ensures OpcodeField(w) == Opcode(w) && UpperField(w) == ImmU(w)
  {
  }

  lemma FieldsAgree(w: bv32)
    ensures OpcodeField(w) == Opcode(w) && Func3Field(w) == Funct3(w) && Func7Field(w) == Funct7(w)
      && UpperField(w) == ImmU(w)
    ensures RdField(w) == RdOf(w) && Rs1Field(w) == Rs1Of(w) && Rs2Field(w) == Rs2Of(w)
  {
    hide *;
    WholeAgrees(w);
    Func3Agrees(w);
    Func7Agrees(w);
    RdAgrees(w);
    Rs1Agrees(w);
    Rs2Agrees(w);
  }

  lemma ClearLowBit(a: bv32)
    ensures a & !1 == EvenAddress(a)
  {
  }

  /** A byte offset into the data memory is the reference's offset, which counts words first. */
  lemma OffsetAgrees(a: bv32)
    ensures InData(a) && a & 3 == 0 ==> (a - 0x1000_0000) as nat == Offset(a)
  {
    if InData(a) && a & 3 == 0 {
      AlignedToo(a);
      ByteOffset(a - 0x1000_0000);
    }
  }

  lemma AlignedToo(a: bv32)
    requires a & 3 == 0
    ensures (a - 0x1000_0000) & 3 == 0
  {
  }

  lemma ByteOffset(d: bv32)
    requires d < 0x1_0000 && d & 3 == 0
    ensures d >> 2 < 0x4000 && d as nat == 4 * (((d >> 2) as bv14) as nat)
  {
    WordOffset(d);
    FourTimes((d >> 2) as bv14);
  }

  lemma WordOffset(d: bv32)
    requires d < 0x1_0000 && d & 3 == 0
    ensures d >> 2 < 0x4000 && ((((d >> 2) as bv14) as bv32) << 2) == d
  {
  }

  lemma FourTimes(q: bv14)
    ensures ((q as bv32) << 2) as nat == 4 * (q as nat)
  {
  }

  class Machine {
    var pc: bv32
    const reg: array<bv32>
    const mem: array<bv8>
    var input: seq<bv32>
    var output: seq<bv32>

    constructor (reg: array<bv32>, mem: array<bv8>, input: seq<bv32>)
      ensures this.reg == reg && this.mem == mem && pc == 0 && this.input == input && output == []
    {
      this.reg, this.mem, this.input := reg, mem, input;
      pc, output := 0, [];
    }

    ghost function Abs(): State
      reads this, reg, mem
    {
      State(pc, reg[..], mem[..], input, output)
    }

    ghost predicate Ok()
      reads this, reg, mem
    {
      Valid(Abs())
    }

    /** Every register write is followed by clearing register 0. */
    method WriteReg(rd: bv5, v: bv32)
      requires Ok()
      modifies reg
      ensures Ok() && Abs() == SetReg(old(Abs()), rd, v)
    {
      ghost var x := reg[..];
      reg[rd as int] := v;
      assert reg[..] == x[rd as int := v];
      reg[0] := 0;
      assert reg[..] == if rd == 0 then x else x[rd as int := v];
    }

    /** Opcode 0x03: a load from the effective address `a`. */
    method LoadCase(rd: bv5, a: bv32) returns (ok: bool)
      requires Ok() && Load(Abs(), rd, a) != Beyond
      modifies this, reg
      ensures Ok()
      ensures match Load(old(Abs()), rd, a)
        case Next(s) => ok && Advance(Abs()) == s
        case _ => !ok
    {
      hide LessInt, Negative, InData, Offset, Load, WordAt;
      LoadCases(Abs(), rd, a);
      AddressCases(a);
      OffsetAgrees(a);
      var addr_lw := a - 0x1000_0000;
      if addr_lw == 0x1000_0000 {
        WriteReg(rd, input[0]);
        input := input[1..];
      } else if !LessInt(addr_lw, 0xffff) || Negative(addr_lw) {
        return false;
      } else {
        var word := LoadBytes(addr_lw as nat);
        WriteReg(rd, word);
      }
      return true;
    }

    /** Opcode 0x23: a store to the effective address `a`. */
    method StoreCase(a: bv32, v: bv32) returns (ok: bool)
      requires Ok() && Store(Abs(), a, v) != Beyond
      modifies this, mem
      ensures Ok()
      ensures match Store(old(Abs()), a, v)
        case Next(s) => ok && Advance(Abs()) == s
        case _ => !ok
    {
      hide LessInt, Negative, InData, Offset, Store, WithWord, ByteOf;
      StoreCases(Abs(), a, v);
      AddressCases(a);
      OffsetAgrees(a);
      var addr_sw := a - 0x1000_0000;
      if !Negative(addr_sw) && LessInt(addr_sw, 0xffff) {
        StoreBytes(addr_sw as nat, v);
      } else if addr_sw == 0x1000_0000 {
        if v < 0x7f {
          output := output + [v];
        }
      } else {
        return false;
      }
      return true;
    }

    /** Opcodes 0x13 and 0x33: the result register gets what the switch computes, if anything. */
    method AluCase(imm: bool, func3: bv32, func7: bv32, rd: bv5, a: bv32, b: bv32)
      requires Ok() && func3 < 8
      modifies reg
      ensures Ok()
      ensures var op := if imm then AluImmOf(func3, func7) else AluOf(func3, func7);
        op.Some? ==> Abs() == SetReg(old(Abs()), rd, Alu(op.value, a, b))
    {
      hide AluImmOf, AluOf, Alu, SwitchValue, SwitchOp, SetReg;
      SwitchAgrees(imm, func3, func7, a, b);
      if SwitchOp(imm, func3, func7).Some? {
        WriteReg(rd, SwitchValue(imm, func3, func7, a, b));
      }
    }

    /** The branch condition that opcode 0x63 tests before it changes the program counter. */
    method BranchCase(func3: bv32, a: bv32, b: bv32, imm_b: bv32)
      requires CondOf(func3).Some?
      modifies this`pc
      ensures pc == if Taken(CondOf(func3).value, a, b) then Plus(old(pc), imm_b) else old(pc)
    {
      hide LessInt, LessSigned, Plus;
      LessAgrees(a, b);
      if func3 == 0 {
        if a == b {
          pc := Plus(pc, imm_b);
        }
      } else if func3 == 1 {
        if a != b {
          pc := Plus(pc, imm_b);
        }
      } else if func3 == 4 {
        if LessInt(a, b) {
          pc := Plus(pc, imm_b);
        }
      } else {
        if !LessInt(a, b) {
          pc := Plus(pc, imm_b);
        }
      }
    }

    /** The opcodes that leave the program counter to the end of the loop. */
    method DataCase(inst: bv32) returns (ok: bool)
      requires Ok() && Exec(Abs(), Decode(inst)) != Beyond && Sequential(Opcode(inst))
      modifies this, reg, mem
      ensures Ok()
      ensures match Exec(old(Abs()), Decode(inst))
        case Next(s) => ok && Advance(Abs()) == s
        case _ => !ok
    {
      hide Decode, Load, Store, Alu, AluOf, AluImmOf, CondOf, Taken, ImmI, ImmS, ImmB, ImmJ, ImmU, RdOf, Rs1Of,
        Rs2Of, Funct3, Funct7, Opcode, OpcodeField, Func3Field, Func7Field, RdField, Rs1Field, Rs2Field, UpperField,
          Plus, EvenAddress, SetReg, HostImmI, HostImmS;
      DecodeCases(inst);
      ImmIAgrees(inst);
      ImmSAgrees(inst);
      FieldsAgree(inst);
      var opcode, func3, func7 := OpcodeField(inst), Func3Field(inst), Func7Field(inst);
      var rd, rs1, rs2 := RdField(inst), Rs1Field(inst), Rs2Field(inst);
      ok := true;
      if opcode == 0x03 {
        ok := LoadCase(rd, Plus(reg[rs1 as int], HostImmI(inst)));
      } else if opcode == 0x13 {
        AluCase(true, func3, func7, rd, reg[rs1 as int], HostImmI(inst));
      } else if opcode == 0x17 {
        WriteReg(rd, Plus(pc, UpperField(inst)));
      } else if opcode == 0x23 {
        ok := StoreCase(Plus(reg[rs1 as int], HostImmS(inst)), reg[rs2 as int]);
      } else if opcode == 0x33 {
        AluCase(false, func3, func7, rd, reg[rs1 as int], reg[rs2 as int]);
      } else {
        WriteReg(rd, UpperField(inst));
      }
    }

    /** Opcodes 0x67 and 0x6f. */
    method JumpCase(inst: bv32)
      requires Ok() && Exec(Abs(), Decode(inst)) != Beyond && (Opcode(inst) == 0x67 || Opcode(inst) == 0x6f)
      modifies this, reg
      ensures Ok() && Exec(old(Abs()), Decode(inst)) == Next(Abs())
    {
      hide Decode, Load, Store, Alu, AluOf, AluImmOf, CondOf, Taken, ImmI, ImmS, ImmB, ImmJ, ImmU, RdOf, Rs1Of,
        Rs2Of, Funct3, Funct7, Opcode, OpcodeField, Func3Field, Func7Field, RdField, Rs1Field, Rs2Field, UpperField,
          Plus, EvenAddress, HostImmI, HostImmJ;
      DecodeCases(inst);
      ImmIAgrees(inst);
      ImmJAgrees(inst);
      FieldsAgree(inst);
      var rd, rs1 := RdField(inst), Rs1Field(inst);
      if OpcodeField(inst) == 0x67 {
        var temp := Plus(reg[rs1 as int], HostImmI(inst));
        WriteReg(rd, Plus(pc, 4));
        ClearLowBit(temp);
        pc := temp & !1;
      } else {
        WriteReg(rd, Plus(pc, 4));
        pc := Plus(pc, HostImmJ(inst));
      }
    }

    /** The body of the instruction loop. */
    method Step(inst: bv32) returns (ok: bool)
      requires Ok() && Exec(Abs(), Decode(inst)) != Beyond
      modifies this, reg, mem
      ensures Ok()
      ensures match Exec(old(Abs()), Decode(inst))
        case Next(s) => ok && Abs() == s
        case _ => !ok
    {
      hide Decode, Load, Store, Alu, AluOf, AluImmOf, CondOf, Taken, ImmI, ImmS, ImmB, ImmJ, ImmU, RdOf, Rs1Of,
        Rs2Of, Funct3, Funct7, Opcode, OpcodeField, Func3Field, Func7Field, RdField, Rs1Field, Rs2Field, UpperField,
          Plus, EvenAddress, SetReg, HostImmB, NotTaken;
      DecodeCases(inst);
      ImmBAgrees(inst);
      FieldsAgree(inst);
      var opcode, func3, rs1, rs2 := OpcodeField(inst), Func3Field(inst), Rs1Field(inst), Rs2Field(inst);
      ok := true;
      if Sequential(opcode) {
        ok := DataCase(inst);
        if !ok {
          return;
        }
      } else if opcode == 0x63 {
        NotTakenAgrees(func3, reg[rs1 as int], reg[rs2 as int]);
        BranchCase(func3, reg[rs1 as int], reg[rs2 as int], HostImmB(inst));
      } else {
        JumpCase(inst);
      }
      if opcode != 0x6f && opcode != 0x67 && (opcode != 0x63 || NotTaken(func3, reg[rs1 as int], reg[rs2 as int])) {
        pc := Plus(pc, 4);
      }
    }

    /** The instruction loop: `inst` instructions at most, ending early at the program's end or at a fault. */
    method Run(program: seq<bv32>, inst: nat) returns (ok: bool)
      requires Ok() && Rv32.Run(Abs(), program, inst) != Beyond
      modifies this, reg, mem
      ensures Ok()
      ensures match Rv32.Run(old(Abs()), program, inst)
        case Next(s) => ok && Abs() == s
        case _ => !ok
    {
      hide Exec, Decode, WordIndex, PcIndex;
      ghost var goal := Rv32.Run(Abs(), program, inst);
      var i := 0;
      while i < inst
        invariant 0 <= i <= inst && Ok() && Rv32.Run(Abs(), program, inst - i) == goal
      {
        if PcIndex(pc) >= |program| {
          break;
        }
        var fine := Step(program[PcIndex(pc)]);
        if !fine {
          return false;
        }
        i := i + 1;
      }
      return true;
    }

    /** The expression the simulator loads. */
    method LoadBytes(a: nat) returns (word: bv32)
      requires Ok() && a + 4 <= DATA_SIZE
      ensures word == LoadedWord(mem[..], a)
    {
      word := ((mem[a + 3] as bv32) << 24) | ((mem[a + 2] as bv32) << 16)
        | ((mem[a + 1] as bv32) << 8) | (mem[a] as bv32);
    }

    method StoreBytes(a: nat, v: bv32)
      requires Ok() && a + 4 <= DATA_SIZE
      modifies mem
      ensures Ok() && mem[..] == WithWord(old(mem[..]), a, v)
    {
      hide ByteOf;
      ghost var m := mem[..];
      WordBytes(v);
      mem[a] := (v & 0xff) as bv8;
      mem[a + 1] := ((v >> 8) & 0xff) as bv8;
      mem[a + 2] := ((v >> 16) & 0xff) as bv8;
      mem[a + 3] := ((v >> 24) & 0xff) as bv8;
      assert mem[..] == m[a := ByteOf(v, 0)][a + 1 := ByteOf(v, 1)][a + 2 := ByteOf(v, 2)][a + 3 := ByteOf(v, 3)];
    }
  }

  predicate Sequential(o: bv32) { o == 0x03 || o == 0x13 || o == 0x17 || o == 0x23 || o == 0x33 || o == 0x37 }

  /** `pc / 4`. */
  function PcIndex(pc: bv32): (i: nat)
    ensures i == WordIndex(pc)
  {
    assert pc / 4 == pc >> 2;
    (pc / 4) as nat
  }

  /** The negated branch conditions in the test that advances the program counter. */
  function NotTaken(func3: bv32, a: bv32, b: bv32): bool {
    (func3 == 0 && a != b) || (func3 == 1 && a == b) || (func3 == 4 && !LessInt(a, b)) || (func3 == 5 && LessInt(a, b))
  }

  lemma NotTakenAgrees(func3: bv32, a: bv32, b: bv32)
    requires CondOf(func3).Some?
    ensures NotTaken(func3, a, b) <==> !Taken(CondOf(func3).value, a, b)
  {
    hide LessInt, LessSigned;
    LessAgrees(a, b);
  }

  /** Decoding, opcode by opcode. */
  lemma DecodeCases(w: bv32)
    ensures Funct3(w) < 8
    ensures var i, o, f3, f7 := Decode(w), Opcode(w), Funct3(w), Funct7(w);
      var rd, rs1, rs2 := RdOf(w), Rs1Of(w), Rs2Of(w);
      && (o == 0x03 ==> i == if f3 == 2 then Lw(rd, rs1, ImmI(w)) else Unsupported)
      && (o == 0x13 ==>
        i == if AluImmOf(f3, f7).Some? then OpImm(AluImmOf(f3, f7).value, rd, rs1, ImmI(w)) else Unsupported)
      && (o == 0x17 ==> i == Auipc(rd, ImmU(w)))
      && (o == 0x23 ==> i == if f3 == 2 then Sw(rs1, rs2, ImmS(w)) else Unsupported)
      && (o == 0x33 ==> i == if AluOf(f3, f7).Some? then Op(AluOf(f3, f7).value, rd, rs1, rs2) else Unsupported)
      && (o == 0x37 ==> i == Lui(rd, ImmU(w)))
      && (o == 0x63 ==> i == if CondOf(f3).Some? then Branch(CondOf(f3).value, rs1, rs2, ImmB(w)) else Unsupported)
      && (o == 0x67 ==> i == if f3 == 0 then Jalr(rd, rs1, ImmI(w)) else Unsupported)
      && (o == 0x6f ==> i == Jal(rd, ImmJ(w)))
      && ((o != 0x03 && o != 0x13 && o != 0x17 && o != 0x23 && o != 0x33 && o != 0x37 && o != 0x63 && o != 0x67
           && o != 0x6f) ==> i == Unsupported)
  {
    hide AluOf, AluImmOf, CondOf, ImmI, ImmS, ImmB, ImmJ, ImmU, RdOf, Rs1Of, Rs2Of;
  }

  lemma WordBytes(v: bv32)
    ensures ByteOf(v, 0) == (v & 0xff) as bv8 && ByteOf(v, 1) == ((v >> 8) & 0xff) as bv8
    ensures ByteOf(v, 2) == ((v >> 16) & 0xff) as bv8 && ByteOf(v, 3) == ((v >> 24) & 0xff) as bv8
  {
  }

  /** The expression the simulator loads. */
  function LoadedWord(mem: seq<bv8>, a: nat): bv32
    requires a + 4 <= |mem|
  {
    ((mem[a + 3] as bv32) << 24) | ((mem[a + 2] as bv32) << 16) | ((mem[a + 1] as bv32) << 8) | (mem[a] as bv32)
  }

  lemma LoadedAgrees(mem: seq<bv8>, a: nat)
    requires a + 4 <= |mem|
    ensures LoadedWord(mem, a) == WordAt(mem, a)
  {
  }

  lemma LoadCases(s: State, rd: bv5, a: bv32)
    requires Valid(s) && Load(s, rd, a) != Beyond
    ensures a == IO_WORD ==>
      s.input != [] && Load(s, rd, a) == Next(Advance(SetReg(s, rd, s.input[0]).(input := s.input[1..])))
    ensures a != IO_WORD && !InData(a) ==> Load(s, rd, a) == Fault
    ensures a != IO_WORD && InData(a) ==>
      a & 3 == 0 && Load(s, rd, a) == Next(Advance(SetReg(s, rd, LoadedWord(s.mem, Offset(a)))))
  {
    hide WordAt, LoadedWord, Offset, InData, SetReg;
    if InData(a) {
      LoadedAgrees(s.mem, Offset(a));
    }
  }

  lemma StoreCases(s: State, a: bv32, v: bv32)
    requires Valid(s) && Store(s, a, v) != Beyond
    ensures a == IO_WORD ==> Store(s, a, v) == Next(Advance(if v < 0x7f then s.(output := s.output + [v]) else s))
    ensures a != IO_WORD && !InData(a) ==> Store(s, a, v) == Fault
    ensures a != IO_WORD && InData(a) ==>
      a & 3 == 0 && Store(s, a, v) == Next(Advance(s.(mem := WithWord(s.mem, Offset(a), v))))
  {
    hide WithWord, Offset, InData;
  }

  /** The operation of the reference that a branch of the switch stands for; None where it does nothing. */
  function SwitchOp(imm: bool, func3: bv32, func7: bv32): Option<AluOp> {
    if func3 == 0 then if imm || func7 == 0 then Some(Add) else if func7 == 0x20 then Some(Sub) else None
    else if func3 == 1 then Some(Sll)
    else if func3 == 2 then Some(Slt)
    else if func3 == 3 then Some(Sltu)
    else if func3 == 4 then Some(Xor)
    else if func3 == 5 then if func7 == 0 then Some(Srl) else if func7 == 0x20 then Some(Sra) else None
    else if func3 == 6 then Some(Or)
    else Some(And)
  }

  lemma SwitchSelects(imm: bool, func3: bv32, func7: bv32)
    requires func3 < 8
    ensures var op := if imm then AluImmOf(func3, func7) else AluOf(func3, func7);
      op.Some? ==> SwitchOp(imm, func3, func7) == op
  {
  }

  /** The right-hand sides of the switch for opcodes 0x13 (`imm`) and 0x33. */
  function SwitchValue(imm: bool, func3: bv32, func7: bv32, a: bv32, b: bv32): bv32
    requires SwitchOp(imm, func3, func7).Some?
  {
    if func3 == 0 then if imm || func7 == 0 then a + b else a - b
    else if func3 == 1 then ShiftUp(a, b)
    else if func3 == 2 then if LessInt(a, b) then 1 else 0
    else if func3 == 3 then if a < b then 1 else 0
    else if func3 == 4 then a ^ b
    else if func3 == 5 then if func7 == 0 then ShiftUnsigned(a, b) else ShiftInt(a, b)
    else if func3 == 6 then a | b
    else a & b
  }

  /** For every valid encoding the switch computes the operation of the reference. */
  lemma SwitchAgrees(imm: bool, func3: bv32, func7: bv32, a: bv32, b: bv32)
    requires func3 < 8
    ensures var op := if imm then AluImmOf(func3, func7) else AluOf(func3, func7);
      op.Some? ==> SwitchOp(imm, func3, func7) == op && SwitchValue(imm, func3, func7, a, b) == Alu(op.value, a, b)
  {
    hide LessInt, LessSigned, ShiftInt, Negative, ShiftRightSigned, ShiftUnsigned, ShiftRight, ShiftUp, ShiftLeft;
    SwitchSelects(imm, func3, func7);
    LessAgrees(a, b);
    SameShift(a, b);
    ShiftAgrees(a, b);
  }

  /** The simulator's address tests, on aligned addresses, are those of the reference. */
  lemma AddressCases(a: bv32)
    ensures a - 0x1000_0000 == 0x1000_0000 <==> a == IO_WORD
    ensures a - 0x1000_0000 + DATA_BASE == a && (a == IO_WORD ==> !InData(a))
    ensures a & 3 == 0 || !InData(a) ==>
      (InData(a) <==> !Negative(a - 0x1000_0000) && LessInt(a - 0x1000_0000, 0xffff))
  {
    var d := a - 0x1000_0000;
    assert a & 3 == 0 ==> d & 3 == 0;
    assert d & 3 == 0 ==> d != 0xffff;
  }
}
