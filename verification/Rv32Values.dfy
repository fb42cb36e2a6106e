/**
 What the reference of `Rv32` computes, in integers: the ALU, the branch conditions, the words of the data memory,
 and whole instructions with their encodings (RISC-V Unprivileged ISA, sections 2.2 to 2.6 and its listing of
 RV32I).
 */
module Rv32Values {
  import opened BitValues
  import opened Bytes
  import opened Riscv
  import opened Rv32
  import Simulator

  // ---------------------------------------------------------------- operations

  lemma PlusIs(a: bv32, b: bv32)
    ensures Plus(a, b) == Sum(a, b) && Alu(Add, a, b) == Sum(a, b) && Alu(Sub, a, b) == Minus(a, b)
  {
  }

  lemma LogicIs(a: bv32, b: bv32)
    ensures Alu(AluOp.And, a, b) == BitValues.And(a, b) && Alu(AluOp.Or, a, b) == BitValues.Or(a, b)
    ensures Alu(AluOp.Xor, a, b) == BitValues.Xor(a, b)
  {
  }

  lemma OrderIs(a: bv32, b: bv32)
    ensures LessSigned(a, b) <==> Below(Flip(a), Flip(b))
    ensures Alu(Sltu, a, b) == if Below(a, b) then 1 else 0
  {
  }

  lemma SltIs(a: bv32, b: bv32)
    ensures Alu(Slt, a, b) == if LessSigned(a, b) then 1 else 0
  {
    hide LessSigned;
  }

  lemma ShiftIs(a: bv32, b: bv32)
    ensures Alu(Sll, a, b) == ShiftUp(a, b) && Alu(Srl, a, b) == ShiftDown(a, b)
  {
  }

  lemma SignBit(a: bv32)
    requires Negative(a)
    ensures Unsigned(a) >= 0x8000_0000
  {
  }

  lemma FlipSign(a: bv32)
    ensures Negative(a) || Negative(Flip(a))
  {
  }

  lemma NegativeIs(a: bv32)
    ensures Negative(a) <==> Signed(a) < 0
  {
    hide Negative, Unsigned, Flip;
    if Negative(a) {
      SignBit(a);
    } else {
      FlipSign(a);
      SignBit(Flip(a));
      FlipValue(a);
    }
  }

  lemma NotIs(a: bv32)
    ensures !a == Not(a)
  {
  }

  lemma DownIs(a: bv32, b: bv32)
    ensures Simulator.ShiftUnsigned(a, b) == ShiftDown(a, b)
  {
  }

  lemma NegativeShift(a: bv32, b: bv32)
    requires Negative(a)
    ensures Simulator.ShiftInt(a, b) == Not(Simulator.ShiftUnsigned(Not(a), b))
  {
    hide Negative, Simulator.ShiftUnsigned, Not;
    NotIs(a);
    NotIs(Simulator.ShiftUnsigned(!a, b));
  }

  lemma SignedShiftIs(a: bv32, b: bv32)
    ensures Simulator.ShiftInt(a, b) == ShiftSigned(a, b)
  {
    hide Signed, Unsigned, Negative, Not, ShiftDown, Simulator.ShiftUnsigned;
    NegativeIs(a);
    DownIs(a, b);
    DownIs(Not(a), b);
    if Negative(a) {
      NegativeShift(a, b);
    }
  }

  /** The ALU: arithmetic modulo 2^32, signed and unsigned order, logic bit by bit, shifts by powers of two. */
  lemma AluMeans(op: AluOp, a: bv32, b: bv32)
    ensures var r, p := Alu(op, a, b), Power(Unsigned(b) % 32);
      match op
      case Add => Unsigned(r) == (Unsigned(a) + Unsigned(b)) % 0x1_0000_0000
      case Sub => Unsigned(r) == (Unsigned(a) - Unsigned(b)) % 0x1_0000_0000
      case Sll => Unsigned(r) == Unsigned(a) * p % 0x1_0000_0000
      case Slt => r == if Signed(a) < Signed(b) then 1 else 0
      case Sltu => r == if Unsigned(a) < Unsigned(b) then 1 else 0
      case Xor => forall k: nat :: BitAt(r, k) == if BitAt(a, k) == BitAt(b, k) then 0 else 1
      case Srl => Unsigned(r) == Unsigned(a) / p
      case Sra => Signed(r) == Signed(a) / p
      case Or => forall k: nat :: BitAt(r, k) == if BitAt(a, k) + BitAt(b, k) == 0 then 0 else 1
      case And => forall k: nat :: BitAt(r, k) == BitAt(a, k) * BitAt(b, k)
  {
    hide *;
    match op {
      case Add =>
        PlusIs(a, b);
        SumValue(a, b);
      case Sub =>
        PlusIs(a, b);
        MinusValue(a, b);
      case Slt =>
        SltIs(a, b);
        OrderIs(a, b);
        SignedOrder(a, b);
      case Sltu =>
        OrderIs(a, b);
        OrderValue(a, b);
      case Sll =>
        ShiftIs(a, b);
        ShiftValue(a, b);
      case Srl =>
        ShiftIs(a, b);
        ShiftValue(a, b);
      case Sra =>
        SraIs(a, b);
        SignedShiftValue(a, b);
      case _ =>
        LogicIs(a, b);
        forall k: nat
          ensures BitAt(BitValues.And(a, b), k) == BitAt(a, k) * BitAt(b, k)
          ensures BitAt(BitValues.Or(a, b), k) == if BitAt(a, k) + BitAt(b, k) == 0 then 0 else 1
          ensures BitAt(BitValues.Xor(a, b), k) == if BitAt(a, k) == BitAt(b, k) then 0 else 1
        {
          LogicBits(a, b, k);
        }
    }
  }

  lemma SraIs(a: bv32, b: bv32)
    ensures Alu(Sra, a, b) == ShiftSigned(a, b)
  {
    hide Simulator.ShiftInt, ShiftRightSigned, ShiftSigned;
    SignedShiftIs(a, b);
    Simulator.ShiftAgrees(a, b);
  }

  predicate Holds(c: Cond, a: int, b: int) {
    match c
    case Eq => a == b
    case Ne => a != b
    case Lt => a < b
    case Ge => a >= b
  }

  /** The branch conditions compare the signed integers. */
  lemma TakenMeans(c: Cond, a: bv32, b: bv32)
    ensures Taken(c, a, b) <==> Holds(c, Signed(a), Signed(b))
  {
    hide Unsigned, LessSigned, Below;
    OrderIs(a, b);
    SignedOrder(a, b);
    if Signed(a) == Signed(b) {
      Distinct(a, b);
    }
  }

  // ---------------------------------------------------------------- memory

  function Byte(b: bv8): (r: int)
    ensures 0 <= r < 0x100
  {
    b as int
  }

  lemma FourBytes(a: bv8, b: bv8, c: bv8, d: bv8)
    ensures Unsigned((a as bv32) | ((b as bv32) << 8) | ((c as bv32) << 16) | ((d as bv32) << 24))
      == Byte(a) + 0x100 * Byte(b) + 0x1_0000 * Byte(c) + 0x100_0000 * Byte(d)
  {
  }

  /** The first of the four bytes is the least significant. */
  lemma WordMeans(mem: seq<bv8>, a: nat)
    requires a + 4 <= |mem|
    ensures Unsigned(WordAt(mem, a))
      == Byte(mem[a]) + 0x100 * Byte(mem[a + 1]) + 0x1_0000 * Byte(mem[a + 2]) + 0x100_0000 * Byte(mem[a + 3])
  {
    hide Unsigned, Byte;
    FourBytes(mem[a], mem[a + 1], mem[a + 2], mem[a + 3]);
  }

  lemma Reassembled(v: bv32)
    ensures (ByteOf(v, 0) as bv32) | ((ByteOf(v, 1) as bv32) << 8) | ((ByteOf(v, 2) as bv32) << 16)
      | ((ByteOf(v, 3) as bv32) << 24) == v
  {
  }

  /** A word stored is the word loaded from there, and no other byte changes. */
  lemma StoredWord(mem: seq<bv8>, a: nat, v: bv32)
    requires a + 4 <= |mem|
    ensures |WithWord(mem, a, v)| == |mem| && WordAt(WithWord(mem, a, v), a) == v
    ensures forall i | 0 <= i < |mem| && !(a <= i < a + 4) :: WithWord(mem, a, v)[i] == mem[i]
  {
    hide ByteOf;
    Reassembled(v);
  }

  /** Words that do not overlap a store are as before. */
  lemma OtherWord(mem: seq<bv8>, a: nat, v: bv32, b: nat)
    requires a + 4 <= |mem| && b + 4 <= |mem| && (b + 4 <= a || a + 4 <= b)
    ensures WordAt(WithWord(mem, a, v), b) == WordAt(mem, b)
  {
    hide ByteOf;
    StoredWord(mem, a, v);
  }

  // ---------------------------------------------------------------- addresses

  function Quad(h: bv30, l: bv2): bv32 { ((h as bv32) << 2) | (l as bv32) }
  function QuadHigh(h: bv30): int { h as int }
  function QuadLow(l: bv2): int { l as int }

  lemma QuadParts(a: bv32)
    ensures a == Quad((a >> 2) as bv30, (a & 3) as bv2)
  {
  }

  lemma QuadValue(h: bv30, l: bv2)
    ensures Unsigned(Quad(h, l)) == 4 * QuadHigh(h) + QuadLow(l) && 0 <= QuadLow(l) < 4 && (QuadLow(l) == 0 <==> l == 0)
  {
  }

  lemma QuadAligned(a: bv32)
    ensures a & 3 == 0 <==> (a & 3) as bv2 == 0
  {
  }

  lemma AlignedMeans(a: bv32)
    ensures a & 3 == 0 <==> Unsigned(a) % 4 == 0
  {
    hide Unsigned, Quad, QuadHigh, QuadLow;
    QuadParts(a);
    QuadValue((a >> 2) as bv30, (a & 3) as bv2);
    QuadAligned(a);
  }

  lemma EvenIs(a: bv32)
    ensures EvenAddress(a) == Pair(Upper(a), 0)
  {
  }

  lemma EvenMeans(a: bv32)
    ensures Unsigned(EvenAddress(a)) == Unsigned(a) - Unsigned(a) % 2
  {
    hide *;
    EvenIs(a);
    Paired(Upper(a), 0);
    Parts(a);
    Paired(Upper(a), Last(a));
    PartValues(a);
    HalfValue(a);
    LastZero();
  }

  lemma LastZero()
    ensures LastValue(0) == 0
  {
  }

  lemma DataIs(a: bv32)
    ensures InData(a) <==> Below(Minus(a, 0x1000_0000), 0x1_0000)
    ensures a == IO_WORD <==> Unsigned(a) == 0x2000_0000
    ensures Unsigned(0x1000_0000) == 0x1000_0000 && Unsigned(0x1_0000) == 0x1_0000
  {
  }

  lemma DataMeans(a: bv32)
    ensures InData(a) <==> 0x1000_0000 <= Unsigned(a) < 0x1001_0000
    ensures a == IO_WORD <==> Unsigned(a) == 0x2000_0000
  {
    hide *;
    DataIs(a);
    OrderValue(Minus(a, 0x1000_0000), 0x1_0000);
    MinusValue(a, 0x1000_0000);
  }

  function Distance(a: bv32): nat { (a - 0x1000_0000) as nat }
  predicate Aligned(a: bv32) { a & 3 == 0 }

  lemma DistanceIs(a: bv32)
    ensures Distance(a) == Unsigned(Minus(a, 0x1000_0000)) && Unsigned(0x1000_0000) == 0x1000_0000
  {
  }

  lemma DistanceMeans(a: bv32)
    ensures Distance(a) == (Unsigned(a) - 0x1000_0000) % 0x1_0000_0000
  {
    hide *;
    DistanceIs(a);
    MinusValue(a, 0x1000_0000);
  }

  lemma OffsetIs(a: bv32)
    requires InData(a) && Aligned(a)
    ensures Offset(a) == Distance(a)
  {
    hide InData, Offset;
    Simulator.OffsetAgrees(a);
  }

  lemma AlignedIs(a: bv32)
    ensures Aligned(a) <==> Unsigned(a) % 4 == 0
  {
    hide Unsigned;
    AlignedMeans(a);
  }

  lemma OffsetMeans(a: bv32)
    requires InData(a) && Unsigned(a) % 4 == 0
    ensures Offset(a) == Unsigned(a) - 0x1000_0000
  {
    hide *;
    AlignedIs(a);
    DataMeans(a);
    OffsetIs(a);
    DistanceMeans(a);
  }

  // ---------------------------------------------------------------- instructions

  /** Only register `rd` changes, to `u`, and register 0 stays zero; memory, input and output are as before. */
  ghost predicate Writes(s: State, t: State, rd: bv5, u: int)
    requires Valid(s)
  {
    && Valid(t)
    && (forall k | 0 <= k < 32 :: Unsigned(t.x[k]) == if k == rd as int && k != 0 then u else Unsigned(s.x[k]))
    && t.mem == s.mem
    && t.input == s.input
    && t.output == s.output
  }

  /** The value of register `r`. */
  function Value(s: State, r: bv5): int
    requires Valid(s)
  {
    Unsigned(s.x[r as int])
  }

  /** The program counter moves by `d`. */
  predicate Moves(s: State, t: State, d: int) {
    Unsigned(t.pc) == (Unsigned(s.pc) + d) % 0x1_0000_0000
  }

  lemma PlusMeans(a: bv32, b: bv32)
    ensures Unsigned(Plus(a, b)) == (Unsigned(a) + Unsigned(b)) % 0x1_0000_0000
  {
    hide *;
    PlusIs(a, b);
    SumValue(a, b);
  }

  lemma Four()
    ensures Unsigned(4) == 4
  {
  }

  lemma SetMeans(s: State, rd: bv5, v: bv32, pc: bv32)
    requires Valid(s)
    ensures Writes(s, SetReg(s, rd, v).(pc := pc), rd, Unsigned(v))
  {
    hide Unsigned;
  }

  lemma AdvanceMeans(s: State, rd: bv5, v: bv32)
    requires Valid(s)
    ensures Writes(s, Advance(SetReg(s, rd, v)), rd, Unsigned(v)) && Moves(s, Advance(SetReg(s, rd, v)), 4)
  {
    hide Unsigned, Plus, Writes;
    SetMeans(s, rd, v, Plus(s.pc, 4));
    PlusMeans(s.pc, 4);
    Four();
  }

  /** Upper immediates and operations. */
  lemma ComputeMeans(s: State, rd: bv5, rs1: bv5, rs2: bv5, op: AluOp, imm: bv32)
    requires Valid(s)
    ensures Exec(s, Lui(rd, imm)).Next? && Exec(s, Auipc(rd, imm)).Next?
    ensures Exec(s, OpImm(op, rd, rs1, imm)).Next? && Exec(s, Op(op, rd, rs1, rs2)).Next?
    ensures var t := Exec(s, Lui(rd, imm)).s;
      Writes(s, t, rd, Unsigned(imm)) && Moves(s, t, 4)
    ensures var t := Exec(s, Auipc(rd, imm)).s;
      Writes(s, t, rd, (Unsigned(s.pc) + Unsigned(imm)) % 0x1_0000_0000) && Moves(s, t, 4)
    ensures var t := Exec(s, OpImm(op, rd, rs1, imm)).s;
      Writes(s, t, rd, Unsigned(Alu(op, s.x[rs1 as int], imm))) && Moves(s, t, 4)
    ensures var t := Exec(s, Op(op, rd, rs1, rs2)).s;
      Writes(s, t, rd, Unsigned(Alu(op, s.x[rs1 as int], s.x[rs2 as int]))) && Moves(s, t, 4)
  {
    hide Unsigned, Plus, Writes, Moves, Alu, SetReg, Advance;
    AdvanceMeans(s, rd, imm);
    AdvanceMeans(s, rd, Plus(s.pc, imm));
    PlusMeans(s.pc, imm);
    AdvanceMeans(s, rd, Alu(op, s.x[rs1 as int], imm));
    AdvanceMeans(s, rd, Alu(op, s.x[rs1 as int], s.x[rs2 as int]));
  }

  /** Jumps link the next instruction; an indirect one clears the last bit of its target. */
  lemma JumpMeans(s: State, rd: bv5, rs1: bv5, imm: bv32)
    requires Valid(s)
    ensures Exec(s, Jal(rd, imm)).Next? && Exec(s, Jalr(rd, rs1, imm)).Next?
    ensures var t := Exec(s, Jal(rd, imm)).s;
      Writes(s, t, rd, (Unsigned(s.pc) + 4) % 0x1_0000_0000) && Moves(s, t, Unsigned(imm))
    ensures var t := Exec(s, Jalr(rd, rs1, imm)).s;
      var e := (Value(s, rs1) + Unsigned(imm)) % 0x1_0000_0000;
      Writes(s, t, rd, (Unsigned(s.pc) + 4) % 0x1_0000_0000) && Unsigned(t.pc) == e - e % 2
  {
    hide Unsigned, Plus, Writes, SetReg, EvenAddress;
    PlusMeans(s.pc, 4);
    Four();
    SetMeans(s, rd, Plus(s.pc, 4), Plus(s.pc, imm));
    PlusMeans(s.pc, imm);
    var e := Plus(s.x[rs1 as int], imm);
    SetMeans(s, rd, Plus(s.pc, 4), EvenAddress(e));
    EvenMeans(e);
    PlusMeans(s.x[rs1 as int], imm);
  }

  /** Branches compare signed values and change nothing but the program counter. */
  lemma BranchMeans(s: State, c: Cond, rs1: bv5, rs2: bv5, imm: bv32)
    requires Valid(s)
    ensures Exec(s, Branch(c, rs1, rs2, imm)).Next?
    ensures var t, taken := Exec(s, Branch(c, rs1, rs2, imm)).s,
          Holds(c, Signed(s.x[rs1 as int]), Signed(s.x[rs2 as int]));
      t == s.(pc := t.pc) && Moves(s, t, if taken then Unsigned(imm) else 4)
  {
    hide Unsigned, Signed, Plus, Taken, Holds;
    PlusMeans(s.pc, 4);
    Four();
    PlusMeans(s.pc, imm);
    TakenMeans(c, s.x[rs1 as int], s.x[rs2 as int]);
  }

  /** The integer in the four bytes from `o` on. */
  function FourAt(mem: seq<bv8>, o: nat): int
    requires o + 4 <= |mem|
  {
    Byte(mem[o]) + 0x100 * Byte(mem[o + 1]) + 0x1_0000 * Byte(mem[o + 2]) + 0x100_0000 * Byte(mem[o + 3])
  }

  /** Where the data memory holds the word at the aligned address `a`. */
  function Place(a: int): (o: nat)
    requires 0x1000_0000 <= a < 0x1001_0000 && a % 4 == 0
    ensures o == a - 0x1000_0000 && o + 4 <= 0x1_0000
  {
    a - 0x1000_0000
  }

  /** A load at `a`: the next input, the end of the run, or the four bytes from there on. */
  ghost predicate Loads(s: State, r: Result, rd: bv5, a: int)
    requires Valid(s)
  {
    if a == 0x2000_0000 then
      if s.input == [] then r == Beyond else r.Next? && Inputs(s, r.s, rd)
    else if a < 0x1000_0000 || a >= 0x1001_0000 then r == Fault
    else if a % 4 != 0 then r == Beyond
    else r.Next? && Moves(s, r.s, 4) && Writes(s, r.s, rd, FourAt(s.mem, Place(a)))
  }

  ghost predicate Inputs(s: State, t: State, rd: bv5)
    requires Valid(s) && s.input != []
  {
    Moves(s, t, 4) && t.input == s.input[1..] && Writes(s, t.(input := s.input), rd, Unsigned(s.input[0]))
  }

  lemma LoadCase(s: State, rd: bv5, e: bv32)
    requires Valid(s)
    ensures Loads(s, Load(s, rd, e), rd, Unsigned(e))
  {
    hide Unsigned, Plus, FourAt, Writes, Moves, Inputs, InData, Offset, WordAt, SetReg;
    DataMeans(e);
    AlignedMeans(e);
    if e == IO_WORD {
      if s.input != [] {
        InputMeans(s, rd);
      }
    } else if InData(e) && e & 3 == 0 {
      OffsetMeans(e);
      FourMeans(s.mem, Offset(e));
      AdvanceMeans(s, rd, WordAt(s.mem, Offset(e)));
    }
  }

  lemma FourMeans(mem: seq<bv8>, o: nat)
    requires o + 4 <= |mem|
    ensures Unsigned(WordAt(mem, o)) == FourAt(mem, o)
  {
    hide Unsigned, Byte, WordAt;
    WordMeans(mem, o);
  }

  lemma LoadMeans(s: State, rd: bv5, rs1: bv5, imm: bv32)
    requires Valid(s)
    ensures Loads(s, Exec(s, Lw(rd, rs1, imm)), rd, (Value(s, rs1) + Unsigned(imm)) % 0x1_0000_0000)
  {
    hide Unsigned, Plus, Loads, Load;
    PlusMeans(s.x[rs1 as int], imm);
    LoadCase(s, rd, Plus(s.x[rs1 as int], imm));
  }

  lemma InputMeans(s: State, rd: bv5)
    requires Valid(s) && s.input != []
    ensures Inputs(s, Advance(SetReg(s, rd, s.input[0]).(input := s.input[1..])), rd)
  {
    hide Unsigned, Plus;
    PlusMeans(s.pc, 4);
    Four();
  }

  /** A store at `a`: a printed word, the end of the run, or four bytes that hold the integer `v`. */
  ghost predicate Stores(s: State, r: Result, a: int, v: bv32)
    requires Valid(s)
  {
    if a == 0x2000_0000 then r.Next? && Outputs(s, r.s, v)
    else if a < 0x1000_0000 || a >= 0x1001_0000 then r == Fault
    else if a % 4 != 0 then r == Beyond
    else r.Next? && Puts(s, r.s, Place(a), v)
  }

  predicate Outputs(s: State, t: State, v: bv32) {
    t == s.(pc := t.pc, output := if Unsigned(v) < 127 then s.output + [v] else s.output) && Moves(s, t, 4)
  }

  ghost predicate Puts(s: State, t: State, o: nat, v: bv32)
    requires Valid(s) && o + 4 <= DATA_SIZE
  {
    t == s.(pc := t.pc, mem := t.mem) && Moves(s, t, 4) && Holding(s.mem, t.mem, o, v)
  }

  ghost predicate Holding(mem: seq<bv8>, after: seq<bv8>, o: nat, v: bv32)
    requires o + 4 <= |mem|
  {
    && |after| == |mem|
    && FourAt(after, o) == Unsigned(v)
    && forall k | 0 <= k < |mem| && !(o <= k < o + 4) :: after[k] == mem[k]
  }

  lemma StoreHolds(mem: seq<bv8>, o: nat, v: bv32)
    requires o + 4 <= |mem|
    ensures Holding(mem, WithWord(mem, o, v), o, v)
  {
    hide Unsigned, FourAt, WithWord, WordAt;
    StoredWord(mem, o, v);
    FourMeans(WithWord(mem, o, v), o);
  }

  lemma StoreCase(s: State, e: bv32, v: bv32)
    requires Valid(s)
    ensures Stores(s, Store(s, e, v), Unsigned(e), v)
  {
    hide Unsigned, Plus, InData, Offset, WithWord, Holding;
    DataMeans(e);
    AlignedMeans(e);
    PlusMeans(s.pc, 4);
    Four();
    if e == IO_WORD {
      SmallMeans(v);
    } else if InData(e) && e & 3 == 0 {
      OffsetMeans(e);
      StoreHolds(s.mem, Offset(e), v);
    }
  }

  lemma StoreMeans(s: State, rs1: bv5, rs2: bv5, imm: bv32)
    requires Valid(s)
    ensures var r := Exec(s, Sw(rs1, rs2, imm));
      Stores(s, r, (Value(s, rs1) + Unsigned(imm)) % 0x1_0000_0000, s.x[rs2 as int])
  {
    hide Unsigned, Plus, Stores, Store;
    PlusMeans(s.x[rs1 as int], imm);
    StoreCase(s, Plus(s.x[rs1 as int], imm), s.x[rs2 as int]);
  }

  lemma SmallMeans(v: bv32)
    ensures v < 0x7f <==> Unsigned(v) < 127
  {
    hide Unsigned;
    OrderValue(v, 0x7f);
    SmallValue();
  }

  lemma SmallValue()
    ensures Unsigned(0x7f) == 127
  {
  }

  // ---------------------------------------------------------------- encodings

  // The five-bit fields of a word.

  function Bits7(w: bv32): bv5 { ((w >> 7) & 0x1f) as bv5 }
  function Bits15(w: bv32): bv5 { ((w >> 15) & 0x1f) as bv5 }
  function Bits20(w: bv32): bv5 { ((w >> 20) & 0x1f) as bv5 }

  /** The match words of the register operations. */
  function OpMatch(op: AluOp): bv32 {
    match op
    case Add => 0x0000_0033
    case Sub => 0x4000_0033
    case Sll => 0x0000_1033
    case Slt => 0x0000_2033
    case Sltu => 0x0000_3033
    case Xor => 0x0000_4033
    case Srl => 0x0000_5033
    case Sra => 0x4000_5033
    case Or => 0x0000_6033
    case And => 0x0000_7033
  }

  lemma MaskedFields(w: bv32, k: bv32)
    requires w & 0xfe00_707f == k
    ensures Opcode(w) == Opcode(k) && Funct3(w) == Funct3(k) && Funct7(w) == Funct7(k)
  {
  }

  lemma MaskedLow(w: bv32, k: bv32)
    requires w & 0x707f == k
    ensures Opcode(w) == Opcode(k) && Funct3(w) == Funct3(k)
  {
  }

  lemma FieldsAre(w: bv32)
    ensures RdOf(w) == Bits7(w) && Rs1Of(w) == Bits15(w) && Rs2Of(w) == Bits20(w)
  {
  }

  lemma OpMatchFields(op: AluOp)
    ensures var k := OpMatch(op);
      Opcode(k) == 0x33 && AluOf(Funct3(k), Funct7(k)) == Some(op)
  {
  }

  /** A register operation is known by its opcode, funct3 and funct7. */
  lemma OpEncoding(w: bv32, op: AluOp)
    requires w & 0xfe00_707f == OpMatch(op)
    ensures Decode(w) == Op(op, Bits7(w), Bits15(w), Bits20(w))
  {
    hide Opcode, Funct3, Funct7, Bits7, Bits15, Bits20, RdOf, Rs1Of, Rs2Of, AluOf, AluImmOf, CondOf, OpMatch,
      ImmI, ImmS, ImmB, ImmJ, ImmU;
    MaskedFields(w, OpMatch(op));
    OpMatchFields(op);
    FieldsAre(w);
  }

  /** The match words of the immediate operations; there is no subtraction. */
  function OpImmMatch(op: AluOp): bv32
    requires op != Sub
  {
    match op
    case Add => 0x0000_0013
    case Sll => 0x0000_1013
    case Slt => 0x0000_2013
    case Sltu => 0x0000_3013
    case Xor => 0x0000_4013
    case Srl => 0x0000_5013
    case Sra => 0x4000_5013
    case Or => 0x0000_6013
    case And => 0x0000_7013
  }

  predicate Shifts(op: AluOp) { op == Sll || op == Srl || op == Sra }

  lemma OpImmMatchFields(op: AluOp, f7: bv32)
    requires op != Sub
    ensures var k := OpImmMatch(op);
      Opcode(k) == 0x13 && AluImmOf(Funct3(k), if Shifts(op) then Funct7(k) else f7) == Some(op)
  {
  }

  lemma OpImmEncoding(w: bv32, op: AluOp)
    requires op != Sub && !Shifts(op) && w & 0x0000_707f == OpImmMatch(op)
    ensures Decode(w) == OpImm(op, Bits7(w), Bits15(w), ImmI(w))
  {
    hide *;
    OpImmMatchFields(op, Funct7(w));
    MaskedLow(w, OpImmMatch(op));
    FieldsAre(w);
    Simulator.DecodeCases(w);
  }

  /** Shifts by an immediate carry funct7 too. */
  lemma ShiftImmEncoding(w: bv32, op: AluOp)
    requires Shifts(op) && op != Sub && w & 0xfe00_707f == OpImmMatch(op)
    ensures Decode(w) == OpImm(op, Bits7(w), Bits15(w), ImmI(w))
  {
    hide *;
    OpImmMatchFields(op, Funct7(w));
    MaskedFields(w, OpImmMatch(op));
    FieldsAre(w);
    Simulator.DecodeCases(w);
  }

  /** The match words of the branches. */
  function BranchMatch(c: Cond): bv32 {
    match c
    case Eq => 0x0000_0063
    case Ne => 0x0000_1063
    case Lt => 0x0000_4063
    case Ge => 0x0000_5063
  }

  lemma BranchMatchFields(c: Cond)
    ensures Opcode(BranchMatch(c)) == 0x63 && CondOf(Funct3(BranchMatch(c))) == Some(c)
  {
  }

  lemma BranchEncoding(w: bv32, c: Cond)
    requires w & 0x0000_707f == BranchMatch(c)
    ensures Decode(w) == Branch(c, Bits15(w), Bits20(w), ImmB(w))
  {
    hide Opcode, Funct3, Funct7, Bits7, Bits15, Bits20, RdOf, Rs1Of, Rs2Of, AluOf, AluImmOf, CondOf, BranchMatch,
      ImmI, ImmS, ImmB, ImmJ, ImmU;
    MaskedLow(w, BranchMatch(c));
    BranchMatchFields(c);
    FieldsAre(w);
  }

  lemma OtherMatchFields()
    ensures Opcode(0x2003) == 0x03 && Funct3(0x2003) == 2 && Opcode(0x2023) == 0x23 && Funct3(0x2023) == 2
    ensures Opcode(0x67) == 0x67 && Funct3(0x67) == 0
  {
  }

  lemma MaskedOpcode(w: bv32)
    ensures Opcode(w) == w & 0x7f
  {
  }

  lemma OtherEncodings(w: bv32)
    ensures w & 0x0000_707f == 0x2003 ==> Decode(w) == Lw(Bits7(w), Bits15(w), ImmI(w))
    ensures w & 0x0000_707f == 0x2023 ==> Decode(w) == Sw(Bits15(w), Bits20(w), ImmS(w))
    ensures w & 0x0000_707f == 0x0067 ==> Decode(w) == Jalr(Bits7(w), Bits15(w), ImmI(w))
    ensures w & 0x0000_007f == 0x006f ==> Decode(w) == Jal(Bits7(w), ImmJ(w))
    ensures w & 0x0000_007f == 0x0037 ==> Decode(w) == Lui(Bits7(w), ImmU(w))
    ensures w & 0x0000_007f == 0x0017 ==> Decode(w) == Auipc(Bits7(w), ImmU(w))
  {
    hide Opcode, Funct3, Funct7, Bits7, Bits15, Bits20, RdOf, Rs1Of, Rs2Of, AluOf, AluImmOf, CondOf,
      ImmI, ImmS, ImmB, ImmJ, ImmU;
    OtherMatchFields();
    MaskedOpcode(w);
    FieldsAre(w);
    if w & 0x0000_707f == 0x2003 || w & 0x0000_707f == 0x2023 || w & 0x0000_707f == 0x0067 {
      MaskedLow(w, w & 0x0000_707f);
    }
  }

  // ---------------------------------------------------------------- immediates

  /** The parts that the figure of immediates cuts a word into: bits 31, 30-25, 24-21, 20, 19-12, 11-8, 7, 6-0. */
  function Cut(s: bv1, a: bv6, b: bv4, c: bv1, d: bv8, e: bv4, f: bv1, g: bv7): bv32 {
    ((s as bv32) << 31) | ((a as bv32) << 25) | ((b as bv32) << 21) | ((c as bv32) << 20) | ((d as bv32) << 12)
    | ((e as bv32) << 8) | ((f as bv32) << 7) | (g as bv32)
  }

  function V1(x: bv1): int { x as int }
  function V4(x: bv4): int { x as int }
  function V6(x: bv6): int { x as int }
  function V7(x: bv7): int { x as int }
  function V8(x: bv8): int { x as int }

  lemma CutValue(s: bv1, a: bv6, b: bv4, c: bv1, d: bv8, e: bv4, f: bv1, g: bv7)
    ensures Unsigned(Cut(s, a, b, c, d, e, f, g)) == 0x8000_0000 * V1(s) + 0x200_0000 * V6(a) + 0x20_0000 * V4(b)
      + 0x10_0000 * V1(c) + 0x1000 * V8(d) + 0x100 * V4(e) + 0x80 * V1(f) + V7(g)
  {
  }

  lemma CutRange(s: bv1, a: bv6, b: bv4, d: bv8, g: bv7)
    ensures 0 <= V1(s) < 2 && 0 <= V6(a) < 64 && 0 <= V4(b) < 16 && 0 <= V8(d) < 256 && 0 <= V7(g) < 128
  {
  }

  lemma CutWord(w: bv32)
    ensures w == Cut(((w >> 31) & 1) as bv1, ((w >> 25) & 0x3f) as bv6, ((w >> 21) & 0xf) as bv4,
      ((w >> 20) & 1) as bv1, ((w >> 12) & 0xff) as bv8, ((w >> 8) & 0xf) as bv4, ((w >> 7) & 1) as bv1,
      (w & 0x7f) as bv7)
  {
  }

  // The immediates put together from the parts.

  function JoinI(s: bv1, a: bv6, b: bv4, c: bv1): bv32 {
    (if s == 1 then 0xffff_f800 else 0) | ((a as bv32) << 5) | ((b as bv32) << 1) | (c as bv32)
  }

  function JoinS(s: bv1, a: bv6, e: bv4, f: bv1): bv32 {
    (if s == 1 then 0xffff_f800 else 0) | ((a as bv32) << 5) | ((e as bv32) << 1) | (f as bv32)
  }

  function JoinB(s: bv1, a: bv6, e: bv4, f: bv1): bv32 {
    (if s == 1 then 0xffff_f000 else 0) | ((f as bv32) << 11) | ((a as bv32) << 5) | ((e as bv32) << 1)
  }

  function JoinJ(s: bv1, a: bv6, b: bv4, c: bv1, d: bv8): bv32 { JumpTo(if s == 1 then 0xfff else 0, a, b, c, d, 0) }

  function JumpTo(t: bv12, a: bv6, b: bv4, c: bv1, d: bv8, z: bv1): bv32 {
    ((t as bv32) << 20) | ((d as bv32) << 12) | ((c as bv32) << 11) | ((a as bv32) << 5) | ((b as bv32) << 1)
    | (z as bv32)
  }

  lemma CutI(s: bv1, a: bv6, b: bv4, c: bv1, d: bv8, e: bv4, f: bv1, g: bv7)
    ensures ImmI(Cut(s, a, b, c, d, e, f, g)) == JoinI(s, a, b, c)
  {
  }

  lemma CutS(s: bv1, a: bv6, b: bv4, c: bv1, d: bv8, e: bv4, f: bv1, g: bv7)
    ensures ImmS(Cut(s, a, b, c, d, e, f, g)) == JoinS(s, a, e, f)
  {
  }

  lemma CutB(s: bv1, a: bv6, b: bv4, c: bv1, d: bv8, e: bv4, f: bv1, g: bv7)
    ensures ImmB(Cut(s, a, b, c, d, e, f, g)) == JoinB(s, a, e, f)
  {
  }

  lemma CutU(s: bv1, a: bv6, b: bv4, c: bv1, d: bv8, e: bv4, f: bv1, g: bv7)
    ensures ImmU(Cut(s, a, b, c, d, e, f, g)) == Cut(s, a, b, c, d, 0, 0, 0)
  {
  }

  lemma CutJ(s: bv1, a: bv6, b: bv4, c: bv1, d: bv8, e: bv4, f: bv1, g: bv7)
    ensures ImmJ(Cut(s, a, b, c, d, e, f, g)) == JoinJ(s, a, b, c, d)
  {
  }

  function FromSign(s: bv1, p: int): int { if s == 1 then 0x1_0000_0000 - p else 0 }

  lemma JoinValues(s: bv1, a: bv6, b: bv4, c: bv1)
    ensures Unsigned(JoinI(s, a, b, c)) == FromSign(s, 0x800) + 32 * V6(a) + 2 * V4(b) + V1(c)
    ensures Unsigned(JoinS(s, a, b, c)) == FromSign(s, 0x800) + 32 * V6(a) + 2 * V4(b) + V1(c)
    ensures Unsigned(JoinB(s, a, b, c)) == FromSign(s, 0x1000) + 0x800 * V1(c) + 32 * V6(a) + 2 * V4(b)
  {
  }

  function V12(t: bv12): int { t as int }

  lemma JumpValue(t: bv12, a: bv6, b: bv4, c: bv1, d: bv8, z: bv1)
    ensures Unsigned(JumpTo(t, a, b, c, d, z)) == 0x10_0000 * V12(t) + 0x1000 * V8(d) + 0x800 * V1(c) + 32 * V6(a)
      + 2 * V4(b) + V1(z)
  {
  }

  lemma SmallParts(s: bv1)
    ensures V12(0xfff) == 0xfff && V12(0) == 0 && V4(0) == 0 && V1(0) == 0 && V7(0) == 0
    ensures V1(s) == if s == 1 then 1 else 0
  {
  }

  lemma JoinJump(s: bv1, a: bv6, b: bv4, c: bv1, d: bv8)
    ensures Unsigned(JoinJ(s, a, b, c, d))
      == FromSign(s, 0x10_0000) + 0x1000 * V8(d) + 0x800 * V1(c) + 32 * V6(a) + 2 * V4(b)
  {
    hide Unsigned, JumpTo, V1, V4, V6, V8, V12;
    JumpValue(if s == 1 then 0xfff else 0, a, b, c, d, 0);
    SmallParts(s);
  }

  /** The number in the `n`-valued field of a word that starts at the bit of value `p`. */
  function Part(w: bv32, p: int, n: int): int
    requires p > 0 && n > 0
  {
    Unsigned(w) / p % n
  }

  lemma PartOf(w: bv32, p: int, n: int, high: int, x: int, low: int)
    requires p > 0 && 0 <= x < n && 0 <= low < p && Unsigned(w) == p * (n * high + x) + low
    ensures Part(w, p, n) == x
  {
    hide Unsigned;
    Quotient(Unsigned(w), p, n * high + x, low);
    Remainder(n * high + x, n, high, x);
  }

  lemma Remainder(u: int, n: int, q: int, x: int)
    requires 0 <= x < n && u == n * q + x
    ensures u % n == x
  {
    Quotient(u, n, q, x);
  }

  lemma CutParts(s: bv1, a: bv6, b: bv4, c: bv1, d: bv8, e: bv4, f: bv1, g: bv7)
    ensures var w := Cut(s, a, b, c, d, e, f, g);
      && Part(w, 0x8000_0000, 2) == V1(s) && Part(w, 0x200_0000, 64) == V6(a) && Part(w, 0x20_0000, 16) == V4(b)
      && Part(w, 0x10_0000, 2) == V1(c) && Part(w, 0x1000, 256) == V8(d) && Part(w, 0x100, 16) == V4(e)
      && Part(w, 0x80, 2) == V1(f)
  {
    hide *;
    var w := Cut(s, a, b, c, d, e, f, g);
    CutValue(s, a, b, c, d, e, f, g);
    CutRange(s, a, b, d, g);
    CutRange(c, a, e, d, g);
    CutRange(f, a, b, d, g);
    var lf := V7(g);
    var le := 0x80 * V1(f) + lf;
    var ld := 0x100 * V4(e) + le;
    var lc := 0x1000 * V8(d) + ld;
    var lb := 0x10_0000 * V1(c) + lc;
    var la := 0x20_0000 * V4(b) + lb;
    var ls := 0x200_0000 * V6(a) + la;
    PartOf(w, 0x8000_0000, 2, 0, V1(s), ls);
    PartOf(w, 0x200_0000, 64, V1(s), V6(a), la);
    var ha := 64 * V1(s) + V6(a);
    PartOf(w, 0x20_0000, 16, ha, V4(b), lb);
    var hb := 16 * ha + V4(b);
    PartOf(w, 0x10_0000, 2, hb, V1(c), lc);
    var hc := 2 * hb + V1(c);
    PartOf(w, 0x1000, 256, hc, V8(d), ld);
    var hd := 256 * hc + V8(d);
    PartOf(w, 0x100, 16, hd, V4(e), le);
    PartOf(w, 0x80, 2, 16 * hd + V4(e), V1(f), lf);
  }

  lemma TwosComplement(x: bv32, s: bv1, p: int, m: int)
    requires Unsigned(x) == FromSign(s, p) + m && 0 <= m < p <= 0x8000_0000
    ensures Signed(x) == m - p * V1(s)
  {
    hide Unsigned, V1;
    SmallParts(s);
  }

  lemma CutSigned(s: bv1, a: bv6, b: bv4, c: bv1, d: bv8)
    ensures Signed(JoinI(s, a, b, c)) == 32 * V6(a) + 2 * V4(b) + V1(c) - 0x800 * V1(s)
    ensures Signed(JoinS(s, a, b, c)) == 32 * V6(a) + 2 * V4(b) + V1(c) - 0x800 * V1(s)
    ensures Signed(JoinB(s, a, b, c)) == 0x800 * V1(c) + 32 * V6(a) + 2 * V4(b) - 0x1000 * V1(s)
    ensures Signed(JoinJ(s, a, b, c, d))
      == 0x1000 * V8(d) + 0x800 * V1(c) + 32 * V6(a) + 2 * V4(b) - 0x10_0000 * V1(s)
  {
    hide *;
    JoinValues(s, a, b, c);
    JoinJump(s, a, b, c, d);
    CutRange(c, a, b, d, 0);
    var m := 32 * V6(a) + 2 * V4(b);
    TwosComplement(JoinI(s, a, b, c), s, 0x800, m + V1(c));
    TwosComplement(JoinS(s, a, b, c), s, 0x800, m + V1(c));
    TwosComplement(JoinB(s, a, b, c), s, 0x1000, 0x800 * V1(c) + m);
    TwosComplement(JoinJ(s, a, b, c, d), s, 0x10_0000, 0x1000 * V8(d) + 0x800 * V1(c) + m);
  }

  lemma CutUpper(s: bv1, a: bv6, b: bv4, c: bv1, d: bv8, e: bv4, f: bv1, g: bv7)
    ensures var w := Cut(s, a, b, c, d, e, f, g);
      Unsigned(ImmU(w)) == Unsigned(w) - Unsigned(w) % 0x1000
  {
    hide *;
    CutU(s, a, b, c, d, e, f, g);
    CutValue(s, a, b, c, d, e, f, g);
    CutValue(s, a, b, c, d, 0, 0, 0);
    SmallParts(0);
    CutRange(f, a, e, d, g);
    var h := 0x8_0000 * V1(s) + 0x2000 * V6(a) + 0x200 * V4(b) + 0x100 * V1(c) + V8(d);
    Remainder(Unsigned(Cut(s, a, b, c, d, e, f, g)), 0x1000, h, 0x100 * V4(e) + 0x80 * V1(f) + V7(g));
  }

  /** The immediates: where their bits lie in the word, and what they are worth. */
  lemma ImmediateMeans(w: bv32)
    ensures var s, a, b, c := Part(w, 0x8000_0000, 2), Part(w, 0x200_0000, 64), Part(w, 0x20_0000, 16),
          Part(w, 0x10_0000, 2);
      var d, e, f := Part(w, 0x1000, 256), Part(w, 0x100, 16), Part(w, 0x80, 2);
      && Signed(ImmI(w)) == 32 * a + 2 * b + c - 0x800 * s
      && Signed(ImmS(w)) == 32 * a + 2 * e + f - 0x800 * s
      && Signed(ImmB(w)) == 0x800 * f + 32 * a + 2 * e - 0x1000 * s
      && Unsigned(ImmU(w)) == Unsigned(w) - Unsigned(w) % 0x1000
      && Signed(ImmJ(w)) == 0x1000 * d + 0x800 * c + 32 * a + 2 * b - 0x10_0000 * s
  {
    hide *;
    var s, a, b := ((w >> 31) & 1) as bv1, ((w >> 25) & 0x3f) as bv6, ((w >> 21) & 0xf) as bv4;
    var c, d, e := ((w >> 20) & 1) as bv1, ((w >> 12) & 0xff) as bv8, ((w >> 8) & 0xf) as bv4;
    var f, g := ((w >> 7) & 1) as bv1, (w & 0x7f) as bv7;
    CutWord(w);
    CutParts(s, a, b, c, d, e, f, g);
    CutI(s, a, b, c, d, e, f, g);
    CutS(s, a, b, c, d, e, f, g);
    CutB(s, a, b, c, d, e, f, g);
    CutJ(s, a, b, c, d, e, f, g);
    CutSigned(s, a, b, c, d);
    CutSigned(s, a, e, f, d);
    CutUpper(s, a, b, c, d, e, f, g);
  }
}
