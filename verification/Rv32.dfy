/**
 The part of RV32I that the simulator supports, read from the ISA manual (RISC-V Unprivileged ISA, sections
 2.3 to 2.6): decoding into instructions, and their effect on a hart with a data memory and one I/O word.
 */
module Rv32 {
  import opened Bytes
  import opened Riscv

  datatype AluOp = Add | Sub | Sll | Slt | Sltu | Xor | Srl | Sra | Or | And
  datatype Cond = Eq | Ne | Lt | Ge

  datatype Instr =
    | Lui(rd: bv5, imm: bv32)
    | Auipc(rd: bv5, imm: bv32)
    | Jal(rd: bv5, imm: bv32)
    | Jalr(rd: bv5, rs1: bv5, imm: bv32)
    | Branch(cond: Cond, rs1: bv5, rs2: bv5, imm: bv32)
    | Lw(rd: bv5, rs1: bv5, imm: bv32)
    | Sw(rs1: bv5, rs2: bv5, imm: bv32)
    | OpImm(op: AluOp, rd: bv5, rs1: bv5, imm: bv32)
    | Op(op: AluOp, rd: bv5, rs1: bv5, rs2: bv5)
    | Unsupported

  /** The operation that funct3 and bit 30 select; the other bits of funct7 must be zero. */
  function AluOf(f3: bv32, f7: bv32): Option<AluOp> {
    if f7 == 0 then
      Some(if f3 == 0 then Add else if f3 == 1 then Sll else if f3 == 2 then Slt else if f3 == 3 then Sltu
           else if f3 == 4 then Xor else if f3 == 5 then Srl else if f3 == 6 then Or else And)
    else if f7 == 0x20 && f3 == 0 then Some(Sub)
    else if f7 == 0x20 && f3 == 5 then Some(Sra)
    else None
  }

  /** Immediate operations: shifts carry funct7 and a five-bit amount, the others a full immediate. */
  function AluImmOf(f3: bv32, f7: bv32): Option<AluOp> {
    if f3 == 1 || f3 == 5 then AluOf(f3, f7) else AluOf(f3, 0)
  }

  // The register fields as register numbers.

  function RdOf(w: bv32): bv5 { Rd(w) as bv5 }
  function Rs1Of(w: bv32): bv5 { Rs1(w) as bv5 }
  function Rs2Of(w: bv32): bv5 { Rs2(w) as bv5 }

  function CondOf(f3: bv32): Option<Cond> {
    if f3 == 0 then Some(Eq) else if f3 == 1 then Some(Ne) else if f3 == 4 then Some(Lt) 
    else if f3 == 5 then Some(Ge) else None
  }

  function Decode(w: bv32): Instr {
    var rd, rs1, rs2, f3, f7 := RdOf(w), Rs1Of(w), Rs2Of(w), Funct3(w), Funct7(w);
    var o := Opcode(w);
    if o == 0x37 then Lui(rd, ImmU(w))
    else if o == 0x17 then Auipc(rd, ImmU(w))
    else if o == 0x6f then Jal(rd, ImmJ(w))
    else if o == 0x67 && f3 == 0 then Jalr(rd, rs1, ImmI(w))
    else if o == 0x63 && CondOf(f3).Some? then Branch(CondOf(f3).value, rs1, rs2, ImmB(w))
    else if o == 0x03 && f3 == 2 then Lw(rd, rs1, ImmI(w))
    else if o == 0x23 && f3 == 2 then Sw(rs1, rs2, ImmS(w))
    else if o == 0x13 && AluImmOf(f3, f7).Some? then OpImm(AluImmOf(f3, f7).value, rd, rs1, ImmI(w))
    else if o == 0x33 && AluOf(f3, f7).Some? then Op(AluOf(f3, f7).value, rd, rs1, rs2)
    else Unsupported
  }

  // ---------------------------------------------------------------- execution

  /** Signed order: the unsigned one with the sign bits flipped. */
  predicate LessSigned(a: bv32, b: bv32) { (a ^ 0x8000_0000) < (b ^ 0x8000_0000) }

  // Shifts use the low five bits of the amount; the signed one brings copies of the sign in from the left.

  function ShiftLeft(a: bv32, b: bv32): bv32 { a << (b & 0x1f) }
  function ShiftRight(a: bv32, b: bv32): bv32 { a >> (b & 0x1f) }
  function ShiftRightSigned(a: bv32, b: bv32): bv32 {
    ShiftRight(a, b) | (if Negative(a) then !ShiftRight(0xffff_ffff, b) else 0)
  }

  function Alu(op: AluOp, a: bv32, b: bv32): bv32 {
    match op
    case Add => a + b
    case Sub => a - b
    case Sll => ShiftLeft(a, b)
    case Slt => if LessSigned(a, b) then 1 else 0
    case Sltu => if a < b then 1 else 0
    case Xor => a ^ b
    case Srl => ShiftRight(a, b)
    case Sra => ShiftRightSigned(a, b)
    case Or => a | b
    case And => a & b
  }

  predicate Taken(c: Cond, a: bv32, b: bv32) {
    match c
    case Eq => a == b
    case Ne => a != b
    case Lt => LessSigned(a, b)
    case Ge => !LessSigned(a, b)
  }

  const DATA_BASE: bv32 := 0x1000_0000
  const DATA_SIZE := 65536
  const IO_WORD: bv32 := 0x2000_0000

  datatype State = State(pc: bv32, x: seq<bv32>, mem: seq<bv8>, input: seq<bv32>, output: seq<bv32>)

  predicate Valid(s: State) { |s.x| == 32 && s.x[0] == 0 && |s.mem| == DATA_SIZE }

  function Reg(s: State, r: bv5): bv32
    requires Valid(s)
  {
    s.x[r as int]
  }

  /** Register 0 stays zero. */
  function SetReg(s: State, r: bv5, v: bv32): (t: State)
    requires Valid(s)
    ensures Valid(t)
  {
    if r == 0 then s else s.(x := s.x[r as int := v])
  }

  function WordAt(mem: seq<bv8>, a: nat): bv32
    requires a + 4 <= |mem|
  {
    (mem[a] as bv32) | ((mem[a + 1] as bv32) << 8) | ((mem[a + 2] as bv32) << 16) | ((mem[a + 3] as bv32) << 24)
  }

  function ByteOf(v: bv32, k: nat): bv8
    requires k < 4
  {
    ((if k == 0 then v else if k == 1 then v >> 8 else if k == 2 then v >> 16 else v >> 24) & 0xff) as bv8
  }

  function WithWord(mem: seq<bv8>, a: nat, v: bv32): (r: seq<bv8>)
    requires a + 4 <= |mem|
    ensures |r| == |mem|
  {
    mem[a := ByteOf(v, 0)][a + 1 := ByteOf(v, 1)][a + 2 := ByteOf(v, 2)][a + 3 := ByteOf(v, 3)]
  }

  predicate InData(a: bv32) { a - DATA_BASE < 0x1_0000 }

  /** The offset of an aligned address in the data memory, counted in words first. */
  function Offset(a: bv32): (o: nat)
    requires InData(a)
    ensures o + 4 <= DATA_SIZE
  {
    4 * ((((a - DATA_BASE) >> 2) as bv14) as nat)
  }

  /** A successor state, a fault at an address outside data memory, or nothing the reference covers. */
  datatype Result = Next(s: State) | Fault | Beyond

  /** Addition modulo 2^32. */
  function Plus(a: bv32, b: bv32): bv32 { a + b }

  /** The word that an address lies in. */
  function WordIndex(a: bv32): nat { (a >> 2) as nat }

  function EvenAddress(a: bv32): bv32 { a & 0xffff_fffe }

  function Advance(s: State): State { s.(pc := Plus(s.pc, 4)) }

  /** Data accesses must be aligned; input must be there when it is read. */
  function Load(s: State, rd: bv5, a: bv32): (r: Result)
    requires Valid(s)
    ensures r.Next? ==> Valid(r.s)
  {
    if a == IO_WORD then
      if s.input == [] then Beyond else Next(Advance(SetReg(s, rd, s.input[0]).(input := s.input[1..])))
    else if !InData(a) then Fault
    else if a & 3 != 0 then Beyond
    else Next(Advance(SetReg(s, rd, WordAt(s.mem, Offset(a)))))
  }

  /** Small words stored to the I/O word are printed. */
  function Store(s: State, a: bv32, v: bv32): (r: Result)
    requires Valid(s)
    ensures r.Next? ==> Valid(r.s)
  {
    if a == IO_WORD then Next(Advance(if v < 0x7f then s.(output := s.output + [v]) else s))
    else if !InData(a) then Fault
    else if a & 3 != 0 then Beyond
    else Next(Advance(s.(mem := WithWord(s.mem, Offset(a), v))))
  }

  /** The effect of one instruction. */
  function Exec(s: State, i: Instr): (r: Result)
    requires Valid(s)
    ensures r.Next? ==> Valid(r.s)
  {
    match i
    case Lui(rd, imm) => Next(Advance(SetReg(s, rd, imm)))
    case Auipc(rd, imm) => Next(Advance(SetReg(s, rd, Plus(s.pc, imm))))
    case Jal(rd, imm) => Next(SetReg(s, rd, Plus(s.pc, 4)).(pc := Plus(s.pc, imm)))
    case Jalr(rd, rs1, imm) => Next(SetReg(s, rd, Plus(s.pc, 4)).(pc := EvenAddress(Plus(Reg(s, rs1), imm))))
    case Branch(c, rs1, rs2, imm) =>
      Next(if Taken(c, Reg(s, rs1), Reg(s, rs2)) then s.(pc := Plus(s.pc, imm)) else Advance(s))
    case Lw(rd, rs1, imm) => Load(s, rd, Plus(Reg(s, rs1), imm))
    case Sw(rs1, rs2, imm) => Store(s, Plus(Reg(s, rs1), imm), Reg(s, rs2))
    case OpImm(op, rd, rs1, imm) => Next(Advance(SetReg(s, rd, Alu(op, Reg(s, rs1), imm))))
    case Op(op, rd, rs1, rs2) => Next(Advance(SetReg(s, rd, Alu(op, Reg(s, rs1), Reg(s, rs2)))))
    case Unsupported => Beyond
  }

  /** At most `n` instructions of a program: it ends at the program's end and at a fault. */
  function Run(s: State, program: seq<bv32>, n: nat): (r: Result)
    requires Valid(s)
    ensures r.Next? ==> Valid(r.s)
    decreases n
  {
    var i := WordIndex(s.pc);
    if n == 0 || i >= |program| then Next(s)
    else
      match Exec(s, Decode(program[i]))
      case Next(t) => Run(t, program, n - 1)
      case r => r
  }
}
