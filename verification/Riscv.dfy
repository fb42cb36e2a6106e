/**
 RISC-V instruction words: the encoders of fesvr/dtm.cc, and the fields and immediates as the ISA manual
 places them (RISC-V Unprivileged ISA, sections 2.2 and 2.3).
 */
module Riscv {

  // ---------------------------------------------------------------- encoders

  // `RV_X(x, s, n)` with its mask written out: `n` bits from bit `s` on.

  function EncodeI(x: bv32): bv32 { (x & 0xfff) << 20 }

  function EncodeS(x: bv32): bv32 { ((x & 0x1f) << 7) | (((x >> 5) & 0x7f) << 25) }

  function EncodeSB(x: bv32): bv32 {
    (((x >> 1) & 0xf) << 8) | (((x >> 5) & 0x3f) << 25) | (((x >> 11) & 1) << 7) | (((x >> 12) & 1) << 31)
  }

  function EncodeU(x: bv32): bv32 { ((x >> 12) & 0xf_ffff) << 12 }

  function EncodeUJ(x: bv32): bv32 {
    (((x >> 1) & 0x3ff) << 21) | (((x >> 11) & 1) << 20) | (((x >> 12) & 0xff) << 12) | (((x >> 20) & 1) << 31)
  }

  const X0: bv32 := 0
  const S0: bv32 := 8
  const S1: bv32 := 9
  const EBREAK: bv32 := 0x0010_0073

  function LoadWord(xlen: nat, dst: bv32, base: bv32, imm: bv32): bv32 {
    (if xlen == 64 then 0x3003 else 0x2003) | (dst << 7) | (base << 15) | EncodeI(imm)
  }

  function StoreWord(xlen: nat, src: bv32, base: bv32, imm: bv32): bv32 {
    (if xlen == 64 then 0x3023 else 0x2023) | (src << 20) | (base << 15) | EncodeS(imm)
  }

  function AddiWord(dst: bv32, src: bv32, imm: bv32): bv32 { 0x13 | (dst << 7) | (src << 15) | EncodeI(imm) }

  function BneWord(r1: bv32, r2: bv32, there: bv32, here: bv32): bv32 {
    0x1063 | (r1 << 15) | (r2 << 20) | EncodeSB(there - here)
  }

  // ---------------------------------------------------------------- fields

  function Opcode(w: bv32): bv32 { w & 0x7f }
  function Rd(w: bv32): bv32 { (w >> 7) & 0x1f }
  function Funct3(w: bv32): bv32 { (w >> 12) & 7 }
  function Rs1(w: bv32): bv32 { (w >> 15) & 0x1f }
  function Rs2(w: bv32): bv32 { (w >> 20) & 0x1f }
  function Funct7(w: bv32): bv32 { w >> 25 }

  predicate Negative(w: bv32) { w & 0x8000_0000 != 0 }

  function ImmI(w: bv32): bv32 { (if Negative(w) then 0xffff_f800 else 0) | ((w >> 20) & 0x7ff) }
  function ImmS(w: bv32): bv32 { (if Negative(w) then 0xffff_f800 else 0) | ((w >> 20) & 0x7e0) | ((w >> 7) & 0x1f) }
  function ImmB(w: bv32): bv32 {
    (if Negative(w) then 0xffff_f000 else 0) | ((w << 4) & 0x800) | ((w >> 20) & 0x7e0) | ((w >> 7) & 0x1e)
  }
  function ImmU(w: bv32): bv32 { w & 0xffff_f000 }
  function ImmJ(w: bv32): bv32 {
    (if Negative(w) then 0xfff0_0000 else 0) | (w & 0xff000) | ((w >> 9) & 0x800) | ((w >> 20) & 0x7fe)
  }

  /** The values of a signed field of 12, of a signed even field of 13, and of a signed even field of 21 bits. */
  predicate Signed12(x: bv32) { x & 0xffff_f800 == 0 || x & 0xffff_f800 == 0xffff_f800 }
  predicate Even13(x: bv32) { x & 1 == 0 && (x & 0xffff_f000 == 0 || x & 0xffff_f000 == 0xffff_f000) }
  predicate Even21(x: bv32) { x & 1 == 0 && (x & 0xfff0_0000 == 0 || x & 0xfff0_0000 == 0xfff0_0000) }

  // Every immediate the host encodes is the one the hart decodes, whatever the other fields hold.

  lemma ImmediateI(x: bv32, rest: bv32)
    requires Signed12(x) && rest & 0xfff0_0000 == 0
    ensures ImmI(EncodeI(x) | rest) == x
  {
  }

  lemma ImmediateS(x: bv32, rest: bv32)
    requires Signed12(x) && rest & 0xfe00_0f80 == 0
    ensures ImmS(EncodeS(x) | rest) == x
  {
  }

  lemma ImmediateSB(x: bv32, rest: bv32)
    requires Even13(x) && rest & 0xfe00_0f80 == 0
    ensures ImmB(EncodeSB(x) | rest) == x
  {
  }

  lemma ImmediateU(x: bv32, rest: bv32)
    requires x & 0xfff == 0 && rest & 0xffff_f000 == 0
    ensures ImmU(EncodeU(x) | rest) == x
  {
  }

  lemma ImmediateUJ(x: bv32, rest: bv32)
    requires Even21(x) && rest & 0xffff_f000 == 0
    ensures ImmJ(EncodeUJ(x) | rest) == x
  {
  }

  // ---------------------------------------------------------------- whole instructions

  lemma LoadFields(xlen: nat, dst: bv32, base: bv32, imm: bv32)
    requires (xlen == 32 || xlen == 64) && dst < 32 && base < 32 && Signed12(imm)
    ensures var w := LoadWord(xlen, dst, base, imm);
      Opcode(w) == 0x03 && Funct3(w) == (if xlen == 64 then 3 else 2) && Rd(w) == dst && Rs1(w) == base
        && ImmI(w) == imm
  {
  }

  lemma StoreFields(xlen: nat, src: bv32, base: bv32, imm: bv32)
    requires (xlen == 32 || xlen == 64) && src < 32 && base < 32 && Signed12(imm)
    ensures var w := StoreWord(xlen, src, base, imm);
      Opcode(w) == 0x23 && Funct3(w) == (if xlen == 64 then 3 else 2) && Rs2(w) == src && Rs1(w) == base
        && ImmS(w) == imm
  {
  }

  lemma AddiFields(dst: bv32, src: bv32, imm: bv32)
    requires dst < 32 && src < 32 && Signed12(imm)
    ensures var w := AddiWord(dst, src, imm);
      Opcode(w) == 0x13 && Funct3(w) == 0 && Rd(w) == dst && Rs1(w) == src && ImmI(w) == imm
  {
  }

  lemma BneFields(r1: bv32, r2: bv32, there: bv32, here: bv32)
    requires r1 < 32 && r2 < 32 && Even13(there - here)
    ensures var w := BneWord(r1, r2, there, here);
      Opcode(w) == 0x63 && Funct3(w) == 1 && Rs1(w) == r1 && Rs2(w) == r2 && ImmB(w) == there - here
  {
  }
}
