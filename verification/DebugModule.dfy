/** A hart under a debug module as a step machine (RISC-V External Debug Support 0.13, sections 3.6 and 3.7). */
module DebugModules {
  import opened Bytes
  import opened LittleEndian
  import opened Riscv

  /** What the hart does with an instruction word; everything a chunk transfer does not use is `Other`. */
  datatype Instr =
    | Load(rd: nat, rs1: nat, imm: int)
    | Store(rs2: nat, rs1: nat, imm: int)
    | Addi(rd: nat, rs1: nat, imm: int)
    | Bne(rs1: nat, rs2: nat, offset: int)
    | Ebreak
    | Other

  /** A sign-extended immediate as an integer. */
  function Signed(x: bv32): int { if Negative(x) then x as int - 0x1_0000_0000 else x as int }

  function Decode(w: bv32, xlen: nat): Instr {
    var full := Funct3(w) == if xlen == 64 then 3 else 2;
    if Opcode(w) == 0x03 && full then Load(Rd(w) as nat, Rs1(w) as nat, Signed(ImmI(w)))
    else if Opcode(w) == 0x23 && full then Store(Rs2(w) as nat, Rs1(w) as nat, Signed(ImmS(w)))
    else if Opcode(w) == 0x13 && Funct3(w) == 0 then Addi(Rd(w) as nat, Rs1(w) as nat, Signed(ImmI(w)))
    else if Opcode(w) == 0x63 && Funct3(w) == 1 then Bne(Rs1(w) as nat, Rs2(w) as nat, Signed(ImmB(w)))
    else if w == EBREAK then Ebreak
    else Other
  }

  // Abstract commands: the fields of the command word (section 3.6.1.1).

  const TRANSFER: bv32 := 0x2_0000
  const WRITE: bv32 := 0x1_0000
  const POSTEXEC: bv32 := 0x4_0000

  function SizeField(xlen: nat): bv32 { (if xlen == 128 then 4 else if xlen == 64 then 3 else 2) << 20 }
  function RegnoField(x: bv32): bv32 { 0x1000 | x }

  function Command(flags: bv32, xlen: nat, regno: bv32): bv32 { flags | SizeField(xlen) | RegnoField(regno) }

  /** Commands the host builds (read S0; write S1 and run the program), with the fields where section 3.6.1.1 says. */
  lemma KnownCommands()
    ensures Command(TRANSFER, 32, S0) == 0x0022_1008 && Command(TRANSFER, 64, S0) == 0x0032_1008
    ensures Command(TRANSFER | WRITE | POSTEXEC, 32, S1) == 0x0027_1009
  {
  }

  const NOT_SUPPORTED := 2
  const EXCEPTION := 3
  const HALT_RESUME := 4

  /** `pc` is the index of the program buffer word to execute next while the module is busy. */
  datatype Dm = Dm(x: seq<nat>, mem: seq<byte>, prog: seq<bv32>, data: seq<u32>, auto: bool, command: bv32,
                   cmderr: nat, halted: bool, pc: Option<nat>)

  function Modulus(xlen: nat): nat { if xlen == 64 then 0x1_0000_0000_0000_0000 else 0x1_0000_0000 }

  /** Data words that hold one register. */
  function Cells(xlen: nat): nat { if xlen == 64 then 2 else 1 }

  ghost predicate Valid(s: Dm, xlen: nat) {
    && (xlen == 32 || xlen == 64) && |s.x| == 32 && s.x[0] == 0 && (forall r :: 0 <= r < 32 ==> s.x[r] < Modulus(xlen))
    && |s.data| >= Cells(xlen) && |s.mem| <= Modulus(xlen)
  }

  function SetReg(x: seq<nat>, r: nat, v: nat): seq<nat>
    requires r < |x|
  {
    if r == 0 then x else x[r := v]
  }

  /** The value in the data words. */
  function DataValue(data: seq<u32>, xlen: nat): nat
    requires |data| >= Cells(xlen)
  {
    if xlen == 64 then data[0] as int + 0x1_0000_0000 * data[1] as int else data[0]
  }

  /** The data words holding a value. */
  function WithValue(data: seq<u32>, xlen: nat, v: nat): seq<u32>
    requires |data| >= Cells(xlen) && v < Modulus(xlen)
  {
    if xlen == 64 then data[0 := v % 0x1_0000_0000][1 := v / 0x1_0000_0000] else data[0 := v]
  }

  function Stopped(s: Dm, err: nat): Dm { s.(pc := None, cmderr := err) }

  function AddrOf(s: Dm, xlen: nat, rs1: nat, imm: int): nat
    requires rs1 < |s.x|
  {
    (s.x[rs1] + imm) % Modulus(xlen)
  }

  /** One instruction from the program buffer. */
  function Step(s: Dm, xlen: nat): Dm
    requires |s.x| == 32 && 8 <= xlen
  {
    match s.pc
    case None => s
    case Some(i) =>
      if i >= |s.prog| then Stopped(s, EXCEPTION)
      else
        match Decode(s.prog[i], xlen)
        case Load(rd, rs1, imm) =>
          if rd >= 32 || rs1 >= 32 then Stopped(s, EXCEPTION)
          else
            var a := AddrOf(s, xlen, rs1, imm);
            if a % (xlen / 8) == 0 && a + xlen / 8 <= |s.mem| then
              s.(x := SetReg(s.x, rd, Le(s.mem[a..a + xlen / 8])), pc := Some(i + 1))
            else Stopped(s, EXCEPTION)
        case Store(rs2, rs1, imm) =>
          if rs2 >= 32 || rs1 >= 32 then Stopped(s, EXCEPTION)
          else
            var a := AddrOf(s, xlen, rs1, imm);
            if a % (xlen / 8) == 0 && a + xlen / 8 <= |s.mem| then
              s.(mem := Put(s.mem, a, LeBytes(s.x[rs2], xlen / 8)), pc := Some(i + 1))
            else Stopped(s, EXCEPTION)
        case Addi(rd, rs1, imm) =>
          if rd >= 32 || rs1 >= 32 then Stopped(s, EXCEPTION)
          else s.(x := SetReg(s.x, rd, AddrOf(s, xlen, rs1, imm)), pc := Some(i + 1))
        case Bne(rs1, rs2, offset) =>
          if rs1 >= 32 || rs2 >= 32 then Stopped(s, EXCEPTION)
          else if s.x[rs1] == s.x[rs2] then s.(pc := Some(i + 1))
          else if 4 * i + offset >= 0 && offset % 4 == 0 then s.(pc := Some(i + offset / 4))
          else Stopped(s, EXCEPTION)
        case Ebreak => s.(pc := None)
        case Other => Stopped(s, EXCEPTION)
  }

  /** At most `n` instructions: the hart stops when the program buffer ends. */
  function RunN(s: Dm, xlen: nat, n: nat): (r: Dm)
    requires |s.x| == 32 && 8 <= xlen
    ensures |r.x| == 32
    decreases n
  {
    if n == 0 || s.pc.None? then s
    else
      StepLength(s, xlen);
      RunN(Step(s, xlen), xlen, n - 1)
  }

  lemma StepLength(s: Dm, xlen: nat)
    requires |s.x| == 32 && 8 <= xlen
    ensures |Step(s, xlen).x| == 32
  {
    hide Decode, Le, LeBytes;
  }

  lemma {:induction false} RunAdd(s: Dm, xlen: nat, m: nat, n: nat)
    requires |s.x| == 32 && 8 <= xlen
    ensures RunN(s, xlen, m + n) == RunN(RunN(s, xlen, m), xlen, n)
    decreases m
  {
    hide Step;
    if m > 0 && s.pc.Some? {
      StepLength(s, xlen);
      RunAdd(Step(s, xlen), xlen, m - 1, n);
    }
  }

  /** Starting an abstract command: the register transfer, then the program buffer if asked for. */
  function Exec(s: Dm, xlen: nat): Dm
    requires |s.x| == 32 && |s.data| >= Cells(xlen) && (forall r :: 0 <= r < 32 ==> s.x[r] < Modulus(xlen))
  {
    var c := s.command;
    var regno := (c & 0xffff) as nat;
    if s.cmderr != 0 then s
    else if !s.halted then s.(cmderr := HALT_RESUME)
    else if c & 0xff70_0000 != SizeField(xlen) || !(0x1000 <= regno < 0x1020) then s.(cmderr := NOT_SUPPORTED)
    else
      var r := regno - 0x1000;
      var t :=
        if c & TRANSFER == 0 then s
        else if c & WRITE != 0 then s.(x := SetReg(s.x, r, DataValue(s.data, xlen)))
        else s.(data := WithValue(s.data, xlen, s.x[r]));
      if c & POSTEXEC != 0 then t.(pc := Some(0)) else t
  }

  /** A stopped hart stays as it is, so any two counts that stop it lead to the same state. */
  lemma RunStable(s: Dm, xlen: nat, m: nat, n: nat)
    requires |s.x| == 32 && 8 <= xlen && RunN(s, xlen, m).pc.None? && m <= n
    ensures RunN(s, xlen, n) == RunN(s, xlen, m)
  {
    hide Step;
    RunAdd(s, xlen, m, n - m);
  }

  // ---------------------------------------------------------------- the three programs of the host

  /** The words a program buffer starts with. */
  predicate Loaded(s: Dm, p: seq<bv32>) { |p| <= |s.prog| && s.prog[..|p|] == p }

  function ReadProgram(xlen: nat): seq<bv32> {
    [LoadWord(xlen, S1, S0, 0), AddiWord(S0, S0, if xlen == 64 then 8 else 4), EBREAK]
  }

  function WriteProgram(xlen: nat): seq<bv32> {
    [StoreWord(xlen, S1, S0, 0), AddiWord(S0, S0, if xlen == 64 then 8 else 4), EBREAK]
  }

  function ClearProgram(xlen: nat): seq<bv32> {
    [StoreWord(xlen, X0, S0, 0), AddiWord(S0, S0, if xlen == 64 then 8 else 4), BneWord(S0, S1, 0, 8), EBREAK]
  }

  lemma ProgramsDecode(xlen: nat)
    requires xlen == 32 || xlen == 64
    ensures var w := xlen / 8;
      && Decode(LoadWord(xlen, S1, S0, 0), xlen) == Load(9, 8, 0)
      && Decode(StoreWord(xlen, S1, S0, 0), xlen) == Store(9, 8, 0)
      && Decode(StoreWord(xlen, X0, S0, 0), xlen) == Store(0, 8, 0)
      && Decode(AddiWord(S0, S0, if xlen == 64 then 8 else 4), xlen) == Addi(8, 8, w)
      && Decode(BneWord(S0, S1, 0, 8), xlen) == Bne(8, 9, -8)
      && Decode(EBREAK, xlen) == Ebreak
  {
    hide LoadWord, StoreWord, AddiWord, BneWord;
    LoadFields(xlen, S1, S0, 0);
    StoreFields(xlen, S1, S0, 0);
    StoreFields(xlen, X0, S0, 0);
    AddiFields(S0, S0, if xlen == 64 then 8 else 4);
    BneFields(S0, S1, 0, 8);
  }

  lemma CommandFields(xlen: nat, flags: bv32, r: bv32)
    requires (xlen == 32 || xlen == 64) && flags & 0xfff8_ffff == 0 && r < 32
    ensures var c := Command(flags, xlen, r);
      && c & 0xff70_0000 == SizeField(xlen) && c & 0xffff == 0x1000 | r
      && c & TRANSFER == flags & TRANSFER && c & WRITE == flags & WRITE && c & POSTEXEC == flags & POSTEXEC
  {
  }

  /** `Exec` of a command the host builds. */
  lemma ExecCommand(s: Dm, xlen: nat, flags: bv32, r: bv32)
    requires Valid(s, xlen) && s.cmderr == 0 && s.halted && flags & 0xfff8_ffff == 0 && r < 32
    requires s.command == Command(flags, xlen, r) && flags & TRANSFER != 0
    ensures (r as nat) < 32
    ensures var t := if flags & WRITE != 0 then s.(x := SetReg(s.x, r as nat, DataValue(s.data, xlen)))
                     else s.(data := WithValue(s.data, xlen, s.x[r as nat]));
      Exec(s, xlen) == if flags & POSTEXEC != 0 then t.(pc := Some(0)) else t
  {
    hide DataValue, WithValue, SetReg;
    CommandFields(xlen, flags, r);
    RegnoIs(r);
  }

  lemma RegnoIs(r: bv32)
    requires r < 32
    ensures (0x1000 | r) as nat == 0x1000 + r as nat && (r as nat) < 32
  {
    assert 0x1000 | r == 0x1000 + r;
  }

  /** The hart is about to execute program buffer word `i` of `p`, which decodes to `d`. */
  predicate Fetches(s: Dm, xlen: nat, p: seq<bv32>, i: nat, d: Instr) {
    Loaded(s, p) && s.pc == Some(i) && i < |p| && Decode(p[i], xlen) == d
  }

  lemma StepLoad(s: Dm, xlen: nat, p: seq<bv32>, i: nat)
    requires Valid(s, xlen) && Fetches(s, xlen, p, i, Load(9, 8, 0))
    requires s.x[8] % (xlen / 8) == 0 && s.x[8] + xlen / 8 <= |s.mem|
    ensures Step(s, xlen) == s.(x := s.x[9 := Le(s.mem[s.x[8]..s.x[8] + xlen / 8])], pc := Some(i + 1))
  {
    hide Decode, Le;
    LoadedWord(s, p, i);
    NoWrap(s.x[8], 0, xlen);
  }

  lemma StepStore(s: Dm, xlen: nat, p: seq<bv32>, i: nat, r: nat)
    requires Valid(s, xlen) && r < 32 && Fetches(s, xlen, p, i, Store(r, 8, 0))
    requires s.x[8] % (xlen / 8) == 0 && s.x[8] + xlen / 8 <= |s.mem|
    ensures Step(s, xlen) == s.(mem := Put(s.mem, s.x[8], LeBytes(s.x[r], xlen / 8)), pc := Some(i + 1))
  {
    hide Decode, LeBytes, Put;
    LoadedWord(s, p, i);
    NoWrap(s.x[8], 0, xlen);
  }

  lemma StepAddi(s: Dm, xlen: nat, p: seq<bv32>, i: nat, imm: int)
    requires Valid(s, xlen) && Fetches(s, xlen, p, i, Addi(8, 8, imm))
    ensures Step(s, xlen) == s.(x := s.x[8 := (s.x[8] + imm) % Modulus(xlen)], pc := Some(i + 1))
  {
    hide Decode;
    LoadedWord(s, p, i);
  }

  lemma StepBack(s: Dm, xlen: nat, p: seq<bv32>)
    requires Valid(s, xlen) && Fetches(s, xlen, p, 2, Bne(8, 9, -8))
    ensures Step(s, xlen) == s.(pc := Some(if s.x[8] == s.x[9] then 3 else 0))
  {
    hide Decode;
    LoadedWord(s, p, 2);
  }

  lemma StepEbreak(s: Dm, xlen: nat, p: seq<bv32>, i: nat)
    requires Valid(s, xlen) && Fetches(s, xlen, p, i, Ebreak)
    ensures Step(s, xlen) == s.(pc := None)
  {
    hide Decode;
    LoadedWord(s, p, i);
  }

  lemma NoWrap(a: nat, imm: int, xlen: nat)
    requires 0 <= a + imm < Modulus(xlen)
    ensures (a + imm) % Modulus(xlen) == a + imm
  {
  }

  lemma LoadedWord(s: Dm, p: seq<bv32>, i: nat)
    requires Loaded(s, p) && i < |p|
    ensures i < |s.prog| && s.prog[i] == p[i]
  {
  }

  lemma OneStep(s: Dm, xlen: nat, n: nat)
    requires |s.x| == 32 && 8 <= xlen && s.pc.Some? && n > 0
    ensures |Step(s, xlen).x| == 32 && RunN(s, xlen, n) == RunN(Step(s, xlen), xlen, n - 1)
  {
    hide Step;
    StepLength(s, xlen);
  }

  /** Three instructions one after the other. */
  lemma ThreeSteps(s: Dm, s1: Dm, s2: Dm, s3: Dm, xlen: nat)
    requires |s.x| == 32 && |s1.x| == 32 && |s2.x| == 32 && 8 <= xlen && s.pc.Some? && s1.pc.Some? && s2.pc.Some?
    requires Step(s, xlen) == s1 && Step(s1, xlen) == s2 && Step(s2, xlen) == s3
    ensures RunN(s, xlen, 3) == s3
  {
    hide Step, RunN;
    OneStep(s, xlen, 3);
    OneStep(s1, xlen, 2);
    OneStep(s2, xlen, 1);
    RunNone(s3, xlen);
  }

  /** One pass of the read program: the word at S0 into S1, and S0 moves on. */
  lemma ReadPass(s: Dm, xlen: nat, a: nat)
    requires Valid(s, xlen) && Loaded(s, ReadProgram(xlen)) && s.pc == Some(0) && s.x[8] == a
    requires a % (xlen / 8) == 0 && a + xlen / 8 <= |s.mem|
    ensures RunN(s, xlen, 3) ==
      s.(x := s.x[9 := Le(s.mem[a..a + xlen / 8])][8 := (a + xlen / 8) % Modulus(xlen)], pc := None)
  {
    hide Decode, Le, RunN, LoadWord, AddiWord, Step, Modulus;
    var w, p := xlen / 8, ReadProgram(xlen);
    ProgramsDecode(xlen);
    ReadWordFits(s, xlen, a);
    StepLoad(s, xlen, p, 0);
    var s1 := s.(x := s.x[9 := Le(s.mem[a..a + w])], pc := Some(1));
    StepAddi(s1, xlen, p, 1, w);
    var s2 := s1.(x := s1.x[8 := (a + w) % Modulus(xlen)], pc := Some(2));
    ModulusPositive(xlen);
    StepEbreak(s2, xlen, p, 2);
    ThreeSteps(s, s1, s2, s2.(pc := None), xlen);
  }

  lemma ReadWordFits(s: Dm, xlen: nat, a: nat)
    requires (xlen == 32 || xlen == 64) && a + xlen / 8 <= |s.mem|
    ensures Le(s.mem[a..a + xlen / 8]) < Modulus(xlen)
  {
    LeBound(s.mem[a..a + xlen / 8]);
    Powers();
  }

  lemma ModulusPositive(xlen: nat)
    ensures Modulus(xlen) > 0
  {
  }

  lemma RunNone(s: Dm, xlen: nat)
    requires |s.x| == 32 && 8 <= xlen
    ensures RunN(s, xlen, 0) == s
  {
  }

  /** One pass of the write program: S1 to the word at S0, and S0 moves on. */
  lemma WritePass(s: Dm, xlen: nat, a: nat)
    requires Valid(s, xlen) && Loaded(s, WriteProgram(xlen)) && s.pc == Some(0) && s.x[8] == a
    requires a % (xlen / 8) == 0 && a + xlen / 8 <= |s.mem|
    ensures RunN(s, xlen, 3) ==
      s.(mem := Put(s.mem, a, LeBytes(s.x[9], xlen / 8)), x := s.x[8 := (a + xlen / 8) % Modulus(xlen)], pc := None)
  {
    hide Decode, Le, LeBytes, RunN, StoreWord, AddiWord, Put, Step, Modulus;
    var w, p := xlen / 8, WriteProgram(xlen);
    ProgramsDecode(xlen);
    ModulusPositive(xlen);
    StepStore(s, xlen, p, 0, 9);
    var s1 := s.(mem := Put(s.mem, a, LeBytes(s.x[9], w)), pc := Some(1));
    StepAddi(s1, xlen, p, 1, w);
    var s2 := s1.(x := s1.x[8 := (a + w) % Modulus(xlen)], pc := Some(2));
    StepEbreak(s2, xlen, p, 2);
    ThreeSteps(s, s1, s2, s2.(pc := None), xlen);
  }

  /** One round of the clear loop up to the branch. */
  lemma ClearRound(s: Dm, xlen: nat, a: nat)
    requires Valid(s, xlen) && Loaded(s, ClearProgram(xlen)) && s.pc == Some(0) && s.x[8] == a
    requires a % (xlen / 8) == 0 && a + xlen / 8 <= |s.mem|
    ensures var next := (a + xlen / 8) % Modulus(xlen);
      RunN(s, xlen, 3) == s.(mem := Put(s.mem, a, LeBytes(0, xlen / 8)), x := s.x[8 := next],
                             pc := Some(if s.x[9] == next then 3 else 0))
  {
    hide EBREAK, Decode, LeBytes, RunN, StoreWord, AddiWord, BneWord, Put, Step, Modulus;
    var w, p := xlen / 8, ClearProgram(xlen);
    ProgramsDecode(xlen);
    ModulusPositive(xlen);
    StepStore(s, xlen, p, 0, 0);
    var s1 := s.(mem := Put(s.mem, a, LeBytes(0, w)), pc := Some(1));
    StepAddi(s1, xlen, p, 1, w);
    var s2 := s1.(x := s1.x[8 := (a + w) % Modulus(xlen)], pc := Some(2));
    StepBack(s2, xlen, p);
    ThreeSteps(s, s1, s2, s2.(pc := Some(if s.x[9] == (a + w) % Modulus(xlen) then 3 else 0)), xlen);
  }

  lemma ZeroWord(n: nat)
    ensures LeBytes(0, n) == Zeros(n)
  {
  }

  /** The clear loop on the hart ends, having zeroed exactly the `n` words from S0 up to S1. */
  lemma {:induction false} ClearLoop(s: Dm, xlen: nat, a: nat, n: nat)
    requires Valid(s, xlen) && Loaded(s, ClearProgram(xlen)) && s.pc == Some(0) && s.x[8] == a && n >= 1
    requires a % (xlen / 8) == 0 && a + n * (xlen / 8) <= |s.mem| && s.x[9] == (a + n * (xlen / 8)) % Modulus(xlen)
    ensures RunN(s, xlen, 3 * n + 1) ==
      s.(mem := Put(s.mem, a, Zeros(n * (xlen / 8))), x := s.x[8 := s.x[9]], pc := None)
    decreases n
  {
    hide Decode, RunN, Step, Put, LeBytes, ClearProgram;
    var w := xlen / 8;
    var next := (a + w) % Modulus(xlen);
    WordCount(a, n, w, Modulus(xlen));
    ClearRound(s, xlen, a);
    ZeroWord(w);
    var t := s.(mem := Put(s.mem, a, LeBytes(0, w)), x := s.x[8 := next], pc := Some(if s.x[9] == next then 3 else 0));
    RunAdd(s, xlen, 3, 3 * n - 2);
    if n == 1 {
      assert n * w == w;
      EndOfClear(t, xlen);
    } else {
      ClearLoop(t, xlen, a + w, n - 1);
      PutMore(s.mem, a, w, (n - 1) * w);
      assert t.x[8 := t.x[9]] == s.x[8 := s.x[9]];
    }
  }

  lemma EndOfClear(t: Dm, xlen: nat)
    requires Valid(t, xlen) && Loaded(t, ClearProgram(xlen)) && t.pc == Some(3)
    ensures RunN(t, xlen, 1) == t.(pc := None)
  {
    hide Decode, RunN, StoreWord, AddiWord, BneWord;
    ProgramsDecode(xlen);
    StepEbreak(t, xlen, ClearProgram(xlen), 3);
    OneStep(t, xlen, 1);
    RunNone(Step(t, xlen), xlen);
  }

  /** Address arithmetic of the loop: S0 meets S1 exactly at the end, also when the end is the top of memory. */
  lemma WordCount(a: nat, n: nat, w: nat, m: nat)
    requires n >= 1 && (w == 4 || w == 8) && a % w == 0 && a + n * w <= m
      && (m == 0x1_0000_0000 || m == 0x1_0000_0000_0000_0000)
    ensures a + w <= m && (a + w) % w == 0 && n * w == w + (n - 1) * w
    ensures (a + w) % m == (a + n * w) % m <==> n == 1
    ensures n > 1 ==> (a + w) % m == a + w
  {
    assert n * w == w + (n - 1) * w;
    if n > 1 {
      assert (n - 1) * w >= w;
    }
  }

  lemma PutMore(mem: seq<byte>, a: nat, m: nat, n: nat)
    requires a + m + n <= |mem|
    ensures Put(Put(mem, a, Zeros(m)), a + m, Zeros(n)) == Put(mem, a, Zeros(m + n))
  {
    assert Zeros(m) + Zeros(n) == Zeros(m + n);
  }
}
