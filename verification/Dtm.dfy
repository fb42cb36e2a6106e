/**
 fesvr/dtm.cc: the host side of debug-module memory access. The host only writes to the module when it is
 not busy; while it polls, the hart runs on at a speed of its own.
 */
module Dtm {
  import opened Bytes
  import opened LittleEndian
  import opened Riscv
  import opened DebugModules

  /** The module's registers as the host reaches them. */
  class Target {
    const xlen: nat
    var s: Dm

    constructor (xlen: nat, s: Dm)
      requires Valid(s, xlen)
      ensures this.xlen == xlen && this.s == s
    {
      this.xlen := xlen;
      this.s := s;
    }

    ghost predicate Ok()
      reads this
    {
      Valid(s, xlen)
    }

    /** Time passes: a running hart executes at least one instruction. */
    method Tick()
      requires |s.x| == 32 && 8 <= xlen
      modifies this
      ensures exists k: nat :: k >= 1 && s == RunN(old(s), xlen, k)
    {
      hide Step;
      var k: nat :| k >= 1;
      ghost var s0 := s;
      var i := 0;
      RunNone(s, xlen);
      while i < k
        invariant 0 <= i <= k && |s.x| == 32 && s == RunN(s0, xlen, i)
      {
        StepLength(s, xlen);
        RunAdd(s0, xlen, i, 1);
        RunOne(s, xlen);
        if s.pc.Some? {
          s := Step(s, xlen);
        }
        i := i + 1;
      }
    }

    method WriteProgbuf(i: nat, w: bv32)
      requires Ok() && s.pc.None? && i < |s.prog|
      modifies this
      ensures Ok() && s == old(s).(prog := old(s).prog[i := w])
    {
      s := s.(prog := s.prog[i := w]);
    }

    /** A write to the first data word also starts the last command again when automatic execution is on. */
    method WriteData(i: nat, v: u32)
      requires Ok() && s.pc.None? && i < |s.data|
      modifies this
      ensures s == DataWritten(old(s), xlen, i, v)
    {
      s := s.(data := s.data[i := v]);
      if s.auto && i == 0 {
        s := Exec(s, xlen);
      }
    }

    method ReadData(i: nat) returns (v: u32)
      requires s.pc.None? && !s.auto && i < |s.data|
      ensures v == s.data[i]
    {
      v := s.data[i];
    }

    method WriteCommand(c: bv32)
      requires Ok() && s.pc.None?
      modifies this
      ensures s == Exec(old(s).(command := c), xlen)
    {
      s := Exec(s.(command := c), xlen);
    }

    method WriteAuto(auto: bool)
      requires s.pc.None?
      modifies this
      ensures s == old(s).(auto := auto)
    {
      s := s.(auto := auto);
    }

    /** Reading `abstractcs`: time passes, then the busy bit and the command error are sampled. */
    method ReadAbstractCs() returns (busy: bool, cmderr: nat)
      requires |s.x| == 32 && 8 <= xlen
      modifies this
      ensures exists k: nat :: k >= 1 && s == RunN(old(s), xlen, k)
      ensures busy == s.pc.Some? && cmderr == s.cmderr
    {
      Tick();
      busy, cmderr := s.pc.Some?, s.cmderr;
    }

    /** Writing ones to `cmderr` clears it. */
    method ClearCmderr()
      modifies this
      ensures s == old(s).(cmderr := 0)
    {
      s := s.(cmderr := 0);
    }
  }

  lemma RunOne(s: Dm, xlen: nat)
    requires |s.x| == 32 && 8 <= xlen
    ensures RunN(s, xlen, 1) == if s.pc.Some? then Step(s, xlen) else s
  {
    hide Step;
    if s.pc.Some? {
      StepLength(s, xlen);
      RunNone(Step(s, xlen), xlen);
    }
  }

  ghost function DataWritten(s: Dm, xlen: nat, i: nat, v: u32): Dm
    requires Valid(s, xlen) && i < |s.data|
  {
    var t := s.(data := s.data[i := v]);
    if s.auto && i == 0 then Exec(t, xlen) else t
  }

  /** Polling until the module is no longer busy ends in the state the hart reaches by itself. */
  method WaitNotBusy(t: Target, ghost n: nat) returns (cmderr: nat)
    requires |t.s.x| == 32 && 8 <= t.xlen && RunN(t.s, t.xlen, n).pc.None?
    modifies t
    ensures t.s == RunN(old(t.s), t.xlen, n) && cmderr == t.s.cmderr
  {
    hide Step, RunN;
    ghost var s0, m := t.s, 0;
    RunNone(s0, t.xlen);
    var busy := true;
    cmderr := 0;
    while busy
      invariant |t.s.x| == 32 && t.s == RunN(s0, t.xlen, m)
      invariant if busy then m == 0 || m < n else t.s.pc.None?
      invariant !busy ==> cmderr == t.s.cmderr
      decreases busy, n + 1 - m
    {
      busy, cmderr := t.ReadAbstractCs();
      ghost var k: nat :| k >= 1 && t.s == RunN(RunN(s0, t.xlen, m), t.xlen, k);
      RunAdd(s0, t.xlen, m, k);
      m := m + k;
      if busy && n <= m {
        RunStable(s0, t.xlen, n, m);
      }
    }
    if m <= n {
      RunStable(s0, t.xlen, m, n);
    } else {
      RunStable(s0, t.xlen, n, m);
    }
  }

  // ---------------------------------------------------------------- run_abstract_command

  /** The start of `s` overwritten by `p`. */
  function Over<T>(s: seq<T>, p: seq<T>): seq<T>
    requires |p| <= |s|
  {
    p + s[|p|..]
  }

  lemma OverNext<T>(s: seq<T>, p: seq<T>, i: nat)
    requires i < |p| <= |s|
    ensures Over(s, p[..i])[i := p[i]] == Over(s, p[..i + 1])
  {
  }

  lemma OverEnds<T>(s: seq<T>, p: seq<T>)
    requires |p| <= |s|
    ensures Over(s, p[..0]) == s && p[..|p|] == p
  {
  }

  /** A program written over the start of the program buffer. */
  function WithProgram(s: Dm, program: seq<bv32>): Dm
    requires |program| <= |s.prog|
  {
    s.(prog := Over(s.prog, program))
  }

  function WithData(s: Dm, data: seq<u32>): Dm
    requires |data| <= |s.data|
  {
    s.(data := Over(s.data, data))
  }

  /** The module when the command register is written. */
  function Ready(s: Dm, command: bv32, program: seq<bv32>, data: seq<u32>): Dm
    requires |program| <= |s.prog| && |data| <= |s.data|
  {
    var p := WithProgram(s, program);
    (if command & WRITE != 0 && command & TRANSFER != 0 then WithData(p, data) else p).(command := command)
  }

  lemma ReadyValid(s: Dm, xlen: nat, command: bv32, program: seq<bv32>, data: seq<u32>)
    requires Valid(s, xlen) && |program| <= |s.prog| && |data| <= |s.data|
    ensures Valid(Ready(s, command, program, data), xlen)
  {
  }

  /** The module once the command has been started. */
  ghost function Started(s: Dm, xlen: nat, command: bv32, program: seq<bv32>, data: seq<u32>): (r: Dm)
    requires Valid(s, xlen) && |program| <= |s.prog| && |data| <= |s.data|
    ensures |r.x| == 32
  {
    ReadyValid(s, xlen, command, program, data);
    Exec(Ready(s, command, program, data), xlen)
  }

  lemma StepKeeps(s: Dm, xlen: nat)
    requires |s.x| == 32 && 8 <= xlen
    ensures var r := Step(s, xlen); r == s.(x := r.x, mem := r.mem, cmderr := r.cmderr, pc := r.pc)
  {
    hide Decode, Le, LeBytes, Put, SetReg;
  }

  /** Running the program buffer changes registers and memory only. */
  lemma {:induction false} RunKeeps(s: Dm, xlen: nat, n: nat)
    requires |s.x| == 32 && 8 <= xlen
    ensures var r := RunN(s, xlen, n); r == s.(x := r.x, mem := r.mem, cmderr := r.cmderr, pc := r.pc)
    decreases n
  {
    hide Step;
    if n > 0 && s.pc.Some? {
      StepKeeps(s, xlen);
      StepLength(s, xlen);
      RunKeeps(Step(s, xlen), xlen, n - 1);
    }
  }

  lemma StartedKeeps(s: Dm, xlen: nat, command: bv32, program: seq<bv32>, data: seq<u32>)
    requires Valid(s, xlen) && |program| <= |s.prog| && |data| <= |s.data|
    ensures var r := Started(s, xlen, command, program, data); r.auto == s.auto && |r.data| == |s.data|
  {
    hide DataValue, SetReg;
  }

  /** The program loop before the command is written. */
  method LoadProgram(t: Target, program: seq<bv32>)
    requires t.Ok() && t.s.pc.None? && |program| <= |t.s.prog|
    modifies t
    ensures t.Ok() && t.s == WithProgram(old(t.s), program)
  {
    hide Valid, Over;
    ghost var s0 := t.s;
    var i := 0;
    OverEnds(s0.prog, program);
    while i < |program|
      invariant 0 <= i <= |program| && t.Ok() && |t.s.prog| == |s0.prog|
        && t.s == s0.(prog := Over(s0.prog, program[..i]))
    {
      OverNext(s0.prog, program, i);
      t.WriteProgbuf(i, program[i]);
      i := i + 1;
    }
  }

  /** The data loop before the command is written. */
  method LoadData(t: Target, data: seq<u32>)
    requires t.Ok() && t.s.pc.None? && !t.s.auto && |data| <= |t.s.data|
    modifies t
    ensures t.Ok() && t.s == WithData(old(t.s), data)
  {
    hide Exec, Valid, Over;
    ghost var s1 := t.s;
    var i := 0;
    OverEnds(s1.data, data);
    while i < |data|
      invariant 0 <= i <= |data| && t.Ok() && |t.s.data| == |s1.data| && t.s == s1.(data := Over(s1.data, data[..i]))
    {
      OverNext(s1.data, data, i);
      t.WriteData(i, data[i]);
      i := i + 1;
      DataValid(s1, t.xlen, data[..i]);
    }
  }

  lemma DataValid(s: Dm, xlen: nat, data: seq<u32>)
    requires Valid(s, xlen) && |data| <= |s.data|
    ensures Valid(WithData(s, data), xlen)
  {
  }

  /** `dtm_t::run_abstract_command`. */
  method RunAbstractCommand(t: Target, command: bv32, program: seq<bv32>, data: seq<u32>, ghost n: nat)
    returns (cmderr: nat, out: seq<u32>)
    requires t.Ok() && t.s.pc.None? && !t.s.auto && |program| <= |t.s.prog| && |data| <= |t.s.data|
    requires RunN(Started(t.s, t.xlen, command, program, data), t.xlen, n).pc.None?
    modifies t
    ensures t.s == RunN(Started(old(t.s), t.xlen, command, program, data), t.xlen, n) && cmderr == t.s.cmderr
    ensures |t.s.data| == |old(t.s.data)|
    ensures out == if command & WRITE == 0 && command & TRANSFER != 0 then t.s.data[..|data|] else data
  {
    hide RunN, Exec;
    ghost var s0 := t.s;
    LoadProgram(t, program);
    if command & WRITE != 0 && command & TRANSFER != 0 {
      LoadData(t, data);
    }
    t.WriteCommand(command);
    assert t.s == Started(s0, t.xlen, command, program, data);
    StartedKeeps(s0, t.xlen, command, program, data);
    RunKeeps(t.s, t.xlen, n);
    cmderr := WaitNotBusy(t, n);
    out := data;
    ghost var s3 := t.s;
    if command & WRITE == 0 && command & TRANSFER != 0 {
      var i := 0;
      while i < |data|
        invariant t.s == s3 && 0 <= i <= |data| && |out| == |data| && out[..i] == t.s.data[..i]
      {
        var v := t.ReadData(i);
        out := out[i := v];
        i := i + 1;
      }
    }
  }

  /** `die` for a nonzero error: it clears the error and lets the simulation go on. */
  method DieIf(t: Target, cmderr: nat)
    modifies t
    ensures t.s == if cmderr != 0 then old(t.s).(cmderr := 0) else old(t.s)
  {
    if cmderr != 0 {
      t.ClearCmderr();
    }
  }

  /** `RUN_AC_OR_DIE`: an error is reported, cleared, and otherwise ignored. */
  method RunAcOrDie(t: Target, command: bv32, program: seq<bv32>, data: seq<u32>, ghost n: nat) returns (out: seq<u32>)
    requires t.Ok() && t.s.pc.None? && !t.s.auto && |program| <= |t.s.prog| && |data| <= |t.s.data|
    requires RunN(Started(t.s, t.xlen, command, program, data), t.xlen, n).pc.None?
    modifies t
    ensures var r := RunN(Started(old(t.s), t.xlen, command, program, data), t.xlen, n);
      t.s == r.(cmderr := 0) && |t.s.data| == |old(t.s.data)|
    ensures out == if command & WRITE == 0 && command & TRANSFER != 0 then t.s.data[..|data|] else data
  {
    hide RunN, Started;
    var cmderr;
    cmderr, out := RunAbstractCommand(t, command, program, data, n);
    DieIf(t, cmderr);
  }

  // ---------------------------------------------------------------- registers

  /** Halted, not busy, no error, no automatic execution. */
  predicate Idle(s: Dm) { s.pc.None? && !s.auto && s.cmderr == 0 && s.halted }

  /** A register value as the host's data words. */
  function Words(v: nat, xlen: nat): (d: seq<u32>)
    requires v < Modulus(xlen)
    ensures |d| == Cells(xlen)
  {
    if xlen == 64 then [v % 0x1_0000_0000, v / 0x1_0000_0000] else [v]
  }

  function ValueOf(d: seq<u32>, xlen: nat): nat
    requires |d| == Cells(xlen)
  {
    if xlen == 64 then d[0] as int + 0x1_0000_0000 * d[1] as int else d[0]
  }

  lemma WordsValue(v: nat, xlen: nat, data: seq<u32>)
    requires v < Modulus(xlen) && |data| >= Cells(xlen)
    ensures ValueOf(Words(v, xlen), xlen) == v && DataValue(Over(data, Words(v, xlen)), xlen) == v
    ensures WithValue(data, xlen, v)[..|Words(v, xlen)|] == Words(v, xlen)
  {
    if xlen == 64 {
      assert Over(data, Words(v, xlen))[0] == v % 0x1_0000_0000 && Over(data, Words(v, xlen))[1] == v / 0x1_0000_0000;
      assert WithValue(data, xlen, v)[..2] == Words(v, xlen);
    } else {
      assert WithValue(data, xlen, v)[..1] == Words(v, xlen);
    }
  }

  lemma NoProgram(s: Dm)
    ensures WithProgram(s, []) == s
  {
    assert Over(s.prog, []) == s.prog;
  }

  /** A register read, with or without running the program buffer afterwards. */
  lemma StartedRead(s: Dm, xlen: nat, post: bool, r: bv32, data: seq<u32>)
    requires Valid(s, xlen) && Idle(s) && r < 32 && |data| <= |s.data|
    ensures (r as nat) < 32
    ensures var c := Command(if post then TRANSFER | POSTEXEC else TRANSFER, xlen, r);
      && c & WRITE == 0 && c & TRANSFER != 0
      && Started(s, xlen, c, [], data) ==
         s.(command := c, data := WithValue(s.data, xlen, s.x[r as nat]), pc := if post then Some(0) else None)
  {
    hide WithValue, DataValue, SetReg, Over, Exec;
    var flags := if post then TRANSFER | POSTEXEC else TRANSFER;
    var c := Command(flags, xlen, r);
    CommandFields(xlen, flags, r);
    NoProgram(s);
    RegnoIs(r);
    ExecCommand(s.(command := c), xlen, flags, r);
  }

  /** A register write, with or without running the program buffer afterwards. */
  lemma StartedWrite(s: Dm, xlen: nat, post: bool, r: bv32, program: seq<bv32>, v: nat)
    requires Valid(s, xlen) && Idle(s) && r < 32 && |program| <= |s.prog| && v < Modulus(xlen)
    ensures (r as nat) < 32
    ensures var c := Command(if post then TRANSFER | WRITE | POSTEXEC else TRANSFER | WRITE, xlen, r);
      && c & WRITE != 0 && c & TRANSFER != 0
      && Started(s, xlen, c, program, Words(v, xlen)) ==
         s.(command := c, prog := Over(s.prog, program), data := Over(s.data, Words(v, xlen)),
            x := SetReg(s.x, r as nat, v), pc := if post then Some(0) else None)
  {
    hide WithValue, DataValue, SetReg, Over, Exec, Words;
    var flags := if post then TRANSFER | WRITE | POSTEXEC else TRANSFER | WRITE;
    var c := Command(flags, xlen, r);
    CommandFields(xlen, flags, r);
    RegnoIs(r);
    var u := WithData(WithProgram(s, program), Words(v, xlen)).(command := c);
    WordsValue(v, xlen, s.data);
    ReadyValid(s, xlen, c, program, Words(v, xlen));
    ExecCommand(u, xlen, flags, r);
  }

  /** `save_reg`. */
  method SaveReg(t: Target, r: bv32) returns (result: nat)
    requires t.Ok() && Idle(t.s) && r < 32
    modifies t
    ensures (r as nat) < 32 && t.Ok() && Idle(t.s) && result == old(t.s).x[r as nat]
    ensures t.s == old(t.s).(command := t.s.command, data := t.s.data) && |t.s.data| == |old(t.s).data|
  {
    hide WithValue, RunN, Started;
    ghost var s0 := t.s;
    var blank: seq<u32> := if t.xlen == 64 then [0, 0] else [0];
    var command := Command(TRANSFER, t.xlen, r);
    StartedRead(s0, t.xlen, false, r, blank);
    RunNone(Started(s0, t.xlen, command, [], blank), t.xlen);
    var data := RunAcOrDie(t, command, [], blank, 0);
    WordsValue(s0.x[r as nat], t.xlen, s0.data);
    result := data[0];
    if t.xlen > 32 {
      result := result + 0x1_0000_0000 * data[1] as int;
    }
  }

  /** `restore_reg`. */
  method RestoreReg(t: Target, r: bv32, val: nat)
    requires t.Ok() && Idle(t.s) && r < 32 && val < Modulus(t.xlen)
    modifies t
    ensures (r as nat) < 32 && t.Ok() && Idle(t.s)
    ensures t.s == old(t.s).(command := t.s.command, data := t.s.data, x := SetReg(old(t.s).x, r as nat, val))
  {
    hide WithValue, RunN, Started;
    ghost var s0 := t.s;
    var data := Words(val, t.xlen);
    var command := Command(TRANSFER | WRITE, t.xlen, r);
    StartedWrite(s0, t.xlen, false, r, [], val);
    NoProgram(s0);
    RunNone(Started(s0, t.xlen, command, [], data), t.xlen);
    var out := RunAcOrDie(t, command, [], data, 0);
  }

  // ---------------------------------------------------------------- halting and resuming

  /** `halt`: the halt request is polled until the hart has halted, which may take any number of polls. */
  method Halt(t: Target)
    modifies t
    ensures t.s == old(t.s).(halted := true)
  {
    ghost var s0 := t.s;
    var delay: nat := *;
    while !t.s.halted
      invariant t.s == s0 || t.s == s0.(halted := true)
      decreases !t.s.halted, delay
    {
      if delay == 0 {
        t.s := t.s.(halted := true);
      } else {
        delay := delay - 1;
      }
    }
  }

  /** `resume`. */
  method Resume(t: Target)
    modifies t
    ensures t.s == old(t.s).(halted := false)
  {
    t.s := t.s.(halted := false);
  }

  // ---------------------------------------------------------------- chunks

  /** The bytes `memcpy` copies from the data words of a little-endian host. */
  function HostBytes(d: seq<u32>, xlen: nat): seq<byte>
    requires |d| == Cells(xlen)
  {
    if xlen == 64 then LeBytes(d[0], 4) + LeBytes(d[1], 4) else LeBytes(d[0], 4)
  }

  lemma WordBytes(v: nat, xlen: nat)
    requires (xlen == 32 || xlen == 64) && v < Modulus(xlen)
    ensures HostBytes(Words(v, xlen), xlen) == LeBytes(v, xlen / 8)
  {
    hide LeBytes;
    Powers();
    if xlen == 64 {
      LeSplit(v % 0x1_0000_0000, v / 0x1_0000_0000, 4, 4);
    }
  }

  /** The data words `memcpy` fills from a little-endian host's bytes. */
  function FromBytes(b: seq<byte>, xlen: nat): (d: seq<u32>)
    requires |b| == xlen / 8 && (xlen == 32 || xlen == 64)
    ensures |d| == Cells(xlen)
  {
    Powers();
    LeBound(b[..4]);
    if xlen == 64 then LeBound(b[4..]); [Le(b[..4]), Le(b[4..])] else [Le(b[..4])]
  }

  lemma FromBytesWords(b: seq<byte>, xlen: nat)
    requires |b| == xlen / 8 && (xlen == 32 || xlen == 64)
    ensures Le(b) < Modulus(xlen) && FromBytes(b, xlen) == Words(Le(b), xlen)
  {
    hide LeBytes, Le, Pow256;
    Powers();
    LeBound(b);
    if xlen == 64 {
      LeBound(b[..4]);
      LeBound(b[4..]);
      LeConcat(b[..4], b[4..]);
      assert b == b[..4] + b[4..];
      Halves(Le(b[..4]), Le(b[4..]));
    } else {
      assert b[..4] == b;
    }
  }

  lemma Halves(lo: u32, hi: u32)
    ensures var v := lo as int + 0x1_0000_0000 * hi as int; v % 0x1_0000_0000 == lo && v / 0x1_0000_0000 == hi
  {
  }

  lemma {:induction false} LeConcat(a: seq<byte>, b: seq<byte>)
    ensures Le(a + b) == Le(a) + Pow256(|a|) * Le(b)
  {
    if a == [] {
      assert a + b == b;
    } else {
      LeConcat(a[1..], b);
      assert (a + b)[1..] == a[1..] + b;
      MulThree(Pow256(|a| - 1), Le(b));
    }
  }

  lemma MulThree(p: nat, l: nat)
    ensures 0x100 * (p * l) == (0x100 * p) * l
  {
  }

  /** The registers and memory while a chunk is read: word `i` is in S1 and S0 points behind it. */
  ghost predicate Reading(s: Dm, x: seq<nat>, xlen: nat, taddr: nat, i: nat)
    requires |x| == 32 && xlen / 8 > 0
  {
    var w := xlen / 8;
    && Valid(s, xlen) && Idle(s) && Loaded(s, ReadProgram(xlen)) && taddr + (i + 1) * w <= |s.mem|
    && s.x == x[9 := Le(s.mem[taddr + i * w..taddr + i * w + w])][8 := (taddr + (i + 1) * w) % Modulus(xlen)]
  }

  /** The first command: the address into S0 and one pass of the program. */
  method StartReading(t: Target, taddr: nat)
    requires |t.s.prog| >= 3 && t.Ok() && Idle(t.s) && taddr % (t.xlen / 8) == 0 && taddr + t.xlen / 8 <= |t.s.mem|
    modifies t
    ensures t.s.mem == old(t.s.mem) && Reading(t.s, old(t.s).x, t.xlen, taddr, 0)
  {
    hide RunN, Started, Over, LoadWord, AddiWord, Le, Words;
    ghost var s0, x, w := t.s, t.s.x, t.xlen / 8;
    MulOne(w);
    var prog := [LoadWord(t.xlen, S1, S0, 0), AddiWord(S0, S0, if t.xlen == 64 then 8 else 4), EBREAK];
    var data := Words(taddr, t.xlen);
    var command := Command(TRANSFER | WRITE | POSTEXEC, t.xlen, S0);
    StartedWrite(s0, t.xlen, true, S0, prog, taddr);
    ghost var s1 := Started(s0, t.xlen, command, prog, data);
    OverLoaded(s0.prog, prog);
    OverLoaded(s0.data, data);
    ReadyIsValid(s0, s1, t.xlen, taddr);
    ReadPass(s1, t.xlen, taddr);
    ReadWordFits(s0, t.xlen, taddr);
    var out := RunAcOrDie(t, command, prog, data, 3);
    assert taddr + 0 * w == taddr;
  }

  lemma MulOne(w: nat)
    ensures 0 * w == 0 && 1 * w == w && (0 + 1) * w == w
  {
  }

  lemma OverLoaded<T>(s: seq<T>, p: seq<T>)
    requires |p| <= |s|
    ensures |Over(s, p)| == |s| && Over(s, p)[..|p|] == p
  {
  }

  lemma ReadyIsValid(s: Dm, r: Dm, xlen: nat, v: nat)
    requires Valid(s, xlen) && v < Modulus(xlen) && |r.prog| == |s.prog| && |r.data| == |s.data| && r.mem == s.mem
    requires r.x == SetReg(s.x, 8, v) || r.x == SetReg(s.x, 9, v)
    ensures Valid(r, xlen)
  {
  }

  /** One round of the read loop: S1 is fetched and, unless it was the last word, the program runs once more. */
  method ReadNext(t: Target, taddr: nat, i: nat, last: bool, ghost x: seq<nat>) returns (data: seq<u32>)
    requires |x| == 32 && 8 <= t.xlen && taddr % (t.xlen / 8) == 0 && Reading(t.s, x, t.xlen, taddr, i)
    requires !last ==> taddr + (i + 2) * (t.xlen / 8) <= |t.s.mem|
    modifies t
    ensures t.s.mem == old(t.s.mem) && t.Ok() && Idle(t.s)
    ensures if last then t.s.x == old(t.s.x) else Reading(t.s, x, t.xlen, taddr, i + 1)
    ensures var w := t.xlen / 8;
      |data| == Cells(t.xlen) && HostBytes(data, t.xlen) == old(t.s.mem)[taddr + i * w..taddr + i * w + w]
  {
    hide RunN, Started, Over, Le, LeBytes, Words, WithValue, HostBytes, ReadProgram;
    ghost var s0, w := t.s, t.xlen / 8;
    var blank: seq<u32> := if t.xlen == 64 then [0, 0] else [0];
    var command := Command(if last then TRANSFER else TRANSFER | POSTEXEC, t.xlen, S1);
    StartedRead(s0, t.xlen, !last, S1, blank);
    ghost var s1 := Started(s0, t.xlen, command, [], blank);
    ghost var word := s0.mem[taddr + i * w..taddr + i * w + w];
    NextWord(taddr, i, w, |s0.mem|, Modulus(t.xlen));
    ReadWordFits(s0, t.xlen, taddr + i * w);
    WithValueLength(s0.data, t.xlen, s0.x[9]);
    if last {
      RunNone(s1, t.xlen);
    } else {
      ReadPass(s1, t.xlen, taddr + (i + 1) * w);
      ReadWordFits(s0, t.xlen, taddr + (i + 1) * w);
      var p, q := taddr + (i + 1) * w, taddr + (i + 2) * w;
      assert x[9 := Le(word)][8 := p % Modulus(t.xlen)][9 := Le(s0.mem[p..p + w])][8 := q % Modulus(t.xlen)]
        == x[9 := Le(s0.mem[p..p + w])][8 := q % Modulus(t.xlen)];
    }
    data := RunAcOrDie(t, command, [], blank, if last then 0 else 3);
    WordsValue(Le(word), t.xlen, s0.data);
    WordBytes(Le(word), t.xlen);
    BytesOfLe(word);
  }

  lemma NextWord(taddr: nat, i: nat, w: nat, size: nat, m: nat)
    requires (w == 4 || w == 8) && taddr % w == 0 && taddr + (i + 1) * w <= size <= m
    ensures (i + 1) * w == i * w + w && (i + 2) * w == (i + 1) * w + w
    ensures (taddr + (i + 1) * w) % w == 0
    ensures taddr + (i + 1) * w < m ==> (taddr + (i + 1) * w) % m == taddr + (i + 1) * w
  {
    MultipleAhead(taddr, i + 1, w);
    if taddr + (i + 1) * w < m {
      SmallMod(taddr + (i + 1) * w, m);
    }
  }

  lemma MultipleAhead(a: nat, k: nat, w: nat)
    requires (w == 4 || w == 8) && a % w == 0
    ensures (a + k * w) % w == 0
  {
    var q := a / w + k;
    assert a + k * w == q * w;
    if w == 4 {
      Fours(q);
    } else {
      Eights(q);
    }
  }

  lemma Fours(q: nat)
    ensures (q * 4) % 4 == 0
  {
  }

  lemma Eights(q: nat)
    ensures (q * 8) % 8 == 0
  {
  }

  lemma SmallMod(a: nat, m: nat)
    requires a < m
    ensures a % m == a
  {
  }

  lemma WithValueLength(data: seq<u32>, xlen: nat, v: nat)
    requires |data| >= Cells(xlen) && v < Modulus(xlen)
    ensures |WithValue(data, xlen, v)| == |data|
  {
  }

  /** Equal except for S0 and S1. */
  ghost predicate SameBut(y: seq<nat>, x: seq<nat>) {
    |y| == |x| == 32 && forall r :: 0 <= r < 32 && r != 8 && r != 9 ==> y[r] == x[r]
  }

  lemma ReadingRegs(s: Dm, x: seq<nat>, xlen: nat, taddr: nat, i: nat)
    requires |x| == 32 && xlen / 8 > 0 && Reading(s, x, xlen, taddr, i)
    ensures SameBut(s.x, x) && Valid(s, xlen) && Idle(s)
  {
    hide Le;
  }

  /** Writing the saved values back restores all registers. */
  lemma Restored(x: seq<nat>, y: seq<nat>)
    requires SameBut(y, x)
    ensures SetReg(SetReg(y, 8, x[8]), 9, x[9]) == x
  {
  }

  lemma FirstFits(taddr: nat, len: nat, n: nat, w: nat, size: nat)
    requires (w == 4 || w == 8) && len > 0 && len % w == 0 && n == len / w && taddr + len <= size
    ensures n >= 1 && taddr + w <= size && n * w == len
  {
  }

  lemma RoundFits(taddr: nat, len: nat, n: nat, w: nat, i: nat, size: nat)
    requires (w == 4 || w == 8) && n * w == len && taddr + len <= size && i < n
    ensures i * w + w <= len && (i + 1) * w == i * w + w && taddr + (i + 1) * w <= size
    ensures i + 1 < n ==> taddr + (i + 2) * w <= size && (i + 1) * w + w <= len
    ensures i + 1 == n ==> (i + 1) * w == len
  {
    assert (i + 2) * w == i * w + 2 * w;
    assert (n - i - 1) * w >= 0;
    if i + 1 < n {
      assert (n - i - 2) * w >= 0;
    }
  }

  lemma PutGrows(s: seq<byte>, mem: seq<byte>, taddr: nat, k: nat, w: nat)
    requires taddr + k + w <= |mem| && k + w <= |s|
    ensures Put(Put(s, 0, mem[taddr..taddr + k]), k, mem[taddr + k..taddr + k + w])
      == Put(s, 0, mem[taddr..taddr + k + w])
  {
    assert mem[taddr..taddr + k] + mem[taddr + k..taddr + k + w] == mem[taddr..taddr + k + w];
  }

  /** What a chunk operation does first: halt the hart and save S0 and S1. */
  method Enter(t: Target) returns (s0: nat, s1: nat)
    requires t.Ok() && Idle(t.s.(halted := true))
    modifies t
    ensures t.Ok() && Idle(t.s) && t.s.x == old(t.s.x) && t.s.mem == old(t.s.mem)
    ensures t.s.prog == old(t.s.prog) && |t.s.data| == |old(t.s.data)|
    ensures s0 == t.s.x[8] && s1 == t.s.x[9] && s0 < Modulus(t.xlen) && s1 < Modulus(t.xlen)
  {
    Halt(t);
    s0 := SaveReg(t, S0);
    s1 := SaveReg(t, S1);
  }

  /** And last: restore them and let the hart go on. */
  method Leave(t: Target, s0: nat, s1: nat, ghost x: seq<nat>)
    requires t.Ok() && Idle(t.s) && SameBut(t.s.x, x) && s0 == x[8] < Modulus(t.xlen) && s1 == x[9] < Modulus(t.xlen)
    modifies t
    ensures t.Ok() && t.s.x == x && t.s.mem == old(t.s.mem) && Idle(t.s.(halted := true)) && !t.s.halted
  {
    hide SetReg;
    Restored(x, t.s.x);
    RestoreReg(t, S0, s0);
    RestoreReg(t, S1, s1);
    Resume(t);
  }

  /** `read_chunk`: the bytes of the chunk; the target's registers and memory are as before. */
  method ReadChunk(t: Target, taddr: nat, len: nat, dst: array<byte>)
    requires t.Ok() && Idle(t.s.(halted := true)) && len <= dst.Length && |t.s.prog| >= 3
    requires len > 0 && len % (t.xlen / 8) == 0 && taddr % (t.xlen / 8) == 0 && taddr + len <= |t.s.mem|
    modifies t, dst
    ensures dst[..] == Put(old(dst[..]), 0, old(t.s.mem)[taddr..taddr + len])
    ensures t.Ok() && t.s.x == old(t.s.x) && t.s.mem == old(t.s.mem) && Idle(t.s.(halted := true)) && !t.s.halted
  {
    hide Reading, HostBytes, Put, SameBut, Modulus;
    ghost var mem, x, w, before := t.s.mem, t.s.x, t.xlen / 8, dst[..];
    var n := len / (t.xlen / 8);
    FirstFits(taddr, len, n, w, |mem|);
    var s0, s1 := Enter(t);
    StartReading(t, taddr);
    ReadingRegs(t.s, x, t.xlen, taddr, 0);
    var i := 0;
    PutNone(before, 0);
    MulOne(w);
    assert mem[taddr..taddr + 0 * w] == [];
    while i < n
      invariant 0 <= i <= n && t.s.mem == mem && t.Ok() && Idle(t.s) && i * w <= len && SameBut(t.s.x, x)
      invariant i < n ==> Reading(t.s, x, t.xlen, taddr, i)
      invariant dst[..] == Put(before, 0, mem[taddr..taddr + i * w])
    {
      RoundFits(taddr, len, n, w, i, |mem|);
      ReadingRegs(t.s, x, t.xlen, taddr, i);
      var data := ReadNext(t, taddr, i, i + 1 == n, x);
      var bytes := HostBytes(data, t.xlen);
      Memcpy(dst, i * (t.xlen / 8), bytes);
      PutGrows(before, mem, taddr, i * w, w);
      i := i + 1;
      if i < n {
        ReadingRegs(t.s, x, t.xlen, taddr, i);
      }
    }
    Leave(t, s0, s1, x);
  }

  // ---------------------------------------------------------------- write_chunk

  /** The command that stores S1 with every run: written once, then repeated by automatic execution. */
  function StoreCommand(xlen: nat): bv32 { Command(TRANSFER | WRITE | POSTEXEC, xlen, S1) }

  /** `i` words have been stored and S0 points at the next one. */
  ghost predicate Writing(s: Dm, x: seq<nat>, xlen: nat, taddr: nat, i: nat) {
    && Valid(s, xlen) && s.pc.None? && s.cmderr == 0 && s.halted && Loaded(s, WriteProgram(xlen))
    && s.command == StoreCommand(xlen) && SameBut(s.x, x) && s.x[8] == (taddr + i * (xlen / 8)) % Modulus(xlen)
  }

  /** The state after the store command has been started and has run to its end. */
  ghost function StoreRun(s: Dm, xlen: nat): Dm
    requires Valid(s, xlen)
  {
    ExecLength(s, xlen);
    RunN(Exec(s, xlen), xlen, 3)
  }

  /** One run of the store command with `v` in the data words and S0 at `at`. */
  lemma StorePass(s: Dm, x: seq<nat>, xlen: nat, at: nat, v: nat)
    requires |x| == 32 && Writing(s, x, xlen, at, 0) && DataValue(s.data, xlen) == v < Modulus(xlen)
    requires at % (xlen / 8) == 0 && at + xlen / 8 <= |s.mem|
    ensures var r := StoreRun(s, xlen);
      && Writing(r, x, xlen, at, 1) && r.auto == s.auto && |r.data| == |s.data|
      && r.mem == Put(s.mem, at, LeBytes(v, xlen / 8))
  {
    hide RunN, DataValue, Put, LeBytes, WriteProgram, Exec;
    MulOne(xlen / 8);
    SmallMod(at, Modulus(xlen));
    ExecCommand(s, xlen, TRANSFER | WRITE | POSTEXEC, S1);
    var s1 := Exec(s, xlen);
    ReadyIsValid(s, s1, xlen, v);
    WritePass(s1, xlen, at);
  }

  /** Counting words from another start. */
  lemma WritingFrom(s: Dm, x: seq<nat>, xlen: nat, taddr: nat, i: nat, k: nat)
    requires xlen == 32 || xlen == 64
    ensures Writing(s, x, xlen, taddr, i + k) <==> Writing(s, x, xlen, taddr + i * (xlen / 8), k)
  {
    hide Valid, Loaded, SameBut;
    assert (i + k) * (xlen / 8) == i * (xlen / 8) + k * (xlen / 8);
  }

  /** The first two commands of `write_chunk`: the address into S0, then the first word. */
  method StartWriting(t: Target, taddr: nat, word: seq<byte>)
    requires |t.s.prog| >= 3 && t.Ok() && Idle(t.s) && taddr % (t.xlen / 8) == 0
      && taddr + t.xlen / 8 <= |t.s.mem| && |word| == t.xlen / 8
    modifies t
    ensures Writing(t.s, old(t.s).x, t.xlen, taddr, 1) && !t.s.auto
    ensures taddr + |word| <= |old(t.s).mem| && t.s.mem == Put(old(t.s).mem, taddr, word)
  {
    hide RunN, Started, Over, StoreWord, AddiWord, Le, LeBytes, Words, Put, FromBytes, SetReg;
    ghost var s0, x, w := t.s, t.s.x, t.xlen / 8;
    MulOne(w);
    var prog := [StoreWord(t.xlen, S1, S0, 0), AddiWord(S0, S0, if t.xlen == 64 then 8 else 4), EBREAK];
    var data := Words(taddr, t.xlen);
    var command := Command(TRANSFER | WRITE, t.xlen, S0);
    StartedWrite(s0, t.xlen, false, S0, prog, taddr);
    ghost var s1 := Started(s0, t.xlen, command, prog, data);
    OverLoaded(s0.prog, prog);
    OverLoaded(s0.data, data);
    ReadyIsValid(s0, s1, t.xlen, taddr);
    RunNone(s1, t.xlen);
    SetS0(x, taddr);
    var out := RunAcOrDie(t, command, prog, data, 0);
    FirstWord(t, taddr, word, x);
  }

  lemma SetS0(x: seq<nat>, v: nat)
    requires |x| == 32
    ensures SetReg(x, 8, v) == x[8 := v] && SameBut(x[8 := v], x)
  {
  }

  /** The second command: the first word into S1, and the program stores it. */
  method FirstWord(t: Target, taddr: nat, word: seq<byte>, ghost x: seq<nat>)
    requires t.Ok() && Idle(t.s) && taddr % (t.xlen / 8) == 0 && taddr + t.xlen / 8 <= |t.s.mem| && |word| == t.xlen / 8
    requires |x| == 32 && t.s.x == x[8 := taddr] && Loaded(t.s, WriteProgram(t.xlen))
    modifies t
    ensures Writing(t.s, x, t.xlen, taddr, 1) && !t.s.auto
    ensures taddr + |word| <= |old(t.s).mem| && t.s.mem == Put(old(t.s).mem, taddr, word)
  {
    hide RunN, Started, Over, WriteProgram, Le, LeBytes, Words, Put, FromBytes;
    ghost var s0 := t.s;
    FromBytesWords(word, t.xlen);
    var data := FromBytes(word, t.xlen);
    var command := Command(TRANSFER | WRITE | POSTEXEC, t.xlen, S1);
    var none: seq<bv32> := [];
    StartedWrite(s0, t.xlen, true, S1, none, Le(word));
    NoProgram(s0);
    ghost var s1 := Started(s0, t.xlen, command, none, data);
    OverLoaded(s0.data, data);
    ReadyIsValid(s0, s1, t.xlen, Le(word));
    WritePass(s1, t.xlen, taddr);
    BytesOfLe(word);
    var out := RunAcOrDie(t, command, none, data, 3);
    MulOne(t.xlen / 8);
  }

  /** One round of the autoexec loop: writing the data words starts the store command again. */
  method WriteNext(t: Target, word: seq<byte>, ghost at: nat, ghost x: seq<nat>)
    requires |x| == 32 && Writing(t.s, x, t.xlen, at, 0) && t.s.auto && |word| == t.xlen / 8
    requires at % (t.xlen / 8) == 0 && at + t.xlen / 8 <= |t.s.mem|
    modifies t
    ensures Writing(t.s, x, t.xlen, at, 1) && t.s.auto
    ensures at + |word| <= |old(t.s).mem| && t.s.mem == Put(old(t.s).mem, at, word)
  {
    hide RunN, WriteProgram, Le, LeBytes, Words, Put, FromBytes, Exec, SameBut;
    ghost var s0 := t.s;
    FromBytesWords(word, t.xlen);
    var data := FromBytes(word, t.xlen);
    if t.xlen == 64 {
      t.WriteData(1, data[1]);
    }
    ghost var s1 := t.s.(data := t.s.data[0 := data[0]]);
    DataWords(s0, s1, t.xlen, Le(word));
    StorePass(s1, x, t.xlen, at, Le(word));
    BytesOfLe(word);
    t.WriteData(0, data[0]);
    ExecLength(s1, t.xlen);
    var cmderr := WaitNotBusy(t, 3);
    DieIf(t, cmderr);
  }

  lemma ExecLength(s: Dm, xlen: nat)
    requires Valid(s, xlen)
    ensures |Exec(s, xlen).x| == 32
  {
    hide DataValue, WithValue;
  }

  lemma DataWords(s: Dm, r: Dm, xlen: nat, v: nat)
    requires Valid(s, xlen) && v < Modulus(xlen)
    requires r == s.(data := if xlen == 64 then s.data[1 := Words(v, xlen)[1]][0 := Words(v, xlen)[0]]
      else s.data[0 := Words(v, xlen)[0]])
    ensures Valid(r, xlen) && DataValue(r.data, xlen) == v
  {
  }

  /** `write_chunk`: exactly the bytes of the chunk are stored; the registers are as before. */
  method WriteChunk(t: Target, taddr: nat, src: seq<byte>)
    requires t.Ok() && Idle(t.s.(halted := true)) && |t.s.prog| >= 3
    requires |src| > 0 && |src| % (t.xlen / 8) == 0 && taddr % (t.xlen / 8) == 0 && taddr + |src| <= |t.s.mem|
    modifies t
    ensures t.s.mem == Put(old(t.s.mem), taddr, src)
    ensures t.Ok() && t.s.x == old(t.s.x) && Idle(t.s.(halted := true)) && !t.s.halted
  {
    hide Put, SameBut, Modulus, WriteProgram;
    ghost var mem, x, w := t.s.mem, t.s.x, t.xlen / 8;
    var n := |src| / (t.xlen / 8);
    FirstFits(taddr, |src|, n, w, |mem|);
    var s0, s1 := Enter(t);
    StartWriting(t, taddr, src[..t.xlen / 8]);
    MulOne(w);
    var i := 1;
    while i < n
      invariant 1 <= i <= n && i * w <= |src| && |t.s.mem| == |mem| && Writing(t.s, x, t.xlen, taddr, i)
      invariant t.s.auto <==> i > 1
      invariant t.s.mem == Put(mem, taddr, src[..i * w])
    {
      RoundFits(taddr, |src|, n, w, i, |mem|);
      if i == 1 {
        t.WriteAuto(true);
      }
      var curr := i * (t.xlen / 8);
      NextWord(taddr, i - 1, w, |mem|, |mem|);
      WritingFrom(t.s, x, t.xlen, taddr, i, 0);
      WriteNext(t, src[curr..curr + t.xlen / 8], taddr + i * w, x);
      WritingFrom(t.s, x, t.xlen, taddr, i, 1);
      PutFurther(mem, taddr, src, i * w, w);
      i := i + 1;
    }
    assert src[..n * w] == src;
    if n > 1 {
      t.WriteAuto(false);
    }
    Leave(t, s0, s1, x);
  }

  lemma PutFurther(mem: seq<byte>, taddr: nat, src: seq<byte>, k: nat, w: nat)
    requires taddr + |src| <= |mem| && k + w <= |src|
    ensures Put(Put(mem, taddr, src[..k]), taddr + k, src[k..k + w]) == Put(mem, taddr, src[..k + w])
  {
    assert src[..k] + src[k..k + w] == src[..k + w];
  }

  // ---------------------------------------------------------------- clear_chunk

  /** A store to an array of the host; in C one behind its end goes elsewhere. */
  method HostStore<T>(a: array<T>, i: nat, v: T) returns (inside: bool)
    modifies a
    ensures inside <==> i < a.Length
    ensures inside ==> a[..] == old(a[..])[i := v]
  {
    inside := i < a.Length;
    if inside {
      a[i] := v;
    }
  }

  /** The two stores of an address to the host's data words: the second is made for every register width. */
  method HostWords(data: array<u32>, xlen: nat, v: nat) returns (inside: bool)
    requires v < Modulus(xlen) && data.Length >= 1
    modifies data
    ensures inside <==> data.Length >= 2
    ensures inside ==> data[..Cells(xlen)] == Words(v, xlen)
  {
    data[0] := v % 0x1_0000_0000;
    inside := HostStore(data, 1, v / 0x1_0000_0000 % 0x1_0000_0000);
  }

  /** The four stores of the clear loop. */
  method HostProgram(prog: array<bv32>, xlen: nat) returns (inside: bool)
    modifies prog
    ensures inside <==> prog.Length >= 4
    ensures inside ==> prog[..4] == ClearProgram(xlen)
  {
    hide StoreWord, AddiWord, BneWord;
    inside := HostStore(prog, 0, StoreWord(xlen, X0, S0, 0));
    if inside {
      inside := HostStore(prog, 1, AddiWord(S0, S0, if xlen == 64 then 8 else 4));
    }
    if inside {
      inside := HostStore(prog, 2, BneWord(S0, S1, 0, 8));
    }
    if inside {
      inside := HostStore(prog, 3, EBREAK);
    }
  }

  /**
   `clear_chunk`: the loop runs on the hart, ends, and has zeroed exactly the chunk. The host copies the
   words from arrays as long as the module's own registers; its stores stay inside them exactly when the
   module has two data words, whatever the register width, and four program words.
   */
  method ClearChunk(t: Target, taddr: nat, len: nat) returns (inside: bool)
    requires t.Ok() && Idle(t.s.(halted := true))
    requires len > 0 && len % (t.xlen / 8) == 0 && taddr % (t.xlen / 8) == 0 && taddr + len <= |t.s.mem|
    modifies t
    ensures inside <==> |old(t.s.data)| >= 2 && |old(t.s.prog)| >= 4
    ensures inside ==> t.s.mem == Put(old(t.s.mem), taddr, Zeros(len))
    ensures inside ==> t.Ok() && t.s.x == old(t.s.x) && Idle(t.s.(halted := true)) && !t.s.halted
  {
    hide Put, SameBut, Modulus, Zeros, ClearProgram, Words;
    var prog, data := new bv32[|t.s.prog|], new u32[|t.s.data|];
    ghost var x, n := t.s.x, len / (t.xlen / 8);
    FirstFits(taddr, len, n, t.xlen / 8, |t.s.mem|);
    var s0, s1 := Enter(t);
    inside := HostWords(data, t.xlen, taddr);
    if !inside {
      return;
    }
    RunAddress(t, data, taddr);
    inside := HostProgram(prog, t.xlen);
    if !inside {
      return;
    }
    ModulusPositive(t.xlen);
    inside := HostWords(data, t.xlen, (taddr + len) % Modulus(t.xlen));
    RunClear(t, prog, data, taddr, len, x);
    Leave(t, s0, s1, x);
  }

  /** On a 32-bit module with a single data word, which is all its registers need, a store leaves the array. */
  method ClearChunkStrays() returns (inside: bool, data_words: nat)
    ensures !inside && data_words == Cells(32) == 1
  {
    var t := new Target(32, Dm(seq(32, _ => 0), seq(16, _ => 0), seq(8, _ => EBREAK), [0], false, 0, 0, true, None));
    data_words := |t.s.data|;
    inside := ClearChunk(t, 0, 4);
  }

  /** The first command of `clear_chunk`: the address into S0. */
  method RunAddress(t: Target, data: array<u32>, taddr: nat)
    requires t.Ok() && Idle(t.s) && taddr < Modulus(t.xlen)
    requires Cells(t.xlen) <= data.Length == |t.s.data| && data[..Cells(t.xlen)] == Words(taddr, t.xlen)
    modifies t
    ensures t.Ok() && Idle(t.s)
      && t.s == old(t.s).(command := t.s.command, data := t.s.data, x := SetReg(old(t.s).x, 8, taddr))
    ensures |t.s.data| == |old(t.s).data|
  {
    hide WithValue, RunN, Started, Words;
    ghost var s0 := t.s;
    var command := Command(TRANSFER | WRITE, t.xlen, S0);
    StartedWrite(s0, t.xlen, false, S0, [], taddr);
    NoProgram(s0);
    RunNone(Started(s0, t.xlen, command, [], Words(taddr, t.xlen)), t.xlen);
    ReadyIsValid(s0, Started(s0, t.xlen, command, [], Words(taddr, t.xlen)), t.xlen, taddr);
    var out := RunAcOrDie(t, command, [], data[..Cells(t.xlen)], 0);
  }

  /** The second command of `clear_chunk`: the end address into S1, and the loop runs. */
  method RunClear(t: Target, prog: array<bv32>, data: array<u32>, taddr: nat, len: nat, ghost x: seq<nat>)
    requires t.Ok() && Idle(t.s) && |x| == 32 && t.s.x == x[8 := taddr]
    requires len > 0 && len % (t.xlen / 8) == 0 && taddr % (t.xlen / 8) == 0 && taddr + len <= |t.s.mem|
    requires 4 <= prog.Length == |t.s.prog| && prog[..4] == ClearProgram(t.xlen) && Modulus(t.xlen) > 0
    requires Cells(t.xlen) <= data.Length == |t.s.data|
      && data[..Cells(t.xlen)] == Words((taddr + len) % Modulus(t.xlen), t.xlen)
    modifies t
    ensures t.Ok() && Idle(t.s) && SameBut(t.s.x, x) && t.s.mem == Put(old(t.s.mem), taddr, Zeros(len))
  {
    hide RunN, Started, Over, ClearProgram, Words, Put, Zeros, LeBytes;
    ghost var s0, w, n := t.s, t.xlen / 8, len / (t.xlen / 8);
    FirstFits(taddr, len, n, w, |s0.mem|);
    ghost var end := (taddr + len) % Modulus(t.xlen);
    var command := Command(TRANSFER | WRITE | POSTEXEC, t.xlen, S1);
    StartedWrite(s0, t.xlen, true, S1, prog[..4], end);
    ghost var s1 := Started(s0, t.xlen, command, prog[..4], Words(end, t.xlen));
    OverLoaded(s0.prog, prog[..4]);
    OverLoaded(s0.data, Words(end, t.xlen));
    ReadyIsValid(s0, s1, t.xlen, end);
    ClearLoop(s1, t.xlen, taddr, n);
    var out := RunAcOrDie(t, command, prog[..4], data[..Cells(t.xlen)], 3 * n + 1);
  }
}
