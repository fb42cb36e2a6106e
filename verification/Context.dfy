/** fesvr/context.cc, the pthread variant: coroutines built from threads that hand a token to each other. */
module Contexts {
  /**
   Where a thread stands. Every source statement that touches shared state is one step, and the steps of
   different threads interleave freely. Thread `t` is the one whose `cur` is context `t`.
   */
  datatype Point =
    | Unborn      // the context has no thread yet
    | Client      // running client code
    | Finished    // the thread function has returned
    | ClearOwn    // switch_to: cur->flag = 0
    | SetFlag     //            this->flag = 1
    | LockOther   //            lock this->mutex
    | Signal      //            signal this->cond
    | UnlockOther //            unlock this->mutex
    | LockOwn     //            lock cur->mutex
    | Test        // the loop test `!flag`, own mutex held
    | Blocked     // inside pthread_cond_wait, own mutex released
    | Woken       // woken up, own mutex not yet re-acquired
    | UnlockOwn
    | InitLock    // init: lock creator->mutex
    | InitClear   //       creator->flag = 0
    | InitCreate  //       pthread_create; the wait that follows is the one of switch_to

  datatype Owner = Free | By(thread: nat)

  /** `other[t]` is the context thread `t` is switching to or initializing. */
  datatype State = State(at: seq<Point>, other: seq<nat>, flag: seq<bool>, mutex: seq<Owner>)

  datatype Act = Run | Spurious | SwitchTo(target: nat) | Start(created: nat) | Return

  ghost predicate Shape(s: State) {
    && |s.at| == |s.other| == |s.flag| == |s.mutex| > 0
    && forall t :: 0 <= t < |s.other| ==> s.other[t] < |s.at|
  }

  /** One thread in client code, no other context started. */
  ghost predicate Initial(s: State) {
    && Shape(s) && s.at[0] == Client && s.flag[0]
    && (forall t :: 1 <= t < |s.at| ==> s.at[t] == Unborn && !s.flag[t])
    && (forall m :: 0 <= m < |s.mutex| ==> s.mutex[m] == Free)
  }

  /** The thread exists and has not finished: something the client may switch to. */
  predicate Alive(p: Point) { p != Unborn && p != Finished }

  /** Whether thread `t` can take the step: locks wait, clients switch only to live contexts other than their own. */
  ghost predicate Enabled(s: State, t: nat, a: Act)
    requires Shape(s) && t < |s.at|
  {
    match s.at[t]
    case Unborn => false
    case Finished => false
    case Client =>
      (match a
       case SwitchTo(u) => u < |s.at| && u != t && Alive(s.at[u])
       case Start(u) => u < |s.at| && s.at[u] == Unborn
       case Return => true
       case _ => false)
    case LockOther => a == Run && s.mutex[s.other[t]] == Free
    case LockOwn => a == Run && s.mutex[t] == Free
    case Woken => a == Run && s.mutex[t] == Free
    case InitLock => a == Run && s.mutex[t] == Free
    case Blocked => a == Spurious
    case _ => a == Run
  }

  function At(s: State, t: nat, p: Point): State
    requires t < |s.at|
  {
    s.(at := s.at[t := p])
  }

  /** The state after the step. */
  ghost function Next(s: State, t: nat, a: Act): (r: State)
    requires Shape(s) && t < |s.at| && Enabled(s, t, a)
    ensures Shape(r) && |r.at| == |s.at|
  {
    var u := s.other[t];
    match s.at[t]
    case Client =>
      if a.SwitchTo? then At(s, t, ClearOwn).(other := s.other[t := a.target])
      else if a.Start? then At(s, t, InitLock).(other := s.other[t := a.created])
      else At(s, t, Finished)
    case ClearOwn => At(s, t, SetFlag).(flag := s.flag[t := false])
    case SetFlag => At(s, t, LockOther).(flag := s.flag[u := true])
    case LockOther => At(s, t, Signal).(mutex := s.mutex[u := By(t)])
    case Signal => At(if s.at[u] == Blocked then At(s, u, Woken) else s, t, UnlockOther)
    case UnlockOther => At(s, t, LockOwn).(mutex := s.mutex[u := Free])
    case LockOwn => At(s, t, Test).(mutex := s.mutex[t := By(t)])
    case Test => if s.flag[t] then At(s, t, UnlockOwn) else At(s, t, Blocked).(mutex := s.mutex[t := Free])
    case Blocked => At(s, t, Woken)
    case Woken => At(s, t, Test).(mutex := s.mutex[t := By(t)])
    case UnlockOwn => At(s, t, Client).(mutex := s.mutex[t := Free])
    case InitLock => At(s, t, InitClear).(mutex := s.mutex[t := By(t)])
    case InitClear => At(s, t, InitCreate).(flag := s.flag[t := false])
    case InitCreate => At(At(s, u, ClearOwn), t, Test).(other := s.other[u := t])
  }

  /** Where thread `t` is after its step. */
  ghost function Moved(s: State, t: nat, a: Act): Point
    requires Shape(s) && t < |s.at|
  {
    match s.at[t]
    case Client => if a.SwitchTo? then ClearOwn else if a.Start? then InitLock else Finished
    case ClearOwn => SetFlag
    case SetFlag => LockOther
    case LockOther => Signal
    case Signal => UnlockOther
    case UnlockOther => LockOwn
    case LockOwn => Test
    case Test => if s.flag[t] then UnlockOwn else Blocked
    case Blocked => Woken
    case Woken => Test
    case UnlockOwn => Client
    case InitLock => InitClear
    case InitClear => InitCreate
    case InitCreate => Test
    case p => p
  }

  /** The step, seen at one thread. */
  lemma NextAt(s: State, t: nat, a: Act, v: nat)
    requires Shape(s) && t < |s.at| && v < |s.at| && Enabled(s, t, a)
      && (s.at[t] == Signal || s.at[t] == InitCreate ==> s.other[t] != t)
    ensures var r, p, u := Next(s, t, a), s.at[t], s.other[t];
      && r.at[v] == (if v == t then Moved(s, t, a)
                     else if p == Signal && v == u && s.at[v] == Blocked then Woken
                     else if p == InitCreate && v == u then ClearOwn
                     else s.at[v])
      && r.flag[v] == (if v == t && (p == ClearOwn || p == InitClear) then false
                       else if v == u && p == SetFlag then true else s.flag[v])
      && r.other[v] == (if v == t && p == Client
                        then (if a.SwitchTo? then a.target else if a.Start? then a.created else s.other[v])
                        else if v == u && p == InitCreate then t else s.other[v])
  {
  }

  /** The step, seen at one mutex. */
  lemma NextMutex(s: State, t: nat, a: Act, m: nat)
    requires Shape(s) && t < |s.at| && m < |s.mutex| && Enabled(s, t, a)
    ensures var r, p, u := Next(s, t, a), s.at[t], s.other[t];
      r.mutex[m] ==
        if m == u && p == LockOther then By(t)
        else if m == u && p == UnlockOther then Free
        else if m == t && (p == LockOwn || p == Woken || p == InitLock) then By(t)
        else if m == t && (p == UnlockOwn || (p == Test && !s.flag[t])) then Free
        else s.mutex[m]
  {
  }

  // ---------------------------------------------------------------- the invariant

  /** Holding the token while running. */
  predicate Active(p: Point) {
    p == Client || p == ClearOwn || p == SetFlag || p == UnlockOwn || p == InitLock || p == InitClear || p == InitCreate
  }

  /** Between giving the token away and seeing it again. */
  predicate Passive(p: Point) {
    p == LockOther || p == Signal || p == UnlockOther || p == LockOwn || p == Test || p == Blocked || p == Woken
  }

  /** Thread `t` holds mutex `m`. */
  predicate Holds(p: Point, other: nat, t: nat, m: nat) {
    ((p == Signal || p == UnlockOther) && other == m)
    || ((p == Test || p == UnlockOwn || p == InitClear || p == InitCreate) && t == m)
  }

  /** Switching threads have another, live thread as target; initializing ones an unborn context. */
  ghost predicate Local(s: State, t: nat)
    requires Shape(s) && t < |s.at|
  {
    var p, u := s.at[t], s.other[t];
    && (p == ClearOwn || p == SetFlag ==> u != t && Passive(s.at[u]))
    && (p == LockOther || p == Signal || p == UnlockOther ==> u != t)
    && (p == InitLock || p == InitClear || p == InitCreate ==> u != t && s.at[u] == Unborn)
    && (p == SetFlag || p == InitCreate || p == Unborn ==> !s.flag[t])
  }

  /** One thread has the token: it runs, or its flag is set and it is on its way back, or it is lost by returning. */
  ghost predicate TokenAt(s: State, token: nat)
    requires Shape(s)
  {
    && token < |s.at|
    && (Active(s.at[token]) || (Passive(s.at[token]) && s.flag[token]) || s.at[token] == Finished)
    && (forall t :: 0 <= t < |s.at| && t != token ==> !Active(s.at[t]) && (Passive(s.at[t]) ==> !s.flag[t]))
  }

  /** A mutex is owned by thread `t` exactly when the thread's position says so. */
  ghost predicate MutexRight(s: State, t: nat, m: nat)
    requires Shape(s) && t < |s.at| && m < |s.mutex|
  {
    s.mutex[m] == By(t) <==> Holds(s.at[t], s.other[t], t, m)
  }

  ghost predicate MutexesRight(s: State)
    requires Shape(s)
  {
    && (forall m :: 0 <= m < |s.mutex| && s.mutex[m].By? ==> s.mutex[m].thread < |s.at|)
    && (forall t, m :: 0 <= t < |s.at| && 0 <= m < |s.mutex| ==> MutexRight(s, t, m))
  }

  /** Thread `t` is about to signal `u`. */
  predicate WillSignal(s: State, t: nat, u: nat)
    requires t < |s.at| && t < |s.other|
  {
    (s.at[t] == LockOther || s.at[t] == Signal) && s.other[t] == u
  }

  /** A blocked thread whose flag is set still has its signal coming. */
  ghost predicate NoLostWakeup(s: State)
    requires Shape(s)
  {
    forall u :: 0 <= u < |s.at| && s.at[u] == Blocked && s.flag[u] ==>
      exists t :: 0 <= t < |s.at| && WillSignal(s, t, u)
  }

  ghost predicate AllLocal(s: State)
    requires Shape(s)
  {
    forall t :: 0 <= t < |s.at| ==> Local(s, t)
  }

  ghost predicate Good(s: State, token: nat) {
    Shape(s) && AllLocal(s) && TokenAt(s, token) && MutexesRight(s) && NoLostWakeup(s)
  }

  lemma InitialGood(s: State)
    requires Initial(s)
    ensures Good(s, 0)
  {
  }

  /** Where the token is after the step. */
  ghost function TokenAfter(s: State, t: nat, token: nat): nat
    requires Shape(s) && t < |s.at|
  {
    if s.at[t] == SetFlag || s.at[t] == InitCreate then s.other[t] else token
  }

  lemma StepToken(s: State, t: nat, a: Act, token: nat)
    requires Good(s, token) && t < |s.at| && Enabled(s, t, a)
    ensures TokenAt(Next(s, t, a), TokenAfter(s, t, token))
  {
    hide MutexesRight, NoLostWakeup, AllLocal, Next, Enabled;
    OneLocal(s, t);
    var r, k := Next(s, t, a), TokenAfter(s, t, token);
    NextAt(s, t, a, k);
    TokenStays(s, t, a, token);
    forall v | 0 <= v < |r.at| && v != k ensures !Active(r.at[v]) && (Passive(r.at[v]) ==> !r.flag[v]) {
      NextAt(s, t, a, v);
      TokenElsewhere(s, t, a, token, v);
    }
  }

  lemma TokenStays(s: State, t: nat, a: Act, token: nat)
    requires Good(s, token) && t < |s.at| && Enabled(s, t, a)
    ensures var r, k := Next(s, t, a), TokenAfter(s, t, token);
      k < |r.at| && (Active(r.at[k]) || (Passive(r.at[k]) && r.flag[k]) || r.at[k] == Finished)
  {
    hide MutexesRight, NoLostWakeup, AllLocal, Next;
    OneLocal(s, t);
    NextAt(s, t, a, TokenAfter(s, t, token));
  }

  lemma TokenElsewhere(s: State, t: nat, a: Act, token: nat, v: nat)
    requires Good(s, token) && t < |s.at| && v < |s.at| && Enabled(s, t, a) && v != TokenAfter(s, t, token)
    ensures var r := Next(s, t, a); !Active(r.at[v]) && (Passive(r.at[v]) ==> !r.flag[v])
  {
    hide MutexesRight, NoLostWakeup, AllLocal, Next;
    OneLocal(s, t);
    OneLocal(s, v);
    NextAt(s, t, a, v);
  }

  lemma LocalClient(s: State, t: nat, a: Act, token: nat)
    requires Good(s, token) && t < |s.at| && s.at[t] == Client && Enabled(s, t, a)
    ensures Local(Next(s, t, a), t)
  {
    hide MutexesRight, NoLostWakeup, AllLocal, Next;
    NextAt(s, t, a, t);
    NextAt(s, t, a, Next(s, t, a).other[t]);
    if a.SwitchTo? || a.Start? {
      OneLocal(s, Next(s, t, a).other[t]);
    }
  }

  lemma LocalSelf(s: State, t: nat, a: Act, token: nat)
    requires Good(s, token) && t < |s.at| && s.at[t] != Client && Enabled(s, t, a)
    ensures Local(Next(s, t, a), t)
  {
    hide MutexesRight, NoLostWakeup, AllLocal, Next, TokenAt;
    OneLocal(s, t);
    NextAt(s, t, a, t);
    NextAt(s, t, a, Next(s, t, a).other[t]);
  }

  lemma LocalOther(s: State, t: nat, a: Act, token: nat, v: nat)
    requires Good(s, token) && t < |s.at| && v < |s.at| && Enabled(s, t, a) && v != t
    ensures Local(Next(s, t, a), v)
  {
    hide MutexesRight, NoLostWakeup, AllLocal, Next, Enabled;
    OneLocal(s, t);
    OneLocal(s, v);
    NextAt(s, t, a, v);
    NextAt(s, t, a, Next(s, t, a).other[v]);
    StaysThere(s, t, a, token, s.other[v]);
  }

  /** Contexts are born only by creation, and passive threads leave the loop only with the token. */
  lemma StaysThere(s: State, t: nat, a: Act, token: nat, w: nat)
    requires Good(s, token) && t < |s.at| && w < |s.at| && Enabled(s, t, a)
    ensures Passive(s.at[w]) && w != token ==> Passive(Next(s, t, a).at[w])
    ensures s.at[w] == Unborn && t == token ==>
      Next(s, t, a).at[w] == Unborn || (s.at[t] == InitCreate && s.other[t] == w)
    ensures s.at[w] == Unborn && t != token ==> Next(s, t, a).at[w] == Unborn
  {
    hide MutexesRight, NoLostWakeup, AllLocal, Next;
    OneLocal(s, t);
    NextAt(s, t, a, w);
  }

  lemma StepLocal(s: State, t: nat, a: Act, token: nat, v: nat)
    requires Good(s, token) && t < |s.at| && v < |s.at| && Enabled(s, t, a)
    ensures Local(Next(s, t, a), v)
  {
    hide Good, Next, Enabled, Local;
    if v == t && s.at[t] == Client {
      LocalClient(s, t, a, token);
    } else if v == t {
      LocalSelf(s, t, a, token);
    } else {
      LocalOther(s, t, a, token, v);
    }
  }

  lemma StepMutex(s: State, t: nat, a: Act, v: nat, m: nat)
    requires Shape(s) && t < |s.at| && v < |s.at| && m < |s.mutex| && Enabled(s, t, a)
    requires Local(s, t) && MutexRight(s, v, m) && MutexRight(s, t, m)
    ensures MutexRight(Next(s, t, a), v, m)
  {
    hide Next;
    NextAt(s, t, a, v);
    NextMutex(s, t, a, m);
  }

  lemma StepMutexes(s: State, t: nat, a: Act, token: nat)
    requires Good(s, token) && t < |s.at| && Enabled(s, t, a)
    ensures MutexesRight(Next(s, t, a))
  {
    hide NoLostWakeup, AllLocal, TokenAt, MutexRight, Next, Enabled;
    OneLocal(s, t);
    var r := Next(s, t, a);
    forall v, m | 0 <= v < |r.at| && 0 <= m < |r.mutex| ensures MutexRight(r, v, m) {
      assert MutexRight(s, v, m) && MutexRight(s, t, m);
      StepMutex(s, t, a, v, m);
    }
    forall m | 0 <= m < |r.mutex| && r.mutex[m].By? ensures r.mutex[m].thread < |r.at| {
      NextMutex(s, t, a, m);
    }
  }

  lemma OneLocal(s: State, t: nat)
    requires Shape(s) && AllLocal(s) && t < |s.at|
    ensures Local(s, t)
  {
  }

  lemma StepWakeups(s: State, t: nat, a: Act, token: nat)
    requires Good(s, token) && t < |s.at| && Enabled(s, t, a)
    ensures NoLostWakeup(Next(s, t, a))
  {
    hide MutexesRight, AllLocal, TokenAt, Next, Enabled;
    var r := Next(s, t, a);
    OneLocal(s, t);
    NextAt(s, t, a, t);
    forall u | 0 <= u < |r.at| && r.at[u] == Blocked && r.flag[u]
      ensures exists v :: 0 <= v < |r.at| && WillSignal(r, v, u)
    {
      NextAt(s, t, a, u);
      if s.at[t] == SetFlag && s.other[t] == u {
        assert WillSignal(r, t, u);
      } else {
        var v :| 0 <= v < |s.at| && WillSignal(s, v, u);
        NextAt(s, t, a, v);
        assert WillSignal(r, v, u);
      }
    }
  }

  /** Every step of every thread keeps the invariant. */
  lemma StepGood(s: State, t: nat, a: Act, token: nat)
    requires Good(s, token) && t < |s.at| && Enabled(s, t, a)
    ensures Good(Next(s, t, a), TokenAfter(s, t, token))
  {
    hide Enabled, Next, Local, TokenAt, MutexesRight, NoLostWakeup, TokenAfter;
    StepToken(s, t, a, token);
    forall v | 0 <= v < |s.at| ensures Local(Next(s, t, a), v) {
      StepLocal(s, t, a, token, v);
    }
    StepMutexes(s, t, a, token);
    StepWakeups(s, t, a, token);
  }

  // ---------------------------------------------------------------- runs

  datatype Move = Move(thread: nat, act: Act)

  /** `run` is a sequence of states, each reached from the one before by an enabled step of some thread. */
  ghost predicate Linked(run: seq<State>, moves: seq<Move>) {
    && |run| == |moves| + 1 && (forall i :: 0 <= i < |run| ==> Shape(run[i]))
    && forall i :: 0 <= i < |moves| ==>
         moves[i].thread < |run[i].at| && Enabled(run[i], moves[i].thread, moves[i].act)
         && run[i + 1] == Next(run[i], moves[i].thread, moves[i].act)
  }

  lemma {:induction false} RunGood(run: seq<State>, moves: seq<Move>, i: nat) returns (token: nat)
    requires Linked(run, moves) && Initial(run[0]) && i < |run|
    ensures Good(run[i], token)
  {
    hide Enabled, Next, Good, Initial;
    if i == 0 {
      InitialGood(run[0]);
      token := 0;
    } else {
      token := RunGood(run, moves, i - 1);
      StepGood(run[i - 1], moves[i - 1].thread, moves[i - 1].act, token);
      token := TokenAfter(run[i - 1], moves[i - 1].thread, token);
    }
  }

  /**
   In every interleaving at most one thread is in client code, and a thread blocked in its condition
   wait with its flag set still has a thread about to signal it.
   */
  lemma HandOffSafety(run: seq<State>, moves: seq<Move>, i: nat, t: nat, u: nat)
    requires Linked(run, moves) && Initial(run[0]) && i < |run| && t < |run[i].at| && u < |run[i].at|
    ensures run[i].at[t] == Client && run[i].at[u] == Client ==> t == u
    ensures NoLostWakeup(run[i])
  {
    hide Enabled, Next, Initial, MutexesRight, NoLostWakeup, AllLocal, Linked;
    assert Shape(run[i]) by { LinkedShape(run, moves, i); }
    var token := RunGood(run, moves, i);
  }

  lemma LinkedShape(run: seq<State>, moves: seq<Move>, i: nat)
    requires Linked(run, moves) && i < |run|
    ensures Shape(run[i])
  {
    hide Enabled, Next;
  }

  // ---------------------------------------------------------------- progress

  /** A bound on the steps a thread can take, and cause, before it blocks or reaches the client. */
  function Weight(p: Point): nat {
    match p
    case InitLock => 16
    case InitClear => 15
    case InitCreate => 14
    case ClearOwn => 11
    case SetFlag => 10
    case LockOther => 9
    case Signal => 8
    case UnlockOther => 4
    case LockOwn => 3
    case Woken => 3
    case Test => 2
    case UnlockOwn => 1
    case _ => 0
  }

  function Total(at: seq<Point>): nat {
    if at == [] then 0 else Total(at[..|at| - 1]) + Weight(at[|at| - 1])
  }

  lemma {:induction false} TotalSet(at: seq<Point>, i: nat, p: Point)
    requires i < |at|
    ensures Total(at[i := p]) == Total(at) - Weight(at[i]) + Weight(p)
  {
    hide Weight;
    var n := |at| - 1;
    if i == n {
      assert at[i := p][..n] == at[..n];
    } else {
      assert at[i := p][..n] == at[..n][i := p];
      TotalSet(at[..n], i, p);
    }
  }

  /** Every step outside client code, other than a spurious wake-up, comes nearer to the hand-off's end. */
  lemma StepRanks(s: State, t: nat, token: nat)
    requires Good(s, token) && t < |s.at| && s.at[t] != Client && Enabled(s, t, Run)
    ensures Total(Next(s, t, Run).at) < Total(s.at)
  {
    hide MutexesRight, NoLostWakeup, AllLocal, TokenAt, Total;
    OneLocal(s, t);
    var u := s.other[t];
    if s.at[t] == Signal && s.at[u] == Blocked {
      TotalSet(s.at, u, Woken);
      TotalSet(s.at[u := Woken], t, UnlockOther);
    } else if s.at[t] == InitCreate {
      TotalSet(s.at, u, ClearOwn);
      TotalSet(s.at[u := ClearOwn], t, Test);
    } else {
      TotalSet(s.at, t, Moved(s, t, Run));
      OneMoves(s, t);
    }
  }

  lemma OneMoves(s: State, t: nat)
    requires Shape(s) && t < |s.at| && s.at[t] != Client && Enabled(s, t, Run) && s.at[t] != InitCreate
    requires s.at[t] == Signal ==> s.at[s.other[t]] != Blocked
    ensures Next(s, t, Run).at == s.at[t := Moved(s, t, Run)]
  {
  }

  /** Without spurious wake-ups and client steps a run ends after at most `Total` steps. */
  lemma {:induction false} HandOffEnds(run: seq<State>, moves: seq<Move>, token: nat)
    requires Linked(run, moves) && Good(run[0], token)
    requires forall i :: 0 <= i < |moves| ==> moves[i].act == Run && run[i].at[moves[i].thread] != Client
    ensures |moves| <= Total(run[0].at)
    decreases |moves|
  {
    hide Enabled, Next, Good, Total;
    if moves != [] {
      StepGood(run[0], moves[0].thread, Run, token);
      StepRanks(run[0], moves[0].thread, token);
      assert Linked(run[1..], moves[1..]);
      HandOffEnds(run[1..], moves[1..], TokenAfter(run[0], moves[0].thread, token));
    }
  }

  /** Thread `t` can go on without the client. */
  ghost predicate CanRun(s: State, t: nat)
    requires Shape(s)
  {
    t < |s.at| && s.at[t] != Client && Enabled(s, t, Run)
  }

  /** If mutex `m` is taken and its context's thread is not the token holder in client code, its owner can go on. */
  lemma OwnerRuns(s: State, token: nat, m: nat)
    requires Good(s, token) && m < |s.mutex| && s.mutex[m] != Free
    ensures CanRun(s, s.mutex[m].thread)
  {
    hide NoLostWakeup, AllLocal, TokenAt;
    assert MutexRight(s, s.mutex[m].thread, m);
  }

  /** No deadlock: unless the token holder is in client code or has returned, some thread can go on. */
  lemma SomeoneRuns(s: State, token: nat) returns (t: nat)
    requires Good(s, token) && s.at[token] != Client && s.at[token] != Finished
    ensures CanRun(s, t)
  {
    hide MutexesRight, AllLocal;
    t := token;
    if s.at[token] == Blocked {
      t :| 0 <= t < |s.at| && WillSignal(s, t, token);
    }
    var m := if s.at[t] == LockOther then s.other[t] else t;
    if (s.at[t] == LockOther || s.at[t] == LockOwn || s.at[t] == Woken || s.at[t] == InitLock) && s.mutex[m] != Free {
      OwnerRuns(s, token, m);
      t := s.mutex[m].thread;
    }
  }

  // ---------------------------------------------------------------- where a hand-off ends

  /** No thread can go on without the client. */
  ghost predicate Quiet(s: State)
    requires Shape(s)
  {
    forall v :: 0 <= v < |s.at| ==> !CanRun(s, v)
  }

  /** From move `k` on no client code runs and no wake-up is spurious. */
  ghost predicate WithoutClient(run: seq<State>, moves: seq<Move>, k: nat)
    requires Linked(run, moves)
  {
    forall i :: k <= i < |moves| ==> moves[i].act == Run && run[i].at[moves[i].thread] != Client
  }

  /** Then every thread but the token holder, which is in client code or has returned, waits for its wake-up. */
  lemma QuietWaits(s: State, token: nat, v: nat)
    requires Good(s, token) && Quiet(s) && v < |s.at|
    ensures s.at[token] == Client || s.at[token] == Finished
    ensures v != token && Alive(s.at[v]) ==> s.at[v] == Blocked
  {
    hide MutexesRight, AllLocal, NoLostWakeup, Enabled;
    if s.at[token] != Client && s.at[token] != Finished {
      var t := SomeoneRuns(s, token);
    }
    if v != token && Alive(s.at[v]) && s.at[v] != Blocked {
      assert Passive(s.at[v]);
      var m := if s.at[v] == LockOther then s.other[v] else v;
      if s.mutex[m] != Free {
        OwnerRuns(s, token, m);
      } else {
        FreeRuns(s, v);
      }
    }
  }

  /** A thread on its way that does not wait for its wake-up or a lock can go on. */
  lemma FreeRuns(s: State, v: nat)
    requires Shape(s) && v < |s.at| && Passive(s.at[v]) && s.at[v] != Blocked
    requires s.mutex[if s.at[v] == LockOther then s.other[v] else v] == Free
    ensures CanRun(s, v)
  {
  }

  /** The token is on its way to `u`, or `u` has it and comes back to client code. */
  ghost predicate Handing(s: State, token: nat, u: nat) {
    && Good(s, token) && u < |s.at|
    && (((s.at[token] == ClearOwn || s.at[token] == SetFlag) && s.other[token] == u)
        || (token == u && (Passive(s.at[u]) || s.at[u] == UnlockOwn || s.at[u] == Client)))
  }

  lemma StepHanding(s: State, t: nat, token: nat, u: nat)
    requires Handing(s, token, u) && t < |s.at| && s.at[t] != Client && Enabled(s, t, Run)
    ensures Handing(Next(s, t, Run), TokenAfter(s, t, token), u)
  {
    hide MutexesRight, AllLocal, NoLostWakeup, Next, Enabled;
    StepGood(s, t, Run, token);
    OneLocal(s, t);
    NextAt(s, t, Run, token);
    NextAt(s, t, Run, u);
    NotActive(s, token, t);
    StaysThere(s, t, Run, token, u);
  }

  lemma NotActive(s: State, token: nat, t: nat)
    requires Good(s, token) && t < |s.at|
    ensures Shape(s) && token < |s.at| && (t != token ==> !Active(s.at[t]) && (Passive(s.at[t]) ==> !s.flag[t]))
  {
  }

  lemma {:induction false} RunHanding(run: seq<State>, moves: seq<Move>, token: nat, u: nat) returns (last: nat)
    requires Linked(run, moves) && Handing(run[0], token, u) && WithoutClient(run, moves, 0)
    ensures Handing(run[|moves|], last, u)
    decreases |moves|
  {
    hide Enabled, Next, Handing;
    last := token;
    if moves != [] {
      StepHanding(run[0], moves[0].thread, token, u);
      LinkedRest(run, moves);
      last := RunHanding(run[1..], moves[1..], TokenAfter(run[0], moves[0].thread, token), u);
    }
  }

  lemma LinkedRest(run: seq<State>, moves: seq<Move>)
    requires Linked(run, moves) && moves != []
    ensures Linked(run[1..], moves[1..])
    ensures forall k: nat :: WithoutClient(run, moves, k + 1) ==> WithoutClient(run[1..], moves[1..], k)
  {
    hide Enabled, Next;
  }

  /**
   `switch_to`: when the thread in client code switches to `u` and the threads then run until none can go on, `u` is in
   client code and every other live thread waits for its wake-up.
   */
  lemma SwitchArrives(run: seq<State>, moves: seq<Move>, t: nat, u: nat, v: nat)
    requires Linked(run, moves) && moves != [] && Good(run[0], t) && run[0].at[t] == Client
    requires moves[0] == Move(t, SwitchTo(u)) && WithoutClient(run, moves, 1) && Quiet(run[|moves|])
    requires v < |run[|moves|].at|
    ensures u < |run[|moves|].at| && run[|moves|].at[u] == Client
    ensures v != u && Alive(run[|moves|].at[v]) ==> run[|moves|].at[v] == Blocked
  {
    hide MutexesRight, AllLocal, NoLostWakeup, Next, Quiet;
    var s := run[0];
    StepGood(s, t, SwitchTo(u), t);
    NextAt(s, t, SwitchTo(u), t);
    LinkedRest(run, moves);
    assert Handing(run[1], t, u);
    var last := RunHanding(run[1..], moves[1..], t, u);
    QuietWaits(run[|moves|], last, v);
  }

  /** `t` is starting context `u`. */
  predicate Creating(s: State, token: nat, t: nat, u: nat)
    requires t < |s.at| && t < |s.other|
  {
    token == t && (s.at[t] == InitLock || s.at[t] == InitClear || s.at[t] == InitCreate) && s.other[t] == u
  }

  /** The new thread hands the token back. */
  predicate Answering(s: State, token: nat, t: nat, u: nat)
    requires t < |s.at| && u < |s.at| && u < |s.other|
  {
    token == u && (s.at[u] == ClearOwn || s.at[u] == SetFlag) && s.other[u] == t && Passive(s.at[t])
  }

  /** `t` has it back, and the new thread waits for its turn. */
  predicate Started(s: State, token: nat, t: nat, u: nat)
    requires t < |s.at| && u < |s.at|
  {
    token == t && (Passive(s.at[t]) || s.at[t] == UnlockOwn || s.at[t] == Client) && Passive(s.at[u])
  }

  ghost predicate Starting(s: State, token: nat, t: nat, u: nat) {
    && Good(s, token) && t < |s.at| && u < |s.at| && t != u
    && (Creating(s, token, t, u) || Answering(s, token, t, u) || Started(s, token, t, u))
  }

  lemma StepCreating(s: State, m: nat, t: nat, u: nat)
    requires Good(s, t) && t < |s.at| && u < |s.at| && t != u && Creating(s, t, t, u)
    requires m < |s.at| && Enabled(s, m, Run)
    ensures var r, k := Next(s, m, Run), TokenAfter(s, m, t); Creating(r, k, t, u) || Answering(r, k, t, u)
  {
    hide Good, Next, Enabled;
    GoodShape(s, t);
    GoodLocal(s, t, m);
    NextAt(s, m, Run, t);
    NextAt(s, m, Run, u);
    NotActive(s, t, m);
  }

  lemma StepAnswering(s: State, m: nat, t: nat, u: nat)
    requires Good(s, u) && t < |s.at| && u < |s.at| && t != u && Answering(s, u, t, u)
    requires m < |s.at| && Enabled(s, m, Run)
    ensures var r, k := Next(s, m, Run), TokenAfter(s, m, u); Answering(r, k, t, u) || Started(r, k, t, u)
  {
    hide Good, Next, Enabled;
    GoodShape(s, u);
    GoodLocal(s, u, m);
    NextAt(s, m, Run, t);
    NextAt(s, m, Run, u);
    NotActive(s, u, m);
    StaysThere(s, m, Run, u, t);
  }

  lemma StepStarted(s: State, m: nat, t: nat, u: nat)
    requires Good(s, t) && t < |s.at| && u < |s.at| && t != u && Started(s, t, t, u)
    requires m < |s.at| && s.at[m] != Client && Enabled(s, m, Run)
    ensures Started(Next(s, m, Run), TokenAfter(s, m, t), t, u)
  {
    hide Good, Next, Enabled;
    GoodShape(s, t);
    GoodLocal(s, t, m);
    NextAt(s, m, Run, t);
    NextAt(s, m, Run, u);
    NotActive(s, t, m);
    StaysThere(s, m, Run, t, u);
  }

  lemma GoodShape(s: State, token: nat)
    requires Good(s, token)
    ensures Shape(s) && token < |s.at|
  {
  }

  lemma GoodLocal(s: State, token: nat, t: nat)
    requires Good(s, token) && t < |s.at|
    ensures Shape(s) && Local(s, t)
  {
  }

  lemma StepStarting(s: State, m: nat, token: nat, t: nat, u: nat)
    requires Starting(s, token, t, u) && m < |s.at| && s.at[m] != Client && Enabled(s, m, Run)
    ensures Starting(Next(s, m, Run), TokenAfter(s, m, token), t, u)
  {
    hide Good, Next, Enabled, Creating, Answering, Started;
    GoodShape(s, token);
    StepGood(s, m, Run, token);
    if Creating(s, token, t, u) {
      CreatorHas(s, token, t, u);
      StepCreating(s, m, t, u);
    } else if Answering(s, token, t, u) {
      NewHas(s, token, t, u);
      StepAnswering(s, m, t, u);
    } else {
      BackHas(s, token, t, u);
      StepStarted(s, m, t, u);
    }
  }

  lemma CreatorHas(s: State, token: nat, t: nat, u: nat)
    requires t < |s.at| && t < |s.other| && Creating(s, token, t, u)
    ensures token == t
  {
  }

  lemma NewHas(s: State, token: nat, t: nat, u: nat)
    requires t < |s.at| && u < |s.at| && u < |s.other| && Answering(s, token, t, u)
    ensures token == u
  {
  }

  lemma BackHas(s: State, token: nat, t: nat, u: nat)
    requires t < |s.at| && u < |s.at| && Started(s, token, t, u)
    ensures token == t
  {
  }

  lemma {:induction false} RunStarting(run: seq<State>, moves: seq<Move>, token: nat, t: nat, u: nat)
    returns (last: nat)
    requires Linked(run, moves) && Starting(run[0], token, t, u) && WithoutClient(run, moves, 0)
    ensures Starting(run[|moves|], last, t, u)
    decreases |moves|
  {
    hide Enabled, Next, Starting;
    last := token;
    if moves != [] {
      StepStarting(run[0], moves[0].thread, token, t, u);
      LinkedRest(run, moves);
      last := RunStarting(run[1..], moves[1..], TokenAfter(run[0], moves[0].thread, token), t, u);
    }
  }

  /**
   `init`: when the thread in client code starts context `u` and the threads then run until none can go on, it is back
   in client code, and the new thread and every other live one wait for their wake-up.
   */
  lemma StartReturns(run: seq<State>, moves: seq<Move>, t: nat, u: nat, v: nat)
    requires Linked(run, moves) && moves != [] && Good(run[0], t) && run[0].at[t] == Client
    requires moves[0] == Move(t, Start(u)) && WithoutClient(run, moves, 1) && Quiet(run[|moves|])
    requires v < |run[|moves|].at|
    ensures t < |run[|moves|].at| && run[|moves|].at[t] == Client
    ensures u < |run[|moves|].at| && run[|moves|].at[u] == Blocked
    ensures v != t && Alive(run[|moves|].at[v]) ==> run[|moves|].at[v] == Blocked
  {
    hide MutexesRight, AllLocal, NoLostWakeup, Next, Quiet;
    var s := run[0];
    StepGood(s, t, Start(u), t);
    NextAt(s, t, Start(u), t);
    LinkedRest(run, moves);
    assert Starting(run[1], t, t, u);
    var last := RunStarting(run[1..], moves[1..], t, t, u);
    QuietWaits(run[|moves|], last, v);
    QuietWaits(run[|moves|], last, u);
  }

  /** The only way to end is to return from client code. */
  lemma FinishedByReturn(s: State, t: nat, a: Act, v: nat)
    requires Shape(s) && t < |s.at| && v < |s.at| && Enabled(s, t, a) && s.at[v] != Finished
    ensures Next(s, t, a).at[v] == Finished <==> v == t && s.at[t] == Client && a == Return
  {
  }
}
